/**
 * `save_attachments`: walk the message, and for every part whose
 * disposition is "attachment" and that has a filename, write its payload to
 * the attachment directory under the base name of the decoded filename.
 */
module AttachmentSaver {
  import opened Prelude
  import opened NtPath
  import opened MimeTree
  import opened HeaderDecoding
  import opened FileStore

  /**
   * The name an attachment is stored under: the base name of its decoded
   * filename, `None` when decoding the filename raises.
   */
  function SavedName(lib: Library, p: Part): (name: Option<string>)
    requires IsAttachment(p)
    ensures name.None? <==> DecodeFilename(lib, p.filename.value).None?
    ensures name.Some? ==> NoSep(name.value)
  {
    match DecodeFilename(lib, p.filename.value)
    case None => None
    case Some(decoded) => Some(BaseName(decoded))
  }

  /**
   * What handling one part does. `DecodeFails`: `decode_header` raises on
   * the filename. `OpenFails`: the base name is empty or made of dots and
   * spaces, so `open` is asked for the directory itself (or its parent) and
   * raises before writing. `WriteFails`: the part is a container, so `open`
   * truncates the file and writing its `None` payload raises.
   */
  datatype Action = Skip | Save(path: string, data: seq<byte>) | DecodeFails | OpenFails | WriteFails(path: string)

  predicate Fails(a: Action) { a.DecodeFails? || a.OpenFails? || a.WriteFails? }

  function ActionFor(lib: Library, dir: string, p: Part): (a: Action)
    ensures a.Skip? <==> !IsAttachment(p)
    ensures a.DecodeFails? <==> IsAttachment(p) && SavedName(lib, p).None?
    ensures a.OpenFails? <==>
      IsAttachment(p) && SavedName(lib, p).Some? && NamesDirectory(SavedName(lib, p).value)
    ensures a.Save? ==>
      p.Leaf? && SavedName(lib, p).Some? && a == Save(Join(dir, SavedName(lib, p).value), p.body)
    ensures a.WriteFails? ==>
      p.Multipart? && SavedName(lib, p).Some? && a == WriteFails(Join(dir, SavedName(lib, p).value))
    ensures a.Save? || a.WriteFails? ==> DirectChild(dir, a.path)
  {
    if !IsAttachment(p) then Skip
    else
      match SavedName(lib, p)
      case None => DecodeFails
      case Some(name) =>
        var path := Join(dir, name);
        if NamesDirectory(name) then OpenFails
        else
          JoinStaysInDir(dir, name);
          match Payload(p)
          case None => WriteFails(path)
          case Some(data) => Save(path, data)
  }

  /** The file writes one action performs. */
  function Effect(a: Action): seq<FileWrite>
  {
    match a
    case Save(path, data) => [FileWrite(path, data)]
    case WriteFails(path) => [FileWrite(path, [])]
    case _ => []
  }

  /** Handling `parts` in order raised an exception somewhere. */
  predicate Aborts(lib: Library, dir: string, parts: seq<Part>)
  {
    parts != [] &&
    (Aborts(lib, dir, parts[..|parts| - 1]) || Fails(ActionFor(lib, dir, parts[|parts| - 1])))
  }

  /** The writes of handling `parts` in order, up to the first exception. All stay directly inside `dir`. */
  function Writes(lib: Library, dir: string, parts: seq<Part>): (ws: seq<FileWrite>)
    ensures forall i :: 0 <= i < |ws| ==> DirectChild(dir, ws[i].path)
  {
    if parts == [] then []
    else
      var before := parts[..|parts| - 1];
      if Aborts(lib, dir, before) then Writes(lib, dir, before)
      else Writes(lib, dir, before) + Effect(ActionFor(lib, dir, parts[|parts| - 1]))
  }

  /** Once an exception is raised the remaining parts are not handled. */
  lemma {:induction false} AbortStops(lib: Library, dir: string, ps: seq<Part>, qs: seq<Part>)
    requires Aborts(lib, dir, ps)
    ensures Aborts(lib, dir, ps + qs)
    ensures Writes(lib, dir, ps + qs) == Writes(lib, dir, ps)
    decreases |qs|
  {
    if qs == [] {
      assert ps + qs == ps;
    } else {
      assert (ps + qs)[..|ps + qs| - 1] == ps + qs[..|qs| - 1];
      AbortStops(lib, dir, ps, qs[..|qs| - 1]);
    }
  }

  /** Handling one more part, when nothing has raised yet, performs that part's action. */
  lemma Extend(lib: Library, dir: string, parts: seq<Part>, i: nat)
    requires i < |parts| && !Aborts(lib, dir, parts[..i])
    ensures Aborts(lib, dir, parts[..i + 1]) == Fails(ActionFor(lib, dir, parts[i]))
    ensures Writes(lib, dir, parts[..i + 1]) == Writes(lib, dir, parts[..i]) + Effect(ActionFor(lib, dir, parts[i]))
  {
    assert parts[..i + 1][..i] == parts[..i];
  }

  /** An exception at part `i` ends the walk: the whole walk aborts with the writes made so far. */
  lemma AbortAt(lib: Library, dir: string, parts: seq<Part>, i: nat)
    requires i < |parts| && Aborts(lib, dir, parts[..i + 1])
    ensures Aborts(lib, dir, parts)
    ensures Writes(lib, dir, parts) == Writes(lib, dir, parts[..i + 1])
  {
    AbortStops(lib, dir, parts[..i + 1], parts[i + 1..]);
    assert parts[..i + 1] + parts[i + 1..] == parts;
  }

  /**
   * `for part in msg.walk()`: each part's action is carried out in walk
   * order; the method answers whether the loop ran to its end.
   */
  method SaveAttachments(lib: Library, dir: string, msg: Part, disk: Disk) returns (completed: bool)
    modifies disk
    ensures completed == !Aborts(lib, dir, Walk(msg))
    ensures disk.files == Apply(old(disk.files), Writes(lib, dir, Walk(msg)))
  {
    var parts := Walk(msg);
    for i := 0 to |parts|
      invariant !Aborts(lib, dir, parts[..i])
      invariant disk.files == Apply(old(disk.files), Writes(lib, dir, parts[..i]))
    {
      var part := parts[i];
      Extend(lib, dir, parts, i);
      ghost var done := Writes(lib, dir, parts[..i]);
      if part.disposition == Some("attachment") {
        var filename := part.filename;
        if filename.Some? && filename.value != "" {
          var decoded := DecodeFilename(lib, filename.value);
          if decoded.None? {
            // decode_header raised
            assert ActionFor(lib, dir, part) == DecodeFails;
            assert done + [] == done;
            AbortAt(lib, dir, parts, i);
            return false;
          }
          var name := BaseName(decoded.value);
          var path := Join(dir, name);
          assert Some(name) == SavedName(lib, part);
          if NamesDirectory(name) {
            // open() on the directory itself or its parent raises
            assert ActionFor(lib, dir, part) == OpenFails;
            assert done + [] == done;
            AbortAt(lib, dir, parts, i);
            return false;
          }
          match Payload(part) {
            case None =>
              assert ActionFor(lib, dir, part) == WriteFails(path);
              disk.Write(path, []);
              ApplyAppend(old(disk.files), done, [FileWrite(path, [])]);
              assert disk.files == Apply(old(disk.files), Writes(lib, dir, parts[..i + 1]));
              AbortAt(lib, dir, parts, i);
              return false;
            case Some(data) =>
              assert ActionFor(lib, dir, part) == Save(path, data);
              disk.Write(path, data);
              ApplyAppend(old(disk.files), done, [FileWrite(path, data)]);
          }
        } else {
          assert ActionFor(lib, dir, part) == Skip;
          assert done + [] == done;
        }
      } else {
        assert ActionFor(lib, dir, part) == Skip;
        assert done + [] == done;
      }
    }
    assert parts[..|parts|] == parts;
    assert disk.files == Apply(old(disk.files), Writes(lib, dir, parts));
    completed := true;
  }

  /**
   * Path containment: a path that is not directly inside `dir` keeps its
   * presence and contents; no file is ever removed.
   */
  lemma SaveStaysInDir(lib: Library, dir: string, parts: seq<Part>, files: Files, path: string)
    requires !DirectChild(dir, path)
    ensures path in Apply(files, Writes(lib, dir, parts)) <==> path in files
    ensures path in files ==> Apply(files, Writes(lib, dir, parts))[path] == files[path]
    ensures files.Keys <= Apply(files, Writes(lib, dir, parts)).Keys
  {
    ApplyLeavesOthers(files, Writes(lib, dir, parts), path);
    ApplyKeepsPaths(files, Writes(lib, dir, parts));
  }

  /** Parts that are not attachments (inline, body, no filename) change nothing. */
  lemma {:induction false} OnlyAttachmentsWrite(lib: Library, dir: string, parts: seq<Part>)
    ensures Aborts(lib, dir, parts) == Aborts(lib, dir, Attachments(parts))
    ensures Writes(lib, dir, parts) == Writes(lib, dir, Attachments(parts))
    decreases |parts|
  {
    if parts != [] {
      var before, last := parts[..|parts| - 1], parts[|parts| - 1];
      var atts, atts' := Attachments(parts), Attachments(before);
      OnlyAttachmentsWrite(lib, dir, before);
      if IsAttachment(last) {
        assert atts == atts' + [last];
        assert atts[..|atts| - 1] == atts' && atts[|atts| - 1] == last;
      } else {
        assert atts == atts';
        assert ActionFor(lib, dir, last) == Skip;
        assert Writes(lib, dir, parts) == Writes(lib, dir, before) + [];
      }
    }
  }

  /** `w` writes the whole body of the attachment leaf `p` to its saved name. */
  predicate SavesBody(lib: Library, dir: string, p: Part, w: FileWrite)
  {
    IsAttachment(p) && p.Leaf? && SavedName(lib, p).Some? &&
    w == FileWrite(Join(dir, SavedName(lib, p).value), p.body)
  }

  /** One part more: an attachment adds exactly the write of its body, any other part adds nothing. */
  lemma OneWriteStep(lib: Library, dir: string, parts: seq<Part>)
    requires parts != [] && !Aborts(lib, dir, parts)
    ensures !Aborts(lib, dir, parts[..|parts| - 1])
    ensures IsAttachment(parts[|parts| - 1]) ==>
      Attachments(parts) == Attachments(parts[..|parts| - 1]) + [parts[|parts| - 1]] &&
      exists w :: SavesBody(lib, dir, parts[|parts| - 1], w) &&
        Writes(lib, dir, parts) == Writes(lib, dir, parts[..|parts| - 1]) + [w]
    ensures !IsAttachment(parts[|parts| - 1]) ==>
      Attachments(parts) == Attachments(parts[..|parts| - 1]) &&
      Writes(lib, dir, parts) == Writes(lib, dir, parts[..|parts| - 1])
  {
    var before, last := parts[..|parts| - 1], parts[|parts| - 1];
    var a := ActionFor(lib, dir, last);
    if IsAttachment(last) {
      assert a.Save?;
      var w := FileWrite(a.path, a.data);
      assert SavesBody(lib, dir, last, w);
      assert Writes(lib, dir, parts) == Writes(lib, dir, before) + [w];
    } else {
      assert a == Skip;
      assert Writes(lib, dir, before) + [] == Writes(lib, dir, before);
    }
  }

  /**
   * When nothing raises, there is exactly one write per attachment, in walk
   * order, of that attachment's body to its saved name.
   */
  lemma {:induction false} OneWritePerAttachment(lib: Library, dir: string, parts: seq<Part>)
    requires !Aborts(lib, dir, parts)
    ensures |Writes(lib, dir, parts)| == |Attachments(parts)|
    ensures forall i :: 0 <= i < |Attachments(parts)| ==>
      SavesBody(lib, dir, Attachments(parts)[i], Writes(lib, dir, parts)[i])
    decreases |parts|
  {
    if parts != [] {
      var before, last := parts[..|parts| - 1], parts[|parts| - 1];
      OneWriteStep(lib, dir, parts);
      OneWritePerAttachment(lib, dir, before);
    }
  }

  /**
   * Last write wins: when the `j`-th attachment is the last one saved under
   * its name, the file of that name holds its body, whatever earlier
   * attachments of the same name held.
   */
  lemma LaterAttachmentWins(lib: Library, dir: string, parts: seq<Part>, files: Files, j: nat)
    requires !Aborts(lib, dir, parts)
    requires j < |Attachments(parts)|
    requires forall k :: j < k < |Attachments(parts)| ==>
      SavedName(lib, Attachments(parts)[k]) != SavedName(lib, Attachments(parts)[j])
    ensures SavedName(lib, Attachments(parts)[j]).Some?
    ensures Join(dir, SavedName(lib, Attachments(parts)[j]).value) in Apply(files, Writes(lib, dir, parts))
    ensures Some(Apply(files, Writes(lib, dir, parts))[Join(dir, SavedName(lib, Attachments(parts)[j]).value)])
      == Payload(Attachments(parts)[j])
  {
    var atts, ws := Attachments(parts), Writes(lib, dir, parts);
    OneWritePerAttachment(lib, dir, parts);
    forall k | j < k < |ws|
      ensures ws[k].path != ws[j].path
    {
    }
    ApplyLastWins(files, ws, j);
  }
}
