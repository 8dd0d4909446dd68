/**
 * The local filesystem as a map from full path to file contents, and the
 * effect of a sequence of `open(path, "wb").write(data)` calls on it.
 */
module FileStore {
  import opened Prelude

  type Files = map<string, seq<byte>>

  /** One write of `data` to `path` in "wb" mode: the file is created or truncated first. */
  datatype FileWrite = FileWrite(path: string, data: seq<byte>)

  /** The files after performing `ws` in order on `files`. */
  function Apply(files: Files, ws: seq<FileWrite>): Files
  {
    if ws == [] then files
    else
      var last := ws[|ws| - 1];
      Apply(files, ws[..|ws| - 1])[last.path := last.data]
  }

  /** The directory contents, updated one write at a time. */
  class Disk {
    var files: Files

    /** `with open(path, "wb") as f: f.write(data)`: the file ends up holding exactly `data`. */
    method Write(path: string, data: seq<byte>)
      modifies this
      ensures files == Apply(old(files), [FileWrite(path, data)])
    {
      assert [FileWrite(path, data)][..0] == [];
      files := files[path := data];
    }
  }

  /** Writing `a` and then `b` is writing `a + b`. */
  lemma {:induction false} ApplyAppend(files: Files, a: seq<FileWrite>, b: seq<FileWrite>)
    ensures Apply(Apply(files, a), b) == Apply(files, a + b)
    decreases |b|
  {
    if b == [] {
      assert a + b == a;
    } else {
      assert (a + b)[..|a + b| - 1] == a + b[..|b| - 1];
      ApplyAppend(files, a, b[..|b| - 1]);
    }
  }

  /** A path no write targets keeps its previous presence and contents; nothing is ever deleted. */
  lemma {:induction false} ApplyLeavesOthers(files: Files, ws: seq<FileWrite>, path: string)
    requires forall i :: 0 <= i < |ws| ==> ws[i].path != path
    ensures path in Apply(files, ws) <==> path in files
    ensures path in files ==> Apply(files, ws)[path] == files[path]
    decreases |ws|
  {
    if ws != [] {
      ApplyLeavesOthers(files, ws[..|ws| - 1], path);
    }
  }

  /** Every path present before is still present afterwards. */
  lemma {:induction false} ApplyKeepsPaths(files: Files, ws: seq<FileWrite>)
    ensures files.Keys <= Apply(files, ws).Keys
    decreases |ws|
  {
    if ws != [] {
      ApplyKeepsPaths(files, ws[..|ws| - 1]);
    }
  }

  /** Last write wins: a path holds the data of the last write that targets it. */
  lemma {:induction false} ApplyLastWins(files: Files, ws: seq<FileWrite>, i: nat)
    requires i < |ws|
    requires forall j :: i < j < |ws| ==> ws[j].path != ws[i].path
    ensures ws[i].path in Apply(files, ws)
    ensures Apply(files, ws)[ws[i].path] == ws[i].data
    decreases |ws|
  {
    if i < |ws| - 1 {
      ApplyLastWins(files, ws[..|ws| - 1], i);
    }
  }
}
