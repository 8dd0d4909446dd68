/**
 * One poll tick, `fetch_and_save_attachments`: log in, select the inbox,
 * search for unseen messages, fetch only the last one, log its sender, save
 * its attachments, log out. The server's replies are inputs.
 */
module MailTick {
  import opened Prelude
  import opened MimeTree
  import opened HeaderDecoding
  import opened FileStore
  import opened AttachmentSaver
  import NtPath

  /** A message id as returned by SEARCH. */
  type Id = string

  /** What an IMAP call does: raise an exception, or return a status and data. */
  datatype Reply<T> = Raises | Returns(status: string, value: T)

  /**
   * Connecting and logging in: success, an `IMAP4.error` (caught by the
   * tick), or any other failure such as a network error (not caught).
   */
  datatype LoginReply = LoggedIn | LoginRejected | ConnectFailed

  /** A fetched message as the parser sees it: its From header, if any, and its part tree. */
  datatype Message = Message(from: Option<string>, root: Part)

  /** The server's behaviour during one tick. The reply to SELECT is ignored by the tick and not modelled. */
  datatype Mailbox = Mailbox(
    login: LoginReply,
    search: Reply<seq<Id>>,
    fetch: Id -> Reply<Message>)

  /** How the tick ended: by reaching `logout`, by an early `return`, or by an exception. */
  datatype TickEnd = LoggedOut | ReturnedEarly | Raised

  /** What a tick did: ids fetched, ids whose message reached `save_attachments`, senders logged. */
  datatype Tick = Tick(fetched: seq<Id>, parsed: seq<Id>, senders: seq<string>, end: TickEnd)

  /** A tick's report together with the file writes it performed. */
  datatype Run = Run(tick: Tick, writes: seq<FileWrite>)

  /** `email_ids[-1:]`: the last id alone, or nothing when there are no ids. */
  function LastOnly(ids: seq<Id>): (selected: seq<Id>)
    ensures |selected| == if ids == [] then 0 else 1
    ensures ids != [] ==> selected[0] == ids[|ids| - 1]
  {
    if ids == [] then [] else ids[|ids| - 1..]
  }

  /** State of the message loop: what has been done so far and whether an exception escaped. */
  datatype Progress = Progress(
    fetched: seq<Id>, parsed: seq<Id>, senders: seq<string>, writes: seq<FileWrite>, raised: bool)

  /** Handling one id: fetch it, skip it on a non-OK status, else decode the sender and save attachments. */
  function Step(lib: Library, dir: string, fetch: Id -> Reply<Message>, p: Progress, id: Id): (q: Progress)
    ensures q.fetched == p.fetched + [id]
  {
    var p' := p.(fetched := p.fetched + [id]);
    match fetch(id)
    case Raises => p'.(raised := true)
    case Returns(status, msg) =>
      if status != "OK" then p'
      else
        match msg.from
        // `decode_header(None)` raises TypeError
        case None => p'.(raised := true)
        case Some(header) =>
          match DecodeSender(lib, header)
          // `decode_header` raises HeaderParseError
          case None => p'.(raised := true)
          case Some(sender) =>
            var parts := Walk(msg.root);
            Progress(p'.fetched, p.parsed + [id], p.senders + [sender],
                     p.writes + Writes(lib, dir, parts), Aborts(lib, dir, parts))
  }

  /**
   * The `for` loop over `ids`: every id is fetched, in order, until an
   * exception escapes; the id that raised is the last one fetched.
   */
  function Messages(lib: Library, dir: string, fetch: Id -> Reply<Message>, ids: seq<Id>): (p: Progress)
    ensures |p.fetched| <= |ids| && p.fetched == ids[..|p.fetched|]
    ensures !p.raised ==> p.fetched == ids
    ensures |p.parsed| == |p.senders| <= |p.fetched|
  {
    if ids == [] then Progress([], [], [], [], false)
    else
      var before := Messages(lib, dir, fetch, ids[..|ids| - 1]);
      if before.raised then before
      else Step(lib, dir, fetch, before, ids[|ids| - 1])
  }

  /** The whole tick. */
  function TickRun(lib: Library, dir: string, box: Mailbox): Run
  {
    match box.login
    case ConnectFailed => Run(Tick([], [], [], Raised), [])
    case LoginRejected => Run(Tick([], [], [], ReturnedEarly), [])
    case LoggedIn =>
      match box.search
      case Raises => Run(Tick([], [], [], Raised), [])
      case Returns(status, ids) =>
        if status != "OK" then Run(Tick([], [], [], ReturnedEarly), [])
        else
          var p := Messages(lib, dir, box.fetch, LastOnly(ids));
          Run(Tick(p.fetched, p.parsed, p.senders, if p.raised then Raised else LoggedOut), p.writes)
  }

  /** Once an exception has escaped, later ids are not handled. */
  lemma {:induction false} RaiseStops(lib: Library, dir: string, fetch: Id -> Reply<Message>, ids: seq<Id>, more: seq<Id>)
    requires Messages(lib, dir, fetch, ids).raised
    ensures Messages(lib, dir, fetch, ids + more) == Messages(lib, dir, fetch, ids)
    decreases |more|
  {
    if more == [] {
      assert ids + more == ids;
    } else {
      assert (ids + more)[..|ids + more| - 1] == ids + more[..|more| - 1];
      RaiseStops(lib, dir, fetch, ids, more[..|more| - 1]);
    }
  }

  /** The service's `fetch_and_save_attachments`, writing into `disk`. */
  method FetchAndSaveAttachments(lib: Library, dir: string, box: Mailbox, disk: Disk) returns (t: Tick)
    modifies disk
    ensures t == TickRun(lib, dir, box).tick
    ensures disk.files == Apply(old(disk.files), TickRun(lib, dir, box).writes)
  {
    match box.login {
      case ConnectFailed => return Tick([], [], [], Raised);
      case LoginRejected => return Tick([], [], [], ReturnedEarly);
      case LoggedIn =>
    }
    // mail.select("INBOX"): the reply is not looked at
    if box.search.Raises? {
      return Tick([], [], [], Raised);
    }
    var status, ids := box.search.status, box.search.value;
    if status != "OK" {
      return Tick([], [], [], ReturnedEarly);
    }
    var selected := LastOnly(ids);
    var fetched, parsed, senders := [], [], [];
    ghost var writes := [];
    for i := 0 to |selected|
      invariant Messages(lib, dir, box.fetch, selected[..i]) == Progress(fetched, parsed, senders, writes, false)
      invariant disk.files == Apply(old(disk.files), writes)
    {
      var id := selected[i];
      assert selected[..i + 1][..i] == selected[..i];
      fetched := fetched + [id];
      var reply := box.fetch(id);
      if reply.Raises? {
        RaiseStops(lib, dir, box.fetch, selected[..i + 1], selected[i + 1..]);
        assert selected[..i + 1] + selected[i + 1..] == selected;
        return Tick(fetched, parsed, senders, Raised);
      }
      if reply.status != "OK" {
        continue;
      }
      var msg := reply.value;
      if msg.from.None? {
        RaiseStops(lib, dir, box.fetch, selected[..i + 1], selected[i + 1..]);
        assert selected[..i + 1] + selected[i + 1..] == selected;
        return Tick(fetched, parsed, senders, Raised);
      }
      var sender := DecodeSender(lib, msg.from.value);
      if sender.None? {
        RaiseStops(lib, dir, box.fetch, selected[..i + 1], selected[i + 1..]);
        assert selected[..i + 1] + selected[i + 1..] == selected;
        return Tick(fetched, parsed, senders, Raised);
      }
      senders := senders + [sender.value];
      parsed := parsed + [id];
      var completed := SaveAttachments(lib, dir, msg.root, disk);
      ApplyAppend(old(disk.files), writes, Writes(lib, dir, Walk(msg.root)));
      writes := writes + Writes(lib, dir, Walk(msg.root));
      if !completed {
        RaiseStops(lib, dir, box.fetch, selected[..i + 1], selected[i + 1..]);
        assert selected[..i + 1] + selected[i + 1..] == selected;
        return Tick(fetched, parsed, senders, Raised);
      }
    }
    assert selected[..|selected|] == selected;
    // mail.logout()
    t := Tick(fetched, parsed, senders, LoggedOut);
  }

  /** The loop over a single id is one step from the empty progress. */
  lemma MessagesOne(lib: Library, dir: string, fetch: Id -> Reply<Message>, id: Id)
    ensures Messages(lib, dir, fetch, [id]) == Step(lib, dir, fetch, Progress([], [], [], [], false), id)
  {
    assert [id][..0] == [];
  }

  /** A failed login ends the tick at once: nothing fetched, nothing written, no logout. */
  lemma LoginFailureDoesNothing(lib: Library, dir: string, box: Mailbox)
    requires !box.login.LoggedIn?
    ensures TickRun(lib, dir, box).tick.fetched == [] && TickRun(lib, dir, box).writes == []
    ensures TickRun(lib, dir, box).tick.end == if box.login.LoginRejected? then ReturnedEarly else Raised
  {
  }

  /** A search that raises or answers other than OK ends the tick: nothing fetched or written, no logout. */
  lemma SearchFailureDoesNothing(lib: Library, dir: string, box: Mailbox)
    requires box.login.LoggedIn?
    requires box.search.Raises? || box.search.status != "OK"
    ensures TickRun(lib, dir, box).tick.fetched == [] && TickRun(lib, dir, box).writes == []
    ensures TickRun(lib, dir, box).tick.end != LoggedOut
  {
  }

  /** With no unseen message nothing is fetched or written, and the session is logged out. */
  lemma NoUnseenMessage(lib: Library, dir: string, box: Mailbox)
    requires box.login.LoggedIn? && box.search.Returns? && box.search.status == "OK"
    requires box.search.value == []
    ensures TickRun(lib, dir, box).tick.fetched == [] && TickRun(lib, dir, box).writes == []
    ensures TickRun(lib, dir, box).tick.end == LoggedOut
  {
    assert LastOnly(box.search.value) == [];
  }

  /**
   * At most one message is fetched per tick, and it is the last unseen id;
   * when the search succeeds with ids, that id is always fetched.
   */
  lemma OnlyLastUnseenFetched(lib: Library, dir: string, box: Mailbox)
    ensures |TickRun(lib, dir, box).tick.fetched| <= 1
    ensures TickRun(lib, dir, box).tick.fetched != [] ==>
      box.login.LoggedIn? && box.search.Returns? && box.search.value != [] &&
      TickRun(lib, dir, box).tick.fetched == [box.search.value[|box.search.value| - 1]]
    ensures box.login.LoggedIn? && box.search.Returns? && box.search.status == "OK" ==>
      TickRun(lib, dir, box).tick.fetched == LastOnly(box.search.value)
  {
    if box.login.LoggedIn? && box.search.Returns? && box.search.status == "OK" {
      var selected := LastOnly(box.search.value);
      var p := Messages(lib, dir, box.fetch, selected);
      if selected != [] {
        MessagesOne(lib, dir, box.fetch, selected[0]);
        assert selected == [selected[0]];
      }
    }
  }

  /** The last unseen id, when the login and search succeed with at least one id. */
  predicate SelectsMessage(box: Mailbox)
  {
    box.login.LoggedIn? && box.search.Returns? && box.search.status == "OK" && box.search.value != []
  }

  function LastId(box: Mailbox): Id
    requires SelectsMessage(box)
  {
    box.search.value[|box.search.value| - 1]
  }

  /** A fetch answered other than OK writes nothing, and the tick still logs out. */
  lemma FailedFetchWritesNothing(lib: Library, dir: string, box: Mailbox)
    requires SelectsMessage(box)
    requires box.fetch(LastId(box)).Returns? && box.fetch(LastId(box)).status != "OK"
    ensures TickRun(lib, dir, box).writes == [] && TickRun(lib, dir, box).tick.parsed == []
    ensures TickRun(lib, dir, box).tick.end == LoggedOut
  {
    MessagesOne(lib, dir, box.fetch, LastId(box));
  }

  /**
   * A fetched message whose From header is missing or cannot be decoded
   * raises before any attachment is looked at: nothing is written and no
   * sender is logged.
   */
  lemma UndecodableSenderRaises(lib: Library, dir: string, box: Mailbox)
    requires SelectsMessage(box)
    requires box.fetch(LastId(box)).Returns? && box.fetch(LastId(box)).status == "OK"
    requires box.fetch(LastId(box)).value.from.None? ||
      DecodeSender(lib, box.fetch(LastId(box)).value.from.value).None?
    ensures TickRun(lib, dir, box).writes == [] && TickRun(lib, dir, box).tick.senders == []
    ensures TickRun(lib, dir, box).tick.fetched == [LastId(box)]
    ensures TickRun(lib, dir, box).tick.end == Raised
  {
    MessagesOne(lib, dir, box.fetch, LastId(box));
  }

  /**
   * A fetched message with a decodable sender has that sender logged and
   * its attachments saved exactly as `save_attachments` does.
   */
  lemma TickSavesLastMessage(lib: Library, dir: string, box: Mailbox)
    requires SelectsMessage(box)
    requires box.fetch(LastId(box)).Returns? && box.fetch(LastId(box)).status == "OK"
    requires box.fetch(LastId(box)).value.from.Some?
    requires DecodeSender(lib, box.fetch(LastId(box)).value.from.value).Some?
    ensures TickRun(lib, dir, box).tick.parsed == [LastId(box)]
    ensures TickRun(lib, dir, box).tick.senders ==
      [DecodeSender(lib, box.fetch(LastId(box)).value.from.value).value]
    ensures TickRun(lib, dir, box).writes == Writes(lib, dir, Walk(box.fetch(LastId(box)).value.root))
    ensures TickRun(lib, dir, box).tick.end ==
      if Aborts(lib, dir, Walk(box.fetch(LastId(box)).value.root)) then Raised else LoggedOut
  {
    MessagesOne(lib, dir, box.fetch, LastId(box));
  }

  /**
   * `logout` is reached exactly on the normal path: login and search
   * succeed, and the selected message (if any) is skipped for its fetch
   * status or is handled without an exception.
   */
  lemma LogoutOnlyOnNormalPath(lib: Library, dir: string, box: Mailbox)
    ensures TickRun(lib, dir, box).tick.end == LoggedOut <==>
      box.login.LoggedIn? && box.search.Returns? && box.search.status == "OK" &&
      (box.search.value == [] ||
       (box.fetch(LastId(box)).Returns? &&
        (box.fetch(LastId(box)).status != "OK" ||
         (box.fetch(LastId(box)).value.from.Some? &&
          DecodeSender(lib, box.fetch(LastId(box)).value.from.value).Some? &&
          !Aborts(lib, dir, Walk(box.fetch(LastId(box)).value.root))))))
  {
    if SelectsMessage(box) {
      MessagesOne(lib, dir, box.fetch, LastId(box));
    }
  }

  /** A tick changes only files directly inside the attachment directory, and removes none. */
  lemma TickStaysInDir(lib: Library, dir: string, box: Mailbox, files: Files, path: string)
    requires !NtPath.DirectChild(dir, path)
    ensures path in Apply(files, TickRun(lib, dir, box).writes) <==> path in files
    ensures path in files ==> Apply(files, TickRun(lib, dir, box).writes)[path] == files[path]
    ensures files.Keys <= Apply(files, TickRun(lib, dir, box).writes).Keys
  {
    var ws := TickRun(lib, dir, box).writes;
    if SelectsMessage(box) {
      MessagesOne(lib, dir, box.fetch, LastId(box));
    }
    assert forall i :: 0 <= i < |ws| ==> NtPath.DirectChild(dir, ws[i].path);
    ApplyLeavesOthers(files, ws, path);
    ApplyKeepsPaths(files, ws);
  }
}
