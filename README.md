# Email attachment service: verified model of the poll tick

The service is a Windows background process. Once a minute it logs in to an
IMAP mailbox and searches the inbox for unseen messages. It fetches only the
most recent one, logs its sender and walks the message's MIME parts. Every
part whose content disposition is `attachment` and that has a filename is
written into a single attachment directory, under the base name of the
decoded filename. Then it logs out.

This project models that tick in Dafny and proves what it does:

- **NtPath** (`nt_path.dfy`): `ntpath.basename`, and `ntpath.join` both as
  the library computes it (`NtJoin`) and in the corrected form that the saver
  and the tick use (`Join`). Both `/` and `\` count as separators. It also holds the
  path-containment predicate `DirectChild`.
- **MimeTree** (`mime_tree.dfy`): the part tree, `walk()` as a pre-order
  traversal, `get_payload(decode=True)`, and the rule that makes a part an attachment.
- **HeaderDecoding** (`header_decoding.dfy`): decoding of filenames and of
  the sender, each with its fallback. The email library's `decode_header`
  and the byte codecs are inputs, given as functions in a `Library` value.
  `decode_header` may raise (a malformed encoded word); the codecs are total.
- **FileStore** (`file_store.dfy`): the filesystem as a map from full path
  to contents. The `Disk` class updates it in place, one `"wb"` write at a
  time, and `Apply` gives the effect of a sequence of writes.
- **AttachmentSaver** (`attachment_saver.dfy`): `save_attachments` as a
  loop method, proved against the specification functions `Writes` and
  `Aborts`.
- **MailTick** (`mail_tick.dfy`): `fetch_and_save_attachments` as a method,
  proved against `TickRun`. The server's replies to login, search and fetch
  are inputs (`Mailbox`).

Collision policy: files are opened with `"wb"`, so two attachments with the
same base name overwrite each other silently. The later one wins
(`LaterAttachmentWins`). Files that are not written keep their contents.
The model compares names exactly, character by character. Windows also
treats names that differ only in letter case or in trailing dots and spaces
as one file; those collisions are not captured (see "Left out").

Where the design description and the code disagree, the model follows the
code:

- The session is logged out only on the normal path. A failed login, a
  non-OK search or any exception skips `logout`.
- An exception while saving one attachment does not stay local to that
  attachment. It ends the whole tick, so the remaining parts are not saved
  and there is no logout.

The code raises in the following situations, and the model keeps each:

- A message without a `From` header. `decode_header(None)` raises TypeError.
- A `From` header or an attachment filename holding a malformed encoded
  word, such as `=?utf-8?b?a?=` (bad base64). `decode_header` raises
  HeaderParseError. For the sender this happens before any attachment is
  looked at; for a filename it happens before the file is opened.
- An attachment whose base name is empty or made only of dots and spaces
  (`.`, `..`, `...`). The joined path then names the directory itself or
  its parent, and `open` raises before anything is written.
- A multipart container marked as an attachment with a filename. `open`
  truncates the file, and writing its `None` payload then raises, which
  leaves the file empty.

## Model

| member | source | states |
|---|---|---|
| `NtPath.BaseName` | main.py:105 | the base name is a separator-free suffix of the filename. It starts right after the last separator. When there is no separator, a leading drive such as `C:` is dropped |
| `NtPath.BaseNameDropsDirectories` | main.py:105 | every directory component is discarded. `../../x` and `a\b/x` both give `x` |
| `NtPath.Join` | main.py:106 | the path of a saved file is the directory followed by the name. A separator is inserted only after a non-empty path part that does not already end in one, so `C:` and `x` give `C:x`. This is the corrected join that the saver and the tick use |
| `NtPath.JoinSeparators` | main.py:106 | `C:` joined with `x` gives `C:x`, `C:\` gives `C:\x`, and `C:\a` gives `C:\a\x` |
| `NtPath.JoinStaysInDir` | main.py:105-106 | joining a separator-free name that is not empty and not made only of dots and spaces gives a direct child of the directory, and the name can be read back from it |
| `NtPath.ChildIsJoin` | main.py:106 | every direct child of the directory is the join of the directory and its entry name |
| `NtPath.NtJoin` | main.py:106 | `ntpath.join` as written. It equals `Join` for a name without a drive, including the bare-drive directory `C:`, where no separator is inserted. A name with a different drive replaces the directory entirely |
| `NtPath.DriveNameEscapesDir` | main.py:105-106 | the filename `x/D:evil.txt` has base name `D:evil.txt`. Joined to `C:\svc\attachments`, it gives `D:evil.txt`, which is outside the directory |
| `MimeTree.Payload` | main.py:109 | a decoded payload exists exactly for non-multipart parts |
| `MimeTree.Walk` | main.py:94 | the walk starts with the message itself |
| `MimeTree.WalkSize` | main.py:94 | the walk has exactly as many entries as the tree has parts |
| `MimeTree.WalkVisitsContained` | main.py:94 | a part is visited exactly when it lies in the tree, at any depth |
| `MimeTree.WalkFindsAllAttachments` | main.py:94-97 | the number of attachments found by walking equals the number in the tree, whatever the nesting |
| `MimeTree.Attachments` | main.py:95-97 | the selected parts all have disposition exactly `attachment` and a non-empty filename. They are taken from the walk, and every attachment of the walk is selected as often as it occurs there |
| `MimeTree.AttachmentsAppend` | main.py:94-97 | selection keeps walk order: the attachments of two consecutive stretches of parts are those of the first followed by those of the second |
| `HeaderDecoding.CharsetOrUtf8` | main.py:102 | a missing or empty charset becomes `utf-8`. Any other charset is kept |
| `HeaderDecoding.DecodeFilename` | main.py:98-103 | there is no name exactly when `decode_header` raises. Otherwise an unencoded filename is kept, and encoded bytes are decoded with the declared charset (or UTF-8) and replacement characters |
| `HeaderDecoding.DecodeSender` | main.py:80-86 | there is no sender exactly when `decode_header` raises. Otherwise an unencoded sender is kept, and encoded bytes are decoded as strict UTF-8, whatever their charset, falling back to UTF-8 with replacement |
| `HeaderDecoding.SenderIsReplacingUtf8` | main.py:82-86 | with consistent codecs, the strict-then-replace fallback is one replacing UTF-8 decode, the same as the filename decoder gives for a UTF-8 or missing charset |
| `FileStore.Disk.Write` | main.py:108-109 | after a `"wb"` write, the file holds exactly the data written. Every other file is unchanged |
| `FileStore.ApplyLeavesOthers` | main.py:108-109 | a path that no write targets keeps whether it exists and what it holds |
| `FileStore.ApplyKeepsPaths` | main.py:108-109 | writing never removes a file |
| `FileStore.ApplyLastWins` | main.py:108-109 | a path holds the data of the last write to it |
| `FileStore.ApplyAppend` | main.py:94-109 | performing two batches of writes one after the other is performing their concatenation |
| `AttachmentSaver.SavedName` | main.py:98-105 | there is a stored name exactly when the filename decodes. It is the base name of the decoded filename and contains no separator |
| `AttachmentSaver.ActionFor` | main.py:95-109 | a non-attachment part is skipped. An attachment whose filename does not decode raises. A saved name that is empty or made only of dots and spaces makes `open` fail. Otherwise the attachment is saved at the join of the directory and its saved name, with its body, or, for a container, the write fails after the file is truncated. Every file written is directly inside the directory |
| `AttachmentSaver.Writes` | main.py:94-109 | every write of `save_attachments` targets a path directly inside the attachment directory |
| `AttachmentSaver.AbortStops` | main.py:94-109 | after an exception no further part is handled and no further write happens |
| `AttachmentSaver.SaveAttachments` | main.py:93-110 | the loop performs the specification's writes, in walk order, and reports whether it ran to the end |
| `AttachmentSaver.SaveStaysInDir` | main.py:105-109 | a path outside the attachment directory keeps its presence and contents, and no file is removed |
| `AttachmentSaver.OnlyAttachmentsWrite` | main.py:95-97 | inline parts, body parts and attachments without a filename cause no write and no exception |
| `AttachmentSaver.OneWritePerAttachment` | main.py:94-109 | when nothing raises, the i-th write saves the i-th attachment's body under its saved name. There is exactly one write per attachment, in walk order |
| `AttachmentSaver.LaterAttachmentWins` | main.py:106-109 | when several attachments share a saved name, the file holds the body of the last of them |
| `MailTick.LastOnly` | main.py:69-70 | `email_ids[-1:]` is empty for no ids, and otherwise the last id alone |
| `MailTick.Step` | main.py:71-89 | handling an id always fetches it first |
| `MailTick.UndecodableSenderRaises` | main.py:80-81 | a fetched message whose From header is missing or does not decode raises: nothing is written, no sender is logged, and there is no logout |
| `MailTick.Messages` | main.py:70-89 | ids are fetched in order, and the fetched ids are a prefix of the list. All ids are fetched unless an exception escapes. One sender is logged per parsed message |
| `MailTick.RaiseStops` | main.py:70-89 | an exception leaves the loop, so later ids are not handled |
| `MailTick.FetchAndSaveAttachments` | main.py:55-91 | the tick reports and writes exactly what the specification `TickRun` gives for the server's replies |
| `MailTick.LoginFailureDoesNothing` | main.py:56-61 | a failed login or connection fetches and writes nothing and does not log out. A rejected login returns; a connection error raises |
| `MailTick.SearchFailureDoesNothing` | main.py:63-67 | a search that raises or is not OK fetches and writes nothing and does not log out |
| `MailTick.NoUnseenMessage` | main.py:69-91 | with no unseen id, nothing is fetched or written, and logout still happens |
| `MailTick.OnlyLastUnseenFetched` | main.py:69-71 | at most one message is fetched per tick, and it is the last unseen id. Earlier ids are never fetched |
| `MailTick.FailedFetchWritesNothing` | main.py:71-74 | a non-OK fetch writes nothing, parses nothing, and the tick goes on to logout |
| `MailTick.TickSavesLastMessage` | main.py:76-89 | a fetched message whose sender decodes has that sender logged and its attachments saved exactly as `save_attachments` specifies. The tick logs out unless saving raised |
| `MailTick.LogoutOnlyOnNormalPath` | main.py:55-91 | logout happens exactly when login and search succeed and the selected message, if any, is skipped for its fetch status, or has a decodable sender and is saved without an exception |
| `MailTick.TickStaysInDir` | main.py:93-109 | a whole tick changes only files directly inside the attachment directory: every other path keeps its presence and contents, and no file is removed |

## Findings

| source | as written | input that shows it | evidently intended | confidence | as-written member | corrected member |
|---|---|---|---|---|---|---|
| main.py:105-106 | `os.path.join(self.attachment_dir, os.path.basename(filename))` with `os.path` being `ntpath` | attachment filename `x/D:evil.txt` (or `C:D:evil.txt`) while the attachment directory is on drive C: | the file is written directly inside the attachment directory | not executed; follows from ntpath's documented drive handling in `basename` and `join` | `NtPath.NtJoin`, `NtPath.DriveNameEscapesDir` | `NtPath.Join`, `NtPath.JoinStaysInDir` |

`basename` strips at most one leading drive and keeps whatever follows the
last separator. A name such as `D:evil.txt` therefore survives it. `join`
then sees a drive different from the directory's and discards the
directory, so the file lands in the current directory of drive D:. The
saver and the tick use the corrected `Join`, which places every name that
is not made only of dots and spaces directly under the directory. Such
dot-and-space names would name the directory or its parent instead, and
`open` fails on them, so they are never written. That is what the
containment lemmas are proved for.

## Left out

- The Windows service framework (registration, `SvcStop`, `HandleCommandLine`): host plumbing.
- The `SvcDoRun` loop, the 60-second sleep and the `running` flag set from another thread: timing and cross-thread signalling. Every exception a tick raises ends as `Raised` in the tick report; the loop catches it and logs it.
- Logging and reading the configuration: I/O.
- The network connection. The replies to login, search and fetch are inputs. The reply to `select` is ignored by the code and is not an input. A failed SELECT makes imaplib raise at SEARCH, which the model represents as a search that raises.
- The failure of `logout` itself, and imaplib's internal handling of protocol replies (`BAD` raising).
- `email.message_from_bytes`, `get_content_disposition`, `get_filename` and the shape of the fetched data. The parsed message is taken as input.
- AttachmentSaver.LaterAttachmentWins: saved names are map keys compared exactly, so the lemma covers only attachments whose names are identical. NTFS is case-insensitive and ignores trailing dots and spaces, so `A.pdf`, `a.pdf` and `a.pdf.` are one file on disk, and the later of them overwrites the earlier even though the model keeps them apart.
- HeaderDecoding.DecodeFilename: an unknown charset name makes `bytes.decode` raise LookupError; the model takes the codec as total.
- NtPath.BaseName: a name that begins with two separators (a UNC prefix such as `\\server\share`) is treated by ntpath as a drive and can give an empty base name. The model takes what follows the last separator.
- NtPath.NtJoin: a UNC attachment directory is not modelled. The drive comparison folds case only for ASCII letters.
- Operating-system write failures other than a base name that is empty or made only of dots and spaces (reserved characters, permissions, a full disk) and partially written files.
