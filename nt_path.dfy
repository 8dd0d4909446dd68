/**
 * Windows path handling (Python's `ntpath`, which is `os.path` for a
 * Windows service): `basename` and `join` as the service uses them to
 * build the path of a saved attachment.
 */
module NtPath {

  /** The primary separator and the alternative one that ntpath also accepts. */
  const Sep: char := '\\'
  const AltSep: char := '/'

  predicate IsSep(c: char) { c == Sep || c == AltSep }

  /** No directory separator anywhere in `s`. */
  predicate NoSep(s: string) { forall i :: 0 <= i < |s| ==> !IsSep(s[i]) }

  /** `s` starts with a drive such as `C:` (a colon as its second character). */
  predicate HasDrive(s: string) { |s| >= 2 && !IsSep(s[0]) && s[1] == ':' }

  /** Index just past the last separator of `s`, or 0 when `s` has none. */
  function TailStart(s: string): (k: nat)
    ensures k <= |s|
    ensures forall i :: k <= i < |s| ==> !IsSep(s[i])
    ensures k > 0 ==> IsSep(s[k - 1])
    ensures k == 0 ==> NoSep(s)
  {
    if s == [] then 0
    else if IsSep(s[|s| - 1]) then |s|
    else TailStart(s[..|s| - 1])
  }

  /**
   * `ntpath.basename`: what follows the last separator; a name without any
   * separator loses a leading drive (`C:x` gives `x`), exactly once.
   */
  function BaseName(p: string): (b: string)
    ensures NoSep(b)
    ensures |b| <= |p| && b == p[|p| - |b|..]
    ensures !NoSep(p) ==> IsSep(p[|p| - |b| - 1])
    ensures NoSep(p) ==> b == if HasDrive(p) then p[2..] else p
  {
    var k := TailStart(p);
    if k > 0 then p[k..]
    else if HasDrive(p) then p[2..]
    else p
  }

  /** Directory components are dropped: only the final component is kept. */
  lemma BaseNameDropsDirectories(dirs: string, c: char, name: string)
    requires IsSep(c) && NoSep(name)
    ensures BaseName(dirs + [c] + name) == name
  {
    var p := dirs + [c] + name;
    assert p[|dirs|] == c;
    assert !NoSep(p);
  }

  /**
   * The part of a path after its drive, followed by a separator unless it
   * is empty or already ends in one.
   */
  function PathPrefix(rest: string): string
  {
    if rest == [] || IsSep(rest[|rest| - 1]) then rest else rest + [Sep]
  }

  /**
   * What `join` puts before a plain name: the directory, with a separator
   * added only after a non-empty part following its drive (so a bare `C:`
   * gets none).
   */
  function DirPrefix(dir: string): string
  {
    if HasDrive(dir) then dir[..2] + PathPrefix(dir[2..]) else PathPrefix(dir)
  }

  /**
   * A final path component that Windows does not resolve to a file inside
   * the directory: empty, or made only of dots and spaces (`.` is the
   * directory itself, `..` its parent, and trailing dots and spaces are
   * trimmed from the rest).
   */
  predicate NamesDirectory(name: string)
  {
    forall i :: 0 <= i < |name| ==> name[i] == '.' || name[i] == ' '
  }

  /**
   * `path` names a file directly inside `dir`: the directory's prefix
   * followed by a name without separators that does not name a directory.
   */
  predicate DirectChild(dir: string, path: string)
  {
    var pre := DirPrefix(dir);
    |pre| <= |path| && path[..|pre|] == pre && NoSep(path[|pre|..]) && !NamesDirectory(path[|pre|..])
  }

  /** The entry name of a path inside `dir`. */
  function ChildName(dir: string, path: string): (n: string)
    requires DirectChild(dir, path)
    ensures n != [] && NoSep(n) && !NamesDirectory(n)
  {
    path[|DirPrefix(dir)|..]
  }

  /**
   * `ntpath.join(dir, name)` for a name with no separator and no drive of
   * its own: the name follows `DirPrefix(dir)`, so `C:\a` and `x` give
   * `C:\a\x` while `C:` and `x` give `C:x`. A UNC drive on `dir` is not
   * modelled.
   */
  function Join(dir: string, name: string): (path: string)
    ensures |path| == |DirPrefix(dir)| + |name|
  {
    DirPrefix(dir) + name
  }

  /** A separator-free name that does not name a directory, joined to `dir`, is a file directly inside it and can be read back. */
  lemma JoinStaysInDir(dir: string, name: string)
    requires NoSep(name) && !NamesDirectory(name)
    ensures DirectChild(dir, Join(dir, name))
    ensures ChildName(dir, Join(dir, name)) == name
  {
    var pre := DirPrefix(dir);
    assert Join(dir, name)[..|pre|] == pre;
    assert Join(dir, name)[|pre|..] == name;
  }

  /** Every path directly inside `dir` is the join of `dir` and its entry name. */
  lemma ChildIsJoin(dir: string, path: string)
    requires DirectChild(dir, path)
    ensures Join(dir, ChildName(dir, path)) == path
  {
    var pre := DirPrefix(dir);
    assert path == path[..|pre|] + path[|pre|..];
  }

  /** A bare drive as directory gets no separator; a directory ending in a name gets one. */
  lemma JoinSeparators()
    ensures Join("C:", "x") == "C:x"
    ensures Join("C:\\", "x") == "C:\\x"
    ensures Join("C:\\a", "x") == "C:\\a\\x"
  {
    assert HasDrive("C:") && "C:"[2..] == [];
    assert HasDrive("C:\\") && "C:\\"[2..] == "\\";
    assert HasDrive("C:\\a") && "C:\\a"[2..] == "\\a";
  }

  /** The drive of a path (`C:`), or the empty string when it has none. */
  function Drive(p: string): (d: string)
    ensures |d| == 0 || |d| == 2
  {
    if HasDrive(p) then p[..2] else []
  }

  function LowerAscii(c: char): char
  {
    if 'A' <= c <= 'Z' then (c as int + 32) as char else c
  }

  /** Two drives compare equal ignoring the case of ASCII letters. */
  predicate SameDrive(a: string, b: string)
  {
    |a| == |b| && forall i :: 0 <= i < |a| ==> LowerAscii(a[i]) == LowerAscii(b[i])
  }

  /**
   * `ntpath.join(dir, name)` as the library computes it for a separator-free
   * `name` (the only kind `basename` returns). A `name` with a drive of its
   * own replaces `dir` entirely when the drives differ, and is joined to the
   * rest of `dir` when they agree. A UNC drive on `dir` is not modelled.
   */
  function NtJoin(dir: string, name: string): (path: string)
    requires NoSep(name)
    ensures !HasDrive(name) ==> path == Join(dir, name)
    ensures HasDrive(name) && !SameDrive(Drive(dir), name[..2]) ==> path == name
  {
    if HasDrive(name) then
      if SameDrive(Drive(dir), name[..2]) then name[..2] + PathPrefix(dir[2..]) + name[2..]
      else name
    else Join(dir, name)
  }

  /**
   * Finding: the base name of `x/D:evil.txt` is `D:evil.txt`, and joining it
   * to a directory on drive C: gives the drive-relative path `D:evil.txt`,
   * which is not inside the directory.
   */
  lemma DriveNameEscapesDir()
    ensures BaseName("x/D:evil.txt") == "D:evil.txt"
    ensures NtJoin("C:\\svc\\attachments", "D:evil.txt") == "D:evil.txt"
    ensures !DirectChild("C:\\svc\\attachments", NtJoin("C:\\svc\\attachments", "D:evil.txt"))
  {
    BaseNameDropsDirectories("x", '/', "D:evil.txt");
    assert "x/D:evil.txt" == "x" + ['/'] + "D:evil.txt";
    var dir := "C:\\svc\\attachments";
    assert Drive(dir) == "C:";
    assert LowerAscii('C') != LowerAscii('D');
    assert !SameDrive(Drive(dir), "D:evil.txt"[..2]);
    assert |DirPrefix(dir)| > |"D:evil.txt"|;
  }
}
