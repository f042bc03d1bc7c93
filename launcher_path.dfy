/** The path arithmetic of the launcher stub: from the canonical path of the
    launcher's own executable to the absolute path of the bundled helper.

    The launcher is installed as root/dir/launcher; the helper lives at
    root/Helpers/.../Snap-O Network Inspector.  The root is what is left of the
    canonical path once its last two components (the file name and its parent
    directory) are cut off at the last '/', twice, so a launcher placed deeper,
    at root/A/B/launcher, looks for its helper under root/A. */
module LauncherPath {

  // A `string` here is the byte sequence of a C string: each `char` stands for
  // one byte, so `|s|` is strlen(s) and the size check counts bytes.

  datatype Option<+T> = None | Some(value: T)

  /** The NUL character that terminates a C string. */
  const Nul: char := '\0'

  /** kHelperRelativeExecutable: where the helper lives below the installation root. */
  const HelperRelativeExecutable: string :=
    "Helpers/" + "Snap-O Network Inspector.app/" + "Contents/MacOS/" + "Snap-O Network Inspector"

  /** A C string's contents never hold its terminator. */
  predicate NoNul(s: string) {
    Nul !in s
  }

  /** Number of occurrences of `c` in `s`. */
  function Occurrences(s: string, c: char): nat {
    multiset(s)[c]
  }

  /** strrchr: the index of the last `c` in `s`, or None when there is none. */
  function LastIndex(s: string, c: char): (r: Option<nat>)
    ensures r.None? <==> c !in s
    ensures r.Some? ==> r.value < |s| && s[r.value] == c && c !in s[r.value + 1..]
  {
    if s == [] then None
    else if s[|s| - 1] == c then
      assert s[|s|..] == [];
      Some(|s| - 1)
    else
      var r := LastIndex(s[..|s| - 1], c);
      assert s == s[..|s| - 1] + [s[|s| - 1]];
      if r.Some? then
        assert s[r.value + 1..] == s[..|s| - 1][r.value + 1..] + [s[|s| - 1]];
        r
      else
        r
  }

  /** Cutting the string at its last '/': the parent of a path, or None when
      there is no '/' left (strrchr returned NULL). */
  function StripLastComponent(s: string): Option<string> {
    match LastIndex(s, '/')
    case None => None
    case Some(i) => Some(s[..i])
  }

  /** The installation root: the canonical path cut at its last '/' twice. */
  function InstallRoot(p: string): Option<string> {
    match StripLastComponent(p)
    case None => None
    case Some(dir) => StripLastComponent(dir)
  }

  /** The string snprintf is asked to produce: root, '/', kHelperRelativeExecutable. */
  function JoinHelper(root: string): string {
    root + "/" + HelperRelativeExecutable
  }

  /** The helper path before the size check, or None when the layout is too shallow. */
  function HelperCandidate(resolved: Option<string>): Option<string> {
    match resolved
    case None => None
    case Some(p) =>
      match InstallRoot(p)
      case None => None
      case Some(root) => Some(JoinHelper(root))
  }

  /** resolve_helper_executable as a value: None for every path on which it
      returns -1, otherwise the string it leaves in `out`.  `resolved` is what
      realpath produced (None when realpath failed); `outSize` is the size of
      the caller's buffer, terminator included. */
  function HelperPath(resolved: Option<string>, outSize: nat): Option<string> {
    match HelperCandidate(resolved)
    case None => None
    case Some(h) => if |h| < outSize then Some(h) else None
  }

  /** `root` is `p` with everything from its second-to-last '/' onward removed:
      a prefix of `p`, followed in `p` by a tail that starts with '/' and holds
      exactly two '/' characters. */
  ghost predicate IsInstallRootOf(root: string, p: string) {
    |root| < |p| && p[..|root|] == root && p[|root|] == '/' && Occurrences(p[|root|..], '/') == 2
  }

  // ---------------------------------------------------------------------------
  // strrchr

  /** The last occurrence of `c` is the only one with no `c` after it. */
  lemma LastIndexUnique(s: string, c: char, i: nat)
    requires i < |s| && s[i] == c && c !in s[i + 1..]
    ensures LastIndex(s, c) == Some(i)
  {
  }

  /** Cutting at the last `c` removes exactly one `c`. */
  lemma CutAtLastIndex(s: string, c: char, i: nat)
    requires LastIndex(s, c) == Some(i)
    ensures Occurrences(s[..i], c) + 1 == Occurrences(s, c)
    ensures Occurrences(s[i..], c) == 1
  {
    var before, after := s[..i], s[i + 1..];
    assert multiset(after)[c] == 0;
    assert s[i..] == [c] + after;
    assert multiset(s[i..]) == multiset([c]) + multiset(after);
    assert s == before + s[i..];
    assert multiset(s) == multiset(before) + multiset(s[i..]);
  }

  // ---------------------------------------------------------------------------
  // The installation root

  /** The root exists exactly when the canonical path holds at least two '/'. */
  lemma InstallRootExists(p: string)
    ensures InstallRoot(p).Some? <==> Occurrences(p, '/') >= 2
  {
    match LastIndex(p, '/')
    case None =>
      assert multiset(p)['/'] == 0;
    case Some(i) =>
      CutAtLastIndex(p, '/', i);
      assert LastIndex(p[..i], '/').None? <==> Occurrences(p[..i], '/') == 0;
  }

  /** The root computed by two cuts at the last '/' is a proper prefix of the
      path, described by IsInstallRootOf. */
  lemma InstallRootSound(p: string)
    requires InstallRoot(p).Some?
    ensures IsInstallRootOf(InstallRoot(p).value, p)
    ensures InstallRoot(p).value < p
  {
    var i := LastIndex(p, '/').value;
    var dir := p[..i];
    var j := LastIndex(dir, '/').value;
    assert InstallRoot(p).value == dir[..j] == p[..j];
    CutAtLastIndex(p, '/', i);
    CutAtLastIndex(dir, '/', j);
    assert p[j..] == dir[j..] + p[i..];
  }

  /** Any prefix described by IsInstallRootOf is the root the two cuts find. */
  lemma InstallRootComplete(p: string, root: string)
    requires IsInstallRootOf(root, p)
    ensures InstallRoot(p) == Some(root)
  {
    var k := |root|;
    assert p[k..] == [p[k]] + p[k + 1..];
    assert Occurrences(p[k + 1..], '/') == 1;
    var i := LastIndex(p, '/').value;
    CutAtLastIndex(p, '/', i);
    assert k < i;
    assert p[k + 1..] == p[k + 1..i] + p[i..];
    var dir := p[..i];
    assert dir[k + 1..] == p[k + 1..i];
    assert '/' !in dir[k + 1..];
    LastIndexUnique(dir, '/', k);
    assert StripLastComponent(p) == Some(dir);
    assert dir[..k] == root;
  }

  /** The two directions together: the root is exactly the IsInstallRootOf prefix. */
  lemma InstallRootCharacterized(p: string, root: string)
    ensures InstallRoot(p) == Some(root) <==> IsInstallRootOf(root, p)
  {
    if InstallRoot(p) == Some(root) {
      InstallRootSound(p);
    }
    if IsInstallRootOf(root, p) {
      InstallRootComplete(p, root);
    }
  }

  // ---------------------------------------------------------------------------
  // resolve_helper_executable as a whole

  /** When realpath fails, nothing is produced. */
  lemma RealpathFailureFails(outSize: nat)
    ensures HelperPath(None, outSize) == None
  {
  }

  /** The complete outcome: success exactly when realpath succeeded, the two
      cuts find a root (by InstallRootExists, when the path holds at least two
      '/'), and the joined path plus its terminator fits in the buffer; the
      result is then the root, '/', and the fixed suffix. */
  lemma HelperPathOutcome(p: string, outSize: nat)
    ensures HelperPath(Some(p), outSize).Some? <==>
      InstallRoot(p).Some? && |InstallRoot(p).value| + 1 + |HelperRelativeExecutable| < outSize
    ensures HelperPath(Some(p), outSize).Some? ==>
      var root := InstallRoot(p).value;
      IsInstallRootOf(root, p) && HelperPath(Some(p), outSize).value == root + "/" + HelperRelativeExecutable
  {
    if InstallRoot(p).Some? {
      InstallRootSound(p);
    }
  }

  /** Stated from the layout side: for any root of `p` in the sense of
      IsInstallRootOf, the helper path is determined by the buffer size alone. */
  lemma HelperPathFromRoot(p: string, root: string, outSize: nat)
    requires IsInstallRootOf(root, p)
    ensures HelperPath(Some(p), outSize) ==
      if |root| + 1 + |HelperRelativeExecutable| < outSize then Some(root + "/" + HelperRelativeExecutable) else None
  {
    InstallRootCharacterized(p, root);
  }

  /** A path with no '/' at all, or with only one, has no helper path. */
  lemma ShallowPathFails(p: string, outSize: nat)
    requires Occurrences(p, '/') < 2
    ensures HelperPath(Some(p), outSize) == None
  {
    InstallRootExists(p);
  }

  /** The helper path of an absolute canonical path is absolute. */
  lemma HelperPathAbsolute(p: string, outSize: nat)
    requires |p| > 0 && p[0] == '/'
    requires HelperPath(Some(p), outSize).Some?
    ensures HelperPath(Some(p), outSize).value[0] == '/'
  {
    InstallRootSound(p);
    var root := InstallRoot(p).value;
    if root != [] {
      assert root[0] == p[0];
    }
  }

  /** The compiled-in suffix is a C string literal: it holds no NUL. */
  lemma HelperRelativeExecutableNoNul()
    ensures NoNul(HelperRelativeExecutable)
  {
  }

  /** A C string in, a C string out: the helper path holds no NUL. */
  lemma HelperPathNoNul(p: string, outSize: nat)
    requires NoNul(p)
    requires HelperPath(Some(p), outSize).Some?
    ensures NoNul(HelperPath(Some(p), outSize).value)
  {
    InstallRootSound(p);
    var root := InstallRoot(p).value;
    assert NoNul(root) by {
      assert forall k :: 0 <= k < |root| ==> root[k] == p[k];
    }
    HelperRelativeExecutableNoNul();
  }

  // ---------------------------------------------------------------------------
  // The edge cases

  /** Two cuts read off the characters: the root ends just before the
      second-to-last '/'. */
  lemma InstallRootAt(p: string, j: nat, i: nat)
    requires j < i < |p| && p[j] == '/' && p[i] == '/'
    requires '/' !in p[j + 1..i] && '/' !in p[i + 1..]
    ensures InstallRoot(p) == Some(p[..j])
  {
    LastIndexUnique(p, '/', i);
    var dir := p[..i];
    assert dir[j + 1..] == p[j + 1..i];
    LastIndexUnique(dir, '/', j);
    assert StripLastComponent(p) == Some(dir);
    assert dir[..j] == p[..j];
  }

  /** Once the root is known, only the size check is left. */
  lemma HelperPathOfRoot(p: string, root: string, outSize: nat)
    requires InstallRoot(p) == Some(root)
    ensures HelperPath(Some(p), outSize) ==
      if |root| + 1 + |HelperRelativeExecutable| < outSize then Some(root + "/" + HelperRelativeExecutable) else None
  {
  }

  /** A launcher installed as root/dir/name finds its helper under root. */
  lemma InstalledLayoutSucceeds(root: string, dir: string, name: string, outSize: nat)
    requires '/' !in dir && '/' !in name
    ensures HelperPath(Some(root + "/" + dir + "/" + name), outSize) ==
      if |root| + 1 + |HelperRelativeExecutable| < outSize then Some(root + "/" + HelperRelativeExecutable) else None
  {
    var p := root + "/" + dir + "/" + name;
    var j, i := |root|, |root| + 1 + |dir|;
    assert p[..j] == root && p[j + 1..i] == dir && p[i + 1..] == name;
    InstallRootAt(p, j, i);
    HelperPathOfRoot(p, root, outSize);
  }

  /** A launcher directly below the filesystem root ("/launcher") fails: the
      first cut leaves "", in which the second strrchr finds no '/'. */
  lemma LauncherAtFilesystemRootFails(name: string, outSize: nat)
    requires '/' !in name
    ensures HelperPath(Some("/" + name), outSize) == None
  {
    var p := "/" + name;
    assert p[1..] == name;
    LastIndexUnique(p, '/', 0);
    assert StripLastComponent(p) == Some([]);
  }

  /** A path without any '/' fails. */
  lemma NoSlashFails(p: string, outSize: nat)
    requires '/' !in p
    ensures HelperPath(Some(p), outSize) == None
  {
    assert LastIndex(p, '/') == None;
    assert InstallRoot(p) == None;
    assert HelperCandidate(Some(p)) == None;
  }

  /** "/a/launcher": the root is empty and the helper path is "/Helpers/...". */
  lemma EmptyRootSucceeds(outSize: nat)
    requires 1 + |HelperRelativeExecutable| < outSize
    ensures HelperPath(Some("/a/launcher"), outSize) == Some("/" + HelperRelativeExecutable)
  {
    assert "/a/launcher" == [] + "/" + "a" + "/" + "launcher";
    InstalledLayoutSucceeds([], "a", "launcher", outSize);
    assert [] + "/" + HelperRelativeExecutable == "/" + HelperRelativeExecutable;
  }

  /** An installation at /opt/app/bin/launcher finds its helper under
      /opt/app. */
  lemma OptAppLayoutSucceeds(outSize: nat)
    requires |"/opt/app"| + 1 + |HelperRelativeExecutable| < outSize
    ensures HelperPath(Some("/opt/app/bin/launcher"), outSize)
         == Some("/opt/app/" + HelperRelativeExecutable)
  {
    assert "/opt/app/bin/launcher" == "/opt/app" + "/" + "bin" + "/" + "launcher";
    InstalledLayoutSucceeds("/opt/app", "bin", "launcher", outSize);
    assert "/opt/app" + "/" + HelperRelativeExecutable == "/opt/app/" + HelperRelativeExecutable;
  }

  /** Lengths count bytes: the root "/Zoë" is five bytes in UTF-8 ('ë' is
      0xC3 0xAB), so with an 82-byte buffer the 82-byte helper path and its
      terminator do not fit and resolution fails. */
  lemma NonAsciiRootCountsBytes()
    ensures HelperPath(Some("/Zo\U{C3}\U{AB}/bin/launcher"), 82) == None
  {
    var root := "/Zo\U{C3}\U{AB}";
    assert |root| + 1 + |HelperRelativeExecutable| == 82;
    assert "/Zo\U{C3}\U{AB}/bin/launcher" == root + "/" + "bin" + "/" + "launcher";
    InstalledLayoutSucceeds(root, "bin", "launcher", 82);
  }
}
