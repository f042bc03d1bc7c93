/** The launcher stub's executable part: resolve_helper_executable working on
    its buffers in place, and main building the forwarded argument vector
    before handing it to execv.

    Calls the model cannot see are inputs: what realpath produced for argv[0]
    (None when it failed), whether calloc returned memory, and whether execv
    replaced the process image.  What the program does to the outside world
    (its diagnostics on stderr, calloc, execv, free) is returned as a list of
    effects, in the order they happen. */
module Launcher {
  import opened LauncherPath

  /** One slot of a `char *[]` vector: NULL or a pointer to a C string. */
  datatype Slot = Null | Str(s: string)

  /** The three one-line diagnostics main writes to stderr. */
  datatype Diagnostic = ResolveFailed | AllocFailed | LaunchFailed

  /** What the launcher does to the world, in order. */
  datatype Effect =
    | Stderr(d: Diagnostic)                       // fprintf / perror
    | Calloc(slots: nat)                          // calloc(argc + 1, sizeof(char *))
    | Execv(path: string, argv: seq<Slot>)        // execv(helper_executable, child_argv)
    | Free                                        // free(child_argv)

  /** How the process ends: its image is replaced by the helper, or main
      returns a status. */
  datatype Outcome = Replaced(program: string, argv: seq<Slot>) | Exited(status: int)

  // ---------------------------------------------------------------------------
  // C strings and vectors as their readers see them

  /** The C string stored at the start of a buffer: everything before the
      first NUL (or the whole buffer when it has none). */
  function CString(buf: seq<char>): (r: string)
    ensures NoNul(r) && r <= buf
    ensures |r| < |buf| ==> buf[|r|] == Nul
  {
    if buf == [] || buf[0] == Nul then [] else [buf[0]] + CString(buf[1..])
  }

  /** A buffer holding `s` followed by a terminator reads back as `s`. */
  lemma CStringOf(buf: seq<char>, s: string)
    requires NoNul(s) && |s| < |buf| && buf[..|s|] == s && buf[|s|] == Nul
    ensures CString(buf) == s
  {
  }

  /** What execv passes to the new program: the strings of the vector up to
      its first NULL. */
  function Arguments(v: seq<Slot>): seq<string> {
    if v == [] || v[0].Null? then [] else [v[0].s] + Arguments(v[1..])
  }

  /** The vector main builds: argc + 1 slots, the helper path in slot 0,
      argv[i] in slot i for 1 <= i < argc, NULL in slot argc. */
  function ForwardedArgv(helper: string, argv: seq<string>): seq<Slot>
    requires |argv| >= 1
  {
    seq(|argv| + 1, i requires 0 <= i <= |argv| =>
      if i == 0 then Str(helper) else if i < |argv| then Str(argv[i]) else Null)
  }

  /** A vector of C strings ended by NULL reads back as those strings. */
  lemma {:induction false} ArgumentsOfTerminated(v: seq<Slot>, xs: seq<string>)
    requires |v| == |xs| + 1 && v[|xs|] == Null
    requires forall i :: 0 <= i < |xs| ==> v[i] == Str(xs[i])
    ensures Arguments(v) == xs
  {
    if xs != [] {
      ArgumentsOfTerminated(v[1..], xs[1..]);
    }
  }

  /** The helper sees the launcher's own arguments, in order and in number,
      with only argv[0] replaced by the helper's path. */
  lemma ForwardedArguments(helper: string, argv: seq<string>)
    requires |argv| >= 1
    ensures Arguments(ForwardedArgv(helper, argv)) == [helper] + argv[1..]
    ensures |ForwardedArgv(helper, argv)| == |argv| + 1
  {
    ArgumentsOfTerminated(ForwardedArgv(helper, argv), [helper] + argv[1..]);
  }

  // ---------------------------------------------------------------------------
  // snprintf(out, size, "%s/%s", ...)

  /** The buffer after snprintf: as much of `s` as fits before the terminator,
      then NUL, the rest untouched; a zero-sized buffer is not written. */
  function Formatted(buf: seq<char>, s: string): seq<char> {
    if |buf| == 0 then buf
    else
      var n := if |s| < |buf| then |s| else |buf| - 1;
      s[..n] + [Nul] + buf[n + 1..]
  }

  /** When the string fits, the buffer reads back as the whole string; when
      it does not, as a strictly shorter prefix of it: no partial success. */
  lemma FormattedReadsBack(buf: seq<char>, s: string)
    requires NoNul(s) && |buf| > 0
    ensures |Formatted(buf, s)| == |buf|
    ensures |s| < |buf| ==> CString(Formatted(buf, s)) == s
    ensures |s| >= |buf| ==> CString(Formatted(buf, s)) == s[..|buf| - 1] < s
  {
    var n := if |s| < |buf| then |s| else |buf| - 1;
    var out := Formatted(buf, s);
    assert out[..n] == s[..n] && out[n] == Nul;
    CStringOf(out, s[..n]);
  }

  /** When the string fits, the buffer starts with it and its terminator. */
  lemma FormattedFits(buf: seq<char>, s: string)
    requires |s| < |buf|
    ensures Formatted(buf, s)[..|s|] == s && Formatted(buf, s)[|s|] == Nul
  {
  }

  /** snprintf: writes `root/relative`, truncated to the buffer, and returns
      the length of the untruncated string. */
  method FormatInto(out: array<char>, root: string, relative: string) returns (written: int)
    modifies out
    ensures written == |root + "/" + relative|
    ensures out[..] == Formatted(old(out[..]), root + "/" + relative)
  {
    var s := root + "/" + relative;
    if out.Length > 0 {
      var n := if |s| < out.Length then |s| else out.Length - 1;
      forall i | 0 <= i < n {
        out[i] := s[i];
      }
      out[n] := Nul;
      assert out[..] == s[..n] + [Nul] + old(out[..])[n + 1..];
    }
    written := |s|;
  }

  // ---------------------------------------------------------------------------
  // resolve_helper_executable

  /** strrchr(buf, '/') on the C string buf[..len]. */
  method LastSlash(buf: array<char>, len: nat) returns (r: Option<nat>)
    requires len <= buf.Length
    ensures r == LastIndex(buf[..len], '/')
  {
    var i := len;
    while i > 0
      invariant 0 <= i <= len
      invariant forall k :: i <= k < len ==> buf[k] != '/'
    {
      if buf[i - 1] == '/' {
        assert buf[..len][i..] == buf[i..len];
        LastIndexUnique(buf[..len], '/', i - 1);
        return Some(i - 1);
      }
      i := i - 1;
    }
    return None;
  }

  /** One cut: strrchr(buf, '/') and, when it finds one, `*last_slash = '\0'`.
      The string buf[..len] then ends where the last '/' was. */
  method CutAtLastSlash(buf: array<char>, len: nat) returns (cut: Option<nat>)
    requires len <= buf.Length
    modifies buf
    ensures cut == LastIndex(old(buf[..len]), '/')
    ensures cut.None? ==> buf[..] == old(buf[..])
    ensures cut.Some? ==> buf[..] == old(buf[..])[cut.value := Nul]
  {
    cut := LastSlash(buf, len);
    if cut.Some? {
      buf[cut.value] := Nul;
    }
  }

  /** resolve_helper_executable: status 0 exactly when the helper path exists
      and fits, and then `out` holds it as a C string; -1 otherwise, with `out`
      untouched unless snprintf was reached.  `resolved` is realpath's result
      for argv[0]. */
  method ResolveHelperExecutable(resolved: Option<string>, out: array<char>) returns (status: int)
    requires resolved.Some? ==> NoNul(resolved.value)  // realpath returns a C string
    modifies out
    ensures status == 0 || status == -1
    ensures status == 0 <==> HelperPath(resolved, out.Length).Some?
    ensures status == 0 ==>
      var h := HelperPath(resolved, out.Length).value;
      |h| < out.Length && out[..|h|] == h && out[|h|] == Nul
    ensures HelperCandidate(resolved).None? ==> out[..] == old(out[..])
    ensures HelperCandidate(resolved).Some? ==> out[..] == Formatted(old(out[..]), HelperCandidate(resolved).value)
  {
    if resolved.None? {
      return -1;
    }
    var p := resolved.value;
    // resolved_executable, as realpath leaves it: the path and its terminator
    var buf := new char[|p| + 1](i requires 0 <= i <= |p| => if i < |p| then p[i] else Nul);
    var len := |p|;
    assert buf[..len] == p;

    var cut := CutAtLastSlash(buf, len);
    if cut.None? {
      assert HelperCandidate(resolved) == None;
      return -1;
    }
    ghost var dir := p[..cut.value];
    assert StripLastComponent(p) == Some(dir);
    len := cut.value;
    assert buf[..len] == dir;

    cut := CutAtLastSlash(buf, len);
    if cut.None? {
      assert HelperCandidate(resolved) == None;
      return -1;
    }
    ghost var root := dir[..cut.value];
    assert StripLastComponent(dir) == Some(root);
    len := cut.value;
    assert buf[..len] == root;
    assert HelperCandidate(resolved) == Some(JoinHelper(root));

    var written := FormatInto(out, buf[..len], HelperRelativeExecutable);
    if written < 0 || written >= out.Length {
      assert HelperPath(resolved, out.Length) == None;
      return -1;
    }
    assert HelperPath(resolved, out.Length) == Some(JoinHelper(root));
    FormattedFits(old(out[..]), JoinHelper(root));
    return 0;
  }

  // ---------------------------------------------------------------------------
  // main

  /** The fill of the calloc'd child_argv: the helper path in slot 0, argv[i]
      in slot i, NULL in slot argc. */
  method FillChildArgv(childArgv: array<Slot>, helper: string, argv: seq<string>)
    requires |argv| >= 1 && childArgv.Length == |argv| + 1
    requires forall k :: 0 <= k < childArgv.Length ==> childArgv[k] == Null
    modifies childArgv
    ensures childArgv[..] == ForwardedArgv(helper, argv)
  {
    childArgv[0] := Str(helper);
    for i := 1 to |argv|
      invariant childArgv[0] == Str(helper)
      invariant forall k :: 1 <= k < i ==> childArgv[k] == Str(argv[k])
      invariant forall k :: i <= k <= |argv| ==> childArgv[k] == Null
    {
      childArgv[i] := Str(argv[i]);
    }
    childArgv[|argv|] := Null;
  }

  /** main(argc, argv): resolve the helper, build its argument vector, execv.
      `resolvedArgv0` is what realpath produced for argv[0]; `pathMax` is
      PATH_MAX, the size of helper_executable; `callocSucceeds` and
      `execvSucceeds` are the outcomes of those calls. */
  method Run(argv: seq<string>, resolvedArgv0: Option<string>, pathMax: nat,
             callocSucceeds: bool, execvSucceeds: bool)
    returns (outcome: Outcome, effects: seq<Effect>)
    requires |argv| == 0 ==> resolvedArgv0.None?  // realpath(NULL, ...) fails
    requires resolvedArgv0.Some? ==> NoNul(resolvedArgv0.value)
    // every failure exits with status 1; only a successful execv does not return
    ensures outcome.Exited? ==> outcome.status == 1
    ensures outcome.Replaced? <==> HelperPath(resolvedArgv0, pathMax).Some? && callocSucceeds && execvSucceeds
    // a resolution failure is reported before any allocation or exec attempt
    ensures HelperPath(resolvedArgv0, pathMax).None? ==> effects == [Stderr(ResolveFailed)]
    ensures HelperPath(resolvedArgv0, pathMax).Some? ==>
      var helper := HelperPath(resolvedArgv0, pathMax).value;
      var child := ForwardedArgv(helper, argv);
      if !callocSucceeds then effects == [Calloc(|argv| + 1), Stderr(AllocFailed)]
      else if execvSucceeds then effects == [Calloc(|argv| + 1), Execv(helper, child)] && outcome.program == helper
      else effects == [Calloc(|argv| + 1), Execv(helper, child), Stderr(LaunchFailed), Free]
    // the helper runs with the launcher's arguments, argv[0] replaced by its own path
    ensures outcome.Replaced? ==> Arguments(outcome.argv) == [outcome.program] + argv[1..]
    // the vector is freed on every path where main returns after allocating it
    ensures outcome.Exited? && Calloc(|argv| + 1) in effects && callocSucceeds ==> effects[|effects| - 1] == Free
  {
    var helperExecutable := new char[pathMax];
    var status := ResolveHelperExecutable(resolvedArgv0, helperExecutable);
    if status != 0 {
      return Exited(1), [Stderr(ResolveFailed)];
    }
    ghost var h := HelperPath(resolvedArgv0, pathMax).value;
    HelperPathNoNul(resolvedArgv0.value, pathMax);
    CStringOf(helperExecutable[..], h);
    var helper := CString(helperExecutable[..]);

    effects := [Calloc(|argv| + 1)];
    if !callocSucceeds {
      return Exited(1), effects + [Stderr(AllocFailed)];
    }
    var childArgv := new Slot[|argv| + 1](_ => Null);
    FillChildArgv(childArgv, helper, argv);

    effects := effects + [Execv(helper, childArgv[..])];
    if execvSucceeds {
      ForwardedArguments(helper, argv);
      return Replaced(helper, childArgv[..]), effects;
    }
    return Exited(1), effects + [Stderr(LaunchFailed), Free];
  }

  /** An installation at /opt/app/bin/launcher invoked as
      `launcher --flag value` runs the helper under /opt/app with the helper's
      own path as argv[0] and the two arguments after it. */
  method InstalledScenario() {
    var argv := ["launcher", "--flag", "value"];
    var outcome, effects := Run(argv, Some("/opt/app/bin/launcher"), 1024, true, true);
    OptAppLayoutSucceeds(1024);
    assert outcome.Replaced?;
    assert argv[1..] == ["--flag", "value"];
    assert Arguments(outcome.argv) == ["/opt/app/" + HelperRelativeExecutable, "--flag", "value"];
  }
}
