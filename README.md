# Snap-O CLI launcher stub, modelled in Dafny

`snapo-app-mac/SnapOCLI/main.c` is the `snapo` command-line entry point. It does
not do any work itself. It finds the Snap-O Network Inspector helper binary,
which is bundled next to it, and replaces its own process image with that
helper. All command-line arguments are passed through unchanged.

Its logic has two parts, and each part has its own module:

- `LauncherPath` (`launcher_path.dfy`) gives the path derivation as values.
  `resolve_helper_executable` takes the canonical path that `realpath` produced
  for `argv[0]`. It cuts that path at its last `/` twice, which removes the
  file name and then its parent directory. It joins what is left (the
  installation root), a `/`, and the compiled-in constant
  `kHelperRelativeExecutable`. It fails when the joined path plus its
  terminator does not fit in the caller's buffer. `LastIndex` is `strrchr`;
  `InstallRoot`, `HelperCandidate` and `HelperPath` are the stages of the
  derivation. The lemmas characterise the root without reference to `strrchr`:
  it is a prefix of the path, followed by a tail that starts with `/` and holds
  exactly two `/`. They also prove the edge cases: no `/`, `"/launcher"`,
  `"/a/launcher"` and an installed layout. The code cuts exactly two
  components, so a launcher at root/dir/name finds its helper under root
  (`InstalledLayoutSucceeds`). A launcher placed one level deeper, at
  root/A/B/launcher, looks for it under root/A: that is the same lemma with
  root/A as the root.
- `Launcher` (`launcher.dfy`) is the imperative code.
  - `LastSlash` is the `strrchr` scan over the local `resolved_executable`
    buffer. It is proved against `LastIndex`.
  - `CutAtLastSlash` is the repeated pair of `strrchr` and `*last_slash = '\0'`.
  - `FormatInto` is `snprintf` into the caller's `out` array, truncation
    included. It is proved against `Formatted`.
  - `ResolveHelperExecutable` works on those two buffers in place. It writes NUL
    at each slash it cuts at, and it is proved against `HelperPath`.
  - `Run` is `main`. It resolves the helper, `calloc`s `argc + 1` slots, fills
    them in the source's `for` loop and calls `execv`. Its contract gives the
    exit status and the exact sequence of effects for each of the four paths.
    It also says that the helper sees the original arguments, with only
    `argv[0]` replaced.
  - `InstalledScenario` is a client of `Run` for an installation at
    `/opt/app/bin/launcher` invoked as `launcher --flag value`.

A string of the model is the byte sequence of the C string: each `char`
stands for one byte, so `|s|` is `strlen(s)`. The size check at main.c:31-32
compares the byte count that `snprintf` returns, and the model compares
`|s|`, which is the same number. A non-ASCII path is given byte by byte. For
example, `ë` in UTF-8 is the two `char`s `'\U{C3}'` and `'\U{AB}'`, not one.
`NonAsciiRootCountsBytes` shows the effect: "/Zoë" is five bytes, so with an
82-byte buffer the helper path does not fit.

External calls are inputs to the model:

- The result of `realpath` is an `Option<string>`, which is `None` when the
  call failed.
- Whether `calloc` and `execv` succeed are booleans.
- `PATH_MAX` is the parameter `pathMax`, and the `out` buffer's size is its
  array length.
- Diagnostics on stderr, and the calls to `calloc`, `execv` and `free`, are
  returned as a list of `Effect` values, in order.

## Model

| member | source | states |
|---|---|---|
| `LauncherPath.LastIndex` | snapo-app-mac/SnapOCLI/main.c:19-22 | strrchr: None exactly when the character does not occur; otherwise an in-range index holding it with no occurrence after it |
| `LauncherPath.LastIndexUnique` | snapo-app-mac/SnapOCLI/main.c:19 | the index strrchr returns is the only occurrence with none after it |
| `LauncherPath.CutAtLastIndex` | snapo-app-mac/SnapOCLI/main.c:23 | writing NUL at the last '/' removes exactly one '/' from the string |
| `LauncherPath.InstallRootExists` | snapo-app-mac/SnapOCLI/main.c:19-29 | both cuts succeed exactly when the resolved path holds at least two '/' |
| `LauncherPath.InstallRootSound` | snapo-app-mac/SnapOCLI/main.c:19-29 | the root left by the two cuts is a proper prefix of the path, followed by a tail that starts with '/' and holds exactly two '/' |
| `LauncherPath.InstallRootComplete` | snapo-app-mac/SnapOCLI/main.c:19-29 | any prefix followed by such a tail is the root the two cuts find |
| `LauncherPath.InstallRootCharacterized` | snapo-app-mac/SnapOCLI/main.c:19-29 | both directions: the two cuts yield `root` if and only if `root` is the path minus everything from its second-to-last '/' |
| `LauncherPath.RealpathFailureFails` | snapo-app-mac/SnapOCLI/main.c:15-17 | when realpath fails nothing is produced |
| `LauncherPath.HelperPathOutcome` | snapo-app-mac/SnapOCLI/main.c:15-34 | success if and only if the path has a root and the root, '/', the suffix and a terminator fit in out_size; the result is then exactly root + "/" + kHelperRelativeExecutable |
| `LauncherPath.HelperPathFromRoot` | snapo-app-mac/SnapOCLI/main.c:19-34 | from any root with a two-'/' tail, the result depends only on whether the join fits in out_size: the join, or failure with no partial result |
| `LauncherPath.ShallowPathFails` | snapo-app-mac/SnapOCLI/main.c:19-28 | a resolved path with fewer than two '/' fails |
| `LauncherPath.NoSlashFails` | snapo-app-mac/SnapOCLI/main.c:19-22 | a resolved path with no '/' fails at the first strrchr |
| `LauncherPath.InstallRootAt` | snapo-app-mac/SnapOCLI/main.c:19-29 | with '/' at j and at i > j and no '/' between or after, the two cuts leave exactly p[..j] |
| `LauncherPath.HelperPathOfRoot` | snapo-app-mac/SnapOCLI/main.c:31-34 | once the root is found, the result is root + "/" + kHelperRelativeExecutable if that and its terminator fit in out_size, and failure otherwise |
| `LauncherPath.InstalledLayoutSucceeds` | snapo-app-mac/SnapOCLI/main.c:19-34 | a launcher at root/dir/name, with no '/' in dir or name, yields root + "/" + kHelperRelativeExecutable whenever that fits |
| `LauncherPath.LauncherAtFilesystemRootFails` | snapo-app-mac/SnapOCLI/main.c:23-28 | "/" + name with no '/' in name (such as "/launcher") fails: the first cut leaves "", which the second strrchr cannot cut |
| `LauncherPath.EmptyRootSucceeds` | snapo-app-mac/SnapOCLI/main.c:23-31 | "/a/launcher" succeeds with an empty root and yields "/" + kHelperRelativeExecutable |
| `LauncherPath.OptAppLayoutSucceeds` | snapo-app-mac/SnapOCLI/main.c:7-31 | "/opt/app/bin/launcher" yields "/opt/app/" + kHelperRelativeExecutable |
| `LauncherPath.NonAsciiRootCountsBytes` | snapo-app-mac/SnapOCLI/main.c:31-33 | lengths count bytes: "/Zoë/bin/launcher" in UTF-8 (root of five bytes) fails with out_size 82, because the 82-byte helper path leaves no room for its terminator |
| `LauncherPath.HelperPathAbsolute` | snapo-app-mac/SnapOCLI/main.c:31 | the helper path derived from an absolute canonical path is absolute |
| `LauncherPath.HelperRelativeExecutableNoNul` | snapo-app-mac/SnapOCLI/main.c:7-8 | the compiled-in suffix holds no NUL |
| `LauncherPath.HelperPathNoNul` | snapo-app-mac/SnapOCLI/main.c:7-31 | the helper path is a well-formed C string: it holds no NUL |
| `Launcher.CString` | snapo-app-mac/SnapOCLI/main.c:61 | the string execv reads from a buffer is a NUL-free prefix ended by the first NUL |
| `Launcher.CStringOf` | snapo-app-mac/SnapOCLI/main.c:31 | a buffer holding a NUL-free string and then NUL reads back as that string |
| `Launcher.ArgumentsOfTerminated` | snapo-app-mac/SnapOCLI/main.c:59-61 | a NULL-terminated vector of strings passes exactly those strings, in order |
| `Launcher.ForwardedArguments` | snapo-app-mac/SnapOCLI/main.c:49-61 | the vector has argc+1 slots, and the helper receives [helper path] + argv[1..argc): order and count are preserved and only argv[0] changes |
| `Launcher.FormattedReadsBack` | snapo-app-mac/SnapOCLI/main.c:31-33 | snprintf leaves the whole string in out when it fits; otherwise it leaves only a strictly shorter prefix, which is why a size failure returns -1 |
| `Launcher.FormattedFits` | snapo-app-mac/SnapOCLI/main.c:31-36 | when the joined string fits, out starts with it and its terminator |
| `Launcher.FormatInto` | snapo-app-mac/SnapOCLI/main.c:31 | snprintf returns the untruncated length and writes the truncated string and a terminator, leaving the rest of the buffer unchanged |
| `Launcher.LastSlash` | snapo-app-mac/SnapOCLI/main.c:19-29 | the scan over buf[..len] returns exactly LastIndex(buf[..len], '/') |
| `Launcher.CutAtLastSlash` | snapo-app-mac/SnapOCLI/main.c:19-23 | one cut returns strrchr's index, or None with the buffer untouched; on success NUL is written at that index and nothing else changes |
| `Launcher.ResolveHelperExecutable` | snapo-app-mac/SnapOCLI/main.c:10-37 | returns 0 or -1; 0 exactly when HelperPath succeeds, and out then holds that path and a terminator; out is untouched when realpath or a cut fails, and otherwise holds what snprintf wrote |
| `Launcher.FillChildArgv` | snapo-app-mac/SnapOCLI/main.c:55-59 | after the loop, the calloc'd vector is exactly ForwardedArgv: helper path in slot 0, argv[i] in slot i, NULL in slot argc |
| `Launcher.Run` | snapo-app-mac/SnapOCLI/main.c:39-65 | every failure exits with 1. A resolution failure emits only its diagnostic, with no calloc or execv. Otherwise calloc(argc+1) comes next, then execv with the helper path and its forwarded vector. After a failed execv, perror and free follow. The helper sees the launcher's arguments with argv[0] replaced by its own path |

## Left out

- realpath: filesystem canonicalisation and symlink resolution are outside the model. Its result is an input, and `None` stands for the NULL return.
- The length bound PATH_MAX that realpath puts on its own result is not modelled: any resolved path is accepted.
- execv: replacing the process image is an input flag. On success the model returns `Replaced` with the program and vector that execv received.
- calloc and free: allocation failure is an input flag. The zeroed memory from calloc is an array filled with `Null`, and free is an effect.
- fprintf and perror: the message text is left out, and each diagnostic is recorded as a `Diagnostic` tag. The errno text that perror adds is left out.
- Only one diagnostic covers all resolution failures. The code returns -1 from every failing step and prints one message, so a too-shallow layout, a path that is too long and a realpath failure are not told apart.
- NUL mechanics: strings are `seq<char>`. The local buffer really receives NUL at each cut, while `len` stands for strlen; realpath's result is required to hold no NUL, as every C string does. `CString` models how execv reads the helper buffer.
- The `written < 0` branch of resolve_helper_executable is kept, but it is unreachable in the model. snprintf with `%s` arguments cannot hit an encoding error, so `FormatInto` always returns the untruncated length.
- `argc == 0`: argv[0] is then NULL and realpath(NULL, ...) fails. `Run` therefore requires that realpath's result be `None` when `argv` is empty.
- Pointer aliasing: child_argv holds the same pointers as argv and as the helper buffer. The model copies the string values.
- Overflow of `(size_t)argc + 1` is not modelled, because argc is a non-negative int and cannot overflow size_t.
