# posix-file: a verified model of a minimal `file` command

The program classifies each path given on its command line by the type of
the filesystem entry it names (block or character device, directory, FIFO,
symbolic link, regular file, socket) and prints one line `path: description`
per operand. It never looks at file contents: a regular file is a
"data file", or a "regular file" under `-i`. Every failure to obtain or
interpret metadata is reported as "cannot open".

The model has five modules:

- `Filesystem` (filesystem.dfy): the `st_mode` word, the `S_ISxxx` tests on its
  type field (POSIX values of `S_IFMT` and friends), and an `Oracle` holding
  the answers of `stat`, `lstat` and `readlink` (a path missing from a map is a
  call that returns -1). `readlink` copies at most `bufsiz` bytes.
- `Classifier` (classifier.dfy): `file()` as the recursive function `File`,
  which returns the description together with the queries it made, in order.
  `Describe` applied to `Examined` is an independent reference: the type named
  by the `S_IFMT` field read as one hex digit, applied to the metadata that
  the retry policy ends up examining. `FileDescribes` proves `File` equal to
  it. That includes the fact that the `snprintf` into the 1048-byte `buf`
  never truncates the at most 1040-byte link description.
- `Namespace` (namespace.dfy): a concrete namespace of inodes and symbolic
  links. `stat` resolves links for at most `SYMLOOP_MAX` (32) hops; `OracleOf`
  builds the oracle from it.
- `Links` (links.dfy): what `-h` and the retry mean for live links, dangling
  links and plain entries, and the `/tmp/a`, `/tmp/b` scenario.
- `Driver` (driver.dfy): `main` as the method `Run`. Its option loop is proved
  against the fold `Getopt`, and its operand loop emits one `Line` per operand.
  It returns the exit status, the lines for standard output and the text
  `usage()` writes to standard error.

`-h` sets `symlinks` (file.c:82-83), and `file()` then asks `lstat`
(file.c:39). So `-h` means "do not follow symbolic links": the link itself is
described, and `file -h /tmp/b` for a link `/tmp/b` to a regular file
`/tmp/a` prints `symbolic link to /tmp/a`. Without `-h`, `stat` follows the
link and the same command prints `data file`. Only when `stat` fails (a
dangling or looping link) does the single retry through `lstat` describe the
link itself. The lemmas `HDescribesLinkItself`, `TmpLinkWithH` and
`TmpFileIsData` state this.

## Model

| member | source | states |
|---|---|---|
| `Filesystem.ReadLink` | file.c:56 | `readlink` fails exactly when the oracle has no target; otherwise it gives a prefix of the target of length min(target length, bufsiz), with no NUL added |
| `Classifier.CString` | file.c:59-60 | what `%s` reads of `linkbuf` is a NUL-free prefix that stops at the first NUL or at the end |
| `Classifier.Snprintf` | file.c:60 | `snprintf` into a buffer of `size` bytes keeps a prefix of fewer than `size` characters, and the whole string when it fits |
| `Classifier.File` | file.c:34-71 | the result is always a fixed label or a link description of at most 1040 bytes; 1 to 3 queries are made, all about the given path, and the first is `lstat` when `symlinks` is set and `stat` otherwise |
| `Classifier.KindOfTests` | file.c:43-67 | each `S_ISxxx` test holds exactly when the `S_IFMT` field names that type, so the tests are mutually exclusive |
| `Classifier.FileDescribes` | file.c:39-70 | the priority chain, the single retry and the `snprintf` give exactly the reference description of the metadata finally examined (lstat's with `symlinks`, else stat's, else lstat's after the retry) |
| `Classifier.CallSequence` | file.c:39-42 | queries made: `[lstat]` with `symlinks`; `[stat]` when stat succeeds; `[stat, lstat]` when it fails; then `readlink` exactly when the examined entry is a link. So there is at most one retry and no `stat` under `symlinks` |
| `Classifier.CannotOpenExactly` | file.c:39-70 | the description is "cannot open" if and only if no metadata was obtained after the retry, or the entry is a link whose `readlink` fails, or the type field matches no test |
| `Classifier.IgnoreMagicOnlyRegular` | file.c:62-66 | `ignoremagic` changes the description if and only if the examined entry is a regular file, which is then "data file" without it and "regular file" with it |
| `Classifier.FixedLabelsAreNotLinks` | file.c:42-70 | no fixed label starts with "symbolic link to " |
| `Classifier.LinkOnlyThroughLstat` | file.c:39-51 | given that `stat` never reports a link, a link description arises only when `symlinks` is set or `stat` failed, and `lstat` reported a link |
| `Classifier.LinkDescription` | file.c:52-61 | for a link target with no NUL, the description is "symbolic link to " followed by the first 1023 bytes of the target; it is at most 1040 bytes and fits in `buf` |
| `Classifier.NoNulCString` | file.c:59-60 | `%s` reads a NUL-free `linkbuf` prefix whole |
| `Links.MissingPath` | file.c:39-42 | a path that names nothing is "cannot open" under any flags, after the retry |
| `Links.LiveLinkDescribesTarget` | file.c:39-51 | without `-h`, a link that resolves gets its target's description, never a link description |
| `Links.DanglingLinkDescribed` | file.c:39-61 | without `-h`, a dangling or looping link falls back to `lstat` and is described as "symbolic link to " + its target |
| `Links.HDescribesLinkItself` | file.c:39-61 | with `-h` (`symlinks` set) a link is described as "symbolic link to " + its target, whether it resolves or not |
| `Links.HIrrelevantForInodes` | file.c:39 | for an entry that is not a link, `-h` does not change the description |
| `Links.TmpFileIsData` | file.c:62-66 | an empty regular file `/tmp/a`, and a link `/tmp/b` to it without `-h`, are both "data file" |
| `Links.TmpLinkWithH` | file.c:39-61 | with `-h`, `/tmp/b` is "symbolic link to /tmp/a"; a missing path is "cannot open" |
| `Driver.GetoptCharacterized` | file.c:80-97 | the option loop reaches `usage()` if and only if some option is not one of d, h, i, m, M; otherwise `symlinks` is set if and only if -h appears and `ignoremagic` if and only if -i appears |
| `Driver.SameOptionsSameFlags` | file.c:80-96 | the outcome of the option loop depends only on which options appear, not on their order or repetition |
| `Driver.RepeatedOption` | file.c:80-96 | giving an option twice in a row is the same as giving it once (any repetition or reordering is `SameOptionsSameFlags`) |
| `Driver.InertOptions` | file.c:88-92 | inserting -d, -m or -M anywhere changes nothing |
| `Driver.Run` | file.c:73-111 | a bad option or no operands gives status 1, the text `usage()` writes to standard error and no output lines; otherwise status 0, nothing on standard error, and exactly one line `(arg, description)` per operand, in input order, whatever the descriptions |

## Left out

- The real `stat`, `lstat` and `readlink` system calls. They are an oracle of answers; races between `lstat` and `readlink` are covered only in that the oracle's maps are independent of each other.
- Path resolution in `Namespace` looks a link target up as a whole path. Directory components, relative targets, permissions and mount points are not modelled.
- The internals of `getopt`: the argument that `-m` and `-M` consume, argument permutation, `optind`, and the `-m` with no argument that getopt reports as an error. getopt's own message on standard error for an unknown option or a missing argument is not modelled: `err` holds only what `usage()` writes. `Run` takes the option characters getopt returns and the operands that follow them.
- `printf` and `fprintf` formatting and `exit()`. The output is a sequence of `(arg, description)` pairs, the standard error text a string and the exit status a value.
- The reuse of the static `buf` across calls. Each description is a fresh string, which is harmless because each is printed before the next call.
- `st_mode` is an unbounded natural number rather than a 32-bit `mode_t`; only its type field, bits 12 to 15, is examined.
- Bytes are modelled as `char`s, one per byte, with no encoding.
