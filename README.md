# libfs paths and resolver in Dafny

This project models the lexical core of libfs's `fs::path` value type and its
`resolver`:

- A path is three fields: the segment vector `m_path`, the flag `m_absolute` and the grammar
  `m_type` (POSIX or Windows). In the model it is the datatype `FsPath.Path`.
- `tokenize` cuts a string at a delimiter set. It is the method `FsPath.Tokenize`, proved
  equal to `Tokens`: the maximal delimiter-free runs of the input (`Runs`), except that `""`
  gives one empty token.
- `set(str, type)` parses a string (`FsPath.Set`, specified by `Parse`).
- `str(type)` renders a path (`FsPath.StrRoot` and `FsPath.Str`, specified by `Render`).
- `operator/`, `parent_path`, `filename` and `extension` form the path algebra (`Join`,
  `ParentPath`, `Filename`, `Extension`).
- `resolver::resolve` tries the bases in order (`FsResolver.Resolve`, specified by `Resolution`).
  It is `const`: the resolver is a value `FsResolver.Resolver` holding `m_paths`, and `Resolve`
  only reads it.

The loops of the source are methods with loop invariants. Each is proved equal to a
specification function, and the properties are proved as lemmas about those functions.
Existence on disk is a parameter `fileExists: Path -> bool`.

The model follows the code as written, including these behaviours (each is stated by a lemma):

- `tokenize("")` returns one empty token, so parsing `""` gives the segments `[""]`, not `[]`
  (`EmptyRelativePathReparses`). The POSIX round trip therefore excludes the empty relative path.
- A Windows drive such as `C:` is not split off. It stays at the head of the first segment
  (`WindowsDriveInFirstSegment`), and that is what lets short Windows paths round-trip
  (`WindowsRoundTrip`).
- `parent_path` builds a fresh path and copies only `m_absolute`. Its kind is the default kind,
  not the path's own (`ParentChangesKind`).
- `str` appends the long-path header through the extent of a char array. That extent counts
  the terminating NUL, so five characters go out while `set` strips four. A long absolute
  Windows path therefore parses back as relative, with a NUL at the head of its first segment
  (`LongWindowsPathLosesDrive`).
- The extension of `.gitignore` is `gitignore`: the code takes the text after the last dot,
  whatever comes before it (`ExtensionAfterLastDot`, `ExtensionOfDotfile`).
- The `/` root prefix depends on the path's own kind, not on the requested render kind. The
  separator depends only on the requested kind (`RootFollowsOwnKind`, `WindowsKindHasNoSlashRoot`).

## Model

| member | source | states |
|---|---|---|
| `FsPath.FindFirstOf` | src/path.cpp:269-279 | the position returned holds a delimiter, no earlier position at or after the start does, and NPOS means no delimiter remains |
| `FsPath.RunsWellFormed` | src/path.cpp:266-283 | every run (`Runs`) of every input is non-empty and contains no delimiter, so every token of a non-empty input is |
| `FsPath.RunsFromPosition` | src/path.cpp:269-279 | at a delimiter the loop pushes nothing and moves past it; elsewhere the text up to the next delimiter, or to the end at npos, is the next token |
| `FsPath.TokenizeContinues` | src/path.cpp:272-279 | a turn that does not break keeps the taken tokens followed by the runs after the delimiter equal to all runs of the input |
| `FsPath.TokenizeEnds` | src/path.cpp:272-278 | the turn that breaks, at npos or at a delimiter in the last position, has taken every run |
| `FsPath.Tokenize` | src/path.cpp:266-283 | for a non-empty input the tokenize loop returns exactly the maximal delimiter-free runs in input order, none empty and none holding a delimiter; the empty string gives one empty token |
| `FsPath.RunsSplit` | src/path.cpp:266-283 | `Runs` of a + d + b, for a delimiter d, is `Runs` of a followed by `Runs` of b, so repeated, leading and trailing separators vanish (tokenize agrees when both halves are non-empty, since `""` tokenizes to one empty token) |
| `FsPath.RunsOfRun` | src/path.cpp:266-283 | a non-empty delimiter-free string is a single run, and so a single token |
| `FsPath.RunsCoverInput` | src/path.cpp:266-283 | the runs, concatenated, are the input with its delimiters removed: nothing else is lost or reordered |
| `FsPath.RunsOfJoin` | src/path.cpp:266-283 | `Runs` of non-empty delimiter-free segments joined by a delimiter is the segment list; for a non-empty list this is what tokenizing the join gives back (an empty list joins to `""`, which tokenizes to one empty token) |
| `FsPath.Set` | src/path.cpp:167-187 | posix: absolute iff the input starts with '/', segments are its tokens on '/'; windows: one leading `\\?\` stripped, segments are the tokens of the rest on '/' and '\', absolute iff a letter and ':' lead the rest; in both, tokens are the maximal delimiter-free runs except that "" gives one empty segment |
| `FsPath.WindowsDriveInFirstSegment` | src/path.cpp:180-181 | an absolute Windows parse keeps the drive letter and colon as the first two characters of its first segment |
| `FsPath.StripsOnePrefix` | src/path.cpp:175-179 | only one `\\?\` is removed: a doubled prefix followed by any text leaves a relative path |
| `FsPath.StrRoot` | src/path.cpp:133-150 | an absolute posix path gets '/'; an absolute Windows path gets the five-character header when the summed segment lengths plus one each exceed the legacy limit; otherwise nothing |
| `FsPath.Str` | src/path.cpp:130-165 | the render is the root prefix followed by the segments joined with '/' for a posix render and '\' otherwise, with no trailing separator |
| `FsPath.RootFollowsOwnKind` | src/path.cpp:133-160 | an absolute posix-kind path rendered for Windows starts with '/' and still holds a '\' between segments: the prefix follows the path's kind, the separator the requested one |
| `FsPath.WindowsKindHasNoSlashRoot` | src/path.cpp:133-150 | an absolute Windows-kind path needing no header renders for posix as its '/'-joined segments, with no root '/' |
| `FsPath.WeightIsJoinedLength` | src/path.cpp:137-141 | for a non-empty segment list, the accumulated length equals the joined segments' length plus one for the NUL |
| `FsPath.JoinWithFront` | src/path.cpp:152-162 | for a non-empty segment list, the joined string is the first segment followed, when there are more, by a separator and the join of the rest |
| `FsPath.PosixRoundTrip` | src/path.cpp:130-186 | parsing the posix render restores a posix path with non-empty '/'-free segments that is absolute or has a segment |
| `FsPath.EmptyRelativePathReparses` | src/path.cpp:269-274 | the empty relative path renders as "" and comes back with one empty segment |
| `FsPath.JoinedDrive` | src/path.cpp:152-162 | the Windows join of well-formed segments starts with a drive exactly when its first segment does |
| `FsPath.WindowsRoundTrip` | src/path.cpp:130-181 | a Windows path of well-formed segments, absolute exactly when its first segment holds a drive and short enough to need no header, survives render then parse |
| `FsPath.LongWindowsPathLosesDrive` | src/path.cpp:145-147 | a long absolute Windows path re-parses as relative with a NUL at the head of its first segment |
| `FsPath.Join` | src/path.cpp:115-128 | fails with ExpectedRelative when the right side is absolute, else with ExpectedSameType when kinds differ; otherwise the left segments then the right ones, with the left flag and kind |
| `FsPath.JoinAssociative` | src/path.cpp:115-128 | (a / b) / c equals a / (b / c) for relative b, c of one kind |
| `FsPath.JoinWithAppend` | src/path.cpp:152-162 | joining two non-empty segment lists puts exactly one separator between their joins |
| `FsPath.JoinRendersWithSeparator` | src/path.cpp:115-165 | when a and b both have segments and a is not an absolute Windows-kind path (whose header depends on the total length), the render of a / b is the render of a, one separator, and the render of b |
| `FsPath.ParentPath` | src/path.cpp:99-113 | drops the last segment and keeps the absolute flag; an empty relative path becomes ".."; an empty absolute path stays empty; the kind is the default kind |
| `FsPath.ParentOfRootIsRoot` | src/path.cpp:103-106 | the empty absolute path is its own parent, so repeated calls are idempotent |
| `FsPath.ParentOfEmptyRelative` | src/path.cpp:103-106 | the empty relative path's parent is "..", whose parent is the empty path again |
| `FsPath.AncestorDropsSegments` | src/path.cpp:99-113 | n ≥ 1 parent steps drop the last n segments and keep the absolute flag, with the default kind; a relative path needs n at most its segment count (beyond it ".." appears), while an absolute path reaches the root and stays there |
| `FsPath.Filename` | src/path.cpp:92-97 | "" for a path without segments; otherwise the result is the last segment, the one that follows all the others |
| `FsPath.FilenameOfJoin` | src/path.cpp:92-97 | when the join succeeds, the filename of a / b is b's last segment, or a's filename when b has no segments |
| `FsPath.ParentJoinFilename` | src/path.cpp:92-113 | joining the parent with the filename rebuilds a non-empty path whose kind is the default kind |
| `FsPath.ParentUndoesJoin` | src/path.cpp:99-128 | appending one relative segment and then taking the parent, under the path's own kind, gives the path back |
| `FsPath.ParentChangesKind` | src/path.cpp:100-101 | under another default kind, parent joined with filename is not the original path |
| `FsPath.LastIndexOf` | src/path.cpp:86 | the position returned holds the character and none after it does; NPOS when it is absent |
| `FsPath.Extension` | src/path.cpp:84-90 | the result has no dot; it is "" when the filename has no dot, else the filename's suffix after its last dot |
| `FsPath.ExtensionAfterLastDot` | src/path.cpp:84-90 | a last segment of the form base + "." + dot-free text has that text as its extension, whatever base holds |
| `FsPath.ExtensionOfArchive` | src/path.cpp:84-90 | "archive.tar.gz" gives "gz": only the part after the last dot |
| `FsPath.ExtensionOfDotfile` | src/path.cpp:84-90 | ".gitignore" gives "gitignore": a leading dot counts as a separator |
| `FsPath.ExtensionOfTrailingDot` | src/path.cpp:84-90 | "name." gives "" |
| `FsPath.ExtensionWithoutDot` | src/path.cpp:84-97 | examples: the name "noext", and a path with no segments, give "" (for every dot-free name this is an ensures of `Extension`) |
| `FsResolver.Resolve` | src/resolver.cpp:6-13 | the search loop returns what Resolution defines: bases in order, the first join error or first existing join, else the value |
| `FsResolver.FirstExistingBaseWins` | src/resolver.cpp:7-10 | when the earlier bases' joins succeed and do not exist, the first existing join is returned and later bases are not consulted |
| `FsResolver.FirstJoinErrorPropagates` | src/resolver.cpp:8 | a join error met before any existing candidate is the result |
| `FsResolver.NoExistingBaseGivesValue` | src/resolver.cpp:12 | when no joined candidate exists, including with no bases, the value is returned unchanged |
| `FsResolver.ResolutionShape` | src/resolver.cpp:6-12 | the result is the value, or the join of the value under some base (existing when it is not an error) |
| `FsResolver.EmptyResolverReturnsValue` | src/resolver.cpp:7-12 | with no bases even an absolute value is returned without error |
| `FsResolver.AbsoluteValueFails` | src/resolver.cpp:8 | with a base, an absolute value fails on the first join before any existence check |
| `FsResolver.KindMismatchFails` | src/resolver.cpp:8 | with a base of another kind first, a relative value fails with ExpectedSameType |
| `FsResolver.PluginScenario` | src/resolver.cpp:6-13 | with bases /opt/app and /usr/local/app, plugin.so resolves to the second when only it exists, and stays relative when neither does |

## Left out

- Filesystem queries and mutations are OS calls and are not modelled: `make_absolute`,
  `file_exists`, `file_size`, `is_directory`, `is_file`, `cwd`, `create_directory`,
  `create_directories`, `remove_file` and `resize_file`. The resolver receives existence as
  the parameter `fileExists`.
- UTF-8/UTF-16 transcoding (`wstr`, `set(wstring)`) is not modelled. It is a thin wrapper
  around Windows API calls.
- Both `operator<<` overloads are not modelled. They only write to a stream.
- Allocator handles are dropped. They carry no semantics.
- `native_path`, the default `m_type`, `MAX_PATH_WINDOWS_LEGACY` and `empty()` are defined in a
  header that is not part of this model:
  - A render is requested as posix or Windows only.
  - `parent_path`'s default kind is the parameter `defaultKind`.
  - The legacy limit is the parameter `legacyMax`.
  - `empty()` is read as "has no segments" (`Filename`).
- A Dafny `char` stands for one byte of the narrow `internal::string`. Lengths, such as the
  `i.length()` that `Weight` sums for the long-path test, count bytes. Multi-byte UTF-8 text is
  not decoded.
- Set: the source assigns the three fields of an existing object. The model returns the new
  path value, because every other operation copies paths and compares them field by field.
- StrRoot: the `size_t` sum of segment lengths is unbounded here. Its wrap-around cannot
  happen for strings that fit in memory.
- `std::isalpha` is read as an ASCII letter test. Locale-dependent letters are not modelled.
- Join: a thrown `runtime_error` is returned as `Err`. Resolve passes that `Err` on where the
  source lets the exception escape.
