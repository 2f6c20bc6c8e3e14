# git-path-from-url in Dafny

`git-path-from-url` is a small Go command (`main.go`). It takes a GitHub web URL and prints the local path that the URL names inside the current git working tree. Some examples:

- `https://github.com/owner/repo` names the repository root.
- `https://github.com/owner/repo/blob/main/docs/a.md` names `<root>/docs/a.md`.
- `https://github.com/owner/repo/docs` names `<root>/docs`.

This project models that conversion as pure Dafny functions and proves what it does. The model follows the Go code branch for branch:

- the URL is parsed;
- the port is cut off the host;
- the scheme and host are checked;
- the path is trimmed of '/' and split into segments;
- the owner, the repository and the sub-path are read from the segments;
- only then is the repository root asked for;
- finally, either the root is joined with the sub-path, or the root itself is returned after an existence check.

Files:

- `go_strings.dfy` (module `GoStrings`): the parts of Go's `strings` package that the program uses directly (`Index`, `Trim`, `Split`, `TrimSuffix`, `EqualFold`), and the ones that `filepath.Join` and `TrimSuffix` use inside (`Join`, `HasSuffix`). `strings.TrimSpace` (main.go:25) belongs to the git call and is not modelled. Each comes with the laws the program relies on, for example that `Split` and `Join` undo each other.
- `file_path.dfy` (module `FilePath`): `filepath.Join` on a '/' file system.
- `path_from_url.dfy` (module `PathFromUrl`): the program itself. It defines the convertor record, the errors and their texts, and the four steps `NewGitHubConvertor`, `ConvertorFromUrl`, `GetLocalPath` and `Process`.
- `properties.dfy` (module `PathFromUrlProperties`): properties of the whole conversion. They cover:
  - the order in which the errors are reported;
  - what each shape of GitHub link resolves to;
  - that a trailing `.git` is ignored;
  - that the "invalid convertor state" error can actually be reached.

The program's effects are inputs of the model:

- The outcome of `net/url.Parse` is a `ParsedUrl`: a parse failure, or a scheme, host and path. `url.Parse` lower-cases the scheme, so `HTTPS://github.com/o/r` arrives as scheme `https` and is supported.
- The outcome of `git rev-parse --show-toplevel`, with its output already trimmed, is a `GitRoot`.
- `os.Stat` is a function from a path to a `StatResult`.

The statement "a step does not consult git or the file system" is proved as "its result is the same whatever that input is".

Three behaviours of the code are easy to misread. The model keeps each of them as the code has it:

- Only the leading and trailing '/' of the path are trimmed. Empty segments between two '/' are kept, so `/o//x` has an empty repository segment.
- The repository name can be empty after one `.git` is removed (`/o/.git`), and so can an interior segment. The "invalid convertor state" check in `GetLocalPath` is therefore reachable, not dead code.
- The repository root is asked for only after the URL, the host and the segment count have been checked. A malformed GitHub URL therefore fails the same way inside and outside a git repository.

## Model

| member | source | states |
|---|---|---|
| GoStrings.Index | main.go:51 | the result is -1 exactly when the character is absent; otherwise it is the position of the first occurrence |
| GoStrings.Trim | main.go:55 | the result is the middle part of the string, and everything cut off on either side is the cut character, so the result neither starts nor ends with it |
| GoStrings.TrimOfPadded | main.go:55 | trimming removes exactly the padding around a core that neither starts nor ends with the cut character |
| GoStrings.Split | main.go:55 | there is always at least one piece, no piece holds the separator, joining the pieces gives the input back, and there is one piece exactly when the separator is absent |
| GoStrings.SplitJoin | main.go:55 | Split undoes Join for any non-empty list of separator-free pieces |
| GoStrings.HasSuffix | main.go:60 | the test TrimSuffix applies; TrimSuffix and TrimSuffixOfAppended state what it decides: a string that ends with the suffix is some prefix followed by it, and a string with the suffix appended always ends with it |
| GoStrings.TrimSuffix | main.go:60 | removes one copy of the suffix when it is present and leaves the string alone otherwise |
| GoStrings.TrimSuffixOfAppended | main.go:60 | TrimSuffix undoes appending the suffix |
| GoStrings.EqualFold | main.go:120 | ASCII case-insensitive comparison; EqualFoldIsLoweredEquality proves it holds exactly when the lower-cased strings are equal |
| GoStrings.EqualFoldIsLoweredEquality | main.go:120 | EqualFold holds exactly when the two lower-cased strings are equal |
| FilePath.Join | main.go:66-69 | the joined path is empty exactly when every element is empty |
| FilePath.JoinIsJoinOfNonEmpty | main.go:66-69 | filepath.Join is strings.Join with '/' over the non-empty elements |
| FilePath.JoinSplitsBack | main.go:66-69 | splitting a joined path at '/' gives back exactly the non-empty elements, in order |
| FilePath.JoinTwo | main.go:95 | joining the base directory with a non-empty sub-path puts exactly one '/' between them, or gives the sub-path when the directory is empty |
| PathFromUrl.Message | main.go:18-124 | the text of each error: the fixed words of its format string (Prefix) followed by the offending value or the fixed rest of the sentence (Detail); MessageIdentifiesError proves that different errors print different texts |
| PathFromUrl.MessageIdentifiesError | main.go:18-124 | two errors with the same message text are the same error, so the printed text tells which check failed and on what |
| PathFromUrl.StripPort | main.go:50-53 | the result is the prefix of the host before its first ':', holds no ':', and is the whole host when there is no ':' |
| PathFromUrl.StripPortOfHostAndPort | main.go:115-118 | a host name without ':' followed by ':' and a port strips back to that host name |
| PathFromUrl.IsSupported | main.go:120 | the routing condition; SupportedExactly proves it holds exactly for an http or https scheme and a port-less host that lower-cases to github.com |
| PathFromUrl.SupportedExactly | main.go:120-124 | a URL passes the host check exactly when its scheme is http or https and its port-less host lower-cases to github.com |
| PathFromUrl.Segments | main.go:55-58 | there is at least one segment, no segment holds '/', joining the segments with '/' gives back the trimmed path exactly (empty interior segments kept), and there are fewer than two segments exactly when the trimmed path has no '/' |
| PathFromUrl.SegmentsEndsNonEmpty | main.go:55-59 | with two segments or more, the first (the owner) and the last are not empty |
| PathFromUrl.SubPath | main.go:62-71 | a sub-path is only read from a link with more than two segments, and after blob/tree only from one with more than four; a plain link whose third segment is not empty always has one; SubPathRules gives its value |
| PathFromUrl.SubPathRules | main.go:62-71 | the four sub-path rules: empty for owner/repo alone; empty after blob/tree when nothing follows the ref; otherwise the non-empty segments after the ref, or after the repo, joined with '/' |
| PathFromUrl.NewGitHubConvertor | main.go:44-86 | a parse failure gives the invalid-url error; fewer than two segments give the invalid-github-url error; only then does a missing repository give the not-a-repository error; success happens exactly in the remaining case, with the first segment, never empty, as owner, the repository segment with at most one ".git" removed as repo, and the sub-path of the segments |
| PathFromUrl.ConvertorFromUrl | main.go:110-125 | a parse failure gives the invalid-url error and an unsupported scheme or host gives the unsupported-url error; otherwise the result is the GitHub convertor's; a success always has an http(s) scheme and a host equal to github.com ignoring case |
| PathFromUrl.GetLocalPath | main.go:88-105 | fails with the invalid-state error exactly when the owner or the repository is empty; a non-empty sub-path always succeeds and gives the base directory, a '/' and the sub-path, or the sub-path alone when the base directory is empty; an empty sub-path gives the base directory, the does-not-exist error or the access error as its stat says |
| PathFromUrl.Process | main.go:131-138 | a success happens only inside a repository, and the path it gives lies under the repository root |
| PathFromUrlProperties.SegmentsOfGitHubPath | main.go:55 | the URL path "/s0/.../sn" built from proper segments splits back into exactly those segments |
| PathFromUrlProperties.PortAndCaseIgnored | main.go:115-120 | any host that lower-cases to github.com passes the host check, with or without a port after it |
| PathFromUrlProperties.UrlErrorsComeFirst | main.go:44-124 | a parse failure, an unsupported URL, or a path with fewer than two segments fails, and fails with the same error whatever git and the file system would say, never with the not-a-repository error |
| PathFromUrlProperties.OutsideRepositoryFails | main.go:73-76 | outside a repository a well-formed GitHub URL fails with the not-a-repository error |
| PathFromUrlProperties.LocalPathStatsOnlyBaseDir | main.go:93-102 | with a non-empty sub-path the file system is not consulted; with an empty one only the repository root is |
| PathFromUrlProperties.SuffixedRepoSegment | main.go:60-71 | appending ".git" to the repository segment leaves the repository name and the sub-path unchanged |
| PathFromUrlProperties.GitSuffixIgnoredByConvertor | main.go:59-85 | two paths whose segments differ only by a ".git" appended to the repository give the same convertor, except for the raw URL it keeps, or the same failure |
| PathFromUrlProperties.GetLocalPathIgnoresRawUrl | main.go:88-105 | the raw URL kept in the convertor plays no part in the local path |
| PathFromUrlProperties.GitSuffixIgnored | main.go:60 | for a supported URL, `owner/repo.git/...` resolves to the same path, or fails the same way, as `owner/repo/...` |
| PathFromUrlProperties.SuffixedStaysProper | main.go:55-60 | appending ".git" to the repository segment keeps the segments proper |
| PathFromUrlProperties.GitSuffixedPathExists | main.go:55-60 | for every path with two segments or more there is a URL path whose segments are the same with ".git" appended to the repository, so the ".git" property is never vacuous |
| PathFromUrlProperties.BlobLinkResolves | main.go:62-67 | a blob/tree link with a path after the ref resolves to the root joined with that path, without an existence check |
| PathFromUrlProperties.PlainLinkResolves | main.go:68-69 | a link with more segments after the repository and no blob/tree marker resolves to the root joined with all of them |
| PathFromUrlProperties.RootLinkResolves | main.go:62-104 | a link to the repository itself, or a blob/tree link that stops at or before the ref, gives the root when it exists, and the does-not-exist error or the access error otherwise |
| PathFromUrlProperties.EmptyRepoIsInvalidState | main.go:59-90 | a repository segment that is ".git" or empty leaves the repository name empty, and the conversion fails with the invalid-state error |
| PathFromUrlProperties.OneGitSuffixRemoved | main.go:60 | only one ".git" is removed: "r.git.git" names the repository "r.git" |

## Left out

- `getGitRepoRoot` (main.go:18-26) runs `git rev-parse` as a subprocess. It is not modelled; its outcome, with `TrimSpace` already applied, is the `GitRoot` input.
- `net/url.Parse` (main.go:45, 111) is a foreign library. Its outcome is the `ParsedUrl` input, and RFC 3986 parsing is not specified. The Go code parses the same string twice; the model takes it that both parses give the same outcome.
- `os.Stat` (main.go:98-102) is file-system I/O. It is the `stat` input, with its outcome reduced to found, does-not-exist, or another error with its text.
- FilePath.Join: does not apply the lexical `Clean` that Go's `filepath.Join` applies. `.` and `..` segments, and a base directory with a trailing or repeated '/', are kept as they are. The results are exact when segments contain no `.` or `..` and the base directory is clean and is not `/`. For a repository at `/`, the model gives `//a` where Go gives `/a`.
- PathFromUrl.Process: the property that the resolved path lies under the repository root holds only without `Clean`. In the Go program a sub-path made of `..` segments can leave the root.
- GoStrings.EqualFold: folds ASCII letters only. Go's `strings.EqualFold` also applies Unicode simple case folding, so the Kelvin sign (U+212A) equals `k` there but not here.
- Go strings are byte strings, and the model uses sequences of characters. Every operation involved here cuts at ASCII characters only, so the two agree on ASCII input.
- The `urlConvertor` interface (main.go:31-33) has a single implementation. The model calls that implementation directly, and `format` (main.go:127-129) is folded into `Process`.
- `main` and the `urfave/cli` application (main.go:143-167) are command-line plumbing (argument count, printing, exit code). They are not modelled.
