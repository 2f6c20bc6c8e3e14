/** Model of git-path-from-url (main.go): a GitHub URL is turned into a path
    under the root of the current git repository.

    The effects of the program are inputs of the model: the outcome of
    net/url.Parse on the argument (ParsedUrl), the outcome of
    `git rev-parse --show-toplevel` with its output already trimmed
    (GitRoot), and os.Stat as a function from a path to its outcome
    (StatResult). A step that does not use one of them is, in the model, a
    result that does not depend on it. */
module PathFromUrl {
  import GoStrings
  import FilePath

  /** Outcome of net/url.Parse on the raw argument: the failure text, or the
      URL's scheme, host (with any port) and decoded path. The scheme is
      already lower-cased, as url.Parse does, so the comparisons with "https"
      and "http" accept a scheme written in any case. */
  datatype ParsedUrl = ParseError(reason: string) | Url(scheme: string, host: string, path: string)

  /** Outcome of asking git for the top-level directory of the working tree. */
  datatype GitRoot = NotARepository | Toplevel(dir: string)

  /** Outcome of os.Stat on one path. */
  datatype StatResult = Found | NotExist | AccessError(reason: string)

  /** The errors the program reports, one per `errors.New`/`fmt.Errorf`. */
  datatype Error =
    | InvalidUrl(reason: string)
    | UnsupportedUrl(raw: string)
    | InvalidGitHubUrl
    | NotInsideGitRepository
    | InvalidConvertorState
    | PathDoesNotExist(path: string)
    | FailedToAccessPath(reason: string)

  datatype Result<T> = Ok(value: T) | Fail(error: Error)

  /** gitHubHttpsUrlConvertor: built once, then only read. */
  datatype Convertor = GitHubConvertor(
    rawUrl: string,
    host: string,
    owner: string,
    repo: string,
    subPath: string,
    baseDir: string)

  const GitHubHost: string := "github.com"
  const GitSuffix: string := ".git"

  /** The fixed start of each error's text. */
  function Prefix(e: Error): string
  {
    match e
    case InvalidUrl(_) => "invalid url: "
    case UnsupportedUrl(_) => "unsupported url: "
    case InvalidGitHubUrl => "invalid github url: "
    case NotInsideGitRepository => "current directory "
    case InvalidConvertorState => "invalid convertor state"
    case PathDoesNotExist(_) => "path does not exist: "
    case FailedToAccessPath(_) => "failed to access path: "
  }

  /** The rest of each error's text: the offending value, or fixed words. */
  function Detail(e: Error): string
  {
    match e
    case InvalidUrl(reason) => reason
    case UnsupportedUrl(raw) => raw
    case InvalidGitHubUrl => "path must contain owner and repo"
    case NotInsideGitRepository => "is not inside a git repository"
    case InvalidConvertorState => ""
    case PathDoesNotExist(path) => path
    case FailedToAccessPath(reason) => reason
  }

  /** The text each error prints. */
  function Message(e: Error): string
  {
    Prefix(e) + Detail(e)
  }

  /** The first and ninth characters of each prefix. They serve only the
      proof of MessageIdentifiesError: no two kinds of error share them, so
      two messages that agree at those two positions come from the same kind
      of error, which is cheaper to show than comparing the prefixes. */
  function Tag(e: Error): (char, char)
  {
    match e
    case InvalidUrl(_) => ('i', 'u')
    case UnsupportedUrl(_) => ('u', 't')
    case InvalidGitHubUrl => ('i', 'g')
    case NotInsideGitRepository => ('c', 'd')
    case InvalidConvertorState => ('i', 'c')
    case PathDoesNotExist(_) => ('p', 's')
    case FailedToAccessPath(_) => ('f', 'o')
  }

  lemma MessageTag(e: Error)
    ensures |Message(e)| > 8 && (Message(e)[0], Message(e)[8]) == Tag(e)
  {
    assert Message(e)[0] == Prefix(e)[0] && Message(e)[8] == Prefix(e)[8];
  }

  /** Different errors print different messages, so the message tells the
      user which check failed and on what. */
  lemma MessageIdentifiesError(e1: Error, e2: Error)
    requires Message(e1) == Message(e2)
    ensures e1 == e2
  {
    MessageTag(e1);
    MessageTag(e2);
    assert Prefix(e1) == Prefix(e2);
    var m := Message(e1);
    assert Detail(e1) == m[|Prefix(e1)|..] == Detail(e2);
  }

  /** The host without its port: everything before the first ':'. */
  function StripPort(host: string): (h: string)
    ensures ':' !in h
    ensures h <= host
    ensures ':' in host ==> |h| < |host| && host[|h|] == ':'
    ensures ':' !in host ==> h == host
  {
    var i := GoStrings.Index(host, ':');
    if i != -1 then host[..i] else host
  }

  /** StripPort undoes appending a port to a host name without ':'. */
  lemma StripPortOfHostAndPort(name: string, port: string)
    requires ':' !in name
    ensures StripPort(name + ":" + port) == name
  {
    assert (name + ":" + port)[|name|] == ':';
  }

  /** The test that routes a URL to the GitHub convertor. */
  predicate IsSupported(scheme: string, host: string)
  {
    GoStrings.EqualFold(host, GitHubHost) && (scheme == "https" || scheme == "http")
  }

  /** A URL is supported exactly when its scheme is http or https and its
      host without port, lower-cased, is github.com. */
  lemma SupportedExactly(scheme: string, host: string)
    ensures IsSupported(scheme, StripPort(host))
        <==> (scheme == "https" || scheme == "http")
             && GoStrings.Lowered(StripPort(host)) == GitHubHost
  {
    GoStrings.EqualFoldIsLoweredEquality(StripPort(host), GitHubHost);
    assert GoStrings.Lowered(GitHubHost) == GitHubHost;
  }

  /** The URL path cut at '/', after the leading and trailing '/' are
      trimmed; empty segments between two '/' are kept. */
  function Segments(path: string): (segments: seq<string>)
    ensures |segments| >= 1
    ensures forall i :: 0 <= i < |segments| ==> '/' !in segments[i]
    ensures GoStrings.JoinWith(segments, '/') == GoStrings.Trim(path, '/')
    ensures |segments| < 2 <==> '/' !in GoStrings.Trim(path, '/')
  {
    GoStrings.Split(GoStrings.Trim(path, '/'), '/')
  }

  /** With two segments or more, the first (the owner) and the last are
      never empty: trimming removed every leading and trailing '/'. */
  lemma SegmentsEndsNonEmpty(path: string)
    ensures var segments := Segments(path);
      |segments| >= 2 ==> segments[0] != "" && segments[|segments| - 1] != ""
  {
    GoStrings.SplitOfTrimmed(path, '/');
  }

  /** The segments after which a ref is skipped. */
  predicate IsRefMarker(segment: string)
  {
    segment == "blob" || segment == "tree"
  }

  /** The path inside the repository that the URL names. A sub-path is
      only ever read from a link deeper than owner/repo, and after `blob` or
      `tree` only from one that goes past the ref; a plain link whose third
      segment is not empty always has one. */
  function SubPath(segments: seq<string>): (sub: string)
    ensures sub != "" ==> |segments| > 2 && (IsRefMarker(segments[2]) ==> |segments| > 4)
    ensures |segments| > 2 && !IsRefMarker(segments[2]) && segments[2] != "" ==> sub != ""
  {
    if |segments| > 2 then
      if IsRefMarker(segments[2]) then
        if |segments| > 4 then FilePath.Join(segments[4..]) else ""
      else FilePath.Join(segments[2..])
    else ""
  }

  /** `sub` is the '/'-joined non-empty elements of `elems`: it is empty
      exactly when they all are, and otherwise splits back into them. */
  predicate NamesSegments(sub: string, elems: seq<string>)
  {
    && (sub == "" <==> forall i :: 0 <= i < |elems| ==> elems[i] == "")
    && (sub != "" ==> GoStrings.Split(sub, '/') == FilePath.NonEmpty(elems))
  }

  lemma NamesJoin(elems: seq<string>)
    requires forall i :: 0 <= i < |elems| ==> '/' !in elems[i]
    ensures NamesSegments(FilePath.Join(elems), elems)
  {
    if FilePath.Join(elems) != "" {
      FilePath.JoinSplitsBack(elems);
    }
  }

  /** The sub-path rules: nothing for owner/repo alone; after `blob` or
      `tree` the ref is skipped and a link without anything after the ref
      names the repository root; otherwise everything after the repo. */
  lemma SubPathRules(segments: seq<string>)
    requires forall i :: 0 <= i < |segments| ==> '/' !in segments[i]
    ensures |segments| <= 2 ==> SubPath(segments) == ""
    ensures 2 < |segments| <= 4 && IsRefMarker(segments[2]) ==> SubPath(segments) == ""
    ensures 4 < |segments| && IsRefMarker(segments[2]) ==> NamesSegments(SubPath(segments), segments[4..])
    ensures 2 < |segments| && !IsRefMarker(segments[2]) ==> NamesSegments(SubPath(segments), segments[2..])
  {
    if |segments| > 2 {
      if IsRefMarker(segments[2]) {
        if |segments| > 4 {
          NamesJoin(segments[4..]);
        }
      } else {
        NamesJoin(segments[2..]);
      }
    }
  }

  /** newGitHubHttpsUrlConvertor: parse, check the segment count, read owner,
      repo and sub-path, and only then ask git for the repository root. */
  function NewGitHubConvertor(raw: string, parsed: ParsedUrl, root: GitRoot): (c: Result<Convertor>)
    ensures parsed.ParseError? ==> c == Fail(InvalidUrl(parsed.reason))
    ensures parsed.Url? && '/' !in GoStrings.Trim(parsed.path, '/') ==> c == Fail(InvalidGitHubUrl)
    ensures parsed.Url? && '/' in GoStrings.Trim(parsed.path, '/') && root.NotARepository? ==>
              c == Fail(NotInsideGitRepository)
    ensures c.Ok? <==> parsed.Url? && '/' in GoStrings.Trim(parsed.path, '/') && root.Toplevel?
    ensures c.Ok? ==>
      var conv, segments := c.value, Segments(parsed.path);
      && conv.rawUrl == raw
      && conv.host == StripPort(parsed.host)
      && conv.baseDir == root.dir
      && conv.owner != "" && '/' !in conv.owner
      && conv.owner == segments[0]
      && conv.owner + "/" <= GoStrings.Trim(parsed.path, '/')
      && conv.subPath == SubPath(segments)
      && (conv.repo + GitSuffix == segments[1]
          || (conv.repo == segments[1] && !GoStrings.HasSuffix(segments[1], GitSuffix)))
  {
    match parsed
    case ParseError(reason) => Fail(InvalidUrl(reason))
    case Url(_, host, path) =>
      var segments := Segments(path);
      if |segments| < 2 then Fail(InvalidGitHubUrl)
      else
        var owner := segments[0];
        var repo := GoStrings.TrimSuffix(segments[1], GitSuffix);
        var subPath := SubPath(segments);
        SegmentsEndsNonEmpty(path);
        assert GoStrings.JoinWith(segments, '/') == owner + "/" + GoStrings.JoinWith(segments[1..], '/');
        match root
        case NotARepository => Fail(NotInsideGitRepository)
        case Toplevel(dir) => Ok(GitHubConvertor(raw, StripPort(host), owner, repo, subPath, dir))
  }

  /** getConvertorFromUrl: parse the URL and route it to the GitHub
      convertor when it is supported. */
  function ConvertorFromUrl(raw: string, parsed: ParsedUrl, root: GitRoot): (c: Result<Convertor>)
    ensures parsed.ParseError? ==> c == Fail(InvalidUrl(parsed.reason))
    ensures parsed.Url? && !IsSupported(parsed.scheme, StripPort(parsed.host)) ==>
              c == Fail(UnsupportedUrl(raw))
    ensures parsed.Url? && IsSupported(parsed.scheme, StripPort(parsed.host)) ==>
              c == NewGitHubConvertor(raw, parsed, root)
    ensures c.Ok? ==> parsed.Url? && (parsed.scheme == "https" || parsed.scheme == "http")
                      && GoStrings.Lowered(c.value.host) == GitHubHost
  {
    match parsed
    case ParseError(reason) => Fail(InvalidUrl(reason))
    case Url(scheme, host, _) =>
      var stripped := StripPort(host);
      SupportedExactly(scheme, host);
      if IsSupported(scheme, stripped) then NewGitHubConvertor(raw, parsed, root)
      else Fail(UnsupportedUrl(raw))
  }

  /** GetLocalPath: the repository root joined with the sub-path, or the
      root itself after checking that it exists. */
  function GetLocalPath(c: Convertor, stat: string -> StatResult): (r: Result<string>)
    ensures r == Fail(InvalidConvertorState) <==> c.owner == "" || c.repo == ""
    ensures r.Ok? ==> c.baseDir <= r.value && (r.value == c.baseDir <==> c.subPath == "")
    ensures r.Ok? && c.subPath != "" ==>
              r.value == if c.baseDir == "" then c.subPath else c.baseDir + "/" + c.subPath
    ensures c.owner != "" && c.repo != "" && c.subPath != "" ==> r.Ok?
    ensures c.owner != "" && c.repo != "" && c.subPath == "" ==>
      match stat(c.baseDir)
      case Found => r == Ok(c.baseDir)
      case NotExist => r == Fail(PathDoesNotExist(c.baseDir))
      case AccessError(reason) => r == Fail(FailedToAccessPath(reason))
  {
    if c.owner == "" || c.repo == "" then Fail(InvalidConvertorState)
    else
      var path := c.baseDir;
      if c.subPath != "" then
        FilePath.JoinTwo(path, c.subPath);
        Ok(FilePath.Join([path, c.subPath]))
      else
        match stat(path)
        case NotExist => Fail(PathDoesNotExist(path))
        case AccessError(reason) => Fail(FailedToAccessPath(reason))
        case Found => Ok(path)
  }

  /** process: convert, then resolve. */
  function Process(raw: string, parsed: ParsedUrl, root: GitRoot, stat: string -> StatResult): (r: Result<string>)
    ensures r.Ok? ==> root.Toplevel? && root.dir <= r.value
  {
    match ConvertorFromUrl(raw, parsed, root)
    case Fail(e) => Fail(e)
    case Ok(conv) => GetLocalPath(conv, stat)
  }
}
