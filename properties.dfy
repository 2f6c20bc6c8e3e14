/** Properties of the whole conversion: the order in which the checks
    report their errors, the shapes of GitHub links and what each resolves
    to, and the cases the defensive check in GetLocalPath catches. */
module PathFromUrlProperties {
  import GoStrings
  import FilePath
  import opened PathFromUrl

  /** The URL path "/s0/s1/.../sn" of a list of segments. */
  function GitHubPath(segments: seq<string>): string
  {
    "/" + GoStrings.JoinWith(segments, '/')
  }

  /** Segments that a URL path can be split into and rebuilt from: none
      holds a '/', and the first and the last are not empty. */
  predicate ProperSegments(segments: seq<string>)
  {
    && |segments| >= 1
    && segments[0] != ""
    && segments[|segments| - 1] != ""
    && forall i :: 0 <= i < |segments| ==> '/' !in segments[i]
  }

  /** Segments undoes GitHubPath: the path of a list of proper segments
      splits back into exactly that list. */
  lemma SegmentsOfGitHubPath(segments: seq<string>)
    requires ProperSegments(segments)
    ensures Segments(GitHubPath(segments)) == segments
  {
    var joined := GoStrings.JoinWith(segments, '/');
    GoStrings.JoinWithUnpadded(segments, '/');
    GoStrings.TrimOfLeading(joined, '/');
    GoStrings.SplitJoin(segments, '/');
  }

  /** What the GitHub convertor is built from a path with two segments or
      more. */
  lemma NewConvertorOfSegments(raw: string, scheme: string, host: string, path: string, root: GitRoot)
    requires |Segments(path)| >= 2
    ensures var segments := Segments(path);
      NewGitHubConvertor(raw, Url(scheme, host, path), root)
      == match root
         case NotARepository => Fail(NotInsideGitRepository)
         case Toplevel(dir) =>
           Ok(GitHubConvertor(raw, StripPort(host), segments[0],
                              GoStrings.TrimSuffix(segments[1], GitSuffix), SubPath(segments), dir))
  {
  }

  /** What a supported URL with two segments or more is converted into. */
  lemma ConvertorOfSupported(raw: string, scheme: string, host: string, path: string, dir: string)
    requires IsSupported(scheme, StripPort(host))
    requires |Segments(path)| >= 2
    ensures var segments := Segments(path);
      ConvertorFromUrl(raw, Url(scheme, host, path), Toplevel(dir))
      == Ok(GitHubConvertor(raw, StripPort(host), segments[0],
                            GoStrings.TrimSuffix(segments[1], GitSuffix), SubPath(segments), dir))
  {
  }

  /** Neither an explicit port nor the letter case of the host matters:
      any host that lower-cases to github.com passes the host check, with
      or without a port. */
  lemma PortAndCaseIgnored(scheme: string, name: string, port: string)
    requires scheme == "https" || scheme == "http"
    requires GoStrings.Lowered(name) == GitHubHost
    ensures IsSupported(scheme, StripPort(name))
    ensures IsSupported(scheme, StripPort(name + ":" + port))
  {
    assert forall i :: 0 <= i < |name| ==> name[i] != ':' by {
      assert forall i :: 0 <= i < |name| ==> GoStrings.LowerAscii(name[i]) == GitHubHost[i];
    }
    StripPortOfHostAndPort(name, port);
    SupportedExactly(scheme, name);
    SupportedExactly(scheme, name + ":" + port);
  }

  /** Every error of the URL itself (it does not parse, it is not a GitHub
      http(s) URL, its path has fewer than two segments) is reported before
      the repository root or the file system is looked at: the outcome is
      the same failure whatever git and the file system would say. */
  lemma UrlErrorsComeFirst(raw: string, parsed: ParsedUrl, root1: GitRoot, root2: GitRoot,
                           stat1: string -> StatResult, stat2: string -> StatResult)
    requires || parsed.ParseError?
             || !IsSupported(parsed.scheme, StripPort(parsed.host))
             || '/' !in GoStrings.Trim(parsed.path, '/')
    ensures Process(raw, parsed, root1, stat1).Fail?
    ensures Process(raw, parsed, root1, stat1) == Process(raw, parsed, root2, stat2)
    ensures Process(raw, parsed, root1, stat1).error != NotInsideGitRepository
  {
  }

  /** Outside a git repository a well-formed GitHub URL fails with the
      not-a-repository error, and nothing else is consulted. */
  lemma OutsideRepositoryFails(raw: string, parsed: ParsedUrl, stat: string -> StatResult)
    requires parsed.Url? && IsSupported(parsed.scheme, StripPort(parsed.host))
    requires '/' in GoStrings.Trim(parsed.path, '/')
    ensures Process(raw, parsed, NotARepository, stat) == Fail(NotInsideGitRepository)
  {
  }

  /** With a non-empty sub-path the file system is not consulted; with an
      empty one only the repository root is. */
  lemma LocalPathStatsOnlyBaseDir(c: Convertor, stat1: string -> StatResult, stat2: string -> StatResult)
    requires c.subPath != "" || stat1(c.baseDir) == stat2(c.baseDir)
    ensures GetLocalPath(c, stat1) == GetLocalPath(c, stat2)
  {
  }

  /** Appending ".git" to the repository segment leaves the repository
      name and the sub-path as they were. */
  lemma SuffixedRepoSegment(segments: seq<string>)
    requires |segments| >= 2
    ensures var suffixed := segments[1 := segments[1] + GitSuffix];
      && GoStrings.TrimSuffix(suffixed[1], GitSuffix) == segments[1]
      && SubPath(suffixed) == SubPath(segments)
  {
    var suffixed := segments[1 := segments[1] + GitSuffix];
    GoStrings.TrimSuffixOfAppended(segments[1], GitSuffix);
    assert suffixed[2..] == segments[2..];
  }

  /** A trailing ".git" on the repository segment changes nothing in the
      convertor: two URL paths whose segments differ only in a ".git"
      appended to the repo give the same convertor, but for the raw URL it
      keeps, or the same failure. */
  lemma GitSuffixIgnoredByConvertor(raw1: string, raw2: string, scheme: string, host: string,
                                    path1: string, path2: string, root: GitRoot)
    requires |Segments(path1)| >= 2
    requires !GoStrings.HasSuffix(Segments(path1)[1], GitSuffix)
    requires Segments(path2) == Segments(path1)[1 := Segments(path1)[1] + GitSuffix]
    ensures var c1 := NewGitHubConvertor(raw1, Url(scheme, host, path1), root);
      var c2 := NewGitHubConvertor(raw2, Url(scheme, host, path2), root);
      && c1.Ok? == c2.Ok?
      && (c1.Ok? ==> c1.value.(rawUrl := raw2) == c2.value)
      && (c1.Fail? ==> c1 == c2)
  {
    var segments1, segments2 := Segments(path1), Segments(path2);
    var n1 := NewGitHubConvertor(raw1, Url(scheme, host, path1), root);
    var n2 := NewGitHubConvertor(raw2, Url(scheme, host, path2), root);
    var repo := GoStrings.TrimSuffix(segments1[1], GitSuffix);
    SuffixedRepoSegment(segments1);
    if root.Toplevel? {
      var conv := GitHubConvertor(raw1, StripPort(host), segments1[0], repo, SubPath(segments1), root.dir);
      assert n1 == Ok(conv) && n2 == Ok(conv.(rawUrl := raw2)) by {
        NewConvertorOfSegments(raw1, scheme, host, path1, root);
        NewConvertorOfSegments(raw2, scheme, host, path2, root);
      }
    } else {
      assert n1 == n2 == Fail(NotInsideGitRepository) by {
        NewConvertorOfSegments(raw1, scheme, host, path1, root);
        NewConvertorOfSegments(raw2, scheme, host, path2, root);
      }
    }
  }

  /** The raw URL a convertor keeps plays no part in the local path. */
  lemma GetLocalPathIgnoresRawUrl(c: Convertor, raw: string, stat: string -> StatResult)
    ensures GetLocalPath(c.(rawUrl := raw), stat) == GetLocalPath(c, stat)
  {
  }

  /** A supported URL resolves to the same local path, or fails the same
      way, whether or not its repository segment ends in ".git". */
  lemma GitSuffixIgnored(raw1: string, raw2: string, scheme: string, host: string,
                         path1: string, path2: string, root: GitRoot, stat: string -> StatResult)
    requires IsSupported(scheme, StripPort(host))
    requires |Segments(path1)| >= 2
    requires !GoStrings.HasSuffix(Segments(path1)[1], GitSuffix)
    requires Segments(path2) == Segments(path1)[1 := Segments(path1)[1] + GitSuffix]
    ensures Process(raw1, Url(scheme, host, path1), root, stat) == Process(raw2, Url(scheme, host, path2), root, stat)
  {
    var c1 := ConvertorFromUrl(raw1, Url(scheme, host, path1), root);
    var c2 := ConvertorFromUrl(raw2, Url(scheme, host, path2), root);
    GitSuffixIgnoredByConvertor(raw1, raw2, scheme, host, path1, path2, root);
    if c1.Ok? {
      GetLocalPathIgnoresRawUrl(c1.value, raw2, stat);
    }
  }

  /** Appending ".git" to the repository segment keeps the segments
      proper. */
  lemma SuffixedStaysProper(segments: seq<string>)
    requires |segments| >= 2 && segments[0] != "" && segments[|segments| - 1] != ""
    requires forall i :: 0 <= i < |segments| ==> '/' !in segments[i]
    ensures ProperSegments(segments[1 := segments[1] + GitSuffix])
  {
    var suffixed := segments[1 := segments[1] + GitSuffix];
    assert '/' !in GitSuffix;
    assert forall i :: 0 <= i < |suffixed| ==> '/' !in suffixed[i];
  }

  /** Appending ".git" to the repository segment of any URL path with two
      segments or more gives a URL path with exactly those segments. */
  lemma GitSuffixedPathExists(path: string)
    requires |Segments(path)| >= 2
    ensures var segments := Segments(path);
      Segments(GitHubPath(segments[1 := segments[1] + GitSuffix])) == segments[1 := segments[1] + GitSuffix]
  {
    var segments := Segments(path);
    SegmentsEndsNonEmpty(path);
    SuffixedStaysProper(segments);
    SegmentsOfGitHubPath(segments[1 := segments[1] + GitSuffix]);
  }

  /** A `blob` or `tree` link with a path after the ref resolves to the
      repository root joined with that path, whether or not it exists. */
  lemma BlobLinkResolves(raw: string, scheme: string, host: string, path: string,
                         owner: string, repo: string, marker: string, ref: string, rest: seq<string>,
                         root: string, stat: string -> StatResult)
    requires IsSupported(scheme, StripPort(host))
    requires Segments(path) == [owner, repo, marker, ref] + rest
    requires IsRefMarker(marker) && |rest| >= 1
    requires forall i :: 0 <= i < |rest| ==> rest[i] != ""
    requires repo != "" && !GoStrings.HasSuffix(repo, GitSuffix)
    requires root != ""
    ensures Process(raw, Url(scheme, host, path), Toplevel(root), stat)
            == Ok(root + "/" + GoStrings.JoinWith(rest, '/'))
  {
    var segments := Segments(path);
    var sub := GoStrings.JoinWith(rest, '/');
    assert SubPath(segments) == sub != "" by {
      assert segments[4..] == rest;
      FilePath.JoinOfNonEmpty(rest);
      GoStrings.JoinWithEnds(rest, '/');
    }
    ConvertorOfSupported(raw, scheme, host, path, root);
  }

  /** A plain link with anything after the repository (no `blob` or
      `tree` marker) resolves to the root joined with all of it. */
  lemma PlainLinkResolves(raw: string, scheme: string, host: string, path: string,
                          owner: string, repo: string, rest: seq<string>,
                          root: string, stat: string -> StatResult)
    requires IsSupported(scheme, StripPort(host))
    requires Segments(path) == [owner, repo] + rest
    requires |rest| >= 1 && !IsRefMarker(rest[0])
    requires forall i :: 0 <= i < |rest| ==> rest[i] != ""
    requires repo != "" && !GoStrings.HasSuffix(repo, GitSuffix)
    requires root != ""
    ensures Process(raw, Url(scheme, host, path), Toplevel(root), stat)
            == Ok(root + "/" + GoStrings.JoinWith(rest, '/'))
  {
    var segments := Segments(path);
    var sub := GoStrings.JoinWith(rest, '/');
    assert SubPath(segments) == sub != "" by {
      assert segments[2..] == rest;
      FilePath.JoinOfNonEmpty(rest);
      GoStrings.JoinWithEnds(rest, '/');
    }
    ConvertorOfSupported(raw, scheme, host, path, root);
  }

  /** A link to the repository itself, or a `blob`/`tree` link that stops
      at the ref, names the repository root: the root is returned when it
      exists and its stat error is reported otherwise. */
  lemma RootLinkResolves(raw: string, scheme: string, host: string, path: string,
                         root: string, stat: string -> StatResult)
    requires IsSupported(scheme, StripPort(host))
    requires |Segments(path)| == 2 || (3 <= |Segments(path)| <= 4 && IsRefMarker(Segments(path)[2]))
    requires GoStrings.TrimSuffix(Segments(path)[1], GitSuffix) != ""
    ensures var r := Process(raw, Url(scheme, host, path), Toplevel(root), stat);
      match stat(root)
      case Found => r == Ok(root)
      case NotExist => r == Fail(PathDoesNotExist(root))
      case AccessError(reason) => r == Fail(FailedToAccessPath(reason))
  {
    ConvertorOfSupported(raw, scheme, host, path, root);
  }

  /** The defensive check in GetLocalPath is reachable: a repository
      segment that is exactly ".git", or empty because two '/' meet
      (interior empty segments are kept), leaves the repo empty and the
      conversion fails with the invalid-state error. */
  lemma EmptyRepoIsInvalidState(raw: string, scheme: string, host: string, path: string,
                                root: string, stat: string -> StatResult)
    requires IsSupported(scheme, StripPort(host))
    requires |Segments(path)| >= 2 && (Segments(path)[1] == GitSuffix || Segments(path)[1] == "")
    ensures Process(raw, Url(scheme, host, path), Toplevel(root), stat) == Fail(InvalidConvertorState)
  {
    ConvertorOfSupported(raw, scheme, host, path, root);
    GoStrings.TrimSuffixOfAppended("", GitSuffix);
    assert "" + GitSuffix == GitSuffix;
  }

  /** Only one ".git" is removed: "r.git.git" names the repository "r.git". */
  lemma OneGitSuffixRemoved(repo: string)
    ensures GoStrings.TrimSuffix(repo + GitSuffix + GitSuffix, GitSuffix) == repo + GitSuffix
  {
    GoStrings.TrimSuffixOfAppended(repo + GitSuffix, GitSuffix);
  }
}
