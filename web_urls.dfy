/**
 * `RepoWebURLBuilder` of the iOS app: the github.com pages of a repository
 * ("owner/name"), built by appending path components to a host URL.  A URL
 * is a host and the list of path components appended to it.
 */
module RepoWebUrls {
  import opened Wrappers
  import opened Strings

  /** A web address: the host URL and the path components appended to it, in order. */
  datatype Url = Url(host: string, path: seq<string>)

  /** The URL with the non-empty `components` appended, in order; empty ones are skipped. */
  function AppendingNonEmpty(url: Url, components: seq<string>): (r: Url)
    ensures r.host == url.host
    ensures forall c :: c in r.path && c !in url.path ==> c != [] && c in components
  {
    Url(url.host, url.path + NonEmpty(components))
  }

  /** Appending components none of which is empty appends them all. */
  lemma {:induction false} NonEmptyKeepsAll(components: seq<string>)
    requires forall j :: 0 <= j < |components| ==> components[j] != []
    ensures NonEmpty(components) == components
    decreases |components|
  {
    if components != [] {
      NonEmptyKeepsAll(components[1..]);
      assert [components[0]] + components[1..] == components;
    }
  }

  /**
   * `repoPathURL(components:)`: the host with each non-empty component
   * appended in turn.
   */
  method RepoPathUrlOfComponents(host: string, components: seq<string>) returns (url: Url)
    ensures url == AppendingNonEmpty(Url(host, []), components)
  {
    url := Url(host, []);
    for i := 0 to |components|
      invariant url == Url(host, NonEmpty(components[..i]))
    {
      var component := components[i];
      NonEmptyAppend(components[..i], [component]);
      assert components[..i + 1] == components[..i] + [component];
      if component != [] {
        url := Url(url.host, url.path + [component]);
      }
    }
    assert components[..|components|] == components;
  }

  /**
   * `repoURL(fullName:)`: the host followed by the owner and the name when
   * splitting at the first `/` (empty pieces omitted) gives two pieces;
   * nothing otherwise.
   */
  function RepoUrl(host: string, fullName: string): Option<Url> {
    var parts := SplitOnce(fullName, '/');
    if |parts| != 2 then None
    else Some(AppendingNonEmpty(Url(host, []), parts))
  }

  /**
   * A repository URL comes out only for names of the form (slashes) owner
   * `/` name, with a slash-free owner and a non-empty name; its path is
   * `[owner, name]`.
   */
  lemma RepoUrlShape(host: string, fullName: string)
    requires RepoUrl(host, fullName).Some?
    ensures var url := RepoUrl(host, fullName).value;
            && url.host == host && |url.path| == 2
            && url.path[0] != [] && '/' !in url.path[0] && url.path[1] != []
            && exists n: nat :: fullName == Repeat('/', n) + url.path[0] + "/" + url.path[1]
  {
    var parts := SplitOnce(fullName, '/');
    SplitOnceTwoPieces(fullName, '/');
    NonEmptyKeepsAll(parts);
    assert [] + parts == parts;
    assert RepoUrl(host, fullName).value.path == parts;
  }

  /**
   * Conversely, every name of that form has a repository URL: the host
   * followed by the owner and the name.
   */
  lemma RepoUrlOfShape(host: string, n: nat, owner: string, name: string)
    requires owner != [] && '/' !in owner && name != []
    ensures RepoUrl(host, Repeat('/', n) + owner + "/" + name) == Some(Url(host, [owner, name]))
  {
    assert Repeat('/', n) + owner + "/" + name == Repeat('/', n) + owner + ['/'] + name;
    SplitOnceOfShape(n, owner, name, '/');
    NonEmptyKeepsAll([owner, name]);
    assert [] + [owner, name] == [owner, name];
  }

  /** In particular the URL of `owner/name` is the host followed by the owner and the name. */
  lemma RepoUrlOfPair(host: string, owner: string, name: string)
    requires owner != [] && '/' !in owner && name != []
    ensures RepoUrl(host, owner + "/" + name) == Some(Url(host, [owner, name]))
  {
    RepoUrlOfShape(host, 0, owner, name);
    assert Repeat('/', 0) + owner + "/" + name == owner + "/" + name;
  }

  /** The private `repoPathURL(fullName:components:)`, stated without a loop. */
  function RepoPathUrl(host: string, fullName: string, components: seq<string>): (r: Option<Url>)
    ensures r.Some? <==> RepoUrl(host, fullName).Some?
  {
    match RepoUrl(host, fullName)
    case None => None
    case Some(url) => Some(AppendingNonEmpty(url, components))
  }

  /**
   * `repoPathURL(fullName:components:)`: nothing without a repository URL,
   * otherwise that URL with each non-empty component appended in turn.
   */
  method RepoPathUrlOfFullName(host: string, fullName: string, components: seq<string>)
    returns (result: Option<Url>)
    ensures result == RepoPathUrl(host, fullName, components)
  {
    var repo := RepoUrl(host, fullName);
    if repo.None? {
      return None;
    }
    var url := repo.value;
    for i := 0 to |components|
      invariant url == AppendingNonEmpty(repo.value, components[..i])
    {
      var component := components[i];
      NonEmptyAppend(components[..i], [component]);
      assert components[..i + 1] == components[..i] + [component];
      if component != [] {
        url := Url(url.host, url.path + [component]);
      }
    }
    assert components[..|components|] == components;
    result := Some(url);
  }

  /**
   * A derived URL exists exactly when the repository URL does; it extends it
   * with the non-empty components, in order, and no component of it is empty.
   */
  lemma RepoPathUrlExtends(host: string, fullName: string, components: seq<string>)
    ensures RepoPathUrl(host, fullName, components).None? <==> RepoUrl(host, fullName).None?
    ensures RepoPathUrl(host, fullName, components).Some? ==>
              RepoPathUrl(host, fullName, components).value.path ==
                RepoUrl(host, fullName).value.path + NonEmpty(components)
    ensures RepoPathUrl(host, fullName, components).Some? ==>
              forall c :: c in RepoPathUrl(host, fullName, components).value.path ==> c != []
  {
    var parts := SplitOnce(fullName, '/');
    if |parts| == 2 {
      NonEmptyKeepsAll(parts);
    }
  }

  /** `repoPathURL(fullName:path:)`: the non-empty `/`-separated segments of `path` appended. */
  function RepoPathUrlOfPath(host: string, fullName: string, path: string): Option<Url> {
    RepoPathUrl(host, fullName, Split(path, '/'))
  }

  /** A path is appended segment by segment, its empty segments (doubled or outer `/`) dropped. */
  lemma RepoPathUrlOfPathSegments(host: string, fullName: string, path: string)
    requires RepoUrl(host, fullName).Some?
    ensures var repo := RepoUrl(host, fullName).value;
            RepoPathUrlOfPath(host, fullName, path) == Some(Url(repo.host, repo.path + Split(path, '/')))
  {
    AppendingAll(host, fullName, Split(path, '/'));
  }

  /** `issuesURL(fullName:)`. */
  function IssuesUrl(host: string, fullName: string): Option<Url> {
    RepoPathUrl(host, fullName, ["issues"])
  }

  /** `pullsURL(fullName:)`. */
  function PullsUrl(host: string, fullName: string): Option<Url> {
    RepoPathUrl(host, fullName, ["pulls"])
  }

  /** `actionsURL(fullName:)`. */
  function ActionsUrl(host: string, fullName: string): Option<Url> {
    RepoPathUrl(host, fullName, ["actions"])
  }

  /** `discussionsURL(fullName:)`. */
  function DiscussionsUrl(host: string, fullName: string): Option<Url> {
    RepoPathUrl(host, fullName, ["discussions"])
  }

  /** `tagsURL(fullName:)`. */
  function TagsUrl(host: string, fullName: string): Option<Url> {
    RepoPathUrl(host, fullName, ["tags"])
  }

  /** `branchesURL(fullName:)`. */
  function BranchesUrl(host: string, fullName: string): Option<Url> {
    RepoPathUrl(host, fullName, ["branches"])
  }

  /** `contributorsURL(fullName:)`. */
  function ContributorsUrl(host: string, fullName: string): Option<Url> {
    RepoPathUrl(host, fullName, ["graphs", "contributors"])
  }

  /** `releasesURL(fullName:)`. */
  function ReleasesUrl(host: string, fullName: string): Option<Url> {
    RepoPathUrl(host, fullName, ["releases"])
  }

  /** `tagURL(fullName:tag:)`: `tree` and the `/`-separated segments of the tag. */
  function TagUrl(host: string, fullName: string, tag: string): Option<Url> {
    RepoPathUrl(host, fullName, ["tree"] + Split(tag, '/'))
  }

  /** `branchURL(fullName:branch:)`: `tree` and the `/`-separated segments of the branch. */
  function BranchUrl(host: string, fullName: string, branch: string): Option<Url> {
    RepoPathUrl(host, fullName, ["tree"] + Split(branch, '/'))
  }

  /**
   * Each page builder gives the repository URL followed by its fixed
   * components, and nothing when there is no repository URL.
   */
  lemma PageUrls(host: string, fullName: string)
    ensures RepoUrl(host, fullName).None? ==>
              IssuesUrl(host, fullName).None? && PullsUrl(host, fullName).None? &&
              ActionsUrl(host, fullName).None? && DiscussionsUrl(host, fullName).None? &&
              TagsUrl(host, fullName).None? && BranchesUrl(host, fullName).None? &&
              ContributorsUrl(host, fullName).None? && ReleasesUrl(host, fullName).None?
    ensures RepoUrl(host, fullName).Some? ==>
              var repo := RepoUrl(host, fullName).value;
              && IssuesUrl(host, fullName) == Some(Url(repo.host, repo.path + ["issues"]))
              && PullsUrl(host, fullName) == Some(Url(repo.host, repo.path + ["pulls"]))
              && ActionsUrl(host, fullName) == Some(Url(repo.host, repo.path + ["actions"]))
              && DiscussionsUrl(host, fullName) == Some(Url(repo.host, repo.path + ["discussions"]))
              && TagsUrl(host, fullName) == Some(Url(repo.host, repo.path + ["tags"]))
              && BranchesUrl(host, fullName) == Some(Url(repo.host, repo.path + ["branches"]))
              && ContributorsUrl(host, fullName) == Some(Url(repo.host, repo.path + ["graphs", "contributors"]))
              && ReleasesUrl(host, fullName) == Some(Url(repo.host, repo.path + ["releases"]))
  {
    NonEmptyKeepsAll(["issues"]);
    NonEmptyKeepsAll(["pulls"]);
    NonEmptyKeepsAll(["actions"]);
    NonEmptyKeepsAll(["discussions"]);
    NonEmptyKeepsAll(["tags"]);
    NonEmptyKeepsAll(["branches"]);
    NonEmptyKeepsAll(["graphs", "contributors"]);
    NonEmptyKeepsAll(["releases"]);
  }

  /**
   * A tag or branch is reached under `tree`, one path component per
   * non-empty `/`-separated segment of its name, in order.
   */
  lemma TreeUrls(host: string, fullName: string, name: string)
    requires RepoUrl(host, fullName).Some?
    ensures var repo := RepoUrl(host, fullName).value;
            && TagUrl(host, fullName, name) == Some(Url(repo.host, repo.path + ["tree"] + Split(name, '/')))
            && BranchUrl(host, fullName, name) == Some(Url(repo.host, repo.path + ["tree"] + Split(name, '/')))
  {
    var segments := Split(name, '/');
    AppendingAll(host, fullName, ["tree"] + segments);
    var repo := RepoUrl(host, fullName).value;
    assert repo.path + (["tree"] + segments) == repo.path + ["tree"] + segments;
  }

  /** Components none of which is empty are all appended to the repository URL. */
  lemma AppendingAll(host: string, fullName: string, components: seq<string>)
    requires RepoUrl(host, fullName).Some?
    requires forall j :: 0 <= j < |components| ==> components[j] != []
    ensures var repo := RepoUrl(host, fullName).value;
            RepoPathUrl(host, fullName, components) == Some(Url(repo.host, repo.path + components))
  {
    NonEmptyKeepsAll(components);
  }

  /** Splitting at `/` undoes joining non-empty slash-free segments with `/`. */
  lemma SplitOfJoin(segments: seq<string>)
    requires segments != []
    requires forall j :: 0 <= j < |segments| ==> segments[j] != [] && '/' !in segments[j]
    ensures Split(Join(segments, "/"), '/') == segments
  {
    forall j | 0 <= j < |segments| ensures NoneOf(segments[j], c => c == '/') {
      assert forall k :: 0 <= k < |segments[j]| ==> segments[j][k] in segments[j];
    }
    assert "/" == ['/'];
    SplitJoin(segments, c => c == '/', '/');
    NonEmptyKeepsAll(segments);
  }
}
