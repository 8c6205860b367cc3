/**
 * The comment handler of src/webhook/issues.rs: a created or edited
 * comment whose body mentions "mediafire" is deleted, in the repository
 * named by the issue's API URL, through the app's installation there.
 *
 * The GitHub API calls are foreign: the installation lookup enters as the
 * parameter `lookup(owner, repo)`, and the delete call becomes the
 * returned `Effect` (its answer is discarded by the source anyway).
 */
module Issues {

  import opened Wrappers

  datatype CommentAction = Created | Deleted | Edited

  datatype Comment = Comment(id: nat, body: Option<string>)

  /** `repositoryUrl` is the serialised form of the issue's `repository_url`. */
  datatype Issue = Issue(repositoryUrl: string)

  /** The fields of the issue-comment payload that the handler reads. */
  datatype Payload = Payload(action: CommentAction, comment: Comment, issue: Issue)

  type InstallationId = nat

  /** A `delete_comment` call made as the given installation. */
  datatype DeleteRequest = DeleteRequest(installation: InstallationId, owner: string, repo: string, commentId: nat)

  /**
   * What one invocation of the handler does: nothing, one delete request,
   * or a panic from the `unwrap` of a failed installation lookup.
   */
  datatype Effect = NoAction | Delete(request: DeleteRequest) | Abort

  const Keyword: string := "mediafire"

  // ---------------------------------------------------------------------
  // Substring search (`str::contains`)
  // ---------------------------------------------------------------------

  predicate OccursAt(s: string, pat: string, i: nat) {
    i + |pat| <= |s| && s[i..i + |pat|] == pat
  }

  /** Whether `pat` occurs in `s` at some position at or after `from`. */
  function ContainsFrom(s: string, pat: string, from: nat): (b: bool)
    ensures b <==> exists i: nat :: from <= i && OccursAt(s, pat, i)
    decreases |s| - from
  {
    if from + |pat| > |s| then false
    else if s[from..from + |pat|] == pat then
      assert OccursAt(s, pat, from);
      true
    else ContainsFrom(s, pat, from + 1)
  }

  /** Case-sensitive substring test. */
  function Contains(s: string, pat: string): (b: bool)
    ensures b <==> exists i: nat :: OccursAt(s, pat, i)
  {
    ContainsFrom(s, pat, 0)
  }

  // ---------------------------------------------------------------------
  // The pattern https://api.github.com/repos/(.*)/(.*)
  // ---------------------------------------------------------------------

  /**
   * The pattern's text before the first group. Its two unescaped dots are
   * wildcards: in the regex they match any character except a newline.
   */
  const RepoPattern: string := "https://api.github.com/repos/"

  predicate PatternCharMatches(p: char, c: char) {
    if p == '.' then c != '\n' else c == p
  }

  /** The text before the groups matches at position `i` of `url`. */
  predicate PrefixAt(url: string, i: nat) {
    && i + |RepoPattern| <= |url|
    && forall k :: 0 <= k < |RepoPattern| ==> PatternCharMatches(RepoPattern[k], url[i + k])
  }

  /** The end of the line that contains position `j`: `.` never crosses a newline. */
  function LineEnd(s: string, j: nat): (e: nat)
    requires j <= |s|
    ensures j <= e <= |s|
    ensures e < |s| ==> s[e] == '\n'
    ensures forall k :: j <= k < e ==> s[k] != '\n'
    decreases |s| - j
  {
    if j == |s| || s[j] == '\n' then j else LineEnd(s, j + 1)
  }

  /** What `.*` can reach from position `j`: the rest of that line. */
  function Line(s: string, j: nat): (t: string)
    requires j <= |s|
    ensures '\n' !in t
  {
    s[j..LineEnd(s, j)]
  }

  /** The index of the last `/` in `t`. */
  function LastSlash(t: string): (r: Option<nat>)
    ensures r.None? <==> '/' !in t
    ensures r.Some? ==> r.value < |t| && t[r.value] == '/' && '/' !in t[r.value + 1..]
  {
    if t == [] then None
    else if t[|t| - 1] == '/' then Some(|t| - 1)
    else
      var r := LastSlash(t[..|t| - 1]);
      assert r.Some? ==> t[r.value + 1..] == t[..|t| - 1][r.value + 1..] + [t[|t| - 1]];
      assert t == t[..|t| - 1] + [t[|t| - 1]];
      r
  }

  /** The whole pattern matches starting at position `i`. */
  predicate MatchesAt(url: string, i: nat) {
    PrefixAt(url, i) && '/' in Line(url, i + |RepoPattern|)
  }

  /** The leftmost position at or after `from` where the pattern matches. */
  function FirstMatch(url: string, from: nat): (r: Option<nat>)
    requires from <= |url|
    ensures r.None? ==> forall i :: from <= i <= |url| ==> !MatchesAt(url, i)
    ensures r.Some? ==> from <= r.value <= |url| && MatchesAt(url, r.value)
    ensures r.Some? ==> forall i :: from <= i < r.value ==> !MatchesAt(url, i)
    decreases |url| - from
  {
    if MatchesAt(url, from) then Some(from)
    else if from == |url| then None
    else FirstMatch(url, from + 1)
  }

  /** The capture groups of a match; a group that did not take part is `None`. */
  datatype Captures = Captures(group1: Option<string>, group2: Option<string>)

  /**
   * The groups of the match at `i`. Both `.*` are greedy: the first takes
   * the line up to its last `/`, the second the rest of the line.
   */
  function GroupsAt(url: string, i: nat): (c: Captures)
    requires i <= |url| && MatchesAt(url, i)
    ensures c.group1.Some? && c.group2.Some?
    ensures c.group1.value + "/" + c.group2.value == Line(url, i + |RepoPattern|)
    ensures '/' !in c.group2.value
  {
    var line := Line(url, i + |RepoPattern|);
    var k := LastSlash(line).value;
    assert line == line[..k] + "/" + line[k + 1..];
    Captures(Some(line[..k]), Some(line[k + 1..]))
  }

  /** The pattern matches at `i` and nowhere before. */
  predicate IsLeftmostMatch(url: string, i: nat) {
    i <= |url| && MatchesAt(url, i) && forall j :: 0 <= j < i ==> !MatchesAt(url, j)
  }

  /** `Regex::captures`: the groups of the leftmost match, if any. */
  function RegexCaptures(url: string): (r: Option<Captures>)
    ensures r.None? <==> forall i :: 0 <= i <= |url| ==> !MatchesAt(url, i)
    ensures r.Some? ==> r.value.group1.Some? && r.value.group2.Some? && '/' !in r.value.group2.value
    ensures r.Some? ==> exists i: nat :: IsLeftmostMatch(url, i)
                                  && r.value.group1.value + "/" + r.value.group2.value == Line(url, i + |RepoPattern|)
  {
    match FirstMatch(url, 0)
    case None => None
    case Some(i) =>
      assert IsLeftmostMatch(url, i);
      Some(GroupsAt(url, i))
  }

  /**
   * `extract_repository`: owner and repository name from an issue's
   * `repository_url`.
   */
  function ExtractRepository(url: string): (r: Result<(string, string)>)
    // Err exactly when the pattern matches nowhere in the URL
    ensures r.Ok? <==> exists i: nat :: i <= |url| && MatchesAt(url, i)
    // on a match, owner "/" repo is the line after the leftmost match of the
    // fixed text, split at its last slash
    ensures r.Ok? ==> '/' !in r.value.1
    ensures r.Ok? ==> exists i: nat :: IsLeftmostMatch(url, i)
                                  && r.value.0 + "/" + r.value.1 == Line(url, i + |RepoPattern|)
  {
    match RegexCaptures(url)
    case Some(captures) =>
      if captures.group1.Some? && captures.group2.Some? then
        Ok((captures.group1.value, captures.group2.value))
      else
        Err
    case None => Err
  }

  /** In owner "/" repo with no `/` in repo, the last `/` is the one between them. */
  lemma LastSlashOfSplit(owner: string, repo: string)
    requires '/' !in repo
    ensures LastSlash(owner + "/" + repo) == Some(|owner|)
  {
    var s := owner + "/" + repo;
    var v := LastSlash(s).value;
    forall j | v < j < |s| ensures s[j] != '/' {
      assert s[j] == s[v + 1..][j - v - 1];
    }
    forall j | |owner| < j < |s| ensures s[j] != '/' {
      assert s[j] == repo[j - |owner| - 1];
    }
    assert s[|owner|] == '/';
  }

  /** The greedy split: a string has at most one split around a `/` whose right part has no `/`. */
  lemma SplitAtLastSlashUnique(o1: string, r1: string, o2: string, r2: string)
    requires o1 + "/" + r1 == o2 + "/" + r2
    requires '/' !in r1 && '/' !in r2
    ensures o1 == o2 && r1 == r2
  {
    LastSlashOfSplit(o1, r1);
    LastSlashOfSplit(o2, r2);
    var s := o1 + "/" + r1;
    assert o1 == s[..|o1|] == o2;
    assert r1 == s[|o1| + 1..] == r2;
  }

  /** Whatever line starts inside the text after position `from` only holds characters of it. */
  lemma SlashInLaterLine(url: string, from: nat, j: nat)
    requires from <= j <= |url|
    requires '/' in Line(url, j)
    ensures '/' in url[from..]
  {
    var line := Line(url, j);
    var k :| 0 <= k < |line| && line[k] == '/';
    assert url[from..][j - from + k] == url[j + k] == line[k];
  }

  /**
   * For a URL whose start matches the pattern's text and whose rest is one
   * line: Err exactly when no `/` follows, and otherwise owner "/" repo is
   * all of the rest, with no `/` in repo.
   */
  lemma {:induction false} ExtractAfterPrefix(url: string)
    requires PrefixAt(url, 0) && '\n' !in url[|RepoPattern|..]
    ensures ExtractRepository(url).Ok? <==> '/' in url[|RepoPattern|..]
    ensures ExtractRepository(url).Ok? ==>
              var (owner, repo) := ExtractRepository(url).value;
              owner + "/" + repo == url[|RepoPattern|..] && '/' !in repo
  {
    var n := |RepoPattern|;
    assert Line(url, n) == url[n..];
    if '/' in url[n..] {
      assert MatchesAt(url, 0);
      var i: nat :| IsLeftmostMatch(url, i)
                  && ExtractRepository(url).value.0 + "/" + ExtractRepository(url).value.1 == Line(url, i + n);
      assert IsLeftmostMatch(url, i);
    } else {
      forall j: nat | j <= |url| ensures !MatchesAt(url, j) {
        if MatchesAt(url, j) {
          SlashInLaterLine(url, n, j + n);
        }
      }
    }
  }

  /**
   * Extraction inverts building a URL: any text matching the pattern's
   * fixed part, then owner "/" repo on one line with no `/` in repo, gives
   * back exactly owner and repo.
   */
  lemma ExtractFromParts(prefix: string, owner: string, repo: string)
    requires |prefix| == |RepoPattern| && PrefixAt(prefix, 0)
    requires '\n' !in owner && '\n' !in repo && '/' !in repo
    ensures ExtractRepository(prefix + owner + "/" + repo) == Ok((owner, repo))
  {
    var rest := owner + "/" + repo;
    var url := prefix + rest;
    assert url == prefix + owner + "/" + repo;
    assert url[|RepoPattern|..] == rest;
    forall k | 0 <= k < |RepoPattern| ensures url[k] == prefix[k] { }
    assert PrefixAt(url, 0);
    assert rest[|owner|] == '/';
    forall k | 0 <= k < |rest| ensures rest[k] != '\n' {
      if k < |owner| { assert rest[k] == owner[k]; }
      else if k > |owner| { assert rest[k] == repo[k - |owner| - 1]; }
    }
    ExtractAfterPrefix(url);
    var (o, r) := ExtractRepository(url).value;
    SplitAtLastSlashUnique(o, r, owner, repo);
  }

  /** The round trip on GitHub's own URL form. */
  lemma ExtractRoundTrip(owner: string, repo: string)
    requires '\n' !in owner && '\n' !in repo && '/' !in repo
    ensures ExtractRepository(RepoPattern + owner + "/" + repo) == Ok((owner, repo))
  {
    assert PrefixAt(RepoPattern, 0);
    ExtractFromParts(RepoPattern, owner, repo);
  }

  /** The repository URL GitHub sends for acme/widget. */
  lemma ExtractCanonicalExample()
    ensures ExtractRepository("https://api.github.com/repos/acme/widget") == Ok(("acme", "widget"))
  {
    assert "https://api.github.com/repos/acme/widget" == RepoPattern + "acme" + "/" + "widget";
    ExtractRoundTrip("acme", "widget");
  }

  /** Trailing path segments end up in the owner: the first group is greedy. */
  lemma ExtractTrailingSegmentExample()
    ensures ExtractRepository("https://api.github.com/repos/acme/widget/issues") == Ok(("acme/widget", "issues"))
  {
    assert "https://api.github.com/repos/acme/widget/issues" == RepoPattern + "acme/widget" + "/" + "issues";
    ExtractRoundTrip("acme/widget", "issues");
  }

  /** The unescaped dots match any character, so other hosts pass too. */
  lemma ExtractWildcardHostExample()
    ensures ExtractRepository("https://api-github-com/repos/acme/widget") == Ok(("acme", "widget"))
  {
    var prefix := "https://api-github-com/repos/";
    assert PrefixAt(prefix, 0);
    assert "https://api-github-com/repos/acme/widget" == prefix + "acme" + "/" + "widget";
    ExtractFromParts(prefix, "acme", "widget");
  }

  /** On GitHub's URL form, Err exactly when no `/` follows the text after `repos/`. */
  lemma ExtractWithoutSlash(rest: string)
    requires '\n' !in rest && '/' !in rest
    ensures ExtractRepository(RepoPattern + rest) == Err
  {
    var url := RepoPattern + rest;
    assert url[|RepoPattern|..] == rest;
    forall k | 0 <= k < |RepoPattern| ensures url[k] == RepoPattern[k] { }
    assert PrefixAt(url, 0);
    ExtractAfterPrefix(url);
  }

  /** A URL with no segment after the owner does not match. */
  lemma ExtractMissingRepoExample()
    ensures ExtractRepository("https://api.github.com/repos/acme") == Err
  {
    assert "https://api.github.com/repos/acme" == RepoPattern + "acme";
    ExtractWithoutSlash("acme");
  }

  // ---------------------------------------------------------------------
  // The handler
  // ---------------------------------------------------------------------

  /** The conditions under which the handler acts on a payload. */
  predicate Flagged(payload: Payload) {
    && (payload.action == Created || payload.action == Edited)
    && payload.comment.body.Some?
    && Contains(payload.comment.body.value, Keyword)
    && ExtractRepository(payload.issue.repositoryUrl).Ok?
  }

  /** `issue_comment`: delete a flagged comment, as the repository's installation. */
  function IssueComment(payload: Payload, lookup: (string, string) -> Option<InstallationId>): (e: Effect)
    // nothing happens unless the comment is flagged
    ensures e == NoAction <==> !Flagged(payload)
    // a panic happens only when the installation lookup fails
    ensures e == Abort <==>
              Flagged(payload) && lookup(ExtractRepository(payload.issue.repositoryUrl).value.0,
                                         ExtractRepository(payload.issue.repositoryUrl).value.1).None?
    // the one delete targets this comment, in the extracted repository, as its installation
    ensures e.Delete? ==> && e.request.commentId == payload.comment.id
                          && ExtractRepository(payload.issue.repositoryUrl) == Ok((e.request.owner, e.request.repo))
                          && lookup(e.request.owner, e.request.repo) == Some(e.request.installation)
  {
    if payload.action == Created || payload.action == Edited then
      match payload.comment.body
      case Some(body) =>
        if Contains(body, Keyword) then
          match ExtractRepository(payload.issue.repositoryUrl)
          case Ok((owner, repo)) =>
            (match lookup(owner, repo)
             case Some(installation) => Delete(DeleteRequest(installation, owner, repo, payload.comment.id))
             case None => Abort)
          case Err => NoAction
        else NoAction
      case None => NoAction
    else NoAction
  }

  /** A flagged comment in acme/widget is deleted as the installation the lookup returns. */
  lemma DeleteExample(lookup: (string, string) -> Option<InstallationId>)
    requires lookup("acme", "widget") == Some(7)
    ensures IssueComment(Payload(Edited, Comment(42, Some("see mediafire.com/file/x")),
                                 Issue("https://api.github.com/repos/acme/widget")), lookup)
            == Delete(DeleteRequest(7, "acme", "widget", 42))
  {
    var body := "see mediafire.com/file/x";
    assert body[4..4 + |Keyword|] == Keyword;
    assert OccursAt(body, Keyword, 4);
    ExtractCanonicalExample();
  }

  /** The keyword test is case-sensitive: "MediaFire" is left alone. */
  lemma CaseSensitiveExample(lookup: (string, string) -> Option<InstallationId>)
    ensures IssueComment(Payload(Created, Comment(42, Some("MediaFire")),
                                 Issue("https://api.github.com/repos/acme/widget")), lookup)
            == NoAction
  {
    var body := "MediaFire";
    assert body[0] != Keyword[0];
    assert !OccursAt(body, Keyword, 0);
  }
}
