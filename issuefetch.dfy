/** The issue-side fetchers (backend/get_data/get_repo_issues.py): the
    issue-number candidates, the issue-comments page loop, the incremental
    search over issues and PRs with its node shaping, and the enrichment of
    every found record with its details. */
module IssueFetch {
  import opened Text
  import opened Records
  import opened Pagination
  import opened PrFetch

  // ---------------------------------------------------------------------
  // Issue-number candidates

  /** `[i + 1 for i in range(latest)]` without the PR numbers: PRs and issues
      share one number sequence, so what is left are the issue numbers. */
  function Candidates(latest: int, prNumbers: seq<int>): (r: seq<int>)
    ensures forall k :: k in r <==> 1 <= k <= latest && k !in prNumbers
    ensures forall i :: 0 <= i < |r| ==> 1 <= r[i] <= latest
    ensures forall i, j :: 0 <= i < j < |r| ==> r[i] < r[j]
    ensures |r| <= if latest < 0 then 0 else latest
    decreases latest
  {
    if latest <= 0 then []
    else Candidates(latest - 1, prNumbers) + (if latest in prNumbers then [] else [latest])
  }

  /** `latest` is the number of the newest issue listed, None when the
      listing yields nothing (the loop that reads it does not run). */
  function IssueCandidates(latest: Option<int>, prNumbers: seq<int>): (r: seq<int>)
    ensures latest.None? ==> r == []
    ensures latest.Some? ==> forall k :: k in r <==> 1 <= k <= latest.value && k !in prNumbers
  {
    Candidates(latest.GetOr(0), prNumbers)
  }

  // ---------------------------------------------------------------------
  // The issue-comments loop

  /** The lookup `data.get("data", {}).get("repository", {}).get("issue")` sits
      in a `try` whose handler sets the issue to None, so a lookup that
      raises ends the loop instead. */
  function LocateIssue<N>(data: Slot<Data<RepoTree<N>>>): (l: Located<Conn<N>>)
    ensures !l.Raises?
    ensures l.Found? <==> LocateLenient(data).Found?
    ensures l.Found? ==> l == LocateLenient(data)
  {
    match LocateLenient(data)
    case Raises => Absent
    case other => other
  }

  function IssueCommentsStep(b: Reply<RepoTree<CommentNode>>, now: int): Step<Comment> {
    PageStep(RateGate(b.data, now), b.errors, CommentsShape, LocateIssue(b.data), ns => Some(CommentPairs(ns)))
  }

  /** The issue-comments loop raises only on a null `data` (in its rate
      check); a null repository, which raises in the PR file, commit and
      review loops, just ends it. */
  lemma IssueCommentsRaise(b: Reply<RepoTree<CommentNode>>, now: int)
    ensures IssueCommentsStep(b, now).Raise? <==> b.data.Null?
    ensures !b.errors && b.data.Has? && b.data.value.top.Null? && !Blocked(b.data) ==>
      IssueCommentsStep(b, now) == Break
    ensures !IssueCommentsStep(b, now).Abandon?
  {
  }

  method GetIssueComments(rs: seq<Response<RepoTree<CommentNode>>>)
    returns (comments: seq<Comment>, requests: nat, outcome: Outcome)
    ensures requests <= |rs|
    ensures outcome != Discarded
    ensures comments == Collected(Steps(rs, IssueCommentsStep)[..requests])
    ensures forall c :: c in comments ==> Truthy(c.createdAt)
  {
    var sent, slept;
    comments, sent, slept, outcome := Paginate(rs, IssueCommentsStep);
    requests := |sent|;
    CommentsCreated(Steps(rs, IssueCommentsStep)[..requests]);
  }

  // ---------------------------------------------------------------------
  // The search loop and its node shaping

  /** A search node, by its `__typename`. `closers` holds the `actor` member
      of each `timelineItems` node; an absent `closedAt`, `merged`,
      `additions`, `deletions` or `changedFiles` key is None. */
  datatype SearchNode =
    | IssueNode(number: int, title: string, body: Option<string>, state: string, author: Option<Actor>,
                closers: seq<Slot<Actor>>, createdAt: string, updatedAt: string, closedAt: Option<string>,
                labels: seq<string>)
    | PullNode(number: int, title: string, body: Option<string>, state: string, merged: Option<bool>,
               author: Option<Actor>, mergedBy: Slot<Actor>, createdAt: string, updatedAt: string,
               closedAt: Option<string>, additions: Option<int>, deletions: Option<int>, changedFiles: Option<int>)
    | OtherNode(typename: string)

  const IssueTag := "Issue"
  const PullTag := "PullRequest"

  /** `item["author"]["login"] if item["author"] else None`. */
  function UserOf(author: Option<Actor>): Option<string> {
    if author.Some? then author.value.login else None
  }

  /** `closed_by`: the first timeline node's actor login, None without
      timeline nodes; a first node without an actor raises (None here). */
  function ClosedBy(closers: seq<Slot<Actor>>): (r: Option<Option<string>>)
    ensures closers == [] ==> r == Some(None)
    ensures closers != [] && closers[0].Has? ==> r == Some(closers[0].value.login)
    ensures r.None? <==> closers != [] && !closers[0].Has?
  {
    if closers == [] then Some(None)
    else if closers[0].Has? then Some(closers[0].value.login)
    else None
  }

  function IssueRecord(repo: string, n: SearchNode): (r: Option<Item>)
    requires n.IssueNode?
    ensures r.Some? <==> ClosedBy(n.closers).Some?
    ensures r.Some? ==> r.value.tag == Some(IssueTag) && r.value.number == n.number && r.value.repo == repo
    ensures r.Some? ==> r.value.payload == IssueFields(ClosedBy(n.closers).value, n.labels)
    ensures r.Some? ==> r.value.detail == NoDetail && r.value.user == UserOf(n.author)
  {
    match ClosedBy(n.closers)
    case None => None
    case Some(closedBy) =>
      Some(Item(repo, Some(IssueTag), n.number, n.title, n.body, n.state, UserOf(n.author),
                n.createdAt, n.updatedAt, n.closedAt, IssueFields(closedBy, n.labels), NoDetail))
  }

  /** A PR record; absent `merged` reads as False, absent counts as 0, and
      an absent or null `mergedBy` gives None. */
  function PullRecord(repo: string, n: SearchNode): (r: Item)
    requires n.PullNode?
    ensures r.tag == Some(PullTag) && r.number == n.number && r.repo == repo && r.detail == NoDetail
    ensures r.payload.PullFields?
    ensures n.merged.None? ==> !r.payload.merged
    ensures n.additions.None? ==> r.payload.additions == 0
    ensures n.deletions.None? ==> r.payload.deletions == 0
    ensures n.changedFiles.None? ==> r.payload.changedFiles == 0
    ensures !n.mergedBy.Has? ==> r.payload.mergedBy.None?
    ensures n.mergedBy.Has? ==> r.payload.mergedBy == n.mergedBy.value.login
  {
    Item(repo, Some(PullTag), n.number, n.title, n.body, n.state, UserOf(n.author),
         n.createdAt, n.updatedAt, n.closedAt,
         PullFields(n.merged.GetOr(false), if n.mergedBy.Has? then n.mergedBy.value.login else None,
                    n.additions.GetOr(0), n.deletions.GetOr(0), n.changedFiles.GetOr(0)),
         NoDetail)
  }

  /** What one node adds to `results`: its record, nothing for another
      typename, None when shaping it raised. */
  function SearchRecord(repo: string, n: SearchNode): (r: Option<seq<Item>>)
    ensures n.OtherNode? ==> r == Some([])
    ensures n.PullNode? ==> r == Some([PullRecord(repo, n)])
    ensures n.IssueNode? ==> r == if IssueRecord(repo, n).Some? then Some([IssueRecord(repo, n).value]) else None
  {
    match n
    case OtherNode(_) => Some([])
    case PullNode(_, _, _, _, _, _, _, _, _, _, _, _, _) => Some([PullRecord(repo, n)])
    case IssueNode(_, _, _, _, _, _, _, _, _, _) =>
      match IssueRecord(repo, n)
      case None => None
      case Some(it) => Some([it])
  }

  function SearchRecords(repo: string, nodes: seq<SearchNode>): (r: Option<seq<Item>>)
    ensures r.Some? <==> forall i :: 0 <= i < |nodes| ==> SearchRecord(repo, nodes[i]).Some?
  {
    Concat(SearchParts(repo, nodes))
  }

  function SearchParts(repo: string, nodes: seq<SearchNode>): (ps: seq<Option<seq<Item>>>)
    ensures |ps| == |nodes| && forall i :: 0 <= i < |nodes| ==> ps[i] == SearchRecord(repo, nodes[i])
  {
    seq(|nodes|, i requires 0 <= i < |nodes| => SearchRecord(repo, nodes[i]))
  }

  /** The kept nodes: issues and PRs, in order. */
  function Kept(nodes: seq<SearchNode>): (ks: seq<SearchNode>)
    ensures |ks| <= |nodes| && forall i :: 0 <= i < |ks| ==> !ks[i].OtherNode?
  {
    if nodes == [] then []
    else Kept(nodes[..|nodes| - 1]) + (if nodes[|nodes| - 1].OtherNode? then [] else [nodes[|nodes| - 1]])
  }

  /** Every issue or PR node gives exactly one record, in order, with the
      node's number and a tag naming its typename; other nodes give none. */
  lemma {:induction false} SearchRecordsKept(repo: string, nodes: seq<SearchNode>)
    requires SearchRecords(repo, nodes).Some?
    ensures |SearchRecords(repo, nodes).value| == |Kept(nodes)|
    ensures forall i :: 0 <= i < |Kept(nodes)| ==>
      && SearchRecords(repo, nodes).value[i].number == Kept(nodes)[i].number
      && SearchRecords(repo, nodes).value[i].tag == Some(if Kept(nodes)[i].IssueNode? then IssueTag else PullTag)
  {
    if nodes != [] {
      var nodes' := nodes[..|nodes| - 1];
      var n := nodes[|nodes| - 1];
      assert SearchParts(repo, nodes)[..|nodes| - 1] == SearchParts(repo, nodes');
      SearchRecordsKept(repo, nodes');
      assert SearchRecords(repo, nodes).value == SearchRecords(repo, nodes').value + SearchRecord(repo, n).value;
    }
  }

  /** The search reads `data.get("data", {}).get("search", {})` and then
      subscripts `["pageInfo"]`: an absent or null search object raises. */
  function LocateSearch<N>(data: Slot<Data<Conn<N>>>): (l: Located<Conn<N>>)
    ensures l.Found? <==> data.Has? && data.value.top.Has?
    ensures l.Found? ==> l.conn == data.value.top.value
    ensures !l.Absent?
  {
    if data.Has? && data.value.top.Has? then Found(data.value.top.value) else Raises
  }

  /** `errors` keeps what earlier pages gave; `nodes` is read with
      `.get("nodes", [])`, `pageInfo` and its members by subscript. */
  const SearchShape := Shape(KeepPartial, GetDefault, Strict, true)

  /** The search loop has no rate-limit check: the gate always passes. */
  function SearchStep(repo: string, b: Reply<Conn<SearchNode>>, now: int): Step<Item> {
    PageStep(Pass, b.errors, SearchShape, LocateSearch(b.data), ns => SearchRecords(repo, ns))
  }

  function SearchClassifier(repo: string): (Reply<Conn<SearchNode>>, int) -> Step<Item> {
    (b, now) => SearchStep(repo, b, now)
  }

  /** Unlike the other loops, the search never waits on the rate limit and
      never discards: an `errors` payload ends it with what it has. */
  lemma SearchPolicy(repo: string, b: Reply<Conn<SearchNode>>, now: int)
    ensures !SearchStep(repo, b, now).Retry? && !SearchStep(repo, b, now).Abandon?
    ensures b.errors ==> SearchStep(repo, b, now) == Break
    ensures !b.errors && b.data.Null? ==> SearchStep(repo, b, now) == Raise
  {
  }

  /** An accepted search page gives the records of its nodes, and moves the
      cursor to `endCursor` while `hasNextPage` is true. */
  lemma SearchPage(repo: string, b: Reply<Conn<SearchNode>>, now: int, c: Conn<SearchNode>,
                   ns: seq<SearchNode>, p: PageInfo, more: bool, cur: string)
    requires !b.errors && b.data.Has? && b.data.value.top == Has(c)
    requires c.nodes == Has(ns) && c.pageInfo == Has(p) && p.hasNextPage == Has(more) && p.endCursor == Has(cur)
    requires SearchRecords(repo, ns).Some?
    ensures SearchStep(repo, b, now) == Accept(SearchRecords(repo, ns).value, more, Some(cur))
  {
  }

  // ---------------------------------------------------------------------
  // Enrichment

  /** What the detail fetches for one record returned, None where the call
      raised: the issue-comments fetch for an issue, the commits, files,
      comments and reviews fetches for a PR. */
  datatype Fetched = Fetched(
    issueComments: Option<seq<Comment>>,
    commits: Option<seq<string>>,
    files: Option<seq<FileChange>>,
    prComments: Option<seq<Comment>>,
    reviews: Option<seq<Comment>>)

  /** `enrich_details`: an issue gets `comment_by`; a PR gets `commits`,
      `files`, `comment_by` and `review_by`, written in that order, each one
      only when its fetch and every earlier one succeeded (the first
      exception ends the task). Nothing else in the record changes. */
  function Enrich(it: Item, f: Fetched): (r: Item)
    ensures r.(detail := it.detail) == it
    ensures it.tag != Some(IssueTag) && it.tag != Some(PullTag) ==> r == it
    ensures it.tag == Some(IssueTag) ==>
      r.detail == it.detail.(commentBy := if f.issueComments.Some? then f.issueComments else it.detail.commentBy)
    ensures it.tag == Some(PullTag) ==>
      && r.detail.commits == (if f.commits.Some? then f.commits else it.detail.commits)
      && r.detail.files == (if f.commits.Some? && f.files.Some? then f.files else it.detail.files)
      && r.detail.commentBy ==
           (if f.commits.Some? && f.files.Some? && f.prComments.Some? then f.prComments else it.detail.commentBy)
      && r.detail.reviewBy ==
           (if f.commits.Some? && f.files.Some? && f.prComments.Some? && f.reviews.Some? then f.reviews
            else it.detail.reviewBy)
  {
    if it.tag == Some(IssueTag) then
      (if f.issueComments.Some? then it.(detail := it.detail.(commentBy := f.issueComments)) else it)
    else if it.tag == Some(PullTag) then
      if f.commits.None? then it
      else
        var d1 := it.detail.(commits := f.commits);
        if f.files.None? then it.(detail := d1)
        else
          var d2 := d1.(files := f.files);
          if f.prComments.None? then it.(detail := d2)
          else
            var d3 := d2.(commentBy := f.prComments);
            if f.reviews.None? then it.(detail := d3)
            else it.(detail := d3.(reviewBy := f.reviews))
    else it
  }

  /** The detail tasks, run one after another: task `i` is
      `(type, number, results[i])` and writes only into its own record; a
      failed task does not stop the others. */
  method EnrichAll(results: seq<Item>, fetchOf: (string, int) -> Fetched) returns (enriched: seq<Item>)
    ensures |enriched| == |results|
    ensures forall i :: 0 <= i < |results| ==>
      enriched[i] == Enrich(results[i], fetchOf(results[i].tag.GetOr(""), results[i].number))
  {
    enriched := results;
    for i := 0 to |results|
      invariant |enriched| == |results|
      invariant forall k :: 0 <= k < i ==>
        enriched[k] == Enrich(results[k], fetchOf(results[k].tag.GetOr(""), results[k].number))
      invariant forall k :: i <= k < |results| ==> enriched[k] == results[k]
    {
      var it := enriched[i];
      enriched := enriched[i := Enrich(it, fetchOf(it.tag.GetOr(""), it.number))];
    }
  }

  /** `update_repo_issues_graphql`: the search loop, then, once it has
      finished, the enrichment of every record it found. */
  method UpdateRepoIssues(repo: string, rs: seq<Response<Conn<SearchNode>>>, fetchOf: (string, int) -> Fetched)
    returns (results: seq<Item>, requests: nat, outcome: Outcome)
    ensures requests <= |rs|
    ensures outcome != Discarded
    ensures outcome != Finished ==> results == Collected(Steps(rs, SearchClassifier(repo))[..requests])
    ensures outcome == Finished ==>
      var found := Collected(Steps(rs, SearchClassifier(repo))[..requests]);
      && |results| == |found|
      && forall i :: 0 <= i < |found| ==> results[i] == Enrich(found[i], fetchOf(found[i].tag.GetOr(""), found[i].number))
  {
    var sent, slept;
    results, sent, slept, outcome := Paginate(rs, SearchClassifier(repo));
    requests := |sent|;
    if requests > 0 {
      assert !StepOf(rs[requests - 1], SearchClassifier(repo)).Abandon? by {
        if rs[requests - 1].Received? {
          SearchPolicy(repo, rs[requests - 1].reply, rs[requests - 1].now);
        }
      }
    }
    if outcome == Finished {
      results := EnrichAll(results, fetchOf);
    }
  }
}
