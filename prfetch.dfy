/** The pull-request fetchers (backend/get_data/get_repo_prs.py): the page
    loops for a PR's comments, files, review threads and commits, their node
    mappers, and the one-shot PR query. */
module PrFetch {
  import opened Text
  import opened Records
  import opened Pagination

  /** A GitHub user object `{login}`; `login` None when null. */
  datatype Actor = Actor(login: Option<string>)

  /** `data.repository.pullRequest.<connection>` (or `.issue.` for issue
      comments): the repository object holding the PR or issue object that
      holds the connection the loop pages through. */
  type RepoTree<N> = Obj<Obj<Conn<N>>>

  // ---------------------------------------------------------------------
  // Finding the connection in a reply

  /** The comments loop subscripts `data['data']['repository']['pullRequest']`:
      an absent key or a null parent raises; a null PR ends the loop, and so
      does a falsy connection. */
  function LocateStrict<N>(data: Slot<Data<RepoTree<N>>>): (l: Located<Conn<N>>)
    ensures data.Missing? ==> l.Raises?
    ensures data.Has? && data.value.top.Has? && data.value.top.value.field.Null? ==> l.Absent?
  {
    match data
    case Has(d) =>
      (match d.top
       case Has(repo) =>
         (match repo.field
          case Has(pr) => Connection(pr.field)
          case Null => Absent
          case Missing => Raises)
       case _ => Raises)
    case _ => Raises
  }

  /** The files, reviews and commits loops read
      `data.get("data", {}).get("repository", {}).get("pullRequest")`: an
      absent key reads as an empty object and ends the loop, a null parent
      raises on `.get`. */
  function LocateLenient<N>(data: Slot<Data<RepoTree<N>>>): (l: Located<Conn<N>>)
    ensures data.Missing? ==> l.Absent?
    ensures data.Has? && data.value.top.Missing? ==> l.Absent?
    ensures data.Has? && data.value.top.Has? && !data.value.top.value.field.Has? ==> l.Absent?
    ensures l.Raises? <==> data.Null? || (data.Has? && data.value.top.Null?)
  {
    match data
    case Missing => Absent
    case Null => Raises
    case Has(d) =>
      match d.top
      case Missing => Absent
      case Null => Raises
      case Has(repo) =>
        match repo.field
        case Has(pr) => Connection(pr.field)
        case _ => Absent
  }

  // ---------------------------------------------------------------------
  // Node mappers

  /** A comment node `{author {login}, createdAt}`; `createdAt` None when absent or null. */
  datatype CommentNode = CommentNode(author: Slot<Actor>, createdAt: Option<string>)

  /** `author = node.get("author", {})`, then `author.get("login") if author else None`. */
  function LoginOf(author: Slot<Actor>): (l: Option<string>)
    ensures !author.Has? ==> l.None?
  {
    if author.Has? then author.value.login else None
  }

  /** The comment loop's `[login, createdAt]` pairs: a node whose `createdAt`
      is falsy is dropped; the others keep their order. */
  function CommentPairs(nodes: seq<CommentNode>): (cs: seq<Comment>)
    ensures |cs| <= |nodes|
    ensures forall c :: c in cs ==> Truthy(c.createdAt)
  {
    if nodes == [] then []
    else
      var n := nodes[|nodes| - 1];
      CommentPairs(nodes[..|nodes| - 1])
        + (if Truthy(n.createdAt) then [Comment(LoginOf(n.author), n.createdAt)] else [])
  }

  lemma {:induction false} CommentPairsAppend(a: seq<CommentNode>, b: seq<CommentNode>)
    ensures CommentPairs(a + b) == CommentPairs(a) + CommentPairs(b)
    decreases |b|
  {
    if b == [] {
      assert a + b == a;
    } else {
      assert (a + b)[..|a + b| - 1] == a + b[..|b| - 1];
      CommentPairsAppend(a, b[..|b| - 1]);
    }
  }

  /** When every node has a `createdAt`, every node gives its pair, in order. */
  lemma {:induction false} CommentPairsKeepAll(nodes: seq<CommentNode>)
    requires forall n :: n in nodes ==> Truthy(n.createdAt)
    ensures |CommentPairs(nodes)| == |nodes|
    ensures forall i :: 0 <= i < |nodes| ==>
      CommentPairs(nodes)[i] == Comment(LoginOf(nodes[i].author), nodes[i].createdAt)
  {
    if nodes != [] {
      CommentPairsKeepAll(nodes[..|nodes| - 1]);
    }
  }

  /** A file edge `{node}`; the node is skipped unless present. */
  datatype FileNode = FileNode(path: string, changeType: string, additions: int, deletions: int)
  datatype Edge = Edge(node: Slot<FileNode>)

  /** A file record: `status` is the lower-cased `changeType` and `changes`
      the sum of additions and deletions. */
  function FileRecord(n: FileNode): (f: FileChange)
    ensures f.filename == n.path && f.additions == n.additions && f.deletions == n.deletions
    ensures f.changes == f.additions + f.deletions
    ensures Lower(f.status) == f.status && |f.status| == |n.changeType|
  {
    LowerIdempotent(n.changeType);
    FileChange(n.path, Lower(n.changeType), n.additions, n.deletions, n.additions + n.deletions)
  }

  function FileRecords(edges: seq<Edge>): (fs: seq<FileChange>)
    ensures |fs| <= |edges|
    ensures forall f :: f in fs ==> f.changes == f.additions + f.deletions && Lower(f.status) == f.status
  {
    if edges == [] then []
    else
      var e := edges[|edges| - 1];
      FileRecords(edges[..|edges| - 1]) + (if e.node.Has? then [FileRecord(e.node.value)] else [])
  }

  lemma {:induction false} FileRecordsAppend(a: seq<Edge>, b: seq<Edge>)
    ensures FileRecords(a + b) == FileRecords(a) + FileRecords(b)
    decreases |b|
  {
    if b == [] {
      assert a + b == a;
    } else {
      assert (a + b)[..|a + b| - 1] == a + b[..|b| - 1];
      FileRecordsAppend(a, b[..|b| - 1]);
    }
  }

  /** Only edges without a node are skipped. */
  lemma {:induction false} FileRecordsCount(edges: seq<Edge>)
    ensures |FileRecords(edges)| == |edges| - |Skipped(edges)|
  {
    if edges != [] {
      FileRecordsCount(edges[..|edges| - 1]);
    }
  }

  function Skipped(edges: seq<Edge>): seq<Edge> {
    if edges == [] then []
    else Skipped(edges[..|edges| - 1]) + (if edges[|edges| - 1].node.Has? then [] else [edges[|edges| - 1]])
  }

  /** A review thread `{comments {nodes}}`. */
  datatype ThreadComments = ThreadComments(nodes: Slot<seq<CommentNode>>)
  datatype ThreadNode = ThreadNode(comments: Slot<ThreadComments>)

  /** `comment.get("author", {}).get("login")`: a null author raises, None. */
  function ReviewerOf(author: Slot<Actor>): (l: Option<Option<string>>)
    ensures l.None? <==> author.Null?
    ensures author.Missing? ==> l == Some(None)
  {
    match author
    case Missing => Some(None)
    case Null => None
    case Has(a) => Some(a.login)
  }

  /** The pair of one review comment, with no filter on `createdAt`. */
  function ReviewOf(n: CommentNode): (r: Option<seq<Comment>>)
    ensures r.None? <==> n.author.Null?
    ensures r.Some? ==> |r.value| == 1 && r.value[0].createdAt == n.createdAt
  {
    match ReviewerOf(n.author)
    case None => None
    case Some(login) => Some([Comment(login, n.createdAt)])
  }

  function ReviewPairs(nodes: seq<CommentNode>): (r: Option<seq<Comment>>)
    ensures r.None? <==> exists i :: 0 <= i < |nodes| && nodes[i].author.Null?
  {
    var parts := seq(|nodes|, i requires 0 <= i < |nodes| => ReviewOf(nodes[i]));
    assert forall i :: 0 <= i < |nodes| ==> parts[i] == ReviewOf(nodes[i]);
    Concat(parts)
  }

  /** Every review comment gives its pair, in order. */
  lemma {:induction false} ReviewPairsKeepAll(nodes: seq<CommentNode>)
    requires ReviewPairs(nodes).Some?
    ensures |ReviewPairs(nodes).value| == |nodes|
    ensures forall i :: 0 <= i < |nodes| ==> ReviewPairs(nodes).value[i].createdAt == nodes[i].createdAt
  {
    if nodes != [] {
      var parts := seq(|nodes|, i requires 0 <= i < |nodes| => ReviewOf(nodes[i]));
      var nodes' := nodes[..|nodes| - 1];
      assert parts[..|parts| - 1] == seq(|nodes'|, i requires 0 <= i < |nodes'| => ReviewOf(nodes'[i]));
      ReviewPairsKeepAll(nodes');
    }
  }

  /** `thread.get("comments", {})` then `.get("nodes", [])`: absent keys read
      as empty, null ones raise. */
  function ThreadPairs(t: ThreadNode): (r: Option<seq<Comment>>)
    ensures t.comments.Null? ==> r.None?
    ensures t.comments.Missing? ==> r == Some([])
  {
    match ReadSlot(t.comments, GetDefault)
    case Crashed => None
    case Empty => Some([])
    case Value(tc) =>
      match NodeList(tc.nodes, GetDefault)
      case None => None
      case Some(ns) => ReviewPairs(ns)
  }

  /** The in-order flattening of every thread's comments; it fails exactly
      when some thread fails. */
  function ThreadsPairs(ts: seq<ThreadNode>): (r: Option<seq<Comment>>)
    ensures r.Some? <==> forall i :: 0 <= i < |ts| ==> ThreadPairs(ts[i]).Some?
  {
    var parts := seq(|ts|, i requires 0 <= i < |ts| => ThreadPairs(ts[i]));
    assert forall i :: 0 <= i < |ts| ==> parts[i] == ThreadPairs(ts[i]);
    Concat(parts)
  }

  /** Flattening two runs of threads is flattening each. */
  lemma ThreadsPairsAppend(a: seq<ThreadNode>, b: seq<ThreadNode>)
    requires ThreadsPairs(a).Some? && ThreadsPairs(b).Some?
    ensures ThreadsPairs(a + b) == Some(ThreadsPairs(a).value + ThreadsPairs(b).value)
  {
    var pa := seq(|a|, i requires 0 <= i < |a| => ThreadPairs(a[i]));
    var pb := seq(|b|, i requires 0 <= i < |b| => ThreadPairs(b[i]));
    assert seq(|a + b|, i requires 0 <= i < |a + b| => ThreadPairs((a + b)[i])) == pa + pb;
    ConcatAppend(pa, pb);
  }

  /** A commit node `{commit {oid}}`. */
  datatype CommitRef = CommitRef(oid: Option<string>)
  datatype CommitNode = CommitNode(commit: Slot<CommitRef>)

  /** `node.get("commit", {}).get("oid")`, kept when truthy: a null `commit`
      raises, an absent one or an empty oid is skipped. */
  function ShaOf(n: CommitNode): (r: Option<seq<string>>)
    ensures r.None? <==> n.commit.Null?
    ensures r.Some? ==> |r.value| <= 1 && forall s :: s in r.value ==> s != []
  {
    match n.commit
    case Null => None
    case Missing => Some([])
    case Has(c) => Some(if Truthy(c.oid) then [c.oid.value] else [])
  }

  function Shas(nodes: seq<CommitNode>): (r: Option<seq<string>>)
    ensures r.None? <==> exists i :: 0 <= i < |nodes| && nodes[i].commit.Null?
  {
    var parts := seq(|nodes|, i requires 0 <= i < |nodes| => ShaOf(nodes[i]));
    assert forall i :: 0 <= i < |nodes| ==> parts[i] == ShaOf(nodes[i]);
    Concat(parts)
  }

  /** The kept oids are non-empty and no more than the nodes. */
  lemma {:induction false} ShasKept(nodes: seq<CommitNode>)
    requires Shas(nodes).Some?
    ensures |Shas(nodes).value| <= |nodes|
    ensures forall s :: s in Shas(nodes).value ==> s != []
  {
    if nodes != [] {
      var parts := seq(|nodes|, i requires 0 <= i < |nodes| => ShaOf(nodes[i]));
      var nodes' := nodes[..|nodes| - 1];
      assert parts[..|parts| - 1] == seq(|nodes'|, i requires 0 <= i < |nodes'| => ShaOf(nodes'[i]));
      ShasKept(nodes');
      assert Shas(nodes).value == Shas(nodes').value + ShaOf(nodes[|nodes| - 1]).value;
    }
  }

  lemma ShasAppend(a: seq<CommitNode>, b: seq<CommitNode>)
    requires Shas(a).Some? && Shas(b).Some?
    ensures Shas(a + b) == Some(Shas(a).value + Shas(b).value)
  {
    var pa := seq(|a|, i requires 0 <= i < |a| => ShaOf(a[i]));
    var pb := seq(|b|, i requires 0 <= i < |b| => ShaOf(b[i]));
    assert seq(|a + b|, i requires 0 <= i < |a + b| => ShaOf((a + b)[i])) == pa + pb;
    ConcatAppend(pa, pb);
  }

  // ---------------------------------------------------------------------
  // The four loops

  const CommentsShape := Shape(KeepPartial, OrEmpty, OrEmpty, false)
  const FilesShape := Shape(Discard, OrEmpty, StrictOrEmpty, false)
  const ReviewsShape := Shape(Discard, GetDefault, GetDefault, false)
  const CommitsShape := Shape(Discard, OrEmpty, OrEmpty, false)

  function CommentsStep(b: Reply<RepoTree<CommentNode>>, now: int): Step<Comment> {
    PageStep(RateGate(b.data, now), b.errors, CommentsShape, LocateStrict(b.data), ns => Some(CommentPairs(ns)))
  }

  function FilesStep(b: Reply<RepoTree<Edge>>, now: int): Step<FileChange> {
    PageStep(RateGate(b.data, now), b.errors, FilesShape, LocateLenient(b.data), es => Some(FileRecords(es)))
  }

  function ReviewsStep(b: Reply<RepoTree<ThreadNode>>, now: int): Step<Comment> {
    PageStep(RateGate(b.data, now), b.errors, ReviewsShape, LocateLenient(b.data), ThreadsPairs)
  }

  function CommitsStep(b: Reply<RepoTree<CommitNode>>, now: int): Step<string> {
    PageStep(RateGate(b.data, now), b.errors, CommitsShape, LocateLenient(b.data), Shas)
  }

  /** The comments loop keeps its partial result on an `errors` payload; the
      other three discard it. */
  lemma ErrorsPolicy(b1: Reply<RepoTree<CommentNode>>, b2: Reply<RepoTree<Edge>>,
                     b3: Reply<RepoTree<ThreadNode>>, b4: Reply<RepoTree<CommitNode>>, now: int)
    ensures !CommentsStep(b1, now).Abandon?
    ensures b1.errors && RateGate(b1.data, now).Pass? ==> CommentsStep(b1, now).Break?
    ensures b2.errors && RateGate(b2.data, now).Pass? ==> FilesStep(b2, now).Abandon?
    ensures b3.errors && RateGate(b3.data, now).Pass? ==> ReviewsStep(b3, now).Abandon?
    ensures b4.errors && RateGate(b4.data, now).Pass? ==> CommitsStep(b4, now).Abandon?
  {
  }

  /** A reply without a `data` key makes the comments loop raise KeyError,
      while the other loops treat it as a missing PR and stop. */
  lemma MissingData(e1: Reply<RepoTree<CommentNode>>, e2: Reply<RepoTree<Edge>>, now: int)
    requires !e1.errors && e1.data.Missing? && !e2.errors && e2.data.Missing?
    ensures CommentsStep(e1, now) == Raise
    ensures FilesStep(e2, now) == Break
  {
  }

  /** A rate-limit block retries without looking at the rest of the reply;
      the wait ends five seconds after the reset, or is zero when that is past. */
  lemma RateLimitRetries(b: Reply<RepoTree<CommentNode>>, now: int)
    requires Blocked(b.data)
    ensures CommentsStep(b, now) == Retry(Max0(ResetOf(b.data) - now + 5))
  {
  }

  /** A null `pullRequest` ends every loop quietly. */
  lemma NullPullRequestEnds(b1: Reply<RepoTree<CommentNode>>, b2: Reply<RepoTree<Edge>>, now: int)
    requires !b1.errors && !Blocked(b1.data) && b1.data.Has? && b1.data.value.top.Has?
    requires b1.data.value.top.value.field.Null?
    requires !b2.errors && !Blocked(b2.data) && b2.data.Has? && b2.data.value.top.Has?
    requires b2.data.value.top.value.field.Null?
    ensures CommentsStep(b1, now) == Break && FilesStep(b2, now) == Break
  {
  }

  /** An accepted comments page contributes exactly the pairs of its nodes;
      `hasNextPage` absent from `pageInfo` ends the loop. */
  lemma CommentsPage(b: Reply<RepoTree<CommentNode>>, now: int, c: Conn<CommentNode>)
    requires !b.errors && !Blocked(b.data) && LocateStrict(b.data) == Found(c)
    ensures c.nodes.Has? ==> (CommentsStep(b, now) ==
      Accept(CommentPairs(c.nodes.value),
             c.pageInfo.Has? && c.pageInfo.value.hasNextPage == Has(true),
             if c.pageInfo.Has? && c.pageInfo.value.endCursor.Has? then Some(c.pageInfo.value.endCursor.value) else None))
    ensures !c.nodes.Has? ==> CommentsStep(b, now).Accept? && CommentsStep(b, now).items == []
    ensures c.pageInfo.Has? && c.pageInfo.value.hasNextPage.Missing? ==> !CommentsStep(b, now).hasNext
  {
  }

  /** The files loop subscripts `["files"]["pageInfo"]`: a files object
      without `pageInfo` raises KeyError. */
  lemma FilesPageInfoRequired(b: Reply<RepoTree<Edge>>, now: int, c: Conn<Edge>)
    requires !b.errors && !Blocked(b.data) && LocateLenient(b.data) == Found(c)
    requires c.pageInfo.Missing?
    ensures FilesStep(b, now) == Raise
  {
  }

  /** A page of review threads is accepted exactly when none of its
      threads, comment lists or comment authors is null. */
  lemma ReviewsPage(b: Reply<RepoTree<ThreadNode>>, now: int, c: Conn<ThreadNode>, ts: seq<ThreadNode>)
    requires !b.errors && !Blocked(b.data) && LocateLenient(b.data) == Found(c)
    requires c.nodes == Has(ts) && !c.pageInfo.Null?
    ensures ReviewsStep(b, now).Accept? <==> forall i :: 0 <= i < |ts| ==> ThreadPairs(ts[i]).Some?
    ensures ReviewsStep(b, now).Accept? ==> Some(ReviewsStep(b, now).items) == ThreadsPairs(ts)
  {

  }

  // ---------------------------------------------------------------------
  // The fetch functions

  method GetPrComments(rs: seq<Response<RepoTree<CommentNode>>>)
    returns (comments: seq<Comment>, requests: nat, outcome: Outcome)
    ensures requests <= |rs|
    ensures outcome != Discarded
    ensures comments == Collected(Steps(rs, CommentsStep)[..requests])
    ensures forall c :: c in comments ==> Truthy(c.createdAt)
  {
    var sent, slept;
    comments, sent, slept, outcome := Paginate(rs, CommentsStep);
    requests := |sent|;
    CommentsCreated(Steps(rs, CommentsStep)[..requests]);
  }

  /** Every collected comment has a truthy `createdAt`. */
  lemma {:induction false} CommentsCreated(ss: seq<Step<Comment>>)
    requires forall j :: 0 <= j < |ss| && ss[j].Accept? ==> forall c :: c in ss[j].items ==> Truthy(c.createdAt)
    ensures forall c :: c in Collected(ss) ==> Truthy(c.createdAt)
  {
    if ss != [] {
      CommentsCreated(ss[..|ss| - 1]);
    }
  }

  method GetPrFiles(rs: seq<Response<RepoTree<Edge>>>)
    returns (files: seq<FileChange>, requests: nat, outcome: Outcome)
    ensures requests <= |rs|
    ensures outcome == Discarded ==> files == []
    ensures outcome != Discarded ==> files == Collected(Steps(rs, FilesStep)[..requests])
  {
    var sent, slept;
    files, sent, slept, outcome := Paginate(rs, FilesStep);
    requests := |sent|;
  }

  method GetPrReviews(rs: seq<Response<RepoTree<ThreadNode>>>)
    returns (reviews: seq<Comment>, requests: nat, outcome: Outcome)
    ensures requests <= |rs|
    ensures outcome == Discarded ==> reviews == []
    ensures outcome != Discarded ==> reviews == Collected(Steps(rs, ReviewsStep)[..requests])
  {
    var sent, slept;
    reviews, sent, slept, outcome := Paginate(rs, ReviewsStep);
    requests := |sent|;
  }

  method GetPrCommits(rs: seq<Response<RepoTree<CommitNode>>>)
    returns (shas: seq<string>, requests: nat, outcome: Outcome)
    ensures requests <= |rs|
    ensures outcome == Discarded ==> shas == []
    ensures outcome != Discarded ==> shas == Collected(Steps(rs, CommitsStep)[..requests])
  {
    var sent, slept;
    shas, sent, slept, outcome := Paginate(rs, CommitsStep);
    requests := |sent|;
  }

  // ---------------------------------------------------------------------
  // The one-shot PR query

  /** The PR object of the one-shot query. Author lists hold each node's
      author login, None where the author is null. */
  datatype PrNode = PrNode(
    number: int, title: string, body: Option<string>, state: string, merged: bool,
    createdAt: string, closedAt: Option<string>, additions: int, deletions: int, changedFiles: int,
    author: Option<string>, mergedBy: Option<string>,
    commitOids: seq<string>, commentAuthors: seq<Option<string>>, threadAuthors: seq<seq<Option<string>>>)

  datatype PrRecord = PrRecord(
    repo: string, number: int, title: string, body: Option<string>, state: string, merged: bool,
    user: Option<string>, mergedBy: Option<string>, createdAt: string, closedAt: Option<string>,
    additions: int, deletions: int, changedFiles: int,
    commits: seq<string>, commentBy: seq<string>, reviewBy: set<string>)

  datatype PrInfoResult =
    | RequestFailed(prNumber: int)   // HTTP status other than 200
    | NotFound(prNumber: int)        // `pullRequest` is null
    | LookupFailed(prNumber: int)    // the lookup raised; the error record
    | Info(record: PrRecord)
    | Crashes                        // an exception escapes the function

  /** The non-null entries, in order. */
  function Present(xs: seq<Option<string>>): (r: seq<string>)
    ensures |r| <= |xs|
    ensures forall l :: l in r <==> Some(l) in xs
  {
    if xs == [] then []
    else
      Present(xs[..|xs| - 1]) + (if xs[|xs| - 1].Some? then [xs[|xs| - 1].value] else [])
  }

  /** The filter works element by element, so it keeps the order of the logins. */
  lemma {:induction false} PresentAppend(a: seq<Option<string>>, b: seq<Option<string>>)
    ensures Present(a + b) == Present(a) + Present(b)
  {
    if b == [] {
      assert a + b == a;
    } else {
      var init := b[..|b| - 1];
      assert (a + b)[..|a + b| - 1] == a + init;
      PresentAppend(a, init);
    }
  }

  /** A login is kept as often as it occurs, so duplicates stay. */
  lemma {:induction false} PresentCount(xs: seq<Option<string>>, l: string)
    ensures multiset(Present(xs))[l] == multiset(xs)[Some(l)]
  {
    if xs != [] {
      var init := xs[..|xs| - 1];
      assert xs == init + [xs[|xs| - 1]];
      PresentCount(init, l);
    }
  }

  /** The PR record: `comment_by` lists the non-null comment logins in
      order, `review_by` holds each non-null review-comment login once. */
  function PrRecordOf(repo: string, pr: PrNode): (r: PrRecord)
    ensures r.commits == pr.commitOids
    ensures r.commentBy == Present(pr.commentAuthors)
    ensures forall l :: l in r.commentBy <==> Some(l) in pr.commentAuthors
    ensures forall l :: l in r.reviewBy <==> exists t :: t in pr.threadAuthors && Some(l) in t
  {
    PrRecord(repo, pr.number, pr.title, pr.body, pr.state, pr.merged, pr.author, pr.mergedBy,
             pr.createdAt, pr.closedAt, pr.additions, pr.deletions, pr.changedFiles,
             pr.commitOids, Present(pr.commentAuthors),
             set t, a | t in pr.threadAuthors && a in t && a.Some? :: a.value)
  }

  /** `fetch_pr_info_graphql` as written: the `except` handler reads
      `pr.number`, and `pr` is unbound when the subscript chain itself
      failed, so the handler raises instead of returning its error record. */
  function PrInfoAsWritten(repo: string, prNum: int, status: int, reply: Reply<Obj<PrNode>>): (r: PrInfoResult)
    ensures status != 200 ==> r == RequestFailed(prNum)
    ensures !r.LookupFailed?
  {
    if status != 200 then RequestFailed(prNum)
    else match reply.data
      case Has(d) =>
        (match d.top
         case Has(repository) =>
           (match repository.field
            case Has(pr) => Info(PrRecordOf(repo, pr))
            case Null => NotFound(prNum)
            case Missing => Crashes)
         case _ => Crashes)
      case _ => Crashes
  }

  /** `fetch_pr_info_graphql` with the handler returning the error record
      for `pr_num`: the function never raises. */
  function PrInfo(repo: string, prNum: int, status: int, reply: Reply<Obj<PrNode>>): (r: PrInfoResult)
    ensures !r.Crashes?
    ensures r.Info? <==> status == 200 && reply.data.Has? && reply.data.value.top.Has?
                         && reply.data.value.top.value.field.Has?
    ensures r.Info? ==> r.record.repo == repo
    ensures !r.Info? ==> r.prNumber == prNum
  {
    match PrInfoAsWritten(repo, prNum, status, reply)
    case Crashes => LookupFailed(prNum)
    case other => other
  }

  /** The two agree except where the as-written handler raises; a reply
      with only an `errors` key, which the query's undeclared cursor
      variables produce, is such a case. */
  lemma PrInfoHandlerRaises(repo: string, prNum: int)
    ensures PrInfoAsWritten(repo, prNum, 200, Reply(true, Missing)) == Crashes
    ensures PrInfo(repo, prNum, 200, Reply(true, Missing)) == LookupFailed(prNum)
    ensures forall status, reply :: PrInfoAsWritten(repo, prNum, status, reply) != Crashes ==>
      PrInfo(repo, prNum, status, reply) == PrInfoAsWritten(repo, prNum, status, reply)
  {
  }
}
