/** The organisation repository listing (backend/get_data/get_org_repos.py):
    the page loop over `organization.repositories`, the repository filter and
    record shaping, and the per-repository watcher count. */
module OrgFetch {
  import opened Text
  import opened Records
  import opened Pagination

  /** A repository node. `primaryLanguage` is the language name, None when
      the language object is null; `topics` are the topic names in node order. */
  datatype RepoNode = RepoNode(
    nameWithOwner: string, isPrivate: bool, description: Option<string>, isFork: bool,
    createdAt: string, updatedAt: string, isArchived: bool, stargazerCount: int, forkCount: int,
    primaryLanguage: Option<string>, topics: seq<string>)

  /** The record of a listed repository; it has no `watchers_count` or
      `domain` yet. */
  function RepoRecord(n: RepoNode): (r: Repo)
    ensures r.fullName == n.nameWithOwner && r.language == n.primaryLanguage && r.topics == n.topics
    ensures r.watchers.None? && r.domain.None?
  {
    Repo(n.nameWithOwner, n.isPrivate, n.description, n.isFork, n.createdAt, n.updatedAt, n.isArchived,
         n.stargazerCount, n.forkCount, n.primaryLanguage, n.topics, None, None)
  }

  /** A node is listed unless it is private or was created after the bound:
      `createdAt` compared as a string with `untilIso`, the isoformat of the
      `until` date in UTC (None when no `until` is given). */
  predicate Listed(n: RepoNode, untilIso: Option<string>) {
    !n.isPrivate && !(untilIso.Some? && LexLess(untilIso.value, n.createdAt))
  }

  function RepoRecords(nodes: seq<RepoNode>, untilIso: Option<string>): (rs: seq<Repo>)
    ensures |rs| <= |nodes|
    ensures forall r :: r in rs ==> !r.isPrivate
    ensures untilIso.Some? ==> forall r :: r in rs ==> !LexLess(untilIso.value, r.createdAt)
  {
    if nodes == [] then []
    else
      var n := nodes[|nodes| - 1];
      RepoRecords(nodes[..|nodes| - 1], untilIso) + (if Listed(n, untilIso) then [RepoRecord(n)] else [])
  }

  lemma {:induction false} RepoRecordsAppend(a: seq<RepoNode>, b: seq<RepoNode>, untilIso: Option<string>)
    ensures RepoRecords(a + b, untilIso) == RepoRecords(a, untilIso) + RepoRecords(b, untilIso)
    decreases |b|
  {
    if b == [] {
      assert a + b == a;
    } else {
      assert (a + b)[..|a + b| - 1] == a + b[..|b| - 1];
      RepoRecordsAppend(a, b[..|b| - 1], untilIso);
    }
  }

  /** A record is emitted for a node exactly when the node is listed. */
  lemma {:induction false} RepoRecordsMember(nodes: seq<RepoNode>, untilIso: Option<string>, n: RepoNode)
    requires n in nodes
    ensures Listed(n, untilIso) <==> RepoRecord(n) in RepoRecords(nodes, untilIso)
  {
    var m := nodes[|nodes| - 1];
    if n == m {
      if !Listed(n, untilIso) && RepoRecord(n) in RepoRecords(nodes, untilIso) {
        RepoRecordsNoUnlisted(nodes, untilIso, n);
      }
    } else {
      RepoRecordsMember(nodes[..|nodes| - 1], untilIso, n);
      if !Listed(n, untilIso) && RepoRecord(n) in RepoRecords(nodes, untilIso) {
        RepoRecordsNoUnlisted(nodes, untilIso, n);
      }
    }
  }

  /** A node that is not listed gives no record: a record carries the
      visibility and creation time the filter looked at. */
  lemma {:induction false} RepoRecordsNoUnlisted(nodes: seq<RepoNode>, untilIso: Option<string>, n: RepoNode)
    requires !Listed(n, untilIso)
    ensures RepoRecord(n) !in RepoRecords(nodes, untilIso)
  {
    if nodes != [] {
      RepoRecordsNoUnlisted(nodes[..|nodes| - 1], untilIso, n);
    }
  }

  /** `data.get("data", {}).get("organization", {})`, then `if not org_data:
      break`, then `org_data["repositories"]`, which raises when absent or null. */
  function LocateOrg<N>(data: Slot<Data<Obj<Conn<N>>>>): (l: Located<Conn<N>>)
    ensures data.Missing? ==> l.Absent?
    ensures data.Has? && !data.value.top.Has? ==> l.Absent?
    ensures data.Has? && data.value.top.Has? && data.value.top.value.IsEmpty() ==> l.Absent?
  {
    match data
    case Missing => Absent
    case Null => Raises
    case Has(d) =>
      match d.top
      case Has(org) =>
        if org.IsEmpty() then Absent
        else if org.field.Has? then Found(org.field.value)
        else Raises
      case _ => Absent
  }

  /** `errors` ends the loop keeping the listed repositories; `nodes`,
      `pageInfo` and its members are all read by subscript. */
  const OrgShape := Shape(KeepPartial, Strict, Strict, true)

  function OrgStep(untilIso: Option<string>, b: Reply<Obj<Conn<RepoNode>>>, now: int): Step<Repo> {
    PageStep(RateGate(b.data, now), b.errors, OrgShape, LocateOrg(b.data), ns => Some(RepoRecords(ns, untilIso)))
  }

  function OrgClassifier(untilIso: Option<string>): (Reply<Obj<Conn<RepoNode>>>, int) -> Step<Repo> {
    (b, now) => OrgStep(untilIso, b, now)
  }

  /** The org loop keeps its partial listing on `errors`, stops on missing
      organisation data, retries a rate-limit block, and otherwise advances. */
  lemma OrgPolicy(untilIso: Option<string>, b: Reply<Obj<Conn<RepoNode>>>, now: int)
    ensures !OrgStep(untilIso, b, now).Abandon?
    ensures b.errors && RateGate(b.data, now).Pass? ==> OrgStep(untilIso, b, now) == Break
    ensures Blocked(b.data) ==> OrgStep(untilIso, b, now) == Retry(Max0(ResetOf(b.data) - now + 5))
    ensures !b.errors && !Blocked(b.data) && (b.data.Missing? || (b.data.Has? && !b.data.value.top.Has?)) ==>
      OrgStep(untilIso, b, now) == Break
  {
  }

  /** A page whose members are all present is accepted with the listed
      repositories of its nodes. */
  lemma OrgPage(untilIso: Option<string>, b: Reply<Obj<Conn<RepoNode>>>, now: int,
                ns: seq<RepoNode>, more: bool, cur: string)
    requires !b.errors && !Blocked(b.data) && b.data.Has?
    requires b.data.value.top == Has(Obj(Has(Conn(Has(ns), Has(PageInfo(Has(more), Has(cur)))))))
    ensures OrgStep(untilIso, b, now) == Accept(RepoRecords(ns, untilIso), more, Some(cur))
  {
  }

  // ---------------------------------------------------------------------
  // Watcher counts

  /** The REST detail request of one repository: it failed, or it returned
      a body whose `subscribers_count` may be absent or null. */
  datatype DetailFetch = FetchFailed | FetchedDetail(subscribers: Slot<int>)

  /** `watchers_count`: `subscribers_count` on success (0 when absent, None
      when null), and 0 on any failure. */
  function WatchersFrom(d: DetailFetch): (w: Option<int>)
    ensures d.FetchFailed? ==> w == Some(0)
    ensures d.FetchedDetail? ==> (w.None? <==> d.subscribers.Null?)
    ensures d.FetchedDetail? && d.subscribers.Missing? ==> w == Some(0)
    ensures d.FetchedDetail? && d.subscribers.Has? ==> w == Some(d.subscribers.value)
  {
    match d
    case FetchFailed => Some(0)
    case FetchedDetail(s) =>
      match s
      case Missing => Some(0)
      case Null => None
      case Has(v) => Some(v)
  }

  /** The detail tasks, one per listed repository, each setting only its
      own record's `watchers_count`. */
  method FillWatchers(repos: seq<Repo>, detailOf: string -> DetailFetch) returns (filled: seq<Repo>)
    ensures |filled| == |repos|
    ensures forall i :: 0 <= i < |repos| ==> filled[i].watchers == WatchersFrom(detailOf(repos[i].fullName))
    ensures forall i :: 0 <= i < |repos| ==> filled[i].(watchers := repos[i].watchers) == repos[i]
  {
    filled := repos;
    for i := 0 to |repos|
      invariant |filled| == |repos|
      invariant forall k :: 0 <= k < i ==> filled[k] == repos[k].(watchers := WatchersFrom(detailOf(repos[k].fullName)))
      invariant forall k :: i <= k < |repos| ==> filled[k] == repos[k]
    {
      filled := filled[i := filled[i].(watchers := WatchersFrom(detailOf(filled[i].fullName)))];
    }
  }

  /** `get_org_repos_graphql`: the listing loop, then the watcher counts. */
  method GetOrgRepos(untilIso: Option<string>, rs: seq<Response<Obj<Conn<RepoNode>>>>, detailOf: string -> DetailFetch)
    returns (repos: seq<Repo>, requests: nat, outcome: Outcome)
    ensures requests <= |rs|
    ensures outcome != Discarded
    ensures forall r :: r in repos ==> !r.isPrivate
    ensures outcome == Finished ==>
      var listed := Collected(Steps(rs, OrgClassifier(untilIso))[..requests]);
      && |repos| == |listed|
      && forall i :: 0 <= i < |listed| ==>
           repos[i] == listed[i].(watchers := WatchersFrom(detailOf(listed[i].fullName)))
    ensures outcome != Finished ==> repos == Collected(Steps(rs, OrgClassifier(untilIso))[..requests])
  {
    var sent, slept;
    repos, sent, slept, outcome := Paginate(rs, OrgClassifier(untilIso));
    requests := |sent|;
    if requests > 0 {
      assert !StepOf(rs[requests - 1], OrgClassifier(untilIso)).Abandon? by {
        if rs[requests - 1].Received? {
          OrgPolicy(untilIso, rs[requests - 1].reply, rs[requests - 1].now);
        }
      }
    }
    ListedPublic(Steps(rs, OrgClassifier(untilIso))[..requests], untilIso);
    if outcome == Finished {
      var listed := repos;
      repos := FillWatchers(listed, detailOf);
      assert forall i :: 0 <= i < |listed| ==> repos[i].isPrivate == listed[i].isPrivate;
      assert forall r :: r in repos ==> exists i :: 0 <= i < |repos| && repos[i] == r;
      assert forall i :: 0 <= i < |listed| ==> listed[i] in listed;
    }
  }

  /** No private repository is ever collected. */
  lemma {:induction false} ListedPublic(ss: seq<Step<Repo>>, untilIso: Option<string>)
    requires forall j :: 0 <= j < |ss| && ss[j].Accept? ==> forall r :: r in ss[j].items ==> !r.isPrivate
    ensures forall r :: r in Collected(ss) ==> !r.isPrivate
  {
    if ss != [] {
      ListedPublic(ss[..|ss| - 1], untilIso);
    }
  }
}
