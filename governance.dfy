/** `GovernanceAnalyzer` (backend/collaboration/governance_analyzer.py): the
    rules in force on the analysis day, the response times of the PRs and
    issues created around it, and the newcomers among the PR authors of the
    ninety days before and after it. Timestamps are seconds since the epoch,
    dates are day numbers. */
module Governance {
  import opened Text
  import opened Dicts
  import opened Rules
  import Records
  import Affiliation

  /** A calendar day: its number and its `%Y-%m-%d` rendering. */
  datatype Day = Day(number: int, text: string)

  /** The length of each side window, in days. */
  const Span := 90

  /** `datetime.date()` of a UTC timestamp. */
  function DayOf(t: int): int {
    t / 86400
  }

  /** The three dates the windows are cut at. */
  datatype Bounds = Bounds(before: int, input: int, after: int)

  // First responses (lines 159-178, 197-206)

  /** One `[author, time]` pair of `comment_by` or `review_by`; a missing or
      empty time is `None`. */
  datatype Reply = Reply(author: Option<string>, at: Option<int>)

  /** One stored PR, as far as the analyzer reads it. */
  datatype Pr = Pr(
    createdAt: int,
    closedAt: Option<int>,
    user: Option<string>,
    merged: bool,
    comments: seq<Reply>,
    reviews: seq<Reply>)

  /** One stored issue; `error` says whether the record has an `error` key. */
  datatype Issue = Issue(error: bool, createdAt: int, closedAt: Option<int>, comments: seq<Reply>)

  /** Which replies are skipped: PR comments skip CLA bots besides the
      Paddle bots, reviews and issue comments skip only the Paddle bots. */
  datatype Filter = SkipBotsAndCla | SkipBots

  predicate IsPaddleBot(author: string) {
    Contains(Lower(author), "paddle-bot")
  }

  /** A reply that counts as a response: with an author and a time, and not
      by a skipped bot. */
  predicate Answers(c: Reply, f: Filter) {
    && Truthy(c.author) && c.at.Some?
    && !IsPaddleBot(c.author.value)
    && (f == SkipBots || !Contains(c.author.value, "CLAassistant"))
  }

  /** The time of the first reply that counts, if there is one. */
  function FirstAnswer(cs: seq<Reply>, f: Filter): Option<int> {
    if cs == [] then None
    else if Answers(cs[0], f) then Some(cs[0].at.value)
    else FirstAnswer(cs[1..], f)
  }

  /** The reply found is the first one that counts... */
  lemma {:induction false} FirstAnswerAt(cs: seq<Reply>, f: Filter, i: nat)
    requires i < |cs| && Answers(cs[i], f)
    requires forall k :: 0 <= k < i ==> !Answers(cs[k], f)
    ensures FirstAnswer(cs, f) == Some(cs[i].at.value)
  {
    if i > 0 {
      FirstAnswerAt(cs[1..], f, i - 1);
    }
  }

  /** ...and there is none when no reply counts. */
  lemma {:induction false} FirstAnswerNone(cs: seq<Reply>, f: Filter)
    requires forall k :: 0 <= k < |cs| ==> !Answers(cs[k], f)
    ensures FirstAnswer(cs, f) == None
  {
    if cs != [] {
      FirstAnswerNone(cs[1..], f);
    }
  }

  /** A PR's first response: the first review that counts, else the first
      comment that counts, else the closing time. */
  function PrResponse(pr: Pr, closed: int): int {
    FirstAnswer(pr.reviews, SkipBots).GetOr(FirstAnswer(pr.comments, SkipBotsAndCla).GetOr(closed))
  }

  /** The review overrides the comment even when it came later. */
  lemma ReviewOverrides(created: int)
    ensures PrResponse(Pr(created, Some(created + 30), None, false,
      [Reply(Some("alice"), Some(created + 5))], [Reply(Some("bob"), Some(created + 9))]), created + 30) == created + 9
  {
    assert !Contains("alice", "paddle-bot") && !Contains("alice", "CLAassistant");
    assert !Contains("bob", "paddle-bot");
  }

  /** Paddle bots are skipped whatever the case of their name: a name and
      its lower-case form are bots together, and a bot's reply never counts. */
  lemma BotCaseIgnored(a: string, at: Option<int>, f: Filter)
    ensures IsPaddleBot(a) <==> IsPaddleBot(Lower(a))
    ensures IsPaddleBot(a) ==> !Answers(Reply(Some(a), at), f)
  {
    LowerIdempotent(a);
  }

  /** The time of an issue's first response. */
  function IssueResponse(issue: Issue, closed: int): int {
    FirstAnswer(issue.comments, SkipBots).GetOr(closed)
  }

  // Windows of the response times (lines 138-149, 183-188, 210-213)

  datatype Slot = Recent | Later | Outside

  /** `is_in_range` on the recent window, then on the later one. */
  function ResponseSlot(day: int, b: Bounds): Slot {
    if b.before <= day <= b.input then Recent
    else if b.input <= day <= b.after then Later
    else Outside
  }

  /** Both windows contain their ends; the day they share is recent. */
  lemma ResponseSlotMeaning(day: int, b: Bounds)
    requires b.before <= b.input <= b.after
    ensures ResponseSlot(day, b) == Recent <==> b.before <= day <= b.input
    ensures ResponseSlot(day, b) == Later <==> b.input < day <= b.after
    ensures ResponseSlot(day, b) == Outside <==> day < b.before || b.after < day
  {
  }

  /** What one PR adds to the response-time list of `slot`. */
  function PrResponseSample(pr: Pr, b: Bounds, slot: Slot): seq<int> {
    if pr.closedAt.Some? && ResponseSlot(DayOf(pr.createdAt), b) == slot
    then [PrResponse(pr, pr.closedAt.value) - pr.createdAt] else []
  }

  /** What one PR adds to the closing-time list of `slot`. */
  function PrCloseSample(pr: Pr, b: Bounds, slot: Slot): seq<int> {
    if pr.closedAt.Some? && ResponseSlot(DayOf(pr.createdAt), b) == slot
    then [pr.closedAt.value - pr.createdAt] else []
  }

  /** What one issue adds to the response-time list of `slot`. */
  function IssueSample(issue: Issue, b: Bounds, slot: Slot): seq<int> {
    if !issue.error && issue.closedAt.Some? && ResponseSlot(DayOf(issue.createdAt), b) == slot
    then [IssueResponse(issue, issue.closedAt.value) - issue.createdAt] else []
  }

  /** The response times (in seconds) of the closed PRs created in `slot`. */
  function PrResponses(prs: seq<Pr>, b: Bounds, slot: Slot): (r: seq<int>)
    ensures |r| <= |prs|
  {
    if prs == [] then [] else PrResponses(prs[..|prs| - 1], b, slot) + PrResponseSample(prs[|prs| - 1], b, slot)
  }

  /** The closing times (in seconds) of the closed PRs created in `slot`. */
  function PrCloses(prs: seq<Pr>, b: Bounds, slot: Slot): (r: seq<int>)
    ensures |r| <= |prs|
  {
    if prs == [] then [] else PrCloses(prs[..|prs| - 1], b, slot) + PrCloseSample(prs[|prs| - 1], b, slot)
  }

  /** The response times of the closed, error-free issues created in `slot`. */
  function IssueResponses(issues: seq<Issue>, b: Bounds, slot: Slot): (r: seq<int>)
    ensures |r| <= |issues|
  {
    if issues == [] then [] else IssueResponses(issues[..|issues| - 1], b, slot) + IssueSample(issues[|issues| - 1], b, slot)
  }

  /** The samples of a closed PR: into its own window's lists only. */
  lemma PrSamples(pr: Pr, b: Bounds, responseTime: int, closeTime: int)
    requires pr.closedAt.Some?
    requires responseTime == PrResponse(pr, pr.closedAt.value) - pr.createdAt
    requires closeTime == pr.closedAt.value - pr.createdAt
    ensures PrResponseSample(pr, b, Recent) == (if ResponseSlot(DayOf(pr.createdAt), b) == Recent then [responseTime] else [])
    ensures PrResponseSample(pr, b, Later) == (if ResponseSlot(DayOf(pr.createdAt), b) == Later then [responseTime] else [])
    ensures PrCloseSample(pr, b, Recent) == (if ResponseSlot(DayOf(pr.createdAt), b) == Recent then [closeTime] else [])
    ensures PrCloseSample(pr, b, Later) == (if ResponseSlot(DayOf(pr.createdAt), b) == Later then [closeTime] else [])
  {
  }

  lemma PrStep(prs: seq<Pr>, i: nat, b: Bounds, slot: Slot)
    requires i < |prs|
    ensures PrResponses(prs[..i + 1], b, slot) == PrResponses(prs[..i], b, slot) + PrResponseSample(prs[i], b, slot)
    ensures PrCloses(prs[..i + 1], b, slot) == PrCloses(prs[..i], b, slot) + PrCloseSample(prs[i], b, slot)
  {
    assert prs[..i + 1][..i] == prs[..i];
  }

  lemma IssueStep(issues: seq<Issue>, i: nat, b: Bounds, slot: Slot)
    requires i < |issues|
    ensures IssueResponses(issues[..i + 1], b, slot) == IssueResponses(issues[..i], b, slot) + IssueSample(issues[i], b, slot)
  {
    assert issues[..i + 1][..i] == issues[..i];
  }

  /** Each PR adds to both of its window's lists or to neither, so the two
      lists stay parallel. */
  lemma {:induction false} PrListsParallel(prs: seq<Pr>, b: Bounds, slot: Slot)
    ensures |PrResponses(prs, b, slot)| == |PrCloses(prs, b, slot)|
  {
    if prs != [] {
      PrListsParallel(prs[..|prs| - 1], b, slot);
    }
  }

  /** An open PR is left out of every list. */
  lemma OpenPrIgnored(prs: seq<Pr>, pr: Pr, b: Bounds, slot: Slot)
    requires pr.closedAt.None?
    ensures PrResponses(prs + [pr], b, slot) == PrResponses(prs, b, slot)
    ensures PrCloses(prs + [pr], b, slot) == PrCloses(prs, b, slot)
  {
    assert (prs + [pr])[..|prs|] == prs;
    assert prs + [] == prs;
  }

  /** An issue with an error, or one still open, is left out. */
  lemma SkippedIssueIgnored(issues: seq<Issue>, issue: Issue, b: Bounds, slot: Slot)
    requires issue.error || issue.closedAt.None?
    ensures IssueResponses(issues + [issue], b, slot) == IssueResponses(issues, b, slot)
  {
    assert (issues + [issue])[..|issues|] == issues;
  }

  /** A closed PR created on the analysis day is counted in the recent
      window, and not in the later one. */
  lemma InputDayIsRecent(prs: seq<Pr>, pr: Pr, b: Bounds)
    requires b.before <= b.input && pr.closedAt.Some? && DayOf(pr.createdAt) == b.input
    ensures PrResponses(prs + [pr], b, Recent) == PrResponses(prs, b, Recent) + [PrResponse(pr, pr.closedAt.value) - pr.createdAt]
    ensures PrResponses(prs + [pr], b, Later) == PrResponses(prs, b, Later)
  {
    assert (prs + [pr])[..|prs|] == prs;
  }

  /** The six duration lists; `median_or_zero` is applied to each. */
  datatype ResponseTimes = ResponseTimes(
    prResponseRecent: seq<int>, prResponseLater: seq<int>,
    prCloseRecent: seq<int>, prCloseLater: seq<int>,
    issueResponseRecent: seq<int>, issueResponseLater: seq<int>)

  function ResponseTimesOf(prs: seq<Pr>, issues: seq<Issue>, b: Bounds): ResponseTimes {
    ResponseTimes(
      PrResponses(prs, b, Recent), PrResponses(prs, b, Later),
      PrCloses(prs, b, Recent), PrCloses(prs, b, Later),
      IssueResponses(issues, b, Recent), IssueResponses(issues, b, Later))
  }

  /** One of the reply loops: the time of the first reply that counts, or
      `fallback` when the loop runs out. */
  method FirstResponse(cs: seq<Reply>, f: Filter, fallback: int) returns (t: int)
    ensures t == FirstAnswer(cs, f).GetOr(fallback)
  {
    t := fallback;
    for i := 0 to |cs|
      invariant forall k :: 0 <= k < i ==> !Answers(cs[k], f)
    {
      var c := cs[i];
      if !Truthy(c.author) || c.at.None? {
        continue;
      }
      if IsPaddleBot(c.author.value) || (f == SkipBotsAndCla && Contains(c.author.value, "CLAassistant")) {
        continue;
      }
      t := c.at.value;
      FirstAnswerAt(cs, f, i);
      return;
    }
    FirstAnswerNone(cs, f);
  }

  // First PR per author (lines 274-279)

  /** `if a not in d or t < d[a]: d[a] = t`. */
  function Earlier(d: map<Option<string>, int>, a: Option<string>, t: int): map<Option<string>, int> {
    if a !in d || t < d[a] then d[a := t] else d
  }

  function Earliest(prs: seq<Pr>): (first: map<Option<string>, int>)
    ensures forall pr :: pr in prs ==> pr.user in first
  {
    if prs == [] then map[]
    else
      var init := prs[..|prs| - 1];
      assert prs == init + [prs[|prs| - 1]];
      Earlier(Earliest(init), prs[|prs| - 1].user, prs[|prs| - 1].createdAt)
  }

  /** An author is in the map exactly when some PR has that author. */
  lemma {:induction false} EarliestAuthors(prs: seq<Pr>, a: Option<string>)
    ensures a in Earliest(prs) <==> exists pr :: pr in prs && pr.user == a
  {
    if prs != [] {
      var init := prs[..|prs| - 1];
      EarliestAuthors(init, a);
      assert prs == init + [prs[|prs| - 1]];
    }
  }

  /** The time kept for an author is no later than any of the author's PRs... */
  lemma {:induction false} EarliestIsLower(prs: seq<Pr>, i: nat)
    requires i < |prs|
    ensures prs[i].user in Earliest(prs) && Earliest(prs)[prs[i].user] <= prs[i].createdAt
  {
    var init := prs[..|prs| - 1];
    if i < |prs| - 1 {
      EarliestIsLower(init, i);
      assert init[i] == prs[i];
    }
  }

  /** ...and it is the creation time of one of them. */
  lemma {:induction false} EarliestIsAttained(prs: seq<Pr>, a: Option<string>)
    requires a in Earliest(prs)
    ensures exists i :: 0 <= i < |prs| && prs[i].user == a && prs[i].createdAt == Earliest(prs)[a]
  {
    var init := prs[..|prs| - 1];
    var last := prs[|prs| - 1];
    if a in Earliest(init) && Earliest(prs)[a] == Earliest(init)[a] {
      EarliestIsAttained(init, a);
      var i :| 0 <= i < |init| && init[i].user == a && init[i].createdAt == Earliest(init)[a];
      assert prs[i] == init[i];
    } else {
      assert prs[|prs| - 1] == last;
    }
  }

  /** The loop that fills `author_first_pr_time`. */
  method FirstPrTimes(prs: seq<Pr>) returns (first: map<Option<string>, int>)
    ensures first == Earliest(prs)
  {
    first := map[];
    for i := 0 to |prs|
      invariant first == Earliest(prs[..i])
    {
      assert prs[..i + 1][..i] == prs[..i];
      var author := prs[i].user;
      var createdAt := prs[i].createdAt;
      if author !in first || createdAt < first[author] {
        first := first[author := createdAt];
      }
    }
    assert prs[..|prs|] == prs;
  }

  // Newcomer statistics (lines 281-318)

  /** The counters and sets of one window. `totalMergedPrs` is never
      incremented. */
  datatype Stats = Stats(
    totalPrs: nat,
    totalMergedPrs: nat,
    newcomerPrCnt: nat,
    newcomerMergedPrCnt: nat,
    newcomerAuthors: set<Option<string>>,
    newcomerAffiliations: set<Option<string>>)

  const Fresh := Stats(0, 0, 0, 0, {}, {})

  datatype Half = Before | After

  /** The half-open window of a day, if any. */
  function ActivityHalf(day: int, b: Bounds): Option<Half> {
    if b.before <= day < b.input then Some(Before)
    else if b.input <= day < b.after then Some(After)
    else None
  }

  /** The windows are half-open and do not overlap. */
  lemma ActivityHalfMeaning(day: int, b: Bounds)
    requires b.before <= b.input <= b.after
    ensures ActivityHalf(day, b) == Some(Before) <==> b.before <= day < b.input
    ensures ActivityHalf(day, b) == Some(After) <==> b.input <= day < b.after
    ensures ActivityHalf(day, b) == None <==> day < b.before || b.after <= day
  {
  }

  /** One PR of a window: it always counts towards the total; when its
      author's first PR lies in the same window it is a newcomer PR, and
      its author is a community newcomer when the normalised name is in
      `community`. A newcomer PR without author fails at `author.strip()`. */
  function Tally(s: Stats, pr: Pr, newcomer: bool, community: seq<string>): Option<Stats> {
    var s1 := s.(totalPrs := s.totalPrs + 1);
    if !newcomer then Some(s1)
    else
      var s2 := s1.(newcomerAuthors := s1.newcomerAuthors + {pr.user},
        newcomerPrCnt := s1.newcomerPrCnt + 1,
        newcomerMergedPrCnt := s1.newcomerMergedPrCnt + (if pr.merged then 1 else 0));
      match pr.user
      case None => None
      case Some(a) => Some(if Normalize(a) in community then s2.(newcomerAffiliations := s2.newcomerAffiliations + {pr.user}) else s2)
  }

  /** The relations between the counters of a window. */
  predicate Consistent(s: Stats) {
    && s.newcomerAffiliations <= s.newcomerAuthors
    && s.newcomerMergedPrCnt <= s.newcomerPrCnt <= s.totalPrs
    && |s.newcomerAuthors| <= s.newcomerPrCnt
    && s.totalMergedPrs == 0
  }

  lemma TallyConsistent(s: Stats, pr: Pr, newcomer: bool, community: seq<string>)
    requires Consistent(s) && Tally(s, pr, newcomer, community).Some?
    ensures Consistent(Tally(s, pr, newcomer, community).value)
  {
    if newcomer {
      assert |s.newcomerAuthors + {pr.user}| <= |s.newcomerAuthors| + 1;
    }
  }

  datatype Tallies = Tallies(before: Stats, after: Stats)

  function Pick(t: Tallies, h: Half): Stats {
    if h == Before then t.before else t.after
  }

  function Update(t: Tallies, h: Half, s: Stats): Tallies {
    if h == Before then t.(before := s) else t.(after := s)
  }

  /** A PR whose author is a newcomer of window `h`. */
  predicate NewcomerIn(pr: Pr, first: map<Option<string>, int>, b: Bounds, h: Half)
    requires pr.user in first
  {
    ActivityHalf(DayOf(first[pr.user]), b) == Some(h)
  }

  /** The statistics after the PR loop, `None` when it fails. */
  function Activity(prs: seq<Pr>, first: map<Option<string>, int>, community: seq<string>, b: Bounds): Option<Tallies>
    requires forall pr :: pr in prs ==> pr.user in first
  {
    if prs == [] then Some(Tallies(Fresh, Fresh))
    else
      var pr := prs[|prs| - 1];
      match Activity(prs[..|prs| - 1], first, community, b)
      case None => None
      case Some(t) =>
        match ActivityHalf(DayOf(pr.createdAt), b)
        case None => Some(t)
        case Some(h) =>
          match Tally(Pick(t, h), pr, NewcomerIn(pr, first, b, h), community)
          case None => None
          case Some(s) => Some(Update(t, h, s))
  }

  /** In both windows community newcomers are newcomers, and merged newcomer
      PRs are no more than newcomer PRs, which are no more than all PRs. */
  lemma {:induction false} ActivityConsistent(prs: seq<Pr>, first: map<Option<string>, int>, community: seq<string>, b: Bounds)
    requires forall pr :: pr in prs ==> pr.user in first
    requires Activity(prs, first, community, b).Some?
    ensures Consistent(Activity(prs, first, community, b).value.before)
    ensures Consistent(Activity(prs, first, community, b).value.after)
  {
    if prs != [] {
      var init := prs[..|prs| - 1];
      var pr := prs[|prs| - 1];
      assert forall x :: x in init ==> x in prs;
      ActivityConsistent(init, first, community, b);
      var t := Activity(init, first, community, b).value;
      match ActivityHalf(DayOf(pr.createdAt), b)
      case None =>
      case Some(h) =>
        TallyConsistent(Pick(t, h), pr, NewcomerIn(pr, first, b, h), community);
    }
  }

  /** The number of PRs created in window `h`. */
  function InHalf(prs: seq<Pr>, b: Bounds, h: Half): nat {
    if prs == [] then 0
    else InHalf(prs[..|prs| - 1], b, h) + (if ActivityHalf(DayOf(prs[|prs| - 1].createdAt), b) == Some(h) then 1 else 0)
  }

  /** Every PR created in a window counts towards its total, whoever wrote it. */
  lemma {:induction false} ActivityTotals(prs: seq<Pr>, first: map<Option<string>, int>, community: seq<string>, b: Bounds)
    requires forall pr :: pr in prs ==> pr.user in first
    requires Activity(prs, first, community, b).Some?
    ensures Activity(prs, first, community, b).value.before.totalPrs == InHalf(prs, b, Before)
    ensures Activity(prs, first, community, b).value.after.totalPrs == InHalf(prs, b, After)
  {
    if prs != [] {
      var init := prs[..|prs| - 1];
      assert forall x :: x in init ==> x in prs;
      ActivityTotals(init, first, community, b);
    }
  }

  /** Only a newcomer PR without author makes the loop fail. */
  lemma {:induction false} ActivityDefined(prs: seq<Pr>, first: map<Option<string>, int>, community: seq<string>, b: Bounds)
    requires forall pr :: pr in prs ==> pr.user in first
    requires forall pr :: pr in prs ==> pr.user.Some?
    ensures Activity(prs, first, community, b).Some?
  {
    if prs != [] {
      var init := prs[..|prs| - 1];
      assert forall x :: x in init ==> x in prs;
      ActivityDefined(init, first, community, b);
    }
  }

  lemma ActivitySnoc(prs: seq<Pr>, pr: Pr, first: map<Option<string>, int>, community: seq<string>, b: Bounds)
    requires forall x :: x in prs + [pr] ==> x.user in first
    ensures Activity(prs + [pr], first, community, b) ==
      match Activity(prs, first, community, b)
      case None => None
      case Some(t) =>
        match ActivityHalf(DayOf(pr.createdAt), b)
        case None => Some(t)
        case Some(h) =>
          match Tally(Pick(t, h), pr, NewcomerIn(pr, first, b, h), community)
          case None => None
          case Some(s) => Some(Update(t, h, s))
  {
    assert (prs + [pr])[..|prs|] == prs;
  }

  /** Once the loop has failed it stays failed. */
  lemma {:induction false} ActivityFailed(prs: seq<Pr>, n: nat, first: map<Option<string>, int>, community: seq<string>, b: Bounds)
    requires n <= |prs|
    requires forall pr :: pr in prs ==> pr.user in first
    requires forall pr :: pr in prs[..n] ==> pr.user in first
    requires Activity(prs[..n], first, community, b).None?
    ensures Activity(prs, first, community, b).None?
    decreases |prs| - n
  {
    if n < |prs| {
      assert prs[..n + 1] == prs[..n] + [prs[n]];
      ActivitySnoc(prs[..n], prs[n], first, community, b);
      ActivityFailed(prs, n + 1, first, community, b);
    } else {
      assert prs[..n] == prs;
    }
  }

  /** The integer figures reported for one window; the ratios are left out. */
  datatype Report = Report(newcomerCnt: nat, newcomerPrCnt: nat, newcomerMergedPrCnt: nat, communityNewcomerCnt: nat)

  /** The summary of one window: no more community newcomers than newcomers,
      no more newcomers than newcomer PRs. */
  function ReportOf(s: Stats): (r: Report)
    requires Consistent(s)
    ensures r.communityNewcomerCnt <= r.newcomerCnt <= r.newcomerPrCnt
    ensures r.newcomerMergedPrCnt <= r.newcomerPrCnt <= s.totalPrs
  {
    SubsetSize(s.newcomerAffiliations, s.newcomerAuthors);
    Report(|s.newcomerAuthors|, s.newcomerPrCnt, s.newcomerMergedPrCnt, |s.newcomerAffiliations|)
  }

  lemma SubsetSize<T>(a: set<T>, b: set<T>)
    requires a <= b
    ensures |a| <= |b|
  {
    assert b == a + (b - a);
  }

  /** The whole result of `analyze_governance` besides its date. */
  datatype Analysis = Analysis(rules: RuleTree, newRule: seq<string>, responseTimes: ResponseTimes, activity: Option<Tallies>)

  /** How the announcement lines, the tree and its categories grow by one rule. */
  lemma TreeStep(now: seq<Rule>, i: nat, today: string)
    requires i < |now|
    ensures NewRules(now[..i + 1], today) == NewRules(now[..i], today) + (if DatePart(now[i]) == today then [NewRuleLine(now[i])] else [])
    ensures Grouped(now[..i + 1]) == Grouped(now[..i]).Put(KeyOf(now[i]), Leaves(Grouped(now[..i]), KeyOf(now[i])) + [LeafLine(now[i])])
    ensures Firsts(KeysOf(now[..i + 1], CategoryOf)) ==
      Firsts(KeysOf(now[..i], CategoryOf)) + (if CategoryOf(now[i]) in Firsts(KeysOf(now[..i], CategoryOf)) then [] else [CategoryOf(now[i])])
  {
    assert now[..i + 1] == now[..i] + [now[i]];
    NewRulesSnoc(now[..i], now[i], today);
    GroupedSnoc(now[..i], now[i]);
    CategoriesSnoc(now[..i], now[i]);
  }

  /** The two reply loops of one PR: comments first, then reviews, which
      override a comment whenever one of them counts. */
  method PrFirstResponse(pr: Pr, closedAt: int) returns (firstResponseAt: int)
    ensures firstResponseAt == PrResponse(pr, closedAt)
  {
    firstResponseAt := FirstResponse(pr.comments, SkipBotsAndCla, closedAt);
    firstResponseAt := FirstResponse(pr.reviews, SkipBots, firstResponseAt);
  }

  /** The PR loop of `analyze_response_time`. */
  method PrDurations(prs: seq<Pr>, b: Bounds)
    returns (prResponseRecent: seq<int>, prResponseLater: seq<int>, prCloseRecent: seq<int>, prCloseLater: seq<int>)
    ensures prResponseRecent == PrResponses(prs, b, Recent) && prResponseLater == PrResponses(prs, b, Later)
    ensures prCloseRecent == PrCloses(prs, b, Recent) && prCloseLater == PrCloses(prs, b, Later)
  {
    prResponseRecent, prResponseLater, prCloseRecent, prCloseLater := [], [], [], [];
    for i := 0 to |prs|
      invariant prResponseRecent == PrResponses(prs[..i], b, Recent)
      invariant prResponseLater == PrResponses(prs[..i], b, Later)
      invariant prCloseRecent == PrCloses(prs[..i], b, Recent)
      invariant prCloseLater == PrCloses(prs[..i], b, Later)
    {
      var pr := prs[i];
      PrStep(prs, i, b, Recent);
      PrStep(prs, i, b, Later);
      if pr.closedAt.None? {
        assert prResponseRecent + [] == prResponseRecent && prResponseLater + [] == prResponseLater;
        assert prCloseRecent + [] == prCloseRecent && prCloseLater + [] == prCloseLater;
        continue;
      }
      var closedAt := pr.closedAt.value;
      var firstResponseAt := PrFirstResponse(pr, closedAt);
      var responseTime := firstResponseAt - pr.createdAt;
      var closeTime := closedAt - pr.createdAt;
      var slot := ResponseSlot(DayOf(pr.createdAt), b);
      PrSamples(pr, b, responseTime, closeTime);
      if slot == Recent {
        prResponseRecent := prResponseRecent + [responseTime];
        prCloseRecent := prCloseRecent + [closeTime];
      } else if slot == Later {
        prResponseLater := prResponseLater + [responseTime];
        prCloseLater := prCloseLater + [closeTime];
      }
    }
    assert prs[..|prs|] == prs;
  }

  /** The issue loop of `analyze_response_time`. */
  method IssueDurations(issues: seq<Issue>, b: Bounds) returns (issueResponseRecent: seq<int>, issueResponseLater: seq<int>)
    ensures issueResponseRecent == IssueResponses(issues, b, Recent) && issueResponseLater == IssueResponses(issues, b, Later)
  {
    issueResponseRecent, issueResponseLater := [], [];
    for i := 0 to |issues|
      invariant issueResponseRecent == IssueResponses(issues[..i], b, Recent)
      invariant issueResponseLater == IssueResponses(issues[..i], b, Later)
    {
      var issue := issues[i];
      IssueStep(issues, i, b, Recent);
      IssueStep(issues, i, b, Later);
      if issue.error || issue.closedAt.None? {
        continue;
      }
      var firstResponseAt := FirstResponse(issue.comments, SkipBots, issue.closedAt.value);
      var responseTime := firstResponseAt - issue.createdAt;
      var slot := ResponseSlot(DayOf(issue.createdAt), b);
      if slot == Recent {
        issueResponseRecent := issueResponseRecent + [responseTime];
      } else if slot == Later {
        issueResponseLater := issueResponseLater + [responseTime];
      }
    }
    assert issues[..|issues|] == issues;
  }

  /** The loop that collects `rules_now`. */
  method KeepDated(rules: seq<Rule>, dayOf: string -> int, day: int) returns (rulesNow: seq<Rule>)
    ensures rulesNow == Dated(rules, dayOf, day)
  {
    rulesNow := [];
    for i := 0 to |rules|
      invariant rulesNow == Dated(rules[..i], dayOf, day)
    {
      DatedSnoc(rules[..i], rules[i], dayOf, day);
      assert rules[..i + 1] == rules[..i] + [rules[i]];
      var rule := rules[i];
      if dayOf(rule.time) <= day {
        rulesNow := rulesNow + [rule];
      }
    }
    assert rules[..|rules|] == rules;
  }

  class GovernanceAnalyzer {
    var inputDate: Day
    var before: int
    var after: int
    var newRule: seq<string>

    /** The analysis day is the one given, else the stored update day; the
        windows reach ninety days to each side. */
    constructor(input: Option<Day>, now: Day)
      ensures inputDate == (if input.Some? then input.value else now)
      ensures before == inputDate.number - Span && after == inputDate.number + Span
      ensures newRule == []
    {
      inputDate := if input.Some? then input.value else now;
      before := (if input.Some? then input.value else now).number - Span;
      after := (if input.Some? then input.value else now).number + Span;
      newRule := [];
    }

    function Window(): Bounds
      reads this
    {
      Bounds(before, inputDate.number, after)
    }

    /** `get_governance_rules`: the rules dated on or before the analysis
        day, newest first, as a tree; the rules dated on the day itself are
        appended to `new_rule`. */
    method GetGovernanceRules(rules: seq<Rule>, dayOf: string -> int) returns (tree: RuleTree)
      modifies this`newRule
      ensures newRule == old(newRule) + NewRules(Kept(rules, dayOf, inputDate.number), inputDate.text)
      ensures tree == TreeOf(Kept(rules, dayOf, inputDate.number))
    {
      var kept := KeepDated(rules, dayOf, inputDate.number);
      var rulesNow := Newest(kept);
      var today := inputDate.text;
      var leaves: ODict<Key, seq<string>> := Empty();
      var categories: seq<string> := [];
      var announced: seq<string> := [];
      for i := 0 to |rulesNow|
        invariant newRule == old(newRule)
        invariant announced == NewRules(rulesNow[..i], today)
        invariant leaves == Grouped(rulesNow[..i])
        invariant categories == Firsts(KeysOf(rulesNow[..i], CategoryOf))
      {
        var rule := rulesNow[i];
        TreeStep(rulesNow, i, today);
        var key := KeyOf(rule);
        if DatePart(rule) == today {
          announced := announced + [NewRuleLine(rule)];
        }
        leaves := leaves.Put(key, Leaves(leaves, key) + [LeafLine(rule)]);
        if key.category !in categories {
          categories := categories + [key.category];
        }
      }
      assert rulesNow[..|rulesNow|] == rulesNow;
      newRule := newRule + announced;
      tree := RuleTree(ByRank(categories), leaves);
    }

    /** `analyze_response_time` up to the medians: the duration lists of
        the recent and the later window. */
    method AnalyzeResponseTime(prs: seq<Pr>, issues: seq<Issue>) returns (r: ResponseTimes)
      ensures r == ResponseTimesOf(prs, issues, Window())
    {
      var b := Bounds(before, inputDate.number, after);
      var prResponseRecent, prResponseLater, prCloseRecent, prCloseLater := PrDurations(prs, b);
      var issueResponseRecent, issueResponseLater := IssueDurations(issues, b);
      r := ResponseTimes(prResponseRecent, prResponseLater, prCloseRecent, prCloseLater,
        issueResponseRecent, issueResponseLater);
    }

    /** `analyze_community_developer_activity` up to the ratios: the
        community developers of the commits, every author's first PR, then
        the statistics of both windows; `None` when the loop fails. */
    method AnalyzeCommunityDeveloperActivity(commits: seq<Records.Commit>, prs: seq<Pr>)
      returns (community: seq<string>, clusters: seq<Affiliation.Group>, first: map<Option<string>, int>, r: Option<Tallies>)
      ensures Affiliation.PairwiseDisjoint(clusters)
      ensures Affiliation.SumCounts(clusters) == Affiliation.ValidCount(Affiliation.Identities(commits))
      ensures Affiliation.AllOf(clusters, Affiliation.Emails) == Affiliation.EmailsIn(Affiliation.Identities(commits))
      ensures Affiliation.AllOf(clusters, Affiliation.Names) == Affiliation.NamesIn(Affiliation.Identities(commits))
      ensures forall n :: n in community <==>
        exists k :: 0 <= k < |clusters| && !Affiliation.IsInternal(clusters[k]) && n in clusters[k].names
      ensures first == Earliest(prs)
      ensures forall pr :: pr in prs ==> pr.user in first
      ensures r == Activity(prs, first, community, Window())
    {
      community, clusters := Affiliation.CommunityDevelopers(commits);
      first := FirstPrTimes(prs);
      var b := Bounds(before, inputDate.number, after);
      var beforeStats, afterStats := Fresh, Fresh;
      for i := 0 to |prs|
        invariant Activity(prs[..i], first, community, b) == Some(Tallies(beforeStats, afterStats))
      {
        var pr := prs[i];
        assert prs[..i + 1] == prs[..i] + [pr];
        ActivitySnoc(prs[..i], pr, first, community, b);
        var prDate := DayOf(pr.createdAt);
        var author := pr.user;
        var firstPrDate := DayOf(first[author]);
        var key: Half;
        if before <= prDate < inputDate.number {
          key := Before;
        } else if inputDate.number <= prDate < after {
          key := After;
        } else {
          continue;
        }
        var newcomer := (key == Before && before <= firstPrDate < inputDate.number) ||
          (key == After && inputDate.number <= firstPrDate < after);
        assert newcomer == NewcomerIn(pr, first, b, key);
        var s := Tally(if key == Before then beforeStats else afterStats, pr, newcomer, community);
        if s.None? {
          ActivityFailed(prs, i + 1, first, community, b);
          r := None;
          return;
        }
        if key == Before {
          beforeStats := s.value;
        } else {
          afterStats := s.value;
        }
      }
      assert prs[..|prs|] == prs;
      r := Some(Tallies(beforeStats, afterStats));
    }

    /** `analyze_governance`: the rules, the new rules, the response times and
        the newcomer statistics. */
    method AnalyzeGovernance(rules: seq<Rule>, dayOf: string -> int, prs: seq<Pr>, issues: seq<Issue>, commits: seq<Records.Commit>)
      returns (a: Analysis)
      modifies this`newRule
      ensures a.rules == TreeOf(Kept(rules, dayOf, inputDate.number))
      ensures a.newRule == newRule == old(newRule) + NewRules(Kept(rules, dayOf, inputDate.number), inputDate.text)
      ensures a.responseTimes == ResponseTimesOf(prs, issues, Window())
      ensures exists community, clusters ::
                && Affiliation.ClusteredAs(commits, community, clusters)
                && a.activity == Activity(prs, Earliest(prs), community, Window())
      ensures a.activity.Some? ==> Consistent(a.activity.value.before) && Consistent(a.activity.value.after)
    {
      var tree := GetGovernanceRules(rules, dayOf);
      var times := AnalyzeResponseTime(prs, issues);
      var community, clusters, first, activity := AnalyzeCommunityDeveloperActivity(commits, prs);
      assert Affiliation.ClusteredAs(commits, community, clusters);
      if activity.Some? {
        ActivityConsistent(prs, first, community, Window());
      }
      a := Analysis(tree, newRule, times, activity);
    }
  }
}
