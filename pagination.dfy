/** The request loop shared by every GraphQL fetcher of the collector: send
    the query with the current cursor, retry after a transport failure or a
    rate-limit block, stop on an `errors` payload or a missing object, and
    otherwise map the page's nodes, append them and advance the cursor while
    `hasNextPage` holds. Responses come from an input sequence, one per
    request, each carrying the clock reading at which it arrived. */
module Pagination {
  import opened Text

  /** A member of a JSON object: key absent, value null, or a value. */
  datatype Slot<+T> = Missing | Null | Has(value: T)

  /** The `rateLimit` block. `resetAt` is the reset instant in seconds, None
      when the key is absent, null or the empty string. */
  datatype RateLimit = RateLimit(remaining: Slot<int>, resetAt: Option<int>)

  datatype PageInfo = PageInfo(hasNextPage: Slot<bool>, endCursor: Slot<string>)

  /** A connection object: its node list (`nodes`, or `edges` for files) and
      its `pageInfo`. */
  datatype Conn<+N> = Conn(nodes: Slot<seq<N>>, pageInfo: Slot<PageInfo>) {
    /** `not conn`: an object with neither key is the empty dict. */
    predicate IsEmpty() { nodes.Missing? && pageInfo.Missing? }
  }

  /** An object of which the loop reads a single member. */
  datatype Obj<+T> = Obj(field: Slot<T>) {
    predicate IsEmpty() { field.Missing? }
  }

  /** The `data` object: the rate-limit block and the one top-level field queried. */
  datatype Data<+T> = Data(rateLimit: Slot<RateLimit>, top: Slot<T>)

  /** A decoded reply: whether it has an `errors` key, and its `data` member. */
  datatype Reply<+T> = Reply(errors: bool, data: Slot<Data<T>>)

  /** The result of one request: the transport failed (`post`,
      `raise_for_status` or `json` raised), or a reply arrived at clock `now`. */
  datatype Response<+T> = Failed | Received(now: int, reply: Reply<T>)

  function Max0(x: int): (r: int)
    ensures r >= 0 && r >= x && (r == 0 || r == x)
  {
    if x < 0 then 0 else x
  }

  // ---------------------------------------------------------------------
  // The rate-limit check

  datatype Gate = Pass | Hold(wait: int) | Crash

  /** The rate limit blocks: `remaining` (absent reads as 0) is 0 and a
      `resetAt` is given. */
  predicate Blocked<T>(data: Slot<Data<T>>) {
    && data.Has? && data.value.rateLimit.Has?
    && var rl := data.value.rateLimit.value;
    && (rl.remaining.Missing? || rl.remaining == Has(0))
    && rl.resetAt.Some?
  }

  function ResetOf<T>(data: Slot<Data<T>>): int
    requires Blocked(data)
  {
    data.value.rateLimit.value.resetAt.value
  }

  /** `data.get("data", {}).get("rateLimit")` and what follows it: a null
      `data` raises on `.get`; a block waits five seconds past the reset,
      never a negative time. */
  function RateGate<T>(data: Slot<Data<T>>, now: int): (g: Gate)
    ensures g.Crash? <==> data.Null?
    ensures g.Hold? <==> Blocked(data)
    ensures g.Hold? ==> g.wait >= 0 && now + g.wait >= ResetOf(data) + 5
    ensures g.Hold? && now <= ResetOf(data) + 5 ==> now + g.wait == ResetOf(data) + 5
    ensures g.Hold? && now > ResetOf(data) + 5 ==> g.wait == 0
  {
    match data
    case Null => Crash
    case Missing => Pass
    case Has(d) =>
      match d.rateLimit
      case Has(rl) =>
        if (rl.remaining.Missing? || rl.remaining == Has(0)) && rl.resetAt.Some?
        then Hold(Max0(rl.resetAt.value - now + 5))
        else Pass
      case _ => Pass
  }

  // ---------------------------------------------------------------------
  // Reading members the way each loop's code does

  /** How a loop reads a member that holds an object or a list. */
  datatype Access =
    | OrEmpty        // `x.get(k) or {}`: absent and null read as empty
    | GetDefault     // `x.get(k, {})`: absent reads as empty, null fails once used
    | Strict         // `x[k]`: absent raises KeyError, null fails once used
    | StrictOrEmpty  // `x[k] or {}`: absent raises KeyError, null reads as empty

  datatype Read<+T> = Crashed | Empty | Value(v: T)

  function ReadSlot<T>(s: Slot<T>, a: Access): (r: Read<T>)
    ensures s.Has? <==> r.Value?
    ensures s.Has? ==> r == Value(s.value)
    ensures r.Crashed? <==>
      (s.Missing? && (a.Strict? || a.StrictOrEmpty?)) || (s.Null? && (a.GetDefault? || a.Strict?))
  {
    match s
    case Has(v) => Value(v)
    case Missing => if a.Strict? || a.StrictOrEmpty? then Crashed else Empty
    case Null => if a.GetDefault? || a.Strict? then Crashed else Empty
  }

  /** A node list as read, None when reading it raised. */
  function NodeList<N>(s: Slot<seq<N>>, a: Access): (r: Option<seq<N>>)
    ensures r.None? <==> ReadSlot(s, a).Crashed?
    ensures s.Has? ==> r == Some(s.value)
  {
    match ReadSlot(s, a)
    case Crashed => None
    case Empty => Some([])
    case Value(ns) => Some(ns)
  }

  /** `has_next` and the next cursor, read from the `pageInfo` value. With
      `strict` the loop subscripts (`["hasNextPage"]`, `["endCursor"]`), so an
      absent key raises; otherwise `.get` reads an absent `hasNextPage` as
      False and an absent `endCursor` as None. A null `hasNextPage` is falsy
      and ends the loop. None: the read raised. */
  function NextPage(p: Read<PageInfo>, strict: bool): (r: Option<(bool, Option<string>)>)
    ensures r.Some? && r.value.0 ==> p.Value? && p.v.hasNextPage == Has(true)
    ensures r.Some? && r.value.1.Some? ==> p.Value? && p.v.endCursor == Has(r.value.1.value)
    ensures !strict && !p.Crashed? ==> r.Some?
    ensures p.Crashed? ==> r.None?
  {
    match p
    case Crashed => None
    case Empty => if strict then None else Some((false, None))
    case Value(pi) =>
      if strict && (pi.hasNextPage.Missing? || pi.endCursor.Missing?) then None
      else Some((pi.hasNextPage == Has(true), if pi.endCursor.Has? then Some(pi.endCursor.value) else None))
  }

  // ---------------------------------------------------------------------
  // One iteration of a loop body

  /** What one response makes the loop do. */
  datatype Step<+R> =
    | Retry(wait: int)   // sleep `wait` seconds and re-send the same variables
    | Break              // leave the loop, keeping what was collected
    | Abandon            // `return []`
    | Raise              // an exception escapes the function
    | Accept(items: seq<R>, hasNext: bool, cursor: Option<string>)
  {
    /** The loop sends no further request after this step. */
    predicate Ends() {
      !Retry? && !(Accept? && hasNext)
    }
  }

  /** What became of looking up the connection object in the reply. */
  datatype Located<+C> = Raises | Absent | Found(conn: C)

  /** `x = obj.get(k)` followed by `if not x: break`. */
  function Connection<N>(s: Slot<Conn<N>>): (l: Located<Conn<N>>)
    ensures l.Found? <==> s.Has? && !s.value.IsEmpty()
    ensures l.Found? ==> l.conn == s.value
    ensures !l.Raises?
  {
    if s.Has? && !s.value.IsEmpty() then Found(s.value) else Absent
  }

  datatype ErrorPolicy = KeepPartial | Discard

  /** How one loop reads a page: what an `errors` payload does, and how the
      node list and `pageInfo` are accessed. */
  datatype Shape = Shape(onErrors: ErrorPolicy, nodes: Access, pageInfo: Access, strictFields: bool)

  /** The body of a loop after a reply arrived: the rate gate, then the
      `errors` check, then the lookup of the connection, then its nodes
      (mapped by `mapNodes`, None when mapping raised) and its `pageInfo`. */
  function PageStep<N, R>(gate: Gate, errors: bool, shape: Shape, found: Located<Conn<N>>,
                          mapNodes: seq<N> -> Option<seq<R>>): (s: Step<R>)
    ensures s.Retry? <==> gate.Hold?
    ensures s.Retry? ==> s.wait == gate.wait
    ensures gate.Crash? ==> s.Raise?
    ensures gate.Pass? && errors ==> s == (if shape.onErrors.Discard? then Abandon else Break)
    ensures s.Abandon? ==> errors && shape.onErrors.Discard?
    ensures s.Accept? ==> gate.Pass? && !errors && found.Found?
    ensures s.Accept? ==>
      && NodeList(found.conn.nodes, shape.nodes).Some?
      && mapNodes(NodeList(found.conn.nodes, shape.nodes).value) == Some(s.items)
      && NextPage(ReadSlot(found.conn.pageInfo, shape.pageInfo), shape.strictFields)
         == Some((s.hasNext, s.cursor))
    ensures gate.Pass? && !errors && found.Absent? ==> s.Break?
  {
    match gate
    case Crash => Raise
    case Hold(w) => Retry(w)
    case Pass =>
      if errors then (if shape.onErrors.Discard? then Abandon else Break)
      else match found
        case Raises => Raise
        case Absent => Break
        case Found(c) =>
          match NodeList(c.nodes, shape.nodes)
          case None => Raise
          case Some(ns) =>
            match mapNodes(ns)
            case None => Raise
            case Some(items) =>
              match NextPage(ReadSlot(c.pageInfo, shape.pageInfo), shape.strictFields)
              case None => Raise
              case Some(next) => Accept(items, next.0, next.1)
  }

  // ---------------------------------------------------------------------
  // The loop

  /** A transport failure sleeps two seconds and retries. */
  function StepOf<T, R>(r: Response<T>, classify: (Reply<T>, int) -> Step<R>): Step<R> {
    match r
    case Failed => Retry(2)
    case Received(now, reply) => classify(reply, now)
  }

  function Steps<T, R>(rs: seq<Response<T>>, classify: (Reply<T>, int) -> Step<R>): (ss: seq<Step<R>>)
    ensures |ss| == |rs|
    ensures forall j :: 0 <= j < |rs| ==> ss[j] == StepOf(rs[j], classify)
  {
    seq(|rs|, j requires 0 <= j < |rs| => StepOf(rs[j], classify))
  }

  /** The items of the accepted pages, page after page. */
  function Collected<R>(ss: seq<Step<R>>): seq<R> {
    if ss == [] then []
    else Collected(ss[..|ss| - 1]) + (if ss[|ss| - 1].Accept? then ss[|ss| - 1].items else [])
  }

  /** The sleeps of the retried steps, in order. */
  function Waits<R>(ss: seq<Step<R>>): seq<int> {
    if ss == [] then []
    else Waits(ss[..|ss| - 1]) + (if ss[|ss| - 1].Retry? then [ss[|ss| - 1].wait] else [])
  }

  /** The concatenation of per-node results; None as soon as one node raised. */
  function Concat<T>(parts: seq<Option<seq<T>>>): (r: Option<seq<T>>)
    ensures r.Some? <==> forall i :: 0 <= i < |parts| ==> parts[i].Some?
  {
    if parts == [] then Some([])
    else
      match Concat(parts[..|parts| - 1])
      case None => None
      case Some(xs) =>
        match parts[|parts| - 1]
        case None => None
        case Some(ys) => Some(xs + ys)
  }

  lemma {:induction false} ConcatAppend<T>(a: seq<Option<seq<T>>>, b: seq<Option<seq<T>>>)
    requires Concat(a).Some? && Concat(b).Some?
    ensures Concat(a + b) == Some(Concat(a).value + Concat(b).value)
    decreases |b|
  {
    if b == [] {
      assert a + b == a && Concat(b) == Some([]);
      assert Concat(a).value + [] == Concat(a).value;
    } else {
      var b' := b[..|b| - 1];
      assert (a + b)[..|a + b| - 1] == a + b';
      ConcatAppend(a, b');
      var x, y, z := Concat(a).value, Concat(b').value, b[|b| - 1].value;
      assert Concat(a + b) == Some((x + y) + z);
      assert (x + y) + z == x + (y + z);
    }
  }

  /** How a loop ended. `Unfinished`: the modelled responses ran out while
      the loop was about to send another request. */
  datatype Outcome = Finished | Discarded | Raised | Unfinished

  /** One more step adds its items to the output and its sleep to the sleeps. */
  lemma PrefixStep<R>(ss: seq<Step<R>>, i: nat)
    requires i < |ss|
    ensures Collected(ss[..i + 1]) == Collected(ss[..i]) + (if ss[i].Accept? then ss[i].items else [])
    ensures Waits(ss[..i + 1]) == Waits(ss[..i]) + (if ss[i].Retry? then [ss[i].wait] else [])
  {
    assert ss[..i + 1][..i] == ss[..i];
  }

  /** The cursor the `j`-th request carries: none for the first, then the
      `endCursor` of the last accepted page. */
  function CursorAt<R>(ss: seq<Step<R>>, j: nat): Option<string>
    requires j <= |ss|
  {
    if j == 0 then None
    else if ss[j - 1].Accept? then ss[j - 1].cursor
    else CursorAt(ss, j - 1)
  }

  /** The cursors of the first `n` requests. */
  function Sent<R>(ss: seq<Step<R>>, n: nat): (r: seq<Option<string>>)
    requires n <= |ss|
    ensures |r| == n
  {
    if n == 0 then [] else Sent(ss, n - 1) + [CursorAt(ss, n - 1)]
  }

  lemma {:induction false} SentAt<R>(ss: seq<Step<R>>, n: nat, j: nat)
    requires j < n <= |ss|
    ensures Sent(ss, n)[j] == CursorAt(ss, j)
  {
    if j < n - 1 {
      SentAt(ss, n - 1, j);
    }
  }

  /** The first request carries no cursor; a retry re-sends the same cursor
      and an accepted page moves it to that page's endCursor. */
  lemma SentChain<R>(ss: seq<Step<R>>, n: nat)
    requires n <= |ss|
    ensures n > 0 ==> Sent(ss, n)[0] == None
    ensures forall j :: 0 <= j < n - 1 ==>
      Sent(ss, n)[j + 1] == (if ss[j].Accept? then ss[j].cursor else Sent(ss, n)[j])
  {
    if n > 0 {
      SentAt(ss, n, 0);
    }
    forall j | 0 <= j < n - 1
      ensures Sent(ss, n)[j + 1] == (if ss[j].Accept? then ss[j].cursor else Sent(ss, n)[j])
    {
      SentAt(ss, n, j);
      SentAt(ss, n, j + 1);
    }
  }

  /** The `while has_next` loop. `sent[j]` is the cursor the j-th request
      carried and `slept` the sleeps taken; `out` is what the function
      returns when `outcome` is `Finished` or `Discarded`. */
  method Paginate<T, R>(rs: seq<Response<T>>, classify: (Reply<T>, int) -> Step<R>)
    returns (out: seq<R>, sent: seq<Option<string>>, slept: seq<int>, outcome: Outcome)
    ensures |sent| <= |rs| && (rs != [] ==> |sent| > 0)
    // the first request carries no cursor; a retry re-sends the same cursor
    // and an accepted page moves it to that page's endCursor
    ensures |sent| > 0 ==> sent[0] == None
    ensures forall j :: 0 <= j < |sent| - 1 ==>
      sent[j + 1] == (if StepOf(rs[j], classify).Accept? then StepOf(rs[j], classify).cursor else sent[j])
    // the loop goes on exactly until a step that ends it
    ensures forall j :: 0 <= j < |sent| - 1 ==> !StepOf(rs[j], classify).Ends()
    ensures outcome == Unfinished <==> |sent| == |rs| && (rs == [] || !StepOf(rs[|sent| - 1], classify).Ends())
    ensures outcome == Raised <==> |sent| > 0 && StepOf(rs[|sent| - 1], classify).Raise?
    ensures outcome == Discarded <==> |sent| > 0 && StepOf(rs[|sent| - 1], classify).Abandon?
    ensures out == if outcome == Discarded then [] else Collected(Steps(rs, classify)[..|sent|])
    ensures slept == Waits(Steps(rs, classify)[..|sent|])
  {
    ghost var ss := Steps(rs, classify);
    out, sent, slept, outcome := RequestLoop(rs, classify, ss);
    RunShape(ss, 0);
    SentChain(ss, |sent|);
  }

  /** The number of requests the loop sends from the `i`-th on: it stops
      after the first step that ends it, or when the responses run out. */
  function Run<R>(ss: seq<Step<R>>, i: nat): nat
    requires i <= |ss|
    decreases |ss| - i
  {
    if i == |ss| then |ss| else if ss[i].Ends() then i + 1 else Run(ss, i + 1)
  }

  /** How the loop ended after `n` requests. */
  function OutcomeAfter<R>(ss: seq<Step<R>>, n: nat): Outcome
    requires n <= |ss|
  {
    if n == 0 || !ss[n - 1].Ends() then Unfinished
    else match ss[n - 1]
      case Raise => Raised
      case Abandon => Discarded
      case _ => Finished
  }

  /** The requests from the `i`-th on end at the first step that ends the
      loop, and only the last of them may end it. */
  lemma {:induction false} RunShape<R>(ss: seq<Step<R>>, i: nat)
    requires i <= |ss|
    ensures i <= Run(ss, i) <= |ss|
    ensures i < |ss| ==> i < Run(ss, i)
    ensures forall j :: i <= j < Run(ss, i) - 1 ==> !ss[j].Ends()
    ensures Run(ss, i) < |ss| ==> ss[Run(ss, i) - 1].Ends()
    decreases |ss| - i
  {
    if i < |ss| && !ss[i].Ends() {
      RunShape(ss, i + 1);
    }
  }

  /** The loop itself, specified on the steps `ss` the responses make. */
  method RequestLoop<T, R>(rs: seq<Response<T>>, classify: (Reply<T>, int) -> Step<R>, ghost ss: seq<Step<R>>)
    returns (out: seq<R>, sent: seq<Option<string>>, slept: seq<int>, outcome: Outcome)
    requires |ss| == |rs| && forall j :: 0 <= j < |rs| ==> ss[j] == StepOf(rs[j], classify)
    ensures |sent| <= |ss| && |sent| == Run(ss, 0)
    ensures sent == Sent(ss, |sent|)
    ensures outcome == OutcomeAfter(ss, |sent|)
    ensures out == if outcome == Discarded then [] else Collected(ss[..|sent|])
    ensures slept == Waits(ss[..|sent|])
  {
    var cursor: Option<string> := None;
    var hasNext := true;
    var i := 0;
    out, sent, slept, outcome := [], [], [], Unfinished;
    while hasNext
      invariant 0 <= i <= |rs| && sent == Sent(ss, i)
      invariant cursor == CursorAt(ss, i)
      invariant hasNext ==> Run(ss, 0) == Run(ss, i) && OutcomeAfter(ss, i) == Unfinished
      invariant !hasNext ==> Run(ss, 0) == i && i > 0 && ss[i - 1].Accept? && !ss[i - 1].hasNext
      invariant out == Collected(ss[..i])
      invariant slept == Waits(ss[..i])
      decreases |rs| - i
    {
      if i == |rs| {
        break;
      }
      var step := StepOf(rs[i], classify);
      PrefixStep(ss, i);
      sent := sent + [cursor];
      i := i + 1;
      if step.Retry? {
        slept := slept + [step.wait];
        continue;
      }
      if step.Break? {
        outcome := Finished;
        break;
      }
      if step.Abandon? {
        out, outcome := [], Discarded;
        break;
      }
      if step.Raise? {
        outcome := Raised;
        break;
      }
      out := out + step.items;
      hasNext := step.hasNext;
      cursor := step.cursor;
    }
    if !hasNext {
      outcome := Finished;
    }
  }

  // ---------------------------------------------------------------------
  // What the loop's specification implies

  lemma {:induction false} CollectedAppend<R>(a: seq<Step<R>>, b: seq<Step<R>>)
    ensures Collected(a + b) == Collected(a) + Collected(b)
    decreases |b|
  {
    if b == [] {
      assert a + b == a;
    } else {
      var b' := b[..|b| - 1];
      assert (a + b)[..|a + b| - 1] == a + b';
      CollectedAppend(a, b');
    }
  }

  lemma {:induction false} WaitsAppend<R>(a: seq<Step<R>>, b: seq<Step<R>>)
    ensures Waits(a + b) == Waits(a) + Waits(b)
    decreases |b|
  {
    if b == [] {
      assert a + b == a;
    } else {
      var b' := b[..|b| - 1];
      assert (a + b)[..|a + b| - 1] == a + b';
      WaitsAppend(a, b');
    }
  }

  /** A retried request adds nothing to the output: the same page is
      neither skipped nor collected twice. */
  lemma RetryCollectsNothing<R>(a: seq<Step<R>>, w: int, b: seq<Step<R>>)
    ensures Collected(a + [Retry(w)] + b) == Collected(a + b)
    ensures Waits(a + [Retry(w)] + b) == Waits(a) + [w] + Waits(b)
  {
    CollectedAppend(a + [Retry(w)], b);
    CollectedAppend(a, [Retry(w)]);
    CollectedAppend(a, b);
    WaitsAppend(a + [Retry(w)], b);
    WaitsAppend(a, [Retry(w)]);
    var r: seq<Step<R>> := [Retry(w)];
    assert Collected(r) == [] && Waits(r) == [w] by {
      assert r[..0] == [];
    }
  }

  /** The output is the concatenation of the accepted pages' items. */
  lemma {:induction false} CollectedPages<R>(ss: seq<Step<R>>, k: nat)
    requires k < |ss|
    ensures ss[k].Accept? ==>
      Collected(ss) == Collected(ss[..k]) + ss[k].items + Collected(ss[k + 1..])
    ensures !ss[k].Accept? ==> Collected(ss) == Collected(ss[..k]) + Collected(ss[k + 1..])
  {
    assert ss == ss[..k] + [ss[k]] + ss[k + 1..];
    CollectedAppend(ss[..k] + [ss[k]], ss[k + 1..]);
    CollectedAppend(ss[..k], [ss[k]]);
    assert [ss[k]][..0] == [];
  }
}
