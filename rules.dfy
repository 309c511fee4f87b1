/** The governance rules of `get_governance_rules`
    (backend/collaboration/governance_analyzer.py): the rules published on or
    before the analysis day, newest first, grouped into a tree by category,
    rule type and detailed code, with the categories in a fixed order, and the
    lines announcing the rules published on the analysis day itself. */
module Rules {
  import opened Text
  import opened Dicts

  /** One element of `paddle-rules.json`. `None` is a missing key (for
      `detailed code` and `content` also a `null`). */
  datatype Rule = Rule(
    time: string,
    category: Option<string>,
    ruleType: Option<string>,
    detailedCode: Option<string>,
    ruleDescription: Option<string>,
    content: Option<string>)

  /** The defaults of the tree's keys. */
  const Other := "\U{5176}\U{4ED6}"
  const Unclassified := "\U{672A}\U{5206}\U{7C7B}"
  const General := "_general"

  function CategoryOf(r: Rule): string { r.category.GetOr(Other) }

  function TypeOf(r: Rule): string { r.ruleType.GetOr(Unclassified) }

  /** `rule.get("detailed code") or "_general"`. */
  function CodeOf(r: Rule): string {
    if Truthy(r.detailedCode) then r.detailedCode.value else General
  }

  function DescriptionOf(r: Rule): string { r.ruleDescription.GetOr("") }

  /** `rule.get("content") or ""`. */
  function ContentOf(r: Rule): string { r.content.GetOr("") }

  /** `time.split("T")[0]`: the date part of the publication time. */
  function DatePart(r: Rule): string { SplitOn(r.time, 'T')[0] }

  /** The description and content, joined by an ideographic full stop. */
  function Statement(r: Rule): string {
    DescriptionOf(r) + "\U{3002}" + ContentOf(r)
  }

  /** The `new_rule` line of one rule. */
  function NewRuleLine(r: Rule): string {
    if CodeOf(r) == General then CategoryOf(r) + " - " + TypeOf(r) + " : " + Statement(r)
    else CategoryOf(r) + " - " + TypeOf(r) + " - " + CodeOf(r) + " : " + Statement(r)
  }

  /** The tree leaf of one rule: its statement and its publication date. */
  function LeafLine(r: Rule): string {
    Statement(r) + " -- \U{53D1}\U{5E03}\U{65F6}\U{95F4}\U{FF1A}" + DatePart(r)
  }

  /** A missing, `null` or empty detailed code is the same as `_general`: it
      gives the same key, the same leaf and the same `new_rule` line. */
  lemma GeneralCodesAlike(r: Rule)
    requires !Truthy(r.detailedCode)
    ensures CodeOf(r) == CodeOf(r.(detailedCode := Some(General)))
    ensures NewRuleLine(r) == NewRuleLine(r.(detailedCode := Some(General)))
    ensures LeafLine(r) == LeafLine(r.(detailedCode := Some(General)))
  {
  }

  /** The detailed-code segment is present exactly when the code is not
      `_general`: the line is then longer by ` - ` and the code. */
  lemma NewRuleLineCode(r: Rule)
    ensures StartsWith(NewRuleLine(r), CategoryOf(r) + " - " + TypeOf(r))
    ensures |NewRuleLine(r)| == |CategoryOf(r) + " - " + TypeOf(r) + " : " + Statement(r)| +
      (if CodeOf(r) == General then 0 else 3 + |CodeOf(r)|)
  {
    var head := CategoryOf(r) + " - " + TypeOf(r);
    if CodeOf(r) == General {
      assert NewRuleLine(r) == head + (" : " + Statement(r));
    } else {
      assert NewRuleLine(r) == head + (" - " + CodeOf(r) + " : " + Statement(r));
    }
  }

  // Filtering by date (lines 59-64)

  /** The rules whose publication day, as `dayOf` reads it from `time`, is
      not after `day`, in file order. */
  function Dated(rules: seq<Rule>, dayOf: string -> int, day: int): (r: seq<Rule>)
    ensures |r| <= |rules|
    ensures forall x :: x in r <==> x in rules && dayOf(x.time) <= day
  {
    if rules == [] then []
    else
      var last := rules[|rules| - 1];
      assert rules == rules[..|rules| - 1] + [last];
      Dated(rules[..|rules| - 1], dayOf, day) + (if dayOf(last.time) <= day then [last] else [])
  }

  lemma DatedSnoc(rules: seq<Rule>, x: Rule, dayOf: string -> int, day: int)
    ensures Dated(rules + [x], dayOf, day) == Dated(rules, dayOf, day) + (if dayOf(x.time) <= day then [x] else [])
  {
    assert (rules + [x])[..|rules|] == rules;
  }

  // Sorting by time, newest first (line 65)

  /** Every rule is at least as new as every rule after it. */
  ghost predicate NewestFirst(s: seq<Rule>) {
    forall i, j :: 0 <= i < j < |s| ==> !LexLess(s[i].time, s[j].time)
  }

  /** Insertion into a newest-first list, in front of every rule that is not
      newer: an earlier rule stays in front of a later one with the same time. */
  function InsertNewest(r: Rule, s: seq<Rule>): (t: seq<Rule>)
    ensures multiset(t) == multiset(s) + multiset{r}
  {
    if s == [] || !LexLess(r.time, s[0].time) then [r] + s
    else
      assert s == [s[0]] + s[1..];
      [s[0]] + InsertNewest(r, s[1..])
  }

  /** `sorted(rules, key=time, reverse=True)`, which is stable. */
  function Newest(rs: seq<Rule>): (t: seq<Rule>)
    ensures multiset(t) == multiset(rs)
  {
    if rs == [] then []
    else
      assert rs == [rs[0]] + rs[1..];
      InsertNewest(rs[0], Newest(rs[1..]))
  }

  lemma NotOlderTransitive(a: string, b: string, c: string)
    requires !LexLess(a, b) && !LexLess(b, c)
    ensures !LexLess(a, c)
  {
    LexLessTotal(a, b);
    LexLessTotal(b, c);
    if LexLess(a, c) {
      if a == b {
      } else if b == c {
      } else {
        LexLessTransitive(c, b, a);
        LexLessTransitive(a, c, a);
        LexLessIrreflexive(a);
      }
    }
  }

  lemma LexLessAsymmetric(a: string, b: string)
    requires LexLess(a, b)
    ensures !LexLess(b, a)
  {
    if LexLess(b, a) {
      LexLessTransitive(a, b, a);
      LexLessIrreflexive(a);
    }
  }

  lemma {:induction false} InsertNewestSorted(r: Rule, s: seq<Rule>)
    requires NewestFirst(s)
    ensures NewestFirst(InsertNewest(r, s))
  {
    var t := InsertNewest(r, s);
    if s == [] || !LexLess(r.time, s[0].time) {
      forall j | 1 <= j < |t|
        ensures !LexLess(t[0].time, t[j].time)
      {
        if j > 1 {
          NotOlderTransitive(r.time, s[0].time, s[j - 1].time);
        }
      }
    } else {
      var u := InsertNewest(r, s[1..]);
      InsertNewestSorted(r, s[1..]);
      LexLessAsymmetric(r.time, s[0].time);
      forall j | 0 <= j < |u|
        ensures !LexLess(s[0].time, u[j].time)
      {
        assert u[j] in multiset(u);
        assert u[j] == r || u[j] in s[1..];
      }
      assert t == [s[0]] + u;
    }
  }

  /** The result is newest first. */
  lemma {:induction false} NewestSorted(rs: seq<Rule>)
    ensures NewestFirst(Newest(rs))
  {
    if rs != [] {
      NewestSorted(rs[1..]);
      InsertNewestSorted(rs[0], Newest(rs[1..]));
    }
  }

  /** The rules with a given time, in order. */
  function WithTime(s: seq<Rule>, time: string): seq<Rule> {
    if s == [] then [] else (if s[0].time == time then [s[0]] else []) + WithTime(s[1..], time)
  }

  lemma {:induction false} InsertNewestStable(r: Rule, s: seq<Rule>, time: string)
    requires NewestFirst(s)
    ensures WithTime(InsertNewest(r, s), time) == (if r.time == time then [r] else []) + WithTime(s, time)
  {
    if s != [] && LexLess(r.time, s[0].time) {
      var u := InsertNewest(r, s[1..]);
      InsertNewestStable(r, s[1..], time);
      assert InsertNewest(r, s) == [s[0]] + u;
      assert ([s[0]] + u)[1..] == u;
      if r.time == time {
        LexLessIrreflexive(r.time);
      }
    } else {
      assert ([r] + s)[1..] == s;
    }
  }

  /** The sort is stable: rules with the same time keep their file order. */
  lemma {:induction false} NewestStable(rs: seq<Rule>, time: string)
    ensures WithTime(Newest(rs), time) == WithTime(rs, time)
  {
    if rs != [] {
      NewestStable(rs[1..], time);
      NewestSorted(rs[1..]);
      InsertNewestStable(rs[0], Newest(rs[1..]), time);
    }
  }

  // The announcement lines (lines 87-91)

  /** The `new_rule` lines of `rs` for the day whose text is `today`. */
  function NewRules(rs: seq<Rule>, today: string): (lines: seq<string>)
    ensures |lines| <= |rs|
  {
    if rs == [] then []
    else
      var last := rs[|rs| - 1];
      NewRules(rs[..|rs| - 1], today) + (if DatePart(last) == today then [NewRuleLine(last)] else [])
  }

  lemma NewRulesSnoc(rs: seq<Rule>, r: Rule, today: string)
    ensures NewRules(rs + [r], today) == NewRules(rs, today) + (if DatePart(r) == today then [NewRuleLine(r)] else [])
  {
    assert (rs + [r])[..|rs|] == rs;
  }

  /** Exactly the rules published on `today` are announced, and only by
      their `new_rule` line. */
  lemma {:induction false} NewRulesMeaning(rs: seq<Rule>, today: string, line: string)
    ensures line in NewRules(rs, today) <==> exists r :: r in rs && DatePart(r) == today && line == NewRuleLine(r)
  {
    if rs != [] {
      var init := rs[..|rs| - 1];
      NewRulesMeaning(init, today, line);
      assert rs == init + [rs[|rs| - 1]];
    }
  }

  // The rule tree (lines 79-93)

  /** The path of a leaf list in `rules_tree`: category, rule type, detailed code. */
  datatype Key = Key(category: string, ruleType: string, code: string)

  function KeyOf(r: Rule): Key { Key(CategoryOf(r), TypeOf(r), CodeOf(r)) }

  /** The leaf list at `k`: the defaultdict's empty list when absent. */
  function Leaves(d: ODict<Key, seq<string>>, k: Key): seq<string> {
    if k in d.entries then d.entries[k] else []
  }

  /** The tree after `rules_tree[category][type][code].append(leaf)` for
      each rule of `rs`, flattened to its leaf paths in insertion order. */
  function Grouped(rs: seq<Rule>): ODict<Key, seq<string>> {
    if rs == [] then Empty()
    else
      var last := rs[|rs| - 1];
      var d := Grouped(rs[..|rs| - 1]);
      d.Put(KeyOf(last), Leaves(d, KeyOf(last)) + [LeafLine(last)])
  }

  lemma GroupedSnoc(rs: seq<Rule>, r: Rule)
    ensures Grouped(rs + [r]) == Grouped(rs).Put(KeyOf(r), Leaves(Grouped(rs), KeyOf(r)) + [LeafLine(r)])
  {
    assert (rs + [r])[..|rs|] == rs;
  }

  /** The leaf lines of the rules with path `k`, in order. */
  function LeavesOf(rs: seq<Rule>, k: Key): seq<string> {
    if rs == [] then []
    else
      var last := rs[|rs| - 1];
      LeavesOf(rs[..|rs| - 1], k) + (if KeyOf(last) == k then [LeafLine(last)] else [])
  }

  /** Each leaf list holds the leaves of exactly the rules with that path,
      in the order of the rules. */
  lemma {:induction false} GroupedLeaves(rs: seq<Rule>, k: Key)
    ensures Leaves(Grouped(rs), k) == LeavesOf(rs, k)
  {
    if rs != [] {
      GroupedLeaves(rs[..|rs| - 1], k);
    }
  }

  /** The paths of the tree are those of the rules, each once, in order of
      first occurrence. */
  lemma {:induction false} GroupedKeys(rs: seq<Rule>)
    ensures Grouped(rs).keys == Firsts(KeysOf(rs, KeyOf))
    ensures forall k :: k in Grouped(rs).entries <==> k in KeysOf(rs, KeyOf)
  {
    if rs != [] {
      var init := rs[..|rs| - 1];
      var k := KeyOf(rs[|rs| - 1]);
      GroupedKeys(init);
      assert rs == init + [rs[|rs| - 1]];
      KeysOfSnoc(init, rs[|rs| - 1], KeyOf);
      if k in KeysOf(init, KeyOf) {
        FreshKeysOld([], KeysOf(init, KeyOf), k);
      } else {
        FreshKeysNew([], KeysOf(init, KeyOf), k);
      }
    }
  }

  lemma GroupedValid(rs: seq<Rule>)
    ensures Grouped(rs).Valid()
  {
    GroupedKeys(rs);
    FreshKeysDistinct([], KeysOf(rs, KeyOf));
  }

  // The category order (lines 95-105)

  const CategoryOrder: map<string, int> := map[
    "position" := 0, "boundary" := 1, "choice" := 2, "scope" := 3,
    "aggregation" := 4, "information" := 5, "payoff" := 6, Other := 7]

  /** `category_order.get(category, 99)`. */
  function Rank(category: string): (n: int)
    ensures category !in CategoryOrder ==> n == 99
    ensures category in CategoryOrder ==> 0 <= n <= 7
  {
    if category in CategoryOrder then CategoryOrder[category] else 99
  }

  /** Insertion in front of every category of no smaller rank. */
  function InsertByRank(c: string, s: seq<string>): (t: seq<string>)
    ensures multiset(t) == multiset(s) + multiset{c}
  {
    if s == [] || Rank(c) <= Rank(s[0]) then [c] + s
    else
      assert s == [s[0]] + s[1..];
      [s[0]] + InsertByRank(c, s[1..])
  }

  /** `sorted(categories, key=rank)`, which is stable. */
  function ByRank(cs: seq<string>): (t: seq<string>)
    ensures multiset(t) == multiset(cs)
  {
    if cs == [] then []
    else
      assert cs == [cs[0]] + cs[1..];
      InsertByRank(cs[0], ByRank(cs[1..]))
  }

  ghost predicate RankOrdered(s: seq<string>) {
    forall i, j :: 0 <= i < j < |s| ==> Rank(s[i]) <= Rank(s[j])
  }

  lemma {:induction false} InsertByRankOrdered(c: string, s: seq<string>)
    requires RankOrdered(s)
    ensures RankOrdered(InsertByRank(c, s))
  {
    if s != [] && Rank(s[0]) < Rank(c) {
      var u := InsertByRank(c, s[1..]);
      InsertByRankOrdered(c, s[1..]);
      forall j | 0 <= j < |u|
        ensures Rank(s[0]) <= Rank(u[j])
      {
        assert u[j] in multiset(u);
        assert u[j] == c || u[j] in s[1..];
      }
      assert InsertByRank(c, s) == [s[0]] + u;
    }
  }

  lemma {:induction false} ByRankOrdered(cs: seq<string>)
    ensures RankOrdered(ByRank(cs))
  {
    if cs != [] {
      ByRankOrdered(cs[1..]);
      InsertByRankOrdered(cs[0], ByRank(cs[1..]));
    }
  }

  /** Known categories follow the fixed order: a category of smaller rank
      always comes first. */
  lemma {:induction false} RankFirst(cs: seq<string>, i: nat, j: nat)
    requires i < |ByRank(cs)| && j < |ByRank(cs)|
    requires Rank(ByRank(cs)[i]) < Rank(ByRank(cs)[j])
    ensures i < j
  {
    ByRankOrdered(cs);
    RankedFirst(ByRank(cs), i, j);
  }

  lemma RankedFirst(s: seq<string>, i: nat, j: nat)
    requires RankOrdered(s) && i < |s| && j < |s|
    requires Rank(s[i]) < Rank(s[j])
    ensures i < j
  {
  }

  /** The categories of a given rank, in order. */
  function WithRank(s: seq<string>, k: int): seq<string> {
    if s == [] then [] else (if Rank(s[0]) == k then [s[0]] else []) + WithRank(s[1..], k)
  }

  /** An insertion puts a category before the categories of the same rank. */
  lemma {:induction false} InsertByRankStable(c: string, s: seq<string>, k: int)
    ensures WithRank(InsertByRank(c, s), k) == (if Rank(c) == k then [c] else []) + WithRank(s, k)
  {
    if s != [] && Rank(c) > Rank(s[0]) {
      var u := InsertByRank(c, s[1..]);
      InsertByRankStable(c, s[1..], k);
      assert InsertByRank(c, s) == [s[0]] + u;
      assert ([s[0]] + u)[1..] == u;
    } else {
      assert ([c] + s)[1..] == s;
    }
  }

  /** The category sort is stable: categories of the same rank, in particular
      all the unknown ones, keep their order of first use. */
  lemma {:induction false} ByRankStable(cs: seq<string>, k: int)
    ensures WithRank(ByRank(cs), k) == WithRank(cs, k)
  {
    if cs != [] {
      ByRankStable(cs[1..], k);
      InsertByRankStable(cs[0], ByRank(cs[1..]), k);
    }
  }

  /** Every category of the fixed order comes before every other one, which
      all share rank 99 and keep their order of first use. */
  lemma KnownFirst(cs: seq<string>, i: nat, j: nat)
    requires i < |ByRank(cs)| && j < |ByRank(cs)|
    requires ByRank(cs)[i] in CategoryOrder && ByRank(cs)[j] !in CategoryOrder
    ensures i < j
  {
    RankFirst(cs, i, j);
  }

  /** A category is added to the tree's first level when first used. */
  lemma CategoriesSnoc(rs: seq<Rule>, r: Rule)
    ensures Firsts(KeysOf(rs + [r], CategoryOf)) ==
      Firsts(KeysOf(rs, CategoryOf)) + (if CategoryOf(r) in Firsts(KeysOf(rs, CategoryOf)) then [] else [CategoryOf(r)])
  {
    KeysOfSnoc(rs, r, CategoryOf);
    if CategoryOf(r) in KeysOf(rs, CategoryOf) {
      FreshKeysOld([], KeysOf(rs, CategoryOf), CategoryOf(r));
    } else {
      FreshKeysNew([], KeysOf(rs, CategoryOf), CategoryOf(r));
    }
  }

  /** The rules `get_governance_rules` works on: those dated on or before
      `day`, newest first. */
  function Kept(rules: seq<Rule>, dayOf: string -> int, day: int): seq<Rule> {
    Newest(Dated(rules, dayOf, day))
  }

  /** The kept rules are exactly the rules dated on or before `day`, as often
      as they occur, newest first. */
  lemma KeptMeaning(rules: seq<Rule>, dayOf: string -> int, day: int)
    ensures forall x :: x in Kept(rules, dayOf, day) <==> x in rules && dayOf(x.time) <= day
    ensures multiset(Kept(rules, dayOf, day)) == multiset(Dated(rules, dayOf, day))
    ensures NewestFirst(Kept(rules, dayOf, day))
  {
    NewestSorted(Dated(rules, dayOf, day));
    forall x
      ensures x in Kept(rules, dayOf, day) <==> x in Dated(rules, dayOf, day)
    {
      assert x in Kept(rules, dayOf, day) <==> x in multiset(Kept(rules, dayOf, day));
    }
  }

  /** The tree: its categories in output order and its leaf lists by path. */
  datatype RuleTree = RuleTree(categories: seq<string>, leaves: ODict<Key, seq<string>>)

  /** The tree built from the kept, sorted rules. */
  function TreeOf(now: seq<Rule>): RuleTree {
    RuleTree(ByRank(Firsts(KeysOf(now, CategoryOf))), Grouped(now))
  }
}
