/** Identity clustering of commit authors (backend/utils/dvpr_affliation.py).
    Commits are folded into groups in three phases (exact e-mail, shared
    multi-word name, shared e-mail until stable), and the names of every
    group without an organisation e-mail are the community developers. */
module Affiliation {
  import opened Text
  import opened Records

  /** A developer group: normalised names, normalised e-mails, commit count. */
  datatype Group = Group(names: set<string>, emails: set<string>, count: nat)

  datatype Field = Names | Emails

  function Proj(g: Group, f: Field): set<string> {
    match f
    case Names => g.names
    case Emails => g.emails
  }

  /** In-place `update` of one group with another: sets united, counts added. */
  function Union2(g: Group, h: Group): (r: Group)
    ensures forall f :: Proj(r, f) == Proj(g, f) + Proj(h, f)
    ensures r.count == g.count + h.count
  {
    Group(g.names + h.names, g.emails + h.emails, g.count + h.count)
  }

  // ---------------------------------------------------------------------
  // Normalisation

  /** `normalize_email`: stripped, then lower-cased. */
  function NormalizeEmail(email: string): string {
    Normalize(email)
  }

  /** `normalize_name`: stripped, then lower-cased. */
  function NormalizeName(name: string): string {
    Normalize(name)
  }

  /** `has_two_segments`: at least two whitespace-separated words. */
  predicate HasTwoSegments(name: string) {
    |Words(Strip(name))| >= 2
  }

  // ---------------------------------------------------------------------
  // What the commit list says, independently of any grouping

  /** The normalised e-mail and name a commit contributes. */
  datatype Identity = Identity(email: string, name: string)

  /** The filter and normalisation at the head of the phase-1 loop: a commit
      whose author or e-mail is missing or empty contributes nothing. */
  function IdentityOf(c: Commit): Option<Identity> {
    if Truthy(c.author) && Truthy(c.authorEmail) then
      Some(Identity(NormalizeEmail(c.authorEmail.value), NormalizeName(c.author.value)))
    else None
  }

  function Identities(cs: seq<Commit>): (ids: seq<Option<Identity>>)
    ensures |ids| == |cs|
  {
    seq(|cs|, i requires 0 <= i < |cs| => IdentityOf(cs[i]))
  }

  /** A commit contributes an identity exactly when it has a non-empty author
      and a non-empty e-mail, and both parts of it are already normal. */
  lemma IdentityNormal(c: Commit)
    ensures IdentityOf(c).Some? <==> Truthy(c.author) && Truthy(c.authorEmail)
    ensures IdentityOf(c).Some? ==>
              Normalize(IdentityOf(c).value.email) == IdentityOf(c).value.email &&
              Normalize(IdentityOf(c).value.name) == IdentityOf(c).value.name
  {
    if IdentityOf(c).Some? {
      NormalizeIdempotent(c.authorEmail.value);
      NormalizeIdempotent(c.author.value);
    }
  }

  function ValidCount(ids: seq<Option<Identity>>): nat {
    if ids == [] then 0
    else ValidCount(ids[..|ids| - 1]) + (if ids[|ids| - 1].Some? then 1 else 0)
  }

  /** Number of counted commits whose normalised e-mail is `e`. */
  function CountWith(ids: seq<Option<Identity>>, e: string): nat {
    if ids == [] then 0
    else
      var c := ids[|ids| - 1];
      CountWith(ids[..|ids| - 1], e) + (if c.Some? && c.value.email == e then 1 else 0)
  }

  /** Normalised names of the counted commits whose normalised e-mail is `e`. */
  function NamesWith(ids: seq<Option<Identity>>, e: string): set<string> {
    if ids == [] then {}
    else
      var c := ids[|ids| - 1];
      NamesWith(ids[..|ids| - 1], e) + (if c.Some? && c.value.email == e then {c.value.name} else {})
  }

  function EmailsIn(ids: seq<Option<Identity>>): set<string> {
    if ids == [] then {}
    else
      var c := ids[|ids| - 1];
      EmailsIn(ids[..|ids| - 1]) + (if c.Some? then {c.value.email} else {})
  }

  function NamesIn(ids: seq<Option<Identity>>): set<string> {
    if ids == [] then {}
    else
      var c := ids[|ids| - 1];
      NamesIn(ids[..|ids| - 1]) + (if c.Some? then {c.value.name} else {})
  }

  lemma {:induction false} NoneIgnored(before: seq<Option<Identity>>, after: seq<Option<Identity>>)
    ensures ValidCount(before + [None] + after) == ValidCount(before + after)
    ensures EmailsIn(before + [None] + after) == EmailsIn(before + after)
    ensures NamesIn(before + [None] + after) == NamesIn(before + after)
    ensures forall e :: CountWith(before + [None] + after, e) == CountWith(before + after, e)
    ensures forall e :: NamesWith(before + [None] + after, e) == NamesWith(before + after, e)
    decreases |after|
  {
    if after == [] {
      assert (before + [None] + after)[..|before|] == before;
      assert before + after == before;
    } else {
      var init := after[..|after| - 1];
      NoneIgnored(before, init);
      assert (before + [None] + after)[..|before + [None] + after| - 1] == before + [None] + init;
      assert (before + after)[..|before + after| - 1] == before + init;
    }
  }

  /** A commit without author or e-mail, wherever it stands, changes neither the
      number of valid commits nor any name, e-mail or per-e-mail count. */
  lemma UncountedCommitIgnored(before: seq<Commit>, c: Commit, after: seq<Commit>)
    requires !Truthy(c.author) || !Truthy(c.authorEmail)
    ensures var all, rest := Identities(before + [c] + after), Identities(before + after);
      && ValidCount(all) == ValidCount(rest)
      && EmailsIn(all) == EmailsIn(rest)
      && NamesIn(all) == NamesIn(rest)
      && (forall e :: CountWith(all, e) == CountWith(rest, e))
      && (forall e :: NamesWith(all, e) == NamesWith(rest, e))
  {
    assert Identities(before + [c] + after) == Identities(before) + [None] + Identities(after);
    assert Identities(before + after) == Identities(before) + Identities(after);
    NoneIgnored(Identities(before), Identities(after));
  }

  // ---------------------------------------------------------------------
  // Sums and unions over a list of groups

  function SumCounts(gs: seq<Group>): nat {
    if gs == [] then 0 else SumCounts(gs[..|gs| - 1]) + gs[|gs| - 1].count
  }

  /** All names, or all e-mails, of the groups of the list. */
  function AllOf(gs: seq<Group>, f: Field): set<string> {
    if gs == [] then {} else AllOf(gs[..|gs| - 1], f) + Proj(gs[|gs| - 1], f)
  }

  /** No e-mail is shared by two groups of the list. */
  ghost predicate PairwiseDisjoint(gs: seq<Group>) {
    forall a, b :: 0 <= a < b < |gs| ==> gs[a].emails !! gs[b].emails
  }

  lemma {:induction false} SumCountsUpdate(gs: seq<Group>, i: nat, x: Group)
    requires i < |gs|
    ensures SumCounts(gs[i := x]) + gs[i].count == SumCounts(gs) + x.count
    decreases |gs|
  {
    var n := |gs| - 1;
    assert gs[i := x][..n] == if i == n then gs[..n] else gs[..n][i := x];
    if i < n {
      SumCountsUpdate(gs[..n], i, x);
    }
  }

  lemma SumCountsSnoc(gs: seq<Group>, g: Group)
    ensures SumCounts(gs + [g]) == SumCounts(gs) + g.count
  {
    assert (gs + [g])[..|gs|] == gs;
  }

  lemma AllOfSnoc(gs: seq<Group>, g: Group, f: Field)
    ensures AllOf(gs + [g], f) == AllOf(gs, f) + Proj(g, f)
  {
    assert (gs + [g])[..|gs|] == gs;
  }

  lemma {:induction false} AllOfHas(gs: seq<Group>, k: nat, f: Field)
    requires k < |gs|
    ensures Proj(gs[k], f) <= AllOf(gs, f)
    decreases |gs|
  {
    if k < |gs| - 1 {
      AllOfHas(gs[..|gs| - 1], k, f);
    }
  }

  lemma {:induction false} AllOfWitness(gs: seq<Group>, f: Field, y: string) returns (k: nat)
    requires y in AllOf(gs, f)
    ensures k < |gs| && y in Proj(gs[k], f)
    decreases |gs|
  {
    var n := |gs| - 1;
    if y in Proj(gs[n], f) {
      k := n;
    } else {
      k := AllOfWitness(gs[..n], f, y);
    }
  }

  /** Growing one group grows the union by exactly what was added. */
  lemma {:induction false} AllOfUpdate(gs: seq<Group>, i: nat, x: Group, f: Field)
    requires i < |gs| && Proj(gs[i], f) <= Proj(x, f)
    ensures AllOf(gs[i := x], f) == AllOf(gs, f) + Proj(x, f)
    decreases |gs|
  {
    var n := |gs| - 1;
    if i == n {
      assert gs[i := x][..n] == gs[..n];
    } else {
      assert gs[i := x][..n] == gs[..n][i := x];
      AllOfUpdate(gs[..n], i, x, f);
    }
  }

  /** A list is pairwise disjoint exactly when its prefix is and the last group
      meets none of the prefix's e-mails. */
  lemma DisjointSnoc(gs: seq<Group>, g: Group)
    ensures PairwiseDisjoint(gs + [g]) <==> PairwiseDisjoint(gs) && g.emails !! AllOf(gs, Emails)
  {
    var s := gs + [g];
    AllOfSnoc(gs, g, Emails);
    if PairwiseDisjoint(s) {
      forall a, b | 0 <= a < b < |gs| ensures gs[a].emails !! gs[b].emails {
        assert s[a] == gs[a] && s[b] == gs[b];
      }
      forall y | y in AllOf(gs, Emails) ensures y !in g.emails {
        var k := AllOfWitness(gs, Emails, y);
        assert s[k].emails !! s[|gs|].emails;
      }
    }
    if PairwiseDisjoint(gs) && g.emails !! AllOf(gs, Emails) {
      forall a, b | 0 <= a < b < |s| ensures s[a].emails !! s[b].emails {
        if b == |gs| {
          AllOfHas(gs, a, Emails);
        }
      }
    }
  }
  // ---------------------------------------------------------------------
  // Phase 1: one group per normalised e-mail (lines 14-37)

  /** An e-mail not seen yet has no names and no commits. */
  lemma {:induction false} Unseen(cs: seq<Option<Identity>>, e: string)
    requires e !in EmailsIn(cs)
    ensures NamesWith(cs, e) == {} && CountWith(cs, e) == 0
    decreases |cs|
  {
    if cs != [] {
      Unseen(cs[..|cs| - 1], e);
    }
  }

  /** How the commit-list functions change when one more commit is taken in. */
  lemma Phase1Unfold(cs: seq<Option<Identity>>, k: nat)
    requires k < |cs|
    ensures ValidCount(cs[..k + 1]) == ValidCount(cs[..k]) + (if cs[k].Some? then 1 else 0)
    ensures EmailsIn(cs[..k + 1]) == EmailsIn(cs[..k]) + (if cs[k].Some? then {cs[k].value.email} else {})
    ensures NamesIn(cs[..k + 1]) == NamesIn(cs[..k]) + (if cs[k].Some? then {cs[k].value.name} else {})
    ensures forall e :: CountWith(cs[..k + 1], e) ==
              CountWith(cs[..k], e) + (if cs[k].Some? && cs[k].value.email == e then 1 else 0)
    ensures forall e :: NamesWith(cs[..k + 1], e) ==
              NamesWith(cs[..k], e) + (if cs[k].Some? && cs[k].value.email == e then {cs[k].value.name} else {})
  {
    assert cs[..k + 1][..k] == cs[..k];
  }

  /** What `groups` and `email_to_group` hold once the identities `seen` are
      folded in; `owner` names the e-mail that grown each group. */
  ghost predicate Folded(seen: seq<Option<Identity>>, groups: seq<Group>, m: map<string, nat>, owner: seq<string>) {
    && |owner| == |groups|
    && m.Keys == EmailsIn(seen)
    && (forall e :: e in m ==> m[e] < |groups| && groups[m[e]] == Group(NamesWith(seen, e), {e}, CountWith(seen, e)))
    && (forall i :: 0 <= i < |groups| ==> owner[i] in m && m[owner[i]] == i)
    && SumCounts(groups) == ValidCount(seen)
    && AllOf(groups, Emails) == EmailsIn(seen)
    && AllOf(groups, Names) == NamesIn(seen)
  }

  /** An identity whose e-mail already owns a group joins that group. */
  lemma FoldKnown(ids: seq<Option<Identity>>, k: nat, groups: seq<Group>, m: map<string, nat>, owner: seq<string>)
    requires k < |ids| && ids[k].Some? && ids[k].value.email in m
    requires Folded(ids[..k], groups, m, owner)
    ensures var e, n := ids[k].value.email, ids[k].value.name;
      var g := groups[m[e]];
      Folded(ids[..k + 1], groups[m[e] := Group(g.names + {n}, g.emails + {e}, g.count + 1)], m, owner)
  {
    var e, n := ids[k].value.email, ids[k].value.name;
    var idx := m[e];
    var g := groups[idx];
    var g' := Group(g.names + {n}, g.emails + {e}, g.count + 1);
    Phase1Unfold(ids, k);
    SumCountsUpdate(groups, idx, g');
    AllOfHas(groups, idx, Emails);
    AllOfHas(groups, idx, Names);
    AllOfUpdate(groups, idx, g', Emails);
    AllOfUpdate(groups, idx, g', Names);
    var groups' := groups[idx := g'];
    forall e2 | e2 in m
      ensures groups'[m[e2]] == Group(NamesWith(ids[..k + 1], e2), {e2}, CountWith(ids[..k + 1], e2))
    {
      FoldKnownEntry(ids, k, groups, m, owner, e2);
    }
  }

  /** The group of each e-mail after a known e-mail joins its group. */
  lemma FoldKnownEntry(ids: seq<Option<Identity>>, k: nat, groups: seq<Group>, m: map<string, nat>, owner: seq<string>, e2: string)
    requires k < |ids| && ids[k].Some? && ids[k].value.email in m
    requires Folded(ids[..k], groups, m, owner)
    requires e2 in m
    ensures var e, n := ids[k].value.email, ids[k].value.name;
      var g := groups[m[e]];
      var groups' := groups[m[e] := Group(g.names + {n}, g.emails + {e}, g.count + 1)];
      groups'[m[e2]] == Group(NamesWith(ids[..k + 1], e2), {e2}, CountWith(ids[..k + 1], e2))
  {
    var e := ids[k].value.email;
    Phase1Unfold(ids, k);
    if e2 != e {
      assert groups[m[e]].emails == {e};
      assert m[e2] != m[e];
    }
  }

  /** An identity with an e-mail not seen before opens a new group. */
  lemma FoldNew(ids: seq<Option<Identity>>, k: nat, groups: seq<Group>, m: map<string, nat>, owner: seq<string>)
    requires k < |ids| && ids[k].Some? && ids[k].value.email !in m
    requires Folded(ids[..k], groups, m, owner)
    ensures var e, n := ids[k].value.email, ids[k].value.name;
      Folded(ids[..k + 1], groups + [Group({n}, {e}, 1)], m[e := |groups|], owner + [e])
  {
    var e, n := ids[k].value.email, ids[k].value.name;
    var g' := Group({n}, {e}, 1);
    Phase1Unfold(ids, k);
    SumCountsSnoc(groups, g');
    AllOfSnoc(groups, g', Emails);
    AllOfSnoc(groups, g', Names);
    Unseen(ids[..k], e);
    var m' := m[e := |groups|];
    var groups' := groups + [g'];
    forall e2 | e2 in m'
      ensures m'[e2] < |groups'| && groups'[m'[e2]] == Group(NamesWith(ids[..k + 1], e2), {e2}, CountWith(ids[..k + 1], e2))
    {
      FoldNewEntry(ids, k, groups, m, owner, e2);
    }
    var owner' := owner + [e];
    forall i | 0 <= i < |groups'|
      ensures owner'[i] in m' && m'[owner'[i]] == i
    {
      if i < |groups| {
        assert owner'[i] == owner[i] && owner[i] in m;
      }
    }
    assert m'.Keys == EmailsIn(ids[..k + 1]);
  }

  /** The group of each e-mail after a new e-mail opens a group. */
  lemma FoldNewEntry(ids: seq<Option<Identity>>, k: nat, groups: seq<Group>, m: map<string, nat>, owner: seq<string>, e2: string)
    requires k < |ids| && ids[k].Some? && ids[k].value.email !in m
    requires Folded(ids[..k], groups, m, owner)
    requires e2 in m[ids[k].value.email := |groups|]
    ensures var e, n := ids[k].value.email, ids[k].value.name;
      var m', groups' := m[e := |groups|], groups + [Group({n}, {e}, 1)];
      m'[e2] < |groups'| && groups'[m'[e2]] == Group(NamesWith(ids[..k + 1], e2), {e2}, CountWith(ids[..k + 1], e2))
  {
    var e, n := ids[k].value.email, ids[k].value.name;
    Phase1Unfold(ids, k);
    if e2 != e {
      assert NamesWith(ids[..k + 1], e2) == NamesWith(ids[..k], e2);
      assert CountWith(ids[..k + 1], e2) == CountWith(ids[..k], e2);
    } else {
      Unseen(ids[..k], e);
    }
  }

  /** A commit without identity changes nothing. */
  lemma FoldSkip(ids: seq<Option<Identity>>, k: nat, groups: seq<Group>, m: map<string, nat>, owner: seq<string>)
    requires k < |ids| && ids[k].None?
    requires Folded(ids[..k], groups, m, owner)
    ensures Folded(ids[..k + 1], groups, m, owner)
  {
    Phase1Unfold(ids, k);
  }

  /** The phase-1 loop: the commits' identities folded into `groups` and
      `email_to_group`. Every e-mail seen owns exactly one group; that group
      holds only this e-mail, the names seen with it and the number of its
      commits. */
  method GroupByEmail(ids: seq<Option<Identity>>) returns (groups: seq<Group>, emailToGroup: map<string, nat>)
    ensures emailToGroup.Keys == EmailsIn(ids)
    ensures forall e :: e in emailToGroup ==>
              emailToGroup[e] < |groups| &&
              groups[emailToGroup[e]] == Group(NamesWith(ids, e), {e}, CountWith(ids, e))
    ensures forall i :: 0 <= i < |groups| ==> i in emailToGroup.Values
    ensures SumCounts(groups) == ValidCount(ids)
    ensures AllOf(groups, Emails) == EmailsIn(ids)
    ensures AllOf(groups, Names) == NamesIn(ids)
    ensures PairwiseDisjoint(groups)
  {
    groups := [];
    emailToGroup := map[];
    ghost var owner: seq<string> := [];
    var k := 0;
    while k < |ids|
      invariant 0 <= k <= |ids|
      invariant Folded(ids[..k], groups, emailToGroup, owner)
    {
      var c := ids[k];
      if c.Some? {
        var e := c.value.email;
        var n := c.value.name;
        if e in emailToGroup {
          FoldKnown(ids, k, groups, emailToGroup, owner);
          var idx := emailToGroup[e];
          var g := groups[idx];
          groups := groups[idx := Group(g.names + {n}, g.emails + {e}, g.count + 1)];
        } else {
          FoldNew(ids, k, groups, emailToGroup, owner);
          emailToGroup := emailToGroup[e := |groups|];
          groups := groups + [Group({n}, {e}, 1)];
          owner := owner + [e];
        }
      } else {
        FoldSkip(ids, k, groups, emailToGroup, owner);
      }
      k := k + 1;
    }
    assert ids[..k] == ids;
    FoldedOwned(ids, groups, emailToGroup, owner);
  }

  /** After the fold every group is owned by its e-mail, so the groups are
      pairwise disjoint and each index is some e-mail's group. */
  lemma FoldedOwned(ids: seq<Option<Identity>>, groups: seq<Group>, m: map<string, nat>, owner: seq<string>)
    requires Folded(ids, groups, m, owner)
    ensures forall i :: 0 <= i < |groups| ==> i in m.Values
    ensures PairwiseDisjoint(groups)
  {
    forall i | 0 <= i < |groups| ensures i in m.Values {
      assert m[owner[i]] == i;
    }
    forall a, b | 0 <= a < b < |groups| ensures groups[a].emails !! groups[b].emails {
      assert groups[a].emails == {owner[a]} && groups[b].emails == {owner[b]};
    }
  }

  // ---------------------------------------------------------------------
  // Phase 2: one pass merging groups that share a two-segment name (lines 39-63)

  /** The two groups share a normalised name of at least two segments. */
  ghost predicate ShareRealName(g: Group, h: Group) {
    exists n :: n in g.names && n in h.names && HasTwoSegments(n)
  }

  ghost function Holders(gs: seq<Group>, n: string, upto: nat): set<nat>
    requires upto <= |gs|
  {
    set k: nat | k < upto && n in gs[k].names
  }

  function Lookup(index: map<string, set<nat>>, n: string): set<nat> {
    if n in index then index[n] else {}
  }

  /** `name_to_indices`: every two-segment name maps to the indices of all
      groups that hold it; no other name is indexed. */
  method IndexRealNames(groups: seq<Group>) returns (index: map<string, set<nat>>)
    ensures forall n :: n in index ==> HasTwoSegments(n) && index[n] != {}
    ensures forall n :: HasTwoSegments(n) ==> Lookup(index, n) == Holders(groups, n, |groups|)
  {
    index := map[];
    var i := 0;
    while i < |groups|
      invariant i <= |groups|
      invariant forall n :: n in index ==> HasTwoSegments(n) && index[n] != {}
      invariant forall n :: HasTwoSegments(n) ==> Lookup(index, n) == Holders(groups, n, i)
    {
      index := IndexGroup(groups, i, index, HasTwoSegments);
      i := i + 1;
    }
  }

  /** The inner loop over the names of group `i`: each name that passes
      `named` (the two-segment test) gets `i` added to its index entry. */
  method IndexGroup(groups: seq<Group>, i: nat, index0: map<string, set<nat>>, named: string -> bool) returns (index: map<string, set<nat>>)
    requires i < |groups|
    requires forall n :: n in index0 ==> named(n) && index0[n] != {}
    requires forall n :: named(n) ==> Lookup(index0, n) == Holders(groups, n, i)
    ensures forall n :: n in index ==> named(n) && index[n] != {}
    ensures forall n :: named(n) ==> Lookup(index, n) == Holders(groups, n, i + 1)
  {
    index := index0;
    var rest := groups[i].names;
    ghost var done: set<string> := {};
    while rest != {}
      invariant rest + done == groups[i].names && rest !! done
      invariant forall n :: n in index ==> named(n) && index[n] != {}
      invariant forall n :: named(n) ==> Lookup(index, n) == Lookup(index0, n) + (if n in done then {i} else {})
      decreases rest
    {
      var n :| n in rest;
      ghost var before := index;
      if named(n) {
        index := index[n := Lookup(index, n) + {i}];
      }
      forall m | named(m)
        ensures Lookup(index, m) == Lookup(index0, m) + (if m in done + {n} then {i} else {})
      {
        if m != n {
          assert Lookup(index, m) == Lookup(before, m);
        }
      }
      rest := rest - {n};
      done := done + {n};
    }
    forall n | named(n)
      ensures Lookup(index, n) == Holders(groups, n, i + 1)
    {
      HoldersSnoc(groups, n, i);
    }
  }

  lemma HoldersSnoc(groups: seq<Group>, n: string, i: nat)
    requires i < |groups|
    ensures Holders(groups, n, i + 1) == Holders(groups, n, i) + (if n in groups[i].names then {i} else {})
  {
  }

  /** The groups holding one of the two-segment names among `names`. */
  ghost function PartnersVia(groups: seq<Group>, names: set<string>): set<nat> {
    set j: nat | j < |groups| && exists n :: n in names && n in groups[j].names && HasTwoSegments(n)
  }

  lemma PartnersViaAdd(groups: seq<Group>, names: set<string>, n: string)
    ensures PartnersVia(groups, names + {n}) ==
            PartnersVia(groups, names) + (if HasTwoSegments(n) then Holders(groups, n, |groups|) else {})
  {
    var l := PartnersVia(groups, names + {n});
    var r := PartnersVia(groups, names) + (if HasTwoSegments(n) then Holders(groups, n, |groups|) else {});
    forall j | j in l ensures j in r {
      var n' :| n' in names + {n} && n' in groups[j].names && HasTwoSegments(n');
      if n' != n { assert j in PartnersVia(groups, names); }
    }
    forall j | j in r ensures j in l {
      if j in PartnersVia(groups, names) {
        var n' :| n' in names && n' in groups[j].names && HasTwoSegments(n');
        assert n' in names + {n};
      } else {
        assert n in names + {n} && n in groups[j].names;
      }
    }
  }

  /** `to_merge` for group `i`: every other group holding one of its two-segment names. */
  method CollectPartners(groups: seq<Group>, index: map<string, set<nat>>, i: nat) returns (toMerge: set<nat>)
    requires i < |groups|
    requires forall n :: HasTwoSegments(n) ==> Lookup(index, n) == Holders(groups, n, |groups|)
    ensures forall j: nat :: j in toMerge <==> j < |groups| && j != i && ShareRealName(groups[i], groups[j])
  {
    toMerge := {};
    var rest := groups[i].names;
    ghost var done: set<string> := {};
    while rest != {}
      invariant rest + done == groups[i].names && rest !! done
      invariant toMerge == PartnersVia(groups, done)
      decreases rest
    {
      var n :| n in rest;
      PartnersViaAdd(groups, done, n);
      if HasTwoSegments(n) {
        toMerge := toMerge + Lookup(index, n);
      }
      rest := rest - {n};
      done := done + {n};
    }
    toMerge := toMerge - {i};
  }

  function SumAlive(gs: seq<Group>, m: seq<bool>): nat
    requires |gs| == |m|
  {
    if gs == [] then 0
    else SumAlive(gs[..|gs| - 1], m[..|m| - 1]) + (if m[|m| - 1] then 0 else gs[|gs| - 1].count)
  }

  /** All names, or all e-mails, of the groups not marked merged. */
  function UnionAlive(gs: seq<Group>, m: seq<bool>, f: Field): set<string>
    requires |gs| == |m|
  {
    if gs == [] then {}
    else UnionAlive(gs[..|gs| - 1], m[..|m| - 1], f) + (if m[|m| - 1] then {} else Proj(gs[|gs| - 1], f))
  }

  ghost predicate AliveDisjoint(gs: seq<Group>, m: seq<bool>)
    requires |gs| == |m|
  {
    forall a, b :: 0 <= a < |gs| && 0 <= b < |gs| && a != b && !m[a] && !m[b] ==> gs[a].emails !! gs[b].emails
  }

  /** `[g for i, g in enumerate(groups) if not merged[i]]` */
  function Survivors(gs: seq<Group>, m: seq<bool>): (s: seq<Group>)
    requires |gs| == |m|
    ensures |s| <= |gs|
  {
    if gs == [] then []
    else Survivors(gs[..|gs| - 1], m[..|m| - 1]) + (if m[|m| - 1] then [] else [gs[|gs| - 1]])
  }

  lemma {:induction false} SumAliveUpdate(gs: seq<Group>, m: seq<bool>, i: nat, x: Group)
    requires |gs| == |m| && i < |gs| && !m[i]
    ensures SumAlive(gs[i := x], m) + gs[i].count == SumAlive(gs, m) + x.count
    decreases |gs|
  {
    var n := |gs| - 1;
    assert gs[i := x][..n] == if i == n then gs[..n] else gs[..n][i := x];
    if i < n {
      SumAliveUpdate(gs[..n], m[..n], i, x);
    }
  }

  lemma {:induction false} SumAliveKill(gs: seq<Group>, m: seq<bool>, j: nat)
    requires |gs| == |m| && j < |gs| && !m[j]
    ensures SumAlive(gs, m[j := true]) + gs[j].count == SumAlive(gs, m)
    decreases |gs|
  {
    var n := |gs| - 1;
    assert m[j := true][..n] == if j == n then m[..n] else m[..n][j := true];
    if j < n {
      SumAliveKill(gs[..n], m[..n], j);
    }
  }

  lemma {:induction false} NoneMerged(gs: seq<Group>)
    ensures SumAlive(gs, seq(|gs|, _ => false)) == SumCounts(gs)
    ensures forall f :: UnionAlive(gs, seq(|gs|, _ => false), f) == AllOf(gs, f)
    decreases |gs|
  {
    if gs != [] {
      var n := |gs| - 1;
      assert seq(|gs|, _ => false)[..n] == seq(n, _ => false);
      NoneMerged(gs[..n]);
    }
  }

  lemma {:induction false} UnionAliveHas(gs: seq<Group>, m: seq<bool>, k: nat, f: Field)
    requires |gs| == |m| && k < |gs| && !m[k]
    ensures Proj(gs[k], f) <= UnionAlive(gs, m, f)
    decreases |gs|
  {
    if k < |gs| - 1 {
      UnionAliveHas(gs[..|gs| - 1], m[..|m| - 1], k, f);
    }
  }

  lemma {:induction false} UnionAliveWitness(gs: seq<Group>, m: seq<bool>, f: Field, y: string) returns (k: nat)
    requires |gs| == |m| && y in UnionAlive(gs, m, f)
    ensures k < |gs| && !m[k] && y in Proj(gs[k], f)
    decreases |gs|
  {
    var n := |gs| - 1;
    if !m[n] && y in Proj(gs[n], f) {
      k := n;
    } else {
      k := UnionAliveWitness(gs[..n], m[..n], f, y);
    }
  }

  lemma {:induction false} UnionAliveUpdate(gs: seq<Group>, m: seq<bool>, i: nat, x: Group, f: Field)
    requires |gs| == |m| && i < |gs| && !m[i] && Proj(gs[i], f) <= Proj(x, f)
    ensures UnionAlive(gs[i := x], m, f) == UnionAlive(gs, m, f) + Proj(x, f)
    decreases |gs|
  {
    var n := |gs| - 1;
    if i == n {
      assert gs[i := x][..n] == gs[..n];
    } else {
      assert gs[i := x][..n] == gs[..n][i := x];
      UnionAliveUpdate(gs[..n], m[..n], i, x, f);
    }
  }

  lemma {:induction false} UnionAliveKill(gs: seq<Group>, m: seq<bool>, j: nat, f: Field)
    requires |gs| == |m| && j < |gs| && !m[j]
    ensures UnionAlive(gs, m[j := true], f) <= UnionAlive(gs, m, f)
    ensures UnionAlive(gs, m, f) <= UnionAlive(gs, m[j := true], f) + Proj(gs[j], f)
    decreases |gs|
  {
    var n := |gs| - 1;
    if j == n {
      assert m[j := true][..n] == m[..n];
    } else {
      assert m[j := true][..n] == m[..n][j := true];
      UnionAliveKill(gs[..n], m[..n], j, f);
    }
  }

  /** Absorbing group `j` into group `i` and marking `j` merged keeps the
      alive count total, the alive names and e-mails, and alive disjointness. */
  lemma AbsorbPreserves(gs: seq<Group>, m: seq<bool>, i: nat, j: nat)
    requires |gs| == |m| && i < |gs| && j < |gs| && i != j && !m[i] && !m[j]
    ensures SumAlive(gs[i := Union2(gs[i], gs[j])], m[j := true]) == SumAlive(gs, m)
    ensures forall f :: UnionAlive(gs[i := Union2(gs[i], gs[j])], m[j := true], f) == UnionAlive(gs, m, f)
    ensures AliveDisjoint(gs, m) ==> AliveDisjoint(gs[i := Union2(gs[i], gs[j])], m[j := true])
  {
    var x := Union2(gs[i], gs[j]);
    var gs' := gs[i := x];
    var m' := m[j := true];
    SumAliveUpdate(gs, m, i, x);
    SumAliveKill(gs', m, j);
    forall f ensures UnionAlive(gs', m', f) == UnionAlive(gs, m, f) {
      UnionAliveHas(gs, m, i, f);
      UnionAliveHas(gs, m, j, f);
      UnionAliveUpdate(gs, m, i, x, f);
      UnionAliveKill(gs', m, j, f);
      UnionAliveHas(gs', m', i, f);
    }
    if AliveDisjoint(gs, m) {
      forall a, b | 0 <= a < |gs'| && 0 <= b < |gs'| && a != b && !m'[a] && !m'[b]
        ensures gs'[a].emails !! gs'[b].emails
      {
        if a == i {
          assert gs[i].emails !! gs[b].emails && gs[j].emails !! gs[b].emails;
        } else if b == i {
          assert gs[a].emails !! gs[i].emails && gs[a].emails !! gs[j].emails;
        }
      }
    }
  }

  lemma {:induction false} SurvivorsAgree(gs: seq<Group>, m: seq<bool>)
    requires |gs| == |m|
    ensures SumCounts(Survivors(gs, m)) == SumAlive(gs, m)
    ensures forall f :: AllOf(Survivors(gs, m), f) == UnionAlive(gs, m, f)
    ensures AliveDisjoint(gs, m) ==> PairwiseDisjoint(Survivors(gs, m))
    decreases |gs|
  {
    if gs != [] {
      var n := |gs| - 1;
      var gi, mi := gs[..n], m[..n];
      SurvivorsAgree(gi, mi);
      var s := Survivors(gi, mi);
      if AliveDisjoint(gs, m) {
        assert AliveDisjoint(gi, mi) by {
          forall a, b | 0 <= a < |gi| && 0 <= b < |gi| && a != b && !mi[a] && !mi[b]
            ensures gi[a].emails !! gi[b].emails
          {
            assert !m[a] && !m[b];
          }
        }
      }
      if !m[n] {
        assert Survivors(gs, m) == s + [gs[n]];
        SumCountsSnoc(s, gs[n]);
        forall f ensures AllOf(s + [gs[n]], f) == AllOf(s, f) + Proj(gs[n], f) {
          AllOfSnoc(s, gs[n], f);
        }
        if AliveDisjoint(gs, m) {
          forall y | y in UnionAlive(gi, mi, Emails) ensures y !in gs[n].emails {
            var k := UnionAliveWitness(gi, mi, Emails, y);
            assert !m[k] && gs[k].emails !! gs[n].emails;
          }
          DisjointSnoc(s, gs[n]);
        }
      } else {
        assert Survivors(gs, m) == s;
      }
    }
  }
  /** The phase-2 state relative to the groups it started from: alive groups
      keep the totals, names and e-mails, and disjointness if there was any. */
  ghost predicate Bridging(groups: seq<Group>, gs: seq<Group>, merged: seq<bool>) {
    && |gs| == |groups| == |merged|
    && SumAlive(gs, merged) == SumCounts(groups)
    && (forall f :: UnionAlive(gs, merged, f) == AllOf(groups, f))
    && (PairwiseDisjoint(groups) ==> AliveDisjoint(gs, merged))
  }

  /** Group `j` shares a two-segment name with some other group. */
  ghost predicate HasPartner(groups: seq<Group>, j: nat)
    requires j < |groups|
  {
    exists k :: 0 <= k < |groups| && k != j && ShareRealName(groups[k], groups[j])
  }

  /** The inner `for j in to_merge` loop: group `i` absorbs every group of
      `toMerge` not merged yet, and exactly those become merged. */
  method AbsorbPartners(ghost groups: seq<Group>, gs: seq<Group>, merged: seq<bool>, i: nat, toMerge: set<nat>)
    returns (gs': seq<Group>, merged': seq<bool>)
    requires Bridging(groups, gs, merged) && i < |gs| && !merged[i] && i !in toMerge
    requires forall j :: j in toMerge ==> j < |gs|
    ensures Bridging(groups, gs', merged')
    ensures !merged'[i]
    ensures forall k :: 0 <= k < |gs| && k != i ==> gs'[k] == gs[k]
    ensures forall j :: 0 <= j < |merged| ==> (merged'[j] <==> merged[j] || j in toMerge)
  {
    gs', merged' := gs, merged;
    var rest := toMerge;
    while rest != {}
      invariant rest <= toMerge
      invariant Bridging(groups, gs', merged') && !merged'[i]
      invariant forall k :: 0 <= k < |gs| && k != i ==> gs'[k] == gs[k]
      invariant forall j :: 0 <= j < |merged| ==> (merged'[j] <==> merged[j] || (j in toMerge && j !in rest))
      decreases rest
    {
      var j :| j in rest;
      if !merged'[j] {
        AbsorbPreserves(gs', merged', i, j);
        gs' := gs'[i := Union2(gs'[i], gs'[j])];
        merged' := merged'[j := true];
      }
      rest := rest - {j};
    }
  }

  /** Phase 2 as written: groups are visited in order; an unmerged group absorbs
      every group that holds one of its two-segment names and is not yet
      merged. Totals, names and e-mails are kept; e-mail-disjoint input stays
      disjoint; a group is merged only when it shares a two-segment name with
      another group, and of two groups sharing one, at least one is merged. */
  method BridgeByName(groups: seq<Group>) returns (survivors: seq<Group>, merged: seq<bool>)
    ensures |merged| == |groups|
    ensures SumCounts(survivors) == SumCounts(groups)
    ensures forall f :: AllOf(survivors, f) == AllOf(groups, f)
    ensures PairwiseDisjoint(groups) ==> PairwiseDisjoint(survivors)
    ensures forall j :: 0 <= j < |groups| && merged[j] ==>
              exists k :: 0 <= k < |groups| && k != j && ShareRealName(groups[k], groups[j])
    ensures forall a, b :: 0 <= a < |groups| && 0 <= b < |groups| && a != b && ShareRealName(groups[a], groups[b]) ==>
              merged[a] || merged[b]
  {
    var index := IndexRealNames(groups);
    var gs := groups;
    merged := seq(|groups|, _ => false);
    NoneMerged(groups);
    var i := 0;
    while i < |gs|
      invariant Bridging(groups, gs, merged) && 0 <= i <= |gs|
      invariant forall k :: i <= k < |gs| ==> gs[k] == groups[k]
      invariant forall j :: 0 <= j < |groups| && merged[j] ==> HasPartner(groups, j)
      invariant forall a, b :: 0 <= a < i && 0 <= b < |groups| && a != b && ShareRealName(groups[a], groups[b]) ==>
                  merged[a] || merged[b]
    {
      if !merged[i] {
        var toMerge := CollectPartners(groups, index, i);
        assert forall j :: j in toMerge ==> HasPartner(groups, j);
        gs, merged := AbsorbPartners(groups, gs, merged, i, toMerge);
      }
      i := i + 1;
    }
    survivors := Survivors(gs, merged);
    SurvivorsAgree(gs, merged);
  }

  // ---------------------------------------------------------------------
  // Phase 3: merge on shared e-mails until a pass changes nothing (lines 65-91)

  /** What `new_groups` and `email_to_index` hold once the groups `seen` have
      been passed over: the same totals, names and e-mails, every e-mail seen
      indexed, and one new group per old group exactly when `seen` is
      pairwise e-mail-disjoint. */
  ghost predicate Passed(seen: seq<Group>, next: seq<Group>, idx: map<string, nat>) {
    && |next| <= |seen|
    && (forall e :: e in idx ==> idx[e] < |next|)
    && idx.Keys == AllOf(next, Emails)
    && SumCounts(next) == SumCounts(seen)
    && AllOf(next, Names) == AllOf(seen, Names)
    && AllOf(next, Emails) == AllOf(seen, Emails)
    && (|next| == |seen| <==> PairwiseDisjoint(seen))
    && (|next| == |seen| ==> next == seen)
  }

  /** A group with an e-mail already indexed joins that e-mail's new group. */
  lemma PassJoin(seen: seq<Group>, next: seq<Group>, idx: map<string, nat>, g: Group, e: string)
    requires Passed(seen, next, idx) && e in g.emails && e in idx
    ensures Passed(seen + [g], next[idx[e] := Union2(next[idx[e]], g)], idx + map x | x in g.emails :: idx[e])
  {
    var t := idx[e];
    var merged := Union2(next[t], g);
    DisjointSnoc(seen, g);
    SumCountsSnoc(seen, g);
    SumCountsUpdate(next, t, merged);
    forall f ensures AllOf(next[t := merged], f) == AllOf(next, f) + Proj(g, f) {
      AllOfHas(next, t, f);
      AllOfUpdate(next, t, merged, f);
    }
    AllOfSnoc(seen, g, Names);
    AllOfSnoc(seen, g, Emails);
  }

  /** A group with no e-mail indexed opens a new group and fills it. */
  lemma PassOpen(seen: seq<Group>, next: seq<Group>, idx: map<string, nat>, g: Group)
    requires Passed(seen, next, idx) && forall e :: e in g.emails ==> e !in idx
    ensures var grown := next + [Group({}, {}, 0)];
      Passed(seen + [g], grown[|next| := Union2(grown[|next|], g)], idx + map x | x in g.emails :: |next|)
  {
    var grown := next + [Group({}, {}, 0)];
    assert Union2(Group({}, {}, 0), g) == g;
    assert grown[|next| := Union2(grown[|next|], g)] == next + [g];
    DisjointSnoc(seen, g);
    SumCountsSnoc(seen, g);
    SumCountsSnoc(next, g);
    AllOfSnoc(seen, g, Names);
    AllOfSnoc(seen, g, Emails);
    AllOfSnoc(next, g, Names);
    AllOfSnoc(next, g, Emails);
  }

  /** One pass of the `while changed` loop. Each group joins the new group of
      one of its e-mails already seen (which one the source finds first depends
      on set order; any is allowed here), or opens a new group. The pass keeps
      totals, names and e-mails; it keeps the number of groups exactly when the
      groups are already pairwise e-mail-disjoint, and then changes nothing. */
  method MergePass(groups: seq<Group>) returns (next: seq<Group>)
    ensures SumCounts(next) == SumCounts(groups)
    ensures forall f :: AllOf(next, f) == AllOf(groups, f)
    ensures |next| <= |groups|
    ensures |next| == |groups| <==> PairwiseDisjoint(groups)
    ensures |next| == |groups| ==> next == groups
  {
    next := [];
    var emailToIndex: map<string, nat> := map[];
    var k := 0;
    ghost var seen: seq<Group> := [];
    while k < |groups|
      invariant 0 <= k <= |groups|
      invariant seen == groups[..k]
      invariant Passed(seen, next, emailToIndex)
    {
      var g := groups[k];
      assert groups[..k + 1] == seen + [g];
      if exists e :: e in g.emails && e in emailToIndex {
        var e :| e in g.emails && e in emailToIndex;
        var target := emailToIndex[e];
        PassJoin(seen, next, emailToIndex, g, e);
        next := next[target := Union2(next[target], g)];
        emailToIndex := emailToIndex + map e | e in g.emails :: target;
      } else {
        var target := |next|;
        PassOpen(seen, next, emailToIndex, g);
        next := next + [Group({}, {}, 0)];
        next := next[target := Union2(next[target], g)];
        emailToIndex := emailToIndex + map e | e in g.emails :: target;
      }
      seen := seen + [g];
      k := k + 1;
    }
    assert groups[..k] == groups;
    assert forall f :: AllOf(next, f) == AllOf(groups, f) by {
      forall f ensures AllOf(next, f) == AllOf(groups, f) {
        if f == Names { } else { }
      }
    }
  }

  /** The `while changed` loop. It terminates because every pass that sets
      `changed` leaves fewer groups; at the end the groups are pairwise
      e-mail-disjoint, and input that already is comes back unchanged. */
  method MergeUntilStable(groups: seq<Group>) returns (result: seq<Group>)
    ensures PairwiseDisjoint(result)
    ensures SumCounts(result) == SumCounts(groups)
    ensures forall f :: AllOf(result, f) == AllOf(groups, f)
    ensures |result| <= |groups|
    ensures PairwiseDisjoint(groups) ==> result == groups
  {
    var gs := groups;
    var changed := true;
    while changed
      invariant SumCounts(gs) == SumCounts(groups)
      invariant forall f :: AllOf(gs, f) == AllOf(groups, f)
      invariant |gs| <= |groups|
      invariant !changed ==> PairwiseDisjoint(gs)
      invariant PairwiseDisjoint(groups) ==> gs == groups
      decreases if changed then |gs| + 1 else 0
    {
      changed := false;
      var next := MergePass(gs);
      if |next| < |gs| {
        changed := true;
      }
      gs := next;
    }
    result := gs;
  }

  // ---------------------------------------------------------------------
  // Classification (lines 93-100)

  predicate IsInternalEmail(e: string) {
    Contains(e, "baidu.com") || Contains(e, "paddle")
  }

  /** `is_baidu`: some e-mail of the group marks the organisation. */
  predicate IsInternal(g: Group) {
    exists e :: e in g.emails && IsInternalEmail(e)
  }

  /** Total number of names over the community groups. */
  function CommunitySize(gs: seq<Group>): nat {
    if gs == [] then 0
    else CommunitySize(gs[..|gs| - 1]) + (if IsInternal(gs[|gs| - 1]) then 0 else |gs[|gs| - 1].names|)
  }

  /** The names of the groups without an organisation e-mail. */
  function CommunityNameSet(gs: seq<Group>): set<string> {
    if gs == [] then {}
    else CommunityNameSet(gs[..|gs| - 1]) + (if IsInternal(gs[|gs| - 1]) then {} else gs[|gs| - 1].names)
  }

  lemma {:induction false} CommunityNameSetMember(gs: seq<Group>, n: string)
    ensures n in CommunityNameSet(gs) <==> exists k :: 0 <= k < |gs| && !IsInternal(gs[k]) && n in gs[k].names
    decreases |gs|
  {
    if gs != [] {
      var m := |gs| - 1;
      CommunityNameSetMember(gs[..m], n);
      if n in CommunityNameSet(gs[..m]) {
        var k :| 0 <= k < m && !IsInternal(gs[..m][k]) && n in gs[..m][k].names;
        assert gs[k] == gs[..m][k];
      }
      if exists k :: 0 <= k < |gs| && !IsInternal(gs[k]) && n in gs[k].names {
        var k :| 0 <= k < |gs| && !IsInternal(gs[k]) && n in gs[k].names;
        if k < m { assert gs[..m][k] == gs[k]; }
      }
    }
  }

  /** `for name in group["names"]: community_dvprs.append(name)`: every name of
      the set is appended once, after what was there. */
  method AppendNames(names: seq<string>, more: set<string>) returns (r: seq<string>)
    ensures |r| == |names| + |more|
    ensures r[..|names|] == names
    ensures forall n :: n in r <==> n in names || n in more
  {
    r := names;
    var rest := more;
    while rest != {}
      invariant rest <= more
      invariant |r| == |names| + |more - rest|
      invariant r[..|names|] == names
      invariant forall n :: n in r <==> n in names || n in more - rest
      decreases rest
    {
      var n :| n in rest;
      assert more - (rest - {n}) == (more - rest) + {n};
      r := r + [n];
      rest := rest - {n};
    }
  }

  /** Every name of every group without an organisation e-mail, each group's
      names listed once (so a name shared by two such groups appears twice). */
  method CommunityNames(groups: seq<Group>) returns (names: seq<string>)
    ensures forall n :: n in names <==> exists k :: 0 <= k < |groups| && !IsInternal(groups[k]) && n in groups[k].names
    ensures |names| == CommunitySize(groups)
  {
    names := [];
    var k := 0;
    while k < |groups|
      invariant 0 <= k <= |groups|
      invariant forall n :: n in names <==> n in CommunityNameSet(groups[..k])
      invariant |names| == CommunitySize(groups[..k])
    {
      var g := groups[k];
      assert groups[..k + 1][..k] == groups[..k];
      if !IsInternal(g) {
        names := AppendNames(names, g.names);
      }
      k := k + 1;
    }
    assert groups[..k] == groups;
    forall n ensures n in names <==> exists k :: 0 <= k < |groups| && !IsInternal(groups[k]) && n in groups[k].names {
      CommunityNameSetMember(groups, n);
    }
  }

  // ---------------------------------------------------------------------
  // get_community_developers

  /** What `get_community_developers` promises about its result: the clusters
      are e-mail-disjoint, count every valid commit, keep every name and
      e-mail, and the community list holds exactly the names of the
      clusters without an organisation e-mail. */
  ghost predicate ClusteredAs(commits: seq<Commit>, community: seq<string>, clusters: seq<Group>) {
    && PairwiseDisjoint(clusters)
    && SumCounts(clusters) == ValidCount(Identities(commits))
    && AllOf(clusters, Emails) == EmailsIn(Identities(commits))
    && AllOf(clusters, Names) == NamesIn(Identities(commits))
    && (forall n :: n in community <==>
          exists k :: 0 <= k < |clusters| && !IsInternal(clusters[k]) && n in clusters[k].names)
  }

  /** The whole pipeline. Besides the community names it returns the final
      clusters: they are pairwise e-mail-disjoint, their counts add up to the
      number of commits with author and e-mail, and together they hold exactly
      the normalised names and e-mails of those commits. */
  method CommunityDevelopers(commits: seq<Commit>) returns (community: seq<string>, clusters: seq<Group>)
    ensures PairwiseDisjoint(clusters)
    ensures SumCounts(clusters) == ValidCount(Identities(commits))
    ensures AllOf(clusters, Emails) == EmailsIn(Identities(commits))
    ensures AllOf(clusters, Names) == NamesIn(Identities(commits))
    ensures forall n :: n in community <==>
              exists k :: 0 <= k < |clusters| && !IsInternal(clusters[k]) && n in clusters[k].names
  {
    var groups, emailToGroup := GroupByEmail(Identities(commits));
    var bridged, merged := BridgeByName(groups);
    clusters := MergeUntilStable(bridged);
    assert clusters == bridged;
    community := CommunityNames(clusters);
  }
}
