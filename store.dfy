/** The incremental store of backend/update_data.py: how freshly fetched
    repositories, issues, pull requests and commits are merged into the
    stored lists, the module counts of a repository, and the weekly batches
    of a synchronisation run. Stored lists are the JSON files' contents as
    values; fetches and classifiers are function parameters. */
module Store {
  import opened Text
  import opened Records
  import opened Dicts
  import IssueFetch

  function NameOf(r: Repo): string { r.fullName }

  function NumberOf(it: Item): int { it.number }

  // ---------------------------------------------------------------------
  // Repositories (update_paddle_repos)

  /** A listed record takes the `domain` of the stored repository of its name, if any. */
  function Carry(r: Repo, stored: Option<Repo>): Repo {
    if stored.Some? then r.(domain := stored.value.domain) else r
  }

  /** `for repo in repos: if repo["full_name"] in repos_now: ...["domain"] = repo["domain"]`. */
  function CarryAll(d: ODict<string, Repo>, stored: seq<Repo>): ODict<string, Repo> {
    if stored == [] then d
    else
      var s := stored[|stored| - 1];
      var p := CarryAll(d, stored[..|stored| - 1]);
      if s.fullName in p.entries then p.Put(s.fullName, p.entries[s.fullName].(domain := s.domain)) else p
  }

  /** Carrying domains changes neither the keys nor their order. */
  lemma {:induction false} CarryAllKeys(d: ODict<string, Repo>, stored: seq<Repo>)
    ensures CarryAll(d, stored).keys == d.keys
    ensures CarryAll(d, stored).entries.Keys == d.entries.Keys
  {
    if stored != [] {
      CarryAllKeys(d, stored[..|stored| - 1]);
    }
  }

  /** Each record ends with the domain of the last stored repository of its name. */
  lemma {:induction false} CarryAllEntry(d: ODict<string, Repo>, stored: seq<Repo>, k: string)
    requires k in d.entries
    ensures k in CarryAll(d, stored).entries
    ensures CarryAll(d, stored).entries[k] == Carry(d.entries[k], LastWith(stored, NameOf, k))
  {
    CarryAllKeys(d, stored);
    if stored != [] {
      var init := stored[..|stored| - 1];
      CarryAllEntry(d, init, k);
      LastWithSnoc(init, stored[|stored| - 1], NameOf, k);
      assert stored == init + [stored[|stored| - 1]];
    }
  }

  /** A record without a truthy domain gets the one computed for it. */
  function Filled(r: Repo, domainOf: (string, Option<string>) -> Option<string>): Repo {
    if Truthy(r.domain) then r else r.(domain := domainOf(r.fullName, r.description))
  }

  /** `for repo in repos_now.values(): if not repo.get("domain"): ...`, over the keys `ks`. */
  function FillAll(d: ODict<string, Repo>, ks: seq<string>, domainOf: (string, Option<string>) -> Option<string>): ODict<string, Repo> {
    if ks == [] then d
    else
      var k := ks[|ks| - 1];
      var p := FillAll(d, ks[..|ks| - 1], domainOf);
      if k in p.entries && !Truthy(p.entries[k].domain) then p.Put(k, Filled(p.entries[k], domainOf)) else p
  }

  lemma FillAllSnoc(d: ODict<string, Repo>, ks: seq<string>, k: string, domainOf: (string, Option<string>) -> Option<string>)
    ensures FillAll(d, ks + [k], domainOf) ==
      var p := FillAll(d, ks, domainOf);
      if k in p.entries && !Truthy(p.entries[k].domain) then p.Put(k, Filled(p.entries[k], domainOf)) else p
  {
    assert (ks + [k])[..|ks|] == ks;
  }

  lemma {:induction false} FillAllKeys(d: ODict<string, Repo>, ks: seq<string>, domainOf: (string, Option<string>) -> Option<string>)
    ensures FillAll(d, ks, domainOf).keys == d.keys
    ensures FillAll(d, ks, domainOf).entries.Keys == d.entries.Keys
  {
    if ks != [] {
      FillAllKeys(d, ks[..|ks| - 1], domainOf);
    }
  }

  /** Filling over keys listed once fills exactly the records of those keys. */
  lemma {:induction false} FillAllEntry(d: ODict<string, Repo>, ks: seq<string>, domainOf: (string, Option<string>) -> Option<string>, k: string)
    requires forall i, j :: 0 <= i < j < |ks| ==> ks[i] != ks[j]
    requires k in d.entries
    ensures k in FillAll(d, ks, domainOf).entries
    ensures FillAll(d, ks, domainOf).entries[k] == if k in ks then Filled(d.entries[k], domainOf) else d.entries[k]
  {
    FillAllKeys(d, ks, domainOf);
    if ks != [] {
      var init := ks[..|ks| - 1];
      FillAllEntry(d, init, domainOf, k);
      assert ks == init + [ks[|ks| - 1]];
    }
  }

  /** The `repos_now` dict once domains are carried and filled. */
  function MergedDict(stored: seq<Repo>, listed: seq<Repo>, domainOf: (string, Option<string>) -> Option<string>): ODict<string, Repo> {
    var carried := CarryAll(Keyed(listed, NameOf), stored);
    FillAll(carried, carried.keys, domainOf)
  }

  /** Carrying and filling keep the listing's keys and their order. */
  lemma MergedDictShape(stored: seq<Repo>, listed: seq<Repo>, domainOf: (string, Option<string>) -> Option<string>)
    ensures MergedDict(stored, listed, domainOf).keys == Keyed(listed, NameOf).keys
    ensures MergedDict(stored, listed, domainOf).entries.Keys == Keyed(listed, NameOf).entries.Keys
    ensures MergedDict(stored, listed, domainOf).Valid()
  {
    var now := Keyed(listed, NameOf);
    var carried := CarryAll(now, stored);
    CarryAllKeys(now, stored);
    FillAllKeys(carried, carried.keys, domainOf);
    now.SameKeysValid(MergedDict(stored, listed, domainOf));
  }

  /** Each listed name ends with its last listed record, carrying the stored
      domain, and filled when that domain is not truthy. */
  lemma MergedDictEntry(stored: seq<Repo>, listed: seq<Repo>, domainOf: (string, Option<string>) -> Option<string>, k: string)
    requires k in Keyed(listed, NameOf).entries
    ensures k in MergedDict(stored, listed, domainOf).entries
    ensures MergedDict(stored, listed, domainOf).entries[k] ==
      Filled(Carry(LastWith(listed, NameOf, k).value, LastWith(stored, NameOf, k)), domainOf)
  {
    var now := Keyed(listed, NameOf);
    var carried := CarryAll(now, stored);
    CarryAllKeys(now, stored);
    CarryAllEntry(now, stored, k);
    assert k in carried.keys;
    FillAllEntry(carried, carried.keys, domainOf, k);
  }

  /** The repository list `update_paddle_repos` writes. */
  function MergedRepos(stored: seq<Repo>, listed: seq<Repo>, domainOf: (string, Option<string>) -> Option<string>): (rs: seq<Repo>)
    ensures |rs| == |Firsts(KeysOf(listed, NameOf))|
  {
    MergedDictShape(stored, listed, domainOf);
    MergedDict(stored, listed, domainOf).Values()
  }

  /** The record at position `i` is the last listed one of the `i`-th name. */
  lemma MergedRepoAt(stored: seq<Repo>, listed: seq<Repo>, domainOf: (string, Option<string>) -> Option<string>, i: int)
    requires 0 <= i < |Firsts(KeysOf(listed, NameOf))|
    ensures var k := Firsts(KeysOf(listed, NameOf))[i];
      && MergedRepos(stored, listed, domainOf)[i].fullName == k
      && LastWith(listed, NameOf, k).Some?
      && MergedRepos(stored, listed, domainOf)[i] == Filled(Carry(LastWith(listed, NameOf, k).value, LastWith(stored, NameOf, k)), domainOf)
  {
    MergedDictShape(stored, listed, domainOf);
    var k := Keyed(listed, NameOf).keys[i];
    assert k in Keyed(listed, NameOf).entries;
    MergedDictEntry(stored, listed, domainOf, k);
  }

  /** The merged list holds each listed name once, in order of first listing. */
  lemma MergedReposKeys(stored: seq<Repo>, listed: seq<Repo>, domainOf: (string, Option<string>) -> Option<string>)
    ensures KeysOf(MergedRepos(stored, listed, domainOf), NameOf) == Firsts(KeysOf(listed, NameOf))
  {
    forall i | 0 <= i < |Firsts(KeysOf(listed, NameOf))|
      ensures MergedRepos(stored, listed, domainOf)[i].fullName == Firsts(KeysOf(listed, NameOf))[i]
    {
      MergedRepoAt(stored, listed, domainOf, i);
    }
  }

  /** The merge as a whole: names once each in order of first listing, each
      record the last listed one with its domain carried or computed. */
  lemma MergedReposMeaning(stored: seq<Repo>, listed: seq<Repo>, domainOf: (string, Option<string>) -> Option<string>)
    ensures KeysOf(MergedRepos(stored, listed, domainOf), NameOf) == Firsts(KeysOf(listed, NameOf))
    ensures forall i :: 0 <= i < |MergedRepos(stored, listed, domainOf)| ==>
      var r := MergedRepos(stored, listed, domainOf)[i];
      LastWith(listed, NameOf, r.fullName).Some? &&
      r == Filled(Carry(LastWith(listed, NameOf, r.fullName).value, LastWith(stored, NameOf, r.fullName)), domainOf)
  {
    MergedReposKeys(stored, listed, domainOf);
    forall i | 0 <= i < |MergedRepos(stored, listed, domainOf)|
      ensures var r := MergedRepos(stored, listed, domainOf)[i];
        LastWith(listed, NameOf, r.fullName).Some? &&
        r == Filled(Carry(LastWith(listed, NameOf, r.fullName).value, LastWith(stored, NameOf, r.fullName)), domainOf)
    {
      MergedRepoAt(stored, listed, domainOf, i);
    }
  }

  /** `update_paddle_repos`: key the listing by full name, carry each stored
      repository's `domain` to the listed record of the same name, then give
      every record still without a truthy domain the one `domainOf` computes
      from its name and description (the README fetch and the domain
      classifier). */
  method UpdateRepos(stored: seq<Repo>, listed: seq<Repo>, domainOf: (string, Option<string>) -> Option<string>)
    returns (repos: seq<Repo>)
    ensures repos == MergedRepos(stored, listed, domainOf)
    ensures KeysOf(repos, NameOf) == Firsts(KeysOf(listed, NameOf))
    ensures forall i :: 0 <= i < |repos| ==>
      var r := repos[i];
      LastWith(listed, NameOf, r.fullName).Some? &&
      r == Filled(Carry(LastWith(listed, NameOf, r.fullName).value, LastWith(stored, NameOf, r.fullName)), domainOf)
  {
    var now := Keyed(listed, NameOf);
    ghost var now0 := now;
    for i := 0 to |stored|
      invariant now == CarryAll(now0, stored[..i])
    {
      assert stored[..i + 1][..i] == stored[..i];
      var name := stored[i].fullName;
      if name in now.entries {
        now := now.Put(name, now.entries[name].(domain := stored[i].domain));
      }
    }
    assert stored[..|stored|] == stored;
    ghost var mid := now;
    var keys := now.keys;
    for i := 0 to |keys|
      invariant now == FillAll(mid, keys[..i], domainOf)
    {
      assert keys[..i + 1] == keys[..i] + [keys[i]];
      FillAllKeys(mid, keys[..i], domainOf);
      CarryAllKeys(now0, stored);
      assert keys[i] in now0.entries;
      var r := now.entries[keys[i]];
      if !Truthy(r.domain) {
        now := now.Put(keys[i], r.(domain := domainOf(r.fullName, r.description)));
      }
      FillAllSnoc(mid, keys[..i], keys[i], domainOf);
    }
    assert keys[..|keys|] == keys;
    MergedDictShape(stored, listed, domainOf);
    repos := now.Values();
    MergedReposMeaning(stored, listed, domainOf);
  }

  // ---------------------------------------------------------------------
  // Issues and pull requests (update_paddle_issues_prs)

  /** The items tagged `t`, in order, with the tag removed. */
  function Untagged(xs: seq<Item>, t: string): (r: seq<Item>)
    ensures |r| <= |xs|
    ensures forall y :: y in r ==> y.tag.None?
  {
    if xs == [] then []
    else
      var x := xs[|xs| - 1];
      Untagged(xs[..|xs| - 1], t) + (if x.tag == Some(t) then [x.(tag := None)] else [])
  }

  /** An item is in the split of tag `t` exactly when an item tagged `t`
      came in with the same fields. */
  lemma {:induction false} UntaggedMember(xs: seq<Item>, t: string, y: Item)
    ensures y in Untagged(xs, t) <==> exists x :: x in xs && x.tag == Some(t) && y == x.(tag := None)
  {
    if xs != [] {
      var init := xs[..|xs| - 1];
      var x := xs[|xs| - 1];
      UntaggedMember(init, t, y);
      assert xs == init + [x];
      if y !in Untagged(xs, t) {
        forall z | z in xs && z.tag == Some(t)
          ensures y != z.(tag := None)
        {
          if z != x {
            assert z in init;
          }
        }
      }
    }
  }

  /** When every item is tagged `"Issue"` or `"PullRequest"`, the split loses nothing. */
  lemma {:induction false} SplitComplete(xs: seq<Item>)
    requires forall i :: 0 <= i < |xs| ==> xs[i].tag == Some(IssueFetch.IssueTag) || xs[i].tag == Some(IssueFetch.PullTag)
    ensures |Untagged(xs, IssueFetch.IssueTag)| + |Untagged(xs, IssueFetch.PullTag)| == |xs|
  {
    if xs != [] {
      SplitComplete(xs[..|xs| - 1]);
    }
  }

  /** The `for item in results` split: `"Issue"` items go to `issues`,
      `"PullRequest"` items to `prs`, each with its `type` popped; items of
      any other type are dropped. */
  method SplitByType(results: seq<Item>) returns (issues: seq<Item>, prs: seq<Item>)
    requires forall i :: 0 <= i < |results| ==> results[i].tag.Some?
    ensures issues == Untagged(results, IssueFetch.IssueTag)
    ensures prs == Untagged(results, IssueFetch.PullTag)
  {
    issues, prs := [], [];
    for i := 0 to |results|
      invariant issues == Untagged(results[..i], IssueFetch.IssueTag)
      invariant prs == Untagged(results[..i], IssueFetch.PullTag)
    {
      assert results[..i + 1][..i] == results[..i];
      var item := results[i];
      if item.tag == Some(IssueFetch.IssueTag) {
        issues := issues + [item.(tag := None)];
      } else if item.tag == Some(IssueFetch.PullTag) {
        prs := prs + [item.(tag := None)];
      }
    }
    assert results[..|results|] == results;
  }

  const Others := "others"

  /** A stored PR replaced by the last incoming record of its number, which
      takes the stored `type` (`"others"` when the stored PR has none). */
  function Replaced(stored: Item, incoming: Option<Item>): Item {
    if incoming.Some? then incoming.value.(tag := Some(stored.tag.GetOr(Others))) else stored
  }

  /** A new PR with the label the classifier gives for its title and body,
      `"others"` when the classifier fails (None). */
  function Classified(pr: Item, classify: (string, Option<string>) -> Option<string>): Item {
    pr.(tag := Some(classify(pr.title, pr.body).GetOr(Others)))
  }

  function ClassifiedBy(classify: (string, Option<string>) -> Option<string>): Item -> Item {
    pr => Classified(pr, classify)
  }

  /** The first loop over incoming PRs on the numbers already stored. */
  function ReplaceAll(d: ODict<int, Item>, prs: seq<Item>): ODict<int, Item> {
    if prs == [] then d
    else
      var pr := prs[|prs| - 1];
      var p := ReplaceAll(d, prs[..|prs| - 1]);
      if pr.number in p.entries then p.Put(pr.number, pr.(tag := Some(p.entries[pr.number].tag.GetOr(Others)))) else p
  }

  lemma {:induction false} ReplaceAllKeys(d: ODict<int, Item>, prs: seq<Item>)
    ensures ReplaceAll(d, prs).keys == d.keys
    ensures ReplaceAll(d, prs).entries.Keys == d.entries.Keys
  {
    if prs != [] {
      ReplaceAllKeys(d, prs[..|prs| - 1]);
    }
  }

  /** A stored number holds its last incoming record with the stored `type`,
      however often the number comes in. */
  lemma {:induction false} ReplaceAllEntry(d: ODict<int, Item>, prs: seq<Item>, k: int)
    requires k in d.entries
    ensures k in ReplaceAll(d, prs).entries
    ensures ReplaceAll(d, prs).entries[k] == Replaced(d.entries[k], LastWith(prs, NumberOf, k))
  {
    ReplaceAllKeys(d, prs);
    if prs != [] {
      var init := prs[..|prs| - 1];
      ReplaceAllEntry(d, init, k);
      LastWithSnoc(init, prs[|prs| - 1], NumberOf, k);
      assert prs == init + [prs[|prs| - 1]];
    }
  }

  /** `new_items`: the incoming PRs whose number is not stored, in order. */
  function Unstored(prs: seq<Item>, stored: set<int>): seq<Item> {
    if prs == [] then []
    else if prs[|prs| - 1].number in stored then Unstored(prs[..|prs| - 1], stored)
    else Unstored(prs[..|prs| - 1], stored) + [prs[|prs| - 1]]
  }

  /** `new_items` holds no stored number. */
  lemma {:induction false} UnstoredStored(prs: seq<Item>, stored: set<int>, k: int)
    requires k in stored
    ensures LastWith(Unstored(prs, stored), NumberOf, k).None?
  {
    if prs != [] {
      var init := prs[..|prs| - 1];
      var pr := prs[|prs| - 1];
      UnstoredStored(init, stored, k);
      if pr.number !in stored {
        LastWithSnoc(Unstored(init, stored), pr, NumberOf, k);
      }
    }
  }

  /** For a number not stored, `new_items` ends with the same record as the batch. */
  lemma {:induction false} UnstoredLast(prs: seq<Item>, stored: set<int>, k: int)
    requires k !in stored
    ensures LastWith(Unstored(prs, stored), NumberOf, k) == LastWith(prs, NumberOf, k)
  {
    if prs != [] {
      var init := prs[..|prs| - 1];
      var pr := prs[|prs| - 1];
      UnstoredLast(init, stored, k);
      assert prs == init + [pr];
      LastWithSnoc(init, pr, NumberOf, k);
      if pr.number !in stored {
        LastWithSnoc(Unstored(init, stored), pr, NumberOf, k);
      }
    }
  }

  /** `new_items` adds the same new numbers, in the same order, as the whole batch. */
  lemma {:induction false} UnstoredKeys(seen: seq<int>, prs: seq<Item>, stored: set<int>)
    requires forall k :: k in seen <==> k in stored
    ensures FreshKeys(seen, KeysOf(Unstored(prs, stored), NumberOf)) == FreshKeys(seen, KeysOf(prs, NumberOf))
  {
    if prs != [] {
      var init := prs[..|prs| - 1];
      var pr := prs[|prs| - 1];
      var u := Unstored(init, stored);
      UnstoredKeys(seen, init, stored);
      assert prs == init + [pr];
      KeysOfSnoc(init, pr, NumberOf);
      if pr.number in stored {
        FreshKeysOld(seen, KeysOf(init, NumberOf), pr.number);
      } else {
        KeysOfSnoc(u, pr, NumberOf);
        UnstoredLast(init, stored, pr.number);
        if pr.number in KeysOf(init, NumberOf) {
          FreshKeysOld(seen, KeysOf(init, NumberOf), pr.number);
          FreshKeysOld(seen, KeysOf(u, NumberOf), pr.number);
        } else {
          FreshKeysNew(seen, KeysOf(init, NumberOf), pr.number);
          FreshKeysNew(seen, KeysOf(u, NumberOf), pr.number);
        }
      }
    }
  }

  /** The `existing_prs` dict after both loops. */
  function MergedPrDict(stored: seq<Item>, prs: seq<Item>, classify: (string, Option<string>) -> Option<string>): ODict<int, Item> {
    var existing := Keyed(stored, NumberOf);
    PutAll(ReplaceAll(existing, prs), Unstored(prs, existing.entries.Keys), NumberOf, ClassifiedBy(classify))
  }

  /** Stored numbers keep their order, new numbers follow in order of first occurrence. */
  lemma MergedPrDictShape(stored: seq<Item>, prs: seq<Item>, classify: (string, Option<string>) -> Option<string>)
    ensures MergedPrDict(stored, prs, classify).Valid()
    ensures MergedPrDict(stored, prs, classify).keys ==
      Firsts(KeysOf(stored, NumberOf)) + FreshKeys(KeysOf(stored, NumberOf), KeysOf(prs, NumberOf))
  {
    var e := Keyed(stored, NumberOf);
    var r := ReplaceAll(e, prs);
    var u := Unstored(prs, e.entries.Keys);
    ReplaceAllKeys(e, prs);
    e.SameKeysValid(r);
    PutAllValid(r, u, NumberOf, ClassifiedBy(classify));
    PutAllKeys(r, u, NumberOf, ClassifiedBy(classify));
    UnstoredKeys(e.keys, prs, e.entries.Keys);
    FreshKeysSeen(e.keys, KeysOf(stored, NumberOf), KeysOf(prs, NumberOf));
  }

  /** What the PR merge stores under a number: the stored PR when the
      number does not come in, the last incoming record with the stored
      `type` when it does, and the last incoming record with its classified
      `type` when the number is new. */
  ghost predicate PrMerged(stored: seq<Item>, prs: seq<Item>, classify: (string, Option<string>) -> Option<string>, r: Item) {
    var incoming := LastWith(prs, NumberOf, r.number);
    var before := LastWith(stored, NumberOf, r.number);
    && (incoming.None? ==> before.Some? && r == before.value)
    && (incoming.Some? && before.Some? ==> r == incoming.value.(tag := Some(before.value.tag.GetOr(Others))))
    && (incoming.Some? && before.None? ==> r == Classified(incoming.value, classify))
  }

  lemma MergedPrEntry(stored: seq<Item>, prs: seq<Item>, classify: (string, Option<string>) -> Option<string>, k: int)
    requires k in MergedPrDict(stored, prs, classify).entries
    ensures MergedPrDict(stored, prs, classify).entries[k].number == k
    ensures PrMerged(stored, prs, classify, MergedPrDict(stored, prs, classify).entries[k])
  {
    var e := Keyed(stored, NumberOf);
    var r := ReplaceAll(e, prs);
    var u := Unstored(prs, e.entries.Keys);
    ReplaceAllKeys(e, prs);
    PutAllEntries(r, u, NumberOf, ClassifiedBy(classify));
    if k in e.entries {
      ReplaceAllEntry(e, prs, k);
      UnstoredStored(prs, e.entries.Keys, k);
    } else {
      UnstoredLast(prs, e.entries.Keys, k);
    }
  }

  /** The PR list `update_paddle_issues_prs` writes. */
  function MergedPrs(stored: seq<Item>, prs: seq<Item>, classify: (string, Option<string>) -> Option<string>): seq<Item> {
    MergedPrDictShape(stored, prs, classify);
    MergedPrDict(stored, prs, classify).Values()
  }

  /** The PR merge as a whole: stored numbers first in their order, new
      numbers after them in order of first occurrence, each record as
      `PrMerged` says. */
  lemma MergedPrsMeaning(stored: seq<Item>, prs: seq<Item>, classify: (string, Option<string>) -> Option<string>)
    ensures KeysOf(MergedPrs(stored, prs, classify), NumberOf) ==
      Firsts(KeysOf(stored, NumberOf)) + FreshKeys(KeysOf(stored, NumberOf), KeysOf(prs, NumberOf))
    ensures forall i :: 0 <= i < |MergedPrs(stored, prs, classify)| ==> PrMerged(stored, prs, classify, MergedPrs(stored, prs, classify)[i])
  {
    var d := MergedPrDict(stored, prs, classify);
    MergedPrDictShape(stored, prs, classify);
    forall i | 0 <= i < |d.keys|
      ensures MergedPrs(stored, prs, classify)[i].number == d.keys[i]
      ensures PrMerged(stored, prs, classify, MergedPrs(stored, prs, classify)[i])
    {
      assert d.keys[i] in d.entries;
      MergedPrEntry(stored, prs, classify, d.keys[i]);
    }
  }

  /** The first PR loop: a stored number takes the incoming record with the
      stored `type`, an unstored one goes to `new_items`. */
  method ReplaceStored(e0: ODict<int, Item>, prs: seq<Item>) returns (existing: ODict<int, Item>, newItems: seq<Item>)
    ensures existing == ReplaceAll(e0, prs)
    ensures newItems == Unstored(prs, e0.entries.Keys)
  {
    existing := e0;
    newItems := [];
    for i := 0 to |prs|
      invariant existing == ReplaceAll(e0, prs[..i])
      invariant newItems == Unstored(prs[..i], e0.entries.Keys)
    {
      assert prs[..i + 1] == prs[..i] + [prs[i]];
      ReplaceAllKeys(e0, prs[..i]);
      var pr := prs[i];
      if pr.number !in existing.entries {
        newItems := newItems + [pr];
      } else {
        var prior := existing.entries[pr.number];
        existing := existing.Put(pr.number, pr.(tag := Some(prior.tag.GetOr(Others))));
      }
    }
    assert prs[..|prs|] == prs;
  }

  /** The second PR loop: each new PR is stored with its classified `type`. */
  method InsertClassified(mid: ODict<int, Item>, newItems: seq<Item>, classify: (string, Option<string>) -> Option<string>)
    returns (existing: ODict<int, Item>)
    ensures existing == PutAll(mid, newItems, NumberOf, ClassifiedBy(classify))
  {
    existing := mid;
    for j := 0 to |newItems|
      invariant existing == PutAll(mid, newItems[..j], NumberOf, ClassifiedBy(classify))
    {
      var pr := newItems[j];
      PutAllSnoc(mid, newItems[..j], pr, NumberOf, ClassifiedBy(classify));
      assert newItems[..j + 1] == newItems[..j] + [pr];
      var kind := classify(pr.title, pr.body);
      existing := existing.Put(pr.number, pr.(tag := Some(kind.GetOr(Others))));
    }
    assert newItems[..|newItems|] == newItems;
  }

  /** The PR half of `update_paddle_issues_prs`: the first loop replaces
      stored numbers and collects `new_items`, the second inserts them with
      their classified `type`. */
  method MergePrs(stored: seq<Item>, prs: seq<Item>, classify: (string, Option<string>) -> Option<string>)
    returns (updated: seq<Item>)
    ensures updated == MergedPrs(stored, prs, classify)
    ensures KeysOf(updated, NumberOf) == Firsts(KeysOf(stored, NumberOf)) + FreshKeys(KeysOf(stored, NumberOf), KeysOf(prs, NumberOf))
    ensures forall i :: 0 <= i < |updated| ==> PrMerged(stored, prs, classify, updated[i])
  {
    var existing := Keyed(stored, NumberOf);
    var newItems;
    existing, newItems := ReplaceStored(existing, prs);
    existing := InsertClassified(existing, newItems, classify);
    MergedPrDictShape(stored, prs, classify);
    updated := existing.Values();
    MergedPrsMeaning(stored, prs, classify);
  }

  /** A list keyed like the stored PRs whose every record follows the merge
      rule for a re-merge of them with `type` popped is the stored list. */
  lemma PrMergeFixed(stored: seq<Item>, incoming: seq<Item>, classify: (string, Option<string>) -> Option<string>, m: seq<Item>)
    requires Distinct(KeysOf(stored, NumberOf))
    requires |incoming| == |stored|
    requires forall i :: 0 <= i < |stored| ==> incoming[i] == stored[i].(tag := None)
    requires forall i :: 0 <= i < |stored| ==> stored[i].tag.Some?
    requires KeysOf(m, NumberOf) == KeysOf(stored, NumberOf)
    requires forall i :: 0 <= i < |m| ==> PrMerged(stored, incoming, classify, m[i])
    ensures m == stored
  {
    assert KeysOf(incoming, NumberOf) == KeysOf(stored, NumberOf);
    forall i | 0 <= i < |stored|
      ensures m[i] == stored[i]
    {
      assert m[i].number == stored[i].number by {
        assert KeysOf(m, NumberOf)[i] == KeysOf(stored, NumberOf)[i];
      }
      LastWithDistinct(stored, NumberOf, i);
      LastWithDistinct(incoming, NumberOf, i);
    }
  }

  /** Merging the stored PRs again, with `type` popped as the split does,
      when every stored PR carries a `type`, gives back the stored list. */
  lemma PrMergeIdempotent(stored: seq<Item>, incoming: seq<Item>, classify: (string, Option<string>) -> Option<string>)
    requires Distinct(KeysOf(stored, NumberOf))
    requires |incoming| == |stored|
    requires forall i :: 0 <= i < |stored| ==> incoming[i] == stored[i].(tag := None)
    requires forall i :: 0 <= i < |stored| ==> stored[i].tag.Some?
    ensures MergedPrs(stored, incoming, classify) == stored
  {
    var ks := KeysOf(stored, NumberOf);
    assert KeysOf(incoming, NumberOf) == ks;
    FirstsDistinct(ks);
    FreshKeysCovered(ks, ks);
    MergedPrsMeaning(stored, incoming, classify);
    PrMergeFixed(stored, incoming, classify, MergedPrs(stored, incoming, classify));
  }

  // The issue merge

  /** The issue list `update_paddle_issues_prs` writes. */
  function MergedIssues(stored: seq<Item>, issues: seq<Item>): seq<Item> {
    IssueDictShape(stored, issues);
    IssueDict(stored, issues).Values()
  }

  /** Insertions after insertions are insertions of the concatenation. */
  lemma {:induction false} PutAllAppend<K(!new), V>(d: ODict<K, V>, a: seq<V>, b: seq<V>, key: V -> K, f: V -> V)
    ensures PutAll(d, a + b, key, f) == PutAll(PutAll(d, a, key, f), b, key, f)
  {
    if b == [] {
      assert a + b == a;
    } else {
      var init := b[..|b| - 1];
      PutAllAppend(d, a, init, key, f);
      assert a + b == (a + init) + [b[|b| - 1]];
      PutAllSnoc(d, a + init, b[|b| - 1], key, f);
    }
  }

  /** The upsert is a rekeying of the stored list followed by the incoming one. */
  lemma UpsertIsRekey(stored: seq<Item>, issues: seq<Item>)
    ensures MergedIssues(stored, issues) == Keyed(stored + issues, NumberOf).Values()
  {
    PutAllAppend(Empty(), stored, issues, NumberOf, Same);
  }

  /** What the issue merge stores under a number: the last incoming issue
      of that number, else the stored one. */
  ghost predicate IssueMerged(stored: seq<Item>, issues: seq<Item>, r: Item) {
    && (LastWith(issues, NumberOf, r.number).Some? ==> r == LastWith(issues, NumberOf, r.number).value)
    && (LastWith(issues, NumberOf, r.number).None? ==> LastWith(stored, NumberOf, r.number) == Some(r))
  }

  function IssueDict(stored: seq<Item>, issues: seq<Item>): ODict<int, Item> {
    PutAll(Keyed(stored, NumberOf), issues, NumberOf, Same)
  }

  lemma IssueEntry(stored: seq<Item>, issues: seq<Item>, k: int)
    requires k in IssueDict(stored, issues).entries
    ensures IssueDict(stored, issues).entries[k].number == k
    ensures IssueMerged(stored, issues, IssueDict(stored, issues).entries[k])
  {
    PutAllEntries(Keyed(stored, NumberOf), issues, NumberOf, Same);
  }

  lemma IssueDictShape(stored: seq<Item>, issues: seq<Item>)
    ensures IssueDict(stored, issues).Valid()
    ensures IssueDict(stored, issues).keys ==
      Firsts(KeysOf(stored, NumberOf)) + FreshKeys(KeysOf(stored, NumberOf), KeysOf(issues, NumberOf))
  {
    var e := Keyed(stored, NumberOf);
    PutAllValid(e, issues, NumberOf, Same);
    PutAllKeys(e, issues, NumberOf, Same);
    FreshKeysSeen(e.keys, KeysOf(stored, NumberOf), KeysOf(issues, NumberOf));
  }

  /** Stored numbers first in their order, new numbers after them in order
      of first occurrence; an incoming issue always wins over the stored one. */
  lemma MergedIssuesMeaning(stored: seq<Item>, issues: seq<Item>)
    ensures KeysOf(MergedIssues(stored, issues), NumberOf) ==
      Firsts(KeysOf(stored, NumberOf)) + FreshKeys(KeysOf(stored, NumberOf), KeysOf(issues, NumberOf))
    ensures forall i :: 0 <= i < |MergedIssues(stored, issues)| ==> IssueMerged(stored, issues, MergedIssues(stored, issues)[i])
  {
    var d := IssueDict(stored, issues);
    IssueDictShape(stored, issues);
    forall i | 0 <= i < |d.keys|
      ensures MergedIssues(stored, issues)[i].number == d.keys[i]
      ensures IssueMerged(stored, issues, MergedIssues(stored, issues)[i])
    {
      assert d.keys[i] in d.entries;
      IssueEntry(stored, issues, d.keys[i]);
    }
  }

  /** The issue half of `update_paddle_issues_prs`: both branches store the incoming issue. */
  method MergeIssues(stored: seq<Item>, issues: seq<Item>) returns (updated: seq<Item>)
    ensures updated == MergedIssues(stored, issues)
    ensures KeysOf(updated, NumberOf) == Firsts(KeysOf(stored, NumberOf)) + FreshKeys(KeysOf(stored, NumberOf), KeysOf(issues, NumberOf))
    ensures forall i :: 0 <= i < |updated| ==> IssueMerged(stored, issues, updated[i])
  {
    var existing := Keyed(stored, NumberOf);
    ghost var e0 := existing;
    for i := 0 to |issues|
      invariant existing == PutAll(e0, issues[..i], NumberOf, Same)
    {
      var item := issues[i];
      PutAllSnoc(e0, issues[..i], item, NumberOf, Same);
      assert issues[..i + 1] == issues[..i] + [item];
      if item.number in existing.entries {
        existing := existing.Put(item.number, item);
      } else {
        existing := existing.Put(item.number, item);
      }
    }
    assert issues[..|issues|] == issues;
    IssueDictShape(stored, issues);
    updated := existing.Values();
    MergedIssuesMeaning(stored, issues);
  }

  /** A list keyed like the stored issues whose every record follows the
      merge rule for a re-merge of them is the stored list. */
  lemma IssueMergeFixed(stored: seq<Item>, m: seq<Item>)
    requires Distinct(KeysOf(stored, NumberOf))
    requires KeysOf(m, NumberOf) == KeysOf(stored, NumberOf)
    requires forall i :: 0 <= i < |m| ==> IssueMerged(stored, stored, m[i])
    ensures m == stored
  {
    forall i | 0 <= i < |stored|
      ensures m[i] == stored[i]
    {
      assert m[i].number == stored[i].number by {
        assert KeysOf(m, NumberOf)[i] == KeysOf(stored, NumberOf)[i];
      }
      LastWithDistinct(stored, NumberOf, i);
    }
  }

  /** Merging the stored issues into themselves changes nothing. */
  lemma IssueMergeIdempotent(stored: seq<Item>)
    requires Distinct(KeysOf(stored, NumberOf))
    ensures MergedIssues(stored, stored) == stored
  {
    var ks := KeysOf(stored, NumberOf);
    FirstsDistinct(ks);
    FreshKeysCovered(ks, ks);
    MergedIssuesMeaning(stored, stored);
    IssueMergeFixed(stored, MergedIssues(stored, stored));
  }
}
