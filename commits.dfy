/** The commit half of the store (backend/update_data.py,
    `update_paddle_commits`): label the fetched commits, then append the
    ones whose `sha` is not stored yet. */
module Commits {
  import opened Text
  import opened Records

  /** A fetched commit after its classification task: the label when the
      classifier returns one, the commit as fetched when it raises (None). */
  function Labelled(c: Commit, labelOf: string -> Option<string>): (r: Commit)
    ensures r.sha == c.sha && r.(whyWhatLabel := c.whyWhatLabel) == c
    ensures labelOf(c.message.GetOr("")).Some? ==> r.whyWhatLabel == labelOf(c.message.GetOr(""))
    ensures labelOf(c.message.GetOr("")).None? ==> r == c
  {
    match labelOf(c.message.GetOr(""))
    case Some(l) => c.(whyWhatLabel := Some(l))
    case None => c
  }

  /** The `sha`s of a commit list. */
  function ShaSet(cs: seq<Commit>): set<string> {
    set c | c in cs :: c.sha
  }

  /** The commits of `batch` whose `sha` is not in `seen`, in batch order. */
  function Unseen(batch: seq<Commit>, seen: set<string>): (r: seq<Commit>)
    ensures |r| <= |batch|
    ensures forall c :: c in r <==> c in batch && c.sha !in seen
  {
    if batch == [] then []
    else if batch[|batch| - 1].sha in seen then Unseen(batch[..|batch| - 1], seen)
    else Unseen(batch[..|batch| - 1], seen) + [batch[|batch| - 1]]
  }

  /** The filter keeps batch order: filtering a concatenation filters each part. */
  lemma {:induction false} UnseenAppend(a: seq<Commit>, b: seq<Commit>, seen: set<string>)
    ensures Unseen(a + b, seen) == Unseen(a, seen) + Unseen(b, seen)
  {
    if b == [] {
      assert a + b == a;
    } else {
      assert (a + b)[..|a + b| - 1] == a + b[..|b| - 1];
      UnseenAppend(a, b[..|b| - 1], seen);
    }
  }

  /** A batch all of whose `sha`s are already seen adds nothing. */
  lemma {:induction false} UnseenNone(batch: seq<Commit>, seen: set<string>)
    requires forall c :: c in batch ==> c.sha in seen
    ensures Unseen(batch, seen) == []
  {
    if batch != [] {
      UnseenNone(batch[..|batch| - 1], seen);
    }
  }

  /** The stored list after the merge. */
  function Merged(existing: seq<Commit>, batch: seq<Commit>): seq<Commit> {
    existing + Unseen(batch, ShaSet(existing))
  }

  /** The stored commits stay a prefix, in order, and a commit is added
      exactly when it comes in with a `sha` not stored before. */
  lemma MergedMeaning(existing: seq<Commit>, batch: seq<Commit>)
    ensures |Merged(existing, batch)| >= |existing|
    ensures Merged(existing, batch)[..|existing|] == existing
    ensures forall c :: c in Merged(existing, batch) <==> c in existing || (c in batch && c.sha !in ShaSet(existing))
  {
    assert Merged(existing, batch)[..|existing|] == existing;
  }

  /** Merging the same batch again leaves the store as it is. */
  lemma MergeIdempotent(existing: seq<Commit>, batch: seq<Commit>)
    ensures Merged(Merged(existing, batch), batch) == Merged(existing, batch)
  {
    var m := Merged(existing, batch);
    forall c | c in batch
      ensures c.sha in ShaSet(m)
    {
      if c.sha !in ShaSet(existing) {
        assert c in m;
      } else {
        var e :| e in existing && e.sha == c.sha;
        assert e in m;
      }
    }
    UnseenNone(batch, ShaSet(m));
  }

  /** The filter is against the stored `sha`s only: a `sha` repeated inside
      one batch is appended as often as it occurs. */
  lemma DuplicatesInBatchKept(c: Commit)
    ensures Merged([], [c, c]) == [c, c]
  {
    assert [c, c][..1] == [c];
    assert [c, c][..0] == [];
  }

  /** The list of labelled commits. */
  function LabelAll(cs: seq<Commit>, labelOf: string -> Option<string>): (r: seq<Commit>)
    ensures |r| == |cs|
    ensures forall i :: 0 <= i < |cs| ==> r[i] == Labelled(cs[i], labelOf)
  {
    seq(|cs|, i requires 0 <= i < |cs| => Labelled(cs[i], labelOf))
  }

  /** Labelling changes no `sha`, so it does not change which commits are
      new: labelling then filtering is filtering then labelling. */
  lemma {:induction false} UnseenLabelled(cs: seq<Commit>, labelOf: string -> Option<string>, seen: set<string>)
    ensures Unseen(LabelAll(cs, labelOf), seen) == LabelAll(Unseen(cs, seen), labelOf)
    ensures |Unseen(LabelAll(cs, labelOf), seen)| == |Unseen(cs, seen)|
  {
    if cs != [] {
      var init := cs[..|cs| - 1];
      var c := cs[|cs| - 1];
      var l := LabelAll(cs, labelOf);
      assert l[..|cs| - 1] == LabelAll(init, labelOf);
      assert l[|cs| - 1].sha == c.sha;
      UnseenLabelled(init, labelOf, seen);
      var u := Unseen(init, seen);
      if c.sha !in seen {
        assert Unseen(cs, seen) == u + [c];
        assert LabelAll(u + [c], labelOf) == LabelAll(u, labelOf) + [Labelled(c, labelOf)];
      } else {
        assert Unseen(cs, seen) == u;
      }
    }
  }

  /** `update_paddle_commits` for one repository: the labelling tasks one
      after another, then the `sha` filter and `extend`. */
  method MergeCommits(existing: seq<Commit>, results: seq<Commit>, labelOf: string -> Option<string>)
    returns (merged: seq<Commit>)
    ensures merged == Merged(existing, LabelAll(results, labelOf))
    ensures merged[..|existing|] == existing
    ensures |merged| == |existing| + |Unseen(results, ShaSet(existing))|
  {
    var labelled := results;
    for i := 0 to |results|
      invariant |labelled| == |results|
      invariant forall k :: 0 <= k < i ==> labelled[k] == Labelled(results[k], labelOf)
      invariant forall k :: i <= k < |results| ==> labelled[k] == results[k]
    {
      var c := labelled[i];
      var l := labelOf(c.message.GetOr(""));
      if l.Some? {
        labelled := labelled[i := c.(whyWhatLabel := l)];
      }
    }
    assert labelled == LabelAll(results, labelOf);
    var shas := set c | c in existing :: c.sha;
    var added := Unseen(labelled, shas);
    merged := existing + added;
    MergedMeaning(existing, labelled);
    UnseenLabelled(results, labelOf, shas);
  }
}
