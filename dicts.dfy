/** A Python `dict` as a value: a map together with the order in which its
    keys were first inserted, which is the order `dict.values()` lists. */
module Dicts {
  import opened Text

  datatype ODict<K(==), V> = ODict(keys: seq<K>, entries: map<K, V>) {

    /** Keys are listed once each, and exactly the keys of the map are listed. */
    ghost predicate Valid() {
      && (forall i, j :: 0 <= i < j < |keys| ==> keys[i] != keys[j])
      && entries.Keys == set k | k in keys
    }

    /** `d[k] = v`: a new key goes to the end, an existing key keeps its place. */
    function Put(k: K, v: V): (d: ODict<K, V>)
      ensures d.entries == entries[k := v]
      ensures k in entries ==> d.keys == keys
      ensures k !in entries ==> d.keys == keys + [k]
    {
      if k in entries then ODict(keys, entries[k := v]) else ODict(keys + [k], entries[k := v])
    }

    /** Validity depends only on the key order and the map's key set. */
    lemma SameKeysValid(e: ODict<K, V>)
      requires Valid() && e.keys == keys && e.entries.Keys == entries.Keys
      ensures e.Valid()
    {
    }

    /** Insertion keeps keys listed once and in step with the map. */
    lemma PutValid(k: K, v: V)
      requires Valid()
      ensures Put(k, v).Valid()
    {
    }

    /** `list(d.values())`. */
    function Values(): (vs: seq<V>)
      requires Valid()
      ensures |vs| == |keys|
      ensures forall i :: 0 <= i < |keys| ==> vs[i] == entries[keys[i]]
    {
      seq(|keys|, i requires 0 <= i < |keys| => entries[keys[i]])
    }
  }

  function Empty<K, V>(): (d: ODict<K, V>)
    ensures d.Valid() && d.keys == [] && d.entries == map[]
  {
    ODict([], map[])
  }

  /** The key of every element, in order. */
  function KeysOf<K, V>(xs: seq<V>, key: V -> K): (ks: seq<K>)
    ensures |ks| == |xs|
    ensures forall i :: 0 <= i < |xs| ==> ks[i] == key(xs[i])
  {
    seq(|xs|, i requires 0 <= i < |xs| => key(xs[i]))
  }

  lemma KeysOfSnoc<K, V>(xs: seq<V>, x: V, key: V -> K)
    ensures KeysOf(xs + [x], key) == KeysOf(xs, key) + [key(x)]
  {
  }

  /** The last element of `xs` whose key is `k`: the value a dict
      comprehension or a sequence of `d[key(x)] = x` leaves under `k`. */
  function LastWith<K(==, !new), V>(xs: seq<V>, key: V -> K, k: K): (r: Option<V>)
    ensures r.Some? <==> k in KeysOf(xs, key)
    ensures r.Some? ==> r.value in xs && key(r.value) == k
  {
    if xs == [] then None
    else if key(xs[|xs| - 1]) == k then Some(xs[|xs| - 1])
    else
      var r := LastWith(xs[..|xs| - 1], key, k);
      assert KeysOf(xs, key) == KeysOf(xs[..|xs| - 1], key) + [key(xs[|xs| - 1])];
      r
  }

  lemma LastWithSnoc<K(!new), V>(xs: seq<V>, x: V, key: V -> K, k: K)
    ensures LastWith(xs + [x], key, k) == if key(x) == k then Some(x) else LastWith(xs, key, k)
  {
    assert (xs + [x])[..|xs|] == xs;
  }

  /** The keys of `ks` that are not in `seen`, each once, in order of first
      occurrence: the keys a sequence of insertions adds to a dict that
      already holds `seen`. */
  function FreshKeys<K(==, !new)>(seen: seq<K>, ks: seq<K>): (r: seq<K>)
    ensures forall k :: k in r <==> k in ks && k !in seen
  {
    if ks == [] then []
    else
      var k := ks[|ks| - 1];
      var init := ks[..|ks| - 1];
      assert ks == init + [k];
      FreshKeys(seen, init) + (if k in seen || k in init then [] else [k])
  }

  /** Inserting a key already held or already inserted adds nothing. */
  lemma FreshKeysOld<K(!new)>(seen: seq<K>, ks: seq<K>, k: K)
    requires k in seen || k in ks
    ensures FreshKeys(seen, ks + [k]) == FreshKeys(seen, ks)
  {
    assert (ks + [k])[..|ks|] == ks;
  }

  /** Inserting a key not yet held appends it. */
  lemma FreshKeysNew<K(!new)>(seen: seq<K>, ks: seq<K>, k: K)
    requires k !in seen && k !in ks
    ensures FreshKeys(seen, ks + [k]) == FreshKeys(seen, ks) + [k]
  {
    assert (ks + [k])[..|ks|] == ks;
  }

  /** Every key is listed once. */
  lemma {:induction false} FreshKeysDistinct<K(!new)>(seen: seq<K>, ks: seq<K>)
    ensures forall i, j :: 0 <= i < j < |FreshKeys(seen, ks)| ==> FreshKeys(seen, ks)[i] != FreshKeys(seen, ks)[j]
  {
    if ks != [] {
      FreshKeysDistinct(seen, ks[..|ks| - 1]);
    }
  }

  /** Insertions of keys already held add none. */
  lemma {:induction false} FreshKeysCovered<K(!new)>(seen: seq<K>, ks: seq<K>)
    requires forall k :: k in ks ==> k in seen
    ensures FreshKeys(seen, ks) == []
  {
    if ks != [] {
      FreshKeysCovered(seen, ks[..|ks| - 1]);
    }
  }

  /** Only which keys `seen` holds matters, not their order or repetition. */
  lemma {:induction false} FreshKeysSeen<K(!new)>(seen: seq<K>, seen': seq<K>, ks: seq<K>)
    requires forall k :: k in seen <==> k in seen'
    ensures FreshKeys(seen, ks) == FreshKeys(seen', ks)
  {
    if ks != [] {
      FreshKeysSeen(seen, seen', ks[..|ks| - 1]);
    }
  }

  /** The distinct keys of `ks` in order of first occurrence. */
  function Firsts<K(==, !new)>(ks: seq<K>): (r: seq<K>)
    ensures forall k :: k in r <==> k in ks
  {
    FreshKeys([], ks)
  }

  /** No key is listed twice. */
  predicate Distinct<K(==)>(ks: seq<K>) {
    forall i, j :: 0 <= i < j < |ks| ==> ks[i] != ks[j]
  }

  /** Keys already distinct are their own first occurrences. */
  lemma {:induction false} FirstsDistinct<K(!new)>(ks: seq<K>)
    requires Distinct(ks)
    ensures Firsts(ks) == ks
  {
    if ks != [] {
      var init := ks[..|ks| - 1];
      assert ks == init + [ks[|ks| - 1]];
      FirstsDistinct(init);
    }
  }

  /** With keys listed once, each element is the last one with its key. */
  lemma {:induction false} LastWithDistinct<K(!new), V>(xs: seq<V>, key: V -> K, i: int)
    requires Distinct(KeysOf(xs, key)) && 0 <= i < |xs|
    ensures LastWith(xs, key, key(xs[i])) == Some(xs[i])
  {
    if i < |xs| - 1 {
      var init := xs[..|xs| - 1];
      assert key(xs[|xs| - 1]) != key(xs[i]) by {
        assert KeysOf(xs, key)[i] != KeysOf(xs, key)[|xs| - 1];
      }
      assert Distinct(KeysOf(init, key)) by {
        forall a, b | 0 <= a < b < |init|
          ensures KeysOf(init, key)[a] != KeysOf(init, key)[b]
        {
          assert KeysOf(xs, key)[a] != KeysOf(xs, key)[b];
        }
      }
      LastWithDistinct(init, key, i);
    }
  }

  /** `{key(x): x for x in xs}`: a key sits where it first occurs and holds
      the last element with that key. */
  function Keyed<K(==, !new), V>(xs: seq<V>, key: V -> K): (d: ODict<K, V>)
    ensures d.Valid()
    ensures d.keys == Firsts(KeysOf(xs, key))
    ensures forall k :: k in d.entries <==> LastWith(xs, key, k).Some?
    ensures forall k :: k in d.entries ==> d.entries[k] == LastWith(xs, key, k).value
  {
    var e: ODict<K, V> := Empty();
    PutAllValid(e, xs, key, Same);
    PutAllKeys(e, xs, key, Same);
    PutAllEntries(e, xs, key, Same);
    assert e.keys + FreshKeys(e.keys, KeysOf(xs, key)) == Firsts(KeysOf(xs, key));
    PutAll(e, xs, key, Same)
  }

  function Same<V>(v: V): V { v }

  /** `for x in xs: d[key(x)] = f(x)`. */
  function PutAll<K(==, !new), V>(d: ODict<K, V>, xs: seq<V>, key: V -> K, f: V -> V): ODict<K, V> {
    if xs == [] then d
    else
      var x := xs[|xs| - 1];
      PutAll(d, xs[..|xs| - 1], key, f).Put(key(x), f(x))
  }

  lemma PutAllSnoc<K(!new), V>(d: ODict<K, V>, xs: seq<V>, x: V, key: V -> K, f: V -> V)
    ensures PutAll(d, xs + [x], key, f) == PutAll(d, xs, key, f).Put(key(x), f(x))
  {
    assert (xs + [x])[..|xs|] == xs;
  }

  lemma {:induction false} PutAllValid<K(!new), V>(d: ODict<K, V>, xs: seq<V>, key: V -> K, f: V -> V)
    requires d.Valid()
    ensures PutAll(d, xs, key, f).Valid()
  {
    if xs != [] {
      var x := xs[|xs| - 1];
      PutAllValid(d, xs[..|xs| - 1], key, f);
      PutAll(d, xs[..|xs| - 1], key, f).PutValid(key(x), f(x));
    }
  }

  /** After the insertions, new keys follow the old ones in order of first
      occurrence. */
  lemma {:induction false} PutAllKeys<K(!new), V>(d: ODict<K, V>, xs: seq<V>, key: V -> K, f: V -> V)
    requires forall k :: k in d.entries <==> k in d.keys
    ensures PutAll(d, xs, key, f).keys == d.keys + FreshKeys(d.keys, KeysOf(xs, key))
  {
    if xs != [] {
      var x := xs[|xs| - 1];
      var init := xs[..|xs| - 1];
      PutAllKeys(d, init, key, f);
      PutAllHas(d, init, key, f, key(x));
      assert xs == init + [x];
      PutAllSnoc(d, init, x, key, f);
      KeysOfSnoc(init, x, key);
      PutKeysStep(PutAll(d, init, key, f), d.keys, KeysOf(init, key), key(x), f(x));
    }
  }

  /** One insertion extends the key order as `FreshKeys` does. */
  lemma PutKeysStep<K(!new), V>(prev: ODict<K, V>, seen: seq<K>, ks: seq<K>, k: K, v: V)
    requires prev.keys == seen + FreshKeys(seen, ks)
    requires k in prev.entries <==> k in seen || k in ks
    ensures prev.Put(k, v).keys == seen + FreshKeys(seen, ks + [k])
  {
    if k in prev.entries {
      FreshKeysOld(seen, ks, k);
    } else {
      FreshKeysNew(seen, ks, k);
      assert seen + (FreshKeys(seen, ks) + [k]) == prev.keys + [k];
    }
  }

  /** The keys after the insertions are the old keys and the elements' keys. */
  lemma {:induction false} PutAllHas<K(!new), V>(d: ODict<K, V>, xs: seq<V>, key: V -> K, f: V -> V, k: K)
    ensures k in PutAll(d, xs, key, f).entries <==> k in d.entries || k in KeysOf(xs, key)
  {
    if xs != [] {
      var x := xs[|xs| - 1];
      var init := xs[..|xs| - 1];
      PutAllHas(d, init, key, f, k);
      assert xs == init + [x];
      PutAllSnoc(d, init, x, key, f);
      KeysOfSnoc(init, x, key);
    }
  }

  /** A key holds the image of its last element, or its old value when no
      element has that key. */
  lemma {:induction false} PutAllEntries<K(!new), V>(d: ODict<K, V>, xs: seq<V>, key: V -> K, f: V -> V)
    requires d.Valid()
    ensures forall k :: k in PutAll(d, xs, key, f).entries <==> k in d.entries || LastWith(xs, key, k).Some?
    ensures forall k :: k in PutAll(d, xs, key, f).entries ==>
      PutAll(d, xs, key, f).entries[k] == (if LastWith(xs, key, k).Some? then f(LastWith(xs, key, k).value) else d.entries[k])
  {
    if xs != [] {
      var x := xs[|xs| - 1];
      var init := xs[..|xs| - 1];
      PutAllEntries(d, init, key, f);
      assert xs == init + [x];
      forall k {
        LastWithSnoc(init, x, key, k);
      }
    }
  }
}
