/** A JavaScript `Map` from strings to strings, as a value: the keys in
    insertion order beside the key-to-value mapping. */
module JsMap {
  import opened Wrappers
  import opened Seqs

  datatype OrderedMap = OrderedMap(keys: seq<string>, values: map<string, string>)
  {
    /** Every key is listed once, and exactly the mapped keys are listed. */
    ghost predicate Valid()
    {
      Distinct(keys) && forall k :: k in values <==> k in keys
    }

    /** `m.size` */
    function Size(): nat { |keys| }

    /** `m.get(k)`, with `undefined` as `None`. */
    function Get(k: string): Option<string>
    {
      if k in values then Some(values[k]) else None
    }

    /** `m.set(k, v)`: a new key goes to the end of the insertion order, an
        existing key keeps its place and takes the new value. */
    function Set(k: string, v: string): (r: OrderedMap)
      ensures r.Get(k) == Some(v)
      ensures forall k' :: k' != k ==> r.Get(k') == Get(k')
      ensures r.keys == if k in values then keys else keys + [k]
    {
      OrderedMap(if k in values then keys else keys + [k], values[k := v])
    }
  }

  /** `set` keeps every key listed once and every mapped key listed. */
  lemma SetValid(m: OrderedMap, k: string, v: string)
    requires m.Valid()
    ensures m.Set(k, v).Valid()
  {
  }

  /** `new Map()` */
  const Empty := OrderedMap([], map[])

  /** `m.set(k, v)` for every pair in order. */
  function SetAll(m: OrderedMap, pairs: seq<(string, string)>): OrderedMap
  {
    if pairs == [] then m
    else
      var (k, v) := pairs[|pairs| - 1];
      SetAll(m, pairs[..|pairs| - 1]).Set(k, v)
  }

  lemma {:induction false} SetAllValid(m: OrderedMap, pairs: seq<(string, string)>)
    requires m.Valid()
    ensures SetAll(m, pairs).Valid()
  {
    if pairs != [] {
      SetAllValid(m, pairs[..|pairs| - 1]);
      SetValid(SetAll(m, pairs[..|pairs| - 1]), pairs[|pairs| - 1].0, pairs[|pairs| - 1].1);
    }
  }

  /** Writing `p` first and then `pairs` is writing `[p] + pairs`. */
  lemma {:induction false} SetAllCons(m: OrderedMap, p: (string, string), pairs: seq<(string, string)>)
    ensures SetAll(m, [p] + pairs) == SetAll(m.Set(p.0, p.1), pairs)
  {
    if pairs != [] {
      SetAllCons(m, p, pairs[..|pairs| - 1]);
      ConsPrefix(p, pairs);
    } else {
      ConsPrefix(p, pairs);
    }
  }

  /** Writing one more pair is one more `set`. */
  lemma SetAllSnoc(m: OrderedMap, pairs: seq<(string, string)>, k: string, v: string)
    ensures SetAll(m, pairs + [(k, v)]) == SetAll(m, pairs).Set(k, v)
  {
    assert (pairs + [(k, v)])[..|pairs|] == pairs;
  }

  /** The keys written by `pairs`, in order, with repetitions. */
  function PairKeys(pairs: seq<(string, string)>): (r: seq<string>)
    ensures |r| == |pairs| && forall j :: 0 <= j < |pairs| ==> r[j] == pairs[j].0
  {
    seq(|pairs|, j requires 0 <= j < |pairs| => pairs[j].0)
  }

  /** After the writes, the map holds the old keys and the written ones;
      the old keys keep their insertion positions, in front. */
  lemma {:induction false} SetAllKeys(m: OrderedMap, pairs: seq<(string, string)>)
    ensures forall k :: k in SetAll(m, pairs).values <==> k in m.values || k in PairKeys(pairs)
    ensures |m.keys| <= |SetAll(m, pairs).keys| && SetAll(m, pairs).keys[..|m.keys|] == m.keys
  {
    if pairs != [] {
      var init := pairs[..|pairs| - 1];
      SetAllKeys(m, init);
      assert PairKeys(pairs) == PairKeys(init) + [pairs[|pairs| - 1].0];
    }
  }

  /** A key that no pair writes keeps its old value (or stays absent). */
  lemma {:induction false} SetAllKeepsUnwritten(m: OrderedMap, pairs: seq<(string, string)>, k: string)
    requires k !in PairKeys(pairs)
    ensures SetAll(m, pairs).Get(k) == m.Get(k)
  {
    if pairs != [] {
      var init := pairs[..|pairs| - 1];
      assert PairKeys(init) == PairKeys(pairs)[..|pairs| - 1];
      SetAllKeepsUnwritten(m, init, k);
    }
  }

  /** Pair `j` is the last one that writes its key. */
  predicate IsLastWrite(pairs: seq<(string, string)>, j: nat)
  {
    j < |pairs| && forall j' :: j < j' < |pairs| ==> pairs[j'].0 != pairs[j].0
  }

  /** The last write of a key decides its value. */
  lemma {:induction false} SetAllLastWriteWins(m: OrderedMap, pairs: seq<(string, string)>, j: nat)
    requires IsLastWrite(pairs, j)
    ensures SetAll(m, pairs).Get(pairs[j].0) == Some(pairs[j].1)
  {
    if j < |pairs| - 1 {
      SetAllLastWriteWins(m, pairs[..|pairs| - 1], j);
    }
  }
}
