/** Sequence helpers shared by the model: concatenation of chunks, the
    clamping rule of `Array.prototype.slice`, counting and de-duplication. */
module Seqs {

  function Min(a: int, b: int): int { if a <= b then a else b }

  function Max(a: int, b: int): int { if a <= b then b else a }

  lemma ConcatAssoc<T>(a: seq<T>, b: seq<T>, c: seq<T>)
    ensures a + b + c == a + (b + c)
  {
  }

  /** Dropping the last element of `[x] + s`. */
  lemma ConsPrefix<T>(x: T, s: seq<T>)
    ensures ([x] + s)[..|s|] == if s == [] then [] else [x] + s[..|s| - 1]
  {
  }

  /** The elements of `s` come after `x` in `[x] + s`. */
  lemma ConsIndex<T>(x: T, s: seq<T>)
    ensures forall i :: 1 <= i <= |s| ==> ([x] + s)[i] == s[i - 1]
  {
  }

  /** All the inner sequences of `ss`, concatenated in order. */
  function Flatten<T>(ss: seq<seq<T>>): seq<T>
  {
    if ss == [] then [] else Flatten(ss[..|ss| - 1]) + ss[|ss| - 1]
  }

  /** Flatten read from the front: the first inner sequence, then the rest. */
  lemma {:induction false} FlattenCons<T>(a: seq<T>, ss: seq<seq<T>>)
    ensures Flatten([a] + ss) == a + Flatten(ss)
  {
    if ss != [] {
      assert ([a] + ss)[..|ss|] == [a] + ss[..|ss| - 1];
      FlattenCons(a, ss[..|ss| - 1]);
    } else {
      assert [a] + ss == [a];
      assert [a][..0] == [];
    }
  }

  /** `s.slice(start, end)` for non-negative bounds: both bounds are clamped
      to the length, and a range that ends before it starts is empty. */
  function Slice<T>(s: seq<T>, start: nat, end: nat): (r: seq<T>)
    ensures start <= |s| ==> |r| == Max(0, Min(end, |s|) - start)
    ensures start <= end <= |s| ==> r == s[start..end]
    ensures start <= |s| <= end ==> r == s[start..]
  {
    var hi := Min(end, |s|);
    if hi <= start then [] else s[start..hi]
  }

  /** Number of occurrences of `x` in `s`. */
  function Count<T(==)>(s: seq<T>, x: T): nat
  {
    if s == [] then 0 else Count(s[..|s| - 1], x) + (if s[|s| - 1] == x then 1 else 0)
  }

  /** Counting distributes over concatenation. */
  lemma {:induction false} CountAppend<T>(a: seq<T>, b: seq<T>, x: T)
    ensures Count(a + b, x) == Count(a, x) + Count(b, x)
  {
    if b != [] {
      assert (a + b)[..|a + b| - 1] == a + b[..|b| - 1];
      CountAppend(a, b[..|b| - 1], x);
    } else {
      assert a + b == a;
    }
  }

  ghost predicate Distinct<T>(s: seq<T>)
  {
    forall i, j :: 0 <= i < j < |s| ==> s[i] != s[j]
  }

  /** Position of the first occurrence of `x` in `s`. */
  function FirstIndex<T(==)>(s: seq<T>, x: T): (r: nat)
    requires x in s
    ensures r < |s| && s[r] == x
    ensures forall k :: 0 <= k < r ==> s[k] != x
  {
    if s[0] == x then 0 else 1 + FirstIndex(s[1..], x)
  }

  /** The elements of `s` in the order of their first appearance, each once. */
  function Dedup<T(==, !new)>(s: seq<T>): (r: seq<T>)
    ensures Distinct(r)
    ensures forall x :: x in r <==> x in s
  {
    if s == [] then []
    else
      var d := Dedup(s[..|s| - 1]);
      assert s == s[..|s| - 1] + [s[|s| - 1]];
      if s[|s| - 1] in d then d else d + [s[|s| - 1]]
  }

  /** Dedup keeps first-appearance order: of two kept elements, the one
      that comes first first appears earlier in `s`. */
  lemma {:induction false} DedupKeepsFirstAppearanceOrder<T(!new)>(s: seq<T>)
    ensures forall i, j :: 0 <= i < j < |Dedup(s)| ==>
              FirstIndex(s, Dedup(s)[i]) < FirstIndex(s, Dedup(s)[j])
  {
    if s != [] {
      var init, last := s[..|s| - 1], s[|s| - 1];
      assert s == init + [last];
      DedupKeepsFirstAppearanceOrder(init);
      var d := Dedup(init);
      forall x | x in init
        ensures FirstIndex(s, x) == FirstIndex(init, x)
      {
        var k := FirstIndex(init, x);
        assert s[k] == x;
      }
      if last !in d {
        assert FirstIndex(s, last) == |init|;
      }
    }
  }
}
