/**
 * Sequence operations shared by the models: order-preserving filtering (a list
 * comprehension with an `if`), mapping, concatenation and the counting fold of
 * Python's `collections.Counter`.
 */
module Collections {

  function Min(a: int, b: int): int { if a <= b then a else b }

  /** `a` is an order-preserving sub-list of `b`: `b` with some elements removed. */
  predicate IsSubseq<T(==)>(a: seq<T>, b: seq<T>)
    decreases |b|
  {
    a == [] || (b != [] && ((a[0] == b[0] && IsSubseq(a[1..], b[1..])) || IsSubseq(a, b[1..])))
  }

  /** `[x for x in s if p(x)]`. */
  function Filter<T(!new)>(p: T -> bool, s: seq<T>): (r: seq<T>)
    ensures |r| <= |s|
    ensures forall i :: 0 <= i < |r| ==> p(r[i])
    decreases |s|
  {
    if s == [] then []
    else if p(s[0]) then [s[0]] + Filter(p, s[1..])
    else Filter(p, s[1..])
  }

  /**
   * The filter keeps every element that passes as often as it occurs and no
   * other element, in the original order.
   */
  lemma {:induction false} FilterSpec<T(!new)>(p: T -> bool, s: seq<T>)
    ensures forall x :: multiset(Filter(p, s))[x] == if p(x) then multiset(s)[x] else 0
    ensures IsSubseq(Filter(p, s), s)
    decreases |s|
  {
    if s != [] {
      FilterSpec(p, s[1..]);
      var rest := Filter(p, s[1..]);
      assert s == [s[0]] + s[1..];
      if p(s[0]) {
        assert ([s[0]] + rest)[1..] == rest;
      }
    }
  }

  lemma {:induction false} FilterConcat<T(!new)>(p: T -> bool, a: seq<T>, b: seq<T>)
    ensures Filter(p, a + b) == Filter(p, a) + Filter(p, b)
    decreases |a|
  {
    if a == [] {
      assert a + b == b;
    } else {
      assert (a + b)[1..] == a[1..] + b;
      FilterConcat(p, a[1..], b);
    }
  }

  lemma FilterSnoc<T(!new)>(p: T -> bool, a: seq<T>, x: T)
    ensures Filter(p, a + [x]) == Filter(p, a) + (if p(x) then [x] else [])
  {
    FilterConcat(p, a, [x]);
    assert Filter(p, [x]) == if p(x) then [x] else [];
  }

  /** Filtering depends on the elements and their multiplicities only through which of them pass. */
  lemma FilterMultiset<T(!new)>(p: T -> bool, a: seq<T>, b: seq<T>)
    requires multiset(a) == multiset(b)
    ensures multiset(Filter(p, a)) == multiset(Filter(p, b))
  {
    FilterSpec(p, a);
    FilterSpec(p, b);
    var fa, fb := Filter(p, a), Filter(p, b);
    assert forall x :: multiset(fa)[x] == multiset(fb)[x];
  }

  /** A filter whose predicate no element of `s` meets is empty; one that every element meets is the identity. */
  lemma {:induction false} FilterNone<T(!new)>(p: T -> bool, s: seq<T>)
    requires forall i :: 0 <= i < |s| ==> !p(s[i])
    ensures Filter(p, s) == []
    decreases |s|
  {
    if s != [] {
      FilterNone(p, s[1..]);
    }
  }

  lemma {:induction false} FilterAll<T(!new)>(p: T -> bool, s: seq<T>)
    requires forall i :: 0 <= i < |s| ==> p(s[i])
    ensures Filter(p, s) == s
    decreases |s|
  {
    if s != [] {
      FilterAll(p, s[1..]);
    }
  }

  /** The predicate "field `f` equals `k`", as one function value for every use. */
  function Select<T(!new), K(==)>(f: T -> K, k: K): (p: T -> bool)
    ensures forall x :: p(x) == (f(x) == k)
  {
    x => f(x) == k
  }

  function MapSeq<T, U>(f: T -> U, s: seq<T>): (r: seq<U>)
    ensures |r| == |s| && forall i :: 0 <= i < |s| ==> r[i] == f(s[i])
    decreases |s|
  {
    if s == [] then [] else [f(s[0])] + MapSeq(f, s[1..])
  }

  /** The number of occurrences of `k` among the `f`-values of `s` is the length of the `f == k` filter. */
  lemma {:induction false} CountMapped<T(!new), K>(f: T -> K, s: seq<T>, k: K)
    ensures multiset(MapSeq(f, s))[k] == |Filter(Select(f, k), s)|
    decreases |s|
  {
    if s != [] {
      CountMapped(f, s[1..], k);
      assert MapSeq(f, s) == [f(s[0])] + MapSeq(f, s[1..]);
    }
  }

  function Concat<T>(xs: seq<seq<T>>): (r: seq<T>)
    decreases |xs|
  {
    if xs == [] then [] else xs[0] + Concat(xs[1..])
  }

  /** A sequence is the concatenation of its pieces around two cut points. */
  lemma Pieces<T>(s: seq<T>, i: int, j: int)
    requires 0 <= i <= j <= |s|
    ensures s == s[..i] + s[i..j] + s[j..]
  {
  }

  /** Where an index of `a + b` lands. */
  lemma AppendIndex<T>(a: seq<T>, b: seq<T>, k: int)
    requires 0 <= k < |a| + |b|
    ensures (a + b)[k] == if k < |a| then a[k] else b[k - |a|]
  {
  }

  lemma {:induction false} ConcatAppend<T>(xs: seq<seq<T>>, ys: seq<seq<T>>)
    ensures Concat(xs + ys) == Concat(xs) + Concat(ys)
    decreases |xs|
  {
    if xs == [] {
      assert xs + ys == ys;
    } else {
      assert (xs + ys)[1..] == xs[1..] + ys;
      ConcatAppend(xs[1..], ys);
    }
  }

  lemma {:induction false} ConcatSnoc<T>(xs: seq<seq<T>>, x: seq<T>)
    ensures Concat(xs + [x]) == Concat(xs) + x
    decreases |xs|
  {
    if xs == [] {
      assert Concat([x]) == x + Concat([]);
    } else {
      assert (xs + [x])[1..] == xs[1..] + [x];
      ConcatSnoc(xs[1..], x);
    }
  }

  // ---------------------------------------------------------------------------
  // Counter: an ordered association list from key to count, keys in order of
  // first occurrence (the order of `dict(Counter(keys))`).
  // ---------------------------------------------------------------------------

  type Counts<K> = seq<(K, nat)>

  function KeySet<K(==)>(al: Counts<K>): set<K>
    decreases |al|
  {
    if al == [] then {} else {al[0].0} + KeySet(al[1..])
  }

  /** No key is listed twice. */
  predicate DistinctKeys<K(==)>(al: Counts<K>)
    decreases |al|
  {
    al == [] || (al[0].0 !in KeySet(al[1..]) && DistinctKeys(al[1..]))
  }

  /** `counts.get(k, 0)`. */
  function CountOf<K(==)>(al: Counts<K>, k: K): nat
    decreases |al|
  {
    if al == [] then 0 else if al[0].0 == k then al[0].1 else CountOf(al[1..], k)
  }

  predicate Positive<K>(al: Counts<K>) {
    forall i :: 0 <= i < |al| ==> al[i].1 > 0
  }

  function SumCounts<K>(al: Counts<K>): nat
    decreases |al|
  {
    if al == [] then 0 else al[0].1 + SumCounts(al[1..])
  }

  /** `counts[k] += 1`, appending `(k, 1)` for a new key. */
  function Bump<K(==)>(al: Counts<K>, k: K): (r: Counts<K>)
    decreases |al|
  {
    if al == [] then [(k, 1)]
    else if al[0].0 == k then [(k, al[0].1 + 1)] + al[1..]
    else [al[0]] + Bump(al[1..], k)
  }

  lemma {:induction false} BumpSpec<K>(al: Counts<K>, k: K)
    requires DistinctKeys(al)
    ensures DistinctKeys(Bump(al, k))
    ensures KeySet(Bump(al, k)) == KeySet(al) + {k}
    ensures forall x :: CountOf(Bump(al, k), x) == CountOf(al, x) + (if x == k then 1 else 0)
    ensures SumCounts(Bump(al, k)) == SumCounts(al) + 1
    ensures Positive(al) ==> Positive(Bump(al, k))
    decreases |al|
  {
    if al != [] {
      var r := Bump(al, k);
      assert r[1..] == if al[0].0 == k then al[1..] else Bump(al[1..], k);
      if al[0].0 != k {
        BumpSpec(al[1..], k);
      }
    }
  }

  /** The fold of `Counter`: feed `keys` one by one into the counts `acc`. */
  function TallyInto<K(==)>(acc: Counts<K>, keys: seq<K>): Counts<K>
    decreases |keys|
  {
    if keys == [] then acc else TallyInto(Bump(acc, keys[0]), keys[1..])
  }

  lemma {:induction false} TallyIntoSpec<K>(acc: Counts<K>, keys: seq<K>)
    requires DistinctKeys(acc)
    ensures DistinctKeys(TallyInto(acc, keys))
    ensures forall k :: k in KeySet(TallyInto(acc, keys)) <==> k in KeySet(acc) || k in keys
    ensures forall x :: CountOf(TallyInto(acc, keys), x) == CountOf(acc, x) + multiset(keys)[x]
    ensures SumCounts(TallyInto(acc, keys)) == SumCounts(acc) + |keys|
    ensures Positive(acc) ==> Positive(TallyInto(acc, keys))
    decreases |keys|
  {
    if keys != [] {
      BumpSpec(acc, keys[0]);
      TallyIntoSpec(Bump(acc, keys[0]), keys[1..]);
      assert keys == [keys[0]] + keys[1..];
    }
  }

  /**
   * `dict(Counter(keys))`: every distinct key once, mapped to its number of
   * occurrences; every count is positive and the counts add up to `|keys|`.
   */
  function Tally<K(==,!new)>(keys: seq<K>): (r: Counts<K>)
    ensures DistinctKeys(r)
    ensures forall k :: k in KeySet(r) <==> k in keys
    ensures forall k :: CountOf(r, k) == multiset(keys)[k]
    ensures forall i :: 0 <= i < |r| ==> r[i].1 > 0
    ensures SumCounts(r) == |keys|
  {
    TallyIntoSpec([], keys);
    TallyInto([], keys)
  }
}
