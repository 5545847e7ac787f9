/**
 * The random choices of `random.sample` and `random.shuffle`, taken from an
 * explicit stream of numbers instead of Python's hidden generator state. Every
 * draw consumes one number of the stream (an exhausted stream keeps yielding
 * 0), so any outcome of the Python calls is the outcome for some stream.
 */
module Random {
  import opened Collections

  type Stream = seq<nat>

  function Next(rng: Stream): nat {
    if rng == [] then 0 else rng[0]
  }

  function Advance(rng: Stream): Stream {
    if rng == [] then [] else rng[1..]
  }

  /** `pool` with the element at position `i` taken out. */
  function Without<T>(pool: seq<T>, i: nat): (r: seq<T>)
    requires i < |pool|
    ensures |r| == |pool| - 1
  {
    pool[..i] + pool[i + 1..]
  }

  /** Taking out the element at position `i` removes one occurrence of it and nothing else. */
  lemma RemoveAt<T>(pool: seq<T>, i: nat)
    requires i < |pool|
    ensures multiset(pool) == multiset(Without(pool, i)) + multiset{pool[i]}
  {
    assert pool == pool[..i] + [pool[i]] + pool[i + 1..];
  }

  /**
   * `s` is made of elements of `pool` at distinct positions, and is all of
   * `pool` when `k` covers it.
   */
  ghost predicate Within<T>(s: seq<T>, pool: seq<T>, k: nat) {
    multiset(s) <= multiset(pool) && (k >= |pool| ==> multiset(s) == multiset(pool))
  }

  /** One draw: the drawn element in front of a sample of the rest is a sample of the whole pool. */
  lemma WithinStep<T>(pool: seq<T>, i: nat, r: seq<T>, k: nat)
    requires i < |pool| && k != 0
    requires Within(r, Without(pool, i), k - 1)
    ensures Within([pool[i]] + r, pool, k)
  {
    RemoveAt(pool, i);
    assert multiset([pool[i]] + r) == multiset(r) + multiset{pool[i]};
  }

  /**
   * `random.sample(pool, k)` with `0 <= k`: each draw takes the element at
   * position `Next(rng) % |pool|` out of the remaining pool. The sample holds
   * `min(k, |pool|)` elements taken from distinct positions of `pool`, and
   * all of `pool` when `k` covers it.
   */
  function Sample<T>(pool: seq<T>, k: nat, rng: Stream): (r: (seq<T>, Stream))
    ensures |r.0| == Min(k, |pool|)
    ensures Within(r.0, pool, k)
    decreases k
  {
    if k == 0 || pool == [] then ([], rng)
    else
      var i := Next(rng) % |pool|;
      var rest := Sample(Without(pool, i), k - 1, Advance(rng));
      WithinStep(pool, i, rest.0, k);
      ([pool[i]] + rest.0, rest.1)
  }

  /** `random.shuffle(s)`: a permutation of `s`. */
  function Shuffle<T>(s: seq<T>, rng: Stream): (r: (seq<T>, Stream))
    ensures |r.0| == |s| && multiset(r.0) == multiset(s)
  {
    Sample(s, |s|, rng)
  }
}
