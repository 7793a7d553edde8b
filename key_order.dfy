/** Registration numbers in increasing order: the order `sortMiddlewares` restores
    after collecting the matched handlers into a map. */
module KeyOrder {
  import opened Segments
  import opened Pipeline

  /** The numbers below `n` that are in `keys`, in increasing order. */
  function KeysBelow(keys: set<nat>, n: nat): (r: seq<nat>)
    ensures StrictlyIncreasing(r)
    ensures forall x :: x in r <==> x in keys && x < n
  {
    if n == 0 then []
    else
      var init := KeysBelow(keys, n - 1);
      if n - 1 in keys then AppendIncreasing(init, n - 1); init + [n - 1] else init
  }

  lemma PrependIncreasing(x: nat, xs: seq<nat>)
    requires StrictlyIncreasing(xs) && forall y :: y in xs ==> x < y
    ensures StrictlyIncreasing([x] + xs)
  {
    forall i, j | 0 <= i < j < |xs| + 1 ensures ([x] + xs)[i] < ([x] + xs)[j] {
      assert xs[j - 1] in xs;
    }
  }

  /** Two increasing sequences with the same elements are equal. */
  lemma {:induction false} IncreasingUnique(xs: seq<nat>, ys: seq<nat>)
    requires StrictlyIncreasing(xs) && StrictlyIncreasing(ys)
    requires forall x :: x in xs <==> x in ys
    ensures xs == ys
    decreases |xs|
  {
    SameElementsEmpty(xs, ys);
    if xs != [] {
      assert xs[0] == ys[0] by {
        assert xs[0] in ys && ys[0] in xs;
      }
      forall x ensures x in xs[1..] <==> x in ys[1..] {
        if x in xs[1..] {
          assert x in ys && x != ys[0];
        }
        if x in ys[1..] {
          assert x in xs && x != xs[0];
        }
      }
      IncreasingUnique(xs[1..], ys[1..]);
      assert xs == [xs[0]] + xs[1..] && ys == [ys[0]] + ys[1..];
    }
  }

  lemma SameElementsEmpty(xs: seq<nat>, ys: seq<nat>)
    requires forall x :: x in xs <==> x in ys
    ensures xs == [] <==> ys == []
  {
    if xs != [] {
      assert xs[0] in ys;
    }
    if ys != [] {
      assert ys[0] in xs;
    }
  }

  /** `x` placed into an increasing sequence that does not contain it. */
  function Insert(sorted: seq<nat>, x: nat): (r: seq<nat>)
    requires StrictlyIncreasing(sorted) && x !in sorted
    ensures StrictlyIncreasing(r)
    ensures forall y :: y in r <==> y in sorted || y == x
  {
    if |sorted| == 0 || x < sorted[0] then [x] + sorted
    else
      assert StrictlyIncreasing(sorted[1..]);
      var rest := Insert(sorted[1..], x);
      assert forall y :: y in sorted[1..] ==> sorted[0] < y;
      PrependIncreasing(sorted[0], rest);
      [sorted[0]] + rest
  }

  /** `slices.Sort` on the collected keys, which are distinct (they are map keys). */
  method SortKeys(keys: seq<nat>) returns (sorted: seq<nat>)
    requires forall i, j :: 0 <= i < j < |keys| ==> keys[i] != keys[j]
    ensures StrictlyIncreasing(sorted)
    ensures forall x :: x in sorted <==> x in keys
  {
    sorted := [];
    for i := 0 to |keys|
      invariant StrictlyIncreasing(sorted)
      invariant forall x :: x in sorted <==> x in keys[..i]
    {
      assert keys[..i + 1] == keys[..i] + [keys[i]];
      sorted := Insert(sorted, keys[i]);
    }
    assert keys[..|keys|] == keys;
  }

  /** The values of `m` at the keys `ks`, in that order. */
  function Values(m: map<nat, Middleware>, ks: seq<nat>): (r: seq<Middleware>)
    requires forall k :: k in ks ==> k in m
    ensures |r| == |ks|
    ensures forall i :: 0 <= i < |ks| ==> r[i] == m[ks[i]]
  {
    if |ks| == 0 then [] else Values(m, ks[..|ks| - 1]) + [m[ks[|ks| - 1]]]
  }

  /** The values of `m` at the keys below `n`, by increasing key. */
  function InKeyOrder(m: map<nat, Middleware>, n: nat): seq<Middleware> {
    Values(m, KeysBelow(m.Keys, n))
  }

  /** Every key of `m` is below `n`. */
  predicate KeysUnder(m: map<nat, Middleware>, n: nat) {
    forall k :: k in m ==> k < n
  }

  /** One more number: its value is appended when it is a key. */
  lemma InKeyOrderStep(m: map<nat, Middleware>, n: nat)
    ensures InKeyOrder(m, n + 1) == InKeyOrder(m, n) + if n in m then [m[n]] else []
  {
    var ks := KeysBelow(m.Keys, n);
    if n in m {
      var ks' := ks + [n];
      assert ks'[..|ks'| - 1] == ks;
    } else {
      assert KeysBelow(m.Keys, n + 1) == ks + [];
      assert ks + [] == ks;
    }
  }

  /** `sortMiddlewares`: the keys are collected in the map's iteration order (any order),
      sorted, and the handlers listed by increasing key. */
  method SortMiddlewares(m: map<nat, Middleware>) returns (sorted: seq<Middleware>)
    ensures forall n :: KeysUnder(m, n) ==> sorted == InKeyOrder(m, n)
  {
    var keys: seq<nat> := [];
    var remaining := m.Keys;
    while remaining != {}
      invariant remaining <= m.Keys
      invariant forall i, j :: 0 <= i < j < |keys| ==> keys[i] != keys[j]
      invariant forall k :: k in keys <==> k in m && k !in remaining
      decreases |remaining|
    {
      var k :| k in remaining;
      keys := keys + [k];
      remaining := remaining - {k};
    }
    var ks := SortKeys(keys);
    sorted := [];
    for i := 0 to |ks|
      invariant sorted == Values(m, ks[..i])
    {
      assert ks[..i + 1][..i] == ks[..i];
      sorted := sorted + [m[ks[i]]];
    }
    assert ks[..|ks|] == ks;
    forall n | KeysUnder(m, n)
      ensures sorted == InKeyOrder(m, n)
    {
      IncreasingUnique(ks, KeysBelow(m.Keys, n));
    }
  }
}
