/** Fitness-proportional selection (`_selectMembersForMating`): every member
    goes into the mating pool `floor(fitness * 100) || 1` times, its copies
    side by side and the members in their population order. */
module Selection {
  import opened Members

  /** `n` copies of `x`. */
  function Repeat<T>(x: T, n: nat): (r: seq<T>)
    ensures |r| == n
    ensures forall i :: 0 <= i < n ==> r[i] == x
    decreases n
  {
    if n == 0 then [] else Repeat(x, n - 1) + [x]
  }

  function Sum(c: seq<nat>): nat
    decreases |c|
  {
    if c == [] then 0 else Sum(c[..|c| - 1]) + c[|c| - 1]
  }

  /** `xs[0]` repeated `c[0]` times, then `xs[1]` repeated `c[1]` times, and
      so on: the pool the nested push loops build. */
  function Replicate<T>(xs: seq<T>, c: seq<nat>): (r: seq<T>)
    requires |xs| == |c|
    ensures |r| == Sum(c)
    ensures forall k :: 0 <= k < |r| ==> r[k] in xs
    decreases |xs|
  {
    if xs == [] then []
    else Replicate(xs[..|xs| - 1], c[..|c| - 1]) + Repeat(xs[|xs| - 1], c[|c| - 1])
  }

  /** Counts between 1 and 100 sum to between n and 100 * n. */
  lemma {:induction false} SumBounds(c: seq<nat>)
    requires forall i :: 0 <= i < |c| ==> 1 <= c[i] <= 100
    ensures |c| <= Sum(c) <= 100 * |c|
    decreases |c|
  {
    if c != [] {
      SumBounds(c[..|c| - 1]);
    }
  }

  /** The copies of `xs[i]` fill the block of `c[i]` positions starting at
      `Sum(c[..i])`; the blocks follow each other in the order of `xs`. */
  lemma {:induction false} ReplicateBlock<T>(xs: seq<T>, c: seq<nat>, i: nat, k: nat)
    requires |xs| == |c| && i < |xs| && k < c[i]
    ensures Sum(c[..i]) + k < |Replicate(xs, c)|
    ensures Replicate(xs, c)[Sum(c[..i]) + k] == xs[i]
    decreases |xs|
  {
    var n := |xs| - 1;
    var front := Replicate(xs[..n], c[..n]);
    if i == n {
      assert c[..i] == c[..n];
    } else {
      assert c[..n][..i] == c[..i];
      ReplicateBlock(xs[..n], c[..n], i, k);
      assert c == c[..n] + [c[n]];
    }
  }

  /** Extending the prefix by one member appends that member's block. */
  lemma ReplicatePrefix<T>(xs: seq<T>, c: seq<nat>, i: nat)
    requires |xs| == |c| && i < |xs|
    ensures Replicate(xs[..i + 1], c[..i + 1]) == Replicate(xs[..i], c[..i]) + Repeat(xs[i], c[i])
  {
    assert xs[..i + 1][..i] == xs[..i] && c[..i + 1][..i] == c[..i];
  }

  /** Every count of 1 gives back the sequence itself. */
  lemma {:induction false} ReplicateOnes<T>(xs: seq<T>, c: seq<nat>)
    requires |xs| == |c| && forall i :: 0 <= i < |c| ==> c[i] == 1
    ensures Replicate(xs, c) == xs
    decreases |xs|
  {
    if xs != [] {
      var n := |xs| - 1;
      ReplicateOnes(xs[..n], c[..n]);
      assert xs == xs[..n] + [xs[n]];
    }
  }

  lemma {:induction false} RepeatCount<T>(x: T, n: nat, y: T)
    ensures multiset(Repeat(x, n))[y] == if y == x then n else 0
    decreases n
  {
    if n > 0 {
      RepeatCount(x, n - 1, y);
    }
  }

  /** When the members are distinct objects, `xs[i]` occurs exactly `c[i]`
      times in the pool. */
  lemma {:induction false} ReplicateCount<T>(xs: seq<T>, c: seq<nat>, i: nat)
    requires |xs| == |c| && i < |xs|
    requires forall j, k :: 0 <= j < k < |xs| ==> xs[j] != xs[k]
    ensures multiset(Replicate(xs, c))[xs[i]] == c[i]
    decreases |xs|
  {
    var n := |xs| - 1;
    var front := Replicate(xs[..n], c[..n]);
    RepeatCount(xs[n], c[n], xs[i]);
    if i == n {
      assert xs[n] !in front;
    } else {
      ReplicateCount(xs[..n], c[..n], i);
    }
  }

  /** `floor(fitness * 100) || 1` with fitness = matches / |target|, in
      integers: the number of copies of a member in the mating pool. */
  function Multiplicity(keys: seq<char>, target: seq<char>): (f: nat)
    requires |keys| == |target| >= 1
    ensures 1 <= f <= 100
    ensures f == 100 <==> keys == target
  {
    var m := Matches(keys, target, |target|);
    MatchesAllIff(keys, target, |target|);
    assert keys[..|target|] == keys && target[..|target|] == target;
    ScaledBounds(m, |target|);
    var scaled := m * 100 / |target|;
    if scaled == 0 then 1 else scaled
  }

  /** Dividing by a positive `len` keeps the sign of a product. */
  lemma ProductSign(x: int, len: int)
    requires len >= 1
    ensures x * len >= 0 ==> x >= 0
    ensures x * len > 0 ==> x > 0
  {
    if x < 0 {
    }
  }

  /** The scaled match count `m * 100 / len` lies in [0, 100] and is 100
      exactly when every position matches. */
  lemma ScaledBounds(m: nat, len: nat)
    requires 1 <= len && m <= len
    ensures 0 <= m * 100 / len <= 100
    ensures m * 100 / len == 100 <==> m == len
  {
    var q, r := m * 100 / len, m * 100 % len;
    assert m * 100 == q * len + r && 0 <= r < len;
    ProductSign(q, len);
    assert (100 - q) * len == 100 * len - q * len;
    ProductSign(100 - q, len);
    if m == len {
      assert (q - 99) * len == q * len - 99 * len;
      ProductSign(q - 99, len);
    } else {
      assert (99 - q) * len == 99 * len - q * len;
      ProductSign(99 - q, len);
    }
  }

  /** The source's float computation of the multiplicity, read exactly:
      `floor((m / len) * 100)` is the integer quotient `m * 100 / len`. */
  lemma FitnessFloor(m: nat, len: nat)
    requires 1 <= len
    ensures ((m as real / len as real) * 100.0).Floor == m * 100 / len
  {
    var q, r := m * 100 / len, m * 100 % len;
    var x := (m as real / len as real) * 100.0;
    var l := len as real;
    assert (m * 100) as real == q as real * l + r as real;
    assert x * l == (m * 100) as real;
    assert q as real <= x;
    assert x < (q + 1) as real;
  }

  lemma SmallQuotient(a: int, len: int)
    requires 0 <= a < len
    ensures a / len == 0
  {
  }

  /** A member below 1% fitness goes into the pool once. */
  lemma LowMultiplicity(keys: seq<char>, target: seq<char>)
    requires |keys| == |target| >= 1
    requires Matches(keys, target, |target|) * 100 < |target|
    ensures Multiplicity(keys, target) == 1
  {
    SmallQuotient(Matches(keys, target, |target|) * 100, |target|);
  }

  /** The source's computation `Math.floor(fitness * 100) || 1`, on the
      exact fitness `matches / |target|`, yields the multiplicity. */
  lemma MultiplicityFromFitness(keys: seq<char>, target: seq<char>, fitness: real)
    requires |keys| == |target| >= 1
    requires fitness == Matches(keys, target, |target|) as real / |target| as real
    ensures var f := (fitness * 100.0).Floor; (if f == 0 then 1 else f) == Multiplicity(keys, target)
  {
    FitnessFloor(Matches(keys, target, |target|), |target|);
  }

  /** The pool's per-member counts. */
  function Multiplicities(gs: seq<seq<char>>, target: seq<char>): (c: seq<nat>)
    requires |target| >= 1 && forall i :: 0 <= i < |gs| ==> |gs[i]| == |target|
    ensures |c| == |gs|
    ensures forall i :: 0 <= i < |gs| ==> c[i] == Multiplicity(gs[i], target)
  {
    seq(|gs|, i requires 0 <= i < |gs| => Multiplicity(gs[i], target))
  }

  /** The counts of n members add up to between n and 100 * n, and a member
      gets the full 100 exactly when it spells the target. */
  lemma CountBounds(gs: seq<seq<char>>, target: seq<char>)
    requires |target| >= 1 && forall i :: 0 <= i < |gs| ==> |gs[i]| == |target|
    ensures |gs| <= Sum(Multiplicities(gs, target)) <= 100 * |gs|
    ensures forall i :: 0 <= i < |gs| ==> (Multiplicities(gs, target)[i] == 100 <==> gs[i] == target)
  {
    SumBounds(Multiplicities(gs, target));
  }

  /** The mating pool over gene strings. It holds between n and 100 * n
      entries for n members, so it is empty exactly when there are no
      members. */
  function MatingPool(gs: seq<seq<char>>, target: seq<char>): (pool: seq<seq<char>>)
    requires |target| >= 1 && forall i :: 0 <= i < |gs| ==> |gs[i]| == |target|
    ensures |gs| <= |pool| <= 100 * |gs|
    ensures forall k :: 0 <= k < |pool| ==> pool[k] in gs
  {
    CountBounds(gs, target);
    Replicate(gs, Multiplicities(gs, target))
  }

  /** Members whose fitness is below 1% each appear once: if no member
      reaches it (in particular, if all have fitness 0) the pool is the
      population itself, of the same size. */
  lemma LowFitnessPool(gs: seq<seq<char>>, target: seq<char>)
    requires |target| >= 1 && forall i :: 0 <= i < |gs| ==> |gs[i]| == |target|
    requires forall i :: 0 <= i < |gs| ==> Matches(gs[i], target, |target|) * 100 < |target|
    ensures MatingPool(gs, target) == gs
  {
    var c := Multiplicities(gs, target);
    forall i | 0 <= i < |gs|
      ensures c[i] == 1
    {
      LowMultiplicity(gs[i], target);
    }
    ReplicateOnes(gs, c);
  }
}
