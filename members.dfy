/** A candidate string (`class Member` of index.js): its genes, its fitness
    against the target, single-point crossover and per-position mutation. */
module Members {
  import opened Draws

  /** The number of positions i < n where `a` and `b` hold the same letter. */
  function Matches(a: seq<char>, b: seq<char>, n: nat): (k: nat)
    requires n <= |a| && n <= |b|
    ensures k <= n
    decreases n
  {
    if n == 0 then 0
    else Matches(a, b, n - 1) + (if a[n - 1] == b[n - 1] then 1 else 0)
  }

  /** All of the first n positions match exactly when the prefixes are equal. */
  lemma {:induction false} MatchesAllIff(a: seq<char>, b: seq<char>, n: nat)
    requires n <= |a| && n <= |b|
    ensures Matches(a, b, n) == n <==> a[..n] == b[..n]
    decreases n
  {
    if n > 0 {
      MatchesAllIff(a, b, n - 1);
      assert a[..n] == a[..n - 1] + [a[n - 1]];
      assert b[..n] == b[..n - 1] + [b[n - 1]];
      if a[..n] == b[..n] {
        assert a[..n][..n - 1] == a[..n - 1] && b[..n][..n - 1] == b[..n - 1];
        assert a[..n][n - 1] == a[n - 1] && b[..n][n - 1] == b[n - 1];
      }
    }
  }

  /** Positions lo..n-1 where `x` and `y` agree add the same number of
      matches against `t` to both. */
  lemma {:induction false} MatchesAgree(x: seq<char>, y: seq<char>, t: seq<char>, lo: nat, n: nat)
    requires lo <= n && n <= |x| && n <= |y| && n <= |t|
    requires forall i :: lo <= i < n ==> x[i] == y[i]
    ensures Matches(x, t, n) - Matches(x, t, lo) == Matches(y, t, n) - Matches(y, t, lo)
    decreases n
  {
    if n > lo {
      MatchesAgree(x, y, t, lo, n - 1);
    }
  }

  /** A count out of `len` gives a fraction in [0, 1] that is 1 only for
      the full count. */
  lemma RatioBounds(m: nat, len: nat)
    requires 1 <= len && m <= len
    ensures 0.0 <= m as real / len as real <= 1.0
    ensures m as real / len as real == 1.0 <==> m == len
  {
    var x := m as real / len as real;
    assert x * len as real == m as real;
  }

  /** The child genes of `crossover` for split point `mid`: the partner's
      genes up to and including `mid`, this member's genes after it. */
  function Cross(self: seq<char>, partner: seq<char>, mid: int): (c: seq<char>)
    requires |self| == |partner| && 0 <= mid
    ensures |c| == |self|
    ensures forall i :: 0 <= i < |c| ==> c[i] == if i > mid then self[i] else partner[i]
    ensures Lowercase(self) && Lowercase(partner) ==> Lowercase(c)
    ensures self == partner ==> c == self
  {
    if mid < |self| then partner[..mid + 1] + self[mid + 1..] else partner
  }

  /** The child's match count is the partner's up to the split point plus
      this member's after it. */
  lemma CrossMatches(self: seq<char>, partner: seq<char>, t: seq<char>, mid: nat)
    requires |self| == |partner| == |t| && mid < |t|
    ensures Matches(Cross(self, partner, mid), t, |t|)
         == Matches(partner, t, mid + 1) + (Matches(self, t, |t|) - Matches(self, t, mid + 1))
  {
    var c := Cross(self, partner, mid);
    MatchesAgree(c, partner, t, 0, mid + 1);
    MatchesAgree(c, self, t, mid + 1, |t|);
  }

  /** The genes after `mutate`: position i is redrawn as a fresh letter
      exactly when its coin falls below the mutation rate. */
  function Mutated(keys: seq<char>, rate: real, coins: seq<real>, letters: seq<real>): (r: seq<char>)
    requires AllDraws(coins, |keys|) && AllDraws(letters, |keys|)
    ensures |r| == |keys|
    ensures forall i :: 0 <= i < |keys| && r[i] != keys[i] ==> coins[i] < rate
    ensures forall i :: 0 <= i < |keys| && coins[i] < rate ==> r[i] == GenerateLetter(letters[i])
    ensures Lowercase(keys) ==> Lowercase(r)
    ensures rate <= 0.0 ==> r == keys
    ensures rate >= 1.0 ==> r == Letters(letters)
  {
    seq(|keys|, i requires 0 <= i < |keys| =>
      if coins[i] < rate then GenerateLetter(letters[i]) else keys[i])
  }

  class Member {
    const target: string
    var keys: seq<char>

    /** One lowercase letter per target position. */
    ghost predicate Valid()
      reads this
    {
      |keys| == |target| && Lowercase(keys)
    }

    /** A member with one random letter per target position. */
    constructor (target: string, draws: seq<real>)
      requires AllDraws(draws, |target|)
      ensures this.target == target
      ensures Valid() && keys == Letters(draws)
    {
      this.target := target;
      keys := [];
      new;
      var i := 0;
      while i < |target|
        invariant 0 <= i <= |target|
        invariant |keys| == i
        invariant forall j :: 0 <= j < i ==> keys[j] == GenerateLetter(draws[j])
      {
        keys := keys + [GenerateLetter(draws[i])];
        i := i + 1;
      }
    }

    /** The fraction of positions that match the target. */
    method Fitness() returns (f: real)
      requires Valid() && |target| >= 1
      ensures f == Matches(keys, target, |target|) as real / |target| as real
      ensures 0.0 <= f <= 1.0
      ensures f == 1.0 <==> keys == target
    {
      var matches := 0;
      for i := 0 to |keys|
        invariant matches == Matches(keys, target, i)
      {
        if keys[i] == target[i] {
          matches := matches + 1;
        }
      }
      MatchesAllIff(keys, target, |target|);
      assert keys[..|target|] == keys && target[..|target|] == target;
      RatioBounds(matches, |target|);
      f := matches as real / |target| as real;
    }

    /** A fresh child whose genes come from `partner` up to the drawn
        midpoint and from this member after it. The child's own random
        letters from construction are all overwritten. */
    method Crossover(partner: Member, childDraws: seq<real>, u: real) returns (child: Member)
      requires Valid() && partner.Valid() && partner.target == target
      requires AllDraws(childDraws, |target|) && IsDraw(u)
      ensures fresh(child) && child.Valid() && child.target == target
      ensures child.keys == Cross(keys, partner.keys, Random(0, |target|, u))
    {
      var length := |target|;
      child := new Member(target, childDraws);
      var midpoint := Random(0, length, u);
      for i := 0 to length
        invariant child.target == target && |child.keys| == length
        invariant forall j :: 0 <= j < i ==>
          child.keys[j] == if j > midpoint then keys[j] else partner.keys[j]
      {
        if i > midpoint {
          child.keys := child.keys[i := keys[i]];
        } else {
          child.keys := child.keys[i := partner.keys[i]];
        }
      }
    }

    /** Redraws, in place, each position whose coin falls below `mutationRate`. */
    method Mutate(mutationRate: real, coins: seq<real>, letters: seq<real>)
      requires Valid()
      requires AllDraws(coins, |keys|) && AllDraws(letters, |keys|)
      modifies this
      ensures Valid()
      ensures keys == Mutated(old(keys), mutationRate, coins, letters)
    {
      for i := 0 to |keys|
        invariant |keys| == |old(keys)|
        invariant forall j :: 0 <= j < |keys| ==>
          keys[j] == if j < i then Mutated(old(keys), mutationRate, coins, letters)[j] else old(keys)[j]
      {
        if coins[i] < mutationRate {
          keys := keys[i := GenerateLetter(letters[i])];
        }
      }
    }
  }
}
