/** The population (`class Population` of index.js) and the generational
    loop: build a mating pool, then overwrite every slot with a mutated
    child of two parents drawn from it. */
module Populations {
  import opened Draws
  import opened Members
  import opened Selection

  /** The draws one reproduction slot consumes: the two pool indices, the
      letters of the child's construction (overwritten by crossover), the
      crossover midpoint, and a coin and a replacement letter per position
      for mutation. */
  datatype SlotDraws = SlotDraws(
    parentA: real, parentB: real, childLetters: seq<real>,
    midpoint: real, coins: seq<real>, letters: seq<real>)
  {
    predicate Valid(length: nat) {
      IsDraw(parentA) && IsDraw(parentB) && AllDraws(childLetters, length)
      && IsDraw(midpoint) && AllDraws(coins, length) && AllDraws(letters, length)
    }
  }

  predicate SlotsValid(ds: seq<SlotDraws>, length: nat) {
    forall i :: 0 <= i < |ds| ==> ds[i].Valid(length)
  }

  /** Gene strings a population over `target` can hold. */
  predicate Genomes(gs: seq<seq<char>>, target: string) {
    forall i :: 0 <= i < |gs| ==> |gs[i]| == |target| && Lowercase(gs[i])
  }

  /** The genes of each member, in order. */
  function Genes(ms: seq<Member>): (gs: seq<seq<char>>)
    reads ms
    ensures |gs| == |ms|
    ensures forall i :: 0 <= i < |ms| ==> gs[i] == ms[i].keys
  {
    seq(|ms|, i requires 0 <= i < |ms| reads ms => ms[i].keys)
  }

  /** The child of one slot: the pool entries at the two drawn indices are
      crossed over and the result is mutated. */
  function Offspring(pool: seq<seq<char>>, target: string, rate: real, d: SlotDraws): (child: seq<char>)
    requires |pool| > 0 && Genomes(pool, target) && d.Valid(|target|)
    ensures |child| == |target| && Lowercase(child)
  {
    var a := pool[Random(0, |pool|, d.parentA)];
    var b := pool[Random(0, |pool|, d.parentB)];
    Mutated(Cross(a, b, Random(0, |target|, d.midpoint)), rate, d.coins, d.letters)
  }

  /** One child per slot, each bred from the same pool. */
  function Generation(pool: seq<seq<char>>, target: string, rate: real, ds: seq<SlotDraws>): (gs: seq<seq<char>>)
    requires |ds| > 0 ==> |pool| > 0
    requires Genomes(pool, target) && SlotsValid(ds, |target|)
    ensures |gs| == |ds| && Genomes(gs, target)
  {
    seq(|ds|, i requires 0 <= i < |ds| => Offspring(pool, target, rate, ds[i]))
  }

  /** One generation of `evolve`: select, then reproduce. The population
      keeps its size and every member stays a lowercase string of the
      target's length. */
  function NextGeneration(gs: seq<seq<char>>, target: string, rate: real, ds: seq<SlotDraws>): (next: seq<seq<char>>)
    requires |target| >= 1 && Genomes(gs, target)
    requires |ds| == |gs| && SlotsValid(ds, |target|)
    ensures |next| == |gs| && Genomes(next, target)
  {
    Generation(MatingPool(gs, target), target, rate, ds)
  }

  /** The gene strings after one generation per element of `dss`. */
  function Evolved(gs: seq<seq<char>>, target: string, rate: real, dss: seq<seq<SlotDraws>>): (final: seq<seq<char>>)
    requires |target| >= 1 && Genomes(gs, target)
    requires forall g :: 0 <= g < |dss| ==> |dss[g]| == |gs| && SlotsValid(dss[g], |target|)
    ensures |final| == |gs| && Genomes(final, target)
    decreases |dss|
  {
    if dss == [] then gs
    else
      var before := Evolved(gs, target, rate, dss[..|dss| - 1]);
      NextGeneration(before, target, rate, dss[|dss| - 1])
  }

  /** One more round of selection and reproduction extends the run by one
      generation of draws. */
  lemma EvolvedStep(start: seq<seq<char>>, target: string, rate: real, dss: seq<seq<SlotDraws>>, i: nat)
    requires |target| >= 1 && Genomes(start, target)
    requires forall g :: 0 <= g < |dss| ==> |dss[g]| == |start| && SlotsValid(dss[g], |target|)
    requires i < |dss|
    ensures Evolved(start, target, rate, dss[..i + 1])
         == NextGeneration(Evolved(start, target, rate, dss[..i]), target, rate, dss[i])
  {
    assert dss[..i + 1][..i] == dss[..i];
  }

  /** Each letter of a child either sits at the same position in some pool
      entry (one of its parents) or was redrawn because its coin fell below
      the mutation rate. */
  lemma InheritedLetter(pool: seq<seq<char>>, target: string, rate: real, ds: seq<SlotDraws>, i: nat, j: nat)
    requires |ds| > 0 ==> |pool| > 0
    requires Genomes(pool, target) && SlotsValid(ds, |target|)
    requires i < |ds| && j < |target|
    ensures (exists k :: 0 <= k < |pool| && Generation(pool, target, rate, ds)[i][j] == pool[k][j])
         || ds[i].coins[j] < rate
  {
    var d := ds[i];
    var a := Random(0, |pool|, d.parentA);
    var b := Random(0, |pool|, d.parentB);
    var crossed := Cross(pool[a], pool[b], Random(0, |target|, d.midpoint));
    var child := Generation(pool, target, rate, ds)[i];
    assert child == Mutated(crossed, rate, d.coins, d.letters);
    if child[j] == crossed[j] {
      if crossed[j] == pool[a][j] {
        assert 0 <= a < |pool| && child[j] == pool[a][j];
      } else {
        assert 0 <= b < |pool| && child[j] == pool[b][j];
      }
    }
  }

  /** With no mutation, a population of copies of one string `w` breeds
      only copies of `w`. */
  lemma UniformGenerationStable(gs: seq<seq<char>>, target: string, rate: real, ds: seq<SlotDraws>, w: seq<char>)
    requires |target| >= 1 && Genomes(gs, target)
    requires |ds| == |gs| && SlotsValid(ds, |target|)
    requires rate <= 0.0 && forall i :: 0 <= i < |gs| ==> gs[i] == w
    ensures forall i :: 0 <= i < |gs| ==> NextGeneration(gs, target, rate, ds)[i] == w
  {
    var pool := MatingPool(gs, target);
    forall k | 0 <= k < |pool|
      ensures pool[k] == w
    {
      assert pool[k] in gs;
    }
    forall i | 0 <= i < |ds|
      ensures Offspring(pool, target, rate, ds[i]) == w
    {
      var d := ds[i];
      var a := pool[Random(0, |pool|, d.parentA)];
      var b := pool[Random(0, |pool|, d.parentB)];
      assert a == w && b == w;
    }
  }

  /** ... and so does any number of generations of it. */
  lemma {:induction false} UniformPopulationStable(gs: seq<seq<char>>, target: string, rate: real, dss: seq<seq<SlotDraws>>, w: seq<char>)
    requires |target| >= 1 && Genomes(gs, target)
    requires forall g :: 0 <= g < |dss| ==> |dss[g]| == |gs| && SlotsValid(dss[g], |target|)
    requires rate <= 0.0 && forall i :: 0 <= i < |gs| ==> gs[i] == w
    ensures forall i :: 0 <= i < |gs| ==> Evolved(gs, target, rate, dss)[i] == w
    decreases |dss|
  {
    if dss != [] {
      var n := |dss| - 1;
      UniformPopulationStable(gs, target, rate, dss[..n], w);
      UniformGenerationStable(Evolved(gs, target, rate, dss[..n]), target, rate, dss[n], w);
    }
  }

  /** The genes of a pool built from objects are the pool built from their genes. */
  lemma {:induction false} GenesReplicate(ms: seq<Member>, c: seq<nat>)
    requires |ms| == |c|
    ensures Genes(Replicate(ms, c)) == Replicate(Genes(ms), c)
    decreases |ms|
  {
    if ms != [] {
      var n := |ms| - 1;
      GenesReplicate(ms[..n], c[..n]);
      assert Genes(ms[..n]) == Genes(ms)[..n];
      var left, right := Replicate(ms[..n], c[..n]), Repeat(ms[n], c[n]);
      assert Genes(left + right) == Genes(left) + Genes(right);
      assert Genes(right) == Repeat(ms[n].keys, c[n]);
    }
  }

  /** The pool built from well-formed member objects holds only
      well-formed members, and its genes are the mating pool of their genes. */
  lemma PoolOfMembers(ms: seq<Member>, target: string, pool: seq<Member>)
    requires |target| >= 1
    requires forall i :: 0 <= i < |ms| ==>
      ms[i].target == target && |ms[i].keys| == |target| && Lowercase(ms[i].keys)
    requires pool == Replicate(ms, Multiplicities(Genes(ms), target))
    ensures Genes(pool) == MatingPool(Genes(ms), target)
    ensures forall k :: 0 <= k < |pool| ==>
      pool[k].target == target && |pool[k].keys| == |target| && Lowercase(pool[k].keys)
  {
    GenesReplicate(ms, Multiplicities(Genes(ms), target));
    forall k | 0 <= k < |pool|
      ensures pool[k].target == target && |pool[k].keys| == |target| && Lowercase(pool[k].keys)
    {
      var j :| 0 <= j < |ms| && ms[j] == pool[k];
    }
  }

  /** The number of members `new Population(size, ...)` builds: `size || 1`
      turns 0 into 1, and the build loop runs no times for a negative size. */
  function InitialCount(size: int): (n: nat)
    ensures size > 0 ==> n == size
    ensures size == 0 ==> n == 1
    ensures size < 0 ==> n == 0
  {
    var count := if size == 0 then 1 else size;
    if count > 0 then count else 0
  }

  class Population {
    var members: seq<Member>
    const mutationRate: real
    /** The string every member targets. */
    ghost const target: string

    /** Every member is a distinct, well-formed member over `target`. */
    ghost predicate Valid()
      reads this, members
    {
      |target| >= 1
      && (forall i :: 0 <= i < |members| ==> members[i].Valid() && members[i].target == target)
      && (forall i, j :: 0 <= i < j < |members| ==> members[i] != members[j])
    }

    lemma ValidGenomes()
      requires Valid()
      ensures Genomes(Genes(members), target)
    {
      forall i | 0 <= i < |members|
        ensures |Genes(members)[i]| == |target| && Lowercase(Genes(members)[i])
      {
      }
    }

    /** A member of a valid population appears in its mating pool exactly
        as many times as its multiplicity says. */
    lemma PoolCopies(i: nat)
      requires Valid() && i < |members|
      ensures multiset(Replicate(members, Multiplicities(Genes(members), target)))[members[i]]
           == Multiplicity(members[i].keys, target)
    {
      ValidGenomes();
      ReplicateCount(members, Multiplicities(Genes(members), target), i);
    }

    /** `size` fresh members (one for size 0, none for a negative size),
        each spelling the letters of its draws. */
    constructor (size: int, target: string, mutationRate: real, draws: seq<seq<real>>)
      requires |target| >= 1
      requires |draws| == InitialCount(size)
      requires forall i :: 0 <= i < |draws| ==> |draws[i]| == |target|
      requires forall i, j :: 0 <= i < |draws| && 0 <= j < |draws[i]| ==> IsDraw(draws[i][j])
      ensures Valid() && this.target == target && this.mutationRate == mutationRate
      ensures size > 0 ==> |members| == size
      ensures size == 0 ==> |members| == 1
      ensures size < 0 ==> members == []
      ensures |members| == |draws|
      ensures forall i :: 0 <= i < |members| ==> fresh(members[i]) && members[i].keys == Letters(draws[i])
    {
      var n := InitialCount(size);
      this.target := target;
      this.mutationRate := mutationRate;
      members := [];
      new;
      var i := 0;
      while i < n
        invariant 0 <= i <= |draws|
        invariant |members| == i
        invariant Valid()
        invariant forall k :: 0 <= k < i ==> fresh(members[k]) && members[k].keys == Letters(draws[k])
      {
        var m := new Member(target, draws[i]);
        members := members + [m];
        i := i + 1;
      }
    }

    /** The mating pool: each member, in order, repeated
        `floor(fitness * 100) || 1` times. */
    method SelectMembersForMating() returns (pool: seq<Member>)
      requires Valid()
      ensures pool == Replicate(members, Multiplicities(Genes(members), target))
    {
      ValidGenomes();
      ghost var c := Multiplicities(Genes(members), target);
      pool := [];
      for i := 0 to |members|
        invariant pool == Replicate(members[..i], c[..i])
        invariant c == Multiplicities(Genes(members), target)
      {
        var m := members[i];
        var fitness := m.Fitness();
        var f := (fitness * 100.0).Floor;
        if f == 0 {
          f := 1;
        }
        MultiplicityFromFitness(m.keys, target, fitness);
        assert f == c[i];
        ghost var front := pool;
        for j := 0 to f
          invariant pool == front + Repeat(m, j)
        {
          pool := pool + [m];
        }
        ReplicatePrefix(members, c, i);
      }
      assert members[..|members|] == members && c[..|c|] == c;
    }

    /** Overwrites every slot with a fresh mutated child of two parents
        drawn from `pool`; the pool's members are left as they were. */
    method Reproduce(pool: seq<Member>, draws: seq<SlotDraws>)
      requires Valid()
      requires |draws| == |members| && SlotsValid(draws, |target|)
      requires |members| > 0 ==> |pool| > 0
      requires forall k :: 0 <= k < |pool| ==>
        pool[k].target == target && |pool[k].keys| == |target| && Lowercase(pool[k].keys)
      modifies this
      ensures Valid() && |members| == |old(members)|
      ensures forall i :: 0 <= i < |members| ==> fresh(members[i])
      ensures forall k :: 0 <= k < |pool| ==> pool[k].keys == old(pool[k].keys)
      ensures Genes(members) == Generation(old(Genes(pool)), target, mutationRate, draws)
    {
      ghost var poolGenes := Genes(pool);
      assert Genomes(poolGenes, target) by {
        forall k | 0 <= k < |pool|
          ensures |poolGenes[k]| == |target| && Lowercase(poolGenes[k])
        {
        }
      }
      ghost var next := Generation(poolGenes, target, mutationRate, draws);
      var i := 0;
      while i < |members|
        invariant 0 <= i <= |members| == |draws|
        invariant Valid()
        invariant forall k :: 0 <= k < |pool| ==> pool[k].keys == poolGenes[k]
        invariant forall k :: 0 <= k < i ==> fresh(members[k]) && members[k].keys == next[k]
      {
        var d := draws[i];
        var parentA := pool[Random(0, |pool|, d.parentA)];
        var parentB := pool[Random(0, |pool|, d.parentB)];
        var child := parentA.Crossover(parentB, d.childLetters, d.midpoint);
        child.Mutate(mutationRate, d.coins, d.letters);
        assert child.keys == next[i];
        assert forall j :: 0 <= j < |members| ==> members[j] != child && members[j].Valid();
        members := members[i := child];
        i := i + 1;
      }
    }

    /** One round of `evolve`: build the mating pool, then refill the
        population from it. */
    method Breed(ds: seq<SlotDraws>)
      requires Valid()
      requires |ds| == |members| && SlotsValid(ds, |target|)
      modifies this
      ensures Valid() && |members| == |old(members)|
      ensures Genes(members) == NextGeneration(old(Genes(members)), target, mutationRate, ds)
    {
      ValidGenomes();
      ghost var gs := Genes(members);
      var pool := SelectMembersForMating();
      assert Genes(members) == gs;
      PoolOfMembers(members, target, pool);
      Reproduce(pool, ds);
    }

    /** Runs `generations` rounds of selection and reproduction. */
    method Evolve(generations: int, draws: seq<seq<SlotDraws>>)
      requires Valid()
      requires |draws| == (if generations > 0 then generations else 0)
      requires forall g :: 0 <= g < |draws| ==> |draws[g]| == |members| && SlotsValid(draws[g], |target|)
      modifies this
      ensures Valid() && |members| == |old(members)|
      ensures generations <= 0 ==> members == old(members)
      ensures Genes(members) == Evolved(old(Genes(members)), target, mutationRate, draws)
    {
      ValidGenomes();
      ghost var start := Genes(members);
      var i := 0;
      while i < generations
        invariant 0 <= i <= |draws|
        invariant Valid() && |members| == |old(members)|
        invariant generations <= 0 ==> members == old(members)
        invariant Genes(members) == Evolved(start, target, mutationRate, draws[..i])
      {
        ValidGenomes();
        Breed(draws[i]);
        EvolvedStep(start, target, mutationRate, draws, i);
        i := i + 1;
      }
      assert draws[..i] == draws;
    }
  }
}
