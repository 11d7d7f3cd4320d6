/** The genetic optimizer: evaluation, elitism, crossover and in-place mutation of children, migration. */
module Genetic {
  import opened Wrappers

  /** An individual refers to its chromosome array; individuals may share one. */
  datatype Individual = Individual(chromosome: array<real>, fitness: Option<real>)

  /** The fitness of a chromosome, or nothing where the objective raises. */
  type Objective = seq<real> -> Option<real>

  datatype Config = Config(populationSize: nat, eliteSize: nat, islandCount: nat)

  function Chromosomes(pop: seq<Individual>): set<array<real>> {
    set i | 0 <= i < |pop| :: pop[i].chromosome
  }

  predicate SameDimension(pop: seq<Individual>, dim: nat) {
    forall i :: 0 <= i < |pop| ==> pop[i].chromosome.Length == dim
  }

  /** Every individual carries the objective value of its present chromosome, where there is one. */
  predicate IsEvaluated(f: Objective, pop: seq<Individual>)
    reads Chromosomes(pop)
  {
    forall i :: 0 <= i < |pop| && f(pop[i].chromosome[..]).Some? ==> pop[i].fitness == f(pop[i].chromosome[..])
  }

  predicate HasFitness(pop: seq<Individual>) {
    forall i :: 0 <= i < |pop| ==> pop[i].fitness.Some?
  }

  /** The population with every fitness computed anew; an individual on which the objective raises stays as it
      was.  Chromosomes are shared, not copied. */
  function Evaluate(f: Objective, pop: seq<Individual>): (r: seq<Individual>)
    reads Chromosomes(pop)
    ensures |r| == |pop| && IsEvaluated(f, r)
    ensures forall i :: 0 <= i < |pop| ==> r[i].chromosome == pop[i].chromosome
    ensures forall i :: 0 <= i < |pop| && r[i] != pop[i] ==> r[i].fitness.Some? && f(pop[i].chromosome[..]).Some?
    ensures IsEvaluated(f, pop) && HasFitness(pop) ==> r == pop
  {
    seq(|pop|, i requires 0 <= i < |pop| reads Chromosomes(pop) =>
      if f(pop[i].chromosome[..]).Some? then Individual(pop[i].chromosome, f(pop[i].chromosome[..])) else pop[i])
  }

  // ----- Elites -----

  predicate Descending(s: seq<Individual>)
    requires HasFitness(s)
  {
    forall i, j :: 0 <= i < j < |s| ==> s[i].fitness.value >= s[j].fitness.value
  }

  function Insert(s: seq<Individual>, x: Individual): (r: seq<Individual>)
    requires HasFitness(s) && x.fitness.Some?
    ensures |r| == |s| + 1 && forall k :: 0 <= k < |r| ==> r[k] in s || r[k] == x
  {
    if s == [] || s[|s| - 1].fitness.value >= x.fitness.value then s + [x]
    else Insert(s[..|s| - 1], x) + [s[|s| - 1]]
  }

  lemma {:induction false} InsertPermutes(s: seq<Individual>, x: Individual)
    requires HasFitness(s) && x.fitness.Some?
    ensures multiset(Insert(s, x)) == multiset(s) + multiset{x}
  {
    if s == [] || s[|s| - 1].fitness.value >= x.fitness.value {
    } else {
      InsertPermutes(s[..|s| - 1], x);
      assert s == s[..|s| - 1] + [s[|s| - 1]];
    }
  }

  lemma {:induction false} InsertDescends(s: seq<Individual>, x: Individual)
    requires HasFitness(s) && x.fitness.Some? && Descending(s)
    ensures HasFitness(Insert(s, x)) && Descending(Insert(s, x))
  {
    if s == [] || s[|s| - 1].fitness.value >= x.fitness.value {
      DescendingAppend(s, x);
    } else {
      var n := |s| - 1;
      InsertDescends(s[..n], x);
      var r := Insert(s[..n], x);
      forall k | 0 <= k < |r| ensures r[k].fitness.value >= s[n].fitness.value {
        if r[k] != x {
          var i :| 0 <= i < n && s[..n][i] == r[k];
        }
      }
      DescendingAppend(r, s[n]);
    }
  }

  lemma DescendingAppend(s: seq<Individual>, x: Individual)
    requires HasFitness(s) && x.fitness.Some? && Descending(s)
    requires forall k :: 0 <= k < |s| ==> s[k].fitness.value >= x.fitness.value
    ensures HasFitness(s + [x]) && Descending(s + [x])
  {
  }

  /** The population by falling fitness, equals in their original order. */
  function SortedByFitness(pop: seq<Individual>): (r: seq<Individual>)
    requires HasFitness(pop)
    ensures |r| == |pop| && HasFitness(r)
  {
    if pop == [] then []
    else
      var r := SortedByFitness(pop[..|pop| - 1]);
      assert forall k :: 0 <= k < |r| ==> r[k] in r;
      Insert(r, pop[|pop| - 1])
  }

  lemma {:induction false} SortedMeans(pop: seq<Individual>)
    requires HasFitness(pop)
    ensures Descending(SortedByFitness(pop)) && multiset(SortedByFitness(pop)) == multiset(pop)
  {
    if pop == [] {
    } else {
      hide Descending;
      var n := |pop| - 1;
      var rest := SortedByFitness(pop[..n]);
      SortedMeans(pop[..n]);
      InsertDescends(rest, pop[n]);
      InsertPermutes(rest, pop[n]);
      assert pop == pop[..n] + [pop[n]];
      assert SortedByFitness(pop) == Insert(rest, pop[n]);
    }
  }

  /** The first of the sorted population is one of the population and beats or equals every other. */
  lemma FirstIsBest(pop: seq<Individual>)
    requires HasFitness(pop) && pop != []
    ensures var best := SortedByFitness(pop)[0];
            best in pop && forall i :: 0 <= i < |pop| ==> best.fitness.value >= pop[i].fitness.value
  {
    var s := SortedByFitness(pop);
    SortedMeans(pop);
    assert s[0] in multiset(s);
    forall i | 0 <= i < |pop| ensures s[0].fitness.value >= pop[i].fitness.value {
      assert pop[i] in multiset(s);
      var k :| 0 <= k < |s| && s[k] == pop[i];
    }
  }

  // ----- The optimizer -----

  class GeneticOptimizer {
    const objective: Objective
    const config: Config

    constructor (objective: Objective, config: Config)
      ensures this.objective == objective && this.config == config
    {
      this.objective, this.config := objective, config;
    }

    /** Simulated binary crossover, whatever spread factor each gene draws: the children are new arrays, their genes
        add up to those of the parents, and their difference is that of the parents times the spread factor. */
    method Crossover(parent1: array<real>, parent2: array<real>)
      returns (child1: array<real>, child2: array<real>, ghost betas: seq<real>)
      requires parent1.Length == parent2.Length
      ensures fresh(child1) && fresh(child2) && child1 != child2
      ensures child1.Length == child2.Length == parent1.Length
      ensures |betas| == parent1.Length && forall k :: 0 <= k < |betas| ==>
                IsCrossed(betas[k], parent1[k], parent2[k], child1[k], child2[k])
    {
      hide IsCrossed;
      betas := [];
      child1 := new real[parent1.Length](_ => 0.0);
      child2 := new real[parent1.Length](_ => 0.0);
      for i := 0 to parent1.Length
        invariant |betas| == i
        invariant forall k :: 0 <= k < i ==> IsCrossed(betas[k], parent1[k], parent2[k], child1[k], child2[k])
      {
        var beta: real :| beta >= 0.0 by {
          assert 0.0 >= 0.0;
        }
        betas := betas + [beta];
        BlendIsCrossed(beta, parent1[i], parent2[i]);
        child1[i] := Blend(beta, parent1[i], parent2[i]);
        child2[i] := Blend(beta, parent2[i], parent1[i]);
      }
    }

    /** Polynomial mutation in place: each gene may move by at most one. */
    method Mutate(individual: array<real>)
      modifies individual
      ensures forall k :: 0 <= k < individual.Length ==> -1.0 <= individual[k] - old(individual[k]) <= 1.0
    {
      for i := 0 to individual.Length
        invariant forall k :: 0 <= k < i ==> -1.0 <= individual[k] - old(individual[k]) <= 1.0
        invariant forall k :: i <= k < individual.Length ==> individual[k] == old(individual[k])
      {
        var chosen: bool := *;
        if chosen {
          var u: real := *;
          // The power of a base between 0 and 1 with a positive exponent.
          var power: real :| 0.0 <= power <= 1.0 by {
            assert 0.0 <= 0.0 <= 1.0;
          }
          var deltaQ := if u < 0.5 then power - 1.0 else 1.0 - power;
          individual[i] := individual[i] + deltaQ;
        }
      }
    }

    /** A tournament of three distinct contestants; the winner is no worse than the others. */
    method Select(pop: seq<Individual>) returns (winner: Individual, ghost contestants: set<nat>)
      requires HasFitness(pop) && |pop| >= 3
      ensures winner in pop && IsWinner(pop, winner, contestants)
    {
      assert AreContestants(|pop|, 0, 1, 2);
      var a: nat, b: nat, c: nat :| AreContestants(|pop|, a, b, c);
      assert AreContestants(|pop|, a, b, c);
      contestants := {a, b, c};
      var w := a;
      if pop[b].fitness.value > pop[w].fitness.value {
        w := b;
      }
      if pop[c].fitness.value > pop[w].fitness.value {
        w := c;
      }
      winner := pop[w];
      assert w in contestants && |contestants| == 3;
    }

    method Clone(a: array<real>) returns (b: array<real>)
      ensures fresh(b) && b[..] == a[..]
    {
      b := new real[a.Length](k requires 0 <= k < a.Length reads a => a[k]);
      assert b[..] == a[..];
    }

    /** Two children of the winners of two tournaments, whose contestants are listed: their genes add up to those of
        the parents but for mutation, which moves each gene by at most one. */
    method Breed(pop: seq<Individual>, ghost dim: nat)
      returns (child1: Individual, child2: Individual, ghost parent1: Individual, ghost parent2: Individual,
               ghost contestants1: set<nat>, ghost contestants2: set<nat>)
      requires HasFitness(pop) && |pop| >= 3 && SameDimension(pop, dim)
      ensures fresh(child1.chromosome) && fresh(child2.chromosome) && child1.chromosome != child2.chromosome
      ensures child1.chromosome.Length == child2.chromosome.Length == dim
      ensures child1.fitness.None? && child2.fitness.None?
      ensures parent1 in pop && parent2 in pop && parent1.chromosome.Length == parent2.chromosome.Length == dim
      ensures IsWinner(pop, parent1, contestants1) && IsWinner(pop, parent2, contestants2)
      ensures forall k :: 0 <= k < dim ==>
                -2.0 <= (child1.chromosome[k] + child2.chromosome[k]) -
                    (parent1.chromosome[k] + parent2.chromosome[k]) <= 2.0
      ensures IsChildOf(parent1.chromosome[..], parent2.chromosome[..], child1.chromosome[..])
      ensures IsChildOf(parent2.chromosome[..], parent1.chromosome[..], child2.chromosome[..])
    {
      hide Blend, IsCrossed, IsWinner, IsChildOf;
      var p1, p2;
      p1, contestants1 := Select(pop);
      p2, contestants2 := Select(pop);
      parent1, parent2 := p1, p2;
      var c1, c2;
      ghost var betas: seq<real>;
      var crossed: bool := *;
      if crossed {
        c1, c2, betas := Crossover(p1.chromosome, p2.chromosome);
        CrossedSums(p1.chromosome[..], p2.chromosome[..], c1[..], c2[..], betas);
        assert forall k :: 0 <= k < dim ==> c1[..][k] + c2[..][k] == p1.chromosome[..][k] + p2.chromosome[..][k];
      } else {
        c1 := Clone(p1.chromosome);
        c2 := Clone(p2.chromosome);
        assert |c1[..]| == dim && |c2[..]| == dim;
        assert forall k :: 0 <= k < dim ==> c1[k] == c1[..][k] && c2[k] == c2[..][k];
        betas := seq(dim, _ => 1.0);
        BlendOfOne();
      }
      assert forall k :: 0 <= k < dim ==> c1[k] + c2[k] == p1.chromosome[k] + p2.chromosome[k];
      ghost var genes1, genes2 := c1[..], c2[..];
      Mutate(c1);
      Mutate(c2);
      ChildrenAreMixed(p1.chromosome[..], p2.chromosome[..], betas, genes1, c1[..]);
      ChildrenAreMixed(p2.chromosome[..], p1.chromosome[..], betas, genes2, c2[..]);
      child1, child2 := Individual(c1, None), Individual(c2, None);
    }

    /** The next population: the elites first, then children.  It has exactly the configured size, and no
        array that existed before the call is written to, so elites and parents keep their genes. */
    method Evolve(pop: seq<Individual>, ghost dim: nat) returns (next: seq<Individual>)
      requires HasFitness(pop) && SameDimension(pop, dim)
      requires |pop| >= 3 || (config.populationSize <= config.eliteSize && config.populationSize <= |pop|)
      ensures |next| == config.populationSize && SameDimension(next, dim)
      ensures forall k :: 0 <= k < |pop| ==> pop[k].chromosome[..] == old(pop[k].chromosome[..])
      ensures forall k :: 0 <= k < |next| && k < config.eliteSize && k < |pop| ==> next[k] == SortedByFitness(pop)[k]
      ensures forall k :: 0 <= k < |next| && !(k < config.eliteSize && k < |pop|) ==>
                HasParents(pop, Genes(pop), next[k].chromosome[..])
      ensures forall k :: 0 <= k < |next| && !(k < config.eliteSize && k < |pop|) ==>
                fresh(next[k].chromosome) && next[k].fitness.None?
      ensures forall j, k :: 0 <= j < k < |next| && !(j < config.eliteSize && j < |pop|) ==>
                next[j].chromosome != next[k].chromosome
    {
      hide HasParents, IsWinner, IsChildOf, SortedByFitness;
      ghost var genes := Genes(pop);
      var sorted := SortedByFitness(pop);
      var elites := if config.eliteSize <= |pop| then config.eliteSize else |pop|;
      next := sorted[..elites];
      SortedKeepsDimension(pop, dim);
      while |next| < config.populationSize
        invariant |next| >= elites && SameDimension(next, dim)
        invariant forall k :: 0 <= k < elites ==> next[k] == sorted[k]
        invariant forall k :: elites <= k < |next| ==> fresh(next[k].chromosome) && next[k].fitness.None?
        invariant forall j, k :: elites <= j < k < |next| ==> next[j].chromosome != next[k].chromosome
        invariant Genes(pop) == genes
        invariant forall k :: elites <= k < |next| ==> HasParents(pop, genes, next[k].chromosome[..])
        decreases config.populationSize - |next|
      {
        var child1, child2;
        ghost var parent1, parent2, contestants1, contestants2;
        child1, child2, parent1, parent2, contestants1, contestants2 := Breed(pop, dim);
        WinnersAreParents(pop, parent1, parent2, contestants1, contestants2, child1.chromosome[..]);
        WinnersAreParents(pop, parent2, parent1, contestants2, contestants1, child2.chromosome[..]);
        next := next + [child1, child2];
      }
      next := next[..config.populationSize];
    }

    /** The population followed by two migrants from each island, shuffled; `picks` are their positions. */
    method IslandMigration(pop: seq<Individual>) returns (next: seq<Individual>, ghost picks: seq<nat>)
      requires config.islandCount > 0 && 2 * config.islandCount <= |pop|
      ensures |next| == |pop| + 2 * config.islandCount && next[..|pop|] == pop
      ensures ArePicks(|pop|, config.islandCount, picks, config.islandCount)
      ensures multiset(next[|pop|..]) == multiset(Picked(pop, picks))
      ensures forall k :: 0 <= k < |next| ==> next[k] in pop
    {
      hide IslandStart, AreSampled, ArePicks;
      NoPicks(|pop|, config.islandCount);
      var migrants: seq<Individual> := [];
      picks := [];
      for i := 0 to config.islandCount
        invariant ArePicks(|pop|, config.islandCount, picks, i)
        invariant |picks| == 2 * i && forall k :: 0 <= k < |picks| ==> picks[k] < |pop|
        invariant migrants == Picked(pop, picks)
      {
        IslandBounds(|pop|, config.islandCount, i);
        var a, b := SampleTwo(IslandStart(|pop|, config.islandCount, i), IslandStart(|pop|, config.islandCount, i + 1));
        PicksGrow(|pop|, config.islandCount, picks, i, a, b);
        assert Picked(pop, picks + [a, b]) == Picked(pop, picks) + [pop[a], pop[b]];
        migrants := migrants + [pop[a], pop[b]];
        picks := picks + [a, b];
      }
      migrants := Shuffle(migrants);
      next := pop + migrants;
      assert next[|pop|..] == migrants;
      assert forall k :: 0 <= k < |migrants| ==> next[|pop| + k] == migrants[k];
    }

    method SampleTwo(lo: nat, hi: nat) returns (a: nat, b: nat)
      requires lo + 2 <= hi
      ensures AreSampled(lo, hi, a, b)
    {
      assert AreSampled(lo, hi, lo, lo + 1);
      a, b :| AreSampled(lo, hi, a, b);
    }

    method Shuffle(s: seq<Individual>) returns (t: seq<Individual>)
      ensures multiset(t) == multiset(s) && |t| == |s| && forall k :: 0 <= k < |t| ==> t[k] in s
    {
      assert IsShuffle(s, s);
      t :| IsShuffle(s, t);
      assert IsShuffle(s, t);
      forall k | 0 <= k < |t| ensures t[k] in s {
        assert t[k] in multiset(t);
        assert t[k] in multiset(s);
      }
    }

    /** One generation from an evaluated population to the next evaluated one.  With at least one elite the
        best fitness does not fall: some individual of the result is at least as good as all of `pop`, even if
        the objective raises on others. */
    method Generation(pop: seq<Individual>, migrate: bool, ghost dim: nat)
      returns (next: seq<Individual>, ghost best: nat)
      requires IsEvaluated(objective, pop) && HasFitness(pop) && |pop| >= 3 && SameDimension(pop, dim)
      requires config.eliteSize > 0 && config.populationSize > 0
      requires migrate ==> config.islandCount > 0 && 2 * config.islandCount <= config.populationSize
      ensures IsEvaluated(objective, next) && SameDimension(next, dim)
      ensures |next| == config.populationSize + (if migrate then 2 * config.islandCount else 0)
      ensures best < |next| && next[best].fitness.Some?
      ensures forall i :: 0 <= i < |pop| ==> next[best].fitness.value >= pop[i].fitness.value
      ensures IsEvaluated(objective, pop)
    {
      var evolved := Evolve(pop, dim);
      FirstIsBest(pop);
      var elite := SortedByFitness(pop)[0];
      assert evolved[0] == elite;
      if migrate {
        var migrated, _ := IslandMigration(evolved);
        assert migrated[0] == migrated[..|evolved|][0];
        evolved := migrated;
      }
      next := Evaluate(objective, evolved);
      best := 0;
    }
  }

  // ----- Parents and children -----

  /** The winner of a tournament of three distinct contestants: one of them, and none is fitter. */
  ghost predicate IsWinner(pop: seq<Individual>, winner: Individual, contestants: set<nat>)
    requires HasFitness(pop)
  {
    && winner.fitness.Some? && |contestants| == 3 && (exists i :: i in contestants && i < |pop| && winner == pop[i])
    && forall i :: i in contestants ==> i < |pop| && winner.fitness.value >= pop[i].fitness.value
  }

  /** Each gene is, but for a mutation by at most one, the share that some spread factor gives to this child. */
  ghost predicate IsChildOf(near: seq<real>, far: seq<real>, genes: seq<real>) {
    && |near| == |far| == |genes|
    && forall k :: 0 <= k < |genes| ==> IsMixture(near[k], far[k], genes[k])
  }

  ghost predicate IsMixture(near: real, far: real, gene: real) {
    exists beta :: IsMixedBy(beta, near, far, gene)
  }

  ghost predicate IsMixedBy(beta: real, near: real, far: real, gene: real) {
    beta >= 0.0 && -1.0 <= gene - Blend(beta, near, far) <= 1.0
  }

  lemma ChildrenAreMixed(near: seq<real>, far: seq<real>, betas: seq<real>, genes: seq<real>, mutated: seq<real>)
    requires |near| == |far| == |betas| == |genes| == |mutated|
    requires forall k :: 0 <= k < |betas| ==> betas[k] >= 0.0 && genes[k] == Blend(betas[k], near[k], far[k])
    requires forall k :: 0 <= k < |betas| ==> -1.0 <= mutated[k] - genes[k] <= 1.0
    ensures IsChildOf(near, far, mutated)
  {
    hide Blend;
    forall k | 0 <= k < |betas| ensures IsMixture(near[k], far[k], mutated[k]) {
      assert IsMixedBy(betas[k], near[k], far[k], mutated[k]);
    }
  }

  lemma BlendOfOne()
    ensures forall a, b :: Blend(1.0, a, b) == a
  {
    forall a, b ensures Blend(1.0, a, b) == a {
      assert (1.0 + 1.0) * a + (1.0 - 1.0) * b == 2.0 * a;
    }
  }

  /** The genes of the individuals. */
  function Genes(pop: seq<Individual>): (genes: seq<seq<real>>)
    reads Chromosomes(pop)
    ensures |genes| == |pop| && forall i :: 0 <= i < |pop| ==> genes[i] == pop[i].chromosome[..]
  {
    seq(|pop|, i requires 0 <= i < |pop| reads Chromosomes(pop) => pop[i].chromosome[..])
  }

  /** `child` descends from the winners of two tournaments of a population with these genes. */
  ghost predicate HasParents(pop: seq<Individual>, genes: seq<seq<real>>, child: seq<real>)
    requires HasFitness(pop) && |genes| == |pop|
  {
    exists i, j ::
      && 0 <= i < |pop| && 0 <= j < |pop| && WinsSome(pop, i) && WinsSome(pop, j)
      && IsChildOf(genes[i], genes[j], child)
  }

  ghost predicate WinsSome(pop: seq<Individual>, i: int)
    requires HasFitness(pop) && 0 <= i < |pop|
  {
    exists contestants :: IsWinner(pop, pop[i], contestants)
  }

  lemma WinnersAreParents(pop: seq<Individual>, parent1: Individual, parent2: Individual, contestants1: set<nat>,
                          contestants2: set<nat>, child: seq<real>)
    requires HasFitness(pop) && IsWinner(pop, parent1, contestants1) && IsWinner(pop, parent2, contestants2)
    requires IsChildOf(parent1.chromosome[..], parent2.chromosome[..], child)
    ensures HasParents(pop, Genes(pop), child)
  {
    var i :| i in contestants1 && i < |pop| && parent1 == pop[i];
    var j :| j in contestants2 && j < |pop| && parent2 == pop[j];
    assert WinsSome(pop, i) && WinsSome(pop, j);
  }

  // ----- Islands -----

  /** The islands begin at the start and follow one another; the first `n % k` have one more than the others. */
  lemma IslandSizes(n: nat, k: nat, i: nat)
    requires k > 0
    ensures IslandStart(n, k, 0) == 0
    ensures IslandStart(n, k, i + 1) - IslandStart(n, k, i) == n / k + if i < n % k then 1 else 0
  {
    assert (i + 1) * (n / k) == i * (n / k) + n / k;
  }

  /** Where island `i` of `k` starts when `n` individuals are split: the first `n % k` islands get one more. */
  function IslandStart(n: nat, k: nat, i: nat): nat
    requires k > 0
  {
    i * (n / k) + if i < n % k then i else n % k
  }

  lemma {:induction false} MulMonotone(a: nat, b: nat, q: nat)
    requires a <= b
    ensures a * q <= b * q
  {
    if a == b {
    } else {
      MulMonotone(a, b - 1, q);
      assert b * q == (b - 1) * q + q;
    }
  }

  lemma QuotientAtLeastTwo(n: nat, k: nat)
    requires k > 0 && 2 * k <= n
    ensures n / k >= 2 && n == k * (n / k) + n % k && n % k < k
  {
    var q, r := n / k, n % k;
    assert n == k * q + r;
    if q <= 1 {
      MulMonotone(q, 1, k);
    }
  }

  /** With at least two individuals for each island, every island has two and the last ends at the end. */
  lemma IslandBounds(n: nat, k: nat, i: nat)
    requires k > 0 && 2 * k <= n && i < k
    ensures IslandStart(n, k, i) + 2 <= IslandStart(n, k, i + 1) <= n
    ensures i + 1 == k ==> IslandStart(n, k, i + 1) == n
  {
    QuotientAtLeastTwo(n, k);
    var q, r := n / k, n % k;
    assert (i + 1) * q == i * q + q;
    MulMonotone(i + 1, k, q);
  }

  predicate AreSampled(lo: nat, hi: nat, a: nat, b: nat) {
    lo <= a < hi && lo <= b < hi && a != b
  }

  /** Two different positions in each of the first `done` islands, in order. */
  predicate ArePicks(n: nat, k: nat, picks: seq<nat>, done: nat)
    requires k > 0
  {
    && |picks| == 2 * done
    && (forall i :: 0 <= i < |picks| ==> picks[i] < n)
    && forall i :: 0 <= i < done ==>
        AreSampled(IslandStart(n, k, i), IslandStart(n, k, i + 1), picks[2 * i], picks[2 * i + 1])
  }

  lemma PicksGrow(n: nat, k: nat, picks: seq<nat>, i: nat, a: nat, b: nat)
    requires k > 0 && 2 * k <= n && i < k && ArePicks(n, k, picks, i)
    requires AreSampled(IslandStart(n, k, i), IslandStart(n, k, i + 1), a, b)
    ensures ArePicks(n, k, picks + [a, b], i + 1) && a < n && b < n
  {
    hide IslandStart;
    IslandBounds(n, k, i);
  }

  lemma NoPicks(n: nat, k: nat)
    requires k > 0
    ensures ArePicks(n, k, [], 0)
  {
  }

  function Picked(pop: seq<Individual>, picks: seq<nat>): (r: seq<Individual>)
    requires forall i :: 0 <= i < |picks| ==> picks[i] < |pop|
    ensures |r| == |picks| && forall i :: 0 <= i < |r| ==> r[i] in pop
  {
    seq(|picks|, i requires 0 <= i < |picks| => pop[picks[i]])
  }

  predicate IsShuffle(s: seq<Individual>, t: seq<Individual>) {
    |t| == |s| && multiset(t) == multiset(s)
  }

  predicate AreContestants(n: nat, a: nat, b: nat, c: nat) {
    a < n && b < n && c < n && a != b && b != c && a != c
  }

  /** The share of two genes that spread factor `beta` gives to a child. */
  function Blend(beta: real, a: real, b: real): real {
    0.5 * ((1.0 + beta) * a + (1.0 - beta) * b)
  }

  /** What crossing the genes `a` and `b` by a spread factor promises of the children's genes `x` and `y`. */
  ghost predicate IsCrossed(beta: real, a: real, b: real, x: real, y: real) {
    && beta >= 0.0 && x + y == a + b && x - y == beta * (a - b) && (a == b ==> x == a)
    && x == Blend(beta, a, b) && y == Blend(beta, b, a)
  }

  lemma BlendIsCrossed(beta: real, a: real, b: real)
    requires beta >= 0.0
    ensures IsCrossed(beta, a, b, Blend(beta, a, b), Blend(beta, b, a))
  {
    assert (1.0 + beta) * a + (1.0 - beta) * a == 2.0 * a;
    assert (1.0 + beta) * b + (1.0 - beta) * b == 2.0 * b;
  }

  lemma CrossedSums(a: seq<real>, b: seq<real>, x: seq<real>, y: seq<real>, betas: seq<real>)
    requires |a| == |b| == |x| == |y| == |betas|
    requires forall k :: 0 <= k < |a| ==> IsCrossed(betas[k], a[k], b[k], x[k], y[k])
    ensures forall k :: 0 <= k < |a| ==> x[k] + y[k] == a[k] + b[k] && betas[k] >= 0.0
    ensures forall k :: 0 <= k < |a| ==> x[k] == Blend(betas[k], a[k], b[k]) && y[k] == Blend(betas[k], b[k], a[k])
  {
    hide Blend;
  }

  lemma SortedKeepsDimension(pop: seq<Individual>, dim: nat)
    requires HasFitness(pop) && SameDimension(pop, dim)
    ensures SameDimension(SortedByFitness(pop), dim)
  {
    var s := SortedByFitness(pop);
    SortedMeans(pop);
    forall i | 0 <= i < |s| ensures s[i].chromosome.Length == dim {
      assert s[i] in multiset(s);
      assert s[i] in multiset(pop);
      var k :| 0 <= k < |pop| && pop[k] == s[i];
    }
  }
}
