/**
 The genetic operators: seeding the first population, tournament selection,
 the fixed 30/70 crossover and the swap mutation. Every random choice of the
 program is an explicit argument here.
 */
module Operators {
  import opened Knapsack

  /** The chromosome of `n` flags with only flag `k` set. */
  function Seed(n: nat, k: nat): seq<bool>
    requires k < n
  {
    seq(n, i => i == k)
  }

  /** A seeded chromosome includes exactly one item, the drawn one, and
      therefore weighs and is worth exactly that item. */
  lemma {:induction false} SeedSums(items: seq<Item>, k: nat, a: Attribute, n: nat)
    requires k < |items| && n <= |items|
    ensures PrefixSum(items, Seed(|items|, k), a, n) == if k < n then Measure(items[k], a) else 0
  {
    if n > 0 {
      SeedSums(items, k, a, n - 1);
    }
  }

  /** One seed individual: only item `k` is included, so it weighs and is
      worth exactly that item. */
  function SeedIndividual(items: seq<Item>, capacity: nat, k: nat): (ind: Individual)
    requires k < |items|
    ensures Consistent(items, capacity, ind)
    ensures ind.chromosome[k] && forall i :: 0 <= i < |items| && i != k ==> !ind.chromosome[i]
    ensures CountIncluded(items, ind.chromosome) == 1
    ensures ind.fitness == if items[k].weight <= capacity then items[k].value else 0
  {
    SeedSums(items, k, Weight, |items|);
    SeedSums(items, k, Value, |items|);
    SeedSums(items, k, Count, |items|);
    Evaluate(items, capacity, Seed(|items|, k))
  }

  /** The first population: one seed individual per drawn index. */
  function InitializePopulation(items: seq<Item>, capacity: nat, indices: seq<nat>): (population: seq<Individual>)
    requires forall i :: 0 <= i < |indices| ==> indices[i] < |items|
    ensures |population| == |indices|
    ensures forall i :: 0 <= i < |population| ==>
      && Consistent(items, capacity, population[i])
      && population[i].chromosome[indices[i]]
      && CountIncluded(items, population[i].chromosome) == 1
      && population[i].fitness == (if items[indices[i]].weight <= capacity then items[indices[i]].value else 0)
  {
    seq(|indices|, i requires 0 <= i < |indices| => SeedIndividual(items, capacity, indices[i]))
  }

  /** Index of the first individual of maximal cached fitness, the element
      `Collections.max` returns: it scans in order and only replaces its
      candidate by a strictly fitter one. */
  function MaxFitnessIndex(xs: seq<Individual>): (k: nat)
    requires |xs| > 0
    ensures k < |xs|
    ensures forall j :: 0 <= j < |xs| ==> xs[j].fitness <= xs[k].fitness
    ensures forall j :: 0 <= j < k ==> xs[j].fitness < xs[k].fitness
  {
    if |xs| == 1 then 0
    else
      var k := MaxFitnessIndex(xs[..|xs| - 1]);
      if xs[|xs| - 1].fitness > xs[k].fitness then |xs| - 1 else k
  }

  /** The individuals a tournament draws, in draw order. */
  function Tournament(population: seq<Individual>, picks: seq<nat>): (t: seq<Individual>)
    requires forall i :: 0 <= i < |picks| ==> picks[i] < |population|
    ensures |t| == |picks| && forall i :: 0 <= i < |picks| ==> t[i] == population[picks[i]]
  {
    seq(|picks|, i requires 0 <= i < |picks| => population[picks[i]])
  }

  /** Tournament selection over five drawn indices (drawn with replacement):
      the winner is a drawn member of the population, at least as fit as
      every other draw, and strictly fitter than every draw before it. */
  function SelectParent(population: seq<Individual>, picks: seq<nat>): (parent: Individual)
    requires |picks| == TOURNAMENT_SIZE
    requires forall i :: 0 <= i < |picks| ==> picks[i] < |population|
    ensures parent in population
    ensures exists w ::
      && 0 <= w < |picks|
      && parent == population[picks[w]]
      && forall j :: 0 <= j < w ==> population[picks[j]].fitness < parent.fitness
    ensures forall i :: 0 <= i < |picks| ==> population[picks[i]].fitness <= parent.fitness
  {
    var t := Tournament(population, picks);
    t[MaxFitnessIndex(t)]
  }

  /** The fixed crossover point: 30% of the chromosome, 30 for 100 items. */
  function SplitPoint(n: nat): (s: nat)
    ensures s <= n
    ensures n == NUM_ITEMS ==> s == 30
  {
    n * 3 / 10
  }

  /** Single-point crossover at the fixed split: the child takes the flags
      below the split point from the first parent and the rest from the
      second, and its fitness is evaluated. */
  function Crossover(items: seq<Item>, capacity: nat, parent1: Individual, parent2: Individual): (child: Individual)
    requires |parent1.chromosome| == |items| && |parent2.chromosome| == |items|
    ensures Consistent(items, capacity, child)
    ensures forall i :: 0 <= i < SplitPoint(|items|) ==> child.chromosome[i] == parent1.chromosome[i]
    ensures forall i :: SplitPoint(|items|) <= i < |items| ==> child.chromosome[i] == parent2.chromosome[i]
  {
    var s := SplitPoint(|items|);
    Evaluate(items, capacity, parent1.chromosome[..s] + parent2.chromosome[s..])
  }

  /** The child's weight (and value, and item count) is the first parent's
      sum below the split point plus the second parent's sum from it on. */
  lemma CrossoverSums(items: seq<Item>, capacity: nat, parent1: Individual, parent2: Individual, a: Attribute)
    requires |parent1.chromosome| == |items| && |parent2.chromosome| == |items|
    ensures var s := SplitPoint(|items|);
      Total(items, Crossover(items, capacity, parent1, parent2).chromosome, a)
      == PrefixSum(items, parent1.chromosome, a, s)
       + (Total(items, parent2.chromosome, a) - PrefixSum(items, parent2.chromosome, a, s))
  {
    var s := SplitPoint(|items|);
    var c := Crossover(items, capacity, parent1, parent2).chromosome;
    PrefixSumAgree(items, c, parent1.chromosome, a, s);
    SuffixSumAgree(items, c, parent2.chromosome, a, s, |items|);
    PrefixSumMonotone(items, c, a, s, |items|);
    PrefixSumMonotone(items, parent2.chromosome, a, s, |items|);
  }

  /** Crossing a consistent individual with itself gives it back unchanged. */
  lemma CrossoverSelf(items: seq<Item>, capacity: nat, parent: Individual)
    requires Consistent(items, capacity, parent)
    ensures Crossover(items, capacity, parent, parent) == parent
  {
    assert parent.chromosome[..SplitPoint(|items|)] + parent.chromosome[SplitPoint(|items|)..] == parent.chromosome;
  }

  /** The outcome of the mutation draw: no mutation, or a transposition of
      two drawn positions (which may coincide). */
  datatype MutationDraw = Keep | Transpose(index1: nat, index2: nat)

  predicate ValidMutation(m: MutationDraw, n: nat)
  {
    m.Transpose? ==> m.index1 < n && m.index2 < n
  }

  /** Position `i` is one of the two positions a transposition exchanges. */
  predicate Touches(m: MutationDraw, i: nat)
  {
    m.Transpose? && (i == m.index1 || i == m.index2)
  }

  /** Exchanges the flags at positions `a` and `b`. */
  function SwapGenes(c: seq<bool>, a: nat, b: nat): (d: seq<bool>)
    requires a < |c| && b < |c|
    ensures |d| == |c| && d[a] == c[b] && d[b] == c[a]
    ensures forall k :: 0 <= k < |c| && k != a && k != b ==> d[k] == c[k]
  {
    c[a := c[b]][b := c[a]]
  }

  /** Swapping two flags twice restores the chromosome. */
  lemma SwapGenesInvolution(c: seq<bool>, a: nat, b: nat)
    requires a < |c| && b < |c|
    ensures SwapGenes(SwapGenes(c, a, b), a, b) == c
  {
  }

  /** A transposition never changes how many items are included. */
  lemma SwapGenesCount(items: seq<Item>, c: seq<bool>, a: nat, b: nat)
    requires |c| == |items| && a < |c| && b < |c|
    ensures CountIncluded(items, SwapGenes(c, a, b)) == CountIncluded(items, c)
  {
    var c1 := c[a := c[b]];
    TotalUpdate(items, c, Count, a, c[b]);
    TotalUpdate(items, c1, Count, b, c[a]);
  }

  /** Mutation: a drawn transposition exchanges two flags, and the fitness
      is evaluated afterwards whether or not the transposition happened, so
      the result is consistent even when the input's cache was stale. */
  function Mutate(items: seq<Item>, capacity: nat, ind: Individual, m: MutationDraw): (r: Individual)
    requires |ind.chromosome| == |items| && ValidMutation(m, |items|)
    ensures Consistent(items, capacity, r)
    ensures CountIncluded(items, r.chromosome) == CountIncluded(items, ind.chromosome)
    ensures m.Keep? ==> r.chromosome == ind.chromosome
    ensures m.Transpose? ==>
      && r.chromosome[m.index1] == ind.chromosome[m.index2]
      && r.chromosome[m.index2] == ind.chromosome[m.index1]
      && forall k :: 0 <= k < |items| && k != m.index1 && k != m.index2 ==> r.chromosome[k] == ind.chromosome[k]
  {
    match m
    case Keep => Evaluate(items, capacity, ind.chromosome)
    case Transpose(a, b) =>
      SwapGenesCount(items, ind.chromosome, a, b);
      Evaluate(items, capacity, SwapGenes(ind.chromosome, a, b))
  }
}
