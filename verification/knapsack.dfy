/**
 The 0/1 knapsack instance and the fitness of a candidate solution.

 An item catalog is a sequence of (weight, value) pairs; a chromosome is a
 sequence of inclusion flags indexed like the catalog. An `Individual` pairs a
 chromosome with its cached fitness, and `Consistent` says that cache is
 up to date.
 */
module Knapsack {

  /** The program's catalog size and tournament size. The capacity, the
      population size and the number of generations are parameters of the
      model. */
  const NUM_ITEMS: nat := 100
  const TOURNAMENT_SIZE: nat := 5

  /** Ranges of the item generator: weight in [1, 25], value in [2, 30]. */
  const MIN_WEIGHT: nat := 1
  const MAX_WEIGHT: nat := 25
  const MIN_VALUE: nat := 2
  const MAX_VALUE: nat := 30

  datatype Item = Item(weight: nat, value: nat)

  /** Which quantity of an included item is being summed. `Count` counts
      included items (every item contributes one). */
  datatype Attribute = Weight | Value | Count

  function Measure(item: Item, a: Attribute): nat
  {
    match a
    case Weight => item.weight
    case Value => item.value
    case Count => 1
  }

  /** Every item lies in the generator's ranges. */
  predicate WellFormedCatalog(items: seq<Item>)
  {
    forall k :: 0 <= k < |items| ==>
      MIN_WEIGHT <= items[k].weight <= MAX_WEIGHT && MIN_VALUE <= items[k].value <= MAX_VALUE
  }

  /** Sum of attribute `a` over the included items among the first `n`. */
  function PrefixSum(items: seq<Item>, c: seq<bool>, a: Attribute, n: nat): nat
    requires |c| == |items| && n <= |c|
  {
    if n == 0 then 0
    else PrefixSum(items, c, a, n - 1) + (if c[n - 1] then Measure(items[n - 1], a) else 0)
  }

  function Total(items: seq<Item>, c: seq<bool>, a: Attribute): nat
    requires |c| == |items|
  {
    PrefixSum(items, c, a, |c|)
  }

  function TotalWeight(items: seq<Item>, c: seq<bool>): nat
    requires |c| == |items|
  {
    Total(items, c, Weight)
  }

  function TotalValue(items: seq<Item>, c: seq<bool>): nat
    requires |c| == |items|
  {
    Total(items, c, Value)
  }

  /** Number of `true` flags in the chromosome. */
  function CountIncluded(items: seq<Item>, c: seq<bool>): nat
    requires |c| == |items|
  {
    Total(items, c, Count)
  }

  predicate Feasible(items: seq<Item>, c: seq<bool>, capacity: nat)
    requires |c| == |items|
  {
    TotalWeight(items, c) <= capacity
  }

  /** Reference definition of fitness: the total value of the included items
      when they fit in the knapsack, and zero otherwise. */
  function Fitness(items: seq<Item>, c: seq<bool>, capacity: nat): nat
    requires |c| == |items|
  {
    if Feasible(items, c, capacity) then TotalValue(items, c) else 0
  }

  /** A candidate solution with its cached fitness. */
  datatype Individual = Individual(chromosome: seq<bool>, fitness: nat)

  /** The chromosome is indexed like the catalog and the cached fitness is
      not stale. */
  predicate Consistent(items: seq<Item>, capacity: nat, ind: Individual)
  {
    |ind.chromosome| == |items| && ind.fitness == Fitness(items, ind.chromosome, capacity)
  }

  /** A chromosome paired with its reference fitness; the operators build
      individuals through it. */
  function Evaluate(items: seq<Item>, capacity: nat, c: seq<bool>): Individual
    requires |c| == |items|
  {
    Individual(c, Fitness(items, c, capacity))
  }

  /** The fitness evaluation loop: one pass that accumulates the weight and
      the value of the included items, then applies the capacity test. */
  method CalculateFitness(items: seq<Item>, capacity: nat, c: seq<bool>) returns (fitness: nat)
    requires |c| == |items|
    ensures fitness == Fitness(items, c, capacity)
    ensures TotalWeight(items, c) <= capacity ==> fitness == TotalValue(items, c)
    ensures TotalWeight(items, c) > capacity ==> fitness == 0
  {
    var totalWeight, totalValue := 0, 0;
    var i := 0;
    while i < |c|
      invariant 0 <= i <= |c|
      invariant totalWeight == PrefixSum(items, c, Weight, i)
      invariant totalValue == PrefixSum(items, c, Value, i)
    {
      if c[i] {
        totalWeight := totalWeight + items[i].weight;
        totalValue := totalValue + items[i].value;
      }
      i := i + 1;
    }
    fitness := if totalWeight <= capacity then totalValue else 0;
  }

  /** The `Individual` constructor: wraps a chromosome and runs the
      evaluation loop straight away, so a new individual's cache is up to
      date and equals the reference individual for that chromosome. */
  method NewIndividual(items: seq<Item>, capacity: nat, c: seq<bool>) returns (ind: Individual)
    requires |c| == |items|
    ensures ind.chromosome == c && Consistent(items, capacity, ind)
    ensures ind == Evaluate(items, capacity, c)
  {
    var fitness := CalculateFitness(items, capacity, c);
    ind := Individual(c, fitness);
  }

  /** Changing one flag changes a prefix sum by that item's contribution
      (removed if it was included, added if it now is). */
  lemma {:induction false} PrefixSumUpdate(items: seq<Item>, c: seq<bool>, a: Attribute, k: nat, b: bool, n: nat)
    requires |c| == |items| && k < |c| && n <= |c|
    ensures PrefixSum(items, c[k := b], a, n) + (if k < n && c[k] then Measure(items[k], a) else 0)
         == PrefixSum(items, c, a, n) + (if k < n && b then Measure(items[k], a) else 0)
  {
    if n > 0 {
      PrefixSumUpdate(items, c, a, k, b, n - 1);
    }
  }

  /** Setting flag `k` to `b` moves the total by item `k`'s contribution. */
  lemma TotalUpdate(items: seq<Item>, c: seq<bool>, a: Attribute, k: nat, b: bool)
    requires |c| == |items| && k < |c|
    ensures Total(items, c[k := b], a) + (if c[k] then Measure(items[k], a) else 0)
         == Total(items, c, a) + (if b then Measure(items[k], a) else 0)
  {
    PrefixSumUpdate(items, c, a, k, b, |c|);
  }

  /** A prefix sum only depends on the flags inside the prefix. */
  lemma {:induction false} PrefixSumAgree(items: seq<Item>, c: seq<bool>, d: seq<bool>, a: Attribute, n: nat)
    requires |c| == |items| && |d| == |items| && n <= |c|
    requires forall i :: 0 <= i < n ==> c[i] == d[i]
    ensures PrefixSum(items, c, a, n) == PrefixSum(items, d, a, n)
  {
    if n > 0 {
      PrefixSumAgree(items, c, d, a, n - 1);
    }
  }

  /** The part of a sum above position `s` only depends on the flags above `s`. */
  lemma {:induction false} SuffixSumAgree(items: seq<Item>, c: seq<bool>, d: seq<bool>, a: Attribute, s: nat, n: nat)
    requires |c| == |items| && |d| == |items| && s <= n <= |c|
    requires forall i :: s <= i < n ==> c[i] == d[i]
    ensures PrefixSum(items, c, a, n) - PrefixSum(items, c, a, s)
         == PrefixSum(items, d, a, n) - PrefixSum(items, d, a, s)
  {
    if n > s {
      SuffixSumAgree(items, c, d, a, s, n - 1);
      PrefixSumMonotone(items, c, a, s, n - 1);
      PrefixSumMonotone(items, d, a, s, n - 1);
    }
  }

  /** Prefix sums grow with the prefix. */
  lemma {:induction false} PrefixSumMonotone(items: seq<Item>, c: seq<bool>, a: Attribute, m: nat, n: nat)
    requires |c| == |items| && m <= n <= |c|
    ensures PrefixSum(items, c, a, m) <= PrefixSum(items, c, a, n)
  {
    if m < n {
      PrefixSumMonotone(items, c, a, m, n - 1);
    }
  }

  /** Including more items never lowers a sum. */
  lemma {:induction false} PrefixSumSubset(items: seq<Item>, c: seq<bool>, d: seq<bool>, a: Attribute, n: nat)
    requires |c| == |items| && |d| == |items| && n <= |c|
    requires forall i :: 0 <= i < n && c[i] ==> d[i]
    ensures PrefixSum(items, c, a, n) <= PrefixSum(items, d, a, n)
  {
    if n > 0 {
      PrefixSumSubset(items, c, d, a, n - 1);
    }
  }

  /** Each item contributes at most `bound` to a sum over `n` items. */
  lemma {:induction false} PrefixSumBound(items: seq<Item>, c: seq<bool>, a: Attribute, bound: nat, n: nat)
    requires |c| == |items| && n <= |c|
    requires forall k :: 0 <= k < |items| ==> Measure(items[k], a) <= bound
    ensures PrefixSum(items, c, a, n) <= bound * n
  {
    if n > 0 {
      PrefixSumBound(items, c, a, bound, n - 1);
      assert Measure(items[n - 1], a) <= bound;
      assert bound * n == bound * (n - 1) + bound;
    }
  }

  /** The chromosome that includes every item. */
  function AllIncluded(n: nat): seq<bool>
  {
    seq(n, i => true)
  }

  /** Fitness is never negative and never exceeds the value of the whole
      catalog; an over-capacity chromosome scores exactly zero whatever its
      value. */
  lemma FitnessBounds(items: seq<Item>, c: seq<bool>, capacity: nat)
    requires |c| == |items|
    ensures 0 <= Fitness(items, c, capacity) <= TotalValue(items, AllIncluded(|items|))
    ensures TotalWeight(items, c) > capacity ==> Fitness(items, c, capacity) == 0
    ensures TotalWeight(items, c) <= capacity ==> Fitness(items, c, capacity) == TotalValue(items, c)
  {
    PrefixSumSubset(items, c, AllIncluded(|items|), Value, |c|);
  }

  /** With the generator's ranges, sums stay far below the 32-bit limit of
      the program's `int` (2500 and 3000 for 100 items), so the
      unbounded integers of the model do not hide an overflow. */
  lemma TotalsFitInInt(items: seq<Item>, c: seq<bool>)
    requires |c| == |items| && WellFormedCatalog(items)
    ensures TotalWeight(items, c) <= MAX_WEIGHT * |items|
    ensures TotalValue(items, c) <= MAX_VALUE * |items|
    ensures |items| == NUM_ITEMS ==> TotalWeight(items, c) <= 2500 && TotalValue(items, c) <= 3000
  {
    PrefixSumBound(items, c, Weight, MAX_WEIGHT, |c|);
    PrefixSumBound(items, c, Value, MAX_VALUE, |c|);
  }
}
