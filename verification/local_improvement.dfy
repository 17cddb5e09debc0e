/**
 The greedy repair step that makes the genetic algorithm memetic: a single
 forward pass over the items that fills free capacity and swaps included
 items for more valuable excluded ones, keeping a running total weight.
 */
module LocalSearch {
  import opened Knapsack

  /** Item `j` may replace the included item `i`: it is excluded, strictly
      more valuable, and the exchange keeps the total weight within capacity. */
  predicate ImprovingSwap(items: seq<Item>, capacity: nat, c: seq<bool>, totalWeight: int, i: nat, j: nat)
    requires |c| == |items| && i < |items| && j < |items|
  {
    !c[j] && items[j].value > items[i].value && totalWeight - items[i].weight + items[j].weight <= capacity
  }

  /** The pass has no move at position `k` of chromosome `c`: an excluded
      item does not fit, and an included item has no improving swap. */
  predicate Stable(items: seq<Item>, capacity: nat, c: seq<bool>, k: nat)
    requires |c| == |items| && k < |items|
  {
    && (!c[k] ==> TotalWeight(items, c) + items[k].weight > capacity)
    && (c[k] ==> forall j :: 0 <= j < |items| ==> !ImprovingSwap(items, capacity, c, TotalWeight(items, c), k, j))
  }

  /** No position of `c` admits a fill or an improving swap. */
  predicate Settled(items: seq<Item>, capacity: nat, c: seq<bool>)
    requires |c| == |items|
  {
    forall k :: 0 <= k < |items| ==> Stable(items, capacity, c, k)
  }

  /** What one pass guarantees about its result `after` for the input
      chromosome `before`:
      - the fitness is evaluated;
      - a feasible input stays feasible, and a changed result is feasible;
      - total value and the number of included items never drop, and the
        value strictly rises when the chromosome changes;
      - the chromosome is left unchanged exactly when no position admits a
        fill or an improving swap;
      - so the fitness never drops. */
  predicate Improves(items: seq<Item>, capacity: nat, before: seq<bool>, after: Individual)
    requires |before| == |items|
  {
    && Consistent(items, capacity, after)
    && (Feasible(items, before, capacity) ==> Feasible(items, after.chromosome, capacity))
    && (after.chromosome == before || Feasible(items, after.chromosome, capacity))
    && TotalValue(items, after.chromosome) >= TotalValue(items, before)
    && (WellFormedCatalog(items) ==>
          after.chromosome == before || TotalValue(items, after.chromosome) > TotalValue(items, before))
    && CountIncluded(items, after.chromosome) >= CountIncluded(items, before)
    && (Settled(items, capacity, before) ==> after.chromosome == before)
    && (WellFormedCatalog(items) && after.chromosome == before ==> Settled(items, capacity, before))
    && after.fitness >= Fitness(items, before, capacity)
  }

  /** One forward pass over the items. At position `i`:
      - an excluded item that still fits is included;
      - otherwise an included item is exchanged for the first excluded item,
        in index order, that is strictly more valuable and keeps the total
        weight within capacity (if there is one).
      The running weight always equals the weight of the included items, so
      every accepted move leaves the knapsack within capacity, and every
      accepted move raises the total value. A position that admits no move
      when it is visited leaves the chromosome untouched. The fitness is
      evaluated once at the end. */
  method LocalImprovement(items: seq<Item>, capacity: nat, ind: Individual) returns (r: Individual)
    requires |ind.chromosome| == |items|
    ensures Improves(items, capacity, ind.chromosome, r)
  {
    var c := ind.chromosome;
    var totalWeight: int := 0;
    var i := 0;
    while i < |items|
      invariant 0 <= i <= |items|
      invariant totalWeight == PrefixSum(items, c, Weight, i)
    {
      if c[i] {
        totalWeight := totalWeight + items[i].weight;
      }
      i := i + 1;
    }

    i := 0;
    while i < |items|
      invariant 0 <= i <= |items|
      invariant |c| == |items|
      invariant totalWeight == TotalWeight(items, c)
      invariant c == ind.chromosome || totalWeight <= capacity
      invariant TotalValue(items, c) >= TotalValue(items, ind.chromosome)
      invariant WellFormedCatalog(items) ==>
        c == ind.chromosome || TotalValue(items, c) > TotalValue(items, ind.chromosome)
      invariant CountIncluded(items, c) >= CountIncluded(items, ind.chromosome)
      invariant Settled(items, capacity, ind.chromosome) ==> c == ind.chromosome
      invariant WellFormedCatalog(items) && c == ind.chromosome ==>
        forall k :: 0 <= k < i ==> Stable(items, capacity, c, k)
    {
      assert Settled(items, capacity, ind.chromosome) ==> Stable(items, capacity, c, i);
      if !c[i] && totalWeight + items[i].weight <= capacity {
        // fill: include item i
        TotalUpdate(items, c, Weight, i, true);
        TotalUpdate(items, c, Value, i, true);
        TotalUpdate(items, c, Count, i, true);
        c := c[i := true];
        totalWeight := totalWeight + items[i].weight;
      } else if c[i] {
        // swap: exclude item i for the first more valuable item that fits
        var j := 0;
        while j < |items|
          invariant 0 <= j <= |items|
          invariant forall j' :: 0 <= j' < j ==> !ImprovingSwap(items, capacity, c, totalWeight, i, j')
        {
          if !c[j] && items[j].value > items[i].value
            && totalWeight - items[i].weight + items[j].weight <= capacity
          {
            assert ImprovingSwap(items, capacity, c, totalWeight, i, j);
            var c1 := c[i := false];
            TotalUpdate(items, c, Weight, i, false);
            TotalUpdate(items, c, Value, i, false);
            TotalUpdate(items, c, Count, i, false);
            TotalUpdate(items, c1, Weight, j, true);
            TotalUpdate(items, c1, Value, j, true);
            TotalUpdate(items, c1, Count, j, true);
            c := c1[j := true];
            totalWeight := totalWeight - items[i].weight + items[j].weight;
            break;
          }
          j := j + 1;
        }
      }
      i := i + 1;
    }

    r := NewIndividual(items, capacity, c);
  }
}
