/**
 The evolution loop: breeding a generation, tracking the best individual
 ever seen, and the progress reports. The random draws of a generation are
 supplied as arguments, one `ChildDraw` per child.
 */
module Evolution {
  import opened Knapsack
  import opened Operators
  import opened LocalSearch

  datatype Option<T> = None | Some(value: T)

  /** The random draws that produce one child: the two tournaments' picks
      and the mutation outcome. */
  datatype ChildDraw = ChildDraw(picks1: seq<nat>, picks2: seq<nat>, mutation: MutationDraw)

  predicate ValidPicks(picks: seq<nat>, populationSize: nat)
  {
    |picks| == TOURNAMENT_SIZE && forall i :: 0 <= i < |picks| ==> picks[i] < populationSize
  }

  predicate ValidDraw(d: ChildDraw, populationSize: nat, numItems: nat)
  {
    ValidPicks(d.picks1, populationSize) && ValidPicks(d.picks2, populationSize)
    && ValidMutation(d.mutation, numItems)
  }

  /** Draws for one generation: one per child, as many as the population. */
  predicate ValidGeneration(draws: seq<ChildDraw>, populationSize: nat, numItems: nat)
  {
    |draws| == populationSize && forall k :: 0 <= k < |draws| ==> ValidDraw(draws[k], populationSize, numItems)
  }

  /** Every chromosome of the population is indexed like the catalog. */
  predicate Shaped(items: seq<Item>, population: seq<Individual>)
  {
    forall i :: 0 <= i < |population| ==> |population[i].chromosome| == |items|
  }

  predicate AllConsistent(items: seq<Item>, capacity: nat, population: seq<Individual>)
  {
    forall i :: 0 <= i < |population| ==> Consistent(items, capacity, population[i])
  }

  /** A child before local improvement: select two parents, cross them over
      and mutate the result. Every flag the mutation does not touch comes
      from the first tournament's winner below the split point and from the
      second tournament's winner from it on; a transposition exchanges the
      crossover child's two drawn flags; the mutation keeps the number of
      included items of the crossover child. */
  function Offspring(items: seq<Item>, capacity: nat, population: seq<Individual>, d: ChildDraw): (child: Individual)
    requires Shaped(items, population) && ValidDraw(d, |population|, |items|)
    ensures Consistent(items, capacity, child)
    ensures forall i :: 0 <= i < |items| && !Touches(d.mutation, i) ==>
      child.chromosome[i] == (if i < SplitPoint(|items|) then SelectParent(population, d.picks1)
                              else SelectParent(population, d.picks2)).chromosome[i]
    ensures var x := Crossover(items, capacity, SelectParent(population, d.picks1), SelectParent(population, d.picks2));
      d.mutation.Transpose? ==>
        && child.chromosome[d.mutation.index1] == x.chromosome[d.mutation.index2]
        && child.chromosome[d.mutation.index2] == x.chromosome[d.mutation.index1]
    ensures CountIncluded(items, child.chromosome)
         == CountIncluded(items, Crossover(items, capacity, SelectParent(population, d.picks1),
                                           SelectParent(population, d.picks2)).chromosome)
  {
    var parent1 := SelectParent(population, d.picks1);
    var parent2 := SelectParent(population, d.picks2);
    Mutate(items, capacity, Crossover(items, capacity, parent1, parent2), d.mutation)
  }

  /** `child` is the offspring of draw `d` after one local-improvement pass:
      it has every property the pass guarantees relative to the offspring's
      chromosome. */
  predicate ImprovedChild(items: seq<Item>, capacity: nat, population: seq<Individual>, d: ChildDraw, child: Individual)
    requires Shaped(items, population) && ValidDraw(d, |population|, |items|)
  {
    Improves(items, capacity, Offspring(items, capacity, population, d).chromosome, child)
  }

  /** `next` is the generation bred from `population` with the draws
      `draws`: one improved child per draw, in draw order. */
  predicate BredGeneration(items: seq<Item>, capacity: nat, population: seq<Individual>, draws: seq<ChildDraw>, next: seq<Individual>)
  {
    && Shaped(items, population)
    && ValidGeneration(draws, |population|, |items|)
    && |next| == |population|
    && forall k {:trigger ImprovedChild(items, capacity, population, draws[k], next[k])} ::
         0 <= k < |next| ==> ImprovedChild(items, capacity, population, draws[k], next[k])
  }

  /** One generation: each child is bred by `Offspring` and then improved
      by one local-improvement pass; the new population replaces the old one
      wholesale. Every child has an up-to-date fitness. */
  method Evolve(items: seq<Item>, capacity: nat, population: seq<Individual>, draws: seq<ChildDraw>)
    returns (next: seq<Individual>)
    requires Shaped(items, population)
    requires ValidGeneration(draws, |population|, |items|)
    ensures BredGeneration(items, capacity, population, draws, next)
    ensures AllConsistent(items, capacity, next)
  {
    next := [];
    while |next| < |population|
      invariant |next| <= |population|
      invariant AllConsistent(items, capacity, next)
      invariant forall k {:trigger ImprovedChild(items, capacity, population, draws[k], next[k])} ::
        0 <= k < |next| ==> ImprovedChild(items, capacity, population, draws[k], next[k])
    {
      var d := draws[|next|];
      var parent1 := SelectParent(population, d.picks1);
      var parent2 := SelectParent(population, d.picks2);
      var child := Crossover(items, capacity, parent1, parent2);
      child := Mutate(items, capacity, child, d.mutation);
      child := LocalImprovement(items, capacity, child);
      next := next + [child];
    }
  }

  /** The fittest member of a generation (the first one on a tie). */
  function GenerationBest(population: seq<Individual>): (best: Individual)
    requires |population| > 0
    ensures best in population
    ensures forall i :: 0 <= i < |population| ==> population[i].fitness <= best.fitness
  {
    population[MaxFitnessIndex(population)]
  }

  /** The best-ever update after a generation: the generation's best
      replaces the tracked individual only when there is none yet or it is
      strictly fitter, so ties keep the earlier one. */
  function UpdateBest(best: Option<Individual>, population: seq<Individual>): (b: Individual)
    requires |population| > 0
    ensures forall i :: 0 <= i < |population| ==> population[i].fitness <= b.fitness
    ensures best.Some? ==> best.value.fitness <= b.fitness
    ensures b == GenerationBest(population) || (best.Some? && b == best.value)
    ensures best.Some? && GenerationBest(population).fitness <= best.value.fitness ==> b == best.value
  {
    var current := GenerationBest(population);
    if best.None? || current.fitness > best.value.fitness then current else best.value
  }

  /** The best individual tracked after the given generations; there is
      none before the first generation. */
  function BestEver(generations: seq<seq<Individual>>): (best: Option<Individual>)
    requires forall g :: 0 <= g < |generations| ==> |generations[g]| > 0
    ensures best.None? <==> |generations| == 0
  {
    if |generations| == 0 then None
    else Some(UpdateBest(BestEver(generations[..|generations| - 1]), generations[|generations| - 1]))
  }

  /** The best-ever individual is at least as fit as every member of every
      generation so far. */
  lemma {:induction false} BestEverDominates(generations: seq<seq<Individual>>, g: nat, i: nat)
    requires forall h :: 0 <= h < |generations| ==> |generations[h]| > 0
    requires g < |generations| && i < |generations[g]|
    ensures generations[g][i].fitness <= BestEver(generations).value.fitness
  {
    var n := |generations|;
    if g < n - 1 {
      var earlier := generations[..n - 1];
      BestEverDominates(earlier, g, i);
    }
  }

  /** The best-ever individual is a member of one of the generations. */
  lemma {:induction false} BestEverIsMember(generations: seq<seq<Individual>>)
    requires forall h :: 0 <= h < |generations| ==> |generations[h]| > 0
    requires |generations| > 0
    ensures exists g :: 0 <= g < |generations| && BestEver(generations).value in generations[g]
  {
    var n := |generations|;
    var earlier := generations[..n - 1];
    var b := BestEver(generations).value;
    if b in generations[n - 1] {
    } else {
      BestEverIsMember(earlier);
      var g :| 0 <= g < |earlier| && BestEver(earlier).value in earlier[g];
      assert earlier[g] == generations[g];
    }
  }

  /** The best-ever fitness never decreases from one generation to the next. */
  lemma {:induction false} BestEverMonotone(generations: seq<seq<Individual>>, m: nat, n: nat)
    requires forall g :: 0 <= g < |generations| ==> |generations[g]| > 0
    requires 0 < m <= n <= |generations|
    ensures BestEver(generations[..m]).value.fitness <= BestEver(generations[..n]).value.fitness
  {
    if m < n {
      BestEverMonotone(generations, m, n - 1);
      assert generations[..n][..n - 1] == generations[..n - 1];
    }
  }

  /** A progress report is printed for the first 20 generations and for
      every 20th generation after that. */
  predicate Reported(generation: nat)
  {
    generation <= 20 || generation % 20 == 0
  }

  /** One printed progress line: generation number and best-ever fitness. */
  datatype Progress = Progress(generation: nat, bestFitness: nat)

  /** The best-ever fitness after the first `g` generations. */
  function BestFitnessAfter(history: seq<seq<Individual>>, g: nat): nat
    requires forall h :: 0 <= h < |history| ==> |history[h]| > 0
    requires 0 < g <= |history|
  {
    BestEver(history[..g]).value.fitness
  }

  /** Later generations do not change the best-ever fitness after `g`. */
  lemma BestFitnessAfterPrefix(history: seq<seq<Individual>>, m: nat, g: nat)
    requires forall h :: 0 <= h < |history| ==> |history[h]| > 0
    requires 0 < g <= m <= |history|
    ensures BestFitnessAfter(history[..m], g) == BestFitnessAfter(history, g)
  {
    assert history[..m][..g] == history[..g];
  }

  /** The progress lines printed after the given generations, in print
      order: exactly one line for every reported generation, in increasing
      generation order, each showing the best-ever fitness after that
      generation. */
  function ProgressReport(history: seq<seq<Individual>>): (report: seq<Progress>)
    requires forall g :: 0 <= g < |history| ==> |history[g]| > 0
    ensures forall k :: 0 <= k < |report| ==>
      && 1 <= report[k].generation <= |history|
      && Reported(report[k].generation)
      && report[k].bestFitness == BestFitnessAfter(history, report[k].generation)
    ensures forall k, l :: 0 <= k < l < |report| ==> report[k].generation < report[l].generation
  {
    if |history| == 0 then []
    else
      var n := |history|;
      var earlier := history[..n - 1];
      var previous := ProgressReport(earlier);
      assert forall g :: 0 < g <= n - 1 ==> BestFitnessAfter(earlier, g) == BestFitnessAfter(history, g) by {
        forall g | 0 < g <= n - 1 {
          BestFitnessAfterPrefix(history, n - 1, g);
        }
      }
      assert history[..n] == history;
      var r := previous + (if Reported(n) then [Progress(n, BestEver(history).value.fitness)] else []);
      assert forall k :: 0 <= k < |previous| ==> r[k] == previous[k];
      r
  }

  /** Every reported generation has its progress line. */
  lemma {:induction false} ProgressReportComplete(history: seq<seq<Individual>>, g: nat)
    requires forall h :: 0 <= h < |history| ==> |history[h]| > 0
    requires 1 <= g <= |history| && Reported(g)
    ensures exists k :: 0 <= k < |ProgressReport(history)| && ProgressReport(history)[k].generation == g
  {
    var n := |history|;
    var report := ProgressReport(history);
    var previous := ProgressReport(history[..n - 1]);
    assert report[..|previous|] == previous;
    if g == n {
      assert report[|report| - 1].generation == g;
    } else {
      ProgressReportComplete(history[..n - 1], g);
      var k :| 0 <= k < |previous| && previous[k].generation == g;
      assert report[k] == previous[k];
    }
  }

  /** The fitness shown in the progress lines never decreases. */
  lemma ProgressReportMonotone(history: seq<seq<Individual>>)
    requires forall g :: 0 <= g < |history| ==> |history[g]| > 0
    ensures var report := ProgressReport(history);
      forall k, l :: 0 <= k < l < |report| ==> report[k].bestFitness <= report[l].bestFitness
  {
    var report := ProgressReport(history);
    forall k, l | 0 <= k < l < |report|
      ensures report[k].bestFitness <= report[l].bestFitness
    {
      BestEverMonotone(history, report[k].generation, report[l].generation);
      assert report[k].bestFitness == BestFitnessAfter(history, report[k].generation);
    }
  }

  /** The population generation `g` is bred from: the seeded population
      for the first generation, the previous generation otherwise. */
  function ParentPopulation(items: seq<Item>, capacity: nat, seeds: seq<nat>, history: seq<seq<Individual>>, g: nat): seq<Individual>
    requires forall i :: 0 <= i < |seeds| ==> seeds[i] < |items|
    requires g <= |history|
  {
    if g == 0 then InitializePopulation(items, capacity, seeds) else history[g - 1]
  }

  /** Every generation of `history` was bred, with the matching draws of
      `schedule`, from the population before it. */
  predicate BredRun(items: seq<Item>, capacity: nat, seeds: seq<nat>, schedule: seq<seq<ChildDraw>>, history: seq<seq<Individual>>)
    requires forall i :: 0 <= i < |seeds| ==> seeds[i] < |items|
  {
    && |history| <= |schedule|
    && forall g {:trigger BredGeneration(items, capacity, ParentPopulation(items, capacity, seeds, history, g), schedule[g], history[g])} ::
         0 <= g < |history| ==>
         BredGeneration(items, capacity, ParentPopulation(items, capacity, seeds, history, g), schedule[g], history[g])
  }

  /** Appending a generation bred from the last population of a bred run
      gives a bred run. */
  lemma BredRunExtend(items: seq<Item>, capacity: nat, seeds: seq<nat>, schedule: seq<seq<ChildDraw>>,
                      history: seq<seq<Individual>>, next: seq<Individual>)
    requires forall i :: 0 <= i < |seeds| ==> seeds[i] < |items|
    requires BredRun(items, capacity, seeds, schedule, history) && |history| < |schedule|
    requires BredGeneration(items, capacity, ParentPopulation(items, capacity, seeds, history, |history|), schedule[|history|], next)
    ensures BredRun(items, capacity, seeds, schedule, history + [next])
  {
    var extended := history + [next];
    forall g | 0 <= g < |extended|
      ensures BredGeneration(items, capacity, ParentPopulation(items, capacity, seeds, extended, g), schedule[g], extended[g])
    {
      assert ParentPopulation(items, capacity, seeds, extended, g) == ParentPopulation(items, capacity, seeds, history, g);
    }
  }

  /** The whole run: seed the population from the drawn indices, then breed
      one generation per entry of `schedule`, each from the one before.
      Returns the best individual (none when no generation ran), every
      generation's population, and the progress lines in print order. Every
      individual of every generation has an up-to-date fitness. */
  method Run(items: seq<Item>, capacity: nat, seeds: seq<nat>, schedule: seq<seq<ChildDraw>>)
    returns (best: Option<Individual>, history: seq<seq<Individual>>, report: seq<Progress>)
    requires |seeds| > 0 && forall i :: 0 <= i < |seeds| ==> seeds[i] < |items|
    requires forall g :: 0 <= g < |schedule| ==> ValidGeneration(schedule[g], |seeds|, |items|)
    ensures |history| == |schedule|
    ensures BredRun(items, capacity, seeds, schedule, history)
    ensures forall g :: 0 <= g < |history| ==> |history[g]| == |seeds| && AllConsistent(items, capacity, history[g])
    ensures best == BestEver(history)
    ensures report == ProgressReport(history)
  {
    var population := InitializePopulation(items, capacity, seeds);
    best, history, report := None, [], [];
    var generation := 1;
    while generation <= |schedule|
      invariant 1 <= generation <= |schedule| + 1
      invariant |history| == generation - 1
      invariant population == ParentPopulation(items, capacity, seeds, history, |history|)
      invariant |population| == |seeds| && AllConsistent(items, capacity, population)
      invariant forall g :: 0 <= g < |history| ==> |history[g]| == |seeds| && AllConsistent(items, capacity, history[g])
      invariant BredRun(items, capacity, seeds, schedule, history)
      invariant best == BestEver(history)
      invariant report == ProgressReport(history)
    {
      assert Shaped(items, population);
      population := Evolve(items, capacity, population, schedule[generation - 1]);
      var current := UpdateBest(best, population);
      ghost var previous := history;
      history := history + [population];
      assert history[..|history| - 1] == previous;
      BredRunExtend(items, capacity, seeds, schedule, previous, population);
      best := Some(current);
      if Reported(generation) {
        report := report + [Progress(generation, current.fitness)];
      }
      generation := generation + 1;
    }
  }
}
