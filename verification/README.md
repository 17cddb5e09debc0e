# Memetic genetic algorithm for the 0/1 knapsack problem, in Dafny

This project models the deterministic core of `KnapsackGeneticAlgorithm`. That
program is a genetic algorithm for the 0/1 knapsack problem with a greedy
local-improvement step for each child, which makes it a memetic algorithm. A
candidate solution (an `Individual`) is a chromosome of inclusion flags, one per
catalog item, plus a cached fitness. The fitness is the total value of the
included items when their total weight fits the capacity, and 0 otherwise.

Each generation breeds a new population child by child:

1. two tournament selections, each over five drawn members;
2. a fixed single-point crossover at 30% of the chromosome;
3. a mutation that sometimes swaps two flags;
4. one forward local-improvement pass. This pass fills free capacity and swaps
   included items for more valuable excluded ones.

The main loop tracks the best individual ever seen. It prints progress for the
first 20 generations and for every 20th generation after that.

All randomness becomes explicit arguments:

- the seed index of each initial individual;
- the five tournament picks;
- the mutation outcome: `MutationDraw` is either `Keep` or `Transpose(i, j)`.

The item catalog is an argument. `NUM_ITEMS` is the length of the catalog. The
capacity is an argument. The population size is the number of seed indices. The
number of generations is the length of the draw schedule. Module `Knapsack`
names the catalog size (100), the tournament size (5) and the generator's
ranges.

Files:

- `knapsack.dfy` (module `Knapsack`): items, sums over included items, the
  reference `Fitness`, the evaluation loop `CalculateFitness`, the constructor
  `NewIndividual`, and `Individual` with its `Consistent` cache invariant.
- `operators.dfy` (module `Operators`): seeding, tournament selection,
  crossover and mutation.
- `local_improvement.dfy` (module `LocalSearch`): the local-improvement pass,
  written as an imperative method with loop invariants.
- `evolution.dfy` (module `Evolution`): one generation, best-ever tracking,
  progress lines, and the whole run.

## Model

| member | source | states |
|---|---|---|
| Knapsack.NewIndividual | src/main/java/dev/dskarpets/KnapsackGeneticAlgorithm.java:27-30 | The constructor keeps the given chromosome and runs the evaluation loop at once. The resulting cache is up to date, and the individual equals the one built from the reference fitness. |
| Knapsack.CalculateFitness | src/main/java/dev/dskarpets/KnapsackGeneticAlgorithm.java:32-41 | The one-pass evaluation loop returns the reference fitness: the total value of the included items if their total weight is at most the capacity, and exactly 0 if it is above. |
| Knapsack.FitnessBounds | src/main/java/dev/dskarpets/KnapsackGeneticAlgorithm.java:32-40 | Fitness is never negative and never exceeds the value of the whole catalog. An over-capacity chromosome scores 0 whatever its value. A feasible one scores its total value. |
| Knapsack.TotalsFitInInt | src/main/java/dev/dskarpets/KnapsackGeneticAlgorithm.java:33-37 | With items in the generator's ranges, total weight is at most 25 per item and total value at most 30 per item. For 100 items that is 2500 and 3000, so the program's `int` sums cannot overflow. |
| Operators.SeedIndividual | src/main/java/dev/dskarpets/KnapsackGeneticAlgorithm.java:78-81 | A seeded individual includes the drawn item and no other (exactly one `true` flag). Its cached fitness is that item's value if the item fits and 0 otherwise. |
| Operators.InitializePopulation | src/main/java/dev/dskarpets/KnapsackGeneticAlgorithm.java:75-84 | One individual per drawn index. Each has an up-to-date fitness, includes its drawn item, has exactly one included item, and has that single item's fitness. |
| Operators.MaxFitnessIndex | src/main/java/dev/dskarpets/KnapsackGeneticAlgorithm.java:109 | `Collections.max` by fitness picks a position whose fitness is at least every other's. It is the first such position: every earlier one is strictly less fit. |
| Operators.SelectParent | src/main/java/dev/dskarpets/KnapsackGeneticAlgorithm.java:103-110 | The tournament winner is a population member. It is one of the five drawn members and at least as fit as every draw. Every draw before it is strictly less fit, so ties go to the earlier draw. |
| Operators.SplitPoint | src/main/java/dev/dskarpets/KnapsackGeneticAlgorithm.java:114 | The crossover point lies within the chromosome. It is 30 for the program's 100 items. |
| Operators.Crossover | src/main/java/dev/dskarpets/KnapsackGeneticAlgorithm.java:112-123 | The child has an up-to-date fitness. Flags below the split point come from the first parent and the rest from the second. |
| Operators.CrossoverSums | src/main/java/dev/dskarpets/KnapsackGeneticAlgorithm.java:112-123 | The child's weight, value and item count equal the first parent's sum below the split plus the second parent's sum from the split on. |
| Operators.CrossoverSelf | src/main/java/dev/dskarpets/KnapsackGeneticAlgorithm.java:112-123 | Crossing a consistent individual with itself gives back the same individual. |
| Operators.SwapGenes | src/main/java/dev/dskarpets/KnapsackGeneticAlgorithm.java:130-132 | The temp-variable exchange puts each drawn flag in the other's position and leaves every other flag unchanged. |
| Operators.SwapGenesInvolution | src/main/java/dev/dskarpets/KnapsackGeneticAlgorithm.java:130-132 | Swapping the same two positions twice restores the chromosome. |
| Operators.SwapGenesCount | src/main/java/dev/dskarpets/KnapsackGeneticAlgorithm.java:130-132 | A swap never changes the number of included items, even when the two indices coincide. |
| Operators.Mutate | src/main/java/dev/dskarpets/KnapsackGeneticAlgorithm.java:126-135 | Fitness is recomputed whether or not the swap fires. The result is therefore consistent even if the input's cache was stale. The number of included items is preserved. With `Keep` the chromosome is unchanged. With `Transpose(i, j)` exactly positions i and j are exchanged. |
| LocalSearch.LocalImprovement | src/main/java/dev/dskarpets/KnapsackGeneticAlgorithm.java:137-162 | The result satisfies `Improves`, proved through the loop invariant that the running weight equals the weight of the included items. A feasible input stays feasible, and any changed result is within capacity. Total value never drops, and it strictly rises whenever the chromosome changes (values are at least 2). The item count never drops. The chromosome is left unchanged exactly when it is `Settled`: no excluded item fits, and no included item has an excluded, strictly more valuable replacement that fits. (The "unchanged implies settled" direction assumes the generator's ranges.) The fitness is recomputed and is at least the input's fitness. |
| Evolution.Offspring | src/main/java/dev/dskarpets/KnapsackGeneticAlgorithm.java:90-94 | Before local improvement, a child has an up-to-date fitness. Every flag the mutation does not touch comes from the first tournament's winner below the split point and from the second tournament's winner from it on. A `Transpose(i, j)` draw exchanges the crossover child's flags at i and j. The child has as many included items as the crossover child. |
| Evolution.Evolve | src/main/java/dev/dskarpets/KnapsackGeneticAlgorithm.java:86-101 | A generation has as many children as the old population, one per draw and in draw order, each with an up-to-date fitness. Each child satisfies `Improves` relative to the `Offspring` of its draw. So every guarantee of one local-improvement pass holds between the bred child and the stored child, including "unchanged exactly when settled" (the "unchanged implies settled" half for catalogs in the generator's ranges). |
| Evolution.GenerationBest | src/main/java/dev/dskarpets/KnapsackGeneticAlgorithm.java:54 | A generation's best is one of its members and at least as fit as every member. |
| Evolution.UpdateBest | src/main/java/dev/dskarpets/KnapsackGeneticAlgorithm.java:54-57 | After the update, the tracked individual is at least as fit as the old one and as every member of the generation. It is either the generation's best or the old one. A tie keeps the old one. |
| Evolution.BestEver | src/main/java/dev/dskarpets/KnapsackGeneticAlgorithm.java:50-57 | There is a best-ever individual exactly when at least one generation has run. |
| Evolution.BestEverDominates | src/main/java/dev/dskarpets/KnapsackGeneticAlgorithm.java:52-57 | The best-ever individual is at least as fit as every member of every generation so far. |
| Evolution.BestEverIsMember | src/main/java/dev/dskarpets/KnapsackGeneticAlgorithm.java:52-57 | The best-ever individual is a member of one of the generations. |
| Evolution.BestEverMonotone | src/main/java/dev/dskarpets/KnapsackGeneticAlgorithm.java:52-57 | The best-ever fitness never decreases from one generation to a later one. |
| Evolution.BestFitnessAfterPrefix | src/main/java/dev/dskarpets/KnapsackGeneticAlgorithm.java:52-57 | Later generations do not change the best-ever fitness recorded after an earlier generation. |
| Evolution.ProgressReport | src/main/java/dev/dskarpets/KnapsackGeneticAlgorithm.java:59-61 | Progress lines appear only for reported generations (the first 20 and every 20th), in increasing generation order. Each shows the best-ever fitness after its generation. |
| Evolution.ProgressReportComplete | src/main/java/dev/dskarpets/KnapsackGeneticAlgorithm.java:59-61 | Every reported generation that has run has its progress line. |
| Evolution.ProgressReportMonotone | src/main/java/dev/dskarpets/KnapsackGeneticAlgorithm.java:59-61 | The fitness shown in successive progress lines never decreases. |
| Evolution.BredRunExtend | src/main/java/dev/dskarpets/KnapsackGeneticAlgorithm.java:52-53 | Appending a generation bred from the current last population (the seeded one before the first generation) keeps the history a bred run. |
| Evolution.Run | src/main/java/dev/dskarpets/KnapsackGeneticAlgorithm.java:47-65 | The run seeds the population and then runs one generation per schedule entry. Generation g is bred, with the draws `schedule[g]`, from generation g - 1, and generation 0 from the seeded population (`BredRun`). Every generation keeps the population size, and every individual in it has an up-to-date fitness. The returned best is the best-ever individual of the generations, and the returned lines are exactly their progress report. |

## Left out

- Item generation (`generateItems`) and every use of `java.util.Random`. The
  catalog and all draws are arguments. The generator's ranges appear only as
  `WellFormedCatalog`. That predicate is an assumption where a property needs
  positive values or the overflow bound.
- The mutation test `random.nextDouble() < MUTATION_RATE`. Floating point is
  not modelled; the test's outcome is the `Keep` / `Transpose` choice.
- The split point is `NUM_ITEMS * 3 / 10` in integers, not `(int)(NUM_ITEMS * 0.3)`
  in floating point. The two agree on every catalog size from 0 to 2,000,000,
  and both give 30 for the program's 100 items. Floating-point rounding itself
  is not modelled.
- Console output (`printf`, `println`). It is modelled only as the sequence of
  `Progress` lines. The final line is `best.value.fitness` of `Run`.
- Zero generations: with no generations, `bestIndividual` stays `null` and the
  final line would throw. The model returns `None` instead.
- Global mutable state (`items`, `random`): the catalog is passed explicitly.
- `Collections.max` on an empty list throws. The model requires a non-empty
  population and tournament, which the program always supplies.
- Fixed constants: the capacity (250), the catalog size (100), the population
  size (100) and the number of generations (1000) are parameters. The
  contracts hold for every value, so they do not force the program's values.
- 32-bit `int` arithmetic: the model uses unbounded integers.
  `Knapsack.TotalsFitInInt` shows that no sum can overflow for well-formed
  catalogs of the program's size.
- LocalSearch.LocalImprovement: the pass works on a local copy of the
  chromosome and returns a new individual, while the program updates the array
  in place. `Operators.Mutate` likewise returns a new individual where `mutate`
  swaps the child's flags in place. Neither difference is observable, because
  the child is a fresh array made by `crossover` and nothing else refers to it. The contract does not pin down the exact result of a pass that
  changes the chromosome. It does not say which improving swap was taken (the
  first in index order), nor that the result is settled. A single pass does not
  reach a settled state in general.
- The program's swap scan also visits `j == i`. That index never qualifies,
  because item `i` is included. The method scans the same range.
