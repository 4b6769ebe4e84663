# MAXONE genetic algorithm — a Dafny model

The repository is a textbook genetic algorithm for the MAXONE problem. It
evolves a population of fixed-length binary strings towards the all-ones
string. The algorithm appears twice, as `CommentedCode.py` and as
`MaxOneExample.py`; the two copies differ only in their comments.

Each generation of the Python program does the following:

1. `select` makes a roulette-wheel selection of POP_SIZE individuals.
2. The selected individuals are crossed pairwise (0,1), (2,3), … by single-point crossover.
3. `mutate` flips the genes of every individual of the next population in place.
4. The next population replaces the current one.
5. The best individual is reported, and the run stops when it is all ones or after MAX_GEN generations.

The model keeps the program's own data layout:

- An individual is a mutable `array<int>`, as the Python lists are.
- A population is a `seq<array<int>>`, so one individual can sit in several slots.
- Crossover without a cut returns the parents' own arrays. With a cut it returns new ones.
- Mutation changes arrays in place. An individual that fills two slots is therefore mutated twice. `MutateAll` states this exactly: it counts, per gene, how many passes over the same array flip that gene.
- The genes a population holds at a moment are its `Snapshot`, a `seq<seq<int>>`. One generation is stated on snapshots by `Descends`, which also records which individuals fill which slots (`Parented`). A run is stated by `History`, the list of every population of the run, from the initial genes to the last population.

Every random draw is a parameter of the model, in the order the program makes them:

- one gene-pool index per initial gene, individual by individual;
- per generation, the indices `random.choices` picks;
- then, per pair, the crossover coin and point, as one `CrossDraw`: `Keep` or `Cut(point)`;
- then, per slot of the next population, a flip mask, one bit per gene.

The table below cites `CommentedCode.py`. The same code sits in
`MaxOneExample.py` at these lines:

- `init_population`: 11-12
- `fitness`: 15-16
- `select`: 19-23
- `crossover`: 26-32
- `mutate`: 35-39
- `genetic_algorithm`: 42-67, with the pair loop at 49-52, the mutation at 55, the best individual at 61 and the stop test at 65-67

The modules:

- `Individual` (`individual.dfy`): genes, the fitness (`sum`), and its meaning as the number of ones.
- `Crossover` (`crossover.dfy`): `crossover` and the pairwise crossover loop.
- `Mutation` (`mutation.dfy`): `mutate` and the mutation of every slot.
- `Selection` (`selection.dfy`): `select` with its two failure cases.
- `Driver` (`driver.dfy`): the configuration, initialisation, choice of the best individual, one generation, and the whole run.

Individuals are modelled as the shared, mutable lists the code uses, not as
values. A selected individual picked twice is one list in two slots, and
when neither of its pairs is cut, mutation reaches it twice.

## Model

| member | source | states |
|---|---|---|
| Individual.Fitness | CommentedCode.py:31-42 | the fitness of a binary individual lies between 0 and its length |
| Individual.FitnessCountsOnes | CommentedCode.py:31-42 | for a binary individual, `fitness` (the sum of the genes) equals the number of genes that are 1 and lies in [0, length] |
| Individual.FitnessAppend | CommentedCode.py:42 | the sum of a concatenation is the sum of its parts |
| Individual.FitnessFullIffAllOnes | CommentedCode.py:149 | a binary individual has fitness GENE_LENGTH exactly when every gene is 1, which is what the stop test detects |
| Individual.FitnessZeroIffAllZeros | CommentedCode.py:60-61 | a binary individual has fitness 0 exactly when every gene is 0 |
| Crossover.Children | CommentedCode.py:81-86 | the two children together have as many genes as the two parents; with parents of equal length each child has that length |
| Crossover.CrossoverAt | CommentedCode.py:82-84 | for a cut at p, both children keep the parents' length; below p each child has its own parent's gene, from p on the other parent's |
| Crossover.CrossoverConservesGenes | CommentedCode.py:81-86 | at every position the two children hold the two parents' genes, with or without a cut |
| Crossover.CrossoverKeepsBinary | CommentedCode.py:83-84 | children of binary parents are binary |
| Crossover.CrossoverConservesFitness | CommentedCode.py:83-84 | fitness(child1) + fitness(child2) = fitness(parent1) + fitness(parent2) |
| Crossover.CrossoverUndoes | CommentedCode.py:83-84 | crossing the children again with the same draw gives back the parents |
| Crossover.CrossoverPair | CommentedCode.py:81-86 | the children are the two cross-concatenations at the point, as new individuals; without a cut, the parents' own objects are returned unchanged |
| Crossover.PairsFitIsCutsFit | CommentedCode.py:133-135 | crossover draws fit the pairs of individuals exactly when they fit the pairs of their genes |
| Crossover.CrossoverPairs | CommentedCode.py:133-136 | with an even selection, the pair loop yields as many individuals as it was given; pair k's children are at 2k and 2k+1; kept parents are the selected objects; cut children are new, not selected ones; only selected individuals fill two slots |
| Crossover.Crossed | CommentedCode.py:133-136 | the pair loop on genes yields as many individuals as it was given |
| Crossover.CrossedPairs | CommentedCode.py:134-136 | in the pair loop on genes, the children of pair k are at 2k and 2k+1 |
| Crossover.CrossedFromPairs | CommentedCode.py:134-136 | any genes holding pair k's children at 2k and 2k+1 for every k are exactly the pair loop's result |
| Crossover.CrossedKeep | CommentedCode.py:86 | when no pair is cut, the pair loop returns the selection itself |
| Crossover.CrossedConservesFitness | CommentedCode.py:133-136 | the pair loop keeps the total fitness of the selection |
| Crossover.OnlySelectedRepeat | CommentedCode.py:133-136 | kept pairs leave the selected individuals in their slots, and each child of a cut fills a slot of its own |
| Mutation.Flipped | CommentedCode.py:104-107 | the flipped individual keeps its length, and a binary individual stays binary |
| Mutation.Mutate | CommentedCode.py:104-107 | the individual becomes, in place, its flip by the mask: `1 - gene` where the mask holds and the old gene elsewhere |
| Mutation.FlippedChangesExactlyMasked | CommentedCode.py:104-107 | mutation keeps length and binariness and changes a gene exactly when its mask bit holds |
| Mutation.FlippedTwice | CommentedCode.py:106 | flipping twice with the same mask restores the individual |
| Mutation.FlippedFitness | CommentedCode.py:104-107 | the mutated fitness is the old fitness plus one per flipped 0 and minus one per flipped 1 |
| Mutation.FlipNoneOrAll | CommentedCode.py:104-106 | an empty mask changes nothing; a full mask complements a binary individual, whose fitness becomes the number of its zeros |
| Mutation.Mutated | CommentedCode.py:139 | mutating every slot keeps the number of slots and the length of every individual |
| Mutation.MutateAll | CommentedCode.py:139 | the genes after mutating every slot in turn are `Mutated` of the genes before: a gene of an individual is flipped exactly when an odd number of passes over it flip it; binariness is kept; with distinct slots, each slot is flipped by its own mask |
| Mutation.FlipInTurn | CommentedCode.py:139 | after the passes over every slot, each gene is flipped exactly when an odd number of the passes over its individual flip it |
| Mutation.ParityIsMutated | CommentedCode.py:139 | genes flipped by the parity of the passes are the genes `Mutated` gives |
| Mutation.MutatedKeepsBinary | CommentedCode.py:139 | mutating every slot keeps binary individuals binary |
| Mutation.MutatedDistinct | CommentedCode.py:139 | when no individual fills two slots, each slot ends as its own genes flipped by its own mask |
| Mutation.MutatedUnmasked | CommentedCode.py:105 | masks that select no gene leave every slot as it was, however individuals are shared |
| Mutation.MutatedShared | CommentedCode.py:135-139 | an individual filling exactly two slots is flipped by the first slot's mask and then the second's, and both slots show the result; where both masks hold, the gene is restored |
| Mutation.FlipCountDistinct | CommentedCode.py:139 | when no individual fills two slots, gene g of slot j is flipped by exactly one pass if its mask bit holds, else by none |
| Mutation.FlipCountTwoSlots | CommentedCode.py:139 | an individual in exactly two slots is flipped at a gene once by each of the two passes whose mask selects it |
| Selection.TotalFitness | CommentedCode.py:60 | the total is the sum of the fitnesses of the population's genes, and it is non-negative when every individual is binary |
| Selection.AllZerosSumZero | CommentedCode.py:60 | a population of all-zero individuals has total fitness 0 |
| Selection.Select | CommentedCode.py:60-63 | fails on an empty population (`random.choices` cannot draw) and divides by zero when the total fitness is 0; otherwise returns one population member per pick, the very objects, in pick order |
| Selection.ZeroTotalMeansAllZero | CommentedCode.py:60-61 | with binary genes the total fitness is non-negative, and it is 0 exactly when every individual has fitness 0 |
| Driver.Genes | CommentedCode.py:25 | an individual built from gene-pool draws has GENE_LENGTH genes, all binary |
| Driver.InitialGenes | CommentedCode.py:22-25 | one individual per draw list, built from its gene-pool draws; each is a binary list as long as its draw list (GENE_LENGTH under `InitFits`) |
| Driver.InitPopulation | CommentedCode.py:17-25 | POP_SIZE new, distinct individuals of GENE_LENGTH binary genes, whose genes are the gene-pool values drawn |
| Driver.FirstFittest | CommentedCode.py:145 | the reference `max(key=fitness)` on genes: its index is at least as fit as every individual and strictly fitter than every earlier one |
| Driver.FirstFittestUnique | CommentedCode.py:145 | only one index is at least as fit as all and strictly fitter than all earlier ones |
| Driver.BestIndex | CommentedCode.py:145 | `max(population, key=fitness)` over the individuals: the chosen one is at least as fit as every member and every earlier member is strictly less fit, so it is `FirstFittest` of the population's genes |
| Driver.ChildrenFormPopulation | CommentedCode.py:133-136 | crossing a well-shaped selection gives POP_SIZE binary individuals of GENE_LENGTH genes |
| Driver.AllZeroWhenRejected | CommentedCode.py:60-61 | `select` rejects a non-empty, well-shaped population only when every gene of every individual is 0 |
| Driver.SelectionFormsPopulation | CommentedCode.py:130-135 | a selection from a well-shaped population is well-shaped, and the generation's cut points fit its pairs |
| Driver.NextPopulation | CommentedCode.py:133-139 | the new genes are `Mutated` of `Crossed` of the selected genes; kept pairs leave the selected individuals in place, cut children are new and fill one slot each; selected individuals left out keep their genes; the result is well-shaped |
| Driver.ReportOn | CommentedCode.py:145-146 | the report on a population names the generation, a member of the population, its fitness, and no member is fitter |
| Driver.UnmutatedGeneration | CommentedCode.py:130-139 | a generation whose masks flip nothing keeps the total fitness of the selected individuals |
| Driver.QuietGeneration | CommentedCode.py:130-142 | a generation that cuts no pair and flips no gene only selects: the new genes are the picked individuals' genes |
| Driver.DescendsDistinct | CommentedCode.py:133-139 | when no individual fills two slots of the new population, each slot is its crossed genes flipped by its own mask |
| Driver.Generation | CommentedCode.py:132-146 | after a successful `select`, the new population `Descends` from the old one with this generation's draws; individuals of the old population left out keep their genes; the report is on the first fittest new individual, numbered generation + 1, with fitness in [0, GENE_LENGTH] |
| Driver.ReportBest | CommentedCode.py:144-146 | the printed line is the report on the first fittest individual, numbered generation + 1 |
| Driver.Breed | CommentedCode.py:133-142 | after a successful `select`, the new population `Descends` from the old one with this generation's draws, its slots hold old or fresh individuals, and individuals of the old population left out keep their genes |
| Driver.SelectedNonZero | CommentedCode.py:60-62 | a population `select` accepts has a non-zero total fitness |
| Driver.Step | CommentedCode.py:129-146 | `select` fails exactly when the total fitness is 0; then nothing changes, the fault is named and the population was all zeros; otherwise the new population `Descends` from the old one, left-out individuals keep their genes, and the report is on its first fittest individual |
| Driver.Advance | CommentedCode.py:129-146 | one pass of the generation loop stops exactly when the last population's total fitness is 0; then nothing changes and that population is all zeros; otherwise it extends the run's `History` by the new population and its report, and individuals left out keep their genes |
| Driver.GeneticAlgorithm | CommentedCode.py:114-151 | the run's populations start from the drawn initial genes and each descends from the one before with that generation's draws; every population the run went on from had a non-zero total fitness; each report is on the first fittest individual of its generation; at most MAX_GEN reports, numbered 1, 2, …; every report but the last is unsolved; solved exactly when the last best fitness is GENE_LENGTH, and then the best is all ones; an exhausted run made MAX_GEN reports; an aborted run names the fault of `select` and its last population was all zeros |
| Driver.ReportedAppend | CommentedCode.py:146 | appending a report numbered one past the last keeps the reports numbered consecutively from 1 |
| Driver.HistoryAppend | CommentedCode.py:129-146 | a generation descending from the last population of a run, with its report, extends the run |
| Driver.HistoryNonZero | CommentedCode.py:129-142 | every population a run went on from had a non-zero total fitness |
| Driver.ZeroStartReportsNothing | CommentedCode.py:60-61 | a run whose initial genes are all 0 makes no report |
| Driver.RunReference | CommentedCode.py:157 | `genetic_algorithm()` with POP_SIZE 6, GENE_LENGTH 10, MAX_GEN 100: at most 100 reports, solved exactly when the last best fitness is 10, and an all-zero start aborts by division by zero before any report |
| Driver.RunRejected | CommentedCode.py:127-146 | when `select` rejects the last population of a run, the last reported best fitness was 0, and before any report every initial gene was 0 |

## Left out

- Randomness: the probabilities (0.6 for crossover, PMUT = 0.1 per gene, uniform gene-pool choice, fitness-proportional weights) are not modelled. Every draw is an input, and any sequence of draws is allowed.
- Selection.Select: does not state that individuals of fitness 0 are never picked. That depends on the weights, which only make an index likely or unlikely; the picks are an input.
- The `print` lines become the `Report` values of the run, and the "Solution found" line becomes the `Solved` outcome. Output formatting is not modelled.
- The module-level constants are fields of `Config`, with the program's values in `Driver.Reference`; `Driver.RunReference` is the module-level call `genetic_algorithm()` with those values. PMUT is not a field, since mutation draws are inputs.
- Driver.GeneticAlgorithm: requires an even POP_SIZE. With an odd size, the pair loop raises IndexError at `selected_population[i+1]`; that fault is not modelled. The program's value is 6.
- `random.randint(1, GENE_LENGTH - 1)`: a run's draws must cut at 1 <= p <= GENE_LENGTH - 1 (`ValidDraw`, required through `DrawsFit`). With GENE_LENGTH < 2 that call raises ValueError when the coin fires; that fault is not modelled. `CrossoverPair` itself only needs the point to lie within both parents.
- `random.choices` is given `k = POP_SIZE`. The model draws `|picks|` indices and requires `|picks| = POP_SIZE`; the population always has that size.
- Floating-point division in `select` is not modelled. Only its one fault, the division by a zero total, is.
- Convergence or expected-time claims about the algorithm are not modelled; they are probabilistic.
