/** The generational driver `genetic_algorithm`: initialise, then per
    generation select, cross the pairs, mutate every slot, replace the
    population, report the best individual and stop when it is all ones. */
module Driver {
  import opened Individual
  import opened Crossover
  import opened Mutation
  import opened Selection

  /** The constants POP_SIZE, GENE_LENGTH and MAX_GEN. */
  datatype Config = Config(popSize: nat, geneLength: nat, maxGen: nat)

  /** The values the program runs with. */
  const Reference: Config := Config(6, 10, 100)

  /** The random draws of one generation, in the order the program makes
      them: the selected indices, one crossover draw per pair, one mutation
      mask per slot. */
  datatype GenerationDraws = GenerationDraws(picks: seq<int>, crosses: seq<CrossDraw>, masks: seq<seq<bool>>)

  /** Draws that `random` can produce for a population of this shape. */
  predicate DrawsFit(cfg: Config, d: GenerationDraws) {
    && |d.picks| == cfg.popSize
    && (forall i :: 0 <= i < |d.picks| ==> 0 <= d.picks[i] < cfg.popSize)
    && |d.crosses| == cfg.popSize / 2
    && (forall k :: 0 <= k < |d.crosses| ==> ValidDraw(d.crosses[k], cfg.geneLength))
    && |d.masks| == cfg.popSize
    && (forall j :: 0 <= j < |d.masks| ==> |d.masks[j]| == cfg.geneLength)
  }

  /** The draws of `random.choice(GENE_POOL)` for the initial population:
      one index into the gene pool per gene. */
  predicate InitFits(cfg: Config, init: seq<seq<int>>) {
    && |init| == cfg.popSize
    && forall i :: 0 <= i < |init| ==>
         |init[i]| == cfg.geneLength && forall g :: 0 <= g < |init[i]| ==> 0 <= init[i][g] < |GenePool|
  }

  /** The genes those draws select from the gene pool. */
  function Genes(draw: seq<int>): (s: seq<int>)
    requires forall g :: 0 <= g < |draw| ==> 0 <= draw[g] < |GenePool|
    ensures |s| == |draw| && Binary(s)
  {
    seq(|draw|, g requires 0 <= g < |draw| => GenePool[draw[g]])
  }

  /** A population of the configured shape: POP_SIZE individuals of
      GENE_LENGTH binary genes. */
  ghost predicate Population(pop: seq<array<int>>, cfg: Config)
    reads pop
  {
    && |pop| == cfg.popSize
    && forall j :: 0 <= j < |pop| ==> pop[j].Length == cfg.geneLength && Binary(pop[j][..])
  }

  /** The initial genes, individual by individual: each a binary list as
      long as its draw list. */
  function InitialGenes(init: seq<seq<int>>): (vals: seq<seq<int>>)
    requires forall i, g :: 0 <= i < |init| && 0 <= g < |init[i]| ==> 0 <= init[i][g] < |GenePool|
    ensures |vals| == |init| && forall i :: 0 <= i < |init| ==> vals[i] == Genes(init[i])
    ensures forall i :: 0 <= i < |vals| ==> |vals[i]| == |init[i]| && Binary(vals[i])
  {
    seq(|init|, i requires 0 <= i < |init| => Genes(init[i]))
  }

  /** `init_population()`: POP_SIZE new individuals, each its own list. */
  method InitPopulation(cfg: Config, init: seq<seq<int>>) returns (pop: seq<array<int>>)
    requires InitFits(cfg, init)
    ensures Population(pop, cfg) && Distinct(pop)
    ensures forall j :: 0 <= j < |pop| ==> fresh(pop[j]) && pop[j][..] == Genes(init[j])
    ensures Snapshot(pop) == InitialGenes(init)
  {
    pop := [];
    for i := 0 to cfg.popSize
      invariant |pop| == i && Distinct(pop)
      invariant forall j :: 0 <= j < i ==>
        fresh(pop[j]) && pop[j].Length == cfg.geneLength && pop[j][..] == Genes(init[j])
    {
      var genes := Genes(init[i]);
      var a := new int[cfg.geneLength](g requires 0 <= g < cfg.geneLength => genes[g]);
      assert a[..] == genes;
      pop := pop + [a];
    }
  }

  /** Reference definition of `max(population, key=fitness)` on genes: scan
      from the left and move on only to a strictly fitter individual, so the
      first of the fittest is chosen. */
  function FirstFittest(snap: seq<seq<int>>): (b: nat)
    requires snap != []
    ensures b < |snap|
    ensures forall j :: 0 <= j < |snap| ==> Fitness(snap[j]) <= Fitness(snap[b])
    ensures forall j :: 0 <= j < b ==> Fitness(snap[j]) < Fitness(snap[b])
    decreases |snap|
  {
    if |snap| == 1 then 0
    else
      var b := FirstFittest(snap[..|snap| - 1]);
      if Fitness(snap[|snap| - 1]) > Fitness(snap[b]) then |snap| - 1 else b
  }

  /** An index whose individual is at least as fit as every other and
      strictly fitter than every earlier one is the first fittest. */
  lemma FirstFittestUnique(snap: seq<seq<int>>, b: nat)
    requires b < |snap|
    requires forall j :: 0 <= j < |snap| ==> Fitness(snap[j]) <= Fitness(snap[b])
    requires forall j :: 0 <= j < b ==> Fitness(snap[j]) < Fitness(snap[b])
    ensures b == FirstFittest(snap)
  {
  }

  /** `max(population, key=fitness)`: the index of the first individual of
      greatest fitness (a later one replaces it only when strictly fitter). */
  method BestIndex(pop: seq<array<int>>) returns (best: nat)
    requires pop != []
    ensures best < |pop|
    ensures forall j :: 0 <= j < |pop| ==> Fitness(pop[j][..]) <= Fitness(pop[best][..])
    ensures forall j :: 0 <= j < best ==> Fitness(pop[j][..]) < Fitness(pop[best][..])
    ensures best == FirstFittest(Snapshot(pop))
  {
    best := 0;
    var bestFitness := Fitness(pop[0][..]);
    for i := 1 to |pop|
      invariant best < i && bestFitness == Fitness(pop[best][..])
      invariant forall j :: 0 <= j < i ==> Fitness(pop[j][..]) <= bestFitness
      invariant forall j :: 0 <= j < best ==> Fitness(pop[j][..]) < bestFitness
    {
      var f := Fitness(pop[i][..]);
      if f > bestFitness {
        best, bestFitness := i, f;
      }
    }
    FirstFittestUnique(Snapshot(pop), best);
  }

  /** Crossing the pairs of a well-shaped selection with valid draws gives
      a well-shaped population again. */
  lemma ChildrenFormPopulation(sel: seq<array<int>>, next: seq<array<int>>, crosses: seq<CrossDraw>, cfg: Config)
    requires Population(sel, cfg) && PairsFit(sel, crosses) && |next| == |sel|
    requires forall k :: 0 <= k < |crosses| ==>
      (next[2 * k][..], next[2 * k + 1][..]) == Children(sel[2 * k][..], sel[2 * k + 1][..], crosses[k])
    ensures Population(next, cfg)
  {
    forall j | 0 <= j < |next|
      ensures next[j].Length == cfg.geneLength && Binary(next[j][..])
    {
      var k := j / 2;
      assert j == 2 * k || j == 2 * k + 1;
      CrossoverConservesGenes(sel[2 * k][..], sel[2 * k + 1][..], crosses[k]);
      CrossoverKeepsBinary(sel[2 * k][..], sel[2 * k + 1][..], crosses[k]);
    }
  }

  /** `select` fails on a well-shaped population only when every gene of
      every individual is 0. */
  lemma AllZeroWhenRejected(pop: seq<array<int>>, cfg: Config)
    requires Population(pop, cfg) && pop != [] && TotalFitness(pop) == 0
    ensures forall j :: 0 <= j < |pop| ==> Fitness(pop[j][..]) == 0
    ensures AllZeros(Snapshot(pop))
  {
    ZeroTotalMeansAllZero(pop);
    forall j | 0 <= j < |pop| ensures forall g :: 0 <= g < pop[j].Length ==> pop[j][g] == 0 {
      FitnessZeroIffAllZeros(pop[j][..]);
      assert forall g :: 0 <= g < pop[j].Length ==> pop[j][..][g] == pop[j][g];
    }
  }

  /** What `select` returns from a well-shaped population is well-shaped,
      and the generation's crossover draws fit its pairs. */
  lemma SelectionFormsPopulation(pop: seq<array<int>>, d: GenerationDraws, sel: seq<array<int>>, cfg: Config)
    requires cfg.popSize % 2 == 0 && Population(pop, cfg) && DrawsFit(cfg, d)
    requires |sel| == |d.picks| && forall i :: 0 <= i < |sel| ==> sel[i] == pop[d.picks[i]]
    ensures Population(sel, cfg) && PairsFit(sel, d.crosses)
  {
  }

  /** A population `select` accepts has a non-zero total fitness. */
  lemma SelectedNonZero(pop: seq<array<int>>, picks: seq<int>, sel: seq<array<int>>)
    requires forall i :: 0 <= i < |picks| ==> 0 <= picks[i] < |pop|
    requires Select(pop, picks) == Ok(sel)
    ensures FitnessSum(Snapshot(pop)) != 0
  {
  }

  /** Steps 2b and 2c of a generation: cross the selected pairs into
      `next_population`, then mutate every slot of it in place. The genes
      of the result are the mutation (`Mutated`, flip parity per shared
      individual) of the crossover (`Crossed`) of the selected genes; a
      kept pair leaves the selected individuals in their slots, a cut pair
      new ones, each in one slot only; selected individuals that are not
      kept keep their genes. */
  method NextPopulation(sel: seq<array<int>>, crosses: seq<CrossDraw>, masks: seq<seq<bool>>, cfg: Config)
    returns (next: seq<array<int>>)
    requires Population(sel, cfg) && PairsFit(sel, crosses)
    requires |masks| == cfg.popSize && forall j :: 0 <= j < |masks| ==> |masks[j]| == cfg.geneLength
    modifies sel
    ensures Population(next, cfg)
    ensures Parented(sel, crosses, next)
    ensures forall k :: 0 <= k < |crosses| && crosses[k].Cut? ==> fresh(next[2 * k]) && fresh(next[2 * k + 1])
    ensures forall j :: 0 <= j < |next| ==> next[j] == sel[j] || fresh(next[j])
    ensures CutsFit(old(Snapshot(sel)), crosses)
    ensures Snapshot(next) == Mutated(Crossed(old(Snapshot(sel)), crosses), next, masks)
    ensures forall a :: a in sel && a !in next ==> a[..] == old(a[..])
  {
    ghost var before := Snapshot(sel);
    next := CrossoverPairs(sel, crosses);
    ChildrenFormPopulation(sel, next, crosses, cfg);
    OnlySelectedRepeat(sel, crosses, next);
    ghost var crossed := Snapshot(next);
    CrossedFromPairs(before, crosses, crossed);
    MutateAll(next, masks);
  }

  /** One line per generation: its number (from 1), the best fitness and the
      best individual's genes. */
  datatype Report = Report(generation: nat, bestFitness: int, best: seq<int>)

  /** How the run ends: an all-ones individual was found, MAX_GEN generations
      passed without one, or `select` failed. */
  datatype Outcome = Solved | Exhausted | Aborted(error: SelectError)

  /** The report on a population with these genes in generation
      `generation` (counted from 0): the first fittest individual. */
  function ReportOn(snap: seq<seq<int>>, generation: nat): (r: Report)
    requires snap != []
    ensures r.generation == generation + 1 && r.best in snap && r.bestFitness == Fitness(r.best)
    ensures forall j :: 0 <= j < |snap| ==> Fitness(snap[j]) <= r.bestFitness
  {
    var b := FirstFittest(snap);
    Report(generation + 1, Fitness(snap[b]), snap[b])
  }

  /** One generation on genes and individuals: `prev` are the genes of the
      individuals `prevPop`, and `next` the genes of `nextPop` after
      selecting with `d.picks`, crossing with `d.crosses` and mutating with
      `d.masks`. Which individuals fill which slots of `nextPop` follows
      `Parented`. `select` went through, so `prev` has a non-zero total
      fitness. */
  predicate Descends(prev: seq<seq<int>>, prevPop: seq<array<int>>, d: GenerationDraws,
                     next: seq<seq<int>>, nextPop: seq<array<int>>)
  {
    && |prevPop| == |prev| && FitnessSum(prev) != 0
    && (forall i :: 0 <= i < |d.picks| ==> 0 <= d.picks[i] < |prev|)
    && |d.picks| == 2 * |d.crosses| == |d.masks| == |nextPop|
    && CutsFit(Pick(prev, d.picks), d.crosses)
    && Parented(Pick(prevPop, d.picks), d.crosses, nextPop)
    && next == Mutated(Crossed(Pick(prev, d.picks), d.crosses), nextPop, d.masks)
  }

  /** A generation whose masks flip nothing keeps the total fitness of the
      selected individuals: crossover only moves genes within each pair. */
  lemma UnmutatedGeneration(prev: seq<seq<int>>, prevPop: seq<array<int>>, d: GenerationDraws,
                            next: seq<seq<int>>, nextPop: seq<array<int>>)
    requires Descends(prev, prevPop, d, next, nextPop)
    requires forall i, j :: 0 <= i < |prev| && 0 <= j < |prev| ==> |prev[i]| == |prev[j]|
    requires forall j, g :: 0 <= j < |d.masks| && 0 <= g < |d.masks[j]| ==> !d.masks[j][g]
    ensures FitnessSum(next) == FitnessSum(Pick(prev, d.picks))
  {
    var selected := Pick(prev, d.picks);
    MutatedUnmasked(Crossed(selected, d.crosses), nextPop, d.masks);
    CrossedConservesFitness(selected, d.crosses);
  }

  /** A generation that cuts no pair and flips no gene only selects: the
      new genes are the picked individuals' genes, in pick order. */
  lemma QuietGeneration(prev: seq<seq<int>>, prevPop: seq<array<int>>, d: GenerationDraws,
                        next: seq<seq<int>>, nextPop: seq<array<int>>)
    requires Descends(prev, prevPop, d, next, nextPop)
    requires forall k :: 0 <= k < |d.crosses| ==> d.crosses[k] == Keep
    requires forall j, g :: 0 <= j < |d.masks| && 0 <= g < |d.masks[j]| ==> !d.masks[j][g]
    ensures next == Pick(prev, d.picks)
  {
    var selected := Pick(prev, d.picks);
    MutatedUnmasked(Crossed(selected, d.crosses), nextPop, d.masks);
    CrossedKeep(selected, d.crosses);
  }

  /** When the new population has no individual in two slots, each slot is
      its crossed genes flipped by its own mask, as `mutate` on a fresh list
      would leave it. */
  lemma DescendsDistinct(prev: seq<seq<int>>, prevPop: seq<array<int>>, d: GenerationDraws,
                         next: seq<seq<int>>, nextPop: seq<array<int>>)
    requires Descends(prev, prevPop, d, next, nextPop) && Distinct(nextPop)
    requires forall j :: 0 <= j < |next| ==> |d.masks[j]| == |next[j]|
    ensures forall j :: 0 <= j < |next| ==>
      next[j] == Flipped(Crossed(Pick(prev, d.picks), d.crosses)[j], d.masks[j])
  {
    MutatedDistinct(Crossed(Pick(prev, d.picks), d.crosses), nextPop, d.masks);
  }

  /** The pieces of a generation, put together. */
  lemma DescendsOf(prev: seq<seq<int>>, prevPop: seq<array<int>>, d: GenerationDraws,
                   sel: seq<array<int>>, selected: seq<seq<int>>, next: seq<seq<int>>, nextPop: seq<array<int>>)
    requires |prevPop| == |prev| && forall i :: 0 <= i < |d.picks| ==> 0 <= d.picks[i] < |prev|
    requires FitnessSum(prev) != 0
    requires |d.picks| == 2 * |d.crosses| == |d.masks| == |nextPop|
    requires sel == Pick(prevPop, d.picks) && selected == Pick(prev, d.picks)
    requires CutsFit(selected, d.crosses) && Parented(sel, d.crosses, nextPop)
    requires next == Mutated(Crossed(selected, d.crosses), nextPop, d.masks)
    ensures Descends(prev, prevPop, d, next, nextPop)
  {
  }

  /** Steps 2b to 2e of a generation, after `select` succeeded: crossover
      and mutation into the next population, which replaces the current one,
      then the report on its best individual. */
  method Generation(pop: seq<array<int>>, sel: seq<array<int>>, d: GenerationDraws, cfg: Config, generation: nat)
    returns (next: seq<array<int>>, report: Report)
    requires cfg.popSize % 2 == 0 && Population(pop, cfg) && DrawsFit(cfg, d)
    requires Select(pop, d.picks) == Ok(sel)
    modifies pop
    ensures Population(next, cfg)
    ensures forall j :: 0 <= j < |next| ==> next[j] in pop || fresh(next[j])
    ensures Descends(old(Snapshot(pop)), pop, d, Snapshot(next), next)
    ensures forall a :: a in pop && a !in next ==> a[..] == old(a[..])
    ensures report == ReportOn(Snapshot(next), generation)
    ensures Reported([report], cfg, generation)
  {
    next := Breed(pop, sel, d, cfg);
    report := ReportBest(next, cfg, generation);
  }

  /** Steps 2b to 2d: the next population and how it descends from the
      current one. */
  method Breed(pop: seq<array<int>>, sel: seq<array<int>>, d: GenerationDraws, cfg: Config)
    returns (next: seq<array<int>>)
    requires cfg.popSize % 2 == 0 && Population(pop, cfg) && DrawsFit(cfg, d)
    requires Select(pop, d.picks) == Ok(sel)
    modifies pop
    ensures Population(next, cfg)
    ensures forall j :: 0 <= j < |next| ==> next[j] in pop || fresh(next[j])
    ensures Descends(old(Snapshot(pop)), pop, d, Snapshot(next), next)
    ensures forall a :: a in pop && a !in next ==> a[..] == old(a[..])
  {
    SelectionFormsPopulation(pop, d, sel, cfg);
    ghost var before := Snapshot(pop);
    ghost var selBefore := Snapshot(sel);
    SelectedNonZero(pop, d.picks, sel);
    assert sel == Pick(pop, d.picks);
    assert selBefore == Pick(before, d.picks);
    next := NextPopulation(sel, d.crosses, d.masks, cfg);
    DescendsOf(before, pop, d, sel, selBefore, Snapshot(next), next);
  }

  /** Step 2e: the line printed for the new population, on its first
      fittest individual. */
  method ReportBest(pop: seq<array<int>>, cfg: Config, generation: nat) returns (report: Report)
    requires pop != [] && Population(pop, cfg)
    ensures report == ReportOn(Snapshot(pop), generation)
    ensures Reported([report], cfg, generation)
  {
    var b := BestIndex(pop);
    var best := pop[b][..];
    FitnessCountsOnes(best);
    report := Report(generation + 1, Fitness(best), best);
  }

  /** The reports are numbered from generation `first + 1` on, and each
      gives a binary individual of GENE_LENGTH genes and its fitness, which
      therefore lies between 0 and GENE_LENGTH. */
  predicate Reported(reports: seq<Report>, cfg: Config, first: nat) {
    forall k :: 0 <= k < |reports| ==>
      && reports[k].generation == first + k + 1
      && |reports[k].best| == cfg.geneLength && Binary(reports[k].best)
      && reports[k].bestFitness == Fitness(reports[k].best)
      && 0 <= reports[k].bestFitness <= cfg.geneLength
  }

  /** No report shows an all-ones individual. */
  predicate Unsolved(reports: seq<Report>, cfg: Config) {
    forall k :: 0 <= k < |reports| ==> reports[k].bestFitness < cfg.geneLength
  }

  /** One pass of the generation loop: `select`, and when it succeeds the
      rest of the generation. When `select` fails nothing changes, and the
      population it rejected is empty or all zeros. */
  method Step(pop: seq<array<int>>, d: GenerationDraws, cfg: Config, generation: nat)
    returns (result: Result<Report>, next: seq<array<int>>)
    requires cfg.popSize % 2 == 0 && Population(pop, cfg) && DrawsFit(cfg, d)
    modifies pop
    ensures result.Err? <==> old(TotalFitness(pop)) == 0
    ensures result.Err? ==> next == pop && unchanged(pop)
    ensures result.Err? ==> result.error == if pop == [] then EmptyPopulation else DivisionByZero
    ensures result.Err? ==> AllZeros(old(Snapshot(pop)))
    ensures result.Ok? ==> Population(next, cfg)
    ensures result.Ok? ==> forall j :: 0 <= j < |next| ==> next[j] in pop || fresh(next[j])
    ensures result.Ok? ==> Descends(old(Snapshot(pop)), pop, d, Snapshot(next), next)
    ensures result.Ok? ==> forall a :: a in pop && a !in next ==> a[..] == old(a[..])
    ensures result.Ok? ==> result.value == ReportOn(Snapshot(next), generation)
    ensures result.Ok? ==> Reported([result.value], cfg, generation)
  {
    var selected := Select(pop, d.picks);
    if selected.Err? {
      if pop != [] {
        AllZeroWhenRejected(pop, cfg);
      }
      return Err(selected.error), pop;
    }
    var report;
    next, report := Generation(pop, selected.value, d, cfg, generation);
    result := Ok(report);
  }

  /** The run so far, generation by generation: `hist[k]` are the genes of
      the individuals `pops[k]` the k-th population is made of. The first
      population is the initial one, each later one descends from the one
      before with that generation's draws, and each report is on the
      population its generation produced. */
  ghost predicate History(cfg: Config, init: seq<seq<int>>, draws: seq<GenerationDraws>, reports: seq<Report>,
                          hist: seq<seq<seq<int>>>, pops: seq<seq<array<int>>>)
    requires InitFits(cfg, init)
  {
    && |hist| == |pops| == |reports| + 1 && |reports| <= |draws|
    && hist[0] == InitialGenes(init) && |pops[0]| == |init| && Distinct(pops[0])
    && forall k :: 0 <= k < |reports| ==> Ran(draws, reports, hist, pops, k)
  }

  /** Generation `k` of a run: population k + 1 descends from population k
      with the draws of generation k, and the k-th report is on it. */
  predicate Ran(draws: seq<GenerationDraws>, reports: seq<Report>,
                hist: seq<seq<seq<int>>>, pops: seq<seq<array<int>>>, k: nat)
  {
    && k < |reports| && k < |draws| && k + 1 < |hist| && k + 1 < |pops|
    && Descends(hist[k], pops[k], draws[k], hist[k + 1], pops[k + 1])
    && hist[k + 1] != [] && reports[k] == ReportOn(hist[k + 1], k)
  }

  /** `genetic_algorithm()`, with every random draw passed in. `hist` and
      `pops` record the populations of the run, the first the initial one
      and the last the one the run ended with. */
  method GeneticAlgorithm(cfg: Config, init: seq<seq<int>>, draws: seq<GenerationDraws>)
    returns (outcome: Outcome, reports: seq<Report>, ghost hist: seq<seq<seq<int>>>, ghost pops: seq<seq<array<int>>>)
    requires cfg.popSize % 2 == 0
    requires InitFits(cfg, init)
    requires |draws| == cfg.maxGen && forall gen :: 0 <= gen < |draws| ==> DrawsFit(cfg, draws[gen])
    ensures History(cfg, init, draws, reports, hist, pops)
    ensures |reports| <= cfg.maxGen && Reported(reports, cfg, 0)
    ensures reports != [] ==> Unsolved(reports[..|reports| - 1], cfg)
    ensures outcome == Solved <==> reports != [] && reports[|reports| - 1].bestFitness == cfg.geneLength
    ensures outcome == Solved ==> AllOnes(reports[|reports| - 1].best)
    ensures outcome == Exhausted ==> |reports| == cfg.maxGen
    ensures outcome.Aborted? ==>
      |reports| < cfg.maxGen && outcome.error == (if cfg.popSize == 0 then EmptyPopulation else DivisionByZero)
    ensures outcome.Aborted? ==> AllZeros(hist[|reports|])
    ensures forall k :: 0 <= k < |reports| ==> FitnessSum(hist[k]) != 0
    ensures outcome.Aborted? && reports != [] ==> reports[|reports| - 1].bestFitness == 0
    ensures outcome.Aborted? && reports == [] ==>
      forall i, g :: 0 <= i < |init| && 0 <= g < |init[i]| ==> Genes(init[i])[g] == 0
  {
    var pop: seq<array<int>> := InitPopulation(cfg, init);
    reports := [];
    outcome := Exhausted;
    hist, pops := [Snapshot(pop)], [pop];
    for generation := 0 to cfg.maxGen
      invariant Population(pop, cfg)
      invariant forall j :: 0 <= j < |pop| ==> fresh(pop[j])
      invariant |reports| == generation && outcome == Exhausted
      invariant Reported(reports, cfg, 0) && Unsolved(reports, cfg)
      invariant History(cfg, init, draws, reports, hist, pops)
      invariant pops[generation] == pop && hist[generation] == Snapshot(pop)
    {
      var result, next;
      result, next, hist, pops := Advance(cfg, init, draws, generation, pop, reports, hist, pops);
      if result.Err? {
        outcome := Aborted(result.error);
        RunRejected(cfg, init, draws, reports, hist, pops);
        break;
      }
      var report := result.value;
      assert [report][0] == report && Binary(report.best);
      ReportedAppend(reports, report, cfg);
      pop := next;
      reports := reports + [report];
      if report.bestFitness == cfg.geneLength {
        outcome := Solved;
        FitnessFullIffAllOnes(report.best);
        break;
      }
    }
    HistoryNonZero(cfg, init, draws, reports, hist, pops);
  }

  /** One pass of the generation loop of a run, which has made `reports`
      so far and whose populations are `hist` and `pops`: when `select`
      fails the run is unchanged and its last population is all zeros,
      otherwise the new population and its report extend the run. */
  method Advance(cfg: Config, init: seq<seq<int>>, draws: seq<GenerationDraws>, generation: nat, pop: seq<array<int>>,
                 ghost reports: seq<Report>, ghost hist: seq<seq<seq<int>>>, ghost pops: seq<seq<array<int>>>)
    returns (result: Result<Report>, next: seq<array<int>>, ghost hist': seq<seq<seq<int>>>, ghost pops': seq<seq<array<int>>>)
    requires cfg.popSize % 2 == 0 && InitFits(cfg, init)
    requires generation < |draws| && DrawsFit(cfg, draws[generation])
    requires Population(pop, cfg) && |reports| == generation
    requires History(cfg, init, draws, reports, hist, pops)
    requires pops[generation] == pop && hist[generation] == Snapshot(pop)
    modifies pop
    ensures result.Err? <==> FitnessSum(hist[generation]) == 0
    ensures result.Err? ==> hist' == hist && pops' == pops && next == pop && unchanged(pop)
    ensures result.Err? ==> result.error == (if cfg.popSize == 0 then EmptyPopulation else DivisionByZero)
    ensures result.Err? ==> AllZeros(hist[generation])
    ensures result.Ok? ==> Population(next, cfg)
    ensures result.Ok? ==> forall j :: 0 <= j < |next| ==> next[j] in pop || fresh(next[j])
    ensures result.Ok? ==> forall a :: a in pop && a !in next ==> a[..] == old(a[..])
    ensures result.Ok? ==> Reported([result.value], cfg, generation)
    ensures result.Ok? ==> History(cfg, init, draws, reports + [result.value], hist', pops')
    ensures result.Ok? ==> pops'[generation + 1] == next && hist'[generation + 1] == Snapshot(next)
  {
    result, next := Step(pop, draws[generation], cfg, generation);
    if result.Err? {
      return result, next, hist, pops;
    }
    HistoryAppend(cfg, init, draws, reports, hist, pops, result.value, Snapshot(next), next);
    hist', pops' := hist + [Snapshot(next)], pops + [next];
  }

  /** A run goes on only from populations whose total fitness is not 0. */
  lemma HistoryNonZero(cfg: Config, init: seq<seq<int>>, draws: seq<GenerationDraws>, reports: seq<Report>,
                       hist: seq<seq<seq<int>>>, pops: seq<seq<array<int>>>)
    requires InitFits(cfg, init) && History(cfg, init, draws, reports, hist, pops)
    ensures forall k :: 0 <= k < |reports| ==> FitnessSum(hist[k]) != 0
  {
    forall k | 0 <= k < |reports| ensures FitnessSum(hist[k]) != 0 {
      assert Ran(draws, reports, hist, pops, k);
    }
  }

  /** A run whose initial genes are all 0 makes no report: the first
      `select` divides by the zero total. */
  lemma ZeroStartReportsNothing(cfg: Config, init: seq<seq<int>>, draws: seq<GenerationDraws>, reports: seq<Report>,
                                hist: seq<seq<seq<int>>>, pops: seq<seq<array<int>>>)
    requires InitFits(cfg, init) && History(cfg, init, draws, reports, hist, pops)
    requires forall i, g :: 0 <= i < |init| && 0 <= g < |init[i]| ==> init[i][g] == 0
    ensures reports == []
  {
    HistoryNonZero(cfg, init, draws, reports, hist, pops);
    assert AllZeros(hist[0]);
    AllZerosSumZero(hist[0]);
  }

  /** The module-level call `genetic_algorithm()`, run with the program's
      constants: at most 100 reports, solved exactly when the last best
      individual has fitness 10, and an all-zero start aborts with a
      division by zero before any report. */
  method RunReference(init: seq<seq<int>>, draws: seq<GenerationDraws>) returns (outcome: Outcome, reports: seq<Report>)
    requires InitFits(Reference, init)
    requires |draws| == Reference.maxGen && forall gen :: 0 <= gen < |draws| ==> DrawsFit(Reference, draws[gen])
    ensures |reports| <= 100 && Reported(reports, Reference, 0)
    ensures outcome == Solved <==> reports != [] && reports[|reports| - 1].bestFitness == 10
    ensures (forall i, g :: 0 <= i < |init| && 0 <= g < |init[i]| ==> init[i][g] == 0) ==>
      outcome == Aborted(DivisionByZero) && reports == []
  {
    ghost var hist, pops;
    outcome, reports, hist, pops := GeneticAlgorithm(Reference, init, draws);
    if forall i, g :: 0 <= i < |init| && 0 <= g < |init[i]| ==> init[i][g] == 0 {
      ZeroStartReportsNothing(Reference, init, draws, reports, hist, pops);
    }
  }

  /** Appending a report numbered one past the last keeps the reports
      numbered consecutively from 1. */
  lemma ReportedAppend(reports: seq<Report>, report: Report, cfg: Config)
    requires Reported(reports, cfg, 0) && Reported([report], cfg, |reports|)
    ensures Reported(reports + [report], cfg, 0)
  {
  }

  /** A generation that descends from the last population of a run, and
      its report, extend the run. */
  lemma HistoryAppend(cfg: Config, init: seq<seq<int>>, draws: seq<GenerationDraws>, reports: seq<Report>,
                      hist: seq<seq<seq<int>>>, pops: seq<seq<array<int>>>,
                      report: Report, snap: seq<seq<int>>, pop: seq<array<int>>)
    requires InitFits(cfg, init) && History(cfg, init, draws, reports, hist, pops) && |reports| < |draws|
    requires Descends(hist[|reports|], pops[|reports|], draws[|reports|], snap, pop)
    requires snap != [] && report == ReportOn(snap, |reports|)
    ensures History(cfg, init, draws, reports + [report], hist + [snap], pops + [pop])
  {
    forall k | 0 <= k < |reports| ensures Ran(draws, reports + [report], hist + [snap], pops + [pop], k) {
      RanExtends(draws, reports, hist, pops, report, snap, pop, k);
    }
    assert (hist + [snap])[|reports|] == hist[|reports|] && (pops + [pop])[|reports|] == pops[|reports|];
  }

  /** A generation of a run stays one when the run goes on. */
  lemma RanExtends(draws: seq<GenerationDraws>, reports: seq<Report>, hist: seq<seq<seq<int>>>, pops: seq<seq<array<int>>>,
                   report: Report, snap: seq<seq<int>>, pop: seq<array<int>>, k: nat)
    requires Ran(draws, reports, hist, pops, k)
    ensures Ran(draws, reports + [report], hist + [snap], pops + [pop], k)
  {
    assert (hist + [snap])[k] == hist[k] && (hist + [snap])[k + 1] == hist[k + 1];
    assert (pops + [pop])[k] == pops[k] && (pops + [pop])[k + 1] == pops[k + 1];
    assert (reports + [report])[k] == reports[k];
  }

  /** When `select` rejects the last population of a run, the last reported
      best fitness was 0, or, before any report, every initial gene was 0. */
  lemma RunRejected(cfg: Config, init: seq<seq<int>>, draws: seq<GenerationDraws>, reports: seq<Report>,
                    hist: seq<seq<seq<int>>>, pops: seq<seq<array<int>>>)
    requires InitFits(cfg, init) && History(cfg, init, draws, reports, hist, pops)
    requires AllZeros(hist[|reports|])
    ensures reports != [] ==> reports[|reports| - 1].bestFitness == 0
    ensures reports == [] ==>
      forall i, g :: 0 <= i < |init| && 0 <= g < |init[i]| ==> Genes(init[i])[g] == 0
  {
    if reports != [] {
      var k := |reports| - 1;
      assert Ran(draws, reports, hist, pops, k);
      var best := hist[k + 1][FirstFittest(hist[k + 1])];
      assert reports[k].best == best;
      assert forall i :: 0 <= i < |best| ==> best[i] == 0;
      FitnessZeroIffAllZeros(best);
    } else {
      forall i, g | 0 <= i < |init| && 0 <= g < |init[i]| ensures Genes(init[i])[g] == 0 {
        assert hist[0][i] == Genes(init[i]);
      }
    }
  }
}
