/** Roulette-wheel selection. `random.choices` is replaced by the list of
    indices it draws; the fitness-proportional weights only decide which
    indices are likely, so they are not modelled. */
module Selection {
  import opened Individual

  /** The ways `select` fails: `fitness(ind) / total_fitness` divides by zero
      when the population has total fitness 0, and `random.choices` cannot
      draw from an empty population. */
  datatype SelectError = DivisionByZero | EmptyPopulation

  datatype Result<T> = Ok(value: T) | Err(error: SelectError)

  /** `sum(fitness(ind) for ind in population)`, over the individuals; it
      equals `FitnessSum`, the same sum over their genes. */
  function TotalFitness(pop: seq<array<int>>): (r: int)
    reads pop
    ensures r == FitnessSum(Snapshot(pop))
    ensures (forall j :: 0 <= j < |pop| ==> Binary(pop[j][..])) ==> r >= 0
  {
    if pop == [] then 0
    else
      assert Snapshot(pop)[1..] == Snapshot(pop[1..]);
      Fitness(pop[0][..]) + TotalFitness(pop[1..])
  }

  /** The individuals at the picked indices, in pick order. */
  function Pick<T>(s: seq<T>, picks: seq<int>): (r: seq<T>)
    requires forall i :: 0 <= i < |picks| ==> 0 <= picks[i] < |s|
    ensures |r| == |picks| && forall i :: 0 <= i < |picks| ==> r[i] == s[picks[i]]
  {
    seq(|picks|, i requires 0 <= i < |picks| => s[picks[i]])
  }

  /** Every gene of every individual is 0. */
  predicate AllZeros(vals: seq<seq<int>>) {
    forall j, g :: 0 <= j < |vals| && 0 <= g < |vals[j]| ==> vals[j][g] == 0
  }

  /** A population of all-zero individuals has total fitness 0. */
  lemma {:induction false} AllZerosSumZero(vals: seq<seq<int>>)
    requires AllZeros(vals)
    ensures FitnessSum(vals) == 0
  {
    if vals != [] {
      assert Binary(vals[0]);
      FitnessZeroIffAllZeros(vals[0]);
      assert forall j, g :: 0 <= j < |vals| - 1 && 0 <= g < |vals[1..][j]| ==> vals[1..][j][g] == vals[j + 1][g];
      AllZerosSumZero(vals[1..]);
    }
  }

  /** `select(population)`, with `picks` the indices `random.choices` draws
      (`k = POP_SIZE` of them). The selected individuals are the population's
      own objects, not copies: one individual may be selected several times. */
  function Select(pop: seq<array<int>>, picks: seq<int>): (r: Result<seq<array<int>>>)
    reads pop
    requires forall i :: 0 <= i < |picks| ==> 0 <= picks[i] < |pop|
    ensures pop == [] ==> r == Err(EmptyPopulation)
    ensures pop != [] ==> (r.Err? <==> TotalFitness(pop) == 0)
    ensures r.Err? ==> r.error == (if pop == [] then EmptyPopulation else DivisionByZero)
    ensures r.Ok? ==> |r.value| == |picks|
    ensures r.Ok? ==> forall i :: 0 <= i < |picks| ==> r.value[i] == pop[picks[i]] && r.value[i] in pop
  {
    if pop == [] then Err(EmptyPopulation)
    else if TotalFitness(pop) == 0 then Err(DivisionByZero)
    else Ok(Pick(pop, picks))
  }

  /** Genes are binary, so the total is 0 only when every individual has
      fitness 0, i.e. is all zeros: the only populations `select` rejects. */
  lemma {:induction false} ZeroTotalMeansAllZero(pop: seq<array<int>>)
    requires forall j :: 0 <= j < |pop| ==> Binary(pop[j][..])
    ensures TotalFitness(pop) >= 0
    ensures TotalFitness(pop) == 0 <==> forall j :: 0 <= j < |pop| ==> Fitness(pop[j][..]) == 0
  {
    if pop != [] {
      FitnessCountsOnes(pop[0][..]);
      ZeroTotalMeansAllZero(pop[1..]);
      assert forall j :: 1 <= j < |pop| ==> pop[1..][j - 1] == pop[j];
    }
  }
}
