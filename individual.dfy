/** Genes, individuals and the MAXONE fitness. An individual's genes are
    viewed here as a value `seq<int>`; the operators that change an
    individual in place work on `array<int>` and are specified through
    this view. */
module Individual {

  /** GENE_POOL: the values a gene is drawn from. */
  const GenePool: seq<int> := [0, 1]

  /** Every gene is one of the values of the gene pool. */
  predicate Binary(s: seq<int>) {
    forall i :: 0 <= i < |s| ==> s[i] == 0 || s[i] == 1
  }

  /** The MAXONE optimum: every gene is 1. */
  predicate AllOnes(s: seq<int>) {
    forall i :: 0 <= i < |s| ==> s[i] == 1
  }

  /** `sum(individual)`: the fitness is the sum of the genes; for a binary
      individual it lies between 0 and the length. */
  function Fitness(s: seq<int>): (r: int)
    ensures Binary(s) ==> 0 <= r <= |s|
  {
    if s == [] then 0 else s[0] + Fitness(s[1..])
  }

  /** Reference definition of MAXONE fitness: how many genes are 1. */
  function Ones(s: seq<int>): nat {
    multiset(s)[1]
  }

  /** The total fitness of the genes of a population; `Selection.TotalFitness`
      is the same sum taken over the individuals themselves. */
  function FitnessSum(vals: seq<seq<int>>): int {
    if vals == [] then 0 else Fitness(vals[0]) + FitnessSum(vals[1..])
  }

  /** The genes every individual of a population holds right now. */
  ghost function Snapshot(pop: seq<array<int>>): (s: seq<seq<int>>)
    reads pop
    ensures |s| == |pop| && forall j :: 0 <= j < |pop| ==> s[j] == pop[j][..]
  {
    seq(|pop|, j requires 0 <= j < |pop| reads pop => pop[j][..])
  }

  lemma {:induction false} FitnessAppend(a: seq<int>, b: seq<int>)
    ensures Fitness(a + b) == Fitness(a) + Fitness(b)
  {
    if a == [] {
      assert a + b == b;
    } else {
      assert (a + b)[1..] == a[1..] + b;
      FitnessAppend(a[1..], b);
    }
  }

  /** For a binary individual the sum of the genes is the number of ones,
      hence lies between 0 and the length. */
  lemma {:induction false} FitnessCountsOnes(s: seq<int>)
    requires Binary(s)
    ensures Fitness(s) == Ones(s)
    ensures 0 <= Fitness(s) <= |s|
  {
    if s != [] {
      assert s == [s[0]] + s[1..];
      assert multiset(s) == multiset{s[0]} + multiset(s[1..]);
      FitnessCountsOnes(s[1..]);
    }
  }

  /** A binary individual reaches the maximal fitness `|s|` exactly when all
      its genes are 1: this is what the termination test detects. */
  lemma {:induction false} FitnessFullIffAllOnes(s: seq<int>)
    requires Binary(s)
    ensures Fitness(s) == |s| <==> AllOnes(s)
  {
    if s != [] {
      FitnessFullIffAllOnes(s[1..]);
      FitnessCountsOnes(s[1..]);
      if Fitness(s) == |s| {
        forall i | 0 <= i < |s| ensures s[i] == 1 {
          if i > 0 { assert s[i] == s[1..][i - 1]; }
        }
      }
      if AllOnes(s) {
        assert forall i :: 0 <= i < |s| - 1 ==> s[1..][i] == s[i + 1];
      }
    }
  }

  /** A binary individual has fitness 0 exactly when all its genes are 0. */
  lemma {:induction false} FitnessZeroIffAllZeros(s: seq<int>)
    requires Binary(s)
    ensures Fitness(s) == 0 <==> forall i :: 0 <= i < |s| ==> s[i] == 0
  {
    if s != [] {
      FitnessZeroIffAllZeros(s[1..]);
      FitnessCountsOnes(s[1..]);
      if Fitness(s) == 0 {
        forall i | 0 <= i < |s| ensures s[i] == 0 {
          if i > 0 { assert s[i] == s[1..][i - 1]; }
        }
      }
      if forall i :: 0 <= i < |s| ==> s[i] == 0 {
        assert forall i :: 0 <= i < |s| - 1 ==> s[1..][i] == s[i + 1];
      }
    }
  }
}
