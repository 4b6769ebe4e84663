/** Bit-flip mutation. The per-gene draw `random.random() < PMUT` is a
    mask: `mask[i]` holds exactly when gene `i` is flipped. */
module Mutation {
  import opened Individual

  /** The individual with exactly the masked genes flipped (`1 - gene`). */
  function Flipped(s: seq<int>, mask: seq<bool>): (r: seq<int>)
    requires |mask| == |s|
    ensures |r| == |s| && (Binary(s) ==> Binary(r))
  {
    seq(|s|, i requires 0 <= i < |s| => if mask[i] then 1 - s[i] else s[i])
  }

  /** `mutate(individual)`: flips, in place, the genes the mask selects. */
  method Mutate(a: array<int>, mask: seq<bool>)
    requires |mask| == a.Length
    modifies a
    ensures a[..] == Flipped(old(a[..]), mask)
  {
    for i := 0 to a.Length
      invariant forall k :: 0 <= k < i ==> a[k] == if mask[k] then 1 - old(a[k]) else old(a[k])
      invariant forall k :: i <= k < a.Length ==> a[k] == old(a[k])
    {
      if mask[i] {
        a[i] := 1 - a[i];
      }
    }
  }

  /** Mutation changes exactly the masked genes, keeps the length, and keeps
      the individual binary; a flipped binary gene takes the other value. */
  lemma FlippedChangesExactlyMasked(s: seq<int>, mask: seq<bool>)
    requires |mask| == |s| && Binary(s)
    ensures |Flipped(s, mask)| == |s| && Binary(Flipped(s, mask))
    ensures forall i :: 0 <= i < |s| ==> (Flipped(s, mask)[i] != s[i] <==> mask[i])
  {
  }

  /** Flipping twice with the same mask gives back the individual. */
  lemma FlippedTwice(s: seq<int>, mask: seq<bool>)
    requires |mask| == |s|
    ensures Flipped(Flipped(s, mask), mask) == s
  {
  }

  /** How mutation moves the fitness of a binary individual: up by one for
      every flipped 0, down by one for every flipped 1. */
  function Gain(s: seq<int>, mask: seq<bool>): int
    requires |mask| == |s|
  {
    if s == [] then 0
    else (if mask[0] then 1 - 2 * s[0] else 0) + Gain(s[1..], mask[1..])
  }

  lemma {:induction false} FlippedFitness(s: seq<int>, mask: seq<bool>)
    requires |mask| == |s|
    ensures Fitness(Flipped(s, mask)) == Fitness(s) + Gain(s, mask)
  {
    if s != [] {
      assert Flipped(s, mask)[1..] == Flipped(s[1..], mask[1..]);
      FlippedFitness(s[1..], mask[1..]);
    }
  }

  /** With no gene drawn (PMUT = 0) nothing changes; with every gene drawn
      (PMUT = 1) a binary individual is complemented, so its fitness becomes
      the number of its zeros. */
  lemma FlipNoneOrAll(s: seq<int>, mask: seq<bool>)
    requires |mask| == |s| && Binary(s)
    ensures (forall i :: 0 <= i < |s| ==> !mask[i]) ==> Flipped(s, mask) == s
    ensures (forall i :: 0 <= i < |s| ==> mask[i]) ==> Fitness(Flipped(s, mask)) == |s| - Fitness(s)
  {
    if forall i :: 0 <= i < |s| ==> mask[i] {
      var t := Flipped(s, mask);
      FitnessCountsOnes(s);
      FitnessCountsOnes(t);
      FlippedFitness(s, mask);
      AllFlippedGain(s, mask);
    }
  }

  lemma {:induction false} AllFlippedGain(s: seq<int>, mask: seq<bool>)
    requires |mask| == |s|
    requires forall i :: 0 <= i < |s| ==> mask[i]
    ensures Gain(s, mask) == |s| - 2 * Fitness(s)
  {
    if s != [] {
      AllFlippedGain(s[1..], mask[1..]);
    }
  }

  /** How many of the first `k` mutation passes flip gene `g` of the
      individual `a`. Pass `j` mutates population slot `j`; several slots
      may hold the very same individual, and each of their passes flips it. */
  function FlipCount(pop: seq<array<int>>, masks: seq<seq<bool>>, a: array<int>, g: int, k: nat): nat
    requires k <= |pop| == |masks|
  {
    if k == 0 then 0
    else FlipCount(pop, masks, a, g, k - 1)
         + (if pop[k - 1] == a && 0 <= g < |masks[k - 1]| && masks[k - 1][g] then 1 else 0)
  }

  /** All slots hold different individuals. */
  predicate Distinct(pop: seq<array<int>>) {
    forall x, y :: 0 <= x < y < |pop| ==> pop[x] != pop[y]
  }

  /** The genes of the population after every slot's pass: `vals` are the
      genes before, and a gene ends flipped exactly when an odd number of the
      passes over its individual flip it. */
  function Mutated(vals: seq<seq<int>>, pop: seq<array<int>>, masks: seq<seq<bool>>): (r: seq<seq<int>>)
    requires |vals| == |pop| == |masks|
    ensures |r| == |vals| && forall j :: 0 <= j < |r| ==> |r[j]| == |vals[j]|
  {
    seq(|vals|, j requires 0 <= j < |vals| =>
      seq(|vals[j]|, g requires 0 <= g < |vals[j]| =>
        if FlipCount(pop, masks, pop[j], g, |pop|) % 2 == 1 then 1 - vals[j][g] else vals[j][g]))
  }

  /** `[mutate(ind) for ind in next_population]`: every slot in turn is
      mutated in place with its own mask, so an individual filling several
      slots is mutated once per slot. */
  method MutateAll(pop: seq<array<int>>, masks: seq<seq<bool>>)
    requires |masks| == |pop|
    requires forall j :: 0 <= j < |pop| ==> |masks[j]| == pop[j].Length
    modifies pop
    ensures Snapshot(pop) == Mutated(old(Snapshot(pop)), pop, masks)
    ensures forall j :: 0 <= j < |pop| && old(Binary(pop[j][..])) ==> Binary(pop[j][..])
    ensures Distinct(pop) ==> forall j :: 0 <= j < |pop| ==> pop[j][..] == Flipped(old(pop[j][..]), masks[j])
  {
    FlipInTurn(pop, masks);
    ghost var before := old(Snapshot(pop));
    ParityIsMutated(pop, masks, before);
    MutatedKeepsBinary(before, pop, masks);
    if Distinct(pop) {
      MutatedDistinct(before, pop, masks);
    }
  }

  /** The loop of `MutateAll`: after the passes over slots 0 .. |pop|-1,
      a gene is flipped exactly when an odd number of those passes reached
      the same individual with that gene's mask bit set. */
  method FlipInTurn(pop: seq<array<int>>, masks: seq<seq<bool>>)
    requires |masks| == |pop|
    requires forall j :: 0 <= j < |pop| ==> |masks[j]| == pop[j].Length
    modifies pop
    ensures forall j, g :: 0 <= j < |pop| && 0 <= g < pop[j].Length ==>
      pop[j][g] == if FlipCount(pop, masks, pop[j], g, |pop|) % 2 == 1 then 1 - old(pop[j][g]) else old(pop[j][g])
  {
    for i := 0 to |pop|
      invariant forall j, g :: 0 <= j < |pop| && 0 <= g < pop[j].Length ==>
        pop[j][g] == if FlipCount(pop, masks, pop[j], g, i) % 2 == 1 then 1 - old(pop[j][g]) else old(pop[j][g])
    {
      Mutate(pop[i], masks[i]);
    }
  }

  /** Genes flipped by the parity of the passes over each individual are
      the genes `Mutated` describes. */
  lemma ParityIsMutated(pop: seq<array<int>>, masks: seq<seq<bool>>, before: seq<seq<int>>)
    requires |pop| == |masks| == |before|
    requires forall j :: 0 <= j < |pop| ==> |masks[j]| == pop[j].Length == |before[j]|
    requires forall j, g :: 0 <= j < |pop| && 0 <= g < pop[j].Length ==>
      pop[j][g] == if FlipCount(pop, masks, pop[j], g, |pop|) % 2 == 1 then 1 - before[j][g] else before[j][g]
    ensures Snapshot(pop) == Mutated(before, pop, masks)
  {
    var after := Mutated(before, pop, masks);
    forall j | 0 <= j < |pop| ensures pop[j][..] == after[j] {
      forall g | 0 <= g < pop[j].Length ensures pop[j][g] == after[j][g] {
      }
    }
  }

  /** Flipping binary genes any number of times keeps them binary. */
  lemma MutatedKeepsBinary(vals: seq<seq<int>>, pop: seq<array<int>>, masks: seq<seq<bool>>)
    requires |vals| == |pop| == |masks|
    ensures forall j :: 0 <= j < |vals| && Binary(vals[j]) ==> Binary(Mutated(vals, pop, masks)[j])
  {
    var r := Mutated(vals, pop, masks);
    forall j | 0 <= j < |vals| && Binary(vals[j]) ensures Binary(r[j]) {
      assert forall g :: 0 <= g < |vals[j]| ==> r[j][g] == vals[j][g] || r[j][g] == 1 - vals[j][g];
    }
  }

  /** When no individual fills two slots, each slot is mutated by its own
      mask alone. */
  lemma MutatedDistinct(vals: seq<seq<int>>, pop: seq<array<int>>, masks: seq<seq<bool>>)
    requires |vals| == |pop| == |masks| && Distinct(pop)
    requires forall j :: 0 <= j < |vals| ==> |masks[j]| == |vals[j]|
    ensures forall j :: 0 <= j < |vals| ==> Mutated(vals, pop, masks)[j] == Flipped(vals[j], masks[j])
  {
    var r := Mutated(vals, pop, masks);
    forall j, g | 0 <= j < |vals| && 0 <= g < |vals[j]| ensures r[j][g] == Flipped(vals[j], masks[j])[g] {
      FlipCountDistinct(pop, masks, j, g, |pop|);
    }
  }

  /** Masks that select no gene leave every slot as it was, however the
      individuals are shared. */
  lemma MutatedUnmasked(vals: seq<seq<int>>, pop: seq<array<int>>, masks: seq<seq<bool>>)
    requires |vals| == |pop| == |masks|
    requires forall j, g :: 0 <= j < |masks| && 0 <= g < |masks[j]| ==> !masks[j][g]
    ensures Mutated(vals, pop, masks) == vals
  {
    var r := Mutated(vals, pop, masks);
    forall j | 0 <= j < |vals| ensures r[j] == vals[j] {
      forall g | 0 <= g < |vals[j]| ensures r[j][g] == vals[j][g] {
        FlipCountUnmasked(pop, masks, pop[j], g, |pop|);
      }
    }
  }

  lemma {:induction false} FlipCountUnmasked(pop: seq<array<int>>, masks: seq<seq<bool>>, a: array<int>, g: int, k: nat)
    requires k <= |pop| == |masks|
    requires forall j, h :: 0 <= j < |masks| && 0 <= h < |masks[j]| ==> !masks[j][h]
    ensures FlipCount(pop, masks, a, g, k) == 0
  {
    if k > 0 {
      FlipCountUnmasked(pop, masks, a, g, k - 1);
    }
  }

  /** An individual filling exactly two slots, j1 before j2, is mutated by
      both masks in turn: where both flip a gene it is restored. Both slots
      show the result. */
  lemma MutatedShared(vals: seq<seq<int>>, pop: seq<array<int>>, masks: seq<seq<bool>>, j1: nat, j2: nat)
    requires |vals| == |pop| == |masks| && j1 < j2 < |pop|
    requires pop[j1] == pop[j2] && forall j :: 0 <= j < |pop| && j != j1 && j != j2 ==> pop[j] != pop[j1]
    requires vals[j1] == vals[j2] && |masks[j1]| == |vals[j1]| && |masks[j2]| == |vals[j1]|
    ensures Mutated(vals, pop, masks)[j1] == Flipped(Flipped(vals[j1], masks[j1]), masks[j2])
    ensures Mutated(vals, pop, masks)[j2] == Mutated(vals, pop, masks)[j1]
  {
    var r := Mutated(vals, pop, masks);
    forall g | 0 <= g < |vals[j1]| ensures r[j1][g] == Flipped(Flipped(vals[j1], masks[j1]), masks[j2])[g] {
      FlipCountTwoSlots(pop, masks, j1, j2, g, |pop|);
    }
  }

  /** When no individual sits in two slots, each gets exactly its own mask:
      the count of passes flipping gene `g` of slot `j` is `mask[j][g]`. */
  lemma {:induction false} FlipCountDistinct(pop: seq<array<int>>, masks: seq<seq<bool>>, j: nat, g: int, k: nat)
    requires k <= |pop| == |masks| && j < |pop| && Distinct(pop)
    requires 0 <= g < |masks[j]|
    ensures FlipCount(pop, masks, pop[j], g, k) == if j < k && masks[j][g] then 1 else 0
  {
    if k > 0 {
      FlipCountDistinct(pop, masks, j, g, k - 1);
    }
  }

  /** An individual in exactly the slots j1 and j2 is flipped at gene `g`
      once by each of those passes whose mask selects `g`. */
  lemma {:induction false} FlipCountTwoSlots(pop: seq<array<int>>, masks: seq<seq<bool>>, j1: nat, j2: nat, g: int, k: nat)
    requires k <= |pop| == |masks| && j1 < j2 < |pop|
    requires pop[j1] == pop[j2] && forall j :: 0 <= j < |pop| && j != j1 && j != j2 ==> pop[j] != pop[j1]
    requires 0 <= g < |masks[j1]| && g < |masks[j2]|
    ensures FlipCount(pop, masks, pop[j1], g, k) ==
      (if j1 < k && masks[j1][g] then 1 else 0) + (if j2 < k && masks[j2][g] then 1 else 0)
  {
    if k > 0 {
      FlipCountTwoSlots(pop, masks, j1, j2, g, k - 1);
    }
  }
}
