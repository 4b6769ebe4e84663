/** Single-point crossover. The two random draws of the program (the 60%
    coin, then the point drawn only when the coin fires) are one
    `CrossDraw`. */
module Crossover {
  import opened Individual

  /** `Keep`: the coin said no crossover; `Cut(p)`: cross at point `p`. */
  datatype CrossDraw = Keep | Cut(point: int)

  /** The point drawn by `random.randint(1, GENE_LENGTH - 1)`. */
  predicate ValidDraw(d: CrossDraw, geneLength: int) {
    d.Cut? ==> 1 <= d.point <= geneLength - 1
  }

  /** The two children, as values: the parents themselves for `Keep`, the
      two cross-concatenations at the point for `Cut`. */
  function Children(p1: seq<int>, p2: seq<int>, d: CrossDraw): (r: (seq<int>, seq<int>))
    requires d.Cut? ==> 0 <= d.point <= |p1| && d.point <= |p2|
    ensures |r.0| + |r.1| == |p1| + |p2|
    ensures |p1| == |p2| ==> |r.0| == |p1| && |r.1| == |p1|
  {
    match d
    case Keep => (p1, p2)
    case Cut(p) => (p1[..p] + p2[p..], p2[..p] + p1[p..])
  }

  /** Gene by gene, a crossover keeps the parents' length, and below the
      point each child takes its own parent's gene, from the point on the
      other parent's. */
  lemma CrossoverAt(p1: seq<int>, p2: seq<int>, p: int)
    requires 0 <= p <= |p1| == |p2|
    ensures |Children(p1, p2, Cut(p)).0| == |p1| && |Children(p1, p2, Cut(p)).1| == |p1|
    ensures forall i :: 0 <= i < |p1| ==>
      Children(p1, p2, Cut(p)).0[i] == (if i < p then p1[i] else p2[i]) &&
      Children(p1, p2, Cut(p)).1[i] == (if i < p then p2[i] else p1[i])
  {
  }

  /** Crossover moves genes between the children but never out of their
      position: at every index the children hold the parents' two genes. */
  lemma CrossoverConservesGenes(p1: seq<int>, p2: seq<int>, d: CrossDraw)
    requires |p1| == |p2| && (d.Cut? ==> 0 <= d.point <= |p1|)
    ensures |Children(p1, p2, d).0| == |p1| && |Children(p1, p2, d).1| == |p1|
    ensures forall i :: 0 <= i < |p1| ==>
      (Children(p1, p2, d).0[i] == p1[i] && Children(p1, p2, d).1[i] == p2[i]) ||
      (Children(p1, p2, d).0[i] == p2[i] && Children(p1, p2, d).1[i] == p1[i])
  {
    if d.Cut? {
      CrossoverAt(p1, p2, d.point);
    }
  }

  /** Children of binary parents are binary. */
  lemma CrossoverKeepsBinary(p1: seq<int>, p2: seq<int>, d: CrossDraw)
    requires |p1| == |p2| && (d.Cut? ==> 0 <= d.point <= |p1|)
    requires Binary(p1) && Binary(p2)
    ensures Binary(Children(p1, p2, d).0) && Binary(Children(p1, p2, d).1)
  {
    CrossoverConservesGenes(p1, p2, d);
  }

  /** The pair's total fitness is conserved: the children carry exactly the
      ones their parents carried. */
  lemma CrossoverConservesFitness(p1: seq<int>, p2: seq<int>, d: CrossDraw)
    requires |p1| == |p2| && (d.Cut? ==> 0 <= d.point <= |p1|)
    ensures Fitness(Children(p1, p2, d).0) + Fitness(Children(p1, p2, d).1) == Fitness(p1) + Fitness(p2)
  {
    if d.Cut? {
      var p := d.point;
      assert p1 == p1[..p] + p1[p..];
      assert p2 == p2[..p] + p2[p..];
      FitnessAppend(p1[..p], p1[p..]);
      FitnessAppend(p2[..p], p2[p..]);
      FitnessAppend(p1[..p], p2[p..]);
      FitnessAppend(p2[..p], p1[p..]);
    }
  }

  /** Crossing the children again with the same draw gives back the
      parents. */
  lemma CrossoverUndoes(p1: seq<int>, p2: seq<int>, d: CrossDraw)
    requires |p1| == |p2| && (d.Cut? ==> 0 <= d.point <= |p1|)
    ensures var (c1, c2) := Children(p1, p2, d); Children(c1, c2, d) == (p1, p2)
  {
    if d.Cut? {
      var p := d.point;
      var (c1, c2) := Children(p1, p2, d);
      CrossoverAt(p1, p2, p);
      CrossoverAt(c1, c2, p);
      assert Children(c1, c2, d).0 == p1;
      assert Children(c1, c2, d).1 == p2;
    }
  }

  /** `crossover(parent1, parent2)` on the individuals themselves: without
      crossover the parents' own arrays are returned (so the caller holds
      the same individuals twice); with crossover two new individuals. */
  method CrossoverPair(p1: array<int>, p2: array<int>, d: CrossDraw) returns (c1: array<int>, c2: array<int>)
    requires d.Cut? ==> 0 <= d.point <= p1.Length && d.point <= p2.Length
    ensures (c1[..], c2[..]) == Children(p1[..], p2[..], d)
    ensures d.Keep? ==> c1 == p1 && c2 == p2
    ensures d.Cut? ==> fresh(c1) && fresh(c2) && c1 != c2
  {
    match d
    case Keep =>
      c1, c2 := p1, p2;
    case Cut(point) =>
      var s1 := p1[..point] + p2[point..];
      var s2 := p2[..point] + p1[point..];
      c1 := new int[|s1|](i requires 0 <= i < |s1| => s1[i]);
      c2 := new int[|s2|](i requires 0 <= i < |s2| => s2[i]);
      assert c1[..] == s1 && c2[..] == s2;
  }

  /** The selection, as genes, splits into pairs, one draw each, and every
      draw cuts within both parents of its pair. `PairsFit` is the same
      condition on the individuals (`PairsFitIsCutsFit`). */
  predicate CutsFit(sel: seq<seq<int>>, draws: seq<CrossDraw>) {
    && |sel| == 2 * |draws|
    && forall k :: 0 <= k < |draws| && draws[k].Cut? ==>
         0 <= draws[k].point <= |sel[2 * k]| && draws[k].point <= |sel[2 * k + 1]|
  }

  /** The pair loop on genes: the children of each pair in turn. */
  function Crossed(sel: seq<seq<int>>, draws: seq<CrossDraw>): (next: seq<seq<int>>)
    requires CutsFit(sel, draws)
    ensures |next| == |sel|
    decreases |draws|
  {
    if draws == [] then []
    else
      var pair := Children(sel[0], sel[1], draws[0]);
      [pair.0, pair.1] + Crossed(sel[2..], draws[1..])
  }

  /** In `Crossed`, the children of pair k sit at 2k and 2k+1. */
  lemma {:induction false} CrossedPairs(sel: seq<seq<int>>, draws: seq<CrossDraw>)
    requires CutsFit(sel, draws)
    ensures forall k :: 0 <= k < |draws| ==>
      (Crossed(sel, draws)[2 * k], Crossed(sel, draws)[2 * k + 1]) == Children(sel[2 * k], sel[2 * k + 1], draws[k])
  {
    forall k | 0 <= k < |draws|
      ensures (Crossed(sel, draws)[2 * k], Crossed(sel, draws)[2 * k + 1]) == Children(sel[2 * k], sel[2 * k + 1], draws[k])
    {
      CrossedPair(sel, draws, k);
    }
  }

  lemma {:induction false} CrossedPair(sel: seq<seq<int>>, draws: seq<CrossDraw>, k: nat)
    requires CutsFit(sel, draws) && k < |draws|
    ensures (Crossed(sel, draws)[2 * k], Crossed(sel, draws)[2 * k + 1]) == Children(sel[2 * k], sel[2 * k + 1], draws[k])
    decreases k
  {
    if k > 0 {
      CrossedPair(sel[2..], draws[1..], k - 1);
      assert sel[2..][2 * (k - 1)] == sel[2 * k] && sel[2..][2 * (k - 1) + 1] == sel[2 * k + 1];
    }
  }

  /** Without any cut the pair loop hands back the selection itself. */
  lemma {:induction false} CrossedKeep(sel: seq<seq<int>>, draws: seq<CrossDraw>)
    requires CutsFit(sel, draws) && forall k :: 0 <= k < |draws| ==> draws[k] == Keep
    ensures Crossed(sel, draws) == sel
    decreases |draws|
  {
    if draws != [] {
      CrossedKeep(sel[2..], draws[1..]);
      assert sel == [sel[0], sel[1]] + sel[2..];
    }
  }

  /** The pair loop keeps the total fitness of the selection: each pair's
      children carry exactly the ones of their parents. */
  lemma {:induction false} CrossedConservesFitness(sel: seq<seq<int>>, draws: seq<CrossDraw>)
    requires CutsFit(sel, draws) && forall j :: 0 <= j < |sel| ==> |sel[j]| == |sel[0]|
    ensures FitnessSum(Crossed(sel, draws)) == FitnessSum(sel)
    decreases |draws|
  {
    if draws != [] {
      var pair := Children(sel[0], sel[1], draws[0]);
      var rest := Crossed(sel[2..], draws[1..]);
      CrossedConservesFitness(sel[2..], draws[1..]);
      CrossoverConservesFitness(sel[0], sel[1], draws[0]);
      assert ([pair.0, pair.1] + rest)[1..] == [pair.1] + rest;
      assert ([pair.1] + rest)[1..] == rest;
      assert sel[1..][1..] == sel[2..];
    }
  }

  /** Which individuals the pair loop leaves in which slot: a pair without a
      cut leaves the selected individuals themselves, and each child of a
      cut is an individual found in no other slot. */
  predicate Parented(sel: seq<array<int>>, draws: seq<CrossDraw>, next: seq<array<int>>) {
    && |sel| == |next| == 2 * |draws|
    && (forall k :: 0 <= k < |draws| && draws[k].Keep? ==>
          next[2 * k] == sel[2 * k] && next[2 * k + 1] == sel[2 * k + 1])
    && (forall k, j :: 0 <= k < |draws| && draws[k].Cut? && 0 <= j < |next| ==>
          (j != 2 * k ==> next[2 * k] != next[j]) && (j != 2 * k + 1 ==> next[2 * k + 1] != next[j]))
  }

  /** The selection splits into pairs, one draw each, and every draw cuts
      within both parents of its pair: `CutsFit` stated on the individuals
      rather than on their genes. */
  predicate PairsFit(sel: seq<array<int>>, draws: seq<CrossDraw>) {
    && |sel| % 2 == 0 && |draws| == |sel| / 2
    && forall k :: 0 <= k < |draws| && draws[k].Cut? ==>
         0 <= draws[k].point <= sel[2 * k].Length && draws[k].point <= sel[2 * k + 1].Length
  }

  /** Draws fit the pairs of individuals exactly when they fit the pairs of
      their genes. */
  lemma PairsFitIsCutsFit(sel: seq<array<int>>, draws: seq<CrossDraw>)
    ensures PairsFit(sel, draws) <==> CutsFit(Snapshot(sel), draws)
  {
    var genes := Snapshot(sel);
    if CutsFit(genes, draws) {
      forall k | 0 <= k < |draws| && draws[k].Cut?
        ensures draws[k].point <= sel[2 * k].Length && draws[k].point <= sel[2 * k + 1].Length
      {
        assert |genes[2 * k]| == sel[2 * k].Length && |genes[2 * k + 1]| == sel[2 * k + 1].Length;
      }
    }
  }

  /** The loop `for i in range(0, POP_SIZE, 2)`: the pairs (0,1), (2,3), ...
      are crossed in order, and their children appended in pair order. */
  method CrossoverPairs(sel: seq<array<int>>, draws: seq<CrossDraw>) returns (next: seq<array<int>>)
    requires PairsFit(sel, draws)
    ensures |next| == |sel|
    ensures forall k :: 0 <= k < |draws| ==>
      (next[2 * k][..], next[2 * k + 1][..]) == Children(sel[2 * k][..], sel[2 * k + 1][..], draws[k])
    ensures forall k :: 0 <= k < |draws| && draws[k].Keep? ==>
      next[2 * k] == sel[2 * k] && next[2 * k + 1] == sel[2 * k + 1]
    ensures forall k :: 0 <= k < |draws| && draws[k].Cut? ==>
      fresh(next[2 * k]) && fresh(next[2 * k + 1])
    ensures forall j :: 0 <= j < |next| ==> next[j] == sel[j] || fresh(next[j])
    ensures forall k :: 0 <= k < |draws| && draws[k].Cut? ==> next[2 * k] !in sel && next[2 * k + 1] !in sel
    ensures SharedOnlySelected(sel, next)
  {
    next := [];
    for k := 0 to |draws|
      invariant |next| == 2 * k
      invariant forall m :: 0 <= m < k ==>
        (next[2 * m][..], next[2 * m + 1][..]) == Children(sel[2 * m][..], sel[2 * m + 1][..], draws[m])
      invariant forall m :: 0 <= m < k && draws[m].Keep? ==>
        next[2 * m] == sel[2 * m] && next[2 * m + 1] == sel[2 * m + 1]
      invariant forall m :: 0 <= m < k && draws[m].Cut? ==>
        fresh(next[2 * m]) && fresh(next[2 * m + 1])
      invariant forall j :: 0 <= j < 2 * k ==> next[j] == sel[j] || fresh(next[j])
      invariant forall m :: 0 <= m < k && draws[m].Cut? ==> next[2 * m] !in sel && next[2 * m + 1] !in sel
      invariant SharedOnlySelected(sel, next)
    {
      var i := 2 * k;
      var c1, c2 := CrossoverPair(sel[i], sel[i + 1], draws[k]);
      ghost var done := next;
      AppendPair(sel, done, c1, c2);
      next := next + [c1, c2];
      assert next[i] == c1 && next[i + 1] == c2 && forall j :: 0 <= j < i ==> next[j] == done[j];
    }
  }

  /** When only selected individuals fill two slots and the children of
      cuts are not selected ones, each child of a cut fills a slot of its own. */
  lemma OnlySelectedRepeat(sel: seq<array<int>>, draws: seq<CrossDraw>, next: seq<array<int>>)
    requires |sel| == |next| == 2 * |draws|
    requires forall k :: 0 <= k < |draws| && draws[k].Keep? ==>
      next[2 * k] == sel[2 * k] && next[2 * k + 1] == sel[2 * k + 1]
    requires forall k :: 0 <= k < |draws| && draws[k].Cut? ==> next[2 * k] !in sel && next[2 * k + 1] !in sel
    requires SharedOnlySelected(sel, next)
    ensures Parented(sel, draws, next)
  {
  }

  /** An individual fills two slots of `next` only if it is a selected one. */
  predicate SharedOnlySelected(sel: seq<array<int>>, next: seq<array<int>>) {
    forall j1, j2 :: 0 <= j1 < |next| && 0 <= j2 < |next| && j1 != j2 && next[j1] == next[j2] ==> next[j1] in sel
  }

  /** Appending a pair keeps `SharedOnlySelected` when each child is a
      selected individual or one found neither earlier nor in the other slot. */
  lemma AppendPair(sel: seq<array<int>>, done: seq<array<int>>, c1: array<int>, c2: array<int>)
    requires SharedOnlySelected(sel, done)
    requires c1 in sel || (c1 !in done && c1 != c2)
    requires c2 in sel || (c2 !in done && c1 != c2)
    ensures SharedOnlySelected(sel, done + [c1, c2])
  {
  }

  /** Genes placed pair by pair as `Children` prescribes form `Crossed`. */
  lemma {:induction false} CrossedFromPairs(sel: seq<seq<int>>, draws: seq<CrossDraw>, next: seq<seq<int>>)
    requires CutsFit(sel, draws) && |next| == |sel|
    requires forall k :: 0 <= k < |draws| ==>
      (next[2 * k], next[2 * k + 1]) == Children(sel[2 * k], sel[2 * k + 1], draws[k])
    ensures next == Crossed(sel, draws)
    decreases |draws|
  {
    if draws != [] {
      forall k | 0 <= k < |draws| - 1
        ensures (next[2..][2 * k], next[2..][2 * k + 1]) == Children(sel[2..][2 * k], sel[2..][2 * k + 1], draws[1..][k])
      {
        assert next[2..][2 * k] == next[2 * (k + 1)] && next[2..][2 * k + 1] == next[2 * (k + 1) + 1];
        assert sel[2..][2 * k] == sel[2 * (k + 1)] && sel[2..][2 * k + 1] == sel[2 * (k + 1) + 1];
      }
      CrossedFromPairs(sel[2..], draws[1..], next[2..]);
      assert next == [next[0], next[1]] + next[2..];
    }
  }
}
