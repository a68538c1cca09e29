/** The value `knapsackDynamic` is meant to compute, according to its comment
    at line 116 and to the purpose of the program: the best value of a
    selection that fits in the knapsack and takes no two conflicting items.
    Defined here by exhaustive search over the items in index order, with its
    optimality proved, and compared with the table and the greedy passes. */
module Exact {
  import opened Problem
  import Dynamic
  import Greedy

  /** Item `i` may join the items taken in the decided prefix `sel`: it does
      not list itself, it lists no taken item and no taken item lists it. */
  predicate Compatible(inst: Instance, sel: seq<bool>, i: int)
    requires inst.Valid() && |sel| <= inst.Size() && 0 <= i < inst.Size()
  {
    && i !in inst.conflicts[i]
    && forall j :: 0 <= j < |sel| && sel[j] ==> j !in inst.conflicts[i] && i !in inst.conflicts[j]
  }

  /** No taken item of the decided prefix `sel` lists a taken item of it. */
  predicate PrefixConflictFree(inst: Instance, sel: seq<bool>)
    requires inst.Valid() && |sel| <= inst.Size()
  {
    forall i, j :: 0 <= i < |sel| && 0 <= j < |sel| && sel[i] && sel[j] ==> j !in inst.conflicts[i]
  }

  /** The best value that items `|sel|..n-1` can add to the decided prefix
      `sel` within the capacity `w` left, taking no item that conflicts with
      a taken one. */
  function Best(inst: Instance, sel: seq<bool>, w: int): int
    requires inst.Valid() && |sel| <= inst.Size()
    decreases inst.Size() - |sel|
  {
    if |sel| == inst.Size() then 0
    else
      var i := |sel|;
      var skip := Best(inst, sel + [false], w);
      if inst.weights[i] <= w && Compatible(inst, sel, i) then
        Dynamic.Max(skip, inst.values[i] + Best(inst, sel + [true], w - inst.weights[i]))
      else skip
  }

  /** The best value of a feasible selection for capacity `W`. */
  function ExactBest(inst: Instance, W: nat): int
    requires inst.Valid()
  {
    Best(inst, [], W)
  }

  /** Extending a conflict-free prefix by a compatible taken item, or by a
      skipped one, keeps it conflict-free. */
  lemma ExtendConflictFree(inst: Instance, sel: seq<bool>, b: bool)
    requires inst.Valid() && |sel| < inst.Size() && PrefixConflictFree(inst, sel)
    requires b ==> Compatible(inst, sel, |sel|)
    ensures PrefixConflictFree(inst, sel + [b])
  {
    var s := sel + [b];
    forall i, j | 0 <= i < |s| && 0 <= j < |s| && s[i] && s[j]
      ensures j !in inst.conflicts[i]
    {
      if i < |sel| && j < |sel| {
        assert s[i] == sel[i] && s[j] == sel[j];
      }
    }
  }

  /** A full selection that is conflict-free as a prefix is conflict-free. */
  lemma FullPrefixConflictFree(inst: Instance, s: seq<bool>)
    requires inst.Valid() && |s| == inst.Size() && PrefixConflictFree(inst, s)
    ensures inst.ConflictFree(s)
  {
    forall i, k | 0 <= i < |s| && s[i] && 0 <= k < |inst.conflicts[i]|
      ensures !s[inst.conflicts[i][k]]
    {
      var j := inst.conflicts[i][k];
      assert j in inst.conflicts[i];
    }
  }

  /** A feasible selection `s` gains at most `Best` over any of its prefixes. */
  lemma {:induction false} BestIsUpperBound(inst: Instance, W: nat, s: seq<bool>, m: nat)
    requires inst.Valid() && inst.Feasible(W, s) && m <= |s|
    ensures Sum(inst.values, s) <= Sum(inst.values, s[..m]) + Best(inst, s[..m], W - Sum(inst.weights, s[..m]))
    decreases |s| - m
  {
    if m == |s| {
      assert s[..m] == s;
    } else {
      var sel, b := s[..m], s[m];
      var w := W - Sum(inst.weights, sel);
      assert s[..m + 1] == sel + [b];
      SumAppend(inst.weights, sel, b);
      SumAppend(inst.values, sel, b);
      BestIsUpperBound(inst, W, s, m + 1);
      BestStep(inst, sel, w);
      if b {
        SumPrefix(inst.weights, s, m + 1);
        FeasibleCompatible(inst, W, s, m);
      }
    }
  }

  /** `Best` for the prefix `sel` is at least the value of skipping item
      `|sel|`, and at least the value of taking it when it fits and is
      compatible. */
  lemma BestStep(inst: Instance, sel: seq<bool>, w: int)
    requires inst.Valid() && |sel| < inst.Size()
    ensures Best(inst, sel, w) >= Best(inst, sel + [false], w)
    ensures inst.weights[|sel|] <= w && Compatible(inst, sel, |sel|) ==>
      Best(inst, sel, w) >= inst.values[|sel|] + Best(inst, sel + [true], w - inst.weights[|sel|])
  {
  }

  /** A taken item of a feasible selection is compatible with the items
      taken before it. */
  lemma FeasibleCompatible(inst: Instance, W: nat, s: seq<bool>, m: nat)
    requires inst.Valid() && inst.Feasible(W, s) && m < |s| && s[m]
    ensures Compatible(inst, s[..m], m)
  {
    var sel := s[..m];
    assert !inst.AnySelected(inst.conflicts[m], s);
    forall j | 0 <= j < |sel| && sel[j]
      ensures j !in inst.conflicts[m] && m !in inst.conflicts[j]
    {
      assert s[j];
      assert !inst.AnySelected(inst.conflicts[j], s);
    }
  }

  /** A full selection extending `sel` that gains exactly `Best` and that
      stays feasible: the best value is attained. */
  function BestChoice(inst: Instance, sel: seq<bool>, w: int): (s: seq<bool>)
    requires inst.Valid() && |sel| <= inst.Size() && w >= 0 && PrefixConflictFree(inst, sel)
    ensures |s| == inst.Size() && s[..|sel|] == sel && PrefixConflictFree(inst, s)
    ensures Sum(inst.weights, s) <= Sum(inst.weights, sel) + w
    ensures Sum(inst.values, s) == Sum(inst.values, sel) + Best(inst, sel, w)
    decreases inst.Size() - |sel|
  {
    if |sel| == inst.Size() then
      assert sel[..|sel|] == sel;
      sel
    else
      var i := |sel|;
      var take := inst.weights[i] <= w && Compatible(inst, sel, i)
        && inst.values[i] + Best(inst, sel + [true], w - inst.weights[i]) >= Best(inst, sel + [false], w);
      ExtendConflictFree(inst, sel, take);
      SumAppend(inst.weights, sel, take);
      SumAppend(inst.values, sel, take);
      var s := BestChoice(inst, sel + [take], if take then w - inst.weights[i] else w);
      assert s[..i] == s[..i + 1][..i];
      s
  }

  /** `ExactBest` is the optimum: no feasible selection is worth more, and some
      feasible selection is worth exactly that much. */
  lemma ExactIsOptimal(inst: Instance, W: nat, s: seq<bool>)
    requires inst.Valid() && inst.Feasible(W, s)
    ensures Sum(inst.values, s) <= ExactBest(inst, W)
    ensures inst.Feasible(W, BestChoice(inst, [], W))
    ensures Sum(inst.values, BestChoice(inst, [], W)) == ExactBest(inst, W)
  {
    assert s[..0] == [];
    assert Sum(inst.values, []) == 0 && Sum(inst.weights, []) == 0;
    BestIsUpperBound(inst, W, s, 0);
    var c := BestChoice(inst, [], W);
    FullPrefixConflictFree(inst, c);
  }

  /** Neither greedy pass beats the optimum, when the conflict lists are
      symmetric as the generator builds them. */
  lemma GreedyAtMostExact(inst: Instance, W: nat, order: seq<int>)
    requires inst.Valid() && inst.IsConflictGraph() && IsIndexPermutation(order, inst.Size())
    ensures InRange(order, inst.Size())
    ensures Greedy.Pass(inst, W, order).total <= ExactBest(inst, W)
  {
    Greedy.PassGuarantees(inst, W, order);
    ExactIsOptimal(inst, W, Greedy.Pass(inst, W, order).selected);
  }

  // ---------------------------------------------------------------------------
  // Two instances where the table differs from the optimum
  // ---------------------------------------------------------------------------

  /** Two items of weight 1 and value 10 that conflict with each other. */
  function MutualPair(): Instance {
    Instance([1, 1], [10, 10], [[1], [0]])
  }

  /** Row 1 of the table for `MutualPair`: item 0 probes row 1, not filled
      yet, so it is taken whenever it fits. */
  lemma MutualPairRow1(w: nat)
    requires 1 <= w
    ensures Dynamic.Cell(MutualPair(), 1, w) == 10
  {
    var inst := MutualPair();
    assert inst.conflicts[0] == [1];
    assert !Dynamic.ProbeFinds(inst, 1, w);
    assert Dynamic.Cell(inst, 0, w - 1) == 0;
  }

  /** On `MutualPair` with capacity 10, the table returns 20, the value of
      taking both conflicting items: item 1 probes row 0, which is zero. */
  lemma TableTakesConflictingPair()
    ensures MutualPair().Valid() && MutualPair().IsConflictGraph()
    ensures Dynamic.Cell(MutualPair(), 2, 10) == 20
  {
    MutualPairIsGraph();
    var inst := MutualPair();
    assert inst.conflicts[1] == [0];
    MutualPairRow1(9);
    MutualPairRow1(10);
    assert !Dynamic.ProbeFinds(inst, 2, 10);
  }

  /** `MutualPair` is a well-formed instance whose conflicts form a graph. */
  lemma MutualPairIsGraph()
    ensures MutualPair().Valid() && MutualPair().IsConflictGraph()
  {
    var inst := MutualPair();
    assert inst.conflicts[1] == [0] && inst.conflicts[0] == [1];
    assert 0 in inst.conflicts[1] && 1 in inst.conflicts[0];
  }

  /** On `MutualPair` with capacity 10 no feasible selection is worth more
      than 10. */
  lemma MutualPairBest()
    ensures ExactBest(MutualPair(), 10) == 10
  {
    var inst := MutualPair();
    assert [] + [true] == [true] && [] + [false] == [false];
    assert [true] + [false] == [true, false] && [false] + [true] == [false, true];
    assert [false] + [false] == [false, false];
    assert !Compatible(inst, [true], 1) by {
      assert 0 in inst.conflicts[1];
    }
    assert Best(inst, [true, false], 9) == 0;
    assert Best(inst, [true], 9) == 0;
    assert Compatible(inst, [false], 1);
    assert Best(inst, [false, true], 9) == 0;
    assert Best(inst, [false, false], 10) == 0;
    assert Best(inst, [false], 10) == 10;
  }

  /** Three items of weight 1: items 1 and 2 conflict, item 2 is worth 100. */
  function ValuableThird(): Instance {
    Instance([1, 1, 1], [1, 1, 100], [[], [2], [1]])
  }

  /** Row 1 of the table for `ValuableThird`: item 0 has no conflicts. */
  lemma ValuableThirdRow1(w: nat)
    requires 1 <= w
    ensures Dynamic.Cell(ValuableThird(), 1, w) == 1
  {
    var inst := ValuableThird();
    assert inst.conflicts[0] == [];
    assert !Dynamic.ProbeFinds(inst, 1, w);
    assert Dynamic.Cell(inst, 0, w - 1) == 0;
  }

  /** Cell `(2, 2)` of the table for `ValuableThird`: item 1 probes row 2,
      not filled yet, and is taken beside item 0. */
  lemma ValuableThirdCell22()
    ensures Dynamic.Cell(ValuableThird(), 2, 2) == 2
  {
    var inst := ValuableThird();
    assert inst.conflicts[1] == [2];
    assert !Dynamic.ProbeFinds(inst, 2, 2);
    ValuableThirdRow1(1);
    ValuableThirdRow1(2);
  }

  /** `ValuableThird` is a well-formed instance whose conflicts form a graph. */
  lemma ValuableThirdIsGraph()
    ensures ValuableThird().Valid() && ValuableThird().IsConflictGraph()
  {
    var inst := ValuableThird();
    assert inst.conflicts[2] == [1] && inst.conflicts[1] == [2] && inst.conflicts[0] == [];
    assert 1 in inst.conflicts[2] && 2 in inst.conflicts[1];
  }

  /** On `ValuableThird` with capacity 2, the table returns 2: item 2 probes
      row 1, which is positive because item 0 fits, although item 1 is not
      taken. */
  lemma TableBlocksFeasibleItem()
    ensures ValuableThird().Valid() && ValuableThird().IsConflictGraph()
    ensures Dynamic.Cell(ValuableThird(), 3, 2) == 2
  {
    ValuableThirdIsGraph();
    var inst := ValuableThird();
    assert inst.conflicts[2] == [1];
    ValuableThirdRow1(2);
    assert Dynamic.ProbeFinds(inst, 3, 2) by {
      assert inst.conflicts[2][0] == 1 && Dynamic.Cell(inst, 1, 2) > 0;
    }
    ValuableThirdCell22();
  }

  /** Items 0 and 2 of `ValuableThird` fit in capacity 2, do not conflict and
      are worth 101. */
  lemma ValuableThirdFeasible()
    ensures ValuableThird().Valid()
    ensures ValuableThird().Feasible(2, [true, false, true])
    ensures Sum(ValuableThird().values, [true, false, true]) == 101
  {
    var inst := ValuableThird();
    var sel := [true, false, true];
    assert [] + [true] == [true] && [true] + [false] == [true, false];
    assert [true, false] + [true] == sel;
    SumAppend(inst.weights, [], true);
    SumAppend(inst.weights, [true], false);
    SumAppend(inst.weights, [true, false], true);
    SumAppend(inst.values, [], true);
    SumAppend(inst.values, [true], false);
    SumAppend(inst.values, [true, false], true);
    assert inst.conflicts[0] == [] && inst.conflicts[2] == [1];
    assert !inst.AnySelected(inst.conflicts[0], sel);
    assert !inst.AnySelected(inst.conflicts[2], sel);
  }
}
