/** The two greedy solvers: `knapsackGreedy`, which visits the items by
    decreasing value per weight, and `knapsackGreedyRandom`, which visits them
    in a shuffled order. Both make one pass over the visiting order and take an
    item when it fits in the remaining capacity and none of the items it lists
    as conflicts is already taken. */
module Greedy {
  import opened Problem

  // ---------------------------------------------------------------------------
  // The comparator and the sort by value per weight
  // ---------------------------------------------------------------------------

  /** `sortByValuePerWeight`: item `a` has a strictly greater value per unit of
      weight than item `b`, compared on cross products (see `RatioGreaterIsDivision`). */
  function RatioGreater(inst: Instance, a: int, b: int): (r: bool)
    requires inst.Valid() && 0 <= a < inst.Size() && 0 <= b < inst.Size()
    ensures r ==> a != b
  {
    inst.values[a] * inst.weights[b] > inst.values[b] * inst.weights[a]
  }

  /** Weights are positive, so comparing cross products is comparing the two
      quotients value/weight that the source computes in floating point. */
  lemma RatioGreaterIsDivision(inst: Instance, a: int, b: int)
    requires inst.Valid() && 0 <= a < inst.Size() && 0 <= b < inst.Size()
    ensures RatioGreater(inst, a, b) <==>
      inst.values[a] as real / inst.weights[a] as real > inst.values[b] as real / inst.weights[b] as real
  {
    CrossMultiplication(inst.values[a], inst.weights[a], inst.values[b], inst.weights[b]);
  }

  /** For positive denominators, `x/y > u/v` exactly when `x*v > u*y`. */
  lemma CrossMultiplication(x: int, y: int, u: int, v: int)
    requires y > 0 && v > 0
    ensures x as real / y as real > u as real / v as real <==> x * v > u * y
  {
    var p := x as real / y as real;
    var q := u as real / v as real;
    var d := y as real * v as real;
    assert d > 0.0;
    assert p * d == x as real * v as real;
    assert q * d == u as real * y as real;
    assert (x * v) as real == x as real * v as real;
    assert (u * y) as real == u as real * y as real;
    if p > q {
      assert p * d > q * d;
    } else {
      assert p * d <= q * d;
    }
  }

  /** Multiplying by a positive number keeps an inequality. */
  lemma MulMonotone(x: int, y: int, z: int)
    requires x >= y && z > 0
    ensures x * z >= y * z
  {
    assert x * z - y * z == (x - y) * z;
  }

  /** Not having a greater ratio is transitive. */
  lemma RatioTransitive(inst: Instance, a: int, b: int, c: int)
    requires inst.Valid() && 0 <= a < inst.Size() && 0 <= b < inst.Size() && 0 <= c < inst.Size()
    requires !RatioGreater(inst, b, a) && !RatioGreater(inst, c, b)
    ensures !RatioGreater(inst, c, a)
  {
    var va, vb, vc := inst.values[a], inst.values[b], inst.values[c];
    var wa, wb, wc := inst.weights[a], inst.weights[b], inst.weights[c];
    MulMonotone(va * wb, vb * wa, wc);
    MulMonotone(vb * wc, vc * wb, wa);
    assert va * wb * wc >= vb * wa * wc;
    assert vb * wc * wa >= vc * wb * wa;
    assert vb * wa * wc == vb * wc * wa;
    if va * wc < vc * wa {
      MulMonotone(vc * wa, va * wc + 1, wb);
      assert false;
    }
  }

  /** `order` visits items by non-increasing value per weight: no item comes
      after one with a smaller ratio. This is what `std::sort` promises for
      the comparator `sortByValuePerWeight`. */
  predicate SortedByRatio(inst: Instance, order: seq<int>)
    requires inst.Valid() && InRange(order, inst.Size())
  {
    forall x, y :: 0 <= x < y < |order| ==> !RatioGreater(inst, order[y], order[x])
  }

  /** Adjacent positions in order make the whole sequence ordered. */
  lemma {:induction false} AdjacentSorted(inst: Instance, order: seq<int>)
    requires inst.Valid() && InRange(order, inst.Size())
    requires forall k :: 0 < k < |order| ==> !RatioGreater(inst, order[k], order[k - 1])
    ensures SortedByRatio(inst, order)
  {
    forall x, y | 0 <= x < y < |order|
      ensures !RatioGreater(inst, order[y], order[x])
    {
      SortedChain(inst, order, x, y);
    }
  }

  lemma {:induction false} SortedChain(inst: Instance, order: seq<int>, x: int, y: int)
    requires inst.Valid() && InRange(order, inst.Size())
    requires forall k :: 0 < k < |order| ==> !RatioGreater(inst, order[k], order[k - 1])
    requires 0 <= x < y < |order|
    ensures !RatioGreater(inst, order[y], order[x])
    decreases y - x
  {
    if x + 1 < y {
      SortedChain(inst, order, x, y - 1);
      RatioTransitive(inst, order[x], order[y - 1], order[y]);
    }
  }

  /** The `std::sort` call of `knapsackGreedy`, with `sortByValuePerWeight`
      as its comparator: sorts the index array in place by decreasing value
      per weight. */
  method SortByRatio(inst: Instance, a: array<int>)
    requires inst.Valid() && InRange(a[..], inst.Size())
    modifies a
    ensures multiset(a[..]) == multiset(old(a[..]))
    ensures InRange(a[..], inst.Size()) && SortedByRatio(inst, a[..])
  {
    var n := inst.Size();
    var comp := (x: int, y: int) => 0 <= x < n && 0 <= y < n && RatioGreater(inst, x, y);
    Sort(a, comp);
    RearrangedInRange(old(a[..]), a[..], n);
    assert forall k :: 0 < k < a.Length ==> !RatioGreater(inst, a[k], a[k - 1]) by {
      forall k | 0 < k < a.Length
        ensures !RatioGreater(inst, a[k], a[k - 1])
      {
        assert !comp(a[k], a[k - 1]);
      }
    }
    AdjacentSorted(inst, a[..]);
  }

  /** A rearrangement of indices below `n` holds only indices below `n`. */
  lemma RearrangedInRange(s: seq<int>, t: seq<int>, n: nat)
    requires InRange(s, n) && multiset(t) == multiset(s)
    ensures InRange(t, n)
  {
    forall k | 0 <= k < |t|
      ensures 0 <= t[k] < n
    {
      assert t[k] in multiset(s);
      var m :| 0 <= m < |s| && s[m] == t[k];
    }
  }

  /** No entry of `s[lo..hi]` must come before the entry preceding it. */
  predicate SortedBetween(comp: (int, int) -> bool, s: seq<int>, lo: int, hi: int)
    requires hi <= |s|
  {
    forall k :: lo < k < hi && 0 < k ==> !comp(s[k], s[k - 1])
  }

  /** The state of the inner loop that inserts entry `i`, now at position
      `j`: the entries before `j` are in order, so are those from `j` to `i`,
      and the entry after `j` may follow the one before it. */
  predicate Inserting(comp: (int, int) -> bool, s: seq<int>, j: int, i: int)
  {
    && 0 <= j <= i < |s|
    && SortedBetween(comp, s, 0, j) && SortedBetween(comp, s, j, i + 1)
    && (0 < j < i ==> !comp(s[j + 1], s[j - 1]))
  }

  /** One exchange of the insertion moves the entry one place down and keeps
      the state of the inner loop. */
  lemma InsertStep(comp: (int, int) -> bool, s: seq<int>, j: int, i: int)
    requires forall x, y :: comp(x, y) ==> !comp(y, x)
    requires Inserting(comp, s, j, i) && 0 < j && comp(s[j], s[j - 1])
    ensures Inserting(comp, Swap(s, j - 1, j), j - 1, i)
  {
    var t := Swap(s, j - 1, j);
    assert t[j - 1] == s[j] && t[j] == s[j - 1];
    assert forall k :: 0 <= k < |s| && k != j - 1 && k != j ==> t[k] == s[k];
    assert !comp(t[j], t[j - 1]);
  }

  /** When the entry has stopped moving, the prefix up to `i` is in order. */
  lemma InsertDone(comp: (int, int) -> bool, s: seq<int>, j: int, i: int)
    requires Inserting(comp, s, j, i) && (j == 0 || !comp(s[j], s[j - 1]))
    ensures SortedBetween(comp, s, 0, i + 1)
  {
  }

  /** An insertion sort under the comparator `comp`, which says that its first
      argument must come before its second: afterwards no entry must come
      before the entry preceding it. `comp` must be asymmetric, as the comparator of
      `std::sort` must be. */
  method Sort(a: array<int>, comp: (int, int) -> bool)
    requires forall x, y :: comp(x, y) ==> !comp(y, x)
    modifies a
    ensures multiset(a[..]) == multiset(old(a[..]))
    ensures forall k :: 0 < k < a.Length ==> !comp(a[k], a[k - 1])
  {
    for i := 0 to a.Length
      invariant multiset(a[..]) == multiset(old(a[..]))
      invariant SortedBetween(comp, a[..], 0, i)
    {
      var j := i;
      while j > 0 && comp(a[j], a[j - 1])
        invariant multiset(a[..]) == multiset(old(a[..]))
        invariant Inserting(comp, a[..], j, i)
      {
        InsertStep(comp, a[..], j, i);
        ghost var before := a[..];
        a[j - 1], a[j] := a[j], a[j - 1];
        assert a[..] == Swap(before, j - 1, j);
        j := j - 1;
      }
      InsertDone(comp, a[..], j, i);
    }
  }

  // ---------------------------------------------------------------------------
  // The shuffle
  // ---------------------------------------------------------------------------

  /** `s` with the entries at `i` and `j` exchanged. */
  function Swap(s: seq<int>, i: int, j: int): (r: seq<int>)
    requires 0 <= i < |s| && 0 <= j < |s|
    ensures |r| == |s| && multiset(r) == multiset(s)
  {
    s[i := s[j]][j := s[i]]
  }

  /** The first `m` steps of the shuffle of `knapsackGreedyRandom`: step `i`
      exchanges position `i` with position `draws[i] mod (i+1)`, where `draws`
      stands for the outputs of the default-constructed random engine. Every
      step is an exchange, so the result is a rearrangement of `s`. */
  function Shuffled(s: seq<int>, draws: seq<int>, m: nat): (r: seq<int>)
    requires m <= |s| && |draws| == |s|
    ensures |r| == |s| && multiset(r) == multiset(s)
  {
    if m == 0 then s
    else Swap(Shuffled(s, draws, m - 1), m - 1, draws[m - 1] % m)
  }

  /** The `std::shuffle` call of `knapsackGreedyRandom`, in place. */
  method Shuffle(a: array<int>, draws: seq<int>)
    requires |draws| == a.Length
    modifies a
    ensures a[..] == Shuffled(old(a[..]), draws, a.Length)
  {
    ghost var s := a[..];
    for i := 0 to a.Length
      invariant a[..] == Shuffled(s, draws, i)
    {
      var j := draws[i] % (i + 1);
      ghost var before := a[..];
      var t := a[i];
      a[i] := a[j];
      a[j] := t;
      assert a[..] == Swap(before, i, j);
    }
  }

  /** Fills a fresh array with the indices `0..n-1`, as both greedy solvers do
      before reordering them. */
  method Indices(n: nat) returns (a: array<int>)
    ensures fresh(a) && a[..] == Iota(n)
  {
    a := new int[n];
    for i := 0 to n
      invariant forall k :: 0 <= k < i ==> a[k] == k
    {
      a[i] := i;
    }
  }

  // ---------------------------------------------------------------------------
  // The greedy pass
  // ---------------------------------------------------------------------------

  /** The state of the greedy pass: which items are taken, the value taken so
      far and the capacity left (the by-value parameter `W`). */
  datatype Outcome = Outcome(selected: seq<bool>, total: int, rest: int)

  /** Before the pass: nothing taken, nothing gained, the whole capacity left. */
  function Start(inst: Instance, cap: nat): Outcome {
    Outcome(seq(inst.Size(), _ => false), 0, cap)
  }

  /** Item `i` cannot be taken in state `o`: an item it lists as a conflict is
      taken or it does not fit in the capacity left. */
  predicate Blocked(inst: Instance, o: Outcome, i: int): (b: bool)
    requires inst.Valid() && |o.selected| == inst.Size() && 0 <= i < inst.Size()
    ensures o.rest <= 0 ==> b
    ensures inst.conflicts[i] == [] ==> (b <==> o.rest < inst.weights[i])
  {
    inst.AnySelected(inst.conflicts[i], o.selected) || o.rest < inst.weights[i]
  }

  /** One iteration of the pass, for item `i`. */
  function Visit(inst: Instance, o: Outcome, i: int): (r: Outcome)
    requires inst.Valid() && |o.selected| == inst.Size() && 0 <= i < inst.Size()
    ensures |r.selected| == inst.Size() && r.selected[i] == (o.selected[i] || !Blocked(inst, o, i))
    ensures forall j :: 0 <= j < |o.selected| && j != i ==> r.selected[j] == o.selected[j]
    ensures o.total <= r.total && r.rest <= o.rest && (o.rest >= 0 ==> r.rest >= 0)
    ensures r.total - o.total == (if r == o then 0 else inst.values[i])
    ensures o.rest - r.rest == (if r == o then 0 else inst.weights[i])
  {
    if !Blocked(inst, o, i) then
      Outcome(o.selected[i := true], o.total + inst.values[i], o.rest - inst.weights[i])
    else o
  }

  /** The state after visiting the items of `order` in turn. */
  function Pass(inst: Instance, cap: nat, order: seq<int>): (r: Outcome)
    requires inst.Valid() && InRange(order, inst.Size())
    ensures |r.selected| == inst.Size()
    ensures 0 <= r.rest <= cap && r.total >= 0
    ensures forall j :: 0 <= j < inst.Size() && j !in order ==> !r.selected[j]
  {
    if order == [] then Start(inst, cap)
    else Visit(inst, Pass(inst, cap, order[..|order| - 1]), order[|order| - 1])
  }

  /** The pass over `order`, as the loop of lines 53-69 and 89-105 runs it:
      the conflict scan stops at the first taken conflict. */
  method GreedyPass(cap: nat, inst: Instance, order: seq<int>)
    returns (totalValue: int, selected: seq<bool>, rest: int)
    requires inst.Valid() && InRange(order, inst.Size())
    ensures Outcome(selected, totalValue, rest) == Pass(inst, cap, order)
  {
    var sel := new bool[inst.Size()](_ => false);
    assert sel[..] == Start(inst, cap).selected;
    totalValue, rest := 0, cap;
    for t := 0 to |order|
      invariant Outcome(sel[..], totalValue, rest) == Pass(inst, cap, order[..t])
    {
      assert order[..t + 1][..t] == order[..t];
      var i := order[t];
      var cs := inst.conflicts[i];
      var conflict := false;
      var k := 0;
      while k < |cs|
        invariant 0 <= k <= |cs|
        invariant forall m :: 0 <= m < k ==> !sel[cs[m]]
      {
        if sel[cs[k]] {
          conflict := true;
          break;
        }
        k := k + 1;
      }
      assert conflict == inst.AnySelected(cs, sel[..]);
      if !conflict && rest >= inst.weights[i] {
        sel[i] := true;
        totalValue := totalValue + inst.values[i];
        rest := rest - inst.weights[i];
      }
    }
    assert order[..|order|] == order;
    selected := sel[..];
  }

  // ---------------------------------------------------------------------------
  // What the pass guarantees
  // ---------------------------------------------------------------------------

  /** Two distinct taken items may conflict only one way round: the one taken
      later may be listed by the earlier one, never the reverse, since the
      later one's own list is checked when it is taken. */
  predicate OneSidedConflicts(inst: Instance, sel: seq<bool>)
    requires inst.Valid() && |sel| == inst.Size()
  {
    forall i, k :: 0 <= i < |sel| && 0 <= k < |inst.conflicts[i]| && sel[i]
      && inst.conflicts[i][k] != i && sel[inst.conflicts[i][k]]
      ==> i !in inst.conflicts[inst.conflicts[i][k]]
  }

  /** Every item of `seen` that is not taken is blocked in `o`. */
  predicate Maximal(inst: Instance, o: Outcome, seen: seq<int>)
    requires inst.Valid() && |o.selected| == inst.Size() && InRange(seen, inst.Size())
  {
    forall m :: 0 <= m < |seen| && !o.selected[seen[m]] ==> Blocked(inst, o, seen[m])
  }

  /** What holds of the state after visiting the distinct items `seen`. */
  predicate PassInvariant(inst: Instance, cap: nat, seen: seq<int>, o: Outcome)
    requires inst.Valid() && InRange(seen, inst.Size()) && |o.selected| == inst.Size()
  {
    && o.total == Sum(inst.values, o.selected)
    && o.rest == cap - Sum(inst.weights, o.selected)
    && o.rest >= 0
    && (forall k :: 0 <= k < |o.selected| && o.selected[k] ==> k in seen)
    && OneSidedConflicts(inst, o.selected)
    && Maximal(inst, o, seen)
  }

  /** Visiting an item not seen before keeps the invariant. */
  lemma VisitKeepsInvariant(inst: Instance, cap: nat, seen: seq<int>, o: Outcome, i: int)
    requires inst.Valid() && InRange(seen, inst.Size()) && |o.selected| == inst.Size()
    requires 0 <= i < inst.Size() && i !in seen
    requires PassInvariant(inst, cap, seen, o)
    ensures PassInvariant(inst, cap, seen + [i], Visit(inst, o, i))
  {
    var o' := Visit(inst, o, i);
    var seen' := seen + [i];
    assert !o.selected[i];
    if !Blocked(inst, o, i) {
      SumSelect(inst.values, o.selected, i);
      SumSelect(inst.weights, o.selected, i);
      forall j, k | 0 <= j < |o'.selected| && 0 <= k < |inst.conflicts[j]|
        ensures o'.selected[j] && inst.conflicts[j][k] != j && o'.selected[inst.conflicts[j][k]]
                ==> j !in inst.conflicts[inst.conflicts[j][k]]
      {
        var c := inst.conflicts[j][k];
        if j == i {
          assert !o.selected[c];
        } else if c == i {
          assert forall m :: 0 <= m < |inst.conflicts[i]| && o.selected[j] ==> inst.conflicts[i][m] != j;
        }
      }
      forall m | 0 <= m < |seen'| && !o'.selected[seen'[m]]
        ensures Blocked(inst, o', seen'[m])
      {
        var x := seen'[m];
        assert x == seen[m];
        assert Blocked(inst, o, x);
        if inst.AnySelected(inst.conflicts[x], o.selected) {
          var q :| 0 <= q < |inst.conflicts[x]| && o.selected[inst.conflicts[x][q]];
          assert o'.selected[inst.conflicts[x][q]];
        }
      }
    } else {
      forall m | 0 <= m < |seen'| && !o'.selected[seen'[m]]
        ensures Blocked(inst, o', seen'[m])
      {
        if m < |seen| {
          assert seen'[m] == seen[m];
        }
      }
    }
  }

  /** The invariant holds after any pass over distinct items. */
  lemma {:induction false} PassKeepsInvariant(inst: Instance, cap: nat, order: seq<int>)
    requires inst.Valid() && InRange(order, inst.Size()) && Distinct(order)
    ensures PassInvariant(inst, cap, order, Pass(inst, cap, order))
  {
    if order == [] {
      SumNone(inst.values, inst.Size());
      SumNone(inst.weights, inst.Size());
    } else {
      var last := |order| - 1;
      var init := order[..last];
      PassKeepsInvariant(inst, cap, init);
      assert order == init + [order[last]];
      assert order[last] !in init by {
        forall m | 0 <= m < |init|
          ensures init[m] != order[last]
        {
          assert init[m] == order[m];
        }
      }
      VisitKeepsInvariant(inst, cap, init, Pass(inst, cap, init), order[last]);
    }
  }

  /** What a greedy pass over a permutation of the items guarantees of the
      selection `sel` it ends with and of the value `total` it returns. */
  predicate Guarantees(inst: Instance, cap: nat, sel: seq<bool>, total: int)
    requires inst.Valid()
  {
    && |sel| == inst.Size()
    // the value returned is the value of the items taken
    && total == Sum(inst.values, sel)
    // the items taken fit in the knapsack
    && Sum(inst.weights, sel) <= cap
    // no item taken is listed as a conflict by an item taken before it
    && OneSidedConflicts(inst, sel)
    // with symmetric conflict lists, the selection is feasible
    && (inst.IsConflictGraph() ==> inst.Feasible(cap, sel))
    // no item left out could have been added at the end
    && (forall i :: 0 <= i < |sel| && !sel[i] ==>
          inst.AnySelected(inst.conflicts[i], sel) || inst.weights[i] > cap - Sum(inst.weights, sel))
  }

  /** With symmetric, loop-free conflict lists, one-sided conflicts are no
      conflicts at all. */
  lemma ConflictGraphConflictFree(inst: Instance, sel: seq<bool>)
    requires inst.Valid() && |sel| == inst.Size() && inst.IsConflictGraph()
    requires OneSidedConflicts(inst, sel)
    ensures inst.ConflictFree(sel)
  {
    forall i, k | 0 <= i < |sel| && sel[i] && 0 <= k < |inst.conflicts[i]|
      ensures !sel[inst.conflicts[i][k]]
    {
      assert i in inst.conflicts[inst.conflicts[i][k]];
    }
  }

  /** The greedy pass over ANY permutation of the items ends in a selection
      meeting `Guarantees`; in particular over the sorted order of
      `knapsackGreedy` and over every shuffle of `knapsackGreedyRandom`. */
  lemma PassGuarantees(inst: Instance, cap: nat, order: seq<int>)
    requires inst.Valid() && IsIndexPermutation(order, inst.Size())
    ensures InRange(order, inst.Size())
    ensures Guarantees(inst, cap, Pass(inst, cap, order).selected, Pass(inst, cap, order).total)
  {
    PermutationFacts(order, inst.Size());
    var o := Pass(inst, cap, order);
    PassKeepsInvariant(inst, cap, order);
    if inst.IsConflictGraph() {
      ConflictGraphConflictFree(inst, o.selected);
    }
    forall i | 0 <= i < |o.selected| && !o.selected[i]
      ensures inst.AnySelected(inst.conflicts[i], o.selected)
           || inst.weights[i] > cap - Sum(inst.weights, o.selected)
    {
      assert i in order;
      var m :| 0 <= m < |order| && order[m] == i;
      assert Blocked(inst, o, order[m]);
    }
  }

  /** A selection of positive-weight items that fits in an empty knapsack is
      empty, so it is worth nothing. */
  lemma ZeroCapacity(inst: Instance, sel: seq<bool>)
    requires inst.Valid() && |sel| == inst.Size() && Sum(inst.weights, sel) <= 0
    ensures Sum(inst.values, sel) == 0
  {
    forall i | 0 <= i < |sel|
      ensures !sel[i]
    {
      if sel[i] {
        SumPositive(inst.weights, sel, i);
      }
    }
    assert sel == seq(inst.Size(), _ => false);
    SumNone(inst.values, inst.Size());
  }

  // ---------------------------------------------------------------------------
  // The two solvers
  // ---------------------------------------------------------------------------

  /** `knapsackGreedy`: sorts the item indices by decreasing value per weight,
      then makes the greedy pass. Returns the value taken, and also the
      selection and the visiting order. */
  method KnapsackGreedy(W: nat, inst: Instance)
    returns (totalValue: int, selected: seq<bool>, order: seq<int>)
    requires inst.Valid()
    ensures IsIndexPermutation(order, inst.Size())
    ensures InRange(order, inst.Size()) && SortedByRatio(inst, order)
    ensures selected == Pass(inst, W, order).selected && totalValue == Pass(inst, W, order).total
    ensures Guarantees(inst, W, selected, totalValue)
    ensures totalValue >= 0 && (inst.Size() == 0 || W == 0 ==> totalValue == 0)
  {
    var indices := Indices(inst.Size());
    SortByRatio(inst, indices);
    order := indices[..];
    var rest;
    totalValue, selected, rest := GreedyPass(W, inst, order);
    PassGuarantees(inst, W, order);
    if W == 0 {
      ZeroCapacity(inst, selected);
    }
  }

  /** `knapsackGreedyRandom`: shuffles the item indices with the engine's
      draws `draws`, then makes the greedy pass. Returns the value taken, and
      also the selection and the visiting order. */
  method KnapsackGreedyRandom(W: nat, inst: Instance, draws: seq<int>)
    returns (totalValue: int, selected: seq<bool>, order: seq<int>)
    requires inst.Valid() && |draws| == inst.Size()
    ensures order == Shuffled(Iota(inst.Size()), draws, inst.Size())
    ensures IsIndexPermutation(order, inst.Size()) && InRange(order, inst.Size())
    ensures selected == Pass(inst, W, order).selected && totalValue == Pass(inst, W, order).total
    ensures Guarantees(inst, W, selected, totalValue)
    ensures totalValue >= 0 && (inst.Size() == 0 || W == 0 ==> totalValue == 0)
  {
    var indices := Indices(inst.Size());
    Shuffle(indices, draws);
    order := indices[..];
    PassGuarantees(inst, W, order);
    var rest;
    totalValue, selected, rest := GreedyPass(W, inst, order);
    if W == 0 {
      ZeroCapacity(inst, selected);
    }
  }
}
