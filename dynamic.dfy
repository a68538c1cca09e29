/** `knapsackDynamic`: an `(n+1) x (W+1)` table filled with the 0/1 knapsack
    recurrence, where item `i-1` may be included at capacity `w` only when no
    index `p` in its conflict list has a positive cell `dp[p][w]`. The probe
    reads the table row NUMBERED like the conflicting item, at the moment the
    cell is filled, so rows `p >= i` are still zero. The recurrence below is the
    one of the source, not a conflict-respecting optimum. */
module Dynamic {
  import opened Problem

  function Max(a: int, b: int): (m: int)
    ensures m >= a && m >= b && (m == a || m == b)
  {
    if a >= b then a else b
  }

  /** The value the table holds in row `i`, column `w` once filled. */
  function Cell(inst: Instance, i: nat, w: nat): (r: int)
    requires inst.Valid() && i <= inst.Size()
    ensures r >= 0
    decreases i, 1
  {
    if i == 0 || w == 0 then 0
    else if Includable(inst, i, w) then
      Max(inst.values[i - 1] + Cell(inst, i - 1, w - inst.weights[i - 1]), Cell(inst, i - 1, w))
    else Cell(inst, i - 1, w)
  }

  /** A cell is at least the cell above it, in both branches of the
      recurrence (lines 125-130). */
  lemma CellMonotone(inst: Instance, i: nat, w: nat)
    requires inst.Valid() && 0 < i <= inst.Size()
    ensures Cell(inst, i, w) >= Cell(inst, i - 1, w)
  {
  }

  /** The branch of line 125 is open for cell `(i, w)`: the probe finds no
      conflict and item `i-1` fits in capacity `w`. */
  predicate Includable(inst: Instance, i: nat, w: nat): (r: bool)
    requires inst.Valid() && 0 < i <= inst.Size()
    ensures r ==> 0 < inst.weights[i - 1] <= w
    ensures inst.conflicts[i - 1] == [] ==> (r <==> inst.weights[i - 1] <= w)
    decreases i, 0
  {
    !ProbeFinds(inst, i, w) && inst.weights[i - 1] <= w
  }

  /** The conflict probe of line 119 while cell `(i, w)` is filled: a conflict
      index `p` of item `i-1` whose row is already filled (`p < i`) holds a
      positive value in column `w`. Rows from `i` on are still zero then. */
  predicate ProbeFinds(inst: Instance, i: nat, w: nat): (found: bool)
    requires inst.Valid() && 0 < i <= inst.Size()
    ensures found ==> w > 0 && HasEarlierConflict(inst, i)
    decreases i, 0, 0
  {
    var cs := inst.conflicts[i - 1];
    exists k :: 0 <= k < |cs| && cs[k] < i && Cell(inst, cs[k], w) > 0
  }

  /** Item `i-1` lists as a conflict an item `p` with `0 < p < i`: the only
      rows a probe can find positive. */
  predicate HasEarlierConflict(inst: Instance, i: nat)
    requires inst.Valid() && 0 < i <= inst.Size()
  {
    var cs := inst.conflicts[i - 1];
    exists k :: 0 <= k < |cs| && 0 < cs[k] < i
  }

  /** The table `dp` has rows `0..i-1` and the first `w` cells of row `i`
      filled with their final values; every other cell is still zero. */
  ghost predicate FilledUpTo(inst: Instance, dp: array2<int>, W: nat, i: nat, w: nat)
    requires inst.Valid()
    reads dp
  {
    && dp.Length0 == inst.Size() + 1 && dp.Length1 == W + 1
    && i <= inst.Size() + 1 && w <= W + 1
    && (forall r, c :: 0 <= r < i && 0 <= c <= W ==> dp[r, c] == Cell(inst, r, c))
    && (forall c :: 0 <= c < w && i <= inst.Size() ==> dp[i, c] == Cell(inst, i, c))
    && (forall r, c :: i <= r <= inst.Size() && 0 <= c <= W && (i < r || w <= c) ==> dp[r, c] == 0)
  }

  /** The conflict scan of lines 117-123 for cell `(i, w)`; it stops at the
      first conflict index whose cell is positive. */
  method Probe(inst: Instance, dp: array2<int>, W: nat, i: nat, w: nat) returns (conflict: bool)
    requires inst.Valid() && 0 < i <= inst.Size() && 0 < w <= W
    requires FilledUpTo(inst, dp, W, i, w)
    ensures conflict == ProbeFinds(inst, i, w)
  {
    var cs := inst.conflicts[i - 1];
    conflict := false;
    var k := 0;
    while k < |cs|
      invariant 0 <= k <= |cs|
      invariant forall m :: 0 <= m < k ==> dp[cs[m], w] <= 0
    {
      if dp[cs[k], w] > 0 {
        conflict := true;
        break;
      }
      k := k + 1;
    }
    if conflict {
      assert cs[k] < i && Cell(inst, cs[k], w) > 0;
    } else {
      forall m | 0 <= m < |cs| && cs[m] < i
        ensures Cell(inst, cs[m], w) <= 0
      {
        assert dp[cs[m], w] <= 0;
      }
    }
  }

  /** One pass of the inner loop of lines 115-131: fills row `i`. */
  method FillRow(inst: Instance, dp: array2<int>, W: nat, i: nat)
    requires inst.Valid() && 0 < i <= inst.Size()
    requires FilledUpTo(inst, dp, W, i, 1)
    modifies dp
    ensures FilledUpTo(inst, dp, W, i + 1, 1)
  {
    for w := 1 to W + 1
      invariant FilledUpTo(inst, dp, W, i, w)
    {
      var conflict := Probe(inst, dp, W, i, w);
      if !conflict && inst.weights[i - 1] <= w {
        assert Includable(inst, i, w);
        dp[i, w] := Max(inst.values[i - 1] + dp[i - 1, w - inst.weights[i - 1]], dp[i - 1, w]);
      } else {
        dp[i, w] := dp[i - 1, w];
      }
    }
  }

  /** `knapsackDynamic`: fills the table row by row and returns its last cell. */
  method KnapsackDynamic(W: nat, inst: Instance) returns (best: int)
    requires inst.Valid()
    ensures best == Cell(inst, inst.Size(), W)
    ensures best >= 0 && (inst.Size() == 0 || W == 0 ==> best == 0)
  {
    var n := inst.Size();
    var dp := new int[n + 1, W + 1]((_, _) => 0);
    for i := 1 to n + 1
      invariant FilledUpTo(inst, dp, W, i, 1)
    {
      FillRow(inst, dp, W, i);
    }
    best := dp[n, W];
  }

  // ---------------------------------------------------------------------------
  // What a cell means
  // ---------------------------------------------------------------------------

  /** The unconstrained 0/1 knapsack optimum over items `0..i-1` with capacity
      `w`, conflicts ignored. */
  function Opt(inst: Instance, i: nat, w: nat): int
    requires inst.Valid() && i <= inst.Size()
  {
    if i == 0 then 0
    else if inst.weights[i - 1] <= w then
      Max(inst.values[i - 1] + Opt(inst, i - 1, w - inst.weights[i - 1]), Opt(inst, i - 1, w))
    else Opt(inst, i - 1, w)
  }

  /** No selection of items `0..|sel|-1` that fits in capacity `w` is worth
      more than `Opt`. */
  lemma {:induction false} OptIsUpperBound(inst: Instance, sel: seq<bool>, w: nat)
    requires inst.Valid() && |sel| <= inst.Size() && Sum(inst.weights, sel) <= w
    ensures Sum(inst.values, sel) <= Opt(inst, |sel|, w)
  {
    if sel != [] {
      var i := |sel|;
      var init := sel[..i - 1];
      assert sel == init + [sel[i - 1]];
      SumAppend(inst.weights, init, sel[i - 1]);
      SumAppend(inst.values, init, sel[i - 1]);
      assert Sum(inst.weights, init) >= 0;
      if sel[i - 1] {
        OptIsUpperBound(inst, init, w - inst.weights[i - 1]);
      } else {
        OptIsUpperBound(inst, init, w);
      }
    }
  }

  /** A selection of items `0..i-1` that fits in capacity `w` and is worth
      exactly `Opt(inst, i, w)`: the optimum is attained. */
  function OptChoice(inst: Instance, i: nat, w: nat): (sel: seq<bool>)
    requires inst.Valid() && i <= inst.Size()
    ensures |sel| == i && Sum(inst.weights, sel) <= w
    ensures Sum(inst.values, sel) == Opt(inst, i, w)
  {
    if i == 0 then []
    else
      var take := OptTakesItem(inst, i, w);
      var init := OptChoice(inst, i - 1, if take then w - inst.weights[i - 1] else w);
      OptStep(inst, i, w);
      SumAppend(inst.weights, init, take);
      SumAppend(inst.values, init, take);
      init + [take]
  }

  /** The optimum for items `0..i-1` can be reached by including item `i-1`. */
  predicate OptTakesItem(inst: Instance, i: nat, w: nat)
    requires inst.Valid() && 0 < i <= inst.Size()
  {
    && inst.weights[i - 1] <= w
    && inst.values[i - 1] + Opt(inst, i - 1, w - inst.weights[i - 1]) >= Opt(inst, i - 1, w)
  }

  /** The optimum is either the one without item `i-1` or item `i-1`'s value
      plus the optimum at the capacity left, as `OptTakesItem` says. */
  lemma OptStep(inst: Instance, i: nat, w: nat)
    requires inst.Valid() && 0 < i <= inst.Size()
    ensures Opt(inst, i, w) == if OptTakesItem(inst, i, w)
      then inst.values[i - 1] + Opt(inst, i - 1, w - inst.weights[i - 1])
      else Opt(inst, i - 1, w)
  {
  }

  /** The choices the table made for cell `(i, w)`, traced back through the
      recurrence: a selection of items `0..i-1` that fits in capacity `w` and
      is worth exactly the cell. */
  function Traceback(inst: Instance, i: nat, w: nat): (sel: seq<bool>)
    requires inst.Valid() && i <= inst.Size()
    ensures |sel| == i && Sum(inst.weights, sel) <= w
    ensures Sum(inst.values, sel) == Cell(inst, i, w)
  {
    if i == 0 then []
    else
      var take := TakesItem(inst, i, w);
      var init := Traceback(inst, i - 1, if take then w - inst.weights[i - 1] else w);
      CellStep(inst, i, w);
      SumAppend(inst.weights, init, take);
      SumAppend(inst.values, init, take);
      init + [take]
  }

  /** The table's value for cell `(i, w)` comes from including item `i-1`. */
  predicate TakesItem(inst: Instance, i: nat, w: nat)
    requires inst.Valid() && 0 < i <= inst.Size()
  {
    && w > 0 && Includable(inst, i, w)
    && inst.values[i - 1] + Cell(inst, i - 1, w - inst.weights[i - 1]) >= Cell(inst, i - 1, w)
  }

  /** A cell is either the cell above it or item `i-1`'s value plus the cell
      above at the capacity left, as `TakesItem` says. */
  lemma CellStep(inst: Instance, i: nat, w: nat)
    requires inst.Valid() && 0 < i <= inst.Size()
    ensures TakesItem(inst, i, w) ==> inst.weights[i - 1] <= w
    ensures Cell(inst, i, w) == if TakesItem(inst, i, w)
      then inst.values[i - 1] + Cell(inst, i - 1, w - inst.weights[i - 1])
      else Cell(inst, i - 1, w)
  {
  }

  /** Every cell is at most the unconstrained optimum. */
  lemma CellAtMostOpt(inst: Instance, i: nat, w: nat)
    requires inst.Valid() && i <= inst.Size()
    ensures Cell(inst, i, w) <= Opt(inst, i, w)
  {
    OptIsUpperBound(inst, Traceback(inst, i, w), w);
  }

  /** Each item lists only item 0 or later items as conflicts. */
  predicate ConflictsOnlyForward(inst: Instance)
    requires inst.Valid()
  {
    forall j, k :: 0 <= j < |inst.conflicts| && 0 <= k < |inst.conflicts[j]| ==>
      inst.conflicts[j][k] == 0 || inst.conflicts[j][k] > j
  }

  /** The probe never blocks a conflict with item 0 (row 0 is all zero) or with
      a later item (its row is not filled yet). So when every conflict points
      that way, in particular when every conflict list is empty, the table is
      the unconstrained optimum: conflicts are ignored altogether. */
  lemma {:induction false} ForwardConflictsIgnored(inst: Instance, i: nat, w: nat)
    requires inst.Valid() && i <= inst.Size() && ConflictsOnlyForward(inst)
    ensures Cell(inst, i, w) == Opt(inst, i, w)
  {
    if i > 0 {
      assert !ProbeFinds(inst, i, w) by {
        var cs := inst.conflicts[i - 1];
        forall k | 0 <= k < |cs| && cs[k] < i
          ensures Cell(inst, cs[k], w) <= 0
        {
          assert cs[k] == 0;
        }
      }
      ForwardConflictsIgnored(inst, i - 1, w);
      if w == 0 {
        OptZero(inst, i);
      } else if inst.weights[i - 1] <= w {
        ForwardConflictsIgnored(inst, i - 1, w - inst.weights[i - 1]);
      }
    }
  }

  /** Nothing of positive weight fits in capacity zero. */
  lemma {:induction false} OptZero(inst: Instance, i: nat)
    requires inst.Valid() && i <= inst.Size()
    ensures Opt(inst, i, 0) == 0
  {
    if i > 0 {
      OptZero(inst, i - 1);
    }
  }
}
