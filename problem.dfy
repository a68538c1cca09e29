/** The problem representation shared by the three knapsack solvers: items with
    positive weights and values, a list per item of the items it conflicts with,
    selections of items as boolean masks, and permutations of the item indices. */
module Problem {

  /** One instance: parallel weight and value lists, and for each item the
      indices of the items it conflicts with. The capacity is passed separately,
      as each solver takes it as its own parameter. */
  datatype Instance = Instance(weights: seq<int>, values: seq<int>, conflicts: seq<seq<int>>)
  {
    /** The number of items. */
    function Size(): nat { |weights| }

    /** What every solver takes for granted about its input: the three lists
        have one entry per item, weights and values are positive and every
        conflict index names an item. */
    predicate Valid() {
      && |values| == |weights|
      && |conflicts| == |weights|
      && (forall i :: 0 <= i < |weights| ==> weights[i] > 0)
      && (forall i :: 0 <= i < |values| ==> values[i] > 0)
      && (forall i, k :: 0 <= i < |conflicts| && 0 <= k < |conflicts[i]| ==>
            0 <= conflicts[i][k] < |weights|)
    }

    /** The conflict lists describe an undirected graph without loops, as the
        instance generator builds them: every listed conflict is listed back,
        and no item lists itself. */
    predicate IsConflictGraph()
      requires Valid()
    {
      forall i, k :: 0 <= i < |conflicts| && 0 <= k < |conflicts[i]| ==>
        conflicts[i][k] != i && i in conflicts[conflicts[i][k]]
    }

    /** True when one of the items `cs` names is selected in `sel`. */
    predicate AnySelected(cs: seq<int>, sel: seq<bool>)
      requires forall k :: 0 <= k < |cs| ==> 0 <= cs[k] < |sel|
    {
      exists k :: 0 <= k < |cs| && sel[cs[k]]
    }

    /** No selected item lists a selected item among its conflicts. */
    predicate ConflictFree(sel: seq<bool>)
      requires Valid() && |sel| == Size()
    {
      forall i :: 0 <= i < |sel| && sel[i] ==> !AnySelected(conflicts[i], sel)
    }

    /** A selection the knapsack of capacity `cap` can hold: it weighs at most
        `cap` and contains no conflicting pair. */
    predicate Feasible(cap: int, sel: seq<bool>)
      requires Valid()
    {
      |sel| == Size() && Sum(weights, sel) <= cap && ConflictFree(sel)
    }
  }

  /** The sum of `xs[k]` over the positions `k` that `sel` marks; `sel` may be
      shorter than `xs`, and then covers the first `|sel|` items only. */
  function Sum(xs: seq<int>, sel: seq<bool>): (r: int)
    requires |sel| <= |xs|
    ensures (forall k :: 0 <= k < |xs| ==> xs[k] >= 0) ==> r >= 0
  {
    if sel == [] then 0
    else Sum(xs, sel[..|sel| - 1]) + (if sel[|sel| - 1] then xs[|sel| - 1] else 0)
  }

  /** Deciding one more item adds its entry exactly when it is taken. */
  lemma SumAppend(xs: seq<int>, sel: seq<bool>, b: bool)
    requires |sel| < |xs|
    ensures Sum(xs, sel + [b]) == Sum(xs, sel) + (if b then xs[|sel|] else 0)
  {
    assert (sel + [b])[..|sel|] == sel;
  }

  /** Marking one more position adds exactly its entry to the sum. */
  lemma {:induction false} SumSelect(xs: seq<int>, sel: seq<bool>, i: int)
    requires |sel| <= |xs| && 0 <= i < |sel| && !sel[i]
    ensures Sum(xs, sel[i := true]) == Sum(xs, sel) + xs[i]
  {
    var last := |sel| - 1;
    assert sel[i := true][..last] == if i == last then sel[..last] else sel[..last][i := true];
    if i < last {
      SumSelect(xs, sel[..last], i);
    }
  }

  /** The empty selection sums to zero. */
  lemma {:induction false} SumNone(xs: seq<int>, n: nat)
    requires n <= |xs|
    ensures Sum(xs, seq(n, _ => false)) == 0
  {
    if n > 0 {
      assert seq(n, _ => false)[..n - 1] == seq(n - 1, _ => false);
      SumNone(xs, n - 1);
    }
  }

  /** Over positive entries, a selection sums to at most zero only if it marks
      nothing. */
  lemma {:induction false} SumPositive(xs: seq<int>, sel: seq<bool>, i: int)
    requires |sel| <= |xs| && forall k :: 0 <= k < |xs| ==> xs[k] > 0
    requires 0 <= i < |sel| && sel[i]
    ensures Sum(xs, sel) >= xs[i] > 0
  {
    var last := |sel| - 1;
    if i < last {
      SumPositive(xs, sel[..last], i);
    }
  }

  /** Over non-negative entries, a prefix of a selection sums to no more than
      the whole selection. */
  lemma {:induction false} SumPrefix(xs: seq<int>, sel: seq<bool>, m: nat)
    requires |sel| <= |xs| && m <= |sel| && forall k :: 0 <= k < |xs| ==> xs[k] >= 0
    ensures Sum(xs, sel[..m]) <= Sum(xs, sel)
  {
    if m < |sel| {
      var last := |sel| - 1;
      assert sel[..last][..m] == sel[..m];
      SumPrefix(xs, sel[..last], m);
    } else {
      assert sel[..m] == sel;
    }
  }

  /** The indices `0, 1, ..., n-1` in increasing order. */
  function Iota(n: nat): (s: seq<int>)
    ensures |s| == n && forall k :: 0 <= k < n ==> s[k] == k
  {
    if n == 0 then [] else Iota(n - 1) + [n - 1]
  }

  /** `order` lists the indices `0..n-1` in some order, each once. */
  predicate IsIndexPermutation(order: seq<int>, n: nat) {
    multiset(order) == multiset(Iota(n))
  }

  /** Every index of `order` names one of `n` items. */
  predicate InRange(order: seq<int>, n: nat) {
    forall k :: 0 <= k < |order| ==> 0 <= order[k] < n
  }

  /** No index occurs twice in `order`. */
  predicate Distinct(order: seq<int>) {
    forall a, b :: 0 <= a < b < |order| ==> order[a] != order[b]
  }

  /** Each index below `n` occurs exactly once in `Iota(n)`, and no other does. */
  lemma {:induction false} IotaCount(n: nat, x: int)
    ensures multiset(Iota(n))[x] == if 0 <= x < n then 1 else 0
  {
    if n > 0 {
      var s := Iota(n - 1);
      assert Iota(n) == s + [n - 1];
      assert multiset(s + [n - 1]) == multiset(s) + multiset{n - 1};
      assert multiset{n - 1}[x] == if x == n - 1 then 1 else 0;
      IotaCount(n - 1, x);
    }
  }

  /** A permutation of the indices has length `n`, lists only item indices,
      lists none twice and lists every one. */
  lemma PermutationFacts(order: seq<int>, n: nat)
    requires IsIndexPermutation(order, n)
    ensures |order| == n && InRange(order, n) && Distinct(order)
    ensures forall x :: 0 <= x < n ==> x in order
  {
    assert |order| == |multiset(order)| == |multiset(Iota(n))| == n;
    forall k | 0 <= k < |order|
      ensures 0 <= order[k] < n
    {
      assert order[k] in multiset(order);
      IotaCount(n, order[k]);
    }
    forall a, b | 0 <= a < b < |order|
      ensures order[a] != order[b]
    {
      if order[a] == order[b] {
        var x := order[a];
        assert order == order[..b] + order[b..];
        assert multiset(order) == multiset(order[..b]) + multiset(order[b..]);
        assert order[a] == order[..b][a];
        assert x in multiset(order[..b]);
        assert order[b..][0] == x;
        assert x in multiset(order[b..]);
        IotaCount(n, x);
        assert false;
      }
    }
    forall x | 0 <= x < n
      ensures x in order
    {
      IotaCount(n, x);
      assert x in multiset(order);
    }
  }
}
