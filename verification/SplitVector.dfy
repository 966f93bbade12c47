/** Entry numbers in page splits: who has been placed on which side. */
module SplitVector {
  /** The entry numbers of a vector of `n` slots whose slot 0 is not used. */
  function Numbers(n: nat): seq<nat>
    requires n > 0
  {
    seq(n - 1, i => i + 1)
  }

  /** `order` has every entry number once. */
  predicate IsOrder(order: seq<nat>, n: nat)
    requires n > 0
  {
    multiset(order) == multiset(Numbers(n)) && forall i | 0 <= i < |order| :: order[i] < n
  }

  /** The first `k` numbers are placed, each once, and the seeds on their own sides. */
  predicate Placed(order: seq<nat>, k: nat, left: seq<nat>, right: seq<nat>, seed1: nat, seed2: nat)
    requires k <= |order|
  {
    && multiset(left) + multiset(right) == multiset(order[..k])
    && (seed1 in order[..k] ==> seed1 in left) && (seed2 in order[..k] ==> seed2 in right)
  }

  lemma PlaceOne(order: seq<nat>, k: nat, left: seq<nat>, right: seq<nat>, seed1: nat, seed2: nat)
    requires k < |order| && Placed(order, k, left, right, seed1, seed2)
    ensures order[k] != seed2 ==> Placed(order, k + 1, left + [order[k]], right, seed1, seed2)
    ensures order[k] != seed1 ==> Placed(order, k + 1, left, right + [order[k]], seed1, seed2)
  {
    assert order[..k + 1] == order[..k] + [order[k]];
  }

  /** Every entry goes to exactly one side and neither side is empty. */
  predicate IsSplit(left: seq<nat>, right: seq<nat>, n: nat)
    requires n > 0
  {
    multiset(left) + multiset(right) == multiset(Numbers(n)) && left != [] && right != []
  }

  lemma AllPlaced(order: seq<nat>, left: seq<nat>, right: seq<nat>, seed1: nat, seed2: nat, n: nat)
    requires 1 <= seed1 < n && 1 <= seed2 < n && IsOrder(order, n) && Placed(order, |order|, left, right, seed1, seed2)
    ensures IsSplit(left, right, n) && seed1 in left && seed2 in right
  {
    assert order[..|order|] == order;
    assert Numbers(n)[seed1 - 1] == seed1 && Numbers(n)[seed2 - 1] == seed2;
    assert seed1 in multiset(Numbers(n)) && seed2 in multiset(Numbers(n));
  }

  lemma OrderLength(order: seq<nat>, n: nat)
    requires n > 0 && IsOrder(order, n)
    ensures |order| == n - 1
  {
    assert |order| == |multiset(order)|;
    assert |Numbers(n)| == |multiset(Numbers(n))|;
  }

  /** The two halves of an order are a split. */
  lemma HalvesSplit(order: seq<nat>, left: seq<nat>, right: seq<nat>, n: nat)
    requires n >= 3 && IsOrder(order, n) && left == order[..|order| / 2] && right == order[|order| / 2..]
    ensures IsSplit(left, right, n) && left + right == order
  {
    OrderLength(order, n);
    assert left + right == order;
  }

  // ---------------------------------------------------------------- the children on a side

  /** All entry numbers of a side are those of children. */
  predicate Numbered(side: seq<nat>, n: nat) { forall j | 0 <= j < |side| :: 1 <= side[j] <= n }

  /** The children with these entry numbers. */
  function Pick<T>(children: seq<T>, side: seq<nat>): (r: seq<T>)
    requires Numbered(side, |children|)
    ensures |r| == |side| && forall j | 0 <= j < |side| :: r[j] == children[side[j] - 1]
  {
    seq(|side|, j requires 0 <= j < |side| => children[side[j] - 1])
  }

  lemma SplitIsNumbered(left: seq<nat>, right: seq<nat>, n: nat)
    requires IsSplit(left, right, n + 1)
    ensures Numbered(left, n) && Numbered(right, n)
  {
    forall x: nat | x in left || x in right ensures 1 <= x <= n {
      assert x in multiset(left) + multiset(right);
      assert x in Numbers(n + 1);
    }
    assert forall j | 0 <= j < |left| :: left[j] in left;
    assert forall j | 0 <= j < |right| :: right[j] in right;
  }
}
