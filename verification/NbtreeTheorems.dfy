/** What an accepted B-tree guarantees: leaf order, and bounds below every downlink. */
module NbtreeTheorems {
  import opened Results
  import opened NbtreeModel
  import opened NbtreeSpec
  import opened NbtreeCheck

  /** An accepted tree with nothing in flux: the levels that the check has seen fit. */
  ghost predicate Accepted(pages: Pages, n: nat, root: Block, level: nat, chains: seq<seq<Block>>) {
    TopFits(false, pages, n, root, level, chains) && NoneInFlux(pages)
  }

  // ---------------------------------------------------------------- order of the leaf items

  lemma {:induction false} PageOrder(pages: Pages, n: nat, p: BTPage, o: nat, o': nat)
    requires p.leaf && PageFits(pages, p, n) && p.IsData(o) && p.IsData(o') && o < o'
    ensures Less(p.Item(o).key, p.Item(o').key)
    decreases o' - o
  {
    assert ItemFits(p, o, n);
    if o + 1 < o' {
      PageOrder(pages, n, p, o + 1, o');
      LessTransitive(p.Item(o).key, p.Item(o + 1).key, p.Item(o').key);
    }
  }

  lemma SiblingOrder(pages: Pages, n: nat, chain: seq<Block>, i: nat)
    requires LevelFits(false, pages, n, 0, chain) && NoneInFlux(pages) && NoEmptyLeaf(pages)
    requires i + 1 < |chain|
    ensures chain[i] in pages && chain[i + 1] in pages
    ensures var p, q := pages[chain[i]], pages[chain[i + 1]];
            && p.IsData(p.Max()) && q.IsData(q.FirstDataKey())
            && Less(p.Item(p.Max()).key, q.Item(q.FirstDataKey()).key)
  {
    assert PageInLevel(false, pages, n, 0, chain, i) && PageInLevel(false, pages, n, 0, chain, i + 1);
    var p, q := pages[chain[i]], pages[chain[i + 1]];
    assert p.IsData(p.Max()) && !p.NegativeInfinity(p.Max());
    InvariantsAreOrder(FirstRealItem(q).value.key, p.Item(p.Max()), n);
  }

  /** Leaf items along the right links are strictly increasing. */
  lemma {:induction false} LeafItemsIncrease(
      pages: Pages, n: nat, chain: seq<Block>, i: nat, o: nat, j: nat, o': nat)
    requires LevelFits(false, pages, n, 0, chain) && NoneInFlux(pages) && NoEmptyLeaf(pages)
    requires i <= j < |chain| && chain[i] in pages && chain[j] in pages
    requires pages[chain[i]].IsData(o) && pages[chain[j]].IsData(o') && (i < j || o < o')
    ensures Less(pages[chain[i]].Item(o).key, pages[chain[j]].Item(o').key)
    decreases j - i
  {
    assert PageInLevel(false, pages, n, 0, chain, i);
    var p := pages[chain[i]];
    if i == j {
      PageOrder(pages, n, p, o, o');
    } else {
      SiblingOrder(pages, n, chain, i);
      var q := pages[chain[i + 1]];
      var last, first := p.Item(p.Max()).key, q.Item(q.FirstDataKey()).key;
      if o < p.Max() {
        PageOrder(pages, n, p, o, p.Max());
        LessTransitive(p.Item(o).key, last, first);
      }
      if i + 1 < j || q.FirstDataKey() < o' {
        LeafItemsIncrease(pages, n, chain, i + 1, q.FirstDataKey(), j, o');
        LessTransitive(p.Item(o).key, first, pages[chain[j]].Item(o').key);
      }
    }
  }

  // ---------------------------------------------------------------- every child is a page of the level below

  lemma {:induction false} ChainIsRightLinks(pages: Pages, n: nat, level: nat, chain: seq<Block>, i: nat, k: nat)
    requires LevelFits(false, pages, n, level, chain) && i < |chain|
    ensures RightN(pages, chain[i], k) == if i + k < |chain| then chain[i + k] else P_NONE
    decreases k
  {
    assert PageInLevel(false, pages, n, level, chain, i);
    if k > 0 && i + 1 < |chain| { ChainIsRightLinks(pages, n, level, chain, i + 1, k - 1); }
  }

  lemma PageOnLevel(pages: Pages, n: nat, root: Block, level: nat, chains: seq<seq<Block>>, l: nat, i: nat)
    requires Accepted(pages, n, root, level, chains) && l < |chains| && i < |chains[l]|
    ensures LevelFits(false, pages, n, Base(level, chains) + l, chains[l])
    ensures PageInLevel(false, pages, n, Base(level, chains) + l, chains[l], i)
    ensures !pages[chains[l][i]].leaf ==> pages[chains[l][i]].FirstDataKey() <= pages[chains[l][i]].Max()
    ensures l > 0 ==> !pages[chains[l][i]].leaf
  {
  }

  /** A page that follows, in downlink order, a page of the level below is itself on that level. */
  lemma NextChildOnLevel(
      pages: Pages, n: nat, level: nat, chain: seq<Block>, j: nat, p: BTPage, o: nat, right: Block)
    requires LevelFits(false, pages, n, level, chain) && j < |chain|
    requires chain[j] in pages && right == pages[chain[j]].next
    requires 1 <= o <= p.Max() && Child(p, o) != P_NONE && DownlinkFits(false, pages, p, o, right)
    ensures Child(p, o) in chain && !pages[chain[j]].Rightmost()
  {
    assert PageInLevel(false, pages, n, level, chain, j);
    assert PageInLevel(false, pages, n, level, chain, |chain| - 1);
    if j + 1 < |chain| {
      assert PageInLevel(false, pages, n, level, chain, j + 1);
      var k: nat :| RightN(pages, chain[j + 1], k) == Child(p, o);
      ChainIsRightLinks(pages, n, level, chain, j + 1, k);
    }
  }

  /** All downlinks of the pages that the check has seen lead somewhere. */
  ghost predicate AllLead(pages: Pages, chains: seq<seq<Block>>) {
    forall l, i, o | 0 <= l < |chains| && 0 <= i < |chains[l]| && IsDownlink(pages, chains[l][i], o) ::
      Child(pages[chains[l][i]], o) != P_NONE
  }

  predicate IsDownlink(pages: Pages, b: Block, o: nat) { b in pages && !pages[b].leaf && pages[b].IsData(o) }

  lemma LastIsDownlink(pages: Pages, n: nat, root: Block, level: nat, chains: seq<seq<Block>>, l: nat, i: nat)
    requires Accepted(pages, n, root, level, chains) && 0 < l < |chains| && i < |chains[l]|
    ensures chains[l][i] in pages && IsDownlink(pages, chains[l][i], pages[chains[l][i]].Max())
  {
    PageOnLevel(pages, n, root, level, chains, l, i);
  }

  lemma {:induction false} ChildOnLevel(
      pages: Pages, n: nat, root: Block, level: nat, chains: seq<seq<Block>>, l: nat, i: nat, o: nat)
    requires Accepted(pages, n, root, level, chains) && AllLead(pages, chains) && 0 < l < |chains| && i < |chains[l]|
    requires IsDownlink(pages, chains[l][i], o)
    ensures Child(pages[chains[l][i]], o) in chains[l - 1]
    decreases i, o
  {
    var p := pages[chains[l][i]];
    if o > p.FirstDataKey() {
      ChildOnLevel(pages, n, root, level, chains, l, i, o - 1);
      FollowingOnPage(pages, n, root, level, chains, l, i, o - 1);
    } else if i > 0 {
      LastIsDownlink(pages, n, root, level, chains, l, i - 1);
      ChildOnLevel(pages, n, root, level, chains, l, i - 1, pages[chains[l][i - 1]].Max());
      FollowingOnNext(pages, n, root, level, chains, l, i - 1);
    } else {
      assert StartsBelow(pages, chains, l);
    }
  }

  /** The downlink after a given one on the same page: its child is on the level below too. */
  lemma FollowingOnPage(
      pages: Pages, n: nat, root: Block, level: nat, chains: seq<seq<Block>>, l: nat, i: nat, o: nat)
    requires Accepted(pages, n, root, level, chains) && AllLead(pages, chains) && 0 < l < |chains| && i < |chains[l]|
    requires IsDownlink(pages, chains[l][i], o) && o < pages[chains[l][i]].Max()
    requires Child(pages[chains[l][i]], o) in chains[l - 1]
    ensures Child(pages[chains[l][i]], o + 1) in chains[l - 1]
    ensures Child(pages[chains[l][i]], o) in pages && !pages[Child(pages[chains[l][i]], o)].Rightmost()
  {
    PageOnLevel(pages, n, root, level, chains, l, i);
    var p, below := pages[chains[l][i]], chains[l - 1];
    var right := RightBefore(pages, p, o + 1, RightAtPage(pages, chains[l], i));
    assert IsDownlink(pages, chains[l][i], o + 1) && DownlinkFits(false, pages, p, o + 1, right);
    var j :| 0 <= j < |below| && below[j] == Child(p, o);
    PageOnLevel(pages, n, root, level, chains, l - 1, j);
    NextChildOnLevel(pages, n, Base(level, chains) + (l - 1), below, j, p, o + 1, right);
  }

  /** The first downlink of the next page, likewise. */
  lemma FollowingOnNext(
      pages: Pages, n: nat, root: Block, level: nat, chains: seq<seq<Block>>, l: nat, i: nat)
    requires Accepted(pages, n, root, level, chains) && AllLead(pages, chains) && 0 < l < |chains| && i + 1 < |chains[l]|
    requires chains[l][i] in pages && IsDownlink(pages, chains[l][i], pages[chains[l][i]].Max())
    requires Child(pages[chains[l][i]], pages[chains[l][i]].Max()) in chains[l - 1]
    ensures chains[l][i + 1] in pages
    ensures var q := pages[chains[l][i + 1]];
            q.IsData(q.FirstDataKey()) && Child(q, q.FirstDataKey()) in chains[l - 1]
    ensures var p := pages[chains[l][i]]; Child(p, p.Max()) in pages && !pages[Child(p, p.Max())].Rightmost()
  {
    PageOnLevel(pages, n, root, level, chains, l, i);
    PageOnLevel(pages, n, root, level, chains, l, i + 1);
    var p, q, below := pages[chains[l][i]], pages[chains[l][i + 1]], chains[l - 1];
    var j :| 0 <= j < |below| && below[j] == Child(p, p.Max());
    PageOnLevel(pages, n, root, level, chains, l - 1, j);
    assert RightBefore(pages, q, q.FirstDataKey(), RightAtPage(pages, chains[l], i + 1)) == pages[below[j]].next;
    assert IsDownlink(pages, chains[l][i + 1], q.FirstDataKey());
    NextChildOnLevel(pages, n, Base(level, chains) + (l - 1), below, j, q, q.FirstDataKey(), pages[below[j]].next);
  }

  // ---------------------------------------------------------------- bounds below a downlink

  /** Following the downlinks at the offsets of `path` from block `b` ends at leaf `leaf`. */
  ghost predicate Descends(pages: Pages, b: Block, path: seq<nat>, leaf: Block)
    decreases |path|
  {
    && b in pages
    && if path == [] then leaf == b && pages[b].leaf
       else !pages[b].leaf && pages[b].IsData(path[0]) && Descends(pages, Child(pages[b], path[0]), path[1..], leaf)
  }

  /** The leaf items below the downlink of block `b` at `first` are at most the upper end of that downlink. */
  ghost predicate DownlinkBounded(pages: Pages, n: nat, b: Block, first: nat) {
    forall path, leaf, o |
      && path != [] && path[0] == first && Descends(pages, b, path, leaf) && leaf in pages && pages[leaf].IsData(o)
      && HasUpper(pages[b], first) ::
      Leq(MaxKey(pages[leaf].Item(o), n), Upper(pages[b], first).key)
  }

  /** The bound on the leaf items below every downlink of every page that the check has seen. */
  ghost predicate AllBounded(pages: Pages, n: nat, chains: seq<seq<Block>>) {
    forall l, i, o | 0 <= l < |chains| && 0 <= i < |chains[l]| && IsDownlink(pages, chains[l][i], o) ::
      DownlinkBounded(pages, n, chains[l][i], o)
  }

  /** The downlink leads to a page that is not on the level below, as far as the check has seen that. */
  predicate OffLevel(pages: Pages, chains: seq<seq<Block>>, l: nat, i: nat, o: nat)
    requires l < |chains| && i < |chains[l]| && IsDownlink(pages, chains[l][i], o)
  {
    var d := Child(pages[chains[l][i]], o);
    d in pages && (l == 0 || d !in chains[l - 1])
  }

  /** No check ties the subtree to the upper end: it is off the level, or its page has no high key to compare. */
  predicate Exposed(pages: Pages, chains: seq<seq<Block>>, l: nat, i: nat, o: nat)
    requires l < |chains| && i < |chains[l]| && IsDownlink(pages, chains[l][i], o)
  {
    var p := pages[chains[l][i]];
    OffLevel(pages, chains, l, i, o) || (Child(p, o) in pages && pages[Child(p, o)].Rightmost() && HasUpper(p, o))
  }

  ghost predicate ExposedBounded(pages: Pages, n: nat, chains: seq<seq<Block>>) {
    forall l, i, o | 0 <= l < |chains| && 0 <= i < |chains[l]| && IsDownlink(pages, chains[l][i], o) ::
      Exposed(pages, chains, l, i, o) ==> DownlinkBounded(pages, n, chains[l][i], o)
  }

  ghost predicate NoneExposed(pages: Pages, chains: seq<seq<Block>>) {
    forall l, i, o | 0 <= l < |chains| && 0 <= i < |chains[l]| && IsDownlink(pages, chains[l][i], o) ::
      !Exposed(pages, chains, l, i, o)
  }

  /** What is known of a downlink to a page of the level below. */
  lemma ChildIndex(
      pages: Pages, n: nat, root: Block, level: nat, chains: seq<seq<Block>>, l: nat, i: nat, o: nat) returns (j: nat)
    requires Accepted(pages, n, root, level, chains) && 0 < l < |chains| && i < |chains[l]|
    requires IsDownlink(pages, chains[l][i], o) && Child(pages[chains[l][i]], o) in pages && !OffLevel(pages, chains, l, i, o)
    ensures var p := pages[chains[l][i]];
            && j < |chains[l - 1]| && chains[l - 1][j] == Child(p, o)
            && PageInLevel(false, pages, n, Base(level, chains) + (l - 1), chains[l - 1], j)
            && ChildFits(pages, p, o)
            && (!p.NegativeInfinity(o) ==> ChildAbove(pages, p, o, n))
  {
    PageOnLevel(pages, n, root, level, chains, l, i);
    var p := pages[chains[l][i]];
    j :| 0 <= j < |chains[l - 1]| && chains[l - 1][j] == Child(p, o);
    PageOnLevel(pages, n, root, level, chains, l - 1, j);
    assert DownlinkFits(false, pages, p, o, RightBefore(pages, p, o, RightAtPage(pages, chains[l], i)));
  }

  /** All the bounds of a page are at most its high key. */
  lemma UpperBelowHighKey(pages: Pages, n: nat, p: BTPage, o: nat)
    requires !p.leaf && !p.Rightmost() && PageFits(pages, p, n) && p.IsData(o)
    ensures Leq(Upper(p, o).key, p.Item(P_HIKEY).key)
  {
    if o < p.Max() { assert ItemFits(p, o + 1, n); }
  }

  /** Every leaf item below a downlink of any ancestor is at most the upper end of that downlink. */
  lemma {:induction false} LeafBelowUpper(
      pages: Pages, n: nat, root: Block, level: nat, chains: seq<seq<Block>>,
      l: nat, i: nat, path: seq<nat>, leaf: Block, o: nat)
    requires Accepted(pages, n, root, level, chains) && ExposedBounded(pages, n, chains)
    requires l < |chains| && i < |chains[l]| && path != []
    requires Descends(pages, chains[l][i], path, leaf) && leaf in pages && pages[leaf].IsData(o)
    requires HasUpper(pages[chains[l][i]], path[0])
    ensures Leq(MaxKey(pages[leaf].Item(o), n), Upper(pages[chains[l][i]], path[0]).key)
    decreases l
  {
    var p := pages[chains[l][i]];
    assert IsDownlink(pages, chains[l][i], path[0]);
    if Exposed(pages, chains, l, i, path[0]) {
      assert DownlinkBounded(pages, n, chains[l][i], path[0]);
    } else {
      var j := ChildIndex(pages, n, root, level, chains, l, i, path[0]);
      var c := chains[l - 1][j];
      if |path| == 1 {
        assert ItemFits(pages[leaf], o, n);
      } else {
        LeafBelowUpper(pages, n, root, level, chains, l - 1, j, path[1..], leaf, o);
        UpperBelowHighKey(pages, n, pages[c], path[1]);
        LeqTransitive(MaxKey(pages[leaf].Item(o), n), Upper(pages[c], path[1]).key, pages[c].Item(P_HIKEY).key);
      }
    }
  }

  /** The bounds of an accepted tree hold if and only if they hold for the exposed downlinks. */
  lemma BoundedIff(pages: Pages, n: nat, root: Block, level: nat, chains: seq<seq<Block>>)
    requires Accepted(pages, n, root, level, chains)
    ensures AllBounded(pages, n, chains) <==> ExposedBounded(pages, n, chains)
  {
    if ExposedBounded(pages, n, chains) {
      forall l, i, first | 0 <= l < |chains| && 0 <= i < |chains[l]| && IsDownlink(pages, chains[l][i], first)
        ensures DownlinkBounded(pages, n, chains[l][i], first)
      {
        forall path, leaf, o |
          && path != [] && path[0] == first && Descends(pages, chains[l][i], path, leaf)
          && leaf in pages && pages[leaf].IsData(o) && HasUpper(pages[chains[l][i]], first)
          ensures Leq(MaxKey(pages[leaf].Item(o), n), Upper(pages[chains[l][i]], first).key)
        {
          LeafBelowUpper(pages, n, root, level, chains, l, i, path, leaf, o);
        }
      }
    }
  }

  /** Without downlinks to block 0 no downlink is exposed. */
  lemma LeadingIsNotExposed(pages: Pages, n: nat, root: Block, level: nat, chains: seq<seq<Block>>)
    requires Accepted(pages, n, root, level, chains) && AllLead(pages, chains)
    ensures NoneExposed(pages, chains)
  {
    forall l, i, o: nat | 0 <= l < |chains| && 0 <= i < |chains[l]| && IsDownlink(pages, chains[l][i], o)
      ensures !Exposed(pages, chains, l, i, o)
    {
      PageOnLevel(pages, n, root, level, chains, l, i);
      if l == 0 {
        LowestIsLeaf(pages, n, root, level, chains, i);
      } else {
        ChildOnLevel(pages, n, root, level, chains, l, i, o);
        if o < pages[chains[l][i]].Max() {
          FollowingOnPage(pages, n, root, level, chains, l, i, o);
        } else if i + 1 < |chains[l]| {
          FollowingOnNext(pages, n, root, level, chains, l, i);
        }
      }
    }
  }

  lemma LowestIsLeaf(pages: Pages, n: nat, root: Block, level: nat, chains: seq<seq<Block>>, i: nat)
    requires Accepted(pages, n, root, level, chains) && AllLead(pages, chains) && i < |chains[0]|
    ensures chains[0][i] in pages && pages[chains[0][i]].leaf
  {
    PageOnLevel(pages, n, root, level, chains, 0, 0);
    PageOnLevel(pages, n, root, level, chains, 0, i);
    var p := pages[chains[0][0]];
    if !p.leaf { assert IsDownlink(pages, chains[0][0], p.FirstDataKey()); }
  }

  /** No step of the path goes through a negative-infinity downlink. */
  ghost predicate AllKeyed(pages: Pages, b: Block, path: seq<nat>)
    decreases |path|
  {
    path != [] && b in pages ==>
      && !pages[b].NegativeInfinity(path[0])
      && (pages[b].IsData(path[0]) ==> AllKeyed(pages, Child(pages[b], path[0]), path[1..]))
  }

  ghost predicate NoneOffLevel(pages: Pages, chains: seq<seq<Block>>) {
    forall l, i, o | 0 <= l < |chains| && 0 <= i < |chains[l]| && IsDownlink(pages, chains[l][i], o) ::
      !OffLevel(pages, chains, l, i, o)
  }

  /** Every leaf item reached through downlinks that have keys is greater than each of them. */
  lemma {:induction false} LeafAboveKey(
      pages: Pages, n: nat, root: Block, level: nat, chains: seq<seq<Block>>,
      l: nat, i: nat, path: seq<nat>, leaf: Block, o: nat)
    requires Accepted(pages, n, root, level, chains) && NoneOffLevel(pages, chains)
    requires l < |chains| && i < |chains[l]| && path != []
    requires Descends(pages, chains[l][i], path, leaf) && AllKeyed(pages, chains[l][i], path)
    requires leaf in pages && pages[leaf].IsData(o)
    ensures Less(pages[chains[l][i]].Item(path[0]).key, pages[leaf].Item(o).key)
    decreases l
  {
    var p := pages[chains[l][i]];
    assert IsDownlink(pages, chains[l][i], path[0]);
    assert !OffLevel(pages, chains, l, i, path[0]);
    var j := ChildIndex(pages, n, root, level, chains, l, i, path[0]);
    var c := chains[l - 1][j];
    if |path| > 1 {
      LeafAboveKey(pages, n, root, level, chains, l - 1, j, path[1..], leaf, o);
      LessTransitive(p.Item(path[0]).key, pages[c].Item(path[1]).key, pages[leaf].Item(o).key);
    }
  }

  // ---------------------------------------------------------------- what an accepting run means

  /** The check has seen the leaves if and only if following first downlinks from the root reaches one. */
  lemma SeesLeavesIff(pages: Pages, n: nat, root: Block, level: nat, chains: seq<seq<Block>>)
    requires Accepted(pages, n, root, level, chains)
    ensures |chains| == level + 1 <==> ReachesLeaf(pages, root, level)
  {
    FirstsReach(pages, n, root, level, chains, |chains| - 1);
  }

  lemma {:induction false} FirstsReach(pages: Pages, n: nat, root: Block, level: nat, chains: seq<seq<Block>>, j: nat)
    requires Accepted(pages, n, root, level, chains) && j < |chains| && chains[j] != []
    ensures Base(level, chains) == 0 <==> ReachesLeaf(pages, chains[j][0], Base(level, chains) + j)
  {
    PageOnLevel(pages, n, root, level, chains, j, 0);
    if j > 0 {
      assert StartsBelow(pages, chains, j);
      FirstsReach(pages, n, root, level, chains, j - 1);
    }
  }

  ghost predicate LeavesIncrease(pages: Pages, chain: seq<Block>) {
    forall i, o, j, o' |
      && 0 <= i <= j < |chain| && chain[i] in pages && chain[j] in pages
      && pages[chain[i]].IsData(o) && pages[chain[j]].IsData(o') && (i < j || o < o') ::
      Less(pages[chain[i]].Item(o).key, pages[chain[j]].Item(o').key)
  }

  lemma SeenLeavesIncrease(pages: Pages, n: nat, root: Block, level: nat, chains: seq<seq<Block>>)
    requires Accepted(pages, n, root, level, chains) && |chains| == level + 1 && NoEmptyLeaf(pages)
    ensures LeavesIncrease(pages, chains[0])
  {
    var chain := chains[0];
    assert LevelFits(false, pages, n, Base(level, chains) + 0, chain);
    forall i, o, j, o' |
      && 0 <= i <= j < |chain| && chain[i] in pages && chain[j] in pages
      && pages[chain[i]].IsData(o) && pages[chain[j]].IsData(o') && (i < j || o < o')
      ensures Less(pages[chain[i]].Item(o).key, pages[chain[j]].Item(o').key)
    {
      LeafItemsIncrease(pages, n, chain, i, o, j, o');
    }
  }

  /**
    `bt_index_parent_check`.  What acceptance means for a tree with nothing in flux: the levels seen
    fit; the leaves are among them, and then in order, exactly when first downlinks lead to one; the
    bounds of ancestors hold exactly when they do for exposed downlinks, and so if there are none.
   */
  method IndexParentCheck(pages: Pages, n: nat, root: Block, level: nat, limit: nat, ghost expected: seq<seq<Block>>)
    returns (r: Verdict, ghost chains: seq<seq<Block>>)
    requires root != P_NONE && limit > 0
    ensures r.Ok? && NoneInFlux(pages) ==>
              && Accepted(pages, n, root, level, chains)
              && (|chains| == level + 1 <==> ReachesLeaf(pages, root, level))
              && (ReachesLeaf(pages, root, level) && NoEmptyLeaf(pages) ==> LeavesIncrease(pages, chains[0]))
    ensures r.Ok? && NoneInFlux(pages) ==>
              && (AllBounded(pages, n, chains) <==> ExposedBounded(pages, n, chains))
              && (NoneExposed(pages, chains) ==> AllBounded(pages, n, chains))
              && (AllLead(pages, chains) ==> NoneExposed(pages, chains))
    ensures NoneInFlux(pages) && |pages| < limit && TopFits(true, pages, n, root, level, expected) ==> r.Ok?
  {
    var state := new BtreeCheckState(pages, n, limit);
    var ended;
    r, ended, chains := state.CheckEveryLevel(root, level, expected);
    if r.Ok? && NoneInFlux(pages) {
      SeesLeavesIff(pages, n, root, level, chains);
      if ReachesLeaf(pages, root, level) && NoEmptyLeaf(pages) { SeenLeavesIncrease(pages, n, root, level, chains); }
      BoundedIff(pages, n, root, level, chains);
      if AllLead(pages, chains) { LeadingIsNotExposed(pages, n, root, level, chains); }
    }
  }

  // ---------------------------------------------------------------- a downlink to block 0

  function Inner(prev: Block, next: Block, level: nat, root: bool, items: seq<IndexTuple>): BTPage {
    BTPage(prev, next, level, false, root, false, false, false, false, items)
  }

  /**
    Block 3 has one downlink, to block 0; leaf 4 holds a key above the pivot that should bound it.

    The tree is accepted, and the bound fails (`HoledIsAccepted`).
   */
  const HOLED: Pages := map[
    1 := Inner(0, 0, 2, true, [IndexTuple([], [], 2), IndexTuple([5], [], 3)]),
    2 := Inner(0, 3, 1, false, [IndexTuple([5], [], 0), IndexTuple([], [], 4)]),
    3 := Inner(2, 0, 1, false, [IndexTuple([], [], 0)]),
    4 := BTPage(0, 0, 0, true, false, false, false, false, false, [IndexTuple([9, 1], [], 0)])]

  const HOLED_LEVELS: seq<seq<Block>> := [[4], [2, 3], [1]]

  lemma HoledLeaf()
    ensures LevelFits(true, HOLED, 1, 0, [4])
  {
  }

  lemma HoledMiddle()
    ensures LevelFits(true, HOLED, 1, 1, [2, 3])
  {
    assert PageInLevel(true, HOLED, 1, 1, [2, 3], 0);
    assert PageInLevel(true, HOLED, 1, 1, [2, 3], 1);
  }

  lemma HoledRootItems(o: nat)
    requires 1 <= o <= 2
    ensures OffsetFits(true, HOLED, HOLED[1], 1, o, INVALID_BLOCK)
  {
  }

  lemma HoledRoot()
    ensures LevelFits(true, HOLED, 1, 2, [1])
  {
    HoledRootItems(1);
    HoledRootItems(2);
    OffsetsMakePage(true, HOLED, HOLED[1], 1, INVALID_BLOCK);
    assert PageInLevel(true, HOLED, 1, 2, [1], 0);
  }

  lemma HoledIsSteady()
    ensures NoneInFlux(HOLED) && NoEmptyLeaf(HOLED) && |HOLED| == 4
  {
    assert HOLED.Keys == {1, 2, 3, 4};
  }

  lemma HoledStarts()
    ensures StartsBelow(HOLED, HOLED_LEVELS, 1) && StartsBelow(HOLED, HOLED_LEVELS, 2)
    ensures HOLED[1].root && EndsAt(HOLED, 4)
  {
  }

  lemma HoledTree()
    ensures TreeFits(true, HOLED, 1, 1, 2, HOLED_LEVELS)
  {
    HoledLeaf();
    HoledMiddle();
    HoledRoot();
    HoledStarts();
    assert Base(2, HOLED_LEVELS) == 0;
    assert HOLED_LEVELS[0] == [4] && HOLED_LEVELS[1] == [2, 3] && HOLED_LEVELS[2] == [1];
    assert forall j | 0 <= j < 3 :: LevelFits(true, HOLED, 1, 0 + j, HOLED_LEVELS[j]);
  }

  /** The item of leaf 4 is greater than the pivot after the downlink that leads to it. */
  lemma HoledIsUnbounded()
    ensures Descends(HOLED, 1, [1, 2], 4) && !DownlinkBounded(HOLED, 1, 1, 1)
  {
    assert [1, 2][1..] == [2] && [2][1..] == [];
    assert Descends(HOLED, 4, [], 4) && Descends(HOLED, 2, [2], 4) && Descends(HOLED, 1, [1, 2], 4);
    assert HOLED[4].IsData(1) && HasUpper(HOLED[1], 1) && [1, 2][0] == 1;
    assert !Leq(MaxKey(HOLED[4].Item(1), 1), Upper(HOLED[1], 1).key);
  }

  method HoledIsAccepted() returns (r: Verdict)
    ensures r.Ok? && NoneInFlux(HOLED) && !DownlinkBounded(HOLED, 1, 1, 1)
  {
    HoledTree();
    HoledIsSteady();
    HoledIsUnbounded();
    ghost var chains;
    r, chains := IndexParentCheck(HOLED, 1, 1, 2, 5, HOLED_LEVELS);
  }

  /**
    The first downlink of the root is to block 0, and leaf 4 below the second one is out of order.
    The walk down ends at the root, so no leaf is ever verified: the tree is accepted, and the order
    fails (`UnreadIsAccepted`).
   */
  const UNREAD: Pages := map[
    1 := Inner(0, 0, 1, true, [IndexTuple([], [], 0), IndexTuple([5], [], 4)]),
    4 := BTPage(0, 0, 0, true, false, false, false, false, false, [IndexTuple([9, 1], [], 0), IndexTuple([7, 1], [], 0)])]

  lemma UnreadIsSteady()
    ensures NoneInFlux(UNREAD) && NoEmptyLeaf(UNREAD) && |UNREAD| == 2
  {
    assert UNREAD.Keys == {1, 4};
  }

  lemma UnreadItems(o: nat)
    requires 1 <= o <= 2
    ensures OffsetFits(true, UNREAD, UNREAD[1], 1, o, INVALID_BLOCK)
  {
  }

  lemma UnreadRoot()
    ensures LevelFits(true, UNREAD, 1, 1, [1])
  {
    UnreadItems(1);
    UnreadItems(2);
    OffsetsMakePage(true, UNREAD, UNREAD[1], 1, INVALID_BLOCK);
    assert PageInLevel(true, UNREAD, 1, 1, [1], 0);
  }

  lemma UnreadTree()
    ensures TopFits(true, UNREAD, 1, 1, 1, [[1]])
  {
    UnreadRoot();
  }

  lemma UnreadIsUnordered()
    ensures Descends(UNREAD, 1, [2], 4) && !ReachesLeaf(UNREAD, 1, 1) && !LeavesIncrease(UNREAD, [4])
  {
    assert [2][1..] == [] && Descends(UNREAD, 4, [], 4);
    assert UNREAD[4].IsData(1) && UNREAD[4].IsData(2) && [4][0] == 4;
    assert !Less(UNREAD[4].Item(1).key, UNREAD[4].Item(2).key);
  }

  method UnreadIsAccepted() returns (r: Verdict)
    ensures r.Ok? && NoneInFlux(UNREAD) && NoEmptyLeaf(UNREAD) && !LeavesIncrease(UNREAD, [4])
  {
    UnreadTree();
    UnreadIsSteady();
    UnreadIsUnordered();
    ghost var chains;
    r, chains := IndexParentCheck(UNREAD, 1, 1, 1, 3, [[1]]);
  }
}
