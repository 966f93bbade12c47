/**
  What a verified B-tree looks like: the facts about one page, about one downlink, about
  one level and about the whole tree that an accepting run of the checker stands for.
 */
module NbtreeSpec {
  import opened Results
  import opened NbtreeModel

  // ---------------------------------------------------------------- reading a page

  /**
    What reading block 0 gives: an internal page on no level of the tree.  It has no tuples; its
    words are no line pointers, so that every test of an item with a key on it fails.
   */
  const METAPAGE := BTPage(P_NONE, P_NONE, 0, false, false, false, false, false, false, [])

  /** `palloc_btree_page`: read a block and sanity-check the page header. */
  function LoadPage(pages: Pages, b: Block): Result<BTPage, Corruption> {
    if b == P_NONE then Ok(METAPAGE)
    else if b !in pages then Err(NoSuchBlock)
    else
      var p := pages[b];
      if (!p.deleted || p.fullXid) && p.leaf != (p.level == 0) then Err(BadLevel)
      else if !p.leaf && !p.deleted && p.Max() < p.FirstDataKey() then Err(TooFewItems)
      else if p.leaf && !p.deleted && !p.Rightmost() && p.Max() < P_HIKEY then Err(TooFewItems)
      else if !p.leaf && p.halfDead then Err(HalfDeadInternal)
      else if p.fullXid && !p.deleted then Err(BadFlags)
      else if p.deleted && p.halfDead then Err(BadFlags)
      else Ok(p)
  }

  predicate Loads(pages: Pages, b: Block) { b != P_NONE && LoadPage(pages, b).Ok? }

  // ---------------------------------------------------------------- one page

  /** The number of attributes that a tuple at this place must have. */
  predicate AttributesFit(p: BTPage, offset: nat, n: nat)
    requires 1 <= offset <= p.Max()
  {
    var t := p.Item(offset);
    if p.leaf && offset >= p.FirstDataKey() then |t.key| == n + 1
    else if p.NegativeInfinity(offset) then t.key == []
    else t.more == [] && 1 <= |t.key| <= n + 1
  }

  predicate Ascending(s: seq<int>) { forall i | 0 < i < |s| :: RisesAt(s, i) }

  predicate RisesAt(s: seq<int>, i: nat)
    requires 0 < i < |s|
  {
    s[i - 1] < s[i]
  }

  predicate TidsAscend(t: IndexTuple, n: nat) {
    IsPosting(t, n) ==> Ascending([t.key[n]] + t.more)
  }

  /** An item with a key: below the high key, and below the next item of the page. */
  predicate ItemFits(p: BTPage, offset: nat, n: nat)
    requires p.IsData(offset) && (p.Rightmost() || p.Max() >= P_HIKEY)
  {
    var t := p.Item(offset);
    && TidsAscend(t, n)
    && (!p.Rightmost() ==> if p.leaf then Leq(MaxKey(t, n), p.Item(P_HIKEY).key)
                           else Less(t.key, p.Item(P_HIKEY).key))
    && (offset < p.Max() ==> Less(t.key, p.Item(offset + 1).key))
  }

  /** The first item with a key on a page, if there is one. */
  function FirstRealItem(p: BTPage): Option<IndexTuple> {
    var o := if p.leaf then p.FirstDataKey() else p.FirstDataKey() + 1;
    if o <= p.Max() then Some(p.Item(o)) else None
  }

  /** The last item of a page comes before the first item of its right sibling. */
  predicate SiblingFits(pages: Pages, p: BTPage, n: nat) {
    && !p.Rightmost() && p.IsData(p.Max()) && !p.NegativeInfinity(p.Max())
    ==>
    && Loads(pages, p.next)
    && var first := FirstRealItem(pages[p.next]);
       first.Some? ==> InvariantGreater(first.value.key, p.Item(p.Max()), n)
  }

  ghost predicate PageFits(pages: Pages, p: BTPage, n: nat) {
    && (p.Rightmost() || (p.Max() >= P_HIKEY && AttributesFit(p, P_HIKEY, n)))
    && (forall o | p.IsData(o) :: AttributesFit(p, o, n))
    && (forall o | p.IsData(o) && !p.NegativeInfinity(o) :: ItemFits(p, o, n))
    && SiblingFits(pages, p, n)
  }

  // ---------------------------------------------------------------- one downlink

  function Child(p: BTPage, offset: nat): Block
    requires 1 <= offset <= p.Max()
  {
    p.Item(offset).downlink
  }

  /** Keys below a downlink end at the next pivot, or at the page's high key, or nowhere. */
  predicate HasUpper(p: BTPage, offset: nat) { offset < p.Max() || !p.Rightmost() }

  function Upper(p: BTPage, offset: nat): IndexTuple
    requires 1 <= offset <= p.Max() && HasUpper(p, offset)
  {
    if offset < p.Max() then p.Item(offset + 1) else p.Item(P_HIKEY)
  }

  /** `bt_pivot_tuple_identical`: equal but for the block number. */
  predicate SamePivot(a: IndexTuple, b: IndexTuple) { a.key == b.key && a.more == b.more }

  /** The child is one level down and its high key is the upper end of the downlink. */
  predicate ChildFits(pages: Pages, p: BTPage, offset: nat)
    requires 1 <= offset <= p.Max()
  {
    var d := Child(p, offset);
    && Loads(pages, d)
    && pages[d].level == p.level - 1
    && d != pages[d].prev
    && (!pages[d].Rightmost() ==>
          && HasUpper(p, offset) && pages[d].Max() >= P_HIKEY
          && SamePivot(pages[d].Item(P_HIKEY), Upper(p, offset)))
  }

  /** Every key on the child is greater than the key of its downlink. */
  ghost predicate ChildAbove(pages: Pages, p: BTPage, offset: nat, n: nat)
    requires 1 <= offset <= p.Max()
  {
    var d := Child(p, offset);
    && Loads(pages, d)
    && var c := pages[d];
       && !c.deleted
       && forall o | c.IsData(o) && !c.NegativeInfinity(o) :: Less(p.Item(offset).key, c.Item(o).key)
  }

  /** The block `k` right links away. */
  function RightN(pages: Pages, b: Block, k: nat): Block
    decreases k
  {
    if k == 0 then b
    else if b in pages then RightN(pages, pages[b].next, k - 1)
    else P_NONE
  }

  lemma {:induction false} RightNStep(pages: Pages, b: Block, k: nat)
    requires RightN(pages, b, k) in pages
    ensures RightN(pages, b, k + 1) == pages[RightN(pages, b, k)].next
    decreases k
  {
    if k > 0 && b in pages { RightNStep(pages, pages[b].next, k - 1); }
  }

  ghost predicate Reaches(pages: Pages, b: Block, c: Block) { exists k: nat :: RightN(pages, b, k) == c }

  /** Right links from `b` lead over `k` ignorable pages to one that is not, or that is rightmost. */
  predicate SkipsTo(pages: Pages, b: Block, k: nat) {
    && Loads(pages, RightN(pages, b, k)) && !PassedOver(pages, RightN(pages, b, k))
    && forall j: nat | j < k :: PassedOver(pages, RightN(pages, b, j))
  }

  predicate PassedOver(pages: Pages, b: Block) { Loads(pages, b) && pages[b].Ignore() && !pages[b].Rightmost() }

  /** The block `k` first downlinks below. */
  function FirstN(pages: Pages, b: Block, k: nat): Block
    decreases k
  {
    if k == 0 then b
    else if b in pages && !pages[b].leaf && pages[b].IsData(pages[b].FirstDataKey())
    then FirstN(pages, Child(pages[b], pages[b].FirstDataKey()), k - 1)
    else P_NONE
  }

  lemma {:induction false} FirstNStep(pages: Pages, b: Block, k: nat)
    requires var c := FirstN(pages, b, k); c in pages && !pages[c].leaf && pages[c].IsData(pages[c].FirstDataKey())
    ensures var p := pages[FirstN(pages, b, k)]; FirstN(pages, b, k + 1) == Child(p, p.FirstDataKey())
    decreases k
  {
    if k > 0 && b in pages { FirstNStep(pages, Child(pages[b], pages[b].FirstDataKey()), k - 1); }
  }

  /** Block `b` is the top of a branch whose deletion was interrupted: a half-dead leaf below it says so. */
  ghost predicate DyingBranch(pages: Pages, b: Block) { exists k: nat :: DiesAt(pages, b, k) }

  /** First downlinks lead from `b` through inner pages, one level after the other, to that leaf. */
  ghost predicate DiesAt(pages: Pages, b: Block, k: nat) {
    && b in pages && k > 0 && HalfDeadLeafOf(pages, FirstN(pages, b, k), b)
    && forall j: nat | 0 < j < k :: InnerOn(pages, FirstN(pages, b, j), pages[b].level - j)
  }

  predicate InnerOn(pages: Pages, c: Block, level: int) {
    Loads(pages, c) && !pages[c].leaf && pages[c].level == level && pages[c].FirstDataKey() <= pages[c].Max()
  }

  predicate HalfDeadLeafOf(pages: Pages, leaf: Block, top: Block) {
    && Loads(pages, leaf) && pages[leaf].leaf && pages[leaf].halfDead && !pages[leaf].deleted && !pages[leaf].Rightmost()
    && pages[leaf].Max() >= P_HIKEY && pages[leaf].Item(P_HIKEY).downlink == top
  }

  /** Where the walk along the child level starts, given the right link remembered from the previous downlink. */
  function StartOf(p: BTPage, offset: nat, prevRight: Block): Block
    requires 1 <= offset <= p.Max()
  {
    if prevRight == INVALID_BLOCK then Child(p, offset) else prevRight
  }

  /**
    One downlink after another.  With `lockstep` the child is the very next page of its
    level; without it the child is only reachable by right links from there.
    A downlink to block 0 met at the end of the child level passes unnoticed.
   */
  ghost predicate DownlinkFits(lockstep: bool, pages: Pages, p: BTPage, offset: nat, prevRight: Block)
    requires 1 <= offset <= p.Max()
  {
    var d := Child(p, offset);
    var start := StartOf(p, offset, prevRight);
    || (d == P_NONE && (lockstep ==> start == P_NONE))
    || (&& ChildFits(pages, p, offset)
        && (prevRight == INVALID_BLOCK ==> pages[d].Leftmost())
        && start != P_NONE
        && (if lockstep then start == d else Reaches(pages, start, d)))
  }

  /** The right link remembered after a downlink has been followed. */
  function RightAfter(pages: Pages, p: BTPage, offset: nat): Block
    requires 1 <= offset <= p.Max()
  {
    var d := Child(p, offset);
    if d == P_NONE || d !in pages then INVALID_BLOCK else pages[d].next
  }

  /** The right link remembered before a downlink is followed; `first` is the one the page starts with. */
  function RightBefore(pages: Pages, p: BTPage, offset: nat, first: Block): Block
    requires p.IsData(offset)
  {
    if offset == p.FirstDataKey() then first else RightAfter(pages, p, offset - 1)
  }

  ghost predicate DownlinksFit(lockstep: bool, pages: Pages, p: BTPage, n: nat, first: Block) {
    !p.leaf ==>
      && (forall o | p.IsData(o) :: DownlinkFits(lockstep, pages, p, o, RightBefore(pages, p, o, first)))
      && (forall o | p.IsData(o) && !p.NegativeInfinity(o) :: ChildAbove(pages, p, o, n))
  }

  /** Nothing is left of the child level once the last downlink of the level is done. */
  predicate LevelBelowEnds(pages: Pages, p: BTPage) {
    !p.leaf && p.Rightmost() && p.IsData(p.Max()) ==>
      RightAfter(pages, p, p.Max()) == P_NONE || RightAfter(pages, p, p.Max()) == INVALID_BLOCK
  }

  /** All that concerns one item of a page. */
  ghost predicate OffsetFits(lockstep: bool, pages: Pages, p: BTPage, n: nat, offset: nat, first: Block)
    requires p.IsData(offset) && (p.Rightmost() || p.Max() >= P_HIKEY)
  {
    && AttributesFit(p, offset, n)
    && (!p.NegativeInfinity(offset) ==> ItemFits(p, offset, n))
    && (!p.NegativeInfinity(offset) && offset == p.Max() ==> SiblingFits(pages, p, n))
    && (!p.leaf ==>
          && DownlinkFits(lockstep, pages, p, offset, RightBefore(pages, p, offset, first))
          && (!p.NegativeInfinity(offset) ==> ChildAbove(pages, p, offset, n)))
  }

  /** A page fits, with its downlinks, as soon as each of its items does. */
  lemma OffsetsMakePage(lockstep: bool, pages: Pages, p: BTPage, n: nat, first: Block)
    requires p.Rightmost() || (p.Max() >= P_HIKEY && AttributesFit(p, P_HIKEY, n))
    ensures (forall o | p.IsData(o) :: OffsetFits(lockstep, pages, p, n, o, first))
            <==> PageFits(pages, p, n) && DownlinksFit(lockstep, pages, p, n, first)
  {
  }

  // ---------------------------------------------------------------- one level

  /** The right link remembered when the `i`-th page of a level becomes the target. */
  function RightAtPage(pages: Pages, chain: seq<Block>, i: nat): Block
    requires i <= |chain|
  {
    if i == 0 || chain[i - 1] !in pages then INVALID_BLOCK
    else
      var p := pages[chain[i - 1]];
      if p.leaf || !p.IsData(p.Max()) then INVALID_BLOCK else RightAfter(pages, p, p.Max())
  }

  /** A page of a level, whatever is to its right. */
  ghost predicate PageAfterLeft(lockstep: bool, pages: Pages, n: nat, level: nat, chain: seq<Block>, i: nat)
    requires i < |chain|
  {
    && Loads(pages, chain[i])
    && var p := pages[chain[i]];
       && p.level == level
       && p.prev == (if i == 0 then P_NONE else chain[i - 1])
       && PageFits(pages, p, n)
       && DownlinksFit(lockstep, pages, p, n, RightAtPage(pages, chain, i))
       && (lockstep ==> LevelBelowEnds(pages, p))
  }

  ghost predicate PageInLevel(lockstep: bool, pages: Pages, n: nat, level: nat, chain: seq<Block>, i: nat)
    requires i < |chain|
  {
    && PageAfterLeft(lockstep, pages, n, level, chain, i)
    && pages[chain[i]].next == if i + 1 == |chain| then P_NONE else chain[i + 1]
  }

  /** The pages of a level in the order of their right links. */
  ghost predicate LevelFits(lockstep: bool, pages: Pages, n: nat, level: nat, chain: seq<Block>) {
    chain != [] && forall i | 0 <= i < |chain| :: PageInLevel(lockstep, pages, n, level, chain, i)
  }

  ghost predicate ChainFits(lockstep: bool, pages: Pages, n: nat, level: nat, chain: seq<Block>) {
    forall i | 0 <= i < |chain| :: PageAfterLeft(lockstep, pages, n, level, chain, i)
  }

  /** A longer list of pages changes nothing for those already in it. */
  lemma ExtendChain(lockstep: bool, pages: Pages, n: nat, level: nat, chain: seq<Block>, b: Block)
    requires ChainFits(lockstep, pages, n, level, chain)
    requires PageAfterLeft(lockstep, pages, n, level, chain + [b], |chain|)
    ensures ChainFits(lockstep, pages, n, level, chain + [b])
  {
    forall i | 0 <= i < |chain|
      ensures PageAfterLeft(lockstep, pages, n, level, chain + [b], i)
    {
      assert PageAfterLeft(lockstep, pages, n, level, chain, i);
      assert RightAtPage(pages, chain + [b], i) == RightAtPage(pages, chain, i);
    }
  }

  // ---------------------------------------------------------------- the tree

  /** Level `l - 1` starts at the first downlink of level `l`. */
  predicate StartsBelow(pages: Pages, chains: seq<seq<Block>>, l: nat)
    requires 0 < l < |chains|
  {
    && chains[l - 1] != [] && chains[l] != [] && chains[l][0] in pages
    && var p := pages[chains[l][0]];
       p.IsData(p.FirstDataKey()) && chains[l - 1][0] == Child(p, p.FirstDataKey())
  }

  /** The level of the lowest list, when the highest is that of the root. */
  function Base(level: nat, chains: seq<seq<Block>>): nat
    requires |chains| <= level + 1
  {
    level + 1 - |chains|
  }

  /** The walk down ends here: at the leaves, or where the first downlink of a level is to block 0. */
  predicate EndsAt(pages: Pages, b: Block) {
    b in pages && var p := pages[b]; p.leaf || (p.IsData(p.FirstDataKey()) && Child(p, p.FirstDataKey()) == P_NONE)
  }

  /** The levels from the root down to where the walk ends; `chains[0]` is the lowest. */
  ghost predicate TopFits(lockstep: bool, pages: Pages, n: nat, root: Block, level: nat, chains: seq<seq<Block>>) {
    && 0 < |chains| <= level + 1
    && (forall j | 0 <= j < |chains| :: LevelFits(lockstep, pages, n, Base(level, chains) + j, chains[j]))
    && chains[|chains| - 1] != [] && chains[|chains| - 1][0] == root
    && root in pages && pages[root].root
    && (forall j | 0 < j < |chains| :: StartsBelow(pages, chains, j))
    && chains[0] != [] && EndsAt(pages, chains[0][0])
  }

  /** All levels: `chains[l]` lists the pages of level `l`, the leaves being level 0. */
  ghost predicate TreeFits(lockstep: bool, pages: Pages, n: nat, root: Block, level: nat, chains: seq<seq<Block>>) {
    TopFits(lockstep, pages, n, root, level, chains) && |chains| == level + 1
  }

  /** Following first downlinks from block `b`, `level` of them at most, comes to a leaf. */
  predicate ReachesLeaf(pages: Pages, b: Block, level: nat)
    decreases level
  {
    && b in pages
    && var p := pages[b];
       p.leaf || (level > 0 && p.IsData(p.FirstDataKey()) && ReachesLeaf(pages, Child(p, p.FirstDataKey()), level - 1))
  }

  // ---------------------------------------------------------------- assumptions

  /** No page is deleted, half-dead or incompletely split. */
  ghost predicate NoneInFlux(pages: Pages) {
    forall b | b in pages :: !pages[b].Ignore() && !pages[b].incompleteSplit
  }

  ghost predicate NoHalfDead(pages: Pages) { forall b | b in pages :: !pages[b].halfDead }

  ghost predicate NoEmptyLeaf(pages: Pages) {
    forall b | b in pages && pages[b].leaf :: pages[b].FirstDataKey() <= pages[b].Max()
  }

  // ---------------------------------------------------------------- no block twice

  lemma DistinctJoin(a: seq<Block>, b: seq<Block>)
    requires Distinct(a) && Distinct(b) && forall x | x in a :: x !in b
    ensures Distinct(a + b)
  {
    forall i, j | 0 <= i < j < |a + b|
      ensures (a + b)[i] != (a + b)[j]
    {
      if i < |a| <= j { assert a[i] in a && b[j - |a|] in b; }
    }
  }

  /** Every page of the list points back to the one before it. */
  predicate BackLinked(pages: Pages, chain: seq<Block>) {
    forall i | 0 <= i < |chain| :: BackLinkedAt(pages, chain, i)
  }

  predicate BackLinkedAt(pages: Pages, chain: seq<Block>, i: nat)
    requires i < |chain|
  {
    chain[i] in pages && pages[chain[i]].prev == if i == 0 then P_NONE else chain[i - 1]
  }

  lemma {:induction false} NeverBack(pages: Pages, chain: seq<Block>, i: nat, j: nat)
    requires BackLinked(pages, chain) && i < j < |chain|
    ensures chain[i] != chain[j]
    decreases i
  {
    assert BackLinkedAt(pages, chain, i) && BackLinkedAt(pages, chain, j) && BackLinkedAt(pages, chain, j - 1);
    if i > 0 { NeverBack(pages, chain, i - 1, j - 1); }
  }

  /** Left links that agree with the walk keep it from coming back to a page. */
  lemma BackLinkedIsDistinct(pages: Pages, chain: seq<Block>)
    requires BackLinked(pages, chain)
    ensures Distinct(chain) && |chain| <= |pages|
  {
    forall i, j | 0 <= i < j < |chain|
      ensures chain[i] != chain[j]
    {
      NeverBack(pages, chain, i, j);
    }
    forall i | 0 <= i < |chain|
      ensures chain[i] in pages
    {
      assert BackLinkedAt(pages, chain, i);
    }
    DistinctFits(chain, pages.Keys);
  }

  lemma LevelIsBackLinked(lockstep: bool, pages: Pages, n: nat, level: nat, chain: seq<Block>)
    requires LevelFits(lockstep, pages, n, level, chain)
    ensures BackLinked(pages, chain)
  {
    forall i | 0 <= i < |chain|
      ensures BackLinkedAt(pages, chain, i)
    {
      assert PageInLevel(lockstep, pages, n, level, chain, i);
    }
  }
}
