/**
  `bt_index_parent_check` on a version 4 index: the walk over every level with its checks of
  single pages, of sibling pages and of parent and child pages.

  `limit` bounds how many links one search may follow; a run that needs more would never end
  in the code, and reports `Endless` here.  Every contract holds whatever the limit is.
 */
module NbtreeCheck {
  import opened Results
  import opened NbtreeModel
  import opened NbtreeSpec

  datatype BtreeLevel = BtreeLevel(level: nat, leftmost: Block, isTrueRootLevel: bool)

  type Verdict = Result<(), Corruption>

  class BtreeCheckState {
    const pages: Pages
    const n: nat
    const limit: nat

    var targetblock: Block
    var target: BTPage
    var lowkey: Option<IndexTuple>
    var prevrightlink: Block
    var previncompletesplit: bool

    /** Every block that has been the target, in order. */
    ghost var targets: seq<Block>

    constructor (pages: Pages, n: nat, limit: nat)
      ensures this.pages == pages && this.n == n && this.limit == limit
      ensures targets == [] && lowkey == None && prevrightlink == INVALID_BLOCK && !previncompletesplit
    {
      this.pages, this.n, this.limit := pages, n, limit;
      targetblock, target := P_NONE, METAPAGE;
      lowkey, prevrightlink, previncompletesplit := None, INVALID_BLOCK, false;
      targets := [];
    }

    /** The target has been read and is not the metapage. */
    ghost predicate OnTarget()
      reads this
    {
      Loads(pages, targetblock) && target == pages[targetblock] && !target.deleted
    }

    /** Nothing in the index, and nothing remembered from it, is in flux. */
    ghost predicate Steady()
      reads this
    {
      NoneInFlux(pages) && !previncompletesplit && limit > 0
    }

    // ---------------------------------------------------------------- one item against its neighbours

    /** `bt_right_page_check_scankey`: the first item with a key on the page to the right. */
    method RightPageItem() returns (r: Result<Option<IndexTuple>, Corruption>)
      requires OnTarget()
      ensures target.Rightmost() ==> r == Ok(None)
      ensures !target.Rightmost() && Steady() ==>
                && (r.Ok? <==> Loads(pages, target.next))
                && (r.Ok? ==> r.value == FirstRealItem(pages[target.next]))
      ensures !target.Rightmost() && r.Ok? ==>
                exists k: nat :: SkipsTo(pages, target.next, k) && r.value == FirstRealItem(pages[RightN(pages, target.next, k)])
    {
      if target.Rightmost() { return Ok(None); }
      var next := target.next;
      var page := METAPAGE;
      for steps := 0 to limit
        invariant Steady() ==> next == target.next && (steps > 0 ==> Loads(pages, next) && page == pages[next])
        invariant steps > 0 ==> page.Ignore() && !page.Rightmost()
        invariant next != P_NONE && RightN(pages, target.next, steps) == next
        invariant forall j: nat | j < steps :: PassedOver(pages, RightN(pages, target.next, j))
      {
        page :- LoadPage(pages, next);
        if !page.Ignore() || page.Rightmost() {
          assert SkipsTo(pages, target.next, steps);
          return Ok(FirstRealItem(page));
        }
        RightNStep(pages, target.next, steps);
        next := page.next;
      }
      return Err(Endless);
    }

    /** The heap TIDs of a posting list are in order. */
    method PostingCheck(t: IndexTuple) returns (r: Verdict)
      ensures r.Ok? <==> TidsAscend(t, n)
    {
      if IsPosting(t, n) {
        var last := t.key[n];
        var tids := [t.key[n]] + t.more;
        for i := 0 to |t.more|
          invariant last == tids[i]
          invariant forall j | 0 < j <= i :: RisesAt(tids, j)
        {
          assert RisesAt(tids, i + 1) <==> last < t.more[i];
          if t.more[i] <= last { return Err(MisplacedTid); }
          last := t.more[i];
        }
      }
      return Ok(());
    }

    /** High key check, item order check and last item check for an item that has a key. */
    method KeyedItemCheck(offset: nat) returns (r: Verdict)
      requires OnTarget() && target.IsData(offset) && !target.NegativeInfinity(offset)
      requires AttributesFit(target, offset, n)
      requires target.Rightmost() || (target.Max() >= P_HIKEY && AttributesFit(target, P_HIKEY, n))
      ensures Steady() ==>
                (r.Ok? <==> ItemFits(target, offset, n) && (offset == target.Max() ==> SiblingFits(pages, target, n)))
    {
      var itup := target.Item(offset);
      var _ :- PostingCheck(itup);
      if !target.Rightmost() {
        var hikey := target.Item(P_HIKEY);
        InvariantsAreOrder(MaxKey(itup, n), hikey, n);
        InvariantsAreOrder(itup.key, hikey, n);
        if !(if target.leaf then InvariantLeq(MaxKey(itup, n), hikey, n) else InvariantLess(itup.key, hikey, n)) {
          return Err(HighKeyViolated);
        }
      }
      if offset < target.Max() {
        InvariantsAreOrder(itup.key, target.Item(offset + 1), n);
        if !InvariantLess(itup.key, target.Item(offset + 1), n) {
          return Err(ItemOrder);
        }
      } else {
        var right :- RightPageItem();
        if right.Some? && !InvariantGreater(right.value.key, itup, n) {
          return Err(CrossPageOrder);
        }
      }
      return Ok(());
    }

    // ---------------------------------------------------------------- downlinks

    /**
      `bt_downlink_missing_check`: a page without a downlink is tolerated after an interrupted
      split, at the root, or as the top of an interrupted deletion of a branch.
     */
    method DownlinkMissingCheck(rightsplit: bool, blkno: Block, page: BTPage) returns (r: Verdict)
      requires Loads(pages, blkno) && page == pages[blkno] && !page.Ignore()
      ensures r.Ok? <==> page.root || rightsplit || (!page.leaf && DyingBranch(pages, blkno))
      ensures NoneInFlux(pages) ==> (r.Ok? <==> page.root || rightsplit)
    {
      if page.root || rightsplit { return Ok(()); }
      if page.leaf { return Err(MissingDownlink); }
      var level := page.level;
      var childblk := Child(page, page.FirstDataKey());
      var child := METAPAGE;
      var descending := true;
      ghost var k := 1;
      ghost var last: nat := 0;
      if d: nat :| DiesAt(pages, blkno, d) { last := d; }
      FirstNStep(pages, blkno, 0);
      while descending
        invariant !descending ==> LoadPage(pages, childblk) == Ok(child) && child.leaf
        invariant k > 0 && FirstN(pages, blkno, k) == childblk && level == page.level - (k - 1)
        invariant forall j: nat | 0 < j < k :: InnerOn(pages, FirstN(pages, blkno, j), page.level - j)
        invariant last > 0 ==> DiesAt(pages, blkno, last) && k <= last
        invariant last > 0 && !descending ==> k == last
        invariant last == 0 ==> !DyingBranch(pages, blkno)
        decreases if descending then level + 1 else 0
      {
        child :- LoadPage(pages, childblk);
        if child.leaf {
          descending := false;
        } else {
          if child.level + 1 != level || child.Max() < child.FirstDataKey() { return Err(BadLevel); }
          level := child.level;
          FirstNStep(pages, blkno, k);
          childblk, k := Child(child, child.FirstDataKey()), k + 1;
        }
      }
      if child.deleted { return Err(DeletedBlock); }
      if child.halfDead && !child.Rightmost() && child.Item(P_HIKEY).downlink == blkno {
        assert DiesAt(pages, blkno, k);
        return Ok(());
      }
      return Err(MissingDownlink);
    }

    /** The key of the target level that the high key of a child page must repeat. */
    method MatchingPivot(offset: nat) returns (r: Result<IndexTuple, Corruption>)
      requires OnTarget() && !target.leaf
      ensures 1 <= offset <= target.Max() && !target.NegativeInfinity(offset) ==> r == Ok(target.Item(offset))
      ensures target.NegativeInfinity(offset) ==> r == if lowkey.Some? then Ok(lowkey.value) else Err(NoLeftHighKey)
      ensures offset > target.Max() ==> r == if target.Rightmost() then Err(KeyMismatch) else Ok(target.Item(P_HIKEY))
      ensures offset == 0 ==> r.Err?
    {
      if target.NegativeInfinity(offset) {
        // the page to check belongs below the left sibling of the target
        return if lowkey.Some? then Ok(lowkey.value) else Err(NoLeftHighKey);
      }
      if offset > target.Max() {
        return if target.Rightmost() then Err(KeyMismatch) else Ok(target.Item(P_HIKEY));
      }
      if offset == 0 {
        return Err(KeyMismatch);       // there is no line pointer at offset 0
      }
      return Ok(target.Item(offset));
    }

    /** Tests of one page met while moving right on the child level, but for its high key. */
    method ChildPageCheck(blkno: Block, downlink: Block, first: bool, rightsplit: bool)
      returns (r: Result<BTPage, Corruption>)
      requires OnTarget() && !target.leaf && blkno != P_NONE
      ensures r.Ok? ==>
                && Loads(pages, blkno) && r.value == pages[blkno]
                && (first && prevrightlink == INVALID_BLOCK ==> r.value.Leftmost())
                && (!r.value.deleted ==> r.value.level == target.level - 1)
                && blkno != r.value.prev
      ensures (&& Loads(pages, blkno) && first && blkno == downlink
               && (prevrightlink == INVALID_BLOCK ==> pages[blkno].Leftmost())
               && pages[blkno].level == target.level - 1 && blkno != pages[blkno].prev) ==> r.Ok?
    {
      var page :- LoadPage(pages, blkno);
      if first && prevrightlink == INVALID_BLOCK && !page.Leftmost() {
        return Err(NotLeftmost);
      }
      if (!page.deleted || page.fullXid) && page.level != target.level - 1 {
        return Err(BadLevel);
      }
      if (!first && blkno == prevrightlink) || blkno == page.prev {
        return Err(CircularLink);
      }
      if blkno != downlink && !page.Ignore() {
        var _ :- DownlinkMissingCheck(rightsplit, blkno, page);
      }
      return Ok(page);
    }

    /** One page of the walk in `bt_child_highkey_check`: the tests above, and that its high key repeats a pivot. */
    method HighkeyPageCheck(offset: nat, blkno: Block, downlink: Block, first: bool, rightsplit: bool)
      returns (r: Result<BTPage, Corruption>)
      requires OnTarget() && !target.leaf && (offset == 0 || target.IsData(offset)) && blkno != P_NONE
      requires offset > 0 ==> downlink == Child(target, offset)
      ensures r.Ok? ==>
                && Loads(pages, blkno) && r.value == pages[blkno]
                && (first && prevrightlink == INVALID_BLOCK ==> r.value.Leftmost())
      ensures r.Ok? && offset > 0 && blkno == downlink && !r.value.deleted && !r.value.incompleteSplit ==>
                ChildFits(pages, target, offset)
      ensures (&& offset > 0 && first && blkno == downlink && ChildFits(pages, target, offset)
               && (prevrightlink == INVALID_BLOCK ==> pages[blkno].Leftmost())) ==> r.Ok?
    {
      var page :- ChildPageCheck(blkno, downlink, first, rightsplit);
      if !page.incompleteSplit && !page.Rightmost() {
        if page.Max() < P_HIKEY { return Err(TooFewItems); }
        var pivot :- MatchingPivot(if blkno == downlink then offset + 1 else offset);
        if !SamePivot(page.Item(P_HIKEY), pivot) { return Err(KeyMismatch); }
      }
      return Ok(page);
    }

    /** `bt_child_highkey_check` for the downlink at `offset`, or at the end of the level for offset 0. */
    method ChildHighkeyCheck(offset: nat) returns (r: Verdict)
      requires OnTarget() && !target.leaf && (offset == 0 || target.IsData(offset))
      modifies this`prevrightlink, this`previncompletesplit
      ensures offset > 0 && r.Ok? && Child(target, offset) != P_NONE ==>
                var d := Child(target, offset);
                && Loads(pages, d) && Reaches(pages, StartOf(target, offset, old(prevrightlink)), d)
                && prevrightlink == pages[d].next && previncompletesplit == pages[d].incompleteSplit
      ensures old(Steady()) && r.Ok? ==> Steady()
      ensures old(Steady()) && offset > 0 && r.Ok? ==>
                && DownlinkFits(false, pages, target, offset, old(prevrightlink))
                && prevrightlink == RightAfter(pages, target, offset)
      ensures old(Steady()) && offset > 0 && DownlinkFits(true, pages, target, offset, old(prevrightlink)) ==> r.Ok?
      ensures old(Steady()) && offset == 0 && r.Ok? ==> prevrightlink == INVALID_BLOCK
      ensures offset == 0 && (old(prevrightlink) == INVALID_BLOCK || old(prevrightlink) == P_NONE) && limit > 0 ==> r.Ok?
    {
      var blkno := prevrightlink;
      var rightsplit := previncompletesplit;
      var downlink := if offset > 0 then Child(target, offset) else P_NONE;
      if blkno == INVALID_BLOCK {
        blkno := downlink;
        rightsplit := false;
      }
      ghost var start := blkno;
      for steps := 0 to limit
        invariant unchanged(`prevrightlink) && unchanged(`previncompletesplit)
        invariant RightN(pages, start, steps) == blkno
        invariant old(Steady()) ==> !rightsplit
        invariant steps > 0 ==> start != P_NONE && (old(Steady()) ==> start != downlink)
        invariant steps > 0 ==> prevrightlink != INVALID_BLOCK
      {
        if blkno == P_NONE {
          if downlink == P_NONE {
            prevrightlink, previncompletesplit := INVALID_BLOCK, false;
            return Ok(());
          }
          return Err(CantTraverse);
        }
        var page :- HighkeyPageCheck(offset, blkno, downlink, steps == 0, rightsplit);
        rightsplit := page.incompleteSplit;
        if blkno == downlink {
          prevrightlink, previncompletesplit := page.next, rightsplit;
          return Ok(());
        }
        RightNStep(pages, start, steps);
        blkno := page.next;
      }
      return Err(Endless);
    }

    /** `bt_child_check`: the keys on the child are greater than the key of its downlink. */
    method ChildCheck(offset: nat) returns (r: Verdict)
      requires OnTarget() && !target.leaf && target.IsData(offset)
      modifies this`prevrightlink, this`previncompletesplit
      ensures old(Steady()) && r.Ok? ==>
                && Steady()
                && DownlinkFits(false, pages, target, offset, old(prevrightlink))
                && ChildAbove(pages, target, offset, n)
                && prevrightlink == RightAfter(pages, target, offset)
      ensures (&& old(Steady()) && DownlinkFits(true, pages, target, offset, old(prevrightlink))
               && ChildAbove(pages, target, offset, n)) ==> r.Ok?
    {
      var key := target.Item(offset).key;
      var child :- LoadPage(pages, Child(target, offset));
      var _ :- ChildHighkeyCheck(offset);
      if child.deleted { return Err(DeletedBlock); }
      if Child(target, offset) == P_NONE {
        return Err(BadLinePointer);    // the second word of the metapage is its version
      }
      for o := child.FirstDataKey() to child.Max() + 1
        modifies {}
        invariant forall o' | child.FirstDataKey() <= o' < o && !child.NegativeInfinity(o') :: Less(key, child.Item(o').key)
      {
        if !child.NegativeInfinity(o) {
          InvariantsAreOrder(key, child.Item(o), n);
          if !InvariantLess(key, child.Item(o), n) { return Err(LowerBound); }
        }
      }
      return Ok(());
    }

    // ---------------------------------------------------------------- the target page

    /** The right link remembered is the one that belongs to this offset. */
    ghost predicate AtOffset(offset: nat, first: Block)
      requires target.IsData(offset)
      reads this
    {
      Steady() && (!target.leaf ==> prevrightlink == RightBefore(pages, target, offset, first))
    }

    method ItemCheck(offset: nat, ghost first: Block) returns (r: Verdict)
      requires OnTarget() && target.IsData(offset)
      requires target.Rightmost() || (target.Max() >= P_HIKEY && AttributesFit(target, P_HIKEY, n))
      modifies this`prevrightlink, this`previncompletesplit
      ensures old(AtOffset(offset, first)) && r.Ok? ==>
                && Steady() && OffsetFits(false, pages, target, n, offset, first)
                && (if target.leaf then prevrightlink == old(prevrightlink)
                    else prevrightlink == RightAfter(pages, target, offset))
      ensures old(AtOffset(offset, first)) && OffsetFits(true, pages, target, n, offset, first) ==> r.Ok?
    {
      if !AttributesFit(target, offset, n) {
        return Err(WrongAttributes);
      }
      if target.NegativeInfinity(offset) {
        r := ChildHighkeyCheck(offset);
        return;
      }
      var _ :- KeyedItemCheck(offset);
      if !target.leaf {
        var _ :- ChildCheck(offset);
      }
      return Ok(());
    }

    /** `bt_target_page_check` */
    method TargetPageCheck() returns (r: Verdict)
      requires OnTarget()
      modifies this`prevrightlink, this`previncompletesplit
      ensures old(Steady()) && r.Ok? ==>
                && Steady() && PageFits(pages, target, n)
                && DownlinksFit(false, pages, target, n, old(prevrightlink))
                && (target.leaf ==> prevrightlink == old(prevrightlink))
                && (!target.leaf && !target.Rightmost() ==> prevrightlink == RightAfter(pages, target, target.Max()))
      ensures (&& old(Steady()) && PageFits(pages, target, n) && LevelBelowEnds(pages, target)
               && DownlinksFit(true, pages, target, n, old(prevrightlink))) ==> r.Ok?
    {
      ghost var first := prevrightlink;
      if !target.Rightmost() && !AttributesFit(target, P_HIKEY, n) {
        return Err(WrongAttributes);
      }
      for o := target.FirstDataKey() to target.Max() + 1
        invariant old(Steady()) ==> Steady()
        invariant old(Steady()) ==> forall o' | target.FirstDataKey() <= o' < o :: OffsetFits(false, pages, target, n, o', first)
        invariant old(Steady()) && target.leaf ==> prevrightlink == first
        invariant old(Steady()) && !target.leaf ==>
                    prevrightlink == if o == target.FirstDataKey() then first else RightAfter(pages, target, o - 1)
      {
        OffsetsMakePage(true, pages, target, n, first);
        var _ :- ItemCheck(o, first);
      }
      OffsetsMakePage(false, pages, target, n, first);
      if !target.leaf && target.Rightmost() {
        var _ :- ChildHighkeyCheck(0);
      }
      return Ok(());
    }

    // ---------------------------------------------------------------- one level

    /** What the next call for the level below starts from, as read off the first page of a level. */
    static function LevelBelow(page: BTPage): BtreeLevel
      requires !page.leaf ==> page.level > 0 && page.FirstDataKey() <= page.Max()
    {
      if page.leaf then BtreeLevel(0, P_NONE, false)
      else BtreeLevel(page.level - 1, Child(page, page.FirstDataKey()), false)
    }

    /** The page that becomes the target is a page of the level, to the right of the previous target. */
    ghost predicate Admitted(level: BtreeLevel, current: Block, leftcurrent: Block, first: bool) {
      && Loads(pages, current)
      && pages[current].prev == leftcurrent && pages[current].level == level.level
      && (first ==> pages[current].Leftmost() && (level.isTrueRootLevel ==> pages[current].root))
    }

    /** One turn of the loop of `bt_check_level_from_leftmost`; `chain` lists the targets before this one. */
    method VisitPage(level: BtreeLevel, current: Block, leftcurrent: Block, below: BtreeLevel, ghost chain: seq<Block>)
      returns (r: Result<BtreeLevel, Corruption>, ghost visited: bool)
      requires current != P_NONE && (NoHalfDead(pages) ==> leftcurrent == if chain == [] then P_NONE else chain[|chain| - 1])
      modifies this
      ensures r.Ok? ==> Loads(pages, current) && target == pages[current]
      ensures targets == if visited then old(targets) + [current] else old(targets)
      ensures visited ==> Admitted(level, current, leftcurrent, below.leftmost == INVALID_BLOCK)
      ensures r.Ok? && NoHalfDead(pages) ==>
                && visited && !target.deleted
                && r.value == if below.leftmost == INVALID_BLOCK then LevelBelow(target) else below
      ensures r.Ok? ==> r.value == below || r.value.leftmost == P_NONE || r.value.level < level.level
      ensures old(Steady()) && old(prevrightlink) == RightAtPage(pages, chain, |chain|) && r.Ok? ==>
                && Steady() && PageAfterLeft(false, pages, n, level.level, chain + [current], |chain|)
                && (!target.Rightmost() && (target.leaf ==> prevrightlink == INVALID_BLOCK) ==>
                      prevrightlink == RightAtPage(pages, chain + [current], |chain| + 1))
                && (target.leaf <==> level.level == 0) && (target.leaf ==> prevrightlink == old(prevrightlink))
      ensures (&& old(Steady()) && old(prevrightlink) == RightAtPage(pages, chain, |chain|)
               && Admitted(level, current, leftcurrent, below.leftmost == INVALID_BLOCK)
               && current != leftcurrent
               && PageAfterLeft(true, pages, n, level.level, chain + [current], |chain|)) ==> r.Ok?
    {
      assert RightAtPage(pages, chain + [current], |chain|) == RightAtPage(pages, chain, |chain|);
      visited := false;
      var next := below;
      var load := LoadPage(pages, current);
      if load.Err? { return Err(load.error), false; }
      var page := load.value;
      targetblock, target := current, page;
      if page.Ignore() {
        if page.deleted { return Err(DeletedBlock), false; }
        if page.Rightmost() { return Err(FellOffEnd), false; }
      } else {
        if below.leftmost == INVALID_BLOCK {
          if !page.Leftmost() { return Err(NotLeftmost), false; }
          if level.isTrueRootLevel && !page.root { return Err(NotRoot), false; }
          next := LevelBelow(page);
        }
        if page.prev != leftcurrent { return Err(SiblingLinks), false; }
        if page.level != level.level { return Err(BadLevel), false; }
        targets, visited := targets + [current], true;
        var check := TargetPageCheck();
        if check.Err? { return Err(check.error), visited; }
      }
      if current == leftcurrent || current == page.prev { return Err(CircularLink), visited; }
      lowkey := if page.Rightmost() then None else Some(page.Item(P_HIKEY));
      return Ok(next), visited;
    }

    /** The start of a level is where the caller expects it, and the level is as it should be. */
    ghost predicate Expected(level: BtreeLevel, chain: seq<Block>) {
      && LevelFits(true, pages, n, level.level, chain) && chain[0] == level.leftmost && chain[0] in pages
      && (level.isTrueRootLevel ==> pages[chain[0]].root)
    }

    /** A block that has been the target on this level. */
    ghost predicate WalkedAt(level: BtreeLevel, chain: seq<Block>, i: nat)
      requires i < |chain|
    {
      && BackLinkedAt(pages, chain, i) && pages[chain[i]].level == level.level
      && (i + 1 < |chain| ==> pages[chain[i]].next == chain[i + 1])
    }

    ghost predicate AllWalked(level: BtreeLevel, chain: seq<Block>) {
      forall i | 0 <= i < |chain| :: WalkedAt(level, chain, i)
    }

    /** How far the walk along a level has come. */
    ghost predicate Walked(level: BtreeLevel, chain: seq<Block>, leftcurrent: Block, current: Block, below: BtreeLevel) {
      && AllWalked(level, chain)
      && if chain == [] then
           leftcurrent == P_NONE && current == level.leftmost && below.leftmost == INVALID_BLOCK
         else
           && leftcurrent == chain[|chain| - 1]
           && leftcurrent in pages && current == pages[leftcurrent].next
           && chain[0] == level.leftmost && Loads(pages, chain[0]) && !pages[chain[0]].deleted
           && (level.isTrueRootLevel ==> pages[chain[0]].root)
           && below == LevelBelow(pages[chain[0]])
    }

    /** The blocks of a walk are distinct and on one level. */
    lemma WalkedDistinct(level: BtreeLevel, chain: seq<Block>)
      requires AllWalked(level, chain)
      ensures OneLevel(level, chain)
    {
      forall i | 0 <= i < |chain|
        ensures BackLinkedAt(pages, chain, i) && pages[chain[i]].level == level.level
      {
        assert WalkedAt(level, chain, i);
      }
      BackLinkedIsDistinct(pages, chain);
    }

    /** An admitted page makes the walk one block longer. */
    lemma AdmittedExtends(level: BtreeLevel, chain: seq<Block>, leftcurrent: Block, current: Block, below: BtreeLevel)
      requires Walked(level, chain, leftcurrent, current, below)
      requires Admitted(level, current, leftcurrent, below.leftmost == INVALID_BLOCK)
      ensures AllWalked(level, chain + [current])
      ensures !pages[current].deleted ==>
                Walked(level, chain + [current], current, pages[current].next,
                       if below.leftmost == INVALID_BLOCK then LevelBelow(pages[current]) else below)
    {
      var more := chain + [current];
      forall i | 0 <= i < |more|
        ensures WalkedAt(level, more, i)
      {
        if i < |chain| { assert WalkedAt(level, chain, i); }
      }
      if chain != [] { assert WalkedAt(level, chain, |chain| - 1); }
    }

    /** What a whole level that passed gives. */
    ghost predicate LevelPassed(level: BtreeLevel, chain: seq<Block>, below: BtreeLevel) {
      && LevelFits(false, pages, n, level.level, chain) && chain[0] == level.leftmost && chain[0] in pages
      && (level.isTrueRootLevel ==> pages[chain[0]].root)
      && (!pages[chain[0]].leaf ==> pages[chain[0]].level > 0 && pages[chain[0]].FirstDataKey() <= pages[chain[0]].Max())
      && below == LevelBelow(pages[chain[0]])
    }

    /** A walk that has come to a rightmost page has seen the level. */
    lemma WalkedWhole(level: BtreeLevel, chain: seq<Block>, last: Block, right: Block, below: BtreeLevel)
      requires Checked(level, chain, right) && PageAfterLeft(false, pages, n, level.level, chain + [last], |chain|)
      requires Walked(level, chain + [last], last, P_NONE, below)
      ensures LevelPassed(level, chain + [last], below)
    {
      var whole := chain + [last];
      ExtendChain(false, pages, n, level.level, chain, last);
      forall i | 0 <= i < |whole|
        ensures PageInLevel(false, pages, n, level.level, whole, i)
      {
        assert WalkedAt(level, whole, i) && PageAfterLeft(false, pages, n, level.level, whole, i);
      }
    }

    /** A level that is as it should be leads to the level below. */
    lemma ExpectedBelow(level: BtreeLevel, expected: seq<Block>)
      requires NoneInFlux(pages) && Expected(level, expected)
      ensures var p := pages[expected[0]];
              && Loads(pages, expected[0]) && p.Leftmost() && p.level == level.level
              && (!p.leaf ==> p.level > 0 && p.FirstDataKey() <= p.Max())
              && LevelBelow(p).leftmost != INVALID_BLOCK
    {
      assert PageInLevel(true, pages, n, level.level, expected, 0);
      var p := pages[expected[0]];
      if !p.leaf {
        assert DownlinkFits(true, pages, p, p.FirstDataKey(), RightBefore(pages, p, p.FirstDataKey(), INVALID_BLOCK));
      }
    }

    /** On a level that is as it should be, the next page is admitted and is the expected one. */
    lemma NextExpected(
        level: BtreeLevel, expected: seq<Block>, chain: seq<Block>, leftcurrent: Block, current: Block, below: BtreeLevel)
      requires NoneInFlux(pages) && Expected(level, expected)
      requires |chain| < |expected| && chain == expected[..|chain|] && Walked(level, chain, leftcurrent, current, below)
      ensures current == expected[|chain|] && current != leftcurrent
      ensures below.leftmost == INVALID_BLOCK <==> chain == []
      ensures Admitted(level, current, leftcurrent, chain == [])
      ensures PageAfterLeft(true, pages, n, level.level, chain + [current], |chain|)
      ensures pages[current].next == if |chain| + 1 == |expected| then P_NONE else expected[|chain| + 1]
      ensures pages[current].Rightmost() ==> |chain| + 1 == |expected|
      ensures expected[0] in pages && LevelBelow(pages[expected[0]]).leftmost != INVALID_BLOCK
    {
      var k := |chain|;
      ExpectedBelow(level, expected);
      assert PageInLevel(true, pages, n, level.level, expected, k);
      assert k + 1 < |expected| ==> PageInLevel(true, pages, n, level.level, expected, k + 1);
      assert k > 0 ==> PageInLevel(true, pages, n, level.level, expected, k - 1);
      assert RightAtPage(pages, expected, k) == RightAtPage(pages, chain + [current], k);
      LevelIsBackLinked(true, pages, n, level.level, expected);
      if k > 0 { NeverBack(pages, expected, k - 1, k); }
    }

    /** Where the walk along a level stands before it reads the next page. */
    ghost predicate Walking(
        level: BtreeLevel, expected: seq<Block>, chain: seq<Block>, leftcurrent: Block, current: Block, below: BtreeLevel)
      reads this
    {
      && (NoHalfDead(pages) ==> Walked(level, chain, leftcurrent, current, below))
      && (NoneInFlux(pages) && limit > 0 ==> Steady() && Checked(level, chain, prevrightlink))
      && (NoneInFlux(pages) && Expected(level, expected) ==> |chain| < |expected| && chain == expected[..|chain|])
    }

    /** The pages of the walk fit, and the right link remembered is the one that belongs behind them. */
    ghost predicate Checked(level: BtreeLevel, chain: seq<Block>, right: Block) {
      && right == RightAtPage(pages, chain, |chain|)
      && (level.level == 0 ==> right == INVALID_BLOCK)
      && ChainFits(false, pages, n, level.level, chain)
    }

    /** One page more keeps the walk on the expected pages. */
    lemma ExpectedGoesOn(
        level: BtreeLevel, expected: seq<Block>, chain: seq<Block>, leftcurrent: Block, current: Block, below: BtreeLevel)
      requires NoneInFlux(pages) && Expected(level, expected) && Walked(level, chain, leftcurrent, current, below)
      requires |chain| < |expected| && chain == expected[..|chain|]
      ensures current in pages && (if pages[current].Rightmost() then chain + [current] == expected
                                   else |chain| + 1 < |expected| && chain + [current] == expected[..|chain| + 1])
    {
      NextExpected(level, expected, chain, leftcurrent, current, below);
    }

    lemma CheckedGoesOn(level: BtreeLevel, chain: seq<Block>, right: Block, current: Block, next: Block)
      requires Checked(level, chain, right) && PageAfterLeft(false, pages, n, level.level, chain + [current], |chain|)
      requires level.level == 0 ==> next == INVALID_BLOCK
      requires next == RightAtPage(pages, chain + [current], |chain| + 1)
      ensures Checked(level, chain + [current], next)
    {
      ExtendChain(false, pages, n, level.level, chain, current);
    }

    /** The blocks verified on a level: no block twice, and none of another level. */
    ghost predicate OneLevel(level: BtreeLevel, chain: seq<Block>) {
      && Distinct(chain) && |chain| <= |pages|
      && forall b | b in chain :: b in pages && pages[b].level == level.level
    }

    /** One page of the walk; `next` is what is to its right. */
    method WalkStep(
        level: BtreeLevel, ghost expected: seq<Block>, ghost chain: seq<Block>,
        leftcurrent: Block, current: Block, below: BtreeLevel)
      returns (r: Result<BtreeLevel, Corruption>, ghost more: seq<Block>)
      requires current != P_NONE && Walking(level, expected, chain, leftcurrent, current, below)
      modifies this
      ensures chain <= more && targets == old(targets) + more[|chain|..]
      ensures r.Ok? ==> r.value == below || r.value.leftmost == P_NONE || r.value.level < level.level
      ensures NoHalfDead(pages) ==> OneLevel(level, more) && (r.Ok? ==> |more| == |chain| + 1)
      ensures r.Ok? && !target.Rightmost() ==> Walking(level, expected, more, current, target.next, r.value)
      ensures r.Ok? && target.Rightmost() && NoneInFlux(pages) && limit > 0 && r.value.leftmost != INVALID_BLOCK ==>
                LevelPassed(level, more, r.value)
      ensures NoneInFlux(pages) && limit > 0 && Expected(level, expected) ==>
                r.Ok? && r.value.leftmost != INVALID_BLOCK && (target.Rightmost() ==> more == expected)
    {
      more := chain;
      if NoneInFlux(pages) && Expected(level, expected) {
        NextExpected(level, expected, chain, leftcurrent, current, below);
        ExpectedGoesOn(level, expected, chain, leftcurrent, current, below);
      }
      ghost var right := prevrightlink;
      ghost var visited;
      r, visited := VisitPage(level, current, leftcurrent, below, chain);
      if visited {
        more := chain + [current];
        if NoHalfDead(pages) { AdmittedExtends(level, chain, leftcurrent, current, below); }
      }
      if NoHalfDead(pages) { WalkedDistinct(level, more); }
      if NoneInFlux(pages) && limit > 0 && r.Ok? {
        if target.Rightmost() {
          WalkedWhole(level, chain, current, right, r.value);
        } else {
          CheckedGoesOn(level, chain, right, current, prevrightlink);
        }
      }
    }

    /**
      `bt_check_level_from_leftmost`: verify a level from left to right.

      `chain` is the list of the blocks verified.  `ended` is false when the walk itself
      went on for ever; that takes a half-dead page.
     */
    method CheckLevelFromLeftmost(level: BtreeLevel, ghost expected: seq<Block>)
      returns (r: Result<BtreeLevel, Corruption>, ended: bool, ghost chain: seq<Block>)
      requires level.leftmost != P_NONE
      modifies this
      ensures targets == old(targets) + chain
      ensures NoHalfDead(pages) ==> OneLevel(level, chain) && (|pages| < limit ==> ended)
      ensures r.Ok? ==> ended && (r.value.leftmost != P_NONE ==> r.value.level < level.level)
      ensures NoneInFlux(pages) && limit > 0 && r.Ok? ==> LevelPassed(level, chain, r.value)
      ensures NoneInFlux(pages) && |pages| < limit && Expected(level, expected) ==> r.Ok? && chain == expected
    {
      chain := [];
      ended := true;
      var leftcurrent, current := P_NONE, level.leftmost;
      var below := BtreeLevel(0, INVALID_BLOCK, false);
      prevrightlink, previncompletesplit := INVALID_BLOCK, false;
      for steps := 0 to limit
        invariant current != P_NONE && targets == old(targets) + chain
        invariant below.leftmost == INVALID_BLOCK || below.leftmost == P_NONE || below.level < level.level
        invariant NoHalfDead(pages) ==> |chain| == steps && OneLevel(level, chain)
        invariant Walking(level, expected, chain, leftcurrent, current, below)
      {
        r, chain := WalkStep(level, expected, chain, leftcurrent, current, below);
        if r.Err? { return; }
        below := r.value;
        leftcurrent, current := current, target.next;
        if current == P_NONE {
          lowkey := None;
          if below.leftmost == INVALID_BLOCK { r := Err(NoValidPages); }
          return;
        }
      }
      ended := false;
      r := Err(Endless);
    }

    // ---------------------------------------------------------------- every level

    /** How far the walk down the levels has come; `chains[0]` is the lowest level verified. */
    ghost predicate Descended(root: Block, level: nat, current: BtreeLevel, chains: seq<seq<Block>>) {
      var k := |chains|;
      && k <= level + 1
      && (forall j | 0 <= j < k :: LevelFits(false, pages, n, level - k + 1 + j, chains[j]))
      && (forall j | 0 < j < k :: StartsBelow(pages, chains, j))
      && if k == 0 then current == BtreeLevel(level, root, true)
         else
           && chains[k - 1] != [] && chains[k - 1][0] == root && root in pages && pages[root].root
           && chains[0] != [] && chains[0][0] in pages
           && var p := pages[chains[0][0]];
              && p.level == level - k + 1 && p.leaf == (p.level == 0)
              && (!p.leaf ==> p.FirstDataKey() <= p.Max()) && current == LevelBelow(p)
    }

    /** One more level verified. */
    lemma DescendStep(
        root: Block, level: nat, current: BtreeLevel, chains: seq<seq<Block>>, chain: seq<Block>, next: BtreeLevel)
      requires Descended(root, level, current, chains) && current.leftmost != P_NONE
      requires LevelPassed(current, chain, next) && NoneInFlux(pages)
      ensures Descended(root, level, next, [chain] + chains)
    {
      var more := [chain] + chains;
      assert PageInLevel(false, pages, n, current.level, chain, 0);
      forall j | 0 <= j < |more|
        ensures LevelFits(false, pages, n, level - |more| + 1 + j, more[j])
      {
        if j > 0 { assert LevelFits(false, pages, n, level - |chains| + 1 + (j - 1), chains[j - 1]); }
      }
      forall j | 0 < j < |more|
        ensures StartsBelow(pages, more, j)
      {
        if j > 1 { assert StartsBelow(pages, chains, j - 1); }
      }
    }

    /** A walk down that has come to its end has seen the levels that it can see. */
    lemma DescendedWhole(root: Block, level: nat, current: BtreeLevel, chains: seq<seq<Block>>)
      requires Descended(root, level, current, chains) && chains != [] && current.leftmost == P_NONE
      ensures TopFits(false, pages, n, root, level, chains)
    {
      forall j | 0 <= j < |chains|
        ensures LevelFits(false, pages, n, Base(level, chains) + j, chains[j])
      {
        assert LevelFits(false, pages, n, level - |chains| + 1 + j, chains[j]);
      }
    }

    /** A level of a tree that is as it should be. */
    lemma ExpectedLevel(root: Block, level: nat, expected: seq<seq<Block>>, current: BtreeLevel)
      requires TopFits(true, pages, n, root, level, expected) && NoneInFlux(pages)
      requires Base(level, expected) <= current.level <= level
      requires var j := current.level - Base(level, expected); expected[j] != [] && current.leftmost == expected[j][0]
      requires current.isTrueRootLevel ==> current.level == level
      ensures Expected(current, expected[current.level - Base(level, expected)])
      ensures var p, j := pages[current.leftmost], current.level - Base(level, expected);
              && (p.leaf <==> current.level == 0) && (!p.leaf ==> p.level > 0 && p.FirstDataKey() <= p.Max())
              && (if j == 0 then LevelBelow(p).leftmost == P_NONE
                  else && expected[j - 1] != [] && expected[j - 1][0] != P_NONE
                       && LevelBelow(p) == BtreeLevel(current.level - 1, expected[j - 1][0], false))
    {
      var base := Base(level, expected);
      var j := current.level - base;
      assert LevelFits(true, pages, n, base + j, expected[j]);
      assert PageInLevel(true, pages, n, base + j, expected[j], 0);
      if j > 0 {
        assert StartsBelow(pages, expected, j);
        assert LevelFits(true, pages, n, base + (j - 1), expected[j - 1]);
        assert PageInLevel(true, pages, n, base + (j - 1), expected[j - 1], 0);
      }
    }

    /** The next level is the one that a tree that is as it should be has there. */
    ghost predicate OnCourse(root: Block, level: nat, expected: seq<seq<Block>>, current: BtreeLevel) {
      current.leftmost != P_NONE ==>
        && |expected| <= level + 1 && Base(level, expected) <= current.level <= level
        && var j := current.level - Base(level, expected);
           && j < |expected| && expected[j] != [] && current.leftmost == expected[j][0]
           && (current.isTrueRootLevel ==> current.level == level)
    }

    /** The blocks verified so far: all different, and on higher levels than the one to come. */
    ghost predicate Above(blocks: seq<Block>, current: BtreeLevel) {
      && Distinct(blocks) && (forall b | b in blocks :: b in pages)
      && (current.leftmost != P_NONE ==> forall b | b in blocks :: pages[b].level > current.level)
    }

    lemma AboveJoin(blocks: seq<Block>, current: BtreeLevel, chain: seq<Block>, next: BtreeLevel)
      requires Above(blocks, current) && current.leftmost != P_NONE && OneLevel(current, chain)
      requires Distinct(blocks + chain) && (next.leftmost != P_NONE ==> next.level < current.level)
      ensures Above(blocks + chain, next)
    {
    }

    /** The tree is as it should be, and the bound on the walks is no matter. */
    ghost predicate Sound(root: Block, level: nat, expected: seq<seq<Block>>) {
      NoneInFlux(pages) && |pages| < limit && TopFits(true, pages, n, root, level, expected)
    }

    /** What is known when the level `current` is next. */
    ghost predicate Underway(
      root: Block, level: nat, expected: seq<seq<Block>>, current: BtreeLevel, chains: seq<seq<Block>>)
      reads this
    {
      && (current.leftmost != P_NONE ==> current.level <= level)
      && (NoHalfDead(pages) ==> Above(targets, current))
      && (NoneInFlux(pages) && limit > 0 ==> Descended(root, level, current, chains))
      && (Sound(root, level, expected) ==> OnCourse(root, level, expected, current))
    }

    /** One turn of the loop over the levels. */
    method OneLevelDown(
        root: Block, level: nat, ghost expected: seq<seq<Block>>, current: BtreeLevel, ghost chains: seq<seq<Block>>)
      returns (v: Result<BtreeLevel, Corruption>, ended: bool, ghost chain: seq<Block>)
      requires current.leftmost != P_NONE && Underway(root, level, expected, current, chains)
      modifies this
      ensures NoHalfDead(pages) ==> Distinct(targets) && (|pages| < limit ==> ended)
      ensures v.Ok? ==> ended && Underway(root, level, expected, v.value, [chain] + chains)
      ensures v.Ok? && v.value.leftmost != P_NONE ==> v.value.level < current.level
      ensures Sound(root, level, expected) ==> v.Ok?
    {
      ghost var want := [];
      if Sound(root, level, expected) {
        want := expected[current.level - Base(level, expected)];
        ExpectedLevel(root, level, expected, current);
      }
      v, ended, chain := CheckLevelFromLeftmost(current, want);
      if NoHalfDead(pages) {
        DistinctJoin(old(targets), chain);
        if v.Ok? { AboveJoin(old(targets), current, chain, v.value); }
      }
      if NoneInFlux(pages) && limit > 0 && v.Ok? { DescendStep(root, level, current, chains, chain, v.value); }
    }

    /** `bt_check_every_level`, with the root and its level as read from the metapage. */
    method CheckEveryLevel(root: Block, level: nat, ghost expected: seq<seq<Block>>)
      returns (r: Verdict, ended: bool, ghost chains: seq<seq<Block>>)
      requires targets == []
      modifies this
      ensures NoHalfDead(pages) ==> Distinct(targets) && (|pages| < limit ==> ended)
      ensures NoneInFlux(pages) && limit > 0 && root != P_NONE && r.Ok? ==> TopFits(false, pages, n, root, level, chains)
      ensures NoneInFlux(pages) && |pages| < limit && TopFits(true, pages, n, root, level, expected) ==> r.Ok?
      ensures root == P_NONE ==> r.Ok?
    {
      chains := [];
      ended := true;
      var current := BtreeLevel(level, root, true);
      while current.leftmost != P_NONE
        invariant ended && Underway(root, level, expected, current, chains)
        invariant root != P_NONE && chains == [] ==> current.leftmost != P_NONE
        decreases if current.leftmost == P_NONE then 0 else current.level + 1
      {
        var v: Result<BtreeLevel, Corruption>;
        ghost var chain;
        v, ended, chain := OneLevelDown(root, level, expected, current, chains);
        if v.Err? { return Err(v.error), ended, chains; }
        chains := [chain] + chains;
        current := v.value;
      }
      if NoneInFlux(pages) && limit > 0 && root != P_NONE { DescendedWhole(root, level, current, chains); }
      return Ok(()), ended, chains;
    }
  }
}
