/** Lookup of a file offset in the extent tree of a file, through the pool of page buffers. */
module FileRead {
  import opened Layout
  import opened XTree
  import opened PageSearch
  import opened BufferPool

  const XTPAGEMAXSLOT := 256

  // t has at most h levels, and each page at most as many entries as fit on a disk page.
  ghost predicate FitsHeight(t: Tree, h: nat)
    decreases t
  {
    && h > 0 && |t.es| <= XTPAGEMAXSLOT - XTENTRYSTART
    && (t.Node? ==> forall i :: 0 <= i < |t.kids| ==> FitsHeight(t.kids[i], h - 1))
  }

  lemma PageCost(t: Tree, h: nat)
    requires FitsHeight(t, h)
    ensures Cost(|t.es|) <= 8
  {
    CostMonotone(|t.es|, 255);
    assert Cost(255) == 8;
  }

  /** The smaller of the caller's int32 length and an unsigned one. C compares the two as
      unsigned numbers, so a negative caller's length counts as a very large one. */
  function MinLen(xlen: int, len: int): int {
    if 0 <= xlen < len then xlen else len
  }

  /** What a caller of a lookup sees: whether it returned zero, and the out-parameters. */
  datatype Outcome = Outcome(found: bool, xaddr: int, xlen: int)

  /** A lookup of `xoff` in the tree `t`: it succeeds exactly when a leaf extent covers the
      offset or the search ends in a stale hit. It gives the disk block of the offset and the
      number of blocks from there to the end of its extent, both for the extent that a linear
      scan of all leaves finds. Without one the out-parameters keep their values. */
  ghost function LookupOutcome(t: Tree, xoff: int, xaddr0: int, xlen0: int): Outcome {
    match Scan(Flatten(t), xoff)
    case Some(e) => Outcome(true, e.addr + (xoff - e.off), MinLen(xlen0, e.len - (xoff - e.off)))
    case None => Outcome(StaleHit(t, xoff, false), xaddr0, xlen0)
  }

  /** `xlen` blocks of the file from `xoff` on lie one after the other from disk block `xaddr` on,
      in the extent that a scan finds, and the run is as long as it can be: it ends with that
      extent, unless the caller asked for no more. A negative length asks for everything. */
  ghost predicate IsRun(es: seq<Xad>, xoff: int, xaddr: int, xlen: int, asked: int) {
    match Scan(es, xoff)
    case None => false
    case Some(e) =>
      && (asked >= 0 ==> 0 <= xlen <= asked)
      && (asked != 0 ==> xlen > 0)
      && (forall block :: xoff <= block < xoff + xlen ==>
            Scan(es, block) == Some(e) && e.addr + (block - e.off) == xaddr + (block - xoff))
      && (xlen == asked || !e.Covers(xoff + xlen))
  }

  /** A lookup that finds an extent gives the longest such run. */
  lemma LookupGivesRun(t: Tree, hi: int, xoff: int, xaddr0: int, xlen0: int)
    requires WellFormed(t, 0, hi) && Scan(Flatten(t), xoff).Some?
    ensures var o := LookupOutcome(t, xoff, xaddr0, xlen0);
      o.found && IsRun(Flatten(t), xoff, o.xaddr, o.xlen, xlen0)
  {
    var es, xlen := Flatten(t), LookupOutcome(t, xoff, xaddr0, xlen0).xlen;
    LeavesSorted(t, 0, hi);
    ScanSound(es, xoff);
    var e := Scan(es, xoff).value;
    var i :| 0 <= i < |es| && es[i] == e;
    forall block | xoff <= block < xoff + xlen ensures Scan(es, block) == Some(e) {
      ScanHit(es, block, i);
    }
  }

  /** Where a search stands: the subtree it has come down to, the bounds of that subtree, the
      levels it may still have, and the comparisons made so far. */
  datatype Cursor = Cursor(cur: Tree, lo: int, hi: int, h: int, steps: nat) {
    function Child(i: nat, n: nat): Cursor
      requires cur.Node? && i < |cur.kids| == |cur.es|
    {
      Cursor(cur.kids[i], ChildLo(cur.es, lo, i), ChildHi(cur.es, hi, i), h - 1, steps + n)
    }
  }

  /** A search for `xoff` in `t`, at most `height` levels high, stands at the cursor `c`, whose
      root is the page `p`; `hit` says that the last comparison was equality. */
  ghost predicate Searching(vol: Volume, t: Tree, xoff: int, height: nat, p: XPage, c: Cursor, hit: bool) {
    && Stored(vol, p, c.cur) && WellFormed(c.cur, c.lo, c.hi) && c.lo <= xoff
    && Scan(Flatten(c.cur), xoff) == Scan(Flatten(t), xoff)
    && StaleHit(t, xoff, false) == StaleHit(c.cur, xoff, hit)
    && (FitsHeight(t, height) ==> c.h >= 0 && FitsHeight(c.cur, c.h) && c.steps + 8 * c.h <= 8 * height)
  }

  lemma StoredChild(vol: Volume, p: XPage, t: Tree, i: nat)
    requires Stored(vol, p, t) && t.Node? && i < |t.es|
    ensures p.xad[XTENTRYSTART + i] == t.es[i] && vol.HasPage(t.es[i].addr)
    ensures |t.kids| == |t.es| && Stored(vol, vol.XPageAt(t.es[i].addr), t.kids[i])
  {
    assert p.xad[XTENTRYSTART..p.nextindex][i] == t.es[i];
  }

  // One step down the tree, through the entry that the search of the page settled on.
  lemma SearchChild(vol: Volume, t: Tree, xoff: int, height: nat, p: XPage, c: Cursor, was: bool, i: int, n: nat)
    requires Searching(vol, t, xoff, height, p, c, was) && c.cur.Node?
    requires i == Rank(c.cur.es, xoff) - 1 && n <= Cost(|c.cur.es|)
    ensures 0 <= i < |c.cur.kids| == |c.cur.es|
    ensures p.xad[XTENTRYSTART + i] == c.cur.es[i] && vol.HasPage(c.cur.es[i].addr)
    ensures Searching(vol, t, xoff, height, vol.XPageAt(c.cur.es[i].addr), c.Child(i, n), c.cur.es[i].Covers(xoff))
  {
    ScanRoute(c.cur, xoff, c.lo, c.hi, i);
    StoredChild(vol, p, c.cur, i);
    if FitsHeight(t, height) {
      PageCost(c.cur, c.h);
      assert FitsHeight(c.cur.kids[i], c.h - 1);
    }
  }

  // The outcome of the search of a leaf page decides the outcome of the whole lookup.
  lemma LeafOutcome(vol: Volume, t: Tree, xoff: int, height: nat, p: XPage, c: Cursor, was: bool, n: nat,
                    xaddr0: int, xlen0: int)
    requires Searching(vol, t, xoff, height, p, c, was) && p.IsLeaf() && n <= Cost(|c.cur.es|)
    ensures c.cur.Leaf?
    ensures LookupOutcome(t, xoff, xaddr0, xlen0) ==
      match Scan(c.cur.es, xoff)
      case Some(e) => Outcome(true, e.addr + (xoff - e.off), MinLen(xlen0, e.len - (xoff - e.off)))
      case None => Outcome(was && c.cur.es == [], xaddr0, xlen0)
    ensures FitsHeight(t, height) ==> c.steps + n <= 8 * height
  {
    assert Flatten(c.cur) == c.cur.es;
    assert StaleHit(t, xoff, false) <==> was && c.cur.es == [];
    if FitsHeight(t, height) {
      PageCost(c.cur, c.h);
    }
  }

  /** Search one page. In a leaf the search decides the lookup; otherwise it settles on the
      entry `index` to descend through. `cmp0` and `cmp` are the last comparisons of the parent
      page and of this one. */
  method VisitPage(vol: Volume, p: XPage, xoff: int, cmp0: int, xaddr0: int, xlen0: int,
                   ghost t: Tree, ghost height: nat, ghost c: Cursor)
      returns (rc: int, xaddr: int, xlen: int, index: int, cmp: int, ghost next: Cursor)
    requires Searching(vol, t, xoff, height, p, c, cmp0 == 0)
    ensures p.IsLeaf() ==> Outcome(rc == 0, xaddr, xlen) == LookupOutcome(t, xoff, xaddr0, xlen0)
    ensures p.IsLeaf() && FitsHeight(t, height) ==> next.steps <= 8 * height
    ensures !p.IsLeaf() ==>
      && 0 <= index < |p.xad| && vol.HasPage(p.xad[index].addr) && next.cur < c.cur
      && Searching(vol, t, xoff, height, vol.XPageAt(p.xad[index].addr), next, cmp == 0)
  {
    rc, xaddr, xlen := 0, xaddr0, xlen0;
    var hit, base;
    ghost var n;
    hit, index, base, cmp, n := SearchPage(p, xoff, cmp0, c.cur.es);
    if p.IsLeaf() {
      LeafOutcome(vol, t, xoff, height, p, c, cmp0 == 0, n, xaddr0, xlen0);
      next := c.(steps := c.steps + n);
    } else {
      ghost var i := Rank(c.cur.es, xoff) - 1;
      SearchChild(vol, t, xoff, height, p, c, cmp0 == 0, i, n);
      next := c.Child(i, n);
    }
    if hit {
      if p.IsLeaf() {
        var xad := p.xad[index];
        var t32 := xoff - xad.off;
        xaddr := xad.addr + t32;
        xlen := MinLen(xlen, xad.len - t32);
        rc := cmp;
      }
    } else {
      if p.IsLeaf() {
        rc := cmp;
        return;
      }
      index := if base != 0 then base - 1 else base;
    }
  }

  method XtLookup(vol: Volume, root: XPage, xoff: int, xaddr0: int, xlen0: int, pool: Pool,
                  ghost t: Tree, ghost hi: int, ghost height: nat)
      returns (rc: int, xaddr: int, xlen: int, ghost steps: nat)
    requires vol.Valid() && pool.Valid()
    requires Stored(vol, root, t) && WellFormed(t, 0, hi) && xoff >= 0
    modifies pool.Repr
    ensures Outcome(rc == 0, xaddr, xlen) == LookupOutcome(t, xoff, xaddr0, xlen0)
    ensures Scan(Flatten(t), xoff).Some? ==> rc == 0 && IsRun(Flatten(t), xoff, xaddr, xlen, xlen0)
    ensures FitsHeight(t, height) ==> steps <= 8 * height
    ensures pool.Settled(old(pool.free), old(pool.bufs), old(pool.nBuffer))
    ensures old(pool.Quiescent()) ==> pool.Quiescent()
    ensures fresh(pool.Repr - old(pool.Repr))
  {
    hide IsRun, LookupOutcome, DecodeXPage, FitsHeight;
    var p, bp: Buf?, cmp := root, null, 1;
    ghost var c := Cursor(t, 0, hi, height, 0);
    ghost var free0, bufs0, n0 := pool.free, pool.bufs, pool.nBuffer;
    while true
      invariant Searching(vol, t, xoff, height, p, c, cmp == 0)
      invariant pool.Holding(bp, free0, bufs0, n0)
      invariant fresh(pool.Repr - old(pool.Repr)) && old(pool.Repr) <= pool.Repr
      decreases c.cur
    {
      var index;
      rc, xaddr, xlen, index, cmp, c := VisitPage(vol, p, xoff, cmp, xaddr0, xlen0, t, height, c);
      if p.IsLeaf() {
        break;
      }
      var t64 := p.xad[index].addr;
      bp := pool.Exchange(vol, bp, t64, free0, bufs0, n0);
      p := DecodeXPage(bp.data[..]);
    }
    steps := c.steps;
    if Scan(Flatten(t), xoff).Some? {
      LookupGivesRun(t, hi, xoff, xaddr0, xlen0);
    }
    pool.Close(bp, free0, bufs0, n0);
  }

  /** The lookup agrees with a linear scan of the leaves exactly when the search does not end
      in an empty leaf that was entered by a hit. */
  lemma LookupAgreesExactly(t: Tree, hi: int, xoff: int, xaddr0: int, xlen0: int)
    requires WellFormed(t, 0, hi) && xoff >= 0
    ensures (LookupOutcome(t, xoff, xaddr0, xlen0).found <==> Scan(Flatten(t), xoff).Some?)
            <==> !StaleHit(t, xoff, false)
    ensures t.Leaf? || NoEmptyLeaf(t) ==> !StaleHit(t, xoff, false)
  {
    if StaleHit(t, xoff, false) {
      StaleHitIsMiss(t, xoff, 0, hi, false);
    }
    if NoEmptyLeaf(t) {
      NoEmptyLeafNoStaleHit(t, xoff, false);
    }
  }

  /** A tree with one empty leaf: the lookup of block 0 reports success although the file has
      no extents at all. */
  lemma EmptyLeafMisleads(addr: u40, xaddr0: int, xlen0: int)
    ensures var t := Node([Xad(0, 1, addr)], [Leaf([])]);
      && WellFormed(t, 0, 1) && Flatten(t) == []
      && LookupOutcome(t, 0, xaddr0, xlen0) == Outcome(true, xaddr0, xlen0)
  {
    var es := [Xad(0, 1, addr)];
    var t := Node(es, [Leaf([])]);
    assert Flatten(t) == FlattenAll([Leaf([])]) == Flatten(Leaf([])) + FlattenAll([]);
    RankIs(es, 0, 1);
    assert es[0].Covers(0);
    assert StaleHit(t.kids[0], 0, true);
  }

  /** There is a disk that holds this tree: an inode root with one separator, for block 0 of
      the disk, whose page is a leaf without entries. */
  lemma EmptyLeafOnDisk() returns (vol: Volume, root: XPage)
    ensures vol.Valid() && Stored(vol, root, Node([Xad(0, 1, 0)], [Leaf([])]))
  {
    vol := Volume(seq(PSIZE, k => if k == 16 || k == 18 then 2 else 0), 12);
    var b: seq<byte> := seq(288, k => if k == 16 then 5 else if k == 18 then 3 else if k == 40 then 1 else 0);
    root := DecodeXPage(b);
    ShlIsMul(0, 12);
    assert vol.Bytes(0, PSIZE) == vol.image;
    var leaf := vol.XPageAt(0);
    assert leaf.IsLeaf() && !leaf.IsInternal() && leaf.nextindex == 2;
    assert leaf.xad[XTENTRYSTART..leaf.nextindex] == [];
    assert Stored(vol, leaf, Leaf([]));
    assert root.IsInternal() && !root.IsLeaf() && root.nextindex == 3;
    assert root.xad[XTENTRYSTART] == DecodeXad(b, 32) == Xad(0, 1, 0);
    assert root.xad[XTENTRYSTART..root.nextindex] == [Xad(0, 1, 0)];
  }
}
