/** The bytes of a file, as its extents define them, and the place on disk from which the pager
    reads a page of it. */
module FileBytes {
  import opened Layout
  import opened XTree
  import opened FileRead
  import opened AlignedRead

  const VM_PAGE_SIZE := 4096

  // ---------- the meaning of a file ----------

  // Byte address of a position of a file, if an extent covers its block.
  function BytePlace(vol: Volume, es: seq<Xad>, pos: nat): Option<int>
    requires vol.BSize() > 0
  {
    var block := pos / vol.BSize();
    match Scan(es, block)
    case Some(e) => Some(vol.ByteAddress(e.addr + (block - e.off)) + pos % vol.BSize())
    case None => None
  }

  /** The byte of a file at a position; None in a hole or outside the image. */
  function FileByte(vol: Volume, es: seq<Xad>, pos: nat): Option<byte>
    requires vol.BSize() > 0
  {
    match BytePlace(vol, es, pos)
    case Some(a) => if vol.InImage(a, 1) then Some(vol.image[a]) else None
    case None => None
  }

  ghost predicate NoHoles(vol: Volume, es: seq<Xad>, size: int)
    requires vol.BSize() > 0
  {
    forall pos: nat :: pos < size ==> FileByte(vol, es, pos).Some?
  }

  function FileContents(vol: Volume, es: seq<Xad>, size: nat): seq<byte>
    requires vol.BSize() > 0 && NoHoles(vol, es, size)
  {
    seq(size, pos requires 0 <= pos < size => FileByte(vol, es, pos).value)
  }

  // The bytes of the page at `page`: the file up to its size, then zeros.
  ghost predicate IsPage(vol: Volume, es: seq<Xad>, size: int, page: nat, b: seq<byte>)
    requires vol.BSize() > 0
  {
    && |b| == VM_PAGE_SIZE
    && forall k :: 0 <= k < VM_PAGE_SIZE ==>
         if page + k < size then FileByte(vol, es, page + k) == Some(b[k]) else b[k] == 0
  }

  // ---------- places on disk ----------

  /** By how many blocks an extent is displaced on disk against the file. */
  function Displacement(e: Xad): int {
    e.addr - e.off
  }

  lemma DisplacedBlock(d: int, pos: nat, b: int)
    requires b > 0
    ensures (d + pos / b) * b + pos % b == d * b + pos
  {
    MulAdd(b, d, pos / b);
  }

  // A position lies at its own number, displaced as the extent that covers its block is.
  lemma PlaceByDisplacement(vol: Volume, es: seq<Xad>, pos: nat)
    requires vol.BSize() > 0
    ensures BytePlace(vol, es, pos) == match Scan(es, pos / vol.BSize())
                                       case Some(e) => Some(Displacement(e) * vol.BSize() + pos)
                                       case None => None
  {
    hide Scan, Shl;
    match Scan(es, pos / vol.BSize())
    case None =>
    case Some(e) =>
      ShlIsMul(e.addr + (pos / vol.BSize() - e.off), vol.l2bsize);
      DisplacedBlock(Displacement(e), pos, vol.BSize());
  }

  /** The place from which the pager reads a page: the block that a lookup of `page / 4096`
      finds, times 4096. A stale hit leaves it whatever the variable held before (`xaddr0`). */
  ghost function PagerPlace(ft: Tree, page: nat, xaddr0: int): Option<int> {
    var o := LookupOutcome(ft, page / 4096, xaddr0, VM_PAGE_SIZE);
    if o.found then Some(o.xaddr * 4096) else None
  }

  lemma PagerPlaceByDisplacement(ft: Tree, page: nat, xaddr0: int)
    requires page % VM_PAGE_SIZE == 0
    ensures PagerPlace(ft, page, xaddr0) ==
      match Scan(Flatten(ft), page / 4096)
      case Some(e) => Some(Displacement(e) * 4096 + page)
      case None => if StaleHit(ft, page / 4096, false) then Some(xaddr0 * 4096) else None
  {
  }

  /** For every block size: the pager goes to the place of a page, and finds none in a hole, if
      and only if the extent that covers block `page / 4096` and the one that really covers the
      start of the page are displaced by the same number of bytes, or neither exists. */
  lemma LookupIsPlace(vol: Volume, ft: Tree, page: nat, xaddr0: int)
    requires vol.BSize() > 0 && page % VM_PAGE_SIZE == 0 && !StaleHit(ft, page / 4096, false)
    ensures PagerPlace(ft, page, xaddr0) == BytePlace(vol, Flatten(ft), page) <==>
      match (Scan(Flatten(ft), page / 4096), Scan(Flatten(ft), page / vol.BSize()))
      case (Some(e), Some(f)) => Displacement(e) * 4096 == Displacement(f) * vol.BSize()
      case (None, None) => true
      case _ => false
  {
    PagerPlaceByDisplacement(ft, page, xaddr0);
    PlaceByDisplacement(vol, Flatten(ft), page);
  }

  // The last position of the file that lies on the page.
  function LastOnPage(size: int, page: nat): nat
    requires page < size
  {
    Min(page + VM_PAGE_SIZE, size) - 1
  }

  /** All bytes of the file on the page lie one after the other from `place` on. */
  ghost predicate RightPlaces(vol: Volume, es: seq<Xad>, size: int, page: nat, place: int)
    requires vol.BSize() > 0
  {
    forall pos: nat :: page <= pos < page + VM_PAGE_SIZE && pos < size ==>
      BytePlace(vol, es, pos) == Some(pos + (place - page))
  }

  /** They do if and only if every block of the page is covered by an extent that is displaced
      by `place - page` bytes. */
  lemma RightPlacesExact(vol: Volume, es: seq<Xad>, size: int, page: nat, place: int)
    requires vol.BSize() > 0 && page < size
    ensures RightPlaces(vol, es, size, page, place) <==>
      forall b :: page / vol.BSize() <= b <= LastOnPage(size, page) / vol.BSize() ==>
        Scan(es, b).Some? && Displacement(Scan(es, b).value) * vol.BSize() == place - page
  {
    var s, last := vol.BSize(), LastOnPage(size, page);
    if RightPlaces(vol, es, size, page, place) {
      forall b | page / s <= b <= last / s
        ensures Scan(es, b).Some? && Displacement(Scan(es, b).value) * s == place - page
      {
        var pos := PositionIn(page, last, s, b);
        PlaceByDisplacement(vol, es, pos);
        assert BytePlace(vol, es, pos) == Some(pos + (place - page));
      }
    } else {
      var pos: nat :| page <= pos < page + VM_PAGE_SIZE && pos < size
        && BytePlace(vol, es, pos) != Some(pos + (place - page));
      PlaceByDisplacement(vol, es, pos);
      DivMonotone(page, pos, s);
      DivMonotone(pos, last, s);
    }
  }

  lemma DivMonotone(x: nat, y: nat, b: int)
    requires b > 0 && x <= y
    ensures x / b <= y / b
  {
    MulCancel(b, x / b, y / b);
  }

  // Some position between two others lies in a block between theirs.
  lemma PositionIn(first: nat, last: nat, s: int, b: int) returns (pos: nat)
    requires s > 0 && first <= last && first / s <= b <= last / s
    ensures first <= pos <= last && pos / s == b
  {
    pos := first;
    if b > first / s {
      pos := s * b;
      StartOf(first, s, b);
      MulMono(s, b, last / s);
    }
  }

  // A block behind that of a position starts behind it.
  lemma StartOf(x: nat, s: int, b: int)
    requires s > 0 && x / s < b
    ensures x < s * b && s * b / s == b
  {
    MulMono(s, x / s + 1, b);
    MulAdd(s, x / s, 1);
    MulCancel(s, s * b / s, b);
    MulCancel(s, b, s * b / s);
  }

  /** The pager reads the page from the right places, for every block size, if and only if all
      blocks of the page are covered by extents that are displaced by as many bytes as the
      extent that covers block `page / 4096` would be if blocks had 4096 bytes. */
  lemma PagerPlacesExact(vol: Volume, ft: Tree, size: int, page: nat, xaddr0: int, e: Xad)
    requires vol.BSize() > 0 && page < size && page % VM_PAGE_SIZE == 0
    requires Scan(Flatten(ft), page / 4096) == Some(e)
    ensures PagerPlace(ft, page, xaddr0).Some?
    ensures RightPlaces(vol, Flatten(ft), size, page, PagerPlace(ft, page, xaddr0).value) <==>
      forall b :: page / vol.BSize() <= b <= LastOnPage(size, page) / vol.BSize() ==>
        Scan(Flatten(ft), b).Some? &&
        Displacement(Scan(Flatten(ft), b).value) * vol.BSize() == Displacement(e) * 4096
  {
    PagerPlaceByDisplacement(ft, page, xaddr0);
    RightPlacesExact(vol, Flatten(ft), size, page, PagerPlace(ft, page, xaddr0).value);
  }

  /** With 4096-byte blocks both conditions hold on every page. */
  lemma LargeBlocksAreRight(vol: Volume, ft: Tree, size: int, page: nat, xaddr0: int)
    requires vol.l2bsize == 12 && page % VM_PAGE_SIZE == 0 && !StaleHit(ft, page / 4096, false)
    ensures vol.BSize() == 4096
    ensures PagerPlace(ft, page, xaddr0) == BytePlace(vol, Flatten(ft), page)
    ensures page < size && PagerPlace(ft, page, xaddr0).Some? ==>
      RightPlaces(vol, Flatten(ft), size, page, PagerPlace(ft, page, xaddr0).value)
  {
    BlockSizes(vol);
    LookupIsPlace(vol, ft, page, xaddr0);
    PagerPlaceByDisplacement(ft, page, xaddr0);
    if page < size && PagerPlace(ft, page, xaddr0).Some? {
      PagerPlacesExact(vol, ft, size, page, xaddr0, Scan(Flatten(ft), page / 4096).value);
      assert LastOnPage(size, page) / 4096 == page / 4096;
    }
  }

  // One extent from the start of a file covers all its blocks.
  lemma ContiguousScan(len: u24, a: u40, b: nat)
    requires b < len
    ensures Scan(Flatten(Leaf([Xad(0, len, a)])), b) == Some(Xad(0, len, a))
  {
    assert Xad(0, len, a).Covers(b);
  }

  lemma ConstantScan(es: seq<Xad>, e: Xad, first: int, last: int, s: int, d: int)
    requires first <= last && forall b :: first <= b <= last ==> Scan(es, b) == Some(e)
    ensures (forall b :: first <= b <= last ==> Scan(es, b).Some? && Displacement(Scan(es, b).value) * s == d)
            <==> Displacement(e) * s == d
  {
    assert Scan(es, first) == Some(e);
  }

  // The block numbers that play a part in a page are those of the file.
  lemma BlocksOfPage(len: nat, s: int, size: int, page: nat)
    requires 0 < s <= 4096 && page < size <= len * s
    ensures 0 <= page / 4096 <= page / s <= LastOnPage(size, page) / s < len
  {
    DivMonotone(page, LastOnPage(size, page), s);
    DivBelow(LastOnPage(size, page), s, len);
    DivSmaller(page, s, 4096);
  }

  lemma DivBelow(x: nat, b: int, n: int)
    requires 0 < b && x < n * b
    ensures x / b < n
  {
    assert n * b == b * n;
    MulAdd(b, x / b, 1);
    MulCancel(b, x / b + 1, n);
  }

  lemma DivSmaller(x: nat, b: int, c: int)
    requires 0 < b <= c
    ensures x / c <= x / b
  {
    var q := x / c;
    if q > 0 {
      MulMono(q, b, c);
      assert b * q == q * b && c * q == q * c;
    }
    MulCancel(b, q, x / b);
  }

  // A page of a file in one extent.
  lemma ContiguousPage(vol: Volume, len: u24, a: u40, size: int, page: nat, xaddr0: int)
    requires vol.Valid() && page < size <= len * vol.BSize() && page % VM_PAGE_SIZE == 0
    ensures var ft := Leaf([Xad(0, len, a)]);
      && PagerPlace(ft, page, xaddr0).Some?
      && (RightPlaces(vol, Flatten(ft), size, page, PagerPlace(ft, page, xaddr0).value)
          <==> a == 0 || vol.l2bsize == 12)
  {
    var e := Xad(0, len, a);
    var ft, s, last := Leaf([e]), vol.BSize(), LastOnPage(size, page);
    BlockSizes(vol);
    hide Scan, Flatten, RightPlaces, PagerPlace;
    BlocksOfPage(len, s, size, page);
    forall b: int | 0 <= b <= last / s ensures Scan(Flatten(ft), b) == Some(e) {
      ContiguousScan(len, a, b);
    }
    PagerPlacesExact(vol, ft, size, page, xaddr0, e);
    ConstantScan(Flatten(ft), e, page / s, last / s, s, Displacement(e) * 4096);
    SameBytes(vol, a);
  }

  lemma SameBytes(vol: Volume, a: nat)
    requires vol.Valid()
    ensures a * vol.BSize() == a * 4096 <==> a == 0 || vol.l2bsize == 12
  {
    BlockSizes(vol);
  }

  /** A file in one extent at disk block `a` is read right on all its pages if and only if that
      is block 0 or blocks have 4096 bytes. */
  lemma ContiguousFileExact(vol: Volume, len: u24, a: u40, size: int, xaddr0: int)
    requires vol.Valid() && 0 < size <= len * vol.BSize()
    ensures var ft := Leaf([Xad(0, len, a)]);
      (forall page :: 0 <= page < size && page % VM_PAGE_SIZE == 0 ==>
         PagerPlace(ft, page, xaddr0).Some? &&
         RightPlaces(vol, Flatten(ft), size, page, PagerPlace(ft, page, xaddr0).value))
      <==> a == 0 || vol.l2bsize == 12
  {
    hide RightPlaces, PagerPlace;
    forall page | 0 <= page < size && page % VM_PAGE_SIZE == 0
      ensures var ft := Leaf([Xad(0, len, a)]);
        && PagerPlace(ft, page, xaddr0).Some?
        && (RightPlaces(vol, Flatten(ft), size, page, PagerPlace(ft, page, xaddr0).value)
            <==> a == 0 || vol.l2bsize == 12)
    {
      ContiguousPage(vol, len, a, size, page, xaddr0);
    }
    assert 0 % VM_PAGE_SIZE == 0 && PagerPlace(Leaf([Xad(0, len, a)]), 0, xaddr0).Some?;
  }

  /** With 512-byte blocks page 4096 of this file is its block 8, at disk block 100, but the
      pager reads block 1, which is at disk block 0. */
  lemma SmallBlocksMislead(image: seq<byte>, xaddr0: int)
    ensures var vol, es := Volume(image, 9), [Xad(1, 1, 0), Xad(8, 1, 100)];
      && vol.BSize() == 512 && WellFormed(Leaf(es), 0, 9)
      && PagerPlace(Leaf(es), 4096, xaddr0) == Some(0)
      && BytePlace(vol, es, 4096) == Some(51200)
  {
    var vol, es := Volume(image, 9), [Xad(1, 1, 0), Xad(8, 1, 100)];
    BlockSizes(vol);
    ScanHit(es, 1, 0);
    ScanHit(es, 8, 1);
    PagerPlaceByDisplacement(Leaf(es), 4096, xaddr0);
    PlaceByDisplacement(vol, es, 4096);
  }

  /** The pager takes a block to be 4096 bytes whatever the volume says: the byte address it
      computes for a block is the right one only for block 0 or with 4096-byte blocks. */
  lemma BlockAddressExact(vol: Volume, xaddr: nat)
    requires vol.Valid()
    ensures xaddr * 4096 == vol.ByteAddress(xaddr) <==> xaddr == 0 || vol.l2bsize == 12
  {
    ShlIsMul(xaddr, vol.l2bsize);
    BlockSizes(vol);
  }

  // ---------- the whole file ----------

  /** The pages of a file, one after the other from the start, give the file: the first `size`
      bytes of enough pages are its contents, and the rest is zero. */
  lemma PagesAreFile(vol: Volume, es: seq<Xad>, size: nat, pages: seq<seq<byte>>)
    requires vol.BSize() > 0 && NoHoles(vol, es, size)
    requires |pages| * VM_PAGE_SIZE >= size
    requires forall i :: 0 <= i < |pages| ==> IsPage(vol, es, size, i * VM_PAGE_SIZE, pages[i])
    ensures |Concat(pages)| == |pages| * VM_PAGE_SIZE
    ensures Concat(pages)[..size] == FileContents(vol, es, size)
    ensures forall k :: size <= k < |Concat(pages)| ==> Concat(pages)[k] == 0
  {
    ConcatLength(pages);
    var all := Concat(pages);
    forall k | 0 <= k < |all| ensures if k < size then FileByte(vol, es, k) == Some(all[k]) else all[k] == 0 {
      var i, j := k / VM_PAGE_SIZE, k % VM_PAGE_SIZE;
      ConcatAt(pages, i, j);
      assert i * VM_PAGE_SIZE + j == k;
      assert IsPage(vol, es, size, i * VM_PAGE_SIZE, pages[i]);
    }
  }

  function Concat(pages: seq<seq<byte>>): seq<byte> {
    if pages == [] then [] else Concat(pages[..|pages| - 1]) + pages[|pages| - 1]
  }

  lemma {:induction false} ConcatLength(pages: seq<seq<byte>>)
    requires forall i :: 0 <= i < |pages| ==> |pages[i]| == VM_PAGE_SIZE
    ensures |Concat(pages)| == |pages| * VM_PAGE_SIZE
  {
    if pages != [] {
      ConcatLength(pages[..|pages| - 1]);
    }
  }

  lemma {:induction false} ConcatAt(pages: seq<seq<byte>>, i: nat, j: nat)
    requires forall i :: 0 <= i < |pages| ==> |pages[i]| == VM_PAGE_SIZE
    requires i < |pages| && j < VM_PAGE_SIZE
    ensures i * VM_PAGE_SIZE + j < |Concat(pages)| == |pages| * VM_PAGE_SIZE
    ensures Concat(pages)[i * VM_PAGE_SIZE + j] == pages[i][j]
  {
    var n := |pages| - 1;
    ConcatLength(pages);
    ConcatLength(pages[..n]);
    if i < n {
      ConcatAt(pages[..n], i, j);
    }
  }
}
