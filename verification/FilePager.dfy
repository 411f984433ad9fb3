/** The page fault path: what the pager hands the kernel for a page of a file or of the disk. */
module FilePager {
  import opened Layout
  import opened XTree
  import opened BufferPool
  import opened FileRead
  import opened AlignedRead
  import opened InodeMap
  import opened FileBytes

  /** The pager of the whole disk, or of a file with an inode number and a size. */
  datatype PagerInfo = Disk | FileData(inum: u32, size: int)

  /** 0, 1 or EIO. */
  datatype Error = Ok | Failed | Eio

  // ---------- the store ----------

  lemma {:induction false} ShlShl(x: int, m: nat, n: nat)
    ensures Shl(Shl(x, m), n) == Shl(x, m + n)
  {
    if n > 0 {
      ShlShl(x, m, n - 1);
    }
  }

  lemma {:induction false} ShlDouble(x: int, n: nat)
    ensures Shl(2 * x, n) == 2 * Shl(x, n)
  {
    if n > 0 {
      ShlDouble(x, n - 1);
    }
  }

  lemma {:induction false} ShrShl(x: int, n: nat)
    ensures Shr(Shl(x, n), n) == x
    decreases n
  {
    if n > 0 {
      ShlDouble(x, n - 1);
      ShrShl(2 * x, n - 1);
      assert Shl(x, n) == Shl(2 * x, n - 1);
    }
  }

  // A page-aligned address survives the round trip through store blocks.
  lemma StoreBlocks(page: int, log2: nat)
    requires page % PSIZE == 0 && log2 <= 12
    ensures Shl(Shr(page, log2), log2) == page
  {
    var x := page / PSIZE;
    assert Shl(x, 12) == PSIZE * x == page by {
      ShlIsMul(x, 12);
      assert Shl(1, 12) == 4096;
    }
    ShlShl(x, 12 - log2, log2);
    ShrShl(Shl(x, 12 - log2), log2);
  }

  /** Read from a store block on; a read that is not inside the store comes back short. */
  method StoreRead(vol: Volume, addr: int, log2: nat, count: nat) returns (buf: array?<byte>, read: nat)
    requires count > 0
    ensures vol.InImage(Shl(addr, log2), count) ==>
      read == count && buf != null && fresh(buf) && buf[..] == vol.Bytes(Shl(addr, log2), count)
    ensures !vol.InImage(Shl(addr, log2), count) ==> read < count && buf == null
  {
    if 0 <= Shl(addr, log2) && Shl(addr, log2) + count <= |vol.image| {
      buf := ReadDiskBlocks(vol, Shl(addr, log2), count);
      read := count;
    } else {
      buf, read := null, 0;
    }
  }

  // ---------- the end of the file ----------

  /** How many bytes at the end of a page are cleared, in the code: the end of the page is
      computed in the 32 bits of a vm_offset_t, the size has 64. */
  function Overrun(page: u32, size: int): int {
    var end := (page + VM_PAGE_SIZE) % TWO32;
    if end > size then end - size else 0
  }

  // The end of the page does not wrap around to 0, or the file goes beyond it anyway.
  predicate EndFits(page: u32, size: int) {
    page + VM_PAGE_SIZE < TWO32 || size >= TWO32
  }

  /** The bytes cleared are those of the page that are past the end of the file if and only if
      the end of the page does not wrap around; on the last page of the address space they stay
      as they are on disk. */
  lemma OverrunExact(page: u32, size: int)
    requires page % VM_PAGE_SIZE == 0 && page < size
    ensures Overrun(page, size) == (if page + VM_PAGE_SIZE > size then page + VM_PAGE_SIZE - size else 0)
            <==> EndFits(page, size)
    ensures 0 <= Overrun(page, size) < VM_PAGE_SIZE
  {
  }

  // ---------- the page fault ----------

  /** The page `b` is the bytes of the image from `a` on, the last ones cleared. */
  ghost predicate Trimmed(vol: Volume, a: int, size: int, page: u32, b: seq<byte>) {
    && vol.InImage(a, VM_PAGE_SIZE) && |b| == VM_PAGE_SIZE
    && forall k :: 0 <= k < VM_PAGE_SIZE ==>
         b[k] == if k < VM_PAGE_SIZE - Overrun(page, size) then vol.image[a + k] else 0
  }

  ghost predicate ZeroPage(b: seq<byte>) {
    |b| == VM_PAGE_SIZE && forall k :: 0 <= k < VM_PAGE_SIZE ==> b[k] == 0
  }

  /** The outcome of a fault on a page of a file that lies at `place`, for every block size. */
  ghost predicate Fault(vol: Volume, place: Option<int>, size: int, page: u32, err: Error, b: seq<byte>) {
    if page >= size then err == Ok && ZeroPage(b)
    else match place
         case None => err == Failed
         case Some(a) =>
           if vol.InImage(a, VM_PAGE_SIZE) then err == Ok && Trimmed(vol, a, size, page, b) else err == Eio
  }

  /** What a fault should do. A hole below the end of the file fails; from the end of the file
      on every page is zero; any other page is the file's. */
  ghost predicate RightFault(vol: Volume, es: seq<Xad>, size: int, page: u32, err: Error, b: seq<byte>)
    requires vol.BSize() > 0
  {
    && (if page >= size then err == Ok
        else match BytePlace(vol, es, page)
             case None => err == Failed
             case Some(a) => if vol.InImage(a, VM_PAGE_SIZE) then err == Ok else err == Eio)
    && (err == Ok ==> IsPage(vol, es, size, page, b))
  }

  /** It does that if the page is read from its places and its end does not wrap around. */
  lemma FaultIsRight(vol: Volume, es: seq<Xad>, place: Option<int>, size: int, page: u32, err: Error, b: seq<byte>)
    requires vol.BSize() > 0 && page % VM_PAGE_SIZE == 0
    requires Fault(vol, place, size, page, err, b)
    requires page < size ==> EndFits(page, size) && place == BytePlace(vol, es, page)
    requires page < size && place.Some? ==> RightPlaces(vol, es, size, page, place.value)
    ensures RightFault(vol, es, size, page, err, b)
  {
    if page < size && err == Ok {
      OverrunExact(page, size);
      forall k | 0 <= k < VM_PAGE_SIZE && page + k < size ensures FileByte(vol, es, page + k) == Some(b[k]) {
        assert BytePlace(vol, es, page + k) == Some(page + k + (place.value - page));
      }
    }
  }

  // A page of the file whose end does not wrap around, looked up without a stale hit.
  ghost predicate Regular(ft: Tree, size: int, page: u32) {
    page < size ==> EndFits(page, size) && !StaleHit(ft, page / 4096, false)
  }

  // With 4096-byte blocks a regular page is read from its places.
  lemma LargeBlockFault(vol: Volume, ft: Tree, size: int, page: u32, xaddr0: int, err: Error, b: seq<byte>)
    requires vol.l2bsize == 12 && page % VM_PAGE_SIZE == 0
    requires Fault(vol, PagerPlace(ft, page, xaddr0), size, page, err, b)
    ensures vol.BSize() == 4096
    ensures Regular(ft, size, page) ==> RightFault(vol, Flatten(ft), size, page, err, b)
  {
    BlockSizes(vol);
    if Regular(ft, size, page) {
      if page < size {
        LargeBlocksAreRight(vol, ft, size, page, xaddr0);
      }
      FaultIsRight(vol, Flatten(ft), PagerPlace(ft, page, xaddr0), size, page, err, b);
    }
  }

  // The contents of a buffer, if there is one.
  function Contents(buf: array?<byte>): seq<byte>
    reads buf
  {
    if buf == null then [] else buf[..]
  }

  method ZeroFill() returns (buf: array<byte>)
    ensures fresh(buf) && ZeroPage(buf[..])
  {
    buf := new byte[VM_PAGE_SIZE](_ => 0);
  }

  /** Read the page that lies at byte `xaddr`, and clear what is past the end of the file. */
  method ReadAndTrim(vol: Volume, xaddr: int, size: int, page: u32, log2: nat) returns (err: Error, buf: array?<byte>)
    requires log2 <= 12 && page % VM_PAGE_SIZE == 0 && xaddr % PSIZE == 0 && page < size
    ensures Fault(vol, Some(xaddr), size, page, err, Contents(buf))
    ensures buf != null ==> fresh(buf)
  {
    var addr := Shr(xaddr, log2);
    var overrun := Overrun(page, size);
    OverrunExact(page, size);
    StoreBlocks(xaddr, log2);
    var read;
    buf, read := StoreRead(vol, addr, log2, VM_PAGE_SIZE);
    if read != VM_PAGE_SIZE {
      return Eio, null;
    }
    forall k | VM_PAGE_SIZE - overrun <= k < VM_PAGE_SIZE {
      buf[k] := 0;
    }
    err := Ok;
  }

  /** Look up a page of a file whose inode has been read, and read it. `xaddr0` is what the
      variable for the block holds before. */
  method ReadFilePage(vol: Volume, inode: Dinode, size: int, page: u32, log2: nat, pool: Pool, xaddr0: int,
                      ghost ft: Tree, ghost hi: int)
      returns (err: Error, buf: array?<byte>)
    requires vol.Valid() && log2 <= 12 && page % VM_PAGE_SIZE == 0
    requires |inode.root| == 288 && Stored(vol, inode.XtRoot(), ft) && WellFormed(ft, 0, hi)
    requires pool.Valid()
    modifies pool.Repr
    ensures Fault(vol, PagerPlace(ft, page, xaddr0), size, page, err, Contents(buf))
    ensures buf != null ==> fresh(buf)
    ensures pool.Settled(old(pool.free), old(pool.bufs), old(pool.nBuffer))
    ensures old(pool.Quiescent()) ==> pool.Quiescent()
    ensures fresh(pool.Repr - old(pool.Repr))
  {
    hide Stored, WellFormed, LookupOutcome, Trimmed;
    var rc, xaddr, xlen;
    ghost var steps;
    rc, xaddr, xlen, steps := XtLookup(vol, inode.XtRoot(), page / 4096, xaddr0, VM_PAGE_SIZE, pool, ft, hi, 0);
    if rc != 0 {
      if page >= size {
        buf := ZeroFill();
        return Ok, buf;
      }
      return Failed, null;
    }
    xaddr := xaddr * 4096;
    if page >= size {
      buf := ZeroFill();
      return Ok, buf;
    }
    err, buf := ReadAndTrim(vol, xaddr, size, page, log2);
  }

  /** The inode at address `a` is that of a file with the extent tree `ft`. */
  ghost predicate HasFile(vol: Volume, a: int, ft: Tree, hi: int) {
    && vol.InImage(a, DINODE_SIZE)
    && Stored(vol, DecodeDinode(vol.Bytes(a, DINODE_SIZE)).XtRoot(), ft)
    && WellFormed(ft, 0, hi)
  }

  /** The inode of a file can be found through the inode map `mt`. */
  ghost predicate CanOpen(vol: Volume, mt: Tree, mhi: int, inum: u32, ft: Tree, hi: int) {
    && HasTable(vol, FILESYSTEM_I, mt, mhi) && GroupInImage(vol, mt, Group(inum))
    && (InodeAddress(vol, mt, inum).Some? ==> HasFile(vol, InodeAddress(vol, mt, inum).value, ft, hi))
  }

  /** A page of the disk's own pager: the page as it is. */
  method ReadDiskPage(vol: Volume, page: u32, log2: nat) returns (err: Error, buf: array?<byte>)
    requires log2 <= 12 && page % VM_PAGE_SIZE == 0
    ensures if vol.InImage(page, VM_PAGE_SIZE) then err == Ok && Contents(buf) == vol.Bytes(page, VM_PAGE_SIZE)
            else err == Eio
    ensures buf != null ==> fresh(buf)
  {
    StoreBlocks(page, log2);
    var read;
    buf, read := StoreRead(vol, Shr(page, log2), log2, VM_PAGE_SIZE);
    err := if read != VM_PAGE_SIZE then Eio else Ok;
  }

  /** A page of a file: its inode is found and read first. */
  method ReadDataPage(vol: Volume, inum: u32, size: int, page: u32, log2: nat, pool: Pool, xaddr0: int,
                      ghost mt: Tree, ghost mhi: int, ghost ft: Tree, ghost hi: int)
      returns (err: Error, buf: array?<byte>)
    requires vol.Valid() && log2 <= 12 && page % VM_PAGE_SIZE == 0
    requires CanOpen(vol, mt, mhi, inum, ft, hi) && pool.Valid()
    modifies pool.Repr
    ensures if InodeAddress(vol, mt, inum).None? then err == Failed
            else Fault(vol, PagerPlace(ft, page, xaddr0), size, page, err, Contents(buf))
    ensures buf != null ==> fresh(buf)
    ensures pool.Settled(old(pool.free), old(pool.bufs), old(pool.nBuffer))
    ensures old(pool.Quiescent()) ==> pool.Quiescent()
    ensures fresh(pool.Repr - old(pool.Repr))
  {
    hide HasTable, Stored, WellFormed, Fault;
    var rc, address := FindInode(vol, inum, FILESYSTEM_I, 0, mt, mhi);
    if rc != 0 {
      return Failed, null;
    }
    TableIsReadable(vol, mt, mhi);
    var inode := ReadDinode(vol, address);
    err, buf := ReadFilePage(vol, inode, size, page, log2, pool, xaddr0, ft, hi);
  }

  /** A page fault of a pager, on a volume of any block size. The disk's own pager reads the
      page as it is; for a file the inode is found first. `log2` is log2 of the store's block
      size. */
  method PagerReadPage(vol: Volume, upi: PagerInfo, page: u32, log2: nat, pool: Pool, xaddr0: int,
                       ghost mt: Tree, ghost mhi: int, ghost ft: Tree, ghost hi: int)
      returns (err: Error, buf: array?<byte>, writelock: bool)
    requires vol.Valid() && log2 <= 12 && page % VM_PAGE_SIZE == 0
    requires upi.FileData? ==> CanOpen(vol, mt, mhi, upi.inum, ft, hi)
    requires pool.Valid()
    modifies pool.Repr
    ensures writelock && (buf != null ==> fresh(buf))
    ensures match upi
      case Disk =>
        if vol.InImage(page, VM_PAGE_SIZE) then err == Ok && Contents(buf) == vol.Bytes(page, VM_PAGE_SIZE)
        else err == Eio
      case FileData(inum, size) =>
        if InodeAddress(vol, mt, inum).None? then err == Failed
        else Fault(vol, PagerPlace(ft, page, xaddr0), size, page, err, Contents(buf))
    ensures upi.FileData? && InodeAddress(vol, mt, upi.inum).Some? && vol.l2bsize == 12 ==>
      vol.BSize() == 4096 && (Regular(ft, upi.size, page) ==>
        RightFault(vol, Flatten(ft), upi.size, page, err, Contents(buf)))
    ensures pool.Settled(old(pool.free), old(pool.bufs), old(pool.nBuffer))
    ensures old(pool.Quiescent()) ==> pool.Quiescent()
    ensures fresh(pool.Repr - old(pool.Repr))
  {
    hide CanOpen, Fault, RightFault, Regular, InodeAddress, PagerPlace;
    writelock, buf := true, null;
    match upi {
      case Disk =>
        err, buf := ReadDiskPage(vol, page, log2);
      case FileData(inum, size) =>
        err, buf := ReadDataPage(vol, inum, size, page, log2, pool, xaddr0, mt, mhi, ft, hi);
        if InodeAddress(vol, mt, inum).Some? && vol.l2bsize == 12 {
          LargeBlockFault(vol, ft, size, page, xaddr0, err, Contents(buf));
        }
    }
  }

  lemma TableIsReadable(vol: Volume, mt: Tree, mhi: int)
    requires HasTable(vol, FILESYSTEM_I, mt, mhi)
    ensures WholeBlocks(vol)
  {
  }

  // ---------- a client that reads a whole file ----------

  /** The size that the translator gives a node: none for a symbolic link. */
  function StSize(inode: Dinode): int {
    if inode.IsLink() then 0 else inode.size
  }

  ghost function NodeSize(vol: Volume, mt: Tree, inum: u32): Option<int>
    requires vol.Valid()
  {
    match InodeAddress(vol, mt, inum)
    case Some(a) =>
      if vol.InImage(a, DINODE_SIZE) then Some(StSize(DecodeDinode(vol.Bytes(a, DINODE_SIZE)))) else None
    case None => None
  }

  method ReadNodeSize(vol: Volume, inum: u32, ghost mt: Tree, ghost mhi: int, ghost ft: Tree, ghost hi: int)
      returns (size: Option<int>)
    requires vol.Valid() && CanOpen(vol, mt, mhi, inum, ft, hi)
    ensures size == NodeSize(vol, mt, inum)
    ensures size.Some? ==> InodeAddress(vol, mt, inum).Some? && WholeBlocks(vol)
  {
    hide HasTable, Stored, WellFormed;
    var rc, address := FindInode(vol, inum, FILESYSTEM_I, 0, mt, mhi);
    if rc != 0 {
      return None;
    }
    TableIsReadable(vol, mt, mhi);
    var inode := ReadDinode(vol, address);
    size := Some(StSize(inode));
  }

  ghost predicate NoStaleHit(ft: Tree) {
    forall block: nat :: !StaleHit(ft, block, false)
  }

  // The first pages of a file have been read right.
  ghost predicate PagesRead(vol: Volume, es: seq<Xad>, size: int, pages: seq<seq<byte>>)
    requires vol.BSize() > 0
  {
    forall i :: 0 <= i < |pages| ==> IsPage(vol, es, size, i * VM_PAGE_SIZE, pages[i])
  }

  // A page that cannot be read has a hole, or lies outside the image.
  lemma BadPage(vol: Volume, es: seq<Xad>, size: int, page: u32, err: Error, b: seq<byte>)
    requires vol.l2bsize == 12 && vol.BSize() == 4096 && WholeBlocks(vol)
    requires page % VM_PAGE_SIZE == 0 && page < size
    requires RightFault(vol, es, size, page, err, b) && err != Ok
    ensures !NoHoles(vol, es, size)
  {
    PlaceByDisplacement(vol, es, page);
    assert FileByte(vol, es, page).None?;
  }

  // Pages that have been read have no holes.
  lemma GoodPages(vol: Volume, es: seq<Xad>, size: int, pages: seq<seq<byte>>)
    requires vol.BSize() > 0 && PagesRead(vol, es, size, pages) && |pages| * VM_PAGE_SIZE >= size
    ensures NoHoles(vol, es, size)
  {
    forall pos: nat | pos < size ensures FileByte(vol, es, pos).Some? {
      var i, k := pos / VM_PAGE_SIZE, pos % VM_PAGE_SIZE;
      assert IsPage(vol, es, size, i * VM_PAGE_SIZE, pages[i]);
      assert i * VM_PAGE_SIZE + k == pos;
      assert FileByte(vol, es, pos) == Some(pages[i][k]);
    }
  }

  lemma AllPages(vol: Volume, es: seq<Xad>, size: nat, pages: seq<seq<byte>>)
    requires vol.BSize() > 0 && PagesRead(vol, es, size, pages) && |pages| * VM_PAGE_SIZE >= size
    ensures NoHoles(vol, es, size) && |Concat(pages)| >= size
    ensures Concat(pages)[..size] == FileContents(vol, es, size)
  {
    GoodPages(vol, es, size, pages);
    PagesAreFile(vol, es, size, pages);
  }

  lemma NoPages(vol: Volume, es: seq<Xad>, size: int)
    requires vol.BSize() > 0
    ensures PagesRead(vol, es, size, [])
  {
  }

  lemma AddPage(vol: Volume, es: seq<Xad>, size: int, pages: seq<seq<byte>>, page: u32, err: Error, b: seq<byte>)
    requires vol.BSize() > 0 && PagesRead(vol, es, size, pages) && page == |pages| * VM_PAGE_SIZE
    requires RightFault(vol, es, size, page, err, b) && err == Ok
    ensures PagesRead(vol, es, size, pages + [b])
  {
    hide IsPage;
  }

  /** Read a file page by page through the pager, up to the size of its node. With 4096-byte
      blocks and no stale hits this succeeds if and only if the file has no hole and ends below
      the last page of the address space, and it gives the contents of the file. */
  method ReadFile(vol: Volume, inum: u32, log2: nat, pool: Pool, xaddr0: int,
                  ghost mt: Tree, ghost mhi: int, ghost ft: Tree, ghost hi: int)
      returns (err: Error, data: seq<byte>)
    requires vol.Valid() && vol.l2bsize == 12 && log2 <= 12 && NoStaleHit(ft)
    requires CanOpen(vol, mt, mhi, inum, ft, hi) && pool.Valid()
    modifies pool.Repr
    ensures vol.BSize() == 4096
    ensures match NodeSize(vol, mt, inum)
      case None => err == Failed
      case Some(size) =>
        && (err == Ok <==> size <= TWO32 - VM_PAGE_SIZE && NoHoles(vol, Flatten(ft), size))
        && (err == Ok && size >= 0 ==> data == FileContents(vol, Flatten(ft), size))
    ensures pool.Valid() && (old(pool.Quiescent()) ==> pool.Quiescent())
  {
    hide CanOpen, RightFault, Fault, PagesRead, Contents, NodeSize, InodeAddress, NoHoles, Flatten, PagerPlace;
    BlockSizes(vol);
    var known := ReadNodeSize(vol, inum, mt, mhi, ft, hi);
    if known.None? {
      return Failed, [];
    }
    var size := known.value;
    if size > TWO32 - VM_PAGE_SIZE {
      return Failed, [];
    }
    ghost var es := Flatten(ft);
    var pages: seq<seq<byte>> := [];
    NoPages(vol, es, size);
    while |pages| * VM_PAGE_SIZE < size
      invariant pool.Valid() && (old(pool.Quiescent()) ==> pool.Quiescent())
      invariant fresh(pool.Repr - old(pool.Repr))
      invariant PagesRead(vol, es, size, pages)
      decreases size - |pages| * VM_PAGE_SIZE
    {
      var page := |pages| * VM_PAGE_SIZE;
      var buf, writelock;
      assert Regular(ft, size, page);
      err, buf, writelock := PagerReadPage(vol, FileData(inum, size), page, log2, pool, xaddr0, mt, mhi, ft, hi);
      if err != Ok {
        BadPage(vol, es, size, page, err, Contents(buf));
        return err, [];
      }
      AddPage(vol, es, size, pages, page, err, Contents(buf));
      pages := pages + [Contents(buf)];
    }
    GoodPages(vol, es, size, pages);
    err, data := Ok, [];
    if size >= 0 {
      AllPages(vol, es, size, pages);
      data := Concat(pages)[..size];
    }
  }
}
