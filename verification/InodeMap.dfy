/** The inode map: the search for the page of an inode allocation group (IAG), and the byte
    address of an inode on disk. */
module InodeMap {
  import opened Layout
  import opened XTree
  import opened PageSearch
  import opened FileRead
  import opened AlignedRead

  const AGGR_INODE_TABLE_START := 0xB000
  const FILESYSTEM_I: u32 := 16
  const AGGREGATE_I: u32 := 1
  const AGGREGATE_2ND_I: u32 := 0xFFFF_FFFF  // -1
  const INOSPERIAG := 4096
  const INOSPEREXT := 32
  const GROUPS := 0x10_0000  // the groups that a 32-bit inode number can have
  const EXTENT_BYTES := 16384

  predicate ValidTable(which: u32) {
    which == FILESYSTEM_I || which == AGGREGATE_I || which == AGGREGATE_2ND_I
  }

  // Byte address of the inode that holds the map of a table, in 32-bit arithmetic.
  function TableInode(which: u32): nat {
    (AGGR_INODE_TABLE_START + which * 512 % TWO32) % TWO32
  }

  // IAGTOLBLK: the block of the map at which the page of a group starts.
  function IagBlock(vol: Volume, iagnum: u32): nat
    requires vol.Valid()
  {
    Shl(iagnum + 1, 12 - vol.l2bsize) % TWO32
  }

  // Byte address of a block that the extent e covers.
  function AddressIn(vol: Volume, e: Xad, block: int): int {
    vol.ByteAddress(e.addr + (block - e.off))
  }

  /** Byte address of the page of a group, by a linear scan of the extents of the map. */
  ghost function IagAddress(vol: Volume, t: Tree, iagnum: u32): Option<int>
    requires vol.Valid()
  {
    var block := IagBlock(vol, iagnum);
    match Scan(Flatten(t), block)
    case Some(e) => Some(AddressIn(vol, e, block))
    case None => None
  }

  // An inode number is made of a group, an extent of the group and a slot of the extent.
  function Group(inum: u32): u32 {
    inum / INOSPERIAG
  }

  function ExtentNumber(inum: u32): (x: nat)
    ensures x < 128
  {
    inum % INOSPERIAG / INOSPEREXT
  }

  function SlotNumber(inum: u32): nat {
    inum % INOSPEREXT
  }

  // The extent that the page of a group at byte address `a` lists under a number, if backed.
  function ListedExtent(vol: Volume, a: int, extnum: nat): Option<int>
    requires extnum < 128
  {
    if !vol.InImage(a, PSIZE) then None
    else
      var ext := InoExt(vol.Bytes(a, PSIZE), extnum);
      if ext.len == 0 then None else Some(vol.ByteAddress(ext.addr))
  }

  /** Byte address of an extent of 32 inodes, if the group lists it as backed. */
  ghost function ExtentAddress(vol: Volume, t: Tree, iagnum: u32, extnum: nat): Option<int>
    requires vol.Valid() && extnum < 128
  {
    match IagAddress(vol, t, iagnum)
    case None => None
    case Some(a) => ListedExtent(vol, a, extnum)
  }

  ghost function InodeAddress(vol: Volume, t: Tree, inum: u32): Option<int>
    requires vol.Valid()
  {
    match ExtentAddress(vol, t, Group(inum), ExtentNumber(inum))
    case None => None
    case Some(a) => Some(a + SlotNumber(inum) * DINODE_SIZE)
  }

  /** `t` is the extent tree of the inode map of a table on the volume. */
  ghost predicate HasTable(vol: Volume, which: u32, t: Tree, hi: int) {
    && vol.Valid() && WholeBlocks(vol)
    && vol.InImage(TableInode(which), DINODE_SIZE)
    && Stored(vol, DecodeDinode(vol.Bytes(TableInode(which), DINODE_SIZE)).XtRoot(), t)
    && WellFormed(t, 0, hi)
  }

  // The page of the group, if there is one, lies in the image.
  ghost predicate GroupInImage(vol: Volume, t: Tree, iagnum: u32)
    requires vol.Valid()
  {
    match IagAddress(vol, t, iagnum)
    case Some(a) => vol.InImage(a, PSIZE)
    case None => true
  }

  // A return code of 0 with an address, or of 1.
  function Result(rc: int, address: int): Option<int> {
    if rc == 0 then Some(address) else None
  }

  // A read of at most a page never overflows.
  lemma ShortRead(vol: Volume, address: nat, count: nat)
    requires vol.Valid() && WholeBlocks(vol) && count <= PSIZE
    ensures address % vol.BSize() + count + vol.BSize() - 1 < TWO32
  {
    BlockSizes(vol);
  }

  method ReadPage(vol: Volume, block: int) returns (page: XPage)
    requires vol.Valid() && WholeBlocks(vol) && vol.HasPage(block)
    ensures page == vol.XPageAt(block)
  {
    ShortRead(vol, vol.ByteAddress(block), PSIZE);
    var buffer := XRead(vol, vol.ByteAddress(block), PSIZE);
    page := DecodeXPage(buffer);
  }

  method ReadDinode(vol: Volume, address: int) returns (inode: Dinode)
    requires vol.Valid() && WholeBlocks(vol) && vol.InImage(address, DINODE_SIZE)
    ensures inode == DecodeDinode(vol.Bytes(address, DINODE_SIZE))
  {
    ShortRead(vol, address, DINODE_SIZE);
    var buffer := XRead(vol, address, DINODE_SIZE);
    inode := DecodeDinode(buffer);
  }

  /** What the search of one page leads to. */
  datatype Step = Found(xad: Xad) | NotFound | Descend(block: int)

  method VisitIagPage(vol: Volume, page: XPage, block: int, cmp0: int, ghost t: Tree, ghost c: Cursor, ghost was: bool)
      returns (step: Step, cmp: int, ghost next: Cursor, ghost now: bool)
    requires Searching(vol, t, block, 0, page, c, was)
    ensures step.Found? ==> Scan(Flatten(t), block) == Some(step.xad)
    ensures step.NotFound? ==> Scan(Flatten(t), block).None?
    ensures step.Descend? ==>
      next.cur < c.cur && vol.HasPage(step.block)
      && Searching(vol, t, block, 0, vol.XPageAt(step.block), next, now)
  {
    var hit, index, base;
    ghost var n;
    hit, index, base, cmp, n := SearchPage(page, block, cmp0, c.cur.es);
    next, now := c, hit;
    if page.IsLeaf() {
      LeafOutcome(vol, t, block, 0, page, c, was, n, 0, 0);
      assert Flatten(c.cur) == c.cur.es;
    } else {
      ghost var i := Rank(c.cur.es, block) - 1;
      SearchChild(vol, t, block, 0, page, c, was, i, n);
      next := c.Child(i, n);
    }
    if hit {
      step := if page.IsLeaf() then Found(page.xad[index]) else Descend(page.xad[index].addr);
    } else if page.IsInternal() {
      index := if base != 0 then base - 1 else base;
      step := Descend(page.xad[index].addr);
    } else {
      step := NotFound;
    }
  }

  /** The search for the page of a group. It reads each child page over the last one and
      forgets the comparisons of the parent page, so unlike the lookup in a file it is right
      for empty leaves too. */
  method FindIag(vol: Volume, iagnum: u32, which: u32, address0: int, ghost t: Tree, ghost hi: int)
      returns (rc: int, address: int)
    requires vol.Valid() && (ValidTable(which) ==> HasTable(vol, which, t, hi))
    ensures if ValidTable(which) then Result(rc, address) == IagAddress(vol, t, iagnum) else rc == 1
    ensures rc != 0 ==> address == address0
  {
    rc, address := 1, address0;
    if which != FILESYSTEM_I && which != AGGREGATE_I && which != AGGREGATE_2ND_I {
      return;
    }
    var block := IagBlock(vol, iagnum);
    var fileset := ReadDinode(vol, TableInode(which));
    var page, cmp := fileset.XtRoot(), 1;
    ghost var c, was := Cursor(t, 0, hi, 0, 0), false;
    while true
      invariant Searching(vol, t, block, 0, page, c, was)
      decreases c.cur
    {
      var step;
      step, cmp, c, was := VisitIagPage(vol, page, block, cmp, t, c, was);
      match step {
        case Found(xad) => return 0, AddressIn(vol, xad, block);
        case NotFound => return;
        case Descend(child) => page := ReadPage(vol, child);
      }
    }
  }

  method ReadListedExtent(vol: Volume, a: int, extnum: nat) returns (extent: Option<int>)
    requires vol.InImage(a, PSIZE) && extnum < 128
    ensures extent == ListedExtent(vol, a, extnum)
  {
    var iag := ReadDiskBlocks(vol, a, PSIZE);
    var ext := InoExt(iag[..], extnum);
    extent := if ext.len == 0 then None else Some(vol.ByteAddress(ext.addr));
  }

  /** The byte address of an inode. */
  method FindInode(vol: Volume, inum: u32, which: u32, address0: int, ghost t: Tree, ghost hi: int)
      returns (rc: int, address: int)
    requires vol.Valid()
    requires ValidTable(which) ==> HasTable(vol, which, t, hi) && GroupInImage(vol, t, Group(inum))
    ensures if ValidTable(which) then Result(rc, address) == InodeAddress(vol, t, inum) else rc == 1
    ensures rc != 0 ==> address == address0
  {
    hide HasTable;
    rc, address := 1, address0;
    var found, mapAddress := FindIag(vol, Group(inum), which, 0, t, hi);
    if found != 0 {
      return;
    }
    var extent := ReadListedExtent(vol, mapAddress, ExtentNumber(inum));
    match extent
    case None =>
    case Some(a) => return 0, a + SlotNumber(inum) * DINODE_SIZE;
  }

  /** The fileset's map and the two aggregate ones are at these bytes. */
  lemma TableInodes()
    ensures TableInode(FILESYSTEM_I) == 0xD000 && TableInode(AGGREGATE_I) == 0xB200
    ensures TableInode(AGGREGATE_2ND_I) == 0xAE00
  {
  }

  /** Where an inode lies, in bytes: in its slot of the extent that starts at the block which the
      page of its group lists, if that extent has any blocks. */
  lemma InodePlace(vol: Volume, t: Tree, inum: u32, a: int)
    requires vol.Valid() && IagAddress(vol, t, inum / 4096) == Some(a) && vol.InImage(a, 4096)
    ensures var pxd := DecodePxd(vol.Bytes(a, 4096), 3072 + 8 * (inum % 4096 / 32));
      InodeAddress(vol, t, inum) ==
        if pxd.len == 0 then None else Some(pxd.addr * vol.BSize() + inum % 32 * 512)
  {
    hide DecodePxd, IagAddress, Shl;
    ShlIsMul(InoExt(vol.Bytes(a, PSIZE), ExtentNumber(inum)).addr, vol.l2bsize);
  }

  /** The two tree searches agree on every group of a map - one succeeds exactly when the
      other does, and the page address of the one is the block address of the other shifted -
      if and only if the lookup does not end in a stale hit. */
  lemma SearchesAgree(vol: Volume, t: Tree, hi: int, iagnum: u32, xaddr0: int, xlen0: int)
    requires vol.Valid() && WellFormed(t, 0, hi)
    ensures var o := LookupOutcome(t, IagBlock(vol, iagnum), xaddr0, xlen0);
      (match IagAddress(vol, t, iagnum)
       case Some(a) => o.found && a == vol.ByteAddress(o.xaddr)
       case None => !o.found)
      <==> !StaleHit(t, IagBlock(vol, iagnum), false)
  {
    LookupAgreesExactly(t, hi, IagBlock(vol, iagnum), xaddr0, xlen0);
  }

  lemma NumberIsSplit(inum: u32)
    ensures inum == Group(inum) * INOSPERIAG + ExtentNumber(inum) * INOSPEREXT + SlotNumber(inum)
    ensures 0 <= SlotNumber(inum) < INOSPEREXT && Group(inum) < GROUPS
  {
  }

  /** The block of a group's page is that of page `iagnum + 1` of the map, behind the control
      page, if and only if its number does not overflow 32 bits - as it never does for a group
      that an inode number can have. */
  lemma IagBlockExact(vol: Volume, iagnum: u32)
    requires vol.Valid()
    ensures Shl(IagBlock(vol, iagnum), vol.l2bsize) == PSIZE * (iagnum + 1) <==> iagnum + 1 < Shl(1, 20 + vol.l2bsize)
    ensures iagnum < GROUPS ==> iagnum + 1 < Shl(1, 20 + vol.l2bsize)
  {
    ShlIsMul(iagnum + 1, 12 - vol.l2bsize);
    ShlIsMul(IagBlock(vol, iagnum), vol.l2bsize);
    PowersOfTwo();
  }

  lemma PowersOfTwo()
    ensures Shl(1, 0) == 1 && Shl(1, 1) == 2 && Shl(1, 2) == 4 && Shl(1, 3) == 8
    ensures Shl(1, 9) == 0x200 && Shl(1, 10) == 0x400 && Shl(1, 11) == 0x800 && Shl(1, 12) == 0x1000
    ensures Shl(1, 29) == 0x2000_0000 && Shl(1, 30) == 0x4000_0000 && Shl(1, 31) == 0x8000_0000 && Shl(1, 32) == TWO32
  {
    assert Shl(1, 9) == 0x200;
    assert Shl(1, 16) == 0x1_0000;
    assert Shl(1, 24) == 0x100_0000;
    assert Shl(1, 29) == 0x2000_0000;
  }

  lemma IagBlockIs(vol: Volume, iagnum: u32)
    requires vol.Valid() && iagnum < GROUPS
    ensures IagBlock(vol, iagnum) == PagesBlocks(vol) * (iagnum + 1)
    ensures 0 < PagesBlocks(vol) <= 8
  {
    ShlIsMul(iagnum + 1, 12 - vol.l2bsize);
    PowersOfTwo();
  }

  // The number of blocks of a page.
  function PagesBlocks(vol: Volume): int
    requires vol.Valid()
  {
    Shl(1, 12 - vol.l2bsize)
  }

  /** The pages of the groups of different inode numbers share no block of the map. */
  lemma IagPagesApart(vol: Volume, g1: u32, g2: u32)
    requires vol.Valid() && g1 < g2 < GROUPS
    ensures 0 < PagesBlocks(vol) <= IagBlock(vol, g1)
    ensures IagBlock(vol, g1) + PagesBlocks(vol) <= IagBlock(vol, g2)
  {
    var n := PagesBlocks(vol);
    IagBlockIs(vol, g1);
    IagBlockIs(vol, g2);
    MulMono(n, 1, g1 + 1);
    MulMono(n, g1 + 2, g2 + 1);
    MulAdd(n, g1 + 1, 1);
  }

  // The backed extents of all groups are pairwise disjoint.
  ghost predicate ExtentsDisjoint(vol: Volume, t: Tree)
    requires vol.Valid()
  {
    forall g1: u32, x1: nat, g2: u32, x2: nat
      | g1 < GROUPS && g2 < GROUPS && x1 < 128 && x2 < 128 && (g1, x1) != (g2, x2) ::
      ExtentAddress(vol, t, g1, x1).Some? && ExtentAddress(vol, t, g2, x2).Some? ==>
        Apart(ExtentAddress(vol, t, g1, x1).value, ExtentAddress(vol, t, g2, x2).value, EXTENT_BYTES)
  }

  predicate Apart(a: int, b: int, size: int) {
    a + size <= b || b + size <= a
  }

  /** No two inodes share a byte: if the backed extents of all groups are pairwise disjoint,
      so are the 512-byte places of any two inodes, each inside its own extent. */
  lemma InodesDisjoint(vol: Volume, t: Tree, inum1: u32, inum2: u32)
    requires vol.Valid() && inum1 != inum2 && ExtentsDisjoint(vol, t)
    requires InodeAddress(vol, t, inum1).Some? && InodeAddress(vol, t, inum2).Some?
    ensures Apart(InodeAddress(vol, t, inum1).value, InodeAddress(vol, t, inum2).value, DINODE_SIZE)
    ensures var a := ExtentAddress(vol, t, Group(inum1), ExtentNumber(inum1)).value;
      a <= InodeAddress(vol, t, inum1).value && InodeAddress(vol, t, inum1).value + DINODE_SIZE <= a + EXTENT_BYTES
  {
    NumberIsSplit(inum1);
    NumberIsSplit(inum2);
    var g1, x1, g2, x2 := Group(inum1), ExtentNumber(inum1), Group(inum2), ExtentNumber(inum2);
    if (g1, x1) != (g2, x2) {
      assert Apart(ExtentAddress(vol, t, g1, x1).value, ExtentAddress(vol, t, g2, x2).value, EXTENT_BYTES);
    }
  }

  // A disk with one IAG page at block 0, which lists extent 3 at block 5, and the map of that
  // page.
  function SmallDisk(l2bsize: nat): Volume {
    Volume(seq(PSIZE, k => if k == 3096 then INOSPEREXT else if k == 3100 then 5 else 0), l2bsize)
  }

  function SmallMap(per: u24): Tree {
    Leaf([Xad(per, per, 0)])
  }

  lemma SmallListed(l2bsize: nat, extnum: nat)
    requires extnum < 128
    ensures ListedExtent(SmallDisk(l2bsize), 0, extnum) ==
      if extnum == 3 then Some(5 * SmallDisk(l2bsize).BSize()) else None
  {
    var vol := SmallDisk(l2bsize);
    assert vol.Bytes(0, PSIZE) == vol.image;
    ShlIsMul(5, l2bsize);
  }

  lemma SmallAddress(l2bsize: nat, per: u24, g: u32)
    requires 9 <= l2bsize <= 12 && per == PagesBlocks(SmallDisk(l2bsize)) && g < GROUPS
    ensures IagAddress(SmallDisk(l2bsize), SmallMap(per), g) == if g == 0 then Some(0) else None
  {
    var vol := SmallDisk(l2bsize);
    IagBlockIs(vol, 0);
    if g == 0 {
      assert Xad(per, per, 0).Covers(IagBlock(vol, 0));
      ShlIsMul(0, l2bsize);
    } else {
      IagPagesApart(vol, 0, g);
      ScanNone([Xad(per, per, 0)], IagBlock(vol, g));
    }
  }

  /** There is such a map for every block size: this one has one backed extent, the fourth, and
      the addresses of 32 inodes. */
  lemma DisjointMapExists(l2bsize: nat) returns (vol: Volume, t: Tree)
    requires 9 <= l2bsize <= 12
    ensures vol.Valid() && vol.l2bsize == l2bsize && WellFormed(t, 0, 16) && ExtentsDisjoint(vol, t)
    ensures forall inum: u32 :: 96 <= inum < 128 ==>
      InodeAddress(vol, t, inum) == Some(5 * vol.BSize() + (inum - 96) * 512)
    ensures forall inum: u32 :: !(96 <= inum < 128) ==> InodeAddress(vol, t, inum).None?
  {
    vol := SmallDisk(l2bsize);
    IagBlockIs(vol, 0);
    var per: u24 := PagesBlocks(vol);
    t := SmallMap(per);
    hide SmallDisk, SmallMap, IagAddress, ListedExtent, PagesBlocks, Group, ExtentNumber, SlotNumber;
    forall g: u32, x: nat | g < GROUPS && x < 128
      ensures ExtentAddress(vol, t, g, x) == if g == 0 && x == 3 then Some(5 * vol.BSize()) else None
    {
      SmallAddress(l2bsize, per, g);
      SmallListed(l2bsize, x);
    }
    forall inum: u32
      ensures InodeAddress(vol, t, inum) ==
        if 96 <= inum < 128 then Some(5 * vol.BSize() + (inum - 96) * 512) else None
    {
      FourthExtent(inum);
    }
  }

  lemma FourthExtent(inum: u32)
    ensures Group(inum) < GROUPS && (Group(inum) == 0 && ExtentNumber(inum) == 3 <==> 96 <= inum < 128)
    ensures 96 <= inum < 128 ==> SlotNumber(inum) == inum - 96
  {
  }
}
