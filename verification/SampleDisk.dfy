/** A small disk, byte by byte: the inode map, a directory with an internal root and two leaf
    pages, a file in two extents and a symbolic link. What the operations give on it is written
    out, so that every offset, mask and constant of the on-disk format plays a part. */
module SampleDisk {
  import opened Layout
  import XT = XTree
  import opened AlignedRead
  import opened InodeMap
  import opened Unicode
  import opened DirNames
  import DT = DirTree
  import opened DirLookup

  const BLOCKS_END := 57344  // 14 blocks of 4096 bytes

  // Block 2: the page of group 0. It lists 4 blocks from block 4 on as extent 1.
  function GroupByte(k: int): byte {
    match k
    case 11272 => 4
    case 11276 => 4
    case _ => 0
  }

  // Blocks 4 to 7: inodes 32 to 63.
  function InodeByte(k: int): byte {
    match k
    // inode 33, a directory of mode 0x41ED: a root page with two children
    case 16948 => 0xED case 16949 => 0x41
    case 17136 => 5 case 17137 => 2 case 17144 => 2 case 17145 => 1
    case 17152 => 1 case 17156 => 9  // slot 1: block 9
    case 17184 => 1 case 17188 => 8  // slot 2: block 8
    // inode 34, a regular file of mode 0x81A4 and 6000 bytes: two extents
    case 17432 => 0x70 case 17433 => 0x17
    case 17460 => 0xA4 case 17461 => 0x81
    case 17648 => 3 case 17650 => 4
    case 17672 => 1 case 17676 => 11                   // block 0 of the file: block 11
    case 17684 => 1 case 17688 => 1 case 17692 => 10  // block 1 of the file: block 10
    // inode 35, a symbolic link of mode 0xA1FF and 9 bytes
    case 17944 => 9
    case 17972 => 0xFF case 17973 => 0xA1
    case _ => 0
  }

  // Block 8: the first leaf of the directory, with two entries in slots 6 and 5.
  function FirstLeafByte(k: int): byte {
    match k
    case 32768 => 9  // next: block 9
    case 32784 => 2 case 32785 => 2 case 32789 => 1
    case 32800 => 6 case 32801 => 5
    case 32928 => 35 case 32932 => 0xFF case 32933 => 1 case 32934 => 0x62  // "b"
    case 32960 => 34 case 32964 => 7 case 32965 => 13                       // "abcdefghijklm"
    case 32966 => 0x61 case 32968 => 0x62 case 32970 => 0x63 case 32972 => 0x64
    case 32974 => 0x65 case 32976 => 0x66 case 32978 => 0x67 case 32980 => 0x68
    case 32982 => 0x69 case 32984 => 0x6A case 32986 => 0x6B
    case 32992 => 0xFF case 32993 => 2 case 32994 => 0x6C case 32996 => 0x6D
    case _ => 0
  }

  // Block 9: the second leaf, with one entry in slot 5.
  function SecondLeafByte(k: int): byte {
    match k
    case 36872 => 8  // prev: block 8
    case 36880 => 2 case 36881 => 1 case 36885 => 1
    case 36896 => 5
    case 37024 => 33 case 37028 => 0xFF case 37029 => 1 case 37030 => 0x63  // "c"
    case _ => 0
  }

  // Block 13: the inode of the fileset's map, whose extent is 2 blocks from block 1 on.
  function MapByte(k: int): byte {
    match k
    case 53488 => 3 case 53490 => 3
    case 53512 => 2 case 53516 => 1
    case _ => 0
  }

  function ByteAt(k: int): byte {
    if k < 8192 then 0
    else if k < 12288 then GroupByte(k)
    else if k < 16384 then 0
    else if k < 32768 then InodeByte(k)
    else if k < 36864 then FirstLeafByte(k)
    else if k < 40960 then SecondLeafByte(k)
    else if k < 45056 then 0xAA
    else if k < 49152 then 0xBB
    else MapByte(k)
  }

  function Disk(): (vol: Volume) {
    Volume(seq(BLOCKS_END, k => ByteAt(k)), 12)
  }

  const MAP := XT.Leaf([Xad(0, 2, 1)])
  const FILE := XT.Leaf([Xad(0, 1, 11), Xad(1, 1, 10)])
  const LONG: seq<u16> := [0x61, 0x62, 0x63, 0x64, 0x65, 0x66, 0x67, 0x68, 0x69, 0x6A, 0x6B, 0x6C, 0x6D]
  const FIRST: seq<Entry> := [Entry(LONG, 34), Entry([0x62], 35)]
  const SECOND: seq<Entry> := [Entry([0x63], 33)]
  const DIRECTORY := DT.Node([DT.Leaf(8, FIRST), DT.Leaf(9, SECOND)])

  lemma DiskFacts()
    ensures Disk().Valid() && Disk().BSize() == 4096 && WholeBlocks(Disk()) && |Disk().image| == BLOCKS_END
    ensures forall block :: Disk().ByteAddress(block) == 4096 * block
  {
    BlockSizes(Disk());
    forall block ensures Disk().ByteAddress(block) == 4096 * block {
      ShlIsMul(block, 12);
    }
  }

  // A byte of what is read from the disk.
  lemma ReadByte(a: int, n: int, k: int)
    requires 0 <= a && 0 <= k < n && a + n <= BLOCKS_END
    ensures Disk().InImage(a, n) && Disk().Bytes(a, n)[k] == ByteAt(a + k)
  {
  }

  // The inode at byte `a`.
  function InodeAt(a: int): (inode: Dinode)
    requires 0 <= a && a + 512 <= BLOCKS_END
    ensures |inode.root| == 288
  {
    DiskSize();
    DecodeDinode(Disk().Bytes(a, DINODE_SIZE))
  }

  lemma DiskSize()
    ensures |Disk().image| == BLOCKS_END
  {
  }

  lemma RootByte(a: int, k: int)
    requires 0 <= a && a + 512 <= BLOCKS_END && 0 <= k < 288
    ensures InodeAt(a).root[k] == ByteAt(a + 224 + k)
  {
    ReadByte(a, 512, 224 + k);
  }

  // ---------- extent trees ----------

  // An extent with small numbers, byte by byte.
  lemma XadBytes(b: seq<byte>, o: nat, off: byte, len: byte, addr: byte)
    requires o + 16 <= |b|
    requires forall k :: o <= k < o + 16 ==>
      b[k] == if k == o + 4 then off else if k == o + 8 then len else if k == o + 12 then addr else 0
    ensures DecodeXad(b, o) == Xad(off, len, addr)
  {
  }

  lemma HeaderOf(root: seq<byte>)
    requires |root| == 288 && root[16] == 3 && root[19] == 0
    ensures var p := DecodeXPage(root); p.IsLeaf() && !p.IsInternal() && p.nextindex == root[18] && |p.xad| == 18
  {
    hide DecodeXad;
  }

  lemma RootHeader(a: int)
    requires 0 <= a && a + 512 <= BLOCKS_END && ByteAt(a + 240) == 3 && ByteAt(a + 243) == 0
    ensures var p := InodeAt(a).XtRoot();
      p.IsLeaf() && !p.IsInternal() && p.nextindex == ByteAt(a + 242) && |p.xad| == 18
  {
    hide ByteAt, InodeAt, DecodeXPage;
    RootByte(a, 16);
    RootByte(a, 18);
    RootByte(a, 19);
    HeaderOf(InodeAt(a).root);
  }

  lemma RootXad(a: int, i: nat, off: byte, len: byte, addr: byte)
    requires 0 <= a && a + 512 <= BLOCKS_END && 2 <= i < 18
    requires var o := a + 224 + 16 * i;
      forall k :: o <= k < o + 16 ==>
        ByteAt(k) == if k == o + 4 then off else if k == o + 8 then len else if k == o + 12 then addr else 0
    ensures |InodeAt(a).XtRoot().xad| == 18 && InodeAt(a).XtRoot().xad[i] == Xad(off, len, addr)
  {
    hide ByteAt;
    var root, o := InodeAt(a).root, a + 224 + 16 * i;
    forall k | 16 * i <= k < 16 * i + 16 ensures root[k] == ByteAt(a + 224 + k) {
      RootByte(a, k);
    }
    XadBytes(root, 16 * i, off, len, addr);
  }

  // ---------- the inode map ----------

  lemma MapIsThere()
    ensures HasTable(Disk(), FILESYSTEM_I, MAP, 2)
  {
    DiskFacts();
    TableInodes();
    RootHeader(0xD000);
    RootXad(0xD000, 2, 0, 2, 1);
    ReadByte(0xD000, 512, 0);
    hide Disk, ByteAt;
    var p := InodeAt(0xD000).XtRoot();
    assert p.xad[2..3] == [Xad(0, 2, 1)];
  }

  // The page of group 0 lists blocks for extent 1 only.
  lemma Listed(x: nat)
    requires x < 128
    ensures Disk().InImage(8192, 4096)
    ensures DecodePxd(Disk().Bytes(8192, 4096), 3072 + 8 * x) == if x == 1 then Pxd(4, 4) else Pxd(0, 0)
  {
    var b, o := Disk().Bytes(8192, 4096), 3072 + 8 * x;
    forall k | o <= k < o + 8 ensures b[k] == if x == 1 && (k == o || k == o + 4) then 4 else 0 {
      ReadByte(8192, 4096, k);
      assert ByteAt(8192 + k) == GroupByte(8192 + k);
    }
  }

  lemma GroupPage(g: u32)
    requires g < GROUPS
    ensures Disk().Valid() && IagAddress(Disk(), MAP, g) == if g == 0 then Some(8192) else None
    ensures GroupInImage(Disk(), MAP, g)
  {
    DiskFacts();
    hide ByteAt, Disk;
    IagBlockIs(Disk(), g);
    XT.ScanNone([Xad(0, 2, 1)], g + 1);
  }

  /** Exactly the inodes 32 to 63 exist, from byte 16384 on. */
  lemma Inodes(inum: u32)
    ensures Disk().Valid()
    ensures InodeAddress(Disk(), MAP, inum) == if 32 <= inum < 64 then Some(16384 + (inum - 32) * 512) else None
  {
    DiskFacts();
    NumberIsSplit(inum);
    GroupPage(Group(inum));
    if Group(inum) == 0 {
      Listed(inum % 4096 / 32);
      InodePlace(Disk(), MAP, inum, 8192);
      hide Disk, ByteAt;
    }
  }

  // ---------- the directory ----------

  lemma SlotByte(block: int, i: nat, j: nat)
    requires 0 <= block < 14 && i < 128 && j < 32
    ensures Disk().HasPage(block) && DT.DPageAt(Disk(), block).slots[i][j] == ByteAt(4096 * block + 32 * i + j)
  {
    DiskFacts();
    ReadByte(4096 * block, 4096, 32 * i + j);
    hide Disk, ByteAt;
  }

  // The header of a leaf page whose entries are listed in slot 1.
  lemma LeafHeader(block: int, next: byte, n: byte)
    requires 8 <= block <= 9 && n <= 2
    requires forall k :: 4096 * block <= k < 4096 * block + 8 ==> ByteAt(k) == if k == 4096 * block then next else 0
    requires ByteAt(4096 * block + 16) == 2 && ByteAt(4096 * block + 17) == n && ByteAt(4096 * block + 21) == 1
    ensures Disk().HasPage(block)
    ensures var p := DT.DPageAt(Disk(), block);
      && p.IsLeaf() && p.nextindex == n && p.next == next && |p.slots| == 128 && |p.stbl| > 2
      && p.stbl[0] == ByteAt(4096 * block + 32) && p.stbl[1] == ByteAt(4096 * block + 33)
  {
    DiskFacts();
    var base := 4096 * block;
    forall k | base <= k < base + 4096
      ensures Disk().InImage(base, 4096) && Disk().Bytes(base, 4096)[k - base] == ByteAt(k)
    {
      ReadByte(base, 4096, k - base);
    }
    hide Disk, ByteAt;
    var b := Disk().Bytes(base, 4096);
    forall k | 0 <= k < 8 ensures b[k] == if k == 0 then next else 0 {
      assert b[base + k - base] == ByteAt(base + k);
    }
    HeaderBytes(b, next, n);
  }

  lemma HeaderBytes(b: seq<byte>, next: byte, n: byte)
    requires |b| == 4096 && (forall k :: 0 <= k < 8 ==> b[k] == if k == 0 then next else 0)
    requires b[16] == 2 && b[17] == n && b[21] == 1
    ensures var p := DT.DecodeDPage(b);
      && p.IsLeaf() && p.nextindex == n && p.next == next && |p.slots| == 128 && |p.stbl| > 2
      && p.stbl[0] == b[32] && p.stbl[1] == b[33]
  {
    assert b[32..][0] == b[32] && b[32..][1] == b[33];
  }

  // The bytes of a slot with an entry whose name is one unit.
  function ShortSlot(c: byte, ino: byte, j: int): byte {
    if j == 0 then ino else if j == 4 then 0xFF else if j == 5 then 1 else if j == 6 then c else 0
  }

  // The bytes of the two slots of the long name.
  function LongHead(j: int): byte {
    if j == 0 then 34 else if j == 4 then 7 else if j == 5 then 13
    else if 6 <= j < 28 && j % 2 == 0 then 0x61 + (j - 6) / 2 else 0
  }

  function LongRest(j: int): byte {
    if j == 0 then 0xFF else if j == 1 then 2 else if j == 2 then 0x6C else if j == 4 then 0x6D else 0
  }

  lemma ShortEntry(slot: seq<Slot>, head: nat, c: byte, ino: byte)
    requires head < |slot| && c > 0 && forall j :: 0 <= j < 32 ==> slot[head][j] == ShortSlot(c, ino, j)
    ensures StoresEntry(slot, head, Entry([c], ino))
  {
    var s := slot[head];
    assert HeadName(s)[..1] == [c];
    assert StoresName(slot, head, [], [c]);
  }

  // The long name is in slots 6 and 7.
  lemma LongEntry(slot: seq<Slot>)
    requires |slot| == 128 && forall j :: 0 <= j < 32 ==> slot[6][j] == LongHead(j)
    requires forall j :: 0 <= j < 32 ==> slot[7][j] == LongRest(j)
    ensures StoresEntry(slot, 6, Entry(LONG, 34))
  {
    var h, c := slot[6], slot[7];
    assert HeadName(h)[..11] == LONG[..11] by {
      forall i | 0 <= i < 11 ensures U16(h, 6 + 2 * i) == 0x61 + i {
      }
    }
    assert ContName(c)[..2] == LONG[11..];
    assert StoresTail(slot, [7], LONG[11..]) by {
      assert StoresTail(slot, [7][1..], LONG[11..][2..]);
    }
    assert IsChain(slot, 7, [7]) by {
      assert IsChain(slot, ContNext(c), [7][1..]);
    }
    assert StoresName(slot, 6, [7], LONG);
  }

  lemma SlotsOfLeaves(j: nat)
    requires j < 32
    ensures ByteAt(32768 + 160 + j) == ShortSlot(0x62, 35, j) && ByteAt(36864 + 160 + j) == ShortSlot(0x63, 33, j)
    ensures ByteAt(32768 + 192 + j) == LongHead(j) && ByteAt(32768 + 224 + j) == LongRest(j)
  {
  }

  lemma FirstLeaf()
    ensures DT.InPlace(Disk(), DT.Leaf(8, FIRST)) && DT.DPageAt(Disk(), 8).next == 9
  {
    LeafHeader(8, 9, 2);
    var slot := DT.DPageAt(Disk(), 8).slots;
    assert ByteAt(32800) == 6 && ByteAt(32801) == 5;
    hide ByteAt, ShortSlot, LongHead, LongRest, Disk;
    forall j | 0 <= j < 32
      ensures slot[5][j] == ShortSlot(0x62, 35, j) && slot[6][j] == LongHead(j) && slot[7][j] == LongRest(j)
    {
      SlotByte(8, 5, j);
      SlotByte(8, 6, j);
      SlotByte(8, 7, j);
      SlotsOfLeaves(j);
    }
    ShortEntry(slot, 5, 0x62, 35);
    LongEntry(slot);
  }

  lemma SecondLeaf()
    ensures DT.InPlace(Disk(), DT.Leaf(9, SECOND)) && DT.DPageAt(Disk(), 9).next == 0
  {
    LeafHeader(9, 0, 1);
    var slot := DT.DPageAt(Disk(), 9).slots;
    assert ByteAt(36896) == 5;
    hide ByteAt, ShortSlot, Disk;
    forall j | 0 <= j < 32 ensures slot[5][j] == ShortSlot(0x63, 33, j) {
      SlotByte(9, 5, j);
      SlotsOfLeaves(j);
    }
    ShortEntry(slot, 5, 0x63, 33);
  }

  // The root of the directory: its two children in order, listed in slots 2 and 1.
  lemma DirectoryPage()
    ensures var p := DecodeDRootOf(16896);
      && !p.IsLeaf() && p.nextindex == 2 && |p.slots| == 9 && |p.stbl| == 8 && p.stbl[0] == 2 && p.stbl[1] == 1
      && DT.ChildBlock(p.slots[2]) == 8 && DT.ChildBlock(p.slots[1]) == 9
  {
    var root := InodeAt(16896).root;
    forall k | 0 <= k < 288 ensures root[k] == ByteAt(17120 + k) {
      RootByte(16896, k);
    }
    hide Disk, InodeAt, DT.DecodeDRoot;
    assert root[16] == 5 && root[17] == 2 && root[24..32][0] == root[24] == 2 && root[24..32][1] == root[25] == 1;
    forall k | 32 <= k < 40 ensures root[k] == if k == 32 then 1 else if k == 36 then 9 else 0 {
    }
    forall k | 64 <= k < 72 ensures root[k] == if k == 64 then 1 else if k == 68 then 8 else 0 {
    }
    ChildBytes(root[32..64], 9);
    ChildBytes(root[64..96], 8);
    hide ByteAt, DT.ChildBlock;
    RootSlots(root);
  }

  lemma RootSlots(root: seq<byte>)
    requires |root| == 288
    ensures var p := DT.DecodeDRoot(root);
      && p.flag == root[16] && p.nextindex == root[17] && p.stbl == root[24..32]
      && |p.slots| == 9 && p.slots[1] == root[32..64] && p.slots[2] == root[64..96]
  {
    var p := DT.DecodeDRoot(root);
    assert p.slots[1] == root[32..64] && p.slots[2] == root[64..96];
  }

  lemma ChildBytes(s: Slot, block: byte)
    requires forall j :: 0 <= j < 8 ==> s[j] == if j == 0 then 1 else if j == 4 then block else 0
    ensures DT.ChildBlock(s) == block
  {
  }

  function DecodeDRootOf(a: int): DT.DPage
    requires 0 <= a && a + 512 <= BLOCKS_END
  {
    DT.DecodeDRoot(InodeAt(a).root)
  }

  lemma TwoKids(vol: Volume, p: DT.DPage, a: DT.Tree, b: DT.Tree)
    requires !p.IsLeaf() && p.nextindex == 2 && |p.stbl| >= 2 && DT.InPlace(vol, a) && DT.InPlace(vol, b)
    requires p.stbl[0] < |p.slots| && DT.ChildBlock(p.slots[p.stbl[0]]) == a.block
    requires p.stbl[1] < |p.slots| && DT.ChildBlock(p.slots[p.stbl[1]]) == b.block
    ensures DT.Stored(vol, p, DT.Node([a, b]))
  {
    hide DT.StoredLeaf, DT.DPageAt, DT.ChildBlock;
    assert DT.StoredKid(vol, p, [a, b], 0) && DT.StoredKid(vol, p, [a, b], 1);
  }

  lemma DirectoryIsStored()
    ensures DT.Stored(Disk(), DecodeDRootOf(16896), DIRECTORY)
  {
    hide Disk, DecodeDRootOf, DT.InPlace, DT.ChildBlock, DT.Stored;
    FirstLeaf();
    SecondLeaf();
    DirectoryPage();
    TwoKids(Disk(), DecodeDRootOf(16896), DT.Leaf(8, FIRST), DT.Leaf(9, SECOND));
  }

  lemma DirectoryIsThere()
    ensures DT.IsDirectory(Disk(), DecodeDRootOf(16896), DIRECTORY)
  {
    DiskFacts();
    FirstLeaf();
    SecondLeaf();
    DirectoryIsStored();
    var a, b := DT.Leaf(8, FIRST), DT.Leaf(9, SECOND);
    hide Disk, ByteAt, DecodeDRootOf, DT.InPlace, DT.DPageAt, DT.Stored;
    LeavesAre(a, b);
    assert DT.Chained(Disk(), [a, b]);
  }

  lemma LeavesAre(a: DT.Tree, b: DT.Tree)
    requires a.Leaf? && b.Leaf?
    ensures DT.Leaves(DT.Node([a, b])) == [a, b] && DT.Contents(DT.Node([a, b])) == a.es + b.es
  {
    assert DT.LeavesOf([b]) == [b] by {
      assert [b][1..] == [];
    }
    assert DT.LeavesOf([a, b]) == [a, b] by {
      assert [a, b][1..] == [b];
    }
    assert DT.EntriesOf([b]) == b.es by {
      assert [b][1..] == [];
    }
    assert DT.EntriesOf([a, b]) == a.es + b.es by {
      assert [a, b][1..] == [b];
    }
  }

  // ---------- the inodes ----------

  // Size and mode of an inode whose higher bytes are zero.
  lemma SizeAndMode(a: int, s0: byte, s1: byte, m0: byte, m1: byte)
    requires 0 <= a && a + 512 <= BLOCKS_END
    requires forall k :: a + 24 <= k < a + 32 ==> ByteAt(k) == if k == a + 24 then s0 else if k == a + 25 then s1 else 0
    requires forall k :: a + 52 <= k < a + 56 ==> ByteAt(k) == if k == a + 52 then m0 else if k == a + 53 then m1 else 0
    ensures InodeAt(a).size == s0 + 0x100 * s1 && InodeAt(a).mode == m0 + 0x100 * m1
  {
    hide ByteAt;
    DiskSize();
    var b := Disk().Bytes(a, 512);
    forall k | 0 <= k < 512 ensures b[k] == ByteAt(a + k) {
      ReadByte(a, 512, k);
    }
    hide Disk;
    forall k | 24 <= k < 32 ensures b[k] == if k == 24 then s0 else if k == 25 then s1 else 0 {
    }
    forall k | 52 <= k < 56 ensures b[k] == if k == 52 then m0 else if k == 53 then m1 else 0 {
    }
  }

  /** The directory, the file and the link are what their modes say. */
  lemma Modes()
    ensures InodeAt(16896).mode == 0x41ED && InodeAt(16896).IsDir() && !InodeAt(16896).IsLink()
    ensures InodeAt(17408).mode == 0x81A4 && !InodeAt(17408).IsDir() && !InodeAt(17408).IsLink()
    ensures InodeAt(17920).mode == 0xA1FF && !InodeAt(17920).IsDir() && InodeAt(17920).IsLink()
    ensures InodeAt(17408).size == 6000 && InodeAt(17920).size == 9
  {
    hide InodeAt;
    SizeAndMode(16896, 0, 0, 0xED, 0x41);
    SizeAndMode(17408, 0x70, 0x17, 0xA4, 0x81);
    SizeAndMode(17920, 9, 0, 0xFF, 0xA1);
  }

  lemma FileExtents()
    ensures var p := InodeAt(17408).XtRoot();
      |p.xad| == 18 && p.xad[2] == Xad(0, 1, 11) && p.xad[3] == Xad(1, 1, 10)
  {
    hide InodeAt;
    RootXad(17408, 2, 0, 1, 11);
    RootXad(17408, 3, 1, 1, 10);
  }

  lemma TwoExtents(vol: Volume, p: XPage, e: Xad, f: Xad)
    requires p.IsLeaf() && !p.IsInternal() && p.nextindex == 4 && |p.xad| == 18 && p.xad[2] == e && p.xad[3] == f
    ensures XT.Stored(vol, p, XT.Leaf([e, f]))
  {
    assert p.xad[2..4] == [e, f];
  }

  lemma FileIsThere()
    ensures XT.Stored(Disk(), InodeAt(17408).XtRoot(), FILE) && XT.WellFormed(FILE, 0, 2)
  {
    hide InodeAt, Disk, XT.Stored, DecodeXPage, DecodeXad, Dinode.XtRoot;
    assert ByteAt(17648) == 3 && ByteAt(17650) == 4 && ByteAt(17651) == 0;
    hide ByteAt;
    RootHeader(17408);
    FileExtents();
    TwoExtents(Disk(), InodeAt(17408).XtRoot(), Xad(0, 1, 11), Xad(1, 1, 10));
  }

  // ---------- what is listed ----------

  lemma InodeIs(inum: u32)
    requires 32 <= inum < 64
    ensures var a := 16384 + (inum - 32) * 512;
      && InodeAddress(Disk(), MAP, inum) == Some(a) && Disk().InImage(a, 512)
      && DecodeDinode(Disk().Bytes(a, 512)) == InodeAt(a)
  {
    Inodes(inum);
    DiskSize();
  }

  lemma GroupIs(inum: u32)
    requires 32 <= inum < 64
    ensures HasTable(Disk(), FILESYSTEM_I, MAP, 2) && GroupInImage(Disk(), MAP, Group(inum))
  {
    hide Disk, HasTable, GroupInImage, IagAddress;
    assert Group(inum) == 0;
    MapIsThere();
    GroupPage(0);
  }

  lemma DirectoryRootIs(inum: u32)
    requires 32 <= inum < 64
    ensures Disk().Valid()
    ensures var a := 16384 + (inum - 32) * 512;
      DirectoryRoot(Disk(), MAP, inum) == if InodeAt(a).IsDir() then Some(DecodeDRootOf(a)) else None
  {
    DiskFacts();
    InodeIs(inum);
    hide Disk, ByteAt, InodeAddress;
  }

  lemma CanReadInode(inum: u32, t: DT.Tree)
    requires 32 <= inum < 64 && Disk().Valid()
    requires DirectoryRoot(Disk(), MAP, inum).Some? ==>
      DT.IsDirectory(Disk(), DirectoryRoot(Disk(), MAP, inum).value, t)
    ensures CanRead(Disk(), MAP, 2, inum, t)
  {
    GroupIs(inum);
    InodeIs(inum);
    hide Disk, ByteAt, DT.IsDirectory, HasTable, GroupInImage, InodeAddress, DirectoryRoot, InodeAt;
  }

  /** Inode 33 lists the entries of both leaves. */
  lemma SampleListing()
    ensures Disk().Valid() && CanRead(Disk(), MAP, 2, 33, DIRECTORY)
    ensures Listing(Disk(), MAP, 33, DIRECTORY) == [Entry(LONG, 34), Entry([0x62], 35), Entry([0x63], 33)]
  {
    DirectoryRootIs(33);
    Modes();
    DirectoryIsThere();
    LeavesAre(DT.Leaf(8, FIRST), DT.Leaf(9, SECOND));
    hide Disk, ByteAt, InodeAt, DT.IsDirectory, DT.Contents, CanRead, DirectoryRoot;
    CanReadInode(33, DIRECTORY);
  }

  /** A regular file, or a link, lists nothing. */
  lemma NothingListed(inum: u32, t: DT.Tree)
    requires inum == 34 || inum == 35
    ensures Disk().Valid() && CanRead(Disk(), MAP, 2, inum, t) && Listing(Disk(), MAP, inum, t) == []
  {
    hide Disk, InodeAt, CanRead, DirectoryRoot, DecodeDRootOf;
    Modes();
    DirectoryRootIs(inum);
    assert DirectoryRoot(Disk(), MAP, inum) == None;
    CanReadInode(inum, t);
  }
}
