/** What the operations give on the sample disk, written out. */
module SampleRuns {
  import opened Layout
  import opened XTree
  import opened BufferPool
  import opened FileRead
  import opened InodeMap
  import opened FileBytes
  import opened Unicode
  import opened DirNames
  import opened SampleDisk
  import FP = FilePager
  import DT = DirTree
  import DL = DirLookup
  import GD = GetDirects

  // ---------- the file ----------

  lemma FileCanOpen()
    ensures FP.CanOpen(Disk(), MAP, 2, 34, FILE, 2)
  {
    hide HasTable, GroupInImage, Stored, WellFormed, InodeAddress;
    DiskFacts();
    GroupIs(34);
    InodeIs(34);
    FileIsThere();
    hide Disk;
  }

  // The pages of the file are blocks 11 and 10.
  lemma Places(xaddr0: int)
    ensures PagerPlace(FILE, 0, xaddr0) == Some(45056)
    ensures PagerPlace(FILE, 4096, xaddr0) == Some(40960)
  {
    var es := Flatten(FILE);
    ScanHit(es, 0, 0);
    ScanHit(es, 1, 1);
    PagerPlaceByDisplacement(FILE, 0, xaddr0);
    PagerPlaceByDisplacement(FILE, 4096, xaddr0);
  }

  /** The pages of the file, byte by byte: block 11, then block 10 up to byte 6000, then zeros. */
  function PageOfFile(page: u32): seq<byte> {
    if page == 0 then seq(4096, _ => 0xBB)
    else if page == 4096 then seq(1904, _ => 0xAA) + seq(2192, _ => 0)
    else seq(4096, _ => 0)
  }

  lemma FaultIs(page: u32, xaddr0: int, err: FP.Error, b: seq<byte>)
    requires page % 4096 == 0 && FP.Fault(Disk(), PagerPlace(FILE, page, xaddr0), 6000, page, err, b)
    ensures err == FP.Ok && b == PageOfFile(page)
  {
    Places(xaddr0);
    hide PagerPlace;
  }

  /** Every page fault on the file gives the page that was written out. */
  method FaultOnFile(page: u32, log2: nat, xaddr0: int) returns (err: FP.Error, b: seq<byte>)
    requires page % 4096 == 0 && log2 <= 12
    ensures err == FP.Ok && b == PageOfFile(page)
  {
    hide FP.CanOpen, Disk, FP.Fault, PagerPlace, InodeAddress, PageOfFile, MAP, FILE;
    DiskFacts();
    FileCanOpen();
    InodeIs(34);
    var pool := new Pool();
    var buf, writelock;
    err, buf, writelock := FP.PagerReadPage(Disk(), FP.FileData(34, 6000), page, log2, pool, xaddr0, MAP, 2, FILE, 2);
    b := if buf == null then [] else buf[..];
    FaultIs(page, xaddr0, err, b);
  }

  /** A page fault on the disk itself gives block 10 as it is, and fails behind the last block. */
  method FaultOnDisk(log2: nat, xaddr0: int) returns (b: seq<byte>, err: FP.Error)
    requires log2 <= 12
    ensures b == seq(4096, _ => 0xAA) && err == FP.Eio
  {
    DiskFacts();
    assert Disk().Bytes(40960, 4096) == seq(4096, _ => 0xAA);
    hide Disk;
    var pool := new Pool();
    var buf, writelock;
    err, buf, writelock := FP.PagerReadPage(Disk(), FP.Disk, 40960, log2, pool, xaddr0, MAP, 2, FILE, 2);
    b := buf[..];
    err, buf, writelock := FP.PagerReadPage(Disk(), FP.Disk, 57344, log2, pool, xaddr0, MAP, 2, FILE, 2);
  }

  /** The node of the file has the size of its inode, and that of the link has none. */
  lemma SampleSizes()
    ensures Disk().Valid()
    ensures FP.NodeSize(Disk(), MAP, 34) == Some(6000) && FP.NodeSize(Disk(), MAP, 35) == Some(0)
  {
    hide Disk, InodeAt, InodeAddress;
    DiskFacts();
    InodeIs(34);
    InodeIs(35);
    Modes();
  }

  // ---------- the directory ----------

  const ENTRIES: seq<Entry> := [Entry(LONG, 34), Entry([0x62], 35), Entry([0x63], 33)]
  const ABC: seq<byte> := [0x61, 0x62, 0x63]

  /** Looking up "b" gives its inode; "abc" gives that of the longer name; "z" is not there. */
  lemma SampleSearches(g0: int)
    ensures DL.SearchResult(ENTRIES, [0x62], g0) == 35
    ensures DL.SearchResult(ENTRIES, ABC, g0) == 34
    ensures DL.FirstMatch(ENTRIES, [0x7A]) == 3 && DL.SearchResult(ENTRIES, [0x7A], g0) == 0xFFFF_FFFF_FFFF_FFFF
  {
    DL.ExactNameFound(ENTRIES, 1, [0x62]);
    DL.PrefixMatches(LONG, ABC);
    DL.FirstMatchIs(ENTRIES, ABC, 0);
    forall k | 0 <= k < 3 ensures !Matches([0x7A], ENTRIES[k].name) {
      DL.EarlierDoesNotMatch(ENTRIES[k].name, [0x7A]);
    }
    DL.FirstMatchIs(ENTRIES, [0x7A], 3);
  }

  method SearchSample(g0: int) returns (b: int, abc: int, z: int, err: DL.Error)
    requires g0 != 0xFFFF_FFFF_FFFF_FFFF
    ensures b == 35 && abc == 34 && z == 0xFFFF_FFFF_FFFF_FFFF && err == DL.Enoent
  {
    hide Disk, DL.CanRead, DL.Listing, DL.FirstMatch, DL.SearchResult, MAP, DIRECTORY, LONG;
    SampleListing();
    SampleSearches(g0);
    var utf8 := new byte[UTF8_BUFFER];
    b := DL.Directory(Disk(), 33, [0x62], g0, utf8, MAP, 2, DIRECTORY);
    abc := DL.Directory(Disk(), 33, ABC, g0, utf8, MAP, 2, DIRECTORY);
    err, z := DL.Dirscan(Disk(), 33, [0x7A], g0, utf8, MAP, 2, DIRECTORY);
  }

  lemma SampleRecords()
    ensures DT.FitsNames(ENTRIES, 100)
    ensures GD.RecordsOf(ENTRIES) == [GD.Dirent(LONG, 34), GD.Dirent([0x62], 35), GD.Dirent([0x63], 33)]
  {
    GD.RecordOfAscii(ENTRIES[0]);
    GD.RecordOfAscii(ENTRIES[1]);
    GD.RecordOfAscii(ENTRIES[2]);
    hide GD.RecordOf;
  }

  /** A client that reads the directory gets three records, and an inode that is no directory
      gives none. */
  method ListSample() returns (all: seq<GD.Dirent>, none: seq<GD.Dirent>)
    ensures all == [GD.Dirent(LONG, 34), GD.Dirent([0x62], 35), GD.Dirent([0x63], 33)]
    ensures none == []
  {
    hide Disk, DL.CanRead, DL.Listing, DT.FitsNames, GD.RecordsOf, MAP, DIRECTORY, LONG;
    SampleListing();
    SampleRecords();
    NothingListed(34, DIRECTORY);
    NoRecords();
    var utf8, data := new byte[UTF8_BUFFER], new byte[3360];
    all := GD.ReadOn(Disk(), 33, false, data, utf8, MAP, 2, DIRECTORY);
    none := GD.ReadOn(Disk(), 34, false, data, utf8, MAP, 2, DIRECTORY);
  }

  lemma NoRecords()
    ensures DT.FitsNames([], 100) && GD.RecordsOf([]) == []
  {
  }
}
