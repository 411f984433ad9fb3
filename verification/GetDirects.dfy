/** The packing of directory entries into the records that a client reads, thirty entries at
    most at a time. */
module GetDirects {
  import opened Layout
  import opened AlignedRead
  import opened InodeMap
  import XT = XTree
  import opened Unicode
  import opened DirNames
  import opened DirTree
  import opened DirLookup

  // struct dirent: d_ino (4 bytes), d_reclen (2), d_type (1), d_namlen (1), d_name.
  const DIRENT_SIZE := 12
  const NAME_OFFSET := 8
  const NAME_BUFFER := 100
  const MAX_ENTRIES := 30
  const MAX_RECORD := 112

  // (sizeof (struct dirent) + namelen + 3) & ~3
  function RecordLength(namelen: nat): nat {
    (DIRENT_SIZE + namelen + 3) / 4 * 4
  }

  /** What a record says. */
  datatype Dirent = Dirent(name: seq<byte>, ino: u32) {
    function RecLen(): nat {
      RecordLength(|name|)
    }
  }

  function RecordOf(e: Entry): Dirent {
    Dirent(CString(CName(e.name)), e.inumber)
  }

  // The record of an ASCII name carries the name itself.
  lemma RecordOfAscii(e: Entry)
    requires Ascii(e.name)
    ensures RecordOf(e) == Dirent(e.name, e.inumber)
  {
    CNameAscii(e.name);
    CStringIs(CName(e.name), |e.name|);
  }

  function RecordsOf(es: seq<Entry>): (ds: seq<Dirent>)
    ensures |ds| == |es|
  {
    seq(|es|, i requires 0 <= i < |es| => RecordOf(es[i]))
  }

  // ---------- records in a buffer ----------

  /** The record at byte `at` of the buffer says `d`. */
  predicate IsRecord(b: seq<byte>, at: nat, d: Dirent) {
    && at + d.RecLen() <= |b| && |d.name| <= 0xFF
    && U32(b, at) == d.ino && U16(b, at + 4) == d.RecLen()
    && b[at + 6] == 0 && b[at + 7] == |d.name|
    && b[at + NAME_OFFSET..at + NAME_OFFSET + |d.name|] == d.name
    && b[at + NAME_OFFSET + |d.name|] == 0
  }

  // Where record k starts.
  function Offset(ds: seq<Dirent>, k: nat): nat
    requires k <= |ds|
  {
    if k == 0 then 0 else Offset(ds, k - 1) + ds[k - 1].RecLen()
  }

  /** Read records from byte `from` up to byte `to`, going from each to the next by its
      d_reclen. */
  function Parse(b: seq<byte>, from: nat, to: nat): Option<seq<Dirent>>
    requires from <= to <= |b|
    decreases (to as int) - (from as int)
  {
    if from == to then Some([])
    else if from + DIRENT_SIZE > to then None
    else
      var reclen, namlen := U16(b, from + 4), b[from + 7];
      if reclen == 0 || reclen % 4 != 0 || from + reclen > to || NAME_OFFSET + namlen as int >= reclen then None
      else match Parse(b, from + reclen, to)
        case None => None
        case Some(rest) =>
          Some([Dirent(b[from + NAME_OFFSET..from + NAME_OFFSET + namlen as int], U32(b, from))] + rest)
  }

  lemma {:induction false} OffsetMonotone(ds: seq<Dirent>, i: nat, j: nat)
    requires i <= j <= |ds|
    ensures Offset(ds, i) <= Offset(ds, j)
  {
    if i < j {
      OffsetMonotone(ds, i, j - 1);
    }
  }

  lemma ParseEnd(b: seq<byte>, to: nat)
    requires to <= |b|
    ensures Parse(b, to, to) == Some([])
  {
  }

  // One hop of the parser.
  lemma ParseRecord(b: seq<byte>, from: nat, to: nat, d: Dirent)
    requires IsRecord(b, from, d) && from + d.RecLen() <= to <= |b|
    ensures Parse(b, from, to) == match Parse(b, from + d.RecLen(), to)
                                  case None => None
                                  case Some(rest) => Some([d] + rest)
  {
    RecLenFacts(|d.name|);
    hide RecordLength;
    assert b[from + NAME_OFFSET..from + NAME_OFFSET + b[from + 7] as int] == d.name;
  }

  lemma RecLenFacts(namelen: nat)
    ensures RecordLength(namelen) % 4 == 0 && namelen + DIRENT_SIZE <= RecordLength(namelen)
  {
  }

  /** Records packed back to back are parsed back, in order, all of them. */
  lemma {:induction false} ParsePacked(b: seq<byte>, ds: seq<Dirent>, i: nat, n: nat)
    requires i <= n <= |ds| && Offset(ds, n) <= |b|
    requires forall k :: i <= k < n ==> IsRecord(b, Offset(ds, k), ds[k])
    ensures Offset(ds, i) <= Offset(ds, n)
    ensures Parse(b, Offset(ds, i), Offset(ds, n)) == Some(ds[i..n])
    decreases n - i
  {
    hide IsRecord, Parse, Dirent.RecLen;
    OffsetMonotone(ds, i, n);
    if i == n {
      ParseEnd(b, Offset(ds, n));
      assert ds[i..n] == [];
    } else {
      OffsetMonotone(ds, i + 1, n);
      ParsePacked(b, ds, i + 1, n);
      ParseRecord(b, Offset(ds, i), Offset(ds, n), ds[i]);
      assert ds[i..n] == [ds[i]] + ds[i + 1..n];
    }
  }

  /** The 16 bytes of a record for the name "ab" and inode 12345. */
  lemma RecordBytes()
    ensures var b, d := [0x39, 0x30, 0, 0, 16, 0, 0, 2, 0x61, 0x62, 0, 0, 0, 0, 0, 0], Dirent([0x61, 0x62], 12345);
      IsRecord(b, 0, d) && Parse(b, 0, 16) == Some([d])
  {
    var b: seq<byte> := [0x39, 0x30, 0, 0, 16, 0, 0, 2, 0x61, 0x62, 0, 0, 0, 0, 0, 0];
    var d := Dirent([0x61, 0x62], 12345);
    assert b[8..10] == d.name && d.RecLen() == 16 && [d] + [] == [d];
    ParseRecord(b, 0, 16, d);
    ParseEnd(b, 16);
  }

  // A record is not affected by changes beyond its end.
  lemma RecordStays(b: seq<byte>, c: seq<byte>, at: nat, d: Dirent, end: nat)
    requires IsRecord(b, at, d) && at + d.RecLen() <= end <= |b| == |c|
    requires forall k :: 0 <= k < end ==> b[k] == c[k]
    ensures IsRecord(c, at, d)
  {
    var l := at + NAME_OFFSET;
    assert c[l..l + |d.name|] == b[l..l + |d.name|];
  }

  // ---------- the code ----------

  method StrLen(name: array<byte>, ghost e: Entry) returns (n: nat)
    requires HoldsName(name, e)
    ensures n < name.Length && name[..n] == CString(CName(e.name))
  {
    n := 0;
    while name[n] != 0
      invariant 0 <= n <= |e.name|
      invariant forall i :: 0 <= i < n ==> name[i] != 0
      decreases |e.name| - n
    {
      n := n + 1;
    }
    CStringIs(CName(e.name), n);
  }

  // The bytes of a record.
  lemma BytesAreRecord(b: seq<byte>, at: nat, d: Dirent)
    requires at + d.RecLen() <= |b| && |d.name| <= 0xFF
    requires b[at] == d.ino % 0x100 && b[at + 1] == d.ino / 0x100 % 0x100
    requires b[at + 2] == d.ino / 0x1_0000 % 0x100 && b[at + 3] == d.ino / 0x100_0000
    requires b[at + 4] == d.RecLen() % 0x100 && b[at + 5] == d.RecLen() / 0x100
    requires b[at + 6] == 0 && b[at + 7] == |d.name| && b[at + NAME_OFFSET + |d.name|] == 0
    requires forall i :: 0 <= i < |d.name| ==> b[at + NAME_OFFSET + i] == d.name[i]
    ensures IsRecord(b, at, d)
  {
    FourBytes(d.ino);
    assert U32(b, at) == d.ino;
    assert b[at + NAME_OFFSET..at + NAME_OFFSET + |d.name|] == d.name;
  }

  lemma FourBytes(x: u32)
    ensures x == x % 0x100 + 0x100 * (x / 0x100 % 0x100)
                 + 0x1_0000 * (x / 0x1_0000 % 0x100) + 0x100_0000 * (x / 0x100_0000)
  {
    var a := x / 0x100;
    var b := a / 0x100;
    assert x / 0x1_0000 == b && x / 0x100_0000 == b / 0x100;
  }

  /** Write one record at `at`: the fields in the order of the code, each once. */
  method WriteRecord(data: array<byte>, at: nat, name: array<byte>, namelen: nat, reclen: nat, ino: u32)
    requires namelen <= 0xFF && namelen <= name.Length && name != data
    requires reclen == Dirent(name[..namelen], ino).RecLen() && at + reclen <= data.Length
    modifies data
    ensures IsRecord(data[..], at, Dirent(name[..namelen], ino))
    ensures forall k :: 0 <= k < at ==> data[k] == old(data[k])
  {
    var l := at + NAME_OFFSET;
    data[at + 6] := 0;  // DT_UNKNOWN
    data[at + 4], data[at + 5] := reclen % 0x100, reclen / 0x100;
    data[at + 7] := namelen;
    forall i | 0 <= i < namelen {
      data[l + i] := name[i];
    }
    data[l + namelen] := 0;
    data[at], data[at + 1] := ino % 0x100, ino / 0x100 % 0x100;
    data[at + 2], data[at + 3] := ino / 0x1_0000 % 0x100, ino / 0x100_0000;
    BytesAreRecord(data[..], at, Dirent(name[..namelen], ino));
  }

  // ---------- filling a buffer ----------

  /** How many records the caller is told of, and how many it gets, when `left` entries are
      left: the thirtieth is counted but not delivered. */
  function Counted(left: nat): nat {
    if left >= MAX_ENTRIES then MAX_ENTRIES else left
  }

  function Delivered(left: nat): nat {
    if left >= MAX_ENTRIES then MAX_ENTRIES - 1 else left
  }

  // The entries from position `entry` on.
  function From(es: seq<Entry>, entry: int): seq<Entry> {
    if 0 <= entry <= |es| then es[entry..] else []
  }

  /** The first n of the records `ds` are packed at the start of the buffer. */
  ghost predicate Packed(data: array<byte>, ds: seq<Dirent>, n: nat)
    reads data
  {
    && n <= |ds| && Offset(ds, n) <= data.Length
    && forall k :: 0 <= k < n ==> IsRecord(data[..], Offset(ds, k), ds[k])
  }

  // Every record is short.
  ghost predicate Short(ds: seq<Dirent>) {
    forall k :: 0 <= k < |ds| ==> |ds[k].name| < NAME_BUFFER
  }

  lemma {:induction false} OffsetBound(ds: seq<Dirent>, n: nat)
    requires n <= |ds| && Short(ds)
    ensures Offset(ds, n) <= n * MAX_RECORD
  {
    if n > 0 {
      OffsetBound(ds, n - 1);
    }
  }

  lemma RecordIsShort(namelen: nat)
    requires namelen < NAME_BUFFER
    ensures RecordLength(namelen) <= MAX_RECORD
  {
  }

  /** Add the next record behind those already packed. */
  method AddRecord(data: array<byte>, datap: nat, name: array<byte>, namelen: nat, ino: u32,
                   ghost ds: seq<Dirent>, ghost n: nat)
      returns (reclen: nat)
    requires Packed(data, ds, n) && n < |ds| && datap == Offset(ds, n)
    requires namelen < NAME_BUFFER <= name.Length && name != data && ds[n] == Dirent(name[..namelen], ino)
    requires datap + MAX_RECORD <= data.Length
    modifies data
    ensures Packed(data, ds, n + 1) && reclen == ds[n].RecLen()
  {
    hide IsRecord, RecordLength, Offset;
    ghost var was := data[..];
    reclen := RecordLength(namelen);
    RecordIsShort(namelen);
    OffsetNext(ds, n);
    WriteRecord(data, datap, name, namelen, reclen, ino);
    forall k | 0 <= k < n ensures IsRecord(data[..], Offset(ds, k), ds[k]) {
      OffsetNext(ds, k);
      OffsetMonotone(ds, k + 1, n);
      RecordStays(was, data[..], Offset(ds, k), ds[k], datap);
    }
  }

  /** Pack the entries of a directory from position `entry` on, at most thirty of them, into
      the caller's buffer. `datacnt` bytes are delivered, and `amt` entries are counted. */
  method DiskfsGetDirects(vol: Volume, inum: u32, entry: int, data: array<byte>, utf8: array<byte>,
                          ghost mt: XT.Tree, ghost mhi: int, ghost t: DirTree.Tree)
      returns (datacnt: nat, amt: nat)
    requires vol.Valid() && CanRead(vol, mt, mhi, inum, t) && FitsNames(Listing(vol, mt, inum, t), NAME_BUFFER)
    requires data.Length >= MAX_ENTRIES * MAX_RECORD && utf8.Length == UTF8_BUFFER && data != utf8
    modifies data, utf8
    ensures var left := From(Listing(vol, mt, inum, t), entry);
      && amt == Counted(|left|) == (if |left| >= 30 then 30 else |left|)
      && Delivered(|left|) == (if |left| >= 30 then 29 else |left|)
      && datacnt <= data.Length
      && Parse(data[..], 0, datacnt) == Some(RecordsOf(left)[..Delivered(|left|)])
  {
    hide CanRead, Listing, Parse, IsRecord, Packed, RecordsOf, From, CString, CName, FitsNames, Offset, Dirent.RecLen;
    ghost var es := Listing(vol, mt, inum, t);
    ghost var ds := RecordsOf(From(es, entry));
    RecordsShort(es, entry);
    var name := new byte[NAME_BUFFER];
    var pos, datap := entry, 0;
    amt := 0;
    PackedNone(data, ds);
    while true
      invariant amt < MAX_ENTRIES && amt <= |ds| && pos == entry + amt
      invariant Packed(data, ds, amt) && datap == Offset(ds, amt)
      decreases MAX_ENTRIES - amt
    {
      var err, gotinum := Readndir(vol, inum, pos, name, utf8, mt, mhi, t);
      PositionOf(es, entry, amt);
      if err != 0 {
        break;
      }
      var namelen := StrLen(name, es[pos]);
      OffsetBound(ds, amt);
      var reclen := AddRecord(data, datap, name, namelen, gotinum, ds, amt);
      OffsetNext(ds, amt);
      pos := pos + 1;
      amt := amt + 1;
      if amt >= MAX_ENTRIES {
        datacnt := datap;
        PackedParses(data, ds, amt - 1, amt);
        HowMany(|ds|, amt);
        return;
      }
      datap := datap + reclen;
    }
    datacnt := datap;
    PackedParses(data, ds, amt, amt);
    HowMany(|ds|, amt);
  }

  // The entry at position entry + k of the directory is the k-th of those left.
  lemma PositionOf(es: seq<Entry>, entry: int, k: nat)
    requires k <= |From(es, entry)|
    ensures 0 <= entry + k < |es| <==> k < |From(es, entry)|
    ensures k < |From(es, entry)| ==>
      RecordsOf(From(es, entry))[k] == Dirent(CString(CName(es[entry + k].name)), es[entry + k].inumber)
  {
  }

  lemma OffsetNext(ds: seq<Dirent>, k: nat)
    requires k < |ds|
    ensures Offset(ds, k + 1) == Offset(ds, k) + ds[k].RecLen()
  {
  }

  lemma HowMany(left: nat, amt: nat)
    requires amt <= left && (amt == left < MAX_ENTRIES || amt == MAX_ENTRIES)
    ensures amt == Counted(left) && Delivered(left) == if amt == MAX_ENTRIES then amt - 1 else amt
  {
  }

  lemma PackedNone(data: array<byte>, ds: seq<Dirent>)
    ensures Packed(data, ds, 0) && Offset(ds, 0) == 0
  {
  }

  lemma PackedParses(data: array<byte>, ds: seq<Dirent>, m: nat, n: nat)
    requires m <= n && Packed(data, ds, n)
    ensures Offset(ds, m) <= data.Length && Parse(data[..], 0, Offset(ds, m)) == Some(ds[..m])
  {
    OffsetMonotone(ds, m, n);
    ParsePacked(data[..], ds, 0, m);
  }

  lemma RecordsShort(es: seq<Entry>, entry: int)
    requires FitsNames(es, NAME_BUFFER)
    ensures Short(RecordsOf(From(es, entry)))
  {
  }

  // ---------- a client that reads on ----------

  /** What a client collects that asks again from behind the records it has parsed, until it
      gets none. */
  ghost function ReadOnByRecords(es: seq<Entry>, entry: nat): seq<Entry>
    requires entry <= |es|
    decreases |es| - entry
  {
    var n := Delivered(|es| - entry);
    if n == 0 then [] else es[entry..entry + n] + ReadOnByRecords(es, entry + n)
  }

  /** ... and one that asks again from behind the entries it was told of. */
  ghost function ReadOnByCount(es: seq<Entry>, entry: nat): seq<Entry>
    requires entry <= |es|
    decreases |es| - entry
  {
    var n, c := Delivered(|es| - entry), Counted(|es| - entry);
    if n == 0 then [] else es[entry..entry + n] + ReadOnByCount(es, entry + c)
  }

  /** A client that goes by the records sees every entry exactly once, in order. */
  lemma {:induction false} ReadOnSeesAll(es: seq<Entry>, entry: nat)
    requires entry <= |es|
    ensures ReadOnByRecords(es, entry) == es[entry..]
    decreases |es| - entry
  {
    var n := Delivered(|es| - entry);
    if n > 0 {
      ReadOnSeesAll(es, entry + n);
      assert es[entry..] == es[entry..entry + n] + es[entry + n..];
    }
  }

  /** A client that goes by the count misses one entry in thirty: it sees all of them if and
      only if fewer than thirty are left. */
  lemma {:induction false} ReadOnByCountMisses(es: seq<Entry>, entry: nat)
    requires entry <= |es|
    ensures |ReadOnByCount(es, entry)| == |es| - entry - (|es| - entry) / 30
    ensures ReadOnByCount(es, entry) == es[entry..] <==> |es| - entry < 30
    decreases |es| - entry
  {
    var left := |es| - entry;
    if Delivered(left) > 0 {
      ReadOnByCountMisses(es, entry + Counted(left));
      if left < MAX_ENTRIES {
        assert ReadOnByCount(es, |es|) == [];
      }
    }
  }

  /** A client that calls for entries until it gets none, parses the bytes it got, and goes on
      behind the records (or, `byCount`, behind the entries it was told of). It collects what
      the two functions say, so one sees the whole directory and the other misses one entry in
      thirty. */
  method ReadOn(vol: Volume, inum: u32, byCount: bool, data: array<byte>, utf8: array<byte>,
                ghost mt: XT.Tree, ghost mhi: int, ghost t: DirTree.Tree)
      returns (all: seq<Dirent>)
    requires vol.Valid() && CanRead(vol, mt, mhi, inum, t) && FitsNames(Listing(vol, mt, inum, t), NAME_BUFFER)
    requires data.Length >= MAX_ENTRIES * MAX_RECORD && utf8.Length == UTF8_BUFFER && data != utf8
    modifies data, utf8
    ensures var es := Listing(vol, mt, inum, t);
      if byCount then all == RecordsOf(ReadOnByCount(es, 0)) && |all| == |es| - |es| / 30
      else all == RecordsOf(es)
  {
    hide CanRead, Listing, FitsNames, Parse, RecordsOf, From, ReadOnByRecords, ReadOnByCount;
    ghost var es := Listing(vol, mt, inum, t);
    var entry := 0;
    all := [];
    while true
      invariant 0 <= entry <= |es|
      invariant Remaining(es, byCount, entry, all)
      decreases |es| - entry
    {
      var datacnt, amt := DiskfsGetDirects(vol, inum, entry, data, utf8, mt, mhi, t);
      var records := Parse(data[..], 0, datacnt).value;
      CollectNext(es, byCount, entry, all, records);
      if records == [] {
        break;
      }
      all := all + records;
      entry := entry + if byCount then amt else |records|;
    }
    ReadOnSeesAll(es, 0);
    ReadOnByCountMisses(es, 0);
  }

  // What the client will collect from the start.
  ghost function Collected(es: seq<Entry>, byCount: bool, entry: nat): seq<Entry>
    requires entry <= |es|
  {
    if byCount then ReadOnByCount(es, entry) else ReadOnByRecords(es, entry)
  }

  // What has been collected, and what will be from `entry` on, is what is from the start.
  ghost predicate Remaining(es: seq<Entry>, byCount: bool, entry: int, all: seq<Dirent>) {
    0 <= entry <= |es| && all + RecordsOf(Collected(es, byCount, entry)) == RecordsOf(Collected(es, byCount, 0))
  }

  lemma CollectNext(es: seq<Entry>, byCount: bool, entry: nat, all: seq<Dirent>, records: seq<Dirent>)
    requires Remaining(es, byCount, entry, all)
    requires records == RecordsOf(From(es, entry))[..Delivered(|From(es, entry)|)]
    ensures var left := |From(es, entry)|;
      && left == |es| - entry && |records| == Delivered(left)
      && (records == [] ==> all == RecordsOf(Collected(es, byCount, 0)))
      && (records != [] ==>
            Remaining(es, byCount, entry + if byCount then Counted(left) else |records|, all + records))
  {
    var left := |From(es, entry)|;
    var n := Delivered(left);
    if n == 0 {
      assert Collected(es, byCount, entry) == [];
    } else {
      var next := entry + if byCount then Counted(left) else n;
      assert Collected(es, byCount, entry) == es[entry..entry + n] + Collected(es, byCount, next);
      RecordsAppend(es[entry..entry + n], Collected(es, byCount, next));
      assert records == RecordsOf(es[entry..entry + n]);
    }
  }

  lemma RecordsAppend(a: seq<Entry>, b: seq<Entry>)
    ensures RecordsOf(a + b) == RecordsOf(a) + RecordsOf(b)
  {
  }

  /** A client that looks up the name it was given for a position gets the inode number it was
      given, if the search for that name leads back to the position. In a sorted directory it
      does for every ASCII name, and DirLookup.ListedNameFound says when it does for others. */
  method LookUpListed(vol: Volume, inum: u32, pos: int, g0: int, name: array<byte>, utf8: array<byte>,
                      ghost mt: XT.Tree, ghost mhi: int, ghost t: DirTree.Tree)
      returns (rc: int, rino: int, gotinum: int)
    requires vol.Valid() && CanRead(vol, mt, mhi, inum, t) && FitsNames(Listing(vol, mt, inum, t), name.Length)
    requires utf8.Length == UTF8_BUFFER && name != utf8
    modifies name, utf8
    ensures var es := Listing(vol, mt, inum, t);
      && rc == (if 0 <= pos < |es| then 0 else 1)
      && (rc == 0 && FirstMatch(es, CString(CName(es[pos].name))) == pos ==> gotinum == rino)
      && (rc == 0 && SortedNames(es) && Ascii(es[pos].name) ==> gotinum == rino)
  {
    hide CanRead, Listing, CName, CString, FirstMatch;
    ghost var es := Listing(vol, mt, inum, t);
    rc, rino := Readndir(vol, inum, pos, name, utf8, mt, mhi, t);
    gotinum := g0;
    if rc == 0 {
      var n := StrLen(name, es[pos]);
      CStringPrefix(CName(es[pos].name));
      gotinum := Directory(vol, inum, name[..n], g0, utf8, mt, mhi, t);
      if SortedNames(es) && Ascii(es[pos].name) {
        RecordOfAscii(es[pos]);
        CNameAscii(es[pos].name);
        ListingAndLookupAgree(es, pos, g0);
      }
    }
  }
}
