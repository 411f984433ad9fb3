/** Listing a directory by position and looking a name up in it, and how the two agree. */
module DirLookup {
  import opened Layout
  import opened AlignedRead
  import opened InodeMap
  import XT = XTree
  import opened Unicode
  import opened DirNames
  import opened DirTree

  // ---------- the meaning of a lookup ----------

  /** The place of the first entry that the searched name matches, or the number of entries. */
  ghost function FirstMatch(es: seq<Entry>, sname: seq<byte>): (r: nat)
    ensures r <= |es|
    ensures forall k :: 0 <= k < r ==> !Matches(sname, es[k].name)
    ensures r < |es| ==> Matches(sname, es[r].name)
  {
    if es == [] || Matches(sname, es[0].name) then 0 else 1 + FirstMatch(es[1..], sname)
  }

  lemma FirstMatchIs(es: seq<Entry>, sname: seq<byte>, r: nat)
    requires r <= |es| && (r < |es| ==> Matches(sname, es[r].name))
    requires forall k :: 0 <= k < r ==> !Matches(sname, es[k].name)
    ensures FirstMatch(es, sname) == r
  {
  }

  /** The inode number that a search leaves behind: that of the first match; -1 if there are
      entries but none matches; and what was there before (`g0`) if there are no entries. */
  ghost function SearchResult(es: seq<Entry>, sname: seq<byte>, g0: int): int {
    var r := FirstMatch(es, sname);
    if r < |es| then es[r].inumber else if es == [] then g0 else NO_INODE
  }

  // ---------- the code ----------

  /** Compare the entries of a leaf until one matches. */
  method SearchLeaf(page: DPage, sname: seq<byte>, utf8: array<byte>, g0: int, ghost es: seq<Entry>)
      returns (found: bool, gotinum: int)
    requires StoredLeaf(page, es) && utf8.Length == UTF8_BUFFER && 0 !in sname
    modifies utf8
    ensures found <==> FirstMatch(es, sname) < |es|
    ensures gotinum == SearchResult(es, sname, g0)
  {
    hide Matches;
    gotinum := g0;
    for i := 0 to page.nextindex
      invariant forall k :: 0 <= k < i ==> !Matches(sname, es[k].name)
      invariant gotinum == if i == 0 then g0 else NO_INODE
    {
      var rc;
      assert StoresEntry(page.slots, page.stbl[i], es[i]);
      rc, gotinum := PrintDirentry(page.slots, page.stbl[i], sname, utf8, es[i]);
      if rc == 0 {
        FirstMatchIs(es, sname, i);
        return true, gotinum;
      }
    }
    FirstMatchIs(es, sname, |es|);
    found := false;
  }

  // A search of the entries of one more leaf, after none of those seen matched.
  lemma SearchNext(all: seq<Entry>, seen: seq<Entry>, es: seq<Entry>, rest: seq<Entry>, sname: seq<byte>, g0: int)
    requires all == seen + es + rest && FirstMatch(seen, sname) == |seen|
    ensures FirstMatch(es, sname) < |es| ==>
      SearchResult(all, sname, g0) == SearchResult(es, sname, SearchResult(seen, sname, g0))
    ensures FirstMatch(es, sname) == |es| ==>
      && FirstMatch(seen + es, sname) == |seen + es|
      && SearchResult(seen + es, sname, g0) == SearchResult(es, sname, SearchResult(seen, sname, g0))
  {
    hide Matches;
    var r := FirstMatch(es, sname);
    forall k | 0 <= k < |seen| + r ensures !Matches(sname, all[k].name) {
      assert all[k] == if k < |seen| then seen[k] else es[k - |seen|];
    }
    if r < |es| {
      assert all[|seen| + r] == es[r];
      FirstMatchIs(all, sname, |seen| + r);
    } else {
      forall k | 0 <= k < |seen + es| ensures !Matches(sname, (seen + es)[k].name) {
        assert (seen + es)[k] == all[k];
      }
      FirstMatchIs(seen + es, sname, |seen + es|);
    }
  }

  method SearchFrom(vol: Volume, first: DPage, sname: seq<byte>, utf8: array<byte>, g0: int,
                    ghost leaves: seq<DirTree.Tree>, ghost all: seq<Entry>)
      returns (gotinum: int)
    requires vol.Valid() && WholeBlocks(vol)
    requires AtLeaf(vol, leaves, 0, first, []) && all == EntriesOf(leaves)
    requires utf8.Length == UTF8_BUFFER && 0 !in sname
    modifies utf8
    ensures gotinum == SearchResult(all, sname, g0)
  {
    hide StoredLeaf, DPageAt, Chained, EntriesOf, FirstMatch, SearchResult;
    gotinum := g0;
    var page, found := first, false;
    ghost var i, seen: seq<Entry> := 0, [];
    SearchNone(sname, g0);
    while true
      invariant AtLeaf(vol, leaves, i, page, seen)
      invariant FirstMatch(seen, sname) == |seen| && gotinum == SearchResult(seen, sname, g0)
      decreases |leaves| - i
    {
      NextLeaf(vol, leaves, i, page, seen);
      SearchNext(all, seen, leaves[i].es, EntriesOf(leaves[i + 1..]), sname, g0);
      found, gotinum := SearchLeaf(page, sname, utf8, gotinum, leaves[i].es);
      if found {
        return;
      }
      seen := seen + leaves[i].es;
      if page.next == 0 {
        return;
      }
      page := ReadDPage(vol, page.next);
      i := i + 1;
    }
  }

  lemma SearchNone(sname: seq<byte>, g0: int)
    ensures FirstMatch([], sname) == 0 && SearchResult([], sname, g0) == g0
  {
  }

  /** Search a directory whose root page is `root`. */
  method SearchDirectory(vol: Volume, root: DPage, sname: seq<byte>, utf8: array<byte>, g0: int, ghost t: DirTree.Tree)
      returns (gotinum: int)
    requires IsDirectory(vol, root, t) && utf8.Length == UTF8_BUFFER && 0 !in sname
    modifies utf8
    ensures gotinum == SearchResult(Contents(t), sname, g0)
  {
    var found;
    if root.IsLeaf() {
      ContentsOfLeaf(t);
      if root.nextindex == 0 {
        return g0;
      }
      found, gotinum := SearchLeaf(root, sname, utf8, g0, t.es);
    } else {
      var page := LeftmostLeaf(vol, root, t);
      FirstLeaf(vol, Leaves(t), page);
      gotinum := SearchFrom(vol, page, sname, utf8, g0, Leaves(t), Contents(t));
    }
  }

  // ---------- from an inode number ----------

  /** The root page of the directory with an inode number, if there is one. */
  ghost function DirectoryRoot(vol: Volume, mt: XT.Tree, inum: u32): Option<DPage>
    requires vol.Valid()
  {
    match InodeAddress(vol, mt, inum)
    case None => None
    case Some(a) =>
      if !vol.InImage(a, DINODE_SIZE) then None
      else
        var inode := DecodeDinode(vol.Bytes(a, DINODE_SIZE));
        if inode.IsDir() then Some(DecodeDRoot(inode.root)) else None
  }

  /** The inode of the number can be looked up in the inode map `mt`, and if it is a directory
      then `t` is its tree. */
  ghost predicate CanRead(vol: Volume, mt: XT.Tree, mhi: int, inum: u32, t: DirTree.Tree) {
    && HasTable(vol, FILESYSTEM_I, mt, mhi) && GroupInImage(vol, mt, Group(inum))
    && (InodeAddress(vol, mt, inum).Some? ==> vol.InImage(InodeAddress(vol, mt, inum).value, DINODE_SIZE))
    && (DirectoryRoot(vol, mt, inum).Some? ==> IsDirectory(vol, DirectoryRoot(vol, mt, inum).value, t))
  }

  /** The entries that a directory lists; none if the number is not a directory's. */
  ghost function Listing(vol: Volume, mt: XT.Tree, inum: u32, t: DirTree.Tree): seq<Entry>
    requires vol.Valid()
  {
    if DirectoryRoot(vol, mt, inum).Some? then Contents(t) else []
  }

  /** Read the inode of a directory. */
  method LoadDirectory(vol: Volume, inum: u32, ghost mt: XT.Tree, ghost mhi: int, ghost t: DirTree.Tree)
      returns (root: Option<DPage>)
    requires vol.Valid() && CanRead(vol, mt, mhi, inum, t)
    ensures root == DirectoryRoot(vol, mt, inum)
    ensures root.Some? ==> IsDirectory(vol, root.value, t)
  {
    hide HasTable, IsDirectory;
    var rc, address := FindInode(vol, inum, FILESYSTEM_I, 0, mt, mhi);
    if rc != 0 {
      return None;
    }
    var inode := ReadDinodeOf(vol, address, mt, mhi);
    if !inode.IsDir() {
      return None;
    }
    root := Some(DecodeDRoot(inode.root));
  }

  method ReadDinodeOf(vol: Volume, address: int, ghost mt: XT.Tree, ghost mhi: int) returns (inode: Dinode)
    requires HasTable(vol, FILESYSTEM_I, mt, mhi) && vol.InImage(address, DINODE_SIZE)
    ensures inode == DecodeDinode(vol.Bytes(address, DINODE_SIZE))
  {
    hide XT.WellFormed, XT.Stored;
    inode := ReadDinode(vol, address);
  }

  /** The entry at a position of a directory: 0 and the entry, or 1 if there is none. */
  method Readndir(vol: Volume, inum: u32, pos: int, name: array<byte>, utf8: array<byte>,
                  ghost mt: XT.Tree, ghost mhi: int, ghost t: DirTree.Tree)
      returns (rc: int, rino: int)
    requires vol.Valid() && CanRead(vol, mt, mhi, inum, t) && FitsNames(Listing(vol, mt, inum, t), name.Length)
    requires utf8.Length == UTF8_BUFFER && name != utf8
    modifies name, utf8
    ensures rc == if 0 <= pos < |Listing(vol, mt, inum, t)| then 0 else 1
    ensures rc == 0 ==>
      var e := Listing(vol, mt, inum, t)[pos]; HoldsName(name, e) && rino == e.inumber
  {
    hide DirectoryRoot, IsDirectory, HasTable;
    var root := LoadDirectory(vol, inum, mt, mhi, t);
    match root
    case None => return 1, 0;
    case Some(r) => rc, rino := EntryAt(vol, r, pos, name, utf8, t);
  }

  /** Look a name up in a directory. */
  method Directory(vol: Volume, inum: u32, sname: seq<byte>, g0: int, utf8: array<byte>,
                   ghost mt: XT.Tree, ghost mhi: int, ghost t: DirTree.Tree)
      returns (gotinum: int)
    requires vol.Valid() && CanRead(vol, mt, mhi, inum, t)
    requires utf8.Length == UTF8_BUFFER && 0 !in sname
    modifies utf8
    ensures gotinum == SearchResult(Listing(vol, mt, inum, t), sname, g0)
  {
    hide DirectoryRoot, IsDirectory, HasTable;
    var root := LoadDirectory(vol, inum, mt, mhi, t);
    match root
    case None => return g0;
    case Some(r) => gotinum := SearchDirectory(vol, r, sname, utf8, g0, t);
  }

  datatype Error = Ok | Enoent

  /** The result of a lookup for a caller: names that start with a dot are never missing. */
  method Dirscan(vol: Volume, inum: u32, sname: seq<byte>, g0: int, utf8: array<byte>,
                 ghost mt: XT.Tree, ghost mhi: int, ghost t: DirTree.Tree)
      returns (err: Error, gotinum: int)
    requires vol.Valid() && CanRead(vol, mt, mhi, inum, t)
    requires utf8.Length == UTF8_BUFFER && 0 !in sname
    modifies utf8
    ensures gotinum == SearchResult(Listing(vol, mt, inum, t), sname, g0)
    ensures var es := Listing(vol, mt, inum, t);
      g0 != NO_INODE && (sname == [] || sname[0] != 0x2E) ==>
        (err == Enoent <==> es != [] && FirstMatch(es, sname) == |es|)
    ensures sname != [] && sname[0] == 0x2E ==> err == Ok
  {
    gotinum := Directory(vol, inum, sname, g0, utf8, mt, mhi, t);
    if sname != [] && sname[0] == 0x2E {  // '.'
      return Ok, gotinum;
    } else if gotinum == NO_INODE {
      return Enoent, gotinum;
    }
    err := Ok;
  }

  // ---------- listing and lookup agree ----------

  /** Names are ordered unit by unit, a name before its extensions. */
  ghost predicate Less(a: seq<u16>, b: seq<u16>) {
    b != [] && (a == [] || a[0] < b[0] || (a[0] == b[0] && Less(a[1..], b[1..])))
  }

  ghost predicate SortedNames(es: seq<Entry>) {
    forall i, j :: 0 <= i < j < |es| ==> Less(es[i].name, es[j].name)
  }

  // An ASCII prefix of a name is a prefix of its UTF-8 form.
  lemma {:induction false} Utf8AsciiPrefix(p: seq<u16>, i: nat, budget: int)
    requires i <= |p| && i <= budget && Ascii(p[..i])
    ensures i <= |Utf8(p, budget)| && Utf8(p, budget)[..i] == p[..i]
  {
    if i > 0 {
      assert p[..i][0] == p[0];
      assert p[1..][..i - 1] == p[..i][1..];
      Utf8AsciiPrefix(p[1..], i - 1, budget - 1);
      assert Utf8(p, budget) == [p[0]] + Utf8(p[1..], budget - 1);
      assert p[..i] == [p[0]] + p[1..][..i - 1];
    }
  }

  // Two different names differ at some unit, or one is a proper prefix of the other.
  lemma {:induction false} LessAt(a: seq<u16>, b: seq<u16>) returns (i: nat)
    requires Less(a, b)
    ensures i <= |a| && i < |b| && a[..i] == b[..i] && (i == |a| || a[i] < b[i])
  {
    if a != [] && a[0] == b[0] {
      var j := LessAt(a[1..], b[1..]);
      i := j + 1;
      assert a[..i] == [a[0]] + a[1..][..j] && b[..i] == [b[0]] + b[1..][..j];
    } else {
      i := 0;
    }
  }

  /** A searched ASCII name matches no name that is ordered before it, whatever units that
      name has. */
  lemma EarlierDoesNotMatch(name: seq<u16>, sname: seq<byte>)
    requires Ascii(sname) && Less(name, sname)
    ensures !Matches(sname, name)
  {
    var i := LessAt(name, sname);
    if i < |name| && |sname| <= |name| {
      assert name[..i + 1] == name[..i] + [name[i]];
      if name[i] > 0 {
        Utf8AsciiPrefix(name, i + 1, |name|);
        assert CName(name)[i] == name[..i + 1][i] == name[i];
      } else {
        Utf8AsciiPrefix(name, i, |name|);
        Utf8StopsAtNul(name, i, |name|);
        assert CName(name)[i] == 0;
      }
    }
  }

  lemma {:induction false} Utf8StopsAtNul(p: seq<u16>, i: nat, budget: int)
    requires i < |p| && i <= budget && Ascii(p[..i]) && p[i] == 0
    ensures |Utf8(p, budget)| <= i
  {
    if i > 0 {
      assert p[..i][0] == p[0];
      assert p[1..][..i - 1] == p[..i][1..];
      Utf8StopsAtNul(p[1..], i - 1, budget - 1);
    }
  }

  /** In a sorted directory the first match of an ASCII name that is present is the entry of
      that very name: a name sorts before its extensions. */
  lemma ExactNameFound(es: seq<Entry>, k: nat, sname: seq<byte>)
    requires SortedNames(es) && k < |es| && Ascii(sname) && es[k].name == sname
    ensures FirstMatch(es, sname) == k
  {
    forall j | 0 <= j < k ensures !Matches(sname, es[j].name) {
      EarlierDoesNotMatch(es[j].name, sname);
    }
    CNameAscii(sname);
    FirstMatchIs(es, sname, k);
  }

  /** If a sorted directory lists an ASCII name at some position, looking that name up gives
      the inode number listed with it. */
  lemma ListingAndLookupAgree(es: seq<Entry>, pos: nat, g0: int)
    requires SortedNames(es) && pos < |es| && Ascii(es[pos].name)
    ensures SearchResult(es, CName(es[pos].name), g0) == es[pos].inumber
  {
    CNameAscii(es[pos].name);
    ExactNameFound(es, pos, CName(es[pos].name));
  }

  /** A lookup of an ASCII name finds something exactly if the name is there - if and only if
      it is, or no name has it as a proper prefix in UTF-8. */
  lemma LookupExactly(es: seq<Entry>, sname: seq<byte>)
    requires Ascii(sname)
    ensures (FirstMatch(es, sname) < |es| <==> exists k :: 0 <= k < |es| && es[k].name == sname)
      <==> (exists k :: 0 <= k < |es| && es[k].name == sname)
           || (forall k :: 0 <= k < |es| ==> !(es[k].name != sname && sname <= CName(es[k].name)))
  {
    forall k | 0 <= k < |es| ensures Matches(sname, es[k].name) <==> sname <= CName(es[k].name) {
      AsciiMatches(sname, es[k].name);
    }
    CNameAscii(sname);
  }

  /** How many entries at the start of a directory are ordered before a name. */
  ghost function Before(es: seq<Entry>, sname: seq<u16>): (r: nat)
    ensures r <= |es|
    ensures forall k :: 0 <= k < r ==> Less(es[k].name, sname)
    ensures r < |es| ==> !Less(es[r].name, sname)
  {
    if es == [] || !Less(es[0].name, sname) then 0 else 1 + Before(es[1..], sname)
  }

  // A name with a smaller unit, or none, after a common prefix is ordered before the other.
  lemma {:induction false} LessFrom(a: seq<u16>, b: seq<u16>, i: nat)
    requires i <= |a| && i < |b| && a[..i] == b[..i] && (i == |a| || a[i] < b[i])
    ensures Less(a, b)
  {
    if i > 0 {
      assert a[0] == a[..i][0] == b[..i][0] == b[0];
      assert a[1..][..i - 1] == a[..i][1..] && b[1..][..i - 1] == b[..i][1..];
      LessFrom(a[1..], b[1..], i - 1);
    }
  }

  // A name between a prefix of another name and that name has the same prefix.
  lemma PrefixBetween(p: seq<u16>, a: seq<u16>, b: seq<u16>)
    requires !Less(a, p) && Less(a, b) && p <= b
    ensures p <= a
  {
    var i := LessAt(a, b);
    if i < |p| {
      assert a[..i] == b[..i] == p[..i];
      LessFrom(a, p, i);
    }
  }

  /** What a lookup of an ASCII name finds in a sorted directory is decided at the first entry
      that is not ordered before the name. If that entry has the name as a prefix, then it is
      the one found, whatever the others are; and if all names are ASCII, nothing is found
      otherwise. So an absent name is found if and only if that one entry extends it. */
  lemma LookupByOrder(es: seq<Entry>, sname: seq<byte>)
    requires SortedNames(es) && Ascii(sname)
    ensures var r := Before(es, sname);
      && (r < |es| && sname <= es[r].name ==> FirstMatch(es, sname) == r)
      && ((forall k :: 0 <= k < |es| ==> Ascii(es[k].name)) ==>
            (FirstMatch(es, sname) < |es| <==> r < |es| && sname <= es[r].name))
  {
    var r, f := Before(es, sname), FirstMatch(es, sname);
    forall k | 0 <= k < r ensures !Matches(sname, es[k].name) {
      EarlierDoesNotMatch(es[k].name, sname);
    }
    if r < |es| && sname <= es[r].name {
      PrefixMatches(es[r].name, sname);
      FirstMatchIs(es, sname, r);
    } else if f < |es| && Ascii(es[f].name) {
      CNameAscii(es[f].name);
      assert sname <= es[f].name;
      if r < f {
        PrefixBetween(sname, es[r].name, es[f].name);
      }
      assert false;
    }
  }

  // An entry that has the searched name as a prefix matches it.
  lemma PrefixMatches(name: seq<u16>, sname: seq<byte>)
    requires Ascii(sname) && sname <= name
    ensures Matches(sname, name)
  {
    var n := |sname|;
    assert name[..n] == sname;
    Utf8AsciiPrefix(name, n, |name|);
    forall i | 0 <= i < n ensures sname[i] == CName(name)[i] {
      assert Utf8(name, |name|)[..n][i] == name[..n][i];
    }
  }

  /** The name that a position of a sorted directory is listed with, looked up again, leads
      back to that position if and only if it is ASCII and no entry between it and the
      position has it as a prefix in UTF-8. */
  lemma ListedNameFound(es: seq<Entry>, pos: nat)
    requires SortedNames(es) && pos < |es|
    ensures var s := CString(CName(es[pos].name));
      FirstMatch(es, s) == pos <==>
        Ascii(s) && forall j :: Before(es, s) <= j < pos ==> !(s <= CName(es[j].name))
  {
    var c := CName(es[pos].name);
    var s := CString(c);
    CStringPrefix(c);
    ListedMatches(s, es[pos].name);
    hide CName, CString, Less, Matches, Ascii;
    if Ascii(s) {
      forall k | 0 <= k < |es| ensures Matches(s, es[k].name) <==> s <= CName(es[k].name) {
        AsciiMatches(s, es[k].name);
      }
      forall k | 0 <= k < Before(es, s) ensures !Matches(s, es[k].name) {
        EarlierDoesNotMatch(es[k].name, s);
      }
    }
  }

  lemma AsciiMatches(s: seq<byte>, name: seq<u16>)
    requires Ascii(s)
    ensures Matches(s, name) <==> s <= CName(name)
  {
    hide CName;
  }

  // A listed name matches the entry it is listed for if it is ASCII.
  lemma ListedMatches(s: seq<byte>, name: seq<u16>)
    requires s <= CName(name) && 0 !in s
    ensures Matches(s, name) <==> Ascii(s)
  {
    hide CName;
  }

  /** A name that is listed in UTF-8 as it should be, as far as the budget goes, and is not
      found. */
  lemma ListedNotFound(ino: u32, g0: int)
    ensures var es := [Entry([0xE9, 0x61], ino)];
      && SortedNames(es) && CString(CName(es[0].name)) == [0xC3, 0xA9]
      && SearchResult(es, [0xC3, 0xA9], g0) == NO_INODE
  {
    var name: seq<u16> := [0xE9, 0x61];
    assert Utf8(name, 2) == [0xC3, 0xA9] + Utf8(name[1..], 0) == [0xC3, 0xA9];
    CStringIs(CName(name), 2);
    NonAsciiNeverFound([Entry(name, ino)], [0xC3, 0xA9], 0, g0);
  }

  /** Two names that are listed alike, since the second one's last unit does not fit: the
      lookup leads to the first. */
  lemma ListedAlike(ino1: u32, ino2: u32, g0: int)
    ensures var es := [Entry([0x61], ino1), Entry([0x61, 0x100], ino2)];
      && SortedNames(es)
      && CString(CName(es[0].name)) == CString(CName(es[1].name)) == [0x61]
      && SearchResult(es, [0x61], g0) == ino1
  {
    var a: seq<u16>, b: seq<u16> := [0x61], [0x61, 0x100];
    CNameAscii(a);
    CStringIs(CName(a), 1);
    assert Utf8(b, 2) == [0x61] + Utf8(b[1..], 1);
    assert Utf8(b[1..], 1) == Utf8(b[1..][1..], 0) == [];
    CStringIs(CName(b), 1);
    FirstMatchIs([Entry(a, ino1), Entry(b, ino2)], [0x61], 0);
  }

  /** A directory with the single name "ab" resolves "a". */
  lemma PrefixMisleads(ino: u32, g0: int)
    ensures var es := [Entry([0x61, 0x62], ino)]; SortedNames(es) && SearchResult(es, [0x61], g0) == ino
  {
    var name: seq<u16> := [0x61, 0x62];
    CNameAscii(name);
    FirstMatchIs([Entry(name, ino)], [0x61], 0);
  }

  /** A searched name with a byte above 0x7F is found in no directory. */
  lemma NonAsciiNeverFound(es: seq<Entry>, sname: seq<byte>, i: nat, g0: int)
    requires i < |sname| && sname[i] > 0x7F && es != []
    ensures SearchResult(es, sname, g0) == NO_INODE
  {
    FirstMatchIs(es, sname, |es|);
  }
}
