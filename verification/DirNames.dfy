/** Names of directory entries. A name is split over linked 32-byte slots of its page: eleven
    units in the head slot of the entry and fifteen in each slot that continues it. */
module DirNames {
  import opened Layout
  import opened Unicode

  const SLOT_SIZE := 32
  const DTLHDRDATALEN := 11
  const DTSLOTDATALEN := 15
  const NO_INODE := 0xFFFF_FFFF_FFFF_FFFF  // (uint64_t) -1

  type Slot = s: seq<byte> | |s| == SLOT_SIZE witness seq(SLOT_SIZE, _ => 0)

  // The slots of a page.
  function Slots(b: seq<byte>): seq<Slot>
    requires |b| % SLOT_SIZE == 0
  {
    seq(|b| / SLOT_SIZE, i requires 0 <= i < |b| / SLOT_SIZE => b[SLOT_SIZE * i..SLOT_SIZE * i + SLOT_SIZE])
  }

  // n units of two bytes each, from byte o on
  function Units(b: seq<byte>, o: nat, n: nat): (us: seq<u16>)
    requires o + 2 * n <= |b|
    ensures |us| == n
  {
    seq(n, i requires 0 <= i < n => U16(b, o + 2 * i))
  }

  // A slot seen as the head of a leaf entry (ldtentry_t)...
  function HeadInumber(s: Slot): u32 { U32(s, 0) }
  function HeadNext(s: Slot): int { S8(s[4]) }
  function HeadNamlen(s: Slot): byte { s[5] }
  function HeadName(s: Slot): (us: seq<u16>) ensures |us| == DTLHDRDATALEN { Units(s, 6, DTLHDRDATALEN) }

  // ... and as the continuation of a name (dtslot_t).
  function ContNext(s: Slot): int { S8(s[0]) }
  function ContName(s: Slot): (us: seq<u16>) ensures |us| == DTSLOTDATALEN { Units(s, 2, DTSLOTDATALEN) }

  // NDTLEAF: the number of slots of an entry whose name has klen units.
  function NdtLeaf(klen: nat): nat {
    (4 + klen + 14) / 15
  }

  // ---------- names in slots ----------

  /** Following the links from `next` visits exactly the slots of `chain`. */
  ghost predicate IsChain(slot: seq<Slot>, next: int, chain: seq<nat>)
    decreases |chain|
  {
    if chain == [] then next < 0
    else next == chain[0] < |slot| && IsChain(slot, ContNext(slot[chain[0]]), chain[1..])
  }

  ghost predicate StoresTail(slot: seq<Slot>, chain: seq<nat>, rest: seq<u16>) {
    if rest == [] then chain == []
    else
      && chain != [] && chain[0] < |slot|
      && ContName(slot[chain[0]])[..Min(|rest|, DTSLOTDATALEN)] == rest[..Min(|rest|, DTSLOTDATALEN)]
      && StoresTail(slot, chain[1..], rest[Min(|rest|, DTSLOTDATALEN)..])
  }

  /** The entry at slot `head` has the name `name`, continued in the slots of `chain`. */
  ghost predicate StoresName(slot: seq<Slot>, head: nat, chain: seq<nat>, name: seq<u16>) {
    && head < |slot| && HeadNamlen(slot[head]) == |name|
    && IsChain(slot, HeadNext(slot[head]), chain)
    && HeadName(slot[head])[..Min(|name|, DTLHDRDATALEN)] == name[..Min(|name|, DTLHDRDATALEN)]
    && StoresTail(slot, chain, name[Min(|name|, DTLHDRDATALEN)..])
  }

  lemma {:induction false} TailLength(slot: seq<Slot>, chain: seq<nat>, rest: seq<u16>)
    requires StoresTail(slot, chain, rest)
    ensures |chain| == (|rest| + 14) / 15
  {
    if rest != [] {
      TailLength(slot, chain[1..], rest[Min(|rest|, DTSLOTDATALEN)..]);
    }
  }

  /** A name takes NDTLEAF slots: its chain has one fewer. */
  lemma ChainLength(slot: seq<Slot>, head: nat, chain: seq<nat>, name: seq<u16>)
    requires StoresName(slot, head, chain, name)
    ensures |chain| == NdtLeaf(|name|) - 1
  {
    TailLength(slot, chain, name[Min(|name|, DTLHDRDATALEN)..]);
  }

  /** n units of src up to its first NUL, and zeros from there on. */
  function Padded(src: seq<u16>, n: nat): (p: seq<u16>)
    requires n <= |src|
    ensures |p| == n
  {
    seq(n, i requires 0 <= i < n => if NulFree(src[..i + 1]) then src[i] else 0)
  }

  /** The units that are copied from the slots of a chain, for a name that has `rem` units
      left. A chain that is longer than the name adds nothing. */
  ghost function TailVia(slot: seq<Slot>, chain: seq<nat>, rem: nat): (p: seq<u16>)
    requires forall i :: 0 <= i < |chain| ==> chain[i] < |slot|
    ensures |p| <= rem
  {
    if chain == [] then []
    else
      var len := Min(rem, DTSLOTDATALEN);
      Padded(ContName(slot[chain[0]]), len) + TailVia(slot, chain[1..], rem - len)
  }

  ghost function NameVia(slot: seq<Slot>, head: nat, chain: seq<nat>): (p: seq<u16>)
    requires head < |slot| && forall i :: 0 <= i < |chain| ==> chain[i] < |slot|
    ensures |p| <= HeadNamlen(slot[head])
  {
    var namlen := HeadNamlen(slot[head]);
    var len := Min(namlen, DTLHDRDATALEN);
    Padded(HeadName(slot[head]), len) + TailVia(slot, chain, namlen - len)
  }

  lemma {:induction false} ChainInPage(slot: seq<Slot>, next: int, chain: seq<nat>)
    requires IsChain(slot, next, chain)
    ensures forall i :: 0 <= i < |chain| ==> chain[i] < |slot|
    decreases |chain|
  {
    if chain != [] {
      ChainInPage(slot, ContNext(slot[chain[0]]), chain[1..]);
      assert forall i :: 1 <= i < |chain| ==> chain[i] == chain[1..][i - 1];
    }
  }

  lemma PaddedNulFree(src: seq<u16>, n: nat)
    requires n <= |src| && NulFree(src[..n])
    ensures Padded(src, n) == src[..n]
  {
    forall i | 0 <= i < n ensures Padded(src, n)[i] == src[i] {
      assert forall j :: 0 <= j < i + 1 ==> src[..i + 1][j] == src[..n][j];
    }
  }

  /** Up to the first NUL the units are copied, and from there on they are zero. */
  lemma PaddedIs(src: seq<u16>, n: nat, z: nat)
    requires z <= n <= |src| && NulFree(src[..z]) && (z < n ==> src[z] == 0)
    ensures Padded(src, n) == src[..z] + seq(n - z, _ => 0)
  {
    forall i | 0 <= i < n ensures Padded(src, n)[i] == if i < z then src[i] else 0 {
      if i < z {
        assert forall j :: 0 <= j < i + 1 ==> src[..i + 1][j] == src[..z][j];
      } else {
        assert src[..i + 1][z] == src[z];
      }
    }
  }

  lemma {:induction false} TailViaStored(slot: seq<Slot>, chain: seq<nat>, rest: seq<u16>)
    requires StoresTail(slot, chain, rest) && NulFree(rest)
    requires forall i :: 0 <= i < |chain| ==> chain[i] < |slot|
    ensures TailVia(slot, chain, |rest|) == rest
  {
    if rest != [] {
      var len := Min(|rest|, DTSLOTDATALEN);
      PaddedNulFree(ContName(slot[chain[0]]), len);
      TailViaStored(slot, chain[1..], rest[len..]);
      assert rest == rest[..len] + rest[len..];
    }
  }

  /** Reassembling a stored name through its links gives the name. */
  lemma NameViaStored(slot: seq<Slot>, head: nat, chain: seq<nat>, name: seq<u16>)
    requires StoresName(slot, head, chain, name) && NulFree(name)
    requires forall i :: 0 <= i < |chain| ==> chain[i] < |slot|
    ensures NameVia(slot, head, chain) == name
  {
    var len := Min(|name|, DTLHDRDATALEN);
    PaddedNulFree(HeadName(slot[head]), len);
    TailViaStored(slot, chain, name[len..]);
    assert name == name[..len] + name[len..];
  }

  datatype Entry = Entry(name: seq<u16>, inumber: u32)

  ghost predicate StoresEntry(slot: seq<Slot>, head: nat, e: Entry) {
    && NulFree(e.name) && head < |slot| && HeadInumber(slot[head]) == e.inumber
    && exists chain: seq<nat> :: StoresName(slot, head, chain, e.name)
  }

  // ---------- the code ----------

  /** Copy n units, with zeros after a NUL. The counter is unsigned and wraps around below 0. */
  method UniStrncpy(dst: array<u16>, at: nat, src: seq<u16>, n0: u32)
    requires n0 <= |src| && at + n0 <= dst.Length
    modifies dst
    ensures forall k :: 0 <= k < dst.Length ==>
      dst[k] == if at <= k < at + n0 then Padded(src, n0)[k - at] else old(dst[k])
  {
    var n: int, i := n0, 0;
    while true
      invariant 0 <= n && i + n == n0
      invariant NulFree(src[..i])
      invariant forall k :: 0 <= k < dst.Length ==>
        dst[k] == if at <= k < at + i then Padded(src, n0)[k - at] else old(dst[k])
      decreases n
    {
      var more := n != 0;
      n := (n - 1) % TWO32;
      if !more || src[i] == 0 {
        break;
      }
      assert src[..i + 1] == src[..i] + [src[i]];
      dst[at + i] := src[i];
      i := i + 1;
    }
    n := (n + 1) % TWO32;
    assert i < n0 ==> src[i] == 0;
    while true
      invariant 0 <= n && i + n == n0
      invariant exists z :: 0 <= z <= i && (z < n0 ==> src[z] == 0)
      invariant forall k :: 0 <= k < dst.Length ==>
        dst[k] == if at <= k < at + i then Padded(src, n0)[k - at] else old(dst[k])
      decreases n
    {
      var more := n != 0;
      n := (n - 1) % TWO32;
      if !more {
        break;
      }
      ghost var z :| 0 <= z <= i && (z < n0 ==> src[z] == 0);
      assert src[..i + 1][z] == 0;
      dst[at + i] := 0;
      i := i + 1;
    }
  }

  /** The copy of a name has reached the link `next`, which starts the chain `rest`: what is
      done and what the chain supplies for the last `rem` units make up the name. */
  ghost predicate Pending(slot: seq<Slot>, next: int, rest: seq<nat>, rem: nat, done: seq<u16>, via: seq<u16>) {
    && IsChain(slot, next, rest) && (forall i :: 0 <= i < |rest| ==> rest[i] < |slot|)
    && via == done + TailVia(slot, rest, rem)
  }

  lemma PendingStart(slot: seq<Slot>, head: nat, chain: seq<nat>)
    requires head < |slot| && IsChain(slot, HeadNext(slot[head]), chain)
    requires forall i :: 0 <= i < |chain| ==> chain[i] < |slot|
    ensures var s := slot[head];
      var len := Min(HeadNamlen(s), DTLHDRDATALEN);
      Pending(slot, HeadNext(s), chain, HeadNamlen(s) - len, [] + Padded(HeadName(s), len), NameVia(slot, head, chain))
  {
    var s := slot[head];
    var len := Min(HeadNamlen(s), DTLHDRDATALEN);
    assert [] + Padded(HeadName(s), len) == Padded(HeadName(s), len);
  }

  lemma PendingStep(slot: seq<Slot>, next: int, rest: seq<nat>, rem: nat, done: seq<u16>, via: seq<u16>)
    requires Pending(slot, next, rest, rem, done, via)
    ensures next < 0 ==> done == via
    ensures next >= 0 ==>
      && next < |slot| && rest != []
      && var len := Min(rem, DTSLOTDATALEN);
         Pending(slot, ContNext(slot[next]), rest[1..], rem - len, done + Padded(ContName(slot[next]), len), via)
  {
    if next >= 0 {
      var len := Min(rem, DTSLOTDATALEN);
      var p := Padded(ContName(slot[next]), len);
      assert done + (p + TailVia(slot, rest[1..], rem - len)) == (done + p) + TailVia(slot, rest[1..], rem - len);
    } else {
      assert TailVia(slot, rest, rem) == [];
    }
  }

  // The first n units of the buffer are those of `done`.
  ghost predicate Holds(name: array<u16>, n: int, done: seq<u16>)
    reads name
  {
    0 <= n == |done| < name.Length && forall k :: 0 <= k < n ==> name[k] == done[k]
  }

  // Append the first len units of a slot to the n units already in the buffer.
  method CopySegment(name: array<u16>, n: nat, src: seq<u16>, len: u32, ghost done: seq<u16>)
    requires len <= |src| && n + len < name.Length && Holds(name, n, done)
    modifies name
    ensures Holds(name, n + len, done + Padded(src, len))
    ensures name[name.Length - 1] == old(name[name.Length - 1])
  {
    UniStrncpy(name, n, src, len);
  }

  /** Append what the chain from `next0` on supplies. `namlen0` units were left when the last
      segment, of `len0` units, was copied. */
  method FollowLinks(slot: seq<Slot>, next0: int, name: array<u16>, namlen0: nat, len0: nat, n0: nat,
                     ghost chain: seq<nat>, ghost done0: seq<u16>, ghost via: seq<u16>)
    requires len0 <= namlen0 && n0 + (namlen0 - len0) == name.Length - 1
    requires Pending(slot, next0, chain, namlen0 - len0, done0, via) && Holds(name, n0, done0)
    modifies name
    ensures Holds(name, |via|, via) && name[name.Length - 1] == old(name[name.Length - 1])
  {
    hide Padded, Pending, ContName, ContNext, Holds;
    var next, namlen, len, n := next0, namlen0, len0, n0;
    ghost var rest, done := chain, done0;
    while next >= 0
      invariant 0 <= len <= namlen && 0 <= n && n + (namlen - len) == name.Length - 1
      invariant Pending(slot, next, rest, namlen - len, done, via) && Holds(name, n, done)
      invariant name[name.Length - 1] == old(name[name.Length - 1])
      decreases |rest|
    {
      PendingStep(slot, next, rest, namlen - len, done, via);
      var s := slot[next];
      namlen := namlen - len;
      len := Min(namlen, DTSLOTDATALEN);
      CopySegment(name, n, ContName(s), len, done);
      done := done + Padded(ContName(s), len);
      rest := rest[1..];
      next := ContNext(s);
      n := n + len;
    }
    PendingStep(slot, next, rest, namlen - len, done, via);
    HoldsLength(name, n, done);
  }

  lemma HoldsLength(name: array<u16>, n: int, done: seq<u16>)
    requires Holds(name, n, done)
    ensures n == |done|
  {
  }

  /** Reassemble the name of an entry into a buffer of its length and a NUL, along a chain of
      any length. The copies never leave the buffer: a chain that outruns the name copies
      nothing. The buffer beyond what a too short chain supplies is not initialised. */
  method ReadName(slot: seq<Slot>, head: nat, ghost chain: seq<nat>) returns (name: array<u16>)
    requires head < |slot| && IsChain(slot, HeadNext(slot[head]), chain)
    requires forall i :: 0 <= i < |chain| ==> chain[i] < |slot|
    ensures fresh(name) && name.Length == HeadNamlen(slot[head]) + 1 && name[name.Length - 1] == 0
    ensures Holds(name, |NameVia(slot, head, chain)|, NameVia(slot, head, chain))
  {
    PendingStart(slot, head, chain);
    hide Padded, Pending, HeadName, HeadNext, NameVia;
    var entry := slot[head];
    var namlen: int := HeadNamlen(entry);
    name := new u16[namlen + 1];
    name[namlen] := 0;
    var len := Min(namlen, DTLHDRDATALEN);
    CopySegment(name, 0, HeadName(entry), len, []);
    FollowLinks(slot, HeadNext(entry), name, namlen, len, len, chain, [] + Padded(HeadName(entry), len),
                NameVia(slot, head, chain));
  }

  /** The name as callers see it: its UTF-8 form within a budget of one byte a unit, filled up
      with zeros. */
  function CName(name: seq<u16>): (c: seq<byte>)
    ensures |c| == |name|
  {
    seq(|name|, k requires 0 <= k < |name| =>
      if k < |Utf8(name, |name|)| then Utf8(name, |name|)[k] else 0)
  }

  lemma CNameAscii(name: seq<u16>)
    requires Ascii(name)
    ensures CName(name) == name
  {
    Utf8Ascii(name, |name|);
  }

  // The C string at the start of a buffer.
  function CString(c: seq<byte>): (s: seq<byte>)
    ensures |s| <= |c|
  {
    if c == [] || c[0] == 0 then [] else [c[0]] + CString(c[1..])
  }

  lemma {:induction false} CStringIs(c: seq<byte>, n: nat)
    requires n <= |c| && (forall i :: 0 <= i < n ==> c[i] != 0) && (n < |c| ==> c[n] == 0)
    ensures CString(c) == c[..n]
  {
    if n > 0 {
      CStringIs(c[1..], n - 1);
      assert c[..n] == [c[0]] + c[1..][..n - 1];
    }
  }

  lemma {:induction false} CStringPrefix(c: seq<byte>)
    ensures CString(c) <= c && 0 !in CString(c)
  {
    if c != [] && c[0] != 0 {
      CStringPrefix(c[1..]);
    }
  }

  const UTF8_BUFFER := 8 * 4095

  /** Reassemble and convert the name of an entry in the cleared conversion buffer. */
  method ConvertName(slot: seq<Slot>, head: nat, utf8: array<byte>, ghost e: Entry)
    requires StoresEntry(slot, head, e) && utf8.Length == UTF8_BUFFER
    modifies utf8
    ensures HeadNamlen(slot[head]) == |e.name|
    ensures forall k :: 0 <= k < utf8.Length ==> utf8[k] == if k < |e.name| then CName(e.name)[k] else 0
  {
    ghost var chain: seq<nat> :| StoresName(slot, head, chain, e.name);
    ChainInPage(slot, HeadNext(slot[head]), chain);
    NameViaStored(slot, head, chain, e.name);
    hide StoresName, NameVia, Utf8, HeadNamlen;
    NamlenOf(slot, head, chain, e.name);
    var name := ReadName(slot, head, chain);
    var units := name[..];
    assert units == e.name + [0] && units[|e.name|] == 0;
    Utf8Prefix(e.name, [0], |e.name|);
    forall k | 0 <= k < utf8.Length {
      utf8[k] := 0;
    }
    var n := StringToUtf8(utf8, units, HeadNamlen(slot[head]));
  }

  lemma NamlenOf(slot: seq<Slot>, head: nat, chain: seq<nat>, name: seq<u16>)
    requires StoresName(slot, head, chain, name)
    ensures IsChain(slot, HeadNext(slot[head]), chain) && HeadNamlen(slot[head]) == |name|
  {
  }

  /** The name and inode number of an entry. */
  method NameInum(slot: seq<Slot>, head: nat, rname: array<byte>, utf8: array<byte>, ghost e: Entry)
      returns (gotinum: int)
    requires StoresEntry(slot, head, e) && utf8.Length == UTF8_BUFFER
    requires rname != utf8 && rname.Length > |e.name|
    modifies rname, utf8
    ensures gotinum == e.inumber
    ensures forall k :: 0 <= k < rname.Length ==>
      rname[k] == if k < |e.name| then CName(e.name)[k] else if k == |e.name| then 0 else old(rname[k])
  {
    hide StoresName;
    ConvertName(slot, head, utf8, e);
    var namlen := HeadNamlen(slot[head]);
    for i := 0 to namlen
      invariant forall k :: 0 <= k < rname.Length ==> rname[k] == if k < i then CName(e.name)[k] else old(rname[k])
      invariant forall k :: 0 <= k < utf8.Length ==> utf8[k] == if k < |e.name| then CName(e.name)[k] else 0
    {
      rname[i] := utf8[i];
    }
    rname[namlen] := 0;
    gotinum := HeadInumber(slot[head]);
  }

  /** The searched name is an ASCII prefix of the name of an entry. */
  predicate Matches(sname: seq<byte>, name: seq<u16>) {
    && |sname| <= |name|
    && forall i :: 0 <= i < |sname| ==> sname[i] == CName(name)[i] && sname[i] <= 0x7F
  }

  /** Compare an entry with a searched C string, byte by byte of the searched name only. The
      buffer is unsigned and the searched name is signed, so bytes above 0x7F never agree. */
  method PrintDirentry(slot: seq<Slot>, head: nat, sname: seq<byte>, utf8: array<byte>, ghost e: Entry)
      returns (rc: int, gotinum: int)
    requires StoresEntry(slot, head, e) && utf8.Length == UTF8_BUFFER
    requires 0 !in sname
    modifies utf8
    ensures rc == if Matches(sname, e.name) then 0 else 1
    ensures gotinum == if Matches(sname, e.name) then e.inumber else NO_INODE
  {
    hide StoresName;
    ConvertName(slot, head, utf8, e);
    for i := 0 to |sname|
      invariant i <= |e.name|
      invariant forall k :: 0 <= k < i ==> sname[k] == CName(e.name)[k] && sname[k] <= 0x7F
    {
      if utf8[i] != S8(sname[i]) {
        assert i == |e.name| || sname[i] != CName(e.name)[i] || sname[i] > 0x7F;
        return 1, NO_INODE;
      }
    }
    return 0, HeadInumber(slot[head]);
  }
}
