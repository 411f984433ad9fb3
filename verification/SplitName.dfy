/** The other direction of a directory name: how an entry is written over free slots of a page,
    so that reading it gives the name back. */
module SplitName {
  import opened Layout
  import opened Unicode
  import opened DirNames
  import opened Encoding

  function UnitBytes(us: seq<u16>): (b: seq<byte>)
    ensures |b| == 2 * |us|
  {
    seq(2 * |us|, k requires 0 <= k < 2 * |us| => if k % 2 == 0 then us[k / 2] % 0x100 else us[k / 2] / 0x100)
  }

  function Zeros(n: nat): (z: seq<u16>)
    ensures |z| == n
  {
    seq(n, _ => 0)
  }

  function EncodeHead(inumber: u32, next: int, namlen: byte, chunk: seq<u16>): Slot
    requires -0x80 <= next < 0x80 && |chunk| <= DTLHDRDATALEN
  {
    U32Bytes(inumber) + [S8Byte(next), namlen] + UnitBytes(chunk + Zeros(DTLHDRDATALEN - |chunk|)) + U32Bytes(0)
  }

  function EncodeCont(next: int, cnt: byte, chunk: seq<u16>): Slot
    requires -0x80 <= next < 0x80 && |chunk| <= DTSLOTDATALEN
  {
    [S8Byte(next), cnt] + UnitBytes(chunk + Zeros(DTSLOTDATALEN - |chunk|))
  }

  lemma UnitsOfBytes(b: seq<byte>, o: nat, us: seq<u16>)
    requires o + 2 * |us| <= |b| && b[o..o + 2 * |us|] == UnitBytes(us)
    ensures Units(b, o, |us|) == us
  {
    forall i | 0 <= i < |us| ensures U16(b, o + 2 * i) == us[i] {
      assert b[o + 2 * i] == UnitBytes(us)[2 * i] && b[o + 2 * i + 1] == UnitBytes(us)[2 * i + 1];
    }
  }

  lemma DecodeHead(inumber: u32, next: int, namlen: byte, chunk: seq<u16>)
    requires -0x80 <= next < 0x80 && |chunk| <= DTLHDRDATALEN
    ensures var s := EncodeHead(inumber, next, namlen, chunk);
      && HeadInumber(s) == inumber && HeadNext(s) == next && HeadNamlen(s) == namlen
      && HeadName(s)[..|chunk|] == chunk
  {
    var s := EncodeHead(inumber, next, namlen, chunk);
    UnitsOfBytes(s, 6, chunk + Zeros(DTLHDRDATALEN - |chunk|));
    hide U32Bytes, UnitBytes;
    assert HasAt(s, 0, U32Bytes(inumber));
    U32RoundTrip(s, 0, inumber);
  }

  lemma DecodeCont(next: int, cnt: byte, chunk: seq<u16>)
    requires -0x80 <= next < 0x80 && |chunk| <= DTSLOTDATALEN
    ensures var s := EncodeCont(next, cnt, chunk); ContNext(s) == next && ContName(s)[..|chunk|] == chunk
  {
    var s := EncodeCont(next, cnt, chunk);
    UnitsOfBytes(s, 2, chunk + Zeros(DTSLOTDATALEN - |chunk|));
  }

  // The link to the rest of a chain; a chain ends with -1.
  function Link(chain: seq<nat>): int {
    if chain == [] then -1 else chain[0]
  }

  function WriteTail(slot: seq<Slot>, chain: seq<nat>, rest: seq<u16>): (r: seq<Slot>)
    requires |chain| == (|rest| + 14) / 15
    requires |slot| <= 0x80 && forall i :: 0 <= i < |chain| ==> chain[i] < |slot|
    ensures |r| == |slot|
    ensures forall k :: 0 <= k < |slot| && k !in chain ==> r[k] == slot[k]
    decreases |chain|
  {
    if rest == [] then slot
    else
      var len := Min(|rest|, DTSLOTDATALEN);
      WriteTail(slot[chain[0] := EncodeCont(Link(chain[1..]), len, rest[..len])], chain[1..], rest[len..])
  }

  /** Put an entry in slot `head` of a page of at most 128 slots, its name continued in the
      slots of `chain`. */
  function WriteEntry(slot: seq<Slot>, head: nat, chain: seq<nat>, e: Entry): seq<Slot>
    requires |e.name| <= 255 && |chain| == NdtLeaf(|e.name|) - 1
    requires head < |slot| <= 0x80 && forall i :: 0 <= i < |chain| ==> chain[i] < |slot|
  {
    var len := Min(|e.name|, DTLHDRDATALEN);
    WriteTail(slot[head := EncodeHead(e.inumber, Link(chain), |e.name|, e.name[..len])], chain, e.name[len..])
  }

  predicate Distinct(xs: seq<nat>) {
    forall i, j :: 0 <= i < j < |xs| ==> xs[i] != xs[j]
  }

  lemma {:induction false} WriteTailStores(slot: seq<Slot>, chain: seq<nat>, rest: seq<u16>)
    requires |chain| == (|rest| + 14) / 15 && Distinct(chain)
    requires |slot| <= 0x80 && forall i :: 0 <= i < |chain| ==> chain[i] < |slot|
    decreases |chain|
    ensures IsChain(WriteTail(slot, chain, rest), Link(chain), chain)
    ensures StoresTail(WriteTail(slot, chain, rest), chain, rest)
  {
    if rest != [] {
      var len := Min(|rest|, DTSLOTDATALEN);
      var s := EncodeCont(Link(chain[1..]), len, rest[..len]);
      DecodeCont(Link(chain[1..]), len, rest[..len]);
      WriteTailStores(slot[chain[0] := s], chain[1..], rest[len..]);
      assert chain[0] !in chain[1..];
      assert WriteTail(slot, chain, rest)[chain[0]] == s;
    }
  }

  /** Every name of up to 255 units can be split over slots, in any free slots of the page, and
      what is written is read back: the entry is stored. */
  lemma WriteEntryStores(slot: seq<Slot>, head: nat, chain: seq<nat>, e: Entry)
    requires NulFree(e.name) && |e.name| <= 255 && |chain| == NdtLeaf(|e.name|) - 1
    requires head < |slot| <= 0x80 && head !in chain && Distinct(chain)
    requires forall i :: 0 <= i < |chain| ==> chain[i] < |slot|
    ensures StoresEntry(WriteEntry(slot, head, chain, e), head, e)
    ensures NameVia(WriteEntry(slot, head, chain, e), head, chain) == e.name
  {
    var len := Min(|e.name|, DTLHDRDATALEN);
    var s := EncodeHead(e.inumber, Link(chain), |e.name|, e.name[..len]);
    DecodeHead(e.inumber, Link(chain), |e.name|, e.name[..len]);
    WriteTailStores(slot[head := s], chain, e.name[len..]);
    var r := WriteEntry(slot, head, chain, e);
    assert r[head] == s;
    assert StoresName(r, head, chain, e.name);
    NameViaStored(r, head, chain, e.name);
  }
}
