/** The other direction of the decoding of the on-disk structures: the bytes of each, field by
    field in the order in which they are laid out. */
module Encoding {
  import opened Layout
  import opened XTree
  import opened DirNames
  import DT = DirTree

  function U32Bytes(x: u32): (b: seq<byte>)
    ensures |b| == 4
  {
    [x % 0x100, x / 0x100 % 0x100, x / 0x1_0000 % 0x100, x / 0x100_0000]
  }

  function S8Byte(x: int): byte
    requires -0x80 <= x < 0x80
  {
    if x < 0 then x + 0x100 else x
  }

  function S16Bytes(x: int): (b: seq<byte>)
    requires -0x8000 <= x < 0x8000
    ensures |b| == 2
  {
    var u := if x < 0 then x + 0x1_0000 else x;
    [u % 0x100, u / 0x100]
  }

  const TWO64 := 0x1_0000_0000_0000_0000

  function S64Bytes(x: int): (b: seq<byte>)
    requires -TWO64 / 2 <= x < TWO64 / 2
    ensures |b| == 8
  {
    var u := if x < 0 then x + TWO64 else x;
    U32Bytes(u % TWO32) + U32Bytes(u / TWO32)
  }

  // len:24 and addr1:8 share a word; addr2 follows.
  function EncodePxd(p: Pxd): (b: seq<byte>)
    ensures |b| == 8
  {
    [p.len % 0x100, p.len / 0x100 % 0x100, p.len / 0x1_0000, p.addr / TWO32] + U32Bytes(p.addr % TWO32)
  }

  // flag:8, rsrvd:16 and off1:8 share a word; then off2; then the physical extent.
  function EncodeXad(flag: byte, x: Xad): (b: seq<byte>)
    ensures |b| == 16
  {
    [flag, 0, 0, x.off / TWO32] + U32Bytes(x.off % TWO32) + EncodePxd(Pxd(x.len, x.addr))
  }

  function EncodeXads(es: seq<Xad>): (b: seq<byte>)
    ensures |b| == 16 * |es|
  {
    if es == [] then [] else EncodeXad(0, es[0]) + EncodeXads(es[1..])
  }

  // next, prev, flag, rsrvd1, nextindex, maxentry, rsrvd2, self.
  function EncodeXHeader(flag: byte, nextindex: int, maxentry: int): (b: seq<byte>)
    requires -0x8000 <= nextindex < 0x8000 && -0x8000 <= maxentry < 0x8000
    ensures |b| == 32
  {
    S64Bytes(0) + S64Bytes(0) + [flag, 0] + S16Bytes(nextindex) + S16Bytes(maxentry) + [0, 0] + EncodePxd(Pxd(0, 0))
  }

  function EncodeXPage(flag: byte, maxentry: int, es: seq<Xad>, free: seq<byte>): (b: seq<byte>)
    requires |es| < 0x7FFE && -0x8000 <= maxentry < 0x8000
    ensures |b| == 32 + 16 * |es| + |free|
  {
    EncodeXHeader(flag, 2 + |es|, maxentry) + (EncodeXads(es) + free)
  }

  // di_size is behind 24 bytes, di_mode behind 20 more, and the root of the tree behind 168 more.
  function EncodeDinode(start: seq<byte>, size: int, middle: seq<byte>, mode: u32, rest: seq<byte>,
                        root: seq<byte>): (b: seq<byte>)
    requires |start| == 24 && |middle| == 20 && |rest| == 168 && |root| == 288
    requires -TWO64 / 2 <= size < TWO64 / 2
    ensures |b| == DINODE_SIZE
  {
    start + S64Bytes(size) + middle + U32Bytes(mode) + rest + root
  }

  // next, prev, flag, nextindex, freecnt, freelist, maxslot, stblindex, rsrvd, self.
  function EncodeDHeader(next: int, prev: int, flag: byte, nextindex: byte, maxslot: byte,
                         stblindex: byte): (b: seq<byte>)
    requires -TWO64 / 2 <= next < TWO64 / 2 && -TWO64 / 2 <= prev < TWO64 / 2
    ensures |b| == 32
  {
    S64Bytes(next) + S64Bytes(prev) + [flag, nextindex, 0, 0xFF, maxslot, stblindex, 0, 0] + EncodePxd(Pxd(0, 0))
  }

  // DASD, flag, nextindex, freecnt, freelist, idotdot, stbl.
  function EncodeDRootHeader(dasd: seq<byte>, flag: byte, nextindex: byte, idotdot: u32,
                             stbl: seq<byte>): (b: seq<byte>)
    requires |dasd| == 16 && |stbl| == 8
    ensures |b| == 32
  {
    dasd + [flag, nextindex, 0, 0xFF] + U32Bytes(idotdot) + stbl
  }

  // ---------- round trips ----------

  /** The bytes `x` are at byte `o` of `b`. */
  ghost predicate HasAt(b: seq<byte>, o: nat, x: seq<byte>) {
    o + |x| <= |b| && forall i :: 0 <= i < |x| ==> x[i] == b[o + i]
  }

  lemma HasParts(b: seq<byte>, o: nat, x: seq<byte>, y: seq<byte>)
    requires HasAt(b, o, x + y)
    ensures HasAt(b, o, x) && HasAt(b, o + |x|, y)
  {
    forall i | 0 <= i < |x| ensures x[i] == b[o + i] {
      assert (x + y)[i] == x[i];
    }
    forall i | 0 <= i < |y| ensures y[i] == b[o + |x| + i] {
      assert (x + y)[|x| + i] == y[i];
    }
  }

  lemma HasBefore(h: seq<byte>, rest: seq<byte>, o: nat, x: seq<byte>)
    requires HasAt(h, o, x)
    ensures HasAt(h + rest, o, x)
  {
  }

  lemma HasAfter(h: seq<byte>, x: seq<byte>, free: seq<byte>)
    ensures HasAt(h + (x + free), |h|, x)
  {
  }

  lemma U32RoundTrip(b: seq<byte>, o: nat, x: u32)
    requires HasAt(b, o, U32Bytes(x))
    ensures U32(b, o) == x
  {
    var y := x / 0x100;
    var z := y / 0x100;
    assert U32Bytes(x)[0] == x % 0x100 && U32Bytes(x)[1] == y % 0x100;
    assert U32Bytes(x)[2] == z % 0x100 && U32Bytes(x)[3] == z / 0x100;
  }

  lemma S16RoundTrip(b: seq<byte>, o: nat, x: int)
    requires -0x8000 <= x < 0x8000 && HasAt(b, o, S16Bytes(x))
    ensures S16(b, o) == x
  {
    var s := S16Bytes(x);
    assert b[o] == s[0] && b[o + 1] == s[1];
  }

  lemma S64RoundTrip(b: seq<byte>, o: nat, x: int)
    requires -TWO64 / 2 <= x < TWO64 / 2 && HasAt(b, o, S64Bytes(x))
    ensures S64(b, o) == x
  {
    var u := if x < 0 then x + TWO64 else x;
    HasParts(b, o, U32Bytes(u % TWO32), U32Bytes(u / TWO32));
    U32RoundTrip(b, o, u % TWO32);
    U32RoundTrip(b, o + 4, u / TWO32);
    assert b[o + 7] == U32Bytes(u / TWO32)[3];
  }

  lemma PxdRoundTrip(b: seq<byte>, o: nat, p: Pxd)
    requires HasAt(b, o, EncodePxd(p))
    ensures DecodePxd(b, o) == p
  {
    var w := [p.len % 0x100, p.len / 0x100 % 0x100, p.len / 0x1_0000, p.addr / TWO32];
    HasParts(b, o, w, U32Bytes(p.addr % TWO32));
    U32RoundTrip(b, o + 4, p.addr % TWO32);
    assert b[o] == w[0] && b[o + 1] == w[1] && b[o + 2] == w[2] && b[o + 3] == w[3];
  }

  lemma XadRoundTrip(b: seq<byte>, o: nat, flag: byte, x: Xad)
    requires HasAt(b, o, EncodeXad(flag, x))
    ensures DecodeXad(b, o) == x
  {
    var w := [flag, 0, 0, x.off / TWO32];
    HasParts(b, o, w + U32Bytes(x.off % TWO32), EncodePxd(Pxd(x.len, x.addr)));
    HasParts(b, o, w, U32Bytes(x.off % TWO32));
    U32RoundTrip(b, o + 4, x.off % TWO32);
    PxdRoundTrip(b, o + 8, Pxd(x.len, x.addr));
    assert b[o + 3] == w[3];
  }

  // The 16 bytes from `o` on, and those that follow, are the extents `es`.
  ghost predicate HasXads(b: seq<byte>, o: nat, es: seq<Xad>) {
    forall i :: 0 <= i < |es| ==> o + 16 * i + 16 <= |b| && DecodeXad(b, o + 16 * i) == es[i]
  }

  lemma {:induction false} XadsRoundTrip(b: seq<byte>, o: nat, es: seq<Xad>)
    requires HasAt(b, o, EncodeXads(es))
    ensures HasXads(b, o, es)
    decreases |es|
  {
    if es != [] {
      HasParts(b, o, EncodeXad(0, es[0]), EncodeXads(es[1..]));
      hide EncodeXad, EncodeXads, DecodeXad, HasAt, HasXads;
      XadRoundTrip(b, o, 0, es[0]);
      XadsRoundTrip(b, o + 16, es[1..]);
      NextXad(b, o, es);
    }
  }

  lemma NextXad(b: seq<byte>, o: nat, es: seq<Xad>)
    requires es != [] && o + 16 <= |b| && DecodeXad(b, o) == es[0] && HasXads(b, o + 16, es[1..])
    ensures HasXads(b, o, es)
  {
    hide DecodeXad;
    forall i | 1 <= i < |es| ensures o + 16 * i + 16 <= |b| && DecodeXad(b, o + 16 * i) == es[i] {
      assert es[i] == es[1..][i - 1];
    }
  }

  lemma XHeaderParts(flag: byte, nextindex: int, maxentry: int)
    requires -0x8000 <= nextindex < 0x8000 && -0x8000 <= maxentry < 0x8000
    ensures var h := EncodeXHeader(flag, nextindex, maxentry);
      h[16] == flag && HasAt(h, 18, S16Bytes(nextindex))
  {
    hide S64Bytes, EncodePxd, S16Bytes;
  }

  /** The page has the flag and exactly the entries `es`. */
  ghost predicate PageHolds(p: XPage, flag: byte, es: seq<Xad>) {
    && p.flag == flag && p.nextindex == XTENTRYSTART + |es| <= |p.xad|
    && p.xad[XTENTRYSTART..p.nextindex] == es
  }

  /** A page is decoded as written: its flag, its index and all its entries. */
  lemma XPageRoundTrip(flag: byte, maxentry: int, es: seq<Xad>, free: seq<byte>)
    requires |es| < 0x7FFE && -0x8000 <= maxentry < 0x8000
    ensures PageHolds(DecodeXPage(EncodeXPage(flag, maxentry, es, free)), flag, es)
  {
    var b := EncodeXPage(flag, maxentry, es, free);
    var h, x := EncodeXHeader(flag, 2 + |es|, maxentry), EncodeXads(es);
    hide EncodeXHeader, EncodeXads, S16Bytes, DecodeXad, S16, HasAt, HasXads, PageHolds, DecodeXPage;
    XHeaderParts(flag, 2 + |es|, maxentry);
    HasBefore(h, x + free, 18, S16Bytes(2 + |es|));
    S16RoundTrip(b, 18, 2 + |es|);
    HasAfter(h, x, free);
    XadsRoundTrip(b, 32, es);
    PageOf(b, flag, es);
  }

  lemma PageOf(b: seq<byte>, flag: byte, es: seq<Xad>)
    requires |b| >= 32 + 16 * |es| && b[16] == flag && S16(b, 18) == 2 + |es|
    requires HasXads(b, 32, es)
    ensures PageHolds(DecodeXPage(b), flag, es)
  {
    hide DecodeXad, S16;
    forall i | 0 <= i < |es| ensures DecodeXPage(b).xad[XTENTRYSTART + i] == es[i] {
    }
  }

  /** An inode is decoded as written. */
  lemma DinodeRoundTrip(start: seq<byte>, size: int, middle: seq<byte>, mode: u32, rest: seq<byte>, root: seq<byte>)
    requires |start| == 24 && |middle| == 20 && |rest| == 168 && |root| == 288
    requires -TWO64 / 2 <= size < TWO64 / 2
    ensures DecodeDinode(EncodeDinode(start, size, middle, mode, rest, root)) == Dinode(size, mode, root)
  {
    var b := EncodeDinode(start, size, middle, mode, rest, root);
    hide S64Bytes, U32Bytes;
    assert HasAt(b, 24, S64Bytes(size));
    S64RoundTrip(b, 24, size);
    assert HasAt(b, 52, U32Bytes(mode));
    U32RoundTrip(b, 52, mode);
    assert b[224..] == root;
  }

  /** So is the header of a page of a directory, and the table of its entries is where the header
      says. */
  lemma DPageRoundTrip(next: int, prev: int, flag: byte, nextindex: byte, maxslot: byte, stblindex: byte,
                       rest: seq<byte>)
    requires -TWO64 / 2 <= next < TWO64 / 2 && -TWO64 / 2 <= prev < TWO64 / 2
    requires 0 < stblindex <= 127 && |rest| == PSIZE - 32
    ensures var p := DT.DecodeDPage(EncodeDHeader(next, prev, flag, nextindex, maxslot, stblindex) + rest);
      && p.next == next && p.flag == flag && p.nextindex == nextindex
      && p.stbl == rest[32 * (stblindex - 1)..]
      && |p.slots| == 128 && forall i :: 1 <= i < 128 ==> p.slots[i] == rest[32 * (i - 1)..32 * i]
  {
    var h := EncodeDHeader(next, prev, flag, nextindex, maxslot, stblindex);
    var b := h + rest;
    hide S64Bytes, EncodePxd;
    assert HasAt(b, 0, S64Bytes(next));
    S64RoundTrip(b, 0, next);
    assert b[16] == h[16] == flag && b[17] == h[17] == nextindex && b[21] == h[21] == stblindex;
    forall i | 1 <= i < 128 ensures b[32 * i..32 * i + 32] == rest[32 * (i - 1)..32 * i] {
    }
    assert b[32 * stblindex..] == rest[32 * (stblindex - 1)..];
  }

  /** And the header of the root of a directory. */
  lemma DRootRoundTrip(dasd: seq<byte>, flag: byte, nextindex: byte, idotdot: u32, stbl: seq<byte>, rest: seq<byte>)
    requires |dasd| == 16 && |stbl| == 8 && |rest| == 256
    ensures var p := DT.DecodeDRoot(EncodeDRootHeader(dasd, flag, nextindex, idotdot, stbl) + rest);
      && p.flag == flag && p.nextindex == nextindex && p.stbl == stbl
      && |p.slots| == 9 && forall i :: 1 <= i < 9 ==> p.slots[i] == rest[32 * (i - 1)..32 * i]
  {
    var h := EncodeDRootHeader(dasd, flag, nextindex, idotdot, stbl);
    var b := h + rest;
    hide U32Bytes;
    assert b[16] == h[16] == flag && b[17] == h[17] == nextindex;
    assert b[24..32] == stbl;
    forall i | 1 <= i < 9 ensures b[32 * i..32 * i + 32] == rest[32 * (i - 1)..32 * i] {
    }
  }
}
