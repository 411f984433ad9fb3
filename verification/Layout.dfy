/** On-disk structures of the file system, decoded from the bytes of the disk image.
    Multi-byte fields are little-endian; bit-fields are packed from the low bits up. */
module Layout {
  type byte = x: int | 0 <= x < 0x100
  type u16 = x: int | 0 <= x < 0x1_0000
  type u24 = x: int | 0 <= x < 0x100_0000
  type u32 = x: int | 0 <= x < 0x1_0000_0000
  type u40 = x: int | 0 <= x < 0x100_0000_0000

  const PSIZE := 4096
  const DINODE_SIZE := 512
  const XTENTRYSTART := 2
  const TWO32 := 0x1_0000_0000

  datatype Option<+T> = None | Some(value: T)

  function Min(a: int, b: int): int {
    if a < b then a else b
  }

  // x << n
  function Shl(x: int, n: nat): int {
    if n == 0 then x else 2 * Shl(x, n - 1)
  }

  // x >> n, rounding down
  function Shr(x: int, n: nat): (y: int)
    ensures x >= 0 ==> y >= 0
  {
    if n == 0 then x else Shr(x, n - 1) / 2
  }

  function U16(b: seq<byte>, o: nat): u16
    requires o + 2 <= |b|
  {
    b[o] as int + 0x100 * (b[o + 1] as int)
  }

  function U24(b: seq<byte>, o: nat): u24
    requires o + 3 <= |b|
  {
    b[o] as int + 0x100 * (b[o + 1] as int) + 0x1_0000 * (b[o + 2] as int)
  }

  function U32(b: seq<byte>, o: nat): u32
    requires o + 4 <= |b|
  {
    U24(b, o) as int + 0x100_0000 * (b[o + 3] as int)
  }

  // A one-byte field of C type s8.
  function S8(b: byte): int {
    if b < 0x80 then b else b - 0x100
  }

  function S16(b: seq<byte>, o: nat): int
    requires o + 2 <= |b|
  {
    if b[o + 1] < 0x80 then U16(b, o) else U16(b, o) - 0x1_0000
  }

  function S64(b: seq<byte>, o: nat): int
    requires o + 8 <= |b|
  {
    var u := U32(b, o) + TWO32 * U32(b, o + 4);
    if b[o + 7] < 0x80 then u else u - TWO32 * TWO32
  }

  /** An extent descriptor: `len` blocks of the file starting at block `off` live at
      disk blocks `addr`, `addr + 1`, .... */
  datatype Xad = Xad(off: u40, len: u24, addr: u40) {
    function End(): int {
      off + len
    }

    predicate Covers(key: int) {
      off <= key < End()
    }
  }

  function DecodeXad(b: seq<byte>, o: nat): Xad
    requires o + 16 <= |b|
  {
    Xad(b[o + 3] * TWO32 + U32(b, o + 4), U24(b, o + 8), b[o + 11] * TWO32 + U32(b, o + 12))
  }

  /** An xtree page. Slots 0 and 1 of `xad` overlay the header. */
  datatype XPage = XPage(flag: byte, nextindex: int, xad: seq<Xad>) {
    predicate IsLeaf() {
      flag / 2 % 2 == 1  // BT_LEAF
    }

    predicate IsInternal() {
      flag / 4 % 2 == 1  // BT_INTERNAL
    }
  }

  function DecodeXPage(b: seq<byte>): XPage
    requires |b| >= 32
  {
    XPage(b[16], S16(b, 18), seq(|b| / 16, i requires 0 <= i < |b| / 16 => DecodeXad(b, 16 * i)))
  }

  /** A physical extent: `len` blocks at block `addr`. */
  datatype Pxd = Pxd(len: u24, addr: u40)

  function DecodePxd(b: seq<byte>, o: nat): Pxd
    requires o + 8 <= |b|
  {
    Pxd(U24(b, o), b[o + 3] * TWO32 + U32(b, o + 4))
  }

  /** The fields of a 512-byte disk inode that the model reads. The last 288 bytes are the
      root of either an xtree or a directory tree. */
  datatype Dinode = Dinode(size: int, mode: u32, root: seq<byte>) {
    predicate IsDir() {
      mode / 0x1000 % 0x10 == 4  // (di_mode & IFMT) == IFDIR
    }

    predicate IsLink() {
      mode / 0x1000 % 0x10 == 10  // S_ISLNK
    }

    function XtRoot(): XPage
      requires |root| == 288
    {
      DecodeXPage(root)
    }
  }

  function DecodeDinode(b: seq<byte>): (d: Dinode)
    requires |b| == DINODE_SIZE
    ensures |d.root| == 288
  {
    Dinode(S64(b, 24), U32(b, 52), b[224..])
  }

  // The inode extent descriptor with the given number in an inode allocation group page.
  function InoExt(iag: seq<byte>, extnum: nat): Pxd
    requires |iag| == PSIZE && extnum < 128
  {
    DecodePxd(iag, 3072 + 8 * extnum)
  }

  /** A mounted volume: the whole disk image and log2 of its block size. */
  datatype Volume = Volume(image: seq<byte>, l2bsize: nat) {
    function BSize(): int {
      Shl(1, l2bsize)
    }

    predicate InImage(address: int, count: int) {
      0 <= address && 0 <= count && address + count <= |image|
    }

    function Bytes(address: int, count: int): (b: seq<byte>)
      requires InImage(address, count)
      ensures |b| == count
    {
      image[address..address + count]
    }

    // Byte address of a block: block << l2bsize.
    function ByteAddress(block: int): int {
      Shl(block, l2bsize)
    }

    predicate HasPage(block: int) {
      InImage(ByteAddress(block), PSIZE)
    }

    function XPageAt(block: int): XPage
      requires HasPage(block)
    {
      DecodeXPage(Bytes(ByteAddress(block), PSIZE))
    }

    /** JFS block sizes are the powers of two from 512 to 4096. */
    predicate Valid() {
      9 <= l2bsize <= 12
    }
  }

  // A block size is one of four numbers, and PSIZE >> l2bsize blocks make up a page.
  lemma BlockSizes(vol: Volume)
    requires vol.Valid()
    ensures vol.BSize() == if vol.l2bsize == 9 then 512 else if vol.l2bsize == 10 then 1024
                           else if vol.l2bsize == 11 then 2048 else 4096
    ensures vol.ByteAddress(Shr(PSIZE, vol.l2bsize)) == PSIZE
  {
    assert Shl(1, 9) == 512 && Shl(1, 10) == 1024 && Shl(1, 11) == 2048 && Shl(1, 12) == 4096;
    assert Shr(PSIZE, 9) == 8 && Shr(PSIZE, 10) == 4 && Shr(PSIZE, 11) == 2 && Shr(PSIZE, 12) == 1;
    assert Shl(8, 9) == Shl(4, 10) == Shl(2, 11) == Shl(1, 12);
  }

  lemma {:induction false} ShlIsMul(x: int, n: nat)
    ensures Shl(x, n) == x * Shl(1, n) && Shl(1, n) >= 1
  {
    if n > 0 {
      ShlIsMul(x, n - 1);
      assert 2 * (x * Shl(1, n - 1)) == x * (2 * Shl(1, n - 1));
    }
  }
}
