/** Reads of the disk image at any address and length, done through whole blocks. */
module AlignedRead {
  import opened Layout

  // x & ~(b - 1), for a power of two b
  function RoundDown(x: int, b: int): int
    requires b > 0
  {
    b * (x / b)
  }

  /** The first byte of the block that holds `address`. */
  function SpanStart(address: nat, b: int): int
    requires b > 0
  {
    RoundDown(address, b)
  }

  /** The number of bytes that a read of `count` bytes fetches, in 32-bit arithmetic. */
  function SpanLength(address: nat, count: nat, b: int): int
    requires b > 0
  {
    RoundDown((address % b + count + b - 1) % TWO32, b)
  }

  lemma MulMono(b: int, i: int, j: int)
    requires b > 0 && i <= j
    ensures b * i <= b * j
  {
    assert b * j - b * i == b * (j - i);
  }

  lemma MulCancel(b: int, i: int, j: int)
    requires b > 0 && b * i < b * j + b
    ensures i <= j
  {
    if i > j {
      MulMono(b, j + 1, i);
    }
  }

  lemma MulAdd(b: int, i: int, j: int)
    ensures b * (i + j) == b * i + b * j
  {
  }

  /** The blocks fetched start with the block of the address, and they cover the request if
      and only if its length does not overflow 32 bits. */
  lemma SpanCovers(address: nat, count: nat, b: int)
    requires 0 < b < TWO32 && count < TWO32
    ensures SpanStart(address, b) == address - address % b
    ensures address + count <= SpanStart(address, b) + SpanLength(address, count, b)
            <==> address % b + count + b - 1 < TWO32
  {
    var x := address % b + count + b - 1;
    assert RoundDown(x % TWO32, b) <= x % TWO32 < RoundDown(x % TWO32, b) + b;
    if x >= TWO32 {
      assert x % TWO32 <= x - TWO32;
    }
  }

  /** With 4096-byte blocks, a request for the largest count that a size_t holds fetches nothing. */
  lemma SpanOverflows()
    ensures SpanLength(1, TWO32 - 1, 4096) == 0
    ensures SpanStart(1, 4096) + SpanLength(1, TWO32 - 1, 4096) < 1 + (TWO32 - 1)
  {
  }

  /** Without overflow no smaller run of whole blocks, from block i up to block j, covers the
      request. */
  lemma SpanIsLeast(address: nat, count: nat, b: int, i: int, j: int)
    requires 0 < b && address % b + count + b - 1 < TWO32
    requires b * i <= address && address + count <= b * j
    ensures b * i <= SpanStart(address, b) && SpanStart(address, b) + SpanLength(address, count, b) <= b * j
  {
    var q, k := address / b, (address % b + count + b - 1) / b;
    MulCancel(b, i, q);
    MulMono(b, i, q);
    MulAdd(b, q, k);
    MulCancel(b, q + k, j);
    MulMono(b, q + k, j);
  }

  // The blocks fetched lie in the image if the bytes asked for do.
  lemma SpanInImage(size: nat, address: nat, count: nat, b: int)
    requires 0 < b < TWO32 && address % b + count + b - 1 < TWO32
    requires size % b == 0 && address + count <= size
    ensures 0 <= SpanStart(address, b) <= address
    ensures address + count <= SpanStart(address, b) + SpanLength(address, count, b) <= size
  {
    SpanCovers(address, count, b);
    SpanIsLeast(address, count, b, 0, size / b);
  }

  // The image is a whole number of blocks.
  predicate WholeBlocks(vol: Volume) {
    vol.BSize() > 0 && |vol.image| % vol.BSize() == 0
  }

  method ReadDiskBlocks(vol: Volume, offset: int, count: int) returns (data: array<byte>)
    requires vol.InImage(offset, count)
    ensures fresh(data) && data[..] == vol.Bytes(offset, count)
  {
    data := new byte[count](i requires 0 <= i < count => vol.image[offset + i]);
  }

  method CopyFromBlocks(vol: Volume, blockAddress: int, length: int, offset: int, count: int)
      returns (buffer: seq<byte>)
    requires vol.InImage(blockAddress, length) && 0 <= offset && 0 <= count && offset + count <= length
    ensures buffer == vol.Bytes(blockAddress + offset, count)
  {
    var block := ReadDiskBlocks(vol, blockAddress, length);
    assert block[..][offset..offset + count] == vol.Bytes(blockAddress + offset, count);
    buffer := block[offset..offset + count];
  }

  /** Read any bytes of the image through whole blocks. */
  method XRead(vol: Volume, address: int, count: int) returns (buffer: seq<byte>)
    requires vol.Valid() && WholeBlocks(vol) && vol.InImage(address, count)
    requires address % vol.BSize() + count + vol.BSize() - 1 < TWO32
    ensures buffer == vol.Bytes(address, count)
  {
    var bsize := vol.BSize();
    BlockSizes(vol);
    SpanInImage(|vol.image|, address, count, bsize);
    var offset := address % bsize;
    var length := SpanLength(address, count, bsize);
    if offset == 0 && length == count {
      var direct := ReadDiskBlocks(vol, address, count);
      return direct[..];
    }
    SpanCovers(address, count, bsize);
    buffer := CopyFromBlocks(vol, address - offset, length, offset, count);
  }
}
