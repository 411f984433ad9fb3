/** The pool of page buffers: a linked free list that is refilled eight at a time and
    never shrinks. */
module BufferPool {
  import opened Layout

  const NBUFFER := 8

  class Buf {
    var next: Buf?
    const data: array<byte>

    constructor (next: Buf?)
      ensures this.next == next && data.Length == PSIZE && fresh(data)
    {
      this.next := next;
      this.data := new byte[PSIZE];
    }
  }

  // Following `next` from `head` visits exactly the buffers of `s`, in order.
  ghost predicate Linked(head: Buf?, s: seq<Buf>)
    reads s
  {
    if s == [] then head == null else head == s[0] && Linked(s[0].next, s[1..])
  }

  class Pool {
    var cachelist: Buf?
    var nBuffer: int
    ghost var free: seq<Buf>  // the free list, head first
    ghost var bufs: set<Buf>  // every buffer allocated so far, free or held
    ghost var Repr: set<object>

    // The free list is a duplicate-free chain of buffers of this pool.
    ghost predicate Shape()
      reads this, bufs
    {
      && (forall i :: 0 <= i < |free| ==> free[i] in bufs)
      && Linked(cachelist, free)
      && (forall i, j :: 0 <= i < j < |free| ==> free[i] != free[j])
      && (forall b :: b in bufs ==> b in Repr && b.data in Repr && b.data.Length == PSIZE)
      && this in Repr
    }

    ghost predicate Valid()
      reads this, bufs
    {
      Shape() && |bufs| == nBuffer
    }

    /** Between lookups no buffer is held, and the pool was refilled at most once. */
    ghost predicate Quiescent()
      reads this, bufs
    {
      && Valid()
      && (forall b :: b in bufs ==> b in free)
      && (nBuffer == 0 || nBuffer == NBUFFER)
      && |free| == nBuffer
    }

    constructor ()
      ensures Quiescent() && free == [] && nBuffer == 0 && fresh(Repr)
    {
      cachelist, nBuffer, free, bufs, Repr := null, 0, [], {}, {this};
    }

    method Add()
      requires Shape()
      modifies this
      ensures Shape() && nBuffer == old(nBuffer)
      ensures |free| == |old(free)| + 1 && free[1..] == old(free) && fresh(free[0]) && bufs == old(bufs) + {free[0]}
      ensures fresh(Repr - old(Repr)) && old(Repr) <= Repr
    {
      var bp := new Buf(cachelist);
      cachelist := bp;
      free := [bp] + free;
      bufs, Repr := bufs + {bp}, Repr + {bp, bp.data};
    }

    /** Refill an empty free list with eight new buffers. */
    method Allocate()
      requires Valid() && cachelist == null
      modifies this
      ensures Valid() && |free| == 8 && nBuffer == old(nBuffer) + 8
      ensures fresh(Repr - old(Repr)) && old(Repr) <= Repr && old(bufs) <= bufs
      ensures forall b :: b in free <==> b in bufs && b !in old(bufs)
    {
      for i := 0 to NBUFFER
        invariant Shape() && |free| == i && |bufs| == nBuffer + i && nBuffer == old(nBuffer)
        invariant fresh(Repr - old(Repr)) && old(Repr) <= Repr
        invariant forall b :: b in bufs <==> b in old(bufs) || b in free
        invariant forall b :: b in free ==> fresh(b)
      {
        ghost var was := free;
        Add();
        assert free == [free[0]] + was;
      }
      nBuffer := nBuffer + NBUFFER;
    }

    /** Take the head of the free list. */
    method Pop() returns (bp: Buf)
      requires Valid() && cachelist != null
      modifies this
      ensures Valid() && bp in bufs && bp !in free
      ensures [bp] + free == old(free) && bufs == old(bufs) && nBuffer == old(nBuffer) && Repr == old(Repr)
    {
      bp := cachelist;
      cachelist := bp.next;
      free := free[1..];
    }

    /** Take a buffer, refilling the list first if it is empty, and fill it with `xlen`
        blocks of the image. */
    method Read(vol: Volume, xaddr: int, xlen: int) returns (bp: Buf)
      requires Valid() && vol.InImage(vol.ByteAddress(xaddr), PSIZE) && vol.ByteAddress(xlen) == PSIZE
      modifies Repr
      ensures Valid() && bp in bufs && bp !in free && old(bufs) <= bufs
      ensures fresh(Repr - old(Repr)) && old(Repr) <= Repr
      ensures bp.data[..] == vol.Bytes(vol.ByteAddress(xaddr), PSIZE)
      ensures old(free) != [] ==> [bp] + free == old(free) && bufs == old(bufs) && nBuffer == old(nBuffer)
      ensures old(free) == [] ==> nBuffer == old(nBuffer) + NBUFFER && |free| == NBUFFER - 1
      ensures old(free) == [] ==> forall b :: b in bufs && b !in old(bufs) ==> b == bp || b in free
    {
      if cachelist == null {
        Allocate();
      }
      bp := Pop();
      var off, len := vol.ByteAddress(xaddr), vol.ByteAddress(xlen);
      forall i | 0 <= i < len {
        bp.data[i] := vol.image[off + i];
      }
    }

    method Release(bp: Buf)
      requires Valid() && bp in bufs && bp !in free
      modifies this, bp
      ensures Valid() && free == [bp] + old(free) && bufs == old(bufs)
      ensures nBuffer == old(nBuffer) && Repr == old(Repr)
    {
      bp.next := cachelist;
      cachelist := bp;
      free := [bp] + free;
    }

    /** A lookup that began with free list `free0`, buffers `bufs0` and count `n0` holds the
        buffer `bp` (none if null): nothing else has changed, except that an empty list was
        refilled once. */
    ghost predicate Holding(bp: Buf?, free0: seq<Buf>, bufs0: set<Buf>, n0: int)
      reads this, bufs
    {
      && Valid() && bufs0 <= bufs
      && (bp == null ==> free == free0 && bufs == bufs0 && nBuffer == n0)
      && (bp != null ==>
            && bp in bufs && bp !in free
            && if free0 != [] then [bp] + free == free0 && bufs == bufs0 && nBuffer == n0
               else && |free| == NBUFFER - 1 && nBuffer == n0 + NBUFFER
                    && forall b :: b in bufs && b !in bufs0 ==> b == bp || b in free)
    }

    /** Release the parent page, if one is held, and read the child page. */
    method Exchange(vol: Volume, bp: Buf?, block: int, ghost free0: seq<Buf>, ghost bufs0: set<Buf>, ghost n0: int)
        returns (child: Buf)
      requires vol.Valid() && vol.HasPage(block) && Holding(bp, free0, bufs0, n0)
      modifies Repr
      ensures Holding(child, free0, bufs0, n0) && old(bufs) <= bufs
      ensures fresh(Repr - old(Repr)) && old(Repr) <= Repr
      ensures child.data[..] == vol.Bytes(vol.ByteAddress(block), PSIZE)
    {
      if bp != null {
        Release(bp);
      }
      BlockSizes(vol);
      child := Read(vol, block, Shr(PSIZE, vol.l2bsize));
    }

    /** The pool after a lookup: as it was before, or refilled once from empty. */
    ghost predicate Settled(free0: seq<Buf>, bufs0: set<Buf>, n0: int)
      reads this, bufs
    {
      && Valid()
      && if nBuffer == n0 then free == free0 && bufs == bufs0
         else free0 == [] && |free| == NBUFFER && nBuffer == n0 + NBUFFER
    }

    /** Release the last page, if one is held. */
    method Close(bp: Buf?, ghost free0: seq<Buf>, ghost bufs0: set<Buf>, ghost n0: int)
      requires Holding(bp, free0, bufs0, n0)
      modifies Repr
      ensures Settled(free0, bufs0, n0) && Repr == old(Repr)
      ensures (forall b :: b in bufs0 ==> b in free0) && |free0| == n0 && (n0 == 0 || n0 == NBUFFER) ==> Quiescent()
    {
      if bp != null {
        Release(bp);
      }
    }
  }
}
