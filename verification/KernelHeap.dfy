/** software/dev/kernel/kmalloc.c: the kernel heap in one byte array, each block behind a 4-byte big-endian header
    that holds its size and, in the top bit, whether it is free. Offsets stand for addresses: the base is
    4-byte aligned. Each call is one atomic step, as the interrupt lock makes it. */
module KernelHeap {
  import opened HeapBlocks
  import opened Values

  // A pointer to payload bytes: the offset behind a header.
  datatype Ptr = Null | At(offset: nat)

  function Word(a: array<Byte>, o: nat): U32
    requires o + 4 <= a.Length
    reads a
  {
    var b0: int, b1: int, b2: int, b3: int := a[o], a[o + 1], a[o + 2], a[o + 3];
    b0 * 0x100_0000 + b1 * 0x1_0000 + b2 * 256 + b3
  }

  /** KM_SET, as the value it stores. */
  function Pack(size: nat, free: bool): (w: U32)
    ensures size < FREE_BIT ==> w % FREE_BIT == size && (w >= FREE_BIT <==> free)
  {
    size % FREE_BIT + if free then FREE_BIT else 0
  }

  lemma WordBytes(w: U32)
    ensures w / 0x100_0000 * 0x100_0000 + w / 0x1_0000 % 256 * 0x1_0000 + w / 256 % 256 * 256 + w % 256 == w
  {
    var a := w / 256;
    var b := a / 256;
    assert w / 0x1_0000 == b;
    assert w / 0x100_0000 == b / 256;
  }

  lemma Product(x: U32, y: U32)
    ensures 0 <= x * y && (x * y < 0x1_0000_0000 ==> x * y % 0x1_0000_0000 == x * y)
  {
  }

  class Heap {
    var base: array?<Byte>
    ghost var blocks: Blocks

    ghost predicate Valid()
      reads this, base
    {
      if base == null then blocks == map[]
      else base.Length < FREE_BIT && base.Length % 4 == 0 && Tiles(blocks, base.Length)
           && forall o {:trigger Header(o)} :: o in blocks ==> Header(o)
    }

    /** The header of block o is in place. */
    ghost predicate Header(o: nat)
      requires base != null && o in blocks
      reads this, base
    {
      End(blocks, o) <= base.Length && Word(base, o) == Pack(blocks[o].size, blocks[o].free)
    }

    ghost predicate Live(p: Ptr)
      reads this
    {
      p.At? && p.offset >= HDR_SIZE && p.offset - HDR_SIZE in blocks && !blocks[p.offset - HDR_SIZE].free
    }

    constructor ()
      ensures Valid() && base == null
    {
      base := null;
      blocks := map[];
    }

    method PutWord(o: nat, w: U32)
      requires base != null && o + 4 <= base.Length
      modifies base
      ensures Word(base, o) == w
      ensures forall k :: 0 <= k < base.Length && !(o <= k < o + 4) ==> base[k] == old(base[k])
    {
      WordBytes(w);
      base[o] := w / 0x100_0000;
      base[o + 1] := w / 0x1_0000 % 256;
      base[o + 2] := w / 256 % 256;
      base[o + 3] := w % 256;
    }

    method Init(area: array<Byte>)
      requires HDR_SIZE <= area.Length < FREE_BIT && area.Length % 4 == 0
      modifies this, area
      ensures Valid() && base == area && blocks == Fresh(area.Length)
    {
      base := area;
      PutWord(0, Pack(area.Length - HDR_SIZE, true));
      blocks := Fresh(area.Length);
      FreshTiles(area.Length);
      assert Header(0);
    }

    /** kmalloc takes the first free block that can hold the aligned request; only the headers it writes change,
        so the bytes of every block in use stay. */
    method Kmalloc(request: U32) returns (r: Ptr)
      requires Valid()
      modifies this`blocks, base
      ensures Valid()
      ensures r.Null? <==> request == 0 || forall o: nat :: !Fits(old(blocks), Align(request), o)
      ensures r.Null? ==> blocks == old(blocks) && (base != null ==> base[..] == old(base[..]))
      ensures r.At? ==> HDR_SIZE <= r.offset && FirstFit(old(blocks), Align(request), r.offset - HDR_SIZE)
      ensures r.At? ==> blocks == Take(old(blocks), r.offset - HDR_SIZE, Align(request))
      ensures r.At? ==>
                var o, size := r.offset - HDR_SIZE, Align(request);
                var whole := old(blocks)[o].size;
                blocks == if whole >= size + 20
                          then old(blocks)[o := Block(false, size)][r.offset + size := Block(true, whole - size - 4)]
                          else old(blocks)[o := Block(false, whole)]
      ensures r.At? ==> base != null && Live(r)
      ensures r.At? ==> (request <= blocks[r.offset - HDR_SIZE].size <==> request <= 0xffff_fffc)
      ensures base != null ==> Framed(old(blocks), old(base[..]), base[..])
    {
      if base == null || request == 0 {
        return Null;
      }
      var size := Align(request);
      var end := base.Length;
      var p := 0;
      while p < end
        invariant p == end || (p < end && p in blocks)
        invariant forall o: nat :: o < p ==> !Fits(blocks, size, o)
        decreases end - p
      {
        assert Header(p) && OnWords(blocks, p) && Reaches(blocks, end, p);
        var w := Word(base, p);
        var blockSize, free := w % FREE_BIT, w >= FREE_BIT;
        if free && blockSize >= size {
          assert Fits(blocks, size, p);
          TakeKeeps(blocks, end, p, size);
          if blocks[p].size >= size + 20 {
            TakeSplits(blocks, p, size);
          } else {
            TakeWhole(blocks, p, size);
          }
          TakeBlock(p, size, blockSize);
          assert Fits(old(blocks), size, p);
          assert Reaches(blocks, end, p);
          return At(p + HDR_SIZE);
        }
        forall o: nat | o < p + HDR_SIZE + blockSize ensures !Fits(blocks, size, o) {
          assert o in blocks ==> Clear(blocks, p, o);
        }
        p := p + HDR_SIZE + blockSize;
      }
      forall o: nat ensures !Fits(blocks, size, o) {
        assert o in blocks ==> Header(o);
      }
      return Null;
    }

    /** The branch of kmalloc that has found its block. */
    method TakeBlock(p: nat, size: U32, blockSize: nat)
      requires Valid() && base != null && Fits(blocks, size, p) && blocks[p].size == blockSize && size % 4 == 0
      modifies this`blocks, base
      ensures Valid() && blocks == Take(old(blocks), p, size)
      ensures Framed(old(blocks), old(base[..]), base[..])
    {
      assert Header(p);
      TakeTiles(blocks, base.Length, p, size);
      forall o: nat, k: nat | InPayload(blocks, o, k) ensures !(p <= k < End(blocks, p)) {
        PayloadApart(blocks, base.Length, o, k, p);
      }
      ghost var was := blocks;
      PutHeaders(p, size, blockSize);
      blocks := Take(blocks, p, size);
      forall o | o in blocks ensures Header(o) {
        if o in was && o != p {
          assert old(Header(o)) && Clear(was, o, p) && Clear(was, p, o);
        }
      }
    }

    /** The header of the block taken, and of what is split off. */
    method PutHeaders(p: nat, size: nat, blockSize: nat)
      requires base != null && p + HDR_SIZE + blockSize <= base.Length < FREE_BIT && size <= blockSize
      modifies base
      ensures forall k :: 0 <= k < base.Length && !(p <= k < p + HDR_SIZE + blockSize) ==> base[k] == old(base[k])
      ensures if blockSize >= size + HDR_SIZE + MIN_SPLIT
              then Word(base, p) == Pack(size, false)
                   && Word(base, p + HDR_SIZE + size) == Pack(blockSize - size - HDR_SIZE, true)
              else Word(base, p) == Pack(blockSize, false)
    {
      if blockSize >= size + HDR_SIZE + MIN_SPLIT {
        PutWord(p + HDR_SIZE + size, Pack(blockSize - size - HDR_SIZE, true));
        PutWord(p, Pack(size, false));
      } else {
        PutWord(p, Pack(blockSize, false));
      }
    }

    /** kfree of a pointer in use. It only writes the header of the block. */
    method Kfree(ptr: Ptr)
      requires Valid() && (ptr.Null? || Live(ptr))
      modifies this`blocks, base
      ensures Valid()
      ensures ptr.Null? ==> blocks == old(blocks) && (base != null ==> base[..] == old(base[..]))
      ensures ptr.At? ==> base != null && blocks == Give(old(blocks), ptr.offset - HDR_SIZE)
      ensures ptr.At? ==>
                var o, was := ptr.offset - HDR_SIZE, old(blocks);
                var next := ptr.offset + was[o].size;
                blocks == if next in was && was[next].free
                          then (was - {next})[o := Block(true, was[o].size + 4 + was[next].size)]
                          else was[o := Block(true, was[o].size)]
      ensures base != null ==> Framed(old(blocks), old(base[..]), base[..])
    {
      if ptr.Null? || base == null {
        return;
      }
      var h := ptr.offset - HDR_SIZE;
      GiveTiles(blocks, base.Length, h);
      Release(h);
      ghost var was := blocks;
      forall o: nat, k: nat | InPayload(was, o, k) ensures !(h <= k < h + HDR_SIZE) {
        if o != h { PayloadApart(was, base.Length, o, k, h); }
      }
      blocks := Give(was, h);
      forall o | o in blocks ensures Header(o) {
        if o != h {
          assert old(Header(o)) && Clear(was, o, h) && Clear(was, h, o);
        }
      }
    }

    /** kcalloc: kmalloc of the 32-bit product, and zeroes. The source leaves out the overflow check on purpose: the
        block holds the whole product if and only if that did not overflow. */
    method Kcalloc(nmemb: U32, size: U32) returns (r: Ptr)
      requires Valid() && nmemb * size % 0x1_0000_0000 <= 0xffff_fffc
      modifies this`blocks, base
      ensures Valid() && Zeroed(old(blocks), nmemb * size % 0x1_0000_0000, r)
      ensures r.At? ==> Live(r) && (nmemb * size <= blocks[r.offset - HDR_SIZE].size <==> nmemb * size < 0x1_0000_0000)
      ensures r.Null? ==> base != null ==> base[..] == old(base[..])
      ensures base != null ==> Framed(old(blocks), old(base[..]), base[..])
    {
      r := KcallocTotal(nmemb * size % 0x1_0000_0000);
      Product(nmemb, size);
    }

    /** The outcome of a zeroing request for total bytes in blocks b. */
    ghost predicate Zeroed(b: Blocks, total: nat, r: Ptr)
      requires total <= 0xffff_fffc
      reads this, base
    {
      && (r.Null? <==> total == 0 || forall o: nat :: !Fits(b, Align(total), o))
      && (r.Null? ==> blocks == b)
      && (r.At? ==>
            && HDR_SIZE <= r.offset && FirstFit(b, Align(total), r.offset - HDR_SIZE)
            && blocks == Take(b, r.offset - HDR_SIZE, Align(total))
            && base != null && Live(r) && r.offset + total <= End(blocks, r.offset - HDR_SIZE) <= base.Length
            && forall k :: r.offset <= k < r.offset + total ==> base[k] == 0)
    }

    method KcallocTotal(total: U32) returns (r: Ptr)
      requires Valid() && total <= 0xffff_fffc
      modifies this`blocks, base
      ensures Valid() && Zeroed(old(blocks), total, r)
      ensures r.Null? ==> base != null ==> base[..] == old(base[..])
      ensures base != null ==> Framed(old(blocks), old(base[..]), base[..])
    {
      r := Kmalloc(total);
      if r.At? {
        ghost var was, o := old(blocks), r.offset - HDR_SIZE;
        assert Header(o) && old(Header(o));
        forall o', k: nat | InPayload(was, o', k) ensures !(r.offset <= k < r.offset + total) {
          PayloadApart(was, base.Length, o', k, o);
        }
        Fill(r.offset, total, o);
      }
    }

    /** memset(p, 0, n) inside the payload of block o. */
    method Fill(p: nat, n: nat, ghost o: nat)
      requires Valid() && base != null && o in blocks && p == o + HDR_SIZE && p + n <= End(blocks, o)
      modifies base
      ensures Valid()
      ensures forall k :: p <= k < p + n && k < base.Length ==> base[k] == 0
      ensures forall k :: 0 <= k < base.Length && !(p <= k < p + n) ==> base[k] == old(base[k])
    {
      assert Header(o);
      for i := 0 to n
        invariant forall k :: p <= k < p + i ==> base[k] == 0
        invariant forall k :: 0 <= k < base.Length && !(p <= k < p + i) ==> base[k] == old(base[k])
      {
        base[p + i] := 0;
      }
      PayloadWritten(o);
    }

    /** krealloc. Nothing changes where the block is big enough already, or where no free block is; otherwise the
        bytes move to the first block that fits, and the old block is given back. */
    method Krealloc(ptr: Ptr, size: U32) returns (r: Ptr)
      requires Valid() && (ptr.Null? || Live(ptr))
      modifies this`blocks, base
      ensures Valid()
      ensures ptr.Null? ==> (r.Null? <==> size == 0 || forall o: nat :: !Fits(old(blocks), Align(size), o))
      ensures ptr.Null? && r.At? ==>
                HDR_SIZE <= r.offset && FirstFit(old(blocks), Align(size), r.offset - HDR_SIZE)
                && blocks == Take(old(blocks), r.offset - HDR_SIZE, Align(size))
      ensures ptr.At? && size == 0 ==> r.Null? && blocks == Give(old(blocks), ptr.offset - HDR_SIZE)
      ensures ptr.At? && size != 0 && Align(size) <= old(blocks)[ptr.offset - HDR_SIZE].size ==> r == ptr
      ensures r == ptr || (r.Null? && (ptr.Null? || size != 0)) ==>
                blocks == old(blocks) && (base != null ==> base[..] == old(base[..]))
      ensures ptr.At? && r != ptr && size != 0 ==> (r.Null? <==> forall o: nat :: !Fits(old(blocks), Align(size), o))
      ensures ptr.At? && r.At? && r != ptr ==> Moved(old(blocks), blocks, ptr.offset, r.offset, Align(size))
      ensures ptr.At? && r.At? && r != ptr ==>
                var n := old(blocks)[ptr.offset - HDR_SIZE].size;
                base != null && ptr.offset + n <= base.Length && r.offset + n <= base.Length
                && forall k :: r.offset <= k < r.offset + n ==> base[k] == old(base[k - r.offset + ptr.offset])
      ensures base != null ==> Framed(old(blocks), old(base[..]), base[..])
      ensures r.At? ==> Live(r) && (size <= 0xffff_fffc ==> blocks[r.offset - HDR_SIZE].size >= size)
    {
      if ptr.Null? {
        r := Kmalloc(size);
        return;
      }
      if size == 0 {
        Kfree(ptr);
        return Null;
      }
      assert Header(ptr.offset - HDR_SIZE);
      var oldSize := Word(base, ptr.offset - HDR_SIZE) % FREE_BIT;
      if Align(size) <= oldSize {
        return ptr;
      }
      r := Relocate(ptr, size, oldSize);
    }

    /** krealloc where the block is too small. */
    method Relocate(ptr: Ptr, size: U32, oldSize: nat) returns (r: Ptr)
      requires Valid() && base != null && Live(ptr) && size != 0
      requires oldSize == blocks[ptr.offset - HDR_SIZE].size < Align(size)
      modifies this`blocks, base
      ensures Valid()
      ensures r.Null? <==> forall o: nat :: !Fits(old(blocks), Align(size), o)
      ensures r.Null? ==> blocks == old(blocks) && base[..] == old(base[..])
      ensures r.At? ==> r != ptr && Moved(old(blocks), blocks, ptr.offset, r.offset, Align(size))
      ensures r.At? ==>
                && ptr.offset + oldSize <= base.Length && r.offset + oldSize <= base.Length
                && forall k :: r.offset <= k < r.offset + oldSize ==> base[k] == old(base[k - r.offset + ptr.offset])
      ensures Framed(old(blocks), old(base[..]), base[..])
      ensures r.At? ==> Live(r) && (size <= 0xffff_fffc ==> blocks[r.offset - HDR_SIZE].size >= size)
    {
      ghost var h := ptr.offset - HDR_SIZE;
      assert Header(h);
      r := Kmalloc(size);
      if r.Null? {
        return;
      }
      TakeKeeps(old(blocks), base.Length, r.offset - HDR_SIZE, Align(size));
      ghost var mid := base[..];
      forall k: nat | ptr.offset <= k < ptr.offset + oldSize ensures mid[k] == old(base[k]) {
        assert InPayload(old(blocks), h, k);
      }
      assert forall o: nat, k: nat :: InPayload(old(blocks), o, k) ==> InPayload(blocks, o, k);
      Move(ptr, r, oldSize);
      assert forall k :: r.offset <= k < r.offset + oldSize ==> base[k] == mid[k - r.offset + ptr.offset];
    }

    /** The end of krealloc: copy to the new block, give the old one back. */
    method Move(ptr: Ptr, r: Ptr, n: nat)
      requires Valid() && base != null && Live(ptr) && Live(r) && ptr != r
      requires n == blocks[ptr.offset - HDR_SIZE].size <= blocks[r.offset - HDR_SIZE].size
      modifies this`blocks, base
      ensures Valid() && blocks == Give(old(blocks), ptr.offset - HDR_SIZE)
      ensures ptr.offset + n <= base.Length && r.offset + n <= base.Length
      ensures forall k :: r.offset <= k < r.offset + n ==> base[k] == old(base[k - r.offset + ptr.offset])
      ensures forall o: nat, k: nat :: InPayload(old(blocks), o, k) && k < base.Length && o != r.offset - HDR_SIZE ==>
                base[k] == old(base[k])
    {
      ghost var q := r.offset - HDR_SIZE;
      forall o: nat, k: nat | InPayload(blocks, o, k) && o != q ensures !(r.offset <= k < End(blocks, q)) {
        PayloadApart(blocks, base.Length, o, k, q);
      }
      Copy(r.offset, ptr.offset, n);
      ghost var copied := base[..];
      assert forall k: nat :: r.offset <= k < r.offset + n ==> InPayload(blocks, q, k);
      Kfree(ptr);
      forall k: nat | r.offset <= k < r.offset + n ensures base[k] == copied[k] {
        assert InPayload(old(blocks), q, k);
      }
    }

    /** memcpy from the payload at s to the payload at d of two blocks in use. */
    method Copy(d: nat, s: nat, n: nat)
      requires Valid() && base != null && s != d && Live(At(s)) && Live(At(d))
      requires n == blocks[s - HDR_SIZE].size <= blocks[d - HDR_SIZE].size
      modifies base
      ensures Valid() && d + n <= base.Length && s + n <= base.Length
      ensures forall k :: d <= k < d + n ==> base[k] == old(base[k - d + s])
      ensures forall k :: 0 <= k < base.Length && !(d <= k < d + n) ==> base[k] == old(base[k])
    {
      assert Header(s - HDR_SIZE) && Header(d - HDR_SIZE);
      assert Clear(blocks, s - HDR_SIZE, d - HDR_SIZE) && Clear(blocks, d - HDR_SIZE, s - HDR_SIZE);
      for i := 0 to n
        invariant forall k :: d <= k < d + i ==> base[k] == old(base[k - d + s])
        invariant forall k :: 0 <= k < base.Length && !(d <= k < d + i) ==> base[k] == old(base[k])
      {
        base[d + i] := base[s + i];
      }
      PayloadWritten(d - HDR_SIZE);
    }

    /** Writing inside one payload leaves every header in place. */
    twostate lemma PayloadWritten(o: nat)
      requires old(Valid()) && base != null && base == old(base) && blocks == old(blocks) && o in blocks
      requires forall k :: 0 <= k < base.Length && !(o + HDR_SIZE <= k < End(blocks, o)) ==> base[k] == old(base[k])
      ensures Valid()
    {
      forall o' | o' in blocks ensures Header(o') {
        assert old(Header(o')) && Clear(blocks, o, o') && Clear(blocks, o', o);
      }
    }

    /** The header kfree writes: free, and over the next block too if that is free. */
    method Release(h: nat)
      requires Valid() && base != null && h in blocks
      modifies base
      ensures h in Give(blocks, h) && End(Give(blocks, h), h) <= base.Length
      ensures Word(base, h) == Pack(Give(blocks, h)[h].size, true) && Give(blocks, h)[h].free
      ensures forall k :: 0 <= k < base.Length && !(h <= k < h + HDR_SIZE) ==> base[k] == old(base[k])
    {
      assert Header(h) && Reaches(blocks, base.Length, h);
      var size := Word(base, h) % FREE_BIT;
      PutWord(h, Pack(size, true));
      var next := h + HDR_SIZE + size;
      if next < base.Length {
        assert old(Header(next));
        var w := Word(base, next);
        if w >= FREE_BIT {
          PutWord(h, Pack(size + HDR_SIZE + w % FREE_BIT, true));
        }
      } else {
        assert next in blocks ==> Reaches(blocks, base.Length, next);
      }
    }
  }

  /** krealloc has moved the block with payload at p to the first block for size bytes, with payload at q. */
  ghost predicate Moved(b: Blocks, b': Blocks, p: nat, q: nat, size: nat) {
    HDR_SIZE <= p && HDR_SIZE <= q && p != q && FirstFit(b, size, q - HDR_SIZE)
    && p - HDR_SIZE in Take(b, q - HDR_SIZE, size)
    && b' == Give(Take(b, q - HDR_SIZE, size), p - HDR_SIZE)
  }

  /** k is a payload byte of the block in use at o. */
  ghost predicate InPayload(b: Blocks, o: nat, k: nat) {
    o in b && !b[o].free && o + HDR_SIZE <= k < End(b, o)
  }

  /** The bytes of every block in use are as they were. */
  ghost predicate Framed(b: Blocks, m: seq<Byte>, m': seq<Byte>) {
    |m'| == |m| && forall o: nat, k: nat :: InPayload(b, o, k) && k < |m| ==> m'[k] == m[k]
  }

  /** No other block reaches over it. */
  lemma PayloadApart(b: Blocks, n: nat, o: nat, k: nat, p: nat)
    requires Tiles(b, n) && InPayload(b, o, k) && p in b && p != o
    ensures !(p <= k < End(b, p))
  {
    assert Clear(b, o, p) && Clear(b, p, o);
  }

  // ------------------------------------------------------------ the bytes over a run

  /** A call that takes or frees a block, or a write by whoever uses the block at `at`. */
  datatype Event = Allocator(call: Call) | Write(at: nat)

  /** What one event does to the blocks and the bytes of the heap: a call leaves every payload alone, as the contracts
      of the methods say, and a write every payload but its own. */
  ghost predicate Happens(b: Blocks, m: seq<Byte>, e: Event, b': Blocks, m': seq<Byte>) {
    match e
    case Allocator(call) => Allowed(b, call) && b' == Do(b, call) && Framed(b, m, m')
    case Write(at) =>
      b' == b && |m'| == |m| && forall o: nat, k: nat :: InPayload(b, o, k) && o != at && k < |m| ==> m'[k] == m[k]
  }

  ghost predicate AllHappen(bs: seq<Blocks>, ms: seq<seq<Byte>>, events: seq<Event>) {
    && |bs| == |ms| == |events| + 1
    && forall i {:trigger Happens(bs[i], ms[i], events[i], bs[i + 1], ms[i + 1])} :: 0 <= i < |events| ==>
         Happens(bs[i], ms[i], events[i], bs[i + 1], ms[i + 1])
  }

  /** A block in use that no event up to the n-th frees or writes to is still there, as large, and its bytes are as they
      were at the start. */
  lemma {:induction false} BytesStay(bs: seq<Blocks>, ms: seq<seq<Byte>>, events: seq<Event>, n: nat, o: nat)
    requires AllHappen(bs, ms, events) && n <= |events|
    requires Tiles(bs[0], |ms[0]|) && o in bs[0] && !bs[0][o].free
    requires Allocator(Free(o)) !in events[..n] && Write(o) !in events[..n]
    ensures Tiles(bs[n], |ms[n]|) && |ms[n]| == |ms[0]| && o in bs[n] && bs[n][o] == bs[0][o]
    ensures forall k: nat :: InPayload(bs[0], o, k) && k < |ms[0]| ==> ms[n][k] == ms[0][k]
    decreases n
  {
    if n > 0 {
      var i := n - 1;
      assert events[..i] == events[..n][..i];
      BytesStay(bs, ms, events, i, o);
      assert Happens(bs[i], ms[i], events[i], bs[i + 1], ms[i + 1]);
      assert events[i] in events[..n];
      if events[i].Allocator? {
        OneCall(bs[i], |ms[i]|, events[i].call);
      }
      assert forall k: nat :: InPayload(bs[0], o, k) <==> InPayload(bs[i], o, k);
    }
  }
}
