/** peripheral/pico2VGA/vga.c: dma_memcpy and the text scroll built on it. The memory is one array and indices are
    addresses, so that alignment is index mod 4. A DMA transfer is the in-order copy of its units, done before
    anything else happens. */
module DmaCopy {
  import opened Values

  type Memory = seq<Byte>

  const DMA_MIN_XFER: nat := 16
  const VBUFFER_SIZE: nat := 153600
  const BYTES_PER_ROW: nat := 5120

  /** Both regions lie inside the memory. */
  predicate InMemory(size: nat, d: nat, s: nat, n: nat) {
    d + n <= size && s + n <= size
  }

  /** memmove: the region as it was. */
  function Moved(m: Memory, d: nat, s: nat, n: nat): (r: Memory)
    requires InMemory(|m|, d, s, n)
    ensures |r| == |m|
  {
    m[..d] + m[s..s + n] + m[d + n..]
  }

  /** Byte after byte, each read only when its turn comes. */
  function Forward(m: Memory, d: nat, s: nat, n: nat): (r: Memory)
    requires InMemory(|m|, d, s, n)
    ensures |r| == |m|
  {
    if n == 0 then m else var r := Forward(m, d, s, n - 1); r[d + n - 1 := r[s + n - 1]]
  }

  lemma {:induction false} ForwardOutside(m: Memory, d: nat, s: nat, n: nat, k: nat)
    requires InMemory(|m|, d, s, n) && k < |m| && !(d <= k < d + n)
    ensures Forward(m, d, s, n)[k] == m[k]
  {
    if n > 0 {
      ForwardOutside(m, d, s, n - 1, k);
    }
  }

  /** A later part of the copy does not touch what an earlier part has written. */
  lemma {:induction false} ForwardAt(m: Memory, d: nat, s: nat, n: nat, k: nat)
    requires InMemory(|m|, d, s, n) && k < n
    ensures Forward(m, d, s, n)[d + k] == Forward(m, d, s, k)[s + k]
  {
    if k < n - 1 {
      ForwardAt(m, d, s, n - 1, k);
    }
  }

  lemma MovedAt(m: Memory, d: nat, s: nat, n: nat, k: nat)
    requires InMemory(|m|, d, s, n) && k < |m|
    ensures Moved(m, d, s, n)[k] == if d <= k < d + n then m[s + (k - d)] else m[k]
  {
    if d <= k < d + n {
      assert Moved(m, d, s, n)[k] == m[s..s + n][k - d];
    } else if d + n <= k {
      assert Moved(m, d, s, n)[k] == m[d + n..][k - (d + n)];
    }
  }

  lemma {:induction false} ForwardValue(m: Memory, d: nat, s: nat, n: nat, k: nat)
    requires InMemory(|m|, d, s, n) && (d <= s || s + n <= d) && k < |m|
    ensures Forward(m, d, s, n)[k] == if d <= k < d + n then m[s + (k - d)] else m[k]
  {
    if n > 0 {
      if k == d + n - 1 {
        ForwardOutside(m, d, s, n - 1, s + n - 1);
      } else {
        ForwardValue(m, d, s, n - 1, k);
      }
    }
  }

  /** Where the destination is not above the source, or the regions are apart, the in-order copy is memmove. */
  lemma ForwardIsMoved(m: Memory, d: nat, s: nat, n: nat)
    requires InMemory(|m|, d, s, n) && (d <= s || s + n <= d)
    ensures Forward(m, d, s, n) == Moved(m, d, s, n)
  {
    forall k | 0 <= k < |m| ensures Forward(m, d, s, n)[k] == Moved(m, d, s, n)[k] {
      ForwardValue(m, d, s, n, k);
      MovedAt(m, d, s, n, k);
    }
  }

  /** And in no other case: then some memory tells them apart. */
  lemma ForwardExactly(size: nat, d: nat, s: nat, n: nat)
    requires InMemory(size, d, s, n)
    ensures (forall m: Memory :: |m| == size ==> Forward(m, d, s, n) == Moved(m, d, s, n)) <==> d <= s || s + n <= d
  {
    if d <= s || s + n <= d {
      forall m: Memory | |m| == size ensures Forward(m, d, s, n) == Moved(m, d, s, n) {
        ForwardIsMoved(m, d, s, n);
      }
    } else {
      var m: Memory := seq(size, i => if i == s then 1 else 0);
      ForwardAt(m, d, s, n, d - s);
      ForwardAt(m, d, s, d - s, 0);
      assert Moved(m, d, s, n)[d + (d - s)] == m[d] == 0;
      assert Forward(m, d, s, n) != Moved(m, d, s, n);
    }
  }

  lemma {:induction false} ForwardAdd(m: Memory, d: nat, s: nat, n1: nat, n2: nat)
    requires InMemory(|m|, d, s, n1 + n2)
    ensures Forward(m, d, s, n1 + n2) == Forward(Forward(m, d, s, n1), d + n1, s + n1, n2)
    decreases n2
  {
    if n2 > 0 {
      ForwardAdd(m, d, s, n1, n2 - 1);
    }
  }

  /** One 32-bit unit: four bytes read, then four written. */
  function OneWord(m: Memory, d: nat, s: nat): (r: Memory)
    requires InMemory(|m|, d, s, 4)
    ensures |r| == |m|
  {
    m[d := m[s]][d + 1 := m[s + 1]][d + 2 := m[s + 2]][d + 3 := m[s + 3]]
  }

  /** Four bytes at a time are memmove of four bytes wherever the two words do not half overlap. */
  lemma OneWordAt(m: Memory, d: nat, s: nat, k: nat)
    requires InMemory(|m|, d, s, 4) && (d == s || d + 4 <= s || s + 4 <= d) && k < |m|
    ensures OneWord(m, d, s)[k] == Moved(m, d, s, 4)[k]
  {
    MovedAt(m, d, s, 4, k);
  }

  lemma OneWordIsMoved(m: Memory, d: nat, s: nat)
    requires InMemory(|m|, d, s, 4) && (d == s || d + 4 <= s || s + 4 <= d)
    ensures OneWord(m, d, s) == Moved(m, d, s, 4)
  {
    forall k | 0 <= k < |m| ensures OneWord(m, d, s)[k] == Moved(m, d, s, 4)[k] {
      OneWordAt(m, d, s, k);
    }
  }

  lemma Apart(d: nat, s: nat)
    requires d % 4 == s % 4
    ensures d == s || d + 4 <= s || s + 4 <= d
  {
    assert d - s == 4 * (d / 4 - s / 4);
  }

  /** With source and destination equally aligned a word is as good as its bytes one by one. */
  lemma OneWordIsForward(m: Memory, d: nat, s: nat)
    requires InMemory(|m|, d, s, 4) && d % 4 == s % 4
    ensures OneWord(m, d, s) == Forward(m, d, s, 4)
  {
    Apart(d, s);
    ForwardIsMoved(m, d, s, 4);
    OneWordIsMoved(m, d, s);
  }

  // ------------------------------------------------------------ the program

  /** A byte-mode transfer, and the CPU copy loops: *d++ = *s++. */
  method CopyBytes(mem: array<Byte>, d: nat, s: nat, n: nat)
    requires InMemory(mem.Length, d, s, n)
    modifies mem
    ensures mem[..] == Forward(old(mem[..]), d, s, n)
  {
    for i := 0 to n
      invariant mem[..] == Forward(old(mem[..]), d, s, i)
    {
      mem[d + i] := mem[s + i];
    }
  }

  /** A word-mode transfer. */
  method CopyWords(mem: array<Byte>, d: nat, s: nat, words: nat)
    requires InMemory(mem.Length, d, s, 4 * words) && d % 4 == s % 4 == 0
    modifies mem
    ensures mem[..] == Forward(old(mem[..]), d, s, 4 * words)
  {
    for i := 0 to words
      invariant mem[..] == Forward(old(mem[..]), d, s, 4 * i)
    {
      var n := 4 * i;
      AlignedAlike(d, s, n);
      CopyWord(mem, d + n, s + n);
      ForwardAdd(old(mem[..]), d, s, n, 4);
    }
  }

  method CopyWord(mem: array<Byte>, d: nat, s: nat)
    requires InMemory(mem.Length, d, s, 4) && d % 4 == s % 4
    modifies mem
    ensures mem[..] == Forward(old(mem[..]), d, s, 4)
  {
    OneWordIsForward(mem[..], d, s);
    var w0, w1, w2, w3 := mem[s], mem[s + 1], mem[s + 2], mem[s + 3];
    mem[d], mem[d + 1], mem[d + 2], mem[d + 3] := w0, w1, w2, w3;
    assert mem[..] == OneWord(old(mem[..]), d, s);
  }

  method Memmove(mem: array<Byte>, d: nat, s: nat, n: nat)
    requires InMemory(mem.Length, d, s, n)
    modifies mem
    ensures mem[..] == Moved(old(mem[..]), d, s, n)
  {
    ghost var m := mem[..];
    var copy := mem[s..s + n];
    for i := 0 to n
      invariant forall k :: d <= k < d + i ==> mem[k] == m[s + (k - d)]
      invariant forall k :: 0 <= k < mem.Length && !(d <= k < d + i) ==> mem[k] == m[k]
    {
      mem[d + i] := copy[i];
    }
    forall k | 0 <= k < mem.Length ensures mem[k] == Moved(m, d, s, n)[k] {
      MovedAt(m, d, s, n, k);
    }
  }

  /** dma_memcpy: a short copy is memmove; a long one is the in-order copy whichever way it is made. */
  method DmaMemcpy(mem: array<Byte>, dest: nat, src: nat, num0: nat, block: bool)
    requires InMemory(mem.Length, dest, src, num0)
    modifies mem
    ensures mem[..] == if num0 < DMA_MIN_XFER then Moved(old(mem[..]), dest, src, num0)
                       else Forward(old(mem[..]), dest, src, num0)
    ensures num0 < DMA_MIN_XFER || dest <= src || src + num0 <= dest ==>
              mem[..] == Moved(old(mem[..]), dest, src, num0)
  {
    if dest <= src || src + num0 <= dest {
      ForwardIsMoved(mem[..], dest, src, num0);
    }
    if num0 == 0 {
      return;
    }
    if num0 < DMA_MIN_XFER {
      Memmove(mem, dest, src, num0);
      return;
    }
    LongCopy(mem, dest, src, num0, block);
  }

  /** Past the short copy: bytes where the alignments differ, else a head of bytes and then the bulk. */
  method LongCopy(mem: array<Byte>, dest: nat, src: nat, num0: nat, block: bool)
    requires InMemory(mem.Length, dest, src, num0) && DMA_MIN_XFER <= num0
    modifies mem
    ensures mem[..] == Forward(old(mem[..]), dest, src, num0)
  {
    if dest % 4 != src % 4 {
      CopyBytes(mem, dest, src, num0);
      return;
    }
    var num := Head(mem, dest, src, num0);
    ForwardAdd(old(mem[..]), dest, src, num0 - num, num);
    Bulk(mem, dest + (num0 - num), src + (num0 - num), num, block);
  }

  lemma AlignedAlike(d: nat, s: nat, k: nat)
    requires d % 4 == s % 4
    ensures (d + k) % 4 == (s + k) % 4
  {
    var q := d / 4 - s / 4;
    assert d + k == (s + k) + 4 * q;
    AddFours(s + k, q);
  }

  lemma AddFours(x: int, q: int)
    ensures (x + 4 * q) % 4 == x % 4
  {
  }

  /** The CPU copies up to three bytes until both addresses are aligned; num bytes remain. */
  method Head(mem: array<Byte>, dest: nat, src: nat, num0: nat) returns (num: nat)
    requires InMemory(mem.Length, dest, src, num0) && DMA_MIN_XFER <= num0 && dest % 4 == src % 4
    modifies mem
    ensures num <= num0 && (dest + (num0 - num)) % 4 == 0 && (src + (num0 - num)) % 4 == 0
    ensures mem[..] == Forward(old(mem[..]), dest, src, num0 - num)
  {
    num := num0;
    while num > 0 && (dest + (num0 - num)) % 4 != 0
      invariant num0 - num <= (4 - dest % 4) % 4 && num <= num0
      invariant mem[..] == Forward(old(mem[..]), dest, src, num0 - num)
    {
      mem[dest + (num0 - num)] := mem[src + (num0 - num)];
      num := num - 1;
    }
    AlignedAlike(dest, src, num0 - num);
  }

  /** What remains between aligned addresses: words and a tail, or one byte transfer. */
  method Bulk(mem: array<Byte>, d: nat, s: nat, num: nat, block: bool)
    requires InMemory(mem.Length, d, s, num) && d % 4 == 0 && s % 4 == 0
    modifies mem
    ensures mem[..] == Forward(old(mem[..]), d, s, num)
  {
    var words, tail := num / 4, num % 4;
    if block {
      ForwardAdd(old(mem[..]), d, s, 4 * words, tail);
      CopyWords(mem, d, s, words);
      CopyBytes(mem, d + 4 * words, s + 4 * words, tail);
    } else if tail == 0 {
      CopyWords(mem, d, s, words);
    } else {
      CopyBytes(mem, d, s, num);
    }
  }

  /** scroll_up_graphics, wherever the frame buffer lies: every text row moves up by one, the last is cleared, and
      nothing outside the frame changes. */
  method ScrollUpGraphics(mem: array<Byte>, fb: nat)
    requires fb + VBUFFER_SIZE <= mem.Length
    modifies mem
    ensures mem[fb..fb + VBUFFER_SIZE] == old(mem[fb + BYTES_PER_ROW..fb + VBUFFER_SIZE]) + seq(BYTES_PER_ROW, _ => 0)
    ensures mem[..fb] == old(mem[..fb]) && mem[fb + VBUFFER_SIZE..] == old(mem[fb + VBUFFER_SIZE..])
  {
    var n := VBUFFER_SIZE - BYTES_PER_ROW;
    DmaMemcpy(mem, fb, fb + BYTES_PER_ROW, n, true);
    Clear(mem, fb + n, BYTES_PER_ROW);
  }

  /** memset to zero. */
  method Clear(mem: array<Byte>, d: nat, n: nat)
    requires d + n <= mem.Length
    modifies mem
    ensures mem[..] == old(mem[..d]) + seq(n, _ => 0) + old(mem[d + n..])
  {
    for i := 0 to n
      invariant mem[..] == old(mem[..d]) + seq(i, _ => 0) + old(mem[d + i..])
    {
      mem[d + i] := 0;
    }
  }
}
