/** Iterated steps over any word type with a sum: what the CRC needs of its register arithmetic. */
module LinearSteps {

  function Iterate<W>(f: W -> W, n: nat, c: W): W {
    if n == 0 then c else f(Iterate(f, n - 1, c))
  }

  lemma {:induction false} IterateAdd<W>(f: W -> W, m: nat, n: nat, x: W)
    ensures Iterate(f, m + n, x) == Iterate(f, m, Iterate(f, n, x))
  {
    if m > 0 {
      IterateAdd(f, m - 1, n, x);
    }
  }

  lemma Chain8<W>(f: W -> W, w0: W, w1: W, w2: W, w3: W, w4: W, w5: W, w6: W, w7: W, w8: W)
    requires f(w0) == w1 && f(w1) == w2 && f(w2) == w3 && f(w3) == w4
    requires f(w4) == w5 && f(w5) == w6 && f(w6) == w7 && f(w7) == w8
    ensures Iterate(f, 8, w0) == w8
  {
    assert Iterate(f, 1, w0) == w1;
    assert Iterate(f, 2, w0) == w2;
    assert Iterate(f, 3, w0) == w3;
    assert Iterate(f, 4, w0) == w4;
    assert Iterate(f, 5, w0) == w5;
    assert Iterate(f, 6, w0) == w6;
    assert Iterate(f, 7, w0) == w7;
  }

  /** Folding the bytes of a message into the register. */
  function Fold<W, B>(absorb: (W, B) -> W, c: W, msg: seq<B>): W {
    if msg == [] then c else absorb(Fold(absorb, c, msg[..|msg| - 1]), msg[|msg| - 1])
  }

  lemma {:induction false} FoldConcat<W, B>(absorb: (W, B) -> W, c: W, a: seq<B>, b: seq<B>)
    ensures Fold(absorb, c, a + b) == Fold(absorb, Fold(absorb, c, a), b)
    decreases |b|
  {
    if b == [] {
      assert a + b == a;
    } else {
      assert (a + b)[..|a + b| - 1] == a + b[..|b| - 1];
      FoldConcat(absorb, c, a, b[..|b| - 1]);
    }
  }

  lemma {:induction false} FoldInjective<W(!new), B(!new)>(absorb: (W, B) -> W, c1: W, c2: W, msg: seq<B>)
    requires forall x, y, b {:trigger absorb(x, b), absorb(y, b)} :: absorb(x, b) == absorb(y, b) ==> x == y
    requires Fold(absorb, c1, msg) == Fold(absorb, c2, msg)
    ensures c1 == c2
    decreases |msg|
  {
    if msg != [] {
      FoldInjective(absorb, c1, c2, msg[..|msg| - 1]);
    }
  }
}

/** tools/sender/crc32.c: the table-driven reflected CRC-32 (section 8 of RFC 1952). */
module Crc32 {
  import opened LinearSteps

  const POLY: bv32 := 0xEDB88320
  const ONES: bv32 := 0xFFFFFFFF

  type Byte = bv8

  /** One bit of the division. */
  function BitStep(c: bv32): bv32 {
    if c & 1 == 1 then POLY ^ (c >> 1) else c >> 1
  }

  function Xor(x: bv32, y: bv32): bv32 {
    x ^ y
  }

  /** n bits of the division. */
  function Bits(n: nat, c: bv32): bv32 {
    Iterate(BitStep, n, c)
  }

  /** The register after a byte: eight bit steps, without a table. */
  function Absorb(crc: bv32, b: Byte): bv32 {
    Bits(8, Xor(crc, b as bv32))
  }

  /** The register after a message. */
  function Update(crc: bv32, msg: seq<Byte>): bv32 {
    Fold(Absorb, crc, msg)
  }

  function Crc(msg: seq<Byte>): bv32 {
    Update(ONES, msg) ^ ONES
  }

  // ------------------------------------------------------------ the bit step is linear and loses nothing

  lemma ShiftXor(x: bv32, y: bv32)
    ensures (x ^ y) >> 1 == (x >> 1) ^ (y >> 1)
  {
  }

  lemma LowBitXor(x: bv32, y: bv32)
    ensures (x & 1 == 1) != (x & 1 == 0)
    ensures (x ^ y) & 1 == 1 <==> (x & 1 == 1) != (y & 1 == 1)
  {
  }

  lemma XorLaws(p: bv32, x: bv32, y: bv32)
    ensures (p ^ x) ^ (p ^ y) == x ^ y
    ensures (p ^ x) ^ y == p ^ (x ^ y)
  {
  }

  lemma BothOdd(x: bv32, y: bv32)
    requires x & 1 == 1 && y & 1 == 1
    ensures BitStep(Xor(x, y)) == Xor(BitStep(x), BitStep(y))
  {
    LowBitXor(x, y);
    ShiftXor(x, y);
    XorLaws(POLY, x >> 1, y >> 1);
  }

  lemma FirstOdd(x: bv32, y: bv32)
    requires x & 1 == 1 && y & 1 != 1
    ensures BitStep(Xor(x, y)) == Xor(BitStep(x), BitStep(y))
  {
    LowBitXor(x, y);
    ShiftXor(x, y);
    XorLaws(POLY, x >> 1, y >> 1);
  }

  lemma NoneOdd(x: bv32, y: bv32)
    requires x & 1 != 1 && y & 1 != 1
    ensures BitStep(Xor(x, y)) == Xor(BitStep(x), BitStep(y))
  {
    LowBitXor(x, y);
    ShiftXor(x, y);
  }

  lemma XorCommutes(x: bv32, y: bv32)
    ensures Xor(x, y) == Xor(y, x)
  {
  }

  lemma BitStepLinear(x: bv32, y: bv32)
    ensures BitStep(Xor(x, y)) == Xor(BitStep(x), BitStep(y))
  {
    if x & 1 == 1 {
      if y & 1 == 1 {
        BothOdd(x, y);
      } else {
        FirstOdd(x, y);
      }
    } else {
      if y & 1 == 1 {
        FirstOdd(y, x);
        XorCommutes(x, y);
        XorCommutes(BitStep(x), BitStep(y));
      } else {
        NoneOdd(x, y);
      }
    }
  }

  lemma BitStepInjective(x: bv32, y: bv32)
    requires BitStep(x) == BitStep(y)
    ensures x == y
  {
  }

  lemma {:induction false} BitsLinear(n: nat, x: bv32, y: bv32)
    ensures Bits(n, Xor(x, y)) == Xor(Bits(n, x), Bits(n, y))
  {
    if n > 0 {
      BitsLinear(n - 1, x, y);
      BitStepLinear(Bits(n - 1, x), Bits(n - 1, y));
    }
  }

  lemma {:induction false} BitsInjective(n: nat, x: bv32, y: bv32)
    requires Bits(n, x) == Bits(n, y)
    ensures x == y
  {
    if n > 0 {
      BitStepInjective(Bits(n - 1, x), Bits(n - 1, y));
      BitsInjective(n - 1, x, y);
    }
  }

  // ------------------------------------------------------------ zero low bits are shifted out without a trace

  lemma ZeroStep(v: bv32)
    requires v & 1 == 0
    ensures BitStep(v) == v >> 1
  {
  }

  lemma ZeroBits(w: bv32)
    requires w & 0xFF == 0
    ensures w & 1 == 0 && (w >> 1) & 1 == 0 && (w >> 2) & 1 == 0 && (w >> 3) & 1 == 0
    ensures (w >> 4) & 1 == 0 && (w >> 5) & 1 == 0 && (w >> 6) & 1 == 0 && (w >> 7) & 1 == 0
    ensures (w >> 1) >> 1 == w >> 2 && (w >> 2) >> 1 == w >> 3 && (w >> 3) >> 1 == w >> 4 && (w >> 4) >> 1 == w >> 5
    ensures (w >> 5) >> 1 == w >> 6 && (w >> 6) >> 1 == w >> 7 && (w >> 7) >> 1 == w >> 8
  {
  }

  ghost predicate ShiftsAt(f: bv32 -> bv32, v: bv32) {
    v & 1 == 0 ==> f(v) == v >> 1
  }

  lemma EightShifts(f: bv32 -> bv32, w: bv32)
    requires forall v {:trigger ShiftsAt(f, v)} :: ShiftsAt(f, v)
    requires w & 0xFF == 0
    ensures Iterate(f, 8, w) == w >> 8
  {
    ZeroBits(w);
    assert ShiftsAt(f, w) && ShiftsAt(f, w >> 1) && ShiftsAt(f, w >> 2) && ShiftsAt(f, w >> 3);
    assert ShiftsAt(f, w >> 4) && ShiftsAt(f, w >> 5) && ShiftsAt(f, w >> 6) && ShiftsAt(f, w >> 7);
    Chain8(f, w, w >> 1, w >> 2, w >> 3, w >> 4, w >> 5, w >> 6, w >> 7, w >> 8);
  }

  lemma EightZeros(w: bv32)
    requires w & 0xFF == 0
    ensures Bits(8, w) == w >> 8
  {
    forall v ensures ShiftsAt(BitStep, v) {
      if v & 1 == 0 {
        ZeroStep(v);
      }
    }
    EightShifts(BitStep, w);
  }

  lemma SplitLow(c: bv32)
    ensures Xor(c & 0xFF, c & 0xFFFFFF00) == c
    ensures (c & 0xFFFFFF00) & 0xFF == 0 && (c & 0xFFFFFF00) >> 8 == c >> 8
  {
  }

  /** One table step is eight bit steps. */
  lemma TableStep(c: bv32)
    ensures Bits(8, c) == Xor(Bits(8, c & 0xFF), c >> 8)
  {
    SplitLow(c);
    BitsLinear(8, c & 0xFF, c & 0xFFFFFF00);
    EightZeros(c & 0xFFFFFF00);
  }

  // ------------------------------------------------------------ messages

  lemma XorCancel(x: bv32, y: bv32, b: bv32)
    ensures Xor(x, b) == Xor(y, b) ==> x == y
    ensures Xor(b, x) == Xor(b, y) ==> x == y
  {
  }

  lemma AbsorbInjective(x: bv32, y: bv32, b: Byte)
    requires Absorb(x, b) == Absorb(y, b)
    ensures x == y
  {
    BitsInjective(8, Xor(x, b as bv32), Xor(y, b as bv32));
    XorCancel(x, y, b as bv32);
  }

  /** Updating in chunks is updating with the whole. */
  lemma UpdateConcat(crc: bv32, a: seq<Byte>, b: seq<Byte>)
    ensures Update(crc, a + b) == Update(Update(crc, a), b)
  {
    FoldConcat(Absorb, crc, a, b);
  }

  /** The register keeps apart what was apart. */
  lemma UpdateInjective(c1: bv32, c2: bv32, msg: seq<Byte>)
    requires Update(c1, msg) == Update(c2, msg)
    ensures c1 == c2
  {
    forall x: bv32, y: bv32, b: Byte | Absorb(x, b) == Absorb(y, b) ensures x == y {
      AbsorbInjective(x, y, b);
    }
    FoldInjective(Absorb, c1, c2, msg);
  }

  lemma XorZero(c: bv32)
    ensures Xor(c, 0) == c && Xor(0, c) == c
  {
  }

  lemma XorAssoc(x: bv32, y: bv32, z: bv32)
    ensures Xor(Xor(x, y), z) == Xor(x, Xor(y, z))
  {
  }

  lemma FinalXor(x: bv32, y: bv32)
    ensures x ^ ONES == y ^ ONES ==> x == y
  {
  }

  // ------------------------------------------------------------ the program

  class Calculator {
    const table: array<bv32>

    /** The table holds eight bit steps of every byte. */
    ghost predicate Ready()
      reads table
    {
      table.Length == 256 && forall i {:trigger Entry(i)} :: 0 <= i < 256 ==> Entry(i)
    }

    ghost predicate Entry(i: int)
      requires 0 <= i < table.Length == 256
      reads table
    {
      table[i] == Bits(8, i as bv32)
    }

    constructor ()
      ensures table.Length == 256 && fresh(table)
    {
      table := new bv32[256](_ => 0);
    }

    /** crc32_init */
    method Init()
      requires table.Length == 256
      modifies table
      ensures Ready()
    {
      for i := 0 to 256
        invariant forall j {:trigger Entry(j)} :: 0 <= j < i ==> Entry(j)
      {
        var c := EightSteps(i as bv32);
        SetEntry(i, c);
      }
    }

    method SetEntry(i: nat, c: bv32)
      requires i < 256 == table.Length && c == Bits(8, i as bv32)
      requires forall j {:trigger Entry(j)} :: 0 <= j < i ==> Entry(j)
      modifies table
      ensures forall j {:trigger Entry(j)} :: 0 <= j < i + 1 ==> Entry(j)
    {
      table[i] := c;
      forall j | 0 <= j < i ensures Entry(j) {
        assert old(Entry(j));
      }
    }

    method EightSteps(i: bv32) returns (c: bv32)
      ensures c == Bits(8, i)
    {
      c := i;
      for k := 0 to 8
        invariant c == Bits(k, i)
      {
        c := BitStep(c);
      }
    }

    /** The body of the loops: one byte through the table. */
    method Lookup(crc: bv32, b: Byte) returns (r: bv32)
      requires Ready()
      ensures r == Absorb(crc, b)
    {
      var x := Xor(crc, b as bv32);
      TableStep(x);
      HighBytes(crc, b);
      var v := x & 0xFF;
      MaskSmall(x);
      AsIndex(v);
      assert Entry(v as int);
      r := Xor(table[v as int], crc >> 8);
    }

    /** crc32_update */
    method UpdateBuffer(crc0: bv32, buffer: seq<Byte>) returns (crc: bv32)
      requires Ready()
      ensures crc == Update(crc0, buffer)
    {
      crc := crc0;
      for i := 0 to |buffer|
        invariant crc == Update(crc0, buffer[..i])
      {
        crc := Lookup(crc, buffer[i]);
        assert buffer[..i + 1][..i] == buffer[..i];
      }
      assert buffer[..|buffer|] == buffer;
    }

    /** crc32_calculate */
    method Calculate(buffer: seq<Byte>) returns (crc: bv32)
      requires Ready()
      ensures crc == Crc(buffer)
    {
      crc := UpdateBuffer(ONES, buffer);
      crc := crc ^ ONES;
    }

    /** The read loop of crc32_from_file, on the chunks that fread hands out: the CRC of the whole file. */
    method FromChunks(chunks: seq<seq<Byte>>) returns (crc: bv32)
      requires Ready() && forall k :: 0 <= k < |chunks| ==> 0 < |chunks[k]| <= 4096
      ensures crc == Crc(Flatten(chunks))
    {
      crc := ONES;
      for k := 0 to |chunks|
        invariant crc == Update(ONES, Flatten(chunks[..k]))
      {
        crc := UpdateBuffer(crc, chunks[k]);
        assert chunks[..k + 1][..k] == chunks[..k];
        UpdateConcat(ONES, Flatten(chunks[..k]), chunks[k]);
      }
      assert chunks[..|chunks|] == chunks;
      crc := crc ^ ONES;
    }
  }

  lemma HighBytes(crc: bv32, b: Byte)
    ensures Xor(crc, b as bv32) >> 8 == crc >> 8
  {
  }

  lemma MaskSmall(x: bv32)
    ensures x & 0xFF <= 0xFF
  {
  }

  lemma AsIndex(v: bv32)
    requires v <= 0xFF
    ensures v as int < 256 && (v as int) as bv32 == v
  {
  }

  function Flatten(chunks: seq<seq<Byte>>): seq<Byte> {
    if chunks == [] then [] else Flatten(chunks[..|chunks| - 1]) + chunks[|chunks| - 1]
  }
}
