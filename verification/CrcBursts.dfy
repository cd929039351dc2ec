/** What the CRC of tools/sender/crc32.c detects bit by bit: the register reads a message low bit first, and two
    messages that differ only within 32 consecutive bits, wherever these start, have different CRCs. */
module CrcBursts {
  import opened LinearSteps
  import opened Crc32

  function BitWord(b: bool): bv32 {
    if b then 1 else 0
  }

  /** The register after one bit. */
  function AbsorbBit(c: bv32, b: bool): bv32 {
    BitStep(Xor(c, BitWord(b)))
  }

  function ReadBits(c: bv32, bits: seq<bool>): bv32 {
    Fold(AbsorbBit, c, bits)
  }

  /** The n lowest bits of v, the lowest first. */
  function LowBits(v: bv32, n: nat): (r: seq<bool>)
    ensures |r| == n
  {
    if n == 0 then [] else [v & 1 == 1] + LowBits(v >> 1, n - 1)
  }

  /** The bits of a message in the order in which the register takes them. */
  function MessageBits(msg: seq<Byte>): (r: seq<bool>)
    ensures |r| == 8 * |msg|
  {
    if msg == [] then [] else LowBits(msg[0] as bv32, 8) + MessageBits(msg[1..])
  }

  // ------------------------------------------------------------ a byte is its eight bits

  function Half(v: bv32): bv32 {
    v >> 1
  }

  /** v shifted down n places. */
  function Shr(v: bv32, n: nat): bv32 {
    Iterate(Half, n, v)
  }

  lemma LowAndRest(v: bv32)
    ensures Xor(v & 1, v & 0xFFFF_FFFE) == v
    ensures (v & 0xFFFF_FFFE) & 1 == 0 && (v & 0xFFFF_FFFE) >> 1 == v >> 1
    ensures BitWord(v & 1 == 1) == v & 1
  {
  }

  lemma Regroup(c: bv32, x: bv32, y: bv32)
    ensures Xor(c, Xor(x, y)) == Xor(Xor(c, x), y)
  {
    XorAssoc(c, x, y);
  }

  /** One step on a sum takes the lowest bit of v and leaves the others one place down. */
  lemma StepSplit(c: bv32, v: bv32)
    ensures BitStep(Xor(c, v)) == Xor(AbsorbBit(c, v & 1 == 1), v >> 1)
  {
    var low, rest := v & 1, v & 0xFFFF_FFFE;
    LowAndRest(v);
    Regroup(c, low, rest);
    BitStepLinear(Xor(c, low), rest);
    ZeroStep(rest);
  }

  lemma {:induction false} WordBits(c: bv32, v: bv32, n: nat)
    ensures Bits(n, Xor(c, v)) == Xor(ReadBits(c, LowBits(v, n)), Shr(v, n))
    decreases n
  {
    if n > 0 {
      var next := AbsorbBit(c, v & 1 == 1);
      StepSplit(c, v);
      StepFirst(BitStep, n, Xor(c, v));
      StepFirst(Half, n, v);
      WordBits(next, v >> 1, n - 1);
      ReadFirst(c, v & 1 == 1, LowBits(v >> 1, n - 1));
    }
  }

  lemma StepFirst<W>(f: W -> W, n: nat, x: W)
    requires n > 0
    ensures Iterate(f, n, x) == Iterate(f, n - 1, f(x))
  {
    IterateAdd(f, n - 1, 1, x);
    assert Iterate(f, 1, x) == f(Iterate(f, 0, x)) == f(x);
  }

  lemma ReadFirst(c: bv32, b: bool, bits: seq<bool>)
    ensures ReadBits(c, [b] + bits) == ReadBits(AbsorbBit(c, b), bits)
  {
    FoldFirst(AbsorbBit, c, b, bits);
  }

  lemma FoldFirst<W, B>(absorb: (W, B) -> W, c: W, b: B, rest: seq<B>)
    ensures Fold(absorb, c, [b] + rest) == Fold(absorb, absorb(c, b), rest)
  {
    FoldConcat(absorb, c, [b], rest);
    assert [b][..0] == [];
  }

  lemma NothingAbove(b: Byte)
    ensures Shr(b as bv32, 8) == 0
  {
    EightDown(b as bv32);
    ByteEnds(b);
  }

  lemma ByteEnds(b: Byte)
    ensures b as bv32 >> 8 == 0
  {
  }

  lemma EightDown(v: bv32)
    ensures Shr(v, 8) == v >> 8
  {
    ShiftsAdd(v);
    Chain8(Half, v, v >> 1, v >> 2, v >> 3, v >> 4, v >> 5, v >> 6, v >> 7, v >> 8);
  }

  lemma ShiftsAdd(v: bv32)
    ensures Half(v) == v >> 1 && Half(v >> 1) == v >> 2 && Half(v >> 2) == v >> 3 && Half(v >> 3) == v >> 4
    ensures Half(v >> 4) == v >> 5 && Half(v >> 5) == v >> 6 && Half(v >> 6) == v >> 7 && Half(v >> 7) == v >> 8
  {
  }

  lemma ByteBits(c: bv32, b: Byte)
    ensures Absorb(c, b) == ReadBits(c, LowBits(b as bv32, 8))
  {
    WordBits(c, b as bv32, 8);
    NothingAbove(b);
    XorZero(ReadBits(c, LowBits(b as bv32, 8)));
  }

  lemma {:induction false} MessageIsBits(c: bv32, msg: seq<Byte>)
    ensures Update(c, msg) == ReadBits(c, MessageBits(msg))
    decreases |msg|
  {
    if msg != [] {
      assert msg == [msg[0]] + msg[1..];
      FoldFirst(Absorb, c, msg[0], msg[1..]);
      ByteBits(c, msg[0]);
      MessageIsBits(Absorb(c, msg[0]), msg[1..]);
      FoldConcat(AbsorbBit, c, LowBits(msg[0] as bv32, 8), MessageBits(msg[1..]));
    }
  }

  // ------------------------------------------------------------ a difference survives 31 steps

  /** Some bit of d lies at place m or above. */
  ghost predicate Reaches(d: bv32, m: nat) {
    Shr(d, m) != 0
  }

  lemma {:induction false} ZeroHalves(n: nat)
    ensures Shr(0, n) == 0
  {
    if n > 0 {
      ZeroHalves(n - 1);
    }
  }

  lemma ReachesLess(d: bv32, m: nat, n: nat)
    requires m <= n && Reaches(d, n)
    ensures Reaches(d, m)
  {
    IterateAdd(Half, n - m, m, d);
    ZeroHalves(n - m);
  }

  lemma TopReaches(d: bv32, m: nat)
    requires d & 0x8000_0000 != 0 && m <= 31
    ensures Reaches(d, m)
  {
    var d1 := ByteDown(d);
    var d2 := ByteDown(d1);
    var d3 := ByteDown(d2);
    TopByte(d, d1, d2, d3);
    TopOfByte(d3);
    Eights(Half, d, d1, d2, d3, 7);
    ReachesLess(d, m, 31);
  }

  lemma ByteDown(d: bv32) returns (e: bv32)
    ensures e == d >> 8 == Shr(d, 8)
  {
    e := d >> 8;
    EightDown(d);
  }

  lemma Eights<W>(f: W -> W, w0: W, w1: W, w2: W, w3: W, n: nat)
    requires Iterate(f, 8, w0) == w1 && Iterate(f, 8, w1) == w2 && Iterate(f, 8, w2) == w3
    ensures Iterate(f, n + 24, w0) == Iterate(f, n, w3)
  {
    IterateAdd(f, 8, 8, w0);
    IterateAdd(f, 8, 16, w0);
    IterateAdd(f, n, 24, w0);
  }

  lemma TopByte(d: bv32, d1: bv32, d2: bv32, d3: bv32)
    ensures d & 0x8000_0000 != 0 && d1 == d >> 8 && d2 == d1 >> 8 && d3 == d2 >> 8 ==> d3 & 0x80 != 0
  {
  }

  lemma TopOfByte(v: bv32)
    requires v & 0x80 != 0
    ensures Shr(v, 7) != 0
  {
    ShiftsAdd(v);
    Chain8(Half, v, v >> 1, v >> 2, v >> 3, v >> 4, v >> 5, v >> 6, v >> 7, v >> 8);
    assert Iterate(Half, 1, v) == v >> 1;
    assert Iterate(Half, 2, v) == v >> 2;
    assert Iterate(Half, 3, v) == v >> 3;
    assert Iterate(Half, 4, v) == v >> 4;
    assert Iterate(Half, 5, v) == v >> 5;
    assert Iterate(Half, 6, v) == v >> 6;
    assert Iterate(Half, 7, v) == v >> 7;
    SevenDown(v);
  }

  lemma SevenDown(v: bv32)
    ensures v & 0x80 != 0 ==> v >> 7 != 0
  {
  }

  lemma LowBitShiftedOut(d: bv32, e: bv32)
    requires e == 0 || e == 1
    ensures Xor(d, e) >> 1 == d >> 1
  {
  }

  lemma OddStepHigh(d: bv32)
    requires d & 1 == 1
    ensures BitStep(d) & 0x8000_0000 != 0
  {
  }

  /** A difference that reaches place m reaches the next lower place after a step, whatever bits come in. */
  lemma ReachStep(d: bv32, e: bv32, m: nat)
    requires (e == 0 || e == 1) && 0 < m <= 32 && Reaches(d, m)
    ensures Reaches(BitStep(Xor(d, e)), m - 1)
  {
    if Xor(d, e) & 1 == 1 {
      OddStepHigh(Xor(d, e));
      TopReaches(BitStep(Xor(d, e)), m - 1);
    } else {
      LowBitShiftedOut(d, e);
      StepFirst(Half, m, d);
    }
  }

  lemma FourXor(a: bv32, x: bv32, b: bv32, y: bv32)
    ensures Xor(Xor(a, x), Xor(b, y)) == Xor(Xor(a, b), Xor(x, y))
  {
    XorAssoc(a, x, Xor(b, y));
    XorAssoc(x, b, y);
    XorCommutes(x, b);
    XorAssoc(b, x, y);
    XorAssoc(a, b, Xor(x, y));
    FourOf(Xor, a, x, b, y);
  }

  lemma FourOf<W>(xor: (W, W) -> W, a: W, x: W, b: W, y: W)
    requires xor(xor(a, x), xor(b, y)) == xor(a, xor(x, xor(b, y)))
    requires xor(xor(x, b), y) == xor(x, xor(b, y)) && xor(x, b) == xor(b, x) && xor(xor(b, x), y) == xor(b, xor(x, y))
    requires xor(xor(a, b), xor(x, y)) == xor(a, xor(b, xor(x, y)))
    ensures xor(xor(a, x), xor(b, y)) == xor(xor(a, b), xor(x, y))
  {
  }

  lemma BitXor(x: bool, y: bool)
    ensures Xor(BitWord(x), BitWord(y)) == (if x == y then 0 else 1)
  {
  }

  /** The difference of two registers after a bit each. */
  lemma DifferenceStep(a: bv32, x: bool, b: bv32, y: bool)
    ensures Xor(AbsorbBit(a, x), AbsorbBit(b, y)) == BitStep(Xor(Xor(a, b), if x == y then 0 else 1))
  {
    BitStepLinear(Xor(a, BitWord(x)), Xor(b, BitWord(y)));
    FourXor(a, BitWord(x), b, BitWord(y));
    BitXor(x, y);
  }

  lemma {:induction false} KeepsApart(a: bv32, b: bv32, x: seq<bool>, y: seq<bool>, m: nat)
    requires |x| == |y| <= m <= 31 && Reaches(Xor(a, b), m)
    ensures ReadBits(a, x) != ReadBits(b, y)
    decreases |x|
  {
    if x == [] {
      SameXor(a, b, m);
    } else {
      OneBitApart(a, x[0], b, y[0], m);
      KeepsApart(AbsorbBit(a, x[0]), AbsorbBit(b, y[0]), x[1..], y[1..], m - 1);
      Begins(a, x);
      Begins(b, y);
    }
  }

  lemma OneBitApart(a: bv32, x: bool, b: bv32, y: bool, m: nat)
    requires 0 < m <= 32 && Reaches(Xor(a, b), m)
    ensures Reaches(Xor(AbsorbBit(a, x), AbsorbBit(b, y)), m - 1)
  {
    DifferenceStep(a, x, b, y);
    ReachStep(Xor(a, b), if x == y then 0 else 1, m);
  }

  lemma Begins(c: bv32, x: seq<bool>)
    requires x != []
    ensures ReadBits(c, x) == ReadBits(AbsorbBit(c, x[0]), x[1..])
  {
    assert x == [x[0]] + x[1..];
    ReadFirst(c, x[0], x[1..]);
  }

  lemma XorSelf(a: bv32)
    ensures Xor(a, a) == 0
  {
  }

  lemma SameXor(a: bv32, b: bv32, m: nat)
    requires Reaches(Xor(a, b), m)
    ensures a != b
  {
    XorSelf(a);
    ZeroHalves(m);
  }

  lemma FirstDifference(c: bv32, x: bool)
    ensures Reaches(Xor(AbsorbBit(c, x), AbsorbBit(c, !x)), 31)
  {
    DifferenceStep(c, x, c, !x);
    XorSelf(c);
    XorZero(1);
    OddStepHigh(1);
    TopReaches(BitStep(1), 31);
  }

  /** Windows of up to 32 bits that are not the same leave different registers. */
  lemma {:induction false} WindowBits(c: bv32, x: seq<bool>, y: seq<bool>)
    requires |x| == |y| <= 32 && x != y
    ensures ReadBits(c, x) != ReadBits(c, y)
    decreases |x|
  {
    Begins(c, x);
    Begins(c, y);
    if x[0] == y[0] {
      assert x == [x[0]] + x[1..] && y == [y[0]] + y[1..];
      WindowBits(AbsorbBit(c, x[0]), x[1..], y[1..]);
    } else {
      FirstDifference(c, x[0]);
      KeepsApart(AbsorbBit(c, x[0]), AbsorbBit(c, y[0]), x[1..], y[1..], 31);
    }
  }

  lemma ShiftedOut(v: bv32)
    ensures Shr(v, 32) == 0
  {
    var v1 := ByteDown(v);
    var v2 := ByteDown(v1);
    var v3 := ByteDown(v2);
    var v4 := ByteDown(v3);
    FourBytesDown(v, v1, v2, v3, v4);
    Eights(Half, v, v1, v2, v3, 8);
  }

  lemma FourBytesDown(v: bv32, v1: bv32, v2: bv32, v3: bv32, v4: bv32)
    ensures v1 == v >> 8 && v2 == v1 >> 8 && v3 == v2 >> 8 && v4 == v3 >> 8 ==> v4 == 0
  {
  }

  lemma WholeWord(c: bv32, v: bv32)
    ensures ReadBits(c, LowBits(v, 32)) == Bits(32, Xor(c, v))
  {
    WordBits(c, v, 32);
    ShiftedOut(v);
    XorZero(ReadBits(c, LowBits(v, 32)));
  }

  ghost predicate ZeroAt<W>(xor: (W, W) -> W, zero: W, x: W, y: W) {
    xor(x, y) == zero <==> x == y
  }

  lemma ZeroOf<W>(xor: (W, W) -> W, zero: W, x: W, y: W)
    requires xor(y, y) == zero && (xor(x, y) == xor(y, y) ==> x == y)
    ensures ZeroAt(xor, zero, x, y)
  {
  }

  lemma ZeroSums()
    ensures forall x, y {:trigger ZeroAt(Xor, 0, x, y)} :: ZeroAt(Xor, 0, x, y)
  {
    forall x, y ensures ZeroAt(Xor, 0, x, y) {
      XorSelf(y);
      XorCancel(x, y, y);
      ZeroOf(Xor, 0, x, y);
    }
  }

  lemma MoveOver(a: bv32, u: bv32, b: bv32, v: bv32)
    ensures Xor(a, u) == Xor(b, v) <==> Xor(u, v) == Xor(a, b)
  {
    FourXor(a, u, b, v);
    ZeroSums();
    SameSums(Xor, 0, a, u, b, v);
  }

  lemma SameSums<W(!new)>(xor: (W, W) -> W, zero: W, a: W, u: W, b: W, v: W)
    requires forall x, y {:trigger ZeroAt(xor, zero, x, y)} :: ZeroAt(xor, zero, x, y)
    requires xor(xor(a, u), xor(b, v)) == xor(xor(a, b), xor(u, v))
    ensures xor(a, u) == xor(b, v) <==> xor(u, v) == xor(a, b)
  {
    assert ZeroAt(xor, zero, xor(a, u), xor(b, v)) && ZeroAt(xor, zero, xor(a, b), xor(u, v));
  }

  lemma OddBitStep()
    ensures BitStep(0) == 0 && BitStep(1) == POLY
  {
  }

  lemma FirstBits(c: bv32, x: bool, y: bool)
    ensures Xor(AbsorbBit(c, x), AbsorbBit(c, y)) == if x == y then 0 else POLY
  {
    DifferenceStep(c, x, c, y);
    XorSelf(c);
    XorZero(if x == y then 0 else 1);
    OddBitStep();
  }

  lemma SameBits(n: nat, x: bv32, y: bv32)
    ensures Bits(n, x) == Bits(n, y) <==> x == y
  {
    if Bits(n, x) == Bits(n, y) {
      BitsInjective(n, x, y);
    }
  }

  /** Windows of 33 bits leave the same register exactly when they are the same or their difference is the polynomial:
      the 32 bits below cannot be one more. */
  lemma Window33(c: bv32, x: bool, u: bv32, y: bool, v: bv32)
    ensures ReadBits(c, [x] + LowBits(u, 32)) == ReadBits(c, [y] + LowBits(v, 32))
       <==> Xor(u, v) == if x == y then 0 else POLY
  {
    ReadFirst(c, x, LowBits(u, 32));
    ReadFirst(c, y, LowBits(v, 32));
    WholeWords(AbsorbBit(c, x), u, AbsorbBit(c, y), v);
    FirstBits(c, x, y);
  }

  lemma WholeWords(a: bv32, u: bv32, b: bv32, v: bv32)
    ensures ReadBits(a, LowBits(u, 32)) == ReadBits(b, LowBits(v, 32)) <==> Xor(u, v) == Xor(a, b)
  {
    WholeWord(a, u);
    WholeWord(b, v);
    SameBits(32, Xor(a, u), Xor(b, v));
    MoveOver(a, u, b, v);
  }

  // ------------------------------------------------------------ bursts

  lemma AbsorbBitInjective(x: bv32, y: bv32, b: bool)
    requires AbsorbBit(x, b) == AbsorbBit(y, b)
    ensures x == y
  {
    BitStepInjective(Xor(x, BitWord(b)), Xor(y, BitWord(b)));
    XorCancel(x, y, BitWord(b));
  }

  lemma ReadInjective(c1: bv32, c2: bv32, bits: seq<bool>)
    requires ReadBits(c1, bits) == ReadBits(c2, bits)
    ensures c1 == c2
  {
    forall x: bv32, y: bv32, b: bool | AbsorbBit(x, b) == AbsorbBit(y, b) ensures x == y {
      AbsorbBitInjective(x, y, b);
    }
    FoldInjective(AbsorbBit, c1, c2, bits);
  }

  lemma BitsApart(c: bv32, pre: seq<bool>, x: seq<bool>, y: seq<bool>, post: seq<bool>)
    requires |x| == |y| <= 32 && x != y
    ensures ReadBits(c, pre + x + post) != ReadBits(c, pre + y + post)
  {
    var d := ReadBits(c, pre);
    FoldConcat(AbsorbBit, c, pre + x, post);
    FoldConcat(AbsorbBit, c, pre, x);
    FoldConcat(AbsorbBit, c, pre + y, post);
    FoldConcat(AbsorbBit, c, pre, y);
    WindowBits(d, x, y);
    if ReadBits(ReadBits(d, x), post) == ReadBits(ReadBits(d, y), post) {
      ReadInjective(ReadBits(d, x), ReadBits(d, y), post);
    }
  }

  /** Two messages whose bits differ, but only within n <= 32 consecutive places from i on, counted from the low bit of
      the first byte, have different CRCs. */
  lemma BurstOf32Bits(m1: seq<Byte>, m2: seq<Byte>, i: nat, n: nat)
    requires |m1| == |m2| && m1 != m2 && n <= 32 && i + n <= 8 * |m1|
    requires MessageBits(m1)[..i] == MessageBits(m2)[..i] && MessageBits(m1)[i + n..] == MessageBits(m2)[i + n..]
    ensures Crc(m1) != Crc(m2)
  {
    var b1, b2 := MessageBits(m1), MessageBits(m2);
    var x, y := b1[i..i + n], b2[i..i + n];
    ThreeParts(b1, i, n);
    ThreeParts(b2, i, n);
    if x == y {
      MessageBitsInjective(m1, m2);
    }
    BitsApart(ONES, b1[..i], x, y, b1[i + n..]);
    MessageIsBits(ONES, m1);
    MessageIsBits(ONES, m2);
    FinalXor(Update(ONES, m1), Update(ONES, m2));
  }

  /** So it is for messages that differ only within four consecutive bytes. */
  lemma BurstDetected(pre: seq<Byte>, x: seq<Byte>, y: seq<Byte>, post: seq<Byte>)
    requires |x| == |y| <= 4 && x != y
    ensures Crc(pre + x + post) != Crc(pre + y + post)
  {
    if MessageBits(x) == MessageBits(y) {
      MessageBitsInjective(x, y);
    }
    BitsApart(ONES, MessageBits(pre), MessageBits(x), MessageBits(y), MessageBits(post));
    InThreeParts(pre, x, post);
    InThreeParts(pre, y, post);
    MessageIsBits(ONES, pre + x + post);
    MessageIsBits(ONES, pre + y + post);
    FinalXor(Update(ONES, pre + x + post), Update(ONES, pre + y + post));
  }

  lemma InThreeParts(a: seq<Byte>, b: seq<Byte>, c: seq<Byte>)
    ensures MessageBits(a + b + c) == MessageBits(a) + MessageBits(b) + MessageBits(c)
  {
    BitsConcat(a + b, c);
    BitsConcat(a, b);
  }

  lemma {:induction false} BitsConcat(a: seq<Byte>, b: seq<Byte>)
    ensures MessageBits(a + b) == MessageBits(a) + MessageBits(b)
    decreases |a|
  {
    if a == [] {
      assert a + b == b;
    } else {
      assert (a + b)[1..] == a[1..] + b;
      BitsConcat(a[1..], b);
    }
  }

  lemma ThreeParts<T>(s: seq<T>, i: nat, n: nat)
    requires i + n <= |s|
    ensures s == s[..i] + s[i..i + n] + s[i + n..]
  {
  }

  // ------------------------------------------------------------ the bits of a message tell it

  lemma {:induction false} MessageBitsInjective(m1: seq<Byte>, m2: seq<Byte>)
    requires |m1| == |m2| && MessageBits(m1) == MessageBits(m2)
    ensures m1 == m2
    decreases |m1|
  {
    if m1 != [] {
      var a1, a2 := LowBits(m1[0] as bv32, 8), LowBits(m2[0] as bv32, 8);
      assert MessageBits(m1)[..8] == a1 && MessageBits(m2)[..8] == a2;
      assert MessageBits(m1)[8..] == MessageBits(m1[1..]) && MessageBits(m2)[8..] == MessageBits(m2[1..]);
      LowBitsInjective(m1[0], m2[0]);
      MessageBitsInjective(m1[1..], m2[1..]);
      assert m1 == [m1[0]] + m1[1..] && m2 == [m2[0]] + m2[1..];
    }
  }

  lemma LowBitsInjective(a: Byte, b: Byte)
    requires LowBits(a as bv32, 8) == LowBits(b as bv32, 8)
    ensures a == b
  {
    ByteBits(0, a);
    ByteBits(0, b);
    BitsInjective(8, Xor(0, a as bv32), Xor(0, b as bv32));
    XorZero(a as bv32);
    XorZero(b as bv32);
    WidenedByte(a, b);
  }

  lemma WidenedByte(a: Byte, b: Byte)
    ensures a as bv32 == b as bv32 ==> a == b
  {
  }
}
