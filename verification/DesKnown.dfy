/** The answer of software/libs/liborion_em_assembler/crypt.c at key 133457799BBCDFF1 and block 0123456789ABCDEF,
    key by key and round by round: 85E813540F0AB405. The tables hold what every step leaves. */
module DesKnown {
  import opened DesTables
  import opened DesSpec
  import opened DesAnswer

  const h0 := Nibble(false, false, false, false)
  const h1 := Nibble(false, false, false, true)
  const h2 := Nibble(false, false, true, false)
  const h3 := Nibble(false, false, true, true)
  const h4 := Nibble(false, true, false, false)
  const h5 := Nibble(false, true, false, true)
  const h6 := Nibble(false, true, true, false)
  const h7 := Nibble(false, true, true, true)
  const h8 := Nibble(true, false, false, false)
  const h9 := Nibble(true, false, false, true)
  const hA := Nibble(true, false, true, false)
  const hB := Nibble(true, false, true, true)
  const hC := Nibble(true, true, false, false)
  const hD := Nibble(true, true, false, true)
  const hE := Nibble(true, true, true, false)
  const hF := Nibble(true, true, true, true)

  function KeyDigits(): seq<Nibble> {
    [h1, h3, h3, h4, h5, h7, h7, h9, h9, hB, hB, hC, hD, hF, hF, h1]
  }

  function BlockDigits(): seq<Nibble> {
    [h0, h1, h2, h3, h4, h5, h6, h7, h8, h9, hA, hB, hC, hD, hE, hF]
  }

  function Answer(): seq<Nibble> {
    [h8, h5, hE, h8, h1, h3, h5, h4, h0, hF, h0, hA, hB, h4, h0, h5]
  }

  /** The half C of the key, before key 0 and then as key i - 1 is picked from it. */
  function HalfC(i: nat): (d: seq<Nibble>)
    ensures |d| == 7
  {
    match i
    case 0 => [hF, h0, hC, hC, hA, hA, hF]
    case 1 => [hE, h1, h9, h9, h5, h5, hF]
    case 2 => [hC, h3, h3, h2, hA, hB, hF]
    case 3 => [h0, hC, hC, hA, hA, hF, hF]
    case 4 => [h3, h3, h2, hA, hB, hF, hC]
    case 5 => [hC, hC, hA, hA, hF, hF, h0]
    case 6 => [h3, h2, hA, hB, hF, hC, h3]
    case 7 => [hC, hA, hA, hF, hF, h0, hC]
    case 8 => [h2, hA, hB, hF, hC, h3, h3]
    case 9 => [h5, h5, h7, hF, h8, h6, h6]
    case 10 => [h5, h5, hF, hE, h1, h9, h9]
    case 11 => [h5, h7, hF, h8, h6, h6, h5]
    case 12 => [h5, hF, hE, h1, h9, h9, h5]
    case 13 => [h7, hF, h8, h6, h6, h5, h5]
    case 14 => [hF, hE, h1, h9, h9, h5, h5]
    case 15 => [hF, h8, h6, h6, h5, h5, h7]
    case _ => [hF, h0, hC, hC, hA, hA, hF]
  }

  /** The half D. */
  function HalfD(i: nat): (d: seq<Nibble>)
    ensures |d| == 7
  {
    match i
    case 0 => [h5, h5, h6, h6, h7, h8, hF]
    case 1 => [hA, hA, hC, hC, hF, h1, hE]
    case 2 => [h5, h5, h9, h9, hE, h3, hD]
    case 3 => [h5, h6, h6, h7, h8, hF, h5]
    case 4 => [h5, h9, h9, hE, h3, hD, h5]
    case 5 => [h6, h6, h7, h8, hF, h5, h5]
    case 6 => [h9, h9, hE, h3, hD, h5, h5]
    case 7 => [h6, h7, h8, hF, h5, h5, h6]
    case 8 => [h9, hE, h3, hD, h5, h5, h9]
    case 9 => [h3, hC, h7, hA, hA, hB, h3]
    case 10 => [hF, h1, hE, hA, hA, hC, hC]
    case 11 => [hC, h7, hA, hA, hB, h3, h3]
    case 12 => [h1, hE, hA, hA, hC, hC, hF]
    case 13 => [h7, hA, hA, hB, h3, h3, hC]
    case 14 => [hE, hA, hA, hC, hC, hF, h1]
    case 15 => [hA, hA, hB, h3, h3, hC, h7]
    case _ => [h5, h5, h6, h6, h7, h8, hF]
  }

  /** Key i in its groups. */
  function KeyGroups(i: nat): (d: seq<Sextet>)
    ensures |d| == 8
  {
    match i
    case 0 => 
      [Sextet(false, h3, false), Sextet(true, h8, false), Sextet(false, h5, true), Sextet(true, h7, true),
       Sextet(true, hF, true), Sextet(false, h3, true), Sextet(false, h0, true), Sextet(true, h9, false)]
    case 1 => 
      [Sextet(false, hF, false), Sextet(false, hD, false), Sextet(true, hD, true), Sextet(false, hC, true),
       Sextet(true, hB, false), Sextet(true, hE, false), Sextet(true, h3, true), Sextet(true, h2, true)]
    case 2 => 
      [Sextet(false, hA, true), Sextet(false, hF, true), Sextet(true, h9, false), Sextet(false, h5, false),
       Sextet(false, h8, false), Sextet(true, h6, false), Sextet(true, hF, false), Sextet(false, hC, true)]
    case 3 => 
      [Sextet(false, hE, false), Sextet(true, h5, false), Sextet(true, hB, true), Sextet(false, hB, false),
       Sextet(true, hB, false), Sextet(true, h9, true), Sextet(false, hA, false), Sextet(false, hE, true)]
    case 4 => 
      [Sextet(false, hF, true), Sextet(false, h7, false), Sextet(true, h8, false), Sextet(false, h3, true),
       Sextet(true, hD, false), Sextet(true, hA, true), Sextet(false, h7, false), Sextet(true, h4, false)]
    case 5 => 
      [Sextet(false, hC, false), Sextet(true, hD, false), Sextet(false, hA, false), Sextet(true, hF, false),
       Sextet(false, hA, false), Sextet(false, h3, true), Sextet(true, h6, false), Sextet(true, h7, true)]
    case 6 => 
      [Sextet(true, hD, true), Sextet(false, h4, false), Sextet(false, h9, false), Sextet(true, hB, true),
       Sextet(true, hE, true), Sextet(true, h0, true), Sextet(true, h1, false), Sextet(true, hE, false)]
    case 7 => 
      [Sextet(true, hE, true), Sextet(true, hC, false), Sextet(true, h4, false), Sextet(true, hD, false),
       Sextet(true, h8, false), Sextet(false, h9, true), Sextet(true, h7, true), Sextet(true, hD, true)]
    case 8 => 
      [Sextet(true, hC, false), Sextet(false, h6, true), Sextet(true, h7, true), Sextet(true, h5, true),
       Sextet(true, hD, true), Sextet(false, hF, false), Sextet(false, hF, false), Sextet(false, h0, true)]
    case 9 => 
      [Sextet(true, h6, false), Sextet(false, hF, true), Sextet(false, h6, true), Sextet(false, h3, true),
       Sextet(true, h7, false), Sextet(true, h2, false), Sextet(false, hC, true), Sextet(false, h7, true)]
    case 10 => 
      [Sextet(false, h4, false), Sextet(false, hA, true), Sextet(true, hF, true), Sextet(false, h9, true),
       Sextet(true, hB, true), Sextet(true, h6, true), Sextet(false, h7, false), Sextet(false, h3, false)]
    case 11 => 
      [Sextet(false, hE, true), Sextet(false, hB, true), Sextet(false, h3, true), Sextet(true, hA, true),
       Sextet(true, h2, true), Sextet(false, h3, false), Sextet(false, hF, true), Sextet(true, h4, true)]
    case 12 => 
      [Sextet(true, h2, true), Sextet(true, hE, false), Sextet(false, hB, true), Sextet(false, h8, true),
       Sextet(true, hF, false), Sextet(true, h5, true), Sextet(true, h4, true), Sextet(false, h0, true)]
    case 13 => 
      [Sextet(false, hB, true), Sextet(true, hA, false), Sextet(false, h7, false), Sextet(true, hB, true),
       Sextet(true, hE, false), Sextet(true, h7, false), Sextet(false, hE, false), Sextet(true, hD, false)]
    case 14 => 
      [Sextet(true, h7, true), Sextet(true, hC, true), Sextet(false, h3, false), Sextet(false, h6, true),
       Sextet(false, h7, true), Sextet(false, h9, true), Sextet(true, hE, false), Sextet(false, h5, false)]
    case _ => 
      [Sextet(true, h9, false), Sextet(true, h9, true), Sextet(true, hB, false), Sextet(false, h5, true),
       Sextet(false, h1, true), Sextet(true, h0, true), Sextet(false, hF, true), Sextet(true, hA, true)]
  }

  /** The halves of the block: L and R before round i are the halves i and i + 1. */
  function HalfAt(i: nat): (d: seq<Nibble>)
    ensures |d| == 8
  {
    match i
    case 0 => [hC, hC, h0, h0, hC, hC, hF, hF]
    case 1 => [hF, h0, hA, hA, hF, h0, hA, hA]
    case 2 => [hE, hF, h4, hA, h6, h5, h4, h4]
    case 3 => [hC, hC, h0, h1, h7, h7, h0, h9]
    case 4 => [hA, h2, h5, hC, h0, hB, hF, h4]
    case 5 => [h7, h7, h2, h2, h0, h0, h4, h5]
    case 6 => [h8, hA, h4, hF, hA, h6, h3, h7]
    case 7 => [hE, h9, h6, h7, hC, hD, h6, h9]
    case 8 => [h0, h6, h4, hA, hB, hA, h1, h0]
    case 9 => [hD, h5, h6, h9, h4, hB, h9, h0]
    case 10 => [h2, h4, h7, hC, hC, h6, h7, hA]
    case 11 => [hB, h7, hD, h5, hD, h7, hB, h2]
    case 12 => [hC, h5, h7, h8, h3, hC, h7, h8]
    case 13 => [h7, h5, hB, hD, h1, h8, h5, h8]
    case 14 => [h1, h8, hC, h3, h1, h5, h5, hA]
    case 15 => [hC, h2, h8, hC, h9, h6, h0, hD]
    case 16 => [h4, h3, h4, h2, h3, h2, h3, h4]
    case _ => [h0, hA, h4, hC, hD, h9, h9, h5]
  }

  /** The entries that round i picks from the selection functions, and what is there. */
  function Entries(i: nat): (d: seq<nat>)
    ensures |d| == 8
  {
    match i
    case 0 => [12, 24, 15, 45, 48, 35, 10, 51]
    case 1 => [17, 2, 9, 22, 45, 43, 23, 38]
    case 2 => [38, 19, 41, 4, 47, 1, 31, 5]
    case 3 => [4, 39, 46, 39, 59, 34, 37, 42]
    case 4 => [56, 32, 10, 17, 45, 58, 3, 33]
    case 5 => [52, 39, 30, 48, 32, 21, 37, 0]
    case 6 => [3, 13, 47, 44, 2, 61, 23, 55]
    case 7 => [62, 42, 48, 55, 51, 51, 54, 29]
    case 8 => [33, 51, 1, 60, 9, 20, 38, 32]
    case 9 => [36, 27, 1, 47, 43, 36, 11, 61]
    case 10 => [15, 45, 18, 44, 22, 1, 44, 49]
    case 11 => [18, 30, 36, 18, 33, 47, 8, 12]
    case 12 => [53, 27, 32, 53, 30, 29, 33, 56]
    case 13 => [10, 18, 11, 56, 15, 2, 59, 7]
    case 14 => [27, 46, 27, 10, 30, 63, 62, 24]
    case _ => [45, 58, 15, 23, 18, 18, 28, 30]
  }

  function Selections(i: nat): (d: seq<Nibble>)
    ensures |d| == 8
  {
    match i
    case 0 => [h5, hC, h8, h2, hB, h5, h9, h7]
    case 1 => [hF, h8, hD, h0, h3, hA, hA, hE]
    case 2 => [h2, h7, h1, h0, hE, h1, h6, hF]
    case 3 => [h2, h1, hE, hD, h9, hF, h3, hA]
    case 4 => [h5, h0, hC, h8, h3, h1, hE, hB]
    case 5 => [h4, h1, hF, h3, h4, hC, h3, hD]
    case 6 => [h1, h0, h7, h5, h4, h0, hA, hD]
    case 7 => [h6, hC, h1, h8, h7, hC, hA, hE]
    case 8 => [h1, h1, h0, hC, h5, h7, h7, h7]
    case 9 => [hD, hA, h0, h4, h5, h2, h7, h5]
    case 10 => [h7, h3, h0, h5, hD, h1, h0, h1]
    case 11 => [h7, hB, h8, hB, h2, h6, h3, h5]
    case 12 => [h9, hA, hD, h1, h8, hB, h4, hF]
    case 13 => [h6, h4, h7, h9, h9, hA, hF, h1]
    case 14 => [hB, h2, hE, h8, h8, hD, h3, hC]
    case _ => [hA, h7, h8, h3, h2, h4, h2, h9]
  }

  // ------------------------------------------------------------ the keys

  ghost predicate Stand(c: Bits, d: Bits, n: nat, dc: seq<Nibble>, dd: seq<Nibble>) {
    Hex(Rotations(c, n), dc) && Hex(Rotations(d, n), dd)
  }

  lemma TurnOnce(c: Bits, d: Bits, n: nat, dc: seq<Nibble>, dd: seq<Nibble>)
    requires |dc| == |dd| == 7 && Stand(c, d, n, dc, dd)
    ensures Stand(c, d, n + 1, Turned(dc), Turned(dd))
  {
    TurnedIs(Rotations(c, n), dc);
    TurnedIs(Rotations(d, n), dd);
  }

  function TurnedBy(c: seq<Nibble>, shift: int): seq<Nibble>
    requires |c| == 7
  {
    if shift == 1 then Turned(c) else Turned(Turned(c))
  }

  lemma ShiftIs(i: nat)
    requires i < 16
    ensures Shift(i) == 1 || Shift(i) == 2
    ensures Turns(i) == Shift(i) + if i == 0 then 0 else Turns(i - 1)
  {
  }

  lemma TurnStep(c: Bits, d: Bits, n: nat, shift: int, dc: seq<Nibble>, dd: seq<Nibble>)
    requires |dc| == |dd| == 7 && Stand(c, d, n, dc, dd) && (shift == 1 || shift == 2)
    ensures Stand(c, d, n + shift, TurnedBy(dc, shift), TurnedBy(dd, shift))
  {
    TurnOnce(c, d, n, dc, dd);
    if shift == 2 {
      TurnOnce(c, d, n + 1, Turned(dc), Turned(dd));
    }
  }

  lemma {:induction false} HalvesStand(c: Bits, d: Bits, i: nat)
    requires i < 16 && Stand(c, d, 0, HalfC(0), HalfD(0))
    ensures Stand(c, d, Turns(i), HalfC(i + 1), HalfD(i + 1))
  {
    var n := if i == 0 then 0 else Turns(i - 1);
    if i > 0 {
      HalvesStand(c, d, i - 1);
    }
    ShiftIs(i);
    KeyFact(i);
    TurnStep(c, d, n, Shift(i), HalfC(i), HalfD(i));
  }

  lemma Key0()
    ensures TurnedBy(HalfC(0), Shift(0)) == HalfC(1) && TurnedBy(HalfD(0), Shift(0)) == HalfD(1)
    ensures GroupsOf(HalfC(1), HalfD(1)) == KeyGroups(0)
  {
  }

  lemma Key1()
    ensures TurnedBy(HalfC(1), Shift(1)) == HalfC(2) && TurnedBy(HalfD(1), Shift(1)) == HalfD(2)
    ensures GroupsOf(HalfC(2), HalfD(2)) == KeyGroups(1)
  {
  }

  lemma Key2()
    ensures TurnedBy(HalfC(2), Shift(2)) == HalfC(3) && TurnedBy(HalfD(2), Shift(2)) == HalfD(3)
    ensures GroupsOf(HalfC(3), HalfD(3)) == KeyGroups(2)
  {
  }

  lemma Key3()
    ensures TurnedBy(HalfC(3), Shift(3)) == HalfC(4) && TurnedBy(HalfD(3), Shift(3)) == HalfD(4)
    ensures GroupsOf(HalfC(4), HalfD(4)) == KeyGroups(3)
  {
  }

  lemma Key4()
    ensures TurnedBy(HalfC(4), Shift(4)) == HalfC(5) && TurnedBy(HalfD(4), Shift(4)) == HalfD(5)
    ensures GroupsOf(HalfC(5), HalfD(5)) == KeyGroups(4)
  {
  }

  lemma Key5()
    ensures TurnedBy(HalfC(5), Shift(5)) == HalfC(6) && TurnedBy(HalfD(5), Shift(5)) == HalfD(6)
    ensures GroupsOf(HalfC(6), HalfD(6)) == KeyGroups(5)
  {
  }

  lemma Key6()
    ensures TurnedBy(HalfC(6), Shift(6)) == HalfC(7) && TurnedBy(HalfD(6), Shift(6)) == HalfD(7)
    ensures GroupsOf(HalfC(7), HalfD(7)) == KeyGroups(6)
  {
  }

  lemma Key7()
    ensures TurnedBy(HalfC(7), Shift(7)) == HalfC(8) && TurnedBy(HalfD(7), Shift(7)) == HalfD(8)
    ensures GroupsOf(HalfC(8), HalfD(8)) == KeyGroups(7)
  {
  }

  lemma Key8()
    ensures TurnedBy(HalfC(8), Shift(8)) == HalfC(9) && TurnedBy(HalfD(8), Shift(8)) == HalfD(9)
    ensures GroupsOf(HalfC(9), HalfD(9)) == KeyGroups(8)
  {
  }

  lemma Key9()
    ensures TurnedBy(HalfC(9), Shift(9)) == HalfC(10) && TurnedBy(HalfD(9), Shift(9)) == HalfD(10)
    ensures GroupsOf(HalfC(10), HalfD(10)) == KeyGroups(9)
  {
  }

  lemma Key10()
    ensures TurnedBy(HalfC(10), Shift(10)) == HalfC(11) && TurnedBy(HalfD(10), Shift(10)) == HalfD(11)
    ensures GroupsOf(HalfC(11), HalfD(11)) == KeyGroups(10)
  {
  }

  lemma Key11()
    ensures TurnedBy(HalfC(11), Shift(11)) == HalfC(12) && TurnedBy(HalfD(11), Shift(11)) == HalfD(12)
    ensures GroupsOf(HalfC(12), HalfD(12)) == KeyGroups(11)
  {
  }

  lemma Key12()
    ensures TurnedBy(HalfC(12), Shift(12)) == HalfC(13) && TurnedBy(HalfD(12), Shift(12)) == HalfD(13)
    ensures GroupsOf(HalfC(13), HalfD(13)) == KeyGroups(12)
  {
  }

  lemma Key13()
    ensures TurnedBy(HalfC(13), Shift(13)) == HalfC(14) && TurnedBy(HalfD(13), Shift(13)) == HalfD(14)
    ensures GroupsOf(HalfC(14), HalfD(14)) == KeyGroups(13)
  {
  }

  lemma Key14()
    ensures TurnedBy(HalfC(14), Shift(14)) == HalfC(15) && TurnedBy(HalfD(14), Shift(14)) == HalfD(15)
    ensures GroupsOf(HalfC(15), HalfD(15)) == KeyGroups(14)
  {
  }

  lemma Key15()
    ensures TurnedBy(HalfC(15), Shift(15)) == HalfC(16) && TurnedBy(HalfD(15), Shift(15)) == HalfD(16)
    ensures GroupsOf(HalfC(16), HalfD(16)) == KeyGroups(15)
  {
  }

  lemma KeyFact(i: nat)
    requires i < 16
    ensures TurnedBy(HalfC(i), Shift(i)) == HalfC(i + 1) && TurnedBy(HalfD(i), Shift(i)) == HalfD(i + 1)
    ensures GroupsOf(HalfC(i + 1), HalfD(i + 1)) == KeyGroups(i)
  {
    match i
    case 0 => Key0();
    case 1 => Key1();
    case 2 => Key2();
    case 3 => Key3();
    case 4 => Key4();
    case 5 => Key5();
    case 6 => Key6();
    case 7 => Key7();
    case 8 => Key8();
    case 9 => Key9();
    case 10 => Key10();
    case 11 => Key11();
    case 12 => Key12();
    case 13 => Key13();
    case 14 => Key14();
    case _ => Key15();
  }

  lemma HalvesOfKey(key: Block)
    requires Hex(key, KeyDigits())
    ensures Stand(KeyC(key), KeyD(key), 0, HalfC(0), HalfD(0))
  {
    CIs(key, KeyDigits());
    DIs(key, KeyDigits());
  }

  /** The sixteen keys of the schedule. */
  lemma KeysAre(key: Block, i: nat)
    requires Hex(key, KeyDigits()) && i < 16
    ensures Six(Schedule(key)[i], KeyGroups(i))
  {
    var c, d, n := KeyC(key), KeyD(key), Turns(i);
    HalvesOfKey(key);
    HalvesStand(c, d, i);
    KeyFact(i);
    RoundKeyIs(c, d, i, Rotations(c, n), Rotations(d, n));
    GroupsAre(Rotations(c, n), Rotations(d, n), HalfC(i + 1), HalfD(i + 1));
  }

  // ------------------------------------------------------------ the rounds

  predicate EightEntries(r: seq<Nibble>, k: seq<Sextet>, x: seq<nat>)
    requires |r| == |k| == |x| == 8
  {
    && x[0] == Entry(r[7], r[0], r[1], k[0]) && x[1] == Entry(r[0], r[1], r[2], k[1])
    && x[2] == Entry(r[1], r[2], r[3], k[2]) && x[3] == Entry(r[2], r[3], r[4], k[3])
    && x[4] == Entry(r[3], r[4], r[5], k[4]) && x[5] == Entry(r[4], r[5], r[6], k[5])
    && x[6] == Entry(r[5], r[6], r[7], k[6]) && x[7] == Entry(r[6], r[7], r[0], k[7])
  }

  predicate FourFound(x: seq<nat>, v: seq<Nibble>, from: nat)
    requires |x| == |v| == 8 && from <= 4
  {
    && FoundAt(x, v, from) && FoundAt(x, v, from + 1) && FoundAt(x, v, from + 2) && FoundAt(x, v, from + 3)
  }

  predicate EightFound(x: seq<nat>, v: seq<Nibble>)
    requires |x| == |v| == 8
  {
    FourFound(x, v, 0) && FourFound(x, v, 4)
  }

  predicate EightMixed(l: seq<Nibble>, v: seq<Nibble>, next: seq<Nibble>)
    requires |l| == |v| == |next| == 8
  {
    && Mixes(0, l[0], v, next[0]) && Mixes(1, l[1], v, next[1]) && Mixes(2, l[2], v, next[2])
    && Mixes(3, l[3], v, next[3]) && Mixes(4, l[4], v, next[4]) && Mixes(5, l[5], v, next[5])
    && Mixes(6, l[6], v, next[6]) && Mixes(7, l[7], v, next[7])
  }

  lemma RoundFrom(e: Selector, key: Key, h: Halves, k: seq<Sextet>, l: seq<Nibble>, r: seq<Nibble>, x: seq<nat>,
                  v: seq<Nibble>, next: seq<Nibble>)
    requires Expands(e) && |l| == |r| == |k| == |x| == |v| == |next| == 8 && Six(key, k) && Are(h, l, r)
    requires EightEntries(r, k, x) && EightFound(x, v) && EightMixed(l, v, next)
    ensures Are(Round(e, key, h), r, next)
  {
    forall n: nat ensures EntryAt(r, k, x, n) && FoundAt(x, v, n) && MixesAt(l, v, next, n) {
      if n < 8 {
        assert n == 0 || n == 1 || n == 2 || n == 3 || n == 4 || n == 5 || n == 6 || n == 7;
      }
    }
    RoundDigits(e, key, h, k, l, r, x, v, next);
  }

  lemma Picked0()
    ensures EightEntries(HalfAt(1), KeyGroups(0), Entries(0))
  {
  }

  lemma Front0()
    ensures FourFound(Entries(0), Selections(0), 0)
  {
  }

  lemma Back0()
    ensures FourFound(Entries(0), Selections(0), 4)
  {
  }

  lemma Mixed0()
    ensures EightMixed(HalfAt(0), Selections(0), HalfAt(2))
  {
  }

  lemma Picked1()
    ensures EightEntries(HalfAt(2), KeyGroups(1), Entries(1))
  {
  }

  lemma Front1()
    ensures FourFound(Entries(1), Selections(1), 0)
  {
  }

  lemma Back1()
    ensures FourFound(Entries(1), Selections(1), 4)
  {
  }

  lemma Mixed1()
    ensures EightMixed(HalfAt(1), Selections(1), HalfAt(3))
  {
  }

  lemma Picked2()
    ensures EightEntries(HalfAt(3), KeyGroups(2), Entries(2))
  {
  }

  lemma Front2()
    ensures FourFound(Entries(2), Selections(2), 0)
  {
  }

  lemma Back2()
    ensures FourFound(Entries(2), Selections(2), 4)
  {
  }

  lemma Mixed2()
    ensures EightMixed(HalfAt(2), Selections(2), HalfAt(4))
  {
  }

  lemma Picked3()
    ensures EightEntries(HalfAt(4), KeyGroups(3), Entries(3))
  {
  }

  lemma Front3()
    ensures FourFound(Entries(3), Selections(3), 0)
  {
  }

  lemma Back3()
    ensures FourFound(Entries(3), Selections(3), 4)
  {
  }

  lemma Mixed3()
    ensures EightMixed(HalfAt(3), Selections(3), HalfAt(5))
  {
  }

  lemma Picked4()
    ensures EightEntries(HalfAt(5), KeyGroups(4), Entries(4))
  {
  }

  lemma Front4()
    ensures FourFound(Entries(4), Selections(4), 0)
  {
  }

  lemma Back4()
    ensures FourFound(Entries(4), Selections(4), 4)
  {
  }

  lemma Mixed4()
    ensures EightMixed(HalfAt(4), Selections(4), HalfAt(6))
  {
  }

  lemma Picked5()
    ensures EightEntries(HalfAt(6), KeyGroups(5), Entries(5))
  {
  }

  lemma Front5()
    ensures FourFound(Entries(5), Selections(5), 0)
  {
  }

  lemma Back5()
    ensures FourFound(Entries(5), Selections(5), 4)
  {
  }

  lemma Mixed5()
    ensures EightMixed(HalfAt(5), Selections(5), HalfAt(7))
  {
  }

  lemma Picked6()
    ensures EightEntries(HalfAt(7), KeyGroups(6), Entries(6))
  {
  }

  lemma Front6()
    ensures FourFound(Entries(6), Selections(6), 0)
  {
  }

  lemma Back6()
    ensures FourFound(Entries(6), Selections(6), 4)
  {
  }

  lemma Mixed6()
    ensures EightMixed(HalfAt(6), Selections(6), HalfAt(8))
  {
  }

  lemma Picked7()
    ensures EightEntries(HalfAt(8), KeyGroups(7), Entries(7))
  {
  }

  lemma Front7()
    ensures FourFound(Entries(7), Selections(7), 0)
  {
  }

  lemma Back7()
    ensures FourFound(Entries(7), Selections(7), 4)
  {
  }

  lemma Mixed7()
    ensures EightMixed(HalfAt(7), Selections(7), HalfAt(9))
  {
  }

  lemma Picked8()
    ensures EightEntries(HalfAt(9), KeyGroups(8), Entries(8))
  {
  }

  lemma Front8()
    ensures FourFound(Entries(8), Selections(8), 0)
  {
  }

  lemma Back8()
    ensures FourFound(Entries(8), Selections(8), 4)
  {
  }

  lemma Mixed8()
    ensures EightMixed(HalfAt(8), Selections(8), HalfAt(10))
  {
  }

  lemma Picked9()
    ensures EightEntries(HalfAt(10), KeyGroups(9), Entries(9))
  {
  }

  lemma Front9()
    ensures FourFound(Entries(9), Selections(9), 0)
  {
  }

  lemma Back9()
    ensures FourFound(Entries(9), Selections(9), 4)
  {
  }

  lemma Mixed9()
    ensures EightMixed(HalfAt(9), Selections(9), HalfAt(11))
  {
  }

  lemma Picked10()
    ensures EightEntries(HalfAt(11), KeyGroups(10), Entries(10))
  {
  }

  lemma Front10()
    ensures FourFound(Entries(10), Selections(10), 0)
  {
  }

  lemma Back10()
    ensures FourFound(Entries(10), Selections(10), 4)
  {
  }

  lemma Mixed10()
    ensures EightMixed(HalfAt(10), Selections(10), HalfAt(12))
  {
  }

  lemma Picked11()
    ensures EightEntries(HalfAt(12), KeyGroups(11), Entries(11))
  {
  }

  lemma Front11()
    ensures FourFound(Entries(11), Selections(11), 0)
  {
  }

  lemma Back11()
    ensures FourFound(Entries(11), Selections(11), 4)
  {
  }

  lemma Mixed11()
    ensures EightMixed(HalfAt(11), Selections(11), HalfAt(13))
  {
  }

  lemma Picked12()
    ensures EightEntries(HalfAt(13), KeyGroups(12), Entries(12))
  {
  }

  lemma Front12()
    ensures FourFound(Entries(12), Selections(12), 0)
  {
  }

  lemma Back12()
    ensures FourFound(Entries(12), Selections(12), 4)
  {
  }

  lemma Mixed12()
    ensures EightMixed(HalfAt(12), Selections(12), HalfAt(14))
  {
  }

  lemma Picked13()
    ensures EightEntries(HalfAt(14), KeyGroups(13), Entries(13))
  {
  }

  lemma Front13()
    ensures FourFound(Entries(13), Selections(13), 0)
  {
  }

  lemma Back13()
    ensures FourFound(Entries(13), Selections(13), 4)
  {
  }

  lemma Mixed13()
    ensures EightMixed(HalfAt(13), Selections(13), HalfAt(15))
  {
  }

  lemma Picked14()
    ensures EightEntries(HalfAt(15), KeyGroups(14), Entries(14))
  {
  }

  lemma Front14()
    ensures FourFound(Entries(14), Selections(14), 0)
  {
  }

  lemma Back14()
    ensures FourFound(Entries(14), Selections(14), 4)
  {
  }

  lemma Mixed14()
    ensures EightMixed(HalfAt(14), Selections(14), HalfAt(16))
  {
  }

  lemma Picked15()
    ensures EightEntries(HalfAt(16), KeyGroups(15), Entries(15))
  {
  }

  lemma Front15()
    ensures FourFound(Entries(15), Selections(15), 0)
  {
  }

  lemma Back15()
    ensures FourFound(Entries(15), Selections(15), 4)
  {
  }

  lemma Mixed15()
    ensures EightMixed(HalfAt(15), Selections(15), HalfAt(17))
  {
  }

  lemma PickedEarly(i: nat)
    requires i < 8
    ensures EightEntries(HalfAt(i + 1), KeyGroups(i), Entries(i))
  {
    match i
    case 0 => Picked0();
    case 1 => Picked1();
    case 2 => Picked2();
    case 3 => Picked3();
    case 4 => Picked4();
    case 5 => Picked5();
    case 6 => Picked6();
    case _ => Picked7();
  }

  lemma PickedLate(i: nat)
    requires 8 <= i < 16
    ensures EightEntries(HalfAt(i + 1), KeyGroups(i), Entries(i))
  {
    match i
    case 8 => Picked8();
    case 9 => Picked9();
    case 10 => Picked10();
    case 11 => Picked11();
    case 12 => Picked12();
    case 13 => Picked13();
    case 14 => Picked14();
    case _ => Picked15();
  }

  lemma FrontFact(i: nat)
    requires i < 16
    ensures FourFound(Entries(i), Selections(i), 0)
  {
    match i
    case 0 => Front0();
    case 1 => Front1();
    case 2 => Front2();
    case 3 => Front3();
    case 4 => Front4();
    case 5 => Front5();
    case 6 => Front6();
    case 7 => Front7();
    case 8 => Front8();
    case 9 => Front9();
    case 10 => Front10();
    case 11 => Front11();
    case 12 => Front12();
    case 13 => Front13();
    case 14 => Front14();
    case _ => Front15();
  }

  lemma BackFact(i: nat)
    requires i < 16
    ensures FourFound(Entries(i), Selections(i), 4)
  {
    match i
    case 0 => Back0();
    case 1 => Back1();
    case 2 => Back2();
    case 3 => Back3();
    case 4 => Back4();
    case 5 => Back5();
    case 6 => Back6();
    case 7 => Back7();
    case 8 => Back8();
    case 9 => Back9();
    case 10 => Back10();
    case 11 => Back11();
    case 12 => Back12();
    case 13 => Back13();
    case 14 => Back14();
    case _ => Back15();
  }

  lemma MixedFact(i: nat)
    requires i < 16
    ensures EightMixed(HalfAt(i), Selections(i), HalfAt(i + 2))
  {
    match i
    case 0 => Mixed0();
    case 1 => Mixed1();
    case 2 => Mixed2();
    case 3 => Mixed3();
    case 4 => Mixed4();
    case 5 => Mixed5();
    case 6 => Mixed6();
    case 7 => Mixed7();
    case 8 => Mixed8();
    case 9 => Mixed9();
    case 10 => Mixed10();
    case 11 => Mixed11();
    case 12 => Mixed12();
    case 13 => Mixed13();
    case 14 => Mixed14();
    case _ => Mixed15();
  }

  lemma RoundIs(e: Selector, key: Key, h: Halves, i: nat)
    requires Expands(e) && i < 16 && Six(key, KeyGroups(i)) && Are(h, HalfAt(i), HalfAt(i + 1))
    ensures Are(Round(e, key, h), HalfAt(i + 1), HalfAt(i + 2))
  {
    if i < 8 {
      PickedEarly(i);
    } else {
      PickedLate(i);
    }
    FrontFact(i);
    BackFact(i);
    MixedFact(i);
    RoundFrom(e, key, h, KeyGroups(i), HalfAt(i), HalfAt(i + 1), Entries(i), Selections(i), HalfAt(i + 2));
  }

  lemma OneRound(e: Selector, ks: seq<Key>, h: Halves, i: nat)
    requires Expands(e) && |ks| == 16 && i < 16 && Six(ks[i], KeyGroups(i))
    requires Are(Rounds(e, ks[..i], h), HalfAt(i), HalfAt(i + 1))
    ensures Are(Rounds(e, ks[..i + 1], h), HalfAt(i + 1), HalfAt(i + 2))
  {
    RoundsNext(e, ks, i, h);
    RoundIs(e, ks[i], Rounds(e, ks[..i], h), i);
  }

  ghost predicate KeyIs(ks: seq<Key>, i: nat) {
    i < |ks| ==> Six(ks[i], KeyGroups(i))
  }

  /** The halves after the first n rounds. */
  lemma {:induction false} RoundsAre(e: Selector, ks: seq<Key>, h: Halves, n: nat)
    requires Expands(e) && |ks| == 16 && n <= 16 && Are(h, HalfAt(0), HalfAt(1))
    requires forall i: nat :: KeyIs(ks, i)
    ensures Are(Rounds(e, ks[..n], h), HalfAt(n), HalfAt(n + 1))
    decreases n
  {
    if n == 0 {
      assert Rounds(e, ks[..0], h) == h;
    } else {
      RoundsAre(e, ks, h, n - 1);
      assert KeyIs(ks, n - 1);
      OneRound(e, ks, h, n - 1);
    }
  }

  lemma HalvesOfBlock(b: Block)
    requires Hex(b, BlockDigits())
    ensures Are(Permuted(b), HalfAt(0), HalfAt(1))
  {
    LeftIs(b, BlockDigits());
    RightIs(b, BlockDigits());
  }

  lemma AnswerDigits(lr: seq<Nibble>)
    requires lr == HalfAt(17) + HalfAt(16)
    ensures LastDigits(lr, 0) + LastDigits(lr, 32) == Answer()
  {
    assert lr == [h0, hA, h4, hC, hD, h9, h9, h5,
                  h4, h3, h4, h2, h3, h2, h3, h4];
  }

  /** Enciphering the block gives the answer, and deciphering the answer gives the block. */
  lemma KnownAnswer()
    ensures var e, ks := Standard(), Schedule(Written(KeyDigits()));
            && Crypt(e, ks, Written(BlockDigits()), false) == Written(Answer())
            && Crypt(e, ks, Written(Answer()), true) == Written(BlockDigits())
  {
    StandardExpands();
    KnownRun(Written(KeyDigits()), Written(BlockDigits()), Standard());
  }

  lemma KnownRun(key: Block, b: Block, e: Selector)
    requires Hex(key, KeyDigits()) && Hex(b, BlockDigits()) && Expands(e)
    ensures Crypt(e, Schedule(key), b, false) == Written(Answer())
    ensures Crypt(e, Schedule(key), Written(Answer()), true) == b
  {
    var ks, h := Schedule(key), Permuted(b);
    forall i: nat ensures KeyIs(ks, i) {
      if i < 16 {
        KeysAre(key, i);
      }
    }
    HalvesOfBlock(b);
    RoundsAre(e, ks, h, 16);
    assert ks[..16] == ks;
    LastIs(Swap(Rounds(e, ks, h)), HalfAt(17), HalfAt(16));
    AnswerDigits(HalfAt(17) + HalfAt(16));
    WrittenOnce(Crypt(e, ks, b, false), Answer());
    CryptUndo(e, ks, b, false);
  }
}
