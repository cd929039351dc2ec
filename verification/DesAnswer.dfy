/** What the tables and steps of DesSpec come to, told without them: how a round and the key schedule act on hexadecimal
    digits, and the answer at the standard's well-known key and block. */
module DesAnswer {
  import opened DesTables
  import opened DesSpec

  // ------------------------------------------------------------ bits by digits

  // A hexadecimal digit, the highest bit first, and a six-bit group: a digit between two bits.
  datatype Nibble = Nibble(a: bool, b: bool, c: bool, d: bool)

  datatype Sextet = Sextet(first: bool, inner: Nibble, last: bool)

  function Value(b: bool): Bit {
    if b then 1 else 0
  }

  function BitOf(x: Nibble, q: nat): bool {
    if q == 0 then x.a else if q == 1 then x.b else if q == 2 then x.c else x.d
  }

  function SixthOf(x: Sextet, q: nat): bool {
    if q == 0 then x.first else if q == 5 then x.last else if q > 0 then BitOf(x.inner, q - 1) else false
  }

  /** 0 for equal bits and 1 for different ones. */
  function Differ(a: int, b: int): int {
    if a == b then 0 else 1
  }

  predicate HexAt(h: Bits, d: seq<Nibble>, n: nat, q: nat) {
    |h| == 4 * |d| && n < |d| && q < 4 ==> h[4 * n + q] == Value(BitOf(d[n], q))
  }

  /** h are the bits of the digits d. */
  ghost predicate Hex(h: Bits, d: seq<Nibble>) {
    |h| == 4 * |d| && forall n: nat, q: nat {:trigger HexAt(h, d, n, q)} :: HexAt(h, d, n, q)
  }

  predicate SixAt(h: Bits, d: seq<Sextet>, n: nat, q: nat) {
    |h| == 6 * |d| && n < |d| && q < 6 ==> h[6 * n + q] == Value(SixthOf(d[n], q))
  }

  /** h are the bits of the groups d. */
  ghost predicate Six(h: Bits, d: seq<Sextet>) {
    |h| == 6 * |d| && forall n: nat, q: nat {:trigger SixAt(h, d, n, q)} :: SixAt(h, d, n, q)
  }

  // ------------------------------------------------------------ expansion

  /** Group i takes bit c from where the standard's E does: four in a row, and one on either side. */
  predicate EAt(e: Selector, i: nat, c: nat)
    requires i < 8 && c < 6
  {
    e[6 * i + c] == (4 * i + c + 31) % 32 + 1
  }

  ghost predicate Expands(e: Selector) {
    forall i: nat, c: nat {:trigger EAt(e, i, c)} :: i < 8 && c < 6 ==> EAt(e, i, c)
  }

  /** The table E of crypt.c. */
  function Standard(): Selector {
    seq(48, k requires 0 <= k < 48 => E0At(k))
  }

  lemma EForm(i: nat, c: nat)
    requires i < 8 && c < 6
    ensures E0At(6 * i + c) == (4 * i + c + 31) % 32 + 1
  {
    assert (6 * i + c) / 6 == i && (6 * i + c) % 6 == c;
    assert E0[i][c] == (4 * i + c + 31) % 32 + 1;
  }

  lemma StandardExpands()
    ensures Expands(Standard())
  {
    forall i: nat, c: nat {:trigger EAt(Standard(), i, c)} | i < 8 && c < 6 ensures EAt(Standard(), i, c) {
      EForm(i, c);
    }
  }

  /** The digits beside digit i, around the end. */
  function Before(i: nat): (p: nat)
    ensures i < 8 ==> p < 8 && (4 * p + 3 == 4 * i - 1 || (i == 0 && p == 7))
  {
    if i == 0 then 7 else i - 1
  }

  function Behind(i: nat): (n: nat)
    ensures i < 8 ==> n < 8 && (4 * n == 4 * i + 4 || (i == 7 && n == 0))
  {
    if i == 7 then 0 else i + 1
  }

  predicate PreAt(pre: Key, e: Selector, h: Half, k: Key, j: nat) {
    j < 48 ==> pre[j] == Differ(h[e[j] - 1], k[j])
  }

  /** What goes into the selections. */
  ghost predicate Pre(pre: Key, e: Selector, h: Half, k: Key) {
    forall j: nat {:trigger PreAt(pre, e, h, k, j)} :: PreAt(pre, e, h, k, j)
  }

  lemma PreIs(e: Selector, h: Half, k: Key)
    ensures Pre(PreS(e, h, k), e, h, k)
  {
  }

  lemma GroupBit(e: Selector, h: Half, kk: Key, pre: Key, r: seq<Nibble>, k: seq<Sextet>,
                 i: nat, c: nat, n: nat, q: nat)
    requires Expands(e) && Pre(pre, e, h, kk) && |r| == |k| == 8 && Hex(h, r) && Six(kk, k)
    requires i < 8 && c < 6 && n < 8 && q < 4 && 4 * n + q == (4 * i + c + 31) % 32
    ensures pre[6 * i + c] == Weigh(BitOf(r[n], q), SixthOf(k[i], c), 1)
  {
    assert EAt(e, i, c) && PreAt(pre, e, h, kk, 6 * i + c) && HexAt(h, r, n, q) && SixAt(kk, k, i, c);
  }

  /** The weight w where two bits differ. */
  function Weigh(a: bool, b: bool, w: int): int {
    if a == b then 0 else w
  }

  /** The entry that group i picks, from the digits a, b, c of R around it and its six key bits. */
  function Entry(a: Nibble, b: Nibble, c: Nibble, k: Sextet): int {
    Weigh(a.d, k.first, 32) + Weigh(c.a, k.last, 16)
    + Weigh(b.a, k.inner.a, 8) + Weigh(b.b, k.inner.b, 4) + Weigh(b.c, k.inner.c, 2) + Weigh(b.d, k.inner.d, 1)
  }

  lemma IndexFrom(pre: Key, i: nat, a: Nibble, b: Nibble, c: Nibble, k: Sextet)
    requires i < 8 && pre[6 * i] == Weigh(a.d, k.first, 1) && pre[6 * i + 1] == Weigh(b.a, k.inner.a, 1)
    requires pre[6 * i + 2] == Weigh(b.b, k.inner.b, 1) && pre[6 * i + 3] == Weigh(b.c, k.inner.c, 1)
    requires pre[6 * i + 4] == Weigh(b.d, k.inner.d, 1) && pre[6 * i + 5] == Weigh(c.a, k.last, 1)
    ensures Index(pre, i) == Entry(a, b, c, k)
  {
  }

  lemma GroupEntry(e: Selector, h: Half, kk: Key, pre: Key, r: seq<Nibble>, k: seq<Sextet>, i: nat)
    requires Expands(e) && Pre(pre, e, h, kk) && |r| == |k| == 8 && Hex(h, r) && Six(kk, k) && i < 8
    ensures Index(pre, i) == Entry(r[Before(i)], r[i], r[Behind(i)], k[i])
  {
    GroupBit(e, h, kk, pre, r, k, i, 0, Before(i), 3);
    GroupBit(e, h, kk, pre, r, k, i, 1, i, 0);
    GroupBit(e, h, kk, pre, r, k, i, 2, i, 1);
    GroupBit(e, h, kk, pre, r, k, i, 3, i, 2);
    GroupBit(e, h, kk, pre, r, k, i, 4, i, 3);
    GroupBit(e, h, kk, pre, r, k, i, 5, Behind(i), 0);
    IndexFrom(pre, i, r[Before(i)], r[i], r[Behind(i)], k[i]);
  }

  // ------------------------------------------------------------ selection

  /** The row and the column that the six bits of group i name. */
  function Row(pre: Key, i: nat): int
    requires i < 8
  {
    var outer: int := pre[6 * i];
    2 * outer + pre[6 * i + 5]
  }

  function Column(pre: Key, i: nat): int
    requires i < 8
  {
    var b1: int, b2: int, b3: int := pre[6 * i + 1], pre[6 * i + 2], pre[6 * i + 3];
    8 * b1 + 4 * b2 + 2 * b3 + pre[6 * i + 4]
  }

  /** Selection function i takes the row from the outer two bits of its group and the column from the inner four. */
  lemma SelectionIs(pre: Key, i: nat)
    requires i < 8
    ensures 0 <= Row(pre, i) < 4 && 0 <= Column(pre, i) < 16
    ensures |S| == 8 && |S[i]| == 4 && |S[i][Row(pre, i)]| == 16
    ensures Sel(i, Index(pre, i)) == S[i][Row(pre, i)][Column(pre, i)]
  {
    RowColumn(Row(pre, i), Column(pre, i));
    assert Index(pre, i) == 16 * Row(pre, i) + Column(pre, i);
    SelSizes(i, Row(pre, i));
  }

  lemma RowColumn(row: nat, column: nat)
    requires row < 4 && column < 16
    ensures (16 * row + column) / 16 == row && (16 * row + column) % 16 == column
  {
  }

  lemma SelSizes(i: nat, row: nat)
    requires i < 8 && row < 4
    ensures |S| == 8 && |S[i]| == 4 && |S[i][row]| == 16
  {
  }

  function Number(v: Nibble): int {
    Weigh(v.a, false, 8) + Weigh(v.b, false, 4) + Weigh(v.c, false, 2) + Weigh(v.d, false, 1)
  }

  /** Selection i leaves v. */
  predicate Leaves(pre: Key, i: nat, v: Nibble)
    requires i < 8
  {
    Sel(i, Index(pre, i)) == Number(v)
  }

  lemma NumberBits(v: Nibble)
    ensures Number(v) / 8 % 2 == Value(v.a) && Number(v) / 4 % 2 == Value(v.b)
    ensures Number(v) / 2 % 2 == Value(v.c) && Number(v) % 2 == Value(v.d)
  {
  }

  lemma SelectedDigit(pre: Key, i: nat, q: nat, v: Nibble)
    requires i < 8 && q < 4 && Leaves(pre, i, v)
    ensures SelectedBit(pre, i, q) == Value(BitOf(v, q))
  {
    NumberBits(v);
  }

  // ------------------------------------------------------------ the permutation behind the selections

  // Where the four bits of each selection go, counted from 1.
  const PLACES: Table := [
    [9, 17, 23, 31],
    [13, 28, 2, 18],
    [24, 16, 30, 6],
    [26, 20, 10, 1],
    [8, 14, 25, 3],
    [4, 29, 11, 19],
    [32, 12, 22, 7],
    [5, 27, 15, 21]
  ]

  lemma PlaceIs(i: nat, q: nat)
    requires i < 8 && q < 4
    ensures |PLACES| == 8 && |PLACES[i]| == 4 && 1 <= PLACES[i][q] <= 32 && PAt(PLACES[i][q] - 1) == 4 * i + q + 1
  {
  }

  lemma SelectionSpread(pre: Key, i: nat, q: nat)
    requires i < 8 && q < 4
    ensures |PLACES| == 8 && |PLACES[i]| == 4 && 1 <= PLACES[i][q] <= 32
    ensures F(pre)[PLACES[i][q] - 1] == SelectedBit(pre, i, q)
  {
    PlaceIs(i, q);
    assert (4 * i + q) / 4 == i && (4 * i + q) % 4 == q;
  }

  predicate SpreadAt(f: Half, v: seq<Nibble>, p: seq<int>, j: nat, g: nat, t: nat)
    requires |v| == 8 && |p| == 32
  {
    j < 32 && g < 8 && t < 4 && p[j] == 4 * g + t + 1 ==> f[j] == Value(BitOf(v[g], t))
  }

  /** f is what the permutation p makes of the selections v. */
  ghost predicate Spread(f: Half, v: seq<Nibble>, p: seq<int>)
    requires |v| == 8 && |p| == 32
  {
    forall j: nat, g: nat, t: nat {:trigger SpreadAt(f, v, p, j, g, t)} :: SpreadAt(f, v, p, j, g, t)
  }

  function PEntries(): (p: seq<int>)
    ensures |p| == 32
  {
    seq(32, j requires 0 <= j < 32 => PAt(j))
  }

  lemma SpreadIs(pre: Key, v: seq<Nibble>)
    requires |v| == 8 && forall i: nat :: i < 8 ==> Leaves(pre, i, v[i])
    ensures Spread(F(pre), v, PEntries())
  {
    var f, p := F(pre), PEntries();
    forall j: nat, g: nat, t: nat {:trigger SpreadAt(f, v, p, j, g, t)} ensures SpreadAt(f, v, p, j, g, t) {
      if j < 32 && g < 8 && t < 4 && p[j] == 4 * g + t + 1 {
        assert (4 * g + t) / 4 == g && (4 * g + t) % 4 == t;
        SelectedDigit(pre, g, t, v[g]);
      }
    }
  }

  // ------------------------------------------------------------ a round on digits

  predicate EntryAt(r: seq<Nibble>, k: seq<Sextet>, x: seq<nat>, i: nat)
    requires |r| == |k| == |x| == 8
  {
    i < 8 ==> x[i] == Entry(r[Before(i)], r[i], r[Behind(i)], k[i])
  }

  /** With digits r of R and key groups k, the entries x are picked. */
  ghost predicate Picks(r: seq<Nibble>, k: seq<Sextet>, x: seq<nat>)
    requires |r| == |k| == |x| == 8
  {
    forall i: nat {:trigger EntryAt(r, k, x, i)} :: EntryAt(r, k, x, i)
  }

  predicate FoundAt(x: seq<nat>, v: seq<Nibble>, i: nat)
    requires |x| == |v| == 8
  {
    i < 8 ==> x[i] < 64 && Number(v[i]) == Sel(i, x[i])
  }

  /** The selection functions have v at the entries x. */
  ghost predicate Finds(x: seq<nat>, v: seq<Nibble>)
    requires |x| == |v| == 8
  {
    forall i: nat {:trigger FoundAt(x, v, i)} :: FoundAt(x, v, i)
  }

  lemma AllSelectedAs(e: Selector, h: Half, kk: Key, pre: Key, r: seq<Nibble>, k: seq<Sextet>, x: seq<nat>,
                      v: seq<Nibble>)
    requires Expands(e) && Pre(pre, e, h, kk) && |r| == |k| == |x| == |v| == 8 && Hex(h, r) && Six(kk, k)
    requires Picks(r, k, x) && Finds(x, v)
    ensures forall i: nat :: i < 8 ==> Leaves(pre, i, v[i])
  {
    forall i: nat | i < 8 ensures Leaves(pre, i, v[i]) {
      assert EntryAt(r, k, x, i) && FoundAt(x, v, i);
      GroupEntry(e, h, kk, pre, r, k, i);
    }
  }

  /** Digit n of the next half is d: digit l of L with the four bits of the selections v that P puts there. */
  predicate Mixes(n: nat, l: Nibble, v: seq<Nibble>, d: Nibble)
    requires |v| == 8
  {
    match n
    case 0 =>
      d == Nibble(l.a != v[3].d, l.b != v[1].c, l.c != v[4].d, l.d != v[5].a)
    case 1 =>
      d == Nibble(l.a != v[7].a, l.b != v[2].d, l.c != v[6].d, l.d != v[4].a)
    case 2 =>
      d == Nibble(l.a != v[0].a, l.b != v[3].c, l.c != v[5].c, l.d != v[6].b)
    case 3 =>
      d == Nibble(l.a != v[1].a, l.b != v[4].b, l.c != v[7].c, l.d != v[2].b)
    case 4 =>
      d == Nibble(l.a != v[0].b, l.b != v[1].d, l.c != v[5].d, l.d != v[3].b)
    case 5 =>
      d == Nibble(l.a != v[7].d, l.b != v[6].c, l.c != v[0].c, l.d != v[2].a)
    case 6 =>
      d == Nibble(l.a != v[4].c, l.b != v[3].a, l.c != v[7].b, l.d != v[1].b)
    case 7 =>
      d == Nibble(l.a != v[5].b, l.b != v[2].c, l.c != v[0].d, l.d != v[6].a)
    case _ => true
  }

  predicate MixesAt(l: seq<Nibble>, v: seq<Nibble>, next: seq<Nibble>, n: nat)
    requires |l| == 8 && |v| == 8 && |next| == 8
  {
    n < 8 ==> Mixes(n, l[n], v, next[n])
  }

  ghost predicate AllMixed(l: seq<Nibble>, v: seq<Nibble>, next: seq<Nibble>)
    requires |l| == 8 && |v| == 8 && |next| == 8
  {
    forall n: nat {:trigger MixesAt(l, v, next, n)} :: MixesAt(l, v, next, n)
  }

  predicate SumAt(x: Half, h: Half, f: Half, j: nat) {
    j < 32 ==> x[j] == Differ(h[j], f[j])
  }

  ghost predicate Sum(x: Half, h: Half, f: Half) {
    forall j: nat {:trigger SumAt(x, h, f, j)} :: SumAt(x, h, f, j)
  }

  lemma SumIs(h: Half, f: Half)
    ensures Sum(XorHalf(h, f), h, f)
  {
  }

  lemma MixBit(x: Half, h: Half, f: Half, l: seq<Nibble>, v: seq<Nibble>, p: seq<int>, n: nat,
               q: nat, g: nat, t: nat)
    requires |l| == |v| == 8 && |p| == 32 && Hex(h, l) && Spread(f, v, p) && Sum(x, h, f)
    requires n < 8 && q < 4 && g < 8 && t < 4
    requires p[4 * n + q] == 4 * g + t + 1
    ensures x[4 * n + q] == Value(BitOf(l[n], q) != BitOf(v[g], t))
  {
    assert SumAt(x, h, f, 4 * n + q) && HexAt(h, l, n, q) && SpreadAt(f, v, p, 4 * n + q, g, t);
  }

  lemma MixDigit(x: Half, h: Half, f: Half, l: seq<Nibble>, v: seq<Nibble>, p: seq<int>, n: nat, d: Nibble,
                 g0: nat, t0: nat, g1: nat, t1: nat, g2: nat, t2: nat, g3: nat, t3: nat)
    requires |l| == |v| == 8 && |p| == 32 && Hex(h, l) && Spread(f, v, p) && Sum(x, h, f) && n < 8
    requires g0 < 8 && g1 < 8 && g2 < 8 && g3 < 8 && t0 < 4 && t1 < 4 && t2 < 4 && t3 < 4
    requires p[4 * n] == 4 * g0 + t0 + 1 && p[4 * n + 1] == 4 * g1 + t1 + 1
    requires p[4 * n + 2] == 4 * g2 + t2 + 1 && p[4 * n + 3] == 4 * g3 + t3 + 1
    requires d == Nibble(l[n].a != BitOf(v[g0], t0), l[n].b != BitOf(v[g1], t1), l[n].c != BitOf(v[g2], t2),
                         l[n].d != BitOf(v[g3], t3))
    ensures DigitIs(x, n, d)
  {
    MixBit(x, h, f, l, v, p, n, 0, g0, t0);
    MixBit(x, h, f, l, v, p, n, 1, g1, t1);
    MixBit(x, h, f, l, v, p, n, 2, g2, t2);
    MixBit(x, h, f, l, v, p, n, 3, g3, t3);
  }

  /** x agrees with the digit d in the four places of digit n. */
  predicate DigitIs(x: Half, n: nat, d: Nibble)
    requires n < 8
  {
    && x[4 * n] == Value(d.a) && x[4 * n + 1] == Value(d.b) && x[4 * n + 2] == Value(d.c)
    && x[4 * n + 3] == Value(d.d)
  }

  /** The permutation P of crypt.c. */
  predicate StandardP(p: seq<int>)
    requires |p| == 32
  {
    && p[0] == 16 && p[1] == 7 && p[2] == 20 && p[3] == 21
    && p[4] == 29 && p[5] == 12 && p[6] == 28 && p[7] == 17
    && p[8] == 1 && p[9] == 15 && p[10] == 23 && p[11] == 26
    && p[12] == 5 && p[13] == 18 && p[14] == 31 && p[15] == 10
    && p[16] == 2 && p[17] == 8 && p[18] == 24 && p[19] == 14
    && p[20] == 32 && p[21] == 27 && p[22] == 3 && p[23] == 9
    && p[24] == 19 && p[25] == 13 && p[26] == 30 && p[27] == 6
    && p[28] == 22 && p[29] == 11 && p[30] == 4 && p[31] == 25
  }

  lemma PRows()
    ensures StandardP(PEntries())
  {
  }

  ghost predicate Mixing(x: Half, h: Half, f: Half, l: seq<Nibble>, v: seq<Nibble>, p: seq<int>)
    requires |v| == 8 && |p| == 32
  {
    Hex(h, l) && Spread(f, v, p) && Sum(x, h, f) && StandardP(p)
  }

  lemma MixEarly(x: Half, h: Half, f: Half, l: seq<Nibble>, v: seq<Nibble>, p: seq<int>, n: nat, d: Nibble)
    requires |l| == |v| == 8 && |p| == 32 && Mixing(x, h, f, l, v, p) && n < 4 && Mixes(n, l[n], v, d)
    ensures DigitIs(x, n, d)
  {
    match n
    case 0 => MixDigit(x, h, f, l, v, p, 0, d, 3, 3, 1, 2, 4, 3, 5, 0);
    case 1 => MixDigit(x, h, f, l, v, p, 1, d, 7, 0, 2, 3, 6, 3, 4, 0);
    case 2 => MixDigit(x, h, f, l, v, p, 2, d, 0, 0, 3, 2, 5, 2, 6, 1);
    case 3 => MixDigit(x, h, f, l, v, p, 3, d, 1, 0, 4, 1, 7, 2, 2, 1);
    case _ =>
  }

  lemma MixLate(x: Half, h: Half, f: Half, l: seq<Nibble>, v: seq<Nibble>, p: seq<int>, n: nat, d: Nibble)
    requires |l| == |v| == 8 && |p| == 32 && Mixing(x, h, f, l, v, p) && 4 <= n < 8 && Mixes(n, l[n], v, d)
    ensures DigitIs(x, n, d)
  {
    match n
    case 4 => MixDigit(x, h, f, l, v, p, 4, d, 0, 1, 1, 3, 5, 3, 3, 1);
    case 5 => MixDigit(x, h, f, l, v, p, 5, d, 7, 3, 6, 2, 0, 2, 2, 0);
    case 6 => MixDigit(x, h, f, l, v, p, 6, d, 4, 2, 3, 0, 7, 1, 1, 1);
    case 7 => MixDigit(x, h, f, l, v, p, 7, d, 5, 1, 2, 2, 0, 3, 6, 0);
    case _ =>
  }

  lemma DigitBit(x: Half, next: seq<Nibble>, n: nat, q: nat)
    requires |next| == 8 && n < 8 && DigitIs(x, n, next[n])
    ensures HexAt(x, next, n, q)
  {
  }

  lemma MixedHalf(x: Half, h: Half, f: Half, l: seq<Nibble>, v: seq<Nibble>, p: seq<int>, next: seq<Nibble>)
    requires |l| == |v| == |next| == 8 && |p| == 32 && StandardP(p)
    requires Hex(h, l) && Spread(f, v, p) && Sum(x, h, f) && AllMixed(l, v, next)
    ensures Hex(x, next)
  {
    forall n: nat, q: nat {:trigger HexAt(x, next, n, q)} ensures HexAt(x, next, n, q) {
      if n < 8 {
        assert MixesAt(l, v, next, n);
        if n < 4 {
          MixEarly(x, h, f, l, v, p, n, next[n]);
        } else {
          MixLate(x, h, f, l, v, p, n, next[n]);
        }
        DigitBit(x, next, n, q);
      }
    }
  }

  /** The halves are these digits. */
  ghost predicate Are(h: Halves, l: seq<Nibble>, r: seq<Nibble>) {
    Hex(h.l, l) && Hex(h.r, r)
  }

  /** A round on digits. */
  lemma RoundDigits(e: Selector, kk: Key, h: Halves, k: seq<Sextet>, l: seq<Nibble>, r: seq<Nibble>, x: seq<nat>,
                    v: seq<Nibble>, next: seq<Nibble>)
    requires Expands(e) && |l| == |r| == |k| == |x| == |v| == |next| == 8 && Six(kk, k) && Are(h, l, r)
    requires Picks(r, k, x) && Finds(x, v) && AllMixed(l, v, next)
    ensures Are(Round(e, kk, h), r, next)
  {
    var pre := PreS(e, h.r, kk);
    PreIs(e, h.r, kk);
    AllSelectedAs(e, h.r, kk, pre, r, k, x, v);
    SpreadIs(pre, v);
    SumIs(h.l, F(pre));
    PRows();
    MixedHalf(XorHalf(h.l, F(pre)), h.l, F(pre), l, v, PEntries(), next);
  }

  // ------------------------------------------------------------ the other steps on digits

  /** Place p of the bits of d. */
  function At(d: seq<Nibble>, p: int): bool {
    if 0 <= p < 4 * |d| then BitOf(d[p / 4], p % 4) else false
  }

  lemma PlaceAt(h: Bits, d: seq<Nibble>, p: nat)
    requires Hex(h, d) && p < |h|
    ensures h[p] == Value(At(d, p))
  {
    assert HexAt(h, d, p / 4, p % 4);
  }

  /** The bits of the digits d, one after another. */
  function Written(d: seq<Nibble>): (h: Bits)
    ensures |h| == 4 * |d| && Hex(h, d)
  {
    var h: Bits := seq(4 * |d|, j requires 0 <= j < 4 * |d| => Value(At(d, j)));
    WrittenIs(h, d);
    h
  }

  lemma WrittenIs(h: Bits, d: seq<Nibble>)
    requires |h| == 4 * |d| && forall j :: 0 <= j < |h| ==> h[j] == Value(At(d, j))
    ensures Hex(h, d)
  {
    forall n: nat, q: nat {:trigger HexAt(h, d, n, q)} ensures HexAt(h, d, n, q) {
      if n < |d| && q < 4 {
        assert (4 * n + q) / 4 == n && (4 * n + q) % 4 == q;
      }
    }
  }

  lemma WrittenOnce(h: Bits, d: seq<Nibble>)
    requires Hex(h, d)
    ensures h == Written(d)
  {
    forall j | 0 <= j < |h| ensures h[j] == Written(d)[j] {
      PlaceAt(h, d, j);
      PlaceAt(Written(d), d, j);
    }
  }

  /** One rotation of 28 bits. */
  function Turned(c: seq<Nibble>): seq<Nibble>
    requires |c| == 7
  {
    [TurnedDigit(c[0], c[1]), TurnedDigit(c[1], c[2]), TurnedDigit(c[2], c[3]), TurnedDigit(c[3], c[4]),
     TurnedDigit(c[4], c[5]), TurnedDigit(c[5], c[6]), TurnedDigit(c[6], c[0])]
  }

  function TurnedDigit(x: Nibble, y: Nibble): Nibble {
    Nibble(x.b, x.c, x.d, y.a)
  }

  lemma TurnedAt(c: seq<Nibble>, n: nat)
    requires |c| == 7 && n < 7
    ensures Turned(c)[n] == TurnedDigit(c[n], c[if n < 6 then n + 1 else 0])
  {
  }

  lemma TurnedIs(x: Bits, c: seq<Nibble>)
    requires |c| == 7 && Hex(x, c)
    ensures Hex(Rotated(x), Turned(c))
  {
    var y, t := Rotated(x), Turned(c);
    forall n: nat, q: nat {:trigger HexAt(y, t, n, q)} ensures HexAt(y, t, n, q) {
      if n < 7 && q < 4 {
        var j := 4 * n + q;
        TurnedAt(c, n);
        assert y[j] == x[if j < 27 then j + 1 else 0];
        assert HexAt(x, c, n, q + 1) && HexAt(x, c, if n < 6 then n + 1 else 0, 0);
      }
    }
  }

  // Digit or group of what a table picks, beginning with its entry j.

  function Digit(b: seq<Nibble>, p0: int, p1: int, p2: int, p3: int): Nibble {
    Nibble(At(b, p0 - 1), At(b, p1 - 1), At(b, p2 - 1), At(b, p3 - 1))
  }

  function IpDigit(b: seq<Nibble>, j: nat): Nibble
    requires j + 3 < 64
  {
    Digit(b, Ip(j), Ip(j + 1), Ip(j + 2), Ip(j + 3))
  }

  function FpDigit(lr: seq<Nibble>, j: nat): Nibble
    requires j + 3 < 64
  {
    Digit(lr, Fp(j), Fp(j + 1), Fp(j + 2), Fp(j + 3))
  }

  function CDigit(key: seq<Nibble>, j: nat): Nibble
    requires j + 3 < 28
  {
    Digit(key, Pc1C(j), Pc1C(j + 1), Pc1C(j + 2), Pc1C(j + 3))
  }

  function DDigit(key: seq<Nibble>, j: nat): Nibble
    requires j + 3 < 28
  {
    Digit(key, Pc1D(j), Pc1D(j + 1), Pc1D(j + 2), Pc1D(j + 3))
  }

  function Group(c: seq<Nibble>, p0: int, p1: int, p2: int, p3: int, p4: int, p5: int): Sextet {
    Sextet(At(c, p0 - 1), Digit(c, p1, p2, p3, p4), At(c, p5 - 1))
  }

  function CGroup(c: seq<Nibble>, j: nat): Sextet
    requires j + 5 < 24
  {
    Group(c, Pc2C(j), Pc2C(j + 1), Pc2C(j + 2), Pc2C(j + 3), Pc2C(j + 4), Pc2C(j + 5))
  }

  function DGroup(d: seq<Nibble>, j: nat): Sextet
    requires j + 5 < 24
  {
    Group(d, Pc2D(j) - 28, Pc2D(j + 1) - 28, Pc2D(j + 2) - 28, Pc2D(j + 3) - 28, Pc2D(j + 4) - 28, Pc2D(j + 5) - 28)
  }

  // ... and all of them.

  function LeftDigits(b: seq<Nibble>): seq<Nibble> {
    [IpDigit(b, 0), IpDigit(b, 4), IpDigit(b, 8), IpDigit(b, 12),
     IpDigit(b, 16), IpDigit(b, 20), IpDigit(b, 24), IpDigit(b, 28)]
  }

  function RightDigits(b: seq<Nibble>): seq<Nibble> {
    [IpDigit(b, 32), IpDigit(b, 36), IpDigit(b, 40), IpDigit(b, 44),
     IpDigit(b, 48), IpDigit(b, 52), IpDigit(b, 56), IpDigit(b, 60)]
  }

  function LastDigits(lr: seq<Nibble>, from: nat): seq<Nibble>
    requires from <= 32
  {
    [FpDigit(lr, from), FpDigit(lr, from + 4), FpDigit(lr, from + 8), FpDigit(lr, from + 12),
     FpDigit(lr, from + 16), FpDigit(lr, from + 20), FpDigit(lr, from + 24), FpDigit(lr, from + 28)]
  }

  function CDigits(key: seq<Nibble>): seq<Nibble> {
    [CDigit(key, 0), CDigit(key, 4), CDigit(key, 8), CDigit(key, 12), CDigit(key, 16), CDigit(key, 20),
     CDigit(key, 24)]
  }

  function DDigits(key: seq<Nibble>): seq<Nibble> {
    [DDigit(key, 0), DDigit(key, 4), DDigit(key, 8), DDigit(key, 12), DDigit(key, 16), DDigit(key, 20),
     DDigit(key, 24)]
  }

  predicate MoveAt(x: Bits, y: Bits, t: seq<int>, j: nat) {
    |x| == |t| && j < |t| ==> 1 <= t[j] <= |y| && x[j] == y[t[j] - 1]
  }

  /** x are the bits of y that the table t picks. */
  ghost predicate Moves(x: Bits, y: Bits, t: seq<int>) {
    |x| == |t| && forall j: nat {:trigger MoveAt(x, y, t, j)} :: MoveAt(x, y, t, j)
  }

  predicate DigitAt(b: seq<Nibble>, d: seq<Nibble>, t: seq<int>, n: nat) {
    |t| == 4 * |d| && n < |d| ==> d[n] == Digit(b, t[4 * n], t[4 * n + 1], t[4 * n + 2], t[4 * n + 3])
  }

  lemma MovedDigits(x: Bits, y: Bits, b: seq<Nibble>, d: seq<Nibble>, t: seq<int>)
    requires Hex(y, b) && |t| == 4 * |d| && Moves(x, y, t)
    requires forall n: nat {:trigger DigitAt(b, d, t, n)} :: DigitAt(b, d, t, n)
    ensures Hex(x, d)
  {
    forall n: nat, q: nat {:trigger HexAt(x, d, n, q)} ensures HexAt(x, d, n, q) {
      if n < |d| && q < 4 {
        assert DigitAt(b, d, t, n) && MoveAt(x, y, t, 4 * n + q);
        PlaceAt(y, b, t[4 * n + q] - 1);
      }
    }
  }

  predicate GroupAt(b: seq<Nibble>, d: seq<Sextet>, t: seq<int>, n: nat) {
    |t| == 6 * |d| && n < |d| ==>
      d[n] == Group(b, t[6 * n], t[6 * n + 1], t[6 * n + 2], t[6 * n + 3], t[6 * n + 4], t[6 * n + 5])
  }

  lemma MovedGroups(x: Bits, y: Bits, b: seq<Nibble>, d: seq<Sextet>, t: seq<int>)
    requires Hex(y, b) && |t| == 6 * |d| && Moves(x, y, t)
    requires forall n: nat {:trigger GroupAt(b, d, t, n)} :: GroupAt(b, d, t, n)
    ensures Six(x, d)
  {
    forall n: nat, q: nat {:trigger SixAt(x, d, n, q)} ensures SixAt(x, d, n, q) {
      if n < |d| && q < 6 {
        assert GroupAt(b, d, t, n) && MoveAt(x, y, t, 6 * n + q);
        PlaceAt(y, b, t[6 * n + q] - 1);
      }
    }
  }

  lemma SevenDigits(b: seq<Nibble>, d: seq<Nibble>, t: seq<int>)
    requires |d| == 7 && |t| == 28
    requires d[0] == Digit(b, t[0], t[1], t[2], t[3]) && d[1] == Digit(b, t[4], t[5], t[6], t[7])
    requires d[2] == Digit(b, t[8], t[9], t[10], t[11]) && d[3] == Digit(b, t[12], t[13], t[14], t[15])
    requires d[4] == Digit(b, t[16], t[17], t[18], t[19]) && d[5] == Digit(b, t[20], t[21], t[22], t[23])
    requires d[6] == Digit(b, t[24], t[25], t[26], t[27])
    ensures forall n: nat {:trigger DigitAt(b, d, t, n)} :: DigitAt(b, d, t, n)
  {
    forall n: nat ensures DigitAt(b, d, t, n) {
      if n < 7 {
        assert n == 0 || n == 1 || n == 2 || n == 3 || n == 4 || n == 5 || n == 6;
      }
    }
  }

  lemma EightDigits(b: seq<Nibble>, d: seq<Nibble>, t: seq<int>)
    requires |d| == 8 && |t| == 32
    requires d[0] == Digit(b, t[0], t[1], t[2], t[3]) && d[1] == Digit(b, t[4], t[5], t[6], t[7])
    requires d[2] == Digit(b, t[8], t[9], t[10], t[11]) && d[3] == Digit(b, t[12], t[13], t[14], t[15])
    requires d[4] == Digit(b, t[16], t[17], t[18], t[19]) && d[5] == Digit(b, t[20], t[21], t[22], t[23])
    requires d[6] == Digit(b, t[24], t[25], t[26], t[27]) && d[7] == Digit(b, t[28], t[29], t[30], t[31])
    ensures forall n: nat {:trigger DigitAt(b, d, t, n)} :: DigitAt(b, d, t, n)
  {
    forall n: nat ensures DigitAt(b, d, t, n) {
      if n < 8 {
        assert n == 0 || n == 1 || n == 2 || n == 3 || n == 4 || n == 5 || n == 6 || n == 7;
      }
    }
  }

  lemma FourGroups(b: seq<Nibble>, d: seq<Sextet>, t: seq<int>)
    requires |d| == 4 && |t| == 24
    requires d[0] == Group(b, t[0], t[1], t[2], t[3], t[4], t[5])
    requires d[1] == Group(b, t[6], t[7], t[8], t[9], t[10], t[11])
    requires d[2] == Group(b, t[12], t[13], t[14], t[15], t[16], t[17])
    requires d[3] == Group(b, t[18], t[19], t[20], t[21], t[22], t[23])
    ensures forall n: nat {:trigger GroupAt(b, d, t, n)} :: GroupAt(b, d, t, n)
  {
    forall n: nat ensures GroupAt(b, d, t, n) {
      if n < 4 {
        assert n == 0 || n == 1 || n == 2 || n == 3;
      }
    }
  }

  // The tables as sequences.

  function IpEntries(from: nat): (t: seq<int>)
    requires from <= 32
  {
    seq(32, j requires 0 <= j < 32 => Ip(from + j))
  }

  function FpEntries(from: nat): (t: seq<int>)
    requires from <= 32
  {
    seq(32, j requires 0 <= j < 32 => Fp(from + j))
  }

  function Pc1CEntries(): (t: seq<int>) {
    seq(28, j requires 0 <= j < 28 => Pc1C(j))
  }

  function Pc1DEntries(): (t: seq<int>) {
    seq(28, j requires 0 <= j < 28 => Pc1D(j))
  }

  function Pc2CEntries(): (t: seq<int>) {
    seq(24, j requires 0 <= j < 24 => Pc2C(j))
  }

  function Pc2DEntries(): (t: seq<int>) {
    seq(24, j requires 0 <= j < 24 => Pc2D(j) - 28)
  }

  lemma LeftIs(b: Block, db: seq<Nibble>)
    requires Hex(b, db)
    ensures Hex(Permuted(b).l, LeftDigits(db))
  {
    var t := IpEntries(0);
    EightDigits(db, LeftDigits(db), t);
    LeftMoves(b);
    MovedDigits(Permuted(b).l, b, db, LeftDigits(db), t);
  }

  lemma LeftMoves(b: Block)
    ensures Moves(Permuted(b).l, b, IpEntries(0))
  {
  }

  lemma RightIs(b: Block, db: seq<Nibble>)
    requires Hex(b, db)
    ensures Hex(Permuted(b).r, RightDigits(db))
  {
    var t := IpEntries(32);
    EightDigits(db, RightDigits(db), t);
    RightMoves(b);
    MovedDigits(Permuted(b).r, b, db, RightDigits(db), t);
  }

  lemma RightMoves(b: Block)
    ensures Moves(Permuted(b).r, b, IpEntries(32))
  {
  }

  lemma LastIs(h: Halves, l: seq<Nibble>, r: seq<Nibble>)
    requires Are(h, l, r) && |l| == |r| == 8
    ensures Hex(Unpermuted(h), LastDigits(l + r, 0) + LastDigits(l + r, 32))
  {
    var x, lr := Unpermuted(h), l + r;
    Joined(h.l, h.r, l, r);
    EightDigits(lr, LastDigits(lr, 0), FpEntries(0));
    EightDigits(lr, LastDigits(lr, 32), FpEntries(32));
    LastMoves(h);
    MovedDigits(x[..32], h.l + h.r, lr, LastDigits(lr, 0), FpEntries(0));
    MovedDigits(x[32..], h.l + h.r, lr, LastDigits(lr, 32), FpEntries(32));
    Joined(x[..32], x[32..], LastDigits(lr, 0), LastDigits(lr, 32));
    assert x[..32] + x[32..] == x;
  }

  lemma LastMoves(h: Halves)
    ensures Moves(Unpermuted(h)[..32], h.l + h.r, FpEntries(0))
    ensures Moves(Unpermuted(h)[32..], h.l + h.r, FpEntries(32))
  {
  }

  lemma Joined(x: Bits, y: Bits, dx: seq<Nibble>, dy: seq<Nibble>)
    requires Hex(x, dx) && Hex(y, dy)
    ensures Hex(x + y, dx + dy)
  {
    var z, d := x + y, dx + dy;
    forall n: nat, q: nat {:trigger HexAt(z, d, n, q)} ensures HexAt(z, d, n, q) {
      if n < |dx| {
        assert HexAt(x, dx, n, q);
      } else {
        assert HexAt(y, dy, n - |dx|, q);
      }
    }
  }

  lemma CIs(key: Block, dk: seq<Nibble>)
    requires Hex(key, dk)
    ensures Hex(KeyC(key), CDigits(dk))
  {
    SevenDigits(dk, CDigits(dk), Pc1CEntries());
    CMoves(key);
    MovedDigits(KeyC(key), key, dk, CDigits(dk), Pc1CEntries());
  }

  lemma CMoves(key: Block)
    ensures Moves(KeyC(key), key, Pc1CEntries())
  {
  }

  lemma DIs(key: Block, dk: seq<Nibble>)
    requires Hex(key, dk)
    ensures Hex(KeyD(key), DDigits(dk))
  {
    SevenDigits(dk, DDigits(dk), Pc1DEntries());
    DMoves(key);
    MovedDigits(KeyD(key), key, dk, DDigits(dk), Pc1DEntries());
  }

  lemma DMoves(key: Block)
    ensures Moves(KeyD(key), key, Pc1DEntries())
  {
  }

  lemma PickedMoves(x: Bits, y: Bits)
    requires |x| == |y| == 28
    ensures Moves(Picked(x, y)[..24], x, Pc2CEntries()) && Moves(Picked(x, y)[24..], y, Pc2DEntries())
  {
  }

  function CGroups(c: seq<Nibble>): seq<Sextet> {
    [CGroup(c, 0), CGroup(c, 6), CGroup(c, 12), CGroup(c, 18)]
  }

  function DGroups(d: seq<Nibble>): seq<Sextet> {
    [DGroup(d, 0), DGroup(d, 6), DGroup(d, 12), DGroup(d, 18)]
  }

  lemma CGroupsAre(x: Bits, y: Bits, c: seq<Nibble>)
    requires Hex(x, c) && |c| == 7 && |y| == 28
    ensures Six(Picked(x, y)[..24], CGroups(c))
  {
    FourGroups(c, CGroups(c), Pc2CEntries());
    PickedMoves(x, y);
    MovedGroups(Picked(x, y)[..24], x, c, CGroups(c), Pc2CEntries());
  }

  lemma DGroupsAre(x: Bits, y: Bits, d: seq<Nibble>)
    requires |x| == 28 && Hex(y, d) && |d| == 7
    ensures Six(Picked(x, y)[24..], DGroups(d))
  {
    FourGroups(d, DGroups(d), Pc2DEntries());
    PickedMoves(x, y);
    MovedGroups(Picked(x, y)[24..], y, d, DGroups(d), Pc2DEntries());
  }

  /** The groups of a key, place by place. */
  function GroupsOf(c: seq<Nibble>, d: seq<Nibble>): (k: seq<Sextet>)
    requires |c| == |d| == 7
    ensures |k| == 8
  {
    [Sextet(c[3].b, Nibble(c[4].a, c[2].c, c[5].d, c[0].a), c[1].a),
     Sextet(c[0].c, Nibble(c[6].d, c[3].c, c[1].b, c[5].a), c[2].b),
     Sextet(c[5].c, Nibble(c[4].c, c[2].d, c[0].d, c[6].b), c[1].d),
     Sextet(c[3].d, Nibble(c[1].c, c[6].c, c[4].d, c[3].a), c[0].b),
     Sextet(d[3].a, Nibble(d[5].d, d[0].c, d[2].a, d[4].c), d[6].c),
     Sextet(d[0].b, Nibble(d[2].d, d[5].c, d[4].a, d[1].a), d[4].d),
     Sextet(d[3].d, Nibble(d[5].a, d[2].c, d[6].d, d[1].b), d[6].a),
     Sextet(d[4].b, Nibble(d[3].b, d[5].b, d[1].d, d[0].a), d[0].d)]
  }

  lemma CFront(c: seq<Nibble>, d: seq<Nibble>)
    requires |c| == |d| == 7
    ensures GroupsOf(c, d)[0] == CGroup(c, 0) && GroupsOf(c, d)[1] == CGroup(c, 6)
  {
  }

  lemma CBack(c: seq<Nibble>, d: seq<Nibble>)
    requires |c| == |d| == 7
    ensures GroupsOf(c, d)[2] == CGroup(c, 12) && GroupsOf(c, d)[3] == CGroup(c, 18)
  {
  }

  lemma DFront(c: seq<Nibble>, d: seq<Nibble>)
    requires |c| == |d| == 7
    ensures GroupsOf(c, d)[4] == DGroup(d, 0) && GroupsOf(c, d)[5] == DGroup(d, 6)
  {
  }

  lemma DBack(c: seq<Nibble>, d: seq<Nibble>)
    requires |c| == |d| == 7
    ensures GroupsOf(c, d)[6] == DGroup(d, 12) && GroupsOf(c, d)[7] == DGroup(d, 18)
  {
  }

  lemma FourAndFour(c: seq<Nibble>, d: seq<Nibble>, k: seq<Sextet>)
    requires |k| == 8 && k[0] == CGroup(c, 0) && k[1] == CGroup(c, 6) && k[2] == CGroup(c, 12) && k[3] == CGroup(c, 18)
    requires k[4] == DGroup(d, 0) && k[5] == DGroup(d, 6) && k[6] == DGroup(d, 12) && k[7] == DGroup(d, 18)
    ensures CGroups(c) + DGroups(d) == k
  {
  }

  lemma GroupsAre(x: Bits, y: Bits, c: seq<Nibble>, d: seq<Nibble>)
    requires Hex(x, c) && Hex(y, d) && |c| == |d| == 7
    ensures Six(Picked(x, y), GroupsOf(c, d))
  {
    CFront(c, d);
    CBack(c, d);
    DFront(c, d);
    DBack(c, d);
    FourAndFour(c, d, GroupsOf(c, d));
    CGroupsAre(x, y, c);
    DGroupsAre(x, y, d);
    BothGroups(Picked(x, y), CGroups(c), DGroups(d));
  }

  lemma BothGroups(k: Bits, front: seq<Sextet>, back: seq<Sextet>)
    requires |k| == 48 && |front| == |back| == 4 && Six(k[..24], front) && Six(k[24..], back)
    ensures Six(k, front + back)
  {
    var d := front + back;
    forall n: nat, q: nat {:trigger SixAt(k, d, n, q)} ensures SixAt(k, d, n, q) {
      if n < 4 && q < 6 {
        assert SixAt(k[..24], front, n, q);
        assert k[6 * n + q] == k[..24][6 * n + q];
      } else if n < 8 && q < 6 {
        assert SixAt(k[24..], back, n - 4, q);
        assert k[6 * n + q] == k[24..][6 * (n - 4) + q];
      }
    }
  }

  // ------------------------------------------------------------ rotations

  lemma {:induction false} RotationsAt(c: Bits, n: nat, j: nat)
    requires |c| == 28 && j < 28
    ensures Rotations(c, n)[j] == c[(j + n) % 28]
  {
    if n > 0 {
      var before := Rotations(c, n - 1);
      assert Rotated(before)[j] == before[if j < 27 then j + 1 else 0];
      RotationsAt(c, n - 1, if j < 27 then j + 1 else 0);
    }
  }

  lemma TurnsAre()
    ensures Turns(0) == 1 && Turns(1) == 2 && Turns(2) == 4 && Turns(3) == 6 && Turns(4) == 8 && Turns(5) == 10
    ensures Turns(6) == 12 && Turns(7) == 14 && Turns(8) == 15 && Turns(9) == 17 && Turns(10) == 19
    ensures Turns(11) == 21 && Turns(12) == 23 && Turns(13) == 25 && Turns(14) == 27 && Turns(15) == 28
  {
  }

  /** After the sixteen keys each half has turned 28 times and is what it was. */
  lemma FullTurn(c: Bits)
    requires |c| == 28
    ensures Turns(15) == 28 && Rotations(c, Turns(15)) == c
  {
    TurnsAre();
    forall j: nat | j < 28 ensures Rotations(c, 28)[j] == c[j] {
      RotationsAt(c, 28, j);
    }
  }

  /** Every row of every selection function is a permutation of 0 to 15. */
  lemma RowsPermute(i: nat, row: nat, v: nat)
    requires i < 8 && row < 4 && v < 16
    ensures |S| == 8 && |S[i]| == 4 && |S[i][row]| == 16 && v in S[i][row]
  {
  }
}
