/** software/libs/libm68/rand.c: the linear congruential generator x -> A*x + C mod 2^32, its 16-bit
    partial-product multiply and its range reduction. */
module Rand {
  import opened Arithmetic

  const M: nat := 0x1_0000_0000
  const H: nat := 0x1_0000
  const A_RAN: nat := 3332264781
  const C_RAN: nat := 907633385

  type Word = x: int | 0 <= x < M

  function Next(x: Word): Word {
    (A_RAN * x + C_RAN) % M
  }

  function Steps(x: Word, n: nat): Word {
    if n == 0 then x else Next(Steps(x, n - 1))
  }

  /** The multiplier has the bits that were chosen and ends with 101. The increment is odd, and Y, which is
      M * (1 - 1 / sqrt(3)) / 2, lies from it to the next number, so that it is the odd number nearest to Y. */
  lemma Constants()
    ensures A_RAN == ((0xC6 * 256 + 0x9E) * 256 + 0x53) * 256 + 0x4D && A_RAN % 8 == 5
    ensures C_RAN % 2 == 1 && 2 * (C_RAN + 1) < M
    ensures 3 * (M - 2 * (C_RAN + 1)) * (M - 2 * (C_RAN + 1)) < M * M < 3 * (M - 2 * C_RAN) * (M - 2 * C_RAN)
  {
  }

  // ------------------------------------------------------------ powers of two

  lemma {:induction false} Pow2Sum(i: nat, j: nat)
    ensures Pow2(i + j) == Pow2(i) * Pow2(j)
  {
    if i > 0 {
      Pow2Sum(i - 1, j);
      TimesAssoc(2, Pow2(i - 1), Pow2(j));
    }
  }

  /** Divisibility by a power of two, one bit at a time. */
  predicate Divides2(k: nat, a: int) {
    k == 0 || (a % 2 == 0 && Divides2(k - 1, a / 2))
  }

  lemma {:induction false} Divides2IsMod(k: nat, a: int)
    ensures Divides2(k, a) <==> a % Pow2(k) == 0
  {
    if k > 0 {
      Divides2IsMod(k - 1, a / 2);
      HalveMod(a, Pow2(k - 1));
    }
  }

  lemma HalveMod(a: int, p: nat)
    requires p > 0
    ensures a % (2 * p) == 0 <==> a % 2 == 0 && (a / 2) % p == 0
  {
    var q := a / (2 * p);
    assert a == 2 * p * q + a % (2 * p);
    if a % (2 * p) == 0 {
      assert a == 2 * (p * q);
      MulMod(q, p);
    }
    if a % 2 == 0 && (a / 2) % p == 0 {
      var h := a / 2 / p;
      assert a / 2 == p * h;
      assert a == 2 * p * h by { assert 2 * (p * h) == 2 * p * h; }
      MulMod(h, 2 * p);
    }
  }

  lemma MulMod(q: int, p: nat)
    requires p > 0
    ensures (p * q) % p == 0 && (p * q) / p == q
  {
    DivUnique(p * q, p, q, 0);
  }

  lemma HalfOf(x: int, y: int)
    requires x == 2 * y
    ensures x / 2 == y && x % 2 == 0
  {
  }

  lemma DividesDouble(k: nat, x: int, y: int)
    requires k > 0 && x == 2 * y
    ensures Divides2(k, x) <==> Divides2(k - 1, y)
  {
    HalfOf(x, y);
  }

  /** An odd factor does not matter. */
  lemma {:induction false} OddFactor(k: nat, a: int, q: int)
    requires q % 2 == 1
    ensures Divides2(k, a * q) <==> Divides2(k, a)
  {
    if k > 0 {
      ParityMul(a, q);
      if a % 2 == 0 {
        EvenTimes(a, a / 2, q);
        HalfOf(a * q, a / 2 * q);
        OddFactor(k - 1, a / 2, q);
      }
    }
  }

  lemma ParityMul(a: int, b: int)
    ensures (a * b) % 2 == if a % 2 == 0 then 0 else b % 2
  {
    if a % 2 == 0 {
      EvenTimes(a, a / 2, b);
    } else {
      OddTimes(a, a / 2, b);
    }
  }

  lemma EvenTimes(a: int, i: int, b: int)
    requires a == 2 * i
    ensures a * b == 2 * (i * b) && (a * b) % 2 == 0
  {
    Doubled(i, b);
    SameParity(a * b, i * b, 0);
  }

  lemma OddTimes(a: int, i: int, b: int)
    requires a == 2 * i + 1
    ensures (a * b) % 2 == b % 2
  {
    assert a * b == (2 * i) * b + b;
    Doubled(i, b);
    SameParity(a * b, i * b, b);
  }

  lemma Doubled(b: int, x: int)
    ensures (2 * b) * x == 2 * (b * x)
  {
  }

  lemma SameParity(x: int, y: int, z: int)
    requires x == 2 * y + z
    ensures x % 2 == z % 2
  {
  }

  // ------------------------------------------------------------ full period

  /** 1 + a + ... + a^(n-1) */
  function Geo(a: nat, n: nat): nat {
    if n == 0 then 0 else 1 + a * Geo(a, n - 1)
  }

  lemma {:induction false} GeoSum(a: nat, m: nat, n: nat)
    requires a > 0
    ensures Geo(a, m + n) == Geo(a, m) + Geo(a, n) + (a - 1) * (Geo(a, m) * Geo(a, n))
  {
    if m > 0 {
      GeoSum(a, m - 1, n);
      var g, h := Geo(a, m - 1), Geo(a, n);
      assert Geo(a, m + n) == 1 + a * Geo(a, m - 1 + n);
      GeoAlgebra(a, g, h);
    } else {
      NoProduct(a - 1, Geo(a, n));
    }
  }

  lemma NoProduct(x: int, y: int)
    ensures x * (0 * y) == 0
  {
  }

  lemma GeoAlgebra(a: int, g: int, h: int)
    ensures 1 + a * (g + h + (a - 1) * (g * h)) == (1 + a * g) + h + (a - 1) * ((1 + a * g) * h)
  {
    var p := g * h;
    assert (1 + a * g) * h == h + a * p;
    assert a * (g + h + (a - 1) * p) == a * g + a * h + a * ((a - 1) * p);
    assert (a - 1) * (h + a * p) == (a - 1) * h + (a - 1) * (a * p);
    assert a * ((a - 1) * p) == (a - 1) * (a * p);
  }

  lemma NextParity(x: int, n: int)
    requires x % 2 == n % 2
    ensures (1 + x) % 2 == (n + 1) % 2
  {
  }

  lemma OddMul(a: int, b: int)
    requires a % 2 == 1
    ensures (a * b) % 2 == b % 2
  {
    ParityMul(a, b);
  }

  lemma {:induction false} GeoParity(a: nat, n: nat)
    requires a % 2 == 1
    ensures Geo(a, n) % 2 == n % 2
  {
    if n > 0 {
      var g := Geo(a, n - 1);
      GeoParity(a, n - 1);
      OddMul(a, g);
      NextParity(a * g, n - 1);
    }
  }

  /** Doubling the number of powers, for a = 1 mod 4, doubles the sum times an odd number. */
  lemma GeoDouble(a: nat, m: nat) returns (odd: nat)
    requires a % 4 == 1
    ensures odd % 2 == 1 && Geo(a, m + m) == 2 * (Geo(a, m) * odd)
  {
    var g, b := Geo(a, m), a / 4;
    GeoSum(a, m, m);
    DoubleAlgebra(b, g);
    odd := 1 + 2 * (b * g);
  }

  lemma DoubleAlgebra(b: nat, g: nat)
    ensures g + g + (4 * b) * (g * g) == 2 * (g * (1 + 2 * (b * g)))
  {
    var s := g * g;
    assert g * (1 + 2 * (b * g)) == g + 2 * (g * (b * g));
    assert g * (b * g) == b * s;
    assert (4 * b) * s == 4 * (b * s);
  }

  /** For a = 1 mod 4 the sum of n powers is divisible by the same powers of two as n. */
  lemma {:induction false} GeoDivides(a: nat, k: nat, n: nat)
    requires a % 4 == 1
    ensures Divides2(k, Geo(a, n)) <==> Divides2(k, n)
  {
    if k > 0 {
      if n % 2 == 0 {
        var m := n / 2;
        assert n == m + m;
        GeoDivides(a, k - 1, m);
        GeoEven(a, k, m, n);
      } else {
        GeoOdd(a, k, n);
      }
    }
  }

  lemma GeoEven(a: nat, k: nat, m: nat, n: nat)
    requires a % 4 == 1 && k > 0 && n == m + m && (Divides2(k - 1, Geo(a, m)) <==> Divides2(k - 1, m))
    ensures Divides2(k, Geo(a, n)) <==> Divides2(k, n)
  {
    var odd := GeoDouble(a, m);
    HalveBoth(k, Geo(a, n), n, Geo(a, m), odd, m);
  }

  lemma GeoOdd(a: nat, k: nat, n: nat)
    requires a % 4 == 1 && k > 0 && n % 2 == 1
    ensures !Divides2(k, Geo(a, n)) && !Divides2(k, n)
  {
    GeoParity(a, n);
    OddUndivided(k, Geo(a, n));
    OddUndivided(k, n);
  }

  lemma HalveBoth(k: nat, g: nat, n: nat, h: nat, odd: nat, m: nat)
    requires k > 0 && g == 2 * (h * odd) && n == 2 * m && odd % 2 == 1
    requires Divides2(k - 1, h) <==> Divides2(k - 1, m)
    ensures Divides2(k, g) <==> Divides2(k, n)
  {
    DividesDouble(k, g, h * odd);
    DividesDouble(k, n, m);
    OddFactor(k - 1, h, odd);
  }

  lemma OddUndivided(k: nat, x: int)
    requires k > 0 && x % 2 == 1
    ensures !Divides2(k, x)
  {
  }

  /** The n-th state before reduction. */
  function Raw(a: nat, c: nat, x: nat, n: nat): nat {
    if n == 0 then x else a * Raw(a, c, x, n - 1) + c
  }

  lemma {:induction false} RawClosed(a: nat, c: nat, x: nat, n: nat)
    requires a > 0
    ensures Raw(a, c, x, n) == x + Geo(a, n) * ((a - 1) * x + c)
  {
    var q := (a - 1) * x + c;
    if n > 0 {
      RawClosed(a, c, x, n - 1);
      RawAlgebra(a, c, x, Geo(a, n - 1), q);
    } else {
      NoProduct(1, q);
    }
  }

  lemma RawAlgebra(a: nat, c: nat, x: nat, g: nat, q: int)
    requires q == (a - 1) * x + c
    ensures a * (x + g * q) + c == x + (1 + a * g) * q
  {
    assert a * (x + g * q) == a * x + (a * g) * q;
    assert (1 + a * g) * q == q + (a * g) * q;
    assert a * x == x + (a - 1) * x;
  }

  lemma ModStep(a: nat, c: nat, x: nat)
    ensures (a * (x % M) + c) % M == (a * x + c) % M
  {
    var q := x / M;
    assert a * x == a * (x % M) + M * (a * q) by {
      assert x == x % M + M * q;
      assert a * (x % M + M * q) == a * (x % M) + a * (M * q);
      assert a * (M * q) == M * (a * q);
    }
    var y := a * (x % M) + c;
    DivUnique(y + M * (a * q), M, y / M + a * q, y % M);
  }

  lemma {:induction false} StepsIsRaw(x: Word, n: nat)
    ensures Steps(x, n) == Raw(A_RAN, C_RAN, x, n) % M
  {
    if n > 0 {
      StepsIsRaw(x, n - 1);
      ModStep(A_RAN, C_RAN, Raw(A_RAN, C_RAN, x, n - 1));
    }
  }

  lemma SameMod(x: Word, y: nat)
    requires x <= y
    ensures y % M == x <==> (y - x) % M == 0
  {
    var q := (y - x) / M;
    assert y - x == M * q + (y - x) % M;
    if (y - x) % M == 0 {
      DivUnique(y, M, q, x);
    }
    if y % M == x {
      assert y - x == M * (y / M);
      MulMod(y / M, M);
    }
  }

  lemma Pow2Word()
    ensures Pow2(32) == M
  {
    assert Pow2(8) == 256;
    Pow2Sum(16, 16);
    Pow2Sum(8, 8);
  }

  /** Without reduction, the n-th state differs from the seed by a multiple of 2^32 only for such n. */
  lemma RawPeriod(a: nat, c: nat, x: nat, n: nat)
    requires a % 4 == 1 && c % 2 == 1
    ensures Raw(a, c, x, n) >= x
    ensures (Raw(a, c, x, n) - x) % M == 0 <==> n % M == 0
  {
    var q := OddOffset(a, c, x);
    RawClosed(a, c, x, n);
    GeoDivides(a, 32, n);
    WordMultiple(Geo(a, n), q, n, Raw(a, c, x, n) - x);
  }

  lemma OddOffset(a: nat, c: nat, x: nat) returns (q: nat)
    requires a % 4 == 1 && c % 2 == 1
    ensures q == (a - 1) * x + c && q % 2 == 1
  {
    EvenTimes(a - 1, (a - 1) / 2, x);
    q := (a - 1) * x + c;
    SameParity(q, (a - 1) / 2 * x, c);
  }

  lemma WordMultiple(g: nat, q: nat, n: nat, v: int)
    requires q % 2 == 1 && (Divides2(32, g) <==> Divides2(32, n)) && v == g * q
    ensures v >= 0 && (v % M == 0 <==> n % M == 0)
  {
    OddFactor(32, g, q);
    SameWords(v, n);
  }

  lemma SameWords(v: int, n: int)
    requires Divides2(32, v) <==> Divides2(32, n)
    ensures v % M == 0 <==> n % M == 0
  {
    Pow2Word();
    Divides2IsMod(32, v);
    Divides2IsMod(32, n);
  }

  /** From any seed the state returns exactly after the multiples of 2^32 steps. */
  lemma FullPeriod(x: Word, n: nat)
    ensures Steps(x, n) == x <==> n % M == 0
  {
    Constants();
    StepsIsRaw(x, n);
    PeriodOf(A_RAN, C_RAN, x, n, Steps(x, n));
  }

  lemma PeriodOf(a: nat, c: nat, x: Word, n: nat, state: Word)
    requires a % 4 == 1 && c % 2 == 1 && state == Raw(a, c, x, n) % M
    ensures state == x <==> n % M == 0
  {
    RawPeriod(a, c, x, n);
    ReturnsWhen(x, n, Raw(a, c, x, n), state);
  }

  lemma ReturnsWhen(x: Word, n: nat, y: nat, state: Word)
    requires state == y % M && y >= x && ((y - x) % M == 0 <==> n % M == 0)
    ensures state == x <==> n % M == 0
  {
    SameMod(x, y);
  }

  // ------------------------------------------------------------ every state is reached

  lemma {:induction false} StepsAdd(x: Word, i: nat, j: nat)
    ensures Steps(x, i + j) == Steps(Steps(x, i), j)
  {
    if j > 0 {
      StepsAdd(x, i, j - 1);
    }
  }

  lemma Distinct(x: Word, i: nat, j: nat)
    requires i < j < M
    ensures Steps(x, i) != Steps(x, j)
  {
    StepsAdd(x, i, j - i);
    FullPeriod(Steps(x, i), j - i);
    NoMultiple(j - i);
  }

  lemma NoMultiple(n: nat)
    requires 0 < n < M
    ensures n % M != 0
  {
  }

  ghost predicate Injective(f: int -> int, n: nat) {
    forall i, j :: 0 <= i < n && 0 <= j < n && i != j ==> f(i) != f(j)
  }

  ghost function Image(f: int -> int, n: nat): set<int> {
    set i | 0 <= i < n :: f(i)
  }

  lemma {:induction false} ImageSize(f: int -> int, n: nat)
    requires Injective(f, n)
    ensures |Image(f, n)| == n
  {
    if n > 0 {
      ImageSize(f, n - 1);
      assert Image(f, n) == Image(f, n - 1) + {f(n - 1)};
    }
  }

  lemma {:induction false} BoundedSize(s: set<int>, n: nat)
    requires forall y :: y in s ==> 0 <= y < n
    ensures |s| <= n
  {
    if n > 0 {
      BoundedSize(s - {n - 1}, n - 1);
    } else {
      assert forall y :: y !in s;
      assert s == {};
    }
  }

  /** An injection of the numbers below n into themselves reaches all of them. */
  lemma Pigeonhole(f: int -> int, n: nat, y: int)
    requires forall i :: 0 <= i < n ==> 0 <= f(i) < n
    requires Injective(f, n)
    requires 0 <= y < n
    ensures exists i :: 0 <= i < n && f(i) == y
  {
    var v := Image(f, n);
    ImageSize(f, n);
    if y !in v {
      BoundedSize(v + {y}, n);
    }
  }

  /** The 2^32 states of a period are all the 32-bit values. */
  lemma EveryState(x: Word, y: Word)
    ensures exists n: nat :: n < M && Steps(x, n) == y
  {
    var f := (k: int) => if k < 0 then 0 else Steps(x, k);
    forall i, j | 0 <= i < M && 0 <= j < M && i != j ensures f(i) != f(j) {
      if i < j { Distinct(x, i, j); } else { Distinct(x, j, i); }
    }
    Pigeonhole(f, M, y);
    var n :| 0 <= n < M && f(n) == y;
  }

  // ------------------------------------------------------------ __lmul

  function Lo(x: Word): (h: nat)
    ensures h < H
  {
    x % H
  }

  function Hi(x: Word): (h: nat)
    ensures h < H && x == h * H + Lo(x)
  {
    x / H
  }

  /** The halves exchanged, as the instruction does. */
  function Swap(x: Word): (r: Word)
    ensures Lo(r) == Hi(x) && Hi(r) == Lo(x)
  {
    Lo(x) * H + Hi(x)
  }

  /** mulu: the product of the low halves. */
  function Mulu(x: Word, y: Word): (p: Word)
    ensures p == Lo(x) * Lo(y)
  {
    assert Lo(x) * Lo(y) <= (H - 1) * (H - 1) by {
      MulMono(Lo(x), H - 1, Lo(y), H - 1);
    }
    Lo(x) * Lo(y)
  }

  /** addw: the low half of x plus that of y, high half kept, and the carry. */
  function Addw(x: Word, y: Word): (r: (Word, nat))
    ensures Lo(r.0) + r.1 * H == Lo(x) + Lo(y) && Hi(r.0) == Hi(x) && r.1 <= 1
  {
    var s := Lo(x) + Lo(y);
    (Hi(x) * H + s % H, s / H)
  }

  lemma LmulAlgebra(a: Word, b: Word, p1: nat, p2: nat, p3: nat, p4: nat)
    requires p1 == Lo(b) * Lo(a) && p2 == Hi(a) * Lo(b) && p3 == Hi(b) * Lo(a) && p4 == Hi(b) * Hi(a)
    ensures a * b == p1 + (p2 + p3) * H + p4 * M && 0 <= a * b <= (M - 1) * (M - 1)
  {
    MulMono(a, M - 1, b, M - 1);
    Halves(Hi(a), Lo(a), Hi(b), Lo(b));
  }

  lemma Halves(ah: int, al: int, bh: int, bl: int)
    ensures (ah * H + al) * (bh * H + bl) == (ah * bh) * (H * H) + (ah * bl + al * bh) * H + al * bl
  {
    assert (ah * H + al) * (bh * H + bl) == (ah * H) * (bh * H) + (ah * H) * bl + al * (bh * H) + al * bl;
    assert (ah * H) * (bh * H) == (ah * bh) * (H * H);
  }

  /** __lmul, register by register: the low word it returns and the unsigned high word it has in d7
      before the sign correction, which does not touch the result. */
  method Lmul(a: Word, b: Word) returns (low: Word, high: Word)
    ensures high * M + low == a * b
    ensures low == a * b % M
  {
    var d3: Word, d4: Word, d6: Word, d5: Word, d7: Word := a, a, a, b, b;
    d4 := Swap(d4);
    d5 := Swap(d5);
    d6 := Mulu(d7, d6);
    d7 := Mulu(d4, d7);
    d3 := Mulu(d5, d3);
    d4 := Mulu(d5, d4);
    LmulAlgebra(a, b, d6, d7, d3, d4);
    low, high := AddPartials(d6, d7, d3, d4);
    DivUnique(a * b, M, high, low);
  }

  /** The additions that put the four partial products together. */
  method AddPartials(pp1: Word, pp2: Word, pp3: Word, pp4: Word) returns (d6: Word, d7: Word)
    requires pp1 + (pp2 + pp3) * H + pp4 * M < M * M
    ensures d7 * M + d6 == pp1 + (pp2 + pp3) * H + pp4 * M
  {
    var d3, d4, d5, x: nat;
    d6, d7, d3, d4 := pp1, pp2, pp3, pp4;
    d6 := Swap(d6);
    var sum1 := Addw(d6, d7);
    d6, x := sum1.0, sum1.1;
    d5 := 0;
    d4 := d4 + d5 + x;
    var sum2 := Addw(d6, d3);
    d6, x := sum2.0, sum2.1;
    d4 := d4 + d5 + x;
    d6 := Swap(d6);
    d7 := Hi(d7);
    d3 := Hi(d3);
    d7 := d3 + d7;
    d7 := d4 + d7;
  }

  // ------------------------------------------------------------ range reduction

  /** The number of significant bits of n. */
  ghost predicate Significant(n: nat, bits: nat) {
    n < Pow2(bits) && (bits > 0 ==> Pow2(bits - 1) <= n)
  }

  /** __setrng: the bits of N + 1, counted by shifting them out. */
  method SetRng(N: Word) returns (shift: nat)
    ensures Significant((N + 1) % M, shift)
  {
    shift := 0;
    var n: nat := (N + 1) % M;
    ghost var n0 := n;
    while n != 0
      invariant n * Pow2(shift) <= n0 < (n + 1) * Pow2(shift)
      invariant n == 0 && shift > 0 ==> Pow2(shift - 1) <= n0
      decreases n
    {
      ShiftOut(n, Pow2(shift), n0);
      n := n / 2;
      shift := shift + 1;
    }
  }

  lemma ShiftOut(n: nat, p: nat, n0: nat)
    requires n > 0 && n * p <= n0 < (n + 1) * p
    ensures n / 2 * (2 * p) <= n0 < (n / 2 + 1) * (2 * p) && p <= n0
  {
    assert n / 2 * (2 * p) == n / 2 * 2 * p;
    assert (n / 2 + 1) * (2 * p) == (n / 2 * 2 + 2) * p;
    MulMono(n / 2 * 2, n, p, p);
    MulMono(n + 1, n / 2 * 2 + 2, p, p);
    MulMono(1, n, p, p);
  }

  /** n has s significant bits, p = 2^s and k = 2^(32 - s). */
  ghost predicate Reduces(n: nat, s: nat, p: nat, k: nat) {
    0 < n && s <= 32 && Significant(n, s) && p == Pow2(s) && k == Pow2(32 - s)
  }

  lemma ReducesFacts(n: nat, s: nat, p: nat, k: nat)
    requires Reduces(n, s, p, k)
    ensures 0 < k && n < p <= 2 * n && p * k == M
  {
    Pow2Sum(s, 32 - s);
    Pow2Word();
  }

  /** The number nrand makes of the state x, for n = N + 1 and p, k as in Reduces. */
  function Scaled(x: Word, n: nat, p: nat, k: nat): nat
    requires 0 < p && 0 < k
  {
    (x / p * n) % M / k
  }

  lemma DivBelow(a: nat, b: nat, p: nat)
    requires p > 0 && a < b * p
    ensures a / p < b
  {
    if a / p >= b {
      MulMono(b, a / p, p, p);
    }
  }

  /** The product does not overflow, and the result lies in 0..N. */
  lemma ScaledInRange(x: Word, n: nat, p: nat, k: nat)
    requires 0 < k && 0 < n < p && p * k == M
    ensures x / p < k && x / p * n < M
    ensures Scaled(x, n, p, k) == x / p * n / k < n
  {
    DivBelow(x, k, p);
    var y := x / p;
    MulMono(y + 1, k, n, n);
    assert (y + 1) * n == y * n + n;
    MulMono(k, k, n, p);
    assert y * n < n * k;
    DivBelow(y * n, n, k);
  }

  lemma CancelDiv(a: nat, n: nat, m: nat)
    requires n > 0 && m > 0
    ensures n * m > 0 && (a * n) / (n * m) == a / m
  {
    var q, r := a / m, a % m;
    assert a * n == (n * m) * q + n * r by {
      assert (m * q + r) * n == (n * m) * q + n * r;
    }
    MulMono(r + 1, m, n, n);
    assert n * (r + 1) == n * r + n;
    DivUnique(a * n, n * m, q, n * r);
  }

  /** Where n divides k, dropping the low bits first changes nothing. */
  lemma ScaledExact(x: Word, n: nat, p: nat, k: nat)
    requires 0 < k && 0 < n < p && p * k == M && k % n == 0
    ensures Scaled(x, n, p, k) == n * x / M
  {
    var m := k / n;
    assert k == n * m;
    ScaledInRange(x, n, p, k);
    CancelDiv(x / p, n, m);
    DivDiv(x, p, m);
    assert p * (n * m) == n * (p * m);
    CancelDiv(x, n, p * m);
  }

  /** Where it does not, there is a state for which the dropped bits matter. */
  lemma ScaledOff(n: nat, p: nat, k: nat) returns (x: Word)
    requires 0 < k && 0 < n < p && p * k == M && k % n != 0
    ensures Scaled(x, n, p, k) == 0 && n * x >= M
  {
    var r, d := k / n, k % n;
    assert k == n * r + d;
    assert r < k by {
      MulMono(1, n, r, r);
    }
    MulMono(r + 1, k, p, p);
    assert (r + 1) * p == r * p + p;
    x := r * p + (p - 1);
    DivUnique(x, p, r, p - 1);
    ScaledInRange(x, n, p, k);
    assert r * n < k;
    DivUnique(r * n, k, 0, r * n);
    OffProduct(n, p, r, d);
  }

  lemma OffProduct(n: nat, p: nat, r: nat, d: nat)
    requires d < n < p
    ensures n * (r * p + (p - 1)) >= p * (n * r + d)
  {
    MulMono(d + 1, n, p, p);
    assert (d + 1) * p == d * p + p;
    assert n * (r * p + (p - 1)) == p * (n * r) + n * p - n;
    assert p * (n * r + d) == p * (n * r) + d * p;
  }

  /** The header of the file says that nrand forms the integer part of (N + 1) * x / 2^32. It drops the low bits
      of x first, and agrees for every state exactly when N + 1 divides 2^(32 - s). */
  lemma ScaledIsDocumented(n: nat, s: nat, p: nat, k: nat)
    requires Reduces(n, s, p, k)
    ensures 0 < p && 0 < k
    ensures (forall x: Word :: Scaled(x, n, p, k) == n * x / M) <==> k % n == 0
  {
    ReducesFacts(n, s, p, k);
    if k % n == 0 {
      forall x: Word ensures Scaled(x, n, p, k) == n * x / M {
        ScaledExact(x, n, p, k);
      }
    } else {
      var x := ScaledOff(n, p, k);
      assert n * x / M >= 1;
      assert Scaled(x, n, p, k) != n * x / M;
    }
  }

  lemma {:induction false} Pow2Mono(i: nat, j: nat)
    ensures i < j <==> Pow2(i) < Pow2(j)
  {
    if i > 0 && j > 0 {
      Pow2Mono(i - 1, j - 1);
    }
  }

  /** p and k straddle 2^16. */
  lemma ReducesHalf(n: nat, s: nat, p: nat, k: nat)
    requires Reduces(n, s, p, k)
    ensures n < H ==> n <= k
    ensures H <= n ==> 2 * k <= n
  {
    assert Pow2(16) == H by { Pow2Sum(8, 8); assert Pow2(8) == 256; }
    Pow2Mono(16, s);
    Pow2Mono(s - 1, 16);
    Pow2Mono(32 - s, 16);
    Pow2Mono(32 - s, 15);
    assert Pow2(16) == 2 * Pow2(15);
  }

  lemma RoundUp(a: nat, n: nat) returns (r: nat, e: nat)
    requires n > 0
    ensures a + n - 1 == n * r + e && e < n
  {
    r, e := (a + n - 1) / n, (a + n - 1) % n;
  }

  lemma ScaledHit(v: nat, n: nat, p: nat, k: nat) returns (x: Word)
    requires v < n <= k && n < p && p * k == M
    ensures Scaled(x, n, p, k) == v
  {
    // The least r with r * n >= v * k.
    var r, e := RoundUp(v * k, n);
    HitBelow(v, n, k, r, e);
    MulMono(r + 1, k, p, p);
    assert (r + 1) * p == r * p + p;
    x := r * p;
    DivUnique(x, p, r, 0);
    ScaledInRange(x, n, p, k);
    DivUnique(r * n, k, v, n - 1 - e);
  }

  lemma HitBelow(v: nat, n: nat, k: nat, r: nat, e: nat)
    requires v < n <= k && v * k + n - 1 == n * r + e && e < n
    ensures r < k
  {
    MulMono(v + 1, n, k, k);
    assert (v + 1) * k == v * k + k;
    if r >= k {
      MulMono(k, r, n, n);
    }
  }

  lemma ScaledMisses(x: Word, n: nat, p: nat, k: nat)
    requires 0 < k && 2 * k <= n < p && p * k == M
    ensures Scaled(x, n, p, k) != 1
  {
    ScaledInRange(x, n, p, k);
    var r := x / p;
    if r == 0 {
      DivUnique(0, k, 0, 0);
    } else {
      MulMono(1, r, n, n);
      TwiceOver(r * n, k);
    }
  }

  lemma TwiceOver(a: nat, k: nat)
    requires 0 < k && 2 * k <= a
    ensures a / k != 1
  {
  }

  ghost predicate Produced(v: nat, n: nat, p: nat, k: nat)
    requires 0 < p && 0 < k
  {
    exists x: Word :: Scaled(x, n, p, k) == v
  }

  /** Every value of 0..N comes out for some state exactly when N + 1 < 2^16. */
  lemma ScaledCovers(n: nat, s: nat, p: nat, k: nat)
    requires Reduces(n, s, p, k)
    ensures 0 < p && 0 < k
    ensures (forall v: nat :: v < n ==> Produced(v, n, p, k)) <==> n < H
  {
    ReducesFacts(n, s, p, k);
    ReducesHalf(n, s, p, k);
    if n < H {
      forall v: nat | v < n ensures Produced(v, n, p, k) {
        var x := ScaledHit(v, n, p, k);
      }
    } else {
      forall x: Word ensures Scaled(x, n, p, k) != 1 {
        ScaledMisses(x, n, p, k);
      }
      assert !Produced(1, n, p, k);
    }
  }

  lemma BitsOfRange(n: nat, s: nat)
    requires 0 < n < 0x8000_0000 && Significant(n, s)
    ensures 1 <= s <= 31
  {
    Pow2Mono(31, s - 1 + 1);
    if s > 31 {
      Pow2Mono(31, s);
      Pow2Word();
      assert Pow2(32) == 2 * Pow2(31);
      if s > 32 { Pow2Mono(31, s - 1); }
    }
  }

  class Generator {
    var random: Word

    constructor ()
      ensures random == 1
    {
      random := 1;
    }

    /** __rand */
    method Rand32() returns (r: Word)
      modifies this
      ensures r == random == Next(old(random))
    {
      var high: Word;
      random, high := Lmul(random, A_RAN);
      var sum: int := random + C_RAN;
      AddMod(A_RAN * old(random), C_RAN);
      random := sum % M;
      r := random;
    }

    method Rand() returns (r: nat)
      modifies this
      ensures random == Next(old(random)) && r == random / 2 < 0x8000_0000
    {
      var dummy := Rand32();
      r := dummy / 2;
    }

    method Srand(seed: int) returns (r: nat)
      modifies this
      ensures random == Next(seed % M) && r == random / 2
    {
      random := seed % M;
      r := Rand();
    }

    /** One step of the generator, scaled into 0..N. */
    method Nrand(N: Word) returns (r: Word, ghost s: nat)
      requires N <= 0x7fff_fffe
      modifies this
      ensures random == Next(old(random)) && r <= N
      ensures s <= 32 && Reduces(N + 1, s, Pow2(s), Pow2(32 - s))
      ensures r == Scaled(random, N + 1, Pow2(s), Pow2(32 - s))
    {
      var shift := SetRng(N);
      s := shift;
      BitsOfRange(N + 1, shift);
      var ran := Rand32();
      ghost var p, k := Pow2(shift), Pow2(32 - shift);
      assert Reduces(N + 1, shift, p, k);
      ReducesFacts(N + 1, shift, p, k);
      ScaledInRange(ran, N + 1, p, k);
      ran := ran / Pow2(shift);
      ran := ran * (N + 1) % M;
      r := ran / Pow2(32 - shift);
    }
  }

  lemma AddMod(a: nat, c: nat)
    ensures (a % M + c) % M == (a + c) % M
  {
    ModStep(1, c, a);
  }
}
