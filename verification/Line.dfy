/** peripheral/pico2VGA/vga_graphos.c: drawLine as the sequence of its drawPixel calls, and the integer square root.
    The C variables are 16-bit; that no step leaves their range is part of what is proved. */
module Line {
  import opened Arithmetic
  import opened Values

  newtype Short = x: int | -0x8000 <= x < 0x8000

  datatype Point = Point(x: int, y: int)

  function Abs(x: int): nat {
    if x < 0 then -x else x
  }

  function Max(x: int, y: int): int {
    if x < y then y else x
  }

  function Flip(p: Point): Point {
    Point(p.y, p.x)
  }

  // ------------------------------------------------------------ what is plotted

  predicate Steep(p: Point, q: Point) {
    Abs(q.y - p.y) > Abs(q.x - p.x)
  }

  /** How far the minor coordinate has moved after k steps of the major one: k * dy / dx, rounded. */
  function Minor(dx: nat, dy: nat, k: nat): int {
    if dx == 0 then 0 else (k * dy + (dx - 1 - dx / 2)) / dx
  }

  /** Pixel k of the line from p right to q. */
  function PixelAt(p: Point, q: Point, k: nat): Point
    requires p.x <= q.x
  {
    var m := Minor(q.x - p.x, Abs(q.y - p.y), k);
    Point(p.x + k, if p.y < q.y then p.y + m else p.y - m)
  }

  function Rightwards(p: Point, q: Point): (r: seq<Point>)
    requires p.x <= q.x
    ensures |r| == q.x - p.x + 1
    ensures forall k :: 0 <= k < |r| ==> r[k] == PixelAt(p, q, k)
  {
    seq(q.x - p.x + 1, k requires k >= 0 => PixelAt(p, q, k))
  }

  function Shallow(p: Point, q: Point): (r: seq<Point>)
    ensures |r| == Abs(q.x - p.x) + 1
  {
    if p.x > q.x then Rightwards(q, p) else Rightwards(p, q)
  }

  function Flipped(s: seq<Point>): (r: seq<Point>)
    ensures |r| == |s| && forall k :: 0 <= k < |s| ==> r[k] == Flip(s[k])
  {
    seq(|s|, k requires 0 <= k < |s| => Flip(s[k]))
  }

  function LinePixels(p: Point, q: Point): seq<Point> {
    if Steep(p, q) then Flipped(Shallow(Flip(p), Flip(q))) else Shallow(p, q)
  }

  // ------------------------------------------------------------ rounding

  /** n times d, as the loop comes to it. */
  function Times(n: nat, d: int): int {
    if n == 0 then 0 else Times(n - 1, d) + d
  }

  lemma {:induction false} TimesIs(n: nat, d: int)
    ensures Times(n, d) == n * d
  {
    if n > 0 {
      TimesIs(n - 1, d);
    }
  }

  /** The error term of the loop decides the rounding. */
  lemma MinorIs(dx: nat, dy: nat, k: nat, m: nat)
    requires 0 <= dx / 2 - Times(k, dy) + Times(m, dx) < dx
    ensures m == Minor(dx, dy, k)
  {
    TimesIs(k, dy);
    TimesIs(m, dx);
    DivUnique(k * dy + (dx - 1 - dx / 2), dx, m, dx - 1 - (dx / 2 - Times(k, dy) + Times(m, dx)));
  }

  /** Half a pixel: the rounded value is nearest to the ideal one. */
  lemma MinorNear(dx: nat, dy: nat, k: nat)
    requires dx > 0
    ensures -(dx as int) <= 2 * (Minor(dx, dy, k) * dx - k * dy) <= dx
  {
    var n := k * dy + (dx - 1 - dx / 2);
    assert n == (n / dx) * dx + n % dx;
  }

  lemma MinorEnds(dx: nat, dy: nat)
    requires dy <= dx
    ensures Minor(dx, dy, 0) == 0 && Minor(dx, dy, dx) == dy
  {
    if dx > 0 {
      DivUnique(dx - 1 - dx / 2, dx, 0, dx - 1 - dx / 2);
      DivUnique(dx * dy + (dx - 1 - dx / 2), dx, dy, dx - 1 - dx / 2);
    }
  }

  lemma QuotientStep(n: int, d: int, e: int)
    requires 0 <= e <= d && d > 0
    ensures 0 <= (n + e) / d - n / d <= 1
  {
    var m, r := n / d, n % d;
    assert n == m * d + r;
    if r + e < d {
      DivUnique(n + e, d, m, r + e);
    } else {
      assert (m + 1) * d == m * d + d;
      DivUnique(n + e, d, m + 1, r + e - d);
    }
  }

  lemma MinorStep(dx: nat, dy: nat, k: nat)
    requires dy <= dx
    ensures 0 <= Minor(dx, dy, k + 1) - Minor(dx, dy, k) <= 1
  {
    if dx > 0 {
      assert (k + 1) * dy == k * dy + dy;
      QuotientStep(k * dy + (dx - 1 - dx / 2), dx, dy);
    }
  }

  lemma {:induction false} MinorGrows(dx: nat, dy: nat, j: nat, k: nat)
    requires dy <= dx && j <= k
    ensures Minor(dx, dy, j) <= Minor(dx, dy, k)
    decreases k
  {
    if j < k {
      MinorGrows(dx, dy, j, k - 1);
      MinorStep(dx, dy, k - 1);
    }
  }

  // ------------------------------------------------------------ the line

  /** Twice the distance of a pixel from the ideal line through p and q, times the major length, is at most the
      major length: half a pixel. */
  predicate Near(p: Point, q: Point, a: Point) {
    2 * Abs((a.y - p.y) * (q.x - p.x) - (a.x - p.x) * (q.y - p.y)) <= Max(Abs(q.x - p.x), Abs(q.y - p.y))
  }

  predicate InBox(p: Point, q: Point, a: Point) {
    && (p.x <= a.x <= q.x || q.x <= a.x <= p.x)
    && (p.y <= a.y <= q.y || q.y <= a.y <= p.y)
  }

  /** Successive pixels: one step of x, at most one of y. */
  predicate Follow(a: Point, b: Point) {
    b.x == a.x + 1 && Abs(b.y - a.y) <= 1
  }

  lemma PixelNear(p: Point, q: Point, k: nat)
    requires p.x <= q.x && !Steep(p, q) && k <= q.x - p.x
    ensures Near(p, q, PixelAt(p, q, k))
  {
    var dx, dy := q.x - p.x, Abs(q.y - p.y);
    var a := PixelAt(p, q, k);
    var m := Minor(dx, dy, k);
    if dx > 0 {
      MinorNear(dx, dy, k);
      if p.y >= q.y {
        Negated(m, dx);
        Negated(dy, k);
      }
    }
  }

  lemma Negated(x: int, y: int)
    ensures (-x) * y == -(x * y)
    ensures y * (-x) == -(y * x)
  {
  }

  lemma PixelInBox(p: Point, q: Point, k: nat)
    requires p.x <= q.x && !Steep(p, q) && k <= q.x - p.x
    ensures InBox(p, q, PixelAt(p, q, k))
    ensures PixelAt(p, q, 0) == p && PixelAt(p, q, q.x - p.x) == q
  {
    var dx, dy := q.x - p.x, Abs(q.y - p.y);
    MinorEnds(dx, dy);
    MinorGrows(dx, dy, 0, k);
    MinorGrows(dx, dy, k, dx);
  }

  lemma NearSwapped(p: Point, q: Point, a: Point)
    ensures Near(p, q, a) <==> Near(q, p, a)
  {
    var u, v := q.x - p.x, q.y - p.y;
    var e := (a.y - p.y) * u - (a.x - p.x) * v;
    var w, z := a.y - p.y, a.x - p.x;
    assert (w - v) * (-u) == v * u - w * u;
    assert (z - u) * (-v) == u * v - z * v;
    assert (a.y - q.y) * (p.x - q.x) - (a.x - q.x) * (p.y - q.y) == -e;
  }

  lemma NearFlipped(p: Point, q: Point, a: Point)
    ensures Near(p, q, a) <==> Near(Flip(p), Flip(q), Flip(a))
  {
  }

  lemma RightwardsLaws(p: Point, q: Point)
    requires p.x <= q.x && !Steep(p, q)
    ensures var s := Rightwards(p, q);
            && s[0] == p && s[|s| - 1] == q
            && (forall k :: 0 <= k < |s| ==> Near(p, q, s[k]) && InBox(p, q, s[k]))
            && (forall k :: 0 <= k < |s| - 1 ==> Follow(s[k], s[k + 1]))
  {
    var s := Rightwards(p, q);
    PixelInBox(p, q, 0);
    forall k | 0 <= k < |s| ensures Near(p, q, s[k]) && InBox(p, q, s[k]) {
      PixelNear(p, q, k);
      PixelInBox(p, q, k);
    }
    forall k | 0 <= k < |s| - 1 ensures Follow(s[k], s[k + 1]) {
      MinorStep(q.x - p.x, Abs(q.y - p.y), k);
    }
  }

  /** From left to right: as many pixels as columns, both ends, every step one column and at most one row. */
  lemma ShallowLaws(p: Point, q: Point)
    requires !Steep(p, q)
    ensures var s := Shallow(p, q);
            && (if p.x > q.x then s[0] == q && s[|s| - 1] == p else s[0] == p && s[|s| - 1] == q)
            && (forall k :: 0 <= k < |s| ==> Near(p, q, s[k]) && InBox(p, q, s[k]))
            && (forall k :: 0 <= k < |s| - 1 ==> Follow(s[k], s[k + 1]))
  {
    if p.x > q.x {
      RightwardsLaws(q, p);
      var s := Rightwards(q, p);
      forall k | 0 <= k < |s| ensures Near(p, q, s[k]) {
        NearSwapped(p, q, s[k]);
      }
    } else {
      RightwardsLaws(p, q);
    }
  }

  /** One pixel for each step of the major axis, both endpoints among them, each within half a pixel of the ideal line
      and inside the box of the endpoints. */
  lemma LineLaws(p: Point, q: Point)
    ensures var s := LinePixels(p, q);
            && |s| == Max(Abs(q.x - p.x), Abs(q.y - p.y)) + 1
            && ((s[0] == p && s[|s| - 1] == q) || (s[0] == q && s[|s| - 1] == p))
            && (forall k :: 0 <= k < |s| ==> Near(p, q, s[k]) && InBox(p, q, s[k]))
  {
    var s := LinePixels(p, q);
    if Steep(p, q) {
      ShallowLaws(Flip(p), Flip(q));
      forall k | 0 <= k < |s| ensures Near(p, q, s[k]) && InBox(p, q, s[k]) {
        NearFlipped(p, q, s[k]);
        assert Flip(s[k]) == Shallow(Flip(p), Flip(q))[k];
      }
    } else {
      ShallowLaws(p, q);
    }
  }

  /** The line has no gap and no doubled pixel: each step moves the major coordinate by one and the minor one by at
      most one. */
  lemma LineConnected(p: Point, q: Point, k: nat)
    requires k + 1 < |LinePixels(p, q)|
    ensures var s := LinePixels(p, q);
            if Steep(p, q) then Follow(Flip(s[k]), Flip(s[k + 1])) else Follow(s[k], s[k + 1])
  {
    if Steep(p, q) {
      ShallowLaws(Flip(p), Flip(q));
    } else {
      ShallowLaws(p, q);
    }
  }

  /** The direction of drawing does not matter. */
  lemma LineSymmetric(p: Point, q: Point)
    ensures LinePixels(p, q) == LinePixels(q, p)
  {
    if Steep(p, q) {
      assert Shallow(Flip(p), Flip(q)) == Shallow(Flip(q), Flip(p));
    } else if p.x == q.x {
      assert p == q;
    }
  }

  // ------------------------------------------------------------ the program

  /** Two coordinates whose difference fits 16 bits, neither at the end of the 16-bit range, where the loop counter
      would wrap around. The screen is 640 by 480. */
  predicate Drawable(a: Short, b: Short) {
    -0x8000 < a < 0x7fff && -0x8000 < b < 0x7fff && -0x8000 < (a as int) - (b as int) < 0x8000
  }

  method DrawLine(px: Short, py: Short, qx: Short, qy: Short) returns (plotted: seq<Point>)
    requires Drawable(px, qx) && Drawable(py, qy)
    ensures plotted == LinePixels(Point(px as int, py as int), Point(qx as int, qy as int))
  {
    var x0, y0, x1, y1 := px, py, qx, qy;
    var steep := Abs((y1 - y0) as int) > Abs((x1 - x0) as int);
    if steep {
      x0, y0 := y0, x0;
      x1, y1 := y1, x1;
    }
    if x0 > x1 {
      x0, x1 := x1, x0;
      y0, y1 := y1, y0;
    }
    ghost var l, r := Point(x0 as int, y0 as int), Point(x1 as int, y1 as int);
    ghost var f := (k: nat) => Emitted(l, r, steep, k);
    plotted := Rasterise(x0, y0, x1, y1, steep, l, r, f);
    if steep {
      assert plotted == Flipped(Rightwards(l, r));
    } else {
      assert plotted == Rightwards(l, r);
    }
  }

  function Emitted(p: Point, q: Point, steep: bool, k: nat): Point
    requires p.x <= q.x
  {
    if steep then Flip(PixelAt(p, q, k)) else PixelAt(p, q, k)
  }

  /** f numbers the pixels that the loop is to emit. */
  ghost predicate Traces(f: nat -> Point, p: Point, q: Point, steep: bool)
    requires p.x <= q.x
  {
    forall k: nat {:trigger Emitted(p, q, steep, k)} :: f(k) == Emitted(p, q, steep, k)
  }

  ghost predicate Drawn(f: nat -> Point, s: seq<Point>) {
    forall k :: 0 <= k < |s| ==> s[k] == f(k)
  }

  /** At the head of the loop: k columns are drawn, y0 has moved m times, and err says how far the line is from y0. */
  predicate Column(p: Point, q: Point, y0: int, err: int, k: nat, m: nat)
    requires p.x <= q.x
  {
    var dx, dy := q.x - p.x, Abs(q.y - p.y);
    && y0 == (if p.y < q.y then p.y + m else p.y - m)
    && err == dx / 2 - Times(k, dy) + Times(m, dx)
    && if dx == 0 then err == 0 && m == 0 else 0 <= err < dx
  }

  /** The pixel drawn there is the one of the line. */
  lemma ColumnPixel(f: nat -> Point, p: Point, q: Point, steep: bool, y0: int, err: int, k: nat, m: nat)
    requires p.x <= q.x && !Steep(p, q) && k <= q.x - p.x && Column(p, q, y0, err, k, m) && Traces(f, p, q, steep)
    ensures f(k) == if steep then Point(y0, p.x + k) else Point(p.x + k, y0)
    ensures p.y <= y0 <= q.y || q.y <= y0 <= p.y
  {
    assert f(k) == Emitted(p, q, steep, k);
    if q.x > p.x {
      MinorIs(q.x - p.x, Abs(q.y - p.y), k, m);
      MinorGrows(q.x - p.x, Abs(q.y - p.y), k, q.x - p.x);
      MinorEnds(q.x - p.x, Abs(q.y - p.y));
    }
  }

  /** The end of the loop body: one error step. */
  method StepError(err0: Short, y: Short, dx: Short, dy: Short, ystep: Short, ghost p: Point, ghost q: Point,
                   ghost k: nat, ghost m: nat)
      returns (err: Short, y0: Short, ghost m': nat)
    requires p.x <= q.x && !Steep(p, q) && dx as int == q.x - p.x && dy as int == Abs(q.y - p.y)
    requires ystep as int == (if p.y < q.y then 1 else -1) && -0x8000 < y < 0x7fff
    requires Column(p, q, y as int, err0 as int, k, m)
    ensures Column(p, q, y0 as int, err as int, k + 1, m')
  {
    err, y0, m' := err0, y, m;
    err := err - dy;
    if err < 0 {
      y0 := y0 + ystep;
      err := err + dx;
      m' := m + 1;
    }
  }

  /** The loop of drawLine, after the exchanges. */
  method Rasterise(left: Short, y: Short, x1: Short, y1: Short, steep: bool, ghost p: Point, ghost q: Point,
                   ghost f: nat -> Point)
      returns (plotted: seq<Point>)
    requires Drawable(left, x1) && Drawable(y, y1) && left <= x1
    requires p == Point(left as int, y as int) && q == Point(x1 as int, y1 as int) && !Steep(p, q)
    requires Traces(f, p, q, steep)
    ensures |plotted| == q.x - p.x + 1 && Drawn(f, plotted)
  {
    var x0, y0 := left, y;
    var dx := x1 - x0;
    var dy := if y1 < y0 then y0 - y1 else y1 - y0;
    var err := dx / 2;
    var ystep: Short := if y0 < y1 then 1 else -1;
    plotted := [];
    ghost var m := 0;
    while x0 <= x1
      invariant left <= x0 <= x1 + 1 && x0 as int == p.x + |plotted|
      invariant Column(p, q, y0 as int, err as int, |plotted|, m)
      invariant Drawn(f, plotted)
      decreases x1 - x0
    {
      ghost var k := |plotted|;
      ColumnPixel(f, p, q, steep, y0 as int, err as int, k, m);
      plotted := plotted + [if steep then Point(y0 as int, x0 as int) else Point(x0 as int, y0 as int)];
      err, y0, m := StepError(err, y0, dx, dy, ystep, p, q, k, m);
      x0 := x0 + 1;
    }
  }

  // ------------------------------------------------------------ the square root

  newtype Uint32 = x: int | 0 <= x < 0x1_0000_0000

  /** Bit s of the root is set exactly when the test of the loop says so; b, q and r keep their meaning. */
  lemma Digit(v: int, sum: int, s: int, b: int, q: int, r: int)
    requires b == s * s && q == 2 * s * sum && r == v - sum * sum
    ensures r >= q + b <==> (sum + s) * (sum + s) <= v
    ensures r - (q + b) == v - (sum + s) * (sum + s)
    ensures q / 2 == s * sum && q / 2 + b == s * (sum + s)
  {
    assert (sum + s) * (sum + s) == sum * sum + 2 * s * sum + s * s;
    assert q == 2 * (s * sum);
    assert s * (sum + s) == s * sum + s * s;
  }

  lemma Halved(s: int, t: int, sum: int)
    requires s == 2 * t
    ensures (s * s) / 4 == t * t && s * sum == 2 * t * sum
  {
    assert s * s == 4 * (t * t);
  }

  lemma SquareBelow(x: int, y: int)
    ensures 0 <= x <= y ==> x * x <= y * y
  {
  }

  /** The largest power of four not above r, or zero. */
  method LargestPower(r: Uint32) returns (b: Uint32, ghost n: nat)
    ensures b > 0 ==> n < 16 && b as int == Pow2(n) * Pow2(n) && b <= r && (r as int) < 4 * (b as int)
    ensures b == 0 ==> r == 0
  {
    b, n := 0x4000_0000, 15;
    HighestPower();
    while b > r
      invariant b > 0 ==> n < 16 && b as int == Pow4(n) && (r as int) < 4 * (b as int)
      invariant b == 0 ==> r == 0
      decreases b
    {
      if n > 0 {
        n := n - 1;
      }
      b := b / 4;
    }
    PowerOfFour(n);
  }

  function Pow4(n: nat): nat {
    if n == 0 then 1 else 4 * Pow4(n - 1)
  }

  lemma HighestPower()
    ensures Pow4(15) == 0x4000_0000
  {
    assert Pow4(5) == 0x400;
    assert Pow4(10) == 0x10_0000;
  }

  lemma {:induction false} PowerOfFour(n: nat)
    ensures Pow4(n) == Pow2(n) * Pow2(n)
  {
    if n > 0 {
      PowerOfFour(n - 1);
      FourTimes(Pow2(n - 1));
    }
  }

  lemma FourTimes(t: int)
    ensures (2 * t) * (2 * t) == 4 * (t * t)
  {
  }

  lemma {:induction false} Pow2Bound(n: nat)
    requires n < 16
    ensures 2 * Pow2(n) <= 0x1_0000
    decreases 15 - n
  {
    if n < 15 {
      Pow2Bound(n + 1);
    } else {
      assert Pow2(15) == 0x8000;
    }
  }

  /** At the head of the second loop: `sum` is the part of the root found so far, its bits below 2 * 2^n are not. */
  predicate Rooting(b: int, q: int, r: int, v: int, n: nat, sum: nat) {
    && r == v - sum * sum && r >= 0
    && if b > 0
       then && b == Pow2(n) * Pow2(n) && q == 2 * Pow2(n) * sum
            && Below(v, sum + 2 * Pow2(n)) && sum + 2 * Pow2(n) <= 0x1_0000
       else q == sum && Below(v, sum + 1)
  }

  predicate Below(v: int, x: int) {
    v < x * x
  }

  /** The body of the second loop: one bit of the root. */
  method RootBit(b0: Uint32, q0: Uint32, r0: Uint32, ghost v: int, ghost n: nat, ghost sum: nat)
      returns (b: Uint32, q: Uint32, r: Uint32, ghost n': nat, ghost sum': nat)
    requires b0 > 0 && Rooting(b0 as int, q0 as int, r0 as int, v, n, sum)
    ensures Rooting(b as int, q as int, r as int, v, n', sum') && b < b0
  {
    Digit(v, sum, Pow2(n), b0 as int, q0 as int, r0 as int);
    SquareBelow(sum + Pow2(n), 0x1_0000 - 1);
    var t := q0 + b0;
    q, r, sum' := q0 / 2, r0, sum;
    if r >= t {
      r := r - t;
      q := q + b0;
      sum' := sum + Pow2(n);
    }
    assert Below(v, sum' + Pow2(n));
    b := b0 / 4;
    n' := n;
    if n > 0 {
      Halved(Pow2(n), Pow2(n - 1), sum');
      n' := n - 1;
    }
  }

  /** sqrt_i32: the floor of the square root; a negative argument is taken as its unsigned pattern. */
  method SqrtI32(v: Int32) returns (root: int)
    ensures 0 <= root && root * root <= Unsigned(v) < (root + 1) * (root + 1)
  {
    var r := Unsigned(v) as Uint32;
    var b, n := LargestPower(r);
    var q: Uint32 := 0;
    ghost var sum := 0;
    if b > 0 {
      Pow2Bound(n);
      Halved(2 * Pow2(n), Pow2(n), 0);
    }
    while b > 0
      invariant Rooting(b as int, q as int, r as int, Unsigned(v), n, sum)
      decreases b
    {
      b, q, r, n, sum := RootBit(b, q, r, Unsigned(v), n, sum);
    }
    root := q as int;
  }
}
