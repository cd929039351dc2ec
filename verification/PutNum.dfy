/** software/libs/liborion_em_assembler/qprintf.c: putnum, putn2 and RdArg; atoi.c and atox.c. A string is read up to
    its end or a NUL; output goes to a character array from a position on. */
module PutNum {

  import opened Numerals
  import opened Arithmetic
  import opened Values

  // ------------------------------------------------------------ digits

  const DecTab: seq<nat> := [1000000000, 100000000, 10000000, 1000000, 100000, 10000, 1000, 100, 10, 1, 0]

  lemma {:induction false} PowerTen(n: nat)
    requires n <= 9
    ensures DecTab[9 - n] == Power(10, n)
    decreases n
  {
    if n > 0 {
      PowerTen(n - 1);
      assert DecTab[9 - n] == 10 * DecTab[10 - n];
    }
  }

  /** The loops for radix 16, 8 and 2: at least one digit, least significant first. */
  method SplitDigits(u: nat, radix: nat, digbuf: array<nat>) returns (ndig: nat)
    requires (radix == 2 || radix == 8 || radix == 16) && u < 0x1_0000_0000 && digbuf.Length == 32
    modifies digbuf
    ensures ndig == |Digits(u, radix)| <= 32 && digbuf[..ndig] == Digits(u, radix)
  {
    ghost var all := Digits(u, radix);
    FitsBuffer(u, radix);
    var v: nat := u;
    ndig := 0;
    while true
      invariant ndig + |Digits(v, radix)| == |all|
      invariant digbuf[..ndig] == all[..ndig] && all[ndig..] == Digits(v, radix)
      decreases v
    {
      digbuf[ndig] := v % radix;
      DigitTaken(v, radix, all, ndig);
      ndig := ndig + 1;
      v := v / radix;
      if v == 0 {
        break;
      }
    }
  }

  /** The next digit, and what is left. */
  lemma DigitTaken(v: nat, radix: nat, all: seq<nat>, n: nat)
    requires radix > 1 && n < |all| && all[n..] == Digits(v, radix)
    ensures all[n] == v % radix && v / radix <= v
    ensures if v / radix == 0 then n + 1 == |all|
            else && v / radix < v && all[n + 1..] == Digits(v / radix, radix)
                 && n + 1 + |Digits(v / radix, radix)| == |all|
  {
    assert all[n] == all[n..][0];
    assert all[n + 1..] == all[n..][1..];
    QuotientFacts(v, radix);
    if v >= radix {
      assert Digits(v, radix)[1..] == Digits(v / radix, radix);
    }
  }

  lemma QuotientFacts(v: nat, d: nat)
    requires d > 1
    ensures v % d < d && (v < d ==> v / d == 0 && v % d == v) && (v >= d ==> 0 < v / d < v)
  {
    if v >= d {
      QuotientBelow(v, d, v);
      AtLeastOne(v, d);
    } else {
      QuotientBelow(v, d, 1);
      DivMod(v, d);
    }
  }

  lemma AtLeastOne(v: nat, d: nat)
    requires 0 < d <= v
    ensures v / d >= 1
  {
    assert v == d * (v / d) + v % d;
  }

  lemma FitsBuffer(u: nat, radix: nat)
    requires (radix == 2 || radix == 8 || radix == 16) && u < 0x1_0000_0000
    ensures |Digits(u, radix)| <= 32
  {
    if radix == 2 {
      assert Power(2, 8) == 0x100;
      PowerSum(2, 8, 8);
      PowerSum(2, 16, 16);
      DigitsFit(u, 2, 32);
    } else if radix == 8 {
      assert Power(8, 11) == 0x2_0000_0000;
      DigitsFit(u, 8, 11);
    } else {
      assert Power(16, 8) == 0x1_0000_0000;
      DigitsFit(u, 16, 8);
    }
  }

  /** The inner loop of putn2: how often p fits. */
  method CountOut(v: nat, p: nat) returns (dig: nat, rest: nat)
    requires p > 0
    ensures dig == v / p && rest == v % p
  {
    dig, rest := 0, v;
    while rest >= p
      invariant v == dig * p + rest
      decreases rest
    {
      rest := rest - p;
      dig := dig + 1;
    }
    DivUnique(v, p, dig, rest);
  }

  /** One decimal place further down. */
  lemma PlaceDown(u: nat, p: nat, d: nat)
    requires p > 0 && d == 10 * p
    ensures u / p == 10 * (u / d) + (u % d) / p
    ensures u % p == (u % d) % p
  {
    var a, m := u / d, u % d;
    DivMod(u, d);
    DivMod(m, p);
    PlaceOf(u, p, d, a, m, m / p, m % p);
  }

  lemma PlaceOf(u: nat, p: nat, d: nat, a: nat, m: nat, b: nat, r: nat)
    requires d == 10 * p && u == a * d + m && m == b * p + r && r < p
    ensures u / p == 10 * a + b && u % p == r
  {
    Places(a, b, p, m, r);
    DivUnique(u, p, 10 * a + b, r);
  }

  lemma Places(a: nat, b: nat, p: nat, m: nat, r: nat)
    requires m == b * p + r
    ensures a * (10 * p) + m == (10 * a + b) * p + r
  {
    assert (10 * a + b) * p == 10 * a * p + b * p;
    TimesAssoc(a, 10, p);
  }

  lemma DigitsPush(q: nat, d: nat)
    requires d < 10
    ensures q > 0 ==> Digits(10 * q + d, 10) == [d] + Digits(q, 10)
    ensures q == 0 ==> Digits(10 * q + d, 10) == [d]
  {
  }

  /** What putn2 has found when n places, below w == 10^n, are left: the digits of the number above those places. */
  predicate Found(u: nat, w: nat, n: nat, places: nat, val: nat, ds: seq<nat>) {
    && n <= places <= 10 && w > 0 && val == u % w
    && (n == places ==> ds == [] && u / w == 0)
    && (n < places ==> u / w > 0 && ds == Digits(u / w, 10))
  }

  lemma FoundNext(u: nat, w: nat, n: nat, places: nat, val: nat, ds: seq<nat>, p: nat)
    requires n > 0 && p > 0 && w == 10 * p && Found(u, w, n, places, val, ds) && (n == places ==> val >= p)
    ensures val / p < 10 && Found(u, p, n - 1, places, val % p, [val / p] + ds)
  {
    PlaceDown(u, p, w);
    DigitBelow(u, p, w, val);
    if n == places {
      AtLeastOne(val, p);
    }
    NextPlace(u / w, val / p, u / p, ds, n == places);
  }

  lemma DigitBelow(u: nat, p: nat, w: nat, val: nat)
    requires p > 0 && w == 10 * p && val == u % w
    ensures val / p < 10
  {
    ModBelow(u, w);
    QuotientBelow(val, p, 10);
  }

  lemma NextPlace(q: nat, dig: nat, next: nat, ds: seq<nat>, first: bool)
    requires dig < 10 && next == 10 * q + dig
    requires if first then q == 0 && ds == [] && dig > 0 else q > 0 && ds == Digits(q, 10)
    ensures next > 0 && [dig] + ds == Digits(next, 10)
  {
    DigitsPush(q, dig);
    assert ds == [] ==> [dig] + ds == [dig];
  }

  lemma ModBelow(u: nat, d: nat)
    requires d > 0
    ensures u % d < d
  {
  }

  /** The search for the first table value that is not above u. */
  method FirstPlace(u: nat) returns (lp: nat, ndigs: nat)
    requires 0 < u < 0x1_0000_0000
    ensures lp <= 9 && ndigs == 10 - lp && DecTab[lp] <= u < 10 * DecTab[lp]
  {
    lp, ndigs := 0, 10;
    while DecTab[lp] > u
      invariant lp <= 9 && ndigs == 10 - lp && u < 10 * DecTab[lp]
    {
      lp, ndigs := lp + 1, ndigs - 1;
    }
  }

  method PutDigit(digs: array<nat>, n: nat, dig: nat, ghost places: nat, ghost ds: seq<nat>)
    requires n < places <= digs.Length && digs[n + 1..places] == ds
    modifies digs
    ensures digs[n..places] == [dig] + ds
  {
    digs[n] := dig;
    assert digs[n..places] == [dig] + digs[n + 1..places];
  }

  /** putn2. */
  method PutN2(u: nat, digs: array<nat>) returns (i: nat)
    requires u < 0x1_0000_0000 && digs.Length == 32
    modifies digs
    ensures i == |Digits(u, 10)| <= 32 && digs[..i] == Digits(u, 10)
  {
    if u == 0 {
      digs[0] := 0;
      return 1;
    }
    var lp, ndigs := FirstPlace(u);
    ghost var places := ndigs;
    ghost var ds := [];
    var val := u;
    i := 0;
    StartFound(u, places);
    while ndigs > 0
      invariant ndigs + lp == 10 && i + ndigs == places == ndigs + |ds|
      invariant Placed(u, ndigs, places, val, ds, digs[ndigs..places])
      decreases ndigs
    {
      val, ds := NextDigit(u, lp, ndigs, places, val, ds, digs);
      lp := lp + 1;
      ndigs := ndigs - 1;
      i := i + 1;
    }
    AllPlaced(u, places, val, ds);
  }

  /** The loop state of putn2: with n places left, what is found stands in the buffer. */
  ghost predicate Placed(u: nat, n: nat, places: nat, val: nat, ds: seq<nat>, stored: seq<nat>) {
    && 1 <= places <= 10 && n <= places && DecTab[10 - places] <= u && (n == places ==> val == u)
    && Found(u, Power(10, n), n, places, val, ds) && stored == ds
  }

  lemma AllPlaced(u: nat, places: nat, val: nat, ds: seq<nat>)
    requires Placed(u, 0, places, val, ds, ds)
    ensures ds == Digits(u, 10)
  {
    assert Power(10, 0) == 1 && u / 1 == u;
  }

  /** The body of the loop of putn2. */
  method NextDigit(u: nat, lp: nat, n: nat, ghost places: nat, val0: nat, ghost ds0: seq<nat>, digs: array<nat>)
      returns (val: nat, ghost ds: seq<nat>)
    requires n > 0 && lp + n == 10 && places <= digs.Length && n <= places
    requires Placed(u, n, places, val0, ds0, digs[n..places])
    modifies digs
    ensures |ds| == |ds0| + 1 && Placed(u, n - 1, places, val, ds, digs[n - 1..places])
  {
    PowerTen(n - 1);
    FoundNext(u, Power(10, n), n, places, val0, ds0, DecTab[lp]);
    var dig;
    dig, val := CountOut(val0, DecTab[lp]);
    PutDigit(digs, n - 1, dig, places, ds0);
    ds := [dig] + ds0;
  }

  lemma StartFound(u: nat, places: nat)
    requires 1 <= places <= 10 && u < 10 * DecTab[10 - places]
    ensures Found(u, Power(10, places), places, places, u, [])
  {
    PowerTen(places - 1);
    assert Power(10, places) == 10 * DecTab[10 - places];
    DivUnique(u, Power(10, places), 0, u);
  }

  // ------------------------------------------------------------ output

  /** The text is written at a position and nothing else is changed. */
  predicate Written(before: seq<char>, after: seq<char>, at: nat, text: seq<char>) {
    && |after| == |before| && at + |text| <= |before|
    && forall k :: 0 <= k < |before| ==> after[k] == if at <= k < at + |text| then text[k - at] else before[k]
  }

  lemma WrittenOn(a: seq<char>, b: seq<char>, c: seq<char>, at: nat, t: seq<char>, u: seq<char>)
    requires Written(a, b, at, t) && Written(b, c, at + |t|, u)
    ensures Written(a, c, at, t + u)
  {
  }

  method PutChars(c: char, n: int, out: array<char>, at: nat) returns (end: nat)
    requires at + |Repeat(c, n)| <= out.Length
    modifies out
    ensures end == at + |Repeat(c, n)| && Written(old(out[..]), out[..], at, Repeat(c, n))
  {
    var spaces := n;
    end := at;
    while spaces > 0
      invariant if n > 0 then 0 <= spaces && end - at == n - spaces else spaces == n && end == at
      invariant Written(old(out[..]), out[..], at, Repeat(c, end - at))
    {
      out[end] := c;
      end := end + 1;
      spaces := spaces - 1;
    }
  }

  lemma {:induction false} PrintedAt(ds: seq<nat>, k: nat)
    requires (forall j :: 0 <= j < |ds| ==> ds[j] < 36) && k < |ds|
    ensures Printed(ds)[k] == DigitChar(ds[|ds| - 1 - k])
    decreases |ds|
  {
    if k < |ds| - 1 {
      PrintedAt(ds[1..], k);
    }
  }

  /** The digits, last one first. */
  method PutDigits(digbuf: array<nat>, n: nat, out: array<char>, at: nat) returns (end: nat)
    requires n <= digbuf.Length && at + n <= out.Length && forall k :: 0 <= k < n ==> digbuf[k] < 36
    modifies out
    ensures end == at + n && Written(old(out[..]), out[..], at, Printed(digbuf[..n]))
  {
    ghost var ds := digbuf[..n];
    ghost var text := Printed(ds);
    var ndig := n;
    end := at;
    while ndig > 0
      invariant ndig <= n && end == at + (n - ndig)
      invariant Written(old(out[..]), out[..], at, text[..n - ndig])
    {
      ndig := ndig - 1;
      var temp := digbuf[ndig];
      if temp >= 10 {
        temp := temp + (65 - 48 - 10);
      }
      PrintedAt(ds, n - 1 - ndig);
      out[end] := (temp + 48) as char;
      end := end + 1;
    }
    assert text[..n] == text;
  }

  /** The first half of putnum: the digits and whether there is a minus sign. */
  method ToDigits(val0: Int32, radix: nat, sign: bool, digbuf: array<nat>) returns (ndig: nat, negflag: bool)
    requires digbuf.Length == 32
    modifies digbuf
    ensures negflag == Negative(val0, sign) && ndig <= 32
    ensures forall k :: 0 <= k < ndig ==> digbuf[k] < 36
    ensures Printed(digbuf[..ndig]) == Body(val0, radix, sign)
  {
    var val := val0;
    negflag := false;
    if sign && val < 0 {
      val := Wrap(-(val as int));
      if val < 0 {
        val := 0;
      }
      negflag := true;
    }
    assert Unsigned(val) == Magnitude(val0, sign);
    if radix == 10 {
      ndig := PutN2(Unsigned(val), digbuf);
      PrintedDigits(Unsigned(val), radix);
    } else if radix == 2 || radix == 8 || radix == 16 {
      ndig := SplitDigits(Unsigned(val), radix, digbuf);
      PrintedDigits(Unsigned(val), radix);
    } else {
      ndig := 0;
    }
    forall k | 0 <= k < ndig ensures digbuf[k] < 36 {
      assert digbuf[..ndig][k] < radix;
    }
  }

  /** putnum. */
  method PutNum(val: Int32, fmt: int, right: bool, radix: nat, sign: bool, fill: char, out: array<char>, at: nat)
      returns (end: nat)
    requires at + |Field(val, fmt, right, radix, sign, fill)| <= out.Length
    modifies out
    ensures end == at + |Field(val, fmt, right, radix, sign, fill)|
    ensures Written(old(out[..]), out[..], at, Field(val, fmt, right, radix, sign, fill))
  {
    var digbuf := new nat[32];
    var ndig, negflag := ToDigits(val, radix, sign, digbuf);
    end := PutJustified(negflag, digbuf, ndig, fmt, right, fill, out, at);
  }

  /** The second half of putnum. */
  method PutJustified(negflag: bool, digbuf: array<nat>, ndig: nat, fmt: int, right: bool, fill: char,
                      out: array<char>, at: nat)
      returns (end: nat)
    requires ndig <= digbuf.Length && forall k :: 0 <= k < ndig ==> digbuf[k] < 36
    requires at + |Justified(Minus(negflag) + Printed(digbuf[..ndig]), fmt, right, fill)| <= out.Length
    modifies out
    ensures end == at + |Justified(Minus(negflag) + Printed(digbuf[..ndig]), fmt, right, fill)|
    ensures Written(old(out[..]), out[..], at, Justified(Minus(negflag) + Printed(digbuf[..ndig]), fmt, right, fill))
  {
    var spaces := fmt - ndig - (if negflag then 1 else 0);
    assert spaces == fmt - |Minus(negflag) + Printed(digbuf[..ndig])|;
    if right {
      end := PutThenPad(negflag, digbuf, ndig, spaces, out, at);
    } else {
      end := PadThenPut(negflag, digbuf, ndig, spaces, fill, out, at);
    }
  }

  method PutThenPad(negflag: bool, digbuf: array<nat>, ndig: nat, spaces: int, out: array<char>, at: nat)
      returns (end: nat)
    requires ndig <= digbuf.Length && forall k :: 0 <= k < ndig ==> digbuf[k] < 36
    requires at + |Minus(negflag) + Printed(digbuf[..ndig]) + Repeat(' ', spaces)| <= out.Length
    modifies out
    ensures end == at + |Minus(negflag) + Printed(digbuf[..ndig]) + Repeat(' ', spaces)|
    ensures Written(old(out[..]), out[..], at, Minus(negflag) + Printed(digbuf[..ndig]) + Repeat(' ', spaces))
  {
    end := PutText(negflag, digbuf, ndig, out, at);
    ghost var mid := out[..];
    end := PutChars(' ', spaces, out, end);
    WrittenOn(old(out[..]), mid, out[..], at, Minus(negflag) + Printed(digbuf[..ndig]), Repeat(' ', spaces));
  }

  method PadThenPut(negflag: bool, digbuf: array<nat>, ndig: nat, spaces: int, fill: char, out: array<char>, at: nat)
      returns (end: nat)
    requires ndig <= digbuf.Length && forall k :: 0 <= k < ndig ==> digbuf[k] < 36
    requires at + |Repeat(fill, spaces) + (Minus(negflag) + Printed(digbuf[..ndig]))| <= out.Length
    modifies out
    ensures end == at + |Repeat(fill, spaces) + (Minus(negflag) + Printed(digbuf[..ndig]))|
    ensures Written(old(out[..]), out[..], at, Repeat(fill, spaces) + (Minus(negflag) + Printed(digbuf[..ndig])))
  {
    end := PutChars(fill, spaces, out, at);
    ghost var mid := out[..];
    end := PutText(negflag, digbuf, ndig, out, end);
    WrittenOn(old(out[..]), mid, out[..], at, Repeat(fill, spaces), Minus(negflag) + Printed(digbuf[..ndig]));
  }

  /** The sign and the digits. */
  method PutText(negflag: bool, digbuf: array<nat>, ndig: nat, out: array<char>, at: nat) returns (end: nat)
    requires ndig <= digbuf.Length && (forall k :: 0 <= k < ndig ==> digbuf[k] < 36)
    requires at + ndig + (if negflag then 1 else 0) <= out.Length
    modifies out
    ensures end == at + ndig + (if negflag then 1 else 0)
    ensures Written(old(out[..]), out[..], at, Minus(negflag) + Printed(digbuf[..ndig]))
  {
    end := at;
    if negflag {
      out[end] := '-';
      end := end + 1;
    }
    ghost var mid := out[..];
    assert Written(old(out[..]), mid, at, Minus(negflag));
    end := PutDigits(digbuf, ndig, out, end);
    WrittenOn(old(out[..]), mid, out[..], at, Minus(negflag), Printed(digbuf[..ndig]));
  }

  // ------------------------------------------------------------ input

  /** One more digit, reduced or not. */
  lemma OneMore(s: seq<char>, i: nat, j: nat, radix: nat, n: Int32)
    requires i <= j < |s| && n == Wrap(Horner(s, i, j, radix))
    ensures Wrap(n * radix + DigitValue(s[j])) == Wrap(Horner(s, i, j + 1, radix))
  {
    WrapEarly(Horner(s, i, j, radix), radix, DigitValue(s[j]));
  }

  /** RdArg: the field width in a format string. */
  method RdArg(s: seq<char>, at: nat) returns (ptr: nat, val: Int32)
    requires at <= |s|
    ensures ptr == SkipDigits(s, at, 10) && val == Wrap(Horner(s, at, ptr, 10))
  {
    ptr, val := at, 0;
    while '0' <= At(s, ptr) <= '9'
      invariant at <= ptr <= |s| && SkipDigits(s, ptr, 10) == SkipDigits(s, at, 10)
      invariant val == Wrap(Horner(s, at, ptr, 10))
      decreases |s| - ptr
    {
      var d := At(s, ptr) as int - 48;
      OneMore(s, at, ptr, 10, val);
      val := Wrap(val * 8 + val * 2 + d);
      ptr := ptr + 1;
    }
  }

  /** A width printed in decimal is the width RdArg reads. */
  lemma WidthRead(s: seq<char>, at: nat, width: nat)
    requires width < 0x8000_0000 && Digited(s, at, Numeral(width, 10), 10)
    ensures SkipDigits(s, at, 10) == at + |Numeral(width, 10)|
    ensures Wrap(Horner(s, at, SkipDigits(s, at, 10), 10)) == width
  {
    NumeralReads(width, 10);
    DigitedReads(s, at, Numeral(width, 10), 10);
    SmallUnwrapped(width);
  }

  lemma SmallUnwrapped(n: nat)
    ensures n < 0x8000_0000 ==> Wrap(n) == n
  {
  }

  /** The loop over leading blanks, in atoi and in atox. */
  method PassBlanks(s: seq<char>) returns (i: nat)
    ensures i == SkipBlanks(s, 0)
  {
    i := 0;
    while At(s, i) != '\0'
      invariant i <= |s| && SkipBlanks(s, i) == SkipBlanks(s, 0)
      decreases |s| - i
    {
      if At(s, i) != ' ' && At(s, i) != '\t' {
        break;
      }
      i := i + 1;
    }
  }

  /** The digit loop of atoi. */
  method ReadDigits(s: seq<char>, start: nat) returns (i: nat, n: Int32)
    requires start <= |s|
    ensures i == SkipDigits(s, start, 10) && n == Wrap(Horner(s, start, i, 10))
  {
    i, n := start, 0;
    while At(s, i) != '\0' && At(s, i) >= '0' && At(s, i) <= '9'
      invariant start <= i <= |s| && SkipDigits(s, i, 10) == SkipDigits(s, start, 10)
      invariant n == Wrap(Horner(s, start, i, 10))
      decreases |s| - i
    {
      var d := At(s, i) as int - 48;
      OneMore(s, start, i, 10, n);
      n := Wrap(n * 10 + d);
      i := i + 1;
    }
  }

  /** atoi. */
  method Atoi(s: seq<char>) returns (n: Int32)
    ensures n == AtoiValue(s)
  {
    var i := PassBlanks(s);
    var f := false;
    if At(s, i) == '-' {
      f, i := true, i + 1;
    }
    ghost var start := i;
    i, n := ReadDigits(s, i);
    if f {
      WrapEarly(Horner(s, start, i, 10), -1, 0);
      n := Wrap(-(n as int));
    }
  }

  /** The branches of the loop of atox; 16 stands for its break. */
  method HexDigit(c: char) returns (d: nat)
    ensures d == DigitValue(c)
  {
    if '0' <= c <= '9' {
      d := c as int - 48;
    } else if 'A' <= c <= 'F' {
      d := c as int - 65 + 10;
    } else if 'a' <= c <= 'f' {
      d := c as int - 97 + 10;
    } else {
      d := 16;
    }
  }

  /** The digit loop of atox. */
  method ReadHex(s: seq<char>, start: nat) returns (result: Int32)
    requires start <= |s|
    ensures result == Wrap(Horner(s, start, Min(start + 8, SkipDigits(s, start, 16)), 16))
  {
    var p, i := start, 0;
    result := 0;
    while i < 8
      invariant i <= 8 && p == start + i <= |s| && SkipDigits(s, p, 16) == SkipDigits(s, start, 16)
      invariant result == Wrap(Horner(s, start, p, 16))
    {
      var d := HexDigit(At(s, p));
      if d == 16 {
        break;
      }
      OneMore(s, start, p, 16, result);
      result := Wrap(result * 16 + d);
      p, i := p + 1, i + 1;
    }
  }

  /** atox. */
  method Atox(s: seq<char>) returns (result: Int32)
    ensures result == AtoxValue(s)
  {
    var p := PassBlanks(s);
    if At(s, p) == '0' && (At(s, p + 1) == 'x' || At(s, p + 1) == 'X') {
      p := p + 2;
    }
    result := ReadHex(s, p);
  }
}
