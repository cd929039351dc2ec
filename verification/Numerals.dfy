/** What the integer printer of software/libs/liborion_em_assembler/qprintf.c and the parsers atoi.c and atox.c mean:
    numerals, fields and the numbers read back. An int and a long have 32 bits. */
module Numerals {
  import opened Arithmetic
  import opened Values

  function Wrap(x: int): Int32 {
    var m := x % 0x1_0000_0000;
    if m < 0x8000_0000 then m else m - 0x1_0000_0000
  }

  lemma WrapOf(x: int)
    ensures exists k: int :: Wrap(x) == x + k * 0x1_0000_0000
  {
    assert x == (x / 0x1_0000_0000) * 0x1_0000_0000 + x % 0x1_0000_0000;
    var k := -(x / 0x1_0000_0000) - (if x % 0x1_0000_0000 < 0x8000_0000 then 0 else 1);
    assert Wrap(x) == x + k * 0x1_0000_0000;
  }

  lemma WrapShifted(x: int, k: int)
    ensures Wrap(x + k * 0x1_0000_0000) == Wrap(x)
  {
    var q, r := x / 0x1_0000_0000, x % 0x1_0000_0000;
    DivMod(x, 0x1_0000_0000);
    DivUnique(x + k * 0x1_0000_0000, 0x1_0000_0000, q + k, r);
  }

  /** Reducing before a multiplication and an addition, or only after them, makes no difference. */
  lemma WrapEarly(x: int, a: int, b: int)
    ensures Wrap(Wrap(x) * a + b) == Wrap(x * a + b)
  {
    WrapOf(x);
    var k: int :| Wrap(x) == x + k * 0x1_0000_0000;
    assert Wrap(x) * a + b == (x * a + b) + (k * a) * 0x1_0000_0000 by {
      assert (x + k * 0x1_0000_0000) * a == x * a + (k * a) * 0x1_0000_0000;
    }
    WrapShifted(x * a + b, k * a);
  }

  // ------------------------------------------------------------ numerals

  function DigitChar(d: nat): char
    requires d < 36
  {
    if d < 10 then (d + 48) as char else (d - 10 + 65) as char
  }

  /** The digits of v, least significant first: never empty, no zero at the end but that of zero itself. */
  function Digits(v: nat, radix: nat): (r: seq<nat>)
    requires radix > 1
    ensures r != [] && forall k :: 0 <= k < |r| ==> r[k] < radix
  {
    if v < radix then [v] else
      QuotientLess(v, radix);
      [v % radix] + Digits(v / radix, radix)
  }

  /** Digits as they are printed: most significant first. */
  function Printed(ds: seq<nat>): (r: seq<char>)
    requires forall k :: 0 <= k < |ds| ==> ds[k] < 36
    ensures |r| == |ds|
  {
    if ds == [] then [] else Printed(ds[1..]) + [DigitChar(ds[0])]
  }

  function Numeral(v: nat, radix: nat): (r: seq<char>)
    requires 1 < radix <= 16
    ensures r != []
  {
    if v < radix then [DigitChar(v)] else
      QuotientLess(v, radix);
      Numeral(v / radix, radix) + [DigitChar(v % radix)]
  }

  lemma {:induction false} PrintedDigits(v: nat, radix: nat)
    requires 1 < radix <= 16
    ensures Printed(Digits(v, radix)) == Numeral(v, radix)
    decreases v
  {
    if v < radix {
      assert Digits(v, radix)[1..] == [];
    } else {
      QuotientLess(v, radix);
      PrintedDigits(v / radix, radix);
      assert Digits(v, radix)[1..] == Digits(v / radix, radix);
    }
  }

  /** Place k of a text, counted from its end. */
  function FromEnd(t: seq<char>, k: nat): char
    requires k < |t|
  {
    t[|t| - 1 - k]
  }

  /** The character k places from the end stands for digit k; letters are capitals. */
  lemma NumeralAt(v: nat, radix: nat, k: nat)
    requires 1 < radix <= 16 && k < |Numeral(v, radix)|
    ensures Power(radix, k) > 0
    ensures FromEnd(Numeral(v, radix), k) == "0123456789ABCDEF"[v / Power(radix, k) % radix]
  {
    PowerPositive(radix, k);
    NumeralPlace(v, radix, k, Power(radix, k));
    Symbol(v / Power(radix, k) % radix);
  }

  lemma Symbol(d: nat)
    requires d < 16
    ensures DigitChar(d) == "0123456789ABCDEF"[d]
  {
  }

  lemma {:induction false} NumeralPlace(v: nat, radix: nat, k: nat, p: nat)
    requires 1 < radix <= 16 && k < |Numeral(v, radix)| && p == Power(radix, k) > 0
    ensures FromEnd(Numeral(v, radix), k) == DigitChar(v / p % radix)
    decreases k
  {
    if k == 0 {
      LastPlace(v, radix);
    } else {
      var p' := Power(radix, k - 1);
      PowerPositive(radix, k - 1);
      FurtherPlace(v, radix, k);
      NumeralPlace(v / radix, radix, k - 1, p');
      DivDiv(v, radix, p');
    }
  }

  lemma LastPlace(v: nat, radix: nat)
    requires 1 < radix <= 16
    ensures FromEnd(Numeral(v, radix), 0) == DigitChar(v % radix) && v / 1 == v
  {
  }

  lemma FurtherPlace(v: nat, radix: nat, k: nat)
    requires 1 < radix <= 16 && 0 < k < |Numeral(v, radix)|
    ensures k - 1 < |Numeral(v / radix, radix)|
    ensures FromEnd(Numeral(v, radix), k) == FromEnd(Numeral(v / radix, radix), k - 1)
  {
    NumeralOfMany(v, radix);
  }

  lemma {:induction false} PowerPositive(b: nat, n: nat)
    requires b > 0
    ensures Power(b, n) > 0
  {
    if n > 0 {
      PowerPositive(b, n - 1);
    }
  }

  lemma {:induction false} PowerSum(b: nat, m: nat, n: nat)
    ensures Power(b, m + n) == Power(b, m) * Power(b, n)
    decreases m
  {
    if m > 0 {
      PowerSum(b, m - 1, n);
      TimesAssoc(b, Power(b, m - 1), Power(b, n));
    }
  }

  function Power(b: nat, n: nat): nat {
    if n == 0 then 1 else b * Power(b, n - 1)
  }

  /** A number below radix^k has at most k digits. */
  lemma {:induction false} DigitsFit(v: nat, radix: nat, k: nat)
    requires radix > 1 && k > 0 && v < Power(radix, k)
    ensures |Digits(v, radix)| <= k
    decreases k
  {
    if v >= radix {
      assert Power(radix, 1) == radix * Power(radix, 0);
      assert k > 1;
      QuotientBelow(v, radix, Power(radix, k - 1));
      DigitsFit(v / radix, radix, k - 1);
    }
  }

  lemma QuotientBelow(v: nat, d: nat, b: nat)
    requires d > 0 && v < d * b
    ensures v / d < b
  {
    assert v == d * (v / d) + v % d;
    assert d * (v / d - b) == d * (v / d) - d * b;
  }

  lemma QuotientLess(v: nat, d: nat)
    requires d > 1 && v > 0
    ensures v / d < v
  {
    Larger(v, d);
    QuotientBelow(v, d, v);
  }

  lemma Larger(v: nat, d: nat)
    requires d > 1 && v > 0
    ensures v < d * v
  {
    assert d * v == v + (d - 1) * v;
    assert (d - 1) * v >= v;
  }

  /** The digit value of a character, in either case; 16 for any other. */
  function DigitValue(c: char): (r: nat)
    ensures r <= 16
  {
    if '0' <= c <= '9' then c as int - 48
    else if 'A' <= c <= 'F' then c as int - 65 + 10
    else if 'a' <= c <= 'f' then c as int - 97 + 10
    else 16
  }

  predicate AllDigits(s: seq<char>, radix: nat) {
    forall k :: 0 <= k < |s| ==> DigitValue(s[k]) < radix
  }

  /** The number that s stands for from i to j. */
  function Horner(s: seq<char>, i: nat, j: nat, radix: nat): nat
    requires j <= |s|
  {
    if j <= i then 0 else Horner(s, i, j - 1, radix) * radix + DigitValue(s[j - 1])
  }

  /** t stands in s at i. */
  predicate Holds(s: seq<char>, i: nat, t: seq<char>) {
    i + |t| <= |s| && forall k :: i <= k < i + |t| ==> s[k] == t[k - i]
  }

  lemma {:induction false} HornerHeld(s: seq<char>, i: nat, t: seq<char>, n: nat, radix: nat)
    requires Holds(s, i, t) && n <= |t|
    ensures Horner(s, i, i + n, radix) == Horner(t, 0, n, radix)
    decreases n
  {
    if n > 0 {
      HornerHeld(s, i, t, n - 1, radix);
      assert s[i + n - 1] == t[n - 1];
    }
  }

  /** The number a string of digits stands for. */
  function Value(s: seq<char>, radix: nat): nat {
    Horner(s, 0, |s|, radix)
  }

  lemma SnocReads(text: seq<char>, d: nat, radix: nat)
    requires d < radix <= 16 && AllDigits(text, radix)
    ensures Value(text + [DigitChar(d)], radix) == Value(text, radix) * radix + d
    ensures AllDigits(text + [DigitChar(d)], radix)
  {
    HornerHeld(text + [DigitChar(d)], 0, text, |text|, radix);
  }

  /** A numeral of several digits, without its last one. */
  lemma NumeralOfMany(v: nat, radix: nat)
    requires 1 < radix <= 16 && v >= radix
    ensures v % radix < radix && Numeral(v, radix) == Numeral(v / radix, radix) + [DigitChar(v % radix)]
  {
  }

  lemma OneDigit(v: nat, radix: nat)
    requires v < radix <= 16
    ensures Value([DigitChar(v)], radix) == v && AllDigits([DigitChar(v)], radix)
  {
    SnocReads([], v, radix);
    assert [] + [DigitChar(v)] == [DigitChar(v)];
    assert Value([], radix) == 0;
  }

  lemma {:induction false} NumeralReads(v: nat, radix: nat)
    requires 1 < radix <= 16
    ensures Value(Numeral(v, radix), radix) == v && AllDigits(Numeral(v, radix), radix)
    decreases v
  {
    if v < radix {
      OneDigit(v, radix);
    } else {
      DivMod(v, radix);
      QuotientLess(v, radix);
      NumeralOfMany(v, radix);
      NumeralReads(v / radix, radix);
      SnocReads(Numeral(v / radix, radix), v % radix, radix);
    }
  }

  lemma NumeralLength(v: nat, radix: nat)
    requires 1 < radix <= 16
    ensures |Numeral(v, radix)| == |Digits(v, radix)|
  {
    PrintedDigits(v, radix);
  }

  // ------------------------------------------------------------ the field

  function Repeat(c: char, n: int): (r: seq<char>)
    ensures |r| == (if n < 0 then 0 else n) && forall k :: 0 <= k < |r| ==> r[k] == c
  {
    if n <= 0 then [] else seq(n, _ => c)
  }

  predicate Negative(val: Int32, sign: bool) {
    sign && val < 0
  }

  /** The number whose digits are printed. The negation of -2^31 is negative again, and then zero is taken. */
  function Magnitude(val: Int32, sign: bool): nat {
    if !Negative(val, sign) then Unsigned(val) else if val == -0x8000_0000 then 0 else -val
  }

  /** The digits of a field: none for a radix putnum does not know. */
  function Body(val: Int32, radix: nat, sign: bool): seq<char> {
    if radix == 2 || radix == 8 || radix == 10 || radix == 16 then Numeral(Magnitude(val, sign), radix) else []
  }

  function Signed(negative: bool, v: nat): int {
    if negative then -(v as int) else v
  }

  function Minus(negative: bool): seq<char> {
    if negative then ['-'] else []
  }

  function Sign(val: Int32, sign: bool): seq<char> {
    Minus(Negative(val, sign))
  }

  /** What putnum prints. With `right` set the padding comes last and consists of spaces. */
  function Field(val: Int32, fmt: int, right: bool, radix: nat, sign: bool, fill: char): seq<char> {
    Justified(Sign(val, sign) + Body(val, radix, sign), fmt, right, fill)
  }

  function Justified(text: seq<char>, fmt: int, right: bool, fill: char): seq<char> {
    if right then text + Repeat(' ', fmt - |text|) else Repeat(fill, fmt - |text|) + text
  }

  /** A field is as long as its width or its text, whichever is longer. */
  lemma FieldLength(val: Int32, fmt: int, right: bool, radix: nat, sign: bool, fill: char)
    ensures var text := |Body(val, radix, sign)| + (if Negative(val, sign) then 1 else 0);
            |Field(val, fmt, right, radix, sign, fill)| == if fmt > text then fmt else text
  {
  }

  // ------------------------------------------------------------ reading back

  /** The character at k of a C string. */
  function At(s: seq<char>, k: nat): char {
    if k < |s| then s[k] else '\0'
  }

  predicate Blank(c: char) {
    c == ' ' || c == '\t'
  }

  /** The first position from i on that is not blank. */
  function SkipBlanks(s: seq<char>, i: nat): (n: nat)
    requires i <= |s|
    ensures i <= n <= |s| && (forall k :: i <= k < n ==> Blank(s[k])) && (n < |s| ==> !Blank(s[n]))
    decreases |s| - i
  {
    if i < |s| && Blank(s[i]) then SkipBlanks(s, i + 1) else i
  }

  /** The first position from i on that is no digit. */
  function SkipDigits(s: seq<char>, i: nat, radix: nat): (n: nat)
    requires i <= |s|
    ensures i <= n <= |s| && (forall k :: i <= k < n ==> DigitValue(s[k]) < radix)
    ensures n < |s| ==> DigitValue(s[n]) >= radix
    decreases |s| - i
  {
    if i < |s| && DigitValue(s[i]) < radix then SkipDigits(s, i + 1, radix) else i
  }

  /** atoi: blanks, one minus sign, digits; whatever follows is not looked at. */
  function AtoiValue(s: seq<char>): Int32 {
    var i := SkipBlanks(s, 0);
    if At(s, i) == '-' then Wrap(-(Horner(s, i + 1, SkipDigits(s, i + 1, 10), 10) as int))
    else Wrap(Horner(s, i, SkipDigits(s, i, 10), 10))
  }

  function SkipHexMark(s: seq<char>, i: nat): (n: nat)
    requires i <= |s|
    ensures i <= n <= |s|
  {
    if At(s, i) == '0' && (At(s, i + 1) == 'x' || At(s, i + 1) == 'X') then i + 2 else i
  }

  function Min(x: int, y: int): int {
    if x < y then x else y
  }

  /** atox: blanks, perhaps 0x or 0X, and up to eight digits. */
  function AtoxValue(s: seq<char>): Int32 {
    var i := SkipHexMark(s, SkipBlanks(s, 0));
    Wrap(Horner(s, i, Min(i + 8, SkipDigits(s, i, 16)), 16))
  }

  // ------------------------------------------------------------ reading a string

  /** Blanks up to b. */
  predicate Padded(s: seq<char>, b: nat) {
    b <= |s| && forall k :: 0 <= k < b ==> Blank(s[k])
  }

  /** The digits of t from i on, and then none. */
  predicate Digited(s: seq<char>, i: nat, t: seq<char>, radix: nat) {
    Holds(s, i, t) && AllDigits(t, radix) && t != [] && (i + |t| < |s| ==> DigitValue(s[i + |t|]) >= radix)
  }

  lemma PaddedSkips(s: seq<char>, b: nat)
    requires Padded(s, b) && b < |s| && !Blank(s[b])
    ensures SkipBlanks(s, 0) == b
  {
  }

  lemma DigitedReads(s: seq<char>, i: nat, t: seq<char>, radix: nat)
    requires Digited(s, i, t, radix)
    ensures SkipDigits(s, i, radix) == i + |t| && Horner(s, i, i + |t|, radix) == Value(t, radix)
    ensures DigitValue(s[i]) < radix
  {
    HornerHeld(s, i, t, |t|, radix);
    assert s[i] == t[0];
  }

  /** Blanks up to b, perhaps a minus sign, the digits, and then neither a digit nor the mark of a hexadecimal
      number. */
  predicate LaidOut(s: seq<char>, b: nat, minus: bool, digits: seq<char>, radix: nat) {
    var d := if minus then b + 1 else b;
    && Padded(s, b) && b < |s| && (minus ==> s[b] == '-')
    && Digited(s, d, digits, radix) && At(s, d + |digits|) != 'x' && At(s, d + |digits|) != 'X'
  }

  lemma AtoiReads(s: seq<char>, b: nat, negative: bool, digits: seq<char>)
    requires LaidOut(s, b, negative, digits, 10)
    ensures AtoiValue(s) == Wrap(Signed(negative, Value(digits, 10)))
  {
    DigitedReads(s, if negative then b + 1 else b, digits, 10);
    PaddedSkips(s, b);
  }

  lemma NoHexMark(s: seq<char>, b: nat, digits: seq<char>)
    requires Digited(s, b, digits, 16) && At(s, b + |digits|) != 'x' && At(s, b + |digits|) != 'X'
    ensures SkipHexMark(s, b) == b
  {
    if |digits| > 1 {
      assert s[b + 1] == digits[1];
    }
  }

  lemma AtoxReads(s: seq<char>, b: nat, digits: seq<char>)
    requires LaidOut(s, b, false, digits, 16)
    ensures AtoxValue(s) == Wrap(Horner(digits, 0, Min(8, |digits|), 16))
  {
    DigitedReads(s, b, digits, 16);
    PaddedSkips(s, b);
    NoHexMark(s, b, digits);
    HornerHeld(s, b, digits, Min(8, |digits|), 16);
  }

  // ------------------------------------------------------------ round trips

  predicate Ends(rest: seq<char>, radix: nat) {
    rest != [] ==> DigitValue(rest[0]) >= radix && rest[0] != 'x' && rest[0] != 'X'
  }

  /** How padding, sign, digits, more padding and a rest lie in the whole string. */
  lemma Layout(pad: seq<char>, minus: bool, digits: seq<char>, tail: seq<char>, rest: seq<char>, s: seq<char>,
               radix: nat)
    requires s == pad + (Minus(minus) + digits) + tail + rest && radix <= 16
    requires (forall k :: 0 <= k < |pad| ==> pad[k] == ' ') && (forall k :: 0 <= k < |tail| ==> tail[k] == ' ')
    requires digits != [] && AllDigits(digits, radix) && Ends(rest, radix)
    ensures LaidOut(s, |pad|, minus, digits, radix)
  {
    var d := if minus then |pad| + 1 else |pad|;
    assert Holds(s, d, digits);
    var e := d + |digits|;
    if e < |s| {
      assert s[e] == if tail != [] then tail[0] else rest[0];
    }
  }

  /** The number atoi finds in a field. */
  function Printable(val: Int32, sign: bool): int {
    Signed(Negative(val, sign), Magnitude(val, sign))
  }

  lemma PrintableIs(val: Int32, sign: bool)
    ensures Wrap(Printable(val, sign)) == val <==> !sign || val != -0x8000_0000
  {
  }

  /** The padding before and after the text of a field. */
  function Before(right: bool, pad: seq<char>): seq<char> {
    if right then [] else pad
  }

  lemma FieldLayout(right: bool, text: seq<char>, pad: seq<char>, rest: seq<char>)
    ensures (if right then text + pad else pad + text) + rest
         == Before(right, pad) + text + Before(!right, pad) + rest
  {
    assert [] + text == text;
    assert pad + text + [] == pad + text;
  }

  lemma AtoiLaidOut(pad: seq<char>, minus: bool, digits: seq<char>, tail: seq<char>, rest: seq<char>)
    requires (forall k :: 0 <= k < |pad| ==> pad[k] == ' ') && (forall k :: 0 <= k < |tail| ==> tail[k] == ' ')
    requires digits != [] && AllDigits(digits, 10) && Ends(rest, 10)
    ensures AtoiValue(pad + (Minus(minus) + digits) + tail + rest)
         == Wrap(Signed(minus, Value(digits, 10)))
  {
    var s := pad + (Minus(minus) + digits) + tail + rest;
    Layout(pad, minus, digits, tail, rest, s, 10);
    AtoiReads(s, |pad|, minus, digits);
  }

  lemma AtoxLaidOut(pad: seq<char>, digits: seq<char>, tail: seq<char>, rest: seq<char>)
    requires (forall k :: 0 <= k < |pad| ==> pad[k] == ' ') && (forall k :: 0 <= k < |tail| ==> tail[k] == ' ')
    requires digits != [] && AllDigits(digits, 16) && Ends(rest, 16)
    ensures AtoxValue(pad + (Minus(false) + digits) + tail + rest) == Wrap(Horner(digits, 0, Min(8, |digits|), 16))
  {
    var s := pad + (Minus(false) + digits) + tail + rest;
    Layout(pad, false, digits, tail, rest, s, 16);
    AtoxReads(s, |pad|, digits);
  }

  lemma AtoiSpaced(right: bool, pad: seq<char>, minus: bool, digits: seq<char>, rest: seq<char>)
    requires (forall k :: 0 <= k < |pad| ==> pad[k] == ' ') && digits != [] && AllDigits(digits, 10) && Ends(rest, 10)
    ensures var text := Minus(minus) + digits;
            AtoiValue((if right then text + pad else pad + text) + rest) ==
            Wrap(Signed(minus, Value(digits, 10)))
  {
    FieldLayout(right, Minus(minus) + digits, pad, rest);
    AtoiLaidOut(Before(right, pad), minus, digits, Before(!right, pad), rest);
  }

  lemma SpacedField(val: Int32, fmt: int, right: bool, sign: bool, rest: seq<char>)
    requires Ends(rest, 10)
    ensures AtoiValue(Field(val, fmt, right, 10, sign, ' ') + rest) == Wrap(Printable(val, sign))
  {
    var minus, digits := Negative(val, sign), Numeral(Magnitude(val, sign), 10);
    var text := Minus(minus) + digits;
    var pad := Repeat(' ', fmt - |text|);
    NumeralReads(Magnitude(val, sign), 10);
    AtoiSpaced(right, pad, minus, digits, rest);
  }

  /** Space fill, signed, either justification: atoi gives the number back, whatever the width and whatever follows
      but a digit, except for -2^31. */
  lemma SignedRoundTrip(val: Int32, fmt: int, right: bool, rest: seq<char>)
    requires Ends(rest, 10)
    ensures AtoiValue(Field(val, fmt, right, 10, true, ' ') + rest) == val <==> val != -0x8000_0000
  {
    SpacedField(val, fmt, right, true, rest);
    PrintableIs(val, true);
  }

  /** Unsigned, atoi wraps around to the number printed, always. */
  lemma UnsignedRoundTrip(val: Int32, fmt: int, right: bool, rest: seq<char>)
    requires Ends(rest, 10)
    ensures AtoiValue(Field(val, fmt, right, 10, false, ' ') + rest) == val
  {
    SpacedField(val, fmt, right, false, rest);
    PrintableIs(val, false);
  }

  /** The number that comes out as "-0". */
  lemma MinusZero()
    ensures Field(-0x8000_0000, -1, false, 10, true, ' ') == ['-', '0']
    ensures AtoiValue(['-', '0']) == 0
  {
    MinusZeroPrints();
    MinusZeroReads(['-', '0']);
  }

  lemma MinusZeroPrints()
    ensures Field(-0x8000_0000, -1, false, 10, true, ' ') == ['-', '0']
  {
    assert Numeral(0, 10) == ['0'];
  }

  lemma MinusZeroReads(f: seq<char>)
    requires f == Field(-0x8000_0000, -1, false, 10, true, ' ')
    ensures AtoiValue(f) == 0
  {
    SpacedField(-0x8000_0000, -1, false, true, []);
    assert f + [] == f;
  }

  /** Hexadecimal of a number below 2^32 has at most eight digits. */
  lemma HexFits(v: nat)
    requires v < 0x1_0000_0000
    ensures |Numeral(v, 16)| <= 8
  {
    assert Power(16, 8) == 0x1_0000_0000;
    DigitsFit(v, 16, 8);
    NumeralLength(v, 16);
  }

  lemma WrapUnsigned(val: Int32)
    ensures Wrap(Unsigned(val)) == val
  {
  }

  /** Space fill, hexadecimal, either justification: atox gives every 32-bit number back. */
  lemma HexRoundTrip(val: Int32, fmt: int, right: bool, rest: seq<char>)
    requires Ends(rest, 16)
    ensures AtoxValue(Field(val, fmt, right, 16, false, ' ') + rest) == val
  {
    var digits := Numeral(Unsigned(val), 16);
    var text := Minus(false) + digits;
    var pad := Repeat(' ', fmt - |text|);
    NumeralReads(Unsigned(val), 16);
    HexFits(Unsigned(val));
    WrapUnsigned(val);
    FieldLayout(right, text, pad, rest);
    AtoxLaidOut(Before(right, pad), digits, Before(!right, pad), rest);
  }

  // ------------------------------------------------------------ zero fill

  predicate Zeros(s: seq<char>, n: nat) {
    n <= |s| && forall k :: 0 <= k < n ==> s[k] == '0'
  }

  lemma {:induction false} HornerZeros(s: seq<char>, n: nat, j: nat, radix: nat)
    requires Zeros(s, n) && j <= |s|
    ensures Horner(s, 0, j, radix) == Horner(s, n, j, radix)
    decreases j
  {
    if j > 0 {
      HornerZeros(s, n, j - 1, radix);
    }
  }

  /** Dropping the last digits leaves only zero unchanged. */
  lemma {:induction false} HornerShorter(s: seq<char>, k: nat, j: nat)
    requires k < j <= |s|
    ensures Horner(s, 0, k, 16) <= Horner(s, 0, j, 16)
    ensures Horner(s, 0, k, 16) == Horner(s, 0, j, 16) ==> Horner(s, 0, j, 16) == 0
    decreases j
  {
    if k < j - 1 {
      HornerShorter(s, k, j - 1);
    }
  }

  /** Zeros in front of a numeral: digits of the same value. */
  lemma ZerosRead(zeros: seq<char>, digits: seq<char>, radix: nat)
    requires Zeros(zeros, |zeros|) && AllDigits(digits, radix) && radix > 0
    ensures AllDigits(zeros + digits, radix) && Value(zeros + digits, radix) == Value(digits, radix)
  {
    var s := zeros + digits;
    assert Zeros(s, |zeros|);
    HornerZeros(s, |zeros|, |s|, radix);
    HornerHeld(s, |zeros|, digits, |digits|, radix);
  }

  /** Hexadecimal with zero fill comes back exactly when the field is no wider than the eight digits atox reads, or
      the number is zero. */
  lemma ZeroFillHex(val: Int32, fmt: int)
    ensures AtoxValue(Field(val, fmt, false, 16, false, '0')) == val <==> fmt <= 8 || val == 0
  {
    NumeralReads(Unsigned(val), 16);
    HexFits(Unsigned(val));
    ZeroFilledDigits(val, Repeat('0', fmt - |Numeral(Unsigned(val), 16)|), Numeral(Unsigned(val), 16));
    NoSign(Numeral(Unsigned(val), 16));
  }

  lemma NoSign(digits: seq<char>)
    ensures Minus(false) + digits == digits
  {
  }

  lemma ZeroFilledDigits(val: Int32, zeros: seq<char>, digits: seq<char>)
    requires Zeros(zeros, |zeros|) && digits != [] && |digits| <= 8 && AllDigits(digits, 16)
    requires Value(digits, 16) == Unsigned(val)
    ensures AtoxValue(zeros + digits) == val <==> |zeros + digits| <= 8 || val == 0
  {
    var s := zeros + digits;
    ZerosRead(zeros, digits, 16);
    AtoxDigits(s);
    WrapUnsigned(val);
    WrapInjective(Horner(s, 0, Min(8, |s|), 16), Unsigned(val));
  }

  /** atox on digits alone: what it reads is their value if there are no more than eight, or if the value is zero. */
  lemma AtoxDigits(s: seq<char>)
    requires s != [] && AllDigits(s, 16)
    ensures AtoxValue(s) == Wrap(Horner(s, 0, Min(8, |s|), 16))
    ensures Horner(s, 0, Min(8, |s|), 16) <= Value(s, 16)
    ensures Horner(s, 0, Min(8, |s|), 16) == Value(s, 16) <==> |s| <= 8 || Value(s, 16) == 0
  {
    assert Holds(s, 0, s);
    AtoxReads(s, 0, s);
    if |s| > 8 {
      HornerShorter(s, 8, |s|);
    }
  }

  lemma WrapInjective(x: nat, y: nat)
    ensures x < 0x1_0000_0000 && y < 0x1_0000_0000 ==> (Wrap(x) == Wrap(y) <==> x == y)
  {
  }

  /** z zeros, perhaps a minus sign, and the digits to the end. */
  predicate Filled(s: seq<char>, z: nat, minus: bool, digits: seq<char>) {
    var d := if minus then z + 1 else z;
    Zeros(s, z) && Holds(s, d, digits) && d + |digits| == |s| && (minus ==> s[z] == '-')
  }

  lemma FilledParts(zeros: seq<char>, minus: bool, digits: seq<char>, s: seq<char>)
    requires s == zeros + (Minus(minus) + digits) && Zeros(zeros, |zeros|)
    ensures Filled(s, |zeros|, minus, digits)
  {
  }

  lemma AtoiUnsigned(s: seq<char>, z: nat, digits: seq<char>)
    requires Filled(s, z, false, digits) && digits != [] && AllDigits(digits, 10)
    ensures AtoiValue(s) == Wrap(Value(digits, 10))
  {
    HornerZeros(s, z, |s|, 10);
    HornerHeld(s, z, digits, |digits|, 10);
    AtoiReads(s, 0, false, s);
  }

  /** atoi stops at a minus sign that follows zeros. */
  lemma AtoiStops(s: seq<char>, z: nat, digits: seq<char>)
    requires Filled(s, z, true, digits) && z > 0
    ensures AtoiValue(s) == 0
  {
    var t := s[..z];
    HornerZeros(t, z, z, 10);
    AtoiReads(s, 0, false, t);
  }

  /** atoi on zeros and then a number. */
  lemma AtoiZeros(s: seq<char>, z: nat, minus: bool, digits: seq<char>)
    requires Filled(s, z, minus, digits) && digits != [] && AllDigits(digits, 10)
    ensures AtoiValue(s) == Wrap(if minus && z > 0 then 0 else Signed(minus, Value(digits, 10)))
  {
    if !minus {
      AtoiUnsigned(s, z, digits);
    } else if z == 0 {
      AtoiReads(s, 0, true, digits);
    } else {
      AtoiStops(s, z, digits);
    }
  }

  /** Decimal with zero fill: the zeros come before the sign, so a negative number comes back only without any. */
  lemma ZeroFillDecimal(val: Int32, fmt: int)
    ensures AtoiValue(Field(val, fmt, false, 10, true, '0')) == val
       <==> val >= 0 || (val != -0x8000_0000 && fmt <= |Body(val, 10, true)| + 1)
  {
    var digits := Body(val, 10, true);
    var zeros := Repeat('0', fmt - |Minus(val < 0) + digits|);
    var s := Field(val, fmt, false, 10, true, '0');
    NumeralReads(Magnitude(val, true), 10);
    FilledParts(zeros, val < 0, digits, s);
    AtoiZeros(s, |zeros|, val < 0, digits);
    PrintableIs(val, true);
  }
}
