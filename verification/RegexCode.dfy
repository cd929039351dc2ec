/** The byte code of software/libs/liborion_em_assembler/regex.c: what it stands for in terms of items. */
module RegexCode {
  import opened RegexSyntax
  import opened Sequences

  const CBRA: Char := 1
  const CCHR: Char := 2
  const CDOT: Char := 4
  const CCL: Char := 6
  const NCCL: Char := 8
  const CDOL: Char := 10
  const CEOF: Char := 11
  const CKET: Char := 12
  const CSTAR: Char := 1

  /** The characters lo+1, ..., hi, as the range loop stores them. */
  function Above(lo: Char, hi: Char): (m: seq<Char>)
    decreases hi - lo
  {
    if lo < hi then [lo + 1] + Above(lo + 1, hi) else []
  }

  function SpanCode(sp: Span): (m: seq<Char>)
    ensures m != []
  {
    match sp
    case Single(hi) => [hi]
    case Range(lo, hi) => RangeCode(lo, hi)
  }

  /** The characters lo+1, ..., hi, and then hi once more. */
  function RangeCode(lo: Char, hi: Char): (m: seq<Char>)
    ensures m != []
    decreases hi - lo
  {
    if lo < hi then [lo + 1] + RangeCode(lo + 1, hi) else [hi]
  }

  lemma {:induction false} RangeCodeIs(lo: Char, hi: Char)
    ensures RangeCode(lo, hi) == Above(lo, hi) + [hi]
    decreases hi - lo
  {
    if lo < hi {
      RangeCodeIs(lo + 1, hi);
    }
  }

  lemma SpanEnds(sp: Span)
    ensures SpanCode(sp)[|SpanCode(sp)| - 1] == sp.hi
  {
    if sp.Range? {
      RangeCodeIs(sp.lo, sp.hi);
    }
  }

  function ClassCode(spans: seq<Span>): (m: seq<Char>)
    ensures spans != [] ==> m != []
  {
    if spans == [] then []
    else if |spans| == 1 then SpanCode(spans[0])
    else ClassCode(spans[..|spans| - 1]) + SpanCode(spans[|spans| - 1])
  }

  lemma ClassCodeSnoc(spans: seq<Span>, sp: Span)
    ensures ClassCode(spans + [sp]) == ClassCode(spans) + SpanCode(sp)
  {
    assert (spans + [sp])[..|spans|] == spans;
    assert [] + SpanCode(sp) == SpanCode(sp);
  }

  /** The count byte of a class counts itself and must fit a signed char. */
  predicate Small(item: Item) {
    (item.One? || item.Star?) && item.a.Class? ==> |ClassCode(item.a.spans)| + 1 <= 127
  }

  predicate AllSmall(items: seq<Item>) {
    forall k {:trigger Small(items[k])} :: 0 <= k < |items| ==> Small(items[k])
  }

  function AtomCode(a: Atom, star: Char): (b: seq<Char>)
    requires 0 <= star <= CSTAR
    requires Small(One(a))
    ensures b != []
  {
    match a
    case Lit(c) => [CCHR + star, c]
    case AnyChar => [CDOT + star]
    case Class(spans, negated) =>
      [(if negated then NCCL else CCL) + star, |ClassCode(spans)| + 1] + ClassCode(spans)
  }

  function ItemCode(item: Item): (b: seq<Char>)
    requires Small(item)
    ensures b != []
  {
    match item
    case One(a) => AtomCode(a, 0)
    case Star(a) => assert Small(One(a)); AtomCode(a, CSTAR)
    case Open(n) => [CBRA, n % NBRA]
    case Close(n) => [CKET, n % NBRA]
    case AtEnd => [CDOL]
  }

  function Code(items: seq<Item>): (b: seq<Char>)
    requires AllSmall(items)
  {
    if items == [] then [] else ItemCode(items[0]) + Code(items[1..])
  }

  lemma CodeFirst(items: seq<Item>)
    requires items != [] && AllSmall(items)
    ensures Small(items[0]) && AllSmall(items[1..]) && Code(items) == ItemCode(items[0]) + Code(items[1..])
  {
    assert forall k :: 0 <= k < |items| - 1 ==> items[1..][k] == items[k + 1];
  }

  lemma SoundFirst(items: seq<Item>)
    requires items != [] && AllSound(items)
    ensures Sound(items[0]) && AllSound(items[1..])
  {
    forall k | 0 <= k < |items| - 1 ensures Sound(items[1..][k]) {
      assert Sound(items[k + 1]);
    }
  }

  lemma SmallConcat(xs: seq<Item>, ys: seq<Item>)
    ensures AllSmall(xs + ys) <==> AllSmall(xs) && AllSmall(ys)
  {
    assert forall k :: 0 <= k < |xs| ==> (xs + ys)[k] == xs[k];
    assert forall k :: 0 <= k < |ys| ==> (xs + ys)[|xs| + k] == ys[k];
  }

  lemma {:induction false} CodeConcat(xs: seq<Item>, ys: seq<Item>)
    requires AllSmall(xs) && AllSmall(ys)
    ensures AllSmall(xs + ys) && Code(xs + ys) == Code(xs) + Code(ys)
    decreases |xs|
  {
    SmallConcat(xs, ys);
    if xs == [] {
      assert xs + ys == ys;
      assert [] + Code(ys) == Code(ys);
    } else {
      var rest := xs[1..];
      CodeConcat(rest, ys);
      Rest(xs, ys);
      Assoc(ItemCode(xs[0]), Code(rest), Code(ys));
    }
  }

  lemma Rest(xs: seq<Item>, ys: seq<Item>)
    requires xs != []
    ensures (xs + ys)[0] == xs[0] && (xs + ys)[1..] == xs[1..] + ys
  {
  }

  lemma CodeSnoc(xs: seq<Item>, item: Item)
    requires AllSmall(xs) && Small(item)
    ensures AllSmall(xs + [item]) && Code(xs + [item]) == Code(xs) + ItemCode(item)
  {
    CodeConcat(xs, [item]);
  }

  // ------------------------------------------------------------ classes

  /** Each range starts from the member stored just before it. */
  predicate Chained(spans: seq<Span>) {
    spans != [] ==>
      var front, last := spans[..|spans| - 1], spans[|spans| - 1];
      Chained(front) && (last.Range? ==> front != [] && last.lo == front[|front| - 1].hi)
  }

  lemma ChainedSnoc(spans: seq<Span>, sp: Span)
    requires Chained(spans) && (sp.Range? ==> spans != [] && sp.lo == spans[|spans| - 1].hi)
    ensures Chained(spans + [sp])
  {
    assert (spans + [sp])[..|spans|] == spans;
  }

  lemma {:induction false} AboveHolds(lo: Char, hi: Char, c: Char)
    ensures c in Above(lo, hi) <==> lo < c <= hi
    decreases hi - lo
  {
    if lo < hi {
      AboveHolds(lo + 1, hi, c);
    }
  }

  lemma {:induction false} ClassCodeHolds(spans: seq<Span>, c: Char)
    requires Chained(spans)
    ensures c in ClassCode(spans) <==> InClass(spans, c)
  {
    if spans != [] {
      var n := |spans| - 1;
      var front, last := spans[..n], spans[n];
      ClassCodeHolds(front, c);
      SpanCodeHolds(last, c);
      InClassSnoc(front, last, c);
      assert spans == front + [last];
      ClassCodeSnoc(front, last);
      if last.Range? && c == last.lo {
        assert InSpan(front[n - 1], c);
      }
    }
  }

  lemma SpanCodeHolds(sp: Span, c: Char)
    ensures c in SpanCode(sp) <==> InSpan(sp, c) && !(sp.Range? && c == sp.lo < sp.hi)
  {
    if sp.Range? {
      RangeCodeIs(sp.lo, sp.hi);
      AboveHolds(sp.lo, sp.hi, c);
    }
  }

  lemma InClassSnoc(front: seq<Span>, last: Span, c: Char)
    ensures InClass(front + [last], c) <==> InClass(front, c) || InSpan(last, c)
  {
    var spans := front + [last];
    if InSpan(last, c) {
      assert InSpan(spans[|front|], c);
    }
    if InClass(front, c) {
      var k :| 0 <= k < |front| && InSpan(front[k], c);
      assert InSpan(spans[k], c);
    }
  }

  lemma {:induction false} ParseClassChained(p: Text, i: nat, spans: seq<Span>)
    requires i <= |p| && Chained(spans)
    ensures var r := ParseClass(p, i, spans); r.ClassOk? ==> Chained(r.spans)
    decreases |p| - i
  {
    if i == |p| || (p[i] == RBRACKET && spans != []) {
    } else if p[i] == DASH && spans != [] {
      ChainedSnoc(spans, Single(DASH));
      if i + 1 < |p| && p[i + 1] != RBRACKET {
        ChainedSnoc(spans, Range(spans[|spans| - 1].hi, p[i + 1]));
        ParseClassChained(p, i + 2, spans + [Range(spans[|spans| - 1].hi, p[i + 1])]);
      }
    } else {
      ChainedSnoc(spans, Single(p[i]));
      ParseClassChained(p, i + 1, spans + [Single(p[i])]);
    }
  }

  /** What the compiler guarantees of its items: no literal NUL, and chained classes. */
  predicate Sound(item: Item) {
    item.One? || item.Star? ==> match item.a
      case Lit(c) => c != 0
      case AnyChar => true
      case Class(spans, _) => Chained(spans)
  }

  predicate AllSound(items: seq<Item>) {
    forall k {:trigger Sound(items[k])} :: 0 <= k < |items| ==> Sound(items[k])
  }

  lemma {:induction false} ParseFromSound(p: Text, i: nat, nb: nat, open: seq<nat>)
    requires i <= |p|
    ensures var r := ParseFrom(p, i, nb, open); r.Items? ==> AllSound(r.items)
    decreases |p| - i, 0
  {
    if i == |p| {
    } else if p[i] == STAR || (p[i] == DOLLAR && i + 1 == |p|) {
      ParseFromSound(p, i + 1, nb, open);
    } else if p[i] == DOT {
      ParseStarsSound(AnyChar, p, i + 1, nb, open);
    } else if p[i] == LBRACKET {
      var start := if i + 1 < |p| && p[i + 1] == CARET then i + 2 else i + 1;
      var cls := ParseClass(p, start, []);
      ParseClassChained(p, start, []);
      if cls.ClassOk? {
        ParseStarsSound(Class(cls.spans, i + 1 < |p| && p[i + 1] == CARET), p, cls.next, nb, open);
      }
    } else if p[i] == BACKSLASH {
      if i + 1 < |p| {
        if p[i + 1] == LPAREN {
          if nb < NBRA { ParseFromSound(p, i + 2, nb + 1, open + [nb]); }
        } else if p[i + 1] == RPAREN {
          if open != [] { ParseFromSound(p, i + 2, nb, open[..|open| - 1]); }
        } else {
          ParseStarsSound(Lit(p[i + 1]), p, i + 2, nb, open);
        }
      }
    } else {
      ParseStarsSound(Lit(p[i]), p, i + 1, nb, open);
    }
  }

  lemma {:induction false} ParseStarsSound(a: Atom, p: Text, i: nat, nb: nat, open: seq<nat>)
    requires i <= |p| && Sound(One(a))
    ensures var r := ParseStars(a, p, i, nb, open); r.Items? ==> AllSound(r.items)
    decreases |p| - i, 1
  {
    ParseFromSound(p, SkipStars(p, i), nb, open);
  }

  // ------------------------------------------------------------ progress of the compiler

  lemma {:induction false} AboveSplit(lo: Char, mid: Char, hi: Char)
    requires lo <= mid <= hi
    ensures Above(lo, hi) == Above(lo, mid) + Above(mid, hi)
    decreases mid - lo
  {
    if lo < mid {
      AboveSplit(lo + 1, mid, hi);
    }
  }

  /** Parsing a class only adds members. */
  lemma {:induction false} ParseClassGrows(p: Text, i: nat, spans: seq<Span>)
    requires i <= |p|
    ensures var r := ParseClass(p, i, spans);
            !r.ClassUnmodelled? ==> |spans| <= |r.spans| && |ClassCode(spans)| <= |ClassCode(r.spans)|
    decreases |p| - i
  {
    if i == |p| || (p[i] == RBRACKET && spans != []) {
    } else if p[i] == DASH && spans != [] {
      ClassCodeSnoc(spans, Single(DASH));
      if i + 1 < |p| && p[i + 1] != RBRACKET {
        var sp := Range(spans[|spans| - 1].hi, p[i + 1]);
        ClassCodeSnoc(spans, sp);
        ParseClassGrows(p, i + 2, spans + [sp]);
      }
    } else {
      ClassCodeSnoc(spans, Single(p[i]));
      ParseClassGrows(p, i + 1, spans + [Single(p[i])]);
    }
  }

  /** The parse `r` of what follows, after the items already found. */
  function After(done: seq<Item>, r: Parse): Parse {
    match r
    case Items(items) => Items(done + items)
    case Bad(error, before, members) => Bad(error, done + before, members)
    case Unmodelled => Unmodelled
  }

  /** The last item found may still be starred by what follows it. */
  function Pending(item: Item, p: Text, i: nat, nb: nat, open: seq<nat>): Parse
    requires i <= |p| && (item.One? || item.Star?)
  {
    var j := SkipStars(p, i);
    Cons(if i < j then Star(item.a) else item, ParseFrom(p, j, nb, open))
  }

  lemma AfterSnoc(done: seq<Item>, item: Item, r: Parse)
    ensures After(done, Cons(item, r)) == After(done + [item], r)
  {
    match r
    case Items(items) => Assoc(done, [item], items);
    case Bad(error, before, members) => Assoc(done, [item], before);
    case Unmodelled =>
  }

  lemma PendingStep(item: Item, p: Text, i: nat, nb: nat, open: seq<nat>)
    requires i <= |p| && (item.One? || item.Star?)
    ensures i < |p| && p[i] == STAR ==> Pending(item, p, i, nb, open) == Pending(Star(item.a), p, i + 1, nb, open)
    ensures i == |p| || p[i] != STAR ==> Pending(item, p, i, nb, open) == Cons(item, ParseFrom(p, i, nb, open))
  {
  }

  /** The pattern compiles inside the modelled limits. */
  predicate Compilable(r: Parse, size: nat) {
    r.Items? && AllSmall(r.items) && |Code(r.items)| + 2 <= size
  }

  /** The error of the grammar is reached before the buffer is full: the items before it have their code, and so have
      the members of a class that is not closed. */
  predicate Reported(r: Parse, size: nat) {
    && r.Bad? && AllSmall(r.before) && |Code(r.before)| < size
    && (r.error == MissingBracket ==> ClassFits(|Code(r.before)|, r.members, size))
  }

  predicate ClassFits(ep: nat, members: seq<Span>, size: nat) {
    ep + 2 <= size && (members != [] ==> ep + 2 + |ClassCode(members)| < size)
  }

  /** Code that fills the buffer: whatever follows, the pattern does not compile and no error is reached. */
  lemma NoRoom(done: seq<Item>, r: Parse, size: nat)
    requires AllSmall(done) && |Code(done)| >= size
    ensures !Compilable(After(done, r), size) && !Reported(After(done, r), size)
  {
    match r
    case Items(items) => if AllSmall(done + items) { CodeGrows(done, items); }
    case Bad(error, before, members) => if AllSmall(done + before) { CodeGrows(done, before); }
    case Unmodelled =>
  }

  lemma CodeGrows(done: seq<Item>, items: seq<Item>)
    requires AllSmall(done) && AllSmall(done + items)
    ensures |Code(done)| <= |Code(done + items)|
  {
    SmallConcat(done, items);
    CodeConcat(done, items);
  }

  /** The same where the next item does not fit, or is a class with too many members. */
  lemma NoRoomFor(done: seq<Item>, item: Item, r: Parse, size: nat)
    requires AllSmall(done) && (Small(item) ==> |Code(done)| + |ItemCode(item)| >= size)
    ensures !Compilable(After(done, Cons(item, r)), size) && !Reported(After(done, Cons(item, r)), size)
  {
    AfterSnoc(done, item, r);
    if Small(item) {
      CodeSnoc(done, item);
      NoRoom(done + [item], r, size);
    } else {
      NotSmall(done, item, r);
    }
  }

  lemma NotSmall(done: seq<Item>, item: Item, r: Parse)
    requires !Small(item)
    ensures var w := After(done + [item], r); (w.Items? ==> !AllSmall(w.items)) && (w.Bad? ==> !AllSmall(w.before))
  {
    if r.Items? {
      assert !Small((done + [item] + r.items)[|done|]);
    } else if r.Bad? {
      assert !Small((done + [item] + r.before)[|done|]);
    }
  }

  /** The same for an atom, starred or not. */
  lemma NoRoomForAtom(done: seq<Item>, a: Atom, p: Text, i: nat, nb: nat, open: seq<nat>, size: nat)
    requires AllSmall(done) && i <= |p|
    requires Small(One(a)) ==> |Code(done)| + |AtomCode(a, 0)| >= size
    ensures !Compilable(After(done, ParseStars(a, p, i, nb, open)), size)
    ensures !Reported(After(done, ParseStars(a, p, i, nb, open)), size)
  {
    var item := if i < SkipStars(p, i) then Star(a) else One(a);
    NoRoomFor(done, item, ParseFrom(p, SkipStars(p, i), nb, open), size);
  }
}
