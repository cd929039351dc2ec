/** software/libs/liborion_em_assembler/regex.c: re_comp, re_exec, advance and cclass over the static
    buffer of byte codes. */
module RegexMachine {
  import opened RegexSyntax
  import opened RegexCode
  import opened Sequences

  const ESIZE: nat := 512

  const SIMPLE: set<Char> := {CCHR, CDOT, CDOL, CCL, NCCL, CBRA, CKET}

  // Outside: the pattern uses a back-reference, makes re_comp read past its terminator or write past
  // the end of the buffer, or has a class whose count does not fit the char that holds it.
  datatype Outcome = Compiled | Failed(error: Error) | Outside

  /** The bytes `code` stand at ep. */
  ghost predicate StandsAt(buf: seq<Char>, ep: nat, code: seq<Char>) {
    ep + |code| <= |buf| && forall k {:trigger Same(buf, ep, code, k)} :: 0 <= k < |code| ==> Same(buf, ep, code, k)
  }

  predicate Same(buf: seq<Char>, ep: nat, code: seq<Char>, k: nat)
    requires ep + |code| <= |buf| && k < |code|
  {
    buf[ep + k] == code[k]
  }

  /** The count byte and the members of a class stand at ep. */
  ghost predicate ClassHere(buf: seq<Char>, ep: nat, a: Atom)
    requires a.Class? && Small(One(a))
  {
    ep < |buf| && buf[ep] == |ClassCode(a.spans)| + 1 && StandsAt(buf, ep + 1, ClassCode(a.spans))
  }

  /** The number of code bytes of an item, and the first of them. */
  function Width(item: Item): (w: nat)
    requires Small(item)
    ensures 1 <= w
  {
    match item
    case AtEnd => 1
    case Open(_) => 2
    case Close(_) => 2
    case _ =>
      match item.a
      case Lit(_) => 2
      case AnyChar => 1
      case Class(spans, _) => 2 + |ClassCode(spans)|
  }

  function Opcode(item: Item): Char {
    match item
    case Open(_) => CBRA
    case Close(_) => CKET
    case AtEnd => CDOL
    case _ =>
      (match item.a
       case Lit(c) => CCHR
       case AnyChar => CDOT
       case Class(_, negated) => if negated then NCCL else CCL) + if item.Star? then CSTAR else 0
  }

  /** The code of one item at ep, byte by byte. */
  ghost predicate ItemHere(buf: seq<Char>, ep: nat, item: Item)
    requires Small(item)
  {
    match item
    case One(a) => AtomHere(buf, ep, a, 0)
    case Star(a) => AtomHere(buf, ep, a, CSTAR)
    case _ => ep + Width(item) <= |buf| && buf[ep] == Opcode(item)
  }

  ghost predicate AtomHere(buf: seq<Char>, ep: nat, a: Atom, star: Char)
    requires 0 <= star <= CSTAR && Small(One(a))
  {
    match a
    case Lit(c) => ep + 2 <= |buf| && buf[ep] == CCHR + star && buf[ep + 1] == c
    case AnyChar => ep < |buf| && buf[ep] == CDOT + star
    case Class(_, negated) =>
      ep < |buf| && buf[ep] == (if negated then NCCL else CCL) + star && ClassHere(buf, ep + 1, a)
  }

  /** The code of `items` stands at ep, item by item, with the end mark after it. */
  ghost predicate Program(buf: seq<Char>, ep: nat, items: seq<Item>)
    decreases |items|
  {
    if items == [] then ep < |buf| && buf[ep] == CEOF
    else Small(items[0]) && Sound(items[0]) && ItemHere(buf, ep, items[0])
         && Program(buf, ep + Width(items[0]), items[1..])
  }

  lemma StandsSplit(buf: seq<Char>, ep: nat, a: seq<Char>, b: seq<Char>)
    requires StandsAt(buf, ep, a + b)
    ensures StandsAt(buf, ep, a) && StandsAt(buf, ep + |a|, b)
  {
    forall k {:trigger Same(buf, ep, a, k)} | 0 <= k < |a| ensures Same(buf, ep, a, k) {
      assert Same(buf, ep, a + b, k);
    }
    forall k {:trigger Same(buf, ep + |a|, b, k)} | 0 <= k < |b| ensures Same(buf, ep + |a|, b, k) {
      assert Same(buf, ep, a + b, |a| + k);
    }
  }

  /** The end mark follows the code at ep. */
  predicate Marked(buf: seq<Char>, ep: nat, code: seq<Char>) {
    ep + |code| < |buf| && buf[ep + |code|] == CEOF
  }

  /** The codes of the items stand one after the other, and then the end mark. */
  ghost predicate LaidOut(buf: seq<Char>, ep: nat, items: seq<Item>)
    decreases |items|
  {
    if items == [] then Marked(buf, ep, [])
    else Small(items[0]) && StandsAt(buf, ep, ItemCode(items[0])) && LaidOut(buf, ep + |ItemCode(items[0])|, items[1..])
  }

  lemma {:induction false} CodeLaidOut(buf: seq<Char>, ep: nat, items: seq<Item>)
    requires AllSmall(items) && StandsAt(buf, ep, Code(items)) && Marked(buf, ep, Code(items))
    ensures LaidOut(buf, ep, items)
    decreases |items|
  {
    if items != [] {
      CodeFirst(items);
      StandsSplit(buf, ep, ItemCode(items[0]), Code(items[1..]));
      CodeLaidOut(buf, ep + |ItemCode(items[0])|, items[1..]);
    }
  }

  lemma {:induction false} LaidOutIsProgram(buf: seq<Char>, ep: nat, items: seq<Item>)
    requires LaidOut(buf, ep, items) && AllSound(items)
    ensures Program(buf, ep, items)
    decreases |items|
  {
    if items != [] {
      SoundFirst(items);
      DecodeItem(buf, ep, items[0]);
      LaidOutIsProgram(buf, ep + |ItemCode(items[0])|, items[1..]);
    }
  }

  /** Wherever the code of `items` stands with the end mark behind it, there is a program. */
  lemma CodeIsProgram(buf: seq<Char>, items: seq<Item>)
    requires AllSmall(items) && AllSound(items)
    ensures forall ep: nat :: StandsAt(buf, ep, Code(items)) && Marked(buf, ep, Code(items)) ==> Program(buf, ep, items)
  {
    forall ep: nat | StandsAt(buf, ep, Code(items)) && Marked(buf, ep, Code(items)) ensures Program(buf, ep, items) {
      CodeLaidOut(buf, ep, items);
      LaidOutIsProgram(buf, ep, items);
    }
  }

  lemma ProgramStored(buf: seq<Char>, code: seq<Char>)
    requires |code| + 2 <= |buf| && buf[..|code| + 2] == code + [CEOF, 0]
    ensures StandsAt(buf, 0, code) && Marked(buf, 0, code)
  {
    assert forall k :: 0 <= k < |code| + 2 ==> buf[k] == (code + [CEOF, 0])[k];
  }

  lemma DecodeItem(buf: seq<Char>, ep: nat, item: Item)
    requires Small(item) && StandsAt(buf, ep, ItemCode(item))
    ensures |ItemCode(item)| == Width(item) && ItemHere(buf, ep, item)
  {
    ItemBytes(item);
    assert Same(buf, ep, ItemCode(item), 0);
    if item.One? || item.Star? {
      assert |ItemCode(item)| > 1 ==> Same(buf, ep, ItemCode(item), 1);
      if item.a.Class? {
        ClassStands(buf, ep, ItemCode(item), ClassCode(item.a.spans));
      }
    }
  }

  lemma ClassStands(buf: seq<Char>, ep: nat, code: seq<Char>, members: seq<Char>)
    requires StandsAt(buf, ep, code) && |code| == 2 + |members| && code[2..] == members
    ensures StandsAt(buf, ep + 2, members)
  {
    forall k {:trigger Same(buf, ep + 2, members, k)} | 0 <= k < |members| ensures Same(buf, ep + 2, members, k) {
      assert Same(buf, ep, code, k + 2);
      assert code[2..][k] == code[k + 2];
    }
  }

  lemma MembersStand(buf: seq<Char>, ep: nat, members: seq<Char>)
    requires StandsAt(buf, ep, members)
    ensures buf[ep..ep + |members|] == members
  {
    forall k | 0 <= k < |members| ensures buf[ep + k] == members[k] {
      assert Same(buf, ep, members, k);
    }
  }

  lemma ItemBytes(item: Item)
    requires Small(item)
    ensures |ItemCode(item)| == Width(item) && ItemCode(item)[0] == Opcode(item)
    ensures item.One? || item.Star? ==>
              && (item.a.Lit? ==> ItemCode(item)[1] == item.a.c)
              && (item.a.Class? ==> ItemCode(item)[1] == |ClassCode(item.a.spans)| + 1)
              && (item.a.Class? ==> ItemCode(item)[2..] == ClassCode(item.a.spans))
  {
  }

  /** The first opcode of a program tells its first item. */
  lemma FirstItem(buf: seq<Char>, ep: nat, items: seq<Item>)
    requires Program(buf, ep, items)
    ensures buf[ep] != 0 && (buf[ep] == CEOF <==> items == [])
    ensures items != [] ==> (buf[ep] in SIMPLE <==> !items[0].Star?)
    ensures buf[ep] == CBRA || buf[ep] == CKET ==> items[0].Open? || items[0].Close?
    ensures buf[ep] == CDOL ==> items[0].AtEnd?
    ensures buf[ep] == CDOT ==> items[0] == One(AnyChar)
    ensures buf[ep] == CCHR ==> items[0] == One(Lit(buf[ep + 1]))
    ensures buf[ep] == CCL ==> items[0].One? && items[0].a.Class? && !items[0].a.negated
    ensures buf[ep] == NCCL ==> items[0].One? && items[0].a.Class? && items[0].a.negated
    ensures buf[ep] == CDOT + CSTAR ==> items[0] == Star(AnyChar)
    ensures buf[ep] == CCHR + CSTAR ==> items[0] == Star(Lit(buf[ep + 1]))
    ensures buf[ep] == CCL + CSTAR ==> items[0].Star? && items[0].a.Class? && !items[0].a.negated
    ensures buf[ep] == NCCL + CSTAR ==> items[0].Star? && items[0].a.Class? && items[0].a.negated
    ensures items != [] && items[0].Star? ==> buf[ep] in {CDOT + CSTAR, CCHR + CSTAR, CCL + CSTAR, NCCL + CSTAR}
  {
  }

  /** What re_comp finds out about the class that starts at i. */
  ghost predicate ClassPut(p: Text, i: nat, ep: nat, r: Outcome, next: nat, a: Atom)
    requires i <= |p|
  {
    var negated := At(p, i) == CARET;
    var cls := ParseClass(p, if negated then i + 1 else i, []);
    && (r.Compiled? ==> cls.ClassOk? && next == cls.next && a == Class(cls.spans, negated))
    && (r.Failed? && r.error != TooLong ==> r.error == MissingBracket && cls.ClassBad?)
    && (cls.ClassBad? ==> (r == Failed(MissingBracket) <==> ClassFits(ep, cls.spans, ESIZE)))
    && (!r.Compiled? && cls.ClassOk? ==> |ClassCode(cls.spans)| + 1 > 127 || ep + 2 + |ClassCode(cls.spans)| >= ESIZE)
  }

  class Regex {
    const expbuf: array<Char>
    var circf: bool
    ghost var source: Text  // the last pattern compiled

    /** The buffer holds the code of the last pattern compiled. */
    ghost predicate Loaded()
      reads this, expbuf
    {
      expbuf.Length == ESIZE
      && Body(source).Items?
      && circf == Anchored(source)
      && Program(expbuf[..], 0, Body(source).items)
    }

    /** The buffer holds no pattern: before the first call, and after a failed one. */
    ghost predicate Cleared()
      reads this, expbuf
    {
      expbuf.Length == ESIZE && expbuf[0] == 0
    }

    constructor ()
      ensures Cleared() && fresh(expbuf)
    {
      expbuf := new Char[ESIZE](_ => 0);
      circf := false;
      source := [];
    }

    /** Membership of c in the class stored at `start`; af tells what finding it means. */
    method Cclass(start: nat, c: Char, af: bool) returns (r: bool)
      requires start < expbuf.Length && 1 <= expbuf[start] && start + expbuf[start] <= expbuf.Length
      ensures r <==> c != 0 && (c in expbuf[start + 1..start + expbuf[start]] <==> af)
    {
      if c == 0 {
        return false;
      }
      var p, n := start + 1, expbuf[start] as int - 1;
      while n != 0
        invariant 0 <= n && p + n == start + expbuf[start]
        invariant c !in expbuf[start + 1..p]
        decreases n
      {
        if expbuf[p] == c {
          return af;
        }
        p, n := p + 1, n - 1;
      }
      return !af;
    }

    /** The one-character test behind an atom's code at ep. */
    method ClassTest(ghost a: Atom, ep: nat, c: Char, af: bool) returns (r: bool)
      requires a.Class? && Chained(a.spans) && Small(One(a)) && af == !a.negated
      requires ClassHere(expbuf[..], ep, a)
      ensures r <==> Accepts(a, c)
    {
      MembersStand(expbuf[..], ep + 1, ClassCode(a.spans));
      assert expbuf[..][ep + 1..ep + expbuf[ep] as int] == expbuf[ep + 1..ep + expbuf[ep] as int];
      ClassCodeHolds(a.spans, c);
      r := Cclass(ep, c, af);
    }

    /** Runs the code at ep0 on the subject from lp0: 1 exactly when the items it stands for match there,
        -1 on a cleared buffer. The loop is the source's loop over simple codes; a star tries its longest
        run first and gives back one character at a time. */
    method Advance(s: Text, lp0: nat, ep0: nat, ghost items: seq<Item>) returns (rv: int)
      requires lp0 <= |s| && ep0 < expbuf.Length
      requires expbuf[ep0] == 0 || (Program(expbuf[..], ep0, items))
      ensures expbuf[ep0] == 0 ==> rv == -1
      ensures expbuf[ep0] != 0 ==> rv == if Meets(items, s, lp0) then 1 else 0
      decreases |items|, 1
    {
      var lp, ep := lp0, ep0;
      ghost var rem := items;
      while true
        invariant 0 <= lp <= |s| && 0 <= ep < expbuf.Length
        invariant expbuf[ep0] == 0 ==> ep == ep0
        invariant expbuf[ep0] != 0 ==> Program(expbuf[..], ep, rem)
        invariant Meets(items, s, lp0) == Meets(rem, s, lp)
        invariant |rem| <= |items|
        decreases |rem|
      {
        var op := expbuf[ep];
        if op == 0 {
          return -1;
        }
        if op == CEOF {
          return 1;
        } else if op in SIMPLE {
          var ok: bool;
          ok, lp, ep := Simple(s, lp, ep, rem);
          if !ok {
            return 0;
          }
          rem := rem[1..];
        } else {
          rv := Starred(s, lp, ep, rem);
          return;
        }
      }
    }

    /** The one-character cases of advance: test c, step over the code. */
    method OneChar(ep0: nat, c: Char, ghost a: Atom) returns (ok: bool, ep: nat)
      requires Small(One(a)) && Sound(One(a)) && ItemHere(expbuf[..], ep0, One(a))
      ensures ok == Accepts(a, c) && ep == ep0 + Width(One(a))
    {
      var op := expbuf[ep0];
      ep := ep0 + 1;
      if op == CCHR {
        ok := expbuf[ep] == c;
        ep := ep + 1;
      } else if op == CDOT {
        ok := c != 0;
      } else {
        ok := ClassTest(a, ep, c, op == CCL);
        ep := ep + expbuf[ep] as int;
      }
    }

    /** The cases of advance that are not starred: whether the item passes, and where matching goes on. */
    method Simple(s: Text, lp0: nat, ep0: nat, ghost items: seq<Item>) returns (ok: bool, lp: nat, ep: nat)
      requires lp0 <= |s| && ep0 < expbuf.Length && Program(expbuf[..], ep0, items)
      requires expbuf[ep0] in SIMPLE
      ensures items != [] && !items[0].Star?
      ensures ep < expbuf.Length && Program(expbuf[..], ep, items[1..])
      ensures if ok then lp <= |s| && Meets(items, s, lp0) == Meets(items[1..], s, lp) else !Meets(items, s, lp0)
    {
      FirstItem(expbuf[..], ep0, items);
      ok, lp, ep := OneItem(s, lp0, ep0, items[0]);
      PlainStep(items, s, lp0);
      FirstItem(expbuf[..], ep, items[1..]);
    }

    /** The code of one item that is not starred. */
    method OneItem(s: Text, lp0: nat, ep0: nat, ghost item: Item) returns (ok: bool, lp: nat, ep: nat)
      requires lp0 <= |s| && !item.Star? && Small(item) && Sound(item) && ItemHere(expbuf[..], ep0, item)
      ensures ep == ep0 + Width(item) && ok == PlainTest(item, s, lp0) && lp == PlainNext(item, lp0)
    {
      var op := expbuf[ep0];
      lp, ep := lp0, ep0 + 1;
      if op == CDOL {
        ok := At(s, lp) == 0;
      } else if op == CBRA || op == CKET {
        ok := true;
        ep := ep + 1;
      } else {
        ok, ep := OneChar(ep0, At(s, lp), item.a);
        lp := lp + 1;
      }
    }

    /** The starred cases of advance. */
    method Starred(s: Text, lp: nat, ep0: nat, ghost items: seq<Item>) returns (rv: int)
      requires lp <= |s| && ep0 < expbuf.Length && Program(expbuf[..], ep0, items)
      requires expbuf[ep0] !in SIMPLE && expbuf[ep0] != CEOF
      ensures rv == if Meets(items, s, lp) then 1 else 0
      decreases |items|, 0
    {
      var op, ep := expbuf[ep0], ep0 + 1;
      FirstItem(expbuf[..], ep0, items);
      var top: nat;
      ghost var a := items[0].a;
      if op == CDOT + CSTAR {
        top := RunAny(s, lp);
      } else if op == CCHR + CSTAR {
        top := RunChar(s, lp, ep);
        ep := ep + 1;
      } else {
        top := RunClass(a, s, lp, ep, op == CCL + CSTAR);
        ep := ep + expbuf[ep] as int;
      }
      rv := GiveBack(s, lp, top, ep, items);
    }

    /** The loop of the starred dot. */
    method RunAny(s: Text, curlp: nat) returns (lp: nat)
      requires curlp <= |s|
      ensures LongestRun(AnyChar, s, curlp, lp)
    {
      lp := curlp;
      while At(s, lp) != 0
        invariant curlp <= lp <= |s|
        decreases |s| - lp
      {
        lp := lp + 1;
      }
    }

    /** The loop of the starred character whose code argument stands at ep. */
    method RunChar(s: Text, curlp: nat, ep: nat) returns (lp: nat)
      requires curlp <= |s| && ep < expbuf.Length && expbuf[ep] != 0
      ensures LongestRun(Lit(expbuf[ep]), s, curlp, lp)
    {
      lp := curlp;
      while At(s, lp) == expbuf[ep]
        invariant curlp <= lp <= |s|
        invariant forall k :: curlp <= k < lp ==> Accepts(Lit(expbuf[ep]), s[k])
        decreases |s| - lp
      {
        lp := lp + 1;
      }
    }

    /** The loop of a starred class. */
    method RunClass(ghost a: Atom, s: Text, curlp: nat, ep: nat, af: bool) returns (lp: nat)
      requires curlp <= |s|
      requires a.Class? && Chained(a.spans) && Small(One(a)) && af == !a.negated
      requires ClassHere(expbuf[..], ep, a)
      ensures LongestRun(a, s, curlp, lp)
    {
      lp := curlp;
      var yes := ClassTest(a, ep, At(s, lp), af);
      while yes
        invariant curlp <= lp <= |s|
        invariant forall k :: curlp <= k < lp ==> Accepts(a, s[k])
        invariant yes <==> Accepts(a, At(s, lp))
        decreases |s| - lp
      {
        lp := lp + 1;
        yes := ClassTest(a, ep, At(s, lp), af);
      }
    }

    /** The label `star` of advance: continue after the longest run, then after each shorter one. */
    method GiveBack(s: Text, curlp: nat, top: nat, ep: nat, ghost items: seq<Item>) returns (rv: int)
      requires items != [] && items[0].Star? && LongestRun(items[0].a, s, curlp, top)
      requires ep < expbuf.Length && Program(expbuf[..], ep, items[1..])
      ensures rv == if Meets(items, s, curlp) then 1 else 0
      decreases |items| - 1, 3
    {
      StarWithinRun(items, s, curlp, top);
      rv := TryBack(s, curlp, top, ep, items[1..]);
    }

    method TryBack(s: Text, curlp: nat, top: nat, ep: nat, ghost rest: seq<Item>) returns (rv: int)
      requires ep < expbuf.Length && Program(expbuf[..], ep, rest) && curlp <= top <= |s|
      ensures rv == 0 || rv == 1
      ensures rv == 1 <==> exists j: nat :: curlp <= j <= top && Meets(rest, s, j)
      decreases |rest|, 2
    {
      FirstItem(expbuf[..], ep, rest);
      var lp := top + 1;
      var more := true;
      while more
        invariant curlp <= lp <= top + 1
        invariant more <==> lp > curlp
        invariant forall j: nat :: lp <= j <= top ==> !Meets(rest, s, j)
        decreases lp
      {
        lp := lp - 1;
        rv := Advance(s, lp, ep, rest);
        if rv != 0 {
          return;
        }
        more := lp > curlp;
      }
      return 0;
    }

    /** re_exec: 1 when the pattern last compiled matches from some start position (only the first under a
        caret), 0 when it does not, -1 when there is none. */
    method ReExec(s: Text) returns (rv: int)
      requires Loaded() || Cleared()
      ensures Cleared() ==> rv == -1
      ensures Loaded() ==> rv == if Denotes(source, s) then 1 else 0
    {
      ghost var items := if Loaded() then Body(source).items else [];
      if Loaded() {
        FirstItem(expbuf[..], 0, items);
        forall i: nat ensures Meets(items, s, i) <==> MatchesAt(items, s, i) {
          MeetsIsMatch(items, s, i);
        }
      }
      if circf {
        rv := Advance(s, 0, 0, items);
        return;
      }
      var p1 := 0;
      var more := true;
      if expbuf[0] == CCHR {
        var c := expbuf[1];
        while more
          invariant 0 <= p1 <= |s| + 1 && (more <==> p1 <= |s|)
          invariant forall i: nat :: i < p1 ==> !Meets(items, s, i)
          decreases |s| + 1 - p1
        {
          if At(s, p1) == c {
            rv := Advance(s, p1, 0, items);
            if rv != 0 {
              return;
            }
          }
          more := At(s, p1) != 0;
          p1 := p1 + 1;
        }
        return 0;
      }
      while more
        invariant 0 <= p1 <= |s| + 1 && (more <==> p1 <= |s|)
        invariant Cleared() ==> more
        invariant Loaded() ==> forall i: nat :: i < p1 ==> !Meets(items, s, i)
        decreases |s| + 1 - p1
      {
        rv := Advance(s, p1, 0, items);
        if rv != 0 {
          return;
        }
        more := At(s, p1) != 0;
        p1 := p1 + 1;
      }
      return 0;
    }

    // ---------------------------------------------------------- re_comp

    /** The buffer starts with the bytes `out`. */
    ghost predicate Holds(out: seq<Char>)
      reads expbuf
    {
      |out| <= expbuf.Length == ESIZE && expbuf[..|out|] == out
    }

    method Put(ep: nat, bytes: seq<Char>, ghost out: seq<Char>)
      requires Holds(out) && ep == |out| && ep + |bytes| <= ESIZE
      modifies expbuf
      ensures Holds(out + bytes)
    {
      for k := 0 to |bytes|
        invariant expbuf[..ep + k] == out + bytes[..k]
      {
        expbuf[ep + k] := bytes[k];
      }
    }

    /** The inner loop of a range: the characters after the last stored one, up to hi. */
    method PutRange(ep0: nat, hi: Char, ghost out: seq<Char>) returns (fits: bool, ep: nat)
      requires Holds(out) && 1 <= ep0 == |out| < ESIZE
      modifies expbuf
      ensures fits ==> ep == ep0 + |Above(out[ep0 - 1], hi)| < ESIZE && Holds(out + Above(out[ep0 - 1], hi))
      ensures !fits ==> ep0 + |Above(out[ep0 - 1], hi)| >= ESIZE
    {
      ep := ep0;
      ghost var lo := out[ep0 - 1];
      ghost var cur := out;
      while expbuf[ep - 1] < hi
        invariant ep0 <= ep == |cur| < ESIZE && Holds(cur) && lo <= cur[ep - 1]
        invariant cur[ep - 1] <= hi || ep == ep0
        invariant cur == out + Above(lo, cur[ep - 1])
        decreases hi - expbuf[ep - 1]
      {
        ghost var mid := expbuf[ep - 1];
        AboveSplit(lo, mid, mid + 1);
        AboveSplit(lo, mid + 1, hi);
        Assoc(out, Above(lo, mid), [mid + 1]);
        Put(ep, [expbuf[ep - 1] + 1], cur);
        ep, cur := ep + 1, cur + [mid + 1];
        if ep >= ESIZE {
          return false, ep;
        }
      }
      fits := true;
    }

    /** A bracketed class, from the character after its opening bracket. */
    method PutClass(p: Text, i0: nat, ep0: nat, ghost out: seq<Char>)
      returns (r: Outcome, i: nat, ep: nat, ghost a: Atom)
      requires i0 <= |p| && Holds(out) && ep0 == |out| < ESIZE
      modifies expbuf
      ensures ClassPut(p, i0, ep0, r, i, a)
      ensures r.Compiled? ==> Small(One(a)) && ep == ep0 + |AtomCode(a, 0)| && Holds(out + AtomCode(a, 0))
    {
      i, ep := i0, ep0;
      var op := CCL;
      if At(p, i) == CARET {
        op := NCCL;
        i := i + 1;
      }
      ghost var negated := op == NCCL;
      a := Class([], negated);
      if ep + 2 > ESIZE {
        return Outside, i, ep, a;
      }
      Put(ep, [op, 0], out);
      ghost var spans;
      r, i, ep, spans := PutMembers(p, i, ep + 2, out + [op, 0]);
      a := Class(spans, negated);
      if r.Compiled? {
        var cclcnt := ep - ep0 - 1;
        if cclcnt > 127 {
          return Outside, i, ep, a;
        }
        Count(ep0 + 1, cclcnt, out, a);
      }
    }

    /** The members of a class, up to its closing bracket. */
    method PutMembers(p: Text, i0: nat, ep0: nat, ghost out: seq<Char>)
      returns (r: Outcome, i: nat, ep: nat, ghost spans: seq<Span>)
      requires i0 <= |p| && Holds(out) && 1 <= ep0 == |out| && out[ep0 - 1] == 0
      modifies expbuf
      ensures r.Compiled? ==> ParseClass(p, i0, []) == ClassOk(spans, i)
      ensures r.Compiled? ==> ep == ep0 + |ClassCode(spans)| && Holds(out + ClassCode(spans))
      ensures r.Failed? && r.error != TooLong ==> r.error == MissingBracket && ParseClass(p, i0, []).ClassBad?
      ensures var cls := ParseClass(p, i0, []);
              if r == Failed(MissingBracket) then cls.spans != [] ==> ep0 + |ClassCode(cls.spans)| < ESIZE
              else !r.Compiled? && !cls.ClassUnmodelled? ==> cls.spans != [] && ep0 + |ClassCode(cls.spans)| >= ESIZE
    {
      ghost var cls := ParseClass(p, i0, []);
      var c, more := At(p, i0), true;
      i, ep, spans, r := i0 + 1, ep0, [], Compiled;
      ghost var cur := out;
      while more
        invariant i0 < i && r.Compiled? && Holds(cur) && Gathering(p, i, ep, c, more, spans, out, cur, cls)
        decreases more, |p| + 1 - i
      {
        if c == 0 {
          return Failed(MissingBracket), i, ep, spans;
        }
        r, more, i, ep, c, spans, cur := AddMember(p, i, ep, c, spans, out, cur, cls);
        if !r.Compiled? {
          return;
        }
      }
    }

    /** The body of the loop of PutMembers. */
    method AddMember(p: Text, i0: nat, ep0: nat, c0: Char, ghost spans0: seq<Span>, ghost out: seq<Char>,
                     ghost cur0: seq<Char>, ghost cls: ClassParse)
      returns (r: Outcome, more: bool, i: nat, ep: nat, c: Char, ghost spans: seq<Span>, ghost cur: seq<Char>)
      requires Holds(cur0) && Gathering(p, i0, ep0, c0, true, spans0, out, cur0, cls) && c0 != 0
      modifies expbuf
      ensures r.Compiled? ==> i0 < i && Holds(cur) && Gathering(p, i, ep, c, more, spans, out, cur, cls)
      ensures r == Compiled || r == Outside || r == Failed(TooLong)
      ensures !r.Compiled? && !cls.ClassUnmodelled? ==> cls.spans != [] && |out| + |ClassCode(cls.spans)| >= ESIZE
    {
      c := c0;
      r, more, i, ep, spans, cur := StoreMember(p, i0, ep0, c0, spans0, out, cur0, cls);
      if r.Compiled? && more {
        GatheredNext(p, i, ep, spans, out, cur, cls);
        c := At(p, i);
        i := i + 1;
        more := c != RBRACKET;
      }
    }

    /** Up to the read of the next character. */
    method StoreMember(p: Text, i0: nat, ep0: nat, c0: Char, ghost spans0: seq<Span>, ghost out: seq<Char>,
                       ghost cur0: seq<Char>, ghost cls: ClassParse)
      returns (r: Outcome, more: bool, i: nat, ep: nat, ghost spans: seq<Span>, ghost cur: seq<Char>)
      requires Holds(cur0) && Gathering(p, i0, ep0, c0, true, spans0, out, cur0, cls) && c0 != 0
      modifies expbuf
      ensures r.Compiled? ==> Holds(cur) && Stored(ep, spans, out, cur) && spans != [] && spans[|spans| - 1].hi != 0
      ensures r.Compiled? ==> i0 <= i <= |p| && (more ==> ep < ESIZE) && (!more ==> i0 < i)
      ensures r.Compiled? ==> cls == if more then ParseClass(p, i, spans) else ClassOk(spans, i)
      ensures r == Compiled || r == Outside || r == Failed(TooLong)
      ensures !r.Compiled? && !cls.ClassUnmodelled? ==> cls.spans != [] && |out| + |ClassCode(cls.spans)| >= ESIZE
    {
      var added: nat;
      ghost var sp: Span;
      r, more, i, added, sp := PutMember(p, i0, ep0, c0, spans0, cur0);
      ep, spans, cur := ep0, spans0, cur0;
      if r.Compiled? {
        MemberStored(ep0, spans0, sp, out, cur0);
        ep, spans, cur := ep0 + added, spans0 + [sp], cur0 + SpanCode(sp);
      }
    }

    /** One member of a class: the character c, read just before i, or the range it makes after a dash. */
    method PutMember(p: Text, i0: nat, ep0: nat, c0: Char, ghost spans: seq<Span>, ghost out: seq<Char>)
      returns (r: Outcome, more: bool, i: nat, added: nat, ghost sp: Span)
      requires 1 <= i0 <= |p| && c0 == p[i0 - 1] && Holds(out) && 1 <= ep0 == |out|
      requires out[ep0 - 1] == if spans == [] then 0 else spans[|spans| - 1].hi
      requires spans != [] ==> c0 != RBRACKET && ep0 < ESIZE && spans[|spans| - 1].hi != 0
      modifies expbuf
      ensures r.Compiled? ==> i0 <= i <= |p| && added == |SpanCode(sp)| && sp.hi != 0 && Holds(out + SpanCode(sp))
      ensures r.Compiled? && more ==> ParseClass(p, i0 - 1, spans) == ParseClass(p, i, spans + [sp])
      ensures r.Compiled? && more ==> ep0 + added < ESIZE
      ensures r.Compiled? && !more ==> ParseClass(p, i0 - 1, spans) == ClassOk(spans + [sp], i) && i0 < i
      ensures r == Compiled || r == Outside || r == Failed(TooLong)
      ensures !r.Compiled? ==> var cls := ParseClass(p, i0 - 1, spans);
                !cls.ClassUnmodelled? ==> cls.spans != [] && ep0 + |ClassCode(cls.spans)| >= ESIZE + |ClassCode(spans)|
    {
      i, more := i0, true;
      if c0 == DASH && expbuf[ep0 - 1] != 0 {
        r, more, i, added, sp := PutDash(p, i0, ep0, spans, out);
      } else {
        sp := Single(c0);
        r := PutLast(p, i, ep0, c0, spans, sp, out, out);
        added := 1;
      }
    }

    /** A dash after a member: itself before the closing bracket, else the range up to the next character. */
    method PutDash(p: Text, i0: nat, ep0: nat, ghost spans: seq<Span>, ghost out: seq<Char>)
      returns (r: Outcome, more: bool, i: nat, added: nat, ghost sp: Span)
      requires 1 <= i0 <= |p| && p[i0 - 1] == DASH && Holds(out) && 1 <= ep0 == |out| < ESIZE
      requires spans != [] && out[ep0 - 1] == spans[|spans| - 1].hi
      modifies expbuf
      ensures r.Compiled? ==> i0 <= i <= |p| && added == |SpanCode(sp)| && sp.hi != 0 && Holds(out + SpanCode(sp))
      ensures r.Compiled? && more ==> ParseClass(p, i0 - 1, spans) == ParseClass(p, i, spans + [sp])
      ensures r.Compiled? && more ==> ep0 + added < ESIZE
      ensures r.Compiled? && !more ==> ParseClass(p, i0 - 1, spans) == ClassOk(spans + [sp], i) && i0 < i
      ensures r == Compiled || r == Outside || r == Failed(TooLong)
      ensures !r.Compiled? ==> var cls := ParseClass(p, i0 - 1, spans);
                !cls.ClassUnmodelled? ==> cls.spans != [] && ep0 + |ClassCode(cls.spans)| >= ESIZE + |ClassCode(spans)|
    {
      DashParse(p, i0, spans);
      i, more, added, sp := i0, true, 0, Single(DASH);
      var c := At(p, i);
      if c == 0 {
        return Outside, more, i, 0, sp;
      }
      i := i + 1;
      if c == RBRACKET {
        Put(ep0, [DASH], out);
        return Compiled, false, i, 1, sp;
      }
      sp := Range(expbuf[ep0 - 1], c);
      r, added := PutSpan(p, i, ep0, c, spans, sp, out);
    }

    /** The characters of a range after its first, and its last one again. */
    method PutSpan(ghost p: Text, ghost i: nat, ep0: nat, c: Char, ghost spans: seq<Span>, ghost sp: Span,
                   ghost out: seq<Char>)
      returns (r: Outcome, added: nat)
      requires i <= |p| && Holds(out) && 1 <= ep0 == |out| < ESIZE && sp == Range(out[ep0 - 1], c)
      modifies expbuf
      ensures r.Compiled? ==> added == |SpanCode(sp)| && Holds(out + SpanCode(sp)) && ep0 + added < ESIZE
      ensures r == Compiled || r == Outside || r == Failed(TooLong)
      ensures !r.Compiled? ==> var cls := ParseClass(p, i, spans + [sp]);
                !cls.ClassUnmodelled? ==> cls.spans != [] && ep0 + |ClassCode(cls.spans)| >= ESIZE + |ClassCode(spans)|
    {
      var fits, ep := PutRange(ep0, c, out);
      RangeCodeIs(sp.lo, c);
      if !fits {
        ClassCodeSnoc(spans, sp);
        ParseClassGrows(p, i, spans + [sp]);
        return Failed(TooLong), 0;
      }
      Assoc(out, Above(sp.lo, c), [c]);
      r := PutLast(p, i, ep, c, spans, sp, out, out + Above(sp.lo, c));
      added := ep + 1 - ep0;
    }

    /** The character itself, after the rest of its range if it ends one. */
    method PutLast(ghost p: Text, ghost i: nat, ep: nat, c: Char, ghost spans: seq<Span>, ghost sp: Span,
                   ghost out: seq<Char>, ghost cur: seq<Char>)
      returns (r: Outcome)
      requires i <= |p| && Holds(cur) && ep == |cur| && cur + [c] == out + SpanCode(sp)
      modifies expbuf
      ensures r.Compiled? ==> Holds(out + SpanCode(sp)) && ep + 1 < ESIZE
      ensures r == Compiled || r == Outside || r == Failed(TooLong)
      ensures !r.Compiled? ==>
                var cls := ParseClass(p, i, spans + [sp]);
                !cls.ClassUnmodelled? ==>
                  cls.spans != [] && |out| + |ClassCode(cls.spans)| >= ESIZE + |ClassCode(spans)|
    {
      ClassCodeSnoc(spans, sp);
      ParseClassGrows(p, i, spans + [sp]);
      assert |cur| + 1 == |out| + |SpanCode(sp)|;
      if ep >= ESIZE {
        return Outside;
      }
      Put(ep, [c], cur);
      if ep + 1 >= ESIZE {
        return Failed(TooLong);
      }
      r := Compiled;
    }

    /** Fills in the count byte of a class. */
    method Count(at: nat, n: Char, ghost out: seq<Char>, ghost a: Atom)
      requires a.Class? && n == 1 + |ClassCode(a.spans)| && at == |out| + 1
      requires Holds(out + [if a.negated then NCCL else CCL, 0] + ClassCode(a.spans))
      modifies expbuf
      ensures Small(One(a)) && |AtomCode(a, 0)| == 1 + n && Holds(out + AtomCode(a, 0))
    {
      ghost var op := if a.negated then NCCL else CCL;
      ghost var was := out + [op, 0] + ClassCode(a.spans);
      expbuf[at] := n;
      assert Holds(was[at := n]);
      assert AtomCode(a, 0) == [op, n] + ClassCode(a.spans);
      CountCode(out, op, n, ClassCode(a.spans));
    }

    /** One turn of the loop of re_comp, for a character that does not star what precedes it. */
    method PutItem(p: Text, i0: nat, ep0: nat, nb0: nat, open0: seq<nat>, ghost done: seq<Item>)
      returns (r: Outcome, i: nat, ep: nat, nb: nat, open: seq<nat>, ghost item: Item, ghost starrable: bool)
      requires i0 < |p| && AllSmall(done) && Holds(Code(done)) && ep0 == |Code(done)| < ESIZE
      modifies expbuf
      ensures r.Compiled? ==> i0 < i <= |p| && Small(item) && Holds(Code(done) + ItemCode(item))
      ensures r.Compiled? ==> ep == ep0 + |ItemCode(item)|
      ensures r.Compiled? ==> (starrable <==> item.One? && p[i0] != STAR)
      ensures r.Compiled? ==> !item.Star? && (item.AtEnd? ==> i == |p|)
      ensures r.Compiled? && starrable ==>
                ParseFrom(p, i0, nb0, open0) == Pending(item, p, i, nb, open)
      ensures r.Compiled? && !starrable ==>
                ParseFrom(p, i0, nb0, open0) == Cons(item, ParseFrom(p, i, nb, open))
      ensures !r.Compiled? ==> Rejects(r, After(done, ParseFrom(p, i0, nb0, open0)))
    {
      var c := At(p, i0);
      i, ep, nb, open, r := i0 + 1, ep0, nb0, open0, Compiled;
      starrable := c != STAR;
      if c == DOT {
        item := One(AnyChar);
        Put(ep, [CDOT], Code(done));
        ep := ep + 1;
      } else if c == DOLLAR && At(p, i) == 0 {
        item, starrable := AtEnd, false;
        Put(ep, [CDOL], Code(done));
        ep := ep + 1;
      } else if c == LBRACKET {
        ghost var a;
        r, i, ep, a := PutClass(p, i, ep, Code(done));
        item := One(a);
        if !r.Compiled? {
          ClassFails(p, i0, nb0, open0, done, r, i, a);
        }
      } else if c == BACKSLASH {
        r, i, ep, nb, open, item := PutEscape(p, i, ep, nb, open, done);
        starrable := item.One?;
      } else {
        item := One(Lit(c));
        r, ep := PutPair(ep, CCHR, c, done);
        if !r.Compiled? {
          LiteralFails(p, i0, nb0, open0, done);
        }
      }
    }

    /** Two bytes of code, where they fit. */
    method PutPair(ep0: nat, op: Char, arg: Char, ghost done: seq<Item>) returns (r: Outcome, ep: nat)
      requires AllSmall(done) && Holds(Code(done)) && ep0 == |Code(done)| < ESIZE
      modifies expbuf
      ensures r.Compiled? ==> ep == ep0 + 2 && Holds(Code(done) + [op, arg])
      ensures !r.Compiled? ==> r == Outside && |Code(done)| + 2 > ESIZE
    {
      if ep0 + 2 > ESIZE {
        return Outside, ep0;
      }
      Put(ep0, [op, arg], Code(done));
      return Compiled, ep0 + 2;
    }

    /** The character or group mark behind a backslash. */
    method PutEscape(p: Text, i0: nat, ep0: nat, nb0: nat, open0: seq<nat>, ghost done: seq<Item>)
      returns (r: Outcome, i: nat, ep: nat, nb: nat, open: seq<nat>, ghost item: Item)
      requires i0 <= |p|
      requires AllSmall(done) && Holds(Code(done)) && ep0 == |Code(done)| < ESIZE
      modifies expbuf
      ensures item.One? || item.Open? || item.Close?
      ensures r.Compiled? ==> i == i0 + 1 <= |p| && Small(item) && Holds(Code(done) + ItemCode(item))
      ensures r.Compiled? ==> ep == ep0 + |ItemCode(item)|
      ensures r.Compiled? && item.One? ==>
                ParseEscape(p, i0, nb0, open0) == Pending(item, p, i, nb, open)
      ensures r.Compiled? && !item.One? ==>
                ParseEscape(p, i0, nb0, open0) == Cons(item, ParseFrom(p, i, nb, open))
      ensures !r.Compiled? ==> Rejects(r, After(done, ParseEscape(p, i0, nb0, open0)))
    {
      var c := At(p, i0);
      i, ep, nb, open, r := i0 + 1, ep0, nb0, open0, Outside;
      item := One(Lit(c));
      if c == 0 || ONE <= c < ONE + NBRA {
        return;
      }
      if c == LPAREN {
        r, ep, item := PutOpen(p, i0, ep, nb, open, done);
        nb, open := nb + 1, open + [nb];
      } else if c == RPAREN {
        r, ep, open, item := PutClose(p, i0, ep, nb, open, done);
      } else {
        r, ep := PutPair(ep, CCHR, c, done);
        if !r.Compiled? {
          NoRoomForAtom(done, Lit(c), p, i0 + 1, nb0, open0, ESIZE);
        }
      }
    }

    /** An opening group mark. */
    method PutOpen(p: Text, i0: nat, ep0: nat, nb: nat, ghost open: seq<nat>, ghost done: seq<Item>)
      returns (r: Outcome, ep: nat, ghost item: Item)
      requires i0 < |p| && p[i0] == LPAREN
      requires AllSmall(done) && Holds(Code(done)) && ep0 == |Code(done)| < ESIZE
      modifies expbuf
      ensures r.Compiled? ==> Small(item) && Holds(Code(done) + ItemCode(item)) && ep == ep0 + |ItemCode(item)|
      ensures r.Compiled? ==> ParseEscape(p, i0, nb, open) == Cons(item, ParseFrom(p, i0 + 1, nb + 1, open + [nb]))
      ensures !r.Compiled? ==> Rejects(r, After(done, ParseEscape(p, i0, nb, open)))
      ensures item == Open(nb)
    {
      assert done + [] == done;
      item := Open(nb);
      if nb >= NBRA {
        return Failed(TooManyPairs), ep0, item;
      }
      r, ep := PutPair(ep0, CBRA, nb, done);
      if !r.Compiled? {
        NoRoomFor(done, item, ParseFrom(p, i0 + 1, nb + 1, open + [nb]), ESIZE);
      }
    }

    /** A closing group mark. */
    method PutClose(p: Text, i0: nat, ep0: nat, ghost nb: nat, open0: seq<nat>, ghost done: seq<Item>)
      returns (r: Outcome, ep: nat, open: seq<nat>, ghost item: Item)
      requires i0 < |p| && p[i0] == RPAREN
      requires AllSmall(done) && Holds(Code(done)) && ep0 == |Code(done)| < ESIZE
      modifies expbuf
      ensures r.Compiled? ==> Small(item) && Holds(Code(done) + ItemCode(item)) && ep == ep0 + |ItemCode(item)|
      ensures r.Compiled? ==> ParseEscape(p, i0, nb, open0) == Cons(item, ParseFrom(p, i0 + 1, nb, open))
      ensures !r.Compiled? ==> Rejects(r, After(done, ParseEscape(p, i0, nb, open0)))
      ensures item.Close?
    {
      assert done + [] == done;
      item, ep, open := Close(0), ep0, open0;
      if open == [] {
        return Failed(UnmatchedClose), ep, open, item;
      }
      var top := open[|open| - 1];
      open := open[..|open| - 1];
      item := Close(top);
      r, ep := PutPair(ep0, CKET, top % NBRA, done);
      if !r.Compiled? {
        NoRoomFor(done, item, ParseFrom(p, i0 + 1, nb, open), ESIZE);
      }
    }

    /** re_comp: compiles exactly the patterns inside the modelled limits; a failure clears the buffer, and an
        empty pattern keeps the last one. */
    method ReComp(sp: Text) returns (r: Outcome)
      requires Loaded() || Cleared()
      modifies this, expbuf
      ensures sp == [] ==> expbuf[..] == old(expbuf[..]) && circf == old(circf) && source == old(source)
      ensures sp == [] ==> r == if old(expbuf[0]) == 0 then Failed(NoPrevious) else Compiled
      ensures sp != [] ==> (r.Compiled? <==> Compilable(Body(sp), ESIZE))
      ensures sp != [] && r.Compiled? ==> Loaded() && source == sp
      ensures sp != [] && !r.Compiled? ==> Rejects(r, Body(sp))
      ensures sp != [] && r.Failed? ==> Cleared()
    {
      if sp == [] {
        return if expbuf[0] == 0 then Failed(NoPrevious) else Compiled;
      }
      var i := 0;
      circf := sp[0] == CARET;
      if circf {
        i := 1;
      }
      source := sp;
      r := PutItems(sp, i);
      if r.Compiled? {
        ghost var items := Body(sp).items;
        ParseFromSound(sp, i, 0, []);
        ProgramStored(expbuf[..], Code(items));
        CodeIsProgram(expbuf[..], items);
      } else if r.Failed? {
        expbuf[0] := 0;
      }
    }

    /** The loop of re_comp. `done` are the items found; while `pend`, the last of them may still be starred. */
    method PutItems(p: Text, i0: nat) returns (r: Outcome)
      requires i0 <= |p| && expbuf.Length == ESIZE
      modifies expbuf
      ensures var whole := ParseFrom(p, i0, 0, []);
              && (r.Compiled? <==> Compilable(whole, ESIZE))
              && (r.Compiled? ==> Holds(Code(whole.items) + [CEOF, 0]))
              && (!r.Compiled? ==> Rejects(r, whole))
    {
      var i, ep, lastep, nb, open := i0, 0, -1, 0, [];
      ghost var whole := ParseFrom(p, i0, 0, []);
      ghost var done, pend := [], false;
      while true
        invariant i <= |p| && State(p, i, nb, open, done, pend, lastep, whole)
        invariant Holds(Code(done)) && ep == |Code(done)|
        decreases |p| - i
      {
        Settle(p, i, nb, open, done, pend, lastep, whole);
        if ep >= ESIZE {
          Full(p, i, nb, open, done, pend, lastep, whole);
          return Failed(TooLong);
        }
        var c := At(p, i);
        if c == 0 {
          r := PutEnd(p, i, ep, nb, open, done, whole);
          return;
        }
        if c == STAR && !(lastep == -1 || expbuf[lastep] == CBRA || expbuf[lastep] == CKET) {
          MarkStar(lastep, done);
          i, done := i + 1, done[..|done| - 1] + [Star(done[|done| - 1].a)];
        } else {
          ghost var at, nb0, open0, last0 := i, nb, open, lastep;
          if c != STAR {
            lastep := ep;
          }
          ghost var item;
          r, i, ep, nb, open, item, pend := PutItem(p, i, ep, nb, open, done);
          if !r.Compiled? {
            return;
          }
          Found(p, at, nb0, open0, last0, i, nb, open, done, item, pend, whole);
          done := done + [item];
        }
      }
    }

    /** The end of the pattern. */
    method PutEnd(p: Text, i: nat, ep: nat, ghost nb: nat, open: seq<nat>, ghost done: seq<Item>, ghost whole: Parse)
      returns (r: Outcome)
      requires i == |p| && whole == After(done, ParseFrom(p, i, nb, open))
      requires AllSmall(done) && Holds(Code(done)) && ep == |Code(done)| < ESIZE
      modifies expbuf
      ensures r.Compiled? <==> Compilable(whole, ESIZE)
      ensures r.Compiled? ==> Holds(Code(whole.items) + [CEOF, 0])
      ensures !r.Compiled? ==> Rejects(r, whole)
    {
      assert done + [] == done;
      if open != [] {
        return Failed(UnmatchedOpen);
      }
      if ep + 2 > ESIZE {
        return Outside;
      }
      Put(ep, [CEOF, 0], Code(done));
      return Compiled;
    }

    /** `*lastep |= CSTAR` */
    method MarkStar(lastep: nat, ghost done: seq<Item>)
      requires AllSmall(done) && Holds(Code(done)) && EndsAt(done, lastep)
      modifies expbuf
      ensures var starred := done[..|done| - 1] + [Star(done[|done| - 1].a)];
              AllSmall(starred) && |Code(starred)| == |Code(done)| && Holds(Code(starred))
    {
      StarredEnd(done, lastep);
      if expbuf[lastep] % 2 == 0 {
        expbuf[lastep] := expbuf[lastep] + CSTAR;
      }
      assert Holds(Code(done)[lastep := expbuf[lastep]]);
    }
  }

  /** re_comp gives a pattern up: with the error of the grammar where that is reached, else for lack of room. */
  ghost predicate Rejects(r: Outcome, whole: Parse) {
    && !r.Compiled? && !Compilable(whole, ESIZE)
    && if r.Failed? && r.error != TooLong
       then Reported(whole, ESIZE) && whole.error == r.error
       else !Reported(whole, ESIZE)
  }

  /** The last item is an atom, and its code starts at `lastep`. */
  ghost predicate EndsAt(done: seq<Item>, lastep: int) {
    done != [] && AllSmall(done)
    && AllSmall(done[..|done| - 1]) && lastep == |Code(done[..|done| - 1])|
    && (done[|done| - 1].One? || done[|done| - 1].Star?)
  }

  lemma EndCode(done: seq<Item>, lastep: int)
    requires EndsAt(done, lastep)
    ensures Code(done) == Code(done[..|done| - 1]) + ItemCode(done[|done| - 1])
    ensures 0 <= lastep < |Code(done)| && Code(done)[lastep] !in {CBRA, CKET}
  {
    var front, last := done[..|done| - 1], done[|done| - 1];
    assert done == front + [last];
    CodeSnoc(front, last);
    AtomOpcode(last);
    UpdateTail(Code(front), ItemCode(last), 0);
  }

  lemma AtomOpcode(item: Item)
    requires Small(item) && (item.One? || item.Star?)
    ensures ItemCode(item)[0] == Opcode(item) && Opcode(item) !in {CBRA, CKET} && 0 <= Opcode(item) <= NCCL + CSTAR
  {
    ItemBytes(item);
  }

  lemma StarredEnd(done: seq<Item>, lastep: int)
    requires EndsAt(done, lastep)
    ensures 0 <= lastep < |Code(done)| && 0 <= Code(done)[lastep] <= NCCL + CSTAR
    ensures var op := Code(done)[lastep];
            var starred := done[..|done| - 1] + [Star(done[|done| - 1].a)];
            && AllSmall(starred)
            && Code(starred) == Code(done)[lastep := if op % 2 == 0 then op + CSTAR else op]
  {
    var front, item := done[..|done| - 1], done[|done| - 1];
    EndCode(done, lastep);
    StarredCode(item);
    CodeSnoc(front, Star(item.a));
    UpdateTail(Code(front), ItemCode(item), ItemCode(Star(item.a))[0]);
  }

  /** The loop state of re_comp: what is found and what is still to be parsed make up the whole pattern.
      While `pend`, the last item may still be starred; otherwise a star has nothing to apply to. */
  ghost predicate State(p: Text, i: nat, nb: nat, open: seq<nat>, done: seq<Item>, pend: bool, lastep: int,
                        whole: Parse)
    requires i <= |p|
  {
    && AllSmall(done)
    && (pend ==>
          EndsAt(done, lastep)
          && whole == After(done[..|done| - 1], Pending(done[|done| - 1], p, i, nb, open)))
    && (!pend ==>
          whole == After(done, ParseFrom(p, i, nb, open))
          && (lastep == -1 || i == |p| || (0 <= lastep < |Code(done)| && Code(done)[lastep] in {CBRA, CKET})))
  }

  /** A character other than a star settles the last item; a star applies to it, if it is an atom. */
  lemma Settle(p: Text, i: nat, nb: nat, open: seq<nat>, done: seq<Item>, pend: bool, lastep: int, whole: Parse)
    requires i <= |p| && State(p, i, nb, open, done, pend, lastep, whole)
    ensures pend ==> 0 <= lastep < |Code(done)| && Code(done)[lastep] !in {CBRA, CKET}
    ensures !(pend && i < |p| && p[i] == STAR) ==> whole == After(done, ParseFrom(p, i, nb, open))
    ensures pend && i < |p| && p[i] == STAR ==>
              var front, last := done[..|done| - 1], done[|done| - 1];
              Small(Star(last.a)) && State(p, i + 1, nb, open, front + [Star(last.a)], true, lastep, whole)
  {
    if pend {
      EndCode(done, lastep);
      if i < |p| && p[i] == STAR {
        SettleStar(p, i, nb, open, done, lastep, whole);
      } else {
        SettleOther(p, i, nb, open, done, lastep, whole);
      }
    }
  }

  lemma SettleOther(p: Text, i: nat, nb: nat, open: seq<nat>, done: seq<Item>, lastep: int, whole: Parse)
    requires i <= |p| && State(p, i, nb, open, done, true, lastep, whole) && (i == |p| || p[i] != STAR)
    ensures whole == After(done, ParseFrom(p, i, nb, open))
  {
    SettledAs(p, i, nb, open, done[..|done| - 1], done[|done| - 1], whole);
    assert done == done[..|done| - 1] + [done[|done| - 1]];
  }

  lemma SettledAs(p: Text, i: nat, nb: nat, open: seq<nat>, front: seq<Item>, last: Item, whole: Parse)
    requires i <= |p| && (last.One? || last.Star?) && (i == |p| || p[i] != STAR)
    requires whole == After(front, Pending(last, p, i, nb, open))
    ensures whole == After(front + [last], ParseFrom(p, i, nb, open))
  {
    PendingStep(last, p, i, nb, open);
    AfterSnoc(front, last, ParseFrom(p, i, nb, open));
  }

  lemma SettleStar(p: Text, i: nat, nb: nat, open: seq<nat>, done: seq<Item>, lastep: int, whole: Parse)
    requires i < |p| && State(p, i, nb, open, done, true, lastep, whole) && p[i] == STAR
    ensures var front, last := done[..|done| - 1], done[|done| - 1];
            Small(Star(last.a)) && State(p, i + 1, nb, open, front + [Star(last.a)], true, lastep, whole)
  {
    var front, last := done[..|done| - 1], done[|done| - 1];
    PendingStep(last, p, i, nb, open);
    assert Small(last);
    assert (front + [Star(last.a)])[..|front|] == front;
  }

  /** A full buffer leaves no room for the end mark, whatever follows. */
  lemma Full(p: Text, i: nat, nb: nat, open: seq<nat>, done: seq<Item>, pend: bool, lastep: int, whole: Parse)
    requires i <= |p| && State(p, i, nb, open, done, pend, lastep, whole) && |Code(done)| >= ESIZE
    ensures !Compilable(whole, ESIZE) && !Reported(whole, ESIZE)
  {
    if pend {
      var front, last := done[..|done| - 1], done[|done| - 1];
      EndCode(done, lastep);
      StarredCode(last);
      var j := SkipStars(p, i);
      var item := if i < j then Star(last.a) else last;
      AfterSnoc(front, item, ParseFrom(p, j, nb, open));
      CodeSnoc(front, item);
      NoRoom(front + [item], ParseFrom(p, j, nb, open), ESIZE);
    } else {
      NoRoom(done, ParseFrom(p, i, nb, open), ESIZE);
    }
  }

  /** The state after PutItem found one more item. */
  lemma Found(p: Text, i0: nat, nb0: nat, open0: seq<nat>, last0: int,
              i: nat, nb: nat, open: seq<nat>, done: seq<Item>, item: Item, pend: bool, whole: Parse)
    requires i0 < i <= |p| && AllSmall(done) && Small(item)
    requires whole == After(done, ParseFrom(p, i0, nb0, open0))
    requires pend <==> item.One? && p[i0] != STAR
    requires !item.Star? && (item.AtEnd? ==> i == |p|)
    requires pend ==> ParseFrom(p, i0, nb0, open0) == Pending(item, p, i, nb, open)
    requires !pend ==> ParseFrom(p, i0, nb0, open0) == Cons(item, ParseFrom(p, i, nb, open))
    requires p[i0] == STAR ==> last0 == -1 || (0 <= last0 < |Code(done)| && Code(done)[last0] in {CBRA, CKET})
    ensures AllSmall(done + [item]) && Code(done + [item]) == Code(done) + ItemCode(item)
    ensures State(p, i, nb, open, done + [item], pend, if p[i0] == STAR then last0 else |Code(done)|, whole)
  {
    CodeSnoc(done, item);
    AfterSnoc(done, item, ParseFrom(p, i, nb, open));
    ItemBytes(item);
    assert (done + [item])[..|done|] == done;
  }

  /** The loop state of PutMembers: c is the character before i, the members found are stored, and the rest of the
      class is still to be parsed. */
  ghost predicate Gathering(p: Text, i: nat, ep: nat, c: Char, more: bool, spans: seq<Span>,
                            out: seq<Char>, cur: seq<Char>, cls: ClassParse)
  {
    && 1 <= i <= |p| + 1 && (more ==> c == At(p, i - 1))
    && cls == (if more then ParseClass(p, i - 1, spans) else ClassOk(spans, i))
    && (more && spans != [] ==> c != RBRACKET && ep < ESIZE && spans[|spans| - 1].hi != 0)
    && Stored(ep, spans, out, cur)
  }

  ghost predicate Stored(ep: nat, spans: seq<Span>, out: seq<Char>, cur: seq<Char>) {
    && out != [] && ep == |cur| && cur == out + ClassCode(spans)
    && cur[ep - 1] == if spans == [] then 0 else spans[|spans| - 1].hi
  }

  /** After a member, the next character goes on with the class or ends it. */
  lemma GatheredNext(p: Text, i: nat, ep: nat, spans: seq<Span>, out: seq<Char>, cur: seq<Char>, cls: ClassParse)
    requires i <= |p| && spans != [] && spans[|spans| - 1].hi != 0 && ep < ESIZE
    requires cls == ParseClass(p, i, spans) && Stored(ep, spans, out, cur)
    ensures Gathering(p, i + 1, ep, At(p, i), At(p, i) != RBRACKET, spans, out, cur, cls)
  {
  }

  lemma DashParse(p: Text, i: nat, spans: seq<Span>)
    requires 1 <= i <= |p| && p[i - 1] == DASH && spans != []
    ensures var r := ParseClass(p, i - 1, spans);
            if i == |p| then r == ClassUnmodelled
            else if p[i] == RBRACKET then r == ClassOk(spans + [Single(DASH)], i + 1)
            else r == ParseClass(p, i + 1, spans + [Range(spans[|spans| - 1].hi, p[i])])
  {
  }

  lemma MemberStored(ep: nat, spans: seq<Span>, sp: Span, out: seq<Char>, cur: seq<Char>)
    requires Stored(ep, spans, out, cur)
    ensures Stored(ep + |SpanCode(sp)|, spans + [sp], out, cur + SpanCode(sp))
  {
    ClassCodeSnoc(spans, sp);
    Assoc(out, ClassCode(spans), SpanCode(sp));
    SpanEnds(sp);
  }

  lemma CountCode(out: seq<Char>, op: Char, n: Char, code: seq<Char>)
    ensures (out + [op, 0] + code)[|out| + 1 := n] == out + ([op, n] + code)
  {
  }

  /** Starring an item sets the low bit of its opcode and changes nothing else. */
  lemma StarredCode(item: Item)
    requires Small(item) && (item.One? || item.Star?)
    ensures Small(Star(item.a)) && Small(One(item.a))
    ensures var op := ItemCode(item)[0];
            && 0 <= op <= NCCL + CSTAR
            && ItemCode(Star(item.a)) == ItemCode(item)[0 := if op % 2 == 0 then op + CSTAR else op]
  {
    AtomStarred(item.a);
    if item.Star? {
      StarStarred(AtomCode(item.a, CSTAR), AtomCode(item.a, 0)[0]);
    }
  }

  lemma StarStarred(b: seq<Char>, op: Char)
    requires b != [] && op % 2 == 0 && b[0] == op + CSTAR
    ensures b[0] % 2 != 0 && b[0 := b[0]] == b
  {
  }

  lemma AtomStarred(a: Atom)
    requires Small(One(a))
    ensures var op := AtomCode(a, 0)[0];
            op % 2 == 0 && 0 <= op <= NCCL && AtomCode(a, CSTAR)[0] == op + CSTAR
            && AtomCode(a, CSTAR) == AtomCode(a, 0)[0 := op + CSTAR]
  {
    match a
    case Lit(c) => LitStarred(CCHR, c);
    case AnyChar => DotStarred(CDOT);
    case Class(spans, negated) => ClassAtomStarred(spans, negated);
  }

  lemma ClassAtomStarred(spans: seq<Span>, negated: bool)
    requires Small(One(Class(spans, negated)))
    ensures var a, op := Class(spans, negated), if negated then NCCL else CCL;
            AtomCode(a, 0)[0] == op && AtomCode(a, CSTAR)[0] == op + CSTAR
            && AtomCode(a, CSTAR) == AtomCode(a, 0)[0 := op + CSTAR]
  {
    ClassStarred(if negated then NCCL else CCL, |ClassCode(spans)| + 1, ClassCode(spans));
  }

  lemma LitStarred(op: Char, c: Char)
    ensures [op, c][0 := op + CSTAR] == [op + CSTAR, c]
  {
  }

  lemma DotStarred(op: Char)
    ensures [op][0 := op + CSTAR] == [op + CSTAR]
  {
  }

  lemma ClassStarred(op: Char, n: Char, code: seq<Char>)
    ensures ([op, n] + code)[0 := op + CSTAR] == [op + CSTAR, n] + code
    ensures ([op, n] + code)[0] == op && ([op + CSTAR, n] + code)[0] == op + CSTAR
  {
  }

  lemma UpdateTail(a: seq<Char>, b: seq<Char>, c: Char)
    requires b != []
    ensures (a + b)[|a|] == b[0] && (a + b)[|a| := c] == a + b[0 := c]
  {
  }

  /** A class that PutClass gives up on spoils the whole pattern. */
  lemma ClassFails(p: Text, i: nat, nb: nat, open: seq<nat>, done: seq<Item>, r: Outcome, next: nat, a: Atom)
    requires i < |p| && p[i] == LBRACKET && AllSmall(done) && |Code(done)| < ESIZE
    requires !r.Compiled? && ClassPut(p, i + 1, |Code(done)|, r, next, a)
    ensures Rejects(r, After(done, ParseFrom(p, i, nb, open)))
  {
    var negated := At(p, i + 1) == CARET;
    var cls := ParseClass(p, if negated then i + 2 else i + 1, []);
    assert done + [] == done;
    if cls.ClassOk? {
      NoRoomForAtom(done, Class(cls.spans, negated), p, cls.next, nb, open, ESIZE);
    }
  }

  lemma LiteralFails(p: Text, i: nat, nb: nat, open: seq<nat>, done: seq<Item>)
    requires i < |p| && p[i] != DOT && p[i] != LBRACKET && p[i] != BACKSLASH && !(p[i] == DOLLAR && i + 1 == |p|)
    requires AllSmall(done)
    ensures |Code(done)| + 2 > ESIZE ==> Rejects(Outside, After(done, ParseFrom(p, i, nb, open)))
  {
    if |Code(done)| + 2 > ESIZE {
      if p[i] == STAR {
        NoRoomFor(done, One(Lit(STAR)), ParseFrom(p, i + 1, nb, open), ESIZE);
      } else {
        NoRoomForAtom(done, Lit(p[i]), p, i + 1, nb, open, ESIZE);
      }
    }
  }
}
