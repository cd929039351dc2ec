/** What pattern texts of software/libs/liborion_em_assembler/regex.c match, told from the text itself: the characters
    are written as numbers, and the strings that a text stands for are given apart from grammar, items and matching. */
module RegexTexts {
  import opened RegexSyntax

  // What stands for one character of the subject: a character, any, one of some, none of some, one of a range.
  datatype Piece = Letter(c: Char) | Any | Among(members: Text) | Except(members: Text) | From(lo: Char, hi: Char)

  // A piece, a starred piece, the two group marks.
  datatype Part = Once(x: Piece) | Many(x: Piece) | Opening | Closing

  /** $ * . [ \ ^ */
  predicate Special(c: Char) {
    c == 36 || c == 42 || c == 46 || c == 91 || c == 92 || c == 94
  }

  /** Members need not be written in another way: no ] or -, and no ^ in front. */
  predicate Members(members: Text) {
    members != [] && members[0] != 94 && forall k :: 0 <= k < |members| ==> members[k] != 93 && members[k] != 45
  }

  predicate Writable(x: Piece) {
    match x
    case Letter(c) => c != 0
    case Any => true
    case Among(members) => Members(members)
    case Except(members) => Members(members)
    case From(lo, hi) => lo != 0 && lo != 45 && lo != 93 && lo != 94 && hi != 0 && hi != 93
  }

  function Glyph(x: Piece): Text
    requires Writable(x)
  {
    match x
    case Letter(c) => if Special(c) then [92, c] else [c]
    case Any => [46]
    case Among(members) => [91] + (members + [93])
    case Except(members) => [91, 94] + (members + [93])
    case From(lo, hi) => [91, lo, 45, hi, 93]
  }

  predicate Fits(x: Piece, c: Char) {
    match x
    case Letter(x) => c == x
    case Any => true
    case Among(members) => c in members
    case Except(members) => c !in members
    case From(lo, hi) => lo <= c <= hi || c == lo || c == hi
  }

  /** t stands in p at i. */
  predicate Has(p: Text, i: nat, t: seq<Char>) {
    i + |t| <= |p| && forall k {:trigger t[k]} :: 0 <= k < |t| ==> p[i + k] == t[k]
  }

  predicate Sound(parts: seq<Part>) {
    parts == [] || (SoundPart(parts[0]) && Sound(parts[1..]))
  }

  predicate SoundPart(part: Part) {
    (part.Once? ==> Writable(part.x)) && (part.Many? ==> Writable(part.x))
  }

  function Written(part: Part): Text
    requires SoundPart(part)
  {
    match part
    case Once(x) => Glyph(x)
    case Many(x) => Glyph(x) + [42]
    case Opening => [92, 40]
    case Closing => [92, 41]
  }

  function Print(parts: seq<Part>): Text
    requires Sound(parts)
  {
    if parts == [] then [] else Written(parts[0]) + Print(parts[1..])
  }

  /** The group marks pair up, with nb of at most nine opened before and `depth` of them still open. */
  predicate Paired(parts: seq<Part>, nb: nat, depth: nat) {
    if parts == [] then depth == 0
    else match parts[0]
      case Opening => nb < 9 && Paired(parts[1..], nb + 1, depth + 1)
      case Closing => depth > 0 && Paired(parts[1..], nb, depth - 1)
      case _ => Paired(parts[1..], nb, depth)
  }

  /** The parts spell s[i..j]. */
  ghost predicate Spells(parts: seq<Part>, s: Text, i: nat, j: nat)
    requires i <= j <= |s|
    decreases |parts|
  {
    if parts == [] then i == j
    else match parts[0]
      case Once(x) => i < j && Fits(x, s[i]) && Spells(parts[1..], s, i + 1, j)
      case Many(x) => exists m: nat :: i <= m <= j && AllFit(x, s, i, m) && Spells(parts[1..], s, m, j)
      case _ => Spells(parts[1..], s, i, j)
  }

  predicate AllFit(x: Piece, s: Text, i: nat, j: nat)
    requires i <= j <= |s|
  {
    forall k :: i <= k < j ==> Fits(x, s[k])
  }

  /** A text: perhaps ^, the parts, perhaps $. */
  function Pattern(front: bool, parts: seq<Part>, back: bool): Text
    requires Sound(parts)
  {
    (if front then [94] else []) + (Print(parts) + Tail(back))
  }

  function Tail(back: bool): Text {
    if back then [36] else []
  }

  // ------------------------------------------------------------ the grammar reads the text

  function AtomOf(x: Piece): Atom {
    match x
    case Letter(c) => Lit(c)
    case Any => AnyChar
    case Among(members) => Class(Singles(members), false)
    case Except(members) => Class(Singles(members), true)
    case From(lo, hi) => Class([Single(lo), Range(lo, hi)], false)
  }

  function Singles(members: Text): seq<Span> {
    seq(|members|, k requires 0 <= k < |members| => Single(members[k]))
  }

  lemma AtomFits(x: Piece, c: Char)
    requires c != 0
    ensures Accepts(AtomOf(x), c) <==> Fits(x, c)
  {
    match x
    case Letter(_) =>
    case Any =>
    case Among(members) => SinglesHold(members, c);
    case Except(members) => SinglesHold(members, c);
    case From(lo, hi) =>
      var spans := [Single(lo), Range(lo, hi)];
      assert InSpan(spans[0], c) == (c == lo) && InSpan(spans[1], c) == (lo <= c <= hi || c == hi);
  }

  lemma SinglesHold(members: Text, c: Char)
    ensures InClass(Singles(members), c) <==> c in members
  {
    if c in members {
      var k :| 0 <= k < |members| && members[k] == c;
      assert InSpan(Singles(members)[k], c);
    }
  }

  lemma HasAt(p: Text, i: nat, t: seq<Char>, k: nat)
    requires Has(p, i, t) && k < |t|
    ensures p[i + k] == t[k]
  {
  }

  lemma HasParts(p: Text, i: nat, a: seq<Char>, b: seq<Char>)
    requires Has(p, i, a + b)
    ensures Has(p, i, a) && Has(p, i + |a|, b)
  {
    forall k {:trigger a[k]} | 0 <= k < |a| ensures p[i + k] == a[k] {
      assert (a + b)[k] == a[k];
    }
    forall k {:trigger b[k]} | 0 <= k < |b| ensures p[i + |a| + k] == b[k] {
      assert (a + b)[|a| + k] == b[k];
    }
  }

  lemma {:induction false} ClassRead(p: Text, i: nat, members: Text, k: nat, spans: seq<Span>)
    requires k <= |members| && Has(p, i, members + [93]) && |spans| == k && (k > 0 || members != [])
    requires forall j :: 0 <= j < |members| ==> members[j] != 93 && members[j] != 45
    requires spans == Singles(members)[..k]
    ensures ParseClass(p, i + k, spans) == ClassOk(Singles(members), i + |members| + 1)
    decreases |members| - k
  {
    HasParts(p, i, members, [93]);
    assert [93][0] == 93;
    if k < |members| {
      assert p[i + k] == members[k];
      assert Singles(members)[..k + 1] == spans + [Single(members[k])];
      ClassRead(p, i, members, k + 1, spans + [Single(members[k])]);
    } else {
      assert Singles(members)[..k] == Singles(members);
    }
  }

  /** Wherever the parser comes to i, it reads the atom a up to next. */
  ghost predicate ReadsAtom(p: Text, i: nat, a: Atom, next: nat) {
    match a
    case _ =>
      i <= |p| && next <= |p| && forall nb, open {:trigger ParseFrom(p, i, nb, open)} ::
        ParseFrom(p, i, nb, open) == ParseStars(a, p, next, nb, open)
  }

  lemma AnyRead(p: Text, i: nat)
    requires Has(p, i, [46])
    ensures ReadsAtom(p, i, AnyChar, i + 1)
  {
    HasAt(p, i, [46], 0);
  }

  lemma LetterRead(p: Text, i: nat, c: Char)
    requires c != 0 && Has(p, i, Glyph(Letter(c)))
    ensures ReadsAtom(p, i, Lit(c), i + |Glyph(Letter(c))|)
  {
    var g := Glyph(Letter(c));
    HasAt(p, i, g, 0);
    if Special(c) {
      HasAt(p, i, g, 1);
    }
  }

  lemma ClassParsed(p: Text, i: nat, negated: bool, spans: seq<Span>, next: nat)
    requires i + 1 < |p| && p[i] == 91 && negated == (p[i + 1] == 94)
    requires ParseClass(p, if negated then i + 2 else i + 1, []) == ClassOk(spans, next)
    ensures ReadsAtom(p, i, Class(spans, negated), next)
  {
  }

  lemma AmongClass(p: Text, i: nat, members: Text)
    requires Members(members) && Has(p, i, [91] + (members + [93]))
    ensures i + 1 < |p| && p[i] == 91 && p[i + 1] != 94
    ensures ParseClass(p, i + 1, []) == ClassOk(Singles(members), i + |members| + 2)
  {
    HasParts(p, i, [91], members + [93]);
    HasAt(p, i, [91], 0);
    HasAt(p, i + 1, members + [93], 0);
    ClassRead(p, i + 1, members, 0, []);
  }

  lemma ExceptClass(p: Text, i: nat, members: Text)
    requires Members(members) && Has(p, i, [91, 94] + (members + [93]))
    ensures i + 1 < |p| && p[i] == 91 && p[i + 1] == 94
    ensures ParseClass(p, i + 2, []) == ClassOk(Singles(members), i + |members| + 3)
  {
    HasParts(p, i, [91, 94], members + [93]);
    HasAt(p, i, [91, 94], 0);
    HasAt(p, i, [91, 94], 1);
    ClassRead(p, i + 2, members, 0, []);
  }

  lemma FromRead(p: Text, i: nat, lo: Char, hi: Char)
    requires Writable(From(lo, hi)) && Has(p, i, [91, lo, 45, hi, 93])
    ensures ReadsAtom(p, i, AtomOf(From(lo, hi)), i + 5)
  {
    var g := [91, lo, 45, hi, 93];
    HasAt(p, i, g, 0);
    HasAt(p, i, g, 1);
    HasAt(p, i, g, 2);
    HasAt(p, i, g, 3);
    HasAt(p, i, g, 4);
    RangeRead(p, i, lo, hi);
    ClassParsed(p, i, false, [Single(lo), Range(lo, hi)], i + 5);
  }

  /** The glyph of x at i, with no star of its own behind it, is the atom. */
  lemma GlyphRead(p: Text, i: nat, x: Piece)
    requires Writable(x) && Has(p, i, Glyph(x))
    ensures ReadsAtom(p, i, AtomOf(x), i + |Glyph(x)|)
  {
    match x
    case Letter(c) => LetterRead(p, i, c);
    case Any => AnyRead(p, i);
    case Among(members) =>
      AmongClass(p, i, members);
      ClassParsed(p, i, false, Singles(members), i + |members| + 2);
    case Except(members) =>
      ExceptClass(p, i, members);
      ClassParsed(p, i, true, Singles(members), i + |members| + 3);
    case From(lo, hi) => FromRead(p, i, lo, hi);
  }

  lemma RangeRead(p: Text, i: nat, lo: Char, hi: Char)
    requires i + 5 <= |p| && p[i + 1] == lo && p[i + 2] == 45 && p[i + 3] == hi && p[i + 4] == 93
    requires lo != 45 && lo != 93 && hi != 93
    ensures ParseClass(p, i + 1, []) == ClassOk([Single(lo), Range(lo, hi)], i + 5)
  {
    assert [] + [Single(lo)] == [Single(lo)];
    assert [Single(lo)] + [Range(lo, hi)] == [Single(lo), Range(lo, hi)];
    assert ParseClass(p, i + 1, []) == ParseClass(p, i + 2, [Single(lo)]);
    assert ParseClass(p, i + 2, [Single(lo)]) == ParseClass(p, i + 4, [Single(lo), Range(lo, hi)]);
  }

  lemma HeadRead(p: Text, i: nat, part: Part, nb: nat, open: seq<nat>)
    requires (part.Once? || part.Many?) && Writable(part.x) && Has(p, i, Written(part))
    requires var next := i + |Written(part)|; next == |p| || p[next] != 42
    ensures ParseFrom(p, i, nb, open) == Cons(ItemOf(part), ParseFrom(p, i + |Written(part)|, nb, open))
  {
    var g := Glyph(part.x);
    if part.Many? {
      HasParts(p, i, g, [42]);
      assert p[i + |g|] == [42][0];
    }
    GlyphRead(p, i, part.x);
  }

  function ItemOf(part: Part): Item
    requires part.Once? || part.Many?
  {
    if part.Once? then One(AtomOf(part.x)) else Star(AtomOf(part.x))
  }

  // The item of a part, and the groups opened so far and still open behind it.

  function HeadItem(part: Part, nb: nat, open: seq<nat>): Item
    requires part.Closing? ==> open != []
  {
    match part
    case Opening => Open(nb)
    case Closing => Close(open[|open| - 1])
    case _ => ItemOf(part)
  }

  function NextNb(part: Part, nb: nat): nat {
    if part.Opening? then nb + 1 else nb
  }

  function NextOpen(part: Part, nb: nat, open: seq<nat>): seq<nat>
    requires part.Closing? ==> open != []
  {
    match part
    case Opening => open + [nb]
    case Closing => open[..|open| - 1]
    case _ => open
  }

  function ItemsOf(parts: seq<Part>, nb: nat, open: seq<nat>): seq<Item>
    requires Paired(parts, nb, |open|)
  {
    if parts == [] then []
    else [HeadItem(parts[0], nb, open)]
         + ItemsOf(parts[1..], NextNb(parts[0], nb), NextOpen(parts[0], nb, open))
  }

  /** The parser reads one item from i to next. */
  ghost predicate ReadsItem(p: Text, i: nat, nb: nat, open: seq<nat>, item: Item, next: nat, nb': nat, open': seq<nat>)
  {
    match item
    case _ =>
      i <= |p| && next <= |p| && ParseFrom(p, i, nb, open) == Cons(item, ParseFrom(p, next, nb', open'))
  }

  /** From i on it reads these items, and then p ends. */
  ghost predicate ReadsAll(p: Text, i: nat, nb: nat, open: seq<nat>, whole: Parse) {
    match whole
    case _ => i <= |p| && ParseFrom(p, i, nb, open) == whole
  }

  lemma ReadsCons(p: Text, i: nat, nb: nat, open: seq<nat>, item: Item, next: nat, nb': nat, open': seq<nat>,
                  items: seq<Item>, end: seq<Item>)
    requires ReadsItem(p, i, nb, open, item, next, nb', open') && ReadsAll(p, next, nb', open', Items(items + end))
    ensures ReadsAll(p, i, nb, open, Items([item] + items + end))
  {
    assert [item] + (items + end) == [item] + items + end;
  }

  lemma PartRead(p: Text, i: nat, part: Part, nb: nat, open: seq<nat>)
    requires SoundPart(part) && Has(p, i, Written(part)) && (part.Closing? ==> open != []) && (part.Opening? ==> nb < 9)
    requires var next := i + |Written(part)|; next == |p| || p[next] != 42
    ensures ReadsItem(p, i, nb, open, HeadItem(part, nb, open), i + |Written(part)|, NextNb(part, nb),
                      NextOpen(part, nb, open))
  {
    if part.Once? || part.Many? {
      HeadRead(p, i, part, nb, open);
    } else {
      var head := Written(part);
      assert p[i] == head[0] && p[i + 1] == head[1];
    }
  }

  function EndItems(back: bool): seq<Item> {
    if back then [AtEnd] else []
  }

  /** The text stands in p from i on, and behind it perhaps $, and then p ends. */
  predicate Rest(p: Text, i: nat, text: Text, back: bool) {
    Has(p, i, text) && Has(p, i + |text|, Tail(back)) && i + |text| + |Tail(back)| == |p|
  }

  /** A part does not begin with a star, nor with a caret. */
  lemma NoStarFirst(part: Part)
    requires SoundPart(part)
    ensures Written(part) != [] && Written(part)[0] != 42 && Written(part)[0] != 94
  {
  }

  lemma PrintFirst(parts: seq<Part>)
    requires Sound(parts)
    ensures Print(parts) == [] || (Print(parts)[0] != 42 && Print(parts)[0] != 94)
  {
    if parts != [] {
      NoStarFirst(parts[0]);
    }
  }

  // The texts of the parts, one by one.

  function Texts(parts: seq<Part>): seq<Text>
    requires Sound(parts)
  {
    if parts == [] then [] else [Written(parts[0])] + Texts(parts[1..])
  }

  function Joined(texts: seq<Text>): Text {
    if texts == [] then [] else texts[0] + Joined(texts[1..])
  }

  predicate NoStars(texts: seq<Text>) {
    texts == [] || (texts[0] != [] && texts[0][0] != 42 && NoStars(texts[1..]))
  }

  lemma {:induction false} PrintJoins(parts: seq<Part>)
    requires Sound(parts)
    ensures Print(parts) == Joined(Texts(parts)) && NoStars(Texts(parts))
    decreases |parts|
  {
    if parts != [] {
      NoStarFirst(parts[0]);
      PrintJoins(parts[1..]);
      JoinedCons(Written(parts[0]), Texts(parts[1..]));
    }
  }

  lemma JoinedCons(t: Text, texts: seq<Text>)
    ensures Joined([t] + texts) == t + Joined(texts)
    ensures NoStars([t] + texts) <==> t != [] && t[0] != 42 && NoStars(texts)
  {
    assert ([t] + texts)[1..] == texts;
  }

  lemma RestFirst(p: Text, i: nat, text: Text, back: bool)
    requires Rest(p, i, text, back)
    ensures i <= |p|
    ensures i == |p| || p[i] == if text != [] then text[0] else 36
  {
    if text != [] {
      assert p[i] == text[0];
    } else if back {
      assert p[i] == Tail(back)[0];
    }
  }

  lemma RestSplit(p: Text, i: nat, text: Text, a: Text, b: Text, back: bool)
    requires text == a + b && Rest(p, i, text, back)
    requires b == [] || b[0] != 42
    ensures Has(p, i, a) && Rest(p, i + |a|, b, back) && (i + |a| == |p| || p[i + |a|] != 42)
  {
    HasParts(p, i, a, b);
    RestFirst(p, i + |a|, b, back);
  }

  /** Text by text: each is followed by something other than a star, and the last one perhaps by $, where p ends. */
  predicate LaidOut(p: Text, i: nat, texts: seq<Text>, back: bool)
    decreases |texts|
  {
    if texts == [] then Has(p, i, Tail(back)) && i + |Tail(back)| == |p|
    else
      var next := i + |texts[0]|;
      Has(p, i, texts[0]) && (next == |p| || p[next] != 42) && LaidOut(p, next, texts[1..], back)
  }

  lemma {:induction false} RestLaidOut(p: Text, i: nat, texts: seq<Text>, back: bool)
    requires NoStars(texts) && Rest(p, i, Joined(texts), back)
    ensures LaidOut(p, i, texts, back)
    decreases |texts|
  {
    if texts != [] {
      JoinedFirst(texts[1..]);
      RestSplit(p, i, Joined(texts), texts[0], Joined(texts[1..]), back);
      RestLaidOut(p, i + |texts[0]|, texts[1..], back);
    }
  }

  lemma JoinedFirst(texts: seq<Text>)
    requires NoStars(texts)
    ensures Joined(texts) == [] || Joined(texts)[0] != 42
  {
  }

  lemma LaidOutCons(p: Text, i: nat, t: Text, texts: seq<Text>, back: bool)
    requires LaidOut(p, i, [t] + texts, back)
    ensures Has(p, i, t) && (i + |t| == |p| || p[i + |t|] != 42) && LaidOut(p, i + |t|, texts, back)
  {
    assert ([t] + texts)[1..] == texts;
  }

  /** The same of the parts. */
  predicate PartsLaidOut(p: Text, i: nat, parts: seq<Part>, back: bool)
    requires Sound(parts)
    decreases |parts|
  {
    if parts == [] then Has(p, i, Tail(back)) && i + |Tail(back)| == |p|
    else
      var next := i + |Written(parts[0])|;
      Has(p, i, Written(parts[0])) && (next == |p| || p[next] != 42) && PartsLaidOut(p, next, parts[1..], back)
  }

  lemma {:induction false} TextsLaidOut(p: Text, i: nat, parts: seq<Part>, back: bool)
    requires Sound(parts) && LaidOut(p, i, Texts(parts), back)
    ensures PartsLaidOut(p, i, parts, back)
    decreases |parts|
  {
    if parts != [] {
      LaidOutCons(p, i, Written(parts[0]), Texts(parts[1..]), back);
      TextsLaidOut(p, i + |Written(parts[0])|, parts[1..], back);
    }
  }

  lemma {:induction false} PartsRead(p: Text, i: nat, parts: seq<Part>, nb: nat, open: seq<nat>, back: bool)
    requires Sound(parts) && Paired(parts, nb, |open|) && i <= |p| && PartsLaidOut(p, i, parts, back)
    ensures ReadsAll(p, i, nb, open, Items(ItemsOf(parts, nb, open) + EndItems(back)))
    decreases |parts|
  {
    if parts == [] {
      assert [] + EndItems(back) == EndItems(back);
      TailRead(p, i, nb, back);
    } else {
      var part, rest := parts[0], parts[1..];
      var nb', open' := NextNb(part, nb), NextOpen(part, nb, open);
      PartsRead(p, i + |Written(part)|, rest, nb', open', back);
      PartRead(p, i, part, nb, open);
      ReadsCons(p, i, nb, open, HeadItem(part, nb, open), i + |Written(part)|, nb', open', ItemsOf(rest, nb', open'),
                EndItems(back));
    }
  }

  lemma TailRead(p: Text, i: nat, nb: nat, back: bool)
    requires Has(p, i, Tail(back)) && i + |Tail(back)| == |p|
    ensures ReadsAll(p, i, nb, [], Items(EndItems(back)))
  {
    if back {
      assert p[i] == Tail(back)[0];
    }
  }

  lemma WholeRead(front: bool, parts: seq<Part>, back: bool)
    requires Sound(parts) && Paired(parts, 0, 0)
    ensures Anchored(Pattern(front, parts, back)) == front
    ensures Body(Pattern(front, parts, back)) == Items(ItemsOf(parts, 0, []) + EndItems(back))
  {
    var p, text := Pattern(front, parts, back), Print(parts);
    var mark: Text := if front then [94] else [];
    RestHere(mark, text, back);
    PrintJoins(parts);
    if !front {
      NotAnchored(p, parts, back);
    }
    RestLaidOut(p, |mark|, Texts(parts), back);
    TextsLaidOut(p, |mark|, parts, back);
    PartsRead(p, |mark|, parts, 0, [], back);
  }

  lemma RestHere(mark: Text, text: Text, back: bool)
    ensures Rest(mark + (text + Tail(back)), |mark|, text, back)
  {
    var p: Text := mark + (text + Tail(back));
    assert p[|mark|..|mark| + |text|] == text;
    assert p[|mark| + |text|..|p|] == Tail(back);
  }

  lemma NotAnchored(p: Text, parts: seq<Part>, back: bool)
    requires Sound(parts) && Rest(p, 0, Print(parts), back)
    ensures !Anchored(p)
  {
    PrintFirst(parts);
    RestFirst(p, 0, Print(parts), back);
  }

  // ------------------------------------------------------------ what the text matches

  /** The parts spell a stretch of s that begins at i, up to its end where $ asks for it. */
  ghost predicate Begins(parts: seq<Part>, back: bool, s: Text, i: nat)
    requires i <= |s|
  {
    exists j: nat :: i <= j <= |s| && (back ==> j == |s|) && Spells(parts, s, i, j)
  }

  lemma {:induction false} MeetsBegins(parts: seq<Part>, nb: nat, open: seq<nat>, back: bool, s: Text, i: nat)
    requires Paired(parts, nb, |open|) && i <= |s|
    ensures Meets(ItemsOf(parts, nb, open) + EndItems(back), s, i) <==> Begins(parts, back, s, i)
    decreases |parts|
  {
    if parts == [] {
      assert [] + EndItems(back) == EndItems(back);
      assert Spells([], s, i, i);
      assert back ==> EndItems(back)[1..] == [];
    } else {
      var part, rest := parts[0], parts[1..];
      var nb', open' := NextNb(part, nb), NextOpen(part, nb, open);
      var items := ItemsOf(rest, nb', open') + EndItems(back);
      ItemsFirst(HeadItem(part, nb, open), ItemsOf(rest, nb', open'), EndItems(back));
      forall k: nat | i <= k <= |s| ensures Meets(items, s, k) <==> Begins(rest, back, s, k) {
        MeetsBegins(rest, nb', open', back, s, k);
      }
      assert parts == [part] + rest;
      MeetsPart(part, HeadItem(part, nb, open), items, rest, back, s, i, ItemsOf(parts, nb, open) + EndItems(back));
    }
  }

  lemma ItemsFirst(item: Item, items: seq<Item>, end: seq<Item>)
    ensures var all := [item] + items + end; all != [] && all[0] == item && all[1..] == items + end
  {
  }

  lemma MeetsPart(part: Part, item: Item, items: seq<Item>, rest: seq<Part>, back: bool, s: Text, i: nat,
                  all: seq<Item>)
    requires i <= |s| && all != [] && all[0] == item && all[1..] == items
    requires if part.Once? || part.Many? then item == ItemOf(part) else item.Open? || item.Close?
    requires forall k: nat :: i <= k <= |s| ==> (Meets(items, s, k) <==> Begins(rest, back, s, k))
    ensures Meets(all, s, i) <==> Begins([part] + rest, back, s, i)
  {
    var parts := [part] + rest;
    assert parts[1..] == rest;
    match part {
      case Once(x) => MeetsOnce(x, items, rest, back, s, i, all);
      case Many(x) => MeetsMany(x, items, rest, back, s, i, all);
      case _ =>
        assert forall j: nat :: i <= j <= |s| ==> (Spells(parts, s, i, j) <==> Spells(rest, s, i, j));
    }
  }

  lemma MeetsOnce(x: Piece, items: seq<Item>, rest: seq<Part>, back: bool, s: Text, i: nat, all: seq<Item>)
    requires i <= |s| && all != [] && all[0] == One(AtomOf(x)) && all[1..] == items
    requires forall k: nat :: i <= k <= |s| ==> (Meets(items, s, k) <==> Begins(rest, back, s, k))
    ensures Meets(all, s, i) <==> Begins([Once(x)] + rest, back, s, i)
  {
    var parts := [Once(x)] + rest;
    assert parts[1..] == rest;
    if i < |s| {
      AtomFits(x, s[i]);
      assert Meets(items, s, i + 1) <==> Begins(rest, back, s, i + 1);
      if Fits(x, s[i]) && Begins(rest, back, s, i + 1) {
        var j: nat :| i + 1 <= j <= |s| && (back ==> j == |s|) && Spells(rest, s, i + 1, j);
        assert Spells(parts, s, i, j);
      }
    }
    if Begins(parts, back, s, i) {
      var j: nat :| i <= j <= |s| && (back ==> j == |s|) && Spells(parts, s, i, j);
      assert Spells(rest, s, i + 1, j);
    }
  }

  lemma RunsFit(x: Piece, s: Text, i: nat, m: nat)
    requires i <= m <= |s|
    ensures ItemRuns(AtomOf(x), s, i, m) <==> AllFit(x, s, i, m)
  {
    forall k | i <= k < m ensures Accepts(AtomOf(x), s[k]) <==> Fits(x, s[k]) {
      AtomFits(x, s[k]);
    }
  }

  lemma MeetsMany(x: Piece, items: seq<Item>, rest: seq<Part>, back: bool, s: Text, i: nat, all: seq<Item>)
    requires i <= |s| && all != [] && all[0] == Star(AtomOf(x)) && all[1..] == items
    requires forall k: nat :: i <= k <= |s| ==> (Meets(items, s, k) <==> Begins(rest, back, s, k))
    ensures Meets(all, s, i) <==> Begins([Many(x)] + rest, back, s, i)
  {
    var parts := [Many(x)] + rest;
    assert parts[1..] == rest;
    if Meets(all, s, i) {
      var m: nat :| ItemRuns(AtomOf(x), s, i, m) && Meets(items, s, m);
      RunsFit(x, s, i, m);
      var j: nat :| m <= j <= |s| && (back ==> j == |s|) && Spells(rest, s, m, j);
      assert Spells(parts, s, i, j);
    }
    if Begins(parts, back, s, i) {
      var j: nat :| i <= j <= |s| && (back ==> j == |s|) && Spells(parts, s, i, j);
      var m: nat :| i <= m <= j && AllFit(x, s, i, m) && Spells(rest, s, m, j);
      RunsFit(x, s, i, m);
      assert Begins(rest, back, s, m);
    }
  }

  ghost predicate Found(front: bool, parts: seq<Part>, back: bool, s: Text) {
    exists i: nat :: i <= |s| && (front ==> i == 0) && Begins(parts, back, s, i)
  }

  /** A text matches where its parts spell a stretch of the subject: from the beginning on after ^, and up to the end
      before $. */
  lemma TextMatches(front: bool, parts: seq<Part>, back: bool, s: Text)
    requires Sound(parts) && Paired(parts, 0, 0)
    ensures Denotes(Pattern(front, parts, back), s) <==> Found(front, parts, back, s)
  {
    var p, items := Pattern(front, parts, back), ItemsOf(parts, 0, []) + EndItems(back);
    WholeRead(front, parts, back);
    forall i: nat | i <= |s| ensures MatchesAt(items, s, i) <==> Begins(parts, back, s, i) {
      MeetsIsMatch(items, s, i);
      MeetsBegins(parts, 0, [], back, s, i);
    }
    if Denotes(p, s) {
      var i: nat :| i <= |s| && (front ==> i == 0) && MatchesAt(items, s, i);
      assert Begins(parts, back, s, i);
    }
    if Found(front, parts, back, s) {
      var i: nat :| i <= |s| && (front ==> i == 0) && Begins(parts, back, s, i);
      assert MatchesAt(Body(p).items, s, i) && (Anchored(p) ==> i == 0);
    }
  }

  // ------------------------------------------------------------ in particular

  lemma ConsPrint(part: Part, rest: seq<Part>)
    requires SoundPart(part) && Sound(rest)
    ensures Sound([part] + rest) && Print([part] + rest) == Written(part) + Print(rest)
  {
    assert ([part] + rest)[1..] == rest;
  }

  lemma ConsSpells(x: Piece, rest: seq<Part>, s: Text, i: nat, j: nat)
    requires i <= j <= |s|
    ensures Spells([Once(x)] + rest, s, i, j) <==> i < j && Fits(x, s[i]) && Spells(rest, s, i + 1, j)
  {
    assert ([Once(x)] + rest)[1..] == rest;
  }

  lemma OnePiece(x: Piece, s: Text)
    requires Writable(x)
    ensures Denotes(Glyph(x), s) <==> exists k :: 0 <= k < |s| && Fits(x, s[k])
  {
    var parts := [Once(x)] + [];
    ConsPrint(Once(x), []);
    assert Pattern(false, parts, false) == Glyph(x);
    TextMatches(false, parts, false, s);
    if Found(false, parts, false, s) {
      var i: nat :| i <= |s| && Begins(parts, false, s, i);
      var j: nat :| i <= j <= |s| && Spells(parts, s, i, j);
      ConsSpells(x, [], s, i, j);
      assert Fits(x, s[i]);
    }
    if k :| 0 <= k < |s| && Fits(x, s[k]) {
      ConsSpells(x, [], s, k, k + 1);
      assert Begins(parts, false, s, k);
    }
  }

  /** [w] */
  lemma ClassText(w: Text, s: Text)
    requires Members(w)
    ensures Denotes([91] + (w + [93]), s) <==> exists k :: 0 <= k < |s| && s[k] in w
  {
    OnePiece(Among(w), s);
    if k :| 0 <= k < |s| && s[k] in w {
      assert Fits(Among(w), s[k]);
    }
  }

  /** [x] */
  lemma LetterClassText(x: Char, s: Text)
    requires x != 0 && x != 45 && x != 93 && x != 94
    ensures Denotes([91, x, 93], s) <==> x in s
  {
    ClassText([x], s);
    assert [91, x, 93] == [91] + ([x] + [93]);
  }

  /** [^w] */
  lemma NotClassText(w: Text, s: Text)
    requires Members(w)
    ensures Denotes([91, 94] + (w + [93]), s) <==> exists k :: 0 <= k < |s| && s[k] !in w
  {
    OnePiece(Except(w), s);
    if k :| 0 <= k < |s| && s[k] !in w {
      assert Fits(Except(w), s[k]);
    }
  }

  /** [x-y] */
  lemma RangeText(x: Char, y: Char, s: Text)
    requires x != 0 && x != 45 && x != 93 && x != 94 && y != 0 && y != 93
    ensures Denotes([91, x, 45, y, 93], s) <==>
            exists k :: 0 <= k < |s| && (x <= s[k] <= y || s[k] == x || s[k] == y)
  {
    OnePiece(From(x, y), s);
    if k :| 0 <= k < |s| && (x <= s[k] <= y || s[k] == x || s[k] == y) {
      assert Fits(From(x, y), s[k]);
    }
  }

  /** . */
  lemma DotText(s: Text)
    ensures Denotes([46], s) <==> s != []
  {
    OnePiece(Any, s);
    if s != [] {
      assert Fits(Any, s[0]);
    }
  }

  /** A backslash and $ * . [ \ or ^ */
  lemma EscapedText(c: Char, s: Text)
    requires c == 36 || c == 42 || c == 46 || c == 91 || c == 92 || c == 94
    ensures Denotes([92, c], s) <==> c in s
  {
    OnePiece(Letter(c), s);
    if c in s {
      var k :| 0 <= k < |s| && s[k] == c;
      assert Fits(Letter(c), s[k]);
    }
  }

  /** None of these: $ * . [ \ ^ */
  predicate Ordinary(w: Text) {
    forall k :: 0 <= k < |w| ==>
      w[k] != 36 && w[k] != 42 && w[k] != 46 && w[k] != 91 && w[k] != 92 && w[k] != 94
  }

  function Letters(w: Text, rest: seq<Part>): seq<Part> {
    if w == [] then rest else [Once(Letter(w[0]))] + Letters(w[1..], rest)
  }

  lemma {:induction false} LettersPrint(w: Text, rest: seq<Part>)
    requires Ordinary(w) && Sound(rest)
    ensures Sound(Letters(w, rest)) && Print(Letters(w, rest)) == w + Print(rest)
    decreases |w|
  {
    if w == [] {
      assert w + Print(rest) == Print(rest);
    } else {
      LettersPrint(w[1..], rest);
      ConsPrint(Once(Letter(w[0])), Letters(w[1..], rest));
      FirstOf(w, Print(rest));
    }
  }

  lemma FirstOf(w: Text, t: Text)
    requires w != []
    ensures [w[0]] + (w[1..] + t) == w + t
  {
  }

  lemma {:induction false} LettersPaired(w: Text, rest: seq<Part>, nb: nat, depth: nat)
    ensures Paired(Letters(w, rest), nb, depth) == Paired(rest, nb, depth)
    decreases |w|
  {
    if w != [] {
      LettersPaired(w[1..], rest, nb, depth);
      assert ([Once(Letter(w[0]))] + Letters(w[1..], rest))[1..] == Letters(w[1..], rest);
    }
  }

  lemma {:induction false} LettersSpell(w: Text, rest: seq<Part>, s: Text, i: nat, j: nat)
    requires i <= j <= |s|
    ensures Spells(Letters(w, rest), s, i, j) <==> Has(s, i, w) && i + |w| <= j && Spells(rest, s, i + |w|, j)
    decreases |w|
  {
    if w != [] {
      ConsSpells(Letter(w[0]), Letters(w[1..], rest), s, i, j);
      if i < j {
        LettersSpell(w[1..], rest, s, i + 1, j);
        StandsFrom(w, s, i);
      }
    }
  }

  lemma StandsFrom(w: Text, s: Text, i: nat)
    requires w != [] && i < |s|
    ensures Has(s, i, w) <==> s[i] == w[0] && Has(s, i + 1, w[1..])
  {
    if i + |w| <= |s| {
      assert s[i..i + |w|] == [s[i]] + s[i + 1..i + |w|];
      assert w == [w[0]] + w[1..];
    }
  }

  lemma WordFound(front: bool, w: Text, back: bool, s: Text)
    requires Ordinary(w)
    ensures Denotes((if front then [94] else []) + (w + Tail(back)), s) <==>
            exists i: nat :: (front ==> i == 0) && (back ==> i + |w| == |s|) && Has(s, i, w)
  {
    var parts := Letters(w, []);
    LettersPrint(w, []);
    LettersPaired(w, [], 0, 0);
    assert w + [] == w;
    TextMatches(front, parts, back, s);
    if Found(front, parts, back, s) {
      var i: nat :| i <= |s| && (front ==> i == 0) && Begins(parts, back, s, i);
      var j: nat :| i <= j <= |s| && (back ==> j == |s|) && Spells(parts, s, i, j);
      LettersSpell(w, [], s, i, j);
      assert Has(s, i, w);
    }
    if i: nat :| (front ==> i == 0) && (back ==> i + |w| == |s|) && Has(s, i, w) {
      LettersSpell(w, [], s, i, i + |w|);
      assert Begins(parts, back, s, i);
    }
  }

  /** An ordinary text matches if and only if it occurs in the subject. */
  lemma WordText(w: Text, s: Text)
    requires Ordinary(w)
    ensures Denotes(w, s) <==> exists i: nat :: Has(s, i, w)
  {
    WordFound(false, w, false, s);
    assert [] + (w + []) == w;
  }

  /** ^w */
  lemma FrontText(w: Text, s: Text)
    requires Ordinary(w)
    ensures Denotes([94] + w, s) <==> w <= s
  {
    WordFound(true, w, false, s);
    assert [94] + (w + []) == [94] + w;
    if w <= s {
      assert Has(s, 0, w);
    }
  }

  /** w$ */
  lemma BackText(w: Text, s: Text)
    requires Ordinary(w)
    ensures Denotes(w + [36], s) <==> |w| <= |s| && s[|s| - |w|..] == w
  {
    WordFound(false, w, true, s);
    assert [] + (w + [36]) == w + [36];
    if |w| <= |s| && s[|s| - |w|..] == w {
      assert Has(s, |s| - |w|, w);
    }
  }

  /** ^w$ */
  lemma WholeText(w: Text, s: Text)
    requires Ordinary(w)
    ensures Denotes([94] + (w + [36]), s) <==> w == s
  {
    WordFound(true, w, true, s);
    if w == s {
      assert Has(s, 0, w);
    }
  }

  lemma PartsFound(front: bool, parts: seq<Part>, s: Text)
    requires Sound(parts) && Paired(parts, 0, 0)
    ensures Denotes((if front then [94] else []) + Print(parts), s) <==>
            exists i: nat, j: nat {:trigger Spelled(parts, s, i, j)} :: (front ==> i == 0) && Spelled(parts, s, i, j)
  {
    assert Print(parts) + [] == Print(parts);
    TextMatches(front, parts, false, s);
    if Found(front, parts, false, s) {
      var i: nat :| i <= |s| && (front ==> i == 0) && Begins(parts, false, s, i);
      var j: nat :| i <= j <= |s| && Spells(parts, s, i, j);
      assert Spelled(parts, s, i, j);
    }
    if i: nat, j: nat {:trigger Spelled(parts, s, i, j)} :| (front ==> i == 0) && Spelled(parts, s, i, j) {
      assert Begins(parts, false, s, i);
    }
  }

  ghost predicate Spelled(parts: seq<Part>, s: Text, i: nat, j: nat) {
    i <= j <= |s| && Spells(parts, s, i, j)
  }

  /** A glyph with a star behind it, between u and w. */
  function Starred(u: Text, x: Piece, w: Text): seq<Part> {
    Letters(u, [Many(x)] + Letters(w, []))
  }

  lemma StarredPrint(u: Text, x: Piece, w: Text)
    requires Ordinary(u) && Writable(x) && Ordinary(w)
    ensures Sound(Starred(u, x, w)) && Print(Starred(u, x, w)) == u + (Glyph(x) + [42] + w)
    ensures Paired(Starred(u, x, w), 0, 0)
  {
    var more := [Many(x)] + Letters(w, []);
    LettersPrint(w, []);
    assert w + [] == w;
    ConsPrint(Many(x), Letters(w, []));
    LettersPrint(u, more);
    LettersPaired(w, [], 0, 0);
    assert more[1..] == Letters(w, []);
    LettersPaired(u, more, 0, 0);
  }

  /** u stands at i, then only characters that x fits, and then w at m. */
  ghost predicate Between(u: Text, x: Piece, w: Text, s: Text, i: nat, m: nat) {
    Has(s, i, u) && i + |u| <= m && Has(s, m, w) && AllFit(x, s, i + |u|, m)
  }

  lemma StarredSpelled(u: Text, x: Piece, w: Text, s: Text, i: nat, j: nat)
    requires Spelled(Starred(u, x, w), s, i, j)
    ensures exists m: nat :: Between(u, x, w, s, i, m)
  {
    var more := [Many(x)] + Letters(w, []);
    assert more[1..] == Letters(w, []);
    LettersSpell(u, more, s, i, j);
    var m: nat :| i + |u| <= m <= j && AllFit(x, s, i + |u|, m) && Spells(Letters(w, []), s, m, j);
    LettersSpell(w, [], s, m, j);
    assert Between(u, x, w, s, i, m);
  }

  lemma BetweenSpelled(u: Text, x: Piece, w: Text, s: Text, i: nat, m: nat)
    requires Between(u, x, w, s, i, m)
    ensures Spelled(Starred(u, x, w), s, i, m + |w|)
  {
    var more := [Many(x)] + Letters(w, []);
    assert more[1..] == Letters(w, []);
    LettersSpell(w, [], s, m, m + |w|);
    assert Spells(more, s, i + |u|, m + |w|);
    LettersSpell(u, more, s, i, m + |w|);
  }

  lemma StarFound(front: bool, u: Text, x: Piece, w: Text, s: Text)
    requires Ordinary(u) && Writable(x) && Ordinary(w)
    ensures Denotes((if front then [94] else []) + (u + (Glyph(x) + [42] + w)), s) <==>
            exists i: nat, m: nat :: (front ==> i == 0) && Between(u, x, w, s, i, m)
  {
    var parts := Starred(u, x, w);
    StarredPrint(u, x, w);
    PartsFound(front, parts, s);
    if i: nat, j: nat :| (front ==> i == 0) && Spelled(parts, s, i, j) {
      StarredSpelled(u, x, w, s, i, j);
    }
    if i: nat, m: nat :| (front ==> i == 0) && Between(u, x, w, s, i, m) {
      BetweenSpelled(u, x, w, s, i, m);
    }
  }

  /** u stands at i, then only x, and then w at m. */
  ghost predicate RunBetween(u: Text, x: Char, w: Text, s: Text, i: nat, m: nat) {
    Has(s, i, u) && i + |u| <= m && Has(s, m, w) && forall k :: i + |u| <= k < m ==> s[k] == x
  }

  /** ux*w, perhaps after ^: u, any number of x, w. */
  lemma StarText(front: bool, u: Text, x: Char, w: Text, s: Text)
    requires Ordinary(u) && x != 0 && Ordinary([x]) && Ordinary(w)
    ensures Denotes((if front then [94] else []) + (u + ([x, 42] + w)), s) <==>
            exists i: nat, m: nat :: (front ==> i == 0) && RunBetween(u, x, w, s, i, m)
  {
    assert [x][0] == x;
    StarFound(front, u, Letter(x), w, s);
    assert Glyph(Letter(x)) + [42] == [x, 42];
    if i: nat, m: nat :| (front ==> i == 0) && Between(u, Letter(x), w, s, i, m) {
      assert RunBetween(u, x, w, s, i, m);
    }
    if i: nat, m: nat :| (front ==> i == 0) && RunBetween(u, x, w, s, i, m) {
      assert Between(u, Letter(x), w, s, i, m);
    }
  }

  /** u.*w: w stands somewhere behind u. */
  lemma DotStarText(u: Text, w: Text, s: Text)
    requires Ordinary(u) && Ordinary(w)
    ensures Denotes(u + ([46, 42] + w), s) <==>
            exists i: nat, m: nat :: Has(s, i, u) && i + |u| <= m && Has(s, m, w)
  {
    StarFound(false, u, Any, w, s);
    assert Glyph(Any) + [42] == [46, 42];
    assert [] + (u + ([46, 42] + w)) == u + ([46, 42] + w);
    if i: nat, m: nat :| Has(s, i, u) && i + |u| <= m && Has(s, m, w) {
      assert Between(u, Any, w, s, i, m);
    }
  }

  /** \(w\) */
  lemma GroupText(w: Text, s: Text)
    requires Ordinary(w)
    ensures Denotes([92, 40] + (w + [92, 41]), s) <==> Denotes(w, s)
  {
    var more := Letters(w, [Closing]);
    var parts := [Opening] + more;
    LettersPrint(w, [Closing]);
    assert Print([Closing]) == [92, 41] + Print([Closing][1..]) == [92, 41];
    ConsPrint(Opening, more);
    LettersPaired(w, [Closing], 1, 1);
    assert [Closing][1..] == [] && parts[1..] == more;
    PartsFound(false, parts, s);
    WordText(w, s);
    assert [] + Print(parts) == Print(parts);
    if i: nat, j: nat :| Spelled(parts, s, i, j) {
      LettersSpell(w, [Closing], s, i, j);
    }
    if i: nat :| Has(s, i, w) {
      LettersSpell(w, [Closing], s, i, i + |w|);
      assert Spelled(parts, s, i, i + |w|);
    }
  }

  // ------------------------------------------------------------ where special characters stand for themselves

  function Literals(w: Text): seq<Item> {
    if w == [] then [] else [One(Lit(w[0]))] + Literals(w[1..])
  }

  lemma {:induction false} LettersItems(w: Text, nb: nat)
    ensures Paired(Letters(w, []), nb, 0) && ItemsOf(Letters(w, []), nb, []) == Literals(w)
    decreases |w|
  {
    LettersPaired(w, [], nb, 0);
    if w != [] {
      LettersItems(w[1..], nb);
      assert ([Once(Letter(w[0]))] + Letters(w[1..], []))[1..] == Letters(w[1..], []);
    }
  }

  lemma ReadAsLetters(p: Text, w: Text, s: Text)
    requires Body(p) == Items(Literals(w)) && !Anchored(p)
    ensures Denotes(p, s) <==> exists i: nat :: Has(s, i, w)
  {
    var parts, items := Letters(w, []), Literals(w);
    LettersItems(w, 0);
    assert items + [] == items;
    forall i: nat | i <= |s| ensures MatchesAt(items, s, i) <==> Has(s, i, w) {
      MeetsIsMatch(items, s, i);
      MeetsBegins(parts, 0, [], false, s, i);
      forall j: nat | i <= j <= |s| ensures Spells(parts, s, i, j) <==> Has(s, i, w) && j == i + |w| {
        LettersSpell(w, [], s, i, j);
      }
      assert Has(s, i, w) ==> Spells(parts, s, i, i + |w|);
    }
  }

  lemma TwoLiterals(x: Char, y: Char)
    requires x != 0 && y != 0
    ensures Literals([x, y]) == [One(Lit(x)), One(Lit(y))] && Literals([y]) == [One(Lit(y))]
  {
    var w, v: Text := [x, y], [y];
    assert v[1..] == [] && w[1..] == v;
    assert Literals(v) == [One(Lit(y))] + Literals([]);
    assert Literals(w) == [One(Lit(x))] + Literals(v);
  }

  /** A star with nothing before it */
  lemma LoneStarText(s: Text)
    ensures Denotes([42], s) <==> 42 in s
  {
    TwoLiterals(42, 42);
    assert ParseFrom([42], 1, 0, []) == Items([]);
    ReadAsLetters([42], [42], s);
    if 42 in s {
      var k :| 0 <= k < |s| && s[k] == 42;
      assert Has(s, k, [42]);
    }
  }

  /** A dollar that is not the last character */
  lemma InnerDollarText(x: Char, s: Text)
    requires x != 0 && Ordinary([x])
    ensures Denotes([36, x], s) <==> exists i: nat :: Has(s, i, [36, x])
  {
    var p: Text := [36, x];
    assert [x][0] == x;
    TwoLiterals(36, x);
    assert ParseFrom(p, 2, 0, []) == Items([]);
    assert ParseStars(Lit(x), p, 2, 0, []) == Items([One(Lit(x))]);
    assert ParseFrom(p, 1, 0, []) == Items([One(Lit(x))]);
    assert ParseStars(Lit(36), p, 1, 0, []) == Items([One(Lit(36)), One(Lit(x))]);
    ReadAsLetters(p, p, s);
  }

  /** A caret that is not the first character */
  lemma InnerCaretText(x: Char, s: Text)
    requires x != 0 && Ordinary([x])
    ensures Denotes([x, 94], s) <==> exists i: nat :: Has(s, i, [x, 94])
  {
    var p: Text := [x, 94];
    assert [x][0] == x;
    TwoLiterals(x, 94);
    assert ParseFrom(p, 2, 0, []) == Items([]);
    assert ParseStars(Lit(94), p, 2, 0, []) == Items([One(Lit(94))]);
    assert ParseFrom(p, 1, 0, []) == Items([One(Lit(94))]);
    assert ParseStars(Lit(x), p, 1, 0, []) == Items([One(Lit(x)), One(Lit(94))]);
    ReadAsLetters(p, p, s);
  }

  lemma OneAtom(p: Text, a: Atom, s: Text)
    requires Body(p) == Items([One(a)]) && !Anchored(p)
    ensures Denotes(p, s) <==> exists k :: 0 <= k < |s| && Accepts(a, s[k])
  {
    var items := [One(a)];
    assert items[1..] == [];
    forall i: nat | i <= |s| ensures MatchesAt(items, s, i) <==> i < |s| && Accepts(a, s[i]) {
      MeetsIsMatch(items, s, i);
    }
    if k :| 0 <= k < |s| && Accepts(a, s[k]) {
      assert MatchesAt(items, s, k);
    }
  }

  lemma TwoSingles(x: Char, y: Char, s: Text)
    requires x != 0 && y != 0
    ensures (exists k :: 0 <= k < |s| && Accepts(Class([Single(x), Single(y)], false), s[k])) <==> x in s || y in s
  {
    var w: Text := [x, y];
    assert Singles(w) == [Single(x), Single(y)];
    forall k | 0 <= k < |s| ensures Accepts(Class(Singles(w), false), s[k]) <==> s[k] == x || s[k] == y {
      SinglesHold(w, s[k]);
    }
  }

  /** []x]: a closing bracket is the first member. */
  lemma BracketMemberText(x: Char, s: Text)
    requires x != 0 && x != 45 && x != 93
    ensures Denotes([91, 93, x, 93], s) <==> 93 in s || x in s
  {
    var p: Text := [91, 93, x, 93];
    var spans := [Single(93), Single(x)];
    assert [] + [Single(93)] == [Single(93)] && [Single(93)] + [Single(x)] == spans;
    assert ParseClass(p, 3, spans) == ClassOk(spans, 4);
    assert ParseClass(p, 2, [Single(93)]) == ClassOk(spans, 4);
    assert ParseFrom(p, 4, 0, []) == Items([]);
    assert ParseStars(Class(spans, false), p, 4, 0, []) == Items([One(Class(spans, false))]);
    OneAtom(p, Class(spans, false), s);
    TwoSingles(93, x, s);
  }

  /** [x-]: a dash is the last member. */
  lemma DashMemberText(x: Char, s: Text)
    requires x != 0 && x != 45 && x != 93 && x != 94
    ensures Denotes([91, x, 45, 93], s) <==> x in s || 45 in s
  {
    var p: Text := [91, x, 45, 93];
    var spans := [Single(x), Single(45)];
    assert [] + [Single(x)] == [Single(x)] && [Single(x)] + [Single(45)] == spans;
    assert ParseClass(p, 2, [Single(x)]) == ClassOk(spans, 4);
    assert ParseFrom(p, 4, 0, []) == Items([]);
    assert ParseStars(Class(spans, false), p, 4, 0, []) == Items([One(Class(spans, false))]);
    OneAtom(p, Class(spans, false), s);
    TwoSingles(x, 45, s);
  }

  /** Texts the grammar rejects, each with its own error: an opening mark alone, a closing one, a class without end. */
  lemma WrongTexts(x: Char)
    requires x != 0 && x != 93 && x != 94
    ensures Body([92, 40]) == Bad(UnmatchedOpen, [Open(0)], [])
    ensures Body([92, 41]) == Bad(UnmatchedClose, [], [])
    ensures Body([91, x]) == Bad(MissingBracket, [], [Single(x)])
  {
    var p: Text := [91, x];
    assert [] + [Single(x)] == [Single(x)];
    assert ParseClass(p, 2, [Single(x)]) == ClassBad([Single(x)]);
    assert ParseFrom([92, 40], 2, 1, [0]) == Bad(UnmatchedOpen, [], []);
  }
}
