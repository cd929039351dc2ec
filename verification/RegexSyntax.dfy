/** The patterns accepted by software/libs/liborion_em_assembler/regex.c, without
    back-references: their grammar and the strings they match.

    Nothing here mentions byte codes, greedy loops or backtracking: an item matches a stretch
    of the subject, and a pattern matches where some cutting of the subject into
    stretches satisfies its items one after the other.
  */
module RegexSyntax {

  // A C char of the target is signed. 0 ends a string.
  type Char = c: int | -128 <= c <= 127

  // The contents of a C string, without its terminator.
  type Text = t: seq<Char> | forall k :: 0 <= k < |t| ==> t[k] != 0 witness []

  const DOT: Char := 46
  const STAR: Char := 42
  const DOLLAR: Char := 36
  const CARET: Char := 94
  const DASH: Char := 45
  const LBRACKET: Char := 91
  const RBRACKET: Char := 93
  const LPAREN: Char := 40
  const RPAREN: Char := 41
  const BACKSLASH: Char := 92
  const ONE: Char := 49
  const NBRA: nat := 9

  /** The character at a position of a C string: 0 at its end. */
  function At(t: Text, i: nat): (c: Char)
    requires i <= |t|
    ensures c == 0 <==> i == |t|
  {
    if i < |t| then t[i] else 0
  }

  // A member of a bracketed class: a character, or a range ending in `hi`
  // that starts from the member before it.
  datatype Span = Single(hi: Char) | Range(lo: Char, hi: Char)

  datatype Atom = Lit(c: Char) | AnyChar | Class(spans: seq<Span>, negated: bool)

  datatype Item = One(a: Atom) | Star(a: Atom) | Open(n: nat) | Close(n: nat) | AtEnd

  // ------------------------------------------------------------ meaning

  predicate InSpan(sp: Span, c: Char) {
    match sp
    case Single(hi) => c == hi
    case Range(lo, hi) => lo <= c <= hi || c == hi
  }

  predicate InClass(spans: seq<Span>, c: Char) {
    exists k :: 0 <= k < |spans| && InSpan(spans[k], c)
  }

  predicate Accepts(a: Atom, c: Char) {
    c != 0 &&
    match a
    case Lit(x) => c == x
    case AnyChar => true
    case Class(spans, negated) => InClass(spans, c) != negated
  }

  /** The item matches the stretch s[i..j]. */
  predicate ItemMatches(item: Item, s: Text, i: nat, j: nat)
    requires i <= |s| && j <= |s|
  {
    match item
    case One(a) => j == i + 1 && Accepts(a, s[i])
    case Star(a) => i <= j && forall k :: i <= k < j ==> Accepts(a, s[k])
    case Open(_) => j == i
    case Close(_) => j == i
    case AtEnd => i == j == |s|
  }

  /** `cuts` splits a stretch of s so that the k-th piece matches the k-th item. */
  ghost predicate Splits(items: seq<Item>, s: Text, cuts: seq<nat>) {
    |cuts| == |items| + 1
    && (forall k :: 0 <= k < |cuts| ==> cuts[k] <= |s|)
    && forall k :: 0 <= k < |items| ==> ItemMatches(items[k], s, cuts[k], cuts[k + 1])
  }

  ghost predicate MatchesAt(items: seq<Item>, s: Text, i: nat) {
    exists cuts :: Splits(items, s, cuts) && cuts[0] == i
  }

  /** What a whole pattern text means: it parses, and some start position matches,
      only the first one under a leading caret. */
  ghost predicate Denotes(p: Text, s: Text) {
    Body(p).Items?
    && exists i: nat :: i <= |s| && (Anchored(p) ==> i == 0) && MatchesAt(Body(p).items, s, i)
  }

  lemma MatchesNil(s: Text, i: nat)
    ensures MatchesAt([], s, i) <==> i <= |s|
  {
    if i <= |s| {
      assert Splits([], s, [i]);
    }
  }

  /** A match of a non-empty item list is a match of its head followed by one of its tail. */
  lemma MatchesCons(items: seq<Item>, s: Text, i: nat)
    requires items != []
    ensures MatchesAt(items, s, i) <==>
            i <= |s| && exists j: nat :: j <= |s| && ItemMatches(items[0], s, i, j) && MatchesAt(items[1..], s, j)
  {
    if MatchesAt(items, s, i) {
      var cuts :| Splits(items, s, cuts) && cuts[0] == i;
      var rest := cuts[1..];
      forall k | 0 <= k < |items[1..]| ensures ItemMatches(items[1..][k], s, rest[k], rest[k + 1]) {
        assert ItemMatches(items[k + 1], s, cuts[k + 1], cuts[k + 2]);
      }
      assert Splits(items[1..], s, rest) && rest[0] == cuts[1];
      assert ItemMatches(items[0], s, i, cuts[1]);
    }
    if i <= |s| && exists j: nat :: j <= |s| && ItemMatches(items[0], s, i, j) && MatchesAt(items[1..], s, j) {
      var j: nat :| j <= |s| && ItemMatches(items[0], s, i, j) && MatchesAt(items[1..], s, j);
      var rest :| Splits(items[1..], s, rest) && rest[0] == j;
      var cuts := [i] + rest;
      forall k | 0 <= k < |items| ensures ItemMatches(items[k], s, cuts[k], cuts[k + 1]) {
        if k > 0 {
          assert ItemMatches(items[1..][k - 1], s, rest[k - 1], rest[k]);
        }
      }
      assert Splits(items, s, cuts);
    }
  }

  /** The same meaning, one item at a time from the left. */
  ghost predicate Meets(items: seq<Item>, s: Text, i: nat)
    decreases |items|
  {
    i <= |s| &&
    if items == [] then true
    else match items[0]
      case One(a) => Accepts(a, At(s, i)) && Meets(items[1..], s, i + 1)
      case Star(a) => exists j: nat :: ItemRuns(a, s, i, j) && Meets(items[1..], s, j)
      case Open(_) => Meets(items[1..], s, i)
      case Close(_) => Meets(items[1..], s, i)
      case AtEnd => At(s, i) == 0 && Meets(items[1..], s, i)
  }

  /** Whether an item other than a star passes at i, and where it leads. */
  predicate PlainTest(item: Item, s: Text, i: nat)
    requires i <= |s|
  {
    (item.One? ==> Accepts(item.a, At(s, i))) && (item.AtEnd? ==> At(s, i) == 0)
  }

  function PlainNext(item: Item, i: nat): nat {
    if item.One? then i + 1 else i
  }

  lemma PlainStep(items: seq<Item>, s: Text, i: nat)
    requires items != [] && !items[0].Star? && i <= |s|
    ensures PlainTest(items[0], s, i) ==> PlainNext(items[0], i) <= |s|
    ensures Meets(items, s, i) == (PlainTest(items[0], s, i) && Meets(items[1..], s, PlainNext(items[0], i)))
  {
  }

  predicate ItemRuns(a: Atom, s: Text, i: nat, j: nat) {
    i <= j <= |s| && forall k :: i <= k < j ==> Accepts(a, s[k])
  }

  lemma {:induction false} MeetsIsMatch(items: seq<Item>, s: Text, i: nat)
    ensures Meets(items, s, i) <==> MatchesAt(items, s, i)
    decreases |items|
  {
    if items == [] {
      MatchesNil(s, i);
    } else {
      MatchesCons(items, s, i);
      forall j: nat ensures Meets(items[1..], s, j) <==> MatchesAt(items[1..], s, j) {
        MeetsIsMatch(items[1..], s, j);
      }
      if MatchesAt(items, s, i) {
        var j: nat :| j <= |s| && ItemMatches(items[0], s, i, j) && MatchesAt(items[1..], s, j);
        assert items[0].Star? ==> ItemRuns(items[0].a, s, i, j);
      }
      if Meets(items, s, i) {
        if items[0].Star? {
          var j: nat :| ItemRuns(items[0].a, s, i, j) && Meets(items[1..], s, j);
          assert ItemMatches(items[0], s, i, j);
        } else {
          var j := if items[0].One? then i + 1 else i;
          assert ItemMatches(items[0], s, i, j) && MatchesAt(items[1..], s, j);
        }
      }
    }
  }

  /** The atom's longest run of accepted characters from i ends at `top`. */
  ghost predicate LongestRun(a: Atom, s: Text, i: nat, top: nat) {
    ItemRuns(a, s, i, top) && !Accepts(a, At(s, top))
  }

  /** A starred atom may stop anywhere in the longest run, and nowhere else. */
  lemma StarWithinRun(items: seq<Item>, s: Text, i: nat, top: nat)
    requires items != [] && items[0].Star? && LongestRun(items[0].a, s, i, top)
    ensures Meets(items, s, i) ==> exists j: nat :: i <= j <= top && Meets(items[1..], s, j)
    ensures forall j: nat :: i <= j <= top && Meets(items[1..], s, j) ==> Meets(items, s, i)
  {
    if Meets(items, s, i) {
      var j: nat :| ItemRuns(items[0].a, s, i, j) && Meets(items[1..], s, j);
      assert j <= top;
    }
    forall j: nat | i <= j <= top && Meets(items[1..], s, j) ensures Meets(items, s, i) {
      assert ItemRuns(items[0].a, s, i, j);
    }
  }

  // ------------------------------------------------------------ grammar

  datatype Error = UnmatchedOpen | UnmatchedClose | MissingBracket | TooManyPairs | TooLong | NoPrevious

  // Unmodelled: a back-reference, or a pattern whose compilation reads past its terminator
  // (a trailing backslash, or "[x-" cut short). With an error go the items before it and the members of the class that
  // it cuts short.
  datatype Parse = Items(items: seq<Item>) | Bad(error: Error, before: seq<Item>, members: seq<Span>) | Unmodelled

  datatype ClassParse = ClassOk(spans: seq<Span>, next: nat) | ClassBad(spans: seq<Span>) | ClassUnmodelled

  predicate Anchored(p: Text) {
    p != [] && p[0] == CARET
  }

  function Body(p: Text): Parse {
    ParseFrom(p, if Anchored(p) then 1 else 0, 0, [])
  }

  function Cons(item: Item, rest: Parse): Parse {
    match rest
    case Items(items) => Items([item] + items)
    case Bad(error, before, members) => Bad(error, [item] + before, members)
    case Unmodelled => Unmodelled
  }

  /** The end of the run of stars that starts at i. */
  function SkipStars(p: Text, i: nat): (j: nat)
    requires i <= |p|
    ensures i <= j <= |p| && (j == |p| || p[j] != STAR)
    ensures forall k :: i <= k < j ==> p[k] == STAR
    decreases |p| - i
  {
    if i < |p| && p[i] == STAR then SkipStars(p, i + 1) else i
  }

  /** The items of p from position i on, `nb` groups opened so far, `open` of them still open.
      A star stands for itself where no atom precedes it: at the start, after a group mark
      and after such a star. A dollar is special only at the very end. */
  function ParseFrom(p: Text, i: nat, nb: nat, open: seq<nat>): Parse
    requires i <= |p|
    decreases |p| - i, 0
  {
    if i == |p| then
      if open == [] then Items([]) else Bad(UnmatchedOpen, [], [])
    else if p[i] == DOT then
      ParseStars(AnyChar, p, i + 1, nb, open)
    else if p[i] == STAR then
      Cons(One(Lit(STAR)), ParseFrom(p, i + 1, nb, open))
    else if p[i] == DOLLAR && i + 1 == |p| then
      Cons(AtEnd, ParseFrom(p, i + 1, nb, open))
    else if p[i] == LBRACKET then
      var negated := i + 1 < |p| && p[i + 1] == CARET;
      var cls := ParseClass(p, if negated then i + 2 else i + 1, []);
      match cls {
        case ClassOk(spans, next) => ParseStars(Class(spans, negated), p, next, nb, open)
        case ClassBad(spans) => Bad(MissingBracket, [], spans)
        case ClassUnmodelled => Unmodelled
      }
    else if p[i] == BACKSLASH then
      ParseEscape(p, i + 1, nb, open)
    else
      ParseStars(Lit(p[i]), p, i + 1, nb, open)
  }

  /** What follows a backslash. */
  function ParseEscape(p: Text, i: nat, nb: nat, open: seq<nat>): Parse
    requires i <= |p|
    decreases |p| - i, 2
  {
    if i == |p| then Unmodelled
    else if p[i] == LPAREN then
      if nb >= NBRA then Bad(TooManyPairs, [], []) else Cons(Open(nb), ParseFrom(p, i + 1, nb + 1, open + [nb]))
    else if p[i] == RPAREN then
      if open == [] then Bad(UnmatchedClose, [], [])
      else Cons(Close(open[|open| - 1]), ParseFrom(p, i + 1, nb, open[..|open| - 1]))
    else if ONE <= p[i] < ONE + NBRA then Unmodelled
    else ParseStars(Lit(p[i]), p, i + 1, nb, open)
  }

  /** An atom that ends just before i, with the stars that follow it. */
  function ParseStars(a: Atom, p: Text, i: nat, nb: nat, open: seq<nat>): Parse
    requires i <= |p|
    decreases |p| - i, 1
  {
    var j := SkipStars(p, i);
    Cons(if i < j then Star(a) else One(a), ParseFrom(p, j, nb, open))
  }

  /** The members of a bracketed class from position i on, after those in `spans`.
      A closing bracket ends the class except as its first member; a dash stands for itself
      as the first member and before the closing bracket. */
  function ParseClass(p: Text, i: nat, spans: seq<Span>): (r: ClassParse)
    requires i <= |p|
    ensures r.ClassOk? ==> i < r.next <= |p|
    decreases |p| - i
  {
    if i == |p| then ClassBad(spans)
    else if p[i] == RBRACKET && spans != [] then ClassOk(spans, i + 1)
    else if p[i] == DASH && spans != [] then
      if i + 1 == |p| then ClassUnmodelled
      else if p[i + 1] == RBRACKET then ClassOk(spans + [Single(DASH)], i + 2)
      else ParseClass(p, i + 2, spans + [Range(spans[|spans| - 1].hi, p[i + 1])])
    else ParseClass(p, i + 1, spans + [Single(p[i])])
  }
}
