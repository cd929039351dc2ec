/** What the keyboard parser of peripheral/pico2W/kbd_usb/kbd_usb.c means: what one report does to the modifier and
    key flags, what one byte does to the parser, and the frames a byte stream consists of. */
module KeyboardFrames {
  import opened Sequences
  import opened Values

  /** kbd_pending_char: -1 or a key. */
  type Key = x: int | -1 <= x < 256

  const NO_KEY: Key := -1
  const BUFFER: nat := 1048

  datatype Modifier = Plain | Ctrl | Shift | Alt | AltGr

  /** get_kbd_key: the key of a code under a modifier and the caps lock state. */
  type Keymap = (Byte, Modifier, Byte) -> Byte

  /** The flags a report changes; `leds` are the values sent by send_cmd_keyboard so far. */
  datatype Flags = Flags(modifier: Modifier, specialDown: bool, specialUp: bool, keyDown: bool, keyUp: bool,
                         caps: Byte, capsHeld: bool, leds: seq<Byte>)

  datatype Phase = Header1 | Header2 | Command | Type81 | Length81 | Skip81 | Byte82 | Byte85 | Size88 | Payload88

  datatype Parser = Parser(phase: Phase, size: Byte, length: Byte, kind: Byte, index: nat, buffer: seq<Byte>,
                           flags: Flags)

  datatype Reported = Reported(flags: Flags, key: Key)

  datatype Stepped = Stepped(parser: Parser, key: Key)

  function ModifierOf(mods: Byte): Modifier {
    if mods == 0x01 || mods == 0x10 then Ctrl
    else if mods == 0x02 || mods == 0x20 then Shift
    else if mods == 0x04 then Alt
    else if mods == 0x40 then AltGr
    else Plain
  }

  function Released(f: Flags): Flags {
    f.(modifier := if f.specialDown then Plain else f.modifier, specialDown := false,
       specialUp := f.specialUp || f.specialDown, keyDown := false, capsHeld := false)
  }

  function WithModifier(f: Flags, m: Modifier): Flags {
    f.(modifier := m, specialDown := true, specialUp := false)
  }

  function CapsPressed(f: Flags): Flags {
    if f.capsHeld then f
    else if f.caps == 0 then f.(capsHeld := true, caps := 2, leds := f.leds + [2])
    else f.(capsHeld := true, caps := 0, leds := f.leds + [0])
  }

  function Pressed(f: Flags): Flags {
    f.(keyDown := true, keyUp := false)
  }

  /** One report: its modifier byte and the code of its first key. */
  function Report(keymap: Keymap, f: Flags, mods: Byte, code: Byte): Reported {
    if mods == 0 && code == 0 then Reported(Released(f), NO_KEY)
    else if ModifierOf(mods) != Plain then
      Reported(WithModifier(f, ModifierOf(mods)), KeyFor(keymap, WithModifier(f, ModifierOf(mods)), code))
    else if code == 0x39 then Reported(CapsPressed(f), NO_KEY)
    else Reported(Pressed(f), KeyFor(keymap, f, code))
  }

  function KeyFor(keymap: Keymap, f: Flags, code: Byte): Key {
    if code > 0 then keymap(code, f.modifier, f.caps) else NO_KEY
  }

  function Finish(keymap: Keymap, p: Parser): Stepped
    requires |p.buffer| == BUFFER
  {
    var r := Report(keymap, p.flags, p.buffer[2], p.buffer[4]);
    Stepped(p.(phase := Header1, flags := r.flags), r.key)
  }

  function AfterCommand(c: Byte): Phase {
    match c
    case 0x81 => Type81
    case 0x82 => Byte82
    case 0x85 => Byte85
    case 0x88 => Size88
    case _ => Header1
  }

  function Zeros(): seq<Byte> {
    seq(BUFFER, _ => 0)
  }

  function Stored(p: Parser, c: Byte): (r: Parser)
    requires |p.buffer| == BUFFER
    ensures |r.buffer| == BUFFER
  {
    if p.index < BUFFER then p.(buffer := p.buffer[p.index := c], index := p.index + 1) else p.(index := p.index + 1)
  }

  function Sized(p: Parser, c: Byte): (r: Parser)
    ensures |r.buffer| == BUFFER
  {
    p.(phase := Payload88, size := c, index := 1, buffer := Zeros())
  }

  /** One byte. */
  function Step(keymap: Keymap, p: Parser, c: Byte): (r: Stepped)
    requires |p.buffer| == BUFFER
    ensures |r.parser.buffer| == BUFFER
  {
    match p.phase
    case Header1 => Stepped(if c == 0x57 then p.(phase := Header2) else p, NO_KEY)
    case Header2 => Stepped(p.(phase := if c == 0xAB then Command else Header1), NO_KEY)
    case Command => Stepped(p.(phase := AfterCommand(c)), NO_KEY)
    case Type81 => Stepped(p.(kind := c, phase := Length81), NO_KEY)
    case Length81 => Stepped(p.(length := c, index := 0, phase := if c > 0 then Skip81 else Header1), NO_KEY)
    case Skip81 =>
      Stepped(p.(index := p.index + 1, phase := if p.index + 1 >= p.length then Header1 else Skip81), NO_KEY)
    case Byte82 => Stepped(p.(phase := Header1), NO_KEY)
    case Byte85 => Stepped(p.(phase := Header1), NO_KEY)
    case Size88 => if c > 0 then Stepped(Sized(p, c), NO_KEY) else Finish(keymap, Sized(p, c))
    case Payload88 =>
      if p.index + 1 > p.size then Finish(keymap, Stored(p, c)) else Stepped(Stored(p, c), NO_KEY)
  }

  // ------------------------------------------------------------ byte by byte

  function Waiting(k: Key): seq<Byte> {
    if k == NO_KEY then [] else [k]
  }

  /** The parser after a stream. */
  function Feed(keymap: Keymap, p: Parser, bytes: seq<Byte>): (r: Parser)
    requires |p.buffer| == BUFFER
    ensures |r.buffer| == BUFFER
    decreases |bytes|
  {
    if bytes == [] then p else Feed(keymap, Step(keymap, p, bytes[0]).parser, bytes[1..])
  }

  /** The keys of a stream. */
  function Keys(keymap: Keymap, p: Parser, bytes: seq<Byte>): seq<Byte>
    requires |p.buffer| == BUFFER
    decreases |bytes|
  {
    if bytes == [] then [] else
      var r := Step(keymap, p, bytes[0]);
      Waiting(r.key) + Keys(keymap, r.parser, bytes[1..])
  }

  datatype Parsed = Parsed(keys: seq<Byte>, phase: Phase, flags: Flags)

  /** What a parser makes of a stream: the keys, and where it stands behind it. */
  function Outcome(keymap: Keymap, p: Parser, s: seq<Byte>): Parsed
    requires |p.buffer| == BUFFER
  {
    var q := Feed(keymap, p, s);
    Parsed(Keys(keymap, p, s), q.phase, q.flags)
  }

  lemma {:induction false} FeedConcat(keymap: Keymap, p: Parser, a: seq<Byte>, b: seq<Byte>)
    requires |p.buffer| == BUFFER
    ensures Feed(keymap, p, a + b) == Feed(keymap, Feed(keymap, p, a), b)
    ensures Keys(keymap, p, a + b) == Keys(keymap, p, a) + Keys(keymap, Feed(keymap, p, a), b)
    decreases |a|
  {
    if a == [] {
      assert a + b == b;
    } else {
      assert (a + b)[1..] == a[1..] + b;
      var r := Step(keymap, p, a[0]);
      FeedConcat(keymap, r.parser, a[1..], b);
      Assoc(Waiting(r.key), Keys(keymap, r.parser, a[1..]), Keys(keymap, Feed(keymap, r.parser, a[1..]), b));
    }
  }

  // ------------------------------------------------------------ frames

  /** The pieces a stream consists of: frames, and what is skipped to find the next one. After 0x57 any byte but 0xAB
      is skipped with it, even another 0x57. */
  datatype Piece = Noise(byte: Byte) | HalfHeader(byte: Byte) | Ignored(command: Byte)
    | Info(kind: Byte, skipped: seq<Byte>) | Single(command: Byte, byte: Byte) | Keyboard(report: seq<Byte>)

  predicate ValidPiece(x: Piece) {
    match x
    case Noise(byte) => byte != 0x57
    case HalfHeader(byte) => byte != 0xAB
    case Ignored(command) => command !in {0x81, 0x82, 0x85, 0x88}
    case Info(_, skipped) => |skipped| < 256
    case Single(command, _) => command == 0x82 || command == 0x85
    case Keyboard(report) => |report| < 256
  }

  function Bytes(x: Piece): seq<Byte>
    requires ValidPiece(x)
  {
    match x
    case Noise(byte) => [byte]
    case HalfHeader(byte) => [0x57, byte]
    case Ignored(command) => [0x57, 0xAB, command]
    case Info(kind, skipped) => [0x57, 0xAB, 0x81, kind, |skipped|] + skipped
    case Single(command, byte) => [0x57, 0xAB, command, byte]
    case Keyboard(report) => [0x57, 0xAB, 0x88, |report|] + report
  }

  /** Byte k of a report, zero past its end. */
  function ReportByte(report: seq<Byte>, k: nat): Byte {
    if k < |report| then report[k] else 0
  }

  function Meaning(keymap: Keymap, f: Flags, x: Piece): Reported {
    if x.Keyboard? then Report(keymap, f, ReportByte(x.report, 1), ReportByte(x.report, 3)) else Reported(f, NO_KEY)
  }

  predicate ValidPieces(xs: seq<Piece>) {
    forall k :: 0 <= k < |xs| ==> ValidPiece(xs[k])
  }

  function Stream(xs: seq<Piece>): seq<Byte>
    requires ValidPieces(xs)
  {
    if xs == [] then [] else Bytes(xs[0]) + Stream(xs[1..])
  }

  function KeysOf(keymap: Keymap, f: Flags, xs: seq<Piece>): seq<Byte>
    decreases |xs|
  {
    if xs == [] then [] else
      var r := Meaning(keymap, f, xs[0]);
      Waiting(r.key) + KeysOf(keymap, r.flags, xs[1..])
  }

  function FlagsAfter(keymap: Keymap, f: Flags, xs: seq<Piece>): Flags
    decreases |xs|
  {
    if xs == [] then f else FlagsAfter(keymap, Meaning(keymap, f, xs[0]).flags, xs[1..])
  }

  /** What is to become of a piece. */
  function Meant(keymap: Keymap, f: Flags, x: Piece): Parsed {
    var m := Meaning(keymap, f, x);
    Parsed(Waiting(m.key), Header1, m.flags)
  }

  lemma FirstByte(keymap: Keymap, p: Parser, s: seq<Byte>)
    requires |p.buffer| == BUFFER && s != []
    ensures var r := Step(keymap, p, s[0]);
            var after := Outcome(keymap, r.parser, s[1..]);
            Outcome(keymap, p, s) == after.(keys := Waiting(r.key) + after.keys)
  {
  }

  /** The bytes still to come of an 0x81 frame. */
  lemma {:induction false} SkipRest(keymap: Keymap, p: Parser, bytes: seq<Byte>)
    requires |p.buffer| == BUFFER && p.phase == Skip81 && bytes != [] && p.index + |bytes| == p.length
    ensures Outcome(keymap, p, bytes) == Parsed([], Header1, p.flags)
    decreases |bytes|
  {
    var r := Step(keymap, p, bytes[0]);
    FirstByte(keymap, p, bytes);
    if |bytes| > 1 {
      SkipRest(keymap, r.parser, bytes[1..]);
    } else {
      assert bytes[1..] == [];
    }
  }

  /** The buffer holds the first n bytes of the report, from cell 1 on, and zeros. */
  predicate Received(buffer: seq<Byte>, report: seq<Byte>, n: nat) {
    |buffer| == BUFFER && n <= |report| < 256
    && forall k :: 1 <= k < BUFFER ==> buffer[k] == if k <= n then report[k - 1] else 0
  }

  lemma {:induction false} ReadRest(keymap: Keymap, p: Parser, report: seq<Byte>, n: nat)
    requires Received(p.buffer, report, n) && n < |report|
    requires p.phase == Payload88 && p.size == |report| && p.index == n + 1
    ensures Outcome(keymap, p, report[n..]) == Meant(keymap, p.flags, Keyboard(report))
    decreases |report| - n
  {
    var r := Step(keymap, p, report[n]);
    assert report[n..][1..] == report[n + 1..];
    FirstByte(keymap, p, report[n..]);
    assert Received(r.parser.buffer, report, n + 1);
    if n + 1 < |report| {
      ReadRest(keymap, r.parser, report, n + 1);
    } else {
      assert report[n + 1..] == [];
    }
  }

  lemma Prefix(keymap: Keymap, p: Parser, a: Byte, rest: seq<Byte>)
    requires |p.buffer| == BUFFER
    ensures Feed(keymap, p, [a] + rest) == Feed(keymap, Step(keymap, p, a).parser, rest)
    ensures Keys(keymap, p, [a] + rest)
         == Waiting(Step(keymap, p, a).key) + Keys(keymap, Step(keymap, p, a).parser, rest)
  {
    assert ([a] + rest)[1..] == rest;
  }

  /** The three bytes every frame begins with. */
  lemma Opening(keymap: Keymap, p: Parser, c: Byte, rest: seq<Byte>)
    requires |p.buffer| == BUFFER && p.phase == Header1
    ensures var q := p.(phase := AfterCommand(c));
            && Feed(keymap, p, [0x57, 0xAB, c] + rest) == Feed(keymap, q, rest)
            && Keys(keymap, p, [0x57, 0xAB, c] + rest) == Keys(keymap, q, rest)
  {
    assert [0x57, 0xAB, c] + rest == [0x57] + ([0xAB] + ([c] + rest));
    Prefix(keymap, p, 0x57, [0xAB] + ([c] + rest));
    Prefix(keymap, p.(phase := Header2), 0xAB, [c] + rest);
    Prefix(keymap, p.(phase := Command), c, rest);
  }

  /** The parser takes one piece as the piece means. */
  lemma PieceParsed(keymap: Keymap, p: Parser, x: Piece)
    requires |p.buffer| == BUFFER && p.phase == Header1 && ValidPiece(x)
    ensures Outcome(keymap, p, Bytes(x)) == Meant(keymap, p.flags, x)
  {
    match x
    case Noise(byte) =>
      Prefix(keymap, p, byte, []);
      assert [byte] + [] == Bytes(x);
    case HalfHeader(byte) => HalfHeaderParsed(keymap, p, byte);
    case Ignored(command) =>
      Opening(keymap, p, command, []);
      assert [0x57, 0xAB, command] + [] == Bytes(x);
    case Info(kind, skipped) => InfoParsed(keymap, p, kind, skipped);
    case Single(command, byte) => SingleParsed(keymap, p, command, byte);
    case Keyboard(report) => ReportParsed(keymap, p, report);
  }

  lemma HalfHeaderParsed(keymap: Keymap, p: Parser, byte: Byte)
    requires |p.buffer| == BUFFER && p.phase == Header1 && byte != 0xAB
    ensures Outcome(keymap, p, Bytes(HalfHeader(byte))) == Parsed([], Header1, p.flags)
  {
    Prefix(keymap, p, 0x57, [byte]);
    Prefix(keymap, p.(phase := Header2), byte, []);
    assert [0x57] + [byte] == Bytes(HalfHeader(byte)) && [byte] + [] == [byte];
  }

  lemma SingleParsed(keymap: Keymap, p: Parser, command: Byte, byte: Byte)
    requires |p.buffer| == BUFFER && p.phase == Header1 && (command == 0x82 || command == 0x85)
    ensures Outcome(keymap, p, Bytes(Single(command, byte))) == Parsed([], Header1, p.flags)
  {
    Opening(keymap, p, command, [byte]);
    Prefix(keymap, p.(phase := AfterCommand(command)), byte, []);
    assert [0x57, 0xAB, command] + [byte] == Bytes(Single(command, byte)) && [byte] + [] == [byte];
  }

  lemma InfoParsed(keymap: Keymap, p: Parser, kind: Byte, skipped: seq<Byte>)
    requires |p.buffer| == BUFFER && p.phase == Header1 && |skipped| < 256
    ensures Outcome(keymap, p, Bytes(Info(kind, skipped))) == Parsed([], Header1, p.flags)
  {
    var n: Byte := |skipped|;
    var tail := [kind] + ([n] + skipped);
    assert [0x57, 0xAB, 0x81] + tail == Bytes(Info(kind, skipped));
    Opening(keymap, p, 0x81, tail);
    InfoTail(keymap, p.(phase := Type81), kind, n, skipped);
  }

  lemma InfoTail(keymap: Keymap, p: Parser, kind: Byte, n: Byte, skipped: seq<Byte>)
    requires |p.buffer| == BUFFER && p.phase == Type81 && |skipped| == n
    ensures Outcome(keymap, p, [kind] + ([n] + skipped)) == Parsed([], Header1, p.flags)
  {
    var q := p.(kind := kind, phase := Length81);
    Prefix(keymap, p, kind, [n] + skipped);
    Prefix(keymap, q, n, skipped);
    if n > 0 {
      SkipRest(keymap, q.(length := n, index := 0, phase := Skip81), skipped);
    }
  }

  lemma ReportParsed(keymap: Keymap, p: Parser, report: seq<Byte>)
    requires |p.buffer| == BUFFER && p.phase == Header1 && |report| < 256
    ensures Outcome(keymap, p, Bytes(Keyboard(report))) == Meant(keymap, p.flags, Keyboard(report))
  {
    var n: Byte := |report|;
    assert [0x57, 0xAB, 0x88] + ([n] + report) == Bytes(Keyboard(report));
    Opening(keymap, p, 0x88, [n] + report);
    ReportTail(keymap, p.(phase := Size88), n, report);
  }

  lemma ReportTail(keymap: Keymap, p: Parser, n: Byte, report: seq<Byte>)
    requires |p.buffer| == BUFFER && p.phase == Size88 && |report| == n
    ensures Outcome(keymap, p, [n] + report) == Meant(keymap, p.flags, Keyboard(report))
  {
    Prefix(keymap, p, n, report);
    if n > 0 {
      ReadAll(keymap, Sized(p, n), report);
    } else {
      NoReport(keymap, p, report);
    }
  }

  lemma ReadAll(keymap: Keymap, p: Parser, report: seq<Byte>)
    requires Received(p.buffer, report, 0) && report != []
    requires p.phase == Payload88 && p.size == |report| && p.index == 1
    ensures Outcome(keymap, p, report) == Meant(keymap, p.flags, Keyboard(report))
  {
    ReadRest(keymap, p, report, 0);
    assert report[0..] == report;
  }

  lemma NoReport(keymap: Keymap, p: Parser, report: seq<Byte>)
    requires |p.buffer| == BUFFER && p.phase == Size88 && report == []
    ensures Step(keymap, p, 0).key == Meaning(keymap, p.flags, Keyboard(report)).key
    ensures Step(keymap, p, 0).parser.phase == Header1
    ensures Step(keymap, p, 0).parser.flags == Meaning(keymap, p.flags, Keyboard(report)).flags
  {
  }

  /** A stream of pieces is parsed as the pieces mean. */
  lemma {:induction false} StreamParsed(keymap: Keymap, p: Parser, xs: seq<Piece>)
    requires |p.buffer| == BUFFER && p.phase == Header1 && ValidPieces(xs)
    ensures Outcome(keymap, p, Stream(xs))
         == Parsed(KeysOf(keymap, p.flags, xs), Header1, FlagsAfter(keymap, p.flags, xs))
    decreases |xs|
  {
    if xs != [] {
      PieceParsed(keymap, p, xs[0]);
      FeedConcat(keymap, p, Bytes(xs[0]), Stream(xs[1..]));
      StreamParsed(keymap, Feed(keymap, p, Bytes(xs[0])), xs[1..]);
    }
  }

  // ------------------------------------------------------------ a frame lost

  lemma {:induction false} NoHeader(keymap: Keymap, p: Parser, s: seq<Byte>)
    requires |p.buffer| == BUFFER && p.phase == Header1 && 0x57 !in s
    ensures Keys(keymap, p, s) == [] && Feed(keymap, p, s) == p
    decreases |s|
  {
    if s != [] {
      NoHeader(keymap, p, s[1..]);
    }
  }

  /** A 0x57 before a frame takes the 0x57 of the frame with it. */
  lemma Swallowed(keymap: Keymap, p: Parser, rest: seq<Byte>)
    requires |p.buffer| == BUFFER && p.phase == Header1
    ensures Keys(keymap, p, [0x57] + ([0x57] + rest)) == Keys(keymap, p, rest)
    ensures Feed(keymap, p, [0x57] + ([0x57] + rest)) == Feed(keymap, p, rest)
  {
    Prefix(keymap, p, 0x57, [0x57] + rest);
    Prefix(keymap, p.(phase := Header2), 0x57, rest);
  }

  /** So the whole report leaves no trace, if no byte of it looks like a header. */
  lemma ReportSwallowed(keymap: Keymap, p: Parser, report: seq<Byte>)
    requires |p.buffer| == BUFFER && p.phase == Header1 && |report| < 256 && |report| != 0x57 && 0x57 !in report
    ensures Keys(keymap, p, [0x57] + Bytes(Keyboard(report))) == []
    ensures Feed(keymap, p, [0x57] + Bytes(Keyboard(report))) == p
  {
    var n: Byte := |report|;
    var rest := [0xAB, 0x88, n] + report;
    assert Bytes(Keyboard(report)) == [0x57] + rest;
    Swallowed(keymap, p, rest);
    NoHeader(keymap, p, rest);
  }

  /** A stream with the letter a that gives no key. */
  lemma LetterLost(keymap: Keymap, p: Parser)
    requires |p.buffer| == BUFFER && p.phase == Header1
    ensures Meaning(keymap, p.flags, Keyboard([0, 0, 0, 4])).key == keymap(4, p.flags.modifier, p.flags.caps)
    ensures Keys(keymap, p, [0x57] + Bytes(Keyboard([0, 0, 0, 4]))) == []
  {
    ReportSwallowed(keymap, p, [0, 0, 0, 4]);
  }

  // ------------------------------------------------------------ every stream

  /** A stream in which no piece is complete yet. */
  predicate Incomplete(s: seq<Byte>) {
    || s == [] || s == [0x57] || s == [0x57, 0xAB]
    || (|s| >= 3 && s[..2] == [0x57, 0xAB]
        && match s[2]
           case 0x81 => |s| < 5 || |s| - 5 < s[4]
           case 0x82 => |s| < 4
           case 0x85 => |s| < 4
           case 0x88 => |s| < 4 || |s| - 4 < s[3]
           case _ => false)
  }

  /** The piece a stream begins with. */
  function First(s: seq<Byte>): (x: Piece)
    requires !Incomplete(s)
    ensures ValidPiece(x)
    ensures |Bytes(x)| <= |s| && Bytes(x) == s[..|Bytes(x)|]
  {
    if s[0] != 0x57 then Noise(s[0])
    else if s[1] != 0xAB then HalfHeader(s[1])
    else match s[2]
         case 0x81 => Info(s[3], s[5..5 + s[4]])
         case 0x82 => Single(0x82, s[3])
         case 0x85 => Single(0x85, s[3])
         case 0x88 => Keyboard(s[4..4 + s[3]])
         case _ => Ignored(s[2])
  }

  /** Every stream is a stream of pieces followed by the beginning of one. */
  lemma {:induction false} EveryStream(s: seq<Byte>)
    ensures exists xs, rest :: Splits(s, xs, rest)
    decreases |s|
  {
    if Incomplete(s) {
      assert Stream([]) == [];
      assert Splits(s, [], s);
    } else {
      Begin(s);
      var x, t :| StartsWith(s, x, t);
      EveryStream(t);
      var ys, rest :| Splits(t, ys, rest);
      OnePieceMore(x, ys, rest);
      assert Splits(s, [x] + ys, rest);
    }
  }

  predicate StartsWith(s: seq<Byte>, x: Piece, t: seq<Byte>) {
    ValidPiece(x) && s == Bytes(x) + t && |t| < |s|
  }

  lemma Begin(s: seq<Byte>)
    requires !Incomplete(s)
    ensures exists x, t :: StartsWith(s, x, t)
  {
    var x := First(s);
    assert StartsWith(s, x, s[|Bytes(x)|..]);
  }

  lemma OnePieceMore(x: Piece, ys: seq<Piece>, rest: seq<Byte>)
    requires ValidPiece(x) && ValidPieces(ys)
    ensures ValidPieces([x] + ys) && Stream([x] + ys) + rest == Bytes(x) + (Stream(ys) + rest)
  {
    assert ([x] + ys)[1..] == ys;
    Assoc(Bytes(x), Stream(ys), rest);
  }

  /** The stream is these pieces and the beginning of another one. */
  predicate Splits(s: seq<Byte>, xs: seq<Piece>, rest: seq<Byte>) {
    ValidPieces(xs) && s == Stream(xs) + rest && Incomplete(rest)
  }

  /** A stream gives no key and leaves the flags as they are. */
  predicate Silent(keymap: Keymap, p: Parser, s: seq<Byte>)
    requires |p.buffer| == BUFFER
  {
    Outcome(keymap, p, s) == Parsed([], Outcome(keymap, p, s).phase, p.flags)
  }

  /** The beginning of a piece gives no key. */
  lemma IncompleteSilent(keymap: Keymap, p: Parser, s: seq<Byte>)
    requires |p.buffer| == BUFFER && p.phase == Header1 && Incomplete(s)
    ensures Silent(keymap, p, s)
  {
    if |s| < 3 {
      if s != [] { Prefix(keymap, p, 0x57, s[1..]); assert s == [0x57] + s[1..]; }
      if |s| == 2 { Prefix(keymap, p.(phase := Header2), 0xAB, []); assert s[1..] == [0xAB] + []; }
    } else {
      assert s == [0x57, 0xAB, s[2]] + s[3..];
      Opening(keymap, p, s[2], s[3..]);
      var q := p.(phase := AfterCommand(s[2]));
      if s[2] == 0x81 {
        InfoSilent(keymap, q, s[3..]);
      } else if s[2] == 0x88 {
        ReportSilent(keymap, q, s[3..]);
      }
    }
  }

  lemma InfoSilent(keymap: Keymap, p: Parser, t: seq<Byte>)
    requires |p.buffer| == BUFFER && p.phase == Type81 && (|t| < 2 || |t| - 2 < t[1])
    ensures Silent(keymap, p, t)
  {
    if t != [] {
      assert t == [t[0]] + t[1..];
      Prefix(keymap, p, t[0], t[1..]);
      var q := Step(keymap, p, t[0]).parser;
      if |t| > 1 {
        assert t[1..] == [t[1]] + t[2..];
        Prefix(keymap, q, t[1], t[2..]);
        SkipSilent(keymap, Step(keymap, q, t[1]).parser, t[2..]);
      }
    }
  }

  lemma ReportSilent(keymap: Keymap, p: Parser, t: seq<Byte>)
    requires |p.buffer| == BUFFER && p.phase == Size88 && (t == [] || |t| - 1 < t[0])
    ensures Silent(keymap, p, t)
  {
    if t != [] {
      assert t == [t[0]] + t[1..];
      Prefix(keymap, p, t[0], t[1..]);
      ReadSilent(keymap, Step(keymap, p, t[0]).parser, t[1..]);
    }
  }

  lemma {:induction false} SkipSilent(keymap: Keymap, p: Parser, s: seq<Byte>)
    requires |p.buffer| == BUFFER && p.phase == Skip81 && p.index + |s| < p.length
    ensures Silent(keymap, p, s)
    decreases |s|
  {
    if s != [] {
      FirstByte(keymap, p, s);
      SkipSilent(keymap, Step(keymap, p, s[0]).parser, s[1..]);
    }
  }

  lemma {:induction false} ReadSilent(keymap: Keymap, p: Parser, s: seq<Byte>)
    requires |p.buffer| == BUFFER && p.phase == Payload88 && p.index + |s| <= p.size
    ensures Silent(keymap, p, s)
    decreases |s|
  {
    if s != [] {
      FirstByte(keymap, p, s);
      ReadSilent(keymap, Step(keymap, p, s[0]).parser, s[1..]);
    }
  }

  /** Whatever the bytes: the keys of a stream are those of its pieces. */
  lemma EveryStreamParsed(keymap: Keymap, p: Parser, s: seq<Byte>)
    requires |p.buffer| == BUFFER && p.phase == Header1
    ensures exists xs, rest :: Splits(s, xs, rest) && Keys(keymap, p, s) == KeysOf(keymap, p.flags, xs)
                               && Feed(keymap, p, s).flags == FlagsAfter(keymap, p.flags, xs)
  {
    EveryStream(s);
    var xs, rest :| Splits(s, xs, rest);
    StreamParsed(keymap, p, xs);
    FeedConcat(keymap, p, Stream(xs), rest);
    IncompleteSilent(keymap, Feed(keymap, p, Stream(xs)), rest);
    assert KeysOf(keymap, p.flags, xs) + [] == KeysOf(keymap, p.flags, xs);
    assert Splits(s, xs, rest);
  }

  // ------------------------------------------------------------ when a report is lost

  /** No frame with a key fits in: nowhere in the stream do the three bytes that open a keyboard frame stand with five
      more behind them. */
  predicate FrameFree(s: seq<Byte>) {
    forall i {:trigger OpensAt(s, i)} :: 0 <= i && i + 8 <= |s| ==> !OpensAt(s, i)
  }

  predicate OpensAt(s: seq<Byte>, i: nat)
    requires i + 8 <= |s|
  {
    s[i] == 0x57 && s[i + 1] == 0xAB && s[i + 2] == 0x88
  }

  lemma FrameFreeSuffix(a: seq<Byte>, b: seq<Byte>)
    requires FrameFree(a + b)
    ensures FrameFree(b)
  {
    forall i {:trigger OpensAt(b, i)} | 0 <= i && i + 8 <= |b| ensures !OpensAt(b, i) {
      assert !OpensAt(a + b, |a| + i);
    }
  }

  /** A key takes a report of four bytes at least. */
  lemma KeyNeedsFrame(keymap: Keymap, f: Flags, x: Piece, rest: seq<Byte>)
    requires ValidPiece(x) && FrameFree(Bytes(x) + rest)
    ensures Meaning(keymap, f, x).key == NO_KEY
  {
    if x.Keyboard? && |x.report| >= 4 {
      var s := Bytes(x) + rest;
      assert s[0] == 0x57 && s[1] == 0xAB && s[2] == 0x88;
      assert OpensAt(s, 0);
    }
  }

  lemma {:induction false} FrameFreeKeys(keymap: Keymap, f: Flags, xs: seq<Piece>, rest: seq<Byte>)
    requires ValidPieces(xs) && FrameFree(Stream(xs) + rest)
    ensures KeysOf(keymap, f, xs) == []
    decreases |xs|
  {
    if xs != [] {
      var x, ys := xs[0], xs[1..];
      Assoc(Bytes(x), Stream(ys), rest);
      KeyNeedsFrame(keymap, f, x, Stream(ys) + rest);
      FrameFreeSuffix(Bytes(x), Stream(ys) + rest);
      FrameFreeKeys(keymap, Meaning(keymap, f, x).flags, ys, rest);
    }
  }

  lemma FrameFreeSilent(keymap: Keymap, p: Parser, s: seq<Byte>)
    requires |p.buffer| == BUFFER && p.phase == Header1 && FrameFree(s)
    ensures Keys(keymap, p, s) == []
  {
    EveryStreamParsed(keymap, p, s);
    var xs, rest :| Splits(s, xs, rest) && Keys(keymap, p, s) == KeysOf(keymap, p.flags, xs);
    FrameFreeKeys(keymap, p.flags, xs, rest);
  }

  /** The key of a report comes through after one more byte b if and only if b is not 0x57, unless the frame itself,
      past its first byte, has another one with a key in it. */
  lemma ReportLost(keymap: Keymap, p: Parser, b: Byte, report: seq<Byte>)
    requires |p.buffer| == BUFFER && p.phase == Header1 && |report| < 256
    requires FrameFree(Bytes(Keyboard(report))[1..]) && Meaning(keymap, p.flags, Keyboard(report)).key != NO_KEY
    ensures var key := Meaning(keymap, p.flags, Keyboard(report)).key;
            Keys(keymap, p, [b] + Bytes(Keyboard(report))) == Waiting(key) <==> b != 0x57
  {
    if b == 0x57 {
      var rest := Bytes(Keyboard(report))[1..];
      assert Bytes(Keyboard(report)) == [0x57] + rest;
      Swallowed(keymap, p, rest);
      FrameFreeSilent(keymap, p, rest);
    } else {
      Prefix(keymap, p, b, Bytes(Keyboard(report)));
      ReportParsed(keymap, p, report);
    }
  }

  /** So it is for every report of up to seven bytes, whatever they are. */
  lemma ShortReportFree(report: seq<Byte>)
    requires |report| < 8
    ensures FrameFree(Bytes(Keyboard(report))[1..])
  {
    var s := Bytes(Keyboard(report))[1..];
    assert s[0] == 0xAB && s[1] == 0x88 && s[2] == |report|;
  }

  // ------------------------------------------------------------ the modifier in force

  /** A report that says what the modifier is: one with a modifier, or an empty one. */
  predicate Settles(x: Piece) {
    && x.Keyboard?
    && (ModifierOf(ReportByte(x.report, 1)) != Plain || (ReportByte(x.report, 1) == 0 && ReportByte(x.report, 3) == 0))
  }

  function Settled(x: Piece): Modifier
    requires x.Keyboard?
  {
    ModifierOf(ReportByte(x.report, 1))
  }

  ghost predicate LastSettles(xs: seq<Piece>, k: nat) {
    k < |xs| && Settles(xs[k]) && forall j :: k < j < |xs| ==> !Settles(xs[j])
  }

  /** A modifier is in force exactly while one is held down. */
  predicate HeldDown(f: Flags) {
    f.modifier != Plain <==> f.specialDown
  }

  lemma MeaningSettles(keymap: Keymap, f: Flags, x: Piece)
    requires HeldDown(f)
    ensures var g := Meaning(keymap, f, x).flags;
            HeldDown(g) && g.modifier == if Settles(x) then Settled(x) else f.modifier
  {
  }

  /** Over every run of pieces the modifier in force is that of the last report with a modifier, unless an empty report
      has come after it; every other report leaves it as it is, whatever its own modifier byte. */
  lemma {:induction false} ModifierInForce(keymap: Keymap, f: Flags, xs: seq<Piece>)
    requires HeldDown(f)
    ensures HeldDown(FlagsAfter(keymap, f, xs))
    ensures forall k: nat :: LastSettles(xs, k) ==> FlagsAfter(keymap, f, xs).modifier == Settled(xs[k])
    ensures (forall k :: 0 <= k < |xs| ==> !Settles(xs[k])) ==> FlagsAfter(keymap, f, xs).modifier == f.modifier
    decreases |xs|
  {
    if xs != [] {
      var x, ys := xs[0], xs[1..];
      var g := Meaning(keymap, f, x).flags;
      MeaningSettles(keymap, f, x);
      ModifierInForce(keymap, g, ys);
      assert forall j :: 0 < j < |xs| ==> xs[j] == ys[j - 1];
      assert FlagsAfter(keymap, f, xs) == FlagsAfter(keymap, g, ys);
      forall k: nat | LastSettles(xs, k) ensures FlagsAfter(keymap, g, ys).modifier == Settled(xs[k]) {
        if k > 0 {
          assert LastSettles(ys, k - 1);
        } else {
          assert forall j :: 0 <= j < |ys| ==> !Settles(ys[j]) by {
            assert forall j :: 0 <= j < |ys| ==> ys[j] == xs[j + 1];
          }
        }
      }
    }
  }

  /** So there is none in force exactly when the last report that says anything is an empty one, or there is none. */
  lemma NoneInForce(keymap: Keymap, f: Flags, xs: seq<Piece>)
    requires f.modifier == Plain && !f.specialDown
    ensures FlagsAfter(keymap, f, xs).modifier == Plain <==>
            forall k: nat :: LastSettles(xs, k) ==> Settled(xs[k]) == Plain
  {
    ModifierInForce(keymap, f, xs);
    if exists k :: 0 <= k < |xs| && Settles(xs[k]) {
      LastOf(xs);
    }
  }

  lemma {:induction false} LastOf(xs: seq<Piece>)
    requires exists k :: 0 <= k < |xs| && Settles(xs[k])
    ensures exists k: nat :: LastSettles(xs, k)
    decreases |xs|
  {
    var n := |xs| - 1;
    if Settles(xs[n]) {
      assert LastSettles(xs, n);
    } else {
      var front := xs[..n];
      assert forall j :: 0 <= j < n ==> front[j] == xs[j];
      LastOf(front);
      var k: nat :| LastSettles(front, k);
      assert LastSettles(xs, k);
    }
  }

  /** A report without a modifier is decoded with the one in force. */
  lemma PlainReportDecoded(keymap: Keymap, p: Parser, xs: seq<Piece>, report: seq<Byte>)
    requires |p.buffer| == BUFFER && p.phase == Header1 && ValidPieces(xs) && 4 <= |report| < 256
    requires ModifierOf(report[1]) == Plain && report[3] != 0 && (report[3] != 0x39)
    ensures var f := FlagsAfter(keymap, p.flags, xs);
            Keys(keymap, p, Stream(xs) + Bytes(Keyboard(report))) ==
            KeysOf(keymap, p.flags, xs) + [keymap(report[3], f.modifier, f.caps)]
  {
    StreamParsed(keymap, p, xs);
    FeedConcat(keymap, p, Stream(xs), Bytes(Keyboard(report)));
    ReportParsed(keymap, Feed(keymap, p, Stream(xs)), report);
  }

  /** Shift with a letter, and then another letter without shift: it still comes out shifted. */
  lemma ShiftStays(keymap: Keymap, f: Flags)
    ensures KeysOf(keymap, f, [Keyboard([0, 2, 0, 4]), Keyboard([0, 0, 0, 5])]) ==
            [keymap(4, Shift, f.caps), keymap(5, Shift, f.caps)]
  {
    var x, y := Keyboard([0, 2, 0, 4]), Keyboard([0, 0, 0, 5]);
    assert [x, y][1..] == [y] && [y][1..] == [];
    assert Meaning(keymap, f, x).flags == WithModifier(f, Shift);
  }

  /** The modifier bytes, by the key that comes out of one report. */
  lemma ModifierBytes(keymap: Keymap, p: Parser, mods: Byte, code: Byte, m: Modifier)
    requires |p.buffer| == BUFFER && p.phase == Header1 && code > 0
    requires (mods in {0x01, 0x10} && m == Ctrl) || (mods in {0x02, 0x20} && m == Shift)
          || (mods == 0x04 && m == Alt) || (mods == 0x40 && m == AltGr)
    ensures Keys(keymap, p, [0x57, 0xAB, 0x88, 4, 0, mods, 0, code]) == [keymap(code, m, p.flags.caps)]
  {
    var report := [0, mods, 0, code];
    assert Bytes(Keyboard(report)) == [0x57, 0xAB, 0x88, 4, 0, mods, 0, code];
    ReportParsed(keymap, p, report);
  }

  // ------------------------------------------------------------ caps lock

  /** What send_cmd_keyboard is told alternates between on and off, and the caps state is what it was told last. */
  predicate CapsOk(f: Flags) {
    f.caps == (if |f.leds| % 2 == 1 then 2 else 0)
    && forall k :: 0 <= k < |f.leds| ==> f.leds[k] == if k % 2 == 0 then 2 else 0
  }

  lemma CapsPressedKept(f: Flags)
    requires CapsOk(f)
    ensures CapsOk(CapsPressed(f))
  {
    var g := CapsPressed(f);
    if !f.capsHeld {
      forall k | 0 <= k < |g.leds| ensures g.leds[k] == if k % 2 == 0 then 2 else 0 {
        assert k < |f.leds| ==> g.leds[k] == f.leds[k];
      }
    }
  }

  lemma CapsKept(keymap: Keymap, f: Flags, mods: Byte, code: Byte)
    requires CapsOk(f)
    ensures CapsOk(Report(keymap, f, mods, code).flags)
  {
    CapsPressedKept(f);
  }

  lemma {:induction false} CapsAlternates(keymap: Keymap, p: Parser, bytes: seq<Byte>)
    requires |p.buffer| == BUFFER && CapsOk(p.flags)
    ensures CapsOk(Feed(keymap, p, bytes).flags)
    decreases |bytes|
  {
    if bytes != [] {
      var c := bytes[0];
      var q := if p.phase == Size88 then Zeros() else Stored(p, c).buffer;
      CapsKept(keymap, p.flags, q[2], q[4]);
      CapsAlternates(keymap, Step(keymap, p, c).parser, bytes[1..]);
    }
  }

  function Repeated(keymap: Keymap, f: Flags, code: Byte, n: nat): Flags
    decreases n
  {
    if n == 0 then f else Repeated(keymap, Report(keymap, f, 0, code).flags, code, n - 1)
  }

  /** However many reports the held key repeats, one press toggles caps lock once. */
  lemma {:induction false} CapsOnce(keymap: Keymap, f: Flags, n: nat)
    requires n > 0
    ensures Repeated(keymap, f, 0x39, n) == if f.capsHeld then f else Report(keymap, f, 0, 0x39).flags
    decreases n
  {
    if n > 1 {
      CapsOnce(keymap, Report(keymap, f, 0, 0x39).flags, n - 1);
    }
  }

  /** A report of the caps lock key that is not a repetition turns the caps state from 0 to 2 and from anything else to
      0, with one command of that value; a repeated one changes nothing, and neither gives a key. */
  lemma CapsKey(keymap: Keymap, p: Parser, g: Flags)
    requires |p.buffer| == BUFFER && p.phase == Header1 && g == Feed(keymap, p, CapsFrame()).flags
    ensures Keys(keymap, p, CapsFrame()) == [] && g.capsHeld && g.modifier == p.flags.modifier
    ensures !p.flags.capsHeld && p.flags.caps == 0 ==> g.caps == 2 && g.leds == p.flags.leds + [2]
    ensures !p.flags.capsHeld && p.flags.caps != 0 ==> g.caps == 0 && g.leds == p.flags.leds + [0]
    ensures p.flags.capsHeld ==> g == p.flags
  {
    var report: seq<Byte> := [0, 0, 0, 0x39];
    assert Bytes(Keyboard(report)) == CapsFrame();
    ReportParsed(keymap, p, report);
    CapsMeaning(keymap, p.flags, report);
  }

  function CapsFrame(): seq<Byte> {
    [0x57, 0xAB, 0x88, 4, 0, 0, 0, 0x39]
  }

  lemma CapsMeaning(keymap: Keymap, f: Flags, report: seq<Byte>)
    requires |report| == 4 && report[1] == 0 && report[3] == 0x39
    ensures Meaning(keymap, f, Keyboard(report)) == Reported(CapsPressed(f), NO_KEY)
  {
  }
}
