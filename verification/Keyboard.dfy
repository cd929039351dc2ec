/** peripheral/pico2W/kbd_usb/kbd_usb.c: the parser that consumes what the UART holds and stops at a key, and the main
    loop that polls it and takes the key. A byte that arrives while kbd_poll runs counts as there before the poll when
    the poll still sees it, and as arriving after it when not. */
module Keyboard {

  import opened KeyboardFrames
  import opened Sequences
  import opened Values

  // ------------------------------------------------------------ one poll

  datatype Polled = Polled(parser: Parser, pending: Key, rest: seq<Byte>)

  /** kbd_poll over the bytes in the UART. */
  function Poll(keymap: Keymap, p: Parser, pending: Key, queue: seq<Byte>): (r: Polled)
    requires |p.buffer| == BUFFER
    ensures |r.parser.buffer| == BUFFER
    ensures |r.rest| <= |queue|
    ensures queue != [] ==> |r.rest| < |queue|
    ensures r.rest == [] || r.pending != NO_KEY
    decreases |queue|
  {
    if queue == [] then Polled(p, pending, queue) else
      var r := Step(keymap, p, queue[0]);
      var k := if r.key == NO_KEY then pending else r.key;
      if k != NO_KEY then Polled(r.parser, k, queue[1..]) else Poll(keymap, r.parser, k, queue[1..])
  }

  /** What a poll has taken from the queue. */
  function Taken(queue: seq<Byte>, r: Polled): seq<Byte>
    requires |r.rest| <= |queue|
  {
    queue[..|queue| - |r.rest|]
  }

  /** A poll takes bytes from the front only. */
  lemma {:induction false} PollRest(keymap: Keymap, p: Parser, pending: Key, queue: seq<Byte>)
    requires |p.buffer| == BUFFER
    ensures var r := Poll(keymap, p, pending, queue); r.rest == queue[|queue| - |r.rest|..]
    decreases |queue|
  {
    if queue != [] {
      var s := Step(keymap, p, queue[0]);
      var k := if s.key == NO_KEY then pending else s.key;
      if k == NO_KEY {
        PollRest(keymap, s.parser, k, queue[1..]);
      }
    }
  }

  /** A poll leaves the parser where the bytes it took lead, one by one. */
  lemma {:induction false} PollFeeds(keymap: Keymap, p: Parser, pending: Key, queue: seq<Byte>)
    requires |p.buffer| == BUFFER
    ensures var r := Poll(keymap, p, pending, queue); r.parser == Feed(keymap, p, Taken(queue, r))
    decreases |queue|
  {
    var r := Poll(keymap, p, pending, queue);
    var taken := Taken(queue, r);
    if queue != [] {
      var s := Step(keymap, p, queue[0]);
      var k := if s.key == NO_KEY then pending else s.key;
      if k != NO_KEY {
        assert taken == [queue[0]];
        assert taken[1..] == [];
      } else {
        PollFeeds(keymap, s.parser, k, queue[1..]);
        assert taken[1..] == Taken(queue[1..], r);
      }
    }
  }

  /** With no key waiting, the keys of the bytes taken are the one now waiting, or none. */
  lemma {:induction false} PollKeys(keymap: Keymap, p: Parser, queue: seq<Byte>)
    requires |p.buffer| == BUFFER
    ensures var r := Poll(keymap, p, NO_KEY, queue); Keys(keymap, p, Taken(queue, r)) == Waiting(r.pending)
    decreases |queue|
  {
    var r := Poll(keymap, p, NO_KEY, queue);
    var taken := Taken(queue, r);
    if queue != [] {
      var s := Step(keymap, p, queue[0]);
      if s.key != NO_KEY {
        assert taken == [queue[0]];
        assert taken[1..] == [];
      } else {
        PollKeys(keymap, s.parser, queue[1..]);
        assert taken[1..] == Taken(queue[1..], r);
      }
    }
  }

  /** A poll loses no key unless one waits already and the very next byte completes another. */
  lemma PollKeeps(keymap: Keymap, p: Parser, pending: Key, queue: seq<Byte>)
    requires |p.buffer| == BUFFER
    ensures var r := Poll(keymap, p, pending, queue);
            Waiting(pending) + Keys(keymap, p, Taken(queue, r)) == Waiting(r.pending)
            <==> pending == NO_KEY || queue == [] || Step(keymap, p, queue[0]).key == NO_KEY
  {
    var r := Poll(keymap, p, pending, queue);
    if pending == NO_KEY {
      PollKeys(keymap, p, queue);
    } else if queue != [] {
      assert Taken(queue, r) == [queue[0]];
      assert Taken(queue, r)[1..] == [];
    }
  }

  /** Such a poll: a key waits and the last byte of a report arrives. */
  lemma PollLoses(keymap: Keymap, f: Flags)
    ensures var p := Parser(Payload88, 4, 0, 0, 4, Zeros(), f);
            var r := Poll(keymap, p, 0x61, [4]);
            r.rest == [] && Waiting(0x61) + Keys(keymap, p, [4]) != Waiting(r.pending)
  {
    var p := Parser(Payload88, 4, 0, 0, 4, Zeros(), f);
    assert Stored(p, 4).buffer[4] == 4 && Stored(p, 4).buffer[2] == 0;
    assert Keys(keymap, p, [4]) == Waiting(Step(keymap, p, 4).key) + [];
  }

  // ------------------------------------------------------------ whole runs

  /** The parser, the bytes in the UART, and the keys handed to the main loop. Between turns no key waits. */
  datatype System = System(parser: Parser, queue: seq<Byte>, delivered: seq<Byte>)

  /** Bytes arrive; or the main loop polls once and takes the key. */
  datatype Event = Arrive(bytes: seq<Byte>) | Turn

  function Do(keymap: Keymap, s: System, e: Event): (r: System)
    requires |s.parser.buffer| == BUFFER
    ensures |r.parser.buffer| == BUFFER
  {
    match e
    case Arrive(bytes) => s.(queue := s.queue + bytes)
    case Turn =>
      var r := Poll(keymap, s.parser, NO_KEY, s.queue);
      System(r.parser, r.rest, s.delivered + Waiting(r.pending))
  }

  function Run(keymap: Keymap, s: System, events: seq<Event>): (r: System)
    requires |s.parser.buffer| == BUFFER
    ensures |r.parser.buffer| == BUFFER
    decreases |events|
  {
    if events == [] then s else Run(keymap, Do(keymap, s, events[0]), events[1..])
  }

  function Arrived(events: seq<Event>): seq<Byte> {
    if events == [] then [] else
      (if events[0].Arrive? then events[0].bytes else []) + Arrived(events[1..])
  }

  /** The part of a stream that has left the UART. */
  function Consumed(stream: seq<Byte>, queue: seq<Byte>): seq<Byte>
    requires |queue| <= |stream|
  {
    stream[..|stream| - |queue|]
  }

  /** What has arrived is what was parsed, byte by byte, and what still waits; the keys delivered are those parsed. */
  ghost predicate Follows(keymap: Keymap, p: Parser, stream: seq<Byte>, s: System)
    requires |p.buffer| == BUFFER
  {
    && |s.queue| <= |stream| && stream[|stream| - |s.queue|..] == s.queue
    && (s.parser, s.delivered)
       == (Feed(keymap, p, Consumed(stream, s.queue)), Keys(keymap, p, Consumed(stream, s.queue)))
  }

  lemma ArriveFollows(keymap: Keymap, p: Parser, stream: seq<Byte>, s: System, bytes: seq<Byte>)
    requires |p.buffer| == BUFFER && |s.parser.buffer| == BUFFER && Follows(keymap, p, stream, s)
    ensures Follows(keymap, p, stream + bytes, Do(keymap, s, Arrive(bytes)))
  {
    var n := |stream| - |s.queue|;
    assert (stream + bytes)[..n] == stream[..n];
    assert (stream + bytes)[n..] == stream[n..] + bytes;
  }

  lemma Further(stream: seq<Byte>, queue: seq<Byte>, rest: seq<Byte>)
    requires |rest| <= |queue| <= |stream|
    requires stream[|stream| - |queue|..] == queue && rest == queue[|queue| - |rest|..]
    ensures Consumed(stream, rest) == Consumed(stream, queue) + queue[..|queue| - |rest|]
    ensures stream[|stream| - |rest|..] == rest
  {
    var n, m := |stream| - |queue|, |queue| - |rest|;
    assert stream == stream[..n] + queue;
    assert stream[n..][..m] == stream[n..n + m];
    assert stream[..n + m] == stream[..n] + stream[n..n + m];
    assert stream[n..][m..] == stream[n + m..];
  }

  lemma TakingFollows(keymap: Keymap, p: Parser, stream: seq<Byte>, s: System, next: Parser, rest: seq<Byte>,
                      keys: seq<Byte>)
    requires |p.buffer| == BUFFER && |s.parser.buffer| == BUFFER && Follows(keymap, p, stream, s)
    requires |rest| <= |s.queue| && rest == s.queue[|s.queue| - |rest|..]
    requires next == Feed(keymap, s.parser, s.queue[..|s.queue| - |rest|])
    requires keys == Keys(keymap, s.parser, s.queue[..|s.queue| - |rest|])
    ensures Follows(keymap, p, stream, System(next, rest, s.delivered + keys))
  {
    FeedConcat(keymap, p, Consumed(stream, s.queue), s.queue[..|s.queue| - |rest|]);
    Further(stream, s.queue, rest);
  }

  lemma TurnFollows(keymap: Keymap, p: Parser, stream: seq<Byte>, s: System)
    requires |p.buffer| == BUFFER && |s.parser.buffer| == BUFFER && Follows(keymap, p, stream, s)
    ensures Follows(keymap, p, stream, Do(keymap, s, Turn))
  {
    var r := Poll(keymap, s.parser, NO_KEY, s.queue);
    PollRest(keymap, s.parser, NO_KEY, s.queue);
    PollFeeds(keymap, s.parser, NO_KEY, s.queue);
    PollKeys(keymap, s.parser, s.queue);
    TakingFollows(keymap, p, stream, s, r.parser, r.rest, Waiting(r.pending));
  }

  lemma {:induction false} RunFollows(keymap: Keymap, p: Parser, stream: seq<Byte>, s: System, events: seq<Event>)
    requires |p.buffer| == BUFFER && |s.parser.buffer| == BUFFER && Follows(keymap, p, stream, s)
    ensures Follows(keymap, p, stream + Arrived(events), Run(keymap, s, events))
    decreases |events|
  {
    if events == [] {
      assert stream + [] == stream;
    } else {
      var next := Do(keymap, s, events[0]);
      if events[0].Arrive? {
        ArriveFollows(keymap, p, stream, s, events[0].bytes);
        RunFollows(keymap, p, stream + events[0].bytes, next, events[1..]);
        Assoc(stream, events[0].bytes, Arrived(events[1..]));
      } else {
        TurnFollows(keymap, p, stream, s);
        RunFollows(keymap, p, stream, next, events[1..]);
        Assoc(stream, [], Arrived(events[1..]));
        assert stream + [] == stream;
      }
    }
  }

  lemma Rejoined(stream: seq<Byte>, queue: seq<Byte>)
    requires |queue| <= |stream| && stream[|stream| - |queue|..] == queue
    ensures stream == Consumed(stream, queue) + queue
  {
  }

  /** In every run, however the bytes are split over the polls, the keys delivered so far are those of the bytes
      consumed so far, parsed one at a time. */
  lemma EveryRun(keymap: Keymap, p: Parser, events: seq<Event>)
    requires |p.buffer| == BUFFER
    ensures var s := Run(keymap, System(p, [], []), events);
            && |s.queue| <= |Arrived(events)|
            && Arrived(events) == Consumed(Arrived(events), s.queue) + s.queue
            && s.delivered == Keys(keymap, p, Consumed(Arrived(events), s.queue))
  {
    RunFromStart(keymap, p, events);
    Rejoined(Arrived(events), Run(keymap, System(p, [], []), events).queue);
  }

  lemma RunFromStart(keymap: Keymap, p: Parser, events: seq<Event>)
    requires |p.buffer| == BUFFER
    ensures Follows(keymap, p, Arrived(events), Run(keymap, System(p, [], []), events))
  {
    assert Consumed([], []) == [];
    RunFollows(keymap, p, [], System(p, [], []), events);
    assert [] + Arrived(events) == Arrived(events);
  }

  /** n turns. */
  function Turns(n: nat): seq<Event> {
    if n == 0 then [] else [Turn] + Turns(n - 1)
  }

  lemma TurnTakes(keymap: Keymap, s: System)
    requires |s.parser.buffer| == BUFFER
    ensures |Do(keymap, s, Turn).queue| <= |s.queue|
    ensures s.queue != [] ==> |Do(keymap, s, Turn).queue| < |s.queue|
  {
  }

  lemma RunHead(keymap: Keymap, s: System, e: Event, events: seq<Event>)
    requires |s.parser.buffer| == BUFFER
    ensures Run(keymap, s, [e] + events) == Run(keymap, Do(keymap, s, e), events)
  {
    assert ([e] + events)[1..] == events;
  }

  lemma {:induction false} TurnsDrain(keymap: Keymap, s: System, n: nat)
    requires |s.parser.buffer| == BUFFER && |s.queue| <= n
    ensures Run(keymap, s, Turns(n)).queue == []
    decreases n
  {
    if n > 0 {
      TurnTakes(keymap, s);
      RunHead(keymap, s, Turn, Turns(n - 1));
      TurnsDrain(keymap, Do(keymap, s, Turn), n - 1);
    }
  }

  lemma {:induction false} RunConcat(keymap: Keymap, s: System, a: seq<Event>, b: seq<Event>)
    requires |s.parser.buffer| == BUFFER
    ensures Run(keymap, s, a + b) == Run(keymap, Run(keymap, s, a), b) && Arrived(a + b) == Arrived(a) + Arrived(b)
    decreases |a|
  {
    if a == [] {
      assert a + b == b;
    } else {
      assert (a + b)[1..] == a[1..] + b;
      RunConcat(keymap, Do(keymap, s, a[0]), a[1..], b);
      Assoc(if a[0].Arrive? then a[0].bytes else [], Arrived(a[1..]), Arrived(b));
    }
  }

  lemma {:induction false} TurnsSilent(n: nat)
    ensures Arrived(Turns(n)) == []
  {
    if n > 0 {
      assert Turns(n)[1..] == Turns(n - 1);
      TurnsSilent(n - 1);
    }
  }

  /** Enough turns after the last byte, every key of the stream has been delivered, in order and once. */
  lemma Drained(keymap: Keymap, p: Parser, events: seq<Event>, n: nat)
    requires |p.buffer| == BUFFER && |Arrived(events)| <= n
    ensures Run(keymap, System(p, [], []), events + Turns(n)).delivered == Keys(keymap, p, Arrived(events))
  {
    var s0 := System(p, [], []);
    RunConcat(keymap, s0, events, Turns(n));
    TurnsSilent(n);
    EveryRun(keymap, p, events);
    TurnsDrain(keymap, Run(keymap, s0, events), n);
    EveryRun(keymap, p, events + Turns(n));
    assert Arrived(events) + [] == Arrived(events);
    assert Consumed(Arrived(events), []) == Arrived(events);
  }

  /** From the frames on the wire to the keys of the main loop. */
  lemma FramesDelivered(keymap: Keymap, p: Parser, pieces: seq<Piece>, events: seq<Event>, n: nat)
    requires |p.buffer| == BUFFER && p.phase == Header1 && ValidPieces(pieces)
    requires Arrived(events) == Stream(pieces) && |Stream(pieces)| <= n
    ensures Run(keymap, System(p, [], []), events + Turns(n)).delivered == KeysOf(keymap, p.flags, pieces)
  {
    Drained(keymap, p, events, n);
    StreamParsed(keymap, p, pieces);
  }

  // ------------------------------------------------------------ the program

  class Keyboard {
    const keymap: Keymap
    const buffer: array<Byte>
    var state: Phase
    var size: Byte
    var length: Byte
    var kind: Byte
    var index: nat
    var pending: Key
    var modifier: Modifier
    var specialDown: bool
    var specialUp: bool
    var keyDown: bool
    var keyUp: bool
    var caps: Byte
    var capsHeld: bool
    var leds: seq<Byte>
    var uart: seq<Byte>

    predicate Valid() {
      buffer.Length == BUFFER
    }

    function KeyFlags(): Flags
      reads this
    {
      Flags(modifier, specialDown, specialUp, keyDown, keyUp, caps, capsHeld, leds)
    }

    function State(): (p: Parser)
      requires Valid()
      reads this, buffer
      ensures |p.buffer| == BUFFER
    {
      Parser(state, size, length, kind, index, buffer[..], KeyFlags())
    }

    constructor (keymap: Keymap)
      ensures Valid() && fresh(buffer) && this.keymap == keymap
      ensures pending == NO_KEY && uart == [] && state == Header1 && buffer[..] == Zeros()
      ensures KeyFlags() == Flags(Plain, false, false, false, false, 0, false, [])
    {
      this.keymap := keymap;
      buffer := new Byte[BUFFER](_ => 0);
      state, size, length, kind, index, pending := Header1, 0, 0, 0, 0, NO_KEY;
      modifier, specialDown, specialUp, keyDown, keyUp := Plain, false, false, false, false;
      caps, capsHeld, leds, uart := 0, false, [], [];
    }

    /** The branches of kbd_finish_0x88 that set a modifier. */
    method SetModifier(m: Modifier)
      modifies this`modifier, this`specialDown, this`specialUp
      ensures KeyFlags() == WithModifier(old(KeyFlags()), m)
    {
      modifier, specialDown, specialUp := m, true, false;
    }

    method ToggleCaps()
      modifies this`caps, this`capsHeld, this`leds
      ensures KeyFlags() == CapsPressed(old(KeyFlags()))
    {
      if !capsHeld {
        capsHeld := true;
        if caps == 0 {
          caps := 2;
        } else {
          caps := 0;
        }
        leds := leds + [caps];
      }
    }

    method NothingHeld()
      modifies this`modifier, this`specialDown, this`specialUp, this`keyDown, this`capsHeld
      ensures KeyFlags() == Released(old(KeyFlags()))
    {
      if specialDown {
        specialUp, specialDown, modifier := true, false, Plain;
      }
      if keyDown {
        keyDown := false;
      }
      capsHeld := false;
    }

    /** kbd_finish_0x88. */
    method Finish88()
      requires Valid()
      modifies this`modifier, this`specialDown, this`specialUp, this`keyDown, this`keyUp, this`caps, this`capsHeld,
               this`leds, this`pending
      ensures KeyFlags() == Report(keymap, old(KeyFlags()), buffer[2], buffer[4]).flags
      ensures var k := Report(keymap, old(KeyFlags()), buffer[2], buffer[4]).key;
              pending == if k == NO_KEY then old(pending) else k
    {
      if buffer[2] == 0 && buffer[4] == 0 {
        NothingHeld();
        return;
      }
      if buffer[2] == 0x01 || buffer[2] == 0x10 {
        SetModifier(Ctrl);
      } else if buffer[2] == 0x02 || buffer[2] == 0x20 {
        SetModifier(Shift);
      } else if buffer[2] == 0x04 {
        SetModifier(Alt);
      } else if buffer[2] == 0x40 {
        SetModifier(AltGr);
      } else if buffer[4] == 0x39 {
        ToggleCaps();
        return;
      } else {
        keyDown, keyUp := true, false;
      }
      if buffer[4] > 0 {
        pending := keymap(buffer[4], modifier, caps);
      }
    }

    /** The size byte of an 0x88 frame. */
    method BeginReport(c: Byte)
      requires Valid() && state == Size88
      modifies this, buffer
      ensures uart == old(uart)
      ensures State() == Step(keymap, old(State()), c).parser
      ensures var k := Step(keymap, old(State()), c).key; pending == if k == NO_KEY then old(pending) else k
    {
      size, index := c, 1;
      forall i | 0 <= i < BUFFER {
        buffer[i] := 0;
      }
      assert buffer[..] == Zeros();
      state := if size > 0 then Payload88 else Header1;
      if size == 0 {
        Finish88();
      }
    }

    /** A byte of the report. */
    method AddToReport(c: Byte)
      requires Valid() && state == Payload88
      modifies this, buffer
      ensures uart == old(uart)
      ensures State() == Step(keymap, old(State()), c).parser
      ensures var k := Step(keymap, old(State()), c).key; pending == if k == NO_KEY then old(pending) else k
    {
      StoreByte(c);
      if index > size {
        EndReport();
      }
    }

    method StoreByte(c: Byte)
      requires Valid()
      modifies this`index, buffer
      ensures State() == Stored(old(State()), c)
    {
      if index < buffer.Length {
        buffer[index] := c;
      }
      index := index + 1;
    }

    method EndReport()
      requires Valid()
      modifies this
      ensures uart == old(uart)
      ensures State() == Finish(keymap, old(State())).parser
      ensures var k := Finish(keymap, old(State())).key; pending == if k == NO_KEY then old(pending) else k
    {
      Finish88();
      state := Header1;
    }

    /** The switch of kbd_poll for the frames that are skipped. */
    method Skip(c: Byte)
      requires Valid() && state != Size88 && state != Payload88
      modifies this`state, this`kind, this`length, this`index
      ensures State() == Step(keymap, old(State()), c).parser
      ensures Step(keymap, old(State()), c).key == NO_KEY
    {
      match state {
        case Header1 => if c == 0x57 { state := Header2; }
        case Header2 => state := if c == 0xAB then Command else Header1;
        case Command =>
          if c == 0x81 {
            state := Type81;
          } else if c == 0x82 {
            state := Byte82;
          } else if c == 0x85 {
            state := Byte85;
          } else if c == 0x88 {
            state := Size88;
          } else {
            state := Header1;
          }
        case Type81 => kind, state := c, Length81;
        case Length81 => length, index := c, 0; state := if length > 0 then Skip81 else Header1;
        case Skip81 => index := index + 1; if index >= length { state := Header1; }
        case Byte82 => state := Header1;
        case Byte85 => state := Header1;
      }
    }

    /** The body of the loop of kbd_poll. */
    method OneByte(c: Byte)
      requires Valid()
      modifies this, buffer
      ensures uart == old(uart)
      ensures State() == Step(keymap, old(State()), c).parser
      ensures var k := Step(keymap, old(State()), c).key; pending == if k == NO_KEY then old(pending) else k
    {
      if state == Size88 {
        BeginReport(c);
      } else if state == Payload88 {
        AddToReport(c);
      } else {
        Skip(c);
      }
    }

    /** kbd_poll. */
    method KbdPoll()
      requires Valid()
      modifies this, buffer
      ensures Polled(State(), pending, uart) == Poll(keymap, old(State()), old(pending), old(uart))
    {
      ghost var goal := Poll(keymap, State(), pending, uart);
      while uart != []
        invariant Poll(keymap, State(), pending, uart) == goal
        decreases |uart|
      {
        var c := uart[0];
        ghost var p, k, q := State(), pending, uart;
        uart := uart[1..];
        OneByte(c);
        assert goal == Poll(keymap, p, k, q);
        if pending != NO_KEY {
          return;
        }
      }
    }

    /** get_char_nonblocking. */
    method GetCharNonblocking() returns (ch: Key)
      modifies this`pending
      ensures ch == old(pending) && pending == NO_KEY
    {
      ch := pending;
      pending := NO_KEY;
    }

    /** One turn of the main loop: the key taken is the key of the bytes consumed, and a turn that takes none has
        emptied the UART. */
    method MainTurn() returns (ch: Key)
      requires Valid() && pending == NO_KEY
      modifies this, buffer
      ensures pending == NO_KEY && |uart| <= |old(uart)| && old(uart) == Consumed(old(uart), uart) + uart
      ensures State() == Feed(keymap, old(State()), Consumed(old(uart), uart))
      ensures Waiting(ch) == Keys(keymap, old(State()), Consumed(old(uart), uart))
      ensures ch == NO_KEY ==> uart == []
      ensures forall d :: System(State(), uart, d + Waiting(ch)) == Do(keymap, System(old(State()), old(uart), d), Turn)
    {
      PollRest(keymap, State(), NO_KEY, uart);
      PollFeeds(keymap, State(), NO_KEY, uart);
      PollKeys(keymap, State(), uart);
      KbdPoll();
      ch := GetCharNonblocking();
    }
  }
}
