/** peripheral/pico2W/ringbuffer.c: one caller of kb_put (the interrupt side) and one of kb_get and kb_available (the
    main side) on the shared byte ring, interleaved load by load and store by store. */
module RingBuffer {
  import opened Sequences
  import opened Values

  const SIZE: nat := 256

  // Where a call of kb_put stands: after the call, after `next_head` is computed, past the test, with the index
  // loaded again, with the byte stored.
  datatype Put = PutIdle | PutCalled(data: Byte) | PutNext(data: Byte, next: Byte) | PutPassed(data: Byte, next: Byte)
    | PutIndexed(data: Byte, next: Byte, index: Byte) | PutStored(data: Byte, next: Byte)

  // Where a call of kb_get or kb_available (`take` tells which) stands. C leaves open which operand of the test
  // is loaded first. `seen` is bookkeeping: how many bytes were accepted when the head was loaded.
  datatype Get = GetIdle | GetCalled(take: bool) | GetHead(take: bool, head: Byte, seen: nat)
    | GetTail(take: bool, tail: Byte) | GetPassed | GetIndexed(index: Byte) | GetLoaded(data: Byte)
    | GetCounted(data: Byte, tail: Byte)

  datatype State = State(buffer: seq<Byte>, head: Byte, tail: Byte, put: Put, get: Get,
                         accepted: seq<Byte>,   // the bytes of the kb_put calls that returned true
                         delivered: seq<Byte>)  // the bytes kb_get handed out

  datatype Action = CallPut(data: Byte) | PutStep | CallGet(take: bool) | GetStep(headFirst: bool)

  function Init(buffer: seq<Byte>): State {
    State(buffer, 0, 0, PutIdle, GetIdle, [], [])
  }

  function Succ(i: Byte): Byte {
    (i + 1) % 256
  }

  /** One access of the interrupt side. */
  function DoPut(s: State): State
    requires |s.buffer| == SIZE
  {
    match s.put
    case PutIdle => s
    case PutCalled(data) => s.(put := PutNext(data, Succ(s.head)))
    case PutNext(data, next) => s.(put := if next == s.tail then PutIdle else PutPassed(data, next))
    case PutPassed(data, next) => s.(put := PutIndexed(data, next, s.head))
    case PutIndexed(data, next, index) => s.(buffer := s.buffer[index := data], put := PutStored(data, next))
    case PutStored(data, next) => s.(head := next, put := PutIdle, accepted := s.accepted + [data])
  }

  /** The test of kb_get and kb_available, at its second load. */
  predicate FoundEmpty(s: State)
    requires s.get.GetHead? || s.get.GetTail?
  {
    if s.get.GetHead? then s.get.head == s.tail else s.head == s.get.tail
  }

  /** One access of the main side. */
  function DoGet(s: State, headFirst: bool): State
    requires |s.buffer| == SIZE
  {
    match s.get
    case GetIdle => s
    case GetCalled(take) =>
      s.(get := if headFirst then GetHead(take, s.head, |s.accepted|) else GetTail(take, s.tail))
    case GetHead(take, _, _) => s.(get := if FoundEmpty(s) || !take then GetIdle else GetPassed)
    case GetTail(take, _) => s.(get := if FoundEmpty(s) || !take then GetIdle else GetPassed)
    case GetPassed => s.(get := GetIndexed(s.tail))
    case GetIndexed(index) => s.(get := GetLoaded(s.buffer[index]))
    case GetLoaded(data) => s.(get := GetCounted(data, s.tail))
    case GetCounted(data, tail) => s.(tail := Succ(tail), get := GetIdle, delivered := s.delivered + [data])
  }

  function Do(s: State, a: Action): State
    requires |s.buffer| == SIZE
  {
    match a
    case CallPut(data) => if s.put.PutIdle? then s.(put := PutCalled(data)) else s
    case PutStep => DoPut(s)
    case CallGet(take) => if s.get.GetIdle? then s.(get := GetCalled(take)) else s
    case GetStep(headFirst) => DoGet(s, headFirst)
  }

  ghost function Run(s: State, actions: seq<Action>): State
    requires |s.buffer| == SIZE
    decreases |actions|
  {
    if actions == [] then s else Run(Do(s, actions[0]), actions[1..])
  }

  // ------------------------------------------------------------ the invariant

  /** The number of bytes accepted and not yet delivered. */
  function Held(s: State): int {
    |s.accepted| - |s.delivered|
  }

  /** Cell number k of the stream. */
  function Cell(k: nat): Byte {
    k % 256
  }

  ghost predicate Indices(s: State) {
    |s.buffer| == SIZE && s.head == Cell(|s.accepted|) && s.tail == Cell(|s.delivered|) && 0 <= Held(s) <= 255
  }

  /** The bytes held are in their cells, and what was delivered is what was accepted first. */
  ghost predicate Contents(s: State)
    requires Indices(s)
  {
    s.delivered == s.accepted[..|s.delivered|]
    && forall k :: |s.delivered| <= k < |s.accepted| ==> s.buffer[Cell(k)] == s.accepted[k]
  }

  ghost predicate PutOk(s: State)
    requires Indices(s)
  {
    match s.put
    case PutNext(_, next) => next == Succ(s.head)
    case PutPassed(_, next) => next == Succ(s.head) && Held(s) < 255
    case PutIndexed(_, next, index) => next == Succ(s.head) && Held(s) < 255 && index == s.head
    case PutStored(data, next) => next == Succ(s.head) && Held(s) < 255 && s.buffer[s.head] == data
    case _ => true
  }

  ghost predicate GetOk(s: State)
    requires Indices(s)
  {
    match s.get
    case GetHead(_, head, seen) => head == Cell(seen) && |s.delivered| <= seen <= |s.accepted|
    case GetTail(_, tail) => tail == s.tail
    case GetPassed => Held(s) > 0
    case GetIndexed(index) => Held(s) > 0 && index == s.tail
    case GetLoaded(data) => Held(s) > 0 && data == s.accepted[|s.delivered|]
    case GetCounted(data, tail) => Held(s) > 0 && data == s.accepted[|s.delivered|] && tail == s.tail
    case _ => true
  }

  ghost predicate Inv(s: State) {
    Indices(s) && Contents(s) && PutOk(s) && GetOk(s)
  }

  lemma CellsDiffer(j: nat, k: nat)
    ensures j < k < j + 256 ==> Cell(j) != Cell(k)
  {
  }

  lemma CellSucc(k: nat)
    ensures Succ(Cell(k)) == Cell(k + 1)
  {
  }

  lemma PutKeeps(s: State)
    requires Inv(s)
    ensures Inv(DoPut(s))
  {
    var s' := DoPut(s);
    CellSucc(|s.accepted|);
    match s.put
    case PutNext(_, _) =>
      if Held(s) == 255 {
        CellsWrap(|s.delivered|);
      }
    case PutIndexed(data, next, index) =>
      forall k | |s.delivered| <= k < |s.accepted| ensures s'.buffer[Cell(k)] == s.accepted[k] {
        CellsDiffer(k, |s.accepted|);
      }
      if Held(s) > 0 {
        CellsDiffer(|s.delivered|, |s.accepted|);
      }
    case PutStored(data, next) =>
      assert s'.accepted[..|s.delivered|] == s.accepted[..|s.delivered|];
    case _ =>
  }

  lemma CellsWrap(k: nat)
    ensures Cell(k + 256) == Cell(k)
  {
  }

  lemma GetKeeps(s: State, headFirst: bool)
    requires Inv(s)
    ensures Inv(DoGet(s, headFirst))
  {
    CellSucc(|s.delivered|);
    match s.get
    case GetHead(_, head, seen) =>
      if Held(s) == 0 {
        assert head == s.tail;
      }
    case GetCounted(data, tail) =>
      assert s.accepted[..|s.delivered| + 1] == s.accepted[..|s.delivered|] + [s.accepted[|s.delivered|]];
    case _ =>
  }

  lemma StepKeeps(s: State, a: Action)
    requires Inv(s)
    ensures Inv(Do(s, a))
  {
    match a {
      case CallPut(_) =>
      case PutStep => PutKeeps(s);
      case CallGet(_) =>
      case GetStep(headFirst) => GetKeeps(s, headFirst);
    }
  }

  /** In every run the bytes come out in the order they were accepted, none lost, repeated or overwritten, and at
      most 255 are held. */
  lemma {:induction false} RunInv(s: State, actions: seq<Action>)
    requires Inv(s)
    ensures Inv(Run(s, actions))
    decreases |actions|
  {
    if actions != [] {
      StepKeeps(s, actions[0]);
      RunInv(Do(s, actions[0]), actions[1..]);
    }
  }

  lemma EveryRun(buffer: seq<Byte>)
    requires |buffer| == SIZE
    ensures forall actions :: InOrder(Run(Init(buffer), actions))
  {
    forall actions ensures InOrder(Run(Init(buffer), actions)) {
      RunInv(Init(buffer), actions);
    }
  }

  /** What is delivered is the beginning of what was accepted, and the ring holds the rest, at most 255 bytes. */
  predicate InOrder(s: State) {
    && s.delivered <= s.accepted && |s.accepted| - |s.delivered| <= 255
    && forall k :: |s.delivered| <= k < |s.accepted| ==>
         |s.buffer| == SIZE && s.buffer[Cell(k)] == s.accepted[k]
  }

  // ------------------------------------------------------------ the bytes offered

  /** The bytes of the kb_put calls, in order. A call is made while none is in progress. */
  ghost function Offered(s: State, actions: seq<Action>): seq<Byte>
    requires |s.buffer| == SIZE
    decreases |actions|
  {
    if actions == [] then [] else Offer(s, actions[0]) + Offered(Do(s, actions[0]), actions[1..])
  }

  function Offer(s: State, a: Action): seq<Byte> {
    if a.CallPut? && s.put.PutIdle? then [a.data] else []
  }

  /** How these calls end, in order: refused if 255 bytes are held at the test, and otherwise not. */
  ghost function Verdicts(s: State, actions: seq<Action>): seq<bool>
    requires |s.buffer| == SIZE
    decreases |actions|
  {
    if actions == [] then [] else Verdict(s, actions[0]) + Verdicts(Do(s, actions[0]), actions[1..])
  }

  function Verdict(s: State, a: Action): seq<bool> {
    if a.PutStep? && s.put.PutNext? && Held(s) == 255 then [false]
    else if a.PutStep? && s.put.PutStored? then [true]
    else []
  }

  /** The bytes with a good verdict. */
  function Passed(bytes: seq<Byte>, verdicts: seq<bool>): seq<Byte>
    requires |verdicts| <= |bytes|
  {
    if verdicts == [] then []
    else (if verdicts[0] then [bytes[0]] else []) + Passed(bytes[1..], verdicts[1..])
  }

  /** The byte of the call in progress. */
  function InProgress(s: State): seq<Byte> {
    if s.put.PutIdle? then [] else [s.put.data]
  }

  /** A call ends with a verdict, good if its byte is accepted, and otherwise goes on with the same byte. */
  lemma StepAccepts(s: State, a: Action)
    requires Inv(s)
    ensures Verdict(s, a) == [] ==>
              InProgress(s) + Offer(s, a) == InProgress(Do(s, a)) && Do(s, a).accepted == s.accepted
    ensures Verdict(s, a) != [] ==>
              && !s.put.PutIdle? && Do(s, a).put.PutIdle? && Offer(s, a) == []
              && Do(s, a).accepted == s.accepted + if Verdict(s, a)[0] then [s.put.data] else []
  {
    if a.PutStep? && s.put.PutNext? {
      RefusesFull(s);
    }
  }

  lemma {:induction false} RunAccepts(s: State, actions: seq<Action>)
    requires Inv(s)
    ensures var bytes, verdicts := InProgress(s) + Offered(s, actions), Verdicts(s, actions);
            && |verdicts| <= |bytes| && InProgress(Run(s, actions)) == bytes[|verdicts|..]
            && Run(s, actions).accepted == s.accepted + Passed(bytes, verdicts)
    decreases |actions|
  {
    if actions != [] {
      var a, rest := actions[0], actions[1..];
      var next := Do(s, a);
      StepKeeps(s, a);
      StepAccepts(s, a);
      RunAccepts(next, rest);
      var bytes, verdicts := InProgress(next) + Offered(next, rest), Verdicts(next, rest);
      Assoc(InProgress(s), Offer(s, a), Offered(next, rest));
      if Verdict(s, a) == [] {
        assert [] + verdicts == verdicts;
      } else {
        assert [] + Offered(next, rest) == Offered(next, rest);
        PassedCons(s.put.data, Verdict(s, a)[0], bytes, verdicts);
        assert Verdict(s, a) == [Verdict(s, a)[0]];
        assert InProgress(s) == [s.put.data];
        Assoc(s.accepted, if Verdict(s, a)[0] then [s.put.data] else [], Passed(bytes, verdicts));
      }
    } else {
      assert InProgress(s) + [] == InProgress(s);
    }
  }

  lemma PassedCons(b: Byte, good: bool, bytes: seq<Byte>, verdicts: seq<bool>)
    requires |verdicts| <= |bytes|
    ensures Passed([b] + bytes, [good] + verdicts) == (if good then [b] else []) + Passed(bytes, verdicts)
  {
    assert ([b] + bytes)[1..] == bytes && ([good] + verdicts)[1..] == verdicts;
  }

  /** In every run the bytes accepted are those that kb_put was called with, without the ones it refused, each of these
      with 255 bytes held at its test, and without that of the call in progress. What is delivered is a prefix. */
  lemma EveryByte(buffer: seq<Byte>, actions: seq<Action>)
    requires |buffer| == SIZE
    ensures var s, bytes, verdicts :=
              Run(Init(buffer), actions), Offered(Init(buffer), actions), Verdicts(Init(buffer), actions);
            && |verdicts| <= |bytes| && InProgress(s) == bytes[|verdicts|..]
            && s.accepted == Passed(bytes, verdicts) && s.delivered <= s.accepted
  {
    RunAccepts(Init(buffer), actions);
    EveryRun(buffer);
    assert [] + Offered(Init(buffer), actions) == Offered(Init(buffer), actions);
    assert InOrder(Run(Init(buffer), actions));
  }

  // ------------------------------------------------------------ calls come to an end

  /** How many accesses a call of kb_put has before it, and one of kb_get or kb_available, at most. */
  function PutLeft(p: Put): nat {
    match p
    case PutIdle => 0
    case PutCalled(_) => 5
    case PutNext(_, _) => 4
    case PutPassed(_, _) => 3
    case PutIndexed(_, _, _) => 2
    case PutStored(_, _) => 1
  }

  function GetLeft(g: Get): nat {
    match g
    case GetIdle => 0
    case GetCalled(_) => 6
    case GetHead(_, _, _) => 5
    case GetTail(_, _) => 5
    case GetPassed => 4
    case GetIndexed(_) => 3
    case GetLoaded(_) => 2
    case GetCounted(_, _) => 1
  }

  function PutSteps(actions: seq<Action>): nat {
    if actions == [] then 0 else (if actions[0].PutStep? then 1 else 0) + PutSteps(actions[1..])
  }

  function GetSteps(actions: seq<Action>): nat {
    if actions == [] then 0 else (if actions[0].GetStep? then 1 else 0) + GetSteps(actions[1..])
  }

  /** Whatever the main side does meanwhile, a call of kb_put in progress ends within five of its accesses. */
  lemma {:induction false} PutEnds(s: State, actions: seq<Action>)
    requires Inv(s) && !s.put.PutIdle? && PutSteps(actions) >= PutLeft(s.put)
    ensures Verdicts(s, actions) != []
    decreases |actions|
  {
    var a := actions[0];
    StepKeeps(s, a);
    StepAccepts(s, a);
    if Verdict(s, a) == [] {
      PutAdvances(s, a);
      PutEnds(Do(s, a), actions[1..]);
    }
  }

  lemma PutAdvances(s: State, a: Action)
    requires Inv(s) && !s.put.PutIdle? && Verdict(s, a) == []
    ensures !Do(s, a).put.PutIdle?
    ensures PutLeft(Do(s, a).put) == PutLeft(s.put) - if a.PutStep? then 1 else 0
  {
    if a.PutStep? && s.put.PutNext? {
      RefusesFull(s);
    }
  }

  /** How the calls of kb_get end, in order: refused if the ring was empty as the head was loaded, and otherwise not. */
  ghost function GetVerdicts(s: State, actions: seq<Action>): seq<bool>
    requires |s.buffer| == SIZE
    decreases |actions|
  {
    if actions == [] then [] else GetVerdict(s, actions[0]) + GetVerdicts(Do(s, actions[0]), actions[1..])
  }

  function GetVerdict(s: State, a: Action): seq<bool> {
    if !a.GetStep? then []
    else match s.get
      case GetHead(take, _, seen) => if take && seen == |s.delivered| then [false] else []
      case GetTail(take, _) => if take && Held(s) == 0 then [false] else []
      case GetCounted(_, _) => [true]
      case _ => []
  }

  function Goods(verdicts: seq<bool>): nat {
    if verdicts == [] then 0 else (if verdicts[0] then 1 else 0) + Goods(verdicts[1..])
  }

  lemma StepDelivers(s: State, a: Action)
    requires Inv(s)
    ensures |Do(s, a).delivered| == |s.delivered| + Goods(GetVerdict(s, a))
  {
    if GetVerdict(s, a) != [] {
      assert GetVerdict(s, a)[1..] == [];
    }
  }

  lemma GoodsAdd(a: seq<bool>, b: seq<bool>)
    requires |a| <= 1
    ensures Goods(a + b) == Goods(a) + Goods(b)
  {
    if a != [] {
      assert (a + b)[1..] == b && a[1..] == [];
    } else {
      assert a + b == b;
    }
  }

  /** Each call of kb_get that is not refused delivers one byte, and no other access delivers any. */
  lemma {:induction false} RunDelivers(s: State, actions: seq<Action>)
    requires Inv(s)
    ensures |Run(s, actions).delivered| == |s.delivered| + Goods(GetVerdicts(s, actions))
    decreases |actions|
  {
    if actions != [] {
      StepKeeps(s, actions[0]);
      StepDelivers(s, actions[0]);
      RunDelivers(Do(s, actions[0]), actions[1..]);
      GoodsAdd(GetVerdict(s, actions[0]), GetVerdicts(Do(s, actions[0]), actions[1..]));
    }
  }

  predicate Taking(g: Get) {
    match g
    case GetIdle => false
    case GetCalled(take) => take
    case GetHead(take, _, _) => take
    case GetTail(take, _) => take
    case _ => true
  }

  /** Whatever the interrupt side does meanwhile, a call of kb_get in progress ends within six of its accesses. */
  lemma {:induction false} GetEnds(s: State, actions: seq<Action>)
    requires Inv(s) && Taking(s.get) && GetSteps(actions) >= GetLeft(s.get)
    ensures GetVerdicts(s, actions) != []
    decreases |actions|
  {
    var a := actions[0];
    StepKeeps(s, a);
    if GetVerdict(s, a) == [] {
      GetAdvances(s, a);
      GetEnds(Do(s, a), actions[1..]);
    }
  }

  lemma GetAdvances(s: State, a: Action)
    requires Inv(s) && Taking(s.get) && GetVerdict(s, a) == []
    ensures Taking(Do(s, a).get) && GetLeft(Do(s, a).get) == GetLeft(s.get) - if a.GetStep? then 1 else 0
  {
    if a.GetStep? && (s.get.GetHead? || s.get.GetTail?) {
      RefusesEmpty(s);
    }
  }

  /** kb_put refuses exactly when the ring holds 255 bytes at its test. */
  lemma RefusesFull(s: State)
    requires Inv(s) && s.put.PutNext?
    ensures DoPut(s).put.PutIdle? <==> Held(s) == 255
  {
    CellSucc(|s.accepted|);
    CellsWrap(|s.delivered|);
    if Held(s) < 255 {
      CellsDiffer(|s.delivered|, |s.accepted| + 1);
    }
  }

  /** kb_get refuses, and kb_available denies, exactly when the ring was empty as the head was loaded: at the first
      load of the test, if that is the head, and at the second otherwise. */
  lemma RefusesEmpty(s: State)
    requires Inv(s) && (s.get.GetHead? || s.get.GetTail?)
    ensures s.get.GetHead? ==> (FoundEmpty(s) <==> s.get.seen == |s.delivered|)
    ensures s.get.GetTail? ==> (FoundEmpty(s) <==> Held(s) == 0)
    ensures s.get.take ==> (DoGet(s, true).get.GetIdle? <==> FoundEmpty(s))
  {
    var seen := if s.get.GetHead? then s.get.seen else |s.accepted|;
    if |s.delivered| < seen {
      CellsDiffer(|s.delivered|, seen);
    }
  }
}
