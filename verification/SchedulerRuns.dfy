/** Runs of software/dev/kernel/scheduler.c: what any sequence of calls keeps, how soon a task is served in it, and that
    the calls of the scheduler on its linked list make these runs. */
module SchedulerRuns {
  import opened ReadyRing
  import opened Sequences
  import opened Values
  import opened Scheduler

  // The task pool, how many of its entries are handed out, the ready queue from its head on, the task states and the
  // current task.
  datatype System<T> = System(pool: seq<T>, created: nat, ring: seq<T>, state: map<T, TaskState>, current: Option<T>)

  datatype Call<T> = Create(hasEntry: bool, hasStack: bool) | Start | Schedule | Block(t: T) | Wake(t: T) | Exit

  function StateOf<T>(s: System<T>, t: T): TaskState {
    if t in s.state then s.state[t] else Unused
  }

  predicate Queued(state: TaskState) {
    state == Ready || state == Running
  }

  function New<T>(pool: seq<T>): System<T> {
    System(pool, 0, [], map t | t in pool :: Unused, None)
  }

  /** What a call makes of the system. */
  function Do<T>(s: System<T>, c: Call<T>): System<T> {
    match c
    case Create(hasEntry, hasStack) =>
      if s.created >= |s.pool| || !hasEntry || !hasStack then s
      else
        var t := s.pool[s.created];
        System(s.pool, s.created + 1, Step(s.ring, Insert(t)), s.state[t := Ready], s.current)
    case Start => if s.ring == [] then s else Serve(s, s.state)
    case Schedule => if s.ring == [] then s else Serve(s, Preempted(s))
    case Block(t) =>
      if !Queued(StateOf(s, t)) then s else s.(ring := Step(s.ring, Remove(t)), state := s.state[t := Blocked])
    case Wake(t) =>
      if StateOf(s, t) != Blocked then s else s.(ring := Step(s.ring, Insert(t)), state := s.state[t := Ready])
    case Exit =>
      if s.current.None? then s
      else
        var t := s.current.value;
        s.(ring := Step(s.ring, Remove(t)), state := s.state[t := Unused])
  }

  /** The states once the current task, if it runs, is ready again. */
  function Preempted<T>(s: System<T>): map<T, TaskState> {
    if s.current.Some? && StateOf(s, s.current.value) == Running then s.state[s.current.value := Ready] else s.state
  }

  function Serve<T>(s: System<T>, state: map<T, TaskState>): System<T>
    requires s.ring != []
  {
    var t := s.ring[0];
    System(s.pool, s.created, Step(s.ring, Dispatch), state[t := Running], Some(t))
  }

  function After<T>(s: System<T>, cs: seq<Call<T>>): System<T>
    decreases |cs|
  {
    if cs == [] then s else After(Do(s, cs[0]), cs[1..])
  }

  // ------------------------------------------------------------ what every run keeps

  /** The ring holds each ready or running task once and no other; entries not handed out are unused. */
  ghost predicate Good<T(!new)>(s: System<T>) {
    && |s.pool| == OS_MAX_TASKS && Distinct(s.pool) && s.created <= |s.pool|
    && Distinct(s.ring)
    && (forall t :: t in s.state <==> t in s.pool)
    && (forall t {:trigger StateOf(s, t)} :: t in s.ring <==> Queued(StateOf(s, t)))
    && (forall i :: s.created <= i < |s.pool| ==> StateOf(s, s.pool[i]) == Unused)
    && (s.current.Some? ==> s.current.value in s.pool)
  }

  ghost predicate OneRunning<T(!new)>(s: System<T>) {
    forall t {:trigger StateOf(s, t)} :: StateOf(s, t) == Running ==> s.current == Some(t)
  }

  /** OS_Start finds no task running but the head. */
  ghost predicate Orderly<T(!new)>(s: System<T>, c: Call<T>) {
    c == Start && s.ring != [] && s.current.Some? && StateOf(s, s.current.value) == Running ==>
      s.current.value == s.ring[0]
  }

  ghost predicate AllOrderly<T(!new)>(s: System<T>, cs: seq<Call<T>>)
    decreases |cs|
  {
    cs == [] || (Orderly(s, cs[0]) && AllOrderly(Do(s, cs[0]), cs[1..]))
  }

  lemma GoodNew<T(!new)>(pool: seq<T>)
    requires |pool| == OS_MAX_TASKS && Distinct(pool)
    ensures Good(New(pool)) && OneRunning(New(pool))
  {
  }

  lemma RemoveGood<T(!new)>(s: System<T>, t: T, state: TaskState)
    requires Good(s) && t in s.pool && !Queued(state)
    requires forall i :: s.created <= i < |s.pool| ==> s.pool[i] != t || state == Unused
    ensures Good(s.(ring := Step(s.ring, Remove(t)), state := s.state[t := state]))
  {
    var next := s.(ring := Step(s.ring, Remove(t)), state := s.state[t := state]);
    WithoutDistinct(s.ring, t);
    forall x ensures x in next.ring <==> Queued(StateOf(next, x)) {
      WithoutHolds(s.ring, t, x);
      assert x in s.ring <==> Queued(StateOf(s, x));
    }
  }

  lemma {:induction false} WithoutDistinct<T>(r: seq<T>, t: T)
    requires Distinct(r)
    ensures Distinct(Without(r, t))
  {
    if r != [] {
      WithoutDistinct(r[1..], t);
      WithoutHolds(r[1..], t, r[0]);
    }
  }

  lemma InsertGood<T(!new)>(s: System<T>, t: T, created: nat)
    requires Good(s) && t in s.pool && !Queued(StateOf(s, t)) && s.created <= created <= |s.pool|
    requires forall i :: created <= i < |s.pool| ==> s.pool[i] != t
    ensures Good(System(s.pool, created, Step(s.ring, Insert(t)), s.state[t := Ready], s.current))
  {
    var next := System(s.pool, created, Step(s.ring, Insert(t)), s.state[t := Ready], s.current);
    forall x ensures x in next.ring <==> Queued(StateOf(next, x)) {
      assert x in s.ring <==> Queued(StateOf(s, x));
    }
  }

  lemma ServeGood<T(!new)>(s: System<T>, state: map<T, TaskState>)
    requires Good(s) && s.ring != []
    requires state.Keys == s.state.Keys
    requires forall t :: t in s.state ==> state[t] == s.state[t] || (Queued(state[t]) && Queued(s.state[t]))
    ensures Good(Serve(s, state))
  {
    var next := Serve(s, state);
    assert Queued(StateOf(s, s.ring[0]));
    forall x ensures x in next.ring <==> Queued(StateOf(next, x)) {
      assert x in s.ring <==> Queued(StateOf(s, x));
    }
  }

  lemma DoGood<T(!new)>(s: System<T>, c: Call<T>)
    requires Good(s)
    ensures Good(Do(s, c))
  {
    match c {
      case Create(hasEntry, hasStack) =>
        if s.created < |s.pool| && hasEntry && hasStack {
          InsertGood(s, s.pool[s.created], s.created + 1);
        }
      case Start =>
        if s.ring != [] {
          ServeGood(s, s.state);
        }
      case Schedule =>
        if s.ring != [] {
          ServeGood(s, Preempted(s));
        }
      case Block(t) =>
        if Queued(StateOf(s, t)) {
          RemoveGood(s, t, Blocked);
        }
      case Wake(t) =>
        if StateOf(s, t) == Blocked {
          InsertGood(s, t, s.created);
        }
      case Exit =>
        if s.current.Some? {
          RemoveGood(s, s.current.value, Unused);
        }
    }
  }

  /** A call leaves at most the current task running exactly when it is orderly. */
  lemma DoOneRunning<T(!new)>(s: System<T>, c: Call<T>)
    requires Good(s) && OneRunning(s)
    ensures OneRunning(Do(s, c)) <==> Orderly(s, c)
  {
    var next := Do(s, c);
    forall t ensures StateOf(next, t) == Running && Orderly(s, c) ==> next.current == Some(t) {
      assert StateOf(s, t) == Running ==> s.current == Some(t);
    }
    if !Orderly(s, c) {
      assert StateOf(next, s.current.value) == Running;
    }
  }

  /** Over every run of calls from a good system: the ring is exactly the ready or running tasks, each once; only the
      current task runs as long as every OS_Start is orderly. */
  lemma {:induction false} EveryRun<T(!new)>(s: System<T>, cs: seq<Call<T>>)
    requires Good(s)
    ensures Good(After(s, cs)) && |After(s, cs).ring| <= OS_MAX_TASKS
    ensures OneRunning(s) && AllOrderly(s, cs) ==> OneRunning(After(s, cs))
    decreases |cs|
  {
    if cs == [] {
      RingFits(s);
    } else {
      DoGood(s, cs[0]);
      if OneRunning(s) {
        DoOneRunning(s, cs[0]);
      }
      EveryRun(Do(s, cs[0]), cs[1..]);
    }
  }

  lemma RingFits<T(!new)>(s: System<T>)
    requires Good(s)
    ensures |s.ring| <= OS_MAX_TASKS
  {
    forall t | t in s.ring ensures t in s.pool {
      assert Queued(StateOf(s, t));
    }
    NoMore(s.ring, s.pool);
  }

  /** Different elements of a sequence are not more than the sequence has places. */
  lemma {:induction false} NoMore<T>(r: seq<T>, p: seq<T>)
    requires Distinct(r) && forall t :: t in r ==> t in p
    ensures |r| <= |p|
  {
    if r != [] {
      assert r[0] in p;
      var k :| 0 <= k < |p| && p[k] == r[0];
      var rest := p[..k] + p[k + 1..];
      forall t | t in r[1..] ensures t in rest {
        assert t in r;
        var j :| 0 <= j < |p| && p[j] == t;
        assert rest[if j < k then j else j - 1] == t;
      }
      NoMore(r[1..], rest);
    }
  }

  // ------------------------------------------------------------ how soon a task is served

  predicate Serves<T>(c: Call<T>) {
    c.Schedule? || c.Start?
  }

  function Services<T>(cs: seq<Call<T>>): nat {
    if cs == [] then 0 else (if Serves(cs[0]) then 1 else 0) + Services(cs[1..])
  }

  /** No call blocks t, and t does not exit. */
  ghost predicate LeftAlone<T(!new)>(s: System<T>, cs: seq<Call<T>>, t: T)
    decreases |cs|
  {
    cs != [] ==> cs[0] != Block(t) && (cs[0] == Exit ==> s.current != Some(t)) && LeftAlone(Do(s, cs[0]), cs[1..], t)
  }

  /** Call k gives the processor to t and is at most the n-th that gives it to any task. */
  ghost predicate ServedAt<T(!new)>(s: System<T>, cs: seq<Call<T>>, t: T, k: nat, n: nat) {
    k < |cs| && Serves(cs[k]) && Services(cs[..k + 1]) <= n
    && After(s, cs[..k + 1]).current == Some(t) && StateOf(After(s, cs[..k + 1]), t) == Running
  }

  /** One of the first n calls that give the processor away gives it to t. */
  ghost predicate ServedAmong<T(!new)>(s: System<T>, cs: seq<Call<T>>, t: T, n: nat) {
    exists k: nat :: ServedAt(s, cs, t, k, n)
  }

  /** What a call does to the queue, if anything. */
  function Effect<T>(s: System<T>, c: Call<T>): Option<Event<T>> {
    match c
    case Create(hasEntry, hasStack) =>
      if s.created >= |s.pool| || !hasEntry || !hasStack then None else Some(Insert(s.pool[s.created]))
    case Start => Some(Dispatch)
    case Schedule => Some(Dispatch)
    case Block(t) => if Queued(StateOf(s, t)) then Some(Remove(t)) else None
    case Wake(t) => if StateOf(s, t) == Blocked then Some(Insert(t)) else None
    case Exit => if s.current.Some? then Some(Remove(s.current.value)) else None
  }

  lemma RingAfter<T>(s: System<T>, c: Call<T>)
    ensures Do(s, c).ring == if Effect(s, c).Some? then Step(s.ring, Effect(s, c).value) else s.ring
  {
  }

  lemma {:induction false} ServedFrom<T(!new)>(s: System<T>, cs: seq<Call<T>>, t: T, d: nat)
    requires Within(s.ring, t, d) && LeftAlone(s, cs, t) && Services(cs) >= d + 1
    ensures ServedAmong(s, cs, t, d + 1)
    decreases |cs|
  {
    if Serves(cs[0]) && s.ring[0] == t {
      FirstServes(s, cs, t);
      assert ServedAt(s, cs, t, 0, d + 1);
    } else {
      var d' := if Serves(cs[0]) then d - 1 else d;
      RingAfter(s, cs[0]);
      if Effect(s, cs[0]).Some? {
        StepWithin(s.ring, Effect(s, cs[0]).value, t, d);
      }
      ServedFrom(Do(s, cs[0]), cs[1..], t, d');
      ServedLater(s, cs, t, d' + 1);
    }
  }

  lemma ServedLater<T(!new)>(s: System<T>, cs: seq<Call<T>>, t: T, n: nat)
    requires cs != [] && ServedAmong(Do(s, cs[0]), cs[1..], t, n)
    ensures ServedAmong(s, cs, t, if Serves(cs[0]) then n + 1 else n)
  {
    var rest := cs[1..];
    var k: nat :| ServedAt(Do(s, cs[0]), rest, t, k, n);
    assert cs[..k + 2] == [cs[0]] + rest[..k + 1];
    assert ServedAt(s, cs, t, k + 1, if Serves(cs[0]) then n + 1 else n);
  }

  lemma FirstServes<T(!new)>(s: System<T>, cs: seq<Call<T>>, t: T)
    requires cs != [] && Serves(cs[0]) && s.ring != [] && s.ring[0] == t
    ensures ServedAt(s, cs, t, 0, 1)
  {
    assert cs[..1] == [cs[0]];
    assert [cs[0]][1..] == [];
    assert After(s, [cs[0]]) == After(Do(s, cs[0]), []) == Do(s, cs[0]);
  }

  /** In every run from a new system, a task that is ready or running is given the processor by one of the next eight
      calls that give it to any task, whatever else is called in between, unless it is blocked or exits first. */
  lemma ServedInEveryRun<T(!new)>(pool: seq<T>, cs: seq<Call<T>>, ds: seq<Call<T>>, t: T)
    requires |pool| == OS_MAX_TASKS && Distinct(pool)
    requires Queued(StateOf(After(New(pool), cs), t))
    requires LeftAlone(After(New(pool), cs), ds, t) && Services(ds) >= OS_MAX_TASKS
    ensures ServedAmong(After(New(pool), cs), ds, t, OS_MAX_TASKS)
  {
    var s := After(New(pool), cs);
    GoodNew(pool);
    EveryRun(New(pool), cs);
    assert t in s.ring;
    ServedFrom(s, ds, t, OS_MAX_TASKS - 1);
  }

  // ------------------------------------------------------------ the calls make these runs

  /** What the linked list, the states and the counters of k hold is s. */
  ghost predicate Shows(k: Kernel, s: System<Tcb>)
    reads k, k.tasks
  {
    && s.pool == k.pool && s.created == k.taskCount && s.ring == k.ring
    && (if s.current.Some? then k.currentTask == s.current.value else k.currentTask == null)
    && s.state.Keys == k.tasks && (forall t :: t in k.tasks ==> s.state[t] == t.state)
    && k.Linked() && k.tasks == set t | t in k.pool
  }

  /** The tasks a call names are there. */
  ghost predicate Named(k: Kernel, c: Call<Tcb>) {
    (c.Block? ==> c.t in k.tasks) && (c.Wake? ==> c.t in k.tasks)
  }

  method PerformCreate(k: Kernel, hasEntry: bool, hasStack: bool, ghost s: System<Tcb>)
    requires Shows(k, s)
    modifies k, k.tasks
    ensures Shows(k, Do(s, Create(hasEntry, hasStack)))
  {
    var _ := k.TaskCreate(hasEntry, hasStack);
  }

  method PerformStart(k: Kernel, ghost s: System<Tcb>)
    requires Shows(k, s)
    modifies k, k.tasks
    ensures Shows(k, Do(s, Start))
  {
    k.Start();
  }

  /** The head runs, and the task that ran before it is ready. */
  lemma Rescheduled<T>(s: System<T>, state: map<T, TaskState>)
    requires s.ring != [] && s.ring[0] in s.state && (s.current.Some? ==> s.current.value in s.state)
    requires state.Keys == s.state.Keys
    requires forall t :: t in state ==>
               state[t] == if t == s.ring[0] then Running
                           else if s.current == Some(t) && s.state[t] == Running then Ready
                           else s.state[t]
    ensures Do(s, Schedule) == System(s.pool, s.created, Step(s.ring, Dispatch), state, Some(s.ring[0]))
  {
    assert Do(s, Schedule).state == state;
  }

  method PerformSchedule(k: Kernel, ghost s: System<Tcb>)
    requires Shows(k, s)
    modifies k, k.tasks
    ensures Shows(k, Do(s, Schedule))
  {
    k.Schedule();
    ghost var state := map t | t in k.tasks :: t.state;
    if s.ring == [] {
      assert Do(s, Schedule) == s;
    } else {
      Rescheduled(s, state);
    }
  }

  method PerformBlock(k: Kernel, t: Tcb, ghost s: System<Tcb>)
    requires Shows(k, s) && t in k.tasks
    modifies k, k.tasks
    ensures Shows(k, Do(s, Block(t)))
  {
    k.TaskBlock(t);
  }

  method PerformWake(k: Kernel, t: Tcb, ghost s: System<Tcb>)
    requires Shows(k, s) && t in k.tasks
    modifies k, k.tasks
    ensures Shows(k, Do(s, Wake(t)))
  {
    k.TaskWake(t);
  }

  method PerformExit(k: Kernel, ghost s: System<Tcb>)
    requires Shows(k, s)
    modifies k, k.tasks
    ensures Shows(k, Do(s, Exit))
  {
    k.TaskExit();
  }

  /** One call on the linked list is the step of the values. */
  method Perform(k: Kernel, c: Call<Tcb>, ghost s: System<Tcb>)
    requires Shows(k, s) && Named(k, c)
    modifies k, k.tasks
    ensures Shows(k, Do(s, c))
  {
    match c {
      case Create(hasEntry, hasStack) => PerformCreate(k, hasEntry, hasStack, s);
      case Start => PerformStart(k, s);
      case Schedule => PerformSchedule(k, s);
      case Block(t) => PerformBlock(k, t, s);
      case Wake(t) => PerformWake(k, t, s);
      case Exit => PerformExit(k, s);
    }
  }

  /** Any sequence of calls on the linked list is the run of the values. */
  method PerformAll(k: Kernel, cs: seq<Call<Tcb>>, ghost s: System<Tcb>)
    requires Shows(k, s) && forall c :: c in cs ==> Named(k, c)
    modifies k, k.tasks
    ensures Shows(k, After(s, cs))
  {
    ghost var now := s;
    for i := 0 to |cs|
      invariant Shows(k, now) && After(now, cs[i..]) == After(s, cs)
    {
      Perform(k, cs[i], now);
      now := Do(now, cs[i]);
      assert cs[i..][1..] == cs[i + 1..];
    }
  }

  /** Calls on a new scheduler. */
  method RunFromNew(blocks: seq<Tcb>, cs: seq<Call<Tcb>>) returns (k: Kernel)
    requires |blocks| == OS_MAX_TASKS && Distinct(blocks)
    requires forall t :: t in blocks ==> t.state == Unused && t.next == null
    requires forall c :: c in cs ==> (c.Block? ==> c.t in blocks) && (c.Wake? ==> c.t in blocks)
    modifies set t | t in blocks
    ensures Shows(k, After(New(blocks), cs))
  {
    k := new Kernel(blocks);
    PerformAll(k, cs, New(blocks));
  }
}
