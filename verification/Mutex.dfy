/** software/dev/kernel/mutex.c: the mutex with a first-in-first-out hand-off. A call is one atomic step, as its
    critical section makes it; a task blocked in Mutex_Lock comes back from it in a step of its own. */
module MutexSteps {
  import opened Sequences
  import opened Values

  // The mutex: its owner, the waiting tasks, first come first, and what it went through: the callers of Lock and the
  // owners, in order.
  datatype Holding<T> = Holding(owner: Option<T>, queue: seq<T>, requests: seq<T>, grants: seq<T>)

  function Free<T>(): Holding<T> {
    Holding(None, [], [], [])
  }

  function Acquire<T>(m: Holding<T>, me: T): Holding<T> {
    if m.owner.None? then m.(owner := Some(me), requests := m.requests + [me], grants := m.grants + [me])
    else m.(queue := m.queue + [me], requests := m.requests + [me])
  }

  function Release<T>(m: Holding<T>): Holding<T> {
    if m.queue != [] then m.(owner := Some(m.queue[0]), queue := m.queue[1..], grants := m.grants + [m.queue[0]])
    else m.(owner := None)
  }

  /** Ownership has passed in the order of the requests and the other requests wait; no one waits for a free mutex;
      a waiting task waits once and is not the owner. */
  ghost predicate Fair<T>(m: Holding<T>) {
    && m.requests == m.grants + m.queue
    && (m.owner.None? ==> m.queue == [])
    && (m.owner.Some? ==> m.grants != [] && m.grants[|m.grants| - 1] == m.owner.value && m.owner.value !in m.queue)
    && Distinct(m.queue)
  }

  lemma AcquireFair<T>(m: Holding<T>, me: T)
    requires Fair(m) && me !in m.queue && m.owner != Some(me)
    ensures Fair(Acquire(m, me))
  {
  }

  lemma ReleaseFair<T>(m: Holding<T>)
    requires Fair(m)
    ensures Fair(Release(m))
  {
    if m.queue != [] {
      assert m.queue == [m.queue[0]] + m.queue[1..];
    }
  }

  // ------------------------------------------------------------ runs

  type Task = nat

  // `inside` are the tasks whose Lock has returned and that have not called Unlock, `blocked` those whose state a call
  // has left blocked.
  datatype System = System(mutex: Holding<Task>, inside: set<Task>, blocked: set<Task>)

  /** Mutex_Init */
  function New(): System {
    System(Free(), {}, {})
  }

  // Returns: the task that was handed the mutex while blocked comes back from its Lock.
  datatype Call = Locks(t: Task) | Unlocks(t: Task) | Returns(t: Task)

  /** Well-formed calls: a task locks what it neither holds nor waits for, and unlocks only what it holds. */
  predicate Allowed(s: System, c: Call) {
    match c
    case Locks(t) => t !in s.mutex.queue && s.mutex.owner != Some(t)
    case Unlocks(t) => t in s.inside
    case Returns(t) => s.mutex.owner == Some(t)
  }

  function Step(s: System, c: Call): System {
    match c
    case Locks(t) =>
      if s.mutex.owner.None? then System(Acquire(s.mutex, t), s.inside + {t}, s.blocked)
      else System(Acquire(s.mutex, t), s.inside, s.blocked + {t})
    case Unlocks(t) =>
      var blocked := if s.mutex.queue == [] then s.blocked else s.blocked - {s.mutex.queue[0]};
      System(Release(s.mutex), s.inside - {t}, blocked)
    case Returns(t) => System(s.mutex, s.inside + {t}, s.blocked)
  }

  /** A run of well-formed calls leads from s to s'. */
  ghost predicate Reaches(s: System, calls: seq<Call>, s': System)
    decreases |calls|
  {
    if calls == [] then s == s'
    else Allowed(s, calls[0]) && Reaches(Step(s, calls[0]), calls[1..], s')
  }

  /** Only the owner is inside, and the blocked tasks are exactly those in the queue. */
  ghost predicate Good(s: System) {
    && Fair(s.mutex)
    && (forall t :: t in s.inside ==> s.mutex.owner == Some(t))
    && (forall t :: t in s.blocked <==> t in s.mutex.queue)
  }

  lemma StepGood(s: System, c: Call)
    requires Good(s) && Allowed(s, c)
    ensures Good(Step(s, c))
  {
    match c {
      case Locks(t) => AcquireFair(s.mutex, t);
      case Unlocks(t) =>
        ReleaseFair(s.mutex);
        if s.mutex.queue != [] {
          assert s.mutex.queue == [s.mutex.queue[0]] + s.mutex.queue[1..];
        }
      case Returns(t) =>
    }
  }

  /** In every run of well-formed calls ownership passes in exactly the order of the Lock calls, at most one task is
      inside, and it is the owner; no one waits for a free mutex, and every blocked task waits exactly once. */
  lemma {:induction false} EveryRun(s: System, calls: seq<Call>, s': System)
    requires Good(s) && Reaches(s, calls, s')
    ensures Good(s')
    ensures |s'.inside| <= 1
    decreases |calls|
  {
    if calls == [] {
      AtMostOne(s.inside, s.mutex.owner);
    } else {
      StepGood(s, calls[0]);
      EveryRun(Step(s, calls[0]), calls[1..], s');
    }
  }

  /** In particular in every run from a new mutex. */
  lemma EveryRunFromNew()
    ensures forall calls, s' :: Reaches(New(), calls, s') ==> Good(s') && |s'.inside| <= 1
  {
    forall calls, s' | Reaches(New(), calls, s') ensures Good(s') && |s'.inside| <= 1 {
      EveryRun(New(), calls, s');
    }
  }

  /** The tasks of the Lock calls, in order. */
  function Requested(calls: seq<Call>): seq<Task> {
    if calls == [] then []
    else RequestOf(calls[0]) + Requested(calls[1..])
  }

  /** The owners the mutex gets over a run, in order. */
  function Owners(s: System, calls: seq<Call>): seq<Task>
    decreases |calls|
  {
    if calls == [] then []
    else NewOwner(s, Step(s, calls[0])) + Owners(Step(s, calls[0]), calls[1..])
  }

  function NewOwner(s: System, next: System): seq<Task> {
    if next.mutex.owner.Some? && next.mutex.owner != s.mutex.owner then [next.mutex.owner.value] else []
  }

  function RequestOf(c: Call): seq<Task> {
    if c.Locks? then [c.t] else []
  }

  lemma StepRecorded(s: System, c: Call)
    requires Good(s) && Allowed(s, c)
    ensures Step(s, c).mutex.requests == s.mutex.requests + RequestOf(c)
    ensures Step(s, c).mutex.grants == s.mutex.grants + NewOwner(s, Step(s, c))
  {
  }

  lemma RequestedFirst(calls: seq<Call>)
    requires calls != []
    ensures Requested(calls) == RequestOf(calls[0]) + Requested(calls[1..])
  {
  }

  lemma OwnersFirst(s: System, calls: seq<Call>)
    requires calls != []
    ensures Owners(s, calls) == NewOwner(s, Step(s, calls[0])) + Owners(Step(s, calls[0]), calls[1..])
  {
  }

  lemma ReachesFirst(s: System, calls: seq<Call>, s': System)
    requires calls != [] && Reaches(s, calls, s')
    ensures Allowed(s, calls[0]) && Reaches(Step(s, calls[0]), calls[1..], s')
  {
  }

  /** The requests grow by the tasks of the Lock calls, and the grants by the tasks that become owner. */
  lemma {:induction false} RunRecorded(s: System, calls: seq<Call>, s': System)
    requires Good(s) && Reaches(s, calls, s')
    ensures s'.mutex.requests == s.mutex.requests + Requested(calls)
    ensures s'.mutex.grants == s.mutex.grants + Owners(s, calls)
    decreases |calls|
  {
    if calls != [] {
      var next := Step(s, calls[0]);
      ReachesFirst(s, calls, s');
      StepGood(s, calls[0]);
      StepRecorded(s, calls[0]);
      RunRecorded(next, calls[1..], s');
      RequestedFirst(calls);
      OwnersFirst(s, calls);
      Follows(s.mutex.requests, RequestOf(calls[0]), next.mutex.requests, Requested(calls[1..]));
      Follows(s.mutex.grants, NewOwner(s, next), next.mutex.grants, Owners(next, calls[1..]));
    }
  }

  lemma Follows(was: seq<Task>, first: seq<Task>, now: seq<Task>, rest: seq<Task>)
    requires now == was + first
    ensures now + rest == was + (first + rest)
  {
    Assoc(was, first, rest);
  }

  /** First come, first served: in every run from a new mutex the tasks of the Lock calls, in the order of these calls,
      are the owners it has had, in the order they have had it, and then those that wait. */
  lemma FirstComeFirstServed(calls: seq<Call>, s': System)
    requires Reaches(New(), calls, s')
    ensures Requested(calls) == Owners(New(), calls) + s'.mutex.queue
  {
    RunRecorded(New(), calls, s');
    EveryRun(New(), calls, s');
    assert [] + Requested(calls) == Requested(calls) && [] + Owners(New(), calls) == Owners(New(), calls);
  }

  lemma AtMostOne(inside: set<Task>, owner: Option<Task>)
    requires forall t :: t in inside ==> owner == Some(t)
    ensures |inside| <= 1
  {
    if inside != {} {
      var t :| t in inside;
      assert inside == {t};
    }
  }

  /** What an unlock by t and then the entry of w make of s, where o is the owner: w is handed the mutex, or finds it
      free; and o comes back from its Lock, if it was still on the way. */
  function Entered(s: System, o: Task, t: Task, w: Task): System {
    var freed := Step(s, Unlocks(t));
    var entered := if s.mutex.queue != [] then Step(freed, Returns(w)) else Step(freed, Locks(w));
    if o in s.inside then entered else Step(entered, Returns(o))
  }

  /** Mutex_Unlock does not check its caller. While the mutex is owned, the next entry keeps to one task inside if and
      only if the task that has called unlock was inside; that takes in the time between a hand-off and the return of
      the new owner, when no one is. */
  lemma StrayUnlock(s: System, o: Task, t: Task, w: Task)
    requires Good(s) && s.mutex.owner == Some(o) && w != o && (s.mutex.queue != [] ==> w == s.mutex.queue[0])
    ensures |Entered(s, o, t, w).inside| <= 1 <==> t in s.inside
  {
    var after := Entered(s, o, t, w).inside;
    if t in s.inside {
      assert after == {w};
    } else {
      assert after == {o, w};
    }
  }

  /** Unlocking a free mutex does nothing, whoever calls. */
  lemma StrayUnlockFree(s: System, t: Task)
    requires Good(s) && s.mutex.owner.None?
    ensures Step(s, Unlocks(t)) == s
  {
    assert s.inside - {t} == s.inside;
  }

  /** One call away from a new mutex: a stray unlock while the owner is inside. */
  lemma StrayReached()
    ensures var s := Step(New(), Locks(1)); Reaches(New(), [Locks(1)], s) && Entered(s, 1, 2, 3).inside == {1, 3}
  {
    assert [Locks(1)][1..] == [];
  }

  /** Three calls away: a stray unlock between the hand-off to 2 and its return. */
  lemma StrayReachedBetween()
    ensures var s := Step(Step(Step(New(), Locks(1)), Locks(2)), Unlocks(1));
            && Reaches(New(), [Locks(1), Locks(2), Unlocks(1)], s)
            && s.inside == {} && Entered(s, 2, 9, 3).inside == {2, 3}
  {
    var calls := [Locks(1), Locks(2), Unlocks(1)];
    assert calls[1..] == [Locks(2), Unlocks(1)] && calls[1..][1..] == [Unlocks(1)] && calls[1..][1..][1..] == [];
  }
}

/** The same mutex over an intrusive queue of task control blocks. The ready queue of the scheduler is not part of
    this model: adding a task to it is taken to leave waiting tasks alone. */
module Mutex {
  import opened MutexSteps
  import opened Values

  datatype TaskState = Ready | Running | Blocked

  class Tcb {
    var next: Tcb?
    var state: TaskState

    constructor (state: TaskState)
      ensures this.state == state && next == null
    {
      this.state := state;
      next := null;
    }
  }

  class Mutex {
    var locked: bool
    var owner: Tcb?
    var waitHead: Tcb?
    var waitTail: Tcb?
    ghost var m: Holding<Tcb>

    ghost predicate Links(i: nat)
      requires i < |m.queue|
      reads this, m.queue
    {
      m.queue[i].next == if i + 1 < |m.queue| then m.queue[i + 1] else null
    }

    ghost predicate Valid()
      reads this, m.queue
    {
      && Fair(m)
      && locked == m.owner.Some?
      && (owner == if m.owner.Some? then m.owner.value else null)
      && (waitHead == if m.queue == [] then null else m.queue[0])
      && (waitTail == if m.queue == [] then null else m.queue[|m.queue| - 1])
      && (forall i {:trigger Links(i)} :: 0 <= i < |m.queue| ==> Links(i))
      && (forall i :: 0 <= i < |m.queue| ==> m.queue[i].state == Blocked)
    }

    constructor ()
      ensures Valid() && m == Free()
    {
      locked, owner := false, null;
      waitHead, waitTail := null, null;
      m := Free();
    }

    /** Mutex_Lock by the running task `me`, up to the yield where it blocks. */
    method Lock(me: Tcb)
      requires Valid() && me !in m.queue && me != owner && me.state == Running
      modifies this, me, m.queue
      ensures Valid() && m == Acquire(old(m), me)
      ensures locked && m.owner == if old(locked) then old(m.owner) else Some(me)
      ensures m.queue == if old(locked) then old(m.queue) + [me] else old(m.queue)
      ensures old(locked) ==> owner == old(owner) && m.grants == old(m.grants)
      ensures me.state == if old(locked) then Blocked else Running
      ensures forall t :: t in old(m.queue) ==> t.state == old(t.state)
    {
      AcquireFair(m, me);
      if !locked {
        locked := true;
        owner := me;
      } else {
        me.next := null;
        if waitTail != null {
          waitTail.next := me;
          waitTail := me;
        } else {
          waitHead, waitTail := me, me;
        }
        me.state := Blocked;
      }
      ghost var was := m;
      m := Acquire(was, me);
      forall i | 0 <= i < |m.queue| ensures Links(i) {
        assert old(i < |was.queue| ==> Links(i));
      }
    }

    /** Mutex_Unlock: with someone waiting the mutex passes on and is never free in between. */
    method Unlock()
      requires Valid()
      modifies this, m.queue
      ensures Valid() && m == Release(old(m))
      ensures locked == (old(m.queue) != []) && owner == if old(m.queue) != [] then old(m.queue)[0] else null
      ensures m.queue == if old(m.queue) != [] then old(m.queue)[1..] else []
      ensures old(m.queue) != [] ==> old(m.queue)[0].state == Ready
      ensures forall t :: t in m.queue ==> t.state == Blocked
    {
      ReleaseFair(m);
      ghost var was := m;
      if waitHead != null {
        assert Links(0);
        var nextOwner := waitHead;
        waitHead := nextOwner.next;
        if waitHead == null {
          waitTail := null;
        }
        owner := nextOwner;
        nextOwner.state := Ready;
      } else {
        locked := false;
        owner := null;
      }
      m := Release(was);
      forall i | 0 <= i < |m.queue| ensures Links(i) {
        assert old(Links(i + 1));
      }
    }
  }
}
