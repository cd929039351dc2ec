/** software/dev/kernel/scheduler.c: the round-robin scheduler over an intrusive circular list of task control
    blocks. Stacks, arguments and the context switch itself are not part of this model. */
module Scheduler {
  import opened ReadyRing
  import opened Sequences

  const OS_MAX_TASKS: nat := 8

  datatype TaskState = Unused | Ready | Running | Blocked

  class Tcb {
    var state: TaskState
    var next: Tcb?

    constructor ()
      ensures state == Unused && next == null
    {
      state, next := Unused, null;
    }
  }

  class Kernel {
    const pool: seq<Tcb>
    ghost const tasks: set<Tcb>  // the entries of pool
    var taskCount: nat
    var currentTask: Tcb?
    var readyHead: Tcb?
    ghost var ring: seq<Tcb>  // the ready queue from readyHead on

    ghost predicate Follows(r: seq<Tcb>, i: nat)
      requires i < |r| - 1
      reads r[i]
    {
      r[i].next == r[i + 1]
    }

    /** The circular list from readyHead on is r. */
    ghost predicate Links(r: seq<Tcb>)
      reads this, tasks
    {
      && Distinct(r) && (forall i :: 0 <= i < |r| ==> r[i] in tasks)
      && (readyHead == if r == [] then null else r[0])
      && (forall i {:trigger Follows(r, i)} :: 0 <= i < |r| - 1 ==> Follows(r, i))
      && (r != [] ==> r[|r| - 1].next == r[0])
    }

    /** The ring holds exactly the tasks that are ready or running; the others are linked nowhere. */
    ghost predicate Linked()
      reads this, tasks
    {
      && |pool| == OS_MAX_TASKS && Distinct(pool) && taskCount <= |pool|
      && (forall i :: 0 <= i < |pool| ==> pool[i] in tasks)
      && Links(ring)
      && (forall t :: t in tasks ==> (t in ring <==> t.state == Ready || t.state == Running))
      && (forall t :: t in tasks && t !in ring ==> t.next == null)
      && (currentTask != null ==> currentTask in tasks)
      && (forall i :: taskCount <= i < |pool| ==> pool[i].state == Unused)
    }

    /** No task but the current one is running. */
    ghost predicate OneRunning()
      reads this, tasks
    {
      forall t :: t in tasks && t.state == Running ==> t == currentTask
    }

    ghost predicate Valid()
      reads this, tasks
    {
      Linked() && OneRunning()
    }

    constructor (blocks: seq<Tcb>)
      requires |blocks| == OS_MAX_TASKS && Distinct(blocks)
      requires forall t :: t in blocks ==> t.state == Unused && t.next == null
      ensures Valid() && ring == [] && currentTask == null && taskCount == 0
      ensures pool == blocks && tasks == set t | t in blocks
    {
      pool := blocks;
      tasks := set t | t in blocks;
      taskCount := 0;
      currentTask, readyHead := null, null;
      ring := [];
    }

    lemma NextOf(i: nat)
      requires Links(ring) && i < |ring|
      ensures ring[i].next == ring[if i + 1 < |ring| then i + 1 else 0]
    {
      assert i < |ring| - 1 ==> Follows(ring, i);
    }

    /** ready_insert: t goes to the tail. */
    method ReadyInsert(t: Tcb)
      requires Links(ring) && t in tasks && t !in ring
      modifies this`readyHead, this`ring, tasks
      ensures Links(ring) && ring == Step(old(ring), Insert(t))
      ensures forall x :: x in tasks ==> x.state == old(x.state) && (x !in ring ==> x.next == old(x.next))
    {
      if readyHead == null {
        readyHead := t;
        t.next := t;
      } else {
        var tail: Tcb := readyHead;
        ghost var i := 0;
        while tail.next != readyHead
          invariant 0 <= i < |ring| && tail == ring[i]
          decreases |ring| - i
        {
          assert i < |ring| - 1 ==> Follows(ring, i);
          tail := tail.next;
          i := i + 1;
        }
        NextOf(i);
        assert i == |ring| - 1;
        tail.next := t;
        t.next := readyHead;
      }
      ghost var was := ring;
      ring := ring + [t];
      forall i | 0 <= i < |ring| - 1 ensures Follows(ring, i) {
        assert old(i < |was| - 1 ==> Follows(was, i));
      }
    }

    /** ready_remove: t leaves the queue, if it is there. */
    method ReadyRemove(t: Tcb)
      requires Links(ring) && t in tasks && (t !in ring ==> t.next == null)
      modifies this`readyHead, this`ring, tasks
      ensures Links(ring) && ring == Step(old(ring), Remove(t))
      ensures t.next == null
      ensures forall x :: x in tasks ==> x.state == old(x.state) && (x !in old(ring) ==> x.next == old(x.next))
    {
      if t !in ring {
        WithoutAbsent(ring, t);
      }
      if readyHead == null {
        return;
      }
      if t.next == t {
        ghost var k :| 0 <= k < |ring| && ring[k] == t;
        NextOf(k);
        assert |ring| == 1;
        WithoutAt(ring, 0);
        if readyHead == t {
          readyHead := null;
        }
        t.next := null;
        ring := [];
        return;
      }
      var prev;
      ghost var k;
      prev, k := Before(t);
      if prev != null {
        Unlink(prev, t, k);
      }
    }

    /** The task whose link leads to t, found by walking once round the list; k is t's place. */
    method Before(t: Tcb) returns (prev: Tcb?, ghost k: nat)
      requires Links(ring) && readyHead != null
      ensures prev == null <==> t !in ring
      ensures prev != null ==> k < |ring| && ring[k] == t && prev == ring[if k == 0 then |ring| - 1 else k - 1]
    {
      prev := readyHead;
      ghost var i := 0;
      while prev.next != t
        invariant 0 <= i < |ring| && prev == ring[i] && t !in ring[1..i + 1]
        decreases |ring| - i
      {
        assert i < |ring| - 1 ==> Follows(ring, i);
        prev := prev.next;
        if prev == readyHead {
          return null, 0;
        }
        i := i + 1;
      }
      assert i < |ring| - 1 ==> Follows(ring, i);
      k := if i < |ring| - 1 then i + 1 else 0;
    }

    /** The links around t in a list of several tasks. */
    method Unlink(prev: Tcb, t: Tcb, ghost k: nat)
      requires Links(ring) && |ring| > 1 && k < |ring| && ring[k] == t
      requires prev == ring[if k == 0 then |ring| - 1 else k - 1]
      modifies this`readyHead, this`ring, tasks
      ensures Links(ring) && ring == Step(old(ring), Remove(t)) && t.next == null
      ensures forall x :: x in tasks ==> x.state == old(x.state) && (x !in old(ring) ==> x.next == old(x.next))
    {
      WithoutAt(ring, k);
      assert k < |ring| - 1 ==> Follows(ring, k);
      prev.next := t.next;
      if readyHead == t {
        readyHead := t.next;
      }
      t.next := null;
      ghost var was := ring;
      ring := ring[..k] + ring[k + 1..];
      assert old(k > 1 ==> Follows(was, k - 1));
      forall i | 0 <= i < |ring| - 1 ensures Follows(ring, i) {
        ghost var j := if i < k then i else i + 1;
        assert old(j < |was| - 1 ==> Follows(was, j));
      }
      assert old(|was| > 1 ==> Follows(was, |was| - 2));
    }

    // ---------------------------------------------------------- the calls

    /** OS_TaskCreate: the next pool entry becomes ready, unless the pool is full or an argument is missing. */
    method TaskCreate(hasEntry: bool, hasStack: bool) returns (r: Tcb?)
      requires Linked()
      modifies this`taskCount, this`readyHead, this`ring, tasks
      ensures Linked() && (old(OneRunning()) ==> OneRunning())
      ensures r == null <==> old(taskCount) >= OS_MAX_TASKS || !hasEntry || !hasStack
      ensures r == null ==> ring == old(ring) && taskCount == old(taskCount)
      ensures r != null ==> r == pool[old(taskCount)] && taskCount == old(taskCount) + 1
      ensures r != null ==> old(r.state) == Unused && ring == Step<Tcb>(old(ring), Event<Tcb>.Insert(r))
      ensures forall t :: t in tasks ==> t.state == if t == r then Ready else old(t.state)
    {
      if taskCount >= OS_MAX_TASKS || !hasEntry || !hasStack {
        return null;
      }
      r := pool[taskCount];
      HandOut();
      r.next := null;
      Enter(r);
    }

    method HandOut()
      requires Linked() && taskCount < |pool|
      modifies this`taskCount
      ensures Linked() && taskCount == old(taskCount) + 1 && pool[old(taskCount)] !in ring
    {
      assert pool[taskCount].state == Unused;
      taskCount := taskCount + 1;
    }

    /** A task that is neither ready nor running becomes ready, at the tail. */
    method Enter(t: Tcb)
      requires Linked() && t in tasks && t !in ring && forall i :: taskCount <= i < |pool| ==> pool[i] != t
      modifies this`readyHead, this`ring, tasks
      ensures Linked() && ring == Step(old(ring), Insert(t))
      ensures forall x :: x in tasks ==> x.state == if x == t then Ready else old(x.state)
    {
      t.state := Ready;
      ReadyInsert(t);
    }

    /** OS_Schedule: the head of the queue runs next and goes to the tail; the task that ran is ready again. */
    method Schedule()
      requires Linked()
      modifies this`currentTask, this`readyHead, this`ring, tasks
      ensures Linked() && (old(OneRunning()) ==> OneRunning())
      ensures ring == Step(old(ring), Dispatch)
      ensures currentTask == if old(ring) == [] then old(currentTask) else old(ring)[0]
      ensures old(ring) == [] ==> forall t :: t in tasks ==> t.state == old(t.state)
      ensures old(ring) != [] ==> forall t :: t in tasks ==>
                t.state == if t == currentTask then Running
                           else if t == old(currentTask) && old(t.state) == Running then Ready
                           else old(t.state)
    {
      if readyHead == null {
        return;
      }
      if currentTask != null && currentTask.state == Running {
        Mark(currentTask, Ready);
      }
      currentTask := readyHead;
      Advance();
      Mark(currentTask, Running);
    }

    /** A task in the ring goes from ready to running or back. */
    method Mark(t: Tcb, state: TaskState)
      requires Linked() && t in tasks
      requires (t.state == Ready || t.state == Running) && (state == Ready || state == Running)
      modifies t`state
      ensures Linked() && t.state == state
    {
      t.state := state;
      forall i | 0 <= i < |ring| - 1 ensures Follows(ring, i) {
        assert old(Follows(ring, i));
      }
    }

    /** `ready_head = ready_head->next` */
    method Advance()
      requires Linked() && readyHead != null
      modifies this`readyHead, this`ring
      ensures Linked() && ring == Step(old(ring), Dispatch)
    {
      assert |ring| > 1 ==> Follows(ring, 0);
      readyHead := readyHead.next;
      ghost var was := ring;
      ring := ring[1..] + [ring[0]];
      forall i | 0 <= i < |ring| - 1 ensures Follows(ring, i) {
        assert i + 2 < |was| ==> Follows(was, i + 1);
      }
      assert forall x :: x in ring <==> x in was;
    }

    /** OS_Start, up to the switch to the first task. It does not look at what ran before: a second start, or one
        after OS_Schedule, leaves two tasks running exactly when the current task runs and is not the head. */
    method Start()
      requires Linked()
      modifies this`currentTask, this`readyHead, this`ring, tasks
      ensures Linked() && ring == Step(old(ring), Dispatch)
      ensures old(ring) == [] ==> currentTask == old(currentTask)
      ensures old(ring) != [] ==> currentTask == old(ring)[0] && currentTask.state == Running
      ensures forall t :: t in tasks && (old(ring) != [] ==> t != currentTask) ==> t.state == old(t.state)
      ensures old(OneRunning()) ==>
                (OneRunning() <==>
                 old(ring == [] || currentTask == null || currentTask.state != Running || currentTask == readyHead))
    {
      if readyHead == null {
        return;
      }
      currentTask := readyHead;
      Advance();
      Mark(currentTask, Running);
    }

    /** OS_TaskBlock */
    method TaskBlock(task: Tcb?)
      requires Linked() && (task != null ==> task in tasks)
      modifies this`readyHead, this`ring, tasks
      ensures Linked() && (old(OneRunning()) ==> OneRunning())
      ensures var acts := task != null && (old(task.state) == Ready || old(task.state) == Running);
              && (!acts ==> ring == old(ring) && forall t :: t in tasks ==> t.state == old(t.state))
              && (acts ==> ring == Step<Tcb>(old(ring), Event<Tcb>.Remove(task)))
              && (acts ==> forall t :: t in tasks ==> t.state == if t == task then Blocked else old(t.state))
    {
      if task == null {
        return;
      }
      if task.state != Ready && task.state != Running {
        return;
      }
      RemoveHolds(task);
      ReadyRemove(task);
      task.state := Blocked;
    }

    /** OS_TaskWake */
    method TaskWake(task: Tcb?)
      requires Linked() && (task != null ==> task in tasks)
      modifies this`readyHead, this`ring, tasks
      ensures Linked() && (old(OneRunning()) ==> OneRunning())
      ensures var acts := task != null && old(task.state) == Blocked;
              && (!acts ==> ring == old(ring) && forall t :: t in tasks ==> t.state == old(t.state))
              && (acts ==> ring == Step<Tcb>(old(ring), Event<Tcb>.Insert(task)))
              && (acts ==> forall t :: t in tasks ==> t.state == if t == task then Ready else old(t.state))
    {
      if task == null || task.state != Blocked {
        return;
      }
      Enter(task);
    }

    /** OS_TaskExit, up to the endless loop it ends in: the current task leaves the round robin, running or blocked. */
    method TaskExit()
      requires Linked()
      modifies this`readyHead, this`ring, tasks
      ensures Linked() && (old(OneRunning()) ==> OneRunning())
      ensures currentTask == null ==> ring == old(ring) && forall t :: t in tasks ==> t.state == old(t.state)
      ensures currentTask != null ==> ring == Step<Tcb>(old(ring), Event<Tcb>.Remove(currentTask))
      ensures currentTask != null ==>
                forall t :: t in tasks ==> t.state == if t == currentTask then Unused else old(t.state)
    {
      if currentTask != null {
        RemoveHolds(currentTask);
        ReadyRemove(currentTask);
        currentTask.state := Unused;
      }
    }

    /** Removing t takes nothing else out of the ring. */
    lemma RemoveHolds(t: Tcb)
      ensures forall x: Tcb :: x in tasks ==> (x in Step(ring, Remove(t)) <==> x in ring && x != t)
    {
      forall x: Tcb | x in tasks ensures x in Step(ring, Remove(t)) <==> x in ring && x != t {
        WithoutHolds(ring, t, x);
      }
    }
  }

  /** Starting after scheduling: from a new kernel, two tasks are running at the end. */
  method StartedLate(blocks: seq<Tcb>) returns (k: Kernel)
    requires |blocks| == OS_MAX_TASKS && Distinct(blocks)
    requires forall t :: t in blocks ==> t.state == Unused && t.next == null
    modifies set t | t in blocks
    ensures k.Linked() && !k.OneRunning()
  {
    k := new Kernel(blocks);
    var a := k.TaskCreate(true, true);
    var b := k.TaskCreate(true, true);
    assert k.ring == [a, b];
    k.Schedule();
    assert k.currentTask == a && a.state == Running && k.readyHead == b;
    k.Start();
  }
}
