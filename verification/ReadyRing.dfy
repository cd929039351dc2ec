/** The ready queue of software/dev/kernel/scheduler.c as a sequence, its head first, and how soon it serves a task. */
module ReadyRing {
  import opened Sequences

  // What a call of the scheduler does to the queue.
  datatype Event<T> = Insert(t: T) | Remove(t: T) | Dispatch

  function Without<T(==)>(s: seq<T>, t: T): seq<T> {
    if s == [] then []
    else if s[0] == t then Without(s[1..], t)
    else [s[0]] + Without(s[1..], t)
  }

  lemma {:induction false} WithoutHolds<T>(s: seq<T>, t: T, x: T)
    ensures x in Without(s, t) <==> x in s && x != t
  {
    if s != [] {
      WithoutHolds(s[1..], t, x);
    }
  }

  lemma {:induction false} WithoutAbsent<T>(s: seq<T>, t: T)
    requires t !in s
    ensures Without(s, t) == s
  {
    if s != [] {
      WithoutAbsent(s[1..], t);
    }
  }

  lemma {:induction false} WithoutAt<T>(s: seq<T>, k: nat)
    requires Distinct(s) && k < |s|
    ensures Without(s, s[k]) == s[..k] + s[k + 1..]
  {
    if k == 0 {
      WithoutAbsent(s[1..], s[0]);
    } else {
      WithoutAt(s[1..], k - 1);
      assert s[..k] + s[k + 1..] == [s[0]] + (s[1..][..k - 1] + s[1..][k..]);
    }
  }

  /** New tasks go to the tail, a dispatch moves the head to the tail. */
  function Step<T(==)>(ring: seq<T>, e: Event<T>): seq<T> {
    match e
    case Insert(t) => ring + [t]
    case Remove(t) => Without(ring, t)
    case Dispatch => if ring == [] then [] else ring[1..] + [ring[0]]
  }

  function Run<T(==)>(ring: seq<T>, es: seq<Event<T>>): seq<T>
    decreases |es|
  {
    if es == [] then ring else Run(Step(ring, es[0]), es[1..])
  }

  function Dispatches<T(==)>(es: seq<Event<T>>): nat {
    if es == [] then 0 else (if es[0] == Dispatch then 1 else 0) + Dispatches(es[1..])
  }

  /** The k-th event dispatches t, and is at most the n-th dispatch. */
  ghost predicate ServedBy<T>(ring: seq<T>, es: seq<Event<T>>, t: T, k: nat, n: nat) {
    k < |es| && es[k] == Dispatch
    && Run(ring, es[..k]) != [] && Run(ring, es[..k])[0] == t
    && Dispatches(es[..k + 1]) <= n
  }

  /** One of the first n dispatches serves t. */
  ghost predicate Served<T>(ring: seq<T>, es: seq<Event<T>>, t: T, n: nat) {
    exists k: nat :: ServedBy(ring, es, t, k, n)
  }

  /** t stands among the first d + 1. */
  predicate Within<T(==)>(s: seq<T>, t: T, d: nat) {
    exists k: nat :: k <= d && k < |s| && s[k] == t
  }

  lemma {:induction false} WithoutWithin<T>(s: seq<T>, x: T, t: T, d: nat)
    requires Within(s, t, d) && t != x
    ensures Within(Without(s, x), t, d)
  {
    var k: nat :| k <= d && k < |s| && s[k] == t;
    if k > 0 {
      assert s[1..][k - 1] == t;
      WithoutWithin(s[1..], x, t, d - 1);
      var j: nat :| j <= d - 1 && j < |Without(s[1..], x)| && Without(s[1..], x)[j] == t;
      assert Without(s, x)[if s[0] == x then j else j + 1] == t;
    } else {
      assert Without(s, x)[0] == t;
    }
  }

  /** A dispatch of another task brings t nearer, and no other event but its removal takes it further away. */
  lemma StepWithin<T>(ring: seq<T>, e: Event<T>, t: T, d: nat)
    requires Within(ring, t, d) && e != Remove(t)
    ensures e != Dispatch ==> Within(Step(ring, e), t, d)
    ensures e == Dispatch && ring[0] != t ==> d > 0 && Within(Step(ring, e), t, d - 1)
  {
    var k: nat :| k <= d && k < |ring| && ring[k] == t;
    match e {
      case Insert(x) => assert (ring + [x])[k] == t;
      case Remove(x) => WithoutWithin(ring, x, t, d);
      case Dispatch =>
        if ring[0] != t {
          assert Step(ring, e)[k - 1] == t;
        }
    }
  }

  /** A task at distance d from the head is dispatched within d + 1 dispatches, whatever other tasks come and go. */
  lemma {:induction false} ServedWithin<T>(ring: seq<T>, es: seq<Event<T>>, t: T, d: nat)
    requires Within(ring, t, d)
    requires Remove(t) !in es
    requires Dispatches(es) >= d + 1
    ensures Served(ring, es, t, d + 1)
    decreases |es|
  {
    var e, rest := es[0], es[1..];
    if e == Dispatch && ring[0] == t {
      assert es[..1] == [es[0]] && es[..0] == [];
      assert Dispatches([es[0]]) == 1 + Dispatches([es[0]][1..]) == 1;
      assert ServedBy(ring, es, t, 0, d + 1);
    } else {
      var d' := if e == Dispatch then d - 1 else d;
      StepWithin(ring, e, t, d);
      ServedWithin(Step(ring, e), rest, t, d');
      var k: nat :| ServedBy(Step(ring, e), rest, t, k, d' + 1);
      assert es[..k + 1][1..] == rest[..k];
      assert es[..k + 2][1..] == rest[..k + 1];
      assert ServedBy(ring, es, t, k + 1, d + 1);
    }
  }
}
