/** software/libs/liborion_em_assembler/qsort.c: the three-way quicksort, elements as array cells.
    A part a[lo..hi] of the array is given by its first index and the index behind its last. */
module Quicksort {
  import opened Arithmetic

  // The sign of the result orders two elements, as the comparison function of qsort does.
  type Cmp<!T> = (T, T) -> int

  predicate AtMost<T>(cmp: Cmp<T>, x: T, y: T) {
    cmp(x, y) <= 0
  }

  ghost predicate TotalPreorder<T(!new)>(cmp: Cmp<T>) {
    && (forall x, y {:trigger AtMost(cmp, x, y)} :: AtMost(cmp, x, y) <==> cmp(y, x) >= 0)
    && (forall x, y, z :: AtMost(cmp, x, y) && AtMost(cmp, y, z) ==> AtMost(cmp, x, z))
  }

  ghost predicate Sorted<T(!new)>(cmp: Cmp<T>, s: seq<T>, lo: nat, hi: nat)
    requires hi <= |s|
  {
    forall i, j :: lo <= i < j < hi ==> cmp(s[i], s[j]) <= 0
  }

  /** Every cell of [lo..mid) is at most every cell of [mid..hi). */
  ghost predicate Split<T(!new)>(cmp: Cmp<T>, s: seq<T>, lo: nat, mid: nat, hi: nat)
    requires hi <= |s|
  {
    forall i, j :: lo <= i < mid <= j < hi ==> cmp(s[i], s[j]) <= 0
  }

  // The cells of [lo..hi) that compare less than, equal to and greater than v.
  ghost predicate Less<T(!new)>(cmp: Cmp<T>, s: seq<T>, lo: nat, hi: nat, v: T)
    requires hi <= |s|
  {
    forall k :: lo <= k < hi ==> cmp(s[k], v) < 0
  }

  ghost predicate Equal<T(!new)>(cmp: Cmp<T>, s: seq<T>, lo: nat, hi: nat, v: T)
    requires hi <= |s|
  {
    forall k :: lo <= k < hi ==> cmp(s[k], v) == 0
  }

  ghost predicate Greater<T(!new)>(cmp: Cmp<T>, s: seq<T>, lo: nat, hi: nat, v: T)
    requires hi <= |s|
  {
    forall k :: lo <= k < hi ==> cmp(s[k], v) > 0
  }

  /** How x compares with v is how it compares with any e equal to v. */
  lemma SameLeft<T(!new)>(cmp: Cmp<T>, x: T, e: T, v: T)
    requires TotalPreorder(cmp) && cmp(e, v) == 0
    ensures cmp(x, e) < 0 <==> cmp(x, v) < 0
    ensures cmp(x, e) > 0 <==> cmp(x, v) > 0
  {
    assert AtMost(cmp, v, e) && AtMost(cmp, e, v);
    assert AtMost(cmp, x, e) <==> AtMost(cmp, x, v);
    assert AtMost(cmp, e, x) <==> AtMost(cmp, v, x);
  }

  lemma SameRight<T(!new)>(cmp: Cmp<T>, x: T, e: T, v: T)
    requires TotalPreorder(cmp) && cmp(e, v) == 0
    ensures cmp(e, x) < 0 <==> cmp(x, v) > 0
    ensures cmp(e, x) > 0 <==> cmp(x, v) < 0
  {
    SameLeft(cmp, x, e, v);
    assert AtMost(cmp, x, e) <==> cmp(e, x) >= 0;
    assert AtMost(cmp, e, x) <==> cmp(x, e) >= 0;
  }

  lemma SelfEqual<T(!new)>(cmp: Cmp<T>, v: T)
    requires TotalPreorder(cmp)
    ensures cmp(v, v) == 0
  {
    assert AtMost(cmp, v, v) <==> cmp(v, v) >= 0;
  }

  /** s2 is s1 with the cells of [lo..hi) permuted. */
  ghost predicate Rearranged<T>(s1: seq<T>, s2: seq<T>, lo: nat, hi: nat) {
    |s1| == |s2| && lo <= hi <= |s1|
    && (forall k :: 0 <= k < lo || hi <= k < |s1| ==> s2[k] == s1[k])
    && multiset(s1) == multiset(s2)
  }

  lemma Count3<T>(s: seq<T>, lo: nat, hi: nat, e: T)
    requires lo <= hi <= |s|
    ensures multiset(s)[e] == multiset(s[..lo])[e] + multiset(s[lo..hi])[e] + multiset(s[hi..])[e]
  {
    assert s == s[..lo] + s[lo..hi] + s[hi..];
  }

  /** Every cell of a permuted part holds what some cell of it held before. */
  lemma CameFrom<T>(s1: seq<T>, s2: seq<T>, lo: nat, hi: nat, k: nat)
    requires Rearranged(s1, s2, lo, hi) && lo <= k < hi
    ensures exists k1 :: lo <= k1 < hi && s1[k1] == s2[k]
  {
    var e := s2[k];
    Count3(s1, lo, hi, e);
    Count3(s2, lo, hi, e);
    assert s1[..lo] == s2[..lo] && s1[hi..] == s2[hi..];
    assert s2[lo..hi][k - lo] == e;
    assert e in s1[lo..hi] by {
      assert multiset(s2[lo..hi])[e] > 0;
    }
    var d :| 0 <= d < hi - lo && s1[lo..hi][d] == e;
    assert s1[lo + d] == e;
  }

  // ------------------------------------------------------------ exchanges

  /** qsexc */
  method Exchange<T>(a: array<T>, i: nat, j: nat)
    requires i < a.Length && j < a.Length
    modifies a
    ensures a[i] == old(a[j]) && a[j] == old(a[i])
    ensures forall m :: 0 <= m < a.Length && m != i && m != j ==> a[m] == old(a[m])
    ensures multiset(a[..]) == multiset(old(a[..]))
  {
    a[i], a[j] := a[j], a[i];
  }

  /** qstexc: a[i] takes a[k], a[k] takes a[j], a[j] takes a[i], one store after the other. */
  method Exchange3<T>(a: array<T>, i: nat, j: nat, k: nat)
    requires i < a.Length && j < a.Length && k < a.Length && j != i && k != i
    modifies a
    ensures a[i] == old(a[k]) && a[j] == old(a[i]) && (j != k ==> a[k] == old(a[j]))
    ensures forall m :: 0 <= m < a.Length && m != i && m != j && m != k ==> a[m] == old(a[m])
    ensures multiset(a[..]) == multiset(old(a[..]))
  {
    ghost var s := a[..];
    var c := a[i];
    a[i] := a[k];
    a[k] := a[j];
    a[j] := c;
    Rotation(s, i, j, k);
    assert a[..] == s[i := s[k]][k := s[j]][j := s[i]];
  }

  lemma Rotation<T>(s: seq<T>, i: nat, j: nat, k: nat)
    requires i < |s| && j < |s| && k < |s| && j != i && k != i
    ensures multiset(s[i := s[k]][k := s[j]][j := s[i]]) == multiset(s)
  {
    var t := s[i := s[k]][k := s[i]];
    SwapKeeps(s, i, k);
    SwapKeeps(t, k, j);
    assert t[k := t[j]][j := t[k]] == s[i := s[k]][k := s[j]][j := s[i]];
  }

  lemma SwapKeeps<T>(s: seq<T>, i: nat, j: nat)
    requires i < |s| && j < |s|
    ensures multiset(s[i := s[j]][j := s[i]]) == multiset(s)
  {
  }

  // The exchanges as the source makes them, byte by byte over elements of es bytes. The element at byte offset i
  // is m[i..i + es]; distinct elements do not overlap.

  predicate Apart(i: nat, j: nat, es: nat) {
    i == j || i + es <= j || j + es <= i
  }

  method ExchangeBytes<B>(m: array<B>, i: nat, j: nat, es: nat)
    requires 0 < es && i + es <= m.Length && j + es <= m.Length && Apart(i, j, es)
    modifies m
    ensures forall p :: i <= p < i + es ==> m[p] == old(m[p - i + j])
    ensures forall p :: j <= p < j + es ==> m[p] == old(m[p - j + i])
    ensures forall p :: 0 <= p < m.Length && !(i <= p < i + es) && !(j <= p < j + es) ==> m[p] == old(m[p])
  {
    ghost var s := m[..];
    var ri, rj, n := i, j, es;
    while n > 0
      invariant 0 <= n <= es && ri == i + es - n && rj == j + es - n
      invariant forall p :: i <= p < ri ==> m[p] == s[p - i + j]
      invariant forall p :: j <= p < rj ==> m[p] == s[p - j + i]
      invariant forall p :: 0 <= p < m.Length && !(i <= p < ri) && !(j <= p < rj) ==> m[p] == s[p]
    {
      Exchange(m, ri, rj);
      ri, rj, n := ri + 1, rj + 1, n - 1;
    }
  }

  method Exchange3Bytes<B>(m: array<B>, i: nat, j: nat, k: nat, es: nat)
    requires 0 < es && i + es <= m.Length && j + es <= m.Length && k + es <= m.Length
    requires Apart(i, j, es) && Apart(i, k, es) && Apart(j, k, es) && i != j && i != k
    modifies m
    ensures forall p :: i <= p < i + es ==> m[p] == old(m[p - i + k])
    ensures forall p :: j <= p < j + es ==> m[p] == old(m[p - j + i])
    ensures j != k ==> forall p :: k <= p < k + es ==> m[p] == old(m[p - k + j])
    ensures forall p :: 0 <= p < m.Length && !(i <= p < i + es) && !(j <= p < j + es) && !(k <= p < k + es) ==>
                          m[p] == old(m[p])
  {
    ghost var s := m[..];
    var ri, rj, rk, n := i, j, k, es;
    while n > 0
      invariant 0 <= n <= es && ri == i + es - n && rj == j + es - n && rk == k + es - n
      invariant Rotated(m[..], s, i, j, k, es - n)
    {
      RotateByte(m, s, i, j, k, es, es - n, ri, rj, rk);
      ri, rj, rk, n := ri + 1, rj + 1, rk + 1, n - 1;
    }
  }

  /** The first d bytes of the three elements are rotated, the other bytes are as in s. */
  ghost predicate Rotated<B>(m: seq<B>, s: seq<B>, i: nat, j: nat, k: nat, d: nat)
    requires |s| == |m| && i + d <= |m| && j + d <= |m| && k + d <= |m|
  {
    && Taken(m, s, i, k, d) && Taken(m, s, j, i, d) && (j != k ==> Taken(m, s, k, j, d))
    && (forall p :: 0 <= p < |m| && !(i <= p < i + d) && !(j <= p < j + d) && !(k <= p < k + d) ==> m[p] == s[p])
  }

  /** The d bytes from i on are those of s from k on. */
  ghost predicate Taken<B>(m: seq<B>, s: seq<B>, i: nat, k: nat, d: nat)
    requires |s| == |m| && i + d <= |m| && k + d <= |m|
  {
    forall p :: i <= p < i + d ==> m[p] == s[p - i + k]
  }

  method RotateByte<B>(m: array<B>, ghost s: seq<B>, ghost i: nat, ghost j: nat, ghost k: nat, ghost es: nat,
                       ghost d: nat, ri: nat, rj: nat, rk: nat)
    requires |s| == m.Length && i + es <= m.Length && j + es <= m.Length && k + es <= m.Length && d < es
    requires Apart(i, j, es) && Apart(i, k, es) && Apart(j, k, es) && i != j && i != k
    requires ri == i + d && rj == j + d && rk == k + d && Rotated(m[..], s, i, j, k, d)
    modifies m
    ensures Rotated(m[..], s, i, j, k, d + 1)
  {
    ghost var t := m[..];
    Exchange3(m, ri, rj, rk);
    RotatedNext(t, m[..], s, i, j, k, es, d);
  }

  lemma RotatedNext<B>(m: seq<B>, m': seq<B>, s: seq<B>, i: nat, j: nat, k: nat, es: nat, d: nat)
    requires |s| == |m| == |m'| && i + es <= |m| && j + es <= |m| && k + es <= |m| && d < es
    requires Apart(i, j, es) && Apart(i, k, es) && Apart(j, k, es) && i != j && i != k
    requires Rotated(m, s, i, j, k, d)
    requires m'[i + d] == m[k + d] && m'[j + d] == m[i + d] && (j != k ==> m'[k + d] == m[j + d])
    requires forall p :: 0 <= p < |m| && p != i + d && p != j + d && p != k + d ==> m'[p] == m[p]
    ensures Rotated(m', s, i, j, k, d + 1)
  {
  }

  // ------------------------------------------------------------ one partition

  /** The five regions: less, unknown, equal, unknown, greater. Their bounds hold for any comparison, what is said of
      their cells for a consistent one. */
  ghost predicate Regions<T(!new)>(cmp: Cmp<T>, s: seq<T>, lo: nat, i: int, lp: int, hp: int, j: int, l: int, v: T) {
    lo <= i <= lp <= hp <= j < l <= |s|
    && (TotalPreorder(cmp) ==> Less(cmp, s, lo, i, v) && Equal(cmp, s, lp, hp + 1, v) && Greater(cmp, s, j + 1, l, v))
  }

  // What a consistent comparison says of x against v.

  ghost predicate Under<T(!new)>(cmp: Cmp<T>, x: T, v: T) {
    TotalPreorder(cmp) ==> cmp(x, v) < 0
  }

  ghost predicate Same<T(!new)>(cmp: Cmp<T>, x: T, v: T) {
    TotalPreorder(cmp) ==> cmp(x, v) == 0
  }

  ghost predicate Over<T(!new)>(cmp: Cmp<T>, x: T, v: T) {
    TotalPreorder(cmp) ==> cmp(x, v) > 0
  }

  /** The loop of qs1 between two starts, in two places: at its head (`head`), and at the label `loop`, where a[i]
      is known to be greater unless the left unknown region is empty. */
  method Partition<T(!new)>(a: array<T>, lo: nat, l: nat, cmp: Cmp<T>) returns (lp: nat, hp: nat, ghost v: T)
    requires lo + 1 < l <= a.Length
    modifies a
    ensures Regions(cmp, a[..], lo, lp, lp, hp, hp, l, v)
    ensures Rearranged(old(a[..]), a[..], lo, l)
  {
    hp := lo + (l - lo) / 2;
    lp := hp;
    v := a[lp];
    if TotalPreorder(cmp) {
      SelfEqual(cmp, v);
    }
    var i, j := lo, l - 1;
    var head := true;
    while true
      invariant Regions(cmp, a[..], lo, i, lp, hp, j, l, v)
      invariant !head && i < lp ==> Over(cmp, a[i], v)
      invariant Rearranged(old(a[..]), a[..], lo, l)
      decreases (lp - i) + (j - hp), head
    {
      var again := false;
      if head {
        i, lp, again := LeftStep(a, cmp, lo, i, lp, hp, j, l, v);
      }
      if !again {
        i, lp, hp, j, head, again := RightStep(a, cmp, lo, i, lp, hp, j, l, v);
        if !again {
          return;
        }
      }
    }
  }

  /** The head of that loop: one step on the left unknown region, unless its first cell is greater. */
  method LeftStep<T(!new)>(a: array<T>, cmp: Cmp<T>, ghost lo: nat, i0: nat, lp0: nat, ghost hp: nat,
                           ghost j: nat, ghost l: nat, ghost v: T) returns (i: nat, lp: nat, again: bool)
    requires Regions(cmp, a[..], lo, i0, lp0, hp, j, l, v)
    modifies a
    ensures Regions(cmp, a[..], lo, i, lp, hp, j, l, v) && Rearranged(old(a[..]), a[..], lo, l)
    ensures again ==> lp - i < lp0 - i0
    ensures !again ==> i == i0 && lp == lp0 && (i < lp ==> Over(cmp, a[i], v))
  {
    i, lp, again := i0, lp0, false;
    if i < lp {
      var c := cmp(a[i], a[lp]);
      if TotalPreorder(cmp) {
        SameLeft(cmp, a[i], a[lp], v);
      }
      if c == 0 {
        EqualLeft(a, cmp, lo, i, lp, hp, j, l, v);
        return i, lp - 1, true;
      }
      if c < 0 {
        return i + 1, lp, true;
      }
    }
  }

  /** The label `loop`: one step on the right unknown region; without one, done or a step that moves a greater
      cell off the left. `head` tells where the loop goes on. */
  method RightStep<T(!new)>(a: array<T>, cmp: Cmp<T>, ghost lo: nat, i0: nat, lp0: nat, hp0: nat, j0: nat,
                            ghost l: nat, ghost v: T)
    returns (i: nat, lp: nat, hp: nat, j: nat, head: bool, again: bool)
    requires Regions(cmp, a[..], lo, i0, lp0, hp0, j0, l, v)
    requires i0 < lp0 ==> Over(cmp, a[i0], v)
    modifies a
    ensures Regions(cmp, a[..], lo, i, lp, hp, j, l, v) && Rearranged(old(a[..]), a[..], lo, l)
    ensures !head && i < lp ==> Over(cmp, a[i], v)
    ensures again ==> (lp - i) + (j - hp) < (lp0 - i0) + (j0 - hp0)
    ensures !again ==> i == lp && hp == j
  {
    i, lp, hp, j, head, again := i0, lp0, hp0, j0, false, true;
    if j > hp {
      var c := cmp(a[hp], a[j]);
      if TotalPreorder(cmp) {
        SameRight(cmp, a[j], a[hp], v);
      }
      if c == 0 {
        EqualRight(a, cmp, lo, i, lp, hp, j, l, v);
        hp := hp + 1;
      } else if c > 0 {
        if i == lp {
          LessRight(a, cmp, lo, i, hp, j, l, v);
          hp, lp := hp + 1, lp + 1;
          i := lp;
        } else {
          BothWrong(a, cmp, lo, i, lp, hp, j, l, v);
          i, j, head := i + 1, j - 1, true;
        }
      } else {
        j := j - 1;
      }
    } else if i == lp {
      again := false;
    } else {
      GreaterLeft(a, cmp, lo, i, lp, hp, l, v);
      lp, hp, head := lp - 1, hp - 1, true;
      j := hp;
    }
  }

  // The exchanges of that loop, and what each does to the regions.

  method EqualLeft<T(!new)>(a: array<T>, ghost cmp: Cmp<T>, ghost lo: nat, i: nat, lp: nat, ghost hp: nat,
                            ghost j: nat, ghost l: nat, ghost v: T)
    requires Regions(cmp, a[..], lo, i, lp, hp, j, l, v) && i < lp && Same(cmp, a[i], v)
    modifies a
    ensures Regions(cmp, a[..], lo, i, lp - 1, hp, j, l, v) && Rearranged(old(a[..]), a[..], lo, l)
    ensures a[i] == old(a[lp - 1])
  {
    Exchange(a, i, lp - 1);
  }

  method EqualRight<T(!new)>(a: array<T>, ghost cmp: Cmp<T>, ghost lo: nat, ghost i: nat, ghost lp: nat, hp: nat,
                             j: nat, ghost l: nat, ghost v: T)
    requires Regions(cmp, a[..], lo, i, lp, hp, j, l, v) && hp < j && Same(cmp, a[j], v)
    modifies a
    ensures Regions(cmp, a[..], lo, i, lp, hp + 1, j, l, v) && Rearranged(old(a[..]), a[..], lo, l)
    ensures i < lp ==> a[i] == old(a[i])
  {
    Exchange(a, hp + 1, j);
  }

  method BothWrong<T(!new)>(a: array<T>, ghost cmp: Cmp<T>, ghost lo: nat, i: nat, ghost lp: nat, ghost hp: nat,
                            j: nat, ghost l: nat, ghost v: T)
    requires Regions(cmp, a[..], lo, i, lp, hp, j, l, v) && i < lp && hp < j
    requires Over(cmp, a[i], v) && Under(cmp, a[j], v)
    modifies a
    ensures Regions(cmp, a[..], lo, i + 1, lp, hp, j - 1, l, v) && Rearranged(old(a[..]), a[..], lo, l)
  {
    Exchange(a, i, j);
  }

  method LessRight<T(!new)>(a: array<T>, ghost cmp: Cmp<T>, ghost lo: nat, i: nat, hp: nat, j: nat,
                            ghost l: nat, ghost v: T)
    requires Regions(cmp, a[..], lo, i, i, hp, j, l, v) && hp < j && Under(cmp, a[j], v)
    modifies a
    ensures Regions(cmp, a[..], lo, i + 1, i + 1, hp + 1, j, l, v) && Rearranged(old(a[..]), a[..], lo, l)
  {
    Exchange3(a, i, hp + 1, j);
  }

  method GreaterLeft<T(!new)>(a: array<T>, ghost cmp: Cmp<T>, ghost lo: nat, i: nat, lp: nat, hp: nat,
                              ghost l: nat, ghost v: T)
    requires Regions(cmp, a[..], lo, i, lp, hp, hp, l, v) && i < lp && Over(cmp, a[i], v)
    modifies a
    ensures Regions(cmp, a[..], lo, i, lp - 1, hp - 1, hp - 1, l, v) && Rearranged(old(a[..]), a[..], lo, l)
  {
    Exchange3(a, hp, lp - 1, i);
  }

  // ------------------------------------------------------------ the recursion

  /** The state at `start`: [x..y) is still to be sorted, and stands where it will stay. */
  ghost predicate Narrowed<T(!new)>(cmp: Cmp<T>, s: seq<T>, lo: nat, x: nat, y: nat, hi: nat) {
    lo <= x <= y <= hi <= |s|
    && (TotalPreorder(cmp) ==>
          && Sorted(cmp, s, lo, x) && Sorted(cmp, s, y, hi)
          && Split(cmp, s, lo, x, hi) && Split(cmp, s, lo, y, hi))
  }

  /** Permuting [x..y) keeps that state. */
  lemma PermuteWithin<T(!new)>(cmp: Cmp<T>, s1: seq<T>, s2: seq<T>, lo: nat, x: nat, y: nat, hi: nat)
    requires Narrowed(cmp, s1, lo, x, y, hi) && Rearranged(s1, s2, x, y)
    ensures Narrowed(cmp, s2, lo, x, y, hi)
  {
    if TotalPreorder(cmp) {
      forall i, j | lo <= i < x <= j < hi ensures cmp(s2[i], s2[j]) <= 0 {
        if j < y { CameFrom(s1, s2, x, y, j); }
      }
      forall i, j | lo <= i < y <= j < hi ensures cmp(s2[i], s2[j]) <= 0 {
        if x <= i { CameFrom(s1, s2, x, y, i); }
      }
    }
  }

  /** The parts left and right of the equal cells can be sorted separately, in either order. */
  lemma Narrow<T(!new)>(cmp: Cmp<T>, s: seq<T>, lo: nat, x: nat, lp: nat, hp: nat, y: nat, hi: nat, v: T)
    requires Narrowed(cmp, s, lo, x, y, hi) && Regions(cmp, s, x, lp, lp, hp, hp, y, v)
    ensures (TotalPreorder(cmp) ==> Sorted(cmp, s, hp + 1, y)) ==> Narrowed(cmp, s, lo, x, lp, hi)
    ensures (TotalPreorder(cmp) ==> Sorted(cmp, s, x, lp)) ==> Narrowed(cmp, s, lo, hp + 1, y, hi)
  {
    if TotalPreorder(cmp) {
      forall i, j | x <= i < j < y && (i < lp <= j || i <= hp < j || lp <= i < j <= hp)
        ensures cmp(s[i], s[j]) <= 0
      {
        Through(cmp, s[i], v, s[j]);
      }
    }
  }

  lemma Through<T(!new)>(cmp: Cmp<T>, x: T, v: T, y: T)
    requires TotalPreorder(cmp) && cmp(x, v) <= 0 && cmp(y, v) >= 0
    ensures cmp(x, y) <= 0
  {
    assert AtMost(cmp, x, v) && AtMost(cmp, v, y);
  }

  lemma Parts<T(!new)>(cmp: Cmp<T>, s1: seq<T>, s2: seq<T>, x: nat, lp: nat, hp: nat, y: nat, v: T)
    requires Regions(cmp, s1, x, lp, lp, hp, hp, y, v)
    requires Rearranged(s1, s2, x, lp) || Rearranged(s1, s2, hp + 1, y)
    ensures Regions(cmp, s2, x, lp, lp, hp, hp, y, v) && Rearranged(s1, s2, x, y)
  {
    if TotalPreorder(cmp) {
      forall k | x <= k < lp ensures cmp(s2[k], v) < 0 {
        if Rearranged(s1, s2, x, lp) { CameFrom(s1, s2, x, lp, k); }
      }
      forall k | hp < k < y ensures cmp(s2[k], v) > 0 {
        if !Rearranged(s1, s2, x, lp) { CameFrom(s1, s2, hp + 1, y, k); }
      }
    }
  }

  /** qs1: sorts a[a0..l0) in place, if the comparison is consistent. `depth` counts how deep its recursive calls nest;
      each goes to the smaller side, so that 2^depth is at most the number of elements for any comparison. */
  method Qs1<T(!new)>(a: array<T>, a0: nat, l0: nat, cmp: Cmp<T>) returns (ghost depth: nat)
    requires a0 <= l0 <= a.Length
    modifies a
    ensures TotalPreorder(cmp) ==> Sorted(cmp, a[..], a0, l0)
    ensures Rearranged(old(a[..]), a[..], a0, l0)
    ensures if l0 - a0 <= 1 then depth == 0 else Pow2(depth) <= l0 - a0
    decreases l0 - a0, 1
  {
    var x, l := a0, l0;
    depth := 0;
    while l - x > 1
      invariant Narrowed(cmp, a[..], a0, x, l, l0)
      invariant Rearranged(old(a[..]), a[..], a0, l0)
      invariant if l0 - a0 <= 1 then depth == 0 else Pow2(depth) <= l0 - a0
      decreases l - x
    {
      ghost var inner;
      x, l, inner := Round(a, a0, x, l, l0, cmp);
      if depth < inner + 1 {
        depth := inner + 1;
      }
    }
    NarrowedOut(cmp, a[..], a0, x, l, l0);
  }

  /** From one `start` to the next: partition, sort the smaller side, go on with the other. */
  method Round<T(!new)>(a: array<T>, ghost a0: nat, x0: nat, l0: nat, ghost end: nat, cmp: Cmp<T>)
    returns (x: nat, l: nat, ghost inner: nat)
    requires a0 <= x0 && x0 + 1 < l0 <= end <= a.Length
    requires Narrowed(cmp, a[..], a0, x0, l0, end)
    modifies a
    ensures x0 <= x <= l <= l0 && l - x < l0 - x0
    ensures Narrowed(cmp, a[..], a0, x, l, end) && Rearranged(old(a[..]), a[..], x0, l0)
    ensures Pow2(inner + 1) <= l0 - x0
    decreases l0 - x0, 0
  {
    ghost var s0 := a[..];
    var lp, hp;
    ghost var v;
    lp, hp, v := Partition(a, x0, l0, cmp);
    ghost var s1 := a[..];
    PermuteWithin(cmp, s0, s1, a0, x0, l0, end);
    if lp - x0 >= l0 - hp {
      inner := Qs1(a, hp + 1, l0, cmp);
      x, l := x0, lp;
    } else {
      inner := Qs1(a, x0, lp, cmp);
      x, l := hp + 1, l0;
    }
    Parts(cmp, s1, a[..], x0, lp, hp, l0, v);
    PermuteWithin(cmp, s1, a[..], a0, x0, l0, end);
    Narrow(cmp, a[..], a0, x0, lp, hp, l0, end, v);
  }

  lemma NarrowedOut<T(!new)>(cmp: Cmp<T>, s: seq<T>, lo: nat, x: nat, y: nat, hi: nat)
    requires Narrowed(cmp, s, lo, x, y, hi) && y - x <= 1
    ensures TotalPreorder(cmp) ==> Sorted(cmp, s, lo, hi)
  {
  }

  /** qsort: whatever the comparison answers, it ends, permutes the elements and does not nest deep; if the answers are
      consistent, it sorts. */
  method Qsort<T(!new)>(a: array<T>, cmp: Cmp<T>) returns (ghost depth: nat)
    modifies a
    ensures TotalPreorder(cmp) ==> Sorted(cmp, a[..], 0, a.Length)
    ensures multiset(a[..]) == multiset(old(a[..]))
    ensures if a.Length <= 1 then depth == 0 else Pow2(depth) <= a.Length
  {
    depth := Qs1(a, 0, a.Length, cmp);
  }
}
