/** The block structure behind software/dev/kernel/kmalloc.c, apart from the bytes that hold it: the blocks of the
    heap by the offset of their header, and what allocating and freeing do to them. */
module HeapBlocks {

  const HDR_SIZE: nat := 4
  const MIN_SPLIT: nat := 16
  const FREE_BIT: nat := 0x8000_0000

  datatype Block = Block(free: bool, size: nat)

  type Blocks = map<nat, Block>

  // uint32_t
  type U32 = x: int | 0 <= x < 0x1_0000_0000

  /** KM_ALIGN: up to a multiple of 4, in 32 bits. */
  function Align(x: U32): (r: U32)
    ensures r % 4 == 0
    ensures x <= 0xffff_fffc ==> x <= r < x + 4
    ensures x > 0xffff_fffc ==> r == 0
  {
    (x + 3) % 0x1_0000_0000 / 4 * 4
  }

  /** kmalloc_init: one free block. */
  function Fresh(n: nat): Blocks
    requires HDR_SIZE <= n
  {
    map[0 := Block(true, n - HDR_SIZE)]
  }

  function End(b: Blocks, o: nat): nat
    requires o in b
  {
    o + HDR_SIZE + b[o].size
  }

  /** The blocks are aligned, do not overlap, and each ends where the next starts or where the heap ends:
      together they cover the n bytes of the heap exactly. */
  ghost predicate Tiles(b: Blocks, n: nat) {
    0 in b
    && (forall o {:trigger OnWords(b, o)} :: o in b ==> OnWords(b, o))
    && (forall o {:trigger Reaches(b, n, o)} :: o in b ==> Reaches(b, n, o))
    && (forall o, o' {:trigger Clear(b, o, o')} :: o in b && o' in b ==> Clear(b, o, o'))
  }

  predicate OnWords(b: Blocks, o: nat)
    requires o in b
  {
    o % 4 == 0 && b[o].size % 4 == 0
  }

  predicate Reaches(b: Blocks, n: nat, o: nat)
    requires o in b
  {
    End(b, o) == n || (End(b, o) < n && End(b, o) in b)
  }

  predicate Clear(b: Blocks, o: nat, o': nat)
    requires o in b
  {
    o < o' ==> End(b, o) <= o'
  }

  /** The lowest free block that can hold size bytes. */
  ghost predicate FirstFit(b: Blocks, size: nat, o: nat) {
    Fits(b, size, o) && forall o': nat :: o' < o ==> !Fits(b, size, o')
  }

  predicate Fits(b: Blocks, size: nat, o: nat) {
    o in b && b[o].free && b[o].size >= size
  }

  /** The blocks after block o is taken for size bytes: split when another useful block remains. */
  function Take(b: Blocks, o: nat, size: nat): Blocks
    requires o in b
  {
    if b[o].size >= size + HDR_SIZE + MIN_SPLIT then
      b[o := Block(false, size)][o + HDR_SIZE + size := Block(true, b[o].size - size - HDR_SIZE)]
    else
      b[o := Block(false, b[o].size)]
  }

  /** The blocks after block o is given back: merged with the next block if that is free. */
  function Give(b: Blocks, o: nat): Blocks
    requires o in b
  {
    var next := End(b, o);
    if next in b && b[next].free then
      (b - {next})[o := Block(true, b[o].size + HDR_SIZE + b[next].size)]
    else
      b[o := Block(true, b[o].size)]
  }

  /** With 20 bytes to spare, exactly size bytes are taken, and the rest, less a header, is free behind them. */
  lemma TakeSplits(b: Blocks, o: nat, size: nat)
    requires o in b && b[o].size >= size + 20
    ensures Take(b, o, size) == b[o := Block(false, size)][o + 4 + size := Block(true, b[o].size - size - 4)]
  {
  }

  /** Otherwise the whole block is taken. */
  lemma TakeWhole(b: Blocks, o: nat, size: nat)
    requires o in b && b[o].size < size + 20
    ensures Take(b, o, size) == b[o := Block(false, b[o].size)]
  {
  }

  lemma TakeTiles(b: Blocks, n: nat, o: nat, size: nat)
    requires Tiles(b, n) && Fits(b, size, o) && size % 4 == 0
    ensures Tiles(Take(b, o, size), n)
  {
    var t := Take(b, o, size);
    forall k | k in t ensures OnWords(t, k) && Reaches(t, n, k) {
      TakeOnWords(b, n, o, size, k);
      TakeReaches(b, n, o, size, k);
    }
    forall k, k' | k in t && k' in t ensures Clear(t, k, k') {
      TakeClear(b, n, o, size, k, k');
    }
  }

  lemma TakeOnWords(b: Blocks, n: nat, o: nat, size: nat, k: nat)
    requires Tiles(b, n) && Fits(b, size, o) && size % 4 == 0 && k in Take(b, o, size)
    ensures OnWords(Take(b, o, size), k)
  {
    assert OnWords(b, o) && (k in b ==> OnWords(b, k));
    SplitOnWords(o, size, b[o].size);
  }

  lemma SplitOnWords(o: nat, size: nat, whole: nat)
    ensures o % 4 == 0 && size % 4 == 0 && whole % 4 == 0 ==>
              (o + HDR_SIZE + size) % 4 == 0 && (whole - size - HDR_SIZE) % 4 == 0
  {
  }

  lemma TakeReaches(b: Blocks, n: nat, o: nat, size: nat, k: nat)
    requires Tiles(b, n) && Fits(b, size, o) && k in Take(b, o, size)
    ensures Reaches(Take(b, o, size), n, k)
  {
    assert Reaches(b, n, o) && (k in b ==> Reaches(b, n, k) && Clear(b, o, k));
  }

  lemma TakeClear(b: Blocks, n: nat, o: nat, size: nat, k: nat, k': nat)
    requires Tiles(b, n) && Fits(b, size, o) && k in Take(b, o, size) && k' in Take(b, o, size)
    ensures Clear(Take(b, o, size), k, k')
  {
    assert k in b && k' in b ==> Clear(b, k, k');
    assert k in b ==> Clear(b, k, o) && Clear(b, o, k);
    assert k' in b ==> Clear(b, o, k');
  }

  lemma GiveTiles(b: Blocks, n: nat, o: nat)
    requires Tiles(b, n) && o in b
    ensures Tiles(Give(b, o), n)
  {
    var t := Give(b, o);
    forall k | k in t ensures OnWords(t, k) && Reaches(t, n, k) {
      GiveOnWords(b, n, o, k);
      GiveReaches(b, n, o, k);
    }
    forall k, k' | k in t && k' in t ensures Clear(t, k, k') {
      GiveClear(b, n, o, k, k');
    }
  }

  lemma GiveOnWords(b: Blocks, n: nat, o: nat, k: nat)
    requires Tiles(b, n) && o in b && k in Give(b, o)
    ensures OnWords(Give(b, o), k)
  {
    assert OnWords(b, k) && OnWords(b, o) && (End(b, o) in b ==> OnWords(b, End(b, o)));
    if End(b, o) in b {
      MergedOnWords(b[o].size, b[End(b, o)].size);
    }
  }

  lemma MergedOnWords(size: nat, next: nat)
    requires size % 4 == 0 && next % 4 == 0
    ensures (size + HDR_SIZE + next) % 4 == 0
  {
    assert size + HDR_SIZE + next == 4 * (size / 4 + 1 + next / 4);
  }

  lemma GiveClear(b: Blocks, n: nat, o: nat, k: nat, k': nat)
    requires Tiles(b, n) && o in b && k in Give(b, o) && k' in Give(b, o)
    ensures Clear(Give(b, o), k, k')
  {
    var next := End(b, o);
    assert Clear(b, k, k') && (next in b ==> Clear(b, next, k'));
  }

  lemma GiveReaches(b: Blocks, n: nat, o: nat, k: nat)
    requires Tiles(b, n) && o in b && k in Give(b, o)
    ensures Reaches(Give(b, o), n, k)
  {
    var next := End(b, o);
    assert Reaches(b, n, k) && Clear(b, k, o) && Clear(b, o, k);
    if next in b {
      assert Reaches(b, n, next);
    }
  }

  /** Blocks in use, other than those in `except`, are still there, the same. */
  ghost predicate KeepsUsed(b: Blocks, b': Blocks, except: set<nat>) {
    forall o :: o in b && !b[o].free && o !in except ==> o in b' && b'[o] == b[o]
  }

  lemma TakeKeeps(b: Blocks, n: nat, o: nat, size: nat)
    requires Tiles(b, n) && Fits(b, size, o)
    ensures KeepsUsed(b, Take(b, o, size), {}) && o in Take(b, o, size)
    ensures !Take(b, o, size)[o].free && Take(b, o, size)[o].size >= size
  {
    forall k | k in b && !b[k].free ensures k in Take(b, o, size) && Take(b, o, size)[k] == b[k] {
      assert Clear(b, o, k);
    }
  }

  lemma GiveKeeps(b: Blocks, o: nat)
    requires o in b
    ensures KeepsUsed(b, Give(b, o), {o})
  {
  }

  // ------------------------------------------------------------ every run

  /** A successful request, served at block `at`, or a kfree of the block at `at`. A krealloc that moves is the one and
      then the other, and a call that fails leaves the blocks alone. */
  datatype Call = Alloc(request: U32, at: nat) | Free(at: nat)

  ghost predicate Allowed(b: Blocks, c: Call) {
    match c
    case Alloc(request, at) => FirstFit(b, Align(request), at)
    case Free(at) => at in b && !b[at].free
  }

  ghost function Do(b: Blocks, c: Call): Blocks
    requires Allowed(b, c)
  {
    match c
    case Alloc(request, at) => Take(b, at, Align(request))
    case Free(at) => Give(b, at)
  }

  ghost predicate AllAllowed(b: Blocks, calls: seq<Call>)
    decreases |calls|
  {
    calls != [] ==> Allowed(b, calls[0]) && AllAllowed(Do(b, calls[0]), calls[1..])
  }

  ghost function After(b: Blocks, calls: seq<Call>): Blocks
    requires AllAllowed(b, calls)
    decreases |calls|
  {
    if calls == [] then b else After(Do(b, calls[0]), calls[1..])
  }

  /** Over every run the blocks cover the heap exactly, and a block in use that the run does not free stays where it
      is, as large as it is, and in use. */
  lemma {:induction false} EveryRun(b: Blocks, n: nat, calls: seq<Call>, kept: set<nat>)
    requires Tiles(b, n) && AllAllowed(b, calls)
    requires forall o :: o in kept ==> o in b && !b[o].free && Free(o) !in calls
    ensures Tiles(After(b, calls), n)
    ensures forall o :: o in kept ==> o in After(b, calls) && After(b, calls)[o] == b[o]
    decreases |calls|
  {
    if calls != [] {
      var c := calls[0];
      OneCall(b, n, c);
      assert forall o :: o in kept ==> o in Do(b, c) && Do(b, c)[o] == b[o];
      EveryRun(Do(b, c), n, calls[1..], kept);
    }
  }

  lemma OneCall(b: Blocks, n: nat, c: Call)
    requires Tiles(b, n) && Allowed(b, c)
    ensures Tiles(Do(b, c), n) && KeepsUsed(b, Do(b, c), if c.Free? then {c.at} else {})
  {
    match c
    case Alloc(request, at) =>
      TakeTiles(b, n, at, Align(request));
      TakeKeeps(b, n, at, Align(request));
    case Free(at) =>
      GiveTiles(b, n, at);
      GiveKeeps(b, at);
  }

  // ------------------------------------------------------------ requests that fit

  /** The requests, served one behind the other from offset o on. */
  function InARow(o: nat, requests: seq<U32>): seq<Call>
    decreases |requests|
  {
    if requests == [] then []
    else [Alloc(requests[0], o)] + InARow(o + 4 + Align(requests[0]), requests[1..])
  }

  /** What they take up, each with its header. */
  function Total(requests: seq<U32>): nat {
    if requests == [] then 0 else 4 + Align(requests[0]) + Total(requests[1..])
  }

  lemma {:induction false} RowServed(b: Blocks, n: nat, o: nat, requests: seq<U32>)
    requires o in b && o + 4 <= n && b[o] == Block(true, n - o - 4) && forall k :: k in b && b[k].free ==> k == o
    requires o + Total(requests) + 20 <= n
    ensures AllAllowed(b, InARow(o, requests))
    decreases |requests|
  {
    if requests != [] {
      var size := Align(requests[0]);
      TakeSplits(b, o, size);
      RowServed(Take(b, o, size), n, o + 4 + size, requests[1..]);
      assert InARow(o, requests)[1..] == InARow(o + 4 + size, requests[1..]);
    }
  }

  /** On a fresh heap any number of requests that fit with their headers, and 20 bytes to spare, are all served, one
      behind the other. */
  lemma AllServed(n: nat, requests: seq<U32>)
    requires Total(requests) + 20 <= n
    ensures AllAllowed(Fresh(n), InARow(0, requests))
  {
    RowServed(Fresh(n), n, 0, requests);
  }

  // ------------------------------------------------------------ last in, first out

  /** Only the last block of the heap may be free. */
  ghost predicate Stacked(b: Blocks, n: nat) {
    Tiles(b, n) && forall o :: o in b && b[o].free ==> End(b, o) == n
  }

  /** In a stacked heap a block taken and given back leaves the blocks as they were, and the heap stays stacked. */
  lemma TakeGive(b: Blocks, n: nat, o: nat, size: nat)
    requires Stacked(b, n) && Fits(b, size, o) && size % 4 == 0
    ensures Stacked(Take(b, o, size), n) && o in Take(b, o, size)
    ensures Give(Take(b, o, size), o) == b
  {
    var t := Take(b, o, size);
    TakeTiles(b, n, o, size);
    assert Reaches(b, n, o);
    assert n in b ==> Reaches(b, n, n);
    if b[o].size >= size + HDR_SIZE + MIN_SPLIT {
      var next := o + HDR_SIZE + size;
      assert next !in b by {
        assert next in b ==> Clear(b, o, next);
      }
    }
    assert Give(t, o) == b;
  }

  /** Calls of kmalloc that are all given back in reverse order: what is between a request and its kfree is
      `inner`. */
  datatype Nested = Nil | Bracket(request: U32, inner: Nested, rest: Nested)

  /** The blocks after running them; a request that finds no block has nothing to give back. */
  ghost function Run(b: Blocks, calls: Nested): Blocks
    decreases calls
  {
    match calls
    case Nil => b
    case Bracket(request, inner, rest) =>
      if request != 0 && exists o :: FirstFit(b, Align(request), o) then
        var o :| FirstFit(b, Align(request), o);
        var b' := Run(Take(b, o, Align(request)), inner);
        Run(if o in b' then Give(b', o) else b', rest)
      else
        Run(Run(b, inner), rest)
  }

  /** Run in last-in-first-out order, the calls leave a stacked heap as it was. */
  lemma {:induction false} LastInFirstOut(b: Blocks, n: nat, calls: Nested)
    requires Stacked(b, n)
    ensures Run(b, calls) == b
    decreases calls
  {
    match calls
    case Nil =>
    case Bracket(request, inner, rest) =>
      var size := Align(request);
      if request != 0 && exists o :: FirstFit(b, size, o) {
        var o :| FirstFit(b, size, o) && Run(b, calls) ==
          (var b' := Run(Take(b, o, size), inner); Run(if o in b' then Give(b', o) else b', rest));
        TakeGive(b, n, o, size);
        LastInFirstOut(Take(b, o, size), n, inner);
      } else {
        LastInFirstOut(b, n, inner);
      }
      LastInFirstOut(b, n, rest);
  }

  lemma FreshTiles(n: nat)
    requires HDR_SIZE <= n && n % 4 == 0
    ensures Tiles(Fresh(n), n)
  {
    assert OnWords(Fresh(n), 0) && Reaches(Fresh(n), n, 0) && Clear(Fresh(n), 0, 0);
  }

  /** In particular a fresh heap is again its single free block, although freeing merges with the next block only. */
  lemma FreshAgain(n: nat, calls: Nested)
    requires HDR_SIZE <= n && n % 4 == 0
    ensures Tiles(Fresh(n), n) && Run(Fresh(n), calls) == Fresh(n)
  {
    FreshTiles(n);
    LastInFirstOut(Fresh(n), n, calls);
  }
}
