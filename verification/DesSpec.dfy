/** The cipher of software/libs/liborion_em_assembler/crypt.c on values ('Enciphering' and 'Deciphering' sections of
    FIPS PUB 46-3), for any selection table E: deciphering undoes enciphering, and complementing key and block
    complements the result. */
module DesSpec {
  import opened DesTables
  import opened Arithmetic

  type Bit = x: int | 0 <= x <= 1
  type Bits = seq<Bit>

  type Key = k: Bits | |k| == 48 witness seq(48, _ => 0)
  type Half = h: Bits | |h| == 32 witness seq(32, _ => 0)
  type Block = b: Bits | |b| == 64 witness seq(64, _ => 0)
  type Selector = e: seq<int> | |e| == 48 && forall j :: 0 <= j < 48 ==> 1 <= e[j] <= 32 witness seq(48, _ => 1)

  datatype Halves = Halves(l: Half, r: Half)

  function Xor(a: Bit, b: Bit): Bit {
    if a == b then 0 else 1
  }

  function Mixed(b0: int, b1: int, b2: int, b3: int, b4: int, b5: int): int {
    b0 * 32 + b1 * 8 + b2 * 4 + b3 * 2 + b4 + b5 * 16
  }

  /** The six bits of group i as the index into its selection function. */
  function Index(pre: Key, i: nat): (k: nat)
    requires i < 8
    ensures k < 64
  {
    Mixed(pre[6 * i], pre[6 * i + 1], pre[6 * i + 2], pre[6 * i + 3], pre[6 * i + 4], pre[6 * i + 5])
  }

  lemma IndexIs(pre: Key, i: nat)
    requires i < 8
    ensures var t := 6 * i; Index(pre, i) == Mixed(pre[t], pre[t + 1], pre[t + 2], pre[t + 3], pre[t + 4], pre[t + 5])
  {
  }

  /** The four bits of a selection, the highest first. */
  lemma SelectedIs(pre: Key, i: nat)
    requires i < 8
    ensures var k := Sel(i, Index(pre, i));
            && SelectedBit(pre, i, 0) == k / 8 % 2 && SelectedBit(pre, i, 1) == k / 4 % 2
            && SelectedBit(pre, i, 2) == k / 2 % 2 && SelectedBit(pre, i, 3) == k % 2
  {
  }

  /** Bit q, the highest first, of what selection function i makes of its group. */
  function SelectedBit(pre: Key, i: nat, q: nat): Bit
    requires i < 8 && q < 4
  {
    var k := Sel(i, Index(pre, i));
    (if q == 0 then k / 8 else if q == 1 then k / 4 else if q == 2 then k / 2 else k) % 2
  }

  function Selected(pre: Key, m: nat): Bit
    requires m < 32
  {
    SelectedBit(pre, m / 4, m % 4)
  }

  lemma SelectedGroup(pre: Key, i: nat)
    requires i < 8
    ensures forall m :: 4 * i <= m < 4 * i + 4 ==> Selected(pre, m) == SelectedBit(pre, i, m - 4 * i)
  {
  }

  function PreS(e: Selector, r: Half, k: Key): Key {
    seq(48, j requires 0 <= j < 48 => Xor(r[e[j] - 1], k[j]))
  }

  function AllSelected(pre: Key): Half {
    seq(32, m requires 0 <= m < 32 => Selected(pre, m))
  }

  function PermuteF(f: Half): Half {
    seq(32, j requires 0 <= j < 32 => f[PAt(j) - 1])
  }

  /** f(R, K), permuted. */
  function F(pre: Key): Half {
    PermuteF(AllSelected(pre))
  }

  function XorHalf(a: Half, b: Half): Half {
    seq(32, j requires 0 <= j < 32 => Xor(a[j], b[j]))
  }

  function Round(e: Selector, k: Key, h: Halves): Halves {
    Halves(h.r, XorHalf(h.l, F(PreS(e, h.r, k))))
  }

  function Rounds(e: Selector, ks: seq<Key>, h: Halves): Halves {
    if ks == [] then h else Round(e, ks[|ks| - 1], Rounds(e, ks[..|ks| - 1], h))
  }

  function Swap(h: Halves): Halves {
    Halves(h.r, h.l)
  }

  function Permuted(b: Block): Halves {
    Halves(seq(32, j requires 0 <= j < 32 => b[Ip(j) - 1]), seq(32, j requires 0 <= j < 32 => b[Ip(32 + j) - 1]))
  }

  function Unpermuted(h: Halves): Block {
    var lr: Bits := h.l + h.r;
    seq(64, j requires 0 <= j < 64 => lr[Fp(j) - 1])
  }

  function Reverse(ks: seq<Key>): seq<Key> {
    seq(|ks|, i requires 0 <= i < |ks| => ks[|ks| - 1 - i])
  }

  /** encrypt: with edflag the keys are used in reverse. */
  function Crypt(e: Selector, ks: seq<Key>, b: Block, edflag: bool): Block {
    Unpermuted(Swap(Rounds(e, if edflag then Reverse(ks) else ks, Permuted(b))))
  }

  // ------------------------------------------------------------ deciphering undoes enciphering

  lemma PermuteUndo(h: Halves)
    ensures Permuted(Unpermuted(h)) == h
  {
    var p := Permuted(Unpermuted(h));
    forall j | 0 <= j < 32 ensures p.l[j] == h.l[j] {
      UnpermutedAt(h, j);
    }
    forall j | 0 <= j < 32 ensures p.r[j] == h.r[j] {
      UnpermutedAt(h, 32 + j);
    }
  }

  lemma UnpermutedAt(h: Halves, m: nat)
    requires m < 64
    ensures Unpermuted(h)[Ip(m) - 1] == (h.l + h.r)[m]
  {
    Inverse(m);
  }

  lemma UnpermuteUndo(b: Block)
    ensures Unpermuted(Permuted(b)) == b
  {
    forall j | 0 <= j < 64 ensures Unpermuted(Permuted(b))[j] == b[j] {
      Inverse(j);
      PermutedAt(b, Fp(j) - 1);
    }
  }

  lemma PermutedAt(b: Block, m: nat)
    requires m < 64
    ensures (Permuted(b).l + Permuted(b).r)[m] == b[Ip(m) - 1]
  {
  }

  /** A round with the halves exchanged undoes itself, whatever f is. */
  lemma RoundUndo(e: Selector, k: Key, h: Halves)
    ensures Round(e, k, Swap(Round(e, k, h))) == Swap(h)
  {
    XorTwice(h.l, F(PreS(e, h.r, k)));
  }

  lemma XorTwice(a: Half, f: Half)
    ensures XorHalf(XorHalf(a, f), f) == a
  {
  }

  lemma {:induction false} RoundsUndo(e: Selector, ks: seq<Key>, h: Halves)
    ensures Rounds(e, Reverse(ks), Swap(Rounds(e, ks, h))) == Swap(h)
    decreases |ks|
  {
    if ks != [] {
      var n := |ks| - 1;
      var g := Rounds(e, ks[..n], h);
      RoundUndo(e, ks[n], g);
      assert Reverse(ks) == [ks[n]] + Reverse(ks[..n]);
      RoundsFirst(e, ks[n], Reverse(ks[..n]), Swap(Round(e, ks[n], g)));
      RoundsUndo(e, ks[..n], h);
    }
  }

  lemma RoundsNext(e: Selector, ks: seq<Key>, n: nat, h: Halves)
    requires n < |ks|
    ensures Rounds(e, ks[..n + 1], h) == Round(e, ks[n], Rounds(e, ks[..n], h))
  {
    assert ks[..n + 1][..n] == ks[..n];
  }

  lemma {:induction false} RoundsFirst(e: Selector, k: Key, ks: seq<Key>, h: Halves)
    ensures Rounds(e, [k] + ks, h) == Rounds(e, ks, Round(e, k, h))
    decreases |ks|
  {
    if ks == [] {
      assert [k] + ks == [k];
      assert Rounds(e, [k], h) == Round(e, k, Rounds(e, [], h));
    } else {
      var n := |ks| - 1;
      assert ([k] + ks)[..n + 1] == [k] + ks[..n];
      RoundsFirst(e, k, ks[..n], h);
    }
  }

  /** For every key schedule, block and selection table, either direction undoes the other. */
  lemma CryptUndo(e: Selector, ks: seq<Key>, b: Block, edflag: bool)
    ensures Crypt(e, ks, Crypt(e, ks, b, edflag), !edflag) == b
  {
    var order := if edflag then Reverse(ks) else ks;
    var h := Permuted(b);
    assert Reverse(Reverse(ks)) == ks;
    PermuteUndo(Swap(Rounds(e, order, h)));
    RoundsUndo(e, order, h);
    UnpermuteUndo(b);
  }

  // ------------------------------------------------------------ the key schedule

  function Rotated(c: Bits): (r: Bits)
    ensures |r| == |c|
  {
    if c == [] then [] else c[1..] + [c[0]]
  }

  function Rotations(c: Bits, n: nat): (r: Bits)
    ensures |r| == |c|
  {
    if n == 0 then c else Rotated(Rotations(c, n - 1))
  }

  function KeyC(key: Block): (c: Bits)
    ensures |c| == 28
  {
    seq(28, j requires 0 <= j < 28 => key[Pc1C(j) - 1])
  }

  function KeyD(key: Block): (d: Bits)
    ensures |d| == 28
  {
    seq(28, j requires 0 <= j < 28 => key[Pc1D(j) - 1])
  }

  /** The number of rotations made before key i is picked. */
  function Turns(i: nat): nat
    requires i < 16
  {
    Shift(i) + if i == 0 then 0 else Turns(i - 1)
  }

  function Picked(c: Bits, d: Bits): Key
    requires |c| == 28 && |d| == 28
  {
    seq(48, j requires 0 <= j < 48 => if j < 24 then c[Pc2C(j) - 1] else d[Pc2D(j - 24) - 28 - 1])
  }

  lemma PickedPair(c: Bits, d: Bits, j: nat)
    requires |c| == 28 && |d| == 28 && j < 24
    ensures Picked(c, d)[j] == c[Pc2C(j) - 1] && Picked(c, d)[j + 24] == d[Pc2D(j) - 28 - 1]
  {
  }

  /** Key i, from the halves the key permutation yields. */
  function RoundKey(c: Bits, d: Bits, i: nat): Key
    requires |c| == 28 && |d| == 28 && i < 16
  {
    Picked(Rotations(c, Turns(i)), Rotations(d, Turns(i)))
  }

  lemma RoundKeyIs(c: Bits, d: Bits, i: nat, ci: Bits, di: Bits)
    requires |c| == 28 && |d| == 28 && i < 16 && ci == Rotations(c, Turns(i)) && di == Rotations(d, Turns(i))
    ensures RoundKey(c, d, i) == Picked(ci, di)
  {
  }

  /** setkey */
  function Schedule(key: Block): (ks: seq<Key>)
    ensures |ks| == 16
  {
    seq(16, i requires 0 <= i < 16 => RoundKey(KeyC(key), KeyD(key), i))
  }

  // ------------------------------------------------------------ complements

  function Not(s: Bits): (r: Bits)
    ensures |r| == |s|
  {
    seq(|s|, j requires 0 <= j < |s| => 1 - s[j])
  }

  function NotHalves(h: Halves): Halves {
    Halves(Not(h.l), Not(h.r))
  }

  function NotKeys(ks: seq<Key>): (r: seq<Key>)
    ensures |r| == |ks|
  {
    seq(|ks|, i requires 0 <= i < |ks| => Not(ks[i]))
  }

  /** Both operands of the exclusive-or before selection are complemented, so selection sees no difference. */
  lemma RoundNot(e: Selector, k: Key, h: Halves)
    ensures Round(e, Not(k), NotHalves(h)) == NotHalves(Round(e, k, h))
  {
    assert PreS(e, Not(h.r), Not(k)) == PreS(e, h.r, k);
    XorNot(h.l, F(PreS(e, h.r, k)));
  }

  lemma XorNot(a: Half, f: Half)
    ensures XorHalf(Not(a), f) == Not(XorHalf(a, f))
  {
  }

  lemma {:induction false} RoundsNot(e: Selector, ks: seq<Key>, h: Halves)
    ensures Rounds(e, NotKeys(ks), NotHalves(h)) == NotHalves(Rounds(e, ks, h))
    decreases |ks|
  {
    if ks != [] {
      var n := |ks| - 1;
      assert NotKeys(ks)[..n] == NotKeys(ks[..n]);
      RoundsNot(e, ks[..n], h);
      RoundNot(e, ks[n], Rounds(e, ks[..n], h));
    }
  }

  lemma {:induction false} RotationsNot(c: Bits, n: nat)
    ensures Rotations(Not(c), n) == Not(Rotations(c, n))
  {
    if n > 0 {
      RotationsNot(c, n - 1);
      RotatedNot(Rotations(c, n - 1));
    }
  }

  lemma RotatedNot(c: Bits)
    ensures Rotated(Not(c)) == Not(Rotated(c))
  {
    forall j | 0 <= j < |c| ensures Rotated(Not(c))[j] == Not(Rotated(c))[j] {
      assert Rotated(c)[j] == c[if j + 1 < |c| then j + 1 else 0];
      assert Rotated(Not(c))[j] == Not(c)[if j + 1 < |c| then j + 1 else 0];
    }
  }

  /** setkey only selects key bits. */
  lemma ScheduleNot(key: Block)
    ensures Schedule(Not(key)) == NotKeys(Schedule(key))
  {
    assert KeyC(Not(key)) == Not(KeyC(key)) && KeyD(Not(key)) == Not(KeyD(key));
    forall i | 0 <= i < 16 ensures Schedule(Not(key))[i] == Not(Schedule(key)[i]) {
      RotationsNot(KeyC(key), Turns(i));
      RotationsNot(KeyD(key), Turns(i));
      PickedNot(Rotations(KeyC(key), Turns(i)), Rotations(KeyD(key), Turns(i)));
    }
  }

  lemma PickedNot(c: Bits, d: Bits)
    requires |c| == 28 && |d| == 28
    ensures Picked(Not(c), Not(d)) == Not(Picked(c, d))
  {
  }

  /** Complementing every key bit and every block bit complements every output bit. */
  lemma CryptNot(e: Selector, key: Block, b: Block, edflag: bool)
    ensures Crypt(e, Schedule(Not(key)), Not(b), edflag) == Not(Crypt(e, Schedule(key), b, edflag))
  {
    var ks := Schedule(key);
    ScheduleNot(key);
    var order := if edflag then Reverse(ks) else ks;
    assert Reverse(NotKeys(ks)) == NotKeys(Reverse(ks));
    PermutedNot(b);
    RoundsNot(e, order, Permuted(b));
    UnpermutedNot(Swap(Rounds(e, order, Permuted(b))));
  }

  lemma PermutedNot(b: Block)
    ensures Permuted(Not(b)) == NotHalves(Permuted(b))
  {
  }

  lemma UnpermutedNot(h: Halves)
    ensures Unpermuted(NotHalves(h)) == Not(Unpermuted(h))
  {
  }

  // ------------------------------------------------------------ the selection table of crypt()

  /** A salt character counted from '.' up, without the gaps between digits and letters. */
  function SaltValue(c: int): int {
    var d := if c > 90 then c - 6 else c;
    (if d > 57 then d - 7 else d) - 46
  }

  predicate SaltBit(c: int, j: nat) {
    SaltValue(c) / Pow2(j) % 2 == 1
  }

  /** The first twelve entries change places with those 24 further on where the salt says so. */
  predicate Swaps(c0: int, c1: int, m: nat) {
    m < 12 && if m < 6 then SaltBit(c0, m) else SaltBit(c1, m - 6)
  }

  function SaltedEntry(c0: int, c1: int, k: nat): (x: int)
    requires k < 48
    ensures 1 <= x <= 32
  {
    if k < 24 then E0At(if Swaps(c0, c1, k) then k + 24 else k) else E0At(if Swaps(c0, c1, k - 24) then k - 24 else k)
  }

  /** The standard table under a salt is a selection table, so that all of the above holds of crypt(). */
  function Salted(c0: int, c1: int): Selector {
    seq(48, k requires 0 <= k < 48 => SaltedEntry(c0, c1, k))
  }

  lemma CryptUndoSalted(c0: int, c1: int, key: Block, b: Block, edflag: bool)
    ensures var e, ks := Salted(c0, c1), Schedule(key); Crypt(e, ks, Crypt(e, ks, b, edflag), !edflag) == b
    ensures var e := Salted(c0, c1);
            Crypt(e, Schedule(Not(key)), Not(b), edflag) == Not(Crypt(e, Schedule(key), b, edflag))
  {
    CryptUndo(Salted(c0, c1), Schedule(key), b, edflag);
    CryptNot(Salted(c0, c1), key, b, edflag);
  }
}
