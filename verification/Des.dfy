/** software/libs/liborion_em_assembler/crypt.c: setkey and encrypt over their static arrays. L and R are one array
    of 64 cells, as the source assumes when it indexes L up to 63. */
module Des {
  import opened DesTables
  import opened Arithmetic
  import opened DesSpec

  class Machine {
    const C: array<Bit>
    const D: array<Bit>
    const KS: array2<Bit>
    const E: array<int>
    const LR: array<Bit>
    const tempL: array<Bit>
    const f: array<Bit>
    const preS: array<Bit>

    /** The static arrays: sizes, and that they are different arrays. */
    ghost predicate Valid() {
      && C.Length == D.Length == 28 && C != D
      && KS.Length0 == 16 && KS.Length1 == 48 && E.Length == 48
      && LR.Length == 64 && tempL.Length == f.Length == 32 && preS.Length == 48
      && LR != tempL && LR != f && LR != preS && tempL != f && tempL != preS && f != preS
      && LR != C && LR != D && tempL != C && tempL != D && f != C && f != D && preS != C && preS != D
    }

    constructor ()
      ensures Valid() && fresh({C, D, LR, tempL, f, preS}) && fresh(KS) && fresh(E)
    {
      C, D := new Bit[28](_ => 0), new Bit[28](_ => 0);
      KS := new Bit[16, 48]((_, _) => 0);
      E := new int[48](_ => 1);
      LR := new Bit[64](_ => 0);
      tempL, f, preS := new Bit[32](_ => 0), new Bit[32](_ => 0), new Bit[48](_ => 0);
    }

    /** The rows of KS are the keys ks. */
    ghost predicate Keys(ks: seq<Key>)
      reads KS
    {
      KS.Length0 == 16 && KS.Length1 == 48 && |ks| == 16 && forall i :: 0 <= i < 16 ==> Row(i, ks[i])
    }

    ghost predicate Row(i: nat, k: Key)
      requires i < KS.Length0 && KS.Length1 == 48
      reads KS
    {
      forall j :: 0 <= j < 48 ==> KS[i, j] == k[j]
    }

    // ---------------------------------------------------------- setkey

    /** One rotation of a half key by one place, cell after cell. */
    method Rotate(c: array<Bit>)
      requires c.Length == 28
      modifies c
      ensures c[..] == Rotated(old(c[..]))
    {
      ghost var s := c[..];
      var t := c[0];
      for j := 0 to 27
        invariant forall k :: 0 <= k < j ==> c[k] == s[k + 1]
        invariant forall k :: j <= k < 28 ==> c[k] == s[k]
      {
        c[j] := c[j + 1];
      }
      c[27] := t;
    }

    /** Row i of KS, picked from C and D. */
    method Pick(i: nat)
      requires Valid() && i < 16
      modifies KS
      ensures Row(i, Picked(C[..], D[..]))
      ensures forall i', j :: 0 <= i' < 16 && 0 <= j < 48 && i' != i ==> KS[i', j] == old(KS[i', j])
    {
      ghost var key := Picked(C[..], D[..]);
      for j := 0 to 24
        invariant forall k :: 0 <= k < j || 24 <= k < 24 + j ==> KS[i, k] == key[k]
        invariant forall i', k :: 0 <= i' < 16 && 0 <= k < 48 && i' != i ==> KS[i', k] == old(KS[i', k])
      {
        PickedPair(C[..], D[..], j);
        KS[i, j] := C[Pc2C(j) - 1];
        KS[i, j + 24] := D[Pc2D(j) - 28 - 1];
      }
    }

    method LoadKey(key: array<Bit>)
      requires Valid() && key.Length >= 64 && key != C && key != D
      modifies C, D
      ensures C[..] == KeyC(key[..64]) && D[..] == KeyD(key[..64])
    {
      for i := 0 to 28
        invariant forall k :: 0 <= k < i ==> C[k] == key[Pc1C(k) - 1] && D[k] == key[Pc1D(k) - 1]
      {
        C[i] := key[Pc1C(i) - 1];
        D[i] := key[Pc1D(i) - 1];
      }
    }

    method Turn(n: nat, ghost c: Bits, ghost d: Bits, ghost turns: nat)
      requires Valid() && C[..] == Rotations(c, turns) && D[..] == Rotations(d, turns)
      modifies C, D
      ensures C[..] == Rotations(c, turns + n) && D[..] == Rotations(d, turns + n)
    {
      for k := 0 to n
        invariant C[..] == Rotations(c, turns + k) && D[..] == Rotations(d, turns + k)
      {
        Rotate(C);
        Rotate(D);
      }
    }

    method Setkey(key: array<Bit>)
      requires Valid() && key.Length >= 64 && key != C && key != D
      modifies C, D, KS
      ensures Keys(Schedule(key[..64]))
    {
      LoadKey(key);
      AllRows(C[..], D[..]);
      assert forall i :: 0 <= i < 16 ==> Schedule(key[..64])[i] == RoundKey(KeyC(key[..64]), KeyD(key[..64]), i);
    }

    /** The sixteen keys from the halves c and d. */
    method AllRows(ghost c: Bits, ghost d: Bits)
      requires Valid() && C[..] == c && D[..] == d && |c| == |d| == 28
      modifies C, D, KS
      ensures forall k :: 0 <= k < 16 ==> Row(k, RoundKey(c, d, k))
    {
      for i := 0 to 16
        invariant C[..] == Rotations(c, Before(i)) && D[..] == Rotations(d, Before(i))
        invariant forall k :: 0 <= k < i ==> Row(k, RoundKey(c, d, k))
      {
        label start:
        KeyRow(i, c, d);
        forall k | 0 <= k < i ensures Row(k, RoundKey(c, d, k)) {
          assert old@start(Row(k, RoundKey(c, d, k)));
        }
      }
    }

    /** The rotations made when i keys are picked. */
    ghost function Before(i: nat): nat
      requires i <= 16
    {
      if i == 0 then 0 else Turns(i - 1)
    }

    /** Row i, as its key; the other rows stay. */
    method PickRow(i: nat, ghost key: Key)
      requires Valid() && i < 16 && key == Picked(C[..], D[..])
      modifies KS
      ensures Row(i, key)
      ensures forall k, j :: 0 <= k < 16 && 0 <= j < 48 && k != i ==> KS[k, j] == old(KS[k, j])
    {
      Pick(i);
    }

    lemma NextTurns(i: nat)
      requires i < 16
      ensures Before(i + 1) == Before(i) + Shift(i) == Turns(i)
    {
    }

    /** The rotations before key i is picked. */
    method TurnTo(i: nat, ghost c: Bits, ghost d: Bits)
      requires Valid() && i < 16 && C[..] == Rotations(c, Before(i)) && D[..] == Rotations(d, Before(i))
      modifies C, D
      ensures C[..] == Rotations(c, Turns(i)) && D[..] == Rotations(d, Turns(i))
    {
      NextTurns(i);
      Turn(Shift(i), c, d, Before(i));
    }

    method KeyRow(i: nat, ghost c: Bits, ghost d: Bits)
      requires Valid() && i < 16 && C[..] == Rotations(c, Before(i)) && D[..] == Rotations(d, Before(i))
      modifies C, D, KS
      ensures C[..] == Rotations(c, Before(i + 1)) && D[..] == Rotations(d, Before(i + 1)) && |c| == |d| == 28
      ensures Row(i, RoundKey(c, d, i))
      ensures forall k, j :: 0 <= k < 16 && 0 <= j < 48 && k != i ==> KS[k, j] == old(KS[k, j])
    {
      TurnTo(i, c, d);
      ghost var ci, di := C[..], D[..];
      RoundKeyIs(c, d, i, ci, di);
      PickRow(i, RoundKey(c, d, i));
      assert C[..] == ci && D[..] == di;
      NextTurns(i);
    }

    // ---------------------------------------------------------- encrypt

    /** The current block as its two halves. */
    ghost function Now(): Halves
      requires LR.Length == 64
      reads LR
    {
      Halves(LR[..32], LR[32..])
    }

    ghost predicate Selecting()
      reads E
    {
      E.Length == 48 && forall j :: 0 <= j < 48 ==> 1 <= E[j] <= 32
    }

    /** The standard table E0 and then the exchanges that the salt of crypt() makes, character after character. */
    method LoadSelector(salt: seq<int>)
      requires Valid() && |salt| == 2
      modifies E
      ensures Selecting() && E[..] == Salted(salt[0], salt[1])
    {
      LoadStandard(salt);
      for i := 0 to 2
        invariant Exchanged(salt, 6 * i)
      {
        var c := salt[i];
        if c > 90 {
          c := c - 6;
        }
        if c > 57 {
          c := c - 7;
        }
        c := c - 46;
        for j := 0 to 6
          invariant Exchanged(salt, 6 * i + j)
        {
          ExchangeEntry(i, j, c, salt);
        }
      }
      AllExchanged(salt);
    }

    method LoadStandard(ghost salt: seq<int>)
      requires E.Length == 48 && |salt| == 2
      modifies E
      ensures Exchanged(salt, 0)
    {
      for i := 0 to 48
        invariant forall k :: 0 <= k < i ==> E[k] == E0At(k)
      {
        E[i] := E0At(i);
      }
      forall k {:trigger Entry(E[..], salt, 0, k)} | 0 <= k < 24 ensures Entry(E[..], salt, 0, k) {
      }
    }

    method ExchangeEntry(i: nat, j: nat, c: int, ghost salt: seq<int>)
      requires i < 2 && j < 6 && |salt| == 2 && c == SaltValue(salt[i]) && Exchanged(salt, 6 * i + j)
      modifies E
      ensures Exchanged(salt, 6 * i + j + 1)
    {
      var m := 6 * i + j;
      ghost var was := E[..];
      assert Entry(was, salt, m, m);
      Position(i, j, c, salt);
      if c / Pow2(j) % 2 == 1 {
        E[m], E[m + 24] := E[m + 24], E[m];
      }
      forall k {:trigger Entry(E[..], salt, m + 1, k)} | 0 <= k < 24 ensures Entry(E[..], salt, m + 1, k) {
        assert Entry(was, salt, m, k);
      }
    }

    lemma Position(i: nat, j: nat, c: int, salt: seq<int>)
      requires i < 2 && j < 6 && |salt| == 2 && c == SaltValue(salt[i])
      ensures Swaps(salt[0], salt[1], 6 * i + j) <==> c / Pow2(j) % 2 == 1
    {
      assert Swaps(salt[0], salt[1], 6 * i + j) <==> SaltBit(salt[i], j) by {
        assert if i == 0 then 6 * i + j == j else 6 * i + j - 6 == j;
      }
    }

    lemma AllExchanged(salt: seq<int>)
      requires |salt| == 2 && Exchanged(salt, 12)
      ensures Selecting() && E[..] == Salted(salt[0], salt[1])
    {
      forall k | 0 <= k < 48 ensures E[k] == SaltedEntry(salt[0], salt[1], k) {
        assert Entry(E[..], salt, 12, if k < 24 then k else k - 24);
      }
    }

    /** The first n exchanges are made. */
    ghost predicate Exchanged(salt: seq<int>, n: nat)
      requires |salt| == 2
      reads E
    {
      E.Length == 48 && forall k {:trigger Entry(E[..], salt, n, k)} :: 0 <= k < 24 ==> Entry(E[..], salt, n, k)
    }

    /** So stand the two entries of which exchange k is about. */
    ghost predicate Entry(e: seq<int>, salt: seq<int>, n: nat, k: nat)
      requires |salt| == 2 && k < 24 && |e| == 48
    {
      if k < n && Swaps(salt[0], salt[1], k) then e[k] == E0At(k + 24) && e[k + 24] == E0At(k)
      else e[k] == E0At(k) && e[k + 24] == E0At(k + 24)
    }

    method Load(block: array<Bit>)
      requires Valid() && block.Length >= 64 && block != LR
      modifies LR
      ensures Now() == Permuted(block[..64])
    {
      for j := 0 to 64
        invariant forall k :: 0 <= k < j ==> LR[k] == block[Ip(k) - 1]
      {
        LR[j] := block[Ip(j) - 1];
      }
      assert forall k :: 0 <= k < 32 ==> LR[..32][k] == LR[k] && LR[32..][k] == LR[32 + k];
    }

    /** preS: the expanded half exclusive-or the key bits. */
    method PreSelect(i: nat, ghost key: Key)
      requires Valid() && Selecting() && i < 16 && Row(i, key)
      modifies preS
      ensures preS[..] == PreS(E[..], Now().r, key)
    {
      for j := 0 to 48
        invariant forall k :: 0 <= k < j ==> preS[k] == Xor(LR[32 + E[k] - 1], KS[i, k])
      {
        preS[j] := Xor(LR[32 + E[j] - 1], KS[i, j]);
      }
    }

    /** Selection j, four bits. */
    method SelectOne(j: nat)
      requires Valid() && j < 8
      modifies f
      ensures forall q :: 0 <= q < 4 ==> f[4 * j + q] == SelectedBit(preS[..], j, q)
      ensures forall m :: 0 <= m < 4 * j || 4 * j + 4 <= m < 32 ==> f[m] == old(f[m])
    {
      var t := 6 * j;
      IndexIs(preS[..], j);
      var n := Mixed(preS[t], preS[t + 1], preS[t + 2], preS[t + 3], preS[t + 4], preS[t + 5]);
      var k := Sel(j, n);
      SelectedIs(preS[..], j);
      PutBits(4 * j, k);
    }

    method PutBits(t: nat, k: int)
      requires t + 4 <= f.Length
      modifies f
      ensures f[t] == k / 8 % 2 && f[t + 1] == k / 4 % 2 && f[t + 2] == k / 2 % 2 && f[t + 3] == k % 2
      ensures forall m :: 0 <= m < t || t + 4 <= m < f.Length ==> f[m] == old(f[m])
    {
      f[t] := k / 8 % 2;
      f[t + 1] := k / 4 % 2;
      f[t + 2] := k / 2 % 2;
      f[t + 3] := k % 2;
    }

    /** The eight selections. */
    method Select()
      requires Valid()
      modifies f
      ensures f[..] == AllSelected(preS[..])
    {
      for j := 0 to 8
        invariant forall m :: 0 <= m < 4 * j ==> f[m] == Selected(preS[..], m)
      {
        SelectOne(j);
        SelectedGroup(preS[..], j);
        forall m | 4 * j <= m < 4 * j + 4 ensures f[m] == Selected(preS[..], m) {
          assert f[4 * j + (m - 4 * j)] == SelectedBit(preS[..], j, m - 4 * j);
        }
      }
    }

    /** R becomes L exclusive-or the permuted f, L becomes the R saved in tempL. */
    method Mix()
      requires Valid()
      modifies LR
      ensures LR[..32] == tempL[..] && LR[32..] == XorHalf(old(LR[..32]), PermuteF(f[..]))
    {
      ghost var s := LR[..];
      for j := 0 to 32
        invariant forall k :: 0 <= k < 32 ==> LR[k] == s[k]
        invariant forall k :: 32 <= k < 32 + j ==> LR[k] == Xor(s[k - 32], f[PAt(k - 32) - 1])
      {
        LR[32 + j] := Xor(LR[j], f[PAt(j) - 1]);
      }
      for j := 0 to 32
        invariant forall k :: 0 <= k < j ==> LR[k] == tempL[k]
        invariant forall k :: 32 <= k < 64 ==> LR[k] == Xor(s[k - 32], f[PAt(k - 32) - 1])
      {
        LR[j] := tempL[j];
      }
    }

    method OneRound(i: nat, ghost key: Key)
      requires Valid() && Selecting() && i < 16 && Row(i, key)
      modifies LR, tempL, f, preS
      ensures Now() == Round(E[..], key, old(Now()))
    {
      SaveR();
      PreSelect(i, key);
      Select();
      Mix();
    }

    method SaveR()
      requires Valid()
      modifies tempL
      ensures tempL[..] == LR[32..]
    {
      for j := 0 to 32
        invariant forall k :: 0 <= k < j ==> tempL[k] == LR[32 + k]
      {
        tempL[j] := LR[32 + j];
      }
    }

    method ExchangeHalves()
      requires Valid()
      modifies LR
      ensures Now() == Swap(old(Now()))
    {
      ghost var s := LR[..];
      for j := 0 to 32
        invariant forall k :: 0 <= k < j ==> LR[k] == s[32 + k]
        invariant forall k :: 32 <= k < 32 + j ==> LR[k] == s[k - 32]
        invariant forall k :: j <= k < 32 ==> LR[k] == s[k]
        invariant forall k :: 32 + j <= k < 64 ==> LR[k] == s[k]
      {
        var t := LR[j];
        LR[j] := LR[32 + j];
        LR[32 + j] := t;
      }
    }

    method Store(block: array<Bit>)
      requires Valid() && block.Length >= 64 && block != LR
      modifies block
      ensures block[..64] == Unpermuted(Now()) && block[64..] == old(block[64..])
    {
      ghost var rest := block[64..];
      for j := 0 to 64
        invariant forall k :: 0 <= k < j ==> block[k] == LR[Fp(k) - 1]
        invariant block[64..] == rest
      {
        block[j] := LR[Fp(j) - 1];
      }
      assert Now().l + Now().r == LR[..];
    }

    /** The sixteen rounds, with the keys from the first or from the last. */
    method AllRounds(edflag: bool, ghost ks: seq<Key>)
      requires Valid() && Selecting() && Keys(ks)
      modifies LR, tempL, f, preS
      ensures Now() == Rounds(E[..], if edflag then Reverse(ks) else ks, old(Now()))
    {
      ghost var order := if edflag then Reverse(ks) else ks;
      ghost var h := Now();
      for ii := 0 to 16
        invariant Now() == Rounds(E[..], order[..ii], h)
      {
        var i := if edflag then 15 - ii else ii;
        assert Row(i, ks[i]) && order[ii] == ks[i];
        OneRound(i, order[ii]);
        RoundsNext(E[..], order, ii, h);
      }
      assert order[..16] == order;
    }

    /** encrypt, with the keys ks in KS. */
    method Encrypt(block: array<Bit>, edflag: bool, ghost ks: seq<Key>)
      requires Valid() && Selecting() && Keys(ks) && block.Length >= 64
      requires block != LR && block != tempL && block != f && block != preS
      modifies LR, tempL, f, preS, block
      ensures block[..64] == Crypt(E[..], ks, old(block[..64]), edflag)
      ensures block[64..] == old(block[64..])
    {
      ghost var b := block[..64];
      Load(block);
      AllRounds(edflag, ks);
      ExchangeHalves();
      assert block[64..] == old(block[..])[64..];
      Store(block);
    }
  }
}
