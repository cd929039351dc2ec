/** The tables of software/libs/liborion_em_assembler/crypt.c, row by row as they are laid out there, and the fact
    that its two block permutations are inverse to each other. Entries of all but the selection functions count
    from 1. */
module DesTables {

  type Table = seq<seq<int>>

  /** t has `rows` rows of w entries, all in lo..hi. */
  predicate Shape(t: Table, rows: nat, w: nat, lo: int, hi: int) {
    |t| == rows && forall r :: 0 <= r < rows ==> |t[r]| == w && forall c :: 0 <= c < w ==> lo <= t[r][c] <= hi
  }

  const IP: Table := [
    [58, 50, 42, 34, 26, 18, 10, 2],
    [60, 52, 44, 36, 28, 20, 12, 4],
    [62, 54, 46, 38, 30, 22, 14, 6],
    [64, 56, 48, 40, 32, 24, 16, 8],
    [57, 49, 41, 33, 25, 17, 9, 1],
    [59, 51, 43, 35, 27, 19, 11, 3],
    [61, 53, 45, 37, 29, 21, 13, 5],
    [63, 55, 47, 39, 31, 23, 15, 7]
  ]

  const FP: Table := [
    [40, 8, 48, 16, 56, 24, 64, 32],
    [39, 7, 47, 15, 55, 23, 63, 31],
    [38, 6, 46, 14, 54, 22, 62, 30],
    [37, 5, 45, 13, 53, 21, 61, 29],
    [36, 4, 44, 12, 52, 20, 60, 28],
    [35, 3, 43, 11, 51, 19, 59, 27],
    [34, 2, 42, 10, 50, 18, 58, 26],
    [33, 1, 41, 9, 49, 17, 57, 25]
  ]

  const PC1_C: Table := [
    [57, 49, 41, 33, 25, 17, 9],
    [1, 58, 50, 42, 34, 26, 18],
    [10, 2, 59, 51, 43, 35, 27],
    [19, 11, 3, 60, 52, 44, 36]
  ]

  const PC1_D: Table := [
    [63, 55, 47, 39, 31, 23, 15],
    [7, 62, 54, 46, 38, 30, 22],
    [14, 6, 61, 53, 45, 37, 29],
    [21, 13, 5, 28, 20, 12, 4]
  ]

  const SHIFTS: Table := [
    [1, 1, 2, 2, 2, 2, 2, 2],
    [1, 2, 2, 2, 2, 2, 2, 1]
  ]

  const PC2_C: Table := [
    [14, 17, 11, 24, 1, 5],
    [3, 28, 15, 6, 21, 10],
    [23, 19, 12, 4, 26, 8],
    [16, 7, 27, 20, 13, 2]
  ]

  const PC2_D: Table := [
    [41, 52, 31, 37, 47, 55],
    [30, 40, 51, 45, 33, 48],
    [44, 49, 39, 56, 34, 53],
    [46, 42, 50, 36, 29, 32]
  ]

  const E0: Table := [
    [32, 1, 2, 3, 4, 5],
    [4, 5, 6, 7, 8, 9],
    [8, 9, 10, 11, 12, 13],
    [12, 13, 14, 15, 16, 17],
    [16, 17, 18, 19, 20, 21],
    [20, 21, 22, 23, 24, 25],
    [24, 25, 26, 27, 28, 29],
    [28, 29, 30, 31, 32, 1]
  ]

  const P: Table := [
    [16, 7, 20, 21],
    [29, 12, 28, 17],
    [1, 15, 23, 26],
    [5, 18, 31, 10],
    [2, 8, 24, 14],
    [32, 27, 3, 9],
    [19, 13, 30, 6],
    [22, 11, 4, 25]
  ]

  const S: seq<Table> := [
    [
      [14, 4, 13, 1, 2, 15, 11, 8, 3, 10, 6, 12, 5, 9, 0, 7],
      [0, 15, 7, 4, 14, 2, 13, 1, 10, 6, 12, 11, 9, 5, 3, 8],
      [4, 1, 14, 8, 13, 6, 2, 11, 15, 12, 9, 7, 3, 10, 5, 0],
      [15, 12, 8, 2, 4, 9, 1, 7, 5, 11, 3, 14, 10, 0, 6, 13]
    ],
    [
      [15, 1, 8, 14, 6, 11, 3, 4, 9, 7, 2, 13, 12, 0, 5, 10],
      [3, 13, 4, 7, 15, 2, 8, 14, 12, 0, 1, 10, 6, 9, 11, 5],
      [0, 14, 7, 11, 10, 4, 13, 1, 5, 8, 12, 6, 9, 3, 2, 15],
      [13, 8, 10, 1, 3, 15, 4, 2, 11, 6, 7, 12, 0, 5, 14, 9]
    ],
    [
      [10, 0, 9, 14, 6, 3, 15, 5, 1, 13, 12, 7, 11, 4, 2, 8],
      [13, 7, 0, 9, 3, 4, 6, 10, 2, 8, 5, 14, 12, 11, 15, 1],
      [13, 6, 4, 9, 8, 15, 3, 0, 11, 1, 2, 12, 5, 10, 14, 7],
      [1, 10, 13, 0, 6, 9, 8, 7, 4, 15, 14, 3, 11, 5, 2, 12]
    ],
    [
      [7, 13, 14, 3, 0, 6, 9, 10, 1, 2, 8, 5, 11, 12, 4, 15],
      [13, 8, 11, 5, 6, 15, 0, 3, 4, 7, 2, 12, 1, 10, 14, 9],
      [10, 6, 9, 0, 12, 11, 7, 13, 15, 1, 3, 14, 5, 2, 8, 4],
      [3, 15, 0, 6, 10, 1, 13, 8, 9, 4, 5, 11, 12, 7, 2, 14]
    ],
    [
      [2, 12, 4, 1, 7, 10, 11, 6, 8, 5, 3, 15, 13, 0, 14, 9],
      [14, 11, 2, 12, 4, 7, 13, 1, 5, 0, 15, 10, 3, 9, 8, 6],
      [4, 2, 1, 11, 10, 13, 7, 8, 15, 9, 12, 5, 6, 3, 0, 14],
      [11, 8, 12, 7, 1, 14, 2, 13, 6, 15, 0, 9, 10, 4, 5, 3]
    ],
    [
      [12, 1, 10, 15, 9, 2, 6, 8, 0, 13, 3, 4, 14, 7, 5, 11],
      [10, 15, 4, 2, 7, 12, 9, 5, 6, 1, 13, 14, 0, 11, 3, 8],
      [9, 14, 15, 5, 2, 8, 12, 3, 7, 0, 4, 10, 1, 13, 11, 6],
      [4, 3, 2, 12, 9, 5, 15, 10, 11, 14, 1, 7, 6, 0, 8, 13]
    ],
    [
      [4, 11, 2, 14, 15, 0, 8, 13, 3, 12, 9, 7, 5, 10, 6, 1],
      [13, 0, 11, 7, 4, 9, 1, 10, 14, 3, 5, 12, 2, 15, 8, 6],
      [1, 4, 11, 13, 12, 3, 7, 14, 10, 15, 6, 8, 0, 5, 9, 2],
      [6, 11, 13, 8, 1, 4, 10, 7, 9, 5, 0, 15, 14, 2, 3, 12]
    ],
    [
      [13, 2, 8, 4, 6, 15, 11, 1, 10, 9, 3, 14, 5, 0, 12, 7],
      [1, 15, 13, 8, 10, 3, 7, 4, 12, 5, 6, 11, 0, 14, 9, 2],
      [7, 11, 4, 1, 9, 12, 14, 2, 0, 6, 10, 13, 15, 3, 5, 8],
      [2, 1, 14, 7, 4, 10, 8, 13, 15, 12, 9, 0, 3, 5, 6, 11]
    ]
  ]

  function Ip(j: nat): (x: int)
    requires j < 64
    ensures 1 <= x <= 64
  {
    assert Shape(IP, 8, 8, 1, 64);
    IP[j / 8][j % 8]
  }

  function Fp(j: nat): (x: int)
    requires j < 64
    ensures 1 <= x <= 64
  {
    assert Shape(FP, 8, 8, 1, 64);
    FP[j / 8][j % 8]
  }

  function Pc1C(j: nat): (x: int)
    requires j < 28
    ensures 1 <= x <= 64
  {
    assert Shape(PC1_C, 4, 7, 1, 64);
    PC1_C[j / 7][j % 7]
  }

  function Pc1D(j: nat): (x: int)
    requires j < 28
    ensures 1 <= x <= 64
  {
    assert Shape(PC1_D, 4, 7, 1, 64);
    PC1_D[j / 7][j % 7]
  }

  function Shift(j: nat): (x: int)
    requires j < 16
    ensures 1 <= x <= 2
  {
    assert Shape(SHIFTS, 2, 8, 1, 2);
    SHIFTS[j / 8][j % 8]
  }

  function Pc2C(j: nat): (x: int)
    requires j < 24
    ensures 1 <= x <= 28
  {
    assert Shape(PC2_C, 4, 6, 1, 28);
    PC2_C[j / 6][j % 6]
  }

  function Pc2D(j: nat): (x: int)
    requires j < 24
    ensures 29 <= x <= 56
  {
    assert Shape(PC2_D, 4, 6, 29, 56);
    PC2_D[j / 6][j % 6]
  }

  function E0At(j: nat): (x: int)
    requires j < 48
    ensures 1 <= x <= 32
  {
    assert Shape(E0, 8, 6, 1, 32);
    E0[j / 6][j % 6]
  }

  function PAt(j: nat): (x: int)
    requires j < 32
    ensures 1 <= x <= 32
  {
    assert Shape(P, 8, 4, 1, 32);
    P[j / 4][j % 4]
  }

  /** Selection function i. */
  function Sel(i: nat, k: nat): int
    requires i < 8 && k < 64
  {
    assert |S| == 8 && |S[i]| == 4 && |S[i][k / 16]| == 16;
    S[i][k / 16][k % 16]
  }

  lemma IpForm(r: nat, c: nat)
    requires r < 8 && c < 8
    ensures Ip(8 * r + c) == (if r < 4 then 58 else 49) + 2 * r - 8 * c
  {
    assert (8 * r + c) / 8 == r && (8 * r + c) % 8 == c;
    assert IP[r][c] == (if r < 4 then 58 else 49) + 2 * r - 8 * c;
  }

  lemma FpForm(r: nat, c: nat)
    requires r < 8 && c < 8
    ensures Fp(8 * r + c) == (if c % 2 == 0 then 40 else 4) + 4 * c - r
  {
    assert (8 * r + c) / 8 == r && (8 * r + c) % 8 == c;
    assert FP[r][c] == (if c % 2 == 0 then 40 else 4) + 4 * c - r;
  }

  lemma IpOfFp(r: nat, c: nat)
    requires r < 8 && c < 8
    ensures Ip(Fp(8 * r + c) - 1) == 8 * r + c + 1
  {
    FpForm(r, c);
    var r', c' := if c % 2 == 0 then 4 + c / 2 else c / 2, 7 - r;
    IpForm(r', c');
    assert Fp(8 * r + c) - 1 == 8 * r' + c';
  }

  lemma FpBack(r: nat, c: nat, p: nat)
    requires r < 8 && c < 8 && p + 1 == (if r < 4 then 58 else 49) + 2 * r - 8 * c
    ensures p < 64 && Fp(p) == 8 * r + c + 1
  {
    FpAt(7 - c, if r < 4 then 2 * r + 1 else 2 * (r - 4), p);
  }

  lemma FpAt(r: nat, c: nat, p: nat)
    requires r < 8 && c < 8 && p == 8 * r + c
    ensures p < 64 && Fp(p) == (if c % 2 == 0 then 40 else 4) + 4 * c - r
  {
    FpForm(r, c);
  }

  lemma FpOfIp(r: nat, c: nat)
    requires r < 8 && c < 8
    ensures Fp(Ip(8 * r + c) - 1) == 8 * r + c + 1
  {
    IpForm(r, c);
    FpBack(r, c, Ip(8 * r + c) - 1);
  }

  /** FP undoes IP and IP undoes FP. */
  lemma Inverse(j: nat)
    requires j < 64
    ensures Ip(Fp(j) - 1) == j + 1 && Fp(Ip(j) - 1) == j + 1
  {
    IpOfFp(j / 8, j % 8);
    FpOfIp(j / 8, j % 8);
  }
}
