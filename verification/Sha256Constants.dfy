/**
 * Where the numbers of SHA-256 come from (sections 4.2.2 and 5.3.3 of FIPS 180-4): each constant is the
 * first 32 bits after the point of a root of a prime. And what the bit functions do to each bit.
 */
module Sha256Constants {
  import opened Bytes
  import opened Sha256Spec

  /** The first 64 primes, four to a row. */
  const PRIMES: seq<seq<nat>> := [
    [2, 3, 5, 7],
    [11, 13, 17, 19],
    [23, 29, 31, 37],
    [41, 43, 47, 53],
    [59, 61, 67, 71],
    [73, 79, 83, 89],
    [97, 101, 103, 107],
    [109, 113, 127, 131],
    [137, 139, 149, 151],
    [157, 163, 167, 173],
    [179, 181, 191, 193],
    [197, 199, 211, 223],
    [227, 229, 233, 239],
    [241, 251, 257, 263],
    [269, 271, 277, 281],
    [283, 293, 307, 311]
  ]

  /** `w` is the first 32 bits after the point of the square root of `p`, whose whole part is `a`. */
  predicate SquareRootBits(w: u32, p: nat, a: nat) {
    var r := a * 0x1_0000_0000 + w;
    r * r <= p * 0x1_0000_0000_0000_0000 < (r + 1) * (r + 1)
  }

  /** The same of the cube root. */
  predicate CubeRootBits(w: u32, p: nat, a: nat) {
    var r := a * 0x1_0000_0000 + w;
    r * r * r <= p * 0x1_0000_0000_0000_0000_0000_0000 < (r + 1) * (r + 1) * (r + 1)
  }

  function CubeRoot(p: nat): nat {
    if p < 8 then 1 else if p < 27 then 2 else if p < 64 then 3 else if p < 125 then 4 else if p < 216 then 5 else 6
  }

  predicate RowRoots(row: seq<u32>, primes: seq<nat>) {
    && |row| == |primes| == 4
    && CubeRootBits(row[0], primes[0], CubeRoot(primes[0])) && CubeRootBits(row[1], primes[1], CubeRoot(primes[1]))
    && CubeRootBits(row[2], primes[2], CubeRoot(primes[2])) && CubeRootBits(row[3], primes[3], CubeRoot(primes[3]))
  }

  /** The initial chaining value: the square roots of the first eight primes. */
  lemma InitialIsRoots()
    ensures SquareRootBits(IV.a, 2, 1) && SquareRootBits(IV.b, 3, 1) && SquareRootBits(IV.c, 5, 2) && SquareRootBits(IV.d, 7, 2)
    ensures SquareRootBits(IV.e, 11, 3) && SquareRootBits(IV.f, 13, 3) && SquareRootBits(IV.g, 17, 4) && SquareRootBits(IV.h, 19, 4)
  {
  }

  lemma RootRows0()
    ensures RowRoots(K[0], PRIMES[0]) && RowRoots(K[1], PRIMES[1])
  {
  }

  lemma RootRows2()
    ensures RowRoots(K[2], PRIMES[2]) && RowRoots(K[3], PRIMES[3])
  {
  }

  lemma RootRows4()
    ensures RowRoots(K[4], PRIMES[4]) && RowRoots(K[5], PRIMES[5])
  {
  }

  lemma RootRows6()
    ensures RowRoots(K[6], PRIMES[6]) && RowRoots(K[7], PRIMES[7])
  {
  }

  lemma RootRows8()
    ensures RowRoots(K[8], PRIMES[8]) && RowRoots(K[9], PRIMES[9])
  {
  }

  lemma RootRows10()
    ensures RowRoots(K[10], PRIMES[10]) && RowRoots(K[11], PRIMES[11])
  {
  }

  lemma RootRows12()
    ensures RowRoots(K[12], PRIMES[12]) && RowRoots(K[13], PRIMES[13])
  {
  }

  lemma RootRows14()
    ensures RowRoots(K[14], PRIMES[14]) && RowRoots(K[15], PRIMES[15])
  {
  }

  /** Every round constant is the cube root of its prime. */
  lemma ConstantsAreRoots(i: nat)
    requires i < 64
    ensures |K| == |PRIMES| == 16 && |PRIMES[i / 4]| == 4
    ensures CubeRootBits(Constant(K, i), PRIMES[i / 4][i % 4], CubeRoot(PRIMES[i / 4][i % 4]))
  {
    RootRows0();
    RootRows2();
    RootRows4();
    RootRows6();
    RootRows8();
    RootRows10();
    RootRows12();
    RootRows14();
  }

  // ── the bit functions ────────────────────────────────────────────────────

  /** The four sums of rotations and shifts (section 4.1.2), each rotation spelled as two shifts. */
  function BigSigma0Shifts(v: bv32): bv32 { ((v >> 2) | (v << 30)) ^ ((v >> 13) | (v << 19)) ^ ((v >> 22) | (v << 10)) }

  function BigSigma1Shifts(v: bv32): bv32 { ((v >> 6) | (v << 26)) ^ ((v >> 11) | (v << 21)) ^ ((v >> 25) | (v << 7)) }

  function SmallSigma0Shifts(v: bv32): bv32 { ((v >> 7) | (v << 25)) ^ ((v >> 18) | (v << 14)) ^ (v >> 3) }

  function SmallSigma1Shifts(v: bv32): bv32 { ((v >> 17) | (v << 15)) ^ ((v >> 19) | (v << 13)) ^ (v >> 10) }

  lemma BigSigma0Rotates(v: bv32)
    ensures BigSigma0Shifts(v) == v.RotateRight(2) ^ v.RotateRight(13) ^ v.RotateRight(22)
  {
  }

  lemma BigSigma1Rotates(v: bv32)
    ensures BigSigma1Shifts(v) == v.RotateRight(6) ^ v.RotateRight(11) ^ v.RotateRight(25)
  {
  }

  lemma SmallSigma0Rotates(v: bv32)
    ensures SmallSigma0Shifts(v) == v.RotateRight(7) ^ v.RotateRight(18) ^ (v >> 3)
  {
  }

  lemma SmallSigma1Rotates(v: bv32)
    ensures SmallSigma1Shifts(v) == v.RotateRight(17) ^ v.RotateRight(19) ^ (v >> 10)
  {
  }

  lemma SigmasAre(x: u32)
    ensures BigSigma0(x) == BigSigma0Shifts(x as bv32) as int
    ensures BigSigma1(x) == BigSigma1Shifts(x as bv32) as int
    ensures SmallSigma0(x) == SmallSigma0Shifts(x as bv32) as int
    ensures SmallSigma1(x) == SmallSigma1Shifts(x as bv32) as int
  {
    BigSigma0Is(x);
    BigSigma1Is(x);
    SmallSigma0Is(x);
    SmallSigma1Is(x);
  }

  lemma BigSigma0Is(x: u32)
    ensures BigSigma0(x) == BigSigma0Shifts(x as bv32) as int
  {
    BigSigma0Rotates(x as bv32);
  }

  lemma BigSigma1Is(x: u32)
    ensures BigSigma1(x) == BigSigma1Shifts(x as bv32) as int
  {
    BigSigma1Rotates(x as bv32);
  }

  lemma SmallSigma0Is(x: u32)
    ensures SmallSigma0(x) == SmallSigma0Shifts(x as bv32) as int
  {
    SmallSigma0Rotates(x as bv32);
  }

  lemma SmallSigma1Is(x: u32)
    ensures SmallSigma1(x) == SmallSigma1Shifts(x as bv32) as int
  {
    SmallSigma1Rotates(x as bv32);
  }

  /** Where a bit of `x` is one, Ch has the bit of `y`, and elsewhere that of `z`. */
  lemma ChChooses(x: u32, y: u32, z: u32, u: bv32, v: bv32, w: bv32, c: bv32)
    requires u == x as bv32 && v == y as bv32 && w == z as bv32
    requires c & u == v & u && c & !u == w & !u
    ensures Ch(x, y, z) == c as int
  {
    Chosen(u, v, w, c);
  }

  lemma Chosen(u: bv32, v: bv32, w: bv32, c: bv32)
    requires c & u == v & u && c & !u == w & !u
    ensures (u & v) ^ (!u & w) == c
  {
  }

  /** Maj has a bit wherever two of the three have it. */
  lemma MajAgrees(x: u32, y: u32, z: u32, u: bv32, v: bv32, w: bv32)
    requires u == x as bv32 && v == y as bv32 && w == z as bv32
    ensures Maj(x, y, z) == ((u & v) | (w & (u | v))) as int
  {
    Agreed(u, v, w);
  }

  lemma Agreed(u: bv32, v: bv32, w: bv32)
    ensures (u & v) ^ (u & w) ^ (v & w) == (u & v) | (w & (u | v))
  {
  }
}
