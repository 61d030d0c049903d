/**
 SHA-256 as FIPS 180-4 defines it: the functions of section 4.1.2, the constants of 4.2.2 and
 5.3.3, the padding of 5.1.1 and the computation of 6.2.2.
 */
module Sha256Spec {
  type Word = bv32

  // ----- Functions (section 4.1.2) -----

  // Addition modulo 2^32.
  function Add(x: Word, y: Word): Word {
    x + y
  }

  function Ch(x: Word, y: Word, z: Word): Word {
    (x & y) ^ (!x & z)
  }

  function Maj(x: Word, y: Word, z: Word): Word {
    (x & y) ^ (x & z) ^ (y & z)
  }

  function BigSigma0(x: Word): Word {
    x.RotateRight(2) ^ x.RotateRight(13) ^ x.RotateRight(22)
  }

  function BigSigma1(x: Word): Word {
    x.RotateRight(6) ^ x.RotateRight(11) ^ x.RotateRight(25)
  }

  function SmallSigma0(x: Word): Word {
    x.RotateRight(7) ^ x.RotateRight(18) ^ (x >> 3)
  }

  function SmallSigma1(x: Word): Word {
    x.RotateRight(17) ^ x.RotateRight(19) ^ (x >> 10)
  }

  // ----- Constants -----

  type Fraction = n: nat | n < 0x1_0000_0000

  const K: seq<seq<Fraction>> := [
    [0x428a2f98, 0x71374491, 0xb5c0fbcf, 0xe9b5dba5, 0x3956c25b, 0x59f111f1, 0x923f82a4, 0xab1c5ed5],
    [0xd807aa98, 0x12835b01, 0x243185be, 0x550c7dc3, 0x72be5d74, 0x80deb1fe, 0x9bdc06a7, 0xc19bf174],
    [0xe49b69c1, 0xefbe4786, 0x0fc19dc6, 0x240ca1cc, 0x2de92c6f, 0x4a7484aa, 0x5cb0a9dc, 0x76f988da],
    [0x983e5152, 0xa831c66d, 0xb00327c8, 0xbf597fc7, 0xc6e00bf3, 0xd5a79147, 0x06ca6351, 0x14292967],
    [0x27b70a85, 0x2e1b2138, 0x4d2c6dfc, 0x53380d13, 0x650a7354, 0x766a0abb, 0x81c2c92e, 0x92722c85],
    [0xa2bfe8a1, 0xa81a664b, 0xc24b8b70, 0xc76c51a3, 0xd192e819, 0xd6990624, 0xf40e3585, 0x106aa070],
    [0x19a4c116, 0x1e376c08, 0x2748774c, 0x34b0bcb5, 0x391c0cb3, 0x4ed8aa4a, 0x5b9cca4f, 0x682e6ff3],
    [0x748f82ee, 0x78a5636f, 0x84c87814, 0x8cc70208, 0x90befffa, 0xa4506ceb, 0xbef9a3f7, 0xc67178f2]
  ]

  function Constant(t: nat): Word
    requires t < 64
  {
    AsWord(K[t / 8][t % 8])
  }

  function AsWord(n: Fraction): Word {
    n as bv32
  }

  datatype State = State(a: Word, b: Word, c: Word, d: Word, e: Word, f: Word, g: Word, h: Word)

  const H0: State := State(0x6a09e667, 0xbb67ae85, 0x3c6ef372, 0xa54ff53a, 0x510e527f, 0x9b05688c,
                            0x1f83d9ab, 0x5be0cd19)

  // ----- Padding (section 5.1.1, in bytes) -----

  function Zeros(n: nat): (z: seq<bv8>)
    ensures |z| == n
  {
    seq(n, _ => 0)
  }

  // The smallest number of zero bytes that fills the last block.
  function Filling(n: nat): (k: nat)
    ensures k < 64 && (n + 1 + k + 8) % 64 == 0
  {
    (119 - n % 64) % 64
  }

  function Byte(v: nat): bv8 {
    (v % 256) as bv8
  }

  // The length in bits as eight bytes, the highest first.
  function LengthBytes(bits: nat): (r: seq<bv8>)
    ensures |r| == 8
  {
    [Byte(bits / 0x100_0000_0000_0000), Byte(bits / 0x1_0000_0000_0000), Byte(bits / 0x100_0000_0000),
     Byte(bits / 0x1_0000_0000), Byte(bits / 0x100_0000), Byte(bits / 0x1_0000), Byte(bits / 0x100), Byte(bits)]
  }

  function Pad(m: seq<bv8>): (p: seq<bv8>)
    ensures |p| % 64 == 0
  {
    m + [0x80] + Zeros(Filling(|m|)) + LengthBytes(8 * |m|)
  }

  // ----- One block (section 6.2.2) -----

  function Load(b: seq<bv8>, i: nat): Word
    requires 4 * i + 4 <= |b|
  {
    ((b[4 * i] as bv32) << 24) | ((b[4 * i + 1] as bv32) << 16) | ((b[4 * i + 2] as bv32) << 8) | (b[4 * i + 3] as bv32)
  }

  // The message schedule.
  function Schedule(block: seq<bv8>, t: nat): Word
    requires |block| == 64
  {
    if t < 16 then Load(block, t)
    else
      var recent := Add(SmallSigma1(Schedule(block, t - 2)), Schedule(block, t - 7));
      Add(Add(recent, SmallSigma0(Schedule(block, t - 15))), Schedule(block, t - 16))
  }

  function Round(s: State, k: Word, w: Word): State {
    var t1 := Add(Add(Add(Add(s.h, BigSigma1(s.e)), Ch(s.e, s.f, s.g)), k), w);
    var t2 := Add(BigSigma0(s.a), Maj(s.a, s.b, s.c));
    State(Add(t1, t2), s.a, s.b, s.c, Add(s.d, t1), s.e, s.f, s.g)
  }

  function Rounds(s: State, block: seq<bv8>, t: nat): State
    requires |block| == 64 && t <= 64
  {
    if t == 0 then s else Round(Rounds(s, block, t - 1), Constant(t - 1), Schedule(block, t - 1))
  }

  function Compress(s: State, block: seq<bv8>): State
    requires |block| == 64
  {
    var r := Rounds(s, block, 64);
    State(Add(s.a, r.a), Add(s.b, r.b), Add(s.c, r.c), Add(s.d, r.d),
          Add(s.e, r.e), Add(s.f, r.f), Add(s.g, r.g), Add(s.h, r.h))
  }

  // ----- The message, block by block -----

  function Blocks(p: seq<bv8>): State
    requires |p| % 64 == 0
  {
    if p == [] then H0 else Compress(Blocks(p[..|p| - 64]), p[|p| - 64..])
  }

  function Store(x: Word): (r: seq<bv8>)
    ensures |r| == 4
  {
    [((x >> 24) & 255) as bv8, ((x >> 16) & 255) as bv8, ((x >> 8) & 255) as bv8, (x & 255) as bv8]
  }

  function StoreAll(words: seq<Word>): (r: seq<bv8>)
    ensures |r| == 4 * |words|
  {
    if words == [] then [] else StoreAll(words[..|words| - 1]) + Store(words[|words| - 1])
  }

  lemma {:induction false} StoreOneMore(words: seq<Word>, i: nat)
    requires i < |words|
    ensures StoreAll(words[..0]) == [] && StoreAll(words[..i + 1]) == StoreAll(words[..i]) + Store(words[i])
  {
    assert words[..i + 1][..i] == words[..i];
  }

  function Digest(s: State): (r: seq<bv8>)
    ensures |r| == 32
  {
    StoreAll([s.a, s.b, s.c, s.d, s.e, s.f, s.g, s.h])
  }

  function Sha256(m: seq<bv8>): (r: seq<bv8>)
    ensures |r| == 32
  {
    Digest(Blocks(Pad(m)))
  }

  // ----- That these are the right definitions -----

  lemma FillingIsSmallest(n: nat, j: nat)
    requires (n + 1 + j + 8) % 64 == 0
    ensures Filling(n) <= j
  {
    var k := n % 64 + 9 + j;
    assert k % 64 == 0;
    assert k >= 64 && (k >= 128 || k == 64);
  }

  // Bytes of a word, and back.
  lemma StoreInverts(x: Word)
    ensures Load(Store(x), 0) == x
  {
  }

  // ----- Where the constants come from -----

  // The first 32 bits of the fraction of the cube root of a prime.
  predicate CubeRoot(k: Fraction, whole: nat, prime: nat) {
    var x := whole * 0x1_0000_0000 + k;
    x * x * x <= prime * 0x1_0000_0000_0000_0000_0000_0000 < (x + 1) * (x + 1) * (x + 1)
  }

  // The same of a square root.
  predicate SquareRoot(h: Word, whole: nat, prime: nat) {
    var x := whole * 0x1_0000_0000 + h as int;
    x * x <= prime * 0x1_0000_0000_0000_0000 < (x + 1) * (x + 1)
  }

  lemma InitialStateIsSquareRoots()
    ensures SquareRoot(H0.a, 1, 2) && SquareRoot(H0.b, 1, 3) && SquareRoot(H0.c, 2, 5) && SquareRoot(H0.d, 2, 7)
    ensures SquareRoot(H0.e, 3, 11) && SquareRoot(H0.f, 3, 13) && SquareRoot(H0.g, 4, 17) && SquareRoot(H0.h, 4, 19)
  {
  }

  // The 64 of them are those of the first 64 primes, a row at a time.

  lemma ConstantsOfRow0()
    ensures CubeRoot(K[0][0], 1, 2) && CubeRoot(K[0][1], 1, 3) && CubeRoot(K[0][2], 1, 5) && CubeRoot(K[0][3], 1, 7)
    ensures CubeRoot(K[0][4], 2, 11) && CubeRoot(K[0][5], 2, 13) && CubeRoot(K[0][6], 2, 17) && CubeRoot(K[0][7], 2, 19)
  {
  }

  lemma ConstantsOfRow1()
    ensures CubeRoot(K[1][0], 2, 23) && CubeRoot(K[1][1], 3, 29) && CubeRoot(K[1][2], 3, 31) && CubeRoot(K[1][3], 3, 37)
    ensures CubeRoot(K[1][4], 3, 41) && CubeRoot(K[1][5], 3, 43) && CubeRoot(K[1][6], 3, 47) && CubeRoot(K[1][7], 3, 53)
  {
  }

  lemma ConstantsOfRow2()
    ensures CubeRoot(K[2][0], 3, 59) && CubeRoot(K[2][1], 3, 61) && CubeRoot(K[2][2], 4, 67) && CubeRoot(K[2][3], 4, 71)
    ensures CubeRoot(K[2][4], 4, 73) && CubeRoot(K[2][5], 4, 79) && CubeRoot(K[2][6], 4, 83) && CubeRoot(K[2][7], 4, 89)
  {
  }

  lemma ConstantsOfRow3()
    ensures CubeRoot(K[3][0], 4, 97) && CubeRoot(K[3][1], 4, 101) &&
            CubeRoot(K[3][2], 4, 103) && CubeRoot(K[3][3], 4, 107)
    ensures CubeRoot(K[3][4], 4, 109) && CubeRoot(K[3][5], 4, 113) &&
            CubeRoot(K[3][6], 5, 127) && CubeRoot(K[3][7], 5, 131)
  {
  }

  lemma ConstantsOfRow4()
    ensures CubeRoot(K[4][0], 5, 137) && CubeRoot(K[4][1], 5, 139) &&
            CubeRoot(K[4][2], 5, 149) && CubeRoot(K[4][3], 5, 151)
    ensures CubeRoot(K[4][4], 5, 157) && CubeRoot(K[4][5], 5, 163) &&
            CubeRoot(K[4][6], 5, 167) && CubeRoot(K[4][7], 5, 173)
  {
  }

  lemma ConstantsOfRow5()
    ensures CubeRoot(K[5][0], 5, 179) && CubeRoot(K[5][1], 5, 181) &&
            CubeRoot(K[5][2], 5, 191) && CubeRoot(K[5][3], 5, 193)
    ensures CubeRoot(K[5][4], 5, 197) && CubeRoot(K[5][5], 5, 199) &&
            CubeRoot(K[5][6], 5, 211) && CubeRoot(K[5][7], 6, 223)
  {
  }

  lemma ConstantsOfRow6()
    ensures CubeRoot(K[6][0], 6, 227) && CubeRoot(K[6][1], 6, 229) &&
            CubeRoot(K[6][2], 6, 233) && CubeRoot(K[6][3], 6, 239)
    ensures CubeRoot(K[6][4], 6, 241) && CubeRoot(K[6][5], 6, 251) &&
            CubeRoot(K[6][6], 6, 257) && CubeRoot(K[6][7], 6, 263)
  {
  }

  lemma ConstantsOfRow7()
    ensures CubeRoot(K[7][0], 6, 269) && CubeRoot(K[7][1], 6, 271) &&
            CubeRoot(K[7][2], 6, 277) && CubeRoot(K[7][3], 6, 281)
    ensures CubeRoot(K[7][4], 6, 283) && CubeRoot(K[7][5], 6, 293) &&
            CubeRoot(K[7][6], 6, 307) && CubeRoot(K[7][7], 6, 311)
  {
  }
}
