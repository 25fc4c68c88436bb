/** The BLAKE2b compression function, section 3.2 of RFC 7693. */
module Blake2bCompress {
  import opened Words
  import opened Bytes

  const BLOCKBYTES := 128

  type Vector = v: seq<bv64> | |v| == 16 witness seq(16, i => 0)
  type Chain = h: seq<bv64> | |h| == 8 witness seq(8, i => 0)
  type Block = b: seq<Byte> | |b| == 128 witness seq(BLOCKBYTES, i => 0)

  const IV: Chain := [
    0x6a09e667f3bcc908, 0xbb67ae8584caa73b, 0x3c6ef372fe94f82b, 0xa54ff53a5f1d36f1,
    0x510e527fade682d1, 0x9b05688c2b3e6c1f, 0x1f83d9abfb41bd6b, 0x5be0cd19137e2179]

  /** An index of a message word, and a choice of sixteen of them. */
  type Index = n: nat | n < 16
  type Choice = s: seq<Index> | |s| == 16 witness seq(16, i => 0)

  const SIGMA_0: Choice := [0, 1, 2, 3, 4, 5, 6, 7, 8, 9, 10, 11, 12, 13, 14, 15]
  const SIGMA_1: Choice := [14, 10, 4, 8, 9, 15, 13, 6, 1, 12, 0, 2, 11, 7, 5, 3]
  const SIGMA_2: Choice := [11, 8, 12, 0, 5, 2, 15, 13, 10, 14, 3, 6, 7, 1, 9, 4]
  const SIGMA_3: Choice := [7, 9, 3, 1, 13, 12, 11, 14, 2, 6, 5, 10, 4, 0, 15, 8]
  const SIGMA_4: Choice := [9, 0, 5, 7, 2, 4, 10, 15, 14, 1, 11, 12, 6, 8, 3, 13]
  const SIGMA_5: Choice := [2, 12, 6, 10, 0, 11, 8, 3, 4, 13, 7, 5, 15, 14, 1, 9]
  const SIGMA_6: Choice := [12, 5, 1, 15, 14, 13, 4, 10, 0, 7, 6, 3, 9, 2, 8, 11]
  const SIGMA_7: Choice := [13, 11, 7, 14, 12, 1, 3, 9, 5, 0, 15, 4, 8, 6, 2, 10]
  const SIGMA_8: Choice := [6, 15, 14, 9, 11, 3, 0, 8, 12, 2, 13, 7, 1, 4, 10, 5]
  const SIGMA_9: Choice := [10, 2, 8, 4, 7, 6, 1, 5, 15, 11, 9, 14, 3, 12, 13, 0]

  /** blake2b_sigma; rounds 10 and 11 repeat rounds 0 and 1. */
  function Sigma(r: nat): Choice
    requires r < 12
  {
    if r == 0 || r == 10 then SIGMA_0
    else if r == 1 || r == 11 then SIGMA_1
    else if r == 2 then SIGMA_2
    else if r == 3 then SIGMA_3
    else if r == 4 then SIGMA_4
    else if r == 5 then SIGMA_5
    else if r == 6 then SIGMA_6
    else if r == 7 then SIGMA_7
    else if r == 8 then SIGMA_8
    else SIGMA_9
  }

  /** rotr64 by the four amounts used. */
  function Rotr32(x: bv64): bv64 { (x >> 32) | (x << 32) }
  function Rotr24(x: bv64): bv64 { (x >> 24) | (x << 40) }
  function Rotr16(x: bv64): bv64 { (x >> 16) | (x << 48) }
  function Rotr63(x: bv64): bv64 { (x >> 63) | (x << 1) }

  function Plus(x: bv64, y: bv64): bv64 { x + y }
  function Plus3(x: bv64, y: bv64, z: bv64): bv64 { x + y + z }
  function Xored(x: bv64, y: bv64): bv64 { x ^ y }

  function Xored3(x: bv64, y: bv64, z: bv64): bv64 { x ^ y ^ z }

  /** Four words mixed by G. */
  datatype Quad = Quad(a: bv64, b: bv64, c: bv64, d: bv64)

  /** The first half of G: rotations 32 and 24. */
  function HalfG1(q: Quad, m: bv64): Quad {
    var a := Plus3(q.a, q.b, m);
    var d := Rotr32(Xored(q.d, a));
    var c := Plus(q.c, d);
    var b := Rotr24(Xored(q.b, c));
    Quad(a, b, c, d)
  }

  /** The second half of G: rotations 16 and 63. */
  function HalfG2(q: Quad, m: bv64): Quad {
    var a := Plus3(q.a, q.b, m);
    var d := Rotr16(Xored(q.d, a));
    var c := Plus(q.c, d);
    var b := Rotr63(Xored(q.b, c));
    Quad(a, b, c, d)
  }

  /** G on the words i, j, k, l of v. */
  function G(v: Vector, i: nat, j: nat, k: nat, l: nat, x: bv64, y: bv64): Vector
    requires i < 16 && j < 16 && k < 16 && l < 16
  {
    hide HalfG1, HalfG2;
    var q := HalfG2(HalfG1(Quad(v[i], v[j], v[k], v[l]), x), y);
    v[i := q.a][j := q.b][k := q.c][l := q.d]
  }

  /** The first half of ROUND: G on the four columns. */
  function ColumnStep(v: Vector, m: Vector, s: Choice): Vector {
    hide G;
    var v := G(v, 0, 4, 8, 12, m[s[0]], m[s[1]]);
    var v := G(v, 1, 5, 9, 13, m[s[2]], m[s[3]]);
    var v := G(v, 2, 6, 10, 14, m[s[4]], m[s[5]]);
    G(v, 3, 7, 11, 15, m[s[6]], m[s[7]])
  }

  /** The second half of ROUND: G on the four diagonals. */
  function DiagonalStep(v: Vector, m: Vector, s: Choice): Vector {
    hide G;
    var v := G(v, 0, 5, 10, 15, m[s[8]], m[s[9]]);
    var v := G(v, 1, 6, 11, 12, m[s[10]], m[s[11]]);
    var v := G(v, 2, 7, 8, 13, m[s[12]], m[s[13]]);
    G(v, 3, 4, 9, 14, m[s[14]], m[s[15]])
  }

  /** ROUND(r) */
  function Round(v: Vector, m: Vector, r: nat): Vector
    requires r < 12
  {
    hide ColumnStep, DiagonalStep, Sigma;
    DiagonalStep(ColumnStep(v, m, Sigma(r)), m, Sigma(r))
  }

  /** The first n rounds. */
  function Rounds(v: Vector, m: Vector, n: nat): Vector
    requires n <= 12
  {
    hide Round;
    if n == 0 then v else Round(Rounds(v, m, n - 1), m, n - 1)
  }

  function Bits(w: Word): bv64 { w as bv64 }

  function LoadBlock(b: Block): Vector { seq(16, i requires 0 <= i < 16 => Bits(WordAt(b, 8 * i))) }

  /** The working vector: chain, IV, counter and flags. */
  function StartVector(h: Chain, t0: Word, t1: Word, f0: bv64, f1: bv64): Vector {
    h + [IV[0], IV[1], IV[2], IV[3], Xored(IV[4], Bits(t0)), Xored(IV[5], Bits(t1)), Xored(IV[6], f0), Xored(IV[7], f1)]
  }

  /** blake2b_compress */
  function Compress(h: Chain, b: Block, t0: Word, t1: Word, f0: bv64, f1: bv64): Chain {
    hide Rounds, StartVector, LoadBlock;
    var v := Rounds(StartVector(h, t0, t1, f0, f1), LoadBlock(b), 12);
    seq(8, i requires 0 <= i < 8 => Xored3(h[i], v[i], v[i + 8]))
  }
}
