/**
 * The row-parallel form of the BLAKE2b compression, two words to a register, refines the
 * reference form: each SIMD round is the reference round for every state and message.
 */
module Blake2bSimd {
  import opened Words
  import opened Blake2bCompress

  /** A 128-bit register. */
  datatype Reg = Reg(lo: bv64, hi: bv64)

  function UnpackLo(x: Reg, y: Reg): Reg { Reg(x.lo, y.lo) }
  function UnpackHi(x: Reg, y: Reg): Reg { Reg(x.hi, y.hi) }
  function AlignR(x: Reg, y: Reg): Reg { Reg(y.hi, x.lo) }          // by eight bytes
  function Blend(x: Reg, y: Reg): Reg { Reg(x.lo, y.hi) }           // mask 0xF0
  function Swap(x: Reg): Reg { Reg(x.hi, x.lo) }                    // shuffle 1,0,3,2
  function Add(x: Reg, y: Reg): Reg { Reg(Plus(x.lo, y.lo), Plus(x.hi, y.hi)) }
  function Add3(x: Reg, y: Reg, z: Reg): Reg { Reg(Plus3(x.lo, y.lo, z.lo), Plus3(x.hi, y.hi, z.hi)) }
  function Xor(x: Reg, y: Reg): Reg { Reg(Xored(x.lo, y.lo), Xored(x.hi, y.hi)) }

  /** The byte shuffles and shifts that stand for rotations in one lane. */
  function SwapHalves(x: bv64): bv64 { (x >> 32) | (x << 32) }

  function Shuffle24(x: bv64): bv64 {
    ((x >> 24) & 0xff) | (((x >> 32) & 0xff) << 8) | (((x >> 40) & 0xff) << 16) | (((x >> 48) & 0xff) << 24)
    | (((x >> 56) & 0xff) << 32) | ((x & 0xff) << 40) | (((x >> 8) & 0xff) << 48) | (((x >> 16) & 0xff) << 56)
  }

  function Shuffle16(x: bv64): bv64 {
    ((x >> 16) & 0xff) | (((x >> 24) & 0xff) << 8) | (((x >> 32) & 0xff) << 16) | (((x >> 40) & 0xff) << 24)
    | (((x >> 48) & 0xff) << 32) | (((x >> 56) & 0xff) << 40) | ((x & 0xff) << 48) | (((x >> 8) & 0xff) << 56)
  }

  function Double63(x: bv64): bv64 { (x >> 63) ^ (x + x) }

  /** The shuffles are the rotations of the reference form. */
  lemma RotationsAgree(x: bv64)
    ensures SwapHalves(x) == Rotr32(x) && Shuffle24(x) == Rotr24(x)
    ensures Shuffle16(x) == Rotr16(x) && Double63(x) == Rotr63(x)
  {
  }

  lemma AddSwaps(x: bv64, y: bv64, z: bv64)
    ensures Plus3(x, y, z) == Plus3(x, z, y)
  {
  }

  /** _mm_roti_epi64, a rotation to the right in both lanes. */
  function Roti32(x: Reg): Reg { Reg(SwapHalves(x.lo), SwapHalves(x.hi)) }
  function Roti24(x: Reg): Reg { Reg(Shuffle24(x.lo), Shuffle24(x.hi)) }
  function Roti16(x: Reg): Reg { Reg(Shuffle16(x.lo), Shuffle16(x.hi)) }
  function Roti63(x: Reg): Reg { Reg(Double63(x.lo), Double63(x.hi)) }

  /** Half of the four rows: two columns of the state. */
  datatype Half = Half(row1: Reg, row2: Reg, row3: Reg, row4: Reg)
  datatype Rows = Rows(l: Half, h: Half)

  function G1Half(x: Half, b: Reg): Half {
    var row1 := Add3(x.row1, b, x.row2);
    var row4 := Roti32(Xor(x.row4, row1));
    var row3 := Add(x.row3, row4);
    var row2 := Roti24(Xor(x.row2, row3));
    Half(row1, row2, row3, row4)
  }

  function G2Half(x: Half, b: Reg): Half {
    var row1 := Add3(x.row1, b, x.row2);
    var row4 := Roti16(Xor(x.row4, row1));
    var row3 := Add(x.row3, row4);
    var row2 := Roti63(Xor(x.row2, row3));
    Half(row1, row2, row3, row4)
  }

  function G1(x: Rows, b0: Reg, b1: Reg): Rows { Rows(G1Half(x.l, b0), G1Half(x.h, b1)) }
  function G2(x: Rows, b0: Reg, b1: Reg): Rows { Rows(G2Half(x.l, b0), G2Half(x.h, b1)) }

  /** DIAGONALIZE with byte alignment. */
  function Diagonalize(x: Rows): Rows {
    Rows(Half(x.l.row1, AlignR(x.h.row2, x.l.row2), x.h.row3, AlignR(x.l.row4, x.h.row4)),
         Half(x.h.row1, AlignR(x.l.row2, x.h.row2), x.l.row3, AlignR(x.h.row4, x.l.row4)))
  }

  function Undiagonalize(x: Rows): Rows {
    Rows(Half(x.l.row1, AlignR(x.l.row2, x.h.row2), x.h.row3, AlignR(x.h.row4, x.l.row4)),
         Half(x.h.row1, AlignR(x.h.row2, x.l.row2), x.l.row3, AlignR(x.l.row4, x.h.row4)))
  }

  /** DIAGONALIZE without byte alignment, by unpacking. */
  function DiagonalizeUnpack(x: Rows): Rows {
    Rows(Half(x.l.row1, UnpackHi(x.l.row2, UnpackLo(x.h.row2, x.h.row2)), x.h.row3,
              UnpackHi(x.h.row4, UnpackLo(x.l.row4, x.l.row4))),
         Half(x.h.row1, UnpackHi(x.h.row2, UnpackLo(x.l.row2, x.l.row2)), x.l.row3,
              UnpackHi(x.l.row4, UnpackLo(x.h.row4, x.h.row4))))
  }

  function UndiagonalizeUnpack(x: Rows): Rows {
    Rows(Half(x.l.row1, UnpackHi(x.h.row2, UnpackLo(x.l.row2, x.l.row2)), x.h.row3,
              UnpackHi(x.l.row4, UnpackLo(x.h.row4, x.h.row4))),
         Half(x.h.row1, UnpackHi(x.l.row2, UnpackLo(x.h.row2, x.h.row2)), x.l.row3,
              UnpackHi(x.h.row4, UnpackLo(x.l.row4, x.l.row4))))
  }

  lemma DiagonalizationsAgree(x: Rows)
    ensures Diagonalize(x) == DiagonalizeUnpack(x) && Undiagonalize(x) == UndiagonalizeUnpack(x)
    ensures Undiagonalize(Diagonalize(x)) == x
  {
  }

  /** The message, two words to a register. */
  datatype Message = Message(m0: Reg, m1: Reg, m2: Reg, m3: Reg, m4: Reg, m5: Reg, m6: Reg, m7: Reg)

  /** The registers b0, b1 of the four loads of a round. */
  datatype Loads = Loads(x0: Reg, x1: Reg, y0: Reg, y1: Reg, z0: Reg, z1: Reg, w0: Reg, w1: Reg)

  /** LOAD_MSG_r_1 to LOAD_MSG_r_4 */
  function Load(r: nat, m: Message): Loads
    requires r < 12
  {
    if r == 0 || r == 10 then
      Loads(UnpackLo(m.m0, m.m1), UnpackLo(m.m2, m.m3),
            UnpackHi(m.m0, m.m1), UnpackHi(m.m2, m.m3),
            UnpackLo(m.m4, m.m5), UnpackLo(m.m6, m.m7),
            UnpackHi(m.m4, m.m5), UnpackHi(m.m6, m.m7))
    else if r == 1 || r == 11 then
      Loads(UnpackLo(m.m7, m.m2), UnpackHi(m.m4, m.m6),
            UnpackLo(m.m5, m.m4), AlignR(m.m3, m.m7),
            Swap(m.m0), UnpackHi(m.m5, m.m2),
            UnpackLo(m.m6, m.m1), UnpackHi(m.m3, m.m1))
    else if r == 2 then
      Loads(AlignR(m.m6, m.m5), UnpackHi(m.m2, m.m7),
            UnpackLo(m.m4, m.m0), Blend(m.m1, m.m6),
            Blend(m.m5, m.m1), UnpackHi(m.m3, m.m4),
            UnpackLo(m.m7, m.m3), AlignR(m.m2, m.m0))
    else if r == 3 then
      Loads(UnpackHi(m.m3, m.m1), UnpackHi(m.m6, m.m5),
            UnpackHi(m.m4, m.m0), UnpackLo(m.m6, m.m7),
            Blend(m.m1, m.m2), Blend(m.m2, m.m7),
            UnpackLo(m.m3, m.m5), UnpackLo(m.m0, m.m4))
    else if r == 4 then
      Loads(UnpackHi(m.m4, m.m2), UnpackLo(m.m1, m.m5),
            Blend(m.m0, m.m3), Blend(m.m2, m.m7),
            Blend(m.m7, m.m5), Blend(m.m3, m.m1),
            AlignR(m.m6, m.m0), Blend(m.m4, m.m6))
    else if r == 5 then
      Loads(UnpackLo(m.m1, m.m3), UnpackLo(m.m0, m.m4),
            UnpackLo(m.m6, m.m5), UnpackHi(m.m5, m.m1),
            Blend(m.m2, m.m3), UnpackHi(m.m7, m.m0),
            UnpackHi(m.m6, m.m2), Blend(m.m7, m.m4))
    else if r == 6 then
      Loads(Blend(m.m6, m.m0), UnpackLo(m.m7, m.m2),
            UnpackHi(m.m2, m.m7), AlignR(m.m5, m.m6),
            UnpackLo(m.m0, m.m3), Swap(m.m4),
            UnpackHi(m.m3, m.m1), Blend(m.m1, m.m5))
    else if r == 7 then
      Loads(UnpackHi(m.m6, m.m3), Blend(m.m6, m.m1),
            AlignR(m.m7, m.m5), UnpackHi(m.m0, m.m4),
            UnpackHi(m.m2, m.m7), UnpackLo(m.m4, m.m1),
            UnpackLo(m.m0, m.m2), UnpackLo(m.m3, m.m5))
    else if r == 8 then
      Loads(UnpackLo(m.m3, m.m7), AlignR(m.m0, m.m5),
            UnpackHi(m.m7, m.m4), AlignR(m.m4, m.m1),
            m.m6, AlignR(m.m5, m.m0),
            Blend(m.m1, m.m3), m.m2)
    else
      Loads(UnpackLo(m.m5, m.m4), UnpackHi(m.m3, m.m0),
            UnpackLo(m.m1, m.m2), Blend(m.m3, m.m2),
            UnpackHi(m.m7, m.m4), UnpackHi(m.m1, m.m6),
            AlignR(m.m7, m.m5), UnpackLo(m.m6, m.m0))
  }

  /** ROUND(r) */
  function SimdRound(x: Rows, m: Message, r: nat): Rows
    requires r < 12
  {
    hide Load, G1, G2, Diagonalize, Undiagonalize;
    var b := Load(r, m);
    var x := G2(G1(x, b.x0, b.x1), b.y0, b.y1);
    var x := Diagonalize(x);
    var x := G2(G1(x, b.z0, b.z1), b.w0, b.w1);
    Undiagonalize(x)
  }

  function RegAt(v: seq<bv64>, i: nat): Reg
    requires i + 2 <= |v|
  {
    Reg(v[i], v[i + 1])
  }

  /** The registers that hold a state vector, a message vector. */
  function ToRows(v: Vector): Rows {
    Rows(Half(RegAt(v, 0), RegAt(v, 4), RegAt(v, 8), RegAt(v, 12)),
         Half(RegAt(v, 2), RegAt(v, 6), RegAt(v, 10), RegAt(v, 14)))
  }

  function Pack(m: Vector): Message {
    Message(RegAt(m, 0), RegAt(m, 2), RegAt(m, 4), RegAt(m, 6), RegAt(m, 8), RegAt(m, 10), RegAt(m, 12), RegAt(m, 14))
  }

  /** The message words that the schedule s wants in the four loads. */
  function Wanted(m: Vector, s: Choice): Loads {
    Loads(Reg(m[s[0]], m[s[2]]), Reg(m[s[4]], m[s[6]]), Reg(m[s[1]], m[s[3]]), Reg(m[s[5]], m[s[7]]),
          Reg(m[s[8]], m[s[10]]), Reg(m[s[12]], m[s[14]]), Reg(m[s[9]], m[s[11]]), Reg(m[s[13]], m[s[15]]))
  }

  lemma LoadRound0(m: Vector)
    ensures Load(0, Pack(m)) == Wanted(m, SIGMA_0)
  {
  }

  lemma LoadRound1(m: Vector)
    ensures Load(1, Pack(m)) == Wanted(m, SIGMA_1)
  {
  }

  lemma LoadRound2(m: Vector)
    ensures Load(2, Pack(m)) == Wanted(m, SIGMA_2)
  {
  }

  lemma LoadRound3(m: Vector)
    ensures Load(3, Pack(m)) == Wanted(m, SIGMA_3)
  {
  }

  lemma LoadRound4(m: Vector)
    ensures Load(4, Pack(m)) == Wanted(m, SIGMA_4)
  {
  }

  lemma LoadRound5(m: Vector)
    ensures Load(5, Pack(m)) == Wanted(m, SIGMA_5)
  {
  }

  lemma LoadRound6(m: Vector)
    ensures Load(6, Pack(m)) == Wanted(m, SIGMA_6)
  {
  }

  lemma LoadRound7(m: Vector)
    ensures Load(7, Pack(m)) == Wanted(m, SIGMA_7)
  {
  }

  lemma LoadRound8(m: Vector)
    ensures Load(8, Pack(m)) == Wanted(m, SIGMA_8)
  {
  }

  lemma LoadRound9(m: Vector)
    ensures Load(9, Pack(m)) == Wanted(m, SIGMA_9)
  {
  }

  /** Every load gives the words of the permutation sigma. */
  lemma LoadIsSigma(r: nat, m: Vector)
    requires r < 12
    ensures Load(r, Pack(m)) == Wanted(m, Sigma(r))
  {
    hide Pack, Wanted;
    match r {
      case 0 => LoadRound0(m);
      case 1 => LoadRound1(m);
      case 2 => LoadRound2(m);
      case 3 => LoadRound3(m);
      case 4 => LoadRound4(m);
      case 5 => LoadRound5(m);
      case 6 => LoadRound6(m);
      case 7 => LoadRound7(m);
      case 8 => LoadRound8(m);
      case 9 => LoadRound9(m);
      case 10 => LoadRound0(m);
      case 11 => LoadRound1(m);
    }
  }

  /** G on four words. */
  function Mix(q: Quad, x: bv64, y: bv64): Quad { HalfG2(HalfG1(q, x), y) }

  /** One lane of a half. */
  function Lo(x: Half): Quad { Quad(x.row1.lo, x.row2.lo, x.row3.lo, x.row4.lo) }
  function Hi(x: Half): Quad { Quad(x.row1.hi, x.row2.hi, x.row3.hi, x.row4.hi) }

  /** In each lane, G1 and G2 are the halves of G. */
  lemma G1Lanes(x: Half, b: Reg)
    ensures Lo(G1Half(x, b)) == HalfG1(Lo(x), b.lo) && Hi(G1Half(x, b)) == HalfG1(Hi(x), b.hi)
  {
    hide Rotr32, Rotr24, SwapHalves, Shuffle24, Plus, Plus3, Xored;
    AddSwaps(x.row1.lo, b.lo, x.row2.lo);
    AddSwaps(x.row1.hi, b.hi, x.row2.hi);
    forall w: bv64 ensures SwapHalves(w) == Rotr32(w) && Shuffle24(w) == Rotr24(w) { RotationsAgree(w); }
  }

  lemma G2Lanes(x: Half, b: Reg)
    ensures Lo(G2Half(x, b)) == HalfG2(Lo(x), b.lo) && Hi(G2Half(x, b)) == HalfG2(Hi(x), b.hi)
  {
    hide Rotr16, Rotr63, Shuffle16, Double63, Plus, Plus3, Xored;
    AddSwaps(x.row1.lo, b.lo, x.row2.lo);
    AddSwaps(x.row1.hi, b.hi, x.row2.hi);
    forall w: bv64 ensures Shuffle16(w) == Rotr16(w) && Double63(w) == Rotr63(w) { RotationsAgree(w); }
  }

  function JoinHalf(p: Quad, q: Quad): Half { Half(Reg(p.a, q.a), Reg(p.b, q.b), Reg(p.c, q.c), Reg(p.d, q.d)) }

  /** The rows whose four lanes are the given quads. */
  function Join(q0: Quad, q1: Quad, q2: Quad, q3: Quad): Rows { Rows(JoinHalf(q0, q1), JoinHalf(q2, q3)) }

  lemma HalvesMix(p: Quad, q: Quad, b: Reg, c: Reg)
    ensures G2Half(G1Half(JoinHalf(p, q), b), c) == JoinHalf(Mix(p, b.lo, c.lo), Mix(q, b.hi, c.hi))
  {
    hide HalfG1, HalfG2, G1Half, G2Half;
    var x := JoinHalf(p, q);
    G1Lanes(x, b);
    G2Lanes(G1Half(x, b), c);
  }

  /** G1 then G2 mixes the four lanes. */
  lemma RowsMix(q0: Quad, q1: Quad, q2: Quad, q3: Quad, b0: Reg, b1: Reg, c0: Reg, c1: Reg)
    ensures G2(G1(Join(q0, q1, q2, q3), b0, b1), c0, c1)
         == Join(Mix(q0, b0.lo, c0.lo), Mix(q1, b0.hi, c0.hi), Mix(q2, b1.lo, c1.lo), Mix(q3, b1.hi, c1.hi))
  {
    hide Mix, G1Half, G2Half, JoinHalf;
    HalvesMix(q0, q1, b0, c0);
    HalvesMix(q2, q3, b1, c1);
  }

  /** The column k places after column i. */
  function Skip(i: nat, k: nat): (j: nat)
    requires i < 4 && k < 4
    ensures j < 4
  {
    if i + k < 4 then i + k else i + k - 4
  }

  /** Column i of the state, and the diagonal that starts there. */
  function Col(v: Vector, i: nat): Quad
    requires i < 4
  {
    Quad(v[i], v[4 + i], v[8 + i], v[12 + i])
  }

  function Diag(v: Vector, i: nat): Quad
    requires i < 4
  {
    Quad(v[i], v[4 + Skip(i, 1)], v[8 + Skip(i, 2)], v[12 + Skip(i, 3)])
  }

  /** G on one word of each row: those are mixed, the others kept. */
  lemma MixAt(v: Vector, i: nat, j: nat, k: nat, l: nat, x: bv64, y: bv64)
    requires i < 4 <= j < 8 <= k < 12 <= l < 16
    ensures var w := G(v, i, j, k, l, x, y);
            && Quad(w[i], w[j], w[k], w[l]) == Mix(Quad(v[i], v[j], v[k], v[l]), x, y)
            && forall n :: 0 <= n < 16 && n != i && n != j && n != k && n != l ==> w[n] == v[n]
  {
    hide HalfG1, HalfG2;
  }

  /** G on a column mixes it and keeps the others. */
  lemma MixColumn(v: Vector, i: nat, x: bv64, y: bv64)
    requires i < 4
    ensures var w := G(v, i, 4 + i, 8 + i, 12 + i, x, y);
            forall j :: 0 <= j < 4 ==> Col(w, j) == if j == i then Mix(Col(v, i), x, y) else Col(v, j)
  {
    hide G, Mix;
    MixAt(v, i, 4 + i, 8 + i, 12 + i, x, y);
  }

  /** G on a diagonal mixes it and keeps the others. */
  lemma MixDiagonal(v: Vector, i: nat, x: bv64, y: bv64)
    requires i < 4
    ensures var w := G(v, i, 4 + Skip(i, 1), 8 + Skip(i, 2), 12 + Skip(i, 3), x, y);
            forall j :: 0 <= j < 4 ==> Diag(w, j) == if j == i then Mix(Diag(v, i), x, y) else Diag(v, j)
  {
    hide G, Mix;
    MixAt(v, i, 4 + Skip(i, 1), 8 + Skip(i, 2), 12 + Skip(i, 3), x, y);
  }

  /** The state as four columns, and after a diagonal turn as four diagonals. */
  lemma RowsOfColumns(v: Vector)
    ensures ToRows(v) == Join(Col(v, 0), Col(v, 1), Col(v, 2), Col(v, 3))
    ensures Diagonalize(ToRows(v)) == Join(Diag(v, 0), Diag(v, 1), Diag(v, 2), Diag(v, 3))
  {
  }

  lemma ColumnsRefine(v: Vector, m: Vector, s: Choice)
    ensures var b := Wanted(m, s);
            G2(G1(ToRows(v), b.x0, b.x1), b.y0, b.y1) == ToRows(ColumnStep(v, m, s))
  {
    hide G, Mix, G1, G2, Diagonalize, ToRows, Col, Diag, Join;
    var v1 := G(v, 0, 4, 8, 12, m[s[0]], m[s[1]]);
    var v2 := G(v1, 1, 5, 9, 13, m[s[2]], m[s[3]]);
    var v3 := G(v2, 2, 6, 10, 14, m[s[4]], m[s[5]]);
    MixColumn(v, 0, m[s[0]], m[s[1]]);
    MixColumn(v1, 1, m[s[2]], m[s[3]]);
    MixColumn(v2, 2, m[s[4]], m[s[5]]);
    MixColumn(v3, 3, m[s[6]], m[s[7]]);
    var b := Wanted(m, s);
    RowsMix(Col(v, 0), Col(v, 1), Col(v, 2), Col(v, 3), b.x0, b.x1, b.y0, b.y1);
    RowsOfColumns(v);
    RowsOfColumns(ColumnStep(v, m, s));
  }

  lemma DiagonalsRefine(v: Vector, m: Vector, s: Choice)
    ensures var b := Wanted(m, s);
            Undiagonalize(G2(G1(Diagonalize(ToRows(v)), b.z0, b.z1), b.w0, b.w1)) == ToRows(DiagonalStep(v, m, s))
  {
    hide G, Mix, G1, G2, Diagonalize, Undiagonalize, ToRows, Col, Diag, Join;
    var v1 := G(v, 0, 5, 10, 15, m[s[8]], m[s[9]]);
    var v2 := G(v1, 1, 6, 11, 12, m[s[10]], m[s[11]]);
    var v3 := G(v2, 2, 7, 8, 13, m[s[12]], m[s[13]]);
    MixDiagonal(v, 0, m[s[8]], m[s[9]]);
    MixDiagonal(v1, 1, m[s[10]], m[s[11]]);
    MixDiagonal(v2, 2, m[s[12]], m[s[13]]);
    MixDiagonal(v3, 3, m[s[14]], m[s[15]]);
    var b := Wanted(m, s);
    RowsMix(Diag(v, 0), Diag(v, 1), Diag(v, 2), Diag(v, 3), b.z0, b.z1, b.w0, b.w1);
    RowsOfColumns(v);
    RowsOfColumns(DiagonalStep(v, m, s));
    DiagonalizationsAgree(ToRows(DiagonalStep(v, m, s)));
  }

  /** ROUND(r) in registers is ROUND(r) on the vector. */
  lemma RoundRefines(v: Vector, m: Vector, r: nat)
    requires r < 12
    ensures SimdRound(ToRows(v), Pack(m), r) == ToRows(Round(v, m, r))
  {
    hide Load, Sigma, G1, G2, Diagonalize, Undiagonalize, Pack, ToRows, ColumnStep, DiagonalStep, Wanted;
    LoadIsSigma(r, m);
    ColumnsRefine(v, m, Sigma(r));
    DiagonalsRefine(ColumnStep(v, m, Sigma(r)), m, Sigma(r));
  }

  /** The registers loaded before the first round hold the working vector. */
  function StartRows(h: Chain, t0: Word, t1: Word, f0: bv64, f1: bv64): Rows {
    Rows(Half(RegAt(h, 0), RegAt(h, 4), RegAt(IV, 0), Xor(RegAt(IV, 4), Reg(Bits(t0), Bits(t1)))),
         Half(RegAt(h, 2), RegAt(h, 6), RegAt(IV, 2), Xor(RegAt(IV, 6), Reg(f0, f1))))
  }

  lemma StartRefines(h: Chain, t0: Word, t1: Word, f0: bv64, f1: bv64)
    ensures StartRows(h, t0, t1, f0, f1) == ToRows(StartVector(h, t0, t1, f0, f1))
  {
    hide Xored, Bits;
  }

  /** The chain words, xored with the third and first, or the fourth and second row. */
  function XorInto(h: Reg, x: Reg, y: Reg): Reg { Reg(Xored3(h.lo, y.lo, x.lo), Xored3(h.hi, y.hi, x.hi)) }

  /** The chain value stored after the last round. */
  function Finish(h: Chain, x: Rows): Chain {
    var r0, r1 := XorInto(RegAt(h, 0), x.l.row1, x.l.row3), XorInto(RegAt(h, 2), x.h.row1, x.h.row3);
    var r2, r3 := XorInto(RegAt(h, 4), x.l.row2, x.l.row4), XorInto(RegAt(h, 6), x.h.row2, x.h.row4);
    [r0.lo, r0.hi, r1.lo, r1.hi, r2.lo, r2.hi, r3.lo, r3.hi]
  }

  lemma XorSwaps(x: bv64, y: bv64, z: bv64)
    ensures Xored3(x, y, z) == Xored3(x, z, y)
  {
  }

  lemma FinishRefines(h: Chain, v: Vector)
    ensures Finish(h, ToRows(v)) == seq(8, i requires 0 <= i < 8 => Xored3(h[i], v[i], v[i + 8]))
  {
    hide Xored3;
    forall i | 0 <= i < 8 ensures Xored3(h[i], v[i + 8], v[i]) == Xored3(h[i], v[i], v[i + 8]) {
      XorSwaps(h[i], v[i], v[i + 8]);
    }
  }

  /** blake2b_compress with SSE registers computes the compression function of the standard. */
  method CompressSse(h: Chain, b: Block, t0: Word, t1: Word, f0: bv64, f1: bv64) returns (out: Chain)
    ensures out == Compress(h, b, t0, t1, f0, f1)
  {
    hide StartRows, StartVector, LoadBlock, Pack, ToRows, Round, SimdRound, Finish;
    var m := Pack(LoadBlock(b));
    var rows := StartRows(h, t0, t1, f0, f1);
    StartRefines(h, t0, t1, f0, f1);
    ghost var v := StartVector(h, t0, t1, f0, f1);
    for r := 0 to 12
      invariant rows == ToRows(Rounds(v, LoadBlock(b), r))
    {
      RoundRefines(Rounds(v, LoadBlock(b), r), LoadBlock(b), r);
      rows := SimdRound(rows, m, r);
    }
    FinishRefines(h, Rounds(v, LoadBlock(b), 12));
    out := Finish(h, rows);
  }
}
