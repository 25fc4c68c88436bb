/**
 * Choosing an entry of the packed base point table: every row of a window is looked at, masks
 * keep one of them, and the sign of the digit is applied by masked swaps.
 */
module TableChoice {
  import opened Words
  import opened Bitwise
  import opened Bytes
  import opened Field
  import opened FieldOps
  import opened FieldCodec
  import opened PointFormulas

  const ROW := 96

  /** The bytes of a row stand for y - x, y + x and k times t of a point with z = 1. */
  ghost predicate RowFor(row: seq<Byte>, q: Ext, k: int) {
    && |row| == ROW && q.z == 1
    && Cong(Low255(LeValue(row[..32])), q.y - q.x) && Cong(Low255(LeValue(row[32..64])), q.y + q.x)
    && Cong(Low255(LeValue(row[64..])), Prod(q.t, k))
  }

  /** The factor of t in row i: the rows of the first window hold 2t, the others 2d*t. */
  function RowFactor(i: nat): int { if i < 8 then 2 else Value(EC2D) }

  ghost predicate TableFor(table: seq<seq<Byte>>, points: seq<Ext>) {
    |table| == 256 == |points| && forall i :: 0 <= i < 256 ==> RowFor(table[i], points[i], RowFactor(i))
  }

  /** A byte of (out & nb) | (in & b), for nb = flag - 1 and b = ~nb. */
  function MoveByte(flag: nat, x: Byte, y: Byte): (z: Byte)
    requires flag <= 1
    ensures z == if flag == 1 then y else x
  {
    hide And, Or;
    var nb := (flag as int - 1) % 0x100;
    AllOnes8(x);
    AllOnes8(y);
    XorZero(x);
    XorZero(y);
    Or(And(x, nb), And(y, 0xff - nb))
  }

  lemma AllOnes8(x: Byte)
    ensures And(x, 0xff) == x
  {
    assert Pow2(0) == 1;
    Pow2Step8(0);
    AllOnes(x, 8);
  }

  /** curve25519_move_conditional_bytes, byte by byte. */
  method MoveConditional(out: seq<Byte>, row: seq<Byte>, flag: nat) returns (moved: seq<Byte>)
    requires |out| == |row| == ROW && flag <= 1
    ensures moved == if flag == 1 then row else out
  {
    hide MoveByte;
    moved := seq(ROW, i requires 0 <= i < ROW => MoveByte(flag, out[i], row[i]));
  }

  /** curve25519_swap_conditional */
  method SwapConditional(a: Fe, b: Fe, iswap: Word) returns (a': Fe, b': Fe)
    requires iswap <= 1
    ensures a' == (if iswap == 1 then b else a) && b' == (if iswap == 1 then a else b)
  {
    hide SwapMask, Xor;
    var x0, x1 := SwapMask(iswap, a.a0, b.a0), SwapMask(iswap, a.a1, b.a1);
    var x2, x3 := SwapMask(iswap, a.a2, b.a2), SwapMask(iswap, a.a3, b.a3);
    var x4 := SwapMask(iswap, a.a4, b.a4);
    a' := Fe(XorWord(a.a0, x0), XorWord(a.a1, x1), XorWord(a.a2, x2), XorWord(a.a3, x3), XorWord(a.a4, x4));
    b' := Fe(XorWord(b.a0, x0), XorWord(b.a1, x1), XorWord(b.a2, x2), XorWord(b.a3, x3), XorWord(b.a4, x4));
  }

  /** The packed neutral element: y - x = y + x = 1 and t = 0. */
  function PackedNeutral(): (row: seq<Byte>)
    ensures |row| == ROW
  {
    [1] + Zeros(31) + [1] + Zeros(31) + Zeros(32)
  }

  lemma NeutralRow(k: int)
    ensures RowFor(PackedNeutral(), Ext(0, 1, 1, 0), k)
  {
    hide ModP, Prod, LeValue;
    var row := PackedNeutral();
    assert row[..32] == [1] + Zeros(31) && row[32..64] == [1] + Zeros(31) && row[64..] == [] + Zeros(32);
    LeValuePadded([1], 31);
    LeValuePadded([], 32);
    OneIsOne();
    ZeroProduct(k);
  }

  lemma OneIsOne()
    ensures LeValue([1]) == 1 && LeValue([]) == 0
  {
  }

  lemma ZeroProduct(k: int)
    ensures Prod(0, k) == 0
  {
    ProdIsProduct(0, k);
  }

  /** The point that digit b of window pos stands for. */
  function Chosen(points: seq<Ext>, pos: nat, b: int): Ext
    requires |points| == 256 && pos < 32 && -8 <= b <= 8
  {
    if b == 0 then Ext(0, 1, 1, 0) else SignedExt(points[8 * pos + (if b < 0 then -b else b) - 1], b < 0)
  }

  /** The packed row that is left after all eight have been offered. */
  method SelectRow(table: seq<seq<Byte>>, pos: nat, u: nat) returns (packed: seq<Byte>)
    requires |table| == 256 && (forall i :: 0 <= i < 256 ==> |table[i]| == ROW) && pos < 32 && u <= 8
    ensures packed == if u == 0 then PackedNeutral() else table[8 * pos + u - 1]
  {
    hide EqualBit, PackedNeutral;
    packed := PackedNeutral();
    for i := 0 to 8
      invariant packed == if 1 <= u <= i then table[8 * pos + u - 1] else PackedNeutral()
    {
      packed := MoveConditional(packed, table[8 * pos + i], EqualBit(u, i + 1));
    }
  }

  /** ge25519_scalarmult_base_choose_niels */
  method ChooseNiels(table: seq<seq<Byte>>, pos: nat, b: SChar, ghost points: seq<Ext>) returns (t: Niels)
    requires TableFor(table, points) && pos < 32 && -8 <= b <= 8
    ensures EntryFor(t, Chosen(points, pos, b), RowFactor(8 * pos))
  {
    hide AbsByMask, RowFor, EntryFor, PackedNeutral;
    var sign := b % 0x100 / 0x80;
    var u := AbsByMask(b, sign);
    RowLengths(table, points);
    var packed := SelectRow(table, pos, u);
    ghost var q := if u == 0 then Ext(0, 1, 1, 0) else points[8 * pos + u - 1];
    if u == 0 {
      NeutralRow(RowFactor(8 * pos));
    }
    t := Unpack(packed, sign, q, RowFactor(8 * pos));
  }

  lemma RowLengths(table: seq<seq<Byte>>, points: seq<Ext>)
    requires TableFor(table, points)
    ensures forall i :: 0 <= i < 256 ==> |table[i]| == ROW
  {
  }

  /** Expand the three coordinates and apply the sign. */
  method Unpack(packed: seq<Byte>, sign: Word, ghost q: Ext, ghost k: int) returns (t: Niels)
    requires RowFor(packed, q, k) && sign <= 1
    ensures EntryFor(t, SignedExt(q, sign == 1), k)
  {
    hide ModP, Val51, Prod, LeValue, Low255;
    var ysubx := Expand(packed[..32]);
    var xaddy := Expand(packed[32..64]);
    var t2d := Expand(packed[64..]);
    ysubx, xaddy := SwapConditional(ysubx, xaddy, sign);
    var neg := FeNeg(t2d);
    CongAdd(0, 0, Value(t2d), Prod(q.t, k));
    NegatedProduct(q.t, k);
    t2d, neg := SwapConditional(t2d, neg, sign);
    t := Niels(ysubx, xaddy, t2d);
  }
}
