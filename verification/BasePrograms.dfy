/**
 * ge25519_scalarmult_base_niels as a sequence of point operations on limbs, with every entry
 * chosen from the packed table. It never reads a coordinate that was not computed, and if the
 * formulas of the standard are the group law of the curve, the point that it leaves is s*B.
 */
module BasePrograms {
  import opened Wrappers
  import opened Words
  import opened Bytes
  import opened Groups
  import opened ScalarLimbs
  import opened FieldOps
  import opened PointFormulas
  import opened PointPrograms
  import opened CurveLaw
  import opened TableChoice
  import opened DoublePrograms
  import BM = BaseMult
  import W4 = Window4

  /** A chosen entry, and the point that it stands for. */
  datatype Entry = Entry(n: Niels, q: Ext)

  /** Entries of 32 windows; that of the first holds 2t, the others 2d*t. */
  ghost predicate ValidEntries(c: seq<Entry>) {
    |c| == 32 && EntryFor(c[0].n, c[0].q, 2) && forall i :: 1 <= i < 32 ==> NielsFor(c[i].n, c[i].q)
  }

  // ---------------------------------------------------------------------------------------
  // The program, with r in register 0
  // ---------------------------------------------------------------------------------------

  /** The in-place additions of entries 1..n-1. */
  function SumOps(c: seq<Entry>, n: nat): seq<Op>
    requires n <= |c|
  {
    if n <= 1 then [] else SumOps(c, n - 1) + [AddInPlace(0, c[n - 1].n, c[n - 1].q)]
  }

  /** ge25519_double_partial three times, then ge25519_double. */
  function DoubleOps(n: nat): seq<Op> {
    if n == 0 then [] else DoubleOps(n - 1) + [DoublePoint(0)] + [if n == 4 then ToFull(0) else ToPartial(0)]
  }

  function BaseOps(odd: seq<Entry>, even: seq<Entry>): seq<Op>
    requires |odd| == 32 == |even|
  {
    [SetEntry(0, odd[0].n, odd[0].q)] + SumOps(odd, 32) + DoubleOps(4)
    + [AddScaled(0, even[0].n, even[0].q)] + SumOps(even, 32)
  }

  // ---------------------------------------------------------------------------------------
  // What it computes on coordinates
  // ---------------------------------------------------------------------------------------

  /** r and the entries 1..n-1. */
  function SumExt(r: Ext, c: seq<Entry>, n: nat): Ext
    requires n <= |c|
  {
    if n <= 1 then r else RfcAdd(SumExt(r, c, n - 1), c[n - 1].q)
  }

  function DoubledExt(r: Ext, n: nat): Ext { if n == 0 then r else Products(DoubleTerms(DoubledExt(r, n - 1))) }

  function BaseExt(odd: seq<Entry>, even: seq<Entry>): Ext
    requires |odd| == 32 == |even|
  {
    var half := SumExt(Doubled(odd[0].q), odd, 32);
    SumExt(RfcAdd(DoubledExt(half, 4), even[0].q), even, 32)
  }

  // ---------------------------------------------------------------------------------------
  // The program is ready and computes that
  // ---------------------------------------------------------------------------------------

  function OnePoint(r: Known, pending: Option<EHGF>): Model { Model([r], pending, []) }

  lemma SetOnly(r: Known, r': Known)
    ensures [r][0 := r'] == [r']
  {
  }

  lemma {:induction false} SumLeads(r: Ext, pending: Option<EHGF>, c: seq<Entry>, n: nat)
    requires ValidEntries(c) && n <= 32
    ensures Leads(SumOps(c, n), OnePoint(Full(r), pending), OnePoint(Full(SumExt(r, c, n)), pending))
  {
    hide Leads, RfcAdd, EntryFor;
    var m := OnePoint(Full(r), pending);
    if n <= 1 {
      LeadsNowhere(m);
    } else {
      SumLeads(r, pending, c, n - 1);
      var m1 := OnePoint(Full(SumExt(r, c, n - 1)), pending);
      var op := AddInPlace(0, c[n - 1].n, c[n - 1].q);
      LeadsOne(op, m1);
      SetOnly(Full(SumExt(r, c, n - 1)), Full(SumExt(r, c, n)));
      LeadsThen(SumOps(c, n - 1), [op], m, m1, OnePoint(Full(SumExt(r, c, n)), pending));
    }
  }

  /** After the first three doublings t is out of date; the fourth does not read it and renews it. */
  lemma {:induction false} DoubleLeads(r: Ext, pending: Option<EHGF>, n: nat) returns (k: Known, pending': Option<EHGF>)
    requires n <= 4
    ensures !k.Unset? && k.m == DoubledExt(r, n) && (n == 0 || n == 4 ==> k.Full?)
    ensures Leads(DoubleOps(n), OnePoint(Full(r), pending), OnePoint(k, pending'))
    decreases n
  {
    hide Leads, Products, DoubleTerms;
    var m := OnePoint(Full(r), pending);
    k, pending' := Full(r), pending;
    if n == 0 {
      LeadsNowhere(m);
    } else {
      var k1, pending1 := DoubleLeads(r, pending, n - 1);
      var m1 := OnePoint(k1, pending1);
      LeadsOne(DoublePoint(0), m1);
      var f := DoubleTerms(k1.m);
      var m2 := OnePoint(k1, Some(f));
      LeadsThen(DoubleOps(n - 1), [DoublePoint(0)], m, m1, m2);
      var op := if n == 4 then ToFull(0) else ToPartial(0);
      k, pending' := if n == 4 then Full(Products(f)) else Partial(Products(f)), Some(f);
      LeadsOne(op, m2);
      SetOnly(k1, k);
      LeadsThen(DoubleOps(n - 1) + [DoublePoint(0)], [op], m, m2, OnePoint(k, pending'));
    }
  }

  /** The whole program reads only what was computed, and leaves all four coordinates. */
  lemma BaseLeads(odd: seq<Entry>, even: seq<Entry>) returns (pending: Option<EHGF>)
    requires ValidEntries(odd) && ValidEntries(even)
    ensures Leads(BaseOps(odd, even), OnePoint(Unset, None), OnePoint(Full(BaseExt(odd, even)), pending))
  {
    hide Leads, RfcAdd, EntryFor, SumOps, DoubleOps, SumExt, DoubledExt, Doubled;
    var m0, r1 := OnePoint(Unset, None), Doubled(odd[0].q);
    var op := SetEntry(0, odd[0].n, odd[0].q);
    LeadsOne(op, m0);
    SetOnly(Unset, Full(r1));
    var m1 := OnePoint(Full(r1), None);
    SumLeads(r1, None, odd, 32);
    var r2 := SumExt(r1, odd, 32);
    var m2 := OnePoint(Full(r2), None);
    LeadsThen([op], SumOps(odd, 32), m0, m1, m2);
    var k;
    k, pending := DoubleLeads(r2, None, 4);
    var m3 := OnePoint(k, pending);
    LeadsThen([op] + SumOps(odd, 32), DoubleOps(4), m0, m2, m3);
    var op4 := AddScaled(0, even[0].n, even[0].q);
    LeadsOne(op4, m3);
    var r4 := RfcAdd(k.m, even[0].q);
    SetOnly(k, Full(r4));
    var m4 := OnePoint(Full(r4), pending);
    LeadsThen([op] + SumOps(odd, 32) + DoubleOps(4), [op4], m0, m3, m4);
    SumLeads(r4, pending, even, 32);
    LeadsThen([op] + SumOps(odd, 32) + DoubleOps(4) + [op4], SumOps(even, 32), m0, m4,
              OnePoint(Full(SumExt(r4, even, 32)), pending));
  }

  // ---------------------------------------------------------------------------------------
  // What it computes in the group
  // ---------------------------------------------------------------------------------------

  /** Row 8*i + k of the table stands for (k + 1) * 256^i times the base point. */
  ghost predicate PointsAre<P(!new)>(c: CurveMap<P>, points: seq<Ext>, base: P) {
    && |points| == 256
    && forall i :: 0 <= i < 256 ==> points[i].z == 1 && IsMultiple(c, points[i], (i % 8 + 1) * Pow2(8 * (i / 8)), base)
  }

  /** A chosen entry stands for its digit times 256^pos times the base point. */
  lemma ChosenIs<P(!new)>(c: CurveMap<P>, points: seq<Ext>, pos: nat, b: int, base: P)
    requires GroupLaw(c) && PointsAre(c, points, base) && pos < 32 && -8 <= b <= 8
    ensures Chosen(points, pos, b).z == 1 && IsMultiple(c, Chosen(points, pos, b), b * Pow2(8 * pos), base)
  {
    hide GroupLaw, Mul, Pow2;
    GroupIsAbelian(c);
    MulOne(c.g, base);
    if b == 0 {
      assert 0 * Pow2(8 * pos) == 0;
    } else {
      var u := if b < 0 then -b else b;
      var i := 8 * pos + u - 1;
      assert i % 8 + 1 == u && i / 8 == pos;
      SignedLaw(c, points[i], u * Pow2(8 * pos), base, b < 0);
      assert -(u * Pow2(8 * pos)) == (-u) * Pow2(8 * pos);
    }
  }

  /** The entries stand for the digits of one parity. */
  ghost predicate EntriesAre<P(!new)>(c: CurveMap<P>, e: seq<Entry>, d: seq<int>, odd: nat, base: P) {
    && |e| == 32 && |d| == 64 && odd <= 1 && e[0].q.z == 1
    && forall i :: 0 <= i < 32 ==> IsMultiple(c, e[i].q, d[2 * i + odd] * Pow2(8 * i), base)
  }

  lemma {:induction false} SumIs<P(!new)>(c: CurveMap<P>, r: Ext, e: seq<Entry>, d: seq<int>, odd: nat, a: int, n: nat,
                                          base: P)
    requires GroupLaw(c) && EntriesAre(c, e, d, odd, base) && 1 <= n <= 32 && IsMultiple(c, r, a + BM.Half(d, odd, 1), base)
    ensures IsMultiple(c, SumExt(r, e, n), a + BM.Half(d, odd, n), base)
  {
    hide GroupLaw, Mul, Pow2, BM.Half, RfcAdd;
    GroupIsAbelian(c);
    if n > 1 {
      SumIs(c, r, e, d, odd, a, n - 1, base);
      BM.HalfStep(d, odd, n - 1);
      SumLaw(c, SumExt(r, e, n - 1), e[n - 1].q);
      MulAdd(c.g, a + BM.Half(d, odd, n - 1), d[2 * (n - 1) + odd] * Pow2(8 * (n - 1)), base);
    }
  }

  lemma FourDoublings<P(!new)>(c: CurveMap<P>, r: Ext, a: int, base: P)
    requires GroupLaw(c) && IsMultiple(c, r, a, base)
    ensures IsMultiple(c, DoubledExt(r, 4), 16 * a, base)
  {
    hide GroupLaw, Mul, Products, DoubleTerms;
    OneDoubling(c, r, a, base, 0);
    OneDoubling(c, r, 2 * a, base, 1);
    OneDoubling(c, r, 4 * a, base, 2);
    OneDoubling(c, r, 8 * a, base, 3);
  }

  lemma OneDoubling<P(!new)>(c: CurveMap<P>, r: Ext, a: int, base: P, n: nat)
    requires GroupLaw(c) && IsMultiple(c, DoubledExt(r, n), a, base)
    ensures IsMultiple(c, DoubledExt(r, n + 1), 2 * a, base)
  {
    hide GroupLaw, Mul, Products, DoubleTerms;
    GroupIsAbelian(c);
    DoubleLaw(c, DoubledExt(r, n));
    MulAdd(c.g, a, a, base);
  }

  /** Odd digits, four doublings, even digits: the value of all digits times the base point. */
  lemma BaseIs<P(!new)>(c: CurveMap<P>, odd: seq<Entry>, even: seq<Entry>, d: seq<int>, base: P)
    requires GroupLaw(c) && EntriesAre(c, odd, d, 1, base) && EntriesAre(c, even, d, 0, base)
    ensures IsMultiple(c, BaseExt(odd, even), W4.Horner16(d, 0), base)
  {
    hide GroupLaw, Mul, Pow2, BM.Half, RfcAdd, SumExt, DoubledExt, Doubled, W4.Horner16;
    GroupIsAbelian(c);
    BM.HalfStart(d);
    StartLaw(c, odd[0].q);
    SumIs(c, Doubled(odd[0].q), odd, d, 1, 0, 32, base);
    var half, h := SumExt(Doubled(odd[0].q), odd, 32), BM.Half(d, 1, 32);
    FourDoublings(c, half, h, base);
    SumLaw(c, DoubledExt(half, 4), even[0].q);
    MulAdd(c.g, 16 * h, BM.Half(d, 0, 1), base);
    SumIs(c, RfcAdd(DoubledExt(half, 4), even[0].q), even, d, 0, 16 * h, 32, base);
    BM.WholeValue(d);
  }

  // ---------------------------------------------------------------------------------------
  // The method
  // ---------------------------------------------------------------------------------------

  /** The entries for the digits of one parity. */
  method ChooseAll(table: seq<seq<Byte>>, d: seq<SChar>, odd: nat, points: seq<Ext>) returns (e: seq<Entry>)
    requires TableFor(table, points) && |d| == 64 && odd <= 1 && forall i :: 0 <= i < 64 ==> -8 <= d[i] <= 8
    ensures ValidEntries(e) && forall i :: 0 <= i < 32 ==> e[i].q == Chosen(points, i, d[2 * i + odd])
  {
    hide TableFor, EntryFor, Chosen;
    e := [];
    TableSize(table, points);
    for i := 0 to 32
      invariant |e| == i && forall k :: 0 <= k < i ==> e[k].q == Chosen(points, k, d[2 * k + odd])
      invariant forall k :: 0 <= k < i ==> EntryFor(e[k].n, e[k].q, RowFactor(8 * k))
    {
      var n := ChooseNiels(table, i, d[2 * i + odd], points);
      e := e + [Entry(n, Chosen(points, i, d[2 * i + odd]))];
    }
  }

  lemma TableSize(table: seq<seq<Byte>>, points: seq<Ext>)
    requires TableFor(table, points)
    ensures |points| == 256
  {
  }

  lemma ChosenEntriesAre<P(!new)>(c: CurveMap<P>, points: seq<Ext>, e: seq<Entry>, d: seq<int>, odd: nat, base: P)
    requires GroupLaw(c) && PointsAre(c, points, base) && |e| == 32 && |d| == 64 && odd <= 1
    requires forall i :: 0 <= i < 64 ==> -8 <= d[i] <= 8
    requires forall i :: 0 <= i < 32 ==> e[i].q == Chosen(points, i, d[2 * i + odd])
    ensures EntriesAre(c, e, d, odd, base)
  {
    hide GroupLaw, Chosen, IsMultiple, Pow2;
    forall i | 0 <= i < 32
      ensures e[i].q.z == 1 && IsMultiple(c, e[i].q, d[2 * i + odd] * Pow2(8 * i), base)
    {
      ChosenIs(c, points, i, d[2 * i + odd], base);
    }
  }

  /** ge25519_scalarmult_base_niels on limbs: all four coordinates of s*B. */
  method ScalarmultBase<P(!new)>(table: seq<seq<Byte>>, s: Scalar, points: seq<Ext>, ghost c: CurveMap<P>, ghost base: P)
    returns (r: Ge, ghost e: Ext)
    requires TableFor(table, points) && Value(s) < Pow2(255)
    ensures SmallGe(r) && CongExt(Coords(r), e)
    ensures GroupLaw(c) && PointsAre(c, points, base) ==> IsMultiple(c, Coords(r), Value(s), base)
  {
    hide TableFor, SmallGe, CongExt, Coords, Low, Pow2, Leads, BaseOps, BaseExt, GroupLaw, PointsAre, Mul, W4.Horner16,
         ValidEntries, EntriesAre, Chosen;
    var b := new SChar[64];
    W4.Recode(b, s);
    var d := b[..];
    TableSize(table, points);
    var odd := ChooseAll(table, d, 1, points);
    var even := ChooseAll(table, d, 0, points);
    EntryCount(odd);
    EntryCount(even);
    ghost var pending := BaseLeads(odd, even);
    e := BaseExt(odd, even);
    var start := Machine([NEUTRAL], P1p1(ZERO, ZERO, ZERO, ZERO), []);
    RunsTo(BaseOps(odd, even), OnePoint(Unset, None), OnePoint(Full(e), pending));
    var t := Run(BaseOps(odd, even), start, OnePoint(Unset, None));
    assert PointFor(t.points[0], OnePoint(Full(e), pending).points[0]);
    r := t.points[0];
    if GroupLaw(c) && PointsAre(c, points, base) {
      ChosenEntriesAre(c, points, odd, d, 1, base);
      ChosenEntriesAre(c, points, even, d, 0, base);
      BaseIs(c, odd, even, d, base);
      CongLaw(c, Coords(r), e);
    }
  }

  lemma EntryCount(e: seq<Entry>)
    requires ValidEntries(e)
    ensures |e| == 32
  {
  }
}
