/**
 * ge25519_double_scalarmult_vartime as a sequence of point operations on limbs. It never reads a
 * coordinate that was not computed, and if the formulas of the standard are the group law of the
 * curve, the point that it leaves is s1*p1 + s2*B.
 */
module DoublePrograms {
  import opened Wrappers
  import opened Words
  import opened Groups
  import opened ScalarLimbs
  import opened FieldOps
  import opened PointFormulas
  import opened PointPrograms
  import opened CurveLaw
  import SM = ScalarMult
  import SW = SlidingWindow

  // ---------------------------------------------------------------------------------------
  // Sequences
  // ---------------------------------------------------------------------------------------

  /** From m the operations are all ready, and end in m'. */
  ghost predicate Leads(ops: seq<Op>, m: Model, m': Model) { AllReady(ops, m) && AfterAll(ops, m) == m' }

  lemma LeadsNowhere(m: Model)
    ensures Leads([], m, m)
  {
  }

  lemma LeadsOne(op: Op, m: Model)
    requires Ready(op, m)
    ensures Leads([op], m, After(op, m))
  {
    hide Ready, After;
    assert [op][1..] == [] && [op][0] == op;
    assert AllReady([], After(op, m)) && AfterAll([], After(op, m)) == After(op, m);
  }

  lemma {:induction false} LeadsThen(ops: seq<Op>, more: seq<Op>, m: Model, m1: Model, m2: Model)
    requires Leads(ops, m, m1) && Leads(more, m1, m2)
    ensures Leads(ops + more, m, m2)
    decreases |ops|
  {
    hide Ready, After;
    if ops == [] {
      assert ops + more == more;
    } else {
      assert (ops + more)[1..] == ops[1..] + more;
      LeadsThen(ops[1..], more, After(ops[0], m), m1, m2);
    }
  }

  // ---------------------------------------------------------------------------------------
  // The program
  // ---------------------------------------------------------------------------------------

  /** Entries of a table, and the points that they stand for. */
  datatype Table = Table(n: seq<Niels>, q: seq<Ext>)

  ghost predicate ValidTable(t: Table) {
    |t.n| == SM.TABLE2 == |t.q| && forall i :: 0 <= i < SM.TABLE2 ==> NielsFor(t.n[i], t.q[i])
  }

  /** Registers: p1 is 0, d1 is 1, r is 2; pre1 is the table of cached points. */
  function TableOps(n: nat): seq<Op> {
    if n == 0 then [] else TableOps(n - 1) + [CacheSum(n, 1, n - 1)]
  }

  function PrefixOps(): seq<Op> {
    [DoublePoint(0)] + [ToFull(1)] + [Cache(0, 0)] + TableOps(SM.TABLE1 - 1) + [SetNeutral(2)]
  }

  /** A digit that its table has an entry for. */
  predicate DigitOk(d: int, size: nat) { SM.Abs(d) / 2 < size }

  function AddOps(d1: int): seq<Op> {
    if d1 == 0 then [] else [ToFull(2)] + [AddCached(2, SM.Abs(d1) / 2, d1 < 0)]
  }

  function EntryOps(d2: int, t: Table): seq<Op>
    requires DigitOk(d2, |t.n|) && |t.q| == |t.n|
  {
    if d2 == 0 then [] else [ToFull(2)] + [AddEntry(2, t.n[SM.Abs(d2) / 2], t.q[SM.Abs(d2) / 2], d2 < 0)]
  }

  /** One turn of the loop. */
  function TurnOps(d1: int, d2: int, t: Table): seq<Op>
    requires DigitOk(d2, |t.n|) && |t.q| == |t.n|
  {
    [DoublePoint(2)] + AddOps(d1) + EntryOps(d2, t) + [ToPartial(2)]
  }

  ghost predicate DigitsOk(s1: seq<int>, s2: seq<int>) {
    && |s1| == |s2| && (forall i :: 0 <= i < |s1| ==> DigitOk(s1[i], SM.TABLE1))
    && (forall i :: 0 <= i < |s2| ==> DigitOk(s2[i], SM.TABLE2))
  }

  /** The turns for digits n - 1 down to 0. */
  function LoopOps(s1: seq<int>, s2: seq<int>, t: Table, n: nat): seq<Op>
    requires DigitsOk(s1, s2) && ValidTable(t) && n <= |s1|
  {
    if n == 0 then [] else TurnOps(s1[n - 1], s2[n - 1], t) + LoopOps(s1, s2, t, n - 1)
  }

  // ---------------------------------------------------------------------------------------
  // What it computes on coordinates
  // ---------------------------------------------------------------------------------------

  /** Entry n of the table of cached points: p1, and 2*p1 added n times. */
  function PreExt(p1: Ext, n: nat): Ext {
    if n == 0 then p1 else RfcAdd(Products(DoubleTerms(p1)), PreExt(p1, n - 1))
  }

  function WithCached(r: Ext, p1: Ext, d: int): Ext {
    if d == 0 then r else RfcAdd(r, SignedExt(PreExt(p1, SM.Abs(d) / 2), d < 0))
  }

  function WithEntry(r: Ext, t: Table, d: int): Ext
    requires DigitOk(d, |t.q|)
  {
    if d == 0 then r else RfcAdd(r, SignedExt(t.q[SM.Abs(d) / 2], d < 0))
  }

  function TurnExt(r: Ext, p1: Ext, t: Table, d1: int, d2: int): Ext
    requires DigitOk(d2, |t.q|)
  {
    WithEntry(WithCached(Products(DoubleTerms(r)), p1, d1), t, d2)
  }

  /** The point after the turns for digits top - 1 down to n. */
  ghost function LoopExt(p1: Ext, s1: seq<int>, s2: seq<int>, t: Table, top: nat, n: nat): Ext
    requires DigitsOk(s1, s2) && ValidTable(t) && n <= top <= |s1|
    decreases top - n
  {
    if n == top then Ext(0, 1, 1, 0) else TurnExt(LoopExt(p1, s1, s2, t, top, n + 1), p1, t, s1[n], s2[n])
  }

  // ---------------------------------------------------------------------------------------
  // The program is ready and computes that
  // ---------------------------------------------------------------------------------------

  function Pre(p1: Ext, n: nat): seq<Option<Ext>>
    requires n <= SM.TABLE1
  {
    seq(SM.TABLE1, i requires 0 <= i < SM.TABLE1 => if i < n then Some(PreExt(p1, i)) else None)
  }

  /** The machine in the loop. */
  function LoopModel(p1: Ext, r: Known, pending: Option<EHGF>): Model {
    Model([Full(p1), Full(Products(DoubleTerms(p1))), r], pending, Pre(p1, SM.TABLE1))
  }

  lemma SetThird(a: Known, b: Known, r: Known, r': Known)
    ensures [a, b, r][2 := r'] == [a, b, r'] && [a, r, b][1 := r'] == [a, r', b]
  {
  }

  function StartModel(p1: Ext): Model { Model([Full(p1), Unset, Unset], None, Pre(p1, 0)) }

  lemma {:induction false} TableLeads(p1: Ext, pending: Option<EHGF>, n: nat)
    requires n < SM.TABLE1
    ensures var points := [Full(p1), Full(Products(DoubleTerms(p1))), Unset];
            Leads(TableOps(n), Model(points, pending, Pre(p1, 1)), Model(points, pending, Pre(p1, n + 1)))
  {
    hide Leads, RfcAdd, Products, DoubleTerms, NielsFor, EntryFor;
    var points := [Full(p1), Full(Products(DoubleTerms(p1))), Unset];
    var m := Model(points, pending, Pre(p1, 1));
    if n == 0 {
      LeadsNowhere(m);
    } else {
      TableLeads(p1, pending, n - 1);
      var m1, op := Model(points, pending, Pre(p1, n)), CacheSum(n, 1, n - 1);
      LeadsOne(op, m1);
      assert Pre(p1, n)[n := Some(PreExt(p1, n))] == Pre(p1, n + 1);
      LeadsThen(TableOps(n - 1), [op], m, m1, After(op, m1));
    }
  }

  /** Double p1, cache it, fill the table and set r to the neutral element. */
  lemma PrefixLeads(p1: Ext) returns (pending: Option<EHGF>)
    ensures Leads(PrefixOps(), StartModel(p1), LoopModel(p1, Full(Ext(0, 1, 1, 0)), pending))
  {
    hide Leads, RfcAdd, Products, DoubleTerms, NielsFor, EntryFor;
    var m0 := StartModel(p1);
    pending := Some(DoubleTerms(p1));
    LeadsOne(DoublePoint(0), m0);
    var m1 := After(DoublePoint(0), m0);
    LeadsOne(ToFull(1), m1);
    SetThird(Full(p1), Unset, Unset, Full(Products(DoubleTerms(p1))));
    var m2 := Model([Full(p1), Full(Products(DoubleTerms(p1))), Unset], pending, Pre(p1, 0));
    LeadsThen([DoublePoint(0)], [ToFull(1)], m0, m1, m2);
    LeadsOne(Cache(0, 0), m2);
    var points := [Full(p1), Full(Products(DoubleTerms(p1))), Unset];
    var m3 := Model(points, pending, Pre(p1, 1));
    assert Pre(p1, 0)[0 := Some(p1)] == Pre(p1, 1);
    LeadsThen([DoublePoint(0)] + [ToFull(1)], [Cache(0, 0)], m0, m2, m3);
    TableLeads(p1, pending, SM.TABLE1 - 1);
    var m4 := Model(points, pending, Pre(p1, SM.TABLE1));
    LeadsThen([DoublePoint(0)] + [ToFull(1)] + [Cache(0, 0)], TableOps(SM.TABLE1 - 1), m0, m3, m4);
    LeadsOne(SetNeutral(2), m4);
    SetThird(Full(p1), Full(Products(DoubleTerms(p1))), Unset, Full(Ext(0, 1, 1, 0)));
    LeadsThen([DoublePoint(0)] + [ToFull(1)] + [Cache(0, 0)] + TableOps(SM.TABLE1 - 1), [SetNeutral(2)], m0, m4,
              LoopModel(p1, Full(Ext(0, 1, 1, 0)), pending));
  }

  /** Completing r and adding a point leaves the factors of the sum pending. */
  lemma AddLeads(p1: Ext, r: Known, k: EHGF, d: int) returns (r': Known, k': EHGF)
    requires DigitOk(d, SM.TABLE1)
    ensures Leads(AddOps(d), LoopModel(p1, r, Some(k)), LoopModel(p1, r', Some(k')))
    ensures Products(k') == WithCached(Products(k), p1, d)
  {
    hide Leads, AddFactors, Products, DoubleTerms, NielsFor, EntryFor, SignedExt;
    var m := LoopModel(p1, r, Some(k));
    r', k' := r, k;
    if d == 0 {
      LeadsNowhere(m);
    } else {
      var i := SM.Abs(d) / 2;
      r', k' := Full(Products(k)), AddFactors(Products(k), SignedExt(PreExt(p1, i), d < 0));
      LeadsOne(ToFull(2), m);
      SetThird(Full(p1), Full(Products(DoubleTerms(p1))), r, r');
      var m1, op := LoopModel(p1, r', Some(k)), AddCached(2, i, d < 0);
      LeadsOne(op, m1);
      LeadsThen([ToFull(2)], [op], m, m1, LoopModel(p1, r', Some(k')));
    }
  }

  lemma EntryLeads(p1: Ext, r: Known, k: EHGF, d: int, t: Table) returns (r': Known, k': EHGF)
    requires ValidTable(t) && DigitOk(d, SM.TABLE2)
    ensures Leads(EntryOps(d, t), LoopModel(p1, r, Some(k)), LoopModel(p1, r', Some(k')))
    ensures Products(k') == WithEntry(Products(k), t, d)
  {
    hide Leads, AddFactors, Products, DoubleTerms, NielsFor, EntryFor, SignedExt, Pre;
    var m := LoopModel(p1, r, Some(k));
    r', k' := r, k;
    if d == 0 {
      LeadsNowhere(m);
    } else {
      var i := SM.Abs(d) / 2;
      r', k' := Full(Products(k)), AddFactors(Products(k), SignedExt(t.q[i], d < 0));
      LeadsOne(ToFull(2), m);
      SetThird(Full(p1), Full(Products(DoubleTerms(p1))), r, r');
      var m1, op := LoopModel(p1, r', Some(k)), AddEntry(2, t.n[i], t.q[i], d < 0);
      LeadsOne(op, m1);
      LeadsThen([ToFull(2)], [op], m, m1, LoopModel(p1, r', Some(k')));
    }
  }

  /** One turn: r loses its current t, but only the doubling of the next turn sees that. */
  lemma TurnLeads(p1: Ext, r: Known, pending: Option<EHGF>, t: Table, d1: int, d2: int) returns (pending': Option<EHGF>)
    requires ValidTable(t) && !r.Unset? && DigitOk(d1, SM.TABLE1) && DigitOk(d2, SM.TABLE2)
    ensures Leads(TurnOps(d1, d2, t), LoopModel(p1, r, pending),
                  LoopModel(p1, Partial(TurnExt(r.m, p1, t, d1, d2)), pending'))
  {
    hide Leads, Products, DoubleTerms, NielsFor, EntryFor, Pre, WithCached, WithEntry, AddOps, EntryOps;
    var m0 := LoopModel(p1, r, pending);
    var k0 := DoubleTerms(r.m);
    LeadsOne(DoublePoint(2), m0);
    var m1 := LoopModel(p1, r, Some(k0));
    var r2, k2 := AddLeads(p1, r, k0, d1);
    var m2 := LoopModel(p1, r2, Some(k2));
    LeadsThen([DoublePoint(2)], AddOps(d1), m0, m1, m2);
    var r3, k3 := EntryLeads(p1, r2, k2, d2, t);
    var m3 := LoopModel(p1, r3, Some(k3));
    LeadsThen([DoublePoint(2)] + AddOps(d1), EntryOps(d2, t), m0, m2, m3);
    LeadsOne(ToPartial(2), m3);
    SetThird(Full(p1), Full(Products(DoubleTerms(p1))), r3, Partial(Products(k3)));
    pending' := Some(k3);
    LeadsThen([DoublePoint(2)] + AddOps(d1) + EntryOps(d2, t), [ToPartial(2)], m0, m3,
              LoopModel(p1, Partial(Products(k3)), pending'));
  }

  /** The turns from digit n - 1 on. */
  lemma {:induction false} LoopLeads(p1: Ext, r: Known, pending: Option<EHGF>, s1: seq<int>, s2: seq<int>, t: Table,
                                     top: nat, n: nat)
    returns (r': Known, pending': Option<EHGF>)
    requires DigitsOk(s1, s2) && ValidTable(t) && n <= top <= |s1| && !r.Unset? && r.m == LoopExt(p1, s1, s2, t, top, n)
    ensures !r'.Unset? && r'.m == LoopExt(p1, s1, s2, t, top, 0) && if n > 0 then r'.Partial? else r' == r
    ensures Leads(LoopOps(s1, s2, t, n), LoopModel(p1, r, pending), LoopModel(p1, r', pending'))
    decreases n
  {
    hide Leads, LoopModel, TurnExt, TurnOps;
    var m := LoopModel(p1, r, pending);
    r', pending' := r, pending;
    if n == 0 {
      LeadsNowhere(m);
    } else {
      pending' := TurnLeads(p1, r, pending, t, s1[n - 1], s2[n - 1]);
      r' := Partial(TurnExt(r.m, p1, t, s1[n - 1], s2[n - 1]));
      var m1 := LoopModel(p1, r', pending');
      r', pending' := LoopLeads(p1, r', pending', s1, s2, t, top, n - 1);
      LeadsThen(TurnOps(s1[n - 1], s2[n - 1], t), LoopOps(s1, s2, t, n - 1), m, m1, LoopModel(p1, r', pending'));
    }
  }

  /** The whole program, for any number of leading digits skipped, reads only what was computed. */
  lemma ProgramLeads(p1: Ext, s1: seq<int>, s2: seq<int>, t: Table, top: nat) returns (r: Known, pending: Option<EHGF>)
    requires DigitsOk(s1, s2) && ValidTable(t) && top <= |s1|
    ensures !r.Unset? && r.m == LoopExt(p1, s1, s2, t, top, 0) && (top > 0 ==> r.Partial?)
    ensures Leads(PrefixOps() + LoopOps(s1, s2, t, top), StartModel(p1), LoopModel(p1, r, pending))
  {
    hide Leads, LoopModel, StartModel, PrefixOps, LoopOps;
    pending := PrefixLeads(p1);
    r := Full(Ext(0, 1, 1, 0));
    var m1 := LoopModel(p1, r, pending);
    r, pending := LoopLeads(p1, r, pending, s1, s2, t, top, top);
    LeadsThen(PrefixOps(), LoopOps(s1, s2, t, top), StartModel(p1), m1, LoopModel(p1, r, pending));
  }

  // ---------------------------------------------------------------------------------------
  // What it computes in the group
  // ---------------------------------------------------------------------------------------

  /** The cached points are the odd multiples of p1. */
  lemma {:induction false} PreIs<P(!new)>(c: CurveMap<P>, p1: Ext, n: nat)
    requires GroupLaw(c) && c.on(p1)
    ensures IsMultiple(c, PreExt(p1, n), 2 * n + 1, c.pt(p1))
  {
    hide GroupLaw, RfcAdd, Products, DoubleTerms, Mul;
    GroupIsAbelian(c);
    MulOne(c.g, c.pt(p1));
    if n > 0 {
      PreIs(c, p1, n - 1);
      DoubleLaw(c, p1);
      SumLaw(c, Products(DoubleTerms(p1)), PreExt(p1, n - 1));
      MulAdd(c.g, 2, 2 * n - 1, c.pt(p1));
    }
  }

  lemma GroupIsAbelian<P(!new)>(c: CurveMap<P>)
    requires GroupLaw(c)
    ensures Abelian(c.g) && c.on(Ext(0, 1, 1, 0)) && c.pt(Ext(0, 1, 1, 0)) == c.g.zero
  {
  }

  /** The entries of the table are the odd multiples of the base point. */
  ghost predicate TableIs<P(!new)>(c: CurveMap<P>, t: Table, base: P) {
    |t.q| == SM.TABLE2 && forall i :: 0 <= i < SM.TABLE2 ==> IsMultiple(c, t.q[i], 2 * i + 1, base)
  }

  /** r is a*p + b*base. */
  ghost predicate IsSum<P(!new)>(c: CurveMap<P>, r: Ext, a: int, p: P, b: int, base: P) {
    c.on(r) && c.pt(r) == SM.Combination(c.g, a, p, b, base)
  }

  predicate OddOrZero(d: int) { d == 0 || d % 2 == 1 }

  lemma WithCachedIs<P(!new)>(c: CurveMap<P>, r: Ext, p1: Ext, d: int, a: int, b: int, base: P)
    requires GroupLaw(c) && c.on(p1) && IsSum(c, r, a, c.pt(p1), b, base) && OddOrZero(d)
    ensures IsSum(c, WithCached(r, p1, d), a + d, c.pt(p1), b, base)
  {
    hide GroupLaw, RfcAdd, SM.Combination, Mul, SignedExt;
    GroupIsAbelian(c);
    if d != 0 {
      var i := SM.Abs(d) / 2;
      assert 2 * i + 1 == SM.Abs(d);
      PreIs(c, p1, i);
      SignedLaw(c, PreExt(p1, i), 2 * i + 1, c.pt(p1), d < 0);
      SumLaw(c, r, SignedExt(PreExt(p1, i), d < 0));
      SM.CombinationAddLeft(c.g, a, c.pt(p1), b, base, d);
    }
  }

  lemma WithEntryIs<P(!new)>(c: CurveMap<P>, r: Ext, t: Table, d: int, a: int, p: P, b: int, base: P)
    requires GroupLaw(c) && TableIs(c, t, base) && IsSum(c, r, a, p, b, base) && OddOrZero(d) && DigitOk(d, SM.TABLE2)
    ensures IsSum(c, WithEntry(r, t, d), a, p, b + d, base)
  {
    hide GroupLaw, RfcAdd, SM.Combination, Mul, SignedExt;
    GroupIsAbelian(c);
    if d != 0 {
      var i := SM.Abs(d) / 2;
      assert 2 * i + 1 == SM.Abs(d) && IsMultiple(c, t.q[i], 2 * i + 1, base);
      SignedLaw(c, t.q[i], 2 * i + 1, base, d < 0);
      SumLaw(c, r, SignedExt(t.q[i], d < 0));
      SM.CombinationAddRight(c.g, a, p, b, base, d);
    }
  }

  /** One turn doubles both factors and adds the digits. */
  lemma TurnIs<P(!new)>(c: CurveMap<P>, r: Ext, p1: Ext, t: Table, d1: int, d2: int, a: int, b: int, base: P)
    requires GroupLaw(c) && c.on(p1) && TableIs(c, t, base) && IsSum(c, r, a, c.pt(p1), b, base)
    requires OddOrZero(d1) && OddOrZero(d2) && DigitOk(d2, SM.TABLE2)
    ensures IsSum(c, TurnExt(r, p1, t, d1, d2), 2 * a + d1, c.pt(p1), 2 * b + d2, base)
  {
    hide GroupLaw, SM.Combination, Products, DoubleTerms, WithCached, WithEntry, TableIs;
    GroupIsAbelian(c);
    DoubleLaw(c, r);
    SM.CombinationDouble(c.g, a, c.pt(p1), b, base);
    var s := Products(DoubleTerms(r));
    WithCachedIs(c, s, p1, d1, 2 * a, 2 * b, base);
    WithEntryIs(c, WithCached(s, p1, d1), t, d2, 2 * a + d1, c.pt(p1), 2 * b, base);
  }

  lemma {:induction false} LoopIs<P(!new)>(c: CurveMap<P>, p1: Ext, s1: seq<int>, s2: seq<int>, t: Table, top: nat,
                                           n: nat, base: P)
    requires GroupLaw(c) && c.on(p1) && TableIs(c, t, base) && DigitsOk(s1, s2) && ValidTable(t) && n <= top <= |s1|
    requires forall i :: 0 <= i < |s1| ==> OddOrZero(s1[i]) && OddOrZero(s2[i])
    requires SW.Horner(s1, top) == 0 == SW.Horner(s2, top)
    ensures IsSum(c, LoopExt(p1, s1, s2, t, top, n), SW.Horner(s1, n), c.pt(p1), SW.Horner(s2, n), base)
    decreases top - n
  {
    hide GroupLaw, SM.Combination, TableIs, TurnExt, SW.Horner, ValidTable;
    GroupIsAbelian(c);
    if n == top {
      SM.CombinationZero(c.g, c.pt(p1), base);
    } else {
      LoopIs(c, p1, s1, s2, t, top, n + 1, base);
      SM.HornerStep(s1, n);
      SM.HornerStep(s2, n);
      TurnIs(c, LoopExt(p1, s1, s2, t, top, n + 1), p1, t, s1[n], s2[n], SW.Horner(s1, n + 1), SW.Horner(s2, n + 1), base);
    }
  }

  lemma RecodedDigits(s: seq<int>, v: int, w: nat)
    requires w == 5 || w == 7
    requires SW.Recoded(s, v, w)
    ensures |s| == SW.LEN && SW.Horner(s, 0) == v
    ensures forall i :: 0 <= i < |s| ==> OddOrZero(s[i]) && DigitOk(s[i], if w == 5 then SM.TABLE1 else SM.TABLE2)
  {
    hide SW.Horner;
    forall i | 0 <= i < |s| ensures OddOrZero(s[i]) && DigitOk(s[i], if w == 5 then SM.TABLE1 else SM.TABLE2) {
      if s[i] != 0 { SM.DigitInTable(s, v, w, i); }
    }
  }

  /** ge25519_double_scalarmult_vartime on limbs: x, y and z of r, with the right t, are s1*p1 + s2*B. */
  method DoubleScalarmult<P(!new)>(p1: Ge, s1: Scalar, s2: Scalar, t: Table, ghost c: CurveMap<P>, ghost base: P)
    returns (r: Ge, ghost e: Ext)
    requires SmallGe(p1) && ValidTable(t) && Value(s1) < Pow2(255) && Value(s2) < Pow2(255)
    ensures SmallXyz(r) && CongXyz(Coords(r), e)
    ensures GroupLaw(c) && c.on(Coords(p1)) && TableIs(c, t, base) ==>
              && c.on(Coords(r).(t := e.t))
              && c.pt(Coords(r).(t := e.t)) == c.g.add(Mul(c.g, Value(s1), c.pt(Coords(p1))), Mul(c.g, Value(s2), base))
  {
    hide SmallGe, SmallXyz, CongExt, CongXyz, Coords, ValidTable, Low, Pow2, Leads, LoopModel, StartModel, PrefixOps,
         LoopOps, GroupLaw, TableIs, SW.Horner, SW.Recoded, Mul, Represents, DigitsOk, OddOrZero, DigitOk;
    ghost var m := Coords(p1);
    var slide1, slide2 := new SChar[256], new SChar[256];
    SW.Recode(slide1, s1, 5);
    SW.Recode(slide2, s2, 7);
    var d1: seq<int>, d2: seq<int> := slide1[..], slide2[..];
    RecodedDigits(d1, Value(s1), 5);
    RecodedDigits(d2, Value(s2), 7);
    var top := SkipZeros(d1, d2);
    DigitsAreOk(d1, d2);
    ghost var k, pending := ProgramLeads(m, d1, d2, t, top);
    var start := Machine([p1, NEUTRAL, NEUTRAL], P1p1(ZERO, ZERO, ZERO, ZERO),
                         seq(SM.TABLE1, i => Pniels(ZERO, ZERO, ZERO, ZERO)));
    CongRefl(m);
    StartRepresents(start, m);
    RunsTo(PrefixOps() + LoopOps(d1, d2, t, top), StartModel(m), LoopModel(m, k, pending));
    var s := Run(PrefixOps() + LoopOps(d1, d2, t, top), start, StartModel(m));
    ThirdRegister(s, m, k, pending);
    r, e := s.points[2], k.m;
    if GroupLaw(c) && c.on(m) && TableIs(c, t, base) {
      LoopIs(c, m, d1, d2, t, top, 0, base);
      SM.CombinationIs(c.g, Value(s1), c.pt(m), Value(s2), base);
      CompletedBy(Coords(r), e);
      CongLaw(c, Coords(r).(t := e.t), e);
    }
  }

  lemma CongRefl(m: Ext)
    ensures CongExt(m, m)
  {
  }

  lemma CompletedBy(m: Ext, e: Ext)
    requires CongXyz(m, e)
    ensures CongExt(m.(t := e.t), e)
  {
  }

  lemma DigitsAreOk(s1: seq<int>, s2: seq<int>)
    requires |s1| == |s2|
    requires forall i :: 0 <= i < |s1| ==> DigitOk(s1[i], SM.TABLE1) && DigitOk(s2[i], SM.TABLE2)
    ensures DigitsOk(s1, s2)
  {
  }

  /** The digits above top are all zero. */
  method SkipZeros(s1: seq<int>, s2: seq<int>) returns (top: nat)
    requires |s1| == |s2|
    ensures top <= |s1| && SW.Horner(s1, top) == 0 == SW.Horner(s2, top)
  {
    hide SW.Horner;
    top := |s1|;
    SW.HornerEnd(s1);
    SW.HornerEnd(s2);
    while top > 0 && s1[top - 1] == 0 && s2[top - 1] == 0
      invariant top <= |s1| && SW.Horner(s1, top) == 0 == SW.Horner(s2, top)
    {
      SM.HornerStep(s1, top - 1);
      SM.HornerStep(s2, top - 1);
      top := top - 1;
    }
  }

  lemma RunsTo(ops: seq<Op>, m: Model, m': Model)
    requires Leads(ops, m, m')
    ensures AllReady(ops, m) && AfterAll(ops, m) == m'
  {
  }

  lemma StartRepresents(s: Machine, m: Ext)
    requires |s.points| == 3 && |s.cached| == SM.TABLE1 && SmallGe(s.points[0]) && CongExt(Coords(s.points[0]), m)
    ensures Represents(s, StartModel(m))
  {
    hide SmallGe, CongExt, Coords;
  }

  lemma ThirdRegister(s: Machine, m: Ext, k: Known, pending: Option<EHGF>)
    requires Represents(s, LoopModel(m, k, pending)) && !k.Unset?
    ensures |s.points| == 3 && SmallXyz(s.points[2]) && CongXyz(Coords(s.points[2]), k.m)
  {
    hide SmallXyz, CongXyz, Coords, Products, DoubleTerms, Pre;
    assert PointFor(s.points[2], LoopModel(m, k, pending).points[2]);
    SetPoint(s.points[2], k);
  }
}
