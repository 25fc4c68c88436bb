/**
 * Every sequence of point operations: a machine with point registers, one p1p1 and a table of
 * cached points, whose operations are the functions of the group code. Whatever is computed from
 * what, all limbs stay fit for the next operation and every result is, modulo p, the one of the
 * formulas on integers, as long as no operation reads a coordinate that was not computed. The
 * two scalar multiplications are shown to be such sequences.
 */
module PointPrograms {
  import opened Wrappers
  import opened Field
  import opened FieldOps
  import opened PointFormulas

  /** Point registers, the p1p1 under way, and the table of cached points. */
  datatype Machine = Machine(points: seq<Ge>, pending: P1p1, cached: seq<Pniels>)

  /** One operation: point registers are i, j and r (the target), table places are c and e. */
  datatype Op =
    | SetNeutral(r: nat)                                    // memset, y[0] = 1, z[0] = 1
    | SetEntry(r: nat, n: Niels, q: Ext)                    // the start of ge25519_scalarmult_base_niels
    | AddPoints(i: nat, j: nat)                             // ge25519_add_p1p1
    | DoublePoint(i: nat)                                   // ge25519_double_p1p1
    | AddCached(i: nat, c: nat, negative: bool)             // ge25519_pnielsadd_p1p1
    | AddEntry(i: nat, n: Niels, q: Ext, negative: bool)    // ge25519_nielsadd2_p1p1
    | ToFull(r: nat)                                        // ge25519_p1p1_to_full
    | ToPartial(r: nat)                                     // ge25519_p1p1_to_partial
    | Cache(c: nat, i: nat)                                 // ge25519_full_to_pniels
    | CacheSum(e: nat, i: nat, c: nat)                      // ge25519_pnielsadd
    | AddInPlace(r: nat, n: Niels, q: Ext)                  // ge25519_nielsadd2
    | AddScaled(r: nat, n: Niels, q: Ext)                   // curve25519_mul by ge25519_ecd, ge25519_nielsadd2

  /** What is known of a point register: nothing, all but a current t, or all four coordinates. */
  datatype Known = Unset | Partial(m: Ext) | Full(m: Ext)

  /** What is known of a machine. */
  datatype Model = Model(points: seq<Known>, pending: Option<EHGF>, cached: seq<Option<Ext>>)

  predicate IsFull(m: Model, i: nat) { i < |m.points| && m.points[i].Full? }
  predicate IsSet(m: Model, i: nat) { i < |m.points| && !m.points[i].Unset? }
  predicate IsCached(m: Model, c: nat) { c < |m.cached| && m.cached[c].Some? }

  /** The operation reads nothing that was not computed: only a doubling may see a point without current t. */
  ghost predicate Ready(op: Op, m: Model) {
    match op
    case SetNeutral(r) => r < |m.points|
    case SetEntry(r, n, q) => r < |m.points| && EntryFor(n, q, 2)
    case AddPoints(i, j) => IsFull(m, i) && IsFull(m, j)
    case DoublePoint(i) => IsSet(m, i)
    case AddCached(i, c, _) => IsFull(m, i) && IsCached(m, c)
    case AddEntry(i, n, q, _) => IsFull(m, i) && NielsFor(n, q)
    case ToFull(r) => r < |m.points| && m.pending.Some?
    case ToPartial(r) => r < |m.points| && m.pending.Some?
    case Cache(c, i) => c < |m.cached| && IsFull(m, i)
    case CacheSum(e, i, c) => e < |m.cached| && IsFull(m, i) && IsCached(m, c)
    case AddInPlace(r, n, q) => IsFull(m, r) && NielsFor(n, q)
    case AddScaled(r, n, q) => IsFull(m, r) && EntryFor(n, q, 2)
  }

  function WithPoint(m: Model, r: nat, k: Known): Model
    requires r < |m.points|
  {
    m.(points := m.points[r := k])
  }

  /** What one operation means: the formulas of section 5.1.4 of RFC 8032. */
  ghost function After(op: Op, m: Model): Model
    requires Ready(op, m)
  {
    match op
    case SetNeutral(r) => WithPoint(m, r, Full(Ext(0, 1, 1, 0)))
    case SetEntry(r, _, q) => WithPoint(m, r, Full(Doubled(q)))
    case AddPoints(i, j) => m.(pending := Some(AddFactors(m.points[i].m, m.points[j].m)))
    case DoublePoint(i) => m.(pending := Some(DoubleTerms(m.points[i].m)))
    case AddCached(i, c, negative) => m.(pending := Some(AddFactors(m.points[i].m, SignedExt(m.cached[c].value, negative))))
    case AddEntry(i, _, q, negative) => m.(pending := Some(AddFactors(m.points[i].m, SignedExt(q, negative))))
    case ToFull(r) => WithPoint(m, r, Full(Products(m.pending.value)))
    case ToPartial(r) => WithPoint(m, r, Partial(Products(m.pending.value)))
    case Cache(c, i) => m.(cached := m.cached[c := Some(m.points[i].m)])
    case CacheSum(e, i, c) => m.(cached := m.cached[e := Some(RfcAdd(m.points[i].m, m.cached[c].value))])
    case AddInPlace(r, _, q) => WithPoint(m, r, Full(RfcAdd(m.points[r].m, q)))
    case AddScaled(r, _, q) => WithPoint(m, r, Full(RfcAdd(m.points[r].m, q)))
  }

  ghost predicate AllReady(ops: seq<Op>, m: Model)
    decreases |ops|
  {
    ops == [] || (Ready(ops[0], m) && AllReady(ops[1..], After(ops[0], m)))
  }

  ghost function AfterAll(ops: seq<Op>, m: Model): Model
    requires AllReady(ops, m)
    decreases |ops|
  {
    if ops == [] then m else AfterAll(ops[1..], After(ops[0], m))
  }

  ghost predicate PointFor(p: Ge, k: Known) {
    match k
    case Unset => true
    case Partial(m) => SmallXyz(p) && CongXyz(Coords(p), m)
    case Full(m) => SmallGe(p) && CongExt(Coords(p), m)
  }

  /** The registers hold what is known of them, with limbs fit for every operation. */
  ghost predicate Represents(s: Machine, m: Model) {
    && |s.points| == |m.points| && |s.cached| == |m.cached|
    && (forall i :: 0 <= i < |s.points| ==> PointFor(s.points[i], m.points[i]))
    && (m.pending.Some? ==> Factors(s.pending, m.pending.value))
    && (forall c :: 0 <= c < |s.cached| && m.cached[c].Some? ==> PnielsFor(s.cached[c], m.cached[c].value))
  }

  lemma CongTrans(a: Ext, b: Ext, c: Ext)
    requires CongExt(a, b) && CongExt(b, c)
    ensures CongExt(a, c)
  {
  }

  lemma CongExtRefl(m: Ext)
    ensures CongExt(m, m)
  {
  }

  ghost predicate CongFactors(k: EHGF, l: EHGF) {
    Cong(k.e, l.e) && Cong(k.h, l.h) && Cong(k.g, l.g) && Cong(k.f, l.f)
  }

  /** The coordinates depend on the factors only modulo p. */
  lemma ProductsRespect(k: EHGF, l: EHGF)
    requires CongFactors(k, l)
    ensures CongExt(Products(k), Products(l))
  {
    hide Cong, Prod;
    CongMul(k.e, l.e, k.f, l.f);
    CongMul(k.h, l.h, k.g, l.g);
    CongMul(k.g, l.g, k.f, l.f);
    CongMul(k.e, l.e, k.h, l.h);
  }

  /** The factors of an addition depend on the coordinates only modulo p. */
  lemma AddRespects(m: Ext, m': Ext, n: Ext, n': Ext)
    requires CongExt(m, m') && CongExt(n, n')
    ensures CongFactors(AddFactors(m, n), AddFactors(m', n'))
  {
    hide Cong, Prod;
    CongAdd(m.y, m'.y, m.x, m'.x);
    CongAdd(n.y, n'.y, n.x, n'.x);
    CongMul(m.y - m.x, m'.y - m'.x, n.y - n.x, n'.y - n'.x);
    CongMul(m.y + m.x, m'.y + m'.x, n.y + n.x, n'.y + n'.x);
    CongMul(m.t, m'.t, n.t, n'.t);
    CongRefl(Value(EC2D));
    CongMul(Prod(m.t, n.t), Prod(m'.t, n'.t), Value(EC2D), Value(EC2D));
    CongMul(m.z, m'.z, n.z, n'.z);
    CongAdd(Prod(m.z, n.z), Prod(m'.z, n'.z), Prod(m.z, n.z), Prod(m'.z, n'.z));
    CongAdd(Prod(m.y + m.x, n.y + n.x), Prod(m'.y + m'.x, n'.y + n'.x),
            Prod(m.y - m.x, n.y - n.x), Prod(m'.y - m'.x, n'.y - n'.x));
    CongAdd(Prod(m.z, n.z) + Prod(m.z, n.z), Prod(m'.z, n'.z) + Prod(m'.z, n'.z),
            Prod(Prod(m.t, n.t), Value(EC2D)), Prod(Prod(m'.t, n'.t), Value(EC2D)));
  }

  lemma CongRefl(a: int)
    ensures Cong(a, a)
  {
  }

  /** So do those of a doubling, and only on x, y and z. */
  lemma DoubleRespects(m: Ext, m': Ext)
    requires CongXyz(m, m')
    ensures CongFactors(DoubleTerms(m), DoubleTerms(m'))
  {
    hide Cong, Prod;
    var a, a', b, b' := Prod(m.x, m.x), Prod(m'.x, m'.x), Prod(m.y, m.y), Prod(m'.y, m'.y);
    var c, c' := Prod(m.z, m.z), Prod(m'.z, m'.z);
    CongMul(m.x, m'.x, m.x, m'.x);
    CongMul(m.y, m'.y, m.y, m'.y);
    CongMul(m.z, m'.z, m.z, m'.z);
    CongAdd(c, c', c, c');
    CongAdd(m.x, m'.x, m.y, m'.y);
    CongMul(m.x + m.y, m'.x + m'.y, m.x + m.y, m'.x + m'.y);
    CongAdd(b, b', a, a');
    CongAdd(Prod(m.x + m.y, m.x + m.y), Prod(m'.x + m'.y, m'.x + m'.y), b + a, b' + a');
    CongAdd(c + c, c' + c', b - a, b' - a');
  }

  lemma FactorsRespect(r: P1p1, k: EHGF, l: EHGF)
    requires Factors(r, k) && CongFactors(k, l)
    ensures Factors(r, l)
  {
  }

  lemma PnielsRespects(n: Pniels, q: Ext, q': Ext)
    requires PnielsFor(n, q) && CongExt(q, q')
    ensures PnielsFor(n, q')
  {
    hide Cong, Prod, Below54;
    CongAdd(q.y, q'.y, q.x, q'.x);
    CongRefl(Value(EC2D));
    CongMul(q.t, q'.t, Value(EC2D), Value(EC2D));
    CongChain(Value(n.ysubx), q.y - q.x, q'.y - q'.x);
    CongChain(Value(n.xaddy), q.y + q.x, q'.y + q'.x);
    CongChain(Value(n.z), q.z, q'.z);
    CongChain(Value(n.t2d), Prod(q.t, Value(EC2D)), Prod(q'.t, Value(EC2D)));
  }

  lemma CongChain(a: int, b: int, c: int)
    requires Cong(a, b) && Cong(b, c)
    ensures Cong(a, c)
  {
  }

  /** p + q, where p is known modulo p as m. */
  lemma SumRespects(p: Ext, m: Ext, q: Ext)
    requires CongExt(p, m)
    ensures CongExt(RfcAdd(p, q), RfcAdd(m, q))
  {
    hide CongExt, CongFactors, AddFactors, Products;
    CongExtRefl(q);
    AddRespects(p, m, q, q);
    ProductsRespect(AddFactors(p, q), AddFactors(m, q));
  }

  /** The p1p1 that an operation leaves, if it is one of those that do. */
  method StepPending(op: Op, s: Machine, ghost m: Model) returns (t: P1p1)
    requires Ready(op, m) && Represents(s, m)
    requires op.AddPoints? || op.DoublePoint? || op.AddCached? || op.AddEntry?
    ensures Factors(t, After(op, m).pending.value)
  {
    hide Cong, CongExt, CongXyz, CongFactors, SmallGe, SmallXyz, Coords, NegExt, SignedExt, PnielsFor, NielsFor, EntryFor,
         AddFactors, DoubleTerms, Factors;
    match op
    case AddPoints(i, j) =>
      assert PointFor(s.points[i], m.points[i]) && PointFor(s.points[j], m.points[j]);
      t := AddP1p1(s.points[i], s.points[j]);
      AddRespects(Coords(s.points[i]), m.points[i].m, Coords(s.points[j]), m.points[j].m);
      FactorsRespect(t, AddFactors(Coords(s.points[i]), Coords(s.points[j])), AddFactors(m.points[i].m, m.points[j].m));
    case DoublePoint(i) =>
      assert PointFor(s.points[i], m.points[i]);
      SetPoint(s.points[i], m.points[i]);
      t := DoubleP1p1(s.points[i]);
      DoubleRespects(Coords(s.points[i]), m.points[i].m);
      FactorsRespect(t, DoubleTerms(Coords(s.points[i])), DoubleTerms(m.points[i].m));
    case AddCached(i, c, negative) =>
      assert PointFor(s.points[i], m.points[i]);
      t := PnielsAddP1p1(s.points[i], s.cached[c], negative, m.cached[c].value);
      SumFactors(t, Coords(s.points[i]), m.points[i].m, SignedExt(m.cached[c].value, negative));
    case AddEntry(i, n, q, negative) =>
      assert PointFor(s.points[i], m.points[i]);
      t := NielsAdd2P1p1(s.points[i], n, negative, q);
      SumFactors(t, Coords(s.points[i]), m.points[i].m, SignedExt(q, negative));
  }

  lemma SetPoint(p: Ge, k: Known)
    requires PointFor(p, k) && !k.Unset?
    ensures SmallXyz(p) && CongXyz(Coords(p), k.m)
  {
  }

  lemma SumFactors(t: P1p1, p: Ext, m: Ext, q: Ext)
    requires Factors(t, AddFactors(p, q)) && CongExt(p, m)
    ensures Factors(t, AddFactors(m, q))
  {
    hide CongExt, CongFactors, AddFactors, Factors;
    CongExtRefl(q);
    AddRespects(p, m, q, q);
    FactorsRespect(t, AddFactors(p, q), AddFactors(m, q));
  }

  /** The point that an operation leaves in its target register. */
  method StepPoint(op: Op, s: Machine, ghost m: Model) returns (p: Ge)
    requires Ready(op, m) && Represents(s, m)
    requires op.SetNeutral? || op.SetEntry? || op.ToFull? || op.ToPartial? || op.AddInPlace? || op.AddScaled?
    ensures PointFor(p, After(op, m).points[op.r])
  {
    hide Cong, CongExt, CongXyz, SmallGe, SmallXyz, Coords, EntryFor, NielsFor, Factors, Products, AddFactors, Doubled;
    match op
    case SetNeutral(r) =>
      p := NEUTRAL;
      NeutralCoords();
      CongExtRefl(Ext(0, 1, 1, 0));
    case SetEntry(r, n, q) => p := FromEntry(n, q);
    case ToFull(r) => p := P1p1ToFull(s.pending, m.pending.value);
    case ToPartial(r) => p := P1p1ToPartial(s.pending, s.points[r].t, m.pending.value);
    case AddInPlace(r, n, q) => p := AddEntryTo(s.points[r], n, m.points[r].m, q);
    case AddScaled(r, n, q) =>
      var n' := ScaleEntry(n, q);
      p := AddEntryTo(s.points[r], n', m.points[r].m, q);
  }

  method AddEntryTo(p: Ge, n: Niels, ghost m: Ext, ghost q: Ext) returns (r: Ge)
    requires PointFor(p, Full(m)) && NielsFor(n, q)
    ensures PointFor(r, Full(RfcAdd(m, q)))
  {
    hide Cong, CongExt, SmallGe, Coords, NielsFor, RfcAdd;
    r := NielsAdd2(p, n, q);
    SumRespects(Coords(p), m, q);
    CongTrans(Coords(r), RfcAdd(Coords(p), q), RfcAdd(m, q));
  }

  /** The cached point that an operation leaves in its table place. */
  method StepCached(op: Op, s: Machine, ghost m: Model) returns (n: Pniels)
    requires Ready(op, m) && Represents(s, m) && (op.Cache? || op.CacheSum?)
    ensures PnielsFor(n, After(op, m).cached[if op.Cache? then op.c else op.e].value)
  {
    hide Cong, CongExt, CongXyz, SmallGe, SmallXyz, Coords, PnielsFor, RfcAdd;
    match op
    case Cache(c, i) =>
      assert PointFor(s.points[i], m.points[i]);
      n := FullToPnielsOf(s.points[i], m.points[i].m);
    case CacheSum(e, i, c) =>
      assert PointFor(s.points[i], m.points[i]);
      var q := Coords(s.points[i]);
      n := PnielsAdd(s.points[i], s.cached[c], m.cached[c].value);
      SumRespects(q, m.points[i].m, m.cached[c].value);
      PnielsRespects(n, RfcAdd(q, m.cached[c].value), RfcAdd(m.points[i].m, m.cached[c].value));
  }

  /** One operation keeps what is known of the machine. */
  method Step(op: Op, s: Machine, ghost m: Model) returns (s': Machine)
    requires Ready(op, m) && Represents(s, m)
    ensures Represents(s', After(op, m))
  {
    hide PointFor, Factors, PnielsFor, AddFactors, DoubleTerms, Products, RfcAdd, SignedExt, NielsFor, EntryFor, Doubled;
    if op.AddPoints? || op.DoublePoint? || op.AddCached? || op.AddEntry? {
      var t := StepPending(op, s, m);
      s' := s.(pending := t);
    } else if op.Cache? || op.CacheSum? {
      var n := StepCached(op, s, m);
      s' := s.(cached := s.cached[(if op.Cache? then op.c else op.e) := n]);
    } else {
      var p := StepPoint(op, s, m);
      s' := s.(points := s.points[op.r := p]);
    }
  }

  /** A whole program keeps it. */
  method Run(ops: seq<Op>, s: Machine, ghost m: Model) returns (s': Machine)
    requires AllReady(ops, m) && Represents(s, m)
    ensures Represents(s', AfterAll(ops, m))
  {
    hide Represents, Ready, After;
    s' := s;
    ghost var n := m;
    for k := 0 to |ops|
      invariant AllReady(ops[k..], n) && Represents(s', n) && AfterAll(ops[k..], n) == AfterAll(ops, m)
    {
      assert ops[k..][1..] == ops[k + 1..];
      s' := Step(ops[k], s', n);
      n := After(ops[k], n);
    }
  }
}
