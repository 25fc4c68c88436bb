/**
 * The point formulas on limbs. They leave most additions and subtractions uncarried; here every
 * multiplication is shown to get limbs below 2^54, every subtraction to stay above zero, and
 * every result to be the one of the formulas in section 5.1.4 of RFC 8032.
 */
module PointFormulas {
  import opened Field
  import opened FieldPow
  import opened FieldOps

  /** Extended coordinates x = X/Z, y = Y/Z, x*y = T/Z, as limbs. */
  datatype Ge = Ge(x: Fe, y: Fe, z: Fe, t: Fe)

  /** The point (x/z, y/t) before the final multiplications. */
  datatype P1p1 = P1p1(x: Fe, y: Fe, z: Fe, t: Fe)

  /** A point ready for addition: y - x, y + x, z and 2d*t. */
  datatype Pniels = Pniels(ysubx: Fe, xaddy: Fe, z: Fe, t2d: Fe)

  /** The same with z = 1. */
  datatype Niels = Niels(ysubx: Fe, xaddy: Fe, t2d: Fe)

  /** Extended coordinates as integers, read modulo p. */
  datatype Ext = Ext(x: int, y: int, z: int, t: int)

  const ECD := Fe(0x00034dca135978a3, 0x0001a8283b156ebd, 0x0005e7a26001c029, 0x000739c663a03cbb, 0x00052036cee2b6ff)
  const EC2D := Fe(0x00069b9426b2f159, 0x00035050762add7a, 0x0003cf44c0038052, 0x0006738cc7407977, 0x0002406d9dc56dff)

  /** EC2D is 2d for the curve constant d = -121665/121666. */
  lemma Ec2dIsTwiceD()
    ensures Cong(Value(EC2D) * 121666, -2 * 121665) && Small(EC2D)
  {
    hide ModP;
    assert Value(EC2D) * 121666 == -2 * 121665 + TimesP(34244);
    CongMultiple(Value(EC2D) * 121666, -2 * 121665, 34244);
  }

  /** ECD is d. */
  lemma EcdIsHalf()
    ensures Cong(Prod(2, Value(ECD)), Value(EC2D)) && Small(ECD)
  {
    hide ModP, Prod;
    ProdIsProduct(2, Value(ECD));
    assert 2 * Value(ECD) == Value(EC2D) + TimesP(1);
    CongMultiple(2 * Value(ECD), Value(EC2D), 1);
  }

  function Coords(p: Ge): Ext { Ext(Value(p.x), Value(p.y), Value(p.z), Value(p.t)) }

  /** Limbs fit for every operation; without t, for those that do not read it. */
  ghost predicate SmallXyz(p: Ge) { Small(p.x) && Small(p.y) && Small(p.z) }
  ghost predicate SmallGe(p: Ge) { SmallXyz(p) && Small(p.t) }

  ghost predicate CongXyz(a: Ext, b: Ext) { Cong(a.x, b.x) && Cong(a.y, b.y) && Cong(a.z, b.z) }
  ghost predicate CongExt(a: Ext, b: Ext) { CongXyz(a, b) && Cong(a.t, b.t) }

  /** The factors E, H, G and F of the formulas, and the coordinates that they make. */
  datatype EHGF = EHGF(e: int, h: int, g: int, f: int)

  function Products(k: EHGF): Ext { Ext(Prod(k.e, k.f), Prod(k.h, k.g), Prod(k.g, k.f), Prod(k.e, k.h)) }

  /** Point addition, section 5.1.4 of RFC 8032. */
  function AddFactors(p: Ext, q: Ext): EHGF {
    var a := Prod(p.y - p.x, q.y - q.x);
    var b := Prod(p.y + p.x, q.y + q.x);
    var c := Prod(Prod(p.t, q.t), Value(EC2D));
    var d := Prod(p.z, q.z) + Prod(p.z, q.z);
    EHGF(b - a, b + a, d + c, d - c)
  }

  function RfcAdd(p: Ext, q: Ext): Ext { Products(AddFactors(p, q)) }

  /** Point doubling, section 5.1.4 of RFC 8032. */
  function DoubleFactors(p: Ext): EHGF {
    var a, b, c := Prod(p.x, p.x), Prod(p.y, p.y), Prod(p.z, p.z) + Prod(p.z, p.z);
    var h := a + b;
    var e := h - Prod(p.x + p.y, p.x + p.y);
    var g := a - b;
    EHGF(e, h, g, c + g)
  }

  function RfcDouble(p: Ext): Ext { Products(DoubleFactors(p)) }

  function NegExt(p: Ext): Ext { Ext(-p.x, p.y, p.z, -p.t) }

  /** All coordinates negated: the same projective point. */
  function Rescaled(p: Ext): Ext { Ext(-p.x, -p.y, -p.z, -p.t) }

  /** r has limbs fit for the final multiplications, and stands for the factors k. */
  ghost predicate Factors(r: P1p1, k: EHGF) {
    && Below54(r.x) && Below54(r.y) && Below54(r.z) && Below54(r.t)
    && Cong(Value(r.x), k.e) && Cong(Value(r.y), k.h) && Cong(Value(r.z), k.g) && Cong(Value(r.t), k.f)
  }

  /** A product of operands known modulo p. */
  method MulCong(a: Fe, b: Fe, ghost u: int, ghost v: int) returns (out: Fe)
    requires Below54(a) && Below54(b) && Cong(Value(a), u) && Cong(Value(b), v)
    ensures Reduced(out) && Cong(Value(out), Prod(u, v))
  {
    hide ModP, Val51, Prod;
    out := FeMul(a, b);
    ProdIsProduct(Value(a), Value(b));
    CongMul(Value(a), u, Value(b), v);
  }

  /** A square of an operand known modulo p. */
  method SquareCong(a: Fe, ghost u: int) returns (out: Fe)
    requires Below54(a) && Cong(Value(a), u)
    ensures Reduced(out) && Cong(Value(out), Prod(u, u))
  {
    hide ModP, Val51, Prod;
    out := FeSquare(a);
    ProdIsProduct(Value(a), Value(a));
    CongMul(Value(a), u, Value(a), u);
  }

  /** ge25519_p1p1_to_full */
  method P1p1ToFull(p: P1p1, ghost k: EHGF) returns (r: Ge)
    requires Factors(p, k)
    ensures SmallGe(r) && CongExt(Coords(r), Products(k))
  {
    hide ModP, Val51, Prod;
    var x := MulCong(p.x, p.t, k.e, k.f);
    var y := MulCong(p.y, p.z, k.h, k.g);
    var z := MulCong(p.z, p.t, k.g, k.f);
    var t := MulCong(p.x, p.y, k.e, k.h);
    r := Ge(x, y, z, t);
  }

  /** ge25519_p1p1_to_partial: t keeps the value that it had. */
  method P1p1ToPartial(p: P1p1, t: Fe, ghost k: EHGF) returns (r: Ge)
    requires Factors(p, k)
    ensures SmallXyz(r) && CongXyz(Coords(r), Products(k)) && r.t == t
  {
    hide ModP, Val51, Prod;
    var x := MulCong(p.x, p.t, k.e, k.f);
    var y := MulCong(p.y, p.z, k.h, k.g);
    var z := MulCong(p.z, p.t, k.g, k.f);
    r := Ge(x, y, z, t);
  }

  /** ge25519_add_p1p1 */
  method AddP1p1(p: Ge, q: Ge) returns (r: P1p1)
    requires SmallGe(p) && SmallGe(q)
    ensures Factors(r, AddFactors(Coords(p), Coords(q)))
  {
    hide ModP, Val51, TimesP, Prod;
    ghost var m, n := Coords(p), Coords(q);
    Ec2dIsTwiceD();
    var a := FeSub(p.y, p.x);
    var b := FeAdd(p.y, p.x);
    var t := FeSub(q.y, q.x);
    var u := FeAdd(q.y, q.x);
    a := MulCong(a, t, m.y - m.x, n.y - n.x);
    b := MulCong(b, u, m.y + m.x, n.y + n.x);
    var c := MulCong(p.t, q.t, m.t, n.t);
    c := MulCong(c, EC2D, Prod(m.t, n.t), Value(EC2D));
    var d := MulCong(p.z, q.z, m.z, n.z);
    CongAdd(Value(d), Prod(m.z, n.z), Value(d), Prod(m.z, n.z));
    d := FeAdd(d, d);
    r := Sums(a, b, c, d, m, n);
  }

  /** b - a, b + a, d + c and d - c, uncarried. */
  method Sums(a: Fe, b: Fe, c: Fe, d: Fe, ghost m: Ext, ghost n: Ext) returns (r: P1p1)
    requires Reduced(a) && Reduced(b) && Reduced(c) && Below(d, 2 * SMALL)
    requires Cong(Value(a), Prod(m.y - m.x, n.y - n.x)) && Cong(Value(b), Prod(m.y + m.x, n.y + n.x))
    requires Cong(Value(c), Prod(Prod(m.t, n.t), Value(EC2D))) && Cong(Value(d), Prod(m.z, n.z) + Prod(m.z, n.z))
    ensures Factors(r, AddFactors(m, n))
  {
    hide ModP, Val51, TimesP, Prod;
    CongAdd(Value(b), Prod(m.y + m.x, n.y + n.x), Value(a), Prod(m.y - m.x, n.y - n.x));
    CongAdd(Value(d), Prod(m.z, n.z) + Prod(m.z, n.z), Value(c), Prod(Prod(m.t, n.t), Value(EC2D)));
    r := P1p1(FeSub(b, a), FeAdd(b, a), FeAdd(d, c), FeSubAfterBasic(d, c));
  }

  /** ge25519_add: exactly the formula of the standard. */
  method Add(p: Ge, q: Ge) returns (r: Ge)
    requires SmallGe(p) && SmallGe(q)
    ensures SmallGe(r) && CongExt(Coords(r), RfcAdd(Coords(p), Coords(q)))
  {
    hide ModP, Val51, Factors, AddFactors, Products;
    var t := AddP1p1(p, q);
    r := P1p1ToFull(t, AddFactors(Coords(p), Coords(q)));
  }

  /** The factors that the doubling code works with: E and G negated. */
  function DoubleTerms(m: Ext): EHGF {
    var a, b, c := Prod(m.x, m.x), Prod(m.y, m.y), Prod(m.z, m.z) + Prod(m.z, m.z);
    EHGF(Prod(m.x + m.y, m.x + m.y) - (b + a), b + a, b - a, c - (b - a))
  }

  /** ge25519_double_p1p1, which does not read t */
  method DoubleP1p1(p: Ge) returns (r: P1p1)
    requires SmallXyz(p)
    ensures Factors(r, DoubleTerms(Coords(p)))
  {
    hide ModP, Val51, TimesP, Prod;
    ghost var m := Coords(p);
    var a := SquareCong(p.x, m.x);
    var b := SquareCong(p.y, m.y);
    var c := SquareCong(p.z, m.z);
    ghost var a', b', c' := Prod(m.x, m.x), Prod(m.y, m.y), Prod(m.z, m.z);
    CongAdd(Value(c), c', Value(c), c');
    c := FeAddReduce(c, c);
    var x := FeAdd(p.x, p.y);
    x := SquareCong(x, m.x + m.y);
    CongAdd(Value(b), b', Value(a), a');
    var y := FeAdd(b, a);
    var z := FeSub(b, a);
    CongAdd(Value(x), Prod(m.x + m.y, m.x + m.y), Value(y), b' + a');
    CongAdd(Value(c), c' + c', Value(z), b' - a');
    r := P1p1(FeSubAfterBasic(x, y), y, z, FeSubAfterBasic(c, z));
  }

  /** ge25519_double: the formula of the standard with all coordinates negated. */
  method Double(p: Ge) returns (r: Ge)
    requires SmallXyz(p)
    ensures SmallGe(r) && CongExt(Coords(r), Rescaled(RfcDouble(Coords(p))))
  {
    hide ModP, Val51, Factors, RfcDouble, Rescaled, CongExt, DoubleTerms, Products;
    var t := DoubleP1p1(p);
    r := P1p1ToFull(t, DoubleTerms(Coords(p)));
    DoubleSigns(Coords(p));
  }

  /** Negating E and G negates all coordinates. */
  lemma DoubleSigns(m: Ext)
    ensures Rescaled(RfcDouble(m)) == Products(DoubleTerms(m))
  {
    hide Prod;
    var k := DoubleFactors(m);
    assert DoubleTerms(m) == EHGF(-k.e, k.h, -k.g, k.f);
    NegatedFactors(k.e, k.h, k.g, k.f);
  }

  lemma NegatedFactors(e: int, h: int, g: int, f: int)
    ensures Prod(-e, f) == -Prod(e, f) && Prod(h, -g) == -Prod(h, g)
    ensures Prod(-g, f) == -Prod(g, f) && Prod(-e, h) == -Prod(e, h)
  {
    NegatedProduct(e, f);
    NegatedProduct(h, g);
    NegatedProduct(g, f);
    NegatedProduct(e, h);
  }

  lemma NegatedProduct(a: int, b: int)
    ensures Prod(-a, b) == -Prod(a, b) && Prod(a, -b) == -Prod(a, b)
  {
    hide Prod;
    ProdIsProduct(a, b);
    ProdIsProduct(-a, b);
    ProdIsProduct(a, -b);
  }

  /** n is the addition-ready form of q. */
  ghost predicate PnielsFor(n: Pniels, q: Ext) {
    && Below54(n.ysubx) && Below54(n.xaddy) && Small(n.z) && Small(n.t2d)
    && Cong(Value(n.ysubx), q.y - q.x) && Cong(Value(n.xaddy), q.y + q.x)
    && Cong(Value(n.z), q.z) && Cong(Value(n.t2d), Prod(q.t, Value(EC2D)))
  }

  /** n is a table entry for a point q with z = 1: y - x, y + x and k times t. */
  ghost predicate EntryFor(n: Niels, q: Ext, k: int) {
    && q.z == 1 && Small(n.ysubx) && Small(n.xaddy) && Small(n.t2d)
    && Cong(Value(n.ysubx), q.y - q.x) && Cong(Value(n.xaddy), q.y + q.x) && Cong(Value(n.t2d), Prod(q.t, k))
  }

  /** n is the addition-ready form of q. */
  ghost predicate NielsFor(n: Niels, q: Ext) { EntryFor(n, q, Value(EC2D)) }

  /** ge25519_full_to_pniels */
  method FullToPniels(r: Ge) returns (p: Pniels)
    requires SmallGe(r)
    ensures PnielsFor(p, Coords(r))
  {
    hide ModP, Val51, TimesP, Prod;
    Ec2dIsTwiceD();
    var t2d := FeMul(r.t, EC2D);
    ProdIsProduct(Value(r.t), Value(EC2D));
    p := Pniels(FeSub(r.y, r.x), FeAdd(r.y, r.x), r.z, t2d);
  }

  /** q, or its negative when the sign bit is set. */
  function SignedExt(q: Ext, negative: bool): Ext { if negative then NegExt(q) else q }

  lemma ProductAssociates(a: int, b: int, c: int)
    ensures Prod(a, Prod(b, c)) == Prod(Prod(a, b), c) && Prod(Prod(a, -b), c) == -Prod(Prod(a, b), c)
  {
    hide Prod;
    MulAssociates(a, b, c);
    NegatedProduct(a, b);
    NegatedProduct(Prod(a, b), c);
  }

  /** p + q or p - q up to the final multiplications; d is twice the product of the z coordinates. */
  method SignedFactors(p: Ge, ysubx: Fe, xaddy: Fe, t2d: Fe, d: Fe, negative: bool, ghost q: Ext) returns (r: P1p1)
    requires SmallGe(p) && Below54(ysubx) && Below54(xaddy) && Small(t2d) && ReducedLow(d)
    requires Cong(Value(ysubx), q.y - q.x) && Cong(Value(xaddy), q.y + q.x) && Cong(Value(t2d), Prod(q.t, Value(EC2D)))
    requires Cong(Value(d), Prod(Value(p.z), q.z) + Prod(Value(p.z), q.z))
    ensures Factors(r, AddFactors(Coords(p), SignedExt(q, negative)))
  {
    hide ModP, Val51, TimesP, Prod;
    ghost var m, n := Coords(p), SignedExt(q, negative);
    ghost var i, j := Prod(m.y - m.x, n.y - n.x), Prod(m.y + m.x, n.y + n.x);
    ghost var k, l := Prod(Prod(m.t, q.t), Value(EC2D)), Prod(m.z, q.z) + Prod(m.z, q.z);
    var a := FeSub(p.y, p.x);
    var b := FeAdd(p.y, p.x);
    a := MulCong(a, if negative then xaddy else ysubx, m.y - m.x, n.y - n.x);
    var x := MulCong(b, if negative then ysubx else xaddy, m.y + m.x, n.y + n.x);
    var c := MulCong(p.t, t2d, m.t, Prod(q.t, Value(EC2D)));
    ProductAssociates(m.t, q.t, Value(EC2D));
    CongAdd(Value(x), j, Value(a), i);
    CongAdd(Value(d), l, Value(c), k);
    r := P1p1(FeSub(x, a), FeAdd(x, a), if negative then FeSub(d, c) else FeAdd(d, c),
              if negative then FeAdd(d, c) else FeSub(d, c));
  }

  /** ge25519_pnielsadd_p1p1: the factors of p + q, or of p - q. */
  method PnielsAddP1p1(p: Ge, n: Pniels, negative: bool, ghost q: Ext) returns (r: P1p1)
    requires SmallGe(p) && PnielsFor(n, q)
    ensures Factors(r, AddFactors(Coords(p), SignedExt(q, negative)))
  {
    hide ModP, Val51, Factors, AddFactors, Prod;
    var d := MulCong(p.z, n.z, Value(p.z), q.z);
    CongAdd(Value(d), Prod(Value(p.z), q.z), Value(d), Prod(Value(p.z), q.z));
    d := FeAddReduce(d, d);
    r := SignedFactors(p, n.ysubx, n.xaddy, n.t2d, d, negative, q);
  }

  lemma TimesOne(a: int)
    ensures Prod(a, 1) == a
  {
    ProdIsProduct(a, 1);
  }

  /** ge25519_nielsadd2_p1p1: the factors of p + q, or of p - q, for a point with z = 1. */
  method NielsAdd2P1p1(p: Ge, n: Niels, negative: bool, ghost q: Ext) returns (r: P1p1)
    requires SmallGe(p) && NielsFor(n, q)
    ensures Factors(r, AddFactors(Coords(p), SignedExt(q, negative)))
  {
    hide ModP, Val51, Factors, AddFactors, Prod;
    var d := FeAddReduce(p.z, p.z);
    TimesOne(Value(p.z));
    r := SignedFactors(p, n.ysubx, n.xaddy, n.t2d, d, negative, q);
  }

  /** ge25519_nielsadd2: r + q in place, with 2z uncarried. */
  method NielsAdd2(r: Ge, n: Niels, ghost q: Ext) returns (out: Ge)
    requires SmallGe(r) && NielsFor(n, q)
    ensures SmallGe(out) && CongExt(Coords(out), RfcAdd(Coords(r), q))
  {
    hide ModP, Val51, TimesP, Prod, Products;
    ghost var m := Coords(r);
    var a := FeSub(r.y, r.x);
    var b := FeAdd(r.y, r.x);
    a := MulCong(a, n.ysubx, m.y - m.x, q.y - q.x);
    var e := MulCong(b, n.xaddy, m.y + m.x, q.y + q.x);
    var c := MulCong(r.t, n.t2d, m.t, Prod(q.t, Value(EC2D)));
    ProductAssociates(m.t, q.t, Value(EC2D));
    TimesOne(m.z);
    var t := Sums(a, e, c, FeAdd(r.z, r.z), m, q);
    out := P1p1ToFull(t, AddFactors(m, q));
  }

  /** ge25519_pnielsadd: the addition-ready form of p + q. */
  method PnielsAdd(p: Ge, n: Pniels, ghost q: Ext) returns (r: Pniels)
    requires SmallGe(p) && PnielsFor(n, q)
    ensures PnielsFor(r, RfcAdd(Coords(p), q))
  {
    hide ModP, Val51, TimesP, Prod, Products;
    ghost var m := Coords(p);
    var a := FeSub(p.y, p.x);
    var b := FeAdd(p.y, p.x);
    a := MulCong(a, n.ysubx, m.y - m.x, q.y - q.x);
    var x := MulCong(b, n.xaddy, m.y + m.x, q.y + q.x);
    var c := MulCong(p.t, n.t2d, m.t, Prod(q.t, Value(EC2D)));
    ProductAssociates(m.t, q.t, Value(EC2D));
    var t := MulCong(p.z, n.z, m.z, q.z);
    CongAdd(Value(t), Prod(m.z, q.z), Value(t), Prod(m.z, q.z));
    var s := Sums(a, x, c, FeAdd(t, t), m, q);
    var full := P1p1ToFull(s, AddFactors(m, q));
    r := FullToPnielsOf(full, RfcAdd(m, q));
  }

  /** The last steps of ge25519_pnielsadd: y - x, y + x and 2d*t of the sum. */
  method FullToPnielsOf(r: Ge, ghost q: Ext) returns (p: Pniels)
    requires SmallGe(r) && CongExt(Coords(r), q)
    ensures PnielsFor(p, q)
  {
    hide ModP, Val51, TimesP, Prod;
    Ec2dIsTwiceD();
    CongAdd(Value(r.y), q.y, Value(r.x), q.x);
    CongMul(Value(r.t), q.t, Value(EC2D), Value(EC2D));
    p := FullToPniels(r);
  }

  /** The neutral element, as it is written into a point. */
  const NEUTRAL := Ge(ZERO, Fe(1, 0, 0, 0, 0), Fe(1, 0, 0, 0, 0), ZERO)

  lemma NeutralCoords()
    ensures SmallGe(NEUTRAL) && Coords(NEUTRAL) == Ext(0, 1, 1, 0)
  {
  }

  /** q with all coordinates doubled: the same projective point. */
  function Doubled(q: Ext): Ext { Ext(q.x + q.x, q.y + q.y, q.z + q.z, Prod(q.t, 2)) }

  /** The start of a fixed-base multiplication: a point from an entry that holds 2t. */
  method FromEntry(n: Niels, ghost q: Ext) returns (r: Ge)
    requires EntryFor(n, q, 2)
    ensures SmallGe(r) && CongExt(Coords(r), Doubled(q))
  {
    hide ModP, Val51, TimesP, Prod;
    CongAdd(Value(n.xaddy), q.y + q.x, Value(n.ysubx), q.y - q.x);
    var x := FeSubReduce(n.xaddy, n.ysubx);
    var y := FeAddReduce(n.xaddy, n.ysubx);
    TwoValue();
    r := Ge(x, y, TWO, n.t2d);
  }

  const TWO := Fe(2, 0, 0, 0, 0)

  lemma TwoValue()
    ensures Value(TWO) == 2 && Small(TWO) && Cong(2, 2)
  {
  }

  /** An entry that holds 2t becomes addition-ready when that is multiplied by d. */
  method ScaleEntry(n: Niels, ghost q: Ext) returns (r: Niels)
    requires EntryFor(n, q, 2)
    ensures NielsFor(r, q)
  {
    hide ModP, Val51, TimesP, Prod;
    EcdIsHalf();
    var t2d := MulCong(n.t2d, ECD, Prod(q.t, 2), Value(ECD));
    MulAssociates(q.t, 2, Value(ECD));
    CongMul(q.t, q.t, Prod(2, Value(ECD)), Value(EC2D));
    r := n.(t2d := t2d);
  }
}
