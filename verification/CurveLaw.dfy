/**
 * The curve as an assumption: a map from coordinates to points of an abelian group under which
 * the formulas of section 5.1.4 of RFC 8032 are the group law.
 */
module CurveLaw {
  import opened Groups
  import opened PointFormulas

  /** Which coordinates are points of the curve, and which point they are. */
  datatype CurveMap<!P(!new)> = CurveMap(g: Group<P>, on: Ext -> bool, pt: Ext -> P)

  ghost predicate GroupLaw<P(!new)>(c: CurveMap<P>) {
    && Abelian(c.g) && c.on(Ext(0, 1, 1, 0)) && c.pt(Ext(0, 1, 1, 0)) == c.g.zero
    && (forall m, n {:trigger RfcAdd(m, n)} ::
          c.on(m) && c.on(n) ==> c.on(RfcAdd(m, n)) && c.pt(RfcAdd(m, n)) == c.g.add(c.pt(m), c.pt(n)))
    && (forall m {:trigger RfcDouble(m)} ::
          c.on(m) ==> var d := Rescaled(RfcDouble(m)); c.on(d) && c.pt(d) == c.g.add(c.pt(m), c.pt(m)))
    && (forall m {:trigger NegExt(m)} :: c.on(m) ==> c.on(NegExt(m)) && c.pt(NegExt(m)) == c.g.neg(c.pt(m)))
    && (forall m {:trigger Doubled(m)} :: c.on(m) && m.z == 1 ==> c.on(Doubled(m)) && c.pt(Doubled(m)) == c.pt(m))
    && (forall m, n {:trigger CongExt(m, n)} :: CongExt(m, n) && c.on(n) ==> c.on(m) && c.pt(m) == c.pt(n))
  }

  /** m is the n-th multiple of p. */
  ghost predicate IsMultiple<P(!new)>(c: CurveMap<P>, m: Ext, n: int, p: P) { c.on(m) && c.pt(m) == Mul(c.g, n, p) }

  lemma SumLaw<P(!new)>(c: CurveMap<P>, m: Ext, n: Ext)
    requires GroupLaw(c) && c.on(m) && c.on(n)
    ensures c.on(RfcAdd(m, n)) && c.pt(RfcAdd(m, n)) == c.g.add(c.pt(m), c.pt(n))
  {
    hide Abelian, RfcAdd, RfcDouble, Rescaled, CongExt;
  }

  /** The doubling code negates all coordinates, which is the same point. */
  lemma DoubleLaw<P(!new)>(c: CurveMap<P>, m: Ext)
    requires GroupLaw(c) && c.on(m)
    ensures var d := Products(DoubleTerms(m)); c.on(d) && c.pt(d) == c.g.add(c.pt(m), c.pt(m))
  {
    hide Abelian, RfcAdd, RfcDouble, Rescaled, Products, DoubleTerms, CongExt;
    DoubleSigns(m);
  }

  lemma SignedLaw<P(!new)>(c: CurveMap<P>, m: Ext, n: int, p: P, negative: bool)
    requires GroupLaw(c) && IsMultiple(c, m, n, p)
    ensures IsMultiple(c, SignedExt(m, negative), if negative then -n else n, p)
  {
    hide RfcAdd, RfcDouble, Rescaled, Mul, CongExt;
    MulNeg(c.g, n, p);
  }

  /** Coordinates matter modulo p only. */
  lemma CongLaw<P(!new)>(c: CurveMap<P>, m: Ext, n: Ext)
    requires GroupLaw(c) && CongExt(m, n) && c.on(n)
    ensures c.on(m) && c.pt(m) == c.pt(n)
  {
    hide Abelian, RfcAdd, RfcDouble, Rescaled, CongExt;
  }

  lemma StartLaw<P(!new)>(c: CurveMap<P>, m: Ext)
    requires GroupLaw(c) && c.on(m) && m.z == 1
    ensures c.on(Doubled(m)) && c.pt(Doubled(m)) == c.pt(m)
  {
    hide Abelian, RfcAdd, RfcDouble, Rescaled, Doubled, CongExt;
  }
}
