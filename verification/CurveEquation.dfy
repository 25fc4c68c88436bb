/**
 * The formulas of section 5.1.4 of RFC 8032 keep the curve equation -x^2 + y^2 = 1 + d x^2 y^2 in
 * extended coordinates, doubling is adding a point to itself, and all laws of an abelian group that
 * need no third point hold projectively. Products are written Prod, so that they stay names.
 */
module CurveEquation {
  import opened Field
  import opened FieldOps
  import opened PointFormulas

  const D: int := Value(ECD)

  function Sq(x: int): int { Prod(x, x) }

  /** Both sides of the curve equation, y^2 + x^2, and the two products that agree on the curve. */
  function Left(m: Ext): int { Sq(m.y) - Sq(m.x) }
  function Right(m: Ext): int { Sq(m.z) + Prod(D, Sq(m.t)) }
  function Plus(m: Ext): int { Sq(m.y) + Sq(m.x) }
  function XY(m: Ext): int { Prod(m.x, m.y) }
  function ZT(m: Ext): int { Prod(m.z, m.t) }

  /** x is a multiple of p; x and y differ by one. */
  ghost predicate Null(x: int) { exists k: int :: x == TimesP(k) }
  ghost predicate Same(x: int, y: int) { Null(x - y) }

  /** m is a point of the curve in extended coordinates, modulo p. */
  ghost predicate OnCurve(m: Ext) { Same(Left(m), Right(m)) && Same(XY(m), ZT(m)) }

  /** m is c times (x, y, z, t), modulo p. */
  ghost predicate Multiple(m: Ext, c: int, x: int, y: int, z: int, t: int) {
    Same(m.x, Prod(c, x)) && Same(m.y, Prod(c, y)) && Same(m.z, Prod(c, z)) && Same(m.t, Prod(c, t))
  }

  // ---------------------------------------------------------------------------------------
  // Congruences
  // ---------------------------------------------------------------------------------------

  lemma NullSum(x: int, y: int)
    requires Null(x) && Null(y)
    ensures Null(x + y) && Null(x - y)
  {
    var i: int :| x == TimesP(i);
    var j: int :| y == TimesP(j);
    assert x + y == TimesP(i + j) && x - y == TimesP(i - j);
  }

  lemma NullTimes(x: int, y: int)
    requires Null(x)
    ensures Null(Prod(x, y))
  {
    hide Prod;
    var i: int :| x == TimesP(i);
    ProdIsProduct(x, y);
    MultipleTimes(i, y);
  }

  lemma MultipleTimes(i: int, y: int)
    ensures TimesP(i) * y == TimesP(i * y)
  {
  }

  lemma SameExact(x: int)
    ensures Same(x, x)
  {
    assert x - x == TimesP(0);
  }

  lemma SameBack(x: int, y: int)
    requires Same(x, y)
    ensures Same(y, x)
  {
    hide Null;
    SameExact(0);
    NullSum(0, x - y);
  }

  lemma SameTwice(x: int, y: int, z: int)
    requires Same(x, y) && Same(y, z)
    ensures Same(x, z)
  {
    hide Null;
    NullSum(x - y, y - z);
  }

  lemma SameSum(x: int, x': int, y: int, y': int)
    requires Same(x, x') && Same(y, y')
    ensures Same(x + y, x' + y') && Same(x - y, x' - y')
  {
    hide Null;
    NullSum(x - x', y - y');
    assert x + y - (x' + y') == (x - x') + (y - y') && x - y - (x' - y') == (x - x') - (y - y');
  }

  /** Multiples by a number are sums. */
  lemma SameScaled(k: int, x: int, x': int)
    requires Same(x, x') && (k == -1 || k == 2 || k == 4 || k == 8 || k == -4)
    ensures Same(k * x, k * x')
  {
    var i: int :| x - x' == TimesP(i);
    assert k * x - k * x' == TimesP(k * i);
  }

  lemma SameProduct(x: int, x': int, y: int, y': int)
    requires Same(x, x') && Same(y, y')
    ensures Same(Prod(x, y), Prod(x', y'))
  {
    hide Null, Prod;
    NullTimes(x - x', y);
    NullTimes(y - y', x');
    NullSum(Prod(x - x', y), Prod(y - y', x'));
    Spread(x, x', y);
    Spread(y, y', x');
    ProdCommutes(y, x');
    ProdCommutes(y', x');
  }

  lemma Spread(x: int, x': int, y: int)
    ensures Prod(x - x', y) == Prod(x, y) - Prod(x', y) && Prod(x + x', y) == Prod(x, y) + Prod(x', y)
  {
    hide Prod;
    ProdIsProduct(x, y);
    ProdIsProduct(x', y);
    ProdIsProduct(x - x', y);
    ProdIsProduct(x + x', y);
  }

  lemma CongIsSame(x: int, y: int)
    ensures Cong(x, y) <==> Same(x, y)
  {
    var p := 0x7fff_ffff_ffff_ffff_ffff_ffff_ffff_ffff_ffff_ffff_ffff_ffff_ffff_ffff_ffff_ffed;
    if Cong(x, y) {
      assert x - y == TimesP(x / p - y / p);
    }
    if Same(x, y) {
      var k: int :| x - y == TimesP(k);
      ModPUnique(x, y, k);
    }
  }

  // ---------------------------------------------------------------------------------------
  // Laws of products
  // ---------------------------------------------------------------------------------------

  lemma Assoc(x: int, y: int, z: int)
    ensures Prod(Prod(x, y), z) == Prod(x, Prod(y, z))
  {
    hide Prod;
    ProdIsProduct(x, y);
    ProdIsProduct(y, z);
    ProdIsProduct(x * y, z);
    ProdIsProduct(x, y * z);
    RawAssoc(x, y, z);
  }

  lemma RawAssoc(x: int, y: int, z: int)
    ensures (x * y) * z == x * (y * z)
  {
  }

  lemma Spread2(x: int, y: int, y': int)
    ensures Prod(x, y - y') == Prod(x, y) - Prod(x, y') && Prod(x, y + y') == Prod(x, y) + Prod(x, y')
  {
    hide Prod;
    Spread(y, y', x);
    ProdCommutes(x, y);
    ProdCommutes(x, y');
    ProdCommutes(x, y - y');
    ProdCommutes(x, y + y');
  }

  lemma Scale(x: int, y: int)
    ensures Prod(x, 2 * y) == 2 * Prod(x, y) == Prod(2 * x, y) && Prod(x, 4 * y) == 4 * Prod(x, y) == Prod(4 * x, y)
    ensures Prod(2 * x, 2 * y) == 4 * Prod(x, y)
    ensures Prod(-x, y) == -Prod(x, y) == Prod(x, -y) && Prod(-x, -y) == Prod(x, y)
  {
    hide Prod;
    ProdIsProduct(x, y);
    ProdIsProduct(x, 2 * y);
    ProdIsProduct(2 * x, y);
    ProdIsProduct(x, 4 * y);
    ProdIsProduct(4 * x, y);
    ProdIsProduct(2 * x, 2 * y);
    ProdIsProduct(-x, y);
    ProdIsProduct(x, -y);
    ProdIsProduct(-x, -y);
  }

  lemma Shuffle(a: int, b: int, c: int, d: int)
    ensures Prod(Prod(a, b), Prod(c, d)) == Prod(Prod(a, c), Prod(b, d))
  {
    hide Prod;
    Assoc(a, b, Prod(c, d));
    Assoc(b, c, d);
    ProdCommutes(b, c);
    Assoc(c, b, d);
    Assoc(a, c, Prod(b, d));
  }

  lemma SquareOfSum(x: int, y: int)
    ensures Sq(x + y) == Sq(x) + Sq(y) + 2 * Prod(x, y) && Sq(x - y) == Sq(x) + Sq(y) - 2 * Prod(x, y)
    ensures Prod(x - y, x + y) == Sq(x) - Sq(y)
  {
    hide Prod;
    Spread(x, y, x + y);
    Spread(x, y, x - y);
    Spread2(x, x, y);
    Spread2(y, x, y);
    ProdCommutes(x, y);
  }

  // ---------------------------------------------------------------------------------------
  // Half the factors E and H of an addition
  // ---------------------------------------------------------------------------------------

  function EOf(m: Ext, n: Ext): int { Prod(m.x, n.y) + Prod(n.x, m.y) }
  function HOf(m: Ext, n: Ext): int { Prod(m.y, n.y) + Prod(m.x, n.x) }

  lemma SquareOfProduct(x: int, y: int)
    ensures Sq(Prod(x, y)) == Prod(Sq(x), Sq(y))
  {
    hide Prod;
    Shuffle(x, y, x, y);
  }

  lemma HSquared(m: Ext, n: Ext)
    ensures Sq(HOf(m, n)) == Prod(Sq(m.y), Sq(n.y)) + Prod(Sq(m.x), Sq(n.x)) + 2 * Prod(XY(m), XY(n))
  {
    hide Prod;
    SquareOfSum(Prod(m.y, n.y), Prod(m.x, n.x));
    SquareOfProduct(m.y, n.y);
    SquareOfProduct(m.x, n.x);
    Shuffle(m.y, n.y, m.x, n.x);
    ProdCommutes(m.x, m.y);
    ProdCommutes(n.x, n.y);
  }

  lemma ESquared(m: Ext, n: Ext)
    ensures Sq(EOf(m, n)) == Prod(Sq(m.x), Sq(n.y)) + Prod(Sq(m.y), Sq(n.x)) + 2 * Prod(XY(m), XY(n))
  {
    hide Prod;
    SquareOfSum(Prod(m.x, n.y), Prod(n.x, m.y));
    SquareOfProduct(m.x, n.y);
    SquareOfProduct(n.x, m.y);
    ProdCommutes(Sq(m.y), Sq(n.x));
    Shuffle(m.x, n.y, m.y, n.x);
    ProdCommutes(m.y, n.x);
    ProdCommutes(n.y, n.x);
  }

  lemma ETimesH(m: Ext, n: Ext)
    ensures Prod(EOf(m, n), HOf(m, n)) == Prod(XY(m), Plus(n)) + Prod(XY(n), Plus(m))
  {
    hide Prod;
    Spread(Prod(m.x, n.y), Prod(n.x, m.y), HOf(m, n));
    Spread2(Prod(m.x, n.y), Prod(m.y, n.y), Prod(m.x, n.x));
    Spread2(Prod(n.x, m.y), Prod(m.y, n.y), Prod(m.x, n.x));
    Spread2(XY(m), Sq(n.y), Sq(n.x));
    Spread2(XY(n), Sq(m.y), Sq(m.x));
    FourShuffles(m.x, m.y, n.x, n.y);
  }

  lemma FourShuffles(x: int, y: int, x': int, y': int)
    ensures Prod(Prod(x, y'), Prod(y, y')) == Prod(Prod(x, y), Sq(y'))
    ensures Prod(Prod(x, y'), Prod(x, x')) == Prod(Prod(x', y'), Sq(x))
    ensures Prod(Prod(x', y), Prod(y, y')) == Prod(Prod(x', y'), Sq(y))
    ensures Prod(Prod(x', y), Prod(x, x')) == Prod(Prod(x, y), Sq(x'))
  {
    hide Prod;
    Shuffle(x, y', y, y');
    Shuffle(x, y', x, x');
    ProdCommutes(y', x');
    ProdCommutes(Sq(x), Prod(x', y'));
    ProdCommutes(x', y);
    Shuffle(y, x', y, y');
    ProdCommutes(Sq(y), Prod(x', y'));
    ProdCommutes(x, x');
    Shuffle(x', y, x', x);
    ProdCommutes(y, x);
    ProdCommutes(Sq(x'), Prod(x, y));
  }

  lemma LeftsAndPluses(m: Ext, n: Ext)
    ensures var a, b := Prod(Sq(m.y), Sq(n.y)), Prod(Sq(m.x), Sq(n.x));
            var c, e := Prod(Sq(m.x), Sq(n.y)), Prod(Sq(m.y), Sq(n.x));
            Prod(Left(m), Left(n)) == a + b - c - e && Prod(Plus(m), Plus(n)) == a + b + c + e
  {
    hide Prod;
    Spread(Sq(m.y), Sq(m.x), Left(n));
    Spread(Sq(m.y), Sq(m.x), Plus(n));
    Spread2(Sq(m.y), Sq(n.y), Sq(n.x));
    Spread2(Sq(m.x), Sq(n.y), Sq(n.x));
  }

  // For points of the curve:

  lemma DifferenceIs(m: Ext, n: Ext)
    requires OnCurve(m) && OnCurve(n)
    ensures Same(Sq(HOf(m, n)) - Sq(EOf(m, n)), Prod(Right(m), Right(n)))
  {
    hide Same, Prod, Left, Right, EOf, HOf, Sq;
    HSquared(m, n);
    ESquared(m, n);
    LeftsAndPluses(m, n);
    SameProduct(Left(m), Right(m), Left(n), Right(n));
  }

  lemma SumIs(m: Ext, n: Ext)
    requires OnCurve(m) && OnCurve(n)
    ensures Same(Sq(HOf(m, n)) + Sq(EOf(m, n)), Prod(Plus(m), Plus(n)) + 4 * Prod(ZT(m), ZT(n)))
  {
    hide Same, Prod, Plus, EOf, HOf, Sq, XY, ZT;
    HSquared(m, n);
    ESquared(m, n);
    LeftsAndPluses(m, n);
    SameProduct(XY(m), ZT(m), XY(n), ZT(n));
    SameScaled(4, Prod(XY(m), XY(n)), Prod(ZT(m), ZT(n)));
    SameExact(Prod(Plus(m), Plus(n)));
    SameSum(Prod(Plus(m), Plus(n)), Prod(Plus(m), Plus(n)), 4 * Prod(XY(m), XY(n)), 4 * Prod(ZT(m), ZT(n)));
  }

  lemma ProductIs(m: Ext, n: Ext)
    requires OnCurve(m) && OnCurve(n)
    ensures Same(Prod(EOf(m, n), HOf(m, n)), Prod(ZT(m), Plus(n)) + Prod(ZT(n), Plus(m)))
  {
    hide Same, Prod, Plus, EOf, HOf, XY, ZT;
    ETimesH(m, n);
    SameExact(Plus(n));
    SameExact(Plus(m));
    SameProduct(XY(m), ZT(m), Plus(n), Plus(n));
    SameProduct(XY(n), ZT(n), Plus(m), Plus(m));
    SameSum(Prod(XY(m), Plus(n)), Prod(ZT(m), Plus(n)), Prod(XY(n), Plus(m)), Prod(ZT(n), Plus(m)));
  }

  lemma PlusSquared(m: Ext)
    requires OnCurve(m)
    ensures Same(Sq(Plus(m)), Sq(Right(m)) + 4 * Sq(ZT(m)))
  {
    hide Same, Prod;
    SquareOfSum(Sq(m.y), Sq(m.x));
    ProdCommutes(Sq(m.y), Sq(m.x));
    SquareOfProduct(m.x, m.y);
    SameProduct(Left(m), Right(m), Left(m), Right(m));
    SameProduct(XY(m), ZT(m), XY(m), ZT(m));
    SameScaled(4, Sq(XY(m)), Sq(ZT(m)));
    SameSum(Sq(Left(m)), Sq(Right(m)), 4 * Sq(XY(m)), 4 * Sq(ZT(m)));
  }

  /** d (r q + s p)^2 with u and v in the places of p^2 and q^2. */
  function Spelt(d: int, r: int, s: int, p: int, q: int, u: int, v: int): int {
    Prod(Prod(d, Sq(r)), v) + Prod(Prod(d, Sq(s)), u) + 2 * Prod(Prod(d, Prod(r, s)), Prod(p, q))
  }

  /** d k^2 for k = r q + s p, with p^2 and q^2 replaced. */
  lemma SquaredWith(d: int, r: int, s: int, k: int, p: int, q: int, u: int, v: int)
    requires Same(k, Prod(r, q) + Prod(s, p)) && Same(Sq(p), u) && Same(Sq(q), v)
    ensures Same(Prod(d, Sq(k)), Spelt(d, r, s, p, q, u, v))
  {
    hide Same, Prod, Sq, Spelt;
    TimesSquare(d, k, Prod(r, q) + Prod(s, p));
    TwoTerms(d, r, s, p, q);
    SameSpelt(d, r, s, p, q, Sq(p), u, Sq(q), v);
    SameTwice(Prod(d, Sq(k)), Spelt(d, r, s, p, q, Sq(p), Sq(q)), Spelt(d, r, s, p, q, u, v));
  }

  lemma TimesSquare(d: int, k: int, v: int)
    requires Same(k, v)
    ensures Same(Prod(d, Sq(k)), Prod(d, Sq(v)))
  {
    hide Same, Prod;
    SameOfSquare(k, v);
    SameExact(d);
    SameProduct(d, d, Sq(k), Sq(v));
  }

  lemma SameSpelt(d: int, r: int, s: int, p: int, q: int, u: int, u': int, v: int, v': int)
    requires Same(u, u') && Same(v, v')
    ensures Same(Spelt(d, r, s, p, q, u, v), Spelt(d, r, s, p, q, u', v'))
  {
    hide Same, Prod, Sq;
    var x, y, c := Prod(d, Sq(r)), Prod(d, Sq(s)), 2 * Prod(Prod(d, Prod(r, s)), Prod(p, q));
    SameExact(x);
    SameExact(y);
    SameExact(c);
    SameProduct(x, x, v, v');
    SameProduct(y, y, u, u');
    SameSum(Prod(x, v), Prod(x, v'), Prod(y, u), Prod(y, u'));
    SameSum(Prod(x, v) + Prod(y, u), Prod(x, v') + Prod(y, u'), c, c);
  }

  lemma SameOfSquare(k: int, v: int)
    requires Same(k, v)
    ensures Same(Sq(k), Sq(v))
  {
    hide Same, Prod;
    SameProduct(k, v, k, v);
  }

  lemma TwoTerms(d: int, r: int, s: int, p: int, q: int)
    ensures Prod(d, Sq(Prod(r, q) + Prod(s, p))) == Spelt(d, r, s, p, q, Sq(p), Sq(q))
  {
    hide Prod;
    var x, y := Prod(r, q), Prod(s, p);
    SquareOfSum(x, y);
    SquareOfProduct(r, q);
    SquareOfProduct(s, p);
    Shuffle(r, q, s, p);
    ProdCommutes(q, p);
    Spread2(d, Sq(x) + Sq(y), 2 * Prod(x, y));
    Spread2(d, Sq(x), Sq(y));
    Scale(d, Prod(x, y));
    Assoc(d, Sq(r), Sq(q));
    Assoc(d, Sq(s), Sq(p));
    Assoc(d, Prod(r, s), Prod(p, q));
  }

  lemma FourfoldCross(d: int, r: int, s: int, p: int, q: int, a: int, b: int)
    ensures Spelt(d, r, s, p, q, a + 4 * Sq(r), b + 4 * Sq(s))
         == Spelt(d, r, s, p, q, a, b) + 8 * Prod(Prod(d, Prod(r, s)), Prod(r, s))
  {
    hide Prod;
    var x, y := Prod(d, Sq(r)), Prod(d, Sq(s));
    Spread2(x, b, 4 * Sq(s));
    Spread2(y, a, 4 * Sq(r));
    Scale(x, Sq(s));
    Scale(y, Sq(r));
    Assoc(d, Sq(r), Sq(s));
    Assoc(d, Sq(s), Sq(r));
    ProdCommutes(Sq(s), Sq(r));
    Assoc(d, Prod(r, s), Prod(r, s));
    SquareOfProduct(r, s);
  }

  // ---------------------------------------------------------------------------------------
  // Addition
  // ---------------------------------------------------------------------------------------

  /** (g h)^2 - (f e)^2 for f = u - w and g = u + w. */
  lemma WithFactors(u: int, w: int, h: int, e: int)
    ensures Sq(Prod(u + w, h)) - Sq(Prod(u - w, e))
         == Prod(Sq(u) + Sq(w), Sq(h) - Sq(e)) + 2 * Prod(Prod(u, w), Sq(h) + Sq(e))
  {
    hide Prod;
    SquareOfProduct(u + w, h);
    SquareOfProduct(u - w, e);
    SquareOfSum(u, w);
    var s, t := Sq(u) + Sq(w), 2 * Prod(u, w);
    Spread(s, t, Sq(h));
    Spread(s, t, Sq(e));
    Spread2(s, Sq(h), Sq(e));
    Spread2(Prod(u, w), Sq(h), Sq(e));
    Scale(Prod(u, w), Sq(h));
    Scale(Prod(u, w), Sq(e));
  }

  /** The identity that remains in the end. */
  lemma LastIdentity(a: int, b: int, p: int, q: int)
    ensures Prod(Prod(a, p) + Prod(b, q), Prod(a + b, p + q)) - Sq(Prod(a, p) - Prod(b, q))
         == Prod(Prod(a, b), Sq(p + q)) + Prod(Prod(p, q), Sq(a + b))
  {
    hide Prod;
    ProdIsProduct(a, p);
    ProdIsProduct(b, q);
    ProdIsProduct(a + b, p + q);
    ProdIsProduct(a * p + b * q, (a + b) * (p + q));
    ProdIsProduct(a * p - b * q, a * p - b * q);
    ProdIsProduct(a, b);
    ProdIsProduct(p, q);
    ProdIsProduct(p + q, p + q);
    ProdIsProduct(a + b, a + b);
    ProdIsProduct(a * b, (p + q) * (p + q));
    ProdIsProduct(p * q, (a + b) * (a + b));
    RawIdentity(a, b, p, q);
  }

  lemma RawIdentity(a: int, b: int, p: int, q: int)
    ensures (a * p + b * q) * ((a + b) * (p + q)) - (a * p - b * q) * (a * p - b * q)
         == (a * b) * ((p + q) * (p + q)) + (p * q) * ((a + b) * (a + b))
  {
  }

  /** For u = z z' and w = d t t', what u w, u^2, w^2, d (z t)^2 and d (z' t')^2 are. */
  lemma CrossTerms(z: int, z': int, t: int, t': int)
    ensures var u, w, b, b' := Prod(z, z'), Prod(D, Prod(t, t')), Prod(D, Sq(t)), Prod(D, Sq(t'));
            && Prod(u, w) == Prod(D, Prod(Prod(z, t), Prod(z', t')))
            && Sq(u) == Prod(Sq(z), Sq(z')) && Sq(w) == Prod(b, b')
            && Prod(D, Sq(Prod(z, t))) == Prod(Sq(z), b) && Prod(D, Sq(Prod(z', t'))) == Prod(Sq(z'), b')
  {
    hide Prod;
    Pull(Prod(z, z'), D, Prod(t, t'));
    Shuffle(z, z', t, t');
    SquareOfProduct(z, z');
    SquareOfProduct(D, Prod(t, t'));
    SquareOfProduct(t, t');
    Shuffle(D, D, Sq(t), Sq(t'));
    SquareOfProduct(z, t);
    SquareOfProduct(z', t');
    Pull(Sq(z), D, Sq(t));
    Pull(Sq(z'), D, Sq(t'));
  }

  lemma Pull(x: int, d: int, y: int)
    ensures Prod(x, Prod(d, y)) == Prod(d, Prod(x, y))
  {
    hide Prod;
    Assoc(x, d, y);
    ProdCommutes(x, d);
    Assoc(d, x, y);
  }

  /** x = e f, y = h g, z = g f and t = e h. */
  ghost predicate MeetsCurve(e: int, h: int, g: int, f: int) {
    Same(Sq(Prod(h, g)) - Sq(Prod(e, f)), Sq(Prod(g, f)) + Prod(D, Sq(Prod(e, h))))
  }

  lemma Meet(u: int, w: int, e: int, h: int, r: int, s: int, p: int, q: int, a: int, b: int, a': int, b': int)
    requires Prod(u, w) == Prod(D, Prod(r, s)) && Sq(u) == Prod(a, a') && Sq(w) == Prod(b, b')
    requires Prod(D, Sq(r)) == Prod(a, b) && Prod(D, Sq(s)) == Prod(a', b')
    requires Same(Sq(h) - Sq(e), Prod(a + b, a' + b')) && Same(Sq(h) + Sq(e), Prod(p, q) + 4 * Prod(r, s))
    requires Same(Prod(D, Sq(Prod(e, h))),
                  Spelt(D, r, s, p, q, Sq(a + b), Sq(a' + b')) + 8 * Prod(Prod(D, Prod(r, s)), Prod(r, s)))
    ensures MeetsCurve(e, h, u + w, u - w)
  {
    hide Same, Prod, Sq;
    var c, k := Prod(D, Prod(r, s)), Prod(D, Sq(Prod(e, h)));
    var left := Sq(Prod(u + w, h)) - Sq(Prod(u - w, e));
    var fg := Sq(Prod(a, a') - Prod(b, b'));
    var target := Prod(Prod(a, a') + Prod(b, b'), Prod(a + b, a' + b')) + 2 * Prod(c, Prod(p, q) + 4 * Prod(r, s));
    var k' := Prod(Prod(a, b), Sq(a' + b')) + Prod(Prod(a', b'), Sq(a + b))
              + 8 * Prod(c, Prod(r, s)) + 2 * Prod(c, Prod(p, q));
    WithFactors(u, w, h, e);
    SameReplaced(Sq(u) + Sq(w), Sq(h) - Sq(e), Prod(a + b, a' + b'), c, Sq(h) + Sq(e), Prod(p, q) + 4 * Prod(r, s));
    assert Same(left, target);
    LastIdentity(a, b, a', b');
    Spread2(c, Prod(p, q), 4 * Prod(r, s));
    Scale(c, Prod(r, s));
    assert target == fg + k';
    SameExact(fg);
    SameBack(k, k');
    SameSum(fg, fg, k', k);
    SameTwice(left, fg + k', fg + k);
    InOrder(u, w, h, e);
  }

  lemma SameReplaced(x: int, u: int, u': int, y: int, v: int, v': int)
    requires Same(u, u') && Same(v, v')
    ensures Same(Prod(x, u) + 2 * Prod(y, v), Prod(x, u') + 2 * Prod(y, v'))
  {
    hide Same, Prod;
    SameExact(x);
    SameExact(y);
    SameProduct(x, x, u, u');
    SameProduct(y, y, v, v');
    SameScaled(2, Prod(y, v), Prod(y, v'));
    SameSum(Prod(x, u), Prod(x, u'), 2 * Prod(y, v), 2 * Prod(y, v'));
  }

  lemma InOrder(u: int, w: int, h: int, e: int)
    ensures Prod(u + w, h) == Prod(h, u + w) && Prod(u - w, e) == Prod(e, u - w)
    ensures Sq(Prod(u + w, u - w)) == Sq(Sq(u) - Sq(w))
  {
    hide Prod;
    ProdCommutes(u + w, h);
    ProdCommutes(u - w, e);
    ProdCommutes(u + w, u - w);
    SquareOfSum(u, w);
  }

  /** The half factors of a sum of points of the curve make a point of the curve. */
  lemma FactorsMeet(m: Ext, n: Ext)
    requires OnCurve(m) && OnCurve(n)
    ensures var u, w := Prod(m.z, n.z), Prod(D, Prod(m.t, n.t)); MeetsCurve(EOf(m, n), HOf(m, n), u + w, u - w)
  {
    hide Same, Prod, OnCurve, EOf, HOf, Plus, MeetsCurve;
    var e, h, u, w := EOf(m, n), HOf(m, n), Prod(m.z, n.z), Prod(D, Prod(m.t, n.t));
    DifferenceIs(m, n);
    SumIs(m, n);
    ProductIs(m, n);
    PlusSquared(m);
    PlusSquared(n);
    SquaredWith(D, ZT(m), ZT(n), Prod(e, h), Plus(m), Plus(n),
                Sq(Right(m)) + 4 * Sq(ZT(m)), Sq(Right(n)) + 4 * Sq(ZT(n)));
    FourfoldCross(D, ZT(m), ZT(n), Plus(m), Plus(n), Sq(Right(m)), Sq(Right(n)));
    CrossTerms(m.z, n.z, m.t, n.t);
    Meet(u, w, e, h, ZT(m), ZT(n), Plus(m), Plus(n), Sq(m.z), Prod(D, Sq(m.t)), Sq(n.z), Prod(D, Sq(n.t)));
  }

  /** k is twice (e, h, g, f), modulo p. */
  ghost predicate Doubles(k: EHGF, e: int, h: int, g: int, f: int) {
    Same(k.e, 2 * e) && Same(k.h, 2 * h) && Same(k.g, 2 * g) && Same(k.f, 2 * f)
  }

  lemma ProductsDouble(k: EHGF, e: int, h: int, g: int, f: int)
    requires Doubles(k, e, h, g, f)
    ensures Multiple(Products(k), 4, Prod(e, f), Prod(h, g), Prod(g, f), Prod(e, h))
  {
    hide Same, Prod;
    TwiceTwice(k.e, e, k.f, f);
    TwiceTwice(k.h, h, k.g, g);
    TwiceTwice(k.g, g, k.f, f);
    TwiceTwice(k.e, e, k.h, h);
  }

  lemma TwiceTwice(x: int, x': int, y: int, y': int)
    requires Same(x, 2 * x') && Same(y, 2 * y')
    ensures Same(Prod(x, y), Prod(4, Prod(x', y')))
  {
    hide Same, Prod;
    SameProduct(x, 2 * x', y, 2 * y');
    Scale(x', y');
    FourTimes(Prod(x', y'));
  }

  lemma FourTimes(x: int)
    ensures Prod(4, x) == 4 * x && Prod(-4, x) == -4 * x
  {
    ProdIsProduct(4, x);
    ProdIsProduct(-4, x);
  }

  /** Half the factors of an addition. */
  lemma AddFactorsAre(m: Ext, n: Ext)
    ensures var u, w := Prod(m.z, n.z), Prod(D, Prod(m.t, n.t));
            Doubles(AddFactors(m, n), EOf(m, n), HOf(m, n), u + w, u - w)
  {
    hide Same, Prod;
    var tt := Prod(m.t, n.t);
    TwiceD(tt);
    SameExact(2 * Prod(m.z, n.z));
    SameSum(2 * Prod(m.z, n.z), 2 * Prod(m.z, n.z), Prod(tt, Value(EC2D)), 2 * Prod(D, tt));
    HalfFactors(m, n);
    SameExact(2 * EOf(m, n));
    SameExact(2 * HOf(m, n));
  }

  lemma HalfFactors(m: Ext, n: Ext)
    ensures Prod(m.y + m.x, n.y + n.x) - Prod(m.y - m.x, n.y - n.x) == 2 * EOf(m, n)
    ensures Prod(m.y + m.x, n.y + n.x) + Prod(m.y - m.x, n.y - n.x) == 2 * HOf(m, n)
  {
    hide Prod;
    Spread(m.y, m.x, n.y + n.x);
    Spread(m.y, m.x, n.y - n.x);
    Spread2(m.y, n.y, n.x);
    Spread2(m.x, n.y, n.x);
    ProdCommutes(m.y, n.x);
  }

  /** The constant of the code is 2d. */
  lemma TwiceD(x: int)
    ensures Same(Prod(x, Value(EC2D)), 2 * Prod(D, x))
  {
    hide Prod, Same;
    EcdIsHalf();
    CongIsSame(Prod(2, D), Value(EC2D));
    TwoTimes(D);
    SameBack(2 * D, Value(EC2D));
    SameExact(x);
    SameProduct(x, x, Value(EC2D), 2 * D);
    Scale(x, D);
    ProdCommutes(x, D);
  }

  lemma TwoTimes(x: int)
    ensures Prod(2, x) == 2 * x
  {
    ProdIsProduct(2, x);
  }

  /** Multiplying all coordinates by c multiplies the sides of the equations by c^2. */
  lemma MultipleSides(m: Ext, c: int, n: Ext)
    requires Multiple(m, c, n.x, n.y, n.z, n.t)
    ensures Same(Left(m), Prod(Sq(c), Left(n))) && Same(Right(m), Prod(Sq(c), Right(n)))
    ensures Same(XY(m), Prod(Sq(c), XY(n))) && Same(ZT(m), Prod(Sq(c), ZT(n)))
  {
    hide Same, Prod;
    Times(m.x, m.x, c, n.x, n.x);
    Times(m.y, m.y, c, n.y, n.y);
    Times(m.z, m.z, c, n.z, n.z);
    Times(m.t, m.t, c, n.t, n.t);
    Times(m.x, m.y, c, n.x, n.y);
    Times(m.z, m.t, c, n.z, n.t);
    SameSum(Sq(m.y), Prod(Sq(c), Sq(n.y)), Sq(m.x), Prod(Sq(c), Sq(n.x)));
    Spread2(Sq(c), Sq(n.y), Sq(n.x));
    SameExact(D);
    SameProduct(D, D, Sq(m.t), Prod(Sq(c), Sq(n.t)));
    Pull(Sq(c), D, Sq(n.t));
    SameSum(Sq(m.z), Prod(Sq(c), Sq(n.z)), Prod(D, Sq(m.t)), Prod(Sq(c), Prod(D, Sq(n.t))));
    Spread2(Sq(c), Sq(n.z), Prod(D, Sq(n.t)));
  }

  lemma Times(x: int, y: int, c: int, x': int, y': int)
    requires Same(x, Prod(c, x')) && Same(y, Prod(c, y'))
    ensures Same(Prod(x, y), Prod(Sq(c), Prod(x', y')))
  {
    hide Same, Prod;
    SameProduct(x, Prod(c, x'), y, Prod(c, y'));
    Shuffle(c, x', c, y');
  }

  /** So a multiple of a point of the curve is one. */
  lemma MultipleOnCurve(m: Ext, c: int, n: Ext)
    requires Multiple(m, c, n.x, n.y, n.z, n.t) && OnCurve(n)
    ensures OnCurve(m)
  {
    hide Same, Prod, Left, Right, XY, ZT;
    MultipleSides(m, c, n);
    SameExact(Sq(c));
    Between(Left(m), Prod(Sq(c), Left(n)), Right(m), Prod(Sq(c), Right(n)), Sq(c), Left(n), Right(n));
    Between(XY(m), Prod(Sq(c), XY(n)), ZT(m), Prod(Sq(c), ZT(n)), Sq(c), XY(n), ZT(n));
  }

  lemma Between(x: int, x': int, y: int, y': int, c: int, a: int, b: int)
    requires Same(x, x') && Same(y, y') && x' == Prod(c, a) && y' == Prod(c, b) && Same(a, b)
    ensures Same(x, y)
  {
    hide Same, Prod;
    SameExact(c);
    SameProduct(c, c, a, b);
    SameBack(y, y');
    SameTwice(x, x', y');
    SameTwice(x, y', y);
  }

  /** The sum of two points of the curve is a point of the curve. */
  lemma AddKeepsCurve(m: Ext, n: Ext)
    requires OnCurve(m) && OnCurve(n)
    ensures OnCurve(RfcAdd(m, n))
  {
    hide Same, Prod, AddFactors, Products, EOf, HOf, Multiple, OnCurve, MeetsCurve;
    var e, h, u, w := EOf(m, n), HOf(m, n), Prod(m.z, n.z), Prod(D, Prod(m.t, n.t));
    AddFactorsAre(m, n);
    ProductsDouble(AddFactors(m, n), e, h, u + w, u - w);
    FactorsMeet(m, n);
    MeetingPoint(e, h, u + w, u - w);
    MultipleOnCurve(RfcAdd(m, n), 4, Products(EHGF(e, h, u + w, u - w)));
  }

  lemma MeetingPoint(e: int, h: int, g: int, f: int)
    requires MeetsCurve(e, h, g, f)
    ensures var n := Products(EHGF(e, h, g, f));
            OnCurve(n) && n == Ext(Prod(e, f), Prod(h, g), Prod(g, f), Prod(e, h))
  {
    hide Same, Prod;
    Shuffle(e, f, h, g);
    ProdCommutes(f, g);
    ProdCommutes(Prod(e, h), Prod(g, f));
    SameExact(Prod(Prod(g, f), Prod(e, h)));
  }

  // ---------------------------------------------------------------------------------------
  // Doubling
  // ---------------------------------------------------------------------------------------

  /** The factors of a doubling are, up to sign, half those of an addition of the point to itself. */
  lemma DoubleFactorsAre(m: Ext)
    requires OnCurve(m)
    ensures var k, u, w := DoubleFactors(m), Prod(m.z, m.z), Prod(D, Prod(m.t, m.t));
            Same(k.e, -EOf(m, m)) && Same(k.h, HOf(m, m)) && Same(k.g, -(u + w)) && Same(k.f, u - w)
  {
    hide Same, Prod;
    SquareOfSum(m.x, m.y);
    var k, u, w := DoubleFactors(m), Prod(m.z, m.z), Prod(D, Prod(m.t, m.t));
    assert k.e == -EOf(m, m) && k.h == HOf(m, m);
    SameExact(k.e);
    SameExact(k.h);
    SameScaled(-1, Left(m), u + w);
    SameExact(2 * u);
    SameSum(2 * u, 2 * u, Left(m), u + w);
  }

  /** Doubling gives the projective point of the sum of the point with itself: -4 times its coordinates. */
  lemma DoubleIsAdd(m: Ext)
    requires OnCurve(m)
    ensures var d := RfcDouble(m); Multiple(RfcAdd(m, m), -4, d.x, d.y, d.z, d.t)
  {
    hide Same, Prod, AddFactors, DoubleFactors, EOf, HOf;
    var e, h, u, w := EOf(m, m), HOf(m, m), Prod(m.z, m.z), Prod(D, Prod(m.t, m.t));
    var f, g, k := u - w, u + w, DoubleFactors(m);
    AddFactorsAre(m, m);
    ProductsDouble(AddFactors(m, m), e, h, g, f);
    DoubleFactorsAre(m);
    MinusFour(RfcAdd(m, m).x, e, f, k.e, -e, k.f, f);
    MinusFour(RfcAdd(m, m).y, h, g, k.h, h, k.g, -g);
    MinusFour(RfcAdd(m, m).z, g, f, k.g, -g, k.f, f);
    MinusFour(RfcAdd(m, m).t, e, h, k.e, -e, k.h, h);
  }

  lemma MinusFour(s: int, x: int, y: int, a: int, a': int, b: int, b': int)
    requires Same(s, Prod(4, Prod(x, y))) && Same(a, a') && Same(b, b')
    requires (a' == -x && b' == y) || (a' == x && b' == -y)
    ensures Same(s, Prod(-4, Prod(a, b)))
  {
    hide Same, Prod;
    SameProduct(a, a', b, b');
    Scale(x, y);
    SameScaled(-4, Prod(a, b), Prod(a', b'));
    FourTimes(Prod(x, y));
    FourTimes(Prod(a, b));
    SameBack(-4 * Prod(a, b), -4 * Prod(a', b'));
    SameTwice(s, 4 * Prod(x, y), -4 * Prod(a, b));
  }

  /** So the double of a point of the curve is a point of the curve. */
  lemma DoubleKeepsCurve(m: Ext)
    requires OnCurve(m)
    ensures OnCurve(RfcDouble(m))
  {
    hide Same, Prod, RfcAdd, RfcDouble, Left, Right, XY, ZT;
    var d := RfcDouble(m);
    AddKeepsCurve(m, m);
    DoubleIsAdd(m);
    MultipleSides(RfcAdd(m, m), -4, d);
    SixteenIs();
    var s := RfcAdd(m, m);
    Cancel16(Left(s), Right(s), Left(d), Right(d));
    Cancel16(XY(s), ZT(s), XY(d), ZT(d));
  }

  lemma SixteenIs()
    ensures Sq(-4) == 16
  {
    ProdIsProduct(-4, -4);
  }

  /** 16 has an inverse modulo p. */
  lemma Cancel16(x: int, y: int, a: int, b: int)
    requires Same(x, y) && Same(x, Prod(16, a)) && Same(y, Prod(16, b))
    ensures Same(a, b)
  {
    hide Null, Prod;
    ProdIsProduct(16, a);
    ProdIsProduct(16, b);
    NullSum(x - y, x - 16 * a);
    NullSum(16 * a - y, y - 16 * b);
    NullSixteenth(a - b);
  }

  lemma NullSixteenth(x: int)
    requires Null(16 * x)
    ensures Null(x)
  {
    var i: int :| 16 * x == TimesP(i);
    assert x == TimesP(0x57ff_ffff_ffff_ffff_ffff_ffff_ffff_ffff_ffff_ffff_ffff_ffff_ffff_ffff_ffff_fff3 * i - 11 * x);
  }

  // ---------------------------------------------------------------------------------------
  // The other laws, as far as they need no third point
  // ---------------------------------------------------------------------------------------

  lemma AddCommutes(m: Ext, n: Ext)
    ensures RfcAdd(m, n) == RfcAdd(n, m)
  {
    hide Prod;
    ProdCommutes(m.y - m.x, n.y - n.x);
    ProdCommutes(m.y + m.x, n.y + n.x);
    ProdCommutes(m.t, n.t);
    ProdCommutes(m.z, n.z);
  }

  lemma NegKeepsCurve(m: Ext)
    requires OnCurve(m)
    ensures OnCurve(NegExt(m))
  {
    hide Same, Prod;
    Scale(m.x, m.x);
    Scale(m.t, m.t);
    Scale(m.x, m.y);
    Scale(m.z, m.t);
    SameScaled(-1, XY(m), ZT(m));
  }

  /** Adding the neutral element multiplies all coordinates by 4z: the same projective point. */
  lemma AddNeutral(m: Ext)
    requires OnCurve(m)
    ensures Multiple(RfcAdd(m, Ext(0, 1, 1, 0)), 4 * m.z, m.x, m.y, m.z, m.t)
  {
    hide Same, Prod, AddFactors, Products, EOf, HOf;
    var o := Ext(0, 1, 1, 0);
    AddFactorsAre(m, o);
    NeutralTerms(m);
    ProductsDouble(AddFactors(m, o), m.x, m.y, m.z, m.z);
    FourTimesFirst(m.z, m.x);
    FourTimesFirst(m.z, m.y);
    FourTimesFirst(m.z, m.z);
    FourTimesFirst(m.z, m.t);
    SameScaled(4, XY(m), ZT(m));
    FourTimes(XY(m));
    SameTwice(RfcAdd(m, o).t, 4 * XY(m), 4 * ZT(m));
  }

  lemma NeutralTerms(m: Ext)
    ensures var o := Ext(0, 1, 1, 0);
            EOf(m, o) == m.x && HOf(m, o) == m.y && Prod(m.z, 1) == m.z && Prod(D, Prod(m.t, 0)) == 0
  {
    hide Prod;
    ProdIsProduct(m.x, 1);
    ProdIsProduct(m.y, 1);
    ProdIsProduct(m.z, 1);
    ProdIsProduct(0, m.y);
    ProdIsProduct(m.x, 0);
    ProdIsProduct(m.t, 0);
    ProdIsProduct(D, 0);
  }

  lemma FourTimesFirst(z: int, x: int)
    ensures Prod(4, Prod(x, z)) == Prod(4 * z, x) == 4 * Prod(z, x)
  {
    hide Prod;
    FourTimes(Prod(x, z));
    Scale(z, x);
    ProdCommutes(x, z);
  }

  /** A point and its negation add up to the neutral element: x and t vanish, and y is z. */
  lemma AddInverse(m: Ext)
    requires OnCurve(m)
    ensures var s := RfcAdd(m, NegExt(m)); Same(s.x, 0) && Same(s.y, s.z) && Same(s.t, 0)
  {
    hide Same, Prod, AddFactors, Products, EOf, HOf;
    var n, s := NegExt(m), RfcAdd(m, NegExt(m));
    var g := Prod(m.z, n.z) + Prod(D, Prod(m.t, n.t));
    AddFactorsAre(m, n);
    NegatedTerms(m);
    ProductsDouble(AddFactors(m, n), 0, Left(m), g, Right(m));
    NothingTimes(Right(m), Left(m));
    SameExact(g);
    SameProduct(Left(m), Right(m), g, g);
    ProdCommutes(Right(m), g);
    SameScaled(4, Prod(Left(m), g), Prod(g, Right(m)));
    FourTimes(Prod(Left(m), g));
    FourTimes(Prod(g, Right(m)));
    SameTwice(s.y, 4 * Prod(Left(m), g), 4 * Prod(g, Right(m)));
    SameBack(s.z, 4 * Prod(g, Right(m)));
    SameTwice(s.y, 4 * Prod(g, Right(m)), s.z);
  }

  lemma NegatedTerms(m: Ext)
    ensures var n := NegExt(m);
            && EOf(m, n) == 0 && HOf(m, n) == Left(m)
            && Prod(m.z, n.z) - Prod(D, Prod(m.t, n.t)) == Right(m)
  {
    hide Prod;
    Scale(m.x, m.y);
    Scale(m.x, m.x);
    Scale(m.t, m.t);
    Scale(D, Prod(m.t, m.t));
  }

  lemma NothingTimes(x: int, y: int)
    ensures Prod(4, Prod(0, x)) == 0 && Prod(4, Prod(0, y)) == 0
  {
    hide Prod;
    ProdIsProduct(0, x);
    ProdIsProduct(0, y);
    ProdIsProduct(4, 0);
  }
}
