/**
 * ed25519_sign_open_batch: batches of up to 64 signatures go through one multi-scalar
 * multiplication, and fall back to single verification when a point does not decode or the
 * result is not neutral.
 */
module BatchVerify {
  import opened Wrappers
  import opened Words
  import opened Bytes
  import opened Groups
  import opened Divisors
  import opened ScalarLimbs
  import opened ScalarMod
  import opened Ed25519
  import opened BatchHeap
  import opened BatchEquation
  import SC = ScalarCodec
  import SR = ScalarRun
  import BC = BosCarter
  import BX = BatchExactness
  import SM = ScalarMult
  import BM = BaseMult

  const MAX_BATCH := 64
  const HEAP_SIZE := 129        // heap_batch_size

  /** A message, a key, a signature, and the random bytes drawn for it. */
  datatype Signed = Signed(m: seq<Byte>, pk: seq<Byte>, rs: seq<Byte>, random: seq<Byte>)

  ghost predicate WellFormed(xs: seq<Signed>) {
    forall i :: 0 <= i < |xs| ==> |xs[i].rs| == 64 && |xs[i].random| == 16
  }

  /** The key and the point R decode. */
  predicate Decodes<P(!new)>(c: Curve<P>, x: Signed)
    requires |x.rs| == 64
  {
    c.unpackNegative(x.pk).Some? && c.unpackNegative(x.rs[..32]).Some?
  }

  function PointOr<P(!new)>(c: Curve<P>, b: seq<Byte>): P {
    var p := c.unpackNegative(b);
    if p.Some? then p.value else c.base
  }

  /** What batch verification makes of one signature. */
  function ClaimOf<P(!new)>(c: Curve<P>, x: Signed): Claim<P>
    requires |x.rs| == 64
  {
    Claim(ScalarOf(x.rs[32..]), ScalarOf(c.hash(x.rs[..32] + x.pk + x.m)), PointOr(c, x.pk), PointOr(c, x.rs[..32]),
          LeValue(x.random))
  }

  function Claims<P(!new)>(c: Curve<P>, xs: seq<Signed>): (claims: seq<Claim<P>>)
    requires WellFormed(xs)
    ensures |claims| == |xs|
  {
    seq(|xs|, i requires 0 <= i < |xs| => ClaimOf(c, xs[i]))
  }

  lemma ClaimAt<P(!new)>(c: Curve<P>, xs: seq<Signed>, i: nat)
    requires WellFormed(xs) && i < |xs|
    ensures Claims(c, xs)[i] == ClaimOf(c, xs[i])
  {
  }

  // ---------------------------------------------------------------------------------------
  // The scalars
  // ---------------------------------------------------------------------------------------

  lemma RandomIsSmall(b: seq<Byte>)
    requires |b| == 16
    ensures LeValue(b) < SR.TWO_128 && ScalarOf(b) == LeValue(b)
  {
    hide LeValue, Pow2, ModOrder;
    LeValueBound(b);
    Pow2Of64();
    Pow2Sum(64, 64);
    ModOrderIdempotent(LeValue(b));
  }

  /** mul256_modm on reduced scalars. */
  method Times(x: Scalar, y: Scalar) returns (z: Scalar)
    requires Value(x) < ORDER && Value(y) < ORDER
    ensures Value(z) == TimesMod(Value(x), Value(y)) < ORDER
  {
    hide Low, Val5, ModOrder;
    ValIsValue(x);
    ValIsValue(y);
    SC.TopLimb(x);
    SC.TopLimb(y);
    var product := MulMod(x, y);
    SC.ReducedIsScalar(product);
    z := product;
    ValIsValue(z);
  }

  /** add256_modm */
  method Plus(x: Scalar, y: Scalar) returns (z: Scalar)
    requires Value(x) < ORDER && Value(y) < ORDER
    ensures Value(z) == ModOrder(Value(x) + Value(y))
  {
    hide Low, Val5, ModOrder;
    ValIsValue(x);
    ValIsValue(y);
    var sum := SC.AddMod(x, y);
    SC.ReducedIsScalar(sum);
    z := sum;
    ValIsValue(z);
  }

  /** The random factors are in place. */
  ghost predicate RandomAt<P(!new)>(s: array<Scalar>, claims: seq<Claim<P>>)
    reads s
  {
    2 * |claims| < s.Length && forall i :: 0 <= i < |claims| ==> Value(s[|claims| + 1 + i]) == claims[i].r < ORDER
  }

  method FillRandom<P(!new)>(c: Curve<P>, xs: seq<Signed>, s: array<Scalar>)
    requires WellFormed(xs) && 2 * |xs| < s.Length
    modifies s
    ensures RandomAt(s, Claims(c, xs))
  {
    hide Low, LeValue, Claims, ScalarOf;
    var k := |xs|;
    for i := 0 to k
      invariant forall j :: 0 <= j < i ==> Value(s[k + 1 + j]) == Claims(c, xs)[j].r < ORDER
    {
      RandomIsSmall(xs[i].random);
      ClaimAt(c, xs, i);
      s[k + 1 + i] := ExpandScalar(xs[i].random);
    }
  }

  /** scalars[0] to scalars[k-1] are r_i s_i. */
  ghost predicate ProductsAt<P(!new)>(s: array<Scalar>, claims: seq<Claim<P>>, from: nat, to: nat)
    reads s
  {
    && to <= |claims| <= s.Length
    && forall j :: from <= j < to ==> Value(s[j]) == TimesMod(claims[j].s, claims[j].r) < ORDER
  }

  method FillProducts<P(!new)>(c: Curve<P>, xs: seq<Signed>, s: array<Scalar>)
    requires WellFormed(xs) && RandomAt(s, Claims(c, xs))
    modifies s
    ensures RandomAt(s, Claims(c, xs)) && ProductsAt(s, Claims(c, xs), 0, |xs|)
  {
    hide Low, Claims, TimesMod;
    ghost var claims := Claims(c, xs);
    var k := |xs|;
    for i := 0 to k
      invariant RandomAt(s, claims) && ProductsAt(s, claims, 0, i)
    {
      s[i] := STerm(c, xs, i, s[k + 1 + i]);
    }
  }

  method STerm<P(!new)>(c: Curve<P>, xs: seq<Signed>, i: nat, r: Scalar) returns (t: Scalar)
    requires WellFormed(xs) && i < |xs| && Value(r) == Claims(c, xs)[i].r < ORDER
    ensures Value(t) == TimesMod(Claims(c, xs)[i].s, Claims(c, xs)[i].r) < ORDER
  {
    hide Low, LeValue, Claims, ScalarOf, ModOrder, TimesMod;
    ClaimAt(c, xs, i);
    SBelow(xs[i]);
    t := ExpandScalar(xs[i].rs[32..]);
    t := Times(t, r);
  }

  /** Their sum in scalars[0]. */
  method SumProducts<P(!new)>(s: array<Scalar>, k: nat, ghost claims: seq<Claim<P>>)
    requires 0 < k == |claims| && RandomAt(s, claims) && ProductsAt(s, claims, 0, k)
    modifies s
    ensures RandomAt(s, claims) && Value(s[0]) == FirstScalar(claims, k)
  {
    hide Low, LeValue, ModOrder, TimesMod, FirstScalar;
    FirstOfOne(claims);
    for i := 1 to k
      invariant RandomAt(s, claims) && Value(s[0]) == FirstScalar(claims, i) < ORDER && ProductsAt(s, claims, i, k)
    {
      FirstStep(claims, i);
      s[0] := Plus(s[0], s[i]);
    }
  }

  lemma SBelow(x: Signed)
    requires |x.rs| == 64
    ensures ScalarOf(x.rs[32..]) < ORDER
  {
  }

  lemma FirstOfOne<P(!new)>(claims: seq<Claim<P>>)
    requires |claims| > 0
    ensures FirstScalar(claims, 1) == TimesMod(claims[0].s, claims[0].r) < ORDER
  {
    hide ModOrder;
    ModOrderIdempotent(TimesMod(claims[0].s, claims[0].r));
    assert FirstScalar(claims, 0) == 0;
  }

  lemma FirstStep<P(!new)>(claims: seq<Claim<P>>, i: nat)
    requires i < |claims|
    ensures FirstScalar(claims, i + 1) == ModOrder(FirstScalar(claims, i) + TimesMod(claims[i].s, claims[i].r)) < ORDER
  {
    hide ModOrder, TimesMod;
  }

  /** scalars[1] to scalars[k]: r_i H(R_i, A_i, m_i). */
  method FillHashes<P(!new)>(c: Curve<P>, xs: seq<Signed>, s: array<Scalar>)
    requires ValidCurve(c) && WellFormed(xs) && RandomAt(s, Claims(c, xs))
    modifies s
    ensures RandomAt(s, Claims(c, xs)) && s[0] == old(s[0])
    ensures forall i :: 0 <= i < |xs| ==> Value(s[i + 1]) == TimesMod(Claims(c, xs)[i].h, Claims(c, xs)[i].r)
  {
    hide Low, Claims, TimesMod, ValidCurve;
    ghost var claims := Claims(c, xs);
    var k := |xs|;
    for i := 0 to k
      invariant RandomAt(s, claims) && s[0] == old(s[0])
      invariant forall j :: 0 <= j < i ==> Value(s[j + 1]) == TimesMod(claims[j].h, claims[j].r)
    {
      s[i + 1] := HashTerm(c, xs, i, s[k + 1 + i]);
    }
  }

  method HashTerm<P(!new)>(c: Curve<P>, xs: seq<Signed>, i: nat, r: Scalar) returns (t: Scalar)
    requires ValidCurve(c) && WellFormed(xs) && i < |xs| && Value(r) == Claims(c, xs)[i].r < ORDER
    ensures Value(t) == TimesMod(Claims(c, xs)[i].h, Claims(c, xs)[i].r)
  {
    hide Low, LeValue, Claims, ModOrder, TimesMod, Abelian, Mul;
    ClaimAt(c, xs, i);
    var hram := c.hash(xs[i].rs[..32] + xs[i].pk + xs[i].m);
    t := ExpandScalar(hram);
    t := Times(t, r);
  }

  /** All scalars of the batch. */
  method FillScalars<P(!new)>(c: Curve<P>, xs: seq<Signed>, s: array<Scalar>)
    requires ValidCurve(c) && WellFormed(xs) && 0 < |xs| && 2 * |xs| < s.Length
    modifies s
    ensures forall i :: 0 <= i < 2 * |xs| + 1 ==> Value(s[i]) == Scalars(Claims(c, xs))[i]
  {
    hide Low, Claims, TimesMod, FirstScalar, ValidCurve, ModOrder;
    FillRandom(c, xs, s);
    FillProducts(c, xs, s);
    SumProducts(s, |xs|, Claims(c, xs));
    FillHashes(c, xs, s);
    ghost var claims, k := Claims(c, xs), |xs|;
    forall i | 0 <= i < 2 * k + 1 ensures Value(s[i]) == Scalars(claims)[i] {
      if i == 0 {
        Entry0(c.base, claims);
      } else if i <= k {
        EntryA(c.base, claims, i);
      } else {
        EntryR(c.base, claims, i - k);
        assert s[i] == s[k + 1 + (i - k - 1)];
      }
    }
  }

  /** B, then all keys, then all points R; stops at the first that does not decode. */
  method FillPoints<P(!new)>(c: Curve<P>, xs: seq<Signed>, p: array<P>) returns (decoded: bool)
    requires WellFormed(xs) && 2 * |xs| < p.Length
    modifies p
    ensures decoded <==> forall i :: 0 <= i < |xs| ==> Decodes(c, xs[i])
    ensures decoded ==> p[..2 * |xs| + 1] == Points(c.base, Claims(c, xs))
  {
    hide Claims, Points;
    ghost var claims := Claims(c, xs);
    var k := |xs|;
    p[0] := c.base;
    for i := 0 to k
      invariant p[0] == c.base
      invariant forall j :: 0 <= j < i ==> c.unpackNegative(xs[j].pk).Some? && p[j + 1] == claims[j].negA
    {
      ClaimAt(c, xs, i);
      var a := c.unpackNegative(xs[i].pk);
      if a.None? { return false; }
      p[i + 1] := a.value;
    }
    for i := 0 to k
      invariant p[0] == c.base && forall j :: 0 <= j < k ==> p[j + 1] == claims[j].negA
      invariant forall j :: 0 <= j < i ==> c.unpackNegative(xs[j].rs[..32]).Some? && p[k + 1 + j] == claims[j].negR
    {
      ClaimAt(c, xs, i);
      var r := c.unpackNegative(xs[i].rs[..32]);
      if r.None? { return false; }
      p[k + 1 + i] := r.value;
    }
    decoded := true;
    forall i | 0 <= i < 2 * k + 1 ensures p[i] == Points(c.base, claims)[i] {
      if i == 0 {
        Entry0(c.base, claims);
      } else if i <= k {
        EntryA(c.base, claims, i);
      } else {
        EntryR(c.base, claims, i - k);
        assert p[i] == p[k + 1 + (i - k - 1)];
      }
    }
  }

  // ---------------------------------------------------------------------------------------
  // One batch
  // ---------------------------------------------------------------------------------------

  /** The scalars that wait while the first half is reduced are the random factors, so they fit in 128 bits. */
  lemma WaitingAreSmall<P(!new)>(claims: seq<Claim<P>>, i: nat)
    requires forall j :: 0 <= j < |claims| ==> claims[j].r < SR.TWO_128
    requires SR.FirstSize(2 * |claims| + 1) <= i < 2 * |claims| + 1
    ensures |claims| + 1 <= i && Scalars(claims)[i] < SR.TWO_128
  {
    SR.FirstSizeIsLeast(2 * |claims| + 1, 1);
    if |claims| > 0 && i > |claims| {
      assert Scalars(claims)[i] == claims[i - |claims| - 1].r;
    }
  }

  lemma FactorsAreSmall<P(!new)>(c: Curve<P>, xs: seq<Signed>)
    requires WellFormed(xs)
    ensures forall i :: 0 <= i < |xs| ==> Claims(c, xs)[i].r < SR.TWO_128
  {
    hide LeValue, ScalarOf;
    forall i | 0 <= i < |xs| ensures Claims(c, xs)[i].r < SR.TWO_128 { RandomIsSmall(xs[i].random); }
  }

  /** A batch that is big enough, and whose points all decode. */
  ghost predicate Decoded<P(!new)>(c: Curve<P>, xs: seq<Signed>)
    requires WellFormed(xs)
  {
    |xs| >= 4 && forall i :: 0 <= i < |xs| ==> Decodes(c, xs[i])
  }

  /** The final step of the multiplication stays in the scalar. */
  ghost predicate Stays<P(!new)>(c: Curve<P>, xs: seq<Signed>)
    requires WellFormed(xs) && |xs| >= 4
  {
    var d := BatchGcd(Claims(c, xs));
    d <= 1 || d % BC.TWO_224 != 0
  }

  /** r is what the multiplication may return for the batch. */
  ghost predicate Ends<P(!new)>(c: Curve<P>, xs: seq<Signed>, ok: bool, r: P)
    requires WellFormed(xs) && |xs| >= 4
  {
    var claims := Claims(c, xs);
    BC.Outcome(c.g, Scalars(claims), Points(c.base, claims), 2 * |claims| + 1, ok, r)
  }

  /** The batch may end in the neutral element, or in another one. */
  ghost predicate MayEnd<P(!new)>(c: Curve<P>, xs: seq<Signed>, neutral: bool)
    requires WellFormed(xs) && |xs| >= 4
  {
    exists r :: Ends(c, xs, true, r) && (neutral <==> r == c.g.zero)
  }

  /** All keys and points R lie in the subgroup of order m. */
  ghost predicate AllInSubgroup<P(!new)>(c: Curve<P>, xs: seq<Signed>)
    requires WellFormed(xs)
  {
    var p := Points(c.base, Claims(c, xs));
    forall i :: 0 <= i < |p| ==> HasOrder(c.g, p[i])
  }

  /** The terms that the run of the batch reaches sum to the neutral element. */
  ghost predicate SumIsNeutral<P(!new)>(c: Curve<P>, xs: seq<Signed>)
    requires WellFormed(xs) && |xs| >= 4
  {
    var claims := Claims(c, xs);
    var s := Scalars(claims);
    Msm(c.g, s, Points(c.base, claims), BC.Reached(s, 2 * |claims| + 1)) == c.g.zero
  }

  /** In the subgroup of prime order, how a batch ends is decided by the sum of the terms reached. */
  lemma EndIsSum<P(!new)>(c: Curve<P>, xs: seq<Signed>, neutral: bool)
    requires ValidCurve(c) && Prime(ORDER) && WellFormed(xs) && |xs| >= 4
    requires AllInSubgroup(c, xs) && MayEnd(c, xs, neutral)
    ensures neutral <==> SumIsNeutral(c, xs)
  {
    hide BC.Outcome, Msm, Claims, Points, Scalars, HasOrder, ValidCurve;
    CurveIsAbelian(c);
    FactorsAreSmall(c, xs);
    var r := WayToEnd(c, xs, neutral);
    BatchAcceptedIff(c.g, c.base, Claims(c, xs), true, r);
  }

  lemma WayToEnd<P(!new)>(c: Curve<P>, xs: seq<Signed>, neutral: bool) returns (r: P)
    requires WellFormed(xs) && |xs| >= 4 && MayEnd(c, xs, neutral)
    ensures Ends(c, xs, true, r) && (neutral <==> r == c.g.zero)
  {
    hide Ends;
    r :| Ends(c, xs, true, r) && (neutral <==> r == c.g.zero);
  }

  lemma CurveIsAbelian<P(!new)>(c: Curve<P>)
    requires ValidCurve(c)
    ensures Abelian(c.g) && Mul(c.g, ORDER, c.base) == c.g.zero
  {
  }

  /** What the arrays hold when the multiplication starts. */
  ghost predicate Loaded<P(!new)>(c: Curve<P>, xs: seq<Signed>, batch: Batch<P>)
    reads batch, batch.scalars, batch.points
    requires WellFormed(xs)
  {
    var n, claims := 2 * |xs| + 1, Claims(c, xs);
    && batch.Shape() && 4 <= |xs| && n <= batch.heap.Length
    && batch.Keys()[..n] == Scalars(claims) && batch.points[..n] == Points(c.base, claims)
  }

  /** The multi-scalar multiplication of a batch: ok is false when it would leave the scalar. */
  method RunBatch<P(==, !new)>(c: Curve<P>, xs: seq<Signed>, batch: Batch<P>) returns (ok: bool, neutral: bool)
    requires ValidCurve(c) && WellFormed(xs) && Loaded(c, xs, batch)
    modifies batch, batch.heap, batch.scalars, batch.points
    ensures ok <==> Stays(c, xs)
    ensures ok ==> MayEnd(c, xs, neutral)
    ensures batch.Shape()
  {
    hide ValidCurve, Abelian, Mul, Ends, Stays, Claims, Scalars, Points, Low, Loaded, BC.Returns;
    CurveIsAbelian(c);
    LoadedFits(c, xs, batch);
    ghost var key, points := batch.Keys(), batch.points[..];
    var r;
    ok, r := BC.MultiScalarmult(c.g, batch, 2 * |xs| + 1);
    neutral := r == c.g.zero;
    EndsFrom(c, xs, key, points, ok, r);
    StaysIff(c, xs, ok, r);
  }

  lemma LoadedFits<P(!new)>(c: Curve<P>, xs: seq<Signed>, batch: Batch<P>)
    requires WellFormed(xs) && Loaded(c, xs, batch)
    ensures var n, claims, key := 2 * |xs| + 1, Claims(c, xs), batch.Keys();
            && batch.Shape() && |xs| >= 4 && n <= batch.heap.Length
            && key[..n] == Scalars(claims) && batch.points[..n] == Points(c.base, claims)
            && forall i :: SR.FirstSize(n) <= i < n ==> key[i] < SR.TWO_128
  {
    hide Claims, Scalars, Points, Low, SR.FirstSize;
    FactorsAreSmall(c, xs);
    var n, key := 2 * |xs| + 1, batch.Keys();
    forall i | SR.FirstSize(n) <= i < n ensures key[i] < SR.TWO_128 {
      WaitingAreSmall(Claims(c, xs), i);
      assert key[i] == key[..n][i];
    }
  }

  lemma EndsFrom<P(!new)>(c: Curve<P>, xs: seq<Signed>, key: seq<nat>, points: seq<P>, ok: bool, r: P)
    requires WellFormed(xs) && |xs| >= 4 && 2 * |xs| + 1 <= |key| == |points|
    requires key[..2 * |xs| + 1] == Scalars(Claims(c, xs)) && points[..2 * |xs| + 1] == Points(c.base, Claims(c, xs))
    requires BC.Returns(c.g, key, points, 2 * |xs| + 1, ok, r)
    ensures Ends(c, xs, ok, r)
  {
    hide Claims, Scalars, Points, BC.Outcome, BC.IdleOutcome;
    BC.OutcomeOfPrefix(c.g, key, points, 2 * |xs| + 1, ok, r);
  }

  lemma StaysIff<P(!new)>(c: Curve<P>, xs: seq<Signed>, ok: bool, r: P)
    requires WellFormed(xs) && |xs| >= 4 && Ends(c, xs, ok, r)
    ensures ok <==> Stays(c, xs)
  {
    hide BC.Outcome, Claims, Scalars, Points, Mul, Msm, GcdOf, InSpan, BC.NextPow2, BC.Extends;
    var claims := Claims(c, xs);
    var q := BX.SurvivingPoint(c.g, Scalars(claims), Points(c.base, claims), 2 * |claims| + 1, ok, r);
  }

  /** The arrays of struct batch_heap. */
  method NewBatch<P(!new)>(c: Curve<P>) returns (batch: Batch<P>)
    ensures fresh(batch) && fresh(batch.heap) && fresh(batch.scalars) && fresh(batch.points)
    ensures batch.Shape() && batch.heap.Length == HEAP_SIZE
  {
    var scalars := new Scalar[HEAP_SIZE](i => [0, 0, 0, 0, 0]);
    var points := new P[HEAP_SIZE](i => c.base);
    var heap := new nat[HEAP_SIZE](i => 0);
    batch := new Batch(scalars, points, heap);
  }

  /** One turn of the loop up to the test of the result: accepted if all points decode and it is neutral. */
  method TryBatch<P(==, !new)>(c: Curve<P>, xs: seq<Signed>, batch: Batch<P>)
    returns (ok: bool, decoded: bool, neutral: bool)
    requires ValidCurve(c) && WellFormed(xs) && 4 <= |xs| <= MAX_BATCH
    requires batch.Shape() && batch.heap.Length == HEAP_SIZE
    modifies batch, batch.heap, batch.scalars, batch.points
    ensures batch.Shape() && (decoded <==> Decoded(c, xs))
    ensures ok <==> (Decoded(c, xs) ==> Stays(c, xs))
    ensures ok && decoded ==> MayEnd(c, xs, neutral)
  {
    hide ValidCurve, Abelian, Mul, MayEnd, Stays, Claims, Scalars, Points, Low;
    FillScalars(c, xs, batch.scalars);
    decoded := FillPoints(c, xs, batch.points);
    ok, neutral := true, false;
    if decoded {
      ghost var n := 2 * |xs| + 1;
      assert batch.Keys()[..n] == Scalars(Claims(c, xs));
      ok, neutral := RunBatch(c, xs, batch);
    }
  }

  // ---------------------------------------------------------------------------------------
  // All batches
  // ---------------------------------------------------------------------------------------

  /** Signature i is tried together with those from GroupStart to GroupEnd. */
  function GroupStart(i: nat): nat { i - i % 64 }

  function GroupEnd(n: nat, i: nat): nat
    requires i < n
  {
    var e := GroupStart(i) + 64;
    if e < n then e else n
  }

  function Group(xs: seq<Signed>, i: nat): seq<Signed>
    requires i < |xs|
  {
    xs[GroupStart(i)..GroupEnd(|xs|, i)]
  }

  ghost predicate Valid<P(!new)>(c: Curve<P>, x: Signed)
    requires |x.rs| == 64
  {
    VerifySpec(c, x.m, x.pk, x.rs)
  }

  /** The group of signature i is big enough, decodes, and may end as said. */
  ghost predicate GroupEnds<P(!new)>(c: Curve<P>, xs: seq<Signed>, i: nat, neutral: bool)
    requires WellFormed(xs) && i < |xs|
  {
    Decoded(c, Group(xs, i)) && MayEnd(c, Group(xs, i), neutral)
  }

  /** The verdict on signature i: that of single verification, or its group was accepted. */
  ghost predicate Verdict<P(!new)>(c: Curve<P>, xs: seq<Signed>, i: nat, valid: bool)
    requires WellFormed(xs) && i < |xs|
  {
    if valid then Valid(c, xs[i]) || GroupEnds(c, xs, i, true)
    else !Valid(c, xs[i]) && (Decoded(c, Group(xs, i)) ==> GroupEnds(c, xs, i, false))
  }

  /** ret: bit 0 for an invalid signature, bit 1 for a batch that decoded and was not neutral. */
  ghost predicate ReturnBits<P(!new)>(c: Curve<P>, xs: seq<Signed>, ret: nat, valid: seq<bool>, n: nat)
    requires WellFormed(xs) && n <= |xs| && n <= |valid|
  {
    && (ret % 2 == 1 <==> exists i :: 0 <= i < n && !valid[i])
    && if ret >= 2 then exists i :: 0 <= i < n && GroupEnds(c, xs, i, false)
       else forall i :: 0 <= i < n && Decoded(c, Group(xs, i)) ==> GroupEnds(c, xs, i, true)
  }

  /** The verdicts on the first n signatures and the return value so far. */
  ghost predicate Results<P(!new)>(c: Curve<P>, xs: seq<Signed>, valid: seq<bool>, ret: nat, n: nat)
    requires WellFormed(xs)
  {
    && n <= |xs| == |valid| && ret < 4 && (forall i :: 0 <= i < n ==> Verdict(c, xs, i, valid[i]))
    && (forall i :: n <= i < |xs| ==> valid[i]) && ReturnBits(c, xs, ret, valid, n)
  }

  ghost predicate AllStay<P(!new)>(c: Curve<P>, xs: seq<Signed>, n: nat)
    requires WellFormed(xs) && n <= |xs|
  {
    forall i :: 0 <= i < n && Decoded(c, Group(xs, i)) ==> Stays(c, Group(xs, i))
  }

  /** Single verification of the signatures from `from` to `to`; `bad` tells whether one is invalid. */
  method OneByOne<P(!new)>(c: Curve<P>, xs: seq<Signed>, from: nat, to: nat, valid: seq<bool>)
    returns (valid': seq<bool>, bad: bool)
    requires ValidCurve(c) && WellFormed(xs) && from <= to <= |xs| == |valid|
    ensures |valid'| == |xs| && forall i :: 0 <= i < |xs| && !(from <= i < to) ==> valid'[i] == valid[i]
    ensures forall i :: from <= i < to ==> (valid'[i] <==> Valid(c, xs[i]))
    ensures bad <==> exists i :: from <= i < to && !valid'[i]
  {
    hide ValidCurve, VerifySpec;
    valid', bad := valid, false;
    for i := from to to
      invariant |valid'| == |xs| && forall j :: 0 <= j < |xs| && !(from <= j < i) ==> valid'[j] == valid[j]
      invariant forall j :: from <= j < i ==> (valid'[j] <==> Valid(c, xs[j]))
      invariant bad <==> exists j :: from <= j < i && !valid'[j]
    {
      var accepted := SignOpen(c, xs[i].m, xs[i].pk, xs[i].rs);
      valid' := valid'[i := accepted];
      bad := bad || !accepted;
    }
  }

  /** ret |= bits */
  function OrBits(ret: nat, two: bool, one: bool): (r: nat)
    requires ret < 4
    ensures r < 4 && (r % 2 == 1 <==> ret % 2 == 1 || one) && (r >= 2 <==> ret >= 2 || two)
  {
    var r := if two && ret < 2 then ret + 2 else ret;
    if one && r % 2 == 0 then r + 1 else r
  }

  /** Nothing changes for a batch that decodes and ends in the neutral element. */
  lemma Accepted<P(!new)>(c: Curve<P>, xs: seq<Signed>, valid: seq<bool>, ret: nat, pos: nat, size: nat)
    requires WellFormed(xs) && Results(c, xs, valid, ret, pos) && pos + size <= |xs|
    requires forall i :: pos <= i < pos + size ==> GroupEnds(c, xs, i, true)
    ensures Results(c, xs, valid, ret, pos + size)
  {
    hide Valid, GroupEnds, Decoded;
  }

  /** Otherwise all its signatures are verified one by one. */
  lemma Fallen<P(!new)>(c: Curve<P>, xs: seq<Signed>, valid: seq<bool>, valid': seq<bool>, ret: nat, bad: bool,
                        decoded: bool, pos: nat, size: nat)
    requires WellFormed(xs) && Results(c, xs, valid, ret, pos) && pos + size <= |xs| == |valid'|
    requires forall i :: 0 <= i < |xs| && !(pos <= i < pos + size) ==> valid'[i] == valid[i]
    requires forall i :: pos <= i < pos + size ==> (valid'[i] <==> Valid(c, xs[i]))
    requires bad <==> exists i :: pos <= i < pos + size && !valid'[i]
    requires forall i :: pos <= i < pos + size ==>
               if decoded then GroupEnds(c, xs, i, false) else !Decoded(c, Group(xs, i))
    requires decoded ==> size > 0
    ensures Results(c, xs, valid', OrBits(ret, decoded, bad), pos + size)
  {
    hide Valid, GroupEnds, Decoded, OrBits;
    forall i | 0 <= i < pos + size ensures Verdict(c, xs, i, valid'[i]) {
      if i < pos { assert Verdict(c, xs, i, valid[i]); }
    }
    BitsFallen(c, xs, valid, valid', ret, bad, decoded, pos, size);
  }

  lemma BitsFallen<P(!new)>(c: Curve<P>, xs: seq<Signed>, valid: seq<bool>, valid': seq<bool>, ret: nat, bad: bool,
                            decoded: bool, pos: nat, size: nat)
    requires WellFormed(xs) && pos + size <= |xs| == |valid'| == |valid| && ret < 4
    requires ReturnBits(c, xs, ret, valid, pos)
    requires forall i :: 0 <= i < pos ==> valid'[i] == valid[i]
    requires bad <==> exists i :: pos <= i < pos + size && !valid'[i]
    requires forall i :: pos <= i < pos + size ==>
               if decoded then GroupEnds(c, xs, i, false) else !Decoded(c, Group(xs, i))
    requires decoded ==> size > 0
    ensures ReturnBits(c, xs, OrBits(ret, decoded, bad), valid', pos + size)
  {
    hide GroupEnds, Decoded, OrBits;
    var r := OrBits(ret, decoded, bad);
    if ret % 2 == 1 {
      var i :| 0 <= i < pos && !valid[i];
      assert !valid'[i];
    }
    if bad {
      var i :| pos <= i < pos + size && !valid'[i];
    }
    if decoded {
      assert GroupEnds(c, xs, pos, false);
    } else if ret >= 2 {
      var i :| 0 <= i < pos && GroupEnds(c, xs, i, false);
    }
  }

  /** One turn of the loop over the batches. */
  method OneBatch<P(==, !new)>(c: Curve<P>, xs: seq<Signed>, pos: nat, size: nat, batch: Batch<P>, valid: seq<bool>,
                               ret: nat)
    returns (ok: bool, valid': seq<bool>, ret': nat)
    requires ValidCurve(c) && WellFormed(xs) && Results(c, xs, valid, ret, pos) && AllStay(c, xs, pos)
    requires pos % 64 == 0 && pos + size <= |xs| && 4 <= size == if |xs| - pos > 64 then 64 else |xs| - pos
    requires batch.Shape() && batch.heap.Length == HEAP_SIZE
    modifies batch, batch.heap, batch.scalars, batch.points
    ensures batch.Shape()
    ensures if ok then Results(c, xs, valid', ret', pos + size) && AllStay(c, xs, pos + size) else !AllStay(c, xs, |xs|)
  {
    hide ValidCurve, Valid, Decoded, MayEnd, Stays, ReturnBits, Verdict;
    var decoded, neutral;
    ok, decoded, neutral := TryBatch(c, xs[pos..pos + size], batch);
    valid', ret' := valid, ret;
    GroupsAre(xs, pos, size);
    if !ok {
      assert Group(xs, pos) == xs[pos..pos + size];
    } else if decoded && neutral {
      Accepted(c, xs, valid, ret, pos, size);
    } else {
      var bad;
      valid', bad := OneByOne(c, xs, pos, pos + size, valid);
      ret' := OrBits(ret, decoded, bad);
      Fallen(c, xs, valid, valid', ret, bad, decoded, pos, size);
    }
  }

  /**
   * ed25519_sign_open_batch. ok is false when a final exponentiation would leave its scalar, and
   * then nothing is promised; which batches do is decided by the gcd of their scalars.
   */
  method SignOpenBatch<P(==, !new)>(c: Curve<P>, xs: seq<Signed>) returns (ok: bool, ret: nat, valid: seq<bool>)
    requires ValidCurve(c) && WellFormed(xs)
    ensures ok <==> AllStay(c, xs, |xs|)
    ensures ok ==> Results(c, xs, valid, ret, |xs|)
  {
    hide ValidCurve, Valid, Decoded, MayEnd, Stays, Verdict;
    var batch := NewBatch(c);
    ok, ret, valid := true, 0, seq(|xs|, i => true);
    var pos, num: nat := 0, |xs|;
    while num > 3
      invariant pos + num == |xs| == |valid| && batch.Shape() && batch.heap.Length == HEAP_SIZE
      invariant fresh(batch) && fresh(batch.heap) && fresh(batch.scalars) && fresh(batch.points)
      invariant pos % 64 == 0 || num == 0
      invariant Results(c, xs, valid, ret, pos) && AllStay(c, xs, pos)
      decreases num
    {
      var size := if num > MAX_BATCH then MAX_BATCH else num;
      ok, valid, ret := OneBatch(c, xs, pos, size, batch, valid, ret);
      if !ok { return; }
      pos, num := pos + size, num - size;
    }
    FewLeft(c, xs, pos);
    var bad;
    ghost var before := valid;
    valid, bad := OneByOne(c, xs, pos, |xs|, valid);
    Fallen(c, xs, before, valid, ret, bad, false, pos, num);
    ret := OrBits(ret, false, bad);
  }

  /** While batches are taken, each is the group of all its members. */
  lemma GroupsAre(xs: seq<Signed>, pos: nat, size: nat)
    requires pos % 64 == 0 && pos + size <= |xs| && size == if |xs| - pos > 64 then 64 else |xs| - pos
    ensures forall i :: pos <= i < pos + size ==> Group(xs, i) == xs[pos..pos + size]
  {
    forall i | pos <= i < pos + size ensures Group(xs, i) == xs[pos..pos + size] {
      assert GroupStart(i) == pos;
    }
  }

  /** What is left after the batches is a group too small for one. */
  lemma FewLeft<P(!new)>(c: Curve<P>, xs: seq<Signed>, pos: nat)
    requires WellFormed(xs) && pos <= |xs| <= pos + 3 && (pos % 64 == 0 || pos == |xs|)
    ensures forall i :: pos <= i < |xs| ==> !Decoded(c, Group(xs, i))
  {
    if pos < |xs| { GroupsAre(xs, pos, |xs| - pos); }
  }

  // ---------------------------------------------------------------------------------------
  // What the results mean
  // ---------------------------------------------------------------------------------------

  /** Every signature that single verification accepts is accepted, whatever else is in its batch. */
  lemma ValidIsAccepted<P(!new)>(c: Curve<P>, xs: seq<Signed>, valid: seq<bool>, ret: nat, i: nat)
    requires WellFormed(xs) && Results(c, xs, valid, ret, |xs|) && i < |xs| && Valid(c, xs[i])
    ensures valid[i]
  {
    hide Valid, ReturnBits;
    assert Verdict(c, xs, i, valid[i]);
  }

  /**
   * Which signatures are accepted, when the points of their batch lie in the subgroup of prime
   * order: the valid ones, and all of a batch whose reached terms sum to the neutral element.
   */
  lemma AcceptedIff<P(!new)>(c: Curve<P>, xs: seq<Signed>, valid: seq<bool>, ret: nat, i: nat)
    requires ValidCurve(c) && Prime(ORDER) && WellFormed(xs) && Results(c, xs, valid, ret, |xs|) && i < |xs|
    requires AllInSubgroup(c, Group(xs, i))
    ensures valid[i] <==> Valid(c, xs[i]) || (Decoded(c, Group(xs, i)) && SumIsNeutral(c, Group(xs, i)))
  {
    hide ValidCurve, Valid, ReturnBits, MayEnd, SumIsNeutral, AllInSubgroup;
    assert Verdict(c, xs, i, valid[i]);
    var group := Group(xs, i);
    if Decoded(c, group) {
      if MayEnd(c, group, true) { EndIsSum(c, group, true); }
      if MayEnd(c, group, false) { EndIsSum(c, group, false); }
    }
  }

  /** The encoding of every point decodes to its negation. */
  ghost predicate Inverts<P(!new)>(c: Curve<P>) {
    forall p :: c.unpackNegative(c.pack(p)) == Some(c.g.neg(p))
  }

  /** A signature accepted by single verification has a vanishing residual in the batch. */
  lemma ResidualOfValid<P(!new)>(c: Curve<P>, x: Signed)
    requires ValidCurve(c) && Inverts(c) && |x.rs| == 64 && Valid(c, x)
    ensures Decodes(c, x) && Residual(c.g, c.base, ClaimOf(c, x)) == c.g.zero
  {
    hide Abelian, Mul, ModOrder, LeValue, SM.OddMultiples, BM.BaseTable;
    var a := c.unpackNegative(x.pk).value;
    var h, s := ScalarOf(c.hash(x.rs[..32] + x.pk + x.m)), ScalarOf(x.rs[32..]);
    var u, v := Mul(c.g, s, c.base), Mul(c.g, h, a);
    Laws(c.g, v, u, u);
    Laws(c.g, c.g.add(u, v), u, u);
    assert c.pack(c.g.add(v, u)) == x.rs[..32];
  }

  /**
   * A batch of signatures that single verification accepts, with keys in the subgroup, whose run
   * reaches all terms: their sum is neutral, so the batch does not fall back.
   */
  lemma AllValidIsNeutral<P(!new)>(c: Curve<P>, xs: seq<Signed>)
    requires ValidCurve(c) && Inverts(c) && WellFormed(xs) && |xs| >= 4
    requires forall i :: 0 <= i < |xs| ==> Valid(c, xs[i]) && HasOrder(c.g, PointOr(c, xs[i].pk))
    requires ReachesAll(Scalars(Claims(c, xs)), 2 * |xs| + 1)
    ensures Decoded(c, xs) && SumIsNeutral(c, xs)
  {
    hide ValidCurve, Inverts, Valid, Mul, Msm, Scalars, Points, Weighted, Residual, AllDropped, BC.Extends;
    CurveIsAbelian(c);
    var claims := Claims(c, xs);
    forall i | 0 <= i < |xs|
      ensures Decodes(c, xs[i]) && Residual(c.g, c.base, claims[i]) == c.g.zero && HasOrder(c.g, claims[i].negA)
    {
      ResidualOfValid(c, xs[i]);
    }
    BatchSum(c.g, c.base, claims);
    WeightedZero(c.g, c.base, claims, |claims|);
    var n, count := BC.Reached(Scalars(claims), 2 * |claims| + 1), 2 * |claims| + 1;
    if n < count { BX.MsmTailZero(c.g, Scalars(claims), Points(c.base, claims), n, count); }
  }
}
