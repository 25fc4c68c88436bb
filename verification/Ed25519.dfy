/**
 * Key generation, signing and verification of ed25519.c, over an abstract curve: the hash, the
 * point encoding and the group are parameters, the scalar arithmetic and the two scalar
 * multiplications are the ones proved in this project.
 */
module Ed25519 {
  import opened Wrappers
  import opened Words
  import opened Bytes
  import opened Bitwise
  import opened Groups
  import opened ScalarLimbs
  import opened ScalarMod
  import SC = ScalarCodec
  import SM = ScalarMult
  import BM = BaseMult

  datatype Curve<!P(!new)> = Curve(
    g: Group<P>,
    base: P,
    table: seq<P>,                               // multiples for the fixed-base multiplication
    multiples: seq<P>,                           // odd multiples of the base point
    pack: P -> seq<Byte>,                        // ge25519_pack
    unpackNegative: seq<Byte> -> Option<P>,      // ge25519_unpack_negative_vartime
    hash: seq<Byte> -> seq<Byte>)                // the 512-bit hash

  /** What the curve data promise: the base point has order m, the tables hold its multiples, encodings invert. */
  ghost predicate ValidCurve<P(!new)>(c: Curve<P>) {
    && Abelian(c.g) && Mul(c.g, ORDER, c.base) == c.g.zero
    && BM.BaseTable(c.g, c.table, c.base)
    && |c.multiples| == SM.TABLE2 && SM.OddMultiples(c.g, c.multiples, c.base)
    && (forall p :: |c.pack(p)| == 32)
    && (forall k: nat :: var p := Mul(c.g, k, c.base); c.unpackNegative(c.pack(p)) == Some(c.g.neg(p)))
    && (forall x :: |c.hash(x)| == 64)
  }

  /** The hashed secret key with its scalar half clamped. */
  function ExtendedKey<P(!new)>(c: Curve<P>, sk: seq<Byte>): (e: seq<Byte>)
    requires |c.hash(sk)| == 64
    ensures |e| == 64
  {
    var h := c.hash(sk);
    h[0 := h[0] - h[0] % 8][31 := 64 + h[31] % 64]
  }

  /** ed25519_extsk */
  method ExtendSecret<P(!new)>(c: Curve<P>, sk: seq<Byte>) returns (e: seq<Byte>)
    requires ValidCurve(c)
    ensures e == ExtendedKey(c, sk)
  {
    hide And, Or;
    e := c.hash(sk);
    ClampBytes(e[0], e[31]);
    e := e[0 := And(e[0], 248)];
    e := e[31 := And(e[31], 127)];
    e := e[31 := Or(e[31], 64)];
  }

  /** The three masks on the first and the last byte. */
  lemma ClampBytes(x: Byte, y: Byte)
    ensures And(x, 248) == x - x % 8 && And(y, 127) == y % 128 && Or(And(y, 127), 64) == 64 + y % 64
  {
    hide And, Or, Pow2;
    Pow2Small();
    LowThree(x);
    AndLow(y, 7);
    OrBit(y % 128, 6);
  }

  lemma LowThree(x: Byte)
    ensures And(x, 248) == x - x % 8
  {
    hide And, Pow2;
    Pow2Small();
    AndStep(x, 248);
    AndStep(x / 2, 124);
    AndStep(x / 4, 62);
    AllOnes(x / 8, 5);
  }

  /**
   * What clamping does to the scalar: bit 254 is set and bit 255 is not, the three low bits are
   * zero, and bits 3 to 253 are those of the hash. The other half of the hash is kept.
   */
  lemma Clamped<P(!new)>(c: Curve<P>, sk: seq<Byte>)
    requires |c.hash(sk)| == 64
    ensures var e, h := ExtendedKey(c, sk), c.hash(sk);
            var v, u := LeValue(e[..32]), LeValue(h[..32]);
            && Pow2(254) <= v < Pow2(255) && v % 8 == 0 && v % Pow2(254) / 8 == u % Pow2(254) / 8
            && e[32..] == h[32..]
  {
    hide LeValue, Pow2, Joined;
    var h := c.hash(sk);
    var mid := ClampedParts(h, ExtendedKey(c, sk));
    SC.Pow2Of248();
    Pow2Sum(248, 6);
    Pow2Sum(248, 7);
    Pow2Small();
    ClampedValue(h[0], mid, h[31]);
  }

  lemma ClampedParts(h: seq<Byte>, e: seq<Byte>) returns (mid: nat)
    requires |h| == 64 && e == h[0 := h[0] - h[0] % 8][31 := 64 + h[31] % 64]
    ensures 0x100 * mid < Pow2(248) && e[32..] == h[32..]
    ensures LeValue(h[..32]) == Joined(h[0], mid, h[31])
    ensures LeValue(e[..32]) == Joined(h[0] - h[0] % 8, mid, 64 + h[31] % 64)
  {
    hide LeValue, Pow2, Joined;
    mid := LeValue(h[1..31]);
    EndsAndMiddle(e[..32]);
    EndsAndMiddle(h[..32]);
    LeValueBound(h[1..31]);
    assert e[..32][1..31] == h[1..31] && h[..32][1..31] == h[1..31];
    Pow2Sum(240, 8);
    Pow2Small();
  }

  /** The value of 32 bytes by its ends and the bytes between. */
  lemma EndsAndMiddle(b: seq<Byte>)
    requires |b| == 32
    ensures LeValue(b) == Joined(b[0], LeValue(b[1..31]), b[31])
  {
    hide LeValue, Pow2;
    assert b == [b[0]] + (b[1..31] + [b[31]]);
    LeValueConcat([b[0]], b[1..31] + [b[31]]);
    LeValueConcat(b[1..31], [b[31]]);
    OneByte(b[0]);
    OneByte(b[31]);
    SC.Pow2Of248();
    Pow2Sum(240, 8);
    Pow2Small();
  }

  /** The value of 32 bytes from their parts. */
  function Joined(x: int, mid: int, y: int): int {
    x + 0x100 * mid + 0x100_0000_0000_0000_0000_0000_0000_0000_0000_0000_0000_0000_0000_0000_0000_0000 * y
  }

  lemma ClampedValue(x: Byte, mid: nat, y: Byte)
    requires 0x100 * mid < 0x100_0000_0000_0000_0000_0000_0000_0000_0000_0000_0000_0000_0000_0000_0000_0000
    ensures var v, u := Joined(x - x % 8, mid, 64 + y % 64), Joined(x, mid, y);
            var t := 0x4000_0000_0000_0000_0000_0000_0000_0000_0000_0000_0000_0000_0000_0000_0000_0000;
            0 <= u && t <= v < 2 * t && v % 8 == 0 && v % t / 8 == u % t / 8
  {
    var low := Joined(x, mid, y % 64);
    LowBits(Joined(x - x % 8, mid, 64 + y % 64), 1, low - x % 8);
    LowBits(Joined(x, mid, y), y / 64, low);
  }

  lemma LowBits(v: int, k: int, low: int)
    requires v == 0x4000_0000_0000_0000_0000_0000_0000_0000_0000_0000_0000_0000_0000_0000_0000_0000 * k + low
    requires 0 <= low < 0x4000_0000_0000_0000_0000_0000_0000_0000_0000_0000_0000_0000_0000_0000_0000_0000
    ensures v % 0x4000_0000_0000_0000_0000_0000_0000_0000_0000_0000_0000_0000_0000_0000_0000_0000 == low
  {
  }

  /** The scalar of a byte string. */
  function ScalarOf(b: seq<Byte>): nat { ModOrder(LeValue(b)) }

  /** x * y mod m */
  function TimesMod(x: nat, y: nat): nat {
    MulBounds(x, y);
    ModOrder(x * y)
  }

  /** A = [a]B, encoded */
  function KeySpec<P(!new)>(c: Curve<P>, sk: seq<Byte>): seq<Byte>
    requires |c.hash(sk)| == 64
  {
    c.pack(Mul(c.g, ScalarOf(ExtendedKey(c, sk)[..32]), c.base))
  }

  /** R = [r]B and S = r + H(R, A, m)a, encoded */
  function SignSpec<P(!new)>(c: Curve<P>, m: seq<Byte>, sk: seq<Byte>, pk: seq<Byte>): seq<Byte>
    requires |c.hash(sk)| == 64
  {
    var e := ExtendedKey(c, sk);
    var r := ScalarOf(c.hash(e[32..] + m));
    var rEnc := c.pack(Mul(c.g, r, c.base));
    rEnc + ToBytes(ModOrder(TimesMod(ScalarOf(c.hash(rEnc + pk + m)), ScalarOf(e[..32])) + r), 32)
  }

  /** The key decodes, S has no bit above 252, and R is the encoding of [S]B - [H(R, A, m)]A. */
  ghost predicate VerifySpec<P(!new)>(c: Curve<P>, m: seq<Byte>, pk: seq<Byte>, rs: seq<Byte>)
    requires |rs| == 64
  {
    var a, h, s := c.unpackNegative(pk), ScalarOf(c.hash(rs[..32] + pk + m)), ScalarOf(rs[32..]);
    && rs[63] < 32 && a.Some?
    && c.pack(c.g.add(Mul(c.g, h, a.value), Mul(c.g, s, c.base))) == rs[..32]
  }

  /** Expand as a normalised scalar. */
  method ExpandScalar(input: seq<Byte>) returns (s: Scalar)
    requires |input| <= 64
    ensures Val(s) == ScalarOf(input) && s[4] < 0x2000_0000
    ensures Value(s) == ScalarOf(input) < Pow2(255)
  {
    hide LeValue, ModOrder, Val5, Low, Pow2;
    var out := SC.Expand(input);
    SC.ReducedIsScalar(out);
    s := out;
    ValIsValue(s);
    OrderBelow255();
  }

  /** The order of the base point, section 5.1 of RFC 8032. */
  lemma OrderIs()
    ensures ORDER == Pow2(252) + 27742317777372353535851937790883648493
  {
    hide Pow2;
    SC.Pow2Of248();
    Pow2Small();
    Pow2Sum(248, 4);
  }

  lemma OrderBelow255()
    ensures ORDER < Pow2(255)
  {
    hide Pow2;
    SC.Pow2Of248();
    Pow2Monotone(248, 255);
    Pow2Sum(248, 7);
    Pow2Small();
  }

  method PublicKey<P(!new)>(c: Curve<P>, sk: seq<Byte>) returns (pk: seq<Byte>)
    requires ValidCurve(c)
    ensures pk == KeySpec(c, sk)
  {
    hide LeValue, ModOrder, Mul, Abelian, Low, Val5, Pow2, BM.BaseTable, SM.OddMultiples;
    var e := ExtendSecret(c, sk);
    var a := ExpandScalar(e[..32]);
    var p := BM.ScalarmultBase(c.g, c.table, a, c.base);
    pk := c.pack(p);
  }

  method Sign<P(!new)>(c: Curve<P>, m: seq<Byte>, sk: seq<Byte>, pk: seq<Byte>) returns (rs: seq<Byte>)
    requires ValidCurve(c)
    ensures rs == SignSpec(c, m, sk, pk) && |rs| == 64
  {
    hide LeValue, ModOrder, Mul, Abelian, Low, Val5, Pow2, BM.BaseTable, SM.OddMultiples, ToBytes;
    var e := ExtendSecret(c, sk);
    var r := ExpandScalar(c.hash(e[32..] + m));
    var p := BM.ScalarmultBase(c.g, c.table, r, c.base);
    var rEnc := c.pack(p);
    var h := ExpandScalar(c.hash(rEnc + pk + m));
    var a := ExpandScalar(e[..32]);
    var product := MulMod(h, a);
    SC.ReducedIsScalar(product);
    var sum := SC.AddMod(product, r);
    SC.ReducedIsScalar(sum);
    var s := SC.Contract(sum);
    EncodedScalar(s, Val(sum));
    rs := rEnc + s;
  }

  lemma EncodedScalar(b: seq<Byte>, v: nat)
    requires |b| == 32 && LeValue(b) == v < ORDER
    ensures b == ToBytes(v, 32)
  {
    hide LeValue, ToBytes, Pow2;
    OrderBelow255();
    Pow2Monotone(255, 256);
    ToBytesValue(v, 32);
    LeValueInjective(b, ToBytes(v, 32));
  }

  method SignOpen<P(!new)>(c: Curve<P>, m: seq<Byte>, pk: seq<Byte>, rs: seq<Byte>) returns (ok: bool)
    requires ValidCurve(c) && |rs| == 64
    ensures ok <==> VerifySpec(c, m, pk, rs)
    ensures ok ==>
      var h, s := ModOrder(LeValue(c.hash(rs[..32] + pk + m))), ModOrder(LeValue(rs[32..]));
      c.pack(c.g.add(Mul(c.g, h, c.unpackNegative(pk).value), Mul(c.g, s, c.base))) == rs[..32]
  {
    hide LeValue, ModOrder, Mul, Abelian, Low, Val5, Pow2, BM.BaseTable, SM.OddMultiples, ToBytes;
    if rs[63] / 32 != 0 { return false; }
    var a := c.unpackNegative(pk);
    if a.None? { return false; }
    var h := ExpandScalar(c.hash(rs[..32] + pk + m));
    var s := ExpandScalar(rs[32..]);
    var r := SM.DoubleScalarmult(c.g, a.value, h, s, c.base, c.multiples);
    return c.pack(r) == rs[..32];
  }

  // ---------------------------------------------------------------------------------------
  // Verification accepts what signing produces
  // ---------------------------------------------------------------------------------------

  /** The base point has order m, so scalars may be reduced. */
  lemma MulModOrder<P(!new)>(g: Group<P>, p: P, n: nat)
    requires Abelian(g) && Mul(g, ORDER, p) == g.zero
    ensures Mul(g, ModOrder(n), p) == Mul(g, n, p)
  {
    var k := Quotient(n);
    MulMul(g, k, ORDER, p);
    MulZero(g, k);
    MulAdd(g, k * ORDER, ModOrder(n), p);
    Laws(g, g.zero, Mul(g, ModOrder(n), p), p);
    Laws(g, Mul(g, ModOrder(n), p), g.zero, p);
  }

  function Quotient(n: nat): (k: nat)
    ensures n == k * ORDER + ModOrder(n)
  {
    n / 0x1000_0000_0000_0000_0000_0000_0000_0000_14de_f9de_a2f7_9cd6_5812_631a_5cf5_d3ed
  }

  /** [r + h*a]B - [h][a]B == [r]B */
  lemma SignatureEquation<P(!new)>(g: Group<P>, base: P, r: nat, h: nat, a: nat)
    requires Abelian(g) && Mul(g, ORDER, base) == g.zero
    ensures g.add(Mul(g, h, g.neg(Mul(g, a, base))), Mul(g, ModOrder(TimesMod(h, a) + r), base)) == Mul(g, r, base)
  {
    hide Mul, ModOrder, Abelian;
    var ha := h * a;
    MulModOrder(g, base, ModOrder(ha) + r);
    MulAdd(g, ModOrder(ha), r, base);
    MulModOrder(g, base, ha);
    var x, y := Mul(g, ha, base), Mul(g, r, base);
    MulNeg(g, a, base);
    MulMul(g, h, -(a as int), base);
    assert h * -(a as int) == -(ha as int);
    MulNeg(g, ha, base);
    Laws(g, g.neg(x), x, y);
    Laws(g, x, g.neg(x), y);
    Laws(g, g.neg(x), x, x);
    Laws(g, g.zero, y, y);
    Laws(g, y, g.zero, y);
  }

  /** A reduced scalar has no bit above 252, so its top byte passes the check of verification. */
  lemma TopByteSmall(v: nat)
    requires v < ORDER
    ensures ToBytes(v, 32)[31] < 32 && LeValue(ToBytes(v, 32)) == v
  {
    hide LeValue, Pow2;
    OrderBelow255();
    Pow2Monotone(255, 256);
    var b := ToBytes(v, 32);
    ToBytesValue(v, 32);
    assert b == b[..31] + [b[31]];
    LeValueConcat(b[..31], [b[31]]);
    SC.Pow2Of248();
    OneByte(b[31]);
  }

  lemma OneByte(x: Byte)
    ensures LeValue([x]) == x
  {
    assert [x][1..] == [];
  }

  /** The public key is the clamped scalar times the base point, although the code reduces the scalar first. */
  lemma KeyIsClampedMultiple<P(!new)>(c: Curve<P>, sk: seq<Byte>)
    requires ValidCurve(c)
    ensures KeySpec(c, sk) == c.pack(Mul(c.g, LeValue(ExtendedKey(c, sk)[..32]), c.base))
  {
    hide LeValue, ModOrder, Mul, Abelian, BM.BaseTable, SM.OddMultiples;
    MulModOrder(c.g, c.base, LeValue(ExtendedKey(c, sk)[..32]));
  }

  /** For every key, message and curve: verification accepts the signature. */
  lemma SignThenVerify<P(!new)>(c: Curve<P>, m: seq<Byte>, sk: seq<Byte>)
    requires ValidCurve(c)
    ensures var pk := KeySpec(c, sk);
            var rs := SignSpec(c, m, sk, pk);
            |rs| == 64 && VerifySpec(c, m, pk, rs)
  {
    hide LeValue, ModOrder, Mul, Abelian, BM.BaseTable, SM.OddMultiples, ToBytes;
    var pk := KeySpec(c, sk);
    var rs := SignSpec(c, m, sk, pk);
    var e := ExtendedKey(c, sk);
    var a := ScalarOf(e[..32]);
    var r := ScalarOf(c.hash(e[32..] + m));
    var rEnc := c.pack(Mul(c.g, r, c.base));
    var h := ScalarOf(c.hash(rEnc + pk + m));
    var s := ModOrder(TimesMod(h, a) + r);
    TopByteSmall(s);
    assert rs[..32] == rEnc && rs[32..] == ToBytes(s, 32);
    assert c.unpackNegative(pk) == Some(c.g.neg(Mul(c.g, a, c.base)));
    ModOrderIdempotent(s);
    SignatureEquation(c.g, c.base, r, h, a);
  }

  lemma ModOrderIdempotent(n: nat)
    requires n < ORDER
    ensures ModOrder(n) == n
  {
    ModOrderUnique(n, 0, n);
  }
}
