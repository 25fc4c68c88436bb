/** Field elements to and from 32 bytes. Encoding always gives the canonical residue below 2^255 - 19. */
module FieldCodec {
  import opened Words
  import opened Bytes
  import opened Field

  /** 2^255 * k */
  function Times255(k: int): int {
    0x8000_0000_0000_0000_0000_0000_0000_0000_0000_0000_0000_0000_0000_0000_0000_0000 * k
  }

  ghost predicate Normal(f: Fe) {
    && f.a0 < 0x8_0000_0000_0000 && f.a1 < 0x8_0000_0000_0000 && f.a2 < 0x8_0000_0000_0000
    && f.a3 < 0x8_0000_0000_0000 && f.a4 < 0x8_0000_0000_0000
  }

  /** curve25519_contract_carry_final: carry through the limbs and drop what leaves limb 4. */
  method CarryFinal(x: Fe) returns (out: Fe, ghost k: nat)
    requires x.a0 < 0x4000_0000_0000_0000 && x.a1 < 0x4000_0000_0000_0000 && x.a2 < 0x4000_0000_0000_0000
    requires x.a3 < 0x4000_0000_0000_0000 && x.a4 < 0x4000_0000_0000_0000
    ensures Normal(out) && Value(x) == Value(out) + Times255(k)
  {
    hide Val51, Times255;
    var y1: Word := x.a1 + x.a0 / 0x8_0000_0000_0000;
    var y2: Word := x.a2 + y1 / 0x8_0000_0000_0000;
    var y3: Word := x.a3 + y2 / 0x8_0000_0000_0000;
    var y4: Word := x.a4 + y3 / 0x8_0000_0000_0000;
    out := Fe(x.a0 % 0x8_0000_0000_0000, y1 % 0x8_0000_0000_0000, y2 % 0x8_0000_0000_0000, y3 % 0x8_0000_0000_0000,
              y4 % 0x8_0000_0000_0000);
    k := y4 / 0x8_0000_0000_0000;
    FinalIdentity(x.a0, x.a1, x.a2, x.a3, x.a4, x.a0 / 0x8_0000_0000_0000, y1 / 0x8_0000_0000_0000, y2 / 0x8_0000_0000_0000,
      y3 / 0x8_0000_0000_0000, k, out.a0, out.a1, out.a2, out.a3, out.a4);
  }

  lemma FinalIdentity(t0: int, t1: int, t2: int, t3: int, t4: int, c0: int, c1: int, c2: int, c3: int, c4: int,
                      r0: int, r1: int, r2: int, r3: int, r4: int)
    requires t0 == 0x8_0000_0000_0000 * c0 + r0 && t1 + c0 == 0x8_0000_0000_0000 * c1 + r1
    requires t2 + c1 == 0x8_0000_0000_0000 * c2 + r2 && t3 + c2 == 0x8_0000_0000_0000 * c3 + r3
    requires t4 + c3 == 0x8_0000_0000_0000 * c4 + r4
    ensures Val51(t0, t1, t2, t3, t4) == Val51(r0, r1, r2, r3, r4) + Times255(c4)
  {
  }

  /** Two full carry passes bring any limbs below 2^54 below 2^255. */
  method Settle(input: Fe) returns (t: Fe)
    requires Below54(input)
    ensures Normal(t) && ModP(Value(t)) == ModP(Value(input))
  {
    hide Val51, TimesP, ModP;
    ghost var k1, k2;
    var u;
    u, k1 := CarryLimbs(input.a0, input.a1, input.a2, input.a3, input.a4);
    t, k2 := CarryLimbs(u.a0, u.a1, u.a2, u.a3, u.a4);
    SecondPass(u, t, k1, k2);
    ModPUnique(Value(input), Value(u), k1);
    ModPUnique(Value(u), Value(t), k2);
  }

  lemma SecondPass(u: Fe, t: Fe, k1: int, k2: int)
    requires ReducedLow(u) && u.a0 < 0x8_0000_0000_0000 + 19 * 9 && ReducedLow(t) && 0 <= k2 <= 1
    requires Value(u) == Value(t) + TimesP(k2) && t.a0 == u.a0 % 0x8_0000_0000_0000 + 19 * k2
    ensures Normal(t)
  {
  }

  /** Freeze: from any representative below 2^255 to the canonical one. */
  method Freeze(t: Fe) returns (out: Fe)
    requires Normal(t)
    ensures Normal(out) && Value(out) == ModP(Value(t))
  {
    hide Val51, TimesP, ModP, Times255;
    ghost var k, top;
    var u;
    u, k := CarryLimbs(t.a0 + 19, t.a1, t.a2, t.a3, t.a4);
    OffsetBy19(t, u, k);
    var v := Fe(u.a0 + (0x8_0000_0000_0000 - 19), u.a1 + (0x8_0000_0000_0000 - 1), u.a2 + (0x8_0000_0000_0000 - 1),
                u.a3 + (0x8_0000_0000_0000 - 1), u.a4 + (0x8_0000_0000_0000 - 1));
    OffsetBy255(u, v);
    out, top := CarryFinal(v);
    TopIsOne(out, ModP(Value(t)), top);
  }

  lemma OffsetBy19(t: Fe, u: Fe, k: int)
    requires Normal(t) && ReducedLow(u) && 0 <= k <= 1
    requires Val51(t.a0 + 19, t.a1, t.a2, t.a3, t.a4) == Value(u) + TimesP(k)
    requires u.a0 == (t.a0 + 19) % 0x8_0000_0000_0000 + 19 * k
    ensures Value(u) == ModP(Value(t)) + 19
  {
    hide ModP, TimesP, Val51;
    NormalBelow255(t);
    AddedLow(t.a0, t.a1, t.a2, t.a3, t.a4);
    OffsetRange(u, k);
    Canonical19(Value(t), k, Value(u));
  }

  lemma NormalBelow255(t: Fe)
    requires Normal(t)
    ensures 0 <= Value(t) < Times255(1)
  {
  }

  lemma AddedLow(a: int, b: int, c: int, d: int, e: int)
    ensures Val51(a + 19, b, c, d, e) == Val51(a, b, c, d, e) + 19
  {
  }

  lemma OffsetRange(u: Fe, k: int)
    requires ReducedLow(u) && 0 <= k <= 1 && 19 * k <= u.a0 < 0x8_0000_0000_0000 + 19 * k
    ensures 19 * k <= Value(u) && (k == 0 ==> Value(u) < Times255(1))
  {
  }

  lemma Canonical19(x: int, k: int, y: int)
    requires 0 <= x < Times255(1) && x + 19 == y + TimesP(k) && 0 <= k <= 1
    requires 19 * k <= y && (k == 0 ==> y < Times255(1))
    ensures y == ModP(x) + 19
  {
    ModPUnique(x, y - 19, k);
  }

  lemma OffsetBy255(u: Fe, v: Fe)
    requires v.a0 == u.a0 + (0x8_0000_0000_0000 - 19) && v.a1 == u.a1 + (0x8_0000_0000_0000 - 1)
    requires v.a2 == u.a2 + (0x8_0000_0000_0000 - 1) && v.a3 == u.a3 + (0x8_0000_0000_0000 - 1)
    requires v.a4 == u.a4 + (0x8_0000_0000_0000 - 1)
    ensures Value(v) == Value(u) - 19 + Times255(1)
  {
  }

  lemma TopIsOne(out: Fe, r: nat, top: nat)
    requires Normal(out) && r < TimesP(1) && r + Times255(1) == Value(out) + Times255(top)
    ensures Value(out) == r
  {
  }

  // write51full: ((t[n] >> 13n) | (t[n+1] << (51 - 13n))) as a word, for normalised limbs.

  function Pack0(t: Word, u: Word): (f: Word)
    requires t < 0x8_0000_0000_0000 && u < 0x8_0000_0000_0000
    ensures f == t + 0x8_0000_0000_0000 * (u % 0x2000)
  {
    LowWord(u * 0x8_0000_0000_0000, u / 0x2000, 0x8_0000_0000_0000 * (u % 0x2000));
    t + u * 0x8_0000_0000_0000 % 0x1_0000_0000_0000_0000
  }

  function Pack1(t: Word, u: Word): (f: Word)
    requires t < 0x8_0000_0000_0000 && u < 0x8_0000_0000_0000
    ensures f == t / 0x2000 + 0x40_0000_0000 * (u % 0x400_0000)
  {
    LowWord(u * 0x40_0000_0000, u / 0x400_0000, 0x40_0000_0000 * (u % 0x400_0000));
    t / 0x2000 + u * 0x40_0000_0000 % 0x1_0000_0000_0000_0000
  }

  function Pack2(t: Word, u: Word): (f: Word)
    requires t < 0x8_0000_0000_0000 && u < 0x8_0000_0000_0000
    ensures f == t / 0x400_0000 + 0x200_0000 * (u % 0x80_0000_0000)
  {
    LowWord(u * 0x200_0000, u / 0x80_0000_0000, 0x200_0000 * (u % 0x80_0000_0000));
    t / 0x400_0000 + u * 0x200_0000 % 0x1_0000_0000_0000_0000
  }

  function Pack3(t: Word, u: Word): (f: Word)
    requires t < 0x8_0000_0000_0000 && u < 0x8_0000_0000_0000
    ensures f == t / 0x80_0000_0000 + 0x1000 * (u % 0x8_0000_0000_0000)
  {
    LowWord(u * 0x1000, u / 0x8_0000_0000_0000, 0x1000 * (u % 0x8_0000_0000_0000));
    t / 0x80_0000_0000 + u * 0x1000 % 0x1_0000_0000_0000_0000
  }

  lemma PackedValue(t: Fe)
    requires Normal(t)
    ensures Words4(Pack0(t.a0, t.a1), Pack1(t.a1, t.a2), Pack2(t.a2, t.a3), Pack3(t.a3, t.a4)) == Value(t)
  {
    hide Pack0, Pack1, Pack2, Pack3;
  }

  /** curve25519_contract: the 32 bytes of the canonical residue. */
  method Contract(input: Fe) returns (out: seq<Byte>)
    requires Below54(input)
    ensures |out| == 32 && LeValue(out) == ModP(Value(input))
  {
    hide Val51, ModP, LeValue, ToBytes, Pack0, Pack1, Pack2, Pack3;
    var t := Settle(input);
    t := Freeze(t);
    PackedValue(t);
    BytesOfWords(Pack0(t.a0, t.a1), Pack1(t.a1, t.a2), Pack2(t.a2, t.a3), Pack3(t.a3, t.a4));
    out := ToBytes(Pack0(t.a0, t.a1), 8) + ToBytes(Pack1(t.a1, t.a2), 8) + ToBytes(Pack2(t.a2, t.a3), 8)
        + ToBytes(Pack3(t.a3, t.a4), 8);
  }

  lemma MaskedSum51(a: nat, y: nat, h: nat, v: nat)
    requires y == 0x8_0000_0000_0000 * h + v && a + v < 0x8_0000_0000_0000
    ensures (a + y % 0x1_0000_0000_0000_0000) % 0x8_0000_0000_0000 == a + v
  {
    var k := y / 0x1_0000_0000_0000_0000;
    assert a + y % 0x1_0000_0000_0000_0000 == 0x8_0000_0000_0000 * (h - 0x2000 * k) + a + v;
  }

  // ((lo >> s) | (hi << (64 - s))) & reduce_mask_51

  function Unpack1(lo: Word, hi: Word): (r: Word)
    ensures r == lo / 0x8_0000_0000_0000 + 0x2000 * (hi % 0x40_0000_0000) && r < 0x8_0000_0000_0000
  {
    MaskedSum51(lo / 0x8_0000_0000_0000, hi * 0x2000, hi / 0x40_0000_0000, 0x2000 * (hi % 0x40_0000_0000));
    (lo / 0x8_0000_0000_0000 + hi * 0x2000 % 0x1_0000_0000_0000_0000) % 0x8_0000_0000_0000
  }

  function Unpack2(lo: Word, hi: Word): (r: Word)
    ensures r == lo / 0x40_0000_0000 + 0x400_0000 * (hi % 0x200_0000) && r < 0x8_0000_0000_0000
  {
    MaskedSum51(lo / 0x40_0000_0000, hi * 0x400_0000, hi / 0x200_0000, 0x400_0000 * (hi % 0x200_0000));
    (lo / 0x40_0000_0000 + hi * 0x400_0000 % 0x1_0000_0000_0000_0000) % 0x8_0000_0000_0000
  }

  function Unpack3(lo: Word, hi: Word): (r: Word)
    ensures r == lo / 0x200_0000 + 0x80_0000_0000 * (hi % 0x1000) && r < 0x8_0000_0000_0000
  {
    MaskedSum51(lo / 0x200_0000, hi * 0x80_0000_0000, hi / 0x1000, 0x80_0000_0000 * (hi % 0x1000));
    (lo / 0x200_0000 + hi * 0x80_0000_0000 % 0x1_0000_0000_0000_0000) % 0x8_0000_0000_0000
  }

  lemma UnpackedValue(x0: Word, x1: Word, x2: Word, x3: Word)
    ensures var f := Fe(x0 % 0x8_0000_0000_0000, Unpack1(x0, x1), Unpack2(x1, x2), Unpack3(x2, x3),
                        x3 / 0x1000 % 0x8_0000_0000_0000);
            Normal(f) && Words4(x0, x1, x2, x3) == Value(f) + Times255(x3 / 0x8000_0000_0000_0000)
  {
    hide Unpack1, Unpack2, Unpack3;
    assert x3 / 0x1000 == 0x8_0000_0000_0000 * (x3 / 0x8000_0000_0000_0000) + x3 / 0x1000 % 0x8_0000_0000_0000;
  }

  /** curve25519_expand: the low 255 bits, as normalised limbs. */
  method Expand(input: seq<Byte>) returns (out: Fe)
    requires |input| == 32
    ensures Normal(out) && Value(out) == Low255(LeValue(input))
  {
    hide Val51, Times255, WordAt, LeValue, Unpack1, Unpack2, Unpack3, Low255;
    var x0, x1, x2, x3 := WordAt(input, 0), WordAt(input, 8), WordAt(input, 16), WordAt(input, 24);
    Words4Value(input);
    UnpackedValue(x0, x1, x2, x3);
    out := Fe(x0 % 0x8_0000_0000_0000, Unpack1(x0, x1), Unpack2(x1, x2), Unpack3(x2, x3), x3 / 0x1000 % 0x8_0000_0000_0000);
    Low255Unique(LeValue(input), out, x3 / 0x8000_0000_0000_0000);
  }

  /** x mod 2^255 */
  function Low255(x: nat): nat { x % 0x8000_0000_0000_0000_0000_0000_0000_0000_0000_0000_0000_0000_0000_0000_0000_0000 }

  lemma Low255Unique(x: nat, f: Fe, k: int)
    requires Normal(f) && x == Value(f) + Times255(k)
    ensures Low255(x) == Value(f)
  {
  }

  /** Decoding and encoding again ignores bit 255 and reduces modulo p; canonical strings come back unchanged. */
  method Canonical(input: seq<Byte>) returns (out: seq<Byte>)
    requires |input| == 32
    ensures |out| == 32 && LeValue(out) == ModP(Low255(LeValue(input)))
    ensures LeValue(input) < TimesP(1) ==> out == input
  {
    hide LeValue, Val51, TimesP, ModP, Low255;
    var f := Expand(input);
    NormalIsBelow54(f);
    out := Contract(f);
    if LeValue(input) < TimesP(1) {
      AlreadyReduced(LeValue(input));
      LeValueInjective(out, input);
    }
  }

  lemma NormalIsBelow54(f: Fe)
    requires Normal(f)
    ensures Below54(f)
  {
  }

  lemma AlreadyReduced(x: nat)
    requires x < TimesP(1)
    ensures ModP(Low255(x)) == x
  {
  }
}
