/**
 * fe_tobytes of the reference field code: ten signed limbs of alternately 26 and 25 bits are
 * reduced by a quotient estimated from the limbs alone, which is proved to be exactly
 * floor(h / p), and written as the 32 bytes of h mod p.
 */
module Ref10Bytes {
  import opened Words
  import opened Bytes
  import opened Field
  import opened FieldCodec

  /** A signed 32-bit word; every intermediate of the chain is one. */
  type Int32 = x: int | -0x8000_0000 <= x < 0x8000_0000

  datatype Fe10 = Fe10(h0: Int32, h1: Int32, h2: Int32, h3: Int32, h4: Int32, h5: Int32, h6: Int32, h7: Int32, h8: Int32,
                       h9: Int32)

  /** Five limbs of 26, 25, 26, 25 and 26 bits, and five of 25, 26, 25, 26 and 25. */
  function Low5(a: int, b: int, c: int, d: int, e: int): int {
    a + 0x400_0000 * (b + 0x200_0000 * (c + 0x400_0000 * (d + 0x200_0000 * e)))
  }

  function High5(a: int, b: int, c: int, d: int, e: int): int {
    a + 0x200_0000 * (b + 0x400_0000 * (c + 0x200_0000 * (d + 0x400_0000 * e)))
  }

  function Value10(h: Fe10): int {
    Low5(h.h0, h.h1, h.h2, h.h3, h.h4) + 0x1_0000_0000_0000_0000_0000_0000_0000_0000 * High5(h.h5, h.h6, h.h7, h.h8, h.h9)
  }

  /** 1.1 * 2^25 and 1.1 * 2^24 */
  predicate Even(x: int) { -36909875 <= x <= 36909875 }
  predicate Odd(x: int) { -18454937 <= x <= 18454937 }

  predicate Bounded(h: Fe10) {
    && Even(h.h0) && Odd(h.h1) && Even(h.h2) && Odd(h.h3) && Even(h.h4)
    && Odd(h.h5) && Even(h.h6) && Odd(h.h7) && Even(h.h8) && Odd(h.h9)
  }

  /** One floored shift: what it leaves is a remainder. */
  function Rem26(x: int): (r: int)
    ensures x == 0x400_0000 * (x / 0x400_0000) + r && 0 <= r < 0x400_0000
  {
    x % 0x400_0000
  }

  function Rem25(x: int): (r: int)
    ensures x == 0x200_0000 * (x / 0x200_0000) + r && 0 <= r < 0x200_0000
  {
    x % 0x200_0000
  }

  /** A carry chain over the ten limbs, from the carry c into limb 0. */
  method CarryChain(h: Fe10, c: Int32) returns (r: Fe10, q: Int32)
    requires Bounded(h.(h0 := 0)) && -0x800_0000 <= h.h0 + c <= 0x800_0000
    ensures Normal10(r) && Value10(h) + c == Value10(r) + Times255(q)
  {
    hide Value10, Times255;
    var q1: Int32 := (h.h0 + c) / 0x400_0000;
    var q2: Int32 := (h.h1 + q1) / 0x200_0000;
    var q3: Int32 := (h.h2 + q2) / 0x400_0000;
    var q4: Int32 := (h.h3 + q3) / 0x200_0000;
    var q5: Int32 := (h.h4 + q4) / 0x400_0000;
    var q6: Int32 := (h.h5 + q5) / 0x200_0000;
    var q7: Int32 := (h.h6 + q6) / 0x400_0000;
    var q8: Int32 := (h.h7 + q7) / 0x200_0000;
    var q9: Int32 := (h.h8 + q8) / 0x400_0000;
    q := (h.h9 + q9) / 0x200_0000;
    r := Fe10(Rem26(h.h0 + c), Rem25(h.h1 + q1), Rem26(h.h2 + q2), Rem25(h.h3 + q3), Rem26(h.h4 + q4),
              Rem25(h.h5 + q5), Rem26(h.h6 + q6), Rem25(h.h7 + q7), Rem26(h.h8 + q8), Rem25(h.h9 + q9));
    ChainIdentity(h, c, q1, q2, q3, q4, q5, q6, q7, q8, q9, q, r);
  }

  predicate Normal10(h: Fe10) {
    && 0 <= h.h0 < 0x400_0000 && 0 <= h.h1 < 0x200_0000 && 0 <= h.h2 < 0x400_0000 && 0 <= h.h3 < 0x200_0000
    && 0 <= h.h4 < 0x400_0000 && 0 <= h.h5 < 0x200_0000 && 0 <= h.h6 < 0x400_0000 && 0 <= h.h7 < 0x200_0000
    && 0 <= h.h8 < 0x400_0000 && 0 <= h.h9 < 0x200_0000
  }

  lemma ChainIdentity(h: Fe10, c: int, q1: int, q2: int, q3: int, q4: int, q5: int, q6: int, q7: int, q8: int, q9: int,
                      q: int, r: Fe10)
    requires h.h0 + c == 0x400_0000 * q1 + r.h0 && h.h1 + q1 == 0x200_0000 * q2 + r.h1
    requires h.h2 + q2 == 0x400_0000 * q3 + r.h2
    requires h.h3 + q3 == 0x200_0000 * q4 + r.h3 && h.h4 + q4 == 0x400_0000 * q5 + r.h4
    requires h.h5 + q5 == 0x200_0000 * q6 + r.h5
    requires h.h6 + q6 == 0x400_0000 * q7 + r.h6 && h.h7 + q7 == 0x200_0000 * q8 + r.h7
    requires h.h8 + q8 == 0x400_0000 * q9 + r.h8
    requires h.h9 + q9 == 0x200_0000 * q + r.h9
    ensures Value10(h) + c == Value10(r) + Times255(q)
  {
  }

  /** The value without its top limb. */
  function Below9(h: Fe10): int { Value10(h.(h9 := 0)) }

  lemma TopLimb(h: Fe10)
    requires Bounded(h)
    ensures Value10(h) == Below9(h) + 0x40_0000_0000_0000_0000_0000_0000_0000_0000_0000_0000_0000_0000_0000_0000 * h.h9
    ensures -0x40_0000_0000_0000_0000_0000_0000_0000_0000_0000_0000_0000_0000_0000_0000 < Below9(h)
    ensures Below9(h) < 0x40_0000_0000_0000_0000_0000_0000_0000_0000_0000_0000_0000_0000_0000_0000
  {
  }

  lemma NormalRange(r: Fe10)
    requires Normal10(r)
    ensures 0 <= Value10(r) < Times255(1)
  {
  }

  /**
   * The heart of the estimate: with V = 2^230 h9 + v and q0 = floor((19 h9 + 2^24) / 2^25), the
   * quotient q of V + q0 by 2^255 is the quotient of V by p.
   */
  lemma EstimateIsExact(V: int, v: int, h9: int, q0: int, q: int, rest: int)
    requires V == v + 0x40_0000_0000_0000_0000_0000_0000_0000_0000_0000_0000_0000_0000_0000_0000 * h9 && Odd(h9)
    requires -0x40_0000_0000_0000_0000_0000_0000_0000_0000_0000_0000_0000_0000_0000_0000 < v
    requires v < 0x40_0000_0000_0000_0000_0000_0000_0000_0000_0000_0000_0000_0000_0000_0000
    requires 0x200_0000 * q0 <= 19 * h9 + 0x100_0000 < 0x200_0000 * q0 + 0x200_0000
    requires V + q0 == rest + Times255(q) && 0 <= rest < Times255(1)
    ensures 0 <= V - TimesP(q) < TimesP(1) && -1 <= q <= 1
  {
  }

  /** The first chain: q is floor(h / p), with no overflow on the way. */
  method Quotient(h: Fe10) returns (q: Int32)
    requires Bounded(h)
    ensures 0 <= Value10(h) - TimesP(q) < TimesP(1) && -1 <= q <= 1
  {
    hide Value10, Times255, TimesP, Below9;
    var scaled: Int32 := 19 * h.h9 + 0x100_0000;
    var q0: Int32 := scaled / 0x200_0000;
    var rest;
    rest, q := CarryChain(h, q0);
    TopLimb(h);
    NormalRange(rest);
    EstimateIsExact(Value10(h), Below9(h), h.h9, q0, q, Value10(rest));
  }

  /** The second chain: the limbs of h - p q. */
  method Reduced(h: Fe10) returns (r: Fe10)
    requires Bounded(h)
    ensures Normal10(r) && Value10(r) == ModP(Value10(h))
  {
    hide Value10, Times255, TimesP, ModP;
    var q := Quotient(h);
    var carry9;
    r, carry9 := CarryChain(h, 19 * q);
    NormalRange(r);
    SameQuotient(Value10(h), Value10(r), q, carry9);
  }

  lemma SameQuotient(V: int, r: int, q: int, carry: int)
    requires 0 <= V - TimesP(q) < TimesP(1) && V + 19 * q == r + Times255(carry) && 0 <= r < Times255(1)
    ensures carry == q && r == ModP(V)
  {
    ModPIs(V, q, V - TimesP(q));
  }

  lemma ModPIs(x: int, k: int, r: int)
    requires x == r + TimesP(k) && 0 <= r < TimesP(1)
    ensures ModP(x) == r
  {
    ModPUnique(x, r, k);
  }

  /** A byte of a limb: x >> k, cut to eight bits, for the power d = 2^k. */
  function Cut(x: int, d: int): Byte
    requires d > 0
  {
    x / d % 0x100
  }

  /** A byte shared by two limbs: t | (y << j) for m = 2^j, where t has fewer than j + 1 bits. */
  function Shared(t: int, y: int, m: int): Byte { (t + y * m) % 0x100 }

  function Eight(b0: int, b1: int, b2: int, b3: int, b4: int, b5: int, b6: int, b7: int): int {
    b0 + 0x100 * (b1 + 0x100 * (b2 + 0x100 * (b3 + 0x100 * (b4 + 0x100 * (b5 + 0x100 * (b6 + 0x100 * b7))))))
  }

  lemma WordOfBytes(b: seq<Byte>, at: nat)
    requires at + 8 <= |b|
    ensures WordAt(b, at) == Eight(b[at], b[at + 1], b[at + 2], b[at + 3], b[at + 4], b[at + 5], b[at + 6], b[at + 7])
  {
    var s := b[at..at + 8];
    assert LeValue(s) == s[0] + 0x100 * LeValue(s[1..]);
    assert LeValue(s[1..]) == s[1] + 0x100 * LeValue(s[1..][1..]) && s[1..][1..] == s[2..];
    assert LeValue(s[2..]) == s[2] + 0x100 * LeValue(s[2..][1..]) && s[2..][1..] == s[3..];
    assert LeValue(s[3..]) == s[3] + 0x100 * LeValue(s[3..][1..]) && s[3..][1..] == s[4..];
    assert LeValue(s[4..]) == s[4] + 0x100 * LeValue(s[4..][1..]) && s[4..][1..] == s[5..];
    assert LeValue(s[5..]) == s[5] + 0x100 * LeValue(s[5..][1..]) && s[5..][1..] == s[6..];
    assert LeValue(s[6..]) == s[6] + 0x100 * LeValue(s[6..][1..]) && s[6..][1..] == s[7..];
    assert LeValue(s[7..]) == s[7] + 0x100 * LeValue(s[7..][1..]) && s[7..][1..] == [];
    assert LeValue([]) == 0;
  }

  lemma NestedQuotient(m: int, k: int, q: int, r: int, t: int)
    ensures m * (k * q + r) + t == q * (k * m) + (r * m + t)
  {
  }

  lemma NestedRemainder(m: int, k: int, r: int, t: int)
    requires 0 <= t < m && 0 <= r < k
    ensures 0 <= r * m + t < k * m
  {
    MulBounds(k - 1 - r, m);
    MulBounds(r, m);
    assert (k - 1 - r) * m == k * m - m - r * m;
  }

  lemma DivDivFrom(x: nat, m: nat, k: nat, y: nat, q: nat, r: nat, t: nat, d: nat)
    requires x == m * y + t && t < m && y == k * q + r && r < k && d == k * m
    ensures d > 0 && x / d == q
  {
    NestedQuotient(m, k, q, r, t);
    NestedRemainder(m, k, r, t);
    DivUnique(x, d, q, r * m + t);
  }

  lemma Split(x: nat, m: nat)
    requires m > 0
    ensures x == m * (x / m) + x % m
  {
  }

  lemma DivDiv(x: nat, m: nat, k: nat, d: nat)
    requires m > 0 && k > 0 && d == k * m
    ensures d > 0 && x / d == x / m / k
  {
    var y := x / m;
    Split(x, m);
    Split(y, k);
    DivDivFrom(x, m, k, y, y / k, y % k, x % m, d);
  }

  /** A limb: its low bits up to m, two whole bytes, and what is left. */
  lemma Pieces(x: nat, m: nat, n: nat, o: nat)
    requires m > 0 && n == 0x100 * m && o == 0x1_0000 * m
    ensures x == x % m + m * (Cut(x, m) + 0x100 * (Cut(x, n) + 0x100 * (x / o)))
  {
    DivDiv(x, m, 0x100, n);
    DivDiv(x, m, 0x1_0000, o);
    Split(x, m);
    TwoBytes(x / m);
  }

  lemma TwoBytes(y: nat)
    ensures y == y % 0x100 + 0x100 * (y / 0x100 % 0x100 + 0x100 * (y / 0x1_0000))
  {
    DivDiv(y, 0x100, 0x100, 0x1_0000);
    LowByte(y);
    LowByte(y / 0x100);
  }

  lemma LowByte(y: nat)
    ensures y == y % 0x100 + 0x100 * (y / 0x100)
  {
  }

  /** In a shared byte the two parts do not meet: the low bits of y sit above t. */
  lemma SharedIs(t: nat, y: nat, m: nat, k: nat)
    requires t < m && k > 0 && m * k == 0x100
    ensures Shared(t, y, m) == t + m * (y % k)
  {
    var u, e := y % k, y / k;
    assert y * m == 0x100 * e + m * u by {
      assert y * m == (k * e + u) * m;
      assert (k * e + u) * m == (m * k) * e + m * u;
    }
    assert 0 <= t + m * u < 0x100 by {
      MulBounds(k - 1 - u, m);
      assert (k - 1 - u) * m == m * k - m - m * u;
      MulBounds(u, m);
    }
    ModOf(t + y * m, t + m * u, e);
  }

  lemma ModOf(x: int, r: int, e: int)
    requires x == 0x100 * e + r && 0 <= r < 0x100
    ensures x % 0x100 == r
  {
  }

  /** Bytes 0 to 15, from limbs 0 to 4. */
  method LowBytes(h0: int, h1: int, h2: int, h3: int, h4: int) returns (s: seq<Byte>)
    requires 0 <= h0 < 0x400_0000 && 0 <= h1 < 0x200_0000 && 0 <= h2 < 0x400_0000 && 0 <= h3 < 0x200_0000
    requires 0 <= h4 < 0x400_0000
    ensures |s| == 16 && WordAt(s, 0) + 0x1_0000_0000_0000_0000 * WordAt(s, 8) == Low5(h0, h1, h2, h3, h4)
  {
    hide Cut, Shared, WordAt, Eight, Low5;
    s := [Cut(h0, 1), Cut(h0, 0x100), Cut(h0, 0x1_0000), Shared(h0 / 0x100_0000, h1, 4),
          Cut(h1, 0x40), Cut(h1, 0x4000), Shared(h1 / 0x40_0000, h2, 8), Cut(h2, 0x20),
          Cut(h2, 0x2000), Shared(h2 / 0x20_0000, h3, 0x20), Cut(h3, 8), Cut(h3, 0x800),
          Shared(h3 / 0x8_0000, h4, 0x40), Cut(h4, 4), Cut(h4, 0x400), Cut(h4, 0x4_0000)];
    WordOfBytes(s, 0);
    WordOfBytes(s, 8);
    Pieces3(h0);
    Pieces(h1, 0x40, 0x4000, 0x40_0000);
    Pieces(h2, 0x20, 0x2000, 0x20_0000);
    Pieces(h3, 8, 0x800, 0x8_0000);
    Pieces(h4, 4, 0x400, 0x4_0000);
    TopByte(h4);
    SharedIs(h0 / 0x100_0000, h1, 4, 0x40);
    SharedIs(h1 / 0x40_0000, h2, 8, 0x20);
    SharedIs(h2 / 0x20_0000, h3, 0x20, 8);
    SharedIs(h3 / 0x8_0000, h4, 0x40, 4);
    LowIdentity(h0, h1, h2, h3, h4, s[0], s[1], s[2], h0 / 0x100_0000, h1 % 0x40, s[4], s[5], h1 / 0x40_0000, h2 % 0x20,
                 s[7], s[8], h2 / 0x20_0000, h3 % 8, s[10], s[11], h3 / 0x8_0000, h4 % 4, s[13], s[14], s[15]);
  }

  lemma Pieces3(x: nat)
    ensures x == Cut(x, 1) + 0x100 * (Cut(x, 0x100) + 0x100 * (Cut(x, 0x1_0000) + 0x100 * (x / 0x100_0000)))
  {
    TwoBytes(x);
    DivDiv(x, 0x1_0000, 0x100, 0x100_0000);
    LowByte(x / 0x1_0000);
  }

  lemma TopByte(x: nat)
    requires x < 0x400_0000
    ensures Cut(x, 0x4_0000) == x / 0x4_0000
  {
  }

  lemma LowIdentity(h0: int, h1: int, h2: int, h3: int, h4: int, b0: int, b1: int, b2: int, t0: int, u1: int, b4: int,
                    b5: int, t1: int, u2: int, b7: int, b8: int, t2: int, u3: int, b10: int, b11: int, t3: int, u4: int,
                    b13: int, b14: int, b15: int)
    requires h0 == b0 + 0x100 * (b1 + 0x100 * (b2 + 0x100 * t0))
    requires h1 == u1 + 0x40 * (b4 + 0x100 * (b5 + 0x100 * t1))
    requires h2 == u2 + 0x20 * (b7 + 0x100 * (b8 + 0x100 * t2))
    requires h3 == u3 + 8 * (b10 + 0x100 * (b11 + 0x100 * t3))
    requires h4 == u4 + 4 * (b13 + 0x100 * (b14 + 0x100 * b15))
    ensures Eight(b0, b1, b2, t0 + 4 * u1, b4, b5, t1 + 8 * u2, b7)
            + 0x1_0000_0000_0000_0000 * Eight(b8, t2 + 0x20 * u3, b10, b11, t3 + 0x40 * u4, b13, b14, b15)
         == Low5(h0, h1, h2, h3, h4)
  {
  }

  /** Bytes 16 to 31, from limbs 5 to 9. */
  method HighBytes(h5: int, h6: int, h7: int, h8: int, h9: int) returns (s: seq<Byte>)
    requires 0 <= h5 < 0x200_0000 && 0 <= h6 < 0x400_0000 && 0 <= h7 < 0x200_0000 && 0 <= h8 < 0x400_0000
    requires 0 <= h9 < 0x200_0000
    ensures |s| == 16 && WordAt(s, 0) + 0x1_0000_0000_0000_0000 * WordAt(s, 8) == High5(h5, h6, h7, h8, h9)
  {
    hide Cut, Shared, WordAt, Eight, High5;
    s := [Cut(h5, 1), Cut(h5, 0x100), Cut(h5, 0x1_0000), Shared(h5 / 0x100_0000, h6, 2),
          Cut(h6, 0x80), Cut(h6, 0x8000), Shared(h6 / 0x80_0000, h7, 8), Cut(h7, 0x20),
          Cut(h7, 0x2000), Shared(h7 / 0x20_0000, h8, 0x10), Cut(h8, 0x10), Cut(h8, 0x1000),
          Shared(h8 / 0x10_0000, h9, 0x40), Cut(h9, 4), Cut(h9, 0x400), Cut(h9, 0x4_0000)];
    WordOfBytes(s, 0);
    WordOfBytes(s, 8);
    Pieces3(h5);
    Pieces(h6, 0x80, 0x8000, 0x80_0000);
    Pieces(h7, 0x20, 0x2000, 0x20_0000);
    Pieces(h8, 0x10, 0x1000, 0x10_0000);
    Pieces(h9, 4, 0x400, 0x4_0000);
    TopByte(h9);
    SharedIs(h5 / 0x100_0000, h6, 2, 0x80);
    SharedIs(h6 / 0x80_0000, h7, 8, 0x20);
    SharedIs(h7 / 0x20_0000, h8, 0x10, 0x10);
    SharedIs(h8 / 0x10_0000, h9, 0x40, 4);
    HighIdentity(h5, h6, h7, h8, h9, s[0], s[1], s[2], h5 / 0x100_0000, h6 % 0x80, s[4], s[5], h6 / 0x80_0000, h7 % 0x20,
                 s[7], s[8], h7 / 0x20_0000, h8 % 0x10, s[10], s[11], h8 / 0x10_0000, h9 % 4, s[13], s[14], s[15]);
  }

  lemma HighIdentity(h5: int, h6: int, h7: int, h8: int, h9: int, b0: int, b1: int, b2: int, t0: int, u1: int, b4: int,
                     b5: int, t1: int, u2: int, b7: int, b8: int, t2: int, u3: int, b10: int, b11: int, t3: int, u4: int,
                     b13: int, b14: int, b15: int)
    requires h5 == b0 + 0x100 * (b1 + 0x100 * (b2 + 0x100 * t0))
    requires h6 == u1 + 0x80 * (b4 + 0x100 * (b5 + 0x100 * t1))
    requires h7 == u2 + 0x20 * (b7 + 0x100 * (b8 + 0x100 * t2))
    requires h8 == u3 + 0x10 * (b10 + 0x100 * (b11 + 0x100 * t3))
    requires h9 == u4 + 4 * (b13 + 0x100 * (b14 + 0x100 * b15))
    ensures Eight(b0, b1, b2, t0 + 2 * u1, b4, b5, t1 + 8 * u2, b7)
            + 0x1_0000_0000_0000_0000 * Eight(b8, t2 + 0x10 * u3, b10, b11, t3 + 0x40 * u4, b13, b14, b15)
         == High5(h5, h6, h7, h8, h9)
  {
  }

  lemma HalvesValue(low: seq<Byte>, high: seq<Byte>)
    requires |low| == 16 && |high| == 16
    ensures LeValue(low + high) == WordAt(low, 0) + 0x1_0000_0000_0000_0000 * WordAt(low, 8)
      + 0x1_0000_0000_0000_0000_0000_0000_0000_0000 * (WordAt(high, 0) + 0x1_0000_0000_0000_0000 * WordAt(high, 8))
  {
    hide LeValue;
    var s := low + high;
    Words4Value(s);
    assert s[0..8] == low[0..8] && s[8..16] == low[8..16] && s[16..24] == high[0..8] && s[24..32] == high[8..16];
  }

  /** fe_tobytes: the bytes are exactly those of h mod p. */
  method ToBytes32(h: Fe10) returns (s: seq<Byte>)
    requires Bounded(h)
    ensures |s| == 32 && LeValue(s) == ModP(Value10(h))
  {
    hide ModP, LeValue, WordAt, Low5, High5;
    var r := Reduced(h);
    var low := LowBytes(r.h0, r.h1, r.h2, r.h3, r.h4);
    var high := HighBytes(r.h5, r.h6, r.h7, r.h8, r.h9);
    HalvesValue(low, high);
    s := low + high;
  }
}
