/**
 * Multi-scalar multiplication by the Bos-Carter (subtractive Euclid) method: the two largest
 * scalars a >= b become a - b and b, while the point of b absorbs the point of a.
 */
module BosCarter {
  import opened Words
  import Bitwise
  import opened Groups
  import opened Divisors
  import opened ScalarLimbs
  import opened BatchHeap
  import opened ScalarRun

  const TWO_224: nat := 0x1_0000_0000_0000_0000_0000_0000_0000_0000_0000_0000_0000_0000_0000_0000

  /** The least power of two above n. */
  function NextPow2(n: nat): nat {
    if n == 0 then 1 else 2 * NextPow2(n / 2)
  }

  // ---------------------------------------------------------------------------------------
  // The surviving scalar
  // ---------------------------------------------------------------------------------------

  /**
   * What the final exponentiation makes of scalar d and point p. The scan for the leading bit
   * starts in limb 3, so limb 4 is never seen (d % 2^224), and it leaves the scalar when limbs
   * 0..3 are all zero (ok is false: nothing is promised). The leading bit is processed twice,
   * which adds the next power of two.
   */
  ghost predicate FinalValue<P(!new)>(g: Group<P>, d: nat, p: P, ok: bool, r: P) {
    if d <= 1 then ok && r == Mul(g, d, p)
    else
      var e := d % TWO_224;
      (ok <==> e != 0) && (ok ==> r == Mul(g, e + NextPow2(e), p))
  }

  /** The value of limbs limb+1..3, in units of limb limb+1. */
  function Upper(s: Scalar, limb: nat): nat
    requires limb <= 3
  {
    if limb == 3 then 0
    else if limb == 2 then s[3]
    else if limb == 1 then s[2] + 0x100_0000_0000_0000 * s[3]
    else s[1] + 0x100_0000_0000_0000 * (s[2] + 0x100_0000_0000_0000 * s[3])
  }

  /** The part of limbs 0..3 above bit `bit` of limb `limb`. */
  function Head(s: Scalar, limb: nat, bit: int): int
    requires limb <= 3 && -1 <= bit <= 55
  {
    Upper(s, limb) * Pow2(55 - bit) + s[limb] / Pow2(bit + 1)
  }

  function Bit(x: nat, bit: nat): (b: nat)
    ensures b <= 1
  {
    x / Pow2(bit) % 2
  }

  lemma ShiftIn(u: nat, p: nat, x: nat, q: nat)
    requires q > 0
    ensures u * (2 * p) + x / q == 2 * (u * p + x / (2 * q)) + x / q % 2
  {
    DivTwice(x, q);
    var y := x / q;
    assert y == 2 * (y / 2) + y % 2;
    assert u * (2 * p) == 2 * (u * p);
  }

  lemma HeadStep(s: Scalar, limb: nat, bit: nat)
    requires limb <= 3 && bit <= 55
    ensures Head(s, limb, bit - 1) == 2 * Head(s, limb, bit) + Bit(s[limb], bit)
  {
    hide Upper;
    assert Pow2(55 - (bit - 1)) == 2 * Pow2(55 - bit);
    ShiftIn(Upper(s, limb), Pow2(55 - bit), s[limb], Pow2(bit));
  }

  lemma HeadNextLimb(s: Scalar, limb: nat)
    requires 1 <= limb <= 3
    ensures Head(s, limb, -1) == Head(s, limb - 1, 55) == Upper(s, limb - 1)
  {
    Pow2Of56();
    assert Pow2(0) == 1;
  }

  lemma HeadAll(s: Scalar)
    ensures Head(s, 0, -1) == Value(s) % TWO_224 == Low(s, 4)
  {
    Pow2Of56();
    assert Pow2(0) == 1;
    assert Value(s) == Low(s, 4) + s[4] * TWO_224;
    LowBound(s, 4);
    DivUnique(Value(s), TWO_224, s[4], Low(s, 4));
  }

  lemma NextPow2Step(h: nat, b: nat)
    requires b <= 1 && (h > 0 || b == 1)
    ensures NextPow2(2 * h + b) == 2 * NextPow2(h)
  {
    assert (2 * h + b) / 2 == h;
  }

  lemma FinalStep<P(!new)>(g: Group<P>, h: nat, b: nat, p: P)
    requires Abelian(g) && b <= 1 && (h > 0 || b == 1)
    ensures var r := Mul(g, h + NextPow2(h), p);
            var r' := if b == 1 then g.add(g.add(r, r), p) else g.add(r, r);
            r' == Mul(g, 2 * h + b + NextPow2(2 * h + b), p)
  {
    NextPow2Step(h, b);
    var n := h + NextPow2(h);
    MulAdd(g, n, n, p);
    MulSucc(g, n + n, p);
  }

  lemma FinalStart<P(!new)>(g: Group<P>, p: P)
    requires Abelian(g)
    ensures p == Mul(g, 0 + NextPow2(0), p)
  {
    MulOne(g, p);
  }

  /** The limb (from 3 down) and bit of the leading one; limb is -1 when the scan leaves the scalar. */
  method ScanForLeadingBit(s: Scalar) returns (limb: int, bit: int)
    ensures -1 <= limb <= 3 && (limb < 0 <==> Low(s, 4) == 0)
    ensures limb >= 0 ==> 0 <= bit <= 55 && Bit(s[limb], bit) == 1 && Head(s, limb, bit) == 0
  {
    limb, bit := 3, 55;
    while limb >= 0 && s[limb] == 0
      invariant -1 <= limb <= 3
      invariant forall i :: limb < i <= 3 ==> s[i] == 0
    {
      limb := limb - 1;
    }
    if limb < 0 { return; }
    Pow2Of56();
    DivUnique(s[limb], Pow2(56), 0, s[limb]);
    while Bit(s[limb], bit) == 0
      invariant 0 <= bit <= 55
      invariant s[limb] / Pow2(bit + 1) == 0
      decreases bit
    {
      DivTwice(s[limb], Pow2(bit));
      assert bit != 0 by { assert Pow2(0) == 1; }
      bit := bit - 1;
    }
  }

  method Final<P(!new)>(g: Group<P>, point: P, scalar: Scalar) returns (ok: bool, r: P)
    requires Abelian(g)
    ensures FinalValue(g, Value(scalar), point, ok, r)
  {
    hide Low, Head, Upper, Mul, NextPow2, Bit;
    var one := IsOneBatch(scalar);
    if one {
      MulOne(g, point);
      return true, point;
    }
    var zero := IsZeroBatch(scalar);
    if zero {
      MulOne(g, point);
      return true, g.zero;
    }
    r := point;
    var limb, bit := ScanForLeadingBit(scalar);
    HeadAll(scalar);
    if limb < 0 {
      return false, r;
    }
    ghost var h: nat := 0;
    FinalStart(g, point);
    while true
      invariant 0 <= limb <= 3 && 0 <= bit <= 55
      invariant h == Head(scalar, limb, bit) && (h > 0 || Bit(scalar[limb], bit) == 1)
      invariant r == Mul(g, h + NextPow2(h), point)
      decreases limb, bit
    {
      HeadStep(scalar, limb, bit);
      var b := Bit(scalar[limb], bit);
      FinalStep(g, h, b, point);
      h := 2 * h + b;
      r := g.add(r, r);
      if b == 1 {
        r := g.add(r, point);
      }
      bit := bit - 1;
      if bit < 0 {
        if limb == 0 { break; }
        HeadNextLimb(scalar, limb);
        limb, bit := limb - 1, 55;
      }
    }
    return true, r;
  }

  // ---------------------------------------------------------------------------------------
  // The main loop
  // ---------------------------------------------------------------------------------------

  ghost predicate TwoNonzero(s: seq<nat>, n: nat)
    requires n <= |s|
  {
    exists i, j :: 0 <= i < j < n && s[i] > 0 && s[j] > 0
  }

  /**
   * Whether the run reaches the 128-bit scalars, decided by its input alone: the first scalars
   * hold two nonzero ones and their gcd fits in 128 bits.
   */
  ghost predicate Extends(s: seq<nat>, count: nat)
    requires FirstSize(count) <= |s|
  {
    TwoNonzero(s, FirstSize(count)) && GcdOf(s, FirstSize(count)) < TWO_128
  }

  /** How many terms the run takes into account. */
  ghost function Reached(s: seq<nat>, count: nat): (n: nat)
    requires FirstSize(count) <= count <= |s|
    ensures n <= count
  {
    if Extends(s, count) then count else FirstSize(count)
  }

  /**
   * What a run returns on scalars s and points p: with n the number of terms reached, it ends
   * with the gcd d of n scalars and a combination q of the points such that d*q is the sum of
   * the n terms, and hands both to the final exponentiation.
   */
  ghost predicate Outcome<P(!new)>(g: Group<P>, s: seq<nat>, p: seq<P>, count: nat, ok: bool, r: P)
    requires FirstSize(count) <= count <= |s| && |s| == |p|
  {
    var n := Reached(s, count);
    exists q :: && InSpan(g, p[..count], q) && Mul(g, GcdOf(s, n), q) == Msm(g, s, p, n)
                && FinalValue(g, GcdOf(s, n), q, ok, r)
  }

  /** Nothing beyond the first `count` scalars and points plays a part. */
  lemma OutcomeOfPrefix<P(!new)>(g: Group<P>, s: seq<nat>, p: seq<P>, count: nat, ok: bool, r: P)
    requires FirstSize(count) <= count <= |s| && |s| == |p| && Outcome(g, s, p, count, ok, r)
    ensures Outcome(g, s[..count], p[..count], count, ok, r)
  {
    hide Mul, Msm, GcdOf, InSpan, FinalValue, Extends;
    ExtendsOfPrefix(s, count);
    var n := Reached(s, count);
    GcdOfPrefix(s, s[..count], n);
    MsmPrefix(g, s, p, s[..count], p[..count], n);
    assert p[..count][..count] == p[..count];
  }

  lemma ExtendsOfPrefix(s: seq<nat>, count: nat)
    requires FirstSize(count) <= count <= |s|
    ensures Extends(s, count) <==> Extends(s[..count], count)
  {
    GcdOfPrefix(s, s[..count], FirstSize(count));
    TwoOfPrefix(s, s[..count], FirstSize(count));
    TwoOfPrefix(s[..count], s, FirstSize(count));
  }

  lemma TwoOfPrefix(s: seq<nat>, t: seq<nat>, n: nat)
    requires n <= |s| && n <= |t| && forall i :: 0 <= i < n ==> s[i] == t[i]
    ensures TwoNonzero(s, n) ==> TwoNonzero(t, n)
  {
    if TwoNonzero(s, n) {
      var i, j :| 0 <= i < j < n && s[i] > 0 && s[j] > 0;
      assert t[i] > 0 && t[j] > 0;
    }
  }

  /** The scalars without the one at index idle, if there is such an index. */
  function Zeroed(s: seq<nat>, idle: nat): (t: seq<nat>)
    ensures |t| == |s|
  {
    if idle < |s| then s[idle := 0] else s
  }

  ghost predicate AllBelow128(s: seq<nat>, n: nat)
    requires n <= |s|
  {
    forall i :: 0 <= i < n ==> s[i] < TWO_128
  }

  /** The snapshot has the sum and the gcd of the start, and is the start if no scalar exceeds 128 bits. */
  ghost predicate Snapped<P(!new)>(g: Group<P>, s: seq<nat>, p: seq<P>, count: nat)
    requires FirstSize(count) <= count <= |s| && |s| == |p|
  {
    var x := SnapshotOf(g, s, p, count);
    && Conserved(g, s, p, x.s, x.p, count)
    && (AllBelow128(s, FirstSize(count)) ==> x.s == s && x.p == p)
  }

  /**
   * What a run with an even count returns once it has extended: one index, which the scalars
   * decide, stays idle, and the run ends with the gcd and the sum of all other terms of the snapshot.
   */
  ghost predicate IdleOutcome<P(!new)>(g: Group<P>, s: seq<nat>, p: seq<P>, count: nat, ok: bool, r: P)
    requires FirstSize(count) <= count <= |s| && |s| == |p|
  {
    var x := SnapshotOf(g, s, p, count);
    && Snapped(g, s, p, count) && x.idle < count
    && var rest := Zeroed(x.s, x.idle);
       exists q :: && InSpan(g, p[..count], q) && Mul(g, GcdOf(rest, count), q) == Msm(g, rest, x.p, count)
                   && FinalValue(g, GcdOf(rest, count), q, ok, r)
  }

  /** The sum of the first n terms and the gcd of the first n scalars are those of the start. */
  ghost predicate Conserved<P(!new)>(g: Group<P>, s0: seq<nat>, p0: seq<P>, s: seq<nat>, p: seq<P>, n: nat)
    requires |s0| == |p0| == |s| == |p| && n <= |s|
  {
    Msm(g, s, p, n) == Msm(g, s0, p0, n) && GcdOf(s, n) == GcdOf(s0, n)
  }

  /** Replacing a, b by a - b, b and the point of b by the sum of both points conserves the sum and the gcd. */
  lemma CombineConserves<P(!new)>(g: Group<P>, s: seq<nat>, p: seq<P>, i: nat, j: nat, n: nat)
    requires Abelian(g) && |s| == |p| && i < n <= |s| && j < n && i != j && s[j] <= s[i]
    ensures Conserved(g, s, p, s[i := s[i] - s[j]], p[j := g.add(p[j], p[i])], n)
  {
    var d := Mul(g, s[j], p[i]);
    var k: int := s[j];
    MulAdd(g, s[i], -k, p[i]);
    MulNeg(g, k, p[i]);
    var s1 := s[i := s[i] - s[j]];
    MsmUpdate(g, s, p, i, s[i] - s[j], p[i], g.neg(d), n);
    assert p[i := p[i]] == p;
    MulDistributes(g, s[j], p[j], p[i]);
    MsmUpdate(g, s1, p, j, s[j], g.add(p[j], p[i]), d, n);
    assert s1[j := s[j]] == s1;
    var sum := Msm(g, s, p, n);
    Laws(g, sum, g.neg(d), d);
    Laws(g, g.neg(d), d, d);
    Laws(g, d, d, d);
    Laws(g, sum, d, d);
    GcdOfSubtract(s, n, i, j);
  }

  /** What each iteration keeps; `pairs` are the pairs of indices combined so far. */
  ghost predicate Inv<P(!new)>(g: Group<P>, s0: seq<nat>, p0: seq<P>, s: seq<nat>, p: seq<P>, count: nat,
                               limbsize: nat, extended: bool, pairs: seq<(nat, nat)>)
  {
    var half := FirstSize(count);
    && 5 <= count <= |s| && |s0| == |p0| == |s| == |p| && Conserved(g, s0, p0, s, p, count)
    && var x := SnapshotOf(g, s0, p0, count);
    && (extended ==> pairs != [] && Extends(s0, count) && Snapped(g, s0, p0, count))
    && (extended ==> Conserved(g, Zeroed(x.s, x.idle), x.p, Zeroed(s, x.idle), p, count))
    && (!extended ==> Conserved(g, s0, p0, s, p, half) && forall i :: half <= i < count ==> s[i] == s0[i])
    && (pairs == [] ==> s == s0 && p == p0 && limbsize == 4)
    && (pairs != [] ==> TwoNonzero(s0, half))
    && (pairs != [] && !extended ==> Wide(s, half, pairs[|pairs| - 1]) && !AllBelow128(s0, half))
    && (forall i :: 0 <= i < count ==> InSpan(g, p0[..count], p[i]))
  }

  /** The two scalars last combined: the second is not zero, and together they exceed 128 bits. */
  ghost predicate Wide(s: seq<nat>, half: nat, pair: (nat, nat)) {
    var (a, b) := pair;
    half <= |s| && a < half && b < half && a != b && s[b] > 0 && s[a] + s[b] >= TWO_128
  }

  /**
   * What is left when the loop ends: a scalar d and a point q, which is the gcd of the scalars
   * reached and stands for the sum of their terms. With an even count that extends, these are
   * all terms of the snapshot but the idle one.
   */
  ghost predicate Survivor<P(!new)>(g: Group<P>, s: seq<nat>, p: seq<P>, count: nat, d: nat, q: P)
    requires FirstSize(count) <= count <= |s| && |s| == |p|
  {
    && InSpan(g, p[..count], q)
    && if count % 2 == 0 && Extends(s, count) then
         var x := SnapshotOf(g, s, p, count);
         && Snapped(g, s, p, count) && x.idle < count
         && var rest := Zeroed(x.s, x.idle);
            d == GcdOf(rest, count) && Mul(g, d, q) == Msm(g, rest, x.p, count)
       else
         var n := Reached(s, count);
         d == GcdOf(s, n) && Mul(g, d, q) == Msm(g, s, p, n)
  }

  /** The second largest scalar is zero: the largest is the gcd of what was reached, and carries its whole sum. */
  lemma ExitOutcome<P(!new)>(g: Group<P>, s0: seq<nat>, p0: seq<P>, s: seq<nat>, p: seq<P>, count: nat,
                             limbsize: nat, extended: bool, pairs: seq<(nat, nat)>, idle: nat, max1: nat)
    requires Abelian(g) && Inv(g, s0, p0, s, p, count, limbsize, extended, pairs)
    requires var n := if extended then count else FirstSize(count);
             max1 < n && forall i :: 0 <= i < n && i != max1 && (extended ==> i != idle) ==> s[i] == 0
    requires extended ==> idle == SnapshotOf(g, s0, p0, count).idle != max1
    requires extended ==> if count % 2 == 0 then idle < count else idle == |s|
    ensures |s0| == |p0| == |s| && Survivor(g, s0, p0, count, s[max1], p[max1])
  {
    hide Msm, GcdOf, Mul, Abelian, InSpan, SnapshotOf;
    if extended {
      var t := Zeroed(s, idle);
      GcdOfSingle(t, count, max1);
      MsmSingle(g, t, p, max1, count);
    } else {
      GcdOfSingle(s, FirstSize(count), max1);
      MsmSingle(g, s, p, max1, FirstSize(count));
      NotExtended(g, s0, p0, s, p, count, limbsize, pairs, max1);
    }
  }

  /** Leaving the loop before the extension means that the input does not allow it. */
  lemma NotExtended<P(!new)>(g: Group<P>, s0: seq<nat>, p0: seq<P>, s: seq<nat>, p: seq<P>, count: nat,
                             limbsize: nat, pairs: seq<(nat, nat)>, max1: nat)
    requires Inv(g, s0, p0, s, p, count, limbsize, false, pairs)
    requires max1 < FirstSize(count) && forall i :: 0 <= i < FirstSize(count) && i != max1 ==> s[i] == 0
    ensures !Extends(s0, count)
  {
    hide Msm, Mul, InSpan, SnapshotOf;
    GcdOfSingle(s, FirstSize(count), max1);
    if pairs != [] {
      assert pairs[|pairs| - 1].1 == max1;
    }
  }

  /** The first combination, or a later one, keeps the invariant. */
  lemma StepInv<P(!new)>(g: Group<P>, s0: seq<nat>, p0: seq<P>, s: seq<nat>, p: seq<P>, count: nat,
                         limbsize: nat, limbsize': nat, extended: bool, extended': bool, pairs: seq<(nat, nat)>,
                         max1: nat, max2: nat)
    requires Abelian(g) && Inv(g, s0, p0, s, p, count, limbsize, extended, pairs)
    requires max1 < (if extended' then count else FirstSize(count))
    requires max2 < (if extended' then count else FirstSize(count))
    requires max1 != max2 && 0 < s[max2] <= s[max1]
    requires extended ==> extended'
    requires var x := SnapshotOf(g, s0, p0, count);
             && (extended' && !extended ==> Extends(s0, count) && x.s == s && x.p == p)
             && (extended' ==> max1 != x.idle && max2 != x.idle)
    requires !extended' ==> s[max1] >= TWO_128
    ensures Inv(g, s0, p0, s[max1 := s[max1] - s[max2]], p[max2 := g.add(p[max2], p[max1])], count,
                limbsize', extended', pairs + [(max1, max2)])
  {
    hide Msm, GcdOf, Mul, Abelian, InSpan, SnapshotOf;
    CombineConserves(g, s, p, max1, max2, count);
    SpanAdd(g, p0[..count], p[max2], p[max1]);
    if extended' {
      var idle := SnapshotOf(g, s0, p0, count).idle;
      var t := Zeroed(s, idle);
      CombineConserves(g, t, p, max1, max2, count);
      assert Zeroed(s[max1 := s[max1] - s[max2]], idle) == t[max1 := t[max1] - t[max2]];
    } else {
      CombineConserves(g, s, p, max1, max2, FirstSize(count));
      if pairs == [] {
        if max1 < max2 { assert s0[max1] > 0 && s0[max2] > 0; } else { assert s0[max2] > 0 && s0[max1] > 0; }
      }
    }
    if extended' && !extended && pairs == [] {
      if max1 < max2 { assert s0[max1] > 0 && s0[max2] > 0; } else { assert s0[max2] > 0 && s0[max1] > 0; }
    }
  }

  /** When the top scalar has come down to 128 bits, the run does extend. */
  lemma ExtendsNow<P(!new)>(g: Group<P>, s0: seq<nat>, p0: seq<P>, s: seq<nat>, p: seq<P>, count: nat,
                            limbsize: nat, pairs: seq<(nat, nat)>, max1: nat, max2: nat)
    requires Inv(g, s0, p0, s, p, count, limbsize, false, pairs)
    requires max1 < FirstSize(count) && max2 < FirstSize(count) && max1 != max2
    requires 0 < s[max2] <= s[max1] < TWO_128
    ensures Extends(s0, count)
    ensures forall i :: FirstSize(count) <= i < count ==> s[i] == s0[i]
  {
    hide Msm, Mul, InSpan, SnapshotOf;
    GcdOfLe(s, FirstSize(count), max1);
    if pairs == [] {
      if max1 < max2 { assert s0[max1] > 0 && s0[max2] > 0; } else { assert s0[max2] > 0 && s0[max1] > 0; }
    }
  }

  /**
   * Before the extension the top scalar is still above 2^127, because a combination at most
   * halves the largest scalar: limb 2, which holds bit 127, is in use and is not dropped.
   */
  lemma StillWide<P(!new)>(g: Group<P>, s0: seq<nat>, p0: seq<P>, s: seq<nat>, p: seq<P>, count: nat,
                           limbsize: nat, pairs: seq<(nat, nat)>, top: Scalar)
    requires Inv(g, s0, p0, s, p, count, limbsize, false, pairs) && limbsize <= 4
    requires ZeroAbove(top, limbsize)
    requires forall i :: 0 <= i < FirstSize(count) ==> s[i] <= Value(top)
    ensures limbsize >= 3 || (limbsize == 2 && top[2] != 0)
  {
    hide Msm, Mul, InSpan, GcdOf, SnapshotOf;
    ValueBelowWeight(top, 2);
    if pairs != [] {
      var (a, b) := pairs[|pairs| - 1];
      assert s[a] <= Value(top) && s[b] <= Value(top);
    }
  }

  lemma StartInv<P(!new)>(g: Group<P>, s: seq<nat>, p: seq<P>, count: nat)
    requires Abelian(g) && 5 <= count <= |s| == |p|
    ensures Inv(g, s, p, s, p, count, 4, false, [])
  {
    hide SnapshotOf;
    forall i | 0 <= i < count ensures InSpan(g, p[..count], p[i]) { SpanPoint(g, p[..count], i); }
  }

  /** What a run may return, for every count. */
  ghost predicate Returns<P(!new)>(g: Group<P>, s: seq<nat>, p: seq<P>, count: nat, ok: bool, r: P)
    requires FirstSize(count) <= count <= |s| && |s| == |p|
  {
    if count % 2 == 0 && Extends(s, count) then IdleOutcome(g, s, p, count, ok, r) else Outcome(g, s, p, count, ok, r)
  }

  lemma ReturnsFrom<P(!new)>(g: Group<P>, s: seq<nat>, p: seq<P>, count: nat, d: nat, q: P, ok: bool, r: P)
    requires FirstSize(count) <= count <= |s| && |s| == |p|
    requires Survivor(g, s, p, count, d, q) && FinalValue(g, d, q, ok, r)
    ensures Returns(g, s, p, count, ok, r)
  {
    hide Mul, Msm, GcdOf, Extends, InSpan, FinalValue, Snapped, Zeroed, SnapshotOf;
  }

  /**
   * ge25519_multi_scalarmult_vartime. With an even count that extends, the terms other than that
   * of the idle index are summed; in all other cases all terms reached are.
   */
  method MultiScalarmult<P(!new)>(g: Group<P>, batch: Batch<P>, count: nat) returns (ok: bool, r: P)
    requires Abelian(g) && batch.Shape() && 5 <= count <= batch.heap.Length
    requires forall i :: FirstSize(count) <= i < count ==> batch.Keys()[i] < TWO_128
    modifies batch, batch.heap, batch.scalars, batch.points
    ensures Returns(g, old(batch.Keys()), old(batch.points[..]), count, ok, r) && batch.Shape()
  {
    hide Abelian, Survivor, FinalValue, Returns;
    var max1 := ReduceAll(g, batch, count);
    ok, r := Final(g, batch.points[max1], batch.scalars[max1]);
    ReturnsFrom(g, old(batch.Keys()), old(batch.points[..]), count, batch.Keys()[max1], batch.points[max1], ok, r);
  }

  /** Before the extension the heap follows the stages, and afterwards the idle index is that of the snapshot. */
  ghost predicate Follows<P(!new)>(g: Group<P>, batch: Batch<P>, s0: seq<nat>, p0: seq<P>, count: nat,
                                   extended: bool, pairs: seq<(nat, nat)>)
    reads batch, batch.heap, batch.scalars, batch.points
    requires batch.Valid() && FirstSize(count) <= count <= |s0| == |p0|
  {
    if extended then batch.Idle() == SnapshotOf(g, s0, p0, count).idle
    else OnTheWay(g, s0, p0, count, Stage(batch.Nodes(), batch.Keys(), pairs), batch.points[..])
  }

  /** What the main loop keeps. */
  ghost predicate Running<P(!new)>(g: Group<P>, batch: Batch<P>, s0: seq<nat>, p0: seq<P>, count: nat, limbsize: nat,
                                   extended: bool, pairs: seq<(nat, nat)>)
    reads batch, batch.heap, batch.scalars, batch.points
  {
    && 5 <= count <= batch.heap.Length && limbsize <= 4
    && batch.IsActiveHeap() && batch.size == (if extended then count else FirstSize(count)) && batch.Fits(limbsize)
    && Inv(g, s0, p0, batch.Keys(), batch.points[..], count, limbsize, extended, pairs)
    && Follows(g, batch, s0, p0, count, extended, pairs)
    && forall i :: FirstSize(count) <= i < count ==> s0[i] < TWO_128
  }

  /** The main loop, up to one surviving scalar. */
  method ReduceAll<P(!new)>(g: Group<P>, batch: Batch<P>, count: nat) returns (max1: nat)
    requires Abelian(g) && batch.Shape() && 5 <= count <= batch.heap.Length
    requires forall i :: FirstSize(count) <= i < count ==> batch.Keys()[i] < TWO_128
    modifies batch, batch.heap, batch.scalars, batch.points
    ensures max1 < count && batch.Shape()
    ensures Survivor(g, old(batch.Keys()), old(batch.points[..]), count, batch.Keys()[max1], batch.points[max1])
  {
    hide Running, Abelian, SumOf, Survivor;
    ghost var s0, p0 := batch.Keys(), batch.points[..];
    Start(g, batch, count);
    var limbsize: nat, extended, done := 4, false, false;
    max1 := 0;
    ghost var pairs := [];
    while !done
      invariant batch.Shape() && (!done ==> Running(g, batch, s0, p0, count, limbsize, extended, pairs))
      invariant done ==> max1 < count && Survivor(g, s0, p0, count, batch.Keys()[max1], batch.points[max1])
      decreases !done, SumOf(batch.Keys(), count)
    {
      done, max1, limbsize, extended, pairs := Turn(g, batch, s0, p0, count, limbsize, extended, pairs);
    }
  }

  /** Build the first heap. */
  method Start<P(!new)>(g: Group<P>, batch: Batch<P>, count: nat)
    requires Abelian(g) && batch.Shape() && 5 <= count <= batch.heap.Length
    requires forall i :: FirstSize(count) <= i < count ==> batch.Keys()[i] < TWO_128
    modifies batch`size, batch`pos, batch.heap
    ensures batch.Shape() && Running(g, batch, batch.Keys(), batch.points[..], count, 4, false, [])
  {
    hide Inv, Low, Ordered, Inverse, ZeroAbove, Abelian, OnTheWay, Inserts, SnapshotOf, Bitwise.Or;
    FirstSizeIsOr(count);
    batch.Build(Bitwise.Or((count + 1) / 2, 1));
    batch.FitsAll();
    batch.HeapIsActive();
    StartInv(g, batch.Keys(), batch.points[..], count);
    WayStart(g, batch.Keys(), batch.points[..], count);
  }

  /** One turn of the loop: it ends with the survivor, or goes on with a smaller sum of scalars. */
  method Turn<P(!new)>(g: Group<P>, batch: Batch<P>, ghost s0: seq<nat>, ghost p0: seq<P>, count: nat, limbsize: nat,
                       extended: bool, ghost pairs: seq<(nat, nat)>)
    returns (done: bool, max1: nat, limbsize': nat, extended': bool, ghost pairs': seq<(nat, nat)>)
    requires Abelian(g) && Running(g, batch, s0, p0, count, limbsize, extended, pairs)
    requires |s0| == |p0| == batch.scalars.Length
    modifies batch`size, batch`pos, batch.heap, batch.scalars, batch.points
    ensures batch.Shape()
    ensures done ==> max1 < count && Survivor(g, s0, p0, count, batch.Keys()[max1], batch.points[max1])
    ensures !done ==> Running(g, batch, s0, p0, count, limbsize', extended', pairs')
    ensures !done ==> SumOf(batch.Keys(), count) < old(SumOf(batch.Keys(), count))
  {
    hide Inv, Low, Ordered, Inverse, ZeroAbove, Abelian, SumOf, Survivor, OnTheWay, SnapshotOf, TopOf;
    var max2;
    max1, max2, done := batch.TopTwo(limbsize);
    limbsize', extended', pairs' := limbsize, extended, pairs;
    if done {
      batch.IdleRange();
      ExitOutcome(g, s0, p0, batch.Keys(), batch.points[..], count, limbsize, extended, pairs, batch.Idle(), max1);
    } else {
      limbsize', extended', pairs' := Iterate(g, batch, count, limbsize, extended, max1, max2, s0, p0, pairs);
    }
  }

  /** The top two of the heap, as the exit test leaves them. */
  ghost predicate AtTop<P(!new)>(batch: Batch<P>, max1: nat, max2: nat)
    reads batch, batch.heap, batch.scalars
    requires batch.Valid()
  {
    && max1 < batch.size && max2 < batch.size && max1 != max2 && 3 <= batch.size
    && (max1, max2) == TopOf(batch.Nodes(), batch.Keys()) && max1 == batch.heap[0]
    && max1 != batch.Idle() && max2 != batch.Idle() && 0 < batch.Keys()[max2]
    && forall i :: 0 <= i < batch.size && i != batch.Idle() ==> batch.Keys()[i] <= batch.Keys()[max1]
  }

  /** The loop body after the exit test: drop an exhausted limb, extend if possible, combine the top two. */
  method Iterate<P(!new)>(g: Group<P>, batch: Batch<P>, count: nat, limbsize: nat, extended: bool, max1: nat, max2: nat,
                          ghost s0: seq<nat>, ghost p0: seq<P>, ghost pairs: seq<(nat, nat)>)
    returns (limbsize': nat, extended': bool, ghost pairs': seq<(nat, nat)>)
    requires Abelian(g) && Running(g, batch, s0, p0, count, limbsize, extended, pairs) && AtTop(batch, max1, max2)
    requires |s0| == |p0| == batch.scalars.Length
    modifies batch`size, batch`pos, batch.heap, batch.scalars, batch.points
    ensures Running(g, batch, s0, p0, count, limbsize', extended', pairs')
    ensures SumOf(batch.Keys(), count) < old(SumOf(batch.Keys(), count))
  {
    hide Inv, Follows, Ready, AtTop, Low, Ordered, Inverse, ZeroAbove, Abelian, SumOf;
    var first, second;
    limbsize', extended', first, second :=
      ExtendIfPossible(g, batch, count, limbsize, extended, max1, max2, s0, p0, pairs);
    CombineStep(g, batch, count, limbsize, limbsize', extended, extended', first, second, s0, p0, pairs);
    pairs' := pairs + [(first, second)];
  }

  /** The state between a possible extension and the combination of `first` and `second`. */
  ghost predicate Ready<P(!new)>(g: Group<P>, batch: Batch<P>, s0: seq<nat>, p0: seq<P>, count: nat, limbsize: nat,
                                 extended: bool, extended': bool, pairs: seq<(nat, nat)>, first: nat, second: nat)
    reads batch, batch.heap, batch.scalars, batch.points
    requires FirstSize(count) <= count <= |s0| == |p0|
  {
    && batch.IsActiveHeap() && batch.size == (if extended' then count else FirstSize(count))
    && limbsize <= 4 && batch.Fits(limbsize) && batch.size >= 3
    && first < batch.size && second < batch.size && first != second && first == batch.heap[0]
    && first != batch.Idle() && second != batch.Idle() && 0 < batch.Keys()[second] <= batch.Keys()[first]
    && (extended ==> extended')
    && var x := SnapshotOf(g, s0, p0, count);
       && (extended' ==> batch.Idle() == x.idle)
       && (extended' && !extended ==> Extends(s0, count) && x.s == batch.Keys() && x.p == batch.points[..])
       && var z := Stage(batch.Nodes(), batch.Keys(), pairs);
          !extended' ==>
            && OnTheWay(g, s0, p0, count, z, batch.points[..])
            && Combines(z) && (first, second) == TopOf(z.h, z.s) && z.s[first] >= TWO_128
  }

  method CombineStep<P(!new)>(g: Group<P>, batch: Batch<P>, count: nat, ghost limbsize: nat, limbsize': nat,
                              ghost extended: bool, ghost extended': bool, first: nat, second: nat,
                              ghost s0: seq<nat>, ghost p0: seq<P>, ghost pairs: seq<(nat, nat)>)
    requires Abelian(g) && 5 <= count <= batch.heap.Length && batch.Shape() && |s0| == |p0| == batch.scalars.Length
    requires Inv(g, s0, p0, batch.Keys(), batch.points[..], count, limbsize, extended, pairs)
    requires Ready(g, batch, s0, p0, count, limbsize', extended, extended', pairs, first, second)
    requires forall i :: FirstSize(count) <= i < count ==> s0[i] < TWO_128
    modifies batch`pos, batch.heap, batch.scalars, batch.points
    ensures Running(g, batch, s0, p0, count, limbsize', extended', pairs + [(first, second)])
    ensures SumOf(batch.Keys(), count) < old(SumOf(batch.Keys(), count))
  {
    hide Inv, Low, Ordered, EdgeOk, Inverse, ZeroAbove, Abelian, SumOf, Extends, OnTheWay, SnapshotOf, TopOf, Repair,
         Combines, Combined, Fit, Active;
    ghost var key, points := batch.Keys(), batch.points[..];
    StepInv(g, s0, p0, key, points, count, limbsize, limbsize', extended, extended', pairs, first, second);
    SumOfUpdate(key, first, key[first] - key[second], count);
    if !extended' { WayStep(g, s0, p0, count, Stage(batch.Nodes(), key, pairs), points, first, second); }
    batch.CombineAndRestore(g, first, second, limbsize');
  }

  /** Drop an exhausted limb, and let the 128-bit scalars join the heap if the top one is as small. */
  method ExtendIfPossible<P(!new)>(g: Group<P>, batch: Batch<P>, count: nat, limbsize: nat, extended: bool, max1: nat,
                                   max2: nat, ghost s0: seq<nat>, ghost p0: seq<P>, ghost pairs: seq<(nat, nat)>)
    returns (limbsize': nat, extended': bool, first: nat, second: nat)
    requires Running(g, batch, s0, p0, count, limbsize, extended, pairs) && AtTop(batch, max1, max2)
    requires |s0| == |p0| == batch.scalars.Length
    modifies batch`size, batch`pos, batch.heap
    ensures batch.Shape() && Ready(g, batch, s0, p0, count, limbsize', extended, extended', pairs, first, second)
  {
    hide Inv, Low, Ordered, Inverse, ZeroAbove, Extends, OnTheWay, SnapshotOf, TopOf, Inserts;
    first, second := max1, max2;
    limbsize', extended' := limbsize, extended;
    ghost var key, points := batch.Keys(), batch.points[..];
    if !extended {
      StillWide(g, s0, p0, key, points, count, limbsize, pairs, batch.scalars[max1]);
    }
    if batch.scalars[max1][limbsize] == 0 {
      batch.DropLimb(limbsize, max1);
      limbsize' := limbsize - 1;
    }
    AtMost128Bits(batch.scalars[max1]);
    if !extended && IsAtMost128Bits(batch.scalars[max1]) {
      ExtendsNow(g, s0, p0, key, points, count, limbsize, pairs, max1, max2);
      first, second := ExtendNow(g, batch, count, limbsize', max1, max2, s0, p0, pairs);
      extended' := true;
    }
  }

  /** The extension itself: what the heap holds then is the snapshot. */
  method ExtendNow<P(!new)>(g: Group<P>, batch: Batch<P>, count: nat, limbsize: nat, ghost max1: nat, ghost max2: nat,
                            ghost s0: seq<nat>, ghost p0: seq<P>, ghost pairs: seq<(nat, nat)>)
    returns (first: nat, second: nat)
    requires batch.IsActiveHeap() && batch.size == FirstSize(count) && 5 <= count <= batch.heap.Length
    requires |s0| == |p0| == batch.scalars.Length
    requires 2 <= limbsize <= 4 && batch.Fits(limbsize) && AtTop(batch, max1, max2) && batch.Keys()[max1] < TWO_128
    requires forall i :: FirstSize(count) <= i < count ==> batch.Keys()[i] < TWO_128
    requires OnTheWay(g, s0, p0, count, Stage(batch.Nodes(), batch.Keys(), pairs), batch.points[..])
    modifies batch`size, batch`pos, batch.heap
    ensures batch.IsActiveHeap() && batch.size == count && batch.Fits(limbsize)
    ensures first < batch.size && second < batch.size && first != second && first == batch.heap[0]
    ensures first != batch.Idle() && second != batch.Idle() && 0 < batch.Keys()[second] <= batch.Keys()[first]
    ensures SnapshotOf(g, s0, p0, count) == Snapshot(batch.Keys(), batch.points[..], batch.Idle())
  {
    hide Low, Ordered, Inverse, ZeroAbove, OnTheWay, SnapshotOf, TopOf, Inserts;
    WayEnd(g, s0, p0, count, Stage(batch.Nodes(), batch.Keys(), pairs), batch.points[..]);
    batch.LastEdge();
    first, second := batch.ExtendAndGetTop2(count, limbsize, max1, max2);
    batch.IdleIsLast();
  }
}
