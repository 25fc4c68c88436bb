/**
 * Signed sliding-window recoding of a scalar: 256 digits in place of 256 bits, every nonzero
 * digit odd and below 2^(windowsize - 1) in absolute value.
 */
module SlidingWindow {
  import opened Words
  import opened ScalarLimbs

  const LEN := 256

  /** The value of the digits from j on, in units of 2^j. */
  function Horner(d: seq<int>, j: nat): int
    requires j <= |d|
    decreases |d| - j
  {
    if j == |d| then 0 else d[j] + 2 * Horner(d, j + 1)
  }

  ghost predicate Bits(d: seq<int>, from: nat) {
    forall k :: from <= k < |d| ==> d[k] == 0 || d[k] == 1
  }

  ghost predicate ZeroBetween(d: seq<int>, from: nat, to: nat) {
    forall k :: from <= k < to && k < |d| ==> d[k] == 0
  }

  ghost predicate SameBelow(d: seq<int>, d': seq<int>, j: nat) {
    |d| == |d'| && forall k :: 0 <= k < j && k < |d| ==> d[k] == d'[k]
  }

  ghost predicate SmallDigit(x: int, w: nat)
    requires w > 0
  {
    -x < Pow2(w - 1) && x < Pow2(w - 1)
  }

  /** Digits below j are odd and small, or zero. */
  ghost predicate OddAndSmall(d: seq<int>, w: nat, j: nat)
    requires j <= |d| && w > 0
  {
    forall i :: 0 <= i < j && d[i] != 0 ==> d[i] % 2 == 1 && SmallDigit(d[i], w)
  }

  /** After a nonzero digit come w - 1 zeros. */
  ghost predicate Sparse(d: seq<int>, w: nat, j: nat)
    requires j <= |d|
  {
    forall i, k :: 0 <= i < j && i < k < i + w && k < |d| && d[i] != 0 ==> d[k] == 0
  }

  lemma {:induction false} HornerUpdate(d: seq<int>, p: nat, k: nat, x: int)
    requires p <= k < |d|
    ensures Horner(d[k := x], p) == Horner(d, p) + (x - d[k]) * Pow2(k - p)
    decreases k - p
  {
    var d' := d[k := x];
    if p == k {
      HornerSame(d, d', k + 1);
      assert Pow2(0) == 1;
    } else {
      HornerUpdate(d, p + 1, k, x);
      DoubleProduct(x - d[k], Pow2(k - p - 1));
    }
  }

  lemma DoubleProduct(x: int, p: int)
    ensures x * (2 * p) == 2 * (x * p)
  {
  }

  lemma {:induction false} HornerSame(d: seq<int>, d': seq<int>, j: nat)
    requires j <= |d| == |d'| && forall k :: j <= k < |d| ==> d[k] == d'[k]
    ensures Horner(d, j) == Horner(d', j)
    decreases |d| - j
  {
    if j < |d| { HornerSame(d, d', j + 1); }
  }

  /** Same digits below j and same value from j on: same value. */
  lemma {:induction false} HornerPrefix(d: seq<int>, d': seq<int>, i: nat, j: nat)
    requires i <= j <= |d| && SameBelow(d, d', j) && Horner(d, j) == Horner(d', j)
    ensures Horner(d, i) == Horner(d', i)
    decreases j - i
  {
    if i < j { HornerPrefix(d, d', i + 1, j); }
  }

  /** Over a run of zeros the value only shifts. */
  lemma {:induction false} HornerZeros(d: seq<int>, i: nat, j: nat)
    requires i <= j <= |d| && ZeroBetween(d, i, j)
    ensures Horner(d, i) == Pow2(j - i) * Horner(d, j)
    decreases j - i
  {
    if i == j {
      assert Pow2(0) == 1;
    } else {
      HornerZeros(d, i + 1, j);
      DoubleProduct(Horner(d, j), Pow2(j - i - 1));
    }
  }

  /** Bits have a value below the power of their number. */
  lemma {:induction false} HornerBitsBound(d: seq<int>, j: nat)
    requires j <= |d| && Bits(d, j)
    ensures 0 <= Horner(d, j) < Pow2(|d| - j)
    decreases |d| - j
  {
    if j < |d| { HornerBitsBound(d, j + 1); } else { assert Pow2(0) == 1; }
  }

  /** for (k = p; ...): add one at position p, rippling up to the first zero bit. */
  method AddCarry(r: array<SChar>, p: nat)
    requires r.Length == LEN && p < LEN && Bits(r[..], p)
    requires Horner(r[..], p) + 1 < Pow2(LEN - p)
    modifies r
    ensures SameBelow(r[..], old(r[..]), p) && Bits(r[..], p)
    ensures Horner(r[..], p) == old(Horner(r[..], p)) + 1
    ensures old(r[p]) == 1 ==> r[p] == 0
  {
    hide Horner, Pow2;
    ghost var start: seq<int> := r[..];
    Pow2Zero();
    var k := p;
    while k < LEN
      invariant p <= k <= LEN
      invariant SameBelow(r[..], start, p) && Bits(r[..], p)
      invariant forall i :: k <= i < LEN ==> r[i] == start[i]
      invariant k > p ==> r[p] == 0 && start[p] == 1
      invariant Horner(r[..], p) + Pow2(k - p) == Horner(start, p) + 1
    {
      HornerUpdate(r[..], p, k, 1 - r[k]);
      Pow2Succ(k - p);
      if r[k] == 0 {
        assert r[..][k := 1] == r[..k] + [1] + r[k + 1..];
        r[k] := 1;
        assert r[..] == r[..k] + [1] + r[k + 1..];
        return;
      }
      assert r[..][k := 0] == r[..k] + [0] + r[k + 1..];
      r[k] := 0;
      assert r[..] == r[..k] + [0] + r[k + 1..];
      k := k + 1;
    }
    HornerBitsBound(r[..], p);
    assert false;
  }

  lemma Pow2Zero()
    ensures Pow2(0) == 1 && Pow2(1) == 2
  {
  }

  lemma Pow2Succ(n: nat)
    ensures Pow2(n + 1) == 2 * Pow2(n)
  {
  }

  /** Powers up to the window size, and their order. */
  lemma SmallPowers(b: nat, w: nat)
    requires 1 <= b <= 6 && 2 <= w <= 7
    ensures Pow2(b) % 2 == 0 && Pow2(b) <= 64 && Pow2(b + 1) == 2 * Pow2(b)
    ensures b <= w - 2 ==> 2 * Pow2(b) <= Pow2(w - 1)
    ensures b == w - 1 ==> Pow2(b) == Pow2(w - 1)
    ensures b >= w ==> Pow2(b) >= 2 * Pow2(w - 1)
  {
    Pow2Table();
  }

  lemma Pow2Table()
    ensures Pow2(0) == 1 && Pow2(1) == 2 && Pow2(2) == 4 && Pow2(3) == 8
    ensures Pow2(4) == 16 && Pow2(5) == 32 && Pow2(6) == 64 && Pow2(7) == 128
  {
  }

  /** What the inner loop keeps while it looks at bit j + b of the digit at j. */
  ghost predicate Absorbing(d: seq<int>, start: seq<int>, j: nat, b: nat, w: nat)
    requires w > 0
  {
    && |d| == |start| == LEN && j < LEN && b >= 1
    && SameBelow(d, start, j) && Horner(d, j) == Horner(start, j)
    && d[j] % 2 == 1 && SmallDigit(d[j], w)
    && (b <= w - 1 ==> 0 < d[j] < Pow2(b))
    && ZeroBetween(d, j + 1, j + b) && Bits(d, j + b)
  }

  /** A set bit below the window top is added. */
  lemma AbsorbAdd(d: seq<int>, start: seq<int>, j: nat, b: nat, w: nat)
    requires 1 <= b <= 6 && 2 <= w <= 7 && j + b < LEN && Absorbing(d, start, j, b, w)
    requires d[j + b] == 0 || b <= w - 2
    ensures Absorbing(d[j := d[j] + d[j + b] * Pow2(b)][j + b := 0], start, j, b + 1, w)
  {
    hide Horner, Pow2;
    SmallPowers(b, w);
    Pow2Zero();
    var x := d[j] + d[j + b] * Pow2(b);
    var d1 := d[j := x];
    HornerUpdate(d, j, j, x);
    HornerUpdate(d1, j, j + b, 0);
    var d2 := d1[j + b := 0];
    if d[j + b] == 0 {
      assert d2 == d;
    }
  }

  /** While absorbing, the value is the digit plus the shifted rest. */
  lemma DigitPlusRest(d: seq<int>, j: nat, b: nat)
    requires 1 <= b && j + b <= |d| && ZeroBetween(d, j + 1, j + b)
    ensures Horner(d, j) == d[j] + Pow2(b) * Horner(d, j + b)
  {
    HornerZeros(d, j + 1, j + b);
    DoubleProduct(Horner(d, j + b), Pow2(b - 1));
  }

  lemma CancelLess(p: nat, a: int, b: int)
    requires p * a < p * b
    ensures a < b
  {
    MulBounds(a - b, p);
    assert (a - b) * p == p * a - p * b;
  }

  /** The carry of a set bit at the window top finds a zero bit before the end. */
  lemma CarryFits(d: seq<int>, start: seq<int>, j: nat, b: nat, w: nat)
    requires 2 <= w <= 7 && b == w - 1 && j + b < LEN && Absorbing(d, start, j, b, w)
    requires Horner(start, j) <= Pow2(LEN - 1 - j)
    ensures Horner(d, j + b) + 1 < Pow2(LEN - (j + b))
  {
    hide Horner, Pow2;
    var p, h, q, half := Pow2(b), Horner(d, j + b), Pow2(LEN - (j + b)), Pow2(LEN - 1 - j);
    DigitPlusRest(d, j, b);
    Pow2Sum(b, LEN - (j + b));
    Pow2Succ(LEN - 1 - j);
    Pow2Monotone(b, LEN - 1 - j);
    OneMore(p, h);
    CancelLess(p, h + 1, q);
  }

  /** A set bit at the window top is subtracted from the digit and carried up. */
  lemma AbsorbCarry(d: seq<int>, d': seq<int>, start: seq<int>, j: nat, b: nat, w: nat)
    requires 2 <= w <= 7 && b == w - 1 && j + b < LEN && Absorbing(d, start, j, b, w)
    requires |d'| == LEN && SameBelow(d', d[j := d[j] - Pow2(b)], j + b) && Bits(d', j + b) && d'[j + b] == 0
    requires Horner(d', j + b) == Horner(d, j + b) + 1
    ensures Absorbing(d', start, j, b + 1, w)
  {
    hide Horner, Pow2;
    SmallPowers(b, w);
    assert d'[j] == d[j] - Pow2(b);
    assert forall k :: j + 1 <= k < j + b ==> d'[k] == d[k];
    CarryValue(d, d', j, b);
  }

  lemma CarryValue(d: seq<int>, d': seq<int>, j: nat, b: nat)
    requires 1 <= b && j + b <= |d| == |d'| && ZeroBetween(d, j + 1, j + b) && ZeroBetween(d', j + 1, j + b)
    requires d'[j] == d[j] - Pow2(b) && Horner(d', j + b) == Horner(d, j + b) + 1
    ensures Horner(d', j) == Horner(d, j)
  {
    hide Horner, Pow2;
    DigitPlusRest(d, j, b);
    DigitPlusRest(d', j, b);
    OneMore(Pow2(b), Horner(d, j + b));
  }

  lemma OneMore(p: int, h: int)
    ensures p * (h + 1) == p * h + p
  {
  }

  lemma AbsorbStart(start: seq<int>, j: nat, w: nat)
    requires |start| == LEN && j < LEN && 2 <= w <= 7 && start[j] == 1 && Bits(start, j)
    ensures Absorbing(start, start, j, 1, w)
  {
    Pow2Table();
  }

  /** Which of the three branches is taken. */
  lemma AbsorbCases(d: seq<int>, start: seq<int>, j: nat, b: nat, w: nat)
    requires 1 <= b <= 6 && 2 <= w <= 7 && j + b < LEN && Absorbing(d, start, j, b, w)
    ensures d[j + b] == 0 || d[j + b] == 1
    ensures d[j] + d[j + b] * Pow2(b) <= Pow2(w - 1) - 1 <==> d[j + b] == 0 || b <= w - 2
    ensures d[j + b] == 1 && b >= w - 1 ==> (d[j] - Pow2(b) >= -(Pow2(w - 1) - 1) <==> b == w - 1)
  {
    hide Horner, Pow2;
    SmallPowers(b, w);
  }

  lemma CarrySetup(d: seq<int>, d': seq<int>, j: nat, b: nat)
    requires 1 <= b && j + b < |d| == |d'| == LEN && Bits(d, j + b) && d' == d[j := d'[j]]
    ensures Bits(d', j + b) && Horner(d', j + b) == Horner(d, j + b) && d'[j + b] == d[j + b]
  {
    HornerSame(d, d', j + b);
  }

  lemma AbsorbDone(d: seq<int>, start: seq<int>, j: nat, b: nat, w: nat)
    requires 2 <= w <= 7 && Absorbing(d, start, j, b, w) && (w <= b || LEN <= j + b)
    ensures SameBelow(d, start, j) && Horner(d, j) == Horner(start, j)
    ensures d[j] % 2 == 1 && SmallDigit(d[j], w)
    ensures ZeroBetween(d, j + 1, j + w) && Bits(d, j + 1)
  {
    forall k | j + 1 <= k < LEN ensures d[k] == 0 || d[k] == 1 {
      if k < j + b { assert d[k] == 0; }
    }
  }

  /**
   * The inner loop: fold the bits after position j into the digit at j, as long as it stays
   * within the window. Bits above the window are looked at (b runs to 6) but never taken.
   */
  method Absorb(r: array<SChar>, j: nat, w: nat)
    requires r.Length == LEN && j < LEN && 2 <= w <= 7
    requires r[j] == 1 && Bits(r[..], j)
    requires Horner(r[..], j) <= Pow2(LEN - 1 - j)
    modifies r
    ensures SameBelow(r[..], old(r[..]), j) && Horner(r[..], j) == old(Horner(r[..], j))
    ensures r[j] % 2 == 1 && SmallDigit(r[j], w)
    ensures ZeroBetween(r[..], j + 1, j + w) && Bits(r[..], j + 1)
  {
    hide Horner, Pow2, SmallDigit, Bits, SameBelow, ZeroBetween;
    ghost var start: seq<int> := r[..];
    var m := Pow2(w - 1) - 1;
    AbsorbStart(start, j, w);
    var b := 1;
    while b < LEN - j && b <= 6
      invariant 1 <= b <= 7 && Absorbing(r[..], start, j, b, w)
      decreases 7 - b
    {
      var more := AbsorbBit(r, j, b, w, m, start);
      if !more { break; }
      b := b + 1;
    }
    AbsorbDone(r[..], start, j, b, w);
  }

  /** The bit b places after digit j: added to the digit, or subtracted with a carry, or left as it is. */
  method AbsorbBit(r: array<SChar>, j: nat, b: nat, w: nat, m: int, ghost start: seq<int>) returns (more: bool)
    requires r.Length == LEN && 1 <= b <= 6 && 2 <= w <= 7 && j + b < LEN && m == Pow2(w - 1) - 1
    requires Absorbing(r[..], start, j, b, w) && Horner(start, j) <= Pow2(LEN - 1 - j)
    modifies r
    ensures if more then Absorbing(r[..], start, j, b + 1, w) else b >= w && r[..] == old(r[..])
  {
    hide Horner, Pow2, SmallDigit, Bits, SameBelow, ZeroBetween;
    more := true;
    ghost var d: seq<int> := r[..];
    AbsorbCases(d, start, j, b, w);
    SmallPowers(b, w);
    var shifted := r[j + b] * Pow2(b);
    if r[j] + shifted <= m {
      AbsorbAdd(d, start, j, b, w);
      r[j] := r[j] + shifted;
      r[j + b] := 0;
      assert r[..] == d[j := d[j] + d[j + b] * Pow2(b)][j + b := 0];
    } else if r[j] - shifted >= -m {
      CarryFits(d, start, j, b, w);
      r[j] := r[j] - shifted;
      assert r[..] == d[j := d[j] - Pow2(b)];
      ghost var d1: seq<int> := r[..];
      CarrySetup(d, d1, j, b);
      AddCarry(r, j + b);
      AbsorbCarry(d, r[..], start, j, b, w);
    } else if r[j + b] != 0 {
      more := false;
    }
  }

  /** The value when the digits from n on stand for `rest`. */
  function HornerTo(d: seq<int>, j: nat, n: nat, rest: int): int
    requires j <= n <= |d|
    decreases n - j
  {
    if j == n then rest else d[j] + 2 * HornerTo(d, j + 1, n, rest)
  }

  lemma {:induction false} HornerToAppend(d: seq<int>, d': seq<int>, j: nat, n: nat, rest: int)
    requires j <= n < |d| && SameBelow(d, d', n)
    ensures HornerTo(d', j, n + 1, rest) == HornerTo(d, j, n, d'[n] + 2 * rest)
    decreases n - j
  {
    if j < n { HornerToAppend(d, d', j + 1, n, rest); }
  }

  lemma {:induction false} HornerToEnd(d: seq<int>, j: nat)
    requires j <= |d|
    ensures HornerTo(d, j, |d|, 0) == Horner(d, j)
    decreases |d| - j
  {
    if j < |d| { HornerToEnd(d, j + 1); }
  }

  /** Write the n low bits of v at position `at`; u is the value above them. */
  method WriteLimb(r: array<SChar>, at: nat, limb: nat, n: nat, ghost u: int)
    requires r.Length == LEN && at + n <= LEN && limb < Pow2(n)
    requires forall k :: 0 <= k < at ==> r[k] == 0 || r[k] == 1
    modifies r
    ensures forall k :: 0 <= k < at + n ==> r[k] == 0 || r[k] == 1
    ensures HornerTo(r[..], 0, at + n, u) == old(HornerTo(r[..], 0, at, limb + Shifted(u, n)))
  {
    hide HornerTo, Pow2, Shifted;
    var v: nat := limb;
    ghost var start := HornerTo(r[..], 0, at, limb + Shifted(u, n));
    for j := 0 to n
      invariant v < Pow2(n - j)
      invariant forall k :: 0 <= k < at + j ==> r[k] == 0 || r[k] == 1
      invariant HornerTo(r[..], 0, at + j, v + Shifted(u, n - j)) == start
    {
      ghost var d: seq<int> := r[..];
      r[at + j] := v % 2;
      HornerToAppend(d, r[..], 0, at + j, v / 2 + Shifted(u, n - j - 1));
      Pow2Succ(n - j - 1);
      ShiftedStep(u, n - j - 1);
      v := v / 2;
    }
    Pow2Zero();
    ShiftedZero(u);
  }

  /** u * 2^n */
  function Shifted(u: int, n: nat): int { Pow2(n) * u }

  lemma ShiftedZero(u: int)
    ensures Shifted(u, 0) == u
  {
    Pow2Zero();
  }

  lemma ShiftedStep(u: int, n: nat)
    ensures Shifted(u, n + 1) == 2 * Shifted(u, n)
  {
    hide Pow2;
    Pow2Succ(n);
    DoubleProduct(u, Pow2(n));
    assert u * (2 * Pow2(n)) == (2 * Pow2(n)) * u;
  }

  /** The value of the limbs above limb i, in units of limb i + 1. */
  function Above(s: Scalar, i: nat): nat
    requires i <= 4
  {
    if i == 4 then 0
    else if i == 3 then s[4]
    else if i == 2 then s[3] + 0x100_0000_0000_0000 * s[4]
    else if i == 1 then s[2] + 0x100_0000_0000_0000 * (s[3] + 0x100_0000_0000_0000 * s[4])
    else s[1] + 0x100_0000_0000_0000 * (s[2] + 0x100_0000_0000_0000 * (s[3] + 0x100_0000_0000_0000 * s[4]))
  }

  lemma AboveStep(s: Scalar, i: nat)
    requires i < 4
    ensures Above(s, i) == s[i + 1] + 0x100_0000_0000_0000 * Above(s, i + 1)
    ensures Value(s) == s[0] + 0x100_0000_0000_0000 * Above(s, 0)
  {
  }

  method WriteBits(r: array<SChar>, s: Scalar)
    requires r.Length == LEN && s[4] < 0x1_0000_0000
    modifies r
    ensures Bits(r[..], 0) && Horner(r[..], 0) == Value(s)
  {
    hide HornerTo, Pow2, Horner, Above, Low;
    Pow2Of56();
    AboveStep(s, 0);
    HornerToStart(r[..], Value(s));
    for i := 0 to 4
      invariant forall k :: 0 <= k < 56 * i ==> r[k] == 0 || r[k] == 1
      invariant HornerTo(r[..], 0, 56 * i, s[i] + 0x100_0000_0000_0000 * Above(s, i)) == Value(s)
    {
      WriteLimb(r, 56 * i, s[i], 56, Above(s, i));
      AboveStep(s, i);
    }
    AboveTop(s);
    Pow2Of32();
    WriteLimb(r, 224, s[4], 32, 0);
    HornerToEnd(r[..], 0);
  }

  lemma HornerToStart(d: seq<int>, v: int)
    ensures HornerTo(d, 0, 0, v) == v
  {
  }

  lemma AboveTop(s: Scalar)
    ensures Above(s, 4) == 0
  {
  }

  // ---------------------------------------------------------------------------------------
  // The outer loop
  // ---------------------------------------------------------------------------------------

  lemma {:induction false} BitsShrink(o: seq<int>, j: nat)
    requires |o| == LEN && j < LEN && Bits(o, 0) && Horner(o, 0) < Pow2(LEN - 1)
    ensures Horner(o, j) < Pow2(LEN - 1 - j)
  {
    if j > 0 {
      BitsShrink(o, j - 1);
      Pow2Succ(LEN - 1 - j);
    }
  }

  /** n bits are worth at most 2^n - 1. */
  lemma {:induction false} BitsWindow(o: seq<int>, j: nat, n: nat)
    requires j + n <= |o| && Bits(o, 0)
    ensures Horner(o, j) <= Pow2(n) * Horner(o, j + n) + Pow2(n) - 1
    decreases n
  {
    if n == 0 {
      Pow2Zero();
    } else {
      BitsWindow(o, j + 1, n - 1);
      WindowStep(o[j], Horner(o, j), Horner(o, j + 1), Horner(o, j + n), Pow2(n - 1));
      Pow2Succ(n - 1);
    }
  }

  lemma WindowStep(bit: int, h: int, rest: int, far: int, p: int)
    requires 0 <= bit <= 1 && h == bit + 2 * rest && rest <= p * far + p - 1
    ensures h <= (2 * p) * far + 2 * p - 1
  {
    DoubleProduct(far, p);
    assert far * p == p * far && far * (2 * p) == (2 * p) * far;
  }

  /**
   * What the outer loop keeps at position j. Positions j..e-1 are known to be zero, and from e on
   * the bits exceed those of the input o by at most the one carry.
   */
  ghost predicate Progress(d: seq<int>, o: seq<int>, j: nat, e: nat, w: nat)
    requires w > 0
  {
    && |d| == |o| == LEN && Bits(o, 0) && Horner(o, 0) < Pow2(LEN - 1)
    && j <= e <= LEN && ZeroBetween(d, j, e) && Bits(d, j)
    && Horner(d, 0) == Horner(o, 0) && Horner(d, e) <= Horner(o, e) + 1
    && OddAndSmall(d, w, j) && Sparse(d, w, j)
    && (forall i :: 0 <= i < j && d[i] != 0 ==> i + w <= e || e == LEN)
  }

  lemma SkipZero(d: seq<int>, o: seq<int>, j: nat, e: nat, w: nat)
    requires 2 <= w <= 7 && Progress(d, o, j, e, w) && j < LEN && d[j] == 0
    ensures Progress(d, o, j + 1, if e == j then j + 1 else e, w)
  {
    if e == j {
      assert Horner(d, j) == 2 * Horner(d, j + 1);
      assert Horner(o, j) == o[j] + 2 * Horner(o, j + 1);
    }
  }

  lemma DigitDone(d: seq<int>, d': seq<int>, o: seq<int>, j: nat, e: nat, w: nat)
    requires 2 <= w <= 7 && Progress(d, o, j, e, w) && j < LEN && d[j] == 1
    requires SameBelow(d', d, j) && Horner(d', j) == Horner(d, j)
    requires d'[j] % 2 == 1 && SmallDigit(d'[j], w) && ZeroBetween(d', j + 1, j + w) && Bits(d', j + 1)
    ensures Progress(d', o, j + 1, if j + w < LEN then j + w else LEN, w)
  {
    hide Horner, Pow2, SmallDigit;
    assert e == j;
    HornerPrefix(d, d', 0, j);
    DigitBound(d', o, j, w);
    forall i, k | 0 <= i < j + 1 && i < k < i + w && k < LEN && d'[i] != 0
      ensures d'[k] == 0
    {
      if i < j { assert d[i] != 0; assert i + w <= j; assert d[k] == 0; }
    }
    forall i | 0 <= i < j + 1 && d'[i] != 0
      ensures d'[i] % 2 == 1 && SmallDigit(d'[i], w)
    {
      if i < j { assert d[i] == d'[i]; }
    }
  }

  /** Rounding to the nearest multiple of 2^w leaves at most one carry. */
  lemma DigitBound(d: seq<int>, o: seq<int>, j: nat, w: nat)
    requires |d| == |o| == LEN && j < LEN && 2 <= w <= 7 && Bits(o, 0)
    requires Horner(d, j) <= Horner(o, j) + 1 && SmallDigit(d[j], w) && ZeroBetween(d, j + 1, j + w)
    ensures var e := if j + w < LEN then j + w else LEN; Horner(d, e) <= Horner(o, e) + 1
  {
    hide Horner, Pow2;
    if j + w < LEN {
      DigitPlusRest(d, j, w);
      BitsWindow(o, j, w);
      Pow2Succ(w - 1);
      RoundingBound(Pow2(w - 1), Horner(d, j + w), Horner(o, j + w), d[j], Horner(d, j), Horner(o, j));
    } else {
      HornerEnd(d);
      HornerEnd(o);
    }
  }

  lemma HornerEnd(d: seq<int>)
    ensures Horner(d, |d|) == 0
  {
  }

  lemma RoundingBound(half: nat, h: int, g: int, digit: int, hd: int, ho: int)
    requires hd == digit + (2 * half) * h && hd <= ho + 1 && ho <= (2 * half) * g + 2 * half - 1 && -digit < half
    ensures h <= g + 1
  {
    var p := 2 * half;
    OneMore(p, g);
    OneMore(p, g + 1);
    CancelLess(p, h, g + 2);
  }

  /** The digits of a recoded value: they sum to it, are odd and small, and w - 1 zeros follow each nonzero one. */
  ghost predicate Recoded(d: seq<int>, value: int, w: nat)
    requires w > 0
  {
    |d| == LEN && Horner(d, 0) == value && OddAndSmall(d, w, LEN) && Sparse(d, w, LEN)
  }

  /** contract256_slidingwindow_modm */
  method Recode(r: array<SChar>, s: Scalar, windowsize: nat)
    requires r.Length == LEN && 2 <= windowsize <= 7
    requires Value(s) < Pow2(LEN - 1)
    modifies r
    ensures Recoded(r[..], Value(s), windowsize)
  {
    hide Horner, Pow2, SmallDigit, Low, Progress;
    TopLimbSmall(s);
    WriteBits(r, s);
    ghost var o: seq<int>, e: nat := r[..], 0;
    RecodeStart(o, windowsize);
    for j := 0 to LEN
      invariant Progress(r[..], o, j, e, windowsize)
    {
      ghost var d: seq<int> := r[..];
      ProgressFacts(d, o, j, e, windowsize);
      if r[j] == 0 {
        SkipZero(d, o, j, e, windowsize);
        e := if e == j then j + 1 else e;
      } else {
        Absorb(r, j, windowsize);
        DigitDone(d, r[..], o, j, e, windowsize);
        e := if j + windowsize < LEN then j + windowsize else LEN;
      }
    }
    RecodeEnd(r[..], o, e, windowsize);
  }

  lemma TopLimbSmall(s: Scalar)
    requires Value(s) < Pow2(LEN - 1)
    ensures s[4] < 0x1_0000_0000
  {
    hide Pow2;
    Pow2Of56();
    Pow2Sum(56, 56);
    Pow2Sum(112, 112);
    Pow2Of32();
    Pow2Sum(224, 32);
    Pow2Succ(255);
  }

  lemma RecodeStart(o: seq<int>, w: nat)
    requires |o| == LEN && 2 <= w <= 7 && Bits(o, 0) && Horner(o, 0) < Pow2(LEN - 1)
    ensures Progress(o, o, 0, 0, w)
  {
  }

  lemma ProgressFacts(d: seq<int>, o: seq<int>, j: nat, e: nat, w: nat)
    requires 2 <= w <= 7 && Progress(d, o, j, e, w) && j < LEN
    ensures (d[j] == 0 || d[j] == 1) && Bits(d, j)
    ensures d[j] == 1 ==> Horner(d, j) <= Pow2(LEN - 1 - j)
  {
    if d[j] == 1 {
      assert e == j;
      BitsShrink(o, j);
    }
  }

  lemma RecodeEnd(d: seq<int>, o: seq<int>, e: nat, w: nat)
    requires 2 <= w <= 7 && Progress(d, o, LEN, e, w)
    ensures Recoded(d, Horner(o, 0), w)
  {
  }
}
