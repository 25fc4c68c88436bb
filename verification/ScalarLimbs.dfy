/**
 * Scalars in five 56-bit limbs and the variable-time helpers of batch verification:
 * comparison and subtraction cut to the limbs that are still in use.
 */
module ScalarLimbs {
  import opened Words

  /** A bignum256modm whose limbs are normalised. */
  type Scalar = s: seq<nat> | |s| == 5 && forall i :: 0 <= i < 5 ==> s[i] < TWO_56
    witness [0, 0, 0, 0, 0]

  /** The weight of limb i, 2^(56 i). */
  function Weight(i: nat): (w: nat)
    requires i <= 5
    ensures w > 0
  {
    if i == 0 then 1
    else if i == 1 then 0x100_0000_0000_0000
    else if i == 2 then 0x1_0000_0000_0000_0000_0000_0000_0000
    else if i == 3 then 0x100_0000_0000_0000_0000_0000_0000_0000_0000_0000_0000
    else if i == 4 then 0x1_0000_0000_0000_0000_0000_0000_0000_0000_0000_0000_0000_0000_0000_0000
    else 0x100_0000_0000_0000_0000_0000_0000_0000_0000_0000_0000_0000_0000_0000_0000_0000_0000_0000
  }

  /** The value of the n lowest limbs. */
  function Low(s: seq<nat>, n: nat): nat
    requires n <= |s| && n <= 5
  {
    (if n > 0 then s[0] else 0)
    + (if n > 1 then s[1] * 0x100_0000_0000_0000 else 0)
    + (if n > 2 then s[2] * 0x1_0000_0000_0000_0000_0000_0000_0000 else 0)
    + (if n > 3 then s[3] * 0x100_0000_0000_0000_0000_0000_0000_0000_0000_0000_0000 else 0)
    + (if n > 4 then s[4] * 0x1_0000_0000_0000_0000_0000_0000_0000_0000_0000_0000_0000_0000_0000_0000 else 0)
  }

  function Value(s: Scalar): nat { Low(s, 5) }

  ghost predicate ZeroAbove(s: Scalar, limbsize: nat) {
    forall i :: limbsize < i < 5 ==> s[i] == 0
  }

  lemma {:induction false} LowBound(s: Scalar, n: nat)
    requires n <= 5
    ensures Low(s, n) < Weight(n)
  {
    if n > 0 {
      LowBound(s, n - 1);
      assert s[n - 1] * Weight(n - 1) <= (TWO_56 - 1) * Weight(n - 1);
    }
  }

  lemma LowZero(s: Scalar)
    ensures Low(s, 0) == 0
  {
  }

  /** Comparing values is comparing the top limb, then the limbs below. */
  lemma LowCompare(a: Scalar, b: Scalar, n: nat)
    requires 0 < n <= 5
    ensures Low(a, n) < Low(b, n) <==> a[n - 1] < b[n - 1] || (a[n - 1] == b[n - 1] && Low(a, n - 1) < Low(b, n - 1))
  {
    var w := Weight(n - 1);
    LowBound(a, n - 1);
    LowBound(b, n - 1);
    if a[n - 1] < b[n - 1] {
      assert (a[n - 1] + 1) * w <= b[n - 1] * w;
    } else if a[n - 1] > b[n - 1] {
      assert (b[n - 1] + 1) * w <= a[n - 1] * w;
    }
  }

  /** The limbs above limbsize do not count when they are zero. */
  lemma {:induction false} LowIsValue(s: Scalar, limbsize: nat, n: nat)
    requires ZeroAbove(s, limbsize) && limbsize < n <= 5
    ensures Low(s, n) == Low(s, limbsize + 1)
  {
    if n > limbsize + 1 {
      LowIsValue(s, limbsize, n - 1);
    }
  }

  /** A value below the weight of a limb has that limb and all higher ones zero, and conversely. */
  lemma ValueBelowWeight(s: Scalar, n: nat)
    requires n <= 5
    ensures Value(s) < Weight(n) <==> forall i :: n <= i < 5 ==> s[i] == 0
  {
    if forall i :: n <= i < 5 ==> s[i] == 0 {
      LowBound(s, n);
      if n < 5 {
        if n > 0 { LowIsValue(s, n - 1, 5); } else { LowIsValue(s, 0, 5); }
      }
    } else {
      var i :| n <= i < 5 && s[i] != 0;
      assert s[i] * Weight(i) >= Weight(i);
    }
  }

  /** a < b on the limbs 0..limbsize: the borrow of the subtraction, as the fall-through switch computes it. */
  method LtBatch(a: Scalar, b: Scalar, limbsize: nat) returns (lt: bool)
    requires limbsize <= 4
    ensures lt <==> Low(a, limbsize + 1) < Low(b, limbsize + 1)
  {
    hide Low;
    var i, carry := 0, 0;
    LowZero(a);
    LowZero(b);
    while i <= limbsize
      invariant i <= limbsize + 1
      invariant carry == if Low(a, i) < Low(b, i) then 1 else 0
    {
      LowCompare(a, b, i + 1);
      SubLimb(a[i], b[i], carry);
      var t := Sub(Sub(a[i], b[i]), carry);
      carry := t / TWO_63;
      i := i + 1;
    }
    return carry == 1;
  }

  /** a <= b on the limbs 0..limbsize: the negated borrow of b - a. */
  method LteBatch(a: Scalar, b: Scalar, limbsize: nat) returns (lte: bool)
    requires limbsize <= 4
    ensures lte <==> Low(a, limbsize + 1) <= Low(b, limbsize + 1)
  {
    hide Low;
    var i, carry := 0, 0;
    LowZero(a);
    LowZero(b);
    while i <= limbsize
      invariant i <= limbsize + 1
      invariant carry == if Low(b, i) < Low(a, i) then 1 else 0
    {
      LowCompare(b, a, i + 1);
      SubLimb(b[i], a[i], carry);
      var t := Sub(Sub(b[i], a[i]), carry);
      carry := t / TWO_63;
      i := i + 1;
    }
    return carry != 1;
  }

  /**
   * out = a - b on the limbs 0..limbsize, written over a; higher limbs keep the value of a.
   * The last limb is not masked, so the result is normalised only because a is the larger one.
   */
  method SubBatch(a: Scalar, b: Scalar, limbsize: nat) returns (out: Scalar)
    requires limbsize <= 4
    requires ZeroAbove(a, limbsize) && ZeroAbove(b, limbsize)
    requires Value(b) <= Value(a)
    ensures Value(out) == Value(a) - Value(b)
    ensures ZeroAbove(out, limbsize)
  {
    hide Low;
    var o: Scalar := a;
    var i, carry := 0, 0;
    SubStart(a, b, limbsize);
    while i < limbsize
      invariant i <= limbsize
      invariant forall k :: i <= k < 5 ==> o[k] == a[k]
      invariant 0 <= carry <= 1
      invariant Low(o, i) + Low(b, i) == Low(a, i) + Borrowed(carry, i)
    {
      var t := Sub(Sub(a[i], b[i]), carry);
      SubLimb(a[i], b[i], carry);
      SubStep(a, b, o, t % TWO_56, i, carry, t / TWO_63);
      o, carry := o[i := t % TWO_56], t / TWO_63;
      i := i + 1;
    }
    SubTop(a, b, o, limbsize, carry);
    var last := Sub(Sub(a[i], b[i]), carry);
    SubLimb(a[i], b[i], carry);
    SubStep(a, b, o, last, i, carry, 0);
    out := o[i := last];
    LowIsValue(out, limbsize, 5);
  }

  function Borrowed(carry: nat, i: nat): nat
    requires i <= 5
  {
    if carry == 0 then 0 else Weight(i)
  }

  /** One limb of a subtraction with borrow: bit 63 is the borrow, the low 56 bits the limb. */
  lemma SubLimb(x: nat, y: nat, carry: nat)
    requires x < TWO_56 && y < TWO_56 && carry <= 1
    ensures var t := Sub(Sub(x, y), carry);
            t / TWO_63 == (if x < y + carry then 1 else 0) &&
            t % TWO_56 == x - y - carry + (if x < y + carry then TWO_56 else 0)
    ensures y + carry <= x ==> Sub(Sub(x, y), carry) == x - y - carry
  {
    var t := Sub(Sub(x, y), carry);
    if x < y + carry {
      assert t == x - y - carry + TWO_56 + 255 * TWO_56;
    }
  }

  lemma SubStart(a: Scalar, b: Scalar, limbsize: nat)
    requires limbsize <= 4 && ZeroAbove(a, limbsize) && ZeroAbove(b, limbsize)
    ensures Low(a, 0) == Low(b, 0) == 0
    ensures Value(a) == Low(a, limbsize + 1) && Value(b) == Low(b, limbsize + 1)
  {
    LowIsValue(a, limbsize, 5);
    LowIsValue(b, limbsize, 5);
  }

  lemma SubStep(a: Scalar, b: Scalar, o: Scalar, limb: nat, i: nat, carry: nat, carry': nat)
    requires i < 5 && carry <= 1 && carry' <= 1 && limb < TWO_56
    requires Low(o, i) + Low(b, i) == Low(a, i) + Borrowed(carry, i)
    requires limb == a[i] - b[i] - carry + (if carry' == 1 then TWO_56 else 0)
    ensures Low(o[i := limb], i + 1) + Low(b, i + 1) == Low(a, i + 1) + Borrowed(carry', i + 1)
  {
  }

  /** On the highest used limb no borrow is left. */
  lemma SubTop(a: Scalar, b: Scalar, o: Scalar, n: nat, carry: nat)
    requires n < 5 && carry <= 1 && Low(b, n + 1) <= Low(a, n + 1)
    requires Low(o, n) + Low(b, n) == Low(a, n) + Borrowed(carry, n)
    ensures b[n] + carry <= a[n]
  {
    LowCompare(a, b, n + 1);
    LowBound(o, n);
    LowBound(a, n);
    LowBound(b, n);
  }

  method IsZeroBatch(a: Scalar) returns (z: bool)
    ensures z <==> Value(a) == 0
  {
    ValueBelowWeight(a, 0);
    for i := 0 to 5
      invariant forall k :: 0 <= k < i ==> a[k] == 0
    {
      if a[i] != 0 { return false; }
    }
    return true;
  }

  method IsOneBatch(a: Scalar) returns (one: bool)
    ensures one <==> Value(a) == 1
  {
    ValueIsOne(a);
    for i := 0 to 5
      invariant forall k :: 0 <= k < i ==> a[k] == if k == 0 then 1 else 0
    {
      if a[i] != if i == 0 then 1 else 0 { return false; }
    }
    return true;
  }

  lemma ValueIsOne(a: Scalar)
    ensures Value(a) == 1 <==> a[0] == 1 && forall i :: 1 <= i < 5 ==> a[i] == 0
  {
    ValueBelowWeight(a, 1);
    assert Weight(1) == TWO_56;
    if forall i :: 1 <= i < 5 ==> a[i] == 0 {
      LowIsValue(a, 0, 5);
      assert Low(a, 1) == a[0];
    }
  }

  /** The mask over limbs 2..4 is zero; limb 2 keeps its 16 lowest bits, 112 + 16 = 128. */
  function IsAtMost128Bits(a: Scalar): bool {
    a[4] == 0 && a[3] == 0 && a[2] / 0x1_0000 == 0
  }

  lemma AtMost128Bits(a: Scalar)
    ensures IsAtMost128Bits(a) <==> Value(a) < 0x1_0000_0000_0000_0000_0000_0000_0000_0000
  {
    assert Weight(2) == TWO_56 * TWO_56;
    assert Weight(3) == TWO_56 * TWO_56 * TWO_56;
    ValueBelowWeight(a, 3);
    LowBound(a, 2);
    if a[3] == 0 && a[4] == 0 {
      LowIsValue(a, 2, 5);
      assert Value(a) == Low(a, 2) + a[2] * Weight(2);
    }
  }
}
