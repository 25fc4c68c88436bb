/** Signed radix-16 recoding: 64 digits, 0..62 in [-8, 7] and digit 63 in [0, 8]. */
module Window4 {
  import opened Words
  import opened ScalarLimbs
  import SW = SlidingWindow

  const LEN := 64

  /** The value of the digits from j on, in units of 16^j. */
  function Horner16(d: seq<int>, j: nat): int
    requires j <= |d|
    decreases |d| - j
  {
    if j == |d| then 0 else d[j] + 16 * Horner16(d, j + 1)
  }

  /** The value when the digits from n on stand for `rest`. */
  function HornerTo16(d: seq<int>, j: nat, n: nat, rest: int): int
    requires j <= n <= |d|
    decreases n - j
  {
    if j == n then rest else d[j] + 16 * HornerTo16(d, j + 1, n, rest)
  }

  lemma {:induction false} Append(d: seq<int>, d': seq<int>, j: nat, n: nat, rest: int)
    requires j <= n < |d| == |d'| && forall k :: 0 <= k < n ==> d[k] == d'[k]
    ensures HornerTo16(d', j, n + 1, rest) == HornerTo16(d, j, n, d'[n] + 16 * rest)
    decreases n - j
  {
    if j < n { Append(d, d', j + 1, n, rest); }
  }

  lemma {:induction false} Ends(d: seq<int>, j: nat)
    requires j <= |d|
    ensures HornerTo16(d, j, |d|, 0) == Horner16(d, j)
    decreases |d| - j
  {
    if j < |d| { Ends(d, j + 1); }
  }

  lemma {:induction false} Same(d: seq<int>, d': seq<int>, j: nat)
    requires j <= |d| == |d'| && forall k :: j <= k < |d| ==> d[k] == d'[k]
    ensures Horner16(d, j) == Horner16(d', j)
    decreases |d| - j
  {
    if j < |d| { Same(d, d', j + 1); }
  }

  ghost predicate Nibbles(d: seq<int>, from: nat, to: nat) {
    forall k :: from <= k < to && k < |d| ==> 0 <= d[k] < 16
  }

  /** Write the n low nibbles of a limb at position `at`; u is the value above them. */
  method WriteLimb(r: array<SChar>, at: nat, limb: nat, n: nat, ghost u: int)
    requires r.Length == LEN && at + n <= LEN && limb < Pow2(4 * n) && Nibbles(r[..], 0, at)
    modifies r
    ensures Nibbles(r[..], 0, at + n)
    ensures HornerTo16(r[..], 0, at + n, u) == old(HornerTo16(r[..], 0, at, limb + Pow2(4 * n) * u))
  {
    hide HornerTo16, Pow2;
    var v: nat := limb;
    ghost var start := HornerTo16(r[..], 0, at, limb + Pow2(4 * n) * u);
    for j := 0 to n
      invariant v < Pow2(4 * (n - j))
      invariant Nibbles(r[..], 0, at + j)
      invariant HornerTo16(r[..], 0, at + j, v + Pow2(4 * (n - j)) * u) == start
    {
      ghost var d: seq<int> := r[..];
      r[at + j] := v % 16;
      Append(d, r[..], 0, at + j, v / 16 + Pow2(4 * (n - j - 1)) * u);
      Shift4(4 * (n - j - 1), u);
      v := v / 16;
    }
    SW.Pow2Zero();
    assert v + Pow2(4 * (n - n)) * u == u;
  }

  lemma Shift4(n: nat, u: int)
    ensures Pow2(n + 4) == 16 * Pow2(n) && Pow2(n + 4) * u == 16 * (Pow2(n) * u)
  {
    assert Pow2(n + 4) == 2 * Pow2(n + 3) && Pow2(n + 3) == 2 * Pow2(n + 2) && Pow2(n + 2) == 2 * Pow2(n + 1);
    SixteenTimes(Pow2(n), u);
  }

  lemma SixteenTimes(p: int, u: int)
    ensures (16 * p) * u == 16 * (p * u)
  {
  }

  method WriteNibbles(r: array<SChar>, s: Scalar)
    requires r.Length == LEN && s[4] < 0x1_0000_0000
    modifies r
    ensures Nibbles(r[..], 0, LEN) && Horner16(r[..], 0) == Value(s)
  {
    hide HornerTo16, Pow2, Horner16, SW.Above, Low;
    Pow2Of56();
    SW.AboveStep(s, 0);
    Start(r[..], Value(s));
    for i := 0 to 4
      invariant Nibbles(r[..], 0, 14 * i)
      invariant HornerTo16(r[..], 0, 14 * i, s[i] + 0x100_0000_0000_0000 * SW.Above(s, i)) == Value(s)
    {
      WriteLimb(r, 14 * i, s[i], 14, SW.Above(s, i));
      SW.AboveStep(s, i);
    }
    SW.AboveTop(s);
    Pow2Of32();
    WriteLimb(r, 56, s[4], 8, 0);
    Ends(r[..], 0);
  }

  lemma Start(d: seq<int>, v: int)
    ensures HornerTo16(d, 0, 0, v) == v
  {
  }

  /** Below 2^255 the top nibble is below 8. */
  lemma {:induction false} TopShrinks(d: seq<int>, j: nat)
    requires |d| == LEN && j <= 63 && Nibbles(d, 0, LEN) && Horner16(d, 0) < Pow2(255)
    ensures Horner16(d, j) < Pow2(255 - 4 * j)
  {
    hide Pow2;
    if j > 0 {
      TopShrinks(d, j - 1);
      Shift4(255 - 4 * j, 0);
      assert Horner16(d, j - 1) == d[j - 1] + 16 * Horner16(d, j);
    }
  }

  lemma TopNibble(d: seq<int>)
    requires |d| == LEN && Nibbles(d, 0, LEN) && Horner16(d, 0) < Pow2(255)
    ensures d[63] < 8
  {
    TopShrinks(d, 63);
    SW.Pow2Table();
    LastDigit(d);
  }

  ghost predicate Recoded(d: seq<int>, value: int) {
    && |d| == LEN && Horner16(d, 0) == value
    && (forall i :: 0 <= i < 63 ==> -8 <= d[i] <= 7) && 0 <= d[63] <= 8
  }

  /** What the signing loop keeps: digits below i are signed, from i on they are nibbles, one carry is pending. */
  ghost predicate Signing(d: seq<int>, value: int, i: nat, carry: int) {
    && |d| == LEN && i <= 63 && 0 <= carry <= 1
    && (forall k :: 0 <= k < i ==> -8 <= d[k] <= 7)
    && 0 <= d[i] && d[i] + carry <= 16 && Nibbles(d, i + 1, LEN)
    && (i < 63 ==> d[63] < 8) && (i == 63 ==> d[63] + carry <= 8)
    && HornerTo16(d, 0, i, carry + Horner16(d, i)) == value
  }

  lemma SignStep(d: seq<int>, value: int, i: nat, carry: int)
    requires i < 63 && Signing(d, value, i, carry)
    ensures 0 <= d[i] + carry <= 16 && 0 <= d[i + 1] <= 15
    ensures var x := d[i] + carry;
            var y := x % 16;
            var d' := d[i := y - 16 * (y / 8)][i + 1 := d[i + 1] + x / 16];
            Signing(d', value, i + 1, y / 8)
  {
    hide HornerTo16;
    var x := d[i] + carry;
    var y := x % 16;
    var c := y / 8;
    var d' := d[i := y - 16 * c][i + 1 := d[i + 1] + x / 16];
    Append(d, d', 0, i, c + Horner16(d', i + 1));
    Same(d, d', i + 2);
    assert Horner16(d, i + 1) == d[i + 1] + 16 * Horner16(d, i + 2);
    assert Horner16(d', i + 1) == d'[i + 1] + 16 * Horner16(d', i + 2);
  }

  /** contract256_window4_modm */
  method Recode(r: array<SChar>, s: Scalar)
    requires r.Length == LEN && Value(s) < Pow2(255)
    modifies r
    ensures Recoded(r[..], Value(s))
  {
    hide HornerTo16, Horner16, Signing, Pow2, Low;
    SW.TopLimbSmall(s);
    WriteNibbles(r, s);
    ghost var value := Value(s);
    SigningStart(r[..], value);
    var carry := 0;
    for i := 0 to 63
      invariant Signing(r[..], value, i, carry)
    {
      ghost var d: seq<int> := r[..];
      SignStep(d, value, i, carry);
      r[i] := r[i] + carry;
      r[i + 1] := r[i + 1] + r[i] / 16;
      r[i] := r[i] % 16;
      carry := r[i] / 8;
      r[i] := r[i] - carry * 16;
      assert r[..] == d[i := r[i]][i + 1 := r[i + 1]];
    }
    SigningEnd(r[..], value, carry);
    ghost var d: seq<int> := r[..];
    r[63] := r[63] + carry;
    assert r[..] == d[63 := d[63] + carry];
  }

  lemma SigningStart(d: seq<int>, value: int)
    requires |d| == LEN && Nibbles(d, 0, LEN) && Horner16(d, 0) == value < Pow2(255)
    ensures Signing(d, value, 0, 0)
  {
    TopNibble(d);
  }

  lemma SigningEnd(d: seq<int>, value: int, carry: int)
    requires Signing(d, value, 63, carry)
    ensures Recoded(d[63 := d[63] + carry], value)
  {
    hide HornerTo16, Horner16;
    var d' := d[63 := d[63] + carry];
    LastDigit(d);
    Append(d, d', 0, 63, 0);
    Ends(d', 0);
  }

  lemma LastDigit(d: seq<int>)
    requires |d| == LEN
    ensures Horner16(d, 63) == d[63]
  {
    assert Horner16(d, 64) == 0;
  }
}
