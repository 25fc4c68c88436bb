/** Byte strings and their little-endian values. */
module Bytes {
  import opened Words

  type Byte = x: nat | x < 0x100

  function LeValue(b: seq<Byte>): nat {
    if b == [] then 0 else b[0] + 0x100 * LeValue(b[1..])
  }

  lemma LeValueNil()
    ensures LeValue([]) == 0
  {
  }

  function Zeros(n: nat): (z: seq<Byte>)
    ensures |z| == n
  {
    seq(n, i => 0)
  }

  /** The pieces of a message, put together. */
  function Concat(chunks: seq<seq<Byte>>): seq<Byte> {
    if chunks == [] then [] else Concat(chunks[..|chunks| - 1]) + chunks[|chunks| - 1]
  }

  /** Pieces of eight bytes each. */
  lemma {:induction false} ConcatEights(chunks: seq<seq<Byte>>)
    requires forall i :: 0 <= i < |chunks| ==> |chunks[i]| == 8
    ensures |Concat(chunks)| == 8 * |chunks|
    ensures forall i :: 0 <= i < |chunks| ==> Concat(chunks)[8 * i..8 * i + 8] == chunks[i]
  {
    if chunks != [] {
      var n := |chunks| - 1;
      ConcatEights(chunks[..n]);
      forall i | 0 <= i < |chunks| ensures Concat(chunks)[8 * i..8 * i + 8] == chunks[i] {
        EighthOf(Concat(chunks[..n]), chunks[n], n, i);
        if i < n { assert chunks[..n][i] == chunks[i]; }
      }
    }
  }

  lemma EighthOf(a: seq<Byte>, b: seq<Byte>, n: nat, i: nat)
    requires |a| == 8 * n && |b| == 8 && i <= n
    ensures (a + b)[8 * i..8 * i + 8] == if i < n then a[8 * i..8 * i + 8] else b
  {
  }

  lemma {:induction false} LeValueBound(b: seq<Byte>)
    ensures LeValue(b) < Pow2(8 * |b|)
  {
    if b != [] {
      LeValueBound(b[1..]);
      Pow2Step8(8 * |b[1..]|);
    } else {
      assert Pow2(0) == 1;
    }
  }

  /** Trailing zero bytes do not change the value. */
  lemma {:induction false} LeValuePadded(b: seq<Byte>, n: nat)
    ensures LeValue(b + Zeros(n)) == LeValue(b)
  {
    if b != [] {
      assert (b + Zeros(n))[1..] == b[1..] + Zeros(n);
      LeValuePadded(b[1..], n);
    } else if n > 0 {
      assert b + Zeros(n) == Zeros(n) && Zeros(n)[1..] == [] + Zeros(n - 1);
      LeValuePadded([], n - 1);
    }
  }

  lemma {:induction false} LeValueConcat(a: seq<Byte>, b: seq<Byte>)
    ensures LeValue(a + b) == LeValue(a) + Pow2(8 * |a|) * LeValue(b)
  {
    if a == [] {
      assert a + b == b;
      assert Pow2(0) == 1;
    } else {
      assert (a + b)[1..] == a[1..] + b;
      LeValueConcat(a[1..], b);
      Pow2Step8(8 * |a[1..]|);
      PrependByte(a[0], LeValue(a[1..]), Pow2(8 * |a[1..]|), LeValue(b));
      assert 8 * |a| == 8 * |a[1..]| + 8;
    }
  }

  lemma PrependByte(x: int, va: int, p: int, vb: int)
    ensures x + 0x100 * (va + p * vb) == x + 0x100 * va + (0x100 * p) * vb
  {
  }

  /** U8TO64_LE: the word in bytes at..at+8. */
  function WordAt(b: seq<Byte>, at: nat): (w: Word)
    requires at + 8 <= |b|
  {
    LeValueBound(b[at..at + 8]);
    Pow2Of64();
    LeValue(b[at..at + 8])
  }

  /** Byte k has the weight 2^(8k). */
  lemma WordOfBytes(b: seq<Byte>, at: nat)
    requires at + 8 <= |b|
    ensures WordAt(b, at)
         == Eight(b[at], b[at + 1], b[at + 2], b[at + 3], b[at + 4], b[at + 5], b[at + 6], b[at + 7])
  {
    hide LeValue;
    var w := b[at..at + 8];
    LeValueNil();
    FirstByte(w, 0);
    FirstByte(w, 1);
    FirstByte(w, 2);
    FirstByte(w, 3);
    FirstByte(w, 4);
    FirstByte(w, 5);
    FirstByte(w, 6);
    FirstByte(w, 7);
    assert w[0..] == w && w[8..] == [];
  }

  lemma FourBytes(b: seq<Byte>)
    requires |b| == 4
    ensures LeValue(b) == Eight(b[0], b[1], b[2], b[3], 0, 0, 0, 0)
  {
    hide LeValue;
    LeValueNil();
    FirstByte(b, 0);
    FirstByte(b, 1);
    FirstByte(b, 2);
    FirstByte(b, 3);
    assert b[0..] == b && b[4..] == [];
  }

  function Eight(b0: int, b1: int, b2: int, b3: int, b4: int, b5: int, b6: int, b7: int): int {
    b0 + 0x100 * b1 + 0x1_0000 * b2 + 0x100_0000 * b3 + 0x1_0000_0000 * b4 + 0x100_0000_0000 * b5
    + 0x1_0000_0000_0000 * b6 + 0x100_0000_0000_0000 * b7
  }

  lemma FirstByte(b: seq<Byte>, i: nat)
    requires i < |b|
    ensures LeValue(b[i..]) == b[i] + 0x100 * LeValue(b[i + 1..])
  {
    assert b[i..][1..] == b[i + 1..];
  }

  lemma WordStep(b: seq<Byte>, at: nat)
    requires at + 8 <= |b|
    ensures LeValue(b[at..]) == WordAt(b, at) + 0x1_0000_0000_0000_0000 * LeValue(b[at + 8..])
  {
    assert b[at..] == b[at..at + 8] + b[at + 8..];
    LeValueConcat(b[at..at + 8], b[at + 8..]);
    Pow2Of64();
  }

  /** The n low bytes of w, lowest first. */
  function ToBytes(w: nat, n: nat): (b: seq<Byte>)
    ensures |b| == n
  {
    if n == 0 then [] else [w % 0x100] + ToBytes(w / 0x100, n - 1)
  }

  lemma {:induction false} ToBytesValue(w: nat, n: nat)
    requires w < Pow2(8 * n)
    ensures LeValue(ToBytes(w, n)) == w
  {
    if n == 0 {
      assert Pow2(0) == 1;
    } else {
      Pow2Step8(8 * (n - 1));
      ToBytesValue(w / 0x100, n - 1);
      assert ToBytes(w, n)[1..] == ToBytes(w / 0x100, n - 1);
    }
  }

  /** Equal values of equal length are equal strings. */
  lemma {:induction false} LeValueInjective(a: seq<Byte>, b: seq<Byte>)
    requires |a| == |b| && LeValue(a) == LeValue(b)
    ensures a == b
  {
    if a != [] {
      LeValueInjective(a[1..], b[1..]);
      assert a == [a[0]] + a[1..] && b == [b[0]] + b[1..];
    }
  }

  /** The value of four words. */
  function Words4(x0: int, x1: int, x2: int, x3: int): int {
    x0 + 0x1_0000_0000_0000_0000 * (x1 + 0x1_0000_0000_0000_0000 * (x2 + 0x1_0000_0000_0000_0000 * x3))
  }

  lemma Words4Value(b: seq<Byte>)
    requires |b| == 32
    ensures Words4(WordAt(b, 0), WordAt(b, 8), WordAt(b, 16), WordAt(b, 24)) == LeValue(b)
  {
    hide WordAt, LeValue;
    assert b[0..] == b && b[32..] == [];
    LeValueNil();
    WordStep(b, 0);
    WordStep(b, 8);
    WordStep(b, 16);
    WordStep(b, 24);
  }

  /** The bytes of four words, one after the other. */
  lemma BytesOfWords(f0: Word, f1: Word, f2: Word, f3: Word)
    ensures LeValue(ToBytes(f0, 8) + ToBytes(f1, 8) + ToBytes(f2, 8) + ToBytes(f3, 8)) == Words4(f0, f1, f2, f3)
  {
    hide ToBytes, LeValue, Pow2;
    Pow2Of64();
    var b0, b1, b2, b3 := ToBytes(f0, 8), ToBytes(f1, 8), ToBytes(f2, 8), ToBytes(f3, 8);
    ToBytesValue(f0, 8);
    ToBytesValue(f1, 8);
    ToBytesValue(f2, 8);
    ToBytesValue(f3, 8);
    assert b0 + b1 + b2 + b3 == b0 + (b1 + (b2 + b3));
    LeValueConcat(b0, b1 + (b2 + b3));
    LeValueConcat(b1, b2 + b3);
    LeValueConcat(b2, b3);
  }
}
