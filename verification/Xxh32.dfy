/** XXH32: the one-shot form and the digest of a stream compute one function of the bytes. */
module Xxh32 {
  import opened Words
  import opened Bytes
  import opened Bitwise
  import opened XxhStream

  /** An unsigned 32-bit word. */
  type Word32 = x: nat | x < 0x1_0000_0000

  const PRIME_1: Word32 := 2654435761
  const PRIME_2: Word32 := 2246822519
  const PRIME_3: Word32 := 3266489917
  const PRIME_4: Word32 := 668265263
  const PRIME_5: Word32 := 374761393

  /** XXH_rotl32: the two shifted parts do not meet, so their union is their sum. */
  function Rotl(x: Word32, r: nat): Word32
    requires r <= 32
  {
    Wrap32(Wrap32(x * Pow2(r)) + x / Pow2(32 - r))
  }

  function Xor32(x: Word32, y: Word32): Word32 {
    Pow2Of32();
    XorBound(x, y, 32);
    Xor(x, y)
  }

  /** XXH_readLE32 */
  function Read(b: seq<Byte>, at: nat): Word32
    requires at + 4 <= |b|
  {
    Pow2Of32();
    LeValueBound(b[at..at + 4]);
    LeValue(b[at..at + 4])
  }

  function Start32(seed: Word32): Lanes<Word32> {
    Lanes(Wrap32(seed + PRIME_1 + PRIME_2), Wrap32(seed + PRIME_2), seed, Wrap32(seed as int - PRIME_1))
  }

  function Round(v: Word32, w: Word32): Word32 { Wrap32(Rotl(Wrap32(v + w * PRIME_2), 13) * PRIME_1) }

  /** One stripe of 16 bytes. */
  function Step32(v: Lanes<Word32>, s: seq<Byte>): Lanes<Word32> {
    if |s| != 16 then v
    else Lanes(Round(v.v1, Read(s, 0)), Round(v.v2, Read(s, 4)), Round(v.v3, Read(s, 8)), Round(v.v4, Read(s, 12)))
  }

  function Converge(v: Lanes<Word32>): Word32 {
    Wrap32(Rotl(v.v1, 1) + Rotl(v.v2, 7) + Rotl(v.v3, 12) + Rotl(v.v4, 18))
  }

  function Eat4(h: Word32, w: Word32): Word32 { Wrap32(Rotl(Wrap32(h + w * PRIME_3), 17) * PRIME_4) }
  function Eat1(h: Word32, b: Byte): Word32 { Wrap32(Rotl(Wrap32(h + b * PRIME_5), 11) * PRIME_1) }

  /** The words and the bytes of the rest. */
  function EatRest(h: Word32, d: seq<Byte>): Word32
    decreases |d|
  {
    hide Eat4, Eat1;
    if |d| >= 4 then EatRest(Eat4(h, Read(d, 0)), d[4..])
    else EatBytes(h, d)
  }

  function EatBytes(h: Word32, d: seq<Byte>): Word32
    decreases |d|
  {
    hide Eat1;
    if d == [] then h else EatBytes(Eat1(h, d[0]), d[1..])
  }

  function Avalanche(h: Word32): Word32 {
    var h := Wrap32(Xor32(h, h / 0x8000) * PRIME_2);
    var h := Wrap32(Xor32(h, h / 0x2000) * PRIME_3);
    Xor32(h, h / 0x1_0000)
  }

  function Short(seed: Word32): Word32 { Wrap32(seed + PRIME_5) }
  function AddLength(h: Word32, total: Word): Word32 { Wrap32(h + total) }

  /** The hash of the lanes, the length and the rest. */
  function Finish(seed: Word32, v: Lanes<Word32>, long: bool, total: Word, rest: seq<Byte>): Word32 {
    hide Converge, EatRest, Avalanche, Short, AddLength;
    Avalanche(EatRest(AddLength(if long then Converge(v) else Short(seed), total), rest))
  }

  /** XXH32 as a function of the bytes. */
  function Xxh32(d: seq<Byte>, seed: Word32): Word32 {
    hide Start32, Step32, Finish;
    Finish(seed, Fold(Step32, 16, Start32(seed), d), |d| >= 16, Wrap(|d|), Rest(16, d))
  }

  /** XXH32 in one call. */
  method Hash(input: seq<Byte>, seed: Word32) returns (h: Word32)
    ensures h == Xxh32(input, seed)
  {
    hide Read, Rotl, Xor32, Wrap, Wrap32, LeValue, Rest, Start32, Step32, EatRest, EatBytes;
    var p := input;
    if |input| >= 16 {
      var v1: Word32, v2: Word32 := Wrap32(seed + PRIME_1 + PRIME_2), Wrap32(seed + PRIME_2);
      var v3: Word32, v4: Word32 := seed, Wrap32(seed as int - PRIME_1);
      StartIs(seed);
      while |p| >= 16
        invariant Fold(Step32, 16, Start32(seed), input) == Fold(Step32, 16, Lanes(v1, v2, v3, v4), p)
        invariant Rest(16, input) == Rest(16, p)
        decreases |p|
      {
        RestStep(16, p);
        StepIs(Lanes(v1, v2, v3, v4), p);
        v1 := Wrap32(v1 + Read(p, 0) * PRIME_2);
        v1 := Rotl(v1, 13);
        v1 := Wrap32(v1 * PRIME_1);
        v2 := Wrap32(v2 + Read(p, 4) * PRIME_2);
        v2 := Rotl(v2, 13);
        v2 := Wrap32(v2 * PRIME_1);
        v3 := Wrap32(v3 + Read(p, 8) * PRIME_2);
        v3 := Rotl(v3, 13);
        v3 := Wrap32(v3 * PRIME_1);
        v4 := Wrap32(v4 + Read(p, 12) * PRIME_2);
        v4 := Rotl(v4, 13);
        v4 := Wrap32(v4 * PRIME_1);
        p := p[16..];
      }
      h := Wrap32(Rotl(v1, 1) + Rotl(v2, 7) + Rotl(v3, 12) + Rotl(v4, 18));
    } else {
      h := Wrap32(seed + PRIME_5);
    }
    RestShort(16, p);
    LengthIs(h, |input|);
    h := Wrap32(h + |input|);
    ghost var start, rest := h, p;
    while |p| >= 4
      invariant EatRest(h, p) == EatRest(start, rest)
      decreases |p|
    {
      RestIs(h, p);
      h := Wrap32(h + Read(p, 0) * PRIME_3);
      h := Wrap32(Rotl(h, 17) * PRIME_4);
      p := p[4..];
    }
    RestIs(h, p);
    while p != []
      invariant EatBytes(h, p) == EatRest(start, rest)
      decreases |p|
    {
      BytesAre(h, p);
      h := Wrap32(h + p[0] * PRIME_5);
      h := Wrap32(Rotl(h, 11) * PRIME_1);
      p := p[1..];
    }
    BytesAre(h, p);
    h := Xor32(h, h / 0x8000);
    h := Wrap32(h * PRIME_2);
    h := Xor32(h, h / 0x2000);
    h := Wrap32(h * PRIME_3);
    h := Xor32(h, h / 0x1_0000);
  }

  // What the arithmetic of the two forms amounts to.

  lemma StartIs(seed: Word32)
    ensures Start32(seed)
         == Lanes(Wrap32(seed + PRIME_1 + PRIME_2), Wrap32(seed + PRIME_2), seed, Wrap32(seed as int - PRIME_1))
  {
  }

  lemma StepIs(v: Lanes<Word32>, p: seq<Byte>)
    requires |p| >= 16
    ensures Step32(v, p[..16]) == Lanes(Round(v.v1, Read(p, 0)), Round(v.v2, Read(p, 4)),
                                        Round(v.v3, Read(p, 8)), Round(v.v4, Read(p, 12)))
  {
    hide Round, LeValue;
    assert p[..16][0..4] == p[0..4] && p[..16][4..8] == p[4..8];
    assert p[..16][8..12] == p[8..12] && p[..16][12..16] == p[12..16];
  }

  lemma LengthIs(h: Word32, n: nat)
    ensures AddLength(h, Wrap(n)) == Wrap32(h + n)
  {
    WrapTwice(n);
    Wrap32Add(h, Wrap(n));
    Wrap32Add(h, n);
  }

  lemma WrapTwice(n: nat)
    ensures Wrap32(Wrap(n)) == Wrap32(n)
  {
    var k := n / 0x1_0000_0000_0000_0000;
    assert n == 0x1_0000_0000 * (0x1_0000_0000 * k) + Wrap(n);
  }

  lemma Wrap32Add(h: Word32, n: nat)
    ensures Wrap32(h + n) == Wrap32(h + Wrap32(n))
  {
  }

  lemma RestIs(h: Word32, d: seq<Byte>)
    ensures EatRest(h, d) == if |d| >= 4 then EatRest(Eat4(h, Read(d, 0)), d[4..]) else EatBytes(h, d)
  {
    hide Eat4, Eat1;
  }

  lemma BytesAre(h: Word32, d: seq<Byte>)
    ensures EatBytes(h, d) == if d == [] then h else EatBytes(Eat1(h, d[0]), d[1..])
  {
    hide Eat1;
  }

  /**
   * What a stream yields after the bytes d.  The length is kept modulo 2^64: when that count has
   * wrapped to less than a stripe, the whole stripes are forgotten and only the rest is hashed.
   */
  function Digested(d: seq<Byte>, seed: Word32): Word32 {
    Xxh32(if Wrap(|d|) >= 16 then d else Rest(16, d), seed)
  }

  /** h is what the stream yields, and it is the hash of d provided the length kept tells long from short. */
  ghost predicate HashOf(h: Word32, d: seq<Byte>, seed: Word32) {
    h == Digested(d, seed) && ((|d| >= 16 ==> Wrap(|d|) >= 16) ==> h == Xxh32(d, seed))
  }

  /** All messages of 2^64 bytes have the digest of the empty one. */
  lemma WrappedDigest(d: seq<Byte>, seed: Word32)
    requires |d| == 0x1_0000_0000_0000_0000
    ensures Digested(d, seed) == Xxh32([], seed)
  {
    hide Xxh32, Rest;
    RestLength(16, d);
  }

  /** With a short count the lanes do not matter, and the count is the length of the rest. */
  lemma ShortCount(d: seq<Byte>, v: Lanes<Word32>, seed: Word32)
    requires Wrap(|d|) < 16
    ensures Finish(seed, v, false, Wrap(|d|), Rest(16, d)) == Xxh32(Rest(16, d), seed)
  {
    hide Start32, Step32, Converge, EatRest, Avalanche, Short, AddLength, Rest, Fold, Wrap;
    RestLength(16, d);
    RestShort(16, Rest(16, d));
    WrapShort(|d|, 16);
  }

  /** An XXH32 stream. */
  ghost predicate Is32(s: State<Word32>) { s.size == 16 && s.start == Start32 && s.step == Step32 }

  /** XXH32_digest reads the state only, so the stream may go on. */
  method Digest(s: State<Word32>) returns (h: Word32)
    requires s.Valid() && Is32(s)
    ensures HashOf(h, s.data, s.seed)
  {
    hide Read, Rotl, Xor32, Wrap, Wrap32, LeValue, Rest, Start32, Step32, EatRest, EatBytes, Fold, Digested;
    FoldCut(Step32, 16, Start32(s.seed), s.data, |s.data| - s.memsize);
    var p := s.mem[..s.memsize];
    if s.total >= 16 {
      h := Wrap32(Rotl(s.v.v1, 1) + Rotl(s.v.v2, 7) + Rotl(s.v.v3, 12) + Rotl(s.v.v4, 18));
    } else {
      h := Wrap32(s.seed + PRIME_5);
    }
    h := Wrap32(h + s.total);
    ghost var start, rest := h, p;
    while |p| >= 4
      invariant EatRest(h, p) == EatRest(start, rest)
      decreases |p|
    {
      RestIs(h, p);
      h := Wrap32(h + Read(p, 0) * PRIME_3);
      h := Wrap32(Rotl(h, 17) * PRIME_4);
      p := p[4..];
    }
    RestIs(h, p);
    while p != []
      invariant EatBytes(h, p) == EatRest(start, rest)
      decreases |p|
    {
      BytesAre(h, p);
      h := Wrap32(h + p[0] * PRIME_5);
      h := Wrap32(Rotl(h, 11) * PRIME_1);
      p := p[1..];
    }
    BytesAre(h, p);
    h := Xor32(h, h / 0x8000);
    h := Wrap32(h * PRIME_2);
    h := Xor32(h, h / 0x2000);
    h := Wrap32(h * PRIME_3);
    h := Xor32(h, h / 0x1_0000);
    DigestIs(s.data, s.v, s.seed, h);
  }

  /** The value computed is what the stream yields. */
  lemma DigestIs(d: seq<Byte>, v: Lanes<Word32>, seed: Word32, h: Word32)
    requires v == Fold(Step32, 16, Start32(seed), d)
    requires h == Finish(seed, v, Wrap(|d|) >= 16, Wrap(|d|), Rest(16, d))
    ensures HashOf(h, d, seed)
  {
    hide Start32, Step32, Finish, Rest, Fold;
    if Wrap(|d|) < 16 {
      ShortCount(d, v, seed);
      if |d| < 16 { RestShort(16, d); }
    }
  }

  /** hashes[j] is the hash of the first j chunks. */
  ghost predicate HashesOf(hashes: seq<Word32>, chunks: seq<seq<Byte>>, seed: Word32) {
    |hashes| <= |chunks| + 1 && forall j :: 0 <= j < |hashes| ==> HashOf(hashes[j], Concat(chunks[..j]), seed)
  }

  lemma OneMore(hashes: seq<Word32>, h: Word32, chunks: seq<seq<Byte>>, seed: Word32)
    requires HashesOf(hashes, chunks, seed) && |hashes| <= |chunks| && HashOf(h, Concat(chunks[..|hashes|]), seed)
    ensures HashesOf(hashes + [h], chunks, seed)
  {
    hide HashOf, Concat;
  }

  /** Reset, any updates, and a digest after each: every digest is the one-shot hash so far. */
  method HashChunks(s: State<Word32>, chunks: seq<seq<Byte>>, seed: Word32) returns (hashes: seq<Word32>)
    requires Is32(s) && s.mem.Length == 16
    modifies s, s.mem
    ensures |hashes| == |chunks| + 1 && HashesOf(hashes, chunks, seed)
  {
    hide HashOf, HashesOf, Finish, Fold, Rest, Wrap, Whole;
    s.Reset(seed);
    var h := Digest(s);
    hashes := [h];
    NoChunks(h, chunks, seed);
    for i := 0 to |chunks|
      invariant s.Valid() && s.seed == seed && s.data == Concat(chunks[..i])
      invariant |hashes| == i + 1 && HashesOf(hashes, chunks, seed)
    {
      s.Update(chunks[i]);
      assert chunks[..i + 1][..i] == chunks[..i];
      h := Digest(s);
      OneMore(hashes, h, chunks, seed);
      hashes := hashes + [h];
    }
  }

  lemma NoChunks(h: Word32, chunks: seq<seq<Byte>>, seed: Word32)
    requires HashOf(h, [], seed)
    ensures HashesOf([h], chunks, seed)
  {
    hide HashOf;
    assert chunks[..0] == [];
  }
}
