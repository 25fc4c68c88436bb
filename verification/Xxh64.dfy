/** XXH64: the one-shot form and the digest of a stream compute one function of the bytes. */
module Xxh64 {
  import opened Words
  import opened Bytes
  import opened Bitwise
  import opened XxhStream

  const PRIME_1: Word := 11400714785074694791
  const PRIME_2: Word := 14029467366897019727
  const PRIME_3: Word := 1609587929392839161
  const PRIME_4: Word := 9650029242287828579
  const PRIME_5: Word := 2870177450012600261

  /** XXH_rotl64: the two shifted parts do not meet, so their union is their sum. */
  function Rotl(x: Word, r: nat): Word
    requires r <= 64
  {
    Wrap(Wrap(x * Pow2(r)) + x / Pow2(64 - r))
  }

  function Start64(seed: Word): Lanes<Word> {
    Lanes(Wrap(seed + PRIME_1 + PRIME_2), Wrap(seed + PRIME_2), seed, Wrap(seed as int - PRIME_1))
  }

  function Round(v: Word, w: Word): Word { Wrap(Rotl(Wrap(v + w * PRIME_2), 31) * PRIME_1) }

  /** One stripe of 32 bytes. */
  function Step64(v: Lanes<Word>, s: seq<Byte>): Lanes<Word> {
    if |s| != 32 then v
    else Lanes(Round(v.v1, WordAt(s, 0)), Round(v.v2, WordAt(s, 8)), Round(v.v3, WordAt(s, 16)), Round(v.v4, WordAt(s, 24)))
  }

  function Scramble(k: Word): Word { Wrap(Rotl(Wrap(k * PRIME_2), 31) * PRIME_1) }
  function Merge(h: Word, v: Word): Word { Wrap(XorWord(h, Scramble(v)) * PRIME_1 + PRIME_4) }

  function Converge(v: Lanes<Word>): Word {
    var h := Wrap(Rotl(v.v1, 1) + Rotl(v.v2, 7) + Rotl(v.v3, 12) + Rotl(v.v4, 18));
    Merge(Merge(Merge(Merge(h, v.v1), v.v2), v.v3), v.v4)
  }

  function Eat8(h: Word, w: Word): Word { Wrap(Rotl(XorWord(h, Scramble(w)), 27) * PRIME_1 + PRIME_4) }
  function Eat4(h: Word, w: nat): Word { Wrap(Rotl(XorWord(h, Wrap(w * PRIME_1)), 23) * PRIME_2 + PRIME_3) }
  function Eat1(h: Word, b: Byte): Word { Wrap(Rotl(XorWord(h, Wrap(b * PRIME_5)), 11) * PRIME_1) }

  /** The words, the half word and the bytes of the rest. */
  function EatRest(h: Word, d: seq<Byte>): Word
    decreases |d|
  {
    hide Eat8, Eat4, Eat1;
    if |d| >= 8 then EatRest(Eat8(h, WordAt(d, 0)), d[8..])
    else if |d| >= 4 then EatBytes(Eat4(h, LeValue(d[..4])), d[4..])
    else EatBytes(h, d)
  }

  function EatBytes(h: Word, d: seq<Byte>): Word
    decreases |d|
  {
    hide Eat1;
    if d == [] then h else EatBytes(Eat1(h, d[0]), d[1..])
  }

  function Avalanche(h: Word): Word {
    var h := Wrap(XorWord(h, h / 0x2_0000_0000) * PRIME_2);
    var h := Wrap(XorWord(h, h / 0x2000_0000) * PRIME_3);
    XorWord(h, h / 0x1_0000_0000)
  }

  function Short(seed: Word): Word { Wrap(seed + PRIME_5) }
  function AddLength(h: Word, total: Word): Word { Wrap(h + total) }

  /** The hash of the lanes, the length and the rest. */
  function Finish(seed: Word, v: Lanes<Word>, long: bool, total: Word, rest: seq<Byte>): Word {
    hide Converge, EatRest, Avalanche, Short, AddLength;
    Avalanche(EatRest(AddLength(if long then Converge(v) else Short(seed), total), rest))
  }

  /** XXH64 as a function of the bytes. */
  function Xxh64(d: seq<Byte>, seed: Word): Word {
    hide Start64, Step64, Finish;
    Finish(seed, Fold(Step64, 32, Start64(seed), d), |d| >= 32, Wrap(|d|), Rest(32, d))
  }

  /** XXH64 in one call. */
  method Hash(input: seq<Byte>, seed: Word) returns (h: Word)
    ensures h == Xxh64(input, seed)
  {
    hide WordAt, Rotl, XorWord, Wrap, LeValue, Rest, Start64, Step64, Converge, EatRest, EatBytes;
    var p := input;
    if |input| >= 32 {
      var v1: Word, v2: Word := Wrap(seed + PRIME_1 + PRIME_2), Wrap(seed + PRIME_2);
      var v3: Word, v4: Word := seed, Wrap(seed as int - PRIME_1);
      StartIs(seed);
      while |p| >= 32
        invariant Fold(Step64, 32, Start64(seed), input) == Fold(Step64, 32, Lanes(v1, v2, v3, v4), p)
        invariant Rest(32, input) == Rest(32, p)
        decreases |p|
      {
        RestStep(32, p);
        StepIs(Lanes(v1, v2, v3, v4), p);
        v1 := Wrap(v1 + WordAt(p, 0) * PRIME_2);
        v1 := Rotl(v1, 31);
        v1 := Wrap(v1 * PRIME_1);
        v2 := Wrap(v2 + WordAt(p, 8) * PRIME_2);
        v2 := Rotl(v2, 31);
        v2 := Wrap(v2 * PRIME_1);
        v3 := Wrap(v3 + WordAt(p, 16) * PRIME_2);
        v3 := Rotl(v3, 31);
        v3 := Wrap(v3 * PRIME_1);
        v4 := Wrap(v4 + WordAt(p, 24) * PRIME_2);
        v4 := Rotl(v4, 31);
        v4 := Wrap(v4 * PRIME_1);
        p := p[32..];
      }
      ConvergeIs(Lanes(v1, v2, v3, v4));
      h := Wrap(Rotl(v1, 1) + Rotl(v2, 7) + Rotl(v3, 12) + Rotl(v4, 18));
      v1 := Wrap(v1 * PRIME_2);
      v1 := Rotl(v1, 31);
      v1 := Wrap(v1 * PRIME_1);
      h := XorWord(h, v1);
      h := Wrap(h * PRIME_1 + PRIME_4);
      v2 := Wrap(v2 * PRIME_2);
      v2 := Rotl(v2, 31);
      v2 := Wrap(v2 * PRIME_1);
      h := XorWord(h, v2);
      h := Wrap(h * PRIME_1 + PRIME_4);
      v3 := Wrap(v3 * PRIME_2);
      v3 := Rotl(v3, 31);
      v3 := Wrap(v3 * PRIME_1);
      h := XorWord(h, v3);
      h := Wrap(h * PRIME_1 + PRIME_4);
      v4 := Wrap(v4 * PRIME_2);
      v4 := Rotl(v4, 31);
      v4 := Wrap(v4 * PRIME_1);
      h := XorWord(h, v4);
      h := Wrap(h * PRIME_1 + PRIME_4);
    } else {
      h := Wrap(seed + PRIME_5);
    }
    RestShort(32, p);
    LengthIs(h, |input|);
    h := Wrap(h + |input|);
    ghost var start, rest := h, p;
    while |p| >= 8
      invariant EatRest(h, p) == EatRest(start, rest)
      decreases |p|
    {
      RestIs(h, p);
      var k1 := WordAt(p, 0);
      k1 := Wrap(k1 * PRIME_2);
      k1 := Rotl(k1, 31);
      k1 := Wrap(k1 * PRIME_1);
      h := XorWord(h, k1);
      h := Wrap(Rotl(h, 27) * PRIME_1 + PRIME_4);
      p := p[8..];
    }
    RestIs(h, p);
    if |p| >= 4 {
      h := XorWord(h, Wrap(LeValue(p[..4]) * PRIME_1));
      h := Wrap(Rotl(h, 23) * PRIME_2 + PRIME_3);
      p := p[4..];
    }
    while p != []
      invariant EatBytes(h, p) == EatRest(start, rest)
      decreases |p|
    {
      BytesAre(h, p);
      h := XorWord(h, Wrap(p[0] * PRIME_5));
      h := Wrap(Rotl(h, 11) * PRIME_1);
      p := p[1..];
    }
    BytesAre(h, p);
    h := XorWord(h, h / 0x2_0000_0000);
    h := Wrap(h * PRIME_2);
    h := XorWord(h, h / 0x2000_0000);
    h := Wrap(h * PRIME_3);
    h := XorWord(h, h / 0x1_0000_0000);
  }

  // What the arithmetic of the two forms amounts to.

  lemma StartIs(seed: Word)
    ensures Start64(seed)
         == Lanes(Wrap(seed + PRIME_1 + PRIME_2), Wrap(seed + PRIME_2), seed, Wrap(seed as int - PRIME_1))
  {
  }

  lemma StepIs(v: Lanes<Word>, p: seq<Byte>)
    requires |p| >= 32
    ensures Step64(v, p[..32]) == Lanes(Round(v.v1, WordAt(p, 0)), Round(v.v2, WordAt(p, 8)),
                                        Round(v.v3, WordAt(p, 16)), Round(v.v4, WordAt(p, 24)))
  {
    hide Round, LeValue;
    assert p[..32][0..8] == p[0..8] && p[..32][8..16] == p[8..16];
    assert p[..32][16..24] == p[16..24] && p[..32][24..32] == p[24..32];
  }

  lemma ConvergeIs(v: Lanes<Word>)
    ensures var h := Wrap(Rotl(v.v1, 1) + Rotl(v.v2, 7) + Rotl(v.v3, 12) + Rotl(v.v4, 18));
            Converge(v) == Merge(Merge(Merge(Merge(h, v.v1), v.v2), v.v3), v.v4)
  {
    hide Rotl, Merge;
  }

  lemma LengthIs(h: Word, n: nat)
    ensures AddLength(h, Wrap(n)) == Wrap(h + n)
  {
  }

  lemma RestIs(h: Word, d: seq<Byte>)
    ensures EatRest(h, d) == if |d| >= 8 then EatRest(Eat8(h, WordAt(d, 0)), d[8..])
                             else if |d| >= 4 then EatBytes(Eat4(h, LeValue(d[..4])), d[4..])
                             else EatBytes(h, d)
  {
    hide Eat8, Eat4, Eat1;
  }

  lemma BytesAre(h: Word, d: seq<Byte>)
    ensures EatBytes(h, d) == if d == [] then h else EatBytes(Eat1(h, d[0]), d[1..])
  {
    hide Eat1;
  }

  /**
   * What a stream yields after the bytes d.  The length is kept modulo 2^64: when that count has
   * wrapped to less than a stripe, the whole stripes are forgotten and only the rest is hashed.
   */
  function Digested(d: seq<Byte>, seed: Word): Word {
    Xxh64(if Wrap(|d|) >= 32 then d else Rest(32, d), seed)
  }

  /** h is what the stream yields, and it is the hash of d provided the length kept tells long from short. */
  ghost predicate HashOf(h: Word, d: seq<Byte>, seed: Word) {
    h == Digested(d, seed) && ((|d| >= 32 ==> Wrap(|d|) >= 32) ==> h == Xxh64(d, seed))
  }

  /** All messages of 2^64 bytes have the digest of the empty one. */
  lemma WrappedDigest(d: seq<Byte>, seed: Word)
    requires |d| == 0x1_0000_0000_0000_0000
    ensures Digested(d, seed) == Xxh64([], seed)
  {
    hide Xxh64, Rest;
    RestLength(32, d);
  }

  /** With a short count the lanes do not matter, and the count is the length of the rest. */
  lemma ShortCount(d: seq<Byte>, v: Lanes<Word>, seed: Word)
    requires Wrap(|d|) < 32
    ensures Finish(seed, v, false, Wrap(|d|), Rest(32, d)) == Xxh64(Rest(32, d), seed)
  {
    hide Start64, Step64, Converge, EatRest, Avalanche, Short, AddLength, Rest, Fold, Wrap;
    RestLength(32, d);
    RestShort(32, Rest(32, d));
    WrapShort(|d|, 32);
  }

  /** An XXH64 stream. */
  ghost predicate Is64(s: State<Word>) { s.size == 32 && s.start == Start64 && s.step == Step64 }

  /** XXH64_digest reads the state only, so the stream may go on. */
  method Digest(s: State<Word>) returns (h: Word)
    requires s.Valid() && Is64(s)
    ensures HashOf(h, s.data, s.seed)
  {
    hide WordAt, Rotl, XorWord, Wrap, LeValue, Rest, Start64, Step64, Converge, EatRest, EatBytes, Fold, Digested;
    FoldCut(Step64, 32, Start64(s.seed), s.data, |s.data| - s.memsize);
    var p := s.mem[..s.memsize];
    if s.total >= 32 {
      var v1, v2, v3, v4 := s.v.v1, s.v.v2, s.v.v3, s.v.v4;
      ConvergeIs(s.v);
      h := Wrap(Rotl(v1, 1) + Rotl(v2, 7) + Rotl(v3, 12) + Rotl(v4, 18));
      v1 := Wrap(v1 * PRIME_2);
      v1 := Rotl(v1, 31);
      v1 := Wrap(v1 * PRIME_1);
      h := XorWord(h, v1);
      h := Wrap(h * PRIME_1 + PRIME_4);
      v2 := Wrap(v2 * PRIME_2);
      v2 := Rotl(v2, 31);
      v2 := Wrap(v2 * PRIME_1);
      h := XorWord(h, v2);
      h := Wrap(h * PRIME_1 + PRIME_4);
      v3 := Wrap(v3 * PRIME_2);
      v3 := Rotl(v3, 31);
      v3 := Wrap(v3 * PRIME_1);
      h := XorWord(h, v3);
      h := Wrap(h * PRIME_1 + PRIME_4);
      v4 := Wrap(v4 * PRIME_2);
      v4 := Rotl(v4, 31);
      v4 := Wrap(v4 * PRIME_1);
      h := XorWord(h, v4);
      h := Wrap(h * PRIME_1 + PRIME_4);
    } else {
      h := Wrap(s.seed + PRIME_5);
    }
    h := Wrap(h + s.total);
    ghost var start, rest := h, p;
    while |p| >= 8
      invariant EatRest(h, p) == EatRest(start, rest)
      decreases |p|
    {
      RestIs(h, p);
      var k1 := WordAt(p, 0);
      k1 := Wrap(k1 * PRIME_2);
      k1 := Rotl(k1, 31);
      k1 := Wrap(k1 * PRIME_1);
      h := XorWord(h, k1);
      h := Wrap(Rotl(h, 27) * PRIME_1 + PRIME_4);
      p := p[8..];
    }
    RestIs(h, p);
    if |p| >= 4 {
      h := XorWord(h, Wrap(LeValue(p[..4]) * PRIME_1));
      h := Wrap(Rotl(h, 23) * PRIME_2 + PRIME_3);
      p := p[4..];
    }
    while p != []
      invariant EatBytes(h, p) == EatRest(start, rest)
      decreases |p|
    {
      BytesAre(h, p);
      h := XorWord(h, Wrap(p[0] * PRIME_5));
      h := Wrap(Rotl(h, 11) * PRIME_1);
      p := p[1..];
    }
    BytesAre(h, p);
    h := XorWord(h, h / 0x2_0000_0000);
    h := Wrap(h * PRIME_2);
    h := XorWord(h, h / 0x2000_0000);
    h := Wrap(h * PRIME_3);
    h := XorWord(h, h / 0x1_0000_0000);
    DigestIs(s.data, s.v, s.seed, h);
  }

  /** The value computed is what the stream yields. */
  lemma DigestIs(d: seq<Byte>, v: Lanes<Word>, seed: Word, h: Word)
    requires v == Fold(Step64, 32, Start64(seed), d)
    requires h == Finish(seed, v, Wrap(|d|) >= 32, Wrap(|d|), Rest(32, d))
    ensures HashOf(h, d, seed)
  {
    hide Start64, Step64, Finish, Rest, Fold;
    if Wrap(|d|) < 32 {
      ShortCount(d, v, seed);
      if |d| < 32 { RestShort(32, d); }
    }
  }

  /** hashes[j] is the hash of the first j chunks. */
  ghost predicate HashesOf(hashes: seq<Word>, chunks: seq<seq<Byte>>, seed: Word) {
    |hashes| <= |chunks| + 1 && forall j :: 0 <= j < |hashes| ==> HashOf(hashes[j], Concat(chunks[..j]), seed)
  }

  lemma OneMore(hashes: seq<Word>, h: Word, chunks: seq<seq<Byte>>, seed: Word)
    requires HashesOf(hashes, chunks, seed) && |hashes| <= |chunks| && HashOf(h, Concat(chunks[..|hashes|]), seed)
    ensures HashesOf(hashes + [h], chunks, seed)
  {
    hide HashOf, Concat;
  }

  /** Reset, any updates, and a digest after each: every digest is the one-shot hash so far. */
  method HashChunks(s: State<Word>, chunks: seq<seq<Byte>>, seed: Word) returns (hashes: seq<Word>)
    requires Is64(s) && s.mem.Length == 32
    modifies s, s.mem
    ensures |hashes| == |chunks| + 1 && HashesOf(hashes, chunks, seed)
  {
    hide HashOf, HashesOf, Finish, Fold, Rest, Wrap, Whole;
    s.Reset(seed);
    var h := Digest(s);
    hashes := [h];
    NoChunks(h, chunks, seed);
    for i := 0 to |chunks|
      invariant s.Valid() && s.seed == seed && s.data == Concat(chunks[..i])
      invariant |hashes| == i + 1 && HashesOf(hashes, chunks, seed)
    {
      s.Update(chunks[i]);
      assert chunks[..i + 1][..i] == chunks[..i];
      h := Digest(s);
      OneMore(hashes, h, chunks, seed);
      hashes := hashes + [h];
    }
  }

  lemma NoChunks(h: Word, chunks: seq<seq<Byte>>, seed: Word)
    requires HashOf(h, [], seed)
    ensures HashesOf([h], chunks, seed)
  {
    hide HashOf;
    assert chunks[..0] == [];
  }
}
