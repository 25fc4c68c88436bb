/**
 * Streaming BLAKE2b: a state that buffers up to one block and compresses it only when more
 * input follows, proved equal to the padded-block computation of section 3.3 of RFC 7693.
 */
module Blake2b {
  import opened Words
  import opened Bytes
  import opened Blake2bCompress

  const OUTBYTES := 64
  const KEYBYTES := 64

  /** A finalisation flag: all ones when set. */
  function Flag(f: bool): bv64 { if f then 0xffff_ffff_ffff_ffff else 0 }

  /** The compression of one block that ends at byte t of the input, under the two flags. */
  function F(h: Chain, b: Block, t: nat, f0: bool, f1: bool): Chain {
    Compress(h, b, t % 0x1_0000_0000_0000_0000, t / 0x1_0000_0000_0000_0000 % 0x1_0000_0000_0000_0000, Flag(f0), Flag(f1))
  }

  function Padded(d: seq<Byte>): Block
    requires |d| <= BLOCKBYTES
  {
    d + Zeros(BLOCKBYTES - |d|)
  }

  /**
   * Section 3.3 of RFC 7693, on the data after the first t bytes: every block but the last is
   * compressed with the running byte count; the last one, which may be partial or empty, is
   * padded with zeros and compressed with the total count and the final flag.
   */
  function RfcDigest(h: Chain, d: seq<Byte>, t: nat, lastNode: bool): Chain
    decreases |d|
  {
    if |d| > BLOCKBYTES then
      RfcDigest(F(h, d[..BLOCKBYTES], t + BLOCKBYTES, false, false), d[BLOCKBYTES..], t + BLOCKBYTES, lastNode)
    else F(h, Padded(d), t + |d|, true, lastNode)
  }

  /** The chain value after whole blocks d, counted from t, all compressed under the same flags. */
  function Absorbed(h: Chain, d: seq<Byte>, t: nat, f0: bool, f1: bool): Chain
    decreases |d|
  {
    if |d| < BLOCKBYTES then h
    else Absorbed(F(h, d[..BLOCKBYTES], t + BLOCKBYTES, f0, f1), d[BLOCKBYTES..], t + BLOCKBYTES, f0, f1)
  }

  /** One more block. */
  lemma {:induction false} AbsorbedAppend(h: Chain, d: seq<Byte>, b: Block, t: nat, f0: bool, f1: bool)
    requires |d| % BLOCKBYTES == 0
    ensures Absorbed(h, d + b, t, f0, f1) == F(Absorbed(h, d, t, f0, f1), b, t + |d| + BLOCKBYTES, f0, f1)
    decreases |d|
  {
    hide F, Absorbed;
    AbsorbedStep(h, d + b, t, f0, f1);
    if d == [] {
      assert d + b == b && b[..BLOCKBYTES] == b && b[BLOCKBYTES..] == [];
      AbsorbedNothing(h, t, f0, f1);
      AbsorbedNothing(F(h, b, t + BLOCKBYTES, f0, f1), t + BLOCKBYTES, f0, f1);
    } else {
      var h' := F(h, d[..BLOCKBYTES], t + BLOCKBYTES, f0, f1);
      assert (d + b)[..BLOCKBYTES] == d[..BLOCKBYTES] && (d + b)[BLOCKBYTES..] == d[BLOCKBYTES..] + b;
      AbsorbedStep(h, d, t, f0, f1);
      AbsorbedAppend(h', d[BLOCKBYTES..], b, t + BLOCKBYTES, f0, f1);
    }
  }

  /** Where the data are cut: everything before the last, possibly full, block. */
  ghost predicate LastCut(n: nat, cut: nat) {
    cut <= n <= cut + BLOCKBYTES && cut % BLOCKBYTES == 0 && (n > 0 ==> cut < n)
  }

  lemma LastCutStep(n: nat, cut: nat)
    requires LastCut(n, cut)
    ensures if n > BLOCKBYTES then cut >= BLOCKBYTES && LastCut(n - BLOCKBYTES, cut - BLOCKBYTES) else cut == 0
  {
  }

  lemma DigestStep(h: Chain, d: seq<Byte>, t: nat, lastNode: bool)
    ensures RfcDigest(h, d, t, lastNode)
         == if |d| > BLOCKBYTES then
              RfcDigest(F(h, d[..BLOCKBYTES], t + BLOCKBYTES, false, false), d[BLOCKBYTES..], t + BLOCKBYTES, lastNode)
            else F(h, Padded(d), t + |d|, true, lastNode)
  {
    hide F, Padded;
  }

  lemma AbsorbedStep(h: Chain, d: seq<Byte>, t: nat, f0: bool, f1: bool)
    requires |d| >= BLOCKBYTES
    ensures Absorbed(h, d, t, f0, f1)
         == Absorbed(F(h, d[..BLOCKBYTES], t + BLOCKBYTES, f0, f1), d[BLOCKBYTES..], t + BLOCKBYTES, f0, f1)
  {
    hide F;
  }

  /** Absorbing up to the last cut and finishing with the rest is the digest of the standard. */
  lemma {:induction false} DigestFromCut(h: Chain, d: seq<Byte>, t: nat, cut: nat, lastNode: bool)
    requires cut <= |d| <= cut + BLOCKBYTES && LastCut(|d|, cut)
    ensures RfcDigest(h, d, t, lastNode)
         == F(Absorbed(h, d[..cut], t, false, false), Padded(d[cut..]), t + |d|, true, lastNode)
    decreases |d|
  {
    hide F, Padded, RfcDigest, Absorbed, LastCut;
    LastCutStep(|d|, cut);
    DigestStep(h, d, t, lastNode);
    if |d| > BLOCKBYTES {
      var h' := F(h, d[..BLOCKBYTES], t + BLOCKBYTES, false, false);
      var d' := d[BLOCKBYTES..];
      DigestFromCut(h', d', t + BLOCKBYTES, cut - BLOCKBYTES, lastNode);
      AbsorbedStep(h, d[..cut], t, false, false);
      assert d[..cut][..BLOCKBYTES] == d[..BLOCKBYTES];
      assert d[..cut][BLOCKBYTES..] == d'[..cut - BLOCKBYTES];
      assert d'[cut - BLOCKBYTES..] == d[cut..];
    } else {
      assert d[..0] == [] && d[0..] == d;
      AbsorbedNothing(h, t, false, false);
    }
  }

  /** The two counter words are n, modulo 2^128. */
  ghost predicate Counts(t0: Word, t1: Word, n: nat) {
    t0 + 0x1_0000_0000_0000_0000 * t1 == n % 0x1_0000_0000_0000_0000_0000_0000_0000_0000
  }

  /** blake2b_state */
  class State {
    var h: Chain
    var t0: Word
    var t1: Word
    var f0: bool                  // finalisation flags
    var f1: bool
    const buf: array<Byte>
    var buflen: nat
    var outlen: nat
    var lastNode: bool
    ghost var start: Chain        // the chain value, and the count, that data begin with:
    ghost var base: nat           // those of the initialisation, or of the last finalisation
    ghost var data: seq<Byte>     // the bytes since then, including those that stayed in the buffer

    /**
     * The buffer holds the bytes after the last cut; everything before is in h, compressed under
     * the present flags, and t counts it. A state may be updated after its finalisation too.
     */
    ghost predicate Valid()
      reads this, buf
    {
      && buf.Length == BLOCKBYTES && buflen <= BLOCKBYTES && buflen <= |data| && outlen <= OUTBYTES
      && LastCut(|data|, |data| - buflen)
      && buf[..buflen] == data[|data| - buflen..]
      && h == Absorbed(start, data[..|data| - buflen], base, f0, f1)
      && Counts(t0, t1, base + |data| - buflen)
      && (!f0 ==> !f1 && base == 0)
    }

    constructor (start: Chain, outlen: nat)
      requires outlen <= OUTBYTES
      ensures Valid() && fresh(buf) && this.start == start && data == [] && !f0 && !lastNode && this.outlen == outlen
    {
      this.h, this.start, this.base, this.t0, this.t1, this.f0, this.f1 := start, start, 0, 0, 0, false, false;
      this.buf := new Byte[BLOCKBYTES](i => 0);
      this.buflen, this.outlen, this.lastNode := 0, outlen, false;
      this.data := [];
    }

    /** last_node is set on the last node of a level. */
    method MarkLastNode()
      requires Valid()
      modifies `lastNode
      ensures Valid() && lastNode
    {
      hide Absorbed, LastCut, Counts;
      lastNode := true;
    }

    /** blake2b_increment_counter: add to the low word and carry when it wraps. */
    method IncrementCounter(inc: nat, ghost n: nat)
      requires inc <= BLOCKBYTES && Counts(t0, t1, n)
      modifies `t0, `t1
      ensures Counts(t0, t1, n + inc)
    {
      hide Counts, Wrap;
      CounterAdd(t0, t1, inc, n);
      t0 := Wrap(t0 + inc);
      t1 := Wrap(t1 + if t0 < inc then 1 else 0);
    }

    /** The chain value and counter after the whole blocks `done`. */
    ghost predicate Absorbs(done: seq<Byte>)
      reads `h, `t0, `t1, `start, `base, `f0, `f1
    {
      && |done| % BLOCKBYTES == 0 && h == Absorbed(start, done, base, f0, f1)
      && Counts(t0, t1, base + |done|)
    }

    /** Count and compress one more block. */
    method AbsorbBlock(b: Block, ghost done: seq<Byte>)
      requires Absorbs(done)
      modifies `h, `t0, `t1
      ensures Absorbs(done + b)
    {
      hide Compress, Absorbed, F, Counts;
      IncrementCounter(BLOCKBYTES, base + |done|);
      CompressIsF(h, b, t0, t1, base + |done| + BLOCKBYTES, f0, f1);
      AbsorbedAppend(start, done, b, base, f0, f1);
      h := Compress(h, b, t0, t1, Flag(f0), Flag(f1));
    }

    /** memcpy into the buffer at `at` */
    method CopyIn(at: nat, input: seq<Byte>)
      requires at + |input| <= buf.Length
      modifies buf
      ensures buf[..at] == old(buf[..at]) && buf[at..at + |input|] == input
    {
      forall i | 0 <= i < |input| { buf[at + i] := input[i]; }
    }

    /** blake2b_update */
    method Update(input: seq<Byte>)
      requires Valid()
      modifies this, buf
      ensures Valid() && data == old(data) + input && start == old(start) && base == old(base)
      ensures f0 == old(f0) && f1 == old(f1) && lastNode == old(lastNode) && outlen == old(outlen)
    {
      hide Absorbed, Absorbs, LastCut, Counts;
      if |input| > 0 {
        var rest := input;
        ghost var all := data + input;
        ghost var cut: nat := |data| - buflen;
        AbsorbsNow(cut);
        assert all[..cut] == data[..cut] && buf[..buflen] + rest == all[cut..];
        if |rest| > BLOCKBYTES - buflen {
          rest := CompressAllButLast(input);
          cut := |all| - |rest|;
          assert buf[..buflen] + rest == all[cut..];
        }
        Keep(rest, all, cut);
      } else {
        assert data == data + input;
      }
    }

    /** Buffer the rest of the input. */
    method Keep(rest: seq<Byte>, ghost all: seq<Byte>, ghost cut: nat)
      requires buf.Length == BLOCKBYTES && 0 < buflen + |rest| <= BLOCKBYTES && outlen <= OUTBYTES
      requires (!f0 ==> !f1 && base == 0)
      requires cut + buflen + |rest| == |all| && buf[..buflen] + rest == all[cut..] && Absorbs(all[..cut])
      modifies `buflen, `data, buf
      ensures Valid() && data == all
    {
      hide Absorbed, Absorbs, LastCut, Counts;
      ghost var before := buf[..buflen];
      CopyIn(buflen, rest);
      buflen := buflen + |rest|;
      data := all;
      assert buf[..buflen] == before + rest;
      ValidFrom(cut);
    }

    lemma ValidFrom(cut: nat)
      requires buf.Length == BLOCKBYTES && 0 < buflen <= BLOCKBYTES && outlen <= OUTBYTES && cut + buflen == |data|
      requires buf[..buflen] == data[cut..] && Absorbs(data[..cut]) && (!f0 ==> !f1 && base == 0)
      ensures Valid()
    {
      hide Absorbed, Counts;
      assert data[..|data| - buflen] == data[..cut] && data[|data| - buflen..] == data[cut..];
    }

    /** Complete the buffered block and compress it and all following ones, except the last. */
    method CompressAllButLast(input: seq<Byte>) returns (rest: seq<Byte>)
      requires Valid() && |input| > BLOCKBYTES - buflen
      modifies `h, `t0, `t1, `buflen, buf
      ensures buflen == 0 && 0 < |rest| <= BLOCKBYTES && |rest| <= |input|
      ensures var all := data + input;
              rest == all[|all| - |rest|..] && Absorbs(all[..|all| - |rest|])
    {
      hide Absorbed, Absorbs, LastCut, Counts;
      var fill := BLOCKBYTES - buflen;
      ghost var all := data + input;
      CompressBuffered(input[..fill]);
      rest := input[fill..];
      ghost var cut := |data| + fill;
      assert all[..cut] == data + input[..fill] && rest == all[cut..];
      while |rest| > BLOCKBYTES
        invariant buflen == 0 && cut + |rest| == |all| && rest == all[cut..] && 0 < |rest| <= |input|
        invariant Absorbs(all[..cut])
        decreases |rest|
      {
        AbsorbBlock(rest[..BLOCKBYTES], all[..cut]);
        assert all[..cut] + rest[..BLOCKBYTES] == all[..cut + BLOCKBYTES];
        cut := cut + BLOCKBYTES;
        rest := rest[BLOCKBYTES..];
      }
    }

    /** Complete the buffered block and compress it. */
    method CompressBuffered(fill: seq<Byte>)
      requires Valid() && |fill| == BLOCKBYTES - buflen
      modifies `h, `t0, `t1, `buflen, buf
      ensures buflen == 0 && Absorbs(data + fill)
    {
      hide Absorbed, Absorbs, LastCut, Counts;
      ghost var cut: nat, held := |data| - buflen, buf[..buflen];
      AbsorbsNow(cut);
      CopyIn(buflen, fill);
      assert buf[..] == held + fill;
      buflen := 0;
      AbsorbBlock(buf[..], data[..cut]);
      assert data[..cut] + (held + fill) == data + fill;
    }

    /**
     * blake2b_final: pad and compress the last block, once; the digest is that of all bytes given.
     * The block stays in the buffer, and would be compressed again, flags set, by a later update.
     */
    method Final(outSize: nat) returns (ok: bool, out: seq<Byte>)
      requires Valid()
      modifies this, buf
      ensures Valid() && lastNode == old(lastNode) && outlen == old(outlen)
      ensures ok <==> outlen <= outSize && !old(f0)
      ensures ok ==> out == Digest(old(start), old(data), lastNode, outlen) && f0
      ensures !ok ==> f0 == old(f0) && f1 == old(f1) && h == old(h) && t0 == old(t0) && t1 == old(t1)
      ensures !ok ==> start == old(start) && base == old(base) && data == old(data)
      ensures ok ==> base == |old(data)| && data == old(data)[|old(data)| - old(buflen)..]
      ensures |out| <= OUTBYTES && (ok ==> |out| == outlen)
    {
      hide Compress, Absorbed, F, DigestBytes, RfcDigest, Padded, Counts, Flag;
      if outSize < outlen || f0 {
        return false, [];
      }
      CompressLast();
      out := DigestBytes(h)[..outlen];
      ok := true;
      start, base, data := h, |data|, data[|data| - buflen..];
      Restarted();
    }

    /** Pad the buffered block and compress it with the flags set. */
    method CompressLast()
      requires Valid() && !f0
      modifies `h, `t0, `t1, `f0, `f1, buf
      ensures f0 && f1 == lastNode && h == RfcDigest(start, data, 0, lastNode) && Counts(t0, t1, |data|)
      ensures buf[..buflen] == old(buf[..buflen])
    {
      hide Compress, Absorbed, F, RfcDigest, Padded, Counts, Flag;
      ghost var cut: nat := |data| - buflen;
      ghost var tail := data[cut..];
      DigestFromCut(start, data, 0, cut, lastNode);
      IncrementCounter(buflen, cut);
      f0, f1 := true, lastNode;
      CopyIn(buflen, Zeros(BLOCKBYTES - buflen));
      PaddedIs(tail, buf[..]);
      CompressIsF(h, buf[..], t0, t1, |data|, true, lastNode);
      h := Compress(h, buf[..], t0, t1, Flag(f0), Flag(f1));
    }

    /** Only the buffered bytes lie after a finalisation. */
    lemma Restarted()
      requires buf.Length == BLOCKBYTES && buflen <= BLOCKBYTES && outlen <= OUTBYTES && f0
      requires |data| == buflen && buf[..buflen] == data && h == start && Counts(t0, t1, base)
      ensures Valid()
    {
      hide Counts;
      assert data[..|data| - buflen] == [] && data[|data| - buflen..] == data;
    }

    lemma AbsorbsNow(cut: nat)
      requires Valid() && cut == |data| - buflen
      ensures Absorbs(data[..cut])
    {
      hide Absorbed, Counts;
    }
  }

  /** Adding to the low word, with a carry when it wraps, counts on. */
  lemma CounterAdd(t0: Word, t1: Word, inc: nat, n: nat)
    requires inc <= BLOCKBYTES && Counts(t0, t1, n)
    ensures var low := Wrap(t0 + inc); Counts(low, Wrap(t1 + if low < inc then 1 else 0), n + inc)
  {
    var low, high := LowSum(t0, inc), HighSum(t1, if Wrap(t0 + inc) < inc then 1 else 0);
    var k := n / 0x1_0000_0000_0000_0000_0000_0000_0000_0000;
    CounterMod(n + inc, low.1, high.1, k + high.0);
  }

  /** The low word of a sum, and its carry. */
  function LowSum(t0: Word, inc: nat): (r: (int, int))
    requires inc <= BLOCKBYTES
    ensures r == (if Wrap(t0 + inc) < inc then 1 else 0, Wrap(t0 + inc))
    ensures t0 + inc == r.1 + 0x1_0000_0000_0000_0000 * r.0
  {
    (if Wrap(t0 + inc) < inc then 1 else 0, Wrap(t0 + inc))
  }

  function HighSum(t1: Word, carry: int): (r: (int, int))
    requires 0 <= carry <= 1
    ensures r.1 == Wrap(t1 + carry) && t1 + carry == r.1 + 0x1_0000_0000_0000_0000 * r.0
  {
    ((t1 + carry) / 0x1_0000_0000_0000_0000, Wrap(t1 + carry))
  }

  lemma CounterMod(n: int, low: int, high: int, k: int)
    requires 0 <= low < 0x1_0000_0000_0000_0000 && 0 <= high < 0x1_0000_0000_0000_0000
    requires n == low + 0x1_0000_0000_0000_0000 * high + 0x1_0000_0000_0000_0000_0000_0000_0000_0000 * k
    ensures n % 0x1_0000_0000_0000_0000_0000_0000_0000_0000 == low + 0x1_0000_0000_0000_0000 * high
  {
  }

  /** The two counter words are the low 128 bits of the count. */
  lemma CounterWords(t0: Word, t1: Word, n: nat)
    requires Counts(t0, t1, n)
    ensures t0 == n % 0x1_0000_0000_0000_0000 && t1 == n / 0x1_0000_0000_0000_0000 % 0x1_0000_0000_0000_0000
  {
    var k := n / 0x1_0000_0000_0000_0000_0000_0000_0000_0000;
    assert n == 0x1_0000_0000_0000_0000 * (0x1_0000_0000_0000_0000 * k + t1) + t0;
  }

  lemma AbsorbedNothing(h: Chain, t: nat, f0: bool, f1: bool)
    ensures Absorbed(h, [], t, f0, f1) == h
  {
  }

  /** With the counter words in place, compressing is F. */
  lemma CompressIsF(h: Chain, b: Block, t0: Word, t1: Word, n: nat, f0: bool, f1: bool)
    requires Counts(t0, t1, n)
    ensures F(h, b, n, f0, f1) == Compress(h, b, t0, t1, Flag(f0), Flag(f1))
  {
    hide Compress, Flag;
    CounterWords(t0, t1, n);
  }

  lemma PaddedIs(d: seq<Byte>, buf: seq<Byte>)
    requires |d| <= BLOCKBYTES == |buf| && buf[..|d|] == d && buf[|d|..|d| + (BLOCKBYTES - |d|)] == Zeros(BLOCKBYTES - |d|)
    ensures buf == Padded(d)
  {
    assert buf == buf[..|d|] + buf[|d|..BLOCKBYTES];
  }

  /** The words of the chain value in little-endian bytes. */
  function DigestWords(h: Chain): (w: seq<seq<Byte>>)
    ensures |w| == 8 && forall i :: 0 <= i < 8 ==> |w[i]| == 8 && w[i] == ToBytes(h[i] as nat, 8)
  {
    seq(8, i requires 0 <= i < 8 => ToBytes(h[i] as nat, 8))
  }

  function DigestBytes(h: Chain): (b: seq<Byte>)
    ensures |b| == OUTBYTES
  {
    ConcatEights(DigestWords(h));
    Concat(DigestWords(h))
  }

  /** The first outlen bytes of the digest of all the data. */
  function Digest(start: Chain, data: seq<Byte>, lastNode: bool, outlen: nat): (d: seq<Byte>)
    requires outlen <= OUTBYTES
    ensures |d| == outlen
  {
    hide RfcDigest, DigestBytes;
    DigestBytes(RfcDigest(start, data, 0, lastNode))[..outlen]
  }

  /** The IV xored with the parameter block, of which three words may be nonzero. */
  function ParamChain(w0: Word, w1: Word, w2: Word): Chain {
    [Xored(IV[0], Bits(w0)), Xored(IV[1], Bits(w1)), Xored(IV[2], Bits(w2)), IV[3], IV[4], IV[5], IV[6], IV[7]]
  }

  /** digest_length, key_length, fanout and depth, the first word of the parameter block. */
  function FirstWord(outlen: nat, keylen: nat, fanout: nat, depth: nat): Word
    requires outlen < 0x100 && keylen < 0x100 && fanout < 0x100 && depth < 0x100
  {
    outlen + 0x100 * keylen + 0x1_0000 * fanout + 0x100_0000 * depth
  }

  /** struct blake2b_param; its leaf length, xof length, salt and personalisation are zero throughout. */
  datatype Param = Param(digestLength: Byte, keyLength: Byte, fanout: Byte, depth: Byte, nodeOffset: nat,
                         nodeDepth: Byte, innerLength: Byte)

  /** The parameter block in memory. */
  function ParamBytes(p: Param): (b: seq<Byte>)
    ensures |b| == 64
  {
    [p.digestLength, p.keyLength, p.fanout, p.depth] + Zeros(4) + ToBytes(p.nodeOffset, 4) + Zeros(4)
    + [p.nodeDepth, p.innerLength] + Zeros(46)
  }

  /** blake2b_init_param: the IV xored with the parameter block. */
  function InitParam(b: seq<Byte>): Chain
    requires |b| == 64
  {
    hide WordAt;
    seq(8, i requires 0 <= i < 8 => Xored(IV[i], Bits(WordAt(b, 8 * i))))
  }

  /** Where the fields of struct blake2b_param lie. */
  lemma ParamLayout(p: Param)
    requires p.nodeOffset < 0x1_0000_0000
    ensures var b := ParamBytes(p);
            && b[0] == p.digestLength && b[1] == p.keyLength && b[2] == p.fanout && b[3] == p.depth
            && b[4..8] == Zeros(4) && LeValue(b[8..12]) == p.nodeOffset && b[12..16] == Zeros(4)
            && b[16] == p.nodeDepth && b[17] == p.innerLength && b[18..64] == Zeros(46)
  {
    hide LeValue, ToBytes;
    Pow2Of32();
    ToBytesValue(p.nodeOffset, 4);
    OffsetBytes(p);
  }

  lemma OffsetBytes(p: Param)
    ensures ParamBytes(p)[8..12] == ToBytes(p.nodeOffset, 4)
  {
    hide ToBytes;
  }

  /** The words of the parameter block: at most three are not zero. */
  lemma ParamWords(p: Param)
    requires p.nodeOffset < 0x1_0000_0000
    ensures WordAt(ParamBytes(p), 0) == FirstWord(p.digestLength, p.keyLength, p.fanout, p.depth)
    ensures WordAt(ParamBytes(p), 8) == p.nodeOffset
    ensures WordAt(ParamBytes(p), 16) == p.nodeDepth + 0x100 * p.innerLength
    ensures forall i :: 3 <= i < 8 ==> WordAt(ParamBytes(p), 8 * i) == 0
  {
    hide LeValue, ToBytes, WordAt, ParamBytes;
    var b := ParamBytes(p);
    ParamLayout(p);
    ParamZeros(p);
    WordOfBytes(b, 0);
    WordOfBytes(b, 16);
    OffsetWord(b);
    forall i | 3 <= i < 8 ensures WordAt(b, 8 * i) == 0 { WordOfBytes(b, 8 * i); }
  }

  lemma ParamZeros(p: Param)
    ensures var b := ParamBytes(p);
            forall i :: 4 <= i < 8 || 12 <= i < 16 || 18 <= i < 64 ==> b[i] == 0
  {
  }

  lemma OffsetWord(b: seq<Byte>)
    requires |b| == 64 && b[12..16] == Zeros(4)
    ensures WordAt(b, 8) == LeValue(b[8..12])
  {
    hide LeValue;
    LeValuePadded(b[8..12], 4);
    assert b[8..16] == b[8..12] + Zeros(4);
  }

  /** So initialising from the block is xoring three words. */
  lemma InitParamIs(p: Param)
    requires p.nodeOffset < 0x1_0000_0000
    ensures InitParam(ParamBytes(p))
         == ParamChain(FirstWord(p.digestLength, p.keyLength, p.fanout, p.depth), p.nodeOffset,
                       p.nodeDepth + 0x100 * p.innerLength)
  {
    hide WordAt, ParamBytes, FirstWord, InitParam, ParamChain;
    ParamWords(p);
    ThreeWords(ParamBytes(p), FirstWord(p.digestLength, p.keyLength, p.fanout, p.depth), p.nodeOffset,
               p.nodeDepth + 0x100 * p.innerLength);
  }

  lemma ThreeWords(b: seq<Byte>, w0: Word, w1: Word, w2: Word)
    requires |b| == 64 && WordAt(b, 0) == w0 && WordAt(b, 8) == w1 && WordAt(b, 16) == w2
    requires forall i :: 3 <= i < 8 ==> WordAt(b, 8 * i) == 0
    ensures InitParam(b) == ParamChain(w0, w1, w2)
  {
    hide WordAt, Xored, Bits;
    forall i | 0 <= i < 8 ensures InitParam(b)[i] == ParamChain(w0, w1, w2)[i] {
      if i >= 3 { XorNothing(IV[i]); }
    }
  }

  lemma XorNothing(w: bv64)
    ensures Xored(w, Bits(0)) == w
  {
  }

  predicate ValidLengths(outlen: nat, keylen: nat) { 1 <= outlen <= 64 && keylen <= 64 }

  /** The key as the first block, or nothing. */
  function KeyBlock(key: seq<Byte>): seq<Byte>
    requires |key| <= KEYBYTES
  {
    if key == [] then [] else Padded(key)
  }

  /** The hash of the standard: BLAKE2b(key block and message, length, key length, output length). */
  function Rfc7693(outlen: nat, key: seq<Byte>, msg: seq<Byte>): seq<Byte>
    requires ValidLengths(outlen, |key|)
  {
    hide ParamChain, FirstWord, Digest;
    Digest(ParamChain(FirstWord(outlen, |key|, 1, 1), 0, 0), KeyBlock(key) + msg, false, outlen)
  }

  /** blake2b_init, or blake2b_init_key when there is a key; null when a length is refused. */
  method Init(outlen: nat, key: seq<Byte>) returns (s: State?)
    ensures s == null <==> !ValidLengths(outlen, |key|)
    ensures s != null ==> fresh(s) && fresh(s.buf) && s.Valid() && !s.f0 && !s.lastNode && s.outlen == outlen
    ensures s != null ==> s.start == ParamChain(FirstWord(outlen, |key|, 1, 1), 0, 0) && s.data == KeyBlock(key)
  {
    hide ParamChain, FirstWord, Absorbed, Counts, InitParam, ParamBytes;
    if outlen == 0 || outlen > OUTBYTES || |key| > KEYBYTES {
      return null;
    }
    var p := Param(outlen, |key|, 1, 1, 0, 0, 0);
    InitParamIs(p);
    s := new State(InitParam(ParamBytes(p)), outlen);
    if key != [] {
      s.Update(Padded(key));
    }
  }

  /** Any way of cutting a message into updates gives the hash of the standard. */
  method HashChunks(outlen: nat, key: seq<Byte>, chunks: seq<seq<Byte>>) returns (ok: bool, out: seq<Byte>)
    ensures ok <==> ValidLengths(outlen, |key|)
    ensures ok ==> out == Rfc7693(outlen, key, Concat(chunks))
  {
    hide ParamChain, FirstWord, Absorbed, RfcDigest, DigestBytes, LastCut, Counts;
    var s := Init(outlen, key);
    if s == null {
      return false, [];
    }
    ghost var start := s.start;
    assert KeyBlock(key) + Concat([]) == KeyBlock(key) && chunks[..0] == [];
    for i := 0 to |chunks|
      invariant fresh(s) && fresh(s.buf) && s.Valid() && !s.f0 && !s.lastNode && s.outlen == outlen && s.start == start
      invariant s.data == KeyBlock(key) + Concat(chunks[..i])
    {
      s.Update(chunks[i]);
      NextChunk(KeyBlock(key), chunks, i);
    }
    assert chunks[..|chunks|] == chunks;
    ok, out := s.Final(outlen);
  }

  lemma NextChunk(front: seq<Byte>, chunks: seq<seq<Byte>>, i: nat)
    requires i < |chunks|
    ensures front + Concat(chunks[..i]) + chunks[i] == front + Concat(chunks[..i + 1])
  {
    assert chunks[..i + 1][..i] == chunks[..i];
  }

  /** blake2b: the one-shot form, and so the streaming form, is the hash of the standard. */
  method Hash(outlen: nat, input: seq<Byte>, key: seq<Byte>) returns (ok: bool, out: seq<Byte>)
    ensures ok <==> ValidLengths(outlen, |key|)
    ensures ok ==> out == Rfc7693(outlen, key, input)
  {
    hide ParamChain, FirstWord, Absorbed, RfcDigest, DigestBytes, LastCut, Counts;
    var s := Init(outlen, key);
    if s == null {
      return false, [];
    }
    s.Update(input);
    ok, out := s.Final(outlen);
  }
}
