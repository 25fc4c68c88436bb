/**
 * The streaming side of xxHash: four lanes fed with whole stripes, and a buffer for the bytes
 * that do not fill one.  XXH32 and XXH64 differ only in the stripe size and the lane step.
 */
module XxhStream {
  import opened Words
  import opened Bytes

  datatype Lanes<W> = Lanes(v1: W, v2: W, v3: W, v4: W)

  type Start<!W> = W -> Lanes<W>
  type Step<!W> = (Lanes<W>, seq<Byte>) -> Lanes<W>

  /** The lanes after all whole stripes of d. */
  function Fold<W>(step: Step<W>, size: nat, v: Lanes<W>, d: seq<Byte>): Lanes<W>
    requires size > 0
    decreases |d|
  {
    if |d| < size then v else Fold(step, size, step(v, d[..size]), d[size..])
  }

  /** The bytes of d after its whole stripes. */
  function Rest(size: nat, d: seq<Byte>): (r: seq<Byte>)
    requires size > 0
    ensures |r| < size
    decreases |d|
  {
    if |d| < size then d else Rest(size, d[size..])
  }

  lemma RestStep(size: nat, d: seq<Byte>)
    requires 0 < size <= |d|
    ensures Rest(size, d) == Rest(size, d[size..])
  {
  }

  lemma RestShort(size: nat, d: seq<Byte>)
    requires |d| < size
    ensures Rest(size, d) == d
  {
  }

  /** n bytes are whole stripes. */
  predicate Whole(n: nat, size: nat)
    requires size > 0
  {
    n == 0 || (n >= size && Whole(n - size, size))
  }

  lemma {:induction false} WholeAdd(n: nat, size: nat)
    requires size > 0 && Whole(n, size)
    ensures Whole(n + size, size)
  {
  }

  /** One more stripe after whole stripes. */
  lemma {:induction false} FoldStripe<W>(step: Step<W>, size: nat, v: Lanes<W>, d: seq<Byte>, s: seq<Byte>)
    requires size > 0 && Whole(|d|, size) && |s| == size
    ensures Fold(step, size, v, d + s) == step(Fold(step, size, v, d), s)
    decreases |d|
  {
    if d == [] {
      assert d + s == s && s[..size] == s;
    } else {
      assert (d + s)[..size] == d[..size] && (d + s)[size..] == d[size..] + s;
      FoldStripe(step, size, step(v, d[..size]), d[size..], s);
    }
  }

  /** Cutting at whole stripes with less than a stripe left finds the lanes and the rest. */
  lemma {:induction false} FoldCut<W>(step: Step<W>, size: nat, v: Lanes<W>, d: seq<Byte>, cut: nat)
    requires size > 0 && cut <= |d| < cut + size && Whole(cut, size)
    ensures Fold(step, size, v, d) == Fold(step, size, v, d[..cut]) && Rest(size, d) == d[cut..]
    decreases |d|
  {
    if cut == 0 {
      assert d[cut..] == d;
    } else {
      FoldCut(step, size, step(v, d[..size]), d[size..], cut - size);
      assert d[..cut][..size] == d[..size] && d[..cut][size..] == d[size..][..cut - size];
      assert d[size..][cut - size..] == d[cut..];
    }
  }

  lemma {:induction false} RestLength(size: nat, d: seq<Byte>)
    requires size > 0
    ensures |Rest(size, d)| == |d| % size
    decreases |d|
  {
    if |d| < size {
      SmallMod(|d|, size);
    } else {
      RestLength(size, d[size..]);
      ModMinus(|d|, size);
    }
  }

  lemma SmallMod(n: nat, size: nat)
    requires n < size
    ensures n % size == n
  {
  }

  lemma ModMinus(n: nat, size: nat)
    requires 0 < size <= n
    ensures (n - size) % size == n % size
  {
    DivUnique(n, size, (n - size) / size + 1, (n - size) % size);
  }

  /** A count that has wrapped to less than a stripe is the length of the rest. */
  lemma WrapShort(n: nat, size: nat)
    requires (size == 16 || size == 32) && Wrap(n) < size
    ensures Wrap(n) == n % size == Wrap(n % size)
  {
    assert 0x1_0000_0000_0000_0000 == 32 * 0x800_0000_0000_0000;
    var k := n / 0x1_0000_0000_0000_0000;
    DivUnique(n, size, if size == 32 then k * 0x800_0000_0000_0000 else k * 0x1000_0000_0000_0000, Wrap(n));
  }

  lemma WrapAdd(n: nat, k: nat)
    ensures Wrap(Wrap(n) + k) == Wrap(n + k)
  {
  }

  /** XXH_istate32_t and XXH_istate64_t */
  class State<W> {
    const size: nat
    const start: Start<W>
    const step: Step<W>
    var seed: W
    var total: Word               // bytes given so far, modulo 2^64
    var v: Lanes<W>
    const mem: array<Byte>
    var memsize: nat
    ghost var data: seq<Byte>     // all bytes given since the last reset

    /** After the bytes d: the lanes are those of the whole stripes, the buffer holds the rest. */
    ghost predicate Holds(d: seq<Byte>)
      reads `seed, `v, `memsize, mem
    {
      && size > 0 && mem.Length == size && memsize < size && memsize <= |d| && Whole(|d| - memsize, size)
      && mem[..memsize] == d[|d| - memsize..]
      && v == Fold(step, size, start(seed), d[..|d| - memsize])
    }

    ghost predicate Valid()
      reads this, mem
    {
      Holds(data) && total == Wrap(|data|)
    }

    constructor (size: nat, start: Start<W>, step: Step<W>, seed: W)
      requires size > 0
      ensures Valid() && data == [] && this.seed == seed && this.size == size && this.start == start && this.step == step
      ensures fresh(mem)
    {
      this.size, this.start, this.step := size, start, step;
      this.mem := new Byte[size](i => 0);
      this.seed, this.v, this.total, this.memsize := seed, start(seed), 0, 0;
      this.data := [];
    }

    /** XXH32_reset, XXH64_reset: whatever the state was, only its buffer is kept. */
    method Reset(seed: W)
      requires size > 0 && mem.Length == size
      modifies this
      ensures Valid() && data == [] && this.seed == seed
    {
      this.seed, this.v, this.total, this.memsize := seed, start(seed), 0, 0;
      data := [];
    }

    method CopyIn(at: nat, input: seq<Byte>)
      requires at + |input| <= mem.Length
      modifies mem
      ensures mem[..at] == old(mem[..at]) && mem[at..at + |input|] == input
    {
      forall i | 0 <= i < |input| { mem[at + i] := input[i]; }
    }

    /** Complete the buffered stripe and feed it. */
    method Flush(fill: seq<Byte>, ghost d: seq<Byte>)
      requires Holds(d) && |fill| == size - memsize
      modifies `v, `memsize, mem
      ensures Holds(d + fill) && memsize == 0
    {
      hide Fold;
      ghost var done := d[..|d| - memsize];
      assert d + fill == done + (mem[..memsize] + fill);
      CopyIn(memsize, fill);
      FoldStripe(step, size, start(seed), done, mem[..]);
      WholeAdd(|done|, size);
      v := step(v, mem[..]);
      memsize := 0;
      ghost var e := d + fill;
      assert done + mem[..] == e && e[..|e|] == e;
    }

    /** Feed all whole stripes of the input; the lanes stay in a local meanwhile. */
    method Stripes(input: seq<Byte>, ghost d: seq<Byte>) returns (rest: seq<Byte>, ghost e: seq<Byte>)
      requires Holds(d) && memsize == 0
      modifies `v
      ensures Holds(e) && |rest| < size && e + rest == d + input
    {
      hide Fold;
      rest, e := input, d;
      var lanes := v;
      assert d[..|d|] == d;
      while |rest| >= size
        invariant e + rest == d + input && Whole(|e|, size) && lanes == Fold(step, size, start(seed), e)
        decreases |rest|
      {
        var s := rest[..size];
        FoldStripe(step, size, start(seed), e, s);
        WholeAdd(|e|, size);
        lanes := step(lanes, s);
        assert e + rest == e + s + rest[size..];
        rest, e := rest[size..], e + s;
      }
      v := lanes;
      assert e[..|e|] == e;
    }

    /** XXH32_update, XXH64_update */
    method Update(input: seq<Byte>)
      requires Valid()
      modifies this, mem
      ensures Valid() && data == old(data) + input && seed == old(seed)
    {
      hide Holds, Wrap;
      WrapAdd(|data|, |input|);
      total := Wrap(total + |input|);
      Take(input, data);
      data := data + input;
    }

    /** The part of an update that follows the count. */
    method Take(input: seq<Byte>, ghost d: seq<Byte>)
      requires Holds(d)
      modifies `v, `memsize, mem
      ensures Holds(d + input)
    {
      hide Fold, Whole;
      if memsize + |input| < size {
        Keep(input, d);
        return;
      }
      var rest := input;
      ghost var e := d;
      if memsize != 0 {
        var fill := size - memsize;
        Flush(input[..fill], d);
        e, rest := d + input[..fill], input[fill..];
        assert e + rest == d + input;
      }
      rest, e := Stripes(rest, e);
      Keep(rest, e);
    }

    /** Buffer bytes that do not fill a stripe. */
    method Keep(rest: seq<Byte>, ghost d: seq<Byte>)
      requires Holds(d) && memsize + |rest| < size
      modifies `memsize, mem
      ensures Holds(d + rest)
    {
      hide Fold, Whole;
      ghost var held, e := mem[..memsize], d + rest;
      ghost var cut: nat := |d| - memsize;
      CopyIn(memsize, rest);
      memsize := memsize + |rest|;
      assert mem[..memsize] == held + rest;
      assert e[..cut] == d[..cut] && e[cut..] == d[cut..] + rest;
    }
  }
}
