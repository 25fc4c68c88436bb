/**
 * BLAKE2bp: four BLAKE2b leaves, each fed every fourth block of the message, and a root that
 * hashes their digests.  The streaming form, the one-shot form and every interleaving of the
 * leaves' work are proved equal to one tree hash.
 */
module Blake2bp {
  import opened Bytes
  import opened Blake2bCompress
  import opened Blake2b

  const STRIPE := 512           // one block for every leaf

  /** The leaf that byte k of the message belongs to. */
  function LeafOf(k: nat): nat { k / 128 % 4 }

  /** The message bytes whose block index is i modulo 4, in order. */
  function LeafBytes(m: seq<Byte>, i: nat): seq<Byte> {
    if m == [] then []
    else
      var k := |m| - 1;
      LeafBytes(m[..k], i) + if LeafOf(k) == i then [m[k]] else []
  }

  /** The part of one stripe, perhaps cut short, that goes to leaf i. */
  function Share(s: seq<Byte>, i: nat): seq<Byte> {
    if |s| <= 128 * i then [] else if |s| <= 128 * i + 128 then s[128 * i..] else s[128 * i..128 * i + 128]
  }

  lemma {:induction false} AppendOwn(a: seq<Byte>, b: seq<Byte>, i: nat)
    requires forall k :: |a| <= k < |a| + |b| ==> LeafOf(k) == i
    ensures LeafBytes(a + b, i) == LeafBytes(a, i) + b
  {
    if b == [] {
      assert a + b == a;
    } else {
      var b' := b[..|b| - 1];
      assert (a + b)[..|a + b| - 1] == a + b';
      AppendOwn(a, b', i);
      assert LeafOf(|a + b| - 1) == i;
      assert b == b' + [b[|b| - 1]];
    }
  }

  lemma {:induction false} AppendOther(a: seq<Byte>, b: seq<Byte>, i: nat)
    requires forall k :: |a| <= k < |a| + |b| ==> LeafOf(k) != i
    ensures LeafBytes(a + b, i) == LeafBytes(a, i)
  {
    if b == [] {
      assert a + b == a;
    } else {
      var b' := b[..|b| - 1];
      assert (a + b)[..|a + b| - 1] == a + b';
      AppendOther(a, b', i);
      assert LeafOf(|a + b| - 1) != i;
    }
  }

  lemma LeafInStripe(n: nat, k: nat, i: nat)
    requires n % STRIPE == 0 && i < 4 && n <= k < n + STRIPE
    ensures LeafOf(k) == i <==> n + 128 * i <= k < n + 128 * i + 128
  {
    var a, m := n / 512, k - n;
    BlockOf(4 * a, m / 128, m % 128);
    LeafIs(a, m / 128);
    assert k == 128 * (4 * a + m / 128) + m % 128;
  }

  lemma BlockOf(q: nat, b: nat, r: nat)
    requires r < 128
    ensures (128 * (q + b) + r) / 128 == q + b
  {
  }

  lemma LeafIs(a: nat, b: nat)
    requires b < 4
    ensures (4 * a + b) % 4 == b
  {
  }

  /** After whole stripes, one more (perhaps partial) stripe gives leaf i its share. */
  lemma AppendStripe(a: seq<Byte>, s: seq<Byte>, i: nat)
    requires |a| % STRIPE == 0 && |s| <= STRIPE && i < 4
    ensures LeafBytes(a + s, i) == LeafBytes(a, i) + Share(s, i)
  {
    hide LeafBytes, LeafOf;
    var from := if |s| <= 128 * i then |s| else 128 * i;
    var to := if |s| <= 128 * i + 128 then |s| else 128 * i + 128;
    var s0, s1, s2 := s[..from], s[from..to], s[to..];
    assert a + s == a + s0 + s1 + s2;
    forall k | |a| <= k < |a| + |s| ensures LeafOf(k) == i <==> |a| + 128 * i <= k < |a| + 128 * i + 128 {
      LeafInStripe(|a|, k, i);
    }
    AppendOther(a, s0, i);
    AppendOwn(a + s0, s1, i);
    AppendOther(a + s0 + s1, s2, i);
    assert s1 == Share(s, i);
  }

  /** Inside an input, the next stripe gives leaf i its block. */
  lemma NextBlock(base: seq<Byte>, input: seq<Byte>, k: nat, i: nat)
    requires |base| % STRIPE == 0 && k % STRIPE == 0 && k + 512 <= |input| && i < 4
    ensures LeafBytes(base + input[..k + 512], i) == LeafBytes(base + input[..k], i) + input[k + 128 * i..k + 128 * i + 128]
  {
    hide LeafBytes;
    var s := input[k..k + 512];
    AppendStripe(base + input[..k], s, i);
    assert base + input[..k] + s == base + input[..k + 512];
    ShareOfFull(s, i);
    SubBlock(input, k, 128 * i);
  }

  lemma ShareOfFull(s: seq<Byte>, i: nat)
    requires |s| == 512 && i < 4
    ensures Share(s, i) == s[128 * i..128 * i + 128]
  {
    if i == 3 {
      assert s[384..] == s[384..512];
    }
  }

  lemma SubBlock(input: seq<Byte>, k: nat, at: nat)
    requires k + 512 <= |input| && at + 128 <= 512
    ensures input[k..k + 512][at..at + 128] == input[k + at..k + at + 128]
  {
    var s, t := input[k..k + 512][at..at + 128], input[k + at..k + at + 128];
    forall j | 0 <= j < 128 ensures s[j] == t[j] {
      assert s[j] == input[k..k + 512][at + j];
      assert input[k..k + 512][at + j] == input[k + (at + j)];
    }
    assert s == t;
  }

  /** What a hash is asked for: an output length and a key, possibly empty. */
  datatype Request = Request(outlen: nat, key: seq<Byte>)
  type Setup = p: Request | ValidLengths(p.outlen, |p.key|) witness Request(1, [])

  /** The chain value that the parameter block gives leaf i. */
  function LeafChain(p: Setup, i: nat): Chain
    requires i < 4
  {
    hide ParamChain;
    ParamChain(FirstWord(p.outlen, |p.key|, 4, 2), i, 0x100 * OUTBYTES)
  }

  /** The chain value that the parameter block gives the root. */
  function RootChain(p: Setup): Chain {
    hide ParamChain;
    ParamChain(FirstWord(p.outlen, |p.key|, 4, 2), 0, 1 + 0x100 * OUTBYTES)
  }

  /** blake2bp_init_leaf: the parameter block of leaf i. */
  lemma LeafParam(p: Setup, i: nat)
    requires i < 4
    ensures InitParam(ParamBytes(Param(p.outlen, |p.key|, 4, 2, i, 0, 64))) == LeafChain(p, i)
  {
    hide InitParam, ParamBytes, ParamChain, FirstWord;
    InitParamIs(Param(p.outlen, |p.key|, 4, 2, i, 0, 64));
  }

  /** blake2bp_init_root: the parameter block of the root. */
  lemma RootParam(p: Setup)
    ensures InitParam(ParamBytes(Param(p.outlen, |p.key|, 4, 2, 0, 1, 64))) == RootChain(p)
  {
    hide InitParam, ParamBytes, ParamChain, FirstWord;
    InitParamIs(Param(p.outlen, |p.key|, 4, 2, 0, 1, 64));
  }

  /** The four leaves and the root start from different chain values, and none from that of the sequential hash. */
  lemma ChainsDiffer(p: Setup, i: nat, j: nat)
    requires i < j < 4
    ensures LeafChain(p, i) != LeafChain(p, j)
    ensures RootChain(p) != LeafChain(p, i) && RootChain(p) != LeafChain(p, j)
    ensures var single := ParamChain(FirstWord(p.outlen, |p.key|, 1, 1), 0, 0);
            single != RootChain(p) && single != LeafChain(p, i) && single != LeafChain(p, j)
  {
    hide FirstWord, Xored, Bits;
    SmallBits();
    XorDiffers(IV[1], Bits(i), Bits(j));
    XorDiffers(IV[2], Bits(0), Bits(0x4000));
    XorDiffers(IV[2], Bits(0), Bits(0x4001));
    XorDiffers(IV[2], Bits(0x4000), Bits(0x4001));
  }

  lemma SmallBits()
    ensures Bits(0) == 0 && Bits(1) == 1 && Bits(2) == 2 && Bits(3) == 3
    ensures Bits(0x4000) == 0x4000 && Bits(0x4001) == 0x4001
  {
  }

  lemma XorDiffers(x: bv64, y: bv64, z: bv64)
    ensures y != z ==> Xored(x, y) != Xored(x, z)
  {
  }

  /** The digest of leaf i over the key block and data. */
  function LeafDigest(p: Setup, data: seq<Byte>, i: nat): (d: seq<Byte>)
    requires i < 4
    ensures |d| == OUTBYTES
  {
    hide Digest, LeafChain;
    Digest(LeafChain(p, i), KeyBlock(p.key) + data, i == 3, OUTBYTES)
  }

  /** The digests of the first n leaves, one after the other. */
  function LeafDigests(p: Setup, msg: seq<Byte>, n: nat): seq<Byte>
    requires n <= 4
  {
    if n == 0 then [] else LeafDigests(p, msg, n - 1) + LeafDigest(p, LeafBytes(msg, n - 1), n - 1)
  }

  /** The tree hash: a root over the digests of four leaves, last nodes marked on both levels. */
  function TreeHash(p: Setup, msg: seq<Byte>): seq<Byte> {
    hide Digest, RootChain, LeafDigests;
    Digest(RootChain(p), LeafDigests(p, msg, 4), true, p.outlen)
  }

  /** What a node began with: a chain value and a count, its flags, and the bytes it got first. */
  datatype Node = Node(start: Chain, base: nat, f0: bool, f1: bool, lastNode: bool, outlen: nat, first: seq<Byte>)

  /** s is the node n, and has been given data after its first bytes. */
  ghost predicate Holds(s: State, n: Node, data: seq<Byte>)
    reads s, s.buf
  {
    && s.Valid() && s.start == n.start && s.base == n.base && s.f0 == n.f0 && s.f1 == n.f1
    && s.lastNode == n.lastNode && s.outlen == n.outlen && s.data == n.first + data
  }

  function NewNode(start: Chain, lastNode: bool, outlen: nat, first: seq<Byte>): Node {
    Node(start, 0, false, false, lastNode, outlen, first)
  }

  function LeafNode(p: Setup, i: nat): Node
    requires i < 4
  {
    hide LeafChain;
    NewNode(LeafChain(p, i), i == 3, OUTBYTES, KeyBlock(p.key))
  }

  function RootNode(p: Setup): Node {
    hide RootChain;
    NewNode(RootChain(p), true, p.outlen, [])
  }

  /** blake2b_update on a node. */
  method UpdateNode(s: State, block: seq<Byte>, ghost n: Node, ghost data: seq<Byte>)
    requires Holds(s, n, data)
    modifies s, s.buf
    ensures Holds(s, n, data + block)
  {
    hide Absorbed, Counts, LastCut;
    assert n.first + data + block == n.first + (data + block);
    s.Update(block);
  }

  /** blake2b_final on a node; n' describes what it is afterwards. */
  method FinalNode(s: State, outSize: nat, ghost n: Node, ghost data: seq<Byte>)
    returns (ok: bool, out: seq<Byte>, ghost n': Node)
    requires Holds(s, n, data)
    modifies s, s.buf
    ensures n.outlen <= OUTBYTES && (ok <==> n.outlen <= outSize && !n.f0)
    ensures Holds(s, n', []) && n'.outlen == n.outlen && (n.f0 || ok ==> n'.f0)
    ensures ok ==> out == Digest(n.start, n.first + data, n.lastNode, n.outlen)
  {
    hide Digest, Absorbed, Counts, LastCut;
    ok, out := s.Final(outSize);
    n' := Node(s.start, s.base, s.f0, s.f1, s.lastNode, s.outlen, s.data);
  }

  method CreateNode(start: Chain, outlen: nat, lastNode: bool) returns (s: State)
    requires outlen <= OUTBYTES
    ensures Holds(s, NewNode(start, lastNode, outlen, []), []) && fresh(s) && fresh(s.buf)
  {
    hide Absorbed, Counts, LastCut;
    s := new State(start, outlen);
    if lastNode {
      s.MarkLastNode();
    }
  }

  /** What each of the four leaves has been given. */
  type Inputs = ds: seq<seq<Byte>> | |ds| == 4 witness [[], [], [], []]
  type Nodes = ns: seq<Node> | |ns| == 4 witness seq(4, i => Node(IV, 0, false, false, false, 0, []))

  function LeafNodes(p: Setup): Nodes {
    hide LeafNode;
    seq(4, i requires 0 <= i < 4 => LeafNode(p, i))
  }

  /** Nodes with no shared memory. */
  ghost predicate Separate(nodes: seq<State>) {
    forall i, j :: 0 <= i < j < |nodes| ==> nodes[i] != nodes[j] && nodes[i].buf != nodes[j].buf
  }

  /** Four leaves that are the nodes ns, and have been given ds. */
  ghost predicate Fed(leaves: seq<State>, ns: Nodes, ds: Inputs)
    requires |leaves| == 4
    reads leaves, set i | 0 <= i < |leaves| :: leaves[i].buf
  {
    Separate(leaves) && forall i :: 0 <= i < 4 ==> Holds(leaves[i], ns[i], ds[i])
  }

  /** blake2b_update on leaf i. */
  method Feed(leaves: seq<State>, i: nat, block: seq<Byte>, ghost ns: Nodes, ghost ds: Inputs)
    requires |leaves| == 4 && Fed(leaves, ns, ds) && i < 4
    modifies leaves[i], leaves[i].buf
    ensures Fed(leaves, ns, ds[i := ds[i] + block])
  {
    hide Holds;
    UpdateNode(leaves[i], block, ns[i], ds[i]);
  }

  /** blake2b_final on leaf i: its digest, or whatever the buffer for it holds if it fails. */
  method Finish(leaves: seq<State>, i: nat, junk: seq<Byte>, ghost ns: Nodes, ghost ds: Inputs)
    returns (out: seq<Byte>, ghost ns': Nodes, ghost ds': Inputs)
    requires |leaves| == 4 && Fed(leaves, ns, ds) && i < 4
    modifies leaves[i], leaves[i].buf
    ensures Fed(leaves, ns', ds') && ns' == ns[i := ns'[i]] && ds' == ds[i := []]
    ensures !ns[i].f0 && ns[i].outlen == OUTBYTES ==> out == Digest(ns[i].start, ns[i].first + ds[i], ns[i].lastNode,
                                                                    OUTBYTES)
  {
    hide Holds, Digest;
    var ok;
    ghost var n;
    ok, out, n := FinalNode(leaves[i], OUTBYTES, ns[i], ds[i]);
    if !ok {
      out := junk;
    }
    ns', ds' := ns[i := n], ds[i := []];
  }

  /** The bytes of n that make whole stripes. */
  function Whole(n: nat): (w: nat)
    ensures w <= n && w % STRIPE == 0 && n < w + STRIPE
  {
    n - n % 512
  }

  /** What the leaves have been given of m. */
  function Shares(m: seq<Byte>): Inputs { seq(4, i requires 0 <= i < 4 => LeafBytes(m, i)) }

  lemma NoShares()
    ensures Shares([]) == [[], [], [], []]
  {
  }

  /** The work of one leaf on all whole stripes of the input. */
  method FeedLeaf(leaves: seq<State>, i: nat, input: seq<Byte>, ghost base: seq<Byte>, ghost ns: Nodes, ghost ds: Inputs)
    returns (rest: seq<Byte>)
    requires |leaves| == 4 && Fed(leaves, ns, ds) && i < 4 && |base| % 512 == 0 && ds[i] == LeafBytes(base, i)
    modifies leaves[i], leaves[i].buf
    ensures Fed(leaves, ns, ds[i := LeafBytes(base + input[..Whole(|input|)], i)])
    ensures rest == input[Whole(|input|)..]
  {
    hide LeafBytes, Fed;
    rest := input;
    ghost var ds': Inputs := ds;
    ghost var at: nat := 0;
    assert base + input[..0] == base && ds[i := ds[i]] == ds;
    while |rest| >= 512
      invariant at % 512 == 0 && at <= |input| && rest == input[at..]
      invariant ds' == ds[i := LeafBytes(base + input[..at], i)] && Fed(leaves, ns, ds')
      decreases |rest|
    {
      var block := rest[128 * i..128 * i + 128];
      Feed(leaves, i, block, ns, ds');
      NextBlock(base, input, at, i);
      assert block == input[at + 128 * i..at + 128 * i + 128];
      ds' := ds'[i := ds'[i] + block];
      at := at + 512;
      rest := rest[512..];
    }
  }

  /** The leaves one after another, each on all whole stripes. */
  method FeedInTurn(leaves: seq<State>, input: seq<Byte>, ghost base: seq<Byte>, ghost ns: Nodes)
    requires |leaves| == 4 && Fed(leaves, ns, Shares(base)) && |base| % 512 == 0
    modifies leaves, set i | 0 <= i < |leaves| :: leaves[i].buf
    ensures Fed(leaves, ns, Shares(base + input[..Whole(|input|)]))
  {
    hide LeafBytes, Fed;
    ghost var ds: Inputs := Shares(base);
    ghost var all := base + input[..Whole(|input|)];
    for i := 0 to 4
      invariant Fed(leaves, ns, ds)
      invariant forall j :: 0 <= j < i ==> ds[j] == LeafBytes(all, j)
      invariant forall j :: i <= j < 4 ==> ds[j] == LeafBytes(base, j)
    {
      var rest := FeedLeaf(leaves, i, input, base, ns, ds);
      ds := ds[i := LeafBytes(all, i)];
    }
    assert ds == Shares(all);
  }

  /** Four threads: at each step any leaf that has stripes left takes its next block. */
  method FeedInterleaved(leaves: seq<State>, input: seq<Byte>, ghost base: seq<Byte>, ghost ns: Nodes)
    requires |leaves| == 4 && Fed(leaves, ns, Shares(base)) && |base| % 512 == 0
    modifies leaves, set i | 0 <= i < |leaves| :: leaves[i].buf
    ensures Fed(leaves, ns, Shares(base + input[..Whole(|input|)]))
  {
    hide LeafBytes, Fed;
    var n := |input| / 512;
    var at: seq<nat> := [0, 0, 0, 0];
    ghost var ds: Inputs := Shares(base);
    assert base + input[..0] == base;
    while at != [n, n, n, n]
      invariant |at| == 4 && forall j :: 0 <= j < 4 ==> at[j] <= n
      invariant Fed(leaves, ns, ds)
      invariant forall j :: 0 <= j < 4 ==> ds[j] == LeafBytes(base + input[..512 * at[j]], j)
      decreases 4 * n - at[0] - at[1] - at[2] - at[3]
    {
      var i :| 0 <= i < 4 && at[i] < n;
      var k := 512 * at[i];
      Feed(leaves, i, input[k + 128 * i..k + 128 * i + 128], ns, ds);
      NextBlock(base, input, k, i);
      ds := ds[i := LeafBytes(base + input[..512 * at[i] + 512], i)];
      at := at[i := at[i] + 1];
    }
    assert 512 * n == Whole(|input|);
    assert ds == Shares(base + input[..Whole(|input|)]);
  }

  /** The loop over the leaves, with or without threads. */
  method FeedStripes(leaves: seq<State>, input: seq<Byte>, parallel: bool, ghost base: seq<Byte>, ghost ns: Nodes)
    requires |leaves| == 4 && Fed(leaves, ns, Shares(base)) && |base| % 512 == 0
    modifies leaves, set i | 0 <= i < |leaves| :: leaves[i].buf
    ensures Fed(leaves, ns, Shares(base + input[..Whole(|input|)]))
  {
    hide LeafBytes, Fed;
    if parallel {
      FeedInterleaved(leaves, input, base, ns);
    } else {
      FeedInTurn(leaves, input, base, ns);
    }
  }

  /** The blocks of one full stripe, one for each leaf. */
  method FeedStripe(leaves: seq<State>, stripe: seq<Byte>, ghost base: seq<Byte>, ghost ns: Nodes)
    requires |leaves| == 4 && Fed(leaves, ns, Shares(base)) && |base| % 512 == 0 && |stripe| == 512
    modifies leaves, set i | 0 <= i < |leaves| :: leaves[i].buf
    ensures Fed(leaves, ns, Shares(base + stripe))
  {
    hide LeafBytes, Fed;
    ghost var ds: Inputs := Shares(base);
    for i := 0 to 4
      invariant Fed(leaves, ns, ds)
      invariant forall j :: 0 <= j < i ==> ds[j] == LeafBytes(base + stripe, j)
      invariant forall j :: i <= j < 4 ==> ds[j] == LeafBytes(base, j)
    {
      Feed(leaves, i, stripe[128 * i..128 * i + 128], ns, ds);
      AppendStripe(base, stripe, i);
      ShareOfFull(stripe, i);
      ds := ds[i := ds[i] + stripe[128 * i..128 * i + 128]];
    }
    assert ds == Shares(base + stripe);
  }

  /** blake2bp_init_leaf, last_node set on the fourth leaf. */
  method NewLeaf(p: Setup, i: nat) returns (s: State)
    requires i < 4
    ensures Holds(s, NewNode(LeafChain(p, i), i == 3, OUTBYTES, []), []) && fresh(s) && fresh(s.buf)
  {
    hide Holds, LeafChain, InitParam, ParamBytes;
    LeafParam(p, i);
    s := CreateNode(InitParam(ParamBytes(Param(p.outlen, |p.key|, 4, 2, i, 0, OUTBYTES))), OUTBYTES, i == 3);
  }

  /** blake2bp_init_root, last_node set. */
  method NewRoot(p: Setup) returns (s: State)
    ensures Holds(s, RootNode(p), []) && RootNode(p).outlen == p.outlen && !RootNode(p).f0
    ensures fresh(s) && fresh(s.buf)
  {
    hide Holds, RootChain, InitParam, ParamBytes;
    RootParam(p);
    s := CreateNode(InitParam(ParamBytes(Param(p.outlen, |p.key|, 4, 2, 0, 1, OUTBYTES))), p.outlen, true);
  }

  /** blake2bp_init_leaf for every leaf, and the key block if there is a key. */
  method NewLeaves(p: Setup) returns (leaves: seq<State>)
    ensures |leaves| == 4 && Separate(leaves) && Fed(leaves, LeafNodes(p), Shares([]))
    ensures forall i :: 0 <= i < 4 ==> fresh(leaves[i]) && fresh(leaves[i].buf)
  {
    hide Holds, Fed, LeafChain;
    leaves := [];
    for i := 0 to 4
      invariant |leaves| == i && Separate(leaves)
      invariant forall j :: 0 <= j < i ==> fresh(leaves[j]) && fresh(leaves[j].buf)
      invariant forall j :: 0 <= j < i ==> allocated(leaves[j]) && allocated(leaves[j].buf)
      invariant forall j :: 0 <= j < i ==> Holds(leaves[j], NewNode(LeafChain(p, j), j == 3, OUTBYTES, []), [])
    {
      var s := NewLeaf(p, i);
      leaves := leaves + [s];
    }
    FeedKey(leaves, p);
  }

  method FeedKey(leaves: seq<State>, p: Setup)
    requires |leaves| == 4 && Separate(leaves)
    requires forall j :: 0 <= j < 4 ==> Holds(leaves[j], NewNode(LeafChain(p, j), j == 3, OUTBYTES, []), [])
    modifies leaves, set i | 0 <= i < |leaves| :: leaves[i].buf
    ensures Fed(leaves, LeafNodes(p), Shares([]))
  {
    hide Holds, LeafChain, Padded;
    var block := KeyBlock(p.key);
    if p.key != [] {
      for i := 0 to 4
        invariant forall j :: 0 <= j < i ==> Holds(leaves[j], NewNode(LeafChain(p, j), j == 3, OUTBYTES, []), [] + block)
        invariant forall j :: i <= j < 4 ==> Holds(leaves[j], NewNode(LeafChain(p, j), j == 3, OUTBYTES, []), [])
      {
        UpdateNode(leaves[i], block, NewNode(LeafChain(p, i), i == 3, OUTBYTES, []), []);
      }
    } else {
      assert [] + block == [];
    }
    NoShares();
    forall j | 0 <= j < 4 ensures Holds(leaves[j], LeafNode(p, j), []) {
      FirstBytes(leaves[j], LeafChain(p, j), j == 3, block);
    }
  }

  /** Bytes given to a fresh node may count as its first ones. */
  lemma FirstBytes(s: State, start: Chain, lastNode: bool, block: seq<Byte>)
    requires Holds(s, NewNode(start, lastNode, OUTBYTES, []), [] + block)
    ensures Holds(s, NewNode(start, lastNode, OUTBYTES, block), [])
  {
    assert [] + ([] + block) == block + [];
  }

  /** The root over the four digests. */
  method HashRoot(root: State, hash: seq<seq<Byte>>, outSize: nat, ghost n: Node)
    returns (ok: bool, out: seq<Byte>, ghost n': Node)
    requires Holds(root, n, []) && |hash| == 4
    modifies root, root.buf
    ensures n.outlen <= OUTBYTES && (ok <==> n.outlen <= outSize && !n.f0)
    ensures Holds(root, n', []) && n'.outlen == n.outlen && (n.f0 || ok ==> n'.f0)
    ensures ok ==> out == Digest(n.start, n.first + Concat(hash), n.lastNode, n.outlen)
  {
    hide Holds, Digest;
    for i := 0 to 4
      invariant Holds(root, n, Concat(hash[..i]))
    {
      UpdateNode(root, hash[i], n, Concat(hash[..i]));
      assert hash[..i + 1][..i] == hash[..i];
    }
    assert hash[..4] == hash;
    ok, out, n' := FinalNode(root, outSize, n, Concat(hash));
  }

  /** The digests of the leaves are those of the message. */
  ghost predicate DigestsOf(hash: seq<seq<Byte>>, p: Setup, msg: seq<Byte>) {
    |hash| == 4 && forall i :: 0 <= i < 4 ==> hash[i] == LeafDigest(p, LeafBytes(msg, i), i)
  }

  lemma RootDigest(hash: seq<seq<Byte>>, p: Setup, msg: seq<Byte>)
    requires DigestsOf(hash, p, msg)
    ensures var n := RootNode(p); Digest(n.start, n.first + Concat(hash), n.lastNode, n.outlen) == TreeHash(p, msg)
  {
    hide Digest, LeafDigest, LeafBytes, RootChain;
    ConcatIsDigests(hash, p, msg, 4);
    assert hash[..4] == hash && [] + Concat(hash) == Concat(hash);
  }

  lemma {:induction false} ConcatIsDigests(hash: seq<seq<Byte>>, p: Setup, msg: seq<Byte>, n: nat)
    requires DigestsOf(hash, p, msg) && n <= 4
    ensures Concat(hash[..n]) == LeafDigests(p, msg, n)
  {
    hide LeafDigest, LeafBytes;
    if n > 0 {
      ConcatIsDigests(hash, p, msg, n - 1);
      assert hash[..n][..n - 1] == hash[..n - 1];
    }
  }

  lemma LeafNodeDigest(p: Setup, i: nat, data: seq<Byte>)
    requires i < 4
    ensures var n := LeafNode(p, i);
            !n.f0 && n.outlen == OUTBYTES && Digest(n.start, n.first + data, n.lastNode, OUTBYTES) == LeafDigest(p, data, i)
  {
    hide Digest, LeafChain;
  }

  /** The share of leaf i in an unfinished stripe, if any. */
  method FeedShare(leaves: seq<State>, i: nat, rest: seq<Byte>, ghost ns: Nodes, ghost ds: Inputs)
    returns (ghost ds': Inputs)
    requires |leaves| == 4 && i < 4 && Fed(leaves, ns, ds) && |rest| < STRIPE
    modifies leaves[i], leaves[i].buf
    ensures Fed(leaves, ns, ds') && ds' == ds[i := ds[i] + Share(rest, i)]
  {
    hide Fed;
    ds' := ds;
    if |rest| > 128 * i {
      var left := |rest| - 128 * i;
      var len := if left <= BLOCKBYTES then left else BLOCKBYTES;
      Feed(leaves, i, rest[128 * i..128 * i + len], ns, ds);
      ds' := ds[i := ds[i] + rest[128 * i..128 * i + len]];
      assert rest[128 * i..128 * i + len] == Share(rest, i);
    } else {
      assert ds[i] + Share(rest, i) == ds[i];
    }
  }

  /** The end of thread i in the one-shot form: its share of the last stripe, and its digest. */
  method EndLeaf(leaves: seq<State>, i: nat, input: seq<Byte>, ghost p: Setup, ghost ns: Nodes, ghost ds: Inputs)
    returns (h: seq<Byte>, ghost ns': Nodes, ghost ds': Inputs)
    requires |leaves| == 4 && i < 4 && Fed(leaves, ns, ds) && ns[i] == LeafNode(p, i)
    requires ds[i] == LeafBytes(input[..Whole(|input|)], i)
    modifies leaves[i], leaves[i].buf
    ensures Fed(leaves, ns', ds') && h == LeafDigest(p, LeafBytes(input, i), i)
    ensures ns' == ns[i := ns'[i]] && ds' == ds[i := []]
  {
    hide Fed, LeafBytes, Share, Digest, LeafNode, LeafDigest;
    ghost var done := input[..Whole(|input|)];
    var rest := input[Whole(|input|)..];
    AppendStripe(done, rest, i);
    assert done + rest == input;
    ds' := FeedShare(leaves, i, rest, ns, ds);
    LeafNodeDigest(p, i, ds'[i]);
    h, ns', ds' := Finish(leaves, i, [], ns, ds');
  }

  /** The threads of the one-shot form, one after the other. */
  method HashInTurn(leaves: seq<State>, input: seq<Byte>, ghost p: Setup) returns (hash: seq<seq<Byte>>)
    requires |leaves| == 4 && Fed(leaves, LeafNodes(p), Shares([]))
    modifies leaves, set i | 0 <= i < |leaves| :: leaves[i].buf
    ensures DigestsOf(hash, p, input)
  {
    hide Fed, LeafDigest, LeafBytes, LeafNode;
    ghost var ns: Nodes, ds: Inputs := LeafNodes(p), Shares([]);
    hash := [];
    for i := 0 to 4
      invariant Fed(leaves, ns, ds)
      invariant forall j :: i <= j < 4 ==> ds[j] == LeafBytes([], j) && ns[j] == LeafNode(p, j)
      invariant |hash| == i && forall j :: 0 <= j < i ==> hash[j] == LeafDigest(p, LeafBytes(input, j), j)
    {
      var rest := FeedLeaf(leaves, i, input, [], ns, ds);
      ghost var done := input[..Whole(|input|)];
      assert [] + done == done;
      ds := ds[i := LeafBytes(done, i)];
      var h;
      h, ns, ds := EndLeaf(leaves, i, input, p, ns, ds);
      hash := hash + [h];
    }
  }

  /** What the threads keep: thread j has taken at[j] stripes, or has ended. */
  ghost predicate Threads(at: seq<nat>, n: nat, hash: seq<seq<Byte>>, p: Setup, input: seq<Byte>, ns: Nodes, ds: Inputs)
    requires n == |input| / 512
  {
    && |at| == 4 == |hash| && (forall j :: 0 <= j < 4 ==> at[j] <= n + 1)
    && (forall j :: 0 <= j < 4 && at[j] <= n ==> ns[j] == LeafNode(p, j) && ds[j] == LeafBytes(input[..512 * at[j]], j))
    && (forall j :: 0 <= j < 4 && at[j] == n + 1 ==> hash[j] == LeafDigest(p, LeafBytes(input, j), j))
  }

  /** The threads of the one-shot form in any interleaving: each takes its blocks, then its share and its digest. */
  method HashInterleaved(leaves: seq<State>, input: seq<Byte>, ghost p: Setup) returns (hash: seq<seq<Byte>>)
    requires |leaves| == 4 && Fed(leaves, LeafNodes(p), Shares([]))
    modifies leaves, set i | 0 <= i < |leaves| :: leaves[i].buf
    ensures DigestsOf(hash, p, input)
  {
    hide Fed, LeafDigest, LeafBytes, LeafNode, Threads;
    var n := |input| / 512;
    var at: seq<nat> := [0, 0, 0, 0];
    ghost var ns: Nodes, ds: Inputs := LeafNodes(p), Shares([]);
    hash := [[], [], [], []];
    ThreadsStart(hash, p, input);
    while at != [n + 1, n + 1, n + 1, n + 1]
      invariant |at| == 4 && (forall j :: 0 <= j < 4 ==> at[j] <= n + 1)
      invariant Fed(leaves, ns, ds) && Threads(at, n, hash, p, input, ns, ds)
      decreases 4 * n + 4 - at[0] - at[1] - at[2] - at[3]
    {
      var i :| 0 <= i < 4 && at[i] <= n;
      hash, ns, ds := StepThread(leaves, i, input, at, hash, p, ns, ds);
      at := at[i := at[i] + 1];
    }
    ThreadsEnd(at, hash, p, input, ns, ds);
  }

  lemma ThreadsStart(hash: seq<seq<Byte>>, p: Setup, input: seq<Byte>)
    requires |hash| == 4
    ensures Threads([0, 0, 0, 0], |input| / 512, hash, p, input, LeafNodes(p), Shares([]))
  {
    hide LeafDigest, LeafBytes, LeafNode;
    assert input[..0] == [];
  }

  lemma ThreadsEnd(at: seq<nat>, hash: seq<seq<Byte>>, p: Setup, input: seq<Byte>, ns: Nodes, ds: Inputs)
    requires var n := |input| / 512; Threads(at, n, hash, p, input, ns, ds) && at == [n + 1, n + 1, n + 1, n + 1]
    ensures DigestsOf(hash, p, input)
  {
    hide LeafDigest, LeafBytes, LeafNode;
  }

  /** One step of thread i: its next block, or its end. */
  method StepThread(leaves: seq<State>, i: nat, input: seq<Byte>, at: seq<nat>, hash: seq<seq<Byte>>,
                    ghost p: Setup, ghost ns: Nodes, ghost ds: Inputs)
    returns (hash': seq<seq<Byte>>, ghost ns': Nodes, ghost ds': Inputs)
    requires |leaves| == 4 && Fed(leaves, ns, ds) && Threads(at, |input| / 512, hash, p, input, ns, ds)
    requires |at| == 4 && i < 4 && at[i] <= |input| / 512
    modifies leaves[i], leaves[i].buf
    ensures Fed(leaves, ns', ds') && Threads(at[i := at[i] + 1], |input| / 512, hash', p, input, ns', ds')
  {
    hide Fed, LeafDigest, LeafBytes, LeafNode;
    hash', ns', ds' := hash, ns, ds;
    var n, k := |input| / 512, 512 * at[i];
    if at[i] < n {
      assert [] + input[..k] == input[..k] && [] + input[..k + 512] == input[..k + 512];
      Feed(leaves, i, input[k + 128 * i..k + 128 * i + 128], ns, ds);
      NextBlock([], input, k, i);
      ds' := ds[i := LeafBytes(input[..k + 512], i)];
    } else {
      assert k == Whole(|input|);
      var h;
      h, ns', ds' := EndLeaf(leaves, i, input, p, ns, ds);
      hash' := hash[i := h];
    }
  }

  /** blake2bp: the one-shot form. */
  method Hash(outlen: nat, input: seq<Byte>, key: seq<Byte>, parallel: bool) returns (ok: bool, out: seq<Byte>)
    ensures ok <==> ValidLengths(outlen, |key|)
    ensures ok ==> out == TreeHash(Request(outlen, key), input)
  {
    hide Holds, Fed, RootNode, LeafBytes, TreeHash, Digest, DigestsOf;
    if outlen == 0 || outlen > OUTBYTES || |key| > KEYBYTES {
      return false, [];
    }
    var p: Setup := Request(outlen, key);
    var leaves := NewLeaves(p);
    var hash: seq<seq<Byte>>;
    if parallel {
      hash := HashInterleaved(leaves, input, p);
    } else {
      hash := HashInTurn(leaves, input, p);
    }
    var root := NewRoot(p);
    RootDigest(hash, p, input);
    HashCount(hash, p, input);
    ghost var n;
    ok, out, n := HashRoot(root, hash, outlen, RootNode(p));
  }

  lemma HashCount(hash: seq<seq<Byte>>, p: Setup, msg: seq<Byte>)
    requires DigestsOf(hash, p, msg)
    ensures |hash| == 4
  {
  }

  /** Where the bytes not yet given to a leaf begin, once the whole stripes of an input are gone. */
  lemma Tail(msg: seq<Byte>, input: seq<Byte>, held: nat)
    requires held <= |msg| && (|msg| - held) % STRIPE == 0
    requires held == 0 || |input| < STRIPE - held
    ensures var all, whole := msg + input, Whole(|input|);
            var left := held + |input| - whole;
            && left < STRIPE && left <= |all| && (|all| - left) % STRIPE == 0
            && all == msg[..|msg| - held] + input[..whole] + (msg[|msg| - held..] + input[whole..])
  {
  }

  /** blake2bp_state */
  class Tree {
    const leaves: seq<State>
    const root: State
    const buf: array<Byte>
    var buflen: nat
    const outlen: nat
    ghost var nodes: Nodes        // what the leaves and the root began with:
    ghost var top: Node           // as initialised, or as the last finalisation left them
    ghost var msg: seq<Byte>      // the message since then, including what stayed in the buffer

    ghost predicate Apart() {
      && |leaves| == 4 && Separate(leaves) && root !in leaves && buf.Length == STRIPE && buf != root.buf
      && forall i :: 0 <= i < 4 ==> leaves[i].buf != root.buf && leaves[i].buf != buf
    }

    /** Each leaf has its blocks of the whole stripes; the buffer holds the rest, less than a stripe. */
    ghost predicate Valid()
      reads this, buf, root, root.buf, leaves, set i | 0 <= i < |leaves| :: leaves[i].buf
    {
      && Apart() && outlen == top.outlen && buflen < STRIPE && buflen <= |msg| && (|msg| - buflen) % STRIPE == 0
      && buf[..buflen] == msg[|msg| - buflen..]
      && Fed(leaves, nodes, Shares(msg[..|msg| - buflen]))
      && Holds(root, top, [])
    }

    /** The tree is the one initialised for p, and not finalised. */
    ghost predicate Live(p: Setup)
      reads `nodes, `top
    {
      nodes == LeafNodes(p) && top == RootNode(p)
    }

    /** blake2bp_init and blake2bp_init_key, once the lengths are accepted. */
    constructor (p: Setup)
      ensures Valid() && Live(p) && msg == []
      ensures fresh(buf) && fresh(root) && fresh(root.buf)
      ensures forall i :: 0 <= i < 4 ==> fresh(leaves[i]) && fresh(leaves[i].buf)
    {
      hide Holds, Fed, RootNode, LeafBytes, Shares, LeafNodes, LeafNode, Digest, Absorbed, LastCut, Counts;
      var b := new Byte[STRIPE](i => 0);
      var r := NewRoot(p);
      var l := NewLeaves(p);
      this.buf, this.root, this.leaves, this.buflen, this.outlen := b, r, l, 0, p.outlen;
      this.nodes, this.top, this.msg := LeafNodes(p), RootNode(p), [];
      new;
      assert buf[..0] == [];
      Restarted();
    }

    method CopyIn(at: nat, input: seq<Byte>)
      requires at + |input| <= buf.Length
      modifies buf
      ensures buf[..at] == old(buf[..at]) && buf[at..at + |input|] == input
    {
      forall i | 0 <= i < |input| { buf[at + i] := input[i]; }
    }

    /** Complete the buffered stripe and give it to the leaves. */
    method Flush(fill: seq<Byte>)
      requires Valid() && |fill| == STRIPE - buflen
      modifies `buflen, `msg, buf, leaves, set i | 0 <= i < |leaves| :: leaves[i].buf
      ensures Valid() && msg == old(msg) + fill && buflen == 0
    {
      hide Holds, Fed, LeafBytes, Shares, Separate;
      ghost var base := msg[..|msg| - buflen];
      assert msg + fill == base + (buf[..buflen] + fill);
      CopyIn(buflen, fill);
      FeedStripe(leaves, buf[..], base, nodes);
      assert buf[..] == old(buf[..buflen]) + fill;
      msg := msg + fill;
      buflen := 0;
      assert msg[..|msg|] == msg && buf[..0] == [];
    }

    /** Give the leaves all whole stripes of the input and keep the rest. */
    method Absorb(input: seq<Byte>, parallel: bool)
      requires Valid() && (buflen == 0 || |input| < STRIPE - buflen)
      modifies `buflen, `msg, buf, leaves, set i | 0 <= i < |leaves| :: leaves[i].buf
      ensures Valid() && msg == old(msg) + input
    {
      hide Holds, Fed, LeafBytes, Shares, Whole, Separate;
      ghost var base := msg[..|msg| - buflen];
      FeedStripes(leaves, input, parallel, base, nodes);
      Tail(msg, input, buflen);
      Keep(input[Whole(|input|)..], base + input[..Whole(|input|)], msg + input);
    }

    /** Buffer the input that follows the whole stripes. */
    method Keep(rest: seq<Byte>, ghost base: seq<Byte>, ghost all: seq<Byte>)
      requires Apart() && outlen == top.outlen && buflen + |rest| < STRIPE && |base| % STRIPE == 0
      requires Fed(leaves, nodes, Shares(base)) && Holds(root, top, [])
      requires all == base + (buf[..buflen] + rest)
      modifies `buflen, `msg, buf
      ensures Valid() && msg == all
    {
      hide Holds, Fed, LeafBytes, Shares, Separate;
      ghost var held := buf[..buflen];
      CopyIn(buflen, rest);
      buflen := buflen + |rest|;
      msg := all;
      assert buf[..buflen] == held + rest;
      assert msg[..|msg| - buflen] == base;
    }

    /** blake2bp_update, with the leaves run in turn or by threads; also after a finalisation. */
    method Update(input: seq<Byte>, parallel: bool)
      requires Valid()
      modifies `buflen, `msg, buf, leaves, set i | 0 <= i < |leaves| :: leaves[i].buf
      ensures Valid() && msg == old(msg) + input
    {
      hide Holds, Fed, LeafBytes, Shares;
      var rest := input;
      if buflen != 0 && |input| >= STRIPE - buflen {
        var fill := STRIPE - buflen;
        Flush(input[..fill]);
        rest := input[fill..];
        assert old(msg) + input[..fill] + rest == old(msg) + input;
      }
      Absorb(rest, parallel);
    }

    /** Each leaf in turn gets its share of the buffer and is finalised. */
    method EndLeaves(junk: seq<seq<Byte>>, ghost p: Setup) returns (hash: seq<seq<Byte>>)
      requires Valid() && |junk| == 4
      modifies `nodes, leaves, set i | 0 <= i < |leaves| :: leaves[i].buf
      ensures |hash| == 4 && Fed(leaves, nodes, Shares([])) && Holds(root, top, [])
      ensures old(nodes) == LeafNodes(p) ==> DigestsOf(hash, p, msg)
    {
      hide Holds, Fed, LeafBytes, LeafDigest, Share, Digest, LeafNode, Separate;
      ghost var base, ns: Nodes, ds: Inputs := msg[..|msg| - buflen], nodes, Shares(msg[..|msg| - buflen]);
      hash := [];
      assert base + buf[..buflen] == msg;
      for i := 0 to 4
        invariant Fed(leaves, ns, ds) && Holds(root, top, []) && base + buf[..buflen] == msg
        invariant forall j :: i <= j < 4 ==> ds[j] == LeafBytes(base, j) && ns[j] == nodes[j]
        invariant forall j :: 0 <= j < i ==> ds[j] == []
        invariant |hash| == i && nodes == old(nodes)
        invariant nodes == LeafNodes(p) ==> forall j :: 0 <= j < i ==> hash[j] == LeafDigest(p, LeafBytes(msg, j), j)
      {
        ds := FeedShare(leaves, i, buf[..buflen], ns, ds);
        AppendStripe(base, buf[..buflen], i);
        LeafNodeDigest(p, i, ds[i]);
        var h;
        h, ns, ds := Finish(leaves, i, junk[i], ns, ds);
        hash := hash + [h];
      }
      assert nodes == LeafNodes(p) ==> DigestsOf(hash, p, msg);
      nodes := ns;
      NoShares();
      assert ds == Shares([]);
    }

    /**
     * blake2bp_final. After a success every later call fails: the leaves refuse to finalise again,
     * their places in the array of digests keep the junk of the stack, and the root refuses too.
     */
    method Final(outSize: nat, junk: seq<seq<Byte>>, ghost p: Setup) returns (ok: bool, out: seq<Byte>)
      requires Valid() && |junk| == 4
      modifies `nodes, `top, `msg, root, root.buf, leaves, set i | 0 <= i < |leaves| :: leaves[i].buf
      ensures Valid()
      ensures ok <==> outlen <= outSize && !old(top.f0)
      ensures ok && old(Live(p)) ==> out == TreeHash(p, old(msg))
      ensures old(top.f0) || ok ==> top.f0
      ensures outSize < outlen ==> msg == old(msg) && nodes == old(nodes) && top == old(top)
    {
      hide Holds, Fed, LeafBytes, LeafDigest, TreeHash, Share, Shares, Digest, DigestsOf, LeafNodes, RootNode, Separate,
           Concat;
      if outSize < outlen {
        return false, [];
      }
      var hash := EndLeaves(junk, p);
      ok, out := EndRoot(hash, p);
      msg := msg[|msg| - buflen..];
      Restarted();
    }

    /** The root gets the digests and is finalised. */
    method EndRoot(hash: seq<seq<Byte>>, ghost p: Setup) returns (ok: bool, out: seq<Byte>)
      requires Holds(root, top, []) && |hash| == 4 && outlen == top.outlen
      modifies `top, root, root.buf
      ensures Holds(root, top, []) && outlen == top.outlen && (ok <==> !old(top.f0)) && (old(top.f0) || ok ==> top.f0)
      ensures ok && old(top) == RootNode(p) && DigestsOf(hash, p, msg) ==> out == TreeHash(p, msg)
    {
      hide Holds, TreeHash, Digest, DigestsOf, RootNode, Concat;
      ghost var n;
      ok, out, n := HashRoot(root, hash, outlen, top);
      if top == RootNode(p) && DigestsOf(hash, p, msg) {
        RootDigest(hash, p, msg);
      }
      top := n;
    }

    /** Only the buffered bytes lie after a finalisation. */
    lemma Restarted()
      requires Apart() && outlen == top.outlen && buflen < STRIPE && |msg| == buflen && buf[..buflen] == msg
      requires Fed(leaves, nodes, Shares([])) && Holds(root, top, [])
      ensures Valid()
    {
      hide Holds, Fed, Shares, Separate;
      assert msg[..|msg| - buflen] == [] && msg[|msg| - buflen..] == msg;
    }
  }

  /** Any way of cutting a message into updates, each run in turn or by threads, gives the tree hash. */
  method HashChunks(outlen: nat, key: seq<Byte>, chunks: seq<seq<Byte>>, parallel: seq<bool>)
    returns (ok: bool, out: seq<Byte>)
    requires |parallel| == |chunks|
    ensures ok <==> ValidLengths(outlen, |key|)
    ensures ok ==> out == TreeHash(Request(outlen, key), Concat(chunks))
  {
    hide Holds, Fed, RootNode, LeafNodes, LeafBytes, TreeHash;
    if outlen == 0 || outlen > OUTBYTES || |key| > KEYBYTES {
      return false, [];
    }
    var p: Setup := Request(outlen, key);
    var s := new Tree(p);
    for i := 0 to |chunks|
      invariant s.Valid() && s.Live(p) && s.msg == Concat(chunks[..i]) && fresh(s)
      invariant fresh(s.buf) && fresh(s.root) && fresh(s.root.buf)
      invariant forall j :: 0 <= j < 4 ==> fresh(s.leaves[j]) && fresh(s.leaves[j].buf)
    {
      s.Update(chunks[i], parallel[i]);
      assert chunks[..i + 1][..i] == chunks[..i];
    }
    assert chunks[..|chunks|] == chunks;
    LiveTop(p);
    ok, out := s.Final(outlen, [[], [], [], []], p);
  }

  lemma LiveTop(p: Setup)
    ensures RootNode(p).outlen == p.outlen && !RootNode(p).f0
  {
  }
}
