/**
 * The index max-heap of batch verification: `heap` holds indices into `scalars`, ordered by
 * the scalars they point at.
 */
module BatchHeap {
  import opened ScalarLimbs
  import opened Groups

  /** h[..n] and pos[..n] are inverse permutations of 0..n-1. */
  ghost predicate Inverse(h: seq<nat>, pos: seq<nat>, n: nat) {
    && n <= |h| && n <= |pos|
    && (forall k :: 0 <= k < n ==> h[k] < n && pos[h[k]] == k)
    && (forall i :: 0 <= i < n ==> pos[i] < n && h[pos[i]] == i)
  }

  /** Indices stay in range of the keys. */
  ghost predicate InRange(h: seq<nat>, key: seq<nat>, n: nat) {
    n <= |h| && forall k :: 0 <= k < n ==> h[k] < |key|
  }

  /** The edge from node k to its parent is in order. */
  ghost predicate EdgeOk(h: seq<nat>, key: seq<nat>, n: nat, k: nat)
    requires InRange(h, key, n) && 1 <= k < n
  {
    key[h[k]] <= key[h[(k - 1) / 2]]
  }

  ghost predicate Ordered(h: seq<nat>, key: seq<nat>, n: nat)
    requires InRange(h, key, n)
  {
    forall k :: 1 <= k < n ==> EdgeOk(h, key, n, k)
  }

  /** The children of `node` are no larger than its parent. */
  ghost predicate Bridged(h: seq<nat>, key: seq<nat>, n: nat, node: nat)
    requires InRange(h, key, n)
  {
    && (1 <= node && 2 * node + 1 < n ==> key[h[2 * node + 1]] <= key[h[(node - 1) / 2]])
    && (1 <= node && 2 * node + 2 < n ==> key[h[2 * node + 2]] <= key[h[(node - 1) / 2]])
  }

  /** Sifting down: every edge that does not touch `hole` is in order. */
  ghost predicate OrderedAround(h: seq<nat>, key: seq<nat>, n: nat, hole: nat)
    requires InRange(h, key, n)
  {
    && (forall k :: 1 <= k < n && k != hole && (k - 1) / 2 != hole ==> EdgeOk(h, key, n, k))
    && Bridged(h, key, n, hole)
  }

  /** Sifting up: every edge but the one above `node` is in order. */
  ghost predicate OrderedBelow(h: seq<nat>, key: seq<nat>, n: nat, node: nat)
    requires InRange(h, key, n)
  {
    && (forall k :: 1 <= k < n && k != node ==> EdgeOk(h, key, n, k))
    && Bridged(h, key, n, node)
  }

  function Swapped(h: seq<nat>, a: nat, b: nat): seq<nat>
    requires a < |h| && b < |h|
  {
    h[a := h[b]][b := h[a]]
  }

  lemma SwapInverse(h: seq<nat>, pos: seq<nat>, n: nat, a: nat, b: nat)
    requires Inverse(h, pos, n) && a < n && b < n
    ensures Inverse(Swapped(h, a, b), Swapped(pos, h[a], h[b]), n)
  {
  }

  // ---------------------------------------------------------------------------------------
  // What the loops compute, as functions of the entries h of all |h| nodes
  // ---------------------------------------------------------------------------------------

  /** The entry at `node` moves up past every smaller parent, and past an equal one unless strict. */
  function Rise(h: seq<nat>, key: seq<nat>, node: nat, strict: bool): (r: seq<nat>)
    requires node < |h| && InRange(h, key, |h|)
    ensures |r| == |h| && InRange(r, key, |r|)
    decreases node
  {
    if node == 0 then h
    else
      var parent := (node - 1) / 2;
      var a, b := key[h[parent]], key[h[node]];
      if a < b || (a == b && !strict) then Rise(Swapped(h, parent, node), key, parent, strict) else h
  }

  /** The entry at `node` changes places with the larger child down to a leaf, which is the second result. */
  function Sink(h: seq<nat>, key: seq<nat>, node: nat): (r: (seq<nat>, nat))
    requires node < |h| && InRange(h, key, |h|)
    ensures |r.0| == |h| && InRange(r.0, key, |h|) && r.1 < |h|
    decreases |h| - node
  {
    if 2 * node + 2 < |h| then
      var child := LargerChild(h, key, |h|, node);
      Sink(Swapped(h, node, child), key, child)
    else (h, node)
  }

  lemma SinkDown(h: seq<nat>, key: seq<nat>, node: nat, child: nat)
    requires 2 * node + 2 < |h| && InRange(h, key, |h|)
    requires child == if key[h[2 * node + 1]] < key[h[2 * node + 2]] then 2 * node + 2 else 2 * node + 1
    ensures InRange(Swapped(h, node, child), key, |h|)
    ensures Sink(h, key, node) == Sink(Swapped(h, node, child), key, child)
  {
  }

  lemma SinkLeaf(h: seq<nat>, key: seq<nat>, node: nat)
    requires node < |h| <= 2 * node + 2 && InRange(h, key, |h|)
    ensures Sink(h, key, node) == (h, node)
  {
  }

  lemma RiseUp(h: seq<nat>, key: seq<nat>, node: nat, strict: bool)
    requires 0 < node < |h| && InRange(h, key, |h|)
    ensures var parent := (node - 1) / 2;
            && InRange(Swapped(h, parent, node), key, |h|)
            && Rise(h, key, node, strict)
               == if key[h[parent]] < key[h[node]] || (key[h[parent]] == key[h[node]] && !strict)
                  then Rise(Swapped(h, parent, node), key, parent, strict) else h
  {
  }

  lemma RiseTop(h: seq<nat>, key: seq<nat>, strict: bool)
    requires 0 < |h| && InRange(h, key, |h|)
    ensures Rise(h, key, 0, strict) == h
  {
  }

  /** Sift the root to a leaf and back up. */
  function Repair(h: seq<nat>, key: seq<nat>): (r: seq<nat>)
    requires 0 < |h| && InRange(h, key, |h|)
    ensures |r| == |h| && InRange(r, key, |r|)
  {
    var (mid, leaf) := Sink(h, key, 0);
    Rise(mid, key, leaf, false)
  }

  /** The next index joins as the last node and moves up. */
  function Insert(h: seq<nat>, key: seq<nat>): (r: seq<nat>)
    requires |h| < |key| && InRange(h, key, |h|)
    ensures |r| == |h| + 1 && InRange(r, key, |r|)
  {
    Rise(h + [|h|], key, |h|, true)
  }

  /** Indices join until there are n of them. */
  function Inserts(h: seq<nat>, key: seq<nat>, n: nat): (r: seq<nat>)
    requires n <= |key| && InRange(h, key, |h|)
    ensures |r| == (if |h| < n then n else |h|) && InRange(r, key, |r|)
    decreases n - |h|
  {
    if |h| < n then Inserts(Insert(h, key), key, n) else h
  }

  /** The root, and the larger of the nodes below it. */
  function TopOf(h: seq<nat>, key: seq<nat>): (r: (nat, nat))
    requires 3 <= |h| && InRange(h, key, |h|)
    ensures r.0 < |key| && r.1 < |key|
  {
    (h[0], if key[h[1]] < key[h[2]] then h[2] else h[1])
  }

  /** Nodes below the start are not touched, and the start gets a smaller entry or keeps its own. */
  lemma {:induction false} RiseLast(h: seq<nat>, key: seq<nat>, node: nat)
    requires node < |h| && InRange(h, key, |h|)
    ensures forall k :: node < k < |h| ==> Rise(h, key, node, true)[k] == h[k]
    ensures var r, parent := Rise(h, key, node, true), (node - 1) / 2;
            r[node] == if node > 0 && key[h[parent]] < key[h[node]] then h[parent] else h[node]
    decreases node
  {
    if node > 0 {
      var parent := (node - 1) / 2;
      if key[h[parent]] < key[h[node]] { RiseLast(Swapped(h, parent, node), key, parent); }
    }
  }

  /** All entries are below m. */
  ghost predicate Below(h: seq<nat>, m: nat) {
    forall k :: 0 <= k < |h| ==> h[k] < m
  }

  lemma {:induction false} RiseBelow(h: seq<nat>, key: seq<nat>, node: nat, strict: bool, m: nat)
    requires node < |h| && InRange(h, key, |h|) && Below(h, m)
    ensures Below(Rise(h, key, node, strict), m)
    decreases node
  {
    if node > 0 { RiseBelow(Swapped(h, (node - 1) / 2, node), key, (node - 1) / 2, strict, m); }
  }

  lemma {:induction false} SinkBelow(h: seq<nat>, key: seq<nat>, node: nat, m: nat)
    requires node < |h| && InRange(h, key, |h|) && Below(h, m)
    ensures Below(Sink(h, key, node).0, m)
    decreases |h| - node
  {
    if 2 * node + 2 < |h| {
      var child := LargerChild(h, key, |h|, node);
      SinkBelow(Swapped(h, node, child), key, child, m);
    }
  }

  lemma RepairBelow(h: seq<nat>, key: seq<nat>, m: nat)
    requires 0 < |h| && InRange(h, key, |h|) && Below(h, m)
    ensures Below(Repair(h, key), m)
  {
    var (mid, leaf) := Sink(h, key, 0);
    SinkBelow(h, key, 0, m);
    RiseBelow(mid, key, leaf, false, m);
  }

  lemma {:induction false} InsertsBelow(h: seq<nat>, key: seq<nat>, n: nat)
    requires |h| <= n <= |key| && InRange(h, key, |h|) && Below(h, |h|)
    ensures Below(Inserts(h, key, n), n)
    decreases n - |h|
  {
    if |h| < n {
      RiseBelow(h + [|h|], key, |h|, true, |h| + 1);
      InsertsBelow(Insert(h, key), key, n);
    }
  }

  /** The first m nodes hold nonzero keys. */
  ghost predicate NonzeroTo(h: seq<nat>, key: seq<nat>, m: nat)
    requires m <= |h| && InRange(h, key, |h|)
  {
    forall k :: 0 <= k < m ==> key[h[k]] > 0
  }

  /** Rising does not bring a zero up. */
  lemma {:induction false} RiseNonzero(h: seq<nat>, key: seq<nat>, node: nat, m: nat)
    requires node < |h| && InRange(h, key, |h|) && m <= |h| && NonzeroTo(h, key, m)
    ensures NonzeroTo(Rise(h, key, node, true), key, m)
    decreases node
  {
    if node > 0 {
      var parent := (node - 1) / 2;
      if key[h[parent]] < key[h[node]] { RiseNonzero(Swapped(h, parent, node), key, parent, m); }
    }
  }

  lemma {:induction false} InsertsNonzero(h: seq<nat>, key: seq<nat>, n: nat, m: nat)
    requires n <= |key| && InRange(h, key, |h|) && m <= |h| && NonzeroTo(h, key, m)
    ensures NonzeroTo(Inserts(h, key, n), key, m)
    decreases n - |h|
  {
    if |h| < n {
      RiseNonzero(h + [|h|], key, |h|, m);
      InsertsNonzero(Insert(h, key), key, n, m);
    }
  }

  /** Inserting up to m and then up to n is inserting up to n. */
  lemma {:induction false} InsertsSplit(h: seq<nat>, key: seq<nat>, m: nat, n: nat)
    requires m <= n <= |key| && InRange(h, key, |h|)
    ensures Inserts(h, key, n) == Inserts(Inserts(h, key, m), key, n)
    decreases m - |h|
  {
    if |h| < m { InsertsSplit(Insert(h, key), key, m, n); }
  }

  /** One step down: the larger child moves up, the hole takes its place. */
  lemma StepDown(h: seq<nat>, key: seq<nat>, n: nat, hole: nat, child: nat)
    requires InRange(h, key, n) && OrderedAround(h, key, n, hole)
    requires 2 * hole + 2 < n && (child == 2 * hole + 1 || child == 2 * hole + 2)
    requires key[h[2 * hole + 1]] <= key[h[child]] && key[h[2 * hole + 2]] <= key[h[child]]
    ensures InRange(Swapped(h, hole, child), key, n)
    ensures OrderedAround(Swapped(h, hole, child), key, n, child)
  {
    hide EdgeOk, Bridged;
    forall k | 1 <= k < n && k != child && (k - 1) / 2 != child
      ensures EdgeOk(Swapped(h, hole, child), key, n, k)
    {
      EdgeAfterStepDown(h, key, n, hole, child, k);
    }
    BridgeAfterStepDown(h, key, n, hole, child);
  }

  lemma EdgeAfterStepDown(h: seq<nat>, key: seq<nat>, n: nat, hole: nat, child: nat, k: nat)
    requires InRange(h, key, n) && OrderedAround(h, key, n, hole)
    requires 2 * hole + 2 < n && (child == 2 * hole + 1 || child == 2 * hole + 2)
    requires key[h[2 * hole + 1]] <= key[h[child]] && key[h[2 * hole + 2]] <= key[h[child]]
    requires 1 <= k < n && k != child && (k - 1) / 2 != child
    ensures EdgeOk(Swapped(h, hole, child), key, n, k)
  {
    if k == hole {
      assert (hole - 1) / 2 != hole && (hole - 1) / 2 != child;
    } else if (k - 1) / 2 == hole {
      assert k == 2 * hole + 1 || k == 2 * hole + 2;
    } else {
      assert EdgeOk(h, key, n, k);
    }
  }

  lemma BridgeAfterStepDown(h: seq<nat>, key: seq<nat>, n: nat, hole: nat, child: nat)
    requires InRange(h, key, n) && OrderedAround(h, key, n, hole)
    requires 2 * hole + 2 < n && (child == 2 * hole + 1 || child == 2 * hole + 2)
    ensures Bridged(Swapped(h, hole, child), key, n, child)
  {
    if 2 * child + 1 < n { assert EdgeOk(h, key, n, 2 * child + 1); }
    if 2 * child + 2 < n { assert EdgeOk(h, key, n, 2 * child + 2); }
  }

  /** At a leaf the two notions meet. */
  lemma LeafReached(h: seq<nat>, key: seq<nat>, n: nat, node: nat)
    requires InRange(h, key, n) && OrderedAround(h, key, n, node) && n <= 2 * node + 1
    ensures OrderedBelow(h, key, n, node)
  {
    forall k | 1 <= k < n && k != node
      ensures EdgeOk(h, key, n, k)
    {
      assert (k - 1) / 2 != node;
    }
  }

  /** One step up: a parent that is not larger moves down. */
  lemma StepUp(h: seq<nat>, key: seq<nat>, n: nat, node: nat)
    requires InRange(h, key, n) && OrderedBelow(h, key, n, node)
    requires 1 <= node < n && key[h[(node - 1) / 2]] <= key[h[node]]
    ensures InRange(Swapped(h, (node - 1) / 2, node), key, n)
    ensures OrderedBelow(Swapped(h, (node - 1) / 2, node), key, n, (node - 1) / 2)
  {
    hide EdgeOk, Bridged;
    var parent := (node - 1) / 2;
    forall k | 1 <= k < n && k != parent
      ensures EdgeOk(Swapped(h, parent, node), key, n, k)
    {
      EdgeAfterStepUp(h, key, n, node, parent, k);
    }
    BridgeAfterStepUp(h, key, n, node, parent);
  }

  lemma EdgeAfterStepUp(h: seq<nat>, key: seq<nat>, n: nat, node: nat, parent: nat, k: nat)
    requires InRange(h, key, n) && OrderedBelow(h, key, n, node) && 1 <= node < n && parent == (node - 1) / 2
    requires key[h[parent]] <= key[h[node]] && 1 <= k < n && k != parent
    ensures EdgeOk(Swapped(h, parent, node), key, n, k)
  {
    if k == node {
    } else if (k - 1) / 2 == node {
      assert k == 2 * node + 1 || k == 2 * node + 2;
    } else {
      assert EdgeOk(h, key, n, k);
    }
  }

  lemma BridgeAfterStepUp(h: seq<nat>, key: seq<nat>, n: nat, node: nat, parent: nat)
    requires InRange(h, key, n) && OrderedBelow(h, key, n, node) && 1 <= node < n && parent == (node - 1) / 2
    ensures Bridged(Swapped(h, parent, node), key, n, parent)
  {
    if parent >= 1 {
      assert EdgeOk(h, key, n, parent);
      if 2 * parent + 1 < n && 2 * parent + 1 != node { assert EdgeOk(h, key, n, 2 * parent + 1); }
      if 2 * parent + 2 < n && 2 * parent + 2 != node { assert EdgeOk(h, key, n, 2 * parent + 2); }
    }
  }

  /** Sifting up stops with a heap. */
  lemma UpDone(h: seq<nat>, key: seq<nat>, n: nat, node: nat)
    requires InRange(h, key, n) && OrderedBelow(h, key, n, node)
    requires 1 <= node < n ==> key[h[node]] <= key[h[(node - 1) / 2]]
    ensures Ordered(h, key, n)
  {
  }

  /**
   * The nodes that sifting looks at: with an even number of nodes the last one is a left child
   * without a sibling, and the loops never compare it.
   */
  function Active(n: nat): nat { if n % 2 == 0 && n > 0 then n - 1 else n }

  /** The leaf that sifting down from `node` ends at. */
  function LeafBelow(h: seq<nat>, key: seq<nat>, n: nat, node: nat): nat
    requires InRange(h, key, n)
    decreases n - node
  {
    if 2 * node + 2 < n then LeafBelow(h, key, n, LargerChild(h, key, n, node)) else node
  }

  function LargerChild(h: seq<nat>, key: seq<nat>, n: nat, node: nat): (child: nat)
    requires InRange(h, key, n) && 2 * node + 2 < n
    ensures node < child < n
  {
    if key[h[2 * node + 1]] < key[h[2 * node + 2]] then 2 * node + 2 else 2 * node + 1
  }

  /**
   * When sifting the changed root restores the order of all n nodes: always for odd n. For even n
   * the last node must be in order, and if its parent is the leaf that the root sinks to, the
   * last key must not exceed that of the root.
   */
  ghost predicate Repairs(h: seq<nat>, key: seq<nat>, n: nat)
    requires InRange(h, key, n) && n >= 3
  {
    n % 2 == 0 ==>
      && EdgeOk(h, key, n, n - 1)
      && (LeafBelow(h, key, n, 0) == (n - 2) / 2 ==> key[h[n - 1]] <= key[h[0]])
  }

  /** Four nodes with keys 0, 5, 1, 4: the root sinks to node 1, and node 3 stays below a smaller key. */
  lemma EvenHeapExample()
    ensures var h: seq<nat>, key: seq<nat> := [0, 1, 2, 3], [0, 5, 1, 4];
            OrderedAround(h, key, 4, 0) && !Repairs(h, key, 4)
  {
    var h: seq<nat>, key: seq<nat> := [0, 1, 2, 3], [0, 5, 1, 4];
    assert LeafBelow(h, key, 4, 0) == LeafBelow(h, key, 4, 1) == 1;
    assert EdgeOk(h, key, 4, 3);
  }

  /** h' is h after the root has sunk to node `to`: entries on its way moved up, all others stayed. */
  ghost predicate Sunk(h: seq<nat>, h': seq<nat>, n: nat, to: nat) {
    && |h| == |h'| && to < n <= |h| && h'[to] == h[0]
    && (to > 0 ==> h'[(to - 1) / 2] == h[to])
    && (forall k :: to < k < |h| ==> h'[k] == h[k])
    && (forall k :: 0 <= k < |h| && 2 * k + 2 >= n && k != to ==> h'[k] == h[k])
  }

  lemma SunkStart(h: seq<nat>, n: nat)
    requires 0 < n <= |h|
    ensures Sunk(h, h, n, 0)
  {
  }

  lemma LeafHere(h: seq<nat>, key: seq<nat>, n: nat, node: nat)
    requires InRange(h, key, n) && 2 * node + 2 >= n
    ensures LeafBelow(h, key, n, node) == node
  {
  }

  lemma SunkStep(h: seq<nat>, h': seq<nat>, key: seq<nat>, n: nat, to: nat, child: nat)
    requires InRange(h, key, n) && InRange(h', key, n) && Sunk(h, h', n, to) && 2 * to + 2 < n
    requires child == if key[h'[2 * to + 1]] < key[h'[2 * to + 2]] then 2 * to + 2 else 2 * to + 1
    ensures Sunk(h, Swapped(h', to, child), n, child)
    ensures LeafBelow(h, key, n, to) == LeafBelow(h, key, n, child)
  {
    assert (child - 1) / 2 == to;
  }

  /** h' is h after the entry at `start` has moved up to `node`, unless its parent was larger. */
  ghost predicate Risen(h: seq<nat>, h': seq<nat>, key: seq<nat>, n: nat, start: nat, node: nat)
    requires InRange(h, key, n)
  {
    && |h| == |h'| && 0 < start < n && node <= start
    && (node == start ==> h' == h)
    && (node != start ==> 2 * node + 1 < n && h'[start] == h[(start - 1) / 2])
    && (node != start ==> key[h[(start - 1) / 2]] <= key[h[start]])
    && (forall k :: 0 <= k < |h| && 2 * k + 1 >= n && k != start ==> h'[k] == h[k])
  }

  lemma RisenStart(h: seq<nat>, key: seq<nat>, n: nat, start: nat)
    requires InRange(h, key, n) && 0 < start < n
    ensures Risen(h, h, key, n, start, start)
  {
  }

  lemma RisenStep(h: seq<nat>, h': seq<nat>, key: seq<nat>, n: nat, start: nat, node: nat)
    requires InRange(h, key, n) && InRange(h', key, n) && Risen(h, h', key, n, start, node) && node > 0
    requires key[h'[(node - 1) / 2]] <= key[h'[node]]
    ensures Risen(h, Swapped(h', (node - 1) / 2, node), key, n, start, (node - 1) / 2)
  {
    var parent := (node - 1) / 2;
    assert 2 * parent + 1 <= node < n;
  }

  lemma OddRepairs(h: seq<nat>, key: seq<nat>, n: nat)
    requires InRange(h, key, n) && n >= 3 && n % 2 == 1
    ensures Repairs(h, key, n)
  {
  }

  /** After both passes, the key above an inactive last node is known, and so whether that edge is in order. */
  lemma RepairedIff(h: seq<nat>, mid: seq<nat>, h': seq<nat>, key: seq<nat>, n: nat, leaf: nat, node: nat)
    requires n >= 4 && n % 2 == 0 && InRange(h, key, n) && InRange(mid, key, n) && InRange(h', key, n)
    requires OrderedAround(h, key, n - 1, 0) && leaf == LeafBelow(h, key, n - 1, 0) && leaf > 0 && 2 * leaf + 2 >= n - 1
    requires Sunk(h, mid, n - 1, leaf) && Risen(mid, h', key, n - 1, leaf, node)
    requires node == leaf ==> key[mid[leaf]] < key[mid[(leaf - 1) / 2]]
    ensures EdgeOk(h', key, n, n - 1) <==> Repairs(h, key, n)
  {
    var p := (n - 2) / 2;
    LeafBelowSame(h, key, n, 0);
    assert h'[n - 1] == mid[n - 1] == h[n - 1];
    if leaf == p {
      assert mid[p] == h[0] && mid[(p - 1) / 2] == h[p];
    } else {
      assert h'[p] == mid[p] == h[p];
    }
  }

  lemma {:induction false} LeafBelowSame(h: seq<nat>, key: seq<nat>, n: nat, node: nat)
    requires n >= 2 && n % 2 == 0 && InRange(h, key, n)
    ensures LeafBelow(h, key, n, node) == LeafBelow(h, key, n - 1, node)
    decreases n - node
  {
    if 2 * node + 2 < n { LeafBelowSame(h, key, n, LargerChild(h, key, n, node)); }
  }

  /** The root of a heap holds a largest key. */
  lemma {:induction false} RootLargest(h: seq<nat>, key: seq<nat>, n: nat, k: nat)
    requires InRange(h, key, n) && Ordered(h, key, n) && k < n
    ensures key[h[k]] <= key[h[0]]
  {
    if k > 0 {
      assert EdgeOk(h, key, n, k);
      RootLargest(h, key, n, (k - 1) / 2);
    }
  }

  /** Below the root, the larger of nodes 1 and 2 holds a largest key. */
  lemma {:induction false} SecondLargest(h: seq<nat>, key: seq<nat>, n: nat, k: nat)
    requires InRange(h, key, n) && Ordered(h, key, n) && 1 <= k < n && 3 <= n
    ensures key[h[k]] <= key[h[1]] || key[h[k]] <= key[h[2]]
  {
    if k > 2 {
      assert EdgeOk(h, key, n, k);
      SecondLargest(h, key, n, (k - 1) / 2);
    }
  }

  /** struct batch_heap: scalars, points and the heap of indices, all changed in place. */
  class Batch<P(!new)> {
    const scalars: array<Scalar>
    const points: array<P>
    const heap: array<nat>
    var size: nat
    ghost var pos: seq<nat>  // where each index sits in the heap

    constructor (scalars: array<Scalar>, points: array<P>, heap: array<nat>)
      requires scalars.Length == points.Length == heap.Length
      requires heap as object != scalars && points as object != heap && points as object != scalars
      ensures this.scalars == scalars && this.points == points && this.heap == heap && Shape()
    {
      this.scalars, this.points, this.heap, this.size := scalars, points, heap, 0;
      this.pos := seq(heap.Length, i => 0);
    }

    /** The values the heap is ordered by. */
    ghost function Keys(): (key: seq<nat>)
      reads scalars
      ensures |key| == scalars.Length && forall i :: 0 <= i < |key| ==> key[i] == Value(scalars[i])
    {
      seq(scalars.Length, i requires 0 <= i < scalars.Length reads scalars => Value(scalars[i]))
    }

    ghost predicate Shape()
      reads this
    {
      && scalars.Length == points.Length == heap.Length
      && heap as object != scalars && points as object != heap && points as object != scalars
      && size <= heap.Length == |pos|
    }

    /** The heap holds each index below size exactly once. */
    ghost predicate Valid()
      reads this, heap
    {
      Shape() && Inverse(heap[..], pos, size)
    }

    ghost predicate IsHeap()
      reads this, heap, scalars
    {
      Valid() && Ordered(heap[..], Keys(), size)
    }

    /** All active nodes are in order. */
    ghost predicate IsActiveHeap()
      reads this, heap, scalars
    {
      Valid() && Ordered(heap[..], Keys(), Active(size))
    }

    /** Among the active nodes, only the edges at the root may be out of order. */
    ghost predicate IsHeapBelowRoot()
      reads this, heap, scalars
    {
      Valid() && OrderedAround(heap[..], Keys(), Active(size), 0)
    }

    /** The entries of all nodes. */
    ghost function Nodes(): (h: seq<nat>)
      reads this, heap, scalars
      requires Valid()
      ensures |h| == size && InRange(h, Keys(), size)
    {
      heap[..size]
    }

    /** The index at the node that is not active, or one out of range. */
    ghost function Idle(): nat
      reads this, heap
      requires size <= heap.Length
    {
      if Active(size) < size then heap[size - 1] else heap.Length
    }

    /** No scalar at an active node uses a limb above limbsize. */
    ghost predicate Fits(limbsize: nat)
      reads this, scalars, heap
    {
      && size <= scalars.Length == heap.Length
      && forall i :: 0 <= i < size && i != Idle() ==> ZeroAbove(scalars[i], limbsize)
    }

    /** A full heap has its active nodes in order. */
    lemma HeapIsActive()
      requires IsHeap()
      ensures IsActiveHeap()
    {
      forall k | 1 <= k < Active(size) ensures EdgeOk(heap[..], Keys(), Active(size), k) {
        assert EdgeOk(heap[..], Keys(), size, k);
      }
    }

    /** An idle index is one of the heap, and there is one just when the size is even. */
    lemma IdleRange()
      requires Valid() && size > 0
      ensures if size % 2 == 0 then Idle() < size else Idle() == heap.Length
    {
      assert heap[..][size - 1] == heap[size - 1];
    }

    lemma IdleIsLast()
      requires Valid() && size > 0
      ensures Idle() == if size % 2 == 0 then Nodes()[size - 1] else heap.Length
    {
    }

    /** Active nodes do not hold the idle index. */
    lemma ActiveNode(k: nat)
      requires Valid() && k < Active(size)
      ensures heap[k] < size && heap[k] != Idle()
    {
      assert heap[..][k] == heap[k] && heap[..][size - 1] == heap[size - 1];
    }

    method Swap(a: nat, b: nat)
      requires Valid() && a < size && b < size
      modifies heap, `pos
      ensures Valid()
      ensures heap[..] == Swapped(old(heap[..]), a, b) && Nodes() == Swapped(old(Nodes()), a, b)
    {
      SwapInverse(heap[..], pos, size, a, b);
      pos := Swapped(pos, heap[a], heap[b]);
      var temp := heap[a];
      heap[a] := heap[b];
      heap[b] := temp;
      assert heap[..] == Swapped(old(heap[..]), a, b);
    }

    /** The index at the end of the list becomes the last node. */
    method AddLeaf() returns (node: nat)
      requires IsHeap() && size < heap.Length
      modifies heap, `size, `pos
      ensures Valid() && size == old(size) + 1 && node == old(size) && OrderedBelow(heap[..], Keys(), size, node)
      ensures Nodes() == old(Nodes()) + [node]
    {
      hide Low, EdgeOk, Bridged, OrderedBelow, Ordered, ZeroAbove;
      node := size;
      InsertLeaf(heap[..], pos, Keys(), size);
      heap[node] := node;
      pos := pos[node := node];
      size := size + 1;
      assert heap[..] == old(heap[..])[node := node];
    }

    /** All five limbs are compared, whatever the heap holds. */
    method LtNodes(a: nat, b: nat) returns (lt: bool)
      requires Valid() && a < size && b < size
      ensures lt <==> Keys()[Nodes()[a]] < Keys()[Nodes()[b]]
    {
      hide Low;
      lt := LtBatch(scalars[heap[a]], scalars[heap[b]], 4);
    }

    /** Insert the next index and move it up past every smaller parent. */
    method InsertNext()
      requires IsHeap() && size < heap.Length
      modifies heap, `size, `pos
      ensures IsHeap() && size == old(size) + 1
      ensures Nodes() == Insert(old(Nodes()), Keys())
    {
      hide Low, EdgeOk, Bridged, OrderedBelow, Ordered, ZeroAbove, Rise, Inverse;
      ghost var key := Keys();
      var node: nat := AddLeaf();
      EntriesInRange();
      while node != 0
        invariant node < size && size == old(size) + 1 && Valid() && unchanged(scalars)
        invariant InRange(heap[..], key, size) && OrderedBelow(heap[..], key, size, node)
        invariant Rise(Nodes(), key, node, true) == Insert(old(Nodes()), key)
      {
        var parent := (node - 1) / 2;
        var lt := LtNodes(parent, node);
        RiseUp(Nodes(), key, node, true);
        if !lt { break; }
        StepUp(heap[..], key, size, node);
        Swap(parent, node);
        node := parent;
      }
      UpDone(heap[..], key, size, node);
      RiseTop(Nodes(), key, true);
    }

    /** Build a heap of the first `count` scalars. */
    method Build(count: nat)
      requires Shape() && count <= heap.Length && 0 < heap.Length
      modifies heap, `size, `pos
      ensures IsHeap() && size == count && Nodes() == Inserts([], Keys(), count)
    {
      heap[0] := 0;
      size := 0;
      while size < count
        invariant IsHeap() && size <= count
        invariant Inserts(Nodes(), Keys(), count) == Inserts([], Keys(), count)
        decreases count - size
      {
        InsertNext();
      }
    }

    /** Let the scalars up to `newCount` join the heap. */
    method Extend(newCount: nat)
      requires IsHeap() && size <= newCount <= heap.Length
      modifies heap, `size, `pos
      ensures IsHeap() && size == newCount && Nodes() == Inserts(old(Nodes()), Keys(), newCount)
    {
      while size < newCount
        invariant IsHeap() && size <= newCount
        invariant Inserts(Nodes(), Keys(), newCount) == Inserts(old(Nodes()), Keys(), newCount)
        decreases newCount - size
      {
        InsertNext();
      }
    }

    /**
     * Restore the order after the root scalar changed: sift it to a leaf, then back up. All active
     * nodes are in order afterwards; the whole heap is exactly when Repairs says so.
     */
    method UpdatedRoot(limbsize: nat)
      requires IsHeapBelowRoot() && size >= 3
      requires limbsize <= 4 && Fits(limbsize)
      modifies heap, `pos
      ensures IsActiveHeap() && Fits(limbsize) && Idle() == old(Idle())
      ensures Nodes() == Repair(old(Nodes()), Keys())
      ensures IsHeap() <==> old(Repairs(heap[..], Keys(), size))
    {
      hide Low, Bridged, OrderedAround, OrderedBelow, Ordered, ZeroAbove, Inverse, Repairs, Sunk, Risen, LeafBelow, Sink,
           Rise;
      ghost var h, n := heap[..], size;
      EntriesInRange();
      var leaf := SiftToLeaf(limbsize);
      ghost var mid := heap[..];
      EntriesInRange();
      ghost var node := SiftUp(leaf, limbsize);
      EntriesInRange();
      if n % 2 == 0 {
        RepairedIff(h, mid, heap[..], Keys(), n, leaf, node);
      } else {
        OddRepairs(h, Keys(), n);
      }
      LastEdge();
    }

    lemma EntriesInRange()
      requires Valid()
      ensures InRange(heap[..], Keys(), size)
    {
    }

    /** A heap is an active heap whose last edge is in order too. */
    lemma LastEdge()
      requires IsActiveHeap() && size >= 3
      ensures IsHeap() <==> (size % 2 == 0 ==> EdgeOk(heap[..], Keys(), size, size - 1))
    {
      if size % 2 == 0 {
        forall k | 1 <= k < size - 1 ensures EdgeOk(heap[..], Keys(), size, k) {
          assert EdgeOk(heap[..], Keys(), Active(size), k);
        }
      }
    }

    /** What sifting down from the heap h keeps, with the old root at node `at`. */
    ghost predicate Sinking(h: seq<nat>, at: nat, limbsize: nat)
      reads this, heap, scalars
    {
      var n := Active(size);
      && Valid() && Fits(limbsize) && at < n && InRange(h, Keys(), n) && OrderedAround(heap[..], Keys(), n, at)
      && Sunk(h, heap[..], n, at) && LeafBelow(h, Keys(), n, 0) == LeafBelow(h, Keys(), n, at)
    }

    method LargerNode(parent: nat, limbsize: nat) returns (node: nat)
      requires Valid() && limbsize <= 4 && Fits(limbsize) && 2 * parent + 2 < size
      ensures node == if Keys()[heap[2 * parent + 1]] < Keys()[heap[2 * parent + 2]] then 2 * parent + 2
                      else 2 * parent + 1
      ensures node < Active(size)
    {
      hide Low, ZeroAbove, Inverse;
      var lt := LtFits(2 * parent + 1, 2 * parent + 2, limbsize);
      node := if lt then 2 * parent + 2 else 2 * parent + 1;
    }

    /** The larger child and its parent change places. */
    method SinkOne(parent: nat, limbsize: nat, ghost h: seq<nat>) returns (node: nat)
      requires Sinking(h, parent, limbsize) && limbsize <= 4 && 2 * parent + 2 < size
      modifies heap, `pos
      ensures Sinking(h, node, limbsize) && Idle() == old(Idle()) && (node == 2 * parent + 1 || node == 2 * parent + 2)
      ensures Sink(Nodes(), Keys(), node) == Sink(old(Nodes()), Keys(), parent)
    {
      hide Low, EdgeOk, Bridged, OrderedAround, ZeroAbove, Sunk, LeafBelow, Inverse, Sink;
      ghost var key, n := Keys(), Active(size);
      EntriesInRange();
      node := LargerNode(parent, limbsize);
      StepDown(heap[..], key, n, parent, node);
      SunkStep(h, heap[..], key, n, parent, node);
      SinkDown(Nodes(), key, parent, node);
      SwapActive(parent, node, limbsize);
    }

    /** The root moves down to a leaf; the entries on its way move up by one. */
    method SiftToLeaf(limbsize: nat) returns (node: nat)
      requires IsHeapBelowRoot() && size >= 3
      requires limbsize <= 4 && Fits(limbsize)
      modifies heap, `pos
      ensures Valid() && Fits(limbsize) && Idle() == old(Idle()) && 0 < node < Active(size)
      ensures OrderedBelow(heap[..], Keys(), Active(size), node)
      ensures node == LeafBelow(old(heap[..]), Keys(), Active(size), 0) && 2 * node + 2 >= Active(size)
      ensures Sunk(old(heap[..]), heap[..], Active(size), node)
      ensures Sink(old(Nodes()), Keys(), 0) == (Nodes(), node)
    {
      hide Low, EdgeOk, Bridged, OrderedAround, OrderedBelow, ZeroAbove, Sunk, LeafBelow, Inverse, Sink;
      ghost var h := heap[..];
      EntriesInRange();
      SunkStart(h, Active(size));
      var parent, childl, childr := 0, 1, 2;
      node := 1;
      while childr < size
        invariant childl == 2 * parent + 1 && childr == childl + 1 && (parent == 0 || node == parent)
        invariant Sinking(h, parent, limbsize) && Idle() == old(Idle())
        invariant Sink(Nodes(), Keys(), parent) == Sink(old(Nodes()), Keys(), 0)
        decreases size - parent
      {
        node := SinkOne(parent, limbsize, h);
        parent := node;
        childl := parent * 2 + 1;
        childr := childl + 1;
      }
      EntriesInRange();
      LeafReached(heap[..], Keys(), Active(size), node);
      LeafHere(h, Keys(), Active(size), node);
      SinkLeaf(Nodes(), Keys(), node);
    }

    /** Swapping active nodes leaves the idle index alone. */
    method SwapActive(a: nat, b: nat, ghost limbsize: nat)
      requires Valid() && a < Active(size) && b < Active(size) && Fits(limbsize)
      modifies heap, `pos
      ensures Valid() && Fits(limbsize) && Idle() == old(Idle())
      ensures heap[..] == Swapped(old(heap[..]), a, b) && Nodes() == Swapped(old(Nodes()), a, b)
    {
      hide ZeroAbove, Inverse;
      Swap(a, b);
      assert Active(size) < size ==> heap[..][size - 1] == old(heap[..])[size - 1];
    }

    /** What sifting up from node `start` of the heap h keeps, with the entry at node `at`. */
    ghost predicate Rising(h: seq<nat>, start: nat, at: nat, limbsize: nat)
      reads this, heap, scalars
    {
      var n := Active(size);
      && Valid() && Fits(limbsize) && at < n && InRange(h, Keys(), n) && InRange(heap[..], Keys(), n)
      && OrderedBelow(heap[..], Keys(), n, at) && Risen(h, heap[..], Keys(), n, start, at)
    }

    /** A parent that is not larger and the entry change places. */
    method RiseOne(at: nat, limbsize: nat, ghost h: seq<nat>, ghost start: nat) returns (up: bool)
      requires Rising(h, start, at, limbsize) && limbsize <= 4 && at > 0
      modifies heap, `pos
      ensures up == (Keys()[old(heap[(at - 1) / 2])] <= Keys()[old(heap[at])]) && Idle() == old(Idle())
      ensures Rising(h, start, if up then (at - 1) / 2 else at, limbsize)
      ensures !up ==> heap[..] == old(heap[..])
      ensures Rise(old(Nodes()), Keys(), at, false)
           == if up then Rise(Nodes(), Keys(), (at - 1) / 2, false) else Nodes()
    {
      hide Low, EdgeOk, Bridged, OrderedBelow, ZeroAbove, Risen, Inverse, Rise;
      RiseUp(Nodes(), Keys(), at, false);
      up := LteFits((at - 1) / 2, at, limbsize);
      if up {
        StepUp(heap[..], Keys(), Active(size), at);
        RisenStep(h, heap[..], Keys(), Active(size), start, at);
        SwapActive((at - 1) / 2, at, limbsize);
      }
    }

    /** The entry at `start` moves up past every parent that is not larger. */
    method SiftUp(start: nat, limbsize: nat) returns (ghost node: nat)
      requires Valid() && 0 < start < Active(size) && OrderedBelow(heap[..], Keys(), Active(size), start)
      requires limbsize <= 4 && Fits(limbsize)
      modifies heap, `pos
      ensures IsActiveHeap() && Fits(limbsize) && Idle() == old(Idle())
      ensures Risen(old(heap[..]), heap[..], Keys(), Active(size), start, node)
      ensures node == start ==> Keys()[old(heap[start])] < Keys()[old(heap[(start - 1) / 2])]
      ensures Nodes() == Rise(old(Nodes()), Keys(), start, false)
    {
      hide Low, EdgeOk, Bridged, OrderedBelow, Ordered, ZeroAbove, Risen, Inverse, Rise;
      ghost var h := heap[..];
      var at: nat := start;
      EntriesInRange();
      RisenStart(h, Keys(), Active(size), start);
      while at != 0
        invariant at <= start && Rising(h, start, at, limbsize) && Idle() == old(Idle())
        invariant at == start ==> heap[..] == h
        invariant Rise(Nodes(), Keys(), at, false) == Rise(old(Nodes()), Keys(), start, false)
      {
        var up := RiseOne(at, limbsize, h, start);
        if !up { break; }
        at := (at - 1) / 2;
      }
      UpDone(heap[..], Keys(), Active(size), at);
      RiseTop(Nodes(), Keys(), false);
      node := at;
    }

    /** At active nodes, comparing the limbs in use is comparing the scalars. */
    method LtFits(a: nat, b: nat, limbsize: nat) returns (lt: bool)
      requires Valid() && limbsize <= 4 && Fits(limbsize) && a < Active(size) && b < Active(size)
      ensures lt <==> Keys()[heap[a]] < Keys()[heap[b]]
    {
      ActiveNode(a);
      ActiveNode(b);
      LowIsValue(scalars[heap[a]], limbsize, 5);
      LowIsValue(scalars[heap[b]], limbsize, 5);
      lt := LtBatch(scalars[heap[a]], scalars[heap[b]], limbsize);
    }

    method LteFits(a: nat, b: nat, limbsize: nat) returns (lte: bool)
      requires Valid() && limbsize <= 4 && Fits(limbsize) && a < Active(size) && b < Active(size)
      ensures lte <==> Keys()[heap[a]] <= Keys()[heap[b]]
    {
      ActiveNode(a);
      ActiveNode(b);
      LowIsValue(scalars[heap[a]], limbsize, 5);
      LowIsValue(scalars[heap[b]], limbsize, 5);
      lte := LteBatch(scalars[heap[a]], scalars[heap[b]], limbsize);
    }

    /** Two distinct indices at active nodes: a largest scalar, and a largest one among the others. */
    method GetTop2(limbsize: nat) returns (max1: nat, max2: nat)
      requires IsActiveHeap() && size >= 3 && limbsize <= 4 && Fits(limbsize)
      ensures max1 < size && max2 < size && max1 != max2 && max1 == heap[0] && max1 != Idle() && max2 != Idle()
      ensures (max1, max2) == TopOf(Nodes(), Keys())
      ensures forall i :: 0 <= i < size && i != Idle() ==> Keys()[i] <= Keys()[max1]
      ensures forall i :: 0 <= i < size && i != max1 && i != Idle() ==> Keys()[i] <= Keys()[max2]
    {
      hide Low, EdgeOk, Ordered, ZeroAbove, Inverse;
      EntriesInRange();
      TopDistinct();
      max1, max2 := heap[0], heap[1];
      var lt := LtFits(1, 2, limbsize);
      if lt { max2 := heap[2]; }
      ActiveNode(0);
      ActiveNode(1);
      ActiveNode(2);
      forall i | 0 <= i < size && i != Idle()
        ensures Keys()[i] <= Keys()[max1]
        ensures i != max1 ==> Keys()[i] <= Keys()[max2]
      {
        TopDominates(i);
      }
    }

    lemma TopDistinct()
      requires Valid() && size >= 3
      ensures heap[0] != heap[1] && heap[0] != heap[2]
    {
      assert heap[..][0] == heap[0] && heap[..][1] == heap[1] && heap[..][2] == heap[2];
    }

    /** Every index at an active node is the root, or at most as large as the larger node below it. */
    lemma TopDominates(i: nat)
      requires IsActiveHeap() && size >= 3 && i < size && i != Idle()
      ensures Keys()[i] <= Keys()[heap[0]]
      ensures i != heap[0] ==> Keys()[i] <= Keys()[heap[1]] || Keys()[i] <= Keys()[heap[2]]
    {
      hide Low, EdgeOk, Ordered, ZeroAbove;
      var k := pos[i];
      assert heap[..][k] == i;
      RootLargest(heap[..], Keys(), Active(size), k);
      if k > 0 { SecondLargest(heap[..], Keys(), Active(size), k); }
    }

    /** The top two, and whether only the first of them is nonzero. */
    method TopTwo(limbsize: nat) returns (max1: nat, max2: nat, done: bool)
      requires IsActiveHeap() && size >= 3 && limbsize <= 4 && Fits(limbsize)
      ensures max1 < size && max2 < size && max1 != max2 && max1 == heap[0] && max1 != Idle() && max2 != Idle()
      ensures (max1, max2) == TopOf(Nodes(), Keys())
      ensures forall i :: 0 <= i < size && i != Idle() ==> Keys()[i] <= Keys()[max1]
      ensures done ==> forall i :: 0 <= i < size && i != max1 && i != Idle() ==> Keys()[i] == 0
      ensures !done ==> Keys()[max2] > 0
    {
      hide Low, EdgeOk, Ordered, ZeroAbove, Inverse;
      max1, max2 := GetTop2(limbsize);
      done := IsZeroBatch(scalars[max2]);
    }

    /** Every scalar fits in five limbs. */
    lemma FitsAll()
      requires Shape()
      ensures Fits(4)
    {
    }

    /** If the largest scalar does not use limb `limbsize`, no scalar in the heap does. */
    lemma DropLimb(limbsize: nat, max1: nat)
      requires Shape() && limbsize <= 4 && Fits(limbsize) && max1 < size && max1 != Idle()
      requires Keys()[max1] > 0 && scalars[max1][limbsize] == 0
      requires forall i :: 0 <= i < size && i != Idle() ==> Keys()[i] <= Keys()[max1]
      ensures limbsize >= 1 && Fits(limbsize - 1)
    {
      ValueBelowWeight(scalars[max1], limbsize);
      assert Value(scalars[max1]) < Weight(limbsize);
      forall i | 0 <= i < size && i != Idle()
        ensures limbsize >= 1 && ZeroAbove(scalars[i], limbsize - 1)
      {
        ValueBelowWeight(scalars[i], limbsize);
        assert Keys()[i] <= Keys()[max1];
      }
    }

    /** The 128-bit scalars use limbs 0..2 only. */
    lemma FitsExtended(from: nat, limbsize: nat)
      requires Shape() && 2 <= limbsize <= 4 && from <= size
      requires forall i :: 0 <= i < from ==> ZeroAbove(scalars[i], limbsize)
      requires forall i :: from <= i < size ==> Keys()[i] < 0x1_0000_0000_0000_0000_0000_0000_0000_0000
      ensures Fits(limbsize)
    {
      forall i | from <= i < size
        ensures ZeroAbove(scalars[i], limbsize)
      {
        assert Keys()[i] == Value(scalars[i]);
        AtMost128Bits(scalars[i]);
      }
    }

    /** One Bos-Carter step on the root max1 and another entry max2. */
    method Combine(g: Group<P>, max1: nat, max2: nat, limbsize: nat)
      requires IsActiveHeap() && size >= 3 && limbsize <= 4 && Fits(limbsize)
      requires max1 < size && max2 < size && max1 != max2 && max1 == heap[0] && max1 != Idle() && max2 != Idle()
      requires Keys()[max2] <= Keys()[max1]
      modifies scalars, points
      ensures IsHeapBelowRoot() && Fits(limbsize) && Nodes() == old(Nodes())
      ensures Keys() == old(Keys())[max1 := old(Keys())[max1] - old(Keys())[max2]]
      ensures points[..] == old(points[..])[max2 := g.add(old(points[max2]), old(points[max1]))]
    {
      hide Low, ZeroAbove, Ordered, OrderedAround, Inverse;
      ghost var key := Keys();
      var diff := SubBatch(scalars[max1], scalars[max2], limbsize);
      SetScalar(max1, diff);
      points[max2] := g.add(points[max2], points[max1]);
      assert heap[..][0] == max1;
      RootChanged(heap[..], pos, key, size, Active(size), Keys()[max1]);
    }

    method SetScalar(i: nat, v: Scalar)
      requires i < scalars.Length
      modifies scalars
      ensures Keys() == old(Keys())[i := Value(v)] && scalars[i] == v
      ensures forall k :: 0 <= k < scalars.Length && k != i ==> scalars[k] == old(scalars[k])
    {
      hide Low;
      scalars[i] := v;
    }

    method CombineAndRestore(g: Group<P>, max1: nat, max2: nat, limbsize: nat)
      requires IsActiveHeap() && size >= 3 && limbsize <= 4 && Fits(limbsize)
      requires max1 < size && max2 < size && max1 != max2 && max1 == heap[0] && max1 != Idle() && max2 != Idle()
      requires Keys()[max2] <= Keys()[max1]
      modifies scalars, points, heap, `pos
      ensures IsActiveHeap() && Fits(limbsize) && Idle() == old(Idle())
      ensures Keys() == old(Keys())[max1 := old(Keys())[max1] - old(Keys())[max2]]
      ensures points[..] == old(points[..])[max2 := g.add(old(points[max2]), old(points[max1]))]
      ensures Nodes() == Repair(old(Nodes()), Keys())
    {
      hide Low, ZeroAbove, OrderedAround, Ordered, Inverse, Repairs;
      Combine(g, max1, max2, limbsize);
      UpdatedRoot(limbsize);
    }

    /** Take in the 128-bit scalars; i and j show that the second largest stays nonzero. */
    method ExtendAndGetTop2(count: nat, limbsize: nat, ghost i: nat, ghost j: nat) returns (max1: nat, max2: nat)
      requires IsHeap() && size % 2 == 1 && 3 <= size <= count <= heap.Length && 5 <= count
      requires 2 <= limbsize <= 4 && Fits(limbsize)
      requires forall k :: size <= k < count ==> Keys()[k] < 0x1_0000_0000_0000_0000_0000_0000_0000_0000
      requires i < size && j < size && i != j && Keys()[i] > 0 && Keys()[j] > 0
      modifies heap, `size, `pos
      ensures IsActiveHeap() && size == count && Fits(limbsize) && Nodes() == Inserts(old(Nodes()), Keys(), count)
      ensures max1 < size && max2 < size && max1 != max2 && max1 == heap[0] && max1 != Idle() && max2 != Idle()
      ensures 0 < Keys()[max2] <= Keys()[max1]
    {
      hide Low, ZeroAbove, OrderedAround, Ordered, Inverse;
      ghost var from := size;
      Extend(count);
      FitsExtended(from, limbsize);
      HeapIsActive();
      max1, max2 := GetTop2(limbsize);
      IdleIsDominated(max1, max2);
    }

    /** In a full heap, what bounds the active nodes below the root bounds the idle one as well. */
    lemma IdleIsDominated(max1: nat, max2: nat)
      requires IsHeap() && size >= 5 && max1 < size && max2 < size && max1 == heap[0]
      requires forall i :: 0 <= i < size && i != max1 && i != Idle() ==> Keys()[i] <= Keys()[max2]
      ensures forall i :: 0 <= i < size && i != max1 ==> Keys()[i] <= Keys()[max2]
    {
      if Active(size) < size {
        var k := (size - 2) / 2;
        assert EdgeOk(heap[..], Keys(), size, size - 1);
        assert heap[..][k] == heap[k] && heap[..][0] == heap[0] && heap[..][size - 1] == heap[size - 1];
        assert pos[heap[k]] == k && pos[heap[0]] == 0;
      }
    }
  }

  /** A new leaf at n only adds the edge above it. */
  lemma InsertLeaf(h: seq<nat>, pos: seq<nat>, key: seq<nat>, n: nat)
    requires n < |h| && n < |key| && n < |pos| && Inverse(h, pos, n) && Ordered(h, key, n)
    ensures Inverse(h[n := n], pos[n := n], n + 1)
    ensures OrderedBelow(h[n := n], key, n + 1, n)
  {
    var h', m := h[n := n], n + 1;
    forall k | 1 <= k < n ensures EdgeOk(h', key, m, k) { assert EdgeOk(h, key, n, k); }
  }

  /** Changing the key at the root disturbs the edges at the root only. */
  lemma RootChanged(h: seq<nat>, pos: seq<nat>, key: seq<nat>, size: nat, n: nat, x: nat)
    requires 0 < n <= size <= |key| && Inverse(h, pos, size) && Ordered(h, key, n)
    ensures OrderedAround(h, key[h[0] := x], n, 0)
  {
    var key' := key[h[0] := x];
    forall k | 1 <= k < n && (k - 1) / 2 != 0 ensures EdgeOk(h, key', n, k) {
      assert EdgeOk(h, key, n, k);
      assert pos[h[0]] == 0 && pos[h[k]] == k && pos[h[(k - 1) / 2]] == (k - 1) / 2;
    }
  }
}
