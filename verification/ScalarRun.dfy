/**
 * What a run of the multi-scalar multiplication does up to the moment when the 128-bit scalars
 * join, as functions of the scalars: the pairs of indices combined, the scalars left, the heap,
 * and with an even count the index that stays idle from then on.
 */
module ScalarRun {
  import opened Groups
  import opened Bitwise
  import opened BatchHeap

  const TWO_128: nat := 0x1_0000_0000_0000_0000_0000_0000_0000_0000

  /** How many scalars the heap starts with: half of them, made odd. */
  function FirstSize(count: nat): nat {
    var h := (count + 1) / 2;
    if h % 2 == 0 then h + 1 else h
  }

  /** It is the least odd number that is at least half of them. */
  lemma FirstSizeIsLeast(count: nat, f: nat)
    ensures FirstSize(count) % 2 == 1 && 2 * FirstSize(count) >= count
    ensures f % 2 == 1 && 2 * f >= count ==> f >= FirstSize(count)
  {
  }

  /** ((count + 1) / 2) | 1 */
  lemma FirstSizeIsOr(count: nat)
    ensures Or((count + 1) / 2, 1) == FirstSize(count)
  {
    hide Or;
    OrStep((count + 1) / 2, 1);
    XorZero((count + 1) / 2 / 2);
  }

  function SumOf(s: seq<nat>, n: nat): nat
    requires n <= |s|
  {
    if n == 0 then 0 else SumOf(s, n - 1) + s[n - 1]
  }

  lemma {:induction false} SumOfUpdate(s: seq<nat>, i: nat, x: nat, n: nat)
    requires n <= |s| && i < |s|
    ensures SumOf(s[i := x], n) == SumOf(s, n) + (if i < n then x - s[i] else 0)
  {
    if n > 0 { SumOfUpdate(s, i, x, n - 1); }
  }

  /** The heap, the scalars, and the pairs (i, j) combined so far: s[i] - s[j] has replaced s[i]. */
  datatype Stage = Stage(h: seq<nat>, s: seq<nat>, pairs: seq<(nat, nat)>)

  predicate Apart(pair: (nat, nat), n: nat) { pair.0 < n && pair.1 < n && pair.0 != pair.1 }

  ghost predicate Fit(z: Stage) {
    && InRange(z.h, z.s, |z.h|)
    && forall k :: 0 <= k < |z.pairs| ==> Apart(z.pairs[k], |z.s|)
  }

  /** The two largest scalars are combined while the larger one exceeds 128 bits and the other is not zero. */
  predicate Combines(z: Stage)
    requires Fit(z)
  {
    |z.h| >= 3 && var (i, j) := TopOf(z.h, z.s); i != j && 0 < z.s[j] <= z.s[i] && TWO_128 <= z.s[i]
  }

  function Combined(z: Stage): (z': Stage)
    requires Fit(z) && Combines(z)
    ensures Fit(z') && |z'.h| == |z.h| && |z'.s| == |z.s|
  {
    var (i, j) := TopOf(z.h, z.s);
    var s := z.s[i := z.s[i] - z.s[j]];
    Stage(Repair(z.h, s), s, z.pairs + [(i, j)])
  }

  lemma CombinedLess(z: Stage)
    requires Fit(z) && Combines(z)
    ensures SumOf(Combined(z).s, |z.s|) < SumOf(z.s, |z.s|)
  {
    var (i, j) := TopOf(z.h, z.s);
    SumOfUpdate(z.s, i, z.s[i] - z.s[j], |z.s|);
  }

  /** All combinations before the extension. */
  function Reduced(z: Stage): (z': Stage)
    requires Fit(z)
    ensures Fit(z') && |z'.h| == |z.h| && |z'.s| == |z.s|
    decreases SumOf(z.s, |z.s|)
  {
    if Combines(z) then
      CombinedLess(z);
      Reduced(Combined(z))
    else z
  }

  /** The stage at which the run extends, or stops. */
  function FirstPart(s: seq<nat>, count: nat): (z: Stage)
    requires FirstSize(count) <= |s|
    ensures Fit(z) && |z.h| == FirstSize(count) && |z.s| == |s|
  {
    Reduced(Stage(Inserts([], s, FirstSize(count)), s, []))
  }

  /** The index at the last node of the extended heap. */
  function LastIndex(s: seq<nat>, count: nat): (i: nat)
    requires FirstSize(count) <= count <= |s|
    ensures i < |s|
  {
    var z := FirstPart(s, count);
    Inserts(z.h, z.s, count)[count - 1]
  }

  /** Its scalar. */
  function IdleScalar(s: seq<nat>, count: nat): nat
    requires FirstSize(count) <= count <= |s|
  {
    FirstPart(s, count).s[LastIndex(s, count)]
  }

  /** What the combinations make of the points: the point of j absorbs the point of i. */
  function Apply<P(!new)>(g: Group<P>, pairs: seq<(nat, nat)>, p: seq<P>): (r: seq<P>)
    requires forall k :: 0 <= k < |pairs| ==> Apart(pairs[k], |p|)
    ensures |r| == |p|
  {
    if pairs == [] then p
    else
      var r := Apply(g, pairs[..|pairs| - 1], p);
      assert Apart(pairs[|pairs| - 1], |p|);
      var (i, j) := pairs[|pairs| - 1];
      r[j := g.add(r[j], r[i])]
  }

  /** What the heap holds when the 128-bit scalars join, and the index that stays idle from then on. */
  datatype Snapshot<!P> = Snapshot(s: seq<nat>, p: seq<P>, idle: nat)

  function SnapshotOf<P(!new)>(g: Group<P>, s: seq<nat>, p: seq<P>, count: nat): (x: Snapshot<P>)
    requires FirstSize(count) <= count <= |s| == |p|
    ensures |x.s| == |x.p| == |s| && (x.idle < |s| <==> count % 2 == 0)
  {
    var z := FirstPart(s, count);
    Snapshot(z.s, Apply(g, z.pairs, p), if count % 2 == 0 then LastIndex(s, count) else |s|)
  }

  /** A run that started on s0 and p0 and has not extended yet has come to stage z and points p. */
  ghost predicate OnTheWay<P(!new)>(g: Group<P>, s0: seq<nat>, p0: seq<P>, count: nat, z: Stage, p: seq<P>) {
    && FirstSize(count) <= count <= |s0| == |p0| && Fit(z) && |z.s| == |s0|
    && Reduced(z) == FirstPart(s0, count) && p == Apply(g, z.pairs, p0)
  }

  lemma WayStart<P(!new)>(g: Group<P>, s: seq<nat>, p: seq<P>, count: nat)
    requires FirstSize(count) <= count <= |s| == |p|
    ensures OnTheWay(g, s, p, count, Stage(Inserts([], s, FirstSize(count)), s, []), p)
  {
  }

  lemma WayStep<P(!new)>(g: Group<P>, s0: seq<nat>, p0: seq<P>, count: nat, z: Stage, p: seq<P>, i: nat, j: nat)
    requires OnTheWay(g, s0, p0, count, z, p) && Combines(z) && (i, j) == TopOf(z.h, z.s)
    ensures Combined(z) == (var s := z.s[i := z.s[i] - z.s[j]]; Stage(Repair(z.h, s), s, z.pairs + [(i, j)]))
    ensures OnTheWay(g, s0, p0, count, Combined(z), p[j := g.add(p[j], p[i])])
  {
    hide Repair, Combines, TopOf;
    var pairs := z.pairs + [(i, j)];
    assert pairs[..|pairs| - 1] == z.pairs;
  }

  lemma WayEnd<P(!new)>(g: Group<P>, s0: seq<nat>, p0: seq<P>, count: nat, z: Stage, p: seq<P>)
    requires OnTheWay(g, s0, p0, count, z, p) && !Combines(z)
    ensures |z.h| == FirstSize(count)
    ensures var last := Inserts(z.h, z.s, count)[count - 1];
            SnapshotOf(g, s0, p0, count) == Snapshot(z.s, p, if count % 2 == 0 then last else |s0|)
  {
    hide Inserts, Combines;
  }

  /** The points from which the combinations make t. */
  function Unapply<P(!new)>(g: Group<P>, pairs: seq<(nat, nat)>, t: seq<P>): (p: seq<P>)
    requires forall k :: 0 <= k < |pairs| ==> Apart(pairs[k], |t|)
    ensures |p| == |t|
  {
    if pairs == [] then t
    else
      assert Apart(pairs[|pairs| - 1], |t|);
      var (i, j) := pairs[|pairs| - 1];
      Unapply(g, pairs[..|pairs| - 1], t[j := g.add(t[j], g.neg(t[i]))])
  }

  lemma {:induction false} ApplyUnapply<P(!new)>(g: Group<P>, pairs: seq<(nat, nat)>, t: seq<P>)
    requires Abelian(g) && forall k :: 0 <= k < |pairs| ==> Apart(pairs[k], |t|)
    ensures Apply(g, pairs, Unapply(g, pairs, t)) == t
  {
    hide Abelian;
    if pairs != [] {
      var (i, j) := pairs[|pairs| - 1];
      ApplyUnapply(g, pairs[..|pairs| - 1], t[j := g.add(t[j], g.neg(t[i]))]);
      Laws(g, t[j], g.neg(t[i]), t[i]);
      Laws(g, g.neg(t[i]), t[i], t[i]);
      Laws(g, t[i], t[i], t[i]);
    }
  }

  /** Before the extension only the indices of the first half are in the heap, and only their scalars change. */
  lemma {:induction false} ReducedKeeps(z: Stage)
    requires Fit(z) && Below(z.h, |z.h|) && |z.h| <= |z.s|
    ensures Below(Reduced(z).h, |z.h|) && forall i :: |z.h| <= i < |z.s| ==> Reduced(z).s[i] == z.s[i]
    decreases SumOf(z.s, |z.s|)
  {
    hide Repair, SumOf;
    if Combines(z) {
      CombinedLess(z);
      var s := Combined(z).s;
      RepairBelow(z.h, s, |z.h|);
      ReducedKeeps(Combined(z));
    }
  }

  lemma FirstPartKeeps(s: seq<nat>, count: nat)
    requires FirstSize(count) <= |s|
    ensures var z := FirstPart(s, count);
            Below(z.h, FirstSize(count)) && forall i :: FirstSize(count) <= i < |s| ==> z.s[i] == s[i]
  {
    hide Inserts, Reduced;
    InsertsBelow([], s, FirstSize(count));
    ReducedKeeps(Stage(Inserts([], s, FirstSize(count)), s, []));
  }

  /** Without a scalar above 128 bits in the first half, the run extends with the heap as built. */
  lemma FirstPartOfSmall(s: seq<nat>, count: nat)
    requires FirstSize(count) <= |s| && forall i :: 0 <= i < FirstSize(count) ==> s[i] < TWO_128
    ensures FirstPart(s, count) == Stage(Inserts([], s, FirstSize(count)), s, [])
  {
    hide Inserts;
    InsertsBelow([], s, FirstSize(count));
  }

  /** The node above the last one. */
  function AboveLast(count: nat): nat
    requires count >= 2
  {
    (count - 2) / 2
  }

  /** The idle scalar is the smaller of the last scalar and the one that the node above held before it joined. */
  lemma IdleScalarIsMin(s: seq<nat>, count: nat)
    requires FirstSize(count) <= count <= |s| && count % 2 == 0 && count >= 4
    ensures var z := FirstPart(s, count);
            var above := z.s[Inserts(z.h, z.s, count - 1)[AboveLast(count)]];
            IdleScalar(s, count) == if above < s[count - 1] then above else s[count - 1]
  {
    hide Rise, FirstPart;
    var z := FirstPart(s, count);
    FirstPartKeeps(s, count);
    var h := Inserts(z.h, z.s, count - 1);
    InsertsSplit(z.h, z.s, count - 1, count);
    assert Inserts(h, z.s, count) == Insert(h, z.s);
    RiseLast(h + [|h|], z.s, |h|);
  }

  /** If the last scalar is zero, so is the idle one. */
  lemma LastZeroIdle(s: seq<nat>, count: nat)
    requires FirstSize(count) <= count <= |s| && count % 2 == 0 && count >= 4 && s[count - 1] == 0
    ensures IdleScalar(s, count) == 0
  {
    hide FirstPart, Inserts, IdleScalar;
    IdleScalarIsMin(s, count);
  }

  /** If the first half holds no zero when the others join, the idle scalar is zero only if the last one is. */
  lemma IdleZeroIff(s: seq<nat>, count: nat)
    requires FirstSize(count) <= count <= |s| && count % 2 == 0 && count >= 4
    requires forall i :: 0 <= i < FirstSize(count) ==> FirstPart(s, count).s[i] > 0
    ensures IdleScalar(s, count) == 0 <==> s[count - 1] == 0
  {
    hide FirstPart, Inserts, IdleScalar;
    var z := FirstPart(s, count);
    FirstPartKeeps(s, count);
    IdleScalarIsMin(s, count);
    InsertsNonzero(z.h, z.s, count - 1, FirstSize(count));
  }

  /** With small scalars in the first half, the idle index is the last one of the heap of all scalars. */
  lemma IdleOfSmall(s: seq<nat>, count: nat)
    requires FirstSize(count) <= count <= |s| && forall i :: 0 <= i < FirstSize(count) ==> s[i] < TWO_128
    ensures IdleScalar(s, count) == s[Inserts([], s, count)[count - 1]]
  {
    hide Inserts, FirstPart;
    FirstPartOfSmall(s, count);
    InsertsSplit([], s, FirstSize(count), count);
  }
}
