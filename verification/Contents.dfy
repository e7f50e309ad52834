/** What an operation on the table adds and takes away, exactly (dht_router/kademlia.rs). */
module Contents {
  import opened Prelude
  import opened NodeIds
  import opened Table
  import B = Buckets

  // -------------------------------------------------- what a tick takes away

  lemma {:induction false} WithoutId(s: seq<B.KNode>, ids: seq<Id>, id: Id)
    ensures B.Count(B.Without(s, ids), B.HasTheId(id)) == if id in ids then 0 else B.Count(s, B.HasTheId(id))
  {
    if s != [] {
      var front, last := s[..|s| - 1], s[|s| - 1];
      WithoutId(front, ids, id);
      assert B.Without(front, ids) + [] == B.Without(front, ids);
      if last.id !in ids { B.CountPush(B.Without(front, ids), last, B.HasTheId(id)); }
    }
  }

  lemma {:induction false} ExpiredCounts(s: seq<B.KNode>, c: B.Config, id: Id)
    ensures id in B.Expired(s, c) ==> B.Count(s, B.HasTheId(id)) > 0
  {
    if s != [] { ExpiredCounts(s[..|s| - 1], c, id); }
  }

  lemma BucketTick(b: B.Bucket, c: B.Config, id: Id)
    requires c.Ok() && (b.isRoot || |b.active| <= c.k)
    ensures var p, gone := B.HasTheId(id), id in B.TickReport(b, c).deleted;
      && B.Count(B.Tick(b, c).Nodes(), p) == (if gone then 0 else B.Count(b.Nodes(), p))
      && (gone ==> B.Count(b.Nodes(), p) > 0)
  {
    var p, ids := B.HasTheId(id), B.TickReport(b, c).deleted;
    var aged := B.Aged(b, c.k);
    B.SameCounts(aged.Nodes(), b.Nodes(), p);
    B.CountNodes(aged, p);
    B.CountNodes(B.Tick(b, c), p);
    WithoutId(aged.active, ids, id);
    WithoutId(aged.cache, ids, id);
    ExpiredCounts(b.active, c, id);
    ExpiredCounts(B.Pinged(b, c.k), c, id);
    PingedCounts(b, c.k, p);
    B.CountNodes(b, p);
  }

  lemma PingedCounts(b: B.Bucket, k: nat, p: B.Kind)
    requires b.isRoot || |b.active| <= k
    ensures B.Count(B.Pinged(b, k), p) <= B.Count(b.cache, p)
  {
    var n := |B.Pinged(b, k)|;
    assert b.cache == b.cache[..n] + b.cache[n..];
    B.CountConcat(b.cache[..n], b.cache[n..], p);
  }

  lemma {:induction false} BucketsTick(bs: seq<B.Bucket>, c: B.Config, id: Id)
    requires c.Ok() && forall i :: 0 <= i < |bs| ==> |bs[i].active| <= c.k
    requires CountIn(bs, B.HasTheId(id)) <= 1
    ensures var p, gone := B.HasTheId(id), id in ReportOf(bs, c).deleted;
      && CountIn(TickBuckets(bs, c), p) == (if gone then 0 else CountIn(bs, p))
      && (gone ==> CountIn(bs, p) > 0)
  {
    if bs != [] {
      assert TickBuckets(bs, c)[..|bs| - 1] == TickBuckets(bs[..|bs| - 1], c);
      BucketsTick(bs[..|bs| - 1], c, id);
      BucketTick(bs[|bs| - 1], c, id);
    }
  }

  /** A tick takes away exactly the nodes it reports as deleted, each of which was there. */
  lemma TickRemovesReported(t: Table, id: Id)
    requires Inv(t)
    ensures CountAll(Tick(t), B.HasTheId(id))
      == if id in TickReport(t).deleted then 0 else CountAll(t, B.HasTheId(id))
    ensures id in TickReport(t).deleted ==> CountAll(t, B.HasTheId(id)) == 1
  {
    assert CountAll(t, B.HasTheId(id)) <= 1;
    BucketsTick(t.buckets, t.config, id);
    BucketTick(t.rootBucket, t.config, id);
  }

  // ------------------------------------------------------- removing and adding

  lemma NotElsewhere(b: B.Bucket, root: Id, i: nat, k: nat, id: Id)
    requires BucketOk(b, root, i, k) && Depth(root, id) != i
    ensures B.Count(b.Nodes(), B.HasTheId(id)) == 0
  {
    B.CountFinds(b.Nodes(), B.HasTheId(id));
  }

  lemma {:induction false} CountInOnly(bs: seq<B.Bucket>, d: nat, p: B.Kind)
    requires forall i :: 0 <= i < |bs| && i != d ==> B.Count(bs[i].Nodes(), p) == 0
    ensures CountIn(bs, p) == if d < |bs| then B.Count(bs[d].Nodes(), p) else 0
  {
    if bs != [] { CountInOnly(bs[..|bs| - 1], d, p); }
  }

  /** An id can only be in the bucket of its depth. */
  lemma WhereIs(t: Table, id: Id)
    requires Shape(t)
    ensures var d, p := Depth(t.root, id), B.HasTheId(id);
      CountAll(t, p) == B.Count((if d < |t.buckets| then t.buckets[d] else t.rootBucket).Nodes(), p)
  {
    var d, p := Depth(t.root, id), B.HasTheId(id);
    forall i | 0 <= i < |t.buckets| && i != d ensures B.Count(t.buckets[i].Nodes(), p) == 0 {
      NotElsewhere(t.buckets[i], t.root, i, t.config.k, id);
    }
    CountInOnly(t.buckets, d, p);
    B.CountFinds(t.rootBucket.Nodes(), p);
  }

  lemma RemovedFromBucket(b: B.Bucket, id: Id, x: Id)
    ensures B.Count(B.RemoveIds(b, [id]).Nodes(), B.HasTheId(x))
      == if x == id then 0 else B.Count(b.Nodes(), B.HasTheId(x))
  {
    B.CountNodes(b, B.HasTheId(x));
    B.CountNodes(B.RemoveIds(b, [id]), B.HasTheId(x));
    WithoutId(b.active, [id], x);
    WithoutId(b.cache, [id], x);
  }

  /** Removing takes away that id and no other, whatever is merged. */
  lemma RemoveNodeExactly(t: Table, id: Id, x: Id)
    requires Inv(t)
    ensures CountAll(RemoveNode(t, id), B.HasTheId(x)) == if x == id then 0 else CountAll(t, B.HasTheId(x))
  {
    var d := Depth(t.root, id);
    WhereIs(t, id);
    if d < |t.buckets| {
      RemovedFromBucket(t.buckets[d], id, x);
      CountInUpdate(t.buckets, d, B.RemoveIds(t.buckets[d], [id]), B.HasTheId(x));
    } else {
      RemovedFromBucket(t.rootBucket, id, x);
      RemoveFromRootInv(t, id);
      RebalanceWantingKeepsAll(RemoveFromRoot(t, id), B.HasTheId(x));
    }
  }

  /** A disconnection does the same for ids in the lower buckets, and nothing for others. */
  lemma NodeDisconnectedExactly(t: Table, id: Id, x: Id)
    requires Inv(t)
    ensures CountAll(NodeDisconnected(t, id), B.HasTheId(x))
      == if x == id && Depth(t.root, id) < |t.buckets| then 0 else CountAll(t, B.HasTheId(x))
  {
    var d := Depth(t.root, id);
    WhereIs(t, id);
    if d < |t.buckets| {
      RemovedFromBucket(t.buckets[d], id, x);
      CountInUpdate(t.buckets, d, B.RemoveIds(t.buckets[d], [id]), B.HasTheId(x));
      RemoveFromBucketInv(t, id);
      RebalanceWantingKeepsAll(RemoveFromBucket(t, id), B.HasTheId(x));
    }
  }

  lemma NodeActiveExactly(t: Table, id: Id, p: B.Kind)
    requires Inv(t)
    ensures CountAll(NodeActive(t, id).0, p) == CountAll(t, p)
  {
    var d, k := Depth(t.root, id), t.config.k;
    if d < |t.buckets| {
      B.NodeActiveCounts(t.buckets[d], id, k, p);
      CountInUpdate(t.buckets, d, B.NodeActive(t.buckets[d], id, k).0, p);
    } else {
      B.NodeActiveCounts(t.rootBucket, id, k, p);
    }
  }

  ghost predicate ActiveAt(t: Table, id: Id) {
    var d := Depth(t.root, id);
    B.HasId((if d < |t.buckets| then t.buckets[d] else t.rootBucket).active, id)
  }

  /** The answer to a sign of life tells whether the id just became active. */
  lemma NodeActiveAnswer(t: Table, id: Id)
    ensures NodeActive(t, id).1 <==> !ActiveAt(t, id) && ActiveAt(NodeActive(t, id).0, id)
  {
    var d, k := Depth(t.root, id), t.config.k;
    B.NodeActiveMoved(if d < |t.buckets| then t.buckets[d] else t.rootBucket, id, k);
  }

  lemma {:induction false} RebalanceOverflowAddsNone(t: Table, p: B.Kind)
    requires Shape(t)
    ensures CountAll(RebalanceOverflow(t), p) <= CountAll(t, p)
    decreases 256 - |t.buckets|
  {
    if B.StatusOf(t.rootBucket, t.config.k).Overflowing? {
      SplitShape(t);
      SplitCounts(t, p);
      RebalanceOverflowAddsNone(Split(t), p);
    }
  }

  // ------------------------------------------------------ what a split loses

  ghost predicate Overflowing(t: Table) { B.StatusOf(t.rootBucket, t.config.k).Overflowing? }

  /** Where the nodes are after a split. */
  lemma SplitParts(t: Table, p: B.Kind)
    ensures var (active, cached, rest) := B.ExtractDepth(t.rootBucket, |t.buckets|, t.config.k);
      && CountAll(Split(t), p)
        == CountIn(t.buckets, p) + B.Count(NewBucket(t).Nodes(), p) + B.Count(rest.Nodes(), p)
      && CountAll(t, p)
        == CountIn(t.buckets, p) + B.Count(active, p) + B.Count(cached, p) + B.Count(rest.Nodes(), p)
      && B.Count(NewBucket(t).Nodes(), p) <= B.Count(active, p) + B.Count(cached, p)
  {
    var k := t.config.k;
    var (active, cached, rest) := B.ExtractDepth(t.rootBucket, |t.buckets|, k);
    B.ExtractDepthCounts(t.rootBucket, |t.buckets|, k, p);
    var b0 := B.Bucket([], [], false);
    B.AddNodesActiveCounts(b0, active, k, p);
    B.AddNodesCounts(B.AddNodesActive(b0, active, k), cached, k, p);
    assert Split(t).buckets[..|t.buckets|] == t.buckets;
  }

  /** The bucket that a split adds. */
  ghost function NewBucket(t: Table): B.Bucket {
    var k := t.config.k;
    var (active, cached, rest) := B.ExtractDepth(t.rootBucket, |t.buckets|, k);
    B.AddNodes(B.AddNodesActive(B.Bucket([], [], false), active, k), cached, k)
  }

  /** A split loses no node of another depth than the one it takes out. */
  lemma SplitKeepsOtherDepths(t: Table, id: Id)
    requires Shape(t) && Depth(t.root, id) != |t.buckets|
    ensures CountAll(Split(t), B.HasTheId(id)) == CountAll(t, B.HasTheId(id))
  {
    var d, p := |t.buckets|, B.HasTheId(id);
    var (active, cached, rest) := B.ExtractDepth(t.rootBucket, d, t.config.k);
    B.ExtractDepthMembers(t.rootBucket, d, t.config.k);
    SplitParts(t, p);
    B.CountFinds(active, p);
    B.CountFinds(cached, p);
    assert forall n :: n in active || n in cached ==> n in t.rootBucket.Nodes();
  }

  /** Splitting until the root bucket is stable loses only nodes of the depths split off. */
  lemma {:induction false} RebalanceOverflowKeeps(t: Table, id: Id)
    requires Shape(t)
    ensures |RebalanceOverflow(t).buckets| >= |t.buckets|
    ensures var d := Depth(t.root, id);
      d < |t.buckets| || d >= |RebalanceOverflow(t).buckets| ==>
        CountAll(RebalanceOverflow(t), B.HasTheId(id)) == CountAll(t, B.HasTheId(id))
    decreases 256 - |t.buckets|
  {
    if Overflowing(t) {
      SplitShape(t);
      RebalanceOverflowKeeps(Split(t), id);
      if Depth(t.root, id) != |t.buckets| { SplitKeepsOtherDepths(t, id); }
    }
  }

  /** The new bucket has room: for the active nodes in its lists, and then for the cached. */
  ghost predicate SplitFits(t: Table) {
    var k := t.config.k;
    var (active, cached, rest) := B.ExtractDepth(t.rootBucket, |t.buckets|, k);
    |active| <= 2 * k && Max(|active| - k, 0) + |cached| <= 2 * k
  }

  lemma {:induction false} ActiveSizes(s: seq<B.KNode>, k: nat)
    ensures var b := B.AddNodesActive(B.Bucket([], [], false), s, k);
      !b.isRoot && |b.active| == Min(|s|, k) && |b.cache| == Min(Max(|s| - k, 0), k)
  {
    if s != [] {
      var b := B.AddNodesActive(B.Bucket([], [], false), s[..|s| - 1], k);
      ActiveSizes(s[..|s| - 1], k);
      B.SortSorts(b.active + [s[|s| - 1]]);
    }
  }

  lemma {:induction false} CacheSizes(b: B.Bucket, s: seq<B.KNode>, k: nat)
    requires !b.isRoot && |b.cache| <= 2 * k
    ensures var r := B.AddNodes(b, s, k);
      !r.isRoot && r.active == b.active && |r.cache| == Min(|b.cache| + |s|, 2 * k)
  {
    if s != [] { CacheSizes(b, s[..|s| - 1], k); }
  }

  function Other(p: B.Kind): B.Kind { (i: Id, d: nat) => !p(i, d) }

  lemma {:induction false} CountOther(s: seq<B.KNode>, p: B.Kind)
    ensures B.Count(s, p) + B.Count(s, Other(p)) == |s|
  {
    if s != [] { CountOther(s[..|s| - 1], p); }
  }

  lemma SplitSizes(t: Table)
    ensures var (active, cached, rest) := B.ExtractDepth(t.rootBucket, |t.buckets|, t.config.k);
      |NewBucket(t).Nodes()| <= |active| + |cached|
      && (|NewBucket(t).Nodes()| == |active| + |cached| <==> SplitFits(t))
  {
    var k := t.config.k;
    var (active, cached, rest) := B.ExtractDepth(t.rootBucket, |t.buckets|, k);
    ActiveSizes(active, k);
    CacheSizes(B.AddNodesActive(B.Bucket([], [], false), active, k), cached, k);
  }

  /** A split loses no node exactly while the new bucket has room. */
  lemma SplitLosesNoneIff(t: Table)
    ensures (forall p: B.Kind :: CountAll(Split(t), p) == CountAll(t, p)) <==> SplitFits(t)
  {
    var (active, cached, rest) := B.ExtractDepth(t.rootBucket, |t.buckets|, t.config.k);
    SplitSizes(t);
    SplitParts(t, B.Any());
    B.CountAny(active);
    B.CountAny(cached);
    B.CountAny(NewBucket(t).Nodes());
    if SplitFits(t) {
      forall p: B.Kind ensures CountAll(Split(t), p) == CountAll(t, p) {
        SplitParts(t, p);
        SplitParts(t, Other(p));
        CountOther(active, p);
        CountOther(cached, p);
        CountOther(NewBucket(t).Nodes(), p);
      }
    } else {
      assert CountAll(Split(t), B.Any()) != CountAll(t, B.Any());
    }
  }

  // -------------------------------------------- no more splits and merges than needed

  function AtLeast(depth: nat): B.Kind { (i: Id, d: nat) => d >= depth }

  lemma {:induction false} CountOfAll(s: seq<B.KNode>, p: B.Kind)
    requires forall n :: n in s ==> p(n.id, n.depth)
    ensures B.Count(s, p) == |s|
  {
    if s != [] {
      assert s == s[..|s| - 1] + [s[|s| - 1]];
      CountOfAll(s[..|s| - 1], p);
    }
  }

  lemma {:induction false} CountAtMost(s: seq<B.KNode>, p: B.Kind)
    ensures B.Count(s, p) <= |s|
  {
    if s != [] { CountAtMost(s[..|s| - 1], p); }
  }

  lemma {:induction false} SplitsGrow(t: Table)
    requires Shape(t)
    ensures var r := RebalanceOverflow(t);
      |r.buckets| >= |t.buckets| && r.config == t.config && (|r.buckets| == |t.buckets| ==> r == t)
    decreases 256 - |t.buckets|
  {
    if Overflowing(t) {
      SplitShape(t);
      SplitsGrow(Split(t));
    }
  }

  /** Nodes at some depth and deeper, in the root bucket. */
  ghost function DeepNodes(t: Table, depth: nat): nat { B.Count(t.rootBucket.Nodes(), AtLeast(depth)) }

  lemma SplitHasFewer(t: Table, depth: nat)
    ensures DeepNodes(Split(t), depth) <= DeepNodes(t, depth)
  {
    B.ExtractDepthCounts(t.rootBucket, |t.buckets|, t.config.k, AtLeast(depth));
  }

  lemma AllAreDeep(t: Table)
    requires Shape(t)
    ensures DeepNodes(t, |t.buckets|) == |t.rootBucket.Nodes()|
  {
    CountOfAll(t.rootBucket.Nodes(), AtLeast(|t.buckets|));
  }

  lemma OverflowIsBig(t: Table)
    requires Overflowing(t)
    ensures |t.rootBucket.Nodes()| >= 2 * t.config.k
  {
  }

  lemma SplitWasNeeded(t: Table, m: nat)
    requires DeepNodes(t, |t.buckets|) >= 2 * t.config.k && m > |t.buckets|
    requires m > |t.buckets| + 1 ==> DeepNodes(Split(t), m - 1) >= 2 * t.config.k
    ensures DeepNodes(t, m - 1) >= 2 * t.config.k
  {
    SplitHasFewer(t, m - 1);
  }

  /** Every split was needed: 2k nodes or more were at its depth and deeper. */
  lemma {:induction false} SplitsNoMore(t: Table, m: nat)
    requires Shape(t) && |RebalanceOverflow(t).buckets| == m > |t.buckets|
    ensures DeepNodes(t, m - 1) >= 2 * t.config.k
    decreases 256 - |t.buckets|
  {
    SplitShape(t);
    OverflowIsBig(t);
    AllAreDeep(t);
    if m > |t.buckets| + 1 { SplitsNoMore(Split(t), m); }
    SplitWasNeeded(t, m);
  }

  lemma {:induction false} MergesShrink(t: Table)
    requires Inv(t)
    ensures var r := RebalanceWanting(t);
      |r.buckets| <= |t.buckets| && r.config == t.config && (|r.buckets| == |t.buckets| ==> r == t)
    decreases |t.buckets|
  {
    if B.StatusOf(t.rootBucket, t.config.k).Wanting? && t.buckets != [] {
      MergeInv(t);
      MergesShrink(Merge(t));
    }
  }

  /** Every merge was needed: fewer than k nodes were deeper than what it brought back. */
  lemma {:induction false} MergesNoMore(t: Table, r: Table)
    requires Inv(t) && r == RebalanceWanting(t) && |r.buckets| < |t.buckets|
    ensures DeepNodes(r, |r.buckets| + 1) < t.config.k
    decreases |t.buckets|
  {
    MergeInv(t);
    MergesShrink(Merge(t));
    if |r.buckets| < |t.buckets| - 1 { MergesNoMore(Merge(t), r); } else { MergeWasNeeded(t); }
  }

  lemma MergeWasNeeded(t: Table)
    requires Inv(t) && t.buckets != [] && B.StatusOf(t.rootBucket, t.config.k).Wanting?
    ensures DeepNodes(Merge(t), |t.buckets|) < t.config.k
  {
    var last := t.buckets[|t.buckets| - 1].Nodes();
    MergeRootCounts(t, AtLeast(|t.buckets|));
    B.CountFinds(last, AtLeast(|t.buckets|));
    CountAtMost(t.rootBucket.Nodes(), AtLeast(|t.buckets|));
  }

  // ------------------------------------------------------------------ adding

  /** Whether there is room for a new id without a split. */
  predicate HasPlace(t: Table, id: Id) {
    var d, n := Depth(t.root, id), NewNode(t.root, id);
    if d < |t.buckets| then |t.buckets[d].cache| < 2 * t.config.k
    else !B.StatusOf(B.AddNode(t.rootBucket, n, t.config.k), t.config.k).Overflowing?
  }

  ghost predicate IsNew(t: Table, id: Id) { !HasNode(t, id) && id != t.root }

  lemma PushedCounts(b: B.Bucket, n: B.KNode, k: nat, x: Id)
    requires b.isRoot || |b.cache| < 2 * k
    ensures B.Count(B.AddNode(b, n, k).Nodes(), B.HasTheId(x))
      == B.Count(b.Nodes(), B.HasTheId(x)) + if n.id == x then 1 else 0
  {
    B.CountPush(b.Nodes(), n, B.HasTheId(x));
    assert b.active + (b.cache + [n]) == b.Nodes() + [n];
    assert B.HasTheId(x)(n.id, n.depth) <==> n.id == x;
  }

  lemma NewIsNotCounted(t: Table, id: Id)
    requires IsNew(t, id)
    ensures CountAll(t, B.HasTheId(id)) == 0
  {
    HasNodeCounts(t, id);
  }

  /** Adding a new id to a lower bucket adds it and nothing else, or nothing if that is full. */
  lemma AddToBucketExactly(t: Table, id: Id, x: Id)
    requires Inv(t) && IsNew(t, id) && Depth(t.root, id) < |t.buckets|
    ensures CountAll(AddNode(t, id), B.HasTheId(x))
      == if x == id then (if HasPlace(t, id) then 1 else 0) else CountAll(t, B.HasTheId(x))
  {
    var n, d, k := NewNode(t.root, id), Depth(t.root, id), t.config.k;
    NewIsNotCounted(t, id);
    if HasPlace(t, id) {
      PushedCounts(t.buckets[d], n, k, x);
      CountInUpdate(t.buckets, d, B.AddNode(t.buckets[d], n, k), B.HasTheId(x));
    } else {
      assert t.buckets[d := t.buckets[d]] == t.buckets && !t.buckets[d].isRoot;
    }
  }

  lemma PushedToRoot(t: Table, id: Id, x: Id)
    requires Inv(t)
    ensures CountAll(t.(rootBucket := B.AddNode(t.rootBucket, NewNode(t.root, id), t.config.k)), B.HasTheId(x))
      == CountAll(t, B.HasTheId(x)) + if x == id then 1 else 0
  {
    PushedCounts(t.rootBucket, NewNode(t.root, id), t.config.k, x);
  }

  lemma AddedToRoot(t: Table, id: Id)
    requires Inv(t) && IsNew(t, id) && Depth(t.root, id) >= |t.buckets|
    ensures var r := t.(rootBucket := B.AddNode(t.rootBucket, NewNode(t.root, id), t.config.k));
      Shape(r) && AddNode(t, id) == RebalanceOverflow(r) && (HasPlace(t, id) ==> RebalanceOverflow(r) == r)
  {
    AddToRootShape(t, id);
  }

  /** Adding a new id to the root bucket adds it and nothing else; splits add none, and may
      drop only nodes of the depths they split off. */
  lemma AddToRootExactly(t: Table, id: Id, x: Id)
    requires Inv(t) && IsNew(t, id) && Depth(t.root, id) >= |t.buckets|
    ensures var before, r, d := if x == id then 1 else CountAll(t, B.HasTheId(x)), AddNode(t, id), Depth(t.root, x);
      && CountAll(r, B.HasTheId(x)) <= before
      && (HasPlace(t, id) || d < |t.buckets| || d >= |r.buckets| ==> CountAll(r, B.HasTheId(x)) == before)
  {
    NewIsNotCounted(t, id);
    AddedToRoot(t, id);
    PushedToRoot(t, id, x);
    var r := t.(rootBucket := B.AddNode(t.rootBucket, NewNode(t.root, id), t.config.k));
    RebalanceOverflowAddsNone(r, B.HasTheId(x));
    RebalanceOverflowKeeps(r, x);
  }
}
