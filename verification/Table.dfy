/** The Kademlia routing table as a value, and its invariant over every run
    (dht_router/kademlia.rs). */
module Table {
  import opened NodeIds
  import B = Buckets

  datatype Table = Table(root: Id, config: B.Config, buckets: seq<B.Bucket>, rootBucket: B.Bucket)

  function NewNode(root: Id, id: Id): B.KNode { B.KNode(id, Depth(root, id), 0, 0) }

  function NewTable(root: Id, config: B.Config): Table {
    Table(root, config, [], B.Bucket([], [], true))
  }

  // -------------------------------------------------------------- invariant

  ghost predicate NodeOk(root: Id, n: B.KNode) { n.depth == Depth(root, n.id) && n.id != root }

  /** Bucket i holds nodes of depth i only: at most k active, 2k cached. */
  ghost predicate BucketOk(b: B.Bucket, root: Id, i: nat, k: nat) {
    && !b.isRoot && |b.active| <= k && |b.cache| <= 2 * k
    && forall n :: n in b.Nodes() ==> NodeOk(root, n) && n.depth == i
  }

  /** The root bucket takes every node at least as deep as the number of buckets. */
  ghost predicate RootOk(b: B.Bucket, root: Id, m: nat) {
    && b.isRoot && B.SortedByDepth(b.active)
    && forall n :: n in b.Nodes() ==> NodeOk(root, n) && n.depth >= m
  }

  function CountIn(bs: seq<B.Bucket>, p: B.Kind): nat {
    if bs == [] then 0 else CountIn(bs[..|bs| - 1], p) + B.Count(bs[|bs| - 1].Nodes(), p)
  }

  /** How many nodes of kind p the whole table holds. */
  function CountAll(t: Table, p: B.Kind): nat {
    CountIn(t.buckets, p) + B.Count(t.rootBucket.Nodes(), p)
  }

  ghost predicate Unique(t: Table) { forall id: Id :: CountAll(t, B.HasTheId(id)) <= 1 }

  /** The invariant without the balance of the root bucket: it also holds between
      the steps of a rebalancing loop. */
  ghost predicate Shape(t: Table) {
    && t.config.Ok() && |t.buckets| <= 256
    && (forall i :: 0 <= i < |t.buckets| ==> BucketOk(t.buckets[i], t.root, i, t.config.k))
    && RootOk(t.rootBucket, t.root, |t.buckets|)
    && Unique(t)
  }

  ghost predicate Inv(t: Table) {
    Shape(t) && !B.Overflows(t.rootBucket.Nodes(), t.config.k)
  }

  // ------------------------------------------------------------- operations

  predicate HasNode(t: Table, id: Id) {
    (exists i :: 0 <= i < |t.buckets| && B.HasId(t.buckets[i].Nodes(), id))
    || B.HasId(t.rootBucket.Nodes(), id)
  }

  /** One round of the splitting loop: the shallowest depth gets its own bucket. */
  function Split(t: Table): Table {
    var (active, cached, rest) := B.ExtractDepth(t.rootBucket, |t.buckets|, t.config.k);
    var added := B.AddNodes(B.AddNodesActive(B.Bucket([], [], false), active, t.config.k), cached, t.config.k);
    t.(buckets := t.buckets + [added], rootBucket := rest)
  }

  function RebalanceOverflow(t: Table): Table
    requires Shape(t)
    decreases 256 - |t.buckets|
  {
    if B.StatusOf(t.rootBucket, t.config.k).Overflowing? then
      SplitShape(t);
      RebalanceOverflow(Split(t))
    else t
  }

  /** One round of the merging loop: the last bucket goes back into the root bucket. */
  function Merge(t: Table): Table
    requires t.buckets != []
  {
    var last := t.buckets[|t.buckets| - 1];
    t.(buckets := t.buckets[..|t.buckets| - 1],
       rootBucket := B.AddNodes(B.AddNodesActive(t.rootBucket, last.active, t.config.k), last.cache, t.config.k))
  }

  function RebalanceWanting(t: Table): Table
    decreases |t.buckets|
  {
    if B.StatusOf(t.rootBucket, t.config.k).Wanting? && t.buckets != [] then RebalanceWanting(Merge(t)) else t
  }

  function AddNode(t: Table, id: Id): Table
    requires Inv(t)
  {
    if id == t.root || HasNode(t, id) then t
    else
      var n := NewNode(t.root, id);
      if n.depth < |t.buckets| then
        t.(buckets := t.buckets[n.depth := B.AddNode(t.buckets[n.depth], n, t.config.k)])
      else
        AddToRootShape(t, id);
        RebalanceOverflow(t.(rootBucket := B.AddNode(t.rootBucket, n, t.config.k)))
  }

  function RemoveFromBucket(t: Table, id: Id): Table
    requires Depth(t.root, id) < |t.buckets|
  {
    var d := Depth(t.root, id);
    t.(buckets := t.buckets[d := B.RemoveIds(t.buckets[d], [id])])
  }

  function RemoveFromRoot(t: Table, id: Id): Table {
    t.(rootBucket := B.RemoveIds(t.rootBucket, [id]))
  }

  function RemoveNode(t: Table, id: Id): Table {
    if Depth(t.root, id) < |t.buckets| then RemoveFromBucket(t, id)
    else RebalanceWanting(RemoveFromRoot(t, id))
  }

  /** As in the source, nodes of the root bucket are not removed here. */
  function NodeDisconnected(t: Table, id: Id): Table {
    if Depth(t.root, id) < |t.buckets| then RebalanceWanting(RemoveFromBucket(t, id)) else t
  }

  function NodeActive(t: Table, id: Id): (Table, bool) {
    var d := Depth(t.root, id);
    if d < |t.buckets| then
      var (b, moved) := B.NodeActive(t.buckets[d], id, t.config.k);
      (t.(buckets := t.buckets[d := b]), moved)
    else
      var (b, moved) := B.NodeActive(t.rootBucket, id, t.config.k);
      (t.(rootBucket := b), moved)
  }

  function TickBuckets(bs: seq<B.Bucket>, c: B.Config): (r: seq<B.Bucket>)
    requires c.Ok() && forall i :: 0 <= i < |bs| ==> |bs[i].active| <= c.k
    ensures |r| == |bs|
  {
    seq(|bs|, i requires 0 <= i < |bs| => B.Tick(bs[i], c))
  }

  function Tick(t: Table): Table
    requires Inv(t)
  {
    t.(buckets := TickBuckets(t.buckets, t.config), rootBucket := B.Tick(t.rootBucket, t.config))
  }

  function ReportOf(bs: seq<B.Bucket>, c: B.Config): B.TickIds
    requires c.Ok() && forall i :: 0 <= i < |bs| ==> |bs[i].active| <= c.k
  {
    if bs == [] then B.TickIds([], [])
    else
      var front := ReportOf(bs[..|bs| - 1], c);
      var last := B.TickReport(bs[|bs| - 1], c);
      B.TickIds(front.deleted + last.deleted, front.ping + last.ping)
  }

  /** The ids to ping and the ids which were dropped, bucket by bucket. */
  function TickReport(t: Table): B.TickIds
    requires Inv(t)
  {
    var front, last := ReportOf(t.buckets, t.config), B.TickReport(t.rootBucket, t.config);
    B.TickIds(front.deleted + last.deleted, front.ping + last.ping)
  }

  // --------------------------------------------------- counting over buckets

  lemma {:induction false} CountInUpdate(bs: seq<B.Bucket>, i: nat, b: B.Bucket, p: B.Kind)
    requires i < |bs|
    ensures CountIn(bs[i := b], p) + B.Count(bs[i].Nodes(), p) == CountIn(bs, p) + B.Count(b.Nodes(), p)
  {
    if i == |bs| - 1 {
      assert bs[i := b][..|bs| - 1] == bs[..|bs| - 1];
    } else {
      assert bs[i := b][..|bs| - 1] == bs[..|bs| - 1][i := b];
      CountInUpdate(bs[..|bs| - 1], i, b, p);
    }
  }

  lemma {:induction false} CountInFinds(bs: seq<B.Bucket>, p: B.Kind)
    ensures CountIn(bs, p) > 0 <==> exists i :: 0 <= i < |bs| && B.Count(bs[i].Nodes(), p) > 0
  {
    if bs != [] {
      var n := |bs| - 1;
      CountInFinds(bs[..n], p);
      if CountIn(bs[..n], p) > 0 {
        var i :| 0 <= i < n && B.Count(bs[..n][i].Nodes(), p) > 0;
        assert bs[i] == bs[..n][i];
      } else {
        forall i | 0 <= i < n ensures B.Count(bs[i].Nodes(), p) == 0 { assert bs[i] == bs[..n][i]; }
      }
    }
  }

  lemma HasIdCounts(s: seq<B.KNode>, id: Id)
    ensures B.HasId(s, id) <==> B.Count(s, B.HasTheId(id)) > 0
  {
    B.CountFinds(s, B.HasTheId(id));
    if B.HasId(s, id) {
      var i :| 0 <= i < |s| && s[i].id == id;
      assert s[i] in s && B.HasTheId(id)(s[i].id, s[i].depth);
    }
  }

  lemma HasNodeCounts(t: Table, id: Id)
    ensures HasNode(t, id) <==> CountAll(t, B.HasTheId(id)) > 0
  {
    CountInFinds(t.buckets, B.HasTheId(id));
    forall i | 0 <= i < |t.buckets|
      ensures B.HasId(t.buckets[i].Nodes(), id) <==> B.Count(t.buckets[i].Nodes(), B.HasTheId(id)) > 0
    {
      HasIdCounts(t.buckets[i].Nodes(), id);
    }
    HasIdCounts(t.rootBucket.Nodes(), id);
  }

  // --------------------------------------------------------------- splitting

  lemma FreshBucketOk(active: seq<B.KNode>, cached: seq<B.KNode>, root: Id, d: nat, k: nat)
    requires forall n :: n in active || n in cached ==> NodeOk(root, n) && n.depth == d
    ensures BucketOk(B.AddNodes(B.AddNodesActive(B.Bucket([], [], false), active, k), cached, k), root, d, k)
  {
    var b0 := B.Bucket([], [], false);
    B.AddNodesActiveMembers(b0, active, k);
    B.AddNodesMembers(B.AddNodesActive(b0, active, k), cached, k);
  }

  lemma SplitCounts(t: Table, p: B.Kind)
    ensures CountAll(Split(t), p) <= CountAll(t, p)
  {
    var k := t.config.k;
    var (active, cached, rest) := B.ExtractDepth(t.rootBucket, |t.buckets|, k);
    B.ExtractDepthCounts(t.rootBucket, |t.buckets|, k, p);
    var b0 := B.Bucket([], [], false);
    B.AddNodesActiveCounts(b0, active, k, p);
    B.AddNodesCounts(B.AddNodesActive(b0, active, k), cached, k, p);
    assert Split(t).buckets[..|t.buckets|] == t.buckets;
  }

  /** An overflowing root bucket has a shallowest depth whose removal leaves k nodes,
      so splitting keeps the shape and makes progress towards depth 256. */
  lemma SplitShape(t: Table)
    requires Shape(t) && B.StatusOf(t.rootBucket, t.config.k).Overflowing?
    ensures |t.buckets| < 256 && Shape(Split(t)) && |Split(t).rootBucket.Nodes()| >= t.config.k
  {
    var k, d := t.config.k, |t.buckets|;
    var s := t.rootBucket.Nodes();
    assert s[0] in s;
    B.ExtractDepthMembers(t.rootBucket, d, k);
    var (active, cached, rest) := B.ExtractDepth(t.rootBucket, d, k);
    FreshBucketOk(active, cached, t.root, d, k);
    SplitExtractsAll(t);
    var r := Split(t);
    assert RootOk(r.rootBucket, t.root, d + 1);
    forall id: Id ensures CountAll(r, B.HasTheId(id)) <= 1 { SplitCounts(t, B.HasTheId(id)); }
  }

  lemma SplitExtractsAll(t: Table)
    requires Shape(t) && B.StatusOf(t.rootBucket, t.config.k).Overflowing?
    ensures forall n :: n in Split(t).rootBucket.Nodes() ==> n.depth != |t.buckets|
  {
    var k, d := t.config.k, |t.buckets|;
    var s := t.rootBucket.Nodes();
    var (active, cached, rest) := B.ExtractDepth(t.rootBucket, d, k);
    B.ExtractDepthMembers(t.rootBucket, d, k);
    B.ExtractDepthCounts(t.rootBucket, d, k, B.AtDepth(d));
    B.ExtractDepthCounts(t.rootBucket, d, k, B.OffDepth(d));
    B.MinDepthIs(s);
    B.CountShallowest(s, d);
    B.CountOff(s, d);
    B.CountOff(rest.Nodes(), d);
    B.CountFinds(active, B.OffDepth(d));
    B.CountFinds(cached, B.OffDepth(d));
    NoneAtDepth(rest.Nodes(), d);
  }

  lemma NoneAtDepth(s: seq<B.KNode>, d: nat)
    ensures B.Count(s, B.AtDepth(d)) == 0 ==> forall n :: n in s ==> n.depth != d
  {
    B.CountFinds(s, B.AtDepth(d));
    forall n | n in s && n.depth == d ensures B.Count(s, B.AtDepth(d)) > 0 {
      assert B.AtDepth(d)(n.id, n.depth);
    }
  }

  /** Splitting ends stable or leaves the table untouched, and never leaves fewer than k
      nodes in the root bucket. */
  lemma {:induction false} RebalanceOverflowOk(t: Table)
    requires Shape(t)
    ensures var r := RebalanceOverflow(t);
      && Inv(r) && r.root == t.root && r.config == t.config
      && (B.StatusOf(t.rootBucket, t.config.k).Overflowing? ==>
            B.StatusOf(r.rootBucket, t.config.k).Stable? && |r.rootBucket.Nodes()| >= t.config.k)
    decreases 256 - |t.buckets|
  {
    if B.StatusOf(t.rootBucket, t.config.k).Overflowing? {
      SplitShape(t);
      RebalanceOverflowOk(Split(t));
    }
  }

  // ----------------------------------------------------------------- merging

  lemma MergeCounts(t: Table, p: B.Kind)
    requires t.buckets != [] && t.rootBucket.isRoot
    ensures CountAll(Merge(t), p) == CountAll(t, p)
  {
    var last, k := t.buckets[|t.buckets| - 1], t.config.k;
    B.AddNodesActiveMembers(t.rootBucket, last.active, k);
    B.AddNodesActiveCounts(t.rootBucket, last.active, k, p);
    B.AddNodesCounts(B.AddNodesActive(t.rootBucket, last.active, k), last.cache, k, p);
    B.CountNodes(last, p);
  }

  /** A wanting root bucket cannot overshoot: its own nodes are fewer than k, and
      whatever is merged in shares a single, shallower depth. */
  lemma MergeInv(t: Table)
    requires Inv(t) && t.buckets != [] && B.StatusOf(t.rootBucket, t.config.k).Wanting?
    ensures Inv(Merge(t))
  {
    var d, k := |t.buckets| - 1, t.config.k;
    var last := t.buckets[d];
    var r := Merge(t);
    B.AddNodesActiveMembers(t.rootBucket, last.active, k);
    B.AddNodesMembers(B.AddNodesActive(t.rootBucket, last.active, k), last.cache, k);
    assert forall n :: n in r.rootBucket.Nodes() ==> n in t.rootBucket.Nodes() || n in last.Nodes();
    forall id: Id ensures CountAll(r, B.HasTheId(id)) <= 1 { MergeCounts(t, B.HasTheId(id)); }
    MergeBalanced(t);
  }

  lemma MergeBalanced(t: Table)
    requires Inv(t) && t.buckets != [] && B.StatusOf(t.rootBucket, t.config.k).Wanting?
    ensures !B.Overflows(Merge(t).rootBucket.Nodes(), t.config.k)
  {
    var d, k := |t.buckets| - 1, t.config.k;
    var last, before, after := t.buckets[d].Nodes(), t.rootBucket.Nodes(), Merge(t).rootBucket.Nodes();
    forall p: B.Kind ensures B.Count(after, p) == B.Count(before, p) + B.Count(last, p) {
      MergeRootCounts(t, p);
    }
    B.MergedNeverOverflow(before, last, after, d, k);
  }

  lemma MergeRootCounts(t: Table, p: B.Kind)
    requires t.buckets != [] && t.rootBucket.isRoot
    ensures B.Count(Merge(t).rootBucket.Nodes(), p)
         == B.Count(t.rootBucket.Nodes(), p) + B.Count(t.buckets[|t.buckets| - 1].Nodes(), p)
  {
    MergeCounts(t, p);
  }

  /** Merging keeps every node, and ends with enough nodes or without buckets. */
  lemma {:induction false} RebalanceWantingOk(t: Table)
    requires Inv(t)
    ensures var r := RebalanceWanting(t);
      && Inv(r) && r.root == t.root && r.config == t.config
      && (B.StatusOf(r.rootBucket, t.config.k).Wanting? ==> r.buckets == [])
    decreases |t.buckets|
  {
    if B.StatusOf(t.rootBucket, t.config.k).Wanting? && t.buckets != [] {
      MergeInv(t);
      RebalanceWantingOk(Merge(t));
    }
  }

  lemma {:induction false} RebalanceWantingKeepsAll(t: Table, p: B.Kind)
    requires Inv(t)
    ensures CountAll(RebalanceWanting(t), p) == CountAll(t, p)
    decreases |t.buckets|
  {
    if B.StatusOf(t.rootBucket, t.config.k).Wanting? && t.buckets != [] {
      MergeCounts(t, p);
      MergeInv(t);
      RebalanceWantingKeepsAll(Merge(t), p);
    }
  }

  // --------------------------------------------- every operation keeps Inv

  lemma AddToRootShape(t: Table, id: Id)
    requires Inv(t) && id != t.root && !HasNode(t, id) && Depth(t.root, id) >= |t.buckets|
    ensures Shape(t.(rootBucket := B.AddNode(t.rootBucket, NewNode(t.root, id), t.config.k)))
  {
    var n := NewNode(t.root, id);
    var b := B.AddNode(t.rootBucket, n, t.config.k);
    assert b.Nodes() == t.rootBucket.Nodes() + [n];
    forall x: Id ensures CountAll(t.(rootBucket := b), B.HasTheId(x)) <= 1 {
      HasNodeCounts(t, id);
      B.CountPush(t.rootBucket.Nodes(), n, B.HasTheId(x));
      assert B.HasTheId(x)(n.id, n.depth) <==> id == x;
    }
  }

  lemma AddToBucketOk(b: B.Bucket, id: Id, root: Id, d: nat, k: nat)
    requires BucketOk(b, root, d, k) && id != root && Depth(root, id) == d
    ensures BucketOk(B.AddNode(b, NewNode(root, id), k), root, d, k)
  {
  }

  lemma AddToBucketCounts(b: B.Bucket, n: B.KNode, k: nat, p: B.Kind)
    ensures B.Count(B.AddNode(b, n, k).Nodes(), p)
         <= B.Count(b.Nodes(), p) + if p(n.id, n.depth) then 1 else 0
  {
    B.CountPush(b.Nodes(), n, p);
    assert b.active + (b.cache + [n]) == b.Nodes() + [n];
  }

  lemma AddToBucketInv(t: Table, id: Id)
    requires Inv(t) && id != t.root && !HasNode(t, id) && Depth(t.root, id) < |t.buckets|
    ensures Inv(AddNode(t, id))
  {
    var n := NewNode(t.root, id);
    var b := B.AddNode(t.buckets[n.depth], n, t.config.k);
    AddToBucketOk(t.buckets[n.depth], id, t.root, n.depth, t.config.k);
    HasNodeCounts(t, id);
    forall x: Id ensures CountAll(AddNode(t, id), B.HasTheId(x)) <= 1 {
      CountInUpdate(t.buckets, n.depth, b, B.HasTheId(x));
      AddToBucketCounts(t.buckets[n.depth], n, t.config.k, B.HasTheId(x));
      assert B.HasTheId(x)(n.id, n.depth) <==> id == x;
    }
  }

  lemma AddNodeInv(t: Table, id: Id)
    requires Inv(t)
    ensures var r := AddNode(t, id); Inv(r) && r.root == t.root && r.config == t.config
  {
    if id != t.root && !HasNode(t, id) {
      if Depth(t.root, id) < |t.buckets| {
        AddToBucketInv(t, id);
      } else {
        AddToRootShape(t, id);
        RebalanceOverflowOk(t.(rootBucket := B.AddNode(t.rootBucket, NewNode(t.root, id), t.config.k)));
      }
    }
  }

  lemma RemoveFromBucketInv(t: Table, id: Id)
    requires Inv(t) && Depth(t.root, id) < |t.buckets|
    ensures Inv(RemoveFromBucket(t, id))
  {
    var d := Depth(t.root, id);
    B.RemoveIdsMembers(t.buckets[d], [id]);
    forall x: Id ensures CountAll(RemoveFromBucket(t, id), B.HasTheId(x)) <= 1 {
      B.RemoveIdsCounts(t.buckets[d], [id], B.HasTheId(x));
      CountInUpdate(t.buckets, d, B.RemoveIds(t.buckets[d], [id]), B.HasTheId(x));
    }
  }

  lemma RemoveFromRootInv(t: Table, id: Id)
    requires Inv(t)
    ensures Inv(RemoveFromRoot(t, id))
  {
    var b := B.RemoveIds(t.rootBucket, [id]);
    B.RemoveIdsMembers(t.rootBucket, [id]);
    forall p: B.Kind ensures B.Count(b.Nodes(), p) <= B.Count(t.rootBucket.Nodes(), p) {
      B.RemoveIdsCounts(t.rootBucket, [id], p);
    }
    B.FewerNeverOverflow(b.Nodes(), t.rootBucket.Nodes(), t.config.k);
  }

  lemma RemoveNodeInv(t: Table, id: Id)
    requires Inv(t)
    ensures var r := RemoveNode(t, id); Inv(r) && r.root == t.root && r.config == t.config
  {
    if Depth(t.root, id) < |t.buckets| {
      RemoveFromBucketInv(t, id);
    } else {
      RemoveFromRootInv(t, id);
      RebalanceWantingOk(RemoveFromRoot(t, id));
    }
  }

  lemma NodeDisconnectedInv(t: Table, id: Id)
    requires Inv(t)
    ensures var r := NodeDisconnected(t, id); Inv(r) && r.root == t.root && r.config == t.config
    ensures Depth(t.root, id) >= |t.buckets| ==> NodeDisconnected(t, id) == t
  {
    if Depth(t.root, id) < |t.buckets| {
      RemoveFromBucketInv(t, id);
      RebalanceWantingOk(RemoveFromBucket(t, id));
    }
  }

  lemma NodeActiveBucketOk(b: B.Bucket, id: Id, root: Id, d: nat, k: nat)
    requires BucketOk(b, root, d, k)
    ensures BucketOk(B.NodeActive(b, id, k).0, root, d, k)
  {
    B.NodeActiveShape(b, id, k);
    forall x | x in B.NodeActive(b, id, k).0.Nodes() ensures NodeOk(root, x) && x.depth == d {
      var y := B.NodeActiveOrigin(b, id, k, x);
    }
  }

  lemma NodeActiveBucketInv(t: Table, id: Id)
    requires Inv(t) && Depth(t.root, id) < |t.buckets|
    ensures Inv(NodeActive(t, id).0)
  {
    var d, k := Depth(t.root, id), t.config.k;
    NodeActiveBucketOk(t.buckets[d], id, t.root, d, k);
    forall x: Id ensures CountAll(NodeActive(t, id).0, B.HasTheId(x)) <= 1 {
      B.NodeActiveCounts(t.buckets[d], id, k, B.HasTheId(x));
      CountInUpdate(t.buckets, d, B.NodeActive(t.buckets[d], id, k).0, B.HasTheId(x));
    }
  }

  lemma NodeActiveRootInv(t: Table, id: Id)
    requires Inv(t) && Depth(t.root, id) >= |t.buckets|
    ensures Inv(NodeActive(t, id).0)
  {
    var k := t.config.k;
    var b := B.NodeActive(t.rootBucket, id, k).0;
    B.NodeActiveShape(t.rootBucket, id, k);
    forall x | x in b.Nodes() ensures NodeOk(t.root, x) && x.depth >= |t.buckets| {
      var y := B.NodeActiveOrigin(t.rootBucket, id, k, x);
    }
    forall p: B.Kind ensures B.Count(b.Nodes(), p) == B.Count(t.rootBucket.Nodes(), p) {
      B.NodeActiveCounts(t.rootBucket, id, k, p);
    }
    B.FewerNeverOverflow(b.Nodes(), t.rootBucket.Nodes(), k);
  }

  lemma NodeActiveInv(t: Table, id: Id)
    requires Inv(t)
    ensures var r := NodeActive(t, id).0; Inv(r) && r.root == t.root && r.config == t.config
  {
    if Depth(t.root, id) < |t.buckets| {
      NodeActiveBucketInv(t, id);
    } else {
      NodeActiveRootInv(t, id);
    }
  }

  lemma {:induction false} TickBucketsCounts(bs: seq<B.Bucket>, c: B.Config, p: B.Kind)
    requires c.Ok() && forall i :: 0 <= i < |bs| ==> |bs[i].active| <= c.k
    ensures CountIn(TickBuckets(bs, c), p) <= CountIn(bs, p)
  {
    if bs != [] {
      assert TickBuckets(bs, c)[..|bs| - 1] == TickBuckets(bs[..|bs| - 1], c);
      TickBucketsCounts(bs[..|bs| - 1], c, p);
      B.TickCounts(bs[|bs| - 1], c, p);
    }
  }

  lemma TickBucketOk(b: B.Bucket, root: Id, i: nat, c: B.Config)
    requires c.Ok() && BucketOk(b, root, i, c.k)
    ensures BucketOk(B.Tick(b, c), root, i, c.k)
  {
    B.TickMembers(b, c);
    forall n | n in B.Tick(b, c).Nodes() ensures NodeOk(root, n) && n.depth == i {
      var o := B.TickOrigin(b, c, n);
    }
  }

  lemma TickRootOk(b: B.Bucket, root: Id, m: nat, c: B.Config)
    requires c.Ok() && RootOk(b, root, m)
    ensures RootOk(B.Tick(b, c), root, m)
  {
    B.TickMembers(b, c);
    forall n | n in B.Tick(b, c).Nodes() ensures NodeOk(root, n) && n.depth >= m {
      var o := B.TickOrigin(b, c, n);
    }
  }

  lemma TickInv(t: Table)
    requires Inv(t)
    ensures var r := Tick(t); Inv(r) && r.root == t.root && r.config == t.config
  {
    var r := Tick(t);
    forall i | 0 <= i < |t.buckets| ensures BucketOk(r.buckets[i], t.root, i, t.config.k) {
      TickBucketOk(t.buckets[i], t.root, i, t.config);
    }
    TickRootOk(t.rootBucket, t.root, |t.buckets|, t.config);
    forall p: B.Kind
      ensures CountAll(r, p) <= CountAll(t, p)
      ensures B.Count(r.rootBucket.Nodes(), p) <= B.Count(t.rootBucket.Nodes(), p)
    {
      TickBucketsCounts(t.buckets, t.config, p);
      B.TickCounts(t.rootBucket, t.config, p);
    }
    forall id: Id ensures CountAll(r, B.HasTheId(id)) <= 1 {
      assert CountAll(t, B.HasTheId(id)) <= 1;
    }
    B.FewerNeverOverflow(r.rootBucket.Nodes(), t.rootBucket.Nodes(), t.config.k);
  }

  // -------------------------------------------------------------------- runs

  datatype Op = Add(id: Id) | Remove(id: Id) | Disconnected(id: Id) | Active(id: Id) | Second

  function Step(t: Table, op: Op): (r: Table)
    requires Inv(t)
    ensures Inv(r) && r.root == t.root && r.config == t.config
  {
    match op
    case Add(id) => AddNodeInv(t, id); AddNode(t, id)
    case Remove(id) => RemoveNodeInv(t, id); RemoveNode(t, id)
    case Disconnected(id) => NodeDisconnectedInv(t, id); NodeDisconnected(t, id)
    case Active(id) => NodeActiveInv(t, id); NodeActive(t, id).0
    case Second => TickInv(t); Tick(t)
  }

  /** The empty table is fine, and every run of operations keeps it so. */
  function Run(root: Id, config: B.Config, ops: seq<Op>): (r: Table)
    requires config.Ok()
    ensures Inv(r) && r.root == root && r.config == config
  {
    if ops == [] then NewTable(root, config)
    else Step(Run(root, config, ops[..|ops| - 1]), ops[|ops| - 1])
  }
}
