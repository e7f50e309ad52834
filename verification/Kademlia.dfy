/** The Kademlia table as the source runs it: buckets updated in place, with the
    splitting, merging and ageing loops (dht_router/kademlia.rs). Every method is
    tied to the value-level operation of the same name. */
module Kademlia {
  import opened Prelude
  import opened NodeIds
  import B = Buckets
  import T = Table
  import R = Routes

  // ------------------------------------------------------ lemmas about loops

  lemma {:induction false} ExtractFirst(s: seq<B.KNode>, d: nat, n: nat, pos: nat)
    requires pos < |s| && s[pos].depth == d && n > 0
    requires forall j :: 0 <= j < pos ==> s[j].depth != d
    ensures var rest := s[..pos] + s[pos + 1..];
      && B.Extract(s, d, n).0 == [s[pos]] + B.Extract(rest, d, n - 1).0
      && B.Extract(s, d, n).1 == B.Extract(rest, d, n - 1).1
  {
    if pos == 0 {
      assert s[..0] + s[1..] == s[1..];
    } else {
      ExtractFirst(s[1..], d, n, pos - 1);
      var rest := s[..pos] + s[pos + 1..];
      assert rest[1..] == s[1..][..pos - 1] + s[1..][pos..];
    }
  }

  lemma {:induction false} ExtractNone(s: seq<B.KNode>, d: nat, n: nat)
    requires n == 0 || forall j :: 0 <= j < |s| ==> s[j].depth != d
    ensures B.Extract(s, d, n).0 == [] && B.Extract(s, d, n).1 == s
  {
    if s != [] {
      assert forall j :: 0 <= j < |s| - 1 ==> s[1..][j] == s[j + 1];
      ExtractNone(s[1..], d, n);
      assert s == [s[0]] + s[1..];
    }
  }

  lemma {:induction false} WithoutOneMore(s: seq<B.KNode>, ids: seq<Id>, id: Id)
    ensures B.Without(B.Without(s, ids), [id]) == B.Without(s, ids + [id])
  {
    if s != [] {
      var front, last := s[..|s| - 1], s[|s| - 1];
      WithoutOneMore(front, ids, id);
      if last.id in ids {
        assert B.Without(s, ids) == B.Without(front, ids);
      } else {
        assert B.Without(s, ids)[..|B.Without(front, ids)|] == B.Without(front, ids);
      }
    }
  }

  lemma {:induction false} WithoutNothing(s: seq<B.KNode>)
    ensures B.Without(s, []) == s
  {
    if s != [] { WithoutNothing(s[..|s| - 1]); }
  }

  class KBucket {
    var active: seq<B.KNode>
    var cache: seq<B.KNode>
    const config: B.Config
    const isRoot: bool

    constructor (config: B.Config, isRoot: bool)
      ensures this.config == config && Value() == B.Bucket([], [], isRoot)
    {
      this.config, this.isRoot := config, isRoot;
      active, cache := [], [];
    }

    function Value(): B.Bucket
      reads this
    {
      B.Bucket(active, cache, isRoot)
    }

    method AddNode(node: B.KNode)
      modifies this
      ensures Value() == B.AddNode(old(Value()), node, config.k)
    {
      if isRoot || |cache| < 2 * config.k {
        cache := cache + [node];
      }
    }

    method AddNodes(nodes: seq<B.KNode>)
      modifies this
      ensures Value() == B.AddNodes(old(Value()), nodes, config.k)
    {
      for i := 0 to |nodes|
        invariant Value() == B.AddNodes(old(Value()), nodes[..i], config.k)
      {
        assert nodes[..i + 1][..i] == nodes[..i];
        AddNode(nodes[i]);
      }
      assert nodes[..|nodes|] == nodes;
    }

    method AddNodeActive(node: B.KNode)
      modifies this
      ensures Value() == B.AddNodeActive(old(Value()), node, config.k)
    {
      if isRoot || |active| < config.k {
        active := active + [node];
        active := B.SortByDepth(active);
      } else if |cache| < config.k {
        cache := cache + [node];
      }
    }

    method AddNodesActive(nodes: seq<B.KNode>)
      modifies this
      ensures Value() == B.AddNodesActive(old(Value()), nodes, config.k)
    {
      for i := 0 to |nodes|
        invariant Value() == B.AddNodesActive(old(Value()), nodes[..i], config.k)
      {
        assert nodes[..i + 1][..i] == nodes[..i];
        AddNodeActive(nodes[i]);
      }
      assert nodes[..|nodes|] == nodes;
    }

    method RemoveNode(id: Id)
      modifies this
      ensures Value() == B.RemoveIds(old(Value()), [id])
    {
      active := B.Without(active, [id]);
      cache := B.Without(cache, [id]);
    }

    /** Repeatedly takes out the first node at the given depth. */
    static method Drain(s: seq<B.KNode>, depth: nat, most: nat) returns (taken: seq<B.KNode>, rest: seq<B.KNode>)
      ensures taken == B.Extract(s, depth, most).0 && rest == B.Extract(s, depth, most).1
    {
      taken, rest := [], s;
      for i := 0 to most
        invariant B.Extract(s, depth, most).0 == taken + B.Extract(rest, depth, most - i).0
        invariant B.Extract(s, depth, most).1 == B.Extract(rest, depth, most - i).1
      {
        var pos := 0;
        while pos < |rest| && rest[pos].depth != depth
          invariant 0 <= pos <= |rest|
          invariant forall j :: 0 <= j < pos ==> rest[j].depth != depth
        {
          pos := pos + 1;
        }
        if pos < |rest| {
          ExtractFirst(rest, depth, most - i, pos);
          taken, rest := taken + [rest[pos]], rest[..pos] + rest[pos + 1..];
        } else {
          ExtractNone(rest, depth, most - i);
          ExtractNone(rest, depth, most - i - 1);
        }
      }
      ExtractNone(rest, depth, 0);
    }

    /** Takes out the nodes at a depth, but leaves at least k nodes behind. */
    method RemoveAllNodesAtDepth(depth: nat) returns (activeOut: seq<B.KNode>, cacheOut: seq<B.KNode>)
      modifies this
      ensures var (a, c, rest) := B.ExtractDepth(old(Value()), depth, config.k);
        activeOut == a && cacheOut == c && Value() == rest
    {
      var most := if |cache| + |active| >= config.k then |cache| + |active| - config.k else 0;
      B.ExtractMembers(cache, depth, most);
      cacheOut, cache := Drain(cache, depth, most);
      activeOut, active := Drain(active, depth, most - |cacheOut|);
    }

    function GetActiveIds(depth: nat): seq<Id>
      reads this
    {
      R.IdsAt(active, depth)
    }

    function LastDepth(): Option<nat>
      reads this
    {
      if active == [] then None else Some(active[|active| - 1].depth)
    }

    function Status(): B.Status
      reads this
    {
      B.StatusOf(Value(), config.k)
    }

    method TickActive() returns (deleted: seq<Id>, ping: seq<Id>)
      requires config.Ok()
      modifies this`active
      ensures active == B.TickFirst(old(active), |old(active)|)
      ensures deleted == B.Expired(old(active), config) && ping == B.PingActive(old(active), config)
    {
      deleted, ping := [], [];
      ghost var before := active;
      for i := 0 to |active|
        invariant active == B.TickFirst(before, i)
        invariant deleted == B.Expired(before[..i], config) && ping == B.PingActive(before[..i], config)
      {
        assert before[..i + 1][..i] == before[..i];
        active := active[i := B.TickNode(active[i])];
        if active[i].ticksLast % config.pingInterval == 0 {
          ping := ping + [active[i].id];
        }
        if active[i].ticksLast >= config.pingTimeout {
          deleted := deleted + [active[i].id];
        }
      }
      assert before[..|before|] == before;
    }

    method TickCache() returns (deleted: seq<Id>, ping: seq<Id>)
      requires config.Ok() && (isRoot || |active| <= config.k)
      modifies this`cache
      ensures cache == B.TickFirst(old(cache), B.FillUp(old(Value()), config.k))
      ensures deleted == B.Expired(B.Pinged(old(Value()), config.k), config)
      ensures ping == B.PingCached(B.Pinged(old(Value()), config.k), config)
    {
      deleted, ping := [], [];
      ghost var before := cache;
      var fillUp := if isRoot then |cache| else 2 * (config.k - |active|);
      for i := 0 to Min(fillUp, |cache|)
        invariant cache == B.TickFirst(before, i)
        invariant deleted == B.Expired(before[..i], config) && ping == B.PingCached(before[..i], config)
      {
        assert before[..i + 1][..i] == before[..i];
        if cache[i].ticksLast % config.pingInterval == 0 {
          ping := ping + [cache[i].id];
        }
        cache := cache[i := B.TickNode(cache[i])];
        if cache[i].ticksLast >= config.pingTimeout {
          deleted := deleted + [cache[i].id];
        }
      }
      assert before[..|before|] == before;
    }

    method RemoveAll(ids: seq<Id>)
      modifies this
      ensures Value() == B.RemoveIds(old(Value()), ids)
    {
      WithoutNothing(active);
      WithoutNothing(cache);
      for i := 0 to |ids|
        invariant Value() == B.RemoveIds(old(Value()), ids[..i])
      {
        WithoutOneMore(old(active), ids[..i], ids[i]);
        WithoutOneMore(old(cache), ids[..i], ids[i]);
        assert ids[..i + 1] == ids[..i] + [ids[i]];
        RemoveNode(ids[i]);
      }
      assert ids[..|ids|] == ids;
    }

    method Tick() returns (ids: B.TickIds)
      requires config.Ok() && (isRoot || |active| <= config.k)
      modifies this
      ensures Value() == B.Tick(old(Value()), config) && ids == B.TickReport(old(Value()), config)
    {
      var deletedActive, pingActive := TickActive();
      var deletedCache, pingCache := TickCache();
      ids := B.TickIds(deletedActive + deletedCache, pingActive + pingCache);
      RemoveAll(ids.deleted);
    }

    method NodeActive(id: Id) returns (moved: bool)
      modifies this
      ensures Value() == B.NodeActive(old(Value()), id, config.k).0
      ensures moved == B.NodeActive(old(Value()), id, config.k).1
    {
      var i := B.FirstWith(active, id);
      var j := B.FirstWith(cache, id);
      if i < |active| {
        active := active[i := active[i].(ticksLast := 0)];
      } else if j < |cache| {
        var node := cache[j].(ticksLast := 0);
        cache := cache[..j] + cache[j + 1..];
        if isRoot || |active| < config.k {
          active := active + [node];
          active := B.SortByDepth(active);
          return true;
        } else {
          cache := cache + [node];
        }
      }
      return false;
    }
  }

  ghost function Values(bs: seq<KBucket>): (r: seq<B.Bucket>)
    reads bs
    ensures |r| == |bs|
    ensures forall i :: 0 <= i < |bs| ==> r[i] == bs[i].Value()
  {
    seq(|bs|, i requires 0 <= i < |bs| reads bs => bs[i].Value())
  }

  lemma ValuesPush(bs: seq<KBucket>, b: KBucket)
    ensures Values(bs + [b]) == Values(bs) + [b.Value()]
  {
  }

  class Kademlia {
    var buckets: seq<KBucket>
    var rootBucket: KBucket
    const root: Id
    const config: B.Config
    ghost var Repr: set<KBucket>

    constructor (root: Id, config: B.Config)
      requires config.Ok()
      ensures Valid() && Model() == T.NewTable(root, config)
      ensures fresh(Repr)
    {
      this.root, this.config := root, config;
      buckets := [];
      var bucket := new KBucket(config, true);
      rootBucket, Repr := bucket, {bucket};
    }

    /** Every bucket is an object of its own, with the table's configuration. */
    ghost predicate Owned()
      reads this
    {
      && rootBucket in Repr && (forall i :: 0 <= i < |buckets| ==> buckets[i] in Repr)
      && rootBucket !in buckets && rootBucket.config == config
      && (forall i :: 0 <= i < |buckets| ==> buckets[i].config == config)
      && forall i, j :: 0 <= i < j < |buckets| ==> buckets[i] != buckets[j]
    }

    ghost function Model(): T.Table
      reads this, buckets, rootBucket
    {
      T.Table(root, config, Values(buckets), rootBucket.Value())
    }

    ghost predicate Valid()
      reads this, buckets, rootBucket
    {
      Owned() && T.Inv(Model())
    }

    function HasNodeId(id: Id): (r: bool)
      requires Valid()
      reads this, buckets, rootBucket
      ensures r == T.HasNode(Model(), id)
    {
      (exists i :: 0 <= i < |buckets| && B.HasId(buckets[i].Value().Nodes(), id))
      || B.HasId(rootBucket.Value().Nodes(), id)
    }

    method AddNode(id: Id)
      requires Valid()
      modifies this, Repr
      ensures Valid() && Model() == T.AddNode(old(Model()), id)
      ensures fresh(Repr - old(Repr))
    {
      ghost var before := Model();
      T.AddNodeInv(before, id);
      if id == root || HasNodeId(id) {
        return;
      }
      var depth := GetDepth(root, id);
      var node := B.KNode(id, depth, 0, 0);
      if depth < |buckets| {
        buckets[depth].AddNode(node);
        assert Model().buckets == before.buckets[depth := B.AddNode(before.buckets[depth], node, config.k)];
      } else {
        T.AddToRootShape(before, id);
        rootBucket.AddNode(node);
        assert Model() == before.(rootBucket := B.AddNode(before.rootBucket, node, config.k));
        if rootBucket.Status().Overflowing? {
          RebalanceOverflow();
        }
      }
    }

    function GetNodesDepth(depth: nat): (r: seq<Id>)
      requires Owned()
      reads this, buckets, rootBucket
      ensures r == R.GetNodesDepth(Model(), depth)
    {
      if depth < |buckets| then buckets[depth].GetActiveIds(depth) else rootBucket.GetActiveIds(depth)
    }

    /** The next hops towards dst: the nodes on its branch, or else, for a message
        which came from another node, the nearest deeper branch with any node. */
    method RouteClosest(dst: Id, last: Option<Id>) returns (hops: seq<Id>)
      requires Owned()
      ensures hops == R.RouteClosest(Model(), dst, last)
    {
      var depth := GetDepth(root, dst);
      hops := GetNodesDepth(depth);
      if last.None? || hops != [] {
        return;
      }
      var depthOfLast := GetDepth(root, last.value);
      var depthLast := Max(depth, depthOfLast);
      var depthRootLast := match rootBucket.LastDepth() case Some(d) => d case None => depthLast;
      hops := FirstNodes(depthLast + 1, depthRootLast);
    }

    method FirstNodes(from: nat, to: nat) returns (hops: seq<Id>)
      requires Owned()
      ensures hops == R.FirstNodes(Model(), from, to)
    {
      ghost var t := Model();
      var d := from;
      while d < to
        invariant from <= d
        invariant R.FirstNodes(t, d, to) == R.FirstNodes(t, from, to)
      {
        hops := GetNodesDepth(d);
        if hops != [] {
          return;
        }
        d := d + 1;
      }
      return [];
    }

    method AddNodes(ids: seq<Id>)
      requires Valid()
      modifies this, Repr
      ensures Valid() && Model() == AddAll(old(Model()), ids)
      ensures fresh(Repr - old(Repr))
    {
      for i := 0 to |ids|
        invariant Valid() && Model() == AddAll(old(Model()), ids[..i])
        invariant fresh(Repr - old(Repr))
      {
        assert ids[..i + 1][..i] == ids[..i];
        AddNode(ids[i]);
      }
      assert ids[..|ids|] == ids;
    }

    method RebalanceOverflow()
      requires Owned() && T.Shape(Model())
      modifies this, rootBucket
      ensures Owned() && Model() == T.RebalanceOverflow(old(Model()))
      ensures fresh(Repr - old(Repr)) && rootBucket == old(rootBucket)
    {
      while rootBucket.Status().Overflowing?
        invariant Owned() && T.Shape(Model())
        invariant T.RebalanceOverflow(Model()) == T.RebalanceOverflow(old(Model()))
        invariant fresh(Repr - old(Repr)) && rootBucket == old(rootBucket)
        decreases 256 - |buckets|
      {
        SplitOnce();
      }
    }

    /** The body of the splitting loop. */
    method SplitOnce()
      requires Owned() && T.Shape(Model()) && rootBucket.Status().Overflowing?
      modifies this, rootBucket
      ensures Owned() && T.Shape(Model())
      ensures T.RebalanceOverflow(Model()) == T.RebalanceOverflow(old(Model()))
      ensures |old(buckets)| < 256 && |buckets| == |old(buckets)| + 1
      ensures fresh(Repr - old(Repr)) && rootBucket == old(rootBucket)
    {
      ghost var before := Model();
      MoveShallowest();
      T.SplitShape(before);
    }

    method MoveShallowest()
      requires Owned()
      modifies this, rootBucket
      ensures Owned() && Model() == T.Split(old(Model()))
      ensures |buckets| == |old(buckets)| + 1
      ensures fresh(Repr - old(Repr)) && rootBucket == old(rootBucket)
    {
      var bucket := new KBucket(config, false);
      FillShallowest(bucket);
      ValuesPush(buckets, bucket);
      buckets, Repr := buckets + [bucket], Repr + {bucket};
    }

    method FillShallowest(bucket: KBucket)
      requires Owned() && bucket != rootBucket && bucket.config == config
      requires bucket.Value() == B.Bucket([], [], false)
      modifies bucket, rootBucket
      ensures var (active, cached, rest) := B.ExtractDepth(old(rootBucket.Value()), |buckets|, config.k);
        && rootBucket.Value() == rest
        && bucket.Value()
             == B.AddNodes(B.AddNodesActive(B.Bucket([], [], false), active, config.k), cached, config.k)
    {
      var active, cache := rootBucket.RemoveAllNodesAtDepth(|buckets|);
      bucket.AddNodesActive(active);
      bucket.AddNodes(cache);
    }

    method RemoveNode(id: Id)
      requires Valid()
      modifies this, Repr
      ensures Valid() && Model() == T.RemoveNode(old(Model()), id)
      ensures Repr == old(Repr)
    {
      ghost var before := Model();
      T.RemoveNodeInv(before, id);
      var depth := GetDepth(root, id);
      if depth < |buckets| {
        buckets[depth].RemoveNode(id);
        assert Model().buckets == T.RemoveFromBucket(before, id).buckets;
      } else {
        T.RemoveFromRootInv(before, id);
        rootBucket.RemoveNode(id);
        assert Model() == T.RemoveFromRoot(before, id);
        if rootBucket.Status().Wanting? {
          RebalanceWanting();
        }
      }
    }

    method NodeDisconnected(id: Id)
      requires Valid()
      modifies this, Repr
      ensures Valid() && Model() == T.NodeDisconnected(old(Model()), id)
      ensures Repr == old(Repr)
    {
      ghost var before := Model();
      T.NodeDisconnectedInv(before, id);
      var depth := GetDepth(root, id);
      if depth < |buckets| {
        T.RemoveFromBucketInv(before, id);
        buckets[depth].RemoveNode(id);
        assert Model().buckets == T.RemoveFromBucket(before, id).buckets;
        if rootBucket.Status().Wanting? {
          RebalanceWanting();
        }
      }
    }

    method RebalanceWanting()
      requires Valid()
      modifies this, rootBucket
      ensures Valid() && Model() == T.RebalanceWanting(old(Model()))
      ensures Repr == old(Repr)
    {
      while rootBucket.Status().Wanting?
        invariant Valid()
        invariant T.RebalanceWanting(Model()) == T.RebalanceWanting(old(Model()))
        invariant Repr == old(Repr) && rootBucket == old(rootBucket)
        decreases |buckets|
      {
        if buckets == [] {
          return;
        }
        ghost var before := Model();
        T.MergeInv(before);
        var bucket := buckets[|buckets| - 1];
        buckets := buckets[..|buckets| - 1];
        rootBucket.AddNodesActive(bucket.active);
        rootBucket.AddNodes(bucket.cache);
        assert Model().buckets == before.buckets[..|buckets|];
        assert Model() == T.Merge(before);
      }
    }

    method NodeActive(id: Id) returns (moved: bool)
      requires Valid()
      modifies buckets, rootBucket
      ensures Valid() && Model() == T.NodeActive(old(Model()), id).0 && moved == T.NodeActive(old(Model()), id).1
    {
      ghost var before := Model();
      var depth := GetDepth(root, id);
      if depth < |buckets| {
        moved := buckets[depth].NodeActive(id);
        assert Model().buckets == before.buckets[depth := B.NodeActive(before.buckets[depth], id, config.k).0];
      } else {
        moved := rootBucket.NodeActive(id);
        assert Model().buckets == before.buckets;
      }
      assert Model() == T.NodeActive(before, id).0;
      T.NodeActiveInv(before, id);
    }

    method TickBuckets() returns (ids: B.TickIds)
      requires Owned() && config.Ok()
      requires forall i :: 0 <= i < |buckets| ==> |buckets[i].active| <= config.k
      modifies buckets
      ensures Values(buckets) == T.TickBuckets(old(Values(buckets)), config)
      ensures ids == T.ReportOf(old(Values(buckets)), config)
    {
      ghost var before := Values(buckets);
      ghost var after := T.TickBuckets(before, config);
      ids := B.TickIds([], []);
      for i := 0 to |buckets|
        invariant forall j :: 0 <= j < i ==> buckets[j].Value() == after[j]
        invariant forall j :: i <= j < |buckets| ==> buckets[j].Value() == before[j]
        invariant ids == T.ReportOf(before[..i], config)
      {
        assert before[..i + 1][..i] == before[..i];
        var one := buckets[i].Tick();
        ids := B.TickIds(ids.deleted + one.deleted, ids.ping + one.ping);
      }
      assert before[..|buckets|] == before;
    }

    method TickAll() returns (ids: B.TickIds)
      requires Owned() && config.Ok() && rootBucket.isRoot
      requires forall i :: 0 <= i < |buckets| ==> |buckets[i].active| <= config.k
      modifies buckets, rootBucket
      ensures Values(buckets) == T.TickBuckets(old(Values(buckets)), config)
      ensures rootBucket.Value() == B.Tick(old(rootBucket.Value()), config)
      ensures
        var front, last := T.ReportOf(old(Values(buckets)), config), B.TickReport(old(rootBucket.Value()), config);
        ids == B.TickIds(front.deleted + last.deleted, front.ping + last.ping)
    {
      ids := TickBuckets();
      var last := rootBucket.Tick();
      ids := B.TickIds(ids.deleted + last.deleted, ids.ping + last.ping);
    }

    /** One second passes for every bucket. */
    method Tick() returns (ids: B.TickIds)
      requires Valid()
      modifies buckets, rootBucket
      ensures Valid() && Model() == T.Tick(old(Model())) && ids == T.TickReport(old(Model()))
    {
      ghost var before := Model();
      T.TickInv(before);
      ids := TickAll();
      assert Model() == T.Tick(before);
    }
  }

  function AddAll(t: T.Table, ids: seq<Id>): (r: T.Table)
    requires T.Inv(t)
    ensures T.Inv(r)
  {
    if ids == [] then t
    else
      var before := AddAll(t, ids[..|ids| - 1]);
      T.AddNodeInv(before, ids[|ids| - 1]);
      T.AddNode(before, ids[|ids| - 1])
  }
}
