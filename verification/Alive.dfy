/** Which active nodes stay active, through ticks, splits and merges (dht_router/kademlia.rs). */
module Alive {
  import opened Prelude
  import opened NodeIds
  import opened Table
  import opened Ageing
  import B = Buckets
  import E = Effects
  import C = Contents

  ghost predicate HasActive(t: Table, id: Id) { exists n :: InActive(t, n) && n.id == id }

  lemma {:induction false} ActiveOfIff(bs: seq<B.Bucket>, i: nat, n: B.KNode)
    requires i < |bs| && n in bs[i].active
    ensures n.id in ActiveOf(bs)
  {
    var last := |bs| - 1;
    if i < last {
      ActiveOfIff(bs[..last], i, n);
    } else {
      var j :| 0 <= j < |bs[last].active| && bs[last].active[j] == n;
      assert IdsOf(bs[last].active)[j] == n.id;
    }
  }

  /** The reported ids are those of the nodes in the active lists. */
  lemma ActiveIdsIff(t: Table, id: Id)
    ensures id in ActiveIds(t) <==> HasActive(t, id)
  {
    if id in ActiveIds(t) { var n := ActiveIdNode(t, id); }
    if n :| InActive(t, n) && n.id == id {
      if n in t.rootBucket.active {
        var j :| 0 <= j < |t.rootBucket.active| && t.rootBucket.active[j] == n;
        assert IdsOf(t.rootBucket.active)[j] == n.id;
      } else {
        var i :| 0 <= i < |t.buckets| && n in t.buckets[i].active;
        ActiveOfIff(t.buckets, i, n);
      }
    }
  }

  // ------------------------------------------------------------------ a tick

  /** The bucket in charge of an id. */
  ghost function Home(t: Table, id: Id): B.Bucket {
    var d := Depth(t.root, id);
    if d < |t.buckets| then t.buckets[d] else t.rootBucket
  }

  lemma HomeIs(t: Table, b: B.Bucket, n: B.KNode)
    requires Inv(t) && E.PartOf(t, b) && n in b.Nodes()
    ensures b == Home(t, n.id)
  {
    OnlyThere(t, n.id, n);
  }

  lemma ActiveAtHome(t: Table, n: B.KNode)
    requires Inv(t)
    ensures InActive(t, n) <==> n in Home(t, n.id).active
  {
    if InActive(t, n) {
      var b :| E.PartOf(t, b) && n in b.active;
      HomeIs(t, b, n);
    }
  }

  /** At home an active id is found once, and not among the cached. */
  lemma OnceAtHome(t: Table, n: B.KNode)
    requires Inv(t) && n in Home(t, n.id).active
    ensures forall m :: m in Home(t, n.id).active && m.id == n.id ==> m == n
    ensures forall m :: m in Home(t, n.id).cache ==> m.id != n.id
  {
    var b := Home(t, n.id);
    E.TableNoTwins(t);
    var i :| 0 <= i < |b.active| && b.active[i] == n;
    assert b.Nodes()[i] == n;
    E.OnlyHere(b, i, n.id);
  }

  lemma ReportOfHome(t: Table, id: Id)
    requires Inv(t)
    ensures id in TickReport(t).deleted <==> E.DeletedByTick(Home(t, id), t.config, id)
    ensures id in TickReport(t).ping <==> E.PingedByTick(Home(t, id), t.config, id)
  {
    var c := t.config;
    E.TableReportIs(t, id);
    forall b | E.PartOf(t, b) && (E.DeletedByTick(b, c, id) || E.PingedByTick(b, c, id)) ensures b == Home(t, id) {
      ReportedFrom(t, b, id);
    }
    assert E.PartOf(t, Home(t, id));
  }

  lemma ReportOfOne(b: B.Bucket, c: B.Config, n: B.KNode)
    requires c.Ok() && n in b.active && forall m :: m in b.active && m.id == n.id ==> m == n
    requires forall m :: m in b.cache ==> m.id != n.id
    ensures E.DeletedByTick(b, c, n.id) <==> n.ticksLast + 1 >= c.pingTimeout
    ensures E.PingedByTick(b, c, n.id) <==> (n.ticksLast + 1) % c.pingInterval == 0
  {
    forall i | 0 <= i < |b.cache| ensures b.cache[i].id != n.id { assert b.cache[i] in b.cache; }
  }

  lemma ReportedFrom(t: Table, b: B.Bucket, id: Id)
    requires Inv(t) && E.PartOf(t, b) && (E.DeletedByTick(b, t.config, id) || E.PingedByTick(b, t.config, id))
    ensures b == Home(t, id)
  {
    var m :| m in b.Nodes() && m.id == id;
    HomeIs(t, b, m);
  }

  /** Of an active node its own age alone decides what a tick reports. */
  lemma ReportOfActive(t: Table, n: B.KNode)
    requires Inv(t) && InActive(t, n)
    ensures n.id in TickReport(t).deleted <==> n.ticksLast + 1 >= t.config.pingTimeout
    ensures n.id in TickReport(t).ping <==> (n.ticksLast + 1) % t.config.pingInterval == 0
  {
    ActiveAtHome(t, n);
    OnceAtHome(t, n);
    ReportOfHome(t, n.id);
    ReportOfOne(Home(t, n.id), t.config, n);
  }

  lemma ActiveHere(t: Table, id: Id, n: B.KNode)
    requires n in Home(t, id).active
    ensures InActive(t, n)
  {
  }

  lemma HomeAfterTick(t: Table, id: Id)
    requires Inv(t)
    ensures Home(Tick(t), id) == B.Tick(Home(t, id), t.config)
  {
  }

  lemma TickKeepsActive(t: Table, n: B.KNode)
    requires Inv(t) && InActive(t, n) && n.ticksLast + 1 < t.config.pingTimeout
    ensures InActive(Tick(t), E.Older(n))
  {
    ActiveAtHome(t, n);
    E.TableNoTwins(t);
    E.TickActiveIs(Home(t, n.id), t.config, E.Older(n));
    HomeAfterTick(t, n.id);
    ActiveHere(Tick(t), n.id, E.Older(n));
  }

  lemma TickEndsActive(t: Table, n: B.KNode, m: B.KNode)
    requires Inv(t) && InActive(t, n) && InActive(Tick(t), m) && m.id == n.id
    ensures n.ticksLast + 1 < t.config.pingTimeout
  {
    var o := TickOrigin(t, m);
    ActiveAtHome(t, n);
    ActiveAtHome(t, o);
    OnceAtHome(t, n);
  }

  lemma TickActiveIff(t: Table, n: B.KNode)
    requires Inv(t) && InActive(t, n)
    ensures n.id in ActiveIds(Tick(t)) <==> n.ticksLast + 1 < t.config.pingTimeout
  {
    ActiveIdsIff(Tick(t), n.id);
    if n.ticksLast + 1 < t.config.pingTimeout {
      TickKeepsActive(t, n);
      assert E.Older(n).id == n.id;
    }
    if m :| InActive(Tick(t), m) && m.id == n.id { TickEndsActive(t, n, m); }
  }

  /** What a tick does to an active id that was seen some ticks ago: it is deleted at the
      timeout, else it stays active, and it is pinged at every multiple of the interval. */
  ghost predicate DecidedBy(t: Table, id: Id, seen: nat)
    requires Inv(t)
  {
    && (id in TickReport(t).deleted <==> seen + 1 >= t.config.pingTimeout)
    && (id in ActiveIds(Tick(t)) <==> seen + 1 < t.config.pingTimeout)
    && (id in TickReport(t).ping <==> (seen + 1) % t.config.pingInterval == 0)
  }

  lemma AgeDecides(t: Table, n: B.KNode)
    requires Inv(t) && InActive(t, n)
    ensures DecidedBy(t, n.id, n.ticksLast)
  {
    ReportOfActive(t, n);
    TickActiveIff(t, n);
  }

  /** Over every run the ticks since an active id was seen last decide what the next tick does. */
  lemma TickDecides(root: Id, config: B.Config, ops: seq<Op>, id: Id)
    requires config.Ok() && id in ActiveIds(Run(root, config, ops))
    ensures SinceSeen(ops, id).Some? && DecidedBy(Run(root, config, ops), id, SinceSeen(ops, id).value)
  {
    RunRecent(root, config, ops);
    var n := ActiveIdNode(Run(root, config, ops), id);
    assert Recent(ops, n, config.pingTimeout);
    AgeDecides(Run(root, config, ops), n);
  }

  // ------------------------------------------------------------------- merges

  lemma {:induction false} PushedActive(b: B.Bucket, s: seq<B.KNode>, k: nat, n: B.KNode)
    requires b.isRoot
    ensures var r := B.AddNodesActive(b, s, k); r.isRoot && (n in r.active <==> n in b.active || n in s)
  {
    if s != [] {
      var front, last := s[..|s| - 1], s[|s| - 1];
      PushedActive(b, front, k, n);
      B.SortSorts(B.AddNodesActive(b, front, k).active + [last]);
      assert s == front + [last];
    }
  }

  lemma MergeActive(t: Table, n: B.KNode)
    requires t.buckets != [] && t.rootBucket.isRoot
    ensures InActive(Merge(t), n) <==> InActive(t, n)
  {
    var last, k, m := t.buckets[|t.buckets| - 1], t.config.k, |t.buckets| - 1;
    PushedActive(t.rootBucket, last.active, k, n);
    B.AddNodesMembers(B.AddNodesActive(t.rootBucket, last.active, k), last.cache, k);
    assert forall i :: 0 <= i < m ==> Merge(t).buckets[i] == t.buckets[i];
    if n in last.active { assert n in t.buckets[m].active; }
  }

  /** Merging changes no active node, and makes none of a cached one. */
  lemma {:induction false} MergingKeepsActive(t: Table, n: B.KNode)
    requires Inv(t)
    ensures InActive(RebalanceWanting(t), n) <==> InActive(t, n)
    decreases |t.buckets|
  {
    if B.StatusOf(t.rootBucket, t.config.k).Wanting? && t.buckets != [] {
      MergeActive(t, n);
      MergeInv(t);
      MergingKeepsActive(Merge(t), n);
    }
  }

  // ------------------------------------------------------------------- splits

  lemma {:induction false} ExtractKeeps(s: seq<B.KNode>, d: nat, m: nat, n: B.KNode)
    requires n in s
    ensures var (taken, rest) := B.Extract(s, d, m); if n.depth == d then n in taken || n in rest else n in rest
  {
    assert s == [s[0]] + s[1..];
    if n != s[0] { ExtractKeeps(s[1..], d, if s[0].depth == d && m > 0 then m - 1 else m, n); }
  }

  lemma {:induction false} FilledActive(s: seq<B.KNode>, k: nat, n: B.KNode)
    requires |s| <= k
    ensures var r := B.AddNodesActive(B.Bucket([], [], false), s, k);
      !r.isRoot && |r.active| == |s| && (n in r.active <==> n in s)
  {
    if s != [] {
      var front, last := s[..|s| - 1], s[|s| - 1];
      FilledActive(front, k, n);
      B.SortSorts(B.AddNodesActive(B.Bucket([], [], false), front, k).active + [last]);
      assert s == front + [last];
    }
  }

  /** How many active nodes of a depth the root bucket holds. */
  ghost function ActiveAtDepth(t: Table, d: nat): nat { B.Count(t.rootBucket.active, B.AtDepth(d)) }

  lemma SplitActiveCounts(t: Table, d: nat)
    ensures ActiveAtDepth(Split(t), d) <= ActiveAtDepth(t, d)
    ensures d == |t.buckets| ==>
      |B.ExtractDepth(t.rootBucket, d, t.config.k).0| <= ActiveAtDepth(t, d)
  {
    var e, k := |t.buckets|, t.config.k;
    var (active, cached, rest) := B.ExtractDepth(t.rootBucket, e, k);
    B.ExtractDepthParts(t.rootBucket, e, k, B.AtDepth(d));
    B.ExtractDepthMembers(t.rootBucket, e, k);
    if d == e {
      B.CountOff(active, d);
      B.CountFinds(active, B.OffDepth(d));
    }
  }

  lemma SplitKeepsActive(t: Table, n: B.KNode)
    requires Shape(t) && C.Overflowing(t) && InActive(t, n)
    requires n in t.rootBucket.active ==> ActiveAtDepth(t, n.depth) <= t.config.k
    ensures InActive(Split(t), n)
  {
    var d, k := |t.buckets|, t.config.k;
    var (active, cached, rest) := B.ExtractDepth(t.rootBucket, d, k);
    if n in t.rootBucket.active {
      SplitExtractsAll(t);
      SplitActiveCounts(t, n.depth);
      ExtractedOrLeft(t, n);
      assert n in rest.active ==> n in rest.Nodes();
      if n.depth == d {
        FilledActive(active, k, n);
        B.AddNodesMembers(B.AddNodesActive(B.Bucket([], [], false), active, k), cached, k);
        assert n in Split(t).buckets[d].active;
      }
    } else {
      var i :| 0 <= i < |t.buckets| && n in t.buckets[i].active;
      assert Split(t).buckets[i] == t.buckets[i];
    }
  }

  lemma ExtractedOrLeft(t: Table, n: B.KNode)
    requires n in t.rootBucket.active
    ensures var (active, cached, rest) := B.ExtractDepth(t.rootBucket, |t.buckets|, t.config.k);
      if n.depth == |t.buckets| then n in active || n in rest.active else n in rest.active
  {
    var b, d, k := t.rootBucket, |t.buckets|, t.config.k;
    var most := if |b.Nodes()| >= k then |b.Nodes()| - k else 0;
    var cached := B.Extract(b.cache, d, most).0;
    ExtractKeeps(b.active, d, if |cached| <= most then most - |cached| else 0, n);
  }

  /** The splitting loop keeps active every node of a depth with at most k active nodes. */
  lemma {:induction false} SplittingKeepsActive(t: Table, n: B.KNode)
    requires Shape(t) && InActive(t, n)
    requires n in t.rootBucket.active ==> ActiveAtDepth(t, n.depth) <= t.config.k
    ensures InActive(RebalanceOverflow(t), n)
    decreases 256 - |t.buckets|
  {
    if C.Overflowing(t) {
      SplitShape(t);
      SplitKeepsActive(t, n);
      StillFew(t, n);
      SplittingKeepsActive(Split(t), n);
    }
  }

  lemma StillFew(t: Table, n: B.KNode)
    requires n in t.rootBucket.active ==> ActiveAtDepth(t, n.depth) <= t.config.k
    ensures n in Split(t).rootBucket.active ==> ActiveAtDepth(Split(t), n.depth) <= t.config.k
  {
    B.ExtractDepthMembers(t.rootBucket, |t.buckets|, t.config.k);
    SplitActiveCounts(t, n.depth);
  }

  // ---------------------------------------------------------- every operation

  /** The node an active node becomes by an operation, if it stays active. */
  ghost function After(op: Op, n: B.KNode): B.KNode {
    match op
    case Active(id) => if id == n.id then E.Fresh(n) else n
    case Second => E.Older(n)
    case _ => n
  }

  /** What may end the activity of a node: being removed, a tick at the timeout, and a split
      of more than k active nodes of its depth. */
  ghost predicate Endangered(t: Table, op: Op, n: B.KNode) {
    match op
    case Add(id) => n in t.rootBucket.active && ActiveAtDepth(t, n.depth) > t.config.k
    case Remove(id) => id == n.id
    case Disconnected(id) => id == n.id
    case Active(id) => false
    case Second => n.ticksLast + 1 >= t.config.pingTimeout
  }

  lemma AddToBucketKeepsActive(t: Table, id: Id, n: B.KNode)
    requires Inv(t) && InActive(t, n) && Depth(t.root, id) < |t.buckets|
    ensures InActive(AddNode(t, id), n)
  {
    if n !in t.rootBucket.active {
      var i :| 0 <= i < |t.buckets| && n in t.buckets[i].active;
      assert AddNode(t, id).buckets[i].active == t.buckets[i].active;
    }
  }

  lemma AddKeepsActive(t: Table, id: Id, n: B.KNode)
    requires Inv(t) && InActive(t, n) && !Endangered(t, Add(id), n)
    ensures InActive(AddNode(t, id), n)
  {
    if id != t.root && !HasNode(t, id) {
      var d := Depth(t.root, id);
      if d < |t.buckets| {
        AddToBucketKeepsActive(t, id, n);
      } else {
        AddToRootShape(t, id);
        SplittingKeepsActive(t.(rootBucket := B.AddNode(t.rootBucket, NewNode(t.root, id), t.config.k)), n);
      }
    }
  }

  lemma RemoveKeepsActive(t: Table, id: Id, n: B.KNode)
    requires Inv(t) && InActive(t, n) && id != n.id
    ensures InActive(RemoveNode(t, id), n) && InActive(NodeDisconnected(t, id), n)
  {
    var d := Depth(t.root, id);
    if d < |t.buckets| {
      var r := RemoveFromBucket(t, id);
      B.RemoveIdsMembers(t.buckets[d], [id]);
      if n !in t.rootBucket.active {
        var i :| 0 <= i < |t.buckets| && n in t.buckets[i].active;
        assert n in r.buckets[i].active;
      }
      RemoveFromBucketInv(t, id);
      MergingKeepsActive(r, n);
    } else {
      B.RemoveIdsMembers(t.rootBucket, [id]);
      RemoveFromRootInv(t, id);
      MergingKeepsActive(RemoveFromRoot(t, id), n);
    }
  }

  lemma SeenKeepsActive(t: Table, id: Id, n: B.KNode)
    requires Inv(t) && InActive(t, n)
    ensures InActive(NodeActive(t, id).0, After(Active(id), n))
  {
    var d, m, r := Depth(t.root, id), After(Active(id), n), NodeActive(t, id).0;
    E.TableNoTwins(t);
    E.NodeActiveIs(Home(t, id), id, t.config.k, m);
    if n.id == id {
      ActiveAtHome(t, n);
      ActiveHere(r, id, m);
    } else if n !in t.rootBucket.active {
      var i :| 0 <= i < |t.buckets| && n in t.buckets[i].active;
      assert n in r.buckets[i].active;
    }
  }

  /** Whatever happens, an active node stays active unless it is endangered by just that;
      a tick makes it older, and a sign of life sets its age to zero. */
  lemma StepKeepsActive(t: Table, op: Op, n: B.KNode)
    requires Inv(t) && InActive(t, n) && !Endangered(t, op, n)
    ensures InActive(Step(t, op), After(op, n))
  {
    match op
    case Add(id) => AddKeepsActive(t, id, n);
    case Remove(id) => RemoveKeepsActive(t, id, n);
    case Disconnected(id) => RemoveKeepsActive(t, id, n);
    case Active(id) => SeenKeepsActive(t, id, n);
    case Second => TickKeepsActive(t, n);
  }

  /** A sign of life makes a known id active exactly if it was active, or there is room. */
  lemma SeenIsActive(t: Table, id: Id)
    requires Inv(t)
    ensures HasActive(NodeActive(t, id).0, id)
      <==> HasActive(t, id) || (HasNode(t, id) && E.HasRoom(Home(t, id), t.config.k))
  {
    var b, r := Home(t, id), NodeActive(t, id).0;
    NodeActiveInv(t, id);
    E.TableNoTwins(t);
    forall x: B.KNode | x.id == id
      ensures InActive(r, x) <==> E.ActiveAfterSeen(b, id, t.config.k, x)
      ensures InActive(t, x) <==> x in b.active
    {
      E.NodeActiveIs(b, id, t.config.k, x);
      ActiveAtHome(r, x);
      ActiveAtHome(t, x);
    }
    HasNodeAtHome(t, id);
    if n :| n in b.Nodes() && n.id == id && (n in b.active || E.HasRoom(b, t.config.k)) {
      assert E.ActiveAfterSeen(b, id, t.config.k, E.Fresh(n)) && E.Fresh(n).id == id;
    }
  }

  lemma HasNodeAtHome(t: Table, id: Id)
    requires Inv(t)
    ensures HasNode(t, id) <==> exists n :: n in Home(t, id).Nodes() && n.id == id
  {
    var b := Home(t, id);
    if i :| 0 <= i < |t.rootBucket.Nodes()| && t.rootBucket.Nodes()[i].id == id {
      HomeIs(t, t.rootBucket, t.rootBucket.Nodes()[i]);
    }
    if d, i :| 0 <= d < |t.buckets| && 0 <= i < |t.buckets[d].Nodes()| && t.buckets[d].Nodes()[i].id == id {
      HomeIs(t, t.buckets[d], t.buckets[d].Nodes()[i]);
    }
    if n :| n in b.Nodes() && n.id == id {
      var i :| 0 <= i < |b.Nodes()| && b.Nodes()[i] == n;
      assert B.HasId(b.Nodes(), id);
    }
  }

  /** A new id for which there is room is cached in its bucket with age zero. */
  lemma AddedIsCached(t: Table, id: Id)
    requires Inv(t) && C.IsNew(t, id) && C.HasPlace(t, id)
    ensures Home(AddNode(t, id), id).active == Home(t, id).active
    ensures Home(AddNode(t, id), id).cache == Home(t, id).cache + [B.KNode(id, Depth(t.root, id), 0, 0)]
  {
    if Depth(t.root, id) >= |t.buckets| { C.AddedToRoot(t, id); }
  }
}
