/** Messages hopping from node to node over arbitrary, changing routing tables
    (dht_router/messages.rs). */
module Routing {
  import opened Prelude
  import opened NodeIds
  import T = Table
  import B = Buckets
  import R = Routes
  import K = Kademlia

  /** What a node knows when a message passes by. */
  datatype View = View(table: T.Table, connected: seq<Id>) {
    function Self(): Id { table.root }

    /** No node lists itself as connected. */
    ghost predicate Ok() { T.Inv(table) && table.root !in connected }
  }

  function ClosestOrConnected(v: View, key: Id, last: Option<Id>): seq<Id> {
    if key in v.connected then [key] else R.RouteClosest(v.table, key, last)
  }

  /** A connected key is the only hop; otherwise the hops are the active nodes on its branch,
      or if there are none on the branch to fall back to. */
  lemma HopsIff(v: View, key: Id, last: Option<Id>, id: Id)
    requires v.Ok()
    ensures var t, d := v.table, Depth(v.Self(), key);
      id in ClosestOrConnected(v, key, last) <==>
        if key in v.connected then id == key
        else R.ActiveWith(t, d, id) || (last.Some? && R.NoneActive(t, d) && R.OnFallback(t, key, last.value, id))
    ensures Distinct(ClosestOrConnected(v, key, last))
  {
    R.RouteClosestIs(v.table, key, last, id);
    R.HopsDiffer(v.table, key, last);
  }

  // ---------------------------------------------------------------- handlers

  datatype Out =
    | SendClosest(to: Id, orig: Id, key: Id)
    | SendDirect(to: Id, orig: Id, dst: Id)
    | EmitRouting(orig: Id, last: Id, next: Id, key: Id)
    | EmitClosest(orig: Id, last: Id, key: Id)
    | EmitDest(orig: Id, last: Id)

  class Messages {
    const core: K.Kademlia
    var connected: seq<Id>

    constructor (core: K.Kademlia)
      ensures this.core == core && connected == []
    {
      this.core := core;
      connected := [];
    }

    ghost function Seen(): View
      reads this, core, core.buckets, core.rootBucket
    {
      View(core.Model(), connected)
    }

    ghost predicate Valid()
      reads this, core, core.buckets, core.rootBucket
    {
      core.Valid() && core.root !in connected
    }

    method NextHops(key: Id, last: Option<Id>) returns (hops: seq<Id>)
      requires Valid()
      ensures hops == ClosestOrConnected(Seen(), key, last)
    {
      if key in connected {
        return [key];
      }
      hops := core.RouteClosest(key, last);
    }

    /** Starts a message to the node closest to key; none is sent by the closest node itself. */
    method NewClosest(key: Id) returns (out: seq<Out>)
      requires Valid()
      ensures out == var hops := ClosestOrConnected(Seen(), key, None);
        if hops == [] then [] else [SendClosest(hops[0], core.root, key)]
    {
      var hops := NextHops(key, None);
      out := if hops == [] then [] else [SendClosest(hops[0], core.root, key)];
    }

    method NewDirect(dst: Id) returns (out: seq<Out>)
      requires Valid()
      ensures out == var hops := ClosestOrConnected(Seen(), dst, None);
        if hops == [] then [] else [SendDirect(hops[0], core.root, dst)]
    {
      var hops := NextHops(dst, None);
      out := if hops == [] then [] else [SendDirect(hops[0], core.root, dst)];
    }

    /** Forwards to the first next hop; without one this node is the end of the way. */
    method MessageClosest(orig: Id, last: Id, key: Id) returns (out: seq<Out>)
      requires Valid()
      ensures out == var hops := ClosestOrConnected(Seen(), key, Some(last));
        if hops != [] then [SendClosest(hops[0], orig, key), EmitRouting(orig, last, hops[0], key)]
        else if key == core.root then [EmitDest(orig, last)]
        else [EmitClosest(orig, last, key)]
    {
      var hops := NextHops(key, Some(last));
      if hops != [] {
        return [SendClosest(hops[0], orig, key), EmitRouting(orig, last, hops[0], key)];
      }
      if key == core.root {
        return [EmitDest(orig, last)];
      }
      return [EmitClosest(orig, last, key)];
    }

    /** Forwards to any one of the next hops, but never past the destination. */
    method MessageDirect(orig: Id, last: Id, dst: Id) returns (out: seq<Out>)
      requires Valid()
      ensures dst == core.root ==> out == [EmitDest(orig, last)]
      ensures dst != core.root ==> var hops := ClosestOrConnected(Seen(), dst, Some(last));
        && (hops == [] <==> out == [])
        && (hops != [] ==> exists next :: next in hops && out == [SendDirect(next, orig, dst)])
    {
      if dst == core.root {
        return [EmitDest(orig, last)];
      }
      var hops := NextHops(dst, Some(last));
      if hops == [] {
        return [];
      }
      var i :| 0 <= i < |hops|;
      return [SendDirect(hops[i], orig, dst)];
    }
  }

  // -------------------------------------------------------------------- runs

  function LastHop(vs: seq<View>, i: nat): Option<Id>
    requires i < |vs|
  {
    if i == 0 then None else Some(vs[i - 1].Self())
  }

  /** One node after the other, each chosen from the next hops of the one before;
      the views are arbitrary, so tables may differ and change between hops. */
  ghost predicate Hops(vs: seq<View>, key: Id) {
    && vs != [] && (forall i :: 0 <= i < |vs| ==> vs[i].Ok())
    && forall i :: 0 <= i < |vs| - 1 ==> vs[i + 1].Self() in ClosestOrConnected(vs[i], key, LastHop(vs, i))
  }

  /** A Closest message among the nodes of a network. */
  ghost predicate ClosestRun(vs: seq<View>, key: Id, nodes: set<Id>) {
    Hops(vs, key) && forall i :: 0 <= i < |vs| ==> vs[i].Self() in nodes
  }

  /** A Direct message: nobody forwards it once it has arrived. */
  ghost predicate DirectRun(vs: seq<View>, dst: Id) {
    Hops(vs, dst) && forall i :: 1 <= i < |vs| - 1 ==> vs[i].Self() != dst
  }

  ghost predicate NoSiblings(nodes: set<Id>) {
    forall a, b :: a in nodes && b in nodes ==> !Siblings(a, b)
  }

  /** Lexicographic: how far the node is from the key, then how far the fallback is
      from the deepest branch. Both parts are below 256. */
  function Measure(self: Id, key: Id, last: Option<Id>): (m: nat)
    ensures m < 65536
  {
    var d := Depth(self, key);
    var e := match last case None => d case Some(l) => Max(d, Depth(self, l));
    256 * (255 - d) + (255 - e)
  }

  /** What any hop achieves, whatever the table looks like. */
  ghost predicate Moves(self: Id, key: Id, last: Option<Id>, next: Id) {
    && next != self
    && (next == key || Depth(self, next) == Depth(self, key)
        || (last.Some? && Max(Depth(self, key), Depth(self, last.value)) < Depth(self, next) < 255))
  }

  lemma HopMoves(v: View, key: Id, last: Option<Id>, next: Id)
    requires v.Ok() && next in ClosestOrConnected(v, key, last)
    ensures Moves(v.Self(), key, last, next)
    ensures R.RouteDirect(v.table, key) != [] ==> next == key || Depth(v.Self(), next) == Depth(v.Self(), key)
  {
    if key !in v.connected {
      R.RouteKinds(v.table, key, last, next);
    }
  }

  /** Every hop of an undelivered message makes progress, the fallback included,
      unless the key sits at the very last bit. */
  lemma MoveDecreases(self: Id, key: Id, last: Option<Id>, next: Id)
    requires Moves(self, key, last, next) && Depth(self, key) < 255
    ensures Measure(next, key, Some(self)) < Measure(self, key, last)
  {
    DepthSymmetric(self, next);
    if next == key {
      DepthSelf(key);
    } else if Depth(self, next) == Depth(self, key) {
      SameDepthIsCloser(self, next, key);
    } else {
      Isosceles(key, self, next);
      DepthSymmetric(self, key);
      DepthSymmetric(key, next);
    }
  }

  function Before(ids: seq<Id>, i: nat): Option<Id>
    requires i < |ids|
  {
    if i == 0 then None else Some(ids[i - 1])
  }

  ghost predicate Path(ids: seq<Id>, key: Id) {
    forall i :: 0 <= i < |ids| - 1 ==> Moves(ids[i], key, Before(ids, i), ids[i + 1])
  }

  function Selves(vs: seq<View>): (ids: seq<Id>)
    ensures |ids| == |vs| && forall i :: 0 <= i < |vs| ==> ids[i] == vs[i].Self()
  {
    seq(|vs|, i requires 0 <= i < |vs| => vs[i].Self())
  }

  lemma HopsPath(vs: seq<View>, key: Id)
    requires Hops(vs, key)
    ensures Path(Selves(vs), key)
  {
    var ids := Selves(vs);
    forall i | 0 <= i < |ids| - 1 ensures Moves(ids[i], key, Before(ids, i), ids[i + 1]) {
      HopMoves(vs[i], key, LastHop(vs, i), vs[i + 1].Self());
    }
  }

  lemma {:induction false} ClosestPathMeasure(ids: seq<Id>, key: Id, i: nat)
    requires Path(ids, key) && i < |ids|
    requires forall j :: 0 <= j < |ids| - 1 ==> !Siblings(ids[j], ids[j + 1])
    ensures i + Measure(ids[i], key, Before(ids, i)) <= Measure(ids[0], key, None)
  {
    if i > 0 {
      var self, last, next := ids[i - 1], Before(ids, i - 1), ids[i - 1 + 1];
      assert Moves(self, key, last, next);
      ClosestPathMeasure(ids, key, i - 1);
      assert !Siblings(self, next);
      MoveDecreases(self, key, last, next);
    }
  }

  /** The two tables of a pair of siblings which know each other. */
  function Twin(self: Id, other: Id): View {
    View(T.Table(self, B.Config(1, 1, 1), [], B.Bucket([B.KNode(other, 255, 0, 0)], [], true)), [])
  }

  lemma TwinOk(self: Id, other: Id)
    requires Siblings(self, other)
    ensures Twin(self, other).Ok()
  {
    var v := Twin(self, other);
    var n := B.KNode(other, 255, 0, 0);
    assert v.table.rootBucket.Nodes() == [n];
    forall id: Id ensures T.CountAll(v.table, B.HasTheId(id)) <= 1 { B.CountOne(n, B.HasTheId(id)); }
  }

  /** The table of a node that added the sibling but did not see it yet. */
  function TwinAdded(self: Id, other: Id): T.Table {
    T.Table(self, B.Config(1, 1, 1), [], B.Bucket([], [B.KNode(other, 255, 0, 0)], true))
  }

  lemma AddsTwin(self: Id, other: Id, t: T.Table)
    requires Siblings(self, other) && t == T.NewTable(self, B.Config(1, 1, 1)) && T.Inv(t)
    ensures T.AddNode(t, other) == TwinAdded(self, other)
  {
    var n := T.NewNode(self, other);
    assert B.AddNode(t.rootBucket, n, 1) == B.Bucket([], [n], true);
    assert B.Bucket([], [n], true).Nodes() == [n];
  }

  lemma SeesTwin(self: Id, other: Id)
    requires Siblings(self, other)
    ensures T.NodeActive(TwinAdded(self, other), other).0 == Twin(self, other).table
  {
    SeenOnly(B.KNode(other, 255, 0, 0));
  }

  lemma RunOfTwo(self: Id, c: B.Config, a: T.Op, b: T.Op)
    requires c.Ok()
    ensures T.Run(self, c, []) == T.NewTable(self, c)
    ensures T.Run(self, c, [a, b]) == T.Step(T.Step(T.Run(self, c, []), a), b)
  {
    assert [a, b][..1] == [a] && [a][..0] == [];
    assert T.Run(self, c, [a]) == T.Step(T.Run(self, c, []), a);
  }

  /** The tables of siblings come about when the other one is added and then seen. */
  lemma TwinIsReached(self: Id, other: Id)
    requires Siblings(self, other)
    ensures Twin(self, other).table == T.Run(self, B.Config(1, 1, 1), [T.Add(other), T.Active(other)])
  {
    var c := B.Config(1, 1, 1);
    RunOfTwo(self, c, T.Add(other), T.Active(other));
    AddsTwin(self, other, T.Run(self, c, []));
    SeesTwin(self, other);
  }

  lemma SeenOnly(n: B.KNode)
    requires n.ticksLast == 0
    ensures B.NodeActive(B.Bucket([], [n], true), n.id, 1).0 == B.Bucket([n], [], true)
  {
    assert [n][..0] == [] && [] + [n] == [n];
    assert B.SortByDepth([n]) == [n];
  }

  lemma TwinHop(self: Id, other: Id, key: Id, last: Option<Id>)
    requires Siblings(self, other) && (key == self || key == other)
    ensures other in ClosestOrConnected(Twin(self, other), key, last)
  {
    DepthSelf(self);
    var n := B.KNode(other, 255, 0, 0);
    R.IdsAtNode([n], 255, other);
    assert n in [n];
    assert R.GetNodesDepth(Twin(self, other).table, 255) == R.IdsAt([n], 255);
  }

  function PingPong(a: Id, b: Id, n: nat): (vs: seq<View>)
    ensures |vs| == n
  {
    seq(n, i => if i % 2 == 0 then Twin(a, b) else Twin(b, a))
  }

  lemma PingPongAt(a: Id, b: Id, n: nat, i: nat)
    requires Siblings(a, b) && i < n
    ensures var v := PingPong(a, b, n)[i];
      && v.Ok() && (v.Self() == a || v.Self() == b)
      && (i < n - 1 ==> forall last :: PingPong(a, b, n)[i + 1].Self() in ClosestOrConnected(v, a, last))
  {
    DepthSymmetric(a, b);
    TwinOk(a, b);
    TwinOk(b, a);
    forall last
      ensures b in ClosestOrConnected(Twin(a, b), a, last)
      ensures a in ClosestOrConnected(Twin(b, a), a, last)
    {
      TwinHop(a, b, a, last);
      TwinHop(b, a, a, last);
    }
  }

  /** Siblings hand a message for one of them to each other for as long as one likes. */
  lemma PingPongRuns(a: Id, b: Id, nodes: set<Id>, n: nat)
    requires Siblings(a, b) && a in nodes && b in nodes && n >= 1
    ensures ClosestRun(PingPong(a, b, n), a, nodes)
  {
    var vs := PingPong(a, b, n);
    forall i | 0 <= i < n
      ensures vs[i].Ok() && vs[i].Self() in nodes
      ensures i < n - 1 ==> vs[i + 1].Self() in ClosestOrConnected(vs[i], a, LastHop(vs, i))
    {
      PingPongAt(a, b, n, i);
    }
  }

  /** Closest messages make finitely many hops over all tables and keys of a
      network if and only if no two of its nodes differ in the last bit only. */
  lemma ClosestFiniteIff(nodes: set<Id>)
    ensures NoSiblings(nodes)
      <==> forall vs, key :: ClosestRun(vs, key, nodes) ==> |vs| <= 65536
  {
    if NoSiblings(nodes) {
      forall vs, key | ClosestRun(vs, key, nodes) ensures |vs| <= 65536 {
        HopsPath(vs, key);
        ClosestPathMeasure(Selves(vs), key, |vs| - 1);
      }
    } else {
      var a, b :| a in nodes && b in nodes && Siblings(a, b);
      PingPongRuns(a, b, nodes, 65537);
      assert |PingPong(a, b, 65537)| == 65537;
    }
  }

  lemma {:induction false} DirectPathMeasure(ids: seq<Id>, dst: Id, i: nat)
    requires Path(ids, dst) && 1 <= i < |ids|
    requires forall j :: 1 <= j <= i ==> ids[j] != dst
    ensures i + Measure(ids[i], dst, Before(ids, i)) <= 65536
  {
    if i > 1 {
      var self, last, next := ids[i - 1], Before(ids, i - 1), ids[i - 1 + 1];
      assert Moves(self, dst, last, next);
      DirectPathMeasure(ids, dst, i - 1);
      if Depth(self, dst) == 255 {
        OneSibling(self, dst, next);
      }
      MoveDecreases(self, dst, last, next);
    }
  }

  /** Direct messages always make finitely many hops: no condition on the network. */
  lemma DirectIsFinite(vs: seq<View>, dst: Id)
    requires DirectRun(vs, dst)
    ensures |vs| <= 65538
  {
    if |vs| > 2 {
      HopsPath(vs, dst);
      DirectPathMeasure(Selves(vs), dst, |vs| - 2);
    }
  }

  // ---------------------------------------------------------------- delivery

  /** The table has an active node at every depth where the network has one. */
  ghost predicate Covers(v: View, nodes: set<Id>) {
    forall n :: n in nodes && n != v.Self() ==> R.RouteDirect(v.table, n) != []
  }

  ghost predicate Stuck(vs: seq<View>, key: Id)
    requires vs != []
  {
    ClosestOrConnected(vs[|vs| - 1], key, LastHop(vs, |vs| - 1)) == []
  }

  lemma CoveredBranch(v: View, key: Id, n: Id, nodes: set<Id>)
    requires v.Ok() && Covers(v, nodes) && n in nodes && Depth(n, key) > Depth(v.Self(), key)
    ensures R.RouteDirect(v.table, key) != []
  {
    DepthSymmetric(n, key);
    Isosceles(v.Self(), key, n);
    if n == v.Self() { DepthSymmetric(n, key); }
  }

  /** A Closest message which stops at a node that covers its network stops at a
      node with the longest prefix of the key in the whole network. */
  lemma StopsAtClosest(vs: seq<View>, key: Id, nodes: set<Id>)
    requires Hops(vs, key) && Stuck(vs, key) && Covers(vs[|vs| - 1], nodes)
    ensures forall n :: n in nodes ==> Depth(n, key) <= Depth(vs[|vs| - 1].Self(), key)
  {
    var v := vs[|vs| - 1];
    forall n | n in nodes ensures Depth(n, key) <= Depth(v.Self(), key) {
      if Depth(n, key) > Depth(v.Self(), key) {
        CoveredBranch(v, key, n, nodes);
      }
    }
  }

  /** With covering tables the fallback is never taken on the way to a node. */
  lemma CoveredHopIsCloser(v: View, key: Id, last: Option<Id>, next: Id, nodes: set<Id>)
    requires v.Ok() && Covers(v, nodes) && key in nodes && key != v.Self()
    requires next in ClosestOrConnected(v, key, last)
    ensures next == key || Depth(next, key) > Depth(v.Self(), key)
  {
    HopMoves(v, key, last, next);
    if next != key {
      if Depth(v.Self(), key) == 255 {
        OneSibling(v.Self(), key, next);
      }
      SameDepthIsCloser(v.Self(), next, key);
    }
  }

  /** Every hop of a run gets closer. */
  ghost predicate Climbs(ids: seq<Id>, key: Id) {
    forall i :: 0 <= i < |ids| - 1 && ids[i] != key ==>
      ids[i + 1] == key || Depth(ids[i + 1], key) > Depth(ids[i], key)
  }

  lemma CoveredClimbs(vs: seq<View>, key: Id, nodes: set<Id>)
    requires Hops(vs, key) && key in nodes
    requires forall j :: 0 <= j < |vs| ==> Covers(vs[j], nodes)
    ensures Climbs(Selves(vs), key)
  {
    var ids := Selves(vs);
    forall i | 0 <= i < |ids| - 1 && ids[i] != key
      ensures ids[i + 1] == key || Depth(ids[i + 1], key) > Depth(ids[i], key)
    {
      CoveredHopIsCloser(vs[i], key, LastHop(vs, i), vs[i + 1].Self(), nodes);
    }
  }

  lemma {:induction false} ClimbDepth(ids: seq<Id>, key: Id, i: nat)
    requires Climbs(ids, key) && i < |ids| && forall j :: 0 <= j <= i ==> ids[j] != key
    ensures Depth(ids[i], key) >= i
  {
    if i > 0 {
      ClimbDepth(ids, key, i - 1);
      assert ids[i - 1 + 1] != key;
    }
  }

  /** A Direct message over covering tables stops at exactly its destination,
      siblings or not, after at most 256 hops. */
  lemma DirectDelivers(vs: seq<View>, dst: Id, nodes: set<Id>)
    requires DirectRun(vs, dst) && dst in nodes && vs[0].Self() != dst
    requires forall j :: 0 <= j < |vs| ==> Covers(vs[j], nodes)
    ensures |vs| - 1 <= 256
    ensures Stuck(vs, dst) ==> vs[|vs| - 1].Self() == dst
  {
    CoveredClimbs(vs, dst, nodes);
    if |vs| > 1 { ClimbDepth(Selves(vs), dst, |vs| - 2); }
  }

  /** Table and connections hold nodes of the network only. */
  ghost predicate KnowsOnly(v: View, nodes: set<Id>) {
    && (forall id :: id in v.connected ==> id in nodes)
    && forall d: nat, id :: id in R.GetNodesDepth(v.table, d) ==> id in nodes
  }

  lemma ArrivedIsStuck(v: View, last: Option<Id>, nodes: set<Id>)
    requires v.Ok() && v.Self() in nodes && NoSiblings(nodes) && KnowsOnly(v, nodes)
    ensures ClosestOrConnected(v, v.Self(), last) == []
  {
    var hops := ClosestOrConnected(v, v.Self(), last);
    DepthSelf(v.Self());
    if hops != [] {
      HopMoves(v, v.Self(), last, hops[0]);
      assert Siblings(v.Self(), hops[0]);
    }
  }

  lemma NotThereYet(vs: seq<View>, key: Id, nodes: set<Id>, i: nat)
    requires ClosestRun(vs, key, nodes) && NoSiblings(nodes) && i < |vs| - 1
    requires KnowsOnly(vs[i], nodes)
    ensures vs[i].Self() != key
  {
    assert vs[i + 1].Self() in ClosestOrConnected(vs[i], key, LastHop(vs, i));
    if vs[i].Self() == key {
      ArrivedIsStuck(vs[i], LastHop(vs, i), nodes);
    }
  }

  /** A Closest message to an existing node of a network without siblings stops at
      exactly that node, after at most 256 hops. */
  lemma ClosestDelivers(vs: seq<View>, key: Id, nodes: set<Id>)
    requires ClosestRun(vs, key, nodes) && NoSiblings(nodes) && key in nodes
    requires forall j :: 0 <= j < |vs| ==> Covers(vs[j], nodes)
    requires forall j :: 0 <= j < |vs| ==> KnowsOnly(vs[j], nodes)
    ensures |vs| - 1 <= 256
    ensures Stuck(vs, key) <==> vs[|vs| - 1].Self() == key
  {
    ClosestHopsBounded(vs, key, nodes);
    var last := vs[|vs| - 1];
    if last.Self() == key { ArrivedIsStuck(last, LastHop(vs, |vs| - 1), nodes); }
  }

  lemma ClosestHopsBounded(vs: seq<View>, key: Id, nodes: set<Id>)
    requires ClosestRun(vs, key, nodes) && NoSiblings(nodes) && key in nodes
    requires forall j :: 0 <= j < |vs| ==> Covers(vs[j], nodes)
    requires forall j :: 0 <= j < |vs| ==> KnowsOnly(vs[j], nodes)
    ensures |vs| - 1 <= 256
  {
    CoveredClimbs(vs, key, nodes);
    var last, ids := |vs| - 1, Selves(vs);
    forall i | 0 <= i < last ensures ids[i] != key { NotThereYet(vs, key, nodes, i); }
    if last > 0 { ClimbDepth(ids, key, last - 1); }
  }
}
