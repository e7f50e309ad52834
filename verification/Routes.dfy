/** Next hops of one table (route_closest and route_direct in dht_router/kademlia.rs). */
module Routes {
  import opened Prelude
  import opened NodeIds
  import opened Table
  import opened Ageing
  import B = Buckets
  import E = Effects

  function IdsAt(s: seq<B.KNode>, depth: nat): seq<Id> {
    if s == [] then []
    else if s[|s| - 1].depth == depth then IdsAt(s[..|s| - 1], depth) + [s[|s| - 1].id]
    else IdsAt(s[..|s| - 1], depth)
  }

  function GetNodesDepth(t: Table, depth: nat): seq<Id> {
    if depth < |t.buckets| then IdsAt(t.buckets[depth].active, depth) else IdsAt(t.rootBucket.active, depth)
  }

  /** The active nodes of the first non-empty depth of a range. */
  function FirstNodes(t: Table, from: nat, to: nat): seq<Id>
    decreases if from < to then to - from else 0
  {
    if from >= to then []
    else if GetNodesDepth(t, from) != [] then GetNodesDepth(t, from)
    else FirstNodes(t, from + 1, to)
  }

  function LastDepth(b: B.Bucket, otherwise: nat): nat {
    if b.active == [] then otherwise else b.active[|b.active| - 1].depth
  }

  function RouteClosest(t: Table, dst: Id, last: Option<Id>): seq<Id> {
    var depth := Depth(t.root, dst);
    var branch := GetNodesDepth(t, depth);
    if last.None? || branch != [] then branch
    else
      var depthLast := Max(depth, Depth(t.root, last.value));
      FirstNodes(t, depthLast + 1, LastDepth(t.rootBucket, depthLast))
  }

  function RouteDirect(t: Table, dst: Id): seq<Id> { GetNodesDepth(t, Depth(t.root, dst)) }

  lemma {:induction false} IdsAtNode(s: seq<B.KNode>, depth: nat, id: Id)
    ensures id in IdsAt(s, depth) <==> exists n :: n in s && n.id == id && n.depth == depth
  {
    if s != [] {
      var front, last := s[..|s| - 1], s[|s| - 1];
      IdsAtNode(front, depth, id);
      assert s == front + [last];
    }
  }

  /** The id of an active node of that depth, in whatever bucket. */
  ghost predicate ActiveWith(t: Table, depth: nat, id: Id) {
    exists n :: InActive(t, n) && n.id == id && n.depth == depth
  }

  ghost predicate NoneActive(t: Table, depth: nat) { forall n :: InActive(t, n) ==> n.depth != depth }

  /** The active nodes of a depth are all in the one list that is looked at. */
  lemma NodesAtDepthIs(t: Table, depth: nat, id: Id)
    requires Inv(t)
    ensures id in GetNodesDepth(t, depth) <==> ActiveWith(t, depth, id)
  {
    var b := if depth < |t.buckets| then t.buckets[depth] else t.rootBucket;
    IdsAtNode(b.active, depth, id);
    forall n | InActive(t, n) && n.depth == depth ensures n in b.active {
      if n !in t.rootBucket.active {
        var i :| 0 <= i < |t.buckets| && n in t.buckets[i].active;
        assert n in t.buckets[i].Nodes();
      } else {
        assert n in t.rootBucket.Nodes();
      }
    }
  }

  /** Whatever depth is asked for, only other nodes of just that depth are returned. */
  lemma NodesAtDepth(t: Table, depth: nat, id: Id)
    requires Inv(t) && id in GetNodesDepth(t, depth)
    ensures id != t.root && Depth(t.root, id) == depth
  {
    NodesAtDepthIs(t, depth, id);
    ActiveNodeOk(t, depth, id);
  }

  lemma NoneAtDepthIs(t: Table, depth: nat)
    requires Inv(t)
    ensures GetNodesDepth(t, depth) == [] <==> NoneActive(t, depth)
  {
    if n :| InActive(t, n) && n.depth == depth { NodesAtDepthIs(t, depth, n.id); }
    if GetNodesDepth(t, depth) != [] { NodesAtDepthIs(t, depth, GetNodesDepth(t, depth)[0]); }
  }

  lemma {:induction false} IdsAtDistinct(s: seq<B.KNode>, depth: nat)
    requires E.NoTwins(s)
    ensures Distinct(IdsAt(s, depth))
  {
    if s != [] {
      var front, last := s[..|s| - 1], s[|s| - 1];
      IdsAtDistinct(front, depth);
      IdsAtNode(front, depth, last.id);
      assert last.id !in IdsAt(front, depth);
      if last.depth == depth { assert IdsAt(s, depth) == IdsAt(front, depth) + [last.id]; }
    }
  }

  lemma NodesAtDepthDistinct(t: Table, depth: nat)
    requires Inv(t)
    ensures Distinct(GetNodesDepth(t, depth))
  {
    E.TableNoTwins(t);
    var b := if depth < |t.buckets| then t.buckets[depth] else t.rootBucket;
    assert b.Nodes()[..|b.active|] == b.active;
    IdsAtDistinct(b.active, depth);
  }

  /** The least depth of a range with an active node. */
  ghost predicate Least(t: Table, from: nat, to: nat, d: nat) {
    from <= d < to && !NoneActive(t, d) && forall e :: from <= e < d ==> NoneActive(t, e)
  }

  ghost predicate OnLeast(t: Table, from: nat, to: nat, id: Id) {
    exists d :: Least(t, from, to, d) && ActiveWith(t, d, id)
  }

  lemma LeastFrom(t: Table, from: nat, to: nat, id: Id)
    requires from < to && NoneActive(t, from)
    ensures OnLeast(t, from, to, id) <==> OnLeast(t, from + 1, to, id)
  {
    if d :| Least(t, from, to, d) && ActiveWith(t, d, id) { assert Least(t, from + 1, to, d); }
    if d :| Least(t, from + 1, to, d) && ActiveWith(t, d, id) { assert Least(t, from, to, d); }
  }

  lemma LeastHere(t: Table, from: nat, to: nat, id: Id)
    requires from < to && !NoneActive(t, from)
    ensures OnLeast(t, from, to, id) <==> ActiveWith(t, from, id)
  {
    assert Least(t, from, to, from);
  }

  lemma {:induction false} FirstNodesIs(t: Table, from: nat, to: nat, id: Id)
    requires Inv(t)
    ensures id in FirstNodes(t, from, to) <==> OnLeast(t, from, to, id)
    ensures Distinct(FirstNodes(t, from, to))
    decreases if from < to then to - from else 0
  {
    if from < to {
      NoneAtDepthIs(t, from);
      NodesAtDepthIs(t, from, id);
      NodesAtDepthDistinct(t, from);
      if NoneActive(t, from) {
        FirstNodesIs(t, from + 1, to, id);
        LeastFrom(t, from, to, id);
      } else {
        LeastHere(t, from, to, id);
      }
    }
  }

  lemma LastDepthIs(b: B.Bucket, otherwise: nat, d: nat)
    requires B.SortedByDepth(b.active) && otherwise <= d
    ensures d < LastDepth(b, otherwise) <==> exists n :: n in b.active && d < n.depth
  {
    if b.active != [] { assert b.active[|b.active| - 1] in b.active; }
  }

  /** The branch a message falls back to: the nearest one with active nodes which is deeper
      than the destination and the last hop, and not the deepest of the root bucket. */
  ghost predicate Fallback(t: Table, dst: Id, last: Id, d: nat) {
    && Depth(t.root, dst) < d && Depth(t.root, last) < d
    && (exists n :: n in t.rootBucket.active && d < n.depth)
    && !NoneActive(t, d)
    && forall e :: Depth(t.root, dst) < e < d && Depth(t.root, last) < e ==> NoneActive(t, e)
  }

  /** The id of an active node of that branch. */
  ghost predicate OnFallback(t: Table, dst: Id, last: Id, id: Id) {
    exists d :: Fallback(t, dst, last, d) && ActiveWith(t, d, id)
  }

  lemma LeastIsFallback(t: Table, dst: Id, last: Id, d: nat)
    requires B.SortedByDepth(t.rootBucket.active)
    ensures var from := Max(Depth(t.root, dst), Depth(t.root, last));
      Least(t, from + 1, LastDepth(t.rootBucket, from), d) <==> Fallback(t, dst, last, d)
  {
    var from := Max(Depth(t.root, dst), Depth(t.root, last));
    if from <= d { LastDepthIs(t.rootBucket, from, d); }
  }

  lemma RangeIsFallback(t: Table, dst: Id, last: Id, id: Id)
    requires B.SortedByDepth(t.rootBucket.active)
    ensures var from := Max(Depth(t.root, dst), Depth(t.root, last));
      OnLeast(t, from + 1, LastDepth(t.rootBucket, from), id) <==> OnFallback(t, dst, last, id)
  {
    var from := Max(Depth(t.root, dst), Depth(t.root, last));
    var to := LastDepth(t.rootBucket, from);
    forall d ensures Least(t, from + 1, to, d) <==> Fallback(t, dst, last, d) { LeastIsFallback(t, dst, last, d); }
  }

  /** Where route_closest looks. */
  lemma RouteClosestLooks(t: Table, dst: Id, last: Option<Id>, id: Id)
    ensures id in RouteClosest(t, dst, last) <==>
      || id in GetNodesDepth(t, Depth(t.root, dst))
      || (last.Some? && GetNodesDepth(t, Depth(t.root, dst)) == []
          && var from := Max(Depth(t.root, dst), Depth(t.root, last.value));
             id in FirstNodes(t, from + 1, LastDepth(t.rootBucket, from)))
  {
  }

  /** Exactly which nodes are hops: the active ones on the branch of the destination, or, if
      there are none and the message came from another node, those on the branch to fall back to. */
  lemma RouteClosestIs(t: Table, dst: Id, last: Option<Id>, id: Id)
    requires Inv(t)
    ensures id in RouteClosest(t, dst, last) <==>
      || ActiveWith(t, Depth(t.root, dst), id)
      || (last.Some? && NoneActive(t, Depth(t.root, dst)) && OnFallback(t, dst, last.value, id))
  {
    RouteClosestLooks(t, dst, last, id);
    NodesAtDepthIs(t, Depth(t.root, dst), id);
    NoneAtDepthIs(t, Depth(t.root, dst));
    if last.Some? {
      var from := Max(Depth(t.root, dst), Depth(t.root, last.value));
      FirstNodesIs(t, from + 1, LastDepth(t.rootBucket, from), id);
      RangeIsFallback(t, dst, last.value, id);
    }
  }

  lemma HopsDiffer(t: Table, dst: Id, last: Option<Id>)
    requires Inv(t)
    ensures Distinct(RouteClosest(t, dst, last))
  {
    var depth := Depth(t.root, dst);
    NodesAtDepthDistinct(t, depth);
    if last.Some? {
      var from := Max(depth, Depth(t.root, last.value));
      FirstNodesIs(t, from + 1, LastDepth(t.rootBucket, from), t.root);
    }
  }

  /** There are no hops exactly if no active node is on any of these branches. */
  lemma NoHopIff(t: Table, dst: Id, last: Option<Id>)
    requires Inv(t)
    ensures RouteClosest(t, dst, last) == [] <==>
      NoneActive(t, Depth(t.root, dst)) && (last.Some? ==> forall d :: !Fallback(t, dst, last.value, d))
  {
    var hops := RouteClosest(t, dst, last);
    if hops != [] { RouteClosestIs(t, dst, last, hops[0]); }
    if n :| InActive(t, n) && n.depth == Depth(t.root, dst) { RouteClosestIs(t, dst, last, n.id); }
    if last.Some? && NoneActive(t, Depth(t.root, dst)) {
      if d :| Fallback(t, dst, last.value, d) {
        var n :| InActive(t, n) && n.depth == d;
        RouteClosestIs(t, dst, last, n.id);
      }
    }
  }

  lemma ActiveNodeOk(t: Table, depth: nat, id: Id)
    requires Inv(t) && ActiveWith(t, depth, id)
    ensures id != t.root && Depth(t.root, id) == depth
  {
    var n :| InActive(t, n) && n.id == id && n.depth == depth;
    if n in t.rootBucket.active {
      assert n in t.rootBucket.Nodes();
    } else {
      var i :| 0 <= i < |t.buckets| && n in t.buckets[i].active;
      assert n in t.buckets[i].Nodes();
    }
  }

  lemma FallbackDepth(t: Table, dst: Id, last: Id, d: nat)
    requires Inv(t) && Fallback(t, dst, last, d)
    ensures Depth(t.root, dst) < d && Depth(t.root, last) < d < 255
  {
    var n :| n in t.rootBucket.active && d < n.depth;
    assert n in t.rootBucket.Nodes();
  }

  /** A hop stays on the branch of the destination, or falls back to a branch deeper
      than both the destination and the last hop, but not to the deepest one. */
  lemma RouteKinds(t: Table, dst: Id, last: Option<Id>, next: Id)
    requires Inv(t) && next in RouteClosest(t, dst, last)
    ensures next != t.root
    ensures Depth(t.root, next) == Depth(t.root, dst)
      || (last.Some? && RouteDirect(t, dst) == []
          && Max(Depth(t.root, dst), Depth(t.root, last.value)) < Depth(t.root, next) < 255)
  {
    RouteClosestIs(t, dst, last, next);
    NoneAtDepthIs(t, Depth(t.root, dst));
    if ActiveWith(t, Depth(t.root, dst), next) {
      ActiveNodeOk(t, Depth(t.root, dst), next);
    } else {
      var d :| Fallback(t, dst, last.value, d) && ActiveWith(t, d, next);
      ActiveNodeOk(t, d, next);
      FallbackDepth(t, dst, last.value, d);
    }
  }
}
