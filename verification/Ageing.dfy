/** The age of an active node is the time since it was seen last, over every run of the
    table and through every split and merge (dht_router/kademlia.rs). */
module Ageing {
  import opened Prelude
  import opened NodeIds
  import opened Table
  import B = Buckets
  import E = Effects

  ghost predicate InActive(t: Table, n: B.KNode) {
    n in t.rootBucket.active || exists i :: 0 <= i < |t.buckets| && n in t.buckets[i].active
  }

  /** The ids a table reports as active. */
  function ActiveIds(t: Table): seq<Id> { ActiveOf(t.buckets) + IdsOf(t.rootBucket.active) }

  function IdsOf(s: seq<B.KNode>): (r: seq<Id>)
    ensures |r| == |s|
    ensures forall i :: 0 <= i < |s| ==> r[i] == s[i].id
  {
    seq(|s|, i requires 0 <= i < |s| => s[i].id)
  }

  function ActiveOf(bs: seq<B.Bucket>): seq<Id> {
    if bs == [] then [] else ActiveOf(bs[..|bs| - 1]) + IdsOf(bs[|bs| - 1].active)
  }

  lemma {:induction false} ActiveOfNode(bs: seq<B.Bucket>, id: Id) returns (i: nat, n: B.KNode)
    requires id in ActiveOf(bs)
    ensures i < |bs| && n in bs[i].active && n.id == id
  {
    var front, last := bs[..|bs| - 1], bs[|bs| - 1];
    if id in ActiveOf(front) {
      i, n := ActiveOfNode(front, id);
    } else {
      var j :| 0 <= j < |last.active| && IdsOf(last.active)[j] == id;
      i, n := |bs| - 1, last.active[j];
    }
  }

  lemma ActiveIdNode(t: Table, id: Id) returns (n: B.KNode)
    requires id in ActiveIds(t)
    ensures InActive(t, n) && n.id == id
  {
    if id in ActiveOf(t.buckets) {
      var i;
      i, n := ActiveOfNode(t.buckets, id);
    } else {
      var j :| 0 <= j < |t.rootBucket.active| && IdsOf(t.rootBucket.active)[j] == id;
      n := t.rootBucket.active[j];
    }
  }

  /** Ticks since the last call of node_active(id) in a run, if there was one. */
  function SinceSeen(ops: seq<Op>, id: Id): Option<nat> {
    if ops == [] then None
    else
      var before := SinceSeen(ops[..|ops| - 1], id);
      match ops[|ops| - 1]
      case Active(x) => if x == id then Some(0) else before
      case Second => if before.Some? then Some(before.value + 1) else None
      case _ => before
  }

  ghost predicate Recent(ops: seq<Op>, n: B.KNode, timeout: nat) {
    var s := SinceSeen(ops, n.id);
    s.Some? && s.value == n.ticksLast < timeout
  }

  ghost predicate AllRecent(t: Table, ops: seq<Op>) {
    forall n :: InActive(t, n) ==> Recent(ops, n, t.config.pingTimeout)
  }

  // ------------------------------------------------ where active nodes come from

  lemma SplitActive(t: Table, n: B.KNode)
    requires InActive(Split(t), n)
    ensures InActive(t, n)
  {
    var k, d := t.config.k, |t.buckets|;
    B.ExtractDepthMembers(t.rootBucket, d, k);
    var (active, cached, rest) := B.ExtractDepth(t.rootBucket, d, k);
    var b0 := B.Bucket([], [], false);
    B.AddNodesActiveMembers(b0, active, k);
    B.AddNodesMembers(B.AddNodesActive(b0, active, k), cached, k);
  }

  lemma {:induction false} RebalanceOverflowActive(t: Table, n: B.KNode)
    requires Shape(t) && InActive(RebalanceOverflow(t), n)
    ensures InActive(t, n)
    decreases 256 - |t.buckets|
  {
    if B.StatusOf(t.rootBucket, t.config.k).Overflowing? {
      SplitShape(t);
      RebalanceOverflowActive(Split(t), n);
      SplitActive(t, n);
    }
  }

  lemma {:induction false} RebalanceWantingActive(t: Table, n: B.KNode)
    requires Inv(t) && InActive(RebalanceWanting(t), n)
    ensures InActive(t, n)
    decreases |t.buckets|
  {
    if B.StatusOf(t.rootBucket, t.config.k).Wanting? && t.buckets != [] {
      MergeInv(t);
      RebalanceWantingActive(Merge(t), n);
      var last, k := t.buckets[|t.buckets| - 1], t.config.k;
      B.AddNodesActiveMembers(t.rootBucket, last.active, k);
      B.AddNodesMembers(B.AddNodesActive(t.rootBucket, last.active, k), last.cache, k);
    }
  }

  lemma AddNodeOrigin(t: Table, id: Id, n: B.KNode)
    requires Inv(t) && InActive(AddNode(t, id), n)
    ensures InActive(t, n)
  {
    if id != t.root && !HasNode(t, id) {
      if Depth(t.root, id) < |t.buckets| {
      } else {
        AddToRootShape(t, id);
        RebalanceOverflowActive(t.(rootBucket := B.AddNode(t.rootBucket, NewNode(t.root, id), t.config.k)), n);
      }
    }
  }

  lemma RemoveOrigin(t: Table, id: Id, n: B.KNode)
    requires Inv(t)
    ensures InActive(RemoveNode(t, id), n) ==> InActive(t, n)
    ensures InActive(NodeDisconnected(t, id), n) ==> InActive(t, n)
  {
    var d := Depth(t.root, id);
    if d < |t.buckets| {
      B.RemoveIdsMembers(t.buckets[d], [id]);
      RemoveFromBucketInv(t, id);
      var r := RemoveFromBucket(t, id);
      if InActive(RebalanceWanting(r), n) { RebalanceWantingActive(r, n); }
      if InActive(r, n) && n !in t.rootBucket.active {
        var i :| 0 <= i < |r.buckets| && n in r.buckets[i].active;
        assert n in t.buckets[i].active;
      }
    } else {
      B.RemoveIdsMembers(t.rootBucket, [id]);
      RemoveFromRootInv(t, id);
      var r := RemoveFromRoot(t, id);
      if InActive(RebalanceWanting(r), n) { RebalanceWantingActive(r, n); }
    }
  }

  /** No bucket but that in charge of an id holds it. */
  lemma OnlyThere(t: Table, id: Id, n: B.KNode)
    requires Inv(t) && n.id == id
    ensures var d := Depth(t.root, id);
      && (d < |t.buckets| ==> n !in t.rootBucket.Nodes())
      && forall i :: 0 <= i < |t.buckets| && i != d ==> n !in t.buckets[i].Nodes()
  {
  }

  /** After a sign of life an active node of that id has age zero; all others are as before. */
  lemma NodeActiveOrigin(t: Table, id: Id, n: B.KNode)
    requires Inv(t) && InActive(NodeActive(t, id).0, n)
    ensures if n.id == id then n.ticksLast == 0 else InActive(t, n)
  {
    var d, k := Depth(t.root, id), t.config.k;
    E.TableNoTwins(t);
    E.NodeActiveIs(if d < |t.buckets| then t.buckets[d] else t.rootBucket, id, k, n);
    if n.id == id { OnlyThere(t, id, n); }
    var r := NodeActive(t, id).0;
    if n !in r.rootBucket.active {
      var i :| 0 <= i < |r.buckets| && n in r.buckets[i].active;
    }
  }

  lemma TickOrigin(t: Table, n: B.KNode) returns (o: B.KNode)
    requires Inv(t) && InActive(Tick(t), n)
    ensures InActive(t, o) && n == B.TickNode(o) && n.ticksLast < t.config.pingTimeout
  {
    if n in Tick(t).rootBucket.active {
      o := B.TickActive(t.rootBucket, t.config, n);
    } else {
      var i :| 0 <= i < |t.buckets| && n in Tick(t).buckets[i].active;
      o := B.TickActive(t.buckets[i], t.config, n);
    }
  }

  /** What one operation does to an active node. */
  ghost predicate Aged(op: Op, o: B.KNode, n: B.KNode, timeout: nat) {
    match op
    case Second => n == B.TickNode(o) && n.ticksLast < timeout
    case _ => n == o
  }

  lemma StepOrigin(t: Table, op: Op, n: B.KNode) returns (o: B.KNode)
    requires Inv(t) && InActive(Step(t, op), n)
    ensures if op == Active(n.id) then n.ticksLast == 0 else InActive(t, o) && Aged(op, o, n, t.config.pingTimeout)
  {
    o := n;
    match op
    case Add(id) => AddNodeOrigin(t, id, n);
    case Remove(id) => RemoveOrigin(t, id, n);
    case Disconnected(id) => RemoveOrigin(t, id, n);
    case Active(id) => NodeActiveOrigin(t, id, n);
    case Second => o := TickOrigin(t, n);
  }

  lemma AgedRecent(ops: seq<Op>, op: Op, o: B.KNode, n: B.KNode, timeout: nat)
    requires Recent(ops, o, timeout) && Aged(op, o, n, timeout) && op != Active(n.id)
    ensures Recent(ops + [op], n, timeout)
  {
    assert (ops + [op])[..|ops|] == ops;
  }

  lemma SeenRecent(ops: seq<Op>, n: B.KNode, timeout: nat)
    requires n.ticksLast == 0 < timeout
    ensures Recent(ops + [Active(n.id)], n, timeout)
  {
    assert (ops + [Active(n.id)])[..|ops|] == ops;
  }

  lemma StepRecent(t: Table, ops: seq<Op>, op: Op)
    requires Inv(t) && AllRecent(t, ops)
    ensures AllRecent(Step(t, op), ops + [op])
  {
    var timeout := t.config.pingTimeout;
    forall n | InActive(Step(t, op), n) ensures Recent(ops + [op], n, timeout) {
      var o := StepOrigin(t, op, n);
      if op == Active(n.id) {
        SeenRecent(ops, n, timeout);
      } else {
        AgedRecent(ops, op, o, n, timeout);
      }
    }
  }

  /** Over every run the age of an active node is the number of ticks since node_active
      was called for it last. */
  lemma {:induction false} RunRecent(root: Id, config: B.Config, ops: seq<Op>)
    requires config.Ok()
    ensures AllRecent(Run(root, config, ops), ops)
  {
    if ops != [] {
      var before := ops[..|ops| - 1];
      RunRecent(root, config, before);
      StepRecent(Run(root, config, before), before, ops[|ops| - 1]);
      assert ops == before + [ops[|ops| - 1]];
    }
  }

  function Ticks(ops: seq<Op>): nat {
    if ops == [] then 0 else Ticks(ops[..|ops| - 1]) + if ops[|ops| - 1].Second? then 1 else 0
  }

  lemma {:induction false} SinceSeenIs(ops: seq<Op>, id: Id) returns (j: nat)
    requires SinceSeen(ops, id).Some?
    ensures j < |ops| && ops[j] == Active(id) && Ticks(ops[j + 1..]) == SinceSeen(ops, id).value
  {
    var last := ops[|ops| - 1];
    if last == Active(id) {
      j := |ops| - 1;
    } else {
      j := SinceSeenIs(ops[..|ops| - 1], id);
      assert ops[..|ops| - 1][j + 1..] == ops[j + 1..][..|ops[j + 1..]| - 1];
    }
  }

  /** Over every run: an id is reported as active only if node_active was called
      for it, and fewer than ping_timeout ticks have passed since. */
  lemma ActiveMeansSeen(root: Id, config: B.Config, ops: seq<Op>, id: Id)
    requires config.Ok() && id in ActiveIds(Run(root, config, ops))
    ensures exists j :: 0 <= j < |ops| && ops[j] == Active(id) && Ticks(ops[j + 1..]) < config.pingTimeout
  {
    RunRecent(root, config, ops);
    var n := ActiveIdNode(Run(root, config, ops), id);
    var j := SinceSeenIs(ops, id);
  }
}
