/** What a sign of life and a tick do to every single node, written out
    (dht_router/kademlia.rs). */
module Effects {
  import opened Prelude
  import opened NodeIds
  import opened Table
  import B = Buckets

  /** No id occurs twice in the list. */
  ghost predicate NoTwins(s: seq<B.KNode>) { forall i, j :: 0 <= i < j < |s| ==> s[i].id != s[j].id }

  lemma TwinsCount(s: seq<B.KNode>, i: nat, j: nat)
    requires i < j < |s| && s[i].id == s[j].id
    ensures B.Count(s, B.HasTheId(s[i].id)) >= 2
  {
    var p, front, back := B.HasTheId(s[i].id), s[..j], s[j..];
    assert s == front + back && front[i] in front && back[0] in back;
    assert p(front[i].id, front[i].depth) && p(back[0].id, back[0].depth);
    B.CountConcat(front, back, p);
    B.CountFinds(front, p);
    B.CountFinds(back, p);
  }

  lemma {:induction false} CountInAt(bs: seq<B.Bucket>, i: nat, p: B.Kind)
    requires i < |bs|
    ensures B.Count(bs[i].Nodes(), p) <= CountIn(bs, p)
  {
    if i < |bs| - 1 { CountInAt(bs[..|bs| - 1], i, p); }
  }

  lemma TableNoTwins(t: Table)
    requires Shape(t)
    ensures NoTwins(t.rootBucket.Nodes())
    ensures forall i :: 0 <= i < |t.buckets| ==> NoTwins(t.buckets[i].Nodes())
  {
    forall id: Id ensures B.Count(t.rootBucket.Nodes(), B.HasTheId(id)) <= 1 {
      assert CountAll(t, B.HasTheId(id)) <= 1;
    }
    CountsNoTwins(t.rootBucket.Nodes());
    forall d | 0 <= d < |t.buckets| ensures NoTwins(t.buckets[d].Nodes()) {
      forall id: Id ensures B.Count(t.buckets[d].Nodes(), B.HasTheId(id)) <= 1 {
        assert CountAll(t, B.HasTheId(id)) <= 1;
        CountInAt(t.buckets, d, B.HasTheId(id));
      }
      CountsNoTwins(t.buckets[d].Nodes());
    }
  }

  lemma CountsNoTwins(s: seq<B.KNode>)
    requires forall id: Id :: B.Count(s, B.HasTheId(id)) <= 1
    ensures NoTwins(s)
  {
    forall i, j | 0 <= i < j < |s| ensures s[i].id != s[j].id {
      assert B.Count(s, B.HasTheId(s[i].id)) <= 1;
      if s[i].id == s[j].id { TwinsCount(s, i, j); }
    }
  }

  // ---------------------------------------------------------- a sign of life

  /** The node as it is after a sign of life. */
  ghost function Fresh(n: B.KNode): B.KNode { B.KNode(n.id, n.depth, n.ticksActive, 0) }

  ghost predicate HasRoom(b: B.Bucket, k: nat) { b.isRoot || |b.active| < k }

  ghost predicate ActiveAfterSeen(b: B.Bucket, id: Id, k: nat, x: B.KNode) {
    if x.id != id then x in b.active
    else exists n: B.KNode :: n.id == id && x == Fresh(n) && (n in b.active || (n in b.cache && HasRoom(b, k)))
  }

  ghost predicate CachedAfterSeen(b: B.Bucket, id: Id, k: nat, x: B.KNode) {
    if x.id != id then x in b.cache
    else exists n: B.KNode :: n.id == id && x == Fresh(n) && n in b.cache && !HasRoom(b, k)
  }

  lemma SeenActive(b: B.Bucket, id: Id, k: nat, i: nat, x: B.KNode)
    requires NoTwins(b.Nodes()) && i < |b.active| && b.active[i].id == id
    ensures x in b.active[i := Fresh(b.active[i])] <==> ActiveAfterSeen(b, id, k, x)
    ensures x in b.cache <==> CachedAfterSeen(b, id, k, x)
  {
    var r := b.active[i := Fresh(b.active[i])];
    forall n | n in b.active && n.id == id ensures n == b.active[i] {
      var j :| 0 <= j < |b.active| && b.active[j] == n;
      assert b.Nodes()[i] == b.active[i] && b.Nodes()[j] == n;
    }
    forall n | n in b.cache ensures n.id != id {
      var j :| 0 <= j < |b.cache| && b.cache[j] == n;
      assert b.Nodes()[i] == b.active[i] && b.Nodes()[|b.active| + j] == n;
    }
    assert r[i] == Fresh(b.active[i]);
    if x in b.active && x.id != id {
      var j :| 0 <= j < |b.active| && b.active[j] == x;
      assert r[j] == x;
    }
    if x in r {
      var j :| 0 <= j < |r| && r[j] == x;
      if x.id == id {
        assert b.active[j].id == id && b.Nodes()[j] == b.active[j] && b.Nodes()[i] == b.active[i];
        assert j == i && b.active[i] in b.active;
      } else {
        assert x == b.active[j];
      }
    }
  }

  lemma RestIs(s: seq<B.KNode>, j: nat, y: B.KNode)
    requires NoTwins(s) && j < |s|
    ensures y in s[..j] + s[j + 1..] <==> y in s && y.id != s[j].id
  {
    var rest := s[..j] + s[j + 1..];
    if y in s && y.id != s[j].id {
      var i :| 0 <= i < |s| && s[i] == y;
      assert if i < j then rest[i] == y else rest[i - 1] == y;
    }
    if i :| 0 <= i < |rest| && rest[i] == y {
      assert s[if i < j then i else i + 1] == y;
    }
  }

  lemma CachedTwins(b: B.Bucket, j: nat)
    requires NoTwins(b.Nodes()) && j < |b.cache|
    ensures NoTwins(b.cache)
    ensures forall y :: y in b.active ==> y.id != b.cache[j].id
    ensures forall y :: y in b.cache && y.id == b.cache[j].id ==> y == b.cache[j]
  {
    assert b.Nodes()[|b.active|..] == b.cache && b.Nodes()[|b.active| + j] == b.cache[j];
    forall y | y in b.active ensures y.id != b.cache[j].id {
      var i :| 0 <= i < |b.active| && b.active[i] == y;
      assert b.Nodes()[i] == y;
    }
  }

  lemma SeenCached(b: B.Bucket, id: Id, k: nat, j: nat, x: B.KNode)
    requires NoTwins(b.Nodes()) && j < |b.cache| && b.cache[j].id == id
    ensures var r := B.Promote(b, j, k).0;
      (x in r.active <==> ActiveAfterSeen(b, id, k, x)) && (x in r.cache <==> CachedAfterSeen(b, id, k, x))
  {
    var n := b.cache[j];
    CachedTwins(b, j);
    RestIs(b.cache, j, x);
    assert n.(ticksLast := 0) == Fresh(n) && n in b.cache;
    B.SortSorts(b.active + [Fresh(n)]);
  }

  /** After a sign of life the id has age zero, is active if it was or if there is room, and
      cached otherwise; no other node changes. */
  lemma NodeActiveIs(b: B.Bucket, id: Id, k: nat, x: B.KNode)
    requires NoTwins(b.Nodes())
    ensures var r := B.NodeActive(b, id, k).0;
      (x in r.active <==> ActiveAfterSeen(b, id, k, x)) && (x in r.cache <==> CachedAfterSeen(b, id, k, x))
  {
    var i, j := B.FirstWith(b.active, id), B.FirstWith(b.cache, id);
    if i < |b.active| {
      SeenActive(b, id, k, i, x);
      assert b.active[i].(ticksLast := 0) == Fresh(b.active[i]);
    } else if j < |b.cache| {
      SeenCached(b, id, k, j, x);
    } else {
      B.FirstWithIs(b.active, id);
      B.FirstWithIs(b.cache, id);
      assert forall n :: n in b.active || n in b.cache ==> n.id != id;
    }
  }

  // ------------------------------------------------------------------ a tick

  /** The node one tick later. */
  ghost function Older(n: B.KNode): B.KNode { B.KNode(n.id, n.depth, n.ticksActive + 1, n.ticksLast + 1) }

  /** How many cached nodes age and are pinged: all in the root bucket, and elsewhere twice
      what is missing among the active ones. */
  ghost function Reached(b: B.Bucket, k: nat): int { if b.isRoot then |b.cache| else 2 * (k - |b.active|) }

  ghost predicate ActiveAfterTick(b: B.Bucket, c: B.Config, x: B.KNode) {
    exists n :: n in b.active && n.ticksLast + 1 < c.pingTimeout && x == Older(n)
  }

  ghost predicate CachedAfterTick(b: B.Bucket, c: B.Config, x: B.KNode) {
    exists i :: 0 <= i < |b.cache| && CacheSlot(b, c, i, x)
  }

  ghost predicate CacheSlot(b: B.Bucket, c: B.Config, i: nat, x: B.KNode)
    requires i < |b.cache|
  {
    if i < Reached(b, c.k) then b.cache[i].ticksLast + 1 < c.pingTimeout && x == Older(b.cache[i])
    else x == b.cache[i]
  }

  ghost predicate DeletedByTick(b: B.Bucket, c: B.Config, id: Id) {
    || (exists n :: n in b.active && n.id == id && n.ticksLast + 1 >= c.pingTimeout)
    || (exists i :: 0 <= i < |b.cache| && i < Reached(b, c.k)
          && b.cache[i].id == id && b.cache[i].ticksLast + 1 >= c.pingTimeout)
  }

  /** Active nodes are pinged whenever their age becomes a multiple of the interval; of the
      cached nodes those that are reached, whenever their age was one. */
  ghost predicate PingedByTick(b: B.Bucket, c: B.Config, id: Id)
    requires c.Ok()
  {
    || (exists n :: n in b.active && n.id == id && (n.ticksLast + 1) % c.pingInterval == 0)
    || (exists i :: 0 <= i < |b.cache| && i < Reached(b, c.k)
          && b.cache[i].id == id && b.cache[i].ticksLast % c.pingInterval == 0)
  }

  lemma {:induction false} PingActiveIs(s: seq<B.KNode>, c: B.Config, id: Id)
    requires c.Ok()
    ensures id in B.PingActive(s, c) <==> exists n :: n in s && n.id == id && (n.ticksLast + 1) % c.pingInterval == 0
  {
    if s != [] {
      PingActiveIs(s[..|s| - 1], c, id);
      assert s == s[..|s| - 1] + [s[|s| - 1]];
    }
  }

  lemma {:induction false} PingCachedIs(s: seq<B.KNode>, c: B.Config, id: Id)
    requires c.Ok()
    ensures id in B.PingCached(s, c) <==> exists n :: n in s && n.id == id && n.ticksLast % c.pingInterval == 0
  {
    if s != [] {
      PingCachedIs(s[..|s| - 1], c, id);
      assert s == s[..|s| - 1] + [s[|s| - 1]];
    }
  }

  lemma ReachedAt(b: B.Bucket, k: nat, n: B.KNode)
    requires b.isRoot || |b.active| <= k
    ensures n in B.Pinged(b, k) <==> exists i :: 0 <= i < |b.cache| && i < Reached(b, k) && b.cache[i] == n
  {
    var s := B.Pinged(b, k);
    if i :| 0 <= i < |s| && s[i] == n { assert b.cache[i] == n; }
    if i :| 0 <= i < |b.cache| && i < Reached(b, k) && b.cache[i] == n { assert s[i] == n; }
  }

  /** The report of a tick, written out. */
  lemma TickReportIs(b: B.Bucket, c: B.Config, id: Id)
    requires c.Ok() && (b.isRoot || |b.active| <= c.k)
    ensures id in B.TickReport(b, c).deleted <==> DeletedByTick(b, c, id)
    ensures id in B.TickReport(b, c).ping <==> PingedByTick(b, c, id)
  {
    var s := B.Pinged(b, c.k);
    B.ExpiredIs(b.active, c);
    B.ExpiredIs(s, c);
    PingActiveIs(b.active, c, id);
    PingCachedIs(s, c, id);
    forall n ensures n in s <==> exists i :: 0 <= i < |b.cache| && i < Reached(b, c.k) && b.cache[i] == n {
      ReachedAt(b, c.k, n);
    }
  }

  lemma ActiveSlotIs(b: B.Bucket, c: B.Config, i: nat)
    requires NoTwins(b.Nodes()) && c.Ok() && (b.isRoot || |b.active| <= c.k) && i < |b.active|
    ensures B.TickFirst(b.active, |b.active|)[i] == Older(b.active[i])
    ensures b.active[i].ticksLast + 1 < c.pingTimeout <==> b.active[i].id !in B.TickReport(b, c).deleted
  {
    TickReportIs(b, c, b.active[i].id);
    assert b.Nodes()[i] == b.active[i] && b.active[i] in b.active;
    OnlyHere(b, i, b.active[i].id);
  }

  lemma TickActiveIs(b: B.Bucket, c: B.Config, x: B.KNode)
    requires NoTwins(b.Nodes()) && c.Ok() && (b.isRoot || |b.active| <= c.k)
    ensures x in B.Tick(b, c).active <==> ActiveAfterTick(b, c, x)
  {
    B.RemoveIdsMembers(B.Aged(b, c.k), B.TickReport(b, c).deleted);
    var aged := B.TickFirst(b.active, |b.active|);
    forall i | 0 <= i < |b.active|
      ensures aged[i] == Older(b.active[i])
      ensures b.active[i].ticksLast + 1 < c.pingTimeout <==> b.active[i].id !in B.TickReport(b, c).deleted
    {
      ActiveSlotIs(b, c, i);
    }
    if x in aged {
      var i :| 0 <= i < |aged| && aged[i] == x;
      assert b.active[i] in b.active;
    }
    if n :| n in b.active && x == Older(n) {
      var i :| 0 <= i < |b.active| && b.active[i] == n;
      assert aged[i] == x;
    }
  }

  /** The node at a place is the only one with its id. */
  lemma OnlyHere(b: B.Bucket, i: nat, id: Id)
    requires NoTwins(b.Nodes()) && i < |b.Nodes()| && b.Nodes()[i].id == id
    ensures forall n :: n in b.active && n.id == id ==> i < |b.active| && n == b.active[i]
    ensures forall j :: 0 <= j < |b.cache| && b.cache[j].id == id ==> i == |b.active| + j
  {
    forall n | n in b.active && n.id == id ensures i < |b.active| && n == b.active[i] {
      var j :| 0 <= j < |b.active| && b.active[j] == n;
      assert b.Nodes()[j] == n;
    }
    forall j | 0 <= j < |b.cache| && b.cache[j].id == id ensures i == |b.active| + j {
      assert b.Nodes()[|b.active| + j] == b.cache[j];
    }
  }

  lemma CacheSlotIs(b: B.Bucket, c: B.Config, i: nat, x: B.KNode)
    requires NoTwins(b.Nodes()) && c.Ok() && (b.isRoot || |b.active| <= c.k) && i < |b.cache|
    ensures CacheSlot(b, c, i, x) <==>
      x == B.TickFirst(b.cache, B.FillUp(b, c.k))[i] && x.id !in B.TickReport(b, c).deleted
  {
    TickReportIs(b, c, b.cache[i].id);
    assert b.Nodes()[|b.active| + i] == b.cache[i];
    OnlyHere(b, |b.active| + i, b.cache[i].id);
  }

  lemma TickCacheIs(b: B.Bucket, c: B.Config, x: B.KNode)
    requires NoTwins(b.Nodes()) && c.Ok() && (b.isRoot || |b.active| <= c.k)
    ensures x in B.Tick(b, c).cache <==> CachedAfterTick(b, c, x)
  {
    B.RemoveIdsMembers(B.Aged(b, c.k), B.TickReport(b, c).deleted);
    var aged := B.TickFirst(b.cache, B.FillUp(b, c.k));
    forall i | 0 <= i < |b.cache|
      ensures CacheSlot(b, c, i, x) <==> x == aged[i] && x.id !in B.TickReport(b, c).deleted
    {
      CacheSlotIs(b, c, i, x);
    }
  }

  /** What a tick makes of every node of a bucket. */
  lemma TickIs(b: B.Bucket, c: B.Config, x: B.KNode)
    requires NoTwins(b.Nodes()) && c.Ok() && (b.isRoot || |b.active| <= c.k)
    ensures var r := B.Tick(b, c);
      (x in r.active <==> ActiveAfterTick(b, c, x)) && (x in r.cache <==> CachedAfterTick(b, c, x))
  {
    TickActiveIs(b, c, x);
    TickCacheIs(b, c, x);
  }

  // ------------------------------------------------------------ the whole table

  /** Some bucket of the table, the root bucket included. */
  ghost predicate PartOf(t: Table, b: B.Bucket) {
    b == t.rootBucket || exists i :: 0 <= i < |t.buckets| && b == t.buckets[i]
  }

  lemma {:induction false} ReportOfIs(bs: seq<B.Bucket>, c: B.Config, id: Id)
    requires c.Ok() && forall i :: 0 <= i < |bs| ==> |bs[i].active| <= c.k
    ensures id in ReportOf(bs, c).deleted <==> exists i :: 0 <= i < |bs| && DeletedByTick(bs[i], c, id)
    ensures id in ReportOf(bs, c).ping <==> exists i :: 0 <= i < |bs| && PingedByTick(bs[i], c, id)
  {
    if bs != [] {
      var n := |bs| - 1;
      ReportOfIs(bs[..n], c, id);
      TickReportIs(bs[n], c, id);
      assert forall i :: 0 <= i < n ==> bs[..n][i] == bs[i];
    }
  }

  /** The ids to ping and the ids to delete, over all buckets. */
  lemma TableReportIs(t: Table, id: Id)
    requires Inv(t)
    ensures id in TickReport(t).deleted <==> exists b :: PartOf(t, b) && DeletedByTick(b, t.config, id)
    ensures id in TickReport(t).ping <==> exists b :: PartOf(t, b) && PingedByTick(b, t.config, id)
  {
    ReportOfIs(t.buckets, t.config, id);
    TickReportIs(t.rootBucket, t.config, id);
    assert PartOf(t, t.rootBucket);
    forall i | 0 <= i < |t.buckets| ensures PartOf(t, t.buckets[i]) { }
  }
}
