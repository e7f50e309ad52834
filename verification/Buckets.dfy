/** One bucket of the Kademlia table as a value: what each KBucket method of
    dht_router/kademlia.rs does to the lists of active and cached nodes. */
module Buckets {
  import opened Prelude
  import opened NodeIds

  datatype KNode = KNode(id: Id, depth: nat, ticksActive: nat, ticksLast: nat)

  datatype Config = Config(k: nat, pingInterval: nat, pingTimeout: nat) {
    /** What the source needs: it divides by the interval and splits down to k nodes. */
    predicate Ok() { k >= 1 && pingInterval >= 1 && pingTimeout >= 1 }
  }

  datatype Bucket = Bucket(active: seq<KNode>, cache: seq<KNode>, isRoot: bool) {
    function Nodes(): seq<KNode> { active + cache }
  }

  datatype Status = Overflowing | Stable | Wanting

  datatype TickIds = TickIds(deleted: seq<Id>, ping: seq<Id>)

  /** A property of a node which time does not change. */
  type Kind = (Id, nat) -> bool

  /** How many nodes of s are of kind p. Lists with the same count for every
      kind hold the same nodes, whatever their order and age. */
  function Count(s: seq<KNode>, p: Kind): nat {
    if s == [] then 0
    else Count(s[..|s| - 1], p) + if p(s[|s| - 1].id, s[|s| - 1].depth) then 1 else 0
  }

  function Any(): Kind { (i: Id, d: nat) => true }

  function HasTheId(id: Id): Kind { (i: Id, d: nat) => i == id }

  function AtDepth(depth: nat): Kind { (i: Id, d: nat) => d == depth }

  function OffDepth(depth: nat): Kind { (i: Id, d: nat) => d != depth }

  predicate HasId(s: seq<KNode>, id: Id) { exists i :: 0 <= i < |s| && s[i].id == id }

  ghost predicate SortedByDepth(s: seq<KNode>) {
    forall i, j :: 0 <= i < j < |s| ==> s[i].depth <= s[j].depth
  }

  lemma {:induction false} CountConcat(a: seq<KNode>, b: seq<KNode>, p: Kind)
    ensures Count(a + b, p) == Count(a, p) + Count(b, p)
  {
    if b == [] {
      assert a + b == a;
    } else {
      assert (a + b)[..|a + b| - 1] == a + b[..|b| - 1];
      CountConcat(a, b[..|b| - 1], p);
    }
  }

  lemma CountOne(n: KNode, p: Kind)
    ensures Count([n], p) == if p(n.id, n.depth) then 1 else 0
  {
    assert [n][..0] == [];
  }

  lemma CountPush(s: seq<KNode>, n: KNode, p: Kind)
    ensures Count(s + [n], p) == Count(s, p) + if p(n.id, n.depth) then 1 else 0
  {
    assert (s + [n])[..|s|] == s;
  }

  lemma {:induction false} CountAny(s: seq<KNode>)
    ensures Count(s, Any()) == |s|
  {
    if s != [] { CountAny(s[..|s| - 1]); }
  }

  lemma {:induction false} CountOff(s: seq<KNode>, d: nat)
    ensures Count(s, OffDepth(d)) == |s| - Count(s, AtDepth(d))
  {
    if s != [] { CountOff(s[..|s| - 1], d); }
  }

  /** A kind is counted at all exactly when some node is of that kind. */
  lemma {:induction false} CountFinds(s: seq<KNode>, p: Kind)
    ensures Count(s, p) > 0 <==> exists n :: n in s && p(n.id, n.depth)
  {
    if s == [] {
    } else {
      var front, last := s[..|s| - 1], s[|s| - 1];
      assert s == front + [last];
      CountFinds(front, p);
    }
  }

  lemma {:induction false} SameCounts(a: seq<KNode>, b: seq<KNode>, p: Kind)
    requires |a| == |b|
    requires forall i :: 0 <= i < |a| ==> a[i].id == b[i].id && a[i].depth == b[i].depth
    ensures Count(a, p) == Count(b, p)
  {
    if a != [] { SameCounts(a[..|a| - 1], b[..|b| - 1], p); }
  }

  // ---------------------------------------------------------------- sorting

  /** The stable sort after a push: n goes behind every node that is not deeper. */
  function InsertByDepth(s: seq<KNode>, n: KNode): seq<KNode> {
    if s == [] || s[|s| - 1].depth <= n.depth then s + [n]
    else InsertByDepth(s[..|s| - 1], n) + [s[|s| - 1]]
  }

  function SortByDepth(s: seq<KNode>): seq<KNode> {
    if s == [] then [] else InsertByDepth(SortByDepth(s[..|s| - 1]), s[|s| - 1])
  }

  lemma {:induction false} InsertCounts(s: seq<KNode>, n: KNode, p: Kind)
    ensures Count(InsertByDepth(s, n), p) == Count(s + [n], p)
  {
    CountPush(s, n, p);
    if s == [] || s[|s| - 1].depth <= n.depth {
    } else {
      var front, last := s[..|s| - 1], s[|s| - 1];
      InsertCounts(front, n, p);
      CountPush(front, n, p);
      CountPush(InsertByDepth(front, n), last, p);
    }
  }

  lemma {:induction false} InsertMembers(s: seq<KNode>, n: KNode)
    ensures |InsertByDepth(s, n)| == |s| + 1
    ensures forall x :: x in InsertByDepth(s, n) <==> x in s || x == n
  {
    if s == [] || s[|s| - 1].depth <= n.depth {
    } else {
      InsertMembers(s[..|s| - 1], n);
      assert s == s[..|s| - 1] + [s[|s| - 1]];
    }
  }

  lemma {:induction false} InsertSorts(s: seq<KNode>, n: KNode)
    requires SortedByDepth(s)
    ensures SortedByDepth(InsertByDepth(s, n))
  {
    if s == [] || s[|s| - 1].depth <= n.depth {
    } else {
      var front, last := s[..|s| - 1], s[|s| - 1];
      InsertSorts(front, n);
      InsertMembers(front, n);
      var r := InsertByDepth(front, n);
      forall i | 0 <= i < |r| ensures r[i].depth <= last.depth {
        assert r[i] in r;
        assert r[i] in front || r[i] == n;
      }
    }
  }

  lemma {:induction false} SortCounts(s: seq<KNode>, p: Kind)
    ensures Count(SortByDepth(s), p) == Count(s, p)
  {
    if s != [] {
      SortCounts(s[..|s| - 1], p);
      InsertCounts(SortByDepth(s[..|s| - 1]), s[|s| - 1], p);
      CountPush(SortByDepth(s[..|s| - 1]), s[|s| - 1], p);
    }
  }

  lemma {:induction false} SortSorts(s: seq<KNode>)
    ensures SortedByDepth(SortByDepth(s)) && |SortByDepth(s)| == |s|
    ensures forall x :: x in SortByDepth(s) <==> x in s
  {
    if s == [] {
    } else {
      var front, last := s[..|s| - 1], s[|s| - 1];
      assert s == front + [last];
      SortSorts(front);
      InsertSorts(SortByDepth(front), last);
      InsertMembers(SortByDepth(front), last);
    }
  }

  // ----------------------------------------------------------------- status

  function MinDepth(s: seq<KNode>): nat
    requires s != []
  {
    if |s| == 1 then s[0].depth
    else Min(s[0].depth, MinDepth(s[1..]))
  }

  lemma {:induction false} MinDepthIs(s: seq<KNode>)
    requires s != []
    ensures exists n :: n in s && n.depth == MinDepth(s)
    ensures forall n :: n in s ==> MinDepth(s) <= n.depth
  {
    assert s[0] in s && s == [s[0]] + s[1..];
    if |s| > 1 {
      MinDepthIs(s[1..]);
    }
  }

  /** Fewer than k nodes are left once the shallowest depth is taken away. */
  predicate Imbalanced(s: seq<KNode>, k: nat) {
    s != [] && |s| - Count(s, AtDepth(MinDepth(s))) < k
  }

  function StatusOf(b: Bucket, k: nat): Status {
    var s := b.Nodes();
    if |s| >= 2 * k then (if Imbalanced(s, k) then Stable else Overflowing)
    else if |s| < k then Wanting else Stable
  }

  /** The status as the comments of the source give it. */
  function DocumentedStatus(b: Bucket, k: nat): Status {
    if |b.Nodes()| > 2 * k then Overflowing else if |b.Nodes()| < k then Wanting else Stable
  }

  /** The code disagrees exactly on balanced buckets of 2k nodes and imbalanced larger ones. */
  lemma StatusDisagreesIff(b: Bucket, k: nat)
    requires k >= 1
    ensures StatusOf(b, k) != DocumentedStatus(b, k) <==>
      (|b.Nodes()| == 2 * k && !Imbalanced(b.Nodes(), k)) || (|b.Nodes()| > 2 * k && Imbalanced(b.Nodes(), k))
  {
  }

  /** Two nodes of different depths overflow where one is wanted. */
  lemma OverflowsAtTwice(m: KNode, n: KNode)
    requires m.depth < n.depth
    ensures StatusOf(Bucket([m, n], [], true), 1) == Overflowing
    ensures DocumentedStatus(Bucket([m, n], [], true), 1) == Stable
  {
    var s := [m, n];
    assert Bucket([m, n], [], true).Nodes() == s && s == [m] + [n] && s[1..] == [n];
    assert MinDepth(s) == m.depth;
    CountPush([m], n, AtDepth(m.depth));
    CountOne(m, AtDepth(m.depth));
    StatusDisagreesIff(Bucket([m, n], [], true), 1);
  }

  ghost predicate Overflows(s: seq<KNode>, k: nat) { |s| >= 2 * k && !Imbalanced(s, k) }

  /** a holds no more nodes of any kind than b. */
  ghost predicate NoMore(a: seq<KNode>, b: seq<KNode>) {
    forall p: Kind :: Count(a, p) <= Count(b, p)
  }

  lemma CountShallowest(s: seq<KNode>, d: nat)
    requires s != []
    ensures Count(s, AtDepth(MinDepth(s))) > 0
    ensures Count(s, AtDepth(d)) > 0 ==> d >= MinDepth(s)
  {
    MinDepthIs(s);
    var m := MinDepth(s);
    var n :| n in s && n.depth == m;
    assert AtDepth(m)(n.id, n.depth);
    CountFinds(s, AtDepth(m));
    CountFinds(s, AtDepth(d));
  }

  lemma FewerStayBalanced(a: seq<KNode>, b: seq<KNode>, k: nat)
    requires k >= 1 && Imbalanced(b, k) && |a| >= k
    requires Count(a, OffDepth(MinDepth(b))) <= Count(b, OffDepth(MinDepth(b)))
    requires Count(a, AtDepth(MinDepth(a))) <= Count(b, AtDepth(MinDepth(a)))
    ensures Imbalanced(a, k)
  {
    CountOff(a, MinDepth(b));
    CountOff(b, MinDepth(b));
    CountShallowest(a, MinDepth(b));
    CountShallowest(b, MinDepth(a));
  }

  /** A bucket which does not overflow still does not after losing or reordering nodes. */
  lemma FewerNeverOverflow(a: seq<KNode>, b: seq<KNode>, k: nat)
    requires k >= 1 && !Overflows(b, k) && NoMore(a, b)
    ensures !Overflows(a, k)
  {
    CountAny(a);
    CountAny(b);
    assert Count(a, Any()) <= Count(b, Any());
    if |a| >= 2 * k {
      assert Count(a, OffDepth(MinDepth(b))) <= Count(b, OffDepth(MinDepth(b)));
      assert Count(a, AtDepth(MinDepth(a))) <= Count(b, AtDepth(MinDepth(a)));
      FewerStayBalanced(a, b, k);
    }
  }

  /** Fewer than k nodes joined by nodes of one shallower depth do not overflow. */
  lemma MergedNeverOverflow(few: seq<KNode>, shallow: seq<KNode>, all: seq<KNode>, d: nat, k: nat)
    requires |few| < k && forall n :: n in few ==> n.depth > d
    requires forall n :: n in shallow ==> n.depth == d
    requires forall p: Kind :: Count(all, p) == Count(few, p) + Count(shallow, p)
    ensures !Overflows(all, k)
  {
    CountAny(all);
    CountAny(few);
    CountAny(shallow);
    assert Count(all, Any()) == Count(few, Any()) + Count(shallow, Any());
    if |all| >= 2 * k {
      var m := MinDepth(all);
      CountShallowest(all, d);
      CountFinds(few, AtDepth(m));
      CountFinds(shallow, AtDepth(m));
      assert Count(all, AtDepth(m)) == Count(few, AtDepth(m)) + Count(shallow, AtDepth(m));
      assert m >= d;
      CountOff(shallow, d);
      CountFinds(shallow, OffDepth(d));
      assert Count(all, AtDepth(d)) == Count(few, AtDepth(d)) + Count(shallow, AtDepth(d));
      assert m == d;
      CountOff(all, d);
      CountOff(few, d);
      assert Count(all, OffDepth(d)) == Count(few, OffDepth(d)) + Count(shallow, OffDepth(d));
    }
  }

  // --------------------------------------------------------------- updates

  function AddNode(b: Bucket, n: KNode, k: nat): Bucket {
    if b.isRoot || |b.cache| < 2 * k then b.(cache := b.cache + [n]) else b
  }

  function AddNodes(b: Bucket, s: seq<KNode>, k: nat): Bucket {
    if s == [] then b else AddNode(AddNodes(b, s[..|s| - 1], k), s[|s| - 1], k)
  }

  function AddNodeActive(b: Bucket, n: KNode, k: nat): Bucket {
    if b.isRoot || |b.active| < k then b.(active := SortByDepth(b.active + [n]))
    else if |b.cache| < k then b.(cache := b.cache + [n])
    else b
  }

  function AddNodesActive(b: Bucket, s: seq<KNode>, k: nat): Bucket {
    if s == [] then b else AddNodeActive(AddNodesActive(b, s[..|s| - 1], k), s[|s| - 1], k)
  }

  function Without(s: seq<KNode>, ids: seq<Id>): seq<KNode> {
    if s == [] then []
    else Without(s[..|s| - 1], ids) + (if s[|s| - 1].id in ids then [] else [s[|s| - 1]])
  }

  function RemoveIds(b: Bucket, ids: seq<Id>): Bucket {
    b.(active := Without(b.active, ids), cache := Without(b.cache, ids))
  }

  /** The first at most n nodes of depth d, and everything else, both in order. */
  function Extract(s: seq<KNode>, d: nat, n: nat): (seq<KNode>, seq<KNode>) {
    if s == [] then ([], [])
    else if s[0].depth == d && n > 0 then
      var (taken, rest) := Extract(s[1..], d, n - 1);
      ([s[0]] + taken, rest)
    else
      var (taken, rest) := Extract(s[1..], d, n);
      (taken, [s[0]] + rest)
  }

  /** Takes out nodes of depth d, cached ones first, but leaves at least k nodes. */
  function ExtractDepth(b: Bucket, d: nat, k: nat): (seq<KNode>, seq<KNode>, Bucket) {
    var most := if |b.Nodes()| >= k then |b.Nodes()| - k else 0;
    var (cached, cacheRest) := Extract(b.cache, d, most);
    var (active, activeRest) := Extract(b.active, d, if |cached| <= most then most - |cached| else 0);
    (active, cached, b.(active := activeRest, cache := cacheRest))
  }

  function FirstWith(s: seq<KNode>, id: Id): (i: nat)
    ensures i <= |s| && (i < |s| ==> s[i].id == id)
  {
    if s == [] || s[0].id == id then 0 else FirstWith(s[1..], id) + 1
  }

  function Refresh(s: seq<KNode>, i: nat): seq<KNode>
    requires i < |s|
  {
    s[i := s[i].(ticksLast := 0)]
  }

  /** A cached node was seen: it becomes active if there is room. */
  function Promote(b: Bucket, j: nat, k: nat): (Bucket, bool)
    requires j < |b.cache|
  {
    var n := b.cache[j].(ticksLast := 0);
    var rest := b.cache[..j] + b.cache[j + 1..];
    if b.isRoot || |b.active| < k then
      (b.(active := SortByDepth(b.active + [n]), cache := rest), true)
    else (b.(cache := rest + [n]), false)
  }

  /** Marks id as seen now; the flag says whether a cached node became active. */
  function NodeActive(b: Bucket, id: Id, k: nat): (Bucket, bool) {
    var i := FirstWith(b.active, id);
    var j := FirstWith(b.cache, id);
    if i < |b.active| then (b.(active := Refresh(b.active, i)), false)
    else if j < |b.cache| then Promote(b, j, k)
    else (b, false)
  }

  // ----------------------------------------------------------------- ageing

  function TickNode(n: KNode): KNode {
    n.(ticksActive := n.ticksActive + 1, ticksLast := n.ticksLast + 1)
  }

  /** The first f nodes grow one tick older. */
  function TickFirst(s: seq<KNode>, f: nat): (r: seq<KNode>)
    ensures |r| == |s|
  {
    seq(|s|, i requires 0 <= i < |s| => if i < f then TickNode(s[i]) else s[i])
  }

  function PingActive(s: seq<KNode>, c: Config): seq<Id>
    requires c.Ok()
  {
    if s == [] then []
    else if (s[|s| - 1].ticksLast + 1) % c.pingInterval == 0 then PingActive(s[..|s| - 1], c) + [s[|s| - 1].id]
    else PingActive(s[..|s| - 1], c)
  }

  function PingCached(s: seq<KNode>, c: Config): seq<Id>
    requires c.Ok()
  {
    if s == [] then []
    else if s[|s| - 1].ticksLast % c.pingInterval == 0 then PingCached(s[..|s| - 1], c) + [s[|s| - 1].id]
    else PingCached(s[..|s| - 1], c)
  }

  function Expired(s: seq<KNode>, c: Config): seq<Id> {
    if s == [] then []
    else if s[|s| - 1].ticksLast + 1 >= c.pingTimeout then Expired(s[..|s| - 1], c) + [s[|s| - 1].id]
    else Expired(s[..|s| - 1], c)
  }

  /** How many cached nodes are pinged to fill up the active list. */
  function FillUp(b: Bucket, k: nat): nat
    requires b.isRoot || |b.active| <= k
  {
    if b.isRoot then |b.cache| else 2 * (k - |b.active|)
  }

  function Pinged(b: Bucket, k: nat): seq<KNode>
    requires b.isRoot || |b.active| <= k
  {
    if FillUp(b, k) <= |b.cache| then b.cache[..FillUp(b, k)] else b.cache
  }

  function TickReport(b: Bucket, c: Config): TickIds
    requires c.Ok() && (b.isRoot || |b.active| <= c.k)
  {
    TickIds(Expired(b.active, c) + Expired(Pinged(b, c.k), c),
            PingActive(b.active, c) + PingCached(Pinged(b, c.k), c))
  }

  function Tick(b: Bucket, c: Config): Bucket
    requires c.Ok() && (b.isRoot || |b.active| <= c.k)
  {
    RemoveIds(b.(active := TickFirst(b.active, |b.active|), cache := TickFirst(b.cache, FillUp(b, c.k))),
              TickReport(b, c).deleted)
  }

  // ------------------------------------------------- what the updates keep

  lemma CountNodes(b: Bucket, p: Kind)
    ensures Count(b.Nodes(), p) == Count(b.active, p) + Count(b.cache, p)
  {
    CountConcat(b.active, b.cache, p);
  }

  lemma {:induction false} AddNodesMembers(b: Bucket, s: seq<KNode>, k: nat)
    ensures var r := AddNodes(b, s, k);
      && r.active == b.active && r.isRoot == b.isRoot
      && (forall n :: n in r.cache ==> n in b.cache || n in s)
      && (!b.isRoot && |b.cache| <= 2 * k ==> |r.cache| <= 2 * k)
  {
    if s != [] {
      assert s == s[..|s| - 1] + [s[|s| - 1]];
      AddNodesMembers(b, s[..|s| - 1], k);
    }
  }

  lemma {:induction false} AddNodesCounts(b: Bucket, s: seq<KNode>, k: nat, p: Kind)
    ensures var r := AddNodes(b, s, k);
      && Count(r.Nodes(), p) <= Count(b.Nodes(), p) + Count(s, p)
      && (b.isRoot ==> Count(r.Nodes(), p) == Count(b.Nodes(), p) + Count(s, p))
  {
    if s != [] {
      var r := AddNodes(b, s[..|s| - 1], k);
      AddNodesCounts(b, s[..|s| - 1], k, p);
      AddNodesMembers(b, s[..|s| - 1], k);
      CountNodes(r, p);
      CountPush(r.cache, s[|s| - 1], p);
      CountNodes(AddNodes(b, s, k), p);
    }
  }

  lemma AddNodeActiveMembers(b: Bucket, n: KNode, k: nat)
    ensures var r := AddNodeActive(b, n, k);
      && r.isRoot == b.isRoot
      && (forall x :: x in r.active ==> x in b.active || x == n)
      && (forall x :: x in r.cache ==> x in b.cache || x == n)
      && (b.isRoot ==> r.cache == b.cache)
      && (SortedByDepth(b.active) ==> SortedByDepth(r.active))
      && (!b.isRoot && |b.active| <= k ==> |r.active| <= k)
      && (!b.isRoot && |b.cache| <= 2 * k ==> |r.cache| <= 2 * k)
  {
    SortSorts(b.active + [n]);
  }

  lemma AddNodeActiveCounts(b: Bucket, n: KNode, k: nat, p: Kind)
    ensures var r := AddNodeActive(b, n, k);
      && Count(r.Nodes(), p) <= Count(b.Nodes() + [n], p)
      && (b.isRoot ==> Count(r.Nodes(), p) == Count(b.Nodes() + [n], p))
  {
    CountNodes(b, p);
    CountNodes(AddNodeActive(b, n, k), p);
    SortCounts(b.active + [n], p);
    CountPush(b.active, n, p);
    CountPush(b.cache, n, p);
    CountPush(b.Nodes(), n, p);
  }

  lemma {:induction false} AddNodesActiveMembers(b: Bucket, s: seq<KNode>, k: nat)
    ensures var r := AddNodesActive(b, s, k);
      && r.isRoot == b.isRoot
      && (forall x :: x in r.active ==> x in b.active || x in s)
      && (forall x :: x in r.cache ==> x in b.cache || x in s)
      && (b.isRoot ==> r.cache == b.cache)
      && (SortedByDepth(b.active) ==> SortedByDepth(r.active))
      && (!b.isRoot && |b.active| <= k ==> |r.active| <= k)
      && (!b.isRoot && |b.cache| <= 2 * k ==> |r.cache| <= 2 * k)
  {
    if s != [] {
      assert s == s[..|s| - 1] + [s[|s| - 1]];
      AddNodesActiveMembers(b, s[..|s| - 1], k);
      AddNodeActiveMembers(AddNodesActive(b, s[..|s| - 1], k), s[|s| - 1], k);
    }
  }

  lemma {:induction false} AddNodesActiveCounts(b: Bucket, s: seq<KNode>, k: nat, p: Kind)
    ensures var r := AddNodesActive(b, s, k);
      && Count(r.Nodes(), p) <= Count(b.Nodes(), p) + Count(s, p)
      && (b.isRoot ==> Count(r.Nodes(), p) == Count(b.Nodes(), p) + Count(s, p))
  {
    if s != [] {
      var front, last := s[..|s| - 1], s[|s| - 1];
      AddNodesActiveCounts(b, front, k, p);
      AddNodesActiveMembers(b, front, k);
      AddNodeActiveCounts(AddNodesActive(b, front, k), last, k, p);
      CountPush(AddNodesActive(b, front, k).Nodes(), last, p);
    }
  }

  lemma {:induction false} WithoutMembers(s: seq<KNode>, ids: seq<Id>)
    ensures forall n :: n in Without(s, ids) <==> n in s && n.id !in ids
    ensures |Without(s, ids)| <= |s|
  {
    if s != [] {
      WithoutMembers(s[..|s| - 1], ids);
      assert s == s[..|s| - 1] + [s[|s| - 1]];
    }
  }

  lemma {:induction false} WithoutCounts(s: seq<KNode>, ids: seq<Id>, p: Kind)
    ensures Count(Without(s, ids), p) <= Count(s, p)
  {
    if s != [] {
      WithoutCounts(s[..|s| - 1], ids, p);
      CountPush(Without(s[..|s| - 1], ids), s[|s| - 1], p);
      assert Without(s[..|s| - 1], ids) + [] == Without(s[..|s| - 1], ids);
    }
  }

  lemma {:induction false} WithoutSorted(s: seq<KNode>, ids: seq<Id>)
    requires SortedByDepth(s)
    ensures SortedByDepth(Without(s, ids))
  {
    if s != [] {
      var front, last := s[..|s| - 1], s[|s| - 1];
      WithoutSorted(front, ids);
      WithoutMembers(front, ids);
      var r := Without(front, ids);
      forall i | 0 <= i < |r| ensures r[i].depth <= last.depth {
        assert r[i] in r && r[i] in front;
      }
    }
  }

  lemma RemoveIdsMembers(b: Bucket, ids: seq<Id>)
    ensures var r := RemoveIds(b, ids);
      && (forall n :: n in r.active <==> n in b.active && n.id !in ids)
      && (forall n :: n in r.cache <==> n in b.cache && n.id !in ids)
      && |r.active| <= |b.active| && |r.cache| <= |b.cache|
      && (SortedByDepth(b.active) ==> SortedByDepth(r.active))
  {
    WithoutMembers(b.active, ids);
    WithoutMembers(b.cache, ids);
    if SortedByDepth(b.active) { WithoutSorted(b.active, ids); }
  }

  lemma RemoveIdsCounts(b: Bucket, ids: seq<Id>, p: Kind)
    ensures Count(RemoveIds(b, ids).Nodes(), p) <= Count(b.Nodes(), p)
  {
    WithoutCounts(b.active, ids, p);
    WithoutCounts(b.cache, ids, p);
    CountNodes(b, p);
    CountNodes(RemoveIds(b, ids), p);
  }

  lemma {:induction false} ExtractCounts(s: seq<KNode>, d: nat, n: nat, p: Kind)
    ensures var (taken, rest) := Extract(s, d, n);
      Count(taken, p) + Count(rest, p) == Count(s, p)
  {
    if s != [] {
      var head, tail := s[0], s[1..];
      assert s == [head] + tail;
      var m := if head.depth == d && n > 0 then n - 1 else n;
      ExtractCounts(tail, d, m, p);
      CountConcat([head], tail, p);
      CountConcat([head], Extract(tail, d, m).0, p);
      CountConcat([head], Extract(tail, d, m).1, p);
    }
  }

  lemma {:induction false} ExtractMembers(s: seq<KNode>, d: nat, n: nat)
    ensures var (taken, rest) := Extract(s, d, n);
      && (forall x :: x in taken ==> x in s && x.depth == d)
      && (forall x :: x in rest ==> x in s)
      && |taken| <= n && |taken| + |rest| == |s|
      && (|taken| < n ==> forall x :: x in rest ==> x.depth != d)
  {
    if s != [] {
      assert s == [s[0]] + s[1..];
      ExtractMembers(s[1..], d, if s[0].depth == d && n > 0 then n - 1 else n);
    }
  }

  lemma {:induction false} ExtractSorted(s: seq<KNode>, d: nat, n: nat)
    requires SortedByDepth(s)
    ensures SortedByDepth(Extract(s, d, n).1)
  {
    if s == [] {
    } else if s[0].depth == d && n > 0 {
      ExtractSorted(s[1..], d, n - 1);
    } else {
      ExtractSorted(s[1..], d, n);
      ExtractMembers(s[1..], d, n);
      var rest := Extract(s[1..], d, n).1;
      forall i | 0 <= i < |rest| ensures s[0].depth <= rest[i].depth {
        assert rest[i] in rest && rest[i] in s[1..];
      }
    }
  }

  lemma ExtractDepthCounts(b: Bucket, d: nat, k: nat, p: Kind)
    ensures var (active, cached, rest) := ExtractDepth(b, d, k);
      Count(active, p) + Count(cached, p) + Count(rest.Nodes(), p) == Count(b.Nodes(), p)
  {
    var (active, cached, rest) := ExtractDepth(b, d, k);
    ExtractDepthParts(b, d, k, p);
    CountNodes(b, p);
    CountNodes(rest, p);
  }

  lemma ExtractDepthParts(b: Bucket, d: nat, k: nat, p: Kind)
    ensures var (active, cached, rest) := ExtractDepth(b, d, k);
      && Count(active, p) + Count(rest.active, p) == Count(b.active, p)
      && Count(cached, p) + Count(rest.cache, p) == Count(b.cache, p)
  {
    var most := if |b.Nodes()| >= k then |b.Nodes()| - k else 0;
    var cached := Extract(b.cache, d, most).0;
    ExtractCounts(b.cache, d, most, p);
    ExtractCounts(b.active, d, if |cached| <= most then most - |cached| else 0, p);
  }

  lemma ExtractDepthMembers(b: Bucket, d: nat, k: nat)
    ensures var (active, cached, rest) := ExtractDepth(b, d, k);
      && rest.isRoot == b.isRoot
      && (forall x :: x in active ==> x in b.active && x.depth == d)
      && (forall x :: x in cached ==> x in b.cache && x.depth == d)
      && (forall x :: x in rest.active ==> x in b.active)
      && (forall x :: x in rest.cache ==> x in b.cache)
      && (SortedByDepth(b.active) ==> SortedByDepth(rest.active))
      && |active| + |cached| + |rest.Nodes()| == |b.Nodes()|
      && (|b.Nodes()| >= k ==> |rest.Nodes()| >= k)
      && (|rest.Nodes()| > k ==> forall x :: x in rest.Nodes() ==> x.depth != d)
      && (active != [] ==> forall x :: x in rest.cache ==> x.depth != d)
  {
    var most := if |b.Nodes()| >= k then |b.Nodes()| - k else 0;
    ExtractMembers(b.cache, d, most);
    var cached := Extract(b.cache, d, most).0;
    ExtractMembers(b.active, d, most - |cached|);
    if SortedByDepth(b.active) { ExtractSorted(b.active, d, most - |cached|); }
  }

  lemma WithoutOneCounts(s: seq<KNode>, j: nat, n: KNode, p: Kind)
    requires j < |s| && n.id == s[j].id && n.depth == s[j].depth
    ensures Count(s[..j] + s[j + 1..], p) + Count([n], p) == Count(s, p)
  {
    var front, back := s[..j], s[j + 1..];
    assert s == (front + [s[j]]) + back;
    CountConcat(front + [s[j]], back, p);
    CountPush(front, s[j], p);
    CountConcat(front, back, p);
    CountOne(n, p);
  }

  lemma WithoutOneMembers(s: seq<KNode>, j: nat)
    requires j < |s|
    ensures forall x :: x in s[..j] + s[j + 1..] ==> x in s
  {
  }

  lemma PushSortedCounts(s: seq<KNode>, n: KNode, p: Kind)
    ensures Count(SortByDepth(s + [n]), p) == Count(s, p) + Count([n], p)
    ensures Count(s + [n], p) == Count(s, p) + Count([n], p)
  {
    SortCounts(s + [n], p);
    CountConcat(s, [n], p);
  }

  lemma PromoteCounts(b: Bucket, j: nat, k: nat, p: Kind)
    requires j < |b.cache|
    ensures Count(Promote(b, j, k).0.Nodes(), p) == Count(b.Nodes(), p)
  {
    var n := b.cache[j].(ticksLast := 0);
    var rest := b.cache[..j] + b.cache[j + 1..];
    CountNodes(b, p);
    CountNodes(Promote(b, j, k).0, p);
    WithoutOneCounts(b.cache, j, n, p);
    PushSortedCounts(b.active, n, p);
    PushSortedCounts(rest, n, p);
  }

  /** Being seen moves nodes between the lists, but neither adds nor loses any. */
  lemma NodeActiveCounts(b: Bucket, id: Id, k: nat, p: Kind)
    ensures Count(NodeActive(b, id, k).0.Nodes(), p) == Count(b.Nodes(), p)
  {
    var i := FirstWith(b.active, id);
    var j := FirstWith(b.cache, id);
    if i < |b.active| {
      CountNodes(b, p);
      CountNodes(b.(active := Refresh(b.active, i)), p);
      SameCounts(Refresh(b.active, i), b.active, p);
    } else if j < |b.cache| {
      PromoteCounts(b, j, k, p);
    }
  }

  lemma {:induction false} FirstWithIs(s: seq<KNode>, id: Id)
    ensures FirstWith(s, id) < |s| <==> HasId(s, id)
  {
    if s != [] && s[0].id != id {
      FirstWithIs(s[1..], id);
      assert s == [s[0]] + s[1..];
      if HasId(s, id) {
        var i :| 0 <= i < |s| && s[i].id == id;
        assert s[1..][i - 1].id == id;
      }
    }
  }

  lemma NodeActiveShape(b: Bucket, id: Id, k: nat)
    ensures var r := NodeActive(b, id, k).0;
      && r.isRoot == b.isRoot
      && (SortedByDepth(b.active) ==> SortedByDepth(r.active))
      && (!b.isRoot && |b.active| <= k ==> |r.active| <= k)
      && |r.cache| <= |b.cache|
  {
    var j := FirstWith(b.cache, id);
    if j < |b.cache| {
      SortSorts(b.active + [b.cache[j].(ticksLast := 0)]);
    }
  }

  lemma NodeActiveSeen(b: Bucket, id: Id, k: nat, x: KNode)
    requires x in NodeActive(b, id, k).0.active
    ensures x in b.active || (x.id == id && x.ticksLast == 0)
  {
    var j := FirstWith(b.cache, id);
    if j < |b.cache| {
      SortSorts(b.active + [b.cache[j].(ticksLast := 0)]);
    }
  }

  lemma NodeActiveOrigin(b: Bucket, id: Id, k: nat, x: KNode) returns (y: KNode)
    requires x in NodeActive(b, id, k).0.Nodes()
    ensures y in b.Nodes() && y.id == x.id && y.depth == x.depth
  {
    var i := FirstWith(b.active, id);
    var j := FirstWith(b.cache, id);
    if x in b.active || x in b.cache {
      y := x;
    } else if i < |b.active| {
      y := b.active[i];
    } else {
      y := b.cache[j];
      SortSorts(b.active + [b.cache[j].(ticksLast := 0)]);
      WithoutOneMembers(b.cache, j);
    }
  }

  /** The answer tells whether the node just became active. */
  lemma NodeActiveMoved(b: Bucket, id: Id, k: nat)
    ensures var (r, moved) := NodeActive(b, id, k);
      moved <==> !HasId(b.active, id) && HasId(r.active, id)
  {
    FirstWithIs(b.active, id);
    var (i, j) := (FirstWith(b.active, id), FirstWith(b.cache, id));
    if i == |b.active| && j < |b.cache| && (b.isRoot || |b.active| < k) {
      var n := b.cache[j].(ticksLast := 0);
      SortSorts(b.active + [n]);
      assert n in SortByDepth(b.active + [n]);
    }
  }

  lemma {:induction false} ExpiredIs(s: seq<KNode>, c: Config)
    ensures forall n :: n in s && n.ticksLast + 1 >= c.pingTimeout ==> n.id in Expired(s, c)
    ensures forall id :: id in Expired(s, c) ==>
      exists n :: n in s && n.id == id && n.ticksLast + 1 >= c.pingTimeout
  {
    if s != [] {
      ExpiredIs(s[..|s| - 1], c);
      assert s == s[..|s| - 1] + [s[|s| - 1]];
    }
  }

  lemma TickFirstMembers(s: seq<KNode>, f: nat)
    ensures forall x :: x in TickFirst(s, f) ==> exists y :: y in s && (x == y || x == TickNode(y))
    ensures f >= |s| ==> forall x :: x in TickFirst(s, f) ==> exists y :: y in s && x == TickNode(y)
  {
    var r := TickFirst(s, f);
    forall x | x in r
      ensures exists y :: y in s && (x == y || x == TickNode(y))
      ensures f >= |s| ==> exists y :: y in s && x == TickNode(y)
    {
      var i :| 0 <= i < |r| && r[i] == x;
      assert s[i] in s;
    }
  }

  ghost function Aged(b: Bucket, k: nat): Bucket
    requires b.isRoot || |b.active| <= k
  {
    b.(active := TickFirst(b.active, |b.active|), cache := TickFirst(b.cache, FillUp(b, k)))
  }

  lemma TickCounts(b: Bucket, c: Config, p: Kind)
    requires c.Ok() && (b.isRoot || |b.active| <= c.k)
    ensures Count(Tick(b, c).Nodes(), p) <= Count(b.Nodes(), p)
  {
    SameCounts(Aged(b, c.k).Nodes(), b.Nodes(), p);
    RemoveIdsCounts(Aged(b, c.k), TickReport(b, c).deleted, p);
  }

  lemma TickMembers(b: Bucket, c: Config)
    requires c.Ok() && (b.isRoot || |b.active| <= c.k)
    ensures var r := Tick(b, c);
      && r.isRoot == b.isRoot
      && |r.active| <= |b.active| && |r.cache| <= |b.cache|
      && (SortedByDepth(b.active) ==> SortedByDepth(r.active))
      && (forall x :: x in r.Nodes() ==> x.id !in TickReport(b, c).deleted)
  {
    RemoveIdsMembers(Aged(b, c.k), TickReport(b, c).deleted);
  }

  lemma TickActive(b: Bucket, c: Config, x: KNode) returns (y: KNode)
    requires c.Ok() && (b.isRoot || |b.active| <= c.k)
    requires x in Tick(b, c).active
    ensures y in b.active && x == TickNode(y) && x.ticksLast < c.pingTimeout
  {
    TickFirstMembers(b.active, |b.active|);
    RemoveIdsMembers(Aged(b, c.k), TickReport(b, c).deleted);
    ExpiredIs(b.active, c);
    y :| y in b.active && x == TickNode(y);
    assert x.id !in Expired(b.active, c);
  }

  lemma TickOrigin(b: Bucket, c: Config, x: KNode) returns (y: KNode)
    requires c.Ok() && (b.isRoot || |b.active| <= c.k)
    requires x in Tick(b, c).Nodes()
    ensures y in b.Nodes() && y.id == x.id && y.depth == x.depth
  {
    TickFirstMembers(b.active, |b.active|);
    TickFirstMembers(b.cache, FillUp(b, c.k));
    RemoveIdsMembers(Aged(b, c.k), TickReport(b, c).deleted);
    if x in Tick(b, c).active {
      y :| y in b.active && x == TickNode(y);
    } else {
      y :| y in b.cache && (x == y || x == TickNode(y));
    }
  }
}
