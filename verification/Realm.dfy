/** The size-bounded store of a realm (dht_storage/core.rs), as a value: what every
    operation keeps, what is evicted, and which flos survive. */
module Realm {
  import opened Prelude
  import opened NodeIds

  datatype Cuckoo = Duration(t: nat) | Parent(id: Id) | NoCuckoo

  datatype Flo = Flo(id: Id, realm: Id, version: nat, cuckoo: Cuckoo, data: string)

  datatype FloStorage = FloStorage(flo: Flo, cuckoos: seq<Id>, created: int)

  /** The realm and its bound; how near an id is to the node; the sizes of serialised values. */
  datatype Config = Config(
    realmId: Id, maxSpace: nat, depth: Id -> nat, floSize: Flo -> nat, entrySize: FloStorage -> nat)

  datatype Store = Store(flos: map<Id, FloStorage>, distances: map<nat, seq<Id>>, size: int)

  // ------------------------------------------------------------------ sizes

  function Bytes(c: Config, flos: map<Id, FloStorage>, id: Id): nat {
    if id in flos then c.entrySize(flos[id]) else 0
  }

  ghost function Weight(c: Config, flos: map<Id, FloStorage>, s: set<Id>): nat
    decreases |s|
  {
    if s == {} then 0
    else var x :| x in s; Bytes(c, flos, x) + Weight(c, flos, s - {x})
  }

  lemma {:induction false} WeightWithout(c: Config, flos: map<Id, FloStorage>, s: set<Id>, x: Id)
    requires x in s
    ensures Weight(c, flos, s) == Bytes(c, flos, x) + Weight(c, flos, s - {x})
    decreases |s|
  {
    var y :| y in s && Weight(c, flos, s) == Bytes(c, flos, y) + Weight(c, flos, s - {y});
    if y != x {
      WeightWithout(c, flos, s - {y}, x);
      WeightWithout(c, flos, s - {x}, y);
      assert s - {y} - {x} == s - {x} - {y};
    }
  }

  lemma {:induction false} WeightSame(c: Config, a: map<Id, FloStorage>, b: map<Id, FloStorage>, s: set<Id>)
    requires forall x :: x in s ==> Bytes(c, a, x) == Bytes(c, b, x)
    ensures Weight(c, a, s) == Weight(c, b, s)
    decreases |s|
  {
    if x :| x in s {
      WeightSame(c, a, b, s - {x});
      WeightWithout(c, a, s, x);
      WeightWithout(c, b, s, x);
    }
  }

  lemma {:induction false} WeightSum(c: Config, flos: map<Id, FloStorage>, s: set<Id>, t: set<Id>)
    requires s !! t
    ensures Weight(c, flos, s + t) == Weight(c, flos, s) + Weight(c, flos, t)
    decreases |s|
  {
    if x :| x in s {
      WeightSum(c, flos, s - {x}, t);
      WeightWithout(c, flos, s, x);
      WeightWithout(c, flos, s + t, x);
      assert s + t - {x} == s - {x} + t;
    } else {
      assert s + t == t;
    }
  }

  // --------------------------------------------------------------- invariant

  /** The distances list every stored flo once, under its own depth, and nothing else. */
  ghost predicate Listed(c: Config, flos: map<Id, FloStorage>, distances: map<nat, seq<Id>>) {
    && (forall id :: id in flos ==>
          c.depth(id) in distances && id in distances[c.depth(id)])
    && (forall d, id :: d in distances && id in distances[d] ==> id in flos && c.depth(id) == d)
    && (forall d :: d in distances ==> Distinct(distances[d]))
  }

  ghost predicate Inv(c: Config, st: Store) {
    && (forall id :: id in st.flos ==> st.flos[id].flo.id == id)
    && Listed(c, st.flos, st.distances)
    && st.size == Weight(c, st.flos, st.flos.Keys)
  }

  // -------------------------------------------------------------- operations

  lemma {:induction false} ExceptDistinct(ids: seq<Id>, id: Id)
    requires Distinct(ids)
    ensures Distinct(Except(ids, id))
  {
    if ids != [] {
      ExceptDistinct(ids[1..], id);
      assert ids[0] !in ids[1..];
    }
  }

  function DistancesWithout(distances: map<nat, seq<Id>>, d: nat, id: Id): map<nat, seq<Id>> {
    if d in distances then distances[d := Except(distances[d], id)] else distances
  }

  function DistancesWith(distances: map<nat, seq<Id>>, d: nat, id: Id): map<nat, seq<Id>> {
    distances[d := (if d in distances then distances[d] else []) + [id]]
  }

  function RemoveEntry(c: Config, st: Store, id: Id): Store {
    if id !in st.flos then st
    else Store(st.flos - {id}, DistancesWithout(st.distances, c.depth(id), id), st.size - Bytes(c, st.flos, id))
  }

  /** Replaces the whole entry: known cuckoos are forgotten. */
  function Put(c: Config, st: Store, flo: Flo, now: int): Store {
    var s := RemoveEntry(c, st, flo.id);
    var e := FloStorage(flo, [], now);
    Store(s.flos[flo.id := e], DistancesWith(s.distances, c.depth(flo.id), flo.id), s.size + c.entrySize(e))
  }

  function StoreCuckooId(c: Config, st: Store, parent: Id, cuckoo: Id): Store {
    if parent !in st.flos || cuckoo in st.flos[parent].cuckoos then st
    else
      var e := st.flos[parent];
      var grown := e.(cuckoos := e.cuckoos + [cuckoo]);
      st.(flos := st.flos[parent := grown], size := st.size - c.entrySize(e) + c.entrySize(grown))
  }

  function StoreParent(c: Config, st: Store, flo: Flo): Store {
    if flo.cuckoo.Parent? then StoreCuckooId(c, st, flo.cuckoo.id, flo.id) else st
  }

  /** The stored flos other than the realm's own. */
  ghost function Others(c: Config, st: Store): set<Id> { st.flos.Keys - {c.realmId} }

  /** The stored flos strictly farther from the node than depth d. */
  ghost function Farther(c: Config, s: set<Id>, d: nat): set<Id> { set id | id in s && c.depth(id) < d }

  function LastOther(ids: seq<Id>, realmId: Id): (r: Option<Id>)
    ensures r.None? ==> forall id :: id in ids ==> id == realmId
    ensures r.Some? ==> r.value in ids && r.value != realmId
  {
    if ids == [] then None
    else if ids[|ids| - 1] != realmId then Some(ids[|ids| - 1])
    else
      assert ids == ids[..|ids| - 1] + [realmId];
      LastOther(ids[..|ids| - 1], realmId)
  }

  /** The one to go first: the last listed of the farthest that are not the realm's. */
  ghost predicate IsFurthest(c: Config, st: Store, id: Id) {
    var d := c.depth(id);
    && id in Others(c, st) && d in st.distances && LastOther(st.distances[d], c.realmId) == Some(id)
    && forall x :: x in Others(c, st) ==> d <= c.depth(x)
  }

  ghost function RemoveFurthest(c: Config, st: Store): Store {
    if id :| IsFurthest(c, st, id) then RemoveEntry(c, st, id) else st
  }

  /** The eviction loop. It stops at the bound, or when nothing is left that may go; in
      the latter case the loop of the source goes on for ever. */
  ghost function Evict(c: Config, st: Store): Store
    decreases |st.flos|
  {
    if st.size <= c.maxSpace then st
    else if id :| IsFurthest(c, st, id) then
      assert |st.flos| == |(st.flos - {id}).Keys + {id}| by { assert st.flos.Keys == (st.flos - {id}).Keys + {id}; }
      Evict(c, RemoveEntry(c, st, id))
    else st
  }

  ghost function Above(c: Config, st: Store, id: Id): nat {
    Weight(c, st.flos, Farther(c, st.flos.Keys, c.depth(id)))
  }

  ghost predicate TooBig(c: Config, flo: Flo) { c.floSize(flo) * 3 > c.maxSpace }

  /** Whether upsert_flo puts a flo, after it was noted at its parent. */
  ghost predicate Accepts(c: Config, st: Store, flo: Flo, now: int) {
    if flo.id in st.flos then st.flos[flo.id].flo.version < flo.version
    else
      var size := c.entrySize(FloStorage(flo, [], now));
      st.size + size <= c.maxSpace || size <= Above(c, st, flo.id)
  }

  /** The store of upsert_flo before it evicts. */
  ghost function Stored(c: Config, st: Store, flo: Flo, now: int): Store {
    var s := StoreParent(c, st, flo);
    if Accepts(c, s, flo, now) then Put(c, s, flo, now) else s
  }

  ghost function UpsertFlo(c: Config, st: Store, flo: Flo, now: int): Store {
    if TooBig(c, flo) then st else Evict(c, Stored(c, st, flo, now))
  }

  /** The eviction that a flo may cause comes to an end (see EvictFits). */
  ghost predicate EvictionEnds(c: Config, st: Store, flo: Flo, now: int) {
    TooBig(c, flo) || Bytes(c, Stored(c, st, flo, now).flos, c.realmId) <= c.maxSpace
  }

  /** What upsert_flo answers: a refused new flo counts as stored. */
  predicate UpsertAnswer(c: Config, st: Store, flo: Flo) {
    && c.floSize(flo) * 3 <= c.maxSpace
    && (flo.id in st.flos ==> st.flos[flo.id].flo.version < flo.version)
  }

  // ------------------------------------------------------ keeping the invariant

  lemma RemoveEntryInv(c: Config, st: Store, id: Id)
    requires Inv(c, st)
    ensures Inv(c, RemoveEntry(c, st, id))
  {
    if id in st.flos {
      var r := RemoveEntry(c, st, id);
      assert r.flos.Keys == st.flos.Keys - {id};
      WeightWithout(c, st.flos, st.flos.Keys, id);
      WeightSame(c, st.flos, r.flos, r.flos.Keys);
      ListedWithout(c, st, id);
    }
  }

  lemma ListedWithout(c: Config, s: Store, id: Id)
    requires Listed(c, s.flos, s.distances) && id in s.flos
    ensures Listed(c, s.flos - {id}, DistancesWithout(s.distances, c.depth(id), id))
  {
    ExceptDistinct(s.distances[c.depth(id)], id);
  }

  lemma PutInv(c: Config, st: Store, flo: Flo, now: int)
    requires Inv(c, st)
    ensures Inv(c, Put(c, st, flo, now))
  {
    RemoveEntryInv(c, st, flo.id);
    var s, r := RemoveEntry(c, st, flo.id), Put(c, st, flo, now);
    assert r.flos.Keys - {flo.id} == s.flos.Keys;
    WeightWithout(c, r.flos, r.flos.Keys, flo.id);
    WeightSame(c, s.flos, r.flos, s.flos.Keys);
    ListedWith(c, s, flo.id, r.flos);
  }

  lemma ListedWith(c: Config, s: Store, id: Id, flos: map<Id, FloStorage>)
    requires Listed(c, s.flos, s.distances) && id !in s.flos && flos.Keys == s.flos.Keys + {id}
    ensures Listed(c, flos, DistancesWith(s.distances, c.depth(id), id))
  {
    var d := c.depth(id);
    if d in s.distances {
      assert id !in s.distances[d];
    }
  }

  lemma StoreCuckooIdInv(c: Config, st: Store, parent: Id, cuckoo: Id)
    requires Inv(c, st)
    ensures var r := StoreCuckooId(c, st, parent, cuckoo);
      && Inv(c, r) && r.flos.Keys == st.flos.Keys
      && (forall id :: id in st.flos && id != parent ==> r.flos[id] == st.flos[id])
      && (parent in st.flos ==> r.flos[parent].flo == st.flos[parent].flo && cuckoo in r.flos[parent].cuckoos)
  {
    var r := StoreCuckooId(c, st, parent, cuckoo);
    StoreCuckooIdEntries(c, st, parent, cuckoo);
    ListedSame(c, st.flos, r.flos, st.distances);
    if r != st { WeightChanged(c, st.flos, r.flos, parent); }
  }

  lemma StoreCuckooIdEntries(c: Config, st: Store, parent: Id, cuckoo: Id)
    ensures var r := StoreCuckooId(c, st, parent, cuckoo);
      && r.flos.Keys == st.flos.Keys && r.distances == st.distances
      && (forall id :: id in st.flos && id != parent ==> r.flos[id] == st.flos[id])
      && (parent in st.flos ==> r.flos[parent].flo == st.flos[parent].flo && cuckoo in r.flos[parent].cuckoos)
  {
  }

  lemma ListedSame(c: Config, a: map<Id, FloStorage>, b: map<Id, FloStorage>, distances: map<nat, seq<Id>>)
    requires Listed(c, a, distances) && a.Keys == b.Keys
    ensures Listed(c, b, distances)
  {
    forall id ensures id in a <==> id in b { assert id in a.Keys <==> id in b.Keys; }
  }

  /** One entry changed: so does the size. */
  lemma WeightChanged(c: Config, a: map<Id, FloStorage>, b: map<Id, FloStorage>, id: Id)
    requires id in a && b.Keys == a.Keys && forall x :: x in a && x != id ==> b[x] == a[x]
    ensures Weight(c, b, b.Keys) == Weight(c, a, a.Keys) - Bytes(c, a, id) + Bytes(c, b, id)
  {
    WeightWithout(c, a, a.Keys, id);
    WeightWithout(c, b, b.Keys, id);
    WeightSame(c, a, b, a.Keys - {id});
  }

  lemma {:induction false} EvictInv(c: Config, st: Store)
    requires Inv(c, st)
    ensures Inv(c, Evict(c, st))
    decreases |st.flos|
  {
    if st.size > c.maxSpace && Others(c, st) != {} {
      var id := EvictStep(c, st);
      EvictInv(c, RemoveEntry(c, st, id));
    }
  }

  lemma Smaller(flos: map<Id, FloStorage>, id: Id)
    requires id in flos
    ensures |flos - {id}| == |flos| - 1
  {
    assert flos.Keys == (flos - {id}).Keys + {id};
  }

  lemma UpsertFloInv(c: Config, st: Store, flo: Flo, now: int)
    requires Inv(c, st)
    ensures Inv(c, Stored(c, st, flo, now)) && Inv(c, UpsertFlo(c, st, flo, now))
  {
    StoreParentInv(c, st, flo);
    PutInv(c, StoreParent(c, st, flo), flo, now);
    EvictInv(c, Stored(c, st, flo, now));
  }

  datatype Op = Upsert(flo: Flo, now: int) | StoreCuckoo(parent: Id, cuckoo: Id)

  ghost function Step(c: Config, st: Store, op: Op): Store {
    match op
    case Upsert(flo, now) => UpsertFlo(c, st, flo, now)
    case StoreCuckoo(parent, cuckoo) => StoreCuckooId(c, st, parent, cuckoo)
  }

  /** From the store with the realm's flo only, any operations. */
  ghost function Run(c: Config, realm: Flo, now: int, ops: seq<Op>): Store {
    if ops == [] then Put(c, Store(map[], map[], 0), realm, now)
    else Step(c, Run(c, realm, now, ops[..|ops| - 1]), ops[|ops| - 1])
  }

  /** The size is right and the index exact after any run, and the realm's flo is there. */
  lemma {:induction false} RunInv(c: Config, realm: Flo, now: int, ops: seq<Op>)
    requires realm.id == c.realmId
    ensures Inv(c, Run(c, realm, now, ops)) && c.realmId in Run(c, realm, now, ops).flos
  {
    if ops == [] {
      PutInv(c, Store(map[], map[], 0), realm, now);
    } else {
      RunInv(c, realm, now, ops[..|ops| - 1]);
      var st := Run(c, realm, now, ops[..|ops| - 1]);
      match ops[|ops| - 1]
      case Upsert(flo, t) =>
        UpsertFloInv(c, st, flo, t);
        EvictKeepsRealm(c, Stored(c, st, flo, t));
      case StoreCuckoo(parent, cuckoo) => StoreCuckooIdInv(c, st, parent, cuckoo);
    }
  }

  // ------------------------------------------------------------------ eviction

  lemma FurthestUnique(c: Config, st: Store, x: Id, y: Id)
    requires IsFurthest(c, st, x) && IsFurthest(c, st, y)
    ensures x == y
  {
  }

  /** As long as there is a flo other than the realm's, one can be evicted. */
  lemma FurthestExists(c: Config, st: Store) returns (id: Id)
    requires Inv(c, st) && Others(c, st) != {}
    ensures IsFurthest(c, st, id)
  {
    var x := LeastDepth(c, Others(c, st));
    id := LastOther(st.distances[c.depth(x)], c.realmId).value;
  }

  lemma {:induction false} LeastDepth(c: Config, s: set<Id>) returns (x: Id)
    requires s != {}
    ensures x in s && forall y :: y in s ==> c.depth(x) <= c.depth(y)
    decreases |s|
  {
    x :| x in s;
    if s != {x} {
      var y := LeastDepth(c, s - {x});
      if c.depth(y) < c.depth(x) { x := y; }
    }
  }

  /** The loop only removes, and never the realm's own flo. */
  lemma {:induction false} EvictKeepsRealm(c: Config, st: Store)
    ensures Evict(c, st).flos.Keys <= st.flos.Keys
    ensures forall id :: id in Evict(c, st).flos ==> Evict(c, st).flos[id] == st.flos[id]
    ensures c.realmId in st.flos ==> c.realmId in Evict(c, st).flos
    decreases |st.flos|
  {
    if id :| st.size > c.maxSpace && IsFurthest(c, st, id) && Evict(c, st) == Evict(c, RemoveEntry(c, st, id)) {
      Smaller(st.flos, id);
      EvictKeepsRealm(c, RemoveEntry(c, st, id));
    }
  }

  /** One turn of the loop. */
  lemma EvictStep(c: Config, st: Store) returns (id: Id)
    requires Inv(c, st) && st.size > c.maxSpace && Others(c, st) != {}
    ensures IsFurthest(c, st, id)
    ensures var r := RemoveEntry(c, st, id);
      Inv(c, r) && Evict(c, st) == Evict(c, r) && r.flos == st.flos - {id} && |r.flos| < |st.flos|
  {
    id := FurthestExists(c, st);
    EvictIs(c, st, id);
    Smaller(st.flos, id);
    RemoveEntryInv(c, st, id);
  }

  lemma EvictIs(c: Config, st: Store, id: Id)
    requires st.size > c.maxSpace && IsFurthest(c, st, id)
    ensures Evict(c, st) == Evict(c, RemoveEntry(c, st, id))
  {
    forall z | IsFurthest(c, st, z) ensures z == id { FurthestUnique(c, st, z, id); }
  }

  /** The loop reaches the bound if and only if the realm's entry alone is within it. */
  lemma {:induction false} EvictFits(c: Config, st: Store)
    requires Inv(c, st)
    ensures Evict(c, st).size <= c.maxSpace <==> Bytes(c, st.flos, c.realmId) <= c.maxSpace
    decreases |st.flos|
  {
    if Others(c, st) == {} {
      OnlyRealm(c, st);
    } else if st.size <= c.maxSpace {
      if c.realmId in st.flos { WeightWithout(c, st.flos, st.flos.Keys, c.realmId); }
    } else {
      var id := EvictStep(c, st);
      EvictFits(c, RemoveEntry(c, st, id));
    }
  }

  lemma OnlyRealm(c: Config, st: Store)
    requires Inv(c, st) && Others(c, st) == {}
    ensures st.size == Bytes(c, st.flos, c.realmId)
  {
    if c.realmId in st.flos {
      assert st.flos.Keys == {c.realmId};
      WeightWithout(c, st.flos, st.flos.Keys, c.realmId);
    } else {
      assert st.flos.Keys == {};
    }
  }

  ghost function RemoveTimes(c: Config, st: Store, n: nat): Store {
    if n == 0 then st else RemoveFurthest(c, RemoveTimes(c, st, n - 1))
  }

  /** Otherwise no number of turns of the loop reaches the bound. */
  lemma {:induction false} EvictionDiverges(c: Config, st: Store, n: nat)
    requires Inv(c, st) && Bytes(c, st.flos, c.realmId) > c.maxSpace
    ensures RemoveTimes(c, st, n).size > c.maxSpace
  {
    RemoveTimesInv(c, st, n);
    var r := RemoveTimes(c, st, n);
    WeightWithout(c, r.flos, r.flos.Keys, c.realmId);
  }

  lemma {:induction false} RemoveTimesInv(c: Config, st: Store, n: nat)
    requires Inv(c, st) && c.realmId in st.flos
    ensures Inv(c, RemoveTimes(c, st, n)) && HasSame(st, RemoveTimes(c, st, n), c.realmId)
  {
    if n > 0 {
      RemoveTimesInv(c, st, n - 1);
      RemoveFurthestKeeps(c, RemoveTimes(c, st, n - 1));
    }
  }

  ghost predicate HasSame(a: Store, b: Store, id: Id) { id in a.flos && id in b.flos && a.flos[id] == b.flos[id] }

  lemma RemoveFurthestKeeps(c: Config, st: Store)
    requires Inv(c, st) && c.realmId in st.flos
    ensures Inv(c, RemoveFurthest(c, st)) && HasSame(st, RemoveFurthest(c, st), c.realmId)
  {
    if id :| IsFurthest(c, st, id) && RemoveFurthest(c, st) == RemoveEntry(c, st, id) {
      RemoveEntryInv(c, st, id);
    }
  }

  /** Whatever was evicted was at least as far as everything that stayed. */
  lemma {:induction false} EvictedAreFarthest(c: Config, st: Store, gone: Id, kept: Id)
    requires gone in st.flos && gone !in Evict(c, st).flos
    requires kept in Evict(c, st).flos && kept != c.realmId
    ensures c.depth(gone) <= c.depth(kept)
    decreases |st.flos|
  {
    if id :| st.size > c.maxSpace && IsFurthest(c, st, id) && Evict(c, st) == Evict(c, RemoveEntry(c, st, id)) {
      Smaller(st.flos, id);
      EvictKeepsRealm(c, RemoveEntry(c, st, id));
      if gone != id { EvictedAreFarthest(c, RemoveEntry(c, st, id), gone, kept); }
    }
  }

  // ------------------------------------------------------- who survives a put

  ghost predicate LastListed(c: Config, st: Store, id: Id) {
    var d := c.depth(id);
    id in st.flos && d in st.distances && |st.distances[d]| > 0 && st.distances[d][|st.distances[d]| - 1] == id
  }

  lemma FartherWithout(c: Config, st: Store, x: Id, d: nat)
    requires Inv(c, st) && x in Others(c, st) && c.depth(x) < d
    ensures var r := RemoveEntry(c, st, x);
      r.size - Weight(c, r.flos, Farther(c, Others(c, r), d))
        == st.size - Weight(c, st.flos, Farther(c, Others(c, st), d))
  {
    var r := RemoveEntry(c, st, x);
    var far := Farther(c, Others(c, st), d);
    assert Farther(c, Others(c, r), d) == far - {x};
    WeightWithout(c, st.flos, far, x);
    WeightSame(c, st.flos, r.flos, far - {x});
  }

  /** What remains of the size without the flos that may go before id. */
  ghost function Floor(c: Config, st: Store, id: Id): int {
    st.size - Weight(c, st.flos, Farther(c, Others(c, st), c.depth(id)))
  }

  lemma LastListedKept(c: Config, st: Store, id: Id, y: Id)
    requires LastListed(c, st, id) && c.depth(y) < c.depth(id)
    ensures LastListed(c, RemoveEntry(c, st, y), id)
  {
  }

  lemma FurthestIsLast(c: Config, st: Store, id: Id, y: Id)
    requires LastListed(c, st, id) && id != c.realmId && IsFurthest(c, st, y) && c.depth(y) >= c.depth(id)
    ensures y == id && Farther(c, Others(c, st), c.depth(id)) == {}
  {
  }

  /** A flo that is last in its list is evicted if and only if dropping every strictly
      farther flo, except the realm's, is not enough; and if it stays, nothing as near
      as itself is dropped. */
  lemma {:induction false} LastListedSurvives(c: Config, st: Store, id: Id)
    requires Inv(c, st) && LastListed(c, st, id) && id != c.realmId
    ensures id in Evict(c, st).flos <==> Floor(c, st, id) <= c.maxSpace
    ensures id in Evict(c, st).flos ==>
      forall x :: x in st.flos && x !in Evict(c, st).flos ==> c.depth(x) < c.depth(id)
    decreases |st.flos|
  {
    if st.size > c.maxSpace {
      assert id in Others(c, st);
      var y := EvictStep(c, st);
      if c.depth(y) < c.depth(id) {
        FartherWithout(c, st, y, c.depth(id));
        LastListedKept(c, st, id, y);
        LastListedSurvives(c, RemoveEntry(c, st, y), id);
      } else {
        FurthestIsLast(c, st, id, y);
        EvictKeepsRealm(c, RemoveEntry(c, st, y));
      }
    }
  }

  /** The bytes a store needs for flo after dropping all that may go before it. */
  ghost function Needed(c: Config, st: Store, flo: Flo, now: int): int {
    Floor(c, st, flo.id) - Bytes(c, st.flos, flo.id) + c.entrySize(FloStorage(flo, [], now))
  }

  lemma PutNeeds(c: Config, st: Store, flo: Flo, now: int)
    requires Inv(c, st)
    ensures LastListed(c, Put(c, st, flo, now), flo.id)
    ensures Floor(c, Put(c, st, flo, now), flo.id) == Needed(c, st, flo, now)
  {
    var r := Put(c, st, flo, now);
    var far := Farther(c, Others(c, st), c.depth(flo.id));
    assert Farther(c, Others(c, r), c.depth(flo.id)) == far;
    WeightSame(c, st.flos, r.flos, far);
  }

  ghost predicate Holds(st: Store, e: FloStorage) { e.flo.id in st.flos && st.flos[e.flo.id] == e }

  lemma PutSurvives(c: Config, st: Store, flo: Flo, now: int)
    requires Inv(c, st)
    ensures Holds(Evict(c, Put(c, st, flo, now)), FloStorage(flo, [], now))
      <==> (flo.id == c.realmId || Needed(c, st, flo, now) <= c.maxSpace)
  {
    var put := Put(c, st, flo, now);
    PutInv(c, st, flo, now);
    EvictKeepsRealm(c, put);
    if flo.id != c.realmId {
      PutNeeds(c, st, flo, now);
      LastListedSurvives(c, put, flo.id);
    }
  }

  /** Noting a flo at its parent changes no flo. */
  lemma StoreParentInv(c: Config, st: Store, flo: Flo)
    requires Inv(c, st)
    ensures var r := StoreParent(c, st, flo);
      Inv(c, r) && r.flos.Keys == st.flos.Keys && forall id :: id in st.flos ==> r.flos[id].flo == st.flos[id].flo
  {
    if flo.cuckoo.Parent? { StoreCuckooIdInv(c, st, flo.cuckoo.id, flo.id); }
  }

  /** Noting a flo at its parent adds it to the cuckoos of the parent, if that is stored and
      does not list it yet; nothing else changes. */
  lemma ParentNotedIs(c: Config, st: Store, flo: Flo)
    ensures StoreParent(c, st, flo).flos ==
      match flo.cuckoo
      case Parent(p) =>
        if p in st.flos && flo.id !in st.flos[p].cuckoos then
          st.flos[p := FloStorage(st.flos[p].flo, st.flos[p].cuckoos + [flo.id], st.flos[p].created)]
        else st.flos
      case Duration(_) => st.flos
      case NoCuckoo => st.flos
  {
  }

  /** What is stored before anything is evicted: the flo replaces an older version, or is
      new and fits into the bound or into the size of all that is strictly farther. */
  lemma StoredIs(c: Config, st: Store, flo: Flo, now: int)
    requires Inv(c, st)
    ensures var before, e, s := StoreParent(c, st, flo), FloStorage(flo, [], now), Stored(c, st, flo, now);
      var known, newer := flo.id in st.flos, flo.id in st.flos && st.flos[flo.id].flo.version < flo.version;
      var fits := before.size + c.entrySize(e) <= c.maxSpace;
      var nearer := c.entrySize(e) <= Weight(c, before.flos, Farther(c, before.flos.Keys, c.depth(flo.id)));
      s.flos == if newer || (!known && (fits || nearer)) then before.flos[flo.id := e] else before.flos
  {
    StoreParentInv(c, st, flo);
  }

  /** Exactly when upsert_flo leaves a flo in the store that is new or newer: it is not too
      big; if new, it fits into the bound or into what is strictly farther; and it fits
      once all flos but the realm's that are strictly farther are gone. */
  lemma UpsertStores(c: Config, st: Store, flo: Flo, now: int)
    requires Inv(c, st) && (flo.id in st.flos ==> st.flos[flo.id].flo.version < flo.version)
    ensures var before, e, d := StoreParent(c, st, flo), FloStorage(flo, [], now), c.depth(flo.id);
      Holds(UpsertFlo(c, st, flo, now), e) <==>
        && c.floSize(flo) * 3 <= c.maxSpace
        && (flo.id !in st.flos ==>
              || before.size + c.entrySize(e) <= c.maxSpace
              || c.entrySize(e) <= Weight(c, before.flos, Farther(c, before.flos.Keys, d)))
        && (flo.id != c.realmId ==>
              before.size - Bytes(c, before.flos, flo.id) + c.entrySize(e)
                - Weight(c, before.flos, Farther(c, before.flos.Keys - {c.realmId}, d)) <= c.maxSpace)
  {
    var before := StoreParent(c, st, flo);
    StoreParentInv(c, st, flo);
    PutSurvives(c, before, flo, now);
    EvictKeepsRealm(c, before);
  }

  /** A flo that is too big changes nothing. */
  lemma TooBigIsRefused(c: Config, st: Store, flo: Flo, now: int)
    requires c.floSize(flo) * 3 > c.maxSpace
    ensures UpsertFlo(c, st, flo, now) == st && !UpsertAnswer(c, st, flo)
  {
  }

  /** A new flo that fits into the bound or into what is strictly farther stays, and only
      strictly farther flos go, if the store was within its bound and the realm's flo is
      not among them. */
  lemma NearerFloIsStored(c: Config, st: Store, flo: Flo, now: int)
    requires Inv(c, st) && c.floSize(flo) * 3 <= c.maxSpace && flo.id !in st.flos && flo.id != c.realmId
    requires StoreParent(c, st, flo).size <= c.maxSpace
    requires var before, entry := StoreParent(c, st, flo), c.entrySize(FloStorage(flo, [], now));
      || before.size + entry <= c.maxSpace
      || entry <= Weight(c, before.flos, Farther(c, before.flos.Keys, c.depth(flo.id)))
    requires c.realmId !in st.flos || c.depth(c.realmId) >= c.depth(flo.id)
    ensures var after := UpsertFlo(c, st, flo, now);
      Holds(after, FloStorage(flo, [], now))
      && forall x :: x in st.flos && x !in after.flos ==> c.depth(x) < c.depth(flo.id)
  {
    var before := StoreParent(c, st, flo);
    StoreParentInv(c, st, flo);
    AcceptedFits(c, before, flo, now);
    PutInv(c, before, flo, now);
    PutNeeds(c, before, flo, now);
    EvictKeepsRealm(c, Put(c, before, flo, now));
    LastListedSurvives(c, Put(c, before, flo, now), flo.id);
  }

  lemma AcceptedFits(c: Config, st: Store, flo: Flo, now: int)
    requires Inv(c, st) && flo.id !in st.flos && st.size <= c.maxSpace
    requires var entry := c.entrySize(FloStorage(flo, [], now));
      st.size + entry <= c.maxSpace || entry <= Weight(c, st.flos, Farther(c, st.flos.Keys, c.depth(flo.id)))
    requires c.realmId !in st.flos || c.depth(c.realmId) >= c.depth(flo.id)
    ensures Needed(c, st, flo, now) <= c.maxSpace
  {
    assert Farther(c, Others(c, st), c.depth(flo.id)) == Farther(c, st.flos.Keys, c.depth(flo.id));
  }

  // ------------------------------------------------------- who survives at all

  /** y is listed behind x. */
  predicate Behind(ids: seq<Id>, x: Id, y: Id) {
    ids != [] && (if ids[0] == x then y in ids[1..] else Behind(ids[1..], x, y))
  }

  lemma {:induction false} BehindAt(ids: seq<Id>, i: nat, j: nat)
    requires Distinct(ids) && i < |ids| && j < |ids|
    ensures Behind(ids, ids[i], ids[j]) <==> i < j
  {
    if i > 0 {
      assert ids[i] != ids[0];
      if j > 0 {
        BehindAt(ids[1..], i - 1, j - 1);
      } else {
        BehindIsIn(ids[1..], ids[i], ids[0]);
      }
    } else if j > 0 {
      assert ids[j] == ids[1..][j - 1];
    }
  }

  lemma {:induction false} BehindIsIn(ids: seq<Id>, x: Id, y: Id)
    ensures Behind(ids, x, y) ==> y in ids && x in ids
  {
    if ids != [] && ids[0] != x { BehindIsIn(ids[1..], x, y); }
  }

  lemma {:induction false} BehindWithout(ids: seq<Id>, gone: Id, x: Id, y: Id)
    requires x != gone && y != gone
    ensures Behind(Except(ids, gone), x, y) <==> Behind(ids, x, y)
  {
    if ids != [] {
      BehindWithout(ids[1..], gone, x, y);
      var rest := Except(ids[1..], gone);
      assert ([ids[0]] + rest)[1..] == rest && [] + rest == rest;
    }
  }

  lemma {:induction false} LastOtherAt(ids: seq<Id>, realmId: Id) returns (k: nat)
    requires LastOther(ids, realmId).Some?
    ensures k < |ids| && ids[k] == LastOther(ids, realmId).value
    ensures forall j :: k < j < |ids| ==> ids[j] == realmId
  {
    k := |ids| - 1;
    if ids[k] == realmId { k := LastOtherAt(ids[..k], realmId); }
  }

  /** The last other one is behind every other one. */
  lemma LastOtherIsBehind(ids: seq<Id>, realmId: Id, x: Id)
    requires Distinct(ids) && LastOther(ids, realmId).Some? && x in ids && x != realmId
    ensures var last := LastOther(ids, realmId).value;
      !Behind(ids, last, x) && (x != last ==> Behind(ids, x, last))
  {
    var k := LastOtherAt(ids, realmId);
    var i :| 0 <= i < |ids| && ids[i] == x;
    BehindAt(ids, k, i);
    BehindAt(ids, i, k);
  }

  /** The flos that are evicted before a given one: the farther, and of those as far the
      ones that are listed behind it. */
  ghost function GoBefore(c: Config, st: Store, id: Id): set<Id> {
    set y | y in Others(c, st) && (c.depth(y) < c.depth(id)
      || (c.depth(y) == c.depth(id) && c.depth(id) in st.distances && Behind(st.distances[c.depth(id)], id, y)))
  }

  /** There is room for a stored flo and everything that stays longer; the realm's always stays. */
  ghost predicate Survives(c: Config, st: Store, id: Id) {
    id == c.realmId || st.size - Weight(c, st.flos, GoBefore(c, st, id)) <= c.maxSpace
  }

  lemma FurthestGoesBefore(c: Config, st: Store, id: Id, y: Id)
    requires Inv(c, st) && id in Others(c, st) && IsFurthest(c, st, y)
    ensures y == id ==> GoBefore(c, st, id) == {}
    ensures y != id ==> y in GoBefore(c, st, id)
  {
    var d := c.depth(y);
    forall x | x in Others(c, st) && c.depth(x) == d
      ensures !Behind(st.distances[d], y, x) && (x != y ==> Behind(st.distances[d], x, y))
    {
      LastOtherIsBehind(st.distances[d], c.realmId, x);
    }
  }

  lemma GoBeforeWithout(c: Config, st: Store, id: Id, y: Id)
    requires Inv(c, st) && id in st.flos && y in st.flos && y != id
    ensures GoBefore(c, RemoveEntry(c, st, y), id) == GoBefore(c, st, id) - {y}
  {
    var d := c.depth(id);
    if c.depth(y) == d {
      forall x | x != y
        ensures Behind(Except(st.distances[d], y), id, x) <==> Behind(st.distances[d], id, x)
      {
        BehindWithout(st.distances[d], y, id, x);
      }
    }
  }

  lemma FloorWithout(c: Config, st: Store, id: Id, y: Id)
    requires Inv(c, st) && id in st.flos && y in GoBefore(c, st, id) && y != id
    ensures var r := RemoveEntry(c, st, y);
      r.size - Weight(c, r.flos, GoBefore(c, r, id)) == st.size - Weight(c, st.flos, GoBefore(c, st, id))
  {
    var r, before := RemoveEntry(c, st, y), GoBefore(c, st, id);
    GoBeforeWithout(c, st, id, y);
    WeightWithout(c, st.flos, before, y);
    WeightSame(c, st.flos, r.flos, before - {y});
  }

  /** Exactly which flos stay in the store when it is cut to its bound. */
  lemma {:induction false} SurvivesIff(c: Config, st: Store, id: Id)
    requires Inv(c, st) && id in st.flos
    ensures id in Evict(c, st).flos <==> Survives(c, st, id)
    decreases |st.flos|
  {
    if id == c.realmId {
      EvictKeepsRealm(c, st);
    } else if st.size > c.maxSpace {
      assert id in Others(c, st);
      var y := EvictStep(c, st);
      FurthestGoesBefore(c, st, id, y);
      if y == id {
        EvictKeepsRealm(c, RemoveEntry(c, st, y));
      } else {
        FloorWithout(c, st, id, y);
        SurvivesIff(c, RemoveEntry(c, st, y), id);
      }
    }
  }

  // ---------------------------------------------------------------- instances

  /** The config belongs to a node: it measures depths from its id. */
  ghost predicate MeasuredFrom(c: Config, root: Id) { forall id :: c.depth(id) == Depth(root, id) }

  /** The answer says stored, yet the flo is refused: at any node, when only the realm's flo
      is stored, the new one is not nearer than it, and there is no room for both. */
  lemma AnswerIsNotStored(c: Config, root: Id, realm: Flo, flo: Flo, now: int)
    requires MeasuredFrom(c, root) && c.realmId == realm.id && forall e :: c.entrySize(e) > 0
    requires flo.id != realm.id && flo.cuckoo == NoCuckoo && Depth(root, flo.id) <= Depth(root, realm.id)
    requires !TooBig(c, flo)
    requires var size := c.entrySize(FloStorage(realm, [], now));
      size <= c.maxSpace < size + c.entrySize(FloStorage(flo, [], now))
    ensures var st := Run(c, realm, now, []);
      Inv(c, st) && st.size <= c.maxSpace && UpsertAnswer(c, st, flo) && UpsertFlo(c, st, flo, now) == st
  {
    RunInv(c, realm, now, []);
    var st := Run(c, realm, now, []);
    assert Farther(c, st.flos.Keys, c.depth(flo.id)) == {};
    assert Stored(c, st, flo, now) == st;
  }

  /** Such a node and such flos exist. */
  lemma AnswerIsNotStoredAt(realm: Flo, flo: Flo)
    requires flo.id != realm.id && flo.cuckoo == NoCuckoo
    ensures
      var c := Config(realm.id, 3, id => Depth(realm.id, id), f => 1, e => 2);
      var st := Run(c, realm, 0, []);
      MeasuredFrom(c, realm.id) && UpsertAnswer(c, st, flo) && flo.id !in UpsertFlo(c, st, flo, 0).flos
  {
    var c := Config(realm.id, 3, id => Depth(realm.id, id), f => 1, e => 2);
    DepthSelf(realm.id);
    AnswerIsNotStored(c, realm.id, realm, flo, 0);
  }

  /** Cuckoos noted at the realm's flo, one after the other. */
  function NoteAll(realm: Id, ids: seq<Id>): (ops: seq<Op>)
    ensures |ops| == |ids| && forall i :: 0 <= i < |ops| ==> ops[i] == StoreCuckoo(realm, ids[i])
  {
    seq(|ids|, i requires 0 <= i < |ids| => StoreCuckoo(realm, ids[i]))
  }

  lemma {:induction false} RealmGrows(c: Config, realm: Flo, now: int, ids: seq<Id>)
    requires c.realmId == realm.id && Distinct(ids)
    ensures var st := Run(c, realm, now, NoteAll(realm.id, ids));
      realm.id in st.flos && st.flos[realm.id] == FloStorage(realm, ids, now)
  {
    if ids != [] {
      var front := ids[..|ids| - 1];
      RealmGrows(c, realm, now, front);
      assert NoteAll(realm.id, ids)[..|ids| - 1] == NoteAll(realm.id, front);
      assert front + [ids[|ids| - 1]] == ids;
    }
  }

  /** A run after which the loop never ends: enough cuckoos make the realm's entry larger
      than the bound, and then any flo that is not too big leaves the store beyond it. */
  lemma GrownRealmDiverges(c: Config, realm: Flo, now: int, ids: seq<Id>, flo: Flo, n: nat)
    requires c.realmId == realm.id && Distinct(ids)
    requires c.entrySize(FloStorage(realm, ids, now)) > c.maxSpace
    requires !TooBig(c, flo) && flo.id != realm.id && flo.cuckoo == NoCuckoo
    ensures var st := Run(c, realm, now, NoteAll(realm.id, ids));
      && Bytes(c, st.flos, c.realmId) > c.maxSpace
      && RemoveTimes(c, Stored(c, st, flo, now), n).size > c.maxSpace
  {
    var ops := NoteAll(realm.id, ids);
    RealmGrows(c, realm, now, ids);
    RunInv(c, realm, now, ops);
    var st := Run(c, realm, now, ops);
    UpsertFloInv(c, st, flo, now);
    EvictionDiverges(c, Stored(c, st, flo, now), n);
  }

  /** One cuckoo is enough where the realm's flo just fits. */
  lemma GrownRealmDivergesAt(realm: Flo, cuckoo: Id, flo: Flo, n: nat)
    requires flo.id != realm.id && flo.cuckoo == NoCuckoo
    ensures
      var c := Config(realm.id, 3, id => Depth(realm.id, id), f => 1, (e: FloStorage) => 3 + |e.cuckoos|);
      var st := Run(c, realm, 0, NoteAll(realm.id, [cuckoo]));
      && MeasuredFrom(c, realm.id) && Run(c, realm, 0, []).size <= c.maxSpace
      && RemoveTimes(c, Stored(c, st, flo, 0), n).size > c.maxSpace
  {
    var c := Config(realm.id, 3, id => Depth(realm.id, id), f => 1, (e: FloStorage) => 3 + |e.cuckoos|);
    assert Run(c, realm, 0, []).size == 3;
    GrownRealmDiverges(c, realm, 0, [cuckoo], flo, n);
  }
}
