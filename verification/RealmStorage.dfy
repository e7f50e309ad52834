/** The store of a realm, updated in place (dht_storage/core.rs). */
module RealmStorage {
  import opened Prelude
  import opened NodeIds
  import opened Realm

  datatype FloMeta = FloMeta(id: Id, cuckoos: nat, version: nat)

  /** Whether what is stored is at least what a neighbour reports. */
  predicate Covers(flos: map<Id, FloStorage>, m: FloMeta) {
    m.id in flos && flos[m.id].flo.version >= m.version && |flos[m.id].cuckoos| >= m.cuckoos
  }

  function Wanted(flos: map<Id, FloStorage>, metas: seq<FloMeta>): seq<Id> {
    if metas == [] then []
    else
      var last := metas[|metas| - 1];
      Wanted(flos, metas[..|metas| - 1]) + (if Covers(flos, last) then [] else [last.id])
  }

  /** Exactly the ids of which a neighbour has more are asked for: flos it has and this store
      has not, newer versions, and more cuckoos. */
  lemma WantedIff(flos: map<Id, FloStorage>, metas: seq<FloMeta>, id: Id)
    ensures id in Wanted(flos, metas) <==>
      exists m :: m in metas && m.id == id
        && (id in flos ==> flos[id].flo.version < m.version || |flos[id].cuckoos| < m.cuckoos)
  {
    WantedMembers(flos, metas, id);
  }

  lemma {:induction false} WantedMembers(flos: map<Id, FloStorage>, metas: seq<FloMeta>, id: Id)
    ensures id in Wanted(flos, metas) <==> exists m :: m in metas && !Covers(flos, m) && m.id == id
  {
    if metas != [] {
      var front, last := metas[..|metas| - 1], metas[|metas| - 1];
      WantedMembers(flos, front, id);
      assert metas == front + [last];
    }
  }

  ghost function SizeOfIds(c: Config, flos: map<Id, FloStorage>, ids: seq<Id>): nat {
    if ids == [] then 0 else SizeOfIds(c, flos, ids[..|ids| - 1]) + Bytes(c, flos, ids[|ids| - 1])
  }

  lemma {:induction false} SizeOfIdsIs(c: Config, flos: map<Id, FloStorage>, ids: seq<Id>)
    requires Distinct(ids)
    ensures SizeOfIds(c, flos, ids) == Weight(c, flos, Elements(ids))
  {
    if ids != [] {
      var front, last := ids[..|ids| - 1], ids[|ids| - 1];
      assert ids == front + [last];
      SizeOfIdsIs(c, flos, front);
      assert last !in front;
      assert Elements(ids) - {last} == Elements(front);
      WeightWithout(c, flos, Elements(ids), last);
    }
  }

  /** The stored flos at a depth. */
  ghost function AtDepth(c: Config, st: Store, d: nat): set<Id> { set id | id in st.flos && c.depth(id) == d }

  lemma AtDepthIs(c: Config, st: Store, d: nat)
    requires Listed(c, st.flos, st.distances)
    ensures AtDepth(c, st, d) == if d in st.distances then Elements(st.distances[d]) else {}
  {
  }

  lemma FartherPlus(c: Config, st: Store, d: nat)
    ensures Weight(c, st.flos, Farther(c, st.flos.Keys, d + 1))
         == Weight(c, st.flos, Farther(c, st.flos.Keys, d)) + Weight(c, st.flos, AtDepth(c, st, d))
  {
    assert Farther(c, st.flos.Keys, d + 1) == Farther(c, st.flos.Keys, d) + AtDepth(c, st, d);
    WeightSum(c, st.flos, Farther(c, st.flos.Keys, d), AtDepth(c, st, d));
  }

  method LeastWithOther(distances: map<nat, seq<Id>>, realmId: Id) returns (d: Option<nat>)
    ensures d.Some? ==> d.value in distances && LastOther(distances[d.value], realmId).Some?
    ensures forall e :: e in distances && LastOther(distances[e], realmId).Some? ==> d.Some? && d.value <= e
  {
    d := None;
    var remaining := distances.Keys;
    while remaining != {}
      invariant remaining <= distances.Keys
      invariant d.Some? ==> d.value in distances && LastOther(distances[d.value], realmId).Some?
      invariant forall e :: e in distances && e !in remaining && LastOther(distances[e], realmId).Some? ==>
        d.Some? && d.value <= e
      decreases |remaining|
    {
      var e :| e in remaining;
      remaining := remaining - {e};
      if LastOther(distances[e], realmId).Some? && (d.None? || e < d.value) {
        d := Some(e);
      }
    }
  }

  method SizeOfAll(c: Config, flos: map<Id, FloStorage>, ids: seq<Id>) returns (r: nat)
    ensures r == SizeOfIds(c, flos, ids)
  {
    r := 0;
    for i := 0 to |ids|
      invariant r == SizeOfIds(c, flos, ids[..i])
    {
      assert ids[..i + 1][..i] == ids[..i];
      r := r + Bytes(c, flos, ids[i]);
    }
    assert ids[..|ids|] == ids;
  }

  method Filtered(flos: map<Id, FloStorage>, available: seq<FloMeta>) returns (a: seq<Id>)
    ensures a == Wanted(flos, available)
  {
    a := [];
    for i := 0 to |available|
      invariant a == Wanted(flos, available[..i])
    {
      var remote := available[i];
      var known := remote.id in flos
        && flos[remote.id].flo.version >= remote.version && |flos[remote.id].cuckoos| >= remote.cuckoos;
      assert available[..i + 1][..i] == available[..i];
      if !known { a := a + [remote.id]; }
    }
    assert available[..|available|] == available;
  }

  /** One report for each of some stored flos. */
  ghost predicate AreMetas(flos: map<Id, FloStorage>, ids: set<Id>, metas: seq<FloMeta>)
    requires ids <= flos.Keys
  {
    && (forall m :: m in metas ==>
          m.id in ids && m.version == flos[m.id].flo.version && m.cuckoos == |flos[m.id].cuckoos|)
    && (forall id :: id in ids ==> FloMeta(id, |flos[id].cuckoos|, flos[id].flo.version) in metas)
    && Distinct(metas)
  }

  method MetasOf(flos: map<Id, FloStorage>) returns (metas: seq<FloMeta>)
    requires forall id :: id in flos ==> flos[id].flo.id == id
    ensures AreMetas(flos, flos.Keys, metas)
  {
    metas := [];
    var remaining := flos.Keys;
    while remaining != {}
      invariant remaining <= flos.Keys && AreMetas(flos, flos.Keys - remaining, metas)
      decreases |remaining|
    {
      var id :| id in remaining;
      var meta := FloMeta(flos[id].flo.id, |flos[id].cuckoos|, flos[id].flo.version);
      assert meta !in metas;
      OneMore(metas, meta);
      metas := metas + [meta];
      remaining := remaining - {id};
    }
  }

  lemma OneMore(metas: seq<FloMeta>, meta: FloMeta)
    requires Distinct(metas) && meta !in metas
    ensures Distinct(metas + [meta])
  {
  }

  class RealmStorage {
    const root: Id
    const config: Config
    var flos: map<Id, FloStorage>
    var distances: map<nat, seq<Id>>
    var size: int

    /** The store of a new realm, with the realm's flo; config measures depths from root. */
    constructor (root: Id, realm: Flo, config: Config, now: int)
      requires config.realmId == realm.realm && forall id :: config.depth(id) == Depth(root, id)
      ensures Valid() && this.root == root && this.config == config
      ensures Model() == Realm.Put(config, Store(map[], map[], 0), realm, now)
    {
      this.root, this.config := root, config;
      flos, distances, size := map[], map[], 0;
      new;
      Put(realm, now);
    }

    ghost function Model(): Store
      reads this
    {
      Store(flos, distances, size)
    }

    /** The config measures depths from this node. */
    ghost predicate Owned() { forall id :: config.depth(id) == Depth(root, id) }

    ghost predicate Valid()
      reads this
    {
      Owned() && Inv(config, Model())
    }

    method RemoveEntry(id: Id)
      requires Valid()
      modifies this
      ensures Valid() && Model() == Realm.RemoveEntry(config, old(Model()), id)
    {
      RemoveEntryInv(config, Model(), id);
      if id in flos {
        var distance := GetDepth(root, id);
        if distance in distances {
          distances := distances[distance := Except(distances[distance], id)];
        }
        size := size - config.entrySize(flos[id]);
        flos := flos - {id};
      }
    }

    method Put(flo: Flo, now: int)
      requires Valid()
      modifies this
      ensures Valid() && Model() == Realm.Put(config, old(Model()), flo, now)
    {
      PutInv(config, Model(), flo, now);
      RemoveEntry(flo.id);
      var depth := GetDepth(root, flo.id);
      distances := distances[depth := (if depth in distances then distances[depth] else []) + [flo.id]];
      var df := FloStorage(flo, [], now);
      size := size + config.entrySize(df);
      flos := flos[flo.id := df];
    }

    method StoreCuckooId(parent: Id, cuckoo: Id)
      requires Valid()
      modifies this
      ensures Valid() && Model() == Realm.StoreCuckooId(config, old(Model()), parent, cuckoo)
    {
      ghost var before := Model();
      StoreCuckooIdInv(config, before, parent, cuckoo);
      Grow(parent, cuckoo);
    }

    /** The entry with the cuckoo at its end, and the size that goes with it. */
    method Grow(parent: Id, cuckoo: Id)
      modifies this`flos, this`size
      ensures Model() == Realm.StoreCuckooId(config, old(Model()), parent, cuckoo)
    {
      if parent in flos {
        var fs := flos[parent];
        if cuckoo !in fs.cuckoos {
          size := size - config.entrySize(fs);
          fs := fs.(cuckoos := fs.cuckoos + [cuckoo]);
          flos := flos[parent := fs];
          size := size + config.entrySize(fs);
        }
      }
    }

    /** The least depth with a flo that is not the realm's. */
    method FurthestDepth() returns (d: Option<nat>)
      requires Valid()
      ensures d.None? <==> Others(config, Model()) == {}
      ensures d.Some? ==> d.value in distances && LastOther(distances[d.value], config.realmId).Some?
      ensures d.Some? ==> forall x :: x in Others(config, Model()) ==> d.value <= config.depth(x)
    {
      d := LeastWithOther(distances, config.realmId);
      forall x | x in Others(config, Model()) ensures d.Some? && d.value <= config.depth(x) {
        assert x in distances[config.depth(x)];
      }
      if d.Some? {
        assert LastOther(distances[d.value], config.realmId).value in Others(config, Model());
      }
    }

    method RemoveFurthest()
      requires Valid()
      modifies this
      ensures Valid() && Model() == Realm.RemoveFurthest(config, old(Model()))
    {
      var furthest := FurthestDepth();
      if furthest.Some? {
        var id := LastOther(distances[furthest.value], config.realmId).value;
        FurthestIs(config, Model(), id, furthest.value);
        RemoveEntry(id);
      }
    }

    method SizeAtDepth(d: nat) returns (r: nat)
      requires Valid()
      ensures r == Weight(config, flos, AtDepth(config, Model(), d))
    {
      r := 0;
      if d in distances {
        var ids := distances[d];
        r := SizeOfAll(config, flos, ids);
        SizeOfIdsIs(config, flos, ids);
      }
      AtDepthIs(config, Model(), d);
    }

    /** The size of everything farther than id, the realm's flo included. */
    method SizeAbove(id: Id) returns (above: nat)
      requires Valid()
      ensures above == Above(config, Model(), id)
    {
      var depth := GetDepth(root, id);
      above := 0;
      assert Farther(config, flos.Keys, 0) == {};
      for d := 0 to depth
        invariant above == Weight(config, flos, Farther(config, flos.Keys, d))
      {
        FartherPlus(config, Model(), d);
        var size := SizeAtDepth(d);
        above := above + size;
      }
    }

    /** Puts the flo if it is new and there is room, or newer than the stored one. */
    method PutIfAccepted(flo: Flo, now: int) returns (isNew: bool)
      requires Valid()
      modifies this
      ensures Valid()
      ensures Model() ==
        if Accepts(config, old(Model()), flo, now) then Realm.Put(config, old(Model()), flo, now) else old(Model())
      ensures isNew <==> (flo.id in old(flos) ==> old(flos)[flo.id].flo.version < flo.version)
    {
      isNew := true;
      if flo.id in flos {
        if flos[flo.id].flo.version < flo.version {
          Put(flo, now);
        } else {
          isNew := false;
        }
      } else {
        var floSize := config.entrySize(FloStorage(flo, [], now));
        if size + floSize <= config.maxSpace {
          Put(flo, now);
        } else {
          var sizeAbove := SizeAbove(flo.id);
          if floSize <= sizeAbove {
            Put(flo, now);
          }
        }
      }
    }

    /** The last part of upsert_flo: the loop ends because the realm's entry fits. */
    method EvictFurthest()
      requires Valid() && Bytes(config, flos, config.realmId) <= config.maxSpace
      modifies this
      ensures Valid() && Model() == Evict(config, old(Model())) && size <= config.maxSpace
    {
      EvictFits(config, Model());
      ghost var start := Model();
      while size > config.maxSpace
        invariant Valid() && Evict(config, Model()) == Evict(config, start)
        invariant Bytes(config, flos, config.realmId) <= config.maxSpace
        decreases |flos|
      {
        NotOnlyRealm(config, Model());
        ghost var id := EvictStep(config, Model());
        FurthestRemoved(config, Model(), id);
        RemoveFurthest();
      }
    }

    method UpsertFlo(flo: Flo, now: int) returns (isNew: bool)
      requires Valid() && EvictionEnds(config, Model(), flo, now)
      modifies this
      ensures Valid() && Model() == Realm.UpsertFlo(config, old(Model()), flo, now)
      ensures isNew <==>
        && config.floSize(flo) * 3 <= config.maxSpace
        && (flo.id in old(flos) ==> old(flos)[flo.id].flo.version < flo.version)
      ensures !TooBig(config, flo) ==> size <= config.maxSpace
    {
      if config.floSize(flo) * 3 > config.maxSpace {
        return false;
      }
      StoreParentInv(config, Model(), flo);
      if flo.cuckoo.Parent? {
        StoreCuckooId(flo.cuckoo.id, flo.id);
      }
      isNew := PutIfAccepted(flo, now);
      EvictFurthest();
    }

    method StoreCuckooIds(parent: Id, cuckoos: seq<Id>)
      requires Valid()
      modifies this
      ensures Valid() && Model() == StoreAllCuckoos(config, old(Model()), parent, cuckoos)
    {
      ghost var start := Model();
      for i := 0 to |cuckoos|
        invariant Valid() && Model() == StoreAllCuckoos(config, start, parent, cuckoos[..i])
      {
        assert cuckoos[..i + 1][..i] == cuckoos[..i];
        StoreCuckooId(parent, cuckoos[i]);
      }
      assert cuckoos[..|cuckoos|] == cuckoos;
    }

    method GetFloMetas() returns (metas: seq<FloMeta>)
      requires Valid()
      ensures AreMetas(flos, flos.Keys, metas)
    {
      metas := MetasOf(flos);
    }

    /** The ids to ask a neighbour for; None when there is nothing to ask. */
    method SyncAvailable(available: seq<FloMeta>) returns (needed: Option<seq<Id>>)
      requires Valid()
      ensures needed.None? <==> forall m :: m in available ==>
        m.id in flos && flos[m.id].flo.version >= m.version && |flos[m.id].cuckoos| >= m.cuckoos
      ensures Wanted(flos, available) == if needed.Some? then needed.value else []
    {
      var a := Filtered(flos, available);
      NothingWanted(flos, available);
      needed := if |a| > 0 then Some(a) else None;
    }

    method GetFloCuckoo(id: Id) returns (r: Option<(Flo, seq<Id>)>)
      requires Valid()
      ensures r == if id in flos then Some((flos[id].flo, flos[id].cuckoos)) else None
      ensures r.Some? ==> r.value.0.id == id
    {
      if id in flos {
        return Some((flos[id].flo, flos[id].cuckoos));
      }
      return None;
    }
  }

  function StoreAllCuckoos(c: Config, st: Store, parent: Id, cuckoos: seq<Id>): Store {
    if cuckoos == [] then st
    else
      var before := StoreAllCuckoos(c, st, parent, cuckoos[..|cuckoos| - 1]);
      Realm.StoreCuckooId(c, before, parent, cuckoos[|cuckoos| - 1])
  }

  /** A list of cuckoos adds just these to the flo, and changes nothing else. */
  lemma {:induction false} StoreAllCuckoosIs(c: Config, st: Store, parent: Id, cuckoos: seq<Id>)
    ensures var r := StoreAllCuckoos(c, st, parent, cuckoos);
      && r.flos.Keys == st.flos.Keys
      && (forall id :: id in st.flos && id != parent ==> r.flos[id] == st.flos[id])
      && (parent in st.flos ==>
            && r.flos[parent].flo == st.flos[parent].flo && r.flos[parent].created == st.flos[parent].created
            && forall x :: x in r.flos[parent].cuckoos <==> x in st.flos[parent].cuckoos || x in cuckoos)
  {
    if cuckoos != [] {
      var front, last := cuckoos[..|cuckoos| - 1], cuckoos[|cuckoos| - 1];
      StoreAllCuckoosIs(c, st, parent, front);
      assert cuckoos == front + [last];
    }
  }

  lemma NothingWanted(flos: map<Id, FloStorage>, metas: seq<FloMeta>)
    ensures Wanted(flos, metas) == [] <==> forall m :: m in metas ==> Covers(flos, m)
  {
    forall id ensures id in Wanted(flos, metas) <==> exists m :: m in metas && !Covers(flos, m) && m.id == id {
      WantedMembers(flos, metas, id);
    }
    var w := Wanted(flos, metas);
    if w != [] { assert w[0] in w; }
  }

  lemma FurthestIs(c: Config, st: Store, id: Id, d: nat)
    requires Inv(c, st) && d in st.distances && LastOther(st.distances[d], c.realmId) == Some(id)
    requires forall x :: x in Others(c, st) ==> d <= c.depth(x)
    ensures IsFurthest(c, st, id) && Realm.RemoveFurthest(c, st) == Realm.RemoveEntry(c, st, id)
  {
    FurthestRemoved(c, st, id);
  }

  lemma FurthestRemoved(c: Config, st: Store, id: Id)
    requires Inv(c, st)
    ensures IsFurthest(c, st, id) ==> Realm.RemoveFurthest(c, st) == Realm.RemoveEntry(c, st, id)
  {
    forall z | IsFurthest(c, st, id) && IsFurthest(c, st, z) ensures z == id { FurthestUnique(c, st, z, id); }
  }

  lemma NotOnlyRealm(c: Config, st: Store)
    requires Inv(c, st) && Bytes(c, st.flos, c.realmId) <= c.maxSpace < st.size
    ensures Others(c, st) != {}
  {
    if Others(c, st) == {} { OnlyRealm(c, st); }
  }
}
