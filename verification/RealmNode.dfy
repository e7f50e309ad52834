/** All realms of a node, each with a store of its own (dht_storage/messages.rs). */
module RealmNode {
  import opened Prelude
  import opened NodeIds
  import R = Realm
  import S = RealmStorage
  import Y = RealmSync

  /** What a node is configured with; a flo that is a realm gives the bound of its store. */
  datatype Config = Config(
    root: Id,
    realms: seq<Id>,
    depth: Id -> nat,
    asRealm: R.Flo -> Option<nat>,
    floSize: R.Flo -> nat,
    entrySize: R.FloStorage -> nat)

  /** One realm: the configuration of its store, and the store. */
  datatype State = State(config: R.Config, store: R.Store)

  type Realms = map<Id, State>

  predicate Accepts(c: Config, realm: Id) { c.realms == [] || realm in c.realms }

  function StoreConfig(c: Config, realm: Id, maxSpace: nat): R.Config {
    R.Config(realm, maxSpace, c.depth, c.floSize, c.entrySize)
  }

  function NewRealm(c: Config, flo: R.Flo, maxSpace: nat, now: int): State {
    var config := StoreConfig(c, flo.realm, maxSpace);
    State(config, R.Put(config, R.Store(map[], map[], 0), flo, now))
  }

  ghost function Upsert(c: Config, m: Realms, flo: R.Flo, now: int): Realms {
    if flo.realm in m then
      var s := m[flo.realm];
      m[flo.realm := s.(store := R.UpsertFlo(s.config, s.store, flo, now))]
    else if c.asRealm(flo).Some? && Accepts(c, flo.realm) then
      m[flo.realm := NewRealm(c, flo, c.asRealm(flo).value, now)]
    else m
  }

  ghost function Receive(c: Config, m: Realms, fc: Y.FloCuckoo, now: int): Realms {
    var u := Upsert(c, m, fc.flo, now);
    if fc.flo.realm in u then
      var s := u[fc.flo.realm];
      u[fc.flo.realm := s.(store := S.StoreAllCuckoos(s.config, s.store, fc.flo.id, fc.cuckoos))]
    else u
  }

  ghost function ReceiveAll(c: Config, m: Realms, fcs: seq<Y.FloCuckoo>, now: int): Realms {
    if fcs == [] then m
    else Receive(c, ReceiveAll(c, m, fcs[..|fcs| - 1], now), fcs[|fcs| - 1], now)
  }

  /** The eviction a flo may cause comes to an end. */
  ghost predicate Ends(m: Realms, flo: R.Flo, now: int) {
    flo.realm in m ==> R.EvictionEnds(m[flo.realm].config, m[flo.realm].store, flo, now)
  }

  ghost predicate AllEnd(c: Config, m: Realms, fcs: seq<Y.FloCuckoo>, now: int) {
    forall i :: 0 <= i < |fcs| ==> Ends(ReceiveAll(c, m, fcs[..i], now), fcs[i].flo, now)
  }

  /** Realms do not disturb each other: a store ends up with what it would have made of the
      received flos alone, those of other realms ignored. */
  lemma {:induction false} RealmsAreApart(c: Config, m: Realms, fcs: seq<Y.FloCuckoo>, now: int, realm: Id)
    requires realm in m && m[realm].config.realmId == realm
    ensures realm in ReceiveAll(c, m, fcs, now)
    ensures ReceiveAll(c, m, fcs, now)[realm]
      == State(m[realm].config, Y.ReceiveAll(m[realm].config, m[realm].store, fcs, now))
  {
    if fcs != [] {
      RealmsAreApart(c, m, fcs[..|fcs| - 1], now, realm);
    }
  }

  /** The fixed point of a round holds for a realm among others, too. */
  lemma NodeSyncRound(
      c: Config, m: Realms, realm: Id, cb: R.Config, b: R.Store, metas: seq<S.FloMeta>, now: int)
    requires realm in m && m[realm].config.realmId == realm == cb.realmId
    requires R.Inv(m[realm].config, m[realm].store) && Y.CuckoosDistinct(m[realm].store)
    requires R.Inv(cb, b) && Y.CuckoosDistinct(b) && Y.AllOfRealm(cb, b)
    requires S.AreMetas(b.flos, b.flos.Keys, metas)
    requires var fcs := Y.Reply(b.flos, S.Wanted(m[realm].store.flos, metas));
      Y.HasRoomForAll(m[realm].config, m[realm].store, fcs, now)
    ensures var r := ReceiveAll(c, m, Y.Reply(b.flos, S.Wanted(m[realm].store.flos, metas)), now);
      realm in r && S.Wanted(r[realm].store.flos, metas) == []
  {
    var fcs := Y.Reply(b.flos, S.Wanted(m[realm].store.flos, metas));
    RealmsAreApart(c, m, fcs, now, realm);
    Y.SyncRound(m[realm].config, m[realm].store, cb, b, metas, now);
  }

  /** Exactly what a flo of an unknown realm does: if it is a realm the node accepts, that
      gets a store with its bound which holds just the flo; otherwise nothing happens. */
  lemma NewRealmIs(c: Config, m: Realms, flo: R.Flo, now: int)
    requires flo.realm !in m
    ensures var r := Upsert(c, m, flo, now);
      && (forall id :: id != flo.realm ==> (id in r <==> id in m) && (id in m ==> r[id] == m[id]))
      && (flo.realm in r <==> c.asRealm(flo).Some? && (c.realms == [] || flo.realm in c.realms))
      && (flo.realm in r ==> var s := r[flo.realm];
            && s.config == R.Config(flo.realm, c.asRealm(flo).value, c.depth, c.floSize, c.entrySize)
            && s.store.flos == map[flo.id := R.FloStorage(flo, [], now)]
            && R.Inv(s.config, s.store))
  {
    if c.asRealm(flo).Some? && Accepts(c, flo.realm) {
      var config := StoreConfig(c, flo.realm, c.asRealm(flo).value);
      R.PutInv(config, R.Store(map[], map[], 0), flo, now);
    }
  }

  /** Only flos that are accepted realms add stores, and no store goes away. */
  lemma {:induction false} NewRealmsAreAccepted(c: Config, m: Realms, fcs: seq<Y.FloCuckoo>, now: int, realm: Id)
    ensures realm in m ==> realm in ReceiveAll(c, m, fcs, now)
    ensures realm in ReceiveAll(c, m, fcs, now) && realm !in m ==>
      Accepts(c, realm) && exists fc :: fc in fcs && fc.flo.realm == realm && c.asRealm(fc.flo).Some?
  {
    if fcs != [] {
      var front, last := fcs[..|fcs| - 1], fcs[|fcs| - 1];
      assert fcs == front + [last];
      NewRealmsAreAccepted(c, m, front, now, realm);
    }
  }

  lemma Updated(a: Realms, b: Realms, id: Id, s: State)
    requires b.Keys == a.Keys + {id} && b[id] == s && forall x :: x in a && x != id ==> b[x] == a[x]
    ensures b == a[id := s]
  {
  }

  class Messages {
    const config: Config
    var realms: map<Id, S.RealmStorage>

    constructor (config: Config)
      requires forall id :: config.depth(id) == Depth(config.root, id)
      ensures this.config == config && realms == map[] && Valid()
    {
      this.config := config;
      realms := map[];
    }

    /** Every realm has a store of its own, set up for it. */
    ghost predicate Valid()
      reads this, realms.Values
    {
      && (forall id :: config.depth(id) == Depth(config.root, id))
      && (forall id :: id in realms ==> realms[id].Valid() && realms[id].config.realmId == id)
      && forall i, j :: i in realms && j in realms && i != j ==> realms[i] != realms[j]
    }

    ghost function StateOf(realm: Id): State
      requires realm in realms
      reads this, realms.Values
    {
      State(realms[realm].config, realms[realm].Model())
    }

    ghost function Model(): Realms
      reads this, realms.Values
    {
      map id | id in realms :: StateOf(id)
    }

    /** A known realm takes the flo; an accepted new realm gets a store. */
    method UpsertFlo(flo: R.Flo, now: int) returns (modification: bool)
      requires Valid() && Ends(Model(), flo, now)
      modifies this, realms.Values
      ensures Valid() && Model() == Upsert(config, old(Model()), flo, now)
      ensures fresh(realms.Values - old(realms.Values))
      ensures modification <==>
        if flo.realm in old(realms) then
          R.UpsertAnswer(old(Model())[flo.realm].config, old(Model())[flo.realm].store, flo)
        else config.asRealm(flo).Some? && Accepts(config, flo.realm)
    {
      if flo.realm in realms {
        assert Model()[flo.realm] == StateOf(flo.realm);
        modification := UpsertKnown(flo, now);
        return;
      }
      var bound := config.asRealm(flo);
      if bound.None? || !Accepts(config, flo.realm) {
        return false;
      }
      CreateRealm(flo, bound.value, now);
      return true;
    }

    method UpsertKnown(flo: R.Flo, now: int) returns (isNew: bool)
      requires Valid() && flo.realm in realms
      requires R.EvictionEnds(StateOf(flo.realm).config, StateOf(flo.realm).store, flo, now)
      modifies realms.Values
      ensures Valid()
      ensures var s := old(StateOf(flo.realm));
        && Model() == old(Model())[flo.realm := s.(store := R.UpsertFlo(s.config, s.store, flo, now))]
        && (isNew <==> R.UpsertAnswer(s.config, s.store, flo))
    {
      ghost var before, state := Model(), StateOf(flo.realm);
      var s := realms[flo.realm];
      isNew := s.UpsertFlo(flo, now);
      forall id | id in realms && id != flo.realm ensures realms[id].Valid() && StateOf(id) == before[id] {
        assert realms[id] != s;
      }
      Updated(before, Model(), flo.realm, state.(store := R.UpsertFlo(state.config, state.store, flo, now)));
    }

    method NewStore(flo: R.Flo, maxSpace: nat, now: int) returns (store: S.RealmStorage)
      requires forall id :: config.depth(id) == Depth(config.root, id)
      ensures fresh(store) && store.Valid() && store.config.realmId == flo.realm
      ensures State(store.config, store.Model()) == NewRealm(config, flo, maxSpace, now)
    {
      store := new S.RealmStorage(config.root, flo, StoreConfig(config, flo.realm, maxSpace), now);
    }

    method CreateRealm(flo: R.Flo, maxSpace: nat, now: int)
      requires Valid() && flo.realm !in realms
      modifies this`realms
      ensures Valid() && Model() == old(Model())[flo.realm := NewRealm(config, flo, maxSpace, now)]
      ensures fresh(realms.Values - old(realms.Values))
    {
      ghost var before, state := Model(), NewRealm(config, flo, maxSpace, now);
      var store := NewStore(flo, maxSpace, now);
      realms := realms[flo.realm := store];
      forall id | id in before ensures realms[id].Valid() && StateOf(id) == before[id] { }
      assert StateOf(flo.realm) == state;
      Updated(before, Model(), flo.realm, state);
    }

    method StoreCuckooIds(realm: Id, parent: Id, cuckoos: seq<Id>)
      requires Valid() && realm in realms
      modifies realms.Values
      ensures Valid()
      ensures var s := old(StateOf(realm));
        Model() == old(Model())[realm := s.(store := S.StoreAllCuckoos(s.config, s.store, parent, cuckoos))]
    {
      ghost var before := Model();
      var s := realms[realm];
      s.StoreCuckooIds(parent, cuckoos);
      forall id | id in realms && id != realm ensures realms[id].Valid() && StateOf(id) == before[id] {
        assert realms[id] != s;
      }
    }

    method ReceiveOne(fc: Y.FloCuckoo, now: int)
      requires Valid() && Ends(Model(), fc.flo, now)
      modifies this, realms.Values
      ensures Valid() && Model() == Receive(config, old(Model()), fc, now)
      ensures fresh(realms.Values - old(realms.Values))
    {
      var _ := UpsertFlo(fc.flo, now);
      if fc.flo.realm in realms {
        StoreCuckooIds(fc.flo.realm, fc.flo.id, fc.cuckoos);
      }
    }

    /** Handles Flos. */
    method Flos(fcs: seq<Y.FloCuckoo>, now: int)
      requires Valid() && AllEnd(config, Model(), fcs, now)
      modifies this, realms.Values
      ensures Valid() && Model() == ReceiveAll(config, old(Model()), fcs, now)
    {
      ghost var start := Model();
      for i := 0 to |fcs|
        invariant Valid() && Model() == ReceiveAll(config, start, fcs[..i], now)
        invariant fresh(realms.Values - old(realms.Values))
      {
        assert fcs[..i + 1][..i] == fcs[..i];
        ReceiveOne(fcs[i], now);
      }
      assert fcs[..|fcs|] == fcs;
    }
  }
}
