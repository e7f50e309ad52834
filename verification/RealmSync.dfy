/** Neighbours synchronising a realm (dht_storage/messages.rs): reports, requests,
    and the flos sent in reply. */
module RealmSync {
  import opened Prelude
  import opened NodeIds
  import opened Realm
  import opened RealmStorage

  datatype FloCuckoo = FloCuckoo(flo: Flo, cuckoos: seq<Id>)

  /** The reply to RequestFlos: what is stored of the requested. */
  function Reply(flos: map<Id, FloStorage>, ids: seq<Id>): seq<FloCuckoo> {
    if ids == [] then []
    else
      var last := ids[|ids| - 1];
      Reply(flos, ids[..|ids| - 1])
        + (if last in flos then [FloCuckoo(flos[last].flo, flos[last].cuckoos)] else [])
  }

  /** One received flo; flos of other realms are no concern of this store. */
  ghost function Receive(c: Config, st: Store, fc: FloCuckoo, now: int): Store {
    if fc.flo.realm != c.realmId then st
    else StoreAllCuckoos(c, UpsertFlo(c, st, fc.flo, now), fc.flo.id, fc.cuckoos)
  }

  ghost function ReceiveAll(c: Config, st: Store, fcs: seq<FloCuckoo>, now: int): Store {
    if fcs == [] then st
    else Receive(c, ReceiveAll(c, st, fcs[..|fcs| - 1], now), fcs[|fcs| - 1], now)
  }

  /** Neither refusal nor eviction: the flo is small enough, and there is room for it. */
  ghost predicate HasRoom(c: Config, st: Store, flo: Flo, now: int) {
    var s := StoreParent(c, st, flo);
    && !TooBig(c, flo)
    && (flo.id !in s.flos ==> s.size + c.entrySize(FloStorage(flo, [], now)) <= c.maxSpace)
    && Stored(c, st, flo, now).size <= c.maxSpace
  }

  ghost predicate HasRoomForAll(c: Config, st: Store, fcs: seq<FloCuckoo>, now: int) {
    forall i :: 0 <= i < |fcs| && fcs[i].flo.realm == c.realmId ==>
      HasRoom(c, ReceiveAll(c, st, fcs[..i], now), fcs[i].flo, now)
  }

  // ------------------------------------------------------------- what is kept

  ghost predicate AllOfRealm(c: Config, st: Store) {
    forall id :: id in st.flos ==> st.flos[id].flo.realm == c.realmId
  }

  ghost predicate CuckoosDistinct(st: Store) {
    forall id :: id in st.flos ==> Distinct(st.flos[id].cuckoos)
  }

  /** At least the version, and every cuckoo. */
  ghost predicate Knows(st: Store, fc: FloCuckoo) {
    && fc.flo.id in st.flos && st.flos[fc.flo.id].flo.version >= fc.flo.version
    && forall x :: x in fc.cuckoos ==> x in st.flos[fc.flo.id].cuckoos
  }

  /** The same flo, with cuckoos only added at the end. */
  ghost predicate Grew(a: Store, b: Store, id: Id) {
    id in a.flos && id in b.flos && b.flos[id].flo == a.flos[id].flo && a.flos[id].cuckoos <= b.flos[id].cuckoos
  }

  lemma GrewOn(a: Store, b: Store, c: Store, id: Id)
    requires Grew(a, b, id) && Grew(b, c, id)
    ensures Grew(a, c, id)
  {
  }

  lemma KnowsOn(a: Store, b: Store, fc: FloCuckoo)
    requires Knows(a, fc) && Grew(a, b, fc.flo.id)
    ensures Knows(b, fc)
  {
  }

  lemma StoreCuckooGrows(c: Config, st: Store, parent: Id, cuckoo: Id)
    ensures var r := StoreCuckooId(c, st, parent, cuckoo);
      && (forall id :: id in st.flos ==> Grew(st, r, id))
      && (parent in st.flos ==> cuckoo in r.flos[parent].cuckoos)
      && (CuckoosDistinct(st) ==> CuckoosDistinct(r))
  {
    if parent in st.flos && cuckoo !in st.flos[parent].cuckoos && CuckoosDistinct(st) {
      DistinctPlus(st.flos[parent].cuckoos, cuckoo);
    }
  }

  lemma DistinctPlus(s: seq<Id>, x: Id)
    requires Distinct(s) && x !in s
    ensures Distinct(s + [x])
  {
  }

  lemma {:induction false} StoreAllCuckoosGrows(c: Config, st: Store, parent: Id, cuckoos: seq<Id>)
    requires Inv(c, st)
    ensures var r := StoreAllCuckoos(c, st, parent, cuckoos);
      && Inv(c, r) && r.flos.Keys == st.flos.Keys
      && (forall id :: id in st.flos ==> Grew(st, r, id))
      && (parent in st.flos ==> forall x :: x in cuckoos ==> x in r.flos[parent].cuckoos)
      && (CuckoosDistinct(st) ==> CuckoosDistinct(r))
  {
    if cuckoos != [] {
      var front, last := cuckoos[..|cuckoos| - 1], cuckoos[|cuckoos| - 1];
      assert cuckoos == front + [last];
      StoreAllCuckoosGrows(c, st, parent, front);
      var s := StoreAllCuckoos(c, st, parent, front);
      StoreCuckooIdInv(c, s, parent, last);
      StoreCuckooGrows(c, s, parent, last);
      forall id | id in st.flos ensures Grew(st, StoreCuckooId(c, s, parent, last), id) {
        GrewOn(st, s, StoreCuckooId(c, s, parent, last), id);
      }
    }
  }

  // --------------------------------------------------------------- one flo

  /** What a store may become when it takes a flo without evicting. */
  ghost predicate Took(st: Store, r: Store, flo: Flo) {
    && r.flos.Keys == st.flos.Keys + {flo.id} && r.flos[flo.id].flo.version >= flo.version
    && (forall id :: id in st.flos && id != flo.id ==> Grew(st, r, id))
    && (CuckoosDistinct(st) ==> CuckoosDistinct(r))
  }

  lemma PutTakes(c: Config, st: Store, flo: Flo, now: int)
    ensures Took(st, Put(c, st, flo, now), flo)
  {
  }

  lemma TookAfter(a: Store, b: Store, r: Store, flo: Flo)
    requires a.flos.Keys == b.flos.Keys && (forall id :: id in a.flos ==> Grew(a, b, id))
    requires CuckoosDistinct(a) ==> CuckoosDistinct(b)
    requires Took(b, r, flo)
    ensures Took(a, r, flo)
  {
    forall id | id in a.flos && id != flo.id ensures Grew(a, r, id) {
      GrewOn(a, b, r, id);
    }
  }

  /** With room, upsert_flo keeps everything else and leaves the flo at its version or newer. */
  lemma UpsertWithRoom(c: Config, st: Store, flo: Flo, now: int)
    requires Inv(c, st) && HasRoom(c, st, flo, now)
    ensures Inv(c, UpsertFlo(c, st, flo, now)) && Took(st, UpsertFlo(c, st, flo, now), flo)
  {
    UpsertFloInv(c, st, flo, now);
    StoreParentInv(c, st, flo);
    var s := StoreParent(c, st, flo);
    StoredTakes(c, s, flo, now);
    if flo.cuckoo.Parent? { StoreCuckooGrows(c, st, flo.cuckoo.id, flo.id); }
    TookAfter(st, s, Stored(c, st, flo, now), flo);
  }

  lemma StoredTakes(c: Config, s: Store, flo: Flo, now: int)
    requires flo.id !in s.flos ==> s.size + c.entrySize(FloStorage(flo, [], now)) <= c.maxSpace
    ensures Took(s, if Accepts(c, s, flo, now) then Put(c, s, flo, now) else s, flo)
  {
    PutTakes(c, s, flo, now);
  }

  lemma ReceiveWithRoom(c: Config, st: Store, fc: FloCuckoo, now: int)
    requires Inv(c, st) && CuckoosDistinct(st) && fc.flo.realm == c.realmId && HasRoom(c, st, fc.flo, now)
    ensures var r := Receive(c, st, fc, now);
      && Inv(c, r) && CuckoosDistinct(r) && Knows(r, fc)
      && forall id :: id in st.flos && id != fc.flo.id ==> Grew(st, r, id)
  {
    var s := UpsertFlo(c, st, fc.flo, now);
    UpsertWithRoom(c, st, fc.flo, now);
    StoreAllCuckoosGrows(c, s, fc.flo.id, fc.cuckoos);
    var r := StoreAllCuckoos(c, s, fc.flo.id, fc.cuckoos);
    forall id | id in st.flos && id != fc.flo.id ensures Grew(st, r, id) {
      GrewOn(st, s, r, id);
    }
    assert Grew(s, r, fc.flo.id);
  }

  /** Without room: a received flo, new or newer, is as good as reported exactly if it is
      accepted and stays; otherwise the same report asks for it again. */
  lemma ReceivedIsCoveredIff(c: Config, st: Store, fc: FloCuckoo, now: int)
    requires Inv(c, st) && fc.flo.realm == c.realmId && Distinct(fc.cuckoos)
    requires fc.flo.id in st.flos ==> st.flos[fc.flo.id].flo.version < fc.flo.version
    ensures var flo, before, e := fc.flo, StoreParent(c, st, fc.flo), FloStorage(fc.flo, [], now);
      Covers(Receive(c, st, fc, now).flos, FloMeta(flo.id, |fc.cuckoos|, flo.version)) <==>
        && c.floSize(flo) * 3 <= c.maxSpace
        && (flo.id !in st.flos ==>
              || before.size + c.entrySize(e) <= c.maxSpace
              || c.entrySize(e) <= Weight(c, before.flos, Farther(c, before.flos.Keys, c.depth(flo.id))))
        && (flo.id != c.realmId ==>
              before.size - Bytes(c, before.flos, flo.id) + c.entrySize(e)
                - Weight(c, before.flos, Farther(c, before.flos.Keys - {c.realmId}, c.depth(flo.id))) <= c.maxSpace)
  {
    var s := UpsertFlo(c, st, fc.flo, now);
    UpsertStores(c, st, fc.flo, now);
    UpsertFloInv(c, st, fc.flo, now);
    StoreAllCuckoosGrows(c, s, fc.flo.id, fc.cuckoos);
    var r := StoreAllCuckoos(c, s, fc.flo.id, fc.cuckoos);
    StoredOrGone(c, st, fc.flo, now);
    if fc.flo.id in s.flos { ContainedIsShorter(fc.cuckoos, r.flos[fc.flo.id].cuckoos); }
  }

  lemma StoredOrGone(c: Config, st: Store, flo: Flo, now: int)
    requires Inv(c, st) && (flo.id in st.flos ==> st.flos[flo.id].flo.version < flo.version)
    ensures var s := UpsertFlo(c, st, flo, now);
      flo.id in s.flos ==> s.flos[flo.id].flo.version < flo.version || Holds(s, FloStorage(flo, [], now))
  {
    StoreParentInv(c, st, flo);
    EvictKeepsRealm(c, Stored(c, st, flo, now));
  }

  /** A refused flo is asked for again. */
  lemma RefusedIsAskedAgain(realm: Flo, flo: Flo)
    requires flo.id != realm.id == realm.realm == flo.realm && flo.cuckoo == NoCuckoo
    ensures
      var c := Config(realm.id, 3, id => Depth(realm.id, id), f => 1, e => 2);
      var after := Receive(c, Run(c, realm, 0, []), FloCuckoo(flo, []), 0);
      Wanted(after.flos, [FloMeta(flo.id, 0, flo.version)]) == [flo.id]
  {
    AnswerIsNotStoredAt(realm, flo);
  }

  // ------------------------------------------------------------ a whole round

  /** All flos come from a store of the realm. */
  ghost predicate From(c: Config, flos: map<Id, FloStorage>, fcs: seq<FloCuckoo>) {
    forall fc :: fc in fcs ==>
      fc.flo.id in flos && flos[fc.flo.id].flo == fc.flo && flos[fc.flo.id].cuckoos == fc.cuckoos
      && fc.flo.realm == c.realmId
  }

  ghost predicate Brings(fcs: seq<FloCuckoo>, id: Id) { exists fc :: fc in fcs && fc.flo.id == id }

  lemma NotBrought(fcs: seq<FloCuckoo>, id: Id)
    requires fcs != [] && !Brings(fcs, id)
    ensures !Brings(fcs[..|fcs| - 1], id) && fcs[|fcs| - 1].flo.id != id
  {
    var front, last := fcs[..|fcs| - 1], fcs[|fcs| - 1];
    assert last in fcs && forall fc :: fc in front ==> fc in fcs;
  }

  /** What became of a store that received some flos: it knows them, the others only grew. */
  ghost predicate Received(st: Store, r: Store, fcs: seq<FloCuckoo>) {
    && (forall fc :: fc in fcs ==> Knows(r, fc))
    && (forall id :: id in st.flos && !Brings(fcs, id) ==> Grew(st, r, id))
  }

  lemma ReceivedMore(c: Config, st: Store, s: Store, r: Store, theirs: map<Id, FloStorage>, fcs: seq<FloCuckoo>)
    requires fcs != [] && From(c, theirs, fcs) && Received(st, s, fcs[..|fcs| - 1])
    requires Knows(r, fcs[|fcs| - 1])
    requires forall id :: id in s.flos && id != fcs[|fcs| - 1].flo.id ==> Grew(s, r, id)
    ensures Received(st, r, fcs)
  {
    var front, last := fcs[..|fcs| - 1], fcs[|fcs| - 1];
    assert fcs == front + [last];
    forall fc | fc in front ensures Knows(r, fc) {
      assert Knows(s, fc);
      if fc.flo.id == last.flo.id { assert fc == last; } else { KnowsOn(s, r, fc); }
    }
    forall id | id in st.flos && !Brings(fcs, id) ensures Grew(st, r, id) {
      NotBrought(fcs, id);
      GrewOn(st, s, r, id);
    }
  }

  lemma RoomForFront(c: Config, st: Store, fcs: seq<FloCuckoo>, now: int)
    requires fcs != [] && HasRoomForAll(c, st, fcs, now)
    ensures var front, last := fcs[..|fcs| - 1], fcs[|fcs| - 1];
      && HasRoomForAll(c, st, front, now)
      && (last.flo.realm == c.realmId ==> HasRoom(c, ReceiveAll(c, st, front, now), last.flo, now))
  {
    var front := fcs[..|fcs| - 1];
    forall i | 0 <= i < |front| ensures front[..i] == fcs[..i] { }
  }

  lemma {:induction false} ReceiveAllWithRoom(
      c: Config, st: Store, theirs: map<Id, FloStorage>, fcs: seq<FloCuckoo>, now: int)
    requires Inv(c, st) && CuckoosDistinct(st) && From(c, theirs, fcs) && HasRoomForAll(c, st, fcs, now)
    ensures var r := ReceiveAll(c, st, fcs, now);
      Inv(c, r) && CuckoosDistinct(r) && Received(st, r, fcs)
  {
    if fcs != [] {
      var front, last := fcs[..|fcs| - 1], fcs[|fcs| - 1];
      RoomForFront(c, st, fcs, now);
      assert last in fcs && forall fc :: fc in front ==> fc in fcs;
      ReceiveAllWithRoom(c, st, theirs, front, now);
      var s := ReceiveAll(c, st, front, now);
      ReceiveWithRoom(c, s, last, now);
      ReceivedMore(c, st, s, Receive(c, s, last, now), theirs, fcs);
    }
  }

  lemma {:induction false} ReplyFrom(c: Config, b: Store, ids: seq<Id>)
    requires Inv(c, b) && AllOfRealm(c, b)
    ensures From(c, b.flos, Reply(b.flos, ids))
    ensures forall id :: id in ids && id in b.flos ==>
      FloCuckoo(b.flos[id].flo, b.flos[id].cuckoos) in Reply(b.flos, ids)
    ensures forall fc :: fc in Reply(b.flos, ids) ==> fc.flo.id in ids
  {
    if ids != [] {
      ReplyFrom(c, b, ids[..|ids| - 1]);
      assert ids == ids[..|ids| - 1] + [ids[|ids| - 1]];
    }
  }

  lemma {:induction false} ContainedIsShorter(s: seq<Id>, t: seq<Id>)
    requires Distinct(s) && forall x :: x in s ==> x in t
    ensures |s| <= |t|
  {
    if s != [] {
      var x := s[|s| - 1];
      var front := s[..|s| - 1];
      assert x in s && x in t;
      var i :| 0 <= i < |t| && t[i] == x;
      var rest := t[..i] + t[i + 1..];
      forall y | y in front ensures y in rest {
        var k :| 0 <= k < |front| && front[k] == y;
        assert s[k] == y && y != x && y in t;
        var j :| 0 <= j < |t| && t[j] == y;
        assert if j < i then rest[j] == y else rest[j - 1] == y;
      }
      ContainedIsShorter(front, rest);
    }
  }

  /** Each flo of b is also in r, in its version or a newer one and with as many cuckoos. */
  ghost predicate HoldsAsMuch(r: Store, b: Store) {
    forall id :: id in b.flos ==>
      && id in r.flos && r.flos[id].flo.version >= b.flos[id].flo.version
      && |r.flos[id].cuckoos| >= |b.flos[id].cuckoos|
  }

  /** One round is a fixed point: after the reports of a neighbour and its reply to the
      request, all it holds is held here, at its version or newer and with as many cuckoos,
      so the same report asks for nothing. */
  lemma SyncRound(c: Config, a: Store, cb: Config, b: Store, metas: seq<FloMeta>, now: int)
    requires Inv(c, a) && CuckoosDistinct(a)
    requires Inv(cb, b) && CuckoosDistinct(b) && cb.realmId == c.realmId && AllOfRealm(cb, b)
    requires AreMetas(b.flos, b.flos.Keys, metas)
    requires HasRoomForAll(c, a, Reply(b.flos, Wanted(a.flos, metas)), now)
    ensures var r := ReceiveAll(c, a, Reply(b.flos, Wanted(a.flos, metas)), now);
      && Inv(c, r) && (forall m :: m in metas ==> Covers(r.flos, m)) && Wanted(r.flos, metas) == []
      && HoldsAsMuch(r, b)
  {
    var ids := Wanted(a.flos, metas);
    var fcs := Reply(b.flos, ids);
    ReplyFrom(cb, b, ids);
    ReceiveAllWithRoom(c, a, b.flos, fcs, now);
    var r := ReceiveAll(c, a, fcs, now);
    forall m | m in metas ensures Covers(r.flos, m) {
      WantedMembers(a.flos, metas, m.id);
      CoveredAfter(a, b, r, m, ids, fcs, metas);
    }
    NothingWanted(r.flos, metas);
    CoveredIsHeld(b, r, metas);
  }

  lemma CoveredIsHeld(b: Store, r: Store, metas: seq<FloMeta>)
    requires AreMetas(b.flos, b.flos.Keys, metas) && forall m :: m in metas ==> Covers(r.flos, m)
    ensures HoldsAsMuch(r, b)
  {
    forall id | id in b.flos ensures Covers(r.flos, FloMeta(id, |b.flos[id].cuckoos|, b.flos[id].flo.version)) {
      assert FloMeta(id, |b.flos[id].cuckoos|, b.flos[id].flo.version) in metas;
    }
  }

  lemma CoveredAfter(
      a: Store, b: Store, r: Store, m: FloMeta, ids: seq<Id>, fcs: seq<FloCuckoo>, metas: seq<FloMeta>)
    requires CuckoosDistinct(b) && m in metas && AreMetas(b.flos, b.flos.Keys, metas)
    requires forall id :: id in b.flos ==> b.flos[id].flo.id == id
    requires m.id in ids <==> exists n :: n in metas && !Covers(a.flos, n) && n.id == m.id
    requires forall id :: id in ids && id in b.flos ==> FloCuckoo(b.flos[id].flo, b.flos[id].cuckoos) in fcs
    requires forall fc :: fc in fcs ==> fc.flo.id in ids
    requires Received(a, r, fcs)
    ensures Covers(r.flos, m)
  {
    if m.id in ids {
      var fc := FloCuckoo(b.flos[m.id].flo, b.flos[m.id].cuckoos);
      assert Knows(r, fc);
      ContainedIsShorter(fc.cuckoos, r.flos[m.id].cuckoos);
    } else {
      assert Covers(a.flos, m);
      assert !Brings(fcs, m.id);
      assert Grew(a, r, m.id);
    }
  }

  // -------------------------------------------------------------- the messages

  /** Handles RequestFlos. */
  method RequestFlos(b: RealmStorage, ids: seq<Id>) returns (fcs: seq<FloCuckoo>)
    requires b.Valid()
    ensures fcs == Reply(b.flos, ids)
  {
    fcs := [];
    for i := 0 to |ids|
      invariant fcs == Reply(b.flos, ids[..i])
    {
      assert ids[..i + 1][..i] == ids[..i];
      var found := b.GetFloCuckoo(ids[i]);
      if found.Some? { fcs := fcs + [FloCuckoo(found.value.0, found.value.1)]; }
    }
    assert ids[..|ids|] == ids;
  }

  /** Every eviction on the way comes to an end. */
  ghost predicate AllEnd(c: Config, st: Store, fcs: seq<FloCuckoo>, now: int) {
    forall i :: 0 <= i < |fcs| && fcs[i].flo.realm == c.realmId ==>
      EvictionEnds(c, ReceiveAll(c, st, fcs[..i], now), fcs[i].flo, now)
  }

  lemma PrefixHasRoom(c: Config, st: Store, theirs: map<Id, FloStorage>, fcs: seq<FloCuckoo>, now: int, i: nat)
    requires i <= |fcs| && From(c, theirs, fcs) && HasRoomForAll(c, st, fcs, now)
    ensures From(c, theirs, fcs[..i]) && HasRoomForAll(c, st, fcs[..i], now)
  {
    var front := fcs[..i];
    forall j | 0 <= j < i ensures front[..j] == fcs[..j] { }
    assert forall fc :: fc in front ==> fc in fcs;
  }

  lemma RoomEndsAt(c: Config, st: Store, theirs: map<Id, FloStorage>, fcs: seq<FloCuckoo>, now: int, i: nat)
    requires Inv(c, st) && CuckoosDistinct(st) && From(c, theirs, fcs) && HasRoomForAll(c, st, fcs, now)
    requires i < |fcs| && fcs[i].flo.realm == c.realmId
    ensures EvictionEnds(c, ReceiveAll(c, st, fcs[..i], now), fcs[i].flo, now)
  {
    PrefixHasRoom(c, st, theirs, fcs, now, i);
    ReceiveAllWithRoom(c, st, theirs, fcs[..i], now);
    RoomForRealm(c, ReceiveAll(c, st, fcs[..i], now), fcs[i].flo, now);
  }

  /** With room nothing is evicted at all. */
  lemma RoomEnds(c: Config, st: Store, theirs: map<Id, FloStorage>, fcs: seq<FloCuckoo>, now: int)
    requires Inv(c, st) && CuckoosDistinct(st) && From(c, theirs, fcs) && HasRoomForAll(c, st, fcs, now)
    ensures AllEnd(c, st, fcs, now)
  {
    forall i | 0 <= i < |fcs| && fcs[i].flo.realm == c.realmId
      ensures EvictionEnds(c, ReceiveAll(c, st, fcs[..i], now), fcs[i].flo, now)
    {
      RoomEndsAt(c, st, theirs, fcs, now, i);
    }
  }

  /** Handles Flos, whether or not there is room for them. */
  method Flos(a: RealmStorage, fcs: seq<FloCuckoo>, now: int)
    requires a.Valid() && AllEnd(a.config, a.Model(), fcs, now)
    modifies a
    ensures a.Valid() && a.Model() == ReceiveAll(a.config, old(a.Model()), fcs, now)
  {
    ghost var start := a.Model();
    for i := 0 to |fcs|
      invariant a.Valid() && a.Model() == ReceiveAll(a.config, start, fcs[..i], now)
    {
      assert fcs[..i + 1][..i] == fcs[..i];
      if fcs[i].flo.realm == a.config.realmId {
        ReceiveOne(a, fcs[i], now);
      }
    }
    assert fcs[..|fcs|] == fcs;
  }

  method ReceiveOne(a: RealmStorage, fc: FloCuckoo, now: int)
    requires a.Valid() && fc.flo.realm == a.config.realmId && EvictionEnds(a.config, a.Model(), fc.flo, now)
    modifies a
    ensures a.Valid() && a.Model() == Receive(a.config, old(a.Model()), fc, now)
  {
    var _ := a.UpsertFlo(fc.flo, now);
    a.StoreCuckooIds(fc.flo.id, fc.cuckoos);
  }

  lemma RoomForRealm(c: Config, st: Store, flo: Flo, now: int)
    requires Inv(c, st) && HasRoom(c, st, flo, now)
    ensures EvictionEnds(c, st, flo, now)
  {
    UpsertFloInv(c, st, flo, now);
    var s := Stored(c, st, flo, now);
    if c.realmId in s.flos { WeightWithout(c, s.flos, s.flos.Keys, c.realmId); }
  }

  /** Handles AvailableFlos of b at a, up to the flos sent in reply; with room for them,
      a holds everything that was reported. */
  method AvailableFlos(a: RealmStorage, b: RealmStorage, metas: seq<FloMeta>, now: int)
    requires a != b && a.Valid() && b.Valid() && AreMetas(b.flos, b.flos.Keys, metas)
    requires AllEnd(a.config, a.Model(), Reply(b.flos, Wanted(a.flos, metas)), now)
    modifies a
    ensures a.Valid()
    ensures var sent := Reply(b.flos, Wanted(old(a.flos), metas));
      a.Model() == ReceiveAll(a.config, old(a.Model()), sent, now)
    ensures old(RoundWithRoom(a.config, a.Model(), b.config, b.Model(), metas, now)) ==>
      forall m :: m in metas ==> Covers(a.flos, m)
  {
    if RoundWithRoom(a.config, a.Model(), b.config, b.Model(), metas, now) {
      SyncRound(a.config, a.Model(), b.config, b.Model(), metas, now);
    }
    var needed := a.SyncAvailable(metas);
    if needed.Some? {
      var fcs := RequestFlos(b, needed.value);
      Flos(a, fcs, now);
    }
  }

  /** Two stores of one realm, after any runs, and room at a for what b sends. */
  ghost predicate RoundWithRoom(c: Config, a: Store, cb: Config, b: Store, metas: seq<FloMeta>, now: int) {
    && CuckoosDistinct(a) && CuckoosDistinct(b) && c.realmId == cb.realmId && AllOfRealm(cb, b)
    && HasRoomForAll(c, a, Reply(b.flos, Wanted(a.flos, metas)), now)
  }

  // ---------------------------------------------------------------- any run

  /** What the theorem on a round asks of both stores holds after any run. */
  lemma {:induction false} RunKeeps(c: Config, realm: Flo, now: int, ops: seq<Op>)
    requires realm.id == realm.realm == c.realmId
    requires forall op :: op in ops && op.Upsert? ==> op.flo.realm == c.realmId
    ensures CuckoosDistinct(Run(c, realm, now, ops)) && AllOfRealm(c, Run(c, realm, now, ops))
  {
    if ops != [] {
      var front, last := ops[..|ops| - 1], ops[|ops| - 1];
      assert forall op :: op in front ==> op in ops;
      assert last in ops;
      RunKeeps(c, realm, now, front);
      var st := Run(c, realm, now, front);
      match last
      case Upsert(flo, t) => UpsertKeeps(c, st, flo, t);
      case StoreCuckoo(parent, cuckoo) => StoreCuckooGrows(c, st, parent, cuckoo);
    }
  }

  lemma StoredKeeps(c: Config, s: Store, flo: Flo, now: int)
    requires CuckoosDistinct(s) && AllOfRealm(c, s) && flo.realm == c.realmId
    ensures CuckoosDistinct(Put(c, s, flo, now)) && AllOfRealm(c, Put(c, s, flo, now))
  {
  }

  lemma UpsertKeeps(c: Config, st: Store, flo: Flo, now: int)
    requires CuckoosDistinct(st) && AllOfRealm(c, st) && flo.realm == c.realmId
    ensures CuckoosDistinct(UpsertFlo(c, st, flo, now)) && AllOfRealm(c, UpsertFlo(c, st, flo, now))
  {
    if flo.cuckoo.Parent? { StoreCuckooGrows(c, st, flo.cuckoo.id, flo.id); }
    StoredKeeps(c, StoreParent(c, st, flo), flo, now);
    EvictKeepsRealm(c, Stored(c, st, flo, now));
  }

  lemma {:induction false} CuckoosKeep(c: Config, st: Store, parent: Id, cuckoos: seq<Id>)
    requires CuckoosDistinct(st) && AllOfRealm(c, st)
    ensures CuckoosDistinct(StoreAllCuckoos(c, st, parent, cuckoos))
    ensures AllOfRealm(c, StoreAllCuckoos(c, st, parent, cuckoos))
  {
    if cuckoos != [] {
      var front := cuckoos[..|cuckoos| - 1];
      CuckoosKeep(c, st, parent, front);
      StoreCuckooGrows(c, StoreAllCuckoos(c, st, parent, front), parent, cuckoos[|cuckoos| - 1]);
    }
  }

  /** Nor does it matter what is received: flos of other realms never get in, and no cuckoo
      is noted twice. */
  lemma {:induction false} ReceivedKeeps(c: Config, st: Store, fcs: seq<FloCuckoo>, now: int)
    requires CuckoosDistinct(st) && AllOfRealm(c, st)
    ensures CuckoosDistinct(ReceiveAll(c, st, fcs, now)) && AllOfRealm(c, ReceiveAll(c, st, fcs, now))
    ensures (forall fc :: fc in fcs ==> fc.flo.realm != c.realmId) ==> ReceiveAll(c, st, fcs, now) == st
  {
    if fcs != [] {
      var front, last := fcs[..|fcs| - 1], fcs[|fcs| - 1];
      assert fcs == front + [last];
      ReceivedKeeps(c, st, front, now);
      var s := ReceiveAll(c, st, front, now);
      if last.flo.realm == c.realmId {
        UpsertKeeps(c, s, last.flo, now);
        CuckoosKeep(c, UpsertFlo(c, s, last.flo, now), last.flo.id, last.cuckoos);
      }
    }
  }
}
