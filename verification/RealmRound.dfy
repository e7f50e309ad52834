/** A synchronisation round without room: which reports are covered after all evictions
    (dht_storage/messages.rs). */
module RealmRound {
  import opened Prelude
  import opened NodeIds
  import opened Realm
  import opened RealmStorage
  import opened RealmSync

  /** A stored flo outlives the arrival of another one. */
  ghost predicate StaysAt(c: Config, st: Store, fc: FloCuckoo, now: int, id: Id) {
    fc.flo.realm == c.realmId && !TooBig(c, fc.flo) ==> Survives(c, Stored(c, st, fc.flo, now), id)
  }

  /** A received flo is held afterwards, in its version or a newer one. */
  ghost predicate ArrivesAt(c: Config, st: Store, fc: FloCuckoo, now: int) {
    if TooBig(c, fc.flo) then fc.flo.id in st.flos && st.flos[fc.flo.id].flo.version >= fc.flo.version
    else
      var s := Stored(c, st, fc.flo, now);
      fc.flo.id in s.flos && Survives(c, s, fc.flo.id)
  }

  lemma ReceiveInv(c: Config, st: Store, fc: FloCuckoo, now: int)
    requires Inv(c, st)
    ensures Inv(c, Receive(c, st, fc, now))
  {
    UpsertFloInv(c, st, fc.flo, now);
    StoreAllCuckoosGrows(c, UpsertFlo(c, st, fc.flo, now), fc.flo.id, fc.cuckoos);
  }

  lemma StoredOthers(c: Config, st: Store, flo: Flo, now: int, id: Id)
    requires Inv(c, st) && flo.id != id
    ensures id in Stored(c, st, flo, now).flos <==> id in st.flos
    ensures id in st.flos ==> Grew(st, Stored(c, st, flo, now), id)
  {
    StoreParentInv(c, st, flo);
    if flo.cuckoo.Parent? { StoreCuckooGrows(c, st, flo.cuckoo.id, flo.id); }
  }

  /** One more flo arrives: exactly when another one stays. */
  lemma OtherStaysIff(c: Config, st: Store, fc: FloCuckoo, now: int, id: Id)
    requires Inv(c, st) && fc.flo.id != id
    ensures var r := Receive(c, st, fc, now);
      && (id in r.flos <==> id in st.flos && StaysAt(c, st, fc, now, id))
      && (id in r.flos ==> Grew(st, r, id))
  {
    var r := Receive(c, st, fc, now);
    if fc.flo.realm == c.realmId {
      var s, u := Stored(c, st, fc.flo, now), UpsertFlo(c, st, fc.flo, now);
      UpsertFloInv(c, st, fc.flo, now);
      StoreAllCuckoosGrows(c, u, fc.flo.id, fc.cuckoos);
      if !TooBig(c, fc.flo) {
        StoredOthers(c, st, fc.flo, now, id);
        EvictKeepsRealm(c, s);
        if id in s.flos { SurvivesIff(c, s, id); }
      }
      if id in r.flos {
        assert Grew(st, u, id);
        GrewOn(st, u, r, id);
      }
    }
  }

  lemma StoredVersion(c: Config, st: Store, flo: Flo, now: int)
    requires Inv(c, st)
    ensures var s := Stored(c, st, flo, now);
      flo.id in s.flos ==> s.flos[flo.id].flo.version >= flo.version
  {
    StoreParentInv(c, st, flo);
  }

  /** The flo itself: exactly when it is held, with all cuckoos that came with it. */
  lemma ArrivesIff(c: Config, st: Store, fc: FloCuckoo, now: int)
    requires Inv(c, st) && fc.flo.realm == c.realmId
    ensures ArrivesAt(c, st, fc, now) <==> Knows(Receive(c, st, fc, now), fc)
    ensures ArrivesAt(c, st, fc, now) || !Current(Receive(c, st, fc, now), fc.flo.id, fc.flo.version)
  {
    var u := UpsertFlo(c, st, fc.flo, now);
    UpsertFloInv(c, st, fc.flo, now);
    StoreAllCuckoosGrows(c, u, fc.flo.id, fc.cuckoos);
    if !TooBig(c, fc.flo) {
      var s := Stored(c, st, fc.flo, now);
      StoredVersion(c, st, fc.flo, now);
      EvictKeepsRealm(c, s);
      if fc.flo.id in s.flos { SurvivesIff(c, s, fc.flo.id); }
    }
  }

  /** The flo is held in this version or a newer one. */
  ghost predicate Current(st: Store, id: Id, version: nat) { id in st.flos && st.flos[id].flo.version >= version }

  lemma {:induction false} ReceiveAllInv(c: Config, st: Store, fcs: seq<FloCuckoo>, now: int)
    requires Inv(c, st)
    ensures Inv(c, ReceiveAll(c, st, fcs, now))
  {
    if fcs != [] {
      ReceiveAllInv(c, st, fcs[..|fcs| - 1], now);
      ReceiveInv(c, ReceiveAll(c, st, fcs[..|fcs| - 1], now), fcs[|fcs| - 1], now);
    }
  }

  ghost predicate StaysFrom(c: Config, st: Store, fcs: seq<FloCuckoo>, now: int, n: nat, id: Id) {
    forall i :: n <= i < |fcs| ==> StaysAt(c, ReceiveAll(c, st, fcs[..i], now), fcs[i], now, id)
  }

  lemma StaysFromLast(c: Config, st: Store, fcs: seq<FloCuckoo>, now: int, n: nat, id: Id)
    requires n < |fcs|
    ensures var m := |fcs| - 1;
      StaysFrom(c, st, fcs, now, n, id) <==>
      StaysFrom(c, st, fcs[..m], now, n, id) && StaysAt(c, ReceiveAll(c, st, fcs[..m], now), fcs[m], now, id)
  {
    var m := |fcs| - 1;
    forall i | n <= i < m ensures fcs[..m][..i] == fcs[..i] { }
  }

  /** From some point of the reply on: exactly when a flo that is not among the rest stays. */
  lemma {:induction false} StaysIff(c: Config, st: Store, fcs: seq<FloCuckoo>, now: int, n: nat, id: Id)
    requires Inv(c, st) && n <= |fcs| && forall i :: n <= i < |fcs| ==> fcs[i].flo.id != id
    ensures var s, r := ReceiveAll(c, st, fcs[..n], now), ReceiveAll(c, st, fcs, now);
      && (id in r.flos <==> id in s.flos && StaysFrom(c, st, fcs, now, n, id))
      && (id in r.flos ==> Grew(s, r, id))
  {
    if n == |fcs| {
      assert fcs[..n] == fcs;
    } else {
      var m := |fcs| - 1;
      var t := ReceiveAll(c, st, fcs[..m], now);
      assert fcs[..m][..n] == fcs[..n];
      StaysIff(c, st, fcs[..m], now, n, id);
      StaysFromLast(c, st, fcs, now, n, id);
      ReceiveAllInv(c, st, fcs[..m], now);
      OtherStaysIff(c, t, fcs[m], now, id);
      if id in ReceiveAll(c, st, fcs, now).flos {
        GrewOn(ReceiveAll(c, st, fcs[..n], now), t, ReceiveAll(c, st, fcs, now), id);
      }
    }
  }

  // ------------------------------------------------------------ a whole round

  ghost predicate Once(fcs: seq<FloCuckoo>) { forall i, j :: 0 <= i < j < |fcs| ==> fcs[i].flo.id != fcs[j].flo.id }

  lemma {:induction false} WantedDistinct(flos: map<Id, FloStorage>, metas: seq<FloMeta>)
    requires forall i, j :: 0 <= i < j < |metas| ==> metas[i].id != metas[j].id
    ensures Distinct(Wanted(flos, metas))
  {
    if metas != [] {
      var n := |metas| - 1;
      WantedDistinct(flos, metas[..n]);
      WantedMembers(flos, metas[..n], metas[n].id);
      assert metas[n].id !in Wanted(flos, metas[..n]) by {
        forall m | m in metas[..n] ensures m.id != metas[n].id { }
      }
    }
  }

  lemma {:induction false} ReplyOnce(flos: map<Id, FloStorage>, ids: seq<Id>)
    requires Distinct(ids) && forall id :: id in flos ==> flos[id].flo.id == id
    ensures Once(Reply(flos, ids))
    ensures forall fc :: fc in Reply(flos, ids) ==> fc.flo.id in ids
  {
    if ids != [] {
      var front, last := ids[..|ids| - 1], ids[|ids| - 1];
      ReplyOnce(flos, front);
      assert ids == front + [last] && last !in front;
    }
  }

  /** The reply to the request after some reports brings every flo once. */
  lemma RoundOnce(a: map<Id, FloStorage>, b: Store, metas: seq<FloMeta>)
    requires (forall id :: id in b.flos ==> b.flos[id].flo.id == id) && AreMetas(b.flos, b.flos.Keys, metas)
    ensures Once(Reply(b.flos, Wanted(a, metas)))
  {
    forall i, j | 0 <= i < j < |metas| ensures metas[i].id != metas[j].id {
      assert metas[i] in metas && metas[j] in metas;
    }
    WantedDistinct(a, metas);
    ReplyOnce(b.flos, Wanted(a, metas));
  }

  /** A report of what was held already: exactly when it is still covered after the round. */
  lemma HeldReportIff(c: Config, a: Store, fcs: seq<FloCuckoo>, now: int, m: FloMeta)
    requires Inv(c, a) && Covers(a.flos, m) && forall fc :: fc in fcs ==> fc.flo.id != m.id
    ensures Covers(ReceiveAll(c, a, fcs, now).flos, m) <==> StaysFrom(c, a, fcs, now, 0, m.id)
  {
    assert fcs[..0] == [];
    forall i | 0 <= i < |fcs| ensures fcs[i].flo.id != m.id { assert fcs[i] in fcs; }
    StaysIff(c, a, fcs, now, 0, m.id);
  }

  function ReportOf(fc: FloCuckoo): FloMeta { FloMeta(fc.flo.id, |fc.cuckoos|, fc.flo.version) }

  /** A report of what was asked for: exactly when it is covered after the round. */
  lemma AskedReportIff(c: Config, a: Store, fcs: seq<FloCuckoo>, now: int, j: nat)
    requires Inv(c, a) && j < |fcs| && Once(fcs) && fcs[j].flo.realm == c.realmId && Distinct(fcs[j].cuckoos)
    ensures Covers(ReceiveAll(c, a, fcs, now).flos, ReportOf(fcs[j])) <==> ComesToStay(c, a, fcs, now, j)
  {
    var fc, r := fcs[j], ReceiveAll(c, a, fcs, now);
    var s, t := ReceiveAll(c, a, fcs[..j], now), ReceiveAll(c, a, fcs[..j + 1], now);
    assert fcs[..j + 1][..j] == fcs[..j] && t == Receive(c, s, fc, now);
    ReceiveAllInv(c, a, fcs[..j], now);
    ArrivesIff(c, s, fc, now);
    StaysIff(c, a, fcs, now, j + 1, fc.flo.id);
    if Knows(t, fc) && fc.flo.id in r.flos {
      KnowsOn(t, r, fc);
      ContainedIsShorter(fc.cuckoos, r.flos[fc.flo.id].cuckoos);
    }
  }

  ghost predicate StaysCovered(c: Config, a: Store, fcs: seq<FloCuckoo>, now: int, m: FloMeta) {
    if !Brings(fcs, m.id) then StaysFrom(c, a, fcs, now, 0, m.id)
    else exists j :: 0 <= j < |fcs| && fcs[j].flo.id == m.id && ComesToStay(c, a, fcs, now, j)
  }

  ghost predicate ComesToStay(c: Config, a: Store, fcs: seq<FloCuckoo>, now: int, j: nat)
    requires j < |fcs|
  {
    && ArrivesAt(c, ReceiveAll(c, a, fcs[..j], now), fcs[j], now)
    && StaysFrom(c, a, fcs, now, j + 1, fcs[j].flo.id)
  }

  /** A round with or without room: exactly which reports the same neighbour would not be
      asked for again. */
  lemma RoundCoversIff(c: Config, a: Store, cb: Config, b: Store, metas: seq<FloMeta>, now: int, m: FloMeta)
    requires Inv(c, a) && Inv(cb, b) && CuckoosDistinct(b) && c.realmId == cb.realmId && AllOfRealm(cb, b)
    requires AreMetas(b.flos, b.flos.Keys, metas) && m in metas
    ensures var fcs := Reply(b.flos, Wanted(a.flos, metas));
      Covers(ReceiveAll(c, a, fcs, now).flos, m) <==> StaysCovered(c, a, fcs, now, m)
  {
    var fcs := Reply(b.flos, Wanted(a.flos, metas));
    RoundOnce(a.flos, b, metas);
    ReplyFrom(cb, b, Wanted(a.flos, metas));
    if Brings(fcs, m.id) {
      var j := BroughtAt(c, b, metas, m, fcs);
      AskedReportIff(c, a, fcs, now, j);
      OnlyBroughtAt(c, a, fcs, now, j);
    } else {
      NotAsked(a, b, metas, m);
      forall fc | fc in fcs ensures fc.flo.id != m.id { }
      HeldReportIff(c, a, fcs, now, m);
    }
  }

  lemma BroughtAt(c: Config, b: Store, metas: seq<FloMeta>, m: FloMeta, fcs: seq<FloCuckoo>) returns (j: nat)
    requires From(c, b.flos, fcs) && AreMetas(b.flos, b.flos.Keys, metas) && m in metas && Brings(fcs, m.id)
    requires CuckoosDistinct(b)
    ensures j < |fcs| && ReportOf(fcs[j]) == m && fcs[j].flo.realm == c.realmId && Distinct(fcs[j].cuckoos)
  {
    var fc :| fc in fcs && fc.flo.id == m.id;
    j :| 0 <= j < |fcs| && fcs[j] == fc;
  }

  lemma OnlyBroughtAt(c: Config, a: Store, fcs: seq<FloCuckoo>, now: int, j: nat)
    requires j < |fcs| && Once(fcs)
    ensures StaysCovered(c, a, fcs, now, ReportOf(fcs[j])) <==> ComesToStay(c, a, fcs, now, j)
  {
    assert fcs[j] in fcs;
    forall i | 0 <= i < |fcs| && fcs[i].flo.id == fcs[j].flo.id ensures i == j { }
  }

  lemma NotAsked(a: Store, b: Store, metas: seq<FloMeta>, m: FloMeta)
    requires (forall id :: id in b.flos ==> b.flos[id].flo.id == id)
    requires AreMetas(b.flos, b.flos.Keys, metas) && m in metas
    requires forall id :: id in Wanted(a.flos, metas) && id in b.flos ==>
      FloCuckoo(b.flos[id].flo, b.flos[id].cuckoos) in Reply(b.flos, Wanted(a.flos, metas))
    ensures Brings(Reply(b.flos, Wanted(a.flos, metas)), m.id) || Covers(a.flos, m)
  {
    WantedMembers(a.flos, metas, m.id);
  }
}
