/** Two nodes exchanging their events (gossip_events/messages.rs and the two
    categories of EventsStorage in gossip_events/core.rs). */
module GossipExchange {
  import opened Prelude
  import opened NodeIds
  import opened Gossip
  import opened GossipStore

  const MAX_TEXT: nat := 50
  const MAX_INFO: nat := 100

  // ------------------------------------------------------- stores as values

  datatype Store = Store(text: set<Event>, info: set<Event>) {
    ghost function All(): set<Event> { text + info }
  }

  ghost function Of(s: set<Event>, c: Category): set<Event> { set e | e in s && e.category == c }

  /** Within a category no two events have the same time. */
  ghost predicate TimesOk(s: set<Event>) { TimesDiffer(Of(s, TextMessage)) && TimesDiffer(Of(s, NodeInfo)) }

  /** What a node should hold after it was offered s: the 50 newest texts, and of the
      newest node information of every node the 100 newest. */
  ghost function StoreOf(s: set<Event>): Store {
    Store(Reduce(Of(s, TextMessage), false, MAX_TEXT), Reduce(Of(s, NodeInfo), true, MAX_INFO))
  }

  ghost function AddTo(st: Store, e: Event): Store {
    match e.category
    case TextMessage => st.(text := Insert(st.text, e, false, MAX_TEXT))
    case NodeInfo => st.(info := Insert(st.info, e, true, MAX_INFO))
  }

  ghost function AddAllTo(st: Store, es: seq<Event>): Store {
    if es == [] then st else AddTo(AddAllTo(st, es[..|es| - 1]), es[|es| - 1])
  }

  lemma AddToReduces(s: set<Event>, e: Event)
    requires TimesOk(s + {e})
    ensures AddTo(StoreOf(s), e) == StoreOf(s + {e})
  {
    var c := e.category;
    var other := if c == TextMessage then NodeInfo else TextMessage;
    assert Of(s + {e}, c) == Of(s, c) + {e};
    assert Of(s + {e}, other) == Of(s, other);
    InsertReduces(Of(s, c), e, c == NodeInfo, if c == TextMessage then MAX_TEXT else MAX_INFO);
  }

  lemma {:induction false} AddAllReduces(s: set<Event>, es: seq<Event>)
    requires TimesOk(s + Elements(es))
    ensures AddAllTo(StoreOf(s), es) == StoreOf(s + Elements(es))
  {
    if es == [] {
      assert s + Elements(es) == s;
    } else {
      var front, last := es[..|es| - 1], es[|es| - 1];
      assert es == front + [last];
      assert s + Elements(es) == s + Elements(front) + {last};
      assert TimesOk(s + Elements(front));
      AddAllReduces(s, front);
      AddToReduces(s + Elements(front), last);
    }
  }

  // --------------------------------------------- adding, whatever the times

  /** What both categories may hold once an event was added, ties broken somehow. */
  ghost predicate StoreInserted(before: Store, e: Event, after: Store) {
    match e.category
    case TextMessage => after.info == before.info && Inserted(before.text, e, after.text, false, MAX_TEXT)
    case NodeInfo => after.text == before.text && Inserted(before.info, e, after.info, true, MAX_INFO)
  }

  /** Adding the event changes nothing, and is answered with false. */
  ghost predicate KnownTo(st: Store, e: Event) {
    match e.category
    case TextMessage => Known(st.text, e, false)
    case NodeInfo => Known(st.info, e, true)
  }

  ghost predicate StoreOk(st: Store) {
    && (forall e :: e in st.text ==> e.category == TextMessage)
    && (forall e :: e in st.info ==> e.category == NodeInfo)
    && OnePerSource(st.info)
  }

  lemma StoreInsertedIs(before: Store, e: Event, after: Store)
    requires StoreOk(before) && StoreInserted(before, e, after)
    ensures TimesOk(before.All() + {e}) ==> after == AddTo(before, e)
    ensures after.All() <= before.All() + {e}
    ensures KnownTo(before, e) ==> after == before
  {
    OwnTimes(before, e);
    match e.category {
      case TextMessage =>
        InsertedMembers(before.text, e, after.text, false, MAX_TEXT);
        if TimesOk(before.All() + {e}) { InsertedIs(before.text, e, after.text, false, MAX_TEXT); }
      case NodeInfo =>
        InsertedMembers(before.info, e, after.info, true, MAX_INFO);
        if TimesOk(before.All() + {e}) { InsertedIs(before.info, e, after.info, true, MAX_INFO); }
        NewerIsKnown(before.info, e, after.info, MAX_INFO);
    }
  }

  lemma NewerIsKnown(before: set<Event>, e: Event, after: set<Event>, n: nat)
    requires OnePerSource(before) && Inserted(before, e, after, true, n)
    ensures Known(before, e, true) ==> after == before
  {
    if f :| e !in before && f in before && f.src == e.src && f.created > e.created {
      var g :| g in before && g.src == e.src
        && if g.created > e.created then after == before else Truncated(before - {g} + {e}, after, n);
      assert g == f;
    }
  }

  /** The stores on the way through some events. */
  ghost predicate Passes(events: seq<Event>, tr: seq<Store>) {
    && |tr| == |events| + 1 && StoreOk(tr[|events|])
    && (events != [] ==>
          var n := |events| - 1;
          Passes(events[..n], tr[..n + 1]) && StoreInserted(tr[n], events[n], tr[n + 1]))
  }

  /** The events that were not known when they arrived, in order. */
  ghost function NewOnes(events: seq<Event>, tr: seq<Store>): seq<Event>
    requires |tr| == |events| + 1
  {
    if events == [] then []
    else
      var n := |events| - 1;
      NewOnes(events[..n], tr[..n + 1]) + (if KnownTo(tr[n], events[n]) then [] else [events[n]])
  }

  /** Adding the events led from one store to the other, and these were not known. */
  ghost predicate Added(events: seq<Event>, tr: seq<Store>, added: seq<Event>, before: Store, after: Store) {
    Passes(events, tr) && tr[0] == before && tr[|events|] == after && added == NewOnes(events, tr)
  }

  lemma {:induction false} PassesOn(events: seq<Event>, i: nat, tr: seq<Store>, after: Store)
    requires i < |events| && Passes(events[..i], tr) && StoreOk(after) && StoreInserted(tr[i], events[i], after)
    ensures Passes(events[..i + 1], tr + [after])
    ensures NewOnes(events[..i + 1], tr + [after])
      == NewOnes(events[..i], tr) + (if KnownTo(tr[i], events[i]) then [] else [events[i]])
  {
    assert events[..i + 1][..i] == events[..i] && (tr + [after])[..i + 1] == tr;
  }

  lemma {:induction false} PassesKeeps(events: seq<Event>, tr: seq<Store>)
    requires Passes(events, tr)
    ensures tr[|events|].All() <= tr[0].All() + Elements(events)
    ensures TimesOk(tr[0].All() + Elements(events)) ==> tr[|events|] == AddAllTo(tr[0], events)
    ensures NewOnes(events, tr) == [] ==> tr[|events|] == tr[0]
  {
    if events != [] {
      var n := |events| - 1;
      PassesKeeps(events[..n], tr[..n + 1]);
      StoreInsertedIs(tr[n], events[n], tr[n + 1]);
      assert tr[..n + 1][n] == tr[n] && tr[..n + 1][0] == tr[0];
      OneMoreTime(tr[0], events, tr[n]);
    }
  }

  lemma OneMoreTime(start: Store, events: seq<Event>, st: Store)
    requires events != [] && st.All() <= start.All() + Elements(events[..|events| - 1])
    ensures var all, last := start.All() + Elements(events), events[|events| - 1];
      && st.All() + {last} <= all && start.All() + Elements(events[..|events| - 1]) <= all
      && (TimesOk(all) ==> TimesOk(st.All() + {last}) && TimesOk(start.All() + Elements(events[..|events| - 1])))
  {
    assert events == events[..|events| - 1] + [events[|events| - 1]];
  }

  lemma AllOf(s: set<Event>)
    ensures StoreOf(s).All() <= s
    ensures Of(StoreOf(s).All(), TextMessage) == StoreOf(s).text
    ensures Of(StoreOf(s).All(), NodeInfo) == StoreOf(s).info
  {
  }

  lemma OfSum(s: set<Event>, t: set<Event>, c: Category)
    ensures Of(s + t, c) == Of(s, c) + Of(t, c)
  {
  }

  lemma StoreOfBoth(s: set<Event>, t: set<Event>)
    requires TimesOk(s + t)
    ensures StoreOf(StoreOf(s).All() + StoreOf(t).All()) == StoreOf(s + t)
  {
    AllOf(s);
    AllOf(t);
    OfSum(StoreOf(s).All(), StoreOf(t).All(), TextMessage);
    OfSum(StoreOf(s).All(), StoreOf(t).All(), NodeInfo);
    OfSum(s, t, TextMessage);
    OfSum(s, t, NodeInfo);
    ReduceBoth(Of(s, TextMessage), Of(t, TextMessage), false, MAX_TEXT);
    ReduceBoth(Of(s, NodeInfo), Of(t, NodeInfo), true, MAX_INFO);
  }

  lemma StoreOfTwice(s: set<Event>)
    requires TimesOk(s)
    ensures StoreOf(StoreOf(s).All()) == StoreOf(s)
  {
    assert s + {} == s;
    StoreOfBoth(s, {});
    assert StoreOf({}).All() == {};
    assert StoreOf(s).All() + {} == StoreOf(s).All();
  }

  // --------------------------------------------------- stores of a node

  class EventsStorage {
    const text: Events
    const info: Events

    constructor ()
      ensures Valid() && Model() == Store({}, {}) && fresh(text) && fresh(info)
    {
      text := new Events(false, MAX_TEXT);
      info := new Events(true, MAX_INFO);
    }

    ghost predicate Valid()
      reads text, info
    {
      && text != info && text.Valid() && info.Valid()
      && !text.unique && text.maxEvents == MAX_TEXT && info.unique && info.maxEvents == MAX_INFO
      && (forall e :: e in text.Held() ==> e.category == TextMessage)
      && (forall e :: e in info.Held() ==> e.category == NodeInfo)
    }

    ghost function Model(): Store
      reads text, info
    {
      Store(text.Held(), info.Held())
    }

    method AddEvent(msg: Event) returns (modified: bool)
      requires Valid()
      modifies text, info
      ensures Valid()
      ensures StoreInserted(old(Model()), msg, Model())
      ensures !modified <==> KnownTo(old(Model()), msg)
      ensures TimesOk(old(Model().All()) + {msg}) ==> Model() == AddTo(old(Model()), msg)
      ensures !modified ==> Model() == old(Model())
      ensures Model().All() <= old(Model().All()) + {msg}
    {
      ghost var before := Model();
      match msg.category {
        case TextMessage =>
          modified := text.Insert(msg);
          InsertedMembers(before.text, msg, text.Held(), false, MAX_TEXT);
        case NodeInfo =>
          modified := info.Insert(msg);
          InsertedMembers(before.info, msg, info.Held(), true, MAX_INFO);
      }
      StoreInsertedIs(before, msg, Model());
    }

    method EventIds() returns (ids: seq<Digest>)
      requires Valid()
      ensures Distinct(ids) && forall d :: d in ids <==> d.event in Model().All()
    {
      var textIds := SeqOf(text.events.Keys);
      var infoIds := SeqOf(info.events.Keys);
      KeyedValues(text.events);
      KeyedValues(info.events);
      ids := textIds + infoIds;
      forall d ensures d in ids <==> d.event in Model().All() { assert d == Digest(d.event); }
      forall i, j | 0 <= i < |textIds| && 0 <= j < |infoIds| ensures textIds[i] != infoIds[j] {
        assert textIds[i] in textIds && infoIds[j] in infoIds;
        assert textIds[i] in text.events.Keys && infoIds[j] in info.events.Keys;
        assert text.events[textIds[i]] in text.Held() && info.events[infoIds[j]] in info.Held();
      }
    }

    /** The held ones among the requested events. */
    method GetEventsByIds(ids: seq<Digest>) returns (events: seq<Event>)
      requires Valid()
      ensures Elements(events) == Requested(Model().All(), ids)
    {
      var texts := EventsInOrder(text.events, ids);
      var infos := EventsOfMap(info.events, ids);
      events := texts + infos;
      forall e ensures e in events <==> e in Requested(Model().All(), ids) { }
    }
  }

  ghost function Requested(s: set<Event>, ids: seq<Digest>): set<Event> { set e | e in s && Digest(e) in ids }

  /** The listing of a category without sources: one lookup for every requested id. */
  method EventsInOrder(events: map<Digest, Event>, ids: seq<Digest>) returns (found: seq<Event>)
    requires Keyed(events)
    ensures forall e :: e in found <==> e in Values(events) && Digest(e) in ids
  {
    KeyedValues(events);
    found := [];
    for i := 0 to |ids|
      invariant forall e :: e in found <==> e in Values(events) && Digest(e) in ids[..i]
    {
      assert ids[..i + 1] == ids[..i] + [ids[i]];
      assert forall e :: Digest(e) == ids[i] ==> e == ids[i].event;
      if ids[i] in events {
        found := found + [events[ids[i]]];
      }
    }
    assert ids[..|ids|] == ids;
  }

  /** The listing of a category with unique sources: every held event whose id is requested. */
  method EventsOfMap(events: map<Digest, Event>, ids: seq<Digest>) returns (found: seq<Event>)
    requires Keyed(events)
    ensures forall e :: e in found <==> e in Values(events) && Digest(e) in ids
  {
    KeyedValues(events);
    var keys := SeqOf(set d | d in events && d in ids);
    found := seq(|keys|, i requires 0 <= i < |keys| => (assert keys[i] in keys; events[keys[i]]));
    forall e ensures e in found <==> e in Values(events) && Digest(e) in ids {
      if e in Values(events) && Digest(e) in ids {
        assert Digest(e) in keys;
        var i :| 0 <= i < |keys| && keys[i] == Digest(e);
        assert found[i] == e;
      }
      if i :| 0 <= i < |found| && found[i] == e {
        assert keys[i] in keys;
      }
    }
  }

  lemma OwnTimes(st: Store, msg: Event)
    requires forall e :: e in st.text ==> e.category == TextMessage
    requires forall e :: e in st.info ==> e.category == NodeInfo
    ensures TimesOk(st.All() + {msg}) ==>
      TimesDiffer((if msg.category == TextMessage then st.text else st.info) + {msg})
  {
    assert (if msg.category == TextMessage then st.text else st.info) + {msg} <= Of(st.All() + {msg}, msg.category);
  }

  lemma InsertedMembers(before: set<Event>, e: Event, after: set<Event>, unique: bool, n: nat)
    ensures Inserted(before, e, after, unique, n) ==> after <= before + {e}
  {
  }

  method SeqOf(s: set<Digest>) returns (r: seq<Digest>)
    ensures Distinct(r) && forall d :: d in r <==> d in s
  {
    r := [];
    var remaining := s;
    while remaining != {}
      invariant remaining <= s && Distinct(r) && forall d :: d in r <==> d in s - remaining
      decreases |remaining|
    {
      var d :| d in remaining;
      assert d !in s - remaining;
      forall i | 0 <= i < |r| ensures r[i] != d { assert r[i] in r; }
      r := r + [d];
      remaining := remaining - {d};
    }
  }

  // ------------------------------------------------------------- messages

  datatype ModuleMessage =
    | KnownEventIDs(ids: seq<Digest>)
    | Events(events: seq<Event>)
    | RequestEventIDs
    | RequestEvents(ids: seq<Digest>)

  datatype GossipOut = ToNetwork(to: Id, msg: ModuleMessage) | NewEvent(event: Event)

  function AskedFor(out: seq<GossipOut>): seq<Digest> {
    if |out| == 1 && out[0].ToNetwork? && out[0].msg.RequestEvents? then out[0].msg.ids else []
  }

  function SentEvents(out: seq<GossipOut>): seq<Event> {
    if |out| == 1 && out[0].ToNetwork? && out[0].msg.Events? then out[0].msg.events else []
  }

  function OthersIds(events: seq<Event>, node: Id): (ids: seq<Digest>)
    ensures forall d :: d in ids <==> d.event in events && d.event.src != node
  {
    if events == [] then []
    else (if events[0].src != node then [Digest(events[0])] else []) + OthersIds(events[1..], node)
  }

  /** The offer of new events to every neighbour but the one they come from. */
  function Offers(nodes: seq<Id>, src: Id, me: Id, events: seq<Event>): (out: seq<GossipOut>)
    ensures forall n :: n in nodes && n != src && n != me ==>
      ToNetwork(n, KnownEventIDs(OthersIds(events, n))) in out
    ensures forall o :: o in out ==>
      && o.ToNetwork? && o.to in nodes && o.to != src && o.to != me
      && o.msg == KnownEventIDs(OthersIds(events, o.to))
  {
    if nodes == [] then []
    else
      var offer := ToNetwork(nodes[0], KnownEventIDs(OthersIds(events, nodes[0])));
      (if nodes[0] != src && nodes[0] != me then [offer] else []) + Offers(nodes[1..], src, me, events)
  }

  /** One offer for each of some nodes, in their order. */
  ghost function OffersTo(others: seq<Id>, events: seq<Event>): seq<GossipOut> {
    seq(|others|, i requires 0 <= i < |others| => ToNetwork(others[i], KnownEventIDs(OthersIds(events, others[i]))))
  }

  lemma OffersToStep(node: Id, rest: seq<Id>, events: seq<Event>)
    ensures OffersTo([node] + rest, events)
      == [ToNetwork(node, KnownEventIDs(OthersIds(events, node)))] + OffersTo(rest, events)
  {
  }

  /** Every neighbour but the sender and this node gets one offer. */
  lemma {:induction false} OffersAre(nodes: seq<Id>, src: Id, me: Id, events: seq<Event>)
    ensures Offers(nodes, src, me, events) == OffersTo(Except(Except(nodes, src), me), events)
  {
    if nodes != [] {
      var rest := Except(Except(nodes[1..], src), me);
      OffersAre(nodes[1..], src, me, events);
      OthersStep(nodes, src, me);
      OffersToStep(nodes[0], rest, events);
      assert [] + rest == rest && [] + OffersTo(rest, events) == OffersTo(rest, events);
    }
  }

  lemma OthersStep(nodes: seq<Id>, src: Id, me: Id)
    requires nodes != []
    ensures Except(Except(nodes, src), me)
      == (if nodes[0] != src && nodes[0] != me then [nodes[0]] else []) + Except(Except(nodes[1..], src), me)
  {
    var rest := Except(nodes[1..], src);
    assert ([nodes[0]] + rest)[1..] == rest && [] + rest == rest;
  }

  /** A neighbour is offered every event but its own, once each. */
  lemma {:induction false} OthersIdsAre(events: seq<Event>, node: Id)
    requires Distinct(events)
    ensures Distinct(OthersIds(events, node))
  {
    if events != [] {
      OthersIdsAre(events[1..], node);
      assert events[0] !in events[1..];
      assert Digest(events[0]) !in OthersIds(events[1..], node);
    }
  }

  function Unknown(ids: seq<Digest>, known: seq<Digest>, outstanding: seq<Digest>): (r: seq<Digest>)
    ensures forall d :: d in r <==> d in ids && d !in known && d !in outstanding
  {
    if ids == [] then []
    else
      (if ids[0] !in known && ids[0] !in outstanding then [ids[0]] else []) + Unknown(ids[1..], known, outstanding)
  }

  /** Every new event is announced once, in order. */
  function News(events: seq<Event>): (out: seq<GossipOut>)
    ensures |out| == |events| && forall i :: 0 <= i < |events| ==> out[i] == NewEvent(events[i])
  {
    seq(|events|, i requires 0 <= i < |events| => NewEvent(events[i]))
  }

  /** Every neighbour is asked once. */
  function Asks(nodes: seq<Id>): (out: seq<GossipOut>)
    ensures |out| == |nodes| && forall i :: 0 <= i < |nodes| ==> out[i] == ToNetwork(nodes[i], RequestEventIDs)
  {
    seq(|nodes|, i requires 0 <= i < |nodes| => ToNetwork(nodes[i], RequestEventIDs))
  }

  function AsksNew(ids: seq<Id>, known: seq<Id>, me: Id): (out: seq<GossipOut>)
    ensures forall o :: o in out <==>
      o.ToNetwork? && o.msg == RequestEventIDs && o.to in ids && o.to !in known && o.to != me
  {
    if ids == [] then []
    else
      var ask := ToNetwork(ids[0], RequestEventIDs);
      (if ids[0] !in known && ids[0] != me then [ask] else []) + AsksNew(ids[1..], known, me)
  }

  /** The outstanding ids after some events arrived. */
  function Cleared(outstanding: seq<Digest>, events: seq<Event>): seq<Digest> {
    if events == [] then outstanding
    else Except(Cleared(outstanding, events[..|events| - 1]), Digest(events[|events| - 1]))
  }

  lemma {:induction false} ClearedIs(outstanding: seq<Digest>, events: seq<Event>, d: Digest)
    ensures d in Cleared(outstanding, events) <==> d in outstanding && d.event !in events
  {
    if events != [] {
      var front, last := events[..|events| - 1], events[|events| - 1];
      ClearedIs(outstanding, front, d);
      assert events == front + [last];
      assert d == Digest(last) <==> d.event == last;
    }
  }

  class Messages {
    const id: Id
    const storage: EventsStorage
    var nodes: seq<Id>
    var outstanding: seq<Digest>
    var ticks: nat

    constructor (id: Id)
      ensures Valid() && this.id == id && Model() == Store({}, {}) && outstanding == [] && nodes == []
      ensures fresh(storage) && fresh(storage.text) && fresh(storage.info)
    {
      this.id := id;
      storage := new EventsStorage();
      nodes, outstanding, ticks := [], [], 0;
    }

    ghost predicate Valid()
      reads storage.text, storage.info
    {
      storage.Valid()
    }

    ghost function Model(): Store
      reads storage.text, storage.info
    {
      storage.Model()
    }

    /** Adds an event of this node and offers it to all neighbours, unless it is known. */
    method AddEvent(event: Event) returns (out: seq<GossipOut>)
      requires Valid()
      modifies storage.text, storage.info
      ensures Valid() && StoreInserted(old(Model()), event, Model())
      ensures TimesOk(old(Model().All()) + {event}) ==> Model() == AddTo(old(Model()), event)
      ensures KnownTo(old(Model()), event) ==> out == [] && Model() == old(Model())
      ensures !KnownTo(old(Model()), event) ==> out == Offers(nodes, id, id, [event]) + [NewEvent(event)]
    {
      var modified := storage.AddEvent(event);
      if modified {
        return Offers(nodes, id, id, [event]) + [NewEvent(event)];
      }
      return [];
    }

    /** Stores received events; those that were not known are returned, in order. */
    method AddEvents(events: seq<Event>) returns (added: seq<Event>, ghost tr: seq<Store>)
      requires Valid()
      modifies storage.text, storage.info, this`outstanding
      ensures Valid() && Passes(events, tr) && tr[0] == old(Model()) && tr[|events|] == Model()
      ensures added == NewOnes(events, tr)
      ensures outstanding == Cleared(old(outstanding), events)
      ensures TimesOk(old(Model().All()) + Elements(events)) ==> Model() == AddAllTo(old(Model()), events)
      ensures added == [] ==> Model() == old(Model())
    {
      added, tr := AddEach(events);
      PassesKeeps(events, tr);
    }

    method AddEach(events: seq<Event>) returns (added: seq<Event>, ghost tr: seq<Store>)
      requires Valid()
      modifies storage.text, storage.info, this`outstanding
      ensures Valid() && Added(events, tr, added, old(Model()), Model())
      ensures outstanding == Cleared(old(outstanding), events)
    {
      added, tr := [], [Model()];
      ModelOk();
      for i := 0 to |events|
        invariant Valid() && Added(events[..i], tr, added, old(Model()), Model())
        invariant outstanding == Cleared(old(outstanding), events[..i])
      {
        assert events[..i + 1][..i] == events[..i];
        added, tr := Receive(events, i, added, tr, old(Model()));
      }
      assert events[..|events|] == events;
    }

    lemma ModelOk()
      requires Valid()
      ensures StoreOk(Model())
    {
    }

    /** Stores one event, and notes it if it was not known. */
    method Receive(events: seq<Event>, i: nat, before: seq<Event>, ghost tr: seq<Store>, ghost start: Store)
      returns (added: seq<Event>, ghost longer: seq<Store>)
      requires Valid() && i < |events| && Added(events[..i], tr, before, start, Model())
      modifies storage.text, storage.info, this`outstanding
      ensures Valid() && Added(events[..i + 1], longer, added, start, Model())
      ensures outstanding == Except(old(outstanding), Digest(events[i]))
    {
      outstanding := Except(outstanding, Digest(events[i]));
      var modified := storage.AddEvent(events[i]);
      ModelOk();
      PassesOn(events, i, tr, Model());
      longer := tr + [Model()];
      added := before + if modified then [events[i]] else [];
    }

    method NodeList(ids: seq<Id>) returns (out: seq<GossipOut>)
      modifies this`nodes
      ensures nodes == ids && out == AsksNew(ids, old(nodes), id)
    {
      out := AsksNew(ids, nodes, id);
      nodes := ids;
    }

    /** Asks for the offered events which are neither held nor asked for already. */
    method NodeKnownEventIds(src: Id, ids: seq<Digest>) returns (out: seq<GossipOut>)
      requires Valid()
      modifies this`outstanding
      ensures out == if AskedFor(out) == [] then [] else [ToNetwork(src, RequestEvents(AskedFor(out)))]
      ensures outstanding == old(outstanding) + AskedFor(out)
      ensures forall d :: d in AskedFor(out) <==> d in ids && d.event !in Model().All() && d !in old(outstanding)
    {
      var known := storage.EventIds();
      var unknown := Unknown(ids, known, outstanding);
      out := [];
      if unknown != [] {
        outstanding := outstanding + unknown;
        out := [ToNetwork(src, RequestEvents(unknown))];
      }
      assert AskedFor(out) == unknown;
    }

    /** Stores received events and offers on exactly those that were not known. */
    method NodeEvents(src: Id, events: seq<Event>) returns (out: seq<GossipOut>, ghost tr: seq<Store>)
      requires Valid()
      modifies storage.text, storage.info, this`outstanding
      ensures Valid() && Passes(events, tr) && tr[0] == old(Model()) && tr[|events|] == Model()
      ensures out == Offers(nodes, src, id, NewOnes(events, tr)) + News(NewOnes(events, tr))
      ensures outstanding == Cleared(old(outstanding), events)
      ensures TimesOk(old(Model().All()) + Elements(events)) ==> Model() == AddAllTo(old(Model()), events)
      ensures NewOnes(events, tr) == [] ==> Model() == old(Model())
    {
      var eventsOut;
      eventsOut, tr := AddEvents(events);
      out := Offers(nodes, src, id, eventsOut) + News(eventsOut);
    }

    method NodeRequestEvents(src: Id, ids: seq<Digest>) returns (out: seq<GossipOut>)
      requires Valid()
      ensures out == if SentEvents(out) == [] then [] else [ToNetwork(src, Events(SentEvents(out)))]
      ensures Elements(SentEvents(out)) == Requested(Model().All(), ids)
    {
      var events := storage.GetEventsByIds(ids);
      out := [];
      if events != [] {
        out := [ToNetwork(src, Events(events))];
      }
      assert SentEvents(out) == events;
    }

    method NodeRequestEventList(src: Id) returns (out: seq<GossipOut>)
      requires Valid()
      ensures |out| == 1 && out[0].ToNetwork? && out[0].to == src && out[0].msg.KnownEventIDs?
      ensures Distinct(out[0].msg.ids) && forall d :: d in out[0].msg.ids <==> d.event in Model().All()
    {
      var ids := storage.EventIds();
      return [ToNetwork(src, KnownEventIDs(ids))];
    }

    /** From the third tick on, every tick forgets what was asked for and asks again. */
    method Tick() returns (out: seq<GossipOut>)
      modifies this`ticks, this`outstanding
      ensures ticks == old(ticks) + 1
      ensures ticks >= 3 ==> outstanding == [] && out == Asks(nodes)
      ensures ticks < 3 ==> outstanding == old(outstanding) && out == []
    {
      ticks := ticks + 1;
      out := [];
      if ticks >= 3 {
        outstanding := [];
        out := Asks(nodes);
      }
    }
  }

  // ---------------------------------------------------------- the exchange

  ghost predicate Apart(a: Messages, b: Messages)
    reads a.storage.text, a.storage.info, b.storage.text, b.storage.info
  {
    && a.Valid() && b.Valid()
    && a.storage.text != b.storage.text && a.storage.text != b.storage.info
    && a.storage.info != b.storage.text && a.storage.info != b.storage.info
  }

  /** a asks b for its ids and requests those it misses; b replies with the events. */
  method Request(a: Messages, b: Messages) returns (events: seq<Event>)
    requires a.Valid() && b.Valid() && a.outstanding == []
    modifies a`outstanding
    ensures Elements(events) == b.Model().All() - a.Model().All()
    ensures forall d :: d in a.outstanding ==> d.event in events
  {
    ghost var mine, theirs := a.Model().All(), b.Model().All();
    var known := b.NodeRequestEventList(a.id);
    var request := a.NodeKnownEventIds(b.id, known[0].msg.ids);
    assert b.Valid();
    var reply := [];
    if request != [] {
      reply := b.NodeRequestEvents(a.id, AskedFor(request));
    }
    events := SentEvents(reply);
    Missing(mine, theirs, known[0].msg.ids, AskedFor(request), events);
  }

  /** One way: a stores the events that b has and a misses. */
  method Pull(a: Messages, b: Messages, ghost s: set<Event>, ghost t: set<Event>)
    requires Apart(a, b) && TimesOk(s + t)
    requires a.Model() == StoreOf(s) && b.Model() == StoreOf(t) && a.outstanding == []
    modifies a.storage.text, a.storage.info, a`outstanding
    ensures a.Valid() && a.outstanding == [] && a.Model() == StoreOf(s + t)
  {
    var events := Request(a, b);
    PulledStore(s, t, events);
    ghost var asked := a.outstanding;
    if events != [] {
      var _, _ := a.NodeEvents(b.id, events);
    }
    forall d ensures d !in a.outstanding {
      if events != [] { ClearedIs(asked, events, d); }
    }
    NoneLeft(a.outstanding);
  }

  lemma NoneLeft(s: seq<Digest>)
    ensures (forall d :: d !in s) ==> s == []
  {
    if s != [] { assert s[0] in s; }
  }

  lemma Missing(mine: set<Event>, theirs: set<Event>, known: seq<Digest>, asked: seq<Digest>, events: seq<Event>)
    requires forall d :: d in known <==> d.event in theirs
    requires forall d :: d in asked <==> d in known && d.event !in mine
    requires Elements(events) == if asked == [] then {} else Requested(theirs, asked)
    ensures Elements(events) == theirs - mine
    ensures forall d :: d in asked ==> d.event in events
  {
    forall e ensures e in Elements(events) <==> e in theirs - mine {
      assert Digest(e).event == e;
    }
    forall d | d in asked ensures d.event in events {
      assert d.event in Elements(events);
    }
  }

  /** Storing what the other holds and one lacks gives what both were offered. */
  lemma PulledStore(s: set<Event>, t: set<Event>, events: seq<Event>)
    requires TimesOk(s + t) && Elements(events) == StoreOf(t).All() - StoreOf(s).All()
    ensures TimesOk(StoreOf(s).All() + Elements(events))
    ensures AddAllTo(StoreOf(s), events) == StoreOf(s + t)
  {
    var mine, theirs := StoreOf(s).All(), StoreOf(t).All();
    AllOf(s);
    AllOf(t);
    assert TimesOk(mine + Elements(events));
    StoreOfTwice(s);
    AddAllReduces(mine, events);
    assert mine + (theirs - mine) == mine + theirs;
    StoreOfBoth(s, t);
  }

  /** Both ways: afterwards the two nodes hold the same, the reduction of all that
      was ever offered to either. */
  method FullExchange(a: Messages, b: Messages, ghost s: set<Event>, ghost t: set<Event>)
    requires Apart(a, b) && a != b && TimesOk(s + t)
    requires a.Model() == StoreOf(s) && b.Model() == StoreOf(t) && a.outstanding == [] && b.outstanding == []
    modifies a.storage.text, a.storage.info, a`outstanding, b.storage.text, b.storage.info, b`outstanding
    ensures Apart(a, b) && a.Model() == b.Model() == StoreOf(s + t)
    ensures a.outstanding == [] && b.outstanding == []
  {
    Pull(a, b, s, t);
    assert t + (s + t) == s + t;
    Pull(b, a, t, s + t);
  }

  // -------------------------------------------------------- many exchanges

  /** One meeting of two nodes of a network, by their numbers. */
  datatype Meeting = Meeting(a: nat, b: nat)

  ghost predicate MeetingsOf(ms: seq<Meeting>, n: nat) { forall i :: 0 <= i < |ms| ==> ms[i].a < n && ms[i].b < n }

  /** What every node was offered, directly or through others, after some meetings. */
  ghost function Heard(offered: seq<set<Event>>, ms: seq<Meeting>): (r: seq<set<Event>>)
    requires MeetingsOf(ms, |offered|)
    ensures |r| == |offered|
  {
    if ms == [] then offered
    else
      var h := Heard(offered, ms[..|ms| - 1]);
      var m := ms[|ms| - 1];
      h[m.a := h[m.a] + h[m.b]][m.b := h[m.a] + h[m.b]]
  }

  /** What every node holds: a meeting merges two stores as FullExchange does. */
  ghost function Stores(start: seq<Store>, ms: seq<Meeting>): (r: seq<Store>)
    requires MeetingsOf(ms, |start|)
    ensures |r| == |start|
  {
    if ms == [] then start
    else
      var h := Stores(start, ms[..|ms| - 1]);
      var m := ms[|ms| - 1];
      var both := StoreOf(h[m.a].All() + h[m.b].All());
      h[m.a := both][m.b := both]
  }

  ghost predicate Within(offered: seq<set<Event>>, all: set<Event>) {
    forall i :: 0 <= i < |offered| ==> offered[i] <= all
  }

  /** However many meetings, in whatever order: a node holds the reduction of the events
      that were offered along some chain of meetings to it. */
  lemma {:induction false} GossipSpreads(offered: seq<set<Event>>, start: seq<Store>, ms: seq<Meeting>, all: set<Event>)
    requires MeetingsOf(ms, |offered|) && |start| == |offered| && Within(offered, all) && TimesOk(all)
    requires forall i :: 0 <= i < |start| ==> start[i] == StoreOf(offered[i])
    ensures Within(Heard(offered, ms), all)
    ensures forall i :: 0 <= i < |start| ==> Stores(start, ms)[i] == StoreOf(Heard(offered, ms)[i])
  {
    if ms != [] {
      GossipSpreads(offered, start, ms[..|ms| - 1], all);
      var h := Heard(offered, ms[..|ms| - 1]);
      var m := ms[|ms| - 1];
      assert TimesOk(h[m.a] + h[m.b]);
      StoreOfBoth(h[m.a], h[m.b]);
    }
  }
}
