/** Linked brokers: forwarding with trails, and settling (flarch/src/broker.rs). */
module Broker {
  import opened Prelude
  import opened NodeIds

  datatype Destination = All | NoTap | Forwarded(trail: seq<Id>) | Handled(index: nat)

  /** The four optional translations of a link to another broker. */
  datatype Translator<!M> = Translator(
    broker: Id, iTi: M -> Option<M>, iTo: M -> Option<M>, oTi: M -> Option<M>, oTo: M -> Option<M>)

  datatype Queue = In | Out

  /** A message on its way to one of the queues of a broker. */
  datatype Emission<M> = Emission(broker: Id, queue: Queue, dst: Destination, msg: M)

  type Queued<M> = (Destination, M)

  // ---------------------------------------------------------------- translating

  function TrailOf(dst: Destination): seq<Id> {
    if dst.Forwarded? then dst.trail else []
  }

  function Emit<M>(broker: Id, queue: Queue, trail: seq<Id>, msg: Option<M>): seq<Emission<M>> {
    if msg.Some? then [Emission(broker, queue, Forwarded(trail), msg.value)] else []
  }

  function EmitTiTo<M>(tr: Translator<M>, from: Queue, trail: seq<Id>, msg: M): (r: seq<Emission<M>>)
    ensures |r| <= 2
    ensures forall e :: e in r ==> e.broker == tr.broker && e.dst == Forwarded(trail)
  {
    match from
    case In => Emit(tr.broker, In, trail, tr.iTi(msg)) + Emit(tr.broker, Out, trail, tr.iTo(msg))
    case Out => Emit(tr.broker, In, trail, tr.oTi(msg)) + Emit(tr.broker, Out, trail, tr.oTo(msg))
  }

  function EmitAll<M>(trs: seq<Translator<M>>, from: Queue, trail: seq<Id>, msg: M): seq<Emission<M>> {
    if trs == [] then []
    else EmitAll(trs[..|trs| - 1], from, trail, msg) + EmitTiTo(trs[|trs| - 1], from, trail, msg)
  }

  lemma {:induction false} EmitAllSize<M>(trs: seq<Translator<M>>, from: Queue, trail: seq<Id>, msg: M)
    ensures |EmitAll(trs, from, trail, msg)| <= 2 * |trs|
  {
    if trs != [] { EmitAllSize(trs[..|trs| - 1], from, trail, msg); }
  }

  lemma {:induction false} EmittedOver<M>(trs: seq<Translator<M>>, from: Queue, trail: seq<Id>, msg: M, e: Emission<M>)
    returns (tr: Translator<M>)
    requires e in EmitAll(trs, from, trail, msg)
    ensures tr in trs && tr.broker == e.broker && e.dst == Forwarded(trail)
  {
    tr := trs[|trs| - 1];
    if e !in EmitTiTo(tr, from, trail, msg) {
      tr := EmittedOver(trs[..|trs| - 1], from, trail, msg, e);
    }
  }

  /** A message which was here before is not translated again. */
  function Translated<M>(id: Id, trs: seq<Translator<M>>, from: Queue, m: Queued<M>): seq<Emission<M>> {
    var trail := TrailOf(m.0);
    if id in trail then [] else EmitAll(trs, from, trail + [id], m.1)
  }

  function TranslatedAll<M>(id: Id, trs: seq<Translator<M>>, from: Queue, ms: seq<Queued<M>>): seq<Emission<M>> {
    if ms == [] then []
    else TranslatedAll(id, trs, from, ms[..|ms| - 1]) + Translated(id, trs, from, ms[|ms| - 1])
  }

  /** The trail grows by this broker, which was not on it; a message of this broker itself
      starts one. */
  ghost predicate Onward(id: Id, before: Destination, after: Destination) {
    if before.Forwarded? then id !in before.trail && after == Forwarded(before.trail + [id])
    else after == Forwarded([id])
  }

  /** The translator turns the message, of the input or of the output queue, into the emitted
      one: an input of its broker by iTi or oTi, an output by iTo or oTo. */
  ghost predicate Gives<M>(tr: Translator<M>, from: Queue, msg: M, e: Emission<M>) {
    && e.broker == tr.broker
    && match (from, e.queue)
       case (In, In) => tr.iTi(msg) == Some(e.msg)
       case (In, Out) => tr.iTo(msg) == Some(e.msg)
       case (Out, In) => tr.oTi(msg) == Some(e.msg)
       case (Out, Out) => tr.oTo(msg) == Some(e.msg)
  }

  ghost predicate GivenBy<M>(trs: seq<Translator<M>>, from: Queue, msg: M, e: Emission<M>) {
    exists tr :: tr in trs && Gives(tr, from, msg, e)
  }

  lemma EmitTiToIs<M>(tr: Translator<M>, from: Queue, trail: seq<Id>, msg: M, e: Emission<M>)
    ensures e in EmitTiTo(tr, from, trail, msg) <==> e.dst == Forwarded(trail) && Gives(tr, from, msg, e)
  {
  }

  lemma GivenByMore<M>(trs: seq<Translator<M>>, from: Queue, msg: M, e: Emission<M>)
    requires trs != []
    ensures GivenBy(trs, from, msg, e) <==>
      GivenBy(trs[..|trs| - 1], from, msg, e) || Gives(trs[|trs| - 1], from, msg, e)
  {
    assert trs == trs[..|trs| - 1] + [trs[|trs| - 1]];
  }

  lemma {:induction false} EmitAllIs<M>(trs: seq<Translator<M>>, from: Queue, trail: seq<Id>, msg: M, e: Emission<M>)
    ensures e in EmitAll(trs, from, trail, msg) <==> e.dst == Forwarded(trail) && GivenBy(trs, from, msg, e)
  {
    if trs != [] {
      EmitAllIs(trs[..|trs| - 1], from, trail, msg, e);
      EmitTiToIs(trs[|trs| - 1], from, trail, msg, e);
      GivenByMore(trs, from, msg, e);
    }
  }

  lemma TranslatedIs<M>(id: Id, trs: seq<Translator<M>>, from: Queue, m: Queued<M>, e: Emission<M>)
    ensures e in Translated(id, trs, from, m) <==> Onward(id, m.0, e.dst) && GivenBy(trs, from, m.1, e)
  {
    EmitAllIs(trs, from, TrailOf(m.0) + [id], m.1, e);
  }

  /** Exactly what is sent for the queued messages: for each that was not here before, and each
      translator, what that makes of it, in the queue and on the trail it belongs to. */
  lemma {:induction false} TranslatedAllIs<M>(
      id: Id, trs: seq<Translator<M>>, from: Queue, ms: seq<Queued<M>>, e: Emission<M>)
    ensures e in TranslatedAll(id, trs, from, ms) <==> ForOneOf(id, trs, from, ms, e)
  {
    if ms != [] {
      TranslatedAllIs(id, trs, from, ms[..|ms| - 1], e);
      TranslatedIs(id, trs, from, ms[|ms| - 1], e);
      ForOneMore(id, trs, from, ms, e);
    }
  }

  /** What this broker sends on for one of the queued messages. */
  ghost predicate ForOneOf<M>(id: Id, trs: seq<Translator<M>>, from: Queue, ms: seq<Queued<M>>, e: Emission<M>) {
    exists m :: m in ms && Onward(id, m.0, e.dst) && GivenBy(trs, from, m.1, e)
  }

  lemma ForOneMore<M>(id: Id, trs: seq<Translator<M>>, from: Queue, ms: seq<Queued<M>>, e: Emission<M>)
    requires ms != []
    ensures var front, last := ms[..|ms| - 1], ms[|ms| - 1];
      ForOneOf(id, trs, from, ms, e) <==>
        ForOneOf(id, trs, from, front, e) || (Onward(id, last.0, e.dst) && GivenBy(trs, from, last.1, e))
  {
    assert ms == ms[..|ms| - 1] + [ms[|ms| - 1]];
  }

  // ------------------------------------------------------------- taps, handlers

  function Tapped<M>(ms: seq<Queued<M>>): seq<M> {
    if ms == [] then []
    else Tapped(ms[..|ms| - 1]) + if ms[|ms| - 1].0 != NoTap then [ms[|ms| - 1].1] else []
  }

  /** What a handler is given: all but its own messages. */
  function Handed<M>(ms: seq<Queued<M>>, handler: nat): seq<M> {
    if ms == [] then []
    else Handed(ms[..|ms| - 1], handler) + if ms[|ms| - 1].0 != Handled(handler) then [ms[|ms| - 1].1] else []
  }

  /** The listed places of a queue are, in order, those of the messages in r. */
  ghost predicate AreAt<M>(ms: seq<Queued<M>>, at: seq<nat>, r: seq<M>) {
    && |at| == |r|
    && (forall i :: 0 <= i < |at| ==> at[i] < |ms| && ms[at[i]].1 == r[i])
    && forall i, j :: 0 <= i < j < |at| ==> at[i] < at[j]
  }

  lemma AreAtMore<M>(ms: seq<Queued<M>>, at: seq<nat>, r: seq<M>)
    requires ms != [] && AreAt(ms[..|ms| - 1], at, r)
    ensures AreAt(ms, at, r) && AreAt(ms, at + [|ms| - 1], r + [ms[|ms| - 1].1])
  {
  }

  /** A tap sees, in order, just the messages that are not hidden from taps. */
  lemma {:induction false} TappedIs<M>(ms: seq<Queued<M>>) returns (at: seq<nat>)
    ensures AreAt(ms, at, Tapped(ms))
    ensures forall i :: 0 <= i < |ms| ==> (i in at <==> ms[i].0 != NoTap)
  {
    if ms == [] {
      at := [];
    } else {
      at := TappedIs(ms[..|ms| - 1]);
      AreAtMore(ms, at, Tapped(ms[..|ms| - 1]));
      if ms[|ms| - 1].0 != NoTap { at := at + [|ms| - 1]; }
    }
  }

  /** A handler is given, in order, just the messages that are not its own answers. */
  lemma {:induction false} HandedIs<M>(ms: seq<Queued<M>>, handler: nat) returns (at: seq<nat>)
    ensures AreAt(ms, at, Handed(ms, handler))
    ensures forall i :: 0 <= i < |ms| ==> (i in at <==> ms[i].0 != Handled(handler))
  {
    if ms == [] {
      at := [];
    } else {
      at := HandedIs(ms[..|ms| - 1], handler);
      AreAtMore(ms, at, Handed(ms[..|ms| - 1], handler));
      if ms[|ms| - 1].0 != Handled(handler) { at := at + [|ms| - 1]; }
    }
  }

  function Marked<M>(handler: nat, msgs: seq<M>): (r: seq<Queued<M>>)
    ensures |r| == |msgs|
  {
    seq(|msgs|, i requires 0 <= i < |msgs| => (Handled(handler), msgs[i]))
  }

  type Answers<!M> = (nat, seq<M>) -> seq<M>

  function Answered<M>(ms: seq<Queued<M>>, handlers: seq<nat>, answer: Answers<M>): seq<Queued<M>> {
    if handlers == [] || ms == [] then []
    else
      var last := handlers[|handlers| - 1];
      Answered(ms, handlers[..|handlers| - 1], answer) + Marked(last, answer(last, Handed(ms, last)))
  }

  /** The answers are those of every handler to what it was given, under its name. */
  lemma {:induction false} AnsweredIs<M>(
      ms: seq<Queued<M>>, handlers: seq<nat>, answer: Answers<M>, dst: Destination, msg: M)
    requires ms != []
    ensures (dst, msg) in Answered(ms, handlers, answer) <==>
      exists h :: h in handlers && dst == Handled(h) && msg in answer(h, Handed(ms, h))
  {
    if handlers != [] {
      var front, last := handlers[..|handlers| - 1], handlers[|handlers| - 1];
      AnsweredIs(ms, front, answer, dst, msg);
      MarkedIs(last, answer(last, Handed(ms, last)), dst, msg);
      assert handlers == front + [last];
    }
  }

  lemma MarkedIs<M>(handler: nat, msgs: seq<M>, dst: Destination, msg: M)
    ensures (dst, msg) in Marked(handler, msgs) <==> dst == Handled(handler) && msg in msgs
  {
    var r := Marked(handler, msgs);
    if msg in msgs && dst == Handled(handler) {
      var i :| 0 <= i < |msgs| && msgs[i] == msg;
      assert r[i] == (dst, msg);
    }
  }

  /** All that one call of process sends to other brokers. */
  function ProcessSends<M>(
      id: Id, trs: seq<Translator<M>>, handlers: seq<nat>, answer: Answers<M>,
      queueIn: seq<Queued<M>>, queueOut: seq<Queued<M>>): seq<Emission<M>> {
    TranslatedAll(id, trs, Out, queueOut) + TranslatedAll(id, trs, In, queueIn)
      + TranslatedAll(id, trs, Out, Answered(queueIn, handlers, answer))
  }

  /** An answer of some handler to what it was given of the input queue. */
  ghost predicate IsAnswer<M>(ms: seq<Queued<M>>, handlers: seq<nat>, answer: Answers<M>, msg: M) {
    ms != [] && exists h :: h in handlers && msg in answer(h, Handed(ms, h))
  }

  /** Exactly what one call of process sends: the translations of both queues, and those of
      the answers of the handlers, which start a trail at this broker. */
  lemma ProcessSendsIs<M>(
      id: Id, trs: seq<Translator<M>>, handlers: seq<nat>, answer: Answers<M>,
      queueIn: seq<Queued<M>>, queueOut: seq<Queued<M>>, e: Emission<M>)
    ensures e in ProcessSends(id, trs, handlers, answer, queueIn, queueOut) <==>
      || ForOneOf(id, trs, Out, queueOut, e)
      || ForOneOf(id, trs, In, queueIn, e)
      || (e.dst == Forwarded([id])
          && exists msg :: IsAnswer(queueIn, handlers, answer, msg) && GivenBy(trs, Out, msg, e))
  {
    var answers := Answered(queueIn, handlers, answer);
    TranslatedAllIs(id, trs, Out, queueOut, e);
    TranslatedAllIs(id, trs, In, queueIn, e);
    TranslatedAllIs(id, trs, Out, answers, e);
    forall dst, msg
      ensures (dst, msg) in answers <==>
        queueIn != [] && exists h :: h in handlers && dst == Handled(h) && msg in answer(h, Handed(queueIn, h))
    {
      if queueIn != [] { AnsweredIs(queueIn, handlers, answer, dst, msg); }
    }
    AnswersSent(id, trs, queueIn, handlers, answer, answers, e);
  }

  lemma AnswersSent<M>(
      id: Id, trs: seq<Translator<M>>, queueIn: seq<Queued<M>>, handlers: seq<nat>, answer: Answers<M>,
      answers: seq<Queued<M>>, e: Emission<M>)
    requires forall dst, msg :: (dst, msg) in answers <==>
      queueIn != [] && exists h :: h in handlers && dst == Handled(h) && msg in answer(h, Handed(queueIn, h))
    ensures ForOneOf(id, trs, Out, answers, e) <==>
      e.dst == Forwarded([id]) && exists msg :: IsAnswer(queueIn, handlers, answer, msg) && GivenBy(trs, Out, msg, e)
  {
    if m :| m in answers && Onward(id, m.0, e.dst) && GivenBy(trs, Out, m.1, e) {
      assert (m.0, m.1) in answers;
      assert IsAnswer(queueIn, handlers, answer, m.1);
    }
    if msg :| IsAnswer(queueIn, handlers, answer, msg) && GivenBy(trs, Out, msg, e) {
      var h :| h in handlers && msg in answer(h, Handed(queueIn, h));
      assert (Handled(h), msg) in answers;
    }
  }

  class Intern<M> {
    const id: Id
    var translators: seq<Translator<M>>
    var handlers: seq<nat>
    var msgQueueIn: seq<Queued<M>>
    var msgQueueOut: seq<Queued<M>>

    constructor (id: Id)
      ensures this.id == id && translators == [] && handlers == [] && msgQueueIn == [] && msgQueueOut == []
    {
      this.id := id;
      translators, handlers, msgQueueIn, msgQueueOut := [], [], [], [];
    }

    /** Hands every message to every translator, unless its trail has this broker. */
    method TranslateQueue(from: Queue, queue: seq<Queued<M>>) returns (sent: seq<Emission<M>>)
      ensures sent == TranslatedAll(id, translators, from, queue)
    {
      sent := [];
      for i := 0 to |queue|
        invariant sent == TranslatedAll(id, translators, from, queue[..i])
      {
        assert queue[..i + 1][..i] == queue[..i];
        var emitted := TranslateMessage(from, queue[i].0, queue[i].1);
        sent := sent + emitted;
      }
      assert queue[..|queue|] == queue;
    }

    method TranslateMessage(from: Queue, dst: Destination, msg: M) returns (emitted: seq<Emission<M>>)
      ensures emitted == Translated(id, translators, from, (dst, msg))
    {
      var trail := TrailOf(dst);
      if id in trail {
        return [];
      }
      trail := trail + [id];
      emitted := [];
      for j := 0 to |translators|
        invariant emitted == EmitAll(translators[..j], from, trail, msg)
      {
        assert translators[..j + 1][..j] == translators[..j];
        emitted := emitted + EmitTiTo(translators[j], from, trail, msg);
      }
      assert translators[..|translators|] == translators;
    }

    /** Gives the messages to all handlers and queues their answers. */
    method ProcessHandleMessages(answer: Answers<M>)
      modifies this`msgQueueOut
      ensures msgQueueOut == old(msgQueueOut) + Answered(msgQueueIn, handlers, answer)
    {
      if msgQueueIn == [] {
        assert msgQueueOut == msgQueueOut + [];
        return;
      }
      var newMsgs := [];
      for i := 0 to |handlers|
        invariant newMsgs == Answered(msgQueueIn, handlers[..i], answer)
      {
        assert handlers[..i + 1][..i] == handlers[..i];
        var replies := answer(handlers[i], Handed(msgQueueIn, handlers[i]));
        newMsgs := newMsgs + Marked(handlers[i], replies);
      }
      assert handlers[..|handlers|] == handlers;
      msgQueueOut := msgQueueOut + newMsgs;
    }

    method ProcessOnce(answer: Answers<M>) returns (sent: seq<Emission<M>>, tapOut: seq<M>, tapIn: seq<M>)
      modifies this`msgQueueIn, this`msgQueueOut
      ensures msgQueueIn == [] && msgQueueOut == Answered(old(msgQueueIn), handlers, answer)
      ensures sent == TranslatedAll(id, translators, Out, old(msgQueueOut))
        + TranslatedAll(id, translators, In, old(msgQueueIn))
      ensures tapOut == Tapped(old(msgQueueOut)) && tapIn == Tapped(old(msgQueueIn))
    {
      sent := TranslateQueue(Out, msgQueueOut);
      var more := TranslateQueue(In, msgQueueIn);
      sent := sent + more;
      tapOut := Tapped(msgQueueOut);
      tapIn := Tapped(msgQueueIn);
      msgQueueOut := [];
      ProcessHandleMessages(answer);
      msgQueueIn := [];
    }

    /** Loops until both queues are empty, which takes at most two rounds. */
    method Process(answer: Answers<M>) returns (sent: seq<Emission<M>>, rounds: nat)
      modifies this`msgQueueIn, this`msgQueueOut
      ensures msgQueueIn == [] && msgQueueOut == [] && 1 <= rounds <= 2
      ensures sent == ProcessSends(id, translators, handlers, answer, old(msgQueueIn), old(msgQueueOut))
    {
      var out1, _, _ := ProcessOnce(answer);
      sent, rounds := out1, 1;
      while msgQueueIn != [] || msgQueueOut != []
        invariant msgQueueIn == [] && 1 <= rounds
        invariant rounds == 1 || (rounds == 2 && msgQueueOut == [])
        invariant sent + TranslatedAll(id, translators, Out, msgQueueOut)
          == ProcessSends(id, translators, handlers, answer, old(msgQueueIn), old(msgQueueOut))
        decreases 2 - rounds
      {
        var out2, _, _ := ProcessOnce(answer);
        sent, rounds := sent + out2, rounds + 1;
      }
    }
  }

  lemma {:induction false} NoAnswers<M>(ms: seq<Queued<M>>, handlers: seq<nat>, answer: Answers<M>)
    requires forall h, hs :: answer(h, hs) == []
    ensures Answered(ms, handlers, answer) == []
  {
    if handlers != [] { NoAnswers(ms, handlers[..|handlers| - 1], answer); }
  }

  /** With quiet handlers, processing one received message sends its translations. */
  lemma QuietProcess<M>(id: Id, trs: seq<Translator<M>>, handlers: seq<nat>, answer: Answers<M>, e: Emission<M>)
    requires forall h, hs :: answer(h, hs) == []
    ensures
      var m := (e.dst, e.msg);
      var queueIn := if e.queue == In then [m] else [];
      var queueOut := if e.queue == Out then [m] else [];
      ProcessSends(id, trs, handlers, answer, queueIn, queueOut) == Translated(id, trs, e.queue, m)
  {
    var m := (e.dst, e.msg);
    NoAnswers([m], handlers, answer);
    NoAnswers([], handlers, answer);
    assert [m][..0] == [];
    assert TranslatedAll(id, trs, e.queue, [m]) == [] + Translated(id, trs, e.queue, m);
  }

  // -------------------------------------------------------------- a network

  /** The translators of every broker. */
  type Net<!M> = map<Id, seq<Translator<M>>>

  /** One broker handles one of the messages on their way, in any order; messages to a
      broker which is gone are lost. */
  function Deliver<M>(net: Net<M>, flight: seq<Emission<M>>, i: nat): seq<Emission<M>>
    requires i < |flight|
  {
    flight[..i] + flight[i + 1..] + Sends(net, flight[i])
  }

  /** What handling a message sends on; a broker which is gone sends nothing. */
  function Sends<M>(net: Net<M>, e: Emission<M>): seq<Emission<M>> {
    if e.broker in net then Translated(e.broker, net[e.broker], e.queue, (e.dst, e.msg)) else []
  }

  /** A run of the network: which message is next, step by step. */
  ghost predicate IsRun<M>(net: Net<M>, flight: seq<Emission<M>>, picks: seq<nat>)
    decreases |picks|
  {
    picks == [] || (picks[0] < |flight| && IsRun(net, Deliver(net, flight, picks[0]), picks[1..]))
  }

  /** The brokers of the network which a message has not passed. */
  ghost function Ahead<M>(net: Net<M>, e: Emission<M>): set<Id> { net.Keys - Elements(TrailOf(e.dst)) }

  /** Translating adds this broker at the end of the trail and nothing else; a trail
      without repeats stays so, and the brokers ahead get one fewer. */
  lemma TrailGrows<M>(net: Net<M>, e: Emission<M>, f: Emission<M>)
    requires f in Sends(net, e)
    ensures e.broker in net && e.broker !in TrailOf(e.dst) && f.dst == Forwarded(TrailOf(e.dst) + [e.broker])
    ensures Linked(net, e.broker, f.broker)
    ensures Distinct(TrailOf(e.dst)) ==> Distinct(TrailOf(f.dst))
    ensures Ahead(net, f) == Ahead(net, e) - {e.broker}
    ensures |Ahead(net, f)| == |Ahead(net, e)| - 1
  {
    var trail := TrailOf(e.dst) + [e.broker];
    var tr := EmittedOver(net[e.broker], e.queue, trail, e.msg, f);
    assert Elements(trail) == Elements(TrailOf(e.dst)) + {e.broker};
    assert Ahead(net, e) == Ahead(net, f) + {e.broker};
  }

  /** The links from trail[i] to trail[i+1] all exist. */
  ghost predicate Linked<M>(net: Net<M>, a: Id, b: Id) {
    a in net && exists tr :: tr in net[a] && tr.broker == b
  }

  ghost predicate IsPath<M>(net: Net<M>, path: seq<Id>) {
    |path| > 0 && forall i :: 0 <= i < |path| - 1 ==> Linked(net, path[i], path[i + 1])
  }

  /** The trail and the broker at its end: where the message went. */
  ghost function Way<M>(e: Emission<M>): seq<Id> { TrailOf(e.dst) + [e.broker] }

  ghost predicate TrailsOk<M>(net: Net<M>, flight: seq<Emission<M>>) {
    forall e :: e in flight ==> Distinct(TrailOf(e.dst)) && IsPath(net, Way(e))
  }

  lemma SentTrail<M>(net: Net<M>, e: Emission<M>, f: Emission<M>)
    requires f in Sends(net, e) && Distinct(TrailOf(e.dst)) && IsPath(net, Way(e))
    ensures Distinct(TrailOf(f.dst)) && IsPath(net, Way(f))
  {
    TrailGrows(net, e, f);
    assert Way(f) == Way(e) + [f.broker];
    assert Linked(net, Way(e)[|Way(e)| - 1], f.broker);
  }

  lemma DeliverTrails<M>(net: Net<M>, flight: seq<Emission<M>>, i: nat)
    requires i < |flight| && TrailsOk(net, flight)
    ensures TrailsOk(net, Deliver(net, flight, i))
  {
    assert flight[i] in flight;
    forall f | f in Deliver(net, flight, i) ensures Distinct(TrailOf(f.dst)) && IsPath(net, Way(f)) {
      if f !in flight { SentTrail(net, flight[i], f); }
    }
  }

  /** In every run the trails follow links and pass no broker twice. */
  lemma {:induction false} RunTrails<M>(net: Net<M>, flight: seq<Emission<M>>, picks: seq<nat>)
    requires IsRun(net, flight, picks) && TrailsOk(net, flight)
    ensures TrailsOk(net, After(net, flight, picks))
    decreases |picks|
  {
    if picks != [] {
      DeliverTrails(net, flight, picks[0]);
      RunTrails(net, Deliver(net, flight, picks[0]), picks[1..]);
    }
  }

  ghost function After<M>(net: Net<M>, flight: seq<Emission<M>>, picks: seq<nat>): seq<Emission<M>>
    requires IsRun(net, flight, picks)
    decreases |picks|
  {
    if picks == [] then flight else After(net, Deliver(net, flight, picks[0]), picks[1..])
  }

  // ------------------------------------------------------------------ finiteness

  /** The most messages that can come of one with n brokers ahead, if no broker sends
      more than c for one. */
  function Power(c: nat, n: nat): (p: nat)
    ensures p >= 1
  {
    if n == 0 then 1 else 1 + c * Power(c, n - 1)
  }

  ghost function Potential<M>(net: Net<M>, c: nat, flight: seq<Emission<M>>): nat {
    if flight == [] then 0
    else Potential(net, c, flight[..|flight| - 1]) + Share(net, c, flight[|flight| - 1])
  }

  lemma {:induction false} PotentialSum<M>(net: Net<M>, c: nat, a: seq<Emission<M>>, b: seq<Emission<M>>)
    ensures Potential(net, c, a + b) == Potential(net, c, a) + Potential(net, c, b)
  {
    if b == [] {
      assert a + b == a;
    } else {
      assert (a + b)[..|a + b| - 1] == a + b[..|b| - 1];
      PotentialSum(net, c, a, b[..|b| - 1]);
    }
  }

  ghost function Share<M>(net: Net<M>, c: nat, e: Emission<M>): nat { Power(c, |Ahead(net, e)|) }

  lemma {:induction false} PotentialOf<M>(net: Net<M>, c: nat, es: seq<Emission<M>>, w: nat)
    requires forall e :: e in es ==> Share(net, c, e) == w
    ensures Potential(net, c, es) == |es| * w
  {
    if es != [] {
      var last := es[|es| - 1];
      assert Share(net, c, last) == w;
      PotentialOf(net, c, es[..|es| - 1], w);
      OneTimeMore(|es|, w);
    }
  }

  lemma OneTimeMore(k: nat, w: nat)
    requires k > 0
    ensures k * w == (k - 1) * w + w
  {
  }

  /** No broker has more than half of c translators. */
  ghost predicate Bounded<M>(net: Net<M>, c: nat) { forall b :: b in net ==> 2 * |net[b]| <= c }

  lemma SendsPotential<M>(net: Net<M>, c: nat, e: Emission<M>)
    requires Bounded(net, c)
    ensures Potential(net, c, Sends(net, e)) < Share(net, c, e)
  {
    var w := SharesAre(net, c, e);
    SendsSize(net, c, e);
    FewShares(net, c, Sends(net, e), w);
  }

  lemma SharesAre<M>(net: Net<M>, c: nat, e: Emission<M>) returns (w: nat)
    ensures forall f :: f in Sends(net, e) ==> Share(net, c, f) == w
    ensures Sends(net, e) != [] ==> Share(net, c, e) == 1 + c * w
  {
    w := 0;
    if Sends(net, e) != [] {
      var first := Sends(net, e)[0];
      w := Share(net, c, first);
      forall f | f in Sends(net, e) ensures Share(net, c, f) == w { SameShare(net, c, e, f, first); }
      OneFewerAhead(net, c, e, first);
    }
  }

  lemma FewShares<M>(net: Net<M>, c: nat, es: seq<Emission<M>>, w: nat)
    requires |es| <= c && forall e :: e in es ==> Share(net, c, e) == w
    ensures Potential(net, c, es) <= c * w
  {
    PotentialOf(net, c, es, w);
    MulMonotone(|es|, c, w);
  }

  lemma SendsSize<M>(net: Net<M>, c: nat, e: Emission<M>)
    requires Bounded(net, c)
    ensures |Sends(net, e)| <= c
  {
    if e.broker in net { EmitAllSize(net[e.broker], e.queue, TrailOf(e.dst) + [e.broker], e.msg); }
  }

  lemma SameShare<M>(net: Net<M>, c: nat, e: Emission<M>, f: Emission<M>, g: Emission<M>)
    requires f in Sends(net, e) && g in Sends(net, e)
    ensures Share(net, c, f) == Share(net, c, g)
  {
    TrailGrows(net, e, f);
    TrailGrows(net, e, g);
  }

  lemma OneFewerAhead<M>(net: Net<M>, c: nat, e: Emission<M>, f: Emission<M>)
    requires f in Sends(net, e)
    ensures Share(net, c, e) == 1 + c * Share(net, c, f)
  {
    TrailGrows(net, e, f);
  }

  lemma MulMonotone(a: nat, b: nat, w: nat)
    requires a <= b
    ensures a * w <= b * w
  {
  }

  lemma PotentialWithout<M>(net: Net<M>, c: nat, flight: seq<Emission<M>>, i: nat)
    requires i < |flight|
    ensures Potential(net, c, flight) == Potential(net, c, flight[..i] + flight[i + 1..]) + Share(net, c, flight[i])
  {
    var e := flight[i];
    assert flight == flight[..i] + [e] + flight[i + 1..];
    PotentialSum(net, c, flight[..i] + [e], flight[i + 1..]);
    PotentialSum(net, c, flight[..i], flight[i + 1..]);
    assert (flight[..i] + [e])[..i] == flight[..i];
  }

  lemma DeliverDecreases<M>(net: Net<M>, c: nat, flight: seq<Emission<M>>, i: nat)
    requires Bounded(net, c) && i < |flight|
    ensures Potential(net, c, Deliver(net, flight, i)) < Potential(net, c, flight)
  {
    var e := flight[i];
    PotentialWithout(net, c, flight, i);
    PotentialSum(net, c, flight[..i] + flight[i + 1..], Sends(net, e));
    SendsPotential(net, c, e);
  }

  /** Whatever the links, the translations and the order of delivery: every run is finite,
      with a bound known from the start. */
  lemma {:induction false} TranslationsAreFinite<M>(net: Net<M>, c: nat, flight: seq<Emission<M>>, picks: seq<nat>)
    requires Bounded(net, c) && IsRun(net, flight, picks)
    ensures |picks| <= Potential(net, c, flight)
    decreases |picks|
  {
    if picks != [] {
      DeliverDecreases(net, c, flight, picks[0]);
      TranslationsAreFinite(net, c, Deliver(net, flight, picks[0]), picks[1..]);
    }
  }

  // -------------------------------------------------------------------- settling

  /** The brokers visited by settle at broker b on behalf of the callers. */
  ghost function Settled<M>(net: Net<M>, b: Id, callers: seq<Id>): set<Id>
    decreases |net.Keys - Elements(callers)|, 1, 0
  {
    if b !in net || b in callers then {}
    else
      Fewer(net.Keys, callers, b);
      {b} + SettledBy(net, net[b], callers + [b])
  }

  /** The brokers visited over some translators; callers are skipped. */
  ghost function SettledBy<M>(net: Net<M>, trs: seq<Translator<M>>, callers: seq<Id>): set<Id>
    decreases |net.Keys - Elements(callers)|, 2, |trs|
  {
    if trs == [] then {}
    else
      var target := trs[|trs| - 1].broker;
      SettledBy(net, trs[..|trs| - 1], callers) + (if target in callers then {} else Settled(net, target, callers))
  }

  lemma Fewer(all: set<Id>, callers: seq<Id>, b: Id)
    requires b in all && b !in callers
    ensures |all - Elements(callers + [b])| < |all - Elements(callers)|
  {
    assert Elements(callers + [b]) == Elements(callers) + {b};
    assert all - Elements(callers) == (all - Elements(callers + [b])) + {b};
  }

  /** Settling calls itself over every translator; it ends because a broker is never
      entered while it waits for others. */
  method Settle<M>(net: Net<M>, b: Id, callers: seq<Id>) returns (visited: seq<Id>)
    requires b in net
    ensures Elements(visited) == Settled(net, b, callers)
    decreases |net.Keys - Elements(callers)|
  {
    visited := [];
    if b !in callers {
      Fewer(net.Keys, callers, b);
      var list := callers + [b];
      visited := [b];
      var trs := net[b];
      for i := 0 to |trs|
        invariant Elements(visited) == {b} + SettledBy(net, trs[..i], list)
      {
        assert trs[..i + 1][..i] == trs[..i];
        var target := trs[i].broker;
        if target !in list && target in net {
          var more := Settle(net, target, list);
          assert Elements(visited + more) == Elements(visited) + Elements(more);
          visited := visited + more;
        }
      }
      assert trs[..|trs|] == trs;
    }
  }

  ghost predicate Avoids(path: seq<Id>, callers: seq<Id>) { forall x :: x in path ==> x !in callers }

  ghost predicate Reaches<M>(net: Net<M>, a: Id, b: Id) {
    exists path :: IsPath(net, path) && path[0] == a && path[|path| - 1] == b && forall x :: x in path ==> x in net
  }

  /** Every broker at the end of a path around the callers is visited. */
  lemma {:induction false} PathIsSettled<M>(net: Net<M>, path: seq<Id>, callers: seq<Id>)
    requires IsPath(net, path) && Avoids(path, callers) && forall x :: x in path ==> x in net
    ensures path[|path| - 1] in Settled(net, path[0], callers)
    decreases |path|
  {
    var b := path[0];
    assert b in path;
    if |path| > 1 {
      var rest := path[1..];
      assert forall x :: x in rest ==> x in path;
      if b in rest {
        var j :| 0 <= j < |rest| && rest[j] == b;
        assert forall x :: x in rest[j..] ==> x in rest;
        PathIsSettled(net, rest[j..], callers);
      } else {
        assert Linked(net, path[0], path[1]);
        PathIsSettled(net, rest, callers + [b]);
        var tr :| tr in net[b] && tr.broker == path[1];
        assert path[1] in path;
        OverTranslator(net, net[b], callers + [b], tr);
      }
    }
  }

  lemma {:induction false} OverTranslator<M>(net: Net<M>, trs: seq<Translator<M>>, callers: seq<Id>, tr: Translator<M>)
    requires tr in trs && tr.broker !in callers
    ensures Settled(net, tr.broker, callers) <= SettledBy(net, trs, callers)
    decreases |trs|
  {
    if tr != trs[|trs| - 1] {
      assert tr in trs[..|trs| - 1];
      OverTranslator(net, trs[..|trs| - 1], callers, tr);
    }
  }

  lemma Extend<M>(net: Net<M>, a: Id, b: Id, c: Id)
    requires a in net && Linked(net, a, b) && Reaches(net, b, c)
    ensures Reaches(net, a, c)
  {
    var path :| IsPath(net, path) && path[0] == b && path[|path| - 1] == c && forall x :: x in path ==> x in net;
    var longer := [a] + path;
    assert forall i :: 1 <= i < |longer| ==> longer[i] == path[i - 1];
    assert IsPath(net, longer) by {
      forall i | 0 <= i < |longer| - 1 ensures Linked(net, longer[i], longer[i + 1]) {
        if i > 0 { assert Linked(net, path[i - 1], path[i - 1 + 1]); }
      }
    }
    assert longer[|longer| - 1] == c && longer[0] == a;
  }

  lemma {:induction false} SettledIsReached<M>(net: Net<M>, b: Id, callers: seq<Id>, x: Id)
    requires x in Settled(net, b, callers)
    ensures Reaches(net, b, x)
    decreases |net.Keys - Elements(callers)|, 1, 0
  {
    if x == b {
      assert IsPath(net, [b]);
    } else {
      Fewer(net.Keys, callers, b);
      var tr := SettledOver(net, net[b], callers + [b], x);
      Extend(net, b, tr.broker, x);
    }
  }

  lemma {:induction false} SettledOver<M>(net: Net<M>, trs: seq<Translator<M>>, callers: seq<Id>, x: Id)
    returns (tr: Translator<M>)
    requires x in SettledBy(net, trs, callers)
    ensures tr in trs && Reaches(net, tr.broker, x)
    decreases |net.Keys - Elements(callers)|, 2, |trs|
  {
    tr := trs[|trs| - 1];
    if x in SettledBy(net, trs[..|trs| - 1], callers) {
      tr := SettledOver(net, trs[..|trs| - 1], callers, x);
    } else {
      SettledIsReached(net, tr.broker, callers, x);
    }
  }

  /** One call of settle visits exactly the brokers that can be reached over translators,
      however cyclic the links are. */
  lemma SettleVisitsReachable<M>(net: Net<M>, b: Id, x: Id)
    requires b in net
    ensures x in Settled(net, b, []) <==> Reaches(net, b, x)
  {
    if x in Settled(net, b, []) { SettledIsReached(net, b, [], x); }
    if Reaches(net, b, x) {
      var path :| IsPath(net, path) && path[0] == b && path[|path| - 1] == x && forall y :: y in path ==> y in net;
      PathIsSettled(net, path, []);
    }
  }
}
