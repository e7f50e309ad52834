/** Large messages over a data channel: splitting, queueing and reassembling
    (flarch/src/web_rtc/node_connection.rs). */
module Packets {
  import opened Prelude
  import opened NodeIds

  const WEBRTC_MAX_SIZE: nat := 16384

  datatype Packet = Packet(id: Option<Id>, part: Option<nat>, total: Option<nat>, data: string)

  // ----------------------------------------------------------------- splitting

  function Utf8Size(c: char): nat {
    if c < '\U{80}' then 1 else if c < '\U{800}' then 2 else if c < '\U{10000}' then 3 else 4
  }

  function Utf8Length(s: string): nat {
    if s == "" then 0 else Utf8Size(s[0]) + Utf8Length(s[1..])
  }

  function Chunks(s: string, n: nat): (r: seq<string>)
    requires n > 0
    ensures Joined(r) == s
    ensures forall c :: c in r ==> 0 < |c| <= n
  {
    if s == "" then []
    else if |s| <= n then assert [s][1..] == []; [s]
    else
      var rest := Chunks(s[n..], n);
      assert ([s[..n]] + rest)[1..] == rest;
      assert s[..n] + s[n..] == s;
      [s[..n]] + rest
  }

  function Joined(parts: seq<string>): string {
    if parts == [] then "" else parts[0] + Joined(parts[1..])
  }

  /** The chunks of a message which is too long in bytes, by characters; the id is
      drawn by the caller. */
  function Numbered(chunks: seq<string>, id: Id): seq<Packet> {
    seq(|chunks|, i requires 0 <= i < |chunks| => Packet(Some(id), Some(i), Some(|chunks|), chunks[i]))
  }

  function SplitMsg(msg: string, id: Id): seq<Packet> {
    if Utf8Length(msg) <= WEBRTC_MAX_SIZE then [Packet(None, None, None, msg)]
    else Numbered(Chunks(msg, WEBRTC_MAX_SIZE), id)
  }

  predicate Plain(msg: string) { Utf8Length(msg) <= WEBRTC_MAX_SIZE }

  lemma SplitIsNotEmpty(msg: string, id: Id)
    ensures |SplitMsg(msg, id)| > 0
  {
    if !Plain(msg) {
      assert msg != "";
      assert Joined(Chunks(msg, WEBRTC_MAX_SIZE)) == msg;
    }
  }

  lemma {:induction false} ChunksSize(s: string)
    ensures var n := |Chunks(s, 16384)|; 16384 * (n - 1) < |s| <= 16384 * n || (s == "" && n == 0)
  {
    if |s| > 16384 { ChunksSize(s[16384..]); }
  }

  /** The piece of 16384 characters with some number, or what is left for the last one. */
  ghost predicate IsPiece(s: string, i: nat, piece: string) {
    16384 * i <= |s| && piece == s[16384 * i..Min(16384 * i + 16384, |s|)]
  }

  lemma PieceBehind(s: string, i: nat, piece: string)
    requires |s| > 16384 && IsPiece(s[16384..], i, piece)
    ensures IsPiece(s, i + 1, piece)
  {
    SliceOfSlice(s, 16384, 16384 * i, Min(16384 * i + 16384, |s| - 16384));
  }

  lemma FirstPiece(s: string)
    ensures IsPiece(s, 0, s[..Min(16384, |s|)])
  {
  }

  lemma {:induction false} ChunkIs(s: string, i: nat)
    requires i < |Chunks(s, 16384)|
    ensures IsPiece(s, i, Chunks(s, 16384)[i])
  {
    FirstPiece(s);
    if |s| > 16384 {
      ChunksStep(s);
      if i > 0 {
        ChunkIs(s[16384..], i - 1);
        PieceBehind(s, i - 1, Chunks(s[16384..], 16384)[i - 1]);
      }
    } else {
      assert s[..|s|] == s;
    }
  }

  lemma ChunksStep(s: string)
    requires |s| > 16384
    ensures Chunks(s, 16384) == [s[..16384]] + Chunks(s[16384..], 16384)
  {
  }

  lemma SliceOfSlice(s: string, n: nat, a: nat, b: nat)
    requires n <= |s| && a <= b <= |s| - n
    ensures s[n..][a..b] == s[n + a..n + b]
  {
  }

  /** Exactly what is sent for a message: one plain packet up to 16384 bytes of UTF-8, else
      the pieces of 16384 characters, numbered, each with the id and the number of all. */
  lemma SplitMsgIs(msg: string, id: Id)
    ensures var ps := SplitMsg(msg, id);
      if Utf8Length(msg) <= 16384 then ps == [Packet(None, None, None, msg)]
      else
        && 16384 * (|ps| - 1) < |msg| <= 16384 * |ps|
        && forall i :: 0 <= i < |ps| ==>
             && 16384 * i <= |msg|
             && ps[i] == Packet(Some(id), Some(i), Some(|ps|), msg[16384 * i..Min(16384 * i + 16384, |msg|)])
  {
    ChunksSize(msg);
    forall i | 0 <= i < |Chunks(msg, 16384)|
      ensures IsPiece(msg, i, Chunks(msg, 16384)[i])
    {
      ChunkIs(msg, i);
    }
  }

  // -------------------------------------------------------------- reassembling

  type Slots = seq<Option<string>>

  predicate Complete(parts: Slots) { forall i :: 0 <= i < |parts| ==> parts[i].Some? }

  function Flattened(parts: Slots): string {
    if parts == [] then ""
    else (if parts[0].Some? then parts[0].value else "") + Flattened(parts[1..])
  }

  /** No message is complete and still kept. */
  ghost predicate NoneComplete(packets: map<Id, Slots>) { forall id :: id in packets ==> !Complete(packets[id]) }

  function Noted(packets: map<Id, Slots>, id: Id, total: nat, part: nat, data: string): Slots {
    var e := if id in packets then packets[id] else seq(total, _ => None);
    if part < |e| then e[part := Some(data)] else e
  }

  function AddPacket(packets: map<Id, Slots>, p: Packet): (map<Id, Slots>, Option<string>) {
    if p.id.None? || p.total.None? || p.part.None? then (packets, Some(p.data))
    else
      var e := Noted(packets, p.id.value, p.total.value, p.part.value, p.data);
      if Complete(e) then (packets - {p.id.value}, Some(Flattened(e)))
      else (packets[p.id.value := e], None)
  }

  /** Between calls no entry is complete, whatever packets arrive. */
  lemma AddPacketInv(packets: map<Id, Slots>, p: Packet)
    requires NoneComplete(packets)
    ensures NoneComplete(AddPacket(packets, p).0)
  {
  }

  /** What is known of a message when a packet of it arrives. */
  ghost function Known(packets: map<Id, Slots>, id: Id, total: nat): Slots {
    if id in packets then packets[id] else seq(total, _ => None)
  }

  /** Exactly what any packet does. A plain one comes out at once; another one is kept with
      the known parts of its message, or brings it out if it was the only one missing. A
      part beyond the first total is ignored, and other messages are left alone. */
  lemma AddPacketIs(packets: map<Id, Slots>, p: Packet)
    ensures var (after, out) := AddPacket(packets, p);
      if p.id.None? || p.total.None? || p.part.None? then after == packets && out == Some(p.data)
      else
        var id, i, known := p.id.value, p.part.value, Known(packets, p.id.value, p.total.value);
        && after - {id} == packets - {id}
        && (out.Some? <==> forall j :: 0 <= j < |known| ==> j == i || known[j].Some?)
        && (out.Some? ==> id !in after && exists parts :: out.value == Joined(parts) && ArePartsOf(known, p, parts))
        && (out.None? ==>
              && id in after && |after[id]| == |known|
              && forall j :: 0 <= j < |known| ==> after[id][j] == if j == i then Some(p.data) else known[j])
  {
    if p.id.Some? && p.total.Some? && p.part.Some? {
      var id, known := p.id.value, Known(packets, p.id.value, p.total.value);
      var e := Noted(packets, id, p.total.value, p.part.value, p.data);
      assert |e| == |known| && forall j :: 0 <= j < |e| ==>
        e[j] == if j == p.part.value then Some(p.data) else known[j];
      if Complete(e) {
        var parts := seq(|e|, j requires 0 <= j < |e| => e[j].value);
        FullSlots(e, parts);
        assert ArePartsOf(known, p, parts);
      }
    }
  }

  /** The parts of a message, one of which is in the packet. */
  ghost predicate ArePartsOf(known: Slots, p: Packet, parts: seq<string>) {
    && |parts| == |known|
    && forall j :: 0 <= j < |parts| ==> Some(parts[j]) == if Some(j) == p.part then Some(p.data) else known[j]
  }

  lemma {:induction false} FullSlots(parts: Slots, chunks: seq<string>)
    requires |parts| == |chunks| && forall i :: 0 <= i < |parts| ==> parts[i] == Some(chunks[i])
    ensures Flattened(parts) == Joined(chunks)
    decreases |parts|
  {
    if parts != [] { FullSlots(parts[1..], chunks[1..]); }
  }

  method CheckComplete(parts: Slots) returns (complete: bool)
    ensures complete == Complete(parts)
  {
    for i := 0 to |parts|
      invariant forall j :: 0 <= j < i ==> parts[j].Some?
    {
      if parts[i].None? { return false; }
    }
    return true;
  }

  class PacketCollector {
    var packets: map<Id, Slots>

    constructor ()
      ensures packets == map[] && Valid()
    {
      packets := map[];
    }

    ghost predicate Valid()
      reads this
    {
      NoneComplete(packets)
    }

    method NewPacket(p: Packet) returns (msg: Option<string>)
      requires Valid()
      modifies this
      ensures Valid() && (packets, msg) == AddPacket(old(packets), p)
    {
      if p.id.None? || p.total.None? || p.part.None? {
        return Some(p.data);
      }
      var id := p.id.value;
      AddPacketInv(packets, p);
      ghost var before := packets;
      var e := if id in packets then packets[id] else seq(p.total.value, _ => None);
      if p.part.value < |e| {
        e := e[p.part.value := Some(p.data)];
      }
      assert e == Noted(before, id, p.total.value, p.part.value, p.data);
      packets := packets[id := e];
      assert packets[id] == e && forall k :: k in packets && k != id ==> k in before && packets[k] == before[k];
      var found := FindComplete();
      if found.Some? {
        var parts := packets[found.value];
        packets := packets - {found.value};
        assert packets == before - {id};
        return Some(Flattened(parts));
      }
      return None;
    }

    /** Any of the complete entries; there is at most one. */
    method FindComplete() returns (found: Option<Id>)
      ensures found.Some? ==> found.value in packets && Complete(packets[found.value])
      ensures found.None? ==> NoneComplete(packets)
    {
      var remaining := packets.Keys;
      while remaining != {}
        invariant remaining <= packets.Keys
        invariant forall id :: id in packets.Keys - remaining ==> !Complete(packets[id])
        decreases |remaining|
      {
        var id :| id in remaining;
        var complete := CheckComplete(packets[id]);
        if complete { return Some(id); }
        remaining := remaining - {id};
      }
      return None;
    }
  }

  // ------------------------------------------------------- any order of arrival

  /** One packet of one of the messages, which are known by their packet id. */
  datatype Ref = Ref(id: Id, part: nat)

  ghost predicate IsRef(msgs: map<Id, string>, r: Ref) {
    r.id in msgs && r.part < |SplitMsg(msgs[r.id], r.id)|
  }

  function PacketOf(msgs: map<Id, string>, r: Ref): Packet
    requires IsRef(msgs, r)
  {
    SplitMsg(msgs[r.id], r.id)[r.part]
  }

  /** Packets of the messages arrive, in any order, with any repeats. */
  ghost predicate Arrivals(msgs: map<Id, string>, order: seq<Ref>) { forall r :: r in order ==> IsRef(msgs, r) }

  /** The packets arrive in some order, each at most once. */
  ghost predicate Arrival(msgs: map<Id, string>, order: seq<Ref>) { Distinct(order) && Arrivals(msgs, order) }

  ghost predicate AllIn(msgs: map<Id, string>, seen: set<Ref>, id: Id)
    requires id in msgs
  {
    forall i :: 0 <= i < |SplitMsg(msgs[id], id)| ==> Ref(id, i) in seen
  }

  ghost predicate SomeIn(seen: set<Ref>, id: Id) { exists r :: r in seen && r.id == id }

  ghost predicate Partial(msgs: map<Id, string>, seen: set<Ref>, id: Id)
    requires id in msgs
  {
    !Plain(msgs[id]) && SomeIn(seen, id) && !AllIn(msgs, seen, id)
  }

  ghost function SlotsOf(msg: string, id: Id, seen: set<Ref>): Slots {
    var chunks := Chunks(msg, WEBRTC_MAX_SIZE);
    seq(|chunks|, i requires 0 <= i < |chunks| => if Ref(id, i) in seen then Some(chunks[i]) else None)
  }

  /** What the collector keeps: the parts seen so far of the messages seen in part. */
  ghost function Kept(msgs: map<Id, string>, seen: set<Ref>): map<Id, Slots> {
    map id | id in msgs && Partial(msgs, seen, id) :: SlotsOf(msgs[id], id, seen)
  }

  ghost function Collect(msgs: map<Id, string>, order: seq<Ref>): map<Id, Slots>
    requires Arrivals(msgs, order)
  {
    if order == [] then map[]
    else
      assert order == order[..|order| - 1] + [order[|order| - 1]];
      AddPacket(Collect(msgs, order[..|order| - 1]), PacketOf(msgs, order[|order| - 1])).0
  }

  ghost function Output(msgs: map<Id, string>, order: seq<Ref>, t: nat): Option<string>
    requires Arrivals(msgs, order) && t < |order|
  {
    assert forall r :: r in order[..t] ==> r in order;
    AddPacket(Collect(msgs, order[..t]), PacketOf(msgs, order[t])).1
  }

  /** One more packet of a split message. */
  lemma NotedSlots(msgs: map<Id, string>, seen: set<Ref>, r: Ref)
    requires IsRef(msgs, r) && !AllIn(msgs, seen, r.id) && !Plain(msgs[r.id])
    ensures var p := PacketOf(msgs, r);
      && p.id == Some(r.id) && p.part == Some(r.part) && p.total.Some?
      && Noted(Kept(msgs, seen), r.id, p.total.value, r.part, p.data) == SlotsOf(msgs[r.id], r.id, seen + {r})
  {
    var chunks := Chunks(msgs[r.id], WEBRTC_MAX_SIZE);
    if !SomeIn(seen, r.id) {
      assert forall i :: Ref(r.id, i) !in seen;
      assert r.id !in Kept(msgs, seen);
    } else {
      assert Partial(msgs, seen, r.id);
    }
    var p := PacketOf(msgs, r);
    var e := Noted(Kept(msgs, seen), r.id, p.total.value, r.part, p.data);
    var f := SlotsOf(msgs[r.id], r.id, seen + {r});
    assert |e| == |f|;
    forall i | 0 <= i < |e| ensures e[i] == f[i] { }
  }

  lemma CompleteSlots(msgs: map<Id, string>, seen: set<Ref>, id: Id)
    requires id in msgs && !Plain(msgs[id])
    ensures Complete(SlotsOf(msgs[id], id, seen)) <==> AllIn(msgs, seen, id)
    ensures AllIn(msgs, seen, id) ==> Flattened(SlotsOf(msgs[id], id, seen)) == msgs[id]
  {
    var chunks := Chunks(msgs[id], WEBRTC_MAX_SIZE);
    var parts := SlotsOf(msgs[id], id, seen);
    if AllIn(msgs, seen, id) {
      forall i | 0 <= i < |parts| ensures parts[i] == Some(chunks[i]) { assert Ref(id, i) in seen; }
      FullSlots(parts, chunks);
    }
    if Complete(parts) {
      forall i | 0 <= i < |SplitMsg(msgs[id], id)| ensures Ref(id, i) in seen { assert parts[i].Some?; }
    }
  }

  /** Packets of other messages change nothing for a message. */
  lemma OthersUntouched(msgs: map<Id, string>, seen: set<Ref>, r: Ref, id: Id)
    requires id in msgs && id != r.id
    ensures Partial(msgs, seen + {r}, id) <==> Partial(msgs, seen, id)
    ensures SlotsOf(msgs[id], id, seen + {r}) == SlotsOf(msgs[id], id, seen)
  {
    assert forall i :: Ref(id, i) in seen + {r} <==> Ref(id, i) in seen;
    assert forall x: Ref :: x.id == id ==> (x in seen + {r} <==> x in seen);
    if SomeIn(seen, id) { var x :| x in seen && x.id == id; assert x in seen + {r}; }
    var a, b := SlotsOf(msgs[id], id, seen + {r}), SlotsOf(msgs[id], id, seen);
    assert |a| == |b|;
    assert forall i :: 0 <= i < |a| ==> a[i] == b[i];
  }

  lemma KeptOthers(msgs: map<Id, string>, seen: set<Ref>, r: Ref)
    requires IsRef(msgs, r)
    ensures Kept(msgs, seen + {r}) - {r.id} == Kept(msgs, seen) - {r.id}
  {
    var a, b := Kept(msgs, seen + {r}) - {r.id}, Kept(msgs, seen) - {r.id};
    forall id | id in msgs && id != r.id
      ensures (id in a <==> id in b) && (id in a ==> a[id] == b[id])
    {
      OthersUntouched(msgs, seen, r, id);
    }
  }

  lemma KeptStepPlain(msgs: map<Id, string>, seen: set<Ref>, r: Ref)
    requires IsRef(msgs, r) && Plain(msgs[r.id])
    ensures Kept(msgs, seen + {r}) == Kept(msgs, seen)
  {
    var before, after := Kept(msgs, seen), Kept(msgs, seen + {r});
    KeptOthers(msgs, seen, r);
    assert r.id !in before && r.id !in after;
    assert before == before - {r.id} && after == after - {r.id};
  }

  lemma KeptStepSplit(msgs: map<Id, string>, seen: set<Ref>, r: Ref)
    requires IsRef(msgs, r) && !AllIn(msgs, seen, r.id) && !Plain(msgs[r.id])
    ensures AddPacket(Kept(msgs, seen), PacketOf(msgs, r)).0 == Kept(msgs, seen + {r})
    ensures AddPacket(Kept(msgs, seen), PacketOf(msgs, r)).1 ==
      if AllIn(msgs, seen + {r}, r.id) then Some(msgs[r.id]) else None
  {
    KeptOthers(msgs, seen, r);
    NotedSlots(msgs, seen, r);
    CompleteSlots(msgs, seen + {r}, r.id);
    assert SomeIn(seen + {r}, r.id) by { assert r in seen + {r}; }
    KeptSplit(msgs, seen + {r}, r.id);
    SameButOne(Kept(msgs, seen), Kept(msgs, seen + {r}), r.id);
  }

  lemma KeptStep(msgs: map<Id, string>, seen: set<Ref>, r: Ref)
    requires IsRef(msgs, r) && !AllIn(msgs, seen, r.id)
    ensures AddPacket(Kept(msgs, seen), PacketOf(msgs, r)).0 == Kept(msgs, seen + {r})
    ensures AddPacket(Kept(msgs, seen), PacketOf(msgs, r)).1 ==
      if AllIn(msgs, seen + {r}, r.id) then Some(msgs[r.id]) else None
  {
    if Plain(msgs[r.id]) {
      KeptStepPlain(msgs, seen, r);
      assert r in seen + {r} && r == Ref(r.id, 0);
    } else {
      KeptStepSplit(msgs, seen, r);
    }
  }

  lemma SameButOne(a: map<Id, Slots>, b: map<Id, Slots>, id: Id)
    requires a - {id} == b - {id}
    ensures id in b ==> a[id := b[id]] == b
    ensures id !in b ==> a - {id} == b
  {
    forall x | x != id ensures (x in a <==> x in b) && (x in a ==> a[x] == b[x]) {
      assert x in a - {id} <==> x in a;
      assert x in b - {id} <==> x in b;
      if x in a { assert a[x] == (a - {id})[x] == (b - {id})[x]; }
    }
  }

  lemma KeptSplit(msgs: map<Id, string>, seen: set<Ref>, id: Id)
    requires id in msgs && !Plain(msgs[id]) && SomeIn(seen, id)
    ensures id in Kept(msgs, seen) <==> !AllIn(msgs, seen, id)
    ensures id in Kept(msgs, seen) ==> Kept(msgs, seen)[id] == SlotsOf(msgs[id], id, seen)
  {
  }

  lemma {:induction false} CollectIs(msgs: map<Id, string>, order: seq<Ref>)
    requires Arrival(msgs, order)
    ensures Collect(msgs, order) == Kept(msgs, Elements(order))
  {
    if order == [] {
      assert Kept(msgs, {}) == map[];
    } else {
      var front, last := order[..|order| - 1], order[|order| - 1];
      assert order == front + [last];
      CollectIs(msgs, front);
      KeptStep(msgs, Elements(front), last);
      assert Elements(order) == Elements(front) + {last};
    }
  }

  /** Whatever the order and however the messages interleave: a packet brings out its
      message, unchanged, exactly when it is the last one of it to arrive. */
  lemma OutputAtLastPacket(msgs: map<Id, string>, order: seq<Ref>, t: nat)
    requires Arrival(msgs, order) && t < |order|
    ensures Output(msgs, order, t) ==
      assert order[t] in order;
      if AllIn(msgs, Elements(order[..t + 1]), order[t].id) then Some(msgs[order[t].id]) else None
  {
    assert order[..t + 1] == order[..t] + [order[t]];
    assert forall r :: r in order[..t] ==> r in order;
    assert Elements(order[..t + 1]) == Elements(order[..t]) + {order[t]};
    CollectIs(msgs, order[..t]);
    KeptStep(msgs, Elements(order[..t]), order[t]);
  }

  /** Once everything arrived, nothing is left behind. */
  lemma NothingLeft(msgs: map<Id, string>, order: seq<Ref>)
    requires Arrival(msgs, order) && forall r :: IsRef(msgs, r) ==> r in order
    ensures Collect(msgs, order) == map[]
  {
    CollectIs(msgs, order);
    forall id | id in msgs ensures !Partial(msgs, Elements(order), id) {
      forall i | 0 <= i < |SplitMsg(msgs[id], id)| ensures Ref(id, i) in Elements(order) {
        assert IsRef(msgs, Ref(id, i));
      }
    }
  }

  lemma {:induction false} LastArrival(msgs: map<Id, string>, order: seq<Ref>, id: Id) returns (t: nat)
    requires Arrival(msgs, order) && id in msgs && AllIn(msgs, Elements(order), id)
    ensures t < |order| && order[t].id == id && AllIn(msgs, Elements(order[..t + 1]), id)
    ensures forall s :: t < s < |order| ==> order[s].id != id
    decreases |order|
  {
    SplitIsNotEmpty(msgs[id], id);
    assert Ref(id, 0) in Elements(order);
    var front, last := order[..|order| - 1], order[|order| - 1];
    assert order == front + [last];
    if last.id == id {
      t := |order| - 1;
      assert order[..t + 1] == order;
    } else {
      forall i | 0 <= i < |SplitMsg(msgs[id], id)| ensures Ref(id, i) in Elements(front) {
        assert Ref(id, i) in Elements(order);
      }
      t := LastArrival(msgs, front, id);
      assert front[..t + 1] == order[..t + 1];
    }
  }

  /** Every message comes out exactly once. */
  lemma DeliveredOnce(msgs: map<Id, string>, order: seq<Ref>, id: Id) returns (t: nat)
    requires Arrival(msgs, order) && (forall r :: IsRef(msgs, r) ==> r in order) && id in msgs
    ensures t < |order| && order[t].id == id && Output(msgs, order, t) == Some(msgs[id])
    ensures forall s :: 0 <= s < |order| && order[s].id == id && s != t ==> Output(msgs, order, s) == None
  {
    forall i | 0 <= i < |SplitMsg(msgs[id], id)| ensures Ref(id, i) in Elements(order) {
      assert IsRef(msgs, Ref(id, i));
    }
    t := LastArrival(msgs, order, id);
    OutputAtLastPacket(msgs, order, t);
    forall s | 0 <= s < |order| && order[s].id == id && s != t ensures Output(msgs, order, s) == None {
      OutputAtLastPacket(msgs, order, s);
      assert order[t] !in order[..s + 1];
      assert IsRef(msgs, order[t]) && order[t] == Ref(id, order[t].part);
      assert !AllIn(msgs, Elements(order[..s + 1]), id);
    }
  }

  // ---------------------------------------------------- packets that come again

  ghost function OfMessage(s: set<Ref>, id: Id): set<Ref> { set r | r in s && r.id == id }

  /** The packets since a message came out last: with one that makes it whole they start again. */
  ghost function Unfinished(msgs: map<Id, string>, order: seq<Ref>): set<Ref>
    requires Arrivals(msgs, order)
  {
    if order == [] then {}
    else
      var last := order[|order| - 1];
      assert last in order;
      var s := Unfinished(msgs, order[..|order| - 1]) + {last};
      if AllIn(msgs, s, last.id) then s - OfMessage(s, last.id) else s
  }

  lemma OpenPush(msgs: map<Id, string>, order: seq<Ref>, r: Ref)
    requires Arrivals(msgs, order) && IsRef(msgs, r)
    ensures var s := Unfinished(msgs, order) + {r};
      Unfinished(msgs, order + [r]) == if AllIn(msgs, s, r.id) then s - OfMessage(s, r.id) else s
  {
    assert (order + [r])[..|order|] == order;
  }

  lemma {:induction false} OpenIsNotWhole(msgs: map<Id, string>, order: seq<Ref>, id: Id)
    requires Arrivals(msgs, order) && id in msgs
    ensures !AllIn(msgs, Unfinished(msgs, order), id)
  {
    SplitIsNotEmpty(msgs[id], id);
    if order == [] {
      assert Ref(id, 0) !in Unfinished(msgs, order);
    } else {
      var front, last := order[..|order| - 1], order[|order| - 1];
      OpenIsNotWhole(msgs, front, id);
      var s := Unfinished(msgs, front) + {last};
      if last.id == id {
        if AllIn(msgs, s, id) { assert Ref(id, 0) !in Unfinished(msgs, order); }
      } else {
        var i :| 0 <= i < |SplitMsg(msgs[id], id)| && Ref(id, i) !in Unfinished(msgs, front);
        assert Ref(id, i) !in Unfinished(msgs, order);
      }
    }
  }

  lemma KeptWithout(msgs: map<Id, string>, s: set<Ref>, id: Id)
    requires id in msgs && AllIn(msgs, s, id)
    ensures Kept(msgs, s - OfMessage(s, id)) == Kept(msgs, s)
  {
    var t := s - OfMessage(s, id);
    forall x | x in msgs && x != id
      ensures Partial(msgs, t, x) <==> Partial(msgs, s, x)
      ensures SlotsOf(msgs[x], x, t) == SlotsOf(msgs[x], x, s)
    {
      SameFor(msgs, s, t, x);
    }
    assert !Partial(msgs, t, id);
  }

  lemma SameFor(msgs: map<Id, string>, s: set<Ref>, t: set<Ref>, id: Id)
    requires id in msgs && OfMessage(s, id) == OfMessage(t, id)
    ensures Partial(msgs, t, id) <==> Partial(msgs, s, id)
    ensures SlotsOf(msgs[id], id, t) == SlotsOf(msgs[id], id, s)
  {
    forall r: Ref | r.id == id ensures r in s <==> r in t {
      assert r in OfMessage(s, id) <==> r in s;
      assert r in OfMessage(t, id) <==> r in t;
    }
    assert SomeIn(s, id) <==> SomeIn(t, id);
    var a, b := SlotsOf(msgs[id], id, t), SlotsOf(msgs[id], id, s);
    assert |a| == |b| && forall i :: 0 <= i < |a| ==> a[i] == b[i];
  }

  /** With any repeats: the collector keeps the parts that came since their message came
      out last, and a message comes out whenever its parts are whole again. */
  lemma {:induction false} CollectOpen(msgs: map<Id, string>, order: seq<Ref>)
    requires Arrivals(msgs, order)
    ensures Collect(msgs, order) == Kept(msgs, Unfinished(msgs, order))
  {
    if order == [] {
      assert Kept(msgs, {}) == map[];
    } else {
      var front, last := order[..|order| - 1], order[|order| - 1];
      assert order == front + [last] && last in order;
      CollectOpen(msgs, front);
      OpenIsNotWhole(msgs, front, last.id);
      KeptStep(msgs, Unfinished(msgs, front), last);
      var s := Unfinished(msgs, front) + {last};
      if AllIn(msgs, s, last.id) { KeptWithout(msgs, s, last.id); }
    }
  }

  lemma OutputOpen(msgs: map<Id, string>, order: seq<Ref>, t: nat)
    requires Arrivals(msgs, order) && t < |order|
    ensures
      assert order[t] in order && forall r :: r in order[..t] ==> r in order;
      Output(msgs, order, t) ==
        if AllIn(msgs, Unfinished(msgs, order[..t]) + {order[t]}, order[t].id) then Some(msgs[order[t].id]) else None
  {
    assert order[t] in order && forall r :: r in order[..t] ==> r in order;
    var front, r := order[..t], order[t];
    assert Arrivals(msgs, front) && IsRef(msgs, r);
    CollectOpen(msgs, front);
    OpenIsNotWhole(msgs, front, r.id);
    KeptStep(msgs, Unfinished(msgs, front), r);
  }

  /** Exactly when something of a split message is left. */
  lemma LeftIff(msgs: map<Id, string>, order: seq<Ref>, id: Id)
    requires Arrivals(msgs, order) && id in msgs && !Plain(msgs[id])
    ensures id in Collect(msgs, order) <==> SomeIn(Unfinished(msgs, order), id)
  {
    CollectOpen(msgs, order);
    OpenIsNotWhole(msgs, order, id);
  }

  /** One part of a message is left, and another one has not come since. */
  ghost predicate Left(msgs: map<Id, string>, order: seq<Ref>, r: Ref, missing: Ref) {
    Arrivals(msgs, order) && r in Unfinished(msgs, order) && missing !in Unfinished(msgs, order)
  }

  lemma LeftStep(msgs: map<Id, string>, order: seq<Ref>, last: Ref, r: Ref, missing: Ref)
    requires IsRef(msgs, last) && Left(msgs, order, r, missing)
    requires IsRef(msgs, missing) && missing.id == r.id && missing != last
    ensures Left(msgs, order + [last], r, missing)
  {
    OpenPush(msgs, order, last);
    assert missing == Ref(r.id, missing.part) && missing !in Unfinished(msgs, order) + {last};
  }

  /** What is left stays as long as one of its other parts does not come again. */
  lemma {:induction false} LeftStays(msgs: map<Id, string>, order: seq<Ref>, more: seq<Ref>, r: Ref, missing: Ref)
    requires Left(msgs, order, r, missing) && Arrivals(msgs, more)
    requires IsRef(msgs, missing) && missing.id == r.id && missing !in more
    ensures Left(msgs, order + more, r, missing)
  {
    if more == [] {
      assert order + more == order;
    } else {
      var front, last := more[..|more| - 1], more[|more| - 1];
      assert more == front + [last];
      LeftStays(msgs, order, front, r, missing);
      assert order + more == order + front + [last] && last in more;
      LeftStep(msgs, order + front, last, r, missing);
    }
  }

  ghost predicate OnceFor(msgs: map<Id, string>, order: seq<Ref>, id: Id)
    requires Arrivals(msgs, order) && id in msgs
  {
    OfMessage(Unfinished(msgs, order), id)
      == if AllIn(msgs, Elements(order), id) then {} else OfMessage(Elements(order), id)
  }

  lemma LastOfOther(msgs: map<Id, string>, front: seq<Ref>, last: Ref, id: Id)
    requires Arrivals(msgs, front) && Arrivals(msgs, front + [last]) && IsRef(msgs, last) && id in msgs && last.id != id
    requires OnceFor(msgs, front, id)
    ensures OnceFor(msgs, front + [last], id)
  {
    OpenPush(msgs, front, last);
    assert Elements(front + [last]) == Elements(front) + {last};
    assert OfMessage(Elements(front + [last]), id) == OfMessage(Elements(front), id);
    assert OfMessage(Unfinished(msgs, front + [last]), id) == OfMessage(Unfinished(msgs, front), id);
    assert AllIn(msgs, Elements(front + [last]), id) <==> AllIn(msgs, Elements(front), id);
  }

  lemma LastOfSame(msgs: map<Id, string>, front: seq<Ref>, last: Ref)
    requires Arrivals(msgs, front) && Arrivals(msgs, front + [last]) && IsRef(msgs, last) && last !in front
    requires OnceFor(msgs, front, last.id)
    ensures OnceFor(msgs, front + [last], last.id)
  {
    var id, s := last.id, Unfinished(msgs, front) + {last};
    assert last == Ref(id, last.part);
    assert !AllIn(msgs, Elements(front), id) by { assert last !in Elements(front); }
    OpenPush(msgs, front, last);
    assert Elements(front + [last]) == Elements(front) + {last};
    assert OfMessage(s, id) == OfMessage(Unfinished(msgs, front), id) + {last};
    assert OfMessage(Elements(front + [last]), id) == OfMessage(Elements(front), id) + {last};
    AllInOf(msgs, s, id);
    AllInOf(msgs, Elements(front + [last]), id);
    assert OfMessage(s - OfMessage(s, id), id) == {};
  }

  lemma AllInOf(msgs: map<Id, string>, s: set<Ref>, id: Id)
    requires id in msgs
    ensures AllIn(msgs, s, id) <==> AllIn(msgs, OfMessage(s, id), id)
  {
  }

  /** Without repeats a message that came out has left nothing. */
  lemma {:induction false} OpenOnce(msgs: map<Id, string>, order: seq<Ref>, id: Id)
    requires Arrival(msgs, order) && id in msgs
    ensures OnceFor(msgs, order, id)
  {
    if order != [] {
      var front, last := order[..|order| - 1], order[|order| - 1];
      assert order == front + [last] && last in order;
      OpenOnce(msgs, front, id);
      if last.id == id { LastOfSame(msgs, front, last); } else { LastOfOther(msgs, front, last, id); }
    } else {
      SplitIsNotEmpty(msgs[id], id);
      assert Elements(order) == {};
    }
  }

  /** A packet of a message that came out, arriving again, starts an entry that is never
      finished, unless all other parts come again as well. */
  lemma DoubledPacketStays(msgs: map<Id, string>, order: seq<Ref>, r: Ref, more: seq<Ref>, missing: Ref)
    requires Arrival(msgs, order) && IsRef(msgs, r) && !Plain(msgs[r.id]) && AllIn(msgs, Elements(order), r.id)
    requires Arrivals(msgs, more) && IsRef(msgs, missing) && missing.id == r.id && missing != r && missing !in more
    ensures Arrivals(msgs, order + [r] + more) && r.id in Collect(msgs, order + [r] + more)
  {
    OpenOnce(msgs, order, r.id);
    OpenPush(msgs, order, r);
    var s := Unfinished(msgs, order) + {r};
    assert OfMessage(Unfinished(msgs, order), r.id) == {};
    assert missing in OfMessage(Unfinished(msgs, order), r.id) <==> missing in Unfinished(msgs, order);
    assert missing !in s;
    assert !AllIn(msgs, s, r.id) by { assert missing == Ref(r.id, missing.part); }
    assert Arrivals(msgs, order + [r]);
    LeftStays(msgs, order + [r], more, r, missing);
    LeftIff(msgs, order + [r] + more, r.id);
  }

  lemma {:induction false} AsciiLength(n: nat)
    ensures Utf8Length(seq(n, _ => 'a')) == n
  {
    if n > 0 {
      AsciiLength(n - 1);
      assert seq(n, _ => 'a')[1..] == seq(n - 1, _ => 'a');
    }
  }

  /** For one: a message of two parts, and the first part again. */
  lemma DoubledPacketStaysAt(id: Id)
    ensures
      var msgs := map[id := seq(WEBRTC_MAX_SIZE + 1, _ => 'a')];
      var order := [Ref(id, 0), Ref(id, 1)];
      && Arrivals(msgs, order) && Collect(msgs, order) == map[]
      && Arrivals(msgs, order + [Ref(id, 0)]) && id in Collect(msgs, order + [Ref(id, 0)])
  {
    var msg := seq(WEBRTC_MAX_SIZE + 1, _ => 'a');
    var msgs := map[id := msg];
    var order := [Ref(id, 0), Ref(id, 1)];
    AsciiLength(WEBRTC_MAX_SIZE + 1);
    var rest := msg[WEBRTC_MAX_SIZE..];
    assert Chunks(rest, WEBRTC_MAX_SIZE) == [rest];
    assert |SplitMsg(msg, id)| == 2;
    assert forall r :: IsRef(msgs, r) ==> r == Ref(id, 0) || r == Ref(id, 1);
    assert order[0] in order && order[1] in order;
    NothingLeft(msgs, order);
    DoubledPacketStays(msgs, order, Ref(id, 0), [], Ref(id, 1));
    assert order + [Ref(id, 0)] + [] == order + [Ref(id, 0)];
  }

  // ------------------------------------------------------------------ sending

  datatype Direction = Incoming | Outgoing

  datatype DataChannelState = Connecting | Open | Closing | Closed

  datatype ConnectionStateMap = ConnectionStateMap(dataConnection: Option<DataChannelState>)

  datatype Input =
    | Text(msg: string, id: Id)
    | Connected(dir: Direction)
    | State(dir: Direction, state: ConnectionStateMap)
    | Dropped(dir: Direction)
    | SetupOutgoing

  datatype Sent = Sent(dir: Direction, packet: Packet)

  /** The queue and the two connections of a node. */
  datatype Conn = Conn(
    queue: seq<Packet>, incoming: Option<ConnectionStateMap>, outgoing: Option<ConnectionStateMap>)

  predicate IsOpen(state: Option<ConnectionStateMap>) { state.Some? && state.value.dataConnection == Some(Open) }

  function SentOver(dir: Direction, queue: seq<Packet>): seq<Sent> {
    seq(|queue|, i requires 0 <= i < |queue| => Sent(dir, queue[i]))
  }

  function PacketsOf(sent: seq<Sent>): (r: seq<Packet>)
    ensures |r| == |sent| && forall i :: 0 <= i < |r| ==> r[i] == sent[i].packet
  {
    seq(|sent|, i requires 0 <= i < |sent| => sent[i].packet)
  }

  /** The new state of the connections; what is queued. */
  function Accept(c: Conn, input: Input): Conn {
    match input
    case Text(msg, id) => c.(queue := c.queue + SplitMsg(msg, id))
    case Connected(dir) => SetState(c, dir, Some(ConnectionStateMap(Some(Open))))
    case State(dir, state) => SetState(c, dir, Some(state))
    case Dropped(dir) => SetState(c, dir, None)
    case SetupOutgoing => if c.outgoing.None? then c.(outgoing := Some(ConnectionStateMap(None))) else c
  }

  function SetState(c: Conn, dir: Direction, state: Option<ConnectionStateMap>): Conn {
    if dir == Incoming then c.(incoming := state) else c.(outgoing := state)
  }

  function Flush(c: Conn): (Conn, seq<Sent>) {
    if IsOpen(c.outgoing) then (c.(queue := []), SentOver(Outgoing, c.queue))
    else if IsOpen(c.incoming) then (c.(queue := []), SentOver(Incoming, c.queue))
    else (c, [])
  }

  function Handle(c: Conn, input: Input): (Conn, seq<Sent>) {
    if input.Text? || input.Connected? then Flush(Accept(c, input)) else (Accept(c, input), [])
  }

  class NodeConnection {
    var msgQueue: seq<Packet>
    var stateIncoming: Option<ConnectionStateMap>
    var stateOutgoing: Option<ConnectionStateMap>

    constructor ()
      ensures Model() == Conn([], None, None)
    {
      msgQueue, stateIncoming, stateOutgoing := [], None, None;
    }

    ghost function Model(): Conn
      reads this
    {
      Conn(msgQueue, stateIncoming, stateOutgoing)
    }

    /** Drains the queue if the data channel of that direction is open. */
    method Send(dir: Direction, state: Option<ConnectionStateMap>) returns (out: seq<Sent>)
      modifies this`msgQueue
      ensures msgQueue == if IsOpen(state) then [] else old(msgQueue)
      ensures out == if IsOpen(state) then SentOver(dir, old(msgQueue)) else []
    {
      out := [];
      if state.Some? && state.value.dataConnection.Some? {
        if state.value.dataConnection.value == Open {
          out := SentOver(dir, msgQueue);
          msgQueue := [];
        }
      }
    }

    /** The outgoing connection first, then the incoming one. */
    method SendQueue() returns (out: seq<Sent>)
      modifies this`msgQueue
      ensures (Model(), out) == Flush(old(Model()))
    {
      out := [];
      if |msgQueue| > 0 {
        out := Send(Outgoing, stateOutgoing);
      }
      if |msgQueue| > 0 {
        var more := Send(Incoming, stateIncoming);
        assert [] + more == more;
        out := out + more;
      }
      assert SentOver(Outgoing, []) == [] && SentOver(Incoming, []) == [];
    }

    method Process(input: Input) returns (out: seq<Sent>)
      modifies this
      ensures (Model(), out) == Handle(old(Model()), input)
    {
      out := [];
      match input {
        case Text(msg, id) =>
          msgQueue := msgQueue + SplitMsg(msg, id);
          out := SendQueue();
        case Connected(dir) =>
          SetStateOf(dir, Some(ConnectionStateMap(Some(Open))));
          out := SendQueue();
        case State(dir, state) => SetStateOf(dir, Some(state));
        case Dropped(dir) => SetStateOf(dir, None);
        case SetupOutgoing =>
          if stateOutgoing.None? { stateOutgoing := Some(ConnectionStateMap(None)); }
      }
    }

    method SetStateOf(dir: Direction, state: Option<ConnectionStateMap>)
      modifies this`stateIncoming, this`stateOutgoing
      ensures Model() == SetState(old(Model()), dir, state)
    {
      match dir {
        case Incoming => stateIncoming := state;
        case Outgoing => stateOutgoing := state;
      }
    }
  }

  ghost function ConnAfter(inputs: seq<Input>): Conn {
    if inputs == [] then Conn([], None, None)
    else Handle(ConnAfter(inputs[..|inputs| - 1]), inputs[|inputs| - 1]).0
  }

  ghost function SentAfter(inputs: seq<Input>): seq<Sent> {
    if inputs == [] then []
    else SentAfter(inputs[..|inputs| - 1]) + Handle(ConnAfter(inputs[..|inputs| - 1]), inputs[|inputs| - 1]).1
  }

  /** The packets of all texts, in the order of the texts. */
  ghost function PacketsAsked(inputs: seq<Input>): seq<Packet> {
    if inputs == [] then []
    else
      var last := inputs[|inputs| - 1];
      PacketsAsked(inputs[..|inputs| - 1]) + (if last.Text? then SplitMsg(last.msg, last.id) else [])
  }

  lemma HandleConserves(c: Conn, input: Input)
    ensures var (d, out) := Handle(c, input);
      PacketsOf(out) + d.queue == c.queue + (if input.Text? then SplitMsg(input.msg, input.id) else [])
  {
  }

  /** Over any run, connections coming and going, nothing is lost, doubled or reordered:
      what was sent, on either connection, and what is queued are the packets asked for. */
  lemma {:induction false} SendingConserves(inputs: seq<Input>)
    ensures PacketsOf(SentAfter(inputs)) + ConnAfter(inputs).queue == PacketsAsked(inputs)
  {
    if inputs != [] {
      var front, last := inputs[..|inputs| - 1], inputs[|inputs| - 1];
      SendingConserves(front);
      HandleConserves(ConnAfter(front), last);
      var out := Handle(ConnAfter(front), last).1;
      PacketsOfSum(SentAfter(front), out);
      Regroup(PacketsOf(SentAfter(front)), PacketsOf(out), ConnAfter(inputs).queue,
        ConnAfter(front).queue, if last.Text? then SplitMsg(last.msg, last.id) else []);
    }
  }

  lemma PacketsOfSum(a: seq<Sent>, b: seq<Sent>)
    ensures PacketsOf(a + b) == PacketsOf(a) + PacketsOf(b)
  {
  }

  lemma Regroup(a: seq<Packet>, b: seq<Packet>, c: seq<Packet>, d: seq<Packet>, e: seq<Packet>)
    requires b + c == d + e
    ensures a + b + c == a + d + e
  {
    assert a + b + c == a + (b + c) && a + (d + e) == a + d + e;
  }

  /** After a text or a new connection, packets wait only if no channel is open. */
  lemma QueueWaitsForChannel(c: Conn, input: Input)
    requires input.Text? || input.Connected?
    ensures var d, open := Handle(c, input).0, Some(ConnectionStateMap(Some(Open)));
      d.queue != [] ==> d.incoming != open && d.outgoing != open
    ensures input.Connected? ==> Handle(c, input).0.queue == []
  {
  }

  /** Packets leave only then, and only over an open channel: the outgoing one if that is
      open, and otherwise the incoming one. */
  lemma SentOverOpen(c: Conn, input: Input, s: Sent)
    requires s in Handle(c, input).1
    ensures var d, open := Handle(c, input).0, Some(ConnectionStateMap(Some(Open)));
      && (input.Text? || input.Connected?)
      && (if s.dir == Outgoing then d.outgoing == open else d.incoming == open && d.outgoing != open)
  {
  }

  /** The state of a connection is the one reported last, open when it was made and none when
      it was dropped; setting it up outwards keeps the one there is. */
  ghost function Reported(inputs: seq<Input>, dir: Direction): Option<ConnectionStateMap> {
    if inputs == [] then None
    else
      var last, before := inputs[|inputs| - 1], Reported(inputs[..|inputs| - 1], dir);
      if last == Connected(dir) then Some(ConnectionStateMap(Some(Open)))
      else if last == Dropped(dir) then None
      else if last.State? && last.dir == dir then Some(last.state)
      else if last.SetupOutgoing? && dir == Outgoing && before.None? then Some(ConnectionStateMap(None))
      else before
  }

  lemma {:induction false} StateIsReported(inputs: seq<Input>)
    ensures ConnAfter(inputs).incoming == Reported(inputs, Incoming)
    ensures ConnAfter(inputs).outgoing == Reported(inputs, Outgoing)
  {
    if inputs != [] { StateIsReported(inputs[..|inputs| - 1]); }
  }
}
