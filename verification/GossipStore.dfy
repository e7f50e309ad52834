/** The event store of one category, updated in place (gossip_events/core.rs). */
module GossipStore {
  import opened Prelude
  import opened Gossip

  ghost predicate Keyed(m: map<Digest, Event>) { forall d :: d in m ==> d == Digest(m[d]) }

  ghost function Values(m: map<Digest, Event>): set<Event> { set d | d in m :: m[d] }

  lemma KeyedValues(m: map<Digest, Event>)
    requires Keyed(m)
    ensures forall e :: e in Values(m) <==> Digest(e) in m
    ensures forall e :: Digest(e) in m ==> m[Digest(e)] == e
  {
    forall e | Digest(e) in m ensures e in Values(m) && m[Digest(e)] == e { assert m[Digest(e)] == e; }
  }

  lemma {:induction false} KeyedSize(m: map<Digest, Event>)
    requires Keyed(m)
    ensures |Values(m)| == |m|
    decreases |m|
  {
    if m == map[] {
      assert Values(m) == {};
    } else {
      var d :| d in m;
      var rest := m - {d};
      KeyedSize(rest);
      KeyedValues(m);
      KeyedValues(rest);
      assert Values(m) == Values(rest) + {m[d]};
    }
  }

  /** after holds the n most recent events of before, with ties broken somehow. */
  ghost predicate Truncated(before: set<Event>, after: set<Event>, n: nat) {
    && after <= before && |after| == Min(n, |before|)
    && forall e, f :: e in after && f in before - after ==> e.created >= f.created
  }

  lemma TruncatedIsNewest(before: set<Event>, after: set<Event>, n: nat)
    requires TimesDiffer(before) && Truncated(before, after, n)
    ensures after == Newest(before, n)
  {
    if |before| <= n { SameSize(after, before); }
    forall e | e in before ensures e in after <==> |Newer(before, e)| < n {
      if e in after {
        if |before| > n { assert Newer(before, e) <= after; ProperSet(Newer(before, e), after, e); }
        else { ProperSet(Newer(before, e), before, e); }
      } else {
        assert after <= Newer(before, e);
        SmallerSet(after, Newer(before, e));
      }
    }
  }

  lemma SameSize(a: set<Event>, b: set<Event>)
    requires a <= b && |a| == |b|
    ensures a == b
  {
    assert |b - a| == |b| - |a|;
  }

  /** What insert may do, also when some events have the same time. */
  ghost predicate Inserted(before: set<Event>, e: Event, after: set<Event>, unique: bool, n: nat) {
    if e in before then after == before
    else if unique && exists f :: f in before && f.src == e.src then
      exists f :: f in before && f.src == e.src
        && if f.created > e.created then after == before else Truncated(before - {f} + {e}, after, n)
    else Truncated(before + {e}, after, n)
  }

  lemma ReplacedIs(before: set<Event>, e: Event, f: Event, after: set<Event>, n: nat)
    requires OnePerSource(before) && TimesDiffer(before + {e}) && e !in before && f in before && f.src == e.src
    requires if f.created > e.created then after == before else Truncated(before - {f} + {e}, after, n)
    ensures after == Insert(before, e, true, n)
  {
    InsertIs(before, e, f, n);
    if f.created <= e.created { TruncatedIsNewest(before - {f} + {e}, after, n); }
  }

  lemma InsertedIs(before: set<Event>, e: Event, after: set<Event>, unique: bool, n: nat)
    requires Inserted(before, e, after, unique, n) && TimesDiffer(before + {e})
    requires unique ==> OnePerSource(before)
    ensures after == Insert(before, e, unique, n)
  {
    if e !in before {
      if unique && exists f :: f in before && f.src == e.src {
        var f :| f in before && f.src == e.src
          && if f.created > e.created then after == before else Truncated(before - {f} + {e}, after, n);
        ReplacedIs(before, e, f, after, n);
      } else {
        TruncatedIsNewest(before + {e}, after, n);
      }
    }
  }

  ghost predicate NewestFirst(s: seq<Event>) {
    forall i, j :: 0 <= i < j < |s| ==> s[i].created >= s[j].created
  }

  lemma SpliceSorted(s: seq<Event>, pos: nat, e: Event)
    requires pos <= |s| && NewestFirst(s)
    requires pos > 0 ==> s[pos - 1].created >= e.created
    requires forall i :: pos <= i < |s| ==> s[i].created <= e.created
    ensures NewestFirst(s[..pos] + [e] + s[pos..])
  {
    var r := s[..pos] + [e] + s[pos..];
    assert forall i :: 0 <= i < |r| ==> r[i] == if i < pos then s[i] else if i == pos then e else s[i - 1];
  }

  lemma SpliceDistinct(s: seq<Event>, pos: nat, e: Event)
    requires pos <= |s| && Distinct(s) && e !in s
    ensures Distinct(s[..pos] + [e] + s[pos..])
  {
    var r := s[..pos] + [e] + s[pos..];
    assert forall i :: 0 <= i < |r| ==> r[i] == if i < pos then s[i] else if i == pos then e else s[i - 1];
  }

  lemma SpliceMembers(s: seq<Event>, pos: nat, e: Event)
    requires pos <= |s|
    ensures forall x :: x in s[..pos] + [e] + s[pos..] <==> x in s || x == e
  {
    assert s == s[..pos] + s[pos..];
  }

  /** The event, or for unique events a newer one of its source, is held already. */
  ghost predicate Known(held: set<Event>, e: Event, unique: bool) {
    e in held || (unique && exists f :: f in held && f.src == e.src && f.created > e.created)
  }

  /** Orders events by time, most recent first; equal times come in any order. */
  method SortNewestFirst(m: set<Event>) returns (s: seq<Event>)
    ensures Distinct(s) && |s| == |m| && (forall e :: e in s <==> e in m)
    ensures NewestFirst(s)
  {
    s := [];
    var remaining := m;
    while remaining != {}
      invariant remaining <= m
      invariant Distinct(s) && NewestFirst(s) && |s| + |remaining| == |m|
      invariant forall e :: e in s <==> e in m - remaining
      decreases |remaining|
    {
      var e :| e in remaining;
      var pos := |s|;
      while pos > 0 && s[pos - 1].created < e.created
        invariant 0 <= pos <= |s|
        invariant forall i :: pos <= i < |s| ==> s[i].created <= e.created
      {
        pos := pos - 1;
      }
      SpliceSorted(s, pos, e);
      SpliceDistinct(s, pos, e);
      SpliceMembers(s, pos, e);
      s := s[..pos] + [e] + s[pos..];
      remaining := remaining - {e};
    }
  }

  class Events {
    const unique: bool
    const maxEvents: nat
    var events: map<Digest, Event>

    constructor (unique: bool, maxEvents: nat)
      ensures this.unique == unique && this.maxEvents == maxEvents
      ensures Valid() && Held() == {}
    {
      this.unique, this.maxEvents := unique, maxEvents;
      events := map[];
    }

    ghost function Held(): set<Event>
      reads this
    {
      Values(events)
    }

    /** Events are stored under their digest; never too many, nor two per source if unique. */
    ghost predicate Valid()
      reads this
    {
      Keyed(events) && |events| <= maxEvents && (unique ==> OnePerSource(Held()))
    }

    method Insert(msg: Event) returns (modified: bool)
      requires Valid()
      modifies this
      ensures Valid() && Inserted(old(Held()), msg, Held(), unique, maxEvents)
      ensures TimesDiffer(old(Held()) + {msg}) ==> Held() == Gossip.Insert(old(Held()), msg, unique, maxEvents)
      ensures !modified ==> Held() == old(Held())
      ensures !modified <==> Known(old(Held()), msg, unique)
    {
      ghost var before := Held();
      KeyedValues(events);
      if Digest(msg) in events {
        return false;
      }
      if unique {
        modified := InsertUnique(msg);
      } else {
        modified := InsertSimple(msg);
      }
      if TimesDiffer(before + {msg}) {
        InsertedIs(before, msg, Held(), unique, maxEvents);
      }
    }

    method InsertUnique(msg: Event) returns (modified: bool)
      requires Valid() && unique && msg !in Held()
      modifies this
      ensures Valid() && Inserted(old(Held()), msg, Held(), unique, maxEvents)
      ensures !modified ==> Held() == old(Held())
      ensures modified <==> !exists f :: f in old(Held()) && f.src == msg.src && f.created > msg.created
    {
      ghost var before := Held();
      KeyedValues(events);
      if id :| id in events && events[id].src == msg.src {
        var ev := events[id];
        assert ev in before;
        if ev.created > msg.created {
          return false;
        }
        events := events - {id};
        KeyedValues(events);
        assert Held() == before - {ev};
      }
      modified := InsertSimple(msg);
    }

    /** Stores the event and drops the oldest ones beyond the limit, perhaps this very one. */
    method InsertSimple(msg: Event) returns (modified: bool)
      requires Keyed(events) && (unique ==> OnePerSource(Held() + {msg})) && msg !in Held()
      modifies this
      ensures modified && Valid() && Truncated(old(Held()) + {msg}, Held(), maxEvents)
    {
      ghost var before := Held();
      KeyedValues(events);
      events := events[Digest(msg) := msg];
      KeyedValues(events);
      assert Held() == before + {msg};
      Limit();
      return true;
    }

    method Limit()
      requires Keyed(events)
      modifies this
      ensures Keyed(events) && |events| <= maxEvents && Truncated(old(Held()), Held(), maxEvents)
    {
      KeyedSize(events);
      if |events| <= maxEvents {
        return;
      }
      ghost var before := Held();
      var values := set d | d in events :: events[d];
      assert values == before;
      var sorted := SortNewestFirst(values);
      FirstAreNewest(before, sorted, maxEvents);
      DropAll(sorted[maxEvents..]);
      KeyedSize(events);
    }

    method DropAll(es: seq<Event>)
      requires Keyed(events) && Distinct(es) && forall e :: e in es ==> e in Held()
      modifies this
      ensures Keyed(events) && Held() == old(Held()) - Elements(es) && |events| == |old(events)| - |es|
    {
      for i := 0 to |es|
        invariant Keyed(events) && Held() == old(Held()) - Elements(es[..i]) && |events| == |old(events)| - i
      {
        assert es[..i + 1] == es[..i] + [es[i]];
        Drop(es[i]);
      }
      assert es[..|es|] == es;
    }

    method Drop(e: Event)
      requires Keyed(events) && e in Held()
      modifies this
      ensures Keyed(events) && Held() == old(Held()) - {e} && |events| == |old(events)| - 1
    {
      KeyedValues(events);
      events := events - {Digest(e)};
      KeyedValues(events);
    }
  }

  lemma FirstAreNewest(before: set<Event>, s: seq<Event>, n: nat)
    requires NewestFirst(s) && n <= |s| && forall e :: e in s <==> e in before
    ensures var after := before - Elements(s[n..]);
      && after <= before
      && forall e, f :: e in after && f in before - after ==> e.created >= f.created
  {
    var after := before - Elements(s[n..]);
    forall e, f | e in after && f in before - after ensures e.created >= f.created {
      assert forall k :: n <= k < |s| ==> s[n..][k - n] == s[k];
      var i :| 0 <= i < |s| && s[i] == e;
      var j :| 0 <= j < |s[n..]| && s[n..][j] == f;
      assert s[n + j] == f;
    }
  }
}
