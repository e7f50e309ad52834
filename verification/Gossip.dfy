/** Which events a bounded store of gossiped events converges to
    (gossip_events/core.rs), as a theory of finite sets. */
module Gossip {
  import opened Prelude
  import opened NodeIds

  datatype Category = TextMessage | NodeInfo

  datatype Event = Event(category: Category, src: Id, created: int, msg: string)

  /** The hash of category, source, time and text, taken to be collision free. */
  datatype Digest = Digest(event: Event)

  ghost predicate TimesDiffer(s: set<Event>) {
    forall e, f :: e in s && f in s && e != f ==> e.created != f.created
  }

  ghost predicate OnePerSource(s: set<Event>) {
    forall e, f :: e in s && f in s && e.src == f.src ==> e == f
  }

  ghost function Newer(s: set<Event>, e: Event): set<Event> { set f | f in s && f.created > e.created }

  /** The events with fewer than n newer ones. */
  ghost function Newest(s: set<Event>, n: nat): set<Event> { set e | e in s && |Newer(s, e)| < n }

  /** The most recent event of every source. */
  ghost function Latest(s: set<Event>): set<Event> {
    set e | e in s && forall f :: f in s && f.src == e.src ==> f.created <= e.created
  }

  /** What a store should hold after it was offered s. */
  ghost function Reduce(s: set<Event>, unique: bool, n: nat): set<Event> {
    Newest(if unique then Latest(s) else s, n)
  }

  /** One insertion into a store whose events have different times. */
  ghost function Insert(held: set<Event>, e: Event, unique: bool, n: nat): set<Event> {
    if e in held then held
    else if unique && exists f :: f in held && f.src == e.src then
      var f :| f in held && f.src == e.src;
      if f.created > e.created then held else Newest(held - {f} + {e}, n)
    else Newest(held + {e}, n)
  }

  // ----------------------------------------------------------- newest events

  lemma SmallerSet(a: set<Event>, b: set<Event>)
    requires a <= b
    ensures |a| <= |b|
  {
    assert b == a + (b - a);
  }

  lemma ProperSet(a: set<Event>, b: set<Event>, e: Event)
    requires a <= b && e in b && e !in a
    ensures |a| < |b|
  {
    SmallerSet(a, b - {e});
  }

  lemma {:induction false} OldestExists(s: set<Event>) returns (e: Event)
    requires s != {}
    ensures e in s && forall f :: f in s ==> e.created <= f.created
    decreases |s|
  {
    e :| e in s;
    if s != {e} {
      var g := OldestExists(s - {e});
      if g.created < e.created { e := g; }
    }
  }

  /** Newest keeps at least n events, ties or not. */
  lemma {:induction false} NewestIsFull(s: set<Event>, n: nat)
    ensures |Newest(s, n)| >= n || Newest(s, n) == s
    decreases |s|
  {
    if |s| <= n {
      forall e | e in s ensures |Newer(s, e)| < n { ProperSet(Newer(s, e), s, e); }
    } else {
      var m := OldestExists(s);
      NewestIsFull(s - {m}, n);
      forall e | e in s - {m} ensures Newer(s - {m}, e) == Newer(s, e) { }
      SmallerSet(Newest(s - {m}, n), Newest(s, n));
    }
  }

  /** Counting newer events in the newest ones only is as good as in all. */
  lemma NewerInNewest(s: set<Event>, n: nat, x: Event)
    ensures |Newer(Newest(s, n), x)| < n ==> Newer(Newest(s, n), x) == Newer(s, x)
  {
    var t := Newer(s, x);
    forall y | y in t ensures Newer(t, y) == Newer(s, y) { }
    assert Newest(t, n) <= Newer(Newest(s, n), x);
    SmallerSet(Newest(t, n), Newer(Newest(s, n), x));
    NewestIsFull(t, n);
  }

  /** Truncating early changes nothing: the law that makes replicas converge. */
  lemma NewestUnion(s: set<Event>, t: set<Event>, n: nat)
    ensures Newest(Newest(s, n) + t, n) == Newest(s + t, n)
  {
    var r := Newest(s, n);
    forall x | x in s + t ensures x in Newest(r + t, n) <==> x in Newest(s + t, n) {
      assert Newer(r + t, x) == Newer(r, x) + Newer(t, x);
      assert Newer(s + t, x) == Newer(s, x) + Newer(t, x);
      SmallerSet(Newer(r, x), Newer(r + t, x));
      SmallerSet(Newer(s, x), Newer(s + t, x));
      SmallerSet(Newer(r + t, x), Newer(s + t, x));
      NewerInNewest(s, n, x);
    }
  }

  lemma NewestTwice(s: set<Event>, n: nat)
    ensures Newest(Newest(s, n), n) == Newest(s, n)
  {
    NewestUnion(s, {}, n);
    assert Newest(s, n) + {} == Newest(s, n) && s + {} == s;
  }

  // -------------------------------------------------------- latest per source

  lemma LatestOnePerSource(s: set<Event>)
    requires TimesDiffer(s)
    ensures OnePerSource(Latest(s))
  {
  }

  lemma {:induction false} LatestOf(s: set<Event>, e: Event) returns (f: Event)
    requires e in s
    ensures f in Latest(s) && f.src == e.src && f.created >= e.created
    decreases |Newer(s, e)|
  {
    if e in Latest(s) {
      f := e;
    } else {
      var g :| g in s && g.src == e.src && g.created > e.created;
      ProperSet(Newer(s, g), Newer(s, e), g);
      f := LatestOf(s, g);
    }
  }

  /** A newer event of the same source is known: the store stays as it is. */
  lemma OlderIsDropped(a: set<Event>, e: Event, f: Event, n: nat)
    requires f in a && f.created > e.created && f !in Newest(a, n)
    ensures Newest(a + {e}, n) == Newest(a, n)
  {
    assert Newer(a, f) <= Newer(a + {e}, e);
    SmallerSet(Newer(a, f), Newer(a + {e}, e));
    forall x | x in a ensures x in Newest(a + {e}, n) <==> x in Newest(a, n) {
      if e.created > x.created {
        SmallerSet(Newer(a, f), Newer(a, x));
        SmallerSet(Newer(a, x), Newer(a + {e}, x));
      } else {
        assert Newer(a + {e}, x) == Newer(a, x);
      }
    }
  }

  lemma ReplaceCounts(a: set<Event>, e: Event, f: Event, x: Event)
    requires f in a && e !in a && f.created < e.created && x in a && x != f && x.created != f.created
    ensures var b := a - {f} + {e};
      if x.created < f.created then |Newer(b, x)| == |Newer(a, x)|
      else |Newer(a, x)| <= |Newer(b, x)| <= |Newer(a, x)| + 1 && |Newer(a, x)| < |Newer(a, f)|
  {
    var b := a - {f} + {e};
    if x.created < f.created {
      assert Newer(b, x) == Newer(a, x) - {f} + {e};
    } else {
      ProperSet(Newer(a, x), Newer(a, f), x);
      if e.created > x.created {
        assert Newer(b, x) == Newer(a, x) + {e};
      } else {
        assert Newer(b, x) == Newer(a, x);
      }
    }
  }

  /** A newer event takes the place of the held event of its source. */
  lemma ReplaceHeld(a: set<Event>, e: Event, f: Event, n: nat)
    requires TimesDiffer(a + {e}) && f in Newest(a, n) && e !in a && f.created < e.created
    ensures Newest(a - {f} + {e}, n) == Newest(a, n) - {f} + {e}
  {
    var b := a - {f} + {e};
    forall x | x in a - {f} ensures x in Newest(b, n) <==> x in Newest(a, n) {
      ReplaceCounts(a, e, f, x);
    }
    assert Newer(b, e) <= Newer(a, f);
    SmallerSet(Newer(b, e), Newer(a, f));
  }

  /** A newer event of a source which was pushed out already. */
  lemma ReplaceDropped(a: set<Event>, e: Event, f: Event, n: nat)
    requires TimesDiffer(a + {e}) && f in a && f !in Newest(a, n) && e !in a && f.created < e.created
    ensures Newest(a + {e}, n) == Newest(a - {f} + {e}, n)
  {
    var b := a - {f} + {e};
    assert Newer(a + {e}, e) == Newer(b, e);
    SmallerSet(Newer(a, f), Newer(a + {e}, f));
    forall x | x in a - {f} ensures x in Newest(b, n) <==> x in Newest(a + {e}, n) {
      if x.created < f.created {
        ProperSet(Newer(a, f), Newer(a, x), f);
        SmallerSet(Newer(a, x), Newer(a + {e}, x));
        ReplaceCounts(a, e, f, x);
      } else {
        assert Newer(b, x) == Newer(a + {e}, x);
      }
    }
  }

  // --------------------------------------------------------------- insertion

  lemma LatestWithNew(s: set<Event>, e: Event)
    requires TimesDiffer(s + {e}) && e !in s
    ensures (forall f :: f in Latest(s) ==> f.src != e.src) ==> Latest(s + {e}) == Latest(s) + {e}
    ensures forall f :: f in Latest(s) && f.src == e.src && f.created > e.created ==> Latest(s + {e}) == Latest(s)
    ensures forall f :: f in Latest(s) && f.src == e.src && f.created < e.created ==>
      Latest(s + {e}) == Latest(s) - {f} + {e}
  {
    if forall f :: f in Latest(s) ==> f.src != e.src {
      forall g | g in s ensures g.src != e.src {
        var h := LatestOf(s, g);
      }
    }
    forall f | f in Latest(s) && f.src == e.src && f.created < e.created
      ensures Latest(s + {e}) == Latest(s) - {f} + {e}
    {
      LatestOnePerSource(s);
    }
  }

  /** Inserting one more event into the reduction of s gives the reduction of s and
      that event, whatever was pushed out or superseded before. */
  lemma InsertReduces(s: set<Event>, e: Event, unique: bool, n: nat)
    requires TimesDiffer(s + {e})
    ensures Insert(Reduce(s, unique, n), e, unique, n) == Reduce(s + {e}, unique, n)
  {
    if e in s {
      assert s + {e} == s;
      InsertAgain(s, e, unique, n);
    } else if !unique {
      NewestUnion(s, {e}, n);
    } else {
      InsertUnique(s, e, n);
    }
  }

  lemma InsertKnownSource(s: set<Event>, e: Event, f: Event, n: nat)
    requires TimesDiffer(s + {e}) && e !in s && f in Latest(s) && f.src == e.src
    ensures var r := Newest(Latest(s), n);
      Reduce(s + {e}, true, n) ==
        if f in r then (if f.created > e.created then r else Newest(r - {f} + {e}, n)) else Newest(r + {e}, n)
  {
    var a := Latest(s);
    LatestWithNew(s, e);
    NewestUnion(a, {e}, n);
    if f in Newest(a, n) {
      if f.created < e.created {
        ReplaceHeld(a, e, f, n);
        NewestTwice(a - {f} + {e}, n);
      }
    } else if f.created > e.created {
      OlderIsDropped(a, e, f, n);
    } else {
      ReplaceDropped(a, e, f, n);
    }
  }

  lemma InsertIs(held: set<Event>, e: Event, f: Event, n: nat)
    requires OnePerSource(held) && e !in held && f in held && f.src == e.src
    ensures Insert(held, e, true, n) == if f.created > e.created then held else Newest(held - {f} + {e}, n)
  {
  }

  lemma InsertUnique(s: set<Event>, e: Event, n: nat)
    requires TimesDiffer(s + {e}) && e !in s
    ensures Insert(Reduce(s, true, n), e, true, n) == Reduce(s + {e}, true, n)
  {
    var a := Latest(s);
    LatestOnePerSource(s);
    if f :| f in a && f.src == e.src {
      InsertKnownSource(s, e, f, n);
      if f in Newest(a, n) {
        InsertIs(Newest(a, n), e, f, n);
      } else {
        assert forall g :: g in Newest(a, n) ==> g.src != e.src;
      }
    } else {
      LatestWithNew(s, e);
      NewestUnion(a, {e}, n);
    }
  }

  /** Offering an event again, held, superseded or pushed out, changes nothing. */
  lemma InsertAgain(s: set<Event>, e: Event, unique: bool, n: nat)
    requires TimesDiffer(s) && e in s
    ensures Insert(Reduce(s, unique, n), e, unique, n) == Reduce(s, unique, n)
  {
    if !unique {
      NewestUnion(s, {e}, n);
      assert s + {e} == s;
    } else {
      var a := Latest(s);
      LatestOnePerSource(s);
      var f := LatestOf(s, e);
      NewestUnion(a, {e}, n);
      if f == e {
        assert a + {e} == a;
      } else if f !in Newest(a, n) {
        OlderIsDropped(a, e, f, n);
      }
    }
  }

  // ------------------------------------------------------------------- runs

  ghost function InsertAll(held: set<Event>, es: seq<Event>, unique: bool, n: nat): set<Event> {
    if es == [] then held
    else Insert(InsertAll(held, es[..|es| - 1], unique, n), es[|es| - 1], unique, n)
  }

  lemma {:induction false} InsertAllReduces(s: set<Event>, es: seq<Event>, unique: bool, n: nat)
    requires TimesDiffer(s + Elements(es))
    ensures InsertAll(Reduce(s, unique, n), es, unique, n) == Reduce(s + Elements(es), unique, n)
  {
    if es == [] {
      assert s + Elements(es) == s;
    } else {
      var front, last := es[..|es| - 1], es[|es| - 1];
      assert es == front + [last];
      assert s + Elements(es) == s + Elements(front) + {last};
      InsertAllReduces(s, front, unique, n);
      InsertReduces(s + Elements(front), last, unique, n);
    }
  }

  /** From an empty store, every sequence of insertions, in any order and with any
      repeats, ends with the reduction of the set of events it offers. */
  lemma HeldIsReduction(es: seq<Event>, unique: bool, n: nat)
    requires TimesDiffer(Elements(es))
    ensures InsertAll({}, es, unique, n) == Reduce(Elements(es), unique, n)
  {
    assert {} + Elements(es) == Elements(es);
    assert Reduce({}, unique, n) == {};
    InsertAllReduces({}, es, unique, n);
  }

  /** Replicas which were offered the same set of events hold the same events. */
  lemma ReplicasConverge(es: seq<Event>, fs: seq<Event>, unique: bool, n: nat)
    requires TimesDiffer(Elements(es)) && Elements(es) == Elements(fs)
    ensures InsertAll({}, es, unique, n) == InsertAll({}, fs, unique, n)
  {
    HeldIsReduction(es, unique, n);
    HeldIsReduction(fs, unique, n);
  }

  lemma ReduceTwice(s: set<Event>, unique: bool, n: nat)
    requires TimesDiffer(s)
    ensures Reduce(Reduce(s, unique, n), unique, n) == Reduce(s, unique, n)
  {
    NewestTwice(if unique then Latest(s) else s, n);
    if unique {
      LatestOnePerSource(s);
      assert Latest(Newest(Latest(s), n)) == Newest(Latest(s), n);
    }
  }

  lemma OneOut(s: set<Event>, t: set<Event>, e: Event)
    requires e in t
    ensures s + t == s + (t - {e}) + {e}
  {
  }

  lemma SameAfterInsert(a: set<Event>, b: set<Event>, e: Event, unique: bool, n: nat)
    requires TimesDiffer(b + {e}) && a <= b && Reduce(a, unique, n) == Reduce(b, unique, n)
    ensures Reduce(a + {e}, unique, n) == Reduce(b + {e}, unique, n)
  {
    InsertReduces(a, e, unique, n);
    InsertReduces(b, e, unique, n);
  }

  /** Merging with a reduction is as good as merging with everything it stands for. */
  lemma {:induction false} ReduceUnion(s: set<Event>, t: set<Event>, unique: bool, n: nat)
    requires TimesDiffer(s + t)
    ensures Reduce(Reduce(s, unique, n) + t, unique, n) == Reduce(s + t, unique, n)
    decreases |t|
  {
    var r := Reduce(s, unique, n);
    if t == {} {
      assert r + t == r && s + t == s;
      ReduceTwice(s, unique, n);
    } else {
      var e :| e in t;
      assert TimesDiffer(s + (t - {e}));
      ReduceUnion(s, t - {e}, unique, n);
      SameAfterInsert(r + (t - {e}), s + (t - {e}), e, unique, n);
      OneOut(r, t, e);
      OneOut(s, t, e);
    }
  }

  lemma ReduceBoth(s: set<Event>, t: set<Event>, unique: bool, n: nat)
    requires TimesDiffer(s + t)
    ensures Reduce(Reduce(s, unique, n) + Reduce(t, unique, n), unique, n) == Reduce(s + t, unique, n)
  {
    var r := Reduce(t, unique, n);
    ReduceUnion(s, r, unique, n);
    assert s + r == r + s && s + t == t + s;
    ReduceUnion(t, s, unique, n);
  }

  // ------------------------------------------------------- what is held, in words

  /** The sources of some events. */
  ghost function Sources(s: set<Event>): set<Id> { set e | e in s :: e.src }

  lemma NewestSize(s: set<Event>, n: nat)
    requires TimesDiffer(s)
    ensures |Newest(s, n)| == Min(n, |s|)
  {
    var r := Newest(s, n);
    NewestIsFull(s, n);
    SmallerSet(r, s);
    if r != {} {
      var m := OldestExists(r);
      assert r - {m} <= Newer(s, m);
      SmallerSet(r - {m}, Newer(s, m));
    }
  }

  lemma NewestAreNewer(s: set<Event>, n: nat, e: Event, f: Event)
    requires e in Newest(s, n) && f in s && f !in Newest(s, n)
    ensures f.created < e.created
  {
    if f.created >= e.created { SmallerSet(Newer(s, f), Newer(s, e)); }
  }

  lemma {:induction false} OneOfEachSource(s: set<Event>)
    requires OnePerSource(s)
    ensures |Sources(s)| == |s|
    decreases |s|
  {
    if e :| e in s {
      OneOfEachSource(s - {e});
      assert Sources(s) == Sources(s - {e}) + {e.src} && e.src !in Sources(s - {e});
    }
  }

  lemma LatestSources(s: set<Event>)
    requires TimesDiffer(s)
    ensures |Latest(s)| == |Sources(s)|
  {
    LatestOnePerSource(s);
    OneOfEachSource(Latest(s));
    forall e | e in s ensures e.src in Sources(Latest(s)) { var f := LatestOf(s, e); }
    assert Sources(Latest(s)) == Sources(s);
  }

  /** A store of the newest events, after any insertions: n of the offered events, or all if
      there are fewer, and each of them more recent than each that is missing. */
  lemma HeldAreNewest(es: seq<Event>, n: nat)
    requires TimesDiffer(Elements(es))
    ensures var s, held := Elements(es), InsertAll({}, es, false, n);
      && held <= s && |held| == Min(n, |s|)
      && forall e, f :: e in held && f in s - held ==> f.created < e.created
  {
    var s := Elements(es);
    HeldIsReduction(es, false, n);
    NewestSize(s, n);
    forall e, f | e in Newest(s, n) && f in s - Newest(s, n) ensures f.created < e.created {
      NewestAreNewer(s, n, e, f);
    }
  }

  /** A store with unique sources: the most recent event of each of n sources, or of all if
      there are fewer, and each more recent than all events of the other sources. */
  lemma HeldAreLatest(es: seq<Event>, n: nat)
    requires TimesDiffer(Elements(es))
    ensures var s, held := Elements(es), InsertAll({}, es, true, n);
      && held <= s && |held| == Min(n, |Sources(s)|)
      && (forall e, f :: e in held && f in s && f.src == e.src && f != e ==> f.created < e.created)
      && (forall e, f :: e in held && f in s && f.src !in Sources(held) ==> f.created < e.created)
  {
    var s, held := Elements(es), InsertAll({}, es, true, n);
    HeldIsReduction(es, true, n);
    NewestSize(Latest(s), n);
    LatestSources(s);
    forall e, f | e in held && f in s && f.src !in Sources(held) ensures f.created < e.created {
      var g := LatestOf(s, f);
      assert g !in held;
      NewestAreNewer(Latest(s), n, e, g);
    }
  }
}
