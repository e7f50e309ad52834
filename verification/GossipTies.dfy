/** Which events a bounded store can end up with when events may have equal times, and
    exactly when the order of arrival does not matter (gossip_events/core.rs). */
module GossipTies {
  import opened Prelude
  import opened NodeIds
  import opened Gossip
  import opened GossipStore

  // -------------------------------------------------------------------- runs

  /** The store may hold h after the events were offered in this order; ties are broken
      in any way the store may. */
  ghost predicate Reaches(es: seq<Event>, h: set<Event>, unique: bool, n: nat)
    decreases |es|, 0
  {
    if es == [] then h == {} else Follows(es[..|es| - 1], es[|es| - 1], h, unique, n)
  }

  ghost predicate Follows(es: seq<Event>, x: Event, h: set<Event>, unique: bool, n: nat)
    decreases |es|, 1
  {
    exists g :: Reaches(es, g, unique, n) && Inserted(g, x, h, unique, n)
  }

  /** The store may hold h after exactly the events of s were offered, in some order, with
      any repeats. */
  ghost predicate Possible(s: set<Event>, h: set<Event>, unique: bool, n: nat) {
    exists es :: Elements(es) == s && Reaches(es, h, unique, n)
  }

  /** Replicas that were offered s always hold the same. */
  ghost predicate Converges(s: set<Event>, unique: bool, n: nat) {
    forall g, h :: Possible(s, g, unique, n) && Possible(s, h, unique, n) ==> g == h
  }

  /** What an object of the source does is such a run. */
  method OfferAll(events: Events, es: seq<Event>)
    requires events.Valid() && events.Held() == {}
    modifies events
    ensures events.Valid() && Reaches(es, events.Held(), events.unique, events.maxEvents)
  {
    for i := 0 to |es|
      invariant events.Valid() && Reaches(es[..i], events.Held(), events.unique, events.maxEvents)
    {
      assert es[..i + 1][..i] == es[..i];
      var _ := events.Insert(es[i]);
    }
    assert es[..|es|] == es;
  }

  /** One latest event of every source. */
  ghost predicate Selects(r: set<Event>, s: set<Event>) {
    r <= Latest(s) && OnePerSource(r) && forall e :: e in s ==> HasSource(r, e.src)
  }

  ghost predicate HasSource(r: set<Event>, src: Id) { exists f :: f in r && f.src == src }

  /** The events that compete for the n places. */
  ghost predicate Compete(r: set<Event>, s: set<Event>, unique: bool) {
    if unique then Selects(r, s) else r == s
  }

  // ------------------------------------------------------------ truncations

  lemma SubsetSize(a: set<Event>, b: set<Event>)
    requires a <= b
    ensures |a| <= |b| && (|a| == |b| ==> a == b)
  {
    SmallerSet(a, b);
    if |a| == |b| { SameSize(a, b); }
  }

  lemma {:induction false} TruncationExists(s: set<Event>, n: nat) returns (h: set<Event>)
    ensures Truncated(s, h, n)
    decreases |s|
  {
    h := s;
    if |s| > n {
      var m := OldestExists(s);
      h := TruncationExists(s - {m}, n);
    }
  }

  lemma TruncatedAll(s: set<Event>, h: set<Event>, n: nat)
    requires Truncated(s, h, n) && |s| <= n
    ensures h == s
  {
    SubsetSize(h, s);
  }

  /** A new competitor. */
  lemma TruncatedAdd(r: set<Event>, g: set<Event>, x: Event, h: set<Event>, n: nat)
    requires Truncated(r, g, n) && x !in g && Truncated(g + {x}, h, n)
    ensures Truncated(r + {x}, h, n)
  {
    SubsetSize(g, r);
    if x in r {
      ProperSet(g, r, x);
      assert r + {x} == r;
    }
    if x in h && |g| == n {
      var d := OneDropped(g, x, h, n);
      assert forall f :: f in r - g ==> d.created >= f.created;
    }
  }

  lemma OneDropped(g: set<Event>, x: Event, h: set<Event>, n: nat) returns (d: Event)
    requires |g| == n && x !in g && x in h && Truncated(g + {x}, h, n)
    ensures d in g && d !in h && x.created >= d.created
  {
    NotWithin(g + {x}, h);
    d :| d in g && d !in h;
  }

  lemma NotWithin(a: set<Event>, b: set<Event>)
    requires |a| > |b|
    ensures !(a <= b)
  {
    if a <= b { SmallerSet(a, b); }
  }

  /** A newer competitor in the place of a held one. */
  lemma TruncatedReplace(r: set<Event>, g: set<Event>, f: Event, x: Event, n: nat)
    requires Truncated(r, g, n) && f in g && x !in r && x.created >= f.created
    ensures Truncated(r - {f} + {x}, g - {f} + {x}, n)
  {
  }

  /** A newer competitor in the place of one that was pushed out. */
  lemma TruncatedInstead(r: set<Event>, g: set<Event>, q: Event, x: Event, h: set<Event>, n: nat)
    requires Truncated(r, g, n) && q in r - g && x !in r && x.created >= q.created
    requires Truncated(g + {x}, h, n)
    ensures Truncated(r - {q} + {x}, h, n)
  {
    ProperSet(g, r, q);
    if x in h {
      var d := OneDropped(g, x, h, n);
      assert forall f :: f in r - g ==> d.created >= f.created;
    }
  }

  /** An event older than one that was pushed out is not kept. */
  lemma OlderIsRefused(r: set<Event>, g: set<Event>, q: Event, x: Event, h: set<Event>, n: nat)
    requires Truncated(r, g, n) && q in r - g && x !in g && x.created < q.created
    requires Truncated(g + {x}, h, n)
    ensures h == g
  {
    ProperSet(g, r, q);
    if x in h { var d := OneDropped(g, x, h, n); }
    SubsetSize(h, g);
  }

  // ------------------------------------------------- what one insertion keeps

  lemma SelectsOlder(r: set<Event>, p: set<Event>, q: Event, x: Event)
    requires Selects(r, p) && q in r && q.src == x.src && x.created < q.created
    ensures Selects(r, p + {x})
  {
    assert HasSource(r, x.src);
  }

  lemma SelectsNewer(r: set<Event>, p: set<Event>, q: Event, x: Event)
    requires Selects(r, p) && q in r && q.src == x.src && x.created >= q.created
    ensures Selects(r - {q} + {x}, p + {x})
  {
    var t := r - {q} + {x};
    forall e | e in p + {x} ensures HasSource(t, e.src) {
      if e.src == x.src {
        assert x in t;
      } else {
        var f :| f in r && f.src == e.src;
        assert f in t;
      }
    }
  }

  lemma SelectsFirst(r: set<Event>, p: set<Event>, x: Event)
    requires Selects(r, p) && !HasSource(r, x.src)
    ensures Selects(r + {x}, p + {x})
  {
    forall e | e in p + {x} ensures HasSource(r + {x}, e.src) {
      if e == x {
        assert x in r + {x};
      } else {
        var f :| f in r && f.src == e.src;
        assert f in r + {x};
      }
    }
    assert forall e :: e in p ==> e.src != x.src;
  }

  lemma StepPlain(p: set<Event>, g: set<Event>, x: Event, h: set<Event>, n: nat)
    requires Truncated(p, g, n) && Inserted(g, x, h, false, n)
    ensures Truncated(p + {x}, h, n)
  {
    if x in g { assert p + {x} == p; } else { TruncatedAdd(p, g, x, h, n); }
  }

  lemma StepHeld(p: set<Event>, r: set<Event>, g: set<Event>, x: Event, f: Event, h: set<Event>, n: nat)
    returns (t: set<Event>)
    requires Selects(r, p) && Truncated(r, g, n) && x !in g && f in g && f.src == x.src
    requires if f.created > x.created then h == g else Truncated(g - {f} + {x}, h, n)
    ensures Selects(t, p + {x}) && Truncated(t, h, n)
  {
    if f.created > x.created {
      t := r;
      SelectsOlder(r, p, f, x);
    } else {
      t := r - {f} + {x};
      SelectsNewer(r, p, f, x);
      TruncatedReplace(r, g, f, x, n);
      TruncatedAll(g - {f} + {x}, h, n);
    }
  }

  lemma StepNewer(r: set<Event>, g: set<Event>, x: Event, q: Event, h: set<Event>, n: nat)
    requires (x == q || x !in r) && Truncated(r, g, n) && x !in g && q in r - g
    requires Truncated(g + {x}, h, n) && x.created >= q.created
    ensures Truncated(r - {q} + {x}, h, n)
  {
    if x == q {
      TruncatedAdd(r, g, x, h, n);
      assert r + {x} == r - {q} + {x};
    } else {
      TruncatedInstead(r, g, q, x, h, n);
    }
  }

  lemma StepPushedOut(
      p: set<Event>, r: set<Event>, g: set<Event>, x: Event, q: Event, h: set<Event>, n: nat)
    returns (t: set<Event>)
    requires Selects(r, p) && Truncated(r, g, n) && x !in g && q in r - g && q.src == x.src
    requires Truncated(g + {x}, h, n)
    ensures Selects(t, p + {x}) && Truncated(t, h, n)
  {
    if x.created < q.created {
      t := r;
      OlderIsRefused(r, g, q, x, h, n);
      SelectsOlder(r, p, q, x);
    } else {
      t := r - {q} + {x};
      StepNewer(r, g, x, q, h, n);
      SelectsNewer(r, p, q, x);
    }
  }

  lemma StepNotHeld(p: set<Event>, r: set<Event>, g: set<Event>, x: Event, h: set<Event>, n: nat)
    returns (t: set<Event>)
    requires Selects(r, p) && Truncated(r, g, n) && !HasSource(g, x.src) && Truncated(g + {x}, h, n)
    ensures Selects(t, p + {x}) && Truncated(t, h, n)
  {
    assert x !in g;
    if HasSource(r, x.src) {
      var q :| q in r && q.src == x.src;
      t := StepPushedOut(p, r, g, x, q, h, n);
    } else {
      t := r + {x};
      SelectsFirst(r, p, x);
      TruncatedAdd(r, g, x, h, n);
    }
  }

  lemma StepKeeps(p: set<Event>, r: set<Event>, g: set<Event>, x: Event, h: set<Event>, unique: bool, n: nat)
    returns (t: set<Event>)
    requires Compete(r, p, unique) && Truncated(r, g, n) && Inserted(g, x, h, unique, n)
    ensures Compete(t, p + {x}, unique) && Truncated(t, h, n)
  {
    if !unique {
      t := p + {x};
      StepPlain(p, g, x, h, n);
    } else if x in g {
      t := r;
      assert p + {x} == p;
    } else if HasSource(g, x.src) {
      var f :| f in g && f.src == x.src
        && if f.created > x.created then h == g else Truncated(g - {f} + {x}, h, n);
      t := StepHeld(p, r, g, x, f, h, n);
    } else {
      t := StepNotHeld(p, r, g, x, h, n);
    }
  }

  /** Whatever the run, the store holds the newest of one latest event of every source. */
  lemma {:induction false} RunKeeps(es: seq<Event>, h: set<Event>, unique: bool, n: nat) returns (r: set<Event>)
    requires Reaches(es, h, unique, n)
    ensures Compete(r, Elements(es), unique) && Truncated(r, h, n)
  {
    if es == [] {
      r := {};
    } else {
      var front, last := es[..|es| - 1], es[|es| - 1];
      var g := Before(front, last, h, unique, n);
      var q := RunKeeps(front, g, unique, n);
      r := StepKeeps(Elements(front), q, g, last, h, unique, n);
      LastElement(es);
    }
  }

  lemma Before(es: seq<Event>, x: Event, h: set<Event>, unique: bool, n: nat) returns (g: set<Event>)
    requires Follows(es, x, h, unique, n)
    ensures Reaches(es, g, unique, n) && Inserted(g, x, h, unique, n)
  {
    g :| Reaches(es, g, unique, n) && Inserted(g, x, h, unique, n);
  }

  lemma LastElement(es: seq<Event>)
    requires es != []
    ensures Elements(es) == Elements(es[..|es| - 1]) + {es[|es| - 1]}
  {
    assert es == es[..|es| - 1] + [es[|es| - 1]];
  }

  // ---------------------------------------------------- every such store is reached

  ghost predicate Sound(g: set<Event>, unique: bool, n: nat) { |g| <= n && (unique ==> OnePerSource(g)) }

  lemma ReplacedExists(g: set<Event>, x: Event, f: Event, n: nat) returns (h: set<Event>)
    requires Sound(g, true, n) && x !in g && f in g && f.src == x.src
    ensures Inserted(g, x, h, true, n) && Sound(h, true, n) && h <= g + {x}
  {
    if f.created > x.created {
      h := g;
    } else {
      h := g - {f} + {x};
      SizeOfSwap(g, f, x);
      assert Truncated(g - {f} + {x}, h, n);
    }
  }

  lemma InsertedExists(g: set<Event>, x: Event, unique: bool, n: nat) returns (h: set<Event>)
    requires Sound(g, unique, n)
    ensures Inserted(g, x, h, unique, n) && Sound(h, unique, n) && h <= g + {x}
  {
    if x in g {
      h := g;
    } else if f :| unique && f in g && f.src == x.src {
      h := ReplacedExists(g, x, f, n);
    } else {
      h := TruncationExists(g + {x}, n);
    }
  }

  lemma {:induction false} RunExists(es: seq<Event>, unique: bool, n: nat) returns (g: set<Event>)
    ensures Reaches(es, g, unique, n) && Sound(g, unique, n) && g <= Elements(es)
  {
    g := {};
    if es != [] {
      g := RunExists(es[..|es| - 1], unique, n);
      g := InsertedExists(g, es[|es| - 1], unique, n);
      assert es == es[..|es| - 1] + [es[|es| - 1]];
    }
  }

  lemma {:induction false} Listing(s: set<Event>) returns (es: seq<Event>)
    ensures Elements(es) == s
    decreases |s|
  {
    es := [];
    if e :| e in s {
      var rest := Listing(s - {e});
      es := rest + [e];
      assert Elements(es) == Elements(rest) + {e};
    }
  }

  /** What is held beyond the goal is of a source of the goal, or not newer than all of it. */
  ghost predicate Yields(g: set<Event>, h: set<Event>, unique: bool) {
    forall x :: x in g - h ==>
      if unique && HasSource(h, x.src) then forall e :: e in h && e.src == x.src ==> e.created >= x.created
      else forall e :: e in h ==> e.created >= x.created
  }

  lemma StepReplace(g: set<Event>, h: set<Event>, e: Event, f: Event, n: nat) returns (k: set<Event>)
    requires Sound(g, true, n) && Sound(h, true, n) && Yields(g, h, true)
    requires e in h - g && f in g && f.src == e.src
    ensures Inserted(g, e, k, true, n) && Sound(k, true, n) && k <= g + {e} && h - k == h - g - {e}
  {
    k := g - {f} + {e};
    assert f !in h && HasSource(h, f.src);
    SizeOfSwap(g, f, e);
    assert Truncated(k, k, n);
  }

  lemma StepAdd(g: set<Event>, h: set<Event>, x: Event, unique: bool, n: nat) returns (k: set<Event>)
    requires Sound(g, unique, n) && Sound(h, unique, n) && Yields(g, h, unique) && x in h - g
    requires unique ==> forall e :: e in h - g ==> !HasSource(g, e.src)
    ensures Inserted(g, x, k, unique, n) && Sound(k, unique, n) && k <= g + {x} && h - k == h - g - {x}
  {
    assert unique ==> !HasSource(g, x.src);
    if |g| < n {
      k := g + {x};
      assert Truncated(g + {x}, k, n);
    } else {
      var c := OldestBeyond(g, h, x, n);
      k := g + {x} - {c};
      NoSharedSource(g, h, c, unique);
      assert Truncated(g + {x}, k, n);
    }
  }

  /** A store that is not yet the goal can take an event of the goal without losing one. */
  lemma StepTowards(g: set<Event>, h: set<Event>, unique: bool, n: nat) returns (x: Event, k: set<Event>)
    requires Sound(g, unique, n) && Sound(h, unique, n) && Yields(g, h, unique) && h - g != {}
    ensures x in h - g && Inserted(g, x, k, unique, n)
    ensures Sound(k, unique, n) && k <= g + {x} && h - k == h - g - {x}
  {
    if e :| unique && e in h - g && HasSource(g, e.src) {
      var f :| f in g && f.src == e.src;
      x := e;
      k := StepReplace(g, h, e, f, n);
    } else {
      x :| x in h - g;
      k := StepAdd(g, h, x, unique, n);
    }
  }

  lemma YieldsOn(g: set<Event>, h: set<Event>, x: Event, k: set<Event>, unique: bool)
    requires Yields(g, h, unique) && x in h && k <= g + {x}
    ensures Yields(k, h, unique)
  {
  }

  lemma SizeOfSwap(g: set<Event>, f: Event, e: Event)
    requires f in g && e !in g
    ensures |g - {f} + {e}| == |g|
  {
  }

  lemma OldestBeyond(g: set<Event>, h: set<Event>, x: Event, n: nat) returns (c: Event)
    requires |g| == n >= |h| && x in h - g
    ensures c in g - h && forall f :: f in g - h ==> c.created <= f.created
  {
    BeyondExists(g, h, x);
    c := OldestExists(g - h);
  }

  lemma BeyondExists(g: set<Event>, h: set<Event>, x: Event)
    requires |g| >= |h| && x in h - g
    ensures g - h != {}
  {
    if g <= h {
      ProperSet(g, h, x);
    } else {
      var e :| e in g && e !in h;
      assert e in g - h;
    }
  }

  lemma NoSharedSource(g: set<Event>, h: set<Event>, c: Event, unique: bool)
    requires c in g - h && (unique ==> OnePerSource(g))
    requires unique ==> forall e :: e in h - g ==> !HasSource(g, e.src)
    ensures !(unique && HasSource(h, c.src))
  {
    forall e | e in h && e.src == c.src ensures !unique { assert HasSource(g, e.src); }
  }

  lemma ReachesOn(es: seq<Event>, g: set<Event>, x: Event, k: set<Event>, unique: bool, n: nat)
    requires Reaches(es, g, unique, n) && Inserted(g, x, k, unique, n)
    ensures Reaches(es + [x], k, unique, n)
  {
    assert (es + [x])[..|es|] == es;
  }

  lemma {:induction false} RunTowards(es: seq<Event>, g: set<Event>, h: set<Event>, unique: bool, n: nat)
    returns (more: seq<Event>, k: set<Event>)
    requires Reaches(es, g, unique, n) && Sound(g, unique, n) && Sound(h, unique, n) && Yields(g, h, unique)
    ensures Elements(more) == h - g && Reaches(es + more, k, unique, n)
    ensures h <= k <= g + h && Sound(k, unique, n)
    decreases |h - g|
  {
    if h <= g {
      more, k := [], g;
      assert es + [] == es;
    } else {
      SomeMissing(g, h);
      var x, g2 := StepTowards(g, h, unique, n);
      ReachesOn(es, g, x, g2, unique, n);
      YieldsOn(g, h, x, g2, unique);
      var rest;
      rest, k := RunTowards(es + [x], g2, h, unique, n);
      more := [x] + rest;
      assert es + [x] + rest == es + more;
      MoreOf(g, h, x, g2, k, rest);
    }
  }

  lemma SomeMissing(g: set<Event>, h: set<Event>)
    requires !(h <= g)
    ensures h - g != {}
  {
    var e :| e in h && e !in g;
    assert e in h - g;
  }

  lemma MoreOf(g: set<Event>, h: set<Event>, x: Event, g2: set<Event>, k: set<Event>, rest: seq<Event>)
    requires x in h - g && g2 <= g + {x} && h - g2 == h - g - {x} && Elements(rest) == h - g2 && k <= g2 + h
    ensures Elements([x] + rest) == h - g && k <= g + h
  {
    assert Elements([x] + rest) == {x} + Elements(rest);
  }

  /** Nothing is left beside the goal. */
  lemma GoalIsAll(s: set<Event>, r: set<Event>, h: set<Event>, k: set<Event>, unique: bool, n: nat)
    requires Compete(r, s, unique) && Truncated(r, h, n) && h <= k <= s && Sound(k, unique, n)
    ensures k == h
  {
    if |h| == n {
      SubsetSize(h, k);
    } else {
      SubsetSize(h, r);
      forall x | x in k ensures x in h { assert unique ==> HasSource(r, x.src); }
    }
  }

  lemma TruncationYields(s: set<Event>, r: set<Event>, h: set<Event>, g: set<Event>, unique: bool, n: nat)
    requires Compete(r, s, unique) && Truncated(r, h, n) && g <= s
    ensures Yields(g, h, unique)
  {
    forall x, e | x in g - h && e in h && (e.src == x.src || !unique || !HasSource(h, x.src))
      ensures e.created >= x.created
    {
      if unique && e.src != x.src {
        assert HasSource(r, x.src);
        var q :| q in r && q.src == x.src;
        assert q.created >= x.created && q !in h;
      }
    }
  }

  lemma TruncationIsReached(s: set<Event>, r: set<Event>, h: set<Event>, unique: bool, n: nat)
    requires Compete(r, s, unique) && Truncated(r, h, n)
    ensures Possible(s, h, unique, n)
  {
    var es := Listing(s - h);
    var g := RunExists(es, unique, n);
    TruncationYields(s, r, h, g, unique, n);
    var more, k := RunTowards(es, g, h, unique, n);
    GoalIsAll(s, r, h, k, unique, n);
    assert h - g == h;
    forall e ensures e in es + more <==> e in s {
      assert (e in es <==> e in Elements(es)) && (e in more <==> e in Elements(more));
    }
    assert Elements(es + more) == s;
  }

  /** Exactly what a store can hold after s was offered: of one latest event of every
      source, or of all events, some n newest. */
  lemma PossibleIff(s: set<Event>, h: set<Event>, unique: bool, n: nat)
    ensures Possible(s, h, unique, n) <==> exists r :: Compete(r, s, unique) && Truncated(r, h, n)
  {
    if Possible(s, h, unique, n) {
      var es :| Elements(es) == s && Reaches(es, h, unique, n);
      var r := RunKeeps(es, h, unique, n);
    }
    if r :| Compete(r, s, unique) && Truncated(r, h, n) {
      TruncationIsReached(s, r, h, unique, n);
    }
  }

  // ---------------------------------------------------------- convergence

  /** The latest events of sources with fewer than n sources that are newer. */
  ghost function Top(s: set<Event>, n: nat): set<Event> {
    set e | e in Latest(s) && |NewerSources(s, e)| < n
  }

  ghost function Sources(s: set<Event>): set<Id> { set f | f in s :: f.src }

  ghost function NewerSources(s: set<Event>, e: Event): set<Id> { Sources(Newer(Latest(s), e)) }

  /** No tie across the boundary; and no tie within a source that gets a place. */
  ghost predicate Settled(s: set<Event>, unique: bool, n: nat) {
    if unique then OnePerSource(Top(s, n)) && |Top(s, n)| <= n else |Newest(s, n)| <= n
  }

  lemma TruncationIsNewest(r: set<Event>, h: set<Event>, n: nat)
    requires Truncated(r, h, n)
    ensures h <= Newest(r, n)
    ensures |Newest(r, n)| <= n ==> h == Newest(r, n)
  {
    forall e | e in h ensures |Newer(r, e)| < n {
      assert Newer(r, e) <= h;
      ProperSet(Newer(r, e), h, e);
    }
    SmallerSet(Newest(r, n), r);
    if |Newest(r, n)| <= n { SubsetSize(h, Newest(r, n)); }
  }

  /** Every one of the newest is in some truncation. */
  lemma TruncationWith(r: set<Event>, e: Event, n: nat) returns (h: set<Event>)
    requires e in Newest(r, n)
    ensures Truncated(r, h, n) && e in h
  {
    h := TruncationExists(r, n);
    if e !in h { h := Swapped(r, h, e, n); }
  }

  lemma Swapped(r: set<Event>, h: set<Event>, x: Event, n: nat) returns (k: set<Event>)
    requires Truncated(r, h, n) && x in Newest(r, n) && x !in h
    ensures Truncated(r, k, n) && x in k
  {
    ProperSet(h, r, x);
    NotWithin(h, Newer(r, x));
    var y :| y in h && y.created <= x.created;
    k := h - {y} + {x};
    SizeOfSwap(h, y, x);
  }

  lemma {:induction false} SourcesSize(r: set<Event>)
    requires OnePerSource(r)
    ensures |Sources(r)| == |r|
    decreases |r|
  {
    if e :| e in r {
      SourcesSize(r - {e});
      assert Sources(r) == Sources(r - {e}) + {e.src};
    }
  }

  lemma SelectionTimes(r: set<Event>, s: set<Event>, e: Event)
    requires Selects(r, s)
    ensures |Newer(r, e)| == |NewerSources(s, e)|
  {
    var a, b := Newer(r, e), Newer(Latest(s), e);
    forall id ensures id in Sources(a) <==> id in Sources(b) {
      if id in Sources(b) {
        var f :| f in b && f.src == id;
        assert HasSource(r, f.src);
        var q :| q in r && q.src == f.src;
        assert q.created == f.created && q in a;
      }
    }
    assert Sources(a) == Sources(b);
    SourcesSize(a);
  }

  lemma NewestOfSelection(r: set<Event>, s: set<Event>, n: nat)
    requires Selects(r, s)
    ensures Newest(r, n) == r * Top(s, n)
    ensures forall e :: e in Top(s, n) ==> HasSource(Newest(r, n), e.src)
  {
    forall e | e in r ensures e in Newest(r, n) <==> e in Top(s, n) { SelectionTimes(r, s, e); }
    forall e | e in Top(s, n) ensures HasSource(Newest(r, n), e.src) {
      assert HasSource(r, e.src);
      var q :| q in r && q.src == e.src;
      assert Newer(Latest(s), q) == Newer(Latest(s), e);
      assert q in Newest(r, n);
    }
  }

  lemma SettledTop(r: set<Event>, s: set<Event>, n: nat)
    requires Selects(r, s) && OnePerSource(Top(s, n))
    ensures Newest(r, n) == Top(s, n)
  {
    NewestOfSelection(r, s, n);
    forall e | e in Top(s, n) ensures e in Newest(r, n) {
      var q :| q in Newest(r, n) && q.src == e.src;
    }
  }

  /** What every replica holds if the condition is met. */
  lemma SettledHolds(s: set<Event>, h: set<Event>, unique: bool, n: nat)
    requires Settled(s, unique, n) && Possible(s, h, unique, n)
    ensures h == if unique then Top(s, n) else Newest(s, n)
  {
    PossibleIff(s, h, unique, n);
    var r :| Compete(r, s, unique) && Truncated(r, h, n);
    TruncationIsNewest(r, h, n);
    if unique { SettledTop(r, s, n); }
  }

  lemma {:induction false} SelectionExists(s: set<Event>) returns (r: set<Event>)
    ensures Selects(r, s)
    decreases |s|
  {
    r := {};
    if e :| e in s {
      r := SelectionExists(s - {e});
      assert s - {e} + {e} == s;
      if q :| q in r && q.src == e.src {
        if e.created < q.created {
          SelectsOlder(r, s - {e}, q, e);
        } else {
          SelectsNewer(r, s - {e}, q, e);
          r := r - {q} + {e};
        }
      } else {
        SelectsFirst(r, s - {e}, e);
        r := r + {e};
      }
    }
  }

  /** A tie across the boundary: two truncations. */
  lemma TieAtBoundary(r: set<Event>, n: nat) returns (g: set<Event>, h: set<Event>)
    requires |Newest(r, n)| > n
    ensures Truncated(r, g, n) && Truncated(r, h, n) && g != h
  {
    g := TruncationExists(r, n);
    TruncationIsNewest(r, g, n);
    NotWithin(Newest(r, n), g);
    var x :| x in Newest(r, n) && x !in g;
    h := Swapped(r, g, x, n);
  }

  /** A tie within a source that gets a place: two selections. */
  lemma TieInSource(s: set<Event>, e: Event, f: Event, n: nat) returns (g: set<Event>, h: set<Event>)
    requires e in Top(s, n) && f in Top(s, n) && e.src == f.src && e != f
    ensures Possible(s, g, true, n) && Possible(s, h, true, n) && g != h
  {
    var r := SelectionExists(s);
    assert HasSource(r, e.src);
    var q :| q in r && q.src == e.src;
    g := WithChosen(s, r, q, e, n);
    h := WithChosen(s, r, q, f, n);
  }

  lemma WithChosen(s: set<Event>, r: set<Event>, q: Event, e: Event, n: nat) returns (h: set<Event>)
    requires Selects(r, s) && q in r && q.src == e.src && e in Top(s, n)
    ensures Possible(s, h, true, n) && e in h && OnePerSource(h)
  {
    var t := r - {q} + {e};
    SelectsNewer(r, s, q, e);
    assert s + {e} == s;
    NewestOfSelection(t, s, n);
    h := TruncationWith(t, e, n);
    TruncationIsReached(s, t, h, true, n);
  }

  lemma UnsettledDiverges(s: set<Event>, unique: bool, n: nat) returns (g: set<Event>, h: set<Event>)
    requires !Settled(s, unique, n)
    ensures Possible(s, g, unique, n) && Possible(s, h, unique, n) && g != h
  {
    if unique && !OnePerSource(Top(s, n)) {
      var e, f :| e in Top(s, n) && f in Top(s, n) && e.src == f.src && e != f;
      g, h := TieInSource(s, e, f, n);
    } else {
      var r := s;
      if unique {
        r := SelectionExists(s);
        SettledTop(r, s, n);
      }
      g, h := TieAtBoundary(r, n);
      TruncationIsReached(s, r, g, unique, n);
      TruncationIsReached(s, r, h, unique, n);
    }
  }

  /** Replicas that were offered the same events hold the same, whatever the order, if and
      only if no tie crosses the boundary and, with unique sources, no source among the
      newest n has two latest events. */
  lemma ConvergesIff(s: set<Event>, unique: bool, n: nat)
    ensures Converges(s, unique, n) <==> Settled(s, unique, n)
  {
    if Settled(s, unique, n) {
      forall g, h | Possible(s, g, unique, n) && Possible(s, h, unique, n) ensures g == h {
        SettledHolds(s, g, unique, n);
        SettledHolds(s, h, unique, n);
      }
    } else {
      var g, h := UnsettledDiverges(s, unique, n);
    }
  }

  lemma LatestSelects(s: set<Event>)
    requires TimesDiffer(s)
    ensures Selects(Latest(s), s)
  {
    LatestOnePerSource(s);
    forall e | e in s ensures HasSource(Latest(s), e.src) { var f := LatestOf(s, e); }
  }

  lemma DifferentTimesNewest(s: set<Event>, n: nat)
    requires TimesDiffer(s)
    ensures |Newest(s, n)| <= n
  {
    var h := TruncationExists(s, n);
    TruncatedIsNewest(s, h, n);
  }

  /** Different times are enough. */
  lemma DifferentTimesSettle(s: set<Event>, unique: bool, n: nat)
    requires TimesDiffer(s)
    ensures Settled(s, unique, n)
    ensures unique ==> Top(s, n) == Reduce(s, true, n)
  {
    if unique {
      LatestSelects(s);
      NewestOfSelection(Latest(s), s, n);
      assert Top(s, n) == Newest(Latest(s), n);
      DifferentTimesNewest(Latest(s), n);
    } else {
      DifferentTimesNewest(s, n);
    }
  }

  /** Two events of one source and one time: the last one offered stays, so two replicas
      differ for good, whatever the limit of the store. */
  lemma EqualTimesDiverge(e: Event, f: Event, g: set<Event>, h: set<Event>, n: nat)
    requires e != f && e.src == f.src && e.created == f.created && n >= 1
    requires Inserted({}, e, g, true, n) && Inserted(g, f, h, true, n)
    ensures h == {f} && !Converges({e, f}, true, n)
  {
    TruncatedAll({} + {e}, g, n);
    assert g == {e} && {e} - {e} + {f} == {f};
    TruncatedAll({f}, h, n);
    var s := {e, f};
    assert e in Latest(s) && f in Latest(s);
    assert Newer(Latest(s), e) == {} && Newer(Latest(s), f) == {};
    assert NewerSources(s, e) == {} && NewerSources(s, f) == {};
    assert e in Top(s, n) && f in Top(s, n);
    ConvergesIff(s, true, n);
  }

  // ------------------------------------------------- the answer of an insertion

  /** The held events that stay beside a new one before the store is cut to its limit. */
  ghost function Rest(held: set<Event>, e: Event, unique: bool): set<Event> {
    set f | f in held && !(unique && f.src == e.src)
  }

  ghost function NotOlder(s: set<Event>, e: Event): set<Event> { set f | f in s && f.created >= e.created }

  /** The answer is true: what the store may hold. */
  lemma InsertedRest(held: set<Event>, e: Event, h: set<Event>, unique: bool, n: nat)
    requires (unique ==> OnePerSource(held)) && !Known(held, e, unique)
    ensures Inserted(held, e, h, unique, n) <==> Truncated(Rest(held, e, unique) + {e}, h, n)
  {
    if f :| unique && f in held && f.src == e.src {
      assert Rest(held, e, true) == held - {f};
    } else {
      assert Rest(held, e, unique) == held;
    }
  }

  lemma KeptIfFew(r: set<Event>, e: Event, h: set<Event>, n: nat)
    requires e !in r && Truncated(r + {e}, h, n) && e !in h
    ensures |NotOlder(r, e)| >= n
  {
    assert h <= NotOlder(r, e);
    SmallerSet(h, NotOlder(r, e));
    ProperSet(h, r + {e}, e);
  }

  lemma DroppedIfMany(r: set<Event>, e: Event, n: nat) returns (h: set<Event>)
    requires e !in r && |NotOlder(r, e)| >= n
    ensures Truncated(r + {e}, h, n) && e !in h
  {
    h := TruncationExists(NotOlder(r, e), n);
    SmallerSet(NotOlder(r, e), r + {e});
  }

  /** An event whose insertion is answered with true is held for sure exactly if fewer than
      n of the others are at least as recent, and can be held exactly if fewer than n held
      ones are newer. Otherwise it is dropped at once. */
  lemma AnsweredIsHeld(held: set<Event>, e: Event, unique: bool, n: nat)
    requires (unique ==> OnePerSource(held)) && !Known(held, e, unique)
    ensures (forall h :: Inserted(held, e, h, unique, n) ==> e in h)
      <==> |NotOlder(Rest(held, e, unique), e)| < n
    ensures (exists h :: Inserted(held, e, h, unique, n) && e in h) <==> |Newer(held, e)| < n
  {
    var r := Rest(held, e, unique);
    forall h ensures Inserted(held, e, h, unique, n) <==> Truncated(r + {e}, h, n) {
      InsertedRest(held, e, h, unique, n);
    }
    SurelyHeld(r, e, n);
    assert Newer(held, e) == Newer(r + {e}, e);
    PerhapsHeld(r + {e}, e, n);
  }

  lemma SurelyHeld(r: set<Event>, e: Event, n: nat)
    requires e !in r
    ensures (forall h :: Truncated(r + {e}, h, n) ==> e in h) <==> |NotOlder(r, e)| < n
  {
    if |NotOlder(r, e)| >= n {
      var h := DroppedIfMany(r, e, n);
    } else {
      forall h | Truncated(r + {e}, h, n) ensures e in h {
        if e !in h { KeptIfFew(r, e, h, n); }
      }
    }
  }

  lemma PerhapsHeld(r: set<Event>, e: Event, n: nat)
    requires e in r
    ensures (exists h :: Truncated(r, h, n) && e in h) <==> |Newer(r, e)| < n
  {
    if |Newer(r, e)| < n { var h := TruncationWith(r, e, n); }
    if h :| Truncated(r, h, n) && e in h { TruncationIsNewest(r, h, n); }
  }

  /** With different times there is one outcome: the event is held exactly if fewer than n
      held ones are newer. */
  lemma AnsweredIsHeldIff(held: set<Event>, e: Event, unique: bool, n: nat)
    requires (unique ==> OnePerSource(held)) && !Known(held, e, unique) && TimesDiffer(held + {e})
    ensures e in Insert(held, e, unique, n) <==> |Newer(held, e)| < n
  {
    var r := Rest(held, e, unique);
    assert Newer(held, e) == Newer(r + {e}, e);
    if f :| unique && f in held && f.src == e.src {
      assert r == held - {f};
      InsertIs(held, e, f, n);
    } else {
      assert r == held;
    }
  }

  ghost function Recent(src: Id, n: nat): set<Event> {
    if n == 0 then {} else Recent(src, n - 1) + {Event(TextMessage, src, n, "")}
  }

  lemma {:induction false} RecentIs(src: Id, n: nat)
    ensures |Recent(src, n)| == n && forall e :: e in Recent(src, n) ==> 1 <= e.created <= n
  {
    if n > 0 { RecentIs(src, n - 1); }
  }

  /** A full store of texts: an older one is answered with true and never held. */
  lemma DroppedAtOnce(src: Id, n: nat)
    ensures var held, e := Recent(src, n), Event(TextMessage, src, 0, "");
      && !Known(held, e, false) && Possible(held, held, false, n)
      && forall h :: Inserted(held, e, h, false, n) ==> h == held
  {
    var held, e := Recent(src, n), Event(TextMessage, src, 0, "");
    RecentIs(src, n);
    PossibleIff(held, held, false, n);
    assert Truncated(held, held, n);
    assert Newer(held, e) == held;
    AnsweredIsHeld(held, e, false, n);
    forall h | Inserted(held, e, h, false, n) ensures h == held {
      assert h <= held;
      SubsetSize(h, held);
    }
  }
}
