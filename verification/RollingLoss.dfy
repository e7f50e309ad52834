/** What rolling time buckets lose when samples come in any order
    (metrics-exporter-influx/src/distribution.rs). */
module RollingLoss {
  import opened Rolling

  // ------------------------------------------------------------ one sample

  /** A sample that needs a new bucket finds as many valid ones as there may be. */
  predicate Crowded<T>(c: Config, buckets: seq<Bucket<T>>, now: nat) {
    FindBucket(c, buckets, now).None? && |Retained(c, buckets, now)| == c.maxBuckets
  }

  /** A bucket that is valid at the time of the sample is gone afterwards. */
  ghost predicate Loses<T(!new)>(c: Config, buckets: seq<Bucket<T>>, value: T, now: nat)
    requires c.Ok()
  {
    exists x :: x in buckets && c.Live(x.begin, now) && Gone(Add(c, buckets, value, now), x)
  }

  ghost predicate Gone<T(!new)>(after: seq<Bucket<T>>, x: Bucket<T>) {
    forall y :: y in after ==> y.begin != x.begin
  }

  /** The start under which add files a sample. */
  function FiledAt<T>(c: Config, buckets: seq<Bucket<T>>, now: nat): int
    requires c.duration > 0
  {
    var found := FindBucket(c, buckets, now);
    if found.Some? then buckets[found.value].begin else NewStart(c, Retained(c, buckets, now), now)
  }

  function NewStart<T>(c: Config, kept: seq<Bucket<T>>, now: nat): int
    requires c.duration > 0
  {
    if kept == [] then now
    else if now > kept[0].begin then UpFrom(c.duration, kept[0].begin, now)
    else DownFrom(c.duration, kept[0].begin, now)
  }

  /** A new bucket starts where no kept one does. */
  lemma NewStartIsFresh<T>(c: Config, kept: seq<Bucket<T>>, now: nat)
    requires c.Ok() && Ordered(c, kept)
    requires forall i :: 0 <= i < |kept| ==> !(kept[i].begin <= now < kept[i].begin + c.duration)
    ensures OnGrid(c, kept, NewStart(c, kept, now))
  {
    if kept != [] {
      var d, ref := c.duration, kept[0].begin;
      AlignedSelf(d, ref);
      if now > ref { UpAligned(d, ref, ref, now); } else { DownAligned(d, ref, ref, now); }
      GridOf(c, kept, NewStart(c, kept, now), now);
    }
  }

  lemma NewBucketMembers<T>(c: Config, kept: seq<Bucket<T>>, value: T, now: nat, x: Bucket<T>)
    requires c.Ok()
    ensures x in NewBucket(c, kept, value, now) <==>
      x in Truncate(kept, c.maxBuckets - 1) || x == Bucket(NewStart(c, kept, now), multiset{value})
  {
    if kept != [] && now <= kept[0].begin {
      InsertMembers(Truncate(kept, c.maxBuckets - 1), Bucket(NewStart(c, kept, now), multiset{value}), x);
    }
  }

  lemma KeptFacts<T>(c: Config, buckets: seq<Bucket<T>>, now: nat)
    requires Inv(c, buckets) && FindBucket(c, buckets, now).None?
    ensures var kept := Retained(c, buckets, now);
      Inv(c, kept) && OnGrid(c, kept, NewStart(c, kept, now))
  {
    var kept := Retained(c, buckets, now);
    RetainedFrom(c, buckets, now);
    PrefixOrdered(c, buckets, kept);
    forall i | 0 <= i < |kept| ensures !(kept[i].begin <= now < kept[i].begin + c.duration) {
      NotFound(c, buckets, now, i);
    }
    NewStartIsFresh(c, kept, now);
  }

  /** Whatever the order, a sample ends up in a bucket that spans its instant. */
  lemma SampleIsFiled<T>(c: Config, buckets: seq<Bucket<T>>, value: T, now: nat) returns (b: Bucket<T>)
    requires Inv(c, buckets)
    ensures b in Add(c, buckets, value, now) && value in b.summary && b.begin <= now < b.begin + c.duration
  {
    var found := FindBucket(c, buckets, now);
    if found.Some? {
      b := Add(c, buckets, value, now)[found.value];
    } else {
      var kept := Retained(c, buckets, now);
      b := Bucket(NewStart(c, kept, now), multiset{value});
      NewBucketMembers(c, kept, value, now, b);
    }
  }

  lemma CrowdedLoses<T(!new)>(c: Config, buckets: seq<Bucket<T>>, value: T, now: nat)
    requires Inv(c, buckets) && Crowded(c, buckets, now)
    ensures Loses(c, buckets, value, now)
  {
    var kept := Retained(c, buckets, now);
    RetainedFrom(c, buckets, now);
    KeptFacts(c, buckets, now);
    var oldest := kept[|kept| - 1];
    assert buckets[|kept| - 1] == oldest;
    forall y | y in NewBucket(c, kept, value, now) ensures y.begin != oldest.begin {
      NewBucketMembers(c, kept, value, now, y);
    }
    assert Gone(Add(c, buckets, value, now), oldest);
  }

  lemma RoomKeeps<T(!new)>(c: Config, buckets: seq<Bucket<T>>, value: T, now: nat)
    requires Inv(c, buckets) && !Crowded(c, buckets, now)
    ensures !Loses(c, buckets, value, now)
  {
    var after := Add(c, buckets, value, now);
    forall x | x in buckets && c.Live(x.begin, now) ensures !Gone(after, x) {
      var i :| 0 <= i < |buckets| && buckets[i] == x;
      if FindBucket(c, buckets, now).Some? {
        assert after[i].begin == x.begin && after[i] in after;
      } else {
        var kept := Retained(c, buckets, now);
        RetainedFrom(c, buckets, now);
        assert Truncate(kept, c.maxBuckets - 1) == kept && kept[i] == x;
        NewBucketMembers(c, kept, value, now, x);
      }
    }
  }

  /** Exactly when a sample costs a valid bucket, whatever the order of the samples. */
  lemma LosesIff<T(!new)>(c: Config, buckets: seq<Bucket<T>>, value: T, now: nat)
    requires Inv(c, buckets)
    ensures Loses(c, buckets, value, now) <==> Crowded(c, buckets, now)
  {
    if Crowded(c, buckets, now) { CrowdedLoses(c, buckets, value, now); } else { RoomKeeps(c, buckets, value, now); }
  }

  // ------------------------------------------------------------- conservation

  /** What truncation takes out of a snapshot at some instant. */
  function Dropped<T>(c: Config, buckets: seq<Bucket<T>>, now: nat, at: nat): multiset<T> {
    if Crowded(c, buckets, now) && CostsAt(c, buckets, now, at) then
      var kept := Retained(c, buckets, now);
      kept[|kept| - 1].summary
    else multiset{}
  }

  /** The oldest valid bucket is still valid at some instant. */
  predicate CostsAt<T>(c: Config, buckets: seq<Bucket<T>>, now: nat, at: nat) {
    var kept := Retained(c, buckets, now);
    kept != [] && c.Live(kept[|kept| - 1].begin, at)
  }

  /** A bucket with one more value. */
  function Plus<T>(b: Bucket<T>, value: T): Bucket<T> { b.(summary := b.summary + multiset{value}) }

  /** What a value adds to a snapshot under some start. */
  function Gain<T>(c: Config, begin: int, value: T, at: nat): multiset<T> {
    if c.Live(begin, at) then multiset{value} else multiset{}
  }

  lemma PlusGains<T>(c: Config, s: seq<Bucket<T>>, b: Bucket<T>, value: T, at: nat)
    ensures Merged(c, s + [Plus(b, value)], at) == Merged(c, s + [b], at) + Gain(c, b.begin, value, at)
  {
    MergedSum(c, s, b, at);
    MergedSum(c, s, Plus(b, value), at);
  }

  lemma SumSwap<T>(a: multiset<T>, b: multiset<T>, v: multiset<T>)
    ensures a + v + b == a + b + v
  {
  }

  /** The last bucket adds as much after a gain as before. */
  lemma GainCommutes<T>(c: Config, s: seq<Bucket<T>>, r: seq<Bucket<T>>, b: Bucket<T>, v: multiset<T>, at: nat)
    requires Merged(c, r, at) == Merged(c, s, at) + v
    ensures Merged(c, r + [b], at) == Merged(c, s + [b], at) + v
  {
    MergedSum(c, s, b, at);
    MergedSum(c, r, b, at);
    SumSwap(Merged(c, s, at), if c.Live(b.begin, at) then b.summary else multiset{}, v);
  }

  lemma {:induction false} MergedUpdate<T>(c: Config, s: seq<Bucket<T>>, i: nat, value: T, at: nat)
    requires i < |s|
    ensures Merged(c, s[i := Plus(s[i], value)], at) == Merged(c, s, at) + Gain(c, s[i].begin, value, at)
  {
    var front, last := s[..|s| - 1], s[|s| - 1];
    assert s == front + [last];
    if i < |s| - 1 {
      MergedUpdate(c, front, i, value, at);
      assert s[i := Plus(s[i], value)] == front[i := Plus(front[i], value)] + [last];
      GainCommutes(c, front, front[i := Plus(front[i], value)], last, Gain(c, s[i].begin, value, at), at);
    } else {
      assert s[i := Plus(s[i], value)] == front + [Plus(last, value)];
      PlusGains(c, front, last, value, at);
    }
  }

  lemma {:induction false} MergedInsert<T>(c: Config, s: seq<Bucket<T>>, b: Bucket<T>, at: nat)
    ensures Merged(c, InsertSorted(s, b), at)
      == Merged(c, s, at) + (if c.Live(b.begin, at) then b.summary else multiset{})
  {
    if s == [] || s[|s| - 1].begin >= b.begin {
      assert s == [] ==> InsertSorted(s, b) == s + [b];
      MergedSum(c, s, b, at);
    } else {
      var front, last := s[..|s| - 1], s[|s| - 1];
      MergedInsert(c, front, b, at);
      MergedSum(c, InsertSorted(front, b), last, at);
    }
  }

  lemma MergedNewBucket<T>(c: Config, kept: seq<Bucket<T>>, value: T, now: nat, at: nat)
    requires c.Ok()
    ensures Merged(c, NewBucket(c, kept, value, now), at)
      == Merged(c, Truncate(kept, c.maxBuckets - 1), at)
        + Gain(c, NewStart(c, kept, now), value, at)
  {
    var b := Bucket(NewStart(c, kept, now), multiset{value});
    var cut := Truncate(kept, c.maxBuckets - 1);
    if kept == [] {
      assert cut == [] && NewBucket(c, kept, value, now) == [] + [b];
      MergedSum(c, [], b, at);
    } else if now > kept[0].begin {
      MergedFirst(c, b, cut, at);
    } else {
      MergedInsert(c, cut, b, at);
    }
  }

  /** One sample: the snapshot gains it where it is filed, and loses what truncation drops. */
  lemma AddConserves<T>(c: Config, buckets: seq<Bucket<T>>, value: T, now: nat, at: nat)
    requires Inv(c, buckets) && now <= at
    ensures Merged(c, Add(c, buckets, value, now), at) + Dropped(c, buckets, now, at)
      == Merged(c, buckets, at) + Gain(c, FiledAt(c, buckets, now), value, at)
  {
    if FindBucket(c, buckets, now).Some? {
      FoundConserves(c, buckets, value, now, at);
    } else {
      NewConserves(c, buckets, value, now, at);
    }
  }

  lemma FoundConserves<T>(c: Config, buckets: seq<Bucket<T>>, value: T, now: nat, at: nat)
    requires Inv(c, buckets) && FindBucket(c, buckets, now).Some?
    ensures Dropped(c, buckets, now, at) == multiset{}
    ensures Merged(c, Add(c, buckets, value, now), at)
      == Merged(c, buckets, at) + Gain(c, FiledAt(c, buckets, now), value, at)
  {
    MergedUpdate(c, buckets, FindBucket(c, buckets, now).value, value, at);
  }

  lemma NewConserves<T>(c: Config, buckets: seq<Bucket<T>>, value: T, now: nat, at: nat)
    requires Inv(c, buckets) && now <= at && FindBucket(c, buckets, now).None?
    ensures Merged(c, Add(c, buckets, value, now), at) + Dropped(c, buckets, now, at)
      == Merged(c, buckets, at) + Gain(c, FiledAt(c, buckets, now), value, at)
  {
    var kept := Retained(c, buckets, now);
    MergedRetained(c, buckets, now, at);
    MergedNewBucket(c, kept, value, now, at);
    DroppedIsCut(c, buckets, now, at);
    SumSwap(Merged(c, Truncate(kept, c.maxBuckets - 1), at), Dropped(c, buckets, now, at),
      Gain(c, NewStart(c, kept, now), value, at));
  }

  lemma DroppedIsCut<T>(c: Config, buckets: seq<Bucket<T>>, now: nat, at: nat)
    requires Inv(c, buckets) && FindBucket(c, buckets, now).None?
    ensures var kept := Retained(c, buckets, now);
      Merged(c, kept, at) == Merged(c, Truncate(kept, c.maxBuckets - 1), at) + Dropped(c, buckets, now, at)
  {
    RetainedFrom(c, buckets, now);
    MergedTruncated(c, Retained(c, buckets, now), at);
  }

  lemma MergedTruncated<T>(c: Config, kept: seq<Bucket<T>>, at: nat)
    requires c.Ok() && |kept| <= c.maxBuckets
    ensures var n := |kept| - 1;
      Merged(c, kept, at) == Merged(c, Truncate(kept, c.maxBuckets - 1), at)
        + (if n == c.maxBuckets - 1 && c.Live(kept[n].begin, at) then kept[n].summary else multiset{})
  {
    if |kept| < c.maxBuckets {
      assert Truncate(kept, c.maxBuckets - 1) == kept;
    } else {
      var cut := Truncate(kept, c.maxBuckets - 1);
      assert kept == cut + [kept[|kept| - 1]];
      MergedSum(c, cut, kept[|kept| - 1], at);
    }
  }

  // -------------------------------------------------------------------- runs

  /** The list of all samples, each under the start where add filed it. */
  ghost function Filed<T>(c: Config, samples: seq<Sample<T>>, at: nat): multiset<T>
    requires c.Ok()
  {
    if samples == [] then multiset{}
    else
      var front, last := samples[..|samples| - 1], samples[|samples| - 1];
      Filed(c, front, at) + Gain(c, FiledAt(c, Buckets(c, front), last.now), last.value, at)
  }

  /** All that truncation ever took out of a snapshot at some instant. */
  ghost function Lost<T>(c: Config, samples: seq<Sample<T>>, at: nat): multiset<T>
    requires c.Ok()
  {
    if samples == [] then multiset{}
    else
      var front := samples[..|samples| - 1];
      Lost(c, front, at) + Dropped(c, Buckets(c, front), samples[|samples| - 1].now, at)
  }

  ghost predicate Until<T>(samples: seq<Sample<T>>, at: nat) {
    forall i :: 0 <= i < |samples| ==> samples[i].now <= at
  }

  lemma Balance<T>(m: multiset<T>, l: multiset<T>, f: multiset<T>, a: multiset<T>, d: multiset<T>, v: multiset<T>)
    requires m + l == f && a + d == m + v
    ensures a + (l + d) == f + v
  {
    assert a + (l + d) == a + d + l && f + v == m + v + l;
  }

  lemma SumIsEmpty<T>(a: multiset<T>, b: multiset<T>)
    ensures a + b == multiset{} <==> a == multiset{} && b == multiset{}
  {
    assert |a + b| == |a| + |b|;
  }

  /** Over every run, in any order: the snapshot and what was lost are together all samples
      whose start is valid. */
  lemma {:induction false} NothingElseIsLost<T>(c: Config, samples: seq<Sample<T>>, at: nat)
    requires c.Ok() && Until(samples, at)
    ensures Merged(c, Buckets(c, samples), at) + Lost(c, samples, at) == Filed(c, samples, at)
  {
    if samples != [] {
      var front, last := samples[..|samples| - 1], samples[|samples| - 1];
      var before := Buckets(c, front);
      NothingElseIsLost(c, front, at);
      BucketsInv(c, front);
      AddConserves(c, before, last.value, last.now, at);
      Balance(Merged(c, before, at), Lost(c, front, at), Filed(c, front, at),
        Merged(c, Buckets(c, samples), at), Dropped(c, before, last.now, at),
        Gain(c, FiledAt(c, before, last.now), last.value, at));
    }
  }

  ghost predicate NoneEmpty<T>(buckets: seq<Bucket<T>>) {
    forall i :: 0 <= i < |buckets| ==> |buckets[i].summary| > 0
  }

  lemma AddNoneEmpty<T>(c: Config, buckets: seq<Bucket<T>>, value: T, now: nat)
    requires Inv(c, buckets) && NoneEmpty(buckets)
    ensures NoneEmpty(Add(c, buckets, value, now))
  {
    if FindBucket(c, buckets, now).None? {
      var kept := Retained(c, buckets, now);
      RetainedFrom(c, buckets, now);
      var after := NewBucket(c, kept, value, now);
      forall i | 0 <= i < |after| ensures |after[i].summary| > 0 {
        NewBucketMembers(c, kept, value, now, after[i]);
        if after[i] in Truncate(kept, c.maxBuckets - 1) {
          var j :| 0 <= j < |Truncate(kept, c.maxBuckets - 1)| && Truncate(kept, c.maxBuckets - 1)[j] == after[i];
          assert buckets[j] == after[i];
        }
      }
    }
  }

  lemma {:induction false} BucketsNoneEmpty<T>(c: Config, samples: seq<Sample<T>>)
    requires c.Ok()
    ensures NoneEmpty(Buckets(c, samples))
  {
    if samples != [] {
      var front, last := samples[..|samples| - 1], samples[|samples| - 1];
      BucketsNoneEmpty(c, front);
      BucketsInv(c, front);
      AddNoneEmpty(c, Buckets(c, front), last.value, last.now);
    }
  }

  /** Sample i finds maxBuckets valid buckets, needs a new one, and the oldest of them is
      still valid at some instant. */
  ghost predicate Costs<T>(c: Config, samples: seq<Sample<T>>, i: nat, at: nat)
    requires c.Ok() && i < |samples|
  {
    var before := Buckets(c, samples[..i]);
    Crowded(c, before, samples[i].now) && CostsAt(c, before, samples[i].now, at)
  }

  lemma DroppedIff<T>(c: Config, buckets: seq<Bucket<T>>, now: nat, at: nat)
    requires Inv(c, buckets) && NoneEmpty(buckets)
    ensures Dropped(c, buckets, now, at) == multiset{} <==> !(Crowded(c, buckets, now) && CostsAt(c, buckets, now, at))
  {
    RetainedFrom(c, buckets, now);
    var kept := Retained(c, buckets, now);
    if kept != [] { assert |buckets[|kept| - 1].summary| > 0; }
  }

  lemma LastCosts<T>(c: Config, samples: seq<Sample<T>>, at: nat)
    requires c.Ok() && samples != []
    ensures var n := |samples| - 1;
      Dropped(c, Buckets(c, samples[..n]), samples[n].now, at) == multiset{} <==> !Costs(c, samples, n, at)
  {
    var front := samples[..|samples| - 1];
    BucketsNoneEmpty(c, front);
    BucketsInv(c, front);
    DroppedIff(c, Buckets(c, front), samples[|samples| - 1].now, at);
  }

  lemma EarlierCosts<T>(c: Config, samples: seq<Sample<T>>, i: nat, at: nat)
    requires c.Ok() && i < |samples| - 1
    ensures Costs(c, samples[..|samples| - 1], i, at) <==> Costs(c, samples, i, at)
  {
    assert samples[..|samples| - 1][..i] == samples[..i];
  }

  ghost predicate NoneCosts<T>(c: Config, samples: seq<Sample<T>>, at: nat)
    requires c.Ok()
  {
    forall i :: 0 <= i < |samples| ==> !Costs(c, samples, i, at)
  }

  lemma NoneCostsLast<T>(c: Config, samples: seq<Sample<T>>, at: nat)
    requires c.Ok() && samples != []
    ensures NoneCosts(c, samples, at)
      <==> NoneCosts(c, samples[..|samples| - 1], at) && !Costs(c, samples, |samples| - 1, at)
  {
    var n := |samples| - 1;
    forall i | 0 <= i < n ensures Costs(c, samples[..n], i, at) <==> Costs(c, samples, i, at) {
      EarlierCosts(c, samples, i, at);
    }
  }

  lemma {:induction false} LostIff<T>(c: Config, samples: seq<Sample<T>>, at: nat)
    requires c.Ok()
    ensures Lost(c, samples, at) == multiset{} <==> NoneCosts(c, samples, at)
  {
    if samples != [] {
      var n := |samples| - 1;
      LostIff(c, samples[..n], at);
      LastCosts(c, samples, at);
      NoneCostsLast(c, samples, at);
      SumIsEmpty(Lost(c, samples[..n], at), Dropped(c, Buckets(c, samples[..n]), samples[n].now, at));
    }
  }

  /** A snapshot at or after all samples, in whatever order they came, is the filtered list
      of all of them if and only if no sample pushed out a bucket that is valid then. */
  lemma SnapshotIsExact<T>(c: Config, samples: seq<Sample<T>>, at: nat)
    requires c.Ok() && Until(samples, at)
    ensures Merged(c, Buckets(c, samples), at) == Filed(c, samples, at)
      <==> forall i :: 0 <= i < |samples| ==> !Costs(c, samples, i, at)
  {
    NothingElseIsLost(c, samples, at);
    LostIff(c, samples, at);
    assert |Filed(c, samples, at)| == |Merged(c, Buckets(c, samples), at)| + |Lost(c, samples, at)|;
  }

  ghost predicate EverLoses<T(!new)>(c: Config, samples: seq<Sample<T>>)
    requires c.Ok()
  {
    exists i :: 0 <= i < |samples| && Loses(c, Buckets(c, samples[..i]), samples[i].value, samples[i].now)
  }

  /** A run loses a bucket while it is valid exactly if some sample comes to crowded buckets. */
  lemma RunLosesIff<T(!new)>(c: Config, samples: seq<Sample<T>>)
    requires c.Ok()
    ensures EverLoses(c, samples)
      <==> exists i :: 0 <= i < |samples| && Crowded(c, Buckets(c, samples[..i]), samples[i].now)
  {
    forall i | 0 <= i < |samples|
      ensures Loses(c, Buckets(c, samples[..i]), samples[i].value, samples[i].now)
        <==> Crowded(c, Buckets(c, samples[..i]), samples[i].now)
    {
      BucketsInv(c, samples[..i]);
      LosesIff(c, Buckets(c, samples[..i]), samples[i].value, samples[i].now);
    }
  }

  /** Samples in order never come to crowded buckets. */
  lemma InOrderIsNotCrowded<T>(c: Config, samples: seq<Sample<T>>, i: nat)
    requires c.Ok() && Monotone(samples) && i < |samples|
    ensures !Crowded(c, Buckets(c, samples[..i]), samples[i].now)
  {
    var front, now := samples[..i], samples[i].now;
    if i > 0 {
      BucketsAgree(c, front);
      BucketsInv(c, front);
      if now >= Buckets(c, front)[0].begin + c.duration { KeptFit(c, Buckets(c, front), now); }
    }
  }

  // -------------------------------------------------------------- an instance

  /** A sample that comes late can push out a bucket that is still valid: the third one
      finds both buckets valid. */
  lemma LateSampleLosesBucket(x: int, y: int, z: int)
    ensures
      var c := Config(2, 1);
      var samples := [Sample(x, 2), Sample(y, 1), Sample(z, 0)];
      && Buckets(c, samples) == [Bucket(2, multiset{x}), Bucket(0, multiset{z})]
      && EverLoses(c, samples)
      && Merged(c, Buckets(c, samples), 2) != Filed(c, samples, 2)
  {
    var c := Config(2, 1);
    var s := [Sample(x, 2), Sample(y, 1), Sample(z, 0)];
    LateRun(c, s, x, y, z);
    assert Costs(c, s, 2, 2);
    RunLosesIff(c, s);
    SnapshotIsExact(c, s, 2);
  }

  lemma LateRun(c: Config, s: seq<Sample<int>>, x: int, y: int, z: int)
    requires c == Config(2, 1) && s == [Sample(x, 2), Sample(y, 1), Sample(z, 0)]
    ensures Buckets(c, s) == [Bucket(2, multiset{x}), Bucket(0, multiset{z})]
    ensures Crowded(c, Buckets(c, s[..2]), 0) && CostsAt(c, Buckets(c, s[..2]), 0, 2)
  {
    var b1 := [Bucket(2, multiset{x})];
    var b2 := [Bucket(2, multiset{x}), Bucket(1, multiset{y})];
    assert s[..2] == [Sample(x, 2), Sample(y, 1)] && s[..2][..1] == [Sample(x, 2)] && s[..2][..1][..0] == [];
    assert Mult(2, 1) == Mult(1, 1) + 1 == Mult(0, 1) + 1 + 1;
    assert Buckets(c, s[..2][..1]) == Add(c, [], x, 2) == b1;
    LateAdd(c, b1, y, 1, b1[0]);
    assert Buckets(c, s[..2]) == Add(c, b1, y, 1) == b2;
    LateAdd(c, b2, z, 0, b2[0]);
  }

  /** The newest bucket, or both, and a sample that is older than either. */
  ghost predicate LateFor(c: Config, b: seq<Bucket<int>>, now: nat, newest: Bucket<int>) {
    && c == Config(2, 1) && Mult(2, 1) == 2 && newest.begin == 2
    && ((b == [newest] && now == 1) || (|b| == 2 && b[0] == newest && b[1].begin == 1 && now == 0))
  }

  lemma LateIsNotFound(c: Config, b: seq<Bucket<int>>, now: nat, newest: Bucket<int>)
    requires LateFor(c, b, now, newest)
    ensures FindBucket(c, b, now).None?
  {
    assert |b| == 2 ==> b[1..][0] == b[1];
  }

  lemma LateKeepsAll(c: Config, b: seq<Bucket<int>>, now: nat, newest: Bucket<int>)
    requires LateFor(c, b, now, newest)
    ensures Retained(c, b, now) == b
  {
    assert b[..1] == [newest] && b[..1][..0] == [];
    assert Retained(c, b[..1], now) == [] + [newest];
    assert |b| == 2 ==> b == b[..1] + [b[1]];
  }

  lemma LateAdd(c: Config, b: seq<Bucket<int>>, value: int, now: nat, newest: Bucket<int>)
    requires LateFor(c, b, now, newest)
    ensures Add(c, b, value, now) == [newest, Bucket(now, multiset{value})]
    ensures FindBucket(c, b, now).None? && Retained(c, b, now) == b
  {
    LateIsNotFound(c, b, now, newest);
    LateKeepsAll(c, b, now, newest);
    assert DownFrom(1, 2, now) == DownFrom(1, 1, now) == now by { assert now == 0 ==> DownFrom(1, 0, now) == 0; }
    assert Truncate(b, 1) == [newest];
    var n := Bucket(now, multiset{value});
    assert InsertSorted([newest], n) == [newest] + [n];
  }
}
