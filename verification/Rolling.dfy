/** Rolling time buckets of samples (metrics-exporter-influx/src/distribution.rs).
    Instants are numbers; a summary is the bag of its values. */
module Rolling {
  import opened Prelude

  datatype Bucket<T> = Bucket(begin: int, summary: multiset<T>)

  /** k durations of d, by repeated addition. */
  function Mult(k: int, d: int): int
    decreases if k >= 0 then k else -k
  {
    if k == 0 then 0 else if k > 0 then Mult(k - 1, d) + d else Mult(k + 1, d) - d
  }

  lemma MultStep(k: int, d: int)
    ensures Mult(k + 1, d) == Mult(k, d) + d && Mult(k - 1, d) == Mult(k, d) - d
  {
  }

  lemma {:induction false} MultMinus(j: int, k: int, d: int)
    ensures Mult(j - k, d) == Mult(j, d) - Mult(k, d)
    decreases if k >= 0 then k else -k
  {
    if k > 0 {
      MultMinus(j, k - 1, d);
      MultStep(j - k + 1, d);
    } else if k < 0 {
      MultMinus(j, k + 1, d);
      MultStep(j - k - 1, d);
    }
  }

  lemma {:induction false} MultPositive(k: int, d: int)
    requires d > 0
    ensures Mult(k, d) > 0 <==> k > 0
    ensures k > 0 ==> Mult(k, d) >= d
    decreases if k >= 0 then k else -k
  {
    if k > 0 {
      MultPositive(k - 1, d);
    } else if k < 0 {
      MultPositive(k + 1, d);
    }
  }

  /** The limits of a summary. */
  datatype Config = Config(maxBuckets: nat, duration: nat) {
    ghost predicate Ok() { maxBuckets > 0 && duration > 0 }

    function MaxDuration(): int { Mult(maxBuckets, duration) }

    /** Whether a bucket is still valid at some instant. */
    predicate Live(begin: int, now: nat) { now < MaxDuration() || begin > now - MaxDuration() }
  }

  ghost predicate Aligned(d: int, a: int, b: int) { exists k: int :: b - a == Mult(k, d) }

  lemma AlignedSelf(d: int, a: int)
    ensures Aligned(d, a, a)
  {
    assert a - a == Mult(0, d);
  }

  lemma AlignedOn(d: int, a: int, b: int, c: int)
    requires Aligned(d, a, b) && Aligned(d, a, c)
    ensures Aligned(d, b, c)
  {
    var j: int :| b - a == Mult(j, d);
    var k: int :| c - a == Mult(k, d);
    MultMinus(k, j, d);
    assert c - b == Mult(k - j, d);
  }

  lemma AlignedStep(d: int, a: int, b: int)
    requires Aligned(d, a, b)
    ensures Aligned(d, a, b + d) && Aligned(d, a, b - d)
  {
    var k: int :| b - a == Mult(k, d);
    MultStep(k, d);
    assert b + d - a == Mult(k + 1, d) && b - d - a == Mult(k - 1, d);
  }

  /** Aligned starts are at least a bucket apart. */
  lemma AlignedApart(d: int, a: int, b: int)
    requires d > 0 && Aligned(d, a, b) && a < b
    ensures a + d <= b
  {
    var k: int :| b - a == Mult(k, d);
    MultPositive(k, d);
  }

  // ------------------------------------------------------------ the steps of add

  /** The bucket for a sample, searched from the newest. */
  function FindBucket<T>(c: Config, buckets: seq<Bucket<T>>, now: int): (r: Option<nat>)
    ensures r.Some? ==>
      r.value < |buckets| && buckets[r.value].begin <= now < buckets[r.value].begin + c.duration
  {
    if buckets == [] || now > buckets[0].begin + c.duration then None
    else if buckets[0].begin <= now < buckets[0].begin + c.duration then Some(0)
    else
      var r := FindBucket(c, buckets[1..], now);
      if r.Some? then Some(r.value + 1) else None
  }

  function Retained<T>(c: Config, buckets: seq<Bucket<T>>, now: nat): seq<Bucket<T>> {
    if buckets == [] then []
    else
      var last := buckets[|buckets| - 1];
      Retained(c, buckets[..|buckets| - 1], now) + (if c.Live(last.begin, now) then [last] else [])
  }

  function UpFrom(d: int, begin: int, now: int): (b: int)
    requires d > 0 && begin <= now
    ensures begin <= b <= now < b + d
    decreases now - begin
  {
    if now < begin + d then begin else UpFrom(d, begin + d, now)
  }

  function DownFrom(d: int, begin: int, now: int): (b: int)
    requires d > 0 && now < begin + d
    ensures b <= begin && b <= now < b + d
    decreases begin - now
  {
    if begin <= now then begin else DownFrom(d, begin - d, now)
  }

  lemma {:induction false} UpAligned(d: int, a: int, begin: int, now: int)
    requires d > 0 && begin <= now && Aligned(d, a, begin)
    ensures Aligned(d, a, UpFrom(d, begin, now))
    decreases now - begin
  {
    if now >= begin + d {
      AlignedStep(d, a, begin);
      UpAligned(d, a, begin + d, now);
    }
  }

  lemma {:induction false} DownAligned(d: int, a: int, begin: int, now: int)
    requires d > 0 && now < begin + d && Aligned(d, a, begin)
    ensures Aligned(d, a, DownFrom(d, begin, now))
    decreases begin - now
  {
    if begin > now {
      AlignedStep(d, a, begin);
      DownAligned(d, a, begin - d, now);
    }
  }

  function Truncate<T>(s: seq<T>, n: nat): (r: seq<T>)
    ensures r <= s && |r| == Min(|s|, n)
  {
    s[..Min(|s|, n)]
  }

  /** Sorting a bucket into buckets that are sorted. */
  function InsertSorted<T>(buckets: seq<Bucket<T>>, b: Bucket<T>): (r: seq<Bucket<T>>)
    ensures |r| == |buckets| + 1
  {
    if buckets == [] then [b]
    else if buckets[|buckets| - 1].begin >= b.begin then buckets + [b]
    else InsertSorted(buckets[..|buckets| - 1], b) + [buckets[|buckets| - 1]]
  }

  function Add<T>(c: Config, buckets: seq<Bucket<T>>, value: T, now: nat): seq<Bucket<T>>
    requires c.duration > 0 && c.maxBuckets > 0
  {
    var found := FindBucket(c, buckets, now);
    if found.Some? then
      var b := buckets[found.value];
      buckets[found.value := b.(summary := b.summary + multiset{value})]
    else NewBucket(c, Retained(c, buckets, now), value, now)
  }

  function NewBucket<T>(c: Config, kept: seq<Bucket<T>>, value: T, now: nat): seq<Bucket<T>>
    requires c.duration > 0 && c.maxBuckets > 0
  {
    if kept == [] then [Bucket(now, multiset{value})]
    else if now > kept[0].begin then
      [Bucket(UpFrom(c.duration, kept[0].begin, now), multiset{value})] + Truncate(kept, c.maxBuckets - 1)
    else
      InsertSorted(Truncate(kept, c.maxBuckets - 1),
        Bucket(DownFrom(c.duration, kept[0].begin, now), multiset{value}))
  }

  // ------------------------------------------------------------------ invariant

  /** Newest first, a bucket apart and so disjoint, on one grid, not too many. */
  ghost predicate Ordered<T>(c: Config, buckets: seq<Bucket<T>>) {
    && (forall i, j :: 0 <= i < j < |buckets| ==> buckets[i].begin >= buckets[j].begin + c.duration)
    && (forall i, j :: 0 <= i < j < |buckets| ==> Aligned(c.duration, buckets[i].begin, buckets[j].begin))
  }

  ghost predicate Inv<T>(c: Config, buckets: seq<Bucket<T>>) {
    c.Ok() && Ordered(c, buckets) && |buckets| <= c.maxBuckets
  }

  lemma {:induction false} RetainedFrom<T>(c: Config, buckets: seq<Bucket<T>>, now: nat)
    requires c.Ok() && Ordered(c, buckets)
    ensures var r := Retained(c, buckets, now);
      r <= buckets && forall i :: 0 <= i < |buckets| ==> (c.Live(buckets[i].begin, now) <==> i < |r|)
  {
    if buckets != [] {
      var front := buckets[..|buckets| - 1];
      RetainedFrom(c, front, now);
      var r := Retained(c, front, now);
      if |r| < |front| { assert !c.Live(front[|r|].begin, now); }
    }
  }

  lemma {:induction false} NotFound<T>(c: Config, buckets: seq<Bucket<T>>, now: int, i: nat)
    requires c.Ok() && Ordered(c, buckets) && FindBucket(c, buckets, now).None? && i < |buckets|
    ensures !(buckets[i].begin <= now < buckets[i].begin + c.duration)
    decreases |buckets|
  {
    if i > 0 && now <= buckets[0].begin + c.duration {
      assert buckets[1..][i - 1] == buckets[i];
      NotFound(c, buckets[1..], now, i - 1);
    }
  }

  lemma PrefixOrdered<T>(c: Config, s: seq<Bucket<T>>, r: seq<Bucket<T>>)
    requires Ordered(c, s) && r <= s
    ensures Ordered(c, r)
  {
  }

  ghost predicate OnGrid<T>(c: Config, s: seq<Bucket<T>>, begin: int) {
    forall i :: 0 <= i < |s| ==> Aligned(c.duration, s[i].begin, begin) && s[i].begin != begin
  }

  lemma {:induction false} InsertMembers<T>(s: seq<Bucket<T>>, b: Bucket<T>, x: Bucket<T>)
    ensures x in InsertSorted(s, b) <==> x in s || x == b
  {
    if s != [] && s[|s| - 1].begin < b.begin {
      InsertMembers(s[..|s| - 1], b, x);
      assert s == s[..|s| - 1] + [s[|s| - 1]];
    }
  }

  /** An aligned start that no bucket has keeps the buckets ordered, wherever it belongs. */
  lemma {:induction false} InsertOrdered<T>(c: Config, s: seq<Bucket<T>>, b: Bucket<T>)
    requires c.Ok() && Ordered(c, s) && OnGrid(c, s, b.begin)
    ensures Ordered(c, InsertSorted(s, b))
  {
    if s == [] {
    } else if s[|s| - 1].begin >= b.begin {
      forall x | x in s ensures Before(c, x, b) { OlderThanAll(c, s, b, x); }
      AppendOrdered(c, s, b);
    } else {
      var front, last := s[..|s| - 1], s[|s| - 1];
      PrefixOrdered(c, s, front);
      InsertOrdered(c, front, b);
      forall x | x in InsertSorted(front, b) ensures Before(c, x, last) {
        InsertMembers(front, b, x);
        if x == b { FreshNewer(c, s, b); } else { NewerThanLast(c, s, x); }
      }
      AppendOrdered(c, InsertSorted(front, b), last);
    }
  }

  ghost predicate Before<T>(c: Config, x: Bucket<T>, y: Bucket<T>) {
    x.begin >= y.begin + c.duration && Aligned(c.duration, x.begin, y.begin)
  }

  lemma FreshNewer<T>(c: Config, s: seq<Bucket<T>>, b: Bucket<T>)
    requires c.Ok() && OnGrid(c, s, b.begin) && s != [] && s[|s| - 1].begin < b.begin
    ensures Before(c, b, s[|s| - 1])
  {
    var last := s[|s| - 1];
    AlignedApart(c.duration, last.begin, b.begin);
    AlignedFlip(c.duration, last.begin, b.begin);
  }

  lemma OlderThanAll<T>(c: Config, s: seq<Bucket<T>>, b: Bucket<T>, x: Bucket<T>)
    requires c.Ok() && Ordered(c, s) && OnGrid(c, s, b.begin) && x in s && s[|s| - 1].begin >= b.begin
    ensures Before(c, x, b)
  {
    var i :| 0 <= i < |s| && s[i] == x;
    AlignedFlip(c.duration, x.begin, b.begin);
    AlignedApart(c.duration, b.begin, x.begin);
  }

  lemma NewerThanLast<T>(c: Config, s: seq<Bucket<T>>, x: Bucket<T>)
    requires Ordered(c, s) && s != [] && x in s[..|s| - 1]
    ensures Before(c, x, s[|s| - 1])
  {
    var i :| 0 <= i < |s| - 1 && s[..|s| - 1][i] == x;
    assert s[i] == x;
  }

  lemma AlignedFlip(d: int, a: int, b: int)
    requires Aligned(d, a, b)
    ensures Aligned(d, b, a)
  {
    AlignedSelf(d, a);
    AlignedOn(d, a, b, a);
  }

  lemma AppendOrdered<T>(c: Config, s: seq<Bucket<T>>, b: Bucket<T>)
    requires Ordered(c, s)
    requires forall x :: x in s ==> Before(c, x, b)
    ensures Ordered(c, s + [b])
  {
    forall i | 0 <= i < |s| ensures Before(c, s[i], b) { assert s[i] in s; }
  }

  lemma GridOf<T>(c: Config, s: seq<Bucket<T>>, begin: int, now: int)
    requires c.Ok() && s != [] && Ordered(c, s) && Aligned(c.duration, s[0].begin, begin)
    requires begin <= now < begin + c.duration
    requires forall i :: 0 <= i < |s| ==> !(s[i].begin <= now < s[i].begin + c.duration)
    ensures OnGrid(c, s, begin)
  {
    forall i | 0 <= i < |s| ensures Aligned(c.duration, s[i].begin, begin) {
      if i > 0 { AlignedOn(c.duration, s[0].begin, s[i].begin, begin); }
    }
  }

  lemma NewBucketInv<T>(c: Config, kept: seq<Bucket<T>>, value: T, now: nat)
    requires Inv(c, kept)
    requires forall i :: 0 <= i < |kept| ==> !(kept[i].begin <= now < kept[i].begin + c.duration)
    ensures Inv(c, NewBucket(c, kept, value, now))
  {
    if kept != [] {
      var d, ref := c.duration, kept[0].begin;
      var cut := Truncate(kept, c.maxBuckets - 1);
      PrefixOrdered(c, kept, cut);
      AlignedSelf(d, ref);
      if now > ref {
        var begin := UpFrom(d, ref, now);
        UpAligned(d, ref, ref, now);
        GridOf(c, kept, begin, now);
        AlignedApart(d, ref, begin);
        PrependOrdered(c, cut, Bucket(begin, multiset{value}));
      } else {
        DownAligned(d, ref, ref, now);
        GridOf(c, kept, DownFrom(d, ref, now), now);
        InsertOrdered(c, cut, Bucket(DownFrom(d, ref, now), multiset{value}));
      }
    }
  }

  lemma PrependOrdered<T>(c: Config, s: seq<Bucket<T>>, b: Bucket<T>)
    requires c.Ok() && Ordered(c, s) && OnGrid(c, s, b.begin)
    requires s == [] || b.begin >= s[0].begin + c.duration
    ensures Ordered(c, [b] + s)
  {
    forall j | 0 <= j < |s| ensures Aligned(c.duration, b.begin, s[j].begin) {
      AlignedFlip(c.duration, s[j].begin, b.begin);
    }
  }

  /** Whatever the timestamps, in whatever order: add keeps the buckets ordered and few. */
  lemma AddInv<T>(c: Config, buckets: seq<Bucket<T>>, value: T, now: nat)
    requires Inv(c, buckets)
    ensures Inv(c, Add(c, buckets, value, now))
  {
    if FindBucket(c, buckets, now).None? {
      RetainedFrom(c, buckets, now);
      var kept := Retained(c, buckets, now);
      PrefixOrdered(c, buckets, kept);
      forall i | 0 <= i < |kept| ensures !(kept[i].begin <= now < kept[i].begin + c.duration) {
        NotFound(c, buckets, now, i);
      }
      NewBucketInv(c, kept, value, now);
    }
  }

  // ------------------------------------------------------------ the plain list

  datatype Sample<T> = Sample(value: T, now: nat)

  ghost function Buckets<T>(c: Config, samples: seq<Sample<T>>): seq<Bucket<T>>
    requires c.Ok()
  {
    if samples == [] then []
    else
      var last := samples[|samples| - 1];
      Add(c, Buckets(c, samples[..|samples| - 1]), last.value, last.now)
  }

  lemma {:induction false} BucketsInv<T>(c: Config, samples: seq<Sample<T>>)
    requires c.Ok()
    ensures Inv(c, Buckets(c, samples))
  {
    if samples != [] {
      BucketsInv(c, samples[..|samples| - 1]);
      var last := samples[|samples| - 1];
      AddInv(c, Buckets(c, samples[..|samples| - 1]), last.value, last.now);
    }
  }

  /** What snapshot merges at some instant. */
  function Merged<T>(c: Config, buckets: seq<Bucket<T>>, at: nat): multiset<T> {
    if buckets == [] then multiset{}
    else
      var last := buckets[|buckets| - 1];
      Merged(c, buckets[..|buckets| - 1], at) + (if c.Live(last.begin, at) then last.summary else multiset{})
  }

  /** The start under which a plain list files its last sample: the start of the one before
      if it falls into the same bucket; its own instant if that bucket began the length of all
      buckets ago, or there is none; the next start on the same grid otherwise. */
  ghost function StartOf<T>(c: Config, samples: seq<Sample<T>>): int
    requires c.Ok() && samples != []
  {
    var now := samples[|samples| - 1].now;
    if |samples| == 1 then now
    else
      var before := StartOf(c, samples[..|samples| - 1]);
      var length := Mult(c.maxBuckets, c.duration);
      if (now >= length && before <= now - length) || now < before then now else UpFrom(c.duration, before, now)
  }

  /** The plain list: every sample ever added whose start is later than the length of all
      buckets ago, or any before that much time has passed at all. */
  ghost function Listed<T>(c: Config, samples: seq<Sample<T>>, at: nat): multiset<T>
    requires c.Ok()
  {
    if samples == [] then multiset{}
    else
      var length := Mult(c.maxBuckets, c.duration);
      var valid := at < length || StartOf(c, samples) > at - length;
      Listed(c, samples[..|samples| - 1], at)
        + (if valid then multiset{samples[|samples| - 1].value} else multiset{})
  }

  ghost predicate Monotone<T>(samples: seq<Sample<T>>) {
    forall i, j :: 0 <= i < j < |samples| ==> samples[i].now <= samples[j].now
  }

  lemma MergedSum<T>(c: Config, a: seq<Bucket<T>>, b: Bucket<T>, at: nat)
    ensures Merged(c, a + [b], at) == Merged(c, a, at) + (if c.Live(b.begin, at) then b.summary else multiset{})
  {
    assert (a + [b])[..|a|] == a;
  }

  lemma {:induction false} MergedFirst<T>(c: Config, b: Bucket<T>, s: seq<Bucket<T>>, at: nat)
    ensures Merged(c, [b] + s, at) == (if c.Live(b.begin, at) then b.summary else multiset{}) + Merged(c, s, at)
  {
    if s != [] {
      MergedFirst(c, b, s[..|s| - 1], at);
      assert ([b] + s)[..|s|] == [b] + s[..|s| - 1];
    } else {
      assert ([b] + s)[..0] == [] && [b] + s == [b];
    }
  }

  /** Dropping what has expired is not seen later. */
  lemma {:induction false} MergedRetained<T>(c: Config, buckets: seq<Bucket<T>>, now: nat, at: nat)
    requires c.Ok() && now <= at
    ensures Merged(c, Retained(c, buckets, now), at) == Merged(c, buckets, at)
  {
    if buckets != [] {
      var front, last := buckets[..|buckets| - 1], buckets[|buckets| - 1];
      MergedRetained(c, front, now, at);
      if c.Live(last.begin, now) {
        MergedSum(c, Retained(c, front, now), last, at);
      } else {
        assert !c.Live(last.begin, at);
        assert Retained(c, buckets, now) == Retained(c, front, now);
      }
    }
  }

  /** At most maxBuckets - 1 valid buckets are older than a new newest one. */
  lemma {:induction false} SpanOf<T>(c: Config, s: seq<Bucket<T>>)
    requires c.Ok() && Ordered(c, s) && s != []
    ensures s[|s| - 1].begin <= s[0].begin - Mult(|s| - 1, c.duration)
  {
    if |s| > 1 {
      SpanOf(c, s[..|s| - 1]);
      MultStep(|s| - 2, c.duration);
    }
  }

  lemma NothingTruncated<T>(c: Config, kept: seq<Bucket<T>>, begin: int, now: nat)
    requires c.Ok() && kept != [] && Ordered(c, kept) && kept[0].begin + c.duration <= begin <= now
    requires forall b :: b in kept ==> c.Live(b.begin, now) && b.begin >= 0
    ensures |kept| <= c.maxBuckets - 1
  {
    SpanOf(c, kept);
    var oldest := kept[|kept| - 1];
    assert oldest in kept;
    assert oldest.begin > now - c.MaxDuration();
    MultStep(|kept| - 1, c.duration);
    assert Mult(|kept|, c.duration) < Mult(c.maxBuckets, c.duration);
    MultMinus(c.maxBuckets, |kept|, c.duration);
    MultPositive(c.maxBuckets - |kept|, c.duration);
  }

  /** The buckets agree with the plain list up to now and later; the newest bucket is
      the one of the last sample. */
  ghost predicate Agrees<T>(c: Config, buckets: seq<Bucket<T>>, samples: seq<Sample<T>>)
    requires c.Ok() && samples != []
  {
    && buckets != [] && buckets[0].begin == StartOf(c, samples) <= samples[|samples| - 1].now
    && (forall b :: b in buckets ==> b.begin >= 0)
    && forall at: nat :: at >= samples[|samples| - 1].now ==> Merged(c, buckets, at) == Listed(c, samples, at)
  }

  lemma AddToNewest<T>(c: Config, buckets: seq<Bucket<T>>, samples: seq<Sample<T>>, last: Sample<T>)
    requires Inv(c, buckets) && samples != [] && Agrees(c, buckets, samples)
    requires samples[|samples| - 1].now <= last.now < buckets[0].begin + c.duration
    ensures Agrees(c, Add(c, buckets, last.value, last.now), samples + [last])
  {
    var b := buckets[0];
    var fuller := b.(summary := b.summary + multiset{last.value});
    var r := Add(c, buckets, last.value, last.now);
    assert r == [fuller] + buckets[1..] && buckets == [b] + buckets[1..];
    assert (samples + [last])[..|samples|] == samples;
    MultPositive(c.maxBuckets, c.duration);
    assert StartOf(c, samples + [last]) == b.begin by { SameBucketLive(c, b.begin, last.now); }
    forall at: nat | at >= last.now ensures Merged(c, r, at) == Listed(c, samples + [last], at) {
      MergedFirst(c, b, buckets[1..], at);
      MergedFirst(c, fuller, buckets[1..], at);
    }
    forall x | x in r ensures x.begin >= 0 {
      if x != fuller { assert x in buckets; }
    }
  }

  lemma SameBucketLive(c: Config, begin: int, now: nat)
    requires c.Ok() && begin <= now < begin + c.duration
    ensures c.Live(begin, now)
  {
    MultPositive(c.maxBuckets, c.duration);
  }

  lemma KeptAreLive<T>(c: Config, buckets: seq<Bucket<T>>, now: nat)
    requires c.Ok() && Ordered(c, buckets) && forall b :: b in buckets ==> b.begin >= 0
    ensures forall b :: b in Retained(c, buckets, now) ==> c.Live(b.begin, now) && b.begin >= 0
  {
    RetainedFrom(c, buckets, now);
    var kept := Retained(c, buckets, now);
    forall b | b in kept ensures c.Live(b.begin, now) && b.begin >= 0 {
      var i :| 0 <= i < |kept| && kept[i] == b;
      assert buckets[i] == b;
    }
  }

  /** What add does with a sample newer than every bucket: nothing is truncated. */
  lemma AddedInFront<T>(c: Config, buckets: seq<Bucket<T>>, value: T, now: nat)
    requires Inv(c, buckets) && buckets != [] && now >= buckets[0].begin + c.duration
    requires forall b :: b in buckets ==> b.begin >= 0
    ensures var start := if c.Live(buckets[0].begin, now) then UpFrom(c.duration, buckets[0].begin, now) else now;
      Add(c, buckets, value, now) == [Bucket(start, multiset{value})] + Retained(c, buckets, now)
  {
    NewestNotFound(c, buckets, now);
    KeptFit(c, buckets, now);
  }

  lemma KeptFit<T>(c: Config, buckets: seq<Bucket<T>>, now: nat)
    requires Inv(c, buckets) && buckets != [] && now >= buckets[0].begin + c.duration
    requires forall b :: b in buckets ==> b.begin >= 0
    ensures var kept := Retained(c, buckets, now);
      && (kept == [] <==> !c.Live(buckets[0].begin, now))
      && (kept != [] ==> kept[0] == buckets[0] && |kept| <= c.maxBuckets - 1)
  {
    var kept := Retained(c, buckets, now);
    RetainedFrom(c, buckets, now);
    PrefixOrdered(c, buckets, kept);
    if kept != [] {
      UpStep(c.duration, kept[0].begin, now);
      KeptAreLive(c, buckets, now);
      NothingTruncated(c, kept, UpFrom(c.duration, kept[0].begin, now), now);
    }
  }

  lemma AddNewest<T>(c: Config, buckets: seq<Bucket<T>>, samples: seq<Sample<T>>, last: Sample<T>)
    requires Inv(c, buckets) && samples != [] && Agrees(c, buckets, samples)
    requires samples[|samples| - 1].now <= last.now && last.now >= buckets[0].begin + c.duration
    ensures Agrees(c, Add(c, buckets, last.value, last.now), samples + [last])
  {
    var now := last.now;
    var kept := Retained(c, buckets, now);
    assert (samples + [last])[..|samples|] == samples;
    var start := StartOf(c, samples + [last]);
    var b := Bucket(start, multiset{last.value});
    AddedInFront(c, buckets, last.value, now);
    var r := [b] + kept;
    assert Add(c, buckets, last.value, now) == r;
    forall at: nat | at >= now ensures Merged(c, r, at) == Listed(c, samples + [last], at) {
      MergedFirst(c, b, kept, at);
      MergedRetained(c, buckets, now, at);
    }
    forall x | x in r ensures x.begin >= 0 {
      RetainedFrom(c, buckets, now);
      if x != b { assert x in buckets; }
    }
  }

  lemma NewestNotFound<T>(c: Config, buckets: seq<Bucket<T>>, now: int)
    requires c.Ok() && Ordered(c, buckets) && buckets != [] && now >= buckets[0].begin + c.duration
    ensures FindBucket(c, buckets, now).None?
  {
    if now == buckets[0].begin + c.duration && |buckets| > 1 {
      assert buckets[1..][0] == buckets[1];
    }
  }

  lemma UpStep(d: int, begin: int, now: int)
    requires d > 0 && begin + d <= now
    ensures UpFrom(d, begin, now) >= begin + d
  {
  }

  lemma {:induction false} BucketsAgree<T>(c: Config, samples: seq<Sample<T>>)
    requires c.Ok() && samples != [] && Monotone(samples)
    ensures Agrees(c, Buckets(c, samples), samples)
  {
    var front, last := samples[..|samples| - 1], samples[|samples| - 1];
    assert samples == front + [last];
    if front == [] {
      FirstSample(c, last);
    } else {
      BucketsAgree(c, front);
      BucketsInv(c, front);
      if last.now < Buckets(c, front)[0].begin + c.duration {
        AddToNewest(c, Buckets(c, front), front, last);
      } else {
        AddNewest(c, Buckets(c, front), front, last);
      }
    }
  }

  lemma FirstSample<T>(c: Config, last: Sample<T>)
    requires c.Ok()
    ensures Agrees(c, Add(c, [], last.value, last.now), [last])
  {
    var b := Bucket(last.now, multiset{last.value});
    assert Add(c, [], last.value, last.now) == [b];
    assert [last][..0] == [] && [b][..0] == [];
  }

  /** With timestamps that never go back, truncation loses nothing: a snapshot at or after
      the last sample is what filtering the list of all samples by start would give. */
  lemma SnapshotIsFilteredList<T>(c: Config, samples: seq<Sample<T>>, at: nat)
    requires c.Ok() && Monotone(samples) && forall s :: s in samples ==> s.now <= at
    ensures Merged(c, Buckets(c, samples), at) == Listed(c, samples, at)
  {
    if samples != [] {
      assert samples[|samples| - 1] in samples;
      BucketsAgree(c, samples);
    }
  }

  // ------------------------------------------------------------------ the object

  class RollingSummary<T(==)> {
    const config: Config
    var buckets: seq<Bucket<T>>
    var count: nat

    constructor (maxBuckets: nat, duration: nat)
      requires maxBuckets > 0 && duration > 0
      ensures config == Config(maxBuckets, duration) && Valid() && buckets == [] && count == 0
    {
      config := Config(maxBuckets, duration);
      buckets, count := [], 0;
    }

    ghost predicate Valid()
      reads this
    {
      Inv(config, buckets)
    }

    method AddSample(value: T, now: nat)
      requires Valid()
      modifies this
      ensures Valid() && count == old(count) + 1
      ensures buckets == Add(config, old(buckets), value, now)
    {
      AddInv(config, buckets, value, now);
      count := count + 1;
      var added := AddToBucket(value, now);
      if added {
        return;
      }
      RetainLive(now);
      NotInNewest(config, old(buckets), now);
      PushNew(value, now);
    }

    /** The search loop. */
    method AddToBucket(value: T, now: nat) returns (added: bool)
      modifies this`buckets
      ensures added == FindBucket(config, old(buckets), now).Some?
      ensures added ==> buckets == Add(config, old(buckets), value, now)
      ensures !added ==> buckets == old(buckets)
      requires config.Ok()
    {
      var i := 0;
      while i < |buckets|
        invariant 0 <= i <= |buckets| && buckets == old(buckets)
        invariant FindBucket(config, buckets, now)
          == Later(FindBucket(config, buckets[i..], now), i)
      {
        var bucket := buckets[i];
        assert buckets[i..][0] == bucket && buckets[i..][1..] == buckets[i + 1..];
        if now > bucket.begin + config.duration {
          return false;
        }
        if bucket.begin <= now < bucket.begin + config.duration {
          buckets := buckets[i := bucket.(summary := bucket.summary + multiset{value})];
          return true;
        }
        i := i + 1;
      }
      return false;
    }

    method RetainLive(now: nat)
      modifies this`buckets
      ensures buckets == Retained(config, old(buckets), now)
    {
      var kept := [];
      for i := 0 to |buckets|
        invariant kept == Retained(config, buckets[..i], now)
      {
        assert buckets[..i + 1][..i] == buckets[..i];
        if config.Live(buckets[i].begin, now) { kept := kept + [buckets[i]]; }
      }
      assert buckets[..|buckets|] == buckets;
      buckets := kept;
    }

    method PushNew(value: T, now: nat)
      requires config.Ok()
      requires buckets != [] && now > buckets[0].begin ==> now >= buckets[0].begin + config.duration
      requires buckets != [] ==> now != buckets[0].begin
      modifies this`buckets
      ensures buckets == NewBucket(config, old(buckets), value, now)
    {
      if buckets == [] {
        buckets := [Bucket(now, multiset{value})];
        return;
      }
      var reftime := buckets[0].begin;
      var begin;
      if now > reftime {
        begin := reftime + config.duration;
        var end := begin + config.duration;
        while now < begin || now >= end
          invariant end == begin + config.duration && begin <= now
          invariant UpFrom(config.duration, begin, now) == UpFrom(config.duration, reftime, now)
          decreases now - begin
        {
          begin := begin + config.duration;
          end := end + config.duration;
        }
        buckets := [Bucket(begin, multiset{value})] + Truncate(buckets, config.maxBuckets - 1);
      } else {
        begin := reftime - config.duration;
        while now < begin
          invariant now < begin + config.duration
          invariant DownFrom(config.duration, begin, now) == DownFrom(config.duration, reftime, now)
          decreases begin - now
        {
          begin := begin - config.duration;
        }
        buckets := InsertSorted(Truncate(buckets, config.maxBuckets - 1), Bucket(begin, multiset{value}));
      }
    }

    method Snapshot(now: nat) returns (acc: multiset<T>)
      ensures acc == Merged(config, buckets, now)
    {
      acc := multiset{};
      for i := 0 to |buckets|
        invariant acc == Merged(config, buckets[..i], now)
      {
        assert buckets[..i + 1][..i] == buckets[..i];
        if config.Live(buckets[i].begin, now) { acc := acc + buckets[i].summary; }
      }
      assert buckets[..|buckets|] == buckets;
    }
  }

  lemma NotInNewest<T>(c: Config, buckets: seq<Bucket<T>>, now: nat)
    requires Inv(c, buckets) && FindBucket(c, buckets, now).None?
    ensures var kept := Retained(c, buckets, now);
      kept != [] ==> now >= kept[0].begin + c.duration || now < kept[0].begin
  {
    RetainedFrom(c, buckets, now);
    if Retained(c, buckets, now) != [] { NotFound(c, buckets, now, 0); }
  }

  ghost function Later(r: Option<nat>, i: nat): Option<nat> {
    if r.Some? then Some(r.value + i) else None
  }
}
