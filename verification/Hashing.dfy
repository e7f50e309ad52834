/** The bytes under every digest: length prefixes and domain separation
    (flarch/src/nodeids.rs). */
module Hashing {
  import opened Prelude

  type Byte = b: int | 0 <= b < 256

  type Bytes = seq<Byte>

  // ---------------------------------------------------------------- numbers

  function Pow256(n: nat): nat { if n == 0 then 1 else 256 * Pow256(n - 1) }

  /** The last n bytes of a number, the most significant first. */
  function BeBytes(i: nat, n: nat): (r: Bytes)
    ensures |r| == n
  {
    if n == 0 then [] else BeBytes(i / 256, n - 1) + [i % 256]
  }

  function SkipZeros(s: Bytes): (r: Bytes)
    ensures |r| <= |s|
  {
    if s == [] || s[0] != 0 then s else SkipZeros(s[1..])
  }

  /** The number that some bytes are. */
  function Value(s: Bytes): nat {
    if s == [] then 0 else 256 * Value(s[..|s| - 1]) + s[|s| - 1]
  }

  /** A usize of 64 bits as the source writes it. */
  function ToVarint(i: nat): Bytes {
    if i < 0x80 then [i]
    else
      var out := SkipZeros(BeBytes(i, 8));
      [0x80 + |out|] + out
  }

  /** A reader for what ToVarint writes: the number and the bytes after it. */
  function FromVarint(s: Bytes): Option<(nat, Bytes)> {
    if s == [] then None
    else if s[0] < 0x80 then Some((s[0], s[1..]))
    else
      var len := s[0] - 0x80;
      if |s| < 1 + len then None else Some((Value(s[1..1 + len]), s[1 + len..]))
  }

  lemma {:induction false} ValueOfBeBytes(i: nat, n: nat)
    requires i < Pow256(n)
    ensures Value(BeBytes(i, n)) == i
  {
    if n > 0 {
      ValueOfBeBytes(i / 256, n - 1);
      assert BeBytes(i, n)[..n - 1] == BeBytes(i / 256, n - 1);
    }
  }

  lemma {:induction false} ValueWithZero(s: Bytes)
    ensures Value([0] + s) == Value(s)
  {
    if s != [] {
      assert ([0] + s)[..|s|] == [0] + s[..|s| - 1];
      ValueWithZero(s[..|s| - 1]);
    }
  }

  lemma {:induction false} ValueSkipsZeros(s: Bytes)
    ensures Value(SkipZeros(s)) == Value(s)
  {
    if s != [] && s[0] == 0 {
      ValueSkipsZeros(s[1..]);
      ValueWithZero(s[1..]);
      assert [0] + s[1..] == s;
    }
  }

  /** What was written is read back, whatever follows it. */
  lemma VarintRoundTrip(i: nat, rest: Bytes)
    requires i < Pow256(8)
    ensures FromVarint(ToVarint(i) + rest) == Some((i, rest))
  {
    if i < 0x80 {
      assert ([i] + rest)[1..] == rest;
    } else {
      var out := SkipZeros(BeBytes(i, 8));
      ValueOfBeBytes(i, 8);
      ValueSkipsZeros(BeBytes(i, 8));
      var s := [0x80 + |out|] + out + rest;
      assert ToVarint(i) + rest == s;
      assert s[1..1 + |out|] == out && s[1 + |out|..] == rest;
    }
  }

  /** No length is a prefix of another one, and none is written in two ways. */
  lemma VarintPrefixFree(i: nat, j: nat, x: Bytes, y: Bytes)
    requires i < Pow256(8) && j < Pow256(8) && ToVarint(i) + x == ToVarint(j) + y
    ensures i == j && x == y
  {
    VarintRoundTrip(i, x);
    VarintRoundTrip(j, y);
  }

  lemma {:induction false} ValueBelow(s: Bytes)
    ensures Value(s) < Pow256(|s|)
  {
    if s != [] { ValueBelow(s[..|s| - 1]); }
  }

  lemma {:induction false} ValueAtLeast(s: Bytes)
    requires s != [] && s[0] != 0
    ensures Value(s) >= Pow256(|s| - 1)
  {
    if |s| == 1 {
      assert s[..0] == [];
    } else {
      ValueAtLeast(s[..|s| - 1]);
    }
  }

  lemma {:induction false} Pow256Grows(m: nat, n: nat)
    ensures m >= n ==> Pow256(m) >= Pow256(n)
  {
    if m > n { Pow256Grows(m - 1, n); }
  }

  lemma {:induction false} NoLeadingZero(s: Bytes)
    ensures SkipZeros(s) == [] || SkipZeros(s)[0] != 0
  {
    if s != [] && s[0] == 0 { NoLeadingZero(s[1..]); }
  }

  /** No bytes that are read as a length are shorter than the written ones. */
  lemma VarintIsShortest(i: nat, s: Bytes)
    requires i < Pow256(8) && FromVarint(s) == Some((i, []))
    ensures |ToVarint(i)| <= |s|
  {
    if i >= 0x80 {
      var out := SkipZeros(BeBytes(i, 8));
      ValueOfBeBytes(i, 8);
      ValueSkipsZeros(BeBytes(i, 8));
      NoLeadingZero(BeBytes(i, 8));
      ValueAtLeast(out);
      ValueBelow(s[1..]);
      Pow256Grows(|out| - 1, |s| - 1);
      assert s[1..] == s[1..1 + (s[0] - 0x80)];
    }
  }

  // ------------------------------------------------------------------ parts

  function Prefixed(part: Bytes): Bytes { ToVarint(|part|) + part }

  function AllPrefixed(parts: seq<Bytes>): Bytes {
    if parts == [] then [] else AllPrefixed(parts[..|parts| - 1]) + Prefixed(parts[|parts| - 1])
  }

  /** What the hasher is fed for a domain and its parts. */
  function Feed(domain: Bytes, parts: seq<Bytes>): Bytes {
    Prefixed(domain) + ToVarint(|parts|) + AllPrefixed(parts)
  }

  function ReadPart(s: Bytes): Option<(Bytes, Bytes)> {
    var len := FromVarint(s);
    if len.None? || |len.value.1| < len.value.0 then None
    else Some((len.value.1[..len.value.0], len.value.1[len.value.0..]))
  }

  function ReadParts(n: nat, s: Bytes): Option<(seq<Bytes>, Bytes)> {
    if n == 0 then Some(([], s))
    else
      var first := ReadPart(s);
      if first.None? then None
      else
        var more := ReadParts(n - 1, first.value.1);
        if more.None? then None else Some(([first.value.0] + more.value.0, more.value.1))
  }

  /** A reader for Feed, which also gives what follows. */
  function ReadFeed(s: Bytes): Option<(Bytes, seq<Bytes>, Bytes)> {
    var domain := ReadPart(s);
    if domain.None? then None
    else
      var n := FromVarint(domain.value.1);
      if n.None? then None
      else
        var parts := ReadParts(n.value.0, n.value.1);
        if parts.None? then None else Some((domain.value.0, parts.value.0, parts.value.1))
  }

  /** All sizes fit into 64 bits. */
  ghost predicate Sized(parts: seq<Bytes>) {
    |parts| < Pow256(8) && forall i :: 0 <= i < |parts| ==> |parts[i]| < Pow256(8)
  }

  lemma PartRoundTrip(part: Bytes, rest: Bytes)
    requires |part| < Pow256(8)
    ensures ReadPart(Prefixed(part) + rest) == Some((part, rest))
  {
    assert Prefixed(part) + rest == ToVarint(|part|) + (part + rest);
    VarintRoundTrip(|part|, part + rest);
    assert (part + rest)[..|part|] == part && (part + rest)[|part|..] == rest;
  }

  lemma {:induction false} AllPrefixedFirst(parts: seq<Bytes>)
    requires parts != []
    ensures AllPrefixed(parts) == Prefixed(parts[0]) + AllPrefixed(parts[1..])
  {
    if |parts| == 1 {
      assert parts[..0] == [] && parts[1..] == [];
    } else {
      var front := parts[..|parts| - 1];
      AllPrefixedFirst(front);
      assert front[1..] == parts[1..][..|parts| - 2];
      Regroup(Prefixed(parts[0]), AllPrefixed(front[1..]), Prefixed(parts[|parts| - 1]));
    }
  }

  lemma Regroup(a: Bytes, b: Bytes, c: Bytes)
    ensures a + b + c == a + (b + c)
  {
  }

  lemma ReadPartsStep(n: nat, s: Bytes, first: Bytes, tail: Bytes, more: seq<Bytes>, rest: Bytes)
    requires n > 0 && ReadPart(s) == Some((first, tail)) && ReadParts(n - 1, tail) == Some((more, rest))
    ensures ReadParts(n, s) == Some(([first] + more, rest))
  {
  }

  lemma {:induction false} PartsRoundTrip(parts: seq<Bytes>, rest: Bytes)
    requires Sized(parts)
    ensures ReadParts(|parts|, AllPrefixed(parts) + rest) == Some((parts, rest))
  {
    if parts == [] {
      assert AllPrefixed(parts) + rest == rest;
    } else {
      AllPrefixedFirst(parts);
      var tail := AllPrefixed(parts[1..]) + rest;
      Regroup(Prefixed(parts[0]), AllPrefixed(parts[1..]), rest);
      PartRoundTrip(parts[0], tail);
      PartsRoundTrip(parts[1..], rest);
      ReadPartsStep(|parts|, AllPrefixed(parts) + rest, parts[0], tail, parts[1..], rest);
      assert [parts[0]] + parts[1..] == parts;
    }
  }

  /** The bytes determine the domain and the exact list of parts. */
  lemma FeedRoundTrip(domain: Bytes, parts: seq<Bytes>, rest: Bytes)
    requires |domain| < Pow256(8) && Sized(parts)
    ensures ReadFeed(Feed(domain, parts) + rest) == Some((domain, parts, rest))
  {
    var tail := AllPrefixed(parts) + rest;
    assert Feed(domain, parts) + rest == Prefixed(domain) + (ToVarint(|parts|) + tail);
    PartRoundTrip(domain, ToVarint(|parts|) + tail);
    VarintRoundTrip(|parts|, tail);
    PartsRoundTrip(parts, rest);
  }

  /** So different inputs never feed the same bytes, not even up to a continuation. */
  lemma FeedInjective(d: Bytes, ps: seq<Bytes>, x: Bytes, e: Bytes, qs: seq<Bytes>, y: Bytes)
    requires |d| < Pow256(8) && Sized(ps) && |e| < Pow256(8) && Sized(qs)
    requires Feed(d, ps) + x == Feed(e, qs) + y
    ensures d == e && ps == qs && x == y
  {
    FeedRoundTrip(d, ps, x);
    FeedRoundTrip(e, qs, y);
  }

  /** Plain data, hashed without a domain, is never confused with a domain and parts. */
  lemma DataIsNoDomain(data: Bytes, domain: Bytes, parts: seq<Bytes>)
    requires |data| < Pow256(8) && |domain| < Pow256(8) && Sized(parts)
    ensures Prefixed(data) != Feed(domain, parts)
  {
    var tail := ToVarint(|parts|) + AllPrefixed(parts);
    PartRoundTrip(data, []);
    PartRoundTrip(domain, tail);
    assert Prefixed(data) + [] == Prefixed(data) && Prefixed(domain) + tail == Feed(domain, parts);
    assert |tail| > 0;
  }

  // ----------------------------------------------------------------- hashing

  /** A hasher, by the bytes it was fed. */
  class Hasher {
    var fed: Bytes

    constructor ()
      ensures fed == []
    {
      fed := [];
    }

    method Update(data: Bytes)
      modifies this
      ensures fed == old(fed) + data
    {
      fed := fed + data;
    }
  }

  /** Two updates: the length, then the bytes. */
  method UpdatePrefixed(hasher: Hasher, data: Bytes)
    modifies hasher
    ensures hasher.fed == old(hasher.fed) + Prefixed(data)
  {
    hasher.Update(ToVarint(|data|));
    hasher.Update(data);
    Regroup(old(hasher.fed), ToVarint(|data|), data);
  }

  method HashDomainParts(domain: Bytes, parts: seq<Bytes>) returns (hasher: Hasher)
    ensures fresh(hasher) && hasher.fed == Feed(domain, parts)
  {
    hasher := new Hasher();
    UpdatePrefixed(hasher, domain);
    hasher.Update(ToVarint(|parts|));
    ghost var start := hasher.fed;
    for i := 0 to |parts|
      invariant fresh(hasher) && hasher.fed == start + AllPrefixed(parts[..i])
    {
      assert parts[..i + 1][..i] == parts[..i];
      UpdatePrefixed(hasher, parts[i]);
      Regroup(start, AllPrefixed(parts[..i]), Prefixed(parts[i]));
    }
    assert parts[..|parts|] == parts;
  }

  method HashData(data: Bytes) returns (hasher: Hasher)
    ensures fresh(hasher) && hasher.fed == Prefixed(data)
  {
    hasher := new Hasher();
    UpdatePrefixed(hasher, data);
  }
}
