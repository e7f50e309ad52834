/** Conditions over signatures: thresholds of keys and badges (flcrypto/src/access.rs).
    A signature names its key and the digest it signs; it is valid for nothing else. */
module Access {
  import opened Prelude
  import opened NodeIds

  datatype VersionSpec = Minimal(id: Id, v: nat) | Exact(id: Id, v: nat) | Maximal(id: Id, v: nat)

  datatype Badge = MkBadge(id: Id, version: nat, condition: Condition)

  datatype Condition =
    | Verifier(key: Id)
    | Badge(spec: VersionSpec, badge: Badge)
    | NofT(t: nat, conds: seq<Condition>)
    | NotAvailable
    | Fail
    | Pass

  datatype ConditionLink =
    | VerifierLink(key: Id)
    | BadgeLink(spec: VersionSpec)
    | NofTLink(t: nat, links: seq<ConditionLink>)
    | FailLink
    | PassLink

  datatype Error = NoSuchSigner | SignatureMessageMismatch | InvalidSignature

  datatype Result<T> = Ok(value: T) | Err(error: Error)

  datatype Signature<D> = Signature(key: Id, digest: D)

  type Signatures<D> = map<Id, Signature<D>>

  datatype ConditionSignature<D> = ConditionSignature(condition: Condition, signatures: Signatures<D>)

  // ------------------------------------------------------------- verifying

  function VerifyKey<D(==)>(key: Id, sigs: Signatures<D>, digest: D): Result<bool> {
    if key !in sigs then Ok(false)
    else if sigs[key] == Signature(key, digest) then Ok(true)
    else Err(InvalidSignature)
  }

  function VerifyCond<D(==)>(cond: Condition, sigs: Signatures<D>, digest: D): Result<bool>
    decreases cond
  {
    match cond
    case Verifier(key) => VerifyKey(key, sigs, digest)
    case Badge(_, badge) => VerifyCond(badge.condition, sigs, digest)
    case NofT(t, conds) =>
      var correct := CountCorrect(conds, sigs, digest);
      if correct.Err? then Err(correct.error) else Ok(correct.value >= t)
    case NotAvailable => Ok(false)
    case Pass => Ok(true)
    case Fail => Ok(false)
  }

  /** The number of conditions that verify; the first error ends the counting. */
  function CountCorrect<D(==)>(conds: seq<Condition>, sigs: Signatures<D>, digest: D): Result<nat>
    decreases conds
  {
    if conds == [] then Ok(0)
    else
      var last := conds[|conds| - 1];
      var front := CountCorrect(conds[..|conds| - 1], sigs, digest);
      if front.Err? then front
      else
        var r := VerifyCond(last, sigs, digest);
        if r.Err? then Err(r.error) else Ok(front.value + (if r.value then 1 else 0))
  }

  method VerifyCondition<D(==)>(cond: Condition, sigs: Signatures<D>, digest: D) returns (r: Result<bool>)
    ensures r == VerifyCond(cond, sigs, digest)
    decreases cond
  {
    match cond {
      case Verifier(key) =>
        if key in sigs {
          if sigs[key] != Signature(key, digest) { return Err(InvalidSignature); }
          return Ok(true);
        }
        return Ok(false);
      case Badge(_, badge) =>
        r := VerifyCondition(badge.condition, sigs, digest);
      case NofT(t, conds) =>
        var correct := CountConditions(conds, sigs, digest);
        return if correct.Err? then Err(correct.error) else Ok(correct.value >= t);
      case NotAvailable => return Ok(false);
      case Pass => return Ok(true);
      case Fail => return Ok(false);
    }
  }

  method CountConditions<D(==)>(conds: seq<Condition>, sigs: Signatures<D>, digest: D) returns (r: Result<nat>)
    ensures r == CountCorrect(conds, sigs, digest)
    decreases conds
  {
    var correct := 0;
    for i := 0 to |conds|
      invariant CountCorrect(conds[..i], sigs, digest) == Ok(correct)
    {
      assert conds[..i + 1][..i] == conds[..i];
      var ok := VerifyCondition(conds[i], sigs, digest);
      if ok.Err? {
        ErrorStays(conds, i + 1, sigs, digest);
        return Err(ok.error);
      }
      if ok.value { correct := correct + 1; }
    }
    assert conds[..|conds|] == conds;
    return Ok(correct);
  }

  lemma {:induction false} ErrorStays<D>(conds: seq<Condition>, i: nat, sigs: Signatures<D>, digest: D)
    requires i <= |conds| && CountCorrect(conds[..i], sigs, digest).Err?
    ensures CountCorrect(conds, sigs, digest) == CountCorrect(conds[..i], sigs, digest)
    decreases |conds|
  {
    if i == |conds| {
      assert conds[..i] == conds;
    } else {
      assert conds[..|conds| - 1][..i] == conds[..i];
      ErrorStays(conds[..|conds| - 1], i, sigs, digest);
    }
  }

  // ------------------------------------------------------- what it means

  /** The threshold formula, given the keys that signed. */
  ghost predicate Satisfied(cond: Condition, signed: set<Id>)
    decreases cond, 0
  {
    match cond
    case Verifier(key) => key in signed
    case Badge(_, badge) => Satisfied(badge.condition, signed)
    case NofT(t, conds) => |SatisfiedIndices(conds, |conds|, signed)| >= t
    case NotAvailable => false
    case Pass => true
    case Fail => false
  }

  /** Which of the first n conditions are satisfied. */
  ghost function SatisfiedIndices(conds: seq<Condition>, n: nat, signed: set<Id>): set<int>
    requires n <= |conds|
    decreases conds, n
  {
    set i | 0 <= i < n && Satisfied(conds[i], signed)
  }

  /** The keys a condition looks at. */
  ghost function Keys(cond: Condition): set<Id>
    decreases cond
  {
    match cond
    case Verifier(key) => {key}
    case Badge(_, badge) => Keys(badge.condition)
    case NofT(_, conds) => set i, k | 0 <= i < |conds| && k in Keys(conds[i]) :: k
    case _ => {}
  }

  ghost predicate Bad<D(!new)>(cond: Condition, sigs: Signatures<D>, digest: D) {
    exists k :: k in Keys(cond) && k in sigs && sigs[k] != Signature(k, digest)
  }

  /** Verification fails if and only if one of the condition's keys has an invalid signature;
      otherwise it computes the threshold formula over the keys that signed. */
  lemma {:induction false} VerifyIsFormula<D(!new)>(cond: Condition, sigs: Signatures<D>, digest: D)
    ensures VerifyCond(cond, sigs, digest).Err? <==> Bad(cond, sigs, digest)
    ensures !Bad(cond, sigs, digest) ==> VerifyCond(cond, sigs, digest) == Ok(Satisfied(cond, sigs.Keys))
    decreases cond
  {
    match cond
    case Verifier(key) =>
    case Badge(_, badge) => VerifyIsFormula(badge.condition, sigs, digest);
    case NofT(t, conds) => CountIsFormula(conds, |conds|, sigs, digest); assert conds[..|conds|] == conds;
    case _ =>
  }

  lemma {:induction false} CountIsFormula<D(!new)>(conds: seq<Condition>, n: nat, sigs: Signatures<D>, digest: D)
    requires n <= |conds|
    ensures CountCorrect(conds[..n], sigs, digest).Err? <==> exists i :: 0 <= i < n && Bad(conds[i], sigs, digest)
    ensures (forall i :: 0 <= i < n ==> !Bad(conds[i], sigs, digest)) ==>
      CountCorrect(conds[..n], sigs, digest) == Ok(|SatisfiedIndices(conds, n, sigs.Keys)|)
    decreases conds, n
  {
    if n > 0 {
      assert conds[..n][..n - 1] == conds[..n - 1];
      CountIsFormula(conds, n - 1, sigs, digest);
      VerifyIsFormula(conds[n - 1], sigs, digest);
      OneMoreIndex(conds, n, sigs.Keys);
    } else {
      assert SatisfiedIndices(conds, 0, sigs.Keys) == {};
    }
  }

  lemma OneMoreIndex(conds: seq<Condition>, n: nat, signed: set<Id>)
    requires 0 < n <= |conds|
    ensures |SatisfiedIndices(conds, n, signed)|
      == |SatisfiedIndices(conds, n - 1, signed)| + (if Satisfied(conds[n - 1], signed) then 1 else 0)
  {
    var s, r := SatisfiedIndices(conds, n, signed), SatisfiedIndices(conds, n - 1, signed);
    assert s == if Satisfied(conds[n - 1], signed) then r + {n - 1} else r;
  }

  /** More signers never break a condition. */
  lemma {:induction false} Monotone(cond: Condition, s: set<Id>, t: set<Id>)
    requires s <= t && Satisfied(cond, s)
    ensures Satisfied(cond, t)
    decreases cond
  {
    match cond
    case Badge(_, badge) => Monotone(badge.condition, s, t);
    case NofT(n, conds) =>
      var a := SatisfiedIndices(conds, |conds|, s);
      var b := SatisfiedIndices(conds, |conds|, t);
      forall i | i in a ensures i in b { Monotone(conds[i], s, t); }
      assert b == a + (b - a);
    case _ =>
  }

  /** Keys outside the condition do not matter. */
  lemma {:induction false} OnlyItsKeys(cond: Condition, s: set<Id>)
    ensures Satisfied(cond, s) <==> Satisfied(cond, s * Keys(cond))
    decreases cond
  {
    match cond
    case Badge(_, badge) => OnlyItsKeys(badge.condition, s);
    case NofT(n, conds) =>
      forall i | 0 <= i < |conds| ensures Satisfied(conds[i], s) <==> Satisfied(conds[i], s * Keys(cond)) {
        var own := Keys(conds[i]);
        assert own <= Keys(cond);
        OnlyItsKeys(conds[i], s);
        OnlyItsKeys(conds[i], s * Keys(cond));
        assert s * Keys(cond) * own == s * own;
      }
      assert SatisfiedIndices(conds, |conds|, s) == SatisfiedIndices(conds, |conds|, s * Keys(cond));
    case _ =>
  }

  // ------------------------------------------------------------- signing

  predicate HasVerifier(cond: Condition, vid: Id)
    decreases cond
  {
    match cond
    case Verifier(key) => key == vid
    case Badge(_, badge) => HasVerifier(badge.condition, vid)
    case NofT(_, conds) => exists i :: 0 <= i < |conds| && HasVerifier(conds[i], vid)
    case NotAvailable => false
    case Pass => true
    case Fail => false
  }

  /** Some part of the condition is satisfied by anybody. */
  ghost predicate HasPass(cond: Condition)
    decreases cond
  {
    match cond
    case Badge(_, badge) => HasPass(badge.condition)
    case NofT(_, conds) => exists i :: 0 <= i < |conds| && HasPass(conds[i])
    case Pass => true
    case _ => false
  }

  /** Let in are exactly the condition's own keys, and all keys if some part is pass. */
  lemma {:induction false} HasVerifierIff(cond: Condition, vid: Id)
    ensures HasVerifier(cond, vid) <==> vid in Keys(cond) || HasPass(cond)
    decreases cond
  {
    match cond
    case Badge(_, badge) => HasVerifierIff(badge.condition, vid);
    case NofT(_, conds) =>
      forall i | 0 <= i < |conds| ensures HasVerifier(conds[i], vid) <==> vid in Keys(conds[i]) || HasPass(conds[i]) {
        HasVerifierIff(conds[i], vid);
      }
    case _ =>
  }

  /** Whether one signer, or none, is enough. */
  predicate CanSign(cond: Condition, vid: Option<Id>)
    decreases cond
  {
    if vid.None? then cond == Pass
    else match cond
      case Verifier(key) => key == vid.value
      case Badge(_, badge) => CanSign(badge.condition, vid)
      case NofT(t, conds) => (exists i :: 0 <= i < |conds| && CanSign(conds[i], vid)) && t == 1
      case NotAvailable => false
      case Pass => true
      case Fail => false
  }

  function SignDigest<D>(cs: ConditionSignature<D>, key: Id, digest: D): Result<ConditionSignature<D>> {
    if !HasVerifier(cs.condition, key) then Err(NoSuchSigner)
    else Ok(cs.(signatures := cs.signatures[key := Signature(key, digest)]))
  }

  function SignersDigest<D>(cs: ConditionSignature<D>, keys: seq<Id>, digest: D): Result<ConditionSignature<D>> {
    if keys == [] then Ok(cs)
    else
      var front := SignersDigest(cs, keys[..|keys| - 1], digest);
      if front.Err? then front else SignDigest(front.value, keys[|keys| - 1], digest)
  }

  function VerifyDigest<D(==)>(cs: ConditionSignature<D>, digest: D): Result<bool> {
    VerifyCond(cs.condition, cs.signatures, digest)
  }

  lemma {:induction false} CanSignSatisfies(cond: Condition, vid: Id)
    requires CanSign(cond, Some(vid))
    ensures (vid in Keys(cond) || HasPass(cond)) && Satisfied(cond, {vid})
    decreases cond
  {
    match cond
    case Badge(_, badge) => CanSignSatisfies(badge.condition, vid);
    case NofT(t, conds) =>
      var i :| 0 <= i < |conds| && CanSign(conds[i], Some(vid));
      CanSignSatisfies(conds[i], vid);
      var s := SatisfiedIndices(conds, |conds|, {vid});
      assert s == {i} + (s - {i});
    case _ =>
  }

  /** What can_sign promises: this one signer's signature is accepted, and with it,
      added to whatever valid signatures there are, the condition verifies. */
  lemma CanSignIsEnough<D(!new)>(cs: ConditionSignature<D>, vid: Id, digest: D)
    requires CanSign(cs.condition, Some(vid))
    requires forall k :: k in cs.signatures ==> cs.signatures[k] == Signature(k, digest)
    ensures var r := SignDigest(cs, vid, digest);
      r.Ok? && VerifyDigest(r.value, digest) == Ok(true)
  {
    CanSignSatisfies(cs.condition, vid);
    HasVerifierIff(cs.condition, vid);
    var signed := SignDigest(cs, vid, digest).value;
    VerifyIsFormula(signed.condition, signed.signatures, digest);
    Monotone(cs.condition, {vid}, signed.signatures.Keys);
  }

  /** Without a signer it accepts just pass, though other conditions verify unsigned as well. */
  lemma NobodyCanSign<D(!new)>(cond: Condition, digest: D)
    ensures CanSign(cond, None) <==> cond.Pass?
    ensures CanSign(cond, None) ==> VerifyDigest(ConditionSignature(cond, map[]), digest) == Ok(true)
    ensures var empty := NofT(0, []);
      !CanSign(empty, None) && VerifyDigest(ConditionSignature(empty, map[]), digest) == Ok(true)
  {
    VerifyIsFormula(NofT(0, []), map[], digest);
  }

  /** The conditions on which can_sign refuses a signer who would be enough: a threshold
      other than one which the signer reaches, or a threshold of one where no part accepts
      the signer but some part is such a condition itself. */
  ghost predicate Refused(cond: Condition, vid: Id)
    decreases cond
  {
    match cond
    case Badge(_, badge) => Refused(badge.condition, vid)
    case NofT(t, conds) =>
      if t == 1 then
        && (forall i :: 0 <= i < |conds| ==> !CanSign(conds[i], Some(vid)))
        && exists i :: 0 <= i < |conds| && Refused(conds[i], vid)
      else |SatisfiedIndices(conds, |conds|, {vid})| >= t
    case _ => false
  }

  /** can_sign answers whether the one signer is enough, except exactly there. */
  lemma {:induction false} CanSignIff(cond: Condition, vid: Id)
    ensures Satisfied(cond, {vid}) <==> CanSign(cond, Some(vid)) || Refused(cond, vid)
    ensures !(CanSign(cond, Some(vid)) && Refused(cond, vid))
    decreases cond
  {
    match cond
    case Badge(_, badge) => CanSignIff(badge.condition, vid);
    case NofT(t, conds) =>
      var s := SatisfiedIndices(conds, |conds|, {vid});
      forall i | 0 <= i < |conds|
        ensures i in s <==> CanSign(conds[i], Some(vid)) || Refused(conds[i], vid)
      {
        CanSignIff(conds[i], vid);
      }
      if i :| i in s { assert s == {i} + (s - {i}); }
    case _ =>
  }

  lemma CanSignIsExactIff(cond: Condition, vid: Id)
    ensures (CanSign(cond, Some(vid)) <==> Satisfied(cond, {vid})) <==> !Refused(cond, vid)
  {
    CanSignIff(cond, vid);
  }

  /** The signer is let in, and with its signature alone the condition verifies. */
  ghost predicate IsEnough<D(!new)>(cond: Condition, vid: Id, digest: D) {
    var r := SignDigest(ConditionSignature(cond, map[]), vid, digest);
    r.Ok? && VerifyDigest(r.value, digest) == Ok(true)
  }

  lemma IsEnoughIff<D(!new)>(cond: Condition, vid: Id, digest: D)
    ensures IsEnough(cond, vid, digest) <==> (vid in Keys(cond) || HasPass(cond)) && Satisfied(cond, {vid})
  {
    HasVerifierIff(cond, vid);
    if HasVerifier(cond, vid) {
      var signed := SignDigest(ConditionSignature(cond, map[]), vid, digest).value;
      SignedVerifies(signed, {vid}, digest);
    }
  }

  /** Exactly when can_sign answers whether a signer can sign and make the condition verify. */
  lemma CanSignDecidesIff<D(!new)>(cond: Condition, vid: Id, digest: D)
    ensures (CanSign(cond, Some(vid)) <==> IsEnough(cond, vid, digest))
      <==> !(Refused(cond, vid) && (vid in Keys(cond) || HasPass(cond)))
  {
    CanSignIff(cond, vid);
    IsEnoughIff(cond, vid, digest);
    if CanSign(cond, Some(vid)) { CanSignSatisfies(cond, vid); }
  }

  /** Only thresholds of one. */
  ghost predicate OneOfEach(cond: Condition)
    decreases cond
  {
    match cond
    case Badge(_, badge) => OneOfEach(badge.condition)
    case NofT(t, conds) => t == 1 && forall i :: 0 <= i < |conds| ==> OneOfEach(conds[i])
    case _ => true
  }

  lemma {:induction false} OneOfEachIsNotRefused(cond: Condition, vid: Id)
    requires OneOfEach(cond)
    ensures !Refused(cond, vid)
    decreases cond
  {
    match cond
    case Badge(_, badge) => OneOfEachIsNotRefused(badge.condition, vid);
    case NofT(_, conds) =>
      forall i | 0 <= i < |conds| ensures !Refused(conds[i], vid) { OneOfEachIsNotRefused(conds[i], vid); }
    case _ =>
  }

  /** So it is exact for every signer where all thresholds are one. */
  lemma CanSignIsExact(cond: Condition, vid: Id)
    requires OneOfEach(cond)
    ensures CanSign(cond, Some(vid)) <==> Satisfied(cond, {vid})
  {
    OneOfEachIsNotRefused(cond, vid);
    CanSignIsExactIff(cond, vid);
  }

  /** And it refuses the holder of a key that is asked for twice. */
  lemma CanSignRefusesTwice(k: Id)
    ensures var c := NofT(2, [Verifier(k), Verifier(k)]);
      Satisfied(c, {k}) && !CanSign(c, Some(k))
  {
    var c := NofT(2, [Verifier(k), Verifier(k)]);
    assert SatisfiedIndices(c.conds, 2, {k}) == {0, 1};
    assert Refused(c, k);
    CanSignIff(c, k);
  }

  ghost predicate AllVerifiers(cond: Condition, keys: seq<Id>) {
    forall k :: k in keys ==> k in Keys(cond) || HasPass(cond)
  }

  ghost predicate SignedBy<D>(cs: ConditionSignature<D>, keys: set<Id>, digest: D) {
    cs.signatures.Keys == keys && forall k :: k in keys ==> cs.signatures[k] == Signature(k, digest)
  }

  /** Signing succeeds exactly when every signer is a key of the condition, or that has a pass;
      then the signatures of just these signers are there, and valid. */
  lemma {:induction false} SignersSign<D>(cond: Condition, keys: seq<Id>, digest: D)
    ensures var r := SignersDigest(ConditionSignature(cond, map[]), keys, digest);
      && (r.Ok? <==> AllVerifiers(cond, keys))
      && (r.Ok? ==> r.value.condition == cond && SignedBy(r.value, Elements(keys), digest))
  {
    if keys != [] {
      var front, last := keys[..|keys| - 1], keys[|keys| - 1];
      assert keys == front + [last];
      SignersSign(cond, front, digest);
      HasVerifierIff(cond, last);
    }
  }

  lemma SignedVerifies<D(!new)>(cs: ConditionSignature<D>, keys: set<Id>, digest: D)
    requires SignedBy(cs, keys, digest)
    ensures VerifyDigest(cs, digest) == Ok(Satisfied(cs.condition, keys))
  {
    VerifyIsFormula(cs.condition, cs.signatures, digest);
  }

  // --------------------------------------------------------------- links

  /** None where the source has no link: it panics on an unavailable condition. */
  function ToLink(cond: Condition): Option<ConditionLink>
    decreases cond
  {
    match cond
    case Verifier(key) => Some(VerifierLink(key))
    case Badge(spec, _) => Some(BadgeLink(spec))
    case NofT(t, conds) =>
      var links := ToLinks(conds);
      if links.None? then None else Some(NofTLink(t, links.value))
    case NotAvailable => None
    case Pass => Some(PassLink)
    case Fail => Some(FailLink)
  }

  function ToLinks(conds: seq<Condition>): (r: Option<seq<ConditionLink>>)
    ensures r.Some? ==> |r.value| == |conds|
    decreases conds
  {
    if conds == [] then Some([])
    else
      var first := ToLink(conds[0]);
      var rest := ToLinks(conds[1..]);
      if first.None? || rest.None? then None else Some([first.value] + rest.value)
  }

  predicate Accepts(spec: VersionSpec, version: nat) {
    match spec
    case Minimal(_, v) => v <= version
    case Exact(_, v) => v == version
    case Maximal(_, v) => v >= version
  }

  predicate EqualLink(cond: Condition, link: ConditionLink)
    decreases link, cond
  {
    match link
    case VerifierLink(key) => cond == Verifier(key)
    case BadgeLink(spec) =>
      cond.Badge? && spec.id == cond.badge.id && Accepts(spec, cond.badge.version)
      && EqualLink(cond.badge.condition, link) && spec == cond.spec
    case NofTLink(_, links) => forall i :: 0 <= i < |links| ==> EqualLink(cond, links[i])
    case PassLink => cond == Pass
    case FailLink => cond == Fail
  }

  /** No link to a badge is ever found equal. */
  lemma {:induction false} BadgeNeverEqual(cond: Condition, spec: VersionSpec)
    ensures !EqualLink(cond, BadgeLink(spec))
    decreases cond
  {
    if cond.Badge? { BadgeNeverEqual(cond.badge.condition, spec); }
  }

  /** Nested thresholds without a single key, badge, pass or fail. */
  predicate Leafless(cond: Condition)
    decreases cond
  {
    cond.NofT? && forall i :: 0 <= i < |cond.conds| ==> Leafless(cond.conds[i])
  }

  predicate LeaflessLink(link: ConditionLink)
    decreases link
  {
    link.NofTLink? && forall i :: 0 <= i < |link.links| ==> LeaflessLink(link.links[i])
  }

  /** A threshold is found equal only to links without leaves. */
  lemma {:induction false} NofTEqual(cond: Condition, link: ConditionLink)
    requires cond.NofT?
    ensures EqualLink(cond, link) <==> LeaflessLink(link)
    decreases link
  {
    match link
    case NofTLink(_, links) =>
      forall i | 0 <= i < |links| ensures EqualLink(cond, links[i]) <==> LeaflessLink(links[i]) {
        NofTEqual(cond, links[i]);
      }
    case _ =>
  }

  lemma {:induction false} ToLinksAt(conds: seq<Condition>, i: nat)
    requires i < |conds| && ToLinks(conds).Some?
    ensures ToLink(conds[i]) == Some(ToLinks(conds).value[i])
  {
    if i > 0 { ToLinksAt(conds[1..], i - 1); }
  }

  lemma {:induction false} LeaflessLinked(cond: Condition)
    requires ToLink(cond).Some?
    ensures LeaflessLink(ToLink(cond).value) <==> Leafless(cond)
    decreases cond
  {
    if cond.NofT? {
      var links := ToLinks(cond.conds).value;
      forall i | 0 <= i < |links| ensures LeaflessLink(links[i]) <==> Leafless(cond.conds[i]) {
        ToLinksAt(cond.conds, i);
        LeaflessLinked(cond.conds[i]);
      }
    }
  }

  /** Exactly which conditions are found equal to their own link. */
  lemma EqualToOwnLink(cond: Condition)
    requires ToLink(cond).Some?
    ensures EqualLink(cond, ToLink(cond).value) <==>
      (cond.Verifier? || cond.Pass? || cond.Fail? || Leafless(cond))
  {
    match cond
    case Badge(spec, _) => BadgeNeverEqual(cond, spec);
    case NofT(_, _) =>
      NofTEqual(cond, ToLink(cond).value);
      LeaflessLinked(cond);
    case _ =>
  }

  // ------------------------------------------------ which links are found equal

  /** The keys, badges, passes and fails inside nested thresholds. */
  ghost function Leaves(link: ConditionLink): set<ConditionLink>
    decreases link
  {
    match link
    case NofTLink(_, links) => LeavesOf(links)
    case _ => {link}
  }

  ghost function LeavesOf(links: seq<ConditionLink>): set<ConditionLink>
    decreases links
  {
    set i, l | 0 <= i < |links| && l in Leaves(links[i]) :: l
  }

  ghost predicate IsKeyPassOrFail(cond: Condition) { cond.Verifier? || cond.Pass? || cond.Fail? }

  /** The condition is a key, pass or fail, and every leaf is its own link; or there is none. */
  ghost predicate IsEvery(cond: Condition, leaves: set<ConditionLink>) {
    forall l :: l in leaves ==> IsKeyPassOrFail(cond) && ToLink(cond) == Some(l)
  }

  lemma IsEveryOne(cond: Condition, l: ConditionLink)
    ensures IsEvery(cond, {l}) <==> IsKeyPassOrFail(cond) && ToLink(cond) == Some(l)
  {
    assert l in {l};
  }

  lemma IsEveryOf(cond: Condition, links: seq<ConditionLink>)
    ensures IsEvery(cond, LeavesOf(links)) <==> forall i :: 0 <= i < |links| ==> IsEvery(cond, Leaves(links[i]))
  {
    if forall i :: 0 <= i < |links| ==> IsEvery(cond, Leaves(links[i])) {
      forall l | l in LeavesOf(links) ensures IsKeyPassOrFail(cond) && ToLink(cond) == Some(l) {
        var i :| 0 <= i < |links| && l in Leaves(links[i]);
        assert IsEvery(cond, Leaves(links[i]));
      }
    } else {
      var i :| 0 <= i < |links| && !IsEvery(cond, Leaves(links[i]));
      var l :| l in Leaves(links[i]) && !(IsKeyPassOrFail(cond) && ToLink(cond) == Some(l));
      assert l in LeavesOf(links);
    }
  }

  /** A condition is found equal to a link exactly if it is a key, pass or fail and every
      leaf of the link is its own link, or if there is no leaf at all. */
  lemma {:induction false} EqualLinkIff(cond: Condition, link: ConditionLink)
    ensures EqualLink(cond, link) <==> IsEvery(cond, Leaves(link))
    decreases link
  {
    match link
    case NofTLink(_, links) =>
      forall i | 0 <= i < |links| ensures EqualLink(cond, links[i]) <==> IsEvery(cond, Leaves(links[i])) {
        EqualLinkIff(cond, links[i]);
      }
      IsEveryOf(cond, links);
    case BadgeLink(spec) =>
      BadgeNeverEqual(cond, spec);
      IsEveryOne(cond, link);
    case _ =>
      IsEveryOne(cond, link);
  }

  /** A condition with a given link. */
  function FromLink(link: ConditionLink): Condition
    decreases link
  {
    match link
    case VerifierLink(key) => Verifier(key)
    case BadgeLink(spec) => Badge(spec, MkBadge(spec.id, 0, Pass))
    case NofTLink(t, links) => NofT(t, FromLinks(links))
    case FailLink => Fail
    case PassLink => Pass
  }

  function FromLinks(links: seq<ConditionLink>): seq<Condition>
    decreases links
  {
    if links == [] then [] else [FromLink(links[0])] + FromLinks(links[1..])
  }

  lemma {:induction false} LinkRoundTrip(link: ConditionLink)
    ensures ToLink(FromLink(link)) == Some(link)
    decreases link
  {
    if link.NofTLink? { LinksRoundTrip(link.links); }
  }

  lemma {:induction false} LinksRoundTrip(links: seq<ConditionLink>)
    ensures ToLinks(FromLinks(links)) == Some(links)
    decreases links
  {
    if links != [] {
      LinkRoundTrip(links[0]);
      LinksRoundTrip(links[1..]);
      assert FromLinks(links)[1..] == FromLinks(links[1..]);
      assert [links[0]] + links[1..] == links;
    }
  }

  lemma {:induction false} LeaflessEqualsAll(cond: Condition, link: ConditionLink)
    requires LeaflessLink(link)
    ensures EqualLink(cond, link)
    decreases link
  {
    forall i | 0 <= i < |link.links| ensures EqualLink(cond, link.links[i]) {
      LeaflessEqualsAll(cond, link.links[i]);
    }
  }

  /** The links for which equal_link does what its name says: keys, pass and fail. */
  lemma EqualLinkIsExactIff(link: ConditionLink)
    ensures (forall cond :: EqualLink(cond, link) <==> ToLink(cond) == Some(link))
      <==> link.VerifierLink? || link.PassLink? || link.FailLink?
  {
    var own := FromLink(link);
    LinkRoundTrip(link);
    match link
    case BadgeLink(spec) => BadgeNeverEqual(own, spec);
    case NofTLink(_, _) =>
      NofTEqual(own, link);
      if LeaflessLink(link) {
        LeaflessEqualsAll(Pass, link);
        assert EqualLink(Pass, link) && ToLink(Pass) != Some(link);
      } else {
        assert !EqualLink(own, link) && ToLink(own) == Some(link);
      }
    case _ =>
  }

  /** Any condition is found equal to an empty threshold, and a key to a threshold of itself. */
  lemma EqualToOtherLinks(cond: Condition, t: nat, key: Id)
    ensures EqualLink(cond, NofTLink(t, []))
    ensures EqualLink(Verifier(key), NofTLink(t, [VerifierLink(key)]))
  {
    EqualLinkIff(cond, NofTLink(t, []));
  }

  /** All leaves are one and the same key or pass, if there are any. */
  ghost predicate Usable(link: ConditionLink) {
    exists l: ConditionLink :: (l.VerifierLink? || l.PassLink?) && OnlyLeaf(link, l)
  }

  ghost predicate OnlyLeaf(link: ConditionLink, l: ConditionLink) { forall x :: x in Leaves(link) ==> x == l }

  ghost predicate Signs(cond: Condition, signers: seq<Id>) {
    AllVerifiers(cond, signers) && Satisfied(cond, Elements(signers))
  }

  /** A condition that is found equal to a link and can be satisfied at all. */
  lemma EqualIsUsable(cond: Condition, link: ConditionLink, signed: set<Id>)
    requires EqualLink(cond, link) && Satisfied(cond, signed)
    ensures Usable(link)
    ensures cond.Verifier? || cond.Pass? || Leaves(link) == {}
  {
    EqualLinkIff(cond, link);
    if l :| l in Leaves(link) {
      assert ToLink(cond) == Some(l) && cond != Fail;
      assert OnlyLeaf(link, l) && (l.VerifierLink? || l.PassLink?);
    } else {
      assert OnlyLeaf(link, PassLink);
    }
  }

  lemma UsableIsSigned(link: ConditionLink) returns (cond: Condition, signers: seq<Id>)
    requires Usable(link)
    ensures EqualLink(cond, link) && Signs(cond, signers) && (cond.Verifier? || cond.Pass?)
  {
    var l: ConditionLink :| (l.VerifierLink? || l.PassLink?) && OnlyLeaf(link, l);
    cond := FromLink(l);
    signers := if l.VerifierLink? then [l.key] else [];
    EqualLinkIff(cond, link);
    assert l.VerifierLink? ==> l.key in signers;
  }

  /** What signs for a link is always the condition it links to, except exactly at thresholds
      whose leaves are all one key or pass, or that have none. */
  lemma SignsForLinkIff(link: ConditionLink)
    ensures (forall cond, signers :: EqualLink(cond, link) && Signs(cond, signers) ==> ToLink(cond) == Some(link))
      <==> !(link.NofTLink? && Usable(link))
  {
    if link.NofTLink? && Usable(link) {
      var cond, signers := UsableIsSigned(link);
      assert ToLink(cond) != Some(link);
    } else {
      forall cond, signers | EqualLink(cond, link) && Signs(cond, signers) ensures ToLink(cond) == Some(link) {
        EqualIsUsable(cond, link, Elements(signers));
        if link.BadgeLink? { BadgeNeverEqual(cond, link.spec); }
      }
    }
  }
}
