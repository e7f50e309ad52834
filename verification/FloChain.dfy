/** The signed version chain of a flo (flmodules/src/flo/flo.rs). Digests are terms, so
    equal digests have equal parts. */
module FloChain {
  import opened Prelude
  import opened NodeIds
  import opened Access
  import Realm

  datatype FloConfig = FloConfig(cuckoo: Realm.Cuckoo, forceId: Option<Id>)

  datatype Digest =
    | Raw(u: Id)
    | GenesisDigest(floType: string, config: FloConfig, cond: ConditionLink, nonce: Id)
    | FloIdOf(of: Digest)
    | UpdateDigest(id: Digest, version: nat, cond: ConditionLink)
    | DataDigest(id: Digest, data: string, version: nat, conds: nat)

  type CondSig = ConditionSignature<Digest>

  datatype CondVersion = CondVersion(cond: ConditionLink, signatures: CondSig)

  datatype Flo = Flo(
    realm: Digest,
    floType: string,
    config: FloConfig,
    data: string,
    dataVersion: nat,
    dataSignature: CondSig,
    nonce: Id,
    genesis: CondVersion,
    updates: seq<CondVersion>)

  datatype UpdateDataSign = UpdateDataSign(digest: Digest, update: string, signature: CondSig)

  datatype UpdateCondSign = UpdateCondSign(
    cond: ConditionLink, digestData: Digest, digestCond: Digest, signatureData: CondSig, signatureCond: CondSig)

  function NoSignatures(cond: Condition): CondSig { ConditionSignature(cond, map[]) }

  // ----------------------------------------------------------------- digests

  function DigestGenesis(f: Flo): Digest { GenesisDigest(f.floType, f.config, f.genesis.cond, f.nonce) }

  function FloId(f: Flo): Digest {
    FloIdOf(if f.config.forceId.Some? then Raw(f.config.forceId.value) else DigestGenesis(f))
  }

  function DigestData(f: Flo): Digest { DataDigest(FloId(f), f.data, f.dataVersion, |f.updates|) }

  /** The link in force before update i, and after all of them. */
  function LinkBefore(f: Flo, i: nat): ConditionLink
    requires i <= |f.updates|
  {
    if i == 0 then f.genesis.cond else f.updates[i - 1].cond
  }

  function Cond(f: Flo): ConditionLink { LinkBefore(f, |f.updates|) }

  // --------------------------------------------------------------- verifying

  predicate Holds(cs: CondSig, link: ConditionLink, digest: Digest) {
    EqualLink(cs.condition, link) && VerifyDigest(cs, digest) == Ok(true)
  }

  predicate GenesisOk(f: Flo) { Holds(f.genesis.signatures, f.genesis.cond, DigestGenesis(f)) }

  predicate UpdateOk(f: Flo, i: nat)
    requires i < |f.updates|
  {
    Holds(f.updates[i].signatures, LinkBefore(f, i), UpdateDigest(FloId(f), i + 1, f.updates[i].cond))
  }

  predicate ChainOk(f: Flo) { GenesisOk(f) && forall i :: 0 <= i < |f.updates| ==> UpdateOk(f, i) }

  predicate DataOk(f: Flo) { Holds(f.dataSignature, Cond(f), DigestData(f)) }

  predicate Verified(f: Flo) { ChainOk(f) && DataOk(f) }

  /** Checks the genesis, every update against the condition before it, and the data. */
  method Verify(f: Flo) returns (r: Result<bool>)
    ensures r.Ok? <==> Verified(f)
    ensures r.Ok? ==> r.value
  {
    var ok := VerifyCondition(f.genesis.signatures.condition, f.genesis.signatures.signatures, DigestGenesis(f));
    if ok.Err? { return Err(ok.error); }
    if !ok.value || !EqualLink(f.genesis.signatures.condition, f.genesis.cond) {
      return Err(SignatureMessageMismatch);
    }
    var prevCond := f.genesis.cond;
    for ver := 0 to |f.updates|
      invariant prevCond == LinkBefore(f, ver)
      invariant forall i :: 0 <= i < ver ==> UpdateOk(f, i)
    {
      var cv := f.updates[ver];
      if !EqualLink(cv.signatures.condition, prevCond) {
        assert !UpdateOk(f, ver);
        return Err(SignatureMessageMismatch);
      }
      var digest := UpdateDigest(FloId(f), ver + 1, cv.cond);
      ok := VerifyCondition(cv.signatures.condition, cv.signatures.signatures, digest);
      assert UpdateOk(f, ver) <==> ok == Ok(true);
      if ok.Err? { return Err(ok.error); }
      if !ok.value { return Err(SignatureMessageMismatch); }
      prevCond := cv.cond;
    }
    if !EqualLink(f.dataSignature.condition, prevCond) {
      return Err(SignatureMessageMismatch);
    }
    ok := VerifyCondition(f.dataSignature.condition, f.dataSignature.signatures, DigestData(f));
    if ok.Err? { return Err(ok.error); }
    if !ok.value { return Err(SignatureMessageMismatch); }
    return Ok(true);
  }

  /** The condition of the signatures is found equal to the link, none of its keys has a
      signature of anything else, and the keys that signed satisfy it. */
  ghost predicate SignedFor(cs: CondSig, link: ConditionLink, digest: Digest) {
    && EqualLink(cs.condition, link)
    && (forall k :: k in Keys(cs.condition) && k in cs.signatures ==> cs.signatures[k] == Signature(k, digest))
    && Satisfied(cs.condition, cs.signatures.Keys)
  }

  lemma HoldsIff(cs: CondSig, link: ConditionLink, digest: Digest)
    ensures Holds(cs, link, digest) <==> SignedFor(cs, link, digest)
  {
    VerifyIsFormula(cs.condition, cs.signatures, digest);
  }

  /** What verification means: the first condition signed the genesis, every condition its
      successor under the next number, and the last one the data under its version. */
  lemma VerifiedIff(f: Flo)
    ensures Verified(f) <==>
      && SignedFor(f.genesis.signatures, f.genesis.cond,
           GenesisDigest(f.floType, f.config, f.genesis.cond, f.nonce))
      && (forall i :: 0 <= i < |f.updates| ==>
            SignedFor(f.updates[i].signatures, if i == 0 then f.genesis.cond else f.updates[i - 1].cond,
              UpdateDigest(FloId(f), i + 1, f.updates[i].cond)))
      && SignedFor(f.dataSignature, if f.updates == [] then f.genesis.cond else f.updates[|f.updates| - 1].cond,
           DataDigest(FloId(f), f.data, f.dataVersion, |f.updates|))
  {
    HoldsIff(f.genesis.signatures, f.genesis.cond, DigestGenesis(f));
    HoldsIff(f.dataSignature, Cond(f), DigestData(f));
    forall i | 0 <= i < |f.updates|
      ensures UpdateOk(f, i) <==>
        SignedFor(f.updates[i].signatures, if i == 0 then f.genesis.cond else f.updates[i - 1].cond,
          UpdateDigest(FloId(f), i + 1, f.updates[i].cond))
    {
      HoldsIff(f.updates[i].signatures, LinkBefore(f, i), UpdateDigest(FloId(f), i + 1, f.updates[i].cond));
    }
  }

  // ---------------------------------------------------------------- creating

  /** The new flo with its genesis and data signed by all signers. */
  method NewSigner(
      realm: Digest, floType: string, cond: Condition, data: string, config: FloConfig, nonce: Id, signers: seq<Id>)
    returns (r: Result<Flo>)
    requires ToLink(cond).Some?
    ensures r.Ok? <==> forall k :: k in signers ==> k in Keys(cond) || HasPass(cond)
    ensures r.Ok? ==>
      && r.value.data == data && r.value.dataVersion == 0 && r.value.updates == []
      && r.value.realm == realm && r.value.floType == floType && r.value.config == config && r.value.nonce == nonce
      && r.value.genesis.cond == ToLink(cond).value
      && (Verified(r.value) <==> EqualLink(cond, ToLink(cond).value) && Satisfied(cond, Elements(signers)))
  {
    var flo := Flo(realm, floType, config, data, 0, NoSignatures(NotAvailable), nonce,
      CondVersion(ToLink(cond).value, NoSignatures(cond)), []);
    var digest := DigestGenesis(flo);
    var signed := SignAll(flo.genesis.signatures, signers, digest);
    SignersSign(cond, signers, digest);
    if signed.Err? { return Err(signed.error); }
    flo := flo.(genesis := flo.genesis.(signatures := signed.value));
    SignedVerifies(signed.value, Elements(signers), digest);
    var digestData := DigestData(flo);
    var dataSigned := SignAll(NoSignatures(cond), signers, digestData);
    SignersSign(cond, signers, digestData);
    if dataSigned.Err? { return Err(NoSuchSigner); }
    SignedVerifies(dataSigned.value, Elements(signers), digestData);
    flo := flo.(dataSignature := dataSigned.value);
    return Ok(flo);
  }

  method SignAll(cs: CondSig, signers: seq<Id>, digest: Digest) returns (r: Result<CondSig>)
    ensures r == SignersDigest(cs, signers, digest)
  {
    var signed := cs;
    for i := 0 to |signers|
      invariant SignersDigest(cs, signers[..i], digest) == Ok(signed)
    {
      assert signers[..i + 1][..i] == signers[..i];
      var one := SignDigest(signed, signers[i], digest);
      if one.Err? {
        SignErrorStays(cs, signers, i + 1, digest);
        return one;
      }
      signed := one.value;
    }
    assert signers[..|signers|] == signers;
    return Ok(signed);
  }

  lemma {:induction false} SignErrorStays(cs: CondSig, signers: seq<Id>, i: nat, digest: Digest)
    requires i <= |signers| && SignersDigest(cs, signers[..i], digest).Err?
    ensures SignersDigest(cs, signers, digest) == SignersDigest(cs, signers[..i], digest)
    decreases |signers|
  {
    if i == |signers| {
      assert signers[..i] == signers;
    } else {
      assert signers[..|signers| - 1][..i] == signers[..i];
      SignErrorStays(cs, signers[..|signers| - 1], i, digest);
    }
  }

  // ---------------------------------------------------------------- updating

  function StartSignData(f: Flo, cond: Condition, update: string): UpdateDataSign {
    var next := f.(data := update, dataVersion := f.dataVersion + 1);
    UpdateDataSign(DigestData(next), update, NoSignatures(cond))
  }

  function UpdateData(f: Flo, up: UpdateDataSign): Result<Flo> {
    var ok := VerifyDigest(up.signature, up.digest);
    if ok.Err? then Err(ok.error)
    else if !ok.value then Err(SignatureMessageMismatch)
    else
      var next := f.(data := up.update, dataSignature := up.signature, dataVersion := f.dataVersion + 1);
      if DigestData(next) != up.digest then Err(SignatureMessageMismatch) else Ok(next)
  }

  function UpdateDataSigners(f: Flo, cond: Condition, update: string, signers: seq<Id>): Result<Flo> {
    var up := StartSignData(f, cond, update);
    var signed := SignersDigest(up.signature, signers, up.digest);
    if signed.Err? then Err(signed.error) else UpdateData(f, up.(signature := signed.value))
  }

  function StartSignCond(f: Flo, condOld: Condition, condNew: Condition): UpdateCondSign
    requires ToLink(condNew).Some?
  {
    var link := ToLink(condNew).value;
    var next := f.(updates := f.updates + [CondVersion(link, NoSignatures(condOld))]);
    UpdateCondSign(link, DigestData(next), UpdateDigest(FloId(f), |next.updates|, link),
      NoSignatures(condNew), NoSignatures(condOld))
  }

  /** Takes the new condition as it is: nothing is verified here. */
  function UpdateCond(f: Flo, up: UpdateCondSign): Flo {
    f.(updates := f.updates + [CondVersion(up.cond, up.signatureCond)], dataSignature := up.signatureData)
  }

  function UpdateCondSigners(
      f: Flo, condOld: Condition, condNew: Condition, signersOld: seq<Id>, signersNew: seq<Id>): Result<Flo>
    requires ToLink(condNew).Some?
  {
    var up := StartSignCond(f, condOld, condNew);
    var old_ := SignersDigest(up.signatureCond, signersOld, up.digestCond);
    if old_.Err? then Err(old_.error)
    else
      var new_ := SignersDigest(up.signatureData, signersNew, up.digestData);
      if new_.Err? then Err(new_.error)
      else Ok(UpdateCond(f, up.(signatureCond := old_.value, signatureData := new_.value)))
  }

  datatype Op =
    | ChangeData(cond: Condition, update: string, signers: seq<Id>)
    | ChangeCond(condOld: Condition, condNew: Condition, signersOld: seq<Id>, signersNew: seq<Id>)

  /** The source has a link for the new condition. */
  predicate Callable(op: Op) { op.ChangeCond? ==> ToLink(op.condNew).Some? }

  function Apply(f: Flo, op: Op): Result<Flo>
    requires Callable(op)
  {
    match op
    case ChangeData(cond, update, signers) => UpdateDataSigners(f, cond, update, signers)
    case ChangeCond(condOld, condNew, signersOld, signersNew) =>
      UpdateCondSigners(f, condOld, condNew, signersOld, signersNew)
  }

  // ------------------------------------------------------------ what is kept

  /** What a caller has to respect: a condition that is found equal to the link in force, its
      signers, and for a new condition also its own signers and that it is found equal to
      its own link. */
  ghost predicate Proper(f: Flo, op: Op)
    requires Callable(op)
  {
    match op
    case ChangeData(cond, _, signers) => EqualLink(cond, Cond(f)) && Signs(cond, signers)
    case ChangeCond(condOld, condNew, signersOld, signersNew) =>
      && EqualLink(condOld, Cond(f)) && Signs(condOld, signersOld)
      && EqualLink(condNew, ToLink(condNew).value) && Signs(condNew, signersNew)
  }

  /** Any operation that succeeds keeps the id and all earlier conditions, and counts; it
      changes either the content or the condition in force, and nothing else. */
  lemma ApplyKeeps(f: Flo, op: Op)
    requires Callable(op) && Apply(f, op).Ok?
    ensures var g := Apply(f, op).value;
      && FloId(g) == FloId(f) && g.genesis == f.genesis && DigestGenesis(g) == DigestGenesis(f)
      && g.dataVersion == f.dataVersion + (if op.ChangeData? then 1 else 0)
      && (if op.ChangeData? then g.updates == f.updates
          else |g.updates| == |f.updates| + 1 && g.updates[..|f.updates|] == f.updates)
      && g.realm == f.realm && g.floType == f.floType && g.config == f.config && g.nonce == f.nonce
      && g.data == (if op.ChangeData? then op.update else f.data)
      && Some(Cond(g)) == (if op.ChangeData? then Some(Cond(f)) else ToLink(op.condNew))
  {
  }

  lemma SameChain(f: Flo, g: Flo, i: nat)
    requires FloId(g) == FloId(f) && g.genesis == f.genesis && i < |f.updates| && f.updates <= g.updates
    ensures UpdateOk(g, i) <==> UpdateOk(f, i)
  {
  }

  lemma ChangeDataVerifies(f: Flo, op: Op)
    requires Verified(f) && op.ChangeData?
    ensures Proper(f, op) <==> Apply(f, op).Ok? && Verified(Apply(f, op).value)
  {
    var up := StartSignData(f, op.cond, op.update);
    SignersSign(op.cond, op.signers, up.digest);
    var signed := SignersDigest(up.signature, op.signers, up.digest);
    if signed.Ok? {
      SignedVerifies(signed.value, Elements(op.signers), up.digest);
      if Apply(f, op).Ok? {
        var g := Apply(f, op).value;
        forall i | 0 <= i < |f.updates| ensures UpdateOk(g, i) { SameChain(f, g, i); }
      }
    }
  }

  lemma ChangeCondVerifies(f: Flo, op: Op)
    requires Verified(f) && op.ChangeCond? && Callable(op)
    ensures Proper(f, op) <==> Apply(f, op).Ok? && Verified(Apply(f, op).value)
  {
    var up := StartSignCond(f, op.condOld, op.condNew);
    SignersSign(op.condOld, op.signersOld, up.digestCond);
    SignersSign(op.condNew, op.signersNew, up.digestData);
    if Apply(f, op).Ok? {
      var g := Apply(f, op).value;
      var n := |f.updates|;
      SignedVerifies(g.updates[n].signatures, Elements(op.signersOld), up.digestCond);
      SignedVerifies(g.dataSignature, Elements(op.signersNew), up.digestData);
      assert LinkBefore(g, n) == Cond(f);
      forall i | 0 <= i < n ensures UpdateOk(g, i) { SameChain(f, g, i); }
      assert UpdateOk(g, n) <==> EqualLink(op.condOld, Cond(f)) && Satisfied(op.condOld, Elements(op.signersOld));
    }
  }

  /** A signed update from anywhere: it is taken exactly if its signatures satisfy its own
      condition for just this content as the next version. */
  lemma UpdateDataChecks(f: Flo, up: UpdateDataSign)
    ensures UpdateData(f, up).Ok? <==>
      VerifyDigest(up.signature, up.digest) == Ok(true)
      && up.digest == DataDigest(FloId(f), up.update, f.dataVersion + 1, |f.updates|)
    ensures Verified(f) && UpdateData(f, up).Ok? ==>
      (Verified(UpdateData(f, up).value) <==> EqualLink(up.signature.condition, Cond(f)))
  {
    if Verified(f) && UpdateData(f, up).Ok? {
      var g := UpdateData(f, up).value;
      forall i | 0 <= i < |f.updates| ensures UpdateOk(g, i) { SameChain(f, g, i); }
    }
  }

  /** A new condition from anywhere is taken unchecked; the flo verifies afterwards exactly
      if the old condition signed the new one as the next, and the new one the data again. */
  lemma UpdateCondChecks(f: Flo, up: UpdateCondSign)
    requires Verified(f)
    ensures Verified(UpdateCond(f, up)) <==>
      Holds(up.signatureCond, Cond(f), UpdateDigest(FloId(f), |f.updates| + 1, up.cond))
      && Holds(up.signatureData, up.cond, DataDigest(FloId(f), f.data, f.dataVersion, |f.updates| + 1))
  {
    var g, n := UpdateCond(f, up), |f.updates|;
    assert LinkBefore(g, n) == Cond(f);
    forall i | 0 <= i < n ensures UpdateOk(g, i) { SameChain(f, g, i); }
    assert UpdateOk(g, n) <==> Holds(up.signatureCond, Cond(f), UpdateDigest(FloId(f), n + 1, up.cond));
  }

  /** From a flo that verifies, a step succeeds and gives a flo that verifies if and only
      if it is proper. */
  lemma StepVerifies(f: Flo, op: Op)
    requires Verified(f) && Callable(op)
    ensures Proper(f, op) <==> Apply(f, op).Ok? && Verified(Apply(f, op).value)
  {
    if op.ChangeData? { ChangeDataVerifies(f, op); } else { ChangeCondVerifies(f, op); }
  }

  ghost predicate Succeeds(f: Flo, ops: seq<Op>)
    decreases |ops|
  {
    ops == [] || (Callable(ops[0]) && Apply(f, ops[0]).Ok? && Succeeds(Apply(f, ops[0]).value, ops[1..]))
  }

  ghost function After(f: Flo, ops: seq<Op>): Flo
    requires Succeeds(f, ops)
    decreases |ops|
  {
    if ops == [] then f else After(Apply(f, ops[0]).value, ops[1..])
  }

  ghost predicate ProperRun(f: Flo, ops: seq<Op>)
    requires Succeeds(f, ops)
    decreases |ops|
  {
    ops == [] || (Proper(f, ops[0]) && ProperRun(Apply(f, ops[0]).value, ops[1..]))
  }

  ghost function DataOps(ops: seq<Op>): nat {
    if ops == [] then 0 else (if ops[0].ChangeData? then 1 else 0) + DataOps(ops[1..])
  }

  /** Any run that succeeds: the id stays, and the versions count the operations. */
  lemma {:induction false} RunCounts(f: Flo, ops: seq<Op>)
    requires Succeeds(f, ops)
    ensures FloId(After(f, ops)) == FloId(f)
    ensures After(f, ops).dataVersion == f.dataVersion + DataOps(ops)
    ensures |After(f, ops).updates| == |f.updates| + |ops| - DataOps(ops)
    decreases |ops|
  {
    if ops != [] {
      ApplyKeeps(f, ops[0]);
      RunCounts(Apply(f, ops[0]).value, ops[1..]);
    }
  }

  /** Any run of proper updates keeps the whole history verified. */
  lemma {:induction false} RunVerifies(f: Flo, ops: seq<Op>)
    requires Verified(f) && Succeeds(f, ops) && ProperRun(f, ops)
    ensures Verified(After(f, ops))
    decreases |ops|
  {
    if ops != [] {
      StepVerifies(f, ops[0]);
      RunVerifies(Apply(f, ops[0]).value, ops[1..]);
    }
  }

  /** A condition chain that is broken once is never repaired. */
  lemma {:induction false} BrokenStaysBroken(f: Flo, ops: seq<Op>)
    requires Succeeds(f, ops) && !ChainOk(f)
    ensures !Verified(After(f, ops))
    decreases |ops|
  {
    if ops != [] {
      var g := Apply(f, ops[0]).value;
      ApplyKeeps(f, ops[0]);
      assert f.updates <= g.updates;
      if GenesisOk(f) {
        var i :| 0 <= i < |f.updates| && !UpdateOk(f, i);
        SameChain(f, g, i);
        assert !UpdateOk(g, i);
      }
      BrokenStaysBroken(g, ops[1..]);
    }
  }

  /** The conditions a flo can be moved to by update_cond_signers: single keys, pass, and
      thresholds without leaves. */
  lemma AdoptableConditions(f: Flo, op: Op)
    requires Verified(f) && op.ChangeCond? && Callable(op)
    requires Apply(f, op).Ok? && Verified(Apply(f, op).value)
    ensures op.condNew.Verifier? || op.condNew.Pass? || Leafless(op.condNew)
  {
    StepVerifies(f, op);
    EqualToOwnLink(op.condNew);
  }

  lemma HoldsIsUsable(cs: CondSig, link: ConditionLink, digest: Digest)
    requires Holds(cs, link, digest)
    ensures Usable(link)
  {
    VerifyIsFormula(cs.condition, cs.signatures, digest);
    EqualIsUsable(cs.condition, link, cs.signatures.Keys);
  }

  lemma UsableHolds(link: ConditionLink, digest: Digest) returns (cs: CondSig)
    requires Usable(link)
    ensures Holds(cs, link, digest)
  {
    var cond, signers := UsableIsSigned(link);
    SignersSign(cond, signers, digest);
    cs := SignersDigest(NoSignatures(cond), signers, digest).value;
    SignedVerifies(cs, Elements(signers), digest);
  }

  ghost predicate CanMoveTo(f: Flo, link: ConditionLink) {
    exists up: UpdateCondSign :: up.cond == link && Verified(UpdateCond(f, up))
  }

  /** The links a flo can be moved to by update_cond: exactly those whose leaves, if any, are
      all one key or pass. */
  lemma AdoptableLinksIff(f: Flo, link: ConditionLink)
    requires Verified(f)
    ensures CanMoveTo(f, link) <==> Usable(link)
  {
    if up: UpdateCondSign :| up.cond == link && Verified(UpdateCond(f, up)) {
      UpdateCondChecks(f, up);
      HoldsIsUsable(up.signatureData, link, DataDigest(FloId(f), f.data, f.dataVersion, |f.updates| + 1));
    }
    if Usable(link) {
      HoldsIsUsable(f.dataSignature, Cond(f), DigestData(f));
      var digest := UpdateDigest(FloId(f), |f.updates| + 1, link);
      var old_ := UsableHolds(Cond(f), digest);
      var new_ := UsableHolds(link, DataDigest(FloId(f), f.data, f.dataVersion, |f.updates| + 1));
      var up := UpdateCondSign(link, digest, digest, new_, old_);
      UpdateCondChecks(f, up);
    }
  }

  ghost predicate OnlyByCondInForce(f: Flo) {
    forall cond, update, signers ::
      var r := Apply(f, ChangeData(cond, update, signers));
      r.Ok? && Verified(r.value) ==> ToLink(cond) == Some(Cond(f))
  }

  /** New data that verifies was signed under the very condition in force, except exactly
      under thresholds whose leaves are all one key or pass, or that have none. */
  lemma OnlyByCondInForceIff(f: Flo)
    requires Verified(f)
    ensures OnlyByCondInForce(f) <==> !(Cond(f).NofTLink? && Usable(Cond(f)))
  {
    SignsForLinkIff(Cond(f));
    forall cond, update, signers
      ensures var r := Apply(f, ChangeData(cond, update, signers));
        (r.Ok? && Verified(r.value)) <==> (EqualLink(cond, Cond(f)) && Signs(cond, signers))
    {
      StepVerifies(f, ChangeData(cond, update, signers));
    }
    if Cond(f).NofTLink? && Usable(Cond(f)) {
      var cond, signers := UsableIsSigned(Cond(f));
      var r := Apply(f, ChangeData(cond, f.data, signers));
      assert r.Ok? && Verified(r.value) && ToLink(cond) != Some(Cond(f));
    }
  }

  /** Under a threshold without leaves any condition counts, so pass without any signer does. */
  lemma LeaflessTakesAnyData(f: Flo, update: string)
    requires Verified(f) && LeaflessLink(Cond(f))
    ensures var r := Apply(f, ChangeData(Pass, update, []));
      r.Ok? && Verified(r.value) && r.value.data == update
  {
    LeaflessEqualsAll(Pass, Cond(f));
    StepVerifies(f, ChangeData(Pass, update, []));
  }

  /** From a key or pass: the holder of the key in force, or anyone after pass, can always
      write new data that verifies. */
  lemma HolderCanWrite(f: Flo, cond: Condition, key: Id, update: string)
    requires Verified(f) && (cond.Verifier? || cond.Pass?) && ToLink(cond) == Some(Cond(f))
    requires CanSign(cond, Some(key))
    ensures var r := Apply(f, ChangeData(cond, update, [key]));
      r.Ok? && Verified(r.value) && r.value.data == update && r.value.dataVersion == f.dataVersion + 1
  {
    EqualToOwnLink(cond);
    CanSignSatisfies(cond, key);
    assert Elements([key]) == {key};
    StepVerifies(f, ChangeData(cond, update, [key]));
  }

  // ---------------------------------------------------------- what ids bind

  /** Flos have the same id exactly if both are forced to the same one, or neither is forced
      and type, configuration, first condition and nonce are the same. */
  lemma IdFixesGenesis(f: Flo, g: Flo)
    ensures FloId(f) == FloId(g) <==>
      && f.config.forceId == g.config.forceId
      && (f.config.forceId.None? ==>
            && f.genesis.cond == g.genesis.cond && f.nonce == g.nonce
            && f.config == g.config && f.floType == g.floType)
  {
  }

  /** A signature of the data by a key is good for one content of one flo only: it cannot be
      moved to another flo, version, content or state of the conditions. */
  lemma SignatureIsBound(f: Flo, g: Flo, key: Id)
    requires DataOk(f) && DataOk(g) && f.dataSignature == g.dataSignature
    requires f.dataSignature.condition == Verifier(key)
    ensures FloId(f) == FloId(g) && f.data == g.data && f.dataVersion == g.dataVersion && |f.updates| == |g.updates|
  {
    assert VerifyKey(key, f.dataSignature.signatures, DigestData(f)) == Ok(true);
    assert VerifyKey(key, f.dataSignature.signatures, DigestData(g)) == Ok(true);
  }

  // --------------------------------------------------- histories of one flo

  /** A key in force signs every update and all data. */
  lemma KeySigned(cs: CondSig, key: Id, digest: Digest)
    requires Holds(cs, VerifierLink(key), digest)
    ensures key in cs.signatures && cs.signatures[key] == Signature(key, digest)
  {
  }

  /** A verified successor of a flo in force under a key carries that key's signature. */
  lemma SuccessorIsSigned(f: Flo, up: UpdateCondSign, key: Id)
    requires Verified(f) && Cond(f) == VerifierLink(key) && Verified(UpdateCond(f, up))
    ensures key in up.signatureCond.signatures
    ensures up.signatureCond.signatures[key]
      == Signature(key, UpdateDigest(FloId(f), |f.updates| + 1, up.cond))
  {
    UpdateCondChecks(f, up);
    KeySigned(up.signatureCond, key, UpdateDigest(FloId(f), |f.updates| + 1, up.cond));
  }

  /** The condition histories are the same before update i. */
  ghost predicate SameBefore(f: Flo, g: Flo, i: nat) {
    && i <= |f.updates| && i <= |g.updates| && f.genesis.cond == g.genesis.cond
    && forall j :: 0 <= j < i ==> f.updates[j].cond == g.updates[j].cond
  }

  /** At update i a key in force signed two different conditions as the next one. */
  ghost predicate SignedTwice(f: Flo, g: Flo, i: nat, key: Id)
    requires i < |f.updates| && i < |g.updates|
  {
    var s, t := f.updates[i].signatures.signatures, g.updates[i].signatures.signatures;
    var d, e := UpdateDigest(FloId(f), i + 1, f.updates[i].cond), UpdateDigest(FloId(g), i + 1, g.updates[i].cond);
    && LinkBefore(f, i) == LinkBefore(g, i) == VerifierLink(key) && d != e
    && key in s && key in t && s[key] == Signature(key, d) && t[key] == Signature(key, e)
  }

  lemma ForkIsSigned(f: Flo, g: Flo, i: nat)
    requires ChainOk(f) && ChainOk(g) && i < |f.updates| && i < |g.updates| && SameBefore(f, g, i)
    requires f.updates[i].cond != g.updates[i].cond && LinkBefore(f, i).VerifierLink?
    ensures SignedTwice(f, g, i, LinkBefore(f, i).key)
  {
    assert LinkBefore(f, i) == LinkBefore(g, i);
    var key := LinkBefore(f, i).key;
    assert UpdateOk(f, i) && UpdateOk(g, i);
    KeySigned(f.updates[i].signatures, key, UpdateDigest(FloId(f), i + 1, f.updates[i].cond));
    KeySigned(g.updates[i].signatures, key, UpdateDigest(FloId(g), i + 1, g.updates[i].cond));
  }

  ghost predicate KeyLinks(f: Flo) { forall i :: 0 <= i <= |f.updates| ==> LinkBefore(f, i).VerifierLink? }

  lemma {:induction false} HistoriesUpTo(f: Flo, g: Flo, n: nat) returns (i: nat)
    requires ChainOk(f) && ChainOk(g) && KeyLinks(f) && f.genesis.cond == g.genesis.cond
    requires n <= |f.updates| && n <= |g.updates|
    ensures i <= n && SameBefore(f, g, i)
    ensures i == n || SignedTwice(f, g, i, LinkBefore(f, i).key)
  {
    i := 0;
    if n > 0 {
      i := HistoriesUpTo(f, g, n - 1);
      if i == n - 1 {
        if f.updates[i].cond == g.updates[i].cond { i := n; } else { ForkIsSigned(f, g, i); }
      }
    }
  }

  /** Two versions of one flo under keys, from anywhere: one history continues the other, or
      up to some update they agree and there a key in force signed two next conditions. */
  lemma HistoriesAgree(f: Flo, g: Flo) returns (i: nat)
    requires Verified(f) && Verified(g) && KeyLinks(f)
    requires FloId(f) == FloId(g) && f.config.forceId.None? && g.config.forceId.None?
    ensures SameBefore(f, g, i)
    ensures i == |f.updates| || i == |g.updates| || SignedTwice(f, g, i, LinkBefore(f, i).key)
  {
    IdFixesGenesis(f, g);
    i := HistoriesUpTo(f, g, Min(|f.updates|, |g.updates|));
  }
}
