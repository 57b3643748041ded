/** The evidence-carrying export envelope, and the independent verifier that re-derives every allow. */
module Exports {
  import opened Util
  import opened Types
  import opened Artifacts
  import opened Chains
  import opened Audit
  import opened StatusLists
  import Macaroons
  import Policies

  const VERSION := "kessa-audit-export/v2"
  const VERSION_V1 := "kessa-audit-export/v1"

  datatype CredentialRecord = CredentialRecord(credentialID: CredentialID, credential: Credential,
    issuerProof: Signature)

  type Evidence = map<CredentialID, CredentialRecord>

  /** CredentialSet.Add: the first proof stored for a credential stays. */
  function AddRecord(records: Evidence, c: Credential, proof: Signature): Evidence {
    if IdOf(c) in records then records else records[IdOf(c) := CredentialRecord(IdOf(c), c, proof)]
  }

  class CredentialSet {
    var records: Evidence

    constructor ()
      ensures records == map[]
    {
      records := map[];
    }

    method Add(c: Credential, proof: Signature) returns (id: CredentialID)
      modifies this
      ensures id == IdOf(c) && records == AddRecord(old(records), c, proof)
    {
      id := IdOf(c);
      if id !in records {
        records := records[id := CredentialRecord(id, c, proof)];
      }
    }

    predicate Has(id: CredentialID)
      reads this
    {
      id in records
    }
  }

  datatype Export = Export(
    version: string, signer: DID, entries: seq<Entry>, credentials: Evidence, policy: Option<Policies.Policy>,
    envelopeSignature: Signature)

  function PolicyIDOf(policy: Option<Policies.Policy>): PolicyID {
    if policy.None? then NoPolicyID else IdOfPolicy(policy.value)
  }

  function EnvelopeInput(version: string, signer: DID, policy: Option<Policies.Policy>, entries: seq<Entry>): Message {
    EnvelopeMessage(version, signer, PolicyIDOf(policy), |entries|, LogTip(entries))
  }

  predicate IsV1(exp: Export) {
    exp.version == VERSION_V1
  }

  /** verifyEnvelope: count and tip are recomputed from the entries present. */
  predicate EnvelopeVerifies(exp: Export, key: Key) {
    && SignatureLength(exp.envelopeSignature) != 0
    && Verifies(key, EnvelopeInput(exp.version, exp.signer, exp.policy, exp.entries), exp.envelopeSignature)
  }

  /** A v2 export of exactly this log, evidence and policy, under the enforcement point's own envelope signature. */
  predicate Exported(ep: Signer, entries: seq<Entry>, records: Evidence, policy: Option<Policies.Policy>, exp: Export) {
    && !IsV1(exp) && exp.signer == ep.did && EnvelopeVerifies(exp, ep.key)
    && exp.entries == entries && exp.credentials == records && exp.policy == policy
  }

  /** Build: assembles a v2 export and signs its header. */
  function Build(
      ep: Signer, entries: seq<Entry>, records: Evidence, policy: Option<Policies.Policy>, variant: nat): (exp: Export)
    ensures Exported(ep, entries, records, policy, exp)
  {
    Export(VERSION, ep.did, entries, records, policy,
      Sign(ep, EnvelopeInput(VERSION, ep.did, policy, entries), variant))
  }

  // ---- one entry ----------------------------------------------------------

  datatype Outcome = Pass | PassDeny | IntegrityOnly | Fail | Unverified

  /** The record exists under its key and is what its content address says. */
  predicate HasEvidence(exp: Export, id: CredentialID) {
    && id in exp.credentials && exp.credentials[id].credentialID == id && IdOf(exp.credentials[id].credential) == id
  }

  function LinkFor(exp: Export, id: CredentialID): Link
    requires HasEvidence(exp, id)
  {
    Link(exp.credentials[id].credential, exp.credentials[id].issuerProof)
  }

  function LinksFor(exp: Export, ids: seq<CredentialID>): (links: seq<Link>)
    requires forall id :: id in ids ==> HasEvidence(exp, id)
    ensures |links| == |ids|
    ensures forall i :: 0 <= i < |ids| ==> links[i] == LinkFor(exp, ids[i]) && IdOf(links[i].credential) == ids[i]
  {
    var links := seq(|ids|, i requires 0 <= i < |ids| => LinkFor(exp, ids[i]));
    assert forall i :: 0 <= i < |ids| ==> HasEvidence(exp, ids[i]) && links[i] == LinkFor(exp, ids[i]);
    links
  }

  /** Evidence is present, verifies as a chain, and reproduces the recorded principals. */
  ghost predicate Evidenced(w: World, exp: Export, d: Draft) {
    && |d.resolvedChain| >= 2 && |d.credentialIDs| == |d.resolvedChain| - 1
    && (forall id :: id in d.credentialIDs ==> HasEvidence(exp, id))
    && ChainVerified(w, LinksFor(exp, d.credentialIDs))
    && Principals(LinksFor(exp, d.credentialIDs)) == d.resolvedChain
  }

  /** How many hops publish a revocation list. */
  function StatusBearing(links: seq<Link>): nat {
    if links == [] then 0
    else StatusBearing(links[..|links| - 1]) + (if BearsStatus(links[|links| - 1].credential) then 1 else 0)
  }

  /** hopRevoked: none when the list is missing, not signed by the credential's authority, or too short. */
  function HopRevoked(w: World, c: Credential): Option<bool> {
    if w.status.None? then None
    else
      match w.status.value(c.statusRef.listURL)
      case None => None
      case Some(list) =>
        var key := w.dids(StatusAuthority(c));
        if key.None? || !ListVerifies(list, StatusAuthority(c), key.value) then None
        else LookupIn(list.bits, c.statusRef.index)
  }

  ghost predicate NoHopRevoked(w: World, links: seq<Link>) {
    forall i :: 0 <= i < |links| && BearsStatus(links[i].credential) ==>
      HopRevoked(w, links[i].credential) == Some(false)
  }

  predicate HasApproval(d: Draft) {
    d.approvedBy != "" && SignatureLength(d.approval) != 0
  }

  /** An approval that is present is whole and is the approver's signature over this action at this position. */
  predicate ApprovalVerifies(w: World, actor: DID, b: Body) {
    && HasApproval(b.draft) && w.dids(b.draft.approvedBy).Some?
    && Verifies(w.dids(b.draft.approvedBy).value, ApprovalMessage(actor, b.draft.action, b.seqNo, b.prevHash),
       b.draft.approval)
  }

  predicate ApprovalAbsent(d: Draft) {
    d.approvedBy == "" && SignatureLength(d.approval) == 0
  }

  /** The recorded classification is the carried policy's, and that policy allows. */
  predicate PolicyAgrees(w: World, exp: Export, d: Draft) {
    && exp.policy.Some? && d.policyID != NoPolicyID && d.policyID == IdOfPolicy(exp.policy.value)
    && var derived := Policies.Evaluation(w.lx, exp.policy.value, d.action);
       && derived.allowed && derived.consequential == d.decision.consequential
       && derived.ruleFired == d.decision.ruleFired && derived.policyVersion == d.decision.policyVersion
  }

  /** Everything an allowed entry must show, given its chain. */
  ghost predicate Justified(w: World, exp: Export, b: Body, links: seq<Link>)
    requires links != []
  {
    var d, terminal := b.draft, links[|links| - 1].credential;
    && PolicyAgrees(w, exp, d)
    && Macaroons.AllSatisfied(w.lx, terminal.macaroon.caveats, AuthorityContext(terminal, d.action))
    && (d.decision.consequential ==>
          d.decision.statusCheckedHops == StatusBearing(links) && NoHopRevoked(w, links) && HasApproval(d))
    && d.popNonce != [] && SignatureLength(d.popSignature) != 0
    && VerifyPossession(terminal, PoP(d.popNonce, d.popSignature), d.action, b.seqNo, b.prevHash)
    && (ApprovalAbsent(d) || ApprovalVerifies(w, terminal.subject, b))
  }

  ghost function EntryVerdict(w: World, exp: Export, e: Entry): Outcome {
    if IsV1(exp) then IntegrityOnly
    else if !Evidenced(w, exp, e.body.draft) then Fail
    else if !e.body.draft.decision.allowed then PassDeny
    else if Justified(w, exp, e.body, LinksFor(exp, e.body.draft.credentialIDs)) then Pass
    else Fail
  }

  /** Step 3: each hop's record, present under its key and content address. */
  method CollectLinks(exp: Export, ids: seq<CredentialID>) returns (links: Option<seq<Link>>)
    ensures links.Some? <==> forall id :: id in ids ==> HasEvidence(exp, id)
    ensures links.Some? ==> links.value == LinksFor(exp, ids)
  {
    var found: seq<Link> := [];
    for hop := 0 to |ids|
      invariant |found| == hop
      invariant forall i :: 0 <= i < hop ==> HasEvidence(exp, ids[i]) && found[i] == LinkFor(exp, ids[i])
    {
      var id := ids[hop];
      assert id in ids;
      if id !in exp.credentials {
        return None;
      }
      var rec := exp.credentials[id];
      if rec.credentialID != id || IdOf(rec.credential) != id {
        return None;
      }
      found := found + [Link(rec.credential, rec.issuerProof)];
    }
    return Some(found);
  }

  /** The comparison of step 4, position by position. */
  method SamePrincipals(links: seq<Link>, recorded: seq<DID>) returns (same: bool)
    ensures same == (Principals(links) == recorded)
  {
    var principals := ListPrincipals(links);
    if |principals| != |recorded| {
      return false;
    }
    for i := 0 to |principals|
      invariant forall j :: 0 <= j < i ==> principals[j] == recorded[j]
    {
      if principals[i] != recorded[i] {
        return false;
      }
    }
    return true;
  }

  /** Steps 3 and 4: collect each hop's credential, re-verify the chain, compare principals. */
  method ReResolve(w: World, exp: Export, d: Draft) returns (links: Option<seq<Link>>)
    ensures links.Some? <==> Evidenced(w, exp, d)
    ensures links.Some? ==> links.value == LinksFor(exp, d.credentialIDs) && links.value != []
  {
    if |d.resolvedChain| < 2 || |d.credentialIDs| != |d.resolvedChain| - 1 {
      return None;
    }
    var collected := CollectLinks(exp, d.credentialIDs);
    if collected.None? {
      return None;
    }
    var found := collected.value;
    var verdict := Chains.Verify(w, found);
    if !verdict.Sound? {
      return None;
    }
    var same := SamePrincipals(found, d.resolvedChain);
    if !same {
      return None;
    }
    return Some(found);
  }

  method CountStatusBearing(links: seq<Link>) returns (want: nat)
    ensures want == StatusBearing(links)
  {
    want := 0;
    for hop := 0 to |links|
      invariant want == StatusBearing(links[..hop])
    {
      assert links[..hop + 1][..hop] == links[..hop];
      if BearsStatus(links[hop].credential) {
        want := want + 1;
      }
    }
    assert links[..|links|] == links;
  }

  /** Step 6: the expected count is re-derived, then every status-bearing hop is looked up. */
  method StatusStep(w: World, links: seq<Link>, recorded: nat) returns (ok: bool)
    ensures ok <==> recorded == StatusBearing(links) && NoHopRevoked(w, links)
  {
    var want := CountStatusBearing(links);
    if recorded != want {
      return false;
    }
    for hop := 0 to |links|
      invariant forall i :: 0 <= i < hop && BearsStatus(links[i].credential) ==>
                HopRevoked(w, links[i].credential) == Some(false)
    {
      var c := links[hop].credential;
      if BearsStatus(c) {
        var revoked := HopRevoked(w, c);
        if revoked.None? || revoked.value {
          return false;
        }
      }
    }
    return true;
  }

  /** Step 8: a consequential allow must carry an approval; any approval carried must verify. */
  method ApprovalStep(w: World, b: Body, actor: DID, consequential: bool) returns (ok: bool)
    ensures ok <==>
            (consequential ==> HasApproval(b.draft)) && (ApprovalAbsent(b.draft) || ApprovalVerifies(w, actor, b))
  {
    var d := b.draft;
    if consequential && (d.approvedBy == "" || SignatureLength(d.approval) == 0) {
      return false;
    }
    if d.approvedBy != "" || SignatureLength(d.approval) > 0 {
      if d.approvedBy == "" || SignatureLength(d.approval) == 0 {
        return false;
      }
      var approverKey := w.dids(d.approvedBy);
      if approverKey.None? {
        return false;
      }
      if !Verifies(approverKey.value, ApprovalMessage(actor, d.action, b.seqNo, b.prevHash), d.approval) {
        return false;
      }
    }
    return true;
  }

  /** Step 4.5: the classification is re-derived from the carried policy and compared field by field. */
  method PolicyStep(w: World, exp: Export, d: Draft) returns (ok: bool)
    ensures ok == PolicyAgrees(w, exp, d)
  {
    if exp.policy.None? || d.policyID == NoPolicyID || d.policyID != IdOfPolicy(exp.policy.value) {
      return false;
    }
    var derived := Policies.Evaluate(w.lx, exp.policy.value, d.action);
    if !derived.allowed || derived.consequential != d.decision.consequential {
      return false;
    }
    return derived.ruleFired == d.decision.ruleFired && derived.policyVersion == d.decision.policyVersion;
  }

  /** Steps 4.5 to 8, which only an allow goes through: policy, caveats, status, possession, approval. */
  method JustifyAllow(w: World, exp: Export, b: Body, links: seq<Link>) returns (ok: bool)
    requires links != []
    ensures ok == Justified(w, exp, b, links)
  {
    var d, terminal := b.draft, links[|links| - 1].credential;
    var classified := PolicyStep(w, exp, d);
    if !classified {
      return false;
    }
    var consequential := d.decision.consequential;
    var within := Macaroons.CheckSatisfies(w.lx, terminal.macaroon, AuthorityContext(terminal, d.action));
    if !within {
      return false;
    }
    if consequential {
      var clear := StatusStep(w, links, d.decision.statusCheckedHops);
      if !clear {
        return false;
      }
    }
    if d.popNonce == [] || SignatureLength(d.popSignature) == 0 {
      return false;
    }
    if !VerifyPossession(terminal, PoP(d.popNonce, d.popSignature), d.action, b.seqNo, b.prevHash) {
      return false;
    }
    ok := ApprovalStep(w, b, terminal.subject, consequential);
  }

  /** verifyEntry: steps 3 to 8 with their early exits. */
  method VerifyEntry(w: World, exp: Export, e: Entry) returns (o: Outcome)
    ensures o == EntryVerdict(w, exp, e)
  {
    if IsV1(exp) {
      return IntegrityOnly;
    }
    var resolved := ReResolve(w, exp, e.body.draft);
    if resolved.None? {
      return Fail;
    }
    if !e.body.draft.decision.allowed {
      return PassDeny;
    }
    var justified := JustifyAllow(w, exp, e.body, resolved.value);
    return if justified then Pass else Fail;
  }

  // ---- the whole export ---------------------------------------------------

  datatype EntryResult = EntryResult(seqNo: nat, outcome: Outcome)

  datatype Report = Report(version: string, evidenceCarried: bool, fatal: bool, entries: seq<EntryResult>)

  /** What entry i is reported as when the log first breaks at f (-1: nowhere). */
  ghost function OutcomeAt(w: World, exp: Export, f: int, i: nat): Outcome
    requires i < |exp.entries|
  {
    if f >= 0 && i == f then Fail
    else if f >= 0 && i > f then Unverified
    else EntryVerdict(w, exp, exp.entries[i])
  }

  /** The report Verify owes for an export whose signer resolves to key. */
  ghost predicate IsReport(w: World, exp: Export, key: Key, r: Report) {
    && r.version == exp.version && r.evidenceCarried == !IsV1(exp)
    && r.fatal == (!IsV1(exp) && !EnvelopeVerifies(exp, key))
    && (r.fatal ==> r.entries == [])
    && (!r.fatal ==>
          && |r.entries| == |exp.entries|
          && forall f :: IsFirstBreak(exp.entries, key, f) ==>
               forall i :: 0 <= i < |exp.entries| ==>
                 r.entries[i] == EntryResult(exp.entries[i].body.seqNo, OutcomeAt(w, exp, f, i)))
  }

  /**
   Verify: no report when the signer does not resolve. A break makes that entry FAIL and every
   later one UNVERIFIED; the entries before it keep their own verdicts.
   */
  method Verify(w: World, exp: Export) returns (r: Option<Report>)
    ensures r.Some? <==> w.dids(exp.signer).Some?
    ensures r.Some? ==> IsReport(w, exp, w.dids(exp.signer).value, r.value)
  {
    var signerKey := w.dids(exp.signer);
    if signerKey.None? {
      return None;
    }
    var key := signerKey.value;
    if !IsV1(exp) && !EnvelopeVerifies(exp, key) {
      return Some(Report(exp.version, !IsV1(exp), true, []));
    }
    var failIdx := VerifyEntries(exp.entries, key);
    var results: seq<EntryResult> := [];
    for i := 0 to |exp.entries|
      invariant |results| == i
      invariant forall j :: 0 <= j < i ==>
        results[j] == EntryResult(exp.entries[j].body.seqNo, OutcomeAt(w, exp, failIdx, j))
    {
      var e := exp.entries[i];
      if failIdx >= 0 && i == failIdx {
        results := results + [EntryResult(e.body.seqNo, Fail)];
      } else if failIdx >= 0 && i > failIdx {
        results := results + [EntryResult(e.body.seqNo, Unverified)];
      } else {
        var o := VerifyEntry(w, exp, e);
        results := results + [EntryResult(e.body.seqNo, o)];
      }
    }
    forall f | IsFirstBreak(exp.entries, key, f) ensures f == failIdx {
      FirstBreakUnique(exp.entries, key, f, failIdx);
    }
    return Some(Report(exp.version, !IsV1(exp), false, results));
  }

  /** Result.Pass. */
  ghost predicate Clean(r: Report) {
    && !r.fatal && r.evidenceCarried
    && forall i :: 0 <= i < |r.entries| ==> r.entries[i].outcome != Fail && r.entries[i].outcome != Unverified
  }

  method ReportPasses(r: Report) returns (ok: bool)
    ensures ok == Clean(r)
  {
    if r.fatal || !r.evidenceCarried {
      return false;
    }
    for i := 0 to |r.entries|
      invariant forall j :: 0 <= j < i ==> r.entries[j].outcome != Fail && r.entries[j].outcome != Unverified
    {
      if r.entries[i].outcome == Fail || r.entries[i].outcome == Unverified {
        return false;
      }
    }
    return true;
  }

  /** What a clean pass amounts to. */
  ghost predicate Passes(w: World, exp: Export) {
    && w.dids(exp.signer).Some?
    && !IsV1(exp)
    && EnvelopeVerifies(exp, w.dids(exp.signer).value)
    && Chained(exp.entries, w.dids(exp.signer).value)
    && forall i :: 0 <= i < |exp.entries| ==> EntryVerdict(w, exp, exp.entries[i]) != Fail
  }

  /** A report of a whole chain holds each entry's own verdict; one of a broken chain holds a failure. */
  lemma ReportOutcomes(w: World, exp: Export, key: Key, r: Report)
    requires IsReport(w, exp, key, r) && !r.fatal
    ensures |r.entries| == |exp.entries|
    ensures Chained(exp.entries, key) ==>
              forall i :: 0 <= i < |exp.entries| ==> r.entries[i].outcome == EntryVerdict(w, exp, exp.entries[i])
    ensures !Chained(exp.entries, key) ==> exists i :: 0 <= i < |r.entries| && r.entries[i].outcome == Fail
  {
    var f := FirstBreakExists(exp.entries, key, 0);
    forall i | 0 <= i < |exp.entries| ensures r.entries[i].outcome == OutcomeAt(w, exp, f, i) {
    }
    if f >= 0 {
      assert r.entries[f].outcome == Fail;
    }
  }

  /** Which outcomes make a clean report, with the verdicts as given values. */
  lemma CleanOutcomes(r: Report, verdicts: seq<Outcome>)
    requires !r.fatal && r.evidenceCarried && |r.entries| == |verdicts|
    requires forall i :: 0 <= i < |verdicts| ==> r.entries[i].outcome == verdicts[i] && verdicts[i] != Unverified
    ensures Clean(r) <==> forall i :: 0 <= i < |verdicts| ==> verdicts[i] != Fail
  {
  }

  ghost function Verdicts(w: World, exp: Export): (vs: seq<Outcome>)
    ensures |vs| == |exp.entries|
    ensures forall i :: 0 <= i < |vs| ==> vs[i] == EntryVerdict(w, exp, exp.entries[i]) && vs[i] != Unverified
  {
    seq(|exp.entries|, i requires 0 <= i < |exp.entries| => EntryVerdict(w, exp, exp.entries[i]))
  }

  /** A report is clean exactly when the export is v2, its envelope and whole chain verify, and no entry fails. */
  lemma CleanIffPasses(w: World, exp: Export, r: Report)
    requires w.dids(exp.signer).Some?
    requires IsReport(w, exp, w.dids(exp.signer).value, r)
    ensures Clean(r) <==> Passes(w, exp)
  {
    var key := w.dids(exp.signer).value;
    if !r.fatal {
      ReportOutcomes(w, exp, key, r);
      if r.evidenceCarried && Chained(exp.entries, key) {
        CleanOutcomes(r, Verdicts(w, exp));
        VerdictsPass(w, exp);
      }
    }
  }

  lemma VerdictsPass(w: World, exp: Export)
    requires w.dids(exp.signer).Some? && !IsV1(exp)
    requires EnvelopeVerifies(exp, w.dids(exp.signer).value) && Chained(exp.entries, w.dids(exp.signer).value)
    ensures Passes(w, exp) <==> forall i :: 0 <= i < |exp.entries| ==> Verdicts(w, exp)[i] != Fail
  {
    var vs := Verdicts(w, exp);
    forall i | 0 <= i < |exp.entries| ensures EntryVerdict(w, exp, exp.entries[i]) == vs[i] {
    }
  }

  // ---- what the checks rest on --------------------------------------------

  /**
   A list that speaks for a credential: published at its address, above the floor, signed as it stands by the
   key its authority resolves to, with the credential's index in range and revoked or not.
   */
  ghost predicate SpeaksFor(w: World, c: Credential, revoked: bool) {
    && w.status.Some? && w.status.value(c.statusRef.listURL).Some?
    && var list, authority := w.status.value(c.statusRef.listURL).value, StatusAuthority(c);
       && authority != "" && list.issuer == authority && 8 * |list.bits| >= 131072
       && list.signature.Signed? && w.dids(authority) == Some(list.signature.key)
       && list.signature.message == StatusMessage(authority, list.purpose, list.bits)
       && 0 <= c.statusRef.index < 8 * |list.bits|
       && (revoked <==> c.statusRef.index in RevokedSet(list.bits))
  }

  /** A hop has an answer exactly when such a list gives it. */
  lemma HopAnswerIff(w: World, c: Credential, revoked: bool)
    ensures HopRevoked(w, c) == Some(revoked) <==> SpeaksFor(w, c, revoked)
  {
    if w.status.Some? && w.status.value(c.statusRef.listURL).Some? {
      LookupIsMembership(w.status.value(c.statusRef.listURL).value.bits, c.statusRef.index);
    }
  }

  /** Every status-bearing hop has a list that speaks for it and does not hold its index. */
  ghost predicate ListedClear(w: World, links: seq<Link>) {
    forall i :: 0 <= i < |links| && links[i].credential.statusRef.listURL != "" ==>
      SpeaksFor(w, links[i].credential, false)
  }

  lemma NoHopRevokedMeans(w: World, links: seq<Link>)
    ensures NoHopRevoked(w, links) <==> ListedClear(w, links)
  {
    forall i | 0 <= i < |links|
      ensures HopRevoked(w, links[i].credential) == Some(false) <==> SpeaksFor(w, links[i].credential, false)
    {
      HopAnswerIff(w, links[i].credential, false);
    }
  }

  /** The approval is the named approver's own signature over this actor, action and position. */
  ghost predicate ApprovedBy(w: World, actor: DID, b: Body) {
    var d := b.draft;
    && d.approvedBy != "" && d.approval.Signed? && w.dids(d.approvedBy) == Some(d.approval.key)
    && d.approval.message == ApprovalMessage(actor, d.action, b.seqNo, b.prevHash)
  }

  lemma ApprovalMeans(w: World, actor: DID, b: Body)
    ensures ApprovalVerifies(w, actor, b) <==> ApprovedBy(w, actor, b)
  {
  }

  /** The envelope is the signer's own signature over this version, signer, policy, count and tip. */
  ghost predicate SealedBy(w: World, exp: Export) {
    var id := if exp.policy.None? then NoPolicyID else IdOfPolicy(exp.policy.value);
    var tip := if exp.entries == [] then Genesis else exp.entries[|exp.entries| - 1].entryHash;
    && exp.envelopeSignature.Signed? && w.dids(exp.signer) == Some(exp.envelopeSignature.key)
    && exp.envelopeSignature.message == EnvelopeMessage(exp.version, exp.signer, id, |exp.entries|, tip)
  }

  lemma EnvelopeMeans(w: World, exp: Export)
    ensures w.dids(exp.signer).Some? && EnvelopeVerifies(exp, w.dids(exp.signer).value) <==> SealedBy(w, exp)
  {
  }

  /** Entry i is at its place in the chain and signed over by this key. */
  ghost predicate EntrySealed(es: seq<Entry>, key: Key, i: nat)
    requires i < |es|
  {
    var e := es[i];
    && e.signature.Signed? && e.signature.key == key && e.signature.message == EntryMessage(EntryDigest(e.body))
    && e.entryHash == EntryDigest(e.body) && e.body.seqNo == i
    && e.body.prevHash == if i == 0 then Genesis else EntryDigest(es[i - 1].body)
  }

  /** A passing export is sealed by its signer's resolved key, and so is each entry, at its place in the chain. */
  lemma PassingIsSealed(w: World, exp: Export)
    requires Passes(w, exp)
    ensures SealedBy(w, exp)
    ensures forall i :: 0 <= i < |exp.entries| ==> EntrySealed(exp.entries, exp.envelopeSignature.key, i)
  {
    EnvelopeMeans(w, exp);
    ChainedMeans(exp.entries, w.dids(exp.signer).value);
  }

  lemma ChainedMeans(es: seq<Entry>, key: Key)
    ensures Chained(es, key) <==> forall i :: 0 <= i < |es| ==> EntrySealed(es, key, i)
  {
    if Chained(es, key) {
      forall i | 0 <= i < |es| ensures EntrySealed(es, key, i) {
        assert Intact(es, i, key) && (i > 0 ==> Intact(es, i - 1, key));
      }
    }
    if forall i :: 0 <= i < |es| ==> EntrySealed(es, key, i) {
      forall i | 0 <= i < |es| ensures Intact(es, i, key) {
        assert EntrySealed(es, key, i) && (i > 0 ==> EntrySealed(es, key, i - 1));
      }
    }
  }

  /** Every credential an entry of a passing export names is carried, and its issuer's resolved key signed it. */
  lemma PassingIsIssued(w: World, exp: Export, i: nat, id: CredentialID)
    requires Passes(w, exp) && i < |exp.entries| && id in exp.entries[i].body.draft.credentialIDs
    ensures id in exp.credentials && id == IdOf(exp.credentials[id].credential)
    ensures IssuedBy(w, exp.credentials[id].credential, exp.credentials[id].issuerProof)
  {
    PassingHasEvidence(w, exp, i, id);
    assert EntryVerdict(w, exp, exp.entries[i]) != Fail;
    var d := exp.entries[i].body.draft;
    var k :| 0 <= k < |d.credentialIDs| && d.credentialIDs[k] == id;
    ChainMeans(w, LinksFor(exp, d.credentialIDs));
    assert HopMeans(w, LinksFor(exp, d.credentialIDs), k);
  }

  /** A break is reported as FAIL, everything after it as UNVERIFIED, and everything before it by its own verdict. */
  lemma BreakReported(w: World, exp: Export, key: Key, r: Report, f: int, i: nat)
    requires IsReport(w, exp, key, r) && !r.fatal && IsFirstBreak(exp.entries, key, f) && i < |exp.entries|
    ensures |r.entries| == |exp.entries| && r.entries[i].seqNo == exp.entries[i].body.seqNo
    ensures f >= 0 && i == f ==> r.entries[i].outcome == Fail
    ensures f >= 0 && i > f ==> r.entries[i].outcome == Unverified
    ensures f == -1 || i < f ==> r.entries[i].outcome == EntryVerdict(w, exp, exp.entries[i])
  {
  }

  /** The record filed for a credential is the first that was added, under its content address. */
  lemma AddRecordMeans(records: Evidence, c: Credential, proof: Signature)
    ensures var after := AddRecord(records, c, proof);
            && after.Keys == records.Keys + {IdOf(c)}
            && (forall id :: id in records ==> after[id] == records[id])
            && (IdOf(c) !in records ==> after[IdOf(c)] == CredentialRecord(IdOf(c), c, proof))
  {
  }

  // ---- the envelope pins the export ---------------------------------------

  /** Equal up to signature bytes, which no hash covers. */
  ghost predicate SameContent(a: seq<Entry>, b: seq<Entry>) {
    |a| == |b| && forall i :: 0 <= i < |a| ==> a[i].body == b[i].body && a[i].entryHash == b[i].entryHash
  }

  /** A signing scheme with one signature per message. */
  ghost predicate Deterministic(entries: seq<Entry>) {
    forall i :: 0 <= i < |entries| && entries[i].signature.Signed? ==> entries[i].signature.variant == 0
  }

  lemma PassingHasEvidence(w: World, exp: Export, i: nat, id: CredentialID)
    requires Passes(w, exp) && i < |exp.entries| && id in exp.entries[i].body.draft.credentialIDs
    ensures HasEvidence(exp, id)
  {
    assert EntryVerdict(w, exp, exp.entries[i]) != Fail;
  }

  lemma SameEnvelope(a: Export, aKey: Key, b: Export, bKey: Key)
    requires EnvelopeVerifies(a, aKey) && EnvelopeVerifies(b, bKey) && a.envelopeSignature == b.envelopeSignature
    ensures a.version == b.version && a.signer == b.signer && a.policy == b.policy
    ensures |a.entries| == |b.entries| && LogTip(a.entries) == LogTip(b.entries)
  {
    assert EnvelopeInput(a.version, a.signer, a.policy, a.entries) ==
           EnvelopeInput(b.version, b.signer, b.policy, b.entries);
  }

  lemma SameCredentials(w: World, a: Export, b: Export, i: nat, id: CredentialID)
    requires Passes(w, a) && Passes(w, b) && SameContent(a.entries, b.entries)
    requires i < |a.entries| && id in a.entries[i].body.draft.credentialIDs
    ensures id in a.credentials && id in b.credentials && a.credentials[id].credential == b.credentials[id].credential
  {
    PassingHasEvidence(w, a, i, id);
    PassingHasEvidence(w, b, i, id);
  }

  /** With deterministic signing the content fixes the signatures too. */
  lemma SameEntries(a: seq<Entry>, b: seq<Entry>, key: Key)
    requires Chained(a, key) && Chained(b, key) && SameContent(a, b) && Deterministic(a) && Deterministic(b)
    ensures a == b
  {
    forall i | 0 <= i < |a| ensures a[i] == b[i] {
      assert Intact(a, i, key) && Intact(b, i, key);
    }
  }

  /**
   Two clean exports that carry the same envelope signature hold the same log, the same policy and
   the same credential under every identifier an entry names: nothing was removed, added or altered.
   */
  lemma EnvelopePinsExport(w: World, a: Export, b: Export)
    requires Passes(w, a) && Passes(w, b)
    requires a.envelopeSignature == b.envelopeSignature
    ensures a.version == b.version && a.signer == b.signer && a.policy == b.policy
    ensures SameContent(a.entries, b.entries)
    ensures forall i, id :: 0 <= i < |a.entries| && id in a.entries[i].body.draft.credentialIDs ==>
              id in a.credentials && id in b.credentials && a.credentials[id].credential == b.credentials[id].credential
    ensures Deterministic(a.entries) && Deterministic(b.entries) ==> a.entries == b.entries
  {
    var key := w.dids(a.signer).value;
    SameEnvelope(a, key, b, w.dids(b.signer).value);
    TipPinsLog(a.entries, key, b.entries, key);
    forall i, id | 0 <= i < |a.entries| && id in a.entries[i].body.draft.credentialIDs
      ensures id in a.credentials && id in b.credentials && a.credentials[id].credential == b.credentials[id].credential
    {
      SameCredentials(w, a, b, i, id);
    }
    if Deterministic(a.entries) && Deterministic(b.entries) {
      SameEntries(a.entries, b.entries, key);
    }
  }

  /** Whatever header this signature is over, under this key, is the header of one of these exports. */
  ghost predicate HeaderOfOne(key: Key, exports: set<Export>, sig: Signature) {
    sig.Signed? && sig.key == key && sig.message.EnvelopeMessage? ==>
      exists x :: x in exports && sig.message == EnvelopeInput(x.version, x.signer, x.policy, x.entries)
  }

  /**
   Where a signer's key has signed only the headers of these exports, each of a log that verifies under it, a
   passing export under that signer holds the log and the policy of one of them: none shortened, extended or altered.
   */
  lemma OnlyExportedLogsPass(w: World, exports: set<Export>, exp: Export) returns (x: Export)
    requires Passes(w, exp) && HeaderOfOne(w.dids(exp.signer).value, exports, exp.envelopeSignature)
    requires forall x :: x in exports ==> Chained(x.entries, w.dids(exp.signer).value)
    ensures x in exports && exp.version == x.version && exp.signer == x.signer && exp.policy == x.policy
    ensures SameContent(exp.entries, x.entries)
  {
    var key := w.dids(exp.signer).value;
    EnvelopeMeans(w, exp);
    var y :| y in exports && exp.envelopeSignature.message == EnvelopeInput(y.version, y.signer, y.policy, y.entries);
    TipPinsLog(exp.entries, key, y.entries, key);
    x := y;
  }
}
