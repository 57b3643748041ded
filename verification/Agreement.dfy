/** The proxy and the independent verifier reach the same verdict about an allow. */
module Agreement {
  import opened Util
  import opened Types
  import opened Artifacts
  import opened Chains
  import opened Exports
  import opened Enforcement
  import Macaroons
  import Policies

  /** The request an entry's own evidence rebuilds. */
  ghost function Rebuild(exp: Export, d: Draft): Request
    requires forall id :: id in d.credentialIDs ==> HasEvidence(exp, id)
  {
    Request(LinksFor(exp, d.credentialIDs), d.action, PoP(d.popNonce, d.popSignature), d.approvedBy, d.approval)
  }

  /** The action satisfies the terminal credential's caveats. */
  ghost predicate Within(w: World, req: Request)
    requires req.chain != []
  {
    Macaroons.AllSatisfied(w.lx, Terminal(req).macaroon.caveats, AuthorityContext(Terminal(req), req.action))
  }

  /**
   When the proxy allows: its evaluator permits, caveats hold, and a consequential action is unrevoked and
   approved at this position.
   */
  ghost predicate AllowConditions(w: World, ev: Evaluator, req: Request, seqNo: nat, prevHash: Digest)
    requires req.chain != []
  {
    var derived, t := Classify(w, ev, req.action).decision, Terminal(req);
    && !Classify(w, ev, req.action).failed && derived.allowed
    && Within(w, req)
    && (derived.consequential ==>
          w.status.Some? && NoHopRevoked(w, req.chain) && ApprovalProblem(w, req, t.subject, seqNo, prevHash).None?)
  }

  /**
   The gate a cause names is the first in the proxy's order that fails. The hop count recorded with it is
   the sweep's where the sweep came to an answer, and otherwise the one the evaluator gave, which is 0 from
   the shipped classifier: a look-up that fails leaves no count of its own, whatever was checked before it.
   */
  ghost predicate FirstGate(
    failed: bool, within: bool, consequential: bool, source: bool, looks: seq<Look>, problem: Option<Cause>, given: nat,
    cause: Cause, hops: nat)
  {
    match cause
    case PolicyFailed => failed && hops == given
    case BeyondAuthority => !failed && !within && hops == given
    case NoStatusSource => !failed && within && consequential && !source && hops == given
    case StatusFailed => !failed && within && consequential && source && LookupFails(looks) && hops == given
    case Revoked(h) =>
      !failed && within && consequential && source && StopsAt(looks, h, Gone) && hops == Listed(looks[..h + 1])
    case _ =>
      !failed && within && consequential && source && Harmless(looks) && hops == Listed(looks) && problem == Some(cause)
  }

  /** The gate a sweep and an approval check lead to. */
  lemma GateOfSweep(looks: seq<Look>, problem: Option<Cause>, given: nat, cause: Cause, hops: nat)
    requires problem.Some? ==> problem.value in {ApprovalMissing, ApproverUnresolved, ApprovalInvalid}
    requires match Sweep(looks)
             case SweepFailed => cause == StatusFailed && hops == given
             case SweepRevoked(h, checked) => cause == Revoked(h) && hops == checked
             case SweepClear(checked) => problem == Some(cause) && hops == checked
    ensures FirstGate(false, true, true, true, looks, problem, given, cause, hops)
  {
    SweepStops(looks);
  }

  /** The evaluator answers and allows. */
  ghost predicate Permits(w: World, ev: Evaluator, a: Action) {
    !Classify(w, ev, a).failed && Classify(w, ev, a).decision.allowed
  }

  /** A denial before any sweep. */
  lemma EarlyDenial(w: World, ev: Evaluator, req: Request, seqNo: nat, prevHash: Digest)
    requires req.chain != [] && Permits(w, ev, req.action)
    requires !Within(w, req) || (Classify(w, ev, req.action).decision.consequential && w.status.None?)
    ensures var d := Decide(w, ev, req, seqNo, prevHash);
            && d.reason == Refusal(if Within(w, req) then NoStatusSource else BeyondAuthority)
            && d.statusCheckedHops == Classify(w, ev, req.action).decision.statusCheckedHops && !d.allowed
  {
  }

  /** What the proxy decides once it comes to the sweep. */
  lemma SweptDecision(w: World, ev: Evaluator, req: Request, seqNo: nat, prevHash: Digest)
    requires req.chain != [] && Within(w, req) && w.status.Some?
    requires Permits(w, ev, req.action) && Classify(w, ev, req.action).decision.consequential
    ensures var d, swept := Decide(w, ev, req, seqNo, prevHash), Sweep(LooksOf(w, req.chain));
            var problem := ApprovalProblem(w, req, Terminal(req).subject, seqNo, prevHash);
            && (swept.SweepFailed? ==>
                  && d.reason == Refusal(StatusFailed)
                  && d.statusCheckedHops == Classify(w, ev, req.action).decision.statusCheckedHops)
            && (!swept.SweepFailed? ==> d.statusCheckedHops == swept.checked)
            && (swept.SweepRevoked? ==> d.reason == Refusal(Revoked(swept.hop)))
            && (swept.SweepClear? && problem.Some? ==> d.reason == Refusal(problem.value))
            && (d.allowed <==> swept.SweepClear? && problem.None?)
  {
  }

  /** Whatever the proxy decides, it keeps the evaluator's classification. */
  lemma DecideKeepsClassification(w: World, ev: Evaluator, req: Request, seqNo: nat, prevHash: Digest)
    requires req.chain != []
    ensures var d, derived := Decide(w, ev, req, seqNo, prevHash), Classify(w, ev, req.action).decision;
            && d.consequential == derived.consequential && d.ruleFired == derived.ruleFired
            && d.policyVersion == derived.policyVersion && (d.allowed ==> Permits(w, ev, req.action))
            && (Permits(w, ev, req.action) && Within(w, req) && !derived.consequential ==> d.allowed)
            && (d.allowed ==>
                  d.reason == if derived.reason == Stated("") then
                    Stated("within delegated authority") else derived.reason)
  {
  }

  /** decide allows exactly under those conditions, under any evaluator, and always keeps its classification. */
  lemma DecideAllowsIff(w: World, ev: Evaluator, req: Request, seqNo: nat, prevHash: Digest)
    requires req.chain != []
    ensures var d, derived := Decide(w, ev, req, seqNo, prevHash), Classify(w, ev, req.action).decision;
            && (d.allowed <==> AllowConditions(w, ev, req, seqNo, prevHash))
            && d.consequential == derived.consequential && d.ruleFired == derived.ruleFired
            && d.policyVersion == derived.policyVersion
            && (d.allowed && d.consequential ==> d.statusCheckedHops == StatusBearing(req.chain))
  {
    var derived := Classify(w, ev, req.action).decision;
    DecideKeepsClassification(w, ev, req, seqNo, prevHash);
    if Permits(w, ev, req.action) {
      if !Within(w, req) || (derived.consequential && w.status.None?) {
        EarlyDenial(w, ev, req, seqNo, prevHash);
      } else if derived.consequential {
        SweptDecision(w, ev, req, seqNo, prevHash);
        SweepMeaning(w, req.chain);
      }
    }
  }

  /** A failing evaluator's answer is denied with the count it carried. */
  lemma FailedDenial(w: World, ev: Evaluator, req: Request, seqNo: nat, prevHash: Digest)
    requires req.chain != [] && Classify(w, ev, req.action).failed
    ensures var d := Decide(w, ev, req, seqNo, prevHash);
            && d.reason == Refusal(PolicyFailed)
            && d.statusCheckedHops == Classify(w, ev, req.action).decision.statusCheckedHops
  {
  }

  /** An evaluator's own denial is recorded as it gave it; any other denial names the first gate that failed. */
  lemma DenialNamesFirstGate(w: World, ev: Evaluator, req: Request, seqNo: nat, prevHash: Digest)
    requires req.chain != [] && !Decide(w, ev, req, seqNo, prevHash).allowed
    ensures var d, answer := Decide(w, ev, req, seqNo, prevHash), Classify(w, ev, req.action);
            if !answer.failed && !answer.decision.allowed then d == answer.decision
            else
              && d.reason.Refusal?
              && FirstGate(answer.failed, Within(w, req), answer.decision.consequential, w.status.Some?,
                           LooksOf(w, req.chain), ApprovalProblem(w, req, Terminal(req).subject, seqNo, prevHash),
                           answer.decision.statusCheckedHops, d.reason.cause, d.statusCheckedHops)
  {
    var answer := Classify(w, ev, req.action);
    if answer.failed {
      FailedDenial(w, ev, req, seqNo, prevHash);
    } else if answer.decision.allowed {
      if !Within(w, req) || (answer.decision.consequential && w.status.None?) {
        EarlyDenial(w, ev, req, seqNo, prevHash);
      } else if answer.decision.consequential {
        var d := Decide(w, ev, req, seqNo, prevHash);
        SweptDecision(w, ev, req, seqNo, prevHash);
        GateOfSweep(LooksOf(w, req.chain), ApprovalProblem(w, req, Terminal(req).subject, seqNo, prevHash),
                    answer.decision.statusCheckedHops, d.reason.cause, d.statusCheckedHops);
      }
    }
  }

  // ---- the recorded hop count ---------------------------------------------

  /**
   Where the decision comes to the sweep, the count it records is the number of hops that answered if and
   only if no look-up failed, or one did when as many hops had answered as the evaluator's own count says.
   */
  lemma CountTrueIff(w: World, ev: Evaluator, req: Request, seqNo: nat, prevHash: Digest)
    requires req.chain != [] && Within(w, req) && w.status.Some?
    requires Permits(w, ev, req.action) && Classify(w, ev, req.action).decision.consequential
    ensures var d, looks := Decide(w, ev, req, seqNo, prevHash), LooksOf(w, req.chain);
            d.statusCheckedHops == Answered(looks) <==>
            !Sweep(looks).SweepFailed? || Answered(looks) == Classify(w, ev, req.action).decision.statusCheckedHops
  {
    SweptDecision(w, ev, req, seqNo, prevHash);
    SweepCounts(LooksOf(w, req.chain));
  }

  /** Under the shipped classifier: if and only if no look-up failed, or the first one did. */
  lemma ShippedCountTrueIff(w: World, p: Policies.Policy, req: Request, seqNo: nat, prevHash: Digest)
    requires req.chain != [] && Within(w, req) && w.status.Some?
    requires Permits(w, OptionB(p), req.action) && Policies.Evaluation(w.lx, p, req.action).consequential
    ensures var d, looks := Decide(w, OptionB(p), req, seqNo, prevHash), LooksOf(w, req.chain);
            d.statusCheckedHops == Answered(looks) <==> !Sweep(looks).SweepFailed? || Answered(looks) == 0
  {
    CountTrueIff(w, OptionB(p), req, seqNo, prevHash);
    Policies.EvaluationChecksNoHops(w.lx, p, Context(req.action), 0);
  }

  /** What a pass establishes about the request its evidence rebuilds. */
  lemma PassRebuilds(w: World, exp: Export, e: Entry)
    requires EntryVerdict(w, exp, e) == Pass
    ensures Evidenced(w, exp, e.body.draft)
    ensures var req := Rebuild(exp, e.body.draft);
            && req.chain != [] && ChainVerified(w, req.chain)
            && VerifyPossession(Terminal(req), req.pop, req.action, e.body.seqNo, e.body.prevHash)
  {
    var req := Rebuild(exp, e.body.draft);
    assert VerifyPossession(Terminal(req), req.pop, req.action, e.body.seqNo, e.body.prevHash);
  }

  lemma JustifiedAllows(w: World, exp: Export, b: Body, req: Request)
    requires req.chain != [] && Justified(w, exp, b, req.chain)
    requires req.action == b.draft.action && req.approver == b.draft.approvedBy && req.approval == b.draft.approval
    ensures AllowConditions(w, OptionB(exp.policy.value), req, b.seqNo, b.prevHash) <==>
            !b.draft.decision.consequential || w.status.Some?
  {
  }

  lemma PassConditions(w: World, exp: Export, e: Entry)
    requires EntryVerdict(w, exp, e) == Pass
    ensures exp.policy.Some? && Evidenced(w, exp, e.body.draft)
    ensures var req, want := Rebuild(exp, e.body.draft), e.body.draft.decision;
            && req.chain != []
            && var derived := Policies.Evaluation(w.lx, exp.policy.value, req.action);
               && (AllowConditions(w, OptionB(exp.policy.value), req, e.body.seqNo, e.body.prevHash) <==>
                  !want.consequential || w.status.Some?)
               && derived.consequential == want.consequential && derived.ruleFired == want.ruleFired &&
                  derived.policyVersion == want.policyVersion
               && (want.consequential ==> want.statusCheckedHops == StatusBearing(req.chain))
  {
    var req := Rebuild(exp, e.body.draft);
    assert Justified(w, exp, e.body, req.chain);
    JustifiedAllows(w, exp, e.body, req);
  }

  /**
   If the verifier passes an allowed entry, the proxy, asked to decide the rebuilt request at that
   slot under the carried policy, allows it with the same classification and the same hop count,
   exactly when the action is routine or a status source is configured.
   */
  lemma VerifierPassMeansProxyAllows(w: World, exp: Export, e: Entry)
    requires EntryVerdict(w, exp, e) == Pass
    ensures exp.policy.Some? && Evidenced(w, exp, e.body.draft)
    ensures var req, want := Rebuild(exp, e.body.draft), e.body.draft.decision;
            && req.chain != [] && ChainVerified(w, req.chain)
            && VerifyPossession(Terminal(req), req.pop, req.action, e.body.seqNo, e.body.prevHash)
            && var got := Decide(w, OptionB(exp.policy.value), req, e.body.seqNo, e.body.prevHash);
               && (got.allowed <==> !want.consequential || w.status.Some?)
               && got.consequential == want.consequential && got.ruleFired == want.ruleFired &&
                  got.policyVersion == want.policyVersion
               && (got.allowed && want.consequential ==> got.statusCheckedHops == want.statusCheckedHops)
  {
    PassRebuilds(w, exp, e);
    PassConditions(w, exp, e);
    DecideAllowsIff(w, OptionB(exp.policy.value), Rebuild(exp, e.body.draft), e.body.seqNo, e.body.prevHash);
  }

  /**
   With no status source, a consequential allow over a chain that bears no status passes the verifier and
   is refused by the proxy.
   */
  lemma NoStatusSourceDiverges(w: World, exp: Export, e: Entry)
    requires EntryVerdict(w, exp, e) == Pass && e.body.draft.decision.consequential && w.status.None?
    ensures !Decide(w, OptionB(exp.policy.value), Rebuild(exp, e.body.draft), e.body.seqNo, e.body.prevHash).allowed
    ensures StatusBearing(LinksFor(exp, e.body.draft.credentialIDs)) == 0
  {
    VerifierPassMeansProxyAllows(w, exp, e);
    NoneBearing(w, LinksFor(exp, e.body.draft.credentialIDs));
  }

  lemma {:induction false} NoneBearing(w: World, links: seq<Link>)
    requires w.status.None? && NoHopRevoked(w, links)
    ensures StatusBearing(links) == 0
  {
    if links != [] {
      NoneBearing(w, links[..|links| - 1]);
      assert !BearsStatus(links[|links| - 1].credential);
    }
  }

  // ---- from the proxy to the verifier -------------------------------------

  /**
   The entry is what the proxy records of this request under this evaluator, at the position its proof is
   bound to.
   */
  ghost predicate Originates(w: World, ev: Evaluator, req: Request, e: Entry) {
    && Admissible(w, req)
    && VerifyPossession(Terminal(req), req.pop, req.action, e.body.seqNo, e.body.prevHash)
    && e.body.draft == DraftFor(w, ev, req, e.body.seqNo, e.body.prevHash, e.body.draft.timestamp)
  }

  /** Every record is filed under its content address and carries a valid issuance proof. */
  ghost predicate SoundEvidence(w: World, records: Evidence) {
    forall id :: id in records ==>
      && records[id].credentialID == id && IdOf(records[id].credential) == id
      && IssuanceValid(w, records[id].credential, records[id].issuerProof)
  }

  ghost predicate Covers(records: Evidence, e: Entry) {
    forall id :: id in e.body.draft.credentialIDs ==> id in records
  }

  /** An approval present on the request holds at the position of the entry. */
  ghost predicate ApprovalSound(w: World, req: Request, b: Body)
    requires req.chain != []
  {
    SignatureLength(req.approval) == 0 || ApprovalProblem(w, req, Terminal(req).subject, b.seqNo, b.prevHash).None?
  }

  /** Every credential the draft names is on record, under its content address and with a valid issuance proof. */
  ghost predicate Kept(w: World, records: Evidence, d: Draft) {
    forall id :: id in d.credentialIDs ==>
      && id in records && records[id].credentialID == id && IdOf(records[id].credential) == id
      && IssuanceValid(w, records[id].credential, records[id].issuerProof)
  }

  lemma SoundAndCoveredIsKept(w: World, records: Evidence, e: Entry)
    requires SoundEvidence(w, records) && Covers(records, e)
    ensures Kept(w, records, e.body.draft)
  {
  }

  /** What is kept for an entry re-resolves to the credentials of the request it came from. */
  lemma RecordedEvidenceStands(w: World, exp: Export, ev: Evaluator, req: Request, e: Entry)
    requires Originates(w, ev, req, e) && Kept(w, exp.credentials, e.body.draft)
    ensures Evidenced(w, exp, e.body.draft)
    ensures var links := LinksFor(exp, e.body.draft.credentialIDs);
            |links| == |req.chain| && forall i :: 0 <= i < |links| ==> links[i].credential == req.chain[i].credential
  {
    var d := e.body.draft;
    assert forall id :: id in d.credentialIDs ==> HasEvidence(exp, id);
    var links := LinksFor(exp, d.credentialIDs);
    forall i | 0 <= i < |links|
      ensures links[i].credential == req.chain[i].credential &&
              IssuanceValid(w, links[i].credential, links[i].issuerProof)
    {
      assert d.credentialIDs[i] in d.credentialIDs;
      assert d.credentialIDs[i] == IdOf(req.chain[i].credential);
    }
    SameCredentialsVerify(w, req.chain, links);
  }

  lemma EvidencedIsKept(w: World, exp: Export, d: Draft)
    requires Evidenced(w, exp, d)
    ensures Kept(w, exp.credentials, d)
  {
    var links := LinksFor(exp, d.credentialIDs);
    forall id | id in d.credentialIDs
      ensures IssuanceValid(w, exp.credentials[id].credential, exp.credentials[id].issuerProof)
    {
      var i :| 0 <= i < |d.credentialIDs| && d.credentialIDs[i] == id;
      assert HopVerified(w, links, i);
    }
  }

  lemma {:induction false} SameCredentialsSameStatus(w: World, a: seq<Link>, b: seq<Link>)
    requires |a| == |b| && forall i :: 0 <= i < |a| ==> a[i].credential == b[i].credential
    ensures StatusBearing(a) == StatusBearing(b)
    ensures NoHopRevoked(w, a) <==> NoHopRevoked(w, b)
    decreases |a|
  {
    if a != [] {
      SameCredentialsSameStatus(w, a[..|a| - 1], b[..|b| - 1]);
    }
  }

  /** A recorded allow met every gate, under whichever evaluator. */
  lemma AllowMeans(w: World, ev: Evaluator, req: Request, e: Entry)
    requires Originates(w, ev, req, e) && e.body.draft.decision.allowed
    ensures var d, derived := e.body.draft.decision, Classify(w, ev, e.body.draft.action).decision;
            && Permits(w, ev, e.body.draft.action) && derived.consequential == d.consequential
            && derived.ruleFired == d.ruleFired && derived.policyVersion == d.policyVersion
    ensures Within(w, req) && req.action == e.body.draft.action
    ensures e.body.draft.decision.consequential ==>
              && w.status.Some? && NoHopRevoked(w, req.chain)
              && e.body.draft.decision.statusCheckedHops == StatusBearing(req.chain)
              && HasApproval(e.body.draft) && ApprovalSound(w, req, e.body)
  {
    DecideAllowsIff(w, ev, req, e.body.seqNo, e.body.prevHash);
  }

  lemma RecordedApproval(w: World, ev: Evaluator, req: Request, e: Entry)
    requires Originates(w, ev, req, e)
    ensures ApprovalSound(w, req, e.body) <==>
            ApprovalAbsent(e.body.draft) || ApprovalVerifies(w, Terminal(req).subject, e.body)
  {
  }

  lemma RecordedPossession(w: World, ev: Evaluator, req: Request, e: Entry)
    requires Originates(w, ev, req, e)
    ensures var d := e.body.draft;
            && d.popNonce != [] && SignatureLength(d.popSignature) != 0
            && VerifyPossession(Terminal(req), PoP(d.popNonce, d.popSignature), d.action, e.body.seqNo, e.body.prevHash)
  {
  }

  /** The export carries the very policy this evaluator is. */
  ghost predicate Carries(exp: Export, ev: Evaluator) {
    ev.OptionB? && exp.policy == Some(ev.policy)
  }

  lemma RecordedPolicy(w: World, exp: Export, ev: Evaluator, req: Request, e: Entry)
    requires Originates(w, ev, req, e) && e.body.draft.decision.allowed
    ensures PolicyAgrees(w, exp, e.body.draft) <==> Carries(exp, ev)
  {
    AllowMeans(w, ev, req, e);
  }

  /**
   An allow the proxy recorded is justified to the verifier exactly when the export carries the policy it was
   decided under and the approval it carries, if any, holds.
   */
  lemma RecordedAllowJustified(w: World, exp: Export, ev: Evaluator, req: Request, e: Entry, links: seq<Link>)
    requires Originates(w, ev, req, e) && e.body.draft.decision.allowed
    requires |links| == |req.chain| && forall i :: 0 <= i < |links| ==> links[i].credential == req.chain[i].credential
    ensures Justified(w, exp, e.body, links) <==> Carries(exp, ev) && ApprovalSound(w, req, e.body)
    ensures e.body.draft.decision.consequential ==> ApprovalSound(w, req, e.body)
  {
    AllowMeans(w, ev, req, e);
    RecordedPolicy(w, exp, ev, req, e);
    RecordedPossession(w, ev, req, e);
    RecordedApproval(w, ev, req, e);
    SameCredentialsSameStatus(w, links, req.chain);
    assert links[|links| - 1].credential == Terminal(req);
  }

  /**
   What the verifier says of an entry the proxy recorded, under any evaluator and whatever evidence the export
   holds: it fails without the evidence; with it a denial passes as one, and an allow passes exactly when the
   export carries its policy and the approval the request carried, if any, holds. For a consequential allow it does.
   */
  lemma ProxyEntryVerdict(w: World, exp: Export, ev: Evaluator, req: Request, e: Entry)
    requires !IsV1(exp) && Originates(w, ev, req, e)
    ensures EntryVerdict(w, exp, e) ==
            if !Kept(w, exp.credentials, e.body.draft) then Fail
            else if !e.body.draft.decision.allowed then PassDeny
            else if Carries(exp, ev) && ApprovalSound(w, req, e.body) then Pass
            else Fail
    ensures e.body.draft.decision.allowed && e.body.draft.decision.consequential ==> ApprovalSound(w, req, e.body)
  {
    if Kept(w, exp.credentials, e.body.draft) {
      RecordedEvidenceStands(w, exp, ev, req, e);
    } else if Evidenced(w, exp, e.body.draft) {
      EvidencedIsKept(w, exp, e.body.draft);
    }
    if e.body.draft.decision.allowed {
      AllowMeans(w, ev, req, e);
      if Kept(w, exp.credentials, e.body.draft) {
        RecordedAllowJustified(w, exp, ev, req, e, LinksFor(exp, e.body.draft.credentialIDs));
      }
    }
  }
}
