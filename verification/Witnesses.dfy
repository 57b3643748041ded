/** Inputs on which the programs part from what a reader may expect, each one the code can receive. */
module Witnesses {
  import opened Util
  import opened Scalar
  import opened Types
  import opened Artifacts
  import opened Chains
  import opened Audit
  import opened Exports
  import opened Enforcement
  import opened Agreement
  import opened Runs
  import opened Guarantees
  import opened Handling
  import opened StatusLists
  import opened Tampering
  import Macaroons
  import Policies

  // ---- one small deployment -----------------------------------------------

  /**
   Every DID resolves to its own key, no text is a scalar, and any plugged-in evaluator calls every action
   routine.
   */
  function Place(status: Option<string -> Option<SignedList>>): World {
    World(Lexicon(s => None, s => None), d => Some(Key(d)), status,
          (id, a) => Evaluated(Decision(true, false, "", "", 0, Stated("")), false))
  }

  const EP := Signer("did:ep", Key("did:ep"))
  const PAY := Action("pay", "acme", map[], Timestamp("2026-01-01T00:00:00Z", 0))

  /** The agent's credential under these caveats, with no status list. */
  function Grant(caveats: seq<Macaroons.Caveat>): Credential {
    Credential("did:agent", "did:org", Macaroons.Macaroon("", "id", caveats, Macaroons.Raw([1])),
               StatusRef("", 0, ""), Some(JwkOf(Key("did:agent"))), "")
  }

  function OneHop(caveats: seq<Macaroons.Caveat>): seq<Link> {
    [Link(Grant(caveats), Signed(Key("did:org"), IssuanceMessage(Grant(caveats)), 0))]
  }

  lemma OneHopVerifies(w: World, caveats: seq<Macaroons.Caveat>)
    requires w.dids("did:org") == Some(Key("did:org")) && w.dids("did:agent") == Some(Key("did:agent"))
    ensures ChainVerified(w, OneHop(caveats))
  {
    assert HopVerified(w, OneHop(caveats), 0);
  }

  /** A policy with no rules: every action gets the default. */
  function Flat(allowed: bool, consequential: bool): Policies.Policy {
    Policies.Policy("v1", [], Policies.Default(allowed, consequential, "flat"))
  }

  const PROOF := PoP([7], Signed(Key("did:agent"), PossessionMessage("did:agent", "id", [7], PAY, 0, Genesis), 0))

  /** A payment bound to the first slot of a log. */
  function Payment(approver: DID, approval: Signature): Request {
    Request(OneHop([]), PAY, PROOF, approver, approval)
  }

  lemma PaymentAdmissible(w: World, approver: DID, approval: Signature)
    requires w.dids("did:org") == Some(Key("did:org")) && w.dids("did:agent") == Some(Key("did:agent"))
    requires SignatureLength(approval) <= MAX_SIGNATURE_BYTES
    ensures Admissible(w, Payment(approver, approval))
  {
    OneHopVerifies(w, []);
  }

  // ---- a root that chain verification accepts -----------------------------

  /** Hop 0 may carry caveats that do not narrow each other, and then the last one on a field does not decide. */
  lemma LastCaveatCanMislead() returns (w: World, links: seq<Link>, ctx: Macaroons.Ctx)
    ensures ChainVerified(w, links)
    ensures var cs := links[|links| - 1].credential.macaroon.caveats;
            Macaroons.LastsSatisfied(w.lx, cs, ctx) && !Macaroons.AllSatisfied(w.lx, cs, ctx)
  {
    var first := Macaroons.Caveat("region", Eq, "eu");
    var cs := [first, Macaroons.Caveat("region", Eq, "us")];
    w, links, ctx := Place(None), OneHop(cs), map["region" := "us"];
    OneHopVerifies(w, cs);
    assert cs[1].field == cs[0].field;
    assert first in cs && !Macaroons.Satisfied(w.lx, first, ctx);
  }

  // ---- one entry by hand --------------------------------------------------

  function OnRecord(): Evidence {
    AddRecord(map[], Grant([]), OneHop([])[0].issuerProof)
  }

  /** What the log records of the payment's chain, under a decision, a policy, a proof and an approval. */
  function Record(d: Decision, p: PolicyID, pop: PoP, approver: DID, approval: Signature): Draft {
    Draft(PAY, Principals(OneHop([])), ChainIDs(OneHop([])), d, p, pop.nonce, pop.signature, approver, approval, 0)
  }

  function OneEntry(d: Draft): Entry {
    SealAt([], EP, d, 0)
  }

  lemma RecordEvidenced(w: World, exp: Export, d: Draft)
    requires w.dids("did:org") == Some(Key("did:org")) && w.dids("did:agent") == Some(Key("did:agent"))
    requires exp.credentials == OnRecord()
    requires d.resolvedChain == Principals(OneHop([])) && d.credentialIDs == ChainIDs(OneHop([]))
    ensures Evidenced(w, exp, d) && LinksFor(exp, d.credentialIDs) == OneHop([])
  {
    OneHopVerifies(w, []);
    assert d.credentialIDs == [IdOf(Grant([]))];
    assert LinksFor(exp, d.credentialIDs) == OneHop([]);
  }

  lemma OneEntryPasses(w: World, policy: Option<Policies.Policy>, d: Draft) returns (exp: Export)
    requires w.dids("did:ep") == Some(Key("did:ep"))
    ensures exp == Build(EP, [OneEntry(d)], OnRecord(), policy, 0)
    ensures EntryVerdict(w, exp, OneEntry(d)) != Fail ==> Passes(w, exp)
  {
    exp := Build(EP, [OneEntry(d)], OnRecord(), policy, 0);
    assert Chained([], EP.key);
    assert [] + [OneEntry(d)] == [OneEntry(d)];
  }

  /** A denial that records no proof of possession passes, and no chain attributes it. */
  lemma DenialWithoutProofPasses() returns (w: World, exp: Export)
    ensures Passes(w, exp) && |exp.entries| == 1 && !exp.entries[0].body.draft.decision.allowed
    ensures forall chain :: !Attributable(w, exp.entries[0].body, chain)
  {
    w := Place(None);
    var d := Record(Decision(false, false, "", "", 0, Stated("")), NoPolicyID, PoP([], NO_SIGNATURE), "", NO_SIGNATURE);
    exp := OneEntryPasses(w, None, d);
    RecordEvidenced(w, exp, d);
  }

  /** With no status source, a consequential allow over a chain that bears no status passes. */
  lemma ConsequentialPassesWithoutSource() returns (w: World, exp: Export)
    ensures Passes(w, exp) && w.status.None? && |exp.entries| == 1
    ensures ConsequentialAllow(exp.entries[0]) && EntryVerdict(w, exp, exp.entries[0]) == Pass
  {
    w := Place(None);
    var p := Flat(true, true);
    var approval := Signed(Key("did:human"), ApprovalMessage("did:agent", PAY, 0, Genesis), 0);
    var d := Record(Policies.DefaultDecision(p), IdOfPolicy(p), PROOF, "did:human", approval);
    exp := OneEntryPasses(w, Some(p), d);
    RecordEvidenced(w, exp, d);
    assert Policies.Evaluation(w.lx, p, PAY) == Policies.DefaultDecision(p);
    assert Grant([]).macaroon.caveats == [];
    NoStatusOnHop(w);
    assert Justified(w, exp, OneEntry(d).body, OneHop([]));
  }

  lemma NoStatusOnHop(w: World)
    ensures StatusBearing(OneHop([])) == 0 && NoHopRevoked(w, OneHop([]))
  {
    assert OneHop([])[..0] == [];
  }

  // ---- runs ---------------------------------------------------------------

  lemma FirstPayment(w: World, ev: Evaluator, records: Evidence, approver: DID, approval: Signature, time: int)
    ensures var req := Payment(approver, approval);
            Enter(w, Config(EP, ev), [], records, req, time, Some(0)) ==
            Ready(OneEntry(DraftFor(w, ev, req, 0, Genesis, time)), NewEvidence(records.Keys, req.chain))
  {
  }

  /** A run whose export fails: a routine action is allowed and logged with an approval that is no approval. */
  lemma JunkApprovalRunFails() returns (w: World, cfg: Config, evs: seq<Event>, s: Node)
    ensures Run(w, false, Init(cfg), evs) == Some(s) && OptionBOnly(cfg, evs) && s.phase.Idle?
    ensures w.dids(s.cfg.signer.did) == Some(s.cfg.signer.key)
    ensures |s.entries| == 1 && s.entries[0].body.draft.decision.allowed
    ensures forall exp :: ExportOf(s, exp) ==> !Passes(w, exp)
  {
    w, cfg := Place(None), Config(EP, OptionB(Flat(true, false)));
    PaymentAdmissible(w, "did:human", JUNK);
    JunkPaymentLogged(w);
    evs, s := CallIsRun(w, false, Init(cfg), State([], map[], []), Payment("did:human", JUNK), 0, Some(0), Synced);
    forall exp | ExportOf(s, exp) ensures !Passes(w, exp) {
      CompletenessIff(w, false, cfg, evs, s, exp);
    }
  }

  const JUNK := Junk([1])

  lemma JunkPaymentLogged(w: World)
    ensures var q := Handled(w, Config(EP, OptionB(Flat(true, false))), false, State([], map[], []),
                             Payment("did:human", JUNK), 0, Some(0), Synced).1;
            |q.entries| == 1 && q.entries[0].body.draft.decision.allowed && !ApprovalClean(w, q.entries[0].body)
  {
    FirstPayment(w, OptionB(Flat(true, false)), map[], "did:human", JUNK, 0);
    RoutineAllowed(w, Payment("did:human", JUNK));
  }

  lemma RoutineAllowed(w: World, req: Request)
    requires req.chain == OneHop([])
    ensures Decide(w, OptionB(Flat(true, false)), req, 0, Genesis).allowed
  {
    assert Grant([]).macaroon.caveats == [];
    assert Policies.Evaluation(w.lx, Flat(true, false), req.action) == Policies.DefaultDecision(Flat(true, false));
  }

  /** One call whose record reached the file although the append failed. */
  lemma FailedAppendLeaves(w: World, p: Policies.Policy, file: seq<WalItem>) returns (r: WalRecord)
    ensures var c := Call(Payment("", NO_SIGNATURE), 0, Some(0), FailedWritten);
            Admissible(w, c.req) ==>
              Serve(w, Config(EP, OptionB(p)), true, State([], map[], file), c) ==
                (State([], map[], file + [Rec(r)]), [])
  {
    var req := Payment("", NO_SIGNATURE);
    FirstPayment(w, OptionB(p), map[], "", NO_SIGNATURE, 0);
    r := WalRecord(OneEntry(DraftFor(w, OptionB(p), req, 0, Genesis, 0)), NewEvidence({}, req.chain));
    var none: Evidence := map[];
    assert none.Keys == {};
  }

  lemma TwoFailedAppends(w: World, p: Policies.Policy)
    requires Admissible(w, Payment("", NO_SIGNATURE))
    ensures var c := Call(Payment("", NO_SIGNATURE), 0, Some(0), FailedWritten);
            var q := Served(w, Config(EP, OptionB(p)), true, State([], map[], []), [c, c]).0;
            q.entries == [] && |q.file| == 2
  {
    var c, cfg, start :=
      Call(Payment("", NO_SIGNATURE), 0, Some(0), FailedWritten), Config(EP, OptionB(p)), State([], map[], []);
    var r1 := FailedAppendLeaves(w, p, []);
    var r2 := FailedAppendLeaves(w, p, [] + [Rec(r1)]);
    assert [c][..0] == [] && [c, c][..1] == [c];
    assert Served(w, cfg, true, start, [c]).0 == State([], map[], [] + [Rec(r1)]);
  }

  lemma CrashAfter(w: World, durable: bool, s: Node, evs: seq<Event>, t: Node)
    requires Run(w, durable, s, evs) == Some(t) && t.phase.Idle?
    ensures Run(w, durable, s, evs + [Crash]) == Some(t.(phase := Down))
  {
    OneStep(w, durable, t, Crash, t.(phase := Down));
    RunConcat(w, durable, s, evs, t, [Crash]);
  }

  /** A run that leaves two records in the file and none in the log: a failed append, then another. */
  lemma LeftoverRunReached() returns (w: World, cfg: Config, evs: seq<Event>, s: Node)
    ensures Run(w, true, Init(cfg), evs) == Some(s) && s.phase.Down? && |s.file| > |s.entries| + 1
  {
    w, cfg := Place(None), Config(EP, OptionB(Flat(true, false)));
    PaymentAdmissible(w, "", NO_SIGNATURE);
    var c := Call(Payment("", NO_SIGNATURE), 0, Some(0), FailedWritten);
    TwoFailedAppends(w, Flat(true, false));
    var before, t := CallsAreRuns(w, true, Init(cfg), State([], map[], []), [c, c]);
    CrashAfter(w, true, Init(cfg), before, t);
    evs, s := before + [Crash], t.(phase := Down);
  }

  // ---- one approval, two allows -------------------------------------------

  const APPROVAL := Signed(Key("did:human"), ApprovalMessage("did:agent", PAY, 0, Genesis), 0)

  lemma ApprovedAllowed(w: World)
    requires w.status.Some? && w.dids("did:human") == Some(Key("did:human"))
    ensures var d := Decide(w, OptionB(Flat(true, true)), Payment("did:human", APPROVAL), 0, Genesis);
            d.allowed && d.consequential
  {
    var req := Payment("did:human", APPROVAL);
    assert Policies.Evaluation(w.lx, Flat(true, true), PAY) == Policies.DefaultDecision(Flat(true, true));
    NoStatusOnHop(w);
    assert Grant([]).macaroon.caveats == [];
    assert ApprovalProblem(w, req, "did:agent", 0, Genesis).None?;
    DecideAllowsIff(w, OptionB(Flat(true, true)), req, 0, Genesis);
  }

  lemma ApprovedPaymentLogged(w: World)
    requires w.status.Some? && w.dids("did:human") == Some(Key("did:human"))
    ensures var req, ev := Payment("did:human", APPROVAL), OptionB(Flat(true, true));
            var q := Handled(w, Config(EP, ev), false, State([], map[], []), req, 0, Some(0), Synced).1;
            && |q.entries| == 1 && q.entries[0] == OneEntry(DraftFor(w, ev, req, 0, Genesis, 0))
            && ConsequentialAllow(q.entries[0]) && q.entries[0].body.draft.approval == APPROVAL
  {
    FirstPayment(w, OptionB(Flat(true, true)), map[], "did:human", APPROVAL, 0);
    ApprovedAllowed(w);
  }

  lemma PaymentOriginates(w: World, ev: Evaluator, approver: DID, approval: Signature)
    requires Admissible(w, Payment(approver, approval))
    ensures Originates(w, ev, Payment(approver, approval),
                       OneEntry(DraftFor(w, ev, Payment(approver, approval), 0, Genesis, 0)))
  {
  }

  /**
   Without a write-ahead log: one approval carries a consequential allow in one log and, after a restart,
   in the next.
   */
  lemma OneApprovalTwoLogs() returns (w: World, cfg: Config, evs: seq<Event>, s: Node, more: seq<Event>, t: Node)
    ensures Run(w, false, Init(cfg), evs) == Some(s) && |s.entries| == 1 && ConsequentialAllow(s.entries[0])
    ensures Run(w, false, s, more) == Some(t) && t.phase.Sealed? && ConsequentialAllow(t.phase.entry)
    ensures t.phase.entry.body.draft.approval == s.entries[0].body.draft.approval
  {
    w, cfg := Place(Some(url => None)), Config(EP, OptionB(Flat(true, true)));
    var req := Payment("did:human", APPROVAL);
    PaymentAdmissible(w, "did:human", APPROVAL);
    ApprovedPaymentLogged(w);
    PaymentOriginates(w, cfg.evaluator, "did:human", APPROVAL);
    var first, up := CallIsRun(w, false, Init(cfg), State([], map[], []), req, 0, Some(0), Synced);
    CrashAfter(w, false, Init(cfg), first, up);
    evs, s := first + [Crash], up.(phase := Down);
    more := [Restart(cfg), Submit(req), EnterLock(req, 0, Some(0))];
    FreshLogAcceptsAgain(w, s, cfg, cfg.evaluator, req, s.entries[0], 0, 0);
    t := Run(w, false, s, more).value;
  }

  // ---- a log written down -------------------------------------------------

  /** The entry a payment without an approval makes in an empty log under this evaluator. */
  ghost function PaidEntry(w: World, ev: Evaluator): Entry {
    OneEntry(DraftFor(w, ev, Payment("", NO_SIGNATURE), 0, Genesis, 0))
  }

  ghost function PaidRecord(w: World, ev: Evaluator): WalRecord {
    WalRecord(PaidEntry(w, ev), NewEvidence({}, OneHop([])))
  }

  lemma PaidHandled(w: World, ev: Evaluator)
    ensures var req, cfg := Payment("", NO_SIGNATURE), Config(EP, ev);
            var (r, q) := Handled(w, cfg, true, State([], map[], []), req, 0, Some(0), Synced);
            && r.Decided? && r.entry == PaidEntry(w, ev)
            && q.entries == [PaidEntry(w, ev)] && q.file == [Rec(PaidRecord(w, ev))]
  {
    FirstPayment(w, ev, map[], "", NO_SIGNATURE, 0);
    var none: Evidence := map[];
    assert none.Keys == {};
  }

  /** A payment decided, written down and returned, and then a crash. */
  lemma PaidAndDown(w: World, ev: Evaluator) returns (evs: seq<Event>, s: Node)
    requires Admissible(w, Payment("", NO_SIGNATURE))
    ensures Run(w, true, Init(Config(EP, ev)), evs) == Some(s) && NoRestart(evs)
    ensures s.phase.Down? && s.cfg == Config(EP, ev)
    ensures s.entries == [PaidEntry(w, ev)] && s.returned == [PaidEntry(w, ev)] && s.file == [Rec(PaidRecord(w, ev))]
  {
    var cfg := Config(EP, ev);
    PaidHandled(w, ev);
    var before, t := CallIsRun(w, true, Init(cfg), State([], map[], []), Payment("", NO_SIGNATURE), 0, Some(0), Synced);
    CrashAfter(w, true, Init(cfg), before, t);
    evs, s := before + [Crash], t.(phase := Down);
  }

  lemma PaidChained(w: World, ev: Evaluator)
    ensures Chained([PaidEntry(w, ev)], EP.key)
  {
    assert Chained([], EP.key);
    assert [] + [PaidEntry(w, ev)] == [PaidEntry(w, ev)];
  }

  /** What one record of this entry, with whatever evidence beside it, recovers to. */
  lemma PaidRecovers(w: World, ev: Evaluator, cfg: Config, s: Node, creds: seq<CredentialRecord>)
    requires cfg.signer == EP && s.phase.Down? && s.file == [Rec(WalRecord(PaidEntry(w, ev), creds))]
    requires ev == cfg.evaluator || !ev.OptionB?
    ensures var t := Step(w, true, s, Restart(cfg));
            && t.Some? && t.value.phase.Idle? && t.value.cfg == cfg
            && t.value.entries == [PaidEntry(w, ev)] && t.value.records == AddAll(map[], creds)
  {
    PaidChained(w, ev);
    var rs := RecordsOf(s.file);
    assert EntriesOf(rs) == [PaidEntry(w, ev)];
    PaidContinues(w, ev, cfg);
    assert rs[..|rs| - 1] == [];
    assert EvidenceOf(rs) == AddAll(map[], creds);
    assert Step(w, true, s, Restart(cfg)) == Some(Resumed(s, cfg, rs));
  }

  lemma PaidContinues(w: World, ev: Evaluator, cfg: Config)
    requires ev == cfg.evaluator || !ev.OptionB?
    ensures PolicyContinues(cfg, [PaidEntry(w, ev)])
  {
  }

  /** Truncation loses a decision that was returned: the file is cut to nothing and the log comes up empty. */
  lemma TruncationLosesDecision() returns (w: World, cfg: Config, evs: seq<Event>, s: Node, t: Node)
    ensures Run(w, true, Init(cfg), evs) == Some(s) && s.phase.Down?
    ensures |s.returned| == 1 && s.returned[0].body.draft.decision.allowed
    ensures Step(w, true, s.(file := s.file[..0]), Restart(cfg)) == Some(t) && t.phase.Idle? && t.entries == []
  {
    w, cfg := Place(None), Config(EP, OptionB(Flat(true, false)));
    PaymentAdmissible(w, "", NO_SIGNATURE);
    RoutineAllowed(w, Payment("", NO_SIGNATURE));
    evs, s := PaidAndDown(w, cfg.evaluator);
    PaidChained(w, cfg.evaluator);
    assert EntriesOf(RecordsOf(s.file)) == s.entries;
    CutRestart(w, s, cfg, 0);
    t := Step(w, true, s.(file := s.file[..0]), Restart(cfg)).value;
  }

  lemma PluginPays(status: Option<string -> Option<SignedList>>)
    ensures var w := Place(status); var d := PaidEntry(w, Plugin(0)).body.draft;
            d.decision.allowed && d.policyID == NoPolicyID
  {
    assert Grant([]).macaroon.caveats == [];
  }

  /** A log of another evaluator's allows, resumed under a policy: recovery accepts it and every export of it fails. */
  lemma PluginLogResumedFails() returns (w: World, cfg: Config, evs: seq<Event>, s: Node)
    ensures Run(w, true, Init(cfg), evs) == Some(s) && s.phase.Idle? && s.cfg.evaluator.OptionB?
    ensures w.dids(s.cfg.signer.did) == Some(s.cfg.signer.key) && |s.entries| == 1
    ensures forall exp :: ExportOf(s, exp) ==> !Passes(w, exp)
  {
    w, cfg := Place(None), Config(EP, Plugin(0));
    var next := Config(EP, OptionB(Flat(true, false)));
    PaymentAdmissible(w, "", NO_SIGNATURE);
    var before, down := PaidAndDown(w, Plugin(0));
    PaidRecovers(w, Plugin(0), next, down, NewEvidence({}, OneHop([])));
    s := Step(w, true, down, Restart(next)).value;
    OneStep(w, true, down, Restart(next), s);
    RunConcat(w, true, Init(cfg), before, down, [Restart(next)]);
    evs := before + [Restart(next)];
    PluginPays(None);
    forall exp | ExportOf(s, exp) ensures !Passes(w, exp) {
      CompletenessIff(w, true, cfg, evs, s, exp);
      assert !Presentable(w, s.entries[0].body);
    }
  }

  lemma NothingKept(w: World, ev: Evaluator)
    ensures !Kept(w, map[], PaidEntry(w, ev).body.draft)
  {
    assert IdOf(Grant([])) in ChainIDs(OneHop([])) by {
      assert ChainIDs(OneHop([]))[0] == IdOf(Grant([]));
    }
  }

  /** A file with its entries intact and its evidence dropped: recovery accepts it and every export of it fails. */
  lemma StrippedEvidenceFails() returns (w: World, keys: set<Key>, cfg: Config, ms: seq<Move>, s: Node)
    ensures cfg.signer.key in keys && MoveRun(w, keys, Init(cfg), ms) == Some(s) && s.phase.Idle?
    ensures w.dids(s.cfg.signer.did) == Some(s.cfg.signer.key) && |s.entries| == 1
    ensures forall exp :: ExportOf(s, exp) ==> !Passes(w, exp)
  {
    w, keys, cfg := Place(None), {EP.key}, Config(EP, OptionB(Flat(true, false)));
    var ev := cfg.evaluator;
    PaymentAdmissible(w, "", NO_SIGNATURE);
    var evs, down := PaidAndDown(w, ev);
    RunIsMoveRun(w, keys, Init(cfg), evs, down);
    var file := [Rec(WalRecord(PaidEntry(w, ev), []))];
    StrippedUnforged(w, keys, cfg, evs, down, file);
    PaidRecovers(w, ev, cfg, down.(file := file), []);
    s := Step(w, true, down.(file := file), Restart(cfg)).value;
    StrippedMoves(w, keys, cfg, down, file, s);
    MoveConcat(w, keys, Init(cfg), Moves(evs), down, [Rewrite(file), Normal(Restart(cfg))]);
    ms := Moves(evs) + [Rewrite(file), Normal(Restart(cfg))];
    NothingKept(w, ev);
    forall exp | ExportOf(s, exp) ensures !Passes(w, exp) {
      TamperedExportIff(w, keys, cfg, ms, s, exp);
      assert !Kept(w, s.records, s.entries[0].body.draft);
    }
  }

  lemma ReachableIn(w: World, cfg: Config, evs: seq<Event>, s: Node)
    requires Run(w, true, Init(cfg), evs) == Some(s)
    ensures AllIn(s.entries, s.sealed)
  {
    Reachable(w, true, cfg, evs, s);
  }

  lemma StrippedUnforged(w: World, keys: set<Key>, cfg: Config, evs: seq<Event>, down: Node, file: seq<WalItem>)
    requires Run(w, true, Init(cfg), evs) == Some(down) && |down.entries| == 1
    requires |file| == 1 && file[0].Rec? && file[0].record.entry == down.entries[0]
    ensures Unforged(keys, down.sealed, file)
  {
    ReachableIn(w, cfg, evs, down);
    SealedIsKnown(down.sealed, down.entries[0]);
  }

  lemma StrippedMoves(w: World, keys: set<Key>, cfg: Config, down: Node, file: seq<WalItem>, s: Node)
    requires cfg.signer.key in keys && Unforged(keys, down.sealed, file)
    requires Step(w, true, down.(file := file), Restart(cfg)) == Some(s)
    ensures MoveRun(w, keys, down, [Rewrite(file), Normal(Restart(cfg))]) == Some(s)
  {
    var ms := [Rewrite(file), Normal(Restart(cfg))];
    assert ms[1..] == [Normal(Restart(cfg))] && ms[1..][1..] == [];
    assert MoveStep(w, keys, down, ms[0]) == Some(down.(file := file));
    assert MoveRun(w, keys, s, []) == Some(s);
  }

  // ---- a sweep that fails half way ----------------------------------------

  const LIVE := SignedList("did:org", REVOCATION, seq(16384, i => 0), Signed(Key("did:org"),
                           StatusMessage("did:org", REVOCATION, seq(16384, i => 0)), 0))

  /** The organisation's list is published at one address and nothing at any other. */
  function HalfPublished(): World {
    Place(Some(url => if url == "https://org/status" then Some(LIVE) else None))
  }

  /** A credential under the running macaroon, with this status address. */
  function Noted(subject: DID, issuer: DID, url: string): Credential {
    Credential(subject, issuer, Macaroons.Macaroon("", "id", [], Macaroons.Raw([1])), StatusRef(url, 0, ""),
               Some(JwkOf(Key(subject))), "")
  }

  function Issued(c: Credential): Link {
    Link(c, Signed(Key(c.issuer), IssuanceMessage(c), 0))
  }

  /** First hop on the published list, second on a list nobody published. */
  function HalfListed(): seq<Link> {
    [Issued(Noted("did:team", "did:org", "https://org/status")),
     Issued(Noted("did:agent", "did:team", "https://team/status"))]
  }

  lemma HalfListedVerifies(w: World)
    requires w == HalfPublished()
    ensures ChainVerified(w, HalfListed())
  {
    var links := HalfListed();
    assert HopVerified(w, links, 0);
    var parent, m := links[0].credential.macaroon, links[1].credential.macaroon;
    assert m.caveats[|parent.caveats|..] == [];
    assert Macaroons.AdmittedInTurn(w.lx, parent.caveats, []);
    assert HopVerified(w, links, 1);
  }

  lemma FirstHopLive(w: World)
    requires w == HalfPublished()
    ensures LookAt(w, HalfListed()[0].credential) == Live && LookAt(w, HalfListed()[1].credential) == Look.Unknown
  {
    var c := HalfListed()[0].credential;
    assert LIVE.bits[0] == 0;
    assert !BitSet(LIVE.bits, 0);
    assert HopRevoked(w, c) == LookupIn(LIVE.bits, 0);
  }

  lemma HalfSwept(looks: seq<Look>)
    requires looks == [Live, Look.Unknown]
    ensures Sweep(looks) == SweepFailed && Answered(looks) == 1
  {
    assert looks[..1] == [Live] && [Live][..0] == [];
    assert Sweep([Live]) == SweepClear(1) && Answered([Live]) == 1;
  }

  /** A denial that records 0 checked hops although one answered: the second hop's list cannot be found. */
  lemma FailedLookupForgetsCount() returns (w: World, p: Policies.Policy, req: Request)
    ensures Admissible(w, req) && Sweep(LooksOf(w, req.chain)).SweepFailed? && Answered(LooksOf(w, req.chain)) == 1
    ensures var d := Decide(w, OptionB(p), req, 0, Genesis);
            !d.allowed && d.consequential && d.statusCheckedHops == 0 && d.reason == Refusal(StatusFailed)
  {
    w, p := HalfPublished(), Flat(true, true);
    req := Request(HalfListed(), PAY, PROOF, "", NO_SIGNATURE);
    HalfListedVerifies(w);
    FirstHopLive(w);
    assert LooksOf(w, req.chain) == [Live, Look.Unknown];
    HalfSwept(LooksOf(w, req.chain));
    assert Policies.Evaluation(w.lx, p, PAY) == Policies.DefaultDecision(p);
    assert Terminal(req).macaroon.caveats == [];
    SweptDecision(w, OptionB(p), req, 0, Genesis);
  }
}
