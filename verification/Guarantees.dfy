/** What holds of every run: attribution, single use, log-before-act across crashes, and completeness. */
module Guarantees {
  import opened Util
  import opened Types
  import opened Artifacts
  import opened Chains
  import opened Audit
  import opened Exports
  import opened Enforcement
  import opened Agreement
  import opened Runs
  import Macaroons
  import Policies

  lemma Reachable(w: World, durable: bool, cfg: Config, evs: seq<Event>, s: Node)
    requires Run(w, durable, Init(cfg), evs) == Some(s)
    ensures Inv(w, durable, s)
  {
    InitHolds(w, durable, cfg);
    RunKeeps(w, durable, Init(cfg), evs, s);
  }

  // ---- attribution and justification --------------------------------------

  /**
   The body names a chain that verifies, each hop signed by its issuer's own key and bound to its subject's, and
   its last principal's own key signed for this action at this position.
   */
  ghost predicate Attributable(w: World, b: Body, chain: seq<Link>) {
    var d := b.draft;
    && ChainVerified(w, chain) && (forall i :: 0 <= i < |chain| ==> HopMeans(w, chain, i))
    && Principals(chain) == d.resolvedChain && ChainIDs(chain) == d.credentialIDs
    && var actor, id := d.resolvedChain[|d.resolvedChain| - 1], chain[|chain| - 1].credential.macaroon.identifier;
       && d.popNonce != [] && d.popSignature.Signed? && w.dids(actor) == Some(d.popSignature.key)
       && d.popSignature.message == PossessionMessage(actor, id, d.popNonce, d.action, b.seqNo, b.prevHash)
  }

  /**
   What an allow must rest on, given what its evaluator derived: the derivation, the caveats and, if
   consequential, more.
   */
  ghost predicate AllowHolds(w: World, derived: Decision, b: Body, chain: seq<Link>)
    requires chain != []
  {
    var d, t := b.draft, chain[|chain| - 1].credential;
    && derived.allowed && derived.consequential == d.decision.consequential
    && derived.ruleFired == d.decision.ruleFired && derived.policyVersion == d.decision.policyVersion
    && Macaroons.AllSatisfied(w.lx, t.macaroon.caveats, AuthorityContext(t, d.action))
    && (d.decision.consequential ==>
          && ListedClear(w, chain) && d.decision.statusCheckedHops == StatusBearing(chain)
          && ApprovedBy(w, t.subject, b))
  }

  /** An allow under policy p. */
  ghost predicate AllowJustified(w: World, p: Policies.Policy, b: Body, chain: seq<Link>)
    requires chain != []
  {
    AllowHolds(w, Policies.Evaluation(w.lx, p, b.draft.action), b, chain)
  }

  /**
   An allow by the proxy under any evaluator: it answered and permits, and a consequential action had a
   status source.
   */
  ghost predicate AllowRests(w: World, ev: Evaluator, b: Body, chain: seq<Link>)
    requires chain != []
  {
    && !Classify(w, ev, b.draft.action).failed
    && AllowHolds(w, Classify(w, ev, b.draft.action).decision, b, chain)
    && (b.draft.decision.consequential ==> w.status.Some?)
  }

  lemma OriginAttributes(w: World, ev: Evaluator, req: Request, e: Entry)
    requires Originates(w, ev, req, e)
    ensures Attributable(w, e.body, req.chain)
    ensures e.body.draft.policyID == PolicyIDOf(CarriedPolicy(ev))
  {
    ActorIsBound(w, req.chain);
    ChainMeans(w, req.chain);
  }

  lemma OriginRests(w: World, ev: Evaluator, req: Request, e: Entry)
    requires Originates(w, ev, req, e) && e.body.draft.decision.allowed
    ensures AllowRests(w, ev, e.body, req.chain)
  {
    AllowMeans(w, ev, req, e);
    RecordedApproval(w, ev, req, e);
    NoHopRevokedMeans(w, req.chain);
    ApprovalMeans(w, Terminal(req).subject, e.body);
  }

  /** Each entry of a node that keeps the invariant sits at its own index, on the tip before it, and has an origin. */
  lemma EntryOrigin(w: World, s: Node, i: nat)
    requires Chained(s.entries, s.cfg.signer.key) && AllIn(s.entries, s.sealed) && i < |s.entries|
    requires s.entries[i] in s.sealed ==> Good(w, s.admitted, s.evaluators, s.entries[i])
    ensures s.entries[i].body.seqNo == i && s.entries[i].body.prevHash == LogTip(s.entries[..i])
    ensures Good(w, s.admitted, s.evaluators, s.entries[i])
  {
    assert Intact(s.entries, i, s.cfg.signer.key);
  }

  lemma ReachableOrigin(w: World, durable: bool, cfg: Config, evs: seq<Event>, s: Node, i: nat)
    requires Run(w, durable, Init(cfg), evs) == Some(s) && i < |s.entries|
    ensures s.entries[i].body.seqNo == i && s.entries[i].body.prevHash == LogTip(s.entries[..i])
    ensures Good(w, s.admitted, s.evaluators, s.entries[i])
  {
    Reachable(w, durable, cfg, evs, s);
    EntryOrigin(w, s, i);
  }

  lemma GoodAttributes(w: World, admitted: set<Request>, evaluators: set<Evaluator>, e: Entry)
    returns (chain: seq<Link>, ev: Evaluator)
    requires Good(w, admitted, evaluators, e)
    ensures Attributable(w, e.body, chain) && ev in evaluators
    ensures e.body.draft.policyID == PolicyIDOf(CarriedPolicy(ev))
    ensures e.body.draft.decision.allowed ==> AllowRests(w, ev, e.body, chain)
  {
    var req, used :| req in admitted && used in evaluators && Originates(w, used, req, e);
    OriginAttributes(w, used, req, e);
    if e.body.draft.decision.allowed {
      OriginRests(w, used, req, e);
    }
    chain, ev := req.chain, used;
  }

  /**
   In every reachable state each entry, denials included, is attributable at its own index, and each allow
   rests on what an evaluator configured in the run derived, the caveats, the status lists and an approval.
   */
  lemma EveryEntryAttributable(w: World, durable: bool, cfg: Config, evs: seq<Event>, s: Node, i: nat)
    returns (chain: seq<Link>, ev: Evaluator)
    requires Run(w, durable, Init(cfg), evs) == Some(s) && i < |s.entries|
    ensures s.entries[i].body.seqNo == i && s.entries[i].body.prevHash == LogTip(s.entries[..i])
    ensures Attributable(w, s.entries[i].body, chain)
    ensures ev in s.evaluators && s.entries[i].body.draft.policyID == PolicyIDOf(CarriedPolicy(ev))
    ensures s.entries[i].body.draft.decision.allowed ==> AllowRests(w, ev, s.entries[i].body, chain)
  {
    ReachableOrigin(w, durable, cfg, evs, s, i);
    chain, ev := GoodAttributes(w, s.admitted, s.evaluators, s.entries[i]);
  }

  /** No entry of a reachable log records evidence larger than the caps. */
  lemma EvidenceBounded(w: World, durable: bool, cfg: Config, evs: seq<Event>, s: Node, i: nat)
    requires Run(w, durable, Init(cfg), evs) == Some(s) && i < |s.entries|
    ensures var d := s.entries[i].body.draft;
            |d.popNonce| <= 128 && SignatureLength(d.popSignature) <= 512 && SignatureLength(d.approval) <= 512
  {
    ReachableOrigin(w, durable, cfg, evs, s, i);
    GoodIsBounded(w, s.admitted, s.evaluators, s.entries[i]);
  }

  lemma GoodIsBounded(w: World, admitted: set<Request>, evaluators: set<Evaluator>, e: Entry)
    requires Good(w, admitted, evaluators, e)
    ensures var d := e.body.draft;
            |d.popNonce| <= 128 && SignatureLength(d.popSignature) <= 512 && SignatureLength(d.approval) <= 512
  {
    var req, ev :| req in admitted && ev in evaluators && Originates(w, ev, req, e);
  }

  /** The history of evaluators is the configurations the run was given, and no others. */
  lemma {:induction false} EvaluatorsConfigured(
      w: World, durable: bool, s: Node, evs: seq<Event>, t: Node, ev: Evaluator)
    requires Run(w, durable, s, evs) == Some(t) && ev in t.evaluators
    ensures ev in s.evaluators || exists i :: 0 <= i < |evs| && evs[i].Restart? && evs[i].cfg.evaluator == ev
    decreases |evs|
  {
    if evs != [] {
      var next := Step(w, durable, s, evs[0]).value;
      EvaluatorsConfigured(w, durable, next, evs[1..], t, ev);
      if ev !in s.evaluators && ev !in next.evaluators {
        var i :| 0 <= i < |evs[1..]| && evs[1..][i].Restart? && evs[1..][i].cfg.evaluator == ev;
        assert evs[i + 1].Restart? && evs[i + 1].cfg.evaluator == ev;
      }
    }
  }

  // ---- single use ---------------------------------------------------------

  datatype Slot = Slot(seqNo: nat, prevHash: Digest)

  /** The position a request's proof of possession is bound to. */
  function BoundSlot(req: Request): Option<Slot> {
    if req.pop.signature.Signed? && req.pop.signature.message.PossessionMessage?
    then Some(Slot(req.pop.signature.message.seqNo, req.pop.signature.message.prevHash))
    else None
  }

  lemma OriginIsBound(w: World, ev: Evaluator, req: Request, e: Entry)
    requires Originates(w, ev, req, e)
    ensures BoundSlot(req) == Some(Slot(e.body.seqNo, e.body.prevHash))
    ensures e.body.draft.popSignature == req.pop.signature
  {
  }

  lemma ConsequentialAllowApproved(w: World, ev: Evaluator, req: Request, e: Entry)
    requires Originates(w, ev, req, e)
    requires e.body.draft.decision.allowed && e.body.draft.decision.consequential
    ensures ApprovalVerifies(w, Terminal(req).subject, e.body)
  {
  }

  ghost predicate ConsequentialAllow(e: Entry) {
    e.body.draft.decision.allowed && e.body.draft.decision.consequential
  }

  /** Two signatures over two messages: neither is the other in another form. */
  predicate DifferentMessages(a: Signature, b: Signature) {
    a.Signed? && b.Signed? && a.message != b.message
  }

  /** Entries at different positions share no request, no tip, no proof of possession and no approval. */
  lemma PositionsShareNothing(w: World, admitted: set<Request>, evaluators: set<Evaluator>, a: Entry, b: Entry)
    requires Good(w, admitted, evaluators, a) && Good(w, admitted, evaluators, b) && a.body.seqNo != b.body.seqNo
    ensures DifferentMessages(a.body.draft.popSignature, b.body.draft.popSignature)
    ensures ConsequentialAllow(a) && ConsequentialAllow(b) ==>
            DifferentMessages(a.body.draft.approval, b.body.draft.approval)
  {
    var r1, ev1 :| r1 in admitted && Originates(w, ev1, r1, a);
    var r2, ev2 :| r2 in admitted && Originates(w, ev2, r2, b);
    OriginIsBound(w, ev1, r1, a);
    OriginIsBound(w, ev2, r2, b);
    if ConsequentialAllow(a) && ConsequentialAllow(b) {
      ConsequentialAllowApproved(w, ev1, r1, a);
      ConsequentialAllowApproved(w, ev2, r2, b);
    }
  }

  /**
   In every reachable log two entries have different requests behind them, bound to different tips:
   one request makes at most one entry, and of all requests bound to one tip at most one is appended.
   */
  lemma OneEntryPerTip(
      w: World, durable: bool, cfg: Config, evs: seq<Event>, s: Node,
      i: nat, r1: Request, ev1: Evaluator, j: nat, r2: Request, ev2: Evaluator)
    requires Run(w, durable, Init(cfg), evs) == Some(s) && i < j < |s.entries|
    requires Originates(w, ev1, r1, s.entries[i]) && Originates(w, ev2, r2, s.entries[j])
    ensures r1 != r2 && BoundSlot(r1) != BoundSlot(r2)
  {
    ReachableOrigin(w, durable, cfg, evs, s, i);
    ReachableOrigin(w, durable, cfg, evs, s, j);
    OriginIsBound(w, ev1, r1, s.entries[i]);
    OriginIsBound(w, ev2, r2, s.entries[j]);
  }

  /**
   In every reachable log no two proofs of possession were made over one message, and no two approvals of
   consequential allows were: re-encoding a signature does not give it a second use.
   */
  lemma SingleUse(w: World, durable: bool, cfg: Config, evs: seq<Event>, s: Node, i: nat, j: nat)
    requires Run(w, durable, Init(cfg), evs) == Some(s) && i < j < |s.entries|
    ensures DifferentMessages(s.entries[i].body.draft.popSignature, s.entries[j].body.draft.popSignature)
    ensures ConsequentialAllow(s.entries[i]) && ConsequentialAllow(s.entries[j]) ==>
              DifferentMessages(s.entries[i].body.draft.approval, s.entries[j].body.draft.approval)
  {
    ReachableOrigin(w, durable, cfg, evs, s, i);
    ReachableOrigin(w, durable, cfg, evs, s, j);
    PositionsShareNothing(w, s.admitted, s.evaluators, s.entries[i], s.entries[j]);
  }

  /** With a write-ahead log nothing that was ever in the log leaves it or moves, so single use spans restarts. */
  lemma LogOnlyGrows(w: World, cfg: Config, before: seq<Event>, s: Node, after: seq<Event>, t: Node)
    requires Run(w, true, Init(cfg), before) == Some(s) && Run(w, true, s, after) == Some(t)
    ensures s.entries <= t.entries
  {
    Reachable(w, true, cfg, before, s);
    RunKeeps(w, true, s, after, t);
  }

  // ---- the same request again ---------------------------------------------

  /**
   The entry a request would make at a position, but for its time: what was decided and everything
   recorded with it.
   */
  ghost predicate SameRecord(a: Body, b: Body) {
    a == b.(draft := b.draft.(timestamp := a.draft.timestamp))
  }

  /** A request that made an entry is sealed again exactly where the tip is the one that entry was made at. */
  lemma SealedAgainIff(
      w: World, ev: Evaluator, r: Request, e: Entry,
      cfg: Config, entries: seq<Entry>, records: Evidence, time: int, variant: nat)
    requires Originates(w, ev, r, e)
    ensures var again := Enter(w, cfg, entries, records, r, time, Some(variant));
            && (again.Ready? <==> TipOf(entries) == (e.body.seqNo, e.body.prevHash))
            && (again.Ready? && cfg.evaluator == ev ==> SameRecord(again.entry.body, e.body))
  {
    OriginIsBound(w, ev, r, e);
  }

  /**
   Single use across logs, exactly. Take any log of any run, an entry i of it and the request behind
   that entry, and any other log of any other run, with or without a restart between them: the request is
   sealed there if and only if that log's tip is the one entry i was made at, and then the two logs agree
   on everything hashed before i. Under the same evaluator the decision, the approval and the rest of the
   record are the same again, so a consequential allow is allowed again on one approval.
   */
  lemma AcceptedAgainIff(
      w: World, durable: bool, cfg: Config, evs: seq<Event>, s: Node, i: nat, r: Request, ev: Evaluator,
      durable2: bool, cfg2: Config, evs2: seq<Event>, t: Node, time: int, variant: nat)
    requires Run(w, durable, Init(cfg), evs) == Some(s) && i < |s.entries| && Originates(w, ev, r, s.entries[i])
    requires Run(w, durable2, Init(cfg2), evs2) == Some(t)
    ensures var again := Enter(w, t.cfg, t.entries, t.records, r, time, Some(variant));
            && (again.Ready? <==> TipOf(t.entries) == (i, LogTip(s.entries[..i])))
            && (again.Ready? ==> SameContent(t.entries, s.entries[..i]))
            && (again.Ready? && t.cfg.evaluator == ev ==> SameRecord(again.entry.body, s.entries[i].body))
  {
    ReachableOrigin(w, durable, cfg, evs, s, i);
    SealedAgainIff(w, ev, r, s.entries[i], t.cfg, t.entries, t.records, time, variant);
    if TipOf(t.entries) == (i, LogTip(s.entries[..i])) {
      SameTipSameLog(w, durable, cfg, evs, s, i, durable2, cfg2, evs2, t);
    }
  }

  /** Logs of two runs that have a tip in common have everything before it in common. */
  lemma SameTipSameLog(
      w: World, durable: bool, cfg: Config, evs: seq<Event>, s: Node, i: nat,
      durable2: bool, cfg2: Config, evs2: seq<Event>, t: Node)
    requires Run(w, durable, Init(cfg), evs) == Some(s) && i <= |s.entries|
    requires Run(w, durable2, Init(cfg2), evs2) == Some(t) && TipOf(t.entries) == TipOf(s.entries[..i])
    ensures SameContent(t.entries, s.entries[..i])
  {
    ReachableChained(w, durable, cfg, evs, s, i);
    ReachableChained(w, durable2, cfg2, evs2, t, i);
    assert t.entries[..i] == t.entries;
    TipPinsLog(t.entries, t.cfg.signer.key, s.entries[..i], s.cfg.signer.key);
  }

  lemma ReachableChained(w: World, durable: bool, cfg: Config, evs: seq<Event>, s: Node, i: nat)
    requires Run(w, durable, Init(cfg), evs) == Some(s) && i <= |s.entries|
    ensures Chained(s.entries[..i], s.cfg.signer.key)
  {
    Reachable(w, durable, cfg, evs, s);
    PrefixChained(s.entries, s.cfg.signer.key, i);
  }

  lemma PrefixChained(es: seq<Entry>, key: Key, i: nat)
    requires Chained(es, key) && i <= |es|
    ensures Chained(es[..i], key)
  {
    forall j | 0 <= j < i ensures Intact(es[..i], j, key) {
      assert Intact(es, j, key);
    }
  }

  /**
   So with a write-ahead log a request whose entry is in the log is never sealed again, at any later time
   and across every crash and restart: the condition cannot come about.
   */
  lemma NeverAgainWithLog(
      w: World, cfg: Config, before: seq<Event>, s: Node, i: nat, r: Request, ev: Evaluator,
      after: seq<Event>, t: Node, time: int, signing: Option<nat>)
    requires Run(w, true, Init(cfg), before) == Some(s) && i < |s.entries| && Originates(w, ev, r, s.entries[i])
    requires Run(w, true, s, after) == Some(t)
    ensures !Enter(w, t.cfg, t.entries, t.records, r, time, signing).Ready?
  {
    ReachableOrigin(w, true, cfg, before, s, i);
    LogOnlyGrows(w, cfg, before, s, after, t);
    OriginIsBound(w, ev, r, s.entries[i]);
  }

  /**
   Without one, a restart begins a fresh log, whose tip is the first slot's. A request that made the first
   entry of an earlier log is sealed again, and under the same evaluator with the same decision on the same approval.
   */
  lemma FreshLogAcceptsAgain(
      w: World, s: Node, cfg: Config, ev: Evaluator, req: Request, e: Entry, time: int, variant: nat)
    requires s.phase.Down? && Originates(w, ev, req, e) && e.body.seqNo == 0 && e.body.prevHash == Genesis
    ensures var t := Run(w, false, s, [Restart(cfg), Submit(req), EnterLock(req, time, Some(variant))]);
            && t.Some? && t.value.phase.Sealed?
            && (cfg.evaluator == ev ==> SameRecord(t.value.phase.entry.body, e.body))
  {
    var evs := [Restart(cfg), Submit(req), EnterLock(req, time, Some(variant))];
    var s1 := Emptied(s, cfg);
    var s2 := s1.(admitted := s1.admitted + {req});
    assert evs[1..] == [Submit(req), EnterLock(req, time, Some(variant))];
    assert evs[1..][1..] == [EnterLock(req, time, Some(variant))];
    assert Step(w, false, s, evs[0]) == Some(s1);
    assert Step(w, false, s1, evs[1]) == Some(s2);
    SealedAgainIff(w, ev, req, e, cfg, [], map[], time, variant);
    var r := Enter(w, cfg, [], map[], req, time, Some(variant));
    assert Step(w, false, s2, evs[2]) == Some(Holding(s2, r.entry, r.creds));
    assert Run(w, false, s2, [evs[2]]) == Run(w, false, Holding(s2, r.entry, r.creds), []);
  }

  // ---- log before act -----------------------------------------------------

  lemma ReturnedStay(s: Node, es: seq<Entry>)
    requires ReturnedInv(s) && s.entries <= es
    ensures forall k :: 0 <= k < |s.returned| ==>
              s.returned[k].body.seqNo < |es| && es[s.returned[k].body.seqNo] == s.returned[k]
  {
    forall k | 0 <= k < |s.returned|
      ensures s.returned[k].body.seqNo < |es| && es[s.returned[k].body.seqNo] == s.returned[k]
    {
      assert s.entries[s.returned[k].body.seqNo] == s.returned[k];
    }
  }

  lemma RestFacts(w: World, t: Node)
    requires MemoryInv(w, t) && t.phase.Idle?
    ensures IsFirstBreak(t.entries, t.cfg.signer.key, -1)
    ensures CoversAll(t.records, t.entries) && SoundEvidence(w, t.records)
    ensures PolicyContinues(t.cfg, t.entries)
  {
  }

  /** A restart that comes up runs the new configuration. */
  lemma RestartConfigures(w: World, s: Node, next: Config, t: Node)
    requires Step(w, true, s, Restart(next)) == Some(t) && t.phase.Idle?
    ensures t.cfg == next
  {
  }

  lemma RestartFrom(w: World, s: Node, next: Config, t: Node)
    requires ReturnedInv(s) && MemoryInv(w, t) && t.phase.Idle? && t.cfg == next
    requires s.entries <= t.entries
    ensures forall k :: 0 <= k < |s.returned| ==>
              s.returned[k].body.seqNo < |t.entries| && t.entries[s.returned[k].body.seqNo] == s.returned[k]
    ensures IsFirstBreak(t.entries, next.signer.key, -1)
    ensures CoversAll(t.records, t.entries) && SoundEvidence(w, t.records)
    ensures PolicyContinues(next, t.entries)
  {
    ReturnedStay(s, t.entries);
    RestFacts(w, t);
  }

  /**
   Whenever a restart succeeds after a crash at any point: every decision ever returned is in the
   recovered log at its own position, the recovered log is the committed one or that and one entry
   more, it verifies under the new signer's key, and its evidence holds every credential it names.
   */
  lemma LogBeforeAct(w: World, cfg: Config, evs: seq<Event>, s: Node, next: Config, t: Node)
    requires Run(w, true, Init(cfg), evs) == Some(s)
    requires Step(w, true, s, Restart(next)) == Some(t) && t.phase.Idle?
    ensures s.entries <= t.entries && |t.entries| <= |s.entries| + 1
    ensures forall k :: 0 <= k < |s.returned| ==>
              s.returned[k].body.seqNo < |t.entries| && t.entries[s.returned[k].body.seqNo] == s.returned[k]
    ensures IsFirstBreak(t.entries, next.signer.key, -1)
    ensures CoversAll(t.records, t.entries) && SoundEvidence(w, t.records)
    ensures PolicyContinues(next, t.entries)
  {
    Reachable(w, true, cfg, evs, s);
    RestartKeeps(w, true, s, next, t);
    RestartConfigures(w, s, next, t);
    RestartFrom(w, s, next, t);
  }

  /** No failed append leaves bytes behind. */
  ghost predicate CleanDisk(evs: seq<Event>) {
    forall i :: 0 <= i < |evs| && evs[i].Persist? ==> evs[i].disk.Synced? || evs[i].disk.FailedClean?
  }

  /** The file then holds exactly the committed log, and the entry in hand once it is durable. */
  ghost predicate Exact(s: Node) {
    && Readable(s.file)
    && var es := EntriesOf(RecordsOf(s.file));
       && PolicyContinues(s.cfg, es)
       && match s.phase
          case Down => Chained(es, s.cfg.signer.key)
          case Durable(e, _) => es == s.entries + [e]
          case _ => es == s.entries
  }

  lemma ExactAppend(file: seq<WalItem>, r: WalRecord)
    requires Readable(file)
    ensures Readable(file + [Rec(r)])
    ensures EntriesOf(RecordsOf(file + [Rec(r)])) == EntriesOf(RecordsOf(file)) + [r.entry]
  {
  }

  lemma ExactPersist(s: Node, disk: Disk)
    requires s.phase.Sealed? && Exact(s) && (disk.Synced? || disk.FailedClean?)
    requires s.phase.entry.body.draft.policyID == PolicyIDOf(CarriedPolicy(s.cfg.evaluator))
    ensures Exact(Written(s, disk))
  {
    ExactAppend(s.file, WalRecord(s.phase.entry, s.phase.creds));
  }

  lemma ExactStep(w: World, s: Node, ev: Event, t: Node)
    requires MemoryInv(w, s) && PhaseInv(w, s) && Exact(s) && Step(w, true, s, ev) == Some(t)
    requires ev.Persist? ==> ev.disk.Synced? || ev.disk.FailedClean?
    ensures Exact(t)
  {
    match ev {
      case Persist(disk) => ExactPersist(s, disk);
      case CommitEntry => CommitMemory(w, s);
      case _ =>
    }
  }

  lemma {:induction false} ExactRun(w: World, s: Node, evs: seq<Event>, t: Node)
    requires Inv(w, true, s) && Exact(s) && CleanDisk(evs) && Run(w, true, s, evs) == Some(t)
    ensures Inv(w, true, t) && Exact(t)
    decreases |evs|
  {
    if evs != [] {
      var next := Step(w, true, s, evs[0]).value;
      ExactStep(w, s, evs[0], next);
      StepKeeps(w, true, s, evs[0], next);
      ExactRun(w, next, evs[1..], t);
    }
  }

  /** If failed appends leave no bytes, recovery under the same key and policy always succeeds. */
  lemma CleanDiskAlwaysRecovers(w: World, cfg: Config, evs: seq<Event>, s: Node, next: Config)
    requires Run(w, true, Init(cfg), evs) == Some(s) && CleanDisk(evs) && s.phase.Down?
    requires next.signer.key == s.cfg.signer.key
    requires PolicyIDOf(CarriedPolicy(next.evaluator)) == PolicyIDOf(CarriedPolicy(s.cfg.evaluator))
    ensures Step(w, true, s, Restart(next)).Some? && Step(w, true, s, Restart(next)).value.phase.Idle?
  {
    InitHolds(w, true, cfg);
    assert EntriesOf(RecordsOf([])) == [];
    ExactRun(w, Init(cfg), evs, s);
  }

  /** What is on disk is either beyond recovery or recoverable under the configuration that wrote it. */
  ghost predicate Resumable(s: Node) {
    Poisoned(s.file) || (Readable(s.file) && Recoverable(s.cfg, RecordsOf(s.file)))
  }

  lemma ResumableWrite(w: World, s: Node, disk: Disk)
    requires s.phase.Sealed? && Resumable(s) && FileInv(w, s) && PolicyContinues(s.cfg, s.entries)
    requires InHand(w, s, s.phase.entry, s.phase.creds)
    ensures Resumable(Written(s, disk))
  {
    var r := WalRecord(s.phase.entry, s.phase.creds);
    if disk.Synced? || disk.FailedWritten? {
      if Poisoned(s.file) {
        PoisonStays(s.file, Rec(r));
      } else if |s.file| != |s.entries| {
        assert Intact(s.entries + [r.entry], |s.entries|, s.cfg.signer.key);
        assert (s.file + [Rec(r)])[|s.file|].record.entry.body.seqNo != |s.file|;
      } else {
        ExactAppend(s.file, r);
        assert EntriesOf(RecordsOf(s.file)) == s.entries;
      }
    } else if disk.FailedTorn? {
      assert (s.file + [Torn])[|s.file|].Torn?;
    }
  }

  lemma ResumableStep(w: World, s: Node, ev: Event, t: Node)
    requires MemoryInv(w, s) && PhaseInv(w, s) && FileInv(w, s) && Resumable(s) && Step(w, true, s, ev) == Some(t)
    ensures Resumable(t)
  {
    if ev.Persist? {
      ResumableWrite(w, s, ev.disk);
    }
  }

  lemma {:induction false} ResumableRun(w: World, s: Node, evs: seq<Event>, t: Node)
    requires Inv(w, true, s) && Resumable(s) && Run(w, true, s, evs) == Some(t)
    ensures Inv(w, true, t) && Resumable(t)
    decreases |evs|
  {
    if evs != [] {
      var next := Step(w, true, s, evs[0]).value;
      ResumableStep(w, s, evs[0], next);
      StepKeeps(w, true, s, evs[0], next);
      ResumableRun(w, next, evs[1..], t);
    }
  }

  /**
   After any run, whatever failed appends left behind, recovery under the same key and policy succeeds
   exactly when no line of the file is torn and every record sits at its own position.
   */
  lemma RecoversIff(w: World, cfg: Config, evs: seq<Event>, s: Node, next: Config)
    requires Run(w, true, Init(cfg), evs) == Some(s) && s.phase.Down?
    requires next.signer.key == s.cfg.signer.key
    requires PolicyIDOf(CarriedPolicy(next.evaluator)) == PolicyIDOf(CarriedPolicy(s.cfg.evaluator))
    ensures Step(w, true, s, Restart(next)).Some?
    ensures Step(w, true, s, Restart(next)).value.phase.Idle? <==> !Poisoned(s.file)
  {
    InitHolds(w, true, cfg);
    assert RecordsOf([]) == [];
    ResumableRun(w, Init(cfg), evs, s);
    if Readable(s.file) && Recoverable(next, RecordsOf(s.file)) {
      RecoveredIsClean(s.file, next);
    }
  }

  /** A failed append that did leave its record, followed by one more append, makes every later recovery refuse. */
  lemma LeftoverRecordRefuses(w: World, cfg: Config, evs: seq<Event>, s: Node, next: Config)
    requires Run(w, true, Init(cfg), evs) == Some(s) && s.phase.Down?
    requires |s.file| > |s.entries| + 1
    ensures Step(w, true, s, Restart(next)) == Some(s)
  {
    Reachable(w, true, cfg, evs, s);
    if Readable(s.file) && Recoverable(next, RecordsOf(s.file)) {
      ResumeExtends(w, s, next);
      assert false;
    }
  }

  // ---- completeness -------------------------------------------------------

  /** The approval an entry records, if any, holds for its last principal. */
  ghost predicate ApprovalClean(w: World, b: Body) {
    || ApprovalAbsent(b.draft)
    || (b.draft.resolvedChain != [] && ApprovalVerifies(w, b.draft.resolvedChain[|b.draft.resolvedChain| - 1], b))
  }

  lemma OriginClean(w: World, ev: Evaluator, req: Request, e: Entry)
    requires Originates(w, ev, req, e)
    ensures ApprovalSound(w, req, e.body) <==> ApprovalClean(w, e.body)
  {
    RecordedApproval(w, ev, req, e);
    ActorIsBound(w, req.chain);
  }

  /** The entry names a policy, and its approval, if any, holds. */
  ghost predicate Presentable(w: World, b: Body) {
    b.draft.policyID.IdOfPolicy? && ApprovalClean(w, b)
  }

  /** The policy id an entry carries is the configured one's, or it names none. */
  ghost predicate IdContinues(cfg: Config, e: Entry) {
    e.body.draft.policyID == NoPolicyID || e.body.draft.policyID == PolicyIDOf(CarriedPolicy(cfg.evaluator))
  }

  /**
   The verifier's verdict on one entry with an origin, in an export of a log its configuration continues: it
   fails exactly when its evidence is not kept, or when it is an allow under no policy or with an unsound approval.
   */
  lemma OriginVerdict(w: World, admitted: set<Request>, evaluators: set<Evaluator>, cfg: Config, exp: Export, e: Entry)
    requires Good(w, admitted, evaluators, e) && IdContinues(cfg, e)
    requires !IsV1(exp) && exp.policy == CarriedPolicy(cfg.evaluator)
    ensures EntryVerdict(w, exp, e) == Fail <==>
            !Kept(w, exp.credentials, e.body.draft) || (e.body.draft.decision.allowed && !Presentable(w, e.body))
    ensures ConsequentialAllow(e) ==> ApprovalClean(w, e.body)
  {
    var req, ev := OriginOf(w, admitted, evaluators, e);
    VerdictOf(w, ev, req, cfg, exp, e);
  }

  lemma VerdictOf(w: World, ev: Evaluator, req: Request, cfg: Config, exp: Export, e: Entry)
    requires Originates(w, ev, req, e) && IdContinues(cfg, e) && e.body.draft.policyID == PolicyIDOf(CarriedPolicy(ev))
    requires !IsV1(exp) && exp.policy == CarriedPolicy(cfg.evaluator)
    ensures EntryVerdict(w, exp, e) == Fail <==>
            !Kept(w, exp.credentials, e.body.draft) || (e.body.draft.decision.allowed && !Presentable(w, e.body))
    ensures ConsequentialAllow(e) ==> ApprovalClean(w, e.body)
  {
    ProxyEntryVerdict(w, exp, ev, req, e);
    OriginClean(w, ev, req, e);
    CarriesIff(cfg, exp, ev, e.body.draft.policyID);
  }

  /** An export carries the policy an entry of a continuing log was decided under exactly when the entry names one. */
  lemma CarriesIff(cfg: Config, exp: Export, ev: Evaluator, id: PolicyID)
    requires id == PolicyIDOf(CarriedPolicy(ev)) && exp.policy == CarriedPolicy(cfg.evaluator)
    requires id == NoPolicyID || id == PolicyIDOf(CarriedPolicy(cfg.evaluator))
    ensures Carries(exp, ev) <==> id.IdOfPolicy?
  {
  }

  /** The export of a node at rest, whichever form its envelope signature takes. */
  ghost predicate ExportOf(s: Node, exp: Export) {
    Exported(s.cfg.signer, s.entries, s.records, CarriedPolicy(s.cfg.evaluator), exp)
  }

  /** Each allow names a policy, and its approval is absent or valid. */
  ghost predicate AllPresentable(w: World, es: seq<Entry>) {
    forall i :: 0 <= i < |es| && es[i].body.draft.decision.allowed ==> Presentable(w, es[i].body)
  }

  ghost predicate AllKept(w: World, records: Evidence, es: seq<Entry>) {
    forall i :: 0 <= i < |es| ==> Kept(w, records, es[i].body.draft)
  }

  /** An export whose envelope and chain verify passes exactly when each entry does. */
  lemma VerdictsSettle(w: World, exp: Export, key: Key)
    requires w.dids(exp.signer) == Some(key) && !IsV1(exp) && EnvelopeVerifies(exp, key) && Chained(exp.entries, key)
    requires forall i :: 0 <= i < |exp.entries| ==>
               (EntryVerdict(w, exp, exp.entries[i]) == Fail <==>
                || !Kept(w, exp.credentials, exp.entries[i].body.draft)
                || (exp.entries[i].body.draft.decision.allowed && !Presentable(w, exp.entries[i].body)))
    ensures Passes(w, exp) <==> AllKept(w, exp.credentials, exp.entries) && AllPresentable(w, exp.entries)
  {
  }

  /** The same for a log whose entries all have origins and whose policy continues. */
  lemma OriginsSettle(w: World, s: Node, exp: Export)
    requires ExportOf(s, exp) && w.dids(s.cfg.signer.did) == Some(s.cfg.signer.key)
    requires Chained(s.entries, s.cfg.signer.key) && PolicyContinues(s.cfg, s.entries)
    requires forall i :: 0 <= i < |s.entries| ==> Good(w, s.admitted, s.evaluators, s.entries[i])
    ensures Passes(w, exp) <==> AllKept(w, s.records, s.entries) && AllPresentable(w, s.entries)
    ensures forall i :: 0 <= i < |s.entries| && ConsequentialAllow(s.entries[i]) ==> ApprovalClean(w, s.entries[i].body)
  {
    forall i | 0 <= i < |exp.entries|
      ensures EntryVerdict(w, exp, exp.entries[i]) == Fail <==>
              || !Kept(w, exp.credentials, exp.entries[i].body.draft)
              || (exp.entries[i].body.draft.decision.allowed && !Presentable(w, exp.entries[i].body))
      ensures ConsequentialAllow(exp.entries[i]) ==> ApprovalClean(w, exp.entries[i].body)
    {
      assert IdContinues(s.cfg, s.entries[i]);
      OriginVerdict(w, s.admitted, s.evaluators, s.cfg, exp, s.entries[i]);
    }
    VerdictsSettle(w, exp, s.cfg.signer.key);
  }

  lemma RestKept(w: World, s: Node)
    requires SoundEvidence(w, s.records) && CoversAll(s.records, s.entries)
    ensures AllKept(w, s.records, s.entries)
  {
    forall i | 0 <= i < |s.entries| ensures Kept(w, s.records, s.entries[i].body.draft) {
      SoundAndCoveredIsKept(w, s.records, s.entries[i]);
    }
  }

  lemma RestGood(w: World, s: Node)
    requires SealedInv(w, s) && AllIn(s.entries, s.sealed)
    ensures forall i :: 0 <= i < |s.entries| ==> Good(w, s.admitted, s.evaluators, s.entries[i])
  {
  }

  /**
   For every run, recovery and every change of configuration included, an export taken while no request holds
   the lock passes the independent verifier exactly when each allowed entry names a policy and its approval is
   absent or valid. Of consequential allows the second always holds.
   */
  lemma CompletenessIff(w: World, durable: bool, cfg: Config, evs: seq<Event>, s: Node, exp: Export)
    requires Run(w, durable, Init(cfg), evs) == Some(s) && ExportOf(s, exp)
    requires s.phase.Idle? && w.dids(s.cfg.signer.did) == Some(s.cfg.signer.key)
    ensures Passes(w, exp) <==> AllPresentable(w, s.entries)
    ensures forall i :: 0 <= i < |s.entries| && ConsequentialAllow(s.entries[i]) ==> ApprovalClean(w, s.entries[i].body)
  {
    Reachable(w, durable, cfg, evs, s);
    RestGood(w, s);
    RestKept(w, s);
    OriginsSettle(w, s, exp);
  }

  // ---- no other log passes ------------------------------------------------

  /**
   Where the signer's key has signed only the headers of these exports, each taken of this log or of an earlier
   state of it, a passing export under that key holds exactly the log one of them held. If they were all taken
   of this state, it holds this log and this policy: nothing shortened, extended or altered passes.
   */
  lemma OnlyThisLogPasses(
      w: World, durable: bool, cfg: Config, evs: seq<Event>, s: Node, exports: set<Export>, exp: Export)
    returns (x: Export)
    requires Run(w, durable, Init(cfg), evs) == Some(s) && forall x :: x in exports ==> x.entries <= s.entries
    requires Passes(w, exp) && w.dids(exp.signer) == Some(s.cfg.signer.key)
    requires HeaderOfOne(s.cfg.signer.key, exports, exp.envelopeSignature)
    ensures x in exports && exp.policy == x.policy && SameContent(exp.entries, x.entries)
    ensures SameContent(exp.entries, s.entries[..|x.entries|])
    ensures (forall x :: x in exports ==> ExportOf(s, x)) ==>
              SameContent(exp.entries, s.entries) && exp.policy == CarriedPolicy(s.cfg.evaluator)
  {
    EarlierLogsChained(w, durable, cfg, evs, s, exports);
    x := OnlyExportedLogsPass(w, exports, exp);
    assert x.entries == s.entries[..|x.entries|];
  }

  lemma EarlierLogsChained(w: World, durable: bool, cfg: Config, evs: seq<Event>, s: Node, exports: set<Export>)
    requires Run(w, durable, Init(cfg), evs) == Some(s) && forall x :: x in exports ==> x.entries <= s.entries
    ensures forall x :: x in exports ==> Chained(x.entries, s.cfg.signer.key)
  {
    forall x | x in exports ensures Chained(x.entries, s.cfg.signer.key) {
      ReachableChained(w, durable, cfg, evs, s, |x.entries|);
      assert x.entries == s.entries[..|x.entries|];
    }
  }

  // ---- runs of the shipped classifier -------------------------------------

  /** Every configuration of the run uses the shipped classifier. */
  ghost predicate OptionBOnly(cfg: Config, evs: seq<Event>) {
    cfg.evaluator.OptionB? && forall i :: 0 <= i < |evs| && evs[i].Restart? ==> evs[i].cfg.evaluator.OptionB?
  }

  /** Then every entry names a policy, and it is the configured one. */
  lemma ShippedOrigin(w: World, durable: bool, cfg: Config, evs: seq<Event>, s: Node, i: nat)
    returns (req: Request, p: Policies.Policy)
    requires Run(w, durable, Init(cfg), evs) == Some(s) && OptionBOnly(cfg, evs) && i < |s.entries|
    ensures req in s.admitted && Originates(w, OptionB(p), req, s.entries[i])
    ensures s.cfg.evaluator == OptionB(p) && s.entries[i].body.draft.policyID == IdOfPolicy(p)
  {
    var ev;
    req, ev := ReachableOriginOf(w, durable, cfg, evs, s, i);
    EvaluatorsConfigured(w, durable, Init(cfg), evs, s, ev);
    EvaluatorsConfigured(w, durable, Init(cfg), evs, s, s.cfg.evaluator);
    p := ev.policy;
  }

  lemma ReachableOriginOf(w: World, durable: bool, cfg: Config, evs: seq<Event>, s: Node, i: nat)
    returns (req: Request, ev: Evaluator)
    requires Run(w, durable, Init(cfg), evs) == Some(s) && i < |s.entries|
    ensures req in s.admitted && ev in s.evaluators && s.cfg.evaluator in s.evaluators
    ensures Originates(w, ev, req, s.entries[i]) && IdContinues(s.cfg, s.entries[i])
    ensures s.entries[i].body.draft.policyID == PolicyIDOf(CarriedPolicy(ev))
  {
    Reachable(w, durable, cfg, evs, s);
    RestGood(w, s);
    req, ev := OriginOf(w, s.admitted, s.evaluators, s.entries[i]);
  }

  lemma OriginOf(w: World, admitted: set<Request>, evaluators: set<Evaluator>, e: Entry)
    returns (req: Request, ev: Evaluator)
    requires Good(w, admitted, evaluators, e)
    ensures req in admitted && ev in evaluators && Originates(w, ev, req, e)
    ensures e.body.draft.policyID == PolicyIDOf(CarriedPolicy(ev))
  {
    var r, used :| r in admitted && used in evaluators && Originates(w, used, r, e);
    OriginAttributes(w, used, r, e);
    req, ev := r, used;
  }

  /**
   A request whose approval, if it carries one on a routine action, is valid at the position its proof is
   bound to.
   */
  ghost predicate HonestApproval(w: World, p: Policies.Policy, req: Request)
    requires req.chain != []
  {
    || SignatureLength(req.approval) == 0
    || Policies.Evaluation(w.lx, p, req.action).consequential
    || (BoundSlot(req).Some? ==>
          var slot := BoundSlot(req).value;
          ApprovalProblem(w, req, Terminal(req).subject, slot.seqNo, slot.prevHash).None?)
  }

  /**
   If every configuration runs the shipped classifier and every admitted request is honest about its approval,
   every export passes: the report the verifier makes is clean.
   */
  lemma Completeness(w: World, durable: bool, cfg: Config, evs: seq<Event>, s: Node, exp: Export, r: Report)
    requires Run(w, durable, Init(cfg), evs) == Some(s) && OptionBOnly(cfg, evs) && ExportOf(s, exp)
    requires s.phase.Idle? && w.dids(s.cfg.signer.did) == Some(s.cfg.signer.key)
    requires s.cfg.evaluator.OptionB? ==>
               forall req :: req in s.admitted ==> req.chain != [] && HonestApproval(w, s.cfg.evaluator.policy, req)
    requires IsReport(w, exp, s.cfg.signer.key, r)
    ensures Clean(r)
  {
    CompletenessIff(w, durable, cfg, evs, s, exp);
    forall i | 0 <= i < |s.entries| && s.entries[i].body.draft.decision.allowed
      ensures Presentable(w, s.entries[i].body)
    {
      var req, p := ShippedOrigin(w, durable, cfg, evs, s, i);
      HonestIsSound(w, p, req, s.entries[i]);
      OriginClean(w, OptionB(p), req, s.entries[i]);
    }
    CleanIffPasses(w, exp, r);
  }

  lemma HonestIsSound(w: World, p: Policies.Policy, req: Request, e: Entry)
    requires Originates(w, OptionB(p), req, e) && e.body.draft.decision.allowed && HonestApproval(w, p, req)
    ensures ApprovalSound(w, req, e.body)
  {
    OriginIsBound(w, OptionB(p), req, e);
    AllowMeans(w, OptionB(p), req, e);
  }
}
