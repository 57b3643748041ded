/** The enforcement point: the decision, the durable log behind it, and the proxy that drives both. */
module Enforcement {
  import opened Util
  import opened Types
  import opened Artifacts
  import opened Chains
  import opened Audit
  import opened StatusLists
  import opened Exports
  import Macaroons
  import Policies

  /** The shipped classifier, or some other evaluator behind the same interface. */
  datatype Evaluator = OptionB(policy: Policies.Policy) | Plugin(id: nat)

  datatype Config = Config(signer: Signer, evaluator: Evaluator)

  function CarriedPolicy(ev: Evaluator): Option<Policies.Policy> {
    if ev.OptionB? then Some(ev.policy) else None
  }

  datatype Request = Request(chain: seq<Link>, action: Action, pop: PoP, approver: DID, approval: Signature)

  const MAX_NONCE_BYTES := 128
  const MAX_SIGNATURE_BYTES := 512

  predicate WellFormedRequest(req: Request) {
    && req.chain != []
    && |req.pop.nonce| <= MAX_NONCE_BYTES
    && SignatureLength(req.pop.signature) <= MAX_SIGNATURE_BYTES
    && SignatureLength(req.approval) <= MAX_SIGNATURE_BYTES
  }

  /** Past the checks made outside the lock. */
  ghost predicate Admissible(w: World, req: Request) {
    WellFormedRequest(req) && ChainVerified(w, req.chain)
  }

  function Terminal(req: Request): Credential
    requires req.chain != []
  {
    req.chain[|req.chain| - 1].credential
  }

  // ---- the decision -------------------------------------------------------

  /** evaluate: the shipped classifier never fails; another evaluator may. */
  function Classify(w: World, ev: Evaluator, a: Action): Evaluated {
    match ev
    case OptionB(p) => Evaluated(Policies.Evaluation(w.lx, p, a), false)
    case Plugin(id) => w.plugin(id, a)
  }

  function Deny(d: Decision, cause: Cause): Decision {
    d.(allowed := false, reason := Refusal(cause))
  }

  function Allow(d: Decision): Decision {
    d.(allowed := true, reason := if d.reason == Stated("") then Stated("within delegated authority") else d.reason)
  }

  datatype SweepResult = SweepFailed | SweepRevoked(hop: nat, checked: nat) | SweepClear(checked: nat)

  /**
   What a look-up says of one hop. Unlisted: it publishes no list. Unknown: its list is missing, not its
   authority's, or too short.
   */
  datatype Look = Unlisted | Live | Gone | Unknown

  function LookAt(w: World, c: Credential): Look {
    if !BearsStatus(c) then Unlisted
    else
      match HopRevoked(w, c)
      case None => Unknown
      case Some(revoked) => if revoked then Gone else Live
  }

  function LooksOf(w: World, links: seq<Link>): (looks: seq<Look>)
    ensures |looks| == |links| && forall i :: 0 <= i < |links| ==> looks[i] == LookAt(w, links[i].credential)
  {
    seq(|links|, i requires 0 <= i < |links| => LookAt(w, links[i].credential))
  }

  /** What hop n adds to the sweep before it: the first failure or revocation stands. */
  function Observe(before: SweepResult, n: nat, look: Look): SweepResult {
    if !before.SweepClear? then before
    else
      match look
      case Unlisted => before
      case Live => SweepClear(before.checked + 1)
      case Gone => SweepRevoked(n, before.checked + 1)
      case Unknown => SweepFailed
  }

  function Sweep(looks: seq<Look>): SweepResult {
    if looks == [] then SweepClear(0) else Observe(Sweep(looks[..|looks| - 1]), |looks| - 1, looks[|looks| - 1])
  }

  lemma SweepOneMore(looks: seq<Look>, n: nat, look: Look)
    requires n < |looks| && looks[n] == look
    ensures Sweep(looks[..n + 1]) == Observe(Sweep(looks[..n]), n, look)
  {
    assert looks[..n + 1][..n] == looks[..n];
  }

  lemma {:induction false} SweepSticks(looks: seq<Look>, n: nat)
    requires n <= |looks| && !Sweep(looks[..n]).SweepClear?
    ensures Sweep(looks) == Sweep(looks[..n])
    decreases |looks|
  {
    if n == |looks| {
      assert looks[..n] == looks;
    } else {
      var front := looks[..|looks| - 1];
      assert front[..n] == looks[..n];
      SweepSticks(front, n);
    }
  }

  /** A live or unlisted hop lets the sweep go on; any other hop is where it ends. */
  lemma SweepGoesOn(looks: seq<Look>, n: nat, checked: nat)
    requires n < |looks| && Sweep(looks[..n]) == SweepClear(checked)
    ensures looks[n].Unlisted? ==> Sweep(looks[..n + 1]) == SweepClear(checked)
    ensures looks[n].Live? ==> Sweep(looks[..n + 1]) == SweepClear(checked + 1)
    ensures looks[n].Gone? ==> Sweep(looks) == SweepRevoked(n, checked + 1)
    ensures looks[n].Unknown? ==> Sweep(looks) == SweepFailed
  {
    SweepOneMore(looks, n, looks[n]);
    if looks[n].Gone? || looks[n].Unknown? {
      SweepSticks(looks, n + 1);
    }
  }

  /** One hop of anyHopRevoked: resolve the list, then its authority's key, then verify, then look up. */
  method LookUp(w: World, c: Credential) returns (l: Look)
    requires w.status.Some?
    ensures l == LookAt(w, c)
  {
    if !BearsStatus(c) {
      return Unlisted;
    }
    var list := w.status.value(c.statusRef.listURL);
    if list.None? {
      return Unknown;
    }
    var authority := StatusAuthority(c);
    var key := w.dids(authority);
    if key.None? || !ListVerifies(list.value, authority, key.value) {
      return Unknown;
    }
    var revoked := LookupIn(list.value.bits, c.statusRef.index);
    return if revoked.None? then Unknown else if revoked.value then Gone else Live;
  }

  /** anyHopRevoked: counts the hops it actually checked, and leaves at the first failure or revocation. */
  method AnyHopRevoked(w: World, links: seq<Link>) returns (r: SweepResult)
    requires w.status.Some?
    ensures r == Sweep(LooksOf(w, links))
  {
    var checked := 0;
    ghost var looks := LooksOf(w, links);
    for i := 0 to |links|
      invariant Sweep(looks[..i]) == SweepClear(checked)
    {
      var look := LookUp(w, links[i].credential);
      SweepGoesOn(looks, i, checked);
      if look.Unknown? {
        return SweepFailed;
      }
      if !look.Unlisted? {
        checked := checked + 1;
      }
      if look.Gone? {
        return SweepRevoked(i, checked);
      }
    }
    assert looks[..|links|] == looks;
    return SweepClear(checked);
  }

  /** How many hops were there to look up. */
  function Listed(looks: seq<Look>): nat {
    if looks == [] then 0 else Listed(looks[..|looks| - 1]) + if looks[|looks| - 1].Unlisted? then 0 else 1
  }

  /** How many hops answered, live or revoked, before the sweep ended. */
  function Answered(looks: seq<Look>): nat {
    if looks == [] then 0
    else
      var front, last := looks[..|looks| - 1], looks[|looks| - 1];
      Answered(front) + if Sweep(front).SweepClear? && (last.Live? || last.Gone?) then 1 else 0
  }

  /** A sweep that came to an answer counted exactly the hops that answered. */
  lemma {:induction false} SweepCounts(looks: seq<Look>)
    ensures !Sweep(looks).SweepFailed? ==> Sweep(looks).checked == Answered(looks)
  {
    if looks != [] {
      SweepCounts(looks[..|looks| - 1]);
    }
  }

  ghost predicate Harmless(looks: seq<Look>) {
    forall i :: 0 <= i < |looks| ==> looks[i].Unlisted? || looks[i].Live?
  }

  /** Hop h is the first that is neither unlisted nor live. */
  ghost predicate StopsAt(looks: seq<Look>, h: nat, what: Look) {
    && h < |looks| && looks[h] == what && (what.Gone? || what.Unknown?)
    && forall j :: 0 <= j < h ==> looks[j].Unlisted? || looks[j].Live?
  }

  ghost predicate LookupFails(looks: seq<Look>) {
    exists h :: StopsAt(looks, h, Unknown)
  }

  /**
   A sweep comes back clear exactly when no hop is revoked or unknown, and then it counted the listed hops;
   otherwise it stopped at the first hop that is, having counted the listed ones up to and including it.
   */
  lemma {:induction false} SweepStops(looks: seq<Look>)
    ensures var r := Sweep(looks);
            && (r.SweepClear? <==> Harmless(looks)) && (r.SweepClear? ==> r.checked == Listed(looks))
            && (r.SweepRevoked? ==> StopsAt(looks, r.hop, Gone) && r.checked == Listed(looks[..r.hop + 1]))
            && (r.SweepFailed? ==> LookupFails(looks))
  {
    if looks != [] {
      var n := |looks| - 1;
      var front := looks[..n];
      SweepStops(front);
      match Sweep(front) {
        case SweepRevoked(h, _) =>
          assert front[..h + 1] == looks[..h + 1] && looks[h] == Gone;
        case SweepFailed =>
          var h :| StopsAt(front, h, Unknown);
          assert StopsAt(looks, h, Unknown);
        case SweepClear(_) =>
          assert looks[..n + 1] == looks;
          assert looks[n].Unknown? ==> StopsAt(looks, n, Unknown);
      }
    }
  }

  lemma {:induction false} ListedAre(w: World, links: seq<Link>)
    ensures Listed(LooksOf(w, links)) == StatusBearing(links)
  {
    if links != [] {
      var n := |links| - 1;
      ListedAre(w, links[..n]);
      assert LooksOf(w, links)[..n] == LooksOf(w, links[..n]);
    }
  }

  lemma HarmlessIff(w: World, links: seq<Link>)
    ensures Harmless(LooksOf(w, links)) <==> NoHopRevoked(w, links)
  {
    forall i | 0 <= i < |links|
      ensures (LooksOf(w, links)[i].Unlisted? || LooksOf(w, links)[i].Live?) <==>
              (BearsStatus(links[i].credential) ==> HopRevoked(w, links[i].credential) == Some(false))
    {
      assert LooksOf(w, links)[i] == LookAt(w, links[i].credential);
    }
  }

  /**
   So the proxy's sweep is clear exactly when the verifier's own look-ups find every status-bearing hop
   live, and it counts those hops.
   */
  lemma SweepMeaning(w: World, links: seq<Link>)
    ensures Sweep(LooksOf(w, links)).SweepClear? <==> NoHopRevoked(w, links)
    ensures Sweep(LooksOf(w, links)).SweepClear? ==> Sweep(LooksOf(w, links)).checked == StatusBearing(links)
  {
    SweepStops(LooksOf(w, links));
    ListedAre(w, links);
    HarmlessIff(w, links);
  }

  /** verifyApproval: none when the approval holds at this position. */
  function ApprovalProblem(w: World, req: Request, actor: DID, seqNo: nat, prevHash: Digest): Option<Cause> {
    if req.approver == "" || SignatureLength(req.approval) == 0 then Some(ApprovalMissing)
    else
      var key := w.dids(req.approver);
      if key.None? then Some(ApproverUnresolved)
      else if !Verifies(key.value, ApprovalMessage(actor, req.action, seqNo, prevHash), req.approval) then
        Some(ApprovalInvalid)
      else None
  }

  /** decide: policy, then authority, then, for a consequential action, revocation and approval. */
  function Decide(w: World, ev: Evaluator, req: Request, seqNo: nat, prevHash: Digest): Decision
    requires req.chain != []
  {
    var terminal := Terminal(req);
    var classified := Classify(w, ev, req.action);
    if classified.failed then Deny(classified.decision, PolicyFailed)
    else
      var dec := classified.decision;
      if !dec.allowed then dec
      else if !Macaroons.AllSatisfied(w.lx, terminal.macaroon.caveats, AuthorityContext(terminal, req.action)) then
        Deny(dec, BeyondAuthority)
      else if !dec.consequential then Allow(dec)
      else if w.status.None? then Deny(dec, NoStatusSource)
      else
        match Sweep(LooksOf(w, req.chain))
        case SweepFailed => Deny(dec, StatusFailed)
        case SweepRevoked(hop, checked) => Deny(dec.(statusCheckedHops := checked), Revoked(hop))
        case SweepClear(checked) =>
          var problem := ApprovalProblem(w, req, terminal.subject, seqNo, prevHash);
          if problem.Some? then Deny(dec.(statusCheckedHops := checked), problem.value)
          else Allow(dec.(statusCheckedHops := checked))
  }

  /**
   decide with its calls: classify, check the caveats, sweep, check the approval, leaving at the first
   gate that fails.
   */
  method DecideRequest(w: World, ev: Evaluator, req: Request, seqNo: nat, prevHash: Digest) returns (d: Decision)
    requires req.chain != []
    ensures d == Decide(w, ev, req, seqNo, prevHash)
  {
    var dec: Decision;
    match ev {
      case OptionB(p) => dec := Policies.Evaluate(w.lx, p, req.action);
      case Plugin(id) =>
        var answer := w.plugin(id, req.action);
        if answer.failed {
          return Deny(answer.decision, PolicyFailed);
        }
        dec := answer.decision;
    }
    if !dec.allowed {
      return dec;
    }
    var terminal := req.chain[|req.chain| - 1].credential;
    var within := Macaroons.CheckSatisfies(w.lx, terminal.macaroon, AuthorityContext(terminal, req.action));
    if !within {
      return Deny(dec, BeyondAuthority);
    }
    if dec.consequential {
      if w.status.None? {
        return Deny(dec, NoStatusSource);
      }
      var swept := AnyHopRevoked(w, req.chain);
      if swept.SweepFailed? {
        return Deny(dec, StatusFailed);
      }
      dec := dec.(statusCheckedHops := swept.checked);
      if swept.SweepRevoked? {
        return Deny(dec, Revoked(swept.hop));
      }
      var problem := ApprovalProblem(w, req, terminal.subject, seqNo, prevHash);
      if problem.Some? {
        return Deny(dec, problem.value);
      }
    }
    return Allow(dec);
  }

  /** What decideAndAppend records of a request at a position. */
  function DraftFor(w: World, ev: Evaluator, req: Request, seqNo: nat, prevHash: Digest, time: int): Draft
    requires req.chain != []
  {
    var approved := SignatureLength(req.approval) > 0;
    Draft(req.action, Principals(req.chain), ChainIDs(req.chain), Decide(w, ev, req, seqNo, prevHash),
          PolicyIDOf(CarriedPolicy(ev)), req.pop.nonce, req.pop.signature,
          if approved then req.approver else "", if approved then req.approval else NO_SIGNATURE, time)
  }

  // ---- evidence -----------------------------------------------------------

  function ChainIDs(links: seq<Link>): (ids: seq<CredentialID>)
    ensures |ids| == |links| && forall i :: 0 <= i < |links| ==> ids[i] == IdOf(links[i].credential)
  {
    seq(|links|, i requires 0 <= i < |links| => IdOf(links[i].credential))
  }

  function RecordOf(l: Link): CredentialRecord {
    CredentialRecord(IdOf(l.credential), l.credential, l.issuerProof)
  }

  /** The credentials of a chain that are not already known, each once, in order. */
  function NewEvidence(known: set<CredentialID>, links: seq<Link>): seq<CredentialRecord>
    decreases |links|
  {
    if links == [] then []
    else
      var id := IdOf(links[0].credential);
      if id in known then NewEvidence(known, links[1..])
      else [RecordOf(links[0])] + NewEvidence(known + {id}, links[1..])
  }

  /** evidenceFor: does not change the set it consults. */
  method EvidenceFor(have: CredentialSet, links: seq<Link>)
    returns (newCreds: seq<CredentialRecord>, ids: seq<CredentialID>)
    ensures ids == ChainIDs(links)
    ensures newCreds == NewEvidence(have.records.Keys, links)
  {
    newCreds, ids := [], [];
    var seen: set<CredentialID> := {};
    assert have.records.Keys + seen == have.records.Keys && links[0..] == links;
    for i := 0 to |links|
      invariant |ids| == i && forall j :: 0 <= j < i ==> ids[j] == IdOf(links[j].credential)
      invariant newCreds + NewEvidence(have.records.Keys + seen, links[i..]) == NewEvidence(have.records.Keys, links)
    {
      var id := IdOf(links[i].credential);
      ids := ids + [id];
      assert links[i..][1..] == links[i + 1..];
      if !have.Has(id) && id !in seen {
        assert have.records.Keys + seen + {id} == have.records.Keys + (seen + {id});
        seen := seen + {id};
        newCreds := newCreds + [CredentialRecord(id, links[i].credential, links[i].issuerProof)];
      }
    }
    assert newCreds + [] == newCreds;
  }

  ghost predicate FromLink(links: seq<Link>, r: CredentialRecord) {
    exists i :: 0 <= i < |links| && r == RecordOf(links[i])
  }

  lemma FromLater(links: seq<Link>, r: CredentialRecord)
    requires links != [] && FromLink(links[1..], r)
    ensures FromLink(links, r)
  {
    var i :| 0 <= i < |links[1..]| && r == RecordOf(links[1..][i]);
    assert links[i + 1] == links[1..][i];
  }

  /** Records of links of the chain, none already known, none twice. */
  ghost predicate NewOf(known: set<CredentialID>, links: seq<Link>, rs: seq<CredentialRecord>) {
    && (forall k :: 0 <= k < |rs| ==> FromLink(links, rs[k]))
    && (forall k :: 0 <= k < |rs| ==> rs[k].credentialID !in known)
    && (forall k, m :: 0 <= k < m < |rs| ==> rs[k].credentialID != rs[m].credentialID)
  }

  lemma {:induction false} NewEvidenceMeans(known: set<CredentialID>, links: seq<Link>)
    ensures NewOf(known, links, NewEvidence(known, links))
    decreases |links|
  {
    if links != [] {
      var id := IdOf(links[0].credential);
      var later := if id in known then known else known + {id};
      var more := NewEvidence(later, links[1..]);
      NewEvidenceMeans(later, links[1..]);
      forall k | 0 <= k < |more| ensures FromLink(links, more[k]) {
        FromLater(links, more[k]);
      }
      if id !in known {
        var all := [RecordOf(links[0])] + more;
        assert NewEvidence(known, links) == all;
        forall k | 0 <= k < |all| ensures FromLink(links, all[k]) {
          if k > 0 {
            assert all[k] == more[k - 1];
          }
        }
      }
    }
  }

  function AddAll(records: Evidence, creds: seq<CredentialRecord>): Evidence
    decreases |creds|
  {
    if creds == [] then records
    else AddAll(AddRecord(records, creds[0].credential, creds[0].issuerProof), creds[1..])
  }

  // ---- the write-ahead log ------------------------------------------------

  datatype WalRecord = WalRecord(entry: Entry, credentials: seq<CredentialRecord>)

  /** A whole record on disk, or bytes that do not parse as one. */
  datatype WalItem = Rec(record: WalRecord) | Torn

  /** How a write and its fsync end. A failure may leave nothing, the whole record, or part of it in the file. */
  datatype Disk = Synced | FailedClean | FailedWritten | FailedTorn

  function WriteTo(file: seq<WalItem>, r: WalRecord, disk: Disk): seq<WalItem> {
    match disk
    case Synced => file + [Rec(r)]
    case FailedClean => file
    case FailedWritten => file + [Rec(r)]
    case FailedTorn => file + [Torn]
  }

  predicate Readable(file: seq<WalItem>) {
    forall i :: 0 <= i < |file| ==> file[i].Rec?
  }

  function RecordsOf(file: seq<WalItem>): (rs: seq<WalRecord>)
    requires Readable(file)
    ensures |rs| == |file| && forall i :: 0 <= i < |file| ==> rs[i] == file[i].record
  {
    seq(|file|, i requires 0 <= i < |file| => file[i].record)
  }

  /** readWAL: a malformed file is an error, never a shorter history. */
  method ReadWAL(file: seq<WalItem>) returns (out: Option<seq<WalRecord>>)
    ensures out.Some? <==> Readable(file)
    ensures out.Some? ==> out.value == RecordsOf(file)
  {
    var rs: seq<WalRecord> := [];
    for i := 0 to |file|
      invariant |rs| == i && forall j :: 0 <= j < i ==> file[j].Rec? && rs[j] == file[j].record
    {
      if file[i].Torn? {
        return None;
      }
      rs := rs + [file[i].record];
    }
    return Some(rs);
  }

  class WAL {
    var file: seq<WalItem>
    var open: bool
    const recovered: seq<WalRecord>

    constructor Opened(contents: seq<WalItem>, records: seq<WalRecord>)
      ensures file == contents && open && recovered == records
    {
      file, open, recovered := contents, true, records;
    }

    static method OpenWAL(contents: seq<WalItem>) returns (w: WAL?)
      ensures w != null <==> Readable(contents)
      ensures w != null ==> fresh(w) && w.open && w.file == contents && w.recovered == RecordsOf(contents)
    {
      var records := ReadWAL(contents);
      if records.None? {
        return null;
      }
      w := new WAL.Opened(contents, records.value);
    }

    /** Append: an error whenever the log is closed or the record is not known to be on stable storage. */
    method Append(e: Entry, creds: seq<CredentialRecord>, disk: Disk) returns (ok: bool)
      modifies this
      ensures ok == (old(open) && disk.Synced?) && open == old(open)
      ensures file == if old(open) then WriteTo(old(file), WalRecord(e, creds), disk) else old(file)
    {
      if !open {
        return false;
      }
      file := WriteTo(file, WalRecord(e, creds), disk);
      return disk.Synced?;
    }

    method Close()
      modifies this
      ensures !open && file == old(file)
    {
      open := false;
    }
  }

  // ---- recovery -----------------------------------------------------------

  function EntriesOf(rs: seq<WalRecord>): (es: seq<Entry>)
    ensures |es| == |rs| && forall i :: 0 <= i < |rs| ==> es[i] == rs[i].entry
  {
    seq(|rs|, i requires 0 <= i < |rs| => rs[i].entry)
  }

  /** The evidence set a sequence of records rebuilds. */
  function EvidenceOf(rs: seq<WalRecord>): Evidence {
    if rs == [] then map[] else AddAll(EvidenceOf(rs[..|rs| - 1]), rs[|rs| - 1].credentials)
  }

  /** Every entry was written under this configuration's policy, or under none. */
  predicate PolicyContinues(cfg: Config, es: seq<Entry>) {
    forall i :: 0 <= i < |es| ==>
      es[i].body.draft.policyID == NoPolicyID || es[i].body.draft.policyID == PolicyIDOf(CarriedPolicy(cfg.evaluator))
  }

  /** recoverFrom accepts these records. */
  predicate Recoverable(cfg: Config, rs: seq<WalRecord>) {
    Chained(EntriesOf(rs), cfg.signer.key) && PolicyContinues(cfg, EntriesOf(rs))
  }

  // ---- one request --------------------------------------------------------

  datatype Entered = Unattributed | SignerFailed | Ready(entry: Entry, creds: seq<CredentialRecord>)

  /** The critical section up to and including Seal: possession at the tip, the decision, the sealed entry. */
  function Enter(
      w: World, cfg: Config, entries: seq<Entry>, records: Evidence,
      req: Request, time: int, signing: Option<nat>): Entered
    requires req.chain != []
  {
    var (seqNo, prevHash) := TipOf(entries);
    if !VerifyPossession(Terminal(req), req.pop, req.action, seqNo, prevHash) then Unattributed
    else if signing.None? then SignerFailed
    else Ready(SealAt(entries, cfg.signer, DraftFor(w, cfg.evaluator, req, seqNo, prevHash, time), signing.value),
               NewEvidence(records.Keys, req.chain))
  }

  datatype HandleResult =
    | Malformed
    | Unattributable
    | SealFailed
    | DurableWriteFailed
    | Decided(decision: Decision, entry: Entry)

  /** What one enforcement point keeps: the log, the evidence, and the file behind them. */
  datatype State = State(entries: seq<Entry>, records: Evidence, file: seq<WalItem>)

  /**
   What deciding one request returns and leaves: all of its entry, evidence and record, or none of its
   entry and evidence.
   */
  function Handled(
      w: World, cfg: Config, durable: bool, s: State,
      req: Request, time: int, signing: Option<nat>, disk: Disk): (HandleResult, State)
    requires req.chain != []
  {
    match Enter(w, cfg, s.entries, s.records, req, time, signing)
    case Unattributed => (Unattributable, s)
    case SignerFailed => (SealFailed, s)
    case Ready(e, creds) =>
      var file := if durable then WriteTo(s.file, WalRecord(e, creds), disk) else s.file;
      if durable && !disk.Synced? then (DurableWriteFailed, s.(file := file))
      else (Decided(e.body.draft.decision, e), State(s.entries + [e], AddAll(s.records, creds), file))
  }

  class Proxy {
    const w: World
    const cfg: Config
    var log: Log
    var evidence: CredentialSet
    const wal: WAL?

    ghost predicate Valid()
      reads this, log
    {
      log.signer == cfg.signer
    }

    ghost function Current(): State
      reads this, log, evidence, wal
    {
      State(log.entries, evidence.records, if wal != null then wal.file else [])
    }

    /** A closed write-ahead log writes nothing and reports an error. */
    ghost function DiskSeen(disk: Disk): Disk
      reads wal
    {
      if wal != null && !wal.open then FailedClean else disk
    }

    constructor Fresh(world: World, config: Config, durable: WAL?)
      ensures Valid() && w == world && cfg == config && wal == durable
      ensures fresh(log) && fresh(evidence) && log.entries == [] && evidence.records == map[]
    {
      w, cfg, wal := world, config, durable;
      log := new Log(config.signer);
      evidence := new CredentialSet();
    }

    /** NewProxy: starts empty, or from a durable log it can verify and whose policy it still runs. */
    static method NewProxy(world: World, config: Config, durable: WAL?) returns (p: Proxy?)
      ensures durable == null ==> p != null && p.log.entries == [] && p.evidence.records == map[]
      ensures durable != null ==> (p != null <==> Recoverable(config, durable.recovered))
      ensures p != null ==>
                && fresh(p) && fresh(p.log) && fresh(p.evidence)
                && p.Valid() && p.w == world && p.cfg == config && p.wal == durable
      ensures p != null && durable != null ==>
                p.log.entries == EntriesOf(durable.recovered) && p.evidence.records == EvidenceOf(durable.recovered)
    {
      var q := new Proxy.Fresh(world, config, durable);
      if durable != null {
        var ok := q.RecoverFrom(durable.recovered);
        if !ok {
          return null;
        }
      }
      p := q;
    }

    /** recoverFrom: verify the chain, then the policy guard, then rebuild the evidence. */
    method RecoverFrom(recs: seq<WalRecord>) returns (ok: bool)
      requires Valid() && log.entries == [] && evidence.records == map[]
      modifies this, evidence
      ensures ok == Recoverable(cfg, recs)
      ensures ok ==> log.entries == EntriesOf(recs) && evidence.records == EvidenceOf(recs)
      ensures Valid() && evidence == old(evidence) && (log == old(log) || fresh(log))
    {
      if |recs| == 0 {
        assert EntriesOf(recs) == [];
        return true;
      }
      var entries := EntriesOf(recs);
      var loaded := Log.LoadLog(cfg.signer, entries);
      if loaded == null {
        return false;
      }
      for i := 0 to |entries|
        invariant forall j :: 0 <= j < i ==>
          entries[j].body.draft.policyID == NoPolicyID ||
            entries[j].body.draft.policyID == PolicyIDOf(CarriedPolicy(cfg.evaluator))
      {
        var id := entries[i].body.draft.policyID;
        if id != NoPolicyID && id != PolicyIDOf(CarriedPolicy(cfg.evaluator)) {
          return false;
        }
      }
      log := loaded;
      for i := 0 to |recs|
        invariant evidence == old(evidence) && log == loaded && loaded.entries == entries
        invariant evidence.records == EvidenceOf(recs[..i])
      {
        assert recs[..i + 1][..i] == recs[..i];
        AdmitEvidence(recs[i].credentials);
      }
      assert recs[..|recs|] == recs;
      return true;
    }

    method AdmitEvidence(creds: seq<CredentialRecord>)
      modifies evidence
      ensures evidence.records == AddAll(old(evidence.records), creds)
    {
      for i := 0 to |creds|
        invariant AddAll(evidence.records, creds[i..]) == AddAll(old(evidence.records), creds)
      {
        assert creds[i..][1..] == creds[i + 1..];
        var _ := evidence.Add(creds[i].credential, creds[i].issuerProof);
      }
    }

    /**
     The first half of decideAndAppend: possession at the tip, the decision, the sealed entry and its
     new evidence.
     */
    method DecideAndSeal(req: Request, time: int, signing: Option<nat>) returns (r: Entered)
      requires Valid() && req.chain != []
      ensures r == Enter(w, cfg, log.entries, evidence.records, req, time, signing)
    {
      var principals := ListPrincipals(req.chain);
      var newCreds, credIDs := EvidenceFor(evidence, req.chain);
      var terminal := req.chain[|req.chain| - 1].credential;
      var seqNo, prevHash := log.Tip();
      if !VerifyPossession(terminal, req.pop, req.action, seqNo, prevHash) {
        return Unattributed;
      }
      var dec := DecideRequest(w, cfg.evaluator, req, seqNo, prevHash);
      var draft := Draft(req.action, principals, credIDs, dec, PolicyIDOf(CarriedPolicy(cfg.evaluator)),
                         req.pop.nonce, req.pop.signature, "", NO_SIGNATURE, time);
      if SignatureLength(req.approval) > 0 {
        draft := draft.(approvedBy := req.approver, approval := req.approval);
      }
      var sealed := log.Seal(draft, signing);
      if sealed.None? {
        return SignerFailed;
      }
      return Ready(sealed.value, newCreds);
    }

    /**
     decideAndAppend: seal, make durable, commit, admit the evidence; any failure before the commit
     admits nothing.
     */
    method DecideAndAppend(req: Request, time: int, signing: Option<nat>, disk: Disk) returns (r: HandleResult)
      requires Valid() && req.chain != []
      modifies log, evidence, wal
      ensures Valid()
      ensures (r, Current()) == Handled(w, cfg, wal != null, old(Current()), req, time, signing, old(DiskSeen(disk)))
    {
      var entered := DecideAndSeal(req, time, signing);
      match entered {
        case Unattributed => return Unattributable;
        case SignerFailed => return SealFailed;
        case Ready(entry, creds) =>
          var stored := Store(entry, creds, disk);
          return if stored then Decided(entry.body.draft.decision, entry) else DurableWriteFailed;
      }
    }

    /** The second half of decideAndAppend: write ahead, then commit, then admit the evidence. */
    method Store(entry: Entry, creds: seq<CredentialRecord>, disk: Disk) returns (stored: bool)
      requires Valid() && CommitAccepts(log.entries, entry)
      modifies log, evidence, wal
      ensures Valid() && stored == (wal == null || old(DiskSeen(disk)).Synced?)
      ensures Current() ==
              State(if stored then old(log.entries) + [entry] else old(log.entries),
                    if stored then AddAll(old(evidence.records), creds) else old(evidence.records),
                    if wal != null then WriteTo(old(wal.file), WalRecord(entry, creds), old(DiskSeen(disk))) else [])
    {
      if wal != null {
        var ok := wal.Append(entry, creds, disk);
        if !ok {
          return false;
        }
      }
      var committed := log.Commit(entry);
      if !committed {
        return false;
      }
      AdmitEvidence(creds);
      return true;
    }

    /**
     Handle: a request that is malformed or not attributable leaves no trace; any other is decided and
     logged, or refused.
     */
    method Handle(req: Request, time: int, signing: Option<nat>, disk: Disk) returns (r: HandleResult)
      requires Valid()
      modifies log, evidence, wal
      ensures Valid()
      ensures !Admissible(w, req) ==> (r == Malformed || r == Unattributable) && Current() == old(Current())
      ensures Admissible(w, req) ==>
                (r, Current()) == Handled(w, cfg, wal != null, old(Current()), req, time, signing, old(DiskSeen(disk)))
    {
      if !WellFormedRequest(req) {
        return Malformed;
      }
      var verdict := Chains.Verify(w, req.chain);
      if !verdict.Sound? {
        return Unattributable;
      }
      r := DecideAndAppend(req, time, signing, disk);
    }

    /** Export: the log, its evidence and the carried policy under the enforcement point's envelope signature. */
    method ExportLog(variant: nat) returns (exp: Export)
      requires Valid()
      ensures Exported(cfg.signer, log.entries, evidence.records, CarriedPolicy(cfg.evaluator), exp)
    {
      return Build(cfg.signer, log.entries, evidence.records, CarriedPolicy(cfg.evaluator), variant);
    }
  }
}
