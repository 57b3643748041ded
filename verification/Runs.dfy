/**
 Every run of an enforcement point. Requests pass the checks outside the lock at any time; one at a
 time takes the lock and goes through seal, durable write, commit and evidence as separate steps;
 a crash may come between any two of them, and a restart may bring a different configuration.
 */
module Runs {
  import opened Util
  import opened Artifacts
  import opened Chains
  import opened Audit
  import opened Exports
  import opened Enforcement
  import opened Agreement

  /** Where the request holding the lock stands; Idle when nobody holds it. */
  datatype Phase =
    | Down
    | Idle
    | Sealed(entry: Entry, creds: seq<CredentialRecord>)
    | Durable(entry: Entry, creds: seq<CredentialRecord>)
    | Recording(entry: Entry, rest: seq<CredentialRecord>)

  /**
   One enforcement point. While it is down, entries and records are what memory last held. Four fields
   are history: admitted, the requests ever let past the outer checks; evaluators, those ever configured;
   sealed, the entries ever sealed; and returned, the entries whose decision was ever handed to a caller.
   */
  datatype Node = Node(
    phase: Phase, cfg: Config, entries: seq<Entry>, records: Evidence, file: seq<WalItem>,
    admitted: set<Request>, evaluators: set<Evaluator>, sealed: set<Entry>, returned: seq<Entry>)

  datatype Event =
    | Submit(req: Request)
    | EnterLock(req: Request, time: int, signing: Option<nat>)
    | Persist(disk: Disk)
    | CommitEntry
    | RecordOne
    | Return
    | Crash
    | Restart(cfg: Config)

  function Init(cfg: Config): Node {
    Node(Idle, cfg, [], map[], [], {}, {cfg.evaluator}, {}, [])
  }

  /** Up again from a write-ahead log. */
  function Resumed(s: Node, cfg: Config, rs: seq<WalRecord>): Node {
    s.(phase := Idle, cfg := cfg, evaluators := s.evaluators + {cfg.evaluator},
       entries := EntriesOf(rs), records := EvidenceOf(rs))
  }

  /** Up again with no write-ahead log to go by. */
  function Emptied(s: Node, cfg: Config): Node {
    s.(phase := Idle, cfg := cfg, evaluators := s.evaluators + {cfg.evaluator}, entries := [], records := map[])
  }

  /** One step; none when the event cannot happen now. durable says whether a write-ahead log is configured. */
  ghost function Step(w: World, durable: bool, s: Node, ev: Event): Option<Node> {
    match ev
    case Submit(req) =>
      if s.phase.Down? then None
      else if Admissible(w, req) then Some(s.(admitted := s.admitted + {req})) else Some(s)
    case EnterLock(req, time, signing) =>
      if !(s.phase.Idle? && req in s.admitted && req.chain != []) then None
      else
        (match Enter(w, s.cfg, s.entries, s.records, req, time, signing)
         case Ready(e, creds) => Some(s.(phase := Sealed(e, creds), sealed := s.sealed + {e}))
         case _ => Some(s))
    case Persist(disk) =>
      if !s.phase.Sealed? then None
      else if !durable then Some(s.(phase := Durable(s.phase.entry, s.phase.creds)))
      else
        var file := WriteTo(s.file, WalRecord(s.phase.entry, s.phase.creds), disk);
        Some(s.(file := file, phase := if disk.Synced? then Durable(s.phase.entry, s.phase.creds) else Idle))
    case CommitEntry =>
      if !s.phase.Durable? then None
      else if !CommitAccepts(s.entries, s.phase.entry) then Some(s.(phase := Idle))
      else Some(s.(entries := s.entries + [s.phase.entry], phase := Recording(s.phase.entry, s.phase.creds)))
    case RecordOne =>
      if !(s.phase.Recording? && s.phase.rest != []) then None
      else
        var c := s.phase.rest[0];
        Some(s.(records := AddRecord(s.records, c.credential, c.issuerProof),
                phase := Recording(s.phase.entry, s.phase.rest[1..])))
    case Return =>
      if !(s.phase.Recording? && s.phase.rest == []) then None
      else Some(s.(returned := s.returned + [s.phase.entry], phase := Idle))
    case Crash =>
      if s.phase.Down? then None else Some(s.(phase := Down))
    case Restart(cfg) =>
      if !s.phase.Down? then None
      else if !durable then Some(Emptied(s, cfg))
      else if Readable(s.file) && Recoverable(cfg, RecordsOf(s.file)) then
        Some(Resumed(s, cfg, RecordsOf(s.file)))
      else Some(s)
  }

  ghost function Run(w: World, durable: bool, s: Node, evs: seq<Event>): Option<Node>
    decreases |evs|
  {
    if evs == [] then Some(s)
    else
      match Step(w, durable, s, evs[0])
      case None => None
      case Some(next) => Run(w, durable, next, evs[1..])
  }

  // ---- the invariant ------------------------------------------------------

  /** Some admitted request, under some configured evaluator, is what this entry records. */
  ghost predicate Good(w: World, admitted: set<Request>, evaluators: set<Evaluator>, e: Entry) {
    exists req, ev :: req in admitted && ev in evaluators && Originates(w, ev, req, e)
  }

  /** Every entry ever sealed records an admissible request under a configured evaluator. */
  ghost predicate SealedInv(w: World, s: Node) {
    && (forall req :: req in s.admitted ==> Admissible(w, req))
    && s.cfg.evaluator in s.evaluators
    && (forall e :: e in s.sealed ==> Good(w, s.admitted, s.evaluators, e))
  }

  ghost predicate AllIn(es: seq<Entry>, sealed: set<Entry>) {
    forall i :: 0 <= i < |es| ==> es[i] in sealed
  }

  ghost predicate GoodCreds(w: World, creds: seq<CredentialRecord>) {
    forall i :: 0 <= i < |creds| ==> IssuanceValid(w, creds[i].credential, creds[i].issuerProof)
  }

  ghost predicate CoversAll(records: Evidence, es: seq<Entry>) {
    forall i :: 0 <= i < |es| ==> Covers(records, es[i])
  }

  ghost predicate MemoryInv(w: World, s: Node) {
    && Chained(s.entries, s.cfg.signer.key)
    && AllIn(s.entries, s.sealed)
    && SoundEvidence(w, s.records)
    && PolicyContinues(s.cfg, s.entries)
    && (s.phase.Idle? || s.phase.Sealed? || s.phase.Durable? ==> CoversAll(s.records, s.entries))
  }

  /** The entry in hand was sealed at the current tip and brings all the evidence it names. */
  ghost predicate InHand(w: World, s: Node, e: Entry, creds: seq<CredentialRecord>) {
    && Chained(s.entries + [e], s.cfg.signer.key)
    && e in s.sealed
    && GoodCreds(w, creds)
    && Covers(AddAll(s.records, creds), e)
    && e.body.draft.policyID == PolicyIDOf(CarriedPolicy(s.cfg.evaluator))
  }

  ghost predicate PhaseInv(w: World, s: Node) {
    match s.phase
    case Sealed(e, creds) => InHand(w, s, e, creds)
    case Durable(e, creds) => InHand(w, s, e, creds)
    case Recording(e, rest) =>
      && s.entries != [] && s.entries[|s.entries| - 1] == e
      && GoodCreds(w, rest) && CoversAll(AddAll(s.records, rest), s.entries)
    case _ => true
  }

  /** A file no configuration can recover from: torn, or a record that is not at its own index. */
  ghost predicate Poisoned(file: seq<WalItem>) {
    exists i :: 0 <= i < |file| && (file[i].Torn? || file[i].record.entry.body.seqNo != i)
  }

  /** Each record brings whatever evidence its entry names that no earlier record brought. */
  ghost predicate SelfSufficient(rs: seq<WalRecord>) {
    forall k :: 0 <= k < |rs| ==> Covers(EvidenceOf(rs[..k + 1]), rs[k].entry)
  }

  /** What every record of a file must be, whatever the memory beside it holds. */
  ghost predicate SoundRecords(w: World, sealed: set<Entry>, rs: seq<WalRecord>) {
    && (forall k :: 0 <= k < |rs| ==> rs[k].entry in sealed && GoodCreds(w, rs[k].credentials))
    && SelfSufficient(rs)
  }

  /** The file's entries are the committed log, or that and one more; in each phase, exactly which. */
  ghost predicate Aligned(s: Node, rs: seq<WalRecord>) {
    var n := |s.entries|;
    && n <= |rs| <= n + 1 && (forall i :: 0 <= i < n ==> rs[i].entry == s.entries[i])
    && match s.phase
       case Down => true
       case Idle => s.records == EvidenceOf(rs[..n])
       case Sealed(_, _) => s.records == EvidenceOf(rs[..n])
       case Durable(e, creds) => |rs| == n + 1 && rs[n] == WalRecord(e, creds) && s.records == EvidenceOf(rs[..n])
       case Recording(_, rest) => |rs| == n && AddAll(s.records, rest) == EvidenceOf(rs)
  }

  ghost predicate FileInv(w: World, s: Node) {
    Poisoned(s.file) ||
    (Readable(s.file) && SoundRecords(w, s.sealed, RecordsOf(s.file)) && Aligned(s, RecordsOf(s.file)))
  }

  /** Every decision ever returned is in the log, at its own position. */
  ghost predicate ReturnedInv(s: Node) {
    forall k :: 0 <= k < |s.returned| ==>
      s.returned[k].body.seqNo < |s.entries| && s.entries[s.returned[k].body.seqNo] == s.returned[k]
  }

  ghost predicate Inv(w: World, durable: bool, s: Node) {
    SealedInv(w, s) && MemoryInv(w, s) && PhaseInv(w, s) && (durable ==> FileInv(w, s) && ReturnedInv(s))
  }

  // ---- evidence lemmas ----------------------------------------------------

  lemma {:induction false} AddAllGrows(records: Evidence, creds: seq<CredentialRecord>)
    ensures records.Keys <= AddAll(records, creds).Keys
    ensures forall i :: 0 <= i < |creds| ==> IdOf(creds[i].credential) in AddAll(records, creds)
    decreases |creds|
  {
    if creds != [] {
      AddAllGrows(AddRecord(records, creds[0].credential, creds[0].issuerProof), creds[1..]);
      forall i | 0 <= i < |creds| ensures IdOf(creds[i].credential) in AddAll(records, creds) {
        if i > 0 {
          assert creds[1..][i - 1] == creds[i];
        }
      }
    }
  }

  lemma {:induction false} AddAllSound(w: World, records: Evidence, creds: seq<CredentialRecord>)
    requires SoundEvidence(w, records) && GoodCreds(w, creds)
    ensures SoundEvidence(w, AddAll(records, creds))
    decreases |creds|
  {
    if creds != [] {
      AddAllSound(w, AddRecord(records, creds[0].credential, creds[0].issuerProof), creds[1..]);
    }
  }

  ghost predicate Brings(creds: seq<CredentialRecord>, c: Credential) {
    exists k :: 0 <= k < |creds| && creds[k].credential == c
  }

  lemma {:induction false} NewEvidenceBrings(known: set<CredentialID>, links: seq<Link>, i: nat)
    requires i < |links|
    ensures IdOf(links[i].credential) in known || Brings(NewEvidence(known, links), links[i].credential)
    decreases |links|
  {
    var id, all := IdOf(links[0].credential), NewEvidence(known, links);
    if id in known {
      if i > 0 {
        NewEvidenceBrings(known, links[1..], i - 1);
      }
    } else {
      assert all[0] == RecordOf(links[0]);
      if links[i].credential != links[0].credential {
        var rest := NewEvidence(known + {id}, links[1..]);
        NewEvidenceBrings(known + {id}, links[1..], i - 1);
        if Brings(rest, links[i].credential) {
          var k :| 0 <= k < |rest| && rest[k].credential == links[i].credential;
          assert all[k + 1] == rest[k];
        }
      }
    }
  }

  lemma {:induction false} NewEvidenceGood(w: World, known: set<CredentialID>, links: seq<Link>)
    requires forall i :: 0 <= i < |links| ==> IssuanceValid(w, links[i].credential, links[i].issuerProof)
    ensures GoodCreds(w, NewEvidence(known, links))
    decreases |links|
  {
    if links != [] {
      var id := IdOf(links[0].credential);
      NewEvidenceGood(w, if id in known then known else known + {id}, links[1..]);
    }
  }

  lemma {:induction false} EvidenceOfSound(w: World, rs: seq<WalRecord>)
    requires forall k :: 0 <= k < |rs| ==> GoodCreds(w, rs[k].credentials)
    ensures SoundEvidence(w, EvidenceOf(rs))
  {
    if rs != [] {
      EvidenceOfSound(w, rs[..|rs| - 1]);
      AddAllSound(w, EvidenceOf(rs[..|rs| - 1]), rs[|rs| - 1].credentials);
    }
  }

  lemma {:induction false} EvidenceOfGrows(rs: seq<WalRecord>, k: nat)
    requires k <= |rs|
    ensures EvidenceOf(rs[..k]).Keys <= EvidenceOf(rs).Keys
    decreases |rs|
  {
    if k == |rs| {
      assert rs[..k] == rs;
    } else {
      var n := |rs| - 1;
      EvidenceOfGrows(rs[..n], k);
      assert rs[..n][..k] == rs[..k];
      AddAllGrows(EvidenceOf(rs[..n]), rs[n].credentials);
    }
  }

  lemma SelfSufficientCovers(rs: seq<WalRecord>)
    requires SelfSufficient(rs)
    ensures CoversAll(EvidenceOf(rs), EntriesOf(rs))
  {
    forall k | 0 <= k < |rs| ensures Covers(EvidenceOf(rs), EntriesOf(rs)[k]) {
      EvidenceOfGrows(rs, k + 1);
    }
  }

  /** One more record keeps the file sound if it brings the evidence its entry names. */
  lemma SoundRecordsSnoc(w: World, sealed: set<Entry>, rs: seq<WalRecord>, r: WalRecord)
    requires SoundRecords(w, sealed, rs)
    requires r.entry in sealed && GoodCreds(w, r.credentials) && Covers(AddAll(EvidenceOf(rs), r.credentials), r.entry)
    ensures SoundRecords(w, sealed, rs + [r])
  {
    var all := rs + [r];
    forall k | 0 <= k < |all| ensures Covers(EvidenceOf(all[..k + 1]), all[k].entry) {
      if k < |rs| {
        assert all[..k + 1] == rs[..k + 1];
      } else {
        assert all[..k + 1] == all && all[..|all| - 1] == rs;
      }
    }
  }

  // ---- entering the lock --------------------------------------------------

  lemma GoodGrows(w: World, a: set<Request>, b: set<Request>, aEvs: set<Evaluator>, bEvs: set<Evaluator>, e: Entry)
    requires a <= b && aEvs <= bEvs && Good(w, a, aEvs, e)
    ensures Good(w, b, bEvs, e)
  {
    var req, ev :| req in a && ev in aEvs && Originates(w, ev, req, e);
    assert req in b && ev in bEvs;
  }

  /** More requests, more evaluators: the sealed entries keep their origins. */
  lemma HistoryGrows(w: World, s: Node, t: Node)
    requires SealedInv(w, s) && s.admitted <= t.admitted && s.evaluators <= t.evaluators && t.sealed == s.sealed
    requires t.cfg.evaluator in t.evaluators && forall req :: req in t.admitted ==> Admissible(w, req)
    ensures SealedInv(w, t)
  {
    forall e | e in t.sealed ensures Good(w, t.admitted, t.evaluators, e) {
      GoodGrows(w, s.admitted, t.admitted, s.evaluators, t.evaluators, e);
    }
  }

  lemma SubmitKeeps(w: World, s: Node, req: Request)
    requires SealedInv(w, s) && Admissible(w, req)
    ensures SealedInv(w, s.(admitted := s.admitted + {req}))
  {
    HistoryGrows(w, s, s.(admitted := s.admitted + {req}));
  }

  /** A credential of the request is either on record or among the new evidence. */
  lemma EvidenceComplete(records: Evidence, links: seq<Link>, ids: seq<CredentialID>)
    requires ids == ChainIDs(links)
    ensures forall id :: id in ids ==> id in AddAll(records, NewEvidence(records.Keys, links))
  {
    var creds := NewEvidence(records.Keys, links);
    AddAllGrows(records, creds);
    forall i | 0 <= i < |links| ensures ids[i] in AddAll(records, creds) {
      NewEvidenceBrings(records.Keys, links, i);
      if ids[i] !in records {
        var k :| 0 <= k < |creds| && creds[k].credential == links[i].credential;
      }
    }
  }

  lemma ChainProofsValid(w: World, links: seq<Link>)
    requires ChainVerified(w, links)
    ensures forall i :: 0 <= i < |links| ==> IssuanceValid(w, links[i].credential, links[i].issuerProof)
  {
    forall i | 0 <= i < |links| ensures IssuanceValid(w, links[i].credential, links[i].issuerProof) {
      assert HopVerified(w, links, i);
    }
  }

  /** What Enter hands on records this request, is sealed at the tip, and brings every credential it names. */
  lemma EnterReady(
      w: World, cfg: Config, entries: seq<Entry>, records: Evidence, req: Request, time: int, signing: Option<nat>)
    requires Admissible(w, req) && Chained(entries, cfg.signer.key)
    requires Enter(w, cfg, entries, records, req, time, signing).Ready?
    ensures var r := Enter(w, cfg, entries, records, req, time, signing);
            && Originates(w, cfg.evaluator, req, r.entry)
            && Chained(entries + [r.entry], cfg.signer.key)
            && GoodCreds(w, r.creds)
            && Covers(AddAll(records, r.creds), r.entry)
            && r.entry.body.draft.policyID == PolicyIDOf(CarriedPolicy(cfg.evaluator))
  {
    ChainProofsValid(w, req.chain);
    NewEvidenceGood(w, records.Keys, req.chain);
    EvidenceComplete(records, req.chain, ChainIDs(req.chain));
  }

  function Holding(s: Node, e: Entry, creds: seq<CredentialRecord>): Node {
    s.(phase := Sealed(e, creds), sealed := s.sealed + {e})
  }

  lemma HoldSealed(w: World, s: Node, e: Entry, creds: seq<CredentialRecord>)
    requires SealedInv(w, s) && Good(w, s.admitted, s.evaluators, e)
    ensures SealedInv(w, Holding(s, e, creds))
  {
    var t := Holding(s, e, creds);
    forall x | x in t.sealed ensures Good(w, t.admitted, t.evaluators, x) {
      if x != e {
        assert x in s.sealed;
      }
    }
  }

  lemma HoldFile(w: World, s: Node, e: Entry, creds: seq<CredentialRecord>)
    requires FileInv(w, s) && s.phase.Idle?
    ensures FileInv(w, Holding(s, e, creds))
  {
    if !Poisoned(s.file) {
      assert SoundRecords(w, s.sealed + {e}, RecordsOf(s.file));
      assert Aligned(Holding(s, e, creds), RecordsOf(s.file));
    }
  }

  lemma EnterKeeps(w: World, durable: bool, s: Node, req: Request, time: int, signing: Option<nat>)
    requires Inv(w, durable, s) && s.phase.Idle? && req in s.admitted && req.chain != []
    requires Enter(w, s.cfg, s.entries, s.records, req, time, signing).Ready?
    ensures var r := Enter(w, s.cfg, s.entries, s.records, req, time, signing);
            Inv(w, durable, Holding(s, r.entry, r.creds))
  {
    var r := Enter(w, s.cfg, s.entries, s.records, req, time, signing);
    EnterReady(w, s.cfg, s.entries, s.records, req, time, signing);
    HoldSealed(w, s, r.entry, r.creds);
    if durable {
      HoldFile(w, s, r.entry, r.creds);
    }
  }

  // ---- the durable write --------------------------------------------------

  /** What is poisoned stays poisoned. */
  lemma PoisonStays(file: seq<WalItem>, item: WalItem)
    requires Poisoned(file)
    ensures Poisoned(file + [item])
  {
    var i :| 0 <= i < |file| && (file[i].Torn? || file[i].record.entry.body.seqNo != i);
    assert (file + [item])[i] == file[i];
  }

  /**
   Writing the record in hand extends the file by one sound record, or poisons it if an uncommitted one
   was already there.
   */
  lemma WriteKeepsFile(w: World, s: Node)
    requires s.phase.Sealed? && FileInv(w, s) && InHand(w, s, s.phase.entry, s.phase.creds)
    ensures var t := s.(file := s.file + [Rec(WalRecord(s.phase.entry, s.phase.creds))]);
            FileInv(w, t.(phase := Durable(s.phase.entry, s.phase.creds))) && FileInv(w, t.(phase := Idle))
  {
    var r := WalRecord(s.phase.entry, s.phase.creds);
    var file := s.file + [Rec(r)];
    if Poisoned(s.file) {
      PoisonStays(s.file, Rec(r));
    } else if |s.file| != |s.entries| {
      assert Intact(s.entries + [r.entry], |s.entries|, s.cfg.signer.key);
      assert file[|s.file|].record.entry.body.seqNo != |s.file|;
    } else {
      ExtendsFile(w, s, r);
    }
  }

  /** On a file that is level with the log, one more record keeps it sound and aligned, committed or not. */
  lemma ExtendsFile(w: World, s: Node, r: WalRecord)
    requires s.phase.Sealed? && r == WalRecord(s.phase.entry, s.phase.creds) && InHand(w, s, r.entry, r.credentials)
    requires Readable(s.file) && SoundRecords(w, s.sealed, RecordsOf(s.file)) && Aligned(s, RecordsOf(s.file))
    requires |s.file| == |s.entries|
    ensures var t := s.(file := s.file + [Rec(r)]);
            && Readable(t.file) && SoundRecords(w, s.sealed, RecordsOf(t.file))
            && Aligned(t.(phase := Durable(r.entry, r.credentials)), RecordsOf(t.file))
            && Aligned(t.(phase := Idle), RecordsOf(t.file))
  {
    var rs := RecordsOf(s.file);
    assert rs[..|s.entries|] == rs;
    assert RecordsOf(s.file + [Rec(r)]) == rs + [r];
    SoundRecordsSnoc(w, s.sealed, rs, r);
    assert (rs + [r])[..|s.entries|] == rs;
  }

  function Written(s: Node, disk: Disk): Node
    requires s.phase.Sealed?
  {
    s.(file := WriteTo(s.file, WalRecord(s.phase.entry, s.phase.creds), disk),
       phase := if disk.Synced? then Durable(s.phase.entry, s.phase.creds) else Idle)
  }

  lemma WrittenFile(w: World, s: Node, disk: Disk)
    requires s.phase.Sealed? && FileInv(w, s) && InHand(w, s, s.phase.entry, s.phase.creds)
    ensures FileInv(w, Written(s, disk))
  {
    match disk {
      case Synced => WriteKeepsFile(w, s);
      case FailedWritten => WriteKeepsFile(w, s);
      case FailedTorn => assert (s.file + [Torn])[|s.file|].Torn?;
      case FailedClean =>
    }
  }

  lemma PersistKeeps(w: World, s: Node, disk: Disk)
    requires Inv(w, true, s) && s.phase.Sealed?
    ensures Inv(w, true, Written(s, disk))
  {
    WrittenFile(w, s, disk);
  }

  lemma SkipWriteKeeps(w: World, s: Node)
    requires Inv(w, false, s) && s.phase.Sealed?
    ensures Inv(w, false, s.(phase := Durable(s.phase.entry, s.phase.creds)))
  {
  }

  /** SealedInv reads only the histories and the configuration. */
  lemma SameHistory(w: World, s: Node, t: Node)
    requires SealedInv(w, s) && t.admitted == s.admitted && t.sealed == s.sealed
    requires t.evaluators == s.evaluators && t.cfg == s.cfg
    ensures SealedInv(w, t)
  {
  }

  // ---- commit, evidence, return -------------------------------------------

  function Committed(s: Node): Node
    requires s.phase.Durable?
  {
    s.(entries := s.entries + [s.phase.entry], phase := Recording(s.phase.entry, s.phase.creds))
  }

  lemma CommitMemory(w: World, s: Node)
    requires MemoryInv(w, s) && s.phase.Durable? && InHand(w, s, s.phase.entry, s.phase.creds)
    ensures CommitAccepts(s.entries, s.phase.entry)
    ensures var t := Committed(s);
            MemoryInv(w, t) && PhaseInv(w, t)
  {
    var e, creds := s.phase.entry, s.phase.creds;
    assert Intact(s.entries + [e], |s.entries|, s.cfg.signer.key);
    AddAllGrows(s.records, creds);
  }

  lemma CommitFile(w: World, s: Node)
    requires FileInv(w, s) && s.phase.Durable?
    ensures FileInv(w, Committed(s))
  {
    var t := Committed(s);
    if !Poisoned(s.file) {
      var rs, n := RecordsOf(s.file), |s.entries|;
      assert rs[..|rs| - 1] == rs[..n];
      assert EvidenceOf(rs) == AddAll(s.records, s.phase.creds);
      assert Aligned(t, rs);
    }
  }

  lemma CommitKeeps(w: World, durable: bool, s: Node)
    requires Inv(w, durable, s) && s.phase.Durable?
    ensures CommitAccepts(s.entries, s.phase.entry) && Inv(w, durable, Committed(s))
  {
    SameHistory(w, s, Committed(s));
    CommitMemory(w, s);
    if durable {
      CommitFile(w, s);
    }
  }

  function Recorded(s: Node): Node
    requires s.phase.Recording? && s.phase.rest != []
  {
    s.(records := AddRecord(s.records, s.phase.rest[0].credential, s.phase.rest[0].issuerProof),
       phase := Recording(s.phase.entry, s.phase.rest[1..]))
  }

  lemma RecordMemory(w: World, s: Node)
    requires MemoryInv(w, s) && PhaseInv(w, s) && s.phase.Recording? && s.phase.rest != []
    ensures MemoryInv(w, Recorded(s)) && PhaseInv(w, Recorded(s))
  {
    var c := s.phase.rest[0];
    AddAllSound(w, s.records, [c]);
    assert AddAll(s.records, [c]) == AddAll(AddRecord(s.records, c.credential, c.issuerProof), []);
  }

  lemma RecordFile(w: World, s: Node)
    requires FileInv(w, s) && s.phase.Recording? && s.phase.rest != []
    ensures FileInv(w, Recorded(s))
  {
    if !Poisoned(s.file) {
      assert Aligned(Recorded(s), RecordsOf(s.file));
    }
  }

  lemma RecordKeeps(w: World, durable: bool, s: Node)
    requires Inv(w, durable, s) && s.phase.Recording? && s.phase.rest != []
    ensures Inv(w, durable, Recorded(s))
  {
    RecordMemory(w, s);
    if durable {
      RecordFile(w, s);
    }
  }

  lemma ReturnFile(w: World, s: Node)
    requires FileInv(w, s) && s.phase.Recording? && s.phase.rest == []
    ensures FileInv(w, s.(phase := Idle))
  {
    if !Poisoned(s.file) {
      var rs := RecordsOf(s.file);
      assert rs[..|s.entries|] == rs;
    }
  }

  lemma ReturnMemory(w: World, s: Node)
    requires MemoryInv(w, s) && PhaseInv(w, s) && s.phase.Recording? && s.phase.rest == []
    ensures MemoryInv(w, s.(returned := s.returned + [s.phase.entry], phase := Idle))
  {
  }

  lemma ReturnReturned(s: Node, key: Key)
    requires ReturnedInv(s) && s.phase.Recording? && Chained(s.entries, key)
    requires s.entries != [] && s.entries[|s.entries| - 1] == s.phase.entry
    ensures ReturnedInv(s.(returned := s.returned + [s.phase.entry], phase := Idle))
  {
    assert Intact(s.entries, |s.entries| - 1, key);
  }

  lemma ReturnKeeps(w: World, durable: bool, s: Node)
    requires Inv(w, durable, s) && s.phase.Recording? && s.phase.rest == []
    ensures Inv(w, durable, s.(returned := s.returned + [s.phase.entry], phase := Idle))
  {
    var t := s.(returned := s.returned + [s.phase.entry], phase := Idle);
    SameHistory(w, s, t);
    ReturnMemory(w, s);
    if durable {
      ReturnFile(w, s);
      ReturnReturned(s, s.cfg.signer.key);
      assert FileInv(w, t);
    }
  }

  // ---- crash and restart --------------------------------------------------

  /** Recovery succeeds only on a file that is not poisoned. */
  lemma RecoveredIsClean(file: seq<WalItem>, cfg: Config)
    requires Readable(file) && Recoverable(cfg, RecordsOf(file))
    ensures !Poisoned(file)
  {
    forall i | 0 <= i < |file| ensures file[i].record.entry.body.seqNo == i {
      assert Intact(EntriesOf(RecordsOf(file)), i, cfg.signer.key);
    }
  }

  lemma ResumeMemory(w: World, s: Node, cfg: Config, rs: seq<WalRecord>)
    requires SoundRecords(w, s.sealed, rs) && Recoverable(cfg, rs)
    ensures MemoryInv(w, Resumed(s, cfg, rs))
  {
    EvidenceOfSound(w, rs);
    SelfSufficientCovers(rs);
  }

  lemma ResumeFile(w: World, s: Node, cfg: Config, rs: seq<WalRecord>)
    requires Readable(s.file) && rs == RecordsOf(s.file) && SoundRecords(w, s.sealed, rs)
    ensures FileInv(w, Resumed(s, cfg, rs))
  {
    assert rs[..|rs|] == rs;
    assert Aligned(Resumed(s, cfg, rs), rs);
  }

  /** The resumed log is the committed one, or that and one entry more. */
  lemma ResumeExtends(w: World, s: Node, cfg: Config)
    requires FileInv(w, s) && Readable(s.file) && Recoverable(cfg, RecordsOf(s.file))
    ensures SoundRecords(w, s.sealed, RecordsOf(s.file))
    ensures s.entries <= EntriesOf(RecordsOf(s.file)) && |s.file| <= |s.entries| + 1
  {
    RecoveredIsClean(s.file, cfg);
  }

  lemma ResumeKeeps(w: World, s: Node, cfg: Config)
    requires SealedInv(w, s) && FileInv(w, s) && ReturnedInv(s)
    requires Readable(s.file) && Recoverable(cfg, RecordsOf(s.file))
    ensures Inv(w, true, Resumed(s, cfg, RecordsOf(s.file)))
  {
    var rs := RecordsOf(s.file);
    ResumeExtends(w, s, cfg);
    ResumeMemory(w, s, cfg, rs);
    ResumeFile(w, s, cfg, rs);
    var t := Resumed(s, cfg, rs);
    HistoryGrows(w, s, t);
    forall k | 0 <= k < |t.returned|
      ensures t.returned[k].body.seqNo < |t.entries| && t.entries[t.returned[k].body.seqNo] == t.returned[k]
    {
      assert s.entries[t.returned[k].body.seqNo] == t.returned[k];
    }
  }

  lemma EmptyMemory(w: World, s: Node, cfg: Config)
    ensures MemoryInv(w, Emptied(s, cfg)) && PhaseInv(w, Emptied(s, cfg))
  {
  }

  lemma FreshKeeps(w: World, s: Node, cfg: Config)
    requires Inv(w, false, s)
    ensures Inv(w, false, Emptied(s, cfg))
  {
    HistoryGrows(w, s, Emptied(s, cfg));
    EmptyMemory(w, s, cfg);
  }

  lemma CrashKeeps(w: World, durable: bool, s: Node)
    requires Inv(w, durable, s) && !s.phase.Down?
    ensures Inv(w, durable, s.(phase := Down))
  {
    if durable && !Poisoned(s.file) {
      assert Aligned(s.(phase := Down), RecordsOf(s.file));
    }
  }

  lemma AdmitKeeps(w: World, durable: bool, s: Node, req: Request)
    requires Inv(w, durable, s) && Admissible(w, req)
    ensures Inv(w, durable, s.(admitted := s.admitted + {req}))
  {
    SubmitKeeps(w, s, req);
    AdmitRest(w, s, req);
    if durable {
      AdmitFile(w, s, req);
    }
  }

  lemma AdmitRest(w: World, s: Node, req: Request)
    requires MemoryInv(w, s) && PhaseInv(w, s)
    ensures MemoryInv(w, s.(admitted := s.admitted + {req})) && PhaseInv(w, s.(admitted := s.admitted + {req}))
  {
  }

  lemma AdmitFile(w: World, s: Node, req: Request)
    requires FileInv(w, s)
    ensures FileInv(w, s.(admitted := s.admitted + {req}))
  {
    if !Poisoned(s.file) {
      assert Aligned(s.(admitted := s.admitted + {req}), RecordsOf(s.file));
    }
  }

  lemma EnterStepKeeps(w: World, durable: bool, s: Node, ev: Event, t: Node)
    requires ev.EnterLock?
    requires Inv(w, durable, s) && Step(w, durable, s, ev) == Some(t)
    ensures Inv(w, durable, t) && t.entries == s.entries
  {
    if Enter(w, s.cfg, s.entries, s.records, ev.req, ev.time, ev.signing).Ready? {
      EnterKeeps(w, durable, s, ev.req, ev.time, ev.signing);
    }
  }

  lemma FrontStepKeeps(w: World, durable: bool, s: Node, ev: Event, t: Node)
    requires ev.Submit? || ev.Persist?
    requires Inv(w, durable, s) && Step(w, durable, s, ev) == Some(t)
    ensures Inv(w, durable, t) && t.entries == s.entries
  {
    match ev {
      case Submit(req) =>
        if t != s {
          AdmitKeeps(w, durable, s, req);
        }
      case Persist(disk) =>
        if durable {
          PersistKeeps(w, s, disk);
        } else {
          SkipWriteKeeps(w, s);
        }
    }
  }

  lemma BackStepKeeps(w: World, durable: bool, s: Node, ev: Event, t: Node)
    requires ev.CommitEntry? || ev.RecordOne? || ev.Return? || ev.Crash?
    requires Inv(w, durable, s) && Step(w, durable, s, ev) == Some(t)
    ensures Inv(w, durable, t) && s.entries <= t.entries
  {
    match ev {
      case CommitEntry => CommitKeeps(w, durable, s);
      case RecordOne => RecordKeeps(w, durable, s);
      case Return => ReturnKeeps(w, durable, s);
      case Crash => CrashKeeps(w, durable, s);
    }
  }

  lemma RestartKeeps(w: World, durable: bool, s: Node, cfg: Config, t: Node)
    requires Inv(w, durable, s) && Step(w, durable, s, Restart(cfg)) == Some(t)
    ensures Inv(w, durable, t)
    ensures durable ==> s.entries <= t.entries && |t.entries| <= |s.entries| + 1
  {
    if !durable {
      FreshKeeps(w, s, cfg);
    } else if t != s {
      ResumeKeeps(w, s, cfg);
      ResumeExtends(w, s, cfg);
    }
  }

  /** Every step keeps the invariant, and with a write-ahead log the committed log only grows. */
  lemma StepKeeps(w: World, durable: bool, s: Node, ev: Event, t: Node)
    requires Inv(w, durable, s) && Step(w, durable, s, ev) == Some(t)
    ensures Inv(w, durable, t)
    ensures durable ==> s.entries <= t.entries
  {
    if ev.Submit? || ev.Persist? {
      FrontStepKeeps(w, durable, s, ev, t);
    } else if ev.EnterLock? {
      EnterStepKeeps(w, durable, s, ev, t);
    } else if ev.Restart? {
      RestartKeeps(w, durable, s, ev.cfg, t);
    } else {
      BackStepKeeps(w, durable, s, ev, t);
    }
  }

  /** Hence every run does. */
  lemma {:induction false} RunKeeps(w: World, durable: bool, s: Node, evs: seq<Event>, t: Node)
    requires Inv(w, durable, s) && Run(w, durable, s, evs) == Some(t)
    ensures Inv(w, durable, t)
    ensures durable ==> s.entries <= t.entries
    decreases |evs|
  {
    if evs != [] {
      var next := Step(w, durable, s, evs[0]).value;
      StepKeeps(w, durable, s, evs[0], next);
      RunKeeps(w, durable, next, evs[1..], t);
    }
  }

  lemma InitHolds(w: World, durable: bool, cfg: Config)
    ensures Inv(w, durable, Init(cfg))
  {
    assert RecordsOf([]) == [];
  }
}
