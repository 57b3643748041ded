/**
 The write-ahead log in the hands of someone who can rewrite the file but cannot sign: what recovery
 refuses, what it does not, and what holds of every log it accepts.
 */
module Tampering {
  import opened Util
  import opened Artifacts
  import opened Audit
  import opened Exports
  import opened Enforcement
  import opened Agreement
  import opened Runs
  import opened Guarantees

  // ---- truncation ---------------------------------------------------------

  /** Recovery looks at the entries only, and every prefix of what it accepts it accepts too. */
  lemma PrefixRecovers(cfg: Config, rs: seq<WalRecord>, other: seq<WalRecord>)
    requires Recoverable(cfg, rs) && EntriesOf(other) <= EntriesOf(rs)
    ensures Recoverable(cfg, other)
  {
    var es, k := EntriesOf(rs), |other|;
    assert EntriesOf(other) == es[..k];
    PrefixChained(es, cfg.signer.key, k);
  }

  lemma SelectedInPlace(es: seq<Entry>, os: seq<Entry>, key: Key, i: nat)
    requires Chained(es, key) && Chained(os, key) && i < |os| && os[i] in es
    ensures i < |es| && os[i] == es[i]
  {
    var j :| 0 <= j < |es| && es[j] == os[i];
    assert Intact(es, j, key) && Intact(os, i, key);
  }

  /**
   Exactly which rearrangements recovery refuses. Take records it accepts and any other file made of the same
   entries, with records dropped, repeated or reordered: it is accepted if and only if its entries are a prefix
   of the original's. So a reordering or a gap is refused, and cutting whole records off the end never is.
   */
  lemma SelectionRecoversIff(cfg: Config, rs: seq<WalRecord>, other: seq<WalRecord>)
    requires Recoverable(cfg, rs)
    requires forall i :: 0 <= i < |other| ==> other[i].entry in EntriesOf(rs)
    ensures Recoverable(cfg, other) <==> EntriesOf(other) <= EntriesOf(rs)
  {
    var es, os := EntriesOf(rs), EntriesOf(other);
    if Recoverable(cfg, other) {
      forall i | 0 <= i < |os| ensures i < |es| && os[i] == es[i] {
        SelectedInPlace(es, os, cfg.signer.key, i);
      }
      if os != [] {
        SelectedInPlace(es, os, cfg.signer.key, |os| - 1);
      }
    }
    if os <= es {
      PrefixRecovers(cfg, rs, other);
    }
  }

  lemma TruncationRecovers(cfg: Config, rs: seq<WalRecord>, k: nat)
    requires Recoverable(cfg, rs) && k <= |rs|
    ensures Recoverable(cfg, rs[..k])
  {
    assert EntriesOf(rs[..k]) == EntriesOf(rs)[..k];
    PrefixRecovers(cfg, rs, rs[..k]);
  }

  lemma CutRecords(file: seq<WalItem>, k: nat)
    requires Readable(file) && k <= |file|
    ensures Readable(file[..k]) && RecordsOf(file[..k]) == RecordsOf(file)[..k]
    ensures EntriesOf(RecordsOf(file[..k])) == EntriesOf(RecordsOf(file))[..k]
  {
  }

  /**
   After any run, with the file cut to its first k records: recovery under the same key and policy succeeds
   whenever it would have on the whole file, and a decision that was returned is in the recovered log at its
   own position if and only if that position is below k.
   */
  lemma TruncatedRestart(w: World, cfg: Config, evs: seq<Event>, s: Node, next: Config, k: nat, n: nat)
    requires Run(w, true, Init(cfg), evs) == Some(s) && s.phase.Down? && !Poisoned(s.file)
    requires next.signer.key == s.cfg.signer.key
    requires PolicyIDOf(CarriedPolicy(next.evaluator)) == PolicyIDOf(CarriedPolicy(s.cfg.evaluator))
    requires k <= |s.file| && n < |s.returned|
    ensures var t := Step(w, true, s.(file := s.file[..k]), Restart(next));
            var e := s.returned[n];
            && t.Some? && t.value.phase.Idle? && |t.value.entries| == k
            && (e in t.value.entries <==> e.body.seqNo < k)
            && (e.body.seqNo < k ==> t.value.entries[e.body.seqNo] == e)
  {
    StillRecoverable(w, cfg, evs, s, next);
    CutRestart(w, s, next, k);
    ReturnedOnFile(w, s, next, n);
    var es := EntriesOf(RecordsOf(s.file));
    PrefixChained(es, next.signer.key, k);
    OwnPositions(es[..k], next.signer.key, s.returned[n]);
  }

  lemma StillRecoverable(w: World, cfg: Config, evs: seq<Event>, s: Node, next: Config)
    requires Run(w, true, Init(cfg), evs) == Some(s) && !Poisoned(s.file)
    requires next.signer.key == s.cfg.signer.key
    requires PolicyIDOf(CarriedPolicy(next.evaluator)) == PolicyIDOf(CarriedPolicy(s.cfg.evaluator))
    ensures Readable(s.file) && Recoverable(next, RecordsOf(s.file)) && FileInv(w, s) && ReturnedInv(s)
  {
    InitHolds(w, true, cfg);
    assert RecordsOf([]) == [];
    ResumableRun(w, Init(cfg), evs, s);
  }

  lemma CutRestart(w: World, s: Node, next: Config, k: nat)
    requires s.phase.Down? && Readable(s.file) && Recoverable(next, RecordsOf(s.file)) && k <= |s.file|
    ensures var t := Step(w, true, s.(file := s.file[..k]), Restart(next));
            t.Some? && t.value.phase.Idle? && t.value.entries == EntriesOf(RecordsOf(s.file))[..k]
  {
    TruncationRecovers(next, RecordsOf(s.file), k);
    CutRecords(s.file, k);
  }

  lemma OwnPositions(es: seq<Entry>, key: Key, e: Entry)
    requires Chained(es, key)
    ensures e in es ==> e.body.seqNo < |es|
  {
    if e in es {
      var i :| 0 <= i < |es| && es[i] == e;
      assert Intact(es, i, key);
    }
  }

  lemma ReturnedOnFile(w: World, s: Node, next: Config, n: nat)
    requires FileInv(w, s) && ReturnedInv(s) && n < |s.returned|
    requires Readable(s.file) && Recoverable(next, RecordsOf(s.file))
    ensures var es, e := EntriesOf(RecordsOf(s.file)), s.returned[n];
            e.body.seqNo < |es| && es[e.body.seqNo] == e
  {
    ResumeExtends(w, s, next);
    ReturnedStay(s, EntriesOf(RecordsOf(s.file)));
  }

  // ---- any rewriting ------------------------------------------------------

  /** Some sealed entry has this content; its signature may have been given another form. */
  ghost predicate Known(sealed: set<Entry>, e: Entry) {
    exists k :: k in sealed && k.body == e.body
  }

  /** Nothing in the file is signed under one of these keys except what the enforcement point sealed. */
  ghost predicate Unforged(keys: set<Key>, sealed: set<Entry>, file: seq<WalItem>) {
    forall i :: 0 <= i < |file| && file[i].Rec? && file[i].record.entry.signature.Signed? &&
                file[i].record.entry.signature.key in keys ==>
      Known(sealed, file[i].record.entry)
  }

  datatype Move = Normal(ev: Event) | Rewrite(file: seq<WalItem>)

  /**
   A step of an enforcement point whose signers hold these keys, or any rewriting of its file, at any time, by
   someone who does not hold them. He may add records under keys of his own, and touch all evidence.
   */
  ghost function MoveStep(w: World, keys: set<Key>, s: Node, m: Move): Option<Node> {
    match m
    case Normal(ev) => if ev.Restart? && ev.cfg.signer.key !in keys then None else Step(w, true, s, ev)
    case Rewrite(file) => if Unforged(keys, s.sealed, file) then Some(s.(file := file)) else None
  }

  ghost function MoveRun(w: World, keys: set<Key>, s: Node, ms: seq<Move>): Option<Node>
    decreases |ms|
  {
    if ms == [] then Some(s)
    else
      match MoveStep(w, keys, s, ms[0])
      case None => None
      case Some(next) => MoveRun(w, keys, next, ms[1..])
  }

  ghost predicate AllKnown(sealed: set<Entry>, es: seq<Entry>) {
    forall i :: 0 <= i < |es| ==> Known(sealed, es[i])
  }

  ghost predicate HandCore(s: Node) {
    s.phase.Sealed? || s.phase.Durable? ==>
      && Chained(s.entries + [s.phase.entry], s.cfg.signer.key) && s.phase.entry in s.sealed
      && s.phase.entry.body.draft.policyID == PolicyIDOf(CarriedPolicy(s.cfg.evaluator))
  }

  /** The log itself: whole, made of sealed contents, and under a policy that continues. */
  ghost predicate LogCore(s: Node) {
    Chained(s.entries, s.cfg.signer.key) && AllKnown(s.sealed, s.entries) && PolicyContinues(s.cfg, s.entries)
  }

  /** What no rewriting can undo. */
  ghost predicate Core(w: World, keys: set<Key>, s: Node) {
    SealedInv(w, s) && s.cfg.signer.key in keys && LogCore(s) && HandCore(s) && Unforged(keys, s.sealed, s.file)
  }

  lemma SealedIsKnown(sealed: set<Entry>, e: Entry)
    requires e in sealed
    ensures Known(sealed, e)
  {
  }

  lemma KnownGrows(keys: set<Key>, sealed: set<Entry>, e: Entry, file: seq<WalItem>, es: seq<Entry>)
    requires Unforged(keys, sealed, file) && AllKnown(sealed, es)
    ensures Unforged(keys, sealed + {e}, file) && AllKnown(sealed + {e}, es)
  {
    forall x | Known(sealed, x) ensures Known(sealed + {e}, x) {
      var k :| k in sealed && k.body == x.body;
      assert k in sealed + {e};
    }
  }

  lemma CoreEnter(w: World, keys: set<Key>, s: Node, req: Request, time: int, signing: Option<nat>)
    requires Core(w, keys, s) && s.phase.Idle? && req in s.admitted && req.chain != []
    requires Enter(w, s.cfg, s.entries, s.records, req, time, signing).Ready?
    ensures var r := Enter(w, s.cfg, s.entries, s.records, req, time, signing);
            Core(w, keys, Holding(s, r.entry, r.creds))
  {
    var r := Enter(w, s.cfg, s.entries, s.records, req, time, signing);
    EnterReady(w, s.cfg, s.entries, s.records, req, time, signing);
    HoldSealed(w, s, r.entry, r.creds);
    KnownGrows(keys, s.sealed, r.entry, s.file, s.entries);
  }

  lemma UnforgedWrite(keys: set<Key>, sealed: set<Entry>, file: seq<WalItem>, r: WalRecord, disk: Disk)
    requires Unforged(keys, sealed, file) && r.entry in sealed
    ensures Unforged(keys, sealed, WriteTo(file, r, disk))
  {
    SealedIsKnown(sealed, r.entry);
  }

  lemma LogCoreCommit(s: Node)
    requires LogCore(s) && HandCore(s) && s.phase.Durable?
    ensures LogCore(Committed(s))
  {
    SealedIsKnown(s.sealed, s.phase.entry);
  }

  lemma CoreWrite(w: World, keys: set<Key>, s: Node, disk: Disk)
    requires Core(w, keys, s) && s.phase.Sealed?
    ensures Core(w, keys, Written(s, disk))
  {
    SameHistory(w, s, Written(s, disk));
    UnforgedWrite(keys, s.sealed, s.file, WalRecord(s.phase.entry, s.phase.creds), disk);
  }

  lemma CoreCommit(w: World, keys: set<Key>, s: Node)
    requires Core(w, keys, s) && s.phase.Durable?
    ensures Core(w, keys, Committed(s))
  {
    SameHistory(w, s, Committed(s));
    LogCoreCommit(s);
  }

  /** What recovery accepts was signed under the signer's key, and so was sealed. */
  lemma RecoveredKnown(keys: set<Key>, s: Node, cfg: Config)
    requires Unforged(keys, s.sealed, s.file) && cfg.signer.key in keys
    requires Readable(s.file) && Recoverable(cfg, RecordsOf(s.file))
    ensures AllKnown(s.sealed, EntriesOf(RecordsOf(s.file)))
  {
    var es := EntriesOf(RecordsOf(s.file));
    forall i | 0 <= i < |es| ensures Known(s.sealed, es[i]) {
      assert Intact(es, i, cfg.signer.key);
      assert s.file[i].record.entry == es[i];
    }
  }

  lemma CoreRestart(w: World, keys: set<Key>, s: Node, cfg: Config)
    requires Core(w, keys, s) && cfg.signer.key in keys && Readable(s.file) && Recoverable(cfg, RecordsOf(s.file))
    ensures Core(w, keys, Resumed(s, cfg, RecordsOf(s.file)))
  {
    HistoryGrows(w, s, Resumed(s, cfg, RecordsOf(s.file)));
    RecoveredKnown(keys, s, cfg);
  }

  lemma CoreEnterStep(w: World, keys: set<Key>, s: Node, ev: Event, t: Node)
    requires ev.EnterLock? && Core(w, keys, s) && Step(w, true, s, ev) == Some(t)
    ensures Core(w, keys, t)
  {
    if Enter(w, s.cfg, s.entries, s.records, ev.req, ev.time, ev.signing).Ready? {
      CoreEnter(w, keys, s, ev.req, ev.time, ev.signing);
    }
  }

  lemma CoreStoreStep(w: World, keys: set<Key>, s: Node, ev: Event, t: Node)
    requires (ev.Persist? || ev.CommitEntry?) && Core(w, keys, s) && Step(w, true, s, ev) == Some(t)
    ensures Core(w, keys, t)
  {
    if ev.Persist? {
      CoreWrite(w, keys, s, ev.disk);
    } else if CommitAccepts(s.entries, s.phase.entry) {
      CoreCommit(w, keys, s);
    } else {
      SameHistory(w, s, t);
    }
  }

  lemma CoreOtherStep(w: World, keys: set<Key>, s: Node, ev: Event, t: Node)
    requires (ev.Submit? || ev.RecordOne? || ev.Return? || ev.Crash?) && Core(w, keys, s)
    requires Step(w, true, s, ev) == Some(t)
    ensures Core(w, keys, t)
  {
    if ev.Submit? {
      if t != s {
        SubmitKeeps(w, s, ev.req);
      }
    } else {
      SameHistory(w, s, t);
    }
  }

  lemma CoreRestartStep(w: World, keys: set<Key>, s: Node, ev: Event, t: Node)
    requires ev.Restart? && ev.cfg.signer.key in keys && Core(w, keys, s) && Step(w, true, s, ev) == Some(t)
    ensures Core(w, keys, t)
  {
    if Readable(s.file) && Recoverable(ev.cfg, RecordsOf(s.file)) {
      CoreRestart(w, keys, s, ev.cfg);
    }
  }

  lemma CoreStep(w: World, keys: set<Key>, s: Node, ev: Event, t: Node)
    requires Core(w, keys, s) && MoveStep(w, keys, s, Normal(ev)) == Some(t)
    ensures Core(w, keys, t)
  {
    if ev.EnterLock? {
      CoreEnterStep(w, keys, s, ev, t);
    } else if ev.Persist? || ev.CommitEntry? {
      CoreStoreStep(w, keys, s, ev, t);
    } else if ev.Restart? {
      CoreRestartStep(w, keys, s, ev, t);
    } else {
      CoreOtherStep(w, keys, s, ev, t);
    }
  }

  lemma {:induction false} CoreRun(w: World, keys: set<Key>, s: Node, ms: seq<Move>, t: Node)
    requires Core(w, keys, s) && MoveRun(w, keys, s, ms) == Some(t)
    ensures Core(w, keys, t)
    decreases |ms|
  {
    if ms != [] {
      var next := MoveStep(w, keys, s, ms[0]).value;
      if ms[0].Normal? {
        CoreStep(w, keys, s, ms[0].ev, next);
      } else {
        SameHistory(w, s, next);
      }
      CoreRun(w, keys, next, ms[1..], t);
    }
  }

  lemma KnownIsGood(w: World, s: Node, e: Entry)
    requires SealedInv(w, s) && Known(s.sealed, e)
    ensures Good(w, s.admitted, s.evaluators, e)
  {
    var k :| k in s.sealed && k.body == e.body;
    var req, ev :| req in s.admitted && ev in s.evaluators && Originates(w, ev, req, k);
    assert Originates(w, ev, req, e);
  }

  lemma KnownAreGood(w: World, s: Node)
    requires SealedInv(w, s) && AllKnown(s.sealed, s.entries)
    ensures forall i :: 0 <= i < |s.entries| ==> Good(w, s.admitted, s.evaluators, s.entries[i])
  {
    forall i | 0 <= i < |s.entries| ensures Good(w, s.admitted, s.evaluators, s.entries[i]) {
      KnownIsGood(w, s, s.entries[i]);
    }
  }

  lemma PositionAt(es: seq<Entry>, key: Key, i: nat)
    requires Chained(es, key) && i < |es|
    ensures es[i].body.seqNo == i && es[i].body.prevHash == LogTip(es[..i])
  {
    assert Intact(es, i, key);
  }

  lemma TamperedCore(w: World, keys: set<Key>, cfg: Config, ms: seq<Move>, s: Node)
    requires cfg.signer.key in keys && MoveRun(w, keys, Init(cfg), ms) == Some(s)
    ensures Core(w, keys, s)
    ensures forall i :: 0 <= i < |s.entries| ==> Good(w, s.admitted, s.evaluators, s.entries[i])
  {
    assert Core(w, keys, Init(cfg));
    CoreRun(w, keys, Init(cfg), ms, s);
    KnownAreGood(w, s);
  }

  /**
   Whatever is done to the file between and during runs, every entry of every log recovered from it sits
   at its own position and is attributable, and every allow rests on what a configured evaluator derived.
   */
  lemma TamperedStaysAttributable(w: World, keys: set<Key>, cfg: Config, ms: seq<Move>, s: Node, i: nat)
    returns (chain: seq<Link>, ev: Evaluator)
    requires cfg.signer.key in keys && MoveRun(w, keys, Init(cfg), ms) == Some(s) && i < |s.entries|
    ensures s.entries[i].body.seqNo == i && s.entries[i].body.prevHash == LogTip(s.entries[..i])
    ensures Attributable(w, s.entries[i].body, chain)
    ensures ev in s.evaluators && s.entries[i].body.draft.policyID == PolicyIDOf(CarriedPolicy(ev))
    ensures s.entries[i].body.draft.decision.allowed ==> AllowRests(w, ev, s.entries[i].body, chain)
  {
    TamperedCore(w, keys, cfg, ms, s);
    PositionAt(s.entries, s.cfg.signer.key, i);
    chain, ev := GoodAttributes(w, s.admitted, s.evaluators, s.entries[i]);
  }

  /** And in no such log does one proof of possession, or one approval of a consequential allow, count twice. */
  lemma TamperedStaysSingleUse(w: World, keys: set<Key>, cfg: Config, ms: seq<Move>, s: Node, i: nat, j: nat)
    requires cfg.signer.key in keys && MoveRun(w, keys, Init(cfg), ms) == Some(s) && i < j < |s.entries|
    ensures DifferentMessages(s.entries[i].body.draft.popSignature, s.entries[j].body.draft.popSignature)
    ensures ConsequentialAllow(s.entries[i]) && ConsequentialAllow(s.entries[j]) ==>
              DifferentMessages(s.entries[i].body.draft.approval, s.entries[j].body.draft.approval)
  {
    TamperedCore(w, keys, cfg, ms, s);
    PositionAt(s.entries, s.cfg.signer.key, i);
    PositionAt(s.entries, s.cfg.signer.key, j);
    PositionsShareNothing(w, s.admitted, s.evaluators, s.entries[i], s.entries[j]);
  }

  /**
   No hash covers the evidence in the file, so a file with its entries intact and its credentials replaced or
   dropped is accepted. What that costs, exactly: an export then passes if and only if every credential an entry
   names is on record with a valid issuance proof, each allow names a policy, and its approval is absent or valid.
   */
  lemma TamperedExportIff(w: World, keys: set<Key>, cfg: Config, ms: seq<Move>, s: Node, exp: Export)
    requires cfg.signer.key in keys && MoveRun(w, keys, Init(cfg), ms) == Some(s) && ExportOf(s, exp)
    requires w.dids(s.cfg.signer.did) == Some(s.cfg.signer.key)
    ensures Passes(w, exp) <==> AllKept(w, s.records, s.entries) && AllPresentable(w, s.entries)
  {
    TamperedCore(w, keys, cfg, ms, s);
    OriginsSettle(w, s, exp);
  }

  // ---- an undisturbed run is one of these ---------------------------------

  function Moves(evs: seq<Event>): (ms: seq<Move>)
    ensures |ms| == |evs|
  {
    seq(|evs|, i requires 0 <= i < |evs| => Normal(evs[i]))
  }

  lemma {:induction false} RunIsMoveRun(w: World, keys: set<Key>, s: Node, evs: seq<Event>, t: Node)
    requires Run(w, true, s, evs) == Some(t)
    requires forall i :: 0 <= i < |evs| && evs[i].Restart? ==> evs[i].cfg.signer.key in keys
    ensures MoveRun(w, keys, s, Moves(evs)) == Some(t)
    decreases |evs|
  {
    if evs != [] {
      assert Moves(evs)[0] == Normal(evs[0]) && Moves(evs)[1..] == Moves(evs[1..]);
      RunIsMoveRun(w, keys, Step(w, true, s, evs[0]).value, evs[1..], t);
    }
  }

  lemma {:induction false} MoveConcat(w: World, keys: set<Key>, s: Node, a: seq<Move>, m: Node, b: seq<Move>)
    requires MoveRun(w, keys, s, a) == Some(m)
    ensures MoveRun(w, keys, s, a + b) == MoveRun(w, keys, m, b)
    decreases |a|
  {
    if a == [] {
      assert a + b == b;
    } else {
      assert (a + b)[1..] == a[1..] + b;
      MoveConcat(w, keys, MoveStep(w, keys, s, a[0]).value, a[1..], m, b);
    }
  }
}
