/**
 One uninterrupted call is a run of the machine: what the machine guarantees of every run holds of every
 sequence of calls.
 */
module Handling {
  import opened Util
  import opened Artifacts
  import opened Audit
  import opened Exports
  import opened Enforcement
  import opened Runs
  import opened Guarantees

  /** A node at rest beside the state of the object it stands for. */
  ghost predicate Mirrors(s: Node, p: State) {
    s.phase.Idle? && s.entries == p.entries && s.records == p.records && s.file == p.file
  }

  ghost predicate NoRestart(evs: seq<Event>) {
    forall i :: 0 <= i < |evs| ==> !evs[i].Restart?
  }

  lemma {:induction false} RunConcat(w: World, durable: bool, s: Node, a: seq<Event>, m: Node, b: seq<Event>)
    requires Run(w, durable, s, a) == Some(m)
    ensures Run(w, durable, s, a + b) == Run(w, durable, m, b)
    decreases |a|
  {
    if a == [] {
      assert a + b == b;
    } else {
      assert (a + b)[1..] == a[1..] + b;
      RunConcat(w, durable, Step(w, durable, s, a[0]).value, a[1..], m, b);
    }
  }

  lemma OneStep(w: World, durable: bool, s: Node, ev: Event, t: Node)
    requires Step(w, durable, s, ev) == Some(t)
    ensures Run(w, durable, s, [ev]) == Some(t)
  {
    assert [ev][1..] == [];
    assert Run(w, durable, t, []) == Some(t);
  }

  /** n pieces of evidence go in one at a time, then the decision is returned. */
  function Finish(n: nat): seq<Event> {
    if n == 0 then [Return] else [RecordOne] + Finish(n - 1)
  }

  function Finished(s: Node): Node
    requires s.phase.Recording?
  {
    s.(records := AddAll(s.records, s.phase.rest), returned := s.returned + [s.phase.entry], phase := Idle)
  }

  lemma {:induction false} FinishRuns(w: World, durable: bool, s: Node)
    requires s.phase.Recording?
    ensures Run(w, durable, s, Finish(|s.phase.rest|)) == Some(Finished(s)) && NoRestart(Finish(|s.phase.rest|))
    decreases |s.phase.rest|
  {
    var n := |s.phase.rest|;
    if n == 0 {
      OneStep(w, durable, s, Return, Finished(s));
    } else {
      assert Finish(n)[0] == RecordOne && Finish(n)[1..] == Finish(n - 1);
      assert Step(w, durable, s, RecordOne) == Some(Recorded(s));
      FinishRuns(w, durable, Recorded(s));
      assert Finished(Recorded(s)) == Finished(s);
    }
  }

  /** From the sealed entry to the end of the call. */
  function StoreEvents(durable: bool, n: nat, disk: Disk): seq<Event> {
    [Persist(disk)] + if durable && !disk.Synced? then [] else [CommitEntry] + Finish(n)
  }

  function Stored(durable: bool, s: Node, disk: Disk): Node
    requires s.phase.Sealed?
  {
    var e, creds := s.phase.entry, s.phase.creds;
    var file := if durable then WriteTo(s.file, WalRecord(e, creds), disk) else s.file;
    if durable && !disk.Synced? then s.(phase := Idle, file := file)
    else
      s.(phase := Idle, file := file, entries := s.entries + [e],
         records := AddAll(s.records, creds), returned := s.returned + [e])
  }

  lemma StoreRuns(w: World, durable: bool, s: Node, disk: Disk)
    requires s.phase.Sealed? && CommitAccepts(s.entries, s.phase.entry)
    ensures var evs := StoreEvents(durable, |s.phase.creds|, disk);
            Run(w, durable, s, evs) == Some(Stored(durable, s, disk)) && NoRestart(evs)
  {
    var e, creds := s.phase.entry, s.phase.creds;
    if durable && !disk.Synced? {
      OneStep(w, durable, s, Persist(disk), Written(s, disk));
      assert StoreEvents(durable, |creds|, disk) == [Persist(disk)];
    } else {
      var file := if durable then WriteTo(s.file, WalRecord(e, creds), disk) else s.file;
      var s1 := s.(phase := Durable(e, creds), file := file);
      OneStep(w, durable, s, Persist(disk), s1);
      OneStep(w, durable, s1, CommitEntry, Committed(s1));
      RunConcat(w, durable, s, [Persist(disk)], s1, [CommitEntry] + Finish(|creds|));
      RunConcat(w, durable, s1, [CommitEntry], Committed(s1), Finish(|creds|));
      FinishRuns(w, durable, Committed(s1));
    }
  }

  /** Past the outer checks and, if Enter is ready, holding the lock with the sealed entry. */
  ghost function Entering(s: Node, req: Request, r: Entered): Node {
    var s1 := s.(admitted := s.admitted + {req});
    if r.Ready? then Holding(s1, r.entry, r.creds) else s1
  }

  /** The first two steps: past the outer checks, then into the lock. */
  lemma EntryRuns(w: World, durable: bool, s: Node, req: Request, time: int, signing: Option<nat>)
    returns (evs: seq<Event>)
    requires s.phase.Idle? && Admissible(w, req)
    ensures NoRestart(evs)
    ensures Run(w, durable, s, evs) == Some(Entering(s, req, Enter(w, s.cfg, s.entries, s.records, req, time, signing)))
  {
    var s1, r := s.(admitted := s.admitted + {req}), Enter(w, s.cfg, s.entries, s.records, req, time, signing);
    OneStep(w, durable, s, Submit(req), s1);
    OneStep(w, durable, s1, EnterLock(req, time, signing), Entering(s, req, r));
    RunConcat(w, durable, s, [Submit(req)], s1, [EnterLock(req, time, signing)]);
    evs := [Submit(req)] + [EnterLock(req, time, signing)];
  }

  /** The node stands beside the object after a call that came to this result. */
  ghost predicate Follows(s: Node, t: Node, r: HandleResult, q: State) {
    && Mirrors(t, q) && t.cfg == s.cfg
    && t.returned == if r.Decided? then s.returned + [r.entry] else s.returned
  }

  /** What storing leaves is what Handled says. */
  lemma StoredIsHandled(
      w: World, durable: bool, s: Node, p: State, req: Request, time: int, signing: Option<nat>, disk: Disk)
    requires Mirrors(s, p) && req.chain != [] && Enter(w, s.cfg, s.entries, s.records, req, time, signing).Ready?
    ensures var r := Enter(w, s.cfg, s.entries, s.records, req, time, signing);
            var (out, q) := Handled(w, s.cfg, durable, p, req, time, signing, disk);
            CommitAccepts(s.entries, r.entry) && Follows(s, Stored(durable, Holding(s, r.entry, r.creds), disk), out, q)
  {
  }

  lemma RefusedIsHandled(
      w: World, durable: bool, s: Node, p: State, req: Request, time: int, signing: Option<nat>, disk: Disk)
    requires Mirrors(s, p) && req.chain != [] && !Enter(w, s.cfg, s.entries, s.records, req, time, signing).Ready?
    ensures var (out, q) := Handled(w, s.cfg, durable, p, req, time, signing, disk); Follows(s, s, out, q)
  {
  }

  /**
   What a call does to the object is what its steps do to the node beside it, and a decision it hands
   back is the last one the node has returned. A request refused outside the lock moves neither.
   */
  lemma CallIsRun(
      w: World, durable: bool, s: Node, p: State, req: Request, time: int, signing: Option<nat>, disk: Disk)
    returns (evs: seq<Event>, t: Node)
    requires Mirrors(s, p) && Admissible(w, req)
    ensures Run(w, durable, s, evs) == Some(t) && NoRestart(evs)
    ensures var (r, q) := Handled(w, s.cfg, durable, p, req, time, signing, disk); Follows(s, t, r, q)
  {
    var r := Enter(w, s.cfg, s.entries, s.records, req, time, signing);
    var s1 := s.(admitted := s.admitted + {req});
    evs := EntryRuns(w, durable, s, req, time, signing);
    t := Entering(s, req, r);
    if r.Ready? {
      StoredIsHandled(w, durable, s1, p, req, time, signing, disk);
      evs, t := ReadyRuns(w, durable, s, evs, t, disk);
    } else {
      RefusedIsHandled(w, durable, s1, p, req, time, signing, disk);
    }
  }

  lemma ReadyRuns(w: World, durable: bool, s: Node, first: seq<Event>, held: Node, disk: Disk)
    returns (evs: seq<Event>, t: Node)
    requires Run(w, durable, s, first) == Some(held) && NoRestart(first)
    requires held.phase.Sealed? && CommitAccepts(held.entries, held.phase.entry)
    ensures t == Stored(durable, held, disk) && Run(w, durable, s, evs) == Some(t) && NoRestart(evs)
  {
    var more := StoreEvents(durable, |held.phase.creds|, disk);
    StoreRuns(w, durable, held, disk);
    RunConcat(w, durable, s, first, held, more);
    evs, t := first + more, Stored(durable, held, disk);
  }

  datatype Call = Call(req: Request, time: int, signing: Option<nat>, disk: Disk)

  /** The state one call leaves, and the entry of the decision it hands back, if it does. */
  ghost function Serve(w: World, cfg: Config, durable: bool, p: State, c: Call): (State, seq<Entry>) {
    if !Admissible(w, c.req) then (p, [])
    else
      var (r, q) := Handled(w, cfg, durable, p, c.req, c.time, c.signing, c.disk);
      (q, if r.Decided? then [r.entry] else [])
  }

  lemma ServeIsRun(w: World, durable: bool, s: Node, p: State, c: Call) returns (evs: seq<Event>, t: Node)
    requires Mirrors(s, p)
    ensures Run(w, durable, s, evs) == Some(t) && t.cfg == s.cfg && NoRestart(evs)
    ensures var (q, out) := Serve(w, s.cfg, durable, p, c); Mirrors(t, q) && t.returned == s.returned + out
  {
    evs, t := [], s;
    if Admissible(w, c.req) {
      evs, t := CallIsRun(w, durable, s, p, c.req, c.time, c.signing, c.disk);
    }
  }

  /** The state after a sequence of calls, and the entries of the decisions they handed back. */
  ghost function Served(w: World, cfg: Config, durable: bool, p: State, calls: seq<Call>): (State, seq<Entry>) {
    if calls == [] then (p, [])
    else
      var (before, out) := Served(w, cfg, durable, p, calls[..|calls| - 1]);
      var (after, more) := Serve(w, cfg, durable, before, calls[|calls| - 1]);
      (after, out + more)
  }

  /** Every sequence of calls is a run, so every guarantee about runs is one about calls. */
  lemma {:induction false} CallsAreRuns(w: World, durable: bool, s: Node, p: State, calls: seq<Call>)
    returns (evs: seq<Event>, t: Node)
    requires Mirrors(s, p)
    ensures Run(w, durable, s, evs) == Some(t) && t.cfg == s.cfg && NoRestart(evs)
    ensures var (q, out) := Served(w, s.cfg, durable, p, calls); Mirrors(t, q) && t.returned == s.returned + out
  {
    evs, t := [], s;
    if calls != [] {
      var first, m := CallsAreRuns(w, durable, s, p, calls[..|calls| - 1]);
      var before := Served(w, s.cfg, durable, p, calls[..|calls| - 1]).0;
      var rest, end := ServeIsRun(w, durable, m, before, calls[|calls| - 1]);
      RunConcat(w, durable, s, first, m, rest);
      evs, t := first + rest, end;
    }
  }

  /**
   Completeness for the object: the export taken after any sequence of calls on a fresh enforcement
   point passes the independent verifier exactly when each allow names a policy and its approval is absent or valid.
   */
  lemma ExportAfterCalls(w: World, cfg: Config, durable: bool, calls: seq<Call>, exp: Export)
    requires w.dids(cfg.signer.did) == Some(cfg.signer.key)
    requires var q := Served(w, cfg, durable, State([], map[], []), calls).0;
             Exported(cfg.signer, q.entries, q.records, CarriedPolicy(cfg.evaluator), exp)
    ensures Passes(w, exp) <==> AllPresentable(w, exp.entries)
  {
    var evs, t := CallsAreRuns(w, durable, Init(cfg), State([], map[], []), calls);
    CompletenessIff(w, durable, cfg, evs, t, exp);
  }
}
