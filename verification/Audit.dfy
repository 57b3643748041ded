/** The hash-chained, signed, append-only log. */
module Audit {
  import opened Util
  import opened Artifacts

  /** The position the next entry takes: its sequence number and the hash it links to. */
  function TipOf(entries: seq<Entry>): (nat, Digest) {
    (|entries|, LogTip(entries))
  }

  function LogTip(entries: seq<Entry>): Digest {
    if entries == [] then Genesis else entries[|entries| - 1].entryHash
  }

  /** In sequence, linked to its predecessor, correctly hashed, and signed. */
  predicate Intact(entries: seq<Entry>, i: nat, key: Key)
    requires i < |entries|
  {
    var e := entries[i];
    && e.body.seqNo == i
    && e.body.prevHash == (if i == 0 then Genesis else entries[i - 1].entryHash)
    && e.entryHash == EntryDigest(e.body)
    && Verifies(key, EntryMessage(e.entryHash), e.signature)
  }

  predicate Chained(entries: seq<Entry>, key: Key) {
    forall i :: 0 <= i < |entries| ==> Intact(entries, i, key)
  }

  /** The least index that is not intact, or -1. */
  ghost predicate IsFirstBreak(entries: seq<Entry>, key: Key, f: int) {
    if f == -1 then Chained(entries, key)
    else 0 <= f < |entries| && !Intact(entries, f, key) && forall j :: 0 <= j < f ==> Intact(entries, j, key)
  }

  lemma FirstBreakUnique(entries: seq<Entry>, key: Key, f: int, g: int)
    requires IsFirstBreak(entries, key, f) && IsFirstBreak(entries, key, g)
    ensures f == g
  {
  }

  lemma {:induction false} FirstBreakExists(entries: seq<Entry>, key: Key, i: nat) returns (f: int)
    requires i <= |entries| && forall j :: 0 <= j < i ==> Intact(entries, j, key)
    ensures IsFirstBreak(entries, key, f)
    decreases |entries| - i
  {
    if i == |entries| {
      f := -1;
    } else if !Intact(entries, i, key) {
      f := i;
    } else {
      f := FirstBreakExists(entries, key, i + 1);
    }
  }

  /** VerifyEntries: walks the log carrying the previous hash and returns the first failing index, or -1. */
  method VerifyEntries(entries: seq<Entry>, key: Key) returns (failIndex: int)
    ensures IsFirstBreak(entries, key, failIndex)
    ensures failIndex == -1 <==> Chained(entries, key)
  {
    var prev := Genesis;
    for i := 0 to |entries|
      invariant prev == if i == 0 then Genesis else entries[i - 1].entryHash
      invariant forall j :: 0 <= j < i ==> Intact(entries, j, key)
    {
      var e := entries[i];
      if e.body.seqNo != i {
        return i;
      }
      if e.body.prevHash != prev {
        return i;
      }
      if EntryDigest(e.body) != e.entryHash {
        return i;
      }
      if !Verifies(key, EntryMessage(e.entryHash), e.signature) {
        return i;
      }
      prev := e.entryHash;
    }
    return -1;
  }

  /** The entry Seal makes of a draft at the current tip. */
  function SealAt(entries: seq<Entry>, s: Signer, d: Draft, variant: nat): (e: Entry)
    ensures Chained(entries, s.key) ==> Chained(entries + [e], s.key)
  {
    var body := Body(|entries|, LogTip(entries), d);
    var e := Entry(body, EntryDigest(body), Sign(s, EntryMessage(EntryDigest(body)), variant));
    assert Chained(entries, s.key) ==>
             forall i :: 0 <= i < |entries| ==> Intact(entries, i, s.key) && Intact(entries + [e], i, s.key);
    e
  }

  /** The tip an entry was sealed against. */
  function SlotOf(e: Entry): (nat, Digest) {
    (e.body.seqNo, e.body.prevHash)
  }

  predicate CommitAccepts(entries: seq<Entry>, e: Entry) {
    SlotOf(e) == TipOf(entries)
  }

  class Log {
    const signer: Signer
    var entries: seq<Entry>

    constructor (s: Signer)
      ensures signer == s && entries == []
    {
      signer, entries := s, [];
    }

    constructor FromVerified(s: Signer, es: seq<Entry>)
      ensures signer == s && entries == es
    {
      signer, entries := s, es;
    }

    /** LoadLog: resumes a log only if the whole chain verifies under the signer's own key. */
    static method LoadLog(s: Signer, es: seq<Entry>) returns (log: Log?)
      ensures log != null <==> Chained(es, s.key)
      ensures log != null ==> fresh(log) && log.signer == s && log.entries == es
    {
      var f := VerifyEntries(es, s.key);
      if f != -1 {
        return null;
      }
      log := new Log.FromVerified(s, es);
    }

    method Tip() returns (seqNo: nat, prevHash: Digest)
      ensures (seqNo, prevHash) == TipOf(entries)
    {
      if |entries| > 0 {
        return |entries|, entries[|entries| - 1].entryHash;
      }
      return 0, Genesis;
    }

    /** Seal: fixes the position, hashes and signs, and appends nothing. */
    method Seal(d: Draft, signing: Option<nat>) returns (e: Option<Entry>)
      ensures e == if signing.None? then None else Some(SealAt(entries, signer, d, signing.value))
    {
      var seqNo, prev := Tip();
      var body := Body(seqNo, prev, d);
      var hash := EntryDigest(body);
      if signing.None? {
        return None;
      }
      return Some(Entry(body, hash, Sign(signer, EntryMessage(hash), signing.value)));
    }

    /** Commit: appends only at the slot the entry was sealed for. */
    method Commit(e: Entry) returns (ok: bool)
      modifies this
      ensures ok == CommitAccepts(old(entries), e)
      ensures entries == if ok then old(entries) + [e] else old(entries)
    {
      var seqNo, prev := Tip();
      if e.body.seqNo != seqNo || e.body.prevHash != prev {
        return false;
      }
      entries := entries + [e];
      return true;
    }

    /** Append: exactly Seal followed by Commit, and it fails only when signing does. */
    method Append(d: Draft, signing: Option<nat>) returns (e: Option<Entry>)
      modifies this
      ensures e.Some? <==> signing.Some?
      ensures e.Some? ==>
                e.value == SealAt(old(entries), signer, d, signing.value) && entries == old(entries) + [e.value]
      ensures e.None? ==> entries == old(entries)
    {
      e := Seal(d, signing);
      if e.Some? {
        var ok := Commit(e.value);
        if !ok {
          return None;
        }
      }
    }
  }

  // ---- any interleaving of seals and commits ------------------------------

  datatype LogOp = SealOp(draft: Draft, variant: nat) | CommitOp(entry: Entry)

  /** The log and every entry sealed on it so far. */
  datatype LogState = LogState(entries: seq<Entry>, sealed: set<Entry>)

  /** A commit is offered only entries that were sealed on this log; a refused one changes nothing. */
  ghost function LogStep(s: Signer, st: LogState, op: LogOp): LogState {
    match op
    case SealOp(d, v) => st.(sealed := st.sealed + {SealAt(st.entries, s, d, v)})
    case CommitOp(e) =>
      if e in st.sealed && CommitAccepts(st.entries, e) then st.(entries := st.entries + [e]) else st
  }

  ghost function LogRun(s: Signer, st: LogState, ops: seq<LogOp>): LogState
    decreases |ops|
  {
    if ops == [] then st else LogRun(s, LogStep(s, st, ops[0]), ops[1..])
  }

  /** What Seal produces is intact wherever Commit will take it. */
  ghost predicate WellSealed(s: Signer, e: Entry) {
    e.entryHash == EntryDigest(e.body) && Verifies(s.key, EntryMessage(e.entryHash), e.signature)
  }

  ghost predicate LogInv(s: Signer, st: LogState) {
    Chained(st.entries, s.key) && forall e :: e in st.sealed ==> WellSealed(s, e)
  }

  lemma {:induction false} LogRunKeeps(s: Signer, st: LogState, ops: seq<LogOp>)
    requires LogInv(s, st)
    ensures LogInv(s, LogRun(s, st, ops))
    ensures st.entries <= LogRun(s, st, ops).entries
    decreases |ops|
  {
    if ops != [] {
      var next := LogStep(s, st, ops[0]);
      if ops[0].CommitOp? && next != st {
        var e := ops[0].entry;
        forall i | 0 <= i < |next.entries| ensures Intact(next.entries, i, s.key) {
          if i < |st.entries| {
            assert Intact(st.entries, i, s.key);
          }
        }
      }
      LogRunKeeps(s, next, ops[1..]);
    }
  }

  /** However seals and commits interleave, the log verifies, so LoadLog accepts it with the same tip. */
  lemma SealCommitProtocol(s: Signer, ops: seq<LogOp>)
    ensures var st := LogRun(s, LogState([], {}), ops);
            && IsFirstBreak(st.entries, s.key, -1)
            && forall i, j :: 0 <= i < j < |st.entries| ==> SlotOf(st.entries[i]) != SlotOf(st.entries[j])
  {
    LogRunKeeps(s, LogState([], {}), ops);
    var es := LogRun(s, LogState([], {}), ops).entries;
    forall i, j | 0 <= i < j < |es| ensures SlotOf(es[i]) != SlotOf(es[j]) {
      assert Intact(es, i, s.key) && Intact(es, j, s.key);
    }
  }

  /** Of the entries sealed against one tip, once one is committed no later state accepts another. */
  lemma OneCommitPerTip(s: Signer, st: LogState, e: Entry, ops: seq<LogOp>, rival: Entry)
    requires LogInv(s, st) && e in st.sealed && CommitAccepts(st.entries, e)
    requires SlotOf(rival) == SlotOf(e)
    ensures !CommitAccepts(LogRun(s, LogStep(s, st, CommitOp(e)), ops).entries, rival)
  {
    LogRunKeeps(s, st, [CommitOp(e)]);
    var next := LogStep(s, st, CommitOp(e));
    assert LogRun(s, st, [CommitOp(e)]) == LogRun(s, next, []) == next;
    LogRunKeeps(s, next, ops);
  }

  // ---- the tip pins the log -----------------------------------------------

  /**
   Two verifying logs of one length that end in the same hash agree on everything a hash covers, whoever
   signed them.
   */
  lemma {:induction false} TipPinsLog(a: seq<Entry>, aKey: Key, b: seq<Entry>, bKey: Key)
    requires Chained(a, aKey) && Chained(b, bKey)
    requires |a| == |b| && LogTip(a) == LogTip(b)
    ensures forall i :: 0 <= i < |a| ==> a[i].body == b[i].body && a[i].entryHash == b[i].entryHash
    decreases |a|
  {
    if a != [] {
      var n := |a| - 1;
      assert Intact(a, n, aKey) && Intact(b, n, bKey);
      var c, d := a[..n], b[..n];
      forall i | 0 <= i < n ensures Intact(c, i, aKey) && Intact(d, i, bKey) {
        assert Intact(a, i, aKey) && Intact(b, i, bKey);
      }
      TipPinsLog(c, aKey, d, bKey);
      forall i | 0 <= i < |a| ensures a[i].body == b[i].body && a[i].entryHash == b[i].entryHash {
        if i < n {
          assert a[i] == c[i] && b[i] == d[i];
        }
      }
    }
  }
}
