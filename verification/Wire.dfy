/** The byte layouts under every signature: no two different messages share their bytes. */
module Wire {
  import opened Util
  import opened Types
  import opened Artifacts

  type Bytes = seq<uint8>

  const HASH_LENGTH := 32
  const POP_DOMAIN := "kessa/pop/v2"
  const APPROVAL_DOMAIN := "kessa/action-approval/v2"
  const ENVELOPE_DOMAIN := "kessa/audit-export-envelope/v2"
  const STATUS_DOMAIN := "kessa/status-list/v1"
  const ISSUANCE_DOMAIN := "kessa/issuance/v2"
  const ENTRY_DOMAIN := "kessa/audit-sig/v1"

  /** The fields of each signed message, already in bytes. */
  datatype Layout =
    | Pop(subject: Bytes, macaroonID: Bytes, nonce: Bytes, action: Bytes, seqNo: nat, prevHash: Bytes)
    | Approval(actor: Bytes, action: Bytes, seqNo: nat, prevHash: Bytes)
    | Envelope(version: Bytes, signer: Bytes, policyID: Bytes, count: nat, tip: Bytes)
    | Status(issuer: Bytes, purpose: Bytes, bits: Bytes)
    | Issuance(credential: Bytes)
    | EntrySig(hash: Bytes)

  function Ascii(s: string): (b: Bytes)
    requires forall i :: 0 <= i < |s| ==> 0 as char < s[i] < 128 as char
    ensures |b| == |s| && 0 !in b
  {
    seq(|s|, i requires 0 <= i < |s| => s[i] as int as uint8)
  }

  function Domain(m: Layout): (b: Bytes)
    ensures 0 !in b
  {
    match m
    case Pop(_, _, _, _, _, _) => Ascii(POP_DOMAIN)
    case Approval(_, _, _, _) => Ascii(APPROVAL_DOMAIN)
    case Envelope(_, _, _, _, _) => Ascii(ENVELOPE_DOMAIN)
    case Status(_, _, _) => Ascii(STATUS_DOMAIN)
    case Issuance(_) => Ascii(ISSUANCE_DOMAIN)
    case EntrySig(_) => Ascii(ENTRY_DOMAIN)
  }

  // ---- fixed-width numbers ------------------------------------------------

  function Power(k: nat): (p: nat)
    ensures p >= 1
  {
    if k == 0 then 1 else 256 * Power(k - 1)
  }

  /** The k low-order bytes of n, most significant first. */
  function BigEndian(n: nat, k: nat): (b: Bytes)
    ensures |b| == k
  {
    if k == 0 then [] else BigEndian(n / 256, k - 1) + [(n % 256) as uint8]
  }

  function Value(b: Bytes): nat {
    if b == [] then 0 else 256 * Value(b[..|b| - 1]) + b[|b| - 1] as int
  }

  /** A number below 256 to the k survives k bytes. */
  lemma {:induction false} BigEndianValue(n: nat, k: nat)
    requires n < Power(k)
    ensures Value(BigEndian(n, k)) == n
  {
    if k > 0 {
      BigEndianValue(n / 256, k - 1);
      assert BigEndian(n, k)[..k - 1] == BigEndian(n / 256, k - 1);
    }
  }

  function U64(n: nat): (b: Bytes)
    ensures |b| == 8
  {
    BigEndian(n, 8)
  }

  lemma U64Injective(a: nat, b: nat)
    requires a < Power(8) && b < Power(8) && U64(a) == U64(b)
    ensures a == b
  {
    BigEndianValue(a, 8);
    BigEndianValue(b, 8);
  }

  // ---- layouts ------------------------------------------------------------

  /** A field, its terminating NUL, and what follows. */
  function Field(a: Bytes, rest: Bytes): Bytes {
    a + [0] + rest
  }

  function Payload(m: Layout): Bytes {
    match m
    case Pop(subject, macaroonID, nonce, action, seqNo, prevHash) =>
      Field(subject, Field(macaroonID, Field(nonce, Field(action, Field(U64(seqNo), prevHash)))))
    case Approval(actor, action, seqNo, prevHash) =>
      Field(actor, Field(action, Field(U64(seqNo), prevHash)))
    case Envelope(version, signer, policyID, count, tip) =>
      Field(version, Field(signer, Field(policyID, Field(U64(count), tip))))
    case Status(issuer, purpose, bits) => Field(issuer, Field(purpose, bits))
    case Issuance(credential) => credential
    case EntrySig(hash) => hash
  }

  function Encode(m: Layout): Bytes {
    Field(Domain(m), Payload(m))
  }

  /**
   Identifiers and canonical bodies hold no NUL and numbers fit; only a proof of possession needs a hash
   of fixed length.
   */
  predicate WellFormed(m: Layout) {
    match m
    case Pop(subject, macaroonID, nonce, action, seqNo, prevHash) =>
      0 !in subject && 0 !in macaroonID && 0 !in action && seqNo < Power(8) && |prevHash| == HASH_LENGTH
    case Approval(actor, action, seqNo, prevHash) => 0 !in actor && 0 !in action && seqNo < Power(8)
    case Envelope(version, signer, policyID, count, tip) =>
      0 !in version && 0 !in signer && 0 !in policyID && count < Power(8)
    case Status(issuer, purpose, bits) => 0 !in issuer && 0 !in purpose
    case Issuance(_) => true
    case EntrySig(_) => true
  }

  /** A separator that occurs in neither tail splits a sequence in only one way. */
  lemma LastSeparator(a: Bytes, b: Bytes, c: Bytes, d: Bytes)
    requires 0 !in b && 0 !in d && Field(a, b) == Field(c, d)
    ensures a == c && b == d
  {
    var s, t := Field(a, b), Field(c, d);
    assert s[|a|] == 0 && forall i :: |a| < i < |s| ==> s[i] == b[i - |a| - 1] != 0;
    assert t[|c|] == 0 && forall i :: |c| < i < |t| ==> t[i] == d[i - |c| - 1] != 0;
    assert a == s[..|a|] && c == t[..|c|];
    assert b == s[|a| + 1..] && d == t[|c| + 1..];
  }

  lemma SplitAtLength(a: Bytes, b: Bytes, c: Bytes, d: Bytes)
    requires a + b == c + d && (|a| == |c| || |b| == |d|)
    ensures a == c && b == d
  {
    assert a == (a + b)[..|a|] && c == (c + d)[..|c|];
    assert b == (a + b)[|a|..] && d == (c + d)[|c|..];
  }

  lemma SlotUnique(m: nat, g: Bytes, n: nat, h: Bytes)
    requires m < Power(8) && n < Power(8) && Field(U64(m), g) == Field(U64(n), h)
    ensures m == n && g == h
  {
    assert Field(U64(m), g) == U64(m) + ([0] + g) && Field(U64(n), h) == U64(n) + ([0] + h);
    SplitAtLength(U64(m), [0] + g, U64(n), [0] + h);
    assert g == ([0] + g)[1..] && h == ([0] + h)[1..];
    U64Injective(m, n);
  }

  /**
   The nonce may hold any bytes: it is what is left when the fixed tail and the NUL-free body are taken
   from the right.
   */
  lemma PopTailUnique(
      nonce1: Bytes, action1: Bytes, seq1: nat, hash1: Bytes, nonce2: Bytes, action2: Bytes, seq2: nat, hash2: Bytes)
    requires 0 !in action1 && 0 !in action2 && |hash1| == |hash2| && seq1 < Power(8) && seq2 < Power(8)
    requires Field(nonce1, Field(action1, Field(U64(seq1), hash1))) ==
             Field(nonce2, Field(action2, Field(U64(seq2), hash2)))
    ensures nonce1 == nonce2 && action1 == action2 && seq1 == seq2 && hash1 == hash2
  {
    var tail1, tail2 := Field(U64(seq1), hash1), Field(U64(seq2), hash2);
    assert Field(nonce1, Field(action1, tail1)) == Field(nonce1, action1) + ([0] + tail1);
    assert Field(nonce2, Field(action2, tail2)) == Field(nonce2, action2) + ([0] + tail2);
    SplitAtLength(Field(nonce1, action1), [0] + tail1, Field(nonce2, action2), [0] + tail2);
    assert tail1 == ([0] + tail1)[1..] && tail2 == ([0] + tail2)[1..];
    LastSeparator(nonce1, action1, nonce2, action2);
    SlotUnique(seq1, hash1, seq2, hash2);
  }

  lemma PayloadInjective(a: Layout, b: Layout)
    requires WellFormed(a) && WellFormed(b) && Domain(a) == Domain(b) && Payload(a) == Payload(b)
    ensures a == b
  {
    match a {
      case Pop(s, id, nonce, action, q, h) =>
        var s2, id2, tail2 := b.subject, b.macaroonID, Field(b.nonce, Field(b.action, Field(U64(b.seqNo), b.prevHash)));
        FirstSeparator(s, 0, Field(id, Field(nonce, Field(action, Field(U64(q), h)))), s2, Field(id2, tail2));
        FirstSeparator(id, 0, Field(nonce, Field(action, Field(U64(q), h))), id2, tail2);
        PopTailUnique(nonce, action, q, h, b.nonce, b.action, b.seqNo, b.prevHash);
      case Approval(actor, action, q, h) =>
        FirstSeparator(actor, 0, Field(action, Field(U64(q), h)), b.actor,
          Field(b.action, Field(U64(b.seqNo), b.prevHash)));
        FirstSeparator(action, 0, Field(U64(q), h), b.action, Field(U64(b.seqNo), b.prevHash));
        SlotUnique(q, h, b.seqNo, b.prevHash);
      case Envelope(v, s, p, n, t) =>
        var tail, tail2 := Field(U64(n), t), Field(U64(b.count), b.tip);
        FirstSeparator(v, 0, Field(s, Field(p, tail)), b.version, Field(b.signer, Field(b.policyID, tail2)));
        FirstSeparator(s, 0, Field(p, tail), b.signer, Field(b.policyID, tail2));
        FirstSeparator(p, 0, tail, b.policyID, tail2);
        SlotUnique(n, t, b.count, b.tip);
      case Status(i, p, bits) =>
        FirstSeparator(i, 0, Field(p, bits), b.issuer, Field(b.purpose, b.bits));
        FirstSeparator(p, 0, bits, b.purpose, b.bits);
      case Issuance(_) =>
      case EntrySig(_) =>
    }
  }

  /** Messages under different domain tags never coincide, and under one tag only equal messages do. */
  lemma EncodeInjective(a: Layout, b: Layout)
    requires WellFormed(a) && WellFormed(b)
    ensures Encode(a) == Encode(b) <==> a == b
  {
    if Encode(a) == Encode(b) {
      FirstSeparator(Domain(a), 0, Payload(a), Domain(b), Payload(b));
      PayloadInjective(a, b);
    }
  }

  /** Messages of different kinds never share their bytes, whatever their fields hold. */
  lemma DomainsSeparate(a: Layout, b: Layout)
    requires Encode(a) == Encode(b)
    ensures a.Pop? == b.Pop? && a.Approval? == b.Approval? && a.Envelope? == b.Envelope?
    ensures a.Status? == b.Status? && a.Issuance? == b.Issuance? && a.EntrySig? == b.EntrySig?
  {
    FirstSeparator(Domain(a), 0, Payload(a), Domain(b), Payload(b));
  }

  /**
   Exactly when two proofs of possession share their bytes, whatever subject and identifier hold: the action and
   the slot are the same, and subject, identifier and nonce, run together with their NULs, are the same.
   */
  lemma PopEncodesIff(a: Layout, b: Layout)
    requires a.Pop? && b.Pop? && 0 !in a.action && 0 !in b.action && |a.prevHash| == |b.prevHash|
    requires a.seqNo < Power(8) && b.seqNo < Power(8)
    ensures Encode(a) == Encode(b) <==>
            && a.action == b.action && a.seqNo == b.seqNo && a.prevHash == b.prevHash
            && Field(a.subject, Field(a.macaroonID, a.nonce)) == Field(b.subject, Field(b.macaroonID, b.nonce))
  {
    PopHead(a);
    PopHead(b);
    if Encode(a) == Encode(b) {
      FirstSeparator(Domain(a), 0, Payload(a), Domain(b), Payload(b));
      PopTailUnique(Field(a.subject, Field(a.macaroonID, a.nonce)), a.action, a.seqNo, a.prevHash,
                    Field(b.subject, Field(b.macaroonID, b.nonce)), b.action, b.seqNo, b.prevHash);
    }
  }

  lemma PopHead(m: Layout)
    requires m.Pop?
    ensures Payload(m) ==
            Field(Field(m.subject, Field(m.macaroonID, m.nonce)), Field(m.action, Field(U64(m.seqNo), m.prevHash)))
  {
    var tail := Field(m.action, Field(U64(m.seqNo), m.prevHash));
    assert Field(m.macaroonID, Field(m.nonce, tail)) == Field(Field(m.macaroonID, m.nonce), tail);
    assert Field(m.subject, Field(Field(m.macaroonID, m.nonce), tail)) ==
           Field(Field(m.subject, Field(m.macaroonID, m.nonce)), tail);
  }

  /** A NUL inside an identifier does it: what follows the NUL reads as the start of the nonce. */
  lemma NulInIdentifierCollides(subject: Bytes, nonce: Bytes, action: Bytes, q: nat, h: Bytes)
    ensures Encode(Pop(subject, [97, 0, 98], nonce, action, q, h)) ==
            Encode(Pop(subject, [97], Field([98], nonce), action, q, h))
  {
    var rest := Field(action, Field(U64(q), h));
    assert Field([97, 0, 98], Field(nonce, rest)) == Field([97], Field(Field([98], nonce), rest));
  }

  /** A NUL inside a subject moves bytes between fields: two different proofs of possession then share their bytes. */
  lemma NulInSubjectCollides(id: Bytes, nonce: Bytes, action: Bytes, q: nat, h: Bytes)
    ensures Encode(Pop([97, 0, 98], id, nonce, action, q, h)) == Encode(Pop([97], [98], Field(id, nonce), action, q, h))
  {
    var rest := Field(nonce, Field(action, Field(U64(q), h)));
    assert Field([97, 0, 98], Field(id, rest)) == Field([97], Field([98], Field(id, rest)));
    assert Field(id, rest) == Field(Field(id, nonce), Field(action, Field(U64(q), h)));
  }

  /** Were the previous hash allowed any length, a nonce could absorb what another message has as body and slot. */
  lemma UnfixedHashCollides(
      subject: Bytes, id: Bytes, nonce: Bytes, action: Bytes, q: nat, action2: Bytes, q2: nat, h2: Bytes)
    ensures Encode(Pop(subject, id, nonce, action, q, Field(action2, Field(U64(q2), h2)))) ==
            Encode(Pop(subject, id, Field(nonce, Field(action, U64(q))), action2, q2, h2))
  {
    var tail := Field(action2, Field(U64(q2), h2));
    assert Field(nonce, Field(action, Field(U64(q), tail))) == Field(Field(nonce, Field(action, U64(q))), tail);
  }

  // ---- the symbolic messages ----------------------------------------------

  /** How the parts of a message become bytes. */
  datatype Encoders = Encoders(
    text: string -> Bytes, action: Action -> Bytes, credential: Credential -> Bytes,
    digest: Digest -> Bytes, policyID: PolicyID -> Bytes)

  function ListBytes(bits: seq<bv8>): (b: Bytes)
    ensures |b| == |bits|
  {
    seq(|bits|, i requires 0 <= i < |bits| => bits[i] as int as uint8)
  }

  function LayoutOf(e: Encoders, m: Message): Layout {
    match m
    case EntryMessage(hash) => EntrySig(e.digest(hash))
    case EnvelopeMessage(version, signer, policyID, count, tip) =>
      Envelope(e.text(version), e.text(signer), e.policyID(policyID), count, e.digest(tip))
    case IssuanceMessage(c) => Issuance(e.credential(c))
    case PossessionMessage(subject, id, nonce, action, seqNo, prevHash) =>
      Pop(e.text(subject), e.text(id), nonce, e.action(action), seqNo, e.digest(prevHash))
    case ApprovalMessage(actor, action, seqNo, prevHash) =>
      Approval(e.text(actor), e.action(action), seqNo, e.digest(prevHash))
    case StatusMessage(issuer, purpose, bits) => Status(e.text(issuer), e.text(purpose), ListBytes(bits))
  }

  /** Text and canonical bodies are written one-to-one. */
  ghost predicate OneToOne(e: Encoders) {
    && (forall a, b :: e.text(a) == e.text(b) ==> a == b)
    && (forall a, b :: e.action(a) == e.action(b) ==> a == b)
    && (forall a, b :: e.credential(a) == e.credential(b) ==> a == b)
  }

  function HashIn(m: Message): Digest {
    match m
    case EntryMessage(hash) => hash
    case EnvelopeMessage(_, _, _, _, tip) => tip
    case PossessionMessage(_, _, _, _, _, prevHash) => prevHash
    case ApprovalMessage(_, _, _, prevHash) => prevHash
    case _ => Genesis
  }

  /** Neither the hashes nor the policy addresses these two messages carry collide. */
  ghost predicate NoCollision(e: Encoders, a: Message, b: Message) {
    && (e.digest(HashIn(a)) == e.digest(HashIn(b)) ==> HashIn(a) == HashIn(b))
    && (a.EnvelopeMessage? && b.EnvelopeMessage? && e.policyID(a.policyID) == e.policyID(b.policyID) ==>
       a.policyID == b.policyID)
  }

  lemma ListBytesInjective(a: seq<bv8>, b: seq<bv8>)
    requires ListBytes(a) == ListBytes(b)
    ensures a == b
  {
    forall i | 0 <= i < |a| ensures a[i] == b[i] {
      assert ListBytes(a)[i] == ListBytes(b)[i];
      assert a[i] as int == b[i] as int;
    }
  }

  /** A signature over bytes is a signature over the one symbolic message that has those bytes. */
  lemma SymbolicMessagesExact(e: Encoders, a: Message, b: Message)
    requires OneToOne(e) && NoCollision(e, a, b)
    requires WellFormed(LayoutOf(e, a)) && WellFormed(LayoutOf(e, b))
    ensures Encode(LayoutOf(e, a)) == Encode(LayoutOf(e, b)) <==> a == b
  {
    EncodeInjective(LayoutOf(e, a), LayoutOf(e, b));
    if a.StatusMessage? && b.StatusMessage? && ListBytes(a.bits) == ListBytes(b.bits) {
      ListBytesInjective(a.bits, b.bits);
    }
  }
}
