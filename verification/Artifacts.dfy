/**
 The signed and content-addressed artifacts. Cryptography is symbolic: a hash or
 content address is the value it was taken of, and a signature names its key and
 its message, so it verifies under that key and that message only.
 */
module Artifacts {
  import opened Util
  import opened Scalar
  import opened Types
  import Macaroons
  import Policies

  datatype Key = Key(encoding: string)

  /** A stored holder key: its caveat encoding, and the key it parses to, if it parses. */
  datatype Jwk = Jwk(value: string, key: Option<Key>)

  function JwkOf(k: Key): Jwk {
    Jwk(k.encoding, Some(k))
  }

  /** A credential's position in a published status list; an empty issuer means the credential's own. */
  datatype StatusRef = StatusRef(listURL: string, index: int, issuer: DID)

  datatype Credential = Credential(
    subject: DID, issuer: DID, macaroon: Macaroons.Macaroon, statusRef: StatusRef, holderKey: Option<Jwk>,
    vcWrapper: string)

  datatype Link = Link(credential: Credential, issuerProof: Signature)

  /** One message per signing domain. */
  datatype Message =
    | EntryMessage(hash: Digest)
    | EnvelopeMessage(version: string, signer: DID, policyID: PolicyID, count: nat, tip: Digest)
    | IssuanceMessage(credential: Credential)
    | PossessionMessage(
        subject: DID, macaroonID: string, nonce: seq<uint8>, action: Action, seqNo: nat, prevHash: Digest)
    | ApprovalMessage(actor: DID, action: Action, seqNo: nat, prevHash: Digest)
    | StatusMessage(issuer: DID, purpose: string, bits: seq<bv8>)

  /** A P-256 key signs one message in many ways; variant tells them apart. Junk is any other bytes. */
  datatype Signature = Signed(key: Key, message: Message, variant: nat) | Junk(raw: seq<uint8>)

  const NO_SIGNATURE: Signature := Junk([])

  predicate Verifies(key: Key, message: Message, sig: Signature) {
    sig.Signed? && sig.key == key && sig.message == message
  }

  /** An Ed25519 signature is 64 bytes and a P-256 one at most 72. */
  function SignatureLength(sig: Signature): (n: nat)
    ensures n == 0 <==> sig == NO_SIGNATURE
  {
    match sig
    case Signed(_, _, v) => 64 + v % 9
    case Junk(raw) => |raw|
  }

  datatype Signer = Signer(did: DID, key: Key)

  function Sign(s: Signer, message: Message, variant: nat): (sig: Signature)
    ensures forall k, m :: Verifies(k, m, sig) <==> k == s.key && m == message
  {
    Signed(s.key, message, variant)
  }

  /** Content addresses. NoPolicyID is the empty string. */
  datatype CredentialID = IdOf(credential: Credential) | OtherID(text: string)
  datatype PolicyID = NoPolicyID | IdOfPolicy(policy: Policies.Policy) | OtherPolicyID(text: string)

  /** GenesisHash, the hash of an entry's content, or any other bytes. */
  datatype Digest = Genesis | EntryDigest(body: Body) | RawDigest(raw: seq<uint8>)

  datatype Draft = Draft(
    action: Action, resolvedChain: seq<DID>, credentialIDs: seq<CredentialID>, decision: Decision, policyID: PolicyID,
    popNonce: seq<uint8>, popSignature: Signature, approvedBy: DID, approval: Signature, timestamp: int)

  /** What an entry's hash covers: its position and its draft. */
  datatype Body = Body(seqNo: nat, prevHash: Digest, draft: Draft)

  datatype Entry = Entry(body: Body, entryHash: Digest, signature: Signature)

  datatype SignedList = SignedList(issuer: DID, purpose: string, bits: seq<bv8>, signature: Signature)

  /**
   What an evaluator hands back: a decision, and whether an error came with it. A panic is an error with
   an empty decision.
   */
  datatype Evaluated = Evaluated(decision: Decision, failed: bool)

  /**
   What the proxy and the verifier may consult: the two text parsers, DID resolution to a
   first key, published status lists (or no status source at all), and policy evaluators
   other than the shipped one, which may fail.
   */
  datatype World = World(
    lx: Lexicon, dids: DID -> Option<Key>, status: Option<string -> Option<SignedList>>,
    plugin: (nat, Action) -> Evaluated)

  // ---- credential.go ------------------------------------------------------

  const HOLDER_FIELD := "holder"

  function HolderContext(c: Credential): Macaroons.Ctx {
    if c.holderKey.None? then map[] else map[HOLDER_FIELD := c.holderKey.value.value]
  }

  /** The principal entitled to revoke this credential. */
  function StatusAuthority(c: Credential): DID {
    if c.statusRef.issuer != "" then c.statusRef.issuer else c.issuer
  }

  predicate BearsStatus(c: Credential) {
    c.statusRef.listURL != ""
  }

  datatype PoP = PoP(nonce: seq<uint8>, signature: Signature)

  /** The proof covers the credential, the nonce, the action and the position the entry takes. */
  predicate VerifyPossession(c: Credential, pop: PoP, action: Action, seqNo: nat, prevHash: Digest) {
    && c.holderKey.Some? && c.holderKey.value.key.Some? && pop.nonce != []
    && Verifies(c.holderKey.value.key.value,
                PossessionMessage(c.subject, c.macaroon.identifier, pop.nonce, action, seqNo, prevHash), pop.signature)
  }

  /** The context both programs check caveats against. */
  function AuthorityContext(c: Credential, a: Action): Macaroons.Ctx {
    Context(a) + HolderContext(c)
  }

  /**
   In that context the holder field of a bound credential is its own key, whatever the action says of it, the
   reserved names are the action's own, and every other field is the action's attribute.
   */
  lemma AuthorityContextMeans(c: Credential, a: Action)
    ensures var ctx := AuthorityContext(c, a);
            && (c.holderKey.Some? ==> "holder" in ctx && ctx["holder"] == c.holderKey.value.value)
            && ctx.Keys == a.attributes.Keys + {"action.type", "target", "expiry"} +
                           (if c.holderKey.Some? then {"holder"} else {})
            && ctx["action.type"] == a.kind && ctx["target"] == a.target && ctx["expiry"] == a.timestamp.utcText
            && forall k :: k in a.attributes && k !in {"action.type", "target", "expiry"} ==>
                 k != "holder" || c.holderKey.None? ==> ctx[k] == a.attributes[k]
  {
    assert "holder"[0] == 'h' && "action.type"[0] == 'a' && "target"[0] == 't' && "expiry"[0] == 'e';
  }
}
