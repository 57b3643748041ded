/** What a passing export establishes, whoever made it. */
module Soundness {
  import opened Artifacts
  import opened Chains
  import opened Exports
  import opened Enforcement
  import opened Guarantees

  /** The chain an entry's evidence rebuilds, and its last credential. */
  ghost function EntryLinks(exp: Export, d: Draft): seq<Link>
    requires forall id :: id in d.credentialIDs ==> HasEvidence(exp, id)
  {
    LinksFor(exp, d.credentialIDs)
  }

  /** The proof of possession an entry records, checked at the entry's own position. */
  ghost predicate ProofHolds(b: Body, terminal: Credential) {
    VerifyPossession(terminal, PoP(b.draft.popNonce, b.draft.popSignature), b.draft.action, b.seqNo, b.prevHash)
  }

  /** Given the chain, attribution comes down to the proof of possession. */
  lemma AttributableIffProof(w: World, b: Body, chain: seq<Link>)
    requires ChainVerified(w, chain) && Principals(chain) == b.draft.resolvedChain &&
             ChainIDs(chain) == b.draft.credentialIDs
    ensures Attributable(w, b, chain) <==> ProofHolds(b, chain[|chain| - 1].credential)
  {
    ActorIsBound(w, chain);
    ChainMeans(w, chain);
  }

  lemma EvidencedChain(w: World, exp: Export, d: Draft)
    requires Evidenced(w, exp, d)
    ensures var links := EntryLinks(exp, d);
            ChainVerified(w, links) && Principals(links) == d.resolvedChain && ChainIDs(links) == d.credentialIDs
  {
  }

  lemma EvidencedAttributableIff(w: World, exp: Export, b: Body)
    requires Evidenced(w, exp, b.draft)
    ensures var links := EntryLinks(exp, b.draft);
            && links != [] && ChainVerified(w, links)
            && (Attributable(w, b, links) <==> ProofHolds(b, links[|links| - 1].credential))
  {
    EvidencedChain(w, exp, b.draft);
    AttributableIffProof(w, b, EntryLinks(exp, b.draft));
  }

  lemma SameTerminal(exp: Export, d: Draft, chain: seq<Link>)
    requires forall id :: id in d.credentialIDs ==> HasEvidence(exp, id)
    requires chain != [] && ChainIDs(chain) == d.credentialIDs
    ensures var links := EntryLinks(exp, d);
            |links| == |chain| && links[|links| - 1].credential == chain[|chain| - 1].credential
  {
    var links, n := EntryLinks(exp, d), |chain| - 1;
    assert IdOf(chain[n].credential) == d.credentialIDs[n] == IdOf(links[n].credential);
  }

  /**
   A chain is determined by its identifiers up to proofs, so no other chain can attribute what the
   evidence does not.
   */
  lemma OnlyTheEvidence(w: World, exp: Export, b: Body, chain: seq<Link>)
    requires Evidenced(w, exp, b.draft) && Attributable(w, b, chain)
    ensures Attributable(w, b, EntryLinks(exp, b.draft))
  {
    EvidencedAttributableIff(w, exp, b);
    AttributableIffProof(w, b, chain);
    SameTerminal(exp, b.draft, chain);
  }

  lemma PassingIsEvidenced(w: World, exp: Export, i: nat)
    requires Passes(w, exp) && i < |exp.entries|
    ensures Evidenced(w, exp, exp.entries[i].body.draft)
  {
    assert EntryVerdict(w, exp, exp.entries[i]) != Fail;
  }

  /**
   Every entry of a passing export has a verified chain. It is attributable by that chain if and only if
   the proof of possession it records verifies at its position; the verifier asks that of allows only.
   */
  lemma PassingAttributableIff(w: World, exp: Export, i: nat)
    requires Passes(w, exp) && i < |exp.entries|
    ensures Evidenced(w, exp, exp.entries[i].body.draft)
    ensures var b := exp.entries[i].body; var links := EntryLinks(exp, b.draft);
            && links != [] && ChainVerified(w, links)
            && (Attributable(w, b, links) <==> ProofHolds(b, links[|links| - 1].credential))
  {
    PassingIsEvidenced(w, exp, i);
    EvidencedAttributableIff(w, exp, exp.entries[i].body);
  }

  /** And no other chain attributes an entry of a passing export that its own evidence does not. */
  lemma NoOtherChainAttributes(w: World, exp: Export, i: nat, chain: seq<Link>)
    requires Passes(w, exp) && i < |exp.entries| && Attributable(w, exp.entries[i].body, chain)
    ensures Evidenced(w, exp, exp.entries[i].body.draft)
    ensures Attributable(w, exp.entries[i].body, EntryLinks(exp, exp.entries[i].body.draft))
  {
    PassingIsEvidenced(w, exp, i);
    OnlyTheEvidence(w, exp, exp.entries[i].body, chain);
  }

  /** What Justified says of an entry is what an allow must rest on. */
  lemma JustifiedAllow(w: World, exp: Export, b: Body, links: seq<Link>)
    requires links != [] && Justified(w, exp, b, links)
    ensures exp.policy.Some? && AllowJustified(w, exp.policy.value, b, links)
    ensures ProofHolds(b, links[|links| - 1].credential)
  {
    NoHopRevokedMeans(w, links);
    ApprovalMeans(w, links[|links| - 1].credential.subject, b);
  }

  /**
   Every allow of a passing export is attributable and justified under the policy it carries, whoever made
   the export.
   */
  lemma PassingAllowsJustified(w: World, exp: Export, i: nat)
    requires Passes(w, exp) && i < |exp.entries| && exp.entries[i].body.draft.decision.allowed
    ensures exp.policy.Some? && Evidenced(w, exp, exp.entries[i].body.draft)
    ensures var b := exp.entries[i].body; var links := EntryLinks(exp, b.draft);
            links != [] && Attributable(w, b, links) && AllowJustified(w, exp.policy.value, b, links)
  {
    var b := exp.entries[i].body;
    PassingAttributableIff(w, exp, i);
    AllowVerdict(w, exp, i);
    JustifiedAllow(w, exp, b, EntryLinks(exp, b.draft));
  }

  lemma AllowVerdict(w: World, exp: Export, i: nat)
    requires Passes(w, exp) && i < |exp.entries| && exp.entries[i].body.draft.decision.allowed
    ensures Evidenced(w, exp, exp.entries[i].body.draft)
    ensures Justified(w, exp, exp.entries[i].body, EntryLinks(exp, exp.entries[i].body.draft))
  {
    assert EntryVerdict(w, exp, exp.entries[i]) != Fail;
  }
}
