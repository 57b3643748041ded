/** Delegation chains: one credential and one issuance signature per hop, anchor first. */
module Chains {
  import opened Util
  import opened Types
  import opened Artifacts
  import Macaroons

  const MAX_DEPTH := 8

  /** The issuer's resolved key signed this whole credential. */
  predicate IssuanceValid(w: World, c: Credential, proof: Signature) {
    w.dids(c.issuer).Some? && Verifies(w.dids(c.issuer).value, IssuanceMessage(c), proof)
  }

  /** The bound holder key is the subject's published key. */
  predicate HolderBound(w: World, c: Credential) {
    w.dids(c.subject).Some? && c.holderKey.Some? && c.holderKey.value.key == w.dids(c.subject)
  }

  ghost predicate HopVerified(w: World, links: seq<Link>, i: nat)
    requires i < |links|
  {
    var c := links[i].credential;
    && IssuanceValid(w, c, links[i].issuerProof)
    && HolderBound(w, c)
    && (i > 0 ==>
          && c.issuer == links[i - 1].credential.subject
          && Macaroons.ExtendsParent(w.lx, c.macaroon, links[i - 1].credential.macaroon))
  }

  ghost predicate ChainVerified(w: World, links: seq<Link>) {
    0 < |links| <= MAX_DEPTH && forall i :: 0 <= i < |links| ==> HopVerified(w, links, i)
  }

  datatype ChainVerdict = Sound | Empty | TooDeep | BrokenAt(hop: nat)

  /** Chain.Verify: refuses an empty or over-deep chain, else names the first hop that fails. */
  method Verify(w: World, links: seq<Link>) returns (v: ChainVerdict)
    ensures v.Sound? <==> ChainVerified(w, links)
    ensures v.Empty? <==> |links| == 0
    ensures v.TooDeep? <==> |links| > MAX_DEPTH
    ensures v.BrokenAt? ==>
              && v.hop < |links| && !HopVerified(w, links, v.hop)
              && forall j :: 0 <= j < v.hop ==> HopVerified(w, links, j)
  {
    if |links| == 0 {
      return Empty;
    }
    if |links| > MAX_DEPTH {
      return TooDeep;
    }
    for i := 0 to |links|
      invariant forall j :: 0 <= j < i ==> HopVerified(w, links, j)
    {
      var c := links[i].credential;
      var issuerKey := w.dids(c.issuer);
      if issuerKey.None? || !Verifies(issuerKey.value, IssuanceMessage(c), links[i].issuerProof) {
        assert !HopVerified(w, links, i);
        return BrokenAt(i);
      }
      var subjectKey := w.dids(c.subject);
      if subjectKey.None? || c.holderKey.None? || c.holderKey.value.key.None? || subjectKey != c.holderKey.value.key {
        assert !HopVerified(w, links, i);
        return BrokenAt(i);
      }
      if i > 0 {
        var parent := links[i - 1].credential;
        if c.issuer != parent.subject {
          assert !HopVerified(w, links, i);
          return BrokenAt(i);
        }
        var narrower := Macaroons.Extends(w.lx, c.macaroon, parent.macaroon);
        if !narrower {
          assert !HopVerified(w, links, i);
          return BrokenAt(i);
        }
      }
    }
    return Sound;
  }

  /** The root issuer followed by each hop's subject. */
  function Principals(links: seq<Link>): (ds: seq<DID>)
    ensures |ds| == if links == [] then 0 else |links| + 1
    ensures links != [] ==> ds[0] == links[0].credential.issuer
    ensures forall i :: 0 <= i < |links| ==> ds[i + 1] == links[i].credential.subject
  {
    if links == [] then [] else
    [links[0].credential.issuer] + seq(|links|, i requires 0 <= i < |links| => links[i].credential.subject)
  }

  method ListPrincipals(links: seq<Link>) returns (out: seq<DID>)
    ensures out == Principals(links)
  {
    if links == [] {
      return [];
    }
    out := [links[0].credential.issuer];
    for i := 0 to |links|
      invariant |out| == i + 1 && out[0] == links[0].credential.issuer
      invariant forall j :: 0 <= j < i ==> out[j + 1] == links[j].credential.subject
    {
      out := out + [links[i].credential.subject];
    }
  }

  /** In a verified chain the last principal is the terminal subject, under its own resolved key. */
  lemma ActorIsBound(w: World, links: seq<Link>)
    requires ChainVerified(w, links)
    ensures var ds, t := Principals(links), links[|links| - 1].credential;
            && ds[|ds| - 1] == t.subject
            && t.holderKey.Some? && t.holderKey.value.key == w.dids(t.subject) && w.dids(t.subject).Some?
  {
    assert HopVerified(w, links, |links| - 1);
  }

  /** The proof is a signature by the key the issuer's DID resolves to, over this whole credential. */
  ghost predicate IssuedBy(w: World, c: Credential, proof: Signature) {
    proof.Signed? && w.dids(c.issuer) == Some(proof.key) && proof.message == IssuanceMessage(c)
  }

  /** What hop i of a verified chain is, in the signatures and keys themselves. */
  ghost predicate HopMeans(w: World, links: seq<Link>, i: nat)
    requires i < |links|
  {
    var c := links[i].credential;
    && IssuedBy(w, c, links[i].issuerProof)
    && c.holderKey.Some? && c.holderKey.value.key.Some? && w.dids(c.subject) == c.holderKey.value.key
    && (i > 0 ==>
          && c.issuer == links[i - 1].credential.subject
          && c.macaroon.identifier == links[i - 1].credential.macaroon.identifier)
  }

  /**
   What a verified chain is: one to eight hops, each signed over as a whole by its issuer's resolved key and
   bound to its subject's resolved key, each issued by the subject before it under the same macaroon identifier.
   */
  lemma ChainMeans(w: World, links: seq<Link>)
    requires ChainVerified(w, links)
    ensures 1 <= |links| <= 8
    ensures forall i :: 0 <= i < |links| ==> HopMeans(w, links, i)
  {
    forall i | 0 <= i < |links| ensures HopMeans(w, links, i) {
      assert HopVerified(w, links, i);
    }
  }

  lemma IssuanceMeans(w: World, c: Credential, proof: Signature)
    ensures IssuanceValid(w, c, proof) <==> IssuedBy(w, c, proof)
  {
  }

  lemma {:induction false} EarlierIsPrefix(w: World, links: seq<Link>, i: nat, k: nat)
    requires ChainVerified(w, links) && i <= k < |links|
    ensures Macaroons.ExtendsParent(w.lx, links[k].credential.macaroon, links[i].credential.macaroon)
    decreases k - i
  {
    if i == k {
      var m := links[k].credential.macaroon;
      assert m.caveats[|m.caveats|..] == [];
      assert Macaroons.AdmittedInTurn(w.lx, m.caveats, []);
    } else {
      EarlierIsPrefix(w, links, i, k - 1);
      assert HopVerified(w, links, k);
      Macaroons.ExtendsTransitive(w.lx, links[i].credential.macaroon, links[k - 1].credential.macaroon,
        links[k].credential.macaroon);
    }
  }

  /** Authority only narrows: whatever satisfies the terminal credential satisfies every hop above it. */
  lemma TerminalAuthorityIsEveryHops(w: World, links: seq<Link>, i: nat, ctx: Macaroons.Ctx)
    requires ChainVerified(w, links) && i < |links|
    requires Macaroons.AllSatisfied(w.lx, links[|links| - 1].credential.macaroon.caveats, ctx)
    ensures Macaroons.AllSatisfied(w.lx, links[i].credential.macaroon.caveats, ctx)
  {
    EarlierIsPrefix(w, links, i, |links| - 1);
    var parent, child := links[i].credential.macaroon.caveats, links[|links| - 1].credential.macaroon.caveats;
    forall c | c in parent ensures Macaroons.Satisfied(w.lx, c, ctx) {
      assert c in child[..|parent|];
    }
  }

  /**
   At every hop of a verified chain, checking the last caveat on each field is checking all of them on every
   context if and only if some last caveat is satisfied by nothing, or each caveat of the root that is still the
   last on its field admits nothing an earlier one of the root refuses. It is so whenever the root's caveats
   were each admitted by those before them.
   */
  lemma LastCaveatDecidesInChain(w: World, links: seq<Link>, i: nat)
    requires ChainVerified(w, links) && i < |links|
    ensures var root, cs := links[0].credential.macaroon.caveats, links[i].credential.macaroon.caveats;
            && |root| <= |cs|
            && (Macaroons.LastAlwaysDecides(w.lx, cs) <==>
                Macaroons.DeadLast(w.lx, cs) || Macaroons.LastsContained(w.lx, cs, |root|))
            && (Macaroons.AdmittedInTurn(w.lx, [], root) ==> Macaroons.LastAlwaysDecides(w.lx, cs))
  {
    EarlierIsPrefix(w, links, 0, i);
    var root, cs := links[0].credential.macaroon.caveats, links[i].credential.macaroon.caveats;
    Macaroons.LastDecidesAfterRoot(w.lx, root, cs);
  }

  /** Verification sees only the credentials and that each has some valid proof. */
  lemma SameCredentialsVerify(w: World, links: seq<Link>, other: seq<Link>)
    requires ChainVerified(w, links) && |other| == |links|
    requires forall i :: 0 <= i < |links| ==>
      other[i].credential == links[i].credential && IssuanceValid(w, other[i].credential, other[i].issuerProof)
    ensures ChainVerified(w, other) && Principals(other) == Principals(links)
  {
    forall i | 0 <= i < |other| ensures HopVerified(w, other, i) {
      assert HopVerified(w, links, i);
    }
  }
}
