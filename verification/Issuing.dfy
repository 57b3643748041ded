/** The issuer: a declarative spec becomes an attenuated chain and a signed status list, or is refused. */
module Issuing {
  import opened Util
  import opened Scalar
  import opened Types
  import opened Artifacts
  import opened Chains
  import opened StatusLists
  import opened Exports
  import opened Enforcement
  import Macaroons

  datatype HopSpec = HopSpec(issuer: DID, subject: DID, caveats: seq<Macaroons.Caveat>, statusIndex: Option<int>)

  datatype StatusSpec = StatusSpec(url: string, issuer: DID, bits: int)

  datatype Spec = Spec(
    rootKeyHex: string, identifier: string, location: string, status: StatusSpec, hops: seq<HopSpec>,
    extraPrincipals: seq<DID>)

  /** A principal's signing key, by DID. */
  type Keystore = map<DID, Key>

  // ---- validation ---------------------------------------------------------

  ghost predicate HopValid(hops: seq<HopSpec>, i: nat)
    requires i < |hops|
  {
    && hops[i].issuer != "" && hops[i].subject != "" && hops[i].issuer != hops[i].subject
    && (i > 0 ==> hops[i].issuer == hops[i - 1].subject)
  }

  ghost predicate SpecValid(spec: Spec) {
    && spec.rootKeyHex != "" && spec.identifier != "" && 0 < |spec.hops| <= MAX_DEPTH
    && spec.status.url != "" && spec.status.issuer != ""
    && forall i :: 0 <= i < |spec.hops| ==> HopValid(spec.hops, i)
  }

  method Validate(spec: Spec) returns (ok: bool)
    ensures ok <==> SpecValid(spec)
  {
    if spec.rootKeyHex == "" || spec.identifier == "" || |spec.hops| == 0 || |spec.hops| > MAX_DEPTH {
      return false;
    }
    if spec.status.url == "" || spec.status.issuer == "" {
      return false;
    }
    for i := 0 to |spec.hops|
      invariant forall j :: 0 <= j < i ==> HopValid(spec.hops, j)
    {
      var h := spec.hops[i];
      if h.issuer == "" || h.subject == "" || h.issuer == h.subject || (i > 0 && h.issuer != spec.hops[i - 1].subject) {
        assert !HopValid(spec.hops, i);
        return false;
      }
    }
    return true;
  }

  // ---- principals ---------------------------------------------------------

  /** Every DID the spec mentions, in order: both ends of each hop, the status issuer, the extras. */
  function HopEnds(hops: seq<HopSpec>): seq<DID> {
    if hops == [] then [] else HopEnds(hops[..|hops| - 1]) + [hops[|hops| - 1].issuer] + [hops[|hops| - 1].subject]
  }

  function Mentions(spec: Spec): seq<DID> {
    HopEnds(spec.hops) + [spec.status.issuer] + spec.extraPrincipals
  }

  function Insert(out: seq<DID>, d: DID): seq<DID> {
    if d != "" && d !in out then out + [d] else out
  }

  function Distinct(ds: seq<DID>): seq<DID> {
    if ds == [] then [] else Insert(Distinct(ds[..|ds| - 1]), ds[|ds| - 1])
  }

  /** The first position of d. */
  ghost predicate FirstAt(ds: seq<DID>, d: DID, k: int) {
    0 <= k < |ds| && ds[k] == d && forall j :: 0 <= j < k ==> ds[j] != d
  }

  lemma {:induction false} DistinctMeans(ds: seq<DID>)
    ensures forall d :: d in Distinct(ds) <==> d != "" && d in ds
    ensures forall i, j :: 0 <= i < j < |Distinct(ds)| ==> Distinct(ds)[i] != Distinct(ds)[j]
  {
    if ds != [] {
      DistinctMeans(ds[..|ds| - 1]);
      assert ds == ds[..|ds| - 1] + [ds[|ds| - 1]];
    }
  }

  /** Kept in the order of first mention. */
  lemma {:induction false} DistinctOrdered(ds: seq<DID>, i: nat, j: nat, p: int, q: int)
    requires i < j < |Distinct(ds)| && FirstAt(ds, Distinct(ds)[i], p) && FirstAt(ds, Distinct(ds)[j], q)
    ensures p < q
  {
    var front, d := ds[..|ds| - 1], ds[|ds| - 1];
    DistinctMeans(ds);
    DistinctMeans(front);
    if j < |Distinct(front)| {
      assert Distinct(front)[i] in front && Distinct(front)[j] in front;
      var a :| 0 <= a < |front| && front[a] == Distinct(front)[i];
      var b :| 0 <= b < |front| && front[b] == Distinct(front)[j];
      assert ds[a] == Distinct(ds)[i] && ds[b] == Distinct(ds)[j];
      DistinctOrdered(front, i, j, p, q);
    } else {
      assert Distinct(ds)[j] == d && d !in front;
      assert forall k :: 0 <= k < |front| ==> ds[k] == front[k] != d;
    }
  }

  lemma DistinctSnoc(ds: seq<DID>, d: DID)
    ensures Distinct(ds + [d]) == Insert(Distinct(ds), d)
  {
    assert (ds + [d])[..|ds|] == ds;
  }

  method AddHopEnds(hops: seq<HopSpec>) returns (out: seq<DID>)
    ensures out == Distinct(HopEnds(hops))
  {
    out := [];
    for i := 0 to |hops|
      invariant out == Distinct(HopEnds(hops[..i]))
    {
      assert hops[..i + 1][..i] == hops[..i];
      var h := hops[i];
      DistinctSnoc(HopEnds(hops[..i]), h.issuer);
      DistinctSnoc(HopEnds(hops[..i]) + [h.issuer], h.subject);
      out := Insert(Insert(out, h.issuer), h.subject);
    }
    assert hops[..|hops|] == hops;
  }

  /** principals: one pass over the hops, then the status issuer and the extras, keeping what was not seen. */
  method ListedPrincipals(spec: Spec) returns (out: seq<DID>)
    ensures out == Distinct(Mentions(spec))
  {
    out := AddHopEnds(spec.hops);
    var base := HopEnds(spec.hops) + [spec.status.issuer];
    DistinctSnoc(HopEnds(spec.hops), spec.status.issuer);
    out := Insert(out, spec.status.issuer);
    assert base + spec.extraPrincipals[..0] == base;
    for i := 0 to |spec.extraPrincipals|
      invariant out == Distinct(base + spec.extraPrincipals[..i])
    {
      var d := spec.extraPrincipals[i];
      assert base + spec.extraPrincipals[..i + 1] == base + spec.extraPrincipals[..i] + [d];
      DistinctSnoc(base + spec.extraPrincipals[..i], d);
      out := Insert(out, d);
    }
    assert spec.extraPrincipals[..|spec.extraPrincipals|] == spec.extraPrincipals;
  }

  // ---- minting ------------------------------------------------------------

  /** The caveats of the first n hops, in order. */
  function CaveatsThrough(hops: seq<HopSpec>, n: nat): seq<Macaroons.Caveat>
    requires n <= |hops|
  {
    if n == 0 then [] else CaveatsThrough(hops, n - 1) + hops[n - 1].caveats
  }

  function RootOf(spec: Spec, rootKey: seq<uint8>): Macaroons.Macaroon {
    Macaroons.Mint(Macaroons.Raw(rootKey), spec.identifier, spec.location)
  }

  /** A hop that has a status index points at the spec's one list, and names its issuer when that is someone else. */
  function RefOf(spec: Spec, h: HopSpec): StatusRef {
    if h.statusIndex.None? then StatusRef("", 0, "")
    else
      var issuer := if spec.status.issuer != h.issuer then spec.status.issuer else "";
      StatusRef(spec.status.url, h.statusIndex.value, issuer)
  }

  function Compose(subject: DID, issuer: DID, m: Macaroons.Macaroon, ref: StatusRef, holder: Key): Option<Credential> {
    if subject == "" || issuer == "" || m.identifier == "" || m.signature == Macaroons.Raw([]) then None
    else Some(Credential(subject, issuer, m, ref, Some(JwkOf(holder)), ""))
  }

  datatype Published = Published(links: seq<Link>, ids: seq<CredentialID>, list: SignedList)

  ghost predicate KeysPresent(spec: Spec, ks: Keystore) {
    forall d :: d in Mentions(spec) && d != "" ==> d in ks
  }

  /**
   When publish succeeds: a valid spec, a key for everyone it mentions, a root key, and caveats that only
   ever narrow.
   */
  ghost predicate Publishable(lx: Lexicon, decodeHex: string -> Option<seq<uint8>>, spec: Spec, ks: Keystore) {
    && SpecValid(spec) && KeysPresent(spec, ks) && decodeHex(spec.rootKeyHex).Some?
    && Macaroons.AdmittedInTurn(lx, [], CaveatsThrough(spec.hops, |spec.hops|))
  }

  /** Link i grants hop i's subject the authority of all caveats so far, under its issuer's signature. */
  ghost predicate MintedHop(lx: Lexicon, spec: Spec, ks: Keystore, rootKey: seq<uint8>, i: nat, l: Link)
    requires i < |spec.hops|
  {
    var h, c := spec.hops[i], l.credential;
    && h.issuer in ks && h.subject in ks
    && Macaroons.AttenuateAll(lx, RootOf(spec, rootKey), CaveatsThrough(spec.hops, i + 1)) == Some(c.macaroon)
    && c.subject == h.subject && c.issuer == h.issuer && c.holderKey == Some(JwkOf(ks[h.subject])) &&
       c.statusRef == RefOf(spec, h)
    && Verifies(ks[h.issuer], IssuanceMessage(c), l.issuerProof)
  }

  lemma {:induction false} AttenuateConcat(
      lx: Lexicon, m: Macaroons.Macaroon, a: seq<Macaroons.Caveat>, b: seq<Macaroons.Caveat>)
    ensures Macaroons.AttenuateAll(lx, m, a + b) ==
            match Macaroons.AttenuateAll(lx, m, a)
            case None => None
            case Some(x) => Macaroons.AttenuateAll(lx, x, b)
    decreases |a|
  {
    if a == [] {
      assert a + b == b;
    } else {
      assert (a + b)[1..] == a[1..] + b;
      var next := Macaroons.Attenuated(lx, m, a[0]);
      if next.Some? {
        AttenuateConcat(lx, next.value, a[1..], b);
      }
    }
  }

  lemma AttenuateSnoc(lx: Lexicon, m: Macaroons.Macaroon, a: seq<Macaroons.Caveat>, c: Macaroons.Caveat)
    ensures Macaroons.AttenuateAll(lx, m, a + [c]) ==
            match Macaroons.AttenuateAll(lx, m, a)
            case None => None
            case Some(x) => Macaroons.Attenuated(lx, x, c)
  {
    AttenuateConcat(lx, m, a, [c]);
  }

  lemma {:induction false} CaveatsPrefix(hops: seq<HopSpec>, n: nat, k: nat)
    requires n <= k <= |hops|
    ensures CaveatsThrough(hops, n) <= CaveatsThrough(hops, k)
    decreases k
  {
    if n < k {
      CaveatsPrefix(hops, n, k - 1);
    }
  }

  /** All the spec's caveats are accepted in turn exactly when the whole attenuation succeeds. */
  lemma PublishableAttenuates(lx: Lexicon, spec: Spec, rootKey: seq<uint8>)
    ensures var cs := CaveatsThrough(spec.hops, |spec.hops|);
            Macaroons.AttenuateAll(lx, RootOf(spec, rootKey), cs).Some? <==> Macaroons.AdmittedInTurn(lx, [], cs)
  {
    Macaroons.AttenuateAllIff(lx, RootOf(spec, rootKey), CaveatsThrough(spec.hops, |spec.hops|));
  }

  lemma EarlierSucceeds(lx: Lexicon, m: Macaroons.Macaroon, part: seq<Macaroons.Caveat>, all: seq<Macaroons.Caveat>)
    requires part <= all && Macaroons.AttenuateAll(lx, m, all).Some?
    ensures Macaroons.AttenuateAll(lx, m, part).Some?
  {
    assert all == part + all[|part|..];
    AttenuateConcat(lx, m, part, all[|part|..]);
  }

  lemma FailedHopFailsAll(lx: Lexicon, spec: Spec, rootKey: seq<uint8>, n: nat)
    requires n <= |spec.hops| && Macaroons.AttenuateAll(lx, RootOf(spec, rootKey), CaveatsThrough(spec.hops, n)).None?
    ensures Macaroons.AttenuateAll(lx, RootOf(spec, rootKey), CaveatsThrough(spec.hops, |spec.hops|)).None?
  {
    var part, all := CaveatsThrough(spec.hops, n), CaveatsThrough(spec.hops, |spec.hops|);
    CaveatsPrefix(spec.hops, n, |spec.hops|);
    assert all == part + all[|part|..];
    AttenuateConcat(lx, RootOf(spec, rootKey), part, all[|part|..]);
  }

  /** One hop's caveats appended to the running macaroon; none at the first one that does not narrow. */
  method AttenuateHop(lx: Lexicon, m: Macaroons.Macaroon, caveats: seq<Macaroons.Caveat>)
    returns (r: Option<Macaroons.Macaroon>)
    ensures r == Macaroons.AttenuateAll(lx, m, caveats)
  {
    var acc := m;
    for j := 0 to |caveats|
      invariant Macaroons.AttenuateAll(lx, m, caveats[..j]) == Some(acc)
    {
      assert caveats[..j + 1] == caveats[..j] + [caveats[j]];
      AttenuateSnoc(lx, m, caveats[..j], caveats[j]);
      var next := Macaroons.Attenuate(lx, acc, caveats[j]);
      if next.None? {
        if Macaroons.AttenuateAll(lx, m, caveats).Some? {
          EarlierSucceeds(lx, m, caveats[..j + 1], caveats);
        }
        return None;
      }
      acc := next.value;
    }
    assert caveats[..|caveats|] == caveats;
    return Some(acc);
  }

  /** One hop's credential over the running macaroon, and its issuer's signature over all of it. */
  method GrantHop(lx: Lexicon, spec: Spec, ks: Keystore, rootKey: seq<uint8>, i: nat, m: Macaroons.Macaroon)
    returns (l: Link)
    requires SpecValid(spec) && i < |spec.hops| && spec.hops[i].subject in ks && spec.hops[i].issuer in ks
    requires m.identifier == spec.identifier && m.signature.Hmac?
    requires Macaroons.AttenuateAll(lx, RootOf(spec, rootKey), CaveatsThrough(spec.hops, i + 1)) == Some(m)
    ensures MintedHop(lx, spec, ks, rootKey, i, l) && l.credential.macaroon == m
  {
    var hop := spec.hops[i];
    assert HopValid(spec.hops, i);
    var cred := Compose(hop.subject, hop.issuer, m, RefOf(spec, hop), ks[hop.subject]);
    var proof := Sign(Signer(hop.issuer, ks[hop.issuer]), IssuanceMessage(cred.value), 0);
    return Link(cred.value, proof);
  }

  /** The minting loop of publish, over hops whose keys are all present. */
  method MintChain(lx: Lexicon, spec: Spec, ks: Keystore, rootKey: seq<uint8>)
    returns (links: Option<seq<Link>>, ids: seq<CredentialID>)
    requires SpecValid(spec) && KeysPresent(spec, ks)
    ensures links.Some? <==>
            Macaroons.AttenuateAll(lx, RootOf(spec, rootKey), CaveatsThrough(spec.hops, |spec.hops|)).Some?
    ensures links.Some? ==>
              && |links.value| == |spec.hops| && ids == ChainIDs(links.value)
              && forall i :: 0 <= i < |spec.hops| ==> MintedHop(lx, spec, ks, rootKey, i, links.value[i])
  {
    var m, out := RootOf(spec, rootKey), [];
    ids := [];
    for i := 0 to |spec.hops|
      invariant Macaroons.AttenuateAll(lx, RootOf(spec, rootKey), CaveatsThrough(spec.hops, i)) == Some(m)
      invariant m.identifier == spec.identifier && m.signature.Hmac?
      invariant |out| == i && ids == ChainIDs(out)
      invariant MintedSoFar(lx, spec, ks, rootKey, out)
    {
      KeysOfHop(spec, ks, i);
      NextHop(lx, spec, rootKey, i, m);
      var next := AttenuateHop(lx, m, spec.hops[i].caveats);
      if next.None? {
        FailedHopFailsAll(lx, spec, rootKey, i + 1);
        return None, [];
      }
      m := next.value;
      var l := GrantHop(lx, spec, ks, rootKey, i, m);
      MintedOneMore(lx, spec, ks, rootKey, out, l);
      ids := ids + [IdOf(l.credential)];
      out := out + [l];
    }
    links := Some(out);
  }

  ghost predicate MintedSoFar(lx: Lexicon, spec: Spec, ks: Keystore, rootKey: seq<uint8>, out: seq<Link>) {
    |out| <= |spec.hops| && forall j :: 0 <= j < |out| ==> MintedHop(lx, spec, ks, rootKey, j, out[j])
  }

  lemma MintedOneMore(lx: Lexicon, spec: Spec, ks: Keystore, rootKey: seq<uint8>, out: seq<Link>, l: Link)
    requires MintedSoFar(lx, spec, ks, rootKey, out) && |out| < |spec.hops|
    requires MintedHop(lx, spec, ks, rootKey, |out|, l)
    ensures MintedSoFar(lx, spec, ks, rootKey, out + [l])
    ensures ChainIDs(out + [l]) == ChainIDs(out) + [IdOf(l.credential)]
  {
  }

  lemma KeysOfHop(spec: Spec, ks: Keystore, i: nat)
    requires SpecValid(spec) && KeysPresent(spec, ks) && i < |spec.hops|
    ensures spec.hops[i].issuer in ks && spec.hops[i].subject in ks
  {
    assert HopValid(spec.hops, i);
    EndsMentioned(spec, i);
  }

  /** The macaroon after one more hop's caveats. */
  lemma NextHop(lx: Lexicon, spec: Spec, rootKey: seq<uint8>, i: nat, m: Macaroons.Macaroon)
    requires i < |spec.hops| && m.signature.Hmac?
    requires Macaroons.AttenuateAll(lx, RootOf(spec, rootKey), CaveatsThrough(spec.hops, i)) == Some(m)
    ensures var next := Macaroons.AttenuateAll(lx, m, spec.hops[i].caveats);
            && Macaroons.AttenuateAll(lx, RootOf(spec, rootKey), CaveatsThrough(spec.hops, i + 1)) == next
            && (next.Some? ==> next.value.identifier == m.identifier && next.value.signature.Hmac?)
  {
    AttenuateConcat(lx, RootOf(spec, rootKey), CaveatsThrough(spec.hops, i), spec.hops[i].caveats);
    BuiltShape(lx, m, spec.hops[i].caveats);
  }

  lemma EndsMentioned(spec: Spec, i: nat)
    requires i < |spec.hops|
    ensures spec.hops[i].issuer in Mentions(spec) && spec.hops[i].subject in Mentions(spec)
  {
    HopEndsMentioned(spec.hops, i);
  }

  lemma {:induction false} HopEndsMentioned(hops: seq<HopSpec>, i: nat)
    requires i < |hops|
    ensures hops[i].issuer in HopEnds(hops) && hops[i].subject in HopEnds(hops)
  {
    if i < |hops| - 1 {
      HopEndsMentioned(hops[..|hops| - 1], i);
    }
  }

  lemma BuiltShape(lx: Lexicon, m: Macaroons.Macaroon, cs: seq<Macaroons.Caveat>)
    requires m.signature.Hmac?
    ensures var r := Macaroons.AttenuateAll(lx, m, cs);
            r.Some? ==> r.value.identifier == m.identifier && r.value.signature.Hmac?
  {
    Macaroons.AttenuateAllIff(lx, m, cs);
    Macaroons.RecomputeIsHmac(m.signature, cs);
  }

  /** publish, without its file writes: it succeeds exactly on publishable specs, and mints every hop. */
  method Publish(lx: Lexicon, decodeHex: string -> Option<seq<uint8>>, spec: Spec, ks: Keystore)
    returns (r: Option<Published>)
    ensures r.Some? <==> Publishable(lx, decodeHex, spec, ks)
    ensures r.Some? ==>
              && |r.value.links| == |spec.hops| && r.value.ids == ChainIDs(r.value.links)
              && (forall i :: 0 <= i < |spec.hops| ==>
                 MintedHop(lx, spec, ks, decodeHex(spec.rootKeyHex).value, i, r.value.links[i]))
              && ListVerifies(r.value.list, spec.status.issuer, ks[spec.status.issuer])
              && 8 * |r.value.list.bits| >= spec.status.bits && RevokedSet(r.value.list.bits) == {}
  {
    var valid := Validate(spec);
    if !valid {
      return None;
    }
    var principals := ListedPrincipals(spec);
    DistinctMeans(Mentions(spec));
    for i := 0 to |principals|
      invariant forall j :: 0 <= j < i ==> principals[j] in ks
    {
      if principals[i] !in ks {
        assert principals[i] in Mentions(spec);
        return None;
      }
    }
    assert KeysPresent(spec, ks);
    var rootKey := decodeHex(spec.rootKeyHex);
    if rootKey.None? {
      return None;
    }
    PublishableAttenuates(lx, spec, rootKey.value);
    var links, ids := MintChain(lx, spec, ks, rootKey.value);
    if links.None? {
      return None;
    }
    var list := new StatusList(spec.status.bits);
    assert spec.status.issuer in Mentions(spec);
    var _ := list.SignWith(Signer(spec.status.issuer, ks[spec.status.issuer]), Some(0));
    r := Some(Published(links.value, ids, SignedList(list.issuer, list.purpose, list.bits[..], list.signature)));
  }

  /** revoke: flips one bit of the loaded list and signs it again. */
  method Revoke(spec: Spec, ks: Keystore, list: StatusList, index: int, clear: bool) returns (r: Option<SignedList>)
    modifies list, list.bits
    ensures r.Some? <==> SpecValid(spec) && 0 <= index < 8 * list.bits.Length && spec.status.issuer in ks
    ensures r.Some? ==>
              && r.value == list.Snapshot()
              && RevokedSet(r.value.bits) ==
                 (if clear then old(RevokedSet(list.bits[..])) - {index} else old(RevokedSet(list.bits[..])) + {index})
              && (8 * list.bits.Length >= MIN_BITS ==>
                 ListVerifies(r.value, spec.status.issuer, ks[spec.status.issuer]))
  {
    var valid := Validate(spec);
    if !valid {
      return None;
    }
    var ok := list.Set(index, !clear);
    if !ok || spec.status.issuer !in ks {
      return None;
    }
    var _ := list.SignWith(Signer(spec.status.issuer, ks[spec.status.issuer]), Some(0));
    r := Some(SignedList(list.issuer, list.purpose, list.bits[..], list.signature));
  }

  // ---- what was published stands ------------------------------------------

  /** Every principal the spec mentions resolves to its keystore key. */
  ghost predicate Resolves(w: World, spec: Spec, ks: Keystore) {
    forall d :: d in Mentions(spec) && d != "" ==> d in ks && w.dids(d) == Some(ks[d])
  }

  ghost predicate Minted(lx: Lexicon, spec: Spec, ks: Keystore, rootKey: seq<uint8>, links: seq<Link>) {
    |links| == |spec.hops| && forall i :: 0 <= i < |spec.hops| ==> MintedHop(lx, spec, ks, rootKey, i, links[i])
  }

  /**
   Whatever publish mints verifies against the DID documents it publishes, and every hop's tag matches the
   root key.
   */
  lemma MintedChainVerifies(w: World, spec: Spec, ks: Keystore, rootKey: seq<uint8>, links: seq<Link>)
    requires SpecValid(spec) && Minted(w.lx, spec, ks, rootKey, links) && Resolves(w, spec, ks)
    ensures ChainVerified(w, links)
    ensures forall i :: 0 <= i < |links| ==>
              var c := links[i].credential; c.issuer != "" && c.subject != "" && c.issuer != c.subject
    ensures forall i :: 0 <= i < |links| ==>
              var m := links[i].credential.macaroon;
              Macaroons.Recompute(Macaroons.Hmac(Macaroons.Raw(rootKey), m.identifier), m.caveats) == m.signature
  {
    forall i | 0 <= i < |links|
      ensures HopVerified(w, links, i)
      ensures var c := links[i].credential; c.issuer != "" && c.subject != "" && c.issuer != c.subject
      ensures var m := links[i].credential.macaroon;
              Macaroons.Recompute(Macaroons.Hmac(Macaroons.Raw(rootKey), m.identifier), m.caveats) == m.signature
    {
      assert MintedHop(w.lx, spec, ks, rootKey, i, links[i]) && HopValid(spec.hops, i);
      EndsMentioned(spec, i);
      Macaroons.BuiltTagMatches(w.lx, Macaroons.Raw(rootKey), spec.identifier, spec.location,
        CaveatsThrough(spec.hops, i + 1));
      if i > 0 {
        assert MintedHop(w.lx, spec, ks, rootKey, i - 1, links[i - 1]);
        MintedExtends(w.lx, spec, rootKey, i, links[i - 1].credential.macaroon, links[i].credential.macaroon);
      }
    }
  }

  lemma MintedExtends(
      lx: Lexicon, spec: Spec, rootKey: seq<uint8>, i: nat, parent: Macaroons.Macaroon, m: Macaroons.Macaroon)
    requires 0 < i < |spec.hops|
    requires Macaroons.AttenuateAll(lx, RootOf(spec, rootKey), CaveatsThrough(spec.hops, i)) == Some(parent)
    requires Macaroons.AttenuateAll(lx, RootOf(spec, rootKey), CaveatsThrough(spec.hops, i + 1)) == Some(m)
    ensures Macaroons.ExtendsParent(lx, m, parent)
  {
    var root := RootOf(spec, rootKey);
    AttenuateConcat(lx, root, CaveatsThrough(spec.hops, i), spec.hops[i].caveats);
    Macaroons.AttenuateAllIff(lx, root, CaveatsThrough(spec.hops, i));
    Macaroons.AttenuateAllIff(lx, root, CaveatsThrough(spec.hops, i + 1));
    Macaroons.ExtendsIffAttenuated(lx, m, parent);
  }

  /** The subject of every hop is authorised for exactly what the caveats of all hops so far allow. */
  lemma MintedAuthority(
      lx: Lexicon, spec: Spec, ks: Keystore, rootKey: seq<uint8>, links: seq<Link>, i: nat, ctx: Macaroons.Ctx)
    requires Minted(lx, spec, ks, rootKey, links) && i < |links|
    ensures Macaroons.AllSatisfied(lx, links[i].credential.macaroon.caveats, ctx) <==>
            forall k :: 0 <= k <= i ==> Macaroons.AllSatisfied(lx, spec.hops[k].caveats, ctx)
  {
    assert MintedHop(lx, spec, ks, rootKey, i, links[i]);
    Macaroons.AttenuateAllIff(lx, RootOf(spec, rootKey), CaveatsThrough(spec.hops, i + 1));
    assert links[i].credential.macaroon.caveats == CaveatsThrough(spec.hops, i + 1);
    ThroughSatisfied(lx, spec.hops, i + 1, ctx);
  }

  lemma {:induction false} ThroughSatisfied(lx: Lexicon, hops: seq<HopSpec>, n: nat, ctx: Macaroons.Ctx)
    requires n <= |hops|
    ensures Macaroons.AllSatisfied(lx, CaveatsThrough(hops, n), ctx) <==>
            forall k :: 0 <= k < n ==> Macaroons.AllSatisfied(lx, hops[k].caveats, ctx)
  {
    if n > 0 {
      ThroughSatisfied(lx, hops, n - 1, ctx);
    }
  }

  /**
   Whichever list the status issuer publishes at the spec's address decides revocation: a hop with an index
   in range is revoked exactly when the list's set holds that index, and one out of range has no answer.
   */
  lemma PublishedListDecides(
      w: World, spec: Spec, ks: Keystore, rootKey: seq<uint8>, links: seq<Link>, list: SignedList, i: nat)
    requires SpecValid(spec) && Minted(w.lx, spec, ks, rootKey, links) && Resolves(w, spec, ks) && i < |links|
    requires w.status.Some? && w.status.value(spec.status.url) == Some(list)
    requires spec.status.issuer in ks && ListVerifies(list, spec.status.issuer, ks[spec.status.issuer])
    ensures BearsStatus(links[i].credential) <==> spec.hops[i].statusIndex.Some?
    ensures BearsStatus(links[i].credential) ==>
              && StatusAuthority(links[i].credential) == spec.status.issuer
              && var index := spec.hops[i].statusIndex.value;
                 HopRevoked(w, links[i].credential) ==
                 if 0 <= index < 8 * |list.bits| then Some(index in RevokedSet(list.bits)) else None
  {
    assert MintedHop(w.lx, spec, ks, rootKey, i, links[i]) && HopValid(spec.hops, i);
    assert spec.status.issuer in Mentions(spec);
    MintedReference(spec, spec.hops[i], links[i].credential);
    if BearsStatus(links[i].credential) {
      ListAnswers(w, links[i].credential, list, ks[spec.status.issuer]);
    }
  }

  /** The reference a hop carries, and who may revoke it. */
  lemma MintedReference(spec: Spec, h: HopSpec, c: Credential)
    requires c.statusRef == RefOf(spec, h) && c.issuer == h.issuer && spec.status.url != "" && spec.status.issuer != ""
    ensures BearsStatus(c) <==> h.statusIndex.Some?
    ensures BearsStatus(c) ==>
              && StatusAuthority(c) == spec.status.issuer && c.statusRef.listURL == spec.status.url
              && c.statusRef.index == h.statusIndex.value
  {
  }

  /** A list its authority signed answers for a credential that points at it. */
  lemma ListAnswers(w: World, c: Credential, list: SignedList, key: Key)
    requires w.status.Some? && w.status.value(c.statusRef.listURL) == Some(list)
    requires w.dids(StatusAuthority(c)) == Some(key) && ListVerifies(list, StatusAuthority(c), key)
    ensures HopRevoked(w, c) ==
            if 0 <= c.statusRef.index < 8 * |list.bits| then Some(c.statusRef.index in RevokedSet(list.bits)) else None
  {
    LookupIsMembership(list.bits, c.statusRef.index);
  }

  /** So the sweep over a published chain is clear exactly when every index is in range and not revoked. */
  lemma SweepOfPublished(w: World, spec: Spec, ks: Keystore, rootKey: seq<uint8>, links: seq<Link>, list: SignedList)
    requires SpecValid(spec) && Minted(w.lx, spec, ks, rootKey, links) && Resolves(w, spec, ks)
    requires w.status.Some? && w.status.value(spec.status.url) == Some(list)
    requires spec.status.issuer in ks && ListVerifies(list, spec.status.issuer, ks[spec.status.issuer])
    ensures NoHopRevoked(w, links) <==>
            forall i :: 0 <= i < |spec.hops| && spec.hops[i].statusIndex.Some? ==>
              0 <= spec.hops[i].statusIndex.value < 8 * |list.bits| &&
                spec.hops[i].statusIndex.value !in RevokedSet(list.bits)
  {
    forall i | 0 <= i < |links|
      ensures BearsStatus(links[i].credential) <==> spec.hops[i].statusIndex.Some?
      ensures BearsStatus(links[i].credential) ==>
                (HopRevoked(w, links[i].credential) == Some(false) <==>
                 0 <= spec.hops[i].statusIndex.value < 8 * |list.bits| &&
                   spec.hops[i].statusIndex.value !in RevokedSet(list.bits))
    {
      PublishedListDecides(w, spec, ks, rootKey, links, list, i);
    }
  }
}
