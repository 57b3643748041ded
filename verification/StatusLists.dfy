/** Bitstring status lists: bytes changed in place that stand for a set of revoked indices. */
module StatusLists {
  import opened Util
  import opened Types
  import opened Artifacts

  const MIN_BITS: int := 131072
  const REVOCATION := "revocation"

  /** Bit k of a byte, most significant first. */
  function Mask(k: nat): bv8
    requires k < 8
  {
    [0x80, 0x40, 0x20, 0x10, 0x08, 0x04, 0x02, 0x01][k]
  }

  predicate BitSet(bits: seq<bv8>, i: nat)
    requires i < 8 * |bits|
  {
    bits[i / 8] & Mask(i % 8) != 0
  }

  /** The abstract value of a bitstring. */
  ghost function RevokedSet(bits: seq<bv8>): set<nat> {
    set i: nat | i < 8 * |bits| && BitSet(bits, i)
  }

  /** Lookup; none when the index is out of range. */
  function LookupIn(bits: seq<bv8>, index: int): Option<bool> {
    if 0 <= index < 8 * |bits| then Some(BitSet(bits, index)) else None
  }

  /** A look-up in range is membership in the set. */
  lemma LookupIsMembership(bits: seq<bv8>, index: int)
    ensures LookupIn(bits, index) == if 0 <= index < 8 * |bits| then Some(index in RevokedSet(bits)) else None
  {
  }

  /** StatusList.Verify: named authority, herd-privacy floor, signature under the authority's key. */
  predicate ListVerifies(l: SignedList, authority: DID, key: Key) {
    && authority != "" && l.issuer == authority && 8 * |l.bits| >= MIN_BITS
    && SignatureLength(l.signature) != 0
    && Verifies(key, StatusMessage(l.issuer, l.purpose, l.bits), l.signature)
  }

  /** The mask of an index, as the code computes it: one bit shifted into place. */
  method ShiftedMask(index: nat) returns (m: bv8)
    ensures m == Mask(index % 8)
  {
    var k := index % 8;
    assert k == 0 || k == 1 || k == 2 || k == 3 || k == 4 || k == 5 || k == 6 || k == 7;
    m := (1 as bv8) << (7 - k);
  }

  lemma MaskValues()
    ensures Mask(0) == 0x80 && Mask(1) == 0x40 && Mask(2) == 0x20 && Mask(3) == 0x10
    ensures Mask(4) == 0x08 && Mask(5) == 0x04 && Mask(6) == 0x02 && Mask(7) == 0x01
  {
  }

  /** Setting or clearing one bit of a byte leaves the other seven alone. */
  lemma OneBit(b: bv8, k: nat, j: nat)
    requires k < 8 && j < 8
    ensures ((b | Mask(k)) & Mask(j) != 0) <==> (j == k || b & Mask(j) != 0)
    ensures ((b & !Mask(k)) & Mask(j) != 0) <==> (j != k && b & Mask(j) != 0)
  {
    MaskValues();
  }

  /** The byte that holds an index, with that index's bit set or cleared. */
  function Rewritten(bits: seq<bv8>, index: nat, revoked: bool): bv8
    requires index < 8 * |bits|
  {
    if revoked then bits[index / 8] | Mask(index % 8) else bits[index / 8] & !Mask(index % 8)
  }

  lemma UpdateAt(was: seq<bv8>, index: nat, revoked: bool, i: nat)
    requires index < 8 * |was| && i < 8 * |was|
    ensures BitSet(was[index / 8 := Rewritten(was, index, revoked)], i) ==
            if i == index then revoked else BitSet(was, i)
  {
    if i / 8 == index / 8 {
      OneBit(was[i / 8], index % 8, i % 8);
    }
  }

  /** Rewriting one byte by setting or clearing one bit adds or removes exactly that index. */
  lemma UpdateOne(was: seq<bv8>, index: nat, revoked: bool, now: seq<bv8>)
    requires index < 8 * |was| && now == was[index / 8 := Rewritten(was, index, revoked)]
    ensures RevokedSet(now) == if revoked then RevokedSet(was) + {index} else RevokedSet(was) - {index}
  {
    forall i: nat | i < 8 * |was| ensures BitSet(now, i) == if i == index then revoked else BitSet(was, i) {
      UpdateAt(was, index, revoked, i);
    }
  }

  class StatusList {
    var issuer: DID
    var purpose: string
    const bits: array<bv8>
    var signature: Signature

    ghost function Snapshot(): SignedList
      reads this, bits
    {
      SignedList(issuer, purpose, bits[..], signature)
    }

    /** New: at least minBits, rounded up to a byte, never below the floor, all clear. */
    constructor (minBits: int)
      ensures fresh(bits) && issuer == "" && purpose == REVOCATION && signature == NO_SIGNATURE
      ensures 8 * bits.Length >= minBits && 8 * bits.Length >= MIN_BITS
      ensures 8 * bits.Length < (if minBits < MIN_BITS then MIN_BITS else minBits) + 8
      ensures RevokedSet(bits[..]) == {}
    {
      var n := if minBits < MIN_BITS then MIN_BITS else minBits;
      issuer, purpose, signature := "", REVOCATION, NO_SIGNATURE;
      bits := new bv8[(n + 7) / 8](_ => 0);
    }

    /** Set: an index out of range is refused and nothing changes; otherwise exactly that index changes. */
    method Set(index: int, revoked: bool) returns (ok: bool)
      modifies bits
      ensures ok == (0 <= index < 8 * bits.Length)
      ensures !ok ==> bits[..] == old(bits[..])
      ensures ok && revoked ==> RevokedSet(bits[..]) == old(RevokedSet(bits[..])) + {index}
      ensures ok && !revoked ==> RevokedSet(bits[..]) == old(RevokedSet(bits[..])) - {index}
    {
      if !(0 <= index < 8 * bits.Length) {
        return false;
      }
      var mask := ShiftedMask(index);
      ghost var was := bits[..];
      if revoked {
        bits[index / 8] := bits[index / 8] | mask;
      } else {
        bits[index / 8] := bits[index / 8] & !mask;
      }
      UpdateOne(was, index, revoked, bits[..]);
      return true;
    }

    method Lookup(index: int) returns (r: Option<bool>)
      ensures r == LookupIn(bits[..], index)
      ensures r.Some? <==> 0 <= index < 8 * bits.Length
      ensures r.Some? ==> (r.value <==> index in RevokedSet(bits[..]))
    {
      if !(0 <= index < 8 * bits.Length) {
        return None;
      }
      var mask := ShiftedMask(index);
      return Some(bits[index / 8] & mask != 0);
    }

    /** Sign: stamps the signer and signs the contents; a signer error leaves the old signature. */
    method SignWith(s: Signer, signing: Option<nat>) returns (ok: bool)
      modifies this
      ensures ok == signing.Some?
      ensures issuer == s.did && purpose == old(purpose) && bits[..] == old(bits[..])
      ensures !ok ==> signature == old(signature)
      ensures ok ==> Verifies(s.key, StatusMessage(s.did, purpose, bits[..]), signature)
    {
      issuer := s.did;
      if signing.None? {
        return false;
      }
      signature := Sign(s, StatusMessage(issuer, purpose, bits[..]), signing.value);
      return true;
    }

    method Verify(authority: DID, key: Key) returns (ok: bool)
      ensures ok == ListVerifies(Snapshot(), authority, key)
    {
      if authority == "" || issuer != authority || 8 * bits.Length < MIN_BITS || SignatureLength(signature) == 0 {
        return false;
      }
      return Verifies(key, StatusMessage(issuer, purpose, bits[..]), signature);
    }
  }

  /** The list is determined by the set it stands for: equal length and equal revocations mean equal bytes. */
  lemma RevokedSetDetermines(a: seq<bv8>, b: seq<bv8>)
    requires |a| == |b| && RevokedSet(a) == RevokedSet(b)
    ensures a == b
  {
    forall n | 0 <= n < |a| ensures a[n] == b[n] {
      forall k: nat | k < 8 ensures (a[n] & Mask(k) != 0) == (b[n] & Mask(k) != 0) {
        var i: nat := 8 * n + k;
        assert i / 8 == n && i % 8 == k;
        assert BitSet(a, i) <==> i in RevokedSet(a);
        assert BitSet(b, i) <==> i in RevokedSet(b);
      }
      SameBits(a[n], b[n]);
    }
  }

  lemma SameBits(a: bv8, b: bv8)
    requires forall k: nat :: k < 8 ==> (a & Mask(k) != 0) == (b & Mask(k) != 0)
    ensures a == b
  {
    MaskValues();
    assert (a & Mask(0) != 0) == (b & Mask(0) != 0) && (a & Mask(1) != 0) == (b & Mask(1) != 0);
    assert (a & Mask(2) != 0) == (b & Mask(2) != 0) && (a & Mask(3) != 0) == (b & Mask(3) != 0);
    assert (a & Mask(4) != 0) == (b & Mask(4) != 0) && (a & Mask(5) != 0) == (b & Mask(5) != 0);
    assert (a & Mask(6) != 0) == (b & Mask(6) != 0) && (a & Mask(7) != 0) == (b & Mask(7) != 0);
  }

  /** One call of Set: which index, and which way. */
  datatype Update = Update(index: int, revoked: bool)

  /** The set any sequence of updates leads to; updates out of range are refused. */
  ghost function SetAfter(start: set<nat>, size: nat, updates: seq<Update>): set<nat>
    decreases |updates|
  {
    if updates == [] then start
    else
      var u := updates[0];
      var next := if !(0 <= u.index < size) then start else if u.revoked then start + {u.index} else start - {u.index};
      SetAfter(next, size, updates[1..])
  }

  /** After any sequence of Set calls, Lookup is membership in the abstract set, for every index. */
  method ApplyUpdates(l: StatusList, updates: seq<Update>)
    modifies l.bits
    ensures RevokedSet(l.bits[..]) == SetAfter(old(RevokedSet(l.bits[..])), 8 * l.bits.Length, updates)
    ensures forall i: nat :: i < 8 * l.bits.Length ==>
              LookupIn(l.bits[..], i) == Some(i in SetAfter(old(RevokedSet(l.bits[..])), 8 * l.bits.Length, updates))
  {
    for n := 0 to |updates|
      invariant SetAfter(RevokedSet(l.bits[..]), 8 * l.bits.Length, updates[n..]) ==
                SetAfter(old(RevokedSet(l.bits[..])), 8 * l.bits.Length, updates)
    {
      assert updates[n..][1..] == updates[n + 1..];
      var _ := l.Set(updates[n].index, updates[n].revoked);
    }
  }

  /** A signature pins the revoked set: a list that verified, and whose set then changed, no longer verifies. */
  lemma ChangedListFailsVerify(before: SignedList, after: SignedList, authority: DID, key: Key)
    requires ListVerifies(before, authority, key)
    requires after.signature == before.signature && |after.bits| == |before.bits|
    ensures ListVerifies(after, authority, key) <==>
            RevokedSet(after.bits) == RevokedSet(before.bits) && after.issuer == before.issuer &&
              after.purpose == before.purpose
  {
    if RevokedSet(after.bits) == RevokedSet(before.bits) {
      RevokedSetDetermines(after.bits, before.bits);
    }
  }
}
