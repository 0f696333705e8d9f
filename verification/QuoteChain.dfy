/** Model of the certificate chain check under an attestation quote: `python/src/wcm/_quote_verify.py`. */
module QuoteChain {
  import opened Wrappers

  /*
   The code counts upwards: an issuer at height `i` has `i` CAs below it. Section 6.1 of RFC 5280 counts
   downwards: the trust anchor hands on a maximum path length that every certificate lowers and may shorten.
   The two are related here for all chains.

   Signatures are an abstract relation. A certificate whose extensions cannot be parsed makes the code raise,
   which `verify_cert_chain` turns into a refusal.
  */

  type Time = int

  datatype Extensions = Unreadable | Readable(ca: Option<bool>, pathLength: Option<nat>, keyCertSign: Option<bool>)

  datatype Cert = Cert(id: nat, notBefore: Time, notAfter: Time, selfIssued: bool, extensions: Extensions)

  type Signatures = (Cert, Cert) -> bool

  datatype Reason =
    | OutsideValidity(cert: Cert)
    | BrokenLink
    | NotPermittedToIssue(cert: Cert)
    | NoTrustedRoot
    | Malformed

  datatype Verdict = Trusted | Untrusted(reason: Reason)

  /** The roots the verifier will chain to, in the order they were added. */
  class TrustStore {
    var roots: seq<Cert>

    constructor ()
      ensures roots == []
    {
      roots := [];
    }

    /** Anything the store let a caller trust, it still does. */
    method AddRoot(cert: Cert)
      modifies this
      ensures roots == old(roots) + [cert]
      ensures forall chain: seq<Cert>, now, signed :: chain != [] && Accepts(chain, old(roots), now, signed) ==>
        Accepts(chain, roots, now, signed)
    {
      roots := roots + [cert];
      forall chain: seq<Cert>, now, signed | chain != [] && Accepts(chain, old(roots), now, signed)
        ensures Accepts(chain, roots, now, signed)
      {
        StoreGrows(chain, old(roots), [cert], now, signed);
      }
    }
  }

  predicate ValidAt(cert: Cert, now: Time) {
    cert.notBefore <= now <= cert.notAfter
  }

  /** A certificate that asserts it is a CA and, where it says what its key may do, that it may sign certificates. */
  predicate IsCa(cert: Cert) {
    cert.extensions.Readable? && cert.extensions.ca == Some(true) && cert.extensions.keyCertSign != Some(false)
  }

  /** The certificate's own limit, if any, leaves room for `n` CAs below it. */
  predicate HasRoomFor(cert: Cert, n: nat) {
    cert.extensions.Readable? && (cert.extensions.pathLength.Some? ==> n <= cert.extensions.pathLength.value)
  }

  method MayIssue(issuer: Cert, certsBelow: nat) returns (may: bool)
    requires issuer.extensions.Readable?
    ensures may <==> IsCa(issuer) && HasRoomFor(issuer, certsBelow)
  {
    var e := issuer.extensions;
    if e.ca.None? {
      return false;
    }
    if !e.ca.value {
      return false;
    }
    if e.pathLength.Some? && certsBelow > e.pathLength.value {
      return false;
    }
    if e.keyCertSign.None? {
      return true;
    }
    return e.keyCertSign.value;
  }

  // ------------------------------------------------------------------ what the code accepts

  /** Link `i` holds: the certificate is in force, the next one signed it and may issue with `i` CAs below it. */
  predicate LinkHolds(certs: seq<Cert>, i: nat, now: Time, signed: Signatures)
    requires i + 1 < |certs|
  {
    ValidAt(certs[i], now) && signed(certs[i], certs[i + 1]) && IsCa(certs[i + 1]) && HasRoomFor(certs[i + 1], i)
  }

  /** Each of the first `n` links holds. */
  predicate Linked(certs: seq<Cert>, n: nat, now: Time, signed: Signatures)
    requires n < |certs|
  {
    forall i :: 0 <= i < n ==> LinkHolds(certs, i, now, signed)
  }

  /** The chain with its anchor last, as the code checks it: leaf first, heights counted upwards. */
  predicate BottomUp(certs: seq<Cert>, now: Time, signed: Signatures)
    requires certs != []
  {
    Linked(certs, |certs| - 1, now, signed) && ValidAt(certs[|certs| - 1], now)
  }

  /** The chain as checked against this root: the root may be its own last certificate. */
  function Anchored(chain: seq<Cert>, root: Cert): (certs: seq<Cert>)
    requires chain != []
    ensures certs != [] && certs[|certs| - 1] == root && chain <= certs
  {
    if chain[|chain| - 1] == root then chain else chain + [root]
  }

  /** Looking at this root raises: it signed the chain, and its extensions cannot be read. */
  predicate Stops(chain: seq<Cert>, root: Cert, now: Time, signed: Signatures)
    requires chain != []
  {
    var top := chain[|chain| - 1];
    ValidAt(root, now) && top != root && signed(top, root) && root.extensions.Unreadable?
  }

  ghost predicate Accepts(chain: seq<Cert>, roots: seq<Cert>, now: Time, signed: Signatures)
    requires chain != []
  {
    exists k :: 0 <= k < |roots| && BottomUp(Anchored(chain, roots[k]), now, signed)
      && forall j :: 0 <= j < k ==> !Stops(chain, roots[j], now, signed)
  }

  /** The reason given is a fault that is there. */
  ghost predicate Explains(reason: Reason, chain: seq<Cert>, roots: seq<Cert>, now: Time, signed: Signatures)
    requires chain != []
  {
    match reason
    case OutsideValidity(c) => c in chain && !ValidAt(c, now)
    case BrokenLink =>
      exists i :: 0 <= i < |chain| - 1 && Linked(chain, i, now, signed) && !signed(chain[i], chain[i + 1])
    case NotPermittedToIssue(c) =>
      exists i ::
        && 0 <= i < |chain| - 1 && Linked(chain, i, now, signed)
        && chain[i + 1] == c && !(IsCa(c) && HasRoomFor(c, i))
    case NoTrustedRoot =>
      BottomUp(chain, now, signed) && forall r :: r in roots ==> !BottomUp(Anchored(chain, r), now, signed)
    case Malformed =>
      || (exists i :: 0 < i < |chain| && chain[i].extensions.Unreadable?)
      || (exists r :: r in roots && Stops(chain, r, now, signed))
  }

  /** `issuer` may have signed `cert` with `below` CAs under it, and `cert` is in force. */
  ghost predicate Issued(cert: Cert, issuer: Cert, below: nat, now: Time, signed: Signatures) {
    && cert.notBefore <= now && now <= cert.notAfter
    && signed(cert, issuer)
    && issuer.extensions.Readable?
    && issuer.extensions.ca.Some? && issuer.extensions.ca.value
    && (issuer.extensions.pathLength.Some? ==> below <= issuer.extensions.pathLength.value)
    && (issuer.extensions.keyCertSign.Some? ==> issuer.extensions.keyCertSign.value)
  }

  /** The root at `k` is in force and is the top of the chain or issued it, and no root ahead of it raises. */
  ghost predicate AnchorsAt(chain: seq<Cert>, roots: seq<Cert>, k: nat, now: Time, signed: Signatures)
    requires chain != [] && k < |roots|
  {
    var top := chain[|chain| - 1];
    && roots[k].notBefore <= now && now <= roots[k].notAfter
    && (roots[k] == top || Issued(top, roots[k], |chain| - 1, now, signed))
    && forall j ::
         0 <= j < k && roots[j] != top && signed(top, roots[j]) && roots[j].extensions.Unreadable? ==>
           now < roots[j].notBefore || roots[j].notAfter < now
  }

  /** What is trusted, said of the certificates' own fields. */
  ghost predicate TrustedByFields(chain: seq<Cert>, roots: seq<Cert>, now: Time, signed: Signatures)
    requires chain != []
  {
    && (forall i :: 0 <= i < |chain| - 1 ==> Issued(chain[i], chain[i + 1], i, now, signed))
    && chain[|chain| - 1].notBefore <= now && now <= chain[|chain| - 1].notAfter
    && exists k :: 0 <= k < |roots| && AnchorsAt(chain, roots, k, now, signed)
  }

  lemma {:induction false} IssuedExact(cert: Cert, issuer: Cert, below: nat, now: Time, signed: Signatures)
    ensures Issued(cert, issuer, below, now, signed) <==>
      ValidAt(cert, now) && signed(cert, issuer) && IsCa(issuer) && HasRoomFor(issuer, below)
  {
  }

  lemma {:induction false} LinkExact(chain: seq<Cert>, i: nat, now: Time, signed: Signatures)
    requires i + 1 < |chain|
    ensures LinkHolds(chain, i, now, signed) <==> Issued(chain[i], chain[i + 1], i, now, signed)
  {
  }

  lemma {:induction false} AnchorsExact(chain: seq<Cert>, roots: seq<Cert>, k: nat, now: Time, signed: Signatures)
    requires chain != [] && k < |roots| && BottomUp(chain, now, signed)
    ensures AnchorsAt(chain, roots, k, now, signed) <==>
      && BottomUp(Anchored(chain, roots[k]), now, signed)
      && forall j :: 0 <= j < k ==> !Stops(chain, roots[j], now, signed)
  {
    AnchoredBottomUp(chain, roots[k], now, signed);
    IssuedExact(chain[|chain| - 1], roots[k], |chain| - 1, now, signed);
    hide Issued, Anchored, IsCa, HasRoomFor;
  }

  lemma {:induction false} ChainByFields(chain: seq<Cert>, now: Time, signed: Signatures)
    requires chain != []
    ensures BottomUp(chain, now, signed) <==>
      && (forall i :: 0 <= i < |chain| - 1 ==> Issued(chain[i], chain[i + 1], i, now, signed))
      && chain[|chain| - 1].notBefore <= now && now <= chain[|chain| - 1].notAfter
  {
    hide Issued, LinkHolds;
    var n := |chain| - 1;
    if BottomUp(chain, now, signed) {
      forall i | 0 <= i < n
        ensures Issued(chain[i], chain[i + 1], i, now, signed)
      {
        assert LinkHolds(chain, i, now, signed);
        LinkExact(chain, i, now, signed);
      }
    }
    if forall i :: 0 <= i < n ==> Issued(chain[i], chain[i + 1], i, now, signed) {
      forall i | 0 <= i < n
        ensures LinkHolds(chain, i, now, signed)
      {
        assert Issued(chain[i], chain[i + 1], i, now, signed);
        LinkExact(chain, i, now, signed);
      }
      assert Linked(chain, n, now, signed);
    }
  }

  /** Trust, decided of the fields alone: validity, CA flag, path length and key usage of every certificate. */
  lemma {:induction false} AcceptedByFields(chain: seq<Cert>, roots: seq<Cert>, now: Time, signed: Signatures)
    requires chain != []
    ensures Accepts(chain, roots, now, signed) <==> TrustedByFields(chain, roots, now, signed)
  {
    hide BottomUp, Anchored, Issued, AnchorsAt, Stops;
    ChainByFields(chain, now, signed);
    forall k | 0 <= k < |roots|
      ensures BottomUp(Anchored(chain, roots[k]), now, signed) ==> BottomUp(chain, now, signed)
      ensures BottomUp(chain, now, signed) ==>
        (AnchorsAt(chain, roots, k, now, signed) <==>
          && BottomUp(Anchored(chain, roots[k]), now, signed)
          && forall j :: 0 <= j < k ==> !Stops(chain, roots[j], now, signed))
    {
      if BottomUp(Anchored(chain, roots[k]), now, signed) {
        AnchoredKeepsChain(chain, roots[k], now, signed);
      }
      if BottomUp(chain, now, signed) {
        AnchorsExact(chain, roots, k, now, signed);
      }
    }
  }

  lemma {:induction false} AnchoredBottomUp(chain: seq<Cert>, root: Cert, now: Time, signed: Signatures)
    requires chain != [] && BottomUp(chain, now, signed)
    ensures BottomUp(Anchored(chain, root), now, signed) <==>
      ValidAt(root, now)
      && (chain[|chain| - 1] == root
          || (signed(chain[|chain| - 1], root) && IsCa(root) && HasRoomFor(root, |chain| - 1)))
  {
    var n := |chain| - 1;
    if chain[n] != root {
      var certs := chain + [root];
      assert forall i :: 0 <= i <= n ==> certs[i] == chain[i];
      assert forall i :: 0 <= i < n && LinkHolds(chain, i, now, signed) ==> LinkHolds(certs, i, now, signed);
      if BottomUp(certs, now, signed) {
        assert LinkHolds(certs, n, now, signed);
      }
    }
  }

  lemma {:induction false} AnchoredKeepsChain(chain: seq<Cert>, root: Cert, now: Time, signed: Signatures)
    requires chain != [] && BottomUp(Anchored(chain, root), now, signed)
    ensures BottomUp(chain, now, signed)
  {
    var certs := Anchored(chain, root);
    var n := |chain| - 1;
    assert forall i :: 0 <= i <= n ==> certs[i] == chain[i];
    forall i | 0 <= i < n
      ensures LinkHolds(chain, i, now, signed)
    {
      assert LinkHolds(certs, i, now, signed);
    }
    if |certs| > |chain| {
      assert LinkHolds(certs, n, now, signed);
    }
  }

  /** The links of the presented chain, lowest first, then the top's own validity. */
  method LinksFault(chain: seq<Cert>, now: Time, signed: Signatures) returns (verdict: Verdict)
    requires chain != []
    ensures verdict.Trusted? <==> BottomUp(chain, now, signed)
    ensures verdict.Untrusted? ==> !verdict.reason.NoTrustedRoot?
    ensures forall roots :: verdict.Untrusted? ==> Explains(verdict.reason, chain, roots, now, signed)
  {
    for i := 0 to |chain| - 1
      invariant Linked(chain, i, now, signed)
    {
      assert LinkHolds(chain, i, now, signed) ==> ValidAt(chain[i], now);
      if !ValidAt(chain[i], now) {
        return Untrusted(OutsideValidity(chain[i]));
      }
      if !signed(chain[i], chain[i + 1]) {
        return Untrusted(BrokenLink);
      }
      if chain[i + 1].extensions.Unreadable? {
        return Untrusted(Malformed);
      }
      var may := MayIssue(chain[i + 1], i);
      if !may {
        return Untrusted(NotPermittedToIssue(chain[i + 1]));
      }
    }
    var top := chain[|chain| - 1];
    if !ValidAt(top, now) {
      return Untrusted(OutsideValidity(top));
    }
    return Trusted;
  }

  /** Accepts exactly the chains that reach a trusted root before a root that cannot be read. */
  method VerifyCertChain(leaf: Cert, intermediates: seq<Cert>, roots: seq<Cert>, now: Time, signed: Signatures)
    returns (verdict: Verdict)
    ensures verdict.Trusted? <==> Accepts([leaf] + intermediates, roots, now, signed)
    ensures verdict.Trusted? <==> TrustedByFields([leaf] + intermediates, roots, now, signed)
    ensures verdict.Untrusted? ==> Explains(verdict.reason, [leaf] + intermediates, roots, now, signed)
  {
    hide BottomUp, Anchored, TrustedByFields;
    var chain := [leaf] + intermediates;
    AcceptedByFields(chain, roots, now, signed);
    var n := |chain| - 1;
    verdict := LinksFault(chain, now, signed);
    if verdict.Untrusted? {
      forall k | 0 <= k < |roots|
        ensures !BottomUp(Anchored(chain, roots[k]), now, signed)
      {
        if BottomUp(Anchored(chain, roots[k]), now, signed) {
          AnchoredKeepsChain(chain, roots[k], now, signed);
        }
      }
      return;
    }
    var top := chain[n];
    for k := 0 to |roots|
      invariant forall j :: 0 <= j < k ==>
        !BottomUp(Anchored(chain, roots[j]), now, signed) && !Stops(chain, roots[j], now, signed)
    {
      var root := roots[k];
      AnchoredBottomUp(chain, root, now, signed);
      if !ValidAt(root, now) {
        continue;
      }
      if top == root {
        return Trusted;
      }
      if signed(top, root) {
        if root.extensions.Unreadable? {
          assert Stops(chain, roots[k], now, signed);
          return Untrusted(Malformed);
        }
        var may := MayIssue(root, n);
        if may {
          return Trusted;
        }
      }
    }
    return Untrusted(NoTrustedRoot);
  }

  // ------------------------------------------------------------------ the trust store

  /** Roots appended later take nothing away. */
  lemma {:induction false} StoreGrows(chain: seq<Cert>, roots: seq<Cert>, more: seq<Cert>, now: Time,
                                      signed: Signatures)
    requires chain != [] && Accepts(chain, roots, now, signed)
    ensures Accepts(chain, roots + more, now, signed)
  {
    var k :| 0 <= k < |roots| && BottomUp(Anchored(chain, roots[k]), now, signed)
      && forall j :: 0 <= j < k ==> !Stops(chain, roots[j], now, signed);
    var all := roots + more;
    assert all[k] == roots[k] && forall j :: 0 <= j < k ==> all[j] == roots[j];
  }

  /** A root whose reading raises hides every root behind it. */
  lemma {:induction false} NothingBehindAStop(chain: seq<Cert>, a: seq<Cert>, r: Cert, b: seq<Cert>, now: Time,
                                              signed: Signatures)
    requires chain != [] && Stops(chain, r, now, signed)
    ensures Accepts(chain, a + [r] + b, now, signed) <==> Accepts(chain, a, now, signed)
  {
    var all := a + [r] + b;
    assert all[|a|] == r && all == a + ([r] + b);
    if Accepts(chain, all, now, signed) {
      var k :| 0 <= k < |all| && BottomUp(Anchored(chain, all[k]), now, signed)
        && forall j :: 0 <= j < k ==> !Stops(chain, all[j], now, signed);
      if k == |a| {
        StopIsNoAnchor(chain, r, now, signed);
      }
      assert k < |a| && a[k] == all[k] && forall j :: 0 <= j < k ==> a[j] == all[j];
    }
    if Accepts(chain, a, now, signed) {
      StoreGrows(chain, a, [r] + b, now, signed);
    }
  }

  lemma {:induction false} StopIsNoAnchor(chain: seq<Cert>, r: Cert, now: Time, signed: Signatures)
    requires chain != [] && Stops(chain, r, now, signed)
    ensures !BottomUp(Anchored(chain, r), now, signed)
  {
    assert !LinkHolds(Anchored(chain, r), |chain| - 1, now, signed);
  }

  /**
   Exactly when a root added anywhere keeps a chain accepted: its own reading does not raise, or a
   root ahead of it accepts the chain already.
   */
  lemma {:induction false} AddingARootExact(chain: seq<Cert>, a: seq<Cert>, r: Cert, b: seq<Cert>, now: Time,
                                            signed: Signatures)
    requires chain != [] && Accepts(chain, a + b, now, signed)
    ensures Accepts(chain, a + [r] + b, now, signed) <==>
      !Stops(chain, r, now, signed) || Accepts(chain, a, now, signed)
  {
    var few, all := a + b, a + [r] + b;
    if Stops(chain, r, now, signed) {
      NothingBehindAStop(chain, a, r, b, now, signed);
    } else {
      var k :| 0 <= k < |few| && BottomUp(Anchored(chain, few[k]), now, signed)
        && forall j :: 0 <= j < k ==> !Stops(chain, few[j], now, signed);
      var at := if k < |a| then k else k + 1;
      assert all[at] == few[k];
      forall j | 0 <= j < at
        ensures !Stops(chain, all[j], now, signed)
      {
        if j < |a| {
          assert all[j] == few[j];
        } else if j > |a| {
          assert all[j] == few[j - 1];
        }
      }
    }
  }

  /** Where every root can be read, only which roots are trusted matters, not their order. */
  lemma {:induction false} OnlyTheRootsMatter(chain: seq<Cert>, fewer: seq<Cert>, roots: seq<Cert>, now: Time,
                                              signed: Signatures)
    requires chain != [] && Accepts(chain, fewer, now, signed)
    requires forall r :: r in fewer ==> r in roots
    requires forall r :: r in roots ==> r.extensions.Readable?
    ensures Accepts(chain, roots, now, signed)
  {
    var k :| 0 <= k < |fewer| && BottomUp(Anchored(chain, fewer[k]), now, signed);
    assert fewer[k] in roots;
    var m :| 0 <= m < |roots| && roots[m] == fewer[k];
  }

  /** A root that cannot be read, placed ahead of a good one of the same key, shuts it out. */
  lemma {:induction false} UnreadableRootShutsOut() returns (leaf: Cert, good: Cert, bad: Cert, signed: Signatures)
    ensures Accepts([leaf], [good], 0, signed) && !Accepts([leaf], [bad, good], 0, signed)
  {
    leaf := Cert(0, 0, 0, false, Readable(None, None, None));
    good := Cert(1, 0, 0, true, Readable(Some(true), None, None));
    bad := Cert(2, 0, 0, true, Unreadable);
    signed := (c: Cert, i: Cert) => c.id == 0 && i.id > 0;
    assert [good][0] == good;
    assert BottomUp(Anchored([leaf], [good][0]), 0, signed);
    var roots := [bad, good];
    assert Stops([leaf], roots[0], 0, signed);
    assert !BottomUp(Anchored([leaf], roots[0]), 0, signed) by {
      var certs := Anchored([leaf], bad);
      assert !LinkHolds(certs, 0, 0, signed);
    }
  }

  // ------------------------------------------------------------------ section 6.1 of RFC 5280

  /** (l) of section 6.1.4: a certificate that is not self-issued uses up one of the path length. */
  function Spent(cert: Cert, max: nat): (left: int) {
    if cert.selfIssued then max else max - 1
  }

  /** (m) of section 6.1.4: a certificate's own limit shortens what is left. */
  function Shortened(cert: Cert, max: nat): (left: nat)
    ensures forall n: nat :: cert.extensions.Readable? ==> (n <= left <==> n <= max && HasRoomFor(cert, n))
  {
    if cert.extensions.Readable? && cert.extensions.pathLength.Some? && cert.extensions.pathLength.value < max
    then cert.extensions.pathLength.value
    else max
  }

  /** Processes certificate `k` and all below it, issued by certificate `k + 1`, with `max` path length left. */
  predicate Process(certs: seq<Cert>, k: nat, max: nat, now: Time, signed: Signatures)
    requires k + 1 < |certs|
    decreases k
  {
    && ValidAt(certs[k], now) && signed(certs[k], certs[k + 1])
    && (k > 0 ==>
          && IsCa(certs[k]) && Spent(certs[k], max) >= 0
          && Process(certs, k - 1, Shortened(certs[k], Spent(certs[k], max)), now, signed))
  }

  /** The whole path from its anchor down, with the path length first set to the number of certificates and
      then shortened by the anchor's own limit. */
  predicate TopDown(certs: seq<Cert>, now: Time, signed: Signatures)
    requires certs != []
  {
    var n := |certs| - 1;
    && ValidAt(certs[n], now)
    && (n > 0 ==> IsCa(certs[n]) && Process(certs, n - 1, Shortened(certs[n], n), now, signed))
  }

  /** How many intermediates below certificate `k` count against its path length. */
  function Counted(certs: seq<Cert>, k: nat): (n: nat)
    requires k <= |certs|
    ensures k > 0 ==> n <= k - 1
  {
    if k <= 1 then 0 else Counted(certs, k - 1) + if certs[k - 1].selfIssued then 0 else 1
  }

  /** Link `i` as the standard judges it: only what is not self-issued counts. */
  predicate LinkCounted(certs: seq<Cert>, i: nat, now: Time, signed: Signatures)
    requires i + 1 < |certs|
  {
    && ValidAt(certs[i], now) && signed(certs[i], certs[i + 1])
    && IsCa(certs[i + 1]) && HasRoomFor(certs[i + 1], Counted(certs, i + 1))
  }

  /** What one step of the process needs, read off the chain: heights count only what is not self-issued. */
  predicate Fits(certs: seq<Cert>, k: nat, now: Time, signed: Signatures)
    requires k + 1 < |certs|
  {
    && ValidAt(certs[k], now) && signed(certs[k], certs[k + 1])
    && (k > 0 ==> IsCa(certs[k]) && HasRoomFor(certs[k], Counted(certs, k)))
  }

  lemma {:induction false} ProcessExact(certs: seq<Cert>, k: nat, max: nat, now: Time, signed: Signatures)
    requires k + 1 < |certs|
    ensures Process(certs, k, max, now, signed) <==>
      max >= Counted(certs, k + 1) && forall i :: 0 <= i <= k ==> Fits(certs, i, now, signed)
    decreases k
  {
    hide HasRoomFor, Shortened, ValidAt;
    var own := Fits(certs, k, now, signed);
    if k > 0 && IsCa(certs[k]) && Spent(certs[k], max) >= 0 {
      ProcessExact(certs, k - 1, Shortened(certs[k], Spent(certs[k], max)), now, signed);
    }
    assert Counted(certs, k + 1) == Counted(certs, k) + if k == 0 || certs[k].selfIssued then 0 else 1;
  }

  /** The downward process, for every chain: each issuer's limit must cover the intermediates below it that are
      not self-issued. */
  lemma {:induction false} TopDownExact(certs: seq<Cert>, now: Time, signed: Signatures)
    requires certs != []
    ensures TopDown(certs, now, signed) <==>
      && ValidAt(certs[|certs| - 1], now)
      && forall i :: 0 <= i < |certs| - 1 ==> LinkCounted(certs, i, now, signed)
  {
    hide HasRoomFor, ValidAt, Process, Counted;
    var n := |certs| - 1;
    if n > 0 && IsCa(certs[n]) {
      ProcessExact(certs, n - 1, Shortened(certs[n], n), now, signed);
      FitsIsLinks(certs, now, signed);
    } else if n > 0 {
      assert !LinkCounted(certs, n - 1, now, signed);
    }
  }

  lemma {:induction false} FitsIsLinks(certs: seq<Cert>, now: Time, signed: Signatures)
    requires |certs| > 1
    ensures (forall i :: 0 <= i < |certs| - 1 ==> LinkCounted(certs, i, now, signed)) <==>
      && IsCa(certs[|certs| - 1]) && HasRoomFor(certs[|certs| - 1], Counted(certs, |certs| - 1))
      && forall i :: 0 <= i < |certs| - 1 ==> Fits(certs, i, now, signed)
  {
    hide HasRoomFor, ValidAt, IsCa, Counted;
    var n := |certs| - 1;
    if forall i :: 0 <= i < n ==> LinkCounted(certs, i, now, signed) {
      forall i | 0 <= i < n
        ensures Fits(certs, i, now, signed)
      {
        assert LinkCounted(certs, i, now, signed);
        if i > 0 {
          assert LinkCounted(certs, i - 1, now, signed);
        }
      }
      assert LinkCounted(certs, n - 1, now, signed);
    }
    if IsCa(certs[n]) && HasRoomFor(certs[n], Counted(certs, n))
       && forall i :: 0 <= i < n ==> Fits(certs, i, now, signed) {
      forall i | 0 <= i < n
        ensures LinkCounted(certs, i, now, signed)
      {
        assert Fits(certs, i, now, signed);
        if i + 1 < n {
          assert Fits(certs, i + 1, now, signed);
        }
      }
    }
  }

  // ------------------------------------------------------------------ the code against the standard

  /** The limit covers the intermediates that count, and not all that are there. */
  predicate Contested(certs: seq<Cert>, i: nat)
    requires 0 < i < |certs|
  {
    HasRoomFor(certs[i], Counted(certs, i)) && !HasRoomFor(certs[i], i - 1)
  }

  /** The code accepts what the standard accepts, except where a self-issued intermediate decides: it lets none of
      them off the count. */
  lemma {:induction false} BottomUpAgainstTopDown(certs: seq<Cert>, now: Time, signed: Signatures)
    requires certs != []
    ensures BottomUp(certs, now, signed) <==>
      TopDown(certs, now, signed) && forall i :: 0 < i < |certs| ==> !Contested(certs, i)
  {
    TopDownExact(certs, now, signed);
    hide TopDown, ValidAt, IsCa, Counted;
    var n := |certs| - 1;
    if BottomUp(certs, now, signed) {
      forall i | 0 <= i < n
        ensures LinkCounted(certs, i, now, signed) && !Contested(certs, i + 1)
      {
        assert LinkHolds(certs, i, now, signed);
      }
      forall i | 0 < i < |certs|
        ensures !Contested(certs, i)
      {
        assert LinkHolds(certs, i - 1, now, signed);
      }
    }
    if TopDown(certs, now, signed) && forall i :: 0 < i < |certs| ==> !Contested(certs, i) {
      forall i | 0 <= i < n
        ensures LinkHolds(certs, i, now, signed)
      {
        assert LinkCounted(certs, i, now, signed) && !Contested(certs, i + 1);
      }
    }
  }

  predicate NoSelfIssuedIntermediates(certs: seq<Cert>) {
    forall i :: 0 < i < |certs| - 1 ==> !certs[i].selfIssued
  }

  lemma {:induction false} AllCounted(certs: seq<Cert>, k: nat)
    requires NoSelfIssuedIntermediates(certs) && 0 < k < |certs|
    ensures Counted(certs, k) == k - 1
  {
    if k > 1 {
      AllCounted(certs, k - 1);
    }
  }

  /** Counting up from the leaf is counting down from the anchor. */
  lemma {:induction false} PathLengthRefinement(certs: seq<Cert>, now: Time, signed: Signatures)
    requires certs != [] && NoSelfIssuedIntermediates(certs)
    ensures BottomUp(certs, now, signed) <==> TopDown(certs, now, signed)
  {
    BottomUpAgainstTopDown(certs, now, signed);
    forall i | 0 < i < |certs|
      ensures !Contested(certs, i)
    {
      AllCounted(certs, i);
    }
  }

  /** A self-issued intermediate is enough to part them. */
  lemma {:induction false} SelfIssuedParts() returns (certs: seq<Cert>, signed: Signatures)
    ensures certs != [] && TopDown(certs, 0, signed) && !BottomUp(certs, 0, signed)
  {
    var leaf := Cert(0, 0, 0, false, Readable(None, None, None));
    var rollover := Cert(1, 0, 0, true, Readable(Some(true), None, None));
    var anchor := Cert(2, 0, 0, true, Readable(Some(true), Some(0), None));
    certs, signed := [leaf, rollover, anchor], (c: Cert, i: Cert) => true;
    assert Process(certs, 0, 0, 0, signed);
    assert Process(certs, 1, 0, 0, signed);
    assert !LinkHolds(certs, 1, 0, signed);
  }

  /** An accepted chain is a path from a trusted root by section 6.1, and only CAs issue on it. */
  lemma {:induction false} AcceptedIsValidated(chain: seq<Cert>, roots: seq<Cert>, now: Time, signed: Signatures)
    requires chain != [] && Accepts(chain, roots, now, signed)
    ensures exists root :: root in roots && TopDown(Anchored(chain, root), now, signed)
    ensures forall i :: 0 < i < |chain| ==> IsCa(chain[i])
    ensures chain[|chain| - 1] in roots
      || exists root :: root in roots && IsCa(root) && signed(chain[|chain| - 1], root)
  {
    hide TopDown;
    var k :| 0 <= k < |roots| && BottomUp(Anchored(chain, roots[k]), now, signed);
    AnchoredKeepsChain(chain, roots[k], now, signed);
    AnchoredBottomUp(chain, roots[k], now, signed);
    BottomUpAgainstTopDown(Anchored(chain, roots[k]), now, signed);
    assert roots[k] in roots;
    forall i | 0 < i < |chain|
      ensures IsCa(chain[i])
    {
      assert LinkHolds(chain, i - 1, now, signed);
    }
  }

  /** Without self-issued intermediates and unreadable roots, trust is exactly section 6.1 from some trusted root. */
  lemma {:induction false} AcceptedExactly(chain: seq<Cert>, roots: seq<Cert>, now: Time, signed: Signatures)
    requires chain != []
    requires forall r :: r in roots ==> r.extensions.Readable? && NoSelfIssuedIntermediates(Anchored(chain, r))
    ensures Accepts(chain, roots, now, signed) <==> exists r :: r in roots && TopDown(Anchored(chain, r), now, signed)
  {
    hide TopDown, BottomUp, Anchored, NoSelfIssuedIntermediates;
    forall r | r in roots
      ensures BottomUp(Anchored(chain, r), now, signed) <==> TopDown(Anchored(chain, r), now, signed)
    {
      PathLengthRefinement(Anchored(chain, r), now, signed);
    }
    if r :| r in roots && TopDown(Anchored(chain, r), now, signed) {
      var k :| 0 <= k < |roots| && roots[k] == r;
      assert BottomUp(Anchored(chain, roots[k]), now, signed);
    }
    if Accepts(chain, roots, now, signed) {
      var k :| 0 <= k < |roots| && BottomUp(Anchored(chain, roots[k]), now, signed);
      assert roots[k] in roots;
    }
  }
}
