/**
 Model of single-use challenges: `python/src/wcm/_challenge.py`, class `ChallengeStore`.

 The ordered tables are sequences in insertion order. Nonces are drawn by the caller (the
 source's random generator) and every call reads the clock once; calls are serialized by the
 store's lock, so a run is a sequence of calls.
 */
module Challenge {

  type Time = int
  type Nonce = nat

  datatype Open = Open(nonce: Nonce, issuedAt: Time, expiresAt: Time)
  datatype Spent = Spent(nonce: Nonce, expiresAt: Time)
  datatype Store = Store(issued: seq<Open>, consumed: seq<Spent>)

  datatype Call = Issue(nonce: Nonce, now: Time) | Consume(nonce: Nonce, now: Time)

  datatype Outcome = Issued | Accepted | Replayed | UnknownNonce | Expired

  // ------------------------------------------------------------------ what the calls do

  function PruneIssued(s: seq<Open>, now: Time): (r: seq<Open>) {
    if s == [] || now <= s[0].expiresAt then s else PruneIssued(s[1..], now)
  }

  function PruneConsumed(s: seq<Spent>, now: Time): (r: seq<Spent>) {
    if s == [] || now <= s[0].expiresAt then s else PruneConsumed(s[1..], now)
  }

  /** The position of a nonce among the open challenges, or their number. */
  function Find(s: seq<Open>, nonce: Nonce): (i: nat)
    ensures i <= |s|
    ensures i < |s| ==> s[i].nonce == nonce
    ensures forall j :: 0 <= j < i ==> s[j].nonce != nonce
  {
    if s == [] || s[0].nonce == nonce then 0 else 1 + Find(s[1..], nonce)
  }

  predicate IsSpent(s: seq<Spent>, nonce: Nonce) {
    exists i :: 0 <= i < |s| && s[i].nonce == nonce
  }

  /** Assignment into an ordered table: a present key keeps its place, a new one goes last. */
  function Put(s: seq<Open>, c: Open): (r: seq<Open>) {
    var i := Find(s, c.nonce);
    if i < |s| then s[i := c] else s + [c]
  }

  function Step(ttl: int, s: Store, call: Call): (r: (Store, Outcome)) {
    match call
    case Issue(nonce, now) =>
      (Store(Put(PruneIssued(s.issued, now), Open(nonce, now, now + ttl)), PruneConsumed(s.consumed, now)), Issued)
    case Consume(nonce, now) =>
      var i := Find(s.issued, nonce);
      if IsSpent(s.consumed, nonce) then (s, Replayed)
      else if i == |s.issued| then (s, UnknownNonce)
      else
        var c := s.issued[i];
        (Store(s.issued[..i] + s.issued[i + 1..], s.consumed + [Spent(nonce, c.expiresAt)]),
         if now > c.expiresAt then Expired else Accepted)
  }

  // ------------------------------------------------------------------ the store in place

  class ChallengeStore {
    const ttl: int
    var issued: seq<Open>
    var consumed: seq<Spent>

    ghost function Model(): (s: Store)
      reads this
    {
      Store(issued, consumed)
    }

    constructor (ttl: int)
      ensures Model() == Store([], []) && this.ttl == ttl
    {
      this.ttl := ttl;
      issued, consumed := [], [];
    }

    method Prune(now: Time)
      modifies this
      ensures issued == PruneIssued(old(issued), now)
      ensures consumed == PruneConsumed(old(consumed), now)
    {
      while issued != []
        invariant PruneIssued(issued, now) == PruneIssued(old(issued), now)
        invariant consumed == old(consumed)
        decreases |issued|
      {
        if now <= issued[0].expiresAt {
          break;
        }
        issued := issued[1..];
      }
      while consumed != []
        invariant issued == PruneIssued(old(issued), now)
        invariant PruneConsumed(consumed, now) == PruneConsumed(old(consumed), now)
        decreases |consumed|
      {
        if now <= consumed[0].expiresAt {
          break;
        }
        consumed := consumed[1..];
      }
    }

    method DoIssue(nonce: Nonce, now: Time) returns (challenge: Open)
      modifies this
      ensures (Model(), Issued) == Step(ttl, old(Model()), Issue(nonce, now))
      ensures challenge == Open(nonce, now, now + ttl)
    {
      Prune(now);
      challenge := Open(nonce, now, now + ttl);
      issued := Put(issued, challenge);
    }

    method DoConsume(nonce: Nonce, now: Time) returns (outcome: Outcome)
      modifies this
      ensures (Model(), outcome) == Step(ttl, old(Model()), Consume(nonce, now))
    {
      if IsSpent(consumed, nonce) {
        return Replayed;
      }
      var i := Find(issued, nonce);
      if i == |issued| {
        return UnknownNonce;
      }
      var challenge := issued[i];
      issued := issued[..i] + issued[i + 1..];
      consumed := consumed + [Spent(nonce, challenge.expiresAt)];
      if now > challenge.expiresAt {
        return Expired;
      }
      return Accepted;
    }
  }
}
