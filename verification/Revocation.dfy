/**
 Model of live GPU revocation: `python/src/wcm/gpu_revocation.py`, the client that asks the
 responder about one link at a time and holds what it verified, and the chain check on top.
 */
module Revocation {
  import opened Wrappers

  /*
   The responder, the network and OCSP parsing are the `Response` each question gets. Times are
   microseconds; ages are truncated to whole seconds, as the source does.
  */

  type Time = int
  type LinkId = nat

  const SECOND: int := 1_000_000

  datatype Status = Good | Revoked | Unknown | Unauthorized

  /** What one question to the responder produced. */
  datatype Response =
    | Unreachable                    // nothing came back, or it could not be parsed
    | RefusedToAnswer                // response status UNAUTHORIZED
    | Failed                         // any other unsuccessful response status
    | Answered(verified: bool, status: Status, nextUpdate: Option<Time>)

  /** A verified answer as it is held: what it said, when it was asked for, its own limit. */
  datatype Held = Held(status: Status, fetched: Time, nextUpdate: Option<Time>)

  /** One link's state and how long it may be leaned on. */
  datatype Answer = Answer(status: Status, notAfter: Option<Time>)

  /** The chain's verdict, with the instant the evidence behind it expires. */
  datatype Verdict = Verdict(passed: bool, notAfter: Option<Time>)

  type Cache = map<LinkId, Held>

  /** Python's int() of a number of microseconds taken as seconds: truncation toward zero. */
  function WholeSeconds(d: int): (s: int)
    ensures d >= 0 ==> s * SECOND <= d < (s + 1) * SECOND
  {
    if d >= 0 then d / SECOND else -((-d) / SECOND)
  }

  function Earlier(a: Option<Time>, b: Option<Time>): (c: Option<Time>) {
    if a.None? then b
    else if b.None? then a
    else if b.value < a.value then b
    else a
  }

  /** How long a reused answer may be leaned on. */
  function ReuseBound(fetched: Time, nextUpdate: Option<Time>, maxAge: nat): (t: Time) {
    var short := fetched + maxAge * SECOND;
    if nextUpdate.Some? && nextUpdate.value < short then nextUpdate.value else short
  }

  predicate Past(limit: Option<Time>, now: Time) {
    limit.Some? && now >= limit.value
  }

  /** The held answer, if it may stand in for a fresh one. */
  function Reuse(held: Cache, link: LinkId, now: Time, maxAge: nat): (a: Option<Answer>) {
    if link !in held then None
    else
      var h := held[link];
      if WholeSeconds(now - h.fetched) > maxAge || Past(h.nextUpdate, now) then None
      else Some(Answer(h.status, Some(ReuseBound(h.fetched, h.nextUpdate, maxAge))))
  }

  /** Signed by the responder, about the link asked and for this request. */
  predicate Genuine(r: Response) {
    r.Answered? && r.verified
  }

  predicate Usable(r: Response, now: Time) {
    Genuine(r) && !Past(r.nextUpdate, now)
  }

  /** What asking about one link returns; None where the source raises GpuRevocationUnavailable. */
  function Ask(held: Cache, link: LinkId, now: Time, allowReuse: bool, r: Response, maxAge: nat)
    : (a: Option<Answer>)
  {
    match r
    case Unreachable => if allowReuse then Reuse(held, link, now, maxAge) else None
    case RefusedToAnswer => Some(Answer(Unauthorized, None))
    case Failed => None
    case Answered(_, status, nextUpdate) => if Usable(r, now) then Some(Answer(status, nextUpdate)) else None
  }

  /** What asking leaves held: every usable answer, and only those. */
  function Hold(held: Cache, link: LinkId, now: Time, r: Response): (h: Cache) {
    if Usable(r, now) then held[link := Held(r.status, now, r.nextUpdate)] else held
  }

  /** Ask about the links in turn; the first that is not GOOD ends the check. */
  function Check(held: Cache, links: seq<LinkId>, now: Time, allowReuse: bool, rs: seq<Response>, maxAge: nat,
                 soFar: Option<Time>)
    : (r: (Verdict, Cache))
    requires |rs| == |links|
    decreases |links|
  {
    if links == [] then (Verdict(true, soFar), held)
    else
      var a := Ask(held, links[0], now, allowReuse, rs[0], maxAge);
      var after := Hold(held, links[0], now, rs[0]);
      if a.None? || a.value.status != Good then (Verdict(false, None), after)
      else Check(after, links[1..], now, allowReuse, rs[1..], maxAge, Earlier(soFar, a.value.notAfter))
  }

  /** The links of a device chain that are asked about: all but the leaf and the root. */
  function Asked(chain: seq<LinkId>): (links: seq<LinkId>) {
    if |chain| < 3 then [] else chain[1..|chain| - 1]
  }

  function ChainVerdict(held: Cache, chain: seq<LinkId>, now: Time, allowReuse: bool, rs: seq<Response>, maxAge: nat)
    : (r: (Verdict, Cache))
    requires |rs| == |Asked(chain)|
  {
    if |chain| < 3 then (Verdict(false, None), held)
    else Check(held, Asked(chain), now, allowReuse, rs, maxAge, None)
  }

  // ------------------------------------------------------------------ the client in place

  class NvidiaOcspClient {
    const maxAge: nat
    var held: Cache

    constructor (maxAgeSeconds: nat)
      requires maxAgeSeconds > 0
      ensures held == map[] && maxAge == maxAgeSeconds
    {
      maxAge := maxAgeSeconds;
      held := map[];
    }

    /** None where the source raises ValueError. */
    static method Create(maxAgeSeconds: int) returns (client: Option<NvidiaOcspClient>)
      ensures client.Some? <==> maxAgeSeconds > 0
      ensures client.Some? ==> fresh(client.value) && client.value.maxAge == maxAgeSeconds && client.value.held == map[]
    {
      if maxAgeSeconds <= 0 {
        return None;
      }
      var c := new NvidiaOcspClient(maxAgeSeconds);
      return Some(c);
    }

    method StatusOf(link: LinkId, now: Time, allowReuse: bool, response: Response) returns (answer: Option<Answer>)
      modifies this
      ensures answer == Ask(old(held), link, now, allowReuse, response, maxAge)
      ensures held == Hold(old(held), link, now, response)
    {
      match response {
        case Unreachable =>
          if !allowReuse {
            return None;
          }
          answer := ReuseHeld(link, now);
        case RefusedToAnswer =>
          return Some(Answer(Unauthorized, None));
        case Failed =>
          return None;
        case Answered(verified, status, nextUpdate) =>
          if !verified {
            return None;
          }
          if nextUpdate.Some? && now >= nextUpdate.value {
            return None;
          }
          held := held[link := Held(status, now, nextUpdate)];
          return Some(Answer(status, nextUpdate));
      }
    }

    method ReuseHeld(link: LinkId, now: Time) returns (answer: Option<Answer>)
      ensures answer == Reuse(held, link, now, maxAge)
    {
      if link !in held {
        return None;
      }
      var h := held[link];
      var age := WholeSeconds(now - h.fetched);
      if age > maxAge {
        return None;
      }
      if h.nextUpdate.Some? && now >= h.nextUpdate.value {
        return None;
      }
      return Some(Answer(h.status, Some(ReuseBound(h.fetched, h.nextUpdate, maxAge))));
    }

    method CheckChain(chain: seq<LinkId>, now: Time, allowReuse: bool, responses: seq<Response>)
      returns (verdict: Verdict)
      requires |responses| == |Asked(chain)|
      modifies this
      ensures (verdict, held) == ChainVerdict(old(held), chain, now, allowReuse, responses, maxAge)
    {
      if |chain| < 3 {
        return Verdict(false, None);
      }
      var notAfter: Option<Time> := None;
      var links := Asked(chain);
      assert links[0..] == links && responses[0..] == responses;
      for i := 0 to |links|
        invariant Check(old(held), links, now, allowReuse, responses, maxAge, None)
               == Check(held, links[i..], now, allowReuse, responses[i..], maxAge, notAfter)
      {
        assert links[i..][1..] == links[i + 1..] && responses[i..][1..] == responses[i + 1..];
        var answer := StatusOf(links[i], now, allowReuse, responses[i]);
        if answer.None? || answer.value.status != Good {
          return Verdict(false, None);
        }
        if answer.value.notAfter.Some? {
          notAfter := if notAfter.None? || answer.value.notAfter.value < notAfter.value
                      then answer.value.notAfter else notAfter;
        }
      }
      return Verdict(true, notAfter);
    }
  }

  // ------------------------------------------------------------------ what a verdict rests on

  ghost predicate CacheBefore(held: Cache, limit: Time) {
    forall link :: link in held ==> held[link].fetched < limit
  }

  /** No question gets a verified answer. */
  ghost predicate Silent(rs: seq<Response>) {
    forall i :: 0 <= i < |rs| ==> !Genuine(rs[i])
  }

  lemma {:induction false} CheckCache(held: Cache, links: seq<LinkId>, now: Time, allowReuse: bool, rs: seq<Response>,
                                      maxAge: nat, soFar: Option<Time>, limit: Time)
    requires |rs| == |links| && CacheBefore(held, limit) && (now < limit || Silent(rs))
    ensures CacheBefore(Check(held, links, now, allowReuse, rs, maxAge, soFar).1, limit)
    decreases |links|
  {
    if links != [] {
      var a := Ask(held, links[0], now, allowReuse, rs[0], maxAge);
      var after := Hold(held, links[0], now, rs[0]);
      assert CacheBefore(after, limit);
      if !(a.None? || a.value.status != Good) {
        assert Silent(rs) ==> Silent(rs[1..]);
        CheckCache(after, links[1..], now, allowReuse, rs[1..], maxAge, Earlier(soFar, a.value.notAfter), limit);
      }
    }
  }

  /** A passing check's bound is no later than the bound it started from or than any link's. */
  lemma {:induction false} CheckSilent(held: Cache, links: seq<LinkId>, now: Time, allowReuse: bool, rs: seq<Response>,
                                       maxAge: nat, soFar: Option<Time>, limit: Time)
    requires |rs| == |links| && CacheBefore(held, limit) && Silent(rs)
    requires Check(held, links, now, allowReuse, rs, maxAge, soFar).0.passed
    ensures var na := Check(held, links, now, allowReuse, rs, maxAge, soFar).0.notAfter;
      && (soFar.Some? ==> na.Some? && na.value <= soFar.value)
      && (links != [] ==> na.Some? && na.value < limit + maxAge * SECOND)
    decreases |links|
  {
    if links != [] {
      var a := Ask(held, links[0], now, allowReuse, rs[0], maxAge);
      var after := Hold(held, links[0], now, rs[0]);
      var head := rs[0];
      assert !Genuine(head) && after == held;
      assert Silent(rs[1..]) by {
        assert forall i :: 0 <= i < |rs| - 1 ==> rs[1..][i] == rs[i + 1];
      }
      CheckSilent(after, links[1..], now, allowReuse, rs[1..], maxAge, Earlier(soFar, a.value.notAfter), limit);
    }
  }

  /**
   Reuse never restarts the clock: with the responder silent, a chain passes only on answers
   asked for before the silence, and the verdict expires within one window after it began.
   */
  lemma {:induction false} SilentVerdict(held: Cache, chain: seq<LinkId>, now: Time, allowReuse: bool,
                                         rs: seq<Response>,
                      maxAge: nat, limit: Time)
    requires |rs| == |Asked(chain)| && CacheBefore(held, limit) && Silent(rs)
    requires ChainVerdict(held, chain, now, allowReuse, rs, maxAge).0.passed
    ensures allowReuse
    ensures var na := ChainVerdict(held, chain, now, allowReuse, rs, maxAge).0.notAfter;
      na.Some? && na.value < limit + maxAge * SECOND
  {
    CheckSilent(held, Asked(chain), now, allowReuse, rs, maxAge, None, limit);
    var head := rs[0];
    assert !Genuine(head);
  }

  /**
   Exactly when a held answer stands in: it is held, its own next update has not come, and it was
   asked for less than one second past the window ago. Its bound ignores that second.
   */
  lemma {:induction false} ReuseWindow(held: Cache, link: LinkId, now: Time, maxAge: nat)
    ensures Reuse(held, link, now, maxAge).Some? <==>
      link in held && now < held[link].fetched + (maxAge + 1) * SECOND && !Past(held[link].nextUpdate, now)
    ensures Reuse(held, link, now, maxAge).Some? ==>
      Reuse(held, link, now, maxAge).value.notAfter ==
        Some(ReuseBound(held[link].fetched, held[link].nextUpdate, maxAge))
  {
    if link in held && now >= held[link].fetched {
      var s := WholeSeconds(now - held[link].fetched);
      if s <= maxAge {
        assert (s + 1) * SECOND <= (maxAge + 1) * SECOND;
      } else {
        assert (maxAge + 1) * SECOND <= s * SECOND;
      }
    } else if link in held {
      assert WholeSeconds(now - held[link].fetched) <= 0;
    }
  }

  /** The late second is real: for every window, an answer without a next update still stands one second less one
      microsecond past it, and is then already past the bound it is given. */
  lemma {:induction false} ReusedPastItsWindow(link: LinkId, status: Status, fetched: Time, maxAge: nat)
    ensures var now := fetched + maxAge * SECOND + SECOND - 1;
      var a := Reuse(map[link := Held(status, fetched, None)], link, now, maxAge);
      a == Some(Answer(status, Some(fetched + maxAge * SECOND))) && now > fetched + maxAge * SECOND
  {
    ReuseWindow(map[link := Held(status, fetched, None)], link, fetched + maxAge * SECOND + SECOND - 1, maxAge);
  }

  // ------------------------------------------------------------------ a revocation over runs

  datatype Question = Question(link: LinkId, now: Time, allowReuse: bool, response: Response)

  /** What is held when the `n`-th question of a run is asked. */
  function HeldAt(held: Cache, qs: seq<Question>, n: nat): (h: Cache)
    requires n <= |qs|
  {
    if n == 0 then held
    else Hold(HeldAt(held, qs, n - 1), qs[n - 1].link, qs[n - 1].now, qs[n - 1].response)
  }

  lemma {:induction false} HeldNotGood(held: Cache, link: LinkId, qs: seq<Question>, n: nat)
    requires n <= |qs| && link in held && held[link].status != Good
    requires forall i :: 0 <= i < n && qs[i].link == link && Usable(qs[i].response, qs[i].now) ==>
      qs[i].response.status != Good
    ensures link in HeldAt(held, qs, n) && HeldAt(held, qs, n)[link].status != Good
  {
    if n > 0 {
      HeldNotGood(held, link, qs, n - 1);
    }
  }

  /**
   A verified revocation replaces a held GOOD: from then on, whatever is asked and however the
   responder fails, the link is not GOOD again until the responder verifiably says so.
   */
  lemma {:induction false} RevocationSticks(held: Cache, qs: seq<Question>, n: nat, maxAge: nat)
    requires 0 < n < |qs| && qs[n].link == qs[0].link
    requires Usable(qs[0].response, qs[0].now) && qs[0].response.status == Revoked
    requires forall i :: 0 < i <= n && qs[i].link == qs[0].link && Usable(qs[i].response, qs[i].now) ==>
      qs[i].response.status != Good
    ensures var a := Ask(HeldAt(held, qs, n), qs[n].link, qs[n].now, qs[n].allowReuse, qs[n].response, maxAge);
      a.Some? ==> a.value.status != Good
  {
    var first := Hold(held, qs[0].link, qs[0].now, qs[0].response);
    HeldLater(held, qs, n);
    HeldNotGood(first, qs[0].link, qs[1..], n - 1);
  }

  lemma {:induction false} HeldLater(held: Cache, qs: seq<Question>, n: nat)
    requires 0 < n <= |qs|
    ensures HeldAt(held, qs, n) == HeldAt(Hold(held, qs[0].link, qs[0].now, qs[0].response), qs[1..], n - 1)
  {
    if n > 1 {
      HeldLater(held, qs, n - 1);
    } else {
      assert HeldAt(held, qs, 0) == held;
    }
  }
}
