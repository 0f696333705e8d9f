/** Broker, revocation client and custody session as one state machine: reuse never restarts the clock. */
module LeaseBound {
  import opened Wrappers
  import opened Revocation
  import C = Custody
  import K = Kbs

  /*
   Sources: `python/src/wcm/kbs.py:381-413`, `python/src/wcm/gpu_revocation.py:374-527` and
   `python/src/wcm/custody.py:413-531`.

   All clocks are one clock that only moves forward. A renewal is two steps of the broker, the
   revocation check and the signing, because the source reads the clock at both; anything may
   happen between them. Decisions may be replayed, held back or forged in any content, except
   that nobody but the broker signs with its key.
  */

  /** A renewal request between its revocation check and its signature. */
  datatype Pending = Pending(req: K.Request, checkedAt: Time, release: K.Release)

  datatype World = World(
    clock: Time, held: Cache, pending: set<Pending>, decisions: set<C.Decision>, session: Option<C.Session>)

  /** The deployment, when the responder falls silent, and how long one renewal request may take. */
  datatype Setting = Setting(
    kbs: K.Config, custody: C.Config, key: C.Bytes, silentFrom: Time, latency: nat)
  {
    predicate Valid() {
      && custody.Valid()
      && kbs.liveMaxAge.Some?
      && (custody.renewalKey.Some? ==> custody.renewalKey.value == kbs.renewalKey)
    }
  }

  datatype Event =
    | Advance(to: Time)
    | Open
    | Check(req: K.Request, renewal: bool, nonceAccepted: bool, responses: seq<Response>)
    | Sign(request: Pending)
    | Call(call: C.Call)

  function Next(x: Setting, w: World, e: Event): (r: World)
    requires e.Check? ==> |e.responses| == K.Questions(e.req)
  {
    match e
    case Advance(to) => w.(clock := to)
    case Open => w.(session := Some(C.Start(x.custody, x.key, w.clock)))
    case Check(req, renewal, nonceAccepted, rs) =>
      if !nonceAccepted then
        var denied := K.Decide(x.kbs, req, false, Verdict(false, None));
        if renewal then w.(pending := w.pending + {Pending(req, w.clock, denied)}) else w
      else
        var (verdict, held) := K.RevocationGate(x.kbs, req, w.held, w.clock, renewal, rs);
        var release := K.Decide(x.kbs, req, true, verdict);
        w.(held := held, pending := if renewal then w.pending + {Pending(req, w.clock, release)} else w.pending)
    case Sign(p) => w.(decisions := w.decisions + {K.SignRenewal(x.kbs, p.req, p.release, w.clock)})
    case Call(call) =>
      if w.session.None? then w else w.(session := Some(C.Step(x.custody, w.session.value, call).0))
  }

  /** What may happen next: time moves forward, the session starts before the silence, and so on. */
  ghost predicate Allowed(x: Setting, w: World, e: Event) {
    match e
    case Advance(to) => w.clock <= to
    case Open => w.session.None? && w.clock < x.silentFrom
    case Check(req, renewal, nonceAccepted, rs) =>
      && |rs| == K.Questions(req) && req.revocationRequired
      && (w.clock >= x.silentFrom ==> Silent(rs))
    case Sign(p) => p in w.pending && w.clock <= p.checkedAt + x.latency
    case Call(call) =>
      && !call.Reattest?
      && (!call.Zeroize? ==> call.now == w.clock)
      && (call.Renew? && call.decision.signedBy == x.kbs.renewalKey ==> call.decision in w.decisions)
  }

  predicate Serves(x: Setting, w: World, e: Event) {
    e.Call? && w.session.Some? && C.Step(x.custody, w.session.value, e.call).1 == C.Served
  }

  ghost predicate AllAllowed(x: Setting, w: World, events: seq<Event>)
    decreases |events|
  {
    events == [] || (Allowed(x, w, events[0]) && AllAllowed(x, Next(x, w, events[0]), events[1..]))
  }

  function Max(a: int, b: int): (m: int) {
    if a < b then b else a
  }

  /**
   The first instant from which on nothing can be served. The last question that was answered is
   one microsecond older than the silence, and so is everything that rests on it.
   */
  function Limit(x: Setting): (t: Time)
    requires x.Valid()
  {
    x.silentFrom - 1 + Max(x.latency + x.kbs.renewalTtl + x.custody.cadence, x.kbs.liveMaxAge.value * SECOND)
  }

  ghost predicate NeverServesLate(x: Setting, w: World, events: seq<Event>)
    requires x.Valid() && AllAllowed(x, w, events)
    decreases |events|
  {
    events != [] ==>
      && (Serves(x, w, events[0]) ==> w.clock < Limit(x))
      && NeverServesLate(x, Next(x, w, events[0]), events[1..])
  }

  // ------------------------------------------------------------------ what every step keeps

  /** A release that passed rests on an answer from before the silence, or expires one window after it began. */
  ghost predicate Grounded(x: Setting, p: Pending)
    requires x.Valid()
  {
    p.release.released ==>
      || p.checkedAt < x.silentFrom
      || (p.release.notAfter.Some? && p.release.notAfter.value < x.silentFrom + x.kbs.liveMaxAge.value * SECOND)
  }

  /** The same of a signed decision, in terms of what it says. */
  ghost predicate Bounded(x: Setting, d: C.Decision)
    requires x.Valid()
  {
    d.renewed && d.expiresAt.At? && (d.evidenceExpiresAt.Some? ==> d.evidenceExpiresAt.value.At?) ==>
      || d.expiresAt.time < x.silentFrom + x.latency + x.kbs.renewalTtl
      || (d.evidenceExpiresAt.Some? &&
          d.evidenceExpiresAt.value.time < x.silentFrom + x.kbs.liveMaxAge.value * SECOND)
  }

  ghost predicate Invariant(x: Setting, w: World)
    requires x.Valid()
  {
    && CacheBefore(w.held, x.silentFrom)
    && (forall p :: p in w.pending ==> Grounded(x, p))
    && (forall d :: d in w.decisions ==> Bounded(x, d))
    && (w.session.Some? ==> w.session.value.deadline <= Limit(x))
  }

  lemma {:induction false} CheckKeeps(x: Setting, w: World, e: Event)
    requires x.Valid() && Invariant(x, w) && e.Check? && Allowed(x, w, e)
    ensures Invariant(x, Next(x, w, e))
  {
    hide ChainVerdict;
    var (verdict, held) := K.RevocationGate(x.kbs, e.req, w.held, w.clock, e.renewal, e.responses);
    if e.req.chain.Some? {
      var chain, maxAge := e.req.chain.value, x.kbs.liveMaxAge.value;
      ChainCache(w.held, chain, w.clock, e.renewal, e.responses, maxAge, x.silentFrom);
      if w.clock >= x.silentFrom && ChainVerdict(w.held, chain, w.clock, e.renewal, e.responses, maxAge).0.passed {
        SilentVerdict(w.held, chain, w.clock, e.renewal, e.responses, maxAge, x.silentFrom);
      }
    }
    if e.nonceAccepted {
      K.ReleaseNeedsEverything(x.kbs, e.req, true, verdict);
    }
  }

  lemma {:induction false} ChainCache(held: Cache, chain: seq<LinkId>, now: Time, allowReuse: bool, rs: seq<Response>,
                                      maxAge: nat,
                   limit: Time)
    requires |rs| == |Asked(chain)| && CacheBefore(held, limit) && (now < limit || Silent(rs))
    ensures CacheBefore(ChainVerdict(held, chain, now, allowReuse, rs, maxAge).1, limit)
  {
    CheckCache(held, Asked(chain), now, allowReuse, rs, maxAge, None, limit);
  }

  lemma {:induction false} SignKeeps(x: Setting, w: World, e: Event)
    requires x.Valid() && Invariant(x, w) && e.Sign? && Allowed(x, w, e)
    ensures Invariant(x, Next(x, w, e))
  {
    assert Grounded(x, e.request);
  }

  lemma {:induction false} CallKeeps(x: Setting, w: World, e: Event)
    requires x.Valid() && Invariant(x, w) && e.Call? && Allowed(x, w, e)
    ensures Invariant(x, Next(x, w, e))
    ensures Serves(x, w, e) ==> w.clock < Limit(x)
  {
    if e.call.Renew? && w.session.Some? && e.call.decision in w.decisions {
      assert Bounded(x, e.call.decision);
    }
  }

  lemma {:induction false} StepKeeps(x: Setting, w: World, e: Event)
    requires x.Valid() && Invariant(x, w) && Allowed(x, w, e)
    ensures Invariant(x, Next(x, w, e))
    ensures Serves(x, w, e) ==> w.clock < Limit(x)
  {
    match e
    case Check(_, _, _, _) => CheckKeeps(x, w, e);
    case Sign(_) => SignKeeps(x, w, e);
    case Call(_) => CallKeeps(x, w, e);
    case _ =>
  }

  lemma {:induction false} RunKeeps(x: Setting, w: World, events: seq<Event>)
    requires x.Valid() && Invariant(x, w) && AllAllowed(x, w, events)
    ensures NeverServesLate(x, w, events)
    decreases |events|
  {
    if events != [] {
      StepKeeps(x, w, events[0]);
      RunKeeps(x, Next(x, w, events[0]), events[1..]);
    }
  }

  /**
   In no run, from an empty broker, does the session serve at or after the last answered
   instant plus the larger of one request, one decision lifetime and one cadence, and the reuse
   window, however many renewals are tried. `LeaseExact` shows that no earlier instant will do.
   */
  lemma {:induction false} ReuseNeverRestartsTheClock(x: Setting, start: Time, events: seq<Event>)
    requires x.Valid()
    requires AllAllowed(x, World(start, map[], {}, {}, None), events)
    ensures NeverServesLate(x, World(start, map[], {}, {}, None), events)
  {
    RunKeeps(x, World(start, map[], {}, {}, None), events);
  }

  // ------------------------------------------------------------------ a granted renewal is usable

  /**
   The session accepts what the broker grants: a renewed decision signed at one instant and
   presented at another, for the evidence it was issued for, renews a live session of that
   manifest exactly from its signing to its expiry, unless its evidence had run out when it was
   signed.
   */
  lemma {:induction false} GrantedRenewalApplies(kbs: K.Config, cfg: C.Config, s: C.Session, req: K.Request,
                                                 verdict: Verdict,
                                                 signedAt: Time, now: Time)
    requires kbs.renewalTtl > 0 && s.holding && now < s.deadline
    requires K.Decide(kbs, req, true, verdict).released
    requires cfg.renewalKey == Some(kbs.renewalKey) && cfg.manifestHash == Some(req.manifest.identity)
    requires cfg.weightsHash == req.manifest.weightsHash && cfg.cadence == req.manifest.cadence
    requires cfg.timeSource == req.manifest.timeSource
    requires K.SignRenewal(kbs, req, K.Decide(kbs, req, true, verdict), signedAt) !in s.used
    ensures var d := K.SignRenewal(kbs, req, K.Decide(kbs, req, true, verdict), signedAt);
      C.Step(cfg, s, C.Renew(now, req.manifest, d, req.evidence)).1 == C.Attested
      <==> signedAt <= now <= signedAt + kbs.renewalTtl
           && (verdict.notAfter.Some? ==> now <= verdict.notAfter.value && signedAt < verdict.notAfter.value)
  {
    hide K.SweepGate;
    K.GateChecksComplete(req.gates, K.SweepGate(kbs, req), verdict.passed);
    K.ReleaseNeedsEverything(kbs, req, true, verdict);
    assert K.Decide(kbs, req, true, verdict).checks == K.GateChecks(req.gates, K.SweepGate(kbs, req), verdict.passed);
  }
}
