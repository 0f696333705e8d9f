/** The bound of `LeaseBound` is exact: where sessions can renew, every instant before it is served in some run. */
module LeaseExact {
  import opened Wrappers
  import opened Revocation
  import opened LeaseBound
  import C = Custody
  import K = Kbs

  /*
   Two runs reach the bound. In the first, requests checked just before the responder falls silent are signed as late
   as one request may last, presented as late as a decision lives, and buy a last cadence each. In the second, the
   session lives on answers held from before the silence until their window ends. Renewals follow each other closely
   enough that the session never lapses in between, so the runs have as many renewals as the deployment needs.
  */

  /** A deployment the source accepts (whole, positive seconds) whose session can be renewed by its broker. */
  ghost predicate Renewable(x: Setting) {
    && x.Valid()
    && x.custody.renewalKey == Some(x.kbs.renewalKey) && x.custody.manifestHash.Some?
    && x.custody.cadence >= SECOND && x.kbs.renewalTtl >= SECOND && x.kbs.liveMaxAge.value > 0
  }

  /** The last instant at which the responder still answers. */
  function Last(x: Setting): (t: Time) {
    x.silentFrom - 1
  }

  function Span(x: Setting): (n: nat) {
    x.latency + x.kbs.renewalTtl
  }

  function ReuseSpan(x: Setting): (n: nat)
    requires x.Valid()
  {
    x.kbs.liveMaxAge.value * SECOND
  }

  function Min(a: int, b: int): (m: int) {
    if a < b then a else b
  }

  // ------------------------------------------------------------------ runs

  function Empty(start: Time): (w: World) {
    World(start, map[], {}, {}, None)
  }

  ghost function After(x: Setting, w: World, events: seq<Event>): (r: World)
    requires AllAllowed(x, w, events)
    decreases |events|
  {
    if events == [] then w else After(x, Next(x, w, events[0]), events[1..])
  }

  ghost predicate Reaches(x: Setting, w: World) {
    exists start: Time, events :: AllAllowed(x, Empty(start), events) && After(x, Empty(start), events) == w
  }

  /** Some run from an empty broker serves an operation at this instant. */
  ghost predicate CanServeAt(x: Setting, t: Time) {
    exists w ::
      && Reaches(x, w) && w.clock == t
      && Allowed(x, w, Call(C.Authorize(t))) && Serves(x, w, Call(C.Authorize(t)))
  }

  lemma {:induction false} OneMore(x: Setting, w: World, events: seq<Event>, e: Event)
    requires AllAllowed(x, w, events) && Allowed(x, After(x, w, events), e)
    ensures AllAllowed(x, w, events + [e]) && After(x, w, events + [e]) == Next(x, After(x, w, events), e)
    decreases |events|
  {
    hide Next;
    var longer := events + [e];
    if events == [] {
      assert longer[1..] == [];
    } else {
      OneMore(x, Next(x, w, events[0]), events[1..], e);
      assert longer[0] == events[0] && longer[1..] == events[1..] + [e];
    }
  }

  lemma {:induction false} ReachNext(x: Setting, w: World, e: Event)
    requires Reaches(x, w) && Allowed(x, w, e)
    ensures Reaches(x, Next(x, w, e))
  {
    hide Allowed, Next;
    var start: Time, events :| AllAllowed(x, Empty(start), events) && After(x, Empty(start), events) == w;
    OneMore(x, Empty(start), events, e);
    assert AllAllowed(x, Empty(start), events + [e]);
  }

  // ------------------------------------------------------------------ nothing later

  lemma {:induction false} InvariantAfter(x: Setting, w: World, events: seq<Event>)
    requires x.Valid() && Invariant(x, w) && AllAllowed(x, w, events)
    ensures Invariant(x, After(x, w, events))
    decreases |events|
  {
    hide Invariant, Next;
    if events != [] {
      StepKeeps(x, w, events[0]);
      InvariantAfter(x, Next(x, w, events[0]), events[1..]);
    }
  }

  lemma {:induction false} NothingLater(x: Setting, t: Time)
    requires x.Valid() && CanServeAt(x, t)
    ensures t < Limit(x)
  {
    hide Allowed, Next, Serves;
    var w :| Reaches(x, w) && w.clock == t && Allowed(x, w, Call(C.Authorize(t))) && Serves(x, w, Call(C.Authorize(t)));
    var start: Time, events :| AllAllowed(x, Empty(start), events) && After(x, Empty(start), events) == w;
    assert Invariant(x, Empty(start));
    InvariantAfter(x, Empty(start), events);
    StepKeeps(x, w, Call(C.Authorize(t)));
  }

  // ------------------------------------------------------------------ requests, releases and decisions

  const PASSING: K.Gates :=
    K.Gates(true, true, true, true, true, true, true, true, true, true, true, true)

  /** The session's own request, in as many copies as there are challenges. */
  function Request(x: Setting, k: nat): (req: K.Request)
    requires x.custody.manifestHash.Some?
  {
    K.Request(C.Manifest(x.custody.manifestHash.value, x.custody.weightsHash, x.custody.cadence, x.custody.timeSource),
              C.Evidence(k, k), true, PASSING, false, None, true, false, x.kbs.maxCacheAge, Some([0, 1, 2]))
  }

  function Released(x: Setting, k: nat, end: Option<Time>): (r: K.Release)
    requires x.custody.manifestHash.Some?
  {
    K.Decide(x.kbs, Request(x, k), true, Verdict(true, end))
  }

  function Decided(x: Setting, k: nat, end: Option<Time>, signedAt: Time): (d: C.Decision)
    requires x.custody.manifestHash.Some?
    ensures d.nonce == k
  {
    K.SignRenewal(x.kbs, Request(x, k), Released(x, k, end), signedAt)
  }

  function Waiting(x: Setting, k: nat, end: Option<Time>, checkedAt: Time): (p: Pending)
    requires x.custody.manifestHash.Some?
  {
    Pending(Request(x, k), checkedAt, Released(x, k, end))
  }

  /** What is held after an answer without a next update, asked for at the last answered instant. */
  predicate HoldsLast(x: Setting, held: Cache) {
    1 in held && held[1] == Held(Good, Last(x), None)
  }

  lemma {:induction false} FreshGate(x: Setting, k: nat, held: Cache, now: Time)
    requires Renewable(x)
    ensures |[Answered(true, Good, None)]| == K.Questions(Request(x, k))
    ensures K.RevocationGate(x.kbs, Request(x, k), held, now, true, [Answered(true, Good, None)]) ==
      (Verdict(true, None), held[1 := Held(Good, now, None)])
  {
    var rs := [Answered(true, Good, None)];
    assert Asked([0, 1, 2]) == [1];
    assert [1][1..] == [] && rs[1..] == [];
  }

  lemma {:induction false} ReusedGate(x: Setting, k: nat, held: Cache, now: Time)
    requires Renewable(x) && HoldsLast(x, held) && now < Last(x) + ReuseSpan(x)
    ensures |[Unreachable]| == K.Questions(Request(x, k))
    ensures K.RevocationGate(x.kbs, Request(x, k), held, now, true, [Unreachable]) ==
      (Verdict(true, Some(Last(x) + ReuseSpan(x))), held)
  {
    var rs := [Unreachable];
    assert Asked([0, 1, 2]) == [1];
    assert [1][1..] == [] && rs[1..] == [];
    ReuseWindow(held, 1, now, x.kbs.liveMaxAge.value);
  }

  // ------------------------------------------------------------------ single events

  lemma {:induction false} DoAdvance(x: Setting, w: World, t: Time) returns (r: World)
    requires Reaches(x, w) && w.clock <= t
    ensures Reaches(x, r) && r == w.(clock := t)
  {
    r := Next(x, w, Advance(t));
    ReachNext(x, w, Advance(t));
  }

  lemma {:induction false} DoOpen(x: Setting, start: Time) returns (r: World)
    requires start <= Last(x)
    ensures Reaches(x, r) && r == Empty(start).(session := Some(C.Start(x.custody, x.key, start)))
  {
    var none: seq<Event> := [];
    assert AllAllowed(x, Empty(start), none) && After(x, Empty(start), none) == Empty(start);
    r := Next(x, Empty(start), Open);
    ReachNext(x, Empty(start), Open);
  }

  lemma {:induction false} DoCheckFresh(x: Setting, w: World, k: nat) returns (r: World)
    requires Renewable(x) && Reaches(x, w) && w.clock == Last(x)
    ensures Reaches(x, r) && HoldsLast(x, r.held)
    ensures r == w.(pending := w.pending + {Waiting(x, k, None, Last(x))}, held := r.held)
  {
    hide K.RevocationGate, K.Decide, Reaches;
    var e := Check(Request(x, k), true, true, [Answered(true, Good, None)]);
    FreshGate(x, k, w.held, w.clock);
    r := Next(x, w, e);
    ReachNext(x, w, e);
  }

  lemma {:induction false} DoCheckReused(x: Setting, w: World, k: nat) returns (r: World)
    requires Renewable(x) && Reaches(x, w) && HoldsLast(x, w.held) && w.clock < Last(x) + ReuseSpan(x)
    ensures Reaches(x, r)
    ensures r == w.(pending := w.pending + {Waiting(x, k, Some(Last(x) + ReuseSpan(x)), w.clock)})
  {
    hide K.RevocationGate, K.Decide, Reaches;
    var e := Check(Request(x, k), true, true, [Unreachable]);
    ReusedGate(x, k, w.held, w.clock);
    r := Next(x, w, e);
    ReachNext(x, w, e);
  }

  lemma {:induction false} DoSign(x: Setting, w: World, k: nat, end: Option<Time>, checkedAt: Time) returns (r: World)
    requires Renewable(x) && Reaches(x, w)
    requires Waiting(x, k, end, checkedAt) in w.pending && w.clock <= checkedAt + x.latency
    ensures Reaches(x, r) && r == w.(decisions := w.decisions + {Decided(x, k, end, w.clock)})
  {
    hide K.Decide, K.SignRenewal, Reaches;
    var e := Sign(Waiting(x, k, end, checkedAt));
    r := Next(x, w, e);
    ReachNext(x, w, e);
  }

  /** The session's view of a decision from its signing to its end. */
  lemma {:induction false} Renewed(x: Setting, s: C.Session, k: nat, end: Option<Time>, signedAt: Time, now: Time)
    requires Renewable(x) && s.holding && now < s.deadline && Decided(x, k, end, signedAt) !in s.used
    requires signedAt <= now <= signedAt + x.kbs.renewalTtl
    requires end.Some? ==> now < end.value
    ensures var d, req := Decided(x, k, end, signedAt), Request(x, k);
      C.Step(x.custody, s, C.Renew(now, req.manifest, d, req.evidence)) ==
      (s.(used := s.used + {Decided(x, k, end, signedAt)}, ops := 0,
          deadline := if end.Some? then Min(now + x.custody.cadence, end.value) else now + x.custody.cadence),
       C.Attested)
  {
    hide K.Decide, C.Bound, C.Current;
    K.ReleaseNeedsEverything(x.kbs, Request(x, k), true, Verdict(true, end));
    GrantedRenewalApplies(x.kbs, x.custody, s, Request(x, k), Verdict(true, end), signedAt, now);
  }

  lemma {:induction false} DoRenew(x: Setting, w: World, k: nat, end: Option<Time>, signedAt: Time) returns (r: World)
    requires Renewable(x) && Reaches(x, w) && Decided(x, k, end, signedAt) in w.decisions
    requires w.session.Some? && w.session.value.holding && w.clock < w.session.value.deadline
    requires Decided(x, k, end, signedAt) !in w.session.value.used
    requires signedAt <= w.clock <= signedAt + x.kbs.renewalTtl
    requires end.Some? ==> w.clock < end.value
    ensures Reaches(x, r)
    ensures var s := w.session.value;
      r == w.(session := Some(s.(used := s.used + {Decided(x, k, end, signedAt)}, ops := 0,
        deadline := if end.Some? then Min(w.clock + x.custody.cadence, end.value) else w.clock + x.custody.cadence)))
  {
    hide K.Decide, K.SignRenewal, C.Step, Reaches;
    var e := Call(C.Renew(w.clock, Request(x, k).manifest, Decided(x, k, end, signedAt), Request(x, k).evidence));
    Renewed(x, w.session.value, k, end, signedAt, w.clock);
    r := Next(x, w, e);
    ReachNext(x, w, e);
  }

  lemma {:induction false} DoServe(x: Setting, w: World, t: Time)
    requires x.Valid() && Reaches(x, w) && w.session.Some? && w.session.value.holding && w.session.value.ops == 0
    requires w.clock <= t < w.session.value.deadline
    ensures CanServeAt(x, t)
  {
    hide Reaches;
    var r := DoAdvance(x, w, t);
    assert Serves(x, r, Call(C.Authorize(t)));
  }

  // ------------------------------------------------------------------ a live session, k microseconds on

  /** `k` microseconds after the last answer the session holds a window to `end` at least, has used the decisions of
      requests up to `k` only, and has served nothing in this window. */
  ghost predicate Alive(x: Setting, w: World, k: nat, end: Time) {
    && Reaches(x, w) && w.clock == Last(x) + k
    && w.session.Some? && w.session.value.holding && w.session.value.ops == 0
    && w.session.value.deadline >= end > w.clock
    && forall d :: d in w.session.value.used ==> d.nonce <= k
  }

  // ------------------------------------------------------------------ decisions signed late

  /** Request `i` waits, checked at the last answered instant. */
  ghost predicate AllWaiting(x: Setting, w: World, n: nat)
    requires x.custody.manifestHash.Some?
  {
    forall i: nat :: i <= n ==> Waiting(x, i, None, Last(x)) in w.pending
  }

  /** The decision on request `i`, signed as late as it may be. */
  function SignedLate(x: Setting, i: nat): (d: C.Decision)
    requires x.custody.manifestHash.Some?
  {
    Decided(x, i, None, Last(x) + x.latency)
  }

  /** Requests from `x.latency` to `n` are signed at the last instant they may be. */
  ghost predicate AllSigned(x: Setting, w: World, n: nat)
    requires x.custody.manifestHash.Some?
  {
    forall i: nat :: x.latency < i <= n ==> SignedLate(x, i) in w.decisions
  }

  lemma {:induction false} OpenAndCheck(x: Setting, n: nat) returns (w: World)
    requires Renewable(x)
    ensures Alive(x, w, 0, Last(x) + x.custody.cadence) && AllWaiting(x, w, n) && HoldsLast(x, w.held)
  {
    hide Reaches, Request, Released;
    if n == 0 {
      var first := DoOpen(x, Last(x));
      w := DoCheckFresh(x, first, 0);
    } else {
      var before := OpenAndCheck(x, n - 1);
      w := DoCheckFresh(x, before, n);
    }
  }

  lemma {:induction false} SignAll(x: Setting, w: World, n: nat) returns (r: World)
    requires Renewable(x) && Reaches(x, w) && w.clock == Last(x) + x.latency && AllWaiting(x, w, n)
    ensures Reaches(x, r) && r == w.(decisions := r.decisions) && AllSigned(x, r, n)
  {
    hide Reaches, Request, Released, Decided, Waiting;
    if n == 0 {
      r := w;
    } else {
      var before := SignAll(x, w, n - 1);
      r := DoSign(x, before, n, None, Last(x));
    }
  }

  /** The state of the first run `k` microseconds after the last answer. */
  ghost predicate Late(x: Setting, w: World, k: nat)
    requires x.custody.manifestHash.Some?
  {
    && Alive(x, w, k, Last(x) + k + x.custody.cadence) && AllWaiting(x, w, Span(x))
    && (k >= x.latency ==> AllSigned(x, w, Span(x)))
  }

  lemma {:induction false} LateSettled(x: Setting, w: World, k: nat) returns (r: World)
    requires Renewable(x) && Alive(x, w, k, Last(x) + k + x.custody.cadence) && AllWaiting(x, w, Span(x))
    requires k > x.latency ==> AllSigned(x, w, Span(x))
    ensures Late(x, r, k)
  {
    hide Reaches, Request, Released, Decided, Waiting;
    if k == x.latency {
      r := SignAll(x, w, Span(x));
    } else {
      r := w;
    }
  }

  lemma {:induction false} LateReached(x: Setting, k: nat) returns (w: World)
    requires Renewable(x) && k <= Span(x)
    ensures Late(x, w, k)
    decreases k
  {
    hide Reaches, Request, Released, Decided, Waiting;
    if k == 0 {
      var first := OpenAndCheck(x, Span(x));
      w := LateSettled(x, first, 0);
    } else {
      var floor := if k <= x.latency then 0 else x.latency;
      var j: nat := if k - x.custody.cadence + 1 > floor then k - x.custody.cadence + 1 else floor;
      var before := LateReached(x, j);
      var renewed := LateStep(x, before, j, k);
      w := LateSettled(x, renewed, k);
    }
  }

  /** From one renewal to the next, before the window ends. */
  lemma {:induction false} LateStep(x: Setting, w: World, j: nat, k: nat) returns (r: World)
    requires Renewable(x) && Late(x, w, j) && j < k <= Span(x) && k < j + x.custody.cadence
    requires k <= x.latency || j >= x.latency
    ensures Alive(x, r, k, Last(x) + k + x.custody.cadence) && AllWaiting(x, r, Span(x))
    ensures k > x.latency ==> AllSigned(x, r, Span(x))
  {
    hide Reaches, Request, Released, Waiting;
    var later := DoAdvance(x, w, Last(x) + k);
    var signedAt := Last(x) + Min(k, x.latency);
    var signed := later;
    if k <= x.latency {
      signed := DoSign(x, later, k, None, Last(x));
    }
    if k > x.latency {
      assert SignedLate(x, k) in w.decisions;
    }
    assert Decided(x, k, None, signedAt).nonce == k;
    r := DoRenew(x, signed, k, None, signedAt);
  }

  // ------------------------------------------------------------------ answers held from before the silence

  /** The state of the second run: nothing outlives the reuse window. */
  ghost predicate Riding(x: Setting, w: World, k: nat)
    requires x.Valid()
  {
    Alive(x, w, k, Last(x) + Min(k + x.custody.cadence, ReuseSpan(x))) && HoldsLast(x, w.held)
  }

  lemma {:induction false} RidingReached(x: Setting, k: nat) returns (w: World)
    requires Renewable(x) && k < ReuseSpan(x)
    ensures Riding(x, w, k)
    decreases k
  {
    hide Reaches, Request, Released, Decided, Waiting;
    if k == 0 {
      w := OpenAndCheck(x, 0);
    } else {
      var j: nat := if k - x.custody.cadence + 1 > 0 then k - x.custody.cadence + 1 else 0;
      var before := RidingReached(x, j);
      w := RidingStep(x, before, j, k);
    }
  }

  lemma {:induction false} RidingStep(x: Setting, w: World, j: nat, k: nat) returns (r: World)
    requires Renewable(x) && Riding(x, w, j) && j < k < ReuseSpan(x) && k < j + x.custody.cadence
    ensures Riding(x, r, k)
  {
    hide Reaches, Request, Released;
    var end := Some(Last(x) + ReuseSpan(x));
    var later := DoAdvance(x, w, Last(x) + k);
    var checked := DoCheckReused(x, later, k);
    var signed := DoSign(x, checked, k, end, later.clock);
    assert Decided(x, k, end, later.clock).nonce == k;
    r := DoRenew(x, signed, k, end, later.clock);
  }

  // ------------------------------------------------------------------ the exact bound

  /**
   In every deployment that can renew, some run serves at an instant exactly when it lies before the last answered
   instant plus the larger of one request, one decision lifetime and one cadence, and the reuse window.
   */
  lemma {:induction false} ServedExactly(x: Setting, t: Time)
    requires Renewable(x)
    ensures CanServeAt(x, t) <==> t < Limit(x)
  {
    hide Reaches, CanServeAt, AllWaiting, AllSigned;
    if CanServeAt(x, t) {
      NothingLater(x, t);
    }
    if t <= Last(x) {
      var w := DoOpen(x, t);
      DoServe(x, w, t);
    } else if t < Last(x) + Span(x) + x.custody.cadence {
      var w := LateReached(x, Min(t - Last(x), Span(x)));
      DoServe(x, w, t);
    } else if t < Last(x) + ReuseSpan(x) {
      var w := RidingReached(x, t - Last(x));
      DoServe(x, w, t);
    }
  }

  /** The bound that leaves out the length of a request. */
  function PlainLimit(x: Setting): (t: Time)
    requires x.Valid()
  {
    x.silentFrom + Max(x.kbs.renewalTtl + x.custody.cadence, ReuseSpan(x))
  }

  /**
   "Silence plus the larger of decision lifetime and cadence, and reuse window" holds of a deployment exactly when the
   length of a request disappears in the reuse window, or is at most one microsecond.
   */
  lemma {:induction false} PlainBoundExact(x: Setting)
    requires Renewable(x)
    ensures (forall t :: CanServeAt(x, t) ==> t < PlainLimit(x))
      <==> x.latency + x.kbs.renewalTtl + x.custody.cadence
           < Max(x.kbs.renewalTtl + x.custody.cadence, ReuseSpan(x)) + 2
  {
    hide CanServeAt;
    forall t
      ensures CanServeAt(x, t) <==> t < Limit(x)
    {
      ServedExactly(x, t);
    }
    assert CanServeAt(x, Limit(x) - 1);
  }

  /** Decisions live one second, the cadence is ten, the reuse window one, and a request may take five. */
  function SlowSetting(): (x: Setting) {
    Setting(K.Config(7, SECOND, 0, Some(1), false, None, false),
            C.Config(10 * SECOND, C.SecureTsc, None, 1, Some(2), Some(7), false), [], 100 * SECOND, 5 * SECOND)
  }

  /** A deployment that still serves at the plain bound. */
  lemma {:induction false} RequestLengthCounts()
    ensures Renewable(SlowSetting()) && CanServeAt(SlowSetting(), PlainLimit(SlowSetting()))
  {
    ServedExactly(SlowSetting(), PlainLimit(SlowSetting()));
  }
}
