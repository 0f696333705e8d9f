/** Lease safety over every sequence of calls to one session (`python/src/wcm/custody.py:244-549`). */
module CustodySafety {
  import opened Wrappers
  import opened Custody

  /*
   The clock is any clock: what was logged outside the session says what the session is and what
   it still allows.
  */

  /** One call of a run, with what it returned. */
  datatype Entry = Entry(call: Call, outcome: Outcome)

  /** The session after a run, and the log of the run. */
  function Run(cfg: Config, s0: Session, calls: seq<Call>): (r: (Session, seq<Entry>))
    ensures |r.1| == |calls|
  {
    if calls == [] then (s0, [])
    else
      var n := |calls| - 1;
      var (s, log) := Run(cfg, s0, calls[..n]);
      var (t, outcome) := Step(cfg, s, calls[n]);
      (t, log + [Entry(calls[n], outcome)])
  }

  /** When the window was last opened: by the start, a re-attestation or a renewal. */
  function LastAttested(start: Time, log: seq<Entry>): (t: Time) {
    if log == [] then start
    else
      var e := log[|log| - 1];
      if e.outcome == Attested && e.call.Reattest? then e.call.now
      else if e.outcome == Attested && e.call.Renew? then e.call.now
      else LastAttested(start, log[..|log| - 1])
  }

  /** Operations served since then. */
  function ServedSince(log: seq<Entry>): (n: nat) {
    if log == [] then 0
    else
      var e := log[|log| - 1];
      if e.outcome == Attested then 0
      else ServedSince(log[..|log| - 1]) + if e.outcome == Served then 1 else 0
  }

  /** Decisions the session has burned: those that renewed it, and one whose evidence bound it could not read. */
  function Burned(cfg: Config, log: seq<Entry>): (ds: set<Decision>) {
    if log == [] then {}
    else
      var e := log[|log| - 1];
      Burned(cfg, log[..|log| - 1]) + if Burns(cfg, e) then {e.call.decision} else {}
  }

  predicate Burns(cfg: Config, e: Entry) {
    && e.call.Renew?
    && (e.outcome == Attested
        || (e.outcome == Invalid && e.call.decision.renewed && Current(e.call.decision, e.call.now)
            && Bound(cfg, e.call.manifest, e.call.decision, e.call.evidence)))
  }

  /** The end of the window an attesting call opens; a bound that cannot be read never attests. */
  function Opened(cfg: Config, call: Call): (t: Time)
    requires call.Reattest? || call.Renew?
  {
    if call.Renew? && call.decision.evidenceExpiresAt != Some(Malformed)
    then RenewedDeadline(cfg, call.decision, call.now) else call.now + cfg.cadence
  }

  /** The end of the window the last start, re-attestation or renewal opened. */
  function Window(cfg: Config, start: Time, log: seq<Entry>): (t: Time) {
    if log == [] then start + cfg.cadence
    else
      var e := log[|log| - 1];
      if e.outcome == Attested && (e.call.Reattest? || e.call.Renew?) then Opened(cfg, e.call)
      else Window(cfg, start, log[..|log| - 1])
  }

  /** The session was not wiped: never zeroized, never found lapsed by a tick, never refused as wiped. */
  predicate Alive(cfg: Config, start: Time, log: seq<Entry>) {
    log != [] ==>
      var e, before := log[|log| - 1], log[..|log| - 1];
      && Alive(cfg, start, before)
      && !e.call.Zeroize? && e.outcome != KeyWiped
      && !(e.call.Tick? && e.call.now >= Window(cfg, start, before))
  }

  /** The session a log of calls and outcomes leaves, whatever happened inside. */
  function SessionOf(cfg: Config, key: Bytes, start: Time, log: seq<Entry>): (s: Session) {
    var alive := Alive(cfg, start, log);
    Session(alive, Window(cfg, start, log), ServedSince(log), Burned(cfg, log), if alive then key else [],
            if !alive && cfg.hasStopHook then 1 else 0)
  }

  /** What one more entry does to each part of the session a log leaves. */
  lemma {:induction false} OneMore(cfg: Config, key: Bytes, start: Time, log: seq<Entry>, e: Entry)
    ensures var s, t := SessionOf(cfg, key, start, log), SessionOf(cfg, key, start, log + [e]);
      && t.holding == (s.holding && !e.call.Zeroize? && e.outcome != KeyWiped
                       && !(e.call.Tick? && e.call.now >= s.deadline))
      && t.deadline == (if e.outcome == Attested && (e.call.Reattest? || e.call.Renew?) then Opened(cfg, e.call)
                        else s.deadline)
      && t.ops == (if e.outcome == Attested then 0 else s.ops + if e.outcome == Served then 1 else 0)
      && t.used == s.used + (if Burns(cfg, e) then {e.call.decision} else {})
      && t.key == (if t.holding then key else []) && t.stops == (if !t.holding && cfg.hasStopHook then 1 else 0)
  {
    hide Opened, Burns;
    assert (log + [e])[..|log|] == log;
  }

  lemma {:induction false} StepExplained(cfg: Config, key: Bytes, start: Time, log: seq<Entry>, call: Call)
    ensures var (t, outcome) := Step(cfg, SessionOf(cfg, key, start, log), call);
      t == SessionOf(cfg, key, start, log + [Entry(call, outcome)])
  {
    hide Bound, Current, Alive, Window, ServedSince, Burned;
    OneMore(cfg, key, start, log, Entry(call, Step(cfg, SessionOf(cfg, key, start, log), call).1));
  }

  /** After every run the whole session is a function of the log. */
  lemma {:induction false} RunExplained(cfg: Config, key: Bytes, start: Time, calls: seq<Call>)
    ensures var (s, log) := Run(cfg, Start(cfg, key, start), calls); s == SessionOf(cfg, key, start, log)
  {
    if calls != [] {
      var n := |calls| - 1;
      RunExplained(cfg, key, start, calls[..n]);
      var (s, log) := Run(cfg, Start(cfg, key, start), calls[..n]);
      StepExplained(cfg, key, start, log, calls[n]);
    }
  }

  lemma {:induction false} WindowBound(cfg: Config, start: Time, log: seq<Entry>)
    ensures Window(cfg, start, log) <= LastAttested(start, log) + cfg.cadence
  {
    if log != [] {
      WindowBound(cfg, start, log[..|log| - 1]);
    }
  }

  /** A run's log up to a call is the log of the run up to that call. */
  lemma {:induction false} RunPrefix(cfg: Config, s0: Session, calls: seq<Call>, i: nat)
    requires i < |calls|
    ensures var log := Run(cfg, s0, calls).1;
      var (s, before) := Run(cfg, s0, calls[..i]);
      log[..i] == before && log[i] == Entry(calls[i], Step(cfg, s, calls[i]).1)
  {
    var n := |calls| - 1;
    var shorter := Run(cfg, s0, calls[..n]).1;
    var log := Run(cfg, s0, calls).1;
    assert log[..n] == shorter;
    if i < n {
      RunPrefix(cfg, s0, calls[..n], i);
      assert calls[..n][..i] == calls[..i];
      assert log[..i] == shorter[..i];
    }
  }

  /**
   Every authorized operation falls inside one cadence of the last start, re-attestation or
   renewal, and within the operation budget since then.
   */
  lemma {:induction false} LeaseSafety(cfg: Config, key: Bytes, start: Time, calls: seq<Call>, i: nat)
    requires i < |calls|
    requires Run(cfg, Start(cfg, key, start), calls).1[i].outcome == Served
    ensures var log := Run(cfg, Start(cfg, key, start), calls).1;
      && calls[i].Authorize?
      && calls[i].now < LastAttested(start, log[..i]) + cfg.cadence
      && (cfg.maxOperations.Some? ==> ServedSince(log[..i + 1]) <= cfg.maxOperations.value)
  {
    RunPrefix(cfg, Start(cfg, key, start), calls, i);
    RunExplained(cfg, key, start, calls[..i]);
    var log := Run(cfg, Start(cfg, key, start), calls).1;
    WindowBound(cfg, start, log[..i]);
    assert log[..i + 1][..i] == log[..i] && log[..i + 1][i] == log[i];
  }

  /** No decision renews a session twice. */
  lemma {:induction false} RenewalOnce(cfg: Config, key: Bytes, start: Time, calls: seq<Call>, i: nat, j: nat)
    requires i < j < |calls| && calls[i].Renew? && calls[j].Renew?
    requires var log := Run(cfg, Start(cfg, key, start), calls).1;
      log[i].outcome == Attested && log[j].outcome == Attested
    ensures calls[i].decision != calls[j].decision
  {
    var log := Run(cfg, Start(cfg, key, start), calls).1;
    RunPrefix(cfg, Start(cfg, key, start), calls, i);
    RunPrefix(cfg, Start(cfg, key, start), calls, j);
    RunExplained(cfg, key, start, calls[..j]);
    BurnedContains(cfg, log[..j], i);
  }

  lemma {:induction false} BurnedContains(cfg: Config, log: seq<Entry>, i: nat)
    requires i < |log| && log[i].outcome == Attested && log[i].call.Renew?
    ensures log[i].call.decision in Burned(cfg, log)
  {
    if i < |log| - 1 {
      BurnedContains(cfg, log[..|log| - 1], i);
    }
  }

  lemma {:induction false} StepMoves(cfg: Config, s: Session, call: Call)
    ensures var (t, outcome) := Step(cfg, s, call);
      outcome != Attested ==> t.deadline == s.deadline && t.ops == s.ops + if outcome == Served then 1 else 0
  {
  }

  /** Over every stretch of a run in which nothing attests, failed renewals included, the deadline stays where it was
      and the count of operations only grows. */
  lemma {:induction false} OnlyAttestingMoves(cfg: Config, s0: Session, calls: seq<Call>, i: nat)
    requires i <= |calls|
    requires forall k :: i <= k < |calls| ==> Run(cfg, s0, calls).1[k].outcome != Attested
    ensures Run(cfg, s0, calls).0.deadline == Run(cfg, s0, calls[..i]).0.deadline
    ensures Run(cfg, s0, calls).0.ops >= Run(cfg, s0, calls[..i]).0.ops
  {
    hide Step;
    var n := |calls| - 1;
    if i <= n {
      StepMoves(cfg, Run(cfg, s0, calls[..n]).0, calls[n]);
      var shorter := Run(cfg, s0, calls[..n]).1;
      assert Run(cfg, s0, calls).1[..n] == shorter && Run(cfg, s0, calls).1[n].outcome != Attested;
      assert forall k :: i <= k < n ==> shorter[k] == Run(cfg, s0, calls).1[k];
      OnlyAttestingMoves(cfg, s0, calls[..n], i);
      assert calls[..n][..i] == calls[..i];
    } else {
      assert calls[..i] == calls;
    }
  }

  /** The window stands until the next attestation. */
  lemma {:induction false} WindowStands(cfg: Config, start: Time, log: seq<Entry>, i: nat)
    requires i < |log| && forall k :: i < k < |log| ==> log[k].outcome != Attested
    ensures Window(cfg, start, log) == Window(cfg, start, log[..i + 1])
  {
    if i + 1 < |log| {
      WindowStands(cfg, start, log[..|log| - 1], i);
      assert log[..|log| - 1][..i + 1] == log[..i + 1];
    } else {
      assert log[..i + 1] == log;
    }
  }

  /**
   A renewal that rests on evidence with an end buys nothing past it: until the next attestation
   no operation is served at or after the instant the evidence expires.
   */
  lemma {:induction false} EvidenceBoundsService(cfg: Config, key: Bytes, start: Time, calls: seq<Call>, i: nat, j: nat,
                                                 end: Time)
    requires i < j < |calls| && calls[i].Renew? && calls[i].decision.evidenceExpiresAt == Some(At(end))
    requires var log := Run(cfg, Start(cfg, key, start), calls).1;
      log[i].outcome == Attested && log[j].outcome == Served && forall k :: i < k < j ==> log[k].outcome != Attested
    ensures calls[j].Authorize? && calls[j].now < end
  {
    hide SessionOf, Bound, Current;
    var s0 := Start(cfg, key, start);
    var log := Run(cfg, s0, calls).1;
    RunPrefix(cfg, s0, calls, i);
    RunPrefix(cfg, s0, calls, j);
    WindowStands(cfg, start, log[..j], i);
    assert log[..j][..i + 1] == log[..i + 1] && log[..i + 1][i] == log[i];
    DeadlineIsWindow(cfg, key, start, calls[..j]);
  }

  lemma {:induction false} DeadlineIsWindow(cfg: Config, key: Bytes, start: Time, calls: seq<Call>)
    ensures var (s, log) := Run(cfg, Start(cfg, key, start), calls); s.deadline == Window(cfg, start, log)
  {
    RunExplained(cfg, key, start, calls);
  }

  lemma {:induction false} RunFromWiped(cfg: Config, s0: Session, calls: seq<Call>)
    requires !s0.holding
    ensures Run(cfg, s0, calls).0 == s0
    ensures forall i :: 0 <= i < |calls| ==> Run(cfg, s0, calls).1[i].outcome in {Checked, KeyWiped}
  {
    if calls != [] {
      RunFromWiped(cfg, s0, calls[..|calls| - 1]);
    }
  }

  lemma {:induction false} RunConcat(cfg: Config, s0: Session, a: seq<Call>, b: seq<Call>)
    ensures Run(cfg, s0, a + b).0 == Run(cfg, Run(cfg, s0, a).0, b).0
    ensures Run(cfg, s0, a + b).1 == Run(cfg, s0, a).1 + Run(cfg, Run(cfg, s0, a).0, b).1
  {
    if b == [] {
      assert a + b == a;
    } else {
      var n := |b| - 1;
      assert (a + b)[..|a + b| - 1] == a + b[..n];
      RunConcat(cfg, s0, a, b[..n]);
    }
  }

  /**
   Wiping is final: after it, whatever is called, the key is gone, the hook has run exactly
   once, and no call serves, attests or renews.
   */
  lemma {:induction false} WipedForever(cfg: Config, key: Bytes, start: Time, a: seq<Call>, b: seq<Call>)
    requires !Run(cfg, Start(cfg, key, start), a).0.holding
    ensures var (s, log) := Run(cfg, Start(cfg, key, start), a + b);
      && !s.holding && s.key == [] && s.stops == (if cfg.hasStopHook then 1 else 0)
      && forall i :: |a| <= i < |a + b| ==> log[i].outcome in {Checked, KeyWiped}
  {
    var s0 := Start(cfg, key, start);
    RunExplained(cfg, key, start, a);
    RunConcat(cfg, s0, a, b);
    RunFromWiped(cfg, Run(cfg, s0, a).0, b);
  }

  // ------------------------------------------------------------------ when each call succeeds

  /** The check is there exactly once, and passed. */
  predicate Vouched(checks: seq<(string, bool)>, name: string) {
    exists i ::
      && 0 <= i < |checks| && checks[i] == (name, true)
      && forall j :: 0 <= j < |checks| && j != i ==> checks[j].0 != name
  }

  /** Every check of a renewal is vouched for, and no other failed or is there twice. */
  ghost predicate FullyChecked(checks: seq<(string, bool)>) {
    && Vouched(checks, "nonce_fresh") && Vouched(checks, "manifest_authorized") && Vouched(checks, "channel_binding")
    && Vouched(checks, "cpu_platform_allowed") && Vouched(checks, "assurance_tier") && Vouched(checks, "serving_image")
    && Vouched(checks, "gpu") && Vouched(checks, "memory_fingerprint") && Vouched(checks, "attestation_revocation")
    && Vouched(checks, "cpu_quote_verified") && Vouched(checks, "gpu_report_verified")
    && Vouched(checks, "key_available")
    && (forall i :: 0 <= i < |checks| ==> checks[i].1 && forall j :: 0 <= j < i ==> checks[j].0 != checks[i].0)
  }

  lemma {:induction false} VouchedByName(checks: seq<(string, bool)>, name: string)
    requires forall i, j :: 0 <= i < j < |checks| ==> checks[i].0 != checks[j].0
    requires forall i :: 0 <= i < |checks| ==> checks[i].1
    ensures Vouched(checks, name) <==> name in Names(checks)
  {
    if name in Names(checks) {
      var i :| 0 <= i < |checks| && checks[i].0 == name;
      assert checks[i] == (name, true);
    }
    if Vouched(checks, name) {
      var i :| 0 <= i < |checks| && checks[i] == (name, true);
      assert checks[i].0 in Names(checks);
    }
  }

  lemma {:induction false} ChecksExact(checks: seq<(string, bool)>)
    ensures ChecksComplete(checks) && AllPassed(checks) <==> FullyChecked(checks)
  {
    hide Vouched, Names;
    if (forall i, j :: 0 <= i < j < |checks| ==> checks[i].0 != checks[j].0)
       && forall i :: 0 <= i < |checks| ==> checks[i].1 {
      forall name
        ensures Vouched(checks, name) <==> name in Names(checks)
      {
        VouchedByName(checks, name);
      }
    }
  }

  /** A renewal of a live session, read off its arguments: the decision is the broker's, complete and in force, about
      this session, manifest and evidence, and was not used before. */
  ghost predicate RenewalDue(cfg: Config, used: set<Decision>, now: Time, m: Manifest, d: Decision, e: Evidence) {
    && cfg.renewalKey == Some(d.signedBy)
    && cfg.manifestHash == Some(m.identity) && d.manifestHash == m.identity
    && d.weightsHash == cfg.weightsHash && m.cadence == cfg.cadence && m.timeSource == cfg.timeSource
    && d.evidenceHash == e.identity && d.nonce == e.nonce
    && d.renewed && FullyChecked(d.checks) && d !in used
    && d.issuedAt.At? && d.expiresAt.At? && d.issuedAt.time < d.expiresAt.time
    && d.issuedAt.time <= now && now <= d.expiresAt.time
    && (d.evidenceExpiresAt.Some? ==> d.evidenceExpiresAt.value.At?)
  }

  /** Exactly when a renewal renews, field by field, and the window it then opens. */
  lemma {:induction false} RenewalExact(cfg: Config, s: Session, now: Time, m: Manifest, d: Decision, e: Evidence)
    ensures var (t, outcome) := Step(cfg, s, Renew(now, m, d, e));
      && (outcome == Attested <==> s.holding && now < s.deadline && RenewalDue(cfg, s.used, now, m, d, e))
      && (outcome == Attested ==>
            && t.holding && t.key == s.key && t.ops == 0 && t.used == s.used + {d}
            && t.deadline <= now + cfg.cadence
            && (d.evidenceExpiresAt.None? ==> t.deadline == now + cfg.cadence)
            && (d.evidenceExpiresAt.Some? ==>
                  var end := d.evidenceExpiresAt.value.time;
                  t.deadline <= end && (t.deadline == end || t.deadline == now + cfg.cadence)))
      && (outcome == Denied ==> !d.renewed)
      && (outcome != Attested ==> t.deadline == s.deadline && t.ops == s.ops)
  {
    hide ChecksComplete, AllPassed, FullyChecked;
    ChecksExact(d.checks);
  }

  /** In every run, the outcome of each call is decided by the log before it and the call's own arguments. */
  lemma {:induction false} OutcomesExact(cfg: Config, key: Bytes, start: Time, calls: seq<Call>, i: nat)
    requires i < |calls|
    ensures var log := Run(cfg, Start(cfg, key, start), calls).1;
      var before, call := log[..i], calls[i];
      && (call.Authorize? ==>
            (log[i].outcome == Served <==>
              && Alive(cfg, start, before) && call.now < Window(cfg, start, before)
              && (cfg.maxOperations.Some? ==> ServedSince(before) < cfg.maxOperations.value)))
      && (call.Reattest? ==>
            (log[i].outcome == Attested <==> Alive(cfg, start, before) && call.now < Window(cfg, start, before)))
      && (call.Renew? ==>
            (log[i].outcome == Attested <==>
              && Alive(cfg, start, before) && call.now < Window(cfg, start, before)
              && RenewalDue(cfg, Burned(cfg, before), call.now, call.manifest, call.decision, call.evidence)))
      && (log[i].outcome == OperationsExhausted <==>
            && call.Authorize? && Alive(cfg, start, before) && call.now < Window(cfg, start, before)
            && cfg.maxOperations.Some? && ServedSince(before) >= cfg.maxOperations.value)
      && (log[i].outcome == KeyWiped <==>
            !call.Tick? && !call.Zeroize? && !(Alive(cfg, start, before) && call.now < Window(cfg, start, before)))
  {
    hide Alive, Window, ServedSince, Burned, RenewalDue, Bound, Current;
    var s0 := Start(cfg, key, start);
    RunPrefix(cfg, s0, calls, i);
    RunExplained(cfg, key, start, calls[..i]);
    var s := Run(cfg, s0, calls[..i]).0;
    if calls[i].Renew? {
      RenewalExact(cfg, s, calls[i].now, calls[i].manifest, calls[i].decision, calls[i].evidence);
    }
  }

  /** No session is renewed in any run by a decision issued for other evidence, another manifest or another broker. */
  lemma {:induction false} RenewedForItsEvidence(cfg: Config, key: Bytes, start: Time, calls: seq<Call>, i: nat)
    requires i < |calls| && calls[i].Renew?
    requires Run(cfg, Start(cfg, key, start), calls).1[i].outcome == Attested
    ensures var d, e := calls[i].decision, calls[i].evidence;
      && d.evidenceHash == e.identity && d.nonce == e.nonce
      && cfg.renewalKey == Some(d.signedBy) && cfg.manifestHash == Some(d.manifestHash)
      && d.weightsHash == cfg.weightsHash
  {
    OutcomesExact(cfg, key, start, calls, i);
  }
}
