/** What the challenge store of `python/src/wcm/_challenge.py` promises over every run. */
module ChallengeSafety {
  import opened Wrappers
  import opened Challenge

  /*
   A nonce is accepted at most once, only after it was issued and not past its expiry, whatever
   the clock does; and with a clock that never runs backwards it is accepted exactly when it was
   not presented before, and the tables stay within one lifetime.
  */

  datatype Entry = Entry(call: Call, outcome: Outcome)

  function Run(ttl: int, calls: seq<Call>): (r: (Store, seq<Entry>))
    ensures |r.1| == |calls|
  {
    if calls == [] then (Store([], []), [])
    else
      var n := |calls| - 1;
      var (s, log) := Run(ttl, calls[..n]);
      var (t, outcome) := Step(ttl, s, calls[n]);
      (t, log + [Entry(calls[n], outcome)])
  }

  /** When the nonce was issued, if it was. */
  function IssuedAt(log: seq<Entry>, nonce: Nonce): (t: Option<Time>) {
    if log == [] then None
    else
      var before := IssuedAt(log[..|log| - 1], nonce);
      var e := log[|log| - 1];
      if before.Some? then before
      else if e.call.Issue? && e.call.nonce == nonce then Some(e.call.now)
      else None
  }

  predicate Takes(e: Entry, nonce: Nonce) {
    e.call.Consume? && e.call.nonce == nonce && (e.outcome == Accepted || e.outcome == Expired)
  }

  /** When the nonce was presented in time or too late, if it was. */
  function TakenAt(log: seq<Entry>, nonce: Nonce): (t: Option<Time>) {
    if log == [] then None
    else
      var before := TakenAt(log[..|log| - 1], nonce);
      var e := log[|log| - 1];
      if before.Some? then before
      else if Takes(e, nonce) then Some(e.call.now)
      else None
  }

  /** Every issued nonce is new; 256 random bits do not repeat. */
  ghost predicate FreshNonces(calls: seq<Call>) {
    forall i, j :: 0 <= i < j < |calls| && calls[i].Issue? && calls[j].Issue? ==> calls[i].nonce != calls[j].nonce
  }

  /** Open challenges are untaken and expire `ttl` after they were issued; taken nonces were issued. */
  ghost predicate Explained(ttl: int, s: Store, log: seq<Entry>) {
    && (forall i :: 0 <= i < |s.issued| ==>
          && IssuedAt(log, s.issued[i].nonce).Some?
          && s.issued[i].expiresAt == IssuedAt(log, s.issued[i].nonce).value + ttl
          && TakenAt(log, s.issued[i].nonce).None?)
    && (forall n :: TakenAt(log, n).Some? ==> IssuedAt(log, n).Some?)
  }

  // ------------------------------------------------------------------ small facts

  lemma {:induction false} PruneIssuedSuffix(s: seq<Open>, now: Time)
    ensures |PruneIssued(s, now)| <= |s| && PruneIssued(s, now) == s[|s| - |PruneIssued(s, now)|..]
    ensures PruneIssued(s, now) != [] ==> now <= PruneIssued(s, now)[0].expiresAt
  {
    if s != [] && now > s[0].expiresAt {
      PruneIssuedSuffix(s[1..], now);
      assert s[1..][|s| - 1 - |PruneIssued(s, now)|..] == s[|s| - |PruneIssued(s, now)|..];
    }
  }

  lemma {:induction false} PruneConsumedSuffix(s: seq<Spent>, now: Time)
    ensures |PruneConsumed(s, now)| <= |s| && PruneConsumed(s, now) == s[|s| - |PruneConsumed(s, now)|..]
    ensures PruneConsumed(s, now) != [] ==> now <= PruneConsumed(s, now)[0].expiresAt
  {
    if s != [] && now > s[0].expiresAt {
      PruneConsumedSuffix(s[1..], now);
      assert s[1..][|s| - 1 - |PruneConsumed(s, now)|..] == s[|s| - |PruneConsumed(s, now)|..];
    }
  }

  lemma {:induction false} IssuedInRun(ttl: int, calls: seq<Call>, nonce: Nonce)
    ensures IssuedAt(Run(ttl, calls).1, nonce).Some? <==>
      exists i :: 0 <= i < |calls| && calls[i].Issue? && calls[i].nonce == nonce
  {
    if calls != [] {
      var n := |calls| - 1;
      IssuedInRun(ttl, calls[..n], nonce);
      var (s, log) := Run(ttl, calls[..n]);
      assert Run(ttl, calls).1[..n] == log;
      assert forall i :: 0 <= i < n ==> calls[..n][i] == calls[i];
    }
  }

  lemma {:induction false} IssuedWhen(ttl: int, calls: seq<Call>, nonce: Nonce) returns (i: nat)
    requires IssuedAt(Run(ttl, calls).1, nonce).Some?
    ensures i < |calls| && calls[i].Issue? && calls[i].nonce == nonce
    ensures IssuedAt(Run(ttl, calls).1, nonce).value == calls[i].now
  {
    var n := |calls| - 1;
    var log := Run(ttl, calls[..n]).1;
    assert Run(ttl, calls).1[..n] == log;
    if IssuedAt(log, nonce).Some? {
      i := IssuedWhen(ttl, calls[..n], nonce);
    } else {
      i := n;
    }
  }

  lemma {:induction false} FreshInRun(ttl: int, calls: seq<Call>)
    requires calls != [] && FreshNonces(calls) && calls[|calls| - 1].Issue?
    ensures IssuedAt(Run(ttl, calls[..|calls| - 1]).1, calls[|calls| - 1].nonce).None?
  {
    var n := |calls| - 1;
    IssuedInRun(ttl, calls[..n], calls[n].nonce);
  }

  // ------------------------------------------------------------------ any clock

  /** A fresh nonce goes to the end of what pruning left. */
  lemma {:induction false} IssueShape(ttl: int, s: Store, log: seq<Entry>, nonce: Nonce, now: Time)
    requires Explained(ttl, s, log) && IssuedAt(log, nonce).None?
    ensures Step(ttl, s, Issue(nonce, now)).0 ==
      Store(PruneIssued(s.issued, now) + [Open(nonce, now, now + ttl)], PruneConsumed(s.consumed, now))
  {
    PruneIssuedSuffix(s.issued, now);
    var kept := PruneIssued(s.issued, now);
    assert forall k :: 0 <= k < |kept| ==> kept[k] == s.issued[|s.issued| - |kept| + k];
  }

  lemma {:induction false} Longer(log: seq<Entry>, e: Entry, nonce: Nonce)
    ensures IssuedAt(log + [e], nonce) ==
      if IssuedAt(log, nonce).Some? then IssuedAt(log, nonce)
      else if e.call.Issue? && e.call.nonce == nonce then Some(e.call.now) else None
    ensures TakenAt(log + [e], nonce) ==
      if TakenAt(log, nonce).Some? then TakenAt(log, nonce)
      else if Takes(e, nonce) then Some(e.call.now) else None
  {
    assert (log + [e])[..|log + [e]| - 1] == log;
  }

  lemma {:induction false} IssueExplained(ttl: int, s: Store, log: seq<Entry>, nonce: Nonce, now: Time)
    requires Explained(ttl, s, log) && IssuedAt(log, nonce).None?
    ensures var (t, outcome) := Step(ttl, s, Issue(nonce, now));
      Explained(ttl, t, log + [Entry(Issue(nonce, now), outcome)])
  {
    hide IssuedAt, TakenAt, PruneIssued, PruneConsumed, Put, Find;
    var (t, outcome) := Step(ttl, s, Issue(nonce, now));
    IssueShape(ttl, s, log, nonce, now);
    PruneIssuedSuffix(s.issued, now);
    forall n {
      Longer(log, Entry(Issue(nonce, now), outcome), n);
    }
  }

  lemma {:induction false} ConsumeExplained(ttl: int, s: Store, log: seq<Entry>, nonce: Nonce, now: Time)
    requires Explained(ttl, s, log) && Distinct(s.issued)
    ensures var (t, outcome) := Step(ttl, s, Consume(nonce, now));
      Explained(ttl, t, log + [Entry(Consume(nonce, now), outcome)])
  {
    hide IssuedAt, TakenAt, Find, PruneIssued, PruneConsumed, Put;
    var (t, outcome) := Step(ttl, s, Consume(nonce, now));
    forall n {
      Longer(log, Entry(Consume(nonce, now), outcome), n);
    }
  }

  ghost predicate Distinct(s: seq<Open>) {
    forall i, j :: 0 <= i < j < |s| ==> s[i].nonce != s[j].nonce
  }

  lemma {:induction false} PutDistinct(s: seq<Open>, c: Open)
    requires Distinct(s)
    ensures Distinct(Put(s, c))
  {
    var i := Find(s, c.nonce);
    if i < |s| {
      assert forall k :: 0 <= k < |s| && k != i ==> s[k].nonce != c.nonce;
    }
  }

  lemma {:induction false} StepDistinct(ttl: int, s: Store, call: Call)
    requires Distinct(s.issued)
    ensures Distinct(Step(ttl, s, call).0.issued)
  {
    hide PruneIssued, Put;
    if call.Issue? {
      PruneIssuedSuffix(s.issued, call.now);
      PutDistinct(PruneIssued(s.issued, call.now), Open(call.nonce, call.now, call.now + ttl));
    }
  }

  lemma {:induction false} RunExplained(ttl: int, calls: seq<Call>)
    requires FreshNonces(calls)
    ensures Explained(ttl, Run(ttl, calls).0, Run(ttl, calls).1) && Distinct(Run(ttl, calls).0.issued)
  {
    if calls != [] {
      var n := |calls| - 1;
      RunExplained(ttl, calls[..n]);
      var (s, log) := Run(ttl, calls[..n]);
      StepDistinct(ttl, s, calls[n]);
      if calls[n].Issue? {
        FreshInRun(ttl, calls);
        IssueExplained(ttl, s, log, calls[n].nonce, calls[n].now);
      } else {
        ConsumeExplained(ttl, s, log, calls[n].nonce, calls[n].now);
      }
    }
  }

  lemma {:induction false} RunPrefix(ttl: int, calls: seq<Call>, i: nat)
    requires i < |calls|
    ensures var log := Run(ttl, calls).1;
      var (s, before) := Run(ttl, calls[..i]);
      log[..i] == before && log[i] == Entry(calls[i], Step(ttl, s, calls[i]).1)
  {
    var n := |calls| - 1;
    var shorter := Run(ttl, calls[..n]).1;
    var log := Run(ttl, calls).1;
    assert log[..n] == shorter;
    if i < n {
      RunPrefix(ttl, calls[..n], i);
      assert calls[..n][..i] == calls[..i];
      assert log[..i] == shorter[..i];
    }
  }

  /** An accepted nonce was issued earlier in the run, is not past its expiry and was not taken before. */
  lemma {:induction false} AcceptedIsFresh(ttl: int, calls: seq<Call>, i: nat)
    requires FreshNonces(calls) && i < |calls|
    requires Run(ttl, calls).1[i].outcome == Accepted
    ensures calls[i].Consume?
    ensures var before := Run(ttl, calls).1[..i];
      && IssuedAt(before, calls[i].nonce).Some?
      && calls[i].now <= IssuedAt(before, calls[i].nonce).value + ttl
      && TakenAt(before, calls[i].nonce).None?
  {
    RunPrefix(ttl, calls, i);
    RunExplained(ttl, calls[..i]);
  }

  lemma {:induction false} TakenByIndex(log: seq<Entry>, i: nat, nonce: Nonce)
    requires i < |log| && Takes(log[i], nonce)
    ensures TakenAt(log, nonce).Some?
  {
    if i < |log| - 1 {
      TakenByIndex(log[..|log| - 1], i, nonce);
    }
  }

  /**
   Single use over every interleaving of issues and presentations, under any clock: no nonce is
   accepted twice, and a pruned nonce never comes back.
   */
  lemma {:induction false} SingleUse(ttl: int, calls: seq<Call>, i: nat, j: nat)
    requires FreshNonces(calls) && i < j < |calls|
    requires Run(ttl, calls).1[i].outcome == Accepted && Run(ttl, calls).1[j].outcome == Accepted
    ensures calls[i].nonce != calls[j].nonce
  {
    var log := Run(ttl, calls).1;
    RunPrefix(ttl, calls, i);
    AcceptedIsFresh(ttl, calls, i);
    AcceptedIsFresh(ttl, calls, j);
    TakenByIndex(log[..j], i, calls[i].nonce);
  }

  // ------------------------------------------------------------------ a clock that never runs backwards

  ghost predicate Steady(calls: seq<Call>) {
    forall i, j :: 0 <= i < j < |calls| ==> calls[i].now <= calls[j].now
  }

  /** Open challenges are in the order of their expiry, none issued after `clock`. */
  ghost predicate IssuedInOrder(ttl: int, s: seq<Open>, clock: Time) {
    && (forall i, j :: 0 <= i < j < |s| ==> s[i].expiresAt <= s[j].expiresAt)
    && (forall i :: 0 <= i < |s| ==> s[i].expiresAt <= clock + ttl)
  }

  /** The nonce was taken at or before `clock` and not before it was issued. */
  ghost predicate TakenBy(ttl: int, log: seq<Entry>, spent: Spent, clock: Time) {
    var t := TakenAt(log, spent.nonce);
    t.Some? && spent.expiresAt - ttl <= t.value <= clock
  }

  /** Spent entries are in the order in which they were taken. */
  ghost predicate ConsumedInOrder(ttl: int, s: seq<Spent>, log: seq<Entry>, clock: Time) {
    && (forall i :: 0 <= i < |s| ==> TakenBy(ttl, log, s[i], clock))
    && (forall i, j :: 0 <= i < j < |s| && TakenAt(log, s[j].nonce).Some? ==>
          TakenBy(ttl, log, s[i], TakenAt(log, s[j].nonce).value))
  }

  lemma {:induction false} IssueInOrder(ttl: int, s: Store, log: seq<Entry>, clock: Time, nonce: Nonce, now: Time)
    requires Explained(ttl, s, log) && IssuedAt(log, nonce).None? && clock <= now
    requires IssuedInOrder(ttl, s.issued, clock) && ConsumedInOrder(ttl, s.consumed, log, clock)
    ensures var (t, outcome) := Step(ttl, s, Issue(nonce, now));
      && IssuedInOrder(ttl, t.issued, now)
      && ConsumedInOrder(ttl, t.consumed, log + [Entry(Issue(nonce, now), outcome)], now)
  {
    hide IssuedAt, TakenAt, PruneIssued, PruneConsumed, Put, Find;
    IssueShape(ttl, s, log, nonce, now);
    PruneIssuedSuffix(s.issued, now);
    PruneConsumedSuffix(s.consumed, now);
    forall n {
      Longer(log, Entry(Issue(nonce, now), Issued), n);
    }
  }

  lemma {:induction false} ConsumeInOrder(ttl: int, s: Store, log: seq<Entry>, clock: Time, nonce: Nonce, now: Time)
    requires Explained(ttl, s, log) && clock <= now
    requires IssuedInOrder(ttl, s.issued, clock) && ConsumedInOrder(ttl, s.consumed, log, clock)
    ensures var (t, outcome) := Step(ttl, s, Consume(nonce, now));
      && IssuedInOrder(ttl, t.issued, now)
      && ConsumedInOrder(ttl, t.consumed, log + [Entry(Consume(nonce, now), outcome)], now)
  {
    hide IssuedAt, TakenAt, Find;
    var (t, outcome) := Step(ttl, s, Consume(nonce, now));
    var e := Entry(Consume(nonce, now), outcome);
    forall n {
      Longer(log, e, n);
    }
    var i := Find(s.issued, nonce);
    if !IsSpent(s.consumed, nonce) && i < |s.issued| {
      TakeInOrder(ttl, s.consumed, log, clock, e, Spent(nonce, s.issued[i].expiresAt));
    }
  }

  lemma {:induction false} TakeInOrder(ttl: int, s: seq<Spent>, log: seq<Entry>, clock: Time, e: Entry, spent: Spent)
    requires ConsumedInOrder(ttl, s, log, clock) && clock <= e.call.now
    requires Takes(e, spent.nonce) && TakenAt(log, spent.nonce).None? && spent.expiresAt - ttl <= e.call.now
    ensures ConsumedInOrder(ttl, s + [spent], log + [e], e.call.now)
  {
    hide TakenAt, Takes;
    forall n {
      Longer(log, e, n);
    }
  }

  function LastNow(calls: seq<Call>, default: Time): (t: Time) {
    if calls == [] then default else calls[|calls| - 1].now
  }

  lemma {:induction false} RunInOrder(ttl: int, calls: seq<Call>)
    requires FreshNonces(calls) && Steady(calls) && calls != []
    ensures var (s, log) := Run(ttl, calls);
      var now := calls[|calls| - 1].now;
      IssuedInOrder(ttl, s.issued, now) && ConsumedInOrder(ttl, s.consumed, log, now)
  {
    var n := |calls| - 1;
    var (s, log) := Run(ttl, calls[..n]);
    RunExplained(ttl, calls[..n]);
    var clock := LastNow(calls[..n], calls[n].now);
    if n > 0 {
      RunInOrder(ttl, calls[..n]);
    }
    if calls[n].Issue? {
      FreshInRun(ttl, calls);
      IssueInOrder(ttl, s, log, clock, calls[n].nonce, calls[n].now);
    } else {
      ConsumeInOrder(ttl, s, log, clock, calls[n].nonce, calls[n].now);
    }
  }

  // ------------------------------------------------------------------ what is accepted, from the calls alone

  /** A challenge that was issued, is still in time and was not taken is open. */
  ghost predicate KeepsLive(ttl: int, s: Store, log: seq<Entry>, clock: Time) {
    && (forall n :: IssuedAt(log, n).Some? && TakenAt(log, n).None? && clock <= IssuedAt(log, n).value + ttl ==>
          IsOpen(s, n))
    && (forall i :: 0 <= i < |s.consumed| ==> TakenAt(log, s.consumed[i].nonce).Some?)
  }

  ghost predicate IsOpen(s: Store, nonce: Nonce) {
    exists i :: 0 <= i < |s.issued| && s.issued[i].nonce == nonce
  }

  /** Pruning drops expired challenges only. */
  lemma {:induction false} PruneKeepsLive(s: seq<Open>, now: Time, i: nat)
    requires i < |s| && now <= s[i].expiresAt
    ensures s[i] in PruneIssued(s, now)
  {
    if now > s[0].expiresAt {
      PruneKeepsLive(s[1..], now, i - 1);
    }
  }

  lemma {:induction false} IssueKeepsLive(ttl: int, s: Store, log: seq<Entry>, clock: Time, nonce: Nonce, now: Time)
    requires Explained(ttl, s, log) && IssuedAt(log, nonce).None? && clock <= now && KeepsLive(ttl, s, log, clock)
    ensures var (t, outcome) := Step(ttl, s, Issue(nonce, now));
      KeepsLive(ttl, t, log + [Entry(Issue(nonce, now), outcome)], now)
  {
    hide IssuedAt, TakenAt, PruneIssued, PruneConsumed, Put, Find;
    var (t, outcome) := Step(ttl, s, Issue(nonce, now));
    var after := log + [Entry(Issue(nonce, now), outcome)];
    IssueShape(ttl, s, log, nonce, now);
    PruneConsumedSuffix(s.consumed, now);
    forall n {
      Longer(log, Entry(Issue(nonce, now), outcome), n);
    }
    forall n | IssuedAt(after, n).Some? && TakenAt(after, n).None? && now <= IssuedAt(after, n).value + ttl
      ensures IsOpen(t, n)
    {
      if IssuedAt(log, n).Some? {
        var i :| 0 <= i < |s.issued| && s.issued[i].nonce == n;
        PruneKeepsLive(s.issued, now, i);
        var kept := PruneIssued(s.issued, now);
        var j :| 0 <= j < |kept| && kept[j] == s.issued[i];
        assert t.issued[j].nonce == n;
      } else {
        assert t.issued[|t.issued| - 1].nonce == n;
      }
    }
  }

  lemma {:induction false} ConsumeKeepsLive(ttl: int, s: Store, log: seq<Entry>, clock: Time, nonce: Nonce, now: Time)
    requires Explained(ttl, s, log) && Distinct(s.issued) && clock <= now && KeepsLive(ttl, s, log, clock)
    ensures var (t, outcome) := Step(ttl, s, Consume(nonce, now));
      KeepsLive(ttl, t, log + [Entry(Consume(nonce, now), outcome)], now)
  {
    hide IssuedAt, TakenAt, Find;
    var (t, outcome) := Step(ttl, s, Consume(nonce, now));
    var after := log + [Entry(Consume(nonce, now), outcome)];
    forall n {
      Longer(log, Entry(Consume(nonce, now), outcome), n);
    }
    forall n | IssuedAt(after, n).Some? && TakenAt(after, n).None? && now <= IssuedAt(after, n).value + ttl
      ensures IsOpen(t, n)
    {
      var i :| 0 <= i < |s.issued| && s.issued[i].nonce == n;
      var at := Find(s.issued, nonce);
      assert t.issued == s.issued || (at < |s.issued| && t.issued == s.issued[..at] + s.issued[at + 1..]);
      assert t.issued[if t.issued == s.issued || i < at then i else i - 1].nonce == n;
    }
  }

  lemma {:induction false} RunKeepsLive(ttl: int, calls: seq<Call>, clock: Time)
    requires FreshNonces(calls) && Steady(calls) && (calls != [] ==> calls[|calls| - 1].now <= clock)
    ensures KeepsLive(ttl, Run(ttl, calls).0, Run(ttl, calls).1, clock)
  {
    hide Step, IssuedAt, TakenAt;
    if calls != [] {
      var n := |calls| - 1;
      var (s, log) := Run(ttl, calls[..n]);
      RunExplained(ttl, calls[..n]);
      RunKeepsLive(ttl, calls[..n], calls[n].now);
      if calls[n].Issue? {
        FreshInRun(ttl, calls);
        IssueKeepsLive(ttl, s, log, calls[n].now, calls[n].nonce, calls[n].now);
      } else {
        ConsumeKeepsLive(ttl, s, log, calls[n].now, calls[n].nonce, calls[n].now);
      }
    } else {
      EmptyKeepsLive(ttl, clock);
    }
  }

  lemma {:induction false} EmptyKeepsLive(ttl: int, clock: Time)
    ensures KeepsLive(ttl, Store([], []), [], clock)
  {
  }

  /** The outcome of one presentation, from what was issued and taken before it. */
  lemma {:induction false} OutcomeFromLog(ttl: int, calls: seq<Call>, i: nat)
    requires FreshNonces(calls) && Steady(calls) && i < |calls| && calls[i].Consume?
    ensures var (log, n) := (Run(ttl, calls).1, calls[i].nonce);
      log[i].outcome == Accepted <==>
        && IssuedAt(log[..i], n).Some? && calls[i].now <= IssuedAt(log[..i], n).value + ttl
        && TakenAt(log[..i], n).None?
  {
    hide IssuedAt, TakenAt, Find;
    RunPrefix(ttl, calls, i);
    RunExplained(ttl, calls[..i]);
    RunKeepsLive(ttl, calls[..i], calls[i].now);
    var (s, log) := Run(ttl, calls[..i]);
    var at := Find(s.issued, calls[i].nonce);
    if at < |s.issued| {
      assert s.issued[at].nonce == calls[i].nonce;
    }
  }

  /** Presented between two calls of the run. */
  predicate Presented(calls: seq<Call>, a: nat, b: nat, nonce: Nonce) {
    exists k :: a < k < b && k < |calls| && calls[k].Consume? && calls[k].nonce == nonce
  }

  /** Issued at `a`, in time at `i`, and not presented in between. */
  predicate FirstInTime(ttl: int, calls: seq<Call>, a: nat, i: nat)
    requires a < |calls| && i < |calls|
  {
    && a < i && calls[a].Issue? && calls[a].nonce == calls[i].nonce
    && calls[i].now <= calls[a].now + ttl
    && !Presented(calls, a, i, calls[i].nonce)
  }

  lemma {:induction false} TakenWhen(ttl: int, calls: seq<Call>, n: nat, nonce: Nonce) returns (b: nat)
    requires n <= |calls| && TakenAt(Run(ttl, calls).1[..n], nonce).Some?
    ensures b < n && Takes(Run(ttl, calls).1[b], nonce)
  {
    var log := Run(ttl, calls).1[..n];
    assert log[..n - 1] == Run(ttl, calls).1[..n - 1];
    if TakenAt(log[..n - 1], nonce).Some? {
      b := TakenWhen(ttl, calls, n - 1, nonce);
    } else {
      b := n - 1;
    }
  }

  /** What is accepted or expired was presented after it was issued. */
  lemma {:induction false} TakenAfterIssue(ttl: int, calls: seq<Call>, b: nat, nonce: Nonce, a: nat)
    requires FreshNonces(calls) && b < |calls| && Takes(Run(ttl, calls).1[b], nonce)
    requires a < |calls| && calls[a].Issue? && calls[a].nonce == nonce
    ensures a < b && calls[b].Consume? && calls[b].nonce == nonce
  {
    hide IssuedAt, TakenAt;
    RunPrefix(ttl, calls, b);
    RunExplained(ttl, calls[..b]);
    var i := IssuedWhen(ttl, calls[..b], nonce);
  }

  lemma {:induction false} FirstIsAccepted(ttl: int, calls: seq<Call>, a: nat, i: nat)
    requires FreshNonces(calls) && Steady(calls) && a < |calls| && i < |calls| && calls[i].Consume?
    requires FirstInTime(ttl, calls, a, i)
    ensures Run(ttl, calls).1[i].outcome == Accepted
  {
    hide IssuedAt, TakenAt, Takes;
    var log := Run(ttl, calls).1;
    var n := calls[i].nonce;
    RunPrefix(ttl, calls, i);
    assert calls[..i][a] == calls[a];
    IssuedInRun(ttl, calls[..i], n);
    var c := IssuedWhen(ttl, calls[..i], n);
    assert c == a;
    if TakenAt(log[..i], n).Some? {
      var b := TakenWhen(ttl, calls, i, n);
      TakenAfterIssue(ttl, calls, b, n, a);
    }
    OutcomeFromLog(ttl, calls, i);
  }

  /** A presentation in time, after the issue and before an accepted one, would have been taken itself. */
  lemma {:induction false} NoneBefore(ttl: int, calls: seq<Call>, a: nat, k: nat, i: nat)
    requires FreshNonces(calls) && Steady(calls) && a < k < i < |calls|
    requires calls[a].Issue? && calls[k].Consume? && calls[i].Consume?
    requires calls[a].nonce == calls[k].nonce == calls[i].nonce
    requires calls[i].now <= calls[a].now + ttl
    ensures Run(ttl, calls).1[i].outcome != Accepted
  {
    hide IssuedAt, TakenAt;
    var log := Run(ttl, calls).1;
    var n := calls[i].nonce;
    RunPrefix(ttl, calls, k);
    assert calls[..k][a] == calls[a];
    IssuedInRun(ttl, calls[..k], n);
    var c := IssuedWhen(ttl, calls[..k], n);
    OutcomeFromLog(ttl, calls, k);
    OutcomeFromLog(ttl, calls, i);
    if TakenAt(log[..k], n).Some? {
      var b := TakenWhen(ttl, calls, k, n);
      TakenByIndex(log[..i], b, n);
    } else {
      TakenByIndex(log[..i], k, n);
    }
  }

  /**
   Exactly what is accepted, from the calls alone: with a clock that never runs backwards, a
   presentation is accepted if and only if its nonce was issued before, is still in time, and was
   not presented since it was issued.
   */
  lemma {:induction false} AcceptedExactly(ttl: int, calls: seq<Call>, i: nat)
    requires FreshNonces(calls) && Steady(calls) && i < |calls|
    ensures Run(ttl, calls).1[i].outcome == Accepted <==>
      calls[i].Consume? && exists a: nat :: a < |calls| && FirstInTime(ttl, calls, a, i)
  {
    hide IssuedAt, TakenAt, Run;
    if Run(ttl, calls).1[i].outcome == Accepted {
      AcceptedIsFresh(ttl, calls, i);
      RunPrefix(ttl, calls, i);
      var a := IssuedWhen(ttl, calls[..i], calls[i].nonce);
      if Presented(calls, a, i, calls[i].nonce) {
        var k :| a < k < i && k < |calls| && calls[k].Consume? && calls[k].nonce == calls[i].nonce;
        NoneBefore(ttl, calls, a, k, i);
      }
      assert FirstInTime(ttl, calls, a, i);
    }
    if calls[i].Consume? && exists a: nat :: a < |calls| && FirstInTime(ttl, calls, a, i) {
      var a: nat :| a < |calls| && FirstInTime(ttl, calls, a, i);
      FirstIsAccepted(ttl, calls, a, i);
    }
  }

  /**
   Bounded retention: right after a challenge is issued at `now`, every spent entry was taken
   no earlier than one lifetime ago, although that table is not ordered by expiry; and every
   open challenge is unexpired exactly when the lifetime is not negative.
   */
  lemma {:induction false} BoundedRetention(ttl: int, calls: seq<Call>)
    requires FreshNonces(calls) && Steady(calls) && calls != [] && calls[|calls| - 1].Issue?
    ensures var (s, log) := Run(ttl, calls);
      var now := calls[|calls| - 1].now;
      && (ttl >= 0 <==> forall i :: 0 <= i < |s.issued| ==> now <= s.issued[i].expiresAt)
      && (forall i :: 0 <= i < |s.consumed| ==>
            TakenAt(log, s.consumed[i].nonce).Some? && now - ttl <= TakenAt(log, s.consumed[i].nonce).value)
  {
    hide IssuedAt, TakenAt, PruneIssued, PruneConsumed, Find, Put, Explained;
    var n := |calls| - 1;
    var (s0, log0) := Run(ttl, calls[..n]);
    var (s, log) := Run(ttl, calls);
    var now := calls[n].now;
    RunInOrder(ttl, calls);
    RunExplained(ttl, calls[..n]);
    FreshInRun(ttl, calls);
    IssueShape(ttl, s0, log0, calls[n].nonce, now);
    PruneIssuedSuffix(s0.issued, now);
    PruneConsumedSuffix(s0.consumed, now);
    LiveTables(ttl, s, log, now);
  }

  lemma {:induction false} LiveTables(ttl: int, s: Store, log: seq<Entry>, now: Time)
    requires IssuedInOrder(ttl, s.issued, now) && ConsumedInOrder(ttl, s.consumed, log, now)
    requires s.issued != [] && s.issued[|s.issued| - 1].expiresAt == now + ttl
    requires |s.issued| > 1 ==> now <= s.issued[0].expiresAt
    requires s.consumed != [] ==> now <= s.consumed[0].expiresAt
    ensures ttl >= 0 <==> forall i :: 0 <= i < |s.issued| ==> now <= s.issued[i].expiresAt
    ensures forall i :: 0 <= i < |s.consumed| ==>
      TakenAt(log, s.consumed[i].nonce).Some? && now - ttl <= TakenAt(log, s.consumed[i].nonce).value
  {
    hide TakenAt;
    forall i | 0 <= i < |s.consumed|
      ensures TakenAt(log, s.consumed[i].nonce).Some? && now - ttl <= TakenAt(log, s.consumed[i].nonce).value
    {
      assert TakenBy(ttl, log, s.consumed[i], now);
      assert TakenBy(ttl, log, s.consumed[0], now);
      if i > 0 {
        assert TakenBy(ttl, log, s.consumed[0], TakenAt(log, s.consumed[i].nonce).value);
      }
    }
  }
}
