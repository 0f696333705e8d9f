/** What a chain's verdict rests on, said of the responses and of the answers held, and what a revocation undoes. */
module RevocationExact {
  import opened Wrappers
  import opened Revocation

  /** The links asked about in one check and the responses they got, at one instant. */
  datatype Asking = Asking(links: seq<LinkId>, responses: seq<Response>, now: Time, allowReuse: bool, maxAge: nat)

  ghost predicate Paired(q: Asking) {
    |q.responses| == |q.links|
  }

  /** The responder's own word: signed for this request, and not past the update it announces. */
  ghost predicate InTime(r: Response, now: Time) {
    r.Answered? && r.verified && (r.nextUpdate.Some? ==> now < r.nextUpdate.value)
  }

  /** The answer last verified for a link, before the `n`-th question: the newest in time, or the one held before. */
  ghost function LastVerified(held: Cache, q: Asking, n: nat, link: LinkId): (h: Option<Held>)
    requires Paired(q) && n <= |q.links|
  {
    if n == 0 then if link in held then Some(held[link]) else None
    else if q.links[n - 1] == link && InTime(q.responses[n - 1], q.now)
    then Some(Held(q.responses[n - 1].status, q.now, q.responses[n - 1].nextUpdate))
    else LastVerified(held, q, n - 1, link)
  }

  /** An answer verified earlier still stands: GOOD, inside the window counted in whole seconds, before its update. */
  ghost predicate Stands(h: Held, now: Time, maxAge: nat) {
    && h.status == Good
    && now < h.fetched + (maxAge + 1) * 1_000_000
    && (h.nextUpdate.Some? ==> now < h.nextUpdate.value)
  }

  /** Link `i` is answered GOOD in time, or nothing came back and the answer last verified for it may and does stand. */
  ghost predicate LinkPasses(held: Cache, q: Asking, i: nat)
    requires Paired(q) && i < |q.links|
  {
    var r := q.responses[i];
    var last := LastVerified(held, q, i, q.links[i]);
    || (InTime(r, q.now) && r.status == Good)
    || (r.Unreachable? && q.allowReuse && last.Some? && Stands(last.value, q.now, q.maxAge))
  }

  /** `t` is an instant past which what link `i` passed on is no longer to be leaned on. */
  ghost predicate Limits(held: Cache, q: Asking, i: nat, t: Time)
    requires Paired(q) && i < |q.links|
  {
    var r := q.responses[i];
    var last := LastVerified(held, q, i, q.links[i]);
    if r.Answered? then r.nextUpdate == Some(t)
    else last.Some? && (t == last.value.fetched + q.maxAge * 1_000_000 || last.value.nextUpdate == Some(t))
  }

  ghost predicate AllPass(held: Cache, q: Asking, n: nat)
    requires Paired(q) && n <= |q.links|
  {
    forall i :: 0 <= i < n ==> LinkPasses(held, q, i)
  }

  /** The least of the limits of the first `n` links; None when there is none. */
  ghost predicate LeastLimit(held: Cache, q: Asking, n: nat, bound: Option<Time>)
    requires Paired(q) && n <= |q.links|
  {
    && (bound.Some? ==> exists i :: 0 <= i < n && Limits(held, q, i, bound.value))
    && (forall i, t :: 0 <= i < n && Limits(held, q, i, t) ==> bound.Some? && bound.value <= t)
  }

  /** What the client holds is, link by link, the answer last verified. */
  ghost predicate HoldsLast(held: Cache, q: Asking, n: nat, now: Cache)
    requires Paired(q) && n <= |q.links|
  {
    forall link :: (if link in now then Some(now[link]) else None) == LastVerified(held, q, n, link)
  }

  // ------------------------------------------------------------------ one question

  lemma {:induction false} HoldStep(held: Cache, q: Asking, n: nat, was: Cache)
    requires Paired(q) && n < |q.links| && HoldsLast(held, q, n, was)
    ensures HoldsLast(held, q, n + 1, Hold(was, q.links[n], q.now, q.responses[n]))
  {
    var after := Hold(was, q.links[n], q.now, q.responses[n]);
    assert Usable(q.responses[n], q.now) <==> InTime(q.responses[n], q.now);
    forall link ensures (if link in after then Some(after[link]) else None) == LastVerified(held, q, n + 1, link) {
      assert (if link in was then Some(was[link]) else None) == LastVerified(held, q, n, link);
    }
  }

  /** One link of the check: it is passed over exactly when it passes, and hands on the least of its limits. */
  lemma {:induction false} AskExact(held: Cache, q: Asking, n: nat, was: Cache)
    requires Paired(q) && n < |q.links| && HoldsLast(held, q, n, was)
    ensures var a := Ask(was, q.links[n], q.now, q.allowReuse, q.responses[n], q.maxAge);
      && (a.Some? && a.value.status == Good <==> LinkPasses(held, q, n))
      && (LinkPasses(held, q, n) ==>
        && (a.value.notAfter.Some? ==> Limits(held, q, n, a.value.notAfter.value))
        && (forall t :: Limits(held, q, n, t) ==> a.value.notAfter.Some? && a.value.notAfter.value <= t))
  {
    assert (if q.links[n] in was then Some(was[q.links[n]]) else None) == LastVerified(held, q, n, q.links[n]);
    ReuseWindow(was, q.links[n], q.now, q.maxAge);
    assert Usable(q.responses[n], q.now) <==> InTime(q.responses[n], q.now);
    hide WholeSeconds;
  }

  lemma {:induction false} LeastStep(held: Cache, q: Asking, n: nat, bound: Option<Time>, next: Option<Time>)
    requires Paired(q) && n < |q.links| && LeastLimit(held, q, n, bound)
    requires next.Some? ==> Limits(held, q, n, next.value)
    requires forall t :: Limits(held, q, n, t) ==> next.Some? && next.value <= t
    ensures LeastLimit(held, q, n + 1, Earlier(bound, next))
  {
    hide Limits;
    var least := Earlier(bound, next);
    if least.Some? {
      if least == next {
        assert Limits(held, q, n, least.value);
      } else {
        assert exists i :: 0 <= i < n && Limits(held, q, i, bound.value);
      }
    }
  }

  // ------------------------------------------------------------------ the whole check

  /** The check, from question `n` on: its verdict, its bound, and how many questions were asked in all. */
  lemma {:induction false} CheckExact(held: Cache, q: Asking, n: nat, was: Cache, soFar: Option<Time>)
    returns (asked: nat)
    requires Paired(q) && n <= |q.links| && HoldsLast(held, q, n, was)
    requires AllPass(held, q, n) && LeastLimit(held, q, n, soFar)
    ensures n <= asked <= |q.links|
    ensures var (v, after) := Check(was, q.links[n..], q.now, q.allowReuse, q.responses[n..], q.maxAge, soFar);
      && (v.passed <==> AllPass(held, q, |q.links|))
      && (if v.passed then LeastLimit(held, q, |q.links|, v.notAfter) else v.notAfter == None)
      && HoldsLast(held, q, asked, after)
      && (if v.passed then asked == |q.links|
          else asked > 0 && AllPass(held, q, asked - 1) && !LinkPasses(held, q, asked - 1))
    decreases |q.links| - n
  {
    hide LinkPasses, Limits, LeastLimit, HoldsLast, Ask, Hold, Earlier;
    asked := n;
    if n < |q.links| {
      var a := Ask(was, q.links[n], q.now, q.allowReuse, q.responses[n], q.maxAge);
      HoldStep(held, q, n, was);
      AskExact(held, q, n, was);
      assert q.links[n..][0] == q.links[n] && q.responses[n..][0] == q.responses[n];
      assert q.links[n..][1..] == q.links[n + 1..] && q.responses[n..][1..] == q.responses[n + 1..];
      if LinkPasses(held, q, n) {
        LeastStep(held, q, n, soFar, a.value.notAfter);
        asked := CheckExact(held, q, n + 1, Hold(was, q.links[n], q.now, q.responses[n]),
                            Earlier(soFar, a.value.notAfter));
      } else {
        asked := n + 1;
      }
    }
  }

  /** The questions about a device chain: every link strictly between the leaf and the root. */
  ghost function Between(chain: seq<LinkId>, rs: seq<Response>, now: Time, allowReuse: bool, maxAge: nat): (q: Asking)
    requires |chain| >= 3
  {
    Asking(chain[1..|chain| - 1], rs, now, allowReuse, maxAge)
  }

  /** A chain of three or more whose every inner link passes. */
  ghost predicate ChainPasses(held: Cache, chain: seq<LinkId>, now: Time, allowReuse: bool, rs: seq<Response>,
                              maxAge: nat)
    requires |chain| >= 3 ==> |rs| == |chain| - 2
  {
    && |chain| >= 3
    && var q := Between(chain, rs, now, allowReuse, maxAge);
    forall i :: 0 <= i < |chain| - 2 ==> LinkPasses(held, q, i)
  }

  /**
   The verdict, decided: it passes exactly when every link between the leaf and the root was
   answered GOOD in time or was unreachable and had a GOOD answer that still stands, and it then
   expires at the least of the limits of what it rests on. Any other chain is refused.
   */
  lemma {:induction false} ChainExact(held: Cache, chain: seq<LinkId>, now: Time, allowReuse: bool, rs: seq<Response>,
                                      maxAge: nat)
    requires |rs| == if |chain| < 3 then 0 else |chain| - 2
    ensures |rs| == |Asked(chain)|
    ensures var v := ChainVerdict(held, chain, now, allowReuse, rs, maxAge).0;
      && (v.passed <==> ChainPasses(held, chain, now, allowReuse, rs, maxAge))
      && (if v.passed
          then LeastLimit(held, Between(chain, rs, now, allowReuse, maxAge), |chain| - 2, v.notAfter)
          else v.notAfter == None)
  {
    if |chain| >= 3 {
      var asked := ChainLeaves(held, chain, now, allowReuse, rs, maxAge);
    }
  }

  /** The same check with the number of questions it asked, and what the client holds after them. */
  lemma {:induction false} ChainLeaves(held: Cache, chain: seq<LinkId>, now: Time, allowReuse: bool,
                                       rs: seq<Response>, maxAge: nat) returns (asked: nat)
    requires |chain| >= 3 && |rs| == |chain| - 2
    ensures |rs| == |Asked(chain)| && asked <= |rs|
    ensures var q := Between(chain, rs, now, allowReuse, maxAge);
      var (v, after) := ChainVerdict(held, chain, now, allowReuse, rs, maxAge);
      && (v.passed <==> AllPass(held, q, |rs|))
      && (if v.passed then LeastLimit(held, q, |rs|, v.notAfter) else v.notAfter == None)
      && HoldsLast(held, q, asked, after)
      && (if v.passed then asked == |rs|
          else asked > 0 && AllPass(held, q, asked - 1) && !LinkPasses(held, q, asked - 1))
  {
    var q := Between(chain, rs, now, allowReuse, maxAge);
    assert q.links[0..] == Asked(chain) && rs[0..] == rs;
    asked := CheckExact(held, q, 0, held, None);
  }

  // ------------------------------------------------------------------ a revocation over runs of checks

  datatype ChainCheck = ChainCheck(chain: seq<LinkId>, now: Time, allowReuse: bool, responses: seq<Response>)

  ghost predicate WellPaired(c: ChainCheck) {
    |c.responses| == if |c.chain| < 3 then 0 else |c.chain| - 2
  }

  /** What the client holds after a run of checks. */
  ghost function After(held: Cache, checks: seq<ChainCheck>, maxAge: nat): (h: Cache)
    requires forall k :: 0 <= k < |checks| ==> WellPaired(checks[k])
  {
    if checks == [] then held
    else
      var c := checks[|checks| - 1];
      assert WellPaired(c);
      ChainVerdict(After(held, checks[..|checks| - 1], maxAge), c.chain, c.now, c.allowReuse, c.responses, maxAge).1
  }

  /** In this check the responder said in time that the link has this status, and was really asked. */
  ghost predicate Says(held: Cache, c: ChainCheck, maxAge: nat, i: nat, link: LinkId, status: Status)
    requires WellPaired(c)
  {
    && i < |c.responses|
    && c.chain[i + 1] == link
    && InTime(c.responses[i], c.now) && c.responses[i].status == status
    && AllPass(held, Between(c.chain, c.responses, c.now, c.allowReuse, maxAge), i)
  }

  ghost predicate NeverGood(held: Cache, c: ChainCheck, maxAge: nat, link: LinkId)
    requires WellPaired(c)
  {
    forall i :: !Says(held, c, maxAge, i, link, Good)
  }

  ghost predicate HeldBad(held: Cache, link: LinkId) {
    link in held && held[link].status != Good
  }

  lemma {:induction false} LastNotGood(held: Cache, c: ChainCheck, maxAge: nat, n: nat, link: LinkId)
    requires WellPaired(c) && n <= |c.responses| && HeldBad(held, link) && NeverGood(held, c, maxAge, link)
    requires |c.chain| >= 3
    requires n > 0 ==> AllPass(held, Between(c.chain, c.responses, c.now, c.allowReuse, maxAge), n - 1)
    ensures var last := LastVerified(held, Between(c.chain, c.responses, c.now, c.allowReuse, maxAge), n, link);
      last.Some? && last.value.status != Good
  {
    if n > 0 {
      LastNotGood(held, c, maxAge, n - 1, link);
      assert !Says(held, c, maxAge, n - 1, link, Good);
    }
  }

  lemma {:induction false} BadShuts(held: Cache, c: ChainCheck, maxAge: nat, i: nat, link: LinkId)
    requires WellPaired(c) && HeldBad(held, link) && NeverGood(held, c, maxAge, link)
    requires i < |c.responses| && c.chain[i + 1] == link
    requires AllPass(held, Between(c.chain, c.responses, c.now, c.allowReuse, maxAge), i)
    ensures !LinkPasses(held, Between(c.chain, c.responses, c.now, c.allowReuse, maxAge), i)
  {
    if i > 0 {
      assert AllPass(held, Between(c.chain, c.responses, c.now, c.allowReuse, maxAge), i - 1);
    }
    LastNotGood(held, c, maxAge, i, link);
    assert !Says(held, c, maxAge, i, link, Good);
  }

  /** A check that hears nothing verifiably GOOD of a link held as bad leaves it so, and does not pass through it. */
  lemma {:induction false} BadStays(held: Cache, c: ChainCheck, maxAge: nat, link: LinkId)
    requires WellPaired(c) && HeldBad(held, link) && NeverGood(held, c, maxAge, link)
    ensures |c.responses| == |Asked(c.chain)|
    ensures var (v, after) := ChainVerdict(held, c.chain, c.now, c.allowReuse, c.responses, maxAge);
      HeldBad(after, link) && (v.passed ==> forall k :: 0 < k < |c.chain| - 1 ==> c.chain[k] != link)
  {
    if |c.chain| >= 3 {
      hide ChainVerdict, Limits, LeastLimit;
      var q := Between(c.chain, c.responses, c.now, c.allowReuse, maxAge);
      var asked := ChainLeaves(held, c.chain, c.now, c.allowReuse, c.responses, maxAge);
      var (v, after) := ChainVerdict(held, c.chain, c.now, c.allowReuse, c.responses, maxAge);
      LastNotGood(held, c, maxAge, asked, link);
      assert (if link in after then Some(after[link]) else None) == LastVerified(held, q, asked, link);
      if v.passed {
        forall k | 0 < k < |c.chain| - 1 ensures c.chain[k] != link {
          assert LinkPasses(held, q, k - 1);
          if c.chain[k] == link {
            BadShuts(held, c, maxAge, k - 1, link);
          }
        }
      }
    }
  }

  /** A verified REVOKED, UNKNOWN or refused answer to a question really asked is held from then on. */
  lemma {:induction false} BadHeard(held: Cache, c: ChainCheck, maxAge: nat, i: nat, link: LinkId, status: Status)
    requires WellPaired(c) && Says(held, c, maxAge, i, link, status) && status != Good
    ensures |c.responses| == |Asked(c.chain)|
    ensures var (v, after) := ChainVerdict(held, c.chain, c.now, c.allowReuse, c.responses, maxAge);
      !v.passed && HeldBad(after, link)
  {
    hide ChainVerdict, Limits, LeastLimit;
    var q := Between(c.chain, c.responses, c.now, c.allowReuse, maxAge);
    var asked := ChainLeaves(held, c.chain, c.now, c.allowReuse, c.responses, maxAge);
    var (v, after) := ChainVerdict(held, c.chain, c.now, c.allowReuse, c.responses, maxAge);
    assert q.links[i] == link;
    assert !LinkPasses(held, q, i);
    assert (if link in after then Some(after[link]) else None) == LastVerified(held, q, asked, link);
  }

  ghost predicate NoGoodSince(held: Cache, checks: seq<ChainCheck>, maxAge: nat, a: nat, link: LinkId)
    requires forall k :: 0 <= k < |checks| ==> WellPaired(checks[k])
  {
    forall k :: a < k < |checks| ==> NeverGood(After(held, checks[..k], maxAge), checks[k], maxAge, link)
  }

  lemma {:induction false} BadSince(held: Cache, checks: seq<ChainCheck>, maxAge: nat, a: nat, link: LinkId, b: nat)
    requires forall k :: 0 <= k < |checks| ==> WellPaired(checks[k])
    requires a < b <= |checks| && NoGoodSince(held, checks, maxAge, a, link)
    requires HeldBad(After(held, checks[..a + 1], maxAge), link)
    ensures HeldBad(After(held, checks[..b], maxAge), link)
  {
    if b > a + 1 {
      hide HeldBad, NeverGood, ChainVerdict;
      assert checks[..b][..b - 1] == checks[..b - 1] && checks[..b][b - 1] == checks[b - 1];
      BadSince(held, checks, maxAge, a, link, b - 1);
      BadStays(After(held, checks[..b - 1], maxAge), checks[b - 1], maxAge, link);
    }
  }

  /**
   A revocation heard of a link holds for every chain: in any run of checks, once the responder
   has verifiably said anything but GOOD of a link, no chain with that link inside passes until
   a later check hears it verifiably GOOD, however the responder fails in between.
   */
  lemma {:induction false} RevokedLinkShutsChains(held: Cache, checks: seq<ChainCheck>, maxAge: nat, a: nat, i: nat,
                                                  link: LinkId, status: Status, b: nat)
    requires forall k :: 0 <= k < |checks| ==> WellPaired(checks[k])
    requires a < b < |checks| && status != Good
    requires Says(After(held, checks[..a], maxAge), checks[a], maxAge, i, link, status)
    requires NoGoodSince(held, checks, maxAge, a, link)
    requires exists k :: 0 < k < |checks[b].chain| - 1 && checks[b].chain[k] == link
    ensures var c := checks[b];
      !ChainVerdict(After(held, checks[..b], maxAge), c.chain, c.now, c.allowReuse, c.responses, maxAge).0.passed
  {
    hide HeldBad, NeverGood, ChainVerdict, Says;
    assert checks[..a + 1][..a] == checks[..a] && checks[..a + 1][a] == checks[a];
    BadHeard(After(held, checks[..a], maxAge), checks[a], maxAge, i, link, status);
    BadSince(held, checks, maxAge, a, link, b);
    BadStays(After(held, checks[..b], maxAge), checks[b], maxAge, link);
  }
}
