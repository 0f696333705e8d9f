/** Model of the key broker's gate: `python/src/wcm/kbs.py:203-413` and `:826-885`. */
module Kbs {
  import opened Wrappers
  import opened Revocation
  import RevocationExact
  import Challenge
  import Custody
  import MemorySweep

  /*
   The checks that only compare evidence with policy are inputs (`Gates`); the challenge, the
   revocation check and the renewal decision built on them are modelled in full.
  */

  /** The verdicts of the checks that read only the manifest, the evidence and the configuration. */
  datatype Gates = Gates(
    manifestAuthorized: bool, channelBinding: bool, cpuPlatform: bool, assuranceTier: bool, servingImage: bool,
    gpu: bool, platformIntegrity: bool, platformInstance: bool,
    cpuQuote: bool, gpuReport: bool, keyAvailable: bool, keySealed: bool)

  /** `chain` is None when the evidence carries no readable GPU chain. */
  datatype Request = Request(
    manifest: Custody.Manifest, evidence: Custody.Evidence, canonical: bool, gates: Gates,
    sweepRequired: bool, sweep: Option<MemorySweep.Fingerprint>,
    revocationRequired: bool, keyRevoked: bool, cacheAge: int, chain: Option<seq<LinkId>>)

  /** `liveMaxAge` is the revocation client's window in seconds, None when no client is configured. */
  datatype Config = Config(
    renewalKey: nat, renewalTtl: nat, maxCacheAge: int, liveMaxAge: Option<nat>, requireChannelBinding: bool,
    sweepKey: Option<nat>, allowLegacySweep: bool)

  datatype Release = Release(released: bool, checks: seq<(string, bool)>, notAfter: Option<Time>)

  function Questions(req: Request): (n: nat) {
    if req.chain.Some? then |Asked(req.chain.value)| else 0
  }

  /** Verdict of the revocation gate, the instant its evidence expires, and what the client then holds. */
  function RevocationGate(cfg: Config, req: Request, held: Cache, now: Time, renewal: bool, rs: seq<Response>)
    : (r: (Verdict, Cache))
    requires |rs| == Questions(req)
  {
    if !req.revocationRequired then (Verdict(true, None), held)
    else if req.keyRevoked then (Verdict(false, None), held)
    else if req.cacheAge > cfg.maxCacheAge then (Verdict(false, None), held)
    else if cfg.liveMaxAge.None? then (Verdict(true, None), held)
    else if req.chain.None? then (Verdict(false, None), held)
    else ChainVerdict(held, req.chain.value, now, renewal, rs, cfg.liveMaxAge.value)
  }

  /** The memory sweep the policy may require: a transcript for this challenge, without aliasing, by the pinned key. */
  predicate SweepGate(cfg: Config, req: Request) {
    MemorySweep.CheckFingerprint(req.sweepRequired, req.sweep, req.evidence.nonce, cfg.sweepKey, cfg.allowLegacySweep)
  }

  /** Every check that reads only the manifest, the evidence and the configuration passes. */
  predicate GatesPass(cfg: Config, g: Gates) {
    && g.manifestAuthorized && g.channelBinding && g.cpuPlatform && g.assuranceTier && g.servingImage && g.gpu
    && g.platformIntegrity && g.platformInstance && g.cpuQuote && g.gpuReport
    && g.keyAvailable && (cfg.requireChannelBinding ==> g.keySealed)
  }

  function GateChecks(g: Gates, sweep: bool, revocation: bool): (checks: seq<(string, bool)>) {
    [("nonce_fresh", true), ("manifest_authorized", g.manifestAuthorized), ("channel_binding", g.channelBinding),
     ("cpu_platform_allowed", g.cpuPlatform), ("assurance_tier", g.assuranceTier), ("serving_image", g.servingImage),
     ("gpu", g.gpu), ("memory_fingerprint", sweep), ("platform_integrity", g.platformIntegrity),
     ("platform_instance_allowed", g.platformInstance), ("attestation_revocation", revocation),
     ("cpu_quote_verified", g.cpuQuote), ("gpu_report_verified", g.gpuReport), ("key_available", g.keyAvailable)]
  }

  /** The decision once the nonce is consumed; a nonce that is not accepted ends the gate at once. */
  function Decide(cfg: Config, req: Request, nonceAccepted: bool, revocation: Verdict): (r: Release) {
    if !nonceAccepted then Release(false, [("nonce_fresh", false)], None)
    else
      var checks := GateChecks(req.gates, SweepGate(cfg, req), revocation.passed);
      var passed := Custody.AllPassed(checks);
      if passed && cfg.requireChannelBinding && !req.gates.keySealed
      then Release(false, checks + [("key_sealed", false)], revocation.notAfter)
      else Release(passed, checks, revocation.notAfter)
  }

  /** The signed renewal decision for a release decided earlier, issued at `now`. */
  function SignRenewal(cfg: Config, req: Request, release: Release, now: Time): (d: Custody.Decision) {
    var ttlEnd := now + cfg.renewalTtl;
    var expires := if release.notAfter.Some? && release.notAfter.value < ttlEnd then release.notAfter.value else ttlEnd;
    Custody.Decision(
      cfg.renewalKey, release.released, req.manifest.weightsHash, req.manifest.identity,
      req.evidence.nonce, req.evidence.identity, Custody.At(now), Custody.At(expires),
      if release.notAfter.Some? then Some(Custody.At(release.notAfter.value)) else None,
      release.checks)
  }

  // ------------------------------------------------------------------ the broker in place

  class KeyBrokerService {
    const cfg: Config
    const challenges: Challenge.ChallengeStore
    const client: NvidiaOcspClient

    constructor (cfg: Config, challenges: Challenge.ChallengeStore, client: NvidiaOcspClient)
      ensures this.cfg == cfg && this.challenges == challenges && this.client == client
    {
      this.cfg, this.challenges, this.client := cfg, challenges, client;
    }

    ghost predicate Valid() {
      cfg.liveMaxAge.Some? ==> cfg.liveMaxAge.value == client.maxAge
    }

    method CheckAttestationRevocation(req: Request, now: Time, renewal: bool, responses: seq<Response>)
      returns (verdict: Verdict)
      requires Valid() && |responses| == Questions(req)
      modifies client
      ensures (verdict, client.held) == RevocationGate(cfg, req, old(client.held), now, renewal, responses)
      ensures verdict.passed <==> RevocationClears(cfg, req, old(client.held), now, renewal, responses)
      ensures !AsksLive(cfg, req) ==> client.held == old(client.held)
    {
      RevocationGateExact(cfg, req, client.held, now, renewal, responses);
      if !req.revocationRequired {
        return Verdict(true, None);
      }
      if req.keyRevoked {
        return Verdict(false, None);
      }
      if req.cacheAge > cfg.maxCacheAge {
        return Verdict(false, None);
      }
      if cfg.liveMaxAge.None? {
        return Verdict(true, None);
      }
      if req.chain.None? {
        return Verdict(false, None);
      }
      verdict := client.CheckChain(req.chain.value, now, renewal, responses);
    }

    /**
     The gate in the source's order. An input that does not canonicalize touches nothing; any
     other presentation consumes its nonce, whatever the outcome.
     */
    method VerifyAndRelease(req: Request, consumedAt: Time, checkedAt: Time, renewal: bool, responses: seq<Response>)
      returns (release: Release)
      requires Valid() && |responses| == Questions(req)
      modifies challenges, client
      ensures !req.canonical ==>
        && release == Release(false, [("input_canonical", false)], None)
        && challenges.Model() == old(challenges.Model()) && client.held == old(client.held)
      ensures req.canonical ==>
        var (store, outcome) := Challenge.Step(challenges.ttl, old(challenges.Model()),
                                               Challenge.Consume(req.evidence.nonce, consumedAt));
        var (verdict, held) := RevocationGate(cfg, req, old(client.held), checkedAt, renewal, responses);
        && challenges.Model() == store
        && release == Decide(cfg, req, outcome == Challenge.Accepted, verdict)
        && client.held == if outcome == Challenge.Accepted then held else old(client.held)
      ensures release.released <==>
        && req.canonical
        && OpenInTime(old(challenges.Model()), req.evidence.nonce, consumedAt)
        && RevocationClears(cfg, req, old(client.held), checkedAt, renewal, responses)
        && MemorySweep.SweepPasses(req.sweepRequired, req.sweep, req.evidence.nonce, cfg.sweepKey,
                                   cfg.allowLegacySweep)
        && GatesPass(cfg, req.gates)
    {
      ReleasedExactly(cfg, req, challenges.ttl, challenges.Model(), consumedAt, client.held, checkedAt, renewal,
                      responses);
      if !req.canonical {
        return Release(false, [("input_canonical", false)], None);
      }
      var outcome := challenges.DoConsume(req.evidence.nonce, consumedAt);
      if outcome != Challenge.Accepted {
        return Release(false, [("nonce_fresh", false)], None);
      }
      var verdict := CheckAttestationRevocation(req, checkedAt, renewal, responses);
      var checks := GateChecks(req.gates, SweepGate(cfg, req), verdict.passed);
      var released := Custody.AllPassed(checks);
      if released && cfg.requireChannelBinding && !req.gates.keySealed {
        checks := checks + [("key_sealed", false)];
        released := false;
      }
      return Release(released, checks, verdict.notAfter);
    }
  }

  // ------------------------------------------------------------------ what a release rests on

  /** A key is released only for an accepted nonce, with every gate passed; the decision expires with its evidence. */
  lemma {:induction false} ReleaseNeedsEverything(cfg: Config, req: Request, nonceAccepted: bool, revocation: Verdict)
    ensures Decide(cfg, req, nonceAccepted, revocation).released <==>
      nonceAccepted && revocation.passed && SweepGate(cfg, req) && GatesPass(cfg, req.gates)
    ensures nonceAccepted ==> Decide(cfg, req, nonceAccepted, revocation).notAfter == revocation.notAfter
  {
    hide SweepGate;
    var checks := GateChecks(req.gates, SweepGate(cfg, req), revocation.passed);
    assert Custody.AllPassed(checks) <==>
      checks[0].1 && checks[1].1 && checks[2].1 && checks[3].1 && checks[4].1 && checks[5].1 && checks[6].1 &&
      checks[7].1 && checks[8].1 && checks[9].1 && checks[10].1 && checks[11].1 && checks[12].1 && checks[13].1;
  }

  // ------------------------------------------------------------------ a release, decided

  /** The vendor is asked: the policy wants a check, the configured set and its age pass, and there is a chain. */
  ghost predicate AsksLive(cfg: Config, req: Request) {
    && req.revocationRequired && !req.keyRevoked && req.cacheAge <= cfg.maxCacheAge
    && cfg.liveMaxAge.Some? && req.chain.Some?
  }

  /**
   What a required revocation check comes to: the attestation key is not revoked, the status cache
   is fresh enough, and where a client is configured every link of a readable chain passes.
   */
  ghost predicate RevocationClears(cfg: Config, req: Request, held: Cache, now: Time, renewal: bool, rs: seq<Response>)
    requires req.chain.Some? && |req.chain.value| >= 3 ==> |rs| == |req.chain.value| - 2
  {
    req.revocationRequired ==>
      && !req.keyRevoked
      && req.cacheAge <= cfg.maxCacheAge
      && (cfg.liveMaxAge.Some? ==>
            && req.chain.Some?
            && RevocationExact.ChainPasses(held, req.chain.value, now, renewal, rs, cfg.liveMaxAge.value))
  }

  /** One response a link between the leaf and the root. */
  ghost predicate OnePerLink(req: Request, rs: seq<Response>) {
    |rs| == if req.chain.Some? && |req.chain.value| >= 3 then |req.chain.value| - 2 else 0
  }

  /**
   The revocation gate, decided; its evidence expires with the chain's and is unlimited without a
   live check. A check that does not reach the vendor leaves the client as it was.
   */
  lemma {:induction false} RevocationGateExact(cfg: Config, req: Request, held: Cache, now: Time, renewal: bool,
                                               rs: seq<Response>)
    requires OnePerLink(req, rs)
    ensures |rs| == Questions(req)
    ensures var (v, after) := RevocationGate(cfg, req, held, now, renewal, rs);
      && (v.passed <==> RevocationClears(cfg, req, held, now, renewal, rs))
      && (!AsksLive(cfg, req) ==> after == held && v.notAfter == None)
      && (AsksLive(cfg, req) && v.passed ==>
            var q := RevocationExact.Between(req.chain.value, rs, now, renewal, cfg.liveMaxAge.value);
            RevocationExact.LeastLimit(held, q, |rs|, v.notAfter))
  {
    if AsksLive(cfg, req) {
      RevocationExact.ChainExact(held, req.chain.value, now, renewal, rs, cfg.liveMaxAge.value);
    }
  }

  /** The nonce is not spent and its challenge is open, in its lifetime. */
  ghost predicate OpenInTime(s: Challenge.Store, nonce: Challenge.Nonce, now: Time) {
    && (forall i :: 0 <= i < |s.consumed| ==> s.consumed[i].nonce != nonce)
    && exists i ::
      0 <= i < |s.issued| && s.issued[i].nonce == nonce && now <= s.issued[i].expiresAt
      && forall j :: 0 <= j < i ==> s.issued[j].nonce != nonce
  }

  lemma {:induction false} AcceptedExactly(ttl: int, s: Challenge.Store, nonce: Challenge.Nonce, now: Time)
    ensures Challenge.Step(ttl, s, Challenge.Consume(nonce, now)).1 == Challenge.Accepted <==> OpenInTime(s, nonce, now)
  {
    var i := Challenge.Find(s.issued, nonce);
    if i < |s.issued| {
      assert s.issued[i].nonce == nonce;
    }
  }

  /**
   A key is released exactly when the challenge is open and in time, the attestation key is not
   revoked and its chain passes, the sweep the policy wants is there, and every other gate passes.
   */
  lemma {:induction false} ReleasedExactly(cfg: Config, req: Request, ttl: int, store: Challenge.Store,
                                           consumedAt: Time, held: Cache, checkedAt: Time, renewal: bool,
                                           rs: seq<Response>)
    requires OnePerLink(req, rs)
    ensures |rs| == Questions(req)
    ensures
      var accepted :=
        Challenge.Step(ttl, store, Challenge.Consume(req.evidence.nonce, consumedAt)).1 == Challenge.Accepted;
      var verdict := RevocationGate(cfg, req, held, checkedAt, renewal, rs).0;
      Decide(cfg, req, accepted, verdict).released <==>
        && OpenInTime(store, req.evidence.nonce, consumedAt)
        && RevocationClears(cfg, req, held, checkedAt, renewal, rs)
        && MemorySweep.SweepPasses(req.sweepRequired, req.sweep, req.evidence.nonce, cfg.sweepKey,
                                   cfg.allowLegacySweep)
        && GatesPass(cfg, req.gates)
  {
    RevocationGateExact(cfg, req, held, checkedAt, renewal, rs);
    AcceptedExactly(ttl, store, req.evidence.nonce, consumedAt);
    var accepted :=
      Challenge.Step(ttl, store, Challenge.Consume(req.evidence.nonce, consumedAt)).1 == Challenge.Accepted;
    ReleaseNeedsEverything(cfg, req, accepted, RevocationGate(cfg, req, held, checkedAt, renewal, rs).0);
    MemorySweep.FingerprintExact(req.sweepRequired, req.sweep, req.evidence.nonce, cfg.sweepKey, cfg.allowLegacySweep);
    hide OpenInTime, RevocationClears, RevocationGate, GatesPass, Decide, MemorySweep.SweepPasses;
  }

  lemma {:induction false} GateChecksComplete(g: Gates, sweep: bool, revocation: bool)
    ensures Custody.ChecksComplete(GateChecks(g, sweep, revocation))
  {
    var checks := GateChecks(g, sweep, revocation);
    var names := Custody.Names(checks);
    assert checks[0].0 in names && checks[1].0 in names && checks[2].0 in names && checks[3].0 in names;
    assert checks[4].0 in names && checks[5].0 in names && checks[6].0 in names && checks[7].0 in names;
    assert checks[10].0 in names && checks[11].0 in names && checks[12].0 in names && checks[13].0 in names;
  }

  // ------------------------------------------------------------------ a release rests on a sweep

  /**
   The session sweeps its memory for the challenge and the broker decides on the transcript:
   where the policy requires the sweep and its key is pinned, a key is released exactly when no
   two pages with different values share memory and everything else passes.
   */
  method SweepAndDecide(m: MemorySweep.ProtectedMemory, key: nat, secretLength: nat, rangeStart: int,
                        draws: MemorySweep.Draws, values: seq<MemorySweep.Bytes>,
                        cfg: Config, req: Request, revocation: Verdict)
    returns (release: Release)
    requires m.Valid() && |values| == |m.frames| > 0 && secretLength >= 32 && rangeStart >= 0
    requires forall i :: 0 <= i < |values| ==> |values[i]| == m.pageSize
    requires req.sweepRequired && cfg.sweepKey == Some(key)
    modifies m.buffer
    ensures release.released <==>
      !MemorySweep.Collides(m.frames, values) && revocation.passed && GatesPass(cfg, req.gates)
    ensures MemorySweep.PagesDiffer(values) && release.released ==> MemorySweep.AliasFree(m.frames)
  {
    hide GateChecks, GatesPass;
    var nonce := req.evidence.nonce;
    var f := MemorySweep.RunMemorySweep(m, nonce, key, secretLength, rangeStart, draws, values);
    MemorySweep.TranscriptDecides(f.value, key, nonce, rangeStart, |m.frames|, m.pageSize, cfg.allowLegacySweep);
    if MemorySweep.PagesDiffer(values) {
      MemorySweep.CollisionIsAlias(m.frames, values);
    }
    var swept := req.(sweep := f);
    ReleaseNeedsEverything(cfg, swept, true, revocation);
    release := Decide(cfg, swept, true, revocation);
  }
}
