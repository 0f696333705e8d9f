/**
 Model of wipe-on-lapse custody: `python/src/wcm/custody.py`, class `EnclaveSession`.

 Times are microseconds, the resolution of the source's clock. Hashes and signatures are
 symbolic: a decision carries the key that signed it, and its renewal id is its own content.
 `Step` says what each call does to a session; the class carries it out in place.
 */
module Custody {
  import opened Wrappers

  type Time = int
  type Bytes = seq<bv8>

  const REQUIRED_RENEWAL_CHECKS: set<string> := {
    "nonce_fresh", "manifest_authorized", "channel_binding", "cpu_platform_allowed", "assurance_tier",
    "serving_image", "gpu", "memory_fingerprint", "attestation_revocation", "cpu_quote_verified",
    "gpu_report_verified", "key_available"
  }

  datatype TimeSource = SecureTsc | OpCountHybrid | BestEffort

  datatype Manifest = Manifest(identity: nat, weightsHash: nat, cadence: int, timeSource: TimeSource)

  datatype Evidence = Evidence(identity: nat, nonce: nat)

  /** A timestamp string of a decision: parsed, or one the source refuses. */
  datatype Stamp = At(time: Time) | Malformed

  datatype Decision = Decision(
    signedBy: nat, renewed: bool, weightsHash: nat, manifestHash: nat, nonce: nat, evidenceHash: nat,
    issuedAt: Stamp, expiresAt: Stamp, evidenceExpiresAt: Option<Stamp>, checks: seq<(string, bool)>)

  /** What a session is created with and never changes. */
  datatype Config = Config(
    cadence: int, timeSource: TimeSource, maxOperations: Option<int>, weightsHash: nat,
    manifestHash: Option<nat>, renewalKey: Option<nat>, hasStopHook: bool)
  {
    predicate Valid() {
      cadence > 0 && (maxOperations.Some? ==> maxOperations.value > 0)
    }
  }

  /** What a session's calls change. `stops` counts calls of the on_stop hook. */
  datatype Session = Session(
    holding: bool, deadline: Time, ops: nat, used: set<Decision>, key: Bytes, stops: nat)

  datatype Call =
    | Tick(now: Time)
    | Reattest(now: Time)
    | Renew(now: Time, manifest: Manifest, decision: Decision, evidence: Evidence)
    | Authorize(now: Time)
    | Zeroize

  datatype Outcome = Checked | Attested | Served | KeyWiped | OperationsExhausted | Invalid | Denied

  function Start(cfg: Config, key: Bytes, now: Time): (s: Session) {
    Session(true, now + cfg.cadence, 0, {}, key, 0)
  }

  function Wipe(cfg: Config, s: Session): (r: Session) {
    if !s.holding then s
    else s.(holding := false, key := [], stops := s.stops + if cfg.hasStopHook then 1 else 0)
  }

  function Lapse(cfg: Config, s: Session, now: Time): (r: Session) {
    if s.holding && now >= s.deadline then Wipe(cfg, s) else s
  }

  // ------------------------------------------------------------------ renewal decisions

  function Names(checks: seq<(string, bool)>): (names: set<string>) {
    set i | 0 <= i < |checks| :: checks[i].0
  }

  predicate ChecksComplete(checks: seq<(string, bool)>) {
    && (forall i, j :: 0 <= i < j < |checks| ==> checks[i].0 != checks[j].0)
    && REQUIRED_RENEWAL_CHECKS <= Names(checks)
  }

  predicate AllPassed(checks: seq<(string, bool)>) {
    forall i :: 0 <= i < |checks| ==> checks[i].1
  }

  /** The decision verifies, contradicts nothing in itself, and is about this session, policy and evidence. */
  predicate Bound(cfg: Config, m: Manifest, d: Decision, e: Evidence) {
    && cfg.manifestHash.Some? && cfg.renewalKey.Some?
    && d.signedBy == cfg.renewalKey.value
    && (d.renewed ==> ChecksComplete(d.checks) && AllPassed(d.checks))
    && d.weightsHash == cfg.weightsHash
    && m.identity == cfg.manifestHash.value && d.manifestHash == cfg.manifestHash.value
    && m.cadence == cfg.cadence
    && d.evidenceHash == e.identity && d.nonce == e.nonce
    && m.timeSource == cfg.timeSource
  }

  predicate Current(d: Decision, now: Time) {
    && d.issuedAt.At? && d.expiresAt.At?
    && d.issuedAt.time <= now <= d.expiresAt.time
    && d.issuedAt.time < d.expiresAt.time
  }

  function RenewedDeadline(cfg: Config, d: Decision, now: Time): (t: Time)
    requires d.evidenceExpiresAt.Some? ==> d.evidenceExpiresAt.value.At?
  {
    if d.evidenceExpiresAt.Some? && d.evidenceExpiresAt.value.time < now + cfg.cadence
    then d.evidenceExpiresAt.value.time else now + cfg.cadence
  }

  // ------------------------------------------------------------------ one call

  function Step(cfg: Config, s0: Session, call: Call): (r: (Session, Outcome)) {
    match call
    case Zeroize => (Wipe(cfg, s0), Checked)
    case Tick(now) => (Lapse(cfg, s0, now), Checked)
    case Reattest(now) =>
      var s := Lapse(cfg, s0, now);
      if !s.holding then (s, KeyWiped)
      else (s.(deadline := now + cfg.cadence, ops := 0), Attested)
    case Authorize(now) =>
      var s := Lapse(cfg, s0, now);
      if !s.holding then (s, KeyWiped)
      else if cfg.maxOperations.Some? && s.ops >= cfg.maxOperations.value then (s, OperationsExhausted)
      else (s.(ops := s.ops + 1), Served)
    case Renew(now, m, d, e) =>
      var s := Lapse(cfg, s0, now);
      if !s.holding then (s, KeyWiped)
      else if !Bound(cfg, m, d, e) || !Current(d, now) then (s, Invalid)
      else if !d.renewed then (s, Denied)
      else if d in s.used then (s, Invalid)
      else
        var burned := s.(used := s.used + {d});
        if d.evidenceExpiresAt == Some(Malformed) then (burned, Invalid)
        else (burned.(deadline := RenewedDeadline(cfg, d, now), ops := 0), Attested)
  }

  // ------------------------------------------------------------------ the session in place

  class EnclaveSession {
    const cfg: Config
    var holding: bool
    var deadline: Time
    var ops: nat
    var used: set<Decision>
    var key: array<bv8>
    var stops: nat

    ghost function Model(): (s: Session)
      reads this, key
    {
      Session(holding, deadline, ops, used, key[..], stops)
    }

    constructor (cfg: Config, keyBytes: Bytes, now: Time)
      requires cfg.Valid()
      ensures this.cfg == cfg && fresh(key)
      ensures Model() == Start(cfg, keyBytes, now)
    {
      this.cfg := cfg;
      holding, deadline, ops, used, stops := true, now + cfg.cadence, 0, {}, 0;
      key := new bv8[|keyBytes|](i requires 0 <= i < |keyBytes| => keyBytes[i]);
      new;
      assert key[..] == keyBytes;
    }

    /** None where the source raises ValueError. */
    static method Create(cfg: Config, keyBytes: Bytes, now: Time) returns (session: Option<EnclaveSession>)
      ensures session.Some? <==> cfg.Valid()
      ensures session.Some? ==> fresh(session.value) && session.value.cfg == cfg
      ensures session.Some? ==> session.value.Model() == Start(cfg, keyBytes, now)
    {
      if cfg.cadence <= 0 || (cfg.maxOperations.Some? && cfg.maxOperations.value <= 0) {
        return None;
      }
      var s := new EnclaveSession(cfg, keyBytes, now);
      return Some(s);
    }

    /** Overwrites the old key buffer before dropping it. */
    method DoZeroize()
      modifies this, key
      ensures Model() == Wipe(cfg, old(Model()))
      ensures key == old(key) || fresh(key)
      ensures old(holding) ==> forall i :: 0 <= i < old(key).Length ==> old(key)[i] == 0
    {
      if !holding {
        return;
      }
      holding := false;
      for i := 0 to key.Length
        invariant key == old(key) && !holding && stops == old(stops)
        invariant forall j :: 0 <= j < i ==> key[j] == 0
        invariant deadline == old(deadline) && ops == old(ops) && used == old(used)
      {
        key[i] := 0;
      }
      key := new bv8[0];
      if cfg.hasStopHook {
        stops := stops + 1;
      }
      assert key[..] == [];
    }

    method DoTick(now: Time) returns (isHolding: bool)
      modifies this, key
      ensures Model() == Lapse(cfg, old(Model()), now)
      ensures isHolding == holding
      ensures key == old(key) || fresh(key)
    {
      if holding && now >= deadline {
        DoZeroize();
      }
      isHolding := holding;
    }

    method DoReattest(now: Time) returns (outcome: Outcome)
      modifies this, key
      ensures (Model(), outcome) == Step(cfg, old(Model()), Reattest(now))
    {
      var isHolding := DoTick(now);
      if !isHolding {
        return KeyWiped;
      }
      deadline := now + cfg.cadence;
      ops := 0;
      return Attested;
    }

    method ApplyRenewal(now: Time, manifest: Manifest, decision: Decision, evidence: Evidence)
      returns (outcome: Outcome)
      modifies this, key
      ensures (Model(), outcome) == Step(cfg, old(Model()), Renew(now, manifest, decision, evidence))
    {
      var isHolding := DoTick(now);
      if !isHolding {
        return KeyWiped;
      }
      if cfg.manifestHash.None? || cfg.renewalKey.None? {
        return Invalid;
      }
      if decision.signedBy != cfg.renewalKey.value {
        return Invalid;
      }
      if decision.renewed && !(ChecksComplete(decision.checks) && AllPassed(decision.checks)) {
        return Invalid;
      }
      if decision.weightsHash != cfg.weightsHash {
        return Invalid;
      }
      if manifest.identity != cfg.manifestHash.value || decision.manifestHash != cfg.manifestHash.value {
        return Invalid;
      }
      if manifest.cadence != cfg.cadence {
        return Invalid;
      }
      if decision.evidenceHash != evidence.identity || decision.nonce != evidence.nonce {
        return Invalid;
      }
      if manifest.timeSource != cfg.timeSource {
        return Invalid;
      }
      if decision.issuedAt.Malformed? || decision.expiresAt.Malformed? {
        return Invalid;
      }
      if decision.issuedAt.time > now || now > decision.expiresAt.time
         || decision.expiresAt.time <= decision.issuedAt.time {
        return Invalid;
      }
      if !decision.renewed {
        return Denied;
      }
      if decision in used {
        return Invalid;
      }
      used := used + {decision};
      var until := now + cfg.cadence;
      if decision.evidenceExpiresAt.Some? {
        if decision.evidenceExpiresAt.value.Malformed? {
          return Invalid;
        }
        if decision.evidenceExpiresAt.value.time < until {
          until := decision.evidenceExpiresAt.value.time;
        }
      }
      deadline := until;
      ops := 0;
      return Attested;
    }

    method AuthorizeOperation(now: Time) returns (outcome: Outcome)
      modifies this, key
      ensures (Model(), outcome) == Step(cfg, old(Model()), Authorize(now))
      ensures key == old(key) || fresh(key)
    {
      var isHolding := DoTick(now);
      if !isHolding {
        return KeyWiped;
      }
      if cfg.maxOperations.Some? && ops >= cfg.maxOperations.value {
        return OperationsExhausted;
      }
      ops := ops + 1;
      return Served;
    }

    /** The key for one counted operation, or None where the source raises. */
    method UseKey(now: Time) returns (bytes: Option<Bytes>)
      modifies this, key
      ensures Model() == Step(cfg, old(Model()), Authorize(now)).0
      ensures bytes == if Step(cfg, old(Model()), Authorize(now)).1 == Served then Some(old(Model()).key) else None
    {
      var outcome := AuthorizeOperation(now);
      if outcome != Served {
        return None;
      }
      return Some(key[..]);
    }
  }
}
