/**
 Replay protection of the whole gate (`python/src/wcm/kbs.py:220-246`, `:350-379`): over every
 interleaving of issued challenges and presented evidence, and under any clock, released keys
 map one-to-one into the challenges issued before them.
 */
module KbsReleases {
  import opened Challenge
  import opened ChallengeSafety
  import K = Kbs
  import R = Revocation

  /** One thing the broker is asked: a challenge, or a decision on evidence that canonicalizes. */
  datatype Use =
    | Ask(nonce: Nonce, at: Time)
    | Present(req: K.Request, at: Time, revocation: R.Verdict)

  function AsCall(u: Use): (c: Call) {
    match u
    case Ask(nonce, at) => Issue(nonce, at)
    case Present(req, at, _) => Consume(req.evidence.nonce, at)
  }

  function Calls(uses: seq<Use>): (calls: seq<Call>)
    ensures |calls| == |uses|
    ensures forall i :: 0 <= i < |uses| ==> calls[i] == AsCall(uses[i])
  {
    seq(|uses|, i requires 0 <= i < |uses| => AsCall(uses[i]))
  }

  predicate Released(cfg: K.Config, ttl: int, uses: seq<Use>, i: nat)
    requires i < |uses|
  {
    && uses[i].Present?
    && K.Decide(cfg, uses[i].req, Run(ttl, Calls(uses)).1[i].outcome == Accepted, uses[i].revocation).released
  }

  /** A release answers a challenge issued earlier, within its lifetime. */
  lemma {:induction false} ReleaseAnswersChallenge(cfg: K.Config, ttl: int, uses: seq<Use>, i: nat) returns (a: nat)
    requires FreshNonces(Calls(uses)) && i < |uses| && Released(cfg, ttl, uses, i)
    ensures a < i && uses[a].Ask? && uses[a].nonce == uses[i].req.evidence.nonce && uses[i].at <= uses[a].at + ttl
  {
    var calls := Calls(uses);
    AcceptedIsFresh(ttl, calls, i);
    RunPrefix(ttl, calls, i);
    a := IssuedWhen(ttl, calls[..i], calls[i].nonce);
  }

  /** Two releases never answer the same challenge. */
  lemma {:induction false} ReleasesInject(cfg: K.Config, ttl: int, uses: seq<Use>, i: nat, j: nat)
    returns (a: nat, b: nat)
    requires FreshNonces(Calls(uses)) && i < j < |uses|
    requires Released(cfg, ttl, uses, i) && Released(cfg, ttl, uses, j)
    ensures a < i && uses[a].Ask? && uses[a].nonce == uses[i].req.evidence.nonce
    ensures b < j && uses[b].Ask? && uses[b].nonce == uses[j].req.evidence.nonce
    ensures a != b
  {
    a := ReleaseAnswersChallenge(cfg, ttl, uses, i);
    b := ReleaseAnswersChallenge(cfg, ttl, uses, j);
    SingleUse(ttl, Calls(uses), i, j);
  }
}
