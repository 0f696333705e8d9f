/** Model of derivative lineage and its policy: `python/src/wcm/lineage.py`. */
module Lineage {
  import opened Wrappers

  type Hash = nat

  datatype Policy = NoDerivatives | FineTuneOnly | Unrestricted

  /** What the walk reads of a manifest. */
  datatype Manifest = Manifest(derivedFrom: Option<Hash>, derivatives: Option<Policy>, environments: set<string>)

  datatype Violation =
    | LeafMissing(leaf: Hash)
    | CycleAt(at: Hash)
    | ParentMissing(parent: Hash, child: Hash)
    | DerivativesForbidden(parent: Hash, child: Hash)
    | DerivativesWidened(parent: Hash, child: Hash)
    | EnvironmentsAdded(parent: Hash, child: Hash)
    | RevokedMember(member: Hash)
    | UnloggedMember(member: Hash)

  datatype Result = Result(ok: bool, chain: seq<Hash>, violations: seq<Violation>)

  type Manifests = map<Hash, Manifest>

  function Rank(p: Policy): (r: nat) {
    match p
    case NoDerivatives => 0
    case FineTuneOnly => 1
    case Unrestricted => 2
  }

  // ------------------------------------------------------------------ what a lineage is

  /** The child widens a declared, permitting policy of its parent. */
  predicate WidensDerivatives(child: Manifest, parent: Manifest) {
    && parent.derivatives.Some? && parent.derivatives.value != NoDerivatives
    && child.derivatives.Some? && Rank(child.derivatives.value) > Rank(parent.derivatives.value)
  }

  /** The parent permits derivatives and the child takes no right its parent lacks. */
  predicate LinkAllowed(child: Manifest, parent: Manifest) {
    && parent.derivatives != Some(NoDerivatives)
    && !WidensDerivatives(child, parent)
    && child.environments <= parent.environments
  }

  /** A path of known, different manifests, each derived from the next. */
  ghost predicate IsPath(ms: Manifests, leaf: Hash, chain: seq<Hash>) {
    && chain != [] && chain[0] == leaf
    && (forall i :: 0 <= i < |chain| ==> chain[i] in ms)
    && (forall i, j :: 0 <= i < j < |chain| ==> chain[i] != chain[j])
    && (forall i :: 0 <= i < |chain| - 1 ==> ms[chain[i]].derivedFrom == Some(chain[i + 1]))
  }

  ghost predicate LinksAllowed(ms: Manifests, chain: seq<Hash>)
    requires forall i :: 0 <= i < |chain| ==> chain[i] in ms
  {
    forall i :: 0 <= i < |chain| - 1 ==> LinkAllowed(ms[chain[i]], ms[chain[i + 1]])
  }

  /** Every member is in force in the log, where one is given, and none is revoked. */
  ghost predicate GatesOpen(chain: seq<Hash>, logged: Option<set<Hash>>, revoked: set<Hash>) {
    forall i :: 0 <= i < |chain| ==> chain[i] !in revoked && (logged.Some? ==> chain[i] in logged.value)
  }

  /** A complete chain of custody from the leaf to a root, all of whose links and members are allowed. */
  ghost predicate IsLineage(ms: Manifests, leaf: Hash, logged: Option<set<Hash>>, revoked: set<Hash>,
                            chain: seq<Hash>) {
    && IsPath(ms, leaf, chain)
    && ms[chain[|chain| - 1]].derivedFrom.None?
    && LinksAllowed(ms, chain)
    && GatesOpen(chain, logged, revoked)
  }

  // ------------------------------------------------------------------ what is reported

  /** The violation is one of this link. */
  predicate LinkBreak(child: Hash, c: Manifest, parent: Hash, p: Manifest, v: Violation) {
    match v
    case DerivativesForbidden(x, y) => x == parent && y == child && p.derivatives == Some(NoDerivatives)
    case DerivativesWidened(x, y) => x == parent && y == child && WidensDerivatives(c, p)
    case EnvironmentsAdded(x, y) => x == parent && y == child && !(c.environments <= p.environments)
    case _ => false
  }

  /** The violation is one of the member's link to its parent, where that is known. */
  predicate LinkBreakAt(ms: Manifests, member: Hash, v: Violation) {
    && member in ms && ms[member].derivedFrom.Some? && ms[member].derivedFrom.value in ms
    && LinkBreak(member, ms[member], ms[member].derivedFrom.value, ms[ms[member].derivedFrom.value], v)
  }

  ghost predicate AnyLinkBreak(ms: Manifests, chain: seq<Hash>, v: Violation) {
    exists i :: 0 <= i < |chain| && LinkBreakAt(ms, chain[i], v)
  }

  /** The violation is the reason why the walk ended before a root. */
  predicate EndBreak(ms: Manifests, chain: seq<Hash>, v: Violation)
    requires chain != [] && chain[|chain| - 1] in ms
  {
    var last := chain[|chain| - 1];
    match v
    case CycleAt(h) => ms[last].derivedFrom == Some(h) && h in chain
    case ParentMissing(x, y) => y == last && ms[last].derivedFrom == Some(x) && x !in ms
    case _ => false
  }

  predicate GateBreak(chain: seq<Hash>, logged: Option<set<Hash>>, revoked: set<Hash>, v: Violation) {
    match v
    case RevokedMember(h) => h in chain && h in revoked
    case UnloggedMember(h) => h in chain && logged.Some? && h !in logged.value
    case _ => false
  }

  // ------------------------------------------------------------------ the walk

  method CheckMonotoneRights(child: Hash, c: Manifest, parent: Hash, p: Manifest) returns (violations: seq<Violation>)
    ensures forall v :: v in violations <==> LinkBreak(child, c, parent, p, v) && !v.DerivativesForbidden?
  {
    violations := [];
    if p.derivatives.Some? && p.derivatives.value != NoDerivatives && c.derivatives.Some?
       && Rank(c.derivatives.value) > Rank(p.derivatives.value) {
      violations := violations + [DerivativesWidened(parent, child)];
    }
    var extra := c.environments - p.environments;
    assert forall e :: e in c.environments ==> e in p.environments || e in extra;
    if extra != {} {
      violations := violations + [EnvironmentsAdded(parent, child)];
    }
  }

  method LinkViolations(child: Hash, c: Manifest, parent: Hash, p: Manifest) returns (violations: seq<Violation>)
    ensures forall v :: v in violations <==> LinkBreak(child, c, parent, p, v)
  {
    violations := [];
    if p.derivatives == Some(NoDerivatives) {
      violations := violations + [DerivativesForbidden(parent, child)];
    }
    var more := CheckMonotoneRights(child, c, parent, p);
    violations := violations + more;
  }

  /** The members passed so far form a path to `current`, the next manifest to look at. */
  ghost predicate Walking(ms: Manifests, leaf: Hash, chain: seq<Hash>, current: Hash, seen: set<Hash>) {
    && current in ms
    && (forall h :: h in seen <==> h in chain)
    && (if chain == [] then current == leaf
        else IsPath(ms, leaf, chain) && ms[chain[|chain| - 1]].derivedFrom == Some(current))
  }

  /** The path that takes `current` in as its next member. */
  ghost predicate Taken(ms: Manifests, leaf: Hash, longer: seq<Hash>, current: Hash, seen: set<Hash>) {
    && longer != [] && IsPath(ms, leaf, longer) && longer[|longer| - 1] == current
    && (forall h :: h in seen <==> h in longer)
  }

  lemma {:induction false} LongerPath(ms: Manifests, leaf: Hash, chain: seq<Hash>, current: Hash, seen: set<Hash>)
    requires Walking(ms, leaf, chain, current, seen) && current !in seen
    ensures Taken(ms, leaf, chain + [current], current, seen + {current})
  {
  }

  lemma {:induction false} LongerBreaks(ms: Manifests, chain: seq<Hash>, current: Hash)
    ensures forall v ::
      AnyLinkBreak(ms, chain + [current], v) <==> AnyLinkBreak(ms, chain, v) || LinkBreakAt(ms, current, v)
  {
    hide LinkBreakAt;
    var longer, n := chain + [current], |chain|;
    forall v
      ensures AnyLinkBreak(ms, longer, v) <==> AnyLinkBreak(ms, chain, v) || LinkBreakAt(ms, current, v)
    {
      if AnyLinkBreak(ms, chain, v) {
        var i :| 0 <= i < n && LinkBreakAt(ms, chain[i], v);
        assert longer[i] == chain[i];
      }
      if LinkBreakAt(ms, current, v) {
        assert longer[n] == current;
      }
    }
  }

  /** The chain goes as far as it can: to a root, to a missing parent, or to a parent already on it. */
  ghost predicate Ended(ms: Manifests, chain: seq<Hash>)
    requires chain != [] && chain[|chain| - 1] in ms
  {
    var next := ms[chain[|chain| - 1]].derivedFrom;
    next.Some? ==> next.value !in ms || next.value in chain
  }

  /** Two paths from one leaf agree for as long as both last. */
  lemma {:induction false} PathsAgree(ms: Manifests, leaf: Hash, a: seq<Hash>, b: seq<Hash>, n: nat)
    requires IsPath(ms, leaf, a) && IsPath(ms, leaf, b) && n < |a| && n < |b|
    ensures a[n] == b[n]
  {
    if n > 0 {
      PathsAgree(ms, leaf, a, b, n - 1);
      assert ms[a[n - 1]].derivedFrom == Some(a[n]) && ms[b[n - 1]].derivedFrom == Some(b[n]);
    }
  }

  /** A complete path is at least as long as any other from its leaf. */
  lemma {:induction false} RootEndsPaths(ms: Manifests, leaf: Hash, a: seq<Hash>, b: seq<Hash>)
    requires IsPath(ms, leaf, a) && IsPath(ms, leaf, b) && ms[b[|b| - 1]].derivedFrom.None?
    ensures |a| <= |b|
  {
    if |b| < |a| {
      assert ms[a[|b| - 1]].derivedFrom == Some(a[|b|]);
      PathsAgree(ms, leaf, a, b, |b| - 1);
    }
  }

  lemma {:induction false} NextOnPath(ms: Manifests, leaf: Hash, path: seq<Hash>, i: nat)
    requires IsPath(ms, leaf, path) && i + 1 < |path|
    ensures ms[path[i]].derivedFrom == Some(path[i + 1]) && path[i + 1] in ms && path[i + 1] !in path[..i + 1]
  {
  }

  /** No path goes past the end of another that has ended. */
  lemma {:induction false} EndStopsPaths(ms: Manifests, leaf: Hash, a: seq<Hash>, b: seq<Hash>)
    requires IsPath(ms, leaf, a) && Ended(ms, a) && IsPath(ms, leaf, b)
    requires forall i :: 0 <= i < |a| && i < |b| ==> a[i] == b[i]
    ensures |b| <= |a|
  {
    if |a| < |b| {
      assert a == b[..|a|];
      NextOnPath(ms, leaf, b, |a| - 1);
    }
  }

  /** A complete path is the only path from its leaf that has ended. */
  lemma {:induction false} EndedIsUnique(ms: Manifests, leaf: Hash, a: seq<Hash>, b: seq<Hash>)
    requires IsPath(ms, leaf, a) && Ended(ms, a)
    requires IsPath(ms, leaf, b) && ms[b[|b| - 1]].derivedFrom.None?
    ensures a == b
  {
    forall i | 0 <= i < |a| && i < |b|
      ensures a[i] == b[i]
    {
      PathsAgree(ms, leaf, a, b, i);
    }
    RootEndsPaths(ms, leaf, a, b);
    EndStopsPaths(ms, leaf, a, b);
  }

  /** Follows `derived_from` upwards until a root, a gap or a cycle; reports every broken link and an early end. */
  method Walk(ms: Manifests, leaf: Hash) returns (chain: seq<Hash>, violations: seq<Violation>)
    requires leaf in ms
    ensures IsPath(ms, leaf, chain) && Ended(ms, chain)
    ensures forall v :: v in violations <==> AnyLinkBreak(ms, chain, v) || EndBreak(ms, chain, v)
  {
    chain, violations := [], [];
    var seen, current := {}, leaf;
    while true
      invariant Walking(ms, leaf, chain, current, seen)
      invariant forall v :: v in violations <==> AnyLinkBreak(ms, chain, v)
      decreases |ms.Keys - seen|
    {
      hide AnyLinkBreak, LinkBreak, IsPath;
      if current in seen {
        violations := violations + [CycleAt(current)];
        return;
      }
      LongerPath(ms, leaf, chain, current, seen);
      LongerBreaks(ms, chain, current);
      Shrinks(ms.Keys, seen, current);
      seen := seen + {current};
      chain := chain + [current];
      var manifest := ms[current];
      if manifest.derivedFrom.None? {
        return;
      }
      var parent := manifest.derivedFrom.value;
      if parent !in ms {
        violations := violations + [ParentMissing(parent, current)];
        return;
      }
      var more := LinkViolations(current, manifest, parent, ms[parent]);
      violations := violations + more;
      current := parent;
    }
  }

  lemma {:induction false} Shrinks(all: set<Hash>, seen: set<Hash>, h: Hash)
    requires h in all && h !in seen
    ensures |all - (seen + {h})| < |all - seen|
  {
    assert all - (seen + {h}) == (all - seen) - {h};
  }

  method GateViolations(chain: seq<Hash>, logged: Option<set<Hash>>, revoked: set<Hash>)
    returns (violations: seq<Violation>)
    ensures forall v :: v in violations <==> GateBreak(chain, logged, revoked, v)
  {
    violations := [];
    for i := 0 to |chain|
      invariant forall v :: v in violations <==> GateBreak(chain[..i], None, revoked, v)
    {
      assert chain[..i + 1] == chain[..i] + [chain[i]];
      if chain[i] in revoked {
        violations := violations + [RevokedMember(chain[i])];
      }
    }
    assert chain[..|chain|] == chain;
    if logged.Some? {
      for i := 0 to |chain|
        invariant forall v :: v in violations <==>
          GateBreak(chain, None, revoked, v) || (v.UnloggedMember? && GateBreak(chain[..i], logged, revoked, v))
      {
        assert chain[..i + 1] == chain[..i] + [chain[i]];
        if chain[i] !in logged.value {
          violations := violations + [UnloggedMember(chain[i])];
        }
      }
    }
  }

  lemma {:induction false} NoLinkBreak(ms: Manifests, leaf: Hash, chain: seq<Hash>)
    requires IsPath(ms, leaf, chain) && ms[chain[|chain| - 1]].derivedFrom.None?
    ensures LinksAllowed(ms, chain) <==> forall v :: !AnyLinkBreak(ms, chain, v)
  {
    if forall v :: !AnyLinkBreak(ms, chain, v) {
      forall i | 0 <= i < |chain| - 1
        ensures LinkAllowed(ms[chain[i]], ms[chain[i + 1]])
      {
        assert ms[chain[i]].derivedFrom == Some(chain[i + 1]);
        assert !AnyLinkBreak(ms, chain, DerivativesForbidden(chain[i + 1], chain[i]));
        assert !AnyLinkBreak(ms, chain, DerivativesWidened(chain[i + 1], chain[i]));
        assert !AnyLinkBreak(ms, chain, EnvironmentsAdded(chain[i + 1], chain[i]));
        assert !LinkBreakAt(ms, chain[i], DerivativesForbidden(chain[i + 1], chain[i]));
        assert !LinkBreakAt(ms, chain[i], DerivativesWidened(chain[i + 1], chain[i]));
        assert !LinkBreakAt(ms, chain[i], EnvironmentsAdded(chain[i + 1], chain[i]));
      }
    }
    if LinksAllowed(ms, chain) {
      forall v, i | 0 <= i < |chain|
        ensures !LinkBreakAt(ms, chain[i], v)
      {
        if i < |chain| - 1 {
          assert LinkAllowed(ms[chain[i]], ms[chain[i + 1]]);
        }
      }
    }
  }

  lemma {:induction false} NoEndBreak(ms: Manifests, leaf: Hash, chain: seq<Hash>)
    requires IsPath(ms, leaf, chain) && Ended(ms, chain)
    ensures ms[chain[|chain| - 1]].derivedFrom.None? <==> forall v :: !EndBreak(ms, chain, v)
  {
    var last := chain[|chain| - 1];
    if ms[last].derivedFrom.Some? {
      var next := ms[last].derivedFrom.value;
      assert EndBreak(ms, chain, if next in ms then CycleAt(next) else ParentMissing(next, last));
    }
  }

  lemma {:induction false} NoGateBreak(chain: seq<Hash>, logged: Option<set<Hash>>, revoked: set<Hash>)
    ensures GatesOpen(chain, logged, revoked) <==> forall v :: !GateBreak(chain, logged, revoked, v)
  {
    if forall v :: !GateBreak(chain, logged, revoked, v) {
      forall i | 0 <= i < |chain|
        ensures chain[i] !in revoked && (logged.Some? ==> chain[i] in logged.value)
      {
        assert !GateBreak(chain, logged, revoked, RevokedMember(chain[i]));
        assert !GateBreak(chain, logged, revoked, UnloggedMember(chain[i]));
      }
    }
  }

  /** Nothing is reported exactly when the walked chain is a lineage. */
  lemma {:induction false} NothingReported(ms: Manifests, leaf: Hash, logged: Option<set<Hash>>, revoked: set<Hash>,
                                           chain: seq<Hash>)
    requires IsPath(ms, leaf, chain) && Ended(ms, chain)
    ensures IsLineage(ms, leaf, logged, revoked, chain) <==>
      forall v :: !AnyLinkBreak(ms, chain, v) && !EndBreak(ms, chain, v) && !GateBreak(chain, logged, revoked, v)
  {
    NoEndBreak(ms, leaf, chain);
    NoGateBreak(chain, logged, revoked);
    if ms[chain[|chain| - 1]].derivedFrom.None? {
      NoLinkBreak(ms, leaf, chain);
    }
    hide AnyLinkBreak, EndBreak, GateBreak, LinksAllowed, GatesOpen, IsPath, Ended;
    if forall v :: !AnyLinkBreak(ms, chain, v) && !EndBreak(ms, chain, v) && !GateBreak(chain, logged, revoked, v) {
      assert forall v :: !EndBreak(ms, chain, v);
      assert forall v :: !AnyLinkBreak(ms, chain, v);
      assert forall v :: !GateBreak(chain, logged, revoked, v);
    }
  }

  /** Accepts exactly the leaves that have a complete, allowed lineage, and returns it; otherwise reports exactly what
      is wrong with the chain it walked. */
  method VerifyLineage(ms: Manifests, leaf: Hash, logged: Option<set<Hash>>, revoked: set<Hash>)
    returns (result: Result)
    ensures result.ok <==> exists chain :: IsLineage(ms, leaf, logged, revoked, chain)
    ensures result.ok ==> IsLineage(ms, leaf, logged, revoked, result.chain)
    ensures result.ok <==> result.violations == []
    ensures leaf !in ms ==> result.chain == [] && result.violations == [LeafMissing(leaf)]
    ensures leaf in ms ==>
      && IsPath(ms, leaf, result.chain) && Ended(ms, result.chain)
      && forall v :: v in result.violations <==>
           || AnyLinkBreak(ms, result.chain, v) || EndBreak(ms, result.chain, v)
           || GateBreak(result.chain, logged, revoked, v)
  {
    hide AnyLinkBreak, EndBreak, GateBreak, LinksAllowed, GatesOpen;
    if leaf !in ms {
      return Result(false, [], [LeafMissing(leaf)]);
    }
    var chain, violations := Walk(ms, leaf);
    var gates := GateViolations(chain, logged, revoked);
    violations := violations + gates;
    result := Result(violations == [], chain, violations);
    NothingReported(ms, leaf, logged, revoked, chain);
    assert violations == [] <==> forall v :: v !in violations by {
      assert violations != [] ==> violations[0] in violations;
    }
    if lineage :| IsLineage(ms, leaf, logged, revoked, lineage) {
      EndedIsUnique(ms, leaf, chain, lineage);
    }
  }

  // ------------------------------------------------------------------ the verdict, said of the manifests

  /** `child` is a known member derived from `parent`, which is known too. */
  predicate Derived(ms: Manifests, chain: seq<Hash>, child: Hash, parent: Hash) {
    child in chain && child in ms && parent in ms && ms[child].derivedFrom == Some(parent)
  }

  /** What each report means. */
  ghost predicate Means(ms: Manifests, chain: seq<Hash>, logged: Option<set<Hash>>, revoked: set<Hash>, v: Violation)
    requires chain != [] && chain[|chain| - 1] in ms
  {
    var last := chain[|chain| - 1];
    match v
    case LeafMissing(_) => false
    case CycleAt(h) => h in chain && ms[last].derivedFrom == Some(h)
    case ParentMissing(parent, child) => child == last && ms[last].derivedFrom == Some(parent) && parent !in ms
    case DerivativesForbidden(parent, child) =>
      Derived(ms, chain, child, parent) && ms[parent].derivatives == Some(NoDerivatives)
    case DerivativesWidened(parent, child) =>
      && Derived(ms, chain, child, parent)
      && ms[parent].derivatives == Some(FineTuneOnly) && ms[child].derivatives == Some(Unrestricted)
    case EnvironmentsAdded(parent, child) =>
      Derived(ms, chain, child, parent) && exists e :: e in ms[child].environments && e !in ms[parent].environments
    case RevokedMember(h) => h in chain && h in revoked
    case UnloggedMember(h) => h in chain && logged.Some? && h !in logged.value
  }

  lemma {:induction false} WidensExact(c: Manifest, p: Manifest)
    ensures WidensDerivatives(c, p) <==> p.derivatives == Some(FineTuneOnly) && c.derivatives == Some(Unrestricted)
  {
    if c.derivatives.Some? && p.derivatives.Some? {
      var x, y := c.derivatives.value, p.derivatives.value;
      assert x == NoDerivatives || x == FineTuneOnly || x == Unrestricted;
      assert y == NoDerivatives || y == FineTuneOnly || y == Unrestricted;
    }
  }

  /** A report is made exactly when what it says is so. */
  lemma {:induction false} ReportExact(ms: Manifests, chain: seq<Hash>, logged: Option<set<Hash>>, revoked: set<Hash>,
                                       v: Violation)
    requires chain != [] && chain[|chain| - 1] in ms
    ensures AnyLinkBreak(ms, chain, v) || EndBreak(ms, chain, v) || GateBreak(chain, logged, revoked, v)
       <==> Means(ms, chain, logged, revoked, v)
  {
    if v.DerivativesForbidden? || v.DerivativesWidened? || v.EnvironmentsAdded? {
      LinkReport(ms, v.child, v);
      if i :| 0 <= i < |chain| && chain[i] == v.child {
        assert AnyLinkBreak(ms, chain, v) <==> LinkBreakAt(ms, chain[i], v) by {
          OnlyItsChild(ms, chain, v);
        }
      }
    }
  }

  lemma {:induction false} OnlyItsChild(ms: Manifests, chain: seq<Hash>, v: Violation)
    requires v.DerivativesForbidden? || v.DerivativesWidened? || v.EnvironmentsAdded?
    ensures forall h :: LinkBreakAt(ms, h, v) ==> h == v.child
  {
  }

  lemma {:induction false} LinkReport(ms: Manifests, child: Hash, v: Violation)
    requires v.DerivativesForbidden? || v.DerivativesWidened? || v.EnvironmentsAdded?
    requires child == v.child
    ensures LinkBreakAt(ms, child, v) <==>
      && child in ms && v.parent in ms && ms[child].derivedFrom == Some(v.parent)
      && match v
         case DerivativesForbidden(p, _) => ms[p].derivatives == Some(NoDerivatives)
         case DerivativesWidened(p, c) =>
           ms[p].derivatives == Some(FineTuneOnly) && ms[c].derivatives == Some(Unrestricted)
         case EnvironmentsAdded(p, c) => exists e :: e in ms[c].environments && e !in ms[p].environments
         case _ => false
  {
    if child in ms && v.parent in ms {
      WidensExact(ms[child], ms[v.parent]);
    }
  }

  /** Member `i` permits derivatives, does not allow less than the next member below it takes, and runs wherever
      that one does. */
  ghost predicate LinkEntitled(ms: Manifests, chain: seq<Hash>, i: nat)
    requires 0 < i < |chain| && forall k :: 0 <= k < |chain| ==> chain[k] in ms
  {
    && ms[chain[i]].derivatives != Some(NoDerivatives)
    && (ms[chain[i]].derivatives == Some(FineTuneOnly) ==> ms[chain[i - 1]].derivatives != Some(Unrestricted))
    && (forall e :: e in ms[chain[i - 1]].environments ==> e in ms[chain[i]].environments)
  }

  /** The chain alone, said of its manifests: who may derive what from whom and where it may run, and that each
      member is logged and not revoked. */
  ghost predicate Entitled(ms: Manifests, logged: Option<set<Hash>>, revoked: set<Hash>, chain: seq<Hash>)
    requires forall i :: 0 <= i < |chain| ==> chain[i] in ms
  {
    && (forall i :: 0 < i < |chain| ==> LinkEntitled(ms, chain, i))
    && (forall i :: 0 <= i < |chain| ==> chain[i] !in revoked)
    && (logged.Some? ==> forall i :: 0 <= i < |chain| ==> chain[i] in logged.value)
  }

  lemma {:induction false} LinkEntitledExact(ms: Manifests, chain: seq<Hash>, i: nat)
    requires 0 < i < |chain| && forall k :: 0 <= k < |chain| ==> chain[k] in ms
    ensures LinkAllowed(ms[chain[i - 1]], ms[chain[i]]) <==> LinkEntitled(ms, chain, i)
  {
    WidensExact(ms[chain[i - 1]], ms[chain[i]]);
  }

  lemma {:induction false} LinksEntitled(ms: Manifests, chain: seq<Hash>)
    requires forall i :: 0 <= i < |chain| ==> chain[i] in ms
    ensures LinksAllowed(ms, chain) <==> forall i :: 0 < i < |chain| ==> LinkEntitled(ms, chain, i)
  {
    hide LinkAllowed, LinkEntitled;
    if LinksAllowed(ms, chain) {
      forall i | 0 < i < |chain|
        ensures LinkEntitled(ms, chain, i)
      {
        assert LinkAllowed(ms[chain[i - 1]], ms[chain[i - 1 + 1]]);
        LinkEntitledExact(ms, chain, i);
      }
    }
    if forall i :: 0 < i < |chain| ==> LinkEntitled(ms, chain, i) {
      forall i | 0 <= i < |chain| - 1
        ensures LinkAllowed(ms[chain[i]], ms[chain[i + 1]])
      {
        assert LinkEntitled(ms, chain, i + 1);
        LinkEntitledExact(ms, chain, i + 1);
      }
    }
  }

  lemma {:induction false} PathKnown(ms: Manifests, leaf: Hash, chain: seq<Hash>)
    requires IsPath(ms, leaf, chain)
    ensures chain != [] && forall i :: 0 <= i < |chain| ==> chain[i] in ms
  {
  }

  /** A lineage is a complete path whose members are entitled to it. */
  lemma {:induction false} LineageByFields(ms: Manifests, leaf: Hash, logged: Option<set<Hash>>, revoked: set<Hash>,
                                           chain: seq<Hash>)
    ensures IsLineage(ms, leaf, logged, revoked, chain) <==>
      && IsPath(ms, leaf, chain)
      && ms[chain[|chain| - 1]].derivedFrom.None?
      && Entitled(ms, logged, revoked, chain)
  {
    if IsPath(ms, leaf, chain) {
      PathKnown(ms, leaf, chain);
      LinksEntitled(ms, chain);
      hide IsPath, LinksAllowed, LinkEntitled;
    }
  }

  // ------------------------------------------------------------------ what acceptance gives

  /** No derivative may run where an ancestor may not. */
  lemma {:induction false} EnvironmentsNarrow(ms: Manifests, leaf: Hash, logged: Option<set<Hash>>, revoked: set<Hash>,
                                              chain: seq<Hash>, i: nat, j: nat)
    requires IsLineage(ms, leaf, logged, revoked, chain) && i <= j < |chain|
    ensures ms[chain[i]].environments <= ms[chain[j]].environments
    decreases j - i
  {
    if i < j {
      EnvironmentsNarrow(ms, leaf, logged, revoked, chain, i + 1, j);
      assert LinkAllowed(ms[chain[i]], ms[chain[i + 1]]);
    }
  }

  /** The derivative policy never widens along a chain whose members all declare one. */
  lemma {:induction false} PoliciesNarrow(ms: Manifests, leaf: Hash, logged: Option<set<Hash>>, revoked: set<Hash>,
                                          chain: seq<Hash>, i: nat, j: nat)
    requires IsLineage(ms, leaf, logged, revoked, chain) && i <= j < |chain|
    requires forall k :: i <= k <= j ==> ms[chain[k]].derivatives.Some?
    ensures Rank(ms[chain[i]].derivatives.value) <= Rank(ms[chain[j]].derivatives.value)
    decreases j - i
  {
    if i < j {
      PoliciesNarrow(ms, leaf, logged, revoked, chain, i + 1, j);
      assert LinkAllowed(ms[chain[i]], ms[chain[i + 1]]);
    }
  }

  /** Which members of the chain declare a derivative policy. */
  function Declared(ms: Manifests, chain: seq<Hash>): (pattern: seq<bool>)
    requires forall i :: 0 <= i < |chain| ==> chain[i] in ms
  {
    seq(|chain|, i requires 0 <= i < |chain| => ms[chain[i]].derivatives.Some?)
  }

  /** No undeclared member lies between two declared ones. */
  predicate Gapless(pattern: seq<bool>) {
    forall i, j, k :: 0 <= i < j < k < |pattern| && pattern[i] && pattern[k] ==> pattern[j]
  }

  /** Policies narrow towards the leaf wherever they are declared, however far apart. */
  ghost predicate PolicyMonotone(ms: Manifests, chain: seq<Hash>)
    requires forall i :: 0 <= i < |chain| ==> chain[i] in ms
  {
    forall i, j :: 0 <= i < j < |chain| && ms[chain[i]].derivatives.Some? && ms[chain[j]].derivatives.Some? ==>
      Rank(ms[chain[i]].derivatives.value) <= Rank(ms[chain[j]].derivatives.value)
  }

  /** What every manifest set holds by its schema: some permitted environment, and no manifest derived from itself. */
  predicate WellFormed(ms: Manifests) {
    forall h :: h in ms ==> ms[h].environments != {} && ms[h].derivedFrom != Some(h)
  }

  /** An accepted lineage of well-formed manifests in which just these members declare a policy, and some declared
      policy is widened. */
  ghost predicate HidesWidening(pattern: seq<bool>, ms: Manifests, leaf: Hash, logged: Option<set<Hash>>,
                                revoked: set<Hash>, chain: seq<Hash>) {
    && WellFormed(ms) && IsLineage(ms, leaf, logged, revoked, chain)
    && Declared(ms, chain) == pattern && !PolicyMonotone(ms, chain)
  }

  /** Member `h` of a chain of this pattern: unrestricted below the gap at `j`, fine-tune-only above it. */
  function GapMember(pattern: seq<bool>, j: nat, h: nat): (m: Manifest)
    requires h < |pattern|
  {
    Manifest(if h + 1 < |pattern| then Some(h + 1) else None,
             if !pattern[h] then None else if h < j then Some(Unrestricted) else Some(FineTuneOnly),
             {"datacenter"})
  }

  lemma {:induction false} GapHides(pattern: seq<bool>, i: nat, j: nat, k: nat)
    returns (ms: Manifests, chain: seq<Hash>)
    requires i < j < k < |pattern| && pattern[i] && pattern[k] && !pattern[j]
    ensures HidesWidening(pattern, ms, 0, None, {}, chain)
  {
    hide LinkAllowed, WidensDerivatives, Rank;
    var n := |pattern|;
    ms := map h: Hash | 0 <= h < n :: GapMember(pattern, j, h);
    chain := seq(n, h requires 0 <= h < n => h);
    forall h | 0 <= h < n - 1
      ensures LinkAllowed(ms[chain[h]], ms[chain[h + 1]])
    {
      GapLink(pattern, j, h);
    }
    GapWidens(pattern, i, j, k);
    assert ms[chain[i]] == GapMember(pattern, j, i) && ms[chain[k]] == GapMember(pattern, j, k);
  }

  lemma {:induction false} GapLink(pattern: seq<bool>, j: nat, h: nat)
    requires j < |pattern| && !pattern[j] && h + 1 < |pattern|
    ensures LinkAllowed(GapMember(pattern, j, h), GapMember(pattern, j, h + 1))
  {
  }

  lemma {:induction false} GapWidens(pattern: seq<bool>, i: nat, j: nat, k: nat)
    requires i < j < k < |pattern| && pattern[i] && pattern[k]
    ensures var c, p := GapMember(pattern, j, i).derivatives, GapMember(pattern, j, k).derivatives;
      c.Some? && p.Some? && Rank(c.value) > Rank(p.value)
  {
  }

  /**
   Policies are monotone end to end in every accepted lineage of a pattern of declarations
   exactly when the pattern has no gap. The pattern can be read off the manifests beforehand.
   */
  lemma {:induction false} PolicyMonotoneExact(pattern: seq<bool>)
    ensures Gapless(pattern) <==>
      forall ms, leaf, logged, revoked, chain :: !HidesWidening(pattern, ms, leaf, logged, revoked, chain)
  {
    if Gapless(pattern) {
      forall ms, leaf, logged, revoked, chain
        | IsLineage(ms, leaf, logged, revoked, chain) && Declared(ms, chain) == pattern
        ensures PolicyMonotone(ms, chain)
      {
        GaplessMonotone(ms, leaf, logged, revoked, chain);
      }
    } else {
      var i, j, k :| 0 <= i < j < k < |pattern| && pattern[i] && pattern[k] && !pattern[j];
      var ms, chain := GapHides(pattern, i, j, k);
    }
  }

  lemma {:induction false} GaplessMonotone(ms: Manifests, leaf: Hash, logged: Option<set<Hash>>, revoked: set<Hash>,
                                           chain: seq<Hash>)
    requires IsLineage(ms, leaf, logged, revoked, chain) && Gapless(Declared(ms, chain))
    ensures PolicyMonotone(ms, chain)
  {
    hide LinksAllowed, GatesOpen;
    var pattern := Declared(ms, chain);
    forall i, j | 0 <= i < j < |chain| && ms[chain[i]].derivatives.Some? && ms[chain[j]].derivatives.Some?
      ensures Rank(ms[chain[i]].derivatives.value) <= Rank(ms[chain[j]].derivatives.value)
    {
      assert pattern[i] && pattern[j];
      assert forall k :: i <= k <= j ==> pattern[k];
      assert forall k :: i <= k <= j ==> pattern[k] == ms[chain[k]].derivatives.Some?;
      PoliciesNarrow(ms, leaf, logged, revoked, chain, i, j);
    }
  }
}
