/**
 Model of the receipt-gated controller,
 `papers/receipt-gated-model-serving/experiments/controller_experiment.py:136-234` (variant
 "durable"), over its fake Pod and Service API.
 */
module Controller {
  import opened Wrappers

  /*
   Every API call and every ledger transaction is one step. Between any two steps somebody else
   may write Services, a create may fail, and the controller may crash and restart from its
   ledger. One controller action runs at a time. Signature checks are the setting's `verified`
   and `terminal`.
  */

  type Sid = nat
  type Name = nat
  type Receipt = nat
  type Service = nat    // spec and annotations of a Service object

  /** A ledger row: tombstone or admission, with the admission receipt that was recorded first. */
  datatype Row = Row(revoked: bool, admission: Option<Receipt>)

  /** What the planners of the sessions decide, and which Service each session owns. */
  datatype Setting = Setting(
    names: map<Sid, Name>,
    order: seq<Sid>,
    verified: (Sid, Receipt) -> Option<Service>,
    terminal: (Sid, Receipt) -> bool)
  {
    ghost predicate Valid() {
      && (forall s :: s in order <==> s in names)
      && (forall s, t :: s in names && t in names && names[s] == names[t] ==> s == t)
    }
  }

  /** Where an action continues once manifests are applied. */
  datatype Then = Return | Reconciling(todo: seq<Sid>)

  /** The next step of the running action. */
  datatype Pc =
    | Idle
    | AdmitLedger(sid: Sid, receipt: Receipt, service: Service)
    | PostPod(sid: Sid, service: Service, after: Then)
    | PostService(sid: Sid, service: Service, after: Then)
    | GetService(sid: Sid, service: Service, after: Then)
    | PutService(sid: Sid, service: Service, after: Then)
    | Tombstone(sid: Sid)
    | DeleteRevoked(sid: Sid)
    | Look(todo: seq<Sid>)
    | DeleteFound(sid: Sid, todo: seq<Sid>)
    | DeleteDrifted(sid: Sid, service: Service, todo: seq<Sid>)

  /** `touched` are the Services somebody else wrote since the last reconciliation began. */
  datatype World = World(ledger: map<Sid, Row>, services: map<Name, Service>, pc: Pc, touched: set<Name>)

  datatype Event =
    | BeginAdmit(sid: Sid, receipt: Receipt)
    | BeginRevoke(sid: Sid, receipt: Receipt)
    | BeginReconcile
    | Proceed(createFails: bool)      // the running action takes its next step
    | Crash
    | OthersPut(name: Name, service: Service)
    | OthersDelete(name: Name)

  function Resume(t: Then): (pc: Pc) {
    match t
    case Return => Idle
    case Reconciling(todo) => Look(todo)
  }

  function Apply(x: Setting, w: World, e: Event): (r: World)
    requires e.BeginAdmit? || e.BeginRevoke? ==> e.sid in x.names
    requires !w.pc.Idle? && !w.pc.Look? ==> w.pc.sid in x.names
    requires w.pc.Look? ==> forall s :: s in w.pc.todo ==> s in x.names
  {
    match e
    case BeginAdmit(sid, receipt) =>
      if x.verified(sid, receipt).None? then w
      else w.(pc := AdmitLedger(sid, receipt, x.verified(sid, receipt).value))
    case BeginRevoke(sid, receipt) => if x.terminal(sid, receipt) then w.(pc := Tombstone(sid)) else w
    case BeginReconcile => w.(pc := Look(x.order), touched := {})
    case Crash => w.(pc := Idle)
    case OthersPut(name, service) => w.(services := w.services[name := service], touched := w.touched + {name})
    case OthersDelete(name) => w.(services := w.services - {name})
    case Proceed(createFails) => Advance(x, w, createFails)
  }

  function Advance(x: Setting, w: World, createFails: bool): (r: World)
    requires !w.pc.Idle? && !w.pc.Look? ==> w.pc.sid in x.names
    requires w.pc.Look? ==> forall s :: s in w.pc.todo ==> s in x.names
  {
    match w.pc
    case Idle => w
    case AdmitLedger(sid, receipt, service) =>
      if sid in w.ledger && w.ledger[sid].revoked then w.(pc := Idle)
      else w.(ledger := if sid in w.ledger then w.ledger else w.ledger[sid := Row(false, Some(receipt))],
              pc := PostPod(sid, service, Return))
    case PostPod(sid, service, after) =>
      w.(pc := if createFails then Resume(after) else PostService(sid, service, after))
    case PostService(sid, service, after) =>
      if createFails then w.(pc := Resume(after))
      else if x.names[sid] in w.services then w.(pc := GetService(sid, service, after))
      else w.(services := w.services[x.names[sid] := service], pc := Resume(after))
    case GetService(sid, service, after) =>
      if x.names[sid] in w.services && w.services[x.names[sid]] == service then w.(pc := Resume(after))
      else w.(pc := PutService(sid, service, after))
    case PutService(sid, service, after) =>
      if x.names[sid] in w.services
      then w.(services := w.services[x.names[sid] := service], pc := Resume(after))
      else w.(pc := Resume(after))
    case Tombstone(sid) =>
      w.(ledger := w.ledger[sid := Row(true, if sid in w.ledger then w.ledger[sid].admission else None)],
         pc := DeleteRevoked(sid))
    case DeleteRevoked(sid) => w.(services := w.services - {x.names[sid]}, pc := Idle)
    case Look(todo) =>
      if todo == [] then w.(pc := Idle)
      else LookAt(x, w, todo[0], todo[1..])
    case DeleteFound(sid, todo) => w.(services := w.services - {x.names[sid]}, pc := Look(todo))
    case DeleteDrifted(sid, service, todo) =>
      w.(services := w.services - {x.names[sid]}, pc := PostPod(sid, service, Reconciling(todo)))
  }

  /** One session of a reconciliation: read its row, then its live Service. */
  function LookAt(x: Setting, w: World, sid: Sid, todo: seq<Sid>): (r: World)
    requires sid in x.names
  {
    var live := x.names[sid] in w.services;
    if sid !in w.ledger then w.(pc := Look(todo))
    else if w.ledger[sid].revoked then w.(pc := if live then DeleteFound(sid, todo) else Look(todo))
    else if w.ledger[sid].admission.None? || x.verified(sid, w.ledger[sid].admission.value).None? then w.(pc := Idle)
    else
      var expected := x.verified(sid, w.ledger[sid].admission.value).value;
      if live && w.services[x.names[sid]] == expected then w.(pc := Look(todo))
      else if live then w.(pc := DeleteDrifted(sid, expected, todo))
      else w.(pc := PostPod(sid, expected, Reconciling(todo)))
  }

  // ------------------------------------------------------------------ runs

  /** Actions do not overlap; everything else may happen at any time. */
  ghost predicate Allowed(x: Setting, w: World, e: Event) {
    && (e.BeginAdmit? || e.BeginRevoke? || e.BeginReconcile? ==> w.pc.Idle?)
    && (e.BeginAdmit? || e.BeginRevoke? ==> e.sid in x.names)
  }

  predicate Revoked(w: World, sid: Sid) {
    sid in w.ledger && w.ledger[sid].revoked
  }

  /** The controller is about to create or replace the session's Service. */
  predicate Writes(x: Setting, w: World, e: Event, sid: Sid)
    requires sid in x.names
  {
    && e.Proceed? && (w.pc.PostService? || w.pc.PutService?) && w.pc.sid in x.names
    && x.names[w.pc.sid] == x.names[sid]
  }

  predicate Applying(pc: Pc) {
    pc.PostPod? || pc.PostService? || pc.GetService? || pc.PutService?
  }

  /** What a running reconciliation has still to look at; None when none is running. */
  function Todo(pc: Pc): (t: Option<seq<Sid>>) {
    match pc
    case PostPod(_, _, Reconciling(todo)) => Some(todo)
    case PostService(_, _, Reconciling(todo)) => Some(todo)
    case GetService(_, _, Reconciling(todo)) => Some(todo)
    case PutService(_, _, Reconciling(todo)) => Some(todo)
    case Look(todo) => Some(todo)
    case DeleteFound(_, todo) => Some(todo)
    case DeleteDrifted(_, _, todo) => Some(todo)
    case _ => None
  }

  /** Already looked at by the running reconciliation, and settled. */
  predicate Settled(pc: Pc, sid: Sid) {
    Todo(pc).Some? && sid !in Todo(pc).value && !(pc.DeleteFound? && pc.sid == sid)
  }

  ghost predicate Invariant(x: Setting, w: World)
    requires x.Valid()
  {
    && (!w.pc.Idle? && !w.pc.Look? ==> w.pc.sid in x.names)
    && (Todo(w.pc).Some? ==> forall s :: s in Todo(w.pc).value ==> s in x.names)
    && ((Applying(w.pc) || w.pc.DeleteDrifted?) ==> w.pc.sid in w.ledger && !w.ledger[w.pc.sid].revoked)
    && (w.pc.DeleteFound? ==> Revoked(w, w.pc.sid))
    && (forall s :: s in w.ledger && !w.ledger[s].revoked ==>
          w.ledger[s].admission.Some? && x.verified(s, w.ledger[s].admission.value).Some?)
    && (w.pc.AdmitLedger? ==> x.verified(w.pc.sid, w.pc.receipt).Some?)
    && (forall s :: s in x.names && Revoked(w, s) && Settled(w.pc, s) ==>
          x.names[s] !in w.services || x.names[s] in w.touched)
  }

  lemma {:induction false} LookKeeps(x: Setting, w: World, createFails: bool)
    requires x.Valid() && Invariant(x, w) && w.pc.Look?
    ensures Invariant(x, Advance(x, w, createFails))
  {
    var todo := w.pc.todo;
    if todo != [] {
      assert todo == [todo[0]] + todo[1..];
    }
  }

  lemma {:induction false} ApplyKeeps(x: Setting, w: World, createFails: bool)
    requires x.Valid() && Invariant(x, w) && Applying(w.pc)
    ensures Invariant(x, Advance(x, w, createFails))
  {
  }

  lemma {:induction false} LedgerKeeps(x: Setting, w: World, createFails: bool)
    requires x.Valid() && Invariant(x, w) && (w.pc.AdmitLedger? || w.pc.Tombstone?)
    ensures Invariant(x, Advance(x, w, createFails))
  {
  }

  lemma {:induction false} DeleteKeeps(x: Setting, w: World, createFails: bool)
    requires x.Valid() && Invariant(x, w)
    requires w.pc.DeleteRevoked? || w.pc.DeleteFound? || w.pc.DeleteDrifted?
    ensures Invariant(x, Advance(x, w, createFails))
  {
  }

  lemma {:induction false} IdleKeeps(x: Setting, w: World, createFails: bool)
    requires w.pc.Idle?
    ensures Advance(x, w, createFails) == w
  {
  }

  lemma {:induction false} StepKeeps(x: Setting, w: World, e: Event)
    requires x.Valid() && Invariant(x, w) && Allowed(x, w, e)
    ensures Invariant(x, Apply(x, w, e))
  {
    hide Advance;
    if e.Proceed? {
      match w.pc
      case Idle => IdleKeeps(x, w, e.createFails);
      case Look(_) => LookKeeps(x, w, e.createFails);
      case AdmitLedger(_, _, _) => LedgerKeeps(x, w, e.createFails);
      case Tombstone(_) => LedgerKeeps(x, w, e.createFails);
      case DeleteRevoked(_) => DeleteKeeps(x, w, e.createFails);
      case DeleteFound(_, _) => DeleteKeeps(x, w, e.createFails);
      case DeleteDrifted(_, _, _) => DeleteKeeps(x, w, e.createFails);
      case _ => ApplyKeeps(x, w, e.createFails);
    }
  }

  /** A tombstone survives every step, and no step of the controller writes the Service of a tombstone. */
  lemma {:induction false} StepRespects(x: Setting, w: World, e: Event, sid: Sid)
    requires x.Valid() && Invariant(x, w) && Allowed(x, w, e) && sid in x.names && Revoked(w, sid)
    ensures Revoked(Apply(x, w, e), sid)
    ensures !Writes(x, w, e, sid)
  {
  }

  ghost predicate AllAllowed(x: Setting, w: World, events: seq<Event>)
    requires x.Valid() && Invariant(x, w)
    decreases |events|
  {
    events != [] ==>
      && Allowed(x, w, events[0])
      && (StepKeeps(x, w, events[0]); AllAllowed(x, Apply(x, w, events[0]), events[1..]))
  }

  /** Over a whole run, the controller never creates or replaces the session's Service. */
  ghost predicate NeverWritten(x: Setting, w: World, events: seq<Event>, sid: Sid)
    requires x.Valid() && Invariant(x, w) && AllAllowed(x, w, events) && sid in x.names
    decreases |events|
  {
    events != [] ==>
      && !Writes(x, w, events[0], sid)
      && (StepKeeps(x, w, events[0]); NeverWritten(x, Apply(x, w, events[0]), events[1..], sid))
  }

  ghost function After(x: Setting, w: World, events: seq<Event>): (r: World)
    requires x.Valid() && Invariant(x, w) && AllAllowed(x, w, events)
    ensures Invariant(x, r)
    decreases |events|
  {
    if events == [] then w
    else
      StepKeeps(x, w, events[0]);
      After(x, Apply(x, w, events[0]), events[1..])
  }

  /** From the tombstone on, for ever: it stays, and the controller never writes that Service again. */
  lemma {:induction false} RevokedForever(x: Setting, w: World, events: seq<Event>, sid: Sid)
    requires x.Valid() && Invariant(x, w) && AllAllowed(x, w, events) && sid in x.names && Revoked(w, sid)
    ensures NeverWritten(x, w, events, sid)
    ensures Revoked(After(x, w, events), sid)
    decreases |events|
  {
    if events != [] {
      StepKeeps(x, w, events[0]);
      StepRespects(x, w, events[0], sid);
      RevokedForever(x, Apply(x, w, events[0]), events[1..], sid);
    }
  }

  function Start(): (w: World) {
    World(map[], map[], Idle, {})
  }

  lemma {:induction false} StartInvariant(x: Setting)
    requires x.Valid()
    ensures Invariant(x, Start())
  {
  }

  /** A world some run from an empty ledger and an empty API leads to. */
  ghost predicate Reachable(x: Setting, w: World)
    requires x.Valid()
  {
    StartInvariant(x);
    exists events :: AllAllowed(x, Start(), events) && After(x, Start(), events) == w
  }

  lemma {:induction false} ReachableInvariant(x: Setting, w: World)
    requires x.Valid() && Reachable(x, w)
    ensures Invariant(x, w)
  {
    StartInvariant(x);
    var events :| AllAllowed(x, Start(), events) && After(x, Start(), events) == w;
  }

  /**
   Any reconciliation that runs to its end leaves no revoked session routable, unless somebody
   else wrote that Service after it began; failed creates and crashes before it do not matter.
   */
  lemma {:induction false} ReconcileRemoves(x: Setting, w: World, sid: Sid)
    requires x.Valid() && Reachable(x, w) && sid in x.names
    requires w.pc == Look([]) && Revoked(w, sid)
    ensures var done := Apply(x, w, Proceed(false));
      done.pc.Idle? && (x.names[sid] !in done.services || x.names[sid] in done.touched)
  {
    ReachableInvariant(x, w);
    assert Settled(w.pc, sid);
  }

  /** A completed revocation leaves the session revoked and its Service absent. */
  lemma {:induction false} RevokeRemoves(x: Setting, w: World, sid: Sid)
    requires x.Valid() && Reachable(x, w) && w.pc == Tombstone(sid) && sid in x.names
    ensures var marked := Apply(x, w, Proceed(false));
      var done := Apply(x, marked, Proceed(false));
      Revoked(marked, sid) && Revoked(done, sid) && done.pc.Idle? && x.names[sid] !in done.services
  {
  }

  /** Nobody else puts this Service during the run. */
  predicate LeftAlone(events: seq<Event>, name: Name) {
    forall i :: 0 <= i < |events| && events[i].OthersPut? ==> events[i].name != name
  }

  /** A step that does not write a Service and is not somebody else's put does not make it appear. */
  lemma {:induction false} StepKeepsAbsent(x: Setting, w: World, e: Event, sid: Sid)
    requires x.Valid() && Invariant(x, w) && Allowed(x, w, e) && sid in x.names && Revoked(w, sid)
    requires x.names[sid] !in w.services && (e.OthersPut? ==> e.name != x.names[sid])
    ensures x.names[sid] !in Apply(x, w, e).services
  {
    StepRespects(x, w, e, sid);
  }

  lemma {:induction false} StaysAbsent(x: Setting, w: World, events: seq<Event>, sid: Sid)
    requires x.Valid() && Invariant(x, w) && AllAllowed(x, w, events) && sid in x.names && Revoked(w, sid)
    requires x.names[sid] !in w.services && LeftAlone(events, x.names[sid])
    ensures x.names[sid] !in After(x, w, events).services
    decreases |events|
  {
    hide Apply;
    if events != [] {
      StepKeeps(x, w, events[0]);
      StepRespects(x, w, events[0], sid);
      StepKeepsAbsent(x, w, events[0], sid);
      StaysAbsent(x, Apply(x, w, events[0]), events[1..], sid);
    }
  }

  /**
   From a reachable world in which a session is revoked, for ever: the tombstone stays, the
   controller never writes the Service, and once the Service is absent it stays so, crashes and
   all, until somebody else puts it.
   */
  lemma {:induction false} RevokedStaysUnroutable(x: Setting, w: World, events: seq<Event>, sid: Sid)
    requires x.Valid() && Reachable(x, w) && sid in x.names && Revoked(w, sid)
    requires Invariant(x, w) ==> AllAllowed(x, w, events)
    ensures Invariant(x, w) && NeverWritten(x, w, events, sid) && Revoked(After(x, w, events), sid)
    ensures x.names[sid] !in w.services && LeftAlone(events, x.names[sid]) ==>
      x.names[sid] !in After(x, w, events).services
  {
    ReachableInvariant(x, w);
    RevokedForever(x, w, events, sid);
    if x.names[sid] !in w.services && LeftAlone(events, x.names[sid]) {
      StaysAbsent(x, w, events, sid);
    }
  }

  // ------------------------------------------------------------------ actions that run to their end

  /** The running action takes `n` steps, every create succeeding and nobody else writing. */
  ghost function Alone(x: Setting, w: World, n: nat): (r: World)
    requires x.Valid() && Invariant(x, w)
    ensures Invariant(x, r)
    decreases n
  {
    if n == 0 then w
    else
      StepKeeps(x, w, Proceed(false));
      Alone(x, Apply(x, w, Proceed(false)), n - 1)
  }

  lemma {:induction false} AloneStep(x: Setting, w: World)
    requires x.Valid() && Invariant(x, w)
    ensures Invariant(x, Apply(x, w, Proceed(false))) && Alone(x, w, 1) == Apply(x, w, Proceed(false))
  {
    StepKeeps(x, w, Proceed(false));
    assert Alone(x, Apply(x, w, Proceed(false)), 0) == Apply(x, w, Proceed(false));
  }

  lemma {:induction false} AloneMore(x: Setting, w: World, n: nat, m: nat)
    requires x.Valid() && Invariant(x, w)
    ensures Alone(x, Alone(x, w, n), m) == Alone(x, w, n + m)
    decreases n
  {
    hide Advance;
    if n > 0 {
      StepKeeps(x, w, Proceed(false));
      AloneMore(x, Apply(x, w, Proceed(false)), n - 1, m);
    }
  }

  /** Applying manifests ends with exactly this Service under the session's name, and nothing else changed. */
  lemma {:induction false} Placed(x: Setting, w: World) returns (n: nat)
    requires x.Valid() && Invariant(x, w) && Applying(w.pc)
    requires w.pc.GetService? || w.pc.PutService? ==> x.names[w.pc.sid] in w.services
    ensures Alone(x, w, n) ==
      w.(services := w.services[x.names[w.pc.sid] := w.pc.service], pc := Resume(w.pc.after))
    decreases if w.pc.PostPod? then 3 else if w.pc.PostService? then 2 else if w.pc.GetService? then 1 else 0
  {
    var next := Apply(x, w, Proceed(false));
    var name := x.names[w.pc.sid];
    AloneStep(x, w);
    hide Invariant, Alone;
    if w.pc.PostPod? || (w.pc.PostService? && name in w.services)
       || (w.pc.GetService? && w.services[name] != w.pc.service) {
      var m := Placed(x, next);
      AloneMore(x, w, 1, m);
      n := 1 + m;
    } else {
      n := 1;
    }
  }

  /**
   An admission that runs to its end leaves exactly the Service its receipt verified under the
   session's name and the session admitted, and nothing else changed; a revoked one changes nothing.
   */
  lemma {:induction false} AdmissionServes(x: Setting, w: World, sid: Sid, receipt: Receipt) returns (n: nat)
    requires x.Valid() && Invariant(x, w) && w.pc.Idle? && sid in x.names && x.verified(sid, receipt).Some?
    ensures Invariant(x, Apply(x, w, BeginAdmit(sid, receipt)))
    ensures var done := Alone(x, Apply(x, w, BeginAdmit(sid, receipt)), n);
      && done.pc == Idle && done.touched == w.touched
      && if sid in w.ledger && w.ledger[sid].revoked then done.services == w.services && done.ledger == w.ledger
         else
           && done.services == w.services[x.names[sid] := x.verified(sid, receipt).value]
           && done.ledger == if sid in w.ledger then w.ledger else w.ledger[sid := Row(false, Some(receipt))]
  {
    StepKeeps(x, w, BeginAdmit(sid, receipt));
    var begun := Apply(x, w, BeginAdmit(sid, receipt));
    AloneStep(x, begun);
    var next := Apply(x, begun, Proceed(false));
    hide Invariant, Alone;
    n := 1;
    if !(sid in w.ledger && w.ledger[sid].revoked) {
      var m := Placed(x, next);
      AloneMore(x, begun, 1, m);
      n := 1 + m;
    }
  }

  /** What a reconciliation is to leave under a session's name, given what was there. */
  ghost predicate Reconciled(x: Setting, ledger: map<Sid, Row>, was: map<Name, Service>, now: map<Name, Service>,
                             sid: Sid)
    requires sid in x.names
  {
    var name := x.names[sid];
    if sid !in ledger then (name in now <==> name in was) && (name in was ==> now[name] == was[name])
    else if ledger[sid].revoked then name !in now
    else
      && ledger[sid].admission.Some? && x.verified(sid, ledger[sid].admission.value).Some?
      && name in now && now[name] == x.verified(sid, ledger[sid].admission.value).value
  }

  ghost predicate SameElsewhere(was: map<Name, Service>, now: map<Name, Service>, name: Name) {
    forall n :: n != name ==> (n in now <==> n in was) && (n in was ==> now[n] == was[n])
  }

  /** A reconciliation between two sessions, with these still to look at. */
  ghost predicate Looking(w: World, todo: seq<Sid>, begun: World) {
    w.pc == Look(todo) && w.ledger == begun.ledger && w.touched == begun.touched
  }

  /** A drifted Service is deleted first; either way the expected one ends up in its place. */
  lemma {:induction false} Repaired(x: Setting, w: World) returns (n: nat)
    requires x.Valid() && Invariant(x, w) && (w.pc.DeleteDrifted? || (w.pc.PostPod? && w.pc.after.Reconciling?))
    ensures Alone(x, w, n) == w.(services := w.services[x.names[w.pc.sid] := w.pc.service],
                                 pc := Look(if w.pc.DeleteDrifted? then w.pc.todo else w.pc.after.todo))
  {
    if w.pc.DeleteDrifted? {
      var next := Apply(x, w, Proceed(false));
      AloneStep(x, w);
      hide Alone, Invariant;
      var m := Placed(x, next);
      AloneMore(x, w, 1, m);
      n := 1 + m;
      var name := x.names[w.pc.sid];
      assert (w.services - {name})[name := w.pc.service] == w.services[name := w.pc.service];
    } else {
      n := Placed(x, w);
    }
  }

  /** One session of a reconciliation, run to its end. */
  lemma {:induction false} OneSession(x: Setting, w: World) returns (n: nat)
    requires x.Valid() && Invariant(x, w) && w.pc.Look? && w.pc.todo != []
    ensures var (sid, next) := (w.pc.todo[0], Alone(x, w, n));
      && sid in x.names
      && Looking(next, w.pc.todo[1..], w)
      && SameElsewhere(w.services, next.services, x.names[sid])
      && Reconciled(x, w.ledger, w.services, next.services, sid)
  {
    var sid := w.pc.todo[0];
    assert sid in w.pc.todo;
    var next := Apply(x, w, Proceed(false));
    AloneStep(x, w);
    var admitted := sid in w.ledger && !w.ledger[sid].revoked;
    assert admitted ==> w.ledger[sid].admission.Some? && x.verified(sid, w.ledger[sid].admission.value).Some?;
    hide Alone, Invariant;
    n := 1;
    if next.pc.DeleteFound? {
      AloneStep(x, next);
      AloneMore(x, w, 1, 1);
      n := 2;
    } else if next.pc.DeleteDrifted? || next.pc.PostPod? {
      var m := Repaired(x, next);
      AloneMore(x, w, 1, m);
      n := 1 + m;
    }
  }

  /** The world a run of one action leads to, with every session of `done` reconciled against where it began. */
  ghost predicate ReconciledAll(x: Setting, begun: World, w: World, done: set<Sid>)
  {
    && done <= x.names.Keys
    && (forall s :: s in done ==> Reconciled(x, begun.ledger, begun.services, w.services, s))
    && (forall name :: (forall s :: s in done ==> x.names[s] != name) ==>
          (name in w.services <==> name in begun.services)
          && (name in begun.services ==> w.services[name] == begun.services[name]))
  }

  /** Reconciling one more session keeps what was reconciled, the session's own earlier turn included. */
  lemma {:induction false} OneMore(x: Setting, begun: World, w: World, next: World, done: set<Sid>, sid: Sid)
    requires x.Valid() && ReconciledAll(x, begun, w, done) && sid in x.names && w.ledger == begun.ledger
    requires SameElsewhere(w.services, next.services, x.names[sid])
    requires Reconciled(x, w.ledger, w.services, next.services, sid)
    ensures ReconciledAll(x, begun, next, done + {sid})
  {
    forall s | s in done + {sid}
      ensures Reconciled(x, begun.ledger, begun.services, next.services, s)
    {
      if s != sid {
        assert x.names[s] != x.names[sid];
      }
    }
  }

  lemma {:induction false} RestReconciled(x: Setting, begun: World, w: World, done: set<Sid>) returns (n: nat)
    requires x.Valid() && Invariant(x, w) && w.pc.Look? && Looking(w, w.pc.todo, begun)
    requires ReconciledAll(x, begun, w, done)
    ensures var end := Alone(x, w, n);
      && end.pc == Idle && end.ledger == begun.ledger && end.touched == begun.touched
      && ReconciledAll(x, begun, end, done + set s | s in w.pc.todo)
    decreases |w.pc.todo|
  {
    hide Invariant, Alone, ReconciledAll, Reconciled, SameElsewhere;
    var all := set s | s in w.pc.todo;
    if w.pc.todo == [] {
      AloneStep(x, w);
      n := 1;
      assert done + all == done;
      assert Apply(x, w, Proceed(false)).services == w.services;
      SameReconciled(x, begun, w, Apply(x, w, Proceed(false)), done);
    } else {
      var first := OneSession(x, w);
      var next := Alone(x, w, first);
      var (sid, rest) := (w.pc.todo[0], w.pc.todo[1..]);
      OneMore(x, begun, w, next, done, sid);
      var m := RestReconciled(x, begun, next, done + {sid});
      AloneMore(x, w, first, m);
      n := first + m;
      assert w.pc.todo == [sid] + rest;
      assert done + all == done + {sid} + set s | s in rest;
    }
  }

  lemma {:induction false} SameReconciled(x: Setting, begun: World, w: World, next: World, done: set<Sid>)
    requires ReconciledAll(x, begun, w, done) && next.services == w.services
    ensures ReconciledAll(x, begun, next, done)
  {
  }

  /**
   A reconciliation that runs to its end repairs everything at once: every admitted session's
   Service is the one its recorded admission verifies, every revoked session's is gone, and no
   other Service, ledger row or session is changed.
   */
  lemma {:induction false} ReconcileRestores(x: Setting, w: World) returns (n: nat)
    requires x.Valid() && Invariant(x, w) && w.pc.Idle?
    ensures Invariant(x, Apply(x, w, BeginReconcile))
    ensures var end := Alone(x, Apply(x, w, BeginReconcile), n);
      && end.pc == Idle && end.ledger == w.ledger && end.touched == {}
      && (forall s :: s in x.names ==> Reconciled(x, w.ledger, w.services, end.services, s))
      && (forall name :: (forall s :: s in x.names ==> x.names[s] != name) ==>
            (name in end.services <==> name in w.services)
            && (name in w.services ==> end.services[name] == w.services[name]))
  {
    StepKeeps(x, w, BeginReconcile);
    var begun := Apply(x, w, BeginReconcile);
    assert (set s | s in x.order) == x.names.Keys;
    hide Invariant, Alone, Reconciled;
    n := RestReconciled(x, begun, begun, {});
  }
}
