/** Model of the owner's durable epoch floor: `python/src/wcm/provisioning_state.py`. */
module EpochFloor {

  /*
   One table is shared by any number of owner processes. `guard` holds the write transaction until the guarded
   operation ends, so every run is a sequence of whole guarded operations, and each of them may fail anywhere.
  */

  type Namespace = string

  /** SHA-256 of the policy context, taken as injective. */
  datatype Digest = Sha256(context: seq<bv8>)

  datatype Floor = Floor(epoch: int, digest: Digest)

  type Table = map<Namespace, Floor>

  /** How the guarded operation and its commit end. */
  datatype Ending = OperationFails | CommitFails | Commits

  datatype Guarded = Guarded(namespace: Namespace, epoch: int, context: seq<bv8>, admit: bool, ending: Ending)

  datatype Outcome = FloorMissing | Rollback | NotAdmitted | Failed | Committed

  /** The committed `policy_floor` table. */
  class OwnerDatabase {
    var rows: Table

    constructor ()
      ensures rows == map[]
    {
      rows := map[];
    }

    /** One guarded operation: it runs only if the floor lets it, and leaves its floor behind only if it commits. */
    method Guard(op: Guarded) returns (outcome: Outcome)
      modifies this
      ensures outcome == Decide(old(rows), op)
      ensures rows == After(old(rows), op)
    {
      var ns, epoch, digest := op.namespace, op.epoch, Sha256(op.context);
      var pending := rows;
      if ns !in pending {
        if !op.admit {
          return FloorMissing;
        }
        pending := pending[ns := Floor(epoch, digest)];
      } else {
        var floor := pending[ns].epoch;
        if epoch < floor || (epoch == floor && digest != pending[ns].digest) {
          return Rollback;
        }
        if epoch > floor {
          if !op.admit {
            return NotAdmitted;
          }
          pending := pending[ns := Floor(epoch, digest)];
        }
      }
      if op.ending == Commits {
        rows := pending;
        outcome := Committed;
      } else {
        outcome := Failed;
      }
    }
  }

  // ------------------------------------------------------------------ one guarded operation

  function Wanted(op: Guarded): (f: Floor) {
    Floor(op.epoch, Sha256(op.context))
  }

  /** The operation may run: exactly at its floor, or above it, or without one, when it admits a new policy. */
  predicate MayRun(rows: Table, op: Guarded) {
    || (op.namespace in rows && rows[op.namespace] == Wanted(op))
    || (op.admit && (op.namespace in rows ==> rows[op.namespace].epoch < op.epoch))
  }

  function Decide(rows: Table, op: Guarded): (outcome: Outcome)
    ensures outcome in {Failed, Committed} <==> MayRun(rows, op)
    ensures outcome == Committed <==> MayRun(rows, op) && op.ending == Commits
  {
    if op.namespace !in rows && !op.admit then FloorMissing
    else if op.namespace in rows && op.epoch < rows[op.namespace].epoch then Rollback
    else if op.namespace in rows && op.epoch == rows[op.namespace].epoch && rows[op.namespace] != Wanted(op)
    then Rollback
    else if op.namespace in rows && op.epoch > rows[op.namespace].epoch && !op.admit then NotAdmitted
    else if op.ending == Commits then Committed
    else Failed
  }

  /** Only a commit moves the floor, to what it ran with. */
  function After(rows: Table, op: Guarded): (after: Table) {
    if Decide(rows, op) == Committed then rows[op.namespace := Wanted(op)] else rows
  }

  // ------------------------------------------------------------------ runs

  /** The table before the `n`-th operation of a run. */
  function TableAt(rows: Table, run: seq<Guarded>, n: nat): (t: Table)
    requires n <= |run|
  {
    if n == 0 then rows else After(TableAt(rows, run, n - 1), run[n - 1])
  }

  predicate CommittedAt(rows: Table, run: seq<Guarded>, n: nat)
    requires n < |run|
  {
    Decide(TableAt(rows, run, n), run[n]) == Committed
  }

  /** Committed epochs never decrease, and an epoch keeps its digest for as long as it is the floor. */
  lemma {:induction false} FloorsNeverFall(rows: Table, run: seq<Guarded>, m: nat, n: nat, ns: Namespace)
    requires m <= n <= |run| && ns in TableAt(rows, run, m)
    ensures ns in TableAt(rows, run, n)
    ensures TableAt(rows, run, m)[ns].epoch <= TableAt(rows, run, n)[ns].epoch
    ensures TableAt(rows, run, m)[ns].epoch == TableAt(rows, run, n)[ns].epoch ==>
      TableAt(rows, run, m)[ns] == TableAt(rows, run, n)[ns]
    decreases n - m
  {
    if m < n {
      FloorsNeverFall(rows, run, m, n - 1, ns);
    }
  }

  /** A committed operation ran with exactly the floor it leaves behind. */
  lemma {:induction false} CommittedIsTheFloor(rows: Table, run: seq<Guarded>, n: nat)
    requires n < |run| && CommittedAt(rows, run, n)
    ensures run[n].namespace in TableAt(rows, run, n + 1)
    ensures TableAt(rows, run, n + 1)[run[n].namespace] == Wanted(run[n])
  {
    assert TableAt(rows, run, n + 1) == After(TableAt(rows, run, n), run[n]);
  }

  /** Two committed operations of a namespace never go back, and share their context when they share their epoch. */
  lemma {:induction false} OneContextPerEpoch(rows: Table, run: seq<Guarded>, m: nat, n: nat)
    requires m < n < |run| && CommittedAt(rows, run, m) && CommittedAt(rows, run, n)
    requires run[m].namespace == run[n].namespace
    ensures run[m].epoch <= run[n].epoch
    ensures run[m].epoch == run[n].epoch ==> run[m].context == run[n].context
  {
    CommittedIsTheFloor(rows, run, m);
    CommittedIsTheFloor(rows, run, n);
    FloorsNeverFall(rows, run, m + 1, n + 1, run[m].namespace);
  }

  // ------------------------------------------------------------------ the floor, from the log of commits

  /** Some earlier operation of the namespace committed with just this. */
  ghost predicate CommittedBefore(run: seq<Guarded>, n: nat, ns: Namespace, f: Floor)
    requires n <= |run|
  {
    exists m :: 0 <= m < n && CommittedAt(map[], run, m) && run[m].namespace == ns && Wanted(run[m]) == f
  }

  /** The floor is the last thing committed, if anything was. */
  lemma {:induction false} FloorWasCommitted(run: seq<Guarded>, n: nat, ns: Namespace)
    requires n <= |run|
    ensures ns in TableAt(map[], run, n) ==> CommittedBefore(run, n, ns, TableAt(map[], run, n)[ns])
    ensures ns !in TableAt(map[], run, n) ==>
      forall m :: 0 <= m < n && CommittedAt(map[], run, m) ==> run[m].namespace != ns
  {
    hide Decide, MayRun;
    if n > 0 {
      FloorWasCommitted(run, n - 1, ns);
      var before := TableAt(map[], run, n - 1);
      if CommittedAt(map[], run, n - 1) && run[n - 1].namespace == ns {
        assert CommittedBefore(run, n, ns, Wanted(run[n - 1]));
      } else if ns in before {
        var m :| 0 <= m < n - 1 && CommittedAt(map[], run, m) && run[m].namespace == ns && Wanted(run[m]) == before[ns];
        assert CommittedBefore(run, n, ns, before[ns]);
      }
    }
  }

  /** The log of commits alone says whether an operation commits: none of its namespace is above it, all at its
      epoch have its context, and either there is one of those or it admits its policy. */
  ghost predicate LogAllows(run: seq<Guarded>, n: nat)
    requires n < |run|
  {
    && run[n].ending == Commits
    && (forall m :: 0 <= m < n && CommittedAt(map[], run, m) && run[m].namespace == run[n].namespace ==>
          run[m].epoch <= run[n].epoch && (run[m].epoch == run[n].epoch ==> run[m].context == run[n].context))
    && (CommittedBefore(run, n, run[n].namespace, Wanted(run[n])) || run[n].admit)
  }

  lemma {:induction false} CommitExact(run: seq<Guarded>, n: nat)
    requires n < |run|
    ensures CommittedAt(map[], run, n) <==> LogAllows(run, n)
  {
    var rows, op := TableAt(map[], run, n), run[n];
    var ns := op.namespace;
    FloorWasCommitted(run, n, ns);
    forall m | 0 <= m < n && CommittedAt(map[], run, m) && run[m].namespace == ns
      ensures ns in rows && run[m].epoch <= rows[ns].epoch
      ensures run[m].epoch == rows[ns].epoch ==> Wanted(run[m]) == rows[ns]
    {
      CommittedIsTheFloor(map[], run, m);
      FloorsNeverFall(map[], run, m + 1, n, ns);
    }
  }

  /** Something of the namespace committed before, at this epoch or above it. */
  ghost predicate CommittedAbove(run: seq<Guarded>, n: nat, epoch: int)
    requires n < |run|
  {
    exists m ::
      0 <= m < n && CommittedAt(map[], run, m) && run[m].namespace == run[n].namespace && run[m].epoch > epoch
  }

  /** Something of the namespace committed before at the same epoch with another context. */
  ghost predicate CommittedOtherwise(run: seq<Guarded>, n: nat)
    requires n < |run|
  {
    exists m ::
      && 0 <= m < n && CommittedAt(map[], run, m) && run[m].namespace == run[n].namespace
      && run[m].epoch == run[n].epoch && run[m].context != run[n].context
  }

  ghost predicate CommittedEver(run: seq<Guarded>, n: nat)
    requires n < |run|
  {
    exists m :: 0 <= m < n && CommittedAt(map[], run, m) && run[m].namespace == run[n].namespace
  }

  /**
   Why an operation is refused, from the log of commits alone: it goes back behind a commit or
   contradicts one of its epoch; it is new to a namespace that has commits, or the namespace has
   none, and it admits nothing. Whatever else fails is its own or its commit's failure.
   */
  lemma {:induction false} RefusedExactly(run: seq<Guarded>, n: nat)
    requires n < |run|
    ensures var outcome := Decide(TableAt(map[], run, n), run[n]);
      var back := CommittedAbove(run, n, run[n].epoch) || CommittedOtherwise(run, n);
      var known := CommittedBefore(run, n, run[n].namespace, Floor(run[n].epoch, Sha256(run[n].context)));
      && (outcome == Rollback <==> back)
      && (outcome == FloorMissing <==> !CommittedEver(run, n) && !run[n].admit)
      && (outcome == NotAdmitted <==> CommittedEver(run, n) && !back && !known && !run[n].admit)
      && (outcome == Failed <==> !back && (known || run[n].admit) && run[n].ending != Commits)
  {
    var rows, op := TableAt(map[], run, n), run[n];
    var ns := op.namespace;
    FloorWasCommitted(run, n, ns);
    hide TableAt;
    forall m | 0 <= m < n && CommittedAt(map[], run, m) && run[m].namespace == ns
      ensures ns in rows && run[m].epoch <= rows[ns].epoch
      ensures run[m].epoch == rows[ns].epoch ==> Wanted(run[m]) == rows[ns]
    {
      CommittedIsTheFloor(map[], run, m);
      FloorsNeverFall(map[], run, m + 1, n, ns);
    }
  }

  // ------------------------------------------------------------------ namespaces

  function Only(run: seq<Guarded>, ns: Namespace): (r: seq<Guarded>)
    ensures forall op :: op in r <==> op in run && op.namespace == ns
  {
    if run == [] then []
    else
      var rest := Only(run[..|run| - 1], ns);
      if run[|run| - 1].namespace == ns then rest + [run[|run| - 1]] else rest
  }

  predicate AgreeOn(a: Table, b: Table, ns: Namespace) {
    (ns in a <==> ns in b) && (ns in a ==> a[ns] == b[ns])
  }

  /** The decision on an operation, and the floor it leaves, are its namespace's alone. */
  lemma {:induction false} StepIsLocal(a: Table, b: Table, op: Guarded, ns: Namespace)
    requires AgreeOn(a, b, ns)
    ensures op.namespace == ns ==> Decide(a, op) == Decide(b, op) && AgreeOn(After(a, op), After(b, op), ns)
    ensures op.namespace != ns ==> AgreeOn(After(a, op), b, ns)
  {
  }

  lemma {:induction false} TableOfPrefix(rows: Table, run: seq<Guarded>, longer: seq<Guarded>, n: nat)
    requires n <= |run| && run <= longer
    ensures TableAt(rows, run, n) == TableAt(rows, longer, n)
    decreases n
  {
    if n > 0 {
      TableOfPrefix(rows, run, longer, n - 1);
    }
  }

  /** What a namespace sees of a run is what it would see alone. */
  lemma {:induction false} NamespacesDoNotInterfere(rows: Table, run: seq<Guarded>, ns: Namespace)
    ensures AgreeOn(TableAt(rows, run, |run|), TableAt(rows, Only(run, ns), |Only(run, ns)|), ns)
  {
    hide Decide, After;
    if run != [] {
      var front, last := run[..|run| - 1], run[|run| - 1];
      var own := Only(front, ns);
      NamespacesDoNotInterfere(rows, front, ns);
      TableOfPrefix(rows, front, run, |front|);
      StepIsLocal(TableAt(rows, front, |front|), TableAt(rows, own, |own|), last, ns);
      if last.namespace == ns {
        TableOfPrefix(rows, own, own + [last], |own|);
      }
    }
  }
}
