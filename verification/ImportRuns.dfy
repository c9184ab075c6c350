/**
 The life of one staged import run: staging with its conflict check, acceptance, dry runs, the real
 application inside a transaction, and what all of them leave behind in the table and in the status.
 */
module ImportRuns {
  import opened Wrappers
  import Documents
  import opened ImportDiff
  import opened ImportApply

  datatype Status = PendingReview | Accepted | Applied | DiscardedRun | ApplyFailed

  /** A staged run beside the committed table. */
  datatype RunState = RunState(table: Table, status: Status, ops: seq<Op>, hasConflicts: bool)

  /** What follows the commit: nothing, effects that succeed, or effects that raise. */
  datatype PostApply = Off | Succeeds | Raises

  datatype ApplyResult = ApplyResult(
    dryRun: bool, status: Status, touched: seq<Key>, applied: nat, skipped: nat, alreadyApplied: bool)

  /**
   The loop with a database that may fail: a fault at i strikes before the i-th operation, and one
   at the number of operations or beyond strikes at the commit.
   */
  function RunWithFault(t: Table, ops: seq<Op>, dryRun: bool, fault: Option<nat>): Result<Progress, ApplyError> {
    if ops == [] then Success(Progress(t, [], 0, 0))
    else
      match RunWithFault(t, ops[..|ops| - 1], dryRun, fault)
      case Failure(e) => Failure(e)
      case Success(p) =>
        if fault == Some(|ops| - 1) then Failure(DatabaseFault) else ApplyOp(p, ops[|ops| - 1], dryRun)
  }

  lemma {:induction false} FaultOrSameRun(t: Table, ops: seq<Op>, dryRun: bool, fault: Option<nat>)
    ensures RunWithFault(t, ops, dryRun, fault) == RunOps(t, ops, dryRun)
      || (fault.Some? && fault.value < |ops| && RunWithFault(t, ops, dryRun, fault) == Failure(DatabaseFault))
  {
    if ops != [] {
      FaultOrSameRun(t, ops[..|ops| - 1], dryRun, fault);
    }
  }

  function AcceptStep(s: RunState): RunState {
    if s.status.DiscardedRun? || s.status.Applied? || s.hasConflicts then s else s.(status := Accepted)
  }

  function DiscardStep(s: RunState): RunState {
    if s.status.Applied? then s else s.(status := DiscardedRun)
  }

  predicate CommitFails(s: RunState, fault: Option<nat>) {
    fault.Some? && fault.value >= |s.ops|
  }

  function ApplyStep(s: RunState, dryRun: bool, fault: Option<nat>, post: PostApply)
    : (RunState, Result<ApplyResult, ApplyError>)
  {
    if s.status.DiscardedRun? then (s, Failure(ApplyError.Discarded))
    else if s.hasConflicts then (s, Failure(ApplyError.HasConflicts))
    else if !dryRun && s.status.Applied? then (s, Success(ApplyResult(false, Applied, [], 0, 0, true)))
    else if !dryRun && !s.status.Accepted? then (s, Failure(NotAccepted))
    else
      var failed := if dryRun then s else s.(status := ApplyFailed);
      match RunWithFault(s.table, s.ops, dryRun, fault)
      case Failure(e) => (failed, Failure(e))
      case Success(p) =>
        if dryRun then (s, Success(ApplyResult(true, s.status, p.touched, p.applied, p.skipped, false)))
        else if CommitFails(s, fault) then (failed, Failure(DatabaseFault))
        else if post.Raises? && p.touched != [] then
          (s.(table := p.table, status := ApplyFailed), Failure(PostApplyFailed))
        else
          (s.(table := p.table, status := Applied), Success(ApplyResult(false, Applied, p.touched, p.applied, p.skipped, false)))
  }

  /** What the loop has at hand describes the outcome: the progress, or the error that ended it. */
  ghost predicate LoopResult(t: Table, ops: seq<Op>, dryRun: bool, fault: Option<nat>,
                             error: Option<ApplyError>, progress: Progress) {
    RunWithFault(t, ops, dryRun, fault) == if error.Some? then Failure(error.value) else Success(progress)
  }

  lemma NothingApplied(t: Table, ops: seq<Op>, dryRun: bool, fault: Option<nat>)
    ensures LoopResult(t, ops[..0], dryRun, fault, None, Progress(t, [], 0, 0))
  {
  }

  lemma OneMoreApplied(t: Table, ops: seq<Op>, i: nat, dryRun: bool, fault: Option<nat>, before: Progress,
                       r: Result<Progress, ApplyError>)
    requires i < |ops| && LoopResult(t, ops[..i], dryRun, fault, None, before)
    requires r == if fault == Some(i) then Failure(DatabaseFault) else ApplyOp(before, ops[i], dryRun)
    ensures match r
      case Failure(e) => LoopResult(t, ops[..i + 1], dryRun, fault, Some(e), before)
      case Success(p) => LoopResult(t, ops[..i + 1], dryRun, fault, None, p)
  {
    hide ApplyOp;
    assert ops[..i + 1][..i] == ops[..i];
  }

  lemma LoopReachesEnd(t: Table, ops: seq<Op>, i: nat, dryRun: bool, fault: Option<nat>,
                       error: Option<ApplyError>, progress: Progress)
    requires i <= |ops| && (error.None? ==> i == |ops|)
    requires LoopResult(t, ops[..i], dryRun, fault, error, progress)
    ensures LoopResult(t, ops, dryRun, fault, error, progress)
  {
    FaultReachesEnd(t, ops, i, dryRun, fault);
  }

  /** The run as stored: pending changes live in session until a commit or a rollback. */
  class StagedRun {
    var committed: Table
    var session: Table
    var status: Status
    const ops: seq<Op>
    const hasConflicts: bool

    constructor (table: Table, ops: seq<Op>, hasConflicts: bool)
      ensures State() == RunState(table, PendingReview, ops, hasConflicts) && session == committed
    {
      committed, session, status := table, table, PendingReview;
      this.ops, this.hasConflicts := ops, hasConflicts;
    }

    function State(): RunState
      reads this
    {
      RunState(committed, status, ops, hasConflicts)
    }

    method Accept()
      modifies this
      ensures State() == AcceptStep(old(State())) && session == old(session)
    {
      if status.DiscardedRun? || status.Applied? || hasConflicts {
        return;
      }
      status := Accepted;
    }

    method Discard()
      modifies this
      ensures State() == DiscardStep(old(State())) && session == old(session)
    {
      if status.Applied? {
        return;
      }
      status := DiscardedRun;
    }

    /** The loop over the operations, up to the first failure. */
    method ApplyOps(dryRun: bool, fault: Option<nat>)
      returns (error: Option<ApplyError>, touched: seq<Key>, applied: nat, skipped: nat)
      requires session == committed
      modifies this`session
      ensures LoopResult(committed, ops, dryRun, fault, error, Progress(session, touched, applied, skipped))
    {
      hide *;
      touched, applied, skipped, error := [], 0, 0, None;
      var i := 0;
      NothingApplied(committed, ops, dryRun, fault);
      while i < |ops| && error.None?
        invariant 0 <= i <= |ops|
        invariant LoopResult(committed, ops[..i], dryRun, fault, error, Progress(session, touched, applied, skipped))
        decreases |ops| - i, error.None?
      {
        ghost var before := Progress(session, touched, applied, skipped);
        var r := if fault == Some(i) then Failure(DatabaseFault)
                 else ApplyOp(Progress(session, touched, applied, skipped), ops[i], dryRun);
        OneMoreApplied(committed, ops, i, dryRun, fault, before, r);
        match r {
          case Failure(e) => error := Some(e);
          case Success(p) => session, touched, applied, skipped := p.table, p.touched, p.applied, p.skipped;
        }
        i := i + 1;
      }
      LoopReachesEnd(committed, ops, i, dryRun, fault, error, Progress(session, touched, applied, skipped));
    }

    /** The transaction: operations work on the session, failures roll it back. */
    method Apply(dryRun: bool, fault: Option<nat>, post: PostApply) returns (r: Result<ApplyResult, ApplyError>)
      requires session == committed
      modifies this
      ensures session == committed
      ensures (State(), r) == ApplyStep(old(State()), dryRun, fault, post)
    {
      hide RunWithFault;
      if status.DiscardedRun? {
        return Failure(ApplyError.Discarded);
      }
      if hasConflicts {
        return Failure(ApplyError.HasConflicts);
      }
      if !dryRun && status.Applied? {
        return Success(ApplyResult(false, Applied, [], 0, 0, true));
      }
      if !dryRun && !status.Accepted? {
        return Failure(NotAccepted);
      }
      var error, touched, applied, skipped := ApplyOps(dryRun, fault);
      if error.None? && dryRun {
        session := committed;
        return Success(ApplyResult(true, status, touched, applied, skipped, false));
      }
      if error.None? && fault.Some? && fault.value >= |ops| {
        error := Some(DatabaseFault);
      }
      if error.Some? {
        session := committed;
        if !dryRun {
          status := ApplyFailed;
        }
        return Failure(error.value);
      }
      status := Applied;
      committed := session;
      if post.Raises? && touched != [] {
        status := ApplyFailed;
        return Failure(PostApplyFailed);
      }
      r := Success(ApplyResult(false, Applied, touched, applied, skipped, false));
    }
  }

  lemma {:induction false} FaultReachesEnd(t: Table, ops: seq<Op>, i: nat, dryRun: bool, fault: Option<nat>)
    requires i <= |ops|
    ensures i == |ops| ==> RunWithFault(t, ops[..i], dryRun, fault) == RunWithFault(t, ops, dryRun, fault)
    ensures RunWithFault(t, ops[..i], dryRun, fault).Failure? ==>
      RunWithFault(t, ops, dryRun, fault) == RunWithFault(t, ops[..i], dryRun, fault)
    decreases |ops|
  {
    if i == |ops| {
      assert ops[..i] == ops;
    } else {
      FaultReachesEnd(t, ops[..|ops| - 1], i, dryRun, fault);
      assert ops[..|ops| - 1][..i] == ops[..i];
    }
  }

  // ---------------------------------------------------------------- runs of a run

  /** Steps on one staged run; Edit is anybody else writing the table. */
  datatype Action =
    | Accept
    | Discard
    | Apply(dryRun: bool, fault: Option<nat>, post: PostApply)
    | Edit(table: Table)

  function Exec(s: RunState, a: Action): RunState {
    match a
    case Accept => AcceptStep(s)
    case Discard => DiscardStep(s)
    case Apply(dryRun, fault, post) => ApplyStep(s, dryRun, fault, post).0
    case Edit(table) => s.(table := table)
  }

  function ExecAll(s: RunState, actions: seq<Action>): RunState {
    if actions == [] then s else Exec(ExecAll(s, actions[..|actions| - 1]), actions[|actions| - 1])
  }

  /** The step commits the operations. */
  ghost predicate TakesEffect(s: RunState, a: Action) {
    && a.Apply? && !a.dryRun && s.status.Accepted? && !s.hasConflicts
    && RunWithFault(s.table, s.ops, false, a.fault).Success? && !CommitFails(s, a.fault)
  }

  ghost function Effects(s: RunState, actions: seq<Action>): nat {
    if actions == [] then 0
    else
      var front := actions[..|actions| - 1];
      Effects(s, front) + if TakesEffect(ExecAll(s, front), actions[|actions| - 1]) then 1 else 0
  }

  lemma {:induction false} TouchedEverything(t: Table, ops: seq<Op>, dryRun: bool)
    ensures RunOps(t, ops, dryRun).Success? ==> |RunOps(t, ops, dryRun).value.touched| == |ops|
  {
    if ops != [] {
      TouchedEverything(t, ops[..|ops| - 1], dryRun);
    }
  }

  /**
   All or nothing: a step that commits leaves exactly the table after all operations, and any other
   step of the run leaves the table alone. A real attempt that does not commit ends in ApplyFailed,
   and one that commits ends in Applied unless the effects after the commit raise.
   */
  lemma AllOrNothing(s: RunState, a: Action)
    requires !a.Edit?
    ensures TakesEffect(s, a) ==>
      && RunOps(s.table, s.ops, false).Success?
      && Exec(s, a).table == RunOps(s.table, s.ops, false).value.table
      && (Exec(s, a).status.Applied? <==> !(a.post.Raises? && s.ops != []))
    ensures !TakesEffect(s, a) ==> Exec(s, a).table == s.table
    ensures a.Apply? && !a.dryRun && s.status.Accepted? && !s.hasConflicts && !TakesEffect(s, a) ==>
      Exec(s, a).status.ApplyFailed?
    ensures a.Apply? && a.dryRun ==> Exec(s, a) == s
  {
    if a.Apply? {
      FaultOrSameRun(s.table, s.ops, a.dryRun, a.fault);
      TouchedEverything(s.table, s.ops, a.dryRun);
    }
  }

  lemma {:induction false} EveryOpIsCounted(t: Table, ops: seq<Op>, dryRun: bool)
    ensures RunOps(t, ops, dryRun).Success? ==>
      var p := RunOps(t, ops, dryRun).value;
      p.touched == KeysOf(ops) && p.applied + p.skipped == |ops|
  {
    if ops != [] {
      EveryOpIsCounted(t, ops[..|ops| - 1], dryRun);
      assert KeysOf(ops) == KeysOf(ops[..|ops| - 1]) + [ops[|ops| - 1].key];
    }
  }

  /** What the reviewer's decisions do: an open run without conflicts becomes accepted, any run but an applied one discarded. */
  lemma DecisionsTakeEffect(s: RunState)
    ensures Exec(s, Accept).status == if s.hasConflicts || s.status in {Status.Applied, DiscardedRun} then s.status else Accepted
    ensures Exec(s, Discard).status == if s.status == Status.Applied then Status.Applied else DiscardedRun
    ensures Exec(s, Discard).table == s.table && Exec(s, Accept).table == s.table
  {
  }

  /**
   What an attempt reports. Closed runs, runs with conflicts and runs that are not accepted are turned
   away, each with its own error, and an applied run reports that it is applied already. Otherwise a
   success names the key of every operation, in order, and counts each of them once, as applied or skipped.
   */
  lemma AttemptReports(s: RunState, dryRun: bool, fault: Option<nat>, post: PostApply)
    ensures
      var r := ApplyStep(s, dryRun, fault, post).1;
      && (r == Failure(ApplyError.Discarded) <==> s.status.DiscardedRun?)
      && (r == Failure(ApplyError.HasConflicts) <==> !s.status.DiscardedRun? && s.hasConflicts)
      && (r == Failure(NotAccepted) <==>
            !dryRun && !s.hasConflicts && s.status in {PendingReview, ApplyFailed})
      && (r.Success? && r.value.alreadyApplied <==> !dryRun && !s.hasConflicts && s.status == Status.Applied)
      && (r.Success? && r.value.alreadyApplied ==> r.value == ApplyResult(false, Status.Applied, [], 0, 0, true))
      && (r.Success? && !r.value.alreadyApplied ==>
            && r.value.touched == KeysOf(s.ops) && r.value.applied + r.value.skipped == |s.ops|
            && r.value.dryRun == dryRun && r.value.status == (if dryRun then s.status else Status.Applied))
      && (r == Failure(PostApplyFailed) <==>
            s.ops != [] && post.Raises? && TakesEffect(s, Apply(dryRun, fault, post)))
  {
    FaultOrSameRun(s.table, s.ops, dryRun, fault);
    EveryOpIsCounted(s.table, s.ops, dryRun);
    OperationsRaiseTheirOwn(s.table, s.ops, dryRun);
    hide RunOps, RunWithFault;
  }

  /** The errors of operations are not those of the run. */
  lemma {:induction false} OperationsRaiseTheirOwn(t: Table, ops: seq<Op>, dryRun: bool)
    ensures RunOps(t, ops, dryRun).Failure? ==>
      var e := RunOps(t, ops, dryRun).error;
      e.AddExists? || e.RemoveMissing? || e.RemoveChanged? || e.ModifyMissing? || e.ModifyStale?
  {
    if ops != [] {
      OperationsRaiseTheirOwn(t, ops[..|ops| - 1], dryRun);
    }
  }

  /** A commit whose later effects raise. It leaves the run open to another attempt. */
  ghost predicate Reopens(s: RunState, a: Action) {
    TakesEffect(s, a) && a.post.Raises? && s.ops != []
  }

  ghost function Reopened(s: RunState, actions: seq<Action>): nat {
    if actions == [] then 0
    else
      var front := actions[..|actions| - 1];
      Reopened(s, front) + if Reopens(ExecAll(s, front), actions[|actions| - 1]) then 1 else 0
  }

  /**
   Over any sequence of steps, foreign edits included, every commit but the one that leaves the run
   applied is followed by effects that raise. Where none raise, the operations are committed at most
   once, and exactly then the run is applied.
   */
  lemma {:induction false} AtMostOnce(s: RunState, actions: seq<Action>)
    requires !s.status.Applied?
    ensures Effects(s, actions) == Reopened(s, actions) + if ExecAll(s, actions).status.Applied? then 1 else 0
    ensures ExecAll(s, actions).ops == s.ops && ExecAll(s, actions).hasConflicts == s.hasConflicts
    ensures s.hasConflicts ==> Effects(s, actions) == 0
    ensures (forall i | 0 <= i < |actions| && actions[i].Apply? :: !actions[i].post.Raises?) ==>
      Effects(s, actions) <= 1 && (Effects(s, actions) == 1 <==> ExecAll(s, actions).status.Applied?)
  {
    if actions != [] {
      var front, last := actions[..|actions| - 1], actions[|actions| - 1];
      AtMostOnce(s, front);
      StepKeepsCount(ExecAll(s, front), last);
      if forall i | 0 <= i < |actions| && actions[i].Apply? :: !actions[i].post.Raises? {
        assert forall i | 0 <= i < |front| :: front[i] == actions[i];
      }
    }
  }

  lemma StepKeepsCount(s: RunState, a: Action)
    ensures Exec(s, a).ops == s.ops && Exec(s, a).hasConflicts == s.hasConflicts
    ensures s.hasConflicts || s.status.Applied? ==> !TakesEffect(s, a)
    ensures s.status.Applied? ==> Exec(s, a).status.Applied?
    ensures !s.status.Applied? ==> (Exec(s, a).status.Applied? <==> TakesEffect(s, a) && !Reopens(s, a))
  {
    if !a.Edit? {
      AllOrNothing(s, a);
    }
  }

  // ---------------------------------------------------------------- commits without foreign edits

  ghost predicate NoEdits(actions: seq<Action>) {
    forall a | a in actions :: !a.Edit?
  }

  ghost predicate SameRows(t: Table, u: Table) {
    forall k :: Lookup(t, k) == Lookup(u, k)
  }

  /** The table after some commits: as it was, or showing what one run of the operations leaves behind. */
  ghost predicate CommittedOnce(s: RunState, x: RunState, effects: nat) {
    && x.ops == s.ops
    && (effects == 0 ==> x.table == s.table)
    && (effects > 0 ==>
          && RunOps(s.table, s.ops, false).Success?
          && UniqueKeys(x.table) && SameRows(x.table, RunOps(s.table, s.ops, false).value.table))
    && (effects > 1 ==> forall op | op in s.ops :: Repeats(op))
  }

  /**
   While nobody else writes the table, commits after the first one change nothing that any key shows,
   and they happen only if all operations can be repeated.
   */
  lemma {:induction false} LaterCommitsShowNothingNew(s: RunState, actions: seq<Action>)
    requires UniqueKeys(s.table) && WellKeyed(s.ops) && NoEdits(actions)
    ensures CommittedOnce(s, ExecAll(s, actions), Effects(s, actions))
  {
    if actions != [] {
      var front, last := actions[..|actions| - 1], actions[|actions| - 1];
      assert last in actions && NoEdits(front);
      LaterCommitsShowNothingNew(s, front);
      CommitStep(s, ExecAll(s, front), Effects(s, front), last);
    }
  }

  lemma CommitStep(s: RunState, x: RunState, effects: nat, a: Action)
    requires UniqueKeys(s.table) && WellKeyed(s.ops) && !a.Edit? && CommittedOnce(s, x, effects)
    ensures CommittedOnce(s, Exec(x, a), effects + if TakesEffect(x, a) then 1 else 0)
  {
    hide RunOps, RunWithFault, Lookup, UniqueKeys, WellKeyed, Repeats;
    AllOrNothing(x, a);
    StepKeepsCount(x, a);
    hide Exec, TakesEffect;
    if TakesEffect(x, a) {
      if effects == 0 {
        RunHasClosedForm(s.table, s.ops, false);
      } else {
        SecondRun(s.table, s.ops, x.table);
      }
    }
  }

  /** The run can still be committed. */
  ghost predicate Open(s: RunState) {
    !s.hasConflicts && !s.status.Applied? && !s.status.DiscardedRun? && RunOps(s.table, s.ops, false).Success?
  }

  /**
   Without foreign edits a run can be committed twice exactly when it is open, has operations, and all
   of them can be repeated: they add rows, or modify nothing.
   */
  lemma SecondCommitIff(s: RunState)
    requires UniqueKeys(s.table) && WellKeyed(s.ops)
    ensures (exists actions :: NoEdits(actions) && Effects(s, actions) >= 2) <==>
      Open(s) && s.ops != [] && forall op | op in s.ops :: Repeats(op)
  {
    hide RunOps, UniqueKeys, WellKeyed, Repeats, ExecAll, Effects, NoEdits;
    if Open(s) && s.ops != [] && forall op | op in s.ops :: Repeats(op) {
      var actions := RaisingEffectsAllowTwoCommits(s);
    }
    forall actions | NoEdits(actions) && Effects(s, actions) >= 2
      ensures Open(s) && s.ops != [] && forall op | op in s.ops :: Repeats(op)
    {
      LaterCommitsShowNothingNew(s, actions);
      TwoCommitsNeed(s, actions);
    }
  }

  lemma TwoCommitsNeed(s: RunState, actions: seq<Action>)
    requires Effects(s, actions) >= 2
    ensures s.ops != [] && !s.hasConflicts && !s.status.Applied? && !s.status.DiscardedRun?
  {
    if s.status.Applied? {
      AppliedIsFinal(s, actions);
    } else if s.status.DiscardedRun? {
      DiscardIsFinal(s, actions);
    } else {
      AtMostOnce(s, actions);
      NothingToReopen(s, actions);
    }
  }

  lemma {:induction false} AppliedIsFinal(s: RunState, actions: seq<Action>)
    requires s.status.Applied?
    ensures Effects(s, actions) == 0 && ExecAll(s, actions).status.Applied?
  {
    if actions != [] {
      AppliedIsFinal(s, actions[..|actions| - 1]);
      StepKeepsCount(ExecAll(s, actions[..|actions| - 1]), actions[|actions| - 1]);
    }
  }

  lemma {:induction false} NothingToReopen(s: RunState, actions: seq<Action>)
    ensures ExecAll(s, actions).ops == s.ops
    ensures s.ops == [] ==> Reopened(s, actions) == 0
  {
    if actions != [] {
      NothingToReopen(s, actions[..|actions| - 1]);
      StepKeepsCount(ExecAll(s, actions[..|actions| - 1]), actions[|actions| - 1]);
    }
  }

  /** A discarded run stays discarded and never touches the table again. */
  lemma {:induction false} DiscardIsFinal(s: RunState, actions: seq<Action>)
    requires s.status.DiscardedRun?
    ensures Effects(s, actions) == 0 && ExecAll(s, actions).status.DiscardedRun?
  {
    if actions != [] {
      DiscardIsFinal(s, actions[..|actions| - 1]);
    }
  }

  /**
   Effects after the commit run inside the same guarded block. When they raise, the run is marked as
   failed although its operations are in the table, and an open run whose operations can be repeated
   is committed once more.
   */
  lemma RaisingEffectsAllowTwoCommits(s: RunState) returns (actions: seq<Action>)
    requires UniqueKeys(s.table) && WellKeyed(s.ops)
    requires Open(s) && s.ops != [] && forall op | op in s.ops :: Repeats(op)
    ensures NoEdits(actions) && Effects(s, actions) == 2
  {
    var a := [Accept, Apply(false, None, Raises), Accept, Apply(false, None, Off)];
    actions := a;
    hide RunOps, RunWithFault, Lookup, UniqueKeys, WellKeyed, Repeats;
    var s1 := Exec(s, a[0]);
    OneMoreAction(s, a, 0);
    FaultOrSameRun(s.table, s.ops, false, None);
    TouchedEverything(s.table, s.ops, false);
    RunHasClosedForm(s.table, s.ops, false);
    var s2 := Exec(s1, a[1]);
    OneMoreAction(s, a, 1);
    assert TakesEffect(s1, a[1]) && s2 == s.(table := RunOps(s.table, s.ops, false).value.table, status := ApplyFailed);
    SecondRun(s.table, s.ops, s2.table);
    var s3 := Exec(s2, a[2]);
    OneMoreAction(s, a, 2);
    FaultOrSameRun(s3.table, s.ops, false, None);
    OneMoreAction(s, a, 3);
    assert a[..4] == a;
  }

  lemma OneMoreAction(s: RunState, actions: seq<Action>, i: nat)
    requires i < |actions|
    ensures actions[..0] == []
    ensures ExecAll(s, actions[..i + 1]) == Exec(ExecAll(s, actions[..i]), actions[i])
    ensures Effects(s, actions[..i + 1])
      == Effects(s, actions[..i]) + if TakesEffect(ExecAll(s, actions[..i]), actions[i]) then 1 else 0
  {
    assert actions[..i + 1][..i] == actions[..i];
  }

  // ---------------------------------------------------------------- staging

  /** One standard of the parsed import, with its previous snapshot if the last run left one. */
  datatype Group = Group(name: string, previous: Option<seq<Fields>>, current: seq<Fields>)

  /** A row read back as a document: only a missing description turns into an empty one. */
  function LiveDoc(row: Fields): Fields {
    row.(description := Str(OrEmpty(row.description)))
  }

  /** The rows of a standard; its name is compared without regard to case. */
  function Live(t: Table, name: string): seq<Fields> {
    if t == [] then []
    else
      var last := t[|t| - 1];
      Live(t[..|t| - 1], name) + if last.name.Str? && Documents.SameName(last.name.s, name) then [LiveDoc(last)] else []
  }

  ghost predicate OpOfGroup(g: Group, op: Op) {
    g.previous.Some? && Expected(SnapshotMap(g.previous.value), SnapshotMap(g.current), op)
  }

  ghost function ManualKeys(groups: seq<Group>, t: Table): set<Key> {
    set i, k | 0 <= i < |groups| && groups[i].previous.Some?
      && k in DetectManualEditKeys(groups[i].previous.value, Live(t, groups[i].name)) :: k
  }

  /** Entries are filed under their own standard's name, and each standard occurs once. */
  ghost predicate NamesAgree(groups: seq<Group>) {
    && (forall i, j | 0 <= i < j < |groups| :: groups[i].name != groups[j].name)
    && forall g, s | g in groups && (s in g.current || (g.previous.Some? && s in g.previous.value)) :: KeyOf(s).name == g.name
  }

  ghost predicate StagedFrom(groups: seq<Group>, ops: seq<Op>) {
    && (forall op :: op in ops <==> exists g :: g in groups && OpOfGroup(g, op))
    && (NamesAgree(groups) ==> WellKeyed(ops))
  }

  /** Accumulates the operations and the hand-edited keys of all standards, then checks for conflicts. */
  method Stage(groups: seq<Group>, t: Table) returns (ops: seq<Op>, hasConflicts: bool)
    ensures StagedFrom(groups, ops)
    ensures hasConflicts <==> exists op :: op in ops && Conflicts(op, ManualKeys(groups, t))
  {
    hide *;
    ops := [];
    var manual: set<Key> := {};
    NothingStaged(t);
    for i := 0 to |groups|
      invariant StagedFrom(groups[..i], ops)
      invariant manual == ManualKeys(groups[..i], t)
    {
      var g := groups[i];
      if g.previous.Some? {
        var diff := DiffStandards(g.previous.value, g.current);
        var more := DiffToChangeSet(diff);
        StageGroup(groups, i, ops, more);
        ManualStep(groups, i, t);
        ops := ops + more;
        manual := manual + DetectManualEditKeys(g.previous.value, Live(t, g.name));
      } else {
        StageGroup(groups, i, ops, []);
        assert ops + [] == ops;
        ManualStep(groups, i, t);
      }
    }
    assert groups[..|groups|] == groups;
    hasConflicts := ImportDiff.HasConflicts(ops, manual);
  }

  lemma NothingStaged(t: Table)
    ensures StagedFrom([], []) && ManualKeys([], t) == {}
  {
  }

  lemma ManualStep(groups: seq<Group>, i: nat, t: Table)
    requires i < |groups|
    ensures ManualKeys(groups[..i + 1], t) == ManualKeys(groups[..i], t)
      + if groups[i].previous.Some? then DetectManualEditKeys(groups[i].previous.value, Live(t, groups[i].name)) else {}
  {
    hide DetectManualEditKeys, Live;
    assert groups[..i + 1] == groups[..i] + [groups[i]];
    var some, more := groups[..i], groups[..i + 1];
    assert forall j | 0 <= j < i :: some[j] == groups[j] && more[j] == groups[j];
    assert more[i] == groups[i];
  }

  lemma StageGroup(groups: seq<Group>, i: nat, ops: seq<Op>, more: seq<Op>)
    requires i < |groups| && StagedFrom(groups[..i], ops)
    requires match groups[i].previous
             case None => more == []
             case Some(p) => IsChangeSet(SnapshotMap(p), SnapshotMap(groups[i].current), more)
    ensures StagedFrom(groups[..i + 1], ops + more)
  {
    var g := groups[i];
    assert groups[..i + 1] == groups[..i] + [g];
    assert forall op :: op in more <==> OpOfGroup(g, op) by { hide SnapshotMap, KeyOf; }
    forall op ensures op in ops + more <==> exists h :: h in groups[..i + 1] && OpOfGroup(h, op) {
      hide OpOfGroup;
      assert forall h :: h in groups[..i + 1] <==> h in groups[..i] || h == g;
    }
    if NamesAgree(groups[..i + 1]) {
      StagedKeys(groups, i, ops, more);
    }
  }

  lemma NameOfOp(g: Group, op: Op)
    requires OpOfGroup(g, op)
    requires forall s | s in g.current || (g.previous.Some? && s in g.previous.value) :: KeyOf(s).name == g.name
    ensures op.key.name == g.name && Agrees(op)
  {
  }

  lemma StagedKeys(groups: seq<Group>, i: nat, ops: seq<Op>, more: seq<Op>)
    requires i < |groups| && StagedFrom(groups[..i], ops) && NamesAgree(groups[..i + 1])
    requires DistinctKeys(more) && forall op :: op in more <==> OpOfGroup(groups[i], op)
    ensures WellKeyed(ops + more)
  {
    var some, g := groups[..i + 1], groups[i];
    hide OpOfGroup, KeyOf, Agrees;
    assert forall j | 0 <= j < i :: groups[..i][j] == some[j];
    assert some[i] == g;
    assert NamesAgree(groups[..i]);
    forall op | op in ops ensures op.key.name != g.name {
      var h :| h in groups[..i] && OpOfGroup(h, op);
      var j :| 0 <= j < i && groups[..i][j] == h;
      assert h in some;
      NameOfOp(h, op);
      assert some[j].name != some[i].name;
    }
    forall op | op in more ensures op.key.name == g.name && Agrees(op) {
      assert g in some;
      NameOfOp(g, op);
    }
  }

  ghost predicate AllKeyed(t: Table) {
    forall row | row in t :: IsKeyed(row)
  }

  lemma {:induction false} LiveHolds(t: Table, name: string, doc: Fields)
    ensures doc in Live(t, name) <==>
      exists row :: row in t && row.name.Str? && Documents.SameName(row.name.s, name) && doc == LiveDoc(row)
  {
    if t != [] {
      LiveHolds(t[..|t| - 1], name, doc);
      assert t == t[..|t| - 1] + [t[|t| - 1]];
    }
  }

  lemma KeyedRowMatches(row: Fields, key: Key)
    requires IsKeyed(row) && KeyOf(LiveDoc(row)) == key
    ensures Matches(row, key)
  {
  }

  /** A row that the conflict check saw unedited still reads as the document of the last import. */
  lemma UneditedRow(t: Table, name: string, baseline: seq<Fields>, key: Key)
    requires UniqueKeys(t) && AllKeyed(t) && key.name == name
    requires key in SnapshotMap(baseline) && Lookup(t, key).Some?
    requires key !in DetectManualEditKeys(baseline, Live(t, name))
    ensures SameDoc(Lookup(t, key).value, SnapshotMap(baseline)[key])
  {
    LiveRow(t, name, key);
  }

  /** A row that still reads as the document of the last import is not reported as edited. */
  lemma EditedIff(t: Table, name: string, baseline: seq<Fields>, key: Key)
    requires UniqueKeys(t) && AllKeyed(t) && key.name == name && key in SnapshotMap(baseline)
    ensures key in DetectManualEditKeys(baseline, Live(t, name)) <==>
      var row := Lookup(t, key);
      row.Some? && row.value.(description := Str(OrEmpty(row.value.description))) != SnapshotMap(baseline)[key]
  {
    if Lookup(t, key).Some? {
      LiveRow(t, name, key);
    } else {
      forall x | x in Live(t, name) && KeyOf(x) == key ensures false {
        LiveHolds(t, name, x);
        var other :| other in t && other.name.Str? && x == LiveDoc(other);
        KeyedRowMatches(other, key);
        var j :| 0 <= j < |t| && t[j] == other;
        LookupAt(t, j, key);
      }
    }
  }

  /** The one document with the key among the live ones is the row that the key shows. */
  lemma LiveRow(t: Table, name: string, key: Key)
    requires UniqueKeys(t) && AllKeyed(t) && key.name == name && Lookup(t, key).Some?
    ensures key in SnapshotMap(Live(t, name)) && SnapshotMap(Live(t, name))[key] == LiveDoc(Lookup(t, key).value)
  {
    var doc := LiveDoc(Lookup(t, key).value);
    LiveHolds(t, name, doc);
    assert doc in Live(t, name) && KeyOf(doc) == key;
    forall x | x in Live(t, name) && KeyOf(x) == key ensures x == doc {
      LiveHolds(t, name, x);
      var other :| other in t && other.name.Str? && x == LiveDoc(other);
      var j :| 0 <= j < |t| && t[j] == other;
      KeyedRowMatches(other, key);
      LookupAt(t, j, key);
    }
    SnapshotHasEveryKey(Live(t, name), doc);
  }

  /**
   Exactly which staged operations conflict: removals and modifications of rows that no longer read as
   the document of the last import, a missing description counting as an empty one.
   */
  lemma ConflictIff(groups: seq<Group>, t: Table, ops: seq<Op>, op: Op)
    requires NamesAgree(groups) && UniqueKeys(t) && AllKeyed(t) && StagedFrom(groups, ops) && op in ops
    ensures Conflicts(op, ManualKeys(groups, t)) <==>
      var row := Lookup(t, op.key);
      && !op.AddControl? && row.Some?
      && row.value.(description := Str(OrEmpty(row.value.description))) != (if op.RemoveControl? then op.document else op.before)
  {
    var g :| g in groups && OpOfGroup(g, op);
    var i :| 0 <= i < |groups| && groups[i] == g;
    NameOfOp(g, op);
    if !op.AddControl? {
      EditedIff(t, g.name, g.previous.value, op.key);
      ManualKeyOfGroup(groups, t, i, op.key);
    }
  }

  /** Another group's edits do not concern this group's keys. */
  lemma ManualKeyOfGroup(groups: seq<Group>, t: Table, i: nat, key: Key)
    requires NamesAgree(groups) && i < |groups| && groups[i].previous.Some? && key.name == groups[i].name
    ensures key in ManualKeys(groups, t) <==> key in DetectManualEditKeys(groups[i].previous.value, Live(t, groups[i].name))
  {
    if key in ManualKeys(groups, t) {
      var j :| 0 <= j < |groups| && groups[j].previous.Some?
        && key in DetectManualEditKeys(groups[j].previous.value, Live(t, groups[j].name));
      assert groups[j] in groups && SnapshotMap(groups[j].previous.value)[key] in groups[j].previous.value;
    }
  }

  /**
   When staging found no conflict and the table has not changed since, the application can only fail
   because a row is missing or because an addition meets a different row; otherwise it succeeds.
   */
  lemma ConflictCheckIsSound(groups: seq<Group>, t: Table, ops: seq<Op>)
    requires NamesAgree(groups) && UniqueKeys(t) && AllKeyed(t)
    requires StagedFrom(groups, ops)
    requires !exists op :: op in ops && Conflicts(op, ManualKeys(groups, t))
    ensures match RunOps(t, ops, false)
            case Failure(e) => e.AddExists? || e.RemoveMissing? || e.ModifyMissing?
            case Success(_) => true
    ensures RunOps(t, ops, false).Success? <==>
      forall op | op in ops ::
        if op.AddControl? then Lookup(t, op.key).None? || SameDoc(Lookup(t, op.key).value, op.document)
        else Lookup(t, op.key).Some?
  {
    hide *;
    RunHasClosedForm(t, ops, false) by { StagedIsWellKeyed(groups, ops); }
    SuccessMeansUnopposed(t, ops, false, RunOps(t, ops, false));
    forall op | op in ops
      ensures !op.AddControl? && Lookup(t, op.key).Some? ==>
        SameDoc(Lookup(t, op.key).value, if op.RemoveControl? then op.document else op.before)
    {
      if !op.AddControl? && Lookup(t, op.key).Some? {
        UnopposedOp(groups, t, ops, op);
      }
    }
    RemainingFailures(t, ops, RunOps(t, ops, false));
  }

  lemma StagedIsWellKeyed(groups: seq<Group>, ops: seq<Op>)
    requires NamesAgree(groups) && StagedFrom(groups, ops)
    ensures WellKeyed(ops)
  {
  }

  /** Where rows that are there read as their operations expect, only missing and differing rows are left to object. */
  lemma RemainingFailures(t: Table, ops: seq<Op>, r: Result<Progress, ApplyError>)
    requires ClosedForm(t, ops, false, r) && (r.Success? <==> forall op | op in ops :: Unopposed(t, op))
    requires forall op | op in ops && !op.AddControl? && Lookup(t, op.key).Some? ::
      SameDoc(Lookup(t, op.key).value, if op.RemoveControl? then op.document else op.before)
    ensures r.Failure? ==> r.error.AddExists? || r.error.RemoveMissing? || r.error.ModifyMissing?
    ensures r.Success? <==>
      forall op | op in ops ::
        if op.AddControl? then Lookup(t, op.key).None? || SameDoc(Lookup(t, op.key).value, op.document)
        else Lookup(t, op.key).Some?
  {
    hide Lookup, SameDoc, FinalRow, UniqueKeys, Skipped, ImportApply.Applied, KeysOf;
    if r.Failure? {
      var i :| 0 <= i < |ops| && Objection(Lookup(t, ops[i].key), ops[i]) == Some(r.error);
      assert ops[i] in ops;
    }
  }

  lemma UnopposedOp(groups: seq<Group>, t: Table, ops: seq<Op>, op: Op)
    requires NamesAgree(groups) && UniqueKeys(t) && AllKeyed(t) && StagedFrom(groups, ops)
    requires op in ops && !op.AddControl? && Lookup(t, op.key).Some?
    requires !Conflicts(op, ManualKeys(groups, t))
    ensures SameDoc(Lookup(t, op.key).value, if op.RemoveControl? then op.document else op.before)
  {
    var g :| g in groups && OpOfGroup(g, op);
    var i :| 0 <= i < |groups| && groups[i] == g;
    NameOfOp(g, op);
    assert op.key !in DetectManualEditKeys(g.previous.value, Live(t, g.name));
    UneditedRow(t, g.name, g.previous.value, op.key);
  }
}
