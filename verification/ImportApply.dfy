/**
 Applying a staged change set to the table of standards, with the status a staged run goes through
 and the rollback that undoes a failed attempt.
 */
module ImportApply {
  import opened Wrappers
  import opened ImportDiff

  /** The table of Standard rows in the order a query returns them. */
  type Table = seq<Fields>

  /** The query compares stored texts: a row that lacks one of the three never matches. */
  predicate Matches(row: Fields, key: Key) {
    row.name == Str(key.name) && row.section == Str(key.section) && row.sectionId == Str(key.sectionId)
  }

  /** The first matching row, or the number of rows. */
  function FindRow(t: Table, key: Key): (i: nat)
    ensures i <= |t|
    ensures i < |t| ==> Matches(t[i], key)
    ensures forall j | 0 <= j < i :: !Matches(t[j], key)
  {
    if t == [] then 0
    else
      var i := FindRow(t[..|t| - 1], key);
      if i < |t| - 1 || Matches(t[|t| - 1], key) then i else |t|
  }

  function Lookup(t: Table, key: Key): Option<Fields> {
    var i := FindRow(t, key);
    if i < |t| then Some(t[i]) else None
  }

  ghost predicate UniqueKeys(t: Table) {
    forall i, j, k | 0 <= i < j < |t| && Matches(t[i], k) :: !Matches(t[j], k)
  }

  datatype ApplyError =
    | Discarded
    | HasConflicts
    | NotAccepted
    | AddExists(key: Key)
    | RemoveMissing(key: Key)
    | RemoveChanged(key: Key)
    | ModifyMissing(key: Key)
    | ModifyStale(key: Key)
    | DatabaseFault
    | PostApplyFailed

  // ---------------------------------------------------------------- one operation

  function NewRow(key: Key, doc: Fields): Fields {
    Fields(
      Str(if OrEmpty(doc.name) != "" then OrEmpty(doc.name) else key.name),
      Str(OrEmpty(doc.section)), Str(OrEmpty(doc.subsection)), Str(OrEmpty(doc.sectionId)), Str(OrEmpty(doc.description)))
  }

  function ChangedRow(row: Fields, after: Fields): Fields {
    Fields(
      if OrEmpty(after.name) != "" then Str(OrEmpty(after.name)) else row.name,
      Str(OrEmpty(after.section)), Str(OrEmpty(after.subsection)), Str(OrEmpty(after.sectionId)), Str(OrEmpty(after.description)))
  }

  /** What the loop has done so far. */
  datatype Progress = Progress(table: Table, touched: seq<Key>, applied: nat, skipped: nat)

  /** One turn of the loop; a dry run goes through the same checks and leaves the table alone. */
  function ApplyOp(p: Progress, op: Op, dryRun: bool): Result<Progress, ApplyError> {
    var t, i := p.table, FindRow(p.table, op.key);
    var seen := p.(touched := p.touched + [op.key]);
    match op
    case AddControl(key, doc) =>
      if i < |t| then
        if SameDoc(t[i], doc) then Success(seen.(skipped := p.skipped + 1)) else Failure(AddExists(key))
      else
        Success(seen.(applied := p.applied + 1, table := if dryRun then t else t + [NewRow(key, doc)]))
    case RemoveControl(key, doc) =>
      if i == |t| then Failure(RemoveMissing(key))
      else if !SameDoc(t[i], doc) then Failure(RemoveChanged(key))
      else Success(seen.(applied := p.applied + 1, table := if dryRun then t else t[..i] + t[i + 1..]))
    case ModifyControl(key, before, after) =>
      if i == |t| then Failure(ModifyMissing(key))
      else if !SameDoc(t[i], before) then Failure(ModifyStale(key))
      else if SameDoc(before, after) then Success(seen.(skipped := p.skipped + 1))
      else Success(seen.(applied := p.applied + 1, table := if dryRun then t else t[i := ChangedRow(t[i], after)]))
  }

  /** All operations in order, up to the first failure. */
  function RunOps(t: Table, ops: seq<Op>, dryRun: bool): Result<Progress, ApplyError> {
    if ops == [] then Success(Progress(t, [], 0, 0))
    else
      match RunOps(t, ops[..|ops| - 1], dryRun)
      case Failure(e) => Failure(e)
      case Success(p) => ApplyOp(p, ops[|ops| - 1], dryRun)
  }

  // ---------------------------------------------------------------- what an operation means for each key

  /** The documents of an operation carry its key, as those of every change set made from snapshots do. */
  ghost predicate Agrees(op: Op) {
    match op
    case AddControl(k, d) => KeyOf(d) == k
    case RemoveControl(k, d) => KeyOf(d) == k
    case ModifyControl(k, b, a) => KeyOf(b) == k && KeyOf(a) == k
  }

  ghost predicate WellKeyed(ops: seq<Op>) {
    DistinctKeys(ops) && forall op | op in ops :: Agrees(op)
  }

  /** The error an operation meets where its key shows the given row, if any. */
  ghost function Objection(row: Option<Fields>, op: Op): Option<ApplyError> {
    match op
    case AddControl(key, doc) => if row.None? || SameDoc(row.value, doc) then None else Some(AddExists(key))
    case RemoveControl(key, doc) =>
      if row.None? then Some(RemoveMissing(key)) else if SameDoc(row.value, doc) then None else Some(RemoveChanged(key))
    case ModifyControl(key, before, _) =>
      if row.None? then Some(ModifyMissing(key)) else if SameDoc(row.value, before) then None else Some(ModifyStale(key))
  }

  ghost function RowAfter(row: Option<Fields>, op: Op): Option<Fields> {
    match op
    case AddControl(key, doc) => if row.None? then Some(NewRow(key, doc)) else row
    case RemoveControl(_, _) => None
    case ModifyControl(_, before, after) =>
      if row.None? || SameDoc(before, after) then row else Some(ChangedRow(row.value, after))
  }

  ghost predicate Skips(row: Option<Fields>, op: Op) {
    match op
    case AddControl(_, _) => row.Some?
    case RemoveControl(_, _) => false
    case ModifyControl(_, before, after) => SameDoc(before, after)
  }

  lemma LookupAt(t: Table, i: nat, key: Key)
    requires UniqueKeys(t) && i < |t| && Matches(t[i], key)
    ensures Lookup(t, key) == Some(t[i]) && FindRow(t, key) == i
  {
  }

  lemma LookupNone(t: Table, key: Key)
    requires forall i | 0 <= i < |t| :: !Matches(t[i], key)
    ensures Lookup(t, key) == None
  {
  }

  lemma AppendedRow(t: Table, row: Fields, key: Key)
    requires UniqueKeys(t) && Matches(row, key) && Lookup(t, key).None?
    ensures UniqueKeys(t + [row])
    ensures forall k :: Lookup(t + [row], k) == if k == key then Some(row) else Lookup(t, k)
  {
    var u := t + [row];
    forall i, k | 0 <= i < |t| && Matches(t[i], k) ensures k != key {
      LookupAt(t, i, k);
    }
    forall k ensures Lookup(u, k) == if k == key then Some(row) else Lookup(t, k) {
      if k == key { LookupAt(u, |t|, k); }
      else if FindRow(t, k) < |t| { LookupAt(u, FindRow(t, k), k); }
      else { LookupNone(u, k); }
    }
  }

  lemma RemovedRow(t: Table, i: nat, key: Key)
    requires UniqueKeys(t) && i < |t| && Matches(t[i], key)
    ensures UniqueKeys(t[..i] + t[i + 1..])
    ensures forall k :: Lookup(t[..i] + t[i + 1..], k) == if k == key then None else Lookup(t, k)
  {
    var u := t[..i] + t[i + 1..];
    assert forall j | 0 <= j < |u| :: u[j] == if j < i then t[j] else t[j + 1];
    forall k ensures Lookup(u, k) == if k == key then None else Lookup(t, k) {
      var f := FindRow(t, k);
      if k == key {
        LookupNone(u, k);
      } else if f < |t| {
        LookupAt(t, f, k);
        assert f != i;
        LookupAt(u, if f < i then f else f - 1, k);
      } else {
        LookupNone(u, k);
      }
    }
  }

  lemma ReplacedRow(t: Table, i: nat, key: Key, row: Fields)
    requires UniqueKeys(t) && i < |t| && Matches(t[i], key) && Matches(row, key)
    ensures UniqueKeys(t[i := row])
    ensures forall k :: Lookup(t[i := row], k) == if k == key then Some(row) else Lookup(t, k)
  {
    var u := t[i := row];
    assert forall k :: Matches(row, k) <==> Matches(t[i], k);
    assert forall j, k | 0 <= j < |t| :: Matches(u[j], k) <==> Matches(t[j], k);
    forall k ensures Lookup(u, k) == if k == key then Some(row) else Lookup(t, k) {
      var f := FindRow(t, k);
      if f < |t| {
        LookupAt(t, f, k);
        LookupAt(u, f, k);
      } else {
        LookupNone(u, k);
      }
    }
  }

  /** For one operation, the loop body does what the key's row calls for and touches no other key. */
  lemma OpEffect(p: Progress, op: Op, dryRun: bool)
    requires UniqueKeys(p.table) && Agrees(op)
    ensures
      var row, r := Lookup(p.table, op.key), ApplyOp(p, op, dryRun);
      match Objection(row, op)
      case Some(e) => r == Failure(e)
      case None =>
        && r.Success? && r.value.touched == p.touched + [op.key]
        && r.value.skipped == p.skipped + (if Skips(row, op) then 1 else 0)
        && r.value.applied == p.applied + (if Skips(row, op) then 0 else 1)
        && UniqueKeys(r.value.table)
        && (dryRun ==> r.value.table == p.table)
        && (!dryRun ==> forall k :: Lookup(r.value.table, k) == if k == op.key then RowAfter(row, op) else Lookup(p.table, k))
  {
    var t, i := p.table, FindRow(p.table, op.key);
    var r := ApplyOp(p, op, dryRun);
    if r.Success? && !dryRun && !Skips(Lookup(t, op.key), op) {
      hide UniqueKeys, FindRow;
      match op
      case AddControl(key, doc) => AppendedRow(t, NewRow(key, doc), key);
      case RemoveControl(key, _) => RemovedRow(t, i, key);
      case ModifyControl(key, _, after) => ReplacedRow(t, i, key, ChangedRow(t[i], after));
    }
  }

  // ---------------------------------------------------------------- a whole run

  ghost function KeysOf(ops: seq<Op>): seq<Key> {
    seq(|ops|, i requires 0 <= i < |ops| => ops[i].key)
  }

  /** The row a key shows at the end, judged from the table at the start. */
  ghost function FinalRow(t: Table, ops: seq<Op>, key: Key): Option<Fields> {
    if i :| 0 <= i < |ops| && ops[i].key == key then RowAfter(Lookup(t, key), ops[i]) else Lookup(t, key)
  }

  ghost function Skipped(t: Table, ops: seq<Op>): set<Op> {
    set op | op in ops && Skips(Lookup(t, op.key), op)
  }

  ghost function Applied(t: Table, ops: seq<Op>): set<Op> {
    set op | op in ops && !Skips(Lookup(t, op.key), op)
  }

  ghost predicate Unopposed(t: Table, op: Op) {
    Objection(Lookup(t, op.key), op).None?
  }

  /** The outcome read off the initial table, operation by operation. */
  ghost predicate ClosedForm(t: Table, ops: seq<Op>, dryRun: bool, r: Result<Progress, ApplyError>) {
    match r
    case Failure(e) =>
      exists i :: 0 <= i < |ops| && Objection(Lookup(t, ops[i].key), ops[i]) == Some(e)
                  && forall j | 0 <= j < i :: Unopposed(t, ops[j])
    case Success(p) =>
      && (forall op | op in ops :: Unopposed(t, op))
      && p.touched == KeysOf(ops) && p.skipped == |Skipped(t, ops)| && p.applied == |Applied(t, ops)|
      && UniqueKeys(p.table)
      && (dryRun ==> p.table == t)
      && (!dryRun ==> forall k :: Lookup(p.table, k) == FinalRow(t, ops, k))
  }

  lemma DistinctPrefix(ops: seq<Op>)
    requires WellKeyed(ops) && ops != []
    ensures WellKeyed(ops[..|ops| - 1]) && ops[|ops| - 1] !in ops[..|ops| - 1]
    ensures forall i | 0 <= i < |ops| - 1 :: ops[i].key != ops[|ops| - 1].key
  {
  }

  lemma FinalRowStep(t: Table, ops: seq<Op>, key: Key)
    requires WellKeyed(ops) && ops != []
    ensures FinalRow(t, ops, key) ==
      if key == ops[|ops| - 1].key then RowAfter(Lookup(t, key), ops[|ops| - 1]) else FinalRow(t, ops[..|ops| - 1], key)
    ensures FinalRow(t, ops[..|ops| - 1], ops[|ops| - 1].key) == Lookup(t, ops[|ops| - 1].key)
  {
    var front, last := ops[..|ops| - 1], |ops| - 1;
    DistinctPrefix(ops);
    assert forall i | 0 <= i < |front| :: front[i] == ops[i];
    if key == ops[last].key {
      assert 0 <= last < |ops| && ops[last].key == key;
    } else if i :| 0 <= i < |front| && front[i].key == key {
      assert 0 <= i < |ops| && ops[i].key == key;
    }
  }

  lemma CountStep(t: Table, ops: seq<Op>)
    requires WellKeyed(ops) && ops != []
    ensures var front, last := ops[..|ops| - 1], ops[|ops| - 1];
      && |Skipped(t, ops)| == |Skipped(t, front)| + (if Skips(Lookup(t, last.key), last) then 1 else 0)
      && |Applied(t, ops)| == |Applied(t, front)| + (if Skips(Lookup(t, last.key), last) then 0 else 1)
  {
    var front, last := ops[..|ops| - 1], ops[|ops| - 1];
    DistinctPrefix(ops);
    hide Skips, Lookup, WellKeyed;
    assert ops == front + [last];
    assert forall op :: op in ops <==> op in front || op == last;
    if Skips(Lookup(t, last.key), last) {
      assert Skipped(t, ops) == Skipped(t, front) + {last} && Applied(t, ops) == Applied(t, front);
    } else {
      assert Skipped(t, ops) == Skipped(t, front) && Applied(t, ops) == Applied(t, front) + {last};
    }
  }

  /** With one operation for each key, each one is decided by the row its key shows at the start. */
  lemma {:induction false} RunHasClosedForm(t: Table, ops: seq<Op>, dryRun: bool)
    requires UniqueKeys(t) && WellKeyed(ops)
    ensures ClosedForm(t, ops, dryRun, RunOps(t, ops, dryRun))
  {
    hide *;
    if ops == [] {
      NothingRun(t, dryRun);
    } else {
      var front, last := ops[..|ops| - 1], ops[|ops| - 1];
      DistinctPrefix(ops);
      RunHasClosedForm(t, front, dryRun);
      LastOperation(t, ops, dryRun);
      CloseStep(t, ops, dryRun, RunOps(t, front, dryRun), RunOps(t, ops, dryRun));
    }
  }

  lemma NothingRun(t: Table, dryRun: bool)
    requires UniqueKeys(t)
    ensures ClosedForm(t, [], dryRun, RunOps(t, [], dryRun))
  {
  }

  lemma LastOperation(t: Table, ops: seq<Op>, dryRun: bool)
    requires WellKeyed(ops) && ops != []
    requires ClosedForm(t, ops[..|ops| - 1], dryRun, RunOps(t, ops[..|ops| - 1], dryRun))
    ensures match RunOps(t, ops[..|ops| - 1], dryRun)
      case Failure(e) => RunOps(t, ops, dryRun) == Failure(e)
      case Success(p) => LastOutcome(t, ops[|ops| - 1], dryRun, p, RunOps(t, ops, dryRun))
  {
    hide *;
    var front, last := ops[..|ops| - 1], ops[|ops| - 1];
    FinalRowStep(t, ops, last.key);
    OneMoreOperation(t, ops, dryRun);
    match RunOps(t, front, dryRun)
    case Failure(_) =>
    case Success(p) =>
      AfterFront(t, ops, dryRun, p);
      OutcomeOfLast(t, last, dryRun, p);
  }

  lemma OneMoreOperation(t: Table, ops: seq<Op>, dryRun: bool)
    requires ops != []
    ensures match RunOps(t, ops[..|ops| - 1], dryRun)
      case Failure(e) => RunOps(t, ops, dryRun) == Failure(e)
      case Success(p) => RunOps(t, ops, dryRun) == ApplyOp(p, ops[|ops| - 1], dryRun)
  {
    hide ApplyOp;
  }

  lemma AfterFront(t: Table, ops: seq<Op>, dryRun: bool, p: Progress)
    requires WellKeyed(ops) && ops != [] && ClosedForm(t, ops[..|ops| - 1], dryRun, Success(p))
    requires FinalRow(t, ops[..|ops| - 1], ops[|ops| - 1].key) == Lookup(t, ops[|ops| - 1].key)
    ensures UniqueKeys(p.table) && Agrees(ops[|ops| - 1])
    ensures Lookup(p.table, ops[|ops| - 1].key) == Lookup(t, ops[|ops| - 1].key)
  {
    hide UniqueKeys, FinalRow, Lookup, Objection, Skipped, Applied, KeysOf, Agrees;
    assert ops[|ops| - 1] in ops;
  }

  lemma OutcomeOfLast(t: Table, last: Op, dryRun: bool, p: Progress)
    requires UniqueKeys(p.table) && Agrees(last) && Lookup(p.table, last.key) == Lookup(t, last.key)
    ensures LastOutcome(t, last, dryRun, p, ApplyOp(p, last, dryRun))
  {
    hide UniqueKeys, Lookup, Objection, Skips, RowAfter, ApplyOp;
    OpEffect(p, last, dryRun);
  }

  /** The outcome of the last operation, given the progress before it. */
  ghost predicate LastOutcome(t: Table, last: Op, dryRun: bool, before: Progress, r: Result<Progress, ApplyError>) {
    var row := Lookup(t, last.key);
    match Objection(row, last)
    case Some(e) => r == Failure(e)
    case None =>
      && r.Success? && r.value.touched == before.touched + [last.key]
      && r.value.skipped == before.skipped + (if Skips(row, last) then 1 else 0)
      && r.value.applied == before.applied + (if Skips(row, last) then 0 else 1)
      && UniqueKeys(r.value.table)
      && (dryRun ==> r.value.table == before.table)
      && (!dryRun ==> forall k ::
            Lookup(r.value.table, k) == if k == last.key then RowAfter(row, last) else Lookup(before.table, k))
  }

  lemma CloseStep(t: Table, ops: seq<Op>, dryRun: bool, before: Result<Progress, ApplyError>,
                  r: Result<Progress, ApplyError>)
    requires WellKeyed(ops) && ops != [] && ClosedForm(t, ops[..|ops| - 1], dryRun, before)
    requires before.Failure? ==> r == Failure(before.error)
    requires before.Success? ==> LastOutcome(t, ops[|ops| - 1], dryRun, before.value, r)
    ensures ClosedForm(t, ops, dryRun, r)
  {
    hide *;
    var front, last := ops[..|ops| - 1], ops[|ops| - 1];
    assert ops == front + [last];
    if r.Success? {
      CountStep(t, ops);
      CloseSuccess(t, front, last, dryRun, before, r.value);
    } else {
      CloseFailure(t, front, last, dryRun, before, r.error);
    }
  }

  lemma CloseFailure(t: Table, front: seq<Op>, last: Op, dryRun: bool, before: Result<Progress, ApplyError>, e: ApplyError)
    requires ClosedForm(t, front, dryRun, before)
    requires before.Failure? ==> e == before.error
    requires before.Success? ==> LastOutcome(t, last, dryRun, before.value, Failure(e))
    ensures ClosedForm(t, front + [last], dryRun, Failure(e))
  {
    hide Lookup, Objection, Skips, RowAfter, FinalRow, UniqueKeys, Skipped, Applied, KeysOf;
    var ops := front + [last];
    if before.Failure? {
      var i :| 0 <= i < |front| && Objection(Lookup(t, front[i].key), front[i]) == Some(e)
                && forall j | 0 <= j < i :: Unopposed(t, front[j]);
      assert ops[i] == front[i] && forall j | 0 <= j < i :: ops[j] == front[j];
    } else {
      assert Objection(Lookup(t, ops[|front|].key), ops[|front|]) == Some(e);
      assert forall j | 0 <= j < |front| :: ops[j] in front;
    }
  }

  lemma CloseSuccess(t: Table, front: seq<Op>, last: Op, dryRun: bool, before: Result<Progress, ApplyError>, p: Progress)
    requires WellKeyed(front + [last]) && ClosedForm(t, front, dryRun, before)
    requires before.Success? && LastOutcome(t, last, dryRun, before.value, Success(p))
    requires |Skipped(t, front + [last])| == |Skipped(t, front)| + (if Skips(Lookup(t, last.key), last) then 1 else 0)
    requires |Applied(t, front + [last])| == |Applied(t, front)| + (if Skips(Lookup(t, last.key), last) then 0 else 1)
    ensures ClosedForm(t, front + [last], dryRun, Success(p))
  {
    var ops := front + [last];
    hide Lookup, Objection, Skips, RowAfter, FinalRow, UniqueKeys, Skipped, Applied, WellKeyed;
    assert ops[..|ops| - 1] == front && ops[|ops| - 1] == last;
    assert KeysOf(ops) == KeysOf(front) + [last.key];
    if !dryRun {
      forall k ensures Lookup(p.table, k) == FinalRow(t, ops, k) {
        FinalRowStep(t, ops, k);
      }
    }
  }

  // ---------------------------------------------------------------- consequences

  lemma SuccessMeansUnopposed(t: Table, ops: seq<Op>, dryRun: bool, r: Result<Progress, ApplyError>)
    requires ClosedForm(t, ops, dryRun, r)
    ensures r.Success? <==> forall op | op in ops :: Unopposed(t, op)
  {
    if r.Failure? {
      var i :| 0 <= i < |ops| && Objection(Lookup(t, ops[i].key), ops[i]) == Some(r.error);
      assert ops[i] in ops && !Unopposed(t, ops[i]);
    }
  }

  /** A dry run succeeds exactly when the real run does, with the same report, and changes nothing. */
  lemma DryRunForetells(t: Table, ops: seq<Op>)
    requires UniqueKeys(t) && WellKeyed(ops)
    ensures
      match RunOps(t, ops, true)
      case Failure(e) => RunOps(t, ops, false) == Failure(e)
      case Success(dry) =>
        && dry.table == t
        && RunOps(t, ops, false).Success?
        && var p := RunOps(t, ops, false).value;
           p.touched == dry.touched && p.applied == dry.applied && p.skipped == dry.skipped
  {
    RunHasClosedForm(t, ops, true);
    RunHasClosedForm(t, ops, false);
    SuccessMeansUnopposed(t, ops, true, RunOps(t, ops, true));
    SuccessMeansUnopposed(t, ops, false, RunOps(t, ops, false));
    hide RunOps, Lookup, Objection, KeysOf, Skipped, Applied, UniqueKeys, WellKeyed, FinalRow;
    var dry, wet := RunOps(t, ops, true), RunOps(t, ops, false);
    if dry.Failure? && wet.Failure? {
      var i :| 0 <= i < |ops| && Objection(Lookup(t, ops[i].key), ops[i]) == Some(dry.error)
                  && forall j | 0 <= j < i :: Unopposed(t, ops[j]);
      var j :| 0 <= j < |ops| && Objection(Lookup(t, ops[j].key), ops[j]) == Some(wet.error)
                  && forall k | 0 <= k < j :: Unopposed(t, ops[k]);
      assert !Unopposed(t, ops[i]) && !Unopposed(t, ops[j]);
      assert i == j;
    }
  }

  /** The order of the operations decides neither success nor what any key shows in the end. */
  lemma OrderDoesNotMatter(t: Table, ops: seq<Op>, reordered: seq<Op>)
    requires UniqueKeys(t) && WellKeyed(ops) && multiset(ops) == multiset(reordered)
    ensures RunOps(t, ops, false).Success? <==> RunOps(t, reordered, false).Success?
    ensures RunOps(t, ops, false).Success? ==>
      var p, q := RunOps(t, ops, false).value, RunOps(t, reordered, false).value;
      && p.applied == q.applied && p.skipped == q.skipped
      && forall k :: Lookup(p.table, k) == Lookup(q.table, k)
  {
    SameMembers(ops, reordered);
    StillWellKeyed(ops, reordered);
    RunHasClosedForm(t, ops, false);
    RunHasClosedForm(t, reordered, false);
    hide RunOps, Lookup, Objection, KeysOf, UniqueKeys, WellKeyed, FinalRow, Skips;
    assert Skipped(t, ops) == Skipped(t, reordered) && Applied(t, ops) == Applied(t, reordered);
    var p, q := RunOps(t, ops, false), RunOps(t, reordered, false);
    SuccessMeansUnopposed(t, ops, false, p);
    SuccessMeansUnopposed(t, reordered, false, q);
    if p.Success? && q.Success? {
      forall k ensures Lookup(p.value.table, k) == Lookup(q.value.table, k) {
        SameFinalRow(t, ops, reordered, k);
      }
    }
  }

  lemma SameMembers(ops: seq<Op>, reordered: seq<Op>)
    requires multiset(ops) == multiset(reordered)
    ensures forall op :: op in ops <==> op in reordered
    ensures |ops| == |reordered|
  {
    assert forall op :: op in ops <==> op in multiset(ops);
    assert forall op :: op in reordered <==> op in multiset(reordered);
    assert |multiset(ops)| == |ops| && |multiset(reordered)| == |reordered|;
  }

  lemma StillWellKeyed(ops: seq<Op>, reordered: seq<Op>)
    requires WellKeyed(ops) && multiset(ops) == multiset(reordered)
    ensures WellKeyed(reordered)
  {
    SameMembers(ops, reordered);
    forall i, j | 0 <= i < j < |reordered| ensures reordered[i].key != reordered[j].key {
      var x, y := reordered[i], reordered[j];
      assert x in ops && y in ops;
      if x == y {
        TwiceInMultiset(reordered, i, j);
        OnceInMultiset(ops, x);
      }
    }
  }

  lemma TwiceInMultiset(s: seq<Op>, i: nat, j: nat)
    requires i < j < |s| && s[i] == s[j]
    ensures multiset(s)[s[i]] >= 2
  {
    assert s == s[..i] + [s[i]] + s[i + 1..j] + [s[j]] + s[j + 1..];
  }

  lemma {:induction false} OnceInMultiset(ops: seq<Op>, op: Op)
    requires DistinctKeys(ops)
    ensures multiset(ops)[op] <= 1
  {
    if ops != [] {
      var front, last := ops[..|ops| - 1], ops[|ops| - 1];
      OnceInMultiset(front, op);
      assert ops == front + [last];
      assert last !in front;
    }
  }

  lemma SameFinalRow(t: Table, ops: seq<Op>, reordered: seq<Op>, key: Key)
    requires WellKeyed(ops) && WellKeyed(reordered) && forall op :: op in ops <==> op in reordered
    ensures FinalRow(t, ops, key) == FinalRow(t, reordered, key)
  {
    forall j | 0 <= j < |reordered| && reordered[j].key == key
      ensures exists i :: 0 <= i < |ops| && ops[i].key == key
    {
      assert reordered[j] in ops;
    }
    if i :| 0 <= i < |ops| && ops[i].key == key {
      assert ops[i] in reordered;
      var j :| 0 <= j < |reordered| && reordered[j] == ops[i];
      FinalRowOf(t, ops, i);
      FinalRowOf(t, reordered, j);
    }
  }

  lemma FinalRowOf(t: Table, ops: seq<Op>, i: nat)
    requires WellKeyed(ops) && i < |ops|
    ensures FinalRow(t, ops, ops[i].key) == RowAfter(Lookup(t, ops[i].key), ops[i])
  {
  }

  lemma FinalRowElsewhere(t: Table, ops: seq<Op>, key: Key)
    requires forall op | op in ops :: op.key != key
    ensures FinalRow(t, ops, key) == Lookup(t, key)
  {
  }

  // ---------------------------------------------------------------- the same run once more

  /** The operation still fits the row it has left behind. */
  predicate Repeats(op: Op) {
    op.AddControl? || (op.ModifyControl? && SameDoc(op.before, op.after))
  }

  lemma RepeatedOp(row: Option<Fields>, op: Op)
    requires Agrees(op) && Objection(row, op).None? && (row.Some? ==> Matches(row.value, op.key))
    ensures Objection(RowAfter(row, op), op).None? <==> Repeats(op)
    ensures Repeats(op) ==> RowAfter(RowAfter(row, op), op) == RowAfter(row, op)
  {
  }

  /**
   Run again on a table that shows what the run has left behind, the operations succeed exactly when
   none removes a row or changes one, and then no key shows anything else than before.
   */
  lemma SecondRun(t: Table, ops: seq<Op>, u: Table)
    requires UniqueKeys(t) && WellKeyed(ops) && RunOps(t, ops, false).Success?
    requires UniqueKeys(u) && forall k :: Lookup(u, k) == Lookup(RunOps(t, ops, false).value.table, k)
    ensures RunOps(u, ops, false).Success? <==> forall op | op in ops :: Repeats(op)
    ensures RunOps(u, ops, false).Success? ==>
      && UniqueKeys(RunOps(u, ops, false).value.table)
      && forall k :: Lookup(RunOps(u, ops, false).value.table, k) == Lookup(u, k)
  {
    RunHasClosedForm(t, ops, false);
    RunHasClosedForm(u, ops, false);
    SuccessMeansUnopposed(u, ops, false, RunOps(u, ops, false));
    hide RunOps, Lookup, Objection, RowAfter, Repeats, FinalRow, UniqueKeys, KeysOf, Skipped, Applied, Matches;
    forall op | op in ops
      ensures Unopposed(u, op) <==> Repeats(op)
      ensures Repeats(op) ==> RowAfter(Lookup(u, op.key), op) == Lookup(u, op.key)
    {
      var i :| 0 <= i < |ops| && ops[i] == op;
      FinalRowOf(t, ops, i);
      RepeatedOp(Lookup(t, op.key), op);
    }
    if RunOps(u, ops, false).Success? {
      forall k ensures FinalRow(u, ops, k) == Lookup(u, k) {
        if i :| 0 <= i < |ops| && ops[i].key == k {
          FinalRowOf(u, ops, i);
          assert ops[i] in ops && Unopposed(u, ops[i]);
        } else {
          FinalRowElsewhere(u, ops, k);
        }
      }
    }
  }

  // ---------------------------------------------------------------- patches

  /** The table shows exactly the snapshot's entries, equal on all five texts. */
  ghost predicate TableMatches(t: Table, snapshot: map<Key, Fields>) {
    && UniqueKeys(t)
    && forall k ::
         match Lookup(t, k)
         case None => k !in snapshot
         case Some(row) => k in snapshot && SameDoc(row, snapshot[k])
  }

  ghost predicate Keyed(snapshot: map<Key, Fields>) {
    forall k | k in snapshot :: KeyOf(snapshot[k]) == k
  }

  /** A key is looked up by its three texts as they are stored. */
  lemma LookupFinds(t: Table, k: Key)
    ensures match Lookup(t, k)
      case None => forall row | row in t :: !(row.name == Str(k.name) && row.section == Str(k.section) && row.sectionId == Str(k.sectionId))
      case Some(row) => row in t && row.name == Str(k.name) && row.section == Str(k.section) && row.sectionId == Str(k.sectionId)
  {
    hide FindRow;
    if Lookup(t, k).None? {
      forall row | row in t ensures !Matches(row, k) {
        var i :| 0 <= i < |t| && t[i] == row;
      }
    }
  }

  /** Which operations are refused, and with which error: the stored row's five texts decide. */
  lemma RefusedIff(p: Progress, op: Op, dryRun: bool)
    ensures
      var row, r := Lookup(p.table, op.key), ApplyOp(p, op, dryRun);
      var doc := if op.ModifyControl? then op.before else op.document;
      var agrees := row.Some?
        && OrEmpty(row.value.name) == OrEmpty(doc.name) && OrEmpty(row.value.section) == OrEmpty(doc.section)
        && OrEmpty(row.value.subsection) == OrEmpty(doc.subsection) && OrEmpty(row.value.sectionId) == OrEmpty(doc.sectionId)
        && OrEmpty(row.value.description) == OrEmpty(doc.description);
      var error := match op
        case AddControl(k, _) => AddExists(k)
        case RemoveControl(k, _) => if row.None? then RemoveMissing(k) else RemoveChanged(k)
        case ModifyControl(k, _, _) => if row.None? then ModifyMissing(k) else ModifyStale(k);
      && (r.Failure? <==> !agrees && !(op.AddControl? && row.None?))
      && (r.Failure? ==> r.error == error)
  {
    hide FindRow, NewRow, ChangedRow;
  }

  /** Which operations are skipped: additions of a row that is there, and modifications that change none of the five texts. */
  lemma SkippedIff(p: Progress, op: Op, dryRun: bool)
    requires ApplyOp(p, op, dryRun).Success?
    ensures
      var q := ApplyOp(p, op, dryRun).value;
      var skips := match op
        case AddControl(k, _) => Lookup(p.table, k).Some?
        case RemoveControl(_, _) => false
        case ModifyControl(_, before, after) =>
          OrEmpty(before.name) == OrEmpty(after.name) && OrEmpty(before.section) == OrEmpty(after.section)
          && OrEmpty(before.subsection) == OrEmpty(after.subsection) && OrEmpty(before.sectionId) == OrEmpty(after.sectionId)
          && OrEmpty(before.description) == OrEmpty(after.description);
      && q.skipped == p.skipped + (if skips then 1 else 0)
      && q.applied == p.applied + (if skips then 0 else 1)
      && (skips || dryRun ==> q.table == p.table)
  {
    hide FindRow, NewRow, ChangedRow;
  }

  /**
   The change set between two snapshots takes a table that shows the first one to the second one: each
   entry has a row with its five texts, and no other key has a row.
   */
  lemma PatchIsCorrect(previous: map<Key, Fields>, current: map<Key, Fields>, ops: seq<Op>, t: Table)
    requires Keyed(previous) && Keyed(current) && IsChangeSet(previous, current, ops)
    requires TableMatches(t, previous)
    ensures RunOps(t, ops, false).Success?
    ensures TableMatches(RunOps(t, ops, false).value.table, current)
    ensures forall k | k !in current :: Lookup(RunOps(t, ops, false).value.table, k).None?
    ensures forall k | k in current ::
      var row := Lookup(RunOps(t, ops, false).value.table, k);
      && row.Some?
      && OrEmpty(row.value.name) == OrEmpty(current[k].name)
      && OrEmpty(row.value.section) == OrEmpty(current[k].section)
      && OrEmpty(row.value.subsection) == OrEmpty(current[k].subsection)
      && OrEmpty(row.value.sectionId) == OrEmpty(current[k].sectionId)
      && OrEmpty(row.value.description) == OrEmpty(current[k].description)
  {
    RunHasClosedForm(t, ops, false);
    hide RunOps, FinalRow, WellKeyed, UniqueKeys, KeysOf, Skipped, Applied, Lookup;
    forall op | op in ops ensures Unopposed(t, op) {
      assert Expected(previous, current, op);
    }
    var r := RunOps(t, ops, false);
    SuccessMeansUnopposed(t, ops, false, r);
    forall k
      ensures match Lookup(r.value.table, k)
              case None => k !in current
              case Some(row) => k in current && SameDoc(row, current[k])
    {
      PatchedKey(previous, current, ops, t, k);
    }
  }

  lemma PatchedKey(previous: map<Key, Fields>, current: map<Key, Fields>, ops: seq<Op>, t: Table, k: Key)
    requires Keyed(previous) && Keyed(current) && IsChangeSet(previous, current, ops) && WellKeyed(ops)
    requires TableMatches(t, previous)
    ensures match FinalRow(t, ops, k)
            case None => k !in current
            case Some(row) => k in current && SameDoc(row, current[k])
  {
    assert k in current && k !in previous ==> AddControl(k, current[k]) in ops;
    assert k in previous && k !in current ==> RemoveControl(k, previous[k]) in ops;
    assert k in previous && k in current && previous[k] != current[k] ==> ModifyControl(k, previous[k], current[k]) in ops;
    if i :| 0 <= i < |ops| && ops[i].key == k {
      FinalRowOf(t, ops, i);
      assert ops[i] in ops && Expected(previous, current, ops[i]);
    } else {
      FinalRowElsewhere(t, ops, k);
    }
  }

  // ---------------------------------------------------------------- rows outside every key

  predicate IsKeyed(row: Fields) {
    row.name.Str? && row.section.Str? && row.sectionId.Str?
  }

  /** The rows that no key can find, in order. */
  function Unkeyed(t: Table): Table {
    if t == [] then []
    else Unkeyed(t[..|t| - 1]) + if IsKeyed(t[|t| - 1]) then [] else [t[|t| - 1]]
  }

  lemma {:induction false} UnkeyedJoin(a: Table, b: Table)
    ensures Unkeyed(a + b) == Unkeyed(a) + Unkeyed(b)
  {
    if b == [] {
      assert a + b == a;
    } else {
      var front := b[..|b| - 1];
      UnkeyedJoin(a, front);
      assert (a + b)[..|a + b| - 1] == a + front;
    }
  }

  lemma KeyedRowLeavesNoTrace(a: Table, row: Fields, b: Table)
    requires IsKeyed(row)
    ensures Unkeyed(a + [row] + b) == Unkeyed(a + b)
  {
    UnkeyedJoin(a + [row], b);
    UnkeyedJoin(a, [row]);
    UnkeyedJoin(a, b);
    assert Unkeyed([row]) == [];
  }

  /** Whatever the change set says, rows that lack a key field stay as they are. */
  lemma {:induction false} UnkeyedRowsStay(t: Table, ops: seq<Op>, dryRun: bool)
    ensures RunOps(t, ops, dryRun).Success? ==> Unkeyed(RunOps(t, ops, dryRun).value.table) == Unkeyed(t)
  {
    if ops != [] {
      var front, op := ops[..|ops| - 1], ops[|ops| - 1];
      UnkeyedRowsStay(t, front, dryRun);
      if RunOps(t, front, dryRun).Success? {
        UnkeyedRowsStayOnce(RunOps(t, front, dryRun).value, op, dryRun);
      }
    }
  }

  lemma UnkeyedRowsStayOnce(p: Progress, op: Op, dryRun: bool)
    ensures ApplyOp(p, op, dryRun).Success? ==> Unkeyed(ApplyOp(p, op, dryRun).value.table) == Unkeyed(p.table)
  {
    var t, i := p.table, FindRow(p.table, op.key);
    if i == |t| {
      if op.AddControl? {
        KeyedRowLeavesNoTrace(t, NewRow(op.key, op.document), []);
        assert t + [NewRow(op.key, op.document)] + [] == t + [NewRow(op.key, op.document)] && t + [] == t;
      }
    } else {
      assert t == t[..i] + [t[i]] + t[i + 1..];
      KeyedRowLeavesNoTrace(t[..i], t[i], t[i + 1..]);
      if op.ModifyControl? {
        var row := ChangedRow(t[i], op.after);
        assert t[i := row] == t[..i] + [row] + t[i + 1..];
        KeyedRowLeavesNoTrace(t[..i], row, t[i + 1..]);
      }
    }
  }
}
