/**
 Comparing two snapshots of a standard's entries, the change set that leads from one to the other,
 and the search for entries that were edited by hand in between.
 */
module ImportDiff {
  import opened Sequences

  /** A text that a document or a table row may lack. */
  datatype Text = Null | Str(s: string)

  function OrEmpty(t: Text): string {
    match t
    case Null => ""
    case Str(s) => s
  }

  /** The five fields that identify and describe a standard's entry, in a document or in a row. */
  datatype Fields = Fields(name: Text, section: Text, subsection: Text, sectionId: Text, description: Text)

  datatype Key = Key(name: string, section: string, sectionId: string)

  function KeyOf(f: Fields): Key {
    Key(OrEmpty(f.name), OrEmpty(f.section), OrEmpty(f.sectionId))
  }

  /** Equal but for the difference between a missing and an empty text. */
  predicate SameDoc(a: Fields, b: Fields) {
    && OrEmpty(a.name) == OrEmpty(b.name)
    && OrEmpty(a.section) == OrEmpty(b.section)
    && OrEmpty(a.subsection) == OrEmpty(b.subsection)
    && OrEmpty(a.sectionId) == OrEmpty(b.sectionId)
    && OrEmpty(a.description) == OrEmpty(b.description)
  }

  // ---------------------------------------------------------------- snapshots

  /** One entry per key: of several entries with the same key the last one counts. */
  function SnapshotMap(standards: seq<Fields>): (m: map<Key, Fields>)
    ensures forall k | k in m :: KeyOf(m[k]) == k && m[k] in standards
  {
    if standards == [] then map[]
    else
      var last := standards[|standards| - 1];
      SnapshotMap(standards[..|standards| - 1])[KeyOf(last) := last]
  }

  lemma {:induction false} SnapshotHasEveryKey(standards: seq<Fields>, s: Fields)
    requires s in standards
    ensures KeyOf(s) in SnapshotMap(standards)
    ensures (forall x | x in standards && KeyOf(x) == KeyOf(s) :: x == s) ==> SnapshotMap(standards)[KeyOf(s)] == s
  {
    var front, last := standards[..|standards| - 1], standards[|standards| - 1];
    assert standards == front + [last];
    if s in front {
      SnapshotHasEveryKey(front, s);
    }
  }

  /** Among entries with one key the last one counts. */
  lemma {:induction false} SnapshotKeepsLast(standards: seq<Fields>, i: nat)
    requires i < |standards|
    requires forall j | i < j < |standards| :: KeyOf(standards[j]) != KeyOf(standards[i])
    ensures KeyOf(standards[i]) in SnapshotMap(standards)
    ensures SnapshotMap(standards)[KeyOf(standards[i])] == standards[i]
  {
    if i < |standards| - 1 {
      SnapshotKeepsLast(standards[..|standards| - 1], i);
    }
  }

  datatype StandardDiff = StandardDiff(added: seq<Fields>, removed: seq<Fields>, modified: seq<(Fields, Fields)>)

  datatype Op =
    | AddControl(key: Key, document: Fields)
    | RemoveControl(key: Key, document: Fields)
    | ModifyControl(key: Key, before: Fields, after: Fields)

  /** The operation the two snapshots call for. The content hash is compared through the raw fields. */
  ghost predicate Expected(previous: map<Key, Fields>, current: map<Key, Fields>, op: Op) {
    match op
    case AddControl(k, d) => k in current && k !in previous && d == current[k]
    case RemoveControl(k, d) => k in previous && k !in current && d == previous[k]
    case ModifyControl(k, b, a) =>
      k in previous && k in current && b == previous[k] && a == current[k] && b != a
  }

  ghost predicate DistinctKeys(ops: seq<Op>) {
    forall i, j | 0 <= i < j < |ops| :: ops[i].key != ops[j].key
  }

  /** Exactly the expected operations, one for each key. */
  ghost predicate IsChangeSet(previous: map<Key, Fields>, current: map<Key, Fields>, ops: seq<Op>) {
    DistinctKeys(ops) && forall op :: op in ops <==> Expected(previous, current, op)
  }

  function OpsOf(diff: StandardDiff): seq<Op> {
    seq(|diff.added|, i requires 0 <= i < |diff.added| => AddControl(KeyOf(diff.added[i]), diff.added[i]))
    + seq(|diff.removed|, i requires 0 <= i < |diff.removed| => RemoveControl(KeyOf(diff.removed[i]), diff.removed[i]))
    + seq(|diff.modified|, i requires 0 <= i < |diff.modified| =>
        ModifyControl(KeyOf(diff.modified[i].0), diff.modified[i].0, diff.modified[i].1))
  }

  /** The values that m holds for the keys, each once, in whatever order the set is walked. */
  method ValuesOf(m: map<Key, Fields>, keys: set<Key>) returns (out: seq<Fields>, ghost order: seq<Key>)
    requires keys <= m.Keys
    ensures Distinct(order) && Elements(order) == keys
    ensures |out| == |order| && forall i | 0 <= i < |order| :: order[i] in m && out[i] == m[order[i]]
  {
    out, order := [], [];
    var rest := keys;
    while rest != {}
      invariant rest <= keys && Distinct(order) && Elements(order) == keys - rest
      invariant |out| == |order| && forall i | 0 <= i < |order| :: order[i] in m && out[i] == m[order[i]]
      decreases rest
    {
      var k :| k in rest;
      AppendElement(order, k);
      rest := rest - {k};
      order := order + [k];
      out := out + [m[k]];
    }
  }

  method DiffStandards(previous: seq<Fields>, current: seq<Fields>) returns (diff: StandardDiff)
    ensures IsChangeSet(SnapshotMap(previous), SnapshotMap(current), OpsOf(diff))
  {
    hide *;
    var prevMap, newMap := SnapshotMap(previous), SnapshotMap(current);
    var added, addedKeys := ValuesOf(newMap, newMap.Keys - prevMap.Keys);
    var removed, removedKeys := ValuesOf(prevMap, prevMap.Keys - newMap.Keys);
    var changed := set k | k in prevMap && k in newMap && prevMap[k] != newMap[k];
    var before, beforeKeys := ValuesOf(prevMap, changed);
    var modified := [];
    for i := 0 to |before|
      invariant |modified| == i
      invariant forall j | 0 <= j < i :: beforeKeys[j] in newMap && modified[j] == (before[j], newMap[beforeKeys[j]])
    {
      assert KeyOf(before[i]) == beforeKeys[i] && beforeKeys[i] in changed by { KeyIsIn(beforeKeys, i); }
      modified := modified + [(before[i], newMap[KeyOf(before[i])])];
    }
    diff := StandardDiff(added, removed, modified);
    ListedDiff(prevMap, newMap, diff, addedKeys, removedKeys, beforeKeys);
  }

  lemma KeyIsIn(keys: seq<Key>, i: nat)
    requires i < |keys|
    ensures keys[i] in Elements(keys)
  {
  }

  lemma ListedDiff(previous: map<Key, Fields>, current: map<Key, Fields>, diff: StandardDiff,
                   addedKeys: seq<Key>, removedKeys: seq<Key>, changedKeys: seq<Key>)
    requires forall k | k in previous :: KeyOf(previous[k]) == k
    requires forall k | k in current :: KeyOf(current[k]) == k
    requires Distinct(addedKeys) && Elements(addedKeys) == current.Keys - previous.Keys
    requires Distinct(removedKeys) && Elements(removedKeys) == previous.Keys - current.Keys
    requires Distinct(changedKeys)
    requires Elements(changedKeys) == set k | k in previous && k in current && previous[k] != current[k]
    requires |diff.added| == |addedKeys| && forall i | 0 <= i < |addedKeys| ::
      addedKeys[i] in current && diff.added[i] == current[addedKeys[i]]
    requires |diff.removed| == |removedKeys| && forall i | 0 <= i < |removedKeys| ::
      removedKeys[i] in previous && diff.removed[i] == previous[removedKeys[i]]
    requires |diff.modified| == |changedKeys| && forall i | 0 <= i < |changedKeys| ::
      changedKeys[i] in previous && changedKeys[i] in current
      && diff.modified[i] == (previous[changedKeys[i]], current[changedKeys[i]])
    ensures IsChangeSet(previous, current, OpsOf(diff))
  {
    var ops, keys := OpsOf(diff), addedKeys + removedKeys + changedKeys;
    var a, r := |addedKeys|, |removedKeys|;
    forall i | 0 <= i < |ops| ensures Expected(previous, current, ops[i]) && ops[i].key == keys[i] {
      if i < a { KeyIsIn(addedKeys, i); }
      else if i < a + r { KeyIsIn(removedKeys, i - a); }
      else { KeyIsIn(changedKeys, i - a - r); }
    }
    KeysApart(addedKeys, removedKeys, changedKeys);
    assert DistinctKeys(ops);
    hide Distinct;
    forall op | Expected(previous, current, op) ensures op in ops {
      ExpectedIsListed(previous, current, diff, addedKeys, removedKeys, changedKeys, op);
    }
  }

  lemma KeysApart(a: seq<Key>, b: seq<Key>, c: seq<Key>)
    requires Distinct(a) && Distinct(b) && Distinct(c)
    requires Elements(a) !! Elements(b) !! Elements(c)
    ensures Distinct(a + b + c)
  {
    forall i, j | 0 <= i < |a| && 0 <= j < |b| ensures a[i] != b[j] { KeyIsIn(a, i); KeyIsIn(b, j); }
    forall i, j | 0 <= i < |a| && 0 <= j < |c| ensures a[i] != c[j] { KeyIsIn(a, i); KeyIsIn(c, j); }
    forall i, j | 0 <= i < |b| && 0 <= j < |c| ensures b[i] != c[j] { KeyIsIn(b, i); KeyIsIn(c, j); }
  }

  lemma ExpectedIsListed(previous: map<Key, Fields>, current: map<Key, Fields>, diff: StandardDiff,
                         addedKeys: seq<Key>, removedKeys: seq<Key>, changedKeys: seq<Key>, op: Op)
    requires forall k | k in previous :: KeyOf(previous[k]) == k
    requires forall k | k in current :: KeyOf(current[k]) == k
    requires Elements(addedKeys) == current.Keys - previous.Keys
    requires Elements(removedKeys) == previous.Keys - current.Keys
    requires Elements(changedKeys) == set k | k in previous && k in current && previous[k] != current[k]
    requires |diff.added| == |addedKeys| && forall i | 0 <= i < |addedKeys| ::
      addedKeys[i] in current && diff.added[i] == current[addedKeys[i]]
    requires |diff.removed| == |removedKeys| && forall i | 0 <= i < |removedKeys| ::
      removedKeys[i] in previous && diff.removed[i] == previous[removedKeys[i]]
    requires |diff.modified| == |changedKeys| && forall i | 0 <= i < |changedKeys| ::
      changedKeys[i] in previous && changedKeys[i] in current
      && diff.modified[i] == (previous[changedKeys[i]], current[changedKeys[i]])
    requires Expected(previous, current, op)
    ensures op in OpsOf(diff)
  {
    var ops := OpsOf(diff);
    match op
    case AddControl(k, _) =>
      assert k in Elements(addedKeys);
      var i :| 0 <= i < |addedKeys| && addedKeys[i] == k;
      assert ops[i] == op;
    case RemoveControl(k, _) =>
      assert k in Elements(removedKeys);
      var i :| 0 <= i < |removedKeys| && removedKeys[i] == k;
      assert ops[|addedKeys| + i] == op;
    case ModifyControl(k, _, _) =>
      assert k in Elements(changedKeys);
      var i :| 0 <= i < |changedKeys| && changedKeys[i] == k;
      assert ops[|addedKeys| + |removedKeys| + i] == op;
  }

  /** Additions first, then removals, then modifications. */
  method DiffToChangeSet(diff: StandardDiff) returns (ops: seq<Op>)
    ensures ops == OpsOf(diff)
  {
    ops := [];
    for i := 0 to |diff.added|
      invariant ops == OpsOf(StandardDiff(diff.added[..i], [], []))
    {
      ops := ops + [AddControl(KeyOf(diff.added[i]), diff.added[i])];
    }
    for i := 0 to |diff.removed|
      invariant ops == OpsOf(StandardDiff(diff.added, diff.removed[..i], []))
    {
      ops := ops + [RemoveControl(KeyOf(diff.removed[i]), diff.removed[i])];
    }
    for i := 0 to |diff.modified|
      invariant ops == OpsOf(StandardDiff(diff.added, diff.removed, diff.modified[..i]))
    {
      ops := ops + [ModifyControl(KeyOf(diff.modified[i].0), diff.modified[i].0, diff.modified[i].1)];
    }
  }

  // ---------------------------------------------------------------- conflicts

  /** Keys present before and now whose content changed without the import. */
  function DetectManualEditKeys(baseline: seq<Fields>, current: seq<Fields>): set<Key> {
    var b, c := SnapshotMap(baseline), SnapshotMap(current);
    set k | k in b && k in c && b[k] != c[k]
  }

  predicate Conflicts(op: Op, manuallyEdited: set<Key>) {
    !op.AddControl? && op.key in manuallyEdited
  }

  method DetectConflicts(ops: seq<Op>, manuallyEdited: set<Key>) returns (conflicts: seq<Op>)
    ensures forall op :: op in conflicts <==> op in ops && Conflicts(op, manuallyEdited)
  {
    conflicts := [];
    for i := 0 to |ops|
      invariant forall op :: op in conflicts <==> op in ops[..i] && Conflicts(op, manuallyEdited)
    {
      assert ops[..i + 1] == ops[..i] + [ops[i]];
      if ops[i].ModifyControl? && ops[i].key in manuallyEdited {
        conflicts := conflicts + [ops[i]];
      } else if ops[i].RemoveControl? && ops[i].key in manuallyEdited {
        conflicts := conflicts + [ops[i]];
      }
    }
    assert ops[..|ops|] == ops;
  }

  method HasConflicts(ops: seq<Op>, manuallyEdited: set<Key>) returns (r: bool)
    ensures r <==> exists op :: op in ops && Conflicts(op, manuallyEdited)
  {
    var conflicts := DetectConflicts(ops, manuallyEdited);
    r := |conflicts| > 0;
    if r {
      assert conflicts[0] in conflicts;
    }
  }
}
