/**
 Gap analysis between two standards: the score of a path through the CRE graph, and the merge of all
 paths into the strong and the weak ones for each pair of end points.
 */
module GapAnalysis {
  import opened Wrappers
  import opened Sequences

  type Id = string

  /**
   CONTAINS and the relationships in the penalty table, which also has containments whose direction is
   spelled out; OTHER is any other label.
   */
  datatype Relationship =
    | RELATED
    | CONTAINS
    | CONTAINS_UP
    | CONTAINS_DOWN
    | LINKED_TO
    | AUTOMATICALLY_LINKED_TO
    | SAME
    | OTHER(name: string)

  datatype Step = Step(start: Id, end: Id, relationship: Relationship)

  datatype Path = Path(start: Id, end: Id, steps: seq<Step>)

  const STRONG_UPPER_LIMIT := 2

  predicate Known(steps: seq<Step>) {
    forall i | 0 <= i < |steps| :: !steps[i].relationship.OTHER?
  }

  predicate IsUp(step: Step, previous: Id) {
    step.start == previous
  }

  function NextId(step: Step, previous: Id): Id {
    if step.start == previous then step.end else step.start
  }

  function Penalty(step: Step, previous: Id): nat
    requires !step.relationship.OTHER?
  {
    match step.relationship
    case RELATED => 2
    case CONTAINS => if IsUp(step, previous) then 2 else 1
    case CONTAINS_UP => 2
    case CONTAINS_DOWN => 1
    case _ => 0
  }

  function Score(steps: seq<Step>, previous: Id): nat
    requires Known(steps)
  {
    if steps == [] then 0 else Penalty(steps[0], previous) + Score(steps[1..], NextId(steps[0], previous))
  }

  function EndId(steps: seq<Step>, start: Id): Id {
    if steps == [] then start else EndId(steps[1..], NextId(steps[0], start))
  }

  function Sum(xs: seq<nat>): nat {
    if xs == [] then 0 else Sum(xs[..|xs| - 1]) + xs[|xs| - 1]
  }

  /** Walks the path, scoring each step by the end it is entered from; an unknown label raises. */
  method GetPathScore(path: Path) returns (score: Option<nat>, stepScores: seq<nat>)
    ensures score.None? <==> !Known(path.steps)
    ensures score.Some? ==>
      && score.value == Score(path.steps, path.start) == Sum(stepScores)
      && |stepScores| == |path.steps|
      && forall i | 0 <= i < |stepScores| :: stepScores[i] == Penalty(path.steps[i], EndId(path.steps[..i], path.start))
  {
    hide Score, EndId, Sum, Penalty, NextId;
    var total: nat := 0;
    var previous := path.start;
    stepScores := [];
    NothingScored(path);
    for i := 0 to |path.steps|
      invariant Known(path.steps[..i])
      invariant previous == EndId(path.steps[..i], path.start)
      invariant total == Score(path.steps[..i], path.start) == Sum(stepScores)
      invariant |stepScores| == i
      invariant forall j | 0 <= j < i :: stepScores[j] == Penalty(path.steps[j], EndId(path.steps[..j], path.start))
    {
      var step := path.steps[i];
      if step.relationship.OTHER? {
        return None, stepScores;
      }
      var penalty := Penalty(step, previous);
      OneMoreScored(path, i, stepScores, penalty);
      total := total + penalty;
      stepScores := stepScores + [penalty];
      previous := NextId(step, previous);
    }
    AllTaken(path.steps);
    score := Some(total);
  }

  lemma NothingScored(path: Path)
    ensures Known(path.steps[..0]) && EndId(path.steps[..0], path.start) == path.start
    ensures Score(path.steps[..0], path.start) == Sum([]) == 0
  {
  }

  lemma OneMoreScored(path: Path, i: nat, stepScores: seq<nat>, penalty: nat)
    requires i < |path.steps| && Known(path.steps[..i]) && !path.steps[i].relationship.OTHER?
    ensures
      var before, step := path.steps[..i], path.steps[i];
      var previous := EndId(before, path.start);
      && Known(path.steps[..i + 1])
      && EndId(path.steps[..i + 1], path.start) == NextId(step, previous)
      && Score(path.steps[..i + 1], path.start) == Score(before, path.start) + Penalty(step, previous)
      && Sum(stepScores + [penalty]) == Sum(stepScores) + penalty
  {
    var before, step := path.steps[..i], path.steps[i];
    OneMoreTaken(path.steps, i);
    ScoreOfConcat(before, [step], path.start);
    assert (stepScores + [penalty])[..|stepScores|] == stepScores;
    assert [step][1..] == [];
  }

  // ---------------------------------------------------------------- what a score says

  /** Scores add up along a path. */
  lemma {:induction false} ScoreOfConcat(a: seq<Step>, b: seq<Step>, start: Id)
    requires Known(a) && Known(b)
    ensures Known(a + b)
    ensures Score(a + b, start) == Score(a, start) + Score(b, EndId(a, start))
    ensures EndId(a + b, start) == EndId(b, EndId(a, start))
  {
    if a == [] {
      assert a + b == b;
    } else {
      ScoreOfConcat(a[1..], b, NextId(a[0], start));
      assert (a + b)[1..] == a[1..] + b;
    }
  }

  /** Each step starts or ends where the walk stands, and joins two different documents. */
  predicate Chained(steps: seq<Step>, start: Id) {
    steps == [] || (
      && steps[0].start != steps[0].end
      && (steps[0].start == start || steps[0].end == start)
      && Chained(steps[1..], NextId(steps[0], start)))
  }

  function Reversed(steps: seq<Step>): (r: seq<Step>)
    ensures |r| == |steps|
    ensures Known(steps) ==> Known(r)
  {
    if steps == [] then [] else Reversed(steps[1..]) + [steps[0]]
  }

  function Count(steps: seq<Step>, relationship: Relationship): nat {
    if steps == [] then 0
    else (if steps[0].relationship == relationship then 1 else 0) + Count(steps[1..], relationship)
  }

  /**
   Walking a path back swaps UP and DOWN unless they are spelled out: both directions together cost three
   for each plain containment, four or two for each one that is spelled UP or DOWN, and four for each
   relation, and the way back ends at the start.
   */
  lemma {:induction false} ScoreBothWays(steps: seq<Step>, start: Id)
    requires Known(steps) && Chained(steps, start)
    ensures Score(steps, start) + Score(Reversed(steps), EndId(steps, start))
      == 3 * Count(steps, CONTAINS) + 4 * Count(steps, CONTAINS_UP) + 2 * Count(steps, CONTAINS_DOWN) + 4 * Count(steps, RELATED)
    ensures EndId(Reversed(steps), EndId(steps, start)) == start
  {
    if steps != [] {
      var first, rest := steps[0], steps[1..];
      var next := NextId(first, start);
      ScoreBothWays(rest, next);
      ScoreOfConcat(Reversed(rest), [first], EndId(rest, next));
      assert Score([first], next) == Penalty(first, next) && EndId([first], next) == NextId(first, next) by {
        assert [first][1..] == [];
      }
    }
  }

  predicate CountsUp(step: Step, previous: Id) {
    step.relationship.CONTAINS_UP? || (step.relationship.CONTAINS? && IsUp(step, previous))
  }

  predicate CountsDown(step: Step, previous: Id) {
    step.relationship.CONTAINS_DOWN? || (step.relationship.CONTAINS? && !IsUp(step, previous))
  }

  function Ups(steps: seq<Step>, start: Id): nat {
    if steps == [] then 0
    else
      (if CountsUp(steps[0], start) then 1 else 0)
      + Ups(steps[1..], NextId(steps[0], start))
  }

  function Downs(steps: seq<Step>, start: Id): nat {
    if steps == [] then 0
    else
      (if CountsDown(steps[0], start) then 1 else 0)
      + Downs(steps[1..], NextId(steps[0], start))
  }

  lemma {:induction false} ScoreByKind(steps: seq<Step>, start: Id)
    requires Known(steps)
    ensures Score(steps, start) == 2 * Count(steps, RELATED) + 2 * Ups(steps, start) + Downs(steps, start)
  {
    if steps != [] {
      ScoreByKind(steps[1..], NextId(steps[0], start));
    }
  }

  /** The strong paths: one relation, or one step up, or at most two steps down, and no other penalty. */
  lemma StrongPaths(steps: seq<Step>, start: Id)
    requires Known(steps)
    ensures Score(steps, start) <= STRONG_UPPER_LIMIT <==>
      || (Count(steps, RELATED) == 1 && Ups(steps, start) == 0 && Downs(steps, start) == 0)
      || (Count(steps, RELATED) == 0 && Ups(steps, start) == 1 && Downs(steps, start) == 0)
      || (Count(steps, RELATED) == 0 && Ups(steps, start) == 0 && Downs(steps, start) <= 2)
  {
    ScoreByKind(steps, start);
  }

  /** Plain containments, each of which the walk enters at its start and leaves at its end. */
  predicate FromStartToEnd(steps: seq<Step>, at: Id) {
    steps == [] || (
      && steps[0].relationship == CONTAINS && steps[0].start == at
      && FromStartToEnd(steps[1..], steps[0].end))
  }

  /** Plain containments, each of which the walk enters at its end and leaves at its start. */
  predicate FromEndToStart(steps: seq<Step>, at: Id) {
    steps == [] || (
      && steps[0].relationship == CONTAINS && steps[0].end == at && steps[0].start != at
      && FromEndToStart(steps[1..], steps[0].start))
  }

  /** Entered at its start a containment costs two, entered at its end one. */
  lemma {:induction false} PlainContainments(steps: seq<Step>, at: Id)
    ensures FromStartToEnd(steps, at) ==> Known(steps) && Score(steps, at) == 2 * |steps|
    ensures FromEndToStart(steps, at) ==> Known(steps) && Score(steps, at) == |steps|
  {
    if steps != [] {
      PlainContainments(steps[1..], steps[0].end);
      PlainContainments(steps[1..], steps[0].start);
      assert steps == [steps[0]] + steps[1..];
    }
  }

  // ---------------------------------------------------------------- the best path of each pair

  datatype Scored = Scored(path: Path, score: nat)

  /** Scoring raises, or the start has no entry to file the path under. */
  predicate Raises(p: Path) {
    p.end != "" && (p.start == "" || !Known(p.steps))
  }

  predicate Joins(p: Path, start: Id, end: Id) {
    p.start == start && p.end == end && end != "" && !Raises(p)
  }

  function PathScore(p: Path): nat {
    if Known(p.steps) then Score(p.steps, p.start) else 0
  }

  /** The first of the cheapest paths from start to end. */
  function Best(paths: seq<Path>, start: Id, end: Id): Option<Scored> {
    if paths == [] then None
    else
      var before, last := Best(paths[..|paths| - 1], start, end), paths[|paths| - 1];
      if Joins(last, start, end) && (before.None? || before.value.score > PathScore(last))
      then Some(Scored(last, PathScore(last))) else before
  }

  ghost predicate FirstOfCheapest(paths: seq<Path>, i: int, start: Id, end: Id) {
    && 0 <= i < |paths| && Joins(paths[i], start, end)
    && forall j | 0 <= j < |paths| && Joins(paths[j], start, end) ::
         PathScore(paths[i]) <= PathScore(paths[j]) && (j < i ==> PathScore(paths[i]) < PathScore(paths[j]))
  }

  lemma {:induction false} BestIsFirstOfCheapest(paths: seq<Path>, start: Id, end: Id)
    ensures match Best(paths, start, end)
            case None => forall i | 0 <= i < |paths| :: !Joins(paths[i], start, end)
            case Some(b) => exists i :: FirstOfCheapest(paths, i, start, end) && b == Scored(paths[i], PathScore(paths[i]))
  {
    if paths != [] {
      var front, n := paths[..|paths| - 1], |paths| - 1;
      BestIsFirstOfCheapest(front, start, end);
      var before, now := Best(front, start, end), Best(paths, start, end);
      assert forall j | 0 <= j < n :: front[j] == paths[j];
      hide Joins, PathScore, Best;
      if before.Some? {
        var i :| FirstOfCheapest(front, i, start, end) && before.value == Scored(front[i], PathScore(front[i]));
        if now == before {
          assert FirstOfCheapest(paths, i, start, end);
        } else {
          assert FirstOfCheapest(paths, n, start, end);
        }
      } else if now.Some? {
        assert FirstOfCheapest(paths, n, start, end);
      }
    }
  }

  /** Which pairs have a path, and how cheap the cheapest is, does not depend on the order of the paths. */
  lemma BestScoreIgnoresOrder(paths: seq<Path>, reordered: seq<Path>, start: Id, end: Id)
    requires multiset(paths) == multiset(reordered)
    ensures var a, b := Best(paths, start, end), Best(reordered, start, end);
      (a.None? <==> b.None?) && (a.Some? ==> a.value.score == b.value.score)
  {
    assert forall p :: p in paths <==> p in multiset(paths);
    assert forall p :: p in reordered <==> p in multiset(reordered);
    BestIsFirstOfCheapest(paths, start, end);
    BestIsFirstOfCheapest(reordered, start, end);
    NoCheaperElsewhere(paths, reordered, start, end);
    NoCheaperElsewhere(reordered, paths, start, end);
  }

  lemma NoCheaperElsewhere(paths: seq<Path>, others: seq<Path>, start: Id, end: Id)
    requires forall p | p in paths :: p in others
    ensures var a, b := Best(paths, start, end), Best(others, start, end);
      a.Some? ==> b.Some? && b.value.score <= a.value.score
  {
    BestIsFirstOfCheapest(paths, start, end);
    BestIsFirstOfCheapest(others, start, end);
    var a, b := Best(paths, start, end), Best(others, start, end);
    hide Joins, PathScore, Best;
    if a.Some? {
      var i :| FirstOfCheapest(paths, i, start, end) && a.value == Scored(paths[i], PathScore(paths[i]));
      assert paths[i] in others;
      var j :| 0 <= j < |others| && others[j] == paths[i];
      assert Joins(others[j], start, end);
    }
  }

  // ---------------------------------------------------------------- the merge

  /** What is returned for one start document: its strong paths by end, and the number of weak ones. */
  datatype Group = Group(paths: map<Id, Scored>, extra: int)

  datatype GapError = KeyError

  /** One end is in the map its best path calls for, under that path. */
  ghost predicate EndFiled(best: Option<Scored>, end: Id, group: Group, weak: map<Id, Scored>) {
    && (end in group.paths <==> best.Some? && best.value.score <= STRONG_UPPER_LIMIT)
    && (end in weak <==> best.Some? && best.value.score > STRONG_UPPER_LIMIT)
    && (end in group.paths ==> best == Some(group.paths[end]))
    && (end in weak ==> best == Some(weak[end]))
  }

  ghost predicate Filed(paths: seq<Path>, start: Id, group: Group, weak: map<Id, Scored>) {
    (forall e :: EndFiled(Best(paths, start, e), e, group, weak)) && group.extra == |weak|
  }

  ghost predicate Merged(paths: seq<Path>, grouped: map<Id, Group>, weak: map<Id, map<Id, Scored>>) {
    grouped.Keys == weak.Keys && forall s | s in grouped :: Filed(paths, s, grouped[s], weak[s])
  }

  lemma BestStep(paths: seq<Path>, p: Path, start: Id, end: Id)
    ensures Best(paths + [p], start, end) ==
      if Joins(p, start, end) && (Best(paths, start, end).None? || Best(paths, start, end).value.score > PathScore(p))
      then Some(Scored(p, PathScore(p))) else Best(paths, start, end)
  {
    assert (paths + [p])[..|paths + [p]| - 1] == paths;
  }

  /** The loop body for one path that is filed under its start. */
  function FilePath(group: Group, weak: map<Id, Scored>, p: Path, score: nat): (Group, map<Id, Scored>) {
    var scored := Scored(p, score);
    if score <= STRONG_UPPER_LIMIT then
      var g := if p.end in weak then group.(extra := group.extra - 1) else group;
      var w := if p.end in weak then weak - {p.end} else weak;
      if p.end !in g.paths || g.paths[p.end].score > score then (g.(paths := g.paths[p.end := scored]), w) else (g, w)
    else if p.end in group.paths then (group, weak)
    else if p.end in weak then
      (group, if weak[p.end].score > score then weak[p.end := scored] else weak)
    else (group.(extra := group.extra + 1), weak[p.end := scored])
  }

  lemma FilePathIsRight(paths: seq<Path>, group: Group, weak: map<Id, Scored>, p: Path)
    requires Filed(paths, p.start, group, weak) && p.end != "" && !Raises(p)
    ensures var (g, w) := FilePath(group, weak, p, PathScore(p)); Filed(paths + [p], p.start, g, w)
  {
    forall e ensures Best(paths + [p], p.start, e) ==
      if e == p.end && (Best(paths, p.start, e).None? || Best(paths, p.start, e).value.score > PathScore(p))
      then Some(Scored(p, PathScore(p))) else Best(paths, p.start, e)
    {
      BestStep(paths, p, p.start, e);
    }
    hide Best, PathScore, EndFiled, FilePath, Raises;
    var (g, w) := FilePath(group, weak, p, PathScore(p));
    forall e ensures EndFiled(Best(paths + [p], p.start, e), e, g, w) {
    }
  }

  lemma OthersStayFiled(paths: seq<Path>, start: Id, group: Group, weak: map<Id, Scored>, p: Path)
    requires Filed(paths, start, group, weak) && (p.start != start || p.end == "")
    ensures Filed(paths + [p], start, group, weak)
  {
    forall e ensures Best(paths + [p], start, e) == Best(paths, start, e) {
      BestStep(paths, p, start, e);
    }
    hide Best;
  }

  /** An entry for every named base document and for the start of every path. */
  ghost function Starts(base: seq<Id>, paths: seq<Path>): set<Id> {
    (set id | id in base && id != "") + set p | p in paths && p.start != "" :: p.start
  }

  method SeedGroups(base: seq<Id>, paths: seq<Path>) returns (grouped: map<Id, Group>, weak: map<Id, map<Id, Scored>>)
    ensures grouped.Keys == Starts(base, paths) && Merged([], grouped, weak)
  {
    grouped, weak := map[], map[];
    for i := 0 to |base|
      invariant grouped.Keys == weak.Keys == set id | id in base[..i] && id != ""
      invariant forall s | s in grouped :: grouped[s] == Group(map[], 0) && weak[s] == map[]
    {
      assert base[..i + 1] == base[..i] + [base[i]];
      if base[i] != "" && base[i] !in grouped {
        grouped, weak := grouped[base[i] := Group(map[], 0)], weak[base[i] := map[]];
      }
    }
    assert base[..|base|] == base;
    ghost var fromBase := grouped.Keys;
    for i := 0 to |paths|
      invariant grouped.Keys == weak.Keys == fromBase + set p | p in paths[..i] && p.start != "" :: p.start
      invariant forall s | s in grouped :: grouped[s] == Group(map[], 0) && weak[s] == map[]
    {
      assert paths[..i + 1] == paths[..i] + [paths[i]];
      var key := paths[i].start;
      if key != "" && key !in grouped {
        grouped, weak := grouped[key := Group(map[], 0)], weak[key := map[]];
      }
    }
    assert paths[..|paths|] == paths;
  }

  /**
   Sorts the paths into the strong and the weak ones. For every start and end the better of the two
   maps holds the first of the cheapest paths, and extra counts the ends with weak paths only. The
   merge raises exactly when some path with an end has no start or an unknown relationship.
   */
  method GapMerge(base: seq<Id>, paths: seq<Path>)
    returns (r: Result<(map<Id, Group>, map<Id, map<Id, Scored>>), GapError>)
    ensures r.Failure? <==> exists p :: p in paths && Raises(p)
    ensures r.Success? ==> r.value.0.Keys == Starts(base, paths) && Merged(paths, r.value.0, r.value.1)
  {
    hide *;
    var grouped, weak := SeedGroups(base, paths);
    ghost var starts := grouped.Keys;
    for i := 0 to |paths|
      invariant Merged(paths[..i], grouped, weak) && grouped.Keys == starts
      invariant forall j | 0 <= j < i :: !Raises(paths[j])
    {
      var p := paths[i];
      assert paths[..i + 1] == paths[..i] + [p];
      if p.end == "" {
        SkipPath(paths[..i], grouped, weak, p);
        continue;
      }
      var score, _ := GetPathScore(p);
      if score.None? || p.start !in grouped {
        StartIsSeeded(base, paths, i);
        assert p in paths && Raises(p);
        return Failure(KeyError);
      }
      StartIsSeeded(base, paths, i);
      MergedAt(paths[..i], grouped, weak, p.start);
      var (g, w) := FilePath(grouped[p.start], weak[p.start], p, score.value);
      MergePath(paths[..i], grouped, weak, p);
      grouped, weak := grouped[p.start := g], weak[p.start := w];
    }
    assert paths[..|paths|] == paths;
    r := Success((grouped, weak));
  }

  lemma SkipPath(paths: seq<Path>, grouped: map<Id, Group>, weak: map<Id, map<Id, Scored>>, p: Path)
    requires Merged(paths, grouped, weak) && p.end == ""
    ensures Merged(paths + [p], grouped, weak) && !Raises(p)
  {
    forall s | s in grouped ensures Filed(paths + [p], s, grouped[s], weak[s]) {
      OthersStayFiled(paths, s, grouped[s], weak[s], p);
    }
  }

  lemma StartIsSeeded(base: seq<Id>, paths: seq<Path>, i: nat)
    requires i < |paths| && paths[i].end != ""
    ensures paths[i] in paths
    ensures "" !in Starts(base, paths)
    ensures paths[i].start != "" ==> paths[i].start in Starts(base, paths)
    ensures Raises(paths[i]) <==> paths[i].start == "" || !Known(paths[i].steps)
    ensures Known(paths[i].steps) ==> PathScore(paths[i]) == Score(paths[i].steps, paths[i].start)
  {
  }

  lemma MergedAt(paths: seq<Path>, grouped: map<Id, Group>, weak: map<Id, map<Id, Scored>>, s: Id)
    requires Merged(paths, grouped, weak) && s in grouped
    ensures s in weak && Filed(paths, s, grouped[s], weak[s])
  {
  }

  lemma MergePath(paths: seq<Path>, grouped: map<Id, Group>, weak: map<Id, map<Id, Scored>>, p: Path)
    requires Merged(paths, grouped, weak) && p.start in grouped && p.start in weak && p.end != "" && !Raises(p)
    ensures var (g, w) := FilePath(grouped[p.start], weak[p.start], p, PathScore(p));
      Merged(paths + [p], grouped[p.start := g], weak[p.start := w])
  {
    FilePathIsRight(paths, grouped[p.start], weak[p.start], p);
    forall s | s in grouped && s != p.start ensures Filed(paths + [p], s, grouped[s], weak[s]) {
      OthersStayFiled(paths, s, grouped[s], weak[s], p);
    }
    hide Filed, FilePath;
  }

  // ---------------------------------------------------------------- what the merge means

  /**
   An end is strong iff some path reaches it with a score within the limit, weak iff paths reach it
   but none that cheaply, and the stored path is the first of the cheapest ones.
   */
  lemma MergeMeaning(paths: seq<Path>, grouped: map<Id, Group>, weak: map<Id, map<Id, Scored>>, start: Id, end: Id)
    requires Merged(paths, grouped, weak) && start in grouped
    ensures end in grouped[start].paths <==>
      exists i :: 0 <= i < |paths| && Joins(paths[i], start, end) && PathScore(paths[i]) <= STRONG_UPPER_LIMIT
    ensures end in weak[start] <==>
      && (exists i :: 0 <= i < |paths| && Joins(paths[i], start, end))
      && (forall i | 0 <= i < |paths| && Joins(paths[i], start, end) :: PathScore(paths[i]) > STRONG_UPPER_LIMIT)
    ensures end in grouped[start].paths ==>
      exists i :: FirstOfCheapest(paths, i, start, end) && grouped[start].paths[end].path == paths[i]
    ensures end in weak[start] ==>
      exists i :: FirstOfCheapest(paths, i, start, end) && weak[start][end].path == paths[i]
    ensures grouped[start].extra == |weak[start]|
  {
    BestIsFirstOfCheapest(paths, start, end);
    MergedAt(paths, grouped, weak, start);
    assert EndFiled(Best(paths, start, end), end, grouped[start], weak[start]);
    hide Best, Joins, PathScore;
  }

  /** Another order of the paths gives the same strong and weak ends, scores and counts. */
  lemma MergeIgnoresOrder(paths: seq<Path>, grouped: map<Id, Group>, weak: map<Id, map<Id, Scored>>,
                          reordered: seq<Path>, grouped2: map<Id, Group>, weak2: map<Id, map<Id, Scored>>, start: Id)
    requires multiset(paths) == multiset(reordered)
    requires Merged(paths, grouped, weak) && Merged(reordered, grouped2, weak2)
    requires start in grouped && start in grouped2
    ensures grouped[start].paths.Keys == grouped2[start].paths.Keys && weak[start].Keys == weak2[start].Keys
    ensures forall e | e in grouped[start].paths :: grouped[start].paths[e].score == grouped2[start].paths[e].score
    ensures forall e | e in weak[start] :: weak[start][e].score == weak2[start][e].score
    ensures grouped[start].extra == grouped2[start].extra
  {
    MergedAt(paths, grouped, weak, start);
    MergedAt(reordered, grouped2, weak2, start);
    hide Best, Merged;
    forall e
      ensures e in grouped[start].paths <==> e in grouped2[start].paths
      ensures e in weak[start] <==> e in weak2[start]
      ensures e in grouped[start].paths ==> grouped[start].paths[e].score == grouped2[start].paths[e].score
      ensures e in weak[start] ==> weak[start][e].score == weak2[start][e].score
    {
      BestScoreIgnoresOrder(paths, reordered, start, e);
      assert EndFiled(Best(paths, start, e), e, grouped[start], weak[start]);
      assert EndFiled(Best(reordered, start, e), e, grouped2[start], weak2[start]);
    }
    assert |weak[start]| == |weak[start].Keys| && |weak2[start]| == |weak2[start].Keys|;
  }
}
