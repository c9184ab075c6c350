/** The mapping template: one spreadsheet row per CRE, indented by its depth below a root. */
module Spreadsheet {
  import opened Wrappers
  import opened Documents
  import opened Graphs

  /** A row names the CRE in the column of its offset. */
  datatype Row = Row(offset: nat, id: string, name: string)

  /** The header has one CRE column for each offset below columns. */
  datatype Template = Template(columns: nat, rows: seq<Row>)

  datatype TemplateError = NotFound(id: string) | OrphanedCres

  /** The hydrated links of the stored CREs by external id. */
  type Store = map<string, seq<Link>>

  /** A lookup by an empty external id is refused. */
  predicate Found(db: Store, id: string) {
    id != "" && id in db
  }

  predicate LinksTo(l: Link, ltype: LinkType, id: string) {
    l.ltype == ltype && l.document.doctype == CRE && l.document.id == id
  }

  function ContainsEdges(db: Store): set<(string, string)> {
    set v, l | v in db && l in db[v] && Found(db, v) && LinksTo(l, Contains, l.document.id) :: (v, l.document.id)
  }

  ghost predicate Reaches(db: Store, from: string, to: string) {
    HasPath(ContainsEdges(db), from, to)
  }

  ghost predicate RelatedTo(db: Store, v: string, id: string) {
    Found(db, v) && exists l | l in db[v] :: LinksTo(l, Related, id)
  }

  function Universe(db: Store): set<string> {
    set v, l | v in db && l in db[v] :: l.document.id
  }

  lemma ReachesItself(db: Store, v: string)
    ensures Reaches(db, v, v)
  {
    assert IsWalk(ContainsEdges(db), [v]);
  }

  lemma ReachesByEdge(db: Store, v: string, l: Link, w: string)
    requires Found(db, v) && l in db[v] && LinksTo(l, Contains, l.document.id) && Reaches(db, l.document.id, w)
    ensures Reaches(db, v, w)
  {
    var edges := ContainsEdges(db);
    var walk :| IsWalk(edges, walk) && walk[0] == l.document.id && walk[|walk| - 1] == w;
    JoinWalks(edges, [v], walk);
    PathByWalk(edges, [v] + walk);
  }

  // ---------------------------------------------------------------- what is covered

  /** The link needs no more attention at the end: its CRE is listed, or is noted as related. */
  ghost predicate Handled(l: Link, visited: set<string>, related: set<string>) {
    && (LinksTo(l, Contains, l.document.id) ==> l.document.id in visited)
    && (LinksTo(l, Related, l.document.id) ==> l.document.id in visited || l.document.id in related)
  }

  ghost predicate HandledUpTo(db: Store, v: string, k: nat, visited: set<string>, related: set<string>) {
    Found(db, v) && k <= |db[v]| && forall i | 0 <= i < k :: Handled(db[v][i], visited, related)
  }

  ghost predicate Complete(db: Store, v: string, visited: set<string>, related: set<string>) {
    Found(db, v) && HandledUpTo(db, v, |db[v]|, visited, related)
  }

  /** What the walk below id has covered once k of its links are handled. */
  ghost predicate Covered(db: Store, id: string, k: nat,
                          s0: set<string>, s1: set<string>, r0: set<string>, r1: set<string>) {
    && id in s1 && s0 <= s1 && r0 <= r1
    && HandledUpTo(db, id, k, s1, r1)
    && (forall v | v in s1 && v !in s0 && v != id :: Complete(db, v, s1, r1))
    && (forall v | v in s1 && v !in s0 :: Reaches(db, id, v))
    && (forall r | r in r1 && r !in r0 :: exists v :: Reaches(db, id, v) && RelatedTo(db, v, r))
  }

  lemma StillComplete(db: Store, v: string, k: nat, s: set<string>, r: set<string>, s': set<string>, r': set<string>)
    requires HandledUpTo(db, v, k, s, r) && s <= s' && r <= r'
    ensures HandledUpTo(db, v, k, s', r')
  {
    forall i | 0 <= i < k ensures Handled(db[v][i], s', r') {
      assert Handled(db[v][i], s, r);
    }
  }

  lemma CoverStart(db: Store, id: string, s0: set<string>, r0: set<string>)
    requires Found(db, id)
    ensures Covered(db, id, 0, s0, s0 + {id}, r0, r0)
  {
    ReachesItself(db, id);
  }

  lemma CoverChild(db: Store, id: string, k: nat, s0: set<string>, s1: set<string>, r0: set<string>, r1: set<string>,
                   s2: set<string>, r2: set<string>)
    requires Found(db, id) && Covered(db, id, k, s0, s1, r0, r1)
    requires k < |db[id]| && LinksTo(db[id][k], Contains, db[id][k].document.id)
    requires var c := db[id][k].document.id; Found(db, c) && c !in s1 && Covered(db, c, |db[c]|, s1, s2, r1, r2)
    ensures Covered(db, id, k + 1, s0, s2, r0, r2)
  {
    hide Reaches, RelatedTo, HandledUpTo;
    var c := db[id][k].document.id;
    forall v | v in s2 && v !in s0 && v != id ensures Complete(db, v, s2, r2) {
      if v in s1 { StillComplete(db, v, |db[v]|, s1, r1, s2, r2); }
    }
    forall v | v in s2 && v !in s0 ensures Reaches(db, id, v) {
      if v !in s1 { ReachesByEdge(db, id, db[id][k], v); }
    }
    forall r | r in r2 && r !in r0 ensures exists v :: Reaches(db, id, v) && RelatedTo(db, v, r) {
      if r !in r1 {
        var v :| Reaches(db, c, v) && RelatedTo(db, v, r);
        ReachesByEdge(db, id, db[id][k], v);
      }
    }
    StillComplete(db, id, k, s1, r1, s2, r2);
    HandleOneMore(db, id, k, s2, r2);
  }

  lemma HandleOneMore(db: Store, id: string, k: nat, s: set<string>, r: set<string>)
    requires HandledUpTo(db, id, k, s, r) && k < |db[id]| && Handled(db[id][k], s, r)
    ensures HandledUpTo(db, id, k + 1, s, r)
  {
  }

  /** A link that leads to no recursion notes a related CRE or does nothing. */
  lemma CoverOther(db: Store, id: string, k: nat, s0: set<string>, s1: set<string>, r0: set<string>, r1: set<string>,
                   r2: set<string>)
    requires Found(db, id) && Covered(db, id, k, s0, s1, r0, r1) && k < |db[id]|
    requires Handled(db[id][k], s1, r2)
    requires var l := db[id][k]; r2 == r1 || (r2 == r1 + {l.document.id} && LinksTo(l, Related, l.document.id))
    ensures Covered(db, id, k + 1, s0, s1, r0, r2)
  {
    hide Reaches, HandledUpTo;
    forall v | v in s1 && v !in s0 && v != id ensures Complete(db, v, s1, r2) {
      StillComplete(db, v, |db[v]|, s1, r1, s1, r2);
    }
    ReachesItself(db, id);
    StillComplete(db, id, k, s1, r1, s1, r2);
    HandleOneMore(db, id, k, s1, r2);
    assert r2 != r1 ==> RelatedTo(db, id, db[id][k].document.id) by { assert db[id][k] in db[id]; }
  }

  // ---------------------------------------------------------------- the rows

  function Ids(rows: seq<Row>): set<string> {
    set row | row in rows :: row.id
  }

  ghost predicate DistinctIds(rows: seq<Row>) {
    forall i, j | 0 <= i < j < |rows| :: rows[i].id != rows[j].id
  }

  /** Row i stands for a CRE that the CRE of row j contains. */
  ghost predicate ChildOf(db: Store, parent: Row, row: Row) {
    && Found(db, parent.id) && row.offset == parent.offset + 1
    && exists l | l in db[parent.id] :: LinksTo(l, Contains, row.id) && l.document.name == row.name
  }

  /** The nearest row above that is one level up holds a CRE that contains this one. */
  ghost predicate HangsAt(db: Store, rows: seq<Row>, i: nat, j: nat)
    requires j < i < |rows|
  {
    ChildOf(db, rows[j], rows[i]) && forall k | j < k < i :: rows[k].offset >= rows[i].offset
  }

  ghost predicate Hangs(db: Store, rows: seq<Row>, i: nat)
    requires i < |rows|
  {
    exists j :: 0 <= j < i && HangsAt(db, rows, i, j)
  }

  /** The rows of one subtree. */
  ghost predicate Subtree(db: Store, rows: seq<Row>, root: Row) {
    && rows != [] && rows[0] == root
    && forall i | 1 <= i < |rows| :: rows[i].offset > root.offset && Hangs(db, rows, i)
  }

  lemma SubtreeGrows(db: Store, rows: seq<Row>, root: Row, more: seq<Row>, child: Row)
    requires Subtree(db, rows, root) && Subtree(db, more, child) && ChildOf(db, root, child)
    ensures Subtree(db, rows + more, root)
  {
    hide Hangs;
    var all := rows + more;
    HangsFromRoot(db, rows, root, more, child);
    forall i | 1 <= i < |all| ensures all[i].offset > root.offset && Hangs(db, all, i) {
      if i < |rows| {
        HangsStill(db, rows, more, i);
      } else if i > |rows| {
        HangsShifted(db, rows, more, i - |rows|);
      }
    }
  }

  lemma HangsFromRoot(db: Store, rows: seq<Row>, root: Row, more: seq<Row>, child: Row)
    requires rows != [] && rows[0] == root && more != [] && more[0] == child && ChildOf(db, root, child)
    requires forall i | 1 <= i < |rows| :: rows[i].offset > root.offset
    ensures Hangs(db, rows + more, |rows|)
  {
    assert HangsAt(db, rows + more, |rows|, 0) by { hide Hangs; }
  }

  lemma HangsStill(db: Store, rows: seq<Row>, more: seq<Row>, i: nat)
    requires i < |rows| && Hangs(db, rows, i)
    ensures Hangs(db, rows + more, i)
  {
    hide ChildOf;
    var j :| 0 <= j < i && HangsAt(db, rows, i, j);
    assert HangsAt(db, rows + more, i, j);
  }

  lemma HangsShifted(db: Store, rows: seq<Row>, more: seq<Row>, i: nat)
    requires i < |more| && Hangs(db, more, i)
    ensures Hangs(db, rows + more, |rows| + i)
  {
    hide ChildOf;
    var j :| 0 <= j < i && HangsAt(db, more, i, j);
    var all := rows + more;
    forall k | |rows| + j < k < |rows| + i ensures all[k].offset >= all[|rows| + i].offset {
      assert all[k] == more[k - |rows|];
    }
    assert HangsAt(db, all, |rows| + i, |rows| + j);
  }

  /** Every newly visited CRE has exactly one row, and so has the CRE that the walk starts with. */
  ghost predicate Listed(rows: seq<Row>, id: string, s0: set<string>, s1: set<string>) {
    DistinctIds(rows) && forall v :: v in Ids(rows) <==> v == id || (v in s1 && v !in s0)
  }

  lemma ListMore(rows: seq<Row>, id: string, s0: set<string>, s1: set<string>, more: seq<Row>, c: string,
                 s2: set<string>)
    requires Listed(rows, id, s0, s1) && Listed(more, c, s1, s2) && id in s1 && s0 <= s1 <= s2 && c in s2 && c !in s1
    ensures Listed(rows + more, id, s0, s2)
  {
    var all := rows + more;
    forall i, j | 0 <= i < j < |all| ensures all[i].id != all[j].id {
      if i < |rows| <= j {
        assert rows[i].id in Ids(rows) && more[j - |rows|].id in Ids(more);
      }
    }
    IdsOfConcat(rows, more);
  }

  lemma IdsOfConcat(a: seq<Row>, b: seq<Row>)
    ensures Ids(a + b) == Ids(a) + Ids(b)
  {
    forall v ensures v in Ids(a + b) <==> v in Ids(a) + Ids(b) {
      if v in Ids(a) {
        var row :| row in a && row.id == v;
        assert row in a + b;
      }
      if v in Ids(b) {
        var row :| row in b && row.id == v;
        assert row in a + b;
      }
    }
  }

  /** The largest offset so far, and that some row needs it. */
  ghost predicate LargestOffset(m0: nat, m1: nat, rows: seq<Row>) {
    && m0 <= m1 && (forall row | row in rows :: row.offset <= m1)
    && (m1 == m0 || exists row | row in rows :: row.offset == m1)
  }

  lemma LargestOfConcat(m0: nat, m1: nat, rows: seq<Row>, m2: nat, more: seq<Row>)
    requires LargestOffset(m0, m1, rows) && LargestOffset(m1, m2, more)
    ensures LargestOffset(m0, m2, rows + more)
  {
    if m2 != m1 {
      var row :| row in more && row.offset == m2;
      assert row in rows + more;
    } else if m1 != m0 {
      var row :| row in rows && row.offset == m1;
      assert row in rows + more;
    }
  }

  // ---------------------------------------------------------------- the recursive walk

  datatype State = State(visited: set<string>, related: set<string>, maxOffset: nat)

  /** Everything one call has achieved when k links of its CRE are handled. */
  ghost predicate Written(db: Store, root: Row, k: nat, before: State, now: State, rows: seq<Row>) {
    && Covered(db, root.id, k, before.visited, now.visited, before.related, now.related)
    && Listed(rows, root.id, before.visited, now.visited)
    && Subtree(db, rows, root)
    && LargestOffset(before.maxOffset, now.maxOffset, rows)
  }

  lemma WrittenStart(db: Store, root: Row, before: State)
    requires Found(db, root.id)
    ensures
      var largest := if root.offset > before.maxOffset then root.offset else before.maxOffset;
      Written(db, root, 0, before, State(before.visited + {root.id}, before.related, largest), [root])
  {
    CoverStart(db, root.id, before.visited, before.related);
    hide Covered;
    assert root in [root];
  }

  lemma WrittenWithChild(db: Store, root: Row, k: nat, before: State, now: State, rows: seq<Row>, after: State,
                         more: seq<Row>)
    requires Written(db, root, k, before, now, rows) && Found(db, root.id) && k < |db[root.id]|
    requires LinksTo(db[root.id][k], Contains, db[root.id][k].document.id)
    requires db[root.id][k].document.id !in now.visited && Found(db, db[root.id][k].document.id)
    requires
      var c := db[root.id][k].document;
      Written(db, Row(root.offset + 1, c.id, c.name), |db[c.id]|, now, after, more)
    ensures Written(db, root, k + 1, before, after, rows + more)
  {
    hide Subtree, Listed, LargestOffset;
    var l := db[root.id][k];
    var c := l.document.id;
    CoverChild(db, root.id, k, before.visited, now.visited, before.related, now.related, after.visited, after.related);
    ListMore(rows, root.id, before.visited, now.visited, more, c, after.visited);
    assert l in db[root.id];
    SubtreeGrows(db, rows, root, more, Row(root.offset + 1, c, l.document.name));
    LargestOfConcat(before.maxOffset, now.maxOffset, rows, after.maxOffset, more);
  }

  class TemplateWriter {
    const db: Store
    var visited: set<string>
    var related: set<string>
    var maxOffset: nat

    constructor (db: Store)
      ensures this.db == db && visited == {} && related == {} && maxOffset == 0
    {
      this.db := db;
      visited, related, maxOffset := {}, {}, 0;
    }

    function Now(): State
      reads this
    {
      State(visited, related, maxOffset)
    }

    /** The row of a CRE and of all CREs below it that were not visited before; ends on cycles too. */
    method AddOffsetCre(cre: Document, offset: nat) returns (rows: Result<seq<Row>, TemplateError>)
      modifies this
      ensures rows.Success? ==>
        Found(db, cre.id) && Written(db, Row(offset, cre.id, cre.name), |db[cre.id]|, old(Now()), Now(), rows.value)
      ensures rows.Failure? ==> rows.error.NotFound? && !Found(db, rows.error.id) && Reaches(db, cre.id, rows.error.id)
      decreases Universe(db) - (visited + {cre.id})
    {
      hide Written, Reaches;
      ghost var before := Now();
      var root := Row(offset, cre.id, cre.name);
      maxOffset := if offset > maxOffset then offset else maxOffset;
      var out := [root];
      visited := visited + {cre.id};
      if !Found(db, cre.id) {
        ReachesItself(db, cre.id);
        return Failure(NotFound(cre.id));
      }
      var links := db[cre.id];
      WrittenStart(db, root, before);
      for k := 0 to |links|
        invariant before.visited + {cre.id} <= visited
        invariant Written(db, root, k, before, Now(), out)
      {
        var l := links[k];
        ghost var now := Now();
        if l.document.doctype == CRE && l.document.id !in visited {
          if l.ltype == Contains {
            assert l.document.id in Universe(db);
            var more := AddOffsetCre(l.document, offset + 1);
            if more.Failure? {
              ReachesByEdge(db, cre.id, l, more.error.id);
              return more;
            }
            WrittenWithChild(db, root, k, before, now, out, Now(), more.value);
            VisitedGrows(db, Row(offset + 1, l.document.id, l.document.name), now, Now(), more.value);
            out := out + more.value;
          } else if l.ltype == Related {
            related := related + {l.document.id};
            WrittenWithOther(db, root, k, before, now, out, related);
          } else {
            WrittenWithOther(db, root, k, before, now, out, related);
          }
        } else {
          WrittenWithOther(db, root, k, before, now, out, related);
        }
      }
      return Success(out);
    }
  }

  lemma WrittenWithOther(db: Store, root: Row, k: nat, before: State, now: State, rows: seq<Row>, related: set<string>)
    requires Written(db, root, k, before, now, rows) && Found(db, root.id) && k < |db[root.id]|
    requires Handled(db[root.id][k], now.visited, related)
    requires
      var l := db[root.id][k];
      related == now.related || (related == now.related + {l.document.id} && LinksTo(l, Related, l.document.id))
    ensures Written(db, root, k + 1, before, now.(related := related), rows)
  {
    hide Subtree, Listed, LargestOffset, Covered;
    CoverOther(db, root.id, k, before.visited, now.visited, before.related, now.related, related);
  }

  lemma VisitedGrows(db: Store, root: Row, before: State, now: State, rows: seq<Row>)
    requires Found(db, root.id) && Written(db, root, |db[root.id]|, before, now, rows)
    ensures before.visited <= now.visited
  {
  }

  // ---------------------------------------------------------------- the whole template

  /** Some of the first i documents leads to v through Contains links. */
  ghost predicate ReachedBy(db: Store, docs: seq<Document>, i: nat, v: string)
    requires i <= |docs|
  {
    exists j :: 0 <= j < i && Reaches(db, docs[j].id, v)
  }

  /** No document is reached from an earlier one. */
  ghost predicate RootsApart(db: Store, docs: seq<Document>, i: nat)
    requires i <= |docs|
  {
    forall j, k | 0 <= j < k < i :: !Reaches(db, docs[j].id, docs[k].id)
  }

  /** Every CRE below the documents is stored, and every related CRE is below them too. */
  ghost predicate CanWrite(db: Store, docs: seq<Document>) {
    && (forall v | ReachedBy(db, docs, |docs|, v) :: Found(db, v))
    && forall v, r | ReachedBy(db, docs, |docs|, v) && RelatedTo(db, v, r) :: ReachedBy(db, docs, |docs|, r)
  }

  function RootRows(rows: seq<Row>): seq<Row> {
    if rows == [] then [] else RootRows(rows[..|rows| - 1]) + if rows[|rows| - 1].offset == 0 then [rows[|rows| - 1]] else []
  }

  function RowsOfDocs(docs: seq<Document>): seq<Row> {
    seq(|docs|, i requires 0 <= i < |docs| => Row(0, docs[i].id, docs[i].name))
  }

  lemma {:induction false} RootRowsOfConcat(a: seq<Row>, b: seq<Row>)
    ensures RootRows(a + b) == RootRows(a) + RootRows(b)
  {
    if b == [] {
      assert a + b == a;
    } else {
      RootRowsOfConcat(a, b[..|b| - 1]);
      assert (a + b)[..|a + b| - 1] == a + b[..|b| - 1];
    }
  }

  lemma {:induction false} OneRootRow(rows: seq<Row>)
    requires rows != [] && rows[0].offset == 0 && forall i | 1 <= i < |rows| :: rows[i].offset > 0
    ensures RootRows(rows) == [rows[0]]
  {
    if |rows| > 1 {
      OneRootRow(rows[..|rows| - 1]);
    } else {
      assert rows[..0] == [];
    }
  }

  /** Rows either stand for a document or hang below one, and the documents keep their order. */
  ghost predicate Forest(db: Store, rows: seq<Row>, docs: seq<Document>) {
    && RootRows(rows) == RowsOfDocs(docs)
    && forall i | 0 <= i < |rows| :: rows[i].offset == 0 || Hangs(db, rows, i)
  }

  lemma ForestGrows(db: Store, rows: seq<Row>, docs: seq<Document>, i: nat, more: seq<Row>)
    requires i < |docs| && Forest(db, rows, docs[..i]) && Subtree(db, more, Row(0, docs[i].id, docs[i].name))
    ensures Forest(db, rows + more, docs[..i + 1])
  {
    hide Hangs;
    var all := rows + more;
    RootRowsOfConcat(rows, more);
    OneRootRow(more);
    assert RowsOfDocs(docs[..i + 1]) == RowsOfDocs(docs[..i]) + [more[0]];
    forall k | 0 <= k < |all| ensures all[k].offset == 0 || Hangs(db, all, k) {
      if k < |rows| {
        if rows[k].offset != 0 { HangsStill(db, rows, more, k); }
      } else if k > |rows| {
        HangsShifted(db, rows, more, k - |rows|);
      }
    }
  }

  lemma {:induction false} WalkStaysInside(db: Store, visited: set<string>, related: set<string>, w: seq<string>)
    requires forall v | v in visited :: Complete(db, v, visited, related)
    requires IsWalk(ContainsEdges(db), w) && w[0] in visited
    ensures w[|w| - 1] in visited
  {
    if |w| > 1 {
      var n := |w| - 2;
      assert IsWalk(ContainsEdges(db), w[..n + 1]);
      WalkStaysInside(db, visited, related, w[..n + 1]);
      assert (w[n], w[n + 1]) in ContainsEdges(db);
      var l :| l in db[w[n]] && LinksTo(l, Contains, w[n + 1]);
      var k :| 0 <= k < |db[w[n]]| && db[w[n]][k] == l;
      assert Complete(db, w[n], visited, related) && Handled(db[w[n]][k], visited, related);
    }
  }

  /** The visited CREs are those below the documents seen so far, and what they are related to is known. */
  ghost predicate CoveredRoots(db: Store, docs: seq<Document>, i: nat, visited: set<string>, related: set<string>)
    requires i <= |docs|
  {
    && (forall v :: v in visited <==> ReachedBy(db, docs, i, v))
    && (forall v | v in visited :: Complete(db, v, visited, related))
    && (forall r | r in related :: exists v :: v in visited && RelatedTo(db, v, r))
  }

  lemma CoverRoot(db: Store, docs: seq<Document>, i: nat, s0: set<string>, s1: set<string>, r0: set<string>,
                  r1: set<string>)
    requires i < |docs| && CoveredRoots(db, docs, i, s0, r0)
    requires Found(db, docs[i].id) && Covered(db, docs[i].id, |db[docs[i].id]|, s0, s1, r0, r1)
    ensures CoveredRoots(db, docs, i + 1, s1, r1)
  {
    hide Reaches, RelatedTo, HandledUpTo;
    var id := docs[i].id;
    forall v | v in s1 ensures Complete(db, v, s1, r1) {
      if v in s0 { StillComplete(db, v, |db[v]|, s0, r0, s1, r1); }
    }
    forall v | Reaches(db, id, v) ensures v in s1 {
      StaysVisited(db, s1, r1, id, v);
    }
    forall v ensures v in s1 <==> ReachedBy(db, docs, i + 1, v) {
      if v in s1 && v !in s0 {
        assert Reaches(db, docs[i].id, v);
      }
    }
  }

  lemma StaysVisited(db: Store, visited: set<string>, related: set<string>, from: string, v: string)
    requires forall u | u in visited :: Complete(db, u, visited, related)
    requires from in visited && Reaches(db, from, v)
    ensures v in visited
  {
    hide Complete;
    var w :| IsWalk(ContainsEdges(db), w) && w[0] == from && w[|w| - 1] == v;
    WalkStaysInside(db, visited, related, w);
  }

  /** The rows name exactly the visited CREs, and none twice if no document is reached from an earlier one. */
  ghost predicate ListedRoots(db: Store, docs: seq<Document>, i: nat, visited: set<string>, rows: seq<Row>)
    requires i <= |docs|
  {
    Ids(rows) == visited && (DistinctIds(rows) <==> RootsApart(db, docs, i))
  }

  lemma ListRoot(db: Store, docs: seq<Document>, i: nat, s0: set<string>, s1: set<string>, rows: seq<Row>,
                 more: seq<Row>)
    requires i < |docs| && ListedRoots(db, docs, i, s0, rows) && Listed(more, docs[i].id, s0, s1)
    requires forall v :: v in s0 <==> ReachedBy(db, docs, i, v)
    requires s0 <= s1 && docs[i].id in s1
    ensures ListedRoots(db, docs, i + 1, s1, rows + more)
  {
    hide Reaches, Ids;
    var id := docs[i].id;
    IdsOfConcat(rows, more);
    DistinctConcat(rows, more);
    assert Ids(rows) !! Ids(more) <==> id !in s0;
  }

  lemma DistinctConcat(a: seq<Row>, b: seq<Row>)
    ensures DistinctIds(a + b) <==> DistinctIds(a) && DistinctIds(b) && Ids(a) !! Ids(b)
  {
    var all := a + b;
    if DistinctIds(all) {
      forall i, j | 0 <= i < j < |a| ensures a[i].id != a[j].id { assert all[i].id != all[j].id; }
      forall i, j | 0 <= i < j < |b| ensures b[i].id != b[j].id { assert all[|a| + i].id != all[|a| + j].id; }
      forall v | v in Ids(a) ensures v !in Ids(b) {
        var i :| 0 <= i < |a| && a[i].id == v;
        forall j | 0 <= j < |b| ensures b[j].id != v { assert all[i].id != all[|a| + j].id; }
      }
    }
    if DistinctIds(a) && DistinctIds(b) && Ids(a) !! Ids(b) {
      forall i, j | 0 <= i < j < |all| ensures all[i].id != all[j].id {
        if i < |a| <= j {
          assert a[i].id in Ids(a) && b[j - |a|].id in Ids(b);
        }
      }
    }
  }

  /** The template for the given documents. */
  ghost predicate IsTemplate(db: Store, docs: seq<Document>, t: Template) {
    && (forall v :: v in Ids(t.rows) <==> ReachedBy(db, docs, |docs|, v))
    && (DistinctIds(t.rows) <==> RootsApart(db, docs, |docs|))
    && Forest(db, t.rows, docs)
    && (forall row | row in t.rows :: row.offset < t.columns)
    && (t.columns == 1 || exists row | row in t.rows :: row.offset == t.columns - 1)
  }

  ghost predicate Progress(db: Store, docs: seq<Document>, i: nat, now: State, rows: seq<Row>)
    requires i <= |docs|
  {
    && CoveredRoots(db, docs, i, now.visited, now.related)
    && ListedRoots(db, docs, i, now.visited, rows)
    && Forest(db, rows, docs[..i])
    && LargestOffset(0, now.maxOffset, rows)
  }

  lemma ProgressStart(db: Store, docs: seq<Document>)
    ensures Progress(db, docs, 0, State({}, {}, 0), [])
  {
    assert Ids([]) == {};
  }

  lemma ProgressStep(db: Store, docs: seq<Document>, i: nat, before: State, now: State, rows: seq<Row>, more: seq<Row>)
    requires i < |docs| && Progress(db, docs, i, before, rows) && Found(db, docs[i].id)
    requires Written(db, Row(0, docs[i].id, docs[i].name), |db[docs[i].id]|, before, now, more)
    ensures Progress(db, docs, i + 1, now, rows + more)
  {
    CoverRoot(db, docs, i, before.visited, now.visited, before.related, now.related);
    ListRoot(db, docs, i, before.visited, now.visited, rows, more);
    ForestGrows(db, rows, docs, i, more);
    LargestOfConcat(0, before.maxOffset, rows, now.maxOffset, more);
  }

  lemma NotFoundMeansNo(db: Store, docs: seq<Document>, i: nat, id: string)
    requires i < |docs| && Reaches(db, docs[i].id, id) && !Found(db, id)
    ensures ReachedBy(db, docs, |docs|, id) && !CanWrite(db, docs)
  {
    hide Reaches, RelatedTo, Found;
    assert ReachedBy(db, docs, |docs|, id);
  }

  lemma FinishedTemplate(db: Store, docs: seq<Document>, now: State, rows: seq<Row>)
    requires Progress(db, docs, |docs|, now, rows)
    ensures now.related <= now.visited ==> CanWrite(db, docs) && IsTemplate(db, docs, Template(now.maxOffset + 1, rows))
    ensures !(now.related <= now.visited) ==> !CanWrite(db, docs)
    ensures forall v | ReachedBy(db, docs, |docs|, v) :: Found(db, v)
  {
    hide ReachedBy, RootsApart, Forest, DistinctIds, Ids, HandledUpTo;
    assert docs[..|docs|] == docs;
    forall v, r | v in now.visited && RelatedTo(db, v, r) ensures r in now.visited || r in now.related {
      RelatedIsNoted(db, v, r, now);
    }
  }

  lemma RelatedIsNoted(db: Store, v: string, r: string, now: State)
    requires Complete(db, v, now.visited, now.related) && RelatedTo(db, v, r)
    ensures r in now.visited || r in now.related
  {
    var l :| l in db[v] && LinksTo(l, Related, r);
    var k :| 0 <= k < |db[v]| && db[v][k] == l;
    assert Handled(db[v][k], now.visited, now.related);
  }

  /**
   Writes the template, or refuses: exactly when a CRE below the documents is not stored, or a related
   CRE is not below them.
   */
  method GenerateMappingTemplateFile(db: Store, docs: seq<Document>) returns (result: Result<Template, TemplateError>)
    ensures result.Success? <==> CanWrite(db, docs)
    ensures result.Success? ==> IsTemplate(db, docs, result.value)
    ensures result.Failure? ==>
      if result.error.NotFound? then ReachedBy(db, docs, |docs|, result.error.id) && !Found(db, result.error.id)
      else forall v | ReachedBy(db, docs, |docs|, v) :: Found(db, v)
  {
    hide *;
    var writer := new TemplateWriter(db);
    var csv: seq<Row> := [];
    ProgressStart(db, docs);
    assert writer.Now() == State({}, {}, 0) by { NowIs(writer); }
    for i := 0 to |docs|
      invariant Progress(db, docs, i, writer.Now(), csv)
      invariant writer.db == db && fresh(writer)
    {
      ghost var before := writer.Now();
      var more := writer.AddOffsetCre(docs[i], 0);
      if more.Failure? {
        NotFoundMeansNo(db, docs, i, more.error.id);
        return Failure(more.error);
      }
      ProgressStep(db, docs, i, before, writer.Now(), csv, more.value);
      csv := csv + more.value;
    }
    FinishedTemplate(db, docs, writer.Now(), csv);
    NowIs(writer);
    if !(writer.related <= writer.visited) {
      return Failure(OrphanedCres);
    }
    return Success(Template(writer.maxOffset + 1, csv));
  }

  lemma NowIs(writer: TemplateWriter)
    ensures writer.Now() == State(writer.visited, writer.related, writer.maxOffset)
  {
  }
}
