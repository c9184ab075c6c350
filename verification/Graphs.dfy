/**
 Directed graphs as finite sets of edges: walks, cycles, and a search for a cycle that stands for
 the graph library's find_cycle.
 */
module Graphs {
  import opened Wrappers
  import opened Sequences

  ghost predicate IsWalk<V>(edges: set<(V, V)>, w: seq<V>) {
    w != [] && forall i | 0 <= i < |w| - 1 :: (w[i], w[i + 1]) in edges
  }

  ghost predicate IsCycle<V>(edges: set<(V, V)>, w: seq<V>) {
    IsWalk(edges, w) && |w| >= 2 && w[0] == w[|w| - 1]
  }

  ghost predicate Acyclic<V(!new)>(edges: set<(V, V)>) {
    forall w :: !IsCycle(edges, w)
  }

  ghost predicate HasPath<V(!new)>(edges: set<(V, V)>, u: V, v: V) {
    exists w :: IsWalk(edges, w) && w[0] == u && w[|w| - 1] == v
  }

  lemma FewerEdgesAcyclic<V(!new)>(edges: set<(V, V)>, more: set<(V, V)>)
    requires edges <= more && Acyclic(more)
    ensures Acyclic(edges)
  {
    forall w ensures !IsCycle(edges, w) {
      if IsCycle(edges, w) {
        assert IsCycle(more, w);
      }
    }
  }

  /** A graph whose edges all lead upwards has no cycle. */
  lemma RisingEdgesAcyclic<V(!new)>(edges: set<(V, V)>, rank: V -> int)
    requires forall e | e in edges :: rank(e.0) < rank(e.1)
    ensures Acyclic(edges)
  {
    forall w ensures !IsCycle(edges, w) {
      if IsWalk(edges, w) {
        WalkRises(edges, rank, w);
      }
    }
  }

  lemma {:induction false} WalkRises<V>(edges: set<(V, V)>, rank: V -> int, w: seq<V>)
    requires (forall e | e in edges :: rank(e.0) < rank(e.1)) && IsWalk(edges, w)
    ensures |w| > 1 ==> rank(w[0]) < rank(w[|w| - 1])
  {
    if |w| > 1 {
      var n := |w| - 2;
      WalkRises(edges, rank, w[..n + 1]);
      assert (w[n], w[n + 1]) in edges;
    }
  }

  lemma PathStays<V(!new)>(edges: set<(V, V)>, more: set<(V, V)>, u: V, v: V)
    requires edges <= more && HasPath(edges, u, v)
    ensures HasPath(more, u, v)
  {
    var w :| IsWalk(edges, w) && w[0] == u && w[|w| - 1] == v;
    assert IsWalk(more, w);
  }

  lemma JoinWalks<V>(edges: set<(V, V)>, a: seq<V>, b: seq<V>)
    requires IsWalk(edges, a) && IsWalk(edges, b) && (a[|a| - 1], b[0]) in edges
    ensures IsWalk(edges, a + b)
  {
  }

  lemma PathByWalk<V(!new)>(edges: set<(V, V)>, w: seq<V>)
    requires IsWalk(edges, w)
    ensures HasPath(edges, w[0], w[|w| - 1])
  {
  }

  /** Round a cycle, the head of each edge leads back to its tail. */
  lemma RestOfCycle<V(!new)>(edges: set<(V, V)>, w: seq<V>, i: nat)
    requires IsCycle(edges, w) && i < |w| - 1
    ensures HasPath(edges, w[i + 1], w[i])
  {
    var back, start := w[i + 1..], w[1..i + 1];
    if i == 0 {
      PathByWalk(edges, back);
    } else {
      assert (w[0], w[0 + 1]) in edges;
      JoinWalks(edges, back, start);
      PathByWalk(edges, back + start);
    }
  }

  /** A walk with its detours cut out. */
  lemma {:induction false} SimpleWalk<V(!new)>(edges: set<(V, V)>, w: seq<V>) returns (p: seq<V>)
    requires IsWalk(edges, w)
    ensures IsWalk(edges, p) && Distinct(p) && p[0] == w[0] && p[|p| - 1] == w[|w| - 1]
    decreases |w|
  {
    if i, j :| 0 <= i < j < |w| && w[i] == w[j] {
      var short := w[..i + 1] + w[j + 1..];
      p := SimpleWalk(edges, short);
    } else {
      p := w;
    }
  }

  /** A walk from v can use the edge from u to v only if some walk without it leads from v to u. */
  lemma {:induction false} WalkFromHead<V(!new)>(edges: set<(V, V)>, u: V, v: V, w: seq<V>)
    requires IsWalk(edges + {(u, v)}, w) && w[0] == v
    ensures IsWalk(edges, w) || HasPath(edges, v, u)
  {
    if |w| > 1 {
      var front := w[..|w| - 1];
      WalkFromHead(edges, u, v, front);
      if IsWalk(edges, front) {
        PathByWalk(edges, front);
      }
    }
  }

  /** A new edge closes a cycle exactly when its head already leads back to its tail. */
  lemma NewEdgeClosesCycle<V(!new)>(edges: set<(V, V)>, u: V, v: V)
    requires Acyclic(edges)
    ensures Acyclic(edges + {(u, v)}) <==> !HasPath(edges, v, u)
  {
    var more := edges + {(u, v)};
    if HasPath(edges, v, u) {
      var w :| IsWalk(edges, w) && w[0] == v && w[|w| - 1] == u;
      assert IsWalk(more, w) && IsWalk(more, [u]);
      JoinWalks(more, [u], w);
      assert IsCycle(more, [u] + w);
    }
    forall w | IsCycle(more, w) ensures HasPath(edges, v, u) {
      assert !IsCycle(edges, w);
      CycleLeadsBack(edges, u, v, w);
    }
  }

  lemma CycleLeadsBack<V(!new)>(edges: set<(V, V)>, u: V, v: V, w: seq<V>)
    requires IsCycle(edges + {(u, v)}, w) && !IsCycle(edges, w)
    ensures HasPath(edges, v, u)
  {
    var more := edges + {(u, v)};
    var i :| 0 <= i < |w| - 1 && (w[i], w[i + 1]) !in edges;
    var back, start := w[i + 1..], w[1..i + 1];
    if i == 0 {
      WalkFromHead(edges, u, v, back);
      assert back[|back| - 1] == u;
      if IsWalk(edges, back) { PathByWalk(edges, back); }
    } else {
      assert IsWalk(more, back) && IsWalk(more, start) && (w[0], w[1]) in more;
      JoinWalks(more, back, start);
      var round := back + start;
      WalkFromHead(edges, u, v, round);
      assert round[|round| - 1] == u;
      if IsWalk(edges, round) { PathByWalk(edges, round); }
    }
  }

  predicate IsSink<V(==)>(edges: set<(V, V)>, rest: set<V>, v: V) {
    forall e | e in edges :: !(e.0 == v && e.1 in rest)
  }

  /** Every cycle runs inside rest. */
  ghost predicate CyclesStayIn<V(!new)>(edges: set<(V, V)>, rest: set<V>) {
    forall w, i | IsCycle(edges, w) && 0 <= i < |w| :: w[i] in rest
  }

  lemma SinkIsOnNoCycle<V(!new)>(edges: set<(V, V)>, rest: set<V>, v: V)
    requires CyclesStayIn(edges, rest) && IsSink(edges, rest, v)
    ensures CyclesStayIn(edges, rest - {v})
  {
    forall w, i | IsCycle(edges, w) && 0 <= i < |w| ensures w[i] in rest - {v} {
      var j := if i == |w| - 1 then 0 else i;
      var e := (w[j], w[j + 1]);
      assert w[i] in rest && w[j + 1] in rest;
      assert e in edges && e.0 == w[i];
    }
  }

  method SuccessorWithin<V(==)>(edges: set<(V, V)>, rest: set<V>, v: V) returns (s: V)
    requires !IsSink(edges, rest, v)
    ensures (v, s) in edges && s in rest
  {
    var e :| e in edges && e.0 == v && e.1 in rest;
    assert e == (v, e.1);
    s := e.1;
  }

  /** Follows edges inside rest, where every vertex has one, until a vertex repeats. */
  method WalkIntoCycle<V(==)>(edges: set<(V, V)>, rest: set<V>) returns (cycle: seq<V>)
    requires rest != {} && forall v | v in rest :: !IsSink(edges, rest, v)
    ensures IsCycle(edges, cycle)
  {
    hide *;
    var v :| v in rest;
    var path := [v];
    StartOfPath(edges, rest, v);
    while true
      invariant PathWithin(edges, rest, path)
      decreases |rest| - |path|
    {
      LastVertex(edges, rest, path);
      var next := SuccessorWithin(edges, rest, path[|path| - 1]);
      if i :| 0 <= i < |path| && path[i] == next {
        PathMeetsItself(edges, rest, path, i, next);
        return path[i..] + [next];
      }
      GrowPath(edges, rest, path, next);
      path := path + [next];
    }
  }

  ghost predicate PathWithin<V>(edges: set<(V, V)>, rest: set<V>, path: seq<V>) {
    IsWalk(edges, path) && Distinct(path) && Elements(path) <= rest
  }

  lemma StartOfPath<V>(edges: set<(V, V)>, rest: set<V>, v: V)
    requires v in rest
    ensures PathWithin(edges, rest, [v])
  {
    assert Elements([v]) == {v};
  }

  lemma LastVertex<V>(edges: set<(V, V)>, rest: set<V>, path: seq<V>)
    requires PathWithin(edges, rest, path)
    ensures path != [] && path[|path| - 1] in rest
  {
    assert path[|path| - 1] in Elements(path);
  }

  lemma PathMeetsItself<V>(edges: set<(V, V)>, rest: set<V>, path: seq<V>, i: nat, next: V)
    requires PathWithin(edges, rest, path) && i < |path| && path[i] == next
    requires (path[|path| - 1], next) in edges
    ensures IsCycle(edges, path[i..] + [next])
  {
    var tail := path[i..];
    assert IsWalk(edges, tail) && tail[|tail| - 1] == path[|path| - 1];
    JoinWalks(edges, tail, [next]);
  }

  lemma GrowPath<V>(edges: set<(V, V)>, rest: set<V>, path: seq<V>, next: V)
    requires PathWithin(edges, rest, path) && next in rest && path != []
    requires (path[|path| - 1], next) in edges
    requires forall i | 0 <= i < |path| :: path[i] != next
    ensures PathWithin(edges, rest, path + [next])
    ensures |path| < |rest|
  {
    JoinWalks(edges, path, [next]);
    AppendElement(path, next);
    DistinctCount(path + [next]);
    SubsetCount(Elements(path + [next]), rest);
  }

  /** Removes vertices without a successor until none is left or the rest must hold a cycle. */
  method FindCycle<V(==,!new)>(edges: set<(V, V)>) returns (cycle: Option<seq<V>>)
    ensures cycle.None? <==> Acyclic(edges)
    ensures cycle.Some? ==> IsCycle(edges, cycle.value)
  {
    var rest := set e | e in edges :: e.0;
    StartOfSearch(edges, rest);
    while rest != {}
      invariant CyclesStayIn(edges, rest)
    {
      if v :| v in rest && IsSink(edges, rest, v) {
        SinkIsOnNoCycle(edges, rest, v);
        rest := rest - {v};
      } else {
        var c := WalkIntoCycle(edges, rest);
        return Some(c);
      }
    }
    NoRoomForCycles(edges);
    cycle := None;
  }

  lemma NoRoomForCycles<V(!new)>(edges: set<(V, V)>)
    requires CyclesStayIn(edges, {})
    ensures Acyclic(edges)
  {
    var none: set<V> := {};
    forall w ensures !IsCycle(edges, w) {
      assert w == [] || w[0] !in none;
    }
  }

  lemma StartOfSearch<V(!new)>(edges: set<(V, V)>, tails: set<V>)
    requires tails == set e | e in edges :: e.0
    ensures CyclesStayIn(edges, tails)
  {
    forall w, i | IsCycle(edges, w) && 0 <= i < |w| ensures w[i] in tails {
      var j := if i == |w| - 1 then 0 else i;
      assert (w[j], w[j + 1]) in edges && (w[j], w[j + 1]).0 == w[i];
    }
  }
}
