/**
 The CSV exporter's walk over the CRE hierarchy: the ancestor closure of the selected CREs, the
 distances of all ancestors to a target, and the enumeration of every shortest chain that leads
 from a root CRE down to the target.
 */
module CresCsvExport {
  import opened Wrappers
  import opened Sequences

  type CreId = string

  /** One link of a fetched CRE; docIsCre tells whether the linked document's doctype is CRE. */
  datatype Link = Link(ltype: string, docIsCre: bool, docId: CreId)

  datatype Payload = Payload(links: seq<Link>)

  const LTYPE_PART_OF := "Is Part Of"
  const LTYPE_CONTAINS := "Contains"
  const UNKNOWN_DISTANCE := 1_000_000_000

  /** Three digits, a dash, three digits. */
  predicate IsCreId(s: string) {
    && |s| == 7
    && s[3] == '-'
    && forall i | 0 <= i < 7 && i != 3 :: '0' <= s[i] <= '9'
  }

  /** The CREs that the payload's links of one type name. */
  ghost function LinkedCres(payload: Payload, ltype: string): set<CreId> {
    set link | link in payload.links && link.ltype == ltype && link.docIsCre && IsCreId(link.docId) :: link.docId
  }

  method LinkedCreIds(payload: Payload, ltype: string) returns (out: seq<CreId>)
    ensures Distinct(out) && Elements(out) == LinkedCres(payload, ltype)
  {
    var ids := [];
    for i := 0 to |payload.links|
      invariant Elements(ids) == LinkedCres(Payload(payload.links[..i]), ltype)
    {
      var link := payload.links[i];
      assert payload.links[..i + 1] == payload.links[..i] + [link];
      if link.ltype == ltype && link.docIsCre && IsCreId(link.docId) {
        assert Elements(ids + [link.docId]) == Elements(ids) + {link.docId};
        ids := ids + [link.docId];
      }
    }
    assert payload.links[..|payload.links|] == payload.links;
    out := DedupeKeepOrder(ids);
  }

  ghost function ParentSet(payload: Payload): set<CreId> {
    LinkedCres(payload, LTYPE_PART_OF)
  }

  ghost function ChildSet(payload: Payload): set<CreId> {
    LinkedCres(payload, LTYPE_CONTAINS)
  }

  /** Spelled out: the containers are the CREs with a well-formed id that some link names as "Is Part Of". */
  lemma ParentIff(payload: Payload, id: CreId)
    ensures id in ParentSet(payload) <==>
      && Link("Is Part Of", true, id) in payload.links
      && |id| == 7 && id[3] == '-' && forall i | i in [0, 1, 2, 4, 5, 6] :: '0' <= id[i] <= '9'
  {
    WellFormedIff(id);
    hide IsCreId;
    var link := Link("Is Part Of", true, id);
    assert link in payload.links && IsCreId(id) ==> link.docId in ParentSet(payload);
  }

  /** The contained ones are those that some link names as "Contains". */
  lemma ChildIff(payload: Payload, id: CreId)
    ensures id in ChildSet(payload) <==>
      && Link("Contains", true, id) in payload.links
      && |id| == 7 && id[3] == '-' && forall i | i in [0, 1, 2, 4, 5, 6] :: '0' <= id[i] <= '9'
  {
    WellFormedIff(id);
    hide IsCreId;
    var link := Link("Contains", true, id);
    assert link in payload.links && IsCreId(id) ==> link.docId in ChildSet(payload);
  }

  lemma WellFormedIff(id: CreId)
    ensures IsCreId(id) <==> |id| == 7 && id[3] == '-' && forall i | i in [0, 1, 2, 4, 5, 6] :: '0' <= id[i] <= '9'
  {
    assert forall i :: i in [0, 1, 2, 4, 5, 6] <==> 0 <= i < 7 && i != 3;
  }

  method ParentCreIds(payload: Payload) returns (out: seq<CreId>)
    ensures Distinct(out) && Elements(out) == ParentSet(payload)
  {
    out := LinkedCreIds(payload, LTYPE_PART_OF);
  }

  method ChildCreIds(payload: Payload) returns (out: seq<CreId>)
    ensures Distinct(out) && Elements(out) == ChildSet(payload)
  {
    out := LinkedCreIds(payload, LTYPE_CONTAINS);
  }

  // ---------------------------------------------------------------- ancestor closure

  /** A set of CREs the API knows that holds the seeds and every parent of each of its members. */
  ghost predicate ClosedAround(api: map<CreId, Payload>, seeds: set<CreId>, s: set<CreId>) {
    && seeds <= s <= api.Keys
    && forall c | c in s :: ParentSet(api[c]) <= s
  }

  /** What the worklist loop keeps: cached CREs have their parents cached or pending, nothing superfluous. */
  ghost predicate ClosureInv(api: map<CreId, Payload>, seeds: set<CreId>, cache: map<CreId, Payload>,
                             pending: set<CreId>) {
    && cache.Keys <= api.Keys
    && (forall c | c in cache :: cache[c] == api[c] && ParentSet(api[c]) <= cache.Keys + pending)
    && seeds <= cache.Keys + pending
    && forall s | ClosedAround(api, seeds, s) :: cache.Keys + pending <= s
  }

  lemma FetchKeepsClosureInv(api: map<CreId, Payload>, seeds: set<CreId>, cache: map<CreId, Payload>,
                             cid: CreId, rest: set<CreId>, pending: set<CreId>)
    requires cid in api
    requires ClosureInv(api, seeds, cache, {cid} + rest)
    requires rest <= pending <= rest + ParentSet(api[cid])
    requires ParentSet(api[cid]) <= pending + cache.Keys + {cid}
    ensures ClosureInv(api, seeds, cache[cid := api[cid]], pending)
  {
    var after := cache[cid := api[cid]];
    assert after.Keys == cache.Keys + {cid};
    forall s | ClosedAround(api, seeds, s) ensures after.Keys + pending <= s {
      assert ParentSet(api[cid]) <= s;
    }
  }

  lemma StartClosure(api: map<CreId, Payload>, seeds: seq<CreId>, pending: seq<CreId>)
    requires Elements(pending) == Elements(seeds)
    ensures ClosureInv(api, Elements(seeds), map[], Elements(pending))
    ensures Distinct<CreId>([]) && Elements<CreId>([]) == {}
  {
  }

  lemma FinishClosure(api: map<CreId, Payload>, seeds: set<CreId>, cache: map<CreId, Payload>)
    requires ClosureInv(api, seeds, cache, Elements([]))
    ensures ClosedAround(api, seeds, cache.Keys)
    ensures forall s | ClosedAround(api, seeds, s) :: cache.Keys <= s
    ensures forall c | c in cache :: cache[c] == api[c]
  {
    assert cache.Keys + Elements([]) == cache.Keys;
  }

  lemma SkipKeepsClosureInv(api: map<CreId, Payload>, seeds: set<CreId>, cache: map<CreId, Payload>,
                            cid: CreId, rest: set<CreId>)
    requires cid in cache && ClosureInv(api, seeds, cache, {cid} + rest)
    ensures ClosureInv(api, seeds, cache, rest)
  {
    assert cache.Keys + ({cid} + rest) == cache.Keys + rest;
  }

  lemma MissingMeansNoClosure(api: map<CreId, Payload>, seeds: set<CreId>, cache: map<CreId, Payload>,
                              cid: CreId, rest: set<CreId>)
    requires cid !in api && ClosureInv(api, seeds, cache, {cid} + rest)
    ensures forall s :: !ClosedAround(api, seeds, s)
  {
    forall s ensures !ClosedAround(api, seeds, s) {
      assert cid in cache.Keys + ({cid} + rest);
    }
  }

  /** Appends the parents that are not cached yet. */
  method Enqueue(pending: seq<CreId>, parents: seq<CreId>, cache: map<CreId, Payload>) returns (out: seq<CreId>)
    ensures Elements(pending) <= Elements(out) <= Elements(pending) + Elements(parents)
    ensures Elements(parents) <= Elements(out) + cache.Keys
  {
    out := pending;
    for i := 0 to |parents|
      invariant Elements(pending) <= Elements(out) <= Elements(pending) + Elements(parents)
      invariant forall p | p in parents[..i] :: p in out || p in cache
    {
      if parents[i] !in cache {
        out := out + [parents[i]];
      }
    }
  }

  /**
   Fetches the seeds and all their ancestors. The map api is what the server answers for each id;
   an id it lacks makes the request fail. The requests are returned in the order they were sent.
   */
  method BuildAncestorClosure(api: map<CreId, Payload>, seedIds: seq<CreId>)
    returns (r: Result<map<CreId, Payload>, CreId>, requests: seq<CreId>)
    ensures r.Success? ==>
      && ClosedAround(api, Elements(seedIds), r.value.Keys)
      && (forall s | ClosedAround(api, Elements(seedIds), s) :: r.value.Keys <= s)
      && (forall c | c in r.value :: r.value[c] == api[c])
      && Distinct(requests) && Elements(requests) == r.value.Keys
    ensures r.Failure? <==> forall s :: !ClosedAround(api, Elements(seedIds), s)
  {
    hide *;
    var cache: map<CreId, Payload> := map[];
    ghost var seeds := Elements(seedIds);
    requests := [];
    var pending := DedupeKeepOrder(seedIds);
    StartClosure(api, seedIds, pending);
    while |pending| > 0
      invariant ClosureInv(api, seeds, cache, Elements(pending))
      invariant Distinct(requests) && Elements(requests) == cache.Keys
      decreases |api.Keys - cache.Keys|, |pending|
    {
      var cid := pending[0];
      var rest := pending[1..];
      FirstElement(pending);
      if cid in cache {
        SkipKeepsClosureInv(api, seeds, cache, cid, Elements(rest));
        pending := rest;
        continue;
      }
      if cid !in api {
        MissingMeansNoClosure(api, seeds, cache, cid, Elements(rest));
        return Failure(cid), requests;
      }
      AppendElement(requests, cid);
      requests := requests + [cid];
      assert cache[cid := api[cid]].Keys == cache.Keys + {cid};
      assert (api.Keys - cache.Keys) - {cid} == api.Keys - cache[cid := api[cid]].Keys;
      var parents := ParentCreIds(api[cid]);
      pending := Enqueue(rest, parents, cache[cid := api[cid]]);
      FetchKeepsClosureInv(api, seeds, cache, cid, Elements(rest), Elements(pending));
      cache := cache[cid := api[cid]];
    }
    FinishClosure(api, seeds, cache);
    r := Success(cache);
  }

  // ---------------------------------------------------------------- distances

  type Hierarchy = map<CreId, seq<CreId>>

  function Neighbours(h: Hierarchy, n: CreId): seq<CreId> {
    if n in h then h[n] else []
  }

  /** Each element of the chain is a parent of the next one: the list reads from the top down. */
  ghost predicate IsChain(parents: Hierarchy, c: seq<CreId>) {
    |c| > 0 && forall i | 0 <= i < |c| - 1 :: c[i] in Neighbours(parents, c[i + 1])
  }

  ghost predicate ChainBetween(parents: Hierarchy, c: seq<CreId>, top: CreId, bottom: CreId) {
    IsChain(parents, c) && c[0] == top && c[|c| - 1] == bottom
  }

  ghost predicate HasChain(parents: Hierarchy, target: CreId, x: CreId, length: nat) {
    exists c :: ChainBetween(parents, c, x, target) && |c| == length + 1
  }

  /** dist holds exactly the CREs from which a chain leads to the target, with the shortest length. */
  ghost predicate IsDistance(parents: Hierarchy, target: CreId, dist: map<CreId, nat>) {
    && (forall x | x in dist :: HasChain(parents, target, x, dist[x]))
    && (forall c | IsChain(parents, c) && c[|c| - 1] == target :: c[0] in dist && dist[c[0]] < |c|)
  }

  ghost function AllIds(parents: Hierarchy, target: CreId): set<CreId> {
    {target} + set n, p | n in parents && p in parents[n] :: p
  }

  ghost predicate Expanded(parents: Hierarchy, dist: map<CreId, nat>, n: CreId) {
    n in dist && forall p | p in Neighbours(parents, n) :: p in dist && dist[p] <= dist[n] + 1
  }

  /** Every CRE with a distance was queued exactly once, the nearer ones first. */
  ghost predicate QueuedInOrder(dist: map<CreId, nat>, order: seq<CreId>) {
    && Distinct(order) && Elements(order) == dist.Keys
    && forall i, j | 0 <= i < j < |order| :: dist[order[i]] <= dist[order[j]]
  }

  lemma Discover(dist: map<CreId, nat>, order: seq<CreId>, p: CreId, nd: nat)
    requires QueuedInOrder(dist, order) && p !in dist
    requires order != [] && dist[order[|order| - 1]] <= nd
    ensures QueuedInOrder(dist[p := nd], order + [p])
  {
    assert Elements(order + [p]) == Elements(order) + {p};
    assert forall i | 0 <= i < |order| :: order[i] in Elements(order) && dist[order[i]] <= nd;
  }

  lemma DiscoverChain(parents: Hierarchy, target: CreId, n: CreId, length: nat, p: CreId)
    requires HasChain(parents, target, n, length) && p in Neighbours(parents, n)
    ensures HasChain(parents, target, p, length + 1)
  {
    var c :| ChainBetween(parents, c, n, target) && |c| == length + 1;
    ExtendChain(parents, p, c);
  }

  /** The queue's content while the parents of one CRE, at distance level, are being looked at. */
  ghost predicate Frontier(parents: Hierarchy, target: CreId, dist: map<CreId, nat>, order: seq<CreId>, level: nat) {
    && target in dist && dist[target] == 0
    && dist.Keys <= AllIds(parents, target)
    && QueuedInOrder(dist, order)
    && order != [] && dist[order[|order| - 1]] <= level + 1
    && forall x | x in dist :: HasChain(parents, target, x, dist[x])
  }

  lemma ParentIsKnown(parents: Hierarchy, target: CreId, n: CreId, p: CreId)
    requires p in Neighbours(parents, n)
    ensures p in AllIds(parents, target)
  {
  }

  lemma DiscoverKeepsFrontier(parents: Hierarchy, target: CreId, dist: map<CreId, nat>, order: seq<CreId>, n: CreId,
                              p: CreId)
    requires n in dist && Frontier(parents, target, dist, order, dist[n])
    requires p in Neighbours(parents, n) && p !in dist
    ensures Frontier(parents, target, dist[p := dist[n] + 1], order + [p], dist[n])
  {
    hide HasChain, QueuedInOrder, AllIds;
    var after := dist[p := dist[n] + 1];
    Discover(dist, order, p, dist[n] + 1);
    DiscoverChain(parents, target, n, dist[n], p);
    ParentIsKnown(parents, target, n, p);
    assert after.Keys == dist.Keys + {p};
    assert forall x | x in dist :: after[x] == dist[x];
  }

  lemma KnownParentIsNear(parents: Hierarchy, target: CreId, dist: map<CreId, nat>, order: seq<CreId>, level: nat,
                          p: CreId)
    requires Frontier(parents, target, dist, order, level) && p in dist
    ensures dist[p] <= level + 1
  {
    assert p in Elements(order);
    var i :| 0 <= i < |order| && order[i] == p;
    assert order[|order| - 1] in Elements(order);
  }

  /** The loop over the parents of n, taken from the front of the queue. */
  method ExpandParents(parents: Hierarchy, target: CreId, n: CreId, dist0: map<CreId, nat>, q0: seq<CreId>,
                       ghost order0: seq<CreId>)
    returns (dist: map<CreId, nat>, q: seq<CreId>, ghost order: seq<CreId>)
    requires n in dist0 && Frontier(parents, target, dist0, order0, dist0[n])
    ensures n in dist && dist[n] == dist0[n] && Frontier(parents, target, dist, order, dist[n])
    ensures Expanded(parents, dist, n)
    ensures forall x | x in dist0 :: x in dist && dist[x] == dist0[x]
    ensures order0 <= order && q == q0 + order[|order0|..]
  {
    hide *;
    dist, q, order := dist0, q0, order0;
    var ps := Neighbours(parents, n);
    for i := 0 to |ps|
      invariant n in dist && dist[n] == dist0[n] && Frontier(parents, target, dist, order, dist[n])
      invariant forall j | 0 <= j < i :: ps[j] in dist && dist[ps[j]] <= dist[n] + 1
      invariant forall x | x in dist0 :: x in dist && dist[x] == dist0[x]
      invariant order0 <= order && q == q0 + order[|order0|..]
    {
      var p := ps[i];
      var nd := dist[n] + 1;
      if p in dist {
        KnownParentIsNear(parents, target, dist, order, dist[n], p);
      }
      if p !in dist || nd < dist[p] {
        DiscoverKeepsFrontier(parents, target, dist, order, n, p);
        dist := dist[p := nd];
        order := order + [p];
        q := q + [p];
      }
    }
    AllParentsSeen(parents, dist, n);
  }

  lemma AllParentsSeen(parents: Hierarchy, dist: map<CreId, nat>, n: CreId)
    requires n in dist
    requires forall j | 0 <= j < |Neighbours(parents, n)| ::
               Neighbours(parents, n)[j] in dist && dist[Neighbours(parents, n)[j]] <= dist[n] + 1
    ensures Expanded(parents, dist, n)
  {
  }

  /** One round of the queue: all that was dequeued is expanded, the rest of the queue is the order's tail. */
  ghost predicate BfsInv(parents: Hierarchy, target: CreId, dist: map<CreId, nat>, order: seq<CreId>, head: nat) {
    && Elements(order) == dist.Keys
    && head <= |order|
    && (forall i | 0 <= i < head :: Expanded(parents, dist, order[i]))
    && order != []
    && Frontier(parents, target, dist, order, dist[order[if head < |order| then head else |order| - 1]])
  }

  lemma StartBfs(parents: Hierarchy, target: CreId)
    ensures BfsInv(parents, target, map[target := 0], [target], 0)
  {
    assert ChainBetween(parents, [target], target, target);
  }

  lemma RoundKeepsBfsInv(parents: Hierarchy, target: CreId, dist: map<CreId, nat>, order: seq<CreId>, head: nat,
                         after: map<CreId, nat>, longer: seq<CreId>)
    requires BfsInv(parents, target, dist, order, head) && head < |order| && order <= longer
    requires order[head] in after && Frontier(parents, target, after, longer, after[order[head]])
    requires Expanded(parents, after, order[head])
    requires forall x | x in dist :: x in after && after[x] == dist[x]
    ensures BfsInv(parents, target, after, longer, head + 1)
  {
    hide HasChain, QueuedInOrder, AllIds;
    forall i | 0 <= i < head + 1 ensures Expanded(parents, after, longer[i]) {
      assert longer[i] == order[i];
      if i < head {
        assert Expanded(parents, dist, order[i]);
      }
    }
    var next := if head + 1 < |longer| then head + 1 else |longer| - 1;
    assert longer[head] == order[head];
    InOrder(after, longer, head, next);
    InOrder(after, longer, next, |longer| - 1);
  }

  lemma InOrder(dist: map<CreId, nat>, order: seq<CreId>, i: nat, j: nat)
    requires QueuedInOrder(dist, order) && i <= j < |order|
    ensures Elements(order) == dist.Keys
    ensures order[i] in dist && order[j] in dist && dist[order[i]] <= dist[order[j]]
  {
    assert order[i] in Elements(order) && order[j] in Elements(order);
  }

  /**
   Breadth-first search upwards from the target. The last clause is the reason why the test for a
   shorter distance never fires: every ancestor enters the queue once, nearest first.
   */
  method BfsDistToTarget(parents: Hierarchy, target: CreId) returns (dist: map<CreId, nat>, ghost order: seq<CreId>)
    ensures IsDistance(parents, target, dist)
    ensures dist.Keys <= AllIds(parents, target)
    ensures QueuedInOrder(dist, order)
  {
    hide *;
    dist := map[target := 0];
    var q := [target];
    order := [target];
    ghost var head := 0;
    StartBfs(parents, target);
    while |q| > 0
      invariant BfsInv(parents, target, dist, order, head)
      invariant head <= |order| && q == order[head..]
      decreases |AllIds(parents, target)| - head
    {
      QueueIsBounded(parents, target, dist, order, head);
      var n := q[0];
      ghost var before, queued := dist, order;
      dist, q, order := ExpandParents(parents, target, n, dist, q[1..], order);
      RoundKeepsBfsInv(parents, target, before, queued, head, dist, order);
      head := head + 1;
    }
    FinishedBfsIsDistance(parents, target, dist, order);
  }

  lemma FinishedBfsIsDistance(parents: Hierarchy, target: CreId, dist: map<CreId, nat>, order: seq<CreId>)
    requires BfsInv(parents, target, dist, order, |order|)
    ensures IsDistance(parents, target, dist)
    ensures dist.Keys <= AllIds(parents, target)
    ensures QueuedInOrder(dist, order)
  {
    forall d | d in dist ensures Expanded(parents, dist, d) {
      assert d in Elements(order);
    }
    hide QueuedInOrder;
    forall c | IsChain(parents, c) && c[|c| - 1] == target
      ensures c[0] in dist && dist[c[0]] < |c|
    {
      hide IsChain, Expanded;
      ChainsAreCovered(parents, target, dist, c);
    }
  }

  lemma QueueIsBounded(parents: Hierarchy, target: CreId, dist: map<CreId, nat>, order: seq<CreId>, head: nat)
    requires BfsInv(parents, target, dist, order, head) && head < |order|
    ensures order[head] in dist && Frontier(parents, target, dist, order, dist[order[head]])
    ensures |order| <= |AllIds(parents, target)|
  {
    DistinctCount(order);
    SubsetCount(Elements(order), AllIds(parents, target));
  }

  lemma ExtendChain(parents: Hierarchy, p: CreId, c: seq<CreId>)
    requires IsChain(parents, c) && p in Neighbours(parents, c[0])
    ensures IsChain(parents, [p] + c) && ([p] + c)[|c|] == c[|c| - 1]
  {
    var e := [p] + c;
    forall i | 0 <= i < |e| - 1 ensures e[i] in Neighbours(parents, e[i + 1]) {
      if i > 0 {
        assert e[i] == c[i - 1] && e[i + 1] == c[i];
      }
    }
  }

  lemma {:induction false} ChainsAreCovered(parents: Hierarchy, target: CreId, dist: map<CreId, nat>, c: seq<CreId>)
    requires target in dist && dist[target] == 0
    requires forall d | d in dist :: Expanded(parents, dist, d)
    requires IsChain(parents, c) && c[|c| - 1] == target
    ensures c[0] in dist && dist[c[0]] < |c|
  {
    if |c| > 1 {
      ChainsAreCovered(parents, target, dist, c[1..]);
      assert c[0] in Neighbours(parents, c[1]);
    }
  }

  // ---------------------------------------------------------------- shortest paths

  function Level(dist: map<CreId, nat>, n: CreId): nat {
    if n in dist then dist[n] else UNKNOWN_DISTANCE
  }

  /** A walk along children that ends at its first visit of the target and comes one level nearer at each step. */
  ghost predicate Descent(children: Hierarchy, dist: map<CreId, nat>, target: CreId, p: seq<CreId>) {
    && p != [] && p[|p| - 1] == target
    && forall i | 0 <= i < |p| - 1 :: p[i] != target && OneDown(children, dist, p[i], p[i + 1])
  }

  ghost predicate OneDown(children: Hierarchy, dist: map<CreId, nat>, n: CreId, c: CreId) {
    c in Neighbours(children, n) && Level(dist, c) == Level(dist, n) - 1
  }

  /** The state that the recursive search shares: the nodes above the current one, and the paths found so far. */
  class PathSearch {
    const children: Hierarchy
    const dist: map<CreId, nat>
    const target: CreId
    var acc: seq<CreId>
    var paths: seq<seq<CreId>>

    constructor (children: Hierarchy, dist: map<CreId, nat>, target: CreId)
      ensures this.children == children && this.dist == dist && this.target == target
      ensures acc == [] && paths == []
    {
      this.children, this.dist, this.target := children, dist, target;
      acc, paths := [], [];
    }

    method DownTowardTarget(n: CreId) returns (out: seq<CreId>)
      ensures forall c :: c in out <==> OneDown(children, dist, n, c)
    {
      out := [];
      var cs := Neighbours(children, n);
      for i := 0 to |cs|
        invariant forall c :: c in out <==> c in cs[..i] && Level(dist, c) == Level(dist, n) - 1
      {
        assert cs[..i + 1] == cs[..i] + [cs[i]];
        if Level(dist, cs[i]) == Level(dist, n) - 1 {
          out := out + [cs[i]];
        }
      }
      assert cs[..|cs|] == cs;
    }

    ghost predicate Extends(prefix: seq<CreId>, node: CreId, p: seq<CreId>) {
      |prefix| < |p| && prefix == p[..|prefix|] && p[|prefix|] == node && Descent(children, dist, target, p[|prefix|..])
    }

    /** Adds exactly the descents from node to the target, each behind the nodes of acc. */
    method Dfs(node: CreId)
      modifies this`acc, this`paths
      decreases Level(dist, node)
      ensures acc == old(acc)
      ensures forall p :: p in paths <==> p in old(paths) || Extends(old(acc), node, p)
    {
      hide *;
      ghost var acc0, paths0 := acc, paths;
      acc := acc + [node];
      if node == target {
        ExtendsAtTarget(acc0, node);
        paths := paths + [acc];
      } else {
        var cs := DownTowardTarget(node);
        for i := 0 to |cs|
          invariant acc == acc0 + [node]
          invariant forall p :: p in paths <==> p in paths0 || exists j :: 0 <= j < i && Extends(acc0 + [node], cs[j], p)
        {
          LevelDrops(node, cs[i]);
          Dfs(cs[i]);
        }
        ExtendsInside(acc0, node, cs);
      }
      acc := acc[..|acc| - 1];
    }

    lemma LevelDrops(n: CreId, c: CreId)
      requires OneDown(children, dist, n, c)
      ensures Level(dist, c) < Level(dist, n)
    {
    }

    lemma ExtendsAtTarget(prefix: seq<CreId>, node: CreId)
      requires node == target
      ensures forall p :: Extends(prefix, node, p) <==> p == prefix + [node]
    {
      assert (prefix + [node])[|prefix|..] == [node];
      forall p ensures Extends(prefix, node, p) <==> p == prefix + [node] {
        if Extends(prefix, node, p) {
          var d := p[|prefix|..];
          assert |d| == 1;
          assert p == prefix + d;
        }
      }
    }

    lemma ExtendsInside(prefix: seq<CreId>, node: CreId, cs: seq<CreId>)
      requires node != target && forall c :: c in cs <==> OneDown(children, dist, node, c)
      ensures forall p :: Extends(prefix, node, p) <==> exists j :: 0 <= j < |cs| && Extends(prefix + [node], cs[j], p)
    {
      forall p ensures Extends(prefix, node, p) <==> exists j :: 0 <= j < |cs| && Extends(prefix + [node], cs[j], p) {
        if Extends(prefix, node, p) {
          ExtendsDown(prefix, node, p);
          var c := p[|prefix| + 1];
          var j :| 0 <= j < |cs| && cs[j] == c;
        }
        forall j | 0 <= j < |cs| && Extends(prefix + [node], cs[j], p) ensures Extends(prefix, node, p) {
          assert cs[j] in cs;
          ExtendsUp(prefix, node, cs[j], p);
        }
      }
    }

    lemma ExtendsDown(prefix: seq<CreId>, node: CreId, p: seq<CreId>)
      requires Extends(prefix, node, p) && node != target
      ensures |p| > |prefix| + 1 && OneDown(children, dist, node, p[|prefix| + 1])
      ensures Extends(prefix + [node], p[|prefix| + 1], p)
    {
      var d := p[|prefix|..];
      assert d[0] == node && d[|d| - 1] == target;
      assert OneDown(children, dist, d[0], d[1]);
      assert p[|prefix + [node]|..] == d[1..];
      assert p[..|prefix| + 1] == p[..|prefix|] + [p[|prefix|]];
    }

    lemma ExtendsUp(prefix: seq<CreId>, node: CreId, c: CreId, p: seq<CreId>)
      requires OneDown(children, dist, node, c) && node != target
      requires Extends(prefix + [node], c, p)
      ensures Extends(prefix, node, p)
    {
      var d, e := p[|prefix|..], p[|prefix| + 1..];
      assert p[..|prefix|] == p[..|prefix| + 1][..|prefix|];
      assert p[|prefix|] == p[..|prefix| + 1][|prefix|];
      assert d == [node] + e;
      forall i | 0 <= i < |d| - 1 ensures d[i] != target && OneDown(children, dist, d[i], d[i + 1]) {
        if i > 0 {
          assert d[i] == e[i - 1] && d[i + 1] == e[i];
        }
      }
    }
  }

  /** The CREs of the closure that no CRE contains. */
  function Roots(parents: Hierarchy, allIds: set<CreId>): set<CreId> {
    set cid | cid in allIds && Neighbours(parents, cid) == []
  }

  ghost predicate RootChain(parents: Hierarchy, roots: set<CreId>, target: CreId, p: seq<CreId>) {
    IsChain(parents, p) && p[0] in roots && p[|p| - 1] == target
  }

  /** No chain from any root to the target is shorter. */
  ghost predicate ShortestRootChain(parents: Hierarchy, roots: set<CreId>, target: CreId, p: seq<CreId>) {
    && RootChain(parents, roots, target, p)
    && forall q | RootChain(parents, roots, target, q) :: |p| <= |q|
  }

  /** The maps agree on the closure: children inverts parents there, and parents never leaves it. */
  ghost predicate Inverse(parents: Hierarchy, children: Hierarchy, target: CreId) {
    && target in parents && children.Keys == parents.Keys
    && (forall c, p | c in parents && p in parents[c] :: p in parents)
    && (forall c, p | c in parents && p in parents :: c in children[p] <==> p in parents[c])
  }

  lemma SingletonIsDistinct<T>(x: T)
    ensures Distinct([x])
  {
  }

  lemma ReachableRoots(parents: Hierarchy, roots: set<CreId>, target: CreId, dist: map<CreId, nat>)
    requires IsDistance(parents, target, dist)
    ensures (set r | r in roots && r in dist) == {} <==> forall p :: !RootChain(parents, roots, target, p)
  {
    var reachable := set r | r in roots && r in dist;
    forall r | r in reachable ensures exists p :: RootChain(parents, roots, target, p) {
      var c :| ChainBetween(parents, c, r, target) && |c| == dist[r] + 1;
      assert RootChain(parents, roots, target, c);
    }
    forall p | RootChain(parents, roots, target, p) ensures p[0] in reachable {
    }
  }

  lemma {:induction false} ChainStaysInside(parents: Hierarchy, children: Hierarchy, target: CreId, c: seq<CreId>)
    requires Inverse(parents, children, target) && IsChain(parents, c) && c[|c| - 1] == target
    ensures c[0] in parents
  {
    if |c| > 1 {
      assert c[0] in Neighbours(parents, c[1]);
    }
  }

  lemma {:induction false} DescentIsChain(parents: Hierarchy, children: Hierarchy, target: CreId,
                                          dist: map<CreId, nat>, p: seq<CreId>)
    requires Inverse(parents, children, target) && IsDistance(parents, target, dist)
    requires Descent(children, dist, target, p)
    ensures IsChain(parents, p) && p[0] in dist && |p| == dist[p[0]] + 1
  {
    hide *;
    if |p| == 1 {
      DescentOfOne(parents, children, target, dist, p);
    } else {
      DescentBelow(children, dist, target, p);
      var below := p[1..];
      DescentIsChain(parents, children, target, dist, below);
      StepOfDescent(parents, children, target, dist, p[0], below);
      assert p == [p[0]] + below;
    }
  }

  lemma DescentOfOne(parents: Hierarchy, children: Hierarchy, target: CreId, dist: map<CreId, nat>, p: seq<CreId>)
    requires IsDistance(parents, target, dist) && Descent(children, dist, target, p) && |p| == 1
    ensures IsChain(parents, p) && p[0] in dist && |p| == dist[p[0]] + 1
  {
    assert IsChain(parents, p);
  }

  lemma DescentBelow(children: Hierarchy, dist: map<CreId, nat>, target: CreId, p: seq<CreId>)
    requires Descent(children, dist, target, p) && |p| != 1
    ensures |p| > 1 && p[1..][|p| - 2] == target && Descent(children, dist, target, p[1..]) && OneDown(children, dist, p[0], p[1])
  {
    hide OneDown;
    var below := p[1..];
    assert forall i | 0 <= i < |below| :: below[i] == p[i + 1];
  }

  lemma StepOfDescent(parents: Hierarchy, children: Hierarchy, target: CreId, dist: map<CreId, nat>,
                      n: CreId, below: seq<CreId>)
    requires Inverse(parents, children, target) && IsDistance(parents, target, dist)
    requires IsChain(parents, below) && below[|below| - 1] == target && below[0] in dist
    requires OneDown(children, dist, n, below[0])
    ensures IsChain(parents, [n] + below) && n in dist && dist[n] == dist[below[0]] + 1
  {
    ChainStaysInside(parents, children, target, below);
    hide IsDistance, IsChain;
    ExtendChain(parents, n, below);
    ChainBoundsDistance(parents, target, dist, [n] + below);
  }

  /** The first step of a chain of shortest length goes exactly one level down. */
  lemma GeodesicStep(parents: Hierarchy, children: Hierarchy, target: CreId, dist: map<CreId, nat>, p: seq<CreId>)
    requires Inverse(parents, children, target) && IsDistance(parents, target, dist)
    requires |p| > 1 && IsChain(parents, p) && p[|p| - 1] == target
    requires p[0] in dist && |p| == dist[p[0]] + 1
    ensures IsChain(parents, p[1..]) && p[1] in dist && dist[p[1]] == dist[p[0]] - 1
    ensures p[0] != target && OneDown(children, dist, p[0], p[1])
  {
    hide *;
    var below := p[1..];
    TailOfChain(parents, p);
    ChainBoundsDistance(parents, target, dist, below);
    ParentIsOneFurther(parents, target, dist, p[0], p[1]);
    LoneTarget(parents, target);
    ChainBoundsDistance(parents, target, dist, [target]);
    ChainStaysInside(parents, children, target, below);
    ChainStaysInside(parents, children, target, p);
    OneLevelDown(parents, children, target, dist, p[0], p[1]);
  }

  lemma TailOfChain(parents: Hierarchy, p: seq<CreId>)
    requires |p| > 1 && IsChain(parents, p)
    ensures IsChain(parents, p[1..]) && p[1..][0] == p[1] && p[1..][|p| - 2] == p[|p| - 1]
    ensures p[0] in Neighbours(parents, p[1])
  {
    hide Neighbours;
    var below := p[1..];
    assert forall i | 0 <= i < |below| :: below[i] == p[i + 1];
  }

  lemma LoneTarget(parents: Hierarchy, target: CreId)
    ensures IsChain(parents, [target])
  {
  }

  lemma ChainBoundsDistance(parents: Hierarchy, target: CreId, dist: map<CreId, nat>, c: seq<CreId>)
    requires IsDistance(parents, target, dist) && IsChain(parents, c) && c[|c| - 1] == target
    ensures c[0] in dist && dist[c[0]] < |c|
  {
    hide IsChain;
  }

  lemma ParentIsOneFurther(parents: Hierarchy, target: CreId, dist: map<CreId, nat>, p: CreId, n: CreId)
    requires IsDistance(parents, target, dist) && n in dist && p in Neighbours(parents, n)
    ensures p in dist && dist[p] <= dist[n] + 1
  {
    hide IsChain;
    var best :| ChainBetween(parents, best, n, target) && |best| == dist[n] + 1;
    ExtendChain(parents, p, best);
    ChainBoundsDistance(parents, target, dist, [p] + best);
  }

  lemma OneLevelDown(parents: Hierarchy, children: Hierarchy, target: CreId, dist: map<CreId, nat>, p: CreId, n: CreId)
    requires Inverse(parents, children, target) && p in parents && n in parents && p in Neighbours(parents, n)
    requires p in dist && n in dist && dist[p] == dist[n] + 1
    ensures OneDown(children, dist, p, n)
  {
  }

  lemma DescentFromAbove(children: Hierarchy, dist: map<CreId, nat>, target: CreId, p: seq<CreId>)
    requires |p| > 1 && Descent(children, dist, target, p[1..])
    requires p[0] != target && OneDown(children, dist, p[0], p[1])
    ensures Descent(children, dist, target, p)
  {
    hide OneDown;
    var below := p[1..];
    forall i | 0 <= i < |p| - 1 ensures p[i] != target && OneDown(children, dist, p[i], p[i + 1]) {
      if i > 0 {
        assert p[i] == below[i - 1] && p[i + 1] == below[i];
      }
    }
  }

  lemma {:induction false} GeodesicIsDescent(parents: Hierarchy, children: Hierarchy, target: CreId,
                                             dist: map<CreId, nat>, p: seq<CreId>)
    requires Inverse(parents, children, target) && IsDistance(parents, target, dist)
    requires IsChain(parents, p) && p[|p| - 1] == target
    requires p[0] in dist && |p| == dist[p[0]] + 1
    ensures Descent(children, dist, target, p)
  {
    if |p| > 1 {
      hide Inverse, IsDistance, Descent, OneDown;
      GeodesicStep(parents, children, target, dist, p);
      GeodesicIsDescent(parents, children, target, dist, p[1..]);
      DescentFromAbove(children, dist, target, p);
    }
  }

  ghost predicate NearestRoot(dist: map<CreId, nat>, roots: set<CreId>, lMin: nat) {
    && (exists r :: r in roots && r in dist && dist[r] == lMin)
    && (forall r | r in roots && r in dist :: lMin <= dist[r])
  }

  lemma ShortestLength(parents: Hierarchy, roots: set<CreId>, target: CreId, dist: map<CreId, nat>, lMin: nat,
                       p: seq<CreId>)
    requires IsDistance(parents, target, dist) && NearestRoot(dist, roots, lMin)
    requires RootChain(parents, roots, target, p)
    ensures |p| > lMin
    ensures ShortestRootChain(parents, roots, target, p) <==> |p| == lMin + 1
  {
    var r :| r in roots && r in dist && dist[r] == lMin;
    var c :| ChainBetween(parents, c, r, target) && |c| == dist[r] + 1;
    assert RootChain(parents, roots, target, c);
    hide IsChain;
    forall q | RootChain(parents, roots, target, q) ensures lMin < |q| {
      assert q[0] in dist;
    }
  }

  lemma DescentsAreShortest(parents: Hierarchy, children: Hierarchy, roots: set<CreId>, target: CreId,
                            dist: map<CreId, nat>, lMin: nat, p: seq<CreId>)
    requires Inverse(parents, children, target) && IsDistance(parents, target, dist)
    requires NearestRoot(dist, roots, lMin)
    ensures ShortestRootChain(parents, roots, target, p) <==>
      p != [] && p[0] in roots && p[0] in dist && dist[p[0]] == lMin && Descent(children, dist, target, p)
  {
    if ShortestRootChain(parents, roots, target, p) {
      ShortestLength(parents, roots, target, dist, lMin, p);
      GeodesicIsDescent(parents, children, target, dist, p);
    }
    if p != [] && p[0] in roots && p[0] in dist && dist[p[0]] == lMin && Descent(children, dist, target, p) {
      DescentIsChain(parents, children, target, dist, p);
      ShortestLength(parents, roots, target, dist, lMin, p);
    }
  }

  lemma DescentFromStart(search: PathSearch, startRoots: set<CreId>, p: seq<CreId>)
    ensures (exists r :: r in startRoots && search.Extends([], r, p)) <==>
      p != [] && p[0] in startRoots && Descent(search.children, search.dist, search.target, p)
  {
    assert p[0..] == p;
    if p != [] && p[0] in startRoots && Descent(search.children, search.dist, search.target, p) {
      assert search.Extends([], p[0], p);
    }
  }

  method NearestRootDistance(dist: map<CreId, nat>, reachable: set<CreId>) returns (lMin: nat)
    requires reachable != {} && reachable <= dist.Keys
    ensures NearestRoot(dist, reachable, lMin)
  {
    var r :| r in reachable;
    lMin := dist[r];
    var rest := reachable - {r};
    while rest != {}
      invariant rest <= reachable
      invariant exists r :: r in reachable && dist[r] == lMin
      invariant forall r | r in reachable && r !in rest :: lMin <= dist[r]
      decreases rest
    {
      r :| r in rest;
      rest := rest - {r};
      if dist[r] < lMin {
        lMin := dist[r];
      }
    }
  }

  /**
   Whatever the children map holds, the search ends. When it inverts the parents map, the result is
   exactly the set of shortest chains from a root to the target, each once; without a root above the
   target it is the target alone.
   */
  method ShortestPathsToTarget(parents: Hierarchy, children: Hierarchy, roots: set<CreId>, target: CreId)
    returns (result: seq<seq<CreId>>)
    ensures Distinct(result)
    ensures (forall p :: !RootChain(parents, roots, target, p)) ==> result == [[target]]
    ensures (exists p :: RootChain(parents, roots, target, p)) && Inverse(parents, children, target) ==>
      forall p :: p in result <==> ShortestRootChain(parents, roots, target, p)
  {
    hide *;
    var dist, order := BfsDistToTarget(parents, target);
    var reachable := set r | r in roots && r in dist;
    ReachableRoots(parents, roots, target, dist);
    if reachable == {} {
      SingletonIsDistinct([target]);
      return [[target]];
    }
    var lMin := NearestRootDistance(dist, reachable);
    var startRoots := set r | r in reachable && dist[r] == lMin;
    var search := new PathSearch(children, dist, target);
    var rest := startRoots;
    while rest != {}
      invariant search.children == children && search.dist == dist && search.target == target
      invariant search.acc == [] && rest <= startRoots
      invariant forall p :: p in search.paths <==> exists r :: r in startRoots - rest && search.Extends([], r, p)
      decreases rest
    {
      var r :| r in rest;
      search.Dfs(r);
      rest := rest - {r};
    }
    result := DedupeKeepOrder(search.paths);
    DedupeKeepsElements(search.paths);
    forall p ensures p in result <==> exists r :: r in startRoots && search.Extends([], r, p) {
      assert p in result <==> p in search.paths;
    }
    if Inverse(parents, children, target) {
      forall p ensures p in result <==> ShortestRootChain(parents, roots, target, p) {
        DescentsAreShortest(parents, children, roots, target, dist, lMin, p);
        DescentFromStart(search, startRoots, p);
      }
    }
  }

  // ---------------------------------------------------------------- the exported rows

  /** What hydrated documents guarantee: a CRE lists another as contained iff that one lists it as its container. */
  ghost predicate DualApi(api: map<CreId, Payload>) {
    forall a, b | a in api && b in api :: b in ChildSet(api[a]) <==> a in ParentSet(api[b])
  }

  /** Each document names the one before it as a container. */
  ghost predicate ApiChain(api: map<CreId, Payload>, p: seq<CreId>) {
    && p != [] && (forall i | 0 <= i < |p| :: p[i] in api)
    && forall i | 0 <= i < |p| - 1 :: p[i] in ParentSet(api[p[i + 1]])
  }

  /** A chain of containers read off the fetched documents, from a CRE without a container down to the target. */
  ghost predicate ApiRootChain(api: map<CreId, Payload>, target: CreId, p: seq<CreId>) {
    ApiChain(api, p) && p[|p| - 1] == target && ParentSet(api[p[0]]) == {}
  }

  ghost predicate ExportedPath(api: map<CreId, Payload>, target: CreId, p: seq<CreId>) {
    if forall q :: !ApiRootChain(api, target, q) then p == [target]
    else ApiRootChain(api, target, p) && forall q | ApiRootChain(api, target, q) :: |p| <= |q|
  }

  /** The parents and children lists of every CRE in the closure. */
  method BuildMaps(cache: map<CreId, Payload>) returns (parents: Hierarchy, children: Hierarchy, roots: set<CreId>)
    ensures parents.Keys == children.Keys == cache.Keys
    ensures forall c | c in cache :: Elements(parents[c]) == ParentSet(cache[c]) && Elements(children[c]) == ChildSet(cache[c])
    ensures forall c :: c in roots <==> c in cache && ParentSet(cache[c]) == {}
  {
    parents, children := map[], map[];
    var rest := cache.Keys;
    while rest != {}
      invariant rest <= cache.Keys && parents.Keys == children.Keys == cache.Keys - rest
      invariant forall c | c in parents ::
        Elements(parents[c]) == ParentSet(cache[c]) && Elements(children[c]) == ChildSet(cache[c])
      decreases rest
    {
      hide *;
      var c :| c in rest;
      var ps := ParentCreIds(cache[c]);
      var cs := ChildCreIds(cache[c]);
      parents, children := parents[c := ps], children[c := cs];
      rest := rest - {c};
    }
    roots := Roots(parents, cache.Keys);
    forall c | c in cache ensures c in roots <==> ParentSet(cache[c]) == {} {
      if parents[c] != [] {
        assert parents[c][0] in Elements(parents[c]);
      }
    }
  }

  lemma ClosureMapsAreInverse(api: map<CreId, Payload>, seeds: set<CreId>, cache: map<CreId, Payload>,
                              parents: Hierarchy, children: Hierarchy, target: CreId)
    requires DualApi(api) && ClosedAround(api, seeds, cache.Keys) && target in seeds
    requires forall c | c in cache :: cache[c] == api[c]
    requires parents.Keys == children.Keys == cache.Keys
    requires forall c | c in cache :: Elements(parents[c]) == ParentSet(cache[c]) && Elements(children[c]) == ChildSet(cache[c])
    ensures Inverse(parents, children, target)
  {
    hide ParentSet, ChildSet;
    forall c, p | c in parents && p in parents[c] ensures p in parents {
      assert p in Elements(parents[c]);
    }
    forall c, p | c in parents && p in parents ensures c in children[p] <==> p in parents[c] {
      assert c in children[p] <==> c in Elements(children[p]);
      assert p in parents[c] <==> p in Elements(parents[c]);
    }
  }

  lemma ChainParts(parents: Hierarchy, p: seq<CreId>)
    requires |p| > 1
    ensures IsChain(parents, p) <==> IsChain(parents, p[1..]) && p[0] in Neighbours(parents, p[1])
  {
    hide *;
    if IsChain(parents, p) {
      TailOfChain(parents, p);
    }
    if IsChain(parents, p[1..]) && p[0] in Neighbours(parents, p[1]) {
      LongerChain(parents, p);
    }
  }

  lemma LongerChain(parents: Hierarchy, p: seq<CreId>)
    requires |p| > 1 && IsChain(parents, p[1..]) && p[0] in Neighbours(parents, p[1])
    ensures IsChain(parents, p)
  {
    hide Neighbours;
    ExtendChain(parents, p[0], p[1..]);
    assert [p[0]] + p[1..] == p;
  }

  lemma ApiChainParts(api: map<CreId, Payload>, p: seq<CreId>)
    requires |p| > 1
    ensures ApiChain(api, p) <==>
      p[0] in api && p[1] in api && ApiChain(api, p[1..]) && p[0] in ParentSet(api[p[1]])
  {
    hide ParentSet;
    var below := p[1..];
    assert forall i | 0 <= i < |below| :: below[i] == p[i + 1];
    if p[0] in api && p[1] in api && ApiChain(api, below) && p[0] in ParentSet(api[p[1]]) {
      forall i | 0 <= i < |p|
        ensures p[i] in api && (i < |p| - 1 ==> p[i + 1] in api && p[i] in ParentSet(api[p[i + 1]]))
      {
        if i > 0 { assert p[i] == below[i - 1]; }
      }
    }
  }

  lemma {:induction false} ChainsAgree(api: map<CreId, Payload>, seeds: set<CreId>, cache: map<CreId, Payload>,
                                       parents: Hierarchy, p: seq<CreId>)
    requires ClosedAround(api, seeds, cache.Keys)
    requires forall c | c in cache :: cache[c] == api[c]
    requires parents.Keys == cache.Keys && forall c | c in cache :: Elements(parents[c]) == ParentSet(cache[c])
    requires p != [] && p[|p| - 1] in seeds
    ensures IsChain(parents, p) <==> ApiChain(api, p)
    ensures IsChain(parents, p) ==> p[0] in cache
  {
    hide ParentSet;
    if |p| > 1 {
      ChainsAgree(api, seeds, cache, parents, p[1..]);
      ChainParts(parents, p);
      ApiChainParts(api, p);
      hide IsChain, ApiChain;
      if p[1] in cache {
        assert p[0] in Elements(parents[p[1]]) <==> p[0] in ParentSet(api[p[1]]);
      }
    }
  }

  lemma RootChainsAgree(api: map<CreId, Payload>, seeds: set<CreId>, cache: map<CreId, Payload>,
                        parents: Hierarchy, roots: set<CreId>, target: CreId)
    requires ClosedAround(api, seeds, cache.Keys) && target in seeds
    requires forall c | c in cache :: cache[c] == api[c]
    requires parents.Keys == cache.Keys && forall c | c in cache :: Elements(parents[c]) == ParentSet(cache[c])
    requires forall c :: c in roots <==> c in cache && ParentSet(cache[c]) == {}
    ensures forall p :: RootChain(parents, roots, target, p) <==> ApiRootChain(api, target, p)
  {
    forall p ensures RootChain(parents, roots, target, p) <==> ApiRootChain(api, target, p) {
      if p != [] && p[|p| - 1] == target {
        ChainsAgree(api, seeds, cache, parents, p);
      }
    }
  }

  /**
   From the selected CREs to the rows' paths. For documents whose links are dual, the paths of each
   selected CRE are exactly its shortest chains of containers from a CRE without a container.
   */
  method ExportPaths(api: map<CreId, Payload>, targetIds: seq<CreId>)
    returns (r: Result<seq<(CreId, seq<CreId>)>, CreId>)
    ensures r.Failure? <==> forall s :: !ClosedAround(api, Elements(targetIds), s)
    ensures r.Success? && DualApi(api) ==>
      forall t, p :: (t, p) in r.value <==> t in targetIds && ExportedPath(api, t, p)
  {
    hide *;
    var closure, _ := BuildAncestorClosure(api, targetIds);
    if closure.Failure? {
      return Failure(closure.error);
    }
    var cache := closure.value;
    var parents, children, roots := BuildMaps(cache);
    var rows := [];
    for i := 0 to |targetIds|
      invariant DualApi(api) ==>
        forall t, p :: (t, p) in rows <==> t in targetIds[..i] && ExportedPath(api, t, p)
    {
      var t := targetIds[i];
      TargetIsSeed(targetIds, i);
      RootChainsAgree(api, Elements(targetIds), cache, parents, roots, t);
      var paths := ShortestPathsToTarget(parents, children, roots, t);
      if DualApi(api) {
        ClosureMapsAreInverse(api, Elements(targetIds), cache, parents, children, t);
        PathsAreExported(api, parents, roots, t, paths);
      }
      ghost var before := rows;
      for j := 0 to |paths|
        invariant forall u, p :: (u, p) in rows <==> (u, p) in before || (u == t && p in paths[..j])
      {
        rows := rows + [(t, paths[j])];
      }
      assert paths[..|paths|] == paths;
    }
    assert targetIds[..|targetIds|] == targetIds;
    r := Success(rows);
  }

  lemma TargetIsSeed(targetIds: seq<CreId>, i: nat)
    requires i < |targetIds|
    ensures targetIds[i] in Elements(targetIds)
  {
  }

  lemma PathsAreExported(api: map<CreId, Payload>, parents: Hierarchy, roots: set<CreId>, t: CreId,
                         paths: seq<seq<CreId>>)
    requires forall p :: RootChain(parents, roots, t, p) <==> ApiRootChain(api, t, p)
    requires (forall p :: !RootChain(parents, roots, t, p)) ==> paths == [[t]]
    requires (exists p :: RootChain(parents, roots, t, p)) ==>
      forall p :: p in paths <==> ShortestRootChain(parents, roots, t, p)
    ensures forall p :: p in paths <==> ExportedPath(api, t, p)
  {
    hide RootChain, ApiRootChain;
  }
}
