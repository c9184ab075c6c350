/**
 The in-memory graph of CREs and resources: links between CREs are tried on a copy first and
 refused when they would close a cycle; the loader rebuilds the graph from hydrated documents.
 */
module InmemoryGraph {
  import opened Wrappers
  import opened Documents
  import opened Graphs

  /** The program's vertex name "<label>: <id>", where every linked resource has the label Node. */
  datatype Label = CreLabel | NodeLabel | StandardLabel | ToolLabel | CodeLabel

  datatype Vertex = Vertex(kind: Label, id: string)

  datatype DiGraph = DiGraph(nodes: set<Vertex>, edges: map<(Vertex, Vertex), LinkType>) {
    ghost predicate IsAcyclic() {
      Acyclic(edges.Keys)
    }
  }

  const EMPTY_GRAPH := DiGraph({}, map[])

  datatype GraphError = ExistingCycle | CycleDetected | SelfLink | UnknownLinkType

  function LabelOf(doctype: Doctype): Label {
    match doctype
    case CRE => CreLabel
    case Standard => StandardLabel
    case Tool => ToolLabel
    case Code => CodeLabel
  }

  function TailVertex(doc: Document): Vertex {
    Vertex(LabelOf(doc.doctype), doc.id)
  }

  function HeadVertex(doc: Document): Vertex {
    Vertex(if doc.doctype.CRE? then CreLabel else NodeLabel, doc.id)
  }

  predicate BothCres(docFrom: Document, link: Link) {
    docFrom.doctype.CRE? && link.document.doctype.CRE?
  }

  /** The edge a link stands for, and its type; nothing for a type the graph does not know. */
  function EdgeOf(docFrom: Document, link: Link): Option<((Vertex, Vertex), LinkType)> {
    var tail, head := TailVertex(docFrom), HeadVertex(link.document);
    if !docFrom.doctype.CRE? then Some(((tail, head), link.ltype))
    else
      match link.ltype
      case Contains => Some(((tail, head), Contains))
      case PartOf => Some(((head, tail), Contains))
      case Related => Some(((tail, head), Related))
      case LinkedTo => Some(((tail, head), LinkedTo))
      case AutomaticallyLinkedTo => Some(((tail, head), AutomaticallyLinkedTo))
      case _ => None
  }

  /** A Related link from a CRE is dropped when the graph already joins the two the other way round. */
  predicate IsMirrored(docFrom: Document, link: Link, g: DiGraph) {
    docFrom.doctype.CRE? && link.ltype.Related? && (HeadVertex(link.document), TailVertex(docFrom)) in g.edges
  }

  function Put(g: DiGraph, e: (Vertex, Vertex), ltype: LinkType): DiGraph {
    DiGraph(g.nodes + {e.0, e.1}, g.edges[e := ltype])
  }

  function AddGraphEdge(docFrom: Document, link: Link, g: DiGraph): Result<DiGraph, GraphError> {
    if docFrom.name == link.document.name then Failure(SelfLink)
    else if IsMirrored(docFrom, link, g) then Success(g)
    else
      match EdgeOf(docFrom, link)
      case None => Failure(UnknownLinkType)
      case Some((e, ltype)) => Success(Put(g, e, ltype))
  }

  /** The link would add an edge whose head already leads back to its tail. */
  ghost predicate ClosesCycle(docFrom: Document, link: Link, g: DiGraph) {
    && docFrom.name != link.document.name && !IsMirrored(docFrom, link, g)
    && match EdgeOf(docFrom, link)
       case None => false
       case Some((e, _)) => HasPath(g.edges.Keys, e.1, e.0)
  }

  lemma AddedEdgeAcyclic(docFrom: Document, link: Link, g: DiGraph)
    requires g.IsAcyclic() && AddGraphEdge(docFrom, link, g).Success?
    ensures AddGraphEdge(docFrom, link, g).value.IsAcyclic() <==> !ClosesCycle(docFrom, link, g)
  {
    if !IsMirrored(docFrom, link, g) {
      var e := EdgeOf(docFrom, link).value.0;
      NewEdgeClosesCycle(g.edges.Keys, e.0, e.1);
      assert AddGraphEdge(docFrom, link, g).value.edges.Keys == g.edges.Keys + {e};
    }
  }

  /**
   Only links between two CREs are tried on a copy. A resource that is given to a CRE as its container
   is accepted unseen, and puts a cycle into the graph exactly when the CRE already leads to it.
   */
  lemma ContainerResourceClosesCycle(cre: Document, resource: Document, g: DiGraph)
    requires g.IsAcyclic() && cre.doctype.CRE? && !resource.doctype.CRE? && cre.name != resource.name
    ensures AddGraphEdge(cre, Link(PartOf, resource), g).Success?
    ensures AddGraphEdge(cre, Link(PartOf, resource), g).value.IsAcyclic() <==>
      !HasPath(g.edges.Keys, TailVertex(cre), HeadVertex(resource))
  {
    hide Acyclic, HasPath;
    AddedEdgeAcyclic(cre, Link(PartOf, resource), g);
  }

  /** A resource vertex that no edge leaves can be linked from a CRE without harm. */
  lemma LinkToSinkIsSafe(docFrom: Document, link: Link, g: DiGraph)
    requires g.IsAcyclic() && docFrom.doctype.CRE? && !link.document.doctype.CRE? && !link.ltype.PartOf?
    requires forall e | e in g.edges :: !e.0.kind.NodeLabel?
    ensures !ClosesCycle(docFrom, link, g)
    ensures AddGraphEdge(docFrom, link, g).Success? ==>
      forall e | e in AddGraphEdge(docFrom, link, g).value.edges :: !e.0.kind.NodeLabel?
  {
    var u, v := TailVertex(docFrom), HeadVertex(link.document);
    forall w | IsWalk(g.edges.Keys, w) && w[0] == v ensures |w| == 1 {
      LongWalkLeaves(g.edges.Keys, w);
    }
  }

  lemma LongWalkLeaves(edges: set<(Vertex, Vertex)>, w: seq<Vertex>)
    requires IsWalk(edges, w)
    ensures |w| == 1 || exists e :: e in edges && e.0 == w[0]
  {
    if |w| > 1 {
      var e := (w[0], w[1]);
      assert e in edges && e.0 == w[0];
    }
  }

  // ---------------------------------------------------------------- edges between CREs

  ghost predicate KnownToGraph(ltype: LinkType) {
    ltype.Contains? || ltype.Related? || ltype.LinkedTo? || ltype.AutomaticallyLinkedTo?
  }

  ghost predicate JoinsCres(e: (Vertex, Vertex)) {
    e.0.kind.CreLabel? && e.1.kind.CreLabel?
  }

  ghost function TypedCreEdges(g: DiGraph): set<((Vertex, Vertex), LinkType)> {
    set e | e in g.edges && JoinsCres(e) :: (e, g.edges[e])
  }

  ghost predicate NoNodeTails(g: DiGraph) {
    forall e | e in g.edges :: !e.0.kind.NodeLabel?
  }

  /** Acyclic, and no edge leaves a resource. */
  ghost predicate Calm(g: DiGraph) {
    g.IsAcyclic() && NoNodeTails(g)
  }

  // ---------------------------------------------------------------- loading

  /** No resource is named as a container. */
  ghost predicate SafeLink(doc: Document, link: Link) {
    doc.doctype.CRE? && (link.ltype.PartOf? ==> link.document.doctype.CRE?)
  }

  ghost predicate GoodLink(doc: Document, link: Link) {
    SafeLink(doc, link) && doc.name != link.document.name && (link.ltype.PartOf? || KnownToGraph(link.ltype))
  }

  ghost predicate SafeDocument(doc: Document) {
    forall link | link in doc.links :: SafeLink(doc, link)
  }

  ghost predicate GoodDocument(doc: Document) {
    forall link | link in doc.links :: GoodLink(doc, link)
  }

  /** The graph with the link's edge, added without a look at cycles. */
  ghost function Attach(doc: Document, link: Link, g: DiGraph): DiGraph {
    match AddGraphEdge(doc, link, g)
    case Success(h) => h
    case Failure(_) => g
  }

  ghost function WithLinks(doc: Document, links: seq<Link>, g: DiGraph): DiGraph {
    if links == [] then g
    else Attach(doc, links[|links| - 1], WithLinks(doc, links[..|links| - 1], g))
  }

  ghost function WithDocuments(documents: seq<Document>, g: DiGraph): DiGraph {
    if documents == [] then g
    else
      var last := documents[|documents| - 1];
      WithLinks(last, last.links, WithDocuments(documents[..|documents| - 1], g))
  }

  /** The loaded graph beside the unchecked one: the same edges, or a cycle over there. */
  ghost predicate Follows(g: DiGraph, unchecked: DiGraph, swallowed: nat) {
    && Calm(g) && NoNodeTails(unchecked)
    && (swallowed == 0 ==> g.edges == unchecked.edges)
    && (swallowed > 0 ==> !unchecked.IsAcyclic())
  }

  lemma GoodLinkHasEdge(doc: Document, link: Link, g: DiGraph)
    requires GoodLink(doc, link)
    ensures AddGraphEdge(doc, link, g).Success?
    ensures g.edges.Keys <= Attach(doc, link, g).edges.Keys
    ensures NoNodeTails(g) ==> NoNodeTails(Attach(doc, link, g))
  {
  }

  lemma SafeLinkKeepsCalm(doc: Document, link: Link, g: DiGraph)
    requires SafeLink(doc, link) && Calm(g) && AddGraphEdge(doc, link, g).Success?
    requires BothCres(doc, link) ==> !ClosesCycle(doc, link, g)
    ensures Calm(AddGraphEdge(doc, link, g).value)
  {
    hide Acyclic, HasPath;
    AddedEdgeAcyclic(doc, link, g);
    if !BothCres(doc, link) {
      LinkToSinkIsSafe(doc, link, g);
    }
  }

  lemma OnlyEdgesCount(doc: Document, link: Link, g: DiGraph, h: DiGraph)
    requires g.edges == h.edges
    ensures Attach(doc, link, g).edges == Attach(doc, link, h).edges
    ensures ClosesCycle(doc, link, g) <==> ClosesCycle(doc, link, h)
    ensures Calm(g) <==> Calm(h)
  {
  }

  /** One link, accepted or refused because of a cycle. */
  lemma FollowLink(doc: Document, link: Link, g: DiGraph, unchecked: DiGraph, swallowed: nat, refused: bool, after: DiGraph)
    requires Follows(g, unchecked, swallowed) && GoodLink(doc, link)
    requires refused <==> BothCres(doc, link) && ClosesCycle(doc, link, g)
    requires after == if refused then g else Attach(doc, link, g)
    ensures Follows(after, Attach(doc, link, unchecked), swallowed + if refused then 1 else 0)
  {
    hide Acyclic, HasPath, ClosesCycle, AddGraphEdge, GoodLink;
    GoodLinkHasEdge(doc, link, g);
    GoodLinkHasEdge(doc, link, unchecked);
    GoodIsSafe(doc, link);
    if !refused {
      SafeLinkKeepsCalm(doc, link, g);
    }
    if swallowed == 0 {
      OnlyEdgesCount(doc, link, g, unchecked);
      AddedEdgeAcyclic(doc, link, unchecked);
    } else {
      StillCyclic(unchecked, Attach(doc, link, unchecked));
    }
  }

  lemma StillCyclic(g: DiGraph, h: DiGraph)
    requires g.edges.Keys <= h.edges.Keys && !g.IsAcyclic()
    ensures !h.IsAcyclic()
  {
    var w :| IsCycle(g.edges.Keys, w);
    assert IsCycle(h.edges.Keys, w);
  }

  lemma GoodIsSafe(doc: Document, link: Link)
    requires GoodLink(doc, link)
    ensures SafeLink(doc, link)
  {
  }

  class CreGraph {
    var graph: DiGraph

    constructor ()
      ensures graph == EMPTY_GRAPH
    {
      graph := EMPTY_GRAPH;
    }

    /** The vertex of a CRE, or of a resource; known vertices stay as they are. */
    method AddDocument(doc: Document)
      modifies this
      ensures graph.edges == old(graph.edges) && graph.nodes == old(graph.nodes) + {HeadVertex(doc)}
    {
      if HeadVertex(doc) !in graph.nodes {
        graph := graph.(nodes := graph.nodes + {HeadVertex(doc)});
      }
    }

    /** Tries the link on a copy of the graph. */
    method IntroducesCycle(docFrom: Document, link: Link) returns (r: Result<bool, GraphError>)
      ensures !graph.IsAcyclic() ==> r == Failure(ExistingCycle)
      ensures graph.IsAcyclic() ==>
        match AddGraphEdge(docFrom, link, graph)
        case Failure(e) => r == Failure(e)
        case Success(_) => r == Success(ClosesCycle(docFrom, link, graph))
    {
      var existing := FindCycle(graph.edges.Keys);
      if existing.Some? {
        return Failure(ExistingCycle);
      }
      var tried := AddGraphEdge(docFrom, link, graph);
      if tried.Failure? {
        return Failure(tried.error);
      }
      AddedEdgeAcyclic(docFrom, link, graph);
      var cycle := FindCycle(tried.value.edges.Keys);
      r := Success(cycle.Some?);
    }

    /**
     Between CREs of an acyclic graph, exactly the links that would close a cycle are refused; a
     refused link leaves the graph alone and an accepted one keeps it acyclic.
     */
    method AddLink(docFrom: Document, link: Link) returns (r: Result<(), GraphError>)
      modifies this
      ensures r.Failure? ==> graph == old(graph)
      ensures r.Success? ==> AddGraphEdge(docFrom, link, old(graph)) == Success(graph)
      ensures BothCres(docFrom, link) && !old(graph).IsAcyclic() ==> r == Failure(ExistingCycle)
      ensures BothCres(docFrom, link) && old(graph).IsAcyclic() ==>
        && (r == Failure(CycleDetected) <==> ClosesCycle(docFrom, link, old(graph)))
        && graph.IsAcyclic()
      ensures !BothCres(docFrom, link) || (old(graph).IsAcyclic() && !ClosesCycle(docFrom, link, old(graph))) ==>
        && (r.Success? <==> AddGraphEdge(docFrom, link, old(graph)).Success?)
        && (r.Failure? ==> r.error == AddGraphEdge(docFrom, link, old(graph)).error)
    {
      if BothCres(docFrom, link) {
        var cycle := IntroducesCycle(docFrom, link);
        if cycle.Failure? {
          return Failure(cycle.error);
        }
        if cycle.value {
          return Failure(CycleDetected);
        }
        AddedEdgeAcyclic(docFrom, link, graph);
      }
      var added := AddGraphEdge(docFrom, link, graph);
      if added.Failure? {
        return Failure(added.error);
      }
      graph := added.value;
      r := Success(());
    }

    /** Adds one document with its links; only refusals because of a cycle are passed over. */
    method LoadDocument(doc: Document, ghost unchecked: DiGraph, ghost swallowed0: nat)
      returns (r: Result<(), GraphError>, ghost swallowed: nat)
      modifies this
      ensures SafeDocument(doc) && Calm(old(graph)) ==> Calm(graph)
      ensures GoodDocument(doc) && Follows(old(graph), unchecked, swallowed0) ==>
        r.Success? && Follows(graph, WithLinks(doc, doc.links, unchecked), swallowed)
    {
      hide *;
      swallowed := swallowed0;
      NoLinks(doc, unchecked);
      AddDocument(doc);
      SameEdges(old(graph), graph, unchecked, swallowed);
      for i := 0 to |doc.links|
        invariant SafeDocument(doc) && Calm(old(graph)) ==> Calm(graph)
        invariant GoodDocument(doc) && Follows(old(graph), unchecked, swallowed0) ==>
          Follows(graph, WithLinks(doc, doc.links[..i], unchecked), swallowed)
      {
        var link := doc.links[i];
        ghost var before, u := graph, WithLinks(doc, doc.links[..i], unchecked);
        AddDocument(link.document);
        SameEdges(before, graph, u, swallowed);
        LinkOfDocument(doc, i, unchecked);
        var r' := TryLink(doc, link, u, swallowed);
        if r'.Failure? {
          if r'.error != CycleDetected {
            return r', swallowed;
          }
          swallowed := swallowed + 1;
        }
      }
      assert doc.links[..|doc.links|] == doc.links;
      r := Success(());
    }

    method TryLink(doc: Document, link: Link, ghost unchecked: DiGraph, ghost swallowed: nat) returns (r: Result<(), GraphError>)
      modifies this
      ensures SafeLink(doc, link) && Calm(old(graph)) ==> Calm(graph)
      ensures GoodLink(doc, link) && Follows(old(graph), unchecked, swallowed) ==>
        && (r.Success? || r == Failure(CycleDetected))
        && Follows(graph, Attach(doc, link, unchecked), swallowed + if r.Failure? then 1 else 0)
    {
      r := AddLink(doc, link);
      hide Acyclic, ClosesCycle, AddGraphEdge, GoodLink, SafeLink, NoNodeTails;
      if SafeLink(doc, link) && Calm(old(graph)) && r.Success? {
        SafeLinkKeepsCalm(doc, link, old(graph));
      }
      if GoodLink(doc, link) && Follows(old(graph), unchecked, swallowed) {
        GoodLinkHasEdge(doc, link, old(graph));
        FollowLink(doc, link, old(graph), unchecked, swallowed, r.Failure?, graph);
      }
    }

    /**
     Loads the documents in the given order. Resources that are no containers leave the graph acyclic
     whatever is refused. Nothing is refused exactly when the edges taken all together, without a look
     at cycles, are acyclic, and then the graph has exactly those edges.
     */
    method LoadCreGraph(documents: seq<Document>) returns (r: Result<(), GraphError>, ghost swallowed: nat)
      modifies this
      ensures (forall doc | doc in documents :: SafeDocument(doc)) && Calm(old(graph)) ==> Calm(graph)
      ensures (forall doc | doc in documents :: GoodDocument(doc)) && Calm(old(graph)) ==>
        && r.Success?
        && (swallowed == 0 <==> WithDocuments(documents, old(graph)).IsAcyclic())
        && (swallowed == 0 ==> graph.edges == WithDocuments(documents, old(graph)).edges)
    {
      hide *;
      swallowed := 0;
      NoDocuments(graph);
      for i := 0 to |documents|
        invariant (forall doc | doc in documents :: SafeDocument(doc)) && Calm(old(graph)) ==> Calm(graph)
        invariant (forall doc | doc in documents :: GoodDocument(doc)) && Calm(old(graph)) ==>
          Follows(graph, WithDocuments(documents[..i], old(graph)), swallowed)
      {
        assert documents[i] in documents;
        OneMoreDocument(documents, i, old(graph));
        r, swallowed := LoadDocument(documents[i], WithDocuments(documents[..i], old(graph)), swallowed);
        if r.Failure? {
          return;
        }
      }
      assert documents[..|documents|] == documents;
      if Follows(graph, WithDocuments(documents, old(graph)), swallowed) {
        FollowedToEnd(graph, WithDocuments(documents, old(graph)), swallowed);
      }
      r := Success(());
    }
  }

  lemma SameEdges(g: DiGraph, h: DiGraph, unchecked: DiGraph, swallowed: nat)
    requires g.edges == h.edges
    ensures Calm(g) <==> Calm(h)
    ensures Follows(g, unchecked, swallowed) <==> Follows(h, unchecked, swallowed)
  {
  }

  lemma LinkOfDocument(doc: Document, i: nat, unchecked: DiGraph)
    requires i < |doc.links|
    ensures SafeDocument(doc) ==> SafeLink(doc, doc.links[i])
    ensures GoodDocument(doc) ==> GoodLink(doc, doc.links[i])
    ensures WithLinks(doc, doc.links[..i + 1], unchecked) == Attach(doc, doc.links[i], WithLinks(doc, doc.links[..i], unchecked))
  {
    assert doc.links[i] in doc.links;
    assert doc.links[..i + 1][..i] == doc.links[..i];
  }

  lemma NoLinks(doc: Document, unchecked: DiGraph)
    ensures WithLinks(doc, doc.links[..0], unchecked) == unchecked
  {
  }

  lemma EmptyGraphIsCalm()
    ensures Calm(EMPTY_GRAPH) && CreTails(EMPTY_GRAPH)
  {
    RisingEdgesAcyclic(EMPTY_GRAPH.edges.Keys, v => 0);
  }

  lemma NoDocuments(g: DiGraph)
    ensures WithDocuments([], g) == g
    ensures Calm(g) ==> Follows(g, g, 0)
  {
  }

  lemma OneMoreDocument(documents: seq<Document>, i: nat, g: DiGraph)
    requires i < |documents|
    ensures WithDocuments(documents[..i + 1], g)
      == WithLinks(documents[i], documents[i].links, WithDocuments(documents[..i], g))
  {
    assert documents[..i + 1][..i] == documents[..i];
  }

  lemma FollowedToEnd(g: DiGraph, unchecked: DiGraph, swallowed: nat)
    requires Follows(g, unchecked, swallowed)
    ensures swallowed == 0 <==> unchecked.IsAcyclic()
    ensures swallowed == 0 ==> g.edges == unchecked.edges
  {
  }

  // ---------------------------------------------------------------- resources and cycles

  ghost function CreEdges(g: DiGraph): set<(Vertex, Vertex)> {
    set e | e in g.edges && JoinsCres(e)
  }

  /** Every edge starts at a CRE. */
  ghost predicate CreTails(g: DiGraph) {
    forall e | e in g.edges :: e.0.kind.CreLabel?
  }

  /** Resources that no edge leaves are on no cycle. */
  lemma SinksDoNotMatter(g: DiGraph)
    requires CreTails(g)
    ensures g.IsAcyclic() <==> Acyclic(CreEdges(g))
  {
    FewerEdges(g);
    forall w | IsCycle(g.edges.Keys, w) ensures IsCycle(CreEdges(g), w) {
      forall i | 0 <= i < |w| - 1 ensures (w[i], w[i + 1]) in CreEdges(g) {
        assert (w[i], w[i + 1]) in g.edges;
        if i + 1 < |w| - 1 {
          assert (w[i + 1], w[i + 1 + 1]) in g.edges;
        } else {
          assert (w[0], w[0 + 1]) in g.edges;
        }
      }
    }
  }

  lemma FewerEdges(g: DiGraph)
    ensures g.IsAcyclic() ==> Acyclic(CreEdges(g))
  {
    if g.IsAcyclic() {
      FewerEdgesAcyclic(CreEdges(g), g.edges.Keys);
    }
  }
}
