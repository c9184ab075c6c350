/**
 Registration of CREs and resources: rows of the link table and edges of the in-memory graph are written
 together, containments always from the higher CRE to the lower one.
 */
module NodeCollection {
  import opened Wrappers
  import opened Documents
  import opened Graphs
  import opened InmemoryGraph
  import opened Hydration
  import opened Registration

  /** What add_internal_link did: nothing for a known pair or a cycle. */
  datatype LinkOutcome = Known | Added | Cyclic

  /**
   CREs are looked up by name and id together. External ids therefore stay distinct exactly when the
   document's id is new or belongs to a row with its own name, letter case aside.
   */
  lemma IdsStayDistinct(cres: seq<CreRow>, doc: Document)
    requires DistinctIds(cres)
    ensures DistinctIds(CresWith(cres, doc)) <==>
      forall i | 0 <= i < |cres| && cres[i].externalId == doc.id :: SameName(cres[i].name, doc.name)
  {
    var after := CresWith(cres, doc);
    if DistinctIds(after) {
      forall i | 0 <= i < |cres| && cres[i].externalId == doc.id ensures SameName(cres[i].name, doc.name) {
        var last, mine := after[|after| - 1].externalId, after[i].externalId;
      }
    }
    if forall i | 0 <= i < |cres| && cres[i].externalId == doc.id :: SameName(cres[i].name, doc.name) {
      if FindCre(cres, doc) == |cres| {
        assert forall i | 0 <= i < |cres| :: !SameCre(cres[i], doc) && cres[i].externalId != doc.id;
      }
    }
  }

  // ---------------------------------------------------------------- rows and edges

  ghost function RowPairs(rows: seq<InternalLink>): set<(nat, nat)> {
    set row | row in rows :: (row.group, row.cre)
  }

  ghost function TypedRows(t: Tables): set<((Vertex, Vertex), LinkType)>
    requires WellFormed(t)
  {
    set row | row in t.internalLinks :: (RowEdge(t, row), row.ltype)
  }

  /** The graph is acyclic and its edges between CREs are the rows of the link table, types included. */
  ghost predicate InStep(t: Tables, g: DiGraph) {
    && WellFormed(t)
    && g.IsAcyclic()
    && (forall e | e in g.edges :: !e.0.kind.NodeLabel?)
    && TypedCreEdges(g) == TypedRows(t)
  }

  ghost predicate HasCreEdge(t: Tables, g: DiGraph, a: nat, b: nat) {
    a < |t.cres| && b < |t.cres| && (CreVertex(t, a), CreVertex(t, b)) in g.edges
  }

  lemma RowPairIsEdge(t: Tables, g: DiGraph, a: nat, b: nat)
    requires InStep(t, g) && (a, b) in RowPairs(t.internalLinks)
    ensures HasCreEdge(t, g, a, b)
  {
    var row :| row in t.internalLinks && (row.group, row.cre) == (a, b);
    assert (RowEdge(t, row), row.ltype) in TypedRows(t);
  }

  /** Read from group to CRE, the rows never lead from a CRE back to itself. */
  lemma RowsAreAcyclic(t: Tables, g: DiGraph)
    requires InStep(t, g)
    ensures Acyclic(RowPairs(t.internalLinks))
  {
    forall w ensures !IsCycle(RowPairs(t.internalLinks), w) {
      if |w| >= 2 && IsWalk(RowPairs(t.internalLinks), w) {
        forall i | 0 <= i < |w| - 1 ensures HasCreEdge(t, g, w[i], w[i + 1]) {
          RowPairIsEdge(t, g, w[i], w[i + 1]);
        }
        assert HasCreEdge(t, g, w[|w| - 2], w[|w| - 2 + 1]);
        var v := seq(|w|, i requires 0 <= i < |w| => if w[i] < |t.cres| then CreVertex(t, w[i]) else Vertex(CreLabel, ""));
        assert IsWalk(g.edges.Keys, v) by {
          forall i | 0 <= i < |v| - 1 ensures (v[i], v[i + 1]) in g.edges {
            assert HasCreEdge(t, g, w[i], w[i + 1]);
          }
        }
        assert !IsCycle(g.edges.Keys, v);
        assert HasCreEdge(t, g, w[0], w[0 + 1]);
      }
    }
  }

  ghost predicate Joined(t: Tables, a: nat, b: nat) {
    JoinedIn(t.internalLinks, a, b)
  }

  /** In step, two distinct rows of CREs without a link row have no edge between them either. */
  lemma NoRowNoEdge(t: Tables, g: DiGraph, a: nat, b: nat)
    requires InStep(t, g) && a < |t.cres| && b < |t.cres| && !Joined(t, a, b)
    ensures (CreVertex(t, a), CreVertex(t, b)) !in g.edges
  {
    var e := (CreVertex(t, a), CreVertex(t, b));
    if e in g.edges {
      assert (e, g.edges[e]) in TypedCreEdges(g);
      var row :| row in t.internalLinks && (RowEdge(t, row), row.ltype) == (e, g.edges[e]);
      SameIdSameCre(t, row.group, a);
      SameIdSameCre(t, row.cre, b);
    }
  }

  // ---------------------------------------------------------------- steps that keep the two in step

  function WithRow(t: Tables, row: InternalLink): Tables {
    t.(internalLinks := t.internalLinks + [row])
  }

  lemma NewRowKeepsInStep(t: Tables, g: DiGraph, row: InternalLink)
    requires InStep(t, g) && row.group < |t.cres| && row.cre < |t.cres| && row.group != row.cre
    requires !row.ltype.PartOf? && !Joined(t, row.group, row.cre)
    requires Put(g, RowEdge(t, row), row.ltype).IsAcyclic()
    ensures InStep(WithRow(t, row), Put(g, RowEdge(t, row), row.ltype))
  {
    var after, e := WithRow(t, row), RowEdge(t, row);
    var h := Put(g, e, row.ltype);
    NoRowNoEdge(t, g, row.group, row.cre);
    assert forall i | 0 <= i < |t.internalLinks| :: after.internalLinks[i] in t.internalLinks;
    assert WellFormed(after);
    assert TypedRows(after) == TypedRows(t) + {(e, row.ltype)};
    PutTyped(g, e, row.ltype);
  }

  lemma NodeLinkKeepsInStep(t: Tables, g: DiGraph, docFrom: Document, link: Link, u: Tables)
    requires InStep(t, g) && docFrom.doctype.CRE? && !link.document.doctype.CRE? && !link.ltype.PartOf?
    requires AddGraphEdge(docFrom, link, g).Success?
    requires u.cres == t.cres && u.internalLinks == t.internalLinks && u.nodes == t.nodes
    ensures InStep(u, AddGraphEdge(docFrom, link, g).value)
  {
    var h := AddGraphEdge(docFrom, link, g).value;
    LinkToSinkIsSafe(docFrom, link, g);
    AddedEdgeAcyclic(docFrom, link, g);
    var e := EdgeOf(docFrom, link);
    assert forall x | x in h.edges && JoinsCres(x) :: x in g.edges && h.edges[x] == g.edges[x];
    assert forall x | x in g.edges && JoinsCres(x) :: x in h.edges;
    assert TypedCreEdges(h) == TypedCreEdges(g) by { hide WellFormed; }
    assert TypedRows(u) == TypedRows(t) by {
      assert forall r | r in t.internalLinks :: RowEdge(u, r) == RowEdge(t, r);
    }
  }

  lemma OtherTablesDoNotMatter(t: Tables, g: DiGraph, u: Tables, h: DiGraph)
    requires InStep(t, g) && h.edges == g.edges
    requires u.cres == t.cres && u.internalLinks == t.internalLinks
    requires forall n | n in u.nodes :: !u.nodes[n].doctype.CRE?
    ensures InStep(u, h)
  {
    assert forall r | r in t.internalLinks :: RowEdge(u, r) == RowEdge(t, r);
    assert TypedRows(u) == TypedRows(t);
  }

  lemma FewerCresDistinct(some: seq<CreRow>, more: seq<CreRow>)
    requires some <= more && DistinctIds(more)
    ensures DistinctIds(some)
  {
    forall i, j | 0 <= i < j < |some| ensures some[i].externalId != some[j].externalId {
      assert some[i] == more[i] && some[j] == more[j];
    }
  }

  /** No link of the tree with a resource at one of its ends says PartOf. */
  ghost predicate PartOfJoinsCres(doc: Document) {
    forall link | link in doc.links ::
      PartOfJoinsCres(link.document) && (link.ltype.PartOf? ==> doc.doctype.CRE? && link.document.doctype.CRE?)
  }

  // ---------------------------------------------------------------- what a registration writes

  ghost predicate Linked(rows: seq<NodeLink>, cre: nat, id: string) {
    exists i :: 0 <= i < |rows| && rows[i].cre == cre && rows[i].node == id
  }

  ghost predicate PairsKept(before: seq<NodeLink>, now: seq<NodeLink>) {
    forall cre, id | Linked(before, cre, id) :: Linked(now, cre, id)
  }

  /** Rows between CREs are only appended, linked pairs stay linked, and resources stay. */
  ghost predicate TablesGrown(t: Tables, u: Tables) {
    t.cres <= u.cres && t.internalLinks <= u.internalLinks && t.nodes.Keys <= u.nodes.Keys && PairsKept(t.nodeLinks, u.nodeLinks)
  }

  /** Besides, edges are only added. */
  ghost predicate Grown(t: Tables, g: DiGraph, u: Tables, h: DiGraph) {
    TablesGrown(t, u) && g.edges.Keys <= h.edges.Keys
  }

  /** A resource with this id occurs in the document tree. */
  ghost predicate ResourceIn(doc: Document, id: string) {
    (!doc.doctype.CRE? && doc.id == id) || exists link | link in doc.links :: ResourceIn(link.document, id)
  }

  /** Only resources of the document tree get links that they did not have. */
  ghost predicate NewPairsStated(before: seq<NodeLink>, now: seq<NodeLink>, doc: Document) {
    forall cre, id | Linked(now, cre, id) :: Linked(before, cre, id) || ResourceIn(doc, id)
  }

  /** The document, or one below it, states the row: as Contains from above or as PartOf from below. */
  ghost predicate States(doc: Document, group: CreRow, cre: CreRow, ltype: LinkType) {
    exists link | link in doc.links && link.document.doctype.CRE? ::
      || (link.ltype.Contains? && ltype.Contains? && SameCre(group, doc) && SameCre(cre, link.document))
      || (link.ltype.PartOf? && ltype.Contains? && SameCre(group, link.document) && SameCre(cre, doc))
      || (link.ltype.Related? && ltype.Related? && SameCre(group, link.document) && SameCre(cre, doc))
      || States(link.document, group, cre, ltype)
  }

  ghost predicate RowStated(t: Tables, row: InternalLink, doc: Document) {
    row.group < |t.cres| && row.cre < |t.cres| && States(doc, t.cres[row.group], t.cres[row.cre], row.ltype)
  }

  ghost predicate NewRowsStated(earlier: Tables, t: Tables, doc: Document) {
    forall k | |earlier.internalLinks| <= k < |t.internalLinks| :: RowStated(t, t.internalLinks[k], doc)
  }

  /** The link's two CREs are stored and joined, or the lower one already leads to the higher one. */
  ghost predicate Settled(t: Tables, g: DiGraph, doc: Document, link: Link) {
    exists a: nat, b: nat :: a < |t.cres| && b < |t.cres| && SettledBy(t, g, doc, link, a, b)
  }

  ghost predicate SettledBy(t: Tables, g: DiGraph, doc: Document, link: Link, a: nat, b: nat)
    requires a < |t.cres| && b < |t.cres|
  {
    && SameCre(t.cres[a], doc) && SameCre(t.cres[b], link.document)
    && (|| Joined(t, a, b)
        || (link.ltype.Contains? && HasPath(g.edges.Keys, CreVertex(t, b), CreVertex(t, a)))
        || (!link.ltype.Contains? && HasPath(g.edges.Keys, CreVertex(t, a), CreVertex(t, b))))
  }

  ghost predicate NamedIsLinked(t: Tables, name: string, id: string) {
    FirstNamed(t.cres, name) < |t.cres| && Linked(t.nodeLinks, FirstNamed(t.cres, name), id)
  }

  ghost predicate HasCre(t: Tables, id: string) {
    exists c: nat :: c < |t.cres| && Linked(t.nodeLinks, c, id)
  }

  /** Some CRE is linked to both resources. */
  ghost predicate ShareCre(t: Tables, a: string, b: string) {
    exists c: nat :: c < |t.cres| && Linked(t.nodeLinks, c, a) && Linked(t.nodeLinks, c, b)
  }

  ghost predicate AllShareCre(t: Tables, doc: Document) {
    forall link | link in doc.links && !link.document.doctype.CRE? :: ShareCre(t, doc.id, link.document.id)
  }

  ghost predicate NamesCre(doc: Document, n: nat)
    requires n <= |doc.links|
  {
    exists k :: 0 <= k < n && doc.links[k].document.doctype.CRE?
  }

  /**
   The resource is stored with all resources below it, and each of them is linked to the CREs it names. If
   it names a CRE, it shares one with each resource it links to.
   */
  ghost predicate NodeCovered(t: Tables, doc: Document)
    decreases doc, 1
  {
    NodeCoveredUpTo(t, doc, |doc.links|) && (NamesCre(doc, |doc.links|) ==> AllShareCre(t, doc))
  }

  ghost predicate NodeCoveredUpTo(t: Tables, doc: Document, n: nat)
    requires n <= |doc.links|
    decreases doc, 0
  {
    doc.id in t.nodes && forall j | 0 <= j < n ::
      if doc.links[j].document.doctype.CRE? then NamedIsLinked(t, doc.links[j].document.name, doc.id)
      else NodeCovered(t, doc.links[j].document)
  }

  ghost predicate ResourceLinked(t: Tables, doc: Document, resource: Document) {
    NodeCovered(t, resource) && exists a: nat :: a < |t.cres| && SameCre(t.cres[a], doc) && Linked(t.nodeLinks, a, resource.id)
  }

  /** Every link between CREs in the document tree is settled, and every resource stored and linked. */
  ghost predicate Covered(t: Tables, g: DiGraph, doc: Document)
    decreases doc, 1
  {
    CoveredUpTo(t, g, doc, |doc.links|)
  }

  ghost predicate CoveredUpTo(t: Tables, g: DiGraph, doc: Document, n: nat)
    requires n <= |doc.links|
    decreases doc, 0
  {
    forall j | 0 <= j < n ::
      if doc.links[j].document.doctype.CRE? then Settled(t, g, doc, doc.links[j]) && Covered(t, g, doc.links[j].document)
      else ResourceLinked(t, doc, doc.links[j].document)
  }

  lemma FirstNamedStays(cres: seq<CreRow>, more: seq<CreRow>, name: string)
    requires cres <= more && FirstNamed(cres, name) < |cres|
    ensures FirstNamed(more, name) == FirstNamed(cres, name)
  {
    var i, j := FirstNamed(cres, name), FirstNamed(more, name);
    hide FirstNamed, SameName;
    assert more[i] == cres[i];
    assert j < |cres| ==> more[j] == cres[j];
  }

  lemma {:induction false} NodeCoveredStays(t: Tables, u: Tables, doc: Document, n: nat)
    requires TablesGrown(t, u) && n <= |doc.links| && NodeCoveredUpTo(t, doc, n)
    ensures NodeCoveredUpTo(u, doc, n)
    decreases doc
  {
    hide FirstNamed, Linked, SameName;
    forall j | 0 <= j < n
      ensures
        if doc.links[j].document.doctype.CRE? then NamedIsLinked(u, doc.links[j].document.name, doc.id)
        else NodeCovered(u, doc.links[j].document)
    {
      var below := doc.links[j].document;
      if below.doctype.CRE? {
        FirstNamedStays(t.cres, u.cres, below.name);
      } else {
        NodeCoveredStays(t, u, below, |below.links|);
        SharesStay(t, u, below);
      }
    }
  }

  lemma NodeStaysCovered(t: Tables, u: Tables, doc: Document)
    requires TablesGrown(t, u) && NodeCovered(t, doc)
    ensures NodeCovered(u, doc)
  {
    NodeCoveredStays(t, u, doc, |doc.links|);
    SharesStay(t, u, doc);
  }

  lemma SharesStay(t: Tables, u: Tables, doc: Document)
    requires TablesGrown(t, u)
    ensures AllShareCre(t, doc) ==> AllShareCre(u, doc)
    ensures forall a, b | ShareCre(t, a, b) :: ShareCre(u, a, b)
    ensures forall id | HasCre(t, id) :: HasCre(u, id)
  {
    hide Linked;
    forall a, b | ShareCre(t, a, b) ensures ShareCre(u, a, b) {
      var c: nat :| c < |t.cres| && Linked(t.nodeLinks, c, a) && Linked(t.nodeLinks, c, b);
      assert c < |u.cres| && Linked(u.nodeLinks, c, a) && Linked(u.nodeLinks, c, b);
    }
  }

  lemma ResourceLinkedStays(t: Tables, u: Tables, doc: Document, resource: Document)
    requires TablesGrown(t, u) && ResourceLinked(t, doc, resource)
    ensures ResourceLinked(u, doc, resource)
  {
    NodeStaysCovered(t, u, resource);
    hide Linked, SameCre, NodeCovered;
    var a: nat :| a < |t.cres| && SameCre(t.cres[a], doc) && Linked(t.nodeLinks, a, resource.id);
    assert u.cres[a] == t.cres[a];
  }

  lemma SettledStays(t: Tables, g: DiGraph, u: Tables, h: DiGraph, doc: Document, link: Link)
    requires Grown(t, g, u, h) && Settled(t, g, doc, link)
    ensures Settled(u, h, doc, link)
  {
    hide SameCre, HasPath, Joined, SettledBy;
    var a: nat, b: nat :| a < |t.cres| && b < |t.cres| && SettledBy(t, g, doc, link, a, b);
    SettledByStays(t, g, u, h, doc, link, a, b);
  }

  lemma SettledByStays(t: Tables, g: DiGraph, u: Tables, h: DiGraph, doc: Document, link: Link, a: nat, b: nat)
    requires Grown(t, g, u, h) && a < |t.cres| && b < |t.cres| && SettledBy(t, g, doc, link, a, b)
    ensures SettledBy(u, h, doc, link, a, b)
  {
    assert u.cres[a] == t.cres[a] && u.cres[b] == t.cres[b];
    hide SameCre, HasPath, Joined;
    if Joined(t, a, b) {
    } else if link.ltype.Contains? {
      PathStays(g.edges.Keys, h.edges.Keys, CreVertex(t, b), CreVertex(t, a));
    } else {
      PathStays(g.edges.Keys, h.edges.Keys, CreVertex(t, a), CreVertex(t, b));
    }
  }

  lemma {:induction false} CoveredStays(t: Tables, g: DiGraph, u: Tables, h: DiGraph, doc: Document, n: nat)
    requires Grown(t, g, u, h) && n <= |doc.links| && CoveredUpTo(t, g, doc, n)
    ensures CoveredUpTo(u, h, doc, n)
    decreases doc
  {
    hide TablesGrown, Settled, ResourceLinked;
    forall j | 0 <= j < n
      ensures
        if doc.links[j].document.doctype.CRE? then Settled(u, h, doc, doc.links[j]) && Covered(u, h, doc.links[j].document)
        else ResourceLinked(u, doc, doc.links[j].document)
    {
      var below := doc.links[j].document;
      if below.doctype.CRE? {
        SettledStays(t, g, u, h, doc, doc.links[j]);
        CoveredStays(t, g, u, h, below, |below.links|);
      } else {
        ResourceLinkedStays(t, u, doc, below);
      }
    }
  }

  /** An in-step pair of tables and graph is still in step, as long as ids identify the stored CREs. */
  ghost predicate StepKept(t: Tables, g: DiGraph, u: Tables, h: DiGraph, doc: Document) {
    InStep(t, g) && PartOfJoinsCres(doc) && DistinctIds(u.cres) ==> InStep(u, h)
  }

  /** What every part of a registration guarantees: append only what the document states, stay in step. */
  ghost predicate Sound(t: Tables, g: DiGraph, u: Tables, h: DiGraph, doc: Document) {
    && Grown(t, g, u, h) && NewRowsStated(t, u, doc) && NewPairsStated(t.nodeLinks, u.nodeLinks, doc)
    && StepKept(t, g, u, h, doc)
  }

  lemma SoundInTwoSteps(t0: Tables, g0: DiGraph, t1: Tables, g1: DiGraph, t2: Tables, g2: DiGraph, doc: Document)
    requires Sound(t0, g0, t1, g1, doc) && Sound(t1, g1, t2, g2, doc)
    ensures Sound(t0, g0, t2, g2, doc)
  {
    hide States, InStep, PartOfJoinsCres;
    forall k | |t0.internalLinks| <= k < |t2.internalLinks| ensures RowStated(t2, t2.internalLinks[k], doc) {
      if k < |t1.internalLinks| {
        assert t2.internalLinks[k] == t1.internalLinks[k];
        assert RowStated(t1, t1.internalLinks[k], doc);
      }
    }
    if DistinctIds(t2.cres) {
      FewerCresDistinct(t1.cres, t2.cres);
    }
  }

  lemma SoundFromBelow(t: Tables, g: DiGraph, u: Tables, h: DiGraph, doc: Document, i: nat)
    requires i < |doc.links| && doc.links[i].document.doctype.CRE?
    requires Sound(t, g, u, h, doc.links[i].document)
    ensures Sound(t, g, u, h, doc)
  {
    var below := doc.links[i].document;
    assert doc.links[i] in doc.links;
    hide InStep, SameCre;
    forall k | |t.internalLinks| <= k < |u.internalLinks| ensures RowStated(u, u.internalLinks[k], doc) {
      var row := u.internalLinks[k];
      assert RowStated(u, row, below);
      assert States(below, u.cres[row.group], u.cres[row.cre], row.ltype);
    }
  }

  function HigherEnd(ltype: LinkType, doc: nat, linked: nat): (r: nat)
    ensures r == doc || r == linked
  {
    if ltype.Contains? then doc else linked
  }

  function LowerEnd(ltype: LinkType, doc: nat, linked: nat): (r: nat)
    ensures r == doc || r == linked
  {
    if ltype.Contains? then linked else doc
  }

  function StoredType(ltype: LinkType): LinkType {
    if ltype.PartOf? then Contains else ltype
  }

  /** What the call for the i-th link left behind, where rows a and b hold the two CREs. */
  ghost predicate Outcome(t: Tables, g: DiGraph, u: Tables, h: DiGraph, ltype: LinkType, a: nat, b: nat,
                          outcome: LinkOutcome)
    requires a < |t.cres| && b < |t.cres|
  {
    match outcome
    case Known => u == t && Joined(t, a, b)
    case Added => u == WithRow(t, InternalLink(HigherEnd(ltype, a, b), LowerEnd(ltype, a, b), StoredType(ltype)))
    case Cyclic => u == t && HasPath(h.edges.Keys, CreVertex(t, LowerEnd(ltype, a, b)), CreVertex(t, HigherEnd(ltype, a, b)))
  }

  lemma LinkIsSettled(t: Tables, g: DiGraph, u: Tables, h: DiGraph, doc: Document, i: nat, a: nat, b: nat,
                      outcome: LinkOutcome)
    requires i < |doc.links| && doc.links[i].document.doctype.CRE?
    requires a < |t.cres| && b < |t.cres| && SameCre(t.cres[a], doc) && SameCre(t.cres[b], doc.links[i].document)
    requires var l := doc.links[i].ltype; l.Contains? || l.PartOf? || l.Related?
    requires Outcome(t, g, u, h, doc.links[i].ltype, a, b, outcome)
    requires g.edges.Keys <= h.edges.Keys && (InStep(t, g) ==> InStep(u, h))
    ensures Settled(u, h, doc, doc.links[i])
    ensures Sound(t, g, u, h, doc)
  {
    var link := doc.links[i];
    assert link in doc.links && u.cres == t.cres;
    hide HasPath, InStep, CreVertex, PartOfJoinsCres;
    if outcome.Added? {
      var row := u.internalLinks[|t.internalLinks|];
      assert row in u.internalLinks && Joins(row, a, b);
      assert States(doc, u.cres[row.group], u.cres[row.cre], row.ltype);
    }
    hide States, SameCre;
    assert outcome.Known? || outcome.Added? ==> Joined(u, a, b);
    assert SettledBy(u, h, doc, link, a, b);
  }

  lemma CleanBelow(doc: Document, i: nat)
    requires i < |doc.links| && PartOfJoinsCres(doc)
    ensures PartOfJoinsCres(doc.links[i].document)
    ensures !doc.links[i].document.doctype.CRE? ==> !doc.links[i].ltype.PartOf?
  {
    assert doc.links[i] in doc.links;
  }

  lemma OneMoreCovered(t: Tables, g: DiGraph, doc: Document, i: nat)
    requires i < |doc.links| && CoveredUpTo(t, g, doc, i)
    requires
      if doc.links[i].document.doctype.CRE? then Settled(t, g, doc, doc.links[i]) && Covered(t, g, doc.links[i].document)
      else ResourceLinked(t, doc, doc.links[i].document)
    ensures CoveredUpTo(t, g, doc, i + 1)
  {
  }

  lemma CoveredStaysBelow(t: Tables, g: DiGraph, u: Tables, h: DiGraph, doc: Document)
    requires Grown(t, g, u, h) && Covered(t, g, doc)
    ensures Covered(u, h, doc)
  {
    CoveredStays(t, g, u, h, doc, |doc.links|);
  }

  lemma CresGrow(cres: seq<CreRow>, doc: Document)
    ensures cres <= CresWith(cres, doc)
  {
  }

  lemma SoundParts(t: Tables, g: DiGraph, u: Tables, h: DiGraph, doc: Document)
    requires Sound(t, g, u, h, doc)
    ensures Grown(t, g, u, h) && t.cres <= u.cres
  {
  }

  lemma NothingCovered(t: Tables, g: DiGraph, doc: Document)
    ensures CoveredUpTo(t, g, doc, 0)
    ensures CoveredUpTo(t, g, doc, |doc.links|) ==> Covered(t, g, doc)
  {
  }

  lemma StillSound(t: Tables, g: DiGraph, u: Tables, h: DiGraph, doc: Document)
    requires u == t && h == g
    ensures Sound(t, g, u, h, doc)
  {
  }

  lemma AddingCreIsSound(t: Tables, g: DiGraph, u: Tables, h: DiGraph, doc: Document)
    requires u == t.(cres := u.cres) && t.cres <= u.cres && h.edges == g.edges
    requires InStep(t, g) && DistinctIds(u.cres) ==> InStep(u, h)
    ensures Sound(t, g, u, h, doc)
  {
  }

  // ---------------------------------------------------------------- what the registration of a resource writes

  /** Only resources and their links are written; if PartOf joins CREs only, the graph stays acyclic and in step. */
  ghost predicate NodesWritten(t: Tables, g: DiGraph, u: Tables, h: DiGraph, doc: Document) {
    && u.cres == t.cres && u.internalLinks == t.internalLinks && Grown(t, g, u, h)
    && NewPairsStated(t.nodeLinks, u.nodeLinks, doc)
    && (PartOfJoinsCres(doc) && Calm(g) ==> Calm(h))
    && (PartOfJoinsCres(doc) && InStep(t, g) ==> InStep(u, h))
  }

  lemma NothingWritten(t: Tables, g: DiGraph, doc: Document)
    ensures NodesWritten(t, g, t, g, doc)
  {
  }

  lemma WrittenInTwoSteps(t0: Tables, g0: DiGraph, t1: Tables, g1: DiGraph, t2: Tables, g2: DiGraph, doc: Document)
    requires NodesWritten(t0, g0, t1, g1, doc) && NodesWritten(t1, g1, t2, g2, doc)
    ensures NodesWritten(t0, g0, t2, g2, doc)
  {
    hide InStep, Calm, PartOfJoinsCres, ResourceIn, Linked;
  }

  lemma ResourceBelow(doc: Document, i: nat)
    requires i < |doc.links|
    ensures forall id | ResourceIn(doc.links[i].document, id) :: ResourceIn(doc, id)
    ensures !doc.links[i].document.doctype.CRE? ==> ResourceIn(doc, doc.links[i].document.id)
    ensures !doc.doctype.CRE? ==> ResourceIn(doc, doc.id)
    ensures PartOfJoinsCres(doc) ==> PartOfJoinsCres(doc.links[i].document)
    ensures PartOfJoinsCres(doc) && doc.links[i].ltype.PartOf? ==> doc.doctype.CRE? && doc.links[i].document.doctype.CRE?
  {
    assert doc.links[i] in doc.links;
  }

  lemma WrittenFromBelow(t: Tables, g: DiGraph, u: Tables, h: DiGraph, doc: Document, i: nat)
    requires i < |doc.links| && NodesWritten(t, g, u, h, doc.links[i].document)
    ensures NodesWritten(t, g, u, h, doc)
  {
    hide InStep, Calm, Grown, Linked;
    ResourceBelow(doc, i);
    hide ResourceIn, PartOfJoinsCres;
  }

  lemma NodeIsWritten(t: Tables, g: DiGraph, u: Tables, h: DiGraph, doc: Document)
    requires u == t.(nodes := u.nodes) && t.nodes.Keys <= u.nodes.Keys && h.edges == g.edges
    requires Calm(g) ==> Calm(h)
    requires InStep(t, g) ==> InStep(u, h)
    ensures NodesWritten(t, g, u, h, doc)
  {
    hide InStep, Calm;
  }

  lemma LinkIsWritten(t: Tables, g: DiGraph, u: Tables, h: DiGraph, doc: Document, row: NodeLink)
    requires u == t.(nodeLinks := u.nodeLinks) && LinkFiled(t.nodeLinks, u.nodeLinks, row) && ResourceIn(doc, row.node)
    requires g.edges.Keys <= h.edges.Keys
    requires PartOfJoinsCres(doc) && Calm(g) ==> Calm(h)
    requires PartOfJoinsCres(doc) && InStep(t, g) ==> InStep(u, h)
    ensures NodesWritten(t, g, u, h, doc) && Linked(u.nodeLinks, row.cre, row.node)
  {
    hide InStep, Calm, ResourceIn, PartOfJoinsCres;
    PairsAfterFiling(t.nodeLinks, u.nodeLinks, row);
  }

  lemma PairsAfterFiling(before: seq<NodeLink>, now: seq<NodeLink>, row: NodeLink)
    requires LinkFiled(before, now, row)
    ensures forall cre, id :: Linked(now, cre, id) <==> Linked(before, cre, id) || (cre == row.cre && id == row.node)
  {
    forall cre, id ensures Linked(now, cre, id) <==> Linked(before, cre, id) || (cre == row.cre && id == row.node) {
      if Linked(before, cre, id) {
        var i :| 0 <= i < |before| && before[i].cre == cre && before[i].node == id;
        assert now[i].cre == cre && now[i].node == id;
      }
      if !Linked(before, row.cre, row.node) {
        assert now[|before|] == row;
      }
    }
  }

  lemma WrittenIsSound(t: Tables, g: DiGraph, u: Tables, h: DiGraph, doc: Document)
    requires NodesWritten(t, g, u, h, doc)
    ensures Sound(t, g, u, h, doc) && CalmKept(g, h, doc)
  {
    hide InStep, Calm, Grown, NewPairsStated, PartOfJoinsCres;
  }

  lemma WrittenGrows(t: Tables, g: DiGraph, u: Tables, h: DiGraph, doc: Document)
    requires NodesWritten(t, g, u, h, doc)
    ensures Grown(t, g, u, h) && TablesGrown(t, u) && u.cres == t.cres
    ensures forall id | id in t.nodes :: id in u.nodes
    ensures forall cre, id | Linked(t.nodeLinks, cre, id) :: Linked(u.nodeLinks, cre, id)
  {
  }

  lemma StoredIsCovered(t: Tables, doc: Document)
    requires doc.id in t.nodes
    ensures NodeCoveredUpTo(t, doc, 0)
    ensures doc.links == [] ==> NodeCovered(t, doc)
  {
  }

  lemma OneMoreNodeCovered(t: Tables, doc: Document, i: nat)
    requires i < |doc.links| && NodeCoveredUpTo(t, doc, i)
    requires
      if doc.links[i].document.doctype.CRE? then NamedIsLinked(t, doc.links[i].document.name, doc.id)
      else NodeCovered(t, doc.links[i].document)
    ensures NodeCoveredUpTo(t, doc, i + 1)
  {
  }

  /** Of the resources linked so far, those that share no CRE with the document wait for one, and then it has none. */
  ghost predicate Mapped(t: Tables, doc: Document, n: nat, unlinked: seq<Document>, had: bool)
    requires n <= |doc.links|
  {
    && (forall j | 0 <= j < n && !doc.links[j].document.doctype.CRE? ::
          doc.links[j].document in unlinked || ShareCre(t, doc.id, doc.links[j].document.id))
    && (unlinked != [] ==> !had && !NamesCre(doc, n))
    && (had ==> HasCre(t, doc.id))
  }

  lemma MappedStays(t: Tables, u: Tables, doc: Document, n: nat, unlinked: seq<Document>, had: bool)
    requires n <= |doc.links| && TablesGrown(t, u) && Mapped(t, doc, n, unlinked, had)
    ensures Mapped(u, doc, n, unlinked, had)
  {
    SharesStay(t, u, doc);
    hide ShareCre, HasCre, TablesGrown;
  }

  lemma NamedHasCre(t: Tables, doc: Document, n: nat)
    requires n <= |doc.links| && NodeCoveredUpTo(t, doc, n) && NamesCre(doc, n)
    ensures HasCre(t, doc.id)
  {
    hide Linked, FirstNamed;
  }

  lemma MappedNamedCre(t: Tables, doc: Document, i: nat, unlinked: seq<Document>, had: bool)
    requires i < |doc.links| && doc.links[i].document.doctype.CRE? && Mapped(t, doc, i, unlinked, had)
    requires NamedIsLinked(t, doc.links[i].document.name, doc.id)
    requires forall u | u in unlinked :: NamedIsLinked(t, doc.links[i].document.name, u.id)
    ensures Mapped(t, doc, i + 1, [], had)
  {
    hide Linked, FirstNamed;
    forall u | u in unlinked ensures ShareCre(t, doc.id, u.id) {
    }
  }

  lemma MappedLinkedNode(t: Tables, u: Tables, doc: Document, i: nat, unlinked0: seq<Document>, unlinked: seq<Document>,
                         had: bool)
    requires i < |doc.links| && !doc.links[i].document.doctype.CRE?
    requires Mapped(t, doc, i, unlinked0, had) && Mapped(u, doc, i, unlinked0, had) && NodeCoveredUpTo(t, doc, i)
    requires
      if HasCre(t, doc.id) then unlinked == unlinked0 && ShareCre(u, doc.id, doc.links[i].document.id)
      else (unlinked == unlinked0 && ShareCre(u, doc.id, doc.links[i].document.id)) || unlinked == unlinked0 + [doc.links[i].document]
    ensures Mapped(u, doc, i + 1, unlinked, had)
  {
    if NamesCre(doc, i) {
      NamedHasCre(t, doc, i);
    }
    hide NodeCoveredUpTo, ShareCre, HasCre;
    assert NamesCre(doc, i + 1) ==> NamesCre(doc, i);
  }

  lemma NothingMapped(t: Tables, doc: Document, had: bool)
    requires had ==> HasCre(t, doc.id)
    ensures Mapped(t, doc, 0, [], had)
  {
  }

  lemma AllMapped(t: Tables, doc: Document, unlinked: seq<Document>, had: bool)
    requires NodeCoveredUpTo(t, doc, |doc.links|) && Mapped(t, doc, |doc.links|, unlinked, had)
    ensures NodeCovered(t, doc) && (had ==> AllShareCre(t, doc))
  {
    hide ShareCre, HasCre, NodeCoveredUpTo;
  }

  /** The linked resource has CREs, and the document got them; or the document has some, and the resource got them. */
  lemma MappedEitherWay(t: Tables, u: Tables, doc: Document, resource: Document)
    requires TablesGrown(t, u)
    requires forall c | c in CresFound(ViewOf(t), resource) :: Linked(u.nodeLinks, c, doc.id)
    requires CresFound(ViewOf(t), resource) == [] ==>
      forall c: nat | c < |t.cres| && Linked(t.nodeLinks, c, doc.id) :: Linked(u.nodeLinks, c, resource.id)
    ensures HasCre(t, doc.id) || CresFound(ViewOf(t), resource) != [] ==> ShareCre(u, doc.id, resource.id)
  {
    var cres := CresFound(ViewOf(t), resource);
    if cres != [] {
      var c := cres[0];
      assert c in cres && Linked(t.nodeLinks, c, resource.id);
      hide Linked, CresFound;
      assert Linked(u.nodeLinks, c, resource.id);
    } else if HasCre(t, doc.id) {
      hide Linked, CresFound;
      var c: nat :| c < |t.cres| && Linked(t.nodeLinks, c, doc.id);
      assert Linked(u.nodeLinks, c, doc.id);
    }
  }

  lemma NamedCreIsLinked(t: Tables, name: string, id: string)
    requires FirstNamed(t.cres, name) < |t.cres| && Linked(t.nodeLinks, FirstNamed(t.cres, name), id)
    ensures NamedIsLinked(t, name, id)
  {
  }

  lemma ResourceIsLinked(t: Tables, doc: Document, a: nat, resource: Document)
    requires a < |t.cres| && SameCre(t.cres[a], doc) && Linked(t.nodeLinks, a, resource.id) && NodeCovered(t, resource)
    ensures ResourceLinked(t, doc, resource)
  {
  }

  lemma HasCreIff(t: Tables, id: string)
    ensures HasCre(t, id) <==> CresLinked(ViewOf(t), PairsOf(t.nodeLinks), id) != []
  {
    var cres := CresLinked(ViewOf(t), PairsOf(t.nodeLinks), id);
    LinkedPairs(t.nodeLinks);
    assert cres != [] ==> cres[0] in cres;
    hide Linked;
  }

  lemma LinkedPairs(rows: seq<NodeLink>)
    ensures forall cre: nat, id :: Linked(rows, cre, id) <==> (cre, id) in PairsOf(rows)
  {
    forall cre: nat, id | Linked(rows, cre, id) ensures (cre, id) in PairsOf(rows) {
      var i :| 0 <= i < |rows| && rows[i].cre == cre && rows[i].node == id;
      assert PairsOf(rows)[i] == (cre, id);
    }
  }

  lemma LinkedCres(t: Tables, doc: Document)
    ensures forall c: nat :: c in CresLinked(ViewOf(t), PairsOf(t.nodeLinks), doc.id) <==> c < |t.cres| && Linked(t.nodeLinks, c, doc.id)
    ensures forall c: nat | c in CresFound(ViewOf(t), doc) :: c < |t.cres| && Linked(t.nodeLinks, c, doc.id)
  {
    LinkedPairs(t.nodeLinks);
    hide Linked;
  }

  lemma HigherAndLower(ltype: LinkType, a: nat, b: nat)
    ensures ltype.Contains? ==> HigherEnd(ltype, a, b) == a && LowerEnd(ltype, a, b) == b && StoredType(ltype) == Contains
    ensures ltype.PartOf? ==> HigherEnd(ltype, a, b) == b && LowerEnd(ltype, a, b) == a && StoredType(ltype) == Contains
    ensures ltype.Related? ==> HigherEnd(ltype, a, b) == b && LowerEnd(ltype, a, b) == a && StoredType(ltype) == Related
    ensures KnownToGraph(Contains) && KnownToGraph(Related)
    ensures RegistersJoin(ltype) <==> ltype.Contains? || ltype.PartOf? || ltype.Related?
  {
  }

  lemma OutcomeIs(t: Tables, g: DiGraph, u: Tables, h: DiGraph, ltype: LinkType, a: nat, b: nat, outcome: LinkOutcome)
    requires a < |t.cres| && b < |t.cres|
    requires !outcome.Added? ==> u == t
    requires outcome.Added? ==> u == WithRow(t, InternalLink(HigherEnd(ltype, a, b), LowerEnd(ltype, a, b), StoredType(ltype)))
    requires outcome.Known? ==> Joined(t, HigherEnd(ltype, a, b), LowerEnd(ltype, a, b))
    requires outcome.Cyclic? ==>
      HasPath(h.edges.Keys, CreVertex(t, LowerEnd(ltype, a, b)), CreVertex(t, HigherEnd(ltype, a, b)))
    ensures Outcome(t, g, u, h, ltype, a, b, outcome)
  {
  }

  // ---------------------------------------------------------------- acyclic whatever the tables hold

  /** If PartOf joins CREs only, the graph stays acyclic, whether or not it is in step with the tables. */
  ghost predicate CalmKept(g: DiGraph, h: DiGraph, doc: Document) {
    Calm(g) && PartOfJoinsCres(doc) ==> Calm(h)
  }

  lemma CalmFromBelow(g: DiGraph, h: DiGraph, doc: Document, i: nat)
    requires i < |doc.links| && CalmKept(g, h, doc.links[i].document)
    ensures CalmKept(g, h, doc)
  {
    hide Calm;
    if PartOfJoinsCres(doc) {
      CleanBelow(doc, i);
    }
  }

  lemma CalmAfterCall(g0: DiGraph, g1: DiGraph, g2: DiGraph, doc: Document)
    requires CalmKept(g0, g1, doc) || g0 == g1
    requires Calm(g1) ==> Calm(g2)
    ensures CalmKept(g0, g2, doc)
  {
    hide Calm, PartOfJoinsCres;
  }

  lemma CalmInTwoSteps(g0: DiGraph, g1: DiGraph, g2: DiGraph, doc: Document)
    requires CalmKept(g0, g1, doc) && CalmKept(g1, g2, doc)
    ensures CalmKept(g0, g2, doc)
  {
    hide Calm, PartOfJoinsCres;
  }

  lemma CalmByEdges(g: DiGraph, h: DiGraph)
    requires g.edges == h.edges
    ensures Calm(g) <==> Calm(h)
  {
  }

  /** One row of the pair, if there is any, gets the new type; otherwise a row is added. */
  ghost predicate LinkFiled(before: seq<NodeLink>, now: seq<NodeLink>, row: NodeLink) {
    if Linked(before, row.cre, row.node)
    then exists i :: 0 <= i < |before| && before[i].cre == row.cre && before[i].node == row.node && now == before[i := row]
    else now == before + [row]
  }

  lemma CresWithIs(cres: seq<CreRow>, doc: Document)
    ensures CresWith(cres, doc) == if FindCre(cres, doc) < |cres| then cres else cres + [CreRow(doc.name, doc.id)]
    ensures FindCre(cres, doc) < |cres| ==> SameCre(cres[FindCre(cres, doc)], doc)
    ensures SameCre(CreRow(doc.name, doc.id), doc)
  {
    hide FindCre;
  }

  lemma NewCreKeepsInStep(t: Tables, g: DiGraph, u: Tables, h: DiGraph)
    requires u == t.(cres := u.cres) && t.cres <= u.cres && h.edges == g.edges
    ensures InStep(t, g) && DistinctIds(u.cres) ==> InStep(u, h)
  {
    if InStep(t, g) && DistinctIds(u.cres) {
      assert forall row | row in t.internalLinks :: RowEdge(u, row) == RowEdge(t, row);
      assert TypedRows(u) == TypedRows(t);
    }
  }

  // ---------------------------------------------------------------- the calls against their specification

  lemma EdgeAccepted(row: CreRow, node: Document, ltype: LinkType, g: DiGraph)
    requires !node.doctype.CRE?
    ensures var added := AddGraphEdge(CreFromDb(row), Link(ltype, node), g);
      if row.name == node.name then added == Failure(SelfLink)
      else if LinksResources(ltype) then added.Success?
      else added == Failure(UnknownLinkType)
  {
  }

  lemma FiledAsSpecified(t: Tables, u: Tables, cre: nat, node: Document, ltype: LinkType, r: Result<(), CollectionError>)
    requires cre < |t.cres| && u == t.(nodeLinks := u.nodeLinks)
    requires LinkFiled(t.nodeLinks, u.nodeLinks, NodeLink(cre, node.id, ltype))
    requires Linked(t.nodeLinks, cre, node.id) ==> r.Success?
    requires !Linked(t.nodeLinks, cre, node.id) ==>
      if t.cres[cre].name == node.name then r == Failure(Refused(SelfLink))
      else if LinksResources(ltype) then r.Success?
      else r == Failure(Refused(UnknownLinkType))
    ensures AsSpecified(r, u, WithLink(ViewOf(t), cre, node, ltype))
    ensures NodeLink(cre, node.id, ltype) in u.nodeLinks
    ensures forall row | row in t.nodeLinks && row.ltype == ltype :: row in u.nodeLinks
  {
    LinkedPairs(t.nodeLinks);
    var row := NodeLink(cre, node.id, ltype);
    if Linked(t.nodeLinks, cre, node.id) {
      var i :| 0 <= i < |t.nodeLinks| && t.nodeLinks[i].cre == cre && t.nodeLinks[i].node == node.id && u.nodeLinks == t.nodeLinks[i := row];
      assert PairsOf(u.nodeLinks) == PairsOf(t.nodeLinks);
      assert u.nodeLinks[i] == row;
      forall x | x in t.nodeLinks && x.ltype == ltype ensures x in u.nodeLinks {
        var j :| 0 <= j < |t.nodeLinks| && t.nodeLinks[j] == x;
        assert u.nodeLinks[j] == x;
      }
    } else {
      assert PairsOf(u.nodeLinks) == PairsOf(t.nodeLinks) + [(cre, node.id)];
    }
  }

  lemma NothingAttempted(v: View, nodes: seq<Document>, ltype: LinkType)
    ensures forall cres: seq<nat> :: WithAttempts(v, Attempts(cres[..0], nodes), ltype) == Success(v)
  {
  }

  lemma AttemptsToCre(v: View, cre: nat, nodes: seq<Document>, ltype: LinkType)
    ensures var all := AttemptsOf(cre, nodes);
      && |all| == |nodes| && (forall k | 0 <= k < |nodes| :: all[k] == (cre, nodes[k]))
      && WithAttempts(v, all[..0], ltype) == Success(v)
  {
  }

  lemma Specified(v: View, all: seq<(nat, Document)>, ltype: LinkType, t: Tables)
    requires WithAttempts(v, all, ltype) == Success(ViewOf(t))
    ensures AsSpecified(Success(()), t, WithAttempts(v, all, ltype))
  {
  }

  lemma NextAttempts(t0: Tables, cres: seq<nat>, i: nat, nodes: seq<Document>, ltype: LinkType, t: Tables, u: Tables,
                     r: Result<(), CollectionError>)
    requires i < |cres| && WithAttempts(ViewOf(t0), Attempts(cres[..i], nodes), ltype) == Success(ViewOf(t))
    requires AsSpecified(r, u, WithAttempts(ViewOf(t), AttemptsOf(cres[i], nodes), ltype))
    ensures r.Success? ==> WithAttempts(ViewOf(t0), Attempts(cres[..i + 1], nodes), ltype) == Success(ViewOf(u))
    ensures r.Failure? ==> AsSpecified(r, u, WithAttempts(ViewOf(t0), Attempts(cres, nodes), ltype))
  {
    assert cres[..i + 1][..i] == cres[..i];
    var done, more := Attempts(cres[..i], nodes), AttemptsOf(cres[i], nodes);
    assert Attempts(cres[..i + 1], nodes) == done + more;
    hide WithAttempts, ViewOf, AttemptsOf, Attempts;
    AttemptsInTurn(ViewOf(t0), done, more, ltype);
    if r.Failure? {
      AttemptsBegin(cres, i + 1, nodes);
      assert Attempts(cres, nodes)[..|done + more|] == done + more;
      LinksFail(ViewOf(t0), Attempts(cres, nodes), |done + more|, ltype);
    }
  }

  lemma {:induction false} AttemptsInTurn(v: View, a: seq<(nat, Document)>, b: seq<(nat, Document)>, ltype: LinkType)
    ensures WithAttempts(v, a + b, ltype) ==
      match WithAttempts(v, a, ltype)
      case Failure(e) => Failure(e)
      case Success(u) => WithAttempts(u, b, ltype)
  {
    if b == [] {
      assert a + b == a;
    } else {
      AttemptsInTurn(v, a, b[..|b| - 1], ltype);
      assert (a + b)[..|a + b| - 1] == a + b[..|b| - 1];
    }
  }

  lemma {:induction false} AttemptsBegin(cres: seq<nat>, i: nat, nodes: seq<Document>)
    requires i <= |cres|
    ensures Attempts(cres[..i], nodes) <= Attempts(cres, nodes)
    decreases |cres|
  {
    if i == |cres| {
      assert cres[..i] == cres;
    } else {
      AttemptsBegin(cres[..|cres| - 1], i, nodes);
      assert cres[..|cres| - 1][..i] == cres[..i];
    }
  }

  lemma NextAttempt(v: View, all: seq<(nat, Document)>, i: nat, ltype: LinkType, t: Tables, u: Tables,
                    r: Result<(), CollectionError>)
    requires i < |all| && WithAttempts(v, all[..i], ltype) == Success(ViewOf(t))
    requires AsSpecified(r, u, WithLink(ViewOf(t), all[i].0, all[i].1, ltype))
    ensures r.Success? ==> WithAttempts(v, all[..i + 1], ltype) == Success(ViewOf(u))
    ensures r.Failure? ==> AsSpecified(r, u, WithAttempts(v, all, ltype))
  {
    OneMoreLink(v, all, i, ltype);
    hide WithAttempts, WithLink, ViewOf;
    if r.Failure? {
      LinksFail(v, all, i + 1, ltype);
    }
  }

  lemma NodeSteps(v: View, doc: Document)
    ensures WithNodeLinks(v, doc, 0) == Success((WithStored(v, doc), []))
    ensures WithNode(v, doc) == match WithNodeLinks(v, doc, |doc.links|)
      case Failure(e) => Failure(e)
      case Success(p) => Success(p.0)
  {
  }

  lemma NodeDone(v: View, doc: Document, t: Tables, unlinked: seq<Document>)
    requires WithNodeLinks(v, doc, |doc.links|) == Success((ViewOf(t), unlinked))
    ensures AsSpecified(Success(()), t, WithNode(v, doc))
  {
  }

  lemma OneMoreNodeLink(v: View, doc: Document, i: nat)
    requires i < |doc.links|
    ensures WithNodeLinks(v, doc, i + 1) ==
      match WithNodeLinks(v, doc, i)
      case Failure(e) => Failure(e)
      case Success((u, unlinked)) =>
        if doc.links[i].document.doctype.CRE? then
          match WithNamedCre(u, doc, i, unlinked)
          case Failure(e) => Failure(e)
          case Success(w) => Success((w, []))
        else
          match WithLinkedTree(u, doc, i, unlinked)
          case Failure(e) => Failure(e)
          case Success(w) => Success((w, if FindsNoCre(u, doc, i) then unlinked + [doc.links[i].document] else unlinked))
    ensures forall t, r: Result<(), CollectionError>, spec ::
      AsSpecified(r, t, spec) <==> if spec.Failure? then r == Failure(spec.error) else r.Success? && ViewOf(t) == spec.value
  {
    hide WithNamedCre, WithLinkedTree, FindsNoCre;
  }

  lemma NodeFails(v: View, doc: Document, i: nat)
    requires i <= |doc.links| && WithNodeLinks(v, doc, i).Failure?
    ensures WithNode(v, doc) == Failure(WithNodeLinks(v, doc, i).error)
    ensures forall t, r: Result<(), CollectionError> | r == Failure(WithNodeLinks(v, doc, i).error) :: AsSpecified(r, t, WithNode(v, doc))
  {
    NodeLinksFail(v, doc, i, |doc.links|);
  }

  lemma NamedCreStep(t: Tables, doc: Document, i: nat, unlinked: seq<Document>)
    requires i < |doc.links|
    ensures var name := doc.links[i].document.name;
      WithNamedCre(ViewOf(t), doc, i, unlinked) ==
        if name == "" || FirstNamed(t.cres, name) == |t.cres| then Failure(UnknownCre)
        else WithAttempts(ViewOf(t), Attempts([FirstNamed(t.cres, name)], [doc] + unlinked), doc.links[i].ltype)
    ensures forall u, r: Result<(), CollectionError> | r == Failure(UnknownCre) :: AsSpecified(r, u, Failure(UnknownCre))
  {
    hide WithAttempts, Attempts;
  }

  lemma LinkedNodeStep(t: Tables, doc: Document, i: nat, unlinked: seq<Document>)
    requires i < |doc.links|
    ensures
      var v, link := ViewOf(t), doc.links[i];
      var found, own, u := CresFound(v, link.document), CresLinked(v, PairsOf(t.nodeLinks), doc.id), WithStored(v, link.document);
      && (FindsNoCre(v, doc, i) <==> found == [] && own == [])
      && (found == [] && own == [] ==> WithLinkedNode(v, doc, i, unlinked) == Success(u))
      && (found != [] ==> WithLinkedNode(v, doc, i, unlinked) == WithAttempts(u, Attempts(found, [doc] + unlinked), link.ltype))
      && (found == [] && own != [] ==>
            WithLinkedNode(v, doc, i, unlinked) == WithAttempts(u, Attempts(own, [link.document] + unlinked), link.ltype))
      && WithLinkedTree(v, doc, i, unlinked) ==
           match WithLinkedNode(v, doc, i, unlinked)
           case Failure(e) => Failure(e)
           case Success(w) => if link.document.links == [] then Success(w) else WithNode(w, link.document)
    ensures forall u, r: Result<(), CollectionError>, spec ::
      AsSpecified(r, u, spec) <==> if spec.Failure? then r == Failure(spec.error) else r.Success? && ViewOf(u) == spec.value
    ensures forall u: Tables | u.cres == t.cres && u.nodeLinks == t.nodeLinks ::
      CresLinked(ViewOf(u), PairsOf(u.nodeLinks), doc.id) == CresLinked(ViewOf(t), PairsOf(t.nodeLinks), doc.id)
  {
    hide WithNode;
    forall u: Tables | u.cres == t.cres && u.nodeLinks == t.nodeLinks
      ensures CresLinked(ViewOf(u), PairsOf(u.nodeLinks), doc.id) == CresLinked(ViewOf(t), PairsOf(t.nodeLinks), doc.id)
    {
      OnlyCresMatter(ViewOf(u), ViewOf(t), PairsOf(t.nodeLinks), doc.id);
    }
    assert Attempts([], [doc.links[i].document] + unlinked) == [];
  }

  lemma CalmBelow(g: DiGraph, h: DiGraph, doc: Document, i: nat)
    requires i < |doc.links| && CalmKept(g, h, doc.links[i].document)
    ensures PartOfJoinsCres(doc) ==> PartOfJoinsCres(doc.links[i].document) && (Calm(g) ==> Calm(h))
  {
    hide Calm;
    if PartOfJoinsCres(doc) {
      CleanBelow(doc, i);
    }
  }

  lemma CalmIsKept(g: DiGraph, h: DiGraph, doc: Document)
    requires CalmKept(g, h, doc)
    ensures Calm(g) && PartOfJoinsCres(doc) ==> Calm(h)
  {
  }

  lemma CresStay(cres: seq<CreRow>, more: seq<CreRow>, i: nat)
    requires cres <= more && i < |cres|
    ensures i < |more| && more[i] == cres[i]
  {
  }

  lemma CreLinkFails(t0: Tables, t1: Tables, rows: seq<InternalLink>, doc: Document, i: nat, registered: Result<(nat, bool), CollectionError>)
    requires i < |doc.links| && doc.links[i].document.doctype.CRE?
    ensures registered.Failure? && AsSpecified(registered, t1, WithCre(ViewOf(t0), rows, doc.links[i].document)) ==>
      AsSpecified<()>(Failure(registered.error), t1, WithCreLink(ViewOf(t0), rows, doc, i))
    ensures registered.Success? && AsSpecified(registered, t1, WithCre(ViewOf(t0), rows, doc.links[i].document)) ==>
      WithCre(ViewOf(t0), rows, doc.links[i].document) == Success(ViewOf(t1))
  {
    hide WithCre;
  }

  lemma JoinedAsSpecified(t0: Tables, t1: Tables, u: Tables, rows: seq<InternalLink>, doc: Document, i: nat, cre: nat,
                          other: nat, linked: Result<LinkOutcome, CollectionError>, calm: bool)
    requires i < |doc.links| && doc.links[i].document.doctype.CRE? && RowsSince(rows, t1)
    requires cre < |t1.cres| && other < |t1.cres| && cre == FindCre(t1.cres, doc) && other == FindCre(t1.cres, doc.links[i].document)
    requires
      var l := doc.links[i].ltype;
      if !RegistersJoin(l) then linked == Failure(UnknownLink)
      else
        var a, b := HigherEnd(l, cre, other), LowerEnd(l, cre, other);
        calm ==>
          && (linked.Failure? <==> !Joined(t1, a, b) && t1.cres[a].name == t1.cres[b].name)
          && (linked.Failure? ==> linked.error == Refused(SelfLink))
    requires linked != Success(Added) ==> u == t1
    requires linked == Success(Added) ==>
      && RegistersJoin(doc.links[i].ltype)
      && var l := doc.links[i].ltype;
         var a, b := HigherEnd(l, cre, other), LowerEnd(l, cre, other);
         u == WithRow(t1, InternalLink(a, b, StoredType(l))) && t1.cres[a].name != t1.cres[b].name
    ensures RowsSince(rows, u)
    ensures calm && WithCre(ViewOf(t0), rows, doc.links[i].document) == Success(ViewOf(t1)) ==>
      AsSpecified<()>(if linked.Failure? then Failure(linked.error) else Success(()), u, WithCreLink(ViewOf(t0), rows, doc, i))
  {
    var l := doc.links[i].ltype;
    hide WithCre, FindCre;
    JoinedEitherWay(t1.internalLinks, cre, other);
    if t1.cres[cre].name == t1.cres[other].name {
      SameNamesJoinedBefore(rows, t1, cre, other);
    }
    assert ViewOf(u) == ViewOf(t1);
    if linked == Success(Added) {
      assert forall row | row in t1.internalLinks :: row in u.internalLinks;
    }
    hide JoinedIn, RowsSince, ViewOf;
  }

  lemma ResourceLinkStep(t0: Tables, t1: Tables, rows: seq<InternalLink>, doc: Document, i: nat, r: Result<(), CollectionError>)
    requires i < |doc.links| && !doc.links[i].document.doctype.CRE?
    requires AsSpecified(r, t1, WithNode(ViewOf(t0), doc.links[i].document))
    ensures r.Failure? ==> AsSpecified(r, t1, WithCreLink(ViewOf(t0), rows, doc, i))
    ensures r.Success? ==>
      WithCreLink(ViewOf(t0), rows, doc, i) == WithLink(ViewOf(t1), FindCre(t1.cres, doc), doc.links[i].document, doc.links[i].ltype)
  {
    hide WithNode, WithLink, FindCre;
  }

  lemma CreSteps(t: Tables, rows: seq<InternalLink>, doc: Document)
    ensures var v := ViewOf(t).(cres := CresWith(t.cres, doc));
      && WithCreLinks(v, rows, doc, 0) == Success(v)
      && WithCre(ViewOf(t), rows, doc) ==
           if StartsWithCreId(doc.id) then WithCreLinks(v, rows, doc, |doc.links|) else Failure(InvalidCreId)
    ensures !StartsWithCreId(doc.id) ==> AsSpecified<(nat, bool)>(Failure(InvalidCreId), t, WithCre(ViewOf(t), rows, doc))
  {
    hide StartsWithCreId, CresWith;
  }

  lemma CreAdded(t: Tables, u: Tables, rows: seq<InternalLink>, doc: Document)
    requires u == t.(cres := CresWith(t.cres, doc)) && RowsSince(rows, t)
    ensures ViewOf(u) == ViewOf(t).(cres := CresWith(t.cres, doc)) && RowsSince(rows, u)
  {
    CresGrow(t.cres, doc);
    RowsSinceKept(rows, t, u);
  }

  lemma WrittenKeepsRows(t: Tables, g: DiGraph, u: Tables, h: DiGraph, doc: Document, rows: seq<InternalLink>)
    requires NodesWritten(t, g, u, h, doc) && RowsSince(rows, t)
    ensures RowsSince(rows, u)
  {
    RowsSinceKept(rows, t, u);
  }

  lemma OneMoreCreLink(v: View, t: Tables, u: Tables, rows: seq<InternalLink>, doc: Document, i: nat,
                       linked: Result<(), CollectionError>, calm: bool)
    requires i < |doc.links|
    requires calm ==> WithCreLinks(v, rows, doc, i) == Success(ViewOf(t))
    requires calm ==> AsSpecified(linked, u, WithCreLink(ViewOf(t), rows, doc, i))
    ensures calm && linked.Success? ==> WithCreLinks(v, rows, doc, i + 1) == Success(ViewOf(u))
    ensures calm && linked.Failure? ==> WithCreLinks(v, rows, doc, i + 1) == Failure(linked.error)
  {
    hide WithCreLink, ViewOf;
  }

  lemma CreFails(v: View, t: Tables, u: Tables, rows: seq<InternalLink>, doc: Document, i: nat,
                 r: Result<(nat, bool), CollectionError>, calm: bool)
    requires i < |doc.links| && r.Failure? && v == ViewOf(t).(cres := CresWith(t.cres, doc)) && StartsWithCreId(doc.id)
    requires calm ==> WithCreLinks(v, rows, doc, i + 1) == Failure(r.error)
    ensures calm ==> AsSpecified(r, u, WithCre(ViewOf(t), rows, doc))
  {
    CreSteps(t, rows, doc);
    if calm {
      CreLinksFail(v, rows, doc, i + 1, |doc.links|);
    }
    hide WithCre, WithCreLinks, ViewOf, CresWith;
  }

  lemma CreDone(v: View, t: Tables, u: Tables, rows: seq<InternalLink>, doc: Document, r: Result<(nat, bool), CollectionError>)
    requires r.Success? && v == ViewOf(t).(cres := CresWith(t.cres, doc)) && StartsWithCreId(doc.id)
    ensures WithCreLinks(v, rows, doc, |doc.links|) == Success(ViewOf(u)) ==> AsSpecified(r, u, WithCre(ViewOf(t), rows, doc))
  {
    CreSteps(t, rows, doc);
    hide WithCre, WithCreLinks, ViewOf, CresWith;
  }

  lemma NoDocumentYet(t: Tables, docs: seq<Document>)
    ensures RowsSince(t.internalLinks, t) && WithAll(ViewOf(t), t.internalLinks, docs[..0]) == Success(ViewOf(t))
  {
  }

  lemma OneMoreRegistered(v: View, t: Tables, u: Tables, rows: seq<InternalLink>, docs: seq<Document>, i: nat,
                          registered: Result<(nat, bool), CollectionError>, calm: bool)
    requires i < |docs|
    requires calm ==> WithAll(v, rows, docs[..i]) == Success(ViewOf(t))
    requires calm ==> AsSpecified(registered, u, WithCre(ViewOf(t), rows, docs[i]))
    ensures calm && registered.Success? ==> WithAll(v, rows, docs[..i + 1]) == Success(ViewOf(u))
    ensures calm && registered.Failure? ==> AsSpecified<()>(Failure(registered.error), u, WithAll(v, rows, docs))
  {
    assert docs[..i + 1][..i] == docs[..i];
    hide WithCre, ViewOf;
    if calm && registered.Failure? {
      AllFail(v, rows, docs, i + 1);
    }
  }

  lemma AllRegistered(v: View, t: Tables, rows: seq<InternalLink>, docs: seq<Document>, calm: bool)
    requires calm ==> WithAll(v, rows, docs[..|docs|]) == Success(ViewOf(t))
    ensures calm ==> AsSpecified<()>(Success(()), t, WithAll(v, rows, docs))
  {
    assert docs[..|docs|] == docs;
  }

  lemma {:induction false} OnlyCresMatter(u: View, v: View, linked: seq<(nat, string)>, id: string)
    requires u.cres == v.cres
    ensures CresLinked(u, linked, id) == CresLinked(v, linked, id)
  {
    if linked != [] {
      OnlyCresMatter(u, v, linked[..|linked| - 1], id);
    }
  }

  class Collection {
    var tables: Tables
    const graph: CreGraph

    constructor (tables: Tables, graph: CreGraph)
      ensures this.tables == tables && this.graph == graph
    {
      this.tables, this.graph := tables, graph;
    }

    /** Finds or inserts the CRE; a new one also becomes a vertex. */
    method AddCre(doc: Document) returns (cre: nat)
      requires doc.doctype.CRE?
      modifies this, graph
      ensures tables == old(tables).(cres := CresWith(old(tables.cres), doc))
      ensures cre < |tables.cres| && SameCre(tables.cres[cre], doc) && cre == FindCre(tables.cres, doc)
      ensures graph.graph.edges == old(graph.graph.edges)
      ensures old(Calm(graph.graph)) ==> Calm(graph.graph)
      ensures old(InStep(tables, graph.graph)) && DistinctIds(tables.cres) ==> InStep(tables, graph.graph)
    {
      hide *;
      ghost var t, g := tables, graph.graph;
      cre := FindCre(tables.cres, doc);
      FoundAfterwards(t.cres, doc);
      CresWithIs(t.cres, doc);
      if cre == |tables.cres| {
        tables := tables.(cres := tables.cres + [CreRow(doc.name, doc.id)]);
        graph.AddDocument(doc);
        CalmByEdges(g, graph.graph);
        NewCreKeepsInStep(t, g, tables, graph.graph);
      }
    }

    /**
     Writes a row and an edge together, or neither. In step, a pair that no row joins is refused as
     cyclic exactly when the lower CRE already leads to the higher one.
     */
    method AddInternalLink(higher: nat, lower: nat, ltype: LinkType) returns (r: Result<LinkOutcome, CollectionError>)
      requires higher < |tables.cres| && lower < |tables.cres|
      modifies this, graph
      ensures r != Success(Added) ==> tables == old(tables) && graph.graph == old(graph.graph)
      ensures r == Success(Added) ==>
        && tables == WithRow(old(tables), InternalLink(higher, lower, ltype))
        && AddGraphEdge(CreFromDb(old(tables).cres[higher]), Link(ltype, CreFromDb(old(tables).cres[lower])),
                        old(graph.graph)) == Success(graph.graph)
      ensures r == Success(Added) ==> old(tables).cres[higher].name != old(tables).cres[lower].name
      ensures old(Calm(graph.graph)) ==> Calm(graph.graph)
      ensures r == Success(Known) <==> !ltype.PartOf? && Joined(old(tables), higher, lower)
      ensures ltype.PartOf? <==> r == Failure(PartOfNotSupported)
      ensures old(Calm(graph.graph)) && KnownToGraph(ltype) ==>
        && (r.Failure? <==> !Joined(old(tables), higher, lower) && old(tables).cres[higher].name == old(tables).cres[lower].name)
        && (r.Failure? ==> r.error == Refused(SelfLink))
      ensures old(graph.graph.edges.Keys) <= graph.graph.edges.Keys
      ensures r == Success(Cyclic) ==>
        HasPath(graph.graph.edges.Keys, CreVertex(tables, lower), CreVertex(tables, higher))
      ensures old(InStep(tables, graph.graph)) ==> InStep(tables, graph.graph)
      ensures old(InStep(tables, graph.graph)) && !ltype.PartOf? && !Joined(old(tables), higher, lower) ==>
        var distinctNames := old(tables).cres[higher].name != old(tables).cres[lower].name;
        && (r.Failure? <==> !distinctNames || !KnownToGraph(ltype))
        && (r == Success(Cyclic) <==>
              (distinctNames && KnownToGraph(ltype)
              && HasPath(old(graph.graph).edges.Keys, CreVertex(old(tables), lower), CreVertex(old(tables), higher))))
    {
      if ltype.PartOf? {
        return Failure(PartOfNotSupported);
      }
      if exists row | row in tables.internalLinks ::
           (row.cre == lower && row.group == higher) || (row.cre == higher && row.group == lower) {
        assert Joined(tables, higher, lower);
        return Success(Known);
      }
      assert !Joined(tables, higher, lower);
      var higherCre, link := CreFromDb(tables.cres[higher]), Link(ltype, CreFromDb(tables.cres[lower]));
      if InStep(tables, graph.graph) {
        NoRowNoEdge(tables, graph.graph, lower, higher);
      }
      var added := graph.AddLink(higherCre, link);
      if added.Failure? {
        if added.error == CycleDetected {
          return Success(Cyclic);
        }
        return Failure(Refused(added.error));
      }
      tables := WithRow(tables, InternalLink(higher, lower, ltype));
      if old(Calm(graph.graph)) {
        SafeLinkKeepsCalm(higherCre, link, old(graph.graph));
      }
      if old(InStep(tables, graph.graph)) {
        NewRowKeepsInStep(old(tables), old(graph.graph), InternalLink(higher, lower, ltype));
      }
      r := Success(Added);
    }

    /** Links a CRE to a resource; a known pair only gets the new type, which the graph does not see. */
    method AddLink(cre: nat, node: Document, ltype: LinkType) returns (r: Result<(), CollectionError>)
      requires cre < |tables.cres|
      modifies this, graph
      ensures tables == old(tables).(nodeLinks := tables.nodeLinks)
      ensures LinkFiled(old(tables.nodeLinks), tables.nodeLinks, NodeLink(cre, node.id, ltype))
      ensures Linked(old(tables.nodeLinks), cre, node.id) ==>
        r.Success? && graph.graph == old(graph.graph)
      ensures !Linked(old(tables.nodeLinks), cre, node.id) && !node.doctype.CRE? ==>
        var added := AddGraphEdge(CreFromDb(tables.cres[cre]), Link(ltype, node), old(graph.graph));
        && (r.Success? <==> added.Success?) && (r.Failure? ==> r.error == Refused(added.error))
        && graph.graph == if added.Success? then added.value else old(graph.graph)
      ensures old(Calm(graph.graph)) && (ltype.PartOf? ==> node.doctype.CRE?) ==> Calm(graph.graph)
      ensures old(graph.graph.edges.Keys) <= graph.graph.edges.Keys
      ensures old(InStep(tables, graph.graph)) && !node.doctype.CRE? && !ltype.PartOf? ==> InStep(tables, graph.graph)
    {
      if i :| 0 <= i < |tables.nodeLinks| && tables.nodeLinks[i].cre == cre && tables.nodeLinks[i].node == node.id {
        assert Linked(tables.nodeLinks, cre, node.id);
        tables := tables.(nodeLinks := tables.nodeLinks[i := NodeLink(cre, node.id, ltype)]);
        if old(InStep(tables, graph.graph)) {
          OtherTablesDoNotMatter(old(tables), graph.graph, tables, graph.graph);
        }
        return Success(());
      }
      tables := tables.(nodeLinks := tables.nodeLinks + [NodeLink(cre, node.id, ltype)]);
      if old(InStep(tables, graph.graph)) {
        OtherTablesDoNotMatter(old(tables), graph.graph, tables, graph.graph);
      }
      ghost var before := graph.graph;
      var from, link := CreFromDb(tables.cres[cre]), Link(ltype, node);
      var added := graph.AddLink(from, link);
      if added.Failure? {
        return Failure(Refused(added.error));
      }
      if old(Calm(graph.graph)) && (ltype.PartOf? ==> node.doctype.CRE?) {
        SafeLinkKeepsCalm(from, link, before);
      }
      if old(InStep(tables, graph.graph)) && !node.doctype.CRE? && !ltype.PartOf? {
        NodeLinkKeepsInStep(tables, before, from, link, tables);
      }
      r := Success(());
    }

    /** Stores the resource itself, without following its own links. */
    method AddNode(node: Document)
      modifies this, graph
      ensures node.id in old(tables.nodes) ==> tables == old(tables)
      ensures node.id !in old(tables.nodes) ==>
        tables == old(tables).(nodes := old(tables.nodes)[node.id := node.(links := [])])
      ensures graph.graph.edges == old(graph.graph.edges)
      ensures old(Calm(graph.graph)) ==> Calm(graph.graph)
      ensures old(InStep(tables, graph.graph)) && !node.doctype.CRE? ==> InStep(tables, graph.graph)
    {
      if node.id !in tables.nodes {
        tables := tables.(nodes := tables.nodes[node.id := node.(links := [])]);
      }
      graph.AddDocument(node);
      CalmByEdges(old(graph.graph), graph.graph);
      if old(InStep(tables, graph.graph)) && !node.doctype.CRE? {
        OtherTablesDoNotMatter(old(tables), old(graph.graph), tables, graph.graph);
      }
    }

    method StoreNode(node: Document, ghost doc: Document)
      requires !node.doctype.CRE?
      modifies this, graph
      ensures NodesWritten(old(tables), old(graph.graph), tables, graph.graph, doc)
      ensures node.id in tables.nodes && tables.nodeLinks == old(tables.nodeLinks)
      ensures ViewOf(tables) == WithStored(ViewOf(old(tables)), node)
    {
      ghost var t0, g0 := tables, graph.graph;
      AddNode(node);
      assert tables.nodes.Keys == t0.nodes.Keys + {node.id};
      hide InStep, Calm, NodesWritten;
      NodeIsWritten(t0, g0, tables, graph.graph, doc);
    }

    /** Links the resource, and after it each resource that is still without a CRE, to the CREs. */
    method LinkAll(cres: seq<nat>, node: Document, unlinked: seq<Document>, ltype: LinkType, ghost doc: Document)
      returns (r: Result<(), CollectionError>)
      requires forall c | c in cres :: c < |tables.cres|
      requires !node.doctype.CRE? && ResourceIn(doc, node.id)
      requires forall u | u in unlinked :: !u.doctype.CRE? && ResourceIn(doc, u.id)
      requires PartOfJoinsCres(doc) ==> !ltype.PartOf?
      modifies this, graph
      ensures NodesWritten(old(tables), old(graph.graph), tables, graph.graph, doc)
      ensures r.Success? ==> forall c, u | c in cres && u in [node] + unlinked ::
        Linked(tables.nodeLinks, c, u.id) && NodeLink(c, u.id, ltype) in tables.nodeLinks
      ensures AsSpecified(r, tables, WithAttempts(ViewOf(old(tables)), Attempts(cres, [node] + unlinked), ltype))
    {
      hide *;
      ghost var t0, g0 := tables, graph.graph;
      ghost var nodes := [node] + unlinked;
      NothingAttempted(ViewOf(t0), nodes, ltype);
      NothingWritten(t0, g0, doc);
      for i := 0 to |cres|
        invariant NodesWritten(t0, g0, tables, graph.graph, doc) && tables.cres == t0.cres
        invariant forall j, u | 0 <= j < i && u in nodes :: Linked(tables.nodeLinks, cres[j], u.id)
        invariant forall j, u | 0 <= j < i && u in nodes :: NodeLink(cres[j], u.id, ltype) in tables.nodeLinks
        invariant WithAttempts(ViewOf(t0), Attempts(cres[..i], nodes), ltype) == Success(ViewOf(tables))
      {
        assert cres[i] in cres;
        ghost var t1 := tables;
        r := LinkToCre(cres[i], node, unlinked, ltype, doc, t0, g0);
        NextAttempts(t0, cres, i, nodes, ltype, t1, tables, r);
        if r.Failure? {
          return;
        }
      }
      assert cres[..|cres|] == cres;
      r := Success(());
      Specified(ViewOf(t0), Attempts(cres, nodes), ltype, tables);
    }

    method LinkToCre(cre: nat, node: Document, unlinked: seq<Document>, ltype: LinkType, ghost doc: Document,
                     ghost t0: Tables, ghost g0: DiGraph)
      returns (r: Result<(), CollectionError>)
      requires cre < |tables.cres| && !node.doctype.CRE? && ResourceIn(doc, node.id)
      requires forall u | u in unlinked :: !u.doctype.CRE? && ResourceIn(doc, u.id)
      requires PartOfJoinsCres(doc) ==> !ltype.PartOf?
      requires NodesWritten(t0, g0, tables, graph.graph, doc)
      modifies this, graph
      ensures NodesWritten(t0, g0, tables, graph.graph, doc) && tables.cres == old(tables.cres)
      ensures r.Success? ==> forall u | u in [node] + unlinked ::
        Linked(tables.nodeLinks, cre, u.id) && NodeLink(cre, u.id, ltype) in tables.nodeLinks
      ensures forall c, id | old(Linked(tables.nodeLinks, c, id)) :: Linked(tables.nodeLinks, c, id)
      ensures forall row | row in old(tables.nodeLinks) && row.ltype == ltype :: row in tables.nodeLinks
      ensures AsSpecified(r, tables, WithAttempts(ViewOf(old(tables)), AttemptsOf(cre, [node] + unlinked), ltype))
    {
      hide *;
      ghost var v, nodes := ViewOf(tables), [node] + unlinked;
      ghost var all := AttemptsOf(cre, nodes);
      AttemptsToCre(v, cre, nodes, ltype);
      ghost var t1 := tables;
      r := LinkOne(cre, node, ltype, doc, t0, g0);
      NextAttempt(v, all, 0, ltype, t1, tables, r);
      if r.Failure? {
        return;
      }
      for k := 0 to |unlinked|
        invariant NodesWritten(t0, g0, tables, graph.graph, doc) && tables.cres == t1.cres
        invariant forall m | 0 <= m <= k :: Linked(tables.nodeLinks, cre, nodes[m].id)
        invariant forall m | 0 <= m <= k :: NodeLink(cre, nodes[m].id, ltype) in tables.nodeLinks
        invariant forall c, id | Linked(t1.nodeLinks, c, id) :: Linked(tables.nodeLinks, c, id)
        invariant forall row | row in t1.nodeLinks && row.ltype == ltype :: row in tables.nodeLinks
        invariant WithAttempts(v, all[..k + 1], ltype) == Success(ViewOf(tables))
      {
        assert unlinked[k] in unlinked && nodes[k + 1] == unlinked[k];
        ghost var t2 := tables;
        r := LinkOne(cre, unlinked[k], ltype, doc, t0, g0);
        NextAttempt(v, all, k + 1, ltype, t2, tables, r);
        if r.Failure? {
          return;
        }
      }
      assert all[..|nodes|] == all;
      r := Success(());
      Specified(v, all, ltype, tables);
    }

    method LinkOne(cre: nat, node: Document, ltype: LinkType, ghost doc: Document, ghost t0: Tables, ghost g0: DiGraph)
      returns (r: Result<(), CollectionError>)
      requires cre < |tables.cres| && !node.doctype.CRE? && ResourceIn(doc, node.id)
      requires PartOfJoinsCres(doc) ==> !ltype.PartOf?
      requires NodesWritten(t0, g0, tables, graph.graph, doc)
      modifies this, graph
      ensures NodesWritten(t0, g0, tables, graph.graph, doc) && tables.cres == old(tables.cres)
      ensures Linked(tables.nodeLinks, cre, node.id) && NodeLink(cre, node.id, ltype) in tables.nodeLinks
      ensures forall c, id | old(Linked(tables.nodeLinks, c, id)) :: Linked(tables.nodeLinks, c, id)
      ensures forall row | row in old(tables.nodeLinks) && row.ltype == ltype :: row in tables.nodeLinks
      ensures AsSpecified(r, tables, WithLink(ViewOf(old(tables)), cre, node, ltype))
    {
      ghost var t1, g1 := tables, graph.graph;
      EdgeAccepted(t1.cres[cre], node, ltype, g1);
      r := AddLink(cre, node, ltype);
      FiledAsSpecified(t1, tables, cre, node, ltype, r);
      hide InStep, Calm, Linked, LinkFiled, NodesWritten, ResourceIn, PartOfJoinsCres;
      LinkIsWritten(t1, g1, tables, graph.graph, doc, NodeLink(cre, node.id, ltype));
      WrittenGrows(t1, g1, tables, graph.graph, doc);
      WrittenInTwoSteps(t0, g0, t1, g1, tables, graph.graph, doc);
    }

    /**
     Stores a resource and follows its links: CREs are found by name and linked; of two linked resources
     the one without a CRE gets the CREs of the other, and resources that wait for a CRE get the next one
     that turns up. Whatever happens, only resources and their links are written, and only for resources
     of the document.
     */
    method RegisterNode(doc: Document) returns (r: Result<(), CollectionError>)
      requires !doc.doctype.CRE?
      modifies this, graph
      decreases doc, 1
      ensures NodesWritten(old(tables), old(graph.graph), tables, graph.graph, doc)
      ensures r.Success? ==> NodeCovered(tables, doc) && (old(HasCre(tables, doc.id)) ==> AllShareCre(tables, doc))
      ensures AsSpecified(r, tables, WithNode(ViewOf(old(tables)), doc))
    {
      hide *;
      ghost var v := ViewOf(tables);
      NodeSteps(v, doc);
      ghost var t0, g0 := tables, graph.graph;
      ghost var had := HasCre(t0, doc.id);
      StoreNode(doc, doc);
      WrittenGrows(t0, g0, tables, graph.graph, doc);
      SharesStay(t0, tables, doc);
      StoredIsCovered(tables, doc);
      NothingMapped(tables, doc, had);
      var unlinked: seq<Document> := [];
      for i := 0 to |doc.links|
        invariant NodesWritten(t0, g0, tables, graph.graph, doc)
        invariant NodeCoveredUpTo(tables, doc, i)
        invariant Mapped(tables, doc, i, unlinked, had)
        invariant forall u | u in unlinked :: !u.doctype.CRE? && ResourceIn(doc, u.id)
        invariant WithNodeLinks(v, doc, i) == Success((ViewOf(tables), unlinked))
      {
        OneMoreNodeLink(v, doc, i);
        ghost var t1, g1, waiting := tables, graph.graph, unlinked;
        if doc.links[i].document.doctype.CRE? {
          r := RegisterNamedCre(doc, i, unlinked);
          unlinked := [];
        } else {
          r, unlinked := RegisterLinkedNode(doc, i, unlinked);
        }
        WrittenInTwoSteps(t0, g0, t1, g1, tables, graph.graph, doc);
        if r.Failure? {
          NodeFails(v, doc, i + 1);
          return;
        }
        WrittenGrows(t1, g1, tables, graph.graph, doc);
        MappedStays(t1, tables, doc, i, waiting, had);
        if doc.links[i].document.doctype.CRE? {
          MappedNamedCre(tables, doc, i, waiting, had);
        } else {
          MappedEitherWay(t1, tables, doc, doc.links[i].document);
          MappedLinkedNode(t1, tables, doc, i, waiting, unlinked, had);
        }
        NodeCoveredStays(t1, tables, doc, i);
        OneMoreNodeCovered(tables, doc, i);
      }
      AllMapped(tables, doc, unlinked, had);
      NodeDone(v, doc, tables, unlinked);
      r := Success(());
    }

    method RegisterNamedCre(doc: Document, i: nat, unlinked: seq<Document>) returns (r: Result<(), CollectionError>)
      requires !doc.doctype.CRE? && i < |doc.links| && doc.links[i].document.doctype.CRE?
      requires forall u | u in unlinked :: !u.doctype.CRE? && ResourceIn(doc, u.id)
      modifies this, graph
      ensures NodesWritten(old(tables), old(graph.graph), tables, graph.graph, doc)
      ensures r.Success? ==> NamedIsLinked(tables, doc.links[i].document.name, doc.id)
      ensures r.Success? ==> forall u | u in unlinked :: NamedIsLinked(tables, doc.links[i].document.name, u.id)
      ensures AsSpecified(r, tables, WithNamedCre(ViewOf(old(tables)), doc, i, unlinked))
    {
      var name := doc.links[i].document.name;
      var cre := FirstNamed(tables.cres, name);
      ghost var t0, g0 := tables, graph.graph;
      NamedCreStep(tables, doc, i, unlinked);
      hide *;
      if name == "" || cre == |tables.cres| {
        NothingWritten(tables, graph.graph, doc);
        return Failure(UnknownCre);
      }
      ResourceBelow(doc, i);
      r := LinkAll([cre], doc, unlinked, doc.links[i].ltype, doc);
      WrittenGrows(t0, g0, tables, graph.graph, doc);
      if r.Success? {
        assert cre in [cre];
        NamedCreIsLinked(tables, name, doc.id);
        forall u | u in unlinked ensures NamedIsLinked(tables, name, u.id) {
          NamedCreIsLinked(tables, name, u.id);
        }
      }
    }

    method RegisterLinkedNode(doc: Document, i: nat, unlinked0: seq<Document>)
      returns (r: Result<(), CollectionError>, unlinked: seq<Document>)
      requires !doc.doctype.CRE? && i < |doc.links| && !doc.links[i].document.doctype.CRE?
      requires forall u | u in unlinked0 :: !u.doctype.CRE? && ResourceIn(doc, u.id)
      modifies this, graph
      decreases doc, 0
      ensures NodesWritten(old(tables), old(graph.graph), tables, graph.graph, doc)
      ensures forall u | u in unlinked :: !u.doctype.CRE? && ResourceIn(doc, u.id)
      ensures r.Success? ==> NodeCovered(tables, doc.links[i].document)
      ensures r.Success? ==> forall c | c in CresFound(ViewOf(old(tables)), doc.links[i].document) :: Linked(tables.nodeLinks, c, doc.id)
      ensures r.Success? && CresFound(ViewOf(old(tables)), doc.links[i].document) == [] ==>
        forall c: nat | c < |tables.cres| && old(Linked(tables.nodeLinks, c, doc.id)) ::
          Linked(tables.nodeLinks, c, doc.links[i].document.id)
      ensures unlinked == if CresFound(ViewOf(old(tables)), doc.links[i].document) == [] && !old(HasCre(tables, doc.id))
        then unlinked0 + [doc.links[i].document] else unlinked0
      ensures FindsNoCre(ViewOf(old(tables)), doc, i) <==>
        CresFound(ViewOf(old(tables)), doc.links[i].document) == [] && !old(HasCre(tables, doc.id))
      ensures AsSpecified(r, tables, WithLinkedTree(ViewOf(old(tables)), doc, i, unlinked0))
    {
      LinkedNodeStep(tables, doc, i, unlinked0);
      hide *;
      var link := doc.links[i];
      ResourceBelow(doc, i);
      ghost var t0, g0 := tables, graph.graph;
      unlinked := unlinked0;
      var cres := CresFound(ViewOf(tables), link.document);
      LinkedCres(tables, link.document);
      LinkedCres(tables, doc);
      HasCreIff(tables, doc.id);
      StoreNode(link.document, doc);
      ghost var t1, g1 := tables, graph.graph;
      WrittenGrows(t0, g0, t1, g1, doc);
      NothingWritten(t1, g1, doc);
      r := Success(());
      if cres != [] {
        r := LinkAll(cres, doc, unlinked, link.ltype, doc);
      } else {
        cres := CresLinked(ViewOf(tables), PairsOf(tables.nodeLinks), doc.id);
        if cres != [] {
          r := LinkAll(cres, link.document, unlinked, link.ltype, doc);
        } else {
          unlinked := unlinked + [link.document];
        }
      }
      ghost var t2, g2 := tables, graph.graph;
      WrittenInTwoSteps(t0, g0, t1, g1, t2, g2, doc);
      WrittenGrows(t1, g1, t2, g2, doc);
      if r.Failure? {
        return;
      }
      if link.document.links != [] {
        r := RegisterNode(link.document);
        WrittenFromBelow(t2, g2, tables, graph.graph, doc, i);
        WrittenGrows(t2, g2, tables, graph.graph, doc);
        WrittenInTwoSteps(t0, g0, t2, g2, tables, graph.graph, doc);
      } else {
        StoredIsCovered(tables, link.document);
      }
    }

    /** Registers a linked CRE and then the link, from the higher CRE to the lower one. */
    method RegisterCreLink(doc: Document, cre: nat, i: nat, ghost rows: seq<InternalLink>) returns (r: Result<(), CollectionError>)
      requires cre < |tables.cres| && SameCre(tables.cres[cre], doc) && cre == FindCre(tables.cres, doc)
      requires i < |doc.links| && doc.links[i].document.doctype.CRE? && RowsSince(rows, tables)
      modifies this, graph
      decreases doc, 0
      ensures Sound(old(tables), old(graph.graph), tables, graph.graph, doc)
      ensures CalmKept(old(graph.graph), graph.graph, doc)
      ensures r.Success? ==> Settled(tables, graph.graph, doc, doc.links[i]) && Covered(tables, graph.graph, doc.links[i].document)
      ensures RowsSince(rows, tables)
      ensures old(Calm(graph.graph)) && PartOfJoinsCres(doc) ==>
        AsSpecified(r, tables, WithCreLink(ViewOf(old(tables)), rows, doc, i))
    {
      hide *;
      ghost var t0, g0 := tables, graph.graph;
      var link := doc.links[i];
      var registered := RegisterCre(link.document, rows);
      ghost var t1, g1 := tables, graph.graph;
      CalmBelow(g0, g1, doc, i);
      CreLinkFails(t0, t1, rows, doc, i, registered);
      CalmFromBelow(g0, g1, doc, i);
      SoundFromBelow(t0, g0, t1, g1, doc, i);
      SoundParts(t0, g0, t1, g1, doc);
      if registered.Failure? {
        return Failure(registered.error);
      }
      var other := registered.value.0;
      HigherAndLower(link.ltype, cre, other);
      FindCreStays(t0.cres, t1.cres, doc);
      CresStay(t0.cres, t1.cres, cre);
      var linked: Result<LinkOutcome, CollectionError>;
      match link.ltype {
        case Contains => linked := AddInternalLink(cre, other, Contains);
        case PartOf => linked := AddInternalLink(other, cre, Contains);
        case Related => linked := AddInternalLink(other, cre, Related);
        case _ => linked := Failure(UnknownLink);
      }
      CalmAfterCall(g0, g1, graph.graph, doc);
      JoinedAsSpecified(t0, t1, tables, rows, doc, i, cre, other, linked, Calm(g1));
      if linked.Failure? {
        StillSound(t1, g1, tables, graph.graph, doc);
        SoundInTwoSteps(t0, g0, t1, g1, tables, graph.graph, doc);
        return Failure(linked.error);
      }
      OutcomeIs(t1, g1, tables, graph.graph, link.ltype, cre, other, linked.value);
      LinkIsSettled(t1, g1, tables, graph.graph, doc, i, cre, other, linked.value);
      SoundParts(t1, g1, tables, graph.graph, doc);
      SoundInTwoSteps(t0, g0, t1, g1, tables, graph.graph, doc);
      CoveredStaysBelow(t1, g1, tables, graph.graph, link.document);
      r := Success(());
    }

    /** Registers a linked resource with its own links, and then links it to the CRE. */
    method RegisterResourceLink(doc: Document, cre: nat, i: nat, ghost rows: seq<InternalLink>)
      returns (r: Result<(), CollectionError>)
      requires cre < |tables.cres| && SameCre(tables.cres[cre], doc) && cre == FindCre(tables.cres, doc)
      requires i < |doc.links| && !doc.links[i].document.doctype.CRE?
      modifies this, graph
      ensures NodesWritten(old(tables), old(graph.graph), tables, graph.graph, doc)
      ensures r.Success? ==> ResourceLinked(tables, doc, doc.links[i].document)
      ensures r.Success? ==> NodeLink(cre, doc.links[i].document.id, doc.links[i].ltype) in tables.nodeLinks
      ensures AsSpecified(r, tables, WithCreLink(ViewOf(old(tables)), rows, doc, i))
    {
      hide *;
      ghost var t0, g0 := tables, graph.graph;
      var link := doc.links[i];
      r := RegisterNode(link.document);
      ghost var t1, g1 := tables, graph.graph;
      ResourceLinkStep(t0, t1, rows, doc, i, r);
      WrittenFromBelow(t0, g0, t1, g1, doc, i);
      WrittenGrows(t0, g0, t1, g1, doc);
      if r.Failure? {
        return;
      }
      ResourceBelow(doc, i);
      NothingWritten(t1, g1, doc);
      r := LinkOne(cre, link.document, link.ltype, doc, t1, g1);
      WrittenInTwoSteps(t0, g0, t1, g1, tables, graph.graph, doc);
      WrittenGrows(t1, g1, tables, graph.graph, doc);
      NodeStaysCovered(t1, tables, link.document);
      ResourceIsLinked(tables, doc, cre, link.document);
    }

    /**
     Registers a CRE with everything it links to, depth first. A containment is stored from the
     higher CRE to the lower one whichever of the two documents states it. Every row it adds is stated
     in the document, and on success every link in it is stored or refused because the graph leads the
     other way. Even after an error, tables and graph stay in step as long as external ids identify
     the stored CREs and no link to or from a resource says PartOf.
     */
    method RegisterCre(doc: Document, ghost rows: seq<InternalLink>) returns (r: Result<(nat, bool), CollectionError>)
      requires doc.doctype.CRE? && RowsSince(rows, tables)
      modifies this, graph
      decreases doc, 1
      ensures Sound(old(tables), old(graph.graph), tables, graph.graph, doc)
      ensures CalmKept(old(graph.graph), graph.graph, doc)
      ensures r.Success? ==> r.value.0 < |tables.cres| && SameCre(tables.cres[r.value.0], doc)
      ensures r.Success? ==> r.value.0 == FindCre(tables.cres, doc)
      ensures RowsSince(rows, tables)
      ensures old(Calm(graph.graph)) && PartOfJoinsCres(doc) ==>
        AsSpecified(r, tables, WithCre(ViewOf(old(tables)), rows, doc))
      ensures r.Success? ==> (r.value.1 <==> exists row | row in old(tables.cres) :: row.externalId == doc.id)
      ensures r.Success? ==> Covered(tables, graph.graph, doc)
    {
      hide *;
      ghost var t0, g0 := tables, graph.graph;
      ghost var v := ViewOf(t0).(cres := CresWith(t0.cres, doc));
      CreSteps(t0, rows, doc);
      if !StartsWithCreId(doc.id) {
        StillSound(t0, g0, tables, graph.graph, doc);
        CalmAfterCall(g0, g0, g0, doc);
        r := Failure(InvalidCreId);
        return;
      }
      var existing := exists row | row in tables.cres :: row.externalId == doc.id;
      var cre := AddCre(doc);
      CresGrow(t0.cres, doc);
      CreAdded(t0, tables, rows, doc);
      AddingCreIsSound(t0, g0, tables, graph.graph, doc);
      NothingCovered(tables, graph.graph, doc);
      CalmAfterCall(g0, g0, graph.graph, doc);
      for i := 0 to |doc.links|
        invariant Sound(t0, g0, tables, graph.graph, doc)
        invariant CalmKept(g0, graph.graph, doc)
        invariant cre < |tables.cres| && SameCre(tables.cres[cre], doc) && cre == FindCre(tables.cres, doc)
        invariant CoveredUpTo(tables, graph.graph, doc, i)
        invariant RowsSince(rows, tables)
        invariant Calm(g0) && PartOfJoinsCres(doc) ==> WithCreLinks(v, rows, doc, i) == Success(ViewOf(tables))
      {
        var link := doc.links[i];
        ghost var t1, g1 := tables, graph.graph;
        var linked: Result<(), CollectionError>;
        if link.document.doctype.CRE? {
          linked := RegisterCreLink(doc, cre, i, rows);
        } else {
          linked := RegisterResourceLink(doc, cre, i, rows);
          WrittenIsSound(t1, g1, tables, graph.graph, doc);
          WrittenKeepsRows(t1, g1, tables, graph.graph, doc, rows);
        }
        CalmIsKept(g0, g1, doc);
        OneMoreCreLink(v, t1, tables, rows, doc, i, linked, Calm(g0) && PartOfJoinsCres(doc));
        CalmInTwoSteps(g0, g1, graph.graph, doc);
        SoundParts(t1, g1, tables, graph.graph, doc);
        SoundInTwoSteps(t0, g0, t1, g1, tables, graph.graph, doc);
        if linked.Failure? {
          r := Failure(linked.error);
          CreFails(v, t0, tables, rows, doc, i, r, Calm(g0) && PartOfJoinsCres(doc));
          return;
        }
        CoveredStays(t1, g1, tables, graph.graph, doc, i);
        OneMoreCovered(tables, graph.graph, doc, i);
        FindCreStays(t1.cres, tables.cres, doc);
        CresStay(t1.cres, tables.cres, cre);
      }
      NothingCovered(tables, graph.graph, doc);
      r := Success((cre, existing));
      CreDone(v, t0, tables, rows, doc, r);
    }

    /**
     The import's loop over the parsed CREs. The graph stays acyclic from any calm start, also when it
     was not loaded exactly and whatever the external ids are. From there the outcome, errors included,
     is the specified one.
     */
    method RegisterAll(docs: seq<Document>) returns (r: Result<(), CollectionError>)
      requires forall i | 0 <= i < |docs| :: docs[i].doctype.CRE?
      modifies this, graph
      ensures old(tables.cres) <= tables.cres && old(tables.internalLinks) <= tables.internalLinks
      ensures
        && old(InStep(tables, graph.graph)) && DistinctIds(tables.cres)
        && (forall i | 0 <= i < |docs| :: PartOfJoinsCres(docs[i])) ==>
        InStep(tables, graph.graph) && Acyclic(RowPairs(tables.internalLinks))
      ensures old(Calm(graph.graph)) && (forall i | 0 <= i < |docs| :: PartOfJoinsCres(docs[i])) ==> Calm(graph.graph)
      ensures r.Success? ==> forall i | 0 <= i < |docs| :: Covered(tables, graph.graph, docs[i])
      ensures old(Calm(graph.graph)) && (forall i | 0 <= i < |docs| :: PartOfJoinsCres(docs[i])) ==>
        AsSpecified(r, tables, WithAll(ViewOf(old(tables)), old(tables).internalLinks, docs))
    {
      r := Success(());
      ghost var t0, g0 := tables, graph.graph;
      ghost var rows := t0.internalLinks;
      NothingImported(t0, g0, docs);
      hide *;
      for i := 0 to |docs|
        invariant Imported(t0, g0, tables, graph.graph, docs, i) && r.Success?
        invariant RowsSince(rows, tables)
      {
        ghost var t1, g1 := tables, graph.graph;
        var registered := RegisterCre(docs[i], rows);
        OneMoreImported(t0, g0, t1, g1, tables, graph.graph, docs, i, registered);
        if registered.Failure? {
          r := Failure(registered.error);
          ImportEnds(t0, g0, tables, graph.graph, docs, r);
          return;
        }
      }
      AllImported(t0, g0, tables, graph.graph, docs);
      ImportEnds(t0, g0, tables, graph.graph, docs, r);
    }
  }

  ghost predicate AllClean(docs: seq<Document>) {
    forall i | 0 <= i < |docs| :: PartOfJoinsCres(docs[i])
  }

  /** What holds after i documents, the last of which may have failed. */
  ghost predicate Importing(t0: Tables, g0: DiGraph, t: Tables, g: DiGraph, docs: seq<Document>) {
    && Grown(t0, g0, t, g)
    && (InStep(t0, g0) && AllClean(docs) && DistinctIds(t.cres) ==> InStep(t, g))
    && (Calm(g0) && AllClean(docs) ==> Calm(g))
  }

  ghost predicate Imported(t0: Tables, g0: DiGraph, t: Tables, g: DiGraph, docs: seq<Document>, i: nat)
    requires i <= |docs|
  {
    && Importing(t0, g0, t, g, docs)
    && (forall j | 0 <= j < i :: Covered(t, g, docs[j]))
    && (Calm(g0) && AllClean(docs) ==> WithAll(ViewOf(t0), t0.internalLinks, docs[..i]) == Success(ViewOf(t)))
  }

  lemma NothingImported(t: Tables, g: DiGraph, docs: seq<Document>)
    ensures Imported(t, g, t, g, docs, 0) && RowsSince(t.internalLinks, t)
  {
    NoDocumentYet(t, docs);
    hide InStep, Calm;
  }

  lemma OneMoreImported(t0: Tables, g0: DiGraph, t1: Tables, g1: DiGraph, t: Tables, g: DiGraph, docs: seq<Document>, i: nat,
                        registered: Result<(nat, bool), CollectionError>)
    requires i < |docs| && Imported(t0, g0, t1, g1, docs, i)
    requires Sound(t1, g1, t, g, docs[i]) && CalmKept(g1, g, docs[i])
    requires registered.Success? ==> Covered(t, g, docs[i])
    requires Calm(g1) && PartOfJoinsCres(docs[i]) ==>
      AsSpecified(registered, t, WithCre(ViewOf(t1), t0.internalLinks, docs[i]))
    ensures Importing(t0, g0, t, g, docs)
    ensures registered.Success? ==> Imported(t0, g0, t, g, docs, i + 1)
    ensures registered.Failure? && Calm(g0) && AllClean(docs) ==>
      AsSpecified<()>(Failure(registered.error), t, WithAll(ViewOf(t0), t0.internalLinks, docs))
  {
    hide InStep, Calm, PartOfJoinsCres, Covered, AsSpecified, NewRowsStated, NewPairsStated, ViewOf, WithAll, DistinctIds;
    OneMoreRegistered(ViewOf(t0), t1, t, t0.internalLinks, docs, i, registered, Calm(g0) && AllClean(docs));
    if DistinctIds(t.cres) {
      FewerCresDistinct(t1.cres, t.cres);
    }
    forall j | 0 <= j < i ensures Covered(t, g, docs[j]) {
      CoveredStaysBelow(t1, g1, t, g, docs[j]);
    }
  }

  lemma AllImported(t0: Tables, g0: DiGraph, t: Tables, g: DiGraph, docs: seq<Document>)
    requires Imported(t0, g0, t, g, docs, |docs|)
    ensures Importing(t0, g0, t, g, docs) && forall j | 0 <= j < |docs| :: Covered(t, g, docs[j])
    ensures Calm(g0) && AllClean(docs) ==> AsSpecified<()>(Success(()), t, WithAll(ViewOf(t0), t0.internalLinks, docs))
  {
    hide InStep, Calm;
    AllRegistered(ViewOf(t0), t, t0.internalLinks, docs, Calm(g0) && AllClean(docs));
  }

  lemma ImportEnds(t0: Tables, g0: DiGraph, t: Tables, g: DiGraph, docs: seq<Document>, r: Result<(), CollectionError>)
    requires Importing(t0, g0, t, g, docs)
    ensures t0.cres <= t.cres && t0.internalLinks <= t.internalLinks
    ensures InStep(t0, g0) && DistinctIds(t.cres) && (forall i | 0 <= i < |docs| :: PartOfJoinsCres(docs[i])) ==>
      InStep(t, g) && Acyclic(RowPairs(t.internalLinks))
    ensures Calm(g0) && (forall i | 0 <= i < |docs| :: PartOfJoinsCres(docs[i])) ==> Calm(g) && AllClean(docs)
  {
    hide InStep, Calm;
    EndOfRun(t0, g0, t, g);
  }

  lemma EndOfRun(t0: Tables, g0: DiGraph, t: Tables, g: DiGraph)
    requires Grown(t0, g0, t, g)
    ensures t0.cres <= t.cres && t0.internalLinks <= t.internalLinks
    ensures InStep(t, g) ==> Acyclic(RowPairs(t.internalLinks))
  {
    if InStep(t, g) {
      RowsAreAcyclic(t, g);
    }
  }

  // ---------------------------------------------------------------- from the tables to a collection in step

  /** The group of every Related row is read before its other end. */
  ghost predicate RelatedReadFromGroup(t: Tables, order: seq<nat>) {
    forall row | row in t.internalLinks && row.ltype.Related? :: FirstIndex(order, row.group) <= FirstIndex(order, row.cre)
  }

  /** Loaded without refusal, the graph is in step with its table exactly if no Related row was read in reverse. */
  lemma LoadedInStepIff(t: Tables, order: seq<nat>, g: DiGraph)
    requires Orderly(t) && Calm(g) && TypedCreEdges(g) == TypedOriented(t, order, AllRows(t))
    ensures InStep(t, g) <==> RelatedReadFromGroup(t, order)
  {
    OrderlyIsWellFormed(t);
    hide WellFormed, Orderly, CreVertex, Calm, FirstIndex, TypedCreEdges;
    if RelatedReadFromGroup(t, order) {
      assert forall row | row in t.internalLinks :: Oriented(t, order, row) == RowEdge(t, row) by { RowsInTable(t); }
      assert TypedOriented(t, order, AllRows(t)) == TypedRows(t);
    }
    if TypedOriented(t, order, AllRows(t)) == TypedRows(t) {
      forall row | row in t.internalLinks && row.ltype.Related?
        ensures FirstIndex(order, row.group) <= FirstIndex(order, row.cre)
      {
        UnreversedRow(t, order, row);
      }
    }
  }

  lemma RowsInTable(t: Tables)
    requires WellFormed(t)
    ensures forall row | row in t.internalLinks :: row.group < |t.cres| && row.cre < |t.cres|
  {
  }

  lemma UnreversedRow(t: Tables, order: seq<nat>, row: InternalLink)
    requires WellFormed(t) && row in t.internalLinks && row.ltype.Related?
    requires RowsOfTable(t, AllRows(t)) && TypedOriented(t, order, AllRows(t)) == TypedRows(t)
    ensures FirstIndex(order, row.group) <= FirstIndex(order, row.cre)
  {
    hide FirstIndex;
    var e := (Oriented(t, order, row), row.ltype);
    assert row in AllRows(t) && e in TypedOriented(t, order, AllRows(t));
    assert e in TypedRows(t);
    var other :| other in t.internalLinks && (RowEdge(t, other), other.ltype) == e;
    EdgeOfOneRow(t, order, other, row);
    if Oriented(t, order, row) != RowEdge(t, row) {
      SameVertexSameCre(t, row.group, row.cre);
    }
    if row.group != row.cre {
    }
  }

  /**
   The collection with the graph loaded from its tables. Unless a resource is stored as a container, the
   graph is acyclic, even after an error. If no link is refused, it is in step with the tables exactly
   when no Related row was read in reverse.
   */
  method WithGraph(t: Tables, order: seq<nat>)
    returns (collection: Collection, r: Result<(), GraphError>, ghost swallowed: nat)
    requires PairsAreKeys(t.internalLinks)
    requires forall i | 0 <= i < |order| :: order[i] < |t.cres|
    requires forall c: nat | c < |t.cres| :: c in order
    ensures fresh(collection) && fresh(collection.graph) && collection.tables == t
    ensures NoContainerResources(t) ==> Calm(collection.graph.graph)
    ensures Orderly(t) ==> r.Success? && Calm(collection.graph.graph) && (swallowed == 0 <==> Acyclic(OrientedEdges(t, order)))
    ensures Orderly(t) && swallowed == 0 ==> (InStep(t, collection.graph.graph) <==> RelatedReadFromGroup(t, order))
  {
    hide *;
    var graph;
    graph, r, swallowed := LoadFromTables(t, order);
    collection := new Collection(t, graph);
    if Orderly(t) && swallowed == 0 {
      LoadedInStepIff(t, order, graph.graph);
    }
  }

  /**
   Loading and importing together. The graph is acyclic afterwards, whatever else the tables held and
   even after an error, if neither they nor the documents say PartOf of a resource. It is in step with
   the tables if the table was loaded exactly and external ids identify the stored CREs.
   */
  method LoadAndRegister(t: Tables, order: seq<nat>, docs: seq<Document>)
    returns (collection: Collection, loaded: Result<(), GraphError>, registered: Result<(), CollectionError>)
    requires PairsAreKeys(t.internalLinks)
    requires forall i | 0 <= i < |order| :: order[i] < |t.cres|
    requires forall c: nat | c < |t.cres| :: c in order
    requires forall i | 0 <= i < |docs| :: docs[i].doctype.CRE?
    ensures NoContainerResources(t) && (forall i | 0 <= i < |docs| :: PartOfJoinsCres(docs[i])) ==> Calm(collection.graph.graph)
    ensures
      && Orderly(t) && Acyclic(OrientedEdges(t, order)) && RelatedReadFromGroup(t, order)
      && (forall i | 0 <= i < |docs| :: PartOfJoinsCres(docs[i])) && DistinctIds(collection.tables.cres) ==>
        InStep(collection.tables, collection.graph.graph)
  {
    hide *;
    var fromTables, result, _ := WithGraph(t, order);
    collection, loaded := fromTables, result;
    registered := collection.RegisterAll(docs);
  }

  // ---------------------------------------------------------------- a resource as a container

  /**
   The calls that registering one document makes: a CRE that contains another one, which is linked to a
   resource, and that names this resource as its own container. Afterwards the graph holds a cycle.
   */
  method ContainerResourceRun(upper: Document, lower: Document, resource: Document) returns (collection: Collection)
    requires upper.doctype.CRE? && lower.doctype.CRE? && !resource.doctype.CRE?
    requires upper.id != lower.id && upper.name != lower.name
    requires resource.name != upper.name && resource.name != lower.name
    ensures !collection.graph.graph.IsAcyclic()
  {
    hide *;
    var graph := new CreGraph();
    collection := new Collection(Tables([], map[], [], []), graph);
    NothingInStep();
    TwoCres(upper, lower);
    var a := collection.AddCre(upper);
    var b := collection.AddCre(lower);
    collection.AddNode(resource);
    ghost var up, low := CreFromDb(collection.tables.cres[a]), CreFromDb(collection.tables.cres[b]);
    NamesOfRows(collection.tables.cres[a], collection.tables.cres[b]);
    LinkedResource(low, resource, graph.graph);
    var linked := collection.AddLink(b, resource, LinkedTo);
    ghost var t, g := collection.tables, graph.graph;
    OneLinkFiled(t.nodeLinks, NodeLink(b, resource.id, LinkedTo), NodeLink(a, resource.id, PartOf));
    NotYetJoined(t, a, b);
    OneEdgeBack(t, a, b, resource, g);
    var contained := collection.AddInternalLink(a, b, Contains);
    assert contained.Success? && !contained.value.Cyclic? && !contained.value.Known?;
    ContainmentEdge(up, low, resource, g);
    OnlyRowsGrow(t, InternalLink(a, b, Contains));
    collection.AddNode(resource);
    ContainerResourceClosesCycle(up, resource, graph.graph);
    var closed := collection.AddLink(a, resource, PartOf);
  }

  /**
   The calls that registering one other document makes: the stored CRE upper contains lower; lower is
   registered with a link to a resource, which itself says that it is PartOf upper. The resource's own
   link is followed first, and lower's link then closes the cycle.
   */
  method LinkedResourceRun(upper: Document, lower: Document, resource: Document) returns (collection: Collection)
    requires upper.doctype.CRE? && lower.doctype.CRE? && !resource.doctype.CRE?
    requires upper.id != lower.id && upper.name != lower.name
    requires resource.name != upper.name && resource.name != lower.name
    ensures !collection.graph.graph.IsAcyclic()
  {
    hide *;
    var graph := new CreGraph();
    collection := new Collection(Tables([], map[], [], []), graph);
    NothingInStep();
    TwoCres(upper, lower);
    var a := collection.AddCre(upper);
    var b := collection.AddCre(lower);
    ghost var up, low := CreFromDb(collection.tables.cres[a]), CreFromDb(collection.tables.cres[b]);
    NamesOfRows(collection.tables.cres[a], collection.tables.cres[b]);
    ghost var t, g0 := collection.tables, graph.graph;
    NotYetJoined(t, a, b);
    NoEdgesNoPath(t, a, b, g0);
    var contained := collection.AddInternalLink(a, b, Contains);
    assert contained.Success? && !contained.value.Cyclic? && !contained.value.Known?;
    OnlyRowsGrow(t, InternalLink(a, b, Contains));
    collection.AddNode(resource);
    ghost var g1 := graph.graph;
    NothingLinked(a, b, resource.id);
    Accepted(up, Link(PartOf, resource), g1);
    var above := collection.AddLink(a, resource, PartOf);
    ghost var g2 := graph.graph;
    Accepted(low, Link(LinkedTo, resource), g2);
    var below := collection.AddLink(b, resource, LinkedTo);
    ThreeLinks(up, low, resource, g0, g1, g2, graph.graph);
  }

  lemma Accepted(cre: Document, link: Link, g: DiGraph)
    requires cre.doctype.CRE? && cre.name != link.document.name && (link.ltype.PartOf? || link.ltype.LinkedTo?)
    ensures AddGraphEdge(cre, link, g).Success?
  {
  }

  lemma NothingLinked(a: nat, b: nat, id: string)
    ensures !Linked([], a, id)
    ensures forall rows | LinkFiled([], rows, NodeLink(a, id, PartOf)) && a != b :: !Linked(rows, b, id)
  {
  }

  lemma NoEdgesNoPath(t: Tables, a: nat, b: nat, g: DiGraph)
    requires g.edges == map[] && a < |t.cres| && b < |t.cres| && t.cres[a].externalId != t.cres[b].externalId
    ensures !HasPath(g.edges.Keys, CreVertex(t, b), CreVertex(t, a))
  {
    var u := CreVertex(t, b);
    forall w | IsWalk(g.edges.Keys, w) && w[0] == u ensures w[|w| - 1] == u {
      LongWalkLeaves(g.edges.Keys, w);
    }
  }

  lemma ThreeLinks(up: Document, low: Document, resource: Document, g0: DiGraph, g1: DiGraph, g2: DiGraph, g3: DiGraph)
    requires up.doctype.CRE? && low.doctype.CRE? && !resource.doctype.CRE?
    requires up.name != low.name && up.name != resource.name && low.name != resource.name
    requires AddGraphEdge(up, Link(Contains, low), g0).Success? && AddGraphEdge(up, Link(Contains, low), g0).value.edges == g1.edges
    requires AddGraphEdge(up, Link(PartOf, resource), g1) == Success(g2)
    requires AddGraphEdge(low, Link(LinkedTo, resource), g2) == Success(g3)
    ensures !g3.IsAcyclic()
  {
    var u, l, n := TailVertex(up), TailVertex(low), HeadVertex(resource);
    assert (u, l) in g3.edges && (n, u) in g3.edges && (l, n) in g3.edges;
    assert IsCycle(g3.edges.Keys, [u, l, n, u]);
  }

  lemma NothingInStep()
    ensures InStep(Tables([], map[], [], []), EMPTY_GRAPH) && EMPTY_GRAPH.edges == map[]
  {
    EmptyGraphIsCalm();
  }

  lemma TwoCres(upper: Document, lower: Document)
    requires upper.id != lower.id
    ensures
      var r0, r1 := CreRow(upper.name, upper.id), CreRow(lower.name, lower.id);
      && CresWith([], upper) == [r0] && CresWith([r0], lower) == [r0, r1]
      && DistinctIds([r0]) && DistinctIds([r0, r1]) && !SameCre(r0, lower)
  {
    var r0 := CreRow(upper.name, upper.id);
    hide Lower;
    assert !SameCre(r0, lower);
    assert FindCre([], upper) == 0 && FindCre([], lower) == 0;
    assert [r0][..0] == [] && FindCre([r0], lower) == 1;
  }

  lemma NamesOfRows(a: CreRow, b: CreRow)
    ensures CreFromDb(a) == Document(CRE, a.externalId, a.name, []) && CreFromDb(b) == Document(CRE, b.externalId, b.name, [])
  {
  }

  lemma LinkedResource(low: Document, resource: Document, g: DiGraph)
    requires low.doctype.CRE? && !resource.doctype.CRE? && low.name != resource.name && g.edges == map[]
    ensures AddGraphEdge(low, Link(LinkedTo, resource), g).Success?
    ensures AddGraphEdge(low, Link(LinkedTo, resource), g).value.edges.Keys == {(TailVertex(low), HeadVertex(resource))}
  {
  }

  lemma OneLinkFiled(rows: seq<NodeLink>, row: NodeLink, other: NodeLink)
    requires LinkFiled([], rows, row) && row.cre != other.cre
    ensures !Linked(rows, other.cre, other.node)
  {
  }

  lemma NotYetJoined(t: Tables, a: nat, b: nat)
    requires t.internalLinks == []
    ensures !Joined(t, a, b) && KnownToGraph(Contains)
  {
  }

  lemma OneEdgeBack(t: Tables, a: nat, b: nat, resource: Document, g: DiGraph)
    requires a < |t.cres| && b < |t.cres| && t.cres[a].externalId != t.cres[b].externalId && !resource.doctype.CRE?
    requires g.edges.Keys == {(TailVertex(CreFromDb(t.cres[b])), HeadVertex(resource))}
    ensures !HasPath(g.edges.Keys, CreVertex(t, b), CreVertex(t, a))
  {
    var u, v := CreVertex(t, b), HeadVertex(resource);
    assert g.edges.Keys == {(u, v)};
    forall w | IsWalk(g.edges.Keys, w) && w[0] == u ensures w[|w| - 1] == u || w[|w| - 1] == v {
      assert |w| > 1 ==> (w[|w| - 2], w[|w| - 2 + 1]) in g.edges.Keys;
    }
  }

  lemma ContainmentEdge(up: Document, low: Document, resource: Document, g: DiGraph)
    requires up.doctype.CRE? && low.doctype.CRE? && up.name != low.name
    requires g.edges.Keys == {(TailVertex(low), HeadVertex(resource))}
    ensures AddGraphEdge(up, Link(Contains, low), g).Success?
    ensures HasPath(AddGraphEdge(up, Link(Contains, low), g).value.edges.Keys, TailVertex(up), HeadVertex(resource))
  {
    var edges := AddGraphEdge(up, Link(Contains, low), g).value.edges.Keys;
    assert edges == {(TailVertex(low), HeadVertex(resource)), (TailVertex(up), TailVertex(low))};
    PathByWalk(edges, [TailVertex(up), TailVertex(low), HeadVertex(resource)]);
  }

  lemma OnlyRowsGrow(t: Tables, row: InternalLink)
    ensures WithRow(t, row) == t.(internalLinks := t.internalLinks + [row])
  {
  }

}
