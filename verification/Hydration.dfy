/**
 The tables of CREs, resources and links, and their hydration into documents, one CRE at a time or
 in a batch.
 */
module Hydration {
  import opened Wrappers
  import opened Sequences
  import opened Documents
  import opened Graphs
  import opened InmemoryGraph
  import Export = CresCsvExport

  datatype CreRow = CreRow(name: string, externalId: string)

  /** A link between CREs reads from the group, the higher CRE, to the cre; both are row numbers. */
  datatype InternalLink = InternalLink(group: nat, cre: nat, ltype: LinkType)

  datatype NodeLink = NodeLink(cre: nat, node: string, ltype: LinkType)

  /** The tables; a CRE's internal id is its position, a resource's is its key. */
  datatype Tables = Tables(
    cres: seq<CreRow>,
    nodes: map<string, Document>,
    internalLinks: seq<InternalLink>,
    nodeLinks: seq<NodeLink>)

  // ---------------------------------------------------------------- hydration

  function CreFromDb(row: CreRow): Document {
    Document(CRE, row.externalId, row.name, [])
  }

  /** What one link row says about the CRE: seen from below a containment reads as PartOf. */
  function ViewOfRow(t: Tables, row: InternalLink, cre: nat): seq<Link> {
    if row.cre == cre then
      if row.group >= |t.cres| then []
      else if row.ltype.Contains? then [Link(PartOf, CreFromDb(t.cres[row.group]))]
      else if row.ltype.Related? then [Link(Related, CreFromDb(t.cres[row.group]))]
      else []
    else if row.group == cre && row.cre < |t.cres| then [Link(row.ltype, CreFromDb(t.cres[row.cre]))]
    else []
  }

  function InternalView(t: Tables, rows: seq<InternalLink>, cre: nat): seq<Link> {
    if rows == [] then []
    else InternalView(t, rows[..|rows| - 1], cre) + ViewOfRow(t, rows[|rows| - 1], cre)
  }

  function ViewOfNodeLink(t: Tables, row: NodeLink, cre: nat, includeOnly: seq<string>): seq<Link> {
    if row.cre == cre && row.node in t.nodes && (includeOnly == [] || t.nodes[row.node].name in includeOnly)
    then [Link(row.ltype, t.nodes[row.node])]
    else []
  }

  function NodeView(t: Tables, rows: seq<NodeLink>, cre: nat, includeOnly: seq<string>): seq<Link> {
    if rows == [] then []
    else NodeView(t, rows[..|rows| - 1], cre, includeOnly) + ViewOfNodeLink(t, rows[|rows| - 1], cre, includeOnly)
  }

  /** The document of one CRE by itself: its resources first, then its relations to other CREs. */
  function Hydrated(t: Tables, cre: nat, includeOnly: seq<string>): Document
    requires cre < |t.cres|
  {
    CreFromDb(t.cres[cre]).(links := NodeView(t, t.nodeLinks, cre, includeOnly) + InternalView(t, t.internalLinks, cre))
  }

  /** The primary key of the link table: no two rows join the same group and CRE. */
  ghost predicate PairsAreKeys(rows: seq<InternalLink>) {
    forall i, j | 0 <= i < j < |rows| :: rows[i].group != rows[j].group || rows[i].cre != rows[j].cre
  }

  function Bucket<T>(buckets: map<nat, seq<T>>, cre: nat): seq<T> {
    if cre in buckets then buckets[cre] else []
  }

  function NodeRowsOf(rows: seq<NodeLink>, cre: nat): seq<NodeLink> {
    if rows == [] then []
    else
      var last := rows[|rows| - 1];
      NodeRowsOf(rows[..|rows| - 1], cre) + if last.cre == cre then [last] else []
  }

  lemma EmptyBuckets<T>()
    ensures forall c :: Bucket<T>(map[], c) == []
  {
  }

  /** Appends the row to the CRE's bucket if the CRE was asked for. */
  function FileUnder<T>(buckets: map<nat, seq<T>>, cre: nat, row: T, creIds: seq<nat>): (r: map<nat, seq<T>>)
    ensures forall c | c in creIds :: Bucket(r, c) == if c == cre then Bucket(buckets, c) + [row] else Bucket(buckets, c)
  {
    if cre in creIds then buckets[cre := Bucket(buckets, cre) + [row]] else buckets
  }

  method BucketNodeLinks(rows: seq<NodeLink>, creIds: seq<nat>)
    returns (buckets: map<nat, seq<NodeLink>>, nodeIds: set<string>)
    ensures forall c | c in creIds :: Bucket(buckets, c) == NodeRowsOf(rows, c)
    ensures forall row | row in rows && row.cre in creIds :: row.node in nodeIds
  {
    hide FileUnder, Bucket, NodeRowsOf;
    EmptyBuckets<NodeLink>();
    NoNodeRows(rows);
    buckets, nodeIds := map[], {};
    for i := 0 to |rows|
      invariant forall c | c in creIds :: Bucket(buckets, c) == NodeRowsOf(rows[..i], c)
      invariant forall j | 0 <= j < i && rows[j].cre in creIds :: rows[j].node in nodeIds
    {
      var row := rows[i];
      OneMoreNodeRow(rows, i);
      if row.cre in creIds {
        buckets := FileUnder(buckets, row.cre, row, creIds);
        nodeIds := nodeIds + {row.node};
      }
    }
    AllTaken(rows);
  }

  lemma NoNodeRows(rows: seq<NodeLink>)
    ensures forall c :: NodeRowsOf(rows[..0], c) == []
  {
  }

  lemma OneMoreNodeRow(rows: seq<NodeLink>, i: nat)
    requires i < |rows|
    ensures forall c :: NodeRowsOf(rows[..i + 1], c) == NodeRowsOf(rows[..i], c) + (if rows[i].cre == c then [rows[i]] else [])
  {
    assert rows[..i + 1][..i] == rows[..i];
  }

  /** A row is filed under its lower CRE and then under its higher one. */
  function FiledRows(rows: seq<InternalLink>, cre: nat): seq<InternalLink> {
    if rows == [] then []
    else
      var last := rows[|rows| - 1];
      FiledRows(rows[..|rows| - 1], cre)
      + (if last.cre == cre then [last] else [])
      + (if last.group == cre then [last] else [])
  }

  function RowsOf(rows: seq<InternalLink>, cre: nat): seq<InternalLink> {
    if rows == [] then []
    else
      var last := rows[|rows| - 1];
      RowsOf(rows[..|rows| - 1], cre) + if last.cre == cre || last.group == cre then [last] else []
  }

  method BucketInternalLinks(rows: seq<InternalLink>, creIds: seq<nat>)
    returns (buckets: map<nat, seq<InternalLink>>, linkedIds: set<nat>)
    ensures forall c | c in creIds :: Bucket(buckets, c) == FiledRows(rows, c)
    ensures forall row | row in rows && (row.cre in creIds || row.group in creIds) :: row.cre in linkedIds && row.group in linkedIds
  {
    hide FileUnder, Bucket, FiledRows;
    EmptyBuckets<InternalLink>();
    NothingFiled(rows);
    buckets, linkedIds := map[], {};
    for i := 0 to |rows|
      invariant forall c | c in creIds :: Bucket(buckets, c) == FiledRows(rows[..i], c)
      invariant forall j | 0 <= j < i && (rows[j].cre in creIds || rows[j].group in creIds) ::
                  rows[j].cre in linkedIds && rows[j].group in linkedIds
    {
      var row := rows[i];
      OneMoreFiled(rows, i);
      if row.cre in creIds || row.group in creIds {
        linkedIds := linkedIds + {row.cre, row.group};
        buckets := FileUnder(buckets, row.cre, row, creIds);
        buckets := FileUnder(buckets, row.group, row, creIds);
      }
    }
    AllTaken(rows);
  }

  lemma NothingFiled(rows: seq<InternalLink>)
    ensures forall c :: FiledRows(rows[..0], c) == []
  {
  }

  lemma OneMoreFiled(rows: seq<InternalLink>, i: nat)
    requires i < |rows|
    ensures forall c ::
      FiledRows(rows[..i + 1], c) ==
      FiledRows(rows[..i], c) + (if rows[i].cre == c then [rows[i]] else []) + (if rows[i].group == c then [rows[i]] else [])
  {
    assert rows[..i + 1][..i] == rows[..i];
  }

  lemma {:induction false} FiledRowsComeFromTable(rows: seq<InternalLink>, cre: nat)
    ensures forall row | row in FiledRows(rows, cre) :: row in rows
  {
    if rows != [] {
      FiledRowsComeFromTable(rows[..|rows| - 1], cre);
    }
  }

  /** Leaving out repetitions keeps each row that touches the CRE once, a row joining it to itself included. */
  lemma {:induction false} DedupedFiledRows(rows: seq<InternalLink>, cre: nat)
    requires PairsAreKeys(rows)
    ensures Dedupe(FiledRows(rows, cre)) == RowsOf(rows, cre)
  {
    if rows != [] {
      var front, last := rows[..|rows| - 1], rows[|rows| - 1];
      DedupedFiledRows(front, cre);
      FiledRowsComeFromTable(front, cre);
      var filed := FiledRows(front, cre);
      assert last !in filed;
      DedupeStep(filed, last);
      DedupeStep(filed + [last], last);
      assert filed + [] == filed && filed + [last] + [] == filed + [last];
    }
  }

  method AssembleNodeLinks(rows: seq<NodeLink>, nodesById: map<string, Document>, includeOnly: seq<string>,
                           ghost t: Tables, ghost cre: nat) returns (links: seq<Link>)
    requires forall row | row in rows :: row.cre == cre
    requires forall row | row in rows :: (row.node in nodesById <==> row.node in t.nodes)
    requires forall n | n in nodesById && n in t.nodes :: nodesById[n] == t.nodes[n]
    ensures links == NodeView(t, rows, cre, includeOnly)
  {
    links := [];
    for i := 0 to |rows|
      invariant links == NodeView(t, rows[..i], cre, includeOnly)
    {
      var row := rows[i];
      assert row in rows && rows[..i + 1][..i] == rows[..i];
      if row.node in nodesById && (includeOnly == [] || nodesById[row.node].name in includeOnly) {
        links := links + [Link(row.ltype, nodesById[row.node])];
      }
    }
    assert rows[..|rows|] == rows;
  }

  method AssembleInternalLinks(cre: nat, rows: seq<InternalLink>, cresById: map<nat, CreRow>, ghost t: Tables)
    returns (links: seq<Link>)
    requires forall row | row in rows :: row.cre == cre || row.group == cre
    requires forall row | row in rows :: row.cre in cresById <==> row.cre < |t.cres|
    requires forall row | row in rows :: row.group in cresById <==> row.group < |t.cres|
    requires forall c | c in cresById && c < |t.cres| :: cresById[c] == t.cres[c]
    ensures links == InternalView(t, rows, cre)
  {
    links := [];
    for i := 0 to |rows|
      invariant links == InternalView(t, rows[..i], cre)
    {
      var row := rows[i];
      assert row in rows && rows[..i + 1][..i] == rows[..i];
      if row.cre == cre {
        if row.group in cresById {
          if row.ltype.Contains? {
            links := links + [Link(PartOf, CreFromDb(cresById[row.group]))];
          } else if row.ltype.Related? {
            links := links + [Link(row.ltype, CreFromDb(cresById[row.group]))];
          }
        }
      } else if row.cre in cresById {
        links := links + [Link(row.ltype, CreFromDb(cresById[row.cre]))];
      }
    }
    assert rows[..|rows|] == rows;
  }

  lemma {:induction false} RowsOfTouch(rows: seq<InternalLink>, cre: nat)
    ensures forall row | row in RowsOf(rows, cre) :: row in rows && (row.cre == cre || row.group == cre)
  {
    if rows != [] {
      RowsOfTouch(rows[..|rows| - 1], cre);
    }
  }

  lemma {:induction false} NodeRowsOfTouch(rows: seq<NodeLink>, cre: nat)
    ensures forall row | row in NodeRowsOf(rows, cre) :: row in rows && row.cre == cre
  {
    if rows != [] {
      NodeRowsOfTouch(rows[..|rows| - 1], cre);
    }
  }

  lemma {:induction false} OtherRowsShowNothing(t: Tables, rows: seq<InternalLink>, cre: nat)
    ensures InternalView(t, RowsOf(rows, cre), cre) == InternalView(t, rows, cre)
  {
    if rows != [] {
      var front, last := rows[..|rows| - 1], rows[|rows| - 1];
      OtherRowsShowNothing(t, front, cre);
      if last.cre == cre || last.group == cre {
        assert RowsOf(rows, cre)[..|RowsOf(rows, cre)| - 1] == RowsOf(front, cre);
      } else {
        assert RowsOf(rows, cre) == RowsOf(front, cre);
      }
    }
  }

  lemma {:induction false} OtherNodeRowsShowNothing(t: Tables, rows: seq<NodeLink>, cre: nat, includeOnly: seq<string>)
    ensures NodeView(t, NodeRowsOf(rows, cre), cre, includeOnly) == NodeView(t, rows, cre, includeOnly)
  {
    if rows != [] {
      var front, last := rows[..|rows| - 1], rows[|rows| - 1];
      OtherNodeRowsShowNothing(t, front, cre, includeOnly);
      if last.cre == cre {
        assert NodeRowsOf(rows, cre)[..|NodeRowsOf(rows, cre)| - 1] == NodeRowsOf(front, cre);
      } else {
        assert NodeRowsOf(rows, cre) == NodeRowsOf(front, cre);
      }
    }
  }

  /** Reads the tables once for all requested CREs; each document is the one the CRE has by itself. */
  method HydrateCresBatch(t: Tables, dbcres: seq<nat>, includeOnly: seq<string>) returns (result: seq<Document>)
    requires forall i | 0 <= i < |dbcres| :: dbcres[i] < |t.cres|
    requires PairsAreKeys(t.internalLinks)
    ensures |result| == |dbcres|
    ensures forall i | 0 <= i < |dbcres| :: result[i] == Hydrated(t, dbcres[i], includeOnly)
  {
    hide *;
    var nodeLinksByCre, nodeIds := BucketNodeLinks(t.nodeLinks, dbcres);
    var nodesById := map n | n in nodeIds && n in t.nodes :: t.nodes[n];
    var internalLinksByCre, linkedIds := BucketInternalLinks(t.internalLinks, dbcres);
    var known := (set c | c in dbcres) + set c | c in linkedIds && c < |t.cres|;
    var cresById := map c | c in known && c < |t.cres| :: t.cres[c];
    result := [];
    for i := 0 to |dbcres|
      invariant |result| == i
      invariant forall j | 0 <= j < i :: result[j] == Hydrated(t, dbcres[j], includeOnly)
    {
      var cre := dbcres[i];
      NodeRowsOfTouch(t.nodeLinks, cre);
      RowsOfTouch(t.internalLinks, cre);
      DedupedFiledRows(t.internalLinks, cre);
      OtherRowsShowNothing(t, t.internalLinks, cre);
      OtherNodeRowsShowNothing(t, t.nodeLinks, cre, includeOnly);
      assert cre in dbcres;
      var nodeLinks := AssembleNodeLinks(Bucket(nodeLinksByCre, cre), nodesById, includeOnly, t, cre);
      var internalRows := DedupeKeepOrder(Bucket(internalLinksByCre, cre));
      var internalLinks := AssembleInternalLinks(cre, internalRows, cresById, t);
      HydratedIs(t, cre, includeOnly, nodeLinks, internalLinks);
      result := result + [CreFromDb(t.cres[cre]).(links := nodeLinks + internalLinks)];
    }
  }

  lemma HydratedIs(t: Tables, cre: nat, includeOnly: seq<string>, nodeLinks: seq<Link>, internalLinks: seq<Link>)
    requires cre < |t.cres|
    requires nodeLinks == NodeView(t, t.nodeLinks, cre, includeOnly)
    requires internalLinks == InternalView(t, t.internalLinks, cre)
    ensures CreFromDb(t.cres[cre]).(links := nodeLinks + internalLinks) == Hydrated(t, cre, includeOnly)
  {
  }

  // ---------------------------------------------------------------- both ends of a row

  ghost predicate DistinctIds(cres: seq<CreRow>) {
    forall i, j | 0 <= i < j < |cres| :: cres[i].externalId != cres[j].externalId
  }

  ghost predicate Joins(row: InternalLink, a: nat, b: nat) {
    (row.group == a && row.cre == b) || (row.group == b && row.cre == a)
  }

  /** What the link table keeps: rows join two different CREs that exist, each pair once, and never say PartOf. */
  ghost predicate WellFormed(t: Tables) {
    && DistinctIds(t.cres)
    && (forall row | row in t.internalLinks ::
          row.group < |t.cres| && row.cre < |t.cres| && row.group != row.cre && !row.ltype.PartOf?)
    && (forall i, j | 0 <= i < j < |t.internalLinks| ::
          !Joins(t.internalLinks[j], t.internalLinks[i].group, t.internalLinks[i].cre))
    && (forall n | n in t.nodes :: !t.nodes[n].doctype.CRE?)
  }

  ghost predicate Shows(t: Tables, a: nat, ltype: LinkType, b: nat)
    requires a < |t.cres| && b < |t.cres|
  {
    Link(ltype, CreFromDb(t.cres[b])) in Hydrated(t, a, []).links
  }

  lemma {:induction false} ViewHolds(t: Tables, rows: seq<InternalLink>, cre: nat, link: Link)
    ensures link in InternalView(t, rows, cre) <==> exists row :: row in rows && link in ViewOfRow(t, row, cre)
  {
    if rows != [] {
      var front, last := rows[..|rows| - 1], rows[|rows| - 1];
      ViewHolds(t, front, cre, link);
      assert rows == front + [last];
      assert forall row :: row in rows <==> row in front || row == last;
    }
  }

  lemma {:induction false} NodeViewShowsNodes(t: Tables, rows: seq<NodeLink>, cre: nat, includeOnly: seq<string>)
    requires forall n | n in t.nodes :: !t.nodes[n].doctype.CRE?
    ensures forall link | link in NodeView(t, rows, cre, includeOnly) :: !link.document.doctype.CRE?
  {
    if rows != [] {
      NodeViewShowsNodes(t, rows[..|rows| - 1], cre, includeOnly);
    }
  }

  lemma {:induction false} InternalViewShowsCres(t: Tables, rows: seq<InternalLink>, cre: nat)
    ensures forall link | link in InternalView(t, rows, cre) :: link.document.doctype.CRE?
  {
    if rows != [] {
      InternalViewShowsCres(t, rows[..|rows| - 1], cre);
    }
  }

  /** A link to a CRE in a hydrated document comes from exactly one kind of row. */
  lemma ShownLinks(t: Tables, a: nat, ltype: LinkType, b: nat)
    requires WellFormed(t) && a < |t.cres| && b < |t.cres|
    ensures Shows(t, a, ltype, b) <==>
      exists row :: row in t.internalLinks &&
        ((row.cre == a && row.group == b && ((ltype.PartOf? && row.ltype.Contains?) || (ltype.Related? && row.ltype.Related?)))
        || (row.group == a && row.cre == b && ltype == row.ltype))
  {
    var link := Link(ltype, CreFromDb(t.cres[b]));
    ViewHolds(t, t.internalLinks, a, link);
    NodeViewShowsNodes(t, t.nodeLinks, a, []);
    forall row | row in t.internalLinks
      ensures link in ViewOfRow(t, row, a) <==>
        ((row.cre == a && row.group == b && ((ltype.PartOf? && row.ltype.Contains?) || (ltype.Related? && row.ltype.Related?)))
        || (row.group == a && row.cre == b && ltype == row.ltype))
    {
      SameIdSameCre(t, if row.cre == a then row.group else row.cre, b);
    }
  }

  lemma {:induction false} NodeViewHolds(t: Tables, rows: seq<NodeLink>, cre: nat, includeOnly: seq<string>, link: Link)
    ensures link in NodeView(t, rows, cre, includeOnly) <==>
      exists row :: row in rows && link in ViewOfNodeLink(t, row, cre, includeOnly)
  {
    if rows != [] {
      var front, last := rows[..|rows| - 1], rows[|rows| - 1];
      NodeViewHolds(t, front, cre, includeOnly, link);
      assert rows == front + [last];
      assert forall row :: row in rows <==> row in front || row == last;
    }
  }

  /**
   A document links a resource, under the type of the row, exactly when a row does and the resource is
   stored and passes the filter; the filter concerns resources only.
   */
  lemma ShownResources(t: Tables, cre: nat, includeOnly: seq<string>, link: Link)
    requires cre < |t.cres| && forall n | n in t.nodes :: !t.nodes[n].doctype.CRE?
    ensures link.document.doctype.CRE? ==>
      (link in Hydrated(t, cre, includeOnly).links <==> link in Hydrated(t, cre, []).links)
    ensures !link.document.doctype.CRE? ==>
      (link in Hydrated(t, cre, includeOnly).links <==>
        exists row :: row in t.nodeLinks && row.cre == cre && row.node in t.nodes && row.ltype == link.ltype
          && t.nodes[row.node] == link.document && (includeOnly == [] || link.document.name in includeOnly))
  {
    NodeViewHolds(t, t.nodeLinks, cre, includeOnly, link);
    NodeViewShowsNodes(t, t.nodeLinks, cre, includeOnly);
    NodeViewShowsNodes(t, t.nodeLinks, cre, []);
    InternalViewShowsCres(t, t.internalLinks, cre);
    hide InternalView, NodeView;
  }

  lemma SameIdSameCre(t: Tables, a: nat, b: nat)
    requires DistinctIds(t.cres) && a < |t.cres| && b < |t.cres|
    ensures CreFromDb(t.cres[a]) == CreFromDb(t.cres[b]) <==> a == b
  {
    if a != b {
      var i, j := if a < b then a else b, if a < b then b else a;
      assert t.cres[i].externalId != t.cres[j].externalId;
    }
  }

  /** One CRE lists another as contained iff that one lists it as its container; Related is symmetric. */
  lemma ViewsAreDual(t: Tables, a: nat, b: nat)
    requires WellFormed(t) && a < |t.cres| && b < |t.cres|
    ensures Shows(t, a, Contains, b) <==> Shows(t, b, PartOf, a)
    ensures Shows(t, a, Related, b) <==> Shows(t, b, Related, a)
  {
    ShownLinks(t, a, Contains, b);
    ShownLinks(t, b, PartOf, a);
    ShownLinks(t, a, Related, b);
    ShownLinks(t, b, Related, a);
  }

  // ---------------------------------------------------------------- loading the graph from the tables

  ghost function CreVertex(t: Tables, cre: nat): Vertex
    requires cre < |t.cres|
  {
    Vertex(CreLabel, t.cres[cre].externalId)
  }

  ghost function RowEdge(t: Tables, row: InternalLink): (Vertex, Vertex)
    requires row.group < |t.cres| && row.cre < |t.cres|
  {
    (CreVertex(t, row.group), CreVertex(t, row.cre))
  }

  ghost function RowEdges(t: Tables): set<(Vertex, Vertex)>
    requires WellFormed(t)
  {
    set row | row in t.internalLinks :: RowEdge(t, row)
  }

  /** Names differ across every link, and the link types are ones the graph knows. */
  ghost predicate Orderly(t: Tables) {
    && WellFormed(t)
    && (forall row | row in t.internalLinks :: KnownToGraph(row.ltype) && t.cres[row.group].name != t.cres[row.cre].name)
    && forall row | row in t.nodeLinks && row.cre < |t.cres| && row.node in t.nodes ::
         KnownToGraph(row.ltype) && t.nodes[row.node].name != t.cres[row.cre].name
  }

  function FirstIndex(order: seq<nat>, c: nat): (i: nat)
    ensures i <= |order|
    ensures i < |order| ==> order[i] == c
    ensures forall j | 0 <= j < i :: order[j] != c
  {
    if order == [] || order[0] == c then 0 else 1 + FirstIndex(order[1..], c)
  }

  /** A Related row is taken in the direction in which the CRE that is visited first reads it. */
  ghost function Oriented(t: Tables, order: seq<nat>, row: InternalLink): (Vertex, Vertex)
    requires row.group < |t.cres| && row.cre < |t.cres|
  {
    if row.ltype.Related? && FirstIndex(order, row.cre) < FirstIndex(order, row.group)
    then (CreVertex(t, row.cre), CreVertex(t, row.group))
    else RowEdge(t, row)
  }

  ghost predicate RowsOfTable(t: Tables, rows: set<InternalLink>) {
    forall row | row in rows :: row in t.internalLinks
  }

  ghost function TypedOriented(t: Tables, order: seq<nat>, rows: set<InternalLink>): set<((Vertex, Vertex), LinkType)>
    requires WellFormed(t) && RowsOfTable(t, rows)
  {
    set row | row in rows :: (Oriented(t, order, row), row.ltype)
  }

  ghost function AllRows(t: Tables): set<InternalLink> {
    set row | row in t.internalLinks
  }

  ghost function OrientedEdges(t: Tables, order: seq<nat>): set<(Vertex, Vertex)>
    requires WellFormed(t)
  {
    set row | row in t.internalLinks :: Oriented(t, order, row)
  }

  lemma SameVertexSameCre(t: Tables, a: nat, b: nat)
    requires DistinctIds(t.cres) && a < |t.cres| && b < |t.cres| && CreVertex(t, a) == CreVertex(t, b)
    ensures a == b
  {
  }

  lemma EdgeOfOneRow(t: Tables, order: seq<nat>, row: InternalLink, other: InternalLink)
    requires WellFormed(t) && row in t.internalLinks && other in t.internalLinks
    requires Oriented(t, order, other) == RowEdge(t, row)
          || Oriented(t, order, other) == (CreVertex(t, row.cre), CreVertex(t, row.group))
    ensures row == other
  {
    var e := Oriented(t, order, other);
    hide CreVertex;
    assert e == (CreVertex(t, other.group), CreVertex(t, other.cre)) || e == (CreVertex(t, other.cre), CreVertex(t, other.group));
    if e.0 == CreVertex(t, row.group) {
      SameVertexSameCre(t, if e.0 == CreVertex(t, other.group) then other.group else other.cre, row.group);
      SameVertexSameCre(t, if e.1 == CreVertex(t, other.cre) then other.cre else other.group, row.cre);
    } else {
      SameVertexSameCre(t, if e.0 == CreVertex(t, other.group) then other.group else other.cre, row.cre);
      SameVertexSameCre(t, if e.1 == CreVertex(t, other.cre) then other.cre else other.group, row.group);
    }
  }

  /** The graph's edges between CREs are those of the given rows. */
  ghost predicate ShowsRows(t: Tables, order: seq<nat>, g: DiGraph, rows: set<InternalLink>)
    requires WellFormed(t)
  {
    && RowsOfTable(t, rows) && CreTails(g)
    && TypedCreEdges(g) == TypedOriented(t, order, rows)
  }

  lemma ShownRowEdge(t: Tables, order: seq<nat>, g: DiGraph, rows: set<InternalLink>, row: InternalLink)
    requires WellFormed(t) && ShowsRows(t, order, g, rows) && row in t.internalLinks
    ensures Oriented(t, order, row) in g.edges <==> row in rows
    ensures row in rows ==> g.edges[Oriented(t, order, row)] == row.ltype
    ensures var e := Oriented(t, order, row); (e.1, e.0) !in g.edges
  {
    var e := Oriented(t, order, row);
    if row in rows {
      assert (e, row.ltype) in TypedOriented(t, order, rows);
    }
    if e in g.edges {
      assert (e, g.edges[e]) in TypedCreEdges(g);
      var other :| other in rows && (Oriented(t, order, other), other.ltype) == (e, g.edges[e]);
      EdgeOfOneRow(t, order, row, other);
    }
    var back := (e.1, e.0);
    if back in g.edges {
      assert (back, g.edges[back]) in TypedCreEdges(g);
      var other :| other in rows && (Oriented(t, order, other), other.ltype) == (back, g.edges[back]);
      EdgeOfOneRow(t, order, row, other);
      SameVertexSameCre(t, row.group, row.cre);
    }
  }

  lemma PutShownRow(t: Tables, order: seq<nat>, g: DiGraph, rows: set<InternalLink>, row: InternalLink)
    requires WellFormed(t) && ShowsRows(t, order, g, rows) && row in t.internalLinks
    ensures ShowsRows(t, order, Put(g, Oriented(t, order, row), row.ltype), rows + {row})
    ensures row in rows ==> rows + {row} == rows
  {
    ShownRowEdge(t, order, g, rows, row);
    var e := Oriented(t, order, row);
    var h := Put(g, e, row.ltype);
    hide Oriented, WellFormed;
    assert e.0.kind.CreLabel? && e.1.kind.CreLabel?;
    assert TypedOriented(t, order, rows + {row}) == TypedOriented(t, order, rows) + {(e, row.ltype)};
    assert e in g.edges ==> g.edges[e] == row.ltype;
    PutTyped(g, e, row.ltype);
  }

  lemma PutTyped(g: DiGraph, e: (Vertex, Vertex), ltype: LinkType)
    requires JoinsCres(e) && (e in g.edges ==> g.edges[e] == ltype)
    ensures TypedCreEdges(Put(g, e, ltype)) == TypedCreEdges(g) + {(e, ltype)}
  {
    var h := Put(g, e, ltype);
    forall x | x in TypedCreEdges(h) ensures x in TypedCreEdges(g) + {(e, ltype)} {
      if x.0 != e { assert x.0 in g.edges; }
    }
    forall x | x in TypedCreEdges(g) + {(e, ltype)} ensures x in TypedCreEdges(h) {
      assert x.0 in h.edges && h.edges[x.0] == x.1;
    }
  }

  /** One row as the i-th visited CRE reads it. */
  lemma AttachRow(t: Tables, order: seq<nat>, i: nat, doc: Document, g: DiGraph, rows: set<InternalLink>, row: InternalLink)
    requires Orderly(t) && row in t.internalLinks && i < |order| && order[i] < |t.cres|
    requires doc.doctype.CRE? && doc.id == t.cres[order[i]].externalId && doc.name == t.cres[order[i]].name
    requires ShowsRows(t, order, g, rows) && ViewOfRow(t, row, order[i]) != []
    requires row !in rows && row.ltype.Related? ==> row.group !in order[..i] && row.cre !in order[..i]
    ensures ShowsRows(t, order, Attach(doc, ViewOfRow(t, row, order[i])[0], g), rows + {row})
  {
    var c, link := order[i], ViewOfRow(t, row, order[i])[0];
    ShownRowEdge(t, order, g, rows, row);
    PutShownRow(t, order, g, rows, row);
    assert KnownToGraph(row.ltype) && t.cres[row.group].name != t.cres[row.cre].name;
    hide ShowsRows, WellFormed, FirstIndex;
    var e, edge := Oriented(t, order, row), EdgeOf(doc, link).value.0;
    assert edge == e || edge == (e.1, e.0);
    if edge == e {
      assert Attach(doc, link, g) == Put(g, e, row.ltype);
    } else {
      assert row.ltype.Related? && row in rows;
      assert Attach(doc, link, g) == g;
    }
  }

  /** The rows that one of the CREs shows. */
  ghost function RowsShownBy(t: Tables, creIds: seq<nat>): set<InternalLink> {
    set row | row in t.internalLinks && ShownBy(t, row, creIds)
  }

  ghost predicate ShownBy(t: Tables, row: InternalLink, creIds: seq<nat>) {
    exists c :: c in creIds && ViewOfRow(t, row, c) != []
  }

  ghost function RowsSeen(t: Tables, rows: seq<InternalLink>, c: nat): set<InternalLink> {
    set row | row in rows && ViewOfRow(t, row, c) != []
  }

  lemma {:induction false} WithLinksOfConcat(doc: Document, a: seq<Link>, b: seq<Link>, g: DiGraph)
    ensures WithLinks(doc, a + b, g) == WithLinks(doc, b, WithLinks(doc, a, g))
  {
    if b == [] {
      assert a + b == a;
    } else {
      WithLinksOfConcat(doc, a, b[..|b| - 1], g);
      assert (a + b)[..|a + b| - 1] == a + b[..|b| - 1];
    }
  }

  lemma OneLink(doc: Document, link: Link, g: DiGraph)
    ensures WithLinks(doc, [link], g) == Attach(doc, link, g) && WithLinks(doc, [], g) == g
  {
    assert [link][..0] == [];
  }

  /** All rows as the i-th visited CRE reads them. */
  lemma {:induction false} AttachRows(t: Tables, order: seq<nat>, i: nat, doc: Document, g: DiGraph, k: nat)
    requires Orderly(t) && i < |order| && order[i] < |t.cres| && k <= |t.internalLinks|
    requires doc.doctype.CRE? && doc.id == t.cres[order[i]].externalId && doc.name == t.cres[order[i]].name
    requires ShowsRows(t, order, g, RowsShownBy(t, order[..i]))
    ensures ShowsRows(t, order, WithLinks(doc, InternalView(t, t.internalLinks[..k], order[i]), g),
      RowsShownBy(t, order[..i]) + RowsSeen(t, t.internalLinks[..k], order[i]))
  {
    hide *;
    var c, before := order[i], RowsShownBy(t, order[..i]);
    if k == 0 {
      NothingSeen(t, doc, g, c);
      assert before + {} == before;
    } else {
      AttachRows(t, order, i, doc, g, k - 1);
      var front, row := t.internalLinks[..k - 1], t.internalLinks[k - 1];
      var seen, view := before + RowsSeen(t, front, c), ViewOfRow(t, row, c);
      var h := WithLinks(doc, InternalView(t, front, c), g);
      assert t.internalLinks[..k] == front + [row];
      WithLinksOfConcat(doc, InternalView(t, front, c), view, g);
      SeenStep(t, front, row, c);
      assert before + RowsSeen(t, front + [row], c) == seen + if view == [] then {} else {row};
      if view == [] {
        OneLink(doc, Link(Contains, doc), h);
        assert seen + {} == seen;
      } else {
        OneLink(doc, view[0], h);
        assert view == [view[0]];
        NotYetShown(t, order, i, row);
        AttachRow(t, order, i, doc, h, seen, row);
      }
    }
  }

  lemma SeenStep(t: Tables, front: seq<InternalLink>, row: InternalLink, c: nat)
    ensures RowsSeen(t, front + [row], c) == RowsSeen(t, front, c) + if ViewOfRow(t, row, c) == [] then {} else {row}
    ensures InternalView(t, front + [row], c) == InternalView(t, front, c) + ViewOfRow(t, row, c)
    ensures |ViewOfRow(t, row, c)| <= 1
  {
    assert (front + [row])[..|front|] == front;
  }

  lemma NothingSeen(t: Tables, doc: Document, g: DiGraph, c: nat)
    ensures RowsSeen(t, t.internalLinks[..0], c) == {}
    ensures WithLinks(doc, InternalView(t, t.internalLinks[..0], c), g) == g
  {
  }

  lemma NotYetShown(t: Tables, order: seq<nat>, i: nat, row: InternalLink)
    requires Orderly(t) && row in t.internalLinks && i <= |order|
    ensures row !in RowsShownBy(t, order[..i]) && row.ltype.Related? ==> row.group !in order[..i] && row.cre !in order[..i]
  {
    if row.ltype.Related? && row.group in order[..i] {
      assert ViewOfRow(t, row, row.group) != [];
    }
    if row.ltype.Related? && row.cre in order[..i] {
      assert ViewOfRow(t, row, row.cre) != [];
    }
  }

  /** Links to resources change no edge between CREs. */
  lemma {:induction false} AttachNodes(t: Tables, order: seq<nat>, doc: Document, links: seq<Link>, g: DiGraph,
                                       rows: set<InternalLink>)
    requires WellFormed(t) && ShowsRows(t, order, g, rows) && doc.doctype.CRE?
    requires forall link | link in links :: !link.document.doctype.CRE? && GoodLink(doc, link)
    ensures ShowsRows(t, order, WithLinks(doc, links, g), rows)
  {
    if links != [] {
      var n := |links| - 1;
      AttachNodes(t, order, doc, links[..n], g, rows);
      var h, link := WithLinks(doc, links[..n], g), links[n];
      assert link in links;
      hide WellFormed, TypedOriented, WithLinks, GoodLink;
    }
  }

  lemma {:induction false} NodeViewIsGood(t: Tables, rows: seq<NodeLink>, cre: nat)
    requires Orderly(t) && cre < |t.cres| && forall row | row in rows :: row in t.nodeLinks
    ensures forall link | link in NodeView(t, rows, cre, []) ::
      !link.document.doctype.CRE? && KnownToGraph(link.ltype) && link.document.name != t.cres[cre].name
  {
    if rows != [] {
      assert rows[|rows| - 1] in rows;
      NodeViewIsGood(t, rows[..|rows| - 1], cre);
    }
  }

  lemma HydratedIsGood(t: Tables, cre: nat)
    requires Orderly(t) && cre < |t.cres|
    ensures GoodDocument(Hydrated(t, cre, []))
    ensures forall link | link in NodeView(t, t.nodeLinks, cre, []) ::
      !link.document.doctype.CRE? && GoodLink(Hydrated(t, cre, []), link)
  {
    var doc := Hydrated(t, cre, []);
    NodeViewIsGood(t, t.nodeLinks, cre);
    forall link | link in InternalView(t, t.internalLinks, cre) ensures GoodLink(doc, link) {
      ViewHolds(t, t.internalLinks, cre, link);
      var row :| row in t.internalLinks && link in ViewOfRow(t, row, cre);
    }
  }

  /** The edges between CREs after the first i documents, taken without a look at cycles. */
  lemma {:induction false} EdgesOfDocuments(t: Tables, order: seq<nat>, documents: seq<Document>, i: nat)
    requires Orderly(t) && i <= |order| == |documents|
    requires forall j | 0 <= j < |order| :: order[j] < |t.cres| && documents[j] == Hydrated(t, order[j], [])
    ensures ShowsRows(t, order, WithDocuments(documents[..i], EMPTY_GRAPH), RowsShownBy(t, order[..i]))
  {
    if i == 0 {
      assert RowsShownBy(t, order[..0]) == {};
    } else {
      EdgesOfDocuments(t, order, documents, i - 1);
      hide ShowsRows, Orderly, Hydrated, WithDocuments, GoodLink, GoodDocument, InternalView, NodeView, RowsSeen, RowsShownBy;
      var c, doc := order[i - 1], documents[i - 1];
      var g := WithDocuments(documents[..i - 1], EMPTY_GRAPH);
      HydratedIsGood(t, c);
      var nodes, rows := NodeView(t, t.nodeLinks, c, []), InternalView(t, t.internalLinks, c);
      WithLinksOfConcat(doc, nodes, rows, g);
      AttachNodes(t, order, doc, nodes, g, RowsShownBy(t, order[..i - 1]));
      assert t.internalLinks[..|t.internalLinks|] == t.internalLinks;
      AttachRows(t, order, i - 1, doc, WithLinks(doc, nodes, g), |t.internalLinks|);
      RowsOfNext(t, order, i - 1);
      OneMoreDocument(documents, i - 1, EMPTY_GRAPH);
    }
  }

  lemma RowsOfNext(t: Tables, order: seq<nat>, i: nat)
    requires i < |order|
    ensures RowsShownBy(t, order[..i]) + RowsSeen(t, t.internalLinks, order[i]) == RowsShownBy(t, order[..i + 1])
  {
    hide ViewOfRow;
    assert order[..i + 1] == order[..i] + [order[i]];
    assert forall c :: c in order[..i + 1] <==> c in order[..i] || c == order[i];
  }

  lemma AllRowsShown(t: Tables, order: seq<nat>)
    requires Orderly(t) && forall c: nat | c < |t.cres| :: c in order
    ensures RowsShownBy(t, order) == AllRows(t)
  {
    forall row | row in t.internalLinks ensures ShownBy(t, row, order) {
      assert row.group in order && ViewOfRow(t, row, row.group) != [];
    }
  }

  lemma UncheckedCreEdges(t: Tables, order: seq<nat>, g: DiGraph)
    requires WellFormed(t) && ShowsRows(t, order, g, AllRows(t))
    ensures CreEdges(g) == OrientedEdges(t, order)
  {
    hide Oriented;
    forall e ensures e in CreEdges(g) <==> e in OrientedEdges(t, order) {
      if e in CreEdges(g) {
        assert (e, g.edges[e]) in TypedCreEdges(g);
      }
      if e in OrientedEdges(t, order) {
        var row :| row in t.internalLinks && Oriented(t, order, row) == e;
        assert (e, row.ltype) in TypedOriented(t, order, AllRows(t));
      }
    }
  }

  lemma LoadedTables(t: Tables, order: seq<nat>, documents: seq<Document>)
    requires Orderly(t) && |order| == |documents|
    requires forall j | 0 <= j < |order| :: order[j] < |t.cres| && documents[j] == Hydrated(t, order[j], [])
    requires forall c: nat | c < |t.cres| :: c in order
    ensures forall doc | doc in documents :: GoodDocument(doc)
    ensures Calm(EMPTY_GRAPH)
    ensures WithDocuments(documents, EMPTY_GRAPH).IsAcyclic() <==> Acyclic(OrientedEdges(t, order))
    ensures TypedCreEdges(WithDocuments(documents, EMPTY_GRAPH)) == TypedOriented(t, order, AllRows(t))
  {
    hide Orderly, Hydrated, WithDocuments, GoodDocument, OrientedEdges, TypedOriented, WellFormed;
    forall doc | doc in documents ensures GoodDocument(doc) {
      var i :| 0 <= i < |documents| && documents[i] == doc;
      HydratedIsGood(t, order[i]);
    }
    assert documents[..|documents|] == documents && order[..|order|] == order;
    EdgesOfDocuments(t, order, documents, |order|);
    AllRowsShown(t, order);
    OrderlyIsWellFormed(t);
    EmptyGraphIsCalm();
    UncheckedCreEdges(t, order, WithDocuments(documents, EMPTY_GRAPH));
    SinksDoNotMatter(WithDocuments(documents, EMPTY_GRAPH));
  }

  lemma OrderlyIsWellFormed(t: Tables)
    requires Orderly(t)
    ensures WellFormed(t) && RowsOfTable(t, AllRows(t))
  {
  }

  /** No stored link names a resource as the container of a CRE. */
  ghost predicate NoContainerResources(t: Tables) {
    forall row | row in t.nodeLinks && row.cre < |t.cres| && row.node in t.nodes && row.ltype.PartOf? ::
      t.nodes[row.node].doctype.CRE?
  }

  lemma {:induction false} NodeViewIsSafe(t: Tables, rows: seq<NodeLink>, cre: nat)
    requires NoContainerResources(t) && cre < |t.cres| && forall row | row in rows :: row in t.nodeLinks
    ensures forall link | link in NodeView(t, rows, cre, []) :: link.ltype.PartOf? ==> link.document.doctype.CRE?
  {
    if rows != [] {
      assert rows[|rows| - 1] in rows;
      NodeViewIsSafe(t, rows[..|rows| - 1], cre);
    }
  }

  lemma HydratedIsSafe(t: Tables, cre: nat)
    requires NoContainerResources(t) && cre < |t.cres|
    ensures SafeDocument(Hydrated(t, cre, []))
  {
    NodeViewIsSafe(t, t.nodeLinks, cre);
    forall link | link in InternalView(t, t.internalLinks, cre) ensures link.document.doctype.CRE? {
      ViewHolds(t, t.internalLinks, cre, link);
    }
  }

  lemma HydratedAreSafe(t: Tables, order: seq<nat>, documents: seq<Document>)
    requires NoContainerResources(t) && |order| == |documents|
    requires forall j | 0 <= j < |order| :: order[j] < |t.cres| && documents[j] == Hydrated(t, order[j], [])
    ensures forall doc | doc in documents :: SafeDocument(doc)
  {
    hide NoContainerResources, Hydrated, SafeDocument;
    forall doc | doc in documents ensures SafeDocument(doc) {
      var i :| 0 <= i < |documents| && documents[i] == doc;
      HydratedIsSafe(t, order[i]);
    }
  }

  lemma OrderlyHasNoContainerResources(t: Tables)
    requires Orderly(t)
    ensures NoContainerResources(t)
  {
  }

  /**
   Builds a graph from the documents of all CREs, taken in any order. Unless a resource is stored as the
   container of a CRE, the graph is acyclic, even after an error. No link is refused exactly when the
   rows, with each Related row taken in the direction of the CRE that is visited first, are acyclic; the
   graph then has one edge for each row and no other edge between CREs.
   */
  method LoadFromTables(t: Tables, order: seq<nat>)
    returns (graph: CreGraph, r: Result<(), GraphError>, ghost swallowed: nat)
    requires PairsAreKeys(t.internalLinks)
    requires forall i | 0 <= i < |order| :: order[i] < |t.cres|
    requires forall c: nat | c < |t.cres| :: c in order
    ensures fresh(graph)
    ensures NoContainerResources(t) ==> Calm(graph.graph)
    ensures Orderly(t) ==>
      && r.Success? && Calm(graph.graph)
      && (swallowed == 0 <==> Acyclic(OrientedEdges(t, order)))
      && (swallowed == 0 ==> TypedCreEdges(graph.graph) == TypedOriented(t, order, AllRows(t)))
  {
    hide *;
    graph := new CreGraph();
    var documents := HydrateCresBatch(t, order, []);
    EmptyGraphIsCalm();
    if Orderly(t) {
      OrderlyHasNoContainerResources(t);
    }
    if NoContainerResources(t) {
      HydratedAreSafe(t, order, documents);
    }
    r, swallowed := graph.LoadCreGraph(documents);
    if Orderly(t) {
      OrderlyIsWellFormed(t);
      LoadedTables(t, order, documents);
      if swallowed == 0 {
        SameTyped(graph.graph, WithDocuments(documents, EMPTY_GRAPH));
      }
    }
  }

  lemma SameTyped(g: DiGraph, h: DiGraph)
    requires g.edges == h.edges
    ensures TypedCreEdges(g) == TypedCreEdges(h)
  {
  }

  /** Without Related rows the order of the documents does not matter. */
  lemma ContainmentsLoadExactly(t: Tables, order: seq<nat>)
    requires Orderly(t) && forall row | row in t.internalLinks :: !row.ltype.Related?
    ensures OrientedEdges(t, order) == RowEdges(t)
    ensures forall row | row in t.internalLinks :: Oriented(t, order, row) == RowEdge(t, row)
  {
    hide CreVertex, FirstIndex;
  }

  /** One CRE contains a second one, which contains a third one, to which the first is related. */
  ghost function Triangle(top: CreRow, middle: CreRow, bottom: CreRow): Tables {
    var rows := [InternalLink(0, 1, Contains), InternalLink(1, 2, Contains), InternalLink(0, 2, Related)];
    Tables([top, middle, bottom], map[], rows, [])
  }

  lemma TriangleIsOrderly(top: CreRow, middle: CreRow, bottom: CreRow)
    requires top.name != middle.name && middle.name != bottom.name && top.name != bottom.name
    requires top.externalId != middle.externalId && middle.externalId != bottom.externalId && top.externalId != bottom.externalId
    ensures Orderly(Triangle(top, middle, bottom))
  {
  }

  lemma TriangleEdges(top: CreRow, middle: CreRow, bottom: CreRow, order: seq<nat>)
    requires Orderly(Triangle(top, middle, bottom))
    ensures
      var t := Triangle(top, middle, bottom);
      var a, b, c := CreVertex(t, 0), CreVertex(t, 1), CreVertex(t, 2);
      && RowEdges(t) == {(a, b), (b, c), (a, c)}
      && OrientedEdges(t, order) == {(a, b), (b, c), if FirstIndex(order, 2) < FirstIndex(order, 0) then (c, a) else (a, c)}
  {
    var t := Triangle(top, middle, bottom);
    var r0, r1, r2 := InternalLink(0, 1, Contains), InternalLink(1, 2, Contains), InternalLink(0, 2, Related);
    assert forall row :: row in t.internalLinks <==> row == r0 || row == r1 || row == r2;
    hide FirstIndex, CreVertex, Orderly;
    assert RowEdges(t) == {RowEdge(t, r0), RowEdge(t, r1), RowEdge(t, r2)};
    assert OrientedEdges(t, order) == {Oriented(t, order, r0), Oriented(t, order, r1), Oriented(t, order, r2)};
  }

  /**
   A Related row can cost a containment: read from its lower end first it closes a cycle with two
   containments, although the table as it is stored holds none.
   */
  lemma RelatedRowMayCloseCycle(top: CreRow, middle: CreRow, bottom: CreRow)
    requires top.name != middle.name && middle.name != bottom.name && top.name != bottom.name
    requires top.externalId != middle.externalId && middle.externalId != bottom.externalId && top.externalId != bottom.externalId
    ensures Orderly(Triangle(top, middle, bottom)) && Acyclic(RowEdges(Triangle(top, middle, bottom)))
    ensures !Acyclic(OrientedEdges(Triangle(top, middle, bottom), [2, 0, 1]))
  {
    hide *;
    var t := Triangle(top, middle, bottom);
    TriangleIsOrderly(top, middle, bottom);
    OrderlyIsWellFormed(t);
    TriangleEdges(top, middle, bottom, [2, 0, 1]);
    BottomFirst();
    VerticesOfTriangle(top, middle, bottom);
    var a, b, c := CreVertex(t, 0), CreVertex(t, 1), CreVertex(t, 2);
    RisingEdgesAcyclic({(a, b), (b, c), (a, c)}, v => if v == a then 0 else if v == b then 1 else 2);
    ThreeCycle(a, b, c);
  }

  lemma BottomFirst()
    ensures FirstIndex([2, 0, 1], 2) < FirstIndex([2, 0, 1], 0)
  {
  }

  lemma VerticesOfTriangle(top: CreRow, middle: CreRow, bottom: CreRow)
    requires Orderly(Triangle(top, middle, bottom))
    ensures var t := Triangle(top, middle, bottom);
      |t.cres| == 3 && CreVertex(t, 0) != CreVertex(t, 1) && CreVertex(t, 1) != CreVertex(t, 2) && CreVertex(t, 0) != CreVertex(t, 2)
  {
  }

  lemma ThreeCycle(a: Vertex, b: Vertex, c: Vertex)
    ensures !Acyclic({(a, b), (b, c), (c, a)})
  {
    assert IsCycle({(a, b), (b, c), (c, a)}, [a, b, c, a]);
  }

  // ---------------------------------------------------------------- loading in any order

  ghost predicate Covers(t: Tables, order: seq<nat>) {
    (forall i | 0 <= i < |order| :: order[i] < |t.cres|) && forall c: nat | c < |t.cres| :: c in order
  }

  /** The rows' edges, with the Related ones in both directions. */
  ghost function EitherWay(t: Tables): set<(Vertex, Vertex)>
    requires WellFormed(t)
  {
    RowEdges(t) + set row | row in t.internalLinks && row.ltype.Related? :: (CreVertex(t, row.cre), CreVertex(t, row.group))
  }

  ghost function RowAt(t: Tables, v: Vertex): nat {
    if c: nat :| c < |t.cres| && CreVertex(t, c) == v then c else 0
  }

  lemma RowOfVertex(t: Tables, c: nat)
    requires DistinctIds(t.cres) && c < |t.cres|
    ensures RowAt(t, CreVertex(t, c)) == c
  {
  }

  ghost function DirectedEdges(t: Tables): set<(Vertex, Vertex)>
    requires WellFormed(t)
  {
    set row | row in t.internalLinks && !row.ltype.Related? :: RowEdge(t, row)
  }

  /** Every edge of a cycle leads from a vertex that is visited first to another one, or is a directed row's. */
  lemma OrientedEdgeKinds(t: Tables, order: seq<nat>, e: (Vertex, Vertex))
    requires WellFormed(t) && Covers(t, order) && e in OrientedEdges(t, order)
    ensures e in EitherWay(t)
    ensures e in DirectedEdges(t) || FirstIndex(order, RowAt(t, e.0)) < FirstIndex(order, RowAt(t, e.1))
  {
    hide CreVertex, RowAt, FirstIndex;
    var row :| row in t.internalLinks && Oriented(t, order, row) == e;
    RowOfVertex(t, row.group);
    RowOfVertex(t, row.cre);
    assert row.group in order && row.cre in order;
    var a, b := FirstIndex(order, row.group), FirstIndex(order, row.cre);
    assert a < |order| && b < |order| && order[a] != order[b];
  }

  /** Some way of walking the Related rows leads from the row's lower CRE to its group. */
  ghost predicate LeadsBack(t: Tables, row: InternalLink)
    requires WellFormed(t) && row in t.internalLinks
  {
    HasPath(EitherWay(t), CreVertex(t, row.cre), CreVertex(t, row.group))
  }

  /** A cycle met in some order runs through a row that is not Related. */
  lemma CycleHasDirectedRow(t: Tables, order: seq<nat>, w: seq<Vertex>)
    requires WellFormed(t) && Covers(t, order) && IsCycle(OrientedEdges(t, order), w)
    ensures exists row :: row in t.internalLinks && !row.ltype.Related? && LeadsBack(t, row)
  {
    var edges := OrientedEdges(t, order);
    forall e | e in edges
      ensures e in EitherWay(t)
      ensures e in DirectedEdges(t) || FirstIndex(order, RowAt(t, e.0)) < FirstIndex(order, RowAt(t, e.1))
    {
      OrientedEdgeKinds(t, order, e);
    }
    hide OrientedEdges, EitherWay, FirstIndex, RowAt, CreVertex;
    var rising := edges - DirectedEdges(t);
    RisingEdgesAcyclic(rising, v => FirstIndex(order, RowAt(t, v)));
    assert !IsCycle(rising, w);
    var i :| 0 <= i < |w| - 1 && (w[i], w[i + 1]) !in rising;
    assert (w[i], w[i + 1]) in edges;
    var row :| row in t.internalLinks && !row.ltype.Related? && RowEdge(t, row) == (w[i], w[i + 1]);
    RestOfCycle(edges, w, i);
    PathStays(edges, EitherWay(t), w[i + 1], w[i]);
  }

  /** An order that visits the CREs of a path one after the other, and then all CREs. */
  lemma OrderAlongPath(t: Tables, row: InternalLink, path: seq<Vertex>) returns (order: seq<nat>)
    requires WellFormed(t) && row in t.internalLinks && !row.ltype.Related?
    requires IsWalk(EitherWay(t), path) && Distinct(path)
    requires path[0] == CreVertex(t, row.cre) && path[|path| - 1] == CreVertex(t, row.group)
    ensures Covers(t, order) && IsCycle(OrientedEdges(t, order), path + [path[0]])
  {
    var first := seq(|path|, k requires 0 <= k < |path| => RowAt(t, path[k]));
    forall k | 0 <= k < |path| ensures first[k] < |t.cres| && CreVertex(t, first[k]) == path[k] {
      assert k + 1 < |path| ==> (path[k], path[k + 1]) in EitherWay(t);
    }
    order := first + seq(|t.cres|, c => c);
    hide *;
    AllCovered(t, first);
    assert Distinct(first) by { DistinctRows(t, path, first); }
    CycleAlongOrder(t, row, path, first, order);
  }

  lemma DistinctRows(t: Tables, path: seq<Vertex>, first: seq<nat>)
    requires |first| == |path| && Distinct(path)
    requires forall k | 0 <= k < |path| :: first[k] < |t.cres| && CreVertex(t, first[k]) == path[k]
    ensures Distinct(first)
  {
    hide CreVertex;
  }

  lemma AllCovered(t: Tables, first: seq<nat>)
    requires forall k | 0 <= k < |first| :: first[k] < |t.cres|
    ensures Covers(t, first + seq(|t.cres|, c => c))
  {
    var order := first + seq(|t.cres|, c => c);
    forall c: nat | c < |t.cres| ensures c in order {
      assert order[|first| + c] == c;
    }
  }

  lemma CycleAlongOrder(t: Tables, row: InternalLink, path: seq<Vertex>, first: seq<nat>, order: seq<nat>)
    requires WellFormed(t) && row in t.internalLinks && !row.ltype.Related? && IsWalk(EitherWay(t), path)
    requires path[0] == CreVertex(t, row.cre) && path[|path| - 1] == CreVertex(t, row.group)
    requires |first| == |path| && first <= order && Distinct(first)
    requires forall k | 0 <= k < |path| :: first[k] < |t.cres| && CreVertex(t, first[k]) == path[k]
    ensures IsCycle(OrientedEdges(t, order), path + [path[0]])
  {
    assert Oriented(t, order, row) == RowEdge(t, row) && Oriented(t, order, row) in OrientedEdges(t, order);
    hide OrientedEdges, EitherWay, CreVertex, FirstIndex;
    var cycle := path + [path[0]];
    forall k | 0 <= k < |path| - 1 ensures (path[k], path[k + 1]) in OrientedEdges(t, order) {
      StepAlongOrder(t, path, first, order, k);
    }
    assert cycle[|path|] == path[0];
  }

  lemma StepAlongOrder(t: Tables, path: seq<Vertex>, first: seq<nat>, order: seq<nat>, k: nat)
    requires WellFormed(t) && IsWalk(EitherWay(t), path) && k + 1 < |path|
    requires |first| == |path| && first <= order && Distinct(first)
    requires forall k | 0 <= k < |path| :: first[k] < |t.cres| && CreVertex(t, first[k]) == path[k]
    ensures (path[k], path[k + 1]) in OrientedEdges(t, order)
  {
    hide FirstIndex;
    FirstOfPath(first, order, k);
    FirstOfPath(first, order, k + 1);
    assert (path[k], path[k + 1]) in EitherWay(t);
  }

  lemma FirstOfPath(first: seq<nat>, order: seq<nat>, k: nat)
    requires first <= order && k < |first| && Distinct(first)
    ensures FirstIndex(order, first[k]) == k
  {
    assert order[k] == first[k];
    var i := FirstIndex(order, first[k]);
    assert i <= k && first[i] == order[i];
  }

  lemma OrderThatRefuses(t: Tables, row: InternalLink) returns (order: seq<nat>)
    requires WellFormed(t) && row in t.internalLinks && !row.ltype.Related? && LeadsBack(t, row)
    ensures Covers(t, order) && !Acyclic(OrientedEdges(t, order))
  {
    hide EitherWay, OrientedEdges, Covers, CreVertex;
    var w :| IsWalk(EitherWay(t), w) && w[0] == CreVertex(t, row.cre) && w[|w| - 1] == CreVertex(t, row.group);
    var path := SimpleWalk(EitherWay(t), w);
    order := OrderAlongPath(t, row, path);
  }

  /**
   Every order of the documents loads every row exactly when no cycle runs through a row that is not
   Related, Related rows being walked either way.
   */
  lemma AnyOrderLoadsIff(t: Tables)
    requires WellFormed(t)
    ensures (forall order | Covers(t, order) :: Acyclic(OrientedEdges(t, order))) <==>
      forall row | row in t.internalLinks && !row.ltype.Related? :: !LeadsBack(t, row)
  {
    hide WellFormed, EitherWay, OrientedEdges, Covers, CreVertex, LeadsBack;
    forall row | row in t.internalLinks && !row.ltype.Related? && LeadsBack(t, row)
      ensures exists order :: Covers(t, order) && !Acyclic(OrientedEdges(t, order))
    {
      var order := OrderThatRefuses(t, row);
    }
    forall order, w | Covers(t, order) && IsCycle(OrientedEdges(t, order), w)
      ensures exists row :: row in t.internalLinks && !row.ltype.Related? && LeadsBack(t, row)
    {
      CycleHasDirectedRow(t, order, w);
    }
  }

  // ---------------------------------------------------------------- what the exporter fetches

  function LinkTypeName(ltype: LinkType): string {
    match ltype
    case LinkedTo => "Linked To"
    case PartOf => "Is Part Of"
    case Contains => "Contains"
    case Related => "Related"
    case AutomaticallyLinkedTo => "Automatically linked to"
    case RemediatedBy => "Remediated by"
    case Remediates => "Remediates"
    case TestedBy => "TestedBy"
    case Tests => "Tests"
  }

  function ToExportLink(link: Link): Export.Link {
    Export.Link(LinkTypeName(link.ltype), link.document.doctype.CRE?, link.document.id)
  }

  function ToPayload(doc: Document): Export.Payload {
    Export.Payload(seq(|doc.links|, i requires 0 <= i < |doc.links| => ToExportLink(doc.links[i])))
  }

  ghost function ExternalIds(t: Tables): set<string> {
    set row | row in t.cres :: row.externalId
  }

  ghost function RowWithId(t: Tables, id: string): (cre: nat)
    requires id in ExternalIds(t)
    ensures cre < |t.cres| && t.cres[cre].externalId == id
  {
    var i :| 0 <= i < |t.cres| && t.cres[i].externalId == id;
    i
  }

  /** The documents served over HTTP, by external id. */
  ghost function Api(t: Tables): map<string, Export.Payload> {
    map id | id in ExternalIds(t) :: ToPayload(Hydrated(t, RowWithId(t, id), []))
  }

  ghost predicate ListsCre(doc: Document, ltype: LinkType, id: string) {
    exists link :: link in doc.links && link.ltype == ltype && link.document.doctype.CRE? && link.document.id == id
  }

  lemma SameTypeName(ltype: LinkType)
    ensures forall other :: LinkTypeName(other) == LinkTypeName(ltype) <==> other == ltype
  {
  }

  lemma PayloadLists(doc: Document, ltype: LinkType, id: string)
    requires Export.IsCreId(id)
    ensures id in Export.LinkedCres(ToPayload(doc), LinkTypeName(ltype)) <==> ListsCre(doc, ltype, id)
  {
    hide Export.IsCreId, LinkTypeName;
    SameTypeName(ltype);
    var links := ToPayload(doc).links;
    if ListsCre(doc, ltype, id) {
      var link :| link in doc.links && link.ltype == ltype && link.document.doctype.CRE? && link.document.id == id;
      var i :| 0 <= i < |doc.links| && doc.links[i] == link;
      assert links[i] == ToExportLink(link) && links[i] in links;
    }
    if id in Export.LinkedCres(ToPayload(doc), LinkTypeName(ltype)) {
      var link :| link in links && link.ltype == LinkTypeName(ltype) && link.docIsCre && link.docId == id;
      var i :| 0 <= i < |links| && links[i] == link;
      assert link == ToExportLink(doc.links[i]);
    }
  }

  lemma PayloadLinks(t: Tables, a: nat, b: nat, ltype: LinkType)
    requires WellFormed(t) && a < |t.cres| && b < |t.cres| && Export.IsCreId(t.cres[b].externalId)
    ensures t.cres[b].externalId in Export.LinkedCres(ToPayload(Hydrated(t, a, [])), LinkTypeName(ltype))
      <==> Shows(t, a, ltype, b)
  {
    var doc, id := Hydrated(t, a, []), t.cres[b].externalId;
    PayloadLists(doc, ltype, id);
    hide Hydrated, Export.LinkedCres, Export.IsCreId, ToPayload, LinkTypeName;
    if ListsCre(doc, ltype, id) {
      var link :| link in doc.links && link.ltype == ltype && link.document.doctype.CRE? && link.document.id == id;
      CreLinksComeFromRows(t, a, link);
      var c :| 0 <= c < |t.cres| && link.document == CreFromDb(t.cres[c]);
      SameExternalId(t, b, c);
      assert link == Link(ltype, CreFromDb(t.cres[b]));
    }
    if Shows(t, a, ltype, b) {
      assert ListsCre(doc, ltype, id);
    }
  }

  lemma SameExternalId(t: Tables, b: nat, c: nat)
    requires DistinctIds(t.cres) && b < |t.cres| && c < |t.cres| && t.cres[b].externalId == t.cres[c].externalId
    ensures b == c
  {
  }

  lemma CreLinksComeFromRows(t: Tables, a: nat, link: Link)
    requires WellFormed(t) && a < |t.cres| && link in Hydrated(t, a, []).links && link.document.doctype.CRE?
    ensures exists c :: 0 <= c < |t.cres| && link.document == CreFromDb(t.cres[c])
  {
    NodeViewShowsNodes(t, t.nodeLinks, a, []);
    ViewHolds(t, t.internalLinks, a, link);
  }

  /** The exporter's documents list parents and children consistently. */
  lemma HydratedApiIsDual(t: Tables)
    requires WellFormed(t) && forall id | id in ExternalIds(t) :: Export.IsCreId(id)
    ensures Export.DualApi(Api(t))
  {
    hide Export.ChildSet, Export.ParentSet, Export.IsCreId, WellFormed;
    var api := Api(t);
    forall x, y | x in api && y in api
      ensures y in Export.ChildSet(api[x]) <==> x in Export.ParentSet(api[y])
    {
      ApiPairIsDual(t, x, y);
    }
  }

  lemma ApiPairIsDual(t: Tables, x: string, y: string)
    requires WellFormed(t) && x in ExternalIds(t) && y in ExternalIds(t)
    requires Export.IsCreId(x) && Export.IsCreId(y)
    ensures y in Export.ChildSet(Api(t)[x]) <==> x in Export.ParentSet(Api(t)[y])
  {
    var a, b := RowWithId(t, x), RowWithId(t, y);
    hide Export.IsCreId, Hydrated, ToPayload, Export.LinkedCres, Shows, WellFormed;
    PayloadLinks(t, a, b, Contains);
    PayloadLinks(t, b, a, PartOf);
    ViewsAreDual(t, a, b);
  }

  // ---------------------------------------------------------------- exported paths as rows of the table

  /** A stored row says that CRE a contains CRE b. */
  ghost predicate ContainsRow(t: Tables, a: nat, b: nat) {
    exists row :: row in t.internalLinks && row.ltype.Contains? && row.group == a && row.cre == b
  }

  /** The links of the served documents, as they are spelled. */
  lemma ServedLinks(t: Tables, a: nat, b: nat)
    requires WellFormed(t) && a < |t.cres| && b < |t.cres|
    ensures Export.Link("Contains", true, t.cres[b].externalId) in Api(t)[t.cres[a].externalId].links <==> ContainsRow(t, a, b)
    ensures Export.Link("Is Part Of", true, t.cres[a].externalId) in Api(t)[t.cres[b].externalId].links <==> ContainsRow(t, a, b)
  {
    SameExternalId(t, a, RowWithId(t, t.cres[a].externalId));
    SameExternalId(t, b, RowWithId(t, t.cres[b].externalId));
    ShownLinks(t, a, Contains, b);
    ShownLinks(t, b, PartOf, a);
    hide Hydrated, ToPayload, WellFormed;
    ServedLink(t, a, Contains, b);
    ServedLink(t, b, PartOf, a);
  }

  lemma ServedLink(t: Tables, a: nat, ltype: LinkType, b: nat)
    requires WellFormed(t) && a < |t.cres| && b < |t.cres|
    ensures Export.Link(LinkTypeName(ltype), true, t.cres[b].externalId) in ToPayload(Hydrated(t, a, [])).links
      <==> Shows(t, a, ltype, b)
  {
    var doc, id := Hydrated(t, a, []), t.cres[b].externalId;
    var served := Export.Link(LinkTypeName(ltype), true, id);
    var links := ToPayload(doc).links;
    if served in links {
      var i :| 0 <= i < |links| && links[i] == served;
      var link := doc.links[i];
      assert served == ToExportLink(link);
      SameLinkType(link.ltype, ltype);
      hide Hydrated, LinkTypeName;
      CreLinksComeFromRows(t, a, link);
      var c :| 0 <= c < |t.cres| && link.document == CreFromDb(t.cres[c]);
      SameExternalId(t, b, c);
      assert link == Link(ltype, CreFromDb(t.cres[b]));
    }
    if Shows(t, a, ltype, b) {
      hide Hydrated, LinkTypeName;
      var link := Link(ltype, CreFromDb(t.cres[b]));
      var i :| 0 <= i < |doc.links| && doc.links[i] == link;
      assert links[i] == ToExportLink(link) == served;
    }
  }

  lemma SameLinkType(a: LinkType, b: LinkType)
    ensures LinkTypeName(a) == LinkTypeName(b) ==> a == b
  {
  }

  lemma ContainersAreRows(t: Tables, a: nat, b: nat)
    requires WellFormed(t) && a < |t.cres| && b < |t.cres| && Export.IsCreId(t.cres[a].externalId)
    ensures t.cres[a].externalId in Export.ParentSet(Api(t)[t.cres[b].externalId]) <==> ContainsRow(t, a, b)
  {
    ServedLinks(t, a, b);
    Export.ParentIff(Api(t)[t.cres[b].externalId], t.cres[a].externalId);
    Export.WellFormedIff(t.cres[a].externalId);
    hide Export.ParentSet, Export.IsCreId, Api, WellFormed, ContainsRow;
  }

  /** Whatever a served document names as a container is stored. */
  lemma ContainersAreStored(t: Tables, b: nat, x: string)
    requires WellFormed(t) && b < |t.cres| && x in Export.ParentSet(Api(t)[t.cres[b].externalId])
    ensures x in ExternalIds(t)
  {
    SameExternalId(t, b, RowWithId(t, t.cres[b].externalId));
    Export.ParentIff(Api(t)[t.cres[b].externalId], x);
    hide Export.ParentSet, WellFormed, Hydrated;
    var doc := Hydrated(t, b, []);
    var links := ToPayload(doc).links;
    var i :| 0 <= i < |links| && links[i] == Export.Link("Is Part Of", true, x);
    assert links[i] == ToExportLink(doc.links[i]);
    CreLinksComeFromRows(t, b, doc.links[i]);
  }

  /** Row numbers of CREs, each of which is stored as containing the next, from one that no row places below another. */
  ghost predicate ContainmentChain(t: Tables, b: nat, c: seq<nat>) {
    && c != [] && (forall i | 0 <= i < |c| :: c[i] < |t.cres|)
    && (forall i | 0 <= i < |c| - 1 :: ContainsRow(t, c[i], c[i + 1]))
    && c[|c| - 1] == b && forall a: nat :: !ContainsRow(t, a, c[0])
  }

  ghost function IdsOfRows(t: Tables, c: seq<nat>): seq<string>
    requires forall i | 0 <= i < |c| :: c[i] < |t.cres|
  {
    seq(|c|, i requires 0 <= i < |c| => t.cres[c[i]].externalId)
  }

  /** The ids along a shortest such chain down to b, or b alone if there is none. */
  ghost predicate RowPath(t: Tables, b: nat, p: seq<string>)
    requires b < |t.cres|
  {
    if forall c :: !ContainmentChain(t, b, c) then p == [t.cres[b].externalId]
    else exists c :: ContainmentChain(t, b, c) && p == IdsOfRows(t, c) && forall d | ContainmentChain(t, b, d) :: |c| <= |d|
  }

  ghost predicate IdsWellFormed(t: Tables) {
    forall c: nat | c < |t.cres| :: Export.IsCreId(t.cres[c].externalId)
  }

  lemma ContainmentIsExported(t: Tables, b: nat, c: seq<nat>)
    requires WellFormed(t) && IdsWellFormed(t) && b < |t.cres| && ContainmentChain(t, b, c)
    ensures Export.ApiRootChain(Api(t), t.cres[b].externalId, IdsOfRows(t, c))
  {
    hide Export.ParentSet, Export.IsCreId, WellFormed, ContainsRow, Hydrated, ToPayload;
    var p := IdsOfRows(t, c);
    forall i | 0 <= i < |p| - 1 ensures p[i] in Export.ParentSet(Api(t)[p[i + 1]]) {
      ContainersAreRows(t, c[i], c[i + 1]);
    }
    TopIsRoot(t, c[0]);
  }

  lemma TopIsRoot(t: Tables, b: nat)
    requires WellFormed(t) && IdsWellFormed(t) && b < |t.cres| && forall a: nat :: !ContainsRow(t, a, b)
    ensures Export.ParentSet(Api(t)[t.cres[b].externalId]) == {}
  {
    hide Export.ParentSet, Export.IsCreId, WellFormed, ContainsRow, Hydrated, ToPayload;
    var containers := Export.ParentSet(Api(t)[t.cres[b].externalId]);
    forall x ensures x !in containers {
      if x in containers {
        ContainersAreStored(t, b, x);
        ContainersAreRows(t, RowWithId(t, x), b);
      }
    }
  }

  lemma ExportedIsContainment(t: Tables, b: nat, p: seq<string>) returns (c: seq<nat>)
    requires WellFormed(t) && IdsWellFormed(t) && b < |t.cres| && Export.ApiRootChain(Api(t), t.cres[b].externalId, p)
    ensures ContainmentChain(t, b, c) && p == IdsOfRows(t, c)
  {
    hide Export.ParentSet, Export.IsCreId, WellFormed, ContainsRow;
    c := seq(|p|, i requires 0 <= i < |p| => RowWithId(t, p[i]));
    forall i | 0 <= i < |c| - 1 ensures ContainsRow(t, c[i], c[i + 1]) {
      ContainersAreRows(t, c[i], c[i + 1]);
    }
    SameIdSameRow(t, b, c[|c| - 1]);
    forall a: nat ensures !ContainsRow(t, a, c[0]) {
      if ContainsRow(t, a, c[0]) {
        RowsAreStored(t, a, c[0]);
        ContainersAreRows(t, a, c[0]);
      }
    }
  }

  lemma SameIdSameRow(t: Tables, a: nat, b: nat)
    requires WellFormed(t) && a < |t.cres| && b < |t.cres| && t.cres[a].externalId == t.cres[b].externalId
    ensures a == b
  {
  }

  lemma RowsAreStored(t: Tables, a: nat, b: nat)
    requires WellFormed(t) && ContainsRow(t, a, b)
    ensures a < |t.cres| && b < |t.cres|
  {
  }

  lemma ExportedIsRowPath(t: Tables, b: nat, p: seq<string>)
    requires WellFormed(t) && IdsWellFormed(t) && b < |t.cres|
    ensures Export.ExportedPath(Api(t), t.cres[b].externalId, p) <==> RowPath(t, b, p)
  {
    hide Export.ApiRootChain, ContainsRow, WellFormed, IdsWellFormed, Api;
    var id := t.cres[b].externalId;
    forall q | Export.ApiRootChain(Api(t), id, q)
      ensures exists c :: ContainmentChain(t, b, c) && q == IdsOfRows(t, c) && |q| == |c|
    {
      var c := ExportedIsContainment(t, b, q);
    }
    forall c | ContainmentChain(t, b, c) ensures Export.ApiRootChain(Api(t), id, IdsOfRows(t, c)) && |IdsOfRows(t, c)| == |c| {
      ContainmentIsExported(t, b, c);
    }
  }

  /**
   The exporter on the served documents, in terms of the table. It fails exactly when a requested id is
   not stored. Otherwise the paths of a requested CRE are exactly the ids along its shortest chains of
   Contains rows, from a CRE that is the lower end of no such row down to it, or its own id alone.
   */
  method ExportTable(ghost t: Tables, api: map<string, Export.Payload>, ids: seq<string>)
    returns (r: Result<seq<(string, seq<string>)>, string>)
    requires WellFormed(t) && api == Api(t)
    requires forall row | row in t.cres ::
      var id := row.externalId;
      |id| == 7 && id[3] == '-' && forall i | i in [0, 1, 2, 4, 5, 6] :: '0' <= id[i] <= '9'
    ensures r.Success? <==> forall id | id in ids :: exists row :: row in t.cres && row.externalId == id
    ensures r.Success? ==> forall id, p | (id, p) in r.value :: id in ids
    ensures r.Success? ==> forall b: nat, p | b < |t.cres| ::
      (t.cres[b].externalId, p) in r.value <==> t.cres[b].externalId in ids && RowPath(t, b, p)
  {
    AllWellFormed(t);
    ApiIsServed(t);
    hide *;
    AllIdsClosed(t, ids);
    HydratedApiIsDual(t);
    r := Export.ExportPaths(api, ids);
    forall b: nat, p | b < |t.cres| ensures Export.ExportedPath(api, t.cres[b].externalId, p) <==> RowPath(t, b, p) {
      ExportedIsRowPath(t, b, p);
    }
  }

  lemma AllWellFormed(t: Tables)
    requires forall row | row in t.cres ::
      var id := row.externalId;
      |id| == 7 && id[3] == '-' && forall i | i in [0, 1, 2, 4, 5, 6] :: '0' <= id[i] <= '9'
    ensures IdsWellFormed(t) && forall id | id in ExternalIds(t) :: Export.IsCreId(id)
  {
    forall row | row in t.cres ensures Export.IsCreId(row.externalId) {
      Export.WellFormedIff(row.externalId);
    }
    hide Export.IsCreId;
    assert forall c: nat | c < |t.cres| :: t.cres[c] in t.cres;
  }

  lemma ApiIsServed(t: Tables)
    ensures forall id :: id in ExternalIds(t) <==> exists row :: row in t.cres && row.externalId == id
  {
  }

  /** All stored ids together are closed under containers; ids that are not stored are in no closed set. */
  lemma AllIdsClosed(t: Tables, ids: seq<string>)
    requires WellFormed(t)
    ensures (exists s :: Export.ClosedAround(Api(t), Elements(ids), s)) <==> forall id | id in ids :: id in ExternalIds(t)
  {
    hide Export.ParentSet, WellFormed;
    if forall id | id in ids :: id in ExternalIds(t) {
      forall c, x | c in ExternalIds(t) && x in Export.ParentSet(Api(t)[c]) ensures x in ExternalIds(t) {
        ContainersAreStored(t, RowWithId(t, c), x);
      }
      assert Export.ClosedAround(Api(t), Elements(ids), ExternalIds(t));
    }
    if s :| Export.ClosedAround(Api(t), Elements(ids), s) {
      forall id | id in ids ensures id in ExternalIds(t) {
        assert id in Elements(ids);
      }
    }
  }
}
