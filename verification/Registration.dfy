/**
 Registration as a function of what is stored: whether a document can be registered, the error if it
 cannot, and which CREs, resources and links between them are stored afterwards.
 */
module Registration {
  import opened Wrappers
  import opened Sequences
  import opened Documents
  import opened InmemoryGraph
  import opened Hydration

  datatype CollectionError =
    | InvalidCreId
    | PartOfNotSupported
    | UnknownLink
    | UnknownCre
    | Refused(reason: GraphError)

  /** The program matches a prefix only: anything may follow the seven characters. */
  predicate StartsWithCreId(id: string) {
    |id| >= 7 && id[3] == '-' && forall i | 0 <= i < 7 && i != 3 :: '0' <= id[i] <= '9'
  }

  predicate SameCre(row: CreRow, doc: Document) {
    SameName(row.name, doc.name) && row.externalId == doc.id
  }

  /** The first row for the document, or the number of rows. */
  function FindCre(cres: seq<CreRow>, doc: Document): (i: nat)
    ensures i <= |cres|
    ensures i < |cres| ==> SameCre(cres[i], doc)
    ensures forall j | 0 <= j < i :: !SameCre(cres[j], doc)
  {
    if cres == [] then 0
    else
      var i := FindCre(cres[..|cres| - 1], doc);
      if i < |cres| - 1 || SameCre(cres[|cres| - 1], doc) then i else |cres|
  }

  function CresWith(cres: seq<CreRow>, doc: Document): seq<CreRow> {
    if FindCre(cres, doc) < |cres| then cres else cres + [CreRow(doc.name, doc.id)]
  }

  /** The first CRE with the name, or the number of CREs. */
  function FirstNamed(cres: seq<CreRow>, name: string): (i: nat)
    ensures i <= |cres|
    ensures i < |cres| ==> SameName(cres[i].name, name)
    ensures forall j | 0 <= j < i :: !SameName(cres[j].name, name)
  {
    if cres == [] || SameName(cres[0].name, name) then 0 else 1 + FirstNamed(cres[1..], name)
  }

  ghost predicate JoinedIn(rows: seq<InternalLink>, a: nat, b: nat) {
    exists row :: row in rows && Joins(row, a, b)
  }

  function NameAt(cres: seq<CreRow>, i: nat): string {
    if i < |cres| then cres[i].name else ""
  }

  // ---------------------------------------------------------------- what registration looks at

  /** The stored CREs, the linked pairs of CREs and resources in the order of their rows, and the stored resources. */
  datatype View = View(cres: seq<CreRow>, linked: seq<(nat, string)>, nodes: set<string>)

  function PairsOf(rows: seq<NodeLink>): seq<(nat, string)> {
    seq(|rows|, i requires 0 <= i < |rows| => (rows[i].cre, rows[i].node))
  }

  function ViewOf(t: Tables): View {
    View(t.cres, PairsOf(t.nodeLinks), t.nodes.Keys)
  }

  /** Links between CREs and resources whose type the graph knows. */
  predicate LinksResources(ltype: LinkType) {
    ltype.Contains? || ltype.PartOf? || ltype.Related? || ltype.LinkedTo? || ltype.AutomaticallyLinkedTo?
  }

  /** A known pair is accepted as it is; a new one needs different names and a type that the graph knows. */
  function WithLink(v: View, cre: nat, node: Document, ltype: LinkType): (r: Result<View, CollectionError>)
    ensures r.Success? ==> r.value.cres == v.cres
  {
    if (cre, node.id) in v.linked then Success(v)
    else if NameAt(v.cres, cre) == node.name then Failure(Refused(SelfLink))
    else if !LinksResources(ltype) then Failure(Refused(UnknownLinkType))
    else Success(v.(linked := v.linked + [(cre, node.id)]))
  }

  function WithAttempts(v: View, attempts: seq<(nat, Document)>, ltype: LinkType): (r: Result<View, CollectionError>)
    ensures r.Success? ==> r.value.cres == v.cres
  {
    if attempts == [] then Success(v)
    else
      match WithAttempts(v, attempts[..|attempts| - 1], ltype)
      case Failure(e) => Failure(e)
      case Success(u) => WithLink(u, attempts[|attempts| - 1].0, attempts[|attempts| - 1].1, ltype)
  }

  /** The CRE with each of the resources. */
  function AttemptsOf(cre: nat, nodes: seq<Document>): seq<(nat, Document)> {
    seq(|nodes|, i requires 0 <= i < |nodes| => (cre, nodes[i]))
  }

  function Attempts(cres: seq<nat>, nodes: seq<Document>): seq<(nat, Document)> {
    if cres == [] then [] else Attempts(cres[..|cres| - 1], nodes) + AttemptsOf(cres[|cres| - 1], nodes)
  }

  /** The stored CREs that are linked to the resource, in the order of their links. */
  function CresLinked(v: View, linked: seq<(nat, string)>, id: string): (cres: seq<nat>)
    ensures forall c: nat :: c in cres <==> c < |v.cres| && (c, id) in linked
  {
    if linked == [] then []
    else
      var front, last := CresLinked(v, linked[..|linked| - 1], id), linked[|linked| - 1];
      if last.1 == id && last.0 < |v.cres| then front + [last.0] else front
  }

  /** A document that carries an id is looked up by that id among the internal ones, where it never is. */
  function CresFound(v: View, doc: Document): (cres: seq<nat>)
    ensures forall c | c in cres :: c < |v.cres| && (c, doc.id) in v.linked
  {
    if doc.id == "" && doc.id in v.nodes then CresLinked(v, v.linked, doc.id) else []
  }

  function WithStored(v: View, node: Document): View {
    v.(nodes := v.nodes + {node.id})
  }

  // ---------------------------------------------------------------- resources

  /** The resource with everything below it. */
  function WithNode(v: View, doc: Document): (r: Result<View, CollectionError>)
    ensures r.Success? ==> r.value.cres == v.cres
    decreases doc, |doc.links| + 1
  {
    match WithNodeLinks(v, doc, |doc.links|)
    case Failure(e) => Failure(e)
    case Success(p) => Success(p.0)
  }

  /** After n of its links: the view, and the resources that wait for a CRE. */
  function WithNodeLinks(v: View, doc: Document, n: nat): (r: Result<(View, seq<Document>), CollectionError>)
    requires n <= |doc.links|
    ensures r.Success? ==> r.value.0.cres == v.cres
    decreases doc, n
  {
    if n == 0 then Success((WithStored(v, doc), []))
    else
      match WithNodeLinks(v, doc, n - 1)
      case Failure(e) => Failure(e)
      case Success((u, unlinked)) =>
        if doc.links[n - 1].document.doctype.CRE? then
          match WithNamedCre(u, doc, n - 1, unlinked)
          case Failure(e) => Failure(e)
          case Success(w) => Success((w, []))
        else
          match WithLinkedTree(u, doc, n - 1, unlinked)
          case Failure(e) => Failure(e)
          case Success(w) => Success((w, if FindsNoCre(u, doc, n - 1) then unlinked + [doc.links[n - 1].document] else unlinked))
  }

  /** The linked resource, and what is below it if there is anything. */
  function WithLinkedTree(v: View, doc: Document, i: nat, unlinked: seq<Document>): (r: Result<View, CollectionError>)
    requires i < |doc.links|
    ensures r.Success? ==> r.value.cres == v.cres
    decreases doc, i
  {
    match WithLinkedNode(v, doc, i, unlinked)
    case Failure(e) => Failure(e)
    case Success(w) => if doc.links[i].document.links == [] then Success(w) else WithNode(w, doc.links[i].document)
  }

  /** The link to a CRE: the first one of that name gets the resource and those that wait. */
  function WithNamedCre(v: View, doc: Document, i: nat, unlinked: seq<Document>): (r: Result<View, CollectionError>)
    requires i < |doc.links|
    ensures r.Success? ==> r.value.cres == v.cres
  {
    var name := doc.links[i].document.name;
    var cre := FirstNamed(v.cres, name);
    if name == "" || cre == |v.cres| then Failure(UnknownCre)
    else WithAttempts(v, Attempts([cre], [doc] + unlinked), doc.links[i].ltype)
  }

  predicate FindsNoCre(v: View, doc: Document, i: nat)
    requires i < |doc.links|
  {
    CresFound(v, doc.links[i].document) == [] && CresLinked(v, v.linked, doc.id) == []
  }

  /** The link to another resource: the document gets the CREs found for it, or else it gets those of the document. */
  function WithLinkedNode(v: View, doc: Document, i: nat, unlinked: seq<Document>): (r: Result<View, CollectionError>)
    requires i < |doc.links|
    ensures r.Success? ==> r.value.cres == v.cres
  {
    var link := doc.links[i];
    var found, own, u := CresFound(v, link.document), CresLinked(v, v.linked, doc.id), WithStored(v, link.document);
    if found != [] then WithAttempts(u, Attempts(found, [doc] + unlinked), link.ltype)
    else WithAttempts(u, Attempts(own, [link.document] + unlinked), link.ltype)
  }

  // ---------------------------------------------------------------- CREs

  predicate RegistersJoin(ltype: LinkType) {
    ltype.Contains? || ltype.PartOf? || ltype.Related?
  }

  /** The CRE with everything below it, where rows already join some CREs. */
  ghost function WithCre(v: View, rows: seq<InternalLink>, doc: Document): Result<View, CollectionError>
    decreases doc, |doc.links| + 1
  {
    if !StartsWithCreId(doc.id) then Failure(InvalidCreId)
    else WithCreLinks(v.(cres := CresWith(v.cres, doc)), rows, doc, |doc.links|)
  }

  ghost function WithCreLinks(v: View, rows: seq<InternalLink>, doc: Document, n: nat): Result<View, CollectionError>
    requires n <= |doc.links|
    decreases doc, n
  {
    if n == 0 then Success(v)
    else
      match WithCreLinks(v, rows, doc, n - 1)
      case Failure(e) => Failure(e)
      case Success(u) => WithCreLink(u, rows, doc, n - 1)
  }

  ghost function WithCreLink(v: View, rows: seq<InternalLink>, doc: Document, i: nat): Result<View, CollectionError>
    requires i < |doc.links|
    decreases doc, i
  {
    var link := doc.links[i];
    if link.document.doctype.CRE? then
      match WithCre(v, rows, link.document)
      case Failure(e) => Failure(e)
      case Success(u) => WithJoin(u, rows, doc, link)
    else
      match WithNode(v, link.document)
      case Failure(e) => Failure(e)
      case Success(u) => WithLink(u, FindCre(u.cres, doc), link.document, link.ltype)
  }

  /** The link between two CREs: a pair that no row joins needs different names. */
  ghost function WithJoin(v: View, rows: seq<InternalLink>, doc: Document, link: Link): Result<View, CollectionError> {
    var a, b := FindCre(v.cres, doc), FindCre(v.cres, link.document);
    if !RegistersJoin(link.ltype) then Failure(UnknownLink)
    else if NameAt(v.cres, a) == NameAt(v.cres, b) && !JoinedIn(rows, a, b) then Failure(Refused(SelfLink))
    else Success(v)
  }

  ghost function WithAll(v: View, rows: seq<InternalLink>, docs: seq<Document>): Result<View, CollectionError> {
    if docs == [] then Success(v)
    else
      match WithAll(v, rows, docs[..|docs| - 1])
      case Failure(e) => Failure(e)
      case Success(u) => WithCre(u, rows, docs[|docs| - 1])
  }

  // ---------------------------------------------------------------- a failure stays one

  /** The outcome is the specified one; on success so is what is stored. */
  ghost predicate AsSpecified<T>(r: Result<T, CollectionError>, t: Tables, spec: Result<View, CollectionError>) {
    match spec
    case Failure(e) => r == Failure(e)
    case Success(u) => r.Success? && ViewOf(t) == u
  }

  lemma {:induction false} LinksFail(v: View, attempts: seq<(nat, Document)>, i: nat, ltype: LinkType)
    requires i <= |attempts| && WithAttempts(v, attempts[..i], ltype).Failure?
    ensures WithAttempts(v, attempts, ltype) == WithAttempts(v, attempts[..i], ltype)
    decreases |attempts|
  {
    if i < |attempts| {
      assert attempts[..|attempts| - 1][..i] == attempts[..i];
      LinksFail(v, attempts[..|attempts| - 1], i, ltype);
    } else {
      assert attempts[..i] == attempts;
    }
  }

  lemma OneMoreLink(v: View, attempts: seq<(nat, Document)>, i: nat, ltype: LinkType)
    requires i < |attempts|
    ensures WithAttempts(v, attempts[..i + 1], ltype) ==
      match WithAttempts(v, attempts[..i], ltype)
      case Failure(e) => Failure(e)
      case Success(u) => WithLink(u, attempts[i].0, attempts[i].1, ltype)
  {
    hide WithLink;
    assert attempts[..i + 1][..i] == attempts[..i];
  }

  lemma {:induction false} NodeLinksFail(v: View, doc: Document, i: nat, n: nat)
    requires i <= n <= |doc.links| && WithNodeLinks(v, doc, i).Failure?
    ensures WithNodeLinks(v, doc, n) == WithNodeLinks(v, doc, i)
    decreases n
  {
    if i < n {
      NodeLinksFail(v, doc, i, n - 1);
    }
  }

  lemma {:induction false} CreLinksFail(v: View, rows: seq<InternalLink>, doc: Document, i: nat, n: nat)
    requires i <= n <= |doc.links| && WithCreLinks(v, rows, doc, i).Failure?
    ensures WithCreLinks(v, rows, doc, n) == WithCreLinks(v, rows, doc, i)
    decreases n
  {
    if i < n {
      CreLinksFail(v, rows, doc, i, n - 1);
    }
  }

  lemma {:induction false} AllFail(v: View, rows: seq<InternalLink>, docs: seq<Document>, i: nat)
    requires i <= |docs| && WithAll(v, rows, docs[..i]).Failure?
    ensures WithAll(v, rows, docs) == WithAll(v, rows, docs[..i])
    decreases |docs|
  {
    if i < |docs| {
      assert docs[..|docs| - 1][..i] == docs[..i];
      AllFail(v, rows, docs[..|docs| - 1], i);
    } else {
      assert docs[..i] == docs;
    }
  }

  lemma FindCreStays(cres: seq<CreRow>, more: seq<CreRow>, doc: Document)
    requires cres <= more && FindCre(cres, doc) < |cres|
    ensures FindCre(more, doc) == FindCre(cres, doc)
  {
    var i, j := FindCre(cres, doc), FindCre(more, doc);
    hide FindCre, SameCre;
    assert more[i] == cres[i];
    assert j < |cres| ==> more[j] == cres[j];
  }

  lemma FoundAfterwards(cres: seq<CreRow>, doc: Document)
    ensures cres <= CresWith(cres, doc) && FindCre(CresWith(cres, doc), doc) < |CresWith(cres, doc)|
    ensures FindCre(CresWith(cres, doc), doc) == FindCre(cres, doc)
  {
    if FindCre(cres, doc) == |cres| {
      assert CresWith(cres, doc)[..|cres|] == cres;
    }
  }

  lemma JoinedEitherWay(rows: seq<InternalLink>, a: nat, b: nat)
    ensures JoinedIn(rows, a, b) <==> JoinedIn(rows, b, a)
  {
    assert forall row :: Joins(row, a, b) <==> Joins(row, b, a);
  }

  /** The rows stored since then join CREs with different names. */
  ghost predicate RowsSince(rows: seq<InternalLink>, t: Tables) {
    && (forall row | row in rows :: row in t.internalLinks)
    && forall row | row in t.internalLinks :: row in rows || (
         row.group < |t.cres| && row.cre < |t.cres| && t.cres[row.group].name != t.cres[row.cre].name)
  }

  lemma SameNamesJoinedBefore(rows: seq<InternalLink>, t: Tables, a: nat, b: nat)
    requires RowsSince(rows, t) && NameAt(t.cres, a) == NameAt(t.cres, b)
    ensures JoinedIn(t.internalLinks, a, b) <==> JoinedIn(rows, a, b)
  {
  }

  lemma RowsSinceKept(rows: seq<InternalLink>, t: Tables, u: Tables)
    requires RowsSince(rows, t) && t.cres <= u.cres && u.internalLinks == t.internalLinks
    ensures RowsSince(rows, u)
  {
  }

  // ---------------------------------------------------------------- which documents can be registered

  /** The CRE is the document or is linked, over CREs only, from it. */
  ghost predicate InTree(doc: Document, d: Document) {
    d == doc || exists link | link in doc.links && link.document.doctype.CRE? :: InTree(link.document, d)
  }

  /** The resource is linked from the document, over CREs and then over resources. */
  ghost predicate BelowTree(doc: Document, d: Document) {
    (d == doc && !doc.doctype.CRE?)
    || exists link | link in doc.links && (doc.doctype.CRE? || !link.document.doctype.CRE?) :: BelowTree(link.document, d)
  }

  /** The CREs that are stored when all CREs of the tree are. */
  function TreeCres(cres: seq<CreRow>, doc: Document): seq<CreRow>
    decreases doc, |doc.links| + 1
  {
    TreeCresUpTo(CresWith(cres, doc), doc, |doc.links|)
  }

  function TreeCresUpTo(cres: seq<CreRow>, doc: Document, n: nat): seq<CreRow>
    requires n <= |doc.links|
    decreases doc, n
  {
    if n == 0 then cres
    else
      var before := TreeCresUpTo(cres, doc, n - 1);
      if doc.links[n - 1].document.doctype.CRE? then TreeCres(before, doc.links[n - 1].document) else before
  }

  lemma {:induction false} TreeCresGrow(cres: seq<CreRow>, doc: Document)
    ensures cres <= TreeCres(cres, doc)
    ensures FindCre(TreeCres(cres, doc), doc) < |TreeCres(cres, doc)|
    decreases doc, |doc.links| + 1
  {
    FoundAfterwards(cres, doc);
    TreeCresGrowUpTo(CresWith(cres, doc), doc, |doc.links|);
    FindCreStays(CresWith(cres, doc), TreeCres(cres, doc), doc);
  }

  lemma {:induction false} TreeCresGrowUpTo(cres: seq<CreRow>, doc: Document, n: nat)
    requires n <= |doc.links|
    ensures cres <= TreeCresUpTo(cres, doc, n)
    decreases doc, n
  {
    if n > 0 {
      TreeCresGrowUpTo(cres, doc, n - 1);
      if doc.links[n - 1].document.doctype.CRE? {
        TreeCresGrow(TreeCresUpTo(cres, doc, n - 1), doc.links[n - 1].document);
      }
    }
  }

  lemma {:induction false} TreeCresFromHere(cres: seq<CreRow>, doc: Document, i: nat, n: nat)
    requires i <= n <= |doc.links|
    ensures TreeCresUpTo(cres, doc, i) <= TreeCresUpTo(cres, doc, n)
    decreases n
  {
    if i < n {
      TreeCresFromHere(cres, doc, i, n - 1);
      if doc.links[n - 1].document.doctype.CRE? {
        TreeCresGrow(TreeCresUpTo(cres, doc, n - 1), doc.links[n - 1].document);
      }
    }
  }

  /** The two CREs have the same stored name, and no row has joined them before. */
  ghost predicate SameNames(cres: seq<CreRow>, rows: seq<InternalLink>, a: Document, b: Document) {
    var i, j := FindCre(cres, a), FindCre(cres, b);
    i < |cres| && j < |cres| && cres[i].name == cres[j].name && !JoinedIn(rows, i, j)
  }

  lemma SameNamesStay(cres: seq<CreRow>, more: seq<CreRow>, rows: seq<InternalLink>, a: Document, b: Document)
    requires cres <= more && FindCre(cres, a) < |cres| && FindCre(cres, b) < |cres|
    ensures SameNames(cres, rows, a, b) <==> SameNames(more, rows, a, b)
  {
    FindCreStays(cres, more, a);
    FindCreStays(cres, more, b);
    var i, j := FindCre(cres, a), FindCre(cres, b);
    assert more[i] == cres[i] && more[j] == cres[j];
    hide FindCre;
  }

  /** A link between CREs that says something else than Contains, PartOf or Related. */
  ghost predicate BadCreLink(d: Document, link: Link) {
    link in d.links && link.document.doctype.CRE? && !link.ltype.Contains? && !link.ltype.PartOf? && !link.ltype.Related?
  }

  /** A link between two CREs of one name that no row joins. */
  ghost predicate LinksSameNames(cres: seq<CreRow>, rows: seq<InternalLink>, d: Document, link: Link) {
    link in d.links && link.document.doctype.CRE? && SameNames(cres, rows, d, link.document)
  }

  /** A resource names a CRE that is not stored. */
  ghost predicate NamesUnknownCre(cres: seq<CreRow>, d: Document, link: Link) {
    link in d.links && link.document.doctype.CRE?
    && (link.document.name == "" || forall row | row in cres :: !SameName(row.name, link.document.name))
  }

  ghost predicate HasNameOf(cres: seq<CreRow>, d: Document, row: CreRow) {
    row in cres && row.name == d.name
  }

  /** A link at a resource whose type the graph does not know. */
  ghost predicate BadResourceLink(d: Document, link: Link) {
    link in d.links && (!d.doctype.CRE? || !link.document.doctype.CRE?) && !LinksResources(link.ltype)
  }

  /** Why a resource is refused: something below it names an unknown CRE, has the name of a CRE, or has a link of unknown type. */
  ghost predicate ExplainsNode(cres: seq<CreRow>, after: seq<CreRow>, doc: Document, e: CollectionError) {
    match e
    case UnknownCre => exists d, link :: BelowTree(doc, d) && NamesUnknownCre(cres, d, link)
    case Refused(SelfLink) => exists d, row :: BelowTree(doc, d) && HasNameOf(after, d, row)
    case Refused(UnknownLinkType) => exists d, link :: BelowTree(doc, d) && BadResourceLink(d, link)
    case _ => false
  }

  /** Why a CRE is refused: a CRE of the tree or a link between two of them, or a resource below the tree. */
  ghost predicate Explains(cres: seq<CreRow>, after: seq<CreRow>, rows: seq<InternalLink>, doc: Document, e: CollectionError) {
    || (e == InvalidCreId && exists d :: InTree(doc, d) && !StartsWithCreId(d.id))
    || (e == UnknownLink && exists d, link :: InTree(doc, d) && BadCreLink(d, link))
    || (e == Refused(SelfLink) && exists d, link :: InTree(doc, d) && LinksSameNames(after, rows, d, link))
    || (e == Refused(UnknownLinkType) && exists d, link :: InTree(doc, d) && BadResourceLink(d, link))
    || ExplainsNode(cres, after, doc, e)
  }

  lemma NodeBelow(cres: seq<CreRow>, more: seq<CreRow>, between: seq<CreRow>, after: seq<CreRow>, doc: Document, i: nat,
                  e: CollectionError)
    requires i < |doc.links| && cres <= more && between <= after
    requires doc.doctype.CRE? || !doc.links[i].document.doctype.CRE?
    requires ExplainsNode(more, between, doc.links[i].document, e)
    ensures ExplainsNode(cres, after, doc, e)
  {
    var link := doc.links[i];
    assert link in doc.links;
    hide SameName, LinksResources;
    forall d | BelowTree(link.document, d) ensures BelowTree(doc, d) {
    }
    assert forall row | row in cres :: row in more;
    assert forall row | row in between :: row in after;
    if e.UnknownCre? {
      var d, l :| BelowTree(link.document, d) && NamesUnknownCre(more, d, l);
      assert NamesUnknownCre(cres, d, l);
    } else if e == Refused(SelfLink) {
      var d, row :| BelowTree(link.document, d) && HasNameOf(between, d, row);
      assert HasNameOf(after, d, row);
    }
  }

  lemma TreeBelow(cres: seq<CreRow>, more: seq<CreRow>, after: seq<CreRow>, rows: seq<InternalLink>, doc: Document,
                  i: nat, e: CollectionError)
    requires i < |doc.links| && doc.doctype.CRE? && doc.links[i].document.doctype.CRE? && cres <= more
    requires TreeCres(more, doc.links[i].document) <= after
    requires Explains(more, TreeCres(more, doc.links[i].document), rows, doc.links[i].document, e)
    ensures Explains(cres, after, rows, doc, e)
  {
    var link := doc.links[i];
    var between := TreeCres(more, link.document);
    assert link in doc.links;
    hide SameName, LinksResources, TreeCres, StartsWithCreId, SameNames, BadCreLink, BadResourceLink;
    forall d | InTree(link.document, d) ensures InTree(doc, d) {
    }
    if ExplainsNode(more, between, link.document, e) {
      NodeBelow(cres, more, between, after, doc, i, e);
    } else if e == Refused(SelfLink) {
      hide ExplainsNode;
      var d, l :| InTree(link.document, d) && LinksSameNames(between, rows, d, l);
      SameNamesGrow(between, after, rows, d, l.document);
      assert LinksSameNames(after, rows, d, l);
    }
  }

  lemma SameNamesGrow(cres: seq<CreRow>, more: seq<CreRow>, rows: seq<InternalLink>, a: Document, b: Document)
    requires cres <= more && SameNames(cres, rows, a, b)
    ensures SameNames(more, rows, a, b)
  {
    SameNamesStay(cres, more, rows, a, b);
  }

  // ---------------------------------------------------------------- refusals of resources

  lemma {:induction false} AttemptsExplained(v: View, attempts: seq<(nat, Document)>, ltype: LinkType)
    requires WithAttempts(v, attempts, ltype).Failure?
    ensures var e := WithAttempts(v, attempts, ltype).error;
      || (e == Refused(SelfLink) && exists a :: a in attempts && NameAt(v.cres, a.0) == a.1.name)
      || (e == Refused(UnknownLinkType) && !LinksResources(ltype))
  {
    var front, last := attempts[..|attempts| - 1], attempts[|attempts| - 1];
    assert last in attempts && forall a | a in front :: a in attempts;
    if WithAttempts(v, front, ltype).Failure? {
      AttemptsExplained(v, front, ltype);
    }
  }

  lemma {:induction false} AttemptsHold(cres: seq<nat>, nodes: seq<Document>)
    ensures forall a | a in Attempts(cres, nodes) :: a.0 in cres && a.1 in nodes
  {
    if cres != [] {
      AttemptsHold(cres[..|cres| - 1], nodes);
    }
  }

  lemma AttemptsAtNode(v: View, cres: seq<nat>, nodes: seq<Document>, doc: Document, i: nat)
    requires i < |doc.links| && !doc.doctype.CRE? && WithAttempts(v, Attempts(cres, nodes), doc.links[i].ltype).Failure?
    requires forall c | c in cres :: c < |v.cres|
    requires forall u | u in nodes :: BelowTree(doc, u)
    ensures ExplainsNode(v.cres, v.cres, doc, WithAttempts(v, Attempts(cres, nodes), doc.links[i].ltype).error)
  {
    var attempts, link := Attempts(cres, nodes), doc.links[i];
    AttemptsExplained(v, attempts, link.ltype);
    AttemptsHold(cres, nodes);
    hide WithAttempts, LinksResources;
    assert link in doc.links && BelowTree(doc, doc);
    if !LinksResources(link.ltype) {
      assert BadResourceLink(doc, link);
    }
    if a :| a in attempts && NameAt(v.cres, a.0) == a.1.name {
      assert HasNameOf(v.cres, a.1, v.cres[a.0]);
    }
  }

  lemma ChildIsBelow(doc: Document, i: nat)
    requires i < |doc.links| && !doc.links[i].document.doctype.CRE?
    ensures BelowTree(doc, doc.links[i].document)
    ensures !doc.doctype.CRE? ==> BelowTree(doc, doc)
  {
    assert doc.links[i] in doc.links;
    assert BelowTree(doc.links[i].document, doc.links[i].document);
  }

  lemma NamedCreExplained(v: View, doc: Document, i: nat, unlinked: seq<Document>)
    requires i < |doc.links| && !doc.doctype.CRE? && doc.links[i].document.doctype.CRE?
    requires forall u | u in unlinked :: BelowTree(doc, u)
    requires WithNamedCre(v, doc, i, unlinked).Failure?
    ensures ExplainsNode(v.cres, v.cres, doc, WithNamedCre(v, doc, i, unlinked).error)
  {
    var link := doc.links[i];
    var cre := FirstNamed(v.cres, link.document.name);
    assert link in doc.links && BelowTree(doc, doc);
    hide WithAttempts, LinksResources, SameName;
    if link.document.name == "" || cre == |v.cres| {
      assert NamesUnknownCre(v.cres, doc, link);
    } else {
      assert forall c | c in [cre] :: c < |v.cres|;
      AttemptsAtNode(v, [cre], [doc] + unlinked, doc, i);
    }
  }

  lemma LinkedNodeExplained(v: View, doc: Document, i: nat, unlinked: seq<Document>)
    requires i < |doc.links| && !doc.doctype.CRE? && !doc.links[i].document.doctype.CRE?
    requires forall u | u in unlinked :: BelowTree(doc, u)
    requires WithLinkedNode(v, doc, i, unlinked).Failure?
    ensures ExplainsNode(v.cres, v.cres, doc, WithLinkedNode(v, doc, i, unlinked).error)
  {
    var link := doc.links[i];
    ChildIsBelow(doc, i);
    hide WithAttempts, LinksResources, BelowTree;
    var found, own, u := CresFound(v, link.document), CresLinked(v, v.linked, doc.id), WithStored(v, link.document);
    if found != [] {
      AttemptsAtNode(u, found, [doc] + unlinked, doc, i);
    } else {
      AttemptsAtNode(u, own, [link.document] + unlinked, doc, i);
    }
  }

  lemma {:induction false} NodeExplained(v: View, doc: Document)
    requires !doc.doctype.CRE? && WithNode(v, doc).Failure?
    ensures ExplainsNode(v.cres, v.cres, doc, WithNode(v, doc).error)
    decreases doc, |doc.links| + 1
  {
    NodeLinksExplained(v, doc, |doc.links|);
  }

  lemma {:induction false} NodeLinksExplained(v: View, doc: Document, n: nat)
    requires !doc.doctype.CRE? && n <= |doc.links|
    ensures match WithNodeLinks(v, doc, n)
      case Failure(e) => ExplainsNode(v.cres, v.cres, doc, e)
      case Success(p) => forall u | u in p.1 :: BelowTree(doc, u)
    decreases doc, n
  {
    hide ExplainsNode, BelowTree, WithNamedCre, WithLinkedTree, FindsNoCre;
    if n > 0 {
      NodeLinksExplained(v, doc, n - 1);
      if WithNodeLinks(v, doc, n - 1).Success? {
        NodeLinkExplained(v, doc, n - 1);
      }
    }
  }

  lemma {:induction false} NodeLinkExplained(v: View, doc: Document, i: nat)
    requires !doc.doctype.CRE? && i < |doc.links| && WithNodeLinks(v, doc, i).Success?
    requires forall u | u in WithNodeLinks(v, doc, i).value.1 :: BelowTree(doc, u)
    ensures match WithNodeLinks(v, doc, i + 1)
      case Failure(e) => ExplainsNode(v.cres, v.cres, doc, e)
      case Success(p) => forall u | u in p.1 :: BelowTree(doc, u)
    decreases doc, i, 1
  {
    hide ExplainsNode, BelowTree, WithAttempts, FindsNoCre, WithNamedCre, WithLinkedTree;
    var (u, unlinked) := WithNodeLinks(v, doc, i).value;
    if doc.links[i].document.doctype.CRE? {
      if WithNamedCre(u, doc, i, unlinked).Failure? {
        NamedCreExplained(u, doc, i, unlinked);
      }
    } else {
      ChildIsBelow(doc, i);
      if WithLinkedTree(u, doc, i, unlinked).Failure? {
        LinkedTreeExplained(u, doc, i, unlinked);
      }
    }
  }

  lemma {:induction false} LinkedTreeExplained(v: View, doc: Document, i: nat, unlinked: seq<Document>)
    requires i < |doc.links| && !doc.doctype.CRE? && !doc.links[i].document.doctype.CRE?
    requires forall u | u in unlinked :: BelowTree(doc, u)
    requires WithLinkedTree(v, doc, i, unlinked).Failure?
    ensures ExplainsNode(v.cres, v.cres, doc, WithLinkedTree(v, doc, i, unlinked).error)
    decreases doc, i, 0
  {
    hide ExplainsNode, BelowTree;
    if WithLinkedNode(v, doc, i, unlinked).Failure? {
      LinkedNodeExplained(v, doc, i, unlinked);
    } else {
      var w := WithLinkedNode(v, doc, i, unlinked).value;
      NodeExplained(w, doc.links[i].document);
      NodeBelow(v.cres, w.cres, w.cres, v.cres, doc, i, WithNode(w, doc.links[i].document).error);
    }
  }

  // ---------------------------------------------------------------- refusals of CREs

  lemma {:induction false} CresAfterwards(v: View, rows: seq<InternalLink>, doc: Document)
    requires WithCre(v, rows, doc).Success?
    ensures WithCre(v, rows, doc).value.cres == TreeCres(v.cres, doc)
    decreases doc, |doc.links| + 1
  {
    CresAfterLinks(v.(cres := CresWith(v.cres, doc)), rows, doc, |doc.links|);
  }

  lemma {:induction false} CresAfterLinks(v: View, rows: seq<InternalLink>, doc: Document, n: nat)
    requires n <= |doc.links| && WithCreLinks(v, rows, doc, n).Success?
    ensures WithCreLinks(v, rows, doc, n).value.cres == TreeCresUpTo(v.cres, doc, n)
    decreases doc, n
  {
    if n > 0 {
      CresAfterLinks(v, rows, doc, n - 1);
      var u := WithCreLinks(v, rows, doc, n - 1).value;
      if doc.links[n - 1].document.doctype.CRE? {
        CresAfterwards(u, rows, doc.links[n - 1].document);
      }
    }
  }

  /** The CREs stored before a link is followed, and those stored by following it, are among the ones in the end. */
  lemma CresAtLink(v: View, rows: seq<InternalLink>, doc: Document, i: nat)
    requires i < |doc.links| && WithCreLinks(v, rows, doc, i).Success?
    ensures v.cres <= WithCreLinks(v, rows, doc, i).value.cres <= TreeCresUpTo(v.cres, doc, |doc.links|)
    ensures doc.links[i].document.doctype.CRE? ==>
      TreeCres(WithCreLinks(v, rows, doc, i).value.cres, doc.links[i].document) <= TreeCresUpTo(v.cres, doc, |doc.links|)
  {
    CresAfterLinks(v, rows, doc, i);
    TreeCresGrowUpTo(v.cres, doc, i);
    TreeCresFromHere(v.cres, doc, i, |doc.links|);
    TreeCresFromHere(v.cres, doc, i + 1, |doc.links|);
    hide WithCreLinks, TreeCres;
  }

  /** Every refusal has one of the reasons, and the error says which. */
  lemma {:induction false} RefusalIsExplained(v: View, rows: seq<InternalLink>, doc: Document)
    requires doc.doctype.CRE? && WithCre(v, rows, doc).Failure?
    ensures Explains(v.cres, TreeCres(v.cres, doc), rows, doc, WithCre(v, rows, doc).error)
    decreases doc, |doc.links| + 1
  {
    assert InTree(doc, doc);
    if StartsWithCreId(doc.id) {
      FoundAfterwards(v.cres, doc);
      var u := v.(cres := CresWith(v.cres, doc));
      LinksExplained(u, rows, doc, |doc.links|);
      hide TreeCres, ExplainsNode;
      KnownBefore(v.cres, u.cres, TreeCres(v.cres, doc), rows, doc, WithCre(v, rows, doc).error);
    }
  }

  lemma KnownBefore(cres: seq<CreRow>, more: seq<CreRow>, after: seq<CreRow>, rows: seq<InternalLink>, doc: Document, e: CollectionError)
    requires cres <= more && Explains(more, after, rows, doc, e)
    ensures Explains(cres, after, rows, doc, e)
  {
    hide InTree, BelowTree, SameName, LinksResources, SameNames;
    assert forall row | row in cres :: row in more;
    if e.UnknownCre? {
      var d, l :| BelowTree(doc, d) && NamesUnknownCre(more, d, l);
      assert NamesUnknownCre(cres, d, l);
    }
  }

  lemma {:induction false} LinksExplained(v: View, rows: seq<InternalLink>, doc: Document, n: nat)
    requires doc.doctype.CRE? && n <= |doc.links| && FindCre(v.cres, doc) < |v.cres| && WithCreLinks(v, rows, doc, n).Failure?
    ensures Explains(v.cres, TreeCresUpTo(v.cres, doc, |doc.links|), rows, doc, WithCreLinks(v, rows, doc, n).error)
    decreases doc, n
  {
    hide Explains, TreeCresUpTo, TreeCres, WithCreLink, FindCre;
    if WithCreLinks(v, rows, doc, n - 1).Failure? {
      LinksExplained(v, rows, doc, n - 1);
    } else {
      var u := WithCreLinks(v, rows, doc, n - 1).value;
      CresAtLink(v, rows, doc, n - 1);
      FindCreStays(v.cres, u.cres, doc);
      LinkExplained(u, rows, doc, n - 1, TreeCresUpTo(v.cres, doc, |doc.links|));
      KnownBefore(v.cres, u.cres, TreeCresUpTo(v.cres, doc, |doc.links|), rows, doc, WithCreLinks(v, rows, doc, n).error);
    }
  }

  lemma {:induction false} LinkExplained(v: View, rows: seq<InternalLink>, doc: Document, i: nat, after: seq<CreRow>)
    requires doc.doctype.CRE? && i < |doc.links| && FindCre(v.cres, doc) < |v.cres| && v.cres <= after
    requires doc.links[i].document.doctype.CRE? ==> TreeCres(v.cres, doc.links[i].document) <= after
    requires WithCreLink(v, rows, doc, i).Failure?
    ensures Explains(v.cres, after, rows, doc, WithCreLink(v, rows, doc, i).error)
    decreases doc, i
  {
    var link := doc.links[i];
    assert link in doc.links && InTree(doc, doc);
    if link.document.doctype.CRE? {
      if WithCre(v, rows, link.document).Failure? {
        RefusalIsExplained(v, rows, link.document);
        TreeBelow(v.cres, v.cres, after, rows, doc, i, WithCre(v, rows, link.document).error);
      } else {
        CresAfterwards(v, rows, link.document);
        TreeCresGrow(v.cres, link.document);
        JoinExplained(WithCre(v, rows, link.document).value, rows, doc, link, after);
        FindCreStays(v.cres, TreeCres(v.cres, link.document), doc);
      }
    } else {
      ResourceLinkExplained(v, rows, doc, i, after);
    }
  }

  lemma JoinExplained(u: View, rows: seq<InternalLink>, doc: Document, link: Link, after: seq<CreRow>)
    requires link in doc.links && link.document.doctype.CRE? && u.cres <= after
    requires WithJoin(u, rows, doc, link).Failure?
    ensures var e := WithJoin(u, rows, doc, link).error;
      || (e == UnknownLink && BadCreLink(doc, link))
      || (e == Refused(SelfLink) && (FindCre(u.cres, doc) < |u.cres| && FindCre(u.cres, link.document) < |u.cres| ==>
            LinksSameNames(after, rows, doc, link)))
  {
    if WithJoin(u, rows, doc, link).error != UnknownLink && FindCre(u.cres, doc) < |u.cres| && FindCre(u.cres, link.document) < |u.cres| {
      SameNamesStay(u.cres, after, rows, doc, link.document);
    }
  }

  lemma ResourceLinkExplained(v: View, rows: seq<InternalLink>, doc: Document, i: nat, after: seq<CreRow>)
    requires doc.doctype.CRE? && i < |doc.links| && FindCre(v.cres, doc) < |v.cres| && v.cres <= after
    requires !doc.links[i].document.doctype.CRE? && WithCreLink(v, rows, doc, i).Failure?
    ensures Explains(v.cres, after, rows, doc, WithCreLink(v, rows, doc, i).error)
  {
    var link := doc.links[i];
    assert link in doc.links && InTree(doc, doc);
    ChildIsBelow(doc, i);
    if WithNode(v, link.document).Failure? {
      NodeExplained(v, link.document);
      NodeBelow(v.cres, v.cres, v.cres, after, doc, i, WithNode(v, link.document).error);
    } else {
      hide WithNode, InTree, BelowTree, LinksResources, FindCre;
      var u := WithNode(v, link.document).value;
      var row := v.cres[FindCre(v.cres, doc)];
      assert row in after;
      if row.name == link.document.name {
        assert HasNameOf(after, link.document, row);
      } else {
        assert BadResourceLink(doc, link);
      }
    }
  }

  // ---------------------------------------------------------------- what a success tells

  /** The CRE has a proper id, and each of its links to CREs is of a proper type and joins different names or a joined pair. */
  ghost predicate ProperCre(after: seq<CreRow>, rows: seq<InternalLink>, d: Document) {
    StartsWithCreId(d.id) && forall link | link in d.links && link.document.doctype.CRE? ::
      !BadCreLink(d, link) && !SameNames(after, rows, d, link.document)
  }

  lemma {:induction false} SuccessTells(v: View, rows: seq<InternalLink>, doc: Document, after: seq<CreRow>)
    requires doc.doctype.CRE? && WithCre(v, rows, doc).Success? && TreeCres(v.cres, doc) <= after
    ensures forall d | InTree(doc, d) :: ProperCre(after, rows, d)
    decreases doc, |doc.links| + 1
  {
    FoundAfterwards(v.cres, doc);
    var u := v.(cres := CresWith(v.cres, doc));
    forall j | 0 <= j < |doc.links| && doc.links[j].document.doctype.CRE?
      ensures !BadCreLink(doc, doc.links[j]) && !SameNames(after, rows, doc, doc.links[j].document)
      ensures forall d | InTree(doc.links[j].document, d) :: ProperCre(after, rows, d)
    {
      LinkTells(u, rows, doc, j, after);
    }
    hide TreeCres, BadCreLink, SameNames, StartsWithCreId;
    forall link | link in doc.links && link.document.doctype.CRE?
      ensures !BadCreLink(doc, link) && !SameNames(after, rows, doc, link.document)
      ensures forall d | InTree(link.document, d) :: ProperCre(after, rows, d)
    {
      var j :| 0 <= j < |doc.links| && doc.links[j] == link;
    }
  }

  lemma {:induction false} PrefixSucceeds(v: View, rows: seq<InternalLink>, doc: Document, i: nat, n: nat)
    requires i <= n <= |doc.links| && WithCreLinks(v, rows, doc, n).Success?
    ensures WithCreLinks(v, rows, doc, i).Success?
    decreases n
  {
    if i < n {
      PrefixSucceeds(v, rows, doc, i, n - 1);
    }
  }

  lemma {:induction false} LinkTells(v: View, rows: seq<InternalLink>, doc: Document, j: nat, after: seq<CreRow>)
    requires doc.doctype.CRE? && j < |doc.links| && doc.links[j].document.doctype.CRE? && FindCre(v.cres, doc) < |v.cres|
    requires WithCreLinks(v, rows, doc, |doc.links|).Success? && TreeCresUpTo(v.cres, doc, |doc.links|) <= after
    ensures !BadCreLink(doc, doc.links[j]) && !SameNames(after, rows, doc, doc.links[j].document)
    ensures forall d | InTree(doc.links[j].document, d) :: ProperCre(after, rows, d)
    decreases doc, |doc.links|
  {
    var link := doc.links[j];
    PrefixSucceeds(v, rows, doc, j + 1, |doc.links|);
    PrefixSucceeds(v, rows, doc, j, j + 1);
    var u := WithCreLinks(v, rows, doc, j).value;
    CresAfterLinks(v, rows, doc, j);
    TreeCresGrowUpTo(v.cres, doc, j);
    TreeCresFromHere(v.cres, doc, j + 1, |doc.links|);
    CresAfterwards(u, rows, link.document);
    var w := WithCre(u, rows, link.document).value;
    SuccessTells(u, rows, link.document, after);
    TreeCresGrow(u.cres, link.document);
    FindCreStays(v.cres, w.cres, doc);
    hide TreeCres, TreeCresUpTo, WithCre, InTree, ProperCre;
    SameNamesStay(w.cres, after, rows, doc, link.document);
  }

  lemma {:induction false} NodePrefixSucceeds(v: View, doc: Document, i: nat, n: nat)
    requires i <= n <= |doc.links| && WithNodeLinks(v, doc, n).Success?
    ensures WithNodeLinks(v, doc, i).Success?
    decreases n
  {
    if i < n {
      NodePrefixSucceeds(v, doc, i, n - 1);
    }
  }

  /** Every CRE that the resource or one below it names is stored. */
  lemma {:induction false} NodeSuccessTells(v: View, doc: Document, after: seq<CreRow>)
    requires !doc.doctype.CRE? && WithNode(v, doc).Success? && v.cres <= after
    ensures forall d, link | BelowTree(doc, d) :: !NamesUnknownCre(after, d, link)
    decreases doc, |doc.links| + 1
  {
    hide NamesUnknownCre, BelowTree, WithNodeLinks;
    forall j | 0 <= j < |doc.links|
      ensures !NamesUnknownCre(after, doc, doc.links[j])
      ensures !doc.links[j].document.doctype.CRE? ==>
        forall d, link | BelowTree(doc.links[j].document, d) :: !NamesUnknownCre(after, d, link)
    {
      NodePrefixSucceeds(v, doc, j + 1, |doc.links|);
      NodeLinkTells(v, doc, j, after);
    }
    NamedBelow(doc, after);
  }

  lemma NamedBelow(doc: Document, after: seq<CreRow>)
    requires !doc.doctype.CRE?
    requires forall j | 0 <= j < |doc.links| :: !NamesUnknownCre(after, doc, doc.links[j])
    requires forall j | 0 <= j < |doc.links| && !doc.links[j].document.doctype.CRE? ::
      forall d, link | BelowTree(doc.links[j].document, d) :: !NamesUnknownCre(after, d, link)
    ensures forall d, link | BelowTree(doc, d) :: !NamesUnknownCre(after, d, link)
  {
    hide NamesUnknownCre;
    forall d, link | BelowTree(doc, d) ensures !NamesUnknownCre(after, d, link) {
      if d == doc && link in doc.links {
        var j :| 0 <= j < |doc.links| && doc.links[j] == link;
      } else if d != doc {
        var l :| l in doc.links && !l.document.doctype.CRE? && BelowTree(l.document, d);
        var j :| 0 <= j < |doc.links| && doc.links[j] == l;
      } else {
        UnknownIsLinked(after, d, link);
      }
    }
  }

  lemma UnknownIsLinked(after: seq<CreRow>, d: Document, link: Link)
    ensures NamesUnknownCre(after, d, link) ==> link in d.links
  {
  }

  lemma {:induction false} NodeLinkTells(v: View, doc: Document, j: nat, after: seq<CreRow>)
    requires !doc.doctype.CRE? && j < |doc.links| && WithNodeLinks(v, doc, j + 1).Success? && v.cres <= after
    ensures !NamesUnknownCre(after, doc, doc.links[j])
    ensures !doc.links[j].document.doctype.CRE? ==>
      forall d, link | BelowTree(doc.links[j].document, d) :: !NamesUnknownCre(after, d, link)
    decreases doc, j
  {
    NodePrefixSucceeds(v, doc, j, j + 1);
    hide WithAttempts, SameName, FindsNoCre;
    var (u, unlinked) := WithNodeLinks(v, doc, j).value;
    var below := doc.links[j].document;
    if below.doctype.CRE? {
      NamedIsStored(u, doc, j, unlinked, after);
    } else if below.links == [] {
      NothingBelow(below);
    } else {
      NodeSuccessTells(WithLinkedNode(u, doc, j, unlinked).value, below, after);
    }
  }

  lemma NothingBelow(doc: Document)
    requires doc.links == []
    ensures forall d | BelowTree(doc, d) :: d.links == []
  {
  }

  lemma NamedIsStored(v: View, doc: Document, i: nat, unlinked: seq<Document>, after: seq<CreRow>)
    requires i < |doc.links| && WithNamedCre(v, doc, i, unlinked).Success? && v.cres <= after
    ensures !NamesUnknownCre(after, doc, doc.links[i])
  {
    hide WithAttempts, SameName;
    var cre := FirstNamed(v.cres, doc.links[i].document.name);
    assert after[cre] == v.cres[cre] && after[cre] in after;
  }

  /** The same for a CRE: whatever the resources of its tree name is stored in the end. */
  lemma {:induction false} NamedInTree(v: View, rows: seq<InternalLink>, doc: Document, after: seq<CreRow>)
    requires doc.doctype.CRE? && WithCre(v, rows, doc).Success? && TreeCres(v.cres, doc) <= after
    ensures forall d, link | BelowTree(doc, d) :: !NamesUnknownCre(after, d, link)
    decreases doc, |doc.links| + 1
  {
    FoundAfterwards(v.cres, doc);
    var v0 := v.(cres := CresWith(v.cres, doc));
    forall j | 0 <= j < |doc.links|
      ensures forall d, link | BelowTree(doc.links[j].document, d) :: !NamesUnknownCre(after, d, link)
    {
      PrefixSucceeds(v0, rows, doc, j + 1, |doc.links|);
      NamedAtLink(v0, rows, doc, j, after);
    }
    hide TreeCres, WithCre, NamesUnknownCre;
    forall d, link | BelowTree(doc, d) ensures !NamesUnknownCre(after, d, link) {
      var l :| l in doc.links && BelowTree(l.document, d);
      var j :| 0 <= j < |doc.links| && doc.links[j] == l;
    }
  }

  lemma {:induction false} NamedAtLink(v: View, rows: seq<InternalLink>, doc: Document, j: nat, after: seq<CreRow>)
    requires j < |doc.links| && WithCreLinks(v, rows, doc, j + 1).Success?
    requires TreeCresUpTo(v.cres, doc, |doc.links|) <= after
    ensures forall d, link | BelowTree(doc.links[j].document, d) :: !NamesUnknownCre(after, d, link)
    decreases doc, j
  {
    PrefixSucceeds(v, rows, doc, j, j + 1);
    CresAtLink(v, rows, doc, j);
    hide TreeCres, TreeCresUpTo, NamesUnknownCre, BelowTree, WithCre, WithNode;
    var u := WithCreLinks(v, rows, doc, j).value;
    if doc.links[j].document.doctype.CRE? {
      NamedInTree(u, rows, doc.links[j].document, after);
    } else {
      NodeSuccessTells(u, doc.links[j].document, after);
    }
  }

  lemma {:induction false} OnlyCresBelow(doc: Document, d: Document)
    requires doc.doctype.CRE? && forall c, link | InTree(doc, c) && link in c.links :: link.document.doctype.CRE?
    ensures !BelowTree(doc, d)
    ensures forall c | InTree(doc, c) :: c.doctype.CRE?
    decreases doc
  {
    assert InTree(doc, doc);
    forall link | link in doc.links
      ensures !BelowTree(link.document, d)
      ensures forall c | InTree(link.document, c) :: c.doctype.CRE?
    {
      forall c | InTree(link.document, c) ensures InTree(doc, c) {
      }
      OnlyCresBelow(link.document, d);
    }
  }

  /**
   A tree of CREs alone is registered exactly if every CRE in it has an id that starts with three digits,
   a dash and three digits, every link says Contains, PartOf or Related, and every two linked CREs are
   stored under different names or are joined by a row already.
   */
  lemma {:induction false} TreeRegistersIff(v: View, rows: seq<InternalLink>, doc: Document)
    requires doc.doctype.CRE? && forall d, link | InTree(doc, d) && link in d.links :: link.document.doctype.CRE?
    ensures WithCre(v, rows, doc).Success? <==>
      forall d | InTree(doc, d) ::
        && |d.id| >= 7 && d.id[3] == '-' && (forall i | i in [0, 1, 2, 4, 5, 6] :: '0' <= d.id[i] <= '9')
        && forall link | link in d.links ::
             && (link.ltype.Contains? || link.ltype.PartOf? || link.ltype.Related?)
             && !SameNames(TreeCres(v.cres, doc), rows, d, link.document)
  {
    var after := TreeCres(v.cres, doc);
    forall d | InTree(doc, d)
      ensures ProperCre(after, rows, d) <==>
        && |d.id| >= 7 && d.id[3] == '-' && (forall i | i in [0, 1, 2, 4, 5, 6] :: '0' <= d.id[i] <= '9')
        && forall link | link in d.links ::
             && (link.ltype.Contains? || link.ltype.PartOf? || link.ltype.Related?)
             && !SameNames(after, rows, d, link.document)
    {
      ProperIdIff(d.id);
      hide InTree, SameNames, StartsWithCreId, TreeCres;
    }
    hide TreeCres, WithCre, SameNames, StartsWithCreId;
    if WithCre(v, rows, doc).Success? {
      SuccessTells(v, rows, doc, after);
    } else {
      RefusalIsExplained(v, rows, doc);
      forall d ensures !BelowTree(doc, d) {
        OnlyCresBelow(doc, d);
      }
      OnlyCresBelow(doc, doc);
      hide InTree, BelowTree, LinksResources;
      NotProper(v.cres, after, rows, doc, WithCre(v, rows, doc).error);
    }
  }

  lemma ProperIdIff(id: string)
    ensures StartsWithCreId(id) <==>
      |id| >= 7 && id[3] == '-' && forall i | i in [0, 1, 2, 4, 5, 6] :: '0' <= id[i] <= '9'
  {
    assert forall i :: i in [0, 1, 2, 4, 5, 6] <==> 0 <= i < 7 && i != 3;
  }

  lemma NotProper(cres: seq<CreRow>, after: seq<CreRow>, rows: seq<InternalLink>, doc: Document, e: CollectionError)
    requires Explains(cres, after, rows, doc, e)
    requires forall d, row | BelowTree(doc, d) :: !HasNameOf(after, d, row)
    requires forall d, link | InTree(doc, d) || BelowTree(doc, d) :: !BadResourceLink(d, link)
    ensures
      || (exists d :: InTree(doc, d) && !ProperCre(after, rows, d))
      || (exists d, link :: BelowTree(doc, d) && NamesUnknownCre(cres, d, link))
  {
    hide InTree, BelowTree, SameNames, StartsWithCreId, NamesUnknownCre, BadResourceLink, HasNameOf;
    if e.InvalidCreId? {
      var d :| InTree(doc, d) && !StartsWithCreId(d.id);
      assert !ProperCre(after, rows, d);
    } else if e.UnknownLink? {
      var d, link :| InTree(doc, d) && BadCreLink(d, link);
      assert !ProperCre(after, rows, d);
    } else if e == Refused(SelfLink) {
      var d, link :| InTree(doc, d) && LinksSameNames(after, rows, d, link);
      assert !ProperCre(after, rows, d);
    }
  }

  /**
   With resources: where no resource has the name of a CRE and the graph knows the type of every link at a
   resource, a document is registered exactly if its CREs are proper and every CRE that a resource names
   is stored, unless the only ones missing are CREs that the document itself brings along.
   */
  lemma {:induction false} RegistersIff(v: View, rows: seq<InternalLink>, doc: Document)
    requires doc.doctype.CRE?
    requires forall d, row | BelowTree(doc, d) :: !HasNameOf(TreeCres(v.cres, doc), d, row)
    requires forall d, link | InTree(doc, d) || BelowTree(doc, d) :: !BadResourceLink(d, link)
    requires forall d, link | BelowTree(doc, d) && NamesUnknownCre(v.cres, d, link) ::
      NamesUnknownCre(TreeCres(v.cres, doc), d, link)
    ensures WithCre(v, rows, doc).Success? <==>
      && (forall d | InTree(doc, d) :: ProperCre(TreeCres(v.cres, doc), rows, d))
      && (forall d, link | BelowTree(doc, d) :: !NamesUnknownCre(TreeCres(v.cres, doc), d, link))
  {
    var after := TreeCres(v.cres, doc);
    hide TreeCres, WithCre, SameNames, StartsWithCreId, InTree, BelowTree, NamesUnknownCre, BadResourceLink, HasNameOf;
    if WithCre(v, rows, doc).Success? {
      SuccessTells(v, rows, doc, after);
      NamedInTree(v, rows, doc, after);
    } else {
      RefusalIsExplained(v, rows, doc);
      NotProper(v.cres, after, rows, doc, WithCre(v, rows, doc).error);
    }
  }
}
