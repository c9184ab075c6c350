// The documents that every component exchanges: CREs and resources, joined by typed links.
module Documents {
  datatype LinkType =
    | LinkedTo
    | PartOf
    | Contains
    | Related
    | AutomaticallyLinkedTo
    | RemediatedBy
    | Remediates
    | TestedBy
    | Tests

  datatype Doctype = CRE | Standard | Tool | Code

  datatype Document = Document(doctype: Doctype, id: string, name: string, links: seq<Link>)

  datatype Link = Link(ltype: LinkType, document: Document)

  function Lower(s: string): string {
    seq(|s|, i requires 0 <= i < |s| => if 'A' <= s[i] <= 'Z' then s[i] - 'A' + 'a' else s[i])
  }

  /** Names are compared without regard to letter case. */
  predicate SameName(a: string, b: string) {
    Lower(a) == Lower(b)
  }
}
