/**
 * The destination document, as values: metadata fields, persons, logical
 * structure nodes, pages and image descriptors. The arena that holds them is
 * the Importer class.
 */
module Doc {
  import opened Xml

  /** A metadata field: its type name and its value (null when the source attribute is missing). */
  datatype Field = Field(mdType: string, value: Option<string>)

  datatype Person = Person(
    role: string,
    firstName: Option<string>,
    lastName: Option<string>,
    authority: Option<string>,
    authorityUri: Option<string>,
    valueUri: Option<string>)

  /**
   * A logical structure element: its structure type, metadata, persons, the
   * arena ids of its children, and the pages it refers to ("to" references,
   * as page indices).
   */
  datatype Node = Node(kind: string, fields: seq<Field>, persons: seq<Person>, children: seq<nat>, refs: seq<nat>)

  /** A page of the physical structure: its mirrored metadata and its image file name. */
  datatype Page = Page(fields: seq<Field>, imageName: Option<string>)

  /** One file of the DEFAULT file group. */
  datatype ImageName = ImageName(order: nat, id: Option<string>, url: Option<string>, mimeType: Option<string>, name: string)

  const CatalogIdDigital := "CatalogIDDigital"

  /** The metadata a reset keeps: the `CatalogIDDigital` fields. */
  function KeepCatalogId(fields: seq<Field>): (r: seq<Field>)
    ensures forall f :: f in r ==> f in fields && f.mdType == CatalogIdDigital
  {
    if fields == [] then []
    else (if fields[0].mdType == CatalogIdDigital then [fields[0]] else []) + KeepCatalogId(fields[1..])
  }

  /** A reset keeps every catalog identifier, as often as it occurs. */
  lemma {:induction false} KeepCatalogIdKeepsAll(fields: seq<Field>)
    ensures forall f: Field :: f.mdType == CatalogIdDigital ==> multiset(KeepCatalogId(fields))[f] == multiset(fields)[f]
  {
    if fields != [] {
      KeepCatalogIdKeepsAll(fields[1..]);
      assert fields == [fields[0]] + fields[1..];
    }
  }

  /** A reset works field by field, so it keeps the original order. */
  lemma {:induction false} KeepCatalogIdAppend(a: seq<Field>, b: seq<Field>)
    ensures KeepCatalogId(a + b) == KeepCatalogId(a) + KeepCatalogId(b)
  {
    if a != [] {
      assert (a + b)[0] == a[0];
      assert (a + b)[1..] == a[1..] + b;
      KeepCatalogIdAppend(a[1..], b);
    } else {
      assert a + b == b;
    }
  }

  /** Fields that are all catalog identifiers survive a reset unchanged. */
  lemma {:induction false} KeepCatalogIdFixed(fields: seq<Field>)
    requires forall f :: f in fields ==> f.mdType == CatalogIdDigital
    ensures KeepCatalogId(fields) == fields
  {
    if fields != [] {
      KeepCatalogIdFixed(fields[1..]);
      assert fields == [fields[0]] + fields[1..];
    }
  }

  /** Resetting twice is resetting once: re-imports start from the same fields. */
  lemma KeepCatalogIdIdempotent(fields: seq<Field>)
    ensures KeepCatalogId(KeepCatalogId(fields)) == KeepCatalogId(fields)
  {
    KeepCatalogIdFixed(KeepCatalogId(fields));
  }

  /** The node a reset leaves: catalog identifiers only, no persons; structure and references untouched. */
  function ResetNode(n: Node): (r: Node)
    ensures r.persons == [] && r.kind == n.kind && r.children == n.children && r.refs == n.refs
  {
    n.(fields := KeepCatalogId(n.fields), persons := [])
  }

  lemma ResetNodeIdempotent(n: Node)
    ensures ResetNode(ResetNode(n)) == ResetNode(n)
  {
    KeepCatalogIdIdempotent(n.fields);
  }
}
