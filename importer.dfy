/**
 * The step plugin itself: the importer's scratch state (the sections of the
 * fetched record, the image descriptors, the id maps) and the process's
 * METS document it rewrites, with `execute` and the methods it calls, each
 * proved against the functions of the other modules.
 *
 * The document is an arena: logical structure elements are `nodes`
 * addressed by index, pages are `pages` addressed by index, and the
 * physical root is `physKind`/`physFields` with `pages` as its children.
 */
module Importer {
  import opened Xml
  import opened Doc
  import opened Rules
  import opened Mods
  import opened Refs
  import opened Sections
  import opened Pages
  import opened Logical
  import opened Download
  import Oai
  import Naming

  /** The process's METS file as `readMetadataFile` returns it. */
  datatype DocFile = DocFile(nodes: seq<Node>, top: nat, physKind: string, physFields: seq<Field>, pages: seq<Page>)

  /** The top element is an anchor (a multi-volume work or periodical) when its type is. */
  predicate IsAnchor(rs: Ruleset, nodes: seq<Node>, top: nat)
    requires top < |nodes|
  {
    nodes[top].kind in rs.anchorTypes
  }

  /** Every reference of every node names a page. */
  predicate RefsInRange(nodes: seq<Node>, pageCount: nat) {
    forall n, i :: 0 <= n < |nodes| && 0 <= i < |nodes[n].refs| ==> nodes[n].refs[i] < pageCount
  }

  /** A document as read: a forest of nodes, references to existing pages, and an anchor that has its volume. */
  predicate DocWellFormed(rs: Ruleset, d: DocFile) {
    && d.top < |d.nodes| && Ordered(d.nodes) && RefsInRange(d.nodes, |d.pages|)
    && (IsAnchor(rs, d.nodes, d.top) ==> |d.nodes[d.top].children| > 0)
  }

  /** The value `pathimagefiles` gets: the process's image folder as a file URL. */
  function ImagePath(imagesDir: string): Field {
    Field("pathimagefiles", Some("file://" + imagesDir))
  }

  /** The physical root's metadata after `pathimagefiles` is ensured: added when missing and allowed. */
  function WithImagePath(rs: Ruleset, physKind: string, fields: seq<Field>, imagesDir: string): seq<Field> {
    if (forall f :: f in fields ==> f.mdType != "pathimagefiles") && MdAllowed(rs, physKind, "pathimagefiles")
    then fields + [ImagePath(imagesDir)]
    else fields
  }

  /** Ensuring the image path twice is ensuring it once; afterwards a path is present exactly when one was or the ruleset allows it. */
  lemma WithImagePathIdempotent(rs: Ruleset, physKind: string, fields: seq<Field>, imagesDir: string)
    ensures var once := WithImagePath(rs, physKind, fields, imagesDir);
            WithImagePath(rs, physKind, once, imagesDir) == once
            && ((exists f :: f in once && f.mdType == "pathimagefiles")
                <==> (exists f :: f in fields && f.mdType == "pathimagefiles") || MdAllowed(rs, physKind, "pathimagefiles"))
  {
    var once := WithImagePath(rs, physKind, fields, imagesDir);
    if (forall f :: f in fields ==> f.mdType != "pathimagefiles") && MdAllowed(rs, physKind, "pathimagefiles") {
      assert ImagePath(imagesDir) in once;
    }
  }

  /** Node `p` with `ids` appended to its children: `addChild` for each of them. */
  function AddChildren(nodes: seq<Node>, p: nat, ids: seq<nat>): (r: seq<Node>)
    requires p < |nodes|
    ensures |r| == |nodes| && r[p].children == nodes[p].children + ids
    ensures r[p].kind == nodes[p].kind && r[p].fields == nodes[p].fields && r[p].persons == nodes[p].persons
    ensures r[p].refs == nodes[p].refs && forall n :: 0 <= n < |nodes| && n != p ==> r[n] == nodes[n]
  {
    nodes[p := nodes[p].(children := nodes[p].children + ids)]
  }

  lemma AddChildrenAppend(nodes: seq<Node>, p: nat, a: seq<nat>, t: seq<Node>, b: seq<nat>, u: seq<Node>)
    requires p < |nodes|
    ensures AddChildren(AddChildren(nodes, p, a) + t, p, b) + u == AddChildren(nodes, p, a + b) + (t + u)
  {
    var l := AddChildren(AddChildren(nodes, p, a) + t, p, b) + u;
    var r := AddChildren(nodes, p, a + b) + (t + u);
    assert |l| == |r|;
    forall k | 0 <= k < |l| ensures l[k] == r[k] {
      if k == p {
        assert nodes[p].children + a + b == nodes[p].children + (a + b);
      }
    }
  }

  /** A node replaced by one with the same children and references keeps the arena well formed. */
  lemma SameShape(nodes: seq<Node>, n: nat, m: Node, pageCount: nat)
    requires n < |nodes| && Ordered(nodes) && RefsInRange(nodes, pageCount)
    requires m.children == nodes[n].children && m.refs == nodes[n].refs
    ensures Ordered(nodes[n := m]) && RefsInRange(nodes[n := m], pageCount)
  {
  }

  /** New children after their parent and a bounded block of fresh nodes keep the arena a forest. */
  lemma OrderedGrow(nodes: seq<Node>, p: nat, ids: seq<nat>, extra: seq<Node>, pageCount: nat)
    requires Ordered(nodes) && RefsInRange(nodes, pageCount) && p < |nodes|
    requires forall i :: 0 <= i < |ids| ==> p < ids[i] < |nodes| + |extra|
    requires Block(extra, |nodes|, |nodes| + |extra|)
    ensures var r := AddChildren(nodes, p, ids) + extra;
            Ordered(r) && RefsInRange(r, pageCount)
  {
    var r := AddChildren(nodes, p, ids) + extra;
    forall n, i | 0 <= n < |r| && 0 <= i < |r[n].children| ensures n < r[n].children[i] < |r| {
      if n >= |nodes| {
        assert r[n] == extra[n - |nodes|];
      } else if n == p && i >= |nodes[p].children| {
        assert r[n].children[i] == ids[i - |nodes[p].children|];
      }
    }
    forall n | |nodes| <= n < |r| ensures r[n].refs == [] {
      assert r[n] == extra[n - |nodes|];
    }
  }

  /** Children given to the last node of an arena, which has none yet, followed by more nodes. */
  lemma AddChildrenLast(before: seq<Node>, head: Node, ids: seq<nat>, rest: seq<Node>)
    requires head.children == []
    ensures AddChildren(before + [head], |before|, ids) + rest == before + ([head.(children := ids)] + rest)
  {
    assert [] + ids == ids;
    assert (before + [head])[|before| := head.(children := ids)] == before + [head.(children := ids)];
  }

  /** One more div child below `parent`: its id, when attached, and its subtree extend what the earlier children built. */
  lemma TreeSeqSnoc(rs: Ruleset, nodes: seq<Node>, parent: nat, div: Elem, n: nat, kind: string, recs: Records, m: IdMap)
    requires parent < |nodes| && n < |div.children| && div.children[n].name == "div"
    ensures var sub := div.children[n];
            var base := |nodes|;
            var cur := AddChildren(nodes, parent, ChildIds(rs, div, n, base, kind)) + TreeSeq(rs, div, n, base, kind, recs);
            && |cur| == base + SizeSeq(div, n)
            && AddChildren(cur, parent, if Attached(rs, sub, kind) then [|cur|] else []) + Tree(rs, sub, |cur|, kind, recs)
               == AddChildren(nodes, parent, ChildIds(rs, div, n + 1, base, kind)) + TreeSeq(rs, div, n + 1, base, kind, recs)
            && RegSeq(rs, m, div, n + 1, base, kind, recs) == Reg(rs, RegSeq(rs, m, div, n, base, kind, recs), sub, |cur|, kind, recs)
  {
    var sub := div.children[n];
    var base := |nodes|;
    var a := ChildIds(rs, div, n, base, kind);
    var t := TreeSeq(rs, div, n, base, kind, recs);
    var cur := AddChildren(nodes, parent, a) + t;
    var b := if Attached(rs, sub, kind) then [|cur|] else [];
    AddChildrenAppend(nodes, parent, a, t, b, Tree(rs, sub, |cur|, kind, recs));
  }

  /** A child that is not a div adds nothing. */
  lemma TreeSeqSkip(rs: Ruleset, nodes: seq<Node>, parent: nat, div: Elem, n: nat, kind: string, recs: Records, m: IdMap)
    requires parent < |nodes| && n < |div.children| && div.children[n].name != "div"
    ensures var base := |nodes|;
            && AddChildren(nodes, parent, ChildIds(rs, div, n, base, kind)) + TreeSeq(rs, div, n, base, kind, recs)
               == AddChildren(nodes, parent, ChildIds(rs, div, n + 1, base, kind)) + TreeSeq(rs, div, n + 1, base, kind, recs)
            && RegSeq(rs, m, div, n + 1, base, kind, recs) == RegSeq(rs, m, div, n, base, kind, recs)
  {
    var base := |nodes|;
    assert ChildIds(rs, div, n + 1, base, kind) == ChildIds(rs, div, n, base, kind) + [];
    assert TreeSeq(rs, div, n + 1, base, kind, recs) == TreeSeq(rs, div, n, base, kind, recs) + [];
    assert ChildIds(rs, div, n, base, kind) + [] == ChildIds(rs, div, n, base, kind);
    assert TreeSeq(rs, div, n, base, kind, recs) + [] == TreeSeq(rs, div, n, base, kind, recs);
  }

  /**
   * The div the logical structure is read from: the top div, or, when that
   * points at its parent work by an mptr and is typed as one, its first div.
   */
  function MainDiv(structMap: Elem): Option<Elem> {
    var top := Child(structMap, "div");
    if top.None? then None
    else if Child(top.value, "mptr").Some?
            && (EqualsIgnoreCase(Attr(top.value, "TYPE"), "multivolume_work")
                || EqualsIgnoreCase(Attr(top.value, "TYPE"), "periodical"))
    then Child(top.value, "div")
    else top
  }

  /** What the main div needs: a readable MODS record behind a DMDID found in the map, and well-formed sub-divs. */
  predicate MainWellFormed(main: Elem, dmd: DmdMap, ids: set<Option<string>>) {
    && (Attr(main, "DMDID") in dmd ==> Attr(main, "DMDID") in ids)
    && SubsWellFormed(main, ids)
  }

  /** The volume after the main div is read into it: the URN, then its MODS record when the map has it. */
  function VolumeNode(rs: Ruleset, n: Node, main: Elem, recs: Records): (r: Node)
    ensures r.kind == n.kind && r.children == n.children && r.refs == n.refs
  {
    var u := WithUrn(rs, n, main);
    if Attr(main, "DMDID") in recs then Apply(rs, u, recs[Attr(main, "DMDID")]) else u
  }

  /** The volume after the main div is read into it and its sub-divs are created below it, numbered from the first free slot. */
  function VolumeTree(rs: Ruleset, nodes: seq<Node>, v: nat, main: Elem, recs: Records): (r: seq<Node>)
    requires v < |nodes|
    ensures |r| == |nodes| + SizeSeq(main, |main.children|)
  {
    var kind := nodes[v].kind;
    AddChildren(nodes[v := VolumeNode(rs, nodes[v], main, recs)], v, ChildIds(rs, main, |main.children|, |nodes|, kind))
    + TreeSeq(rs, main, |main.children|, |nodes|, kind, recs)
  }

  /** `docstructMap` after the main div: the volume under the main div's ID, then the sub-divs in pre-order. */
  function VolumeReg(rs: Ruleset, m: IdMap, base: nat, v: nat, kind: string, main: Elem, recs: Records): IdMap {
    RegSeq(rs, m[Attr(main, "ID") := v], main, |main.children|, base, kind, recs)
  }

  /** The sections of a record, collected from scratch. */
  function Sectioned(rec: Elem): Sections
    requires FilesWellFormed(rec.children)
  {
    SectionAll(Initial, rec.children, |rec.children|)
  }

  /**
   * What `importRecord` dereferences without a null check once a PHYSICAL
   * structMap is there: a sequence div, a LOGICAL structMap with a main
   * div, well-formed logical divs, a structLink, and an ID on every image
   * descriptor the fptrs are compared with.
   */
  predicate RecordWellFormed(rec: Elem) {
    FilesWellFormed(rec.children) && SectionsWellFormed(Sectioned(rec))
  }

  predicate SectionsWellFormed(s: Sections) {
    s.physical.Some? ==>
         && Identified(s.images)
         && Child(s.physical.value, "div").Some?
         && s.logical.Some? && MainDiv(s.logical.value).Some?
         && MainWellFormed(MainDiv(s.logical.value).value, s.dmd, RecordIds(s.dmd))
         && s.link.Some?
  }

  /** The dmdSecs of the anchor record that carry the anchor's ID have a readable MODS record. */
  predicate AnchorSecsWellFormed(secs: seq<Elem>, mdId: string) {
    forall k :: 0 <= k < |secs| && Attr(secs[k], "ID") == Some(mdId) ==> DmdWellFormed(secs[k])
  }

  /** The offers of every dmdSec with the ID `mdId`, in document order. */
  function AnchorEntries(secs: seq<Elem>, mdId: string): seq<Entry>
    requires AnchorSecsWellFormed(secs, mdId)
  {
    if secs == [] then []
    else
      var init, last := secs[..|secs| - 1], secs[|secs| - 1];
      assert forall k :: 0 <= k < |init| ==> init[k] == secs[k];
      AnchorEntries(init, mdId) + (if Attr(last, "ID") == Some(mdId) then DmdEntries(last) else [])
  }

  /** Detaching every page of a document leaves no node with a reference. */
  lemma DropAllPages(nodes: seq<Node>, count: nat, n: nat)
    requires RefsInRange(nodes, count) && n < |nodes|
    ensures DropPages(nodes, Upto(count))[n].refs == []
  {
    var r := DropPages(nodes, Upto(count))[n].refs;
    forall t: nat ensures t !in r {
      DropPagesRefs(nodes, Upto(count), n, t);
      if t in nodes[n].refs {
        var i :| 0 <= i < |nodes[n].refs| && nodes[n].refs[i] == t;
        assert t < count;
        assert Upto(count)[t] == t;
      }
    }
    if r != [] {
      HeadIn(r);
    }
  }

  lemma HeadIn(r: seq<nat>)
    requires r != []
    ensures r[0] in r
  {
  }

  /** One more dmdSec: its offers come after those of the dmdSecs before it, when its ID matches. */
  lemma AnchorEntriesSnoc(secs: seq<Elem>, mdId: string, i: nat)
    requires AnchorSecsWellFormed(secs, mdId) && i < |secs|
    ensures AnchorSecsWellFormed(secs[..i], mdId) && AnchorSecsWellFormed(secs[..i + 1], mdId)
    ensures AnchorEntries(secs[..i + 1], mdId)
            == AnchorEntries(secs[..i], mdId) + (if Attr(secs[i], "ID") == Some(mdId) then DmdEntries(secs[i]) else [])
  {
    assert secs[..i + 1][..i] == secs[..i];
    assert secs[..i + 1][i] == secs[i];
  }

  /** The ID of the anchor's dmdSec in the anchor record. */
  function AnchorMdId(anchorIdentifier: string): string {
    "md" + anchorIdentifier
  }

  /**
   * Whether `execute` gets as far as writing the document: an identifier is
   * configured, its record is found, and the anchor record (when one is
   * configured) could be fetched; then the write itself must succeed.
   */
  predicate Written(identifier: Option<string>, anchorIdentifier: Option<string>, primary: Oai.Fetch, anchorFetch: Oai.Fetch,
                    writeOk: bool)
    requires primary.Fetched? ==> Oai.EnvelopeWellFormed(primary.envelope)
    requires anchorFetch.Fetched? ==> Oai.EnvelopeWellFormed(anchorFetch.envelope)
  {
    && identifier.Some?
    && Oai.GetRecord(identifier, primary).Record?
    && !(IsNotBlank(anchorIdentifier) && Oai.GetRecord(anchorIdentifier, anchorFetch).RecordError?)
    && writeOk
  }

  /**
   * Whether `execute` reports success: the document is written and, when
   * the record has a DEFAULT file group, every image arrives non-empty.
   */
  predicate Verdict(identifier: Option<string>, anchorIdentifier: Option<string>, primary: Oai.Fetch, anchorFetch: Oai.Fetch,
                    writeOk: bool, images: Fetcher)
    requires primary.Fetched? ==> Oai.EnvelopeWellFormed(primary.envelope)
    requires anchorFetch.Fetched? ==> Oai.EnvelopeWellFormed(anchorFetch.envelope)
    requires var r := Oai.GetRecord(identifier, primary); r.Record? ==> FilesWellFormed(r.mets.children)
  {
    && Written(identifier, anchorIdentifier, primary, anchorFetch, writeOk)
    && var s := Sectioned(Oai.GetRecord(identifier, primary).mets);
       (s.defaultGroup.Some? ==> forall k :: 0 <= k < |s.images| ==> Downloaded(s.images[k], images))
  }

  /** The indices `0 .. n - 1`, in order. */
  function Upto(n: nat): (r: seq<nat>)
    ensures |r| == n && forall k :: 0 <= k < n ==> r[k] == k
  {
    seq(n, k requires 0 <= k < n => k)
  }

  /** The envelopes and records have the shape the import dereferences without a check. */
  predicate FetchesWellFormed(identifier: Option<string>, anchorIdentifier: Option<string>,
                              primary: Oai.Fetch, anchorFetch: Oai.Fetch)
  {
    && (primary.Fetched? ==> Oai.EnvelopeWellFormed(primary.envelope))
    && (anchorFetch.Fetched? ==> Oai.EnvelopeWellFormed(anchorFetch.envelope))
    && (var r := Oai.GetRecord(identifier, primary); r.Record? ==> RecordWellFormed(r.mets))
    && (var a := Oai.GetRecord(anchorIdentifier, anchorFetch);
        a.Record? ==> AnchorSecsWellFormed(Children(a.mets, "dmdSec"), AnchorMdId(anchorIdentifier.value)))
  }

  /**
   * What `execute` reads from its inputs without a check of its own: the
   * fetched records are well formed, and an anchor dmdSec with metadata is
   * only found when the document has an anchor to put it in.
   */
  predicate ExecuteInputs(rs: Ruleset, identifier: Option<string>, anchorIdentifier: Option<string>, doc: DocFile,
                          primary: Oai.Fetch, anchorFetch: Oai.Fetch)
    requires doc.top < |doc.nodes|
  {
    && FetchesWellFormed(identifier, anchorIdentifier, primary, anchorFetch)
    && (var a := Oai.GetRecord(anchorIdentifier, anchorFetch);
        a.Record? && AnchorEntries(Children(a.mets, "dmdSec"), AnchorMdId(anchorIdentifier.value)) != []
        ==> IsAnchor(rs, doc.nodes, doc.top))
  }

  /** `assignPagesToUpperElement` on `v`: `after` is `before`, except that `v` also references every page referenced below it. */
  predicate Aggregates(before: seq<Node>, v: nat, after: seq<Node>) {
    v < |before| && Ordered(before) && after == before[v := before[v].(refs := Aggregated(before, v))]
  }

  /**
   * What `importRecord` followed by `assignPagesToUpperElement` makes of the
   * document `before` when the record is `rec` and the volume is `v`, with no
   * id maps from an earlier record. Without a PHYSICAL structMap only the
   * page aggregation happens. Otherwise `pathimagefiles` is ensured, the
   * page divs are appended as pages, the main div is read into `v` with its
   * sub-divs below it, the structLink adds references, and then the pages
   * are aggregated into `v`.
   */
  predicate ImportedDoc(rs: Ruleset, imagesDir: string, rec: Elem, v: nat, before: DocFile, after: DocFile)
    requires RecordWellFormed(rec) && v < |before.nodes|
  {
    var s := Sectioned(rec);
    && after.top == before.top && after.physKind == before.physKind
    && if s.physical.None? then
         after.physFields == before.physFields && after.pages == before.pages && Aggregates(before.nodes, v, after.nodes)
       else
         var main, recs := MainDiv(s.logical.value).value, RecordsOf(s.dmd);
         var built := BuildAll(Built(before.pages, map[]), Children(Child(s.physical.value, "div").value, "div"), s.images, rs, before.physKind);
         var docs := VolumeReg(rs, map[], |before.nodes|, v, before.nodes[v].kind, main, recs);
         && after.physFields == WithImagePath(rs, before.physKind, before.physFields, imagesDir)
         && after.pages == built.pages
         && Aggregates(LinkAll(VolumeTree(rs, before.nodes, v, main, recs), s.link.value.children, docs, built.pageMap), v, after.nodes)
  }

  /**
   * The nodes after the anchor record: when an anchor identifier is
   * configured, its record found and the top element is an anchor, the
   * anchor's dmdSecs are parsed into it; otherwise nothing changes.
   */
  function WithAnchor(rs: Ruleset, nodes: seq<Node>, top: nat, anchorIdentifier: Option<string>, anchorFetch: Oai.Fetch): (r: seq<Node>)
    requires top < |nodes|
    requires anchorFetch.Fetched? ==> Oai.EnvelopeWellFormed(anchorFetch.envelope)
    requires var a := Oai.GetRecord(anchorIdentifier, anchorFetch);
             a.Record? ==> AnchorSecsWellFormed(Children(a.mets, "dmdSec"), AnchorMdId(anchorIdentifier.value))
    ensures |r| == |nodes|
  {
    var a := Oai.GetRecord(anchorIdentifier, anchorFetch);
    if IsNotBlank(anchorIdentifier) && a.Record? && IsAnchor(rs, nodes, top)
    then nodes[top := Apply(rs, nodes[top], AnchorEntries(Children(a.mets, "dmdSec"), AnchorMdId(anchorIdentifier.value)))]
    else nodes
  }

  /** An earlier import cleared: no node references a page, and the volume `v` has no sub-elements. */
  function Cleared(nodes: seq<Node>, v: nat): (r: seq<Node>)
    ensures |r| == |nodes|
  {
    seq(|nodes|, n requires 0 <= n < |nodes| => nodes[n].(refs := [], children := if n == v then [] else nodes[n].children))
  }

  /**
   * `after` is what the import makes of `before`: the record for
   * `identifier` was found, the anchor record was parsed into the anchor,
   * and then the record was imported into the volume `v`.
   */
  predicate FetchedDoc(rs: Ruleset, imagesDir: string, identifier: Option<string>, anchorIdentifier: Option<string>,
                       primary: Oai.Fetch, anchorFetch: Oai.Fetch, v: nat, before: DocFile, after: DocFile)
    requires FetchesWellFormed(identifier, anchorIdentifier, primary, anchorFetch)
    requires v < |before.nodes| && before.top < |before.nodes|
  {
    var r := Oai.GetRecord(identifier, primary);
    && r.Record?
    && ImportedDoc(rs, imagesDir, r.mets, v, before.(nodes := WithAnchor(rs, before.nodes, before.top, anchorIdentifier, anchorFetch)), after)
  }

  /** The volume of a document: the first child of an anchor, or the top element. */
  function VolumeOf(rs: Ruleset, doc: DocFile): (v: nat)
    requires DocWellFormed(rs, doc)
    ensures v < |doc.nodes|
  {
    if IsAnchor(rs, doc.nodes, doc.top) then doc.nodes[doc.top].children[0] else doc.top
  }

  /**
   * The document `execute` imports into: its volume (and anchor) keep only
   * their CatalogIDDigital fields, and when it already has pages, the
   * earlier import is cleared.
   */
  function Prepared(rs: Ruleset, doc: DocFile): (r: DocFile)
    requires DocWellFormed(rs, doc)
    ensures |r.nodes| == |doc.nodes| && r.top == doc.top
  {
    var v := VolumeOf(rs, doc);
    var cleaned := doc.nodes[v := ResetNode(doc.nodes[v])];
    var reset := if IsAnchor(rs, doc.nodes, doc.top) then cleaned[doc.top := ResetNode(doc.nodes[doc.top])] else cleaned;
    DocFile(if doc.pages != [] then Cleared(reset, v) else reset, doc.top, doc.physKind, doc.physFields, [])
  }

  /** The media folder after `downloadImages` for a record with these sections: the download run, or untouched without a DEFAULT group. */
  function DownloadedFolder(s: Sections, folder: Folder, fetch: Fetcher): Folder {
    if s.defaultGroup.Some? then Run(folder, s.images, fetch).folder else folder
  }

  class Importer {
    const rs: Ruleset
    /** `getImagesTifDirectory(false)` */
    const imagesDir: string
    /** the OAI-PMH GetRecord URL prefix (`vl-url`) */
    const downloadUrl: string
    /** the process properties named by `vl-identifier` and `vl-identifier-volume` */
    const identifier: Option<string>
    const anchorIdentifier: Option<string>

    // what importRecord collects from the record
    var dmdSecMap: DmdMap
    var defaultFileGroup: Option<Elem>
    var logicalStructMap: Option<Elem>
    var physicalStructMap: Option<Elem>
    var structLink: Option<Elem>
    var imageFiles: seq<ImageName>
    /** the offers of each dmdSec's MODS record, read once the record is sectioned */
    var records: Records
    var pageMap: IdMap
    var docstructMap: IdMap

    // the process's METS document
    var nodes: seq<Node>
    /** the logical top element: the anchor, or the volume itself */
    var top: nat
    var physKind: string
    var physFields: seq<Field>
    var pages: seq<Page>

    // what execute leaves outside the document
    var saved: Option<DocFile>
    var properties: seq<(string, string)>
    var mediaFolder: Folder

    /** The arena is a forest and every id the importer holds names an existing node or page. */
    predicate Valid()
      reads this`nodes, this`pages, this`pageMap, this`docstructMap
    {
      && HasFallbacks(rs)
      && Ordered(nodes) && RefsInRange(nodes, |pages|)
      && (forall key :: key in pageMap ==> pageMap[key] < |pages|)
      && (forall key :: key in docstructMap ==> docstructMap[key] < |nodes|)
    }

    /** A document has been read and its volume can be found. */
    predicate Loaded()
      reads this`top, this`nodes
    {
      top < |nodes| && Ordered(nodes) && (IsAnchor(rs, nodes, top) ==> |nodes[top].children| > 0)
    }

    /** The volume: the first child of an anchor, or the top element. */
    function Volume(): (v: nat)
      reads this`top, this`nodes
      requires Loaded()
      ensures v < |nodes| && (IsAnchor(rs, nodes, top) ==> top < v) && (!IsAnchor(rs, nodes, top) ==> v == top)
    {
      if IsAnchor(rs, nodes, top) then nodes[top].children[0] else top
    }

    /** The importer's record state, in the shape the sectioning functions speak about. */
    function Scanned(): Sections
      reads this`dmdSecMap, this`defaultFileGroup, this`logicalStructMap, this`physicalStructMap, this`structLink, this`imageFiles
    {
      Sections(dmdSecMap, defaultFileGroup, logicalStructMap, physicalStructMap, structLink, imageFiles)
    }

    /** Nothing collected from a record yet, nothing written. */
    predicate Fresh()
      reads this`dmdSecMap, this`defaultFileGroup, this`logicalStructMap, this`physicalStructMap, this`structLink, this`imageFiles
      reads this`records, this`pageMap, this`docstructMap, this`saved, this`properties
    {
      Scanned() == Initial && records == map[] && pageMap == map[] && docstructMap == map[] && saved.None? && properties == []
    }

    /** `initialize`: the ruleset, the folders and the process properties; no document read yet. */
    constructor (rs: Ruleset, imagesDir: string, downloadUrl: string, identifier: Option<string>,
                 anchorIdentifier: Option<string>, mediaFolder: Folder)
      requires HasFallbacks(rs)
      ensures Valid() && Fresh()
      ensures this.rs == rs && this.imagesDir == imagesDir && this.downloadUrl == downloadUrl
      ensures this.identifier == identifier && this.anchorIdentifier == anchorIdentifier
      ensures this.mediaFolder == mediaFolder
    {
      this.rs := rs;
      this.imagesDir := imagesDir;
      this.downloadUrl := downloadUrl;
      this.identifier := identifier;
      this.anchorIdentifier := anchorIdentifier;
      dmdSecMap := map[];
      defaultFileGroup := None;
      logicalStructMap := None;
      physicalStructMap := None;
      structLink := None;
      imageFiles := [];
      records := map[];
      pageMap := map[];
      docstructMap := map[];
      nodes := [];
      top := 0;
      physKind := "";
      physFields := [];
      pages := [];
      saved := None;
      properties := [];
      this.mediaFolder := mediaFolder;
    }

    /** `cleanupMetadata`: only the CatalogIDDigital fields of node `n` survive, and none of its persons. */
    method Cleanup(n: nat)
      requires Valid() && n < |nodes|
      modifies this`nodes
      ensures Valid()
      ensures nodes == old(nodes)[n := ResetNode(old(nodes[n]))]
    {
      var existing := nodes[n].fields;
      var kept: seq<Field> := [];
      var i := 0;
      while i < |existing|
        invariant 0 <= i <= |existing|
        invariant kept == KeepCatalogId(existing[..i]) && nodes == old(nodes)
      {
        KeepCatalogIdAppend(existing[..i], [existing[i]]);
        assert existing[..i + 1] == existing[..i] + [existing[i]];
        if existing[i].mdType == CatalogIdDigital {
          kept := kept + [existing[i]];
        }
        i := i + 1;
      }
      assert existing[..i] == existing;
      nodes := nodes[n := nodes[n].(fields := kept, persons := [])];
    }

    /** The `pathimagefiles` metadata of the physical root. */
    method EnsureImagePath()
      modifies this`physFields
      ensures physFields == WithImagePath(rs, physKind, old(physFields), imagesDir)
    {
      var i := 0;
      var found := false;
      while i < |physFields|
        invariant 0 <= i <= |physFields|
        invariant found <==> exists f :: f in physFields[..i] && f.mdType == "pathimagefiles"
        invariant physFields == old(physFields)
      {
        assert physFields[..i + 1] == physFields[..i] + [physFields[i]];
        if physFields[i].mdType == "pathimagefiles" {
          found := true;
        }
        i := i + 1;
      }
      assert physFields[..i] == physFields;
      if !found && MdAllowed(rs, physKind, "pathimagefiles") {
        physFields := physFields + [ImagePath(imagesDir)];
      }
    }

    /** The image name of a page div: for each fptr, the first descriptor with its FILEID; the last hit wins. */
    static method FindImage(fptrs: seq<Elem>, files: seq<ImageName>) returns (imageName: Option<string>)
      requires Identified(files)
      ensures imageName == ImageFor(fptrs, files)
    {
      imageName := None;
      var i := 0;
      while i < |fptrs|
        invariant 0 <= i <= |fptrs|
        invariant imageName == ImageFor(fptrs[..i], files)
      {
        var fileId := Attr(fptrs[i], "FILEID");
        assert fptrs[..i + 1][..i] == fptrs[..i];
        var j := 0;
        while j < |files|
          invariant 0 <= j <= |files|
          invariant FirstMatch(files[j..], fileId) == FirstMatch(files, fileId)
          invariant imageName == ImageFor(fptrs[..i], files)
        {
          if files[j].id == fileId {
            imageName := Some(files[j].name);
            break;
          }
          assert files[j..][1..] == files[j + 1..];
          j := j + 1;
        }
        i := i + 1;
      }
      assert fptrs[..i] == fptrs;
    }

    /** The page of one page div, and whether the ruleset lets it onto the physical root. */
    static method NewPage(div: Elem, files: seq<ImageName>, rs: Ruleset, physKind: string)
      returns (page: Page, accepted: bool)
      requires Identified(files)
      ensures page == PageOf(div, files) && accepted == PageAccepted(rs, physKind, page.fields)
    {
      var imageName := FindImage(Children(div, "fptr"), files);
      page := Page(PageFields(div), imageName);
      accepted := PageAccepted(rs, physKind, page.fields);
    }

    /** `physical.addChild(page)` and `pageMap.put(id, page)`. */
    method AttachPage(page: Page, id: Option<string>)
      requires Valid()
      modifies this`pages, this`pageMap
      ensures Valid()
      ensures pages == old(pages) + [page] && pageMap == old(pageMap)[id := |old(pages)|]
    {
      pageMap := pageMap[id := |pages|];
      pages := pages + [page];
    }

    /** The page divs of the physical sequence: each accepted page is attached and registered under its ID. */
    method BuildPages(sequence: Elem)
      requires Valid()
      requires Identified(imageFiles)
      modifies this`pages, this`pageMap
      ensures Valid()
      ensures Built(pages, pageMap) == BuildAll(Built(old(pages), old(pageMap)), Children(sequence, "div"), imageFiles, rs, physKind)
    {
      var divs := Children(sequence, "div");
      var files, kind := imageFiles, physKind;
      var i := 0;
      while i < |divs|
        invariant 0 <= i <= |divs|
        invariant Valid()
        invariant Built(pages, pageMap) == BuildAll(Built(old(pages), old(pageMap)), divs[..i], files, rs, kind)
      {
        BuildAllStep(Built(old(pages), old(pageMap)), divs, i, files, rs, kind);
        var page, accepted := NewPage(divs[i], files, rs, kind);
        if accepted {
          AttachPage(page, Attr(divs[i], "ID"));
        }
        i := i + 1;
      }
      assert divs[..i] == divs;
    }

    /** `addMetadata`: the field is added when the node's structure type allows it. */
    method AddMetadata(n: nat, f: Field) returns (added: bool)
      requires n < |nodes|
      modifies this`nodes
      ensures added == MdAllowed(rs, old(nodes[n]).kind, f.mdType)
      ensures nodes == old(nodes)[n := AddEntry(rs, old(nodes[n]), Md(f))]
    {
      added := MdAllowed(rs, nodes[n].kind, f.mdType);
      if added {
        nodes := nodes[n := nodes[n].(fields := nodes[n].fields + [f])];
      }
    }

    /** `addPerson`: the person is added when the node's structure type allows the role. */
    method AddPerson(n: nat, p: Person)
      requires n < |nodes|
      modifies this`nodes
      ensures nodes == old(nodes)[n := AddEntry(rs, old(nodes[n]), Pers(p))]
    {
      if MdAllowed(rs, nodes[n].kind, p.role) {
        nodes := nodes[n := nodes[n].(persons := nodes[n].persons + [p])];
      }
    }

    /** `parseModsElement` on node `n`: the `addMetadata` and `addPerson` calls for the record's offers, one after the other. */
    method ParseMods(n: nat, es: seq<Entry>)
      requires n < |nodes|
      modifies this`nodes
      ensures nodes == old(nodes)[n := Apply(rs, old(nodes[n]), es)]
    {
      var i := 0;
      while i < |es|
        invariant 0 <= i <= |es|
        invariant |nodes| == |old(nodes)|
        invariant nodes == old(nodes)[n := Apply(rs, old(nodes[n]), es[..i])]
      {
        assert es[..i + 1][..i] == es[..i];
        if es[i].Md? {
          var _ := AddMetadata(n, es[i].field);
        } else {
          AddPerson(n, es[i].person);
        }
        i := i + 1;
      }
      assert es[..i] == es;
    }

    /** `createDocstruct(div, parent)`: the new element, its metadata when the parent accepts it, then its sub-divs. */
    method CreateDocstruct(div: Elem, parent: nat)
      requires parent < |nodes| && DivWellFormed(div, records.Keys)
      modifies this`nodes, this`docstructMap
      ensures nodes == AddChildren(old(nodes), parent, if Attached(rs, div, old(nodes[parent]).kind) then [|old(nodes)|] else [])
                       + Tree(rs, div, |old(nodes)|, old(nodes[parent]).kind, records)
      ensures docstructMap == Reg(rs, old(docstructMap), div, |old(nodes)|, old(nodes[parent]).kind, records)
      decreases div, 1
    {
      var c := NewElement(div, parent);
      ghost var before := AddChildren(old(nodes), parent, if Attached(rs, div, old(nodes[parent]).kind) then [c] else []);
      ghost var head := Head(rs, div, old(nodes[parent]).kind, records);
      CreateChildren(div, c);
      ghost var kind := KindOf(rs, div);
      AddChildrenLast(before, head, ChildIds(rs, div, |div.children|, c + 1, kind), TreeSeq(rs, div, |div.children|, c + 1, kind, records));
    }

    /** The element for a div, appended to the arena; when the parent accepts it, it is added below it, registered and described. */
    method NewElement(div: Elem, parent: nat) returns (c: nat)
      requires parent < |nodes| && DivWellFormed(div, records.Keys)
      modifies this`nodes, this`docstructMap
      ensures c == |old(nodes)|
      ensures nodes == AddChildren(old(nodes), parent, if Attached(rs, div, old(nodes[parent]).kind) then [c] else [])
                       + [Head(rs, div, old(nodes[parent]).kind, records)]
      ensures docstructMap == if Attached(rs, div, old(nodes[parent]).kind) then old(docstructMap)[Attr(div, "ID") := c]
                              else old(docstructMap)
    {
      c := |nodes|;
      var parentKind := nodes[parent].kind;
      var kind := KindOf(rs, div);
      var attached := Attached(rs, div, parentKind);
      nodes := AddChildren(nodes, parent, if attached then [c] else []) + [Node(kind, [], [], [], [])];
      if attached {
        docstructMap := docstructMap[Attr(div, "ID") := c];
        Describe(div, c);
      }
    }

    /** The metadata of an attached element: its MODS record or its LABEL as title, then its URN unless the title was refused. */
    method Describe(div: Elem, c: nat)
      requires c < |nodes| && DescribedWellFormed(div, records.Keys)
      requires nodes[c] == Node(nodes[c].kind, [], [], [], [])
      modifies this`nodes
      ensures nodes == old(nodes)[c := Described(rs, div, old(nodes[c]).kind, records)]
    {
      if IsNotBlank(Attr(div, "DMDID")) {
        ParseMods(c, records[Attr(div, "DMDID")]);
        AddUrn(div, c);
      } else if IsNotBlank(Attr(div, "LABEL")) {
        ghost var empty := nodes[c];
        var added := AddMetadata(c, Field("TitleDocMain", Attr(div, "LABEL")));
        if added {
          assert nodes[c] == empty.(fields := [Field("TitleDocMain", Attr(div, "LABEL"))]);
          AddUrn(div, c);
        }
      } else {
        AddUrn(div, c);
      }
    }

    /** The URN from CONTENTIDS, when given and allowed. */
    method AddUrn(div: Elem, c: nat)
      requires c < |nodes|
      modifies this`nodes
      ensures nodes == old(nodes)[c := WithUrn(rs, old(nodes[c]), div)]
    {
      if IsNotBlank(Attr(div, "CONTENTIDS")) {
        var _ := AddMetadata(c, Field("_urn", Attr(div, "CONTENTIDS")));
      }
    }

    /** The `createDocstruct` calls for the div children of `div`, in order, below node `parent`. */
    method CreateChildren(div: Elem, parent: nat)
      requires parent < |nodes| && SubsWellFormed(div, records.Keys)
      modifies this`nodes, this`docstructMap
      ensures nodes == AddChildren(old(nodes), parent, ChildIds(rs, div, |div.children|, |old(nodes)|, old(nodes[parent]).kind))
                       + TreeSeq(rs, div, |div.children|, |old(nodes)|, old(nodes[parent]).kind, records)
      ensures docstructMap == RegSeq(rs, old(docstructMap), div, |div.children|, |old(nodes)|, old(nodes[parent]).kind, records)
      decreases div, 0, 1
    {
      ghost var nodes0 := nodes;
      ghost var m0 := docstructMap;
      assert nodes0[parent].children + [] == nodes0[parent].children;
      assert AddChildren(nodes0, parent, []) == nodes0;
      var i := 0;
      while i < |div.children|
        invariant 0 <= i <= |div.children|
        invariant nodes == AddChildren(nodes0, parent, ChildIds(rs, div, i, |nodes0|, nodes0[parent].kind))
                           + TreeSeq(rs, div, i, |nodes0|, nodes0[parent].kind, records)
        invariant docstructMap == RegSeq(rs, m0, div, i, |nodes0|, nodes0[parent].kind, records)
      {
        CreateChild(div, i, parent, nodes0, m0);
        i := i + 1;
      }
    }

    /** Child `i` of `div`: `createDocstruct` below `parent` when it is a div, nothing otherwise. */
    method CreateChild(div: Elem, i: nat, parent: nat, ghost nodes0: seq<Node>, ghost m0: IdMap)
      requires i < |div.children| && parent < |nodes0| && SubsWellFormed(div, records.Keys)
      requires nodes == AddChildren(nodes0, parent, ChildIds(rs, div, i, |nodes0|, nodes0[parent].kind))
                        + TreeSeq(rs, div, i, |nodes0|, nodes0[parent].kind, records)
      requires docstructMap == RegSeq(rs, m0, div, i, |nodes0|, nodes0[parent].kind, records)
      modifies this`nodes, this`docstructMap
      ensures nodes == AddChildren(nodes0, parent, ChildIds(rs, div, i + 1, |nodes0|, nodes0[parent].kind))
                       + TreeSeq(rs, div, i + 1, |nodes0|, nodes0[parent].kind, records)
      ensures docstructMap == RegSeq(rs, m0, div, i + 1, |nodes0|, nodes0[parent].kind, records)
      decreases div, 0, 0
    {
      if div.children[i].name == "div" {
        TreeSeqSnoc(rs, nodes0, parent, div, i, nodes0[parent].kind, records, m0);
        CreateDocstruct(div.children[i], parent);
      } else {
        TreeSeqSkip(rs, nodes0, parent, div, i, nodes0[parent].kind, records, m0);
      }
    }
  
    // importRecord: sectioning

    /** The descriptor of one file of a DEFAULT group: the name comes from the ID and the MIME type. */
    static method NewDescriptor(file: Elem, order: nat) returns (d: ImageName)
      requires FileWellFormed(file)
      ensures d == Descriptor(file, order)
    {
      var flocat := Child(file, "FLocat").value;
      var mimeType := Attr(file, "MIMETYPE");
      var id := Attr(file, "ID");
      var url := Attr(flocat, "href");
      var filename := Naming.FileName(id, mimeType);
      d := ImageName(order, id, url, mimeType, filename);
    }

    /** The files of one DEFAULT group: the group is remembered and each file gets the next descriptor. */
    method AddDescriptors(g: Elem)
      requires IsDefaultGroup(g) && AllFilesWellFormed(g.children)
      modifies this`defaultFileGroup, this`imageFiles
      ensures Scanned() == AddGroup(old(Scanned()), g)
    {
      defaultFileGroup := Some(g);
      var files := g.children;
      var j := 0;
      while j < |files|
        invariant 0 <= j <= |files|
        invariant imageFiles == old(imageFiles) + Descriptors(files, j, |old(imageFiles)| + 1)
        invariant defaultFileGroup == Some(g)
      {
        AddDescriptor(files, j, old(imageFiles), |old(imageFiles)| + 1);
        j := j + 1;
      }
    }

    /** `imageFiles.add` for file `j` of a DEFAULT group, numbered by the list's size. */
    method AddDescriptor(files: seq<Elem>, j: nat, ghost before: seq<ImageName>, ghost first: nat)
      requires j < |files| && AllFilesWellFormed(files) && first == |before| + 1
      requires imageFiles == before + Descriptors(files, j, first)
      modifies this`imageFiles
      ensures imageFiles == before + Descriptors(files, j + 1, first)
    {
      var order := |imageFiles| + 1;
      assert order == first + j;
      var d := NewDescriptor(files[j], order);
      DescriptorsSnoc(files, j, first, d);
      SnocAssoc(before, Descriptors(files, j, first), Descriptors(files, j + 1, first), d);
      imageFiles := imageFiles + [d];
    }

    /** The file groups of one fileSec, in order; only DEFAULT groups contribute. */
    method AddFileGroups(fileSec: Elem)
      requires FileSecWellFormed(fileSec)
      modifies this`defaultFileGroup, this`imageFiles
      ensures Scanned() == AddGroups(old(Scanned()), fileSec.children, |fileSec.children|)
    {
      var groups := fileSec.children;
      var j := 0;
      while j < |groups|
        invariant 0 <= j <= |groups|
        invariant Scanned() == AddGroups(old(Scanned()), groups, j)
      {
        if IsDefaultGroup(groups[j]) {
          AddDescriptors(groups[j]);
        }
        j := j + 1;
      }
    }

    /** The dispatch over the children of the METS element that fills the record state. */
    method Section(rec: Elem)
      requires FilesWellFormed(rec.children)
      modifies this`dmdSecMap, this`defaultFileGroup, this`logicalStructMap, this`physicalStructMap,
               this`structLink, this`imageFiles
      ensures Scanned() == SectionAll(old(Scanned()), rec.children, |rec.children|)
    {
      var es := rec.children;
      var i := 0;
      while i < |es|
        invariant 0 <= i <= |es|
        invariant Scanned() == SectionAll(old(Scanned()), es, i)
      {
        var e := es[i];
        if e.name == "dmdSec" {
          dmdSecMap := dmdSecMap[Attr(e, "ID") := e];
        } else if e.name == "amdSec" {
        } else if e.name == "fileSec" {
          AddFileGroups(e);
        } else if e.name == "structMap" && Attr(e, "TYPE") == Some("LOGICAL") {
          logicalStructMap := Some(e);
        } else if e.name == "structMap" && Attr(e, "TYPE") == Some("PHYSICAL") {
          physicalStructMap := Some(e);
        } else if e.name == "structLink" {
          structLink := Some(e);
        }
        i := i + 1;
      }
    }

    // importRecord: the logical structure and the links

    /**
     * The main div goes into the volume: its URN, its MODS record when the
     * dmdSec map has its DMDID, its ID registered for the volume, and every
     * sub-div created below it.
     */
    method BuildLogical(main: Elem, v: nat)
      requires Valid() && v < |nodes|
      requires records.Keys <= dmdSecMap.Keys && MainWellFormed(main, dmdSecMap, records.Keys)
      modifies this`nodes, this`docstructMap
      ensures Valid()
      ensures nodes == VolumeTree(rs, old(nodes), v, main, records)
      ensures docstructMap == VolumeReg(rs, old(docstructMap), |old(nodes)|, v, old(nodes[v]).kind, main, records)
    {
      ghost var nodes0 := nodes;
      AddUrn(main, v);
      var dmdid := Attr(main, "DMDID");
      if dmdid in dmdSecMap {
        ParseMods(v, records[dmdid]);
      }
      assert nodes == nodes0[v := VolumeNode(rs, nodes0[v], main, records)];
      SameShape(nodes0, v, nodes[v], |pages|);
      docstructMap := docstructMap[Attr(main, "ID") := v];
      AddSubDivs(main, v);
    }

    /** The sub-divs of `div` created below node `parent`, keeping the arena a forest and the id maps in range. */
    method AddSubDivs(div: Elem, parent: nat)
      requires Valid() && parent < |nodes| && SubsWellFormed(div, records.Keys)
      modifies this`nodes, this`docstructMap
      ensures Valid()
      ensures nodes == AddChildren(old(nodes), parent, ChildIds(rs, div, |div.children|, |old(nodes)|, old(nodes[parent]).kind))
                       + TreeSeq(rs, div, |div.children|, |old(nodes)|, old(nodes[parent]).kind, records)
      ensures docstructMap == RegSeq(rs, old(docstructMap), div, |div.children|, |old(nodes)|, old(nodes[parent]).kind, records)
    {
      CreateChildren(div, parent);
      ghost var kind := old(nodes[parent]).kind;
      ghost var base := |old(nodes)|;
      TreeSeqShape(rs, div, |div.children|, base, kind, records);
      OrderedGrow(old(nodes), parent, ChildIds(rs, div, |div.children|, base, kind),
                  TreeSeq(rs, div, |div.children|, base, kind, records), |pages|);
      RegSeqRange(rs, old(docstructMap), div, |div.children|, base, kind, records);
    }

    /** `addReferenceTo(page, "logical_physical")` from node `n`. */
    method AddReference(n: nat, page: nat)
      requires Valid() && n < |nodes| && page < |pages|
      modifies this`nodes
      ensures Valid()
      ensures nodes == old(nodes)[n := old(nodes[n]).(refs := old(nodes[n].refs) + [page])]
    {
      nodes := nodes[n := nodes[n].(refs := nodes[n].refs + [page])];
    }

    /** The structLink entries, in order: a reference for each entry whose two ids both resolve. */
    method LinkPages(links: seq<Elem>)
      requires Valid()
      modifies this`nodes
      ensures Valid()
      ensures nodes == LinkAll(old(nodes), links, docstructMap, pageMap)
    {
      var i := 0;
      while i < |links|
        invariant 0 <= i <= |links|
        invariant Valid() && |nodes| == |old(nodes)|
        invariant nodes == LinkAll(old(nodes), links[..i], docstructMap, pageMap)
      {
        assert links[..i + 1][..i] == links[..i];
        var fromId := Attr(links[i], "from");
        var toId := Attr(links[i], "to");
        if fromId in docstructMap {
          if toId in pageMap {
            AddReference(docstructMap[fromId], pageMap[toId]);
          }
        }
        i := i + 1;
      }
      assert links[..i] == links;
    }

    /**
     * `importRecord`: the record is sectioned; without a PHYSICAL structMap
     * nothing else happens, otherwise the sections are imported into the
     * volume `v`.
     */
    method ImportRecord(rec: Elem, v: nat)
      requires Valid() && v < |nodes| && Scanned() == Initial && RecordWellFormed(rec)
      modifies this`dmdSecMap, this`defaultFileGroup, this`logicalStructMap, this`physicalStructMap,
               this`structLink, this`imageFiles, this`records, this`physFields, this`pages, this`pageMap,
               this`nodes, this`docstructMap
      ensures Valid()
      ensures Scanned() == Sectioned(rec) && records == RecordsOf(dmdSecMap)
      ensures physicalStructMap.None? ==>
                nodes == old(nodes) && pages == old(pages) && physFields == old(physFields)
                && pageMap == old(pageMap) && docstructMap == old(docstructMap)
      ensures physicalStructMap.Some? ==> Imported(old(nodes), old(physFields), old(pages), old(pageMap), old(docstructMap), v)
    {
      Section(rec);
      records := RecordsOf(dmdSecMap);
      ImportScanned(v);
    }

    /** `importRecord` once the record's sections have been collected. */
    method ImportScanned(v: nat)
      requires Valid() && v < |nodes| && SectionsWellFormed(Scanned()) && records == RecordsOf(dmdSecMap)
      modifies this`physFields, this`pages, this`pageMap, this`nodes, this`docstructMap
      ensures Valid()
      ensures physicalStructMap.None? ==>
                nodes == old(nodes) && pages == old(pages) && physFields == old(physFields)
                && pageMap == old(pageMap) && docstructMap == old(docstructMap)
      ensures physicalStructMap.Some? ==> Imported(old(nodes), old(physFields), old(pages), old(pageMap), old(docstructMap), v)
    {
      if physicalStructMap.None? {
        return;
      }
      assert Ready() by {
        assert Scanned().dmd == dmdSecMap && Scanned().logical == logicalStructMap;
      }
      ImportSections(v);
    }

    /**
     * The sections found hold what the import reads without a null check:
     * a PHYSICAL structMap with a sequence div, identified image
     * descriptors, a LOGICAL structMap with a well-formed main div whose
     * MODS records were read, and a structLink.
     */
    predicate Ready()
      reads this`physicalStructMap, this`imageFiles, this`logicalStructMap, this`records, this`dmdSecMap, this`structLink
    {
      && physicalStructMap.Some? && Child(physicalStructMap.value, "div").Some? && Identified(imageFiles)
      && logicalStructMap.Some? && MainDiv(logicalStructMap.value).Some?
      && records.Keys <= dmdSecMap.Keys && MainWellFormed(MainDiv(logicalStructMap.value).value, dmdSecMap, records.Keys)
      && structLink.Some?
    }

    /**
     * What importing the sections does to a document that had the given
     * state: `pathimagefiles` is ensured, the page divs become pages, the
     * main div and its sub-divs go into the volume `v`, and the structLink
     * adds references.
     */
    ghost predicate Imported(nodes0: seq<Node>, physFields0: seq<Field>, pages0: seq<Page>, pageMap0: IdMap, docs0: IdMap, v: nat)
      reads this
      requires v < |nodes0| && Ready()
    {
      var main := MainDiv(logicalStructMap.value).value;
      && physFields == WithImagePath(rs, physKind, physFields0, imagesDir)
      && Built(pages, pageMap)
         == BuildAll(Built(pages0, pageMap0), Children(Child(physicalStructMap.value, "div").value, "div"), imageFiles, rs, physKind)
      && docstructMap == VolumeReg(rs, docs0, |nodes0|, v, nodes0[v].kind, main, records)
      && nodes == LinkAll(VolumeTree(rs, nodes0, v, main, records), structLink.value.children, docstructMap, pageMap)
    }

    /** The import proper, once a PHYSICAL structMap has been found. */
    method ImportSections(v: nat)
      requires Valid() && v < |nodes| && Ready()
      modifies this`physFields, this`pages, this`pageMap, this`nodes, this`docstructMap
      ensures Valid()
      ensures Imported(old(nodes), old(physFields), old(pages), old(pageMap), old(docstructMap), v)
    {
      ImportPhysical();
      ImportLogical(v);
    }

    /** The physical half: `pathimagefiles` on the physical element, then the pages. */
    method ImportPhysical()
      requires Valid() && Ready()
      modifies this`physFields, this`pages, this`pageMap
      ensures Valid() && |pages| >= |old(pages)|
      ensures physFields == WithImagePath(rs, physKind, old(physFields), imagesDir)
      ensures Built(pages, pageMap)
              == BuildAll(Built(old(pages), old(pageMap)), Children(Child(physicalStructMap.value, "div").value, "div"), imageFiles, rs, physKind)
    {
      EnsureImagePath();
      BuildPages(Child(physicalStructMap.value, "div").value);
    }

    /** The logical half: the main div into the volume `v`, then the structLink references. */
    method ImportLogical(v: nat)
      requires Valid() && v < |nodes| && Ready()
      modifies this`nodes, this`docstructMap
      ensures Valid()
      ensures docstructMap == VolumeReg(rs, old(docstructMap), |old(nodes)|, v, old(nodes)[v].kind, MainDiv(logicalStructMap.value).value, records)
      ensures nodes == LinkAll(VolumeTree(rs, old(nodes), v, MainDiv(logicalStructMap.value).value, records),
                               structLink.value.children, docstructMap, pageMap)
    {
      BuildLogical(MainDiv(logicalStructMap.value).value, v);
      LinkPages(structLink.value.children);
    }

    /**
     * Clearing an earlier import when the document already has pages: every
     * reference to a page is removed, then the pages, then the sub-elements
     * of the volume `v` (the nodes stay in the arena, unreachable from it).
     */
    method ClearStructure(v: nat)
      requires Valid() && v < |nodes| && pageMap == map[]
      modifies this`nodes, this`pages
      ensures Valid() && pages == [] && |nodes| == |old(nodes)|
      ensures nodes == Cleared(old(nodes), v)
    {
      var count := |pages|;
      var p := 0;
      while p < count
        invariant 0 <= p <= count && pages == old(pages)
        invariant nodes == DropPages(old(nodes), Upto(p))
      {
        assert Upto(p + 1)[..p] == Upto(p);
        nodes := DropPage(nodes, p);
        p := p + 1;
      }
      forall n | 0 <= n < |nodes|
        ensures nodes[n] == old(nodes[n]).(refs := [])
      {
        DropPagesKeeps(old(nodes), Upto(count), n);
        DropAllPages(old(nodes), count, n);
      }
      pages := [];
      nodes := nodes[v := nodes[v].(children := [])];
      assert forall n :: 0 <= n < |nodes| ==> nodes[n] == Cleared(old(nodes), v)[n];
    }

    /**
     * The anchor record: every dmdSec whose ID is `md` + the anchor
     * identifier is parsed into the anchor node `a`, in document order.
     */
    method ParseAnchor(secs: seq<Elem>, mdId: string, a: nat)
      requires Valid() && a < |nodes| && AnchorSecsWellFormed(secs, mdId)
      modifies this`nodes
      ensures Valid()
      ensures nodes == old(nodes)[a := Apply(rs, old(nodes[a]), AnchorEntries(secs, mdId))]
    {
      var i := 0;
      while i < |secs|
        invariant 0 <= i <= |secs| && |nodes| == |old(nodes)| && AnchorSecsWellFormed(secs[..i], mdId)
        invariant nodes == old(nodes)[a := Apply(rs, old(nodes[a]), AnchorEntries(secs[..i], mdId))]
      {
        ParseAnchorSec(secs, mdId, a, i, old(nodes));
        i := i + 1;
      }
      assert secs[..i] == secs;
      SameShape(old(nodes), a, nodes[a], |pages|);
    }

    /** One dmdSec of the anchor record: parsed into `a` when its ID matches. */
    method ParseAnchorSec(secs: seq<Elem>, mdId: string, a: nat, i: nat, ghost nodes0: seq<Node>)
      requires a < |nodes0| && i < |secs| && AnchorSecsWellFormed(secs, mdId) && |nodes| == |nodes0|
      requires AnchorSecsWellFormed(secs[..i], mdId)
      requires nodes == nodes0[a := Apply(rs, nodes0[a], AnchorEntries(secs[..i], mdId))]
      modifies this`nodes
      ensures |nodes| == |nodes0| && AnchorSecsWellFormed(secs[..i + 1], mdId)
      ensures nodes == nodes0[a := Apply(rs, nodes0[a], AnchorEntries(secs[..i + 1], mdId))]
    {
      AnchorEntriesSnoc(secs, mdId, i);
      if Attr(secs[i], "ID") == Some(mdId) {
        ApplyAppend(rs, nodes0[a], AnchorEntries(secs[..i], mdId), DmdEntries(secs[i]));
        ParseMods(a, DmdEntries(secs[i]));
      } else {
        assert AnchorEntries(secs[..i + 1], mdId) == AnchorEntries(secs[..i], mdId) + [];
        assert AnchorEntries(secs[..i], mdId) + [] == AnchorEntries(secs[..i], mdId);
      }
    }

    /** `contains` on a reference list, by a scan like the source's inner loop. */
    static method Contains(refs: seq<nat>, t: nat) returns (found: bool)
      ensures found <==> t in refs
    {
      var k := 0;
      while k < |refs|
        invariant 0 <= k <= |refs| && t !in refs[..k]
      {
        if refs[k] == t {
          return true;
        }
        assert refs[..k + 1] == refs[..k] + [refs[k]];
        k := k + 1;
      }
      assert refs[..k] == refs;
      return false;
    }

    /**
     * `assignPagesToUpperElement`: every page referenced by a node below
     * `v` (pre-order) is added to `v`'s references unless already there.
     */
    method AssignPages(v: nat)
      requires Valid() && v < |nodes|
      modifies this`nodes
      ensures Valid()
      ensures nodes == old(nodes)[v := old(nodes[v]).(refs := Aggregated(old(nodes), v))]
    {
      var flat := Flat(nodes, v);
      var i := 0;
      while i < |flat|
        invariant 0 <= i <= |flat| && Valid() && |nodes| == |old(nodes)|
        invariant forall e :: e in flat[..i] ==> e in flat
        invariant nodes == old(nodes)[v := old(nodes[v]).(refs := DedupUnion(old(nodes[v]).refs, RefsOf(old(nodes), flat[..i])))]
      {
        assert flat[..i + 1] == flat[..i] + [flat[i]];
        assert flat[i] in flat;
        assert forall e :: e in flat[..i] ==> e in flat;
        RefsOfSnoc(old(nodes), flat[..i], flat[i]);
        MergeRefs(v, flat[i], old(nodes), RefsOf(old(nodes), flat[..i]));
        i := i + 1;
      }
      assert flat[..i] == flat;
    }

    /** The references of one node `d` below `v` merged into `v`'s, one target at a time. */
    method MergeRefs(v: nat, d: nat, ghost nodes0: seq<Node>, ghost done: seq<nat>)
      requires Valid() && v < d < |nodes| && |nodes| == |nodes0| && nodes[d] == nodes0[d]
      requires nodes == nodes0[v := nodes0[v].(refs := DedupUnion(nodes0[v].refs, done))]
      modifies this`nodes
      ensures Valid()
      ensures nodes == nodes0[v := nodes0[v].(refs := DedupUnion(nodes0[v].refs, done + nodes0[d].refs))]
    {
      var childRefs := nodes[d].refs;
      var j := 0;
      ghost var added := done;
      while j < |childRefs|
        invariant 0 <= j <= |childRefs| && Valid() && |nodes| == |nodes0|
        invariant added == done + childRefs[..j]
        invariant nodes == nodes0[v := nodes0[v].(refs := DedupUnion(nodes0[v].refs, added))]
      {
        assert nodes[d] == nodes0[d];
        AddIfAbsent(v, d, j, nodes0, added);
        assert childRefs[..j + 1] == childRefs[..j] + [childRefs[j]];
        added := added + [childRefs[j]];
        j := j + 1;
      }
      assert childRefs[..j] == childRefs;
    }

    /** The inner loop's step: target `t` is added to `v`'s references unless one of them already names it. */
    method AddIfAbsent(v: nat, d: nat, j: nat, ghost nodes0: seq<Node>, ghost added: seq<nat>)
      requires Valid() && v < |nodes| && d < |nodes| && |nodes| == |nodes0| && v != d && j < |nodes[d].refs|
      requires nodes == nodes0[v := nodes0[v].(refs := DedupUnion(nodes0[v].refs, added))]
      modifies this`nodes
      ensures Valid() && |nodes| == |nodes0| && nodes[d] == old(nodes[d])
      ensures nodes == nodes0[v := nodes0[v].(refs := DedupUnion(nodes0[v].refs, added + [old(nodes[d].refs[j])]))]
    {
      var t := nodes[d].refs[j];
      DedupUnionSnoc(nodes0[v].refs, added, t);
      var present := Contains(nodes[v].refs, t);
      if !present {
        AddReference(v, t);
      }
    }

    /**
     * `downloadImages`: without a DEFAULT file group there is nothing to
     * do; otherwise the images are fetched one after the other into the
     * media folder as `Run` describes.
     */
    method DownloadImages(fetch: Fetcher) returns (ok: bool)
      modifies this`mediaFolder
      ensures defaultFileGroup.None? ==> ok && mediaFolder == old(mediaFolder)
      ensures defaultFileGroup.Some? ==>
                ok == Run(old(mediaFolder), imageFiles, fetch).ok && mediaFolder == Run(old(mediaFolder), imageFiles, fetch).folder
    {
      if defaultFileGroup.None? {
        return true;
      }
      var i := 0;
      while i < |imageFiles|
        invariant 0 <= i <= |imageFiles|
        invariant Run(old(mediaFolder), imageFiles, fetch) == Run(mediaFolder, imageFiles[i..], fetch)
      {
        assert imageFiles[i..][0] == imageFiles[i] && imageFiles[i..][1..] == imageFiles[i + 1..];
        var f := imageFiles[i];
        ghost var before := mediaFolder;
        match fetch(f.url, 0) {
          case Complete(size) =>
            mediaFolder := mediaFolder[f.name := size];
          case Broken(written) =>
            mediaFolder := mediaFolder[f.name := written];
            match fetch(f.url, 1) {
              case Complete(size) =>
                mediaFolder := mediaFolder[f.name := size];
                assert mediaFolder == before[f.name := size];
              case Broken(again) =>
                mediaFolder := mediaFolder[f.name := again];
                assert mediaFolder == before[f.name := again];
                return false;
            }
        }
        if mediaFolder[f.name] == 0 {
          mediaFolder := mediaFolder - {f.name};
          return false;
        }
        i := i + 1;
      }
      return true;
    }

    /**
     * `execute`: the process's document is read, its volume (and anchor)
     * cleaned, an earlier import cleared, the record fetched, the anchor
     * record's metadata parsed into the anchor, and the rest left to
     * `Finish`.
     */
    method Execute(doc: DocFile, primary: Oai.Fetch, anchorFetch: Oai.Fetch, writeOk: bool, images: Fetcher)
      returns (ok: bool)
      requires Valid() && Fresh() && DocWellFormed(rs, doc)
      requires ExecuteInputs(rs, identifier, anchorIdentifier, doc, primary, anchorFetch)
      modifies this
      ensures ok == Verdict(identifier, anchorIdentifier, primary, anchorFetch, writeOk, images)
      ensures saved.Some? <==> Written(identifier, anchorIdentifier, primary, anchorFetch, writeOk)
      ensures saved.Some? ==>
                && saved.value == DocFile(nodes, top, physKind, physFields, pages)
                && FetchedDoc(rs, imagesDir, identifier, anchorIdentifier, primary, anchorFetch, VolumeOf(rs, doc), Prepared(rs, doc), saved.value)
                && properties == [("VL Final URL", downloadUrl + identifier.value)]
                && mediaFolder == DownloadedFolder(Sectioned(Oai.GetRecord(identifier, primary).mets), old(mediaFolder), images)
      ensures saved.None? ==> properties == [] && mediaFolder == old(mediaFolder)
    {
      var v := Prepare(doc);
      if identifier.None? {
        return false;
      }
      ok := ImportIdentified(v, primary, anchorFetch, writeOk, images);
    }

    /**
     * `execute` once an identifier is configured: an earlier import is
     * cleared, the record fetched, the anchor record's metadata parsed
     * into the anchor, and the rest left to `Finish`.
     */
    method ImportIdentified(v: nat, primary: Oai.Fetch, anchorFetch: Oai.Fetch, writeOk: bool, images: Fetcher)
      returns (ok: bool)
      requires Valid() && v < |nodes| && top < |nodes| && identifier.Some?
      requires Scanned() == Initial && pageMap == map[] && docstructMap == map[] && saved.None? && properties == []
      requires FetchesWellFormed(identifier, anchorIdentifier, primary, anchorFetch)
      modifies this
      ensures ok == Verdict(identifier, anchorIdentifier, primary, anchorFetch, writeOk, images)
      ensures saved.Some? <==> Written(identifier, anchorIdentifier, primary, anchorFetch, writeOk)
      ensures saved.Some? ==>
                && saved.value == DocFile(nodes, top, physKind, physFields, pages)
                && FetchedDoc(rs, imagesDir, identifier, anchorIdentifier, primary, anchorFetch, v,
                              DocFile(if old(pages) != [] then Cleared(old(nodes), v) else old(nodes), old(top), old(physKind), old(physFields), []),
                              saved.value)
                && properties == [("VL Final URL", downloadUrl + identifier.value)]
                && mediaFolder == DownloadedFolder(Sectioned(Oai.GetRecord(identifier, primary).mets), old(mediaFolder), images)
      ensures saved.None? ==> properties == [] && mediaFolder == old(mediaFolder)
    {
      if pages != [] {
        ClearStructure(v);
      }
      ok := FetchAndImport(v, primary, anchorFetch, writeOk, images);
    }

    /**
     * The record is fetched (a missing record ends the step), then the
     * anchor record when an anchor identifier is configured (a failed fetch
     * ends the step), whose metadata goes into the anchor; the rest is
     * `Finish`.
     */
    method FetchAndImport(v: nat, primary: Oai.Fetch, anchorFetch: Oai.Fetch, writeOk: bool, images: Fetcher)
      returns (ok: bool)
      requires Valid() && v < |nodes| && top < |nodes| && identifier.Some?
      requires Scanned() == Initial && saved.None? && properties == [] && pageMap == map[] && docstructMap == map[]
      requires FetchesWellFormed(identifier, anchorIdentifier, primary, anchorFetch)
      modifies this
      ensures ok == Verdict(identifier, anchorIdentifier, primary, anchorFetch, writeOk, images)
      ensures saved.Some? <==> Written(identifier, anchorIdentifier, primary, anchorFetch, writeOk)
      ensures saved.Some? ==>
                && saved.value == DocFile(nodes, top, physKind, physFields, pages)
                && FetchedDoc(rs, imagesDir, identifier, anchorIdentifier, primary, anchorFetch, v,
                              DocFile(old(nodes), old(top), old(physKind), old(physFields), old(pages)), saved.value)
                && properties == [("VL Final URL", downloadUrl + identifier.value)]
                && mediaFolder == DownloadedFolder(Sectioned(Oai.GetRecord(identifier, primary).mets), old(mediaFolder), images)
      ensures saved.None? ==> properties == [] && mediaFolder == old(mediaFolder)
    {
      var rec := Oai.GetRecord(identifier, primary);
      if !rec.Record? {
        return false;
      }
      ok := ImportFetched(rec.mets, v, anchorFetch, writeOk, images);
    }

    /** The step once the record `rec` was found: the anchor, then `Finish`. */
    method ImportFetched(rec: Elem, v: nat, anchorFetch: Oai.Fetch, writeOk: bool, images: Fetcher)
      returns (ok: bool)
      requires Valid() && v < |nodes| && top < |nodes| && identifier.Some?
      requires Scanned() == Initial && saved.None? && properties == [] && RecordWellFormed(rec)
      requires pageMap == map[] && docstructMap == map[]
      requires anchorFetch.Fetched? ==> Oai.EnvelopeWellFormed(anchorFetch.envelope)
      requires var a := Oai.GetRecord(anchorIdentifier, anchorFetch);
               a.Record? ==> AnchorSecsWellFormed(Children(a.mets, "dmdSec"), AnchorMdId(anchorIdentifier.value))
      modifies this
      ensures var written := writeOk && !(IsNotBlank(anchorIdentifier) && Oai.GetRecord(anchorIdentifier, anchorFetch).RecordError?);
              && (saved.Some? <==> written)
              && (ok <==> written && var s := Sectioned(rec);
                          (s.defaultGroup.Some? ==> forall k :: 0 <= k < |s.images| ==> Downloaded(s.images[k], images)))
      ensures saved.Some? ==>
                && saved.value == DocFile(nodes, top, physKind, physFields, pages)
                && ImportedDoc(rs, imagesDir, rec, v,
                               DocFile(WithAnchor(rs, old(nodes), old(top), anchorIdentifier, anchorFetch), old(top), old(physKind), old(physFields), old(pages)),
                               saved.value)
                && properties == [("VL Final URL", downloadUrl + identifier.value)]
                && mediaFolder == DownloadedFolder(Sectioned(rec), old(mediaFolder), images)
      ensures saved.None? ==> properties == [] && mediaFolder == old(mediaFolder)
    {
      var fatal := ImportAnchor(anchorFetch);
      if fatal {
        return false;
      }
      ok := Finish(rec, v, writeOk, images);
    }

    /**
     * The anchor record, when an anchor identifier is configured: a failed
     * fetch is `fatal`; a found record's anchor dmdSecs are parsed into the
     * anchor node.
     */
    method ImportAnchor(anchorFetch: Oai.Fetch) returns (fatal: bool)
      requires Valid() && top < |nodes|
      requires anchorFetch.Fetched? ==> Oai.EnvelopeWellFormed(anchorFetch.envelope)
      requires var a := Oai.GetRecord(anchorIdentifier, anchorFetch);
               a.Record? ==> AnchorSecsWellFormed(Children(a.mets, "dmdSec"), AnchorMdId(anchorIdentifier.value))
      modifies this`nodes
      ensures Valid() && |nodes| == |old(nodes)|
      ensures fatal <==> IsNotBlank(anchorIdentifier) && Oai.GetRecord(anchorIdentifier, anchorFetch).RecordError?
      ensures nodes == WithAnchor(rs, old(nodes), top, anchorIdentifier, anchorFetch)
    {
      if IsNotBlank(anchorIdentifier) {
        var a := Oai.GetRecord(anchorIdentifier, anchorFetch);
        if a.RecordError? {
          return true;
        }
        if a.Record? && IsAnchor(rs, nodes, top) {
          ParseAnchor(Children(a.mets, "dmdSec"), AnchorMdId(anchorIdentifier.value), top);
        }
      }
      return false;
    }

    /**
     * `readMetadataFile` and `cleanupMetadata`: the document becomes the
     * importer's, and its volume `v` (and the anchor above it, when there
     * is one) keep only their CatalogIDDigital fields.
     */
    method Prepare(doc: DocFile) returns (v: nat)
      requires Valid() && pageMap == map[] && docstructMap == map[] && DocWellFormed(rs, doc)
      modifies this`nodes, this`top, this`physKind, this`physFields, this`pages
      ensures Valid() && v < |nodes| && |nodes| == |doc.nodes| && top == doc.top
      ensures physKind == doc.physKind && physFields == doc.physFields && pages == doc.pages
      ensures IsAnchor(rs, nodes, top) == IsAnchor(rs, doc.nodes, doc.top)
      ensures v == if IsAnchor(rs, doc.nodes, doc.top) then doc.nodes[doc.top].children[0] else doc.top
      ensures var cleaned := doc.nodes[v := ResetNode(doc.nodes[v])];
              nodes == if IsAnchor(rs, doc.nodes, doc.top) then cleaned[top := ResetNode(doc.nodes[top])] else cleaned
    {
      nodes, top, physKind, physFields, pages := doc.nodes, doc.top, doc.physKind, doc.physFields, doc.pages;
      v := Volume();
      Cleanup(v);
      if IsAnchor(rs, nodes, top) {
        Cleanup(top);
      }
    }

    /**
     * The rest of `execute` once the record is found: `importRecord` into
     * the volume `v`, `assignPagesToUpperElement`, the write with the
     * `VL Final URL` property, and `downloadImages`.
     */
    method Finish(rec: Elem, v: nat, writeOk: bool, images: Fetcher) returns (ok: bool)
      requires Valid() && v < |nodes| && Scanned() == Initial && RecordWellFormed(rec)
      requires identifier.Some? && saved.None? && properties == [] && pageMap == map[] && docstructMap == map[]
      modifies this
      ensures saved.Some? <==> writeOk
      ensures saved.Some? ==>
                && saved.value == DocFile(nodes, top, physKind, physFields, pages)
                && ImportedDoc(rs, imagesDir, rec, v, DocFile(old(nodes), old(top), old(physKind), old(physFields), old(pages)), saved.value)
                && properties == [("VL Final URL", downloadUrl + identifier.value)]
                && mediaFolder == DownloadedFolder(Sectioned(rec), old(mediaFolder), images)
      ensures saved.None? ==> properties == [] && mediaFolder == old(mediaFolder)
      ensures ok <==> writeOk && var s := Sectioned(rec);
                      (s.defaultGroup.Some? ==> forall k :: 0 <= k < |s.images| ==> Downloaded(s.images[k], images))
    {
      ImportAndWrite(rec, v, writeOk);
      if !writeOk {
        return false;
      }
      ok := DownloadImages(images);
      RunOkIff(old(mediaFolder), imageFiles, images);
    }

    /** `importRecord` and `assignPagesToUpperElement` into the volume `v`, then the write when it succeeds. */
    method ImportAndWrite(rec: Elem, v: nat, writeOk: bool)
      requires Valid() && v < |nodes| && Scanned() == Initial && RecordWellFormed(rec)
      requires identifier.Some? && saved.None? && properties == [] && pageMap == map[] && docstructMap == map[]
      modifies this`dmdSecMap, this`defaultFileGroup, this`logicalStructMap, this`physicalStructMap,
               this`structLink, this`imageFiles, this`records, this`physFields, this`pages, this`pageMap,
               this`nodes, this`docstructMap, this`saved, this`properties
      ensures Scanned() == Sectioned(rec)
      ensures saved.Some? <==> writeOk
      ensures saved.Some? ==>
                && saved.value == DocFile(nodes, top, physKind, physFields, pages)
                && ImportedDoc(rs, imagesDir, rec, v, DocFile(old(nodes), top, physKind, old(physFields), old(pages)), saved.value)
                && properties == [("VL Final URL", downloadUrl + identifier.value)]
      ensures saved.None? ==> properties == []
    {
      ghost var imported := ImportVolume(rec, v);
      if writeOk {
        Write();
      }
    }

    /** `writeMetadataFile` and the `VL Final URL` process property. */
    method Write()
      requires identifier.Some?
      modifies this`saved, this`properties
      ensures saved == Some(DocFile(nodes, top, physKind, physFields, pages))
      ensures properties == old(properties) + [("VL Final URL", downloadUrl + identifier.value)]
    {
      saved := Some(DocFile(nodes, top, physKind, physFields, pages));
      properties := properties + [("VL Final URL", downloadUrl + identifier.value)];
    }

    /**
     * `importRecord` then `assignPagesToUpperElement` on the volume `v`:
     * `imported` is the arena between the two.
     */
    method ImportVolume(rec: Elem, v: nat) returns (ghost imported: seq<Node>)
      requires Valid() && v < |nodes| && Scanned() == Initial && RecordWellFormed(rec)
      requires pageMap == map[] && docstructMap == map[]
      modifies this`dmdSecMap, this`defaultFileGroup, this`logicalStructMap, this`physicalStructMap,
               this`structLink, this`imageFiles, this`records, this`physFields, this`pages, this`pageMap,
               this`nodes, this`docstructMap
      ensures Valid() && Scanned() == Sectioned(rec)
      ensures v < |imported| && Ordered(imported)
      ensures nodes == imported[v := imported[v].(refs := Aggregated(imported, v))]
      ensures ImportedDoc(rs, imagesDir, rec, v, DocFile(old(nodes), top, physKind, old(physFields), old(pages)),
                          DocFile(nodes, top, physKind, physFields, pages))
    {
      ImportRecord(rec, v);
      imported := nodes;
      AssignPages(v);
    }
}
}
