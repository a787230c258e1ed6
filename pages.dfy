/**
 * The physical pages built from the physical structMap: the image name a
 * page div resolves through its fptrs, the metadata mirrored onto each page,
 * and which pages the ruleset lets in.
 */
module Pages {
  import opened Xml
  import opened Doc
  import opened Rules

  /** The image name of the first descriptor whose id equals `fileId`. */
  function FirstMatch(files: seq<ImageName>, fileId: Option<string>): (r: Option<string>)
    ensures r.None? <==> forall k :: 0 <= k < |files| ==> files[k].id != fileId
  {
    if files == [] then None
    else if files[0].id == fileId then Some(files[0].name)
    else
      assert forall k :: 1 <= k < |files| ==> files[k] == files[1..][k - 1];
      FirstMatch(files[1..], fileId)
  }

  /** The descriptor that matches is the first one with that id. */
  lemma {:induction false} FirstMatchIsFirst(files: seq<ImageName>, fileId: Option<string>, k: nat)
    requires k < |files| && files[k].id == fileId
    requires forall j :: 0 <= j < k ==> files[j].id != fileId
    ensures FirstMatch(files, fileId) == Some(files[k].name)
  {
    if k > 0 {
      assert forall j :: 0 <= j < k - 1 ==> files[1..][j] == files[j + 1];
      FirstMatchIsFirst(files[1..], fileId, k - 1);
    }
  }

  /** Every descriptor has an ID; matching reads it without a null check. */
  predicate Identified(files: seq<ImageName>) {
    forall k :: 0 <= k < |files| ==> files[k].id.Some?
  }

  /** The image name a page gets from its fptrs: the match of the last fptr that has one. */
  function ImageFor(fptrs: seq<Elem>, files: seq<ImageName>): (r: Option<string>)
  {
    if fptrs == [] then None
    else
      var m := FirstMatch(files, Attr(fptrs[|fptrs| - 1], "FILEID"));
      if m.Some? then m else ImageFor(fptrs[..|fptrs| - 1], files)
  }

  /** No fptr with a matching descriptor leaves the image name null; otherwise the last matching fptr decides. */
  lemma {:induction false} ImageForLastMatch(fptrs: seq<Elem>, files: seq<ImageName>)
    ensures ImageFor(fptrs, files).None? <==>
              forall i :: 0 <= i < |fptrs| ==> FirstMatch(files, Attr(fptrs[i], "FILEID")).None?
    ensures forall i :: 0 <= i < |fptrs| && FirstMatch(files, Attr(fptrs[i], "FILEID")).Some?
                        && (forall j :: i < j < |fptrs| ==> FirstMatch(files, Attr(fptrs[j], "FILEID")).None?)
                        ==> ImageFor(fptrs, files) == FirstMatch(files, Attr(fptrs[i], "FILEID"))
  {
    if fptrs != [] {
      var init := fptrs[..|fptrs| - 1];
      ImageForLastMatch(init, files);
      assert forall i :: 0 <= i < |init| ==> init[i] == fptrs[i];
    }
  }

  /** The metadata of a page, in the order the importer adds it. */
  function PageFields(div: Elem): seq<Field> {
    var orderLabel := Attr(div, "ORDERLABEL");
    var urn := Attr(div, "CONTENTIDS");
    [Field("physPageNumber", Attr(div, "ORDER"))]
    + (if IsNotBlank(orderLabel) then [Field("logicalPageNumber", orderLabel)] else [])
    + (if IsNotBlank(urn) then [Field("_urn", urn)] else [])
  }

  /** physPageNumber always comes first; logicalPageNumber and _urn are there exactly when given. */
  lemma PageFieldsShape(div: Elem)
    ensures var r := PageFields(div);
            |r| >= 1 && r[0] == Field("physPageNumber", Attr(div, "ORDER"))
            && ((exists f :: f in r && f.mdType == "logicalPageNumber") <==> IsNotBlank(Attr(div, "ORDERLABEL")))
            && ((exists f :: f in r && f.mdType == "_urn") <==> IsNotBlank(Attr(div, "CONTENTIDS")))
            && (forall f :: f in r && f.mdType == "logicalPageNumber" ==> f.value == Attr(div, "ORDERLABEL"))
            && (forall f :: f in r && f.mdType == "_urn" ==> f.value == Attr(div, "CONTENTIDS"))
            && |r| == 1 + (if IsNotBlank(Attr(div, "ORDERLABEL")) then 1 else 0)
                        + (if IsNotBlank(Attr(div, "CONTENTIDS")) then 1 else 0)
  {
  }

  /** A page survives when the ruleset accepts each of its fields on a page and a page under the physical root. */
  predicate PageAccepted(rs: Ruleset, physKind: string, fields: seq<Field>) {
    ChildAllowed(rs, physKind, "page") && forall f :: f in fields ==> MdAllowed(rs, "page", f.mdType)
  }

  function PageOf(div: Elem, files: seq<ImageName>): Page {
    Page(PageFields(div), ImageFor(Children(div, "fptr"), files))
  }

  datatype Built = Built(pages: seq<Page>, pageMap: map<Option<string>, nat>)

  /** The pages and the id-to-page map after the given page divs, in document order. */
  function BuildAll(b: Built, divs: seq<Elem>, files: seq<ImageName>, rs: Ruleset, physKind: string): (r: Built)
    ensures |b.pages| <= |r.pages| <= |b.pages| + |divs|
  {
    if divs == [] then b
    else
      var init := divs[..|divs| - 1];
      var div := divs[|divs| - 1];
      var prev := BuildAll(b, init, files, rs, physKind);
      var page := PageOf(div, files);
      if PageAccepted(rs, physKind, page.fields) then
        Built(prev.pages + [page], prev.pageMap[Attr(div, "ID") := |prev.pages|])
      else prev
  }

  /** One more page div: its page is appended and registered when accepted. */
  lemma BuildAllStep(b: Built, divs: seq<Elem>, i: nat, files: seq<ImageName>, rs: Ruleset, physKind: string)
    requires i < |divs|
    ensures var prev := BuildAll(b, divs[..i], files, rs, physKind);
            var page := PageOf(divs[i], files);
            BuildAll(b, divs[..i + 1], files, rs, physKind)
            == if PageAccepted(rs, physKind, page.fields)
               then Built(prev.pages + [page], prev.pageMap[Attr(divs[i], "ID") := |prev.pages|])
               else prev
  {
    assert divs[..i + 1][..i] == divs[..i];
  }

  /** The page of each div, in order. */
  function PagesOf(divs: seq<Elem>, files: seq<ImageName>): (r: seq<Page>)
    ensures |r| == |divs| && forall k :: 0 <= k < |divs| ==> r[k] == PageOf(divs[k], files)
  {
    if divs == [] then []
    else
      var init := divs[..|divs| - 1];
      assert forall k :: 0 <= k < |init| ==> init[k] == divs[k];
      PagesOf(init, files) + [PageOf(divs[|divs| - 1], files)]
  }

  /** With every page accepted, each div yields exactly one page, in document order. */
  lemma {:induction false} BuildAllAccepted(b: Built, divs: seq<Elem>, files: seq<ImageName>, rs: Ruleset, physKind: string)
    requires forall k :: 0 <= k < |divs| ==> PageAccepted(rs, physKind, PageFields(divs[k]))
    ensures BuildAll(b, divs, files, rs, physKind).pages == b.pages + PagesOf(divs, files)
  {
    if divs != [] {
      var init := divs[..|divs| - 1];
      var div := divs[|divs| - 1];
      assert forall k :: 0 <= k < |init| ==> init[k] == divs[k];
      BuildAllAccepted(b, init, files, rs, physKind);
      var prev := BuildAll(b, init, files, rs, physKind);
      assert PageAccepted(rs, physKind, PageOf(div, files).fields);
      assert BuildAll(b, divs, files, rs, physKind).pages == prev.pages + [PageOf(div, files)];
      assert b.pages + PagesOf(init, files) + [PageOf(div, files)] == b.pages + PagesOf(divs, files);
    }
  }

  /** Every registered id points at a built page, and no id already registered is dropped. */
  lemma {:induction false} BuildAllMapInRange(b: Built, divs: seq<Elem>, files: seq<ImageName>, rs: Ruleset, physKind: string)
    requires forall k :: k in b.pageMap.Values ==> k < |b.pages|
    ensures var r := BuildAll(b, divs, files, rs, physKind);
            b.pageMap.Keys <= r.pageMap.Keys && forall k :: k in r.pageMap.Values ==> k < |r.pages|
  {
    if divs != [] {
      var init := divs[..|divs| - 1];
      var div := divs[|divs| - 1];
      BuildAllMapInRange(b, init, files, rs, physKind);
      var prev := BuildAll(b, init, files, rs, physKind);
      var r := BuildAll(b, divs, files, rs, physKind);
      if PageAccepted(rs, physKind, PageOf(div, files).fields) {
        assert r.pageMap == prev.pageMap[Attr(div, "ID") := |prev.pages|];
        assert |r.pages| == |prev.pages| + 1;
        forall v | v in r.pageMap.Values ensures v < |r.pages| {
          var key :| key in r.pageMap && r.pageMap[key] == v;
          if key != Attr(div, "ID") {
            assert prev.pageMap[key] == v;
            assert v in prev.pageMap.Values;
          }
        }
      }
    }
  }

  /** An accepted page is registered under its div's ID, pointing at that page. */
  lemma BuildAllRegistersLast(b: Built, divs: seq<Elem>, files: seq<ImageName>, rs: Ruleset, physKind: string)
    requires divs != [] && PageAccepted(rs, physKind, PageFields(divs[|divs| - 1]))
    ensures var r := BuildAll(b, divs, files, rs, physKind);
            r.pageMap[Attr(divs[|divs| - 1], "ID")] == |r.pages| - 1
            && r.pages[|r.pages| - 1] == PageOf(divs[|divs| - 1], files)
  {
    var div := divs[|divs| - 1];
    var prev := BuildAll(b, divs[..|divs| - 1], files, rs, physKind);
    assert PageOf(div, files).fields == PageFields(div);
    assert BuildAll(b, divs, files, rs, physKind)
        == Built(prev.pages + [PageOf(div, files)], prev.pageMap[Attr(div, "ID") := |prev.pages|]);
  }
}
