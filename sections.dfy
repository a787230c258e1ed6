/**
 * The sectioning pass of `importRecord`: one walk over the children of the
 * METS element that collects the dmdSecs by ID, the image descriptors of
 * the DEFAULT file groups, the two structMaps and the structLink. These
 * functions specify the Importer's loops over the same children.
 */
module Sections {
  import opened Xml
  import opened Doc
  import Naming

  datatype Sections = Sections(
    dmd: map<Option<string>, Elem>,
    defaultGroup: Option<Elem>,
    logical: Option<Elem>,
    physical: Option<Elem>,
    link: Option<Elem>,
    images: seq<ImageName>)

  /** Java reads `FLocat` of every file of a DEFAULT group without a null check. */
  predicate FileWellFormed(file: Elem) {
    Child(file, "FLocat").Some?
  }

  predicate IsDefaultGroup(g: Elem) {
    Attr(g, "USE") == Some("DEFAULT")
  }

  predicate AllFilesWellFormed(files: seq<Elem>) {
    forall k :: 0 <= k < |files| ==> FileWellFormed(files[k])
  }

  predicate GroupWellFormed(g: Elem) {
    IsDefaultGroup(g) ==> AllFilesWellFormed(g.children)
  }

  predicate GroupsWellFormed(groups: seq<Elem>) {
    forall k :: 0 <= k < |groups| ==> GroupWellFormed(groups[k])
  }

  predicate FileSecWellFormed(fileSec: Elem) {
    GroupsWellFormed(fileSec.children)
  }

  predicate FilesWellFormed(es: seq<Elem>) {
    forall k :: 0 <= k < |es| && es[k].name == "fileSec" ==> FileSecWellFormed(es[k])
  }

  /** The descriptor of one file: its order, ID, `FLocat/@href`, MIME type and derived file name. */
  function Descriptor(file: Elem, order: nat): ImageName
    requires FileWellFormed(file)
  {
    var mime := Attr(file, "MIMETYPE");
    var id := Attr(file, "ID");
    ImageName(order, id, Attr(Child(file, "FLocat").value, "href"), mime, Naming.FileName(id, mime))
  }

  /** The descriptors of the first `n` files of one DEFAULT group, numbered from `first`. */
  function Descriptors(files: seq<Elem>, n: nat, first: nat): (r: seq<ImageName>)
    requires n <= |files| && AllFilesWellFormed(files)
    ensures |r| == n
  {
    if n == 0 then []
    else Descriptors(files, n - 1, first) + [Descriptor(files[n - 1], first + n - 1)]
  }

  /** One more file: its descriptor is appended, numbered after the others. */
  lemma DescriptorsSnoc(files: seq<Elem>, n: nat, first: nat, d: ImageName)
    requires n < |files| && AllFilesWellFormed(files) && d == Descriptor(files[n], first + n)
    ensures Descriptors(files, n + 1, first) == Descriptors(files, n, first) + [d]
  {
  }

  /** Appending `x` to `b` inside `a + b` (used for the descriptor list). */
  lemma SnocAssoc<T>(a: seq<T>, b: seq<T>, c: seq<T>, x: T)
    requires c == b + [x]
    ensures (a + b) + [x] == a + c
  {
  }

  /** The k-th file of the group gives the k-th descriptor, numbered `first + k`. */
  lemma {:induction false} DescriptorAt(files: seq<Elem>, n: nat, first: nat, k: nat)
    requires k < n <= |files| && AllFilesWellFormed(files)
    ensures Descriptors(files, n, first)[k] == Descriptor(files[k], first + k)
  {
    var prev := Descriptors(files, n - 1, first);
    assert Descriptors(files, n, first) == prev + [Descriptor(files[n - 1], first + n - 1)];
    if k < n - 1 {
      DescriptorAt(files, n - 1, first, k);
      assert Descriptors(files, n, first)[k] == prev[k];
    }
  }

  /** A DEFAULT group adds its files, numbered after the descriptors so far, and becomes the default group. */
  function AddGroup(s: Sections, g: Elem): Sections
    requires GroupWellFormed(g)
  {
    if IsDefaultGroup(g) then s.(defaultGroup := Some(g), images := s.images + Descriptors(g.children, |g.children|, |s.images| + 1))
    else s
  }

  /** The state after the first `n` file groups of one fileSec. */
  function AddGroups(s: Sections, groups: seq<Elem>, n: nat): Sections
    requires n <= |groups| && GroupsWellFormed(groups)
  {
    if n == 0 then s
    else AddGroup(AddGroups(s, groups, n - 1), groups[n - 1])
  }

  /** One child of the METS element, dispatched by name. */
  function Step(s: Sections, e: Elem): Sections
    requires e.name == "fileSec" ==> FileSecWellFormed(e)
  {
    if e.name == "dmdSec" then s.(dmd := s.dmd[Attr(e, "ID") := e])
    else if e.name == "amdSec" then s
    else if e.name == "fileSec" then AddGroups(s, e.children, |e.children|)
    else if e.name == "structMap" && Attr(e, "TYPE") == Some("LOGICAL") then s.(logical := Some(e))
    else if e.name == "structMap" && Attr(e, "TYPE") == Some("PHYSICAL") then s.(physical := Some(e))
    else if e.name == "structLink" then s.(link := Some(e))
    else s
  }

  /** The state after the first `n` children of the METS element. */
  function SectionAll(s: Sections, es: seq<Elem>, n: nat): Sections
    requires n <= |es| && FilesWellFormed(es)
  {
    if n == 0 then s
    else Step(SectionAll(s, es, n - 1), es[n - 1])
  }

  const Initial := Sections(map[], None, None, None, None, [])

  // what sectioning promises

  /** The k-th descriptor (from 0) has order k + 1. */
  predicate Numbered(images: seq<ImageName>) {
    forall k :: 0 <= k < |images| ==> images[k].order == k + 1
  }

  /** The descriptors of a group are numbered `first`, `first + 1`, ... */
  lemma {:induction false} DescriptorsOrders(files: seq<Elem>, n: nat, first: nat)
    requires n <= |files| && AllFilesWellFormed(files)
    ensures forall k :: 0 <= k < n ==> Descriptors(files, n, first)[k].order == first + k
  {
    if n > 0 {
      DescriptorsOrders(files, n - 1, first);
    }
  }

  lemma AddFilesNumbered(images: seq<ImageName>, files: seq<Elem>)
    requires Numbered(images)
    requires AllFilesWellFormed(files)
    ensures Numbered(images + Descriptors(files, |files|, |images| + 1))
  {
    DescriptorsOrders(files, |files|, |images| + 1);
  }

  lemma {:induction false} AddGroupsNumbered(s: Sections, groups: seq<Elem>, n: nat)
    requires Numbered(s.images)
    requires n <= |groups| && GroupsWellFormed(groups)
    ensures Numbered(AddGroups(s, groups, n).images)
  {
    if n > 0 {
      AddGroupsNumbered(s, groups, n - 1);
      var g := groups[n - 1];
      if IsDefaultGroup(g) {
        AddFilesNumbered(AddGroups(s, groups, n - 1).images, g.children);
      }
    }
  }

  /** Sectioning numbers the descriptors 1, 2, 3, ... across all DEFAULT groups. */
  lemma {:induction false} SectionAllNumbered(s: Sections, es: seq<Elem>, n: nat)
    requires Numbered(s.images)
    requires n <= |es| && FilesWellFormed(es)
    ensures Numbered(SectionAll(s, es, n).images)
  {
    if n > 0 {
      SectionAllNumbered(s, es, n - 1);
      var e := es[n - 1];
      if e.name == "fileSec" {
        AddGroupsNumbered(SectionAll(s, es, n - 1), e.children, |e.children|);
      }
    }
  }

  /** The fields that file groups never touch. */
  lemma {:induction false} AddGroupsKeeps(s: Sections, groups: seq<Elem>, n: nat)
    requires n <= |groups| && GroupsWellFormed(groups)
    ensures var r := AddGroups(s, groups, n);
            r.dmd == s.dmd && r.logical == s.logical && r.physical == s.physical && r.link == s.link
  {
    if n > 0 {
      AddGroupsKeeps(s, groups, n - 1);
    }
  }

  /** Every dmdSec is registered under its ID; a later one with the same ID replaces an earlier one. */
  lemma {:induction false} SectionAllDmd(s: Sections, es: seq<Elem>, n: nat, k: nat)
    requires n <= |es| && FilesWellFormed(es)
    requires k < n && es[k].name == "dmdSec"
    requires forall j :: k < j < n && es[j].name == "dmdSec" ==> Attr(es[j], "ID") != Attr(es[k], "ID")
    ensures Attr(es[k], "ID") in SectionAll(s, es, n).dmd
    ensures SectionAll(s, es, n).dmd[Attr(es[k], "ID")] == es[k]
  {
    var e := es[n - 1];
    if k < n - 1 {
      SectionAllDmd(s, es, n - 1, k);
      if e.name == "fileSec" {
        AddGroupsKeeps(SectionAll(s, es, n - 1), e.children, |e.children|);
      }
    }
  }

  /** Is `e` a PHYSICAL structMap? */
  predicate IsPhysicalMap(e: Elem) {
    e.name == "structMap" && Attr(e, "TYPE") == Some("PHYSICAL")
  }

  /** One child: a PHYSICAL structMap replaces the physical structMap, anything else keeps it. */
  lemma StepPhysical(s: Sections, e: Elem)
    requires e.name == "fileSec" ==> FileSecWellFormed(e)
    ensures Step(s, e).physical == if IsPhysicalMap(e) then Some(e) else s.physical
  {
    if e.name == "fileSec" {
      AddGroupsKeeps(s, e.children, |e.children|);
    }
  }

  /** The physical structMap is the last PHYSICAL one; none at all leaves it unset. */
  lemma {:induction false} SectionAllPhysical(s: Sections, es: seq<Elem>, n: nat)
    requires n <= |es| && FilesWellFormed(es)
    requires s.physical.None?
    ensures var p := SectionAll(s, es, n).physical;
            (p.None? <==> forall k :: 0 <= k < n ==> !IsPhysicalMap(es[k]))
            && (p.Some? ==> exists k :: 0 <= k < n && es[k] == p.value && IsPhysicalMap(es[k])
                                        && forall j :: k < j < n ==> !IsPhysicalMap(es[j]))
  {
    if n > 0 {
      var e := es[n - 1];
      var prev := SectionAll(s, es, n - 1);
      SectionAllPhysical(s, es, n - 1);
      StepPhysical(prev, e);
      var p := SectionAll(s, es, n).physical;
      if IsPhysicalMap(e) {
        assert es[n - 1] == p.value;
      } else if p.Some? {
        var k :| 0 <= k < n - 1 && es[k] == p.value && IsPhysicalMap(es[k])
                 && forall j :: k < j < n - 1 ==> !IsPhysicalMap(es[j]);
        assert forall j :: k < j < n ==> !IsPhysicalMap(es[j]);
      }
    }
  }
}
