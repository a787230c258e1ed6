/**
 * The MODS extractor: the fixed table that turns one MODS record into the
 * metadata fields and persons that are offered to a structure element, in
 * the order in which they are offered. Whether the ruleset accepts each one
 * for the element's type is decided when they are applied (Importer).
 */
module Mods {
  import opened Xml
  import opened Doc
  import Naming

  /** One `addMetadata`/`addPerson` attempt. */
  datatype Entry = Md(field: Field) | Pers(person: Person)

  /** `addMetadata(element, type, ...)`: nothing for a missing element, else one field holding its text. */
  function Offer(e: Option<Elem>, mdType: string): seq<Entry> {
    if e.Some? then [Md(Field(mdType, Some(e.value.text)))] else []
  }

  function GrandChild(e: Elem, a: string, b: string): Option<Elem> {
    var c := Child(e, a);
    if c.Some? then Child(c.value, b) else None
  }

  // classification: one collection field each

  function ClassificationEntry(c: Elem): seq<Entry> {
    Offer(Some(c), "singleDigCollection")
  }

  // titleInfo

  function TitleInfoEntries(ti: Elem): seq<Entry> {
    if Attr(ti, "type") == Some("alternative") then
      Offer(Child(ti, "title"), "OtherTitle")
    else
      Offer(Child(ti, "title"), "TitleDocMain") + Offer(Child(ti, "subTitle"), "TitleDocSub1")
      + Offer(Child(ti, "partNumber"), "VolumeNumber") + Offer(Child(ti, "partName"), "VolumeName")
  }

  /**
   * `r` holds a field of type `mdType` exactly when the element `c` is
   * there, and every such field carries the element's text.
   */
  predicate OffersChild(r: seq<Entry>, mdType: string, c: Option<Elem>) {
    && ((exists x :: x in r && x.Md? && x.field.mdType == mdType) <==> c.Some?)
    && (forall x :: x in r && x.Md? && x.field.mdType == mdType ==> c.Some? && x.field.value == Some(c.value.text))
  }

  /** One offer for `c` followed by entries of other types still offers exactly `c` for `mdType`. */
  lemma OffersChildJoin(a: seq<Entry>, b: seq<Entry>, mdType: string, c: Option<Elem>)
    requires OffersChild(a, mdType, c)
    requires forall x :: x in b ==> x.Md? && x.field.mdType != mdType
    ensures OffersChild(a + b, mdType, c) && OffersChild(b + a, mdType, c)
  {
    assert forall x :: x in a + b <==> x in a || x in b;
    assert forall x :: x in b + a <==> x in a || x in b;
  }

  /** Entries all of one type, `mdType`. */
  predicate AllOfType(r: seq<Entry>, mdType: string) {
    forall x :: x in r ==> x.Md? && x.field.mdType == mdType
  }

  /** Four offers of four distinct types, one after the other, still offer each element under its own type. */
  lemma OffersChildFour(a: seq<Entry>, b: seq<Entry>, c: seq<Entry>, d: seq<Entry>,
                        ta: string, tb: string, tc: string, td: string,
                        ea: Option<Elem>, eb: Option<Elem>, ec: Option<Elem>, ed: Option<Elem>)
    requires ta != tb && ta != tc && ta != td && tb != tc && tb != td && tc != td
    requires OffersChild(a, ta, ea) && AllOfType(a, ta)
    requires OffersChild(b, tb, eb) && AllOfType(b, tb)
    requires OffersChild(c, tc, ec) && AllOfType(c, tc)
    requires OffersChild(d, td, ed) && AllOfType(d, td)
    ensures OffersChild(a + b + c + d, ta, ea) && OffersChild(a + b + c + d, tb, eb)
    ensures OffersChild(a + b + c + d, tc, ec) && OffersChild(a + b + c + d, td, ed)
  {
    var r := a + b + c + d;
    assert r == a + (b + c + d);
    assert OffersChild(r, ta, ea) by { OffersChildJoin(a, b + c + d, ta, ea); }
    assert r == (a + b) + (c + d);
    assert OffersChild(r, tb, eb) by {
      OffersChildJoin(b, a, tb, eb);
      OffersChildJoin(a + b, c + d, tb, eb);
    }
    assert r == (a + b + c) + d;
    assert OffersChild(r, tc, ec) by {
      OffersChildJoin(c, a + b, tc, ec);
      OffersChildJoin(a + b + c, d, tc, ec);
    }
    assert OffersChild(r, td, ed) by { OffersChildJoin(d, a + b + c, td, ed); }
  }

  /** Three offers of three distinct types, one after the other, still offer each element under its own type. */
  lemma OffersChildThree(a: seq<Entry>, b: seq<Entry>, c: seq<Entry>, ta: string, tb: string, tc: string,
                         ea: Option<Elem>, eb: Option<Elem>, ec: Option<Elem>)
    requires ta != tb && ta != tc && tb != tc
    requires OffersChild(a, ta, ea) && AllOfType(a, ta)
    requires OffersChild(b, tb, eb) && AllOfType(b, tb)
    requires OffersChild(c, tc, ec) && AllOfType(c, tc)
    ensures OffersChild(a + b + c, ta, ea) && OffersChild(a + b + c, tb, eb) && OffersChild(a + b + c, tc, ec)
  {
    var r := a + b + c;
    assert r == a + (b + c);
    assert OffersChild(r, ta, ea) by { OffersChildJoin(a, b + c, ta, ea); }
    assert OffersChild(r, tb, eb) by {
      OffersChildJoin(b, a, tb, eb);
      OffersChildJoin(a + b, c, tb, eb);
    }
    assert OffersChild(r, tc, ec) by { OffersChildJoin(c, a + b, tc, ec); }
  }

  /**
   * A titleInfo offers, for each of its parts, one field exactly when the
   * part is there, carrying its text: an alternative one only its title as
   * OtherTitle; any other its title, subtitle, part number and part name.
   */
  lemma TitleInfoEntriesSpec(ti: Elem)
    ensures var r := TitleInfoEntries(ti);
            Attr(ti, "type") == Some("alternative") ==>
              OffersChild(r, "OtherTitle", Child(ti, "title")) && AllOfType(r, "OtherTitle")
    ensures var r := TitleInfoEntries(ti);
            Attr(ti, "type") != Some("alternative") ==>
              && OffersChild(r, "TitleDocMain", Child(ti, "title"))
              && OffersChild(r, "TitleDocSub1", Child(ti, "subTitle"))
              && OffersChild(r, "VolumeNumber", Child(ti, "partNumber"))
              && OffersChild(r, "VolumeName", Child(ti, "partName"))
              && forall x :: x in r ==> x.Md? && x.field.mdType in {"TitleDocMain", "TitleDocSub1", "VolumeNumber", "VolumeName"}
  {
    var t, st, pn, pa := Child(ti, "title"), Child(ti, "subTitle"), Child(ti, "partNumber"), Child(ti, "partName");
    if Attr(ti, "type") == Some("alternative") {
      OfferIsChild(t, "OtherTitle");
    } else {
      var a, b, c, d := Offer(t, "TitleDocMain"), Offer(st, "TitleDocSub1"), Offer(pn, "VolumeNumber"), Offer(pa, "VolumeName");
      OfferIsChild(t, "TitleDocMain");
      OfferIsChild(st, "TitleDocSub1");
      OfferIsChild(pn, "VolumeNumber");
      OfferIsChild(pa, "VolumeName");
      OffersChildFour(a, b, c, d, "TitleDocMain", "TitleDocSub1", "VolumeNumber", "VolumeName", t, st, pn, pa);
      assert forall x :: x in a + b + c + d <==> x in a || x in b || x in c || x in d;
    }
  }

  /** What `addMetadata` offers for one element: exactly that element, under the given type. */
  lemma OfferIsChild(e: Option<Elem>, mdType: string)
    ensures OffersChild(Offer(e, mdType), mdType, e) && AllOfType(Offer(e, mdType), mdType)
  {
    if e.Some? {
      assert Offer(e, mdType)[0] in Offer(e, mdType);
    }
  }

  /** An alternative title yields at most one field, and it is an OtherTitle. */
  lemma AlternativeTitleOnlyOtherTitle(ti: Elem)
    requires Attr(ti, "type") == Some("alternative")
    ensures |TitleInfoEntries(ti)| <= 1
    ensures forall e :: e in TitleInfoEntries(ti) ==> e.Md? && e.field.mdType == "OtherTitle"
  {
  }

  // name[@type="personal"]

  /** Java would switch on a null role term, or read the first child of an empty role. */
  predicate PersonWellFormed(name: Elem) {
    var role := Child(name, "role");
    role.Some? && |role.value.children| > 0
  }

  predicate IsFamily(p: Elem) {
    Attr(p, "type") == Some("family")
  }

  /** The index of the last namePart that is (`family`) or is not (`!family`) of type family; -1 when there is none. */
  function LastPart(parts: seq<Elem>, family: bool): (k: int)
    ensures -1 <= k < |parts|
    ensures k >= 0 ==> IsFamily(parts[k]) == family
    ensures forall j :: k < j < |parts| ==> IsFamily(parts[j]) != family
  {
    if parts == [] then -1
    else if IsFamily(parts[|parts| - 1]) == family then |parts| - 1
    else LastPart(parts[..|parts| - 1], family)
  }

  /** The text of that namePart: a later one overwrites an earlier one. */
  function PartText(parts: seq<Elem>, family: bool): Option<string> {
    var k := LastPart(parts, family);
    if k < 0 then None else Some(parts[k].text)
  }

  /**
   * `v` is the text of the last namePart that is (`family`) or is not
   * (`!family`) of type family, and null when there is none.
   */
  predicate LastOfKind(parts: seq<Elem>, family: bool, v: Option<string>) {
    && (v.None? <==> forall k :: 0 <= k < |parts| ==> IsFamily(parts[k]) != family)
    && (v.Some? ==> exists k :: 0 <= k < |parts| && IsFamily(parts[k]) == family && v.value == parts[k].text
                                && forall j :: k < j < |parts| ==> IsFamily(parts[j]) != family)
  }

  lemma PartTextSpec(parts: seq<Elem>, family: bool)
    ensures LastOfKind(parts, family, PartText(parts, family))
  {
    var k := LastPart(parts, family);
    if k >= 0 {
      assert IsFamily(parts[k]) == family;
    }
  }

  /**
   * The person a personal name describes: the role from the first role
   * term, the first name from the last namePart without type family, the
   * last name from the last one with it, and the authority attributes.
   */
  function PersonOf(name: Elem): (p: Person)
    requires PersonWellFormed(name)
    ensures p.role == Naming.Role(Child(name, "role").value.children[0].text)
    ensures LastOfKind(Children(name, "namePart"), false, p.firstName)
    ensures LastOfKind(Children(name, "namePart"), true, p.lastName)
    ensures p.authority == Attr(name, "authority")
    ensures p.authorityUri == Attr(name, "authorityURI")
    ensures p.valueUri == Attr(name, "valueURI")
  {
    var parts := Children(name, "namePart");
    PartTextSpec(parts, false);
    PartTextSpec(parts, true);
    Person(Naming.Role(Child(name, "role").value.children[0].text),
           PartText(parts, false), PartText(parts, true),
           Attr(name, "authority"), Attr(name, "authorityURI"), Attr(name, "valueURI"))
  }

  predicate IsPersonal(name: Elem) {
    Attr(name, "type") == Some("personal")
  }

  predicate NameWellFormed(name: Elem) {
    IsPersonal(name) ==> PersonWellFormed(name)
  }

  /** A personal name offers exactly one person, with its names and role; any other name offers nothing. */
  function NameEntries(name: Elem): (r: seq<Entry>)
    requires NameWellFormed(name)
    ensures |r| == (if IsPersonal(name) then 1 else 0)
    ensures forall e :: e in r ==>
              && e.Pers?
              && e.person.role == Naming.Role(Child(name, "role").value.children[0].text)
              && LastOfKind(Children(name, "namePart"), false, e.person.firstName)
              && LastOfKind(Children(name, "namePart"), true, e.person.lastName)
  {
    if IsPersonal(name) then [Pers(PersonOf(name))] else []
  }

  // originInfo

  predicate IsPublication(oi: Elem) {
    Attr(oi, "eventType") == Some("publication")
  }

  /** Java dereferences `place` of a publication originInfo without a check. */
  predicate OriginWellFormed(oi: Elem) {
    IsPublication(oi) ==> Child(oi, "place").Some?
  }

  const PublicationTypes: set<string> := {"PlaceOfPublication", "PublisherName", "PublicationYear"}
  const ElectronicTypes: set<string> :=
    {"_placeOfElectronicOrigin", "_dateDigitization", "_electronicPublisher", "_electronicEdition"}

  function OriginEntries(oi: Elem): seq<Entry>
    requires OriginWellFormed(oi)
  {
    if IsPublication(oi) then
      Offer(GrandChild(oi, "place", "placeTerm"), "PlaceOfPublication")
      + Offer(Child(oi, "publisher"), "PublisherName")
      + Offer(Child(oi, "dateIssued"), "PublicationYear")
    else
      Offer(GrandChild(oi, "place", "placeTerm"), "_placeOfElectronicOrigin")
      + Offer(Child(oi, "dateIssued"), "_dateDigitization")
      + Offer(Child(oi, "publisher"), "_electronicPublisher")
      + Offer(Child(oi, "edition"), "_electronicEdition")
  }

  /** What `addMetadata` offers: one field of the given type exactly when the element is there, holding its text. */
  lemma OfferShape(e: Option<Elem>, mdType: string)
    ensures |Offer(e, mdType)| == (if e.Some? then 1 else 0)
    ensures forall x :: x in Offer(e, mdType) ==> x.Md? && x.field.mdType == mdType && e.Some? && x.field.value == Some(e.value.text)
  {
  }

  /** A publication offers only place, publisher and year; any other event only the electronic fields. */
  lemma OriginEntriesTypes(oi: Elem)
    requires OriginWellFormed(oi)
    ensures forall e :: e in OriginEntries(oi) ==> e.Md?
    ensures IsPublication(oi) ==> forall e :: e in OriginEntries(oi) ==> e.field.mdType in PublicationTypes
    ensures !IsPublication(oi) ==> forall e :: e in OriginEntries(oi) ==> e.field.mdType in ElectronicTypes
  {
    var place := GrandChild(oi, "place", "placeTerm");
    OfferShape(place, "PlaceOfPublication");
    OfferShape(Child(oi, "publisher"), "PublisherName");
    OfferShape(Child(oi, "dateIssued"), "PublicationYear");
    OfferShape(place, "_placeOfElectronicOrigin");
    OfferShape(Child(oi, "dateIssued"), "_dateDigitization");
    OfferShape(Child(oi, "publisher"), "_electronicPublisher");
    OfferShape(Child(oi, "edition"), "_electronicEdition");
  }

  lemma OriginEntriesCount(oi: Elem)
    requires OriginWellFormed(oi) && IsPublication(oi)
    ensures |OriginEntries(oi)| == (if GrandChild(oi, "place", "placeTerm").Some? then 1 else 0)
                                   + (if Child(oi, "publisher").Some? then 1 else 0)
                                   + (if Child(oi, "dateIssued").Some? then 1 else 0)
  {
    OfferShape(GrandChild(oi, "place", "placeTerm"), "PlaceOfPublication");
    OfferShape(Child(oi, "publisher"), "PublisherName");
    OfferShape(Child(oi, "dateIssued"), "PublicationYear");
  }

  /**
   * Each originInfo field is offered exactly when its element is there,
   * carrying the element's text: for a publication the place term, the
   * publisher and dateIssued; for any other event the place term,
   * dateIssued, the publisher and the edition, as the electronic fields.
   */
  lemma OriginEntriesSpec(oi: Elem)
    requires OriginWellFormed(oi)
    ensures var r := OriginEntries(oi);
            IsPublication(oi) ==>
              && OffersChild(r, "PlaceOfPublication", GrandChild(oi, "place", "placeTerm"))
              && OffersChild(r, "PublisherName", Child(oi, "publisher"))
              && OffersChild(r, "PublicationYear", Child(oi, "dateIssued"))
    ensures var r := OriginEntries(oi);
            !IsPublication(oi) ==>
              && OffersChild(r, "_placeOfElectronicOrigin", GrandChild(oi, "place", "placeTerm"))
              && OffersChild(r, "_dateDigitization", Child(oi, "dateIssued"))
              && OffersChild(r, "_electronicPublisher", Child(oi, "publisher"))
              && OffersChild(r, "_electronicEdition", Child(oi, "edition"))
  {
    var place, pub, date := GrandChild(oi, "place", "placeTerm"), Child(oi, "publisher"), Child(oi, "dateIssued");
    if IsPublication(oi) {
      OfferIsChild(place, "PlaceOfPublication");
      OfferIsChild(pub, "PublisherName");
      OfferIsChild(date, "PublicationYear");
      OffersChildThree(Offer(place, "PlaceOfPublication"), Offer(pub, "PublisherName"), Offer(date, "PublicationYear"),
                       "PlaceOfPublication", "PublisherName", "PublicationYear", place, pub, date);
    } else {
      var ed := Child(oi, "edition");
      OfferIsChild(place, "_placeOfElectronicOrigin");
      OfferIsChild(date, "_dateDigitization");
      OfferIsChild(pub, "_electronicPublisher");
      OfferIsChild(ed, "_electronicEdition");
      OffersChildFour(Offer(place, "_placeOfElectronicOrigin"), Offer(date, "_dateDigitization"),
                      Offer(pub, "_electronicPublisher"), Offer(ed, "_electronicEdition"),
                      "_placeOfElectronicOrigin", "_dateDigitization", "_electronicPublisher", "_electronicEdition",
                      place, date, pub, ed);
    }
  }

  // language, physicalDescription

  function LanguageEntry(lang: Elem): seq<Entry> {
    Offer(Child(lang, "languageTerm"), "DocLanguage")
  }

  function FormatEntry(note: Elem): seq<Entry> {
    Offer(Some(note), "FormatSourcePrint")
  }

  function PhysicalDescriptionEntries(mods: Elem): seq<Entry> {
    var pd := Child(mods, "physicalDescription");
    if pd.Some? then
      Offer(Child(pd.value, "extent"), "SizeSourcePrint") + FlatMap(FormatNote, Children(pd.value, "note"))
    else []
  }

  // identifier

  /** Java switches on the identifier's type attribute without a null check. */
  predicate IdentifierWellFormed(id: Elem) {
    Attr(id, "type").Some?
  }

  function IdentifierEntries(id: Elem): (r: seq<Entry>)
    requires IdentifierWellFormed(id)
    ensures Attr(id, "type") == Some("gbv") ==> r == [Md(Field("CatalogIDSource", Some(id.text)))]
    ensures Attr(id, "type") == Some("urn") ==> r == [Md(Field("URN", Some(id.text)))]
    ensures Attr(id, "type") !in {Some("gbv"), Some("urn")} ==> r == []
  {
    match Attr(id, "type").value
    case "gbv" => Offer(Some(id), "CatalogIDSource")
    case "urn" => Offer(Some(id), "URN")
    case "hbz-idn" => []
    case _ => []
  }

  // location, note

  function LocationEntries(mods: Elem): seq<Entry> {
    var loc := Child(mods, "location");
    if loc.Some? then
      Offer(Child(loc.value, "physicalLocation"), "PhysicalLocation")
      + Offer(Child(loc.value, "shelfLocator"), "shelfmarksource")
    else []
  }

  function NoteEntry(note: Elem): seq<Entry> {
    if Attr(note, "type") == Some("statement of responsibility") then
      Offer(Some(note), "TitleDocMainResponsibility")
    else []
  }

  // relatedItem[@type="series"]

  predicate IsSeries(ri: Elem) {
    Attr(ri, "type") == Some("series")
  }

  /** Java dereferences `part/detail` of a series without a check. */
  predicate RelatedItemWellFormed(ri: Elem) {
    IsSeries(ri) && Child(ri, "part").Some? ==> Child(Child(ri, "part").value, "detail").Some?
  }

  function RelatedItemEntries(ri: Elem): (r: seq<Entry>)
    requires RelatedItemWellFormed(ri)
    ensures !IsSeries(ri) ==> r == []
  {
    if IsSeries(ri) then
      var part := Child(ri, "part");
      Offer(GrandChild(ri, "titleInfo", "title"), "TitleMainSeries")
      + Offer(GrandChild(ri, "recordInfo", "recordIdentifier"), "CatalogIDMainSeries")
      + (if part.Some? then Offer(GrandChild(part.value, "detail", "number"), "SeriesOrder") else [])
    else []
  }

  /** A series offers its title, its catalogue id and its order, nothing else. */
  lemma RelatedItemEntriesTypes(ri: Elem)
    requires RelatedItemWellFormed(ri)
    ensures forall e :: e in RelatedItemEntries(ri) ==>
              e.Md? && e.field.mdType in {"TitleMainSeries", "CatalogIDMainSeries", "SeriesOrder"}
  {
    OfferShape(GrandChild(ri, "titleInfo", "title"), "TitleMainSeries");
    OfferShape(GrandChild(ri, "recordInfo", "recordIdentifier"), "CatalogIDMainSeries");
    var part := Child(ri, "part");
    if part.Some? {
      OfferShape(GrandChild(part.value, "detail", "number"), "SeriesOrder");
    }
  }
  /** The number of a series part, which the series order comes from; none without a part. */
  function SeriesNumber(ri: Elem): Option<Elem>
    requires RelatedItemWellFormed(ri)
  {
    var part := Child(ri, "part");
    if part.Some? then GrandChild(part.value, "detail", "number") else None
  }

  /**
   * A series offers its title exactly when titleInfo/title is there, its
   * catalogue id exactly when recordInfo/recordIdentifier is, and its order
   * exactly when part/detail/number is, each carrying that element's text.
   */
  lemma RelatedItemEntriesSpec(ri: Elem)
    requires RelatedItemWellFormed(ri) && IsSeries(ri)
    ensures var r := RelatedItemEntries(ri);
            && OffersChild(r, "TitleMainSeries", GrandChild(ri, "titleInfo", "title"))
            && OffersChild(r, "CatalogIDMainSeries", GrandChild(ri, "recordInfo", "recordIdentifier"))
            && OffersChild(r, "SeriesOrder", SeriesNumber(ri))
    ensures Child(ri, "part").None? ==> forall e :: e in RelatedItemEntries(ri) ==> e.Md? && e.field.mdType != "SeriesOrder"
  {
    var title, id, num := GrandChild(ri, "titleInfo", "title"), GrandChild(ri, "recordInfo", "recordIdentifier"), SeriesNumber(ri);
    OfferIsChild(title, "TitleMainSeries");
    OfferIsChild(id, "CatalogIDMainSeries");
    OfferIsChild(num, "SeriesOrder");
    assert RelatedItemEntries(ri) == Offer(title, "TitleMainSeries") + Offer(id, "CatalogIDMainSeries") + Offer(num, "SeriesOrder");
    OffersChildThree(Offer(title, "TitleMainSeries"), Offer(id, "CatalogIDMainSeries"), Offer(num, "SeriesOrder"),
                     "TitleMainSeries", "CatalogIDMainSeries", "SeriesOrder", title, id, num);
  }


  // the whole record

  /** The kinds of MODS element `parseModsElement` walks a list of. */
  datatype Group = Classification | TitleInfo | Name | OriginInfo | Language | FormatNote | Identifier | Note | RelatedItem

  predicate EntryWellFormed(g: Group, x: Elem) {
    match g
    case Name => NameWellFormed(x)
    case OriginInfo => OriginWellFormed(x)
    case Identifier => IdentifierWellFormed(x)
    case RelatedItem => RelatedItemWellFormed(x)
    case _ => true
  }

  /** The attempts for one element of the group. */
  function EntriesOf(g: Group, x: Elem): seq<Entry>
    requires EntryWellFormed(g, x)
  {
    match g
    case Classification => ClassificationEntry(x)
    case TitleInfo => TitleInfoEntries(x)
    case Name => NameEntries(x)
    case OriginInfo => OriginEntries(x)
    case Language => LanguageEntry(x)
    case FormatNote => FormatEntry(x)
    case Identifier => IdentifierEntries(x)
    case Note => NoteEntry(x)
    case RelatedItem => RelatedItemEntries(x)
  }

  /** The attempts for every element of `xs`, one element after the other. */
  function FlatMap(g: Group, xs: seq<Elem>): seq<Entry>
    requires forall x :: x in xs ==> EntryWellFormed(g, x)
  {
    if xs == [] then []
    else
      assert forall x :: x in xs[1..] ==> x in xs;
      EntriesOf(g, xs[0]) + FlatMap(g, xs[1..])
  }

  /** Every attempt comes from one of the elements, and every attempt of every element is made. */
  lemma {:induction false} FlatMapContents(g: Group, xs: seq<Elem>, e: Entry)
    requires forall x :: x in xs ==> EntryWellFormed(g, x)
    ensures e in FlatMap(g, xs) <==> exists x :: x in xs && e in EntriesOf(g, x)
  {
    if xs != [] {
      assert forall x :: x in xs[1..] ==> x in xs;
      FlatMapContents(g, xs[1..], e);
      assert forall x :: x in xs ==> x == xs[0] || x in xs[1..];
    }
  }

  /** The parts of a MODS record that Java reads without a null check are present. */
  predicate ModsWellFormed(mods: Elem) {
    && (forall n :: n in Children(mods, "name") ==> EntryWellFormed(Name, n))
    && (forall o :: o in Children(mods, "originInfo") ==> EntryWellFormed(OriginInfo, o))
    && (forall i :: i in Children(mods, "identifier") ==> EntryWellFormed(Identifier, i))
    && (forall r :: r in Children(mods, "relatedItem") ==> EntryWellFormed(RelatedItem, r))
  }

  /** Every attempt for one MODS record, in the order in which `parseModsElement` makes them. */
  function ModsEntries(mods: Elem): seq<Entry>
    requires ModsWellFormed(mods)
  {
    FlatMap(Classification, Children(mods, "classification"))
    + FlatMap(TitleInfo, Children(mods, "titleInfo"))
    + FlatMap(Name, Children(mods, "name"))
    + FlatMap(OriginInfo, Children(mods, "originInfo"))
    + FlatMap(Language, Children(mods, "language"))
    + PhysicalDescriptionEntries(mods)
    + FlatMap(Identifier, Children(mods, "identifier"))
    + LocationEntries(mods)
    + FlatMap(Note, Children(mods, "note"))
    + FlatMap(RelatedItem, Children(mods, "relatedItem"))
  }

  /** `dmdSec/mdWrap/xmlData/mods`, which Java follows without checks. */
  predicate DmdWellFormed(dmdSec: Elem) {
    var w := Child(dmdSec, "mdWrap");
    w.Some? && GrandChild(w.value, "xmlData", "mods").Some?
      && ModsWellFormed(GrandChild(w.value, "xmlData", "mods").value)
  }

  function DmdMods(dmdSec: Elem): Elem
    requires DmdWellFormed(dmdSec)
  {
    GrandChild(Child(dmdSec, "mdWrap").value, "xmlData", "mods").value
  }

  function DmdEntries(dmdSec: Elem): seq<Entry>
    requires DmdWellFormed(dmdSec)
  {
    ModsEntries(DmdMods(dmdSec))
  }
}
