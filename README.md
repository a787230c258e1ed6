# Visual Library migration step, modelled in Dafny

This project models the Goobi workflow step plugin
`MigrateVisualLibraryToGoobiStepPlugin`. The plugin takes a Goobi process whose
metadata document already exists and moves a Visual Library record into it:

- It reads the process's METS document, finds the volume (the first child of an anchor
  element, or the top element itself) and strips the volume and the anchor down to their
  `CatalogIDDigital` fields.
- If an earlier import left pages behind, it clears them.
- It fetches the record over OAI-PMH (`GetRecord`) and, when an anchor identifier is
  configured, fetches the anchor record and merges its MODS metadata into the anchor.
- It imports the METS record:
  - the descriptive sections (`dmdSec`) and the DEFAULT file group become image file names;
  - the PHYSICAL structMap becomes pages;
  - the LOGICAL structMap becomes a tree of structure elements, each getting its MODS metadata;
  - the structLink becomes page references.
- It aggregates every page reference below the volume into the volume, writes the document,
  records the `VL Final URL` property and downloads every image into the media folder.

The model is a set of modules, one per concern of the Java class:

| module | file | what it holds |
|---|---|---|
| `Xml` | xml.dfy | JDOM elements as values: attributes, children by name, blank and lower-case tests |
| `Naming` | naming.dfy | image file names from MIME types; MARC relator codes to person roles |
| `Rules` | rules.dfy | the ruleset: which structure type a div becomes, which metadata and children a type allows |
| `Doc` | doc.dfy | the metadata document's nodes, fields, persons and pages; `cleanupMetadata` |
| `Oai` | oai.dfy | `getRecord`: choosing the METS record out of an OAI-PMH envelope |
| `Mods` | mods.dfy | `parseModsElement` as a pure function from a MODS record to the metadata it offers |
| `Sections` | sections.dfy | the top-level pass of `importRecord` over the METS sections |
| `Pages` | pages.dfy | pages from the PHYSICAL structMap |
| `Logical` | logical.dfy | `createDocstruct`: the structure tree and its id registration |
| `Refs` | refs.dfy | page references: structLink linking, clearing and `assignPagesToUpperElement` |
| `Download` | download.dfy | `downloadImages` over a fetcher that stands in for the HTTP transfers |
| `Importer` | importer.dfy | class `Importer`: the plugin's fields and the step methods that update them in place |

Design of the model:

- The document is an arena. `nodes: seq<Node>` holds the structure elements and
  `pages: seq<Page>` holds the pages.
- A node names its children and its page references by index. A child always has a higher
  index than its parent (`Refs.Ordered`), which is how the flat list of descendants
  terminates.
- Java's `HashMap`s allow a null key, so the id maps are `map<Option<string>, nat>`.
- Every method of class `Importer` is specified by a function over the old state. The
  lemmas beside those functions state what the source promises about them.

Two behaviours of the code that are easy to miss:

- A MIME type `image/jpeg` gives the extension `.jpeg`, not `.jpg`, because the code takes
  the text after the slash.
- A failed fetch of the anchor record ends the step with failure; it is not skipped.

## Model

Source paths are relative to the plugin repository. `P` stands for
`module-base/src/main/java/de/intranda/goobi/plugins/MigrateVisualLibraryToGoobiStepPlugin.java`
in the prose; the table spells it out.

| member | source | states |
|---|---|---|
| Naming.IndexOf | module-base/src/main/java/de/intranda/goobi/plugins/MigrateVisualLibraryToGoobiStepPlugin.java:462-464 | Java `indexOf`: -1 exactly when the character is absent, otherwise the position of its first occurrence |
| Naming.FileNameFromSubtype | module-base/src/main/java/de/intranda/goobi/plugins/MigrateVisualLibraryToGoobiStepPlugin.java:461-468 | a MIME type `t/sub` names the file `ID.sub`, the text after the first slash |
| Naming.FileNameWithoutSlash | module-base/src/main/java/de/intranda/goobi/plugins/MigrateVisualLibraryToGoobiStepPlugin.java:462-464 | a MIME type without a slash becomes the whole extension (`indexOf` gives -1, so the cut starts at 0) |
| Naming.FileNameDefault | module-base/src/main/java/de/intranda/goobi/plugins/MigrateVisualLibraryToGoobiStepPlugin.java:461-468 | a blank MIME type gives the default extension `.jpg` |
| Naming.FileNameJpeg | module-base/src/main/java/de/intranda/goobi/plugins/MigrateVisualLibraryToGoobiStepPlugin.java:461-468 | `image/jpeg` gives `FILE_0001.jpeg`, not `.jpg` |
| Naming.Role | module-base/src/main/java/de/intranda/goobi/plugins/MigrateVisualLibraryToGoobiStepPlugin.java:659-684 | both directions for each relator code: `aut` Author, `egr` Engraver, `dte` Honoree, `edt` Editor, every other code OtherPerson |
| Rules.RulesetType | module-base/src/main/java/de/intranda/goobi/plugins/MigrateVisualLibraryToGoobiStepPlugin.java:860-864 | both directions: a type is found exactly when the lower-cased TYPE is in the mapping, its name is not blank and the ruleset knows it, and the type found is that name |
| Rules.ResolveTypeCases | module-base/src/main/java/de/intranda/goobi/plugins/MigrateVisualLibraryToGoobiStepPlugin.java:860-880 | the configured type wins; otherwise `cover_front`/`cover_back` become Cover and everything else OtherDocStrct; the result is always a ruleset type |
| Xml.ChildrenNamedExactly | module-base/src/main/java/de/intranda/goobi/plugins/MigrateVisualLibraryToGoobiStepPlugin.java:911 | `getChildren(name)` keeps exactly the children with that name |
| Xml.ChildrenNamedAppend | module-base/src/main/java/de/intranda/goobi/plugins/MigrateVisualLibraryToGoobiStepPlugin.java:911 | `getChildren(name)` keeps document order and repeats: filtering distributes over concatenation |
| Xml.FirstNamedSpec | module-base/src/main/java/de/intranda/goobi/plugins/MigrateVisualLibraryToGoobiStepPlugin.java:948-950 | `getChild(name)` finds a child exactly when one with that name exists, and returns the first such child: no earlier child has the name |
| Xml.ToLower | module-base/src/main/java/de/intranda/goobi/plugins/MigrateVisualLibraryToGoobiStepPlugin.java:861 | lower-casing keeps the length and lowers each ASCII upper-case letter, leaving every other character alone |
| Doc.KeepCatalogId | module-base/src/main/java/de/intranda/goobi/plugins/MigrateVisualLibraryToGoobiStepPlugin.java:361-366 | what is left after the cleanup is a CatalogIDDigital field that was already there |
| Doc.KeepCatalogIdKeepsAll | module-base/src/main/java/de/intranda/goobi/plugins/MigrateVisualLibraryToGoobiStepPlugin.java:361-366 | every CatalogIDDigital field survives, each as often as it occurred |
| Doc.KeepCatalogIdAppend | module-base/src/main/java/de/intranda/goobi/plugins/MigrateVisualLibraryToGoobiStepPlugin.java:361-366 | the cleanup treats each field on its own, so it distributes over concatenation |
| Doc.KeepCatalogIdIdempotent | module-base/src/main/java/de/intranda/goobi/plugins/MigrateVisualLibraryToGoobiStepPlugin.java:360-373 | cleaning twice is cleaning once |
| Doc.ResetNode | module-base/src/main/java/de/intranda/goobi/plugins/MigrateVisualLibraryToGoobiStepPlugin.java:360-373 | `cleanupMetadata` removes every person and keeps the element's type, children and references |
| Doc.ResetNodeIdempotent | module-base/src/main/java/de/intranda/goobi/plugins/MigrateVisualLibraryToGoobiStepPlugin.java:360-373 | `cleanupMetadata` is idempotent |
| Oai.LastNamedSpec | module-base/src/main/java/de/intranda/goobi/plugins/MigrateVisualLibraryToGoobiStepPlugin.java:951-964 | the loop over `record` children finds one exactly when one exists, and no later child has that name |
| Oai.SelectRecord | module-base/src/main/java/de/intranda/goobi/plugins/MigrateVisualLibraryToGoobiStepPlugin.java:948-965 | no `GetRecord` or no record gives nothing; a result is always the `mets` element |
| Oai.SelectRecordPicksLast | module-base/src/main/java/de/intranda/goobi/plugins/MigrateVisualLibraryToGoobiStepPlugin.java:951-964 | with several records the last one is taken |
| Oai.GetRecord | module-base/src/main/java/de/intranda/goobi/plugins/MigrateVisualLibraryToGoobiStepPlugin.java:924-969 | a blank identifier gives no record; a failed fetch is an error; otherwise the record is exactly what the envelope selects |
| Mods.OfferShape | module-base/src/main/java/de/intranda/goobi/plugins/MigrateVisualLibraryToGoobiStepPlugin.java:831-842 | a missing element offers nothing; a present one offers exactly one field, of the requested type, carrying the element's text |
| Mods.TitleInfoEntriesSpec | module-base/src/main/java/de/intranda/goobi/plugins/MigrateVisualLibraryToGoobiStepPlugin.java:620-644 | an alternative titleInfo offers an OtherTitle exactly when it has a title, with that text, and nothing else; any other offers TitleDocMain, TitleDocSub1, VolumeNumber and VolumeName exactly when title, subTitle, partNumber and partName exist, each with that element's text, and nothing else |
| Mods.AlternativeTitleOnlyOtherTitle | module-base/src/main/java/de/intranda/goobi/plugins/MigrateVisualLibraryToGoobiStepPlugin.java:623-626 | an alternative titleInfo yields at most one entry, always OtherTitle |
| Mods.LastPart | module-base/src/main/java/de/intranda/goobi/plugins/MigrateVisualLibraryToGoobiStepPlugin.java:694-705 | the namePart that counts is the last one of its kind (family or not); no later part is of that kind |
| Mods.PartTextSpec | module-base/src/main/java/de/intranda/goobi/plugins/MigrateVisualLibraryToGoobiStepPlugin.java:694-705 | the name text is that of the last namePart of its kind, and null exactly when there is none |
| Mods.PersonOf | module-base/src/main/java/de/intranda/goobi/plugins/MigrateVisualLibraryToGoobiStepPlugin.java:649-716 | the role comes from the first roleTerm; the first name is the text of the last namePart not typed family and the last name that of the last one typed family, each null when there is none; authority and URIs come from the name's attributes |
| Mods.NameEntries | module-base/src/main/java/de/intranda/goobi/plugins/MigrateVisualLibraryToGoobiStepPlugin.java:646-716 | a personal name offers exactly one person, with the role and the first and last names `PersonOf` states; any other name offers nothing |
| Mods.OriginEntriesTypes | module-base/src/main/java/de/intranda/goobi/plugins/MigrateVisualLibraryToGoobiStepPlugin.java:720-744 | an originInfo offers only metadata fields: a publication only PlaceOfPublication, PublisherName and PublicationYear; any other event only the four electronic-origin fields |
| Mods.OriginEntriesCount | module-base/src/main/java/de/intranda/goobi/plugins/MigrateVisualLibraryToGoobiStepPlugin.java:722-728 | a publication offers one field for each of place/placeTerm, publisher and dateIssued that exists, and no more |
| Mods.OriginEntriesSpec | module-base/src/main/java/de/intranda/goobi/plugins/MigrateVisualLibraryToGoobiStepPlugin.java:720-744 | a publication offers PlaceOfPublication, PublisherName and PublicationYear exactly when place/placeTerm, publisher and dateIssued exist, each carrying that element's text; any other event offers `_placeOfElectronicOrigin`, `_dateDigitization`, `_electronicPublisher` and `_electronicEdition` exactly when place/placeTerm, dateIssued, publisher and edition exist, each with that text |
| Mods.IdentifierEntries | module-base/src/main/java/de/intranda/goobi/plugins/MigrateVisualLibraryToGoobiStepPlugin.java:762-781 | `gbv` gives CatalogIDSource; `urn` gives URN; every other type gives nothing |
| Mods.RelatedItemEntries | module-base/src/main/java/de/intranda/goobi/plugins/MigrateVisualLibraryToGoobiStepPlugin.java:801-818 | a relatedItem that is not a series offers nothing |
| Mods.RelatedItemEntriesTypes | module-base/src/main/java/de/intranda/goobi/plugins/MigrateVisualLibraryToGoobiStepPlugin.java:801-818 | a series offers only its title (TitleMainSeries), its catalogue id (CatalogIDMainSeries) and its order (SeriesOrder) |
| Mods.RelatedItemEntriesSpec | module-base/src/main/java/de/intranda/goobi/plugins/MigrateVisualLibraryToGoobiStepPlugin.java:801-818 | a series offers TitleMainSeries exactly when titleInfo/title exists, CatalogIDMainSeries exactly when recordInfo/recordIdentifier exists and SeriesOrder exactly when part/detail/number exists, each carrying that element's text; without a part there is no SeriesOrder |
| Mods.FlatMapContents | module-base/src/main/java/de/intranda/goobi/plugins/MigrateVisualLibraryToGoobiStepPlugin.java:612-822 | a group of MODS elements offers exactly what some element of the group offers |
| Logical.Apply | module-base/src/main/java/de/intranda/goobi/plugins/MigrateVisualLibraryToGoobiStepPlugin.java:831-842 | parsing metadata into an element only appends: existing fields and persons stay first; type, children and references do not change |
| Logical.ApplyExactly | module-base/src/main/java/de/intranda/goobi/plugins/MigrateVisualLibraryToGoobiStepPlugin.java:831-842 | both directions: after parsing, a field or person is present exactly when it was before or was offered and the type allows it |
| Logical.ApplyAppend | module-base/src/main/java/de/intranda/goobi/plugins/MigrateVisualLibraryToGoobiStepPlugin.java:612-822 | parsing two lists of offers is parsing one, then the other |
| Logical.WithUrn | module-base/src/main/java/de/intranda/goobi/plugins/MigrateVisualLibraryToGoobiStepPlugin.java:901-905 | the URN step only ever appends to the element's fields, and it appends one `_urn` field carrying CONTENTIDS exactly when CONTENTIDS is not blank and the ruleset allows `_urn`; otherwise the element is unchanged |
| Logical.Described | module-base/src/main/java/de/intranda/goobi/plugins/MigrateVisualLibraryToGoobiStepPlugin.java:891-905 | a described element has the given type, no children and no references |
| Logical.Head | module-base/src/main/java/de/intranda/goobi/plugins/MigrateVisualLibraryToGoobiStepPlugin.java:851-905 | a new element has the resolved type, no children and no references |
| Logical.HeadDetached | module-base/src/main/java/de/intranda/goobi/plugins/MigrateVisualLibraryToGoobiStepPlugin.java:883-889 | an element whose type the parent rejects gets no metadata and no persons |
| Logical.HeadFromMods | module-base/src/main/java/de/intranda/goobi/plugins/MigrateVisualLibraryToGoobiStepPlugin.java:891-905 | with a DMDID, the element holds exactly the allowed offers of its MODS record, plus possibly the URN |
| Logical.HeadTitle | module-base/src/main/java/de/intranda/goobi/plugins/MigrateVisualLibraryToGoobiStepPlugin.java:895-899 | without a DMDID, LABEL becomes the main title exactly when it is given and allowed; no persons |
| Logical.HeadTitleRejected | module-base/src/main/java/de/intranda/goobi/plugins/MigrateVisualLibraryToGoobiStepPlugin.java:895-909 | a rejected main title aborts the try block, so the URN is not added either |
| Logical.ChildIds | module-base/src/main/java/de/intranda/goobi/plugins/MigrateVisualLibraryToGoobiStepPlugin.java:888 | the children attached to an element are among the elements created for its sub-divs |
| Logical.Tree | module-base/src/main/java/de/intranda/goobi/plugins/MigrateVisualLibraryToGoobiStepPlugin.java:851-914 | a div and all the divs below it create one element each |
| Logical.TreeShape | module-base/src/main/java/de/intranda/goobi/plugins/MigrateVisualLibraryToGoobiStepPlugin.java:851-914 | the subtree of a div is a block of fresh elements: every child comes after its parent and inside the block; no page references |
| Logical.TreeSeqShape | module-base/src/main/java/de/intranda/goobi/plugins/MigrateVisualLibraryToGoobiStepPlugin.java:911-913 | the subtrees of a div's sub-divs, in order, form one block |
| Logical.RegRange | module-base/src/main/java/de/intranda/goobi/plugins/MigrateVisualLibraryToGoobiStepPlugin.java:889 | registration keeps every earlier id and maps new ids only to elements of the subtree |
| Logical.RegAttached | module-base/src/main/java/de/intranda/goobi/plugins/MigrateVisualLibraryToGoobiStepPlugin.java:888-889 | an attached div's ID is registered |
| Pages.FirstMatch | module-base/src/main/java/de/intranda/goobi/plugins/MigrateVisualLibraryToGoobiStepPlugin.java:521-526 | no image is found exactly when no descriptor has the FILEID |
| Pages.FirstMatchIsFirst | module-base/src/main/java/de/intranda/goobi/plugins/MigrateVisualLibraryToGoobiStepPlugin.java:521-526 | the image found is that of the first descriptor with the FILEID |
| Pages.ImageForLastMatch | module-base/src/main/java/de/intranda/goobi/plugins/MigrateVisualLibraryToGoobiStepPlugin.java:518-527 | a page has no image exactly when no fptr resolves; otherwise its image comes from the last fptr that resolves |
| Pages.PageFieldsShape | module-base/src/main/java/de/intranda/goobi/plugins/MigrateVisualLibraryToGoobiStepPlugin.java:528-544 | a page starts with its physical page number from ORDER; it has a logical page number exactly when ORDERLABEL is given and a URN exactly when CONTENTIDS is given, each carrying that attribute |
| Pages.BuildAll | module-base/src/main/java/de/intranda/goobi/plugins/MigrateVisualLibraryToGoobiStepPlugin.java:511-551 | each page div adds at most one page |
| Pages.BuildAllStep | module-base/src/main/java/de/intranda/goobi/plugins/MigrateVisualLibraryToGoobiStepPlugin.java:528-550 | one more div adds its page and registers it when the page is accepted, and changes nothing otherwise |
| Pages.PagesOf | module-base/src/main/java/de/intranda/goobi/plugins/MigrateVisualLibraryToGoobiStepPlugin.java:511-551 | one page per div, in order |
| Pages.BuildAllAccepted | module-base/src/main/java/de/intranda/goobi/plugins/MigrateVisualLibraryToGoobiStepPlugin.java:511-551 | when every page is accepted, the pages are exactly one per div, in document order, after the existing ones |
| Pages.BuildAllMapInRange | module-base/src/main/java/de/intranda/goobi/plugins/MigrateVisualLibraryToGoobiStepPlugin.java:545-547 | every registered id points at an existing page, and no earlier id is dropped |
| Pages.BuildAllRegistersLast | module-base/src/main/java/de/intranda/goobi/plugins/MigrateVisualLibraryToGoobiStepPlugin.java:545-547 | an accepted page is registered under its div's ID and points at that page |
| Sections.Descriptors | module-base/src/main/java/de/intranda/goobi/plugins/MigrateVisualLibraryToGoobiStepPlugin.java:455-470 | one image descriptor per file of the group |
| Sections.DescriptorAt | module-base/src/main/java/de/intranda/goobi/plugins/MigrateVisualLibraryToGoobiStepPlugin.java:455-470 | the k-th descriptor is built from the k-th file with the number that follows |
| Sections.DescriptorsOrders | module-base/src/main/java/de/intranda/goobi/plugins/MigrateVisualLibraryToGoobiStepPlugin.java:469-470 | descriptors are numbered consecutively |
| Sections.AddFilesNumbered | module-base/src/main/java/de/intranda/goobi/plugins/MigrateVisualLibraryToGoobiStepPlugin.java:469-470 | adding a group's files keeps the numbering 1, 2, 3, … |
| Sections.AddGroupsNumbered | module-base/src/main/java/de/intranda/goobi/plugins/MigrateVisualLibraryToGoobiStepPlugin.java:451-474 | the fileGrps of a fileSec keep the numbering 1, 2, 3, … |
| Sections.SectionAllNumbered | module-base/src/main/java/de/intranda/goobi/plugins/MigrateVisualLibraryToGoobiStepPlugin.java:446-482 | across the whole record the k-th image descriptor has number k + 1 |
| Sections.AddGroupsKeeps | module-base/src/main/java/de/intranda/goobi/plugins/MigrateVisualLibraryToGoobiStepPlugin.java:451-474 | reading a fileSec leaves the dmdSec map and the structMaps alone |
| Sections.SectionAllDmd | module-base/src/main/java/de/intranda/goobi/plugins/MigrateVisualLibraryToGoobiStepPlugin.java:447-448 | every dmdSec is found under its ID unless a later dmdSec reuses the ID |
| Sections.StepPhysical | module-base/src/main/java/de/intranda/goobi/plugins/MigrateVisualLibraryToGoobiStepPlugin.java:475-479 | one section sets the PHYSICAL structMap exactly when it is one |
| Sections.SectionAllPhysical | module-base/src/main/java/de/intranda/goobi/plugins/MigrateVisualLibraryToGoobiStepPlugin.java:475-479 | the PHYSICAL structMap found is the last one in the record, and none is found when there is none |
| Refs.Flat | module-base/src/main/java/de/intranda/goobi/plugins/MigrateVisualLibraryToGoobiStepPlugin.java:342 | the flat list of descendants holds only elements below the start |
| Refs.FlatClosed | module-base/src/main/java/de/intranda/goobi/plugins/MigrateVisualLibraryToGoobiStepPlugin.java:342 | the flat list holds every child, and every child of every element in it |
| Refs.RefsOf | module-base/src/main/java/de/intranda/goobi/plugins/MigrateVisualLibraryToGoobiStepPlugin.java:342-343 | both directions: a page is collected exactly when some listed element refers to it |
| Refs.DedupUnionSpec | module-base/src/main/java/de/intranda/goobi/plugins/MigrateVisualLibraryToGoobiStepPlugin.java:344-354 | merging keeps the old references first and adds exactly the new targets, each once |
| Refs.DedupUnionNoRepeats | module-base/src/main/java/de/intranda/goobi/plugins/MigrateVisualLibraryToGoobiStepPlugin.java:344-354 | a list without repeats stays without repeats |
| Refs.DedupUnionPresent | module-base/src/main/java/de/intranda/goobi/plugins/MigrateVisualLibraryToGoobiStepPlugin.java:345-353 | merging targets that are all present already changes nothing |
| Refs.AggregatedComplete | module-base/src/main/java/de/intranda/goobi/plugins/MigrateVisualLibraryToGoobiStepPlugin.java:341-358 | the element refers to every page referred to below it; its own references stay in front; each added one comes from below, is new and is added once |
| Refs.AggregatedIdempotent | module-base/src/main/java/de/intranda/goobi/plugins/MigrateVisualLibraryToGoobiStepPlugin.java:341-358 | aggregating twice is aggregating once |
| Refs.LinkTargets | module-base/src/main/java/de/intranda/goobi/plugins/MigrateVisualLibraryToGoobiStepPlugin.java:590-603 | an element gets exactly the pages its resolvable smLinks point to; every target is a registered page |
| Refs.UnresolvedLinkIgnored | module-base/src/main/java/de/intranda/goobi/plugins/MigrateVisualLibraryToGoobiStepPlugin.java:594-602 | an smLink whose `from` or `to` is not registered adds nothing |
| Refs.LinkAllRefs | module-base/src/main/java/de/intranda/goobi/plugins/MigrateVisualLibraryToGoobiStepPlugin.java:590-603 | after linking, each element's references are its old ones, then its link targets in structLink order |
| Refs.Drop | module-base/src/main/java/de/intranda/goobi/plugins/MigrateVisualLibraryToGoobiStepPlugin.java:280-282 | removing references to a page keeps exactly the other references |
| Refs.DropPage | module-base/src/main/java/de/intranda/goobi/plugins/MigrateVisualLibraryToGoobiStepPlugin.java:277-283 | removing a page's incoming references touches only the elements' references |
| Refs.DropPagesKeeps | module-base/src/main/java/de/intranda/goobi/plugins/MigrateVisualLibraryToGoobiStepPlugin.java:277-283 | clearing the pages keeps every element's type, metadata and children |
| Refs.DropPagesRefs | module-base/src/main/java/de/intranda/goobi/plugins/MigrateVisualLibraryToGoobiStepPlugin.java:277-283 | both directions: a reference survives exactly when its page is not among those cleared |
| Download.RunOkIff | module-base/src/main/java/de/intranda/goobi/plugins/MigrateVisualLibraryToGoobiStepPlugin.java:400-430 | both directions: the download succeeds exactly when every image arrives with at least one byte, on the first try or the retry |
| Download.RunOkStored | module-base/src/main/java/de/intranda/goobi/plugins/MigrateVisualLibraryToGoobiStepPlugin.java:400-424 | after a successful download every image is in the folder and non-empty, and nothing that was there is lost |
| Download.RunEmptyDeleted | module-base/src/main/java/de/intranda/goobi/plugins/MigrateVisualLibraryToGoobiStepPlugin.java:417-422 | an image that arrives empty is deleted and fails the step |
| Importer.WithImagePathIdempotent | module-base/src/main/java/de/intranda/goobi/plugins/MigrateVisualLibraryToGoobiStepPlugin.java:499-509 | ensuring `pathimagefiles` twice is ensuring it once; afterwards one is present exactly when one was or the ruleset allows it |
| Importer.AddChildren | module-base/src/main/java/de/intranda/goobi/plugins/MigrateVisualLibraryToGoobiStepPlugin.java:888 | `addChild` appends to the parent's children and changes nothing else |
| Importer.VolumeNode | module-base/src/main/java/de/intranda/goobi/plugins/MigrateVisualLibraryToGoobiStepPlugin.java:567-584 | describing the volume from the main div changes only its metadata |
| Importer.VolumeTree | module-base/src/main/java/de/intranda/goobi/plugins/MigrateVisualLibraryToGoobiStepPlugin.java:567-587 | the main div's sub-divs add one element per div below it |
| Importer.DropAllPages | module-base/src/main/java/de/intranda/goobi/plugins/MigrateVisualLibraryToGoobiStepPlugin.java:274-283 | removing every page leaves no element referring to any page |
| Importer.WithAnchor | module-base/src/main/java/de/intranda/goobi/plugins/MigrateVisualLibraryToGoobiStepPlugin.java:302-313 | the anchor record changes no element count; its metadata goes into the anchor only when an anchor id is set, the record is found and the top element is an anchor |
| Importer.Cleared | module-base/src/main/java/de/intranda/goobi/plugins/MigrateVisualLibraryToGoobiStepPlugin.java:274-290 | clearing an earlier import keeps every element; references and the volume's children are emptied |
| Importer.VolumeOf | module-base/src/main/java/de/intranda/goobi/plugins/MigrateVisualLibraryToGoobiStepPlugin.java:252-257 | the volume is an existing element: the anchor's first child, or the top element |
| Importer.Prepared | module-base/src/main/java/de/intranda/goobi/plugins/MigrateVisualLibraryToGoobiStepPlugin.java:248-290 | the document imported into has the same elements and top as the one read; the volume and anchor are reset and an earlier import is cleared when it had pages |
| Importer.Importer.constructor | module-base/src/main/java/de/intranda/goobi/plugins/MigrateVisualLibraryToGoobiStepPlugin.java:114-122 | a fresh importer with the configured identifiers, URL and image folder and nothing collected yet |
| Importer.Importer.Volume | module-base/src/main/java/de/intranda/goobi/plugins/MigrateVisualLibraryToGoobiStepPlugin.java:252-257 | the volume is the anchor's first child, which comes after the anchor, or else the top element |
| Importer.Importer.Cleanup | module-base/src/main/java/de/intranda/goobi/plugins/MigrateVisualLibraryToGoobiStepPlugin.java:360-373 | the element is reset and every other element is unchanged |
| Importer.Importer.Prepare | module-base/src/main/java/de/intranda/goobi/plugins/MigrateVisualLibraryToGoobiStepPlugin.java:248-264 | the document is taken over; the volume and, when there is one, the anchor are reset; nothing else changes |
| Importer.Importer.ClearStructure | module-base/src/main/java/de/intranda/goobi/plugins/MigrateVisualLibraryToGoobiStepPlugin.java:274-290 | the document becomes `Cleared` of the old one: no element refers to a page any more, the volume has no children, everything else is kept, and the pages are gone |
| Importer.Importer.ImportAnchor | module-base/src/main/java/de/intranda/goobi/plugins/MigrateVisualLibraryToGoobiStepPlugin.java:302-313 | the step fails exactly when an anchor id is set and its fetch fails; the nodes become `WithAnchor` of the old ones: a found anchor record's metadata is parsed into the anchor |
| Importer.Importer.ParseAnchor | module-base/src/main/java/de/intranda/goobi/plugins/MigrateVisualLibraryToGoobiStepPlugin.java:305-311 | the anchor receives the metadata of every `md<id>` dmdSec in document order; nothing else changes |
| Importer.Importer.ParseAnchorSec | module-base/src/main/java/de/intranda/goobi/plugins/MigrateVisualLibraryToGoobiStepPlugin.java:307-311 | one more dmdSec is parsed into the anchor when its ID matches |
| Importer.Importer.AddDescriptor | module-base/src/main/java/de/intranda/goobi/plugins/MigrateVisualLibraryToGoobiStepPlugin.java:455-470 | the next file's descriptor is appended with the next number |
| Importer.Importer.AddDescriptors | module-base/src/main/java/de/intranda/goobi/plugins/MigrateVisualLibraryToGoobiStepPlugin.java:453-472 | the DEFAULT group is recorded and its files become descriptors |
| Importer.Importer.AddFileGroups | module-base/src/main/java/de/intranda/goobi/plugins/MigrateVisualLibraryToGoobiStepPlugin.java:451-474 | the fileSec's groups are read as the sectioning pass specifies |
| Importer.Importer.Section | module-base/src/main/java/de/intranda/goobi/plugins/MigrateVisualLibraryToGoobiStepPlugin.java:446-482 | the record's sections are collected as the sectioning pass specifies, so the numbering, dmdSec and PHYSICAL lemmas apply |
| Importer.Importer.EnsureImagePath | module-base/src/main/java/de/intranda/goobi/plugins/MigrateVisualLibraryToGoobiStepPlugin.java:499-509 | the physical root gets `pathimagefiles` as specified, so the idempotence lemma applies |
| Importer.Importer.AttachPage | module-base/src/main/java/de/intranda/goobi/plugins/MigrateVisualLibraryToGoobiStepPlugin.java:546-547 | the page is appended and registered under its id, and the importer stays well formed |
| Importer.Importer.BuildPages | module-base/src/main/java/de/intranda/goobi/plugins/MigrateVisualLibraryToGoobiStepPlugin.java:511-551 | the pages and page map are those the page lemmas describe |
| Importer.Importer.AddMetadata | module-base/src/main/java/de/intranda/goobi/plugins/MigrateVisualLibraryToGoobiStepPlugin.java:831-842 | a field is added exactly when the ruleset allows its type for the element |
| Importer.Importer.AddPerson | module-base/src/main/java/de/intranda/goobi/plugins/MigrateVisualLibraryToGoobiStepPlugin.java:707-715 | a person is added when the ruleset allows the role, and nothing else changes |
| Importer.Importer.ParseMods | module-base/src/main/java/de/intranda/goobi/plugins/MigrateVisualLibraryToGoobiStepPlugin.java:612-822 | a MODS record's offers are applied in order to one element, so the ApplyExactly lemma describes the result |
| Importer.Importer.NewElement | module-base/src/main/java/de/intranda/goobi/plugins/MigrateVisualLibraryToGoobiStepPlugin.java:857-889 | a new element is appended, attached and registered exactly when its parent accepts it |
| Importer.Importer.Describe | module-base/src/main/java/de/intranda/goobi/plugins/MigrateVisualLibraryToGoobiStepPlugin.java:891-905 | the new element receives its MODS record or its label, then the URN, as the Head lemmas describe |
| Importer.Importer.AddUrn | module-base/src/main/java/de/intranda/goobi/plugins/MigrateVisualLibraryToGoobiStepPlugin.java:901-905 | the element becomes what `WithUrn` describes: a `_urn` field is appended exactly when CONTENTIDS is given and allowed; every other element is unchanged |
| Importer.Importer.CreateDocstruct | module-base/src/main/java/de/intranda/goobi/plugins/MigrateVisualLibraryToGoobiStepPlugin.java:851-914 | the new elements are the div's subtree, appended as a block and attached under the parent when accepted; the registered ids are those of the subtree |
| Importer.Importer.CreateChildren | module-base/src/main/java/de/intranda/goobi/plugins/MigrateVisualLibraryToGoobiStepPlugin.java:911-913 | the sub-divs are created in document order, each subtree after the previous one |
| Importer.Importer.CreateChild | module-base/src/main/java/de/intranda/goobi/plugins/MigrateVisualLibraryToGoobiStepPlugin.java:911-913 | one more sub-div's subtree is created; a child that is not a div is passed over |
| Importer.Importer.BuildLogical | module-base/src/main/java/de/intranda/goobi/plugins/MigrateVisualLibraryToGoobiStepPlugin.java:554-587 | the volume takes the main div's URN and MODS record, and its sub-divs become subtrees below it; the forest stays well formed |
| Importer.Importer.AddSubDivs | module-base/src/main/java/de/intranda/goobi/plugins/MigrateVisualLibraryToGoobiStepPlugin.java:585-587 | the main div's sub-divs are created below the volume and the forest stays well formed |
| Importer.Importer.AddReference | module-base/src/main/java/de/intranda/goobi/plugins/MigrateVisualLibraryToGoobiStepPlugin.java:598-599 | one page reference is appended to one element |
| Importer.Importer.LinkPages | module-base/src/main/java/de/intranda/goobi/plugins/MigrateVisualLibraryToGoobiStepPlugin.java:590-603 | the structLink adds exactly the references the LinkAllRefs lemma describes |
| Importer.Importer.ImportPhysical | module-base/src/main/java/de/intranda/goobi/plugins/MigrateVisualLibraryToGoobiStepPlugin.java:499-551 | the image path is ensured and the page divs become pages |
| Importer.Importer.ImportLogical | module-base/src/main/java/de/intranda/goobi/plugins/MigrateVisualLibraryToGoobiStepPlugin.java:554-603 | the logical tree is built into the volume, then the structLink is applied |
| Importer.Importer.ImportSections | module-base/src/main/java/de/intranda/goobi/plugins/MigrateVisualLibraryToGoobiStepPlugin.java:499-603 | physical, then logical import, with the importer kept well formed |
| Importer.Importer.ImportScanned | module-base/src/main/java/de/intranda/goobi/plugins/MigrateVisualLibraryToGoobiStepPlugin.java:484-603 | without a PHYSICAL structMap the document is left unchanged; with one it is imported |
| Importer.Importer.ImportRecord | module-base/src/main/java/de/intranda/goobi/plugins/MigrateVisualLibraryToGoobiStepPlugin.java:439-604 | the record is sectioned from scratch and then imported into the volume; a record without a PHYSICAL structMap changes nothing in the document |
| Importer.Importer.Contains | module-base/src/main/java/de/intranda/goobi/plugins/MigrateVisualLibraryToGoobiStepPlugin.java:345-351 | the check finds a target exactly when the element already refers to it |
| Importer.Importer.AddIfAbsent | module-base/src/main/java/de/intranda/goobi/plugins/MigrateVisualLibraryToGoobiStepPlugin.java:344-354 | one more target is merged in, only when it is new |
| Importer.Importer.MergeRefs | module-base/src/main/java/de/intranda/goobi/plugins/MigrateVisualLibraryToGoobiStepPlugin.java:343-355 | one more element's targets are merged into the volume |
| Importer.Importer.AssignPages | module-base/src/main/java/de/intranda/goobi/plugins/MigrateVisualLibraryToGoobiStepPlugin.java:341-358 | only the volume's references change, and they become the aggregate the Aggregated lemmas describe |
| Importer.Importer.ImportVolume | module-base/src/main/java/de/intranda/goobi/plugins/MigrateVisualLibraryToGoobiStepPlugin.java:315-318 | the document after the import is `ImportedDoc` of the one before: pages built from the PHYSICAL structMap, the logical tree read into the volume, structLink references added, then every page below the volume aggregated into it |
| Importer.Importer.Write | module-base/src/main/java/de/intranda/goobi/plugins/MigrateVisualLibraryToGoobiStepPlugin.java:320-322 | the document saved is the importer's current document, and the `VL Final URL` property is appended |
| Importer.Importer.ImportAndWrite | module-base/src/main/java/de/intranda/goobi/plugins/MigrateVisualLibraryToGoobiStepPlugin.java:314-322 | the record is imported into the volume; the document is saved with the property exactly when the write succeeds, and what is saved is `ImportedDoc` of the document before the import |
| Importer.Importer.DownloadImages | module-base/src/main/java/de/intranda/goobi/plugins/MigrateVisualLibraryToGoobiStepPlugin.java:380-431 | without a DEFAULT group the result is success and the folder is untouched; otherwise the folder and verdict are those of the download run |
| Importer.Importer.Finish | module-base/src/main/java/de/intranda/goobi/plugins/MigrateVisualLibraryToGoobiStepPlugin.java:315-332 | the document is saved with the property exactly when the write succeeds, and the saved document is `ImportedDoc` of the document before with the record `rec`; success also needs every image downloaded; when the document is saved, the media folder is what the download run over the record's DEFAULT images makes of the old folder, or untouched without a DEFAULT group |
| Importer.Importer.ImportFetched | module-base/src/main/java/de/intranda/goobi/plugins/MigrateVisualLibraryToGoobiStepPlugin.java:302-332 | a failed anchor fetch ends the step unsaved; otherwise the saved document is the record imported into the document with the anchor record parsed in (`WithAnchor`), and the verdict is as in Finish; when the document is saved, the media folder is what the download run over the record's DEFAULT images makes of the old folder, or untouched without a DEFAULT group |
| Importer.Importer.FetchAndImport | module-base/src/main/java/de/intranda/goobi/plugins/MigrateVisualLibraryToGoobiStepPlugin.java:292-332 | a missing record ends the step unsaved; a saved document is `FetchedDoc` of the old one: the fetched record imported after the anchor record; when the document is saved, the media folder is what the download run over the record's DEFAULT images makes of the old folder, or untouched without a DEFAULT group |
| Importer.Importer.ImportIdentified | module-base/src/main/java/de/intranda/goobi/plugins/MigrateVisualLibraryToGoobiStepPlugin.java:272-332 | a saved document is `FetchedDoc` of the old one after `Cleared` when it had pages (with no pages left), or of the old one itself when it had none; when the document is saved, the media folder is what the download run over the record's DEFAULT images makes of the old folder, or untouched without a DEFAULT group |
| Importer.Importer.Execute | module-base/src/main/java/de/intranda/goobi/plugins/MigrateVisualLibraryToGoobiStepPlugin.java:244-334 | the document is written exactly when an identifier is set, the record is found, the anchor fetch did not fail and the write succeeds; what is written is `FetchedDoc` of `Prepared` of the document read, into `VolumeOf` it; the step succeeds exactly when it is written and every image arrives non-empty; when the document is saved, the media folder is what the download run over the record's DEFAULT images makes of the old folder, or untouched without a DEFAULT group |

## Left out

- The I/O is not modelled; each becomes an input:
  - reading the process's metadata file is the `doc` argument;
  - the OAI-PMH fetches are `Oai.Fetch` values;
  - the success of `writeMetadataFile` is `writeOk`;
  - the HTTP image transfers are a `Download.Fetcher`.
- File streams, directory creation and their `IOException`s are not modelled.
- `Thread.sleep` before the retry is not modelled.
- Logging and process-journal messages are not modelled.
- `initialize` is not modelled: configuration and ruleset loading are the constructor's arguments and `Rules.Ruleset`.
- The JUnit `testResponse` branch of `downloadImages` is not modelled, since it serves only the tests.
- The `FileSet.removeFile` call when clearing pages is not modelled: the model has no file set.
- Only the "to" references (element to page) are kept; the reverse "from" lists are implied by them.
- The Kitodo and DSpace variants of the plugin are not part of this model.
- Inputs on which the Java code throws are excluded by preconditions: a `NullPointerException`, or an `IndexOutOfBoundsException` from `get(0)`. Each predicate excludes one kind of input:
  - `Sections.FilesWellFormed`, through `RecordWellFormed`: a file of the DEFAULT group without FLocat (line 460).
  - `Pages.Identified`, through `RecordWellFormed`: a DEFAULT file without ID. The code dereferences the ID only while matching a page's fptr (line 522), so this is stricter than the code. METS requires an ID on every file, so valid records are not affected.
  - `Importer.SectionsWellFormed`, through `RecordWellFormed`, once a PHYSICAL structMap is found:
    - a PHYSICAL structMap without a div (line 513);
    - a missing LOGICAL structMap, one without a div, or a multi-volume top div without an inner div (lines 554-562);
    - a record without a structLink (line 590).
  - `Importer.MainWellFormed`, `Logical.DivWellFormed` and `Logical.DescribedWellFormed`:
    - a logical div without TYPE (`docType.toLowerCase()` at line 861, which `catch (UGHException)` does not catch);
    - a DMDID that names no dmdSec with a readable MODS record (lines 893-894, then 613).
  - `Mods.DmdWellFormed`: a dmdSec without mdWrap/xmlData/mods (line 613).
  - `Mods.PersonWellFormed`, through `NameWellFormed`: a personal name without a role (`switch` on null at line 659), or with a role that has no children (`get(0)` at line 654).
  - `Mods.OriginWellFormed`: a publication originInfo without a place (line 725).
  - `Mods.IdentifierWellFormed`: an identifier without a type (`switch` on null at line 765).
  - `Mods.RelatedItemWellFormed`: a series part without a detail (line 815).
  - `Oai.EnvelopeWellFormed`: a selected record without metadata (lines 963-964).
  - `Importer.AnchorSecsWellFormed`: an anchor dmdSec without a readable MODS record (line 309, then 613).
  - `Importer.DocWellFormed`: an anchor element without children, whose first child `execute` takes at line 256.
  - `Importer.ExecuteInputs`: anchor metadata for a document without an anchor, which would be parsed into a null element (line 309).
- XML namespaces (`mets`, `mods`, `xlink` and the OAI-PMH namespace) are not modelled. Elements and attributes are matched by local name only, so an element of the right name in another namespace would be taken as well.
- `importRecord`'s branch that creates a physical root when the document has none (lines 491-498) is not modelled. `execute` dereferences the physical root at line 274 before it gets there, so it cannot run.
- Importer.Importer.Execute: assumes the page map and id map start empty, as they do for a fresh plugin instance. `ImportIdentified`, `FetchAndImport`, `ImportFetched`, `Finish` and `ImportVolume` state the same assumption, so that the saved document is a function of the document before and the record.
- Xml.ToLower: folds ASCII letters only. Java's `String.toLowerCase` (line 861) uses the default locale's Unicode case mapping, so a TYPE with other upper-case letters, or under a locale such as Turkish, can map differently.
- Xml.EqualsIgnoreCase: compares with ASCII case folding only. Java's `equalsIgnoreCase` (line 560) also folds other Unicode letters.
- Rules.MdAllowed: the ruleset's acceptance of a metadata type is a fixed set of (structure type, metadata type) pairs. The ruleset's cardinality limits are not modelled, so a second TitleDocMain, say, is always accepted. `ApplyExactly` therefore holds only under this abstraction.
- Importer.Importer.ClearStructure: the removed sub-elements stay in the arena, unreachable from the volume.
- Download.Run: a retry that throws ends the run with failure. The model does not separate exceptions the outer `catch` handles from those it does not.
- Importer.Importer.CreateDocstruct: when `createDocStruct` itself throws, the Java code continues with a null element. The model always creates the element: a ruleset with the fallback types makes that path unreachable.
