/**
 * What the importer takes from the destination ruleset: the METS type to
 * internal type table, the structure types it knows, which of them are
 * anchors, and which metadata and child types each structure type accepts.
 * Loading the ruleset is not modelled; it is given as data.
 */
module Rules {
  import opened Xml

  datatype Ruleset = Ruleset(
    /** lower-cased `MetsType` mapped to `InternalName` */
    typeNames: map<string, string>,
    /** the structure type names `getDocStrctTypeByName` resolves */
    docTypes: set<string>,
    anchorTypes: set<string>,
    /** (structure type, metadata or person type) pairs that `addMetadata`/`addPerson` accept */
    mdAllowed: set<(string, string)>,
    /** (parent type, child type) pairs that `addChild` accepts */
    childAllowed: set<(string, string)>)

  /** The two fallback types the importer looks up at initialisation exist. */
  predicate HasFallbacks(rs: Ruleset) {
    "Cover" in rs.docTypes && "OtherDocStrct" in rs.docTypes
  }

  predicate MdAllowed(rs: Ruleset, kind: string, mdType: string) {
    (kind, mdType) in rs.mdAllowed
  }

  predicate ChildAllowed(rs: Ruleset, parent: string, child: string) {
    (parent, child) in rs.childAllowed
  }

  /** The ruleset entry for a METS type, when it names a known structure type. */
  function RulesetType(rs: Ruleset, docType: string): (r: Option<string>)
    ensures r.Some? ==> r.value in rs.docTypes && ToLower(docType) in rs.typeNames
                        && r.value == rs.typeNames[ToLower(docType)]
    ensures ToLower(docType) in rs.typeNames && IsNotBlank(Some(rs.typeNames[ToLower(docType)]))
            && rs.typeNames[ToLower(docType)] in rs.docTypes
            ==> r == Some(rs.typeNames[ToLower(docType)])
  {
    var name := if ToLower(docType) in rs.typeNames then Some(rs.typeNames[ToLower(docType)]) else None;
    if IsNotBlank(name) && name.value in rs.docTypes then name else None
  }

  /**
   * The structure type of a logical div: the ruleset's type for the
   * lower-cased TYPE; failing that, Cover for the two cover synonyms (matched
   * case-sensitively) and OtherDocStrct for everything else.
   */
  function ResolveType(rs: Ruleset, docType: string): string {
    var fromRuleset := RulesetType(rs, docType);
    if fromRuleset.Some? then fromRuleset.value
    else if docType == "cover_front" || docType == "cover_back" then "Cover"
    else "OtherDocStrct"
  }

  /**
   * The ruleset's type wins; the cover synonyms fall back to Cover and every
   * other TYPE to OtherDocStrct, so a ruleset with both fallbacks always
   * yields a known type.
   */
  lemma ResolveTypeCases(rs: Ruleset, docType: string)
    ensures HasFallbacks(rs) ==> ResolveType(rs, docType) in rs.docTypes
    ensures RulesetType(rs, docType).Some? ==> ResolveType(rs, docType) == RulesetType(rs, docType).value
    ensures RulesetType(rs, docType).None? && docType in {"cover_front", "cover_back"} ==> ResolveType(rs, docType) == "Cover"
    ensures RulesetType(rs, docType).None? && docType !in {"cover_front", "cover_back"} ==> ResolveType(rs, docType) == "OtherDocStrct"
  {
  }
}
