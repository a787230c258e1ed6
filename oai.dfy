/**
 * `getRecord`: how the METS document is picked out of the OAI-PMH envelope
 * returned for an identifier. The HTTP fetch itself is an input.
 */
module Oai {
  import opened Xml

  /** What the HTTP fetch of `downloadUrl + identifier` gave: a parsed envelope, or an I/O error. */
  datatype Fetch = Fetched(envelope: Elem) | FetchError

  datatype RecordResult = Record(mets: Elem) | NoRecord | RecordError

  /** The last element of `es` with the given name. */
  function LastNamed(es: seq<Elem>, name: string): Option<Elem> {
    if es == [] then None
    else if es[|es| - 1].name == name then Some(es[|es| - 1])
    else LastNamed(es[..|es| - 1], name)
  }

  /** `LastNamed` finds nothing exactly when no element has the name, and otherwise the last one that has it. */
  lemma {:induction false} LastNamedSpec(es: seq<Elem>, name: string)
    ensures var r := LastNamed(es, name);
            (r.None? <==> forall k :: 0 <= k < |es| ==> es[k].name != name)
            && (r.Some? ==> exists k :: 0 <= k < |es| && es[k] == r.value && es[k].name == name
                                        && forall j :: k < j < |es| ==> es[j].name != name)
  {
    if es != [] && es[|es| - 1].name != name {
      var init := es[..|es| - 1];
      LastNamedSpec(init, name);
      assert forall k :: 0 <= k < |init| ==> init[k] == es[k];
      var r := LastNamed(init, name);
      if r.Some? {
        var k :| 0 <= k < |init| && init[k] == r.value && init[k].name == name
                 && forall j :: k < j < |init| ==> init[j].name != name;
        assert es[k] == r.value && forall j :: k < j < |es| ==> es[j].name != name;
      }
    }
  }

  /** The `record` that `getRecord` picks, if any: the last one under `GetRecord`. */
  function PickedRecord(envelope: Elem): Option<Elem> {
    var gr := Child(envelope, "GetRecord");
    if gr.Some? then LastNamed(gr.value.children, "record") else None
  }

  /** Java reads `record/metadata` without a null check. */
  predicate EnvelopeWellFormed(envelope: Elem) {
    PickedRecord(envelope).Some? ==> Child(PickedRecord(envelope).value, "metadata").Some?
  }

  /**
   * The METS element of the envelope: `GetRecord/record/metadata/mets` of the
   * last record; none when there is no GetRecord, no record (an `error`
   * element is only logged) or no mets.
   */
  function SelectRecord(envelope: Elem): (r: Option<Elem>)
    requires EnvelopeWellFormed(envelope)
    ensures Child(envelope, "GetRecord").None? ==> r.None?
    ensures PickedRecord(envelope).None? ==> r.None?
    ensures r.Some? ==> r.value.name == "mets"
  {
    var rec := PickedRecord(envelope);
    if rec.Some? then
      var metadata := Child(rec.value, "metadata").value;
      FirstNamedSpec(metadata.children, "mets");
      Child(metadata, "mets")
    else None
  }

  /** Of several `record` elements the last one wins. */
  lemma SelectRecordPicksLast(envelope: Elem, k: nat)
    requires Child(envelope, "GetRecord").Some?
    requires var es := Child(envelope, "GetRecord").value.children;
             k < |es| && es[k].name == "record" && Child(es[k], "metadata").Some?
             && forall j :: k < j < |es| ==> es[j].name != "record"
    ensures EnvelopeWellFormed(envelope)
    ensures var rec := Child(envelope, "GetRecord").value.children[k];
            SelectRecord(envelope) == Child(Child(rec, "metadata").value, "mets")
  {
    var es := Child(envelope, "GetRecord").value.children;
    var r := LastNamed(es, "record");
    LastNamedSpec(es, "record");
    var k' :| 0 <= k' < |es| && es[k'] == r.value && es[k'].name == "record"
              && forall j :: k' < j < |es| ==> es[j].name != "record";
    assert k' == k;
  }

  /** `getRecord(identifier)`: a blank identifier fetches nothing; a failed fetch throws. */
  function GetRecord(identifier: Option<string>, fetch: Fetch): (r: RecordResult)
    requires fetch.Fetched? ==> EnvelopeWellFormed(fetch.envelope)
    ensures IsBlank(identifier) ==> r == NoRecord
    ensures IsNotBlank(identifier) && fetch.FetchError? ==> r == RecordError
    ensures IsNotBlank(identifier) && fetch.Fetched? ==>
              (r.Record? <==> SelectRecord(fetch.envelope).Some?)
    ensures r.Record? ==> fetch.Fetched? && r.mets == SelectRecord(fetch.envelope).value && r.mets.name == "mets"
  {
    if IsBlank(identifier) then NoRecord
    else if fetch.FetchError? then RecordError
    else
      var m := SelectRecord(fetch.envelope);
      if m.Some? then Record(m.value) else NoRecord
  }
}
