/**
 * The logical structure built from the LOGICAL structMap, as functions:
 * the metadata a MODS record leaves on a structure element once the ruleset
 * has had its say, and the nodes, child lists and ID registrations that
 * `createDocstruct` produces for one div and everything below it. New nodes
 * are numbered in pre-order from the first free arena slot; the Importer's
 * methods are proved against these functions.
 */
module Logical {
  import opened Xml
  import opened Doc
  import opened Rules
  import opened Mods

  type DmdMap = map<Option<string>, Elem>
  type IdMap = map<Option<string>, nat>

  /**
   * The fields and persons each dmdSec's MODS record offers, by dmdSec ID;
   * a dmdSec without a readable MODS record has no entry.
   */
  type Records = map<Option<string>, seq<Entry>>

  /** The IDs of the dmdSecs with a readable MODS record. */
  function RecordIds(dmd: DmdMap): set<Option<string>> {
    set id | id in dmd && DmdWellFormed(dmd[id])
  }

  function RecordsOf(dmd: DmdMap): Records {
    map id | id in dmd && DmdWellFormed(dmd[id]) :: DmdEntries(dmd[id])
  }

  // applying offered metadata

  /** One `addMetadata`/`addPerson` call: kept when the ruleset allows the type on the node's structure type. */
  function AddEntry(rs: Ruleset, n: Node, e: Entry): Node {
    match e
    case Md(f) => if MdAllowed(rs, n.kind, f.mdType) then n.(fields := n.fields + [f]) else n
    case Pers(p) => if MdAllowed(rs, n.kind, p.role) then n.(persons := n.persons + [p]) else n
  }

  /** The node after the given attempts, in order. */
  function Apply(rs: Ruleset, n: Node, es: seq<Entry>): (r: Node)
    ensures r.kind == n.kind && r.children == n.children && r.refs == n.refs
    ensures |n.fields| <= |r.fields| && r.fields[..|n.fields|] == n.fields
    ensures |n.persons| <= |r.persons| && r.persons[..|n.persons|] == n.persons
  {
    if es == [] then n
    else
      var m := Apply(rs, n, es[..|es| - 1]);
      var r := AddEntry(rs, m, es[|es| - 1]);
      assert r.fields[..|m.fields|] == m.fields;
      assert r.persons[..|m.persons|] == m.persons;
      r
  }

  /** A node gains exactly the offered fields and persons its structure type allows. */
  lemma {:induction false} ApplyExactly(rs: Ruleset, n: Node, es: seq<Entry>)
    ensures forall f :: f in Apply(rs, n, es).fields <==> f in n.fields || (Md(f) in es && MdAllowed(rs, n.kind, f.mdType))
    ensures forall p :: p in Apply(rs, n, es).persons <==> p in n.persons || (Pers(p) in es && MdAllowed(rs, n.kind, p.role))
  {
    if es != [] {
      var init := es[..|es| - 1];
      ApplyExactly(rs, n, init);
      assert es == init + [es[|es| - 1]];
      assert forall e :: e in es <==> e in init || e == es[|es| - 1];
    }
  }

  /** Attempts can be applied in two batches: parsing a record is one attempt after the other. */
  lemma {:induction false} ApplyAppend(rs: Ruleset, n: Node, a: seq<Entry>, b: seq<Entry>)
    ensures Apply(rs, n, a + b) == Apply(rs, Apply(rs, n, a), b)
  {
    if b == [] {
      assert a + b == a;
    } else {
      var init := b[..|b| - 1];
      ApplyAppend(rs, n, a, init);
      assert (a + b)[..|a + b| - 1] == a + init;
      assert (a + b)[|a + b| - 1] == b[|b| - 1];
    }
  }

  // one div

  /**
   * The structure type of a div, resolved through the ruleset. Every div
   * the importer reaches has a TYPE (see `DivWellFormed`); the empty name
   * only makes the function total.
   */
  function KindOf(rs: Ruleset, div: Elem): string {
    ResolveType(rs, if Attr(div, "TYPE").Some? then Attr(div, "TYPE").value else "")
  }

  /**
   * What `createDocstruct` reads without a null check: every div has a TYPE,
   * and a non-blank DMDID names a dmdSec with a readable MODS record.
   */
  predicate DivWellFormed(div: Elem, ids: set<Option<string>>)
    decreases div, 1
  {
    && Attr(div, "TYPE").Some?
    && DescribedWellFormed(div, ids)
    && SubsWellFormed(div, ids)
  }

  /** Every div among the children of `div` is well formed. */
  predicate SubsWellFormed(div: Elem, ids: set<Option<string>>)
    decreases div, 0
  {
    forall i :: 0 <= i < |div.children| && div.children[i].name == "div" ==> DivWellFormed(div.children[i], ids)
  }

  /** A non-blank DMDID names a dmdSec with a readable MODS record. */
  predicate DescribedWellFormed(div: Elem, ids: set<Option<string>>) {
    IsNotBlank(Attr(div, "DMDID")) ==> Attr(div, "DMDID") in ids
  }

  /** The div is attached: `addChild` accepts its type below the parent's. */
  predicate Attached(rs: Ruleset, div: Elem, parentKind: string) {
    ChildAllowed(rs, parentKind, KindOf(rs, div))
  }

  /** The `_urn` field for CONTENTIDS, when given and allowed. */
  function WithUrn(rs: Ruleset, n: Node, div: Elem): (r: Node)
    ensures r.kind == n.kind && r.children == n.children && r.refs == n.refs && r.persons == n.persons
    ensures |n.fields| <= |r.fields| <= |n.fields| + 1 && r.fields[..|n.fields|] == n.fields
    ensures |r.fields| > |n.fields| <==> IsNotBlank(Attr(div, "CONTENTIDS")) && MdAllowed(rs, n.kind, "_urn")
    ensures |r.fields| > |n.fields| ==> r.fields[|n.fields|] == Field("_urn", Attr(div, "CONTENTIDS"))
  {
    if IsNotBlank(Attr(div, "CONTENTIDS")) && MdAllowed(rs, n.kind, "_urn")
    then n.(fields := n.fields + [Field("_urn", Attr(div, "CONTENTIDS"))])
    else n
  }

  /** The offers behind a DMDID; a well-formed div only names dmdSecs that have them. */
  function RecordFor(recs: Records, id: Option<string>): seq<Entry> {
    if id in recs then recs[id] else []
  }

  /**
   * The metadata of an attached div: its MODS record when it has a DMDID,
   * otherwise its LABEL as main title; then the URN. A rejected title ends
   * the attempt before the URN.
   */
  function Described(rs: Ruleset, div: Elem, kind: string, recs: Records): (r: Node)
    ensures r.kind == kind && r.children == [] && r.refs == []
  {
    var empty := Node(kind, [], [], [], []);
    if IsNotBlank(Attr(div, "DMDID")) then WithUrn(rs, Apply(rs, empty, RecordFor(recs, Attr(div, "DMDID"))), div)
    else if IsNotBlank(Attr(div, "LABEL")) then
      if MdAllowed(rs, kind, "TitleDocMain")
      then WithUrn(rs, empty.(fields := [Field("TitleDocMain", Attr(div, "LABEL"))]), div)
      else empty
    else WithUrn(rs, empty, div)
  }

  /** The new node for a div, before its children are added; a detached one gets no metadata. */
  function Head(rs: Ruleset, div: Elem, parentKind: string, recs: Records): (r: Node)
    ensures r.kind == KindOf(rs, div) && r.children == [] && r.refs == []
  {
    var kind := KindOf(rs, div);
    if Attached(rs, div, parentKind) then Described(rs, div, kind, recs) else Node(kind, [], [], [], [])
  }

  /** A div whose type the parent rejects is built, but stays bare. */
  lemma HeadDetached(rs: Ruleset, div: Elem, parentKind: string, recs: Records)
    requires !Attached(rs, div, parentKind)
    ensures Head(rs, div, parentKind, recs).fields == [] && Head(rs, div, parentKind, recs).persons == []
  {
  }

  /** With a DMDID, the node carries exactly the allowed part of its MODS record, then possibly the URN. */
  lemma HeadFromMods(rs: Ruleset, div: Elem, parentKind: string, recs: Records)
    requires Attached(rs, div, parentKind) && IsNotBlank(Attr(div, "DMDID")) && Attr(div, "DMDID") in recs
    ensures var h := Head(rs, div, parentKind, recs);
            var es := recs[Attr(div, "DMDID")];
            (forall f :: f in h.fields ==> (Md(f) in es && MdAllowed(rs, h.kind, f.mdType)) || f == Field("_urn", Attr(div, "CONTENTIDS")))
            && (forall f :: Md(f) in es && MdAllowed(rs, h.kind, f.mdType) ==> f in h.fields)
            && (forall p :: p in h.persons <==> Pers(p) in es && MdAllowed(rs, h.kind, p.role))
  {
    var empty := Node(KindOf(rs, div), [], [], [], []);
    ApplyExactly(rs, empty, recs[Attr(div, "DMDID")]);
  }

  /** Without a DMDID, the LABEL becomes the main title exactly when it is given and allowed. */
  lemma HeadTitle(rs: Ruleset, div: Elem, parentKind: string, recs: Records)
    requires Attached(rs, div, parentKind) && IsBlank(Attr(div, "DMDID"))
    ensures var h := Head(rs, div, parentKind, recs);
            (Field("TitleDocMain", Attr(div, "LABEL")) in h.fields)
            <==> IsNotBlank(Attr(div, "LABEL")) && MdAllowed(rs, h.kind, "TitleDocMain")
    ensures Head(rs, div, parentKind, recs).persons == []
  {
  }

  /** A rejected main title also costs the URN: nothing at all is added. */
  lemma HeadTitleRejected(rs: Ruleset, div: Elem, parentKind: string, recs: Records)
    requires Attached(rs, div, parentKind) && IsBlank(Attr(div, "DMDID"))
    requires IsNotBlank(Attr(div, "LABEL")) && !MdAllowed(rs, KindOf(rs, div), "TitleDocMain")
    ensures Head(rs, div, parentKind, recs).fields == []
  {
  }

  // the subtree of one div
  //
  // `createDocstruct` walks `getChildren("div")`; the functions below walk
  // all children of a div by position and pass over those that are not
  // divs, which visits the same divs in the same order.

  /** The number of nodes `createDocstruct` creates for `div`: itself and every div below it. */
  function Size(div: Elem): (r: nat)
    ensures r >= 1
    decreases div, 1, 0
  {
    1 + SizeSeq(div, |div.children|)
  }

  /** The nodes created for the divs among the first `n` children of `div`. */
  function SizeSeq(div: Elem, n: nat): nat
    requires n <= |div.children|
    decreases div, 0, n
  {
    if n == 0 then 0
    else SizeSeq(div, n - 1) + (if div.children[n - 1].name == "div" then Size(div.children[n - 1]) else 0)
  }

  /** Every child id stored in `r[k]` lies after `c + k` and below `hi`. */
  predicate Bounded(r: seq<Node>, c: nat, hi: nat) {
    forall k, i :: 0 <= k < |r| && 0 <= i < |r[k].children| ==> c + k < r[k].children[i] < hi
  }

  lemma BoundedJoin(a: seq<Node>, b: seq<Node>, c: nat, ha: nat, hb: nat, hi: nat)
    requires Bounded(a, c, ha) && Bounded(b, c + |a|, hb) && ha <= hi && hb <= hi
    ensures Bounded(a + b, c, hi)
  {
    forall k, i | 0 <= k < |a + b| && 0 <= i < |(a + b)[k].children| ensures c + k < (a + b)[k].children[i] < hi {
      if k >= |a| {
        assert (a + b)[k] == b[k - |a|];
      }
    }
  }

  lemma BoundedSingle(n: Node, c: nat, hi: nat)
    requires forall i :: 0 <= i < |n.children| ==> c < n.children[i] < hi
    ensures Bounded([n], c, hi)
  {
  }

  /** Fresh nodes refer to no page yet. */
  predicate NoRefs(r: seq<Node>) {
    forall k :: 0 <= k < |r| ==> r[k].refs == []
  }

  lemma NoRefsJoin(a: seq<Node>, b: seq<Node>)
    requires NoRefs(a) && NoRefs(b)
    ensures NoRefs(a + b)
  {
    forall k | 0 <= k < |a + b| ensures (a + b)[k].refs == [] {
      if k >= |a| {
        assert (a + b)[k] == b[k - |a|];
      }
    }
  }

  /**
   * The ids the divs among the first `n` children get as children of a node
   * of type `kind`: ids follow pre-order from `base`, and a div takes a place
   * in the list only when `addChild` accepts it.
   */
  function ChildIds(rs: Ruleset, div: Elem, n: nat, base: nat, kind: string): (r: seq<nat>)
    requires n <= |div.children|
    ensures |r| <= n
    ensures forall i :: 0 <= i < |r| ==> base <= r[i] < base + SizeSeq(div, n)
  {
    if n == 0 then []
    else
      var sub := div.children[n - 1];
      ChildIds(rs, div, n - 1, base, kind)
      + (if sub.name == "div" && Attached(rs, sub, kind) then [base + SizeSeq(div, n - 1)] else [])
  }

  /** The nodes `createDocstruct(div, parent)` appends, numbered from `c` in pre-order. */
  function Tree(rs: Ruleset, div: Elem, c: nat, parentKind: string, recs: Records): (r: seq<Node>)
    ensures |r| == Size(div)
    decreases div, 1, 0
  {
    var kind := KindOf(rs, div);
    [Head(rs, div, parentKind, recs).(children := ChildIds(rs, div, |div.children|, c + 1, kind))]
    + TreeSeq(rs, div, |div.children|, c + 1, kind, recs)
  }

  /** The nodes for the divs among the first `n` children, one subtree after the other from `base`. */
  function TreeSeq(rs: Ruleset, div: Elem, n: nat, base: nat, kind: string, recs: Records): (r: seq<Node>)
    requires n <= |div.children|
    ensures |r| == SizeSeq(div, n)
    decreases div, 0, n
  {
    if n == 0 then []
    else
      var sub := div.children[n - 1];
      TreeSeq(rs, div, n - 1, base, kind, recs)
      + (if sub.name == "div" then Tree(rs, sub, base + SizeSeq(div, n - 1), kind, recs) else [])
  }

  /** A block of fresh nodes numbered from `c`: forward child ids below `hi`, no page references. */
  predicate Block(r: seq<Node>, c: nat, hi: nat) {
    Bounded(r, c, hi) && NoRefs(r)
  }

  /** Two adjacent blocks form one. */
  lemma BlockJoin(a: seq<Node>, b: seq<Node>, c: nat, ha: nat, hb: nat, hi: nat)
    requires Block(a, c, ha) && Block(b, c + |a|, hb) && ha <= hi && hb <= hi
    ensures Block(a + b, c, hi)
  {
    BoundedJoin(a, b, c, ha, hb, hi);
    NoRefsJoin(a, b);
  }

  /** A subtree only points forward, inside itself, and refers to no page. */
  lemma {:induction false} TreeShape(rs: Ruleset, div: Elem, c: nat, parentKind: string, recs: Records)
    ensures Block(Tree(rs, div, c, parentKind, recs), c, c + Size(div))
    decreases div, 1, 0
  {
    var kind := KindOf(rs, div);
    var head := Head(rs, div, parentKind, recs).(children := ChildIds(rs, div, |div.children|, c + 1, kind));
    var rest := TreeSeq(rs, div, |div.children|, c + 1, kind, recs);
    TreeSeqShape(rs, div, |div.children|, c + 1, kind, recs);
    BoundedSingle(head, c, c + 1 + |rest|);
    BlockJoin([head], rest, c, c + 1 + |rest|, c + 1 + |rest|, c + 1 + |rest|);
  }

  lemma {:induction false} TreeSeqShape(rs: Ruleset, div: Elem, n: nat, base: nat, kind: string, recs: Records)
    requires n <= |div.children|
    ensures Block(TreeSeq(rs, div, n, base, kind, recs), base, base + SizeSeq(div, n))
    decreases div, 0, n
  {
    if n > 0 {
      var sub := div.children[n - 1];
      var mid := base + SizeSeq(div, n - 1);
      var a := TreeSeq(rs, div, n - 1, base, kind, recs);
      assert Block(a, base, mid) by {
        TreeSeqShape(rs, div, n - 1, base, kind, recs);
      }
      if sub.name == "div" {
        var b := Tree(rs, sub, mid, kind, recs);
        assert Block(b, mid, mid + Size(sub)) by {
          TreeShape(rs, sub, mid, kind, recs);
        }
        assert TreeSeq(rs, div, n, base, kind, recs) == a + b;
        BlockJoin(a, b, base, mid, mid + Size(sub), base + SizeSeq(div, n));
      } else {
        assert TreeSeq(rs, div, n, base, kind, recs) == a + [];
        assert a + [] == a;
      }
    }
  }

  /** `docstructMap` after `createDocstruct`: attached divs are registered under their ID, in pre-order. */
  function Reg(rs: Ruleset, m: IdMap, div: Elem, c: nat, parentKind: string, recs: Records): IdMap
    decreases div, 1, 0
  {
    var m1 := if Attached(rs, div, parentKind) then m[Attr(div, "ID") := c] else m;
    RegSeq(rs, m1, div, |div.children|, c + 1, KindOf(rs, div), recs)
  }

  function RegSeq(rs: Ruleset, m: IdMap, div: Elem, n: nat, base: nat, kind: string, recs: Records): IdMap
    requires n <= |div.children|
    decreases div, 0, n
  {
    if n == 0 then m
    else
      var sub := div.children[n - 1];
      var prev := RegSeq(rs, m, div, n - 1, base, kind, recs);
      if sub.name == "div" then Reg(rs, prev, sub, base + SizeSeq(div, n - 1), kind, recs) else prev
  }

  /** Registration keeps every id it had and adds only ids of the subtree's own nodes. */
  lemma {:induction false} RegRange(rs: Ruleset, m: IdMap, div: Elem, c: nat, parentKind: string, recs: Records)
    ensures var r := Reg(rs, m, div, c, parentKind, recs);
            m.Keys <= r.Keys && forall key :: key in r ==> (key in m && r[key] == m[key]) || c <= r[key] < c + Size(div)
    decreases div, 1, 0
  {
    var m1 := if Attached(rs, div, parentKind) then m[Attr(div, "ID") := c] else m;
    RegSeqRange(rs, m1, div, |div.children|, c + 1, KindOf(rs, div), recs);
  }

  lemma {:induction false} RegSeqRange(rs: Ruleset, m: IdMap, div: Elem, n: nat, base: nat, kind: string, recs: Records)
    requires n <= |div.children|
    ensures var r := RegSeq(rs, m, div, n, base, kind, recs);
            m.Keys <= r.Keys && forall key :: key in r ==> (key in m && r[key] == m[key]) || base <= r[key] < base + SizeSeq(div, n)
    decreases div, 0, n
  {
    if n > 0 {
      var sub := div.children[n - 1];
      RegSeqRange(rs, m, div, n - 1, base, kind, recs);
      if sub.name == "div" {
        RegRange(rs, RegSeq(rs, m, div, n - 1, base, kind, recs), sub, base + SizeSeq(div, n - 1), kind, recs);
      }
    }
  }

  /** An attached div is registered under its ID unless a later div below it reuses the ID. */
  lemma RegAttached(rs: Ruleset, m: IdMap, div: Elem, c: nat, parentKind: string, recs: Records)
    requires Attached(rs, div, parentKind)
    ensures Attr(div, "ID") in Reg(rs, m, div, c, parentKind, recs)
  {
    RegSeqRange(rs, m[Attr(div, "ID") := c], div, |div.children|, c + 1, KindOf(rs, div), recs);
  }
}
