/**
 * Reference bookkeeping over the node arena: which nodes lie below a node
 * (`getAllChildrenAsFlatList`), which pages the structLink gives each node,
 * and the deduplicating union `assignPagesToUpperElement` builds.
 */
module Refs {
  import opened Xml
  import opened Doc

  /** Children are stored after their parent: the arena is a forest, and walks down it end. */
  predicate Ordered(nodes: seq<Node>) {
    forall n, i :: 0 <= n < |nodes| && 0 <= i < |nodes[n].children| ==>
      n < nodes[n].children[i] < |nodes|
  }

  /** All nodes below `n`, each followed by the nodes below it (pre-order), `n` itself excluded. */
  function Flat(nodes: seq<Node>, n: nat): (r: seq<nat>)
    requires Ordered(nodes) && n < |nodes|
    ensures forall d :: d in r ==> n < d < |nodes|
    decreases |nodes| - n, 1, 0
  {
    FlatSeq(nodes, nodes[n].children, n)
  }

  function FlatSeq(nodes: seq<Node>, cs: seq<nat>, parent: nat): (r: seq<nat>)
    requires Ordered(nodes) && parent < |nodes|
    requires forall i :: 0 <= i < |cs| ==> parent < cs[i] < |nodes|
    ensures forall d :: d in r ==> parent < d < |nodes|
    decreases |nodes| - parent, 0, |cs|
  {
    if cs == [] then []
    else [cs[0]] + Flat(nodes, cs[0]) + FlatSeq(nodes, cs[1..], parent)
  }

  /** The flat list holds every child, and is closed under taking children. */
  lemma {:induction false} FlatClosed(nodes: seq<Node>, n: nat)
    requires Ordered(nodes) && n < |nodes|
    ensures forall c :: c in nodes[n].children ==> c in Flat(nodes, n)
    ensures forall d, c :: d in Flat(nodes, n) && c in nodes[d].children ==> c in Flat(nodes, n)
    decreases |nodes| - n, 1, 0
  {
    FlatSeqClosed(nodes, nodes[n].children, n);
  }

  lemma {:induction false} FlatSeqClosed(nodes: seq<Node>, cs: seq<nat>, parent: nat)
    requires Ordered(nodes) && parent < |nodes|
    requires forall i :: 0 <= i < |cs| ==> parent < cs[i] < |nodes|
    ensures forall c :: c in cs ==> c in FlatSeq(nodes, cs, parent)
    ensures forall d, c :: d in FlatSeq(nodes, cs, parent) && c in nodes[d].children ==> c in FlatSeq(nodes, cs, parent)
    decreases |nodes| - parent, 0, |cs|
  {
    if cs != [] {
      FlatClosed(nodes, cs[0]);
      FlatSeqClosed(nodes, cs[1..], parent);
      var r := FlatSeq(nodes, cs, parent);
      assert r == [cs[0]] + Flat(nodes, cs[0]) + FlatSeq(nodes, cs[1..], parent);
      forall c | c in cs ensures c in r {
        if c != cs[0] { assert c in cs[1..]; }
      }
      forall d, c | d in r && c in nodes[d].children ensures c in r {
        if d == cs[0] {
          assert c in Flat(nodes, cs[0]);
        }
      }
    }
  }

  /** The "to" references of the listed nodes, one node after the other. */
  function RefsOf(nodes: seq<Node>, ds: seq<nat>): (r: seq<nat>)
    requires forall d :: d in ds ==> d < |nodes|
    ensures forall d, t :: d in ds && t in nodes[d].refs ==> t in r
    ensures forall t :: t in r ==> exists d :: d in ds && t in nodes[d].refs
  {
    if ds == [] then []
    else
      var init := ds[..|ds| - 1];
      var last := ds[|ds| - 1];
      assert last in ds;
      assert forall d :: d in init ==> d in ds;
      assert forall d :: d in ds ==> d in init || d == last;
      RefsOf(nodes, init) + nodes[last].refs
  }

  /**
   * `acc` extended by every element of `add`, in order, that is not already
   * in it at the time it is considered.
   */
  function DedupUnion(acc: seq<nat>, add: seq<nat>): seq<nat> {
    if add == [] then acc
    else
      var r := DedupUnion(acc, add[..|add| - 1]);
      var t := add[|add| - 1];
      if t in r then r else r + [t]
  }

  /**
   * The union keeps `acc` as its prefix, holds every element of `add` and
   * nothing else, and what it adds is new and distinct.
   */
  lemma {:induction false} DedupUnionSpec(acc: seq<nat>, add: seq<nat>)
    ensures var r := DedupUnion(acc, add);
            && |acc| <= |r| && r[..|acc|] == acc
            && (forall t :: t in add ==> t in r)
            && (forall t :: t in r ==> t in acc || t in add)
            && (forall i :: |acc| <= i < |r| ==> r[i] !in acc)
            && (forall i, j :: |acc| <= i < j < |r| ==> r[i] != r[j])
  {
    if add != [] {
      var init := add[..|add| - 1];
      var t := add[|add| - 1];
      DedupUnionSpec(acc, init);
      var r := DedupUnion(acc, init);
      assert forall u :: u in add ==> u in init || u == t;
      assert forall u :: u in init ==> u in add;
      if t !in r {
        assert (r + [t])[..|acc|] == r[..|acc|];
      }
    }
  }

  /** One more target: added at the end exactly when it is not there yet. */
  lemma DedupUnionSnoc(acc: seq<nat>, add: seq<nat>, t: nat)
    ensures DedupUnion(acc, add + [t])
            == (var r := DedupUnion(acc, add); if t in r then r else r + [t])
  {
    assert (add + [t])[..|add|] == add;
  }

  /** One more node: its references come after those of the nodes before it. */
  lemma RefsOfSnoc(nodes: seq<Node>, ds: seq<nat>, d: nat)
    requires forall e :: e in ds ==> e < |nodes|
    requires d < |nodes|
    ensures RefsOf(nodes, ds + [d]) == RefsOf(nodes, ds) + nodes[d].refs
  {
    assert (ds + [d])[..|ds|] == ds;
  }

  /** Nothing already referenced is added twice, and a list without repeats stays without repeats. */
  lemma DedupUnionNoRepeats(acc: seq<nat>, add: seq<nat>)
    requires forall i, j :: 0 <= i < j < |acc| ==> acc[i] != acc[j]
    ensures var r := DedupUnion(acc, add);
            forall i, j :: 0 <= i < j < |r| ==> r[i] != r[j]
  {
    var r := DedupUnion(acc, add);
    DedupUnionSpec(acc, add);
    forall i, j | 0 <= i < j < |r| ensures r[i] != r[j] {
      if j < |acc| {
        assert r[i] == acc[i] && r[j] == acc[j];
      } else if i < |acc| {
        assert r[i] == acc[i];
        assert r[i] in acc;
      }
    }
  }

  /** Adding targets that are all present already changes nothing. */
  lemma {:induction false} DedupUnionPresent(acc: seq<nat>, add: seq<nat>)
    requires forall t :: t in add ==> t in acc
    ensures DedupUnion(acc, add) == acc
  {
    if add != [] {
      var init := add[..|add| - 1];
      assert forall u :: u in init ==> u in add;
      DedupUnionPresent(acc, init);
    }
  }

  /** The targets the structLink gives node `n`: each link whose from-id names `n` and whose to-id names a page. */
  function LinkTargets(links: seq<Elem>, docs: map<Option<string>, nat>, pages: map<Option<string>, nat>, n: nat): (r: seq<nat>)
    ensures forall t :: t in r ==> t in pages.Values
    ensures forall l :: l in links && Attr(l, "from") in docs && docs[Attr(l, "from")] == n && Attr(l, "to") in pages
                        ==> pages[Attr(l, "to")] in r
    ensures |r| <= |links|
  {
    if links == [] then []
    else
      var init := links[..|links| - 1];
      var l := links[|links| - 1];
      assert forall u :: u in links ==> u in init || u == l;
      var from, to := Attr(l, "from"), Attr(l, "to");
      LinkTargets(init, docs, pages, n)
      + (if from in docs && docs[from] == n && to in pages then [pages[to]] else [])
  }

  /** A link with an unresolved id contributes to no node. */
  lemma {:induction false} UnresolvedLinkIgnored(links: seq<Elem>, l: Elem, docs: map<Option<string>, nat>,
                                                 pages: map<Option<string>, nat>, n: nat)
    requires Attr(l, "from") !in docs || Attr(l, "to") !in pages
    ensures LinkTargets(links + [l], docs, pages, n) == LinkTargets(links, docs, pages, n)
  {
    assert (links + [l])[..|links|] == links;
  }

  /** `refs` without page `p`: what `removeReferenceTo(p)` leaves of a node's "to" references. */
  function Drop(refs: seq<nat>, p: nat): (r: seq<nat>)
    ensures forall t :: t in r <==> t in refs && t != p
    ensures |r| <= |refs|
  {
    if refs == [] then []
    else (if refs[0] == p then [] else [refs[0]]) + Drop(refs[1..], p)
  }

  /** Every node of the arena after the references to page `p` are removed. */
  function DropPage(nodes: seq<Node>, p: nat): (r: seq<Node>)
    ensures |r| == |nodes|
    ensures forall n :: 0 <= n < |nodes| ==> r[n] == nodes[n].(refs := Drop(nodes[n].refs, p))
  {
    seq(|nodes|, n requires 0 <= n < |nodes| => nodes[n].(refs := Drop(nodes[n].refs, p)))
  }

  /** The arena after the pages `ps` are detached one after the other. */
  function DropPages(nodes: seq<Node>, ps: seq<nat>): (r: seq<Node>)
    ensures |r| == |nodes|
  {
    if ps == [] then nodes else DropPage(DropPages(nodes, ps[..|ps| - 1]), ps[|ps| - 1])
  }

  /** Clearing the pages leaves every node as it was but for its references. */
  lemma {:induction false} DropPagesKeeps(nodes: seq<Node>, ps: seq<nat>, n: nat)
    requires n < |nodes|
    ensures var m := DropPages(nodes, ps)[n];
            m.kind == nodes[n].kind && m.fields == nodes[n].fields && m.persons == nodes[n].persons
            && m.children == nodes[n].children
  {
    if ps != [] {
      DropPagesKeeps(nodes, ps[..|ps| - 1], n);
    }
  }

  /** Clearing the pages removes exactly the references to them. */
  lemma {:induction false} DropPagesRefs(nodes: seq<Node>, ps: seq<nat>, n: nat, t: nat)
    requires n < |nodes|
    ensures t in DropPages(nodes, ps)[n].refs <==> t in nodes[n].refs && t !in ps
  {
    if ps != [] {
      var init := ps[..|ps| - 1];
      DropPagesRefs(nodes, init, n, t);
      assert t in ps <==> t in init || t == ps[|ps| - 1];
    }
  }

  /** Two arenas with the same child lists have the same flat lists. */
  lemma {:induction false} FlatSame(a: seq<Node>, b: seq<Node>, n: nat)
    requires Ordered(a) && Ordered(b) && |a| == |b| && n < |a|
    requires forall k :: 0 <= k < |a| ==> a[k].children == b[k].children
    ensures Flat(a, n) == Flat(b, n)
    decreases |a| - n, 1, 0
  {
    FlatSeqSame(a, b, a[n].children, n);
  }

  lemma {:induction false} FlatSeqSame(a: seq<Node>, b: seq<Node>, cs: seq<nat>, parent: nat)
    requires Ordered(a) && Ordered(b) && |a| == |b| && parent < |a|
    requires forall k :: 0 <= k < |a| ==> a[k].children == b[k].children
    requires forall i :: 0 <= i < |cs| ==> parent < cs[i] < |a|
    ensures FlatSeq(a, cs, parent) == FlatSeq(b, cs, parent)
    decreases |a| - parent, 0, |cs|
  {
    if cs != [] {
      FlatSame(a, b, cs[0]);
      FlatSeqSame(a, b, cs[1..], parent);
    }
  }

  /** The references of listed nodes depend only on those nodes. */
  lemma {:induction false} RefsOfSame(a: seq<Node>, b: seq<Node>, ds: seq<nat>)
    requires forall d :: d in ds ==> d < |a| && d < |b| && a[d].refs == b[d].refs
    ensures RefsOf(a, ds) == RefsOf(b, ds)
  {
    if ds != [] {
      var init := ds[..|ds| - 1];
      assert forall d :: d in init ==> d in ds;
      RefsOfSame(a, b, init);
    }
  }

  // linking: `addReferenceTo` for the structLink

  /** Every logical id registered names a node of the arena. */
  predicate IdsIn(docs: map<Option<string>, nat>, count: nat) {
    forall key :: key in docs ==> docs[key] < count
  }

  /** One structLink entry: a "to" reference from the node of `from` to the page of `to`, when both resolve. */
  function Link(nodes: seq<Node>, l: Elem, docs: map<Option<string>, nat>, pages: map<Option<string>, nat>): (r: seq<Node>)
    ensures |r| == |nodes|
  {
    var from, to := Attr(l, "from"), Attr(l, "to");
    if from in docs && docs[from] < |nodes| && to in pages then
      var n := docs[from];
      nodes[n := nodes[n].(refs := nodes[n].refs + [pages[to]])]
    else nodes
  }

  /** The arena after the structLink entries, one after the other. */
  function LinkAll(nodes: seq<Node>, links: seq<Elem>, docs: map<Option<string>, nat>, pages: map<Option<string>, nat>): (r: seq<Node>)
    ensures |r| == |nodes|
  {
    if links == [] then nodes
    else Link(LinkAll(nodes, links[..|links| - 1], docs, pages), links[|links| - 1], docs, pages)
  }

  /**
   * Linking only appends references: each node keeps everything else and
   * gains exactly the targets the structLink gives it, in structLink order.
   */
  lemma {:induction false} LinkAllRefs(nodes: seq<Node>, links: seq<Elem>, docs: map<Option<string>, nat>,
                                       pages: map<Option<string>, nat>, n: nat)
    requires IdsIn(docs, |nodes|) && n < |nodes|
    ensures LinkAll(nodes, links, docs, pages)[n] == nodes[n].(refs := nodes[n].refs + LinkTargets(links, docs, pages, n))
  {
    if links == [] {
      assert nodes[n].refs + [] == nodes[n].refs;
    } else {
      var init := links[..|links| - 1];
      var l := links[|links| - 1];
      LinkAllRefs(nodes, init, docs, pages, n);
      var from, to := Attr(l, "from"), Attr(l, "to");
      var extra := if from in docs && docs[from] == n && to in pages then [pages[to]] else [];
      assert LinkTargets(links, docs, pages, n) == LinkTargets(init, docs, pages, n) + extra;
      assert nodes[n].refs + LinkTargets(init, docs, pages, n) + extra == nodes[n].refs + LinkTargets(links, docs, pages, n);
    }
  }

  // aggregation: `assignPagesToUpperElement`

  /** The "to" references of node `v` after the targets of every node below it are merged in. */
  function Aggregated(nodes: seq<Node>, v: nat): seq<nat>
    requires Ordered(nodes) && v < |nodes|
  {
    DedupUnion(nodes[v].refs, RefsOf(nodes, Flat(nodes, v)))
  }

  /**
   * After aggregation node `v` refers to every page any node below it
   * refers to; its own references keep their places at the front; every
   * added target comes from below, was not referenced before and is added
   * once; a list without repeats stays without repeats.
   */
  lemma AggregatedComplete(nodes: seq<Node>, v: nat)
    requires Ordered(nodes) && v < |nodes|
    ensures var r := Aggregated(nodes, v);
            && |nodes[v].refs| <= |r| && r[..|nodes[v].refs|] == nodes[v].refs
            && (forall d, t :: d in Flat(nodes, v) && t in nodes[d].refs ==> t in r)
            && (forall i :: |nodes[v].refs| <= i < |r| ==>
                  r[i] !in nodes[v].refs && exists d :: d in Flat(nodes, v) && r[i] in nodes[d].refs)
            && (forall i, j :: |nodes[v].refs| <= i < j < |r| ==> r[i] != r[j])
    ensures (forall i, j :: 0 <= i < j < |nodes[v].refs| ==> nodes[v].refs[i] != nodes[v].refs[j])
            ==> (forall i, j :: 0 <= i < j < |Aggregated(nodes, v)| ==> Aggregated(nodes, v)[i] != Aggregated(nodes, v)[j])
  {
    var acc, add := nodes[v].refs, RefsOf(nodes, Flat(nodes, v));
    var r := DedupUnion(acc, add);
    DedupUnionSpec(acc, add);
    forall i | |acc| <= i < |r| ensures exists d :: d in Flat(nodes, v) && r[i] in nodes[d].refs {
      assert r[i] in r;
      assert r[i] in add;
    }
    if forall i, j :: 0 <= i < j < |acc| ==> acc[i] != acc[j] {
      DedupUnionNoRepeats(acc, add);
    }
  }

  /** Aggregating again adds nothing: every target below is already there. */
  lemma AggregatedIdempotent(nodes: seq<Node>, v: nat)
    requires Ordered(nodes) && v < |nodes|
    ensures var once := nodes[v := nodes[v].(refs := Aggregated(nodes, v))];
            Ordered(once) && Aggregated(once, v) == Aggregated(nodes, v)
  {
    var once := nodes[v := nodes[v].(refs := Aggregated(nodes, v))];
    assert Ordered(once);
    FlatSame(nodes, once, v);
    RefsOfSame(nodes, once, Flat(nodes, v));
    AggregatedComplete(nodes, v);
    DedupUnionPresent(Aggregated(nodes, v), RefsOf(once, Flat(once, v)));
  }
}
