/** The edges a reaction adds between atoms of its educts and products: the
    reaction_id bookkeeping they share, the reaction linker, and the pass
    that decides the direction of every reaction edge at the end. */
module Linking {
  import opened Common
  import opened AtnTypes
  import opened Paths
  import opened Network

  /** The graph part of the network, as a value. */
  datatype Graph = Graph(nodes: map<string, NodeAttrs>, edges: map<EdgeKey, EdgeAttrs>)

  /** The ids recorded for orientation `o`, none if the key is absent. */
  function IdsAt(ids: ReactionIds, o: (string, string)): seq<nat>
  {
    if o in ids then ids[o] else []
  }

  /** The reaction_id dictionary of edge `k`, empty when there is none. */
  function EdgeIds(edges: map<EdgeKey, EdgeAttrs>, k: EdgeKey): ReactionIds
  {
    if k in edges && edges[k].reactionId.Some? then edges[k].reactionId.value else map[]
  }

  /** The reaction_id after `rid` is appended to the (a, b) key and, when
      `back`, to the (b, a) key: nothing recorded before is lost. */
  function AddIds(ids: ReactionIds, a: string, b: string, rid: nat, back: bool): (r: ReactionIds)
    ensures r.Keys == ids.Keys + {(a, b)} + (if back then {(b, a)} else {})
    ensures a != b ==> r[(a, b)] == IdsAt(ids, (a, b)) + [rid]
    ensures a != b ==> IdsAt(r, (b, a)) == IdsAt(ids, (b, a)) + (if back then [rid] else [])
    ensures a == b ==> r[(a, a)] == IdsAt(ids, (a, a)) + (if back then [rid, rid] else [rid])
    ensures forall o :: o != (a, b) && o != (b, a) ==> IdsAt(r, o) == IdsAt(ids, o)
  {
    var once := AppendId(ids, (a, b), rid);
    if back then AppendId(once, (b, a), rid) else once
  }

  /** The edge a-b as the append finds it: networkx creates a missing one, and
      the builder gives it the transition `made` and an empty reaction_id. */
  function Existing(edges: map<EdgeKey, EdgeAttrs>, a: string, b: string, made: Transition): EdgeAttrs
  {
    if Key(a, b) in edges then edges[Key(a, b)] else NoAttrs.(transition := Some(made), reactionId := Some(map[]))
  }

  /** Adds reaction `rid` to the edge a-b (04:330-343 for HydrogenReaction
      edges, 04:364-376 for Reaction edges). An existing edge without a
      reaction_id makes the lookup fail (KeyError): None. */
  function AddReactionId(edges: map<EdgeKey, EdgeAttrs>, a: string, b: string, rid: nat, back: bool, made: Transition)
    : (r: Option<map<EdgeKey, EdgeAttrs>>)
    ensures r.None? <==> Key(a, b) in edges && edges[Key(a, b)].reactionId.None?
  {
    var e := Existing(edges, a, b, made);
    if e.reactionId.None? then None
    else Some(edges[Key(a, b) := e.(reactionId := Some(AddIds(e.reactionId.value, a, b, rid, back)))])
  }

  /** What the append does: the edge a-b exists afterwards, with its other
      attributes (or the transition `made` if it is new), and with `rid`
      appended to its ids; no other edge changes. */
  lemma AddReactionIdEffect(edges: map<EdgeKey, EdgeAttrs>, a: string, b: string, rid: nat, back: bool, made: Transition)
    requires AddReactionId(edges, a, b, rid, back, made).Some?
    ensures var r := AddReactionId(edges, a, b, rid, back, made).value;
      && r.Keys == edges.Keys + {Key(a, b)}
      && (forall k :: k in edges && k != Key(a, b) ==> r[k] == edges[k])
      && r[Key(a, b)].transition == (if Key(a, b) in edges then edges[Key(a, b)].transition else Some(made))
      && r[Key(a, b)].reactionId == Some(AddIds(EdgeIds(edges, Key(a, b)), a, b, rid, back))
  {
  }

  /** Writing one edge keeps the shape of the network when the edge joins
      nodes and is shaped as EdgeShape asks. */
  lemma ShapeAfterWrite(nodes: map<string, NodeAttrs>, edges: map<EdgeKey, EdgeAttrs>, k: EdgeKey, v: EdgeAttrs)
    requires EdgeShape(nodes, edges) && k <= nodes.Keys && 0 < |k| <= 2
    requires v.transition.Some? && CarriesIds(v) && (v.reactionId.Some? ==> Orientations(k, v.reactionId.value))
    ensures EdgeShape(nodes, edges[k := v])
  {
  }

  lemma AddIdsOrientations(k: EdgeKey, ids: ReactionIds, a: string, b: string, rid: nat, back: bool)
    requires Orientations(k, ids) && Key(a, b) == k
    ensures Orientations(k, AddIds(ids, a, b, rid, back))
  {
    var r := AddIds(ids, a, b, rid, back);
    forall o | o in r ensures Key(o.0, o.1) == k {
      if o != (a, b) && o != (b, a) {
        assert IdsAt(r, o) == IdsAt(ids, o);
        assert o in ids;
      }
    }
  }

  lemma AddReactionIdShape(nodes: map<string, NodeAttrs>, edges: map<EdgeKey, EdgeAttrs>, a: string, b: string,
                           rid: nat, back: bool, made: Transition)
    requires EdgeShape(nodes, edges) && a in nodes && b in nodes
    requires AddReactionId(edges, a, b, rid, back, made).Some?
    ensures EdgeShape(nodes, AddReactionId(edges, a, b, rid, back, made).value)
  {
    var k := Key(a, b);
    var e := Existing(edges, a, b, made);
    var ids := AddIds(e.reactionId.value, a, b, rid, back);
    KeyNonEmpty(a, b);
    AddIdsOrientations(k, e.reactionId.value, a, b, rid, back);
    ShapeAfterWrite(nodes, edges, k, e.(reactionId := Some(ids)));
  }

  // ---------------------------------------------------------------------------
  // The reaction linker
  // ---------------------------------------------------------------------------

  predicate Boundary(name: string)
  {
    EndsWith(name, "_in") || EndsWith(name, "_out")
  }

  /** Whether the backward key gets the id (04:372): only for a reversible
      reaction neither of whose compounds is a high-concentration copy. The
      names are looked up lazily, n2's first; a missing compound_name is a
      KeyError (None). */
  function Backward(nodes: map<string, NodeAttrs>, n1: string, n2: string, reversible: bool): (r: Option<bool>)
    requires n1 in nodes && n2 in nodes
    ensures r == Some(true) <==>
      reversible && nodes[n1].compoundName.Some? && nodes[n2].compoundName.Some?
      && !Boundary(nodes[n1].compoundName.value) && !Boundary(nodes[n2].compoundName.value)
    ensures r.None? <==>
      reversible && (nodes[n2].compoundName.None?
                     || (!Boundary(nodes[n2].compoundName.value) && nodes[n1].compoundName.None?))
  {
    if !reversible then Some(false)
    else if nodes[n2].compoundName.None? then None
    else if Boundary(nodes[n2].compoundName.value) then Some(false)
    else if nodes[n1].compoundName.None? then None
    else Some(!Boundary(nodes[n1].compoundName.value))
  }

  /** Both atoms are nodes carrying a compound id (what 04:361 looks up). */
  predicate Stamped2(nodes: map<string, NodeAttrs>, n1: string, n2: string)
  {
    n1 in nodes && n2 in nodes && nodes[n1].compoundId.Some? && nodes[n2].compoundId.Some?
  }

  /** The linker's loop body (04:356-376) for class `c` of the educt side:
      the atom it maps to on the educt side is joined to the one on the
      product side, unless both belong to the same compound. A class missing
      on the product side, an atom that is not a node or lacks a compound
      id, and an existing edge without reaction_id all raise KeyError: None. */
  function LinkClass(g: Graph, educt: map<int, string>, product: map<int, string>, c: int, rid: nat, reversible: bool)
    : (r: Option<Graph>)
    requires c in educt
    ensures r.Some? ==> c in product && Stamped2(g.nodes, educt[c], product[c]) && r.value.nodes == g.nodes
    ensures (c in product && Stamped2(g.nodes, educt[c], product[c])
             && g.nodes[educt[c]].compoundId == g.nodes[product[c]].compoundId) ==> r == Some(g)
  {
    if c !in product || !Stamped2(g.nodes, educt[c], product[c]) then None
    else
      var n1, n2 := educt[c], product[c];
      if g.nodes[n1].compoundId == g.nodes[n2].compoundId then Some(g)
      else
        assert n1 != n2;
        match Backward(g.nodes, n1, n2, reversible)
        case None => None
        case Some(back) =>
          match AddReactionId(g.edges, n1, n2, rid, back, Reaction)
          case None => None
          case Some(edges) => Some(Graph(g.nodes, edges))
  }

  /** A linked pair of atoms from different compounds: the edge exists, is a
      Reaction edge unless it existed before, its forward key ends with this
      reaction's id, and its backward key gains the id exactly when Backward
      says so; earlier ids are kept and no other edge changes. */
  lemma LinkClassEffect(g: Graph, educt: map<int, string>, product: map<int, string>, c: int, rid: nat, reversible: bool)
    requires c in educt && LinkClass(g, educt, product, c, rid, reversible).Some?
    requires g.nodes[educt[c]].compoundId != g.nodes[product[c]].compoundId
    ensures var n1, n2, r := educt[c], product[c], LinkClass(g, educt, product, c, rid, reversible).value;
      var before, after := EdgeIds(g.edges, Key(n1, n2)), EdgeIds(r.edges, Key(n1, n2));
      && Key(n1, n2) in r.edges
      && r.edges[Key(n1, n2)].transition == (if Key(n1, n2) in g.edges then g.edges[Key(n1, n2)].transition else Some(Reaction))
      && IdsAt(after, (n1, n2)) == IdsAt(before, (n1, n2)) + [rid]
      && (IdsAt(after, (n2, n1)) == IdsAt(before, (n2, n1)) + [rid] <==> Backward(g.nodes, n1, n2, reversible) == Some(true))
      && (forall o :: o != (n1, n2) && o != (n2, n1) ==> IdsAt(after, o) == IdsAt(before, o))
      && (forall k :: k in g.edges && k != Key(n1, n2) ==> r.edges[k] == g.edges[k])
  {
    var n1, n2 := educt[c], product[c];
    var back := Backward(g.nodes, n1, n2, reversible).value;
    AddReactionIdEffect(g.edges, n1, n2, rid, back, Reaction);
    var before := EdgeIds(g.edges, Key(n1, n2));
    assert |IdsAt(before, (n2, n1)) + [rid]| != |IdsAt(before, (n2, n1))|;
  }

  /** The linker's loop over the educt classes, in the order `classes`. */
  function LinkAll(g: Graph, educt: map<int, string>, product: map<int, string>, classes: seq<int>, rid: nat, reversible: bool)
    : Option<Graph>
    requires forall j :: 0 <= j < |classes| ==> classes[j] in educt
    decreases |classes|
  {
    if classes == [] then Some(g)
    else
      match LinkAll(g, educt, product, classes[..|classes| - 1], rid, reversible)
      case None => None
      case Some(g') => LinkClass(g', educt, product, classes[|classes| - 1], rid, reversible)
  }

  /** `ids` is a prefix of `ids'` at every orientation: nothing recorded is lost. */
  ghost predicate IdsKept(edges: map<EdgeKey, EdgeAttrs>, edges': map<EdgeKey, EdgeAttrs>)
  {
    edges.Keys <= edges'.Keys
    && forall k, o :: k in edges && o in EdgeIds(edges, k) ==>
         o in EdgeIds(edges', k) && EdgeIds(edges, k)[o] <= EdgeIds(edges', k)[o]
  }

  /** Appending never loses an id: every old list is a prefix of the new one. */
  lemma AddIdsKeeps(ids: ReactionIds, a: string, b: string, rid: nat, back: bool)
    ensures forall o :: o in ids ==> o in AddIds(ids, a, b, rid, back) && ids[o] <= AddIds(ids, a, b, rid, back)[o]
  {
    var r := AddIds(ids, a, b, rid, back);
    forall o | o in ids ensures o in r && ids[o] <= r[o] {
      assert IdsAt(ids, o) == ids[o] && IdsAt(r, o) == r[o];
    }
  }

  /** Rewriting edge `k` keeps the ids of every other edge. */
  lemma KeptAfterWrite(edges: map<EdgeKey, EdgeAttrs>, k: EdgeKey, v: EdgeAttrs)
    requires forall o :: o in EdgeIds(edges, k) ==> o in EdgeIds(edges[k := v], k) && EdgeIds(edges, k)[o] <= EdgeIds(edges[k := v], k)[o]
    ensures IdsKept(edges, edges[k := v])
  {
    var r := edges[k := v];
    forall k', o | k' in edges && o in EdgeIds(edges, k')
      ensures o in EdgeIds(r, k') && EdgeIds(edges, k')[o] <= EdgeIds(r, k')[o]
    {
      if k' != k {
        assert EdgeIds(r, k') == EdgeIds(edges, k');
      }
    }
  }

  lemma LinkClassKeepsIds(g: Graph, educt: map<int, string>, product: map<int, string>, c: int, rid: nat, reversible: bool)
    requires c in educt && LinkClass(g, educt, product, c, rid, reversible).Some?
    ensures IdsKept(g.edges, LinkClass(g, educt, product, c, rid, reversible).value.edges)
  {
    var r := LinkClass(g, educt, product, c, rid, reversible).value;
    if g.nodes[educt[c]].compoundId != g.nodes[product[c]].compoundId {
      var n1, n2 := educt[c], product[c];
      var back := Backward(g.nodes, n1, n2, reversible).value;
      var k := Key(n1, n2);
      var e := Existing(g.edges, n1, n2, Reaction);
      var v := e.(reactionId := Some(AddIds(e.reactionId.value, n1, n2, rid, back)));
      assert r.edges == g.edges[k := v];
      assert EdgeIds(g.edges, k) == e.reactionId.value || EdgeIds(g.edges, k) == map[];
      AddIdsKeeps(e.reactionId.value, n1, n2, rid, back);
      KeptAfterWrite(g.edges, k, v);
    } else {
      assert r == g;
      assert IdsKept(g.edges, g.edges);
    }
  }

  lemma IdsKeptTrans(e1: map<EdgeKey, EdgeAttrs>, e2: map<EdgeKey, EdgeAttrs>, e3: map<EdgeKey, EdgeAttrs>)
    requires IdsKept(e1, e2) && IdsKept(e2, e3)
    ensures IdsKept(e1, e3)
  {
    forall k, o | k in e1 && o in EdgeIds(e1, k)
      ensures o in EdgeIds(e3, k) && EdgeIds(e1, k)[o] <= EdgeIds(e3, k)[o]
    {
      assert o in EdgeIds(e2, k);
    }
  }

  /** Earlier ids are preserved: the linker only ever appends, and never
      touches the nodes. */
  lemma {:induction false} LinkAllKeepsIds(g: Graph, educt: map<int, string>, product: map<int, string>, classes: seq<int>,
                                           rid: nat, reversible: bool)
    requires forall j :: 0 <= j < |classes| ==> classes[j] in educt
    requires LinkAll(g, educt, product, classes, rid, reversible).Some?
    ensures IdsKept(g.edges, LinkAll(g, educt, product, classes, rid, reversible).value.edges)
    ensures LinkAll(g, educt, product, classes, rid, reversible).value.nodes == g.nodes
    decreases |classes|
  {
    if classes != [] {
      var init := classes[..|classes| - 1];
      LinkAllKeepsIds(g, educt, product, init, rid, reversible);
      var g' := LinkAll(g, educt, product, init, rid, reversible).value;
      LinkClassKeepsIds(g', educt, product, classes[|classes| - 1], rid, reversible);
      IdsKeptTrans(g.edges, g'.edges, LinkAll(g, educt, product, classes, rid, reversible).value.edges);
    } else {
      assert IdsKept(g.edges, g.edges);
    }
  }

  /** The linker keeps the shape of the network: its new edges join nodes,
      and their ids are keyed by their own orientations. */
  lemma {:induction false} LinkAllConsistent(g: Graph, cts: map<string, seq<string>>, educt: map<int, string>,
                                             product: map<int, string>, classes: seq<int>, rid: nat, reversible: bool)
    requires forall j :: 0 <= j < |classes| ==> classes[j] in educt
    requires Consistent(g.nodes, g.edges, cts)
    requires LinkAll(g, educt, product, classes, rid, reversible).Some?
    ensures Consistent(g.nodes, LinkAll(g, educt, product, classes, rid, reversible).value.edges, cts)
    decreases |classes|
  {
    if classes != [] {
      var init := classes[..|classes| - 1];
      LinkAllConsistent(g, cts, educt, product, init, rid, reversible);
      LinkAllKeepsIds(g, educt, product, init, rid, reversible);
      var g' := LinkAll(g, educt, product, init, rid, reversible).value;
      var c := classes[|classes| - 1];
      if g'.nodes[educt[c]].compoundId != g'.nodes[product[c]].compoundId {
        AddReactionIdShape(g'.nodes, g'.edges, educt[c], product[c], rid,
                           Backward(g'.nodes, educt[c], product[c], reversible).value, Reaction);
      }
    }
  }

  /** The loop at 04:354-376 over the educt classes. The dictionary's order
      is not modelled: `classes` is the order the loop took. */
  method Link(g: Graph, cts: map<string, seq<string>>, educt: map<int, string>, product: map<int, string>,
              rid: nat, reversible: bool)
    returns (r: Option<Graph>, ghost classes: seq<int>)
    requires Consistent(g.nodes, g.edges, cts)
    ensures Listed(educt.Keys, classes)
    ensures r == LinkAll(g, educt, product, classes, rid, reversible)
    ensures r.Some? ==> Enumerating(educt.Keys, {}, classes) && r.value.nodes == g.nodes
    ensures r.Some? ==> Consistent(r.value.nodes, r.value.edges, cts) && IdsKept(g.edges, r.value.edges)
  {
    r := Some(g);
    classes := [];
    var todo := educt.Keys;
    while todo != {}
      invariant Enumerating(educt.Keys, todo, classes)
      invariant r == LinkAll(g, educt, product, classes, rid, reversible) && r.Some?
      decreases todo
    {
      ghost var some := Pick(todo);
      var cl :| cl in todo;
      var next := LinkClass(r.value, educt, product, cl, rid, reversible);
      EnumeratingStep(educt.Keys, todo, classes, cl);
      assert (classes + [cl])[..|classes|] == classes;
      classes := classes + [cl];
      if next.None? {
        return None, classes;
      }
      r := next;
      todo := todo - {cl};
    }
    LinkAllKeepsIds(g, educt, product, classes, rid, reversible);
    LinkAllConsistent(g, cts, educt, product, classes, rid, reversible);
  }

  // ---------------------------------------------------------------------------
  // Directedness (04:379-384)
  // ---------------------------------------------------------------------------

  predicate IsReactionEdge(a: EdgeAttrs)
  {
    a.transition == Some(Reaction) || a.transition == Some(HydrogenReaction)
  }

  /** Once all reactions are in, a Reaction or HydrogenReaction edge is
      Directed when one orientation carries ids, Bidirected otherwise; all
      other edges keep their flag. */
  function Resolve(a: EdgeAttrs): (r: EdgeAttrs)
    requires CarriesIds(a)
    ensures r.(directed := a.directed) == a
    ensures IsReactionEdge(a) ==> r.directed.Some? && (r.directed == Some(Directed) <==> |a.reactionId.value| == 1)
    ensures IsReactionEdge(a) ==> (r.directed == Some(Bidirected) <==> |a.reactionId.value| != 1)
    ensures !IsReactionEdge(a) ==> r == a
  {
    if IsReactionEdge(a) then
      a.(directed := Some(if |a.reactionId.value| == 1 then Directed else Bidirected))
    else a
  }

  /** The pass over all edges; each edge is resolved on its own, so the
      order of the edge view does not matter. */
  method ResolveDirectedness(nodes: map<string, NodeAttrs>, edges: map<EdgeKey, EdgeAttrs>, cts: map<string, seq<string>>)
    returns (edges': map<EdgeKey, EdgeAttrs>)
    requires Consistent(nodes, edges, cts)
    ensures edges'.Keys == edges.Keys
    ensures forall k :: k in edges ==> edges'[k] == Resolve(edges[k])
    ensures Consistent(nodes, edges', cts)
  {
    edges' := edges;
    var todo := edges.Keys;
    while todo != {}
      invariant todo <= edges.Keys && edges'.Keys == edges.Keys
      invariant forall k :: k in todo ==> edges'[k] == edges[k]
      invariant forall k :: k in edges && k !in todo ==> edges'[k] == Resolve(edges[k])
      decreases todo
    {
      var k :| k in todo;
      edges' := edges'[k := Resolve(edges[k])];
      todo := todo - {k};
    }
    ResolvedConsistent(nodes, edges, edges', cts);
  }

  lemma ResolvedConsistent(nodes: map<string, NodeAttrs>, edges: map<EdgeKey, EdgeAttrs>, edges': map<EdgeKey, EdgeAttrs>,
                           cts: map<string, seq<string>>)
    requires Consistent(nodes, edges, cts)
    requires edges'.Keys == edges.Keys && forall k :: k in edges ==> edges'[k] == Resolve(edges[k])
    ensures Consistent(nodes, edges', cts)
  {
    forall k | k in edges'
      ensures edges'[k].transition == edges[k].transition && edges'[k].reactionId == edges[k].reactionId
    {
      assert edges'[k].(directed := edges[k].directed) == edges[k];
    }
    ShapeSameIds(nodes, edges, edges');
  }

  /** The shape of the network only looks at each edge's transition and ids. */
  lemma ShapeSameIds(nodes: map<string, NodeAttrs>, edges: map<EdgeKey, EdgeAttrs>, edges': map<EdgeKey, EdgeAttrs>)
    requires EdgeShape(nodes, edges) && edges'.Keys == edges.Keys
    requires forall k :: k in edges ==> edges'[k].transition == edges[k].transition && edges'[k].reactionId == edges[k].reactionId
    ensures EdgeShape(nodes, edges')
  {
    assert EdgesWithin(nodes.Keys, edges');
    forall k | k in edges' ensures edges'[k].transition.Some? && CarriesIds(edges'[k]) {
      assert CarriesIds(edges[k]);
    }
    forall k | k in edges' && edges'[k].reactionId.Some? ensures Orientations(k, edges'[k].reactionId.value) {
      assert Orientations(k, edges[k].reactionId.value);
    }
  }
}
