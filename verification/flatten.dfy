/** The export of the finished network (bfs_ready_transform and add_meta,
    04:387-425): the undirected network becomes a directed graph whose arcs
    follow the direction each edge was given. */
module Flatten {
  import opened Common
  import opened AtnTypes
  import opened Paths
  import opened Network

  type Arc = (string, string)

  /** The attributes add_meta copies onto an arc. The bond order is never
      copied: add_meta tests for a key spelt 'oder' (04:389), which no edge
      has. */
  datatype ArcAttrs = ArcAttrs(
    transition: string,
    compoundId: Option<nat>,
    compoundName: Option<string>,
    movingAtom: Option<int>,
    reactionIds: Option<seq<nat>>)

  /** The directed graph bfs_ready_transform returns. */
  datatype Exported = Exported(nodes: map<string, NodeAttrs>, arcs: map<Arc, ArcAttrs>)

  /** A node of the export: no atom-map class, and element "*" when it had none. */
  function ExportNode(a: NodeAttrs): (r: NodeAttrs)
    ensures r.cls.None?
    ensures r.element == if a.element.Some? then a.element else Some("*")
    ensures r.(cls := a.cls, element := a.element) == a
  {
    a.(cls := None, element := if a.element.Some? then a.element else Some("*"))
  }

  /** add_meta (04:387-398) for the arc `arc` of an edge with attributes
      `a`: the transition's string value, the compound id and name and the
      moving atom when present, and the reaction ids of this orientation
      only. */
  function Meta(a: EdgeAttrs, arc: Arc): (r: ArcAttrs)
    requires a.transition.Some?
    ensures r.transition == TransitionName(a.transition.value)
    ensures r.reactionIds.Some? <==> a.reactionId.Some? && arc in a.reactionId.value
    ensures r.reactionIds.Some? ==> r.reactionIds.value == a.reactionId.value[arc]
    ensures r.compoundId == a.compoundId && r.compoundName == a.compoundName && r.movingAtom == a.movingAtom
  {
    ArcAttrs(TransitionName(a.transition.value), a.compoundId, a.compoundName, a.movingAtom,
             if a.reactionId.Some? && arc in a.reactionId.value then Some(a.reactionId.value[arc]) else None)
  }

  /** The edge is exported: bonds are dropped when `filterBonds` is set (04:411-412). */
  predicate Kept(a: EdgeAttrs, filterBonds: bool)
  {
    !(filterBonds && a.transition == Some(ChemicalBond))
  }

  /** The edge stops the export: it has no direction (KeyError at 04:414,
      which is what a fresh HydrogenGroup edge leads to), or it is Directed
      but does not have exactly one orientation with ids (none is an
      IndexError at 04:415; for several the source takes the first in
      insertion order, which the model does not keep). */
  predicate Broken(a: EdgeAttrs)
  {
    a.directed.None? || (a.directed == Some(Directed) && (a.reactionId.None? || |a.reactionId.value| != 1))
  }

  /** The arcs an exported edge yields: the orientation of its single id key
      when Directed; both orientations (one for a loop) otherwise. */
  ghost function ArcsOf(k: EdgeKey, a: EdgeAttrs): set<Arc>
  {
    if a.directed == Some(Directed) && a.reactionId.Some? then a.reactionId.value.Keys
    else set u, v | u in k && v in k && Key(u, v) == k :: (u, v)
  }

  /** The two end points of an edge (the same one twice for a loop). */
  lemma Endpoints(k: EdgeKey, u: string, v: string)
    requires 0 < |k| <= 2 && u in k && v in k && (u != v || |k| == 1)
    ensures Key(u, v) == k
    ensures (set x, y | x in k && y in k && Key(x, y) == k :: (x, y)) == {(u, v), (v, u)}
  {
    if u != v {
      assert {u, v} <= k;
      assert |{u, v}| == 2;
      SubsetCard({u, v}, k);
      assert k == {u, v};
    } else {
      SubsetCard({u}, k);
    }
    var both := set x, y | x in k && y in k && Key(x, y) == k :: (x, y);
    forall o | o in both ensures o == (u, v) || o == (v, u) {
      var x, y :| x in k && y in k && Key(x, y) == k && o == (x, y);
    }
    assert (u, v) in both && (v, u) in both;
  }

  /** What an exported edge yields: a Directed edge exactly one arc, oriented
      by its single key; a Bidirected or Undirected edge both arcs. */
  lemma ArcsOfEdge(nodes: map<string, NodeAttrs>, edges: map<EdgeKey, EdgeAttrs>, k: EdgeKey)
    requires EdgeShape(nodes, edges) && k in edges && !Broken(edges[k])
    ensures edges[k].directed == Some(Directed) ==>
      |ArcsOf(k, edges[k])| == 1 && forall o :: o in ArcsOf(k, edges[k]) ==> o in edges[k].reactionId.value && Key(o.0, o.1) == k
    ensures edges[k].directed != Some(Directed) ==>
      exists u, v :: Key(u, v) == k && ArcsOf(k, edges[k]) == {(u, v), (v, u)}
  {
    if edges[k].directed != Some(Directed) {
      var u :| u in k;
      if |k| == 1 {
        Endpoints(k, u, u);
      } else {
        assert k - {u} != {} by {
          if k - {u} == {} {
            SubsetCard(k, {u});
          }
        }
        var v :| v in k - {u};
        Endpoints(k, u, v);
      }
    }
  }

  lemma SubsetCard<T>(a: set<T>, b: set<T>)
    requires a <= b
    ensures |a| <= |b|
    ensures |a| == |b| ==> a == b
    decreases a
  {
    if a != {} {
      var x :| x in a;
      SubsetCard(a - {x}, b - {x});
    }
  }

  /** The node loop at 04:404-408. */
  method ExportNodes(nodes: map<string, NodeAttrs>) returns (r: map<string, NodeAttrs>)
    ensures r.Keys == nodes.Keys
    ensures forall n :: n in nodes ==> r[n] == ExportNode(nodes[n])
  {
    r := nodes;
    var todo := nodes.Keys;
    while todo != {}
      invariant todo <= nodes.Keys && r.Keys == nodes.Keys
      invariant forall n :: n in todo ==> r[n] == nodes[n]
      invariant forall n :: n in nodes.Keys - todo ==> r[n] == ExportNode(nodes[n])
      decreases todo
    {
      ghost var some := Pick(todo);
      var n :| n in todo;
      r := r[n := ExportNode(nodes[n])];
      todo := todo - {n};
    }
  }

  /** Every exported edge among `done` has yielded its arcs, with add_meta's
      attributes, and every arc comes from such an edge. */
  ghost predicate Exporting(edges: map<EdgeKey, EdgeAttrs>, filterBonds: bool, done: set<EdgeKey>, arcs: map<Arc, ArcAttrs>)
    requires forall k :: k in edges ==> edges[k].transition.Some?
  {
    done <= edges.Keys
    && (forall k :: k in done && Kept(edges[k], filterBonds) ==>
          !Broken(edges[k]) && forall o :: o in ArcsOf(k, edges[k]) ==> o in arcs && arcs[o] == Meta(edges[k], o))
    && (forall o :: o in arcs ==>
          Key(o.0, o.1) in done && Kept(edges[Key(o.0, o.1)], filterBonds) && o in ArcsOf(Key(o.0, o.1), edges[Key(o.0, o.1)]))
  }

  lemma ExportOne(edges: map<EdgeKey, EdgeAttrs>, filterBonds: bool, done: set<EdgeKey>,
                  arcs: map<Arc, ArcAttrs>, k: EdgeKey, yielded: map<Arc, ArcAttrs>)
    requires (forall k :: k in edges ==> edges[k].transition.Some?) && Exporting(edges, filterBonds, done, arcs)
    requires k in edges && k !in done && Kept(edges[k], filterBonds) && !Broken(edges[k])
    requires yielded.Keys == ArcsOf(k, edges[k])
    requires forall o :: o in yielded ==> Key(o.0, o.1) == k && yielded[o] == Meta(edges[k], o)
    ensures Exporting(edges, filterBonds, done + {k}, arcs + yielded)
  {
    var arcs', done' := arcs + yielded, done + {k};
    forall j | j in done' && Kept(edges[j], filterBonds)
      ensures !Broken(edges[j]) && forall o :: o in ArcsOf(j, edges[j]) ==> o in arcs' && arcs'[o] == Meta(edges[j], o)
    {
      if j != k {
        forall o | o in ArcsOf(j, edges[j]) ensures o in arcs' && arcs'[o] == Meta(edges[j], o) {
          assert o in arcs;
          if o in yielded {
            // an arc of `arcs` belongs to an edge in `done`, which `k` is not
            assert false;
          }
        }
      }
    }
    forall o | o in arcs'
      ensures Key(o.0, o.1) in done' && Kept(edges[Key(o.0, o.1)], filterBonds) && o in ArcsOf(Key(o.0, o.1), edges[Key(o.0, o.1)])
    {
      if o in yielded {
        assert Key(o.0, o.1) == k;
      } else {
        assert o in arcs;
      }
    }
  }

  /** The arcs one edge adds to the export (04:410-423), or None when the
      edge stops it. */
  method EdgeArcs(nodes: map<string, NodeAttrs>, edges: map<EdgeKey, EdgeAttrs>, k: EdgeKey)
    returns (r: Option<map<Arc, ArcAttrs>>)
    requires EdgeShape(nodes, edges) && k in edges
    ensures r.None? <==> Broken(edges[k])
    ensures r.Some? ==> r.value.Keys == ArcsOf(k, edges[k])
    ensures r.Some? ==> forall o :: o in r.value ==> Key(o.0, o.1) == k && r.value[o] == Meta(edges[k], o)
  {
    var a := edges[k];
    if a.directed.None? {
      return None;
    }
    if a.directed == Some(Directed) {
      if a.reactionId.None? || |a.reactionId.value| != 1 {
        return None;
      }
      var o :| o in a.reactionId.value;
      DirectedArc(nodes, edges, k, o);
      return Some(map[o := Meta(a, o)]);
    }
    var u, v := Ends(k);
    Endpoints(k, u, v);
    r := Some(map[(u, v) := Meta(a, (u, v)), (v, u) := Meta(a, (v, u))]);
  }

  /** The end points of an edge key: two distinct ones, or one twice for a loop. */
  method Ends(k: EdgeKey) returns (u: string, v: string)
    requires 0 < |k| <= 2
    ensures u in k && v in k && (u != v || |k| == 1)
  {
    u :| u in k;
    v := u;
    if |k| == 2 {
      assert k - {u} != {} by {
        if k - {u} == {} {
          SubsetCard(k, {u});
        }
      }
      v :| v in k - {u};
    }
  }

  /** A Directed edge with a single orientation yields that one arc. */
  lemma DirectedArc(nodes: map<string, NodeAttrs>, edges: map<EdgeKey, EdgeAttrs>, k: EdgeKey, o: Arc)
    requires EdgeShape(nodes, edges) && k in edges
    requires edges[k].directed == Some(Directed) && edges[k].reactionId.Some?
    requires |edges[k].reactionId.value| == 1 && o in edges[k].reactionId.value
    ensures ArcsOf(k, edges[k]) == {o} && Key(o.0, o.1) == k
  {
    SingleKey(edges[k].reactionId.value, o);
    assert Orientations(k, edges[k].reactionId.value);
  }

  /** Some exported edge stops the export. */
  ghost predicate Stops(edges: map<EdgeKey, EdgeAttrs>, filterBonds: bool)
  {
    exists k :: k in edges && Kept(edges[k], filterBonds) && Broken(edges[k])
  }

  /** `x` is the export of the network: every node, relabelled; every arc of
      every exported edge, with add_meta's attributes; no other arc. */
  ghost predicate Exports(nodes: map<string, NodeAttrs>, edges: map<EdgeKey, EdgeAttrs>, filterBonds: bool, x: Exported)
    requires forall k :: k in edges ==> edges[k].transition.Some?
  {
    x.nodes.Keys == nodes.Keys
    && (forall n :: n in nodes ==> x.nodes[n] == ExportNode(nodes[n]))
    && (forall k, o :: k in edges && Kept(edges[k], filterBonds) && o in ArcsOf(k, edges[k]) ==>
          o in x.arcs && x.arcs[o] == Meta(edges[k], o))
    && (forall o :: o in x.arcs ==>
          var k := Key(o.0, o.1); k in edges && Kept(edges[k], filterBonds) && o in ArcsOf(k, edges[k]))
  }

  /** bfs_ready_transform (04:400-425). The edge view's order is not
      modelled; every edge's arcs depend on that edge alone. */
  method BfsReadyTransform(nodes: map<string, NodeAttrs>, edges: map<EdgeKey, EdgeAttrs>, filterBonds: bool)
    returns (r: Option<Exported>)
    requires EdgeShape(nodes, edges)
    ensures r.None? <==> Stops(edges, filterBonds)
    ensures r.Some? ==> Exports(nodes, edges, filterBonds, r.value)
  {
    var exportedNodes := ExportNodes(nodes);
    var arcs: map<Arc, ArcAttrs> := map[];
    var todo := edges.Keys;
    while todo != {}
      invariant todo <= edges.Keys
      invariant Exporting(edges, filterBonds, edges.Keys - todo, arcs)
      decreases todo
    {
      ghost var some := Pick(todo);
      var k :| k in todo;
      if Kept(edges[k], filterBonds) {
        var yielded := EdgeArcs(nodes, edges, k);
        if yielded.None? {
          return None;
        }
        ExportOne(edges, filterBonds, edges.Keys - todo, arcs, k, yielded.value);
        arcs := arcs + yielded.value;
      }
      todo := todo - {k};
    }
    r := Some(Exported(exportedNodes, arcs));
  }

  lemma SingleKey(m: map<Arc, seq<nat>>, o: Arc)
    requires |m| == 1 && o in m
    ensures m.Keys == {o}
  {
    assert {o} <= m.Keys;
    if m.Keys != {o} {
      assert m.Keys - {o} != {};
      var x :| x in m.Keys - {o};
      assert {o, x} <= m.Keys;
      assert |{o, x}| == 2;
      SubsetCard({o, x}, m.Keys);
    }
  }
}
