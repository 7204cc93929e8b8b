/** The Atom Transition Network while it is being built, and the compound
    registry that fills it (parseXDuct): a compound seen for the first time is
    renamed, stamped and copied in; a compound seen before only contributes
    the atom-map classes of its atoms. */
module Network {
  import opened Common
  import opened AtnTypes
  import opened Paths
  import opened Molecules

  // ---------------------------------------------------------------------------
  // The network and what it keeps true
  // ---------------------------------------------------------------------------

  /** Every reaction-id key of an edge is one of the edge's two orientations. */
  ghost predicate Orientations(k: EdgeKey, ids: ReactionIds)
  {
    forall o :: o in ids ==> Key(o.0, o.1) == k
  }

  /** A node is either a reaction's hydrogen pool ("react_..."), or an atom
      whose name starts with the id of the registered compound it belongs to. */
  predicate Labelled(n: string, a: NodeAttrs, registered: nat)
  {
    Prefix(n) == "react"
    || (a.compoundId.Some? && a.compoundId.value < registered && Prefix(n) == NatToString(a.compoundId.value))
  }

  /** Reaction and HydrogenReaction edges are created with a reaction_id. */
  predicate CarriesIds(a: EdgeAttrs)
  {
    a.transition == Some(Reaction) || a.transition == Some(HydrogenReaction) ==> a.reactionId.Some?
  }

  /** Edges join nodes, have one or two end points and a transition, and
      their reaction ids are keyed by their own orientations. */
  ghost predicate EdgeShape(nodes: map<string, NodeAttrs>, edges: map<EdgeKey, EdgeAttrs>)
  {
    EdgesWithin(nodes.Keys, edges)
    && (forall k :: k in edges ==> 0 < |k| <= 2)
    && (forall k :: k in edges ==> edges[k].transition.Some? && CarriesIds(edges[k]))
    && (forall k :: k in edges && edges[k].reactionId.Some? ==> Orientations(k, edges[k].reactionId.value))
  }

  /** Every atom listed for a compound is a node. */
  ghost predicate ListsInside(nodes: map<string, NodeAttrs>, cts: map<string, seq<string>>)
  {
    forall name, j :: name in cts && 0 <= j < |cts[name]| ==> cts[name][j] in nodes
  }

  ghost predicate AllLabelled(nodes: map<string, NodeAttrs>, registered: nat)
  {
    forall n :: n in nodes ==> Labelled(n, nodes[n], registered)
  }

  /** The shape of the network between two steps of the builder. */
  ghost predicate Consistent(nodes: map<string, NodeAttrs>, edges: map<EdgeKey, EdgeAttrs>, cts: map<string, seq<string>>)
  {
    EdgeShape(nodes, edges) && ListsInside(nodes, cts) && AllLabelled(nodes, |cts|)
  }

  /** The values of the network and of both registries at one moment. */
  datatype Registry = Registry(nodes: map<string, NodeAttrs>, edges: map<EdgeKey, EdgeAttrs>,
                               cts: map<string, seq<string>>, cids: map<nat, (string, string)>)

  /** The ATN graph together with the two registries parseXDuct keeps beside it. */
  class Atn {
    var nodes: map<string, NodeAttrs>
    var edges: map<EdgeKey, EdgeAttrs>
    var compoundToSubgraph: map<string, seq<string>>
    var compoundIdToCompound: map<nat, (string, string)>

    ghost predicate Valid()
      reads this
    {
      Consistent(nodes, edges, compoundToSubgraph)
    }

    ghost function Snapshot(): Registry
      reads this
    {
      Registry(nodes, edges, compoundToSubgraph, compoundIdToCompound)
    }

    /** compoundId_to_compound[cid] = (name, smiles) for the id the next new
        compound receives. */
    method RecordCompound(name: string, smiles: string)
      requires Valid()
      modifies this
      ensures Valid()
      ensures compoundIdToCompound == old(compoundIdToCompound)[|compoundToSubgraph| := (name, smiles)]
      ensures nodes == old(nodes) && edges == old(edges) && compoundToSubgraph == old(compoundToSubgraph)
    {
      compoundIdToCompound := compoundIdToCompound[|compoundToSubgraph| := (name, smiles)];
    }

    /** Replaces the graph and compound_to_subgraph together. */
    method SetGraph(nodes': map<string, NodeAttrs>, edges': map<EdgeKey, EdgeAttrs>, cts': map<string, seq<string>>)
      requires Consistent(nodes', edges', cts')
      modifies this
      ensures Valid()
      ensures nodes == nodes' && edges == edges' && compoundToSubgraph == cts'
      ensures compoundIdToCompound == old(compoundIdToCompound)
    {
      nodes, edges, compoundToSubgraph := nodes', edges', cts';
    }

    constructor ()
      ensures nodes == map[] && edges == map[]
      ensures compoundToSubgraph == map[] && compoundIdToCompound == map[]
      ensures Valid()
    {
      nodes, edges := map[], map[];
      compoundToSubgraph, compoundIdToCompound := map[], map[];
    }
  }

  /** The id the next new compound receives (len(compound_to_subgraph)) names
      no node yet: atom names are fresh. */
  lemma NewAtomsAreFresh(nodes: map<string, NodeAttrs>, edges: map<EdgeKey, EdgeAttrs>, cts: map<string, seq<string>>, x: nat)
    requires Consistent(nodes, edges, cts)
    ensures AtomName(|cts|, x) !in nodes
  {
    var n := AtomName(|cts|, x);
    AtomNamePrefix(|cts|, x);
    assert Prefix(n) != "react" by {
      assert IsDigit(NatToString(|cts|)[0]);
    }
    if n in nodes {
      NatToStringInjective(nodes[n].compoundId.value, |cts|);
    }
  }

  // ---------------------------------------------------------------------------
  // What the chemistry libraries hand over
  // ---------------------------------------------------------------------------

  /** One SMILES string after RDKit and pysmiles: the normalised SMILES kept in
      the compound table, the heavy-atom graph, the automorphisms GraphMatcher
      enumerates, and the hydrogens add_explicit_hydrogens would attach, each
      as (its number, the atom it is bonded to). */
  datatype Parsed = Parsed(fixedSmiles: string, mol: Molecule, perms: seq<map<nat, nat>>, hydrogens: seq<(nat, nat)>)

  function HydrogenIds(hs: seq<(nat, nat)>): (ids: seq<nat>)
    ensures |ids| == |hs| && forall j :: 0 <= j < |hs| ==> ids[j] == hs[j].0
  {
    seq(|hs|, j requires 0 <= j < |hs| => hs[j].0)
  }

  /** What the libraries guarantee: a well-formed graph, automorphisms that are
      maps of its atoms onto its atoms, and new hydrogens bonded to its atoms. */
  ghost predicate ParsedOk(p: Parsed)
  {
    WellFormed(p.mol)
    && (forall i :: 0 <= i < |p.perms| ==> p.perms[i].Keys == p.mol.atoms.Keys && p.perms[i].Values <= p.mol.atoms.Keys)
    && Distinct(HydrogenIds(p.hydrogens))
    && (forall j :: 0 <= j < |p.hydrogens| ==> p.hydrogens[j].0 !in p.mol.atoms && p.hydrogens[j].1 in p.mol.atoms)
  }

  /** The attributes the model gives an explicit hydrogen. */
  const ExplicitHydrogen := NodeAttrs(Some("H"), None, None, None, None, None, None)

  /** The atoms after add_explicit_hydrogens. */
  function WithHydrogenAtoms(atoms: map<nat, NodeAttrs>, hs: seq<(nat, nat)>): map<nat, NodeAttrs>
  {
    atoms + map h | h in HydrogenIds(hs) :: ExplicitHydrogen
  }

  /** The bonds add_explicit_hydrogens adds, each a fresh edge. */
  function HydrogenBondKeys(hs: seq<(nat, nat)>): set<set<nat>>
  {
    set j | 0 <= j < |hs| :: {hs[j].0, hs[j].1}
  }

  function HydrogenBonds(hs: seq<(nat, nat)>): MolEdges
  {
    map b | b in HydrogenBondKeys(hs) :: NoAttrs
  }

  /** The atoms of a parsed compound as the registry sees them: hydrogens have
      lost their class (04:137-139), and explicit hydrogens are added when asked for. */
  method MolAtoms(p: Parsed, explicit: bool) returns (atoms: map<nat, NodeAttrs>)
    requires ParsedOk(p)
    ensures atoms == RegisteredAtoms(p, explicit)
  {
    atoms := StripHydrogenClasses(p.mol.atoms);
    ghost var stripped := atoms;
    forall x | x in stripped ensures stripped[x] == RegisteredAtom(p, x) {
      assert stripped[x] == p.mol.atoms[x].(cls := stripped[x].cls);
    }
    if explicit {
      atoms := WithHydrogenAtoms(atoms, p.hydrogens);
    }
    HydrogensAdded(p, explicit, stripped);
  }

  /** Adding the explicit hydrogens to the parsed atoms, classes dropped,
      gives the atoms the registry sees. */
  lemma HydrogensAdded(p: Parsed, explicit: bool, stripped: map<nat, NodeAttrs>)
    requires forall j :: 0 <= j < |p.hydrogens| ==> p.hydrogens[j].0 !in p.mol.atoms
    requires stripped.Keys == p.mol.atoms.Keys && forall x :: x in stripped ==> stripped[x] == RegisteredAtom(p, x)
    ensures (if explicit then WithHydrogenAtoms(stripped, p.hydrogens) else stripped) == RegisteredAtoms(p, explicit)
  {
    var r := RegisteredAtoms(p, explicit);
    var added := if explicit then map h | h in HydrogenIds(p.hydrogens) :: ExplicitHydrogen else map[];
    var w := stripped + added;
    forall x | x in r ensures x in w {
      if x !in p.mol.atoms {
        var j :| 0 <= j < |p.hydrogens| && p.hydrogens[j].0 == x;
        assert HydrogenIds(p.hydrogens)[j] == x;
      }
    }
    forall x | x in w ensures x in r && w[x] == r[x] {
      if x in added {
        var j :| 0 <= j < |p.hydrogens| && HydrogenIds(p.hydrogens)[j] == x;
        assert x !in p.mol.atoms;
        assert w[x] == ExplicitHydrogen;
      } else {
        assert w[x] == stripped[x];
      }
    }
    assert w.Keys == r.Keys;
    assert w == r;
    if !explicit {
      assert added == map[];
      assert w == stripped;
    }
  }

  // ---------------------------------------------------------------------------
  // Registering a compound seen for the first time
  // ---------------------------------------------------------------------------

  /** Every atom and edge of a new compound carries the compound's id and name. */
  function StampNode(a: NodeAttrs, cid: nat, name: string): NodeAttrs
  {
    a.(compoundId := Some(cid), compoundName := Some(name))
  }

  /** An edge of a new compound: stamped, and made a plain undirected chemical
      bond when nothing gave it a transition (a symmetry edge keeps its own). */
  function StampEdge(e: EdgeAttrs, cid: nat, name: string): (r: EdgeAttrs)
    ensures r.compoundId == Some(cid) && r.compoundName == Some(name)
    ensures r.transition == (if e.transition.None? then Some(ChemicalBond) else e.transition)
    ensures r.directed == (if e.transition.None? then Some(Undirected) else e.directed)
    ensures r.movingAtom == e.movingAtom && r.reactionId == e.reactionId
  {
    var s := e.(compoundId := Some(cid), compoundName := Some(name));
    if e.transition.None? then s.(transition := Some(ChemicalBond), directed := Some(Undirected)) else s
  }

  /** An edge key of the compound, renamed into the network. */
  function RenameKey(cid: nat, k: set<nat>): EdgeKey
  {
    set x | x in k :: AtomName(cid, x)
  }

  lemma RenameKeyInjective(cid: nat, k1: set<nat>, k2: set<nat>)
    requires RenameKey(cid, k1) == RenameKey(cid, k2)
    ensures k1 == k2
  {
    forall x | x in k1 ensures x in k2 {
      assert AtomName(cid, x) in RenameKey(cid, k2);
      var y :| y in k2 && AtomName(cid, y) == AtomName(cid, x);
      AtomNameInjective(cid, y, cid, x);
    }
    forall x | x in k2 ensures x in k1 {
      assert AtomName(cid, x) in RenameKey(cid, k1);
      var y :| y in k1 && AtomName(cid, y) == AtomName(cid, x);
      AtomNameInjective(cid, y, cid, x);
    }
  }

  /** Renaming keeps the number of end points of an edge. */
  lemma {:induction false} RenameKeySize(cid: nat, k: set<nat>)
    ensures |RenameKey(cid, k)| == |k|
    decreases |k|
  {
    if k != {} {
      var x :| x in k;
      var rest := k - {x};
      RenameKeySize(cid, rest);
      assert RenameKey(cid, k) == RenameKey(cid, rest) + {AtomName(cid, x)};
      if AtomName(cid, x) in RenameKey(cid, rest) {
        var y :| y in rest && AtomName(cid, y) == AtomName(cid, x);
        AtomNameInjective(cid, y, cid, x);
      }
    }
  }

  lemma AtomNamesInjective(cid: nat)
    ensures forall a: nat, b: nat :: AtomName(cid, a) == AtomName(cid, b) ==> a == b
  {
    forall a: nat, b: nat | AtomName(cid, a) == AtomName(cid, b) ensures a == b {
      AtomNameInjective(cid, a, cid, b);
    }
  }

  /** The network names of a compound's atoms, in the compound's order: the
      compound_to_subgraph entry of a new compound. */
  function Renamed(cid: nat, order: seq<nat>): (names: seq<string>)
    ensures |names| == |order| && forall j :: 0 <= j < |order| ==> names[j] == AtomName(cid, order[j])
  {
    if order == [] then [] else Renamed(cid, order[..|order| - 1]) + [AtomName(cid, order[|order| - 1])]
  }

  /** The attributes an atom of the parsed compound enters the network with,
      before stamping: a hydrogen's class is dropped, an explicit hydrogen is new. */
  function RegisteredAtom(p: Parsed, x: nat): NodeAttrs
  {
    if x !in p.mol.atoms then ExplicitHydrogen
    else if IsHydrogen(p.mol.atoms[x]) then p.mol.atoms[x].(cls := None)
    else p.mol.atoms[x]
  }

  ghost function RegisteredAtoms(p: Parsed, explicit: bool): map<nat, NodeAttrs>
  {
    map x | x in CompoundAtoms(p, explicit) :: RegisteredAtom(p, x)
  }

  /** The atoms of the compound in the order the graph lists them: the parsed
      atoms, then the explicit hydrogens. */
  function CompoundOrder(p: Parsed, explicit: bool): seq<nat>
  {
    p.mol.order + (if explicit then HydrogenIds(p.hydrogens) else [])
  }

  /** The edges orbit-mode addAutomorphisms leaves (see Molecules.AddAutomorphisms). */
  ghost function OrbitEdges(order: seq<nat>, edges: MolEdges, perms: seq<map<nat, nat>>): MolEdges
  {
    var pairs := Pairs(OrbitSources(order, perms), perms);
    map k | k in edges.Keys + pairs :: if k in pairs then Sym(Base(edges, k)) else edges[k]
  }

  /** The edges of the compound before renaming: its bonds, the symmetry edges,
      and the bonds of explicit hydrogens. */
  ghost function CompoundEdges(p: Parsed, explicit: bool): MolEdges
  {
    var e := OrbitEdges(p.mol.order, BondEdges(p.mol), p.perms);
    if explicit then e + HydrogenBonds(p.hydrogens) else e
  }

  /** Edges a compound brings: between its own atoms, with one or two end
      points, no reaction ids, and no transition other than Symmetry. */
  ghost predicate FreshEdges(atoms: set<nat>, edges: MolEdges)
  {
    forall k :: k in edges ==>
      k <= atoms && 0 < |k| <= 2 && edges[k].reactionId.None?
      && (edges[k].transition.None? || edges[k].transition == Some(Symmetry))
  }

  /** The atoms of the compound as a set: the parsed atoms and the explicit hydrogens. */
  function CompoundAtoms(p: Parsed, explicit: bool): set<nat>
  {
    p.mol.atoms.Keys + (if explicit then set j | 0 <= j < |p.hydrogens| :: p.hydrogens[j].0 else {})
  }

  lemma OrbitEdgesFresh(p: Parsed)
    requires ParsedOk(p)
    ensures FreshEdges(p.mol.atoms.Keys, OrbitEdges(p.mol.order, BondEdges(p.mol), p.perms))
  {
    var src := OrbitSources(p.mol.order, p.perms);
    SourcesWithin(p.mol.order, p.perms);
    PairsAreProper(src, p.perms);
    var e := OrbitEdges(p.mol.order, BondEdges(p.mol), p.perms);
    forall k | k in Pairs(src, p.perms) ensures k <= p.mol.atoms.Keys {
      var v, i :| v in src && 0 <= i < |p.perms| && v in p.perms[i] && p.perms[i][v] != v && k == {v, p.perms[i][v]};
      assert p.perms[i][v] in p.perms[i].Values;
    }
  }

  lemma HydrogenBondsFresh(p: Parsed)
    requires ParsedOk(p)
    ensures FreshEdges(CompoundAtoms(p, true), HydrogenBonds(p.hydrogens))
  {
    forall k | k in HydrogenBonds(p.hydrogens) ensures k <= CompoundAtoms(p, true) && 0 < |k| <= 2 {
      var j :| 0 <= j < |p.hydrogens| && k == {p.hydrogens[j].0, p.hydrogens[j].1};
      var h, a := p.hydrogens[j].0, p.hydrogens[j].1;
      assert h != a;
      assert k == {h} + {a};
    }
  }

  lemma CompoundEdgesFresh(p: Parsed, explicit: bool)
    requires ParsedOk(p)
    ensures FreshEdges(CompoundAtoms(p, explicit), CompoundEdges(p, explicit))
  {
    OrbitEdgesFresh(p);
    if explicit {
      HydrogenBondsFresh(p);
    }
  }

  /** The order lists exactly the compound's atoms. */
  lemma CompoundOrderAtoms(p: Parsed, explicit: bool)
    requires ParsedOk(p)
    ensures forall x :: x in CompoundOrder(p, explicit) <==> x in CompoundAtoms(p, explicit)
  {
    var hs := p.hydrogens;
    forall x | x in CompoundAtoms(p, explicit) ensures x in CompoundOrder(p, explicit) {
      if x !in p.mol.atoms {
        var j :| 0 <= j < |hs| && hs[j].0 == x;
        assert CompoundOrder(p, explicit)[|p.mol.order| + j] == x;
      }
    }
  }

  /** The loop that stamps every node of the new compound (04:179-181),
      applied while copying the renamed nodes out. */
  method StampNodes(cid: nat, name: string, order: seq<nat>, atoms: map<nat, NodeAttrs>) returns (r: map<string, NodeAttrs>)
    requires forall x :: x in order <==> x in atoms
    ensures r == Stamped(cid, name, atoms)
  {
    r := map[];
    var i := 0;
    while i < |order|
      invariant 0 <= i <= |order|
      invariant r.Keys == set j | 0 <= j < i :: AtomName(cid, order[j])
      invariant forall j :: 0 <= j < i ==> r[AtomName(cid, order[j])] == StampNode(atoms[order[j]], cid, name)
    {
      forall j | 0 <= j < i && AtomName(cid, order[j]) == AtomName(cid, order[i]) ensures order[j] == order[i] {
        AtomNameInjective(cid, order[j], cid, order[i]);
      }
      r := r[AtomName(cid, order[i]) := StampNode(atoms[order[i]], cid, name)];
      i := i + 1;
    }
    StampedIs(cid, name, order, atoms, r);
  }

  /** A compound's atoms renamed into the network and stamped. */
  function Stamped(cid: nat, name: string, atoms: map<nat, NodeAttrs>): map<string, NodeAttrs>
  {
    AtomNamesInjective(cid);
    map x | x in atoms :: AtomName(cid, x) := StampNode(atoms[x], cid, name)
  }

  /** An atom's stamped node sits under its network name. */
  lemma StampedAt(cid: nat, name: string, atoms: map<nat, NodeAttrs>, x: nat)
    requires x in atoms
    ensures AtomName(cid, x) in Stamped(cid, name, atoms)
    ensures Stamped(cid, name, atoms)[AtomName(cid, x)] == StampNode(atoms[x], cid, name)
  {
    AtomNamesInjective(cid);
  }

  lemma StampedIs(cid: nat, name: string, order: seq<nat>, atoms: map<nat, NodeAttrs>, r: map<string, NodeAttrs>)
    requires forall x :: x in order <==> x in atoms
    requires r.Keys == set j | 0 <= j < |order| :: AtomName(cid, order[j])
    requires forall j :: 0 <= j < |order| ==> r[AtomName(cid, order[j])] == StampNode(atoms[order[j]], cid, name)
    ensures r == Stamped(cid, name, atoms)
  {
    var spec := Stamped(cid, name, atoms);
    StampedShape(cid, name, order, atoms);
    forall n | n in r ensures r[n] == spec[n] {
      var j :| 0 <= j < |order| && n == AtomName(cid, order[j]);
      StampedAt(cid, name, atoms, order[j]);
    }
  }

  /** The loop that stamps every edge of the new compound and types plain bonds
      (04:183-188), applied while copying the renamed edges out. */
  method StampEdges(cid: nat, name: string, edges: MolEdges) returns (r: map<EdgeKey, EdgeAttrs>)
    ensures r == StampedEdges(cid, name, edges)
  {
    r := map[];
    var todo := edges.Keys;
    while todo != {}
      invariant todo <= edges.Keys
      invariant r.Keys == set k | k in edges && k !in todo :: RenameKey(cid, k)
      invariant forall k :: k in edges && k !in todo ==> r[RenameKey(cid, k)] == StampEdge(edges[k], cid, name)
      decreases todo
    {
      var k :| k in todo;
      forall k' | k' in edges && k' !in todo ensures RenameKey(cid, k') != RenameKey(cid, k) {
        if RenameKey(cid, k') == RenameKey(cid, k) {
          RenameKeyInjective(cid, k', k);
        }
      }
      r := r[RenameKey(cid, k) := StampEdge(edges[k], cid, name)];
      todo := todo - {k};
    }
    var spec := StampedEdges(cid, name, edges);
    forall k | k in r ensures k in spec && r[k] == spec[k] {
      var m :| m in edges && k == RenameKey(cid, m);
    }
  }

  /** A compound's edges renamed into the network and stamped. */
  function StampedEdges(cid: nat, name: string, edges: MolEdges): map<EdgeKey, EdgeAttrs>
  {
    RenameKeysInjective(cid);
    map k | k in edges :: RenameKey(cid, k) := StampEdge(edges[k], cid, name)
  }

  /** The class an atom of the compound carries, if any. */
  function ClassOf(atoms: map<nat, NodeAttrs>, x: nat): Option<int>
  {
    if x in atoms then atoms[x].cls else None
  }

  /** mapped_atoms after the first `upto` atoms of a new compound are looked
      at: each atom that has a class becomes that class's atom (04:193-196). */
  function Recorded(mapped: map<int, string>, cid: nat, order: seq<nat>, atoms: map<nat, NodeAttrs>, upto: nat): map<int, string>
    requires upto <= |order|
  {
    if upto == 0 then mapped
    else
      var before := Recorded(mapped, cid, order, atoms, upto - 1);
      match ClassOf(atoms, order[upto - 1])
      case Some(c) => before[c := AtomName(cid, order[upto - 1])]
      case None => before
  }

  /** The position of the last of the first `upto` atoms that carries class `c`. */
  function LastOfClass(order: seq<nat>, atoms: map<nat, NodeAttrs>, c: int, upto: nat): (r: Option<nat>)
    requires upto <= |order|
    ensures r.Some? ==> r.value < upto && ClassOf(atoms, order[r.value]) == Some(c)
    ensures r.Some? ==> forall j :: r.value < j < upto ==> ClassOf(atoms, order[j]) != Some(c)
    ensures r.None? ==> forall j :: 0 <= j < upto ==> ClassOf(atoms, order[j]) != Some(c)
  {
    if upto == 0 then None
    else if ClassOf(atoms, order[upto - 1]) == Some(c) then Some(upto - 1)
    else LastOfClass(order, atoms, c, upto - 1)
  }

  /** The last atom listed with a class is that class's atom; classes no atom
      carries keep what they had. */
  lemma {:induction false} RecordedLastWins(mapped: map<int, string>, cid: nat, order: seq<nat>, atoms: map<nat, NodeAttrs>,
                                            upto: nat, c: int)
    requires upto <= |order|
    ensures var r := Recorded(mapped, cid, order, atoms, upto);
      match LastOfClass(order, atoms, c, upto)
      case Some(j) => c in r && r[c] == AtomName(cid, order[j])
      case None => (c in r <==> c in mapped) && (c in mapped ==> r[c] == mapped[c])
  {
    if upto > 0 {
      RecordedLastWins(mapped, cid, order, atoms, upto - 1, c);
    }
  }

  /** The loop at 04:193-197: record the class of every atom that has one and
      list the compound's atoms. */
  method RecordClasses(cid: nat, order: seq<nat>, atoms: map<nat, NodeAttrs>, mapped: map<int, string>)
    returns (r: map<int, string>, sub: seq<string>)
    ensures r == Recorded(mapped, cid, order, atoms, |order|)
    ensures sub == Renamed(cid, order)
  {
    r, sub := mapped, [];
    var i := 0;
    while i < |order|
      invariant 0 <= i <= |order|
      invariant r == Recorded(mapped, cid, order, atoms, i)
      invariant sub == Renamed(cid, order[..i])
    {
      var x := order[i];
      match ClassOf(atoms, x) {
        case Some(c) => r := r[c := AtomName(cid, x)];
        case None =>
      }
      sub := sub + [AtomName(cid, x)];
      i := i + 1;
    }
    assert order[..i] == order;
  }

  /** compound_to_subgraph after a new compound's atoms were appended one by
      one under its name: a compound without atoms never gets an entry. */
  function Register(cts: map<string, seq<string>>, name: string, sub: seq<string>): map<string, seq<string>>
  {
    if sub == [] then cts else cts[name := sub]
  }

  lemma NewNodesFresh(nodes: map<string, NodeAttrs>, edges: map<EdgeKey, EdgeAttrs>, cts: map<string, seq<string>>,
                      order: seq<nat>, newNodes: map<string, NodeAttrs>)
    requires Consistent(nodes, edges, cts)
    requires newNodes.Keys == set j | 0 <= j < |order| :: AtomName(|cts|, order[j])
    requires forall n :: n in newNodes ==> newNodes[n].compoundId == Some(|cts|)
    ensures newNodes.Keys !! nodes.Keys
    ensures forall n :: n in newNodes ==> Labelled(n, newNodes[n], |cts| + 1)
  {
    forall n | n in newNodes ensures n !in nodes && Labelled(n, newNodes[n], |cts| + 1) {
      var j :| 0 <= j < |order| && n == AtomName(|cts|, order[j]);
      NewAtomsAreFresh(nodes, edges, cts, order[j]);
      AtomNamePrefix(|cts|, order[j]);
    }
  }

  lemma NewEdgesFresh(nodes: map<string, NodeAttrs>, cid: nat, name: string, order: seq<nat>, atoms: set<nat>, medges: MolEdges,
                      newNodes: map<string, NodeAttrs>, newEdges: map<EdgeKey, EdgeAttrs>)
    requires forall x :: x in order <==> x in atoms
    requires FreshEdges(atoms, medges)
    requires newNodes.Keys == set j | 0 <= j < |order| :: AtomName(cid, order[j])
    requires newNodes.Keys !! nodes.Keys
    requires newEdges.Keys == set k | k in medges :: RenameKey(cid, k)
    requires forall k :: k in medges ==> newEdges[RenameKey(cid, k)] == StampEdge(medges[k], cid, name)
    ensures forall k :: k in newEdges ==> k <= newNodes.Keys && 0 < |k| <= 2 && (exists y :: y in k && y !in nodes)
    ensures forall k :: k in newEdges ==>
      newEdges[k].transition.Some? && CarriesIds(newEdges[k]) && newEdges[k].reactionId.None?
  {
    forall k | k in newEdges
      ensures k <= newNodes.Keys && 0 < |k| <= 2 && (exists y :: y in k && y !in nodes)
      ensures newEdges[k].transition.Some? && CarriesIds(newEdges[k]) && newEdges[k].reactionId.None?
    {
      var m :| m in medges && k == RenameKey(cid, m);
      RenameKeySize(cid, m);
      forall y | y in k ensures y in newNodes {
        var x :| x in m && y == AtomName(cid, x);
        var j :| 0 <= j < |order| && order[j] == x;
      }
      var y :| y in k;
      assert y in newNodes;
    }
  }

  /** Copying a new compound in (04:190-191, 197) keeps the network consistent
      and touches nothing that was there: its atom names and edges are new. */
  lemma InsertCompound(nodes: map<string, NodeAttrs>, edges: map<EdgeKey, EdgeAttrs>, cts: map<string, seq<string>>,
                       name: string, order: seq<nat>, atoms: map<nat, NodeAttrs>, medges: MolEdges)
    requires Consistent(nodes, edges, cts) && name !in cts
    requires forall x :: x in order <==> x in atoms
    requires FreshEdges(atoms.Keys, medges)
    ensures Stamped(|cts|, name, atoms).Keys !! nodes.Keys && StampedEdges(|cts|, name, medges).Keys !! edges.Keys
    ensures Consistent(nodes + Stamped(|cts|, name, atoms), edges + StampedEdges(|cts|, name, medges),
                       Register(cts, name, Renamed(|cts|, order)))
    ensures forall j :: 0 <= j < |order| ==> AtomName(|cts|, order[j]) in nodes + Stamped(|cts|, name, atoms)
  {
    StampedShape(|cts|, name, order, atoms);
    StampedEdgesShape(|cts|, name, medges);
    InsertStamped(nodes, edges, cts, name, order, atoms.Keys, medges, Stamped(|cts|, name, atoms), StampedEdges(|cts|, name, medges));
  }

  lemma StampedShape(cid: nat, name: string, order: seq<nat>, atoms: map<nat, NodeAttrs>)
    requires forall x :: x in order <==> x in atoms
    ensures Stamped(cid, name, atoms).Keys == set j | 0 <= j < |order| :: AtomName(cid, order[j])
    ensures forall n :: n in Stamped(cid, name, atoms) ==> Stamped(cid, name, atoms)[n].compoundId == Some(cid)
  {
    var s := Stamped(cid, name, atoms);
    forall n | n in s ensures exists j :: 0 <= j < |order| && n == AtomName(cid, order[j]) {
      var x :| x in atoms && n == AtomName(cid, x);
      var j :| 0 <= j < |order| && order[j] == x;
    }
  }

  lemma StampedEdgesShape(cid: nat, name: string, medges: MolEdges)
    ensures StampedEdges(cid, name, medges).Keys == set k | k in medges :: RenameKey(cid, k)
    ensures forall k :: k in medges ==> StampedEdges(cid, name, medges)[RenameKey(cid, k)] == StampEdge(medges[k], cid, name)
  {
    RenameKeysInjective(cid);
  }

  lemma InsertStamped(nodes: map<string, NodeAttrs>, edges: map<EdgeKey, EdgeAttrs>, cts: map<string, seq<string>>,
                       name: string, order: seq<nat>, atoms: set<nat>, medges: MolEdges,
                       newNodes: map<string, NodeAttrs>, newEdges: map<EdgeKey, EdgeAttrs>)
    requires Consistent(nodes, edges, cts) && name !in cts
    requires forall x :: x in order <==> x in atoms
    requires FreshEdges(atoms, medges)
    requires newNodes.Keys == set j | 0 <= j < |order| :: AtomName(|cts|, order[j])
    requires forall n :: n in newNodes ==> newNodes[n].compoundId == Some(|cts|)
    requires newEdges.Keys == set k | k in medges :: RenameKey(|cts|, k)
    requires forall k :: k in medges ==> newEdges[RenameKey(|cts|, k)] == StampEdge(medges[k], |cts|, name)
    ensures newNodes.Keys !! nodes.Keys && newEdges.Keys !! edges.Keys
    ensures Consistent(nodes + newNodes, edges + newEdges, Register(cts, name, Renamed(|cts|, order)))
  {
    var cid := |cts|;
    var cts' := Register(cts, name, Renamed(cid, order));
    NewNodesFresh(nodes, edges, cts, order, newNodes);
    NewEdgesFresh(nodes, cid, name, order, atoms, medges, newNodes, newEdges);
    assert newEdges.Keys !! edges.Keys;
    InsertedEdgeShape(nodes, edges, newNodes, newEdges);
    if order != [] {
      assert |cts'| == |cts| + 1;
    } else {
      assert newNodes == map[];
    }
    InsertedLabels(nodes, newNodes, |cts|, |cts'|);
    InsertedLists(nodes, cts, name, order, newNodes);
  }

  lemma InsertedEdgeShape(nodes: map<string, NodeAttrs>, edges: map<EdgeKey, EdgeAttrs>,
                          newNodes: map<string, NodeAttrs>, newEdges: map<EdgeKey, EdgeAttrs>)
    requires EdgeShape(nodes, edges)
    requires forall k :: k in newEdges ==> k <= newNodes.Keys && 0 < |k| <= 2
    requires forall k :: k in newEdges ==>
      newEdges[k].transition.Some? && CarriesIds(newEdges[k]) && newEdges[k].reactionId.None?
    ensures EdgeShape(nodes + newNodes, edges + newEdges)
  {
    var nodes', edges' := nodes + newNodes, edges + newEdges;
    forall k | k in edges'
      ensures k <= nodes'.Keys && 0 < |k| <= 2 && edges'[k].transition.Some? && CarriesIds(edges'[k])
      ensures edges'[k].reactionId.Some? ==> Orientations(k, edges'[k].reactionId.value)
    {
      if k in newEdges {
        assert edges'[k] == newEdges[k];
      } else {
        assert edges'[k] == edges[k];
      }
    }
  }

  lemma InsertedLabels(nodes: map<string, NodeAttrs>, newNodes: map<string, NodeAttrs>, registered: nat, registered': nat)
    requires AllLabelled(nodes, registered) && registered <= registered'
    requires forall n :: n in newNodes ==> Labelled(n, newNodes[n], registered')
    ensures AllLabelled(nodes + newNodes, registered')
  {
    var nodes' := nodes + newNodes;
    forall n | n in nodes' ensures Labelled(n, nodes'[n], registered') {
      if n in newNodes {
        assert nodes'[n] == newNodes[n];
      } else {
        assert nodes'[n] == nodes[n];
      }
    }
  }

  lemma InsertedLists(nodes: map<string, NodeAttrs>, cts: map<string, seq<string>>, name: string, order: seq<nat>,
                      newNodes: map<string, NodeAttrs>)
    requires ListsInside(nodes, cts)
    requires newNodes.Keys == set j | 0 <= j < |order| :: AtomName(|cts|, order[j])
    ensures ListsInside(nodes + newNodes, Register(cts, name, Renamed(|cts|, order)))
  {
    var cts' := Register(cts, name, Renamed(|cts|, order));
    forall nm, j | nm in cts' && 0 <= j < |cts'[nm]| ensures cts'[nm][j] in nodes + newNodes {
      if order != [] && nm == name {
        assert cts'[nm][j] == AtomName(|cts|, order[j]);
      } else {
        assert cts'[nm] == cts[nm];
      }
    }
  }


  /** The nodes a new compound brings: its atoms, renamed and stamped. */
  ghost function NewNodes(cid: nat, name: string, p: Parsed, explicit: bool): map<string, NodeAttrs>
  {
    Stamped(cid, name, RegisteredAtoms(p, explicit))
  }

  /** The edges a new compound brings: its edges, renamed and stamped. */
  ghost function NewEdges(cid: nat, name: string, p: Parsed, explicit: bool): map<EdgeKey, EdgeAttrs>
  {
    StampedEdges(cid, name, CompoundEdges(p, explicit))
  }

  lemma RenameKeysInjective(cid: nat)
    ensures forall k1, k2 :: RenameKey(cid, k1) == RenameKey(cid, k2) ==> k1 == k2
  {
    forall k1, k2 | RenameKey(cid, k1) == RenameKey(cid, k2) ensures k1 == k2 {
      RenameKeyInjective(cid, k1, k2);
    }
  }

  /** The parsed compound as the registry copies it in (04:166-177, 183-188):
      its atom order, its atoms with hydrogen classes dropped, and its edges
      with the orbit symmetry edges and the explicit hydrogens' bonds added. */
  method PrepareCompound(p: Parsed, explicit: bool) returns (order: seq<nat>, atoms: map<nat, NodeAttrs>, edges: MolEdges)
    requires ParsedOk(p)
    ensures order == CompoundOrder(p, explicit) && atoms == RegisteredAtoms(p, explicit) && edges == CompoundEdges(p, explicit)
    ensures forall x :: x in order <==> x in atoms
    ensures FreshEdges(atoms.Keys, edges)
  {
    atoms := MolAtoms(p, explicit);
    var sym := AddAutomorphisms(p.mol.order, BondEdges(p.mol), p.perms, true);
    OrbitEdgesAre(p.mol.order, BondEdges(p.mol), p.perms, sym);
    order, edges := p.mol.order, sym;
    if explicit {
      order := order + HydrogenIds(p.hydrogens);
      edges := edges + HydrogenBonds(p.hydrogens);
    }
    CompoundOrderAtoms(p, explicit);
    CompoundEdgesFresh(p, explicit);
  }

  lemma OrbitEdgesAre(order: seq<nat>, edges: MolEdges, perms: seq<map<nat, nat>>, r: MolEdges)
    requires r.Keys == edges.Keys + Pairs(OrbitSources(order, perms), perms)
    requires forall k :: k in r ==>
      r[k] == if k in Pairs(OrbitSources(order, perms), perms) then Sym(Base(edges, k)) else edges[k]
    ensures r == OrbitEdges(order, edges, perms)
  {
  }

  /** findHydrogenGroups over a compound's atoms, with the keys it chose kept out of sight. */
  method GroupHydrogens(sub: seq<string>, nodes: map<string, NodeAttrs>, edges: map<EdgeKey, EdgeAttrs>,
                        mappedH: map<int, seq<string>>, mappedAtoms: map<int, string>)
    returns (r: map<int, seq<string>>)
    requires forall j :: 0 <= j < |sub| ==> sub[j] in nodes
    ensures GroupsFound(sub, nodes, edges, mappedH, mappedAtoms, r)
  {
    ghost var keyOf;
    r, keyOf := FindHydrogenGroups(sub, nodes, edges, mappedH, mappedAtoms);
    assert HydrogenGrouping(sub, nodes, edges, mappedH, mappedAtoms, r, keyOf);
  }

  /** parseXDuct for a name that is not registered yet (04:163-201), on the
      registry's values and the prepared compound: the compound gets the next
      id, its atoms and edges enter the network renamed "<cid>_<atom>" and
      stamped, classes are recorded (the last atom of a class wins) and, with
      explicit hydrogens, the hydrogens are grouped. Nothing present before changes. */
  method AddCompound(nodes: map<string, NodeAttrs>, edges: map<EdgeKey, EdgeAttrs>, cts: map<string, seq<string>>,
                     name: string, order: seq<nat>, atoms: map<nat, NodeAttrs>, medges: MolEdges, explicit: bool,
                     mappedAtoms: map<int, string>, mappedH: map<int, seq<string>>)
    returns (nodes': map<string, NodeAttrs>, edges': map<EdgeKey, EdgeAttrs>, cts': map<string, seq<string>>,
             mappedAtoms': map<int, string>, mappedH': map<int, seq<string>>)
    requires Consistent(nodes, edges, cts) && name !in cts
    requires forall x :: x in order <==> x in atoms
    requires FreshEdges(atoms.Keys, medges)
    ensures Consistent(nodes', edges', cts')
    ensures cts' == Register(cts, name, Renamed(|cts|, order))
    ensures nodes' == nodes + Stamped(|cts|, name, atoms)
    ensures edges' == edges + StampedEdges(|cts|, name, medges)
    ensures mappedAtoms' == Recorded(mappedAtoms, |cts|, order, atoms, |order|)
    ensures explicit ==> GroupsFound(Renamed(|cts|, order), nodes', edges', mappedH, mappedAtoms', mappedH')
    ensures !explicit ==> mappedH' == mappedH
  {
    nodes', edges', cts', mappedAtoms' := CopyCompound(nodes, edges, cts, name, order, atoms, medges, mappedAtoms);
    if explicit {
      RegisteredListed(nodes', cts, name, Renamed(|cts|, order));
      mappedH' := GroupHydrogens(Renamed(|cts|, order), nodes', edges', mappedH, mappedAtoms');
    } else {
      mappedH' := mappedH;
    }
  }

  /** The atoms listed under a compound's name are nodes. */
  lemma RegisteredListed(nodes: map<string, NodeAttrs>, cts: map<string, seq<string>>, name: string, sub: seq<string>)
    requires ListsInside(nodes, Register(cts, name, sub))
    ensures forall j :: 0 <= j < |sub| ==> sub[j] in nodes
  {
    if sub != [] {
      assert Register(cts, name, sub)[name] == sub;
    }
  }

  /** The part of AddCompound that copies the compound in and records its classes. */
  method CopyCompound(nodes: map<string, NodeAttrs>, edges: map<EdgeKey, EdgeAttrs>, cts: map<string, seq<string>>,
                      name: string, order: seq<nat>, atoms: map<nat, NodeAttrs>, medges: MolEdges, mappedAtoms: map<int, string>)
    returns (nodes': map<string, NodeAttrs>, edges': map<EdgeKey, EdgeAttrs>, cts': map<string, seq<string>>,
             mappedAtoms': map<int, string>)
    requires Consistent(nodes, edges, cts) && name !in cts
    requires forall x :: x in order <==> x in atoms
    requires FreshEdges(atoms.Keys, medges)
    ensures Consistent(nodes', edges', cts')
    ensures cts' == Register(cts, name, Renamed(|cts|, order))
    ensures nodes' == nodes + Stamped(|cts|, name, atoms)
    ensures edges' == edges + StampedEdges(|cts|, name, medges)
    ensures mappedAtoms' == Recorded(mappedAtoms, |cts|, order, atoms, |order|)
  {
    var cid := |cts|;
    var newNodes := StampNodes(cid, name, order, atoms);
    var newEdges := StampEdges(cid, name, medges);
    InsertCompound(nodes, edges, cts, name, order, atoms, medges);
    nodes', edges' := nodes + newNodes, edges + newEdges;
    var sub;
    mappedAtoms', sub := RecordClasses(cid, order, atoms, mappedAtoms);
    cts' := Register(cts, name, sub);
  }

  /** A compound prepared and added, on the registry's values. */
  method NewCompound(nodes: map<string, NodeAttrs>, edges: map<EdgeKey, EdgeAttrs>, cts: map<string, seq<string>>,
                     name: string, p: Parsed, explicit: bool, mappedAtoms: map<int, string>, mappedH: map<int, seq<string>>)
    returns (nodes': map<string, NodeAttrs>, edges': map<EdgeKey, EdgeAttrs>, cts': map<string, seq<string>>,
             mappedAtoms': map<int, string>, mappedH': map<int, seq<string>>)
    requires Consistent(nodes, edges, cts) && ParsedOk(p) && name !in cts
    ensures Consistent(nodes', edges', cts')
    ensures cts' == Register(cts, name, Renamed(|cts|, CompoundOrder(p, explicit)))
    ensures nodes' == nodes + NewNodes(|cts|, name, p, explicit)
    ensures edges' == edges + NewEdges(|cts|, name, p, explicit)
    ensures mappedAtoms' == Recorded(mappedAtoms, |cts|, CompoundOrder(p, explicit), RegisteredAtoms(p, explicit), |CompoundOrder(p, explicit)|)
    ensures explicit ==> GroupsFound(Renamed(|cts|, CompoundOrder(p, explicit)), nodes', edges', mappedH, mappedAtoms', mappedH')
    ensures !explicit ==> mappedH' == mappedH
  {
    var order, atoms, medges := PrepareCompound(p, explicit);
    nodes', edges', cts', mappedAtoms', mappedH' :=
      AddCompound(nodes, edges, cts, name, order, atoms, medges, explicit, mappedAtoms, mappedH);
  }

  /** parseXDuct for a new name, in place (04:163-201): the network and both
      registries are updated as AddCompound describes, for the compound as the
      registry prepares it. */
  method RegisterNew(atn: Atn, name: string, p: Parsed, explicit: bool,
                     mappedAtoms: map<int, string>, mappedH: map<int, seq<string>>)
    returns (mappedAtoms': map<int, string>, mappedH': map<int, seq<string>>)
    requires atn.Valid() && ParsedOk(p) && name !in atn.compoundToSubgraph
    modifies atn
    ensures atn.Valid()
    ensures atn.compoundIdToCompound == old(atn.compoundIdToCompound)[|old(atn.compoundToSubgraph)| := (name, p.fixedSmiles)]
    ensures atn.compoundToSubgraph
         == Register(old(atn.compoundToSubgraph), name, Renamed(|old(atn.compoundToSubgraph)|, CompoundOrder(p, explicit)))
    ensures atn.nodes == old(atn.nodes) + NewNodes(|old(atn.compoundToSubgraph)|, name, p, explicit)
    ensures atn.edges == old(atn.edges) + NewEdges(|old(atn.compoundToSubgraph)|, name, p, explicit)
    ensures mappedAtoms' == Recorded(mappedAtoms, |old(atn.compoundToSubgraph)|, CompoundOrder(p, explicit),
                                     RegisteredAtoms(p, explicit), |CompoundOrder(p, explicit)|)
    ensures explicit ==> GroupsFound(Renamed(|old(atn.compoundToSubgraph)|, CompoundOrder(p, explicit)), atn.nodes, atn.edges, mappedH, mappedAtoms', mappedH')
    ensures !explicit ==> mappedH' == mappedH
  {
    atn.RecordCompound(name, p.fixedSmiles);
    var nodes, edges, cts;
    nodes, edges, cts, mappedAtoms', mappedH' :=
      NewCompound(atn.nodes, atn.edges, atn.compoundToSubgraph, name, p, explicit, mappedAtoms, mappedH);
    atn.SetGraph(nodes, edges, cts);
  }

  // ---------------------------------------------------------------------------
  // Registering a compound seen before
  // ---------------------------------------------------------------------------

  /** The classes the matched atoms of the compound carry. */
  ghost function MatchedClasses(matching: map<string, nat>, atoms: map<nat, NodeAttrs>): set<int>
  {
    set a | a in matching && ClassOf(atoms, matching[a]).Some? :: ClassOf(atoms, matching[a]).value
  }

  /** The loop at 04:153-156: for every network atom the monomorphism maps onto
      an atom with a class, that class becomes the network atom's. The mapping
      is a dictionary whose order the model does not fix, so when two matched
      atoms carry one class either may win. */
  method RecordMatch(matching: map<string, nat>, atoms: map<nat, NodeAttrs>, mapped: map<int, string>)
    returns (r: map<int, string>)
    ensures r.Keys == mapped.Keys + MatchedClasses(matching, atoms)
    ensures forall c :: c in MatchedClasses(matching, atoms) ==> r[c] in matching && ClassOf(atoms, matching[r[c]]) == Some(c)
    ensures forall c :: c in mapped && c !in MatchedClasses(matching, atoms) ==> r[c] == mapped[c]
  {
    r := mapped;
    var todo := matching.Keys;
    while todo != {}
      invariant todo <= matching.Keys
      invariant r.Keys == mapped.Keys + MatchedClasses(matching - todo, atoms)
      invariant forall c :: c in MatchedClasses(matching - todo, atoms) ==> r[c] in matching && ClassOf(atoms, matching[r[c]]) == Some(c)
      invariant forall c :: c in mapped && c !in MatchedClasses(matching - todo, atoms) ==> r[c] == mapped[c]
      decreases todo
    {
      var a :| a in todo;
      MatchedClassesStep(matching, todo, atoms, a);
      match ClassOf(atoms, matching[a]) {
        case Some(c) => r := r[c := a];
        case None =>
      }
      todo := todo - {a};
    }
    assert matching - {} == matching;
  }

  lemma MatchedClassesStep(matching: map<string, nat>, todo: set<string>, atoms: map<nat, NodeAttrs>, a: string)
    requires a in todo && a in matching
    ensures MatchedClasses(matching - (todo - {a}), atoms)
         == MatchedClasses(matching - todo, atoms) + (if ClassOf(atoms, matching[a]).Some? then {ClassOf(atoms, matching[a]).value} else {})
  {
    var before, after := matching - todo, matching - (todo - {a});
    assert after == before[a := matching[a]];
    var extra := if ClassOf(atoms, matching[a]).Some? then {ClassOf(atoms, matching[a]).value} else {};
    forall c | c in MatchedClasses(after, atoms)
      ensures c in MatchedClasses(before, atoms) + extra
    {
      var b :| b in after && ClassOf(atoms, after[b]).Some? && ClassOf(atoms, after[b]).value == c;
      if b != a {
        assert b in before;
      }
    }
    forall c | c in MatchedClasses(before, atoms) + extra
      ensures c in MatchedClasses(after, atoms)
    {
      if c in MatchedClasses(before, atoms) {
        var b :| b in before && ClassOf(atoms, before[b]).Some? && ClassOf(atoms, before[b]).value == c;
        assert b in after && after[b] == before[b];
      } else {
        assert a in after && after[a] == matching[a];
      }
    }
  }

  /** parseXDuct for a name already registered (04:142-161): the network does
      not change. When the monomorphism oracle found the registered atoms in
      the parsed compound, the classes of the matched atoms are recorded;
      otherwise the classes stay as they were. With explicit hydrogens, the
      registered compound's hydrogens are grouped. */
  method UseExisting(atn: Atn, name: string, p: Parsed, explicit: bool, matching: Option<map<string, nat>>,
                     mappedAtoms: map<int, string>, mappedH: map<int, seq<string>>)
    returns (mappedAtoms': map<int, string>, mappedH': map<int, seq<string>>)
    requires atn.Valid() && ParsedOk(p) && name in atn.compoundToSubgraph
    ensures matching.None? ==> mappedAtoms' == mappedAtoms
    ensures matching.Some? ==> mappedAtoms'.Keys == mappedAtoms.Keys + MatchedClasses(matching.value, RegisteredAtoms(p, explicit))
    ensures matching.Some? ==> forall c :: c in MatchedClasses(matching.value, RegisteredAtoms(p, explicit)) ==>
              mappedAtoms'[c] in matching.value && ClassOf(RegisteredAtoms(p, explicit), matching.value[mappedAtoms'[c]]) == Some(c)
    ensures matching.Some? ==> forall c :: c in mappedAtoms && c !in MatchedClasses(matching.value, RegisteredAtoms(p, explicit)) ==>
              mappedAtoms'[c] == mappedAtoms[c]
    ensures explicit ==> GroupsFound(atn.compoundToSubgraph[name], atn.nodes, atn.edges, mappedH, mappedAtoms', mappedH')
    ensures !explicit ==> mappedH' == mappedH
  {
    mappedAtoms' := mappedAtoms;
    if matching.Some? {
      var atoms := MolAtoms(p, explicit);
      mappedAtoms' := RecordMatch(matching.value, atoms, mappedAtoms);
    }
    mappedH' := mappedH;
    if explicit {
      var sub := atn.compoundToSubgraph[name];
      assert forall j :: 0 <= j < |sub| ==> sub[j] in atn.nodes;
      mappedH' := GroupHydrogens(sub, atn.nodes, atn.edges, mappedH, mappedAtoms');
    }
  }

  // ---------------------------------------------------------------------------
  // parseXDuct
  // ---------------------------------------------------------------------------

  /** The classes recorded for a registered compound: the monomorphism's
      matched classes on success, nothing new on failure (04:151-157). */
  ghost predicate ClassesMatched(matching: Option<map<string, nat>>, atoms: map<nat, NodeAttrs>,
                                 mapped: map<int, string>, mapped': map<int, string>)
  {
    match matching
    case None => mapped' == mapped
    case Some(m) =>
      mapped'.Keys == mapped.Keys + MatchedClasses(m, atoms)
      && (forall c :: c in MatchedClasses(m, atoms) ==> mapped'[c] in m && ClassOf(atoms, m[mapped'[c]]) == Some(c))
      && (forall c :: c in mapped && c !in MatchedClasses(m, atoms) ==> mapped'[c] == mapped[c])
  }

  /** What one call of parseXDuct does (04:129-201), from the registry `r`
      and the side's classes and hydrogen groups so far to `r'`, `mapped'`
      and `mappedH'`. A registered name leaves the registry as it is and
      contributes the classes the monomorphism matched; a new name gets the
      next id, its stamped atoms and bonds, and records its classes. With
      explicit hydrogens the compound's hydrogens are grouped. */
  ghost predicate ParsedInto(r: Registry, name: string, p: Parsed, explicit: bool, matching: Option<map<string, nat>>,
                             mapped: map<int, string>, mappedH: map<int, seq<string>>,
                             r': Registry, mapped': map<int, string>, mappedH': map<int, seq<string>>)
  {
    (if name in r.cts then
       r' == r && ClassesMatched(matching, RegisteredAtoms(p, explicit), mapped, mapped')
     else
       var cid := |r.cts|;
       r'.cids == r.cids[cid := (name, p.fixedSmiles)]
       && r'.cts == Register(r.cts, name, Renamed(cid, CompoundOrder(p, explicit)))
       && r'.nodes == r.nodes + NewNodes(cid, name, p, explicit)
       && r'.edges == r.edges + NewEdges(cid, name, p, explicit)
       && mapped' == Recorded(mapped, cid, CompoundOrder(p, explicit), RegisteredAtoms(p, explicit), |CompoundOrder(p, explicit)|))
    && (explicit ==> GroupsFound(if name in r.cts then r.cts[name] else Renamed(|r.cts|, CompoundOrder(p, explicit)),
                                 r'.nodes, r'.edges, mappedH, mapped', mappedH'))
    && (!explicit ==> mappedH' == mappedH)
  }

  /** A new name whose molecule has no atoms gets its id recorded with its
      name and SMILES, but no atom list (04:193-197 never runs), so the name
      stays unregistered and the next new name receives the same id. */
  lemma EmptyKeepsId(r: Registry, name: string, p: Parsed, explicit: bool, matching: Option<map<string, nat>>,
                     mapped: map<int, string>, mappedH: map<int, seq<string>>,
                     r': Registry, mapped': map<int, string>, mappedH': map<int, seq<string>>)
    requires name !in r.cts && CompoundOrder(p, explicit) == []
    requires ParsedInto(r, name, p, explicit, matching, mapped, mappedH, r', mapped', mappedH')
    ensures name !in r'.cts && |r'.cts| == |r.cts|
    ensures |r.cts| in r'.cids && r'.cids[|r.cts|] == (name, p.fixedSmiles)
  {
    assert Renamed(|r.cts|, CompoundOrder(p, explicit)) == [];
  }

  /** parseXDuct (04:129-201) on the parsed compound and the monomorphism the
      oracle found for it: a registered name contributes classes only; a new
      name is registered. */
  method ParseXDuct(atn: Atn, name: string, p: Parsed, explicit: bool, matching: Option<map<string, nat>>,
                    mappedAtoms: map<int, string>, mappedH: map<int, seq<string>>)
    returns (mappedAtoms': map<int, string>, mappedH': map<int, seq<string>>)
    requires atn.Valid() && ParsedOk(p)
    modifies atn
    ensures atn.Valid()
    ensures old(atn.nodes).Keys <= atn.nodes.Keys && old(atn.compoundToSubgraph).Keys <= atn.compoundToSubgraph.Keys
    ensures ParsedInto(old(atn.Snapshot()), name, p, explicit, matching, mappedAtoms, mappedH,
                       atn.Snapshot(), mappedAtoms', mappedH')
  {
    if name in atn.compoundToSubgraph {
      mappedAtoms', mappedH' := UseExisting(atn, name, p, explicit, matching, mappedAtoms, mappedH);
    } else {
      mappedAtoms', mappedH' := RegisterNew(atn, name, p, explicit, mappedAtoms, mappedH);
    }
  }
}
