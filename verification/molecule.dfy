/** The steps that work on one compound's graph before it joins the network:
    dropping the atom-map class of hydrogens, inserting symmetry edges from the
    compound's automorphisms (addAutomorphisms), and grouping hydrogens under
    the class of the mapped heavy atom they hang on (findHydrogenGroups). */
module Molecules {
  import opened Common
  import opened AtnTypes

  /** A compound as the SMILES parser hands it over: atoms numbered by the
      parser, `order` the order in which the graph lists them, `bonds` its
      edges (a bond is the set of its two atoms). */
  datatype Molecule = Molecule(order: seq<nat>, atoms: map<nat, NodeAttrs>, bonds: set<set<nat>>)

  predicate Distinct<T(==)>(s: seq<T>)
  {
    forall i, j :: 0 <= i < j < |s| ==> s[i] != s[j]
  }

  /** The order lists every atom once, and bonds join atoms of the molecule. */
  ghost predicate WellFormed(m: Molecule)
  {
    Distinct(m.order)
    && (forall j :: 0 <= j < |m.order| ==> m.order[j] in m.atoms)
    && (forall x :: x in m.atoms ==> x in m.order)
    && (forall b :: b in m.bonds ==> b <= m.atoms.Keys && 0 < |b| <= 2)
  }

  predicate IsHydrogen(a: NodeAttrs)
  {
    a.element == Some("H")
  }

  /** The atom-to-atom mapper gives hydrogens no reliable class, so every
      hydrogen loses its class; all other atoms are left alone. */
  method StripHydrogenClasses(atoms: map<nat, NodeAttrs>) returns (r: map<nat, NodeAttrs>)
    ensures r.Keys == atoms.Keys
    ensures forall n :: n in r ==> r[n] == atoms[n].(cls := r[n].cls)
    ensures forall n :: n in r ==> r[n].cls == if IsHydrogen(atoms[n]) then None else atoms[n].cls
  {
    r := atoms;
    var todo := atoms.Keys;
    while todo != {}
      invariant todo <= atoms.Keys && r.Keys == atoms.Keys
      invariant forall n :: n in r ==> r[n] == atoms[n].(cls := r[n].cls)
      invariant forall n :: n in r && n !in todo ==> r[n].cls == if IsHydrogen(atoms[n]) then None else atoms[n].cls
      invariant forall n :: n in todo ==> r[n] == atoms[n]
      decreases todo
    {
      var n :| n in todo;
      todo := todo - {n};
      if IsHydrogen(r[n]) && r[n].cls.Some? {
        r := r[n := r[n].(cls := None)];
      }
    }
  }

  // ---------------------------------------------------------------------------
  // Symmetry edges (addAutomorphisms)
  // ---------------------------------------------------------------------------

  type MolEdges = map<set<nat>, EdgeAttrs>

  /** The edges of a freshly parsed molecule: its bonds, with no attribute the
      network cares about yet. */
  function BondEdges(m: Molecule): (r: MolEdges)
    ensures r.Keys == m.bonds
  {
    map b | b in m.bonds :: NoAttrs
  }

  /** Every permutation is defined on every atom in `order`. */
  ghost predicate Covers(order: seq<nat>, perms: seq<map<nat, nat>>)
  {
    forall i, v :: 0 <= i < |perms| && v in order ==> v in perms[i]
  }

  /** The atoms that some permutation moves `v` to. */
  ghost function NodeImages(v: nat, perms: seq<map<nat, nat>>): set<nat>
  {
    set i | 0 <= i < |perms| && v in perms[i] && perms[i][v] != v :: perms[i][v]
  }

  /** The edges joining `v` to each atom some permutation moves it to. */
  ghost function NodePairs(v: nat, perms: seq<map<nat, nat>>): set<set<nat>>
  {
    set i | 0 <= i < |perms| && v in perms[i] && perms[i][v] != v :: {v, perms[i][v]}
  }

  ghost function Images(src: set<nat>, perms: seq<map<nat, nat>>): set<nat>
  {
    set v, i | v in src && 0 <= i < |perms| && v in perms[i] && perms[i][v] != v :: perms[i][v]
  }

  ghost function Pairs(src: set<nat>, perms: seq<map<nat, nat>>): set<set<nat>>
  {
    set v, i | v in src && 0 <= i < |perms| && v in perms[i] && perms[i][v] != v :: {v, perms[i][v]}
  }

  /** An edge marked as a symmetry: networkx keeps the other attributes of an
      edge that already exists. */
  function Sym(a: EdgeAttrs): (r: EdgeAttrs)
    ensures r.transition == Some(Symmetry) && r.directed == Some(Bidirected)
  {
    a.(transition := Some(Symmetry), directed := Some(Bidirected))
  }

  /** The nodes orbit mode uses as sources after visiting `order`: a node is a
      source unless an earlier source was moved onto it (the blockset). */
  ghost function OrbitSources(order: seq<nat>, perms: seq<map<nat, nat>>): set<nat>
    decreases |order|
  {
    if order == [] then {}
    else
      var prev := OrbitSources(order[..|order| - 1], perms);
      if order[|order| - 1] in Images(prev, perms) then prev else prev + {order[|order| - 1]}
  }

  /** Every pair of an atom and the atom a permutation moves it to, over all
      permutations: the edges full mode considers. */
  ghost function AllPairs(perms: seq<map<nat, nat>>): set<set<nat>>
  {
    set v, i | 0 <= i < |perms| && v in perms[i] && perms[i][v] != v :: {v, perms[i][v]}
  }

  lemma ImagesStep(src: set<nat>, v: nat, perms: seq<map<nat, nat>>)
    ensures Images(src + {v}, perms) == Images(src, perms) + NodeImages(v, perms)
    ensures Pairs(src + {v}, perms) == Pairs(src, perms) + NodePairs(v, perms)
  {
  }

  lemma NodeImagesStep(v: nat, perms: seq<map<nat, nat>>, k: nat)
    requires k < |perms| && v in perms[k]
    ensures NodeImages(v, perms[..k + 1]) == NodeImages(v, perms[..k]) + (if perms[k][v] != v then {perms[k][v]} else {})
    ensures NodePairs(v, perms[..k + 1]) == NodePairs(v, perms[..k]) + (if perms[k][v] != v then {{v, perms[k][v]}} else {})
  {
    var p, q := perms[..k + 1], perms[..k];
    assert forall i :: 0 <= i < k ==> p[i] == q[i];
    assert p[k] == perms[k];
  }

  /** One node of orbit mode: join `node` to every atom a permutation moves it
      to, and put those atoms in the blockset. */
  method JoinImages(node: nat, perms: seq<map<nat, nat>>, ghost edges: MolEdges, ghost done: set<set<nat>>,
                    r0: MolEdges, blockset0: set<nat>)
    returns (r: MolEdges, blockset: set<nat>)
    requires forall i :: 0 <= i < |perms| ==> node in perms[i]
    requires r0.Keys == edges.Keys + done
    requires forall e :: e in r0 ==> r0[e] == if e in done then Sym(Base(edges, e)) else edges[e]
    ensures blockset == blockset0 + NodeImages(node, perms)
    ensures r.Keys == edges.Keys + done + NodePairs(node, perms)
    ensures forall e :: e in r ==> r[e] == if e in done + NodePairs(node, perms) then Sym(Base(edges, e)) else edges[e]
  {
    r, blockset := r0, blockset0;
    var k := 0;
    while k < |perms|
      invariant 0 <= k <= |perms|
      invariant blockset == blockset0 + NodeImages(node, perms[..k])
      invariant r.Keys == edges.Keys + done + NodePairs(node, perms[..k])
      invariant forall e :: e in r ==>
        r[e] == if e in done + NodePairs(node, perms[..k]) then Sym(Base(edges, e)) else edges[e]
    {
      NodeImagesStep(node, perms, k);
      var image := perms[k][node];
      if node != image {
        r := r[{node, image} := Sym(Base(r, {node, image}))];
        blockset := blockset + {image};
      }
      k := k + 1;
    }
    assert perms[..|perms|] == perms;
  }

  /** addAutomorphisms in orbit mode (the default): each node not yet in the
      blockset is joined to every atom a permutation moves it to, and those
      atoms enter the blockset. The edge becomes a Symmetry/Bidirected edge
      even when it is already a bond. */
  method AddOrbitSymmetries(order: seq<nat>, edges: MolEdges, perms: seq<map<nat, nat>>) returns (r: MolEdges)
    requires Covers(order, perms)
    ensures r.Keys == edges.Keys + Pairs(OrbitSources(order, perms), perms)
    ensures forall k :: k in r ==>
      r[k] == if k in Pairs(OrbitSources(order, perms), perms) then Sym(Base(edges, k)) else edges[k]
  {
    r := edges;
    var blockset: set<nat> := {};
    ghost var sources: set<nat> := {};
    var j := 0;
    while j < |order|
      invariant 0 <= j <= |order|
      invariant sources == OrbitSources(order[..j], perms)
      invariant blockset == Images(sources, perms)
      invariant r.Keys == edges.Keys + Pairs(sources, perms)
      invariant forall k :: k in r ==> r[k] == if k in Pairs(sources, perms) then Sym(Base(edges, k)) else edges[k]
    {
      var node := order[j];
      assert order[..j + 1][..j] == order[..j] && order[..j + 1][j] == node;
      if node !in blockset {
        assert node in order;
        r, blockset := JoinImages(node, perms, edges, Pairs(sources, perms), r, blockset);
        ImagesStep(sources, node, perms);
        sources := sources + {node};
      }
      j := j + 1;
    }
    assert order[..|order|] == order;
  }

  /** addAutomorphisms with limit_to_orbits off: every moved pair of every
      permutation is joined, but only where no edge exists yet, so existing
      edges are never touched. */
  method AddAllSymmetries(edges: MolEdges, perms: seq<map<nat, nat>>) returns (r: MolEdges)
    ensures r.Keys == edges.Keys + AllPairs(perms)
    ensures forall k :: k in r ==> r[k] == if k in edges then edges[k] else Sym(NoAttrs)
  {
    r := edges;
    var i := 0;
    ghost var done: set<set<nat>> := {};
    while i < |perms|
      invariant 0 <= i <= |perms|
      invariant done == AllPairs(perms[..i])
      invariant r.Keys == edges.Keys + done
      invariant forall k :: k in r ==> r[k] == if k in edges then edges[k] else Sym(NoAttrs)
    {
      var todo := perms[i].Keys;
      while todo != {}
        invariant todo <= perms[i].Keys
        invariant r.Keys == edges.Keys + done + (set v | v in perms[i].Keys - todo && perms[i][v] != v :: {v, perms[i][v]})
        invariant forall k :: k in r ==> r[k] == if k in edges then edges[k] else Sym(NoAttrs)
        decreases todo
      {
        var v :| v in todo;
        todo := todo - {v};
        if v != perms[i][v] && {v, perms[i][v]} !in r {
          r := r[{v, perms[i][v]} := Sym(NoAttrs)];
        }
      }
      AllPairsStep(perms, i);
      done := done + (set v | v in perms[i].Keys && perms[i][v] != v :: {v, perms[i][v]});
      i := i + 1;
    }
    assert perms[..|perms|] == perms;
  }

  /** addAutomorphisms: symmetry edges from the given automorphisms, in orbit
      mode or in full mode. */
  method AddAutomorphisms(order: seq<nat>, edges: MolEdges, perms: seq<map<nat, nat>>, limitToOrbits: bool)
    returns (r: MolEdges)
    requires Covers(order, perms)
    ensures limitToOrbits ==> r.Keys == edges.Keys + Pairs(OrbitSources(order, perms), perms)
    ensures limitToOrbits ==> forall k :: k in r ==>
      r[k] == if k in Pairs(OrbitSources(order, perms), perms) then Sym(Base(edges, k)) else edges[k]
    ensures !limitToOrbits ==> r.Keys == edges.Keys + AllPairs(perms)
    ensures !limitToOrbits ==> forall k :: k in r ==> r[k] == if k in edges then edges[k] else Sym(NoAttrs)
  {
    if limitToOrbits {
      r := AddOrbitSymmetries(order, edges, perms);
    } else {
      r := AddAllSymmetries(edges, perms);
    }
  }

  lemma AllPairsStep(perms: seq<map<nat, nat>>, i: nat)
    requires i < |perms|
    ensures AllPairs(perms[..i + 1]) == AllPairs(perms[..i]) + (set v | v in perms[i].Keys && perms[i][v] != v :: {v, perms[i][v]})
  {
    var p, q := perms[..i + 1], perms[..i];
    assert forall j :: 0 <= j < i ==> p[j] == q[j];
    assert p[i] == perms[i];
  }

  /** No symmetry edge is a self-loop: every pair joins two distinct atoms. */
  lemma PairsAreProper(src: set<nat>, perms: seq<map<nat, nat>>)
    ensures forall k :: k in Pairs(src, perms) ==> |k| == 2
    ensures forall k :: k in AllPairs(perms) ==> |k| == 2
  {
    forall k | k in Pairs(src, perms) ensures |k| == 2 {
      var v, i :| v in src && 0 <= i < |perms| && v in perms[i] && perms[i][v] != v && k == {v, perms[i][v]};
      assert k == {v} + {perms[i][v]};
    }
    forall k | k in AllPairs(perms) ensures |k| == 2 {
      var v, i :| 0 <= i < |perms| && v in perms[i] && perms[i][v] != v && k == {v, perms[i][v]};
      assert k == {v} + {perms[i][v]};
    }
  }

  /** A blocked node is never a source: the node at position j is a source
      exactly when no source before it is moved onto it. */
  lemma {:induction false} SourceIffNotBlocked(order: seq<nat>, perms: seq<map<nat, nat>>, j: nat)
    requires Distinct(order) && j < |order|
    ensures order[j] in OrbitSources(order, perms) <==> order[j] !in Images(OrbitSources(order[..j], perms), perms)
  {
    var n := |order| - 1;
    var prefix := order[..n];
    if j < n {
      assert prefix[j] == order[j] && prefix[..j] == order[..j];
      SourceIffNotBlocked(prefix, perms, j);
      assert order[n] != order[j];
    } else {
      assert order[..j] == prefix;
      SourcesWithin(prefix, perms);
      assert order[j] !in prefix;
    }
  }

  lemma {:induction false} SourcesWithin(order: seq<nat>, perms: seq<map<nat, nat>>)
    ensures forall v :: v in OrbitSources(order, perms) ==> v in order
  {
    if order != [] {
      SourcesWithin(order[..|order| - 1], perms);
    }
  }

  lemma ImagesMonotone(a: set<nat>, b: set<nat>, perms: seq<map<nat, nat>>)
    requires a <= b
    ensures Images(a, perms) <= Images(b, perms)
  {
  }

  lemma {:induction false} SourcesGrow(order: seq<nat>, perms: seq<map<nat, nat>>, j: nat)
    requires j <= |order|
    ensures OrbitSources(order[..j], perms) <= OrbitSources(order, perms)
    decreases |order|
  {
    if j < |order| {
      var n := |order| - 1;
      assert order[..n][..j] == order[..j];
      SourcesGrow(order[..n], perms, j);
    } else {
      assert order[..j] == order;
    }
  }

  /** Orbit mode still reaches every atom: each node is a source or is moved
      onto by a source, so every orbit gets at least one symmetry edge. */
  lemma OrbitCoverage(order: seq<nat>, perms: seq<map<nat, nat>>)
    requires Distinct(order)
    ensures forall v :: v in order ==> v in OrbitSources(order, perms) || v in Images(OrbitSources(order, perms), perms)
  {
    forall v | v in order
      ensures v in OrbitSources(order, perms) || v in Images(OrbitSources(order, perms), perms)
    {
      var j :| 0 <= j < |order| && order[j] == v;
      SourceIffNotBlocked(order, perms, j);
      SourcesGrow(order, perms, j);
      ImagesMonotone(OrbitSources(order[..j], perms), OrbitSources(order, perms), perms);
    }
  }

  // ---------------------------------------------------------------------------
  // Hydrogen groups (findHydrogenGroups)
  // ---------------------------------------------------------------------------

  /** The neighbours of `n` inside the compound whose atoms are `sub`. */
  function SubNeighbours(sub: seq<string>, edges: map<EdgeKey, EdgeAttrs>, n: string): set<string>
  {
    set u | u in sub && Key(n, u) in edges
  }

  /** Some neighbour of `n` in the compound is the atom of a mapped class. */
  ghost predicate HasMappedNeighbour(sub: seq<string>, edges: map<EdgeKey, EdgeAttrs>, mappedAtoms: map<int, string>, n: string)
  {
    exists c :: c in mappedAtoms && mappedAtoms[c] in SubNeighbours(sub, edges, n)
  }

  /** The class a hydrogen is grouped under: NO_MAP_DEFAULT_KEY when none of its
      neighbours is mapped, otherwise a class whose atom is one of them. */
  ghost predicate GroupKey(sub: seq<string>, edges: map<EdgeKey, EdgeAttrs>, mappedAtoms: map<int, string>, n: string, key: int)
  {
    (!HasMappedNeighbour(sub, edges, mappedAtoms, n) ==> key == NoMapDefaultKey)
    && (HasMappedNeighbour(sub, edges, mappedAtoms, n) ==> key in mappedAtoms && mappedAtoms[key] in SubNeighbours(sub, edges, n))
  }

  /** The hydrogens among the first `upto` atoms of `sub`, in order, whose group key is `key`. */
  function Grouped(sub: seq<string>, nodes: map<string, NodeAttrs>, keyOf: seq<int>, key: int, upto: nat): seq<string>
    requires upto <= |keyOf| && upto <= |sub| && forall j :: 0 <= j < |sub| ==> sub[j] in nodes
  {
    if upto == 0 then []
    else
      Grouped(sub, nodes, keyOf, key, upto - 1)
      + (if IsHydrogen(nodes[sub[upto - 1]]) && keyOf[upto - 1] == key then [sub[upto - 1]] else [])
  }

  function Get(m: map<int, seq<string>>, k: int): seq<string>
  {
    if k in m then m[k] else []
  }

  /** `mapped_hydrogens.setdefault(key, []).append(n)` */
  function AddTo(m: map<int, seq<string>>, key: int, n: string): (r: map<int, seq<string>>)
    ensures r.Keys == m.Keys + {key}
    ensures forall k :: Get(r, k) == if k == key then Get(m, k) + [n] else Get(m, k)
  {
    m[key := Get(m, key) + [n]]
  }

  /** inv_mapped_atom: for every mapped atom, a class mapped onto it. */
  method InvertMapped(mappedAtoms: map<int, string>) returns (inv: map<string, int>)
    ensures forall a :: a in inv ==> inv[a] in mappedAtoms && mappedAtoms[inv[a]] == a
    ensures forall c :: c in mappedAtoms ==> mappedAtoms[c] in inv
  {
    inv := map[];
    var todo := mappedAtoms.Items;
    while todo != {}
      invariant todo <= mappedAtoms.Items
      invariant forall a :: a in inv ==> inv[a] in mappedAtoms && mappedAtoms[inv[a]] == a
      invariant forall c :: c in mappedAtoms && (c, mappedAtoms[c]) !in todo ==> mappedAtoms[c] in inv
      decreases todo
    {
      var item :| item in todo;
      todo := todo - {item};
      inv := inv[item.1 := item.0];
    }
  }

  /** The inner loop of findHydrogenGroups: the class of the last mapped
      neighbour met, or NO_MAP_DEFAULT_KEY when none is mapped. */
  method ClassOfNeighbours(sub: seq<string>, edges: map<EdgeKey, EdgeAttrs>, mappedAtoms: map<int, string>,
                           inv: map<string, int>, n: string)
    returns (key: int)
    requires forall a :: a in inv ==> inv[a] in mappedAtoms && mappedAtoms[inv[a]] == a
    requires forall c :: c in mappedAtoms ==> mappedAtoms[c] in inv
    ensures GroupKey(sub, edges, mappedAtoms, n, key)
  {
    key := NoMapDefaultKey;
    var neighbours := SubNeighbours(sub, edges, n);
    ghost var all, seen: set<string> := neighbours, {};
    ghost var hit := false;
    while neighbours != {}
      invariant neighbours <= all && seen == all - neighbours
      invariant !hit ==> key == NoMapDefaultKey && forall a :: a in seen ==> a !in inv
      invariant hit ==> key in mappedAtoms && mappedAtoms[key] in seen
      decreases neighbours
    {
      var u :| u in neighbours;
      neighbours := neighbours - {u};
      seen := seen + {u};
      if u in inv {
        key := inv[u];
        hit := true;
      }
    }
    if HasMappedNeighbour(sub, edges, mappedAtoms, n) {
      var c :| c in mappedAtoms && mappedAtoms[c] in SubNeighbours(sub, edges, n);
      assert mappedAtoms[c] in seen && mappedAtoms[c] in inv;
    }
  }

  /** findHydrogenGroups: every hydrogen of the compound `sub` is appended,
      once and in order, to the list of its group key; lists that were there
      keep their entries in front. */
  method FindHydrogenGroups(sub: seq<string>, nodes: map<string, NodeAttrs>, edges: map<EdgeKey, EdgeAttrs>,
                            mappedH: map<int, seq<string>>, mappedAtoms: map<int, string>)
    returns (r: map<int, seq<string>>, ghost keyOf: seq<int>)
    requires forall j :: 0 <= j < |sub| ==> sub[j] in nodes
    ensures |keyOf| == |sub|
    ensures forall i :: 0 <= i < |sub| && IsHydrogen(nodes[sub[i]]) ==> GroupKey(sub, edges, mappedAtoms, sub[i], keyOf[i])
    ensures r.Keys == mappedH.Keys + HydrogenKeys(sub, nodes, keyOf)
    ensures forall k :: k in r ==> r[k] == Get(mappedH, k) + Grouped(sub, nodes, keyOf, k, |sub|)
  {
    var inv := InvertMapped(mappedAtoms);
    r, keyOf := mappedH, [];
    var i := 0;
    while i < |sub|
      invariant 0 <= i <= |sub| && |keyOf| == i
      invariant KeysValid(sub, nodes, edges, mappedAtoms, keyOf)
      invariant r == Appended(mappedH, sub, nodes, keyOf, i)
    {
      var n := sub[i];
      var key := 0;
      if IsHydrogen(nodes[n]) {
        key := ClassOfNeighbours(sub, edges, mappedAtoms, inv, n);
        r := AddTo(r, key, n);
      }
      AppendedPrefix(mappedH, sub, nodes, keyOf, keyOf + [key], i);
      KeysValidStep(sub, nodes, edges, mappedAtoms, keyOf, key);
      keyOf := keyOf + [key];
      i := i + 1;
    }
    AppendedKeys(mappedH, sub, nodes, keyOf, |sub|);
    assert keyOf[..|sub|] == keyOf;
    forall k | k in r
      ensures r[k] == Get(mappedH, k) + Grouped(sub, nodes, keyOf, k, |sub|)
    {
      AppendedGet(mappedH, sub, nodes, keyOf, |sub|, k);
    }
    assert KeysValid(sub, nodes, edges, mappedAtoms, keyOf);
  }

  /** What findHydrogenGroups leaves in `r` when it gave the i-th atom of `sub`
      the key keyOf[i]. */
  ghost predicate HydrogenGrouping(sub: seq<string>, nodes: map<string, NodeAttrs>, edges: map<EdgeKey, EdgeAttrs>,
                                   mappedH: map<int, seq<string>>, mappedAtoms: map<int, string>,
                                   r: map<int, seq<string>>, keyOf: seq<int>)
    requires forall j :: 0 <= j < |sub| ==> sub[j] in nodes
  {
    |keyOf| == |sub|
    && (forall i :: 0 <= i < |sub| && IsHydrogen(nodes[sub[i]]) ==> GroupKey(sub, edges, mappedAtoms, sub[i], keyOf[i]))
    && r.Keys == mappedH.Keys + HydrogenKeys(sub, nodes, keyOf)
    && (forall k :: k in r ==> r[k] == Get(mappedH, k) + Grouped(sub, nodes, keyOf, k, |sub|))
  }

  /** `r` is a result findHydrogenGroups can produce. */
  ghost predicate GroupsFound(sub: seq<string>, nodes: map<string, NodeAttrs>, edges: map<EdgeKey, EdgeAttrs>,
                              mappedH: map<int, seq<string>>, mappedAtoms: map<int, string>, r: map<int, seq<string>>)
  {
    (forall j :: 0 <= j < |sub| ==> sub[j] in nodes)
    && exists keyOf :: HydrogenGrouping(sub, nodes, edges, mappedH, mappedAtoms, r, keyOf)
  }

  /** The group keys given to the hydrogens among the first |keyOf| atoms. */
  ghost function HydrogenKeys(sub: seq<string>, nodes: map<string, NodeAttrs>, keyOf: seq<int>): set<int>
    requires forall j :: 0 <= j < |sub| ==> sub[j] in nodes
  {
    set j | 0 <= j < |keyOf| && j < |sub| && IsHydrogen(nodes[sub[j]]) :: keyOf[j]
  }

  lemma HydrogenKeysStep(sub: seq<string>, nodes: map<string, NodeAttrs>, keyOf: seq<int>, key: int)
    requires forall j :: 0 <= j < |sub| ==> sub[j] in nodes
    requires |keyOf| < |sub|
    ensures HydrogenKeys(sub, nodes, keyOf + [key])
         == HydrogenKeys(sub, nodes, keyOf) + (if IsHydrogen(nodes[sub[|keyOf|]]) then {key} else {})
  {
    var k' := keyOf + [key];
    assert forall j :: 0 <= j < |keyOf| ==> k'[j] == keyOf[j];
  }

  /** The first |keyOf| atoms of `sub` that are hydrogens carry a correct group key. */
  ghost predicate KeysValid(sub: seq<string>, nodes: map<string, NodeAttrs>, edges: map<EdgeKey, EdgeAttrs>,
                            mappedAtoms: map<int, string>, keyOf: seq<int>)
    requires forall j :: 0 <= j < |sub| ==> sub[j] in nodes
  {
    |keyOf| <= |sub|
    && forall j :: 0 <= j < |keyOf| && IsHydrogen(nodes[sub[j]]) ==> GroupKey(sub, edges, mappedAtoms, sub[j], keyOf[j])
  }

  lemma KeysValidStep(sub: seq<string>, nodes: map<string, NodeAttrs>, edges: map<EdgeKey, EdgeAttrs>,
                      mappedAtoms: map<int, string>, keyOf: seq<int>, key: int)
    requires forall j :: 0 <= j < |sub| ==> sub[j] in nodes
    requires KeysValid(sub, nodes, edges, mappedAtoms, keyOf) && |keyOf| < |sub|
    requires IsHydrogen(nodes[sub[|keyOf|]]) ==> GroupKey(sub, edges, mappedAtoms, sub[|keyOf|], key)
    ensures KeysValid(sub, nodes, edges, mappedAtoms, keyOf + [key])
  {
    var k' := keyOf + [key];
    forall j | 0 <= j < |k'| && IsHydrogen(nodes[sub[j]])
      ensures GroupKey(sub, edges, mappedAtoms, sub[j], k'[j])
    {
      if j < |keyOf| {
        assert k'[j] == keyOf[j];
      }
    }
  }

  /** The lists after the first `upto` atoms have been grouped, one append at a time. */
  function Appended(m: map<int, seq<string>>, sub: seq<string>, nodes: map<string, NodeAttrs>, keyOf: seq<int>, upto: nat)
    : map<int, seq<string>>
    requires upto <= |keyOf| && upto <= |sub| && forall j :: 0 <= j < |sub| ==> sub[j] in nodes
  {
    if upto == 0 then m
    else
      var before := Appended(m, sub, nodes, keyOf, upto - 1);
      if IsHydrogen(nodes[sub[upto - 1]]) then AddTo(before, keyOf[upto - 1], sub[upto - 1]) else before
  }

  lemma {:induction false} AppendedPrefix(m: map<int, seq<string>>, sub: seq<string>, nodes: map<string, NodeAttrs>,
                                          a: seq<int>, b: seq<int>, upto: nat)
    requires upto <= |a| && upto <= |b| && upto <= |sub| && forall j :: 0 <= j < |sub| ==> sub[j] in nodes
    requires a[..upto] == b[..upto]
    ensures Appended(m, sub, nodes, a, upto) == Appended(m, sub, nodes, b, upto)
  {
    if upto > 0 {
      assert a[..upto - 1] == b[..upto - 1] && a[upto - 1] == b[upto - 1] by {
        assert a[..upto - 1] == a[..upto][..upto - 1] && b[..upto - 1] == b[..upto][..upto - 1];
        assert a[upto - 1] == a[..upto][upto - 1];
        assert b[upto - 1] == b[..upto][upto - 1];
      }
      AppendedPrefix(m, sub, nodes, a, b, upto - 1);
    }
  }

  /** Each list is what it held before followed by the hydrogens grouped under its key. */
  lemma {:induction false} AppendedGet(m: map<int, seq<string>>, sub: seq<string>, nodes: map<string, NodeAttrs>,
                                       keyOf: seq<int>, upto: nat, k: int)
    requires upto <= |keyOf| && upto <= |sub| && forall j :: 0 <= j < |sub| ==> sub[j] in nodes
    ensures Get(Appended(m, sub, nodes, keyOf, upto), k) == Get(m, k) + Grouped(sub, nodes, keyOf, k, upto)
  {
    if upto > 0 {
      AppendedGet(m, sub, nodes, keyOf, upto - 1, k);
      if IsHydrogen(nodes[sub[upto - 1]]) && keyOf[upto - 1] == k {
        var a, b := Get(m, k), Grouped(sub, nodes, keyOf, k, upto - 1);
        assert (a + b) + [sub[upto - 1]] == a + (b + [sub[upto - 1]]);
      }
    }
  }

  /** A list exists for every key it had before and for every key a hydrogen got. */
  lemma {:induction false} AppendedKeys(m: map<int, seq<string>>, sub: seq<string>, nodes: map<string, NodeAttrs>,
                                        keyOf: seq<int>, upto: nat)
    requires upto <= |keyOf| && upto <= |sub| && forall j :: 0 <= j < |sub| ==> sub[j] in nodes
    ensures Appended(m, sub, nodes, keyOf, upto).Keys == m.Keys + HydrogenKeys(sub, nodes, keyOf[..upto])
  {
    if upto > 0 {
      AppendedKeys(m, sub, nodes, keyOf, upto - 1);
      assert keyOf[..upto] == keyOf[..upto - 1] + [keyOf[upto - 1]];
      HydrogenKeysStep(sub, nodes, keyOf[..upto - 1], keyOf[upto - 1]);
    }
  }

  /** Grouping one more atom appends it to its own key's list and to no other. */
  lemma GroupedExtend(sub: seq<string>, nodes: map<string, NodeAttrs>, keyOf: seq<int>, key: int, k: int)
    requires forall j :: 0 <= j < |sub| ==> sub[j] in nodes
    requires |keyOf| < |sub|
    ensures Grouped(sub, nodes, keyOf + [key], k, |keyOf| + 1)
         == Grouped(sub, nodes, keyOf, k, |keyOf|)
            + (if IsHydrogen(nodes[sub[|keyOf|]]) && key == k then [sub[|keyOf|]] else [])
  {
    var k' := keyOf + [key];
    assert k'[..|keyOf|] == keyOf[..|keyOf|];
    GroupedPrefix(sub, nodes, keyOf, k', k, |keyOf|);
  }

  /** Grouped only looks at the keys of the atoms it covers. */
  lemma {:induction false} GroupedPrefix(sub: seq<string>, nodes: map<string, NodeAttrs>, a: seq<int>, b: seq<int>, key: int, upto: nat)
    requires upto <= |a| && upto <= |b| && upto <= |sub| && forall j :: 0 <= j < |sub| ==> sub[j] in nodes
    requires a[..upto] == b[..upto]
    ensures Grouped(sub, nodes, a, key, upto) == Grouped(sub, nodes, b, key, upto)
  {
    if upto > 0 {
      assert a[..upto - 1] == b[..upto - 1] && a[upto - 1] == b[upto - 1] by {
        assert a[..upto - 1] == a[..upto][..upto - 1] && b[..upto - 1] == b[..upto][..upto - 1];
        assert a[upto - 1] == a[..upto][upto - 1];
        assert b[upto - 1] == b[..upto][upto - 1];
      }
      GroupedPrefix(sub, nodes, a, b, key, upto - 1);
    }
  }
}
