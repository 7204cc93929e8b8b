/** The hydrogen mapper (04:270-352). The atom-to-atom mapper leaves
    hydrogens unmapped, so the builder matches them group by group: for every
    group key (the class of the heavy atom the hydrogens hang on, or -1) it
    compares the hydrogens listed on the two sides of the reaction. Surplus
    hydrogens are tied to a per-reaction pool node "react_<rid>_free_H";
    the first hydrogen of each side stands for its group in a
    HydrogenReaction edge; the other hydrogens are tied to that
    representative with HydrogenGroup edges. */
module Hydrogens {
  import opened Common
  import opened AtnTypes
  import opened Paths
  import opened Molecules
  import opened Network
  import opened Linking

  /** Every hydrogen listed under a key is a node of the network. */
  ghost predicate HydrogensInside(nodes: map<string, NodeAttrs>, m: map<int, seq<string>>)
  {
    forall k, j :: k in m && 0 <= j < |m[k]| ==> m[k][j] in nodes
  }

  lemma {:induction false} GroupedInside(sub: seq<string>, nodes: map<string, NodeAttrs>, keyOf: seq<int>, key: int, upto: nat)
    requires upto <= |keyOf| && upto <= |sub| && forall j :: 0 <= j < |sub| ==> sub[j] in nodes
    ensures forall j :: 0 <= j < |Grouped(sub, nodes, keyOf, key, upto)| ==> Grouped(sub, nodes, keyOf, key, upto)[j] in nodes
    decreases upto
  {
    if upto > 0 {
      GroupedInside(sub, nodes, keyOf, key, upto - 1);
    }
  }

  /** findHydrogenGroups lists atoms of the compound only, so whatever it
      lists is a node. */
  lemma GroupsFoundInside(sub: seq<string>, nodes: map<string, NodeAttrs>, edges: map<EdgeKey, EdgeAttrs>,
                          mappedH: map<int, seq<string>>, mappedAtoms: map<int, string>, r: map<int, seq<string>>)
    requires GroupsFound(sub, nodes, edges, mappedH, mappedAtoms, r) && HydrogensInside(nodes, mappedH)
    ensures HydrogensInside(nodes, r)
  {
    var keyOf :| HydrogenGrouping(sub, nodes, edges, mappedH, mappedAtoms, r, keyOf);
    forall k, j | k in r && 0 <= j < |r[k]| ensures r[k][j] in nodes {
      GroupedInside(sub, nodes, keyOf, k, |sub|);
      var before, g := Get(mappedH, k), Grouped(sub, nodes, keyOf, k, |sub|);
      assert r[k] == before + g;
      if j >= |before| {
        assert r[k][j] == g[j - |before|];
      }
    }
  }

  // ---------------------------------------------------------------------------
  // The pool and the HydrogenFreedReaction edges (04:274-320)
  // ---------------------------------------------------------------------------

  /** The key needs the pool: it is the default key, or its sides differ in size. */
  predicate Unbalanced(educt: map<int, seq<string>>, product: map<int, seq<string>>, key: int)
  {
    key == NoMapDefaultKey || |Get(educt, key)| != |Get(product, key)|
  }

  /** The educt hydrogens of the key are tied to the pool (04:295). */
  predicate FreesEducts(educt: map<int, seq<string>>, product: map<int, seq<string>>, key: int)
  {
    |Get(educt, key)| > |Get(product, key)| || (key == NoMapDefaultKey && |Get(educt, key)| > 0)
  }

  /** The product hydrogens of the key are tied to the pool (04:309). */
  predicate FreesProducts(educt: map<int, seq<string>>, product: map<int, seq<string>>, key: int)
  {
    |Get(educt, key)| < |Get(product, key)| || (key == NoMapDefaultKey && |Get(product, key)| > 0)
  }

  /** The reaction_id of a HydrogenFreedReaction edge from `a` to `b`: that
      orientation, and the other one too when the reaction is reversible. */
  function FreeIds(a: string, b: string, rid: nat, reversible: bool): ReactionIds
  {
    if reversible then map[(a, b) := [rid], (b, a) := [rid]] else map[(a, b) := [rid]]
  }

  /** The attributes the builder writes on a HydrogenFreedReaction edge; an
      existing edge keeps its other attributes. */
  function FreeEdge(e: EdgeAttrs, a: string, b: string, rid: nat, reversible: bool, moving: int): EdgeAttrs
  {
    e.(reactionId := Some(FreeIds(a, b, rid, reversible)),
       directed := Some(if reversible then Bidirected else Directed),
       transition := Some(HydrogenFree),
       movingAtom := Some(moving))
  }

  /** The orientation of the edge between hydrogen `n` and the pool: away
      from an educt, towards a product. */
  function FreeFrom(n: string, pool: string, fromEduct: bool): string
  {
    if fromEduct then n else pool
  }

  function FreeTo(n: string, pool: string, fromEduct: bool): string
  {
    if fromEduct then pool else n
  }

  /** One pass of the loop at 04:296-304 (or 04:310-318). */
  function FreeOne(edges: map<EdgeKey, EdgeAttrs>, n: string, pool: string, fromEduct: bool, rid: nat,
                   reversible: bool, moving: int): map<EdgeKey, EdgeAttrs>
  {
    edges[Key(n, pool) := FreeEdge(Base(edges, Key(n, pool)), FreeFrom(n, pool, fromEduct), FreeTo(n, pool, fromEduct),
                                   rid, reversible, moving)]
  }

  /** The loop at 04:296-304 (or 04:310-318) over the hydrogens `hs`. */
  function FreeAll(edges: map<EdgeKey, EdgeAttrs>, hs: seq<string>, pool: string, fromEduct: bool, rid: nat,
                   reversible: bool, moving: int): map<EdgeKey, EdgeAttrs>
    decreases |hs|
  {
    if hs == [] then edges
    else FreeAll(FreeOne(edges, hs[0], pool, fromEduct, rid, reversible, moving), hs[1..], pool, fromEduct, rid, reversible, moving)
  }

  /** The edge between `n` and the pool is a HydrogenFreedReaction edge with
      the given moving_atom: Directed with the single key (a, b), or
      Bidirected with both keys when the reaction is reversible. */
  ghost predicate Freed(edges: map<EdgeKey, EdgeAttrs>, n: string, pool: string, a: string, b: string,
                        rid: nat, reversible: bool, moving: int)
  {
    Key(n, pool) in edges
    && edges[Key(n, pool)].transition == Some(HydrogenFree)
    && edges[Key(n, pool)].movingAtom == Some(moving)
    && edges[Key(n, pool)].directed == Some(if reversible then Bidirected else Directed)
    && edges[Key(n, pool)].reactionId == Some(FreeIds(a, b, rid, reversible))
  }

  lemma KeyWithPool(n: string, m: string, pool: string)
    requires Key(n, pool) == Key(m, pool)
    ensures n == m
  {
    assert n in Key(m, pool);
    if n == pool {
      assert m in Key(n, pool);
    }
  }

  /** The loop ties every hydrogen it is given to the pool. */
  lemma {:induction false} FreeAllFrees(edges: map<EdgeKey, EdgeAttrs>, hs: seq<string>, pool: string, fromEduct: bool,
                                        rid: nat, reversible: bool, moving: int)
    ensures forall j :: 0 <= j < |hs| ==>
      Freed(FreeAll(edges, hs, pool, fromEduct, rid, reversible, moving), hs[j], pool,
            FreeFrom(hs[j], pool, fromEduct), FreeTo(hs[j], pool, fromEduct), rid, reversible, moving)
    decreases |hs|
  {
    if hs != [] {
      var e1 := FreeOne(edges, hs[0], pool, fromEduct, rid, reversible, moving);
      FreeAllFrees(e1, hs[1..], pool, fromEduct, rid, reversible, moving);
      FreeAllFrame(e1, hs[1..], pool, fromEduct, rid, reversible, moving);
      var r := FreeAll(e1, hs[1..], pool, fromEduct, rid, reversible, moving);
      forall j | 0 <= j < |hs|
        ensures Freed(r, hs[j], pool, FreeFrom(hs[j], pool, fromEduct), FreeTo(hs[j], pool, fromEduct), rid, reversible, moving)
      {
        if j > 0 {
          assert hs[j] == hs[1..][j - 1];
        } else if exists i :: 0 <= i < |hs[1..]| && hs[1..][i] == hs[0] {
          var i :| 0 <= i < |hs[1..]| && hs[1..][i] == hs[0];
        } else {
          forall i | 0 <= i < |hs[1..]| ensures Key(hs[0], pool) != Key(hs[1..][i], pool) {
            if Key(hs[0], pool) == Key(hs[1..][i], pool) {
              KeyWithPool(hs[0], hs[1..][i], pool);
            }
          }
        }
      }
    }
  }

  /** The loop changes no edge that does not join one of its hydrogens to
      the pool. */
  lemma {:induction false} FreeAllFrame(edges: map<EdgeKey, EdgeAttrs>, hs: seq<string>, pool: string, fromEduct: bool,
                                        rid: nat, reversible: bool, moving: int)
    ensures var r := FreeAll(edges, hs, pool, fromEduct, rid, reversible, moving);
      forall k :: k in edges && (forall j :: 0 <= j < |hs| ==> k != Key(hs[j], pool)) ==> k in r && r[k] == edges[k]
    decreases |hs|
  {
    if hs != [] {
      var e1 := FreeOne(edges, hs[0], pool, fromEduct, rid, reversible, moving);
      FreeAllFrame(e1, hs[1..], pool, fromEduct, rid, reversible, moving);
      forall k | k in edges && (forall j :: 0 <= j < |hs| ==> k != Key(hs[j], pool))
        ensures forall j :: 0 <= j < |hs[1..]| ==> k != Key(hs[1..][j], pool)
      {
        forall j | 0 <= j < |hs[1..]| ensures k != Key(hs[1..][j], pool) {
          assert hs[1..][j] == hs[j + 1];
        }
      }
    }
  }

  /** The loop creates no edge other than those joining its hydrogens to the pool. */
  lemma {:induction false} FreeAllKeys(edges: map<EdgeKey, EdgeAttrs>, hs: seq<string>, pool: string, fromEduct: bool,
                                       rid: nat, reversible: bool, moving: int)
    ensures var r := FreeAll(edges, hs, pool, fromEduct, rid, reversible, moving);
      forall k :: k in r ==> k in edges || exists j :: 0 <= j < |hs| && k == Key(hs[j], pool)
    decreases |hs|
  {
    if hs != [] {
      var e1 := FreeOne(edges, hs[0], pool, fromEduct, rid, reversible, moving);
      FreeAllKeys(e1, hs[1..], pool, fromEduct, rid, reversible, moving);
      var r := FreeAll(e1, hs[1..], pool, fromEduct, rid, reversible, moving);
      forall k | k in r ensures k in edges || exists j :: 0 <= j < |hs| && k == Key(hs[j], pool) {
        if k !in e1 {
          var i :| 0 <= i < |hs[1..]| && k == Key(hs[1..][i], pool);
          assert k == Key(hs[i + 1], pool);
        }
      }
    }
  }

  /** The effect on a key that needs the pool: the pool node exists, and the
      hydrogens of the larger side (of both non-empty sides for the default
      key) are tied to it. */
  function WithPool(nodes: map<string, NodeAttrs>, pool: string): map<string, NodeAttrs>
  {
    if pool in nodes then nodes else nodes[pool := PoolAttrs]
  }

  /** 04:289-320 for one key. */
  function PoolAndFree(g: Graph, educt: map<int, seq<string>>, product: map<int, seq<string>>, key: int, rid: nat,
                       reversible: bool): Graph
  {
    var pool := PoolName(rid);
    var ce, cp := |Get(educt, key)|, |Get(product, key)|;
    if !Unbalanced(educt, product, key) then g
    else
      var e1 := if FreesEducts(educt, product, key) then FreeAll(g.edges, Get(educt, key), pool, true, rid, reversible, ce - cp) else g.edges;
      var e2 := if FreesProducts(educt, product, key) then FreeAll(e1, Get(product, key), pool, false, rid, reversible, cp - ce) else e1;
      Graph(WithPool(g.nodes, pool), e2)
  }

  /** An unbalanced key (or the default key) creates the pool if it is
      missing; a balanced mapped key changes nothing. */
  lemma PoolAndFreeNodes(g: Graph, educt: map<int, seq<string>>, product: map<int, seq<string>>, key: int, rid: nat,
                         reversible: bool)
    ensures var r := PoolAndFree(g, educt, product, key, rid, reversible);
      && r.nodes == (if Unbalanced(educt, product, key) then WithPool(g.nodes, PoolName(rid)) else g.nodes)
      && (!Unbalanced(educt, product, key) ==> r.edges == g.edges)
  {
  }

  /** Every product hydrogen of a key that frees products gets a
      HydrogenFreedReaction edge from the pool whose moving_atom is the
      difference of the counts. */
  lemma PoolAndFreeProducts(g: Graph, educt: map<int, seq<string>>, product: map<int, seq<string>>, key: int, rid: nat,
                            reversible: bool)
    requires FreesProducts(educt, product, key)
    ensures var r, pool := PoolAndFree(g, educt, product, key, rid, reversible), PoolName(rid);
      var ce, cp := |Get(educt, key)|, |Get(product, key)|;
      forall j :: 0 <= j < cp ==> Freed(r.edges, product[key][j], pool, pool, product[key][j], rid, reversible, cp - ce)
  {
    var pool := PoolName(rid);
    var ce, cp := |Get(educt, key)|, |Get(product, key)|;
    var e1 := if FreesEducts(educt, product, key) then FreeAll(g.edges, Get(educt, key), pool, true, rid, reversible, ce - cp) else g.edges;
    FreeAllFrees(e1, Get(product, key), pool, false, rid, reversible, cp - ce);
  }

  /** Every educt hydrogen of a key that frees educts gets a
      HydrogenFreedReaction edge to the pool whose moving_atom is the
      difference of the counts, unless the same atom is listed on the
      product side too and the product loop rewrote its edge afterwards. */
  lemma PoolAndFreeEducts(g: Graph, educt: map<int, seq<string>>, product: map<int, seq<string>>, key: int, rid: nat,
                          reversible: bool)
    requires FreesEducts(educt, product, key)
    ensures var r, pool := PoolAndFree(g, educt, product, key, rid, reversible), PoolName(rid);
      var ce, cp := |Get(educt, key)|, |Get(product, key)|;
      forall j :: 0 <= j < ce && !(FreesProducts(educt, product, key) && educt[key][j] in Get(product, key)) ==>
        Freed(r.edges, educt[key][j], pool, educt[key][j], pool, rid, reversible, ce - cp)
  {
    var pool := PoolName(rid);
    var ce, cp := |Get(educt, key)|, |Get(product, key)|;
    var e1 := FreeAll(g.edges, Get(educt, key), pool, true, rid, reversible, ce - cp);
    FreeAllFrees(g.edges, Get(educt, key), pool, true, rid, reversible, ce - cp);
    if FreesProducts(educt, product, key) {
      var hs := Get(product, key);
      FreeAllFrame(e1, hs, pool, false, rid, reversible, cp - ce);
      forall j | 0 <= j < ce && educt[key][j] !in hs
        ensures forall i :: 0 <= i < |hs| ==> Key(educt[key][j], pool) != Key(hs[i], pool)
      {
        forall i | 0 <= i < |hs| ensures Key(educt[key][j], pool) != Key(hs[i], pool) {
          if Key(educt[key][j], pool) == Key(hs[i], pool) {
            KeyWithPool(educt[key][j], hs[i], pool);
          }
        }
      }
    }
  }

  // ---------------------------------------------------------------------------
  // HydrogenGroup edges (04:345-352)
  // ---------------------------------------------------------------------------

  /** One pass of the loop at 04:345-347: `h` is tied to the representative
      unless a HydrogenGroup path already joins them. The search is the
      corrected one (Paths.HasPathDfs): it answers exactly reachability. */
  ghost function GroupOne(edges: map<EdgeKey, EdgeAttrs>, rep: string, h: string): map<EdgeKey, EdgeAttrs>
  {
    if Reachable(edges, rep, h, HydrogenGroup) then edges
    else edges[Key(rep, h) := Base(edges, Key(rep, h)).(transition := Some(HydrogenGroup))]
  }

  /** The loop at 04:345-347 (or 04:350-352) over the hydrogens `hs`. */
  ghost function GroupAll(edges: map<EdgeKey, EdgeAttrs>, rep: string, hs: seq<string>): map<EdgeKey, EdgeAttrs>
    decreases |hs|
  {
    if hs == [] then edges
    else GroupAll(GroupOne(edges, rep, hs[0]), rep, hs[1..])
  }

  /** `edges'` differs from `edges` only by edges made HydrogenGroup: new
      edges (among `allowed`) carry only that transition, and every old edge
      is unchanged or had its transition replaced by HydrogenGroup. */
  ghost predicate Retyped(edges: map<EdgeKey, EdgeAttrs>, edges': map<EdgeKey, EdgeAttrs>, allowed: set<EdgeKey>)
  {
    edges.Keys <= edges'.Keys
    && (forall k :: k in edges' && k !in edges ==> k in allowed && edges'[k] == NoAttrs.(transition := Some(HydrogenGroup)))
    && (forall k :: k in edges ==> edges'[k] == edges[k] || edges'[k] == edges[k].(transition := Some(HydrogenGroup)))
  }

  lemma RetypedTrans(e1: map<EdgeKey, EdgeAttrs>, e2: map<EdgeKey, EdgeAttrs>, e3: map<EdgeKey, EdgeAttrs>,
                     a1: set<EdgeKey>, a2: set<EdgeKey>)
    requires Retyped(e1, e2, a1) && Retyped(e2, e3, a2)
    ensures Retyped(e1, e3, a1 + a2)
  {
  }

  function GroupKeys(rep: string, hs: seq<string>): set<EdgeKey>
  {
    set j | 0 <= j < |hs| :: Key(rep, hs[j])
  }

  lemma {:induction false} GroupAllRetypes(edges: map<EdgeKey, EdgeAttrs>, rep: string, hs: seq<string>)
    ensures Retyped(edges, GroupAll(edges, rep, hs), GroupKeys(rep, hs))
    decreases |hs|
  {
    if hs != [] {
      var e1 := GroupOne(edges, rep, hs[0]);
      GroupAllRetypes(e1, rep, hs[1..]);
      assert Retyped(edges, e1, {Key(rep, hs[0])});
      RetypedTrans(edges, e1, GroupAll(e1, rep, hs[1..]), {Key(rep, hs[0])}, GroupKeys(rep, hs[1..]));
      forall k | k in {Key(rep, hs[0])} + GroupKeys(rep, hs[1..]) ensures k in GroupKeys(rep, hs) {
        if k != Key(rep, hs[0]) {
          var i :| 0 <= i < |hs[1..]| && k == Key(rep, hs[1..][i]);
          assert k == Key(rep, hs[i + 1]);
        }
      }
    }
  }

  /** Retyping keeps every HydrogenGroup path. */
  lemma ReachableAfterRetype(edges: map<EdgeKey, EdgeAttrs>, edges': map<EdgeKey, EdgeAttrs>, allowed: set<EdgeKey>,
                             s: string, t: string)
    requires Retyped(edges, edges', allowed) && Reachable(edges, s, t, HydrogenGroup)
    ensures Reachable(edges', s, t, HydrogenGroup)
  {
    var p :| IsPath(edges, p, HydrogenGroup) && p[0] == s && p[|p| - 1] == t;
    forall i | 0 <= i < |p| - 1 ensures TypedEdge(edges', p[i], p[i + 1], HydrogenGroup) {
      assert TypedEdge(edges, p[i], p[i + 1], HydrogenGroup);
    }
    assert IsPath(edges', p, HydrogenGroup);
  }

  lemma GroupOneConnects(edges: map<EdgeKey, EdgeAttrs>, rep: string, h: string)
    ensures Reachable(GroupOne(edges, rep, h), rep, h, HydrogenGroup)
  {
    if !Reachable(edges, rep, h, HydrogenGroup) {
      var r := GroupOne(edges, rep, h);
      assert TypedEdge(r, rep, h, HydrogenGroup);
      assert IsPath(r, [rep, h], HydrogenGroup);
    }
  }

  /** After the loop every hydrogen it was given is joined to the
      representative by a HydrogenGroup path. */
  lemma {:induction false} GroupAllConnects(edges: map<EdgeKey, EdgeAttrs>, rep: string, hs: seq<string>)
    ensures forall j :: 0 <= j < |hs| ==> Reachable(GroupAll(edges, rep, hs), rep, hs[j], HydrogenGroup)
    decreases |hs|
  {
    if hs != [] {
      var e1 := GroupOne(edges, rep, hs[0]);
      var r := GroupAll(e1, rep, hs[1..]);
      GroupAllConnects(e1, rep, hs[1..]);
      GroupOneConnects(edges, rep, hs[0]);
      GroupAllRetypes(e1, rep, hs[1..]);
      ReachableAfterRetype(e1, r, GroupKeys(rep, hs[1..]), rep, hs[0]);
      forall j | 0 < j < |hs| ensures Reachable(r, rep, hs[j], HydrogenGroup) {
        assert hs[j] == hs[1..][j - 1];
      }
    }
  }

  // ---------------------------------------------------------------------------
  // One key, and all keys
  // ---------------------------------------------------------------------------

  /** The loop body at 04:280-352 for one key: pool and freed hydrogens,
      then, for a mapped key with hydrogens on both sides, the
      HydrogenReaction edge between the first hydrogen of each side and the
      HydrogenGroup edges to them. An existing edge between the two
      representatives without reaction_id raises KeyError: None. */
  ghost function MapKey(g: Graph, educt: map<int, seq<string>>, product: map<int, seq<string>>, key: int, rid: nat,
                        reversible: bool): Option<Graph>
  {
    var g1 := PoolAndFree(g, educt, product, key, rid, reversible);
    if key == NoMapDefaultKey || Get(educt, key) == [] || Get(product, key) == [] then Some(g1)
    else
      var re, rp := educt[key][0], product[key][0];
      match AddReactionId(g1.edges, re, rp, rid, reversible, HydrogenReaction)
      case None => None
      case Some(e2) => Some(Graph(g1.nodes, GroupAll(GroupAll(e2, re, educt[key][1..]), rp, product[key][1..])))
  }

  /** The mapped key's HydrogenReaction step: the reaction id is appended
      to the (educt representative, product representative) key, and to the
      reverse key when the reaction is reversible; every other hydrogen of
      the key is joined to its side's representative by a HydrogenGroup
      path. */
  lemma MapKeyEffect(g: Graph, educt: map<int, seq<string>>, product: map<int, seq<string>>, key: int, rid: nat,
                     reversible: bool)
    requires key != NoMapDefaultKey && Get(educt, key) != [] && Get(product, key) != []
    requires MapKey(g, educt, product, key, rid, reversible).Some?
    ensures var r, g1 := MapKey(g, educt, product, key, rid, reversible).value, PoolAndFree(g, educt, product, key, rid, reversible);
      var re, rp := educt[key][0], product[key][0];
      && r.nodes == g1.nodes
      && Key(re, rp) in r.edges
      && r.edges[Key(re, rp)].reactionId == Some(AddIds(EdgeIds(g1.edges, Key(re, rp)), re, rp, rid, reversible))
      && (forall j :: 0 < j < |educt[key]| ==> Reachable(r.edges, re, educt[key][j], HydrogenGroup))
      && (forall j :: 0 < j < |product[key]| ==> Reachable(r.edges, rp, product[key][j], HydrogenGroup))
  {
    var g1 := PoolAndFree(g, educt, product, key, rid, reversible);
    var re, rp := educt[key][0], product[key][0];
    var e2 := AddReactionId(g1.edges, re, rp, rid, reversible, HydrogenReaction).value;
    AddReactionIdEffect(g1.edges, re, rp, rid, reversible, HydrogenReaction);
    GroupBothSides(e2, re, educt[key][1..], rp, product[key][1..]);
    forall j | 0 < j < |educt[key]| ensures educt[key][j] == educt[key][1..][j - 1] { }
    forall j | 0 < j < |product[key]| ensures product[key][j] == product[key][1..][j - 1] { }
  }

  /** Grouping the educt hydrogens, then the product hydrogens, joins each
      to its representative and keeps the ids of every earlier edge. */
  lemma GroupBothSides(e2: map<EdgeKey, EdgeAttrs>, re: string, hsE: seq<string>, rp: string, hsP: seq<string>)
    ensures var e4 := GroupAll(GroupAll(e2, re, hsE), rp, hsP);
      && (forall k :: k in e2 ==> k in e4 && e4[k].reactionId == e2[k].reactionId)
      && (forall j :: 0 <= j < |hsE| ==> Reachable(e4, re, hsE[j], HydrogenGroup))
      && (forall j :: 0 <= j < |hsP| ==> Reachable(e4, rp, hsP[j], HydrogenGroup))
  {
    var e3 := GroupAll(e2, re, hsE);
    var e4 := GroupAll(e3, rp, hsP);
    GroupAllRetypes(e2, re, hsE);
    GroupAllRetypes(e3, rp, hsP);
    GroupAllConnects(e2, re, hsE);
    GroupAllConnects(e3, rp, hsP);
    forall j | 0 <= j < |hsE| ensures Reachable(e4, re, hsE[j], HydrogenGroup) {
      ReachableAfterRetype(e3, e4, GroupKeys(rp, hsP), re, hsE[j]);
    }
  }

  /** The loop over the group keys (04:280), in the order `keys`. */
  ghost function MapAll(g: Graph, educt: map<int, seq<string>>, product: map<int, seq<string>>, keys: seq<int>, rid: nat,
                        reversible: bool): Option<Graph>
    decreases |keys|
  {
    if keys == [] then Some(g)
    else
      match MapAll(g, educt, product, keys[..|keys| - 1], rid, reversible)
      case None => None
      case Some(g') => MapKey(g', educt, product, keys[|keys| - 1], rid, reversible)
  }

  lemma MapKeyNodes(g: Graph, educt: map<int, seq<string>>, product: map<int, seq<string>>, key: int, rid: nat,
                    reversible: bool)
    requires MapKey(g, educt, product, key, rid, reversible).Some?
    ensures MapKey(g, educt, product, key, rid, reversible).value.nodes
            == if Unbalanced(educt, product, key) then WithPool(g.nodes, PoolName(rid)) else g.nodes
  {
    PoolAndFreeNodes(g, educt, product, key, rid, reversible);
  }

  /** At most one node is created per reaction: the pool, with element H,
      and only when it is missing and some key is unbalanced or is the
      default key. */
  lemma {:induction false} MapAllPool(g: Graph, educt: map<int, seq<string>>, product: map<int, seq<string>>, keys: seq<int>,
                                      rid: nat, reversible: bool)
    requires MapAll(g, educt, product, keys, rid, reversible).Some?
    ensures MapAll(g, educt, product, keys, rid, reversible).value.nodes
            == if exists j :: 0 <= j < |keys| && Unbalanced(educt, product, keys[j]) then WithPool(g.nodes, PoolName(rid)) else g.nodes
    decreases |keys|
  {
    if keys != [] {
      var init := keys[..|keys| - 1];
      MapAllPool(g, educt, product, init, rid, reversible);
      var g' := MapAll(g, educt, product, init, rid, reversible).value;
      MapKeyNodes(g', educt, product, keys[|keys| - 1], rid, reversible);
      if exists j :: 0 <= j < |keys| && Unbalanced(educt, product, keys[j]) {
        if !Unbalanced(educt, product, keys[|keys| - 1]) {
          var j :| 0 <= j < |keys| && Unbalanced(educt, product, keys[j]);
          assert keys[j] == init[j];
        }
      } else {
        forall j | 0 <= j < |init| ensures !Unbalanced(educt, product, init[j]) {
          assert init[j] == keys[j];
        }
      }
    }
  }

  // ---------------------------------------------------------------------------
  // The mapper keeps the network consistent
  // ---------------------------------------------------------------------------

  lemma ShapeWithMoreNodes(nodes: map<string, NodeAttrs>, nodes': map<string, NodeAttrs>, edges: map<EdgeKey, EdgeAttrs>)
    requires EdgeShape(nodes, edges) && nodes.Keys <= nodes'.Keys
    ensures EdgeShape(nodes', edges)
  {
  }

  lemma PoolConsistent(nodes: map<string, NodeAttrs>, edges: map<EdgeKey, EdgeAttrs>, cts: map<string, seq<string>>, rid: nat)
    requires Consistent(nodes, edges, cts)
    ensures Consistent(WithPool(nodes, PoolName(rid)), edges, cts)
  {
    PoolNamePrefix(rid);
    ShapeWithMoreNodes(nodes, WithPool(nodes, PoolName(rid)), edges);
  }

  lemma {:induction false} FreeAllShape(nodes: map<string, NodeAttrs>, edges: map<EdgeKey, EdgeAttrs>, hs: seq<string>,
                                        pool: string, fromEduct: bool, rid: nat, reversible: bool, moving: int)
    requires EdgeShape(nodes, edges) && pool in nodes && forall j :: 0 <= j < |hs| ==> hs[j] in nodes
    ensures EdgeShape(nodes, FreeAll(edges, hs, pool, fromEduct, rid, reversible, moving))
    decreases |hs|
  {
    if hs != [] {
      var n, k := hs[0], Key(hs[0], pool);
      var a, b := FreeFrom(n, pool, fromEduct), FreeTo(n, pool, fromEduct);
      KeyNonEmpty(n, pool);
      assert Key(a, b) == k && Key(b, a) == k;
      ShapeAfterWrite(nodes, edges, k, FreeEdge(Base(edges, k), a, b, rid, reversible, moving));
      FreeAllShape(nodes, FreeOne(edges, n, pool, fromEduct, rid, reversible, moving), hs[1..], pool, fromEduct, rid, reversible, moving);
    }
  }

  lemma {:induction false} GroupAllShape(nodes: map<string, NodeAttrs>, edges: map<EdgeKey, EdgeAttrs>, rep: string, hs: seq<string>)
    requires EdgeShape(nodes, edges) && rep in nodes && forall j :: 0 <= j < |hs| ==> hs[j] in nodes
    ensures EdgeShape(nodes, GroupAll(edges, rep, hs))
    decreases |hs|
  {
    if hs != [] {
      var k := Key(rep, hs[0]);
      if !Reachable(edges, rep, hs[0], HydrogenGroup) {
        KeyNonEmpty(rep, hs[0]);
        ShapeAfterWrite(nodes, edges, k, Base(edges, k).(transition := Some(HydrogenGroup)));
      }
      GroupAllShape(nodes, GroupOne(edges, rep, hs[0]), rep, hs[1..]);
    }
  }

  predicate AllIn(hs: seq<string>, nodes: map<string, NodeAttrs>)
  {
    forall j :: 0 <= j < |hs| ==> hs[j] in nodes
  }

  lemma ListedInside(nodes: map<string, NodeAttrs>, m: map<int, seq<string>>, key: int)
    requires HydrogensInside(nodes, m)
    ensures AllIn(Get(m, key), nodes)
  {
  }

  lemma PoolAndFreeShape(g: Graph, educt: map<int, seq<string>>, product: map<int, seq<string>>, key: int, rid: nat,
                         reversible: bool)
    requires Unbalanced(educt, product, key)
    requires EdgeShape(WithPool(g.nodes, PoolName(rid)), g.edges)
    requires AllIn(Get(educt, key), g.nodes) && AllIn(Get(product, key), g.nodes)
    ensures EdgeShape(PoolAndFree(g, educt, product, key, rid, reversible).nodes, PoolAndFree(g, educt, product, key, rid, reversible).edges)
  {
    var pool := PoolName(rid);
    var nodes := WithPool(g.nodes, pool);
    var ce, cp := |Get(educt, key)|, |Get(product, key)|;
    var e1 := if FreesEducts(educt, product, key) then FreeAll(g.edges, Get(educt, key), pool, true, rid, reversible, ce - cp) else g.edges;
    FreeAllShape(nodes, g.edges, Get(educt, key), pool, true, rid, reversible, ce - cp);
    FreeAllShape(nodes, e1, Get(product, key), pool, false, rid, reversible, cp - ce);
  }

  lemma PoolAndFreeConsistent(g: Graph, cts: map<string, seq<string>>, educt: map<int, seq<string>>,
                              product: map<int, seq<string>>, key: int, rid: nat, reversible: bool)
    requires Consistent(g.nodes, g.edges, cts) && HydrogensInside(g.nodes, educt) && HydrogensInside(g.nodes, product)
    ensures var r := PoolAndFree(g, educt, product, key, rid, reversible);
      Consistent(r.nodes, r.edges, cts) && g.nodes.Keys <= r.nodes.Keys
  {
    if Unbalanced(educt, product, key) {
      PoolConsistent(g.nodes, g.edges, cts, rid);
      ListedInside(g.nodes, educt, key);
      ListedInside(g.nodes, product, key);
      PoolAndFreeShape(g, educt, product, key, rid, reversible);
    }
  }

  lemma MapKeyConsistent(g: Graph, cts: map<string, seq<string>>, educt: map<int, seq<string>>,
                         product: map<int, seq<string>>, key: int, rid: nat, reversible: bool)
    requires Consistent(g.nodes, g.edges, cts) && HydrogensInside(g.nodes, educt) && HydrogensInside(g.nodes, product)
    requires MapKey(g, educt, product, key, rid, reversible).Some?
    ensures var r := MapKey(g, educt, product, key, rid, reversible).value;
      Consistent(r.nodes, r.edges, cts) && g.nodes.Keys <= r.nodes.Keys
  {
    var g1 := PoolAndFree(g, educt, product, key, rid, reversible);
    PoolAndFreeConsistent(g, cts, educt, product, key, rid, reversible);
    if !(key == NoMapDefaultKey || Get(educt, key) == [] || Get(product, key) == []) {
      var re, rp := educt[key][0], product[key][0];
      AddReactionIdShape(g1.nodes, g1.edges, re, rp, rid, reversible, HydrogenReaction);
      var e2 := AddReactionId(g1.edges, re, rp, rid, reversible, HydrogenReaction).value;
      GroupAllShape(g1.nodes, e2, re, educt[key][1..]);
      GroupAllShape(g1.nodes, GroupAll(e2, re, educt[key][1..]), rp, product[key][1..]);
    }
  }

  // ---------------------------------------------------------------------------
  // The loops
  // ---------------------------------------------------------------------------

  /** The loop at 04:296-304 (or 04:310-318). */
  method FreeHydrogens(edges: map<EdgeKey, EdgeAttrs>, hs: seq<string>, pool: string, fromEduct: bool, rid: nat,
                       reversible: bool, moving: int)
    returns (r: map<EdgeKey, EdgeAttrs>)
    ensures r == FreeAll(edges, hs, pool, fromEduct, rid, reversible, moving)
  {
    r := edges;
    var i := 0;
    while i < |hs|
      invariant 0 <= i <= |hs|
      invariant FreeAll(r, hs[i..], pool, fromEduct, rid, reversible, moving) == FreeAll(edges, hs, pool, fromEduct, rid, reversible, moving)
    {
      assert hs[i..][1..] == hs[i + 1..];
      r := FreeOne(r, hs[i], pool, fromEduct, rid, reversible, moving);
      i := i + 1;
    }
  }

  /** The loop at 04:345-347 (or 04:350-352), with the corrected search. */
  method GroupToRepresentative(nodes: map<string, NodeAttrs>, edges: map<EdgeKey, EdgeAttrs>, rep: string, hs: seq<string>)
    returns (r: map<EdgeKey, EdgeAttrs>)
    requires rep in nodes && EdgesWithin(nodes.Keys, edges) && forall j :: 0 <= j < |hs| ==> hs[j] in nodes
    ensures r == GroupAll(edges, rep, hs)
  {
    r := edges;
    var i := 0;
    while i < |hs|
      invariant 0 <= i <= |hs|
      invariant EdgesWithin(nodes.Keys, r)
      invariant GroupAll(r, rep, hs[i..]) == GroupAll(edges, rep, hs)
    {
      assert hs[i..][1..] == hs[i + 1..];
      var connected := HasPathDfs(nodes.Keys, r, rep, hs[i], HydrogenGroup);
      if !connected {
        var k := Key(rep, hs[i]);
        r := r[k := Base(r, k).(transition := Some(HydrogenGroup))];
      }
      i := i + 1;
    }
  }

  /** 04:289-320 for one key: the pool and the freed hydrogens. */
  method FreeKey(g: Graph, educt: map<int, seq<string>>, product: map<int, seq<string>>, key: int, rid: nat, reversible: bool)
    returns (r: Graph)
    ensures r == PoolAndFree(g, educt, product, key, rid, reversible)
  {
    var pool := PoolName(rid);
    var ce, cp := |Get(educt, key)|, |Get(product, key)|;
    if !Unbalanced(educt, product, key) {
      return g;
    }
    var nodes := g.nodes;
    if pool !in nodes {
      nodes := nodes[pool := PoolAttrs];
    }
    var edges := g.edges;
    if FreesEducts(educt, product, key) {
      edges := FreeHydrogens(edges, Get(educt, key), pool, true, rid, reversible, ce - cp);
    }
    if FreesProducts(educt, product, key) {
      edges := FreeHydrogens(edges, Get(product, key), pool, false, rid, reversible, cp - ce);
    }
    r := Graph(nodes, edges);
  }

  /** The loop body at 04:282-352 for one key. */
  method MapOneKey(g: Graph, cts: map<string, seq<string>>, educt: map<int, seq<string>>, product: map<int, seq<string>>,
                   key: int, rid: nat, reversible: bool)
    returns (r: Option<Graph>)
    requires Ready(g, cts, educt, product)
    ensures r == MapKey(g, educt, product, key, rid, reversible)
  {
    var g1 := FreeKey(g, educt, product, key, rid, reversible);
    if key == NoMapDefaultKey || Get(educt, key) == [] || Get(product, key) == [] {
      return Some(g1);
    }
    PoolAndFreeConsistent(g, cts, educt, product, key, rid, reversible);
    var re, rp := educt[key][0], product[key][0];
    var added := AddReactionId(g1.edges, re, rp, rid, reversible, HydrogenReaction);
    if added.None? {
      return None;
    }
    ListedInside(g.nodes, educt, key);
    ListedInside(g.nodes, product, key);
    AddReactionIdShape(g1.nodes, g1.edges, re, rp, rid, reversible, HydrogenReaction);
    var edges := GroupToRepresentative(g1.nodes, added.value, re, educt[key][1..]);
    GroupAllShape(g1.nodes, added.value, re, educt[key][1..]);
    edges := GroupToRepresentative(g1.nodes, edges, rp, product[key][1..]);
    r := Some(Graph(g1.nodes, edges));
  }

  /** What every step of the mapper needs: a consistent network whose nodes
      include the listed hydrogens. */
  ghost predicate Ready(g: Graph, cts: map<string, seq<string>>, educt: map<int, seq<string>>, product: map<int, seq<string>>)
  {
    Consistent(g.nodes, g.edges, cts) && HydrogensInside(g.nodes, educt) && HydrogensInside(g.nodes, product)
  }

  lemma MapKeyReady(g: Graph, cts: map<string, seq<string>>, educt: map<int, seq<string>>, product: map<int, seq<string>>,
                    key: int, rid: nat, reversible: bool)
    requires Ready(g, cts, educt, product) && MapKey(g, educt, product, key, rid, reversible).Some?
    ensures Ready(MapKey(g, educt, product, key, rid, reversible).value, cts, educt, product)
    ensures g.nodes.Keys <= MapKey(g, educt, product, key, rid, reversible).value.nodes.Keys
  {
    MapKeyConsistent(g, cts, educt, product, key, rid, reversible);
  }

  /** The hydrogen mapper (04:270-352): the keys of both sides, each once,
      in the order `keys` the set iteration took. */
  method MapHydrogens(g: Graph, cts: map<string, seq<string>>, educt: map<int, seq<string>>, product: map<int, seq<string>>,
                      rid: nat, reversible: bool)
    returns (r: Option<Graph>, ghost keys: seq<int>)
    requires Ready(g, cts, educt, product)
    ensures r == MapAll(g, educt, product, keys, rid, reversible)
    ensures Listed(educt.Keys + product.Keys, keys)
    ensures r.Some? ==> Enumerating(educt.Keys + product.Keys, {}, keys)
    ensures r.Some? ==> Ready(r.value, cts, educt, product) && g.nodes.Keys <= r.value.nodes.Keys
  {
    r := Some(g);
    keys := [];
    var todo := educt.Keys + product.Keys;
    while todo != {}
      invariant Enumerating(educt.Keys + product.Keys, todo, keys)
      invariant r == MapAll(g, educt, product, keys, rid, reversible) && r.Some?
      invariant Ready(r.value, cts, educt, product) && g.nodes.Keys <= r.value.nodes.Keys
      decreases todo
    {
      ghost var some := Pick(todo);
      var key :| key in todo;
      var next := MapOneKey(r.value, cts, educt, product, key, rid, reversible);
      EnumeratingStep(educt.Keys + product.Keys, todo, keys, key);
      assert (keys + [key])[..|keys|] == keys;
      keys := keys + [key];
      if next.None? {
        return None, keys;
      }
      MapKeyReady(r.value, cts, educt, product, key, rid, reversible);
      r := next;
      todo := todo - {key};
    }
  }
}
