/** The vocabulary of the Atom Transition Network: transition and direction
    types, node and edge attributes, and the names the builder gives to atoms
    and to the per-reaction hydrogen pools. */
module AtnTypes {
  import opened Common

  /** The TransitionType enumeration: what an edge of the network stands for. */
  datatype Transition =
    | ChemicalBond        // a bond inside one compound
    | Symmetry            // two atoms exchanged by an automorphism of their compound
    | Reaction            // an atom that moves from an educt to a product
    | HydrogenGroup       // hydrogens bound to the same mapped heavy atom
    | HydrogenReaction    // a representative hydrogen moving across a reaction
    | HydrogenFree        // a hydrogen freed into (or taken from) the reaction's pool

  /** The string value of each TransitionType member, which the exported graph carries. */
  function TransitionName(t: Transition): string
  {
    match t
    case ChemicalBond => "ChemicalBond"
    case Symmetry => "Symmetry"
    case Reaction => "Reaction"
    case HydrogenGroup => "HydrogenGroup"
    case HydrogenReaction => "HydrogenReaction"
    case HydrogenFree => "HydrogenFreedReaction"
  }

  /** The enumeration is unique: no two members share a value. */
  lemma TransitionNamesUnique(a: Transition, b: Transition)
    ensures TransitionName(a) == TransitionName(b) ==> a == b
  {
  }

  /** The DirectionType enumeration. */
  datatype Direction = Undirected | Bidirected | Directed

  /** The class key of hydrogens that have no mapped heavy neighbour. */
  const NoMapDefaultKey: int := -1

  /** The attributes of a node; every one of them may be absent. `cls` is the
      atom-map class, which the network keeps until it is flattened. */
  datatype NodeAttrs = NodeAttrs(
    element: Option<string>,
    isotope: Option<int>,
    hcount: Option<int>,
    charge: Option<int>,
    cls: Option<int>,
    compoundId: Option<nat>,
    compoundName: Option<string>)

  /** The node the builder adds as a reaction's free-hydrogen pool: element H only. */
  const PoolAttrs := NodeAttrs(Some("H"), None, None, None, None, None, None)

  /** An undirected edge is identified by the set of its end points ({a} for a loop). */
  type EdgeKey = set<string>

  function Key(a: string, b: string): (k: EdgeKey)
    ensures a in k && b in k && |k| <= 2
  {
    {a, b}
  }

  lemma KeyNonEmpty(a: string, b: string)
    ensures 0 < |Key(a, b)|
  {
  }

  /** The reaction_id attribute: for each orientation of the edge, the reaction
      indices that contributed it, in order (the builder keeps them as a
      comma-joined string). */
  type ReactionIds = map<(string, string), seq<nat>>

  /** The attributes of an edge; every one of them may be absent. The bond
      order the parser attaches is not carried (see README). */
  datatype EdgeAttrs = EdgeAttrs(
    transition: Option<Transition>,
    directed: Option<Direction>,
    compoundId: Option<nat>,
    compoundName: Option<string>,
    movingAtom: Option<int>,
    reactionId: Option<ReactionIds>)

  /** The attributes of an edge that networkx has just created. */
  const NoAttrs := EdgeAttrs(None, None, None, None, None, None)

  /** The attributes an edge has now, or none if networkx would create it. */
  function Base<K(==)>(edges: map<K, EdgeAttrs>, k: K): EdgeAttrs
  {
    if k in edges then edges[k] else NoAttrs
  }

  /** `reaction_id[key] += "," + str(rid)`, or `= str(rid)` when the key is new. */
  function AppendId(ids: ReactionIds, key: (string, string), rid: nat): (r: ReactionIds)
    ensures r.Keys == ids.Keys + {key}
    ensures key in ids ==> r[key] == ids[key] + [rid]
    ensures key !in ids ==> r[key] == [rid]
    ensures forall k :: k in ids && k != key ==> r[k] == ids[k]
  {
    ids[key := (if key in ids then ids[key] else []) + [rid]]
  }

  // ---------------------------------------------------------------------------
  // Node names
  // ---------------------------------------------------------------------------

  /** "<cid>_<node>": the network name of atom `node` of compound `cid`. */
  function AtomName(cid: nat, node: nat): string
  {
    NatToString(cid) + "_" + NatToString(node)
  }

  /** "react_<rid>_free_H": the free-hydrogen pool of reaction `rid`. */
  function PoolName(rid: nat): string
  {
    "react_" + NatToString(rid) + "_free_H"
  }

  /** The text of a name before its first '_'. */
  function Prefix(n: string): (p: string)
    ensures |p| <= |n| && p == n[..|p|]
  {
    if n == [] || n[0] == '_' then [] else [n[0]] + Prefix(n[1..])
  }

  lemma {:induction false} PrefixOfJoined(a: string, b: string)
    requires '_' !in a
    ensures Prefix(a + "_" + b) == a
  {
    if a != [] {
      assert (a + "_" + b)[1..] == a[1..] + "_" + b;
      PrefixOfJoined(a[1..], b);
    }
  }

  lemma NoUnderscoreInNumber(n: nat)
    ensures '_' !in NatToString(n)
  {
  }

  lemma AtomNamePrefix(cid: nat, node: nat)
    ensures Prefix(AtomName(cid, node)) == NatToString(cid)
  {
    NoUnderscoreInNumber(cid);
    PrefixOfJoined(NatToString(cid), NatToString(node));
  }

  lemma PoolNamePrefix(rid: nat)
    ensures Prefix(PoolName(rid)) == "react"
  {
    assert PoolName(rid) == "react" + "_" + (NatToString(rid) + "_free_H");
    PrefixOfJoined("react", NatToString(rid) + "_free_H");
  }

  /** A pool never shares its name with an atom: the prefix of an atom name is
      a number, that of a pool is "react". */
  lemma PoolIsNotAtom(rid: nat, cid: nat, node: nat)
    ensures PoolName(rid) != AtomName(cid, node)
  {
    PoolNamePrefix(rid);
    AtomNamePrefix(cid, node);
    assert IsDigit(NatToString(cid)[0]);
  }

  /** Renaming is injective: the name determines both the compound and the atom. */
  lemma AtomNameInjective(c1: nat, n1: nat, c2: nat, n2: nat)
    requires AtomName(c1, n1) == AtomName(c2, n2)
    ensures c1 == c2 && n1 == n2
  {
    AtomNamePrefix(c1, n1);
    AtomNamePrefix(c2, n2);
    NatToStringInjective(c1, c2);
    var p := NatToString(c1);
    assert AtomName(c1, n1)[|p| + 1..] == NatToString(n1);
    assert AtomName(c2, n2)[|p| + 1..] == NatToString(n2);
    NatToStringInjective(n1, n2);
  }

  /** Atoms of different compounds never share a name. */
  lemma AtomNamesOfDistinctCompounds(c1: nat, n1: nat, c2: nat, n2: nat)
    requires c1 != c2
    ensures AtomName(c1, n1) != AtomName(c2, n2)
  {
    if AtomName(c1, n1) == AtomName(c2, n2) {
      AtomNameInjective(c1, n1, c2, n2);
    }
  }
}
