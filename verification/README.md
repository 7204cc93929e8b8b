# Atom transition network: a Dafny model

This project models two scripts of a metabolic-network pipeline.

* `04_generate_ATN_directed.py` builds an **atom transition network** (ATN).
  It reads reaction triplets: a meta line, a name formula
  (`A + B = C`) and an atom-mapped reaction SMILES. Each compound is
  registered once, and its atoms become nodes `"<cid>_<atom>"`. Its
  automorphisms become symmetry edges. Hydrogens are grouped by the
  mapped heavy atom they hang on. Unbalanced hydrogens are tied to a
  per-reaction pool `react_<rid>_free_H`. Every mapped atom class is
  linked from educt to product by a reaction edge. A final pass makes
  each reaction edge Directed or Bidirected, and the network is
  flattened into an arc list ready for breadth-first search.
* `01_xml_to_smiles_via_bigg_reactions.py` prepares the triplets. Three
  of its steps are modelled:
  * it expands deprecated MetaNetX identifiers until none is left;
  * it reads identifiers out of MetaNetX equations;
  * it writes a reaction's name formula and reaction SMILES, splitting
    multi-component compounds into numbered subcomponents.

Modules follow the scripts:

| Module | What it models |
|---|---|
| `Common` | Python string helpers: split, join, strip, whitespace split |
| `AtnTypes` | transitions, directedness, attributes, node naming |
| `Paths` | `hasPath` |
| `Molecules` | `addAutomorphisms`, `findHydrogenGroups` |
| `Network` | the `Atn` class and `parseXDuct` |
| `Hydrogens` | the hydrogen mapper |
| `Linking` | the reaction linker and the directedness pass |
| `Flatten` | `add_meta`, `bfs_ready_transform` |
| `Triplets` | the splitting of one triplet |
| `Builder` | the main loop of file 04 |
| `ReactionStrings` | `get_compound_info`, `parse_and_print_xml_reaction` |
| `Deprecation` | the deprecated-identifier fixpoint |
| `Equation` | the equation-term identifier extraction |

In the `.dfy` comments, `04:N` means line N of
`04_generate_ATN_directed.py`, and `01:N` means line N of
`01_xml_to_smiles_via_bigg_reactions.py`.

Some calls leave the model and come back as parameters:

* the chemistry libraries (RDKit canonicalisation, pysmiles parsing, the
  explicit-hydrogen flag) are a `parse` function from a SMILES to an
  optional parsed molecule;
* the networkx `GraphMatcher` monomorphism search is a `matcher` function;
* the automorphism permutations are a given sequence of maps.

Iteration over Python sets and dictionaries has an order the program
does not choose. Each such loop returns the order it took as a ghost
sequence, and the contract holds for whatever that order was.

Networkx edges are undirected. An edge key is the set of its one or two
end points. The comma-joined `reaction_id` strings are lists of reaction
numbers, kept per orientation.

Where the program stops with an exception, the model returns `None`,
`false` or `Malformed`:

* a `KeyError` or `IndexError` in the triplet split;
* a missing product class in the linker;
* an existing edge without `reaction_id`;
* an edge without `directed` at export;
* an unknown compound in `get_compound_info`;
* a term that is not two words in the equation split.

The code sometimes differs from what the design describes. The model
follows the code:

* For an unbalanced mapped key, the design describes tying only the
  surplus hydrogens to the pool. The code (04:294-320) ties every
  hydrogen of the larger side, and `Hydrogens.PoolAndFreeEducts` and
  `Hydrogens.PoolAndFreeProducts` state that.
* For the default key `-1` with hydrogens on both sides, `moving_atom`
  is `ce - cp` as written, which can be negative.
* HydrogenGroup edges are created without a `directed` attribute, and
  the directedness pass never gives them one. So the export of a network
  that holds one raises `KeyError` at 04:414. `Flatten.BfsReadyTransform`
  models this as `None` (`Stops`).
* In orbit mode, the code joins every node that is not yet blocked to
  all its images under every permutation, and then blocks those images.
  `Molecules.SourceIffNotBlocked` and `Molecules.OrbitCoverage` state
  what that gives.

## Model

| member | source | states |
|---|---|---|
| AtnTypes.TransitionNamesUnique | 04_generate_ATN_directed.py:45-53 | distinct transition types have distinct string values |
| AtnTypes.AppendId | 04_generate_ATN_directed.py:333-336 | appending a reaction id adds it at the end of its key's list (or starts the list), adds exactly that key, and leaves every other key's list as it was |
| AtnTypes.PoolIsNotAtom | 04_generate_ATN_directed.py:274 | a hydrogen pool node `react_<rid>_free_H` never has the name of a compound atom |
| AtnTypes.AtomNameInjective | 04_generate_ATN_directed.py:171 | the renaming `"<cid>_<node>"` is injective: the name determines both the compound id and the atom |
| AtnTypes.AtomNamesOfDistinctCompounds | 04_generate_ATN_directed.py:171 | atoms of two different compounds never share a node name |
| Paths.HasPath | 04_generate_ATN_directed.py:62-79 | hasPath as written: true when s == t; a true answer always means t is reachable along edges of the type; a direct typed edge is always found; when s has at most one other typed neighbour and no direct edge to t, the answer is false, even if t is reachable further on |
| Paths.MissedPath | 04_generate_ATN_directed.py:62-79 | on the chain s–a–t of HydrogenGroup edges, t is reachable from s, yet hasPath as written answers false |
| Paths.HasPathDfs | 04_generate_ATN_directed.py:62-79 | the corrected search answers true exactly when t is reachable from s along edges of the given type |
| Paths.ScanChildren | 04_generate_ATN_directed.py:72-77 | the inner loop reports t exactly when t is a typed neighbour of the parent; otherwise it visits and pushes only new typed neighbours, all reachable from s, each once, so the visited set bounds the stack |
| Molecules.StripHydrogenClasses | 04_generate_ATN_directed.py:137-139 | every hydrogen loses its atom-map class; every other atom and every other attribute is unchanged |
| Molecules.AddOrbitSymmetries | 04_generate_ATN_directed.py:110-120 | orbit mode adds exactly the symmetry pairs of the orbit sources; those edges are marked SYMMETRY/BIDIRECTED over their earlier attributes, and all other edges are unchanged |
| Molecules.AddAllSymmetries | 04_generate_ATN_directed.py:121-127 | full mode adds a SYMMETRY/BIDIRECTED edge for every moved pair of every permutation that had no edge; existing edges are never modified |
| Molecules.AddAutomorphisms | 04_generate_ATN_directed.py:103-127 | addAutomorphisms: the orbit-mode result when limit_to_orbits is set, the full-mode result otherwise |
| Molecules.PairsAreProper | 04_generate_ATN_directed.py:116-124 | no symmetry edge is a self-loop: every pair joins two distinct atoms |
| Molecules.SourceIffNotBlocked | 04_generate_ATN_directed.py:111-120 | the node at position j is a source exactly when no earlier source is moved onto it, so a blocked node is never a source |
| Molecules.OrbitCoverage | 04_generate_ATN_directed.py:110-120 | every node is a source or is moved onto by a source, so orbit mode leaves no moved atom without a symmetry edge |
| Molecules.InvertMapped | 04_generate_ATN_directed.py:83 | the inverse maps each mapped atom to a class that maps back onto it, and covers every mapped atom |
| Molecules.ClassOfNeighbours | 04_generate_ATN_directed.py:87-90 | a hydrogen with a mapped neighbour is keyed by a class mapped to one of its neighbours; a hydrogen without one is keyed -1 |
| Molecules.FindHydrogenGroups | 04_generate_ATN_directed.py:81-91 | every hydrogen of the compound is appended once, in compound order, to the list of its group key; existing lists keep their entries as a prefix |
| Molecules.AppendedGet | 04_generate_ATN_directed.py:91 | each list after the appends is its old content followed by exactly the hydrogens grouped under its key |
| Molecules.AppendedKeys | 04_generate_ATN_directed.py:91 | after the appends, lists exist exactly for the old keys and the keys some hydrogen received |
| Network.Atn.RecordCompound | 04_generate_ATN_directed.py:168-169 | records (name, smiles) under the id the next new compound receives and leaves the graph and the registry unchanged |
| Network.Atn.constructor | 04_generate_ATN_directed.py:207-209 | the empty network: no nodes, no edges, no compounds, and consistent |
| Network.NewAtomsAreFresh | 04_generate_ATN_directed.py:168-171 | in a consistent network, the next compound id (the number of registered names) names no existing node |
| Network.MolAtoms | 04_generate_ATN_directed.py:137-147 | the atoms the registry sees equal the parsed atoms, with hydrogen classes dropped and explicit hydrogens added when asked for |
| Network.StampNodes | 04_generate_ATN_directed.py:179-181 | the new nodes are exactly the renamed atoms, each stamped with the compound id and name |
| Network.StampEdges | 04_generate_ATN_directed.py:183-188 | the new edges are exactly the renamed bonds, stamped, and those without a transition become ChemicalBond/UNDIRECTED |
| Network.RecordedLastWins | 04_generate_ATN_directed.py:193-195 | each class that an atom of the compound carries maps to the last such atom; classes no atom carries keep their old entry |
| Network.RecordClasses | 04_generate_ATN_directed.py:193-197 | the loop yields the recorded classes and the compound's renamed atom list |
| Network.InsertCompound | 04_generate_ATN_directed.py:190-191 | copying a new compound in keeps the network consistent: its node names and edges are disjoint from existing ones, and every listed atom is a node |
| Network.PrepareCompound | 04_generate_ATN_directed.py:166-177 | the prepared compound is the parsed one as the registry sees it; its order lists exactly its atoms, and its edges join its own atoms |
| Network.AddCompound | 04_generate_ATN_directed.py:163-201 | registering a new name adds exactly the stamped nodes and edges, registers the renamed atom list under the next id, records the classes, groups hydrogens when explicit, and keeps the network consistent |
| Network.RegisterNew | 04_generate_ATN_directed.py:163-201 | the same registration done in place on the Atn object, and compoundId_to_compound gains (name, smiles) under the new id |
| Network.RecordMatch | 04_generate_ATN_directed.py:153-155 | every class carried by a matched parsed atom now maps to the network atom matched to it; all other classes keep their entry |
| Network.UseExisting | 04_generate_ATN_directed.py:142-161 | a registered name leaves the network unchanged; the classes are updated from the match on success and left unchanged on failure |
| Network.ParseXDuct | 04_generate_ATN_directed.py:129-201 | a registered name leaves nodes, edges and both registries unchanged, and its classes are updated from the match (unchanged without one); a new name gets the next id, with (name, smiles) recorded under it, its renamed atom order registered, exactly its stamped nodes and edges added, and its classes recorded; hydrogens are grouped exactly when explicit; the network stays consistent and its nodes only grow |
| Network.EmptyKeepsId | 04_generate_ATN_directed.py:166-197 | a new name whose molecule has no atoms gets its id recorded with its name and SMILES but stays unregistered, so the next new name receives the same id |
| Hydrogens.FreeHydrogens | 04_generate_ATN_directed.py:295-320 | the loop produces the edges FreeAll defines (see the three lemmas below) |
| Hydrogens.FreeAllFrees | 04_generate_ATN_directed.py:295-320 | every hydrogen given to the loop gets a HydrogenFreedReaction edge with the pool, oriented from its side, carrying the moving count, DIRECTED with one key or BIDIRECTED with both keys when reversible |
| Hydrogens.FreeAllFrame | 04_generate_ATN_directed.py:295-320 | no edge other than a hydrogen–pool edge of the loop is changed |
| Hydrogens.FreeAllKeys | 04_generate_ATN_directed.py:295-320 | the loop creates no edge other than its hydrogen–pool edges |
| Hydrogens.GroupToRepresentative | 04_generate_ATN_directed.py:344-352 | the loop produces the edges GroupAll defines, using the corrected path search |
| Hydrogens.GroupAllConnects | 04_generate_ATN_directed.py:344-352 | afterwards every hydrogen given to the loop is joined to the representative by a HydrogenGroup path |
| Hydrogens.GroupAllRetypes | 04_generate_ATN_directed.py:344-352 | the loop only adds or retypes edges between the representative and its hydrogens |
| Hydrogens.FreeKey | 04_generate_ATN_directed.py:289-320 | one key's pool-and-free step yields the graph PoolAndFree defines (see the lemmas below) |
| Hydrogens.PoolAndFreeNodes | 04_generate_ATN_directed.py:289-292 | an unbalanced key or the -1 key adds the pool node if it is missing; a balanced mapped key changes neither nodes nor edges |
| Hydrogens.PoolAndFreeEducts | 04_generate_ATN_directed.py:294-306 | when educts are in surplus, every educt hydrogen of the key is freed to the pool with moving_atom = ce - cp |
| Hydrogens.PoolAndFreeProducts | 04_generate_ATN_directed.py:308-320 | when products are in surplus, every product hydrogen of the key is freed from the pool with moving_atom = cp - ce |
| Hydrogens.MapOneKey | 04_generate_ATN_directed.py:282-352 | one key's body yields what MapKey defines, or None where the source raises |
| Hydrogens.MapKeyEffect | 04_generate_ATN_directed.py:323-352 | for a mapped key with hydrogens on both sides, the first-listed hydrogens get the reaction id appended to their forward key (and to the backward key when reversible), and every other hydrogen is group-connected to its side's first |
| Hydrogens.MapAllPool | 04_generate_ATN_directed.py:274-292 | a reaction creates at most one node, the pool with element H, exactly when some key is unbalanced or is -1 |
| Hydrogens.MapHydrogens | 04_generate_ATN_directed.py:270-352 | the mapper visits every key of both sides exactly once, in the order the set iteration took; on success the network stays ready and its nodes only grow |
| Linking.AddIds | 04_generate_ATN_directed.py:367-376 | the forward key gains the reaction id at its end; the backward key gains it exactly when asked; every other key is unchanged |
| Linking.AddIdsKeeps | 04_generate_ATN_directed.py:367-376 | appending never loses an id: each old list is a prefix of the new one |
| Linking.AddReactionId | 04_generate_ATN_directed.py:362-370 | adding an id fails exactly when the edge exists without a reaction_id map |
| Linking.AddReactionIdEffect | 04_generate_ATN_directed.py:362-376 | on success the edge exists, keeps its transition (a new edge gets the given one), carries the appended ids, and no other edge changes |
| Linking.Backward | 04_generate_ATN_directed.py:372 | the backward key gains the id exactly when the reaction is reversible and neither compound name ends in `_in` or `_out`; a missing compound name raises |
| Linking.LinkClass | 04_generate_ATN_directed.py:354-360 | linking a class needs the class on the product side; nodes never change; atoms of the same compound get no edge |
| Linking.LinkClassEffect | 04_generate_ATN_directed.py:356-376 | atoms of different compounds get a Reaction edge (or keep an existing edge's type); the forward key ends with this reaction id; the backward key gains it exactly when Backward holds; nothing else changes |
| Linking.LinkAllKeepsIds | 04_generate_ATN_directed.py:354-376 | the whole linker only appends ids, never losing one, and leaves the nodes unchanged |
| Linking.LinkAllConsistent | 04_generate_ATN_directed.py:354-376 | the linker keeps the network consistent |
| Linking.Link | 04_generate_ATN_directed.py:354-376 | the loop visits every educt class once, in the dictionary's order; on success nodes are unchanged, ids are kept and the network stays consistent |
| Linking.Resolve | 04_generate_ATN_directed.py:379-384 | a Reaction or HydrogenReaction edge becomes DIRECTED exactly when one orientation carries ids and BIDIRECTED otherwise; any other edge is unchanged |
| Linking.ResolveDirectedness | 04_generate_ATN_directed.py:379-384 | the pass resolves every edge independently, keeps the edge set, and keeps the network consistent |
| Flatten.ExportNode | 04_generate_ATN_directed.py:404-408 | an exported node has no class; a node without an element gets "*"; nothing else changes |
| Flatten.Meta | 04_generate_ATN_directed.py:387-398 | an arc carries the transition's string value, the compound id, name and moving atom, and reaction_ids exactly when its own orientation has some |
| Flatten.ArcsOfEdge | 04_generate_ATN_directed.py:414-423 | a DIRECTED edge yields exactly one arc, oriented by its single key; any other edge yields both orientations |
| Flatten.ExportNodes | 04_generate_ATN_directed.py:402-408 | every node is kept and relabelled as ExportNode says |
| Flatten.EdgeArcs | 04_generate_ATN_directed.py:410-423 | an edge stops the export exactly when it lacks `directed` or is DIRECTED without one single key; otherwise it yields exactly its arcs, each with its meta |
| Flatten.BfsReadyTransform | 04_generate_ATN_directed.py:400-425 | the export stops exactly when some kept edge is broken; otherwise it holds every node relabelled and exactly the arcs of the kept edges (ChemicalBond edges dropped under filter_bonds) |
| Triplets.TripletsFrom | 04_generate_ATN_directed.py:214-220 | the reading loop takes every complete triplet, in order, up to the first incomplete one |
| Triplets.CleanSmiles | 04_generate_ATN_directed.py:226 | the cleaned SMILES holds no '@' and no '/' |
| Triplets.NameSides | 04_generate_ATN_directed.py:239-242 | the name line fails exactly when it holds no "="; otherwise both sides have at least one name |
| Triplets.SmilesSides | 04_generate_ATN_directed.py:234-237 | the SMILES line fails exactly when the cleaned line holds no ">>"; otherwise both sides have at least one component |
| Triplets.Reversible | 04_generate_ATN_directed.py:228 | the meta line fails exactly when it has fewer than seven fields; otherwise the reaction is reversible exactly when the seventh field is "True" |
| Triplets.ParseReaction | 04_generate_ATN_directed.py:226-242 | a triplet fails exactly when one of its three lines fails; a parsed one has non-empty sides and a SMILES free of stereo marks |
| Triplets.ParseFormula | 04_generate_ATN_directed.py:226-242 | names joined by " + " and " = ", and SMILES joined by "." and ">>", split back into exactly those sides |
| Builder.SideName | 04_generate_ATN_directed.py:251-268 | a compound is renamed exactly when it is highly concentrated, by a suffix that marks it as a boundary copy |
| Builder.ParseSide | 04_generate_ATN_directed.py:249-268 | the side is a run of parseXDuct steps (as ParseXDuct states them) over the zipped names and SMILES, each compound under its side name, from the network before the side to the network and maps after it; it succeeds exactly when the run covers every zipped pair, and otherwise stops at the first SMILES that does not parse; without explicit hydrogens no group is found |
| Builder.ProcessReaction | 04_generate_ATN_directed.py:243-376 | a compartment change succeeds and leaves the network unchanged; otherwise a successful reaction runs the educt side from the old network, then the product side from where the educts left it, keeps the registries the product side left, and ends with the network the linker builds, over the classes in the order taken, on the hydrogen mapper's result (when asked for) on the parsed network; a failed reaction is no compartment change, and either a side stopped on a SMILES the oracle rejects, or both sides parsed and the hydrogen mapper or the linker raised |
| Builder.MapAndLink | 04_generate_ATN_directed.py:270-376 | on success the network is the linker's result, over every educt class once, on the hydrogen mapper's result over every key once (when asked for) on the network before; the registries are unchanged and the nodes only grow; on failure the mapper over the keys taken so far, or the linker over the classes taken so far, raised |
| Builder.Finish | 04_generate_ATN_directed.py:379-425 | the direction pass resolves every edge and touches no node; the export stops exactly when some kept edge is broken, and otherwise exports the resolved network |
| Builder.ReadOne | 04_generate_ATN_directed.py:215-376 | a pass succeeds only when triplet t parses, and then that reaction, numbered t, took the network from its old state to the new one as ProcessReaction states; a failed pass is a triplet that does not parse or a reaction that fails as ProcessReaction states |
| Builder.ReadAll | 04_generate_ATN_directed.py:214-376 | a successful read is a chain of reactions, one per complete triplet: reaction t is triplet t, numbered t whether or not it is a compartment change, and takes the network from the state after reaction t - 1 to the next, from the old network to the final one; a failed read is such a chain up to some complete triplet, which does not parse or fails as a reaction |
| Builder.ReadParsed | 04_generate_ATN_directed.py:214-245 | a read that covered every complete triplet parsed each of them, so no triplet that fails to parse is passed over |
| Builder.Build | 04_generate_ATN_directed.py:207-427 | a triplet that fails to parse means no export; an export is of the network that the chain of reactions read from the file builds from the empty network, with the same edges, each resolved by the direction pass; no export means that some complete triplet failed after the chain before it, or that the whole file was read and resolved and some kept edge stops the export |
| ReactionStrings.ComponentNames | 01_xml_to_smiles_via_bigg_reactions.py:190-194 | a compound stands for one name per SMILES component: k dots give k + 1 names |
| ReactionStrings.ComponentsOfSmiles | 01_xml_to_smiles_via_bigg_reactions.py:190-194 | a SMILES splits on "." into one component more than it has dots, none holding a dot |
| ReactionStrings.CompoundInfo | 01_xml_to_smiles_via_bigg_reactions.py:187-196 | the SMILES is returned unchanged and the name becomes its numbered subcomponents joined by " + " when it has dots; an unknown id raises |
| ReactionStrings.AppendSide | 01_xml_to_smiles_via_bigg_reactions.py:203-224 | the side loop ends with the side's status; a complete side appends every molecule's name joined by " + " and SMILES joined by ".", with no separator before the first |
| ReactionStrings.AppendCopies | 01_xml_to_smiles_via_bigg_reactions.py:215-224 | the inner loop appends max(count, 0) copies of one compound to both formulas |
| ReactionStrings.ParseAndPrint | 01_xml_to_smiles_via_bigg_reactions.py:198-252 | the function returns the educts, " = " / ">>", then the products, or fails as FormulaOf describes |
| ReactionStrings.SideComplete | 01_xml_to_smiles_via_bigg_reactions.py:204-213 | a side is complete exactly when every species on it has a MetaNetX id and a non-empty SMILES |
| ReactionStrings.SideRejected | 01_xml_to_smiles_via_bigg_reactions.py:204-213 | a side is rejected (False, "", "") exactly when the first species that is not known lacks a MetaNetX id or has an empty SMILES |
| ReactionStrings.SideStops | 01_xml_to_smiles_via_bigg_reactions.py:206-213 | once a side stops, later species do not change its outcome |
| ReactionStrings.SidesAgree | 01_xml_to_smiles_via_bigg_reactions.py:190-224 | when no name holds '+', each side of the name formula splits into exactly as many names as its SMILES has components, name groups aligned with SMILES groups |
| ReactionStrings.FormulaReadBack | 01_xml_to_smiles_via_bigg_reactions.py:198-252 | what file 01 writes, the triplet split of file 04 reads back into every molecule's names and SMILES components, with equal counts on each side |
| Deprecation.Expand | 01_xml_to_smiles_via_bigg_reactions.py:125-136 | the fixpoint loop ends with no deprecated identifier, and the result is exactly the current identifiers the starting ones finally stand for |
| Deprecation.ReplaceOne | 01_xml_to_smiles_via_bigg_reactions.py:128-132 | one replacement removes the identifier and adds all its listed successors |
| Deprecation.ReplaceStep | 01_xml_to_smiles_via_bigg_reactions.py:128-132 | one replacement keeps what the set finally stands for |
| Deprecation.LeavesCurrent | 01_xml_to_smiles_via_bigg_reactions.py:125-136 | nothing an identifier finally stands for is deprecated |
| Deprecation.ReachFixed | 01_xml_to_smiles_via_bigg_reactions.py:125-136 | a set without deprecated identifiers stands for itself, so the loop's exit state is its answer |
| Equation.TermId | 01_xml_to_smiles_via_bigg_reactions.py:162-164 | a term yields an identifier exactly when it is two words, and the identifier holds no '@' |
| Equation.ExtractIds | 01_xml_to_smiles_via_bigg_reactions.py:157-165 | the loop skips " = ", reads '=' like '+', yields each term's identifier in order, or fails on the first malformed term |
| Equation.ExtractWritten | 01_xml_to_smiles_via_bigg_reactions.py:160-165 | a written equation of well-formed terms reads back as the identifiers of all its terms, educts first, in order |
| Equation.WrittenSplit | 01_xml_to_smiles_via_bigg_reactions.py:160-161 | replacing '=' by '+' and splitting on '+' cuts a written equation into its shown terms, blanks included |
| Equation.ReadTerm | 01_xml_to_smiles_via_bigg_reactions.py:162-164 | a shown term with a blank or nothing on either side reads back as its identifier |

## Left out

- Paths.HasPath: requires s to be a node. The source also answers True for s == t when s is not a node, and raises KeyError for any other s that is not a node.
- Deprecation.Expand: requires an acyclic deprecation relation, given as a rank. On a cycle the source loops forever.
- ReactionStrings.SidesAgree: requires that no compound name holds '+'. The source needs only that no name holds " + ".
- ReactionStrings.FormulaReadBack: covers plain molecules only: trimmed names without '=' or '+', and SMILES without blanks or the markers '.', '>', '@', '/'.
- Equation.ExtractWritten: covers terms whose coefficient, identifier and compartment are single words without '+' or '='.
- Molecules.ClassOfNeighbours: states that the key is the class of some mapped neighbour, not which one. The source keeps the last one in networkx's adjacency order, which is not modelled.
- Whitespace means the ASCII whitespace and the characters 28-31, which is what `str.split()` and `str.strip()` use on ASCII text. Unicode spaces are not modelled.
- The bond order is never exported. The model drops it, like the program: 04:389 reads the misspelled attribute `oder`.
- RDKit canonicalisation, pysmiles parsing, the custom hydrogen attributes and the GraphMatcher search are oracles given as parameters. Their chemistry is not modelled.
- Hydrogens.GroupToRepresentative: uses the corrected path search `Paths.HasPathDfs`, as the Findings row explains. Where hasPath as written misses a longer HydrogenGroup path, the source adds a direct edge between the representative and the hydrogen, or retypes an existing one. The model does not.
- Hydrogens.MapOneKey: its grouping step is GroupToRepresentative, so it carries the same difference from the as-written search.
- Hydrogens.MapHydrogens: runs MapOneKey for every key, so it carries the same difference from the as-written search.
- Molecules.InvertMapped: promises only that each mapped atom gets some class that maps back onto it. When two classes map to the same atom, 04:83 keeps the one inserted last, and that order is not modelled.
- Network.UseExisting: groups the hydrogens of a registered compound in the order of its registered atom list. The source walks the node set of `ATN.subgraph`, whose order is not modelled.
- The order in which Python iterates sets, dictionaries and the edge view is not modelled. It is returned as a ghost order, or it does not matter.
- Flatten.BfsReadyTransform: stops the export when a DIRECTED edge has several keys, where the source takes the first key in dictionary order. After the directedness pass a DIRECTED edge has exactly one key, so this only matters for edges never resolved.
- The fourth command-line argument turns hydrogen mapping on whatever its text. It is a boolean parameter.
- Command-line handling, file reading and writing, GML and `.ckey` output, logging, directory creation and drawing are left out. The input lines and the highly concentrated compounds are parameters, and the network and its export are results.
- In file 01, the SBML and TSV loading and the identifier harvesting (01:13-122) are left out, and so is the vote scoring that picks the best MetaNetX id (01:146-183). The model keeps only the equation-term extraction inside the scoring.
- Stoichiometries are taken as integers. The `int(float(...))` conversion of file 01 is not modelled.
- The second component of each `comp_deprecated` entry is never read by the program, and the model omits it.
- When a new name's molecule has no atoms, the source records its id in `compoundId_to_compound`, but the name never enters `compound_to_subgraph`. The next new name therefore reuses that id. The model does the same, as `Network.EmptyKeepsId` states, and proves nothing further about it.

## Findings

| source | as written | input that shows it | evidently intended | confidence | as-written member | corrected member |
|---|---|---|---|---|---|---|
| 04_generate_ATN_directed.py:62-79 | after scanning a parent's children, hasPath pops the last stack entry, which is the child it just pushed, so that child is never expanded | HydrogenGroup edges s–a and a–t, with a the only neighbour of s: t is reachable, but hasPath(s, t) answers False | pop the parent only once its children are exhausted (a depth-first search), answering exactly reachability | not executed | Paths.HasPath, Paths.MissedPath | Paths.HasPathDfs |

Because of this, the hydrogen mapper can add a HydrogenGroup edge that is redundant: a group path already joined the hydrogen to its representative. The model's hydrogen mapper uses `Paths.HasPathDfs`.
