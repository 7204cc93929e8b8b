/** The builder's main loop (04:211-376) and what follows it (04:379-384,
    04:425): every triplet of the mapped-SMILES file is parsed, its compounds
    are registered, its hydrogens matched and its mapped atoms linked; then
    the reaction edges get their direction and the network is exported.
    The chemistry is supplied by two oracles: `parse` stands for RDKit's
    canonicalisation followed by read_smiles (None when RDKit rejects the
    SMILES), `matcher` for the monomorphism search of
    findIsomorphATNStructure. */
module Builder {
  import opened Common
  import opened AtnTypes
  import opened Molecules
  import opened Network
  import opened Linking
  import opened Hydrogens
  import opened Flatten
  import opened Triplets

  /** The name a compound is registered under: a highly concentrated
      compound gets "_in" among the educts and "_out" among the products
      (04:249-251, 04:259-261). */
  function SideName(name: string, highmol: seq<string>, educt: bool): (r: string)
    ensures |name| <= |r| && r[..|name|] == name
    ensures name in highmol <==> |r| > |name|
    ensures name in highmol ==> Boundary(r)
  {
    if name in highmol then name + (if educt then "_in" else "_out") else name
  }

  /** Both sides name the same compounds: a compartment change, which the
      network leaves out (04:243-245). */
  predicate SameCompounds(rx: Reaction)
  {
    (forall n :: n in rx.namesLeft ==> n in rx.namesRight) && (forall n :: n in rx.namesRight ==> n in rx.namesLeft)
  }

  /** The number of pairs zip forms. */
  function Zipped(names: seq<string>, smiles: seq<string>): nat
  {
    if |names| <= |smiles| then |names| else |smiles|
  }

  /** The network restricted to a compound's atoms (ATN.subgraph). */
  function Subgraph(g: Graph, sub: seq<string>): Graph
  {
    var inside := set n | n in sub;
    Graph(map n | n in g.nodes && n in inside :: g.nodes[n],
          map k | k in g.edges && k <= inside :: g.edges[k])
  }

  /** The parse oracle yields only well-formed molecules. */
  ghost predicate Parses(parse: string -> Option<Parsed>)
  {
    forall s :: parse(s).Some? ==> ParsedOk(parse(s).value)
  }

  /** The monomorphism findIsomorphATNStructure finds for a registered
      name in its registered atoms (04:150-151); none for a new name. */
  function Matching(nodes: map<string, NodeAttrs>, edges: map<EdgeKey, EdgeAttrs>, cts: map<string, seq<string>>,
                    name: string, p: Parsed, explicit: bool,
                    matcher: (Graph, Parsed, bool) -> Option<map<string, nat>>): Option<map<string, nat>>
  {
    if name in cts then matcher(Subgraph(Graph(nodes, edges), cts[name]), p, explicit) else None
  }

  /** The registry and the side's classes and hydrogen groups after each
      compound of a side. */
  datatype SideState = SideState(reg: Registry, mappedAtoms: map<int, string>, mappedH: map<int, seq<string>>)

  /** `run` lists the states a side's loop passes through: it starts with no
      classes and no groups, and each step is parseXDuct on the next pair of
      name and SMILES, under the name the side gives it. */
  ghost predicate SideRun(run: seq<SideState>, names: seq<string>, smiles: seq<string>, highmol: seq<string>,
                          educt: bool, explicit: bool, parse: string -> Option<Parsed>,
                          matcher: (Graph, Parsed, bool) -> Option<map<string, nat>>)
  {
    1 <= |run| <= Zipped(names, smiles) + 1
    && run[0].mappedAtoms == map[] && run[0].mappedH == map[]
    && forall j :: 0 <= j < |run| - 1 ==> SideStep(run[j], run[j + 1], names, smiles, highmol, educt, explicit, parse, matcher, j)
  }

  /** Step `j` of a side's loop. */
  ghost predicate SideStep(s: SideState, s': SideState, names: seq<string>, smiles: seq<string>, highmol: seq<string>,
                           educt: bool, explicit: bool, parse: string -> Option<Parsed>,
                           matcher: (Graph, Parsed, bool) -> Option<map<string, nat>>, j: nat)
  {
    j < Zipped(names, smiles) && parse(smiles[j]).Some?
    && var name, p := SideName(names[j], highmol, educt), parse(smiles[j]).value;
       ParsedInto(s.reg, name, p, explicit, Matching(s.reg.nodes, s.reg.edges, s.reg.cts, name, p, explicit, matcher),
                  s.mappedAtoms, s.mappedH, s'.reg, s'.mappedAtoms, s'.mappedH)
  }

  lemma SideRunStep(run: seq<SideState>, s': SideState, names: seq<string>, smiles: seq<string>, highmol: seq<string>,
                    educt: bool, explicit: bool, parse: string -> Option<Parsed>,
                    matcher: (Graph, Parsed, bool) -> Option<map<string, nat>>)
    requires SideRun(run, names, smiles, highmol, educt, explicit, parse, matcher)
    requires SideStep(run[|run| - 1], s', names, smiles, highmol, educt, explicit, parse, matcher, |run| - 1)
    ensures SideRun(run + [s'], names, smiles, highmol, educt, explicit, parse, matcher)
  {
    var run' := run + [s'];
    forall j | 0 <= j < |run'| - 1
      ensures SideStep(run'[j], run'[j + 1], names, smiles, highmol, educt, explicit, parse, matcher, j)
    {
      assert run'[j] == run[j];
      if j + 1 < |run| {
        assert run'[j + 1] == run[j + 1];
      }
    }
  }

  /** A side's loop stopped before its end, on a SMILES the oracle rejects
      (04:133). */
  ghost predicate Stopped(run: seq<SideState>, names: seq<string>, smiles: seq<string>, parse: string -> Option<Parsed>)
  {
    1 <= |run| <= Zipped(names, smiles) && parse(smiles[|run| - 1]).None?
  }

  /** The loops at 04:247-253 and 04:257-264: parseXDuct on every pair of
      name and SMILES of one side, in order, collecting the side's mapped
      atoms and, with explicit hydrogens, its hydrogen groups. `ok` is false
      when the oracle rejects a SMILES, and the source stops there. */
  method ParseSide(atn: Atn, names: seq<string>, smiles: seq<string>, highmol: seq<string>, educt: bool, explicit: bool,
                   parse: string -> Option<Parsed>, matcher: (Graph, Parsed, bool) -> Option<map<string, nat>>)
    returns (ok: bool, mappedAtoms: map<int, string>, mappedH: map<int, seq<string>>, ghost run: seq<SideState>)
    requires atn.Valid() && Parses(parse)
    modifies atn
    ensures atn.Valid()
    ensures old(atn.nodes).Keys <= atn.nodes.Keys
    ensures SideRun(run, names, smiles, highmol, educt, explicit, parse, matcher)
    ensures run[0].reg == old(atn.Snapshot())
    ensures run[|run| - 1] == SideState(atn.Snapshot(), mappedAtoms, mappedH)
    ensures ok <==> |run| == Zipped(names, smiles) + 1
    ensures !ok ==> parse(smiles[|run| - 1]).None?
    ensures HydrogensInside(atn.nodes, mappedH)
    ensures !explicit ==> mappedH == map[]
  {
    mappedAtoms, mappedH := map[], map[];
    run := [SideState(atn.Snapshot(), mappedAtoms, mappedH)];
    var i := 0;
    while i < Zipped(names, smiles)
      invariant 0 <= i <= Zipped(names, smiles)
      invariant atn.Valid()
      invariant old(atn.nodes).Keys <= atn.nodes.Keys
      invariant |run| == i + 1 && SideRun(run, names, smiles, highmol, educt, explicit, parse, matcher)
      invariant run[0].reg == old(atn.Snapshot())
      invariant run[i] == SideState(atn.Snapshot(), mappedAtoms, mappedH)
      invariant HydrogensInside(atn.nodes, mappedH)
      invariant !explicit ==> mappedH == map[]
    {
      var name := SideName(names[i], highmol, educt);
      var p := parse(smiles[i]);
      if p.None? {
        return false, mappedAtoms, mappedH, run;
      }
      var matching := Matching(atn.nodes, atn.edges, atn.compoundToSubgraph, name, p.value, explicit, matcher);
      ghost var cts0, mappedH0 := atn.compoundToSubgraph, mappedH;
      mappedAtoms, mappedH := ParseXDuct(atn, name, p.value, explicit, matching, mappedAtoms, mappedH);
      if explicit {
        GroupsFoundInside(if name in cts0 then cts0[name] else Renamed(|cts0|, CompoundOrder(p.value, explicit)),
                          atn.nodes, atn.edges, mappedH0, mappedAtoms, mappedH);
      }
      SideRunStep(run, SideState(atn.Snapshot(), mappedAtoms, mappedH), names, smiles, highmol, educt, explicit, parse, matcher);
      run := run + [SideState(atn.Snapshot(), mappedAtoms, mappedH)];
      i := i + 1;
    }
    ok := true;
  }

  /** What processing one reaction went through: the states of both sides'
      loops, and the orders in which the hydrogen keys and the educt classes
      were visited. */
  datatype Trace = Trace(educts: seq<SideState>, products: seq<SideState>, keys: seq<int>, classes: seq<int>)

  /** The hydrogen mapper's result on `g`, or `g` itself when hydrogens are
      not mapped. */
  ghost function Mapped(g: Graph, eductH: map<int, seq<string>>, productH: map<int, seq<string>>, keys: seq<int>,
                        mapH: bool, rid: nat, reversible: bool): Option<Graph>
  {
    if mapH then MapAll(g, eductH, productH, keys, rid, reversible) else Some(g)
  }

  /** Reaction `rid` took the registry from `r` to `r'` (04:243-376). A
      compartment change leaves it as it is. Otherwise the educts are parsed
      from `r`, the products after them, the hydrogens are matched when
      asked for, every educt class is linked once, and the network becomes
      the linker's result on the hydrogen mapper's result on the parsed
      network; the registries are the ones parsing left. */
  ghost predicate Processed(r: Registry, rx: Reaction, rid: nat, highmol: seq<string>, mapH: bool,
                            parse: string -> Option<Parsed>, matcher: (Graph, Parsed, bool) -> Option<map<string, nat>>,
                            tr: Trace, r': Registry)
  {
    if SameCompounds(rx) then r' == r
    else
      SideRun(tr.educts, rx.namesLeft, rx.smilesLeft, highmol, true, mapH, parse, matcher)
      && |tr.educts| == Zipped(rx.namesLeft, rx.smilesLeft) + 1 && tr.educts[0].reg == r
      && SideRun(tr.products, rx.namesRight, rx.smilesRight, highmol, false, mapH, parse, matcher)
      && |tr.products| == Zipped(rx.namesRight, rx.smilesRight) + 1
      && tr.products[0].reg == tr.educts[|tr.educts| - 1].reg
      && var e, p := tr.educts[|tr.educts| - 1], tr.products[|tr.products| - 1];
         r'.cts == p.reg.cts && r'.cids == p.reg.cids
         && (mapH ==> Enumerating(e.mappedH.Keys + p.mappedH.Keys, {}, tr.keys))
         && Enumerating(e.mappedAtoms.Keys, {}, tr.classes)
         && var mapped := Mapped(Graph(p.reg.nodes, p.reg.edges), e.mappedH, p.mappedH, tr.keys, mapH, rid, rx.reversible);
            mapped.Some?
            && LinkAll(mapped.value, e.mappedAtoms, p.mappedAtoms, tr.classes, rid, rx.reversible) == Some(Graph(r'.nodes, r'.edges))
  }

  /** Reaction `rid` made the source stop, starting from the registry `r`:
      it is no compartment change, and either a side stopped on a rejected
      SMILES, or, both sides parsed, the hydrogen mapper or the linker raised
      over the keys and classes taken so far (04:133, 04:270-376). */
  ghost predicate Fails(r: Registry, rx: Reaction, rid: nat, highmol: seq<string>, mapH: bool,
                        parse: string -> Option<Parsed>, matcher: (Graph, Parsed, bool) -> Option<map<string, nat>>,
                        tr: Trace)
  {
    !SameCompounds(rx)
    && SideRun(tr.educts, rx.namesLeft, rx.smilesLeft, highmol, true, mapH, parse, matcher) && tr.educts[0].reg == r
    && (Stopped(tr.educts, rx.namesLeft, rx.smilesLeft, parse)
        || (|tr.educts| == Zipped(rx.namesLeft, rx.smilesLeft) + 1
            && SideRun(tr.products, rx.namesRight, rx.smilesRight, highmol, false, mapH, parse, matcher)
            && tr.products[0].reg == tr.educts[|tr.educts| - 1].reg
            && (Stopped(tr.products, rx.namesRight, rx.smilesRight, parse)
                || (|tr.products| == Zipped(rx.namesRight, rx.smilesRight) + 1
                    && var e, p := tr.educts[|tr.educts| - 1], tr.products[|tr.products| - 1];
                       (mapH ==> Listed(e.mappedH.Keys + p.mappedH.Keys, tr.keys))
                       && Listed(e.mappedAtoms.Keys, tr.classes)
                       && var mapped := Mapped(Graph(p.reg.nodes, p.reg.edges), e.mappedH, p.mappedH, tr.keys, mapH, rid, rx.reversible);
                          (mapped.None? || LinkAll(mapped.value, e.mappedAtoms, p.mappedAtoms, tr.classes, rid, rx.reversible).None?)))))
  }

  /** One reaction (04:243-376), numbered `rid`: the registry changes as
      Processed describes. `ok` is false where the source stops with an
      error. */
  method ProcessReaction(atn: Atn, rx: Reaction, rid: nat, highmol: seq<string>, mapH: bool,
                         parse: string -> Option<Parsed>, matcher: (Graph, Parsed, bool) -> Option<map<string, nat>>)
    returns (ok: bool, ghost tr: Trace)
    requires atn.Valid() && Parses(parse)
    modifies atn
    ensures atn.Valid()
    ensures SameCompounds(rx) ==> ok
    ensures ok ==> old(atn.nodes).Keys <= atn.nodes.Keys
    ensures ok ==> Processed(old(atn.Snapshot()), rx, rid, highmol, mapH, parse, matcher, tr, atn.Snapshot())
    ensures !ok ==> Fails(old(atn.Snapshot()), rx, rid, highmol, mapH, parse, matcher, tr)
  {
    tr := Trace([], [], [], []);
    if SameCompounds(rx) {
      return true, tr;
    }
    var okE, eductAtoms, eductH, eRun := ParseSide(atn, rx.namesLeft, rx.smilesLeft, highmol, true, mapH, parse, matcher);
    tr := tr.(educts := eRun);
    if !okE {
      return false, tr;
    }
    var okP, productAtoms, productH, pRun := ParseSide(atn, rx.namesRight, rx.smilesRight, highmol, false, mapH, parse, matcher);
    tr := tr.(products := pRun);
    if !okP {
      return false, tr;
    }
    ghost var keys, classes;
    ok, keys, classes := MapAndLink(atn, eductAtoms, productAtoms, eductH, productH, rid, rx.reversible, mapH);
    tr := tr.(keys := keys, classes := classes);
  }

  /** The hydrogen mapper, when asked for, then the atom linker
      (04:332-376) on the parsed network; only nodes and edges change. */
  method MapAndLink(atn: Atn, eductAtoms: map<int, string>, productAtoms: map<int, string>,
                    eductH: map<int, seq<string>>, productH: map<int, seq<string>>, rid: nat, reversible: bool, mapH: bool)
    returns (ok: bool, ghost keys: seq<int>, ghost classes: seq<int>)
    requires atn.Valid()
    requires mapH ==> Ready(Graph(atn.nodes, atn.edges), atn.compoundToSubgraph, eductH, productH)
    modifies atn
    ensures atn.Valid()
    ensures atn.compoundToSubgraph == old(atn.compoundToSubgraph) && atn.compoundIdToCompound == old(atn.compoundIdToCompound)
    ensures ok ==> old(atn.nodes).Keys <= atn.nodes.Keys
    ensures ok ==> (mapH ==> Enumerating(eductH.Keys + productH.Keys, {}, keys)) && Enumerating(eductAtoms.Keys, {}, classes)
    ensures ok ==> var mapped := Mapped(Graph(old(atn.nodes), old(atn.edges)), eductH, productH, keys, mapH, rid, reversible);
                   mapped.Some? && LinkAll(mapped.value, eductAtoms, productAtoms, classes, rid, reversible) == Some(Graph(atn.nodes, atn.edges))
    ensures !ok ==> (mapH ==> Listed(eductH.Keys + productH.Keys, keys)) && Listed(eductAtoms.Keys, classes)
    ensures !ok ==> var mapped := Mapped(Graph(old(atn.nodes), old(atn.edges)), eductH, productH, keys, mapH, rid, reversible);
                    mapped.None? || LinkAll(mapped.value, eductAtoms, productAtoms, classes, rid, reversible).None?
  {
    var g := Graph(atn.nodes, atn.edges);
    keys := [];
    if mapH {
      var r;
      r, keys := MapHydrogens(g, atn.compoundToSubgraph, eductH, productH, rid, reversible);
      if r.None? {
        return false, keys, [];
      }
      g := r.value;
    }
    var l;
    l, classes := Link(g, atn.compoundToSubgraph, eductAtoms, productAtoms, rid, reversible);
    if l.None? {
      return false, keys, classes;
    }
    atn.SetGraph(l.value.nodes, l.value.edges, atn.compoundToSubgraph);
    ok := true;
  }

  /** The triplet a reaction is read from. */
  function TripletAt(lines: seq<string>, t: nat): Option<Reaction>
  {
    ParseReaction(Line(lines, 3 * t), Line(lines, 3 * t + 1), Line(lines, 3 * t + 2))
  }

  /** Every reaction edge has its final direction: Directed when one
      orientation carries ids, Bidirected otherwise (04:379-384). */
  ghost predicate Resolved(edges: map<EdgeKey, EdgeAttrs>)
  {
    forall k :: k in edges && IsReactionEdge(edges[k]) ==>
      edges[k].reactionId.Some?
      && edges[k].directed == Some(if |edges[k].reactionId.value| == 1 then Directed else Bidirected)
  }

  /** The direction pass (04:379-384) and the export (04:425) on the
      finished network. */
  method Finish(atn: Atn) returns (r: Option<Exported>)
    requires atn.Valid()
    modifies atn
    ensures atn.Valid()
    ensures atn.nodes == old(atn.nodes) && atn.compoundToSubgraph == old(atn.compoundToSubgraph)
    ensures atn.compoundIdToCompound == old(atn.compoundIdToCompound)
    ensures atn.edges.Keys == old(atn.edges).Keys
    ensures forall k :: k in atn.edges ==> atn.edges[k] == Resolve(old(atn.edges)[k])
    ensures Resolved(atn.edges)
    ensures r.None? <==> Stops(atn.edges, true)
    ensures r.Some? ==> Exports(atn.nodes, atn.edges, true, r.value)
  {
    var edges := ResolveDirectedness(atn.nodes, atn.edges, atn.compoundToSubgraph);
    atn.SetGraph(atn.nodes, edges, atn.compoundToSubgraph);
    r := BfsReadyTransform(atn.nodes, atn.edges, true);
  }

  /** One pass of the reading loop: triplet `t` is parsed and, when it
      parses, processed as reaction `t` (04:225-376). */
  method ReadOne(atn: Atn, lines: seq<string>, t: nat, highmol: seq<string>, mapH: bool,
                 parse: string -> Option<Parsed>, matcher: (Graph, Parsed, bool) -> Option<map<string, nat>>)
    returns (ok: bool, ghost tr: Trace)
    requires atn.Valid() && Parses(parse)
    modifies atn
    ensures atn.Valid()
    ensures ok ==> ReactionStep(lines, highmol, mapH, parse, matcher)(t, old(atn.Snapshot()), tr, atn.Snapshot())
    ensures !ok ==> ReactionFails(lines, highmol, mapH, parse, matcher)(t, old(atn.Snapshot()), tr)
  {
    var rx := TripletAt(lines, t);
    if rx.None? {
      return false, Trace([], [], [], []);
    }
    ok, tr := ProcessReaction(atn, rx.value, t, highmol, mapH, parse, matcher);
  }

  /** Reaction `u` is triplet `u` and took the registry from `r` to `r'`. */
  ghost function ReactionStep(lines: seq<string>, highmol: seq<string>, mapH: bool, parse: string -> Option<Parsed>,
                              matcher: (Graph, Parsed, bool) -> Option<map<string, nat>>): (nat, Registry, Trace, Registry) -> bool
  {
    (u: nat, r: Registry, tr: Trace, r': Registry) =>
      TripletAt(lines, u).Some? && Processed(r, TripletAt(lines, u).value, u, highmol, mapH, parse, matcher, tr, r')
  }

  /** Triplet `u` made the source stop, from the registry `r`: it does not
      parse, or it is a reaction that Fails. */
  ghost function ReactionFails(lines: seq<string>, highmol: seq<string>, mapH: bool, parse: string -> Option<Parsed>,
                               matcher: (Graph, Parsed, bool) -> Option<map<string, nat>>): (nat, Registry, Trace) -> bool
  {
    (u: nat, r: Registry, tr: Trace) =>
      TripletAt(lines, u).None? || Fails(r, TripletAt(lines, u).value, u, highmol, mapH, parse, matcher, tr)
  }

  /** The read stopped: the triplets before `|trs|` were reactions that took
      the registry from `r` through `regs`, and triplet `|trs|`, a complete
      one, made the source stop as `fail` shows. */
  ghost predicate ReadFailed(r: Registry, lines: seq<string>, highmol: seq<string>, mapH: bool, parse: string -> Option<Parsed>,
                             matcher: (Graph, Parsed, bool) -> Option<map<string, nat>>,
                             regs: seq<Registry>, trs: seq<Trace>, fail: Trace)
  {
    Chain(ReactionStep(lines, highmol, mapH, parse, matcher), regs, trs)
    && |trs| < TripletsFrom(lines, 0) && regs[0] == r
    && ReactionFails(lines, highmol, mapH, parse, matcher)(|trs|, regs[|trs|], fail)
  }

  /** The whole file was read: every complete triplet, each as its own
      reaction, took the registry from `r` through `regs` to `r'`. */
  ghost predicate ReadInto(r: Registry, lines: seq<string>, highmol: seq<string>, mapH: bool, parse: string -> Option<Parsed>,
                           matcher: (Graph, Parsed, bool) -> Option<map<string, nat>>,
                           regs: seq<Registry>, trs: seq<Trace>, r': Registry)
  {
    Chain(ReactionStep(lines, highmol, mapH, parse, matcher), regs, trs)
    && |trs| == TripletsFrom(lines, 0) && regs[0] == r && regs[|regs| - 1] == r'
  }

  /** Every triplet the loop reads was parsed, so none that fails to parse
      is passed over. */
  lemma ReadParsed(r: Registry, lines: seq<string>, highmol: seq<string>, mapH: bool, parse: string -> Option<Parsed>,
                   matcher: (Graph, Parsed, bool) -> Option<map<string, nat>>,
                   regs: seq<Registry>, trs: seq<Trace>, r': Registry)
    requires ReadInto(r, lines, highmol, mapH, parse, matcher, regs, trs, r')
    ensures forall t :: 0 <= t < TripletsFrom(lines, 0) ==> TripletAt(lines, t).Some?
  {
    forall t | 0 <= t < TripletsFrom(lines, 0) ensures TripletAt(lines, t).Some? {
      assert ReactionStep(lines, highmol, mapH, parse, matcher)(t, regs[t], trs[t], regs[t + 1]);
    }
  }

  /** The reading loop (04:214-376): the `t`-th complete triplet is reaction
      `t`, whether or not it is a compartment change (len(reactions) - 1 at
      04:245 counts it). `regs[t]` is the registry before reaction `t` and
      `trs[t]` what reaction `t` went through. `ok` is false where the source
      stops with an error. */
  method ReadAll(atn: Atn, lines: seq<string>, highmol: seq<string>, mapH: bool,
                 parse: string -> Option<Parsed>, matcher: (Graph, Parsed, bool) -> Option<map<string, nat>>)
    returns (ok: bool, ghost regs: seq<Registry>, ghost trs: seq<Trace>, ghost fail: Trace)
    requires atn.Valid() && Parses(parse)
    modifies atn
    ensures atn.Valid()
    ensures ok ==> ReadInto(old(atn.Snapshot()), lines, highmol, mapH, parse, matcher, regs, trs, atn.Snapshot())
    ensures !ok ==> ReadFailed(old(atn.Snapshot()), lines, highmol, mapH, parse, matcher, regs, trs, fail)
  {
    fail := Trace([], [], [], []);
    ghost var step := ReactionStep(lines, highmol, mapH, parse, matcher);
    regs, trs := [atn.Snapshot()], [];
    var t := 0;
    while Complete(lines, t)
      invariant atn.Valid()
      invariant t <= TripletsFrom(lines, 0)
      invariant |trs| == t && Chain(step, regs, trs)
      invariant regs[0] == old(atn.Snapshot()) && regs[t] == atn.Snapshot()
      decreases |lines| - 3 * t
    {
      ghost var tr;
      ok, tr := ReadOne(atn, lines, t, highmol, mapH, parse, matcher);
      if !ok {
        return false, regs, trs, tr;
      }
      ChainStep(step, regs, trs, tr, atn.Snapshot());
      regs, trs := regs + [atn.Snapshot()], trs + [tr];
      t := t + 1;
    }
    assert t == TripletsFrom(lines, 0);
    ok := true;
  }

  /** The script: every complete triplet is one reaction, numbered by its
      position (a compartment change keeps its number); after the last one
      the reaction edges get their direction and the network is exported,
      dropping chemical bonds. The export is None where the source stops with
      an error: a triplet that does not parse, a rejected SMILES, a failed
      hydrogen or atom mapping, or an edge the export cannot orient. When it
      is not, it is the export of the network the reactions built from the
      empty registry, with every edge resolved. */
  method Build(lines: seq<string>, highmol: seq<string>, mapH: bool,
               parse: string -> Option<Parsed>, matcher: (Graph, Parsed, bool) -> Option<map<string, nat>>)
    returns (atn: Atn, r: Option<Exported>, ghost regs: seq<Registry>, ghost trs: seq<Trace>, ghost fail: Trace)
    requires Parses(parse)
    ensures fresh(atn) && atn.Valid()
    ensures (exists t :: 0 <= t < TripletsFrom(lines, 0) && TripletAt(lines, t).None?) ==> r.None?
    ensures r.Some? ==> ReadAndResolved(atn.nodes, atn.edges, atn.compoundToSubgraph, atn.compoundIdToCompound,
                                        lines, highmol, mapH, parse, matcher, regs, trs)
    ensures r.Some? ==> Resolved(atn.edges) && Exports(atn.nodes, atn.edges, true, r.value)
    ensures r.None? ==> ReadFailed(Registry(map[], map[], map[], map[]), lines, highmol, mapH, parse, matcher, regs, trs, fail)
                        || (ReadAndResolved(atn.nodes, atn.edges, atn.compoundToSubgraph, atn.compoundIdToCompound,
                                            lines, highmol, mapH, parse, matcher, regs, trs)
                            && Stops(atn.edges, true))
  {
    atn := new Atn();
    var ok;
    ok, regs, trs, fail := ReadAll(atn, lines, highmol, mapH, parse, matcher);
    if !ok {
      return atn, None, regs, trs, fail;
    }
    ReadParsed(Registry(map[], map[], map[], map[]), lines, highmol, mapH, parse, matcher, regs, trs, atn.Snapshot());
    r := Finish(atn);
  }

  /** The network (`nodes`, `edges` and both registries) is the one the
      reactions read from the file built from the empty registry, except that
      every edge went through the direction pass. */
  ghost predicate ReadAndResolved(nodes: map<string, NodeAttrs>, edges: map<EdgeKey, EdgeAttrs>,
                                  cts: map<string, seq<string>>, cids: map<nat, (string, string)>,
                                  lines: seq<string>, highmol: seq<string>, mapH: bool, parse: string -> Option<Parsed>,
                                  matcher: (Graph, Parsed, bool) -> Option<map<string, nat>>,
                                  regs: seq<Registry>, trs: seq<Trace>)
  {
    |regs| >= 1
    && var last := regs[|regs| - 1];
       Consistent(last.nodes, last.edges, last.cts)
       && ReadInto(Registry(map[], map[], map[], map[]), lines, highmol, mapH, parse, matcher, regs, trs,
                   Registry(nodes, last.edges, cts, cids))
       && edges.Keys == last.edges.Keys
       && forall k :: k in edges ==> edges[k] == Resolve(last.edges[k])
  }
}
