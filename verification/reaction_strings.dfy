/** The reaction strings of the converter from BiGG SBML to mapped SMILES
    (01:187-252): every compound contributes its MetaNetX name and SMILES,
    as often as its stoichiometry says, and the two sides are written as a
    name formula ("a + b = c") and a reaction SMILES ("A.B>>C"), the two
    lines of a triplet the network builder reads back. */
module ReactionStrings {
  import opened Common
  import opened Triplets

  /** A MetaNetX compound id mapped to its name and SMILES (chem_prop.tsv). */
  type Compounds = map<string, (string, string)>

  // ---------------------------------------------------------------------------
  // get_compound_info (01:187-196)
  // ---------------------------------------------------------------------------

  /** "<name> Subcomponent 1", ..., "<name> Subcomponent n". */
  function Subcomponents(name: string, n: nat): (parts: seq<string>)
    ensures |parts| == n
    decreases n
  {
    if n == 0 then [] else Subcomponents(name, n - 1) + [name + " Subcomponent " + NatToString(n)]
  }

  /** The names a compound stands for: one per component of its SMILES, the
      components numbered when there are several. */
  function ComponentNames(name: string, smiles: string): (parts: seq<string>)
    ensures |parts| == Count(smiles, '.') + 1
  {
    if Count(smiles, '.') > 0 then Subcomponents(name, Count(smiles, '.') + 1) else [name]
  }

  /** The name get_compound_info gives a compound. */
  function CompoundName(name: string, smiles: string): string
  {
    Join(ComponentNames(name, smiles), " + ")
  }

  /** get_compound_info: the SMILES unchanged and, when it has k >= 1 dots,
      the name as k + 1 numbered subcomponents joined by " + ". An id
      chem_prop.tsv does not list raises KeyError: None. */
  method CompoundInfo(compounds: Compounds, id: string) returns (r: Option<(string, string)>)
    ensures r.None? <==> id !in compounds
    ensures r.Some? ==> r.value.1 == compounds[id].1
    ensures r.Some? ==> r.value.0 == CompoundName(compounds[id].0, compounds[id].1)
  {
    if id !in compounds {
      return None;
    }
    var (name, smiles) := compounds[id];
    var dots := Count(smiles, '.');
    if dots > 0 {
      var newName := name + " Subcomponent 1";
      assert newName == Join(Subcomponents(name, 1), " + ") by {
        assert Subcomponents(name, 1) == [name + " Subcomponent " + NatToString(1)];
      }
      var i := 0;
      while i < dots
        invariant 0 <= i <= dots
        invariant newName == Join(Subcomponents(name, i + 1), " + ")
      {
        ghost var before := newName;
        newName := newName + " + " + name + " Subcomponent " + NatToString(i + 2);
        SubcomponentStep(name, i + 1, before);
        i := i + 1;
      }
      name := newName;
    }
    return Some((name, smiles));
  }

  lemma SubcomponentStep(name: string, n: nat, joined: string)
    requires n >= 1 && joined == Join(Subcomponents(name, n), " + ")
    ensures joined + " + " + name + " Subcomponent " + NatToString(n + 1) == Join(Subcomponents(name, n + 1), " + ")
  {
    var x := name + " Subcomponent " + NatToString(n + 1);
    JoinSnoc(Subcomponents(name, n), " + ", x);
    assert joined + " + " + name + " Subcomponent " + NatToString(n + 1) == joined + " + " + x;
  }

  // ---------------------------------------------------------------------------
  // parse_and_print_xml_reaction (01:198-252)
  // ---------------------------------------------------------------------------

  /** How far a side got: complete, rejected (an unknown species or an empty
      SMILES: the function returns (False, "", "")), or stopped by a KeyError
      in get_compound_info. */
  datatype Status = Complete | Rejected | Raised

  /** A side: its status and the (name, SMILES) of every molecule written
      so far, a compound repeated by its stoichiometry. */
  datatype Side = Side(status: Status, terms: seq<(string, string)>)

  /** `count` copies of `x`; none when `count` is not positive (range(count)). */
  function Repeat<T>(x: T, count: int): (r: seq<T>)
    ensures |r| == if count <= 0 then 0 else count
    ensures forall j :: 0 <= j < |r| ==> r[j] == x
    decreases count
  {
    if count <= 0 then [] else Repeat(x, count - 1) + [x]
  }

  /** The species is known and its compound has a SMILES. */
  predicate Known(xmlToMeta: map<string, string>, compounds: Compounds, e: (string, int))
  {
    e.0 in xmlToMeta && xmlToMeta[e.0] in compounds && compounds[xmlToMeta[e.0]].1 != []
  }

  /** The species makes the function give up: it has no MetaNetX id, or its
      compound has no SMILES. */
  predicate Rejects(xmlToMeta: map<string, string>, compounds: Compounds, e: (string, int))
  {
    e.0 !in xmlToMeta || (xmlToMeta[e.0] in compounds && compounds[xmlToMeta[e.0]].1 == [])
  }

  /** The entries of one side, read in order; the first entry that is not
      known decides the outcome. */
  function SideOf(xmlToMeta: map<string, string>, compounds: Compounds, entries: seq<(string, int)>): Side
    decreases |entries|
  {
    if entries == [] then Side(Complete, [])
    else
      var before := SideOf(xmlToMeta, compounds, entries[..|entries| - 1]);
      var e := entries[|entries| - 1];
      if before.status != Complete then before
      else if e.0 !in xmlToMeta then Side(Rejected, before.terms)
      else if xmlToMeta[e.0] !in compounds then Side(Raised, before.terms)
      else if compounds[xmlToMeta[e.0]].1 == [] then Side(Rejected, before.terms)
      else Side(Complete, before.terms + Repeat(compounds[xmlToMeta[e.0]], e.1))
  }

  /** The name written for each molecule. */
  function Names(terms: seq<(string, string)>): (r: seq<string>)
    ensures |r| == |terms|
    decreases |terms|
  {
    if terms == [] then []
    else Names(terms[..|terms| - 1]) + [CompoundName(terms[|terms| - 1].0, terms[|terms| - 1].1)]
  }

  /** The SMILES written for each molecule. */
  function Smiles(terms: seq<(string, string)>): (r: seq<string>)
    ensures |r| == |terms|
    decreases |terms|
  {
    if terms == [] then [] else Smiles(terms[..|terms| - 1]) + [terms[|terms| - 1].1]
  }

  /** What the function returns: (False, "", "") or the two formulas. */
  datatype Formula = Failed | Formula(names: string, smiles: string)

  /** parse_and_print_xml_reaction as a value; None where it raises. */
  function FormulaOf(xmlToMeta: map<string, string>, compounds: Compounds,
                     educts: seq<(string, int)>, products: seq<(string, int)>): Option<Formula>
  {
    var e, p := SideOf(xmlToMeta, compounds, educts), SideOf(xmlToMeta, compounds, products);
    if e.status == Raised then None
    else if e.status == Rejected then Some(Failed)
    else if p.status == Raised then None
    else if p.status == Rejected then Some(Failed)
    else Some(Formula(Join(Names(e.terms), " + ") + " = " + Join(Names(p.terms), " + "),
                      Join(Smiles(e.terms), ".") + ">>" + Join(Smiles(p.terms), ".")))
  }

  /** The loop over one side's entries (01:203-224, 01:229-250): every
      molecule's name and SMILES are appended to the formulas, with " + "
      and "." before all but the side's first. */
  method AppendSide(xmlToMeta: map<string, string>, compounds: Compounds, entries: seq<(string, int)>,
                    names0: string, smiles0: string)
    returns (status: Status, names: string, smiles: string)
    ensures status == SideOf(xmlToMeta, compounds, entries).status
    ensures status == Complete ==> names == names0 + Join(Names(SideOf(xmlToMeta, compounds, entries).terms), " + ")
    ensures status == Complete ==> smiles == smiles0 + Join(Smiles(SideOf(xmlToMeta, compounds, entries).terms), ".")
  {
    names, smiles := names0, smiles0;
    ghost var terms: seq<(string, string)> := [];
    var first := true;
    var i := 0;
    while i < |entries|
      invariant 0 <= i <= |entries|
      invariant SideOf(xmlToMeta, compounds, entries[..i]) == Side(Complete, terms)
      invariant first <==> terms == []
      invariant names == names0 + Join(Names(terms), " + ")
      invariant smiles == smiles0 + Join(Smiles(terms), ".")
    {
      assert entries[..i + 1][..i] == entries[..i];
      var (xmlId, count) := entries[i];
      if xmlId !in xmlToMeta {
        SideStops(xmlToMeta, compounds, entries, i + 1);
        return Rejected, names, smiles;
      }
      var info := CompoundInfo(compounds, xmlToMeta[xmlId]);
      if info.None? {
        SideStops(xmlToMeta, compounds, entries, i + 1);
        return Raised, names, smiles;
      }
      var (name, s) := info.value;
      if s == [] {
        SideStops(xmlToMeta, compounds, entries, i + 1);
        return Rejected, names, smiles;
      }
      ghost var t := compounds[xmlToMeta[xmlId]];
      SideStep(xmlToMeta, compounds, entries, i, terms);
      names, smiles, first, terms := AppendCopies(name, s, count, t, terms, names0, names, smiles0, smiles, first);
      i := i + 1;
    }
    assert entries[..i] == entries;
    status := Complete;
  }

  /** The inner loop (01:215-224): `count` copies of one compound. */
  method AppendCopies(name: string, s: string, count: int, ghost t: (string, string), ghost terms: seq<(string, string)>,
                      names0: string, names: string, smiles0: string, smiles: string, first: bool)
    returns (names': string, smiles': string, first': bool, ghost terms': seq<(string, string)>)
    requires name == CompoundName(t.0, t.1) && s == t.1
    requires first <==> terms == []
    requires names == names0 + Join(Names(terms), " + ")
    requires smiles == smiles0 + Join(Smiles(terms), ".")
    ensures terms' == terms + Repeat(t, count)
    ensures first' <==> terms' == []
    ensures names' == names0 + Join(Names(terms'), " + ")
    ensures smiles' == smiles0 + Join(Smiles(terms'), ".")
  {
    names', smiles', first', terms' := names, smiles, first, terms;
    var j := 0;
    while j < count
      invariant 0 <= j <= (if count <= 0 then 0 else count)
      invariant terms' == terms + Repeat(t, j)
      invariant first' <==> terms' == []
      invariant names' == names0 + Join(Names(terms'), " + ")
      invariant smiles' == smiles0 + Join(Smiles(terms'), ".")
    {
      AppendTerm(terms', t, names0, names', smiles0, smiles', first');
      if !first' {
        names' := names' + " + ";
      }
      names' := names' + name;
      if !first' {
        smiles' := smiles' + ".";
      }
      first' := false;
      smiles' := smiles' + s;
      terms' := terms' + [t];
      j := j + 1;
    }
    if count <= 0 {
      assert terms' == terms + Repeat(t, count);
    }
  }

  /** A known entry adds its compound, `count` times. */
  lemma SideStep(xmlToMeta: map<string, string>, compounds: Compounds, entries: seq<(string, int)>, i: nat,
                 terms: seq<(string, string)>)
    requires i < |entries| && SideOf(xmlToMeta, compounds, entries[..i]) == Side(Complete, terms)
    requires Known(xmlToMeta, compounds, entries[i])
    ensures SideOf(xmlToMeta, compounds, entries[..i + 1])
            == Side(Complete, terms + Repeat(compounds[xmlToMeta[entries[i].0]], entries[i].1))
  {
    assert entries[..i + 1][..i] == entries[..i];
  }

  /** Appending one molecule to the formulas written so far. */
  lemma AppendTerm(terms: seq<(string, string)>, t: (string, string), names0: string, names: string,
                   smiles0: string, smiles: string, first: bool)
    requires first <==> terms == []
    requires names == names0 + Join(Names(terms), " + ")
    requires smiles == smiles0 + Join(Smiles(terms), ".")
    ensures (if first then names else names + " + ") + CompoundName(t.0, t.1)
            == names0 + Join(Names(terms + [t]), " + ")
    ensures (if first then smiles else smiles + ".") + t.1 == smiles0 + Join(Smiles(terms + [t]), ".")
  {
    assert (terms + [t])[..|terms|] == terms;
    JoinSnoc(Names(terms), " + ", CompoundName(t.0, t.1));
    JoinSnoc(Smiles(terms), ".", t.1);
  }

  /** Once a side stopped, later entries do not change its outcome. */
  lemma {:induction false} SideStops(xmlToMeta: map<string, string>, compounds: Compounds, entries: seq<(string, int)>, n: nat)
    requires n <= |entries| && SideOf(xmlToMeta, compounds, entries[..n]).status != Complete
    ensures SideOf(xmlToMeta, compounds, entries).status == SideOf(xmlToMeta, compounds, entries[..n]).status
    decreases |entries| - n
  {
    if n < |entries| {
      assert entries[..n + 1][..n] == entries[..n];
      SideStops(xmlToMeta, compounds, entries, n + 1);
    } else {
      assert entries[..n] == entries;
    }
  }

  /** parse_and_print_xml_reaction: the educts, " = " and ">>", then the
      products. None where get_compound_info raises. */
  method ParseAndPrint(xmlToMeta: map<string, string>, compounds: Compounds,
                       educts: seq<(string, int)>, products: seq<(string, int)>)
    returns (r: Option<Formula>)
    ensures r == FormulaOf(xmlToMeta, compounds, educts, products)
  {
    var status, names, smiles := AppendSide(xmlToMeta, compounds, educts, "", "");
    if status == Raised {
      return None;
    } else if status == Rejected {
      return Some(Failed);
    }
    names := names + " = ";
    smiles := smiles + ">>";
    ghost var e := SideOf(xmlToMeta, compounds, educts);
    ghost var n0, s0 := names, smiles;
    status, names, smiles := AppendSide(xmlToMeta, compounds, products, names, smiles);
    if status == Raised {
      return None;
    } else if status == Rejected {
      return Some(Failed);
    }
    ghost var p := SideOf(xmlToMeta, compounds, products);
    assert n0 == Join(Names(e.terms), " + ") + " = ";
    assert s0 == Join(Smiles(e.terms), ".") + ">>";
    return Some(Formula(names, smiles));
  }

  // ---------------------------------------------------------------------------
  // What the formulas promise
  // ---------------------------------------------------------------------------

  /** A side is complete exactly when every species on it is known. */
  lemma {:induction false} SideComplete(xmlToMeta: map<string, string>, compounds: Compounds, entries: seq<(string, int)>)
    ensures SideOf(xmlToMeta, compounds, entries).status == Complete
            <==> forall j :: 0 <= j < |entries| ==> Known(xmlToMeta, compounds, entries[j])
    decreases |entries|
  {
    if entries != [] {
      var init := entries[..|entries| - 1];
      SideComplete(xmlToMeta, compounds, init);
      assert forall j :: 0 <= j < |init| ==> init[j] == entries[j];
    }
  }

  /** A side is rejected exactly when the first species that is not known
      has no MetaNetX id or an empty SMILES (01:206-213, 01:232-239). */
  lemma {:induction false} SideRejected(xmlToMeta: map<string, string>, compounds: Compounds, entries: seq<(string, int)>)
    ensures SideOf(xmlToMeta, compounds, entries).status == Rejected
            <==> exists j :: 0 <= j < |entries| && Rejects(xmlToMeta, compounds, entries[j])
                             && forall i :: 0 <= i < j ==> Known(xmlToMeta, compounds, entries[i])
    decreases |entries|
  {
    if entries != [] {
      var init, e := entries[..|entries| - 1], entries[|entries| - 1];
      SideRejected(xmlToMeta, compounds, init);
      SideComplete(xmlToMeta, compounds, init);
      assert forall j :: 0 <= j < |init| ==> init[j] == entries[j];
      if SideOf(xmlToMeta, compounds, entries).status == Rejected && SideOf(xmlToMeta, compounds, init).status == Complete {
        assert Rejects(xmlToMeta, compounds, e);
        assert forall i :: 0 <= i < |init| ==> Known(xmlToMeta, compounds, entries[i]);
      }
      if exists j :: 0 <= j < |entries| && Rejects(xmlToMeta, compounds, entries[j])
                     && forall i :: 0 <= i < j ==> Known(xmlToMeta, compounds, entries[i]) {
        var j :| 0 <= j < |entries| && Rejects(xmlToMeta, compounds, entries[j])
                 && forall i :: 0 <= i < j ==> Known(xmlToMeta, compounds, entries[i]);
        if j < |init| {
          assert Rejects(xmlToMeta, compounds, init[j]);
          assert !Known(xmlToMeta, compounds, init[j]);
        }
      }
    }
  }

  // ---------------------------------------------------------------------------
  // The formulas read back (file 04 splits them at 04:226-242)
  // ---------------------------------------------------------------------------

  /** The names each molecule stands for. */
  function NameGroups(terms: seq<(string, string)>): (r: seq<seq<string>>)
    ensures |r| == |terms|
    ensures forall j :: 0 <= j < |terms| ==> r[j] == ComponentNames(terms[j].0, terms[j].1)
    decreases |terms|
  {
    if terms == [] then []
    else NameGroups(terms[..|terms| - 1]) + [ComponentNames(terms[|terms| - 1].0, terms[|terms| - 1].1)]
  }

  /** The components of each molecule's SMILES. */
  function SmilesGroups(terms: seq<(string, string)>): (r: seq<seq<string>>)
    ensures |r| == |terms|
    ensures forall j :: 0 <= j < |terms| ==> r[j] == Split(terms[j].1, ".")
    decreases |terms|
  {
    if terms == [] then [] else SmilesGroups(terms[..|terms| - 1]) + [Split(terms[|terms| - 1].1, ".")]
  }

  lemma {:induction false} NamesAreJoins(terms: seq<(string, string)>)
    ensures Names(terms) == JoinEach(NameGroups(terms), " + ")
    decreases |terms|
  {
    if terms != [] {
      NamesAreJoins(terms[..|terms| - 1]);
      assert NameGroups(terms)[..|terms| - 1] == NameGroups(terms[..|terms| - 1]);
    }
  }

  lemma {:induction false} SmilesAreJoins(terms: seq<(string, string)>)
    ensures Smiles(terms) == JoinEach(SmilesGroups(terms), ".")
    decreases |terms|
  {
    if terms != [] {
      SmilesAreJoins(terms[..|terms| - 1]);
      assert SmilesGroups(terms)[..|terms| - 1] == SmilesGroups(terms[..|terms| - 1]);
      JoinSplit(terms[|terms| - 1].1, ".");
    }
  }

  /** A SMILES has one component more than it has dots. */
  lemma ComponentsOfSmiles(smiles: string)
    ensures |Split(smiles, ".")| == Count(smiles, '.') + 1
    ensures forall c :: c in Split(smiles, ".") ==> '.' !in c
  {
    assert "." == ['.'];
    SplitCount(smiles, '.');
    SplitParts(smiles, '.');
  }

  /** A name and its numbered subcomponents hold no '+'. */
  lemma {:induction false} SubcomponentsWithoutPlus(name: string, n: nat)
    requires '+' !in name
    ensures forall c :: c in Subcomponents(name, n) ==> '+' !in c
    decreases n
  {
    if n > 0 {
      SubcomponentsWithoutPlus(name, n - 1);
      Suffixed(name, n);
    }
  }

  /** The text "<name> Subcomponent <n>" adds no marker and ends in a digit. */
  lemma Suffixed(name: string, n: nat)
    ensures var c := name + " Subcomponent " + NatToString(n);
      |c| > |name| && c[..|name|] == name && IsDigit(c[|c| - 1])
      && forall x :: x in c ==> x in name || x in " Subcomponent" || IsDigit(x)
  {
    var d := NatToString(n);
    var c := name + " Subcomponent " + d;
    assert c == name + (" Subcomponent " + d);
    forall x | x in c ensures x in name || x in " Subcomponent" || IsDigit(x) {
      var i :| 0 <= i < |c| && c[i] == x;
      if |name| + 14 <= i {
        assert x == d[i - |name| - 14];
      } else if |name| + 13 == i {
        assert x == ' ';
      }
    }
  }

  /** The names of a molecule hold no '+' when its compound name holds none. */
  lemma ComponentsWithoutPlus(name: string, smiles: string)
    requires '+' !in name
    ensures forall c :: c in ComponentNames(name, smiles) ==> '+' !in c
  {
    if Count(smiles, '.') > 0 {
      SubcomponentsWithoutPlus(name, Count(smiles, '.') + 1);
    }
  }

  /** A side of the formulas splits into one name per SMILES component:
      the name formula on " + " into every molecule's names, the reaction
      SMILES on "." into every molecule's components, as many of each
      (01:190-194, 01:215-224), as long as no compound name holds a '+'. */
  lemma SidesAgree(terms: seq<(string, string)>)
    requires terms != [] && forall j :: 0 <= j < |terms| ==> '+' !in terms[j].0
    ensures Split(Join(Names(terms), " + "), " + ") == Concat(NameGroups(terms))
    ensures Split(Join(Smiles(terms), "."), ".") == Concat(SmilesGroups(terms))
    ensures |Split(Join(Names(terms), " + "), " + ")| == |Split(Join(Smiles(terms), "."), ".")|
  {
    NameSideSplits(terms);
    SmilesSideSplits(terms);
    forall j | 0 <= j < |terms| ensures |NameGroups(terms)[j]| == |SmilesGroups(terms)[j]| {
      ComponentsOfSmiles(terms[j].1);
    }
    ConcatSameShape(NameGroups(terms), SmilesGroups(terms));
  }

  lemma NameSideSplits(terms: seq<(string, string)>)
    requires terms != [] && forall j :: 0 <= j < |terms| ==> '+' !in terms[j].0
    ensures Join(Names(terms), " + ") == Join(Concat(NameGroups(terms)), " + ")
    ensures Split(Join(Names(terms), " + "), " + ") == Concat(NameGroups(terms))
  {
    var groups := NameGroups(terms);
    NamesAreJoins(terms);
    JoinGroups(groups, " + ");
    ConcatNonEmpty(groups);
    forall c | c in Concat(groups) ensures '+' !in c {
      InConcat(groups, c);
      var j :| 0 <= j < |groups| && c in groups[j];
      ComponentsWithoutPlus(terms[j].0, terms[j].1);
    }
    PlusMarker();
    SplitJoin(Concat(groups), " + ", 1);
  }

  lemma SmilesSideSplits(terms: seq<(string, string)>)
    requires terms != []
    ensures Join(Smiles(terms), ".") == Join(Concat(SmilesGroups(terms)), ".")
    ensures Split(Join(Smiles(terms), "."), ".") == Concat(SmilesGroups(terms))
  {
    var groups := SmilesGroups(terms);
    SmilesAreJoins(terms);
    JoinGroups(groups, ".");
    ConcatNonEmpty(groups);
    forall c | c in Concat(groups) ensures '.' !in c {
      InConcat(groups, c);
      var j :| 0 <= j < |groups| && c in groups[j];
      ComponentsOfSmiles(terms[j].1);
    }
    SplitJoin(Concat(groups), ".", 0);
  }

  /** A compound file 04 reads back as written: a plain name, and SMILES
      components without stereo marks. */
  predicate Printable(t: (string, string))
  {
    PlainName(t.0) && forall c :: c in Split(t.1, ".") ==> PlainSmiles(c)
  }

  /** What file 01 writes, file 04 reads back: the triplet parser splits the
      name formula into every molecule's names and the reaction SMILES into
      every molecule's components, pairing one name with one component
      (01:190-194, 01:215-252 against 04:226-242). */
  lemma FormulaReadBack(meta: string, xmlToMeta: map<string, string>, compounds: Compounds,
                        educts: seq<(string, int)>, products: seq<(string, int)>)
    requires |SplitWords(Strip(meta))| >= 7
    requires FormulaOf(xmlToMeta, compounds, educts, products).Some?
    requires FormulaOf(xmlToMeta, compounds, educts, products).value.Formula?
    requires SideOf(xmlToMeta, compounds, educts).terms != [] && SideOf(xmlToMeta, compounds, products).terms != []
    requires forall t :: t in SideOf(xmlToMeta, compounds, educts).terms ==> Printable(t)
    requires forall t :: t in SideOf(xmlToMeta, compounds, products).terms ==> Printable(t)
    ensures var f := FormulaOf(xmlToMeta, compounds, educts, products).value;
            var e, p := SideOf(xmlToMeta, compounds, educts).terms, SideOf(xmlToMeta, compounds, products).terms;
            var r := ParseReaction(meta, f.names + "\n", f.smiles + "\n");
            r.Some?
            && r.value.namesLeft == Concat(NameGroups(e)) && r.value.smilesLeft == Concat(SmilesGroups(e))
            && r.value.namesRight == Concat(NameGroups(p)) && r.value.smilesRight == Concat(SmilesGroups(p))
            && |r.value.namesLeft| == |r.value.smilesLeft| && |r.value.namesRight| == |r.value.smilesRight|
  {
    var e, p := SideOf(xmlToMeta, compounds, educts).terms, SideOf(xmlToMeta, compounds, products).terms;
    assert FormulaOf(xmlToMeta, compounds, educts, products).value
        == Formula(Join(Names(e), " + ") + " = " + Join(Names(p), " + "), Join(Smiles(e), ".") + ">>" + Join(Smiles(p), "."));
    SidesReadBack(meta, e, p);
  }

  /** The triplet parser reads back both sides of formulas written from
      printable molecules. */
  lemma SidesReadBack(meta: string, e: seq<(string, string)>, p: seq<(string, string)>)
    requires |SplitWords(Strip(meta))| >= 7
    requires e != [] && p != []
    requires forall t :: t in e ==> Printable(t)
    requires forall t :: t in p ==> Printable(t)
    ensures var r := ParseReaction(meta, Join(Names(e), " + ") + " = " + Join(Names(p), " + ") + "\n",
                                   Join(Smiles(e), ".") + ">>" + Join(Smiles(p), ".") + "\n");
            r.Some?
            && r.value.namesLeft == Concat(NameGroups(e)) && r.value.smilesLeft == Concat(SmilesGroups(e))
            && r.value.namesRight == Concat(NameGroups(p)) && r.value.smilesRight == Concat(SmilesGroups(p))
            && |r.value.namesLeft| == |r.value.smilesLeft| && |r.value.namesRight| == |r.value.smilesRight|
  {
    SideReadable(e);
    SideReadable(p);
    ParseFormula(meta, Concat(NameGroups(e)), Concat(NameGroups(p)), Concat(SmilesGroups(e)), Concat(SmilesGroups(p)));
  }

  /** One side of printable molecules, as the triplet parser needs it. */
  lemma SideReadable(terms: seq<(string, string)>)
    requires terms != [] && forall t :: t in terms ==> Printable(t)
    ensures Join(Names(terms), " + ") == Join(Concat(NameGroups(terms)), " + ")
    ensures Join(Smiles(terms), ".") == Join(Concat(SmilesGroups(terms)), ".")
    ensures |Concat(NameGroups(terms))| >= 1 && |Concat(NameGroups(terms))| == |Concat(SmilesGroups(terms))|
    ensures forall n :: n in Concat(NameGroups(terms)) ==> PlainName(n)
    ensures forall c :: c in Concat(SmilesGroups(terms)) ==> PlainSmiles(c)
  {
    assert forall j :: 0 <= j < |terms| ==> terms[j] in terms;
    SideShape(terms);
    NamesPlain(terms);
    SmilesPlain(terms);
  }

  lemma SideShape(terms: seq<(string, string)>)
    requires terms != [] && forall j :: 0 <= j < |terms| ==> '+' !in terms[j].0
    ensures Join(Names(terms), " + ") == Join(Concat(NameGroups(terms)), " + ")
    ensures Join(Smiles(terms), ".") == Join(Concat(SmilesGroups(terms)), ".")
    ensures |Concat(NameGroups(terms))| >= 1 && |Concat(NameGroups(terms))| == |Concat(SmilesGroups(terms))|
  {
    SidesAgree(terms);
    NameSideSplits(terms);
    SmilesSideSplits(terms);
    ConcatNonEmpty(NameGroups(terms));
  }

  lemma NamesPlain(terms: seq<(string, string)>)
    requires forall j :: 0 <= j < |terms| ==> PlainName(terms[j].0)
    ensures forall n :: n in Concat(NameGroups(terms)) ==> PlainName(n)
  {
    forall n | n in Concat(NameGroups(terms)) ensures PlainName(n) {
      InConcat(NameGroups(terms), n);
      var j :| 0 <= j < |terms| && n in NameGroups(terms)[j];
      ComponentsPlain(terms[j].0, terms[j].1);
    }
  }

  lemma SmilesPlain(terms: seq<(string, string)>)
    requires forall j :: 0 <= j < |terms| ==> Printable(terms[j])
    ensures forall c :: c in Concat(SmilesGroups(terms)) ==> PlainSmiles(c)
  {
    forall c | c in Concat(SmilesGroups(terms)) ensures PlainSmiles(c) {
      InConcat(SmilesGroups(terms), c);
      var j :| 0 <= j < |terms| && c in SmilesGroups(terms)[j];
      assert Printable(terms[j]);
    }
  }

  /** The names of a molecule are plain when its compound name is. */
  lemma ComponentsPlain(name: string, smiles: string)
    requires PlainName(name)
    ensures forall c :: c in ComponentNames(name, smiles) ==> PlainName(c)
  {
    if Count(smiles, '.') > 0 {
      SubcomponentsPlain(name, Count(smiles, '.') + 1);
    }
  }

  lemma {:induction false} SubcomponentsPlain(name: string, n: nat)
    requires PlainName(name)
    ensures forall c :: c in Subcomponents(name, n) ==> PlainName(c)
    decreases n
  {
    if n > 0 {
      SubcomponentsPlain(name, n - 1);
      SuffixedPlain(name, n);
    }
  }

  lemma SuffixedPlain(name: string, n: nat)
    requires PlainName(name)
    ensures PlainName(name + " Subcomponent " + NatToString(n))
  {
    var c := name + " Subcomponent " + NatToString(n);
    Suffixed(name, n);
    assert c[0] == c[..|name|][0] == name[0];
    assert " Subcomponent" == [' ', 'S', 'u', 'b', 'c', 'o', 'm', 'p', 'o', 'n', 'e', 'n', 't'];
    assert '=' !in " Subcomponent" && '+' !in " Subcomponent";
  }
}
