/** The reading side of the builder's main loop (04:214-268): the
    mapped-SMILES file holds one reaction per three lines (a meta line whose
    seventh field says whether the reaction is reversible, the name formula
    and the atom-mapped reaction SMILES), which are split into the two sides'
    compound names and SMILES. */
module Triplets {
  import opened Common

  // ---------------------------------------------------------------------------
  // Reading triplets (04:215-220)
  // ---------------------------------------------------------------------------

  /** Line `i` of the file as readline returns it: "" once the file is over. */
  function Line(lines: seq<string>, i: nat): string
  {
    if i < |lines| then lines[i] else ""
  }

  /** Triplet `t` is read: its names line and its SMILES line are both there. */
  predicate Complete(lines: seq<string>, t: nat)
  {
    Line(lines, 3 * t + 1) != "" && Line(lines, 3 * t + 2) != ""
  }

  /** The number of triplets the loop reads from triplet `from` on: it stops
      at the first incomplete one. */
  function TripletsFrom(lines: seq<string>, from: nat): (n: nat)
    ensures from <= n
    ensures forall t :: from <= t < n ==> Complete(lines, t)
    ensures !Complete(lines, n)
    decreases |lines| - 3 * from
  {
    if Complete(lines, from) then TripletsFrom(lines, from + 1) else from
  }

  // ---------------------------------------------------------------------------
  // Splitting one triplet (04:226-242)
  // ---------------------------------------------------------------------------

  /** One reaction as the loop holds it. */
  datatype Reaction = Reaction(
    names: string,              // names_str
    smiles: string,             // smiles_str
    reversible: bool,
    namesLeft: seq<string>,
    namesRight: seq<string>,
    smilesLeft: seq<string>,
    smilesRight: seq<string>)

  /** The mapped SMILES without its stereo marks '@' and '/' (04:226). */
  function CleanSmiles(line: string): (r: string)
    ensures '@' !in r && '/' !in r
  {
    var s := RemoveChar(Strip(line), '@');
    RemoveKeepsAbsent(s, '/', '@');
    RemoveChar(s, '/')
  }

  function StripAll(parts: seq<string>): (r: seq<string>)
    ensures |r| == |parts| && forall j :: 0 <= j < |parts| ==> r[j] == Strip(parts[j])
  {
    seq(|parts|, j requires 0 <= j < |parts| => Strip(parts[j]))
  }

  /** `s.split(sep)[0]` and `s.split(sep)[1]`, or None (an IndexError) when
      `s` does not hold `sep`. */
  function FirstTwo(s: string, sep: string): (r: Option<(string, string)>)
    requires |sep| > 0
    ensures r.None? <==> Find(s, sep) < 0
    ensures r.Some? ==> |Split(s, sep)| >= 2 && r.value == (Split(s, sep)[0], Split(s, sep)[1])
  {
    var parts := Split(s, sep);
    SplitsInTwo(s, sep);
    if |parts| < 2 then None else Some((parts[0], parts[1]))
  }

  /** The compound names of both sides of a name formula (04:227,
      04:239-242), or None (an IndexError) without "=". */
  function NameSides(nameLine: string): (r: Option<(seq<string>, seq<string>)>)
    ensures r.None? <==> Find(Strip(nameLine), "=") < 0
    ensures r.Some? ==> |r.value.0| >= 1 && |r.value.1| >= 1
  {
    match FirstTwo(Strip(nameLine), "=")
    case None => None
    case Some((l, r)) => Some((StripAll(Split(l, " + ")), StripAll(Split(r, " + "))))
  }

  /** The SMILES of both sides of a reaction SMILES (04:226, 04:234-236),
      or None (an IndexError) without ">>". */
  function SmilesSides(smilesLine: string): (r: Option<(seq<string>, seq<string>)>)
    ensures r.None? <==> Find(CleanSmiles(smilesLine), ">>") < 0
    ensures r.Some? ==> |r.value.0| >= 1 && |r.value.1| >= 1
  {
    match FirstTwo(CleanSmiles(smilesLine), ">>")
    case None => None
    case Some((l, r)) => Some((Split(l, "."), Split(r, ".")))
  }

  /** Whether the meta line marks the reaction reversible (04:228), or None
      (an IndexError) when it has fewer than seven fields. */
  function Reversible(meta: string): (r: Option<bool>)
    ensures r.None? <==> |SplitWords(Strip(meta))| < 7
    ensures r.Some? ==> (r.value <==> SplitWords(Strip(meta))[6] == "True")
  {
    var words := SplitWords(Strip(meta));
    if |words| < 7 then None else Some(words[6] == "True")
  }

  /** The split at 04:226-242, or None where the source raises IndexError.
      Only the first two pieces of each split are used. */
  function ParseReaction(meta: string, nameLine: string, smilesLine: string): (r: Option<Reaction>)
    ensures r.None? <==> Reversible(meta).None? || NameSides(nameLine).None? || SmilesSides(smilesLine).None?
    ensures r.Some? ==> '@' !in r.value.smiles && '/' !in r.value.smiles
    ensures r.Some? ==> |r.value.namesLeft| >= 1 && |r.value.namesRight| >= 1
    ensures r.Some? ==> |r.value.smilesLeft| >= 1 && |r.value.smilesRight| >= 1
  {
    var reversible, names, smiles := Reversible(meta), NameSides(nameLine), SmilesSides(smilesLine);
    if reversible.None? || names.None? || smiles.None? then None
    else
      Some(Reaction(Strip(nameLine), CleanSmiles(smilesLine), reversible.value,
                    names.value.0, names.value.1, smiles.value.0, smiles.value.1))
  }

  /** A string splits into at least two pieces exactly when it holds the separator. */
  lemma SplitsInTwo(s: string, sep: string)
    requires |sep| > 0
    ensures |Split(s, sep)| >= 2 <==> Find(s, sep) >= 0
  {
  }

  /** A compound name file 01 writes into a name formula. */
  predicate PlainName(n: string)
  {
    n != [] && Trimmed(n) && '=' !in n && '+' !in n
  }

  /** A component of a reaction SMILES as file 01 writes it, without stereo marks. */
  predicate PlainSmiles(s: string)
  {
    IsWord(s) && '.' !in s && '>' !in s && '@' !in s && '/' !in s
  }

  /** Splitting recovers the sides of a name formula and a reaction SMILES
      built the way file 01 joins them (" + " and " = ", "." and ">>"). */
  lemma ParseFormula(meta: string, left: seq<string>, right: seq<string>, smilesLeft: seq<string>, smilesRight: seq<string>)
    requires |SplitWords(Strip(meta))| >= 7
    requires |left| >= 1 && |right| >= 1 && |smilesLeft| >= 1 && |smilesRight| >= 1
    requires forall n :: n in left || n in right ==> PlainName(n)
    requires forall s :: s in smilesLeft || s in smilesRight ==> PlainSmiles(s)
    ensures var r := ParseReaction(meta, Join(left, " + ") + " = " + Join(right, " + ") + "\n",
                                   Join(smilesLeft, ".") + ">>" + Join(smilesRight, ".") + "\n");
            r.Some? && r.value.namesLeft == left && r.value.namesRight == right
            && r.value.smilesLeft == smilesLeft && r.value.smilesRight == smilesRight
  {
    NamesOfFormula(left, right);
    SmilesOfFormula(smilesLeft, smilesRight);
  }

  /** The name formula file 01 writes splits back into its names. */
  lemma NamesOfFormula(left: seq<string>, right: seq<string>)
    requires |left| >= 1 && |right| >= 1
    requires forall n :: n in left || n in right ==> PlainName(n)
    ensures NameSides(Join(left, " + ") + " = " + Join(right, " + ") + "\n") == Some((left, right))
  {
    var jl, jr := Join(left, " + "), Join(right, " + ");
    NameLine(left, right);
    FirstTwoOf(Strip(jl + " = " + jr + "\n"), "=", jl + " ", " " + jr);
    LeftSide(left);
    RightSide(right);
  }

  lemma FirstTwoOf(s: string, sep: string, a: string, b: string)
    requires |sep| > 0 && Split(s, sep) == [a, b]
    ensures FirstTwo(s, sep) == Some((a, b))
  {
  }

  lemma NameLine(left: seq<string>, right: seq<string>)
    requires |left| >= 1 && |right| >= 1
    requires forall n :: n in left || n in right ==> PlainName(n)
    ensures var jl, jr := Join(left, " + "), Join(right, " + ");
            Split(Strip(jl + " = " + jr + "\n"), "=") == [jl + " ", " " + jr]
  {
    var line := Join(left, " + ") + " = " + Join(right, " + ");
    LineTrimmed(left, right);
    StripTail(line, "\n");
    EqualsSplit(left, right);
  }

  lemma EqualsSplit(left: seq<string>, right: seq<string>)
    requires forall n :: n in left || n in right ==> PlainName(n)
    ensures var jl, jr := Join(left, " + "), Join(right, " + ");
            Split(jl + " = " + jr, "=") == [jl + " ", " " + jr]
  {
    var jl, jr := Join(left, " + "), Join(right, " + ");
    NotInJoin(left, " + ", '=');
    NotInJoin(right, " + ", '=');
    assert jl + " = " + jr == (jl + " ") + "=" + (" " + jr);
    SplitTwo(jl + " ", "=", " " + jr, 0);
  }

  lemma LineTrimmed(left: seq<string>, right: seq<string>)
    requires |left| >= 1 && |right| >= 1
    requires forall n :: n in left || n in right ==> PlainName(n)
    ensures var line := Join(left, " + ") + " = " + Join(right, " + "); line != [] && Trimmed(line)
  {
    assert left[0] in left && right[|right| - 1] in right;
    JoinFirst(left, " + ");
    JoinLast(right, " + ");
  }

  lemma LeftSide(left: seq<string>)
    requires |left| >= 1 && forall n :: n in left ==> PlainName(n)
    ensures StripAll(Split(Join(left, " + ") + " ", " + ")) == left
  {
    var pl := left[..|left| - 1] + [left[|left| - 1] + " "];
    JoinAppendLast(left, " + ", " ");
    LeftParts(left, pl);
    PlusMarker();
    SplitJoin(pl, " + ", 1);
  }

  /** The '+' of " + " occurs in it once. */
  lemma PlusMarker()
    ensures " + "[1] == '+'
    ensures forall j :: 0 <= j < |" + "| && j != 1 ==> " + "[j] != " + "[1]
  {
    assert " + " == [' ', '+', ' '];
  }

  lemma LeftParts(left: seq<string>, pl: seq<string>)
    requires |left| >= 1 && forall n :: n in left ==> PlainName(n)
    requires pl == left[..|left| - 1] + [left[|left| - 1] + " "]
    ensures forall p :: p in pl ==> '+' !in p
    ensures StripAll(pl) == left
  {
    forall j | 0 <= j < |pl| ensures '+' !in pl[j] && Strip(pl[j]) == left[j] {
      assert left[j] in left;
      if j == |left| - 1 {
        assert pl[j] == left[j] + " ";
        StripTail(left[j], " ");
      } else {
        assert pl[j] == left[j];
        StripTrimmed(left[j]);
      }
    }
  }

  lemma RightSide(right: seq<string>)
    requires |right| >= 1 && forall n :: n in right ==> PlainName(n)
    ensures StripAll(Split(" " + Join(right, " + "), " + ")) == right
  {
    var pr := [" " + right[0]] + right[1..];
    JoinPrependFirst(right, " + ", " ");
    RightParts(right, pr);
    PlusMarker();
    SplitJoin(pr, " + ", 1);
  }

  lemma RightParts(right: seq<string>, pr: seq<string>)
    requires |right| >= 1 && forall n :: n in right ==> PlainName(n)
    requires pr == [" " + right[0]] + right[1..]
    ensures forall p :: p in pr ==> '+' !in p
    ensures StripAll(pr) == right
  {
    forall j | 0 <= j < |pr| ensures '+' !in pr[j] && Strip(pr[j]) == right[j] {
      assert right[j] in right;
      if j == 0 {
        assert pr[j] == " " + right[j];
        StripLead(" ", right[j]);
      } else {
        assert pr[j] == right[j];
        StripTrimmed(right[j]);
      }
    }
  }

  /** The reaction SMILES file 01 writes splits back into its components. */
  lemma SmilesOfFormula(smilesLeft: seq<string>, smilesRight: seq<string>)
    requires |smilesLeft| >= 1 && |smilesRight| >= 1
    requires forall s :: s in smilesLeft || s in smilesRight ==> PlainSmiles(s)
    ensures SmilesSides(Join(smilesLeft, ".") + ">>" + Join(smilesRight, ".") + "\n") == Some((smilesLeft, smilesRight))
  {
    var jl, jr := Join(smilesLeft, "."), Join(smilesRight, ".");
    CleanLine(smilesLeft, smilesRight);
    ArrowSplit(smilesLeft, smilesRight);
    FirstTwoOf(jl + ">>" + jr, ">>", jl, jr);
    SplitJoin(smilesLeft, ".", 0);
    SplitJoin(smilesRight, ".", 0);
  }

  lemma ArrowSplit(smilesLeft: seq<string>, smilesRight: seq<string>)
    requires forall s :: s in smilesLeft || s in smilesRight ==> PlainSmiles(s)
    ensures Split(Join(smilesLeft, ".") + ">>" + Join(smilesRight, "."), ">>") == [Join(smilesLeft, "."), Join(smilesRight, ".")]
  {
    NotInJoin(smilesLeft, ".", '>');
    NotInJoin(smilesRight, ".", '>');
    SplitTwo(Join(smilesLeft, "."), ">>", Join(smilesRight, "."), 0);
  }

  lemma CleanLine(smilesLeft: seq<string>, smilesRight: seq<string>)
    requires |smilesLeft| >= 1 && |smilesRight| >= 1
    requires forall s :: s in smilesLeft || s in smilesRight ==> PlainSmiles(s)
    ensures var line := Join(smilesLeft, ".") + ">>" + Join(smilesRight, "."); CleanSmiles(line + "\n") == line
  {
    var line := Join(smilesLeft, ".") + ">>" + Join(smilesRight, ".");
    SmilesTrimmed(smilesLeft, smilesRight);
    StripTail(line, "\n");
    NoMarks(smilesLeft, smilesRight);
    RemoveAbsent(line, '@');
    RemoveAbsent(line, '/');
  }

  lemma SmilesTrimmed(smilesLeft: seq<string>, smilesRight: seq<string>)
    requires |smilesLeft| >= 1 && |smilesRight| >= 1
    requires forall s :: s in smilesLeft || s in smilesRight ==> PlainSmiles(s)
    ensures var line := Join(smilesLeft, ".") + ">>" + Join(smilesRight, "."); line != [] && Trimmed(line)
  {
    assert smilesLeft[0] in smilesLeft && smilesRight[|smilesRight| - 1] in smilesRight;
    JoinFirst(smilesLeft, ".");
    JoinLast(smilesRight, ".");
  }

  lemma NoMarks(smilesLeft: seq<string>, smilesRight: seq<string>)
    requires forall s :: s in smilesLeft || s in smilesRight ==> PlainSmiles(s)
    ensures var line := Join(smilesLeft, ".") + ">>" + Join(smilesRight, "."); '@' !in line && '/' !in line
  {
    NotInJoin(smilesLeft, ".", '@');
    NotInJoin(smilesRight, ".", '@');
    NotInJoin(smilesLeft, ".", '/');
    NotInJoin(smilesRight, ".", '/');
  }

  /** Two texts without the marker character, joined by the separator, split back into the two. */
  lemma SplitTwo(a: string, sep: string, b: string, k: nat)
    requires k < |sep|
    requires k == 0 || forall j :: 0 <= j < |sep| && j != k ==> sep[j] != sep[k]
    requires sep[k] !in a && sep[k] !in b
    ensures Split(a + sep + b, sep) == [a, b]
  {
    SplitJoin([a, b], sep, k);
    assert Join([a, b], sep) == a + sep + Join([b], sep);
  }

  /** A join starts like its first part ... */
  lemma JoinFirst(parts: seq<string>, sep: string)
    requires |parts| >= 1 && parts[0] != []
    ensures Join(parts, sep) != [] && Join(parts, sep)[0] == parts[0][0]
  {
  }

  /** ... and ends like its last. */
  lemma {:induction false} JoinLast(parts: seq<string>, sep: string)
    requires |parts| >= 1 && parts[|parts| - 1] != []
    ensures Join(parts, sep) != []
    ensures Join(parts, sep)[|Join(parts, sep)| - 1] == parts[|parts| - 1][|parts[|parts| - 1]| - 1]
  {
    if |parts| > 1 {
      JoinLast(parts[1..], sep);
    }
  }
}
