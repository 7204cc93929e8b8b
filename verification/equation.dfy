/**
 * The identifier extraction from a MetaNetX reaction equation in file 01
 * (01:157-165): an equation such as "1 MNXM1@MNXD1 + 2 MNXM2@MNXD1 = 1 MNXM3@MNXD1"
 * yields the identifier of every term, educts first, in order.
 */
module Equation {
  import opened Common

  /** The outcome of reading one equation: the empty equation " = " is
      skipped (01:157-158); a term that is not exactly two words raises a
      ValueError in the unpacking of 01:163. */
  datatype Extraction = Skipped | Ids(ids: seq<string>) | Malformed

  /** Python's s.replace(a, b) for single characters. */
  function ReplaceChar(s: string, a: char, b: char): (r: string)
    ensures |r| == |s|
    ensures forall i :: 0 <= i < |s| ==> r[i] == (if s[i] == a then b else s[i])
  {
    if s == [] then [] else [if s[0] == a then b else s[0]] + ReplaceChar(s[1..], a, b)
  }

  /** The identifier of one term: the second word, up to its first '@'
      (01:163-164); None when the term is not exactly two words. */
  function TermId(term: string): (r: Option<string>)
    ensures r.Some? <==> |SplitWords(Strip(term))| == 2
    ensures r.Some? ==> '@' !in r.value
  {
    IdOfWords(SplitWords(Strip(term)))
  }

  function IdOfWords(words: seq<string>): (r: Option<string>)
    ensures r.Some? <==> |words| == 2
    ensures r.Some? ==> '@' !in r.value
  {
    if |words| != 2 then None else Some(BeforeAt(words[1]))
  }

  /** `comp_id_str.strip().split('@')[0]`. */
  function BeforeAt(w: string): (r: string)
    ensures '@' !in r
  {
    FirstPart(Strip(w), '@');
    Split(Strip(w), "@")[0]
  }

  /** The values of `f` over `xs`, or None when one of them is missing. */
  function Values<T, U>(f: T -> Option<U>, xs: seq<T>): (r: Option<seq<U>>)
    ensures r.Some? <==> forall i :: 0 <= i < |xs| ==> f(xs[i]).Some?
    ensures r.Some? ==> |r.value| == |xs| && forall i :: 0 <= i < |xs| ==> r.value[i] == f(xs[i]).value
  {
    if xs == [] then Some([])
    else
      var front := xs[..|xs| - 1];
      assert forall i :: 0 <= i < |front| ==> front[i] == xs[i];
      match Values(f, front)
      case None => None
      case Some(vs) =>
        match f(xs[|xs| - 1])
        case None => None
        case Some(v) => Some(vs + [v])
  }

  /** What the extraction of 01:157-165 yields for an equation. */
  function Extract(eq: string): Extraction
  {
    if eq == " = " then Skipped
    else
      match Values(TermId, Split(ReplaceChar(eq, '=', '+'), "+"))
      case None => Malformed
      case Some(ids) => Ids(ids)
  }

  /** The extraction loop of 01:157-165: after the " = " check, '=' becomes
      '+', the equation is split on '+', and each term contributes its
      identifier, or the extraction fails with the first malformed term. */
  method ExtractIds(eq: string) returns (r: Extraction)
    ensures r == Extract(eq)
    ensures r.Ids? ==> forall i :: 0 <= i < |r.ids| ==> '@' !in r.ids[i]
  {
    if eq == " = " {
      return Skipped;
    }
    var terms := Split(ReplaceChar(eq, '=', '+'), "+");
    var ids: seq<string> := [];
    for i := 0 to |terms|
      invariant Values(TermId, terms[..i]) == Some(ids)
    {
      var id := TermId(terms[i]);
      if id.None? {
        ValuesMissing(TermId, terms, i);
        return Malformed;
      }
      ValuesStep(TermId, terms, i, ids, id.value);
      ids := ids + [id.value];
    }
    assert terms[..|terms|] == terms;
    r := Ids(ids);
    ExtractedFree(eq);
  }

  /** No extracted identifier holds an '@'. */
  lemma ExtractedFree(eq: string)
    ensures Extract(eq).Ids? ==> forall i :: 0 <= i < |Extract(eq).ids| ==> '@' !in Extract(eq).ids[i]
  {
    var terms := Split(ReplaceChar(eq, '=', '+'), "+");
    if Extract(eq).Ids? {
      forall i | 0 <= i < |terms| ensures '@' !in Extract(eq).ids[i] {
        assert TermId(terms[i]).Some?;
      }
    }
  }

  /** One term of an equation: a coefficient, an identifier and a compartment. */
  datatype Term = Term(coef: string, id: string, comp: string)

  /** A term as MetaNetX writes it: "<coef> <id>@<comp>". */
  function Show(t: Term): string
  {
    t.coef + " " + t.id + "@" + t.comp
  }

  /** A term whose fields are single words free of the separators. */
  predicate Wellformed(t: Term)
  {
    IsWord(t.coef) && IsWord(t.id) && IsWord(t.comp)
    && '+' !in t.coef && '=' !in t.coef && '@' !in t.id && '+' !in t.id && '=' !in t.id
    && '+' !in t.comp && '=' !in t.comp
  }

  function Shown(ts: seq<Term>): (r: seq<string>)
    ensures |r| == |ts| && forall i :: 0 <= i < |ts| ==> r[i] == Show(ts[i])
  {
    seq(|ts|, i requires 0 <= i < |ts| => Show(ts[i]))
  }

  /** An equation as MetaNetX writes it. */
  function Written(left: seq<Term>, right: seq<Term>): string
  {
    Join(Shown(left), " + ") + " = " + Join(Shown(right), " + ")
  }

  /** The identifiers of a list of terms. */
  function Identifiers(ts: seq<Term>): (r: seq<string>)
    ensures |r| == |ts| && forall i :: 0 <= i < |ts| ==> r[i] == ts[i].id
  {
    seq(|ts|, i requires 0 <= i < |ts| => ts[i].id)
  }

  /** Reading a written equation back yields the identifiers of all its
      terms, educts first, in order: '=' is read like '+' (01:161-165). */
  lemma ExtractWritten(left: seq<Term>, right: seq<Term>)
    requires left != [] && right != []
    requires forall t :: t in left ==> Wellformed(t)
    requires forall t :: t in right ==> Wellformed(t)
    ensures Extract(Written(left, right)) == Ids(Identifiers(left + right))
  {
    var all := left + right;
    assert forall t :: t in all ==> t in left || t in right;
    WrittenSplit(left, right);
    SpacedIds(all);
    ValuesAll(TermId, Spaced(Shown(all), ""), Identifiers(all));
  }

  /** Replacing '=' by '+' and splitting on '+' cuts a written equation
      into its terms, blanks included. */
  lemma WrittenSplit(left: seq<Term>, right: seq<Term>)
    requires left != [] && right != []
    requires forall t :: t in left ==> Wellformed(t)
    requires forall t :: t in right ==> Wellformed(t)
    ensures Written(left, right) != " = "
    ensures Split(ReplaceChar(Written(left, right), '=', '+'), "+") == Spaced(Shown(left + right), "")
  {
    var all := left + right;
    var shown := Shown(all);
    assert Shown(left) == shown[..|left|] && Shown(right) == shown[|left|..];
    forall j | 0 <= j < |all| ensures '=' !in shown[j] && '+' !in shown[j] {
      assert all[j] in left || all[j] in right;
      ShowFree(all[j]);
    }
    assert |Join(Shown(left), " + ")| > 0 by { JoinLength(Shown(left), " + "); }
    ReplaceWritten(shown, |left|);
    assert shown[..|left|] + shown[|left|..] == shown;
    JoinConcat(shown[..|left|], shown[|left|..], " + ");
    SplitSpaced(shown, "");
    assert "" + Join(shown, " + ") == Join(shown, " + ");
  }

  /** Each piece of a written equation reads back as its term's identifier. */
  lemma SpacedIds(ts: seq<Term>)
    requires ts != [] && forall t :: t in ts ==> Wellformed(t)
    ensures forall j :: 0 <= j < |ts| ==> TermId(Spaced(Shown(ts), "")[j]) == Some(ts[j].id)
  {
    forall j | 0 <= j < |ts| ensures TermId(Spaced(Shown(ts), "")[j]) == Some(ts[j].id) {
      assert ts[j] in ts;
      ReadTerm(ts[j], if j == 0 then "" else " ", if j == |ts| - 1 then "" else " ");
    }
  }

  lemma ValuesAll<T, U>(f: T -> Option<U>, xs: seq<T>, vs: seq<U>)
    requires |vs| == |xs| && forall j :: 0 <= j < |xs| ==> f(xs[j]) == Some(vs[j])
    ensures Values(f, xs) == Some(vs)
  {
    assert forall j :: 0 <= j < |xs| ==> f(xs[j]).Some?;
    var r := Values(f, xs);
    assert r.value == vs;
  }

  lemma ValuesMissing<T, U>(f: T -> Option<U>, xs: seq<T>, i: nat)
    requires i < |xs| && f(xs[i]).None?
    ensures Values(f, xs) == None
  {
  }

  lemma ValuesStep<T, U>(f: T -> Option<U>, xs: seq<T>, i: nat, vs: seq<U>, v: U)
    requires i < |xs| && Values(f, xs[..i]) == Some(vs) && f(xs[i]) == Some(v)
    ensures Values(f, xs[..i + 1]) == Some(vs + [v])
  {
    assert xs[..i + 1][..i] == xs[..i];
  }

  /** A shown well-formed term holds neither separator. */
  lemma ShowFree(t: Term)
    requires Wellformed(t)
    ensures '=' !in Show(t) && '+' !in Show(t)
  {
    assert Show(t) == t.coef + (" " + (t.id + ("@" + t.comp)));
  }

  lemma {:induction false} JoinLength(parts: seq<string>, sep: string)
    requires parts != [] && parts[0] != []
    ensures |Join(parts, sep)| > 0
  {
  }

  /** Replacing '=' by '+' turns " = " between two joins without '=' into " + ". */
  lemma ReplaceWritten(shown: seq<string>, n: nat)
    requires 0 < n < |shown|
    requires forall j :: 0 <= j < |shown| ==> '=' !in shown[j]
    ensures ReplaceChar(Join(shown[..n], " + ") + " = " + Join(shown[n..], " + "), '=', '+')
         == Join(shown[..n], " + ") + " + " + Join(shown[n..], " + ")
  {
    var a, b := Join(shown[..n], " + "), Join(shown[n..], " + ");
    assert '=' !in " + ";
    NotInJoin(shown[..n], " + ", '=');
    NotInJoin(shown[n..], " + ", '=');
    var s := a + " = " + b;
    var r := ReplaceChar(s, '=', '+');
    var t := a + " + " + b;
    assert |r| == |t|;
    forall i | 0 <= i < |t| ensures r[i] == t[i] {
      if i < |a| {
        assert s[i] == a[i] && a[i] in a;
      } else if i >= |a| + 3 {
        assert s[i] == b[i - |a| - 3] && b[i - |a| - 3] in b;
      }
    }
  }

  /** How splitting on '+' cuts a join on " + ": each part keeps the blanks
      next to it. */
  function Spaced(parts: seq<string>, lead: string): (r: seq<string>)
    requires parts != []
    ensures |r| == |parts|
    ensures forall j :: 0 <= j < |parts| ==>
      r[j] == (if j == 0 then lead else " ") + parts[j] + (if j == |parts| - 1 then "" else " ")
  {
    if |parts| == 1 then [lead + parts[0] + ""]
    else [lead + parts[0] + " "] + Spaced(parts[1..], " ")
  }

  lemma {:induction false} SplitSpaced(parts: seq<string>, lead: string)
    requires parts != [] && '+' !in lead
    requires forall j :: 0 <= j < |parts| ==> '+' !in parts[j]
    ensures Split(lead + Join(parts, " + "), "+") == Spaced(parts, lead)
  {
    if |parts| == 1 {
      NoOccurrence(lead + parts[0], "+", 0);
      assert lead + parts[0] + "" == lead + parts[0];
    } else {
      var p, rest := lead + parts[0] + " ", " " + Join(parts[1..], " + ");
      assert lead + Join(parts, " + ") == p + "+" + rest;
      FirstOccurrence(p, "+", rest, 0);
      var s := p + "+" + rest;
      assert s[..|p|] == p;
      assert s[|p| + 1..] == rest;
      SplitSpaced(parts[1..], " ");
    }
  }

  /** A shown term with blanks around it reads back as its identifier. */
  lemma ReadTerm(t: Term, lead: string, tail: string)
    requires Wellformed(t)
    requires lead == "" || lead == " "
    requires tail == "" || tail == " "
    ensures TermId(lead + Show(t) + tail) == Some(t.id)
  {
    StripShown(t, lead, tail);
    ShownWords(t);
    AtSplit(t);
  }

  lemma StripShown(t: Term, lead: string, tail: string)
    requires Wellformed(t)
    requires lead == "" || lead == " "
    requires tail == "" || tail == " "
    ensures Strip(lead + Show(t) + tail) == Show(t)
  {
    assert Show(t)[0] == t.coef[0];
    assert Show(t)[|Show(t)| - 1] == t.comp[|t.comp| - 1];
    StripAround(lead, Show(t), tail);
  }

  lemma ShownWords(t: Term)
    requires Wellformed(t)
    ensures SplitWords(Show(t)) == [t.coef, t.id + "@" + t.comp]
  {
    var w := t.id + "@" + t.comp;
    assert IsWord(w);
    Associate(t.coef, " ", w);
    Associate(t.coef + " " + t.id, "@", t.comp);
    Associate(t.coef + " ", t.id, "@" + t.comp);
    Associate(t.id, "@", t.comp);
    TwoWords(t.coef, w);
  }

  lemma AtSplit(t: Term)
    requires Wellformed(t)
    ensures BeforeAt(t.id + "@" + t.comp) == t.id
  {
    var w := t.id + "@" + t.comp;
    assert IsWord(w);
    StripWord(w);
    SplitAtFirst(t.id, t.comp);
  }

  lemma StripWord(w: string)
    requires IsWord(w)
    ensures Strip(w) == w
  {
    StripAround("", w, "");
    assert "" + w + "" == w;
  }

  lemma SplitAtFirst(id: string, rest: string)
    requires '@' !in id
    ensures Split(id + "@" + rest, "@")[0] == id
  {
    FirstOccurrence(id, "@", rest, 0);
    assert (id + "@" + rest)[..|id|] == id;
  }

  /** Python's "a b".split() for two words. */
  lemma TwoWords(a: string, b: string)
    requires IsWord(a) && IsWord(b)
    ensures SplitWords(a + " " + b) == [a, b]
  {
    WordThenWord(a, b);
    Associate(a, " ", b);
  }

  lemma WordThenWord(a: string, b: string)
    requires IsWord(a) && IsWord(b)
    ensures SplitWords(a + (" " + b)) == [a, b]
  {
    FirstWord(a, " " + b);
    SpacedWord(b);
  }

  lemma SpacedWord(b: string)
    requires IsWord(b)
    ensures SplitWords(" " + b) == [b]
  {
    StripLeftLead(" ", b);
    FirstWord(b, "");
    assert b + "" == b;
  }

  lemma Associate(a: string, b: string, c: string)
    ensures a + b + c == a + (b + c)
  {
  }

  /** A word at the front of a text is its first word. */
  lemma FirstWord(w: string, rest: string)
    requires IsWord(w) && (rest == [] || IsSpace(rest[0]))
    ensures SplitWords(w + rest) == [w] + SplitWords(rest)
  {
    var s := w + rest;
    StripLeftLead("", s);
    assert "" + s == s;
    WordPrefix(w, rest);
    assert s[..|w|] == w && s[|w|..] == rest;
  }

  lemma {:induction false} WordPrefix(w: string, rest: string)
    requires IsWord(w) && (rest == [] || IsSpace(rest[0]))
    ensures WordLength(w + rest) == |w|
    decreases |w|
  {
    assert (w + rest)[1..] == w[1..] + rest;
    if |w| > 1 {
      WordPrefix(w[1..], rest);
    } else {
      assert w[1..] + rest == rest;
    }
  }

  /** The text before the first occurrence of a character holds none of it. */
  lemma FirstPart(s: string, c: char)
    ensures c !in Split(s, [c])[0]
  {
    var i := Find(s, [c]);
    var n := if i < 0 then |s| else i;
    assert Split(s, [c])[0] == s[..n];
    forall j | 0 <= j < n ensures s[..n][j] != c {
      assert !OccursAt(s, [c], j);
      assert s[j..j + 1] == [s[j]];
    }
  }
}
