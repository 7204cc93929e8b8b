/** Option, the decimal rendering of naturals, and the few Python string
    primitives (str.find, str.split, str.join, str.strip, str.replace) that the
    network builder and the reaction-string builder rely on. */
module Common {

  datatype Option<+T> = None | Some(value: T)

  // ---------------------------------------------------------------------------
  // Decimal rendering: Python's str(n) for n >= 0
  // ---------------------------------------------------------------------------

  predicate IsDigit(c: char) { '0' <= c <= '9' }

  function DigitChar(d: nat): (c: char)
    requires d < 10
    ensures IsDigit(c)
  {
    (('0' as int) + d) as char
  }

  function NatToString(n: nat): (s: string)
    ensures |s| >= 1
    ensures forall i :: 0 <= i < |s| ==> IsDigit(s[i])
  {
    if n < 10 then [DigitChar(n)] else NatToString(n / 10) + [DigitChar(n % 10)]
  }

  lemma {:induction false} NatToStringLength(n: nat)
    ensures |NatToString(n)| == 1 <==> n < 10
  {
    if n >= 10 {
      assert |NatToString(n)| == |NatToString(n / 10)| + 1;
    }
  }

  /** Different numbers have different decimal renderings. */
  lemma {:induction false} NatToStringInjective(a: nat, b: nat)
    requires NatToString(a) == NatToString(b)
    ensures a == b
  {
    var sa, sb := NatToString(a), NatToString(b);
    NatToStringLength(a);
    NatToStringLength(b);
    if a < 10 {
      assert b < 10;
      assert sa[0] == DigitChar(a) && sb[0] == DigitChar(b);
    } else {
      assert b >= 10;
      assert sa[|sa| - 1] == DigitChar(a % 10) && sb[|sb| - 1] == DigitChar(b % 10);
      assert NatToString(a / 10) == sa[..|sa| - 1];
      assert NatToString(b / 10) == sb[..|sb| - 1];
      NatToStringInjective(a / 10, b / 10);
    }
  }

  // ---------------------------------------------------------------------------
  // Searching and splitting: str.find and str.split(sep)
  // ---------------------------------------------------------------------------

  predicate OccursAt(s: string, sep: string, j: int) {
    0 <= j && j + |sep| <= |s| && s[j..j + |sep|] == sep
  }

  /** Python's s.find(sep): the first index where `sep` occurs, or -1. */
  function Find(s: string, sep: string): (i: int)
    requires |sep| > 0
    ensures i >= 0 ==> OccursAt(s, sep, i)
    ensures i >= 0 ==> forall j :: 0 <= j < i ==> !OccursAt(s, sep, j)
    ensures i < 0 ==> i == -1 && forall j :: !OccursAt(s, sep, j)
    decreases |s|
  {
    if |s| < |sep| then -1
    else if s[..|sep|] == sep then 0
    else
      var j := Find(s[1..], sep);
      OccursShift(s, sep);
      if j < 0 then
        assert !OccursAt(s, sep, 0);
        -1
      else
        assert !OccursAt(s, sep, 0);
        j + 1
  }

  lemma OccursShift(s: string, sep: string)
    requires |s| >= 1
    ensures forall m :: 1 <= m ==> (OccursAt(s, sep, m) <==> OccursAt(s[1..], sep, m - 1))
  {
    forall m | 1 <= m ensures OccursAt(s, sep, m) <==> OccursAt(s[1..], sep, m - 1) {
      if m + |sep| <= |s| {
        assert s[1..][m - 1..m - 1 + |sep|] == s[m..m + |sep|];
      }
    }
  }

  /** Python's s.split(sep) for a non-empty separator. */
  function Split(s: string, sep: string): (parts: seq<string>)
    requires |sep| > 0
    ensures |parts| >= 1
    decreases |s|
  {
    var i := Find(s, sep);
    if i < 0 then [s] else [s[..i]] + Split(s[i + |sep|..], sep)
  }

  /** Python's sep.join(parts). */
  function Join(parts: seq<string>, sep: string): string
  {
    if |parts| == 0 then ""
    else if |parts| == 1 then parts[0]
    else parts[0] + sep + Join(parts[1..], sep)
  }

  /** A string without the marker character of `sep` holds no occurrence of `sep`. */
  lemma NoOccurrence(p: string, sep: string, k: nat)
    requires k < |sep|
    requires sep[k] !in p
    ensures Find(p, sep) == -1
  {
    forall j ensures !OccursAt(p, sep, j) {
      if 0 <= j && j + |sep| <= |p| {
        assert p[j..j + |sep|][k] == p[j + k];
        assert p[j + k] in p;
      }
    }
  }

  /** When the marker character is the first of `sep` or occurs in `sep`
      only once, and does not occur in `p`, the first occurrence of `sep` in
      `p + sep + rest` is the one after `p`. */
  lemma FirstOccurrence(p: string, sep: string, rest: string, k: nat)
    requires k < |sep|
    requires k == 0 || forall j :: 0 <= j < |sep| && j != k ==> sep[j] != sep[k]
    requires sep[k] !in p
    ensures Find(p + sep + rest, sep) == |p|
  {
    var s := p + sep + rest;
    assert s[|p|..|p| + |sep|] == sep;
    assert OccursAt(s, sep, |p|);
    forall j | 0 <= j < |p| ensures !OccursAt(s, sep, j) {
      if j + |sep| <= |s| {
        if j + k < |p| {
          assert s[j + k] == p[j + k];
          assert p[j + k] in p;
        } else {
          assert s[j + k] == sep[j + k - |p|];
        }
        assert s[j..j + |sep|][k] == s[j + k];
      }
    }
  }

  /** Splitting undoes joining when the separator carries a marker character
      that no part contains (the '+' of " + ", the '.' of ".", the first '>'
      of ">>"). */
  lemma SplitJoin(parts: seq<string>, sep: string, k: nat)
    requires |parts| >= 1 && k < |sep|
    requires k == 0 || forall j :: 0 <= j < |sep| && j != k ==> sep[j] != sep[k]
    requires forall p :: p in parts ==> sep[k] !in p
    ensures Split(Join(parts, sep), sep) == parts
  {
    forall i | 0 <= i < |parts| ensures sep[k] !in parts[i] {
      assert parts[i] in parts;
    }
    SplitJoinFrom(parts, sep, k);
  }

  lemma {:induction false} SplitJoinFrom(parts: seq<string>, sep: string, k: nat)
    requires |parts| >= 1 && k < |sep|
    requires k == 0 || forall j :: 0 <= j < |sep| && j != k ==> sep[j] != sep[k]
    requires forall i :: 0 <= i < |parts| ==> sep[k] !in parts[i]
    ensures Split(Join(parts, sep), sep) == parts
  {
    if |parts| == 1 {
      NoOccurrence(parts[0], sep, k);
    } else {
      var p, rest := parts[0], Join(parts[1..], sep);
      assert Join(parts, sep) == p + sep + rest;
      SplitFirst(p, sep, rest, k);
      SplitJoinFrom(parts[1..], sep, k);
      assert [p] + parts[1..] == parts;
    }
  }

  /** Splitting `p + sep + rest` cuts off `p` first, when `p` lacks the marker. */
  lemma SplitFirst(p: string, sep: string, rest: string, k: nat)
    requires k < |sep|
    requires k == 0 || forall j :: 0 <= j < |sep| && j != k ==> sep[j] != sep[k]
    requires sep[k] !in p
    ensures Split(p + sep + rest, sep) == [p] + Split(rest, sep)
  {
    var s := p + sep + rest;
    FirstOccurrence(p, sep, rest, k);
    assert s[..|p|] == p;
    assert s[|p| + |sep|..] == rest;
  }

  /** A character in neither the parts nor the separator is not in their join. */
  lemma {:induction false} NotInJoin(parts: seq<string>, sep: string, c: char)
    requires c !in sep && forall p :: p in parts ==> c !in p
    ensures c !in Join(parts, sep)
  {
    if |parts| > 1 {
      NotInJoin(parts[1..], sep, c);
    }
  }

  /** Text appended to a join belongs to its last part. */
  lemma JoinAppendLast(parts: seq<string>, sep: string, x: string)
    requires |parts| >= 1
    ensures Join(parts, sep) + x == Join(parts[..|parts| - 1] + [parts[|parts| - 1] + x], sep)
  {
    var init, last := parts[..|parts| - 1], parts[|parts| - 1];
    assert parts == init + [last];
    JoinSnoc(init, sep, last);
    JoinSnoc(init, sep, last + x);
  }

  /** Text prepended to a join belongs to its first part. */
  lemma JoinPrependFirst(parts: seq<string>, sep: string, x: string)
    requires |parts| >= 1
    ensures x + Join(parts, sep) == Join([x + parts[0]] + parts[1..], sep)
  {
    var q := [x + parts[0]] + parts[1..];
    assert q[1..] == parts[1..];
  }

  /** Joining one more part puts the separator before it. */
  lemma JoinSnoc(parts: seq<string>, sep: string, x: string)
    ensures Join(parts + [x], sep) == if parts == [] then x else Join(parts, sep) + sep + x
  {
    if parts != [] {
      JoinConcat(parts, [x], sep);
    } else {
      assert parts + [x] == [x];
    }
  }

  /** The join of two non-empty lists is their joins, joined. */
  lemma {:induction false} JoinConcat(a: seq<string>, b: seq<string>, sep: string)
    requires |a| >= 1 && |b| >= 1
    ensures Join(a + b, sep) == Join(a, sep) + sep + Join(b, sep)
  {
    assert (a + b)[0] == a[0];
    if |a| == 1 {
      assert (a + b)[1..] == b;
    } else {
      assert (a + b)[1..] == a[1..] + b;
      JoinConcat(a[1..], b, sep);
    }
  }

  /** The groups of a list of lists, one after the other. */
  function Concat<T>(groups: seq<seq<T>>): (r: seq<T>)
    decreases |groups|
  {
    if groups == [] then [] else Concat(groups[..|groups| - 1]) + groups[|groups| - 1]
  }

  /** Each group joined on its own. */
  function JoinEach(groups: seq<seq<string>>, sep: string): (r: seq<string>)
    ensures |r| == |groups|
    decreases |groups|
  {
    if groups == [] then [] else JoinEach(groups[..|groups| - 1], sep) + [Join(groups[|groups| - 1], sep)]
  }

  /** Joining the joined groups is joining all their elements. */
  lemma {:induction false} JoinGroups(groups: seq<seq<string>>, sep: string)
    requires forall j :: 0 <= j < |groups| ==> |groups[j]| >= 1
    ensures Join(JoinEach(groups, sep), sep) == Join(Concat(groups), sep)
    decreases |groups|
  {
    if groups != [] {
      var init, last := groups[..|groups| - 1], groups[|groups| - 1];
      JoinGroups(init, sep);
      JoinSnoc(JoinEach(init, sep), sep, Join(last, sep));
      if init != [] {
        ConcatNonEmpty(init);
        JoinConcat(Concat(init), last, sep);
      } else {
        assert Concat(groups) == last;
      }
    }
  }

  lemma {:induction false} ConcatNonEmpty<T>(groups: seq<seq<T>>)
    requires groups != [] && forall j :: 0 <= j < |groups| ==> |groups[j]| >= 1
    ensures |Concat(groups)| >= 1
  {
  }

  /** Every element of the concatenation comes from one of the groups. */
  lemma {:induction false} InConcat<T>(groups: seq<seq<T>>, x: T)
    requires x in Concat(groups)
    ensures exists j :: 0 <= j < |groups| && x in groups[j]
    decreases |groups|
  {
    var init := groups[..|groups| - 1];
    if x in Concat(init) {
      InConcat(init, x);
      var j :| 0 <= j < |init| && x in init[j];
      assert groups[j] == init[j];
    } else {
      assert x in groups[|groups| - 1];
    }
  }

  /** Two lists of groups of the same sizes concatenate to lists of the same length. */
  lemma {:induction false} ConcatSameShape<T, U>(a: seq<seq<T>>, b: seq<seq<U>>)
    requires |a| == |b| && forall j :: 0 <= j < |a| ==> |a[j]| == |b[j]|
    ensures |Concat(a)| == |Concat(b)|
    decreases |a|
  {
    if a != [] {
      ConcatSameShape(a[..|a| - 1], b[..|b| - 1]);
    }
  }

  /** Joining the parts of a split gives back the string. */
  lemma {:induction false} JoinSplit(s: string, sep: string)
    requires |sep| > 0
    ensures Join(Split(s, sep), sep) == s
    decreases |s|
  {
    var i := Find(s, sep);
    if i >= 0 {
      var rest := s[i + |sep|..];
      var tail := Split(rest, sep);
      JoinSplit(rest, sep);
      assert Split(s, sep) == [s[..i]] + tail;
      JoinPrefix(s[..i], tail, sep);
      Around(s, sep, i);
    }
  }

  /** A text is what comes before an occurrence, the occurrence and what follows. */
  lemma Around(s: string, sep: string, i: int)
    requires OccursAt(s, sep, i)
    ensures s == s[..i] + sep + s[i + |sep|..]
  {
    assert s[i..i + |sep|] == sep;
  }

  lemma JoinPrefix(a: string, tail: seq<string>, sep: string)
    requires |tail| >= 1
    ensures Join([a] + tail, sep) == a + sep + Join(tail, sep)
  {
    assert ([a] + tail)[1..] == tail;
  }

  /** No part of a split on one character holds that character. */
  lemma {:induction false} SplitParts(s: string, c: char)
    ensures forall p :: p in Split(s, [c]) ==> c !in p
    decreases |s|
  {
    var i := Find(s, [c]);
    forall x | 0 <= x < |s| && (i < 0 || x < i) ensures s[x] != c {
      assert !OccursAt(s, [c], x);
      assert s[x..x + 1] == [s[x]];
    }
    if i >= 0 {
      SplitParts(s[i + 1..], c);
      assert c !in s[..i];
    } else {
      assert c !in s;
    }
  }

  // ---------------------------------------------------------------------------
  // Counting a character
  // ---------------------------------------------------------------------------

  function Count(s: string, c: char): nat
  {
    if s == [] then 0 else (if s[0] == c then 1 else 0) + Count(s[1..], c)
  }

  lemma {:induction false} CountConcat(a: string, b: string, c: char)
    ensures Count(a + b, c) == Count(a, c) + Count(b, c)
  {
    if a != [] {
      assert (a + b)[1..] == a[1..] + b;
      CountConcat(a[1..], b, c);
    } else {
      assert a + b == b;
    }
  }

  lemma {:induction false} CountAbsent(s: string, c: char)
    requires c !in s
    ensures Count(s, c) == 0
  {
    if s != [] {
      assert forall x :: x in s[1..] ==> x in s;
      CountAbsent(s[1..], c);
    }
  }

  /** Splitting on one character yields one more part than there are
      occurrences of that character (Python: len(s.split('.')) == s.count('.') + 1). */
  lemma {:induction false} SplitCount(s: string, c: char)
    ensures |Split(s, [c])| == Count(s, c) + 1
    decreases |s|
  {
    var i := Find(s, [c]);
    if i < 0 {
      forall x | 0 <= x < |s| ensures s[x] != c {
        assert !OccursAt(s, [c], x);
        assert s[x..x + 1] == [s[x]];
      }
      CountAbsent(s, c);
    } else {
      assert s == s[..i] + [c] + s[i + 1..] by {
        assert s[i..i + 1] == [c];
      }
      forall x | 0 <= x < i ensures s[x] != c {
        assert !OccursAt(s, [c], x);
        assert s[x..x + 1] == [s[x]];
      }
      assert c !in s[..i];
      CountAbsent(s[..i], c);
      CountConcat(s[..i] + [c], s[i + 1..], c);
      CountConcat(s[..i], [c], c);
      SplitCount(s[i + 1..], c);
    }
  }

  // ---------------------------------------------------------------------------
  // Whitespace: str.strip() and str.split() without a separator
  // ---------------------------------------------------------------------------

  /** ASCII characters for which Python's str.isspace() holds. */
  predicate IsSpace(c: char) {
    c == ' ' || 9 <= c as int <= 13 || 28 <= c as int <= 31
  }

  function StripLeft(s: string): (r: string)
    ensures |r| <= |s| && r == s[|s| - |r|..]
    ensures r == [] || !IsSpace(r[0])
  {
    if |s| > 0 && IsSpace(s[0]) then StripLeft(s[1..]) else s
  }

  function StripRight(s: string): (r: string)
    ensures |r| <= |s| && r == s[..|r|]
    ensures r == [] || !IsSpace(r[|r| - 1])
  {
    if |s| > 0 && IsSpace(s[|s| - 1]) then StripRight(s[..|s| - 1]) else s
  }

  /** Python's s.strip(). */
  function Strip(s: string): (r: string)
    ensures r == [] || (!IsSpace(r[0]) && !IsSpace(r[|r| - 1]))
  {
    var l := StripLeft(s);
    var r := StripRight(l);
    assert r != [] ==> r[0] == l[0];
    r
  }

  /** Neither starts nor ends with whitespace. */
  predicate Trimmed(s: string)
  {
    s == [] || (!IsSpace(s[0]) && !IsSpace(s[|s| - 1]))
  }

  predicate AllSpace(s: string)
  {
    forall i :: 0 <= i < |s| ==> IsSpace(s[i])
  }

  lemma {:induction false} StripLeftLead(lead: string, x: string)
    requires AllSpace(lead) && (x == [] || !IsSpace(x[0]))
    ensures StripLeft(lead + x) == x
    decreases |lead|
  {
    if lead != [] {
      assert (lead + x)[1..] == lead[1..] + x;
      StripLeftLead(lead[1..], x);
    }
  }

  lemma {:induction false} StripRightTail(x: string, tail: string)
    requires AllSpace(tail) && (x == [] || !IsSpace(x[|x| - 1]))
    ensures StripRight(x + tail) == x
    decreases |tail|
  {
    if tail != [] {
      assert (x + tail)[..|x + tail| - 1] == x + tail[..|tail| - 1];
      StripRightTail(x, tail[..|tail| - 1]);
    } else {
      assert x + tail == x;
    }
  }

  /** Stripping removes exactly the whitespace around a trimmed, non-empty text. */
  lemma StripAround(lead: string, x: string, tail: string)
    requires AllSpace(lead) && AllSpace(tail) && x != [] && Trimmed(x)
    ensures Strip(lead + x + tail) == x
  {
    assert lead + x + tail == lead + (x + tail);
    StripLeftLead(lead, x + tail);
    StripRightTail(x, tail);
  }

  lemma StripTrimmed(x: string)
    requires x != [] && Trimmed(x)
    ensures Strip(x) == x
  {
    StripLeftLead([], x);
    StripRightTail(x, []);
    assert [] + x == x && x + [] == x;
  }

  lemma StripTail(x: string, tail: string)
    requires x != [] && Trimmed(x) && AllSpace(tail)
    ensures Strip(x + tail) == x
  {
    StripLeftLead([], x + tail);
    StripRightTail(x, tail);
    assert [] + (x + tail) == x + tail;
  }

  lemma StripLead(lead: string, x: string)
    requires x != [] && Trimmed(x) && AllSpace(lead)
    ensures Strip(lead + x) == x
  {
    StripLeftLead(lead, x);
    StripRightTail(x, []);
    assert x + [] == x;
  }

  /** Number of leading characters of `s` that are not whitespace. */
  function WordLength(s: string): (n: nat)
    ensures n <= |s|
    ensures forall i :: 0 <= i < n ==> !IsSpace(s[i])
    ensures n == |s| || IsSpace(s[n])
  {
    if |s| == 0 || IsSpace(s[0]) then 0 else 1 + WordLength(s[1..])
  }

  /** Python's s.split(): the maximal runs of non-whitespace characters. */
  function SplitWords(s: string): (words: seq<string>)
    decreases |s|
  {
    var t := StripLeft(s);
    if t == [] then []
    else
      var n := WordLength(t);
      assert 0 < n <= |t| <= |s|;
      [t[..n]] + SplitWords(t[n..])
  }

  /** A non-empty run of non-whitespace characters. */
  predicate IsWord(w: string)
  {
    w != [] && forall i :: 0 <= i < |w| ==> !IsSpace(w[i])
  }

  /** Python's s.replace(c, '') for a single character. */
  function RemoveChar(s: string, c: char): (r: string)
    ensures c !in r
    ensures |r| <= |s|
  {
    if s == [] then [] else (if s[0] == c then [] else [s[0]]) + RemoveChar(s[1..], c)
  }

  lemma {:induction false} RemoveAbsent(s: string, c: char)
    requires c !in s
    ensures RemoveChar(s, c) == s
  {
    if s != [] {
      assert s[0] != c;
      RemoveAbsent(s[1..], c);
      assert [s[0]] + s[1..] == s;
    }
  }

  lemma {:induction false} RemoveKeepsAbsent(s: string, c: char, d: char)
    requires d !in s
    ensures d !in RemoveChar(s, c)
  {
    if s != [] {
      assert s[0] != d && d !in s[1..];
      RemoveKeepsAbsent(s[1..], c, d);
    }
  }

  /** str.endswith */
  predicate EndsWith(s: string, suffix: string)
  {
    |suffix| <= |s| && s[|s| - |suffix|..] == suffix
  }

  /** Some element of a non-empty set; it lets the loops that take the
      elements of a set in an unspecified order pick their next one. */
  ghost function Pick<T>(s: set<T>): (x: T)
    requires s != {}
    ensures x in s
  {
    var x :| x in s; x
  }

  /** `states[u + 1]` follows from `states[u]` by step `u`, taken as `steps[u]`. */
  ghost predicate Chain<S, T>(step: (nat, S, T, S) -> bool, states: seq<S>, steps: seq<T>)
  {
    |states| == |steps| + 1 && forall u :: 0 <= u < |steps| ==> step(u, states[u], steps[u], states[u + 1])
  }

  /** A chain grows by one more step from its last state. */
  lemma ChainStep<S, T>(step: (nat, S, T, S) -> bool, states: seq<S>, steps: seq<T>, x: T, s': S)
    requires Chain(step, states, steps) && step(|steps|, states[|states| - 1], x, s')
    ensures Chain(step, states + [s'], steps + [x])
  {
    var states', steps' := states + [s'], steps + [x];
    forall u | 0 <= u < |steps'| ensures step(u, states'[u], steps'[u], states'[u + 1]) {
      assert states'[u] == states[u];
      if u < |steps| {
        assert steps'[u] == steps[u] && states'[u + 1] == states[u + 1];
      }
    }
  }

  /** `done` lists elements of `all`, each at most once. */
  ghost predicate Listed<T>(all: set<T>, done: seq<T>)
  {
    (forall j :: 0 <= j < |done| ==> done[j] in all)
    && (forall i, j :: 0 <= i < j < |done| ==> done[i] != done[j])
  }

  /** `done` lists, each once, the elements of `all` a loop has taken so
      far; `todo` holds the others. */
  ghost predicate Enumerating<T>(all: set<T>, todo: set<T>, done: seq<T>)
  {
    todo <= all
    && Listed(all, done)
    && (forall j :: 0 <= j < |done| ==> done[j] !in todo)
    && (forall x :: x in all && x !in todo ==> x in done)
  }

  lemma EnumeratingStep<T>(all: set<T>, todo: set<T>, done: seq<T>, x: T)
    requires Enumerating(all, todo, done) && x in todo
    ensures Enumerating(all, todo - {x}, done + [x])
  {
  }
}
