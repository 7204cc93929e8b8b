/**
 * The deprecated-identifier expansion of file 01 (01:125-136): the set of
 * MetaNetX identifiers a compound may stand for is rewritten, pass after
 * pass, until none of them is deprecated; each deprecated identifier is
 * replaced by every identifier listed as its successor.
 */
module Deprecation {

  /** `comp_deprecated`: each deprecated identifier with its successors
      (the second component of the source's pair is never read). */
  type Deprecations = map<string, seq<string>>

  /** `rank` orders the deprecation relation: a successor ranks below the
      identifier it replaces, so no identifier is (indirectly) its own
      successor. The loop of the source does not end without this. */
  ghost predicate Ranked(depr: Deprecations, rank: string -> nat)
  {
    forall o, j :: o in depr && 0 <= j < |depr[o]| ==> rank(depr[o][j]) < rank(o)
  }

  function Successors(depr: Deprecations, x: string): (r: set<string>)
    requires x in depr
    ensures forall y :: y in r <==> exists j :: 0 <= j < |depr[x]| && depr[x][j] == y
  {
    set j | 0 <= j < |depr[x]| :: depr[x][j]
  }

  /** The current identifiers an identifier finally stands for. */
  ghost function Leaves(depr: Deprecations, rank: string -> nat, x: string): set<string>
    requires Ranked(depr, rank)
    decreases rank(x)
  {
    if x !in depr then {x}
    else set j, y | 0 <= j < |depr[x]| && y in Leaves(depr, rank, depr[x][j]) :: y
  }

  /** The current identifiers a set of identifiers finally stands for. */
  ghost function Reach(depr: Deprecations, rank: string -> nat, s: set<string>): set<string>
    requires Ranked(depr, rank)
  {
    set x, y | x in s && y in Leaves(depr, rank, x) :: y
  }

  /** A bound on the ranks of a finite set. */
  ghost function Bound(rank: string -> nat, s: set<string>): (b: nat)
    ensures forall x :: x in s ==> rank(x) < b
    decreases s
  {
    if s == {} then 0
    else
      var x :| x in s;
      var b := Bound(rank, s - {x});
      if rank(x) < b then b else rank(x) + 1
  }

  /** Nothing an identifier finally stands for is deprecated. */
  lemma {:induction false} LeavesCurrent(depr: Deprecations, rank: string -> nat, x: string)
    requires Ranked(depr, rank)
    ensures forall y :: y in Leaves(depr, rank, x) ==> y !in depr
    decreases rank(x)
  {
    if x in depr {
      forall y | y in Leaves(depr, rank, x) ensures y !in depr {
        var j :| 0 <= j < |depr[x]| && y in Leaves(depr, rank, depr[x][j]);
        LeavesCurrent(depr, rank, depr[x][j]);
      }
    }
  }

  /** A set without deprecated identifiers stands for itself. */
  lemma ReachFixed(depr: Deprecations, rank: string -> nat, s: set<string>)
    requires Ranked(depr, rank)
    requires forall x :: x in s ==> x !in depr
    ensures Reach(depr, rank, s) == s
  {
    forall y | y in s ensures y in Reach(depr, rank, s) {
      assert y in Leaves(depr, rank, y);
    }
  }

  /** Replacing one deprecated identifier by its successors keeps what the
      set finally stands for (01:128-132). */
  lemma ReplaceStep(depr: Deprecations, rank: string -> nat, s: set<string>, x: string)
    requires Ranked(depr, rank)
    requires x in s && x in depr
    ensures Reach(depr, rank, s - {x} + Successors(depr, x)) == Reach(depr, rank, s)
  {
    var t := s - {x} + Successors(depr, x);
    forall y | y in Reach(depr, rank, s) ensures y in Reach(depr, rank, t) {
      var z :| z in s && y in Leaves(depr, rank, z);
      if z == x {
        var j :| 0 <= j < |depr[x]| && y in Leaves(depr, rank, depr[x][j]);
        assert depr[x][j] in t;
      } else {
        assert z in t;
      }
    }
    forall y | y in Reach(depr, rank, t) ensures y in Reach(depr, rank, s) {
      var z :| z in t && y in Leaves(depr, rank, z);
      if z in s - {x} {
        assert z in s;
      } else {
        var j :| 0 <= j < |depr[x]| && depr[x][j] == z;
        assert y in Leaves(depr, rank, x);
      }
    }
  }

  /** The fixpoint loop (01:125-136). Each pass walks a snapshot of the set
      (`pmid_it`), in any order, and replaces every deprecated identifier by
      its successors; the loop ends after a pass that changed nothing. The
      result holds no deprecated identifier and is exactly what the
      starting identifiers finally stand for. */
  method Expand(depr: Deprecations, ghost rank: string -> nat, ids: set<string>) returns (r: set<string>)
    requires Ranked(depr, rank)
    ensures forall y :: y in r ==> y !in depr
    ensures r == Reach(depr, rank, ids)
  {
    r := ids;
    ghost var bound := Bound(rank, ids);
    while true
      invariant Reach(depr, rank, r) == Reach(depr, rank, ids)
      invariant forall x :: x in r && x in depr ==> rank(x) < bound
      decreases bound
    {
      var changed := false;
      var todo := r;
      ghost var snapshot := r;
      while todo != {}
        invariant todo <= r
        invariant Reach(depr, rank, r) == Reach(depr, rank, ids)
        invariant forall x :: x in todo && x in depr ==> rank(x) < bound
        invariant forall x :: x in r && x in depr && x !in todo ==> rank(x) + 1 < bound
        invariant changed ==> bound >= 1
        invariant !changed ==> r == snapshot && forall x :: x in snapshot && x !in todo ==> x !in depr
        decreases |todo|
      {
        var pmid :| pmid in todo;
        todo := todo - {pmid};
        if pmid in depr {
          ghost var before := r;
          r := ReplaceOne(depr, r, pmid);
          ReplaceStep(depr, rank, before, pmid);
          changed := true;
        }
      }
      if !changed {
        break;
      }
      bound := bound - 1;
    }
    ReachFixed(depr, rank, r);
  }

  /** One replacement: `remove(pmid)`, then `add` of each successor in turn. */
  method ReplaceOne(depr: Deprecations, s: set<string>, pmid: string) returns (r: set<string>)
    requires pmid in depr
    ensures r == s - {pmid} + Successors(depr, pmid)
  {
    r := s - {pmid};
    var succ := depr[pmid];
    var k := 0;
    while k < |succ|
      invariant 0 <= k <= |succ|
      invariant r == s - {pmid} + set i | 0 <= i < k :: succ[i]
    {
      r := r + {succ[k]};
      k := k + 1;
    }
  }
}
