/**
 The prefixes `brute_force_search` (ABQ/property_id.py, lines 120-133) hands to the search,
 in the order it hands them over.

 The search is an oracle `found`: a prefix is expanded only when its search is truthy and
 the prefix is shorter than the maximum depth; its children are the prefix followed by each
 of the digits 0 to 9, searched in that order, depth first. `Visit` is the trace of searched
 prefixes; the lemmas below characterise it without reference to the recursion: which
 prefixes it holds, in which order, how long they are and how many there are.
 */
module Prefixes {

  predicate IsDigit(c: char) {
    '0' <= c <= '9'
  }

  /** `str(i)` for a single decimal digit. */
  function Digit(i: nat): (c: char)
    requires i < 10
    ensures IsDigit(c)
  {
    ('0' as int + i) as char
  }

  /** How many more digits may be appended before the depth bound stops expansion. */
  function Room(p: string, maxDepth: int): nat
  {
    if |p| < maxDepth then maxDepth - |p| else 0
  }

  /** The prefixes searched by `brute_force_search(p, maxDepth)`, in search order. */
  function Visit(found: string -> bool, p: string, maxDepth: int): seq<string>
    decreases Room(p, maxDepth), 1, 0
  {
    if !found(p) || |p| >= maxDepth then [p]
    else [p] + Children(found, p, maxDepth, 0)
  }

  /** The prefixes searched by iterations i .. 9 of the digit loop under p. */
  function Children(found: string -> bool, p: string, maxDepth: int, i: nat): seq<string>
    requires |p| < maxDepth && i <= 10
    decreases Room(p, maxDepth), 0, 10 - i
  {
    if i == 10 then []
    else Visit(found, p + [Digit(i)], maxDepth) + Children(found, p, maxDepth, i + 1)
  }

  /** q is p followed by zero or more decimal digits. */
  predicate Extends(p: string, q: string) {
    && |p| <= |q|
    && q[..|p|] == p
    && (forall k :: |p| <= k < |q| ==> IsDigit(q[k]))
  }

  /** q is searched when started from p: it extends p, and every prefix strictly between
      p (included) and q (excluded) was found and was shorter than the depth bound. */
  predicate Reachable(found: string -> bool, p: string, maxDepth: int, q: string) {
    && Extends(p, q)
    && (forall k :: |p| <= k < |q| ==> found(q[..k]) && k < maxDepth)
  }

  predicate StrictPrefix(a: string, b: string) {
    |a| < |b| && b[..|a|] == a
  }

  /** Lexicographic order on strings, by character code, a proper prefix first. */
  predicate LexLess(a: string, b: string) {
    || StrictPrefix(a, b)
    || (exists k :: 0 <= k < |a| && k < |b| && a[..k] == b[..k] && a[k] < b[k])
  }

  predicate Sorted(t: seq<string>) {
    forall i, j :: 0 <= i < j < |t| ==> LexLess(t[i], t[j])
  }

  /** Membership in the digit loop: some iteration d >= i searched q. */
  lemma {:induction false} ChildrenMembership(found: string -> bool, p: string, maxDepth: int, i: nat, q: string)
    requires |p| < maxDepth && i <= 10
    ensures q in Children(found, p, maxDepth, i) <==>
      exists d :: i <= d < 10 && q in Visit(found, p + [Digit(d)], maxDepth)
    decreases 10 - i
  {
    if i < 10 {
      ChildrenMembership(found, p, maxDepth, i + 1, q);
    }
  }

  /** Every prefix searched extends the starting prefix by digits. */
  lemma {:induction false} ReachableFromChild(found: string -> bool, p: string, maxDepth: int, c: char, q: string)
    requires IsDigit(c) && found(p) && |p| < maxDepth
    ensures Reachable(found, p + [c], maxDepth, q) <==> Reachable(found, p, maxDepth, q) && |q| > |p| && q[|p|] == c
  {
    var pc := p + [c];
    if Reachable(found, pc, maxDepth, q) {
      assert q[..|p|] == q[..|pc|][..|p|];
      assert q[|p|] == q[..|pc|][|p|];
    }
    if Reachable(found, p, maxDepth, q) && |q| > |p| && q[|p|] == c {
      assert q[..|pc|] == pc;
    }
  }

  /** The trace holds exactly the reachable prefixes. */
  lemma {:induction false} VisitMembership(found: string -> bool, p: string, maxDepth: int, q: string)
    ensures q in Visit(found, p, maxDepth) <==> Reachable(found, p, maxDepth, q)
    decreases Room(p, maxDepth)
  {
    if q == p {
      assert q[..|p|] == p;
    } else if found(p) && |p| < maxDepth {
      ChildrenMembership(found, p, maxDepth, 0, q);
      if q in Visit(found, p, maxDepth) {
        var d :| 0 <= d < 10 && q in Visit(found, p + [Digit(d)], maxDepth);
        VisitMembership(found, p + [Digit(d)], maxDepth, q);
        ReachableFromChild(found, p, maxDepth, Digit(d), q);
      }
      if Reachable(found, p, maxDepth, q) {
        var c := q[|p|];
        var d := c as int - '0' as int;
        assert Digit(d) == c;
        ReachableFromChild(found, p, maxDepth, c, q);
        VisitMembership(found, p + [c], maxDepth, q);
      }
    }
  }

  /** The first search is for the starting prefix itself, and every later one for the starting
      prefix extended by at least one digit. */
  lemma VisitShape(found: string -> bool, p: string, maxDepth: int)
    ensures |Visit(found, p, maxDepth)| >= 1 && Visit(found, p, maxDepth)[0] == p
    ensures forall i :: 0 < i < |Visit(found, p, maxDepth)| ==>
      var q := Visit(found, p, maxDepth)[i]; Extends(p, q) && |q| > |p|
  {
    var t := Visit(found, p, maxDepth);
    forall i | 0 < i < |t|
      ensures Extends(p, t[i]) && |t[i]| > |p|
    {
      VisitMembership(found, p, maxDepth, t[i]);
      VisitSorted(found, p, maxDepth);
      assert LexLess(t[0], t[i]);
    }
  }

  lemma SortedConcat(a: seq<string>, b: seq<string>)
    requires Sorted(a) && Sorted(b)
    requires forall x, y :: x in a && y in b ==> LexLess(x, y)
    ensures Sorted(a + b)
  {
  }

  /** Two strings that agree up to position k and differ there are ordered by that position. */
  lemma LessAtFork(x: string, y: string, k: nat)
    requires k < |x| && k < |y| && x[..k] == y[..k] && x[k] < y[k]
    ensures LexLess(x, y)
  {
  }

  /** The trace is strictly increasing: a pre-order walk with digits in ascending order. */
  lemma {:induction false} VisitSorted(found: string -> bool, p: string, maxDepth: int)
    ensures Sorted(Visit(found, p, maxDepth))
    decreases Room(p, maxDepth), 1, 0
  {
    if found(p) && |p| < maxDepth {
      var kids := Children(found, p, maxDepth, 0);
      ChildrenSorted(found, p, maxDepth, 0);
      forall y | y in kids
        ensures LexLess(p, y)
      {
        ChildrenMembership(found, p, maxDepth, 0, y);
        var d :| 0 <= d < 10 && y in Visit(found, p + [Digit(d)], maxDepth);
        VisitMembership(found, p + [Digit(d)], maxDepth, y);
        assert y[..|p|] == y[..|p| + 1][..|p|];
      }
      SortedConcat([p], kids);
    }
  }

  lemma {:induction false} ChildrenSorted(found: string -> bool, p: string, maxDepth: int, i: nat)
    requires |p| < maxDepth && i <= 10
    ensures Sorted(Children(found, p, maxDepth, i))
    decreases Room(p, maxDepth), 0, 10 - i
  {
    if i < 10 {
      var here := Visit(found, p + [Digit(i)], maxDepth);
      var later := Children(found, p, maxDepth, i + 1);
      VisitSorted(found, p + [Digit(i)], maxDepth);
      ChildrenSorted(found, p, maxDepth, i + 1);
      forall x, y | x in here && y in later
        ensures LexLess(x, y)
      {
        VisitMembership(found, p + [Digit(i)], maxDepth, x);
        ChildrenMembership(found, p, maxDepth, i + 1, y);
        var d :| i + 1 <= d < 10 && y in Visit(found, p + [Digit(d)], maxDepth);
        VisitMembership(found, p + [Digit(d)], maxDepth, y);
        assert x[..|p|] == x[..|p| + 1][..|p|] && x[|p|] == x[..|p| + 1][|p|];
        assert y[..|p|] == y[..|p| + 1][..|p|] && y[|p|] == y[..|p| + 1][|p|];
        LessAtFork(x, y, |p|);
      }
      SortedConcat(here, later);
    }
  }

  /** No prefix is searched twice. */
  lemma VisitDistinct(found: string -> bool, p: string, maxDepth: int)
    ensures forall i, j :: 0 <= i < j < |Visit(found, p, maxDepth)| ==>
      Visit(found, p, maxDepth)[i] != Visit(found, p, maxDepth)[j]
  {
    VisitSorted(found, p, maxDepth);
  }

  /** Pruning: once a searched prefix is not found, nothing that extends it is searched. */
  lemma Pruning(found: string -> bool, p: string, maxDepth: int)
    ensures var t := Visit(found, p, maxDepth);
      forall i, j :: 0 <= i < |t| && 0 <= j < |t| && !found(t[i]) ==> !StrictPrefix(t[i], t[j])
  {
    var t := Visit(found, p, maxDepth);
    forall i, j | 0 <= i < |t| && 0 <= j < |t| && !found(t[i])
      ensures !StrictPrefix(t[i], t[j])
    {
      VisitMembership(found, p, maxDepth, t[i]);
      VisitMembership(found, p, maxDepth, t[j]);
    }
  }

  /** Depth bound: a start no longer than the bound keeps every search within it; a start
      at or past the bound is searched alone. */
  lemma DepthBound(found: string -> bool, p: string, maxDepth: int)
    ensures |p| <= maxDepth ==> forall q :: q in Visit(found, p, maxDepth) ==> |q| <= maxDepth
    ensures |p| >= maxDepth ==> Visit(found, p, maxDepth) == [p]
  {
    forall q | q in Visit(found, p, maxDepth) && |p| <= maxDepth
      ensures |q| <= maxDepth
    {
      VisitMembership(found, p, maxDepth, q);
      if |q| > |p| {
        var k := |q| - 1;
        assert found(q[..k]) && k < maxDepth;
      }
    }
  }

  function Pow10(k: nat): (r: nat)
    ensures r >= 1
  {
    if k == 0 then 1 else 10 * Pow10(k - 1)
  }

  /** 10^0 + 10^1 + ... + 10^n: the number of digit strings of length at most n. */
  function GeomSum(n: nat): nat
  {
    if n == 0 then 1 else GeomSum(n - 1) + Pow10(n)
  }

  lemma {:induction false} GeomSumStep(n: nat)
    requires n >= 1
    ensures GeomSum(n) == 1 + 10 * GeomSum(n - 1)
  {
    if n > 1 {
      GeomSumStep(n - 1);
    }
  }

  /** Count bound: at most 10^0 + ... + 10^(maxDepth - |p|) searches. */
  lemma {:induction false} VisitCount(found: string -> bool, p: string, maxDepth: int)
    requires |p| <= maxDepth
    ensures |Visit(found, p, maxDepth)| <= GeomSum(maxDepth - |p|)
    decreases Room(p, maxDepth), 1, 0
  {
    if found(p) && |p| < maxDepth {
      ChildrenCount(found, p, maxDepth, 0);
      GeomSumStep(maxDepth - |p|);
    }
  }

  lemma {:induction false} ChildrenCount(found: string -> bool, p: string, maxDepth: int, i: nat)
    requires |p| < maxDepth && i <= 10
    ensures |Children(found, p, maxDepth, i)| <= (10 - i) * GeomSum(maxDepth - |p| - 1)
    decreases Room(p, maxDepth), 0, 10 - i
  {
    if i < 10 {
      var g := GeomSum(maxDepth - |p| - 1);
      VisitCount(found, p + [Digit(i)], maxDepth);
      ChildrenCount(found, p, maxDepth, i + 1);
      assert (10 - i) * g == g + (10 - (i + 1)) * g;
    }
  }

  /** A found start one digit short of the depth bound: the start and its ten children are
      searched, in digit order, and nothing deeper, whether the children are found or not. */
  lemma OneLevel(found: string -> bool, p: string, maxDepth: int)
    requires found(p) && |p| + 1 == maxDepth
    ensures Visit(found, p, maxDepth) == [p] + seq(10, d requires 0 <= d < 10 => p + [Digit(d)])
  {
    var kids := seq(10, d requires 0 <= d < 10 => p + [Digit(d)]);
    forall i | 0 <= i <= 10
      ensures Children(found, p, maxDepth, i) == kids[i..]
    {
      ChildrenOneLevel(found, p, maxDepth, i);
    }
  }

  lemma {:induction false} ChildrenOneLevel(found: string -> bool, p: string, maxDepth: int, i: nat)
    requires |p| + 1 == maxDepth && i <= 10
    ensures Children(found, p, maxDepth, i) == seq(10 - i, d requires 0 <= d < 10 - i => p + [Digit(i + d)])
    decreases 10 - i
  {
    if i < 10 {
      ChildrenOneLevel(found, p, maxDepth, i + 1);
    }
  }

  /** Starting from "1" with depth 2 where only "1" is found: eleven searches. */
  lemma OneLevelExample()
    ensures Visit(p => p == "1", "1", 2) == ["1", "10", "11", "12", "13", "14", "15", "16", "17", "18", "19"]
  {
    OneLevel(p => p == "1", "1", 2);
    var kids := seq(10, d requires 0 <= d < 10 => "1" + [Digit(d)]);
    assert kids[0] == "10" && kids[1] == "11" && kids[2] == "12" && kids[3] == "13" && kids[4] == "14";
    assert kids[5] == "15" && kids[6] == "16" && kids[7] == "17" && kids[8] == "18" && kids[9] == "19";
  }
}
