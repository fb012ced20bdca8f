/** The label navigation graph (LNG): a graph over groups whose edges lead from a group to
    its minimal strict label supersets, and the descendant and coverage sets derived from it.
    Group label sets are indexed by group id 1..|ls|-1; slot 0 is unused. */
module Lng {
  import opened Common
  import opened LabelSets

  /** The group label sets as the partition leaves them: canonical and pairwise different. */
  ghost predicate GroupSets(ls: seq<seq<nat>>)
  {
    && |ls| >= 1
    && (forall g :: 1 <= g < |ls| ==> Canonical(ls[g]))
    && (forall g, h :: 1 <= g < h < |ls| ==> ls[g] != ls[h])
  }

  /** Group g's label set contains the query (strictly when avoidSelf). */
  predicate IsSuperset(ls: seq<seq<nat>>, g: nat, query: seq<nat>, avoidSelf: bool)
    requires g < |ls|
  {
    Elems(query) <= Elems(ls[g]) && (!avoidSelf || ls[g] != query)
  }

  /** The superset candidates among groups 1..p-1, in ascending group id. */
  function CandidatesUpTo(ls: seq<seq<nat>>, query: seq<nat>, avoidSelf: bool, p: nat): (r: seq<nat>)
    requires 1 <= p <= |ls|
    ensures forall k :: 0 <= k < |r| ==> 1 <= r[k] < p
  {
    if p == 1 then []
    else CandidatesUpTo(ls, query, avoidSelf, p - 1) +
         (if IsSuperset(ls, p - 1, query, avoidSelf) then [p - 1] else [])
  }

  /** The trie's superset candidates for a query, listed in ascending group id. */
  function Candidates(ls: seq<seq<nat>>, query: seq<nat>, avoidSelf: bool): (r: seq<nat>)
    requires |ls| >= 1
    ensures forall k :: 0 <= k < |r| ==> 1 <= r[k] < |ls|
  {
    CandidatesUpTo(ls, query, avoidSelf, |ls|)
  }

  lemma {:induction false} CandidatesUpToSpec(ls: seq<seq<nat>>, query: seq<nat>, avoidSelf: bool, p: nat)
    requires 1 <= p <= |ls|
    ensures forall g: nat :: g in CandidatesUpTo(ls, query, avoidSelf, p) <==>
              1 <= g < p && IsSuperset(ls, g, query, avoidSelf)
    ensures StrictlyIncreasing(CandidatesUpTo(ls, query, avoidSelf, p))
  {
    if p > 1 {
      CandidatesUpToSpec(ls, query, avoidSelf, p - 1);
      var c := CandidatesUpTo(ls, query, avoidSelf, p - 1);
      forall i | 0 <= i < |c| ensures c[i] < p - 1
      {
        assert c[i] in c;
      }
    }
  }

  /** The candidates are exactly the superset groups, each once. */
  lemma CandidatesSpec(ls: seq<seq<nat>>, query: seq<nat>, avoidSelf: bool)
    requires |ls| >= 1
    ensures forall g: nat :: g in Candidates(ls, query, avoidSelf) <==>
              1 <= g < |ls| && IsSuperset(ls, g, query, avoidSelf)
    ensures Distinct(Candidates(ls, query, avoidSelf))
  {
    CandidatesUpToSpec(ls, query, avoidSelf, |ls|);
  }

  /** Group d's label set is a proper subset of group c's. */
  ghost predicate Below(ls: seq<seq<nat>>, d: nat, c: nat)
    requires d < |ls| && c < |ls|
  {
    Elems(ls[d]) < Elems(ls[c])
  }

  /** The inclusion-minimal groups among cands: no other candidate's label set lies
      strictly inside theirs. */
  ghost function Minimal(ls: seq<seq<nat>>, cands: set<nat>): set<nat>
    requires forall c :: c in cands ==> c < |ls|
  {
    set c | c in cands && (forall d :: d in cands ==> !Below(ls, d, c))
  }

  /** Every candidate of smallest label-set size is minimal, so the minimal set of a non-empty
      candidate set is never empty. */
  lemma MinimalHasSmallest(ls: seq<seq<nat>>, cands: set<nat>, c: nat)
    requires GroupSets(ls)
    requires forall x :: x in cands ==> 1 <= x < |ls|
    requires c in cands && forall d :: d in cands ==> |ls[c]| <= |ls[d]|
    ensures c in Minimal(ls, cands)
  {
    forall d | d in cands ensures !Below(ls, d, c)
    {
      if Below(ls, d, c) {
        StrictSubsetShorter(ls[d], ls[c]);
      }
    }
  }

  /** A canonical label set strictly inside another is shorter. */
  lemma StrictSubsetShorter(a: seq<nat>, b: seq<nat>)
    requires Canonical(a) && Canonical(b) && Elems(a) < Elems(b)
    ensures |a| < |b|
  {
    DistinctCard(a);
    DistinctCard(b);
    var extra := Elems(b) - Elems(a);
    assert Elems(b) == Elems(a) + extra;
    assert extra != {};
  }

  /** The groups get_min_super_sets is after: supersets of the query (strict when avoidSelf)
      with no other such superset strictly inside their label set. */
  ghost function MinSupersets(ls: seq<seq<nat>>, query: seq<nat>, avoidSelf: bool): set<nat>
  {
    set g: nat | 1 <= g < |ls| && IsSuperset(ls, g, query, avoidSelf) &&
                 (forall d: nat :: 1 <= d < |ls| && IsSuperset(ls, d, query, avoidSelf) ==> !Below(ls, d, g))
  }

  /** The minimal candidates are the minimal supersets. */
  lemma MinimalCandidates(ls: seq<seq<nat>>, query: seq<nat>, avoidSelf: bool)
    requires |ls| >= 1
    ensures var cands := Elems(Candidates(ls, query, avoidSelf));
            && (forall c :: c in cands ==> 1 <= c < |ls|)
            && Minimal(ls, cands) == MinSupersets(ls, query, avoidSelf)
  {
    CandidatesSpec(ls, query, avoidSelf);
  }

  /** A single candidate is minimal. */
  lemma MinimalSingleton(ls: seq<seq<nat>>, c: nat)
    requires c < |ls|
    ensures Minimal(ls, {c}) == {c}
  {
    assert !Below(ls, c, c);
  }

  /** A candidate that is not minimal lies strictly above a minimal one. */
  lemma {:induction false} MinimalBelowExists(ls: seq<seq<nat>>, cands: set<nat>, c: nat) returns (m: nat)
    requires GroupSets(ls)
    requires forall x :: x in cands ==> 1 <= x < |ls|
    requires c in cands && c !in Minimal(ls, cands)
    ensures m in Minimal(ls, cands) && Below(ls, m, c)
    decreases |ls[c]|
  {
    var d :| d in cands && Below(ls, d, c);
    if d in Minimal(ls, cands) {
      m := d;
    } else {
      StrictSubsetShorter(ls[d], ls[c]);
      m := MinimalBelowExists(ls, cands, d);
    }
  }

  /** One pass of get_min_super_sets' filter over candidates s sorted by size: with kept
      holding exactly the minimal candidates among s[..i], s[i] is minimal if and only if no
      kept label set is included in its own, and it is always minimal at the smallest size. */
  lemma MinimalStep(ls: seq<seq<nat>>, s: seq<nat>, i: nat, kept: seq<nat>)
    requires GroupSets(ls)
    requires forall k :: 0 <= k < |s| ==> 1 <= s[k] < |ls|
    requires Distinct(s) && SizeSorted(ls, s) && i < |s|
    requires forall x :: x in kept <==> x in s[..i] && x in Minimal(ls, Elems(s))
    ensures s[i] in Minimal(ls, Elems(s)) <==> forall m :: m in kept ==> !Includes(ls[s[i]], ls[m])
    ensures |ls[s[i]]| <= |ls[s[0]]| ==> s[i] in Minimal(ls, Elems(s))
  {
    var c, cands := s[i], Elems(s);
    if |ls[c]| <= |ls[s[0]]| {
      forall d | d in cands ensures |ls[c]| <= |ls[d]|
      {
        var k :| 0 <= k < |s| && s[k] == d;
        if k > 0 {
          assert |ls[s[0]]| <= |ls[s[k]]|;
        }
      }
      MinimalHasSmallest(ls, cands, c);
    }
    if c in Minimal(ls, cands) {
      forall m | m in kept ensures !Includes(ls[c], ls[m])
      {
        var k :| 0 <= k < i && s[..i][k] == m;
        assert s[k] == m && m != c;
        IncludesIsSubset(ls[c], ls[m]);
        if Elems(ls[m]) == Elems(ls[c]) {
          CanonicalUnique(ls[m], ls[c]);
        }
        assert !Below(ls, m, c);
      }
    } else {
      var m := MinimalBelowExists(ls, cands, c);
      StrictSubsetShorter(ls[m], ls[c]);
      var k :| 0 <= k < |s| && s[k] == m;
      assert k < i;
      assert s[..i][k] == m;
      IncludesIsSubset(ls[c], ls[m]);
    }
  }

  /** The filter's step keeps s[i] exactly when it is minimal, so the kept list stays the
      minimal candidates among those seen, each once. */
  lemma KeepStep(ls: seq<seq<nat>>, s: seq<nat>, i: nat, kept: seq<nat>, isMin: bool)
    requires GroupSets(ls)
    requires forall k :: 0 <= k < |s| ==> 1 <= s[k] < |ls|
    requires Distinct(s) && SizeSorted(ls, s) && i < |s|
    requires Distinct(kept) && forall k :: 0 <= k < |kept| ==> kept[k] < |ls|
    requires forall x :: x in kept <==> x in s[..i] && x in Minimal(ls, Elems(s))
    requires isMin <==> (|ls[s[i]]| <= |ls[s[0]]| ||
                         forall k :: 0 <= k < |kept| ==> !Includes(ls[s[i]], ls[kept[k]]))
    ensures var kept' := if isMin then kept + [s[i]] else kept;
            && Distinct(kept')
            && (forall k :: 0 <= k < |kept'| ==> kept'[k] < |ls|)
            && (forall x :: x in kept' <==> x in s[..i + 1] && x in Minimal(ls, Elems(s)))
  {
    MinimalStep(ls, s, i, kept);
    assert s[..i + 1] == s[..i] + [s[i]];
    if isMin {
      assert s[i] !in s[..i];
    }
  }

  // ---------------------------------------------------------------- sorting by size

  /** Candidates ordered by non-decreasing label-set size. */
  predicate SizeSorted(ls: seq<seq<nat>>, s: seq<nat>)
    requires forall i :: 0 <= i < |s| ==> s[i] < |ls|
  {
    forall i, j :: 0 <= i < j < |s| ==> |ls[s[i]]| <= |ls[s[j]]|
  }

  function InsertBySize(ls: seq<seq<nat>>, x: nat, s: seq<nat>): (r: seq<nat>)
    requires x < |ls| && forall i :: 0 <= i < |s| ==> s[i] < |ls|
    ensures multiset(r) == multiset(s) + multiset{x}
    ensures forall i :: 0 <= i < |r| ==> r[i] < |ls|
    ensures r != [] && (r[0] == x || r[0] == s[0])
  {
    if s == [] then [x]
    else if |ls[x]| <= |ls[s[0]]| then [x] + s
    else
      assert s == [s[0]] + s[1..];
      [s[0]] + InsertBySize(ls, x, s[1..])
  }

  /** std::sort by label-set size, modelled as an insertion sort: ascending size, same
      elements. */
  function SortBySize(ls: seq<seq<nat>>, s: seq<nat>): (r: seq<nat>)
    requires forall i :: 0 <= i < |s| ==> s[i] < |ls|
    ensures multiset(r) == multiset(s)
    ensures forall i :: 0 <= i < |r| ==> r[i] < |ls|
    ensures SizeSorted(ls, r)
  {
    if s == [] then []
    else
      assert s == [s[0]] + s[1..];
      var t := SortBySize(ls, s[1..]);
      InsertSorted(ls, s[0], t);
      InsertBySize(ls, s[0], t)
  }

  lemma {:induction false} InsertSorted(ls: seq<seq<nat>>, x: nat, s: seq<nat>)
    requires x < |ls| && forall i :: 0 <= i < |s| ==> s[i] < |ls|
    requires SizeSorted(ls, s)
    ensures SizeSorted(ls, InsertBySize(ls, x, s))
  {
    if s != [] && |ls[x]| > |ls[s[0]]| {
      InsertSorted(ls, x, s[1..]);
      InsertAbove(ls, x, s[1..], |ls[s[0]]|);
      var t := InsertBySize(ls, x, s[1..]);
      assert InsertBySize(ls, x, s) == [s[0]] + t;
    }
  }

  /** Inserting a group at least m labels big among such groups keeps them all that big. */
  lemma {:induction false} InsertAbove(ls: seq<seq<nat>>, x: nat, s: seq<nat>, m: nat)
    requires x < |ls| && forall i :: 0 <= i < |s| ==> s[i] < |ls|
    requires m <= |ls[x]| && forall i :: 0 <= i < |s| ==> m <= |ls[s[i]]|
    ensures forall i :: 0 <= i < |InsertBySize(ls, x, s)| ==> m <= |ls[InsertBySize(ls, x, s)[i]]|
  {
    if s != [] && |ls[x]| > |ls[s[0]]| {
      InsertAbove(ls, x, s[1..], m);
      var t := InsertBySize(ls, x, s[1..]);
      assert InsertBySize(ls, x, s) == [s[0]] + t;
    }
  }

  /** Sorting by size keeps the elements of a duplicate-free candidate list: still each once,
      and the same set. */
  lemma SortedSameElems(ls: seq<seq<nat>>, c: seq<nat>)
    requires forall k :: 0 <= k < |c| ==> 1 <= c[k] < |ls|
    requires Distinct(c)
    ensures var s := SortBySize(ls, c);
            && Distinct(s) && |s| == |c| && Elems(s) == Elems(c)
            && (forall k :: 0 <= k < |s| ==> 1 <= s[k] < |ls|)
  {
    var s := SortBySize(ls, c);
    PermutationDistinct(c, s);
    PermutationElems(c, s);
    forall k | 0 <= k < |s| ensures 1 <= s[k]
    {
      assert s[k] in Elems(c);
    }
  }

  // ---------------------------------------------------------------- graph over groups

  /** The largest label-set size. */
  ghost function Bound(ls: seq<seq<nat>>): (b: nat)
    ensures forall g :: 0 <= g < |ls| ==> |ls[g]| <= b
  {
    if ls == [] then 0
    else
      var b := Bound(ls[..|ls| - 1]);
      assert forall g :: 0 <= g < |ls| - 1 ==> ls[g] == ls[..|ls| - 1][g];
      if |ls[|ls| - 1]| > b then |ls[|ls| - 1]| else b
  }

  /** Every edge leads from a group to a group with a strictly larger label set; slot 0 has
      no edges. Strict growth makes the graph acyclic. */
  ghost predicate Ranked(ls: seq<seq<nat>>, out: seq<seq<nat>>)
  {
    && |out| == |ls| >= 1
    && out[0] == []
    && (forall g, i :: 1 <= g < |out| && 0 <= i < |out[g]| ==> 1 <= out[g][i] < |ls| && |ls[g]| < |ls[out[g][i]]|)
  }

  /** The groups reachable from g by one or more edges. */
  ghost function Desc(ls: seq<seq<nat>>, out: seq<seq<nat>>, g: nat): set<nat>
    requires Ranked(ls, out) && 1 <= g < |ls|
    decreases Bound(ls) - |ls[g]|
  {
    set c, x | c in out[g] && x in {c} + Desc(ls, out, c) :: x
  }

  /** g's members united with the coverage of every child: what cal_f_coverage_ratio
      computes for g. */
  ghost function Cov(ls: seq<seq<nat>>, out: seq<seq<nat>>, vecIds: seq<seq<nat>>, g: nat): set<nat>
    requires Ranked(ls, out) && |vecIds| == |ls| && 1 <= g < |ls|
    decreases Bound(ls) - |ls[g]|
  {
    Elems(vecIds[g]) + set c, x | c in out[g] && x in Cov(ls, out, vecIds, c) :: x
  }

  /** Descendants are groups with strictly larger label sets, so never g itself. */
  lemma {:induction false} DescAbove(ls: seq<seq<nat>>, out: seq<seq<nat>>, g: nat)
    requires Ranked(ls, out) && 1 <= g < |ls|
    ensures forall d :: d in Desc(ls, out, g) ==> 1 <= d < |ls| && |ls[g]| < |ls[d]|
    ensures g !in Desc(ls, out, g)
    decreases Bound(ls) - |ls[g]|
  {
    forall d | d in Desc(ls, out, g) ensures 1 <= d < |ls| && |ls[g]| < |ls[d]|
    {
      var c :| c in out[g] && d in {c} + Desc(ls, out, c);
      if d != c {
        DescAbove(ls, out, c);
      }
    }
  }

  /** The descendants of g are closed under edges. */
  lemma {:induction false} DescClosed(ls: seq<seq<nat>>, out: seq<seq<nat>>, g: nat, x: nat, c: nat)
    requires Ranked(ls, out) && 1 <= g < |ls|
    requires x in Desc(ls, out, g) && x < |out| && c in out[x]
    ensures c in Desc(ls, out, g)
    decreases Bound(ls) - |ls[g]|
  {
    var y :| y in out[g] && x in {y} + Desc(ls, out, y);
    if x == y {
      assert c in {c} + Desc(ls, out, c);
      assert c in Desc(ls, out, y);
      assert c in {y} + Desc(ls, out, y);
    } else {
      DescClosed(ls, out, y, x, c);
      assert c in {y} + Desc(ls, out, y);
    }
  }

  /** A set holding g and closed under edges holds all of g's descendants. */
  lemma {:induction false} ClosedHoldsDesc(ls: seq<seq<nat>>, out: seq<seq<nat>>, g: nat, v: set<nat>)
    requires Ranked(ls, out) && 1 <= g < |ls| && g in v
    requires forall x, c :: x in v && 1 <= x < |out| && c in out[x] ==> c in v
    ensures Desc(ls, out, g) <= v
    decreases Bound(ls) - |ls[g]|
  {
    forall d | d in Desc(ls, out, g) ensures d in v
    {
      var c :| c in out[g] && d in {c} + Desc(ls, out, c);
      if d != c {
        ClosedHoldsDesc(ls, out, c, v);
      }
    }
  }

  /** A covered vector that is not g's own belongs to some descendant of g. */
  lemma {:induction false} CovWitness(ls: seq<seq<nat>>, out: seq<seq<nat>>, vecIds: seq<seq<nat>>, g: nat, x: nat)
    returns (d: nat)
    requires Ranked(ls, out) && |vecIds| == |ls| && 1 <= g < |ls|
    requires x in Cov(ls, out, vecIds, g) && x !in vecIds[g]
    ensures d in Desc(ls, out, g) && d < |vecIds| && x in vecIds[d]
    decreases Bound(ls) - |ls[g]|
  {
    var c :| c in out[g] && x in Cov(ls, out, vecIds, c);
    assert c in {c} + Desc(ls, out, c);
    if x in vecIds[c] {
      d := c;
    } else {
      d := CovWitness(ls, out, vecIds, c, x);
      assert d in {c} + Desc(ls, out, c);
    }
  }

  /** Every member of a descendant of g is covered by g. */
  lemma {:induction false} DescCovered(ls: seq<seq<nat>>, out: seq<seq<nat>>, vecIds: seq<seq<nat>>, g: nat, d: nat, x: nat)
    requires Ranked(ls, out) && |vecIds| == |ls| && 1 <= g < |ls|
    requires d in Desc(ls, out, g) && d < |vecIds| && x in vecIds[d]
    ensures x in Cov(ls, out, vecIds, g)
    decreases Bound(ls) - |ls[g]|
  {
    var c :| c in out[g] && d in {c} + Desc(ls, out, c);
    if d != c {
      DescCovered(ls, out, vecIds, c, d, x);
    }
    assert x in Cov(ls, out, vecIds, c);
  }

  /** A group's coverage is its own members together with the members of all of its
      descendants. */
  lemma CovIsDescMembers(ls: seq<seq<nat>>, out: seq<seq<nat>>, vecIds: seq<seq<nat>>, g: nat)
    requires Ranked(ls, out) && |vecIds| == |ls| && 1 <= g < |ls|
    ensures Cov(ls, out, vecIds, g) ==
            Elems(vecIds[g]) + set d, x | d in Desc(ls, out, g) && d < |vecIds| && x in vecIds[d] :: x
  {
    var rhs := Elems(vecIds[g]) + set d, x | d in Desc(ls, out, g) && d < |vecIds| && x in vecIds[d] :: x;
    forall x | x in Cov(ls, out, vecIds, g) ensures x in rhs
    {
      if x !in vecIds[g] {
        var d := CovWitness(ls, out, vecIds, g, x);
      }
    }
    forall x | x in rhs ensures x in Cov(ls, out, vecIds, g)
    {
      if x !in vecIds[g] {
        var d :| d in Desc(ls, out, g) && d < |vecIds| && x in vecIds[d];
        DescCovered(ls, out, vecIds, g, d, x);
      }
    }
  }

  /** What a group's covered set holds while the children in done have been merged into it. */
  ghost function Partial(ls: seq<seq<nat>>, out: seq<seq<nat>>, vecIds: seq<seq<nat>>, p: nat, done: set<nat>): set<nat>
    requires Ranked(ls, out) && |vecIds| == |ls| && 1 <= p < |ls|
  {
    Elems(vecIds[p]) + set c, x | c in out[p] && c in done && x in Cov(ls, out, vecIds, c) :: x
  }

  /** Merging a finished child c into its parent p adds exactly c's coverage; finishing a group
      that is not a child changes nothing. */
  lemma PartialStep(ls: seq<seq<nat>>, out: seq<seq<nat>>, vecIds: seq<seq<nat>>, p: nat, done: set<nat>, c: nat)
    requires Ranked(ls, out) && |vecIds| == |ls| && 1 <= p < |ls| && 1 <= c < |ls|
    ensures c in out[p] ==>
              Partial(ls, out, vecIds, p, done + {c}) == Partial(ls, out, vecIds, p, done) + Cov(ls, out, vecIds, c)
    ensures c !in out[p] ==>
              Partial(ls, out, vecIds, p, done + {c}) == Partial(ls, out, vecIds, p, done)
  {
  }

  /** Once every child is finished the partial merge is the full coverage. */
  lemma PartialComplete(ls: seq<seq<nat>>, out: seq<seq<nat>>, vecIds: seq<seq<nat>>, p: nat, done: set<nat>)
    requires Ranked(ls, out) && |vecIds| == |ls| && 1 <= p < |ls|
    requires Elems(out[p]) <= done
    ensures Partial(ls, out, vecIds, p, done) == Cov(ls, out, vecIds, p)
  {
  }

  /** If every group whose children are all finished is itself finished, every group is
      finished: the graph has no cycle to stall on. */
  lemma {:induction false} AllFinished(ls: seq<seq<nat>>, out: seq<seq<nat>>, done: set<nat>, g: nat)
    requires Ranked(ls, out) && 1 <= g < |ls|
    requires forall p :: 1 <= p < |ls| && Elems(out[p]) <= done ==> p in done
    ensures g in done
    decreases Bound(ls) - |ls[g]|
  {
    forall c | c in Elems(out[g]) ensures c in done
    {
      AllFinished(ls, out, done, c);
    }
  }

  /** out_neighbors as build_label_nav_graph leaves it: slot 0 empty, and group g's list the
      minimal strict supersets of g's label set, each once. */
  ghost predicate MinSupersetEdges(ls: seq<seq<nat>>, out: seq<seq<nat>>)
  {
    && |out| == |ls| >= 1
    && out[0] == []
    && (forall g :: 1 <= g < |ls| ==> Distinct(out[g]) && Elems(out[g]) == MinSupersets(ls, ls[g], true))
  }

  /** Edges to minimal strict supersets lead to strictly larger label sets: the label
      navigation graph is ranked, hence acyclic. */
  lemma MinSupersetEdgesRanked(ls: seq<seq<nat>>, out: seq<seq<nat>>)
    requires GroupSets(ls) && MinSupersetEdges(ls, out)
    ensures Ranked(ls, out)
  {
    forall g, i | 1 <= g < |out| && 0 <= i < |out[g]|
      ensures 1 <= out[g][i] < |ls| && |ls[g]| < |ls[out[g][i]]|
    {
      var h := out[g][i];
      assert h in Elems(out[g]);
      assert IsSuperset(ls, h, ls[g], true);
      if Elems(ls[g]) == Elems(ls[h]) {
        CanonicalUnique(ls[g], ls[h]);
      }
      StrictSubsetShorter(ls[g], ls[h]);
    }
  }

  /** The label navigation graph: minimal-superset out-lists and in-lists that reverse them. */
  ghost predicate LabelNav(ls: seq<seq<nat>>, out: seq<seq<nat>>, inn: seq<seq<nat>>)
  {
    MinSupersetEdges(ls, out) && Reverse(out, inn)
  }

  /** inn is the reverse adjacency of out: p is listed, once, in inn[h] exactly when out[p]
      lists h. */
  ghost predicate Reverse(out: seq<seq<nat>>, inn: seq<seq<nat>>)
  {
    && |inn| == |out|
    && (forall h, p: nat :: 0 <= h < |out| ==> (p in inn[h] <==> p < |out| && h in out[p]))
    && (forall h :: 0 <= h < |inn| ==> Distinct(inn[h]))
  }

  /** Every strict superset group of g lies above one of g's out-neighbours: no superset is
      out of the graph's reach. */
  lemma MinSupersetEdgesCover(ls: seq<seq<nat>>, out: seq<seq<nat>>, g: nat, c: nat)
    requires GroupSets(ls) && MinSupersetEdges(ls, out)
    requires 1 <= g < |ls| && 1 <= c < |ls| && IsSuperset(ls, c, ls[g], true)
    ensures exists h :: h in out[g] && h < |ls| && Elems(ls[h]) <= Elems(ls[c])
  {
    var cands := Elems(Candidates(ls, ls[g], true));
    MinimalCandidates(ls, ls[g], true);
    CandidatesSpec(ls, ls[g], true);
    assert c in cands;
    if c in Minimal(ls, cands) {
      assert c in Elems(out[g]);
    } else {
      var m := MinimalBelowExists(ls, cands, c);
      assert m in Elems(out[g]);
    }
  }

  // ---------------------------------------------------------------- reverse adjacency

  /** The groups p < k with an edge p -> h, in ascending order: in_neighbors[h] as the
      reversing loop has built it after visiting groups 0..k-1. */
  function Incoming(out: seq<seq<nat>>, h: nat, k: nat): seq<nat>
    requires k <= |out|
  {
    if k == 0 then [] else Incoming(out, h, k - 1) + (if h in out[k - 1] then [k - 1] else [])
  }

  /** in_neighbors is exactly the reverse of out_neighbors, each source once, ascending. */
  lemma {:induction false} IncomingIsReverse(out: seq<seq<nat>>, h: nat, k: nat)
    requires k <= |out|
    ensures forall p: nat :: p in Incoming(out, h, k) <==> p < k && h in out[p]
    ensures StrictlyIncreasing(Incoming(out, h, k))
  {
    if k > 0 {
      IncomingIsReverse(out, h, k - 1);
      var m := Incoming(out, h, k - 1);
      forall i | 0 <= i < |m| ensures m[i] < k - 1
      {
        assert m[i] in m;
      }
    }
  }
}
