/**
 * Group graphs and cross-group edges of the unified navigating graph
 * (UNG/codes/src/uni_nav_graph.cpp, build_complete_graph,
 * add_offset_for_uni_nav_graph and build_cross_group_edges), and the query
 * side: entry points, the hybrid switch, the post-filter and the writing of
 * the K result slots of one query.
 *
 * Adjacency lists are sequences of point ids; the approximate searches of the
 * per-group Vamana indexes are function parameters (oracles) that return the
 * ids they found, in the order of their search queue.
 */
module Query {
  import opened Common
  import Bipartite

  // ---------------------------------------------------------------------
  // Complete graphs for small groups
  // ---------------------------------------------------------------------

  /** The ids 0..n-1 without i, ascending: what a complete graph on n points links i to. */
  function Others(n: nat, i: nat): (r: seq<nat>)
  {
    if n == 0 then [] else Others(n - 1, i) + (if n - 1 != i then [n - 1] else [])
  }

  lemma {:induction false} OthersMeans(n: nat, i: nat)
    ensures forall x: nat :: x in Others(n, i) <==> x < n && x != i
    ensures StrictlyIncreasing(Others(n, i))
    ensures |Others(n, i)| == if i < n then n - 1 else n
  {
    if n > 0 {
      OthersMeans(n - 1, i);
      var prev := Others(n - 1, i);
      assert forall k :: 0 <= k < |prev| ==> prev[k] < n - 1 by {
        forall k | 0 <= k < |prev| ensures prev[k] < n - 1 {
          assert prev[k] in prev;
        }
      }
      var last: seq<nat> := if n - 1 != i then [n - 1] else [];
      assert Others(n, i) == prev + last;
      forall x: nat ensures x in Others(n, i) <==> x < n && x != i {
        assert x in prev + last <==> x in prev || x in last;
        assert x in prev <==> x < n - 1 && x != i;
        assert x in last <==> x == n - 1 && x != i;
      }
    }
  }

  /**
   * build_complete_graph: every point 0..n-1 of a group graph gets every other
   * point appended to its adjacency list, in ascending order.
   */
  method BuildCompleteGraph(neighbors: seq<seq<nat>>, n: nat) returns (result: seq<seq<nat>>)
    requires n <= |neighbors|
    ensures |result| == |neighbors|
    ensures forall i :: 0 <= i < n ==> result[i] == neighbors[i] + Others(n, i)
    ensures forall i :: n <= i < |neighbors| ==> result[i] == neighbors[i]
  {
    result := neighbors;
    for i := 0 to n
      invariant |result| == |neighbors|
      invariant forall p :: 0 <= p < i ==> result[p] == neighbors[p] + Others(n, p)
      invariant forall p :: i <= p < |neighbors| ==> result[p] == neighbors[p]
    {
      var row := result[i];
      for j := 0 to n
        invariant row == neighbors[i] + Others(j, i)
      {
        if i != j {
          row := row + [j];
        }
      }
      result := result[i := row];
    }
  }

  /** A complete group graph links each point to every other point of the group and nothing else. */
  lemma CompleteGraphMeans(neighbors: seq<seq<nat>>, n: nat, result: seq<seq<nat>>, i: nat)
    requires n <= |neighbors| && |result| == |neighbors| && i < n
    requires neighbors[i] == [] && result[i] == neighbors[i] + Others(n, i)
    ensures forall x: nat :: x in result[i] <==> x < n && x != i
    ensures |result[i]| == n - 1
  {
    OthersMeans(n, i);
  }

  // ---------------------------------------------------------------------
  // Local group ids become global ids
  // ---------------------------------------------------------------------

  /** Every id of s moved up by d. */
  function Shifted(s: seq<nat>, d: nat): (r: seq<nat>)
    ensures |r| == |s|
  {
    seq(|s|, k requires 0 <= k < |s| => s[k] + d)
  }

  /**
   * The grouping after reordering: ranges[g] = [first, second) holds exactly the
   * new ids whose group is g.
   */
  ghost predicate Grouped(ranges: seq<(nat, nat)>, groupOf: seq<nat>)
  {
    (forall g :: 0 <= g < |ranges| ==> ranges[g].0 <= ranges[g].1 <= |groupOf|) &&
    (forall i :: 0 <= i < |groupOf| ==> groupOf[i] < |ranges|) &&
    (forall i, g :: 0 <= i < |groupOf| && 0 <= g < |ranges| ==>
      (groupOf[i] == g <==> ranges[g].0 <= i < ranges[g].1))
  }

  /**
   * add_offset_for_uni_nav_graph: every neighbour of point i, a local id of its
   * group's graph, is shifted by the first new id of i's group.
   */
  method AddOffset(neighbors: seq<seq<nat>>, ranges: seq<(nat, nat)>, groupOf: seq<nat>)
    returns (result: seq<seq<nat>>)
    requires |groupOf| <= |neighbors|
    requires forall i :: 0 <= i < |groupOf| ==> groupOf[i] < |ranges|
    ensures |result| == |neighbors|
    ensures forall i :: 0 <= i < |groupOf| ==> result[i] == Shifted(neighbors[i], ranges[groupOf[i]].0)
    ensures forall i :: |groupOf| <= i < |neighbors| ==> result[i] == neighbors[i]
  {
    result := neighbors;
    for i := 0 to |groupOf|
      invariant |result| == |neighbors|
      invariant forall p :: 0 <= p < i ==> result[p] == Shifted(neighbors[p], ranges[groupOf[p]].0)
      invariant forall p :: i <= p < |neighbors| ==> result[p] == neighbors[p]
    {
      var first := ranges[groupOf[i]].0;
      var row := result[i];
      for k := 0 to |row|
        invariant |row| == |neighbors[i]|
        invariant forall q :: 0 <= q < k ==> row[q] == neighbors[i][q] + first
        invariant forall q :: k <= q < |row| ==> row[q] == neighbors[i][q]
      {
        row := row[k := row[k] + first];
      }
      result := result[i := row];
    }
  }

  /**
   * A group graph over local ids 0..size-1 becomes, after the offset, a graph
   * whose every edge stays inside the group: the target's group is the
   * source's group.
   */
  lemma OffsetStaysInGroup(neighbors: seq<seq<nat>>, ranges: seq<(nat, nat)>, groupOf: seq<nat>,
                           result: seq<seq<nat>>, i: nat)
    requires Grouped(ranges, groupOf) && |groupOf| <= |neighbors| && |result| == |neighbors|
    requires i < |groupOf|
    requires result[i] == Shifted(neighbors[i], ranges[groupOf[i]].0)
    requires forall x :: x in neighbors[i] ==> x < ranges[groupOf[i]].1 - ranges[groupOf[i]].0
    ensures forall y :: y in result[i] ==> y < |groupOf| && groupOf[y] == groupOf[i]
  {
    var g := groupOf[i];
    forall y | y in result[i] ensures y < |groupOf| && groupOf[y] == g {
      var k :| 0 <= k < |result[i]| && result[i][k] == y;
      assert neighbors[i][k] in neighbors[i];
    }
  }

  // ---------------------------------------------------------------------
  // Cross-group edges
  // ---------------------------------------------------------------------

  /** The groups that the cross-group neighbours of the points first..second-1 fall into. */
  ghost function Connected(range: (nat, nat), cross: seq<seq<nat>>, groupOf: seq<nat>): set<nat>
  {
    set i, j | range.0 <= i < range.1 && i < |cross| && 0 <= j < |cross[i]| && cross[i][j] < |groupOf|
      :: groupOf[cross[i][j]]
  }

  /** All cross-group neighbours are point ids. */
  ghost predicate CrossIds(cross: seq<seq<nat>>, groupOf: seq<nat>)
  {
    forall i, j :: 0 <= i < |cross| && 0 <= j < |cross[i]| ==> cross[i][j] < |groupOf|
  }

  /** The first min(m, |s|) elements of s. */
  function Take<T>(s: seq<T>, m: nat): (r: seq<T>)
    ensures |r| == if m < |s| then m else |s|
    ensures r == s[..|r|]
  {
    if m < |s| then s[..m] else s
  }

  /** The edges (vec, t + offset) for the found local ids t. */
  function EdgesFrom(vec: nat, found: seq<nat>, offset: nat): (r: seq<(nat, nat)>)
    ensures |r| == |found|
  {
    if found == [] then [] else EdgesFrom(vec, found[..|found| - 1], offset) + [(vec, found[|found| - 1] + offset)]
  }

  lemma {:induction false} EdgesFromMeans(vec: nat, found: seq<nat>, offset: nat)
    ensures forall k :: 0 <= k < |found| ==> EdgesFrom(vec, found, offset)[k] == (vec, found[k] + offset)
  {
    if found != [] {
      EdgesFromMeans(vec, found[..|found| - 1], offset);
    }
  }

  /**
   * The additional edges from the points vec..hi-1 of a group to an out-group
   * it is not yet connected to: each point in turn, while fewer than
   * numCrossEdges edges have been added, searches the out-group and links to at
   * most numCrossEdges/2 of the results (local ids, shifted by offset).
   */
  function AdditionalFrom(vec: nat, hi: nat, cnt: nat, numCrossEdges: nat,
                          search: nat -> seq<nat>, offset: nat): seq<(nat, nat)>
    decreases hi - vec
  {
    if vec >= hi || cnt >= numCrossEdges then []
    else
      var found := Take(search(vec), numCrossEdges / 2);
      EdgesFrom(vec, found, offset) + AdditionalFrom(vec + 1, hi, cnt + |found|, numCrossEdges, search, offset)
  }

  /**
   * The additional edges of one unconnected out-group start at the group's own
   * points and end at found points shifted into the out-group.
   */
  lemma {:induction false} AdditionalFromMeans(vec: nat, hi: nat, cnt: nat, numCrossEdges: nat,
                                               search: nat -> seq<nat>, offset: nat)
    ensures forall e :: e in AdditionalFrom(vec, hi, cnt, numCrossEdges, search, offset) ==>
      vec <= e.0 < hi && e.1 >= offset && e.1 - offset in search(e.0)
    decreases hi - vec
  {
    if vec < hi && cnt < numCrossEdges {
      var found := Take(search(vec), numCrossEdges / 2);
      var here := EdgesFrom(vec, found, offset);
      var rest := AdditionalFrom(vec + 1, hi, cnt + |found|, numCrossEdges, search, offset);
      AdditionalFromMeans(vec + 1, hi, cnt + |found|, numCrossEdges, search, offset);
      EdgesFromMeans(vec, found, offset);
      assert AdditionalFrom(vec, hi, cnt, numCrossEdges, search, offset) == here + rest;
      forall e | e in here ensures vec <= e.0 < hi && e.1 >= offset && e.1 - offset in search(e.0) {
        var k :| 0 <= k < |here| && here[k] == e;
        assert found[k] in search(vec);
      }
      forall e | e in here + rest ensures vec <= e.0 < hi && e.1 >= offset && e.1 - offset in search(e.0) {
        if e !in here {
          assert e in rest;
        }
      }
    }
  }

  /**
   * Searching stops once numCrossEdges edges are reached, and the last search
   * adds at most numCrossEdges/2: fewer than numCrossEdges + numCrossEdges/2
   * edges in all, none when numCrossEdges is 0.
   */
  lemma {:induction false} AdditionalFromCount(vec: nat, hi: nat, cnt: nat, numCrossEdges: nat,
                                               search: nat -> seq<nat>, offset: nat)
    ensures cnt < numCrossEdges ==>
      cnt + |AdditionalFrom(vec, hi, cnt, numCrossEdges, search, offset)| < numCrossEdges + numCrossEdges / 2
    ensures cnt >= numCrossEdges ==> AdditionalFrom(vec, hi, cnt, numCrossEdges, search, offset) == []
    decreases hi - vec
  {
    if vec < hi && cnt < numCrossEdges {
      var found := Take(search(vec), numCrossEdges / 2);
      AdditionalFromCount(vec + 1, hi, cnt + |found|, numCrossEdges, search, offset);
    }
  }

  /**
   * The additional edges a group gets (build_cross_group_edges, "add
   * additional edges"): for each out-group in the order of the label
   * navigating graph's out-neighbour list that none of the group's cross-group
   * neighbours already falls into; search(og) is the out-group's Vamana search.
   */
  ghost function AdditionalEdges(range: (nat, nat), outGroups: seq<nat>, connected: set<nat>,
                                 ranges: seq<(nat, nat)>, numCrossEdges: nat,
                                 search: nat -> nat -> seq<nat>): seq<(nat, nat)>
    requires forall k :: 0 <= k < |outGroups| ==> outGroups[k] < |ranges|
  {
    if outGroups == [] then []
    else
      var og := outGroups[|outGroups| - 1];
      AdditionalEdges(range, outGroups[..|outGroups| - 1], connected, ranges, numCrossEdges, search) +
      (if og in connected then []
       else AdditionalFrom(range.0, range.1, 0, numCrossEdges, search(og), ranges[og].0))
  }

  /**
   * Additional edges go only to out-groups the group was not connected to, and
   * each starts at one of the group's own points.
   */
  lemma {:induction false} AdditionalEdgesMeans(range: (nat, nat), outGroups: seq<nat>, connected: set<nat>,
                                                ranges: seq<(nat, nat)>, groupOf: seq<nat>,
                                                numCrossEdges: nat, search: nat -> nat -> seq<nat>)
    requires Grouped(ranges, groupOf)
    requires forall k :: 0 <= k < |outGroups| ==> outGroups[k] < |ranges|
    requires forall k, v :: 0 <= k < |outGroups| && range.0 <= v < range.1 ==>
      forall t :: t in search(outGroups[k])(v) ==> t < ranges[outGroups[k]].1 - ranges[outGroups[k]].0
    ensures forall e :: e in AdditionalEdges(range, outGroups, connected, ranges, numCrossEdges, search) ==>
      range.0 <= e.0 < range.1 && e.1 < |groupOf| && groupOf[e.1] in outGroups && groupOf[e.1] !in connected
  {
    if outGroups != [] {
      var init := outGroups[..|outGroups| - 1];
      var og := outGroups[|outGroups| - 1];
      AdditionalEdgesMeans(range, init, connected, ranges, groupOf, numCrossEdges, search);
      if og !in connected {
        EdgesIntoOutGroup(range, og, ranges, groupOf, numCrossEdges, search(og));
      }
      forall e | e in AdditionalEdges(range, init, connected, ranges, numCrossEdges, search)
        ensures groupOf[e.1] in outGroups
      {
        var k :| 0 <= k < |init| && init[k] == groupOf[e.1];
        assert outGroups[k] == init[k];
      }
    }
  }

  /** The edges towards one out-group, when its search returns local ids of the out-group, land in it. */
  lemma EdgesIntoOutGroup(range: (nat, nat), og: nat, ranges: seq<(nat, nat)>, groupOf: seq<nat>,
                          numCrossEdges: nat, search: nat -> seq<nat>)
    requires Grouped(ranges, groupOf) && og < |ranges|
    requires forall v :: range.0 <= v < range.1 ==> forall t :: t in search(v) ==> t < ranges[og].1 - ranges[og].0
    ensures forall e :: e in AdditionalFrom(range.0, range.1, 0, numCrossEdges, search, ranges[og].0) ==>
      range.0 <= e.0 < range.1 && e.1 < |groupOf| && groupOf[e.1] == og
  {
    AdditionalFromMeans(range.0, range.1, 0, numCrossEdges, search, ranges[og].0);
    forall e | e in AdditionalFrom(range.0, range.1, 0, numCrossEdges, search, ranges[og].0)
      ensures range.0 <= e.0 < range.1 && e.1 < |groupOf| && groupOf[e.1] == og
    {
      var t := e.1 - ranges[og].0;
      assert t in search(e.0);
      assert t < ranges[og].1 - ranges[og].0;
      assert ranges[og].0 <= e.1 < ranges[og].1;
      assert ranges[og].1 <= |groupOf|;
      assert groupOf[e.1] == og;
    }
  }

  /** The groups that the cross-group neighbours of the points lo..hi-1 fall into. */
  ghost function ConnectedPart(lo: nat, hi: nat, cross: seq<seq<nat>>, groupOf: seq<nat>): set<nat>
  {
    set i, j | lo <= i < hi && i < |cross| && 0 <= j < |cross[i]| && cross[i][j] < |groupOf|
      :: groupOf[cross[i][j]]
  }

  /**
   * The "obtain connected groups" loop of build_cross_group_edges: the groups
   * that the cross-group neighbours of the points in range fall into.
   */
  method ConnectedGroups(range: (nat, nat), cross: seq<seq<nat>>, groupOf: seq<nat>)
    returns (connected: set<nat>)
    requires range.0 <= range.1 <= |cross|
    requires CrossIds(cross, groupOf)
    ensures connected == Connected(range, cross, groupOf)
    ensures forall g :: g in connected <==>
      exists i, j :: range.0 <= i < range.1 && 0 <= j < |cross[i]| && groupOf[cross[i][j]] == g
  {
    connected := {};
    for i := range.0 to range.1
      invariant connected == ConnectedPart(range.0, i, cross, groupOf)
    {
      for j := 0 to |cross[i]|
        invariant connected == ConnectedPart(range.0, i, cross, groupOf) + set jj | 0 <= jj < j :: groupOf[cross[i][jj]]
      {
        connected := connected + {groupOf[cross[i][j]]};
      }
      assert ConnectedPart(range.0, i + 1, cross, groupOf) ==
        ConnectedPart(range.0, i, cross, groupOf) + set jj | 0 <= jj < |cross[i]| :: groupOf[cross[i][jj]];
    }
  }

  /** The inner loop of the additional-edge pass: vec linked to the first limit ids found, shifted by offset. */
  method LinkFound(vec: nat, found: seq<nat>, limit: nat, offset: nat) returns (edges: seq<(nat, nat)>)
    ensures edges == EdgesFrom(vec, Take(found, limit), offset)
  {
    edges := [];
    var t := 0;
    while t < |found| && t < limit
      invariant t <= |found| && t <= limit
      invariant edges == EdgesFrom(vec, found[..t], offset)
    {
      assert found[..t + 1][..t] == found[..t];
      edges := edges + [(vec, found[t] + offset)];
      t := t + 1;
    }
  }

  /**
   * The edges one group gets towards one unconnected out-group: its points in
   * order, while fewer than numCrossEdges edges have been added, each linked to
   * at most numCrossEdges/2 of its search results in the out-group (search),
   * shifted by the out-group's first new id (offset).
   */
  method EdgesToOutGroup(range: (nat, nat), numCrossEdges: nat, search: nat -> seq<nat>, offset: nat)
    returns (edges: seq<(nat, nat)>)
    ensures edges == AdditionalFrom(range.0, range.1, 0, numCrossEdges, search, offset)
  {
    edges := [];
    var cnt: nat := 0;
    var vec := range.0;
    ghost var total := AdditionalFrom(range.0, range.1, 0, numCrossEdges, search, offset);
    ghost var todo := total;
    while vec < range.1 && cnt < numCrossEdges
      invariant todo == AdditionalFrom(vec, range.1, cnt, numCrossEdges, search, offset)
      invariant total == edges + todo
      decreases range.1 - vec
    {
      var more := LinkFound(vec, search(vec), numCrossEdges / 2, offset);
      ghost var rest := AdditionalFromStep(vec, range.1, cnt, numCrossEdges, search, offset);
      SeqAssoc(edges, more, rest);
      edges := edges + more;
      cnt := cnt + |more|;
      vec := vec + 1;
      todo := rest;
    }
  }

  /** One round of the additional-edge loop, and what remains. */
  lemma AdditionalFromStep(vec: nat, hi: nat, cnt: nat, numCrossEdges: nat, search: nat -> seq<nat>, offset: nat)
    returns (rest: seq<(nat, nat)>)
    requires vec < hi && cnt < numCrossEdges
    ensures var found := Take(search(vec), numCrossEdges / 2);
      rest == AdditionalFrom(vec + 1, hi, cnt + |found|, numCrossEdges, search, offset) &&
      AdditionalFrom(vec, hi, cnt, numCrossEdges, search, offset) == EdgesFrom(vec, found, offset) + rest
  {
    var found := Take(search(vec), numCrossEdges / 2);
    rest := AdditionalFrom(vec + 1, hi, cnt + |found|, numCrossEdges, search, offset);
  }

  lemma SeqAssoc<T>(a: seq<T>, b: seq<T>, c: seq<T>)
    ensures a + (b + c) == a + b + c
  {
  }

  /**
   * The additional-edge pass of build_cross_group_edges for one group with new
   * ids range: every out-group the group's cross-group neighbours do not
   * already reach contributes the edges of EdgesToOutGroup, in out-neighbour
   * order.
   */
  method GroupAdditionalEdges(range: (nat, nat), cross: seq<seq<nat>>, groupOf: seq<nat>,
                              outGroups: seq<nat>, ranges: seq<(nat, nat)>, numCrossEdges: nat,
                              search: nat -> nat -> seq<nat>)
    returns (edges: seq<(nat, nat)>)
    requires range.0 <= range.1 <= |cross|
    requires CrossIds(cross, groupOf)
    requires forall k :: 0 <= k < |outGroups| ==> outGroups[k] < |ranges|
    ensures edges == AdditionalEdges(range, outGroups, Connected(range, cross, groupOf), ranges, numCrossEdges, search)
  {
    var connected := ConnectedGroups(range, cross, groupOf);
    edges := [];
    for k := 0 to |outGroups|
      invariant edges == AdditionalEdges(range, outGroups[..k], connected, ranges, numCrossEdges, search)
    {
      var og := outGroups[k];
      if og !in connected {
        var more := EdgesToOutGroup(range, numCrossEdges, search(og), ranges[og].0);
        edges := edges + more;
      }
      assert outGroups[..k + 1][..k] == outGroups[..k];
    }
    assert outGroups[..|outGroups|] == outGroups;
  }

  /** The edge targets an edge list gives point p, in list order. */
  function Targets(edges: seq<(nat, nat)>, p: nat): (r: seq<nat>)
  {
    if edges == [] then []
    else Targets(edges[..|edges| - 1], p) + (if edges[|edges| - 1].0 == p then [edges[|edges| - 1].1] else [])
  }

  lemma {:induction false} TargetsMeans(edges: seq<(nat, nat)>, p: nat)
    ensures forall y :: y in Targets(edges, p) <==> (p, y) in edges
  {
    if edges != [] {
      TargetsMeans(edges[..|edges| - 1], p);
      assert edges == edges[..|edges| - 1] + [edges[|edges| - 1]];
    }
  }

  /**
   * build_cross_group_edges, "merge cross-group edges": the cross-group
   * neighbours of every point are appended to its adjacency list.
   */
  method MergeCrossEdges(neighbors: seq<seq<nat>>, cross: seq<seq<nat>>) returns (result: seq<seq<nat>>)
    requires |cross| <= |neighbors|
    ensures |result| == |neighbors|
    ensures forall p :: 0 <= p < |cross| ==> result[p] == neighbors[p] + cross[p]
    ensures forall p :: |cross| <= p < |neighbors| ==> result[p] == neighbors[p]
  {
    result := neighbors;
    for p := 0 to |cross|
      invariant |result| == |neighbors|
      invariant forall q :: 0 <= q < p ==> result[q] == neighbors[q] + cross[q]
      invariant forall q :: p <= q < |neighbors| ==> result[q] == neighbors[q]
    {
      var row := result[p];
      for k := 0 to |cross[p]|
        invariant row == neighbors[p] + cross[p][..k]
      {
        row := row + [cross[p][k]];
      }
      assert cross[p][..|cross[p]|] == cross[p];
      result := result[p := row];
    }
  }

  lemma {:induction false} TargetsAppend(a: seq<(nat, nat)>, b: seq<(nat, nat)>, p: nat)
    ensures Targets(a + b, p) == Targets(a, p) + Targets(b, p)
    decreases |b|
  {
    if b != [] {
      var init := b[..|b| - 1];
      TargetsAppend(a, init, p);
      assert (a + b)[..|a + b| - 1] == a + init;
    } else {
      assert a + b == a;
    }
  }

  /** The inner loop of the additional-edge merge: each edge (from, to) appends to to from's list. */
  method AppendEdges(neighbors: seq<seq<nat>>, edges: seq<(nat, nat)>) returns (result: seq<seq<nat>>)
    requires forall k :: 0 <= k < |edges| ==> edges[k].0 < |neighbors|
    ensures |result| == |neighbors|
    ensures forall p :: 0 <= p < |neighbors| ==> result[p] == neighbors[p] + Targets(edges, p)
  {
    result := neighbors;
    for k := 0 to |edges|
      invariant |result| == |neighbors|
      invariant forall p :: 0 <= p < |neighbors| ==> result[p] == neighbors[p] + Targets(edges[..k], p)
    {
      var (from, to) := edges[k];
      assert edges[..k + 1][..k] == edges[..k];
      result := result[from := result[from] + [to]];
    }
    assert edges[..|edges|] == edges;
  }

  /**
   * build_cross_group_edges, "merge additional cross-group edges": for groups
   * 1..numGroups in order, each additional edge (from, to) appends to to
   * from's adjacency list. (The source runs the groups in parallel; the
   * sources of one group's edges are that group's own points, so the result
   * does not depend on the schedule.)
   */
  method MergeAdditionalEdges(neighbors: seq<seq<nat>>, additional: seq<seq<(nat, nat)>>, numGroups: nat)
    returns (result: seq<seq<nat>>)
    requires numGroups < |additional|
    requires forall g, k :: 1 <= g <= numGroups && 0 <= k < |additional[g]| ==> additional[g][k].0 < |neighbors|
    ensures |result| == |neighbors|
    ensures forall p :: 0 <= p < |neighbors| ==>
      result[p] == neighbors[p] + Targets(Flatten(additional[1..numGroups + 1]), p)
  {
    result := neighbors;
    for g := 1 to numGroups + 1
      invariant |result| == |neighbors|
      invariant forall p :: 0 <= p < |neighbors| ==> result[p] == neighbors[p] + Targets(Flatten(additional[1..g]), p)
    {
      ghost var before := result;
      result := AppendEdges(result, additional[g]);
      assert additional[1..g + 1][..g - 1] == additional[1..g];
      assert Flatten(additional[1..g + 1]) == Flatten(additional[1..g]) + additional[g];
      forall p | 0 <= p < |neighbors|
        ensures result[p] == neighbors[p] + Targets(Flatten(additional[1..g + 1]), p)
      {
        TargetsAppend(Flatten(additional[1..g]), additional[g], p);
      }
    }
  }

  /**
   * The adjacency list of point p after build_cross_group_edges: its group
   * graph's neighbours shifted to global ids, then its cross-group neighbours,
   * then the additional edges that start at p, in group order.
   */
  method FinishCrossGroupEdges(neighbors: seq<seq<nat>>, ranges: seq<(nat, nat)>, groupOf: seq<nat>,
                               cross: seq<seq<nat>>, additional: seq<seq<(nat, nat)>>, numGroups: nat)
    returns (result: seq<seq<nat>>)
    requires |groupOf| == |neighbors| == |cross|
    requires forall i :: 0 <= i < |groupOf| ==> groupOf[i] < |ranges|
    requires numGroups < |additional|
    requires forall g, k :: 1 <= g <= numGroups && 0 <= k < |additional[g]| ==> additional[g][k].0 < |neighbors|
    ensures |result| == |neighbors|
    ensures forall p :: 0 <= p < |neighbors| ==>
      result[p] == Shifted(neighbors[p], ranges[groupOf[p]].0) + cross[p] +
                   Targets(Flatten(additional[1..numGroups + 1]), p)
  {
    var shifted := AddOffset(neighbors, ranges, groupOf);
    var merged := MergeCrossEdges(shifted, cross);
    result := MergeAdditionalEdges(merged, additional, numGroups);
  }

  // ---------------------------------------------------------------------
  // Entry points
  // ---------------------------------------------------------------------

  /** The filter scenarios a query can be answered under. */
  datatype Scenario = Equality | Containment | Overlap | NoFilter

  /**
   * The state get_entry_points threads through its groups: the entry points so
   * far, the visited set, and how many values of rand() have been drawn.
   */
  datatype Sampling = Sampling(entryPoints: seq<nat>, visited: set<nat>, calls: nat)

  /**
   * The sampling loop of get_entry_points_given_group_id for i = from..count-1,
   * as the source writes it: the i-th draw picks ep = rand() % size + first,
   * and when ep is new it is marked visited but the id pushed is i + first.
   */
  function SampleAsWritten(first: nat, size: nat, count: nat, draws: nat -> nat, i: nat, s: Sampling): (r: Sampling)
    requires size > 0
    ensures r.calls == s.calls + (if i < count then count - i else 0)
    ensures |s.entryPoints| <= |r.entryPoints| && r.entryPoints[..|s.entryPoints|] == s.entryPoints
    ensures s.visited <= r.visited
    decreases count - i
  {
    if i >= count then s
    else
      var ep := draws(s.calls) % size + first;
      SampleAsWritten(first, size, count, draws, i + 1,
        if ep in s.visited then s.(calls := s.calls + 1)
        else Sampling(s.entryPoints + [i + first], s.visited + {ep}, s.calls + 1))
  }

  /** The sampling loop with the sampled id ep itself pushed. */
  function Sample(first: nat, size: nat, count: nat, draws: nat -> nat, i: nat, s: Sampling): Sampling
    requires size > 0
    decreases count - i
  {
    if i >= count then s
    else
      var ep := draws(s.calls) % size + first;
      Sample(first, size, count, draws, i + 1,
        if ep in s.visited then s.(calls := s.calls + 1)
        else Sampling(s.entryPoints + [ep], s.visited + {ep}, s.calls + 1))
  }

  /**
   * get_entry_points_given_group_id as written: a group of at most count
   * points contributes all of them (without marking them visited); a larger
   * one contributes its entry point gep and then up to count-1 sampled points.
   */
  function EntryPointsGivenGroupAsWritten(range: (nat, nat), gep: nat, count: nat,
                                          draws: nat -> nat, s: Sampling): (r: Sampling)
    requires range.0 <= range.1
    ensures |s.entryPoints| <= |r.entryPoints| && r.entryPoints[..|s.entryPoints|] == s.entryPoints
    ensures s.visited <= r.visited
    ensures range.1 - range.0 > count ==> |s.entryPoints| < |r.entryPoints| && r.entryPoints[|s.entryPoints|] == gep
  {
    if range.1 - range.0 <= count then s.(entryPoints := s.entryPoints + Range(range.0, range.1))
    else SampleAsWritten(range.0, range.1 - range.0, count, draws, 1,
                         Sampling(s.entryPoints + [gep], s.visited + {gep}, s.calls))
  }

  /** get_entry_points_given_group_id with the sampled point pushed. */
  function EntryPointsGivenGroup(range: (nat, nat), gep: nat, count: nat,
                                 draws: nat -> nat, s: Sampling): (r: Sampling)
    requires range.0 <= range.1
    ensures |s.entryPoints| <= |r.entryPoints| && r.entryPoints[..|s.entryPoints|] == s.entryPoints
    ensures s.visited <= r.visited
    ensures range.1 - range.0 > count ==> |s.entryPoints| < |r.entryPoints| && r.entryPoints[|s.entryPoints|] == gep
  {
    if range.1 - range.0 <= count then s.(entryPoints := s.entryPoints + Range(range.0, range.1))
    else
      var start := Sampling(s.entryPoints + [gep], s.visited + {gep}, s.calls);
      SampleMeans(range.0, range.1 - range.0, count, draws, 1, start);
      Sample(range.0, range.1 - range.0, count, draws, 1, start)
  }

  /**
   * For a group of three points (new ids 0..2) with entry point 1 and two
   * entry points asked for, a first draw of 2 makes the code push 1 a second
   * time, while point 2 is marked visited and never pushed.
   */
  lemma EntryPointsGivenGroupAsWrittenRepeats()
    ensures EntryPointsGivenGroupAsWritten((0, 3), 1, 2, k => 2, Sampling([], {}, 0)).entryPoints == [1, 1]
    ensures EntryPointsGivenGroup((0, 3), 1, 2, k => 2, Sampling([], {}, 0)).entryPoints == [1, 2]
  {
  }

  /** The sampled ids of the as-written loop are i + first for i < count, so they stay in the group. */
  lemma {:induction false} SampleAsWrittenInRange(first: nat, size: nat, count: nat, draws: nat -> nat, i: nat, s: Sampling)
    requires size > 0 && count <= size
    ensures var r := SampleAsWritten(first, size, count, draws, i, s);
      |s.entryPoints| <= |r.entryPoints| && r.entryPoints[..|s.entryPoints|] == s.entryPoints &&
      forall k :: |s.entryPoints| <= k < |r.entryPoints| ==> first <= r.entryPoints[k] < first + size
    decreases count - i
  {
    if i < count {
      var ep := draws(s.calls) % size + first;
      var next := if ep in s.visited then s.(calls := s.calls + 1)
        else Sampling(s.entryPoints + [i + first], s.visited + {ep}, s.calls + 1);
      SampleAsWrittenInRange(first, size, count, draws, i + 1, next);
      var r := SampleAsWritten(first, size, count, draws, i, s);
      forall k | |s.entryPoints| <= k < |next.entryPoints|
        ensures first <= r.entryPoints[k] < first + size
      {
        assert r.entryPoints[k] == r.entryPoints[..|next.entryPoints|][k] == next.entryPoints[k];
      }
    }
  }

  /**
   * The corrected sampling loop: every pushed id is a fresh point of the
   * group, pushed ids are distinct and marked visited, at most count - i of
   * them are pushed, and one rand() value is drawn per round.
   */
  lemma {:induction false} SampleMeans(first: nat, size: nat, count: nat, draws: nat -> nat, i: nat, s: Sampling)
    requires size > 0
    ensures var r := Sample(first, size, count, draws, i, s);
      |s.entryPoints| <= |r.entryPoints| <= |s.entryPoints| + (if i < count then count - i else 0) &&
      r.entryPoints[..|s.entryPoints|] == s.entryPoints &&
      s.visited <= r.visited &&
      r.calls == s.calls + (if i < count then count - i else 0) &&
      (forall k :: |s.entryPoints| <= k < |r.entryPoints| ==>
        first <= r.entryPoints[k] < first + size && r.entryPoints[k] in r.visited && r.entryPoints[k] !in s.visited) &&
      (forall k, l :: |s.entryPoints| <= k < l < |r.entryPoints| ==> r.entryPoints[k] != r.entryPoints[l])
    decreases count - i
  {
    if i < count {
      var ep := draws(s.calls) % size + first;
      var next := if ep in s.visited then s.(calls := s.calls + 1)
        else Sampling(s.entryPoints + [ep], s.visited + {ep}, s.calls + 1);
      SampleMeans(first, size, count, draws, i + 1, next);
      var r := Sample(first, size, count, draws, i, s);
      assert r.entryPoints[..|next.entryPoints|] == next.entryPoints;
      assert r.entryPoints[..|s.entryPoints|] == next.entryPoints[..|s.entryPoints|];
      if ep !in s.visited {
        assert r.entryPoints[|s.entryPoints|] == ep;
      }
    }
  }

  /**
   * What a group adds: a group of at most count points all its points in
   * order; a larger one its entry point gep followed by distinct sampled
   * points, at most count in all (gep alone when count is 0), all in the
   * group and marked visited.
   */
  lemma EntryPointsGivenGroupMeans(range: (nat, nat), gep: nat, count: nat, draws: nat -> nat, s: Sampling)
    requires range.0 <= range.1
    requires range.1 - range.0 > count ==> range.0 <= gep < range.1
    ensures var r := EntryPointsGivenGroup(range, gep, count, draws, s);
      |s.entryPoints| <= |r.entryPoints| && r.entryPoints[..|s.entryPoints|] == s.entryPoints
    ensures var r := EntryPointsGivenGroup(range, gep, count, draws, s);
      var added := r.entryPoints[|s.entryPoints|..];
      (range.1 - range.0 <= count ==> added == Range(range.0, range.1) && r.visited == s.visited) &&
      (range.1 - range.0 > count ==> |added| >= 1 && added[0] == gep && (forall x :: x in added ==> x in r.visited)) &&
      |added| <= (if count == 0 then 1 else count) &&
      (range.0 < range.1 ==> |added| >= 1) &&
      (forall x :: x in added ==> range.0 <= x < range.1) &&
      Distinct(added)
  {
    var r := EntryPointsGivenGroup(range, gep, count, draws, s);
    if range.1 - range.0 > count {
      var size := range.1 - range.0;
      var start := Sampling(s.entryPoints + [gep], s.visited + {gep}, s.calls);
      SampleMeans(range.0, size, count, draws, 1, start);
      assert r.entryPoints[..|start.entryPoints|] == start.entryPoints;
      assert r.entryPoints[..|s.entryPoints|] == start.entryPoints[..|s.entryPoints|];
      var added := r.entryPoints[|s.entryPoints|..];
      assert added[0] == gep;
      forall k | 1 <= k < |added| ensures added[k] != gep && range.0 <= added[k] < range.1 && added[k] in r.visited {
        assert added[k] == r.entryPoints[|start.entryPoints| + k - 1];
      }
      forall k, l | 0 <= k < l < |added| ensures added[k] != added[l] {
        assert added[l] == r.entryPoints[|s.entryPoints| + l];
        if k > 0 {
          assert added[k] == r.entryPoints[|s.entryPoints| + k];
        }
      }
    } else {
      assert r.entryPoints[|s.entryPoints|..] == Range(range.0, range.1);
    }
  }

  /** The corrected sampling loop of get_entry_points_given_group_id, rounds i = 1..count-1. */
  method SampleEntryPoints(first: nat, size: nat, count: nat, draws: nat -> nat, s: Sampling)
    returns (r: Sampling)
    requires size > 0
    ensures r == Sample(first, size, count, draws, 1, s)
  {
    r := s;
    var i := 1;
    while i < count
      invariant Sample(first, size, count, draws, 1, s) == Sample(first, size, count, draws, i, r)
      decreases count - i
    {
      var ep := draws(r.calls) % size + first;
      if ep !in r.visited {
        r := Sampling(r.entryPoints + [ep], r.visited + {ep}, r.calls + 1);
      } else {
        r := r.(calls := r.calls + 1);
      }
      i := i + 1;
    }
  }

  /**
   * get_entry_points_given_group_id (with the sampled point pushed): the
   * entry points a group with new ids range and entry point gep adds.
   */
  /** The loop pushing every point of a small group: ids first, ..., first + size - 1. */
  method AppendGroup(entryPoints: seq<nat>, first: nat, size: nat) returns (r: seq<nat>)
    ensures r == entryPoints + Range(first, first + size)
  {
    r := entryPoints;
    for k := 0 to size
      invariant r == entryPoints + Range(first, first + k)
    {
      assert Range(first, first + k + 1) == Range(first, first + k) + [first + k];
      r := r + [k + first];
    }
  }

  method GetEntryPointsGivenGroup(range: (nat, nat), gep: nat, count: nat, draws: nat -> nat, s: Sampling)
    returns (r: Sampling)
    requires range.0 <= range.1
    ensures r == EntryPointsGivenGroup(range, gep, count, draws, s)
  {
    var size := range.1 - range.0;
    if size <= count {
      var entryPoints := AppendGroup(s.entryPoints, range.0, size);
      r := s.(entryPoints := entryPoints);
    } else {
      r := Sampling(s.entryPoints + [gep], s.visited + {gep}, s.calls);
      r := SampleEntryPoints(range.0, size, count, draws, r);
    }
  }

  /** The entry points of the groups in order, each group continuing the state of the last. */
  function EntryPointsOfGroups(groups: seq<nat>, ranges: seq<(nat, nat)>, geps: seq<nat>, count: nat,
                               draws: nat -> nat, s: Sampling): Sampling
    requires forall k :: 0 <= k < |groups| ==> groups[k] < |ranges| && groups[k] < |geps|
    requires forall g :: 0 <= g < |ranges| ==> ranges[g].0 <= ranges[g].1
  {
    if groups == [] then s
    else EntryPointsOfGroups(groups[1..], ranges, geps, count, draws,
                             EntryPointsGivenGroup(ranges[groups[0]], geps[groups[0]], count, draws, s))
  }

  /**
   * get_entry_points: with the visited set cleared, the entry points of the
   * exact-match group (equality; none when the trie has no such label set) or
   * of every minimum superset group in order (containment). Other scenarios
   * are an error (the source exits).
   */
  function EntryPoints(scenario: Scenario, exact: Option<nat>, minSuperSets: seq<nat>,
                       ranges: seq<(nat, nat)>, geps: seq<nat>, count: nat,
                       draws: nat -> nat, calls: nat): (r: Option<Sampling>)
    requires exact.Some? ==> exact.value < |ranges| && exact.value < |geps|
    requires forall k :: 0 <= k < |minSuperSets| ==> minSuperSets[k] < |ranges| && minSuperSets[k] < |geps|
    requires forall g :: 0 <= g < |ranges| ==> ranges[g].0 <= ranges[g].1
    ensures r.Some? <==> scenario == Equality || scenario == Containment
    ensures scenario == Equality && exact.None? ==> r == Some(Sampling([], {}, calls))
  {
    var start := Sampling([], {}, calls);
    match scenario
    case Equality =>
      if exact.None? then Some(start)
      else Some(EntryPointsGivenGroup(ranges[exact.value], geps[exact.value], count, draws, start))
    case Containment => Some(EntryPointsOfGroups(minSuperSets, ranges, geps, count, draws, start))
    case _ => None
  }

  /** get_entry_points, proved against EntryPoints. */
  method GetEntryPoints(scenario: Scenario, exact: Option<nat>, minSuperSets: seq<nat>,
                        ranges: seq<(nat, nat)>, geps: seq<nat>, count: nat,
                        draws: nat -> nat, calls: nat) returns (r: Option<Sampling>)
    requires exact.Some? ==> exact.value < |ranges| && exact.value < |geps|
    requires forall k :: 0 <= k < |minSuperSets| ==> minSuperSets[k] < |ranges| && minSuperSets[k] < |geps|
    requires forall g :: 0 <= g < |ranges| ==> ranges[g].0 <= ranges[g].1
    ensures r == EntryPoints(scenario, exact, minSuperSets, ranges, geps, count, draws, calls)
  {
    var s := Sampling([], {}, calls);
    if scenario == Equality {
      if exact.None? {
        return Some(s);
      }
      s := GetEntryPointsGivenGroup(ranges[exact.value], geps[exact.value], count, draws, s);
      return Some(s);
    } else if scenario == Containment {
      for k := 0 to |minSuperSets|
        invariant EntryPointsOfGroups(minSuperSets, ranges, geps, count, draws, Sampling([], {}, calls)) ==
                  EntryPointsOfGroups(minSuperSets[k..], ranges, geps, count, draws, s)
      {
        assert minSuperSets[k..][1..] == minSuperSets[k + 1..];
        s := GetEntryPointsGivenGroup(ranges[minSuperSets[k]], geps[minSuperSets[k]], count, draws, s);
      }
      return Some(s);
    }
    return None;
  }

  /** Every nonempty group's entry point is one of its own points. */
  ghost predicate EntryPointsInGroups(ranges: seq<(nat, nat)>, geps: seq<nat>)
  {
    forall g :: 0 <= g < |ranges| && g < |geps| && ranges[g].0 < ranges[g].1 ==> ranges[g].0 <= geps[g] < ranges[g].1
  }

  lemma {:induction false} EntryPointsOfGroupsMeans(groups: seq<nat>, ranges: seq<(nat, nat)>, geps: seq<nat>,
                                                    count: nat, draws: nat -> nat, s: Sampling)
    requires forall k :: 0 <= k < |groups| ==> groups[k] < |ranges| && groups[k] < |geps|
    requires forall g :: 0 <= g < |ranges| ==> ranges[g].0 <= ranges[g].1
    requires EntryPointsInGroups(ranges, geps)
    ensures var r := EntryPointsOfGroups(groups, ranges, geps, count, draws, s);
      |s.entryPoints| <= |r.entryPoints| && r.entryPoints[..|s.entryPoints|] == s.entryPoints &&
      (forall k :: |s.entryPoints| <= k < |r.entryPoints| ==>
        exists j :: 0 <= j < |groups| && ranges[groups[j]].0 <= r.entryPoints[k] < ranges[groups[j]].1) &&
      ((forall k :: 0 <= k < |groups| ==> ranges[groups[k]].0 < ranges[groups[k]].1) ==>
        (|r.entryPoints| == |s.entryPoints| <==> groups == []))
  {
    if groups != [] {
      var g := groups[0];
      var next := EntryPointsGivenGroup(ranges[g], geps[g], count, draws, s);
      EntryPointsGivenGroupMeans(ranges[g], geps[g], count, draws, s);
      EntryPointsOfGroupsMeans(groups[1..], ranges, geps, count, draws, next);
      var r := EntryPointsOfGroups(groups, ranges, geps, count, draws, s);
      assert r.entryPoints[..|s.entryPoints|] == next.entryPoints[..|s.entryPoints|];
      forall k | |s.entryPoints| <= k < |r.entryPoints|
        ensures exists j :: 0 <= j < |groups| && ranges[groups[j]].0 <= r.entryPoints[k] < ranges[groups[j]].1
      {
        if k < |next.entryPoints| {
          assert r.entryPoints[k] == next.entryPoints[k];
          assert r.entryPoints[k] in next.entryPoints[|s.entryPoints|..];
          assert ranges[groups[0]].0 <= r.entryPoints[k] < ranges[groups[0]].1;
        } else {
          var j :| 0 <= j < |groups[1..]| && ranges[groups[1..][j]].0 <= r.entryPoints[k] < ranges[groups[1..][j]].1;
          assert groups[1..][j] == groups[j + 1];
        }
      }
      if forall k :: 0 <= k < |groups| ==> ranges[groups[k]].0 < ranges[groups[k]].1 {
        assert ranges[groups[0]].0 < ranges[groups[0]].1;
      }
    }
  }

  /**
   * get_entry_points finds none exactly when there is no exact-match group
   * (equality) or no minimum superset group (containment), given nonempty
   * groups; every entry point lies in one of those groups.
   */
  lemma EntryPointsMeans(scenario: Scenario, exact: Option<nat>, minSuperSets: seq<nat>,
                         ranges: seq<(nat, nat)>, geps: seq<nat>, count: nat,
                         draws: nat -> nat, calls: nat)
    requires exact.Some? ==> exact.value < |ranges| && exact.value < |geps|
    requires forall k :: 0 <= k < |minSuperSets| ==> minSuperSets[k] < |ranges| && minSuperSets[k] < |geps|
    requires forall g :: 0 <= g < |ranges| ==> ranges[g].0 <= ranges[g].1
    requires EntryPointsInGroups(ranges, geps)
    ensures var r := EntryPoints(scenario, exact, minSuperSets, ranges, geps, count, draws, calls);
      r.Some? <==> scenario == Equality || scenario == Containment
    ensures scenario == Equality ==>
      var r := EntryPoints(scenario, exact, minSuperSets, ranges, geps, count, draws, calls).value;
      (forall x :: x in r.entryPoints ==> ranges[exact.value].0 <= x < ranges[exact.value].1) &&
      (exact.Some? && ranges[exact.value].0 < ranges[exact.value].1 ==> r.entryPoints != []) &&
      (exact.None? ==> r.entryPoints == [])
    ensures scenario == Containment ==>
      var r := EntryPoints(scenario, exact, minSuperSets, ranges, geps, count, draws, calls).value;
      (forall x :: x in r.entryPoints ==>
        exists j :: 0 <= j < |minSuperSets| && ranges[minSuperSets[j]].0 <= x < ranges[minSuperSets[j]].1) &&
      ((forall k :: 0 <= k < |minSuperSets| ==> ranges[minSuperSets[k]].0 < ranges[minSuperSets[k]].1) ==>
        (r.entryPoints == [] <==> minSuperSets == []))
  {
    var start := Sampling([], {}, calls);
    if scenario == Equality && exact.Some? {
      var g := exact.value;
      EqualityPoints(ranges[g], geps[g], count, draws, start);
    } else if scenario == Containment {
      ContainmentPoints(minSuperSets, ranges, geps, count, draws, start);
    }
  }

  /** Equality, from an empty start: the entry points lie in the group, and a nonempty group gives some. */
  lemma EqualityPoints(range: (nat, nat), gep: nat, count: nat, draws: nat -> nat, start: Sampling)
    requires range.0 <= range.1 && (range.0 < range.1 ==> range.0 <= gep < range.1)
    requires start.entryPoints == []
    ensures var r := EntryPointsGivenGroup(range, gep, count, draws, start);
      (forall x :: x in r.entryPoints ==> range.0 <= x < range.1) &&
      (range.0 < range.1 ==> r.entryPoints != [])
  {
    EntryPointsGivenGroupMeans(range, gep, count, draws, start);
    var r := EntryPointsGivenGroup(range, gep, count, draws, start);
    assert r.entryPoints[0..] == r.entryPoints;
  }

  /** Containment, from an empty start: every entry point lies in a minimum superset group, and
      with nonempty groups there are none exactly when there is no such group. */
  lemma ContainmentPoints(groups: seq<nat>, ranges: seq<(nat, nat)>, geps: seq<nat>,
                          count: nat, draws: nat -> nat, start: Sampling)
    requires forall k :: 0 <= k < |groups| ==> groups[k] < |ranges| && groups[k] < |geps|
    requires forall g :: 0 <= g < |ranges| ==> ranges[g].0 <= ranges[g].1
    requires EntryPointsInGroups(ranges, geps)
    requires start.entryPoints == []
    ensures var r := EntryPointsOfGroups(groups, ranges, geps, count, draws, start);
      (forall x :: x in r.entryPoints ==>
        exists j :: 0 <= j < |groups| && ranges[groups[j]].0 <= x < ranges[groups[j]].1) &&
      ((forall k :: 0 <= k < |groups| ==> ranges[groups[k]].0 < ranges[groups[k]].1) ==>
        (r.entryPoints == [] <==> groups == []))
  {
    EntryPointsOfGroupsMeans(groups, ranges, geps, count, draws, start);
    var r := EntryPointsOfGroups(groups, ranges, geps, count, draws, start);
    forall x | x in r.entryPoints
      ensures exists j :: 0 <= j < |groups| && ranges[groups[j]].0 <= x < ranges[groups[j]].1
    {
      var k :| 0 <= k < |r.entryPoints| && r.entryPoints[k] == x;
    }
  }

  // ---------------------------------------------------------------------
  // The hybrid switch between the global graph and the groups
  // ---------------------------------------------------------------------

  /** The union of sets[g] over the entry groups g with 0 < g <= numGroups. */
  function UnionOver(sets: seq<set<nat>>, groups: seq<nat>, numGroups: nat): set<nat>
    requires numGroups < |sets|
  {
    if groups == [] then {}
    else
      var g := groups[|groups| - 1];
      UnionOver(sets, groups[..|groups| - 1], numGroups) + (if 0 < g <= numGroups then sets[g] else {})
  }

  lemma {:induction false} UnionOverMeans(sets: seq<set<nat>>, groups: seq<nat>, numGroups: nat)
    requires numGroups < |sets|
    ensures forall x :: x in UnionOver(sets, groups, numGroups) <==>
      exists k :: 0 <= k < |groups| && 0 < groups[k] <= numGroups && x in sets[groups[k]]
  {
    if groups != [] {
      var init := groups[..|groups| - 1];
      UnionOverMeans(sets, init, numGroups);
      forall x | x in UnionOver(sets, groups, numGroups)
        ensures exists k :: 0 <= k < |groups| && 0 < groups[k] <= numGroups && x in sets[groups[k]]
      {
        if x in UnionOver(sets, init, numGroups) {
          var k :| 0 <= k < |init| && 0 < init[k] <= numGroups && x in sets[init[k]];
          assert groups[k] == init[k];
        }
      }
      forall x | exists k :: 0 <= k < |groups| && 0 < groups[k] <= numGroups && x in sets[groups[k]]
        ensures x in UnionOver(sets, groups, numGroups)
      {
        var k :| 0 <= k < |groups| && 0 < groups[k] <= numGroups && x in sets[groups[k]];
        if k < |init| {
          assert init[k] == groups[k];
        }
      }
    }
  }

  /** The roaring-bitmap merges of search_hybrid: the union over the valid entry groups. */
  method MergeGroupSets(sets: seq<set<nat>>, groups: seq<nat>, numGroups: nat) returns (merged: set<nat>)
    requires numGroups < |sets|
    ensures merged == UnionOver(sets, groups, numGroups)
  {
    merged := {};
    for k := 0 to |groups|
      invariant merged == UnionOver(sets, groups[..k], numGroups)
    {
      assert groups[..k + 1][..k] == groups[..k];
      if 0 < groups[k] <= numGroups {
        merged := merged + sets[groups[k]];
      }
    }
    assert groups[..|groups|] == groups;
  }

  /**
   * The switch of search_hybrid in integers: the global graph is searched when
   * the entry groups cover more than 80% of the points or have more than
   * floor(numPoints / 2.5) descendants, and never for the original UNG.
   */
  function UseGlobalSearch(numDescendants: nat, numCovered: nat, numPoints: nat, isOriUng: bool): (r: bool)
    ensures isOriUng ==> !r
    ensures !isOriUng && 0 < numPoints <= numCovered ==> r
  {
    !isOriUng && (5 * numCovered > 4 * numPoints || numDescendants > (2 * numPoints) / 5)
  }

  /** The integer thresholds are the source's, read over the reals. */
  lemma UseGlobalSearchThresholds(numCovered: nat, numPoints: nat)
    requires numPoints > 0
    ensures (5 * numCovered > 4 * numPoints) <==> (numCovered as real) / (numPoints as real) > 0.8
    ensures ((numPoints as real) / 2.5).Floor == (2 * numPoints) / 5
  {
    RatioAbove(numCovered as real, numPoints as real, 0.8);
    var q := (2 * numPoints) / 5;
    assert (numPoints as real) / 2.5 == (2 * numPoints) as real / 5.0;
    assert q as real <= (2 * numPoints) as real / 5.0 < (q + 1) as real;
  }

  lemma RatioAbove(c: real, n: real, t: real)
    requires n > 0.0
    ensures c / n > t <==> c > t * n
  {
    var r := c / n;
    assert c == r * n;
    if r > t {
      assert (r - t) * n > 0.0;
    } else {
      assert (t - r) * n >= 0.0;
    }
  }

  /**
   * Flag computation of search_hybrid: it merges the entry groups' descendant
   * and coverage sets and decides whether to search the global graph.
   */
  method HybridFlag(descendants: seq<set<nat>>, covered: seq<set<nat>>, entryGroups: seq<nat>,
                    numGroups: nat, numPoints: nat, isOriUng: bool)
    returns (useGlobal: bool, numDescendants: nat, numCovered: nat)
    requires numGroups < |descendants| && numGroups < |covered|
    ensures numDescendants == |UnionOver(descendants, entryGroups, numGroups)|
    ensures numCovered == |UnionOver(covered, entryGroups, numGroups)|
    ensures useGlobal == UseGlobalSearch(numDescendants, numCovered, numPoints, isOriUng)
  {
    var desc := MergeGroupSets(descendants, entryGroups, numGroups);
    var cov := MergeGroupSets(covered, entryGroups, numGroups);
    numDescendants := |desc|;
    numCovered := |cov|;
    useGlobal := 5 * numCovered > 4 * numPoints || numDescendants > (2 * numPoints) / 5;
    if isOriUng {
      useGlobal := false;
    }
  }

  /** More entry groups can only turn the global search on: the merged sets only grow. */
  lemma UseGlobalSearchMonotone(descendants: seq<set<nat>>, covered: seq<set<nat>>, groups: seq<nat>,
                                more: seq<nat>, numGroups: nat, numPoints: nat, isOriUng: bool)
    requires numGroups < |descendants| && numGroups < |covered|
    requires UseGlobalSearch(|UnionOver(descendants, groups, numGroups)|, |UnionOver(covered, groups, numGroups)|,
                             numPoints, isOriUng)
    ensures UseGlobalSearch(|UnionOver(descendants, groups + more, numGroups)|,
                            |UnionOver(covered, groups + more, numGroups)|, numPoints, isOriUng)
  {
    UnionOverGrows(descendants, groups, more, numGroups);
    UnionOverGrows(covered, groups, more, numGroups);
    SubsetCard(UnionOver(descendants, groups, numGroups), UnionOver(descendants, groups + more, numGroups));
    SubsetCard(UnionOver(covered, groups, numGroups), UnionOver(covered, groups + more, numGroups));
  }

  lemma {:induction false} UnionOverGrows(sets: seq<set<nat>>, groups: seq<nat>, more: seq<nat>, numGroups: nat)
    requires numGroups < |sets|
    ensures UnionOver(sets, groups, numGroups) <= UnionOver(sets, groups + more, numGroups)
  {
    if more == [] {
      assert groups + more == groups;
    } else {
      var init := more[..|more| - 1];
      UnionOverGrows(sets, groups, init, numGroups);
      assert (groups + more)[..|groups + more| - 1] == groups + init;
    }
  }

  lemma SubsetCard(a: set<nat>, b: set<nat>)
    requires a <= b
    ensures |a| <= |b|
  {
    assert b == a + (b - a);
  }

  // ---------------------------------------------------------------------
  // The post-filter of the global search
  // ---------------------------------------------------------------------

  /**
   * Whether the global search keeps a candidate with label set candLabels:
   * under equality its labels must be the query's; when the query has an
   * attribute bitmap that covers the candidate's id, the bitmap decides under
   * containment and must also agree under the other scenarios.
   */
  function Valid(scenario: Scenario, candLabels: seq<nat>, query: seq<nat>, bitmap: Option<set<nat>>, c: nat): bool
  {
    var base := scenario != Equality || candLabels == query;
    if bitmap.Some? && c < Bipartite.BITS then
      (if scenario == Containment then c in bitmap.value else base && c in bitmap.value)
    else base
  }

  /** The candidates of queue that Valid keeps, in queue order. */
  function ValidCandidates(queue: seq<nat>, labels: seq<seq<nat>>, query: seq<nat>,
                           scenario: Scenario, bitmap: Option<set<nat>>): seq<nat>
    requires forall k :: 0 <= k < |queue| ==> queue[k] < |labels|
  {
    if queue == [] then []
    else
      var c := queue[|queue| - 1];
      ValidCandidates(queue[..|queue| - 1], labels, query, scenario, bitmap) +
      (if Valid(scenario, labels[c], query, bitmap, c) then [c] else [])
  }

  lemma {:induction false} ValidCandidatesMeans(queue: seq<nat>, labels: seq<seq<nat>>, query: seq<nat>,
                                                scenario: Scenario, bitmap: Option<set<nat>>)
    requires forall k :: 0 <= k < |queue| ==> queue[k] < |labels|
    ensures forall c :: c in ValidCandidates(queue, labels, query, scenario, bitmap) <==>
      c in queue && Valid(scenario, labels[c], query, bitmap, c)
    ensures |ValidCandidates(queue, labels, query, scenario, bitmap)| <= |queue|
  {
    if queue != [] {
      var init := queue[..|queue| - 1];
      ValidCandidatesMeans(init, labels, query, scenario, bitmap);
      assert queue == init + [queue[|queue| - 1]];
    }
  }

  /**
   * The post-filter of search_hybrid's global branch: the first K valid
   * candidates of the search queue, in queue order.
   */
  method PostFilter(queue: seq<nat>, labels: seq<seq<nat>>, query: seq<nat>,
                    scenario: Scenario, bitmap: Option<set<nat>>, K: nat) returns (result: seq<nat>)
    requires forall k :: 0 <= k < |queue| ==> queue[k] < |labels|
    ensures result == Take(ValidCandidates(queue, labels, query, scenario, bitmap), K)
  {
    result := [];
    var k := 0;
    while k < |queue| && |result| < K
      invariant k <= |queue| && |result| <= K
      invariant result == ValidCandidates(queue[..k], labels, query, scenario, bitmap)
    {
      assert queue[..k + 1][..k] == queue[..k];
      var c := queue[k];
      if Valid(scenario, labels[c], query, bitmap, c) {
        result := result + [c];
      }
      k := k + 1;
    }
    ValidCandidatesPrefix(queue, k, labels, query, scenario, bitmap);
    if k == |queue| {
      assert queue[..k] == queue;
    }
  }

  /** The valid candidates of a prefix of the queue are a prefix of the valid candidates. */
  lemma {:induction false} ValidCandidatesPrefix(queue: seq<nat>, k: nat, labels: seq<seq<nat>>, query: seq<nat>,
                                                 scenario: Scenario, bitmap: Option<set<nat>>)
    requires k <= |queue|
    requires forall j :: 0 <= j < |queue| ==> queue[j] < |labels|
    ensures var pre := ValidCandidates(queue[..k], labels, query, scenario, bitmap);
      var all := ValidCandidates(queue, labels, query, scenario, bitmap);
      |pre| <= |all| && all[..|pre|] == pre
    decreases |queue| - k
  {
    if k < |queue| {
      var init := queue[..|queue| - 1];
      ValidCandidatesPrefix(init, k, labels, query, scenario, bitmap);
      assert init[..k] == queue[..k];
    } else {
      assert queue[..k] == queue;
    }
  }

  /**
   * With the bitmap of the query's attributes, the containment post-filter
   * keeps exactly the candidates whose label set includes every query label.
   */
  lemma ContainmentFilterMeans(labels: seq<seq<nat>>, query: seq<nat>, c: nat)
    requires c < |labels| && c < Bipartite.BITS
    ensures Valid(Containment, labels[c], query, Some(Bipartite.Having(labels, query)), c) <==>
      forall k :: 0 <= k < |query| ==> query[k] in labels[c]
  {
  }

  /** Under equality the post-filter keeps only candidates whose label set is the query's. */
  lemma EqualityFilterMeans(labels: seq<seq<nat>>, query: seq<nat>, bitmap: Option<set<nat>>, c: nat)
    requires c < |labels|
    ensures Valid(Equality, labels[c], query, bitmap, c) ==> labels[c] == query
    ensures bitmap.None? ==> (Valid(Equality, labels[c], query, bitmap, c) <==> labels[c] == query)
  {
  }

  // ---------------------------------------------------------------------
  // The K result slots of one query
  // ---------------------------------------------------------------------

  /** The original ids of found, in order, followed by -1 up to K entries. */
  function Answer(K: nat, found: seq<nat>, newToOld: seq<nat>): (r: seq<int>)
    requires forall k :: 0 <= k < |found| && k < K ==> found[k] < |newToOld|
    ensures |r| == K
    decreases K
  {
    if K == 0 then []
    else if found == [] then [-1] + Answer(K - 1, [], newToOld)
    else [newToOld[found[0]] as int] + Answer(K - 1, found[1..], newToOld)
  }

  lemma {:induction false} AnswerAt(K: nat, found: seq<nat>, newToOld: seq<nat>, k: nat)
    requires forall j :: 0 <= j < |found| && j < K ==> found[j] < |newToOld|
    requires k < K
    ensures Answer(K, found, newToOld)[k] == if k < |found| then newToOld[found[k]] as int else -1
    decreases K
  {
    if k > 0 {
      if found == [] {
        AnswerAt(K - 1, [], newToOld, k - 1);
      } else {
        AnswerAt(K - 1, found[1..], newToOld, k - 1);
      }
    }
  }

  /**
   * The result array after query id has written its block of K slots
   * id*K .. id*K+K-1; the rest of the array is as before.
   */
  function Slots(before: seq<int>, id: nat, K: nat, found: seq<nat>, newToOld: seq<nat>): (r: seq<int>)
    requires (id + 1) * K <= |before|
    requires forall k :: 0 <= k < |found| && k < K ==> found[k] < |newToOld|
    ensures |r| == |before|
    ensures forall j :: 0 <= j < |before| && (j < id * K || id * K + K <= j) ==> r[j] == before[j]
  {
    before[..id * K] + Answer(K, found, newToOld) + before[id * K + K..]
  }

  /**
   * Slot j after the write: within the query's block, the original id of the
   * k-th result (k = j - id*K) when there is one, else -1; outside it, the
   * old value.
   */
  lemma SlotsAt(before: seq<int>, id: nat, K: nat, found: seq<nat>, newToOld: seq<nat>, j: nat)
    requires (id + 1) * K <= |before|
    requires forall k :: 0 <= k < |found| && k < K ==> found[k] < |newToOld|
    requires j < |before|
    ensures Slots(before, id, K, found, newToOld)[j] ==
      if id * K <= j < id * K + K then (if j - id * K < |found| then newToOld[found[j - id * K]] as int else -1)
      else before[j]
  {
    if id * K <= j < id * K + K {
      AnswerAt(K, found, newToOld, j - id * K);
    }
  }

  /** Two different queries write disjoint blocks, so the order of their writes does not matter. */
  lemma SlotsCommute(before: seq<int>, id1: nat, id2: nat, K: nat, found1: seq<nat>, found2: seq<nat>,
                     newToOld: seq<nat>)
    requires id1 != id2 && (id1 + 1) * K <= |before| && (id2 + 1) * K <= |before|
    requires forall k :: 0 <= k < |found1| && k < K ==> found1[k] < |newToOld|
    requires forall k :: 0 <= k < |found2| && k < K ==> found2[k] < |newToOld|
    ensures Slots(Slots(before, id1, K, found1, newToOld), id2, K, found2, newToOld) ==
            Slots(Slots(before, id2, K, found2, newToOld), id1, K, found1, newToOld)
  {
    BlocksApart(id1, id2, K);
    var one := Slots(before, id1, K, found1, newToOld);
    var two := Slots(before, id2, K, found2, newToOld);
    var a := Slots(one, id2, K, found2, newToOld);
    var b := Slots(two, id1, K, found1, newToOld);
    forall j | 0 <= j < |before| ensures a[j] == b[j] {
      SlotsAt(before, id1, K, found1, newToOld, j);
      SlotsAt(before, id2, K, found2, newToOld, j);
      SlotsAt(one, id2, K, found2, newToOld, j);
      SlotsAt(two, id1, K, found1, newToOld, j);
    }
  }

  /** The blocks of two different queries do not overlap. */
  lemma BlocksApart(id1: nat, id2: nat, K: nat)
    requires id1 != id2
    ensures id1 * K + K <= id2 * K || id2 * K + K <= id1 * K
  {
    if id1 < id2 {
      var d: nat := id2 - id1 - 1;
      assert id2 * K == id1 * K + K + d * K;
    } else {
      var d: nat := id1 - id2 - 1;
      assert id1 * K == id2 * K + K + d * K;
    }
  }

  /** The "write results" loop of search and search_hybrid. */
  method WriteResults(results: array<int>, id: nat, K: nat, found: seq<nat>, newToOld: seq<nat>)
    requires (id + 1) * K <= results.Length
    requires forall k :: 0 <= k < |found| && k < K ==> found[k] < |newToOld|
    modifies results
    ensures results[..] == Slots(old(results[..]), id, K, found, newToOld)
  {
    ghost var before := results[..];
    ghost var answer := Answer(K, found, newToOld);
    for k := 0 to K
      invariant forall j :: 0 <= j < results.Length ==>
        results[j] == if id * K <= j < id * K + k then answer[j - id * K] else before[j]
    {
      AnswerAt(K, found, newToOld, k);
      if k < |found| {
        results[id * K + k] := newToOld[found[k]] as int;
      } else {
        results[id * K + k] := -1;
      }
    }
    assert results[..] == before[..id * K] + answer + before[id * K + K..];
  }

  /**
   * The slots search writes for an equality or containment query: -1 in every
   * slot when there are no entry points, else the search's results.
   */
  function SearchSlots(before: seq<int>, id: nat, K: nat, entryPoints: seq<nat>, found: seq<nat>,
                       newToOld: seq<nat>): (r: seq<int>)
    requires (id + 1) * K <= |before|
    requires forall k :: 0 <= k < |found| && k < K ==> found[k] < |newToOld|
    ensures |r| == |before|
    ensures forall j :: 0 <= j < |before| && (j < id * K || id * K + K <= j) ==> r[j] == before[j]
  {
    if entryPoints == [] then Slots(before, id, K, [], newToOld) else Slots(before, id, K, found, newToOld)
  }

  /**
   * The slots search_hybrid's group branch writes as the source has it: with
   * no entry points the loop moves on to the next query and writes nothing.
   */
  function HybridSlotsAsWritten(before: seq<int>, id: nat, K: nat, entryPoints: seq<nat>, found: seq<nat>,
                                newToOld: seq<nat>): (r: seq<int>)
    requires (id + 1) * K <= |before|
    requires forall k :: 0 <= k < |found| && k < K ==> found[k] < |newToOld|
    ensures |r| == |before|
    ensures forall j :: 0 <= j < |before| && (j < id * K || id * K + K <= j) ==> r[j] == before[j]
  {
    if entryPoints == [] then before else Slots(before, id, K, found, newToOld)
  }

  /**
   * A query without entry points keeps whatever its slot held before (here 7)
   * under search_hybrid, where search reports -1.
   */
  lemma HybridSlotsAsWrittenStale()
    ensures HybridSlotsAsWritten([7], 0, 1, [], [], []) == [7]
    ensures SearchSlots([7], 0, 1, [], [], []) == [-1]
  {
  }

  /** Every slot of a query without entry points reads "no result" in search (and the corrected hybrid). */
  lemma SearchSlotsEmpty(before: seq<int>, id: nat, K: nat, found: seq<nat>, newToOld: seq<nat>)
    requires (id + 1) * K <= |before|
    requires forall k :: 0 <= k < |found| && k < K ==> found[k] < |newToOld|
    ensures var r := SearchSlots(before, id, K, [], found, newToOld);
      forall j :: id * K <= j < id * K + K ==> r[j] == -1
  {
    forall j | id * K <= j < id * K + K ensures SearchSlots(before, id, K, [], found, newToOld)[j] == -1 {
      SlotsAt(before, id, K, [], newToOld, j);
    }
  }

  /**
   * The group branch of search and of search_hybrid (corrected) for one
   * equality or containment query: with no entry points every slot is set to
   * -1, else the search's results are written.
   */
  method AnswerQuery(results: array<int>, id: nat, K: nat, entryPoints: seq<nat>, found: seq<nat>,
                     newToOld: seq<nat>)
    requires (id + 1) * K <= results.Length
    requires forall k :: 0 <= k < |found| && k < K ==> found[k] < |newToOld|
    modifies results
    ensures results[..] == SearchSlots(old(results[..]), id, K, entryPoints, found, newToOld)
  {
    if entryPoints == [] {
      WriteResults(results, id, K, [], newToOld);
    } else {
      WriteResults(results, id, K, found, newToOld);
    }
  }
}
