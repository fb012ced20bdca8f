/** The unified navigating graph index: its bookkeeping state and the build steps that fill
    it in place. Proximity-graph construction (Vamana) and graph search are supplied from
    outside as their results. */
module UniNav {
  import opened Common
  import opened LabelSets
  import opened Trie
  import opened Partition
  import opened Lng
  import opened Coverage
  import opened Descendants
  import opened Bipartite
  import opened BipartiteFile
  import Query

  /** The label navigation graph's per-group tables (LabelNavGraph). */
  class LabelNavGraph {
    var outNeighbors: seq<seq<nat>>
    var inNeighbors: seq<seq<nat>>
    var coveredSets: seq<set<nat>>
    var lngDescendantsNum: seq<(nat, nat)>
    var lngDescendants: seq<set<nat>>

    /** LabelNavGraph(num_nodes): num_nodes empty out- and in-lists. */
    constructor (numNodes: nat)
      ensures |outNeighbors| == numNodes && (forall g :: 0 <= g < numNodes ==> outNeighbors[g] == [])
      ensures |inNeighbors| == numNodes && (forall g :: 0 <= g < numNodes ==> inNeighbors[g] == [])
      ensures coveredSets == [] && lngDescendantsNum == [] && lngDescendants == []
    {
      outNeighbors := seq(numNodes, _ => []);
      inNeighbors := seq(numNodes, _ => []);
      coveredSets := [];
      lngDescendantsNum := [];
      lngDescendants := [];
    }
  }

  /** One pass of build_trie_and_divide_groups' loop: insert vector v's label set into the
      trie, open a new slot in both group tables when its group is new, append v to its group.
      The tables stay divided, now over vectors 0..v. */
  method DivideVector(labels: seq<seq<nat>>, v: nat, trie: TrieIndex, newGroupId: nat,
                      vecIds: seq<seq<nat>>, groupLabels: seq<seq<nat>>)
    returns (trie': TrieIndex, newGroupId': nat, vecIds': seq<seq<nat>>, groupLabels': seq<seq<nat>>)
    requires Divided(labels, v, trie, newGroupId, vecIds, groupLabels) && v < |labels|
    ensures Divided(labels, v + 1, trie', newGroupId', vecIds', groupLabels')
  {
    var labelSet := labels[v];
    DivideStep(labels, v, trie, newGroupId, vecIds, groupLabels);
    var r := trie.Insert(labelSet, newGroupId);
    var groupId := r.1;
    trie', newGroupId' := r.0, r.2;
    vecIds', groupLabels' := vecIds, groupLabels;

    // deal with a new label set
    if groupId + 1 > |vecIds'| {
      vecIds' := Grow(vecIds', groupId);
      groupLabels' := Grow(groupLabels', groupId)[groupId := labelSet];
    }
    vecIds' := vecIds'[groupId := vecIds'[groupId] + [v]];
  }

  /** build_trie_and_divide_groups' loop over the base storage, on values: the trie starts
      empty and group ids start at 1. */
  method DivideGroups(labels: seq<seq<nat>>)
    returns (trie: TrieIndex, newGroupId: nat, vecIds: seq<seq<nat>>, groupLabels: seq<seq<nat>>)
    ensures Divided(labels, |labels|, trie, newGroupId, vecIds, groupLabels)
  {
    trie, newGroupId, vecIds, groupLabels := TrieIndex(map[]), 1, [], [];
    EmptyNumbered();
    for vecId := 0 to |labels|
      invariant Divided(labels, vecId, trie, newGroupId, vecIds, groupLabels)
    {
      trie, newGroupId, vecIds, groupLabels := DivideVector(labels, vecId, trie, newGroupId, vecIds, groupLabels);
    }
  }

  /** build_trie_and_divide_groups on values, seen through what the later steps use: the
      groups partition the vectors by label set and the trie indexes the group label sets. */
  method FormGroups(labels: seq<seq<nat>>)
    returns (trie: TrieIndex, numGroups: nat, vecIds: seq<seq<nat>>, groupLabels: seq<seq<nat>>)
    ensures Grouped(labels, numGroups, vecIds, groupLabels) && Partition.Indexed(trie, groupLabels)
  {
    var newGroupId;
    trie, newGroupId, vecIds, groupLabels := DivideGroups(labels);
    DividedIsGrouped(labels, trie, newGroupId, vecIds, groupLabels);
    DividedIsIndexed(labels, trie, newGroupId, vecIds, groupLabels);
    numGroups := newGroupId - 1;
  }

  /** The inner loop of the renumbering: the members of group groupId take the next new ids,
      in their order in the group. */
  method PlaceGroup(vecIds: seq<seq<nat>>, groupId: nat, newToOld: seq<nat>, groupOf: seq<nat>, newVecId: nat)
    returns (newToOld': seq<nat>, groupOf': seq<nat>, newVecId': nat)
    requires 1 <= groupId <= |GroupLists(vecIds)| && |groupOf| == |newToOld|
    requires |Flatten(GroupLists(vecIds))| == |newToOld|
    requires newVecId == Start(vecIds, groupId) && newVecId + |vecIds[groupId]| <= |newToOld|
    requires forall i :: 0 <= i < newVecId ==> newToOld[i] == Flatten(GroupLists(vecIds))[i]
    requires forall i :: 0 <= i < newVecId ==> InBlock(vecIds, groupOf[i], i)
    ensures |newToOld'| == |newToOld| && |groupOf'| == |groupOf|
    ensures newVecId' == newVecId + |vecIds[groupId]|
    ensures forall i :: 0 <= i < newVecId' ==> newToOld'[i] == Flatten(GroupLists(vecIds))[i]
    ensures forall i :: 0 <= i < newVecId' ==> InBlock(vecIds, groupOf'[i], i)
  {
    newToOld', groupOf', newVecId' := newToOld, groupOf, newVecId;
    for j := 0 to |vecIds[groupId]|
      invariant |newToOld'| == |newToOld| && |groupOf'| == |groupOf|
      invariant newVecId' == Start(vecIds, groupId) + j
      invariant forall i :: 0 <= i < newVecId' ==> newToOld'[i] == Flatten(GroupLists(vecIds))[i]
      invariant forall i :: 0 <= i < newVecId' ==> InBlock(vecIds, groupOf'[i], i)
    {
      FlattenIndex(vecIds, groupId, newVecId');
      newToOld' := newToOld'[newVecId' := vecIds[groupId][j]];
      groupOf' := groupOf'[newVecId' := groupId];
      newVecId' := newVecId' + 1;
    }
  }

  /** prepare_group_storages_graphs' renumbering loop, on values: groups 1..numGroups are laid
      out one after another, group g's members taking the new ids of block
      [Start(g), Start(g) + |group g|); newToOld maps a new id to the old id it stands for and
      groupOf to its group. The groups hold numPoints ids in all, as dividing leaves them. */
  method ReorderGroups(numPoints: nat, numGroups: nat, vecIds: seq<seq<nat>>)
    returns (newToOld: seq<nat>, groupOf: seq<nat>, ranges: seq<(nat, nat)>)
    requires numGroups == |GroupLists(vecIds)|
    requires TotalLength(GroupLists(vecIds)) == numPoints
    ensures |newToOld| == numPoints && |groupOf| == numPoints && |ranges| == numGroups + 1
    ensures newToOld == Flatten(GroupLists(vecIds))
    ensures ranges[0] == (0, 0)
    ensures forall g :: 1 <= g <= numGroups ==>
              ranges[g] == (Start(vecIds, g), Start(vecIds, g) + |vecIds[g]|)
    ensures forall i, g :: 0 <= i < numPoints && 1 <= g <= numGroups ==>
              (groupOf[i] == g <==> ranges[g].0 <= i < ranges[g].1)
    ensures forall i :: 0 <= i < numPoints ==> InBlock(vecIds, groupOf[i], i)
  {
    StartEnd(vecIds);
    FlattenLength(GroupLists(vecIds));
    newToOld := seq(numPoints, _ => 0);
    groupOf := seq(numPoints, _ => 0);
    ranges := seq(numGroups + 1, _ => (0, 0));
    var newVecId: nat := 0;
    assert GroupLists(vecIds)[..0] == [];
    for groupId := 1 to numGroups + 1
      invariant |newToOld| == numPoints && |groupOf| == numPoints && |ranges| == numGroups + 1
      invariant ranges[0] == (0, 0)
      invariant newVecId == Start(vecIds, groupId) <= numPoints
      invariant forall g :: 1 <= g < groupId ==>
                  ranges[g] == (Start(vecIds, g), Start(vecIds, g) + |vecIds[g]|)
      invariant forall i :: 0 <= i < newVecId ==> newToOld[i] == Flatten(GroupLists(vecIds))[i]
      invariant forall i :: 0 <= i < newVecId ==> InBlock(vecIds, groupOf[i], i)
    {
      StartStep(vecIds, groupId);
      if groupId < numGroups {
        StartMono(vecIds, groupId + 1, numGroups + 1);
      }
      var first := newVecId;
      newToOld, groupOf, newVecId := PlaceGroup(vecIds, groupId, newToOld, groupOf, newVecId);
      ranges := ranges[groupId := (first, newVecId)];
    }
    GroupOfMatchesRanges(vecIds, groupOf, ranges);
  }

  /** prepare_group_storages_graphs on values: lay the divided groups out in blocks and
      reorder the label sets to match. */
  method PrepareStorage(labels: seq<seq<nat>>, numGroups: nat,
                        vecIds: seq<seq<nat>>, groupLabels: seq<seq<nat>>)
    returns (reordered: seq<seq<nat>>, groupOf: seq<nat>, ranges: seq<(nat, nat)>, newToOld: seq<nat>)
    requires Grouped(labels, numGroups, vecIds, groupLabels)
    ensures Reordered(|labels|, numGroups, reordered, vecIds, groupLabels, groupOf, ranges, newToOld)
    ensures newToOld == Flatten(GroupLists(vecIds))
    ensures forall i :: 0 <= i < |labels| ==> newToOld[i] < |labels| && reordered[i] == labels[newToOld[i]]
    ensures forall g :: 1 <= g <= numGroups ==>
              ranges[g] == (Start(vecIds, g), Start(vecIds, g) + |vecIds[g]|)
  {
    newToOld, groupOf, ranges := ReorderGroups(|labels|, numGroups, vecIds);
    LaidOutIsReordered(labels, numGroups, vecIds, groupLabels, groupOf, ranges);
    reordered := ReorderData(labels, newToOld);
  }

  /** get_min_super_sets' inner scan: does some kept label set lie inside cur's? */
  method IncludesKept(ls: seq<seq<nat>>, cur: nat, kept: seq<nat>) returns (found: bool)
    requires cur < |ls| && forall k :: 0 <= k < |kept| ==> kept[k] < |ls|
    ensures found <==> exists k :: 0 <= k < |kept| && Includes(ls[cur], ls[kept[k]])
  {
    found := false;
    var j := 0;
    while j < |kept|
      invariant 0 <= j <= |kept|
      invariant forall k :: 0 <= k < j ==> !Includes(ls[cur], ls[kept[k]])
    {
      if Includes(ls[cur], ls[kept[j]]) {
        found := true;
        break;
      }
      j := j + 1;
    }
  }

  /** get_min_super_sets' filter over the candidates sorted by size: a candidate is kept
      unless an already kept label set is included in its own, which is never checked at the
      smallest size. Exactly the minimal candidates are kept, each once. */
  method KeepMinimal(ls: seq<seq<nat>>, sorted: seq<nat>) returns (kept: seq<nat>)
    requires GroupSets(ls) && |sorted| >= 1
    requires forall k :: 0 <= k < |sorted| ==> 1 <= sorted[k] < |ls|
    requires Distinct(sorted) && SizeSorted(ls, sorted)
    ensures Distinct(kept) && Elems(kept) == Minimal(ls, Elems(sorted))
  {
    kept := [];
    var minSize := |ls[sorted[0]]|;
    for i := 0 to |sorted|
      invariant Distinct(kept) && forall k :: 0 <= k < |kept| ==> kept[k] < |ls|
      invariant forall x :: x in kept <==> x in sorted[..i] && x in Minimal(ls, Elems(sorted))
    {
      var cur := sorted[i];
      var isMin := true;
      if |ls[cur]| > minSize {
        var found := IncludesKept(ls, cur, kept);
        isMin := !found;
      }
      KeepStep(ls, sorted, i, kept, isMin);
      if isMin {
        kept := kept + [cur];
      }
    }
    assert sorted[..|sorted|] == sorted;
  }

  /** get_min_super_sets: the groups whose label sets are minimal supersets of the query
      (strict ones with avoidSelf), each once. No candidate leaves no result and a single
      candidate is the result. */
  method GetMinSuperSets(ls: seq<seq<nat>>, query: seq<nat>, avoidSelf: bool) returns (minSuperSetIds: seq<nat>)
    requires GroupSets(ls)
    ensures Distinct(minSuperSetIds)
    ensures Elems(minSuperSetIds) == MinSupersets(ls, query, avoidSelf)
  {
    var candidates := Candidates(ls, query, avoidSelf);
    CandidatesSpec(ls, query, avoidSelf);
    MinimalCandidates(ls, query, avoidSelf);
    if |candidates| == 0 {
      minSuperSetIds := [];
      assert Elems(candidates) == {};
    } else if |candidates| == 1 {
      minSuperSetIds := [candidates[0]];
      assert Elems(candidates) == {candidates[0]};
      MinimalSingleton(ls, candidates[0]);
    } else {
      var sorted := SortBySize(ls, candidates);
      SortedSameElems(ls, candidates);
      minSuperSetIds := KeepMinimal(ls, sorted);
    }
  }

  /** The group label table as the label navigation graph sees it: slot 0 is unused, and an
      index over no vectors has that slot alone. */
  function LabelTable(groupLabels: seq<seq<nat>>): (ls: seq<seq<nat>>)
    ensures |ls| >= 1 && (groupLabels != [] ==> ls == groupLabels)
  {
    if groupLabels == [] then [[]] else groupLabels
  }

  /** The group member table padded the same way, so that it lines up with LabelTable. */
  function MemberTable(vecIds: seq<seq<nat>>): (members: seq<seq<nat>>)
    ensures |members| >= 1 && (vecIds != [] ==> members == vecIds)
  {
    if vecIds == [] then [[]] else vecIds
  }

  /** Grouping canonical label sets gives a table of numGroups canonical, pairwise different
      group label sets. */
  lemma GroupedLabelTable(labels: seq<seq<nat>>, numGroups: nat, vecIds: seq<seq<nat>>,
                          groupLabels: seq<seq<nat>>)
    requires Grouped(labels, numGroups, vecIds, groupLabels)
    requires forall u :: 0 <= u < |labels| ==> Canonical(labels[u])
    ensures GroupSets(LabelTable(groupLabels)) && |LabelTable(groupLabels)| == numGroups + 1
  {
    forall g | 1 <= g < |groupLabels| ensures Canonical(groupLabels[g])
    {
      assert vecIds[g] != [];
      var u: nat := vecIds[g][0];
      assert u in vecIds[g];
      assert u < |labels| && labels[u] == groupLabels[g];
    }
  }

  /** build_label_nav_graph's first loop: every group's out-list is its minimal strict
      supersets. */
  method OutNeighbors(ls: seq<seq<nat>>) returns (out: seq<seq<nat>>)
    requires GroupSets(ls)
    ensures MinSupersetEdges(ls, out) && Ranked(ls, out)
  {
    out := seq(|ls|, _ => []);
    for g := 1 to |ls|
      invariant |out| == |ls| && out[0] == []
      invariant forall h :: 1 <= h < g ==> Distinct(out[h]) && Elems(out[h]) == MinSupersets(ls, ls[h], true)
    {
      var minSuperSetIds := GetMinSuperSets(ls, ls[g], true);
      out := out[g := minSuperSetIds];
    }
    MinSupersetEdgesRanked(ls, out);
  }

  /** build_label_nav_graph's second loop for one group g: g joins the in-list of each of its
      out-neighbours. */
  method AddIncoming(out: seq<seq<nat>>, g: nat, inn: seq<seq<nat>>) returns (inn': seq<seq<nat>>)
    requires g < |out| == |inn| && Distinct(out[g])
    requires forall i :: 0 <= i < |out[g]| ==> out[g][i] < |out|
    requires forall h :: 0 <= h < |out| ==> inn[h] == Incoming(out, h, g)
    ensures |inn'| == |out| && forall h :: 0 <= h < |out| ==> inn'[h] == Incoming(out, h, g + 1)
  {
    inn' := inn;
    for j := 0 to |out[g]|
      invariant |inn'| == |out|
      invariant forall h :: 0 <= h < |out| ==> inn'[h] == Incoming(out, h, g) + (if h in out[g][..j] then [g] else [])
    {
      var each := out[g][j];
      assert each !in out[g][..j];
      assert out[g][..j + 1] == out[g][..j] + [each];
      inn' := inn'[each := inn'[each] + [g]];
    }
    assert out[g][..|out[g]|] == out[g];
  }

  /** build_label_nav_graph's second loop: in_neighbors is the reverse adjacency of
      out_neighbors, each source once and in ascending order. */
  method InNeighbors(out: seq<seq<nat>>) returns (inn: seq<seq<nat>>)
    requires |out| >= 1 && out[0] == []
    requires forall g :: 0 <= g < |out| ==> Distinct(out[g])
    requires forall g, i :: 0 <= g < |out| && 0 <= i < |out[g]| ==> out[g][i] < |out|
    ensures Reverse(out, inn)
    ensures forall h :: 0 <= h < |out| ==> StrictlyIncreasing(inn[h])
  {
    inn := seq(|out|, _ => []);
    for g := 1 to |out|
      invariant |inn| == |out|
      invariant forall h :: 0 <= h < |out| ==> inn[h] == Incoming(out, h, g)
    {
      inn := AddIncoming(out, g, inn);
    }
    forall h | 0 <= h < |out|
      ensures (forall p: nat :: p in inn[h] <==> p < |out| && h in out[p]) && StrictlyIncreasing(inn[h])
    {
      IncomingIsReverse(out, h, |out|);
    }
  }

  class UniNavGraph {
    /** _num_points and the base storage's label sets (reordered in place by the build). */
    var numPoints: nat
    var baseLabelSets: seq<seq<nat>>

    /** Trie index and vector groups. */
    var numGroups: nat
    var trieIndex: TrieIndex
    var newVecIdToGroupId: seq<nat>
    var groupIdToVecIds: seq<seq<nat>>
    var groupIdToLabelSet: seq<seq<nat>>

    /** Label navigating graph. */
    var labelNavGraph: LabelNavGraph

    /** Group storages: the renumbering and each group's block of new ids. */
    var newToOldVecIds: seq<nat>
    var groupIdToRange: seq<(nat, nat)>

    /** Each group's entry point, as a new id. */
    var groupEntryPoints: seq<nat>

    /** The per-group descendant and covered sets as bitsets, modelled as sets. */
    var lngDescendantsRb: seq<set<nat>>
    var coveredSetsRb: seq<set<nat>>

    /** The vector-attribute bipartite graph: attribute numbering and adjacency, vector nodes
        first and attribute node a at num_points + a. */
    var attrToId: map<nat, nat>
    var idToAttr: map<nat, nat>
    var numAttributes: nat
    var vectorAttrGraph: seq<seq<nat>>

    /** The start of build: an index over the given base storage, with every table empty. */
    constructor (labels: seq<seq<nat>>)
      ensures numPoints == |labels| && baseLabelSets == labels
      ensures numGroups == 0 && trieIndex == TrieIndex(map[])
      ensures newVecIdToGroupId == [] && groupIdToVecIds == [] && groupIdToLabelSet == []
      ensures newToOldVecIds == [] && groupIdToRange == [] && groupEntryPoints == []
      ensures lngDescendantsRb == [] && coveredSetsRb == []
      ensures attrToId == map[] && idToAttr == map[] && numAttributes == 0 && vectorAttrGraph == []
    {
      numPoints := |labels|;
      baseLabelSets := labels;
      numGroups := 0;
      trieIndex := TrieIndex(map[]);
      newVecIdToGroupId := [];
      groupIdToVecIds := [];
      groupIdToLabelSet := [];
      labelNavGraph := new LabelNavGraph(0);
      newToOldVecIds := [];
      groupIdToRange := [];
      groupEntryPoints := [];
      lngDescendantsRb := [];
      coveredSetsRb := [];
      attrToId, idToAttr, numAttributes, vectorAttrGraph := map[], map[], 0, [];
    }

    /** The grouping the later construction steps rely on. */
    ghost predicate GroupsFormed()
      reads this`numPoints, this`baseLabelSets, this`numGroups, this`trieIndex,
            this`groupIdToVecIds, this`groupIdToLabelSet
    {
      && numPoints == |baseLabelSets|
      && Grouped(baseLabelSets, numGroups, groupIdToVecIds, groupIdToLabelSet)
      && Partition.Indexed(trieIndex, groupIdToLabelSet)
    }

    /** build_trie_and_divide_groups: insert every vector's label set into the trie and append
        the vector to its group; group ids are handed out 1, 2, ... in first-appearance order. */
    method BuildTrieAndDivideGroups()
      requires numPoints == |baseLabelSets|
      requires forall u :: 0 <= u < |baseLabelSets| ==> Canonical(baseLabelSets[u])
      requires trieIndex == TrieIndex(map[]) && groupIdToVecIds == [] && groupIdToLabelSet == []
      modifies this
      ensures GroupsFormed() && LabelsReady()
      ensures unchanged(this`numPoints, this`baseLabelSets, this`newVecIdToGroupId, this`labelNavGraph,
                        this`newToOldVecIds, this`groupIdToRange)
    {
      var trie, groups, vecIds, groupLabels := FormGroups(baseLabelSets);
      GroupedLabelTable(baseLabelSets, groups, vecIds, groupLabels);
      trieIndex, numGroups, groupIdToVecIds, groupIdToLabelSet := trie, groups, vecIds, groupLabels;
    }

    /** The group label sets are canonical and pairwise different, one per group. */
    ghost predicate LabelsReady()
      reads this`numGroups, this`groupIdToLabelSet
    {
      GroupSets(LabelTable(groupIdToLabelSet)) && |LabelTable(groupIdToLabelSet)| == numGroups + 1
    }

    /** The state prepare_group_storages_graphs establishes. */
    ghost predicate Prepared()
      reads this`numPoints, this`numGroups, this`baseLabelSets, this`groupIdToVecIds, this`groupIdToLabelSet,
            this`newVecIdToGroupId, this`groupIdToRange, this`newToOldVecIds
    {
      Reordered(numPoints, numGroups, baseLabelSets, groupIdToVecIds, groupIdToLabelSet,
                newVecIdToGroupId, groupIdToRange, newToOldVecIds)
    }

    /** prepare_group_storages_graphs: give every group a contiguous block of new ids, in
        group order, and reorder the base storage to match. The per-group storage and graph
        views over each block are not part of this model. */
    method PrepareGroupStoragesGraphs()
      requires GroupsFormed()
      modifies this
      ensures Prepared()
      ensures newToOldVecIds == Flatten(GroupLists(groupIdToVecIds))
      ensures forall i :: 0 <= i < numPoints ==>
                newToOldVecIds[i] < |old(baseLabelSets)| && baseLabelSets[i] == old(baseLabelSets)[newToOldVecIds[i]]
      ensures unchanged(this`numPoints, this`numGroups, this`trieIndex, this`groupIdToVecIds,
                        this`groupIdToLabelSet, this`labelNavGraph)
    {
      var reordered, groupOf, ranges, newToOld :=
        PrepareStorage(baseLabelSets, numGroups, groupIdToVecIds, groupIdToLabelSet);
      newVecIdToGroupId, groupIdToRange, newToOldVecIds := groupOf, ranges, newToOld;
      baseLabelSets := reordered;
    }

    /** The label navigation graph as build_label_nav_graph leaves it. */
    ghost predicate NavGraphBuilt()
      reads this`groupIdToLabelSet, this`labelNavGraph, labelNavGraph`outNeighbors, labelNavGraph`inNeighbors
    {
      LabelNav(LabelTable(groupIdToLabelSet), labelNavGraph.outNeighbors, labelNavGraph.inNeighbors)
    }

    /** build_label_nav_graph: a fresh graph over groups 0..num_groups whose out-lists are the
        minimal strict supersets and whose in-lists are their reverse. */
    method BuildLabelNavGraph()
      requires LabelsReady()
      modifies this
      ensures fresh(labelNavGraph) && NavGraphBuilt()
      ensures unchanged(this`numPoints, this`baseLabelSets, this`numGroups, this`trieIndex,
                        this`newVecIdToGroupId, this`groupIdToVecIds, this`groupIdToLabelSet,
                        this`newToOldVecIds, this`groupIdToRange)
    {
      var ls := LabelTable(groupIdToLabelSet);
      var out := OutNeighbors(ls);
      var inn := InNeighbors(out);
      var graph := new LabelNavGraph(numGroups + 1);
      graph.outNeighbors, graph.inNeighbors := out, inn;
      labelNavGraph := graph;
    }

    /** The covered sets as cal_f_coverage_ratio leaves them: each group's own member ids
        united with those of every group below it in the label navigation graph. */
    ghost predicate CoverageReady()
      reads this`groupIdToLabelSet, this`groupIdToVecIds, this`labelNavGraph,
            labelNavGraph`outNeighbors, labelNavGraph`coveredSets
    {
      var ls := LabelTable(groupIdToLabelSet);
      var out := labelNavGraph.outNeighbors;
      var members := MemberTable(groupIdToVecIds);
      && Ranked(ls, out) && |members| == |ls| && |labelNavGraph.coveredSets| == |ls|
      && forall g :: 1 <= g < |ls| ==> labelNavGraph.coveredSets[g] == Cov(ls, out, members, g)
    }

    /** cal_f_coverage_ratio: merge covered sets bottom-up along the label navigation graph.
        The ids are those of _group_id_to_vec_ids, the numbering from before the reorder. */
    method CalFCoverageRatio()
      requires LabelsReady() && NavGraphBuilt() && |groupIdToVecIds| == |groupIdToLabelSet|
      modifies labelNavGraph
      ensures CoverageReady()
      ensures unchanged(labelNavGraph`outNeighbors, labelNavGraph`inNeighbors,
                        labelNavGraph`lngDescendantsNum, labelNavGraph`lngDescendants)
    {
      var ls := LabelTable(groupIdToLabelSet);
      var out, inn := labelNavGraph.outNeighbors, labelNavGraph.inNeighbors;
      MinSupersetEdgesRanked(ls, out);
      var covered := CoveredSets(ls, out, inn, MemberTable(groupIdToVecIds));
      labelNavGraph.coveredSets := covered;
    }

    /** The descendant tables as get_descendants_info leaves them, group g at index g-1: its
        descendant set and, beside g, the number of its descendants. */
    ghost predicate DescendantsReady()
      reads this`groupIdToLabelSet, this`labelNavGraph,
            labelNavGraph`outNeighbors, labelNavGraph`lngDescendantsNum, labelNavGraph`lngDescendants
    {
      var ls := LabelTable(groupIdToLabelSet);
      var out := labelNavGraph.outNeighbors;
      && Ranked(ls, out)
      && |labelNavGraph.lngDescendantsNum| == |ls| - 1 && |labelNavGraph.lngDescendants| == |ls| - 1
      && forall k :: 0 <= k < |ls| - 1 ==>
           && labelNavGraph.lngDescendantsNum[k].0 == k + 1
           && labelNavGraph.lngDescendants[k] == Desc(ls, out, k + 1)
           && labelNavGraph.lngDescendantsNum[k].1 == |labelNavGraph.lngDescendants[k]|
    }

    /** get_descendants_info: one depth-first search per group over the out-edges. */
    method GetDescendantsInfo()
      requires LabelsReady() && NavGraphBuilt()
      modifies labelNavGraph
      ensures DescendantsReady()
      ensures unchanged(labelNavGraph`outNeighbors, labelNavGraph`inNeighbors, labelNavGraph`coveredSets)
    {
      var ls := LabelTable(groupIdToLabelSet);
      var out := labelNavGraph.outNeighbors;
      MinSupersetEdgesRanked(ls, out);
      var nums, sets := DescendantsInfo(ls, out);
      labelNavGraph.lngDescendantsNum, labelNavGraph.lngDescendants := nums, sets;
    }

    /** initialize_roaring_bitsets, reading the descendant table at index g-1 where
        get_descendants_info stored group g: bitset g holds exactly g's descendants, and the
        covered bitset g exactly g's covered set. */
    method InitializeRoaringBitsets()
      requires DescendantsReady() && CoverageReady()
      modifies this`lngDescendantsRb, this`coveredSetsRb
      ensures var ls := LabelTable(groupIdToLabelSet);
              && |lngDescendantsRb| == |ls| && |coveredSetsRb| == |ls|
              && forall g :: 1 <= g < |ls| ==>
                   lngDescendantsRb[g] == Desc(ls, labelNavGraph.outNeighbors, g)
                   && coveredSetsRb[g] == labelNavGraph.coveredSets[g]
    {
      var ls := LabelTable(groupIdToLabelSet);
      var descendantsRb, coveredRb :=
        RoaringBitsets(ls, labelNavGraph.outNeighbors, labelNavGraph.lngDescendants, labelNavGraph.coveredSets);
      lngDescendantsRb, coveredSetsRb := descendantsRb, coveredRb;
    }
  
    /** The bipartite graph as build_vector_and_attr_graph leaves it: labels numbered in order
        of first appearance, one edge each way per (vector, label) pair. */
    ghost predicate BipartiteBuilt()
      reads this`numPoints, this`baseLabelSets, this`attrToId, this`idToAttr, this`numAttributes,
            this`vectorAttrGraph
    {
      && numPoints == |baseLabelSets|
      && Numbering(Dedup(Flatten(baseLabelSets)), attrToId, idToAttr)
      && numAttributes == |Dedup(Flatten(baseLabelSets))|
      && BuiltUpTo(baseLabelSets, attrToId, numAttributes, vectorAttrGraph, |baseLabelSets|)
    }

    /** build_vector_and_attr_graph without its timing and logging. */
    method BuildVectorAndAttrGraph()
      requires numPoints == |baseLabelSets|
      modifies this`attrToId, this`idToAttr, this`numAttributes, this`vectorAttrGraph
      ensures BipartiteBuilt()
    {
      var a2i, i2a, count := AssignAttributeIds(baseLabelSets);
      NumberedLabels(baseLabelSets, a2i, i2a);
      var graph := BuildAdjacency(baseLabelSets, a2i, count);
      attrToId, idToAttr, numAttributes, vectorAttrGraph := a2i, i2a, count, graph;
    }

    /** count_graph_edges: on a built bipartite graph, one edge per (vector, label) pair. */
    method CountGraphEdges() returns (edges: nat)
      ensures edges == TotalLength(vectorAttrGraph) / 2
      ensures BipartiteBuilt() ==> edges == TotalLength(baseLabelSets)
    {
      edges := Bipartite.CountGraphEdges(vectorAttrGraph);
      if BipartiteBuilt() {
        EdgeCount(baseLabelSets, attrToId, numAttributes, vectorAttrGraph);
      }
    }

    /** The fields load_bipartite_graph restores. */
    function Snapshot(): Image
      reads this`numPoints, this`numAttributes, this`attrToId, this`idToAttr, this`vectorAttrGraph
    {
      Image(numPoints, numAttributes, attrToId, idToAttr, vectorAttrGraph)
    }

    /** Every stored value fits the width it is written with. */
    ghost predicate FitsWidths(entries: seq<(nat, nat)>)
      reads this`numPoints, this`numAttributes, this`attrToId, this`vectorAttrGraph
    {
      && (forall l :: l in attrToId ==> l < Pow256(LABEL_BYTES))
      && numPoints < Pow256(IDX_BYTES) && numAttributes < Pow256(ATR_BYTES)
      && |entries| < Pow256(8) && |vectorAttrGraph| < Pow256(8) && NodesFit(vectorAttrGraph)
    }

    /** save_bipartite_graph, writing to a byte string; entries is the order in which the
        attribute map is iterated. Loading the bytes of a built graph restores its fields. */
    method SaveBipartiteGraph(entries: seq<(nat, nat)>) returns (out: seq<byte>)
      ensures out == Encode(numPoints, numAttributes, entries, vectorAttrGraph)
      ensures BipartiteBuilt() && Enumerates(entries, attrToId) && FitsWidths(entries) ==>
              Decode(out) == Ok(Snapshot())
    {
      out := Save(numPoints, numAttributes, entries, vectorAttrGraph);
      if BipartiteBuilt() && Enumerates(entries, attrToId) && FitsWidths(entries) {
        LoadSaved(numPoints, Dedup(Flatten(baseLabelSets)), attrToId, idToAttr, entries, vectorAttrGraph);
      }
    }

    /** load_bipartite_graph, reading from a byte string: on success the fields hold what the
        bytes decode to; a wrong header changes nothing; a checksum mismatch is reported after
        the fields already hold what was read. */
    method LoadBipartiteGraph(bs: seq<byte>) returns (r: Result<(), LoadError>)
      modifies this`numPoints, this`numAttributes, this`attrToId, this`idToAttr, this`vectorAttrGraph
      ensures r == if Decode(bs).Ok? then Ok(()) else Err(Decode(bs).error)
      ensures r.Ok? ==> Snapshot() == Decode(bs).value
      ensures r.Err? && r.error.ChecksumMismatch? ==> Snapshot() == r.error.loaded
      ensures r == Err(InvalidFormat) ==> Snapshot() == old(Snapshot())
    {
      var image := Load(bs);
      match image
      case Ok(im) =>
        numPoints, numAttributes, attrToId, idToAttr, vectorAttrGraph :=
          im.numPoints, im.numAttributes, im.attrToId, im.idToAttr, im.graph;
        r := Ok(());
      case Err(ChecksumMismatch(im)) =>
        numPoints, numAttributes, attrToId, idToAttr, vectorAttrGraph :=
          im.numPoints, im.numAttributes, im.attrToId, im.idToAttr, im.graph;
        r := Err(ChecksumMismatch(im));
      case Err(e) =>
        r := Err(e);
    }

    /** compute_attribute_bitmap without its timing: on a built bipartite graph, an empty
        query sets every bit and any other query exactly the bits of the vectors carrying all
        its labels. */
    method ComputeAttributeBitmap(query: seq<nat>) returns (r: Option<set<nat>>)
      requires AttrIndexed(attrToId, numPoints, vectorAttrGraph)
      ensures r == Bitmap(attrToId, numPoints, vectorAttrGraph, query, AllBits())
      ensures BipartiteBuilt() && numPoints <= BITS ==>
              r == Some(if query == [] then AllBits() else Having(baseLabelSets, query))
    {
      r := Bipartite.ComputeAttributeBitmap(attrToId, numPoints, vectorAttrGraph, query);
      if BipartiteBuilt() && numPoints <= BITS {
        BitmapOfLabels(baseLabelSets, Dedup(Flatten(baseLabelSets)), attrToId, idToAttr, vectorAttrGraph, query);
      }
    }

    /** Every group 1..num_groups has an entry point among its own new ids. */
    ghost predicate EntryPointsSet()
      reads this`numGroups, this`groupIdToRange, this`groupEntryPoints
    {
      |groupEntryPoints| == numGroups + 1 && Query.EntryPointsInGroups(groupIdToRange, groupEntryPoints)
    }

    /** The entry-point step of build_graph_for_all_groups: group g's entry point is the local
        entry point of its Vamana index (localEntryPoints[g], an oracle) shifted by the group's
        first new id; slot 0 stays 0. */
    method SetGroupEntryPoints(localEntryPoints: seq<nat>)
      requires Prepared() && |localEntryPoints| == numGroups + 1
      requires forall g :: 1 <= g <= numGroups ==> localEntryPoints[g] < groupIdToRange[g].1 - groupIdToRange[g].0
      modifies this`groupEntryPoints
      ensures |groupEntryPoints| == numGroups + 1 && groupEntryPoints[0] == 0
      ensures forall g :: 1 <= g <= numGroups ==> groupEntryPoints[g] == localEntryPoints[g] + groupIdToRange[g].0
      ensures EntryPointsSet()
    {
      var geps := [0];
      for g := 1 to numGroups + 1
        invariant |geps| == g && geps[0] == 0
        invariant forall h :: 1 <= h < g ==> geps[h] == localEntryPoints[h] + groupIdToRange[h].0
      {
        geps := geps + [localEntryPoints[g] + groupIdToRange[g].0];
      }
      groupEntryPoints := geps;
    }

    /** get_entry_points for a query label set: the exact-match group comes from the trie and
        the minimum superset groups from get_min_super_sets. No entry point is found exactly
        when no group has the query's label set (equality) or none includes it (containment). */
    method GetEntryPoints(query: seq<nat>, scenario: Query.Scenario, count: nat, draws: nat -> nat, calls: nat)
      returns (r: Option<Query.Sampling>, minSuperSetIds: seq<nat>)
      requires GroupsFormed() && LabelsReady() && Prepared() && EntryPointsSet()
      ensures Distinct(minSuperSetIds)
      ensures Elems(minSuperSetIds) == MinSupersets(LabelTable(groupIdToLabelSet), query, false)
      ensures forall k :: 0 <= k < |minSuperSetIds| ==> 1 <= minSuperSetIds[k] <= numGroups
      ensures r == Query.EntryPoints(scenario, trieIndex.FindExactMatch(query), minSuperSetIds,
                                     groupIdToRange, groupEntryPoints, count, draws, calls)
      ensures r.Some? <==> scenario == Query.Equality || scenario == Query.Containment
      ensures scenario == Query.Equality ==> (r.value.entryPoints == [] <==> query !in trieIndex.groups)
      ensures scenario == Query.Containment ==>
                (r.value.entryPoints == [] <==> MinSupersets(LabelTable(groupIdToLabelSet), query, false) == {})
    {
      var ls := LabelTable(groupIdToLabelSet);
      minSuperSetIds := GetMinSuperSets(ls, query, false);
      var exact := trieIndex.FindExactMatch(query);
      assert forall k :: 0 <= k < |minSuperSetIds| ==> 1 <= minSuperSetIds[k] <= numGroups by {
        forall k | 0 <= k < |minSuperSetIds| ensures 1 <= minSuperSetIds[k] <= numGroups {
          assert minSuperSetIds[k] in Elems(minSuperSetIds);
        }
      }
      assert exact.Some? ==> 1 <= exact.value <= numGroups;
      assert minSuperSetIds == [] <==> Elems(minSuperSetIds) == {} by {
        if minSuperSetIds != [] {
          assert minSuperSetIds[0] in Elems(minSuperSetIds);
        }
      }
      r := Query.GetEntryPoints(scenario, exact, minSuperSetIds, groupIdToRange, groupEntryPoints, count, draws, calls);
      Query.EntryPointsMeans(scenario, exact, minSuperSetIds, groupIdToRange, groupEntryPoints, count, draws, calls);
    }

    /** The switch of search_hybrid for a query label set: its entry groups are the minimum
        strict superset groups, whose descendant and covered bitsets are merged. */
    method HybridFlag(query: seq<nat>, isOriUng: bool)
      returns (useGlobal: bool, entryGroups: seq<nat>, numDescendants: nat, numCovered: nat)
      requires LabelsReady() && numGroups < |lngDescendantsRb| && numGroups < |coveredSetsRb|
      ensures Distinct(entryGroups) && Elems(entryGroups) == MinSupersets(LabelTable(groupIdToLabelSet), query, true)
      ensures numDescendants == |Query.UnionOver(lngDescendantsRb, entryGroups, numGroups)|
      ensures numCovered == |Query.UnionOver(coveredSetsRb, entryGroups, numGroups)|
      ensures useGlobal == Query.UseGlobalSearch(numDescendants, numCovered, numPoints, isOriUng)
    {
      entryGroups := GetMinSuperSets(LabelTable(groupIdToLabelSet), query, true);
      useGlobal, numDescendants, numCovered :=
        Query.HybridFlag(lngDescendantsRb, coveredSetsRb, entryGroups, numGroups, numPoints, isOriUng);
    }
  }
}
