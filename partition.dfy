/** Dividing the base vectors into groups, one group per distinct label set, and the
    reordering that gives every group a contiguous block of new vector ids. */
module Partition {
  import opened Common
  import opened Trie

  /** The vectors among the first v whose label set is ls, in increasing id order. */
  function Members(labels: seq<seq<nat>>, ls: seq<nat>, v: nat): seq<nat>
    requires v <= |labels|
  {
    if v == 0 then [] else Members(labels, ls, v - 1) + (if labels[v - 1] == ls then [v - 1] else [])
  }

  /** The label sets of the first v vectors. */
  ghost function Seen(labels: seq<seq<nat>>, v: nat): set<seq<nat>>
    requires v <= |labels|
  {
    set u | 0 <= u < v :: labels[u]
  }

  lemma {:induction false} MembersSpec(labels: seq<seq<nat>>, ls: seq<nat>, v: nat)
    requires v <= |labels|
    ensures forall u: nat :: u in Members(labels, ls, v) <==> u < v && labels[u] == ls
    ensures StrictlyIncreasing(Members(labels, ls, v))
  {
    if v > 0 {
      MembersSpec(labels, ls, v - 1);
      var m := Members(labels, ls, v - 1);
      var t: seq<nat> := if labels[v - 1] == ls then [v - 1] else [];
      assert Members(labels, ls, v) == m + t;
      forall i | 0 <= i < |m| ensures m[i] < v - 1
      {
        assert m[i] in m;
      }
    }
  }

  /** What dividing the first v vectors has established: the trie holds exactly their label
      sets, numbered 1..next-1; slot g of the group tables holds group g's label set and its
      members in increasing id order; slot 0 is unused. */
  ghost predicate Divided(labels: seq<seq<nat>>, v: nat, trie: TrieIndex, next: nat,
                          vecIds: seq<seq<nat>>, groupLabels: seq<seq<nat>>)
  {
    && v <= |labels|
    && trie.Numbered(next)
    && trie.groups.Keys == Seen(labels, v)
    && |vecIds| == |groupLabels| == (if v == 0 then 0 else next)
    && (v > 0 ==> vecIds[0] == [])
    && (forall g :: 1 <= g < |groupLabels| ==>
          groupLabels[g] in trie.groups && trie.groups[groupLabels[g]] == g)
    && (forall g :: 1 <= g < |vecIds| ==> vecIds[g] == Members(labels, groupLabels[g], v))
  }

  /** The tables after dividing vector v: grown by one slot when v's label set is new (its
      label set recorded in the new slot), then v appended to its group. */
  function Grow(vecIds: seq<seq<nat>>, gid: nat): (r: seq<seq<nat>>)
    ensures |r| == if gid + 1 > |vecIds| then gid + 1 else |vecIds|
    ensures forall i :: 0 <= i < |r| ==> r[i] == if i < |vecIds| then vecIds[i] else []
  {
    if gid + 1 > |vecIds| then vecIds + seq(gid + 1 - |vecIds|, _ => []) else vecIds
  }

  lemma SeenStep(labels: seq<seq<nat>>, v: nat)
    requires v < |labels|
    ensures Seen(labels, v + 1) == Seen(labels, v) + {labels[v]}
  {
    assert labels[v] in Seen(labels, v + 1);
  }

  /** Dividing a vector whose label set was seen before: it joins that existing group. */
  lemma DivideStepOld(labels: seq<seq<nat>>, v: nat, trie: TrieIndex, next: nat,
                      vecIds: seq<seq<nat>>, groupLabels: seq<seq<nat>>, gid: nat)
    requires Divided(labels, v, trie, next, vecIds, groupLabels) && v < |labels|
    requires labels[v] in trie.groups && gid == trie.groups[labels[v]]
    ensures gid < |vecIds|
    ensures Divided(labels, v + 1, trie, next, vecIds[gid := vecIds[gid] + [v]], groupLabels)
  {
    var ls := labels[v];
    SeenStep(labels, v);
    var u :| 0 <= u < v && labels[u] == ls;
    assert trie.groups[groupLabels[gid]] == gid;
    var vecIds' := vecIds[gid := vecIds[gid] + [v]];
    forall g | 1 <= g < |vecIds'| ensures vecIds'[g] == Members(labels, groupLabels[g], v + 1)
    {
      if g != gid {
        assert trie.groups[groupLabels[g]] == g;
      }
    }
  }

  /** Dividing a vector with a label set not seen before: it opens group next. */
  lemma DivideStepNew(labels: seq<seq<nat>>, v: nat, trie: TrieIndex, next: nat,
                      vecIds: seq<seq<nat>>, groupLabels: seq<seq<nat>>)
    requires Divided(labels, v, trie, next, vecIds, groupLabels) && v < |labels|
    requires labels[v] !in trie.groups
    ensures next + 1 > |vecIds| && next < |Grow(vecIds, next)| && next < |Grow(groupLabels, next)|
    ensures Divided(labels, v + 1, TrieIndex(trie.groups[labels[v] := next]), next + 1,
                    Grow(vecIds, next)[next := Grow(vecIds, next)[next] + [v]],
                    Grow(groupLabels, next)[next := labels[v]])
  {
    NewTrie(labels, v, trie, next);
    assert v == 0 ==> next == 1;
    NewGroupLabels(labels[v], trie, next, groupLabels, v == 0);
    NewAbsent(labels, v, trie);
    NewGroupMembers(labels, v, next, vecIds, groupLabels);
  }

  /** One step of build_trie_and_divide_groups keeps the tables divided: insert vector v's
      label set, grow the tables by one slot when its group is new, append v to its group. */
  lemma DivideStep(labels: seq<seq<nat>>, v: nat, trie: TrieIndex, next: nat,
                   vecIds: seq<seq<nat>>, groupLabels: seq<seq<nat>>)
    requires Divided(labels, v, trie, next, vecIds, groupLabels) && v < |labels|
    ensures var r := trie.Insert(labels[v], next);
            var vecIds1 := if r.1 + 1 > |vecIds| then Grow(vecIds, r.1) else vecIds;
            var groupLabels1 := if r.1 + 1 > |vecIds| then Grow(groupLabels, r.1)[r.1 := labels[v]] else groupLabels;
            && r.1 < |vecIds1|
            && Divided(labels, v + 1, r.0, r.2, vecIds1[r.1 := vecIds1[r.1] + [v]], groupLabels1)
  {
    if labels[v] in trie.groups {
      DivideStepOld(labels, v, trie, next, vecIds, groupLabels, trie.groups[labels[v]]);
    } else {
      DivideStepNew(labels, v, trie, next, vecIds, groupLabels);
    }
  }

  lemma NewTrie(labels: seq<seq<nat>>, v: nat, trie: TrieIndex, next: nat)
    requires v < |labels| && trie.Numbered(next) && trie.groups.Keys == Seen(labels, v)
    requires labels[v] !in trie.groups
    ensures TrieIndex(trie.groups[labels[v] := next]).Numbered(next + 1)
    ensures TrieIndex(trie.groups[labels[v] := next]).groups.Keys == Seen(labels, v + 1)
    ensures v == 0 ==> next == 1
  {
    SeenStep(labels, v);
    InsertNumbered(trie, labels[v], next);
    assert trie.Insert(labels[v], next).0 == TrieIndex(trie.groups[labels[v] := next]);
    if v == 0 {
      assert trie.groups.Keys == {};
    }
  }

  lemma NewGroupLabels(ls: seq<nat>, trie: TrieIndex, next: nat, groupLabels: seq<seq<nat>>, first: bool)
    requires ls !in trie.groups && next >= 1 && (first ==> next == 1)
    requires |groupLabels| == (if first then 0 else next)
    requires forall g :: 1 <= g < |groupLabels| ==>
               groupLabels[g] in trie.groups && trie.groups[groupLabels[g]] == g
    ensures forall g :: 1 <= g < |groupLabels| ==> groupLabels[g] != ls
    ensures var t := trie.groups[ls := next];
            var gl := Grow(groupLabels, next)[next := ls];
            forall g :: 1 <= g < |gl| ==> gl[g] in t && t[gl[g]] == g
  {
    var t := trie.groups[ls := next];
    var gl := Grow(groupLabels, next)[next := ls];
    forall g | 1 <= g < |gl| ensures gl[g] in t && t[gl[g]] == g
    {
      if g != next {
        assert g < |groupLabels|;
        assert gl[g] == groupLabels[g];
        assert trie.groups[groupLabels[g]] == g < next;
      }
    }
  }

  lemma NewAbsent(labels: seq<seq<nat>>, v: nat, trie: TrieIndex)
    requires v < |labels| && trie.groups.Keys == Seen(labels, v) && labels[v] !in trie.groups
    ensures Members(labels, labels[v], v) == []
  {
    forall u | 0 <= u < v ensures labels[u] != labels[v]
    {
      assert labels[u] in Seen(labels, v);
    }
    MembersEmpty(labels, labels[v], v);
  }

  lemma {:induction false} MembersEmpty(labels: seq<seq<nat>>, ls: seq<nat>, v: nat)
    requires v <= |labels| && forall u :: 0 <= u < v ==> labels[u] != ls
    ensures Members(labels, ls, v) == []
  {
    if v > 0 {
      MembersEmpty(labels, ls, v - 1);
    }
  }

  lemma NewGroupMembers(labels: seq<seq<nat>>, v: nat, next: nat, vecIds: seq<seq<nat>>, groupLabels: seq<seq<nat>>)
    requires v < |labels| && next >= 1 && (v == 0 ==> next == 1)
    requires |vecIds| == |groupLabels| == (if v == 0 then 0 else next)
    requires forall g :: 1 <= g < |vecIds| ==> vecIds[g] == Members(labels, groupLabels[g], v)
    requires forall g :: 1 <= g < |groupLabels| ==> groupLabels[g] != labels[v]
    requires Members(labels, labels[v], v) == []
    ensures var vg := Grow(vecIds, next);
            var vecIds' := vg[next := vg[next] + [v]];
            var groupLabels' := Grow(groupLabels, next)[next := labels[v]];
            forall g :: 1 <= g < |vecIds'| ==> vecIds'[g] == Members(labels, groupLabels'[g], v + 1)
  {
    var vg := Grow(vecIds, next);
    var vecIds' := vg[next := vg[next] + [v]];
    var groupLabels' := Grow(groupLabels, next)[next := labels[v]];
    forall g | 1 <= g < |vecIds'| ensures vecIds'[g] == Members(labels, groupLabels'[g], v + 1)
    {
      if g != next {
        assert groupLabels'[g] == groupLabels[g];
        assert vecIds'[g] == vecIds[g];
      }
    }
  }

  /** Once every vector is divided, the groups partition the vectors by label set: each vector
      is in the group of its label set, every member of a group carries that group's label set,
      no group is empty, no two groups share a label set, and the number of groups is the
      number of distinct label sets. */
  lemma DividedIsPartition(labels: seq<seq<nat>>, trie: TrieIndex, next: nat,
                           vecIds: seq<seq<nat>>, groupLabels: seq<seq<nat>>)
    requires Divided(labels, |labels|, trie, next, vecIds, groupLabels)
    ensures forall u :: 0 <= u < |labels| ==>
              labels[u] in trie.groups && 1 <= trie.groups[labels[u]] < |vecIds| &&
              u in vecIds[trie.groups[labels[u]]] && groupLabels[trie.groups[labels[u]]] == labels[u]
    ensures forall g, u: nat :: 1 <= g < |vecIds| && u in vecIds[g] ==> u < |labels|
    ensures forall g, u: nat :: 1 <= g < |vecIds| && u in vecIds[g] && u < |labels| ==> labels[u] == groupLabels[g]
    ensures forall g :: 1 <= g < |vecIds| ==> vecIds[g] != [] && StrictlyIncreasing(vecIds[g])
    ensures forall g, h :: 1 <= g < h < |groupLabels| ==> groupLabels[g] != groupLabels[h]
    ensures next - 1 == |Seen(labels, |labels|)|
  {
    var n := |labels|;
    forall g | 1 <= g < |vecIds|
      ensures forall u: nat :: u in vecIds[g] <==> u < n && labels[u] == groupLabels[g]
      ensures StrictlyIncreasing(vecIds[g])
    {
      MembersSpec(labels, groupLabels[g], n);
    }
    forall u | 0 <= u < n
      ensures labels[u] in trie.groups && 1 <= trie.groups[labels[u]] < |vecIds|
      ensures groupLabels[trie.groups[labels[u]]] == labels[u]
    {
      assert labels[u] in Seen(labels, n);
      var g := trie.groups[labels[u]];
      assert trie.groups[groupLabels[g]] == g;
    }
    forall g | 1 <= g < |vecIds| ensures vecIds[g] != []
    {
      assert groupLabels[g] in Seen(labels, n);
      var u :| 0 <= u < n && labels[u] == groupLabels[g];
      assert u in vecIds[g];
    }
    assert |trie.groups.Keys| == |trie.groups|;
  }

  /** The group lists without the unused slot 0. */
  function GroupLists(vecIds: seq<seq<nat>>): seq<seq<nat>>
  {
    if vecIds == [] then [] else vecIds[1..]
  }

  /** The first new id of group g: the sizes of groups 1..g-1 added up. */
  function Start(vecIds: seq<seq<nat>>, g: nat): nat
    requires 1 <= g <= |GroupLists(vecIds)| + 1
  {
    TotalLength(GroupLists(vecIds)[..g - 1])
  }

  /** Consecutive groups' blocks touch, and block g is as long as group g. */
  lemma StartStep(vecIds: seq<seq<nat>>, g: nat)
    requires 1 <= g <= |GroupLists(vecIds)|
    ensures Start(vecIds, g + 1) == Start(vecIds, g) + |vecIds[g]|
  {
    var l := GroupLists(vecIds);
    assert l[..g][..g - 1] == l[..g - 1];
  }

  /** Blocks come in group order: group 1's starts at 0, and block h starts no earlier than
      block g ends when g < h. */
  lemma {:induction false} StartMono(vecIds: seq<seq<nat>>, g: nat, h: nat)
    requires 1 <= g < h <= |GroupLists(vecIds)| + 1
    ensures Start(vecIds, 1) == 0
    ensures Start(vecIds, g) + |vecIds[g]| <= Start(vecIds, h)
    decreases h - g
  {
    assert GroupLists(vecIds)[..0] == [];
    StartStep(vecIds, g);
    if g + 1 < h {
      StartMono(vecIds, g + 1, h);
    }
  }

  /** The blocks of groups 1..|GroupLists| end at the total number of group members. */
  lemma StartEnd(vecIds: seq<seq<nat>>)
    ensures Start(vecIds, |GroupLists(vecIds)| + 1) == TotalLength(GroupLists(vecIds))
  {
    var l := GroupLists(vecIds);
    assert l[..|l|] == l;
  }

  /** New id i lies in group g's block. */
  ghost predicate InBlock(vecIds: seq<seq<nat>>, g: nat, i: nat)
  {
    1 <= g <= |GroupLists(vecIds)| && Start(vecIds, g) <= i < Start(vecIds, g) + |vecIds[g]|
  }

  /** Blocks do not overlap. */
  lemma BlockUnique(vecIds: seq<seq<nat>>, i: nat, g: nat, h: nat)
    requires InBlock(vecIds, h, i) && 1 <= g <= |GroupLists(vecIds)|
    ensures InBlock(vecIds, g, i) <==> g == h
  {
    if g < h {
      StartMono(vecIds, g, h);
    } else if h < g {
      StartMono(vecIds, h, g);
    }
  }

  /** When every new id lies in the block its group entry names, and ranges lists the blocks,
      groupOf[i] is g exactly when i lies in ranges[g]. */
  lemma GroupOfMatchesRanges(vecIds: seq<seq<nat>>, groupOf: seq<nat>, ranges: seq<(nat, nat)>)
    requires |ranges| == |GroupLists(vecIds)| + 1
    requires forall g :: 1 <= g < |ranges| ==> ranges[g] == (Start(vecIds, g), Start(vecIds, g) + |vecIds[g]|)
    requires forall i :: 0 <= i < |groupOf| ==> InBlock(vecIds, groupOf[i], i)
    ensures forall i, g :: 0 <= i < |groupOf| && 1 <= g < |ranges| ==>
              (groupOf[i] == g <==> ranges[g].0 <= i < ranges[g].1)
  {
    forall i, g | 0 <= i < |groupOf| && 1 <= g < |ranges|
      ensures groupOf[i] == g <==> ranges[g].0 <= i < ranges[g].1
    {
      BlockUnique(vecIds, i, g, groupOf[i]);
    }
  }

  /** A new id below block k's start lies in the block of some group before k. */
  lemma {:induction false} BlockOf(vecIds: seq<seq<nat>>, i: nat, k: nat) returns (g: nat)
    requires 2 <= k <= |GroupLists(vecIds)| + 1 && i < Start(vecIds, k)
    ensures 1 <= g < k && Start(vecIds, g) <= i < Start(vecIds, g) + |vecIds[g]|
    decreases k
  {
    assert GroupLists(vecIds)[..0] == [];
    StartStep(vecIds, k - 1);
    if i >= Start(vecIds, k - 1) {
      g := k - 1;
    } else {
      g := BlockOf(vecIds, i, k - 1);
    }
  }

  lemma {:induction false} FlattenPrefix<T>(ss: seq<seq<T>>, k: nat)
    requires k <= |ss|
    ensures Flatten(ss[..k]) <= Flatten(ss)
    decreases |ss| - k
  {
    if k < |ss| {
      var init := ss[..|ss| - 1];
      assert init[..k] == ss[..k];
      FlattenPrefix(init, k);
      assert ss[..|ss|] == ss;
    } else {
      assert ss[..k] == ss;
    }
  }

  /** New id i in group g's block is the (i - start)-th member of group g. */
  lemma FlattenIndex(vecIds: seq<seq<nat>>, g: nat, i: nat)
    requires 1 <= g <= |GroupLists(vecIds)|
    requires Start(vecIds, g) <= i < Start(vecIds, g) + |vecIds[g]|
    ensures i < |Flatten(GroupLists(vecIds))|
    ensures Flatten(GroupLists(vecIds))[i] == vecIds[g][i - Start(vecIds, g)]
  {
    var l := GroupLists(vecIds);
    FlattenPrefix(l, g);
    assert l[..g][..g - 1] == l[..g - 1];
    FlattenLength(l[..g - 1]);
    assert Flatten(l[..g]) == Flatten(l[..g - 1]) + vecIds[g];
  }

  /** Slots 1.. of vecIds partition 0..n-1 into duplicate-free lists. */
  ghost predicate IsPartition(n: nat, vecIds: seq<seq<nat>>, owner: seq<nat>)
  {
    && |owner| == n
    && (forall g :: 1 <= g < |vecIds| ==> Distinct(vecIds[g]))
    && (forall g, h, x: nat :: 1 <= g < h < |vecIds| && x in vecIds[g] ==> x !in vecIds[h])
    && (forall g, x: nat :: 1 <= g < |vecIds| && x in vecIds[g] ==> x < n)
    && (forall x :: 0 <= x < n ==> 1 <= owner[x] < |vecIds| && x in vecIds[owner[x]])
  }

  /** The group of each vector, by its label set. */
  ghost function Owners(labels: seq<seq<nat>>, trie: TrieIndex): seq<nat>
  {
    seq(|labels|, u requires 0 <= u < |labels| =>
      if labels[u] in trie.groups then trie.groups[labels[u]] else 0)
  }

  lemma DividedIsPartitionOfIds(labels: seq<seq<nat>>, trie: TrieIndex, next: nat,
                                vecIds: seq<seq<nat>>, groupLabels: seq<seq<nat>>)
    requires Divided(labels, |labels|, trie, next, vecIds, groupLabels)
    ensures IsPartition(|labels|, vecIds, Owners(labels, trie))
  {
    DividedIsPartition(labels, trie, next, vecIds, groupLabels);
    ByLabelIsPartition(labels, trie, vecIds, groupLabels);
  }

  lemma ByLabelIsPartition(labels: seq<seq<nat>>, trie: TrieIndex,
                           vecIds: seq<seq<nat>>, groupLabels: seq<seq<nat>>)
    requires |groupLabels| == |vecIds|
    requires forall u :: 0 <= u < |labels| ==>
              labels[u] in trie.groups && 1 <= trie.groups[labels[u]] < |vecIds| &&
              u in vecIds[trie.groups[labels[u]]]
    requires forall g, u: nat :: 1 <= g < |vecIds| && u in vecIds[g] ==> u < |labels|
    requires forall g, u: nat :: 1 <= g < |vecIds| && u in vecIds[g] && u < |labels| ==> labels[u] == groupLabels[g]
    requires forall g :: 1 <= g < |vecIds| ==> StrictlyIncreasing(vecIds[g])
    requires forall g, h :: 1 <= g < h < |groupLabels| ==> groupLabels[g] != groupLabels[h]
    ensures IsPartition(|labels|, vecIds, Owners(labels, trie))
  {
    var owner := Owners(labels, trie);
    forall g | 1 <= g < |vecIds| ensures Distinct(vecIds[g])
    {
      assert StrictlyIncreasing(vecIds[g]);
    }
    forall g, h, x | 1 <= g < h < |vecIds| && x in vecIds[g] ensures x !in vecIds[h]
    {
      assert labels[x] == groupLabels[g];
      assert groupLabels[g] != groupLabels[h];
    }
    forall x | 0 <= x < |labels| ensures 1 <= owner[x] < |vecIds| && x in vecIds[owner[x]]
    {
      assert owner[x] == trie.groups[labels[x]];
    }
  }

  /** The group lists are duplicate-free and pairwise disjoint, and hold exactly 0..n-1. */
  lemma GroupListsDisjoint(n: nat, vecIds: seq<seq<nat>>, owner: seq<nat>)
    requires IsPartition(n, vecIds, owner)
    ensures forall i :: 0 <= i < |GroupLists(vecIds)| ==> Distinct(GroupLists(vecIds)[i])
    ensures forall i, j, x :: 0 <= i < j < |GroupLists(vecIds)| && x in GroupLists(vecIds)[i] ==>
              x !in GroupLists(vecIds)[j]
    ensures Elems(Flatten(GroupLists(vecIds))) == Elems(Range(0, n))
  {
    var l := GroupLists(vecIds);
    assert forall i :: 0 <= i < |l| ==> l[i] == vecIds[i + 1];
    FlattenElems(l);
    forall x | x in Elems(Flatten(l)) ensures x in Elems(Range(0, n))
    {
      var i :| 0 <= i < |l| && x in l[i];
      assert l[i] == vecIds[i + 1];
      assert Range(0, n)[x] == x;
    }
    forall x | x in Elems(Range(0, n)) ensures x in Elems(Flatten(l))
    {
      var k :| 0 <= k < n && Range(0, n)[k] == x;
      var g := owner[x];
      assert l[g - 1] == vecIds[g];
    }
  }

  /** The concatenated group lists are a permutation of 0..n-1: the reordering loses and
      duplicates no vector. */
  lemma ReorderIsPermutation(labels: seq<seq<nat>>, trie: TrieIndex, next: nat,
                             vecIds: seq<seq<nat>>, groupLabels: seq<seq<nat>>)
    requires Divided(labels, |labels|, trie, next, vecIds, groupLabels)
    ensures Distinct(Flatten(GroupLists(vecIds)))
    ensures Elems(Flatten(GroupLists(vecIds))) == Elems(Range(0, |labels|))
    ensures |Flatten(GroupLists(vecIds))| == |labels|
    ensures TotalLength(GroupLists(vecIds)) == |labels|
  {
    DividedIsPartitionOfIds(labels, trie, next, vecIds, groupLabels);
    GroupListsDisjoint(|labels|, vecIds, Owners(labels, trie));
    var l := GroupLists(vecIds);
    FlattenDistinct(l);
    DistinctCard(Flatten(l));
    assert Distinct(Range(0, |labels|));
    DistinctCard(Range(0, |labels|));
    FlattenLength(l);
  }

  /** Dividing hands out exactly next-1 groups, in slots 1..next-1. */
  lemma DividedGroupCount(labels: seq<seq<nat>>, trie: TrieIndex, next: nat,
                          vecIds: seq<seq<nat>>, groupLabels: seq<seq<nat>>)
    requires Divided(labels, |labels|, trie, next, vecIds, groupLabels)
    ensures |GroupLists(vecIds)| == next - 1
  {
    if |labels| == 0 {
      assert Seen(labels, 0) == {};
      assert |trie.groups.Keys| == |trie.groups|;
    }
  }

  /** The blocks tile 0..n-1 in group order: slot 0 is the empty block (0, 0), group 1's block
      starts at 0, each block is non-empty and ends where the next one starts, and the last one
      ends at n. */
  ghost predicate Tiled(ranges: seq<(nat, nat)>, n: nat)
  {
    && |ranges| >= 1
    && ranges[0] == (0, 0)
    && (|ranges| == 1 ==> n == 0)
    && (|ranges| > 1 ==> ranges[1].0 == 0 && ranges[|ranges| - 1].1 == n)
    && (forall g :: 1 <= g < |ranges| - 1 ==> ranges[g].1 == ranges[g + 1].0)
    && (forall g :: 1 <= g < |ranges| ==> ranges[g].0 < ranges[g].1)
  }

  /** Blocks laid out from non-empty groups holding n ids in all tile 0..n-1. */
  lemma BlocksTile(vecIds: seq<seq<nat>>, ranges: seq<(nat, nat)>, n: nat)
    requires |ranges| == |GroupLists(vecIds)| + 1 && ranges[0] == (0, 0)
    requires forall g :: 1 <= g < |ranges| ==> ranges[g] == (Start(vecIds, g), Start(vecIds, g) + |vecIds[g]|)
    requires forall g :: 1 <= g < |vecIds| ==> vecIds[g] != []
    requires TotalLength(GroupLists(vecIds)) == n
    ensures Tiled(ranges, n)
  {
    var k := |GroupLists(vecIds)|;
    StartEnd(vecIds);
    assert GroupLists(vecIds)[..0] == [];
    if k > 0 {
      StartStep(vecIds, k);
    }
    forall g | 1 <= g < |ranges| - 1 ensures ranges[g].1 == ranges[g + 1].0
    {
      StartStep(vecIds, g);
    }
  }

  /** The label sets as reorder_data leaves them: new id i carries the label set of old id
      newToOld[i]. reorder_data itself is not part of this model. */
  function ReorderData(labels: seq<seq<nat>>, newToOld: seq<nat>): (r: seq<seq<nat>>)
    requires forall i :: 0 <= i < |newToOld| ==> newToOld[i] < |labels|
    ensures |r| == |newToOld|
    ensures forall i :: 0 <= i < |r| ==> r[i] == labels[newToOld[i]]
  {
    seq(|newToOld|, i requires 0 <= i < |newToOld| => labels[newToOld[i]])
  }

  /** After reordering, every new id carries the label set of the group whose block holds it. */
  lemma ReorderedLabels(labels: seq<seq<nat>>, vecIds: seq<seq<nat>>, groupLabels: seq<seq<nat>>,
                        g: nat, i: nat)
    requires |groupLabels| == |vecIds|
    requires forall g, u: nat :: 1 <= g < |vecIds| && u in vecIds[g] ==> u < |labels|
    requires forall g, u: nat :: 1 <= g < |vecIds| && u in vecIds[g] && u < |labels| ==> labels[u] == groupLabels[g]
    requires InBlock(vecIds, g, i)
    ensures var newToOld: seq<nat> := Flatten(GroupLists(vecIds));
            i < |newToOld| && newToOld[i] < |labels| && labels[newToOld[i]] == groupLabels[g]
  {
    FlattenIndex(vecIds, g, i);
    assert vecIds[g][i - Start(vecIds, g)] in vecIds[g];
  }

  /** What prepare_group_storages_graphs leaves: the storage reordered so that group g owns the
      contiguous block ranges[g] of new ids, groupOf naming each new id's group, newToOld a
      permutation of 0..n-1, and every new id carrying its group's label set. */
  ghost predicate Reordered(n: nat, numGroups: nat, labels: seq<seq<nat>>, vecIds: seq<seq<nat>>,
                            groupLabels: seq<seq<nat>>, groupOf: seq<nat>, ranges: seq<(nat, nat)>,
                            newToOld: seq<nat>)
  {
    && |labels| == n && |groupOf| == n && |newToOld| == n
    && |groupLabels| == |vecIds| && numGroups == |GroupLists(vecIds)|
    && |ranges| == numGroups + 1 && Tiled(ranges, n)
    && (forall i :: 0 <= i < n ==> 1 <= groupOf[i] <= numGroups)
    && (forall i, g :: 0 <= i < n && 1 <= g <= numGroups ==>
          (groupOf[i] == g <==> ranges[g].0 <= i < ranges[g].1))
    && (forall i :: 0 <= i < n ==> labels[i] == groupLabels[groupOf[i]])
    && Distinct(newToOld) && Elems(newToOld) == Elems(Range(0, n))
    && (forall g, h :: 1 <= g < h < |groupLabels| ==> groupLabels[g] != groupLabels[h])
    && (forall g, u: nat :: 1 <= g < |vecIds| && u in vecIds[g] ==> u < n)
  }

  /** The groups as the division leaves them, seen from outside: numGroups non-empty groups
      whose id lists, concatenated, are a permutation of 0..n-1, every member carrying its
      group's label set, and no label set shared by two groups. */
  ghost predicate Grouped(labels: seq<seq<nat>>, numGroups: nat, vecIds: seq<seq<nat>>,
                          groupLabels: seq<seq<nat>>)
  {
    && |groupLabels| == |vecIds| && numGroups == |GroupLists(vecIds)|
    && TotalLength(GroupLists(vecIds)) == |labels|
    && Distinct(Flatten(GroupLists(vecIds)))
    && Elems(Flatten(GroupLists(vecIds))) == Elems(Range(0, |labels|))
    && (forall g :: 1 <= g < |vecIds| ==> vecIds[g] != [])
    && (forall g, u: nat :: 1 <= g < |vecIds| && u in vecIds[g] ==> u < |labels|)
    && (forall g, u: nat :: 1 <= g < |vecIds| && u in vecIds[g] && u < |labels| ==> labels[u] == groupLabels[g])
    && (forall g, h :: 1 <= g < h < |groupLabels| ==> groupLabels[g] != groupLabels[h])
  }

  /** The division of all n vectors is such a grouping. */
  lemma DividedIsGrouped(labels: seq<seq<nat>>, trie: TrieIndex, next: nat,
                         vecIds: seq<seq<nat>>, groupLabels: seq<seq<nat>>)
    requires Divided(labels, |labels|, trie, next, vecIds, groupLabels)
    ensures next >= 1 && Grouped(labels, next - 1, vecIds, groupLabels)
  {
    ReorderIsPermutation(labels, trie, next, vecIds, groupLabels);
    DividedGroupCount(labels, trie, next, vecIds, groupLabels);
    DividedIsPartition(labels, trie, next, vecIds, groupLabels);
  }

  /** The trie is the inverse of the group label table: label set groupLabels[g] is found
      under id g, and every label set in the trie is some group's. */
  ghost predicate Indexed(trie: TrieIndex, groupLabels: seq<seq<nat>>)
  {
    && (forall g :: 1 <= g < |groupLabels| ==> groupLabels[g] in trie.groups && trie.groups[groupLabels[g]] == g)
    && (forall k :: k in trie.groups ==> 1 <= trie.groups[k] < |groupLabels| && groupLabels[trie.groups[k]] == k)
  }

  /** After the division of all n vectors the trie indexes exactly the group label sets. */
  lemma DividedIsIndexed(labels: seq<seq<nat>>, trie: TrieIndex, next: nat,
                         vecIds: seq<seq<nat>>, groupLabels: seq<seq<nat>>)
    requires Divided(labels, |labels|, trie, next, vecIds, groupLabels)
    ensures Indexed(trie, groupLabels)
  {
    if |labels| == 0 {
      assert Seen(labels, 0) == {};
    } else {
      forall k | k in trie.groups
        ensures 1 <= trie.groups[k] < |groupLabels| && groupLabels[trie.groups[k]] == k
      {
        var g := trie.groups[k];
        assert groupLabels[g] in trie.groups && trie.groups[groupLabels[g]] == g;
      }
    }
  }

  /** Laying out a partition into blocks in group order and reordering the label sets by the
      resulting new-to-old map yields the reordered state. */
  lemma LaidOutIsReordered(labels: seq<seq<nat>>, numGroups: nat, vecIds: seq<seq<nat>>,
                           groupLabels: seq<seq<nat>>, groupOf: seq<nat>, ranges: seq<(nat, nat)>)
    requires Grouped(labels, numGroups, vecIds, groupLabels) && |groupOf| == |labels|
    requires |ranges| == numGroups + 1 && ranges[0] == (0, 0)
    requires forall g :: 1 <= g <= numGroups ==>
               ranges[g] == (Start(vecIds, g), Start(vecIds, g) + |vecIds[g]|)
    requires forall i, g :: 0 <= i < |labels| && 1 <= g <= numGroups ==>
               (groupOf[i] == g <==> ranges[g].0 <= i < ranges[g].1)
    requires forall i :: 0 <= i < |labels| ==> InBlock(vecIds, groupOf[i], i)
    ensures var newToOld: seq<nat> := Flatten(GroupLists(vecIds));
            && (forall i :: 0 <= i < |newToOld| ==> newToOld[i] < |labels|)
            && Reordered(|labels|, numGroups, ReorderData(labels, newToOld), vecIds, groupLabels,
                         groupOf, ranges, newToOld)
  {
    var newToOld: seq<nat> := Flatten(GroupLists(vecIds));
    FlattenLength(GroupLists(vecIds));
    BlocksTile(vecIds, ranges, |labels|);
    forall i | 0 <= i < |labels|
      ensures newToOld[i] < |labels| && labels[newToOld[i]] == groupLabels[groupOf[i]]
    {
      ReorderedLabels(labels, vecIds, groupLabels, groupOf[i], i);
    }
  }
}
