/**
 * The label-set tree generator of DataTools/generate_base_label_m2.py (LNGVectorGenerator):
 * a tree whose root is {base_attr_start} and in which every child is its parent's label set
 * plus one attribute above all of the parent's, grown depth-first under a depth limit and a
 * global group budget, then walked breadth first to hand out vector ids.
 *
 * LabelSetNode objects live in the generator's node list; a node is referred to by its
 * position there, which is its creation order.
 */
module LabelTreeGenerator {
  import opened Common

  /** A LabelSetNode: its label set, its children (node numbers, in order) and its vectors. */
  datatype LabelSetNode = LabelSetNode(labelSet: set<nat>, children: seq<nat>, vectors: seq<nat>)

  // ---------------------------------------------------------------------------------------
  // Label sets
  // ---------------------------------------------------------------------------------------

  lemma {:induction false} GreatestOf(s: set<nat>) returns (m: nat)
    requires s != {}
    ensures m in s && forall x :: x in s ==> x <= m
    decreases |s|
  {
    var x :| x in s;
    if s == {x} {
      m := x;
    } else {
      var rest := GreatestOf(s - {x});
      m := if x < rest then rest else x;
      forall y | y in s
        ensures y <= m
      {
        if y != x {
          assert y in s - {x};
        }
      }
    }
  }

  lemma MaxExists(s: set<nat>)
    requires s != {}
    ensures exists m :: m in s && forall x :: x in s ==> x <= m
  {
    var m := GreatestOf(s);
  }

  /** max(label_set). */
  function MaxOf(s: set<nat>): (m: nat)
    requires s != {}
    ensures m in s && forall x :: x in s ==> x <= m
  {
    MaxExists(s);
    var m :| m in s && forall x :: x in s ==> x <= m;
    m
  }

  /** The label set of the child made in round `i` of the branch loop: max(parent) + 1 + i added. */
  function Extend(s: set<nat>, i: nat): set<nat>
    requires s != {}
  {
    s + {MaxOf(s) + 1 + i}
  }

  /** A child's set is its parent's plus one attribute above every parent attribute. */
  lemma ExtendMeans(s: set<nat>, i: nat)
    requires s != {}
    ensures MaxOf(s) + 1 + i !in s
    ensures forall x :: x in s ==> x < MaxOf(s) + 1 + i
    ensures s < Extend(s, i) && Extend(s, i) - s == {MaxOf(s) + 1 + i}
    ensures MaxOf(Extend(s, i)) == MaxOf(s) + 1 + i
    ensures |Extend(s, i)| == |s| + 1
  {
    var a := MaxOf(s) + 1 + i;
    assert a in Extend(s, i);
    assert forall x :: x in Extend(s, i) ==> x <= a;
  }

  /** Different parents or different rounds never produce the same child set. */
  lemma ExtendInjective(s: set<nat>, i: nat, t: set<nat>, j: nat)
    requires s != {} && t != {} && Extend(s, i) == Extend(t, j)
    ensures s == t && i == j
  {
    ExtendMeans(s, i);
    ExtendMeans(t, j);
    var a := MaxOf(s) + 1 + i;
    assert s == Extend(s, i) - {a};
    assert t == Extend(t, j) - {a};
  }

  // ---------------------------------------------------------------------------------------
  // The node list as a value
  // ---------------------------------------------------------------------------------------

  /** Child `j` of node `p` is a later node whose parent is p and whose set extends p's in round j. */
  ghost predicate ChildAt(nodes: seq<LabelSetNode>, parentOf: seq<nat>, p: nat, j: nat)
    requires p < |nodes| == |parentOf| && j < |nodes[p].children| && nodes[p].labelSet != {}
  {
    var c := nodes[p].children[j];
    0 < c < |nodes| && parentOf[c] == p && nodes[c].labelSet == Extend(nodes[p].labelSet, j)
  }

  /**
   * The node list is a tree rooted at node 0 = {base}: every later node hangs under an
   * earlier one, one level deeper, and every child entry is such a node.
   */
  ghost predicate Linked(nodes: seq<LabelSetNode>, parentOf: seq<nat>, depthOf: seq<nat>, base: nat)
  {
    && |parentOf| == |nodes| && |depthOf| == |nodes|
    && (|nodes| > 0 ==> nodes[0].labelSet == {base} && depthOf[0] == 1)
    && (forall n :: 0 <= n < |nodes| ==> nodes[n].labelSet != {})
    && (forall n {:trigger parentOf[n]} :: 0 < n < |nodes| ==>
          parentOf[n] < n && n in nodes[parentOf[n]].children && depthOf[n] == depthOf[parentOf[n]] + 1)
    && (forall p, j :: 0 <= p < |nodes| && 0 <= j < |nodes[p].children| ==> ChildAt(nodes, parentOf, p, j))
  }

  /** No two nodes share a label set. */
  ghost predicate UniqueSets(nodes: seq<LabelSetNode>)
  {
    forall n, m :: 0 <= n < m < |nodes| ==> nodes[n].labelSet != nodes[m].labelSet
  }

  /** No node but the root is deeper than max_depth, and nodes at max_depth or deeper are leaves. */
  ghost predicate DepthBounded(maxDepth: nat, nodes: seq<LabelSetNode>, depthOf: seq<nat>)
    requires |depthOf| == |nodes|
  {
    && (forall n :: 0 < n < |nodes| ==> depthOf[n] <= maxDepth)
    && (forall n :: 0 <= n < |nodes| && depthOf[n] >= maxDepth ==> nodes[n].children == [])
  }

  /** generated_groups counts the children made, and with max_groups set stays below it. */
  predicate WithinBudget(maxGroups: Option<nat>, generated: nat, count: nat)
  {
    && generated + 1 == count
    && (maxGroups.Some? ==> generated <= if maxGroups.value >= 1 then maxGroups.value - 1 else 0)
  }

  /** node.add_child(child) for a new node made in round |children| of p's branch loop. */
  function AddChild(nodes: seq<LabelSetNode>, p: nat): (r: seq<LabelSetNode>)
    requires p < |nodes| && nodes[p].labelSet != {}
    ensures |r| == |nodes| + 1
  {
    nodes[p := nodes[p].(children := nodes[p].children + [|nodes|])]
      + [LabelSetNode(Extend(nodes[p].labelSet, |nodes[p].children|), [], [])]
  }

  lemma AddChildLinked(nodes: seq<LabelSetNode>, parentOf: seq<nat>, depthOf: seq<nat>, base: nat, p: nat)
    requires Linked(nodes, parentOf, depthOf, base) && p < |nodes|
    ensures Linked(AddChild(nodes, p), parentOf + [p], depthOf + [depthOf[p] + 1], base)
  {
    var nodes', parentOf', depthOf' := AddChild(nodes, p), parentOf + [p], depthOf + [depthOf[p] + 1];
    var c := |nodes|;
    ExtendMeans(nodes[p].labelSet, |nodes[p].children|);
    forall n | 0 < n < |nodes'|
      ensures parentOf'[n] < n && n in nodes'[parentOf'[n]].children && depthOf'[n] == depthOf'[parentOf'[n]] + 1
    {
      if n < c {
        assert n in nodes[parentOf[n]].children;
      } else {
        assert nodes'[p].children == nodes[p].children + [c];
      }
    }
    forall q, j | 0 <= q < |nodes'| && 0 <= j < |nodes'[q].children|
      ensures ChildAt(nodes', parentOf', q, j)
    {
      if q != p || j < |nodes[p].children| {
        assert nodes'[q].children[j] == nodes[q].children[j];
        assert ChildAt(nodes, parentOf, q, j);
      }
    }
  }

  lemma AddChildUnique(nodes: seq<LabelSetNode>, parentOf: seq<nat>, depthOf: seq<nat>, base: nat, p: nat)
    requires Linked(nodes, parentOf, depthOf, base) && UniqueSets(nodes) && p < |nodes|
    ensures UniqueSets(AddChild(nodes, p))
  {
    var nodes' := AddChild(nodes, p);
    var s, i := nodes[p].labelSet, |nodes[p].children|;
    forall m | 0 <= m < |nodes|
      ensures nodes'[m].labelSet != Extend(s, i)
    {
      NotYetMade(nodes, parentOf, depthOf, base, p, m);
    }
  }

  /** No node has the set that round |children| of p's loop is about to make. */
  lemma NotYetMade(nodes: seq<LabelSetNode>, parentOf: seq<nat>, depthOf: seq<nat>, base: nat, p: nat, m: nat)
    requires Linked(nodes, parentOf, depthOf, base) && UniqueSets(nodes) && p < |nodes| && m < |nodes|
    ensures nodes[m].labelSet != Extend(nodes[p].labelSet, |nodes[p].children|)
  {
    var s, i := nodes[p].labelSet, |nodes[p].children|;
    ExtendMeans(s, i);
    if m != 0 {
      var q := parentOf[m];
      var j :| 0 <= j < |nodes[q].children| && nodes[q].children[j] == m;
      assert ChildAt(nodes, parentOf, q, j);
      assert nodes[q].labelSet != s || j != i by {
        if q < p {
          assert nodes[q].labelSet != nodes[p].labelSet;
        } else if p < q {
          assert nodes[p].labelSet != nodes[q].labelSet;
        }
      }
      ExtendDiffers(nodes[q].labelSet, j, s, i);
    }
  }

  lemma ExtendDiffers(s: set<nat>, i: nat, t: set<nat>, j: nat)
    requires s != {} && t != {} && (s != t || i != j)
    ensures Extend(s, i) != Extend(t, j)
  {
    if Extend(s, i) == Extend(t, j) {
      ExtendInjective(s, i, t, j);
    }
  }

  lemma AddChildBounded(maxDepth: nat, nodes: seq<LabelSetNode>, depthOf: seq<nat>, p: nat)
    requires |depthOf| == |nodes| && p < |nodes| && nodes[p].labelSet != {}
    requires DepthBounded(maxDepth, nodes, depthOf) && depthOf[p] < maxDepth
    ensures DepthBounded(maxDepth, AddChild(nodes, p), depthOf + [depthOf[p] + 1])
  {
  }

  /** The children of a node are distinct nodes, none of them the root. */
  lemma ChildrenDistinct(nodes: seq<LabelSetNode>, parentOf: seq<nat>, depthOf: seq<nat>, base: nat, p: nat)
    requires Linked(nodes, parentOf, depthOf, base) && p < |nodes|
    ensures Distinct(nodes[p].children)
    ensures forall j :: 0 <= j < |nodes[p].children| ==>
              0 < nodes[p].children[j] < |nodes| && parentOf[nodes[p].children[j]] == p
  {
    var cs := nodes[p].children;
    forall j, k | 0 <= j < k < |cs|
      ensures cs[j] != cs[k]
    {
      assert ChildAt(nodes, parentOf, p, j) && ChildAt(nodes, parentOf, p, k);
      if cs[j] == cs[k] {
        ExtendInjective(nodes[p].labelSet, j, nodes[p].labelSet, k);
      }
    }
    forall j | 0 <= j < |cs|
      ensures 0 < cs[j] < |nodes| && parentOf[cs[j]] == p
    {
      assert ChildAt(nodes, parentOf, p, j);
    }
  }

  /** A node at depth d carries d attributes, base_attr_start the smallest of them. */
  ghost predicate Attributed(nodes: seq<LabelSetNode>, depthOf: seq<nat>, base: nat)
    requires |depthOf| == |nodes|
  {
    forall n :: 0 <= n < |nodes| ==>
      && |nodes[n].labelSet| == depthOf[n]
      && base in nodes[n].labelSet
      && (forall x :: x in nodes[n].labelSet ==> base <= x)
  }

  lemma AddChildAttributed(nodes: seq<LabelSetNode>, parentOf: seq<nat>, depthOf: seq<nat>, base: nat, p: nat)
    requires Linked(nodes, parentOf, depthOf, base) && Attributed(nodes, depthOf, base) && p < |nodes|
    ensures Attributed(AddChild(nodes, p), depthOf + [depthOf[p] + 1], base)
  {
    var nodes', depthOf' := AddChild(nodes, p), depthOf + [depthOf[p] + 1];
    ExtendMeans(nodes[p].labelSet, |nodes[p].children|);
    forall n | 0 <= n < |nodes'|
      ensures |nodes'[n].labelSet| == depthOf'[n] && base in nodes'[n].labelSet
      ensures forall x :: x in nodes'[n].labelSet ==> base <= x
    {
      if n < |nodes| {
        assert nodes'[n].labelSet == nodes[n].labelSet;
      }
    }
  }

  /** With max_groups = g set and at least 1, the tree never has more than g nodes. */
  lemma BudgetBound(maxGroups: Option<nat>, generated: nat, count: nat)
    requires WithinBudget(maxGroups, generated, count) && maxGroups.Some? && maxGroups.value >= 1
    ensures count <= maxGroups.value
  {
  }

  // ---------------------------------------------------------------------------------------
  // nodes_by_depth
  // ---------------------------------------------------------------------------------------

  /** nodes_by_depth.get(depth, []). */
  function Layer(byDepth: map<nat, seq<nat>>, d: nat): seq<nat>
  {
    if d in byDepth then byDepth[d] else []
  }

  /**
   * nodes_by_depth lists, once, at its depth, every one of the first `count` nodes except
   * `pending` (the node whose _build_recursive has not yet started), and nothing else.
   */
  ghost predicate ListedExcept(count: nat, depthOf: seq<nat>, byDepth: map<nat, seq<nat>>, pending: int)
    requires |depthOf| == count
  {
    && (forall d :: d in byDepth ==> Distinct(byDepth[d]))
    && (forall d, k :: d in byDepth && 0 <= k < |byDepth[d]| ==>
          byDepth[d][k] < count && byDepth[d][k] != pending && depthOf[byDepth[d][k]] == d)
    && (forall n {:trigger Layer(byDepth, depthOf[n])} :: 0 <= n < count && n != pending ==> n in Layer(byDepth, depthOf[n]))
  }

  lemma ListPending(count: nat, depthOf: seq<nat>, byDepth: map<nat, seq<nat>>, x: nat)
    requires |depthOf| == count && x < count && ListedExcept(count, depthOf, byDepth, x)
    ensures ListedExcept(count, depthOf, byDepth[depthOf[x] := Layer(byDepth, depthOf[x]) + [x]], -1)
  {
    var d := depthOf[x];
    var byDepth' := byDepth[d := Layer(byDepth, d) + [x]];
    assert x !in Layer(byDepth, d);
    forall e | e in byDepth'
      ensures Distinct(byDepth'[e])
    {
    }
    forall n | 0 <= n < count
      ensures n in Layer(byDepth', depthOf[n])
    {
      if n != x {
        assert n in Layer(byDepth, depthOf[n]);
      }
    }
  }

  lemma ListNewNode(count: nat, depthOf: seq<nat>, byDepth: map<nat, seq<nat>>, d: nat)
    requires |depthOf| == count && ListedExcept(count, depthOf, byDepth, -1)
    ensures ListedExcept(count + 1, depthOf + [d], byDepth, count)
  {
    forall n | 0 <= n < count
      ensures n in Layer(byDepth, (depthOf + [d])[n])
    {
      assert (depthOf + [d])[n] == depthOf[n];
    }
  }

  // ---------------------------------------------------------------------------------------
  // The tree's shape, as the traversal needs it
  // ---------------------------------------------------------------------------------------

  /** The parent and child links agree, children lists are duplicate-free, children are one level down. */
  ghost predicate Shaped(nodes: seq<LabelSetNode>, parentOf: seq<nat>, depthOf: seq<nat>)
  {
    && |parentOf| == |nodes| && |depthOf| == |nodes|
    && (forall n {:trigger parentOf[n]} :: 0 < n < |nodes| ==>
          parentOf[n] < n && n in nodes[parentOf[n]].children && depthOf[n] == depthOf[parentOf[n]] + 1)
    && (forall p :: 0 <= p < |nodes| ==> Distinct(nodes[p].children))
    && (forall p, j :: 0 <= p < |nodes| && 0 <= j < |nodes[p].children| ==>
          0 < nodes[p].children[j] < |nodes| && parentOf[nodes[p].children[j]] == p)
  }

  lemma LinkedShaped(nodes: seq<LabelSetNode>, parentOf: seq<nat>, depthOf: seq<nat>, base: nat)
    requires Linked(nodes, parentOf, depthOf, base)
    ensures Shaped(nodes, parentOf, depthOf)
  {
    forall p | 0 <= p < |nodes|
      ensures Distinct(nodes[p].children)
      ensures forall j :: 0 <= j < |nodes[p].children| ==>
                0 < nodes[p].children[j] < |nodes| && parentOf[nodes[p].children[j]] == p
    {
      ChildrenDistinct(nodes, parentOf, depthOf, base, p);
    }
  }

  // ---------------------------------------------------------------------------------------
  // Breadth-first order (_get_all_nodes)
  // ---------------------------------------------------------------------------------------

  /** Every node exactly once, the root first, shallower nodes before deeper ones. */
  ghost predicate IsBfsOrder(nodes: seq<LabelSetNode>, depthOf: seq<nat>, order: seq<nat>)
    requires |depthOf| == |nodes|
  {
    && |order| == |nodes| && Distinct(order)
    && (forall k :: 0 <= k < |order| ==> order[k] < |nodes|)
    && (forall n :: 0 <= n < |nodes| ==> n in order)
    && (|order| > 0 ==> order[0] == 0)
    && (forall i, j :: 0 <= i < j < |order| ==> depthOf[order[i]] <= depthOf[order[j]])
  }

  /**
   * What holds at the head of the deque loop, stated over `seen`, every node ever enqueued in
   * order: the result is seen[..head] and the deque is seen[head..].
   */
  ghost predicate BfsInvariant(nodes: seq<LabelSetNode>, parentOf: seq<nat>, depthOf: seq<nat>,
                               seen: seq<nat>, head: nat)
    requires |parentOf| == |nodes| && |depthOf| == |nodes|
  {
    && head <= |seen|
    && (forall k :: 0 <= k < |seen| ==> seen[k] < |nodes|)
    && Distinct(seen)
    && (|nodes| > 0 ==> |seen| > 0 && seen[0] == 0)
    && (forall k {:trigger parentOf[seen[k]]} :: 0 <= k < |seen| && seen[k] != 0 ==> parentOf[seen[k]] in seen)
    && (forall i, k :: head <= i < |seen| && 0 <= k < |seen| && seen[k] != 0 ==> parentOf[seen[k]] != seen[i])
    && (forall i, j :: 0 <= i < head && 0 <= j < |nodes[seen[i]].children| ==> nodes[seen[i]].children[j] in seen)
    && (forall i, j :: 0 <= i < j < |seen| ==> depthOf[seen[i]] <= depthOf[seen[j]])
    && (head < |seen| ==> depthOf[seen[|seen| - 1]] <= depthOf[seen[head]] + 1)
  }

  lemma BfsStart(nodes: seq<LabelSetNode>, parentOf: seq<nat>, depthOf: seq<nat>)
    requires |parentOf| == |nodes| && |depthOf| == |nodes| && |nodes| > 0
    ensures BfsInvariant(nodes, parentOf, depthOf, [0], 0)
  {
  }

  /** popleft, append to the result, extend the deque with the node's children. */
  lemma BfsStep(nodes: seq<LabelSetNode>, parentOf: seq<nat>, depthOf: seq<nat>, seen: seq<nat>, head: nat)
    requires Shaped(nodes, parentOf, depthOf)
    requires BfsInvariant(nodes, parentOf, depthOf, seen, head) && head < |seen|
    ensures seen[head] < |nodes|
    ensures BfsInvariant(nodes, parentOf, depthOf, seen + nodes[seen[head]].children, head + 1)
  {
    var p := seen[head];
    var cs := nodes[p].children;
    var seen' := seen + cs;
    BfsStepFresh(nodes, parentOf, depthOf, seen, head);
    BfsStepSorted(nodes, parentOf, depthOf, seen, head);
    forall k | 0 <= k < |seen'|
      ensures seen'[k] < |nodes|
    {
      if k >= |seen| {
        assert seen'[k] == cs[k - |seen|];
      }
    }
    BfsStepParents(nodes, parentOf, depthOf, seen, head);
    forall i, j | 0 <= i < head + 1 && 0 <= j < |nodes[seen'[i]].children|
      ensures nodes[seen'[i]].children[j] in seen'
    {
      assert seen'[i] == seen[i];
      if i == head {
        assert seen'[|seen| + j] == cs[j];
      }
    }
  }

  /** The children of the node taken off the deque are new, and one level below it. */
  lemma BfsStepFresh(nodes: seq<LabelSetNode>, parentOf: seq<nat>, depthOf: seq<nat>, seen: seq<nat>, head: nat)
    requires Shaped(nodes, parentOf, depthOf)
    requires BfsInvariant(nodes, parentOf, depthOf, seen, head) && head < |seen|
    ensures seen[head] < |nodes|
    ensures forall j :: 0 <= j < |nodes[seen[head]].children| ==>
              nodes[seen[head]].children[j] !in seen && depthOf[nodes[seen[head]].children[j]] == depthOf[seen[head]] + 1
    ensures Distinct(seen + nodes[seen[head]].children)
  {
    var p := seen[head];
    var cs := nodes[p].children;
    forall j | 0 <= j < |cs|
      ensures cs[j] !in seen && depthOf[cs[j]] == depthOf[p] + 1
    {
      var c := cs[j];
      assert parentOf[c] == p;
    }
    var seen' := seen + cs;
    forall i, j | 0 <= i < j < |seen'|
      ensures seen'[i] != seen'[j]
    {
      if j >= |seen| && i < |seen| {
        assert seen'[j] == cs[j - |seen|];
      } else if i >= |seen| {
        assert seen'[i] == cs[i - |seen|] && seen'[j] == cs[j - |seen|];
      }
    }
  }

  /** The parent facts survive the step: parents are seen, and no node still queued is a parent. */
  lemma BfsStepParents(nodes: seq<LabelSetNode>, parentOf: seq<nat>, depthOf: seq<nat>, seen: seq<nat>, head: nat)
    requires Shaped(nodes, parentOf, depthOf)
    requires |parentOf| == |nodes| && |depthOf| == |nodes| && head < |seen|
    requires forall k :: 0 <= k < |seen| ==> seen[k] < |nodes|
    requires forall k :: 0 <= k < |seen| && seen[k] != 0 ==> parentOf[seen[k]] in seen
    requires forall i, k :: head <= i < |seen| && 0 <= k < |seen| && seen[k] != 0 ==> parentOf[seen[k]] != seen[i]
    requires forall j :: 0 <= j < |nodes[seen[head]].children| ==> nodes[seen[head]].children[j] !in seen
    requires Distinct(seen + nodes[seen[head]].children)
    ensures forall k :: 0 <= k < |seen + nodes[seen[head]].children| && (seen + nodes[seen[head]].children)[k] != 0 ==>
              parentOf[(seen + nodes[seen[head]].children)[k]] in seen + nodes[seen[head]].children
    ensures forall i, k ::
              head + 1 <= i < |seen + nodes[seen[head]].children| && 0 <= k < |seen + nodes[seen[head]].children| &&
              (seen + nodes[seen[head]].children)[k] != 0 ==>
              parentOf[(seen + nodes[seen[head]].children)[k]] != (seen + nodes[seen[head]].children)[i]
  {
    var p := seen[head];
    var cs := nodes[p].children;
    var seen' := seen + cs;
    forall k | 0 <= k < |seen'| && seen'[k] != 0
      ensures parentOf[seen'[k]] in seen'
    {
      if k < |seen| {
        assert seen'[k] == seen[k];
      } else {
        assert seen'[k] == cs[k - |seen|];
        assert seen'[head] == p;
      }
    }
    forall i, k | head + 1 <= i < |seen'| && 0 <= k < |seen'| && seen'[k] != 0
      ensures parentOf[seen'[k]] != seen'[i]
    {
      if k >= |seen| {
        assert seen'[k] == cs[k - |seen|];
        assert seen'[head] == p;
      } else if i >= |seen| {
        assert seen'[i] == cs[i - |seen|];
        assert seen'[k] == seen[k];
      } else {
        assert seen'[k] == seen[k] && seen'[i] == seen[i];
      }
    }
  }

  /** Appending the children keeps `seen` ordered by depth and the deque within one level. */
  lemma BfsStepSorted(nodes: seq<LabelSetNode>, parentOf: seq<nat>, depthOf: seq<nat>, seen: seq<nat>, head: nat)
    requires |parentOf| == |nodes| && |depthOf| == |nodes| && head < |seen|
    requires forall k :: 0 <= k < |seen| ==> seen[k] < |nodes|
    requires forall i, j :: 0 <= i < j < |seen| ==> depthOf[seen[i]] <= depthOf[seen[j]]
    requires depthOf[seen[|seen| - 1]] <= depthOf[seen[head]] + 1
    requires forall j :: 0 <= j < |nodes[seen[head]].children| ==>
               nodes[seen[head]].children[j] < |nodes| && depthOf[nodes[seen[head]].children[j]] == depthOf[seen[head]] + 1
    ensures forall i, j :: 0 <= i < j < |seen + nodes[seen[head]].children| ==>
              depthOf[(seen + nodes[seen[head]].children)[i]] <= depthOf[(seen + nodes[seen[head]].children)[j]]
    ensures head + 1 < |seen + nodes[seen[head]].children| ==>
              depthOf[(seen + nodes[seen[head]].children)[|seen + nodes[seen[head]].children| - 1]]
                <= depthOf[(seen + nodes[seen[head]].children)[head + 1]] + 1
  {
    var p := seen[head];
    var cs := nodes[p].children;
    var seen' := seen + cs;
    forall i, j | 0 <= i < j < |seen'|
      ensures depthOf[seen'[i]] <= depthOf[seen'[j]]
    {
      if j >= |seen| {
        assert seen'[j] == cs[j - |seen|];
        if i < |seen| {
          assert depthOf[seen[i]] <= depthOf[seen[|seen| - 1]];
        } else {
          assert seen'[i] == cs[i - |seen|];
        }
      }
    }
    if head + 1 < |seen'| {
      if head + 1 < |seen| {
        assert depthOf[p] <= depthOf[seen[head + 1]];
        if cs != [] {
          assert seen'[|seen'| - 1] == cs[|cs| - 1];
        }
      } else {
        assert seen'[head + 1] == cs[0] && seen'[|seen'| - 1] == cs[|cs| - 1];
      }
    }
  }

  /** Once the deque is empty, every node has been reached, in breadth-first order. */
  lemma BfsDone(nodes: seq<LabelSetNode>, parentOf: seq<nat>, depthOf: seq<nat>, seen: seq<nat>)
    requires Shaped(nodes, parentOf, depthOf)
    requires BfsInvariant(nodes, parentOf, depthOf, seen, |seen|)
    ensures IsBfsOrder(nodes, depthOf, seen)
  {
    forall n | 0 <= n < |nodes|
      ensures n in seen
    {
      Reached(nodes, parentOf, depthOf, seen, n);
    }
    BfsBound(nodes, parentOf, depthOf, seen, |seen|);
    CoversRange(seen, |nodes|);
  }

  lemma {:induction false} Reached(nodes: seq<LabelSetNode>, parentOf: seq<nat>, depthOf: seq<nat>,
                                   seen: seq<nat>, n: nat)
    requires Shaped(nodes, parentOf, depthOf)
    requires BfsInvariant(nodes, parentOf, depthOf, seen, |seen|) && n < |nodes|
    ensures n in seen
    decreases n
  {
    if n != 0 {
      var p := parentOf[n];
      Reached(nodes, parentOf, depthOf, seen, p);
      var i :| 0 <= i < |seen| && seen[i] == p;
      var j :| 0 <= j < |nodes[p].children| && nodes[p].children[j] == n;
      assert nodes[seen[i]].children[j] in seen;
    }
  }

  /** A duplicate-free sequence holding each of 0..count-1 is at least count long. */
  lemma CoversRange(s: seq<nat>, count: nat)
    requires Distinct(s) && forall n :: 0 <= n < count ==> n in s
    ensures |s| >= count
  {
    var all := Elems(Range(0, count));
    RangeCard(count);
    DistinctCard(s);
    assert all <= Elems(s) by {
      forall n | n in all
        ensures n in Elems(s)
      {
        var k :| 0 <= k < count && Range(0, count)[k] == n;
      }
    }
    SubsetCard(all, Elems(s));
  }

  /** A duplicate-free sequence of numbers below count is at most count long. */
  lemma WithinRange(s: seq<nat>, count: nat)
    requires Distinct(s) && forall k :: 0 <= k < |s| ==> s[k] < count
    ensures |s| <= count
  {
    DistinctCard(s);
    RangeCard(count);
    assert Elems(s) <= Elems(Range(0, count)) by {
      forall x | x in Elems(s)
        ensures x in Elems(Range(0, count))
      {
        var k :| 0 <= k < |s| && s[k] == x;
        assert Range(0, count)[x] == x;
      }
    }
    SubsetCard(Elems(s), Elems(Range(0, count)));
  }

  lemma SubsetCard<T>(x: set<T>, y: set<T>)
    requires x <= y
    ensures |x| <= |y|
  {
    assert y == x + (y - x);
  }

  lemma RangeCard(count: nat)
    ensures |Elems(Range(0, count))| == count
  {
    var r := Range(0, count);
    assert Distinct(r);
    DistinctCard(r);
  }

  /** `seen` is distinct and bounded, so it fits in the node list. */
  lemma BfsBound(nodes: seq<LabelSetNode>, parentOf: seq<nat>, depthOf: seq<nat>, seen: seq<nat>, head: nat)
    requires |parentOf| == |nodes| && |depthOf| == |nodes|
    requires BfsInvariant(nodes, parentOf, depthOf, seen, head)
    ensures |seen| <= |nodes|
  {
    WithinRange(seen, |nodes|);
  }

  // ---------------------------------------------------------------------------------------
  // Weights (step 2 of _assign_vectors_evenly)
  // ---------------------------------------------------------------------------------------

  /** The weight of a group at `depth`: max_depth - depth + 1. */
  function Weight(maxDepth: nat, depth: nat): int
  {
    maxDepth - depth + 1
  }

  /** total_weight, summed over the groups in `order`. */
  function TotalWeight(maxDepth: nat, depthOf: seq<nat>, order: seq<nat>): int
    requires forall k :: 0 <= k < |order| ==> order[k] < |depthOf|
  {
    if order == [] then 0
    else TotalWeight(maxDepth, depthOf, order[..|order| - 1]) + Weight(maxDepth, depthOf[order[|order| - 1]])
  }

  lemma {:induction false} TotalWeightBounds(maxDepth: nat, depthOf: seq<nat>, order: seq<nat>)
    requires forall k :: 0 <= k < |order| ==> order[k] < |depthOf| && Weight(maxDepth, depthOf[order[k]]) >= 0
    ensures TotalWeight(maxDepth, depthOf, order) >= 0
    ensures forall k :: 0 <= k < |order| ==> TotalWeight(maxDepth, depthOf, order) >= Weight(maxDepth, depthOf[order[k]])
  {
    if order != [] {
      TotalWeightBounds(maxDepth, depthOf, order[..|order| - 1]);
      forall k | 0 <= k < |order| - 1
        ensures order[..|order| - 1][k] == order[k]
      {
      }
    }
  }

  /** A tree with a node below the root needs max_depth >= 1. */
  lemma DeeperNeedsDepth(maxDepth: nat, nodes: seq<LabelSetNode>, parentOf: seq<nat>, depthOf: seq<nat>, base: nat)
    requires Linked(nodes, parentOf, depthOf, base) && DepthBounded(maxDepth, nodes, depthOf) && |nodes| > 1
    ensures maxDepth >= 1
  {
    assert depthOf[1] == depthOf[parentOf[1]] + 1;
  }

  /**
   * The normalisation w / total_weight divides by zero exactly when max_depth is 0: the root,
   * at depth 1, is then the only group and weighs 0; otherwise the root alone weighs max_depth.
   */
  lemma ZeroWeightIff(maxDepth: nat, nodes: seq<LabelSetNode>, parentOf: seq<nat>, depthOf: seq<nat>, base: nat,
                      order: seq<nat>)
    requires Linked(nodes, parentOf, depthOf, base) && DepthBounded(maxDepth, nodes, depthOf)
    requires IsBfsOrder(nodes, depthOf, order) && |nodes| > 0
    ensures TotalWeight(maxDepth, depthOf, order) >= 0
    ensures TotalWeight(maxDepth, depthOf, order) == 0 <==> maxDepth == 0
  {
    forall k | 0 <= k < |order|
      ensures Weight(maxDepth, depthOf[order[k]]) >= 0
    {
      if order[k] != 0 {
        assert depthOf[order[k]] <= maxDepth;
      }
    }
    TotalWeightBounds(maxDepth, depthOf, order);
    assert TotalWeight(maxDepth, depthOf, order) >= Weight(maxDepth, depthOf[order[0]]) == maxDepth;
    if |nodes| > 1 {
      DeeperNeedsDepth(maxDepth, nodes, parentOf, depthOf, base);
    } else {
      assert order == [0];
      assert order[..0] == [];
    }
  }

  // ---------------------------------------------------------------------------------------
  // Vector ids (steps 1 and 3 of _assign_vectors_evenly)
  // ---------------------------------------------------------------------------------------

  /** idx = min(bisect_left(prefix_sums, r), len(all_nodes) - 1), with the bisection as `pick`. */
  function Chosen(pick: nat -> nat, count: nat, j: nat): (r: nat)
    requires count > 0
    ensures r < count
    ensures pick(j) < count ==> r == pick(j)
  {
    if pick(j) < count - 1 then pick(j) else count - 1
  }

  /** The shuffled remaining ids that the choices send to group `k`, in shuffled order. */
  function Assigned(s: seq<nat>, pick: nat -> nat, count: nat, k: nat): seq<nat>
    requires count > 0
  {
    if s == [] then []
    else Assigned(s[..|s| - 1], pick, count, k) + (if Chosen(pick, count, |s| - 1) == k then [s[|s| - 1]] else [])
  }

  /** The vectors of the group at position k of the traversal: its guaranteed id k, then its share. */
  function Held(s: seq<nat>, pick: nat -> nat, count: nat, k: nat): seq<nat>
    requires count > 0
  {
    [k] + Assigned(s, pick, count, k)
  }

  function Max(a: nat, b: nat): nat
  {
    if a < b then b else a
  }

  lemma {:induction false} AssignedWithin(s: seq<nat>, pick: nat -> nat, count: nat, k: nat)
    requires count > 0
    ensures forall x :: x in Assigned(s, pick, count, k) ==> x in s
  {
    if s != [] {
      AssignedWithin(s[..|s| - 1], pick, count, k);
    }
  }

  lemma {:induction false} AssignedDistinct(s: seq<nat>, pick: nat -> nat, count: nat, k: nat)
    requires count > 0 && Distinct(s)
    ensures Distinct(Assigned(s, pick, count, k))
  {
    if s != [] {
      var init := s[..|s| - 1];
      AssignedDistinct(init, pick, count, k);
      AssignedWithin(init, pick, count, k);
      assert s[|s| - 1] !in init;
    }
  }

  /** Each remaining id goes to the group its choice names. */
  lemma {:induction false} AssignedCovers(s: seq<nat>, pick: nat -> nat, count: nat, j: nat)
    requires count > 0 && j < |s|
    ensures s[j] in Assigned(s, pick, count, Chosen(pick, count, j))
  {
    if j < |s| - 1 {
      AssignedCovers(s[..|s| - 1], pick, count, j);
    }
  }

  /** No remaining id goes to two groups. */
  lemma {:induction false} AssignedOwner(s: seq<nat>, pick: nat -> nat, count: nat, k1: nat, k2: nat, v: nat)
    requires count > 0 && Distinct(s)
    requires v in Assigned(s, pick, count, k1) && v in Assigned(s, pick, count, k2)
    ensures k1 == k2
  {
    var init := s[..|s| - 1];
    AssignedWithin(init, pick, count, k1);
    AssignedWithin(init, pick, count, k2);
    if v == s[|s| - 1] {
      assert v !in init;
    } else {
      AssignedOwner(init, pick, count, k1, k2, v);
    }
  }

  /** The position of v in s. */
  function IndexOf(s: seq<nat>, v: nat): (r: nat)
    requires v in s
    ensures r < |s| && s[r] == v
  {
    if s[0] == v then 0 else 1 + IndexOf(s[1..], v)
  }

  /** The traversal position of the group that receives id v. */
  function Owner(s: seq<nat>, pick: nat -> nat, count: nat, v: nat): nat
    requires count > 0
  {
    if v < count || v !in s then v else Chosen(pick, count, IndexOf(s, v))
  }

  /** The remaining ids are count .. total - 1, each once. */
  lemma RemainingIds(count: nat, total: nat, s: seq<nat>)
    requires multiset(s) == multiset(Range(count, total))
    ensures Distinct(s)
    ensures forall x :: x in s <==> count <= x < total
  {
    var r := Range(count, total);
    assert Distinct(r);
    PermutationDistinct(r, s);
    forall x
      ensures x in s <==> count <= x < total
    {
      assert x in s <==> x in multiset(s);
      assert x in r <==> x in multiset(r);
      if count <= x < total {
        assert r[x - count] == x;
      }
    }
  }

  lemma ConsDistinct(x: nat, t: seq<nat>)
    requires Distinct(t) && x !in t
    ensures Distinct([x] + t)
  {
    forall i, j | 0 <= i < j < |[x] + t|
      ensures ([x] + t)[i] != ([x] + t)[j]
    {
      if i == 0 {
        assert ([x] + t)[j] == t[j - 1];
      } else {
        assert ([x] + t)[i] == t[i - 1] && ([x] + t)[j] == t[j - 1];
      }
    }
  }

  /**
   * The ids handed out are exactly 0 .. max(count, total) - 1: each is held by exactly one
   * group, its owner, and no group holds one twice. With fewer vectors than groups the
   * guaranteed ids run past total_vectors.
   */
  lemma VectorsPartition(count: nat, total: nat, s: seq<nat>, pick: nat -> nat)
    requires count > 0 && multiset(s) == multiset(Range(count, total))
    ensures forall k, v :: 0 <= k < count && v in Held(s, pick, count, k) ==> v < Max(count, total)
    ensures forall v :: 0 <= v < Max(count, total) ==>
              Owner(s, pick, count, v) < count && v in Held(s, pick, count, Owner(s, pick, count, v))
    ensures forall k1, k2, v ::
              0 <= k1 < count && 0 <= k2 < count && v in Held(s, pick, count, k1) && v in Held(s, pick, count, k2) ==>
              k1 == k2
    ensures forall k :: 0 <= k < count ==> Distinct(Held(s, pick, count, k))
  {
    RemainingIds(count, total, s);
    HeldBounded(count, total, s, pick);
    HeldCovers(count, total, s, pick);
    HeldOnce(count, total, s, pick);
    HeldDistinct(count, total, s, pick);
  }

  lemma HeldBounded(count: nat, total: nat, s: seq<nat>, pick: nat -> nat)
    requires count > 0 && forall x :: x in s <==> count <= x < total
    ensures forall k, v :: 0 <= k < count && v in Held(s, pick, count, k) ==> v < Max(count, total)
  {
    forall k, v | 0 <= k < count && v in Held(s, pick, count, k)
      ensures v < Max(count, total)
    {
      AssignedWithin(s, pick, count, k);
    }
  }

  lemma HeldCovers(count: nat, total: nat, s: seq<nat>, pick: nat -> nat)
    requires count > 0 && forall x :: x in s <==> count <= x < total
    ensures forall v :: 0 <= v < Max(count, total) ==>
              Owner(s, pick, count, v) < count && v in Held(s, pick, count, Owner(s, pick, count, v))
  {
    forall v | 0 <= v < Max(count, total)
      ensures Owner(s, pick, count, v) < count && v in Held(s, pick, count, Owner(s, pick, count, v))
    {
      if v >= count {
        var j := IndexOf(s, v);
        AssignedCovers(s, pick, count, j);
      }
    }
  }

  lemma HeldOnce(count: nat, total: nat, s: seq<nat>, pick: nat -> nat)
    requires count > 0 && Distinct(s) && forall x :: x in s <==> count <= x < total
    ensures forall k1, k2, v ::
              0 <= k1 < count && 0 <= k2 < count && v in Held(s, pick, count, k1) && v in Held(s, pick, count, k2) ==>
              k1 == k2
  {
    forall k1, k2, v | 0 <= k1 < count && 0 <= k2 < count && v in Held(s, pick, count, k1) && v in Held(s, pick, count, k2)
      ensures k1 == k2
    {
      AssignedWithin(s, pick, count, k1);
      AssignedWithin(s, pick, count, k2);
      if v >= count {
        AssignedOwner(s, pick, count, k1, k2, v);
      }
    }
  }

  lemma HeldDistinct(count: nat, total: nat, s: seq<nat>, pick: nat -> nat)
    requires count > 0 && Distinct(s) && forall x :: x in s <==> count <= x < total
    ensures forall k :: 0 <= k < count ==> Distinct(Held(s, pick, count, k))
  {
    forall k | 0 <= k < count
      ensures Distinct(Held(s, pick, count, k))
    {
      AssignedDistinct(s, pick, count, k);
      AssignedWithin(s, pick, count, k);
      ConsDistinct(k, Assigned(s, pick, count, k));
    }
  }

  // ---------------------------------------------------------------------------------------
  // get_layer_vectors
  // ---------------------------------------------------------------------------------------

  /** The vectors of the listed nodes, one node after the other. */
  function LayerVectors(nodes: seq<LabelSetNode>, ids: seq<nat>): seq<nat>
    requires forall k :: 0 <= k < |ids| ==> ids[k] < |nodes|
  {
    if ids == [] then [] else LayerVectors(nodes, ids[..|ids| - 1]) + nodes[ids[|ids| - 1]].vectors
  }

  lemma {:induction false} LayerVectorsMeans(nodes: seq<LabelSetNode>, ids: seq<nat>, v: nat)
    requires forall k :: 0 <= k < |ids| ==> ids[k] < |nodes|
    ensures v in LayerVectors(nodes, ids) <==> exists k :: 0 <= k < |ids| && v in nodes[ids[k]].vectors
  {
    if ids != [] {
      var init := ids[..|ids| - 1];
      LayerVectorsMeans(nodes, init, v);
      if v in LayerVectors(nodes, init) {
        var k :| 0 <= k < |init| && v in nodes[init[k]].vectors;
        assert ids[k] == init[k];
      }
      if exists k :: 0 <= k < |ids| && v in nodes[ids[k]].vectors {
        var k :| 0 <= k < |ids| && v in nodes[ids[k]].vectors;
        if k < |init| {
          assert init[k] == ids[k];
        }
      }
    }
  }

  /** v lies in LayerVectors(nodes, Layer(nodes_by_depth, d)) exactly when a node at depth d holds it. */
  lemma LayerVectorsAtDepth(nodes: seq<LabelSetNode>, depthOf: seq<nat>, byDepth: map<nat, seq<nat>>, d: nat, v: nat)
    requires |depthOf| == |nodes| && ListedExcept(|nodes|, depthOf, byDepth, -1)
    ensures forall k :: 0 <= k < |Layer(byDepth, d)| ==> Layer(byDepth, d)[k] < |nodes|
    ensures v in LayerVectors(nodes, Layer(byDepth, d)) <==>
              exists n :: 0 <= n < |nodes| && depthOf[n] == d && v in nodes[n].vectors
  {
    var ids := Layer(byDepth, d);
    LayerVectorsMeans(nodes, ids, v);
    if exists n :: 0 <= n < |nodes| && depthOf[n] == d && v in nodes[n].vectors {
      var n :| 0 <= n < |nodes| && depthOf[n] == d && v in nodes[n].vectors;
      assert n in ids;
      var k :| 0 <= k < |ids| && ids[k] == n;
    }
  }

  // ---------------------------------------------------------------------------------------
  // Growing the tree (_build_recursive)
  // ---------------------------------------------------------------------------------------

  /** The break test of the branch loop: max_groups is set and generated_groups >= max_groups - 1. */
  predicate Exhausted(maxGroups: Option<nat>, generated: nat)
  {
    maxGroups.Some? && generated >= maxGroups.value - 1
  }

  /** No node has more than branch_factor children. */
  ghost predicate Branching(nodes: seq<LabelSetNode>, branchFactor: nat)
  {
    forall n :: 0 <= n < |nodes| ==> |nodes[n].children| <= branchFactor
  }

  /** What holds of the node list, the depths and generated_groups between any two steps of the growth. */
  ghost predicate Generated(maxDepth: nat, branchFactor: nat, maxGroups: Option<nat>, base: nat,
                            nodes: seq<LabelSetNode>, parentOf: seq<nat>, depthOf: seq<nat>, generated: nat)
  {
    && Linked(nodes, parentOf, depthOf, base) && UniqueSets(nodes)
    && DepthBounded(maxDepth, nodes, depthOf) && Attributed(nodes, depthOf, base)
    && WithinBudget(maxGroups, generated, |nodes|) && Branching(nodes, branchFactor)
  }

  /**
   * A node whose branch loop has run to its end: it sits at max_depth or deeper, it got
   * branch_factor children, or the group budget is spent.
   */
  ghost predicate Saturated(maxDepth: nat, branchFactor: nat, maxGroups: Option<nat>,
                            nodes: seq<LabelSetNode>, depthOf: seq<nat>, generated: nat, n: nat)
    requires n < |nodes| && |depthOf| == |nodes|
  {
    depthOf[n] >= maxDepth || |nodes[n].children| == branchFactor || Exhausted(maxGroups, generated)
  }

  /** One round of the branch loop that does not break keeps the tree well formed. */
  lemma GrowStep(maxDepth: nat, branchFactor: nat, maxGroups: Option<nat>, base: nat,
                 nodes: seq<LabelSetNode>, parentOf: seq<nat>, depthOf: seq<nat>, generated: nat, p: nat)
    requires Generated(maxDepth, branchFactor, maxGroups, base, nodes, parentOf, depthOf, generated)
    requires p < |nodes| && depthOf[p] < maxDepth && |nodes[p].children| < branchFactor
    requires !Exhausted(maxGroups, generated)
    ensures Generated(maxDepth, branchFactor, maxGroups, base, AddChild(nodes, p), parentOf + [p],
                      depthOf + [depthOf[p] + 1], generated + 1)
  {
    AddChildLinked(nodes, parentOf, depthOf, base, p);
    AddChildUnique(nodes, parentOf, depthOf, base, p);
    AddChildBounded(maxDepth, nodes, depthOf, p);
    AddChildAttributed(nodes, parentOf, depthOf, base, p);
  }

  /** The state build() hands to _build_recursive(root, 1): the root alone, not yet listed. */
  lemma RootGenerated(maxDepth: nat, branchFactor: nat, maxGroups: Option<nat>, base: nat)
    ensures Generated(maxDepth, branchFactor, maxGroups, base, [LabelSetNode({base}, [], [])], [0], [1], 0)
    ensures ListedExcept(1, [1], map[], 0)
  {
  }

  /** Nodes whose loops had finished stay finished: their lists and depths are kept, the count only grows. */
  lemma SaturatedKept(maxDepth: nat, branchFactor: nat, maxGroups: Option<nat>,
                      before: seq<LabelSetNode>, depthsBefore: seq<nat>, madeBefore: nat,
                      nodes: seq<LabelSetNode>, depthOf: seq<nat>, generated: nat, p: nat)
    requires p < |before| == |depthsBefore| <= |nodes| == |depthOf| && madeBefore <= generated
    requires forall n :: p < n < |before| ==> nodes[n] == before[n] && depthOf[n] == depthsBefore[n]
    requires forall n :: p < n < |before| ==>
               Saturated(maxDepth, branchFactor, maxGroups, before, depthsBefore, madeBefore, n)
    requires forall n :: |before| <= n < |nodes| ==>
               Saturated(maxDepth, branchFactor, maxGroups, nodes, depthOf, generated, n)
    ensures forall n :: p < n < |nodes| ==> Saturated(maxDepth, branchFactor, maxGroups, nodes, depthOf, generated, n)
  {
    forall n | p < n < |before|
      ensures Saturated(maxDepth, branchFactor, maxGroups, nodes, depthOf, generated, n)
    {
      assert nodes[n] == before[n] && depthOf[n] == depthsBefore[n];
      assert Saturated(maxDepth, branchFactor, maxGroups, before, depthsBefore, madeBefore, n);
    }
  }

  /**
   * _build_recursive(node p, depth): list p under its depth and, below max_depth, run its
   * branch loop. p is the node made last; the nodes this call makes follow it in the list.
   */
  method BuildRecursive(maxDepth: nat, branchFactor: nat, maxGroups: Option<nat>, base: nat,
                        nodes0: seq<LabelSetNode>, ghost parentOf0: seq<nat>, depthOf0: seq<nat>,
                        byDepth0: map<nat, seq<nat>>, generated0: nat, p: nat, depth: nat)
    returns (nodes: seq<LabelSetNode>, ghost parentOf: seq<nat>, depthOf: seq<nat>,
             byDepth: map<nat, seq<nat>>, generated: nat)
    requires Generated(maxDepth, branchFactor, maxGroups, base, nodes0, parentOf0, depthOf0, generated0)
    requires p + 1 == |nodes0| && nodes0[p].children == [] && depthOf0[p] == depth
    requires ListedExcept(|nodes0|, depthOf0, byDepth0, p)
    ensures Generated(maxDepth, branchFactor, maxGroups, base, nodes, parentOf, depthOf, generated)
              && ListedExcept(|nodes|, depthOf, byDepth, -1)
    ensures |nodes| >= |nodes0| && generated >= generated0
    ensures nodes[..p] == nodes0[..p] && depthOf[..|nodes0|] == depthOf0 && parentOf[..|nodes0|] == parentOf0
    ensures nodes[p].labelSet == nodes0[p].labelSet
    ensures forall n :: p <= n < |nodes| ==> Saturated(maxDepth, branchFactor, maxGroups, nodes, depthOf, generated, n)
    decreases maxDepth - depth, 2
  {
    ListPending(|nodes0|, depthOf0, byDepth0, p);
    byDepth := byDepth0[depth := Layer(byDepth0, depth) + [p]];
    if depth < maxDepth {
      nodes, parentOf, depthOf, byDepth, generated :=
        BranchLoop(maxDepth, branchFactor, maxGroups, base, nodes0, parentOf0, depthOf0, byDepth, generated0, p, depth);
    } else {
      nodes, parentOf, depthOf, generated := nodes0, parentOf0, depthOf0, generated0;
    }
  }

  /** The `for i in range(branch_factor)` loop of _build_recursive, with its max_groups break. */
  method BranchLoop(maxDepth: nat, branchFactor: nat, maxGroups: Option<nat>, base: nat,
                    nodes0: seq<LabelSetNode>, ghost parentOf0: seq<nat>, depthOf0: seq<nat>,
                    byDepth0: map<nat, seq<nat>>, generated0: nat, p: nat, depth: nat)
    returns (nodes: seq<LabelSetNode>, ghost parentOf: seq<nat>, depthOf: seq<nat>,
             byDepth: map<nat, seq<nat>>, generated: nat)
    requires Generated(maxDepth, branchFactor, maxGroups, base, nodes0, parentOf0, depthOf0, generated0)
               && ListedExcept(|nodes0|, depthOf0, byDepth0, -1)
    requires p + 1 == |nodes0| && nodes0[p].children == [] && depthOf0[p] == depth < maxDepth
    ensures Generated(maxDepth, branchFactor, maxGroups, base, nodes, parentOf, depthOf, generated)
              && ListedExcept(|nodes|, depthOf, byDepth, -1)
    ensures |nodes| >= |nodes0| && generated >= generated0
    ensures nodes[..p] == nodes0[..p] && depthOf[..|nodes0|] == depthOf0 && parentOf[..|nodes0|] == parentOf0
    ensures nodes[p].labelSet == nodes0[p].labelSet
    ensures forall n :: p <= n < |nodes| ==> Saturated(maxDepth, branchFactor, maxGroups, nodes, depthOf, generated, n)
    decreases maxDepth - depth, 1
  {
    nodes, parentOf, depthOf, byDepth, generated := nodes0, parentOf0, depthOf0, byDepth0, generated0;
    var i := 0;
    while i < branchFactor && !Exhausted(maxGroups, generated)
      invariant Generated(maxDepth, branchFactor, maxGroups, base, nodes, parentOf, depthOf, generated)
                  && ListedExcept(|nodes|, depthOf, byDepth, -1)
      invariant |nodes| >= |nodes0| && generated >= generated0
      invariant nodes[..p] == nodes0[..p] && depthOf[..|nodes0|] == depthOf0 && parentOf[..|nodes0|] == parentOf0
      invariant nodes[p].labelSet == nodes0[p].labelSet && |nodes[p].children| == i <= branchFactor
      invariant forall n :: p < n < |nodes| ==> Saturated(maxDepth, branchFactor, maxGroups, nodes, depthOf, generated, n)
    {
      ghost var before, depthsBefore, parentsBefore, madeBefore := nodes, depthOf, parentOf, generated;
      nodes, parentOf, depthOf, byDepth, generated :=
        GrowChild(maxDepth, branchFactor, maxGroups, base, nodes, parentOf, depthOf, byDepth, generated, p, depth);
      SaturatedKept(maxDepth, branchFactor, maxGroups, before, depthsBefore, madeBefore, nodes, depthOf, generated, p);
      PrefixesKept(nodes0, depthOf0, parentOf0, before, depthsBefore, parentsBefore, nodes, depthOf, parentOf, p);
      i := i + 1;
    }
  }

  /** Prefixes kept by two consecutive steps are kept by both together. */
  lemma PrefixesKept(nodes0: seq<LabelSetNode>, depthOf0: seq<nat>, parentOf0: seq<nat>,
                     before: seq<LabelSetNode>, depthsBefore: seq<nat>, parentsBefore: seq<nat>,
                     nodes: seq<LabelSetNode>, depthOf: seq<nat>, parentOf: seq<nat>, p: nat)
    requires p < |nodes0| <= |before| == |depthsBefore| == |parentsBefore| <= |nodes|
    requires |nodes| == |depthOf| == |parentOf| && |depthOf0| == |parentOf0| == |nodes0|
    requires before[..p] == nodes0[..p] && depthsBefore[..|nodes0|] == depthOf0 && parentsBefore[..|nodes0|] == parentOf0
    requires nodes[..p] == before[..p] && depthOf[..|before|] == depthsBefore && parentOf[..|before|] == parentsBefore
    ensures nodes[..p] == nodes0[..p] && depthOf[..|nodes0|] == depthOf0 && parentOf[..|nodes0|] == parentOf0
  {
    assert depthOf[..|nodes0|] == depthOf[..|before|][..|nodes0|];
    assert parentOf[..|nodes0|] == parentOf[..|before|][..|nodes0|];
  }

  /** One round of the branch loop: make child number |children| of p and grow it in full. */
  method GrowChild(maxDepth: nat, branchFactor: nat, maxGroups: Option<nat>, base: nat,
                   nodes0: seq<LabelSetNode>, ghost parentOf0: seq<nat>, depthOf0: seq<nat>,
                   byDepth0: map<nat, seq<nat>>, generated0: nat, p: nat, depth: nat)
    returns (nodes: seq<LabelSetNode>, ghost parentOf: seq<nat>, depthOf: seq<nat>,
             byDepth: map<nat, seq<nat>>, generated: nat)
    requires Generated(maxDepth, branchFactor, maxGroups, base, nodes0, parentOf0, depthOf0, generated0)
               && ListedExcept(|nodes0|, depthOf0, byDepth0, -1)
    requires p < |nodes0| && depthOf0[p] == depth < maxDepth
    requires |nodes0[p].children| < branchFactor && !Exhausted(maxGroups, generated0)
    ensures Generated(maxDepth, branchFactor, maxGroups, base, nodes, parentOf, depthOf, generated)
              && ListedExcept(|nodes|, depthOf, byDepth, -1)
    ensures |nodes| > |nodes0| && generated > generated0
    ensures nodes[..p] == nodes0[..p] && depthOf[..|nodes0|] == depthOf0 && parentOf[..|nodes0|] == parentOf0
    ensures nodes[p].labelSet == nodes0[p].labelSet && nodes[p].children == nodes0[p].children + [|nodes0|]
    ensures forall n :: p < n < |nodes0| ==> nodes[n] == nodes0[n] && depthOf[n] == depthOf0[n]
    ensures forall n :: |nodes0| <= n < |nodes| ==>
              Saturated(maxDepth, branchFactor, maxGroups, nodes, depthOf, generated, n)
    decreases maxDepth - depth, 0
  {
    var c := |nodes0|;
    GrowStep(maxDepth, branchFactor, maxGroups, base, nodes0, parentOf0, depthOf0, generated0, p);
    ListNewNode(c, depthOf0, byDepth0, depth + 1);
    var grown := AddChild(nodes0, p);
    ghost var parents := parentOf0 + [p];
    var depths := depthOf0 + [depth + 1];
    nodes, parentOf, depthOf, byDepth, generated :=
      BuildRecursive(maxDepth, branchFactor, maxGroups, base, grown, parents, depths, byDepth0, generated0 + 1, c, depth + 1);
    ChildResumed(nodes0, depthOf0, parentOf0, grown, depths, parents, nodes, depthOf, parentOf, p);
  }

  /** What the child's growth left of the nodes made before it. */
  lemma ChildResumed(before: seq<LabelSetNode>, depthsBefore: seq<nat>, parentsBefore: seq<nat>,
                     grown: seq<LabelSetNode>, depths: seq<nat>, parents: seq<nat>,
                     nodes: seq<LabelSetNode>, depthOf: seq<nat>, parentOf: seq<nat>, p: nat)
    requires p < |before| == |depthsBefore| == |parentsBefore| && before[p].labelSet != {}
    requires grown == AddChild(before, p)
    requires |depths| == |before| + 1 && depths[..|before|] == depthsBefore
    requires |parents| == |before| + 1 && parents[..|before|] == parentsBefore
    requires |nodes| >= |grown| && |depthOf| >= |grown| && |parentOf| >= |grown|
    requires nodes[..|before|] == grown[..|before|] && depthOf[..|grown|] == depths && parentOf[..|grown|] == parents
    ensures nodes[..p] == before[..p] && nodes[p].labelSet == before[p].labelSet
    ensures nodes[p].children == before[p].children + [|before|]
    ensures depthOf[..|before|] == depthsBefore && parentOf[..|before|] == parentsBefore
    ensures forall n :: p < n < |before| ==> nodes[n] == before[n] && depthOf[n] == depthsBefore[n]
  {
    var c := |before|;
    assert forall n :: 0 <= n < c ==> nodes[n] == nodes[..c][n] == grown[n];
    assert forall n :: 0 <= n < c ==> depthOf[n] == depths[n];
    assert depthOf[..c] == depths[..c];
    assert parentOf[..c] == parents[..c];
  }

  // ---------------------------------------------------------------------------------------
  // _get_all_nodes
  // ---------------------------------------------------------------------------------------

  /** _get_all_nodes: pop the deque's front, append it to the result, queue its children. */
  method AllNodes(nodes: seq<LabelSetNode>, ghost parentOf: seq<nat>, ghost depthOf: seq<nat>) returns (result: seq<nat>)
    requires Shaped(nodes, parentOf, depthOf) && |nodes| > 0
    ensures IsBfsOrder(nodes, depthOf, result)
  {
    result := [];
    var q := [0];
    ghost var seen := [0];
    TraversalStart(nodes, parentOf, depthOf);
    while q != []
      invariant Traversing(nodes, parentOf, depthOf, seen, result, q)
      decreases |nodes| - |result|
    {
      var n := q[0];
      seen := TraversalStep(nodes, parentOf, depthOf, seen, result, q);
      q := q[1..] + nodes[n].children;
      result := result + [n];
    }
    TraversalDone(nodes, parentOf, depthOf, seen, result, q);
  }

  /** The loop state of _get_all_nodes: result and deque split `seen` at the head. */
  ghost predicate Traversing(nodes: seq<LabelSetNode>, parentOf: seq<nat>, depthOf: seq<nat>,
                             seen: seq<nat>, result: seq<nat>, q: seq<nat>)
  {
    && Shaped(nodes, parentOf, depthOf) && |result| <= |seen| <= |nodes|
    && BfsInvariant(nodes, parentOf, depthOf, seen, |result|)
    && result == seen[..|result|] && q == seen[|result|..]
  }

  lemma TraversalStart(nodes: seq<LabelSetNode>, parentOf: seq<nat>, depthOf: seq<nat>)
    requires Shaped(nodes, parentOf, depthOf) && |nodes| > 0
    ensures Traversing(nodes, parentOf, depthOf, [0], [], [0])
  {
    BfsStart(nodes, parentOf, depthOf);
  }

  lemma TraversalStep(nodes: seq<LabelSetNode>, parentOf: seq<nat>, depthOf: seq<nat>,
                      seen: seq<nat>, result: seq<nat>, q: seq<nat>) returns (seen': seq<nat>)
    requires Traversing(nodes, parentOf, depthOf, seen, result, q) && q != []
    ensures q[0] < |nodes| && |result| < |nodes|
    ensures Traversing(nodes, parentOf, depthOf, seen', result + [q[0]], q[1..] + nodes[q[0]].children)
  {
    seen' := seen + nodes[q[0]].children;
    BfsStep(nodes, parentOf, depthOf, seen, |result|);
    QueueStep(seen, result, q, nodes[q[0]].children);
    BfsBound(nodes, parentOf, depthOf, seen + nodes[q[0]].children, |result| + 1);
  }

  lemma TraversalDone(nodes: seq<LabelSetNode>, parentOf: seq<nat>, depthOf: seq<nat>,
                      seen: seq<nat>, result: seq<nat>, q: seq<nat>)
    requires Traversing(nodes, parentOf, depthOf, seen, result, q) && q == []
    ensures IsBfsOrder(nodes, depthOf, result)
  {
    QueueEmpty(seen, result, q);
    BfsDone(nodes, parentOf, depthOf, seen);
  }

  /** popleft and extend, in terms of every node ever enqueued. */
  lemma QueueStep(seen: seq<nat>, result: seq<nat>, q: seq<nat>, cs: seq<nat>)
    requires |result| <= |seen| && result == seen[..|result|] && q == seen[|result|..] && q != []
    ensures result + [q[0]] == (seen + cs)[..|result| + 1] && q[1..] + cs == (seen + cs)[|result| + 1..]
  {
  }

  lemma QueueEmpty(seen: seq<nat>, result: seq<nat>, q: seq<nat>)
    requires |result| <= |seen| && result == seen[..|result|] && q == seen[|result|..] && q == []
    ensures result == seen
  {
  }

  // ---------------------------------------------------------------------------------------
  // _assign_vectors_evenly
  // ---------------------------------------------------------------------------------------

  /** Every node of the list appears in `order`, once, and `order` names nothing else. */
  ghost predicate Enumerates(count: nat, order: seq<nat>)
  {
    && |order| == count && Distinct(order)
    && (forall k :: 0 <= k < |order| ==> order[k] < count)
  }

  /** The node list with only the vectors lists changed. */
  ghost predicate SameTree(nodes: seq<LabelSetNode>, nodes0: seq<LabelSetNode>)
  {
    && |nodes| == |nodes0|
    && forall n :: 0 <= n < |nodes| ==> nodes[n].labelSet == nodes0[n].labelSet && nodes[n].children == nodes0[n].children
  }

  /** Step 1: `node.vectors = [idx]` for the idx-th node of the traversal. */
  method GuaranteeVectors(nodes0: seq<LabelSetNode>, order: seq<nat>) returns (nodes: seq<LabelSetNode>)
    requires Enumerates(|nodes0|, order)
    ensures SameTree(nodes, nodes0)
    ensures forall k :: 0 <= k < |order| ==> nodes[order[k]].vectors == [k]
  {
    nodes := nodes0;
    for k := 0 to |order|
      invariant SameTree(nodes, nodes0)
      invariant forall j :: 0 <= j < k ==> nodes[order[j]].vectors == [j]
    {
      nodes := nodes[order[k] := nodes[order[k]].(vectors := [k])];
    }
  }

  /**
   * Step 3: the shuffled remaining ids in turn, each appended to the node the clamped
   * bisection picks for it.
   */
  method DistributeRemaining(nodes0: seq<LabelSetNode>, order: seq<nat>, s: seq<nat>, pick: nat -> nat)
    returns (nodes: seq<LabelSetNode>)
    requires Enumerates(|nodes0|, order) && |order| > 0
    requires forall k :: 0 <= k < |order| ==> nodes0[order[k]].vectors == [k]
    ensures SameTree(nodes, nodes0)
    ensures forall k :: 0 <= k < |order| ==> nodes[order[k]].vectors == Held(s, pick, |order|, k)
  {
    nodes := nodes0;
    for j := 0 to |s|
      invariant SameTree(nodes, nodes0)
      invariant forall k :: 0 <= k < |order| ==> nodes[order[k]].vectors == Held(s[..j], pick, |order|, k)
    {
      var idx := Chosen(pick, |order|, j);
      var n := order[idx];
      nodes := nodes[n := nodes[n].(vectors := nodes[n].vectors + [s[j]])];
      assert s[..j + 1][..j] == s[..j];
      forall k | 0 <= k < |order|
        ensures nodes[order[k]].vectors == Held(s[..j + 1], pick, |order|, k)
      {
        if k != idx {
          assert order[k] != n;
        }
      }
    }
    assert s[..|s|] == s;
  }

  /** A traversal order names every node at some position. */
  lemma PositionOf(count: nat, order: seq<nat>, n: nat) returns (k: nat)
    requires Enumerates(count, order) && forall m :: 0 <= m < count ==> m in order
    requires n < count
    ensures k < |order| && order[k] == n
  {
    assert n in order;
    k :| 0 <= k < |order| && order[k] == n;
  }

  /** No vector id is held by two nodes. */
  ghost predicate Owned(nodes: seq<LabelSetNode>)
  {
    forall n1, n2, v :: 0 <= n1 < |nodes| && 0 <= n2 < |nodes| && v in nodes[n1].vectors && v in nodes[n2].vectors ==>
      n1 == n2
  }

  /** Some node holds vector v. */
  ghost predicate HeldBySome(nodes: seq<LabelSetNode>, v: nat)
  {
    exists n :: 0 <= n < |nodes| && v in nodes[n].vectors
  }

  /**
   * After the assignment, the nodes hold each id below max(len(all_nodes), total_vectors)
   * exactly once, and nothing else.
   */
  lemma AssignmentOwned(nodes: seq<LabelSetNode>, order: seq<nat>, total: nat, s: seq<nat>, pick: nat -> nat)
    requires Enumerates(|nodes|, order) && |nodes| > 0 && forall m :: 0 <= m < |nodes| ==> m in order
    requires multiset(s) == multiset(Range(|nodes|, total))
    requires forall k :: 0 <= k < |order| ==> nodes[order[k]].vectors == Held(s, pick, |order|, k)
    ensures Owned(nodes)
    ensures forall n :: 0 <= n < |nodes| ==> Distinct(nodes[n].vectors)
    ensures forall n, v :: 0 <= n < |nodes| && v in nodes[n].vectors ==> v < Max(|nodes|, total)
    ensures forall v :: 0 <= v < Max(|nodes|, total) ==> HeldBySome(nodes, v)
  {
    var count := |nodes|;
    VectorsPartition(count, total, s, pick);
    forall n1, n2, v | 0 <= n1 < count && 0 <= n2 < count && v in nodes[n1].vectors && v in nodes[n2].vectors
      ensures n1 == n2
    {
      var k1 := PositionOf(count, order, n1);
      var k2 := PositionOf(count, order, n2);
    }
    forall n | 0 <= n < count
      ensures Distinct(nodes[n].vectors)
      ensures forall v :: v in nodes[n].vectors ==> v < Max(count, total)
    {
      var k := PositionOf(count, order, n);
    }
    forall v | 0 <= v < Max(count, total)
      ensures HeldBySome(nodes, v)
    {
      var k := Owner(s, pick, count, v);
      assert v in nodes[order[k]].vectors;
    }
  }

  // ---------------------------------------------------------------------------------------
  // _build_vector_label_mappings
  // ---------------------------------------------------------------------------------------

  /** label_set_to_vectors, a defaultdict(list), read at s. */
  function Listed(m: map<set<nat>, seq<nat>>, s: set<nat>): seq<nat>
  {
    if s in m then m[s] else []
  }

  /** vector_to_labels once the nodes `ids` have been visited in turn. */
  function VectorLabels(nodes: seq<LabelSetNode>, ids: seq<nat>): map<nat, set<nat>>
    requires forall k :: 0 <= k < |ids| ==> ids[k] < |nodes|
  {
    if ids == [] then map[]
    else
      var node := nodes[ids[|ids| - 1]];
      VectorLabels(nodes, ids[..|ids| - 1]) + map v | v in node.vectors :: node.labelSet
  }

  /** label_set_to_vectors once the nodes `ids` have been visited in turn. */
  function LabelVectors(nodes: seq<LabelSetNode>, ids: seq<nat>): map<set<nat>, seq<nat>>
    requires forall k :: 0 <= k < |ids| ==> ids[k] < |nodes|
  {
    if ids == [] then map[]
    else
      var node := nodes[ids[|ids| - 1]];
      var m := LabelVectors(nodes, ids[..|ids| - 1]);
      if node.vectors == [] then m else m[node.labelSet := Listed(m, node.labelSet) + node.vectors]
  }

  /**
   * With every id held by one node, vector_to_labels maps exactly the ids held by the visited
   * nodes, each to the label set of the node holding it.
   */
  lemma {:induction false} VectorLabelsMeans(nodes: seq<LabelSetNode>, ids: seq<nat>, v: nat)
    requires forall k :: 0 <= k < |ids| ==> ids[k] < |nodes|
    requires Owned(nodes)
    ensures v in VectorLabels(nodes, ids) <==> exists k :: 0 <= k < |ids| && v in nodes[ids[k]].vectors
    ensures forall k :: 0 <= k < |ids| && v in nodes[ids[k]].vectors ==>
              v in VectorLabels(nodes, ids) && VectorLabels(nodes, ids)[v] == nodes[ids[k]].labelSet
  {
    if ids != [] {
      var init := ids[..|ids| - 1];
      var last := nodes[ids[|ids| - 1]];
      VectorLabelsMeans(nodes, init, v);
      forall k | 0 <= k < |ids| && v in nodes[ids[k]].vectors
        ensures v in VectorLabels(nodes, ids) && VectorLabels(nodes, ids)[v] == nodes[ids[k]].labelSet
      {
        if v in last.vectors {
          assert ids[k] == ids[|ids| - 1];
        } else {
          assert k < |init| && init[k] == ids[k];
        }
      }
      if exists k :: 0 <= k < |init| && v in nodes[init[k]].vectors {
        var k :| 0 <= k < |init| && v in nodes[init[k]].vectors;
        assert ids[k] == init[k];
      }
    }
  }

  /** Some node among `ids` has label set s. */
  ghost predicate SetOfSome(nodes: seq<LabelSetNode>, ids: seq<nat>, s: set<nat>)
    requires forall k :: 0 <= k < |ids| ==> ids[k] < |nodes|
  {
    exists k :: 0 <= k < |ids| && nodes[ids[k]].labelSet == s
  }

  /** label_set_to_vectors has a key only for the label set of a visited node. */
  lemma {:induction false} LabelVectorsKeys(nodes: seq<LabelSetNode>, ids: seq<nat>)
    requires forall k :: 0 <= k < |ids| ==> ids[k] < |nodes|
    ensures forall s :: s in LabelVectors(nodes, ids) ==> SetOfSome(nodes, ids, s)
  {
    if ids != [] {
      var init := ids[..|ids| - 1];
      LabelVectorsKeys(nodes, init);
      forall s | s in LabelVectors(nodes, ids)
        ensures SetOfSome(nodes, ids, s)
      {
        if s in LabelVectors(nodes, init) {
          assert SetOfSome(nodes, init, s);
          var k :| 0 <= k < |init| && nodes[init[k]].labelSet == s;
          assert ids[k] == init[k];
        } else {
          assert nodes[ids[|ids| - 1]].labelSet == s;
        }
      }
    }
  }

  /**
   * With pairwise different label sets and each node visited once, label_set_to_vectors maps
   * every visited node's set to that node's vectors (and, by LabelVectorsKeys, nothing else).
   */
  lemma {:induction false} LabelVectorsMeans(nodes: seq<LabelSetNode>, ids: seq<nat>)
    requires forall k :: 0 <= k < |ids| ==> ids[k] < |nodes|
    requires Distinct(ids) && UniqueSets(nodes)
    ensures forall k :: 0 <= k < |ids| ==> Listed(LabelVectors(nodes, ids), nodes[ids[k]].labelSet) == nodes[ids[k]].vectors
  {
    if ids != [] {
      var init := ids[..|ids| - 1];
      var i := ids[|ids| - 1];
      var m := LabelVectors(nodes, init);
      LabelVectorsMeans(nodes, init);
      LabelVectorsKeys(nodes, init);
      assert nodes[i].labelSet !in m;
      forall k | 0 <= k < |ids|
        ensures Listed(LabelVectors(nodes, ids), nodes[ids[k]].labelSet) == nodes[ids[k]].vectors
      {
        if k < |init| {
          assert init[k] == ids[k] != i;
          assert nodes[ids[k]].labelSet != nodes[i].labelSet;
        }
      }
    }
  }

  /** Mapping one more vector of vs to the label set s. */
  lemma MapOneMore(m: map<nat, set<nat>>, vs: seq<nat>, j: nat, k: nat, s: set<nat>)
    requires k == j + 1 <= |vs|
    ensures (m + map v | v in vs[..j] :: s)[vs[j] := s] == m + map v | v in vs[..k] :: s
  {
    assert vs[..k] == vs[..j] + [vs[j]];
  }

  /** The inner loop over one node's vectors. */
  method MapNode(v2l0: map<nat, set<nat>>, l2v0: map<set<nat>, seq<nat>>, node: LabelSetNode)
    returns (v2l: map<nat, set<nat>>, l2v: map<set<nat>, seq<nat>>)
    ensures v2l == v2l0 + map v | v in node.vectors :: node.labelSet
    ensures l2v == if node.vectors == [] then l2v0 else l2v0[node.labelSet := Listed(l2v0, node.labelSet) + node.vectors]
  {
    v2l, l2v := v2l0, l2v0;
    var vs, s := node.vectors, node.labelSet;
    for j := 0 to |vs|
      invariant v2l == v2l0 + map v | v in vs[..j] :: s
      invariant j == 0 ==> l2v == l2v0
      invariant j > 0 ==> l2v == l2v0[s := Listed(l2v0, s) + vs[..j]]
    {
      assert vs[..j + 1] == vs[..j] + [vs[j]];
      assert Listed(l2v, s) == Listed(l2v0, s) + vs[..j];
      MapOneMore(v2l0, vs, j, j + 1, s);
      v2l := v2l[vs[j] := s];
      l2v := l2v[s := Listed(l2v0, s) + vs[..j + 1]];
    }
    assert vs[..|vs|] == vs;
  }

  /** _build_vector_label_mappings: for every node in `order`, record its vectors both ways. */
  method VectorLabelMappings(nodes: seq<LabelSetNode>, order: seq<nat>)
    returns (v2l: map<nat, set<nat>>, l2v: map<set<nat>, seq<nat>>)
    requires forall k :: 0 <= k < |order| ==> order[k] < |nodes|
    ensures v2l == VectorLabels(nodes, order) && l2v == LabelVectors(nodes, order)
  {
    v2l, l2v := map[], map[];
    for i := 0 to |order|
      invariant v2l == VectorLabels(nodes, order[..i]) && l2v == LabelVectors(nodes, order[..i])
    {
      assert order[..i + 1][..i] == order[..i];
      v2l, l2v := MapNode(v2l, l2v, nodes[order[i]]);
    }
    assert order[..|order|] == order;
  }

  // ---------------------------------------------------------------------------------------
  // get_layer_vectors
  // ---------------------------------------------------------------------------------------

  /** result.extend(node.vectors) for every node listed. */
  method ExtendVectors(nodes: seq<LabelSetNode>, ids: seq<nat>) returns (result: seq<nat>)
    requires forall k :: 0 <= k < |ids| ==> ids[k] < |nodes|
    ensures result == LayerVectors(nodes, ids)
  {
    result := [];
    for i := 0 to |ids|
      invariant result == LayerVectors(nodes, ids[..i])
    {
      assert ids[..i + 1][..i] == ids[..i];
      result := result + nodes[ids[i]].vectors;
    }
    assert ids[..|ids|] == ids;
  }

  /** The four facts build() promises about vector_to_labels and label_set_to_vectors. */
  ghost predicate Mapped(nodes: seq<LabelSetNode>, v2l: map<nat, set<nat>>, l2v: map<set<nat>, seq<nat>>)
  {
    && (forall n, v :: 0 <= n < |nodes| && v in nodes[n].vectors ==> v in v2l && v2l[v] == nodes[n].labelSet)
    && (forall v :: v in v2l ==> HeldBySome(nodes, v))
    && (forall n :: 0 <= n < |nodes| ==> Listed(l2v, nodes[n].labelSet) == nodes[n].vectors)
    && (forall s :: s in l2v ==> exists n :: 0 <= n < |nodes| && nodes[n].labelSet == s)
  }

  /**
   * Visiting every node once, in any order, maps each held vector to its node's label set,
   * provided no vector has two nodes.
   */
  lemma VectorMappingMeans(nodes: seq<LabelSetNode>, order: seq<nat>)
    requires Enumerates(|nodes|, order) && forall m :: 0 <= m < |nodes| ==> m in order
    requires Owned(nodes)
    ensures forall n, v :: 0 <= n < |nodes| && v in nodes[n].vectors ==>
              v in VectorLabels(nodes, order) && VectorLabels(nodes, order)[v] == nodes[n].labelSet
    ensures forall v :: v in VectorLabels(nodes, order) ==> HeldBySome(nodes, v)
  {
    var v2l := VectorLabels(nodes, order);
    forall n, v | 0 <= n < |nodes| && v in nodes[n].vectors
      ensures v in v2l && v2l[v] == nodes[n].labelSet
    {
      var k := PositionOf(|nodes|, order, n);
      VectorLabelsMeans(nodes, order, v);
    }
    forall v | v in v2l
      ensures HeldBySome(nodes, v)
    {
      VectorLabelsMeans(nodes, order, v);
      var k :| 0 <= k < |order| && v in nodes[order[k]].vectors;
    }
  }

  /**
   * Visiting every node once, in any order, maps each node's label set to its vectors and
   * nothing else, provided no two nodes share a set.
   */
  lemma LabelMappingMeans(nodes: seq<LabelSetNode>, order: seq<nat>)
    requires Enumerates(|nodes|, order) && forall m :: 0 <= m < |nodes| ==> m in order
    requires UniqueSets(nodes)
    ensures forall n :: 0 <= n < |nodes| ==> Listed(LabelVectors(nodes, order), nodes[n].labelSet) == nodes[n].vectors
    ensures forall s :: s in LabelVectors(nodes, order) ==> exists n :: 0 <= n < |nodes| && nodes[n].labelSet == s
  {
    var l2v := LabelVectors(nodes, order);
    LabelVectorsMeans(nodes, order);
    forall n | 0 <= n < |nodes|
      ensures Listed(l2v, nodes[n].labelSet) == nodes[n].vectors
    {
      var k := PositionOf(|nodes|, order, n);
    }
    LabelVectorsKeys(nodes, order);
    forall s | s in l2v
      ensures exists n :: 0 <= n < |nodes| && nodes[n].labelSet == s
    {
      assert SetOfSome(nodes, order, s);
      var k :| 0 <= k < |order| && nodes[order[k]].labelSet == s;
    }
  }

  /** Changing only the vectors lists keeps the tree as it was grown. */
  lemma SameTreeGenerated(maxDepth: nat, branchFactor: nat, maxGroups: Option<nat>, base: nat,
                          nodes0: seq<LabelSetNode>, nodes: seq<LabelSetNode>, parentOf: seq<nat>, depthOf: seq<nat>,
                          generated: nat)
    requires Generated(maxDepth, branchFactor, maxGroups, base, nodes0, parentOf, depthOf, generated)
    requires SameTree(nodes, nodes0)
    ensures Generated(maxDepth, branchFactor, maxGroups, base, nodes, parentOf, depthOf, generated)
    ensures forall n :: 0 <= n < |nodes| ==>
              Saturated(maxDepth, branchFactor, maxGroups, nodes, depthOf, generated, n) ==
              Saturated(maxDepth, branchFactor, maxGroups, nodes0, depthOf, generated, n)
  {
    forall p, j | 0 <= p < |nodes| && 0 <= j < |nodes[p].children|
      ensures ChildAt(nodes, parentOf, p, j)
    {
      assert ChildAt(nodes0, parentOf, p, j);
    }
  }

  /** A child's label set is its parent's plus one attribute above all of the parent's. */
  lemma ChildExtendsParent(nodes: seq<LabelSetNode>, parentOf: seq<nat>, depthOf: seq<nat>, base: nat, n: nat)
    requires Linked(nodes, parentOf, depthOf, base) && 0 < n < |nodes|
    ensures nodes[parentOf[n]].labelSet < nodes[n].labelSet
    ensures |nodes[n].labelSet - nodes[parentOf[n]].labelSet| == 1
    ensures forall x, y :: x in nodes[parentOf[n]].labelSet && y in nodes[n].labelSet - nodes[parentOf[n]].labelSet ==> x < y
  {
    var p := parentOf[n];
    var j :| 0 <= j < |nodes[p].children| && nodes[p].children[j] == n;
    assert ChildAt(nodes, parentOf, p, j);
    ExtendMeans(nodes[p].labelSet, j);
  }

  /** Why build() stops early: the ValueError for too few vectors, or a division by a zero total weight. */
  datatype BuildError = TooFewVectors | ZeroTotalWeight

  /** The tree as _build_recursive(root, 1) leaves it: every branch loop has run to its end. */
  ghost predicate FullyGrown(maxDepth: nat, branchFactor: nat, maxGroups: Option<nat>, base: nat,
                             nodes: seq<LabelSetNode>, parentOf: seq<nat>, depthOf: seq<nat>, generated: nat,
                             byDepth: map<nat, seq<nat>>)
  {
    && Generated(maxDepth, branchFactor, maxGroups, base, nodes, parentOf, depthOf, generated)
    && ListedExcept(|nodes|, depthOf, byDepth, -1)
    && |nodes| > 0
    && forall n :: 0 <= n < |nodes| ==> Saturated(maxDepth, branchFactor, maxGroups, nodes, depthOf, generated, n)
  }

  /** The node at position k of the traversal holds k, then the shuffled ids the choices sent to it. */
  ghost predicate AssignedAlong(nodes: seq<LabelSetNode>, depthOf: seq<nat>, order: seq<nat>, totalVectors: nat,
                                shuffle: seq<nat> -> seq<nat>, pick: nat -> nat)
  {
    && |depthOf| == |nodes| > 0 && IsBfsOrder(nodes, depthOf, order)
    && forall k :: 0 <= k < |nodes| ==>
         nodes[order[k]].vectors == Held(shuffle(Range(|nodes|, totalVectors)), pick, |nodes|, k)
  }

  /** The growth build() starts: the root {base} at depth 1, then _build_recursive(root, 1). */
  method Grow(maxDepth: nat, branchFactor: nat, maxGroups: Option<nat>, base: nat)
    returns (nodes: seq<LabelSetNode>, ghost parentOf: seq<nat>, depthOf: seq<nat>,
             byDepth: map<nat, seq<nat>>, generated: nat)
    ensures FullyGrown(maxDepth, branchFactor, maxGroups, base, nodes, parentOf, depthOf, generated, byDepth)
  {
    RootGenerated(maxDepth, branchFactor, maxGroups, base);
    var root := LabelSetNode({base}, [], []);
    nodes, parentOf, depthOf, byDepth, generated :=
      BuildRecursive(maxDepth, branchFactor, maxGroups, base, [root], [0], [1], map[], 0, 0, 1);
  }

  /** Handing out vectors leaves the grown tree grown. */
  lemma SameTreeFullyGrown(maxDepth: nat, branchFactor: nat, maxGroups: Option<nat>, base: nat,
                           nodes0: seq<LabelSetNode>, nodes: seq<LabelSetNode>, parentOf: seq<nat>, depthOf: seq<nat>,
                           generated: nat, byDepth: map<nat, seq<nat>>)
    requires FullyGrown(maxDepth, branchFactor, maxGroups, base, nodes0, parentOf, depthOf, generated, byDepth)
    requires SameTree(nodes, nodes0)
    ensures FullyGrown(maxDepth, branchFactor, maxGroups, base, nodes, parentOf, depthOf, generated, byDepth)
  {
    SameTreeGenerated(maxDepth, branchFactor, maxGroups, base, nodes0, nodes, parentOf, depthOf, generated);
  }

  /**
   * The steps of _assign_vectors_evenly on a grown tree: traverse, give each node its
   * guaranteed id, weigh the depths (failing when the total weight is zero), and hand out the
   * shuffled remaining ids.
   */
  method AssignVectors(maxDepth: nat, base: nat, nodes0: seq<LabelSetNode>, ghost parentOf: seq<nat>,
                       depthOf: seq<nat>, totalVectors: nat, shuffle: seq<nat> -> seq<nat>, pick: nat -> nat)
    returns (nodes: seq<LabelSetNode>, ghost order: seq<nat>, err: Option<BuildError>)
    requires Linked(nodes0, parentOf, depthOf, base) && DepthBounded(maxDepth, nodes0, depthOf) && |nodes0| > 0
    requires forall ids: seq<nat> :: multiset(shuffle(ids)) == multiset(ids)
    ensures SameTree(nodes, nodes0)
    ensures err == Some(ZeroTotalWeight) <==> maxDepth == 0
    ensures err == None || err == Some(ZeroTotalWeight)
    ensures err == None ==> IsBfsOrder(nodes0, depthOf, order) && Owned(nodes)
    ensures err == None ==> forall k :: 0 <= k < |nodes0| ==>
              nodes[order[k]].vectors == Held(shuffle(Range(|nodes0|, totalVectors)), pick, |nodes0|, k)
  {
    LinkedShaped(nodes0, parentOf, depthOf, base);
    var bfs := AllNodes(nodes0, parentOf, depthOf);
    order := bfs;
    nodes := GuaranteeVectors(nodes0, bfs);
    ZeroWeightIff(maxDepth, nodes0, parentOf, depthOf, base, bfs);
    var totalWeight := TotalWeight(maxDepth, depthOf, bfs);
    if totalWeight == 0 {
      err := Some(ZeroTotalWeight);
    } else {
      var remaining := shuffle(Range(|nodes0|, totalVectors));
      nodes := DistributeRemaining(nodes, bfs, remaining, pick);
      AssignmentOwned(nodes, bfs, totalVectors, remaining, pick);
      err := None;
    }
  }

  /** The loop of _build_vector_label_mappings over a fresh traversal of the tree. */
  method Mappings(nodes: seq<LabelSetNode>, ghost parentOf: seq<nat>, ghost depthOf: seq<nat>, base: nat)
    returns (v2l: map<nat, set<nat>>, l2v: map<set<nat>, seq<nat>>)
    requires Linked(nodes, parentOf, depthOf, base) && UniqueSets(nodes) && Owned(nodes) && |nodes| > 0
    ensures Mapped(nodes, v2l, l2v)
  {
    LinkedShaped(nodes, parentOf, depthOf, base);
    var order := AllNodes(nodes, parentOf, depthOf);
    v2l, l2v := VectorLabelMappings(nodes, order);
    MappingsMean(nodes, order);
  }

  /** Visiting every node once gives both mappings their meaning. */
  lemma MappingsMean(nodes: seq<LabelSetNode>, order: seq<nat>)
    requires Enumerates(|nodes|, order) && forall m :: 0 <= m < |nodes| ==> m in order
    requires UniqueSets(nodes) && Owned(nodes)
    ensures Mapped(nodes, VectorLabels(nodes, order), LabelVectors(nodes, order))
  {
    VectorMappingMeans(nodes, order);
    LabelMappingMeans(nodes, order);
  }

  /**
   * LNGVectorGenerator. The LabelSetNode objects are the entries of `nodes`, root first, in the
   * order they were made; a node's children and vectors lists are fields of its entry.
   */
  class LNGVectorGenerator {
    const maxDepth: nat
    const branchFactor: nat
    const maxGroups: Option<nat>
    const baseAttrStart: nat

    var totalVectors: nat
    var generatedGroups: nat
    var nodes: seq<LabelSetNode>
    /** The depth each node was built at: the key under which nodes_by_depth lists it. */
    var depthOf: seq<nat>
    ghost var parentOf: seq<nat>
    var nodesByDepth: map<nat, seq<nat>>
    var vectorToLabels: map<nat, set<nat>>
    var labelSetToVectors: map<set<nat>, seq<nat>>
    /** The traversal order in which _assign_vectors_evenly numbered the nodes. */
    ghost var bfsOrder: seq<nat>

    constructor (maxDepth: nat, branchFactor: nat, maxGroups: Option<nat>, baseAttrStart: nat)
      ensures this.maxDepth == maxDepth && this.branchFactor == branchFactor
      ensures this.maxGroups == maxGroups && this.baseAttrStart == baseAttrStart
      ensures nodes == [] && nodesByDepth == map[] && vectorToLabels == map[] && labelSetToVectors == map[]
    {
      this.maxDepth, this.branchFactor, this.maxGroups, this.baseAttrStart := maxDepth, branchFactor, maxGroups, baseAttrStart;
      totalVectors, generatedGroups := 0, 0;
      nodes, depthOf, parentOf := [], [], [];
      nodesByDepth, vectorToLabels, labelSetToVectors := map[], map[], map[];
      bfsOrder := [];
    }

    /** The tree as _build_recursive(root, 1) leaves it: every branch loop has run to its end. */
    ghost predicate Grown()
      reads this`nodes, this`parentOf, this`depthOf, this`generatedGroups, this`nodesByDepth
    {
      FullyGrown(maxDepth, branchFactor, maxGroups, baseAttrStart, nodes, parentOf, depthOf, generatedGroups, nodesByDepth)
    }

    /**
     * The vectors as _assign_vectors_evenly leaves them: the node at position k of the
     * traversal holds k, then the shuffled ids the choices sent to it.
     */
    ghost predicate Assigned(shuffle: seq<nat> -> seq<nat>, pick: nat -> nat)
      reads this`nodes, this`depthOf, this`bfsOrder, this`totalVectors
    {
      AssignedAlong(nodes, depthOf, bfsOrder, totalVectors, shuffle, pick)
    }

    /**
     * build(total_vectors): check the vector count, grow the tree from the root
     * {base_attr_start} at depth 1, hand out the vectors and record the mappings. random.shuffle
     * is `shuffle`, and the clamped bisection for the j-th shuffled id is `pick(j)`.
     */
    method Build(totalVectors: nat, shuffle: seq<nat> -> seq<nat>, pick: nat -> nat) returns (err: Option<BuildError>)
      requires nodes == [] && nodesByDepth == map[] && vectorToLabels == map[] && labelSetToVectors == map[]
      requires forall ids: seq<nat> :: multiset(shuffle(ids)) == multiset(ids)
      modifies this
      ensures err == Some(TooFewVectors) <==> maxGroups.Some? && totalVectors < maxGroups.value
      ensures err == Some(TooFewVectors) ==> unchanged(this)
      ensures err == Some(TooFewVectors) || (Grown() && this.totalVectors == totalVectors)
      ensures err == Some(ZeroTotalWeight) <==> err != Some(TooFewVectors) && maxDepth == 0
      ensures err != None || (Assigned(shuffle, pick) && Mapped(nodes, vectorToLabels, labelSetToVectors))
    {
      if maxGroups.Some? && totalVectors < maxGroups.value {
        return Some(TooFewVectors);
      }
      this.totalVectors := totalVectors;
      GrowTree();
      assert this.totalVectors == totalVectors && vectorToLabels == map[] && labelSetToVectors == map[];
      err := AssignVectorsEvenly(shuffle, pick);
      assert this.totalVectors == totalVectors && vectorToLabels == map[] && labelSetToVectors == map[];
      if err == None {
        BuildVectorLabelMappings();
      }
    }

    /** The part of build() that makes the root and runs _build_recursive(root, 1). */
    method GrowTree()
      requires nodes == [] && nodesByDepth == map[]
      modifies this`nodes, this`parentOf, this`depthOf, this`nodesByDepth, this`generatedGroups
      ensures Grown()
    {
      var ns, ds, byDepth, made;
      ghost var ps;
      ns, ps, ds, byDepth, made := Grow(maxDepth, branchFactor, maxGroups, baseAttrStart);
      nodes, parentOf, depthOf, nodesByDepth, generatedGroups := ns, ps, ds, byDepth, made;
    }

    /** _assign_vectors_evenly; the division by total_weight fails exactly when it is zero. */
    method AssignVectorsEvenly(shuffle: seq<nat> -> seq<nat>, pick: nat -> nat) returns (err: Option<BuildError>)
      requires Grown()
      requires forall ids: seq<nat> :: multiset(shuffle(ids)) == multiset(ids)
      modifies this`nodes, this`bfsOrder
      ensures Grown() && SameTree(nodes, old(nodes))
      ensures err == Some(ZeroTotalWeight) <==> maxDepth == 0
      ensures err == None || err == Some(ZeroTotalWeight)
      ensures err == None ==> Assigned(shuffle, pick) && Owned(nodes)
    {
      var ns;
      ghost var order;
      ns, order, err := AssignVectors(maxDepth, baseAttrStart, nodes, parentOf, depthOf, totalVectors, shuffle, pick);
      SameTreeFullyGrown(maxDepth, branchFactor, maxGroups, baseAttrStart, nodes, ns, parentOf, depthOf,
                         generatedGroups, nodesByDepth);
      if err == None {
        bfsOrder := order;
      }
      nodes := ns;
    }

    /** _build_vector_label_mappings, over a fresh traversal of the tree. */
    method BuildVectorLabelMappings()
      requires Grown() && Owned(nodes)
      requires vectorToLabels == map[] && labelSetToVectors == map[]
      modifies this`vectorToLabels, this`labelSetToVectors
      ensures Mapped(nodes, vectorToLabels, labelSetToVectors)
    {
      var v2l, l2v := Mappings(nodes, parentOf, depthOf, baseAttrStart);
      vectorToLabels, labelSetToVectors := v2l, l2v;
    }

    /** get_layer_labels(target_depth): the nodes built at that depth, each listed once. */
    method GetLayerLabels(targetDepth: nat) returns (result: seq<nat>)
      requires Grown()
      ensures Distinct(result)
      ensures forall n: nat :: n in result <==> n < |nodes| && depthOf[n] == targetDepth
    {
      result := Layer(nodesByDepth, targetDepth);
    }

    /** get_layer_vectors(target_depth): the vectors of the nodes built at that depth. */
    method GetLayerVectors(targetDepth: nat) returns (result: seq<nat>)
      requires Grown()
      ensures result == LayerVectors(nodes, Layer(nodesByDepth, targetDepth))
      ensures forall v :: v in result <==> exists n :: 0 <= n < |nodes| && depthOf[n] == targetDepth && v in nodes[n].vectors
    {
      forall v
        ensures v in LayerVectors(nodes, Layer(nodesByDepth, targetDepth)) <==>
                exists n :: 0 <= n < |nodes| && depthOf[n] == targetDepth && v in nodes[n].vectors
      {
        LayerVectorsAtDepth(nodes, depthOf, nodesByDepth, targetDepth, v);
      }
      LayerVectorsAtDepth(nodes, depthOf, nodesByDepth, targetDepth, 0);
      result := ExtendVectors(nodes, Layer(nodesByDepth, targetDepth));
    }
  }
}
