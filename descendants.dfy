/** get_descendants_info: for every group, an explicit-stack depth-first search over the out
    edges of the label navigation graph that collects the groups it reaches and counts the
    pushes. The visited array is modelled as the set of visited groups. */
module Descendants {
  import opened Common
  import opened LabelSets
  import opened Lng

  /** g together with its descendants: every group the search from g can visit. */
  ghost function Reach(ls: seq<seq<nat>>, out: seq<seq<nat>>, g: nat): set<nat>
    requires Ranked(ls, out) && 1 <= g < |ls|
  {
    {g} + Desc(ls, out, g)
  }

  /** A child of a group the search can reach is a descendant. */
  lemma ChildIsDesc(ls: seq<seq<nat>>, out: seq<seq<nat>>, g: nat, x: nat, c: nat)
    requires Ranked(ls, out) && 1 <= g < |ls|
    requires x in Reach(ls, out, g) && x < |out| && c in out[x]
    ensures c in Desc(ls, out, g)
  {
    if x == g {
      assert c in {c} + Desc(ls, out, c);
    } else {
      DescClosed(ls, out, g, x, c);
    }
  }

  /** The search state between two pops. Visited groups and stacked groups are reachable;
      everything recorded is a descendant; every stacked or visited group other than g has
      been recorded; the count is at least the number recorded; and every child of a
      visited group is visited or still on the stack. */
  ghost predicate Searching(ls: seq<seq<nat>>, out: seq<seq<nat>>, g: nat,
                            visited: set<nat>, stack: seq<nat>, found: set<nat>, count: nat)
  {
    && Ranked(ls, out) && 1 <= g < |ls|
    && visited <= Reach(ls, out, g)
    && found <= Desc(ls, out, g)
    && (forall i :: 0 <= i < |stack| ==> stack[i] in Reach(ls, out, g))
    && (forall i :: 0 <= i < |stack| ==> stack[i] == g || stack[i] in found)
    && (forall v :: v in visited ==> v == g || v in found)
    && |found| <= count
    && (forall v, c :: v in visited && v < |out| && c in out[v] ==> c in visited || c in stack)
    && (g in visited || g in stack)
  }

  /** The inner loop over current's out-neighbours: a self-loop is skipped; every child not
      yet visited is counted, recorded and pushed. When the out-list repeats no group and no
      unvisited child has been recorded before, every push records a new group. */
  method PushChildren(out: seq<seq<nat>>, current: nat, visited: set<nat>,
                      stack: seq<nat>, found: set<nat>, count: nat)
    returns (stack': seq<nat>, found': set<nat>, count': nat)
    requires current < |out|
    ensures |stack| <= |stack'| && stack'[..|stack|] == stack
    ensures forall i :: |stack| <= i < |stack'| ==>
              stack'[i] in out[current] && stack'[i] != current && stack'[i] !in visited && stack'[i] in found'
    ensures forall c :: c in out[current] && c != current && c !in visited ==> c in stack'
    ensures found <= found' && forall x :: x in found' ==> x in found || (x in out[current] && x != current)
    ensures count' == count + (|stack'| - |stack|) && |found'| + count <= |found| + count'
    ensures (Distinct(out[current]) && forall c :: c in out[current] && c != current && c !in visited ==> c !in found)
            ==> |found'| + count == |found| + count'
  {
    stack', found', count' := stack, found, count;
    var children := out[current];
    for k := 0 to |children|
      invariant |stack| <= |stack'| && stack'[..|stack|] == stack
      invariant forall i :: |stack| <= i < |stack'| ==>
                  stack'[i] in children && stack'[i] != current && stack'[i] !in visited && stack'[i] in found'
      invariant forall j :: 0 <= j < k && children[j] != current && children[j] !in visited ==> children[j] in stack'
      invariant found <= found' && forall x :: x in found' ==> x in found || (x in children[..k] && x != current)
      invariant count' == count + (|stack'| - |stack|) && |found'| + count <= |found| + count'
      invariant (Distinct(children) && forall c :: c in children && c != current && c !in visited ==> c !in found)
                ==> |found'| + count == |found| + count'
    {
      var child := children[k];
      assert children[..k + 1] == children[..k] + [child];
      if child == current {
        // a self-loop is skipped
      } else if child !in visited {
        if Distinct(children) {
          assert forall j :: 0 <= j < k ==> children[j] != child;
          assert child !in children[..k];
        }
        count' := count' + 1;
        found' := found' + {child};
        stack' := stack' + [child];
      }
    }
    assert children[..|children|] == children;
  }

  /** Popping a group already visited keeps the search state. */
  lemma PopVisited(ls: seq<seq<nat>>, out: seq<seq<nat>>, g: nat,
                   visited: set<nat>, stack: seq<nat>, found: set<nat>, count: nat)
    requires Searching(ls, out, g, visited, stack, found, count) && stack != [] && stack[|stack| - 1] in visited
    ensures Searching(ls, out, g, visited, stack[..|stack| - 1], found, count)
  {
    var top := stack[|stack| - 1];
    var rest := stack[..|stack| - 1];
    forall v, c | v in visited && v < |out| && c in out[v] ensures c in visited || c in rest
    {
      if c !in visited {
        assert c in stack;
        var i :| 0 <= i < |stack| && stack[i] == c;
        assert i < |stack| - 1;
        assert rest[i] == c;
      }
    }
    if g !in visited {
      var i :| 0 <= i < |stack| && stack[i] == g;
      assert i < |stack| - 1;
      assert rest[i] == g;
    }
  }

  /** After popping an unvisited group and pushing its children, everything recorded is a
      descendant and every stacked group is reachable and is g or recorded. */
  lemma PopNewRecorded(ls: seq<seq<nat>>, out: seq<seq<nat>>, g: nat, current: nat,
                       rest: seq<nat>, found: set<nat>, stack': seq<nat>, found': set<nat>)
    requires Ranked(ls, out) && 1 <= g < |ls| && current < |out| && current in Reach(ls, out, g)
    requires found <= Desc(ls, out, g)
    requires forall i :: 0 <= i < |rest| ==> rest[i] in Reach(ls, out, g) && (rest[i] == g || rest[i] in found)
    requires |rest| <= |stack'| && stack'[..|rest|] == rest
    requires forall i :: |rest| <= i < |stack'| ==> stack'[i] in out[current] && stack'[i] in found'
    requires found <= found' && forall x :: x in found' ==> x in found || (x in out[current] && x != current)
    ensures found' <= Desc(ls, out, g)
    ensures forall i :: 0 <= i < |stack'| ==> stack'[i] in Reach(ls, out, g) && (stack'[i] == g || stack'[i] in found')
  {
    forall x | x in found' ensures x in Desc(ls, out, g)
    {
      if x !in found {
        ChildIsDesc(ls, out, g, current, x);
      }
    }
    forall i | 0 <= i < |stack'| ensures stack'[i] in Reach(ls, out, g) && (stack'[i] == g || stack'[i] in found')
    {
      if i < |rest| {
        assert stack'[i] == rest[i];
      } else {
        ChildIsDesc(ls, out, g, current, stack'[i]);
      }
    }
  }

  /** After popping an unvisited group and pushing its children, every child of a visited
      group is visited or stacked, and g is visited or stacked. */
  lemma PopNewClosed(out: seq<seq<nat>>, g: nat, visited: set<nat>, stack: seq<nat>, stack': seq<nat>)
    requires stack != [] && stack[|stack| - 1] < |out|
    requires forall v, c :: v in visited && v < |out| && c in out[v] ==> c in visited || c in stack
    requires g in visited || g in stack
    requires |stack| - 1 <= |stack'| && stack'[..|stack| - 1] == stack[..|stack| - 1]
    requires var current := stack[|stack| - 1];
             forall c :: c in out[current] && c != current && c !in visited + {current} ==> c in stack'
    ensures var visited' := visited + {stack[|stack| - 1]};
            && (forall v, c :: v in visited' && v < |out| && c in out[v] ==> c in visited' || c in stack')
            && (g in visited' || g in stack')
  {
    var current := stack[|stack| - 1];
    var visited' := visited + {current};
    forall v, c | v in visited' && v < |out| && c in out[v] ensures c in visited' || c in stack'
    {
      if v != current && c !in visited' {
        assert c in stack;
        var i :| 0 <= i < |stack| && stack[i] == c;
        assert i < |stack| - 1;
        assert stack'[i] == stack[..|stack| - 1][i];
      }
    }
    if g !in visited' {
      var i :| 0 <= i < |stack| && stack[i] == g;
      assert i < |stack| - 1;
      assert stack'[i] == stack[..|stack| - 1][i];
    }
  }

  /** Popping an unvisited group, marking it and pushing its children keeps the search state. */
  lemma PopNew(ls: seq<seq<nat>>, out: seq<seq<nat>>, g: nat,
               visited: set<nat>, stack: seq<nat>, found: set<nat>, count: nat,
               stack': seq<nat>, found': set<nat>, count': nat)
    requires Searching(ls, out, g, visited, stack, found, count) && stack != []
    requires var current := stack[|stack| - 1];
             var rest := stack[..|stack| - 1];
             && current !in visited && current < |out|
             && |rest| <= |stack'| && stack'[..|rest|] == rest
             && (forall i :: |rest| <= i < |stack'| ==>
                   stack'[i] in out[current] && stack'[i] != current && stack'[i] !in visited + {current}
                   && stack'[i] in found')
             && (forall c :: c in out[current] && c != current && c !in visited + {current} ==> c in stack')
             && found <= found' && (forall x :: x in found' ==> x in found || (x in out[current] && x != current))
             && |found'| + count <= |found| + count'
    ensures Searching(ls, out, g, visited + {stack[|stack| - 1]}, stack', found', count')
  {
    var current := stack[|stack| - 1];
    var rest := stack[..|stack| - 1];
    assert current in Reach(ls, out, g);
    assert forall i :: 0 <= i < |rest| ==> rest[i] == stack[i];
    PopNewRecorded(ls, out, g, current, rest, found, stack', found');
    PopNewClosed(out, g, visited, stack, stack');
    assert current == g || current in found;
  }

  /** The count is exact on the label navigation graph: it equals the number of groups
      recorded, every recorded group is visited or still stacked, and no unvisited group on
      the stack has a group above it whose label set lies strictly inside its own. */
  ghost predicate CountExact(ls: seq<seq<nat>>, visited: set<nat>, stack: seq<nat>, found: set<nat>, count: nat)
  {
    && count == |found|
    && (forall x :: x in found ==> x in visited || x in stack)
    && (forall i, j :: 0 <= i < j < |stack| && stack[i] !in visited && stack[i] < |ls| && stack[j] < |ls| ==>
          !Below(ls, stack[j], stack[i]))
  }

  /** An out-edge of the label navigation graph leads to a strict superset, and no strict
      superset of the source lies strictly inside the target. */
  lemma EdgeBelow(ls: seq<seq<nat>>, out: seq<seq<nat>>, p: nat, c: nat)
    requires GroupSets(ls) && MinSupersetEdges(ls, out) && 1 <= p < |ls| && c in out[p]
    ensures 1 <= c < |ls| && Below(ls, p, c)
    ensures forall d :: 1 <= d < |ls| && Below(ls, p, d) ==> !Below(ls, d, c)
  {
    assert c in Elems(out[p]);
    if Elems(ls[p]) == Elems(ls[c]) {
      CanonicalUnique(ls[p], ls[c]);
    }
    forall d | 1 <= d < |ls| && Below(ls, p, d) ensures !Below(ls, d, c)
    {
      assert IsSuperset(ls, d, ls[p], true);
    }
  }

  /** On the label navigation graph, no unvisited child of the popped group has been
      recorded yet, so pushing it records a new group. */
  lemma ChildNotFound(ls: seq<seq<nat>>, out: seq<seq<nat>>, visited: set<nat>, stack: seq<nat>,
                      found: set<nat>, count: nat)
    requires GroupSets(ls) && MinSupersetEdges(ls, out) && stack != []
    requires forall i :: 0 <= i < |stack| ==> 1 <= stack[i] < |ls|
    requires CountExact(ls, visited, stack, found, count)
    ensures var current := stack[|stack| - 1];
            forall c :: c in out[current] && c != current && c !in visited + {current} ==> c !in found
  {
    var n := |stack| - 1;
    var current := stack[n];
    forall c | c in out[current] && c != current && c !in visited + {current} ensures c !in found
    {
      EdgeBelow(ls, out, current, c);
      forall i | 0 <= i < n ensures stack[i] != c
      {
        if stack[i] !in visited {
          assert !Below(ls, stack[n], stack[i]);
        }
      }
      assert c !in stack;
    }
  }

  /** Popping a group already visited keeps the count exact. */
  lemma PopVisitedExact(ls: seq<seq<nat>>, visited: set<nat>, stack: seq<nat>, found: set<nat>, count: nat)
    requires CountExact(ls, visited, stack, found, count) && stack != [] && stack[|stack| - 1] in visited
    ensures CountExact(ls, visited, stack[..|stack| - 1], found, count)
  {
    var rest := stack[..|stack| - 1];
    forall x | x in found && x !in visited ensures x in rest
    {
      var i :| 0 <= i < |stack| && stack[i] == x;
      assert rest[i] == x;
    }
  }

  /** Popping an unvisited group of the label navigation graph and pushing its unvisited
      children keeps the count exact: a child pushed above a stacked group is a minimal
      superset of the popped group, so it never lies strictly inside that group or inside a
      sibling pushed before it. */
  lemma PopNewExact(ls: seq<seq<nat>>, out: seq<seq<nat>>, visited: set<nat>, stack: seq<nat>,
                    found: set<nat>, count: nat, stack': seq<nat>, found': set<nat>, count': nat)
    requires GroupSets(ls) && MinSupersetEdges(ls, out) && stack != []
    requires forall i :: 0 <= i < |stack| ==> 1 <= stack[i] < |ls|
    requires CountExact(ls, visited, stack, found, count) && stack[|stack| - 1] !in visited
    requires var current := stack[|stack| - 1];
             var rest := stack[..|stack| - 1];
             && |rest| <= |stack'| && stack'[..|rest|] == rest
             && (forall i :: |rest| <= i < |stack'| ==> stack'[i] in out[current])
             && (forall c :: c in out[current] && c != current && c !in visited + {current} ==> c in stack')
             && found <= found' && (forall x :: x in found' ==> x in found || x in out[current])
             && |found'| + count == |found| + count'
    ensures CountExact(ls, visited + {stack[|stack| - 1]}, stack', found', count')
  {
    var n := |stack| - 1;
    var current := stack[n];
    var rest := stack[..n];
    var visited' := visited + {current};
    forall x | x in found' && x !in visited' ensures x in stack'
    {
      if x in found {
        var i :| 0 <= i < |stack| && stack[i] == x;
        assert i < n && stack'[i] == rest[i];
      } else {
        EdgeBelow(ls, out, current, x);
      }
    }
    forall i, j | 0 <= i < j < |stack'| && stack'[i] !in visited' && stack'[i] < |ls| && stack'[j] < |ls|
      ensures !Below(ls, stack'[j], stack'[i])
    {
      if j < |rest| {
        assert stack'[i] == stack[i] && stack'[j] == stack[j];
      } else if i < |rest| {
        assert stack'[i] == stack[i];
        assert !Below(ls, stack[n], stack[i]);
        EdgeBelow(ls, out, current, stack'[j]);
      } else {
        EdgeBelow(ls, out, current, stack'[j]);
        EdgeBelow(ls, out, current, stack'[i]);
      }
    }
  }

  /** One search from g, as the body of get_descendants_info's loop does it: the groups
      recorded are exactly g's descendants, and the count of pushes is at least their number;
      on the label navigation graph, whose edges lead to minimal strict supersets, no group is
      pushed twice and the count is exactly the number of descendants. */
  method SearchFrom(ls: seq<seq<nat>>, out: seq<seq<nat>>, g: nat) returns (count: nat, found: set<nat>)
    requires Ranked(ls, out) && 1 <= g < |ls|
    ensures found == Desc(ls, out, g) && |found| <= count
    ensures GroupSets(ls) && MinSupersetEdges(ls, out) ==> count == |found|
  {
    var visited: set<nat> := {};
    var stack := [g];
    count, found := 0, {};
    while stack != []
      invariant Searching(ls, out, g, visited, stack, found, count)
      invariant GroupSets(ls) && MinSupersetEdges(ls, out) ==> CountExact(ls, visited, stack, found, count)
      decreases Reach(ls, out, g) - visited, |stack|
    {
      var current := stack[|stack| - 1];
      if current in visited {
        PopVisited(ls, out, g, visited, stack, found, count);
        if GroupSets(ls) && MinSupersetEdges(ls, out) {
          PopVisitedExact(ls, visited, stack, found, count);
        }
        stack := stack[..|stack| - 1];
      } else {
        assert current in Reach(ls, out, g);
        DescAbove(ls, out, g);
        ghost var stack0, found0, count0 := stack, found, count;
        ghost var lng := GroupSets(ls) && MinSupersetEdges(ls, out);
        if lng {
          ReachedGroups(ls, out, g, stack);
          ChildNotFound(ls, out, visited, stack, found, count);
        }
        var stack', found', count' := PushChildren(out, current, visited + {current}, stack[..|stack| - 1], found, count);
        PopNew(ls, out, g, visited, stack0, found0, count0, stack', found', count');
        if lng {
          PopNewExact(ls, out, visited, stack0, found0, count0, stack', found', count');
        }
        visited := visited + {current};
        stack, found, count := stack', found', count';
      }
    }
    SearchDone(ls, out, g, visited, found, count);
  }

  /** Every group the search can reach is a group id. */
  lemma ReachedGroups(ls: seq<seq<nat>>, out: seq<seq<nat>>, g: nat, stack: seq<nat>)
    requires Ranked(ls, out) && 1 <= g < |ls|
    requires forall i :: 0 <= i < |stack| ==> stack[i] in Reach(ls, out, g)
    ensures forall i :: 0 <= i < |stack| ==> 1 <= stack[i] < |ls|
  {
    DescAbove(ls, out, g);
  }

  /** An empty stack ends the search with exactly g's descendants recorded. */
  lemma SearchDone(ls: seq<seq<nat>>, out: seq<seq<nat>>, g: nat, visited: set<nat>, found: set<nat>, count: nat)
    requires Searching(ls, out, g, visited, [], found, count)
    ensures found == Desc(ls, out, g)
  {
    ClosedHoldsDesc(ls, out, g, visited);
    DescAbove(ls, out, g);
    forall d | d in Desc(ls, out, g) ensures d in found
    {
      assert d in visited;
    }
  }

  /** get_descendants_info's loop over groups 1..num_groups: the pair (g, count) and g's
      descendant set are stored at index g-1; on the label navigation graph the count is the
      number of g's descendants. */
  method DescendantsInfo(ls: seq<seq<nat>>, out: seq<seq<nat>>) returns (nums: seq<(nat, nat)>, sets: seq<set<nat>>)
    requires Ranked(ls, out)
    ensures |nums| == |ls| - 1 && |sets| == |ls| - 1
    ensures forall k :: 0 <= k < |ls| - 1 ==>
              nums[k].0 == k + 1 && sets[k] == Desc(ls, out, k + 1) && |sets[k]| <= nums[k].1
    ensures GroupSets(ls) && MinSupersetEdges(ls, out) ==>
              forall k :: 0 <= k < |ls| - 1 ==> nums[k].1 == |Desc(ls, out, k + 1)|
  {
    nums := seq(|ls| - 1, _ => (0, 0));
    sets := seq(|ls| - 1, _ => {});
    for g := 1 to |ls|
      invariant |nums| == |ls| - 1 && |sets| == |ls| - 1
      invariant forall k :: 0 <= k < g - 1 ==>
                  nums[k].0 == k + 1 && sets[k] == Desc(ls, out, k + 1) && |sets[k]| <= nums[k].1
      invariant GroupSets(ls) && MinSupersetEdges(ls, out) ==>
                  forall k :: 0 <= k < g - 1 ==> nums[k].1 == |Desc(ls, out, k + 1)|
    {
      var count, found := SearchFrom(ls, out, g);
      nums := nums[g - 1 := (g, count)];
      sets := sets[g - 1 := found];
    }
  }

  /** initialize_roaring_bitsets as written: group g's descendants are read at index g of the
      table get_descendants_info fills at index g-1; for the last group that index is past the
      end, which leaves nothing defined to read. */
  function DescendantsReadAsWritten(sets: seq<set<nat>>, g: nat): (r: Option<set<nat>>)
    ensures r.Some? <==> g < |sets|
  {
    if g < |sets| then Some(sets[g]) else None
  }

  /** Two groups, {1} below {1, 2}: the smallest label navigation graph with an edge. */
  const ChainLabels: seq<seq<nat>> := [[], [1], [1, 2]]
  const ChainOut: seq<seq<nat>> := [[], [2], []]

  /** In the chain, group 1's only descendant is group 2, and group 2 has none. */
  lemma ChainDescendants()
    ensures Ranked(ChainLabels, ChainOut)
    ensures Desc(ChainLabels, ChainOut, 1) == {2} && Desc(ChainLabels, ChainOut, 2) == {}
  {
    assert Ranked(ChainLabels, ChainOut);
    assert Desc(ChainLabels, ChainOut, 2) == {};
    assert 2 in {2} + Desc(ChainLabels, ChainOut, 2);
  }

  /** Reading the table as written gives group 1 the descendants of group 2, and nothing at
      all for group 2. */
  lemma DescendantsMisread(sets: seq<set<nat>>)
    requires Ranked(ChainLabels, ChainOut)
    requires |sets| == 2 && forall k :: 0 <= k < 2 ==> sets[k] == Desc(ChainLabels, ChainOut, k + 1)
    ensures DescendantsReadAsWritten(sets, 1) != Some(Desc(ChainLabels, ChainOut, 1))
    ensures DescendantsReadAsWritten(sets, 2) == None
  {
    ChainDescendants();
    assert sets[1] == {};
  }

  /** initialize_roaring_bitsets reading index g-1, as the table is written: every group's
      descendant bitset holds exactly its descendants, and its covered bitset its covered set. */
  method RoaringBitsets(ls: seq<seq<nat>>, out: seq<seq<nat>>, sets: seq<set<nat>>, covered: seq<set<nat>>)
    returns (descendantsRb: seq<set<nat>>, coveredRb: seq<set<nat>>)
    requires Ranked(ls, out) && |sets| == |ls| - 1 && |covered| == |ls|
    requires forall k :: 0 <= k < |ls| - 1 ==> sets[k] == Desc(ls, out, k + 1)
    ensures |descendantsRb| == |ls| && |coveredRb| == |ls| && descendantsRb[0] == {} && coveredRb[0] == {}
    ensures forall g :: 1 <= g < |ls| ==> descendantsRb[g] == Desc(ls, out, g) && coveredRb[g] == covered[g]
  {
    descendantsRb := seq(|ls|, _ => {});
    coveredRb := seq(|ls|, _ => {});
    for g := 1 to |ls|
      invariant |descendantsRb| == |ls| && |coveredRb| == |ls| && descendantsRb[0] == {} && coveredRb[0] == {}
      invariant forall h :: 1 <= h < g ==> descendantsRb[h] == Desc(ls, out, h) && coveredRb[h] == covered[h]
      invariant forall h :: g <= h < |ls| ==> descendantsRb[h] == {} && coveredRb[h] == {}
    {
      assert sets[g - 1] == Desc(ls, out, g);
      descendantsRb := descendantsRb[g := descendantsRb[g] + sets[g - 1]];
      coveredRb := coveredRb[g := coveredRb[g] + covered[g]];
    }
  }
}
