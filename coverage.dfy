/** cal_f_coverage_ratio's bottom-up merge: every group's covered set starts as its own
    members; leaves are queued first, and a popped group is merged into each parent, which is
    queued once its last child has been merged. The queue is modelled as the sequence of every
    group pushed so far together with the position of its front. */
module Coverage {
  import opened Common
  import opened Lng

  /** The children of p that have not been popped yet. */
  ghost function Pending(out: seq<seq<nat>>, p: nat, done: set<nat>): set<nat>
    requires p < |out|
  {
    Elems(out[p]) - done
  }

  /** Group p's entries while the groups in done have been popped: its covered set holds the
      coverage of its popped children, its counter the number of children still pending, and
      it has been queued exactly when no child is pending. */
  ghost predicate Settled(ls: seq<seq<nat>>, out: seq<seq<nat>>, vecIds: seq<seq<nat>>,
                          covered: seq<set<nat>>, outDeg: seq<int>, queue: seq<nat>, p: nat, done: set<nat>)
    requires Ranked(ls, out) && |vecIds| == |ls| && |covered| == |ls| && |outDeg| == |ls| && 1 <= p < |ls|
  {
    && covered[p] == Partial(ls, out, vecIds, p, done)
    && outDeg[p] == |Pending(out, p, done)|
    && (p in queue <==> Pending(out, p, done) == {})
  }

  /** The state of the drain when the groups queue[..head] have been popped. */
  ghost predicate Draining(ls: seq<seq<nat>>, out: seq<seq<nat>>, vecIds: seq<seq<nat>>,
                           covered: seq<set<nat>>, outDeg: seq<int>, queue: seq<nat>, head: nat)
  {
    && Ranked(ls, out) && |vecIds| == |ls|
    && |covered| == |ls| && |outDeg| == |ls| && head <= |queue|
    && Distinct(queue) && (forall i :: 0 <= i < |queue| ==> 1 <= queue[i] < |ls|)
    && (forall p :: 1 <= p < |ls| ==> Settled(ls, out, vecIds, covered, outDeg, queue, p, Elems(queue[..head])))
  }

  /** Step 1: each group's covered set starts as its own member ids. */
  method InitCovered(ls: seq<seq<nat>>, vecIds: seq<seq<nat>>) returns (covered: seq<set<nat>>)
    requires |vecIds| == |ls| >= 1
    ensures |covered| == |ls| && forall g :: 1 <= g < |ls| ==> covered[g] == Elems(vecIds[g])
  {
    covered := seq(|ls|, _ => {});
    for g := 1 to |ls|
      invariant |covered| == |ls|
      invariant forall h :: 1 <= h < |ls| ==> covered[h] == if h < g then Elems(vecIds[h]) else {}
    {
      covered := covered[g := covered[g] + Elems(vecIds[g])];
    }
  }

  /** Step 2: out_degree copies every group's out-degree, and the leaves are queued in group
      order. */
  method Leaves(out: seq<seq<nat>>) returns (outDeg: seq<int>, queue: seq<nat>)
    requires |out| >= 1
    ensures |outDeg| == |out| && forall g :: 1 <= g < |out| ==> outDeg[g] == |out[g]|
    ensures StrictlyIncreasing(queue)
    ensures forall g: nat :: g in queue <==> 1 <= g < |out| && out[g] == []
  {
    outDeg := seq(|out|, _ => 0);
    queue := [];
    for g := 1 to |out|
      invariant |outDeg| == |out| && forall h :: 1 <= h < g ==> outDeg[h] == |out[h]|
      invariant forall i :: 0 <= i < |queue| ==> queue[i] < g
      invariant StrictlyIncreasing(queue)
      invariant forall h: nat :: h in queue <==> 1 <= h < g && out[h] == []
    {
      outDeg := outDeg[g := |out[g]|];
      if outDeg[g] == 0 {
        queue := queue + [g];
      }
    }
  }

  /** Before the first pop every group is settled with nothing done. */
  lemma DrainStart(ls: seq<seq<nat>>, out: seq<seq<nat>>, vecIds: seq<seq<nat>>,
                   covered: seq<set<nat>>, outDeg: seq<int>, queue: seq<nat>)
    requires Ranked(ls, out) && |vecIds| == |ls| && forall g :: 0 <= g < |out| ==> Distinct(out[g])
    requires |covered| == |ls| && forall g :: 1 <= g < |ls| ==> covered[g] == Elems(vecIds[g])
    requires |outDeg| == |out| && forall g :: 1 <= g < |out| ==> outDeg[g] == |out[g]|
    requires StrictlyIncreasing(queue) && forall g: nat :: g in queue <==> 1 <= g < |out| && out[g] == []
    ensures Draining(ls, out, vecIds, covered, outDeg, queue, 0)
  {
    assert queue[..0] == [];
    assert Elems(queue[..0]) == {};
    forall i | 0 <= i < |queue| ensures 1 <= queue[i] < |ls|
    {
      assert queue[i] in queue;
    }
    forall p | 1 <= p < |ls| ensures Settled(ls, out, vecIds, covered, outDeg, queue, p, {})
    {
      DistinctCard(out[p]);
      assert Pending(out, p, {}) == Elems(out[p]);
      if out[p] != [] {
        assert out[p][0] in Elems(out[p]);
      }
    }
  }

  /** The numbers lo..hi-1 are hi-lo distinct values. */
  lemma RangeCard(lo: nat, hi: nat)
    requires lo <= hi
    ensures |Elems(Range(lo, hi))| == hi - lo
  {
    var r := Range(lo, hi);
    assert Distinct(r);
    DistinctCard(r);
  }

  /** A subset has at most as many elements as its superset. */
  lemma SubsetCard(x: set<nat>, y: set<nat>)
    requires x <= y
    ensures |x| <= |y|
  {
    var rest := y - x;
    assert y == x + rest;
  }

  /** A duplicate-free queue of groups 1..n-1 is shorter than n. */
  lemma QueueBound(queue: seq<nat>, n: nat)
    requires n >= 1
    requires Distinct(queue) && forall i :: 0 <= i < |queue| ==> 1 <= queue[i] < n
    ensures |queue| < n
  {
    DistinctCard(queue);
    var r := Range(1, n);
    RangeCard(1, n);
    forall x | x in Elems(queue) ensures x in Elems(r)
    {
      var i :| 0 <= i < |queue| && queue[i] == x;
      assert r[x - 1] == x;
    }
    SubsetCard(Elems(queue), Elems(r));
  }

  /** Once the queue is drained every group has been popped and holds its full coverage. */
  lemma DrainEnd(ls: seq<seq<nat>>, out: seq<seq<nat>>, vecIds: seq<seq<nat>>,
                 covered: seq<set<nat>>, outDeg: seq<int>, queue: seq<nat>)
    requires Draining(ls, out, vecIds, covered, outDeg, queue, |queue|)
    ensures forall g :: 1 <= g < |ls| ==> g in queue && covered[g] == Cov(ls, out, vecIds, g)
  {
    var done := Elems(queue);
    assert queue[..|queue|] == queue;
    forall p | 1 <= p < |ls| && Elems(out[p]) <= done ensures p in done
    {
      assert Settled(ls, out, vecIds, covered, outDeg, queue, p, done);
      assert Pending(out, p, done) == {};
    }
    forall g | 1 <= g < |ls| ensures g in queue && covered[g] == Cov(ls, out, vecIds, g)
    {
      AllFinished(ls, out, done, g);
      assert Settled(ls, out, vecIds, covered, outDeg, queue, g, done);
      assert Pending(out, g, done) == {};
      forall x | x in Elems(out[g]) ensures x in done
      {
        assert x !in Pending(out, g, done);
      }
      PartialComplete(ls, out, vecIds, g, done);
    }
  }

  /** The groups that group p counts as finished inside the merge of queue[head] into its
      parents, once the first j of them have been merged. */
  ghost function DoneFor(queue: seq<nat>, head: nat, parents: seq<nat>, j: nat, p: nat): set<nat>
    requires head < |queue| && j <= |parents|
  {
    Elems(queue[..head]) + (if p in parents[..j] then {queue[head]} else {})
  }

  /** A queue of distinct real groups. */
  ghost predicate QueueOk(ls: seq<seq<nat>>, queue: seq<nat>)
  {
    Distinct(queue) && forall i :: 0 <= i < |queue| ==> 1 <= queue[i] < |ls|
  }

  /** Every group settled, each with its own set of finished groups after the first j
      parents of queue[head] have been merged. */
  ghost predicate SettledAll(ls: seq<seq<nat>>, out: seq<seq<nat>>, vecIds: seq<seq<nat>>,
                             covered: seq<set<nat>>, outDeg: seq<int>, queue: seq<nat>, head: nat,
                             parents: seq<nat>, j: nat)
  {
    && Ranked(ls, out) && |vecIds| == |ls| && |covered| == |ls| && |outDeg| == |ls|
    && head < |queue| && j <= |parents|
    && (forall p :: 1 <= p < |ls| ==>
          Settled(ls, out, vecIds, covered, outDeg, queue, p, DoneFor(queue, head, parents, j, p)))
  }

  /** The state inside the merge of the popped group queue[head] into its parents, after the
      first j of them. */
  ghost predicate Merging(ls: seq<seq<nat>>, out: seq<seq<nat>>, inn: seq<seq<nat>>, vecIds: seq<seq<nat>>,
                          covered: seq<set<nat>>, outDeg: seq<int>, queue: seq<nat>, head: nat, j: nat)
  {
    && Ranked(ls, out) && Reverse(out, inn) && |vecIds| == |ls|
    && |covered| == |ls| && |outDeg| == |ls| && head < |queue| && QueueOk(ls, queue)
    && j <= |inn[queue[head]]|
    && covered[queue[head]] == Cov(ls, out, vecIds, queue[head])
    && SettledAll(ls, out, vecIds, covered, outDeg, queue, head, inn[queue[head]], j)
  }

  /** Popping the front: it has no pending child, so its covered set is complete. */
  lemma MergeStart(ls: seq<seq<nat>>, out: seq<seq<nat>>, inn: seq<seq<nat>>, vecIds: seq<seq<nat>>,
                   covered: seq<set<nat>>, outDeg: seq<int>, queue: seq<nat>, head: nat)
    requires Draining(ls, out, vecIds, covered, outDeg, queue, head) && Reverse(out, inn) && head < |queue|
    ensures Merging(ls, out, inn, vecIds, covered, outDeg, queue, head, 0)
  {
    var cur := queue[head];
    var done := Elems(queue[..head]);
    assert Settled(ls, out, vecIds, covered, outDeg, queue, cur, done);
    assert cur in queue;
    forall x | x in Elems(out[cur]) ensures x in done
    {
      assert x !in Pending(out, cur, done);
    }
    PartialComplete(ls, out, vecIds, cur, done);
    assert inn[cur][..0] == [];
    forall p | 1 <= p < |ls| ensures DoneFor(queue, head, inn[cur], 0, p) == done
    {
    }
  }

  /** The next parent p of the popped group: a proper parent not merged yet, one of whose
      pending children is the popped group, so p is not queued and its counter is positive. */
  lemma ParentFacts(ls: seq<seq<nat>>, out: seq<seq<nat>>, inn: seq<seq<nat>>, vecIds: seq<seq<nat>>,
                    covered: seq<set<nat>>, outDeg: seq<int>, queue: seq<nat>, head: nat, j: nat)
    requires Ranked(ls, out) && Reverse(out, inn) && head < |queue| && QueueOk(ls, queue)
    requires j < |inn[queue[head]]| && SettledAll(ls, out, vecIds, covered, outDeg, queue, head, inn[queue[head]], j)
    ensures var cur := queue[head];
            var p := inn[cur][j];
            var done := Elems(queue[..head]);
            && 1 <= p < |ls| && p != cur && cur in out[p] && cur !in done
            && p !in queue && p !in inn[cur][..j] && outDeg[p] >= 1
            && Settled(ls, out, vecIds, covered, outDeg, queue, p, done)
  {
    var cur := queue[head];
    var parents := inn[cur];
    var p := parents[j];
    var done := Elems(queue[..head]);
    assert p in parents;
    assert p < |out| && cur in out[p];
    assert p != 0;
    assert p != cur;
    assert p !in parents[..j];
    assert cur !in done;
    assert DoneFor(queue, head, parents, j, p) == done;
    assert Settled(ls, out, vecIds, covered, outDeg, queue, p, done);
    assert cur in Pending(out, p, done);
  }

  /** Merging a finished child cur into its parent p settles p with cur counted as done. */
  lemma SettledParent(ls: seq<seq<nat>>, out: seq<seq<nat>>, vecIds: seq<seq<nat>>,
                      covered: seq<set<nat>>, outDeg: seq<int>, queue: seq<nat>, p: nat, cur: nat, done: set<nat>)
    requires Ranked(ls, out) && |vecIds| == |ls| && |covered| == |ls| && |outDeg| == |ls|
    requires 1 <= p < |ls| && 1 <= cur < |ls| && p != cur && cur in out[p] && cur !in done && p !in queue
    requires covered[cur] == Cov(ls, out, vecIds, cur)
    requires Settled(ls, out, vecIds, covered, outDeg, queue, p, done)
    ensures Settled(ls, out, vecIds, covered[p := covered[p] + covered[cur]], outDeg[p := outDeg[p] - 1],
                    if outDeg[p] == 1 then queue + [p] else queue, p, done + {cur})
  {
    PartialStep(ls, out, vecIds, p, done, cur);
    assert cur in Pending(out, p, done);
    assert Pending(out, p, done + {cur}) == Pending(out, p, done) - {cur};
  }

  /** A group other than the parent being merged keeps its entries and its place in the queue. */
  lemma SettledOther(ls: seq<seq<nat>>, out: seq<seq<nat>>, vecIds: seq<seq<nat>>,
                     covered: seq<set<nat>>, outDeg: seq<int>, queue: seq<nat>,
                     covered': seq<set<nat>>, outDeg': seq<int>, queue': seq<nat>, q: nat, done: set<nat>)
    requires Ranked(ls, out) && |vecIds| == |ls| && |covered| == |ls| && |outDeg| == |ls|
    requires |covered'| == |ls| && |outDeg'| == |ls| && 1 <= q < |ls|
    requires covered'[q] == covered[q] && outDeg'[q] == outDeg[q] && (q in queue' <==> q in queue)
    requires Settled(ls, out, vecIds, covered, outDeg, queue, q, done)
    ensures Settled(ls, out, vecIds, covered', outDeg', queue', q, done)
  {
  }

  /** A group that is not a parent of cur is unaffected by cur being finished. */
  lemma SettledUntouched(ls: seq<seq<nat>>, out: seq<seq<nat>>, vecIds: seq<seq<nat>>,
                         covered: seq<set<nat>>, outDeg: seq<int>, queue: seq<nat>, p: nat, cur: nat, done: set<nat>)
    requires Ranked(ls, out) && |vecIds| == |ls| && |covered| == |ls| && |outDeg| == |ls|
    requires 1 <= p < |ls| && 1 <= cur < |ls| && cur !in out[p]
    requires Settled(ls, out, vecIds, covered, outDeg, queue, p, done)
    ensures Settled(ls, out, vecIds, covered, outDeg, queue, p, done + {cur})
  {
    PartialStep(ls, out, vecIds, p, done, cur);
    assert Pending(out, p, done + {cur}) == Pending(out, p, done);
  }

  /** One more parent merged: only that parent's entry changes its set of finished groups. */
  lemma DoneForStep(queue: seq<nat>, queue': seq<nat>, head: nat, parents: seq<nat>, j: nat, q: nat)
    requires head < |queue| <= |queue'| && queue'[..|queue|] == queue && j < |parents|
    ensures DoneFor(queue', head, parents, j + 1, q) ==
            if q == parents[j] then Elems(queue[..head]) + {queue[head]} else DoneFor(queue, head, parents, j, q)
  {
    assert queue'[..head] == queue[..head];
    assert queue'[head] == queue[head];
    assert parents[..j + 1] == parents[..j] + [parents[j]];
    if q == parents[j] {
      assert q in parents[..j + 1];
    }
  }

  /** The per-group half of merging into parent p: every group is settled with its own set of
      finished groups, p now counting the popped group among them. */
  lemma MergeStepSettled(ls: seq<seq<nat>>, out: seq<seq<nat>>, vecIds: seq<seq<nat>>,
                         covered: seq<set<nat>>, outDeg: seq<int>, queue: seq<nat>, head: nat,
                         parents: seq<nat>, j: nat, next: nat,
                         covered': seq<set<nat>>, outDeg': seq<int>, queue': seq<nat>)
    requires Ranked(ls, out) && |vecIds| == |ls| && |covered| == |ls| && |outDeg| == |ls|
    requires head < |queue| && 1 <= queue[head] < |ls| && j < |parents| && next == j + 1
    requires var p := parents[j];
             && 1 <= p < |ls| && p != queue[head] && queue[head] in out[p]
             && queue[head] !in Elems(queue[..head]) && p !in queue && p !in parents[..j]
             && covered' == covered[p := covered[p] + covered[queue[head]]]
             && outDeg' == outDeg[p := outDeg[p] - 1]
             && queue' == if outDeg'[p] == 0 then queue + [p] else queue
    requires covered[queue[head]] == Cov(ls, out, vecIds, queue[head])
    requires SettledAll(ls, out, vecIds, covered, outDeg, queue, head, parents, j)
    ensures SettledAll(ls, out, vecIds, covered', outDeg', queue', head, parents, next)
  {
    var cur := queue[head];
    var p := parents[j];
    var done := Elems(queue[..head]);
    assert queue'[..|queue|] == queue;
    forall q | 1 <= q < |ls|
      ensures Settled(ls, out, vecIds, covered', outDeg', queue', q, DoneFor(queue', head, parents, next, q))
    {
      DoneForStep(queue, queue', head, parents, j, q);
      if q == p {
        assert DoneFor(queue, head, parents, j, p) == done;
        SettledParent(ls, out, vecIds, covered, outDeg, queue, p, cur, done);
      } else {
        SettledOther(ls, out, vecIds, covered, outDeg, queue, covered', outDeg', queue', q,
                     DoneFor(queue, head, parents, j, q));
      }
    }
  }

  /** Queueing a group not queued yet keeps the queue duplicate-free and its front in place. */
  lemma QueuePush(ls: seq<seq<nat>>, queue: seq<nat>, queue': seq<nat>, p: nat, head: nat)
    requires QueueOk(ls, queue) && head < |queue| && 1 <= p < |ls| && p !in queue
    requires queue' == queue || queue' == queue + [p]
    ensures QueueOk(ls, queue') && head < |queue'| && queue'[head] == queue[head]
  {
  }

  /** After the last parent every group counts the popped group as finished. */
  lemma MergeEnd(ls: seq<seq<nat>>, out: seq<seq<nat>>, inn: seq<seq<nat>>, vecIds: seq<seq<nat>>,
                 covered: seq<set<nat>>, outDeg: seq<int>, queue: seq<nat>, head: nat, j: nat)
    requires Merging(ls, out, inn, vecIds, covered, outDeg, queue, head, j) && j == |inn[queue[head]]|
    ensures Draining(ls, out, vecIds, covered, outDeg, queue, head + 1)
  {
    var cur := queue[head];
    var parents := inn[cur];
    var done := Elems(queue[..head]);
    assert Elems(queue[..head + 1]) == done + {cur} by {
      assert queue[..head + 1] == queue[..head] + [cur];
    }
    assert parents[..j] == parents;
    forall p | 1 <= p < |ls|
      ensures Settled(ls, out, vecIds, covered, outDeg, queue, p, done + {cur})
    {
      if p !in parents {
        assert cur !in out[p];
        assert DoneFor(queue, head, parents, j, p) == done;
        SettledUntouched(ls, out, vecIds, covered, outDeg, queue, p, cur, done);
      } else {
        assert DoneFor(queue, head, parents, j, p) == done + {cur};
      }
    }
  }

  /** Step 3 for one popped group: merge its covered set into every parent in
      in_neighbors order, queueing each parent whose last child this was. */
  method MergeIntoParents(ls: seq<seq<nat>>, out: seq<seq<nat>>, inn: seq<seq<nat>>, vecIds: seq<seq<nat>>,
                          covered: seq<set<nat>>, outDeg: seq<int>, queue: seq<nat>, head: nat)
    returns (covered': seq<set<nat>>, outDeg': seq<int>, queue': seq<nat>)
    requires Draining(ls, out, vecIds, covered, outDeg, queue, head) && Reverse(out, inn) && head < |queue|
    ensures Draining(ls, out, vecIds, covered', outDeg', queue', head + 1)
  {
    MergeStart(ls, out, inn, vecIds, covered, outDeg, queue, head);
    covered', outDeg', queue' := covered, outDeg, queue;
    var current := queue[head];
    var parents := inn[current];
    for j := 0 to |parents|
      invariant |covered'| == |ls| && |outDeg'| == |ls| && head < |queue'| && QueueOk(ls, queue')
      invariant queue'[head] == current
      invariant covered'[current] == Cov(ls, out, vecIds, current)
      invariant SettledAll(ls, out, vecIds, covered', outDeg', queue', head, parents, j)
    {
      ParentFacts(ls, out, inn, vecIds, covered', outDeg', queue', head, j);
      ghost var covered0, outDeg0, queue0 := covered', outDeg', queue';
      var parent := parents[j];
      covered' := covered'[parent := covered'[parent] + covered'[current]];
      outDeg' := outDeg'[parent := outDeg'[parent] - 1];
      if outDeg'[parent] == 0 {
        queue' := queue' + [parent];
      }
      MergeStepSettled(ls, out, vecIds, covered0, outDeg0, queue0, head, parents, j, j + 1, covered', outDeg', queue');
      QueuePush(ls, queue0, queue', parent, head);
    }
    assert Merging(ls, out, inn, vecIds, covered', outDeg', queue', head, |parents|);
    MergeEnd(ls, out, inn, vecIds, covered', outDeg', queue', head, |parents|);
  }

  /** cal_f_coverage_ratio's covered sets: every group ends up covering exactly its own
      vectors and those of all its descendants, whatever order the queue drains in. */
  method CoveredSets(ls: seq<seq<nat>>, out: seq<seq<nat>>, inn: seq<seq<nat>>, vecIds: seq<seq<nat>>)
    returns (covered: seq<set<nat>>)
    requires Ranked(ls, out) && Reverse(out, inn) && |vecIds| == |ls|
    requires forall g :: 0 <= g < |out| ==> Distinct(out[g])
    ensures |covered| == |ls| && forall g :: 1 <= g < |ls| ==> covered[g] == Cov(ls, out, vecIds, g)
  {
    covered := InitCovered(ls, vecIds);
    var outDeg, queue := Leaves(out);
    DrainStart(ls, out, vecIds, covered, outDeg, queue);
    var head := 0;
    while head < |queue|
      invariant Draining(ls, out, vecIds, covered, outDeg, queue, head)
      decreases |ls| - head
    {
      QueueBound(queue, |ls|);
      covered, outDeg, queue := MergeIntoParents(ls, out, inn, vecIds, covered, outDeg, queue, head);
      head := head + 1;
    }
    DrainEnd(ls, out, vecIds, covered, outDeg, queue);
  }
}
