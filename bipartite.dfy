/** The vector-attribute bipartite graph: vector nodes 0..num_points-1, one attribute node
    num_points+a per distinct label, and an edge both ways for every label of every vector. */
module Bipartite {
  import opened Common

  // ---------------------------------------------------------------- attribute ids

  /** The distinct values of s in order of first appearance. */
  function Dedup(s: seq<nat>): (d: seq<nat>)
    ensures Distinct(d) && Elems(d) == Elems(s)
  {
    if s == [] then []
    else
      var init := s[..|s| - 1];
      var d := Dedup(init);
      assert Elems(s) == Elems(init) + {s[|s| - 1]} by {
        assert s == init + [s[|s| - 1]];
      }
      if s[|s| - 1] in d then d else d + [s[|s| - 1]]
  }

  /** attr_to_id and id_to_attr number the labels of order 0, 1, ... in that order. */
  ghost predicate Numbering(order: seq<nat>, attrToId: map<nat, nat>, idToAttr: map<nat, nat>)
  {
    && Distinct(order)
    && attrToId.Keys == Elems(order)
    && (forall i :: i in idToAttr ==> i < |order|)
    && (forall i :: 0 <= i < |order| ==> i in idToAttr && attrToId[order[i]] == i && idToAttr[i] == order[i])
  }

  /** The two maps invert each other. */
  lemma NumberingInverse(order: seq<nat>, attrToId: map<nat, nat>, idToAttr: map<nat, nat>)
    requires Numbering(order, attrToId, idToAttr)
    ensures forall l :: l in attrToId ==> attrToId[l] < |order| && attrToId[l] in idToAttr && idToAttr[attrToId[l]] == l
    ensures forall a :: a in idToAttr ==> a < |order| && idToAttr[a] in attrToId && attrToId[idToAttr[a]] == a
  {
    forall l | l in attrToId
      ensures attrToId[l] < |order| && attrToId[l] in idToAttr && idToAttr[attrToId[l]] == l
    {
      var i :| 0 <= i < |order| && order[i] == l;
    }
  }

  /** Every label of every vector has an attribute id below numAttributes. */
  ghost predicate Labelled(labels: seq<seq<nat>>, attrToId: map<nat, nat>, numAttributes: nat)
  {
    forall v, k :: 0 <= v < |labels| && 0 <= k < |labels[v]| ==>
      labels[v][k] in attrToId && attrToId[labels[v][k]] < numAttributes
  }

  /** One label seen by the first pass: a label met for the first time gets the next id. */
  lemma NumberingStep(order: seq<nat>, attrToId: map<nat, nat>, idToAttr: map<nat, nat>, l: nat)
    requires Numbering(order, attrToId, idToAttr)
    ensures l !in attrToId ==>
              Numbering(order + [l], attrToId[l := |order|], idToAttr[|order| := l])
  {
    if l !in attrToId {
      var order' := order + [l];
      assert Elems(order') == Elems(order) + {l};
      forall i | 0 <= i < |order'| ensures attrToId[l := |order|][order'[i]] == i
      {
        if i < |order| {
          assert order'[i] == order[i] && order[i] in attrToId;
        }
      }
    }
  }

  /** The first pass of build_vector_and_attr_graph over the labels of vectors 0..n-1, in
      order: a label not yet in attr_to_id gets the next id, in both maps. */
  method AssignAttributeIds(labels: seq<seq<nat>>)
    returns (attrToId: map<nat, nat>, idToAttr: map<nat, nat>, numAttributes: nat)
    ensures Numbering(Dedup(Flatten(labels)), attrToId, idToAttr)
    ensures numAttributes == |Dedup(Flatten(labels))|
  {
    attrToId, idToAttr, numAttributes := map[], map[], 0;
    for v := 0 to |labels|
      invariant Numbering(Dedup(Flatten(labels[..v])), attrToId, idToAttr)
      invariant numAttributes == |Dedup(Flatten(labels[..v]))|
    {
      assert labels[..v + 1][..v] == labels[..v];
      attrToId, idToAttr, numAttributes := NumberLabels(Flatten(labels[..v]), labels[v], attrToId, idToAttr, numAttributes);
    }
    assert labels[..|labels|] == labels;
  }

  /** The first pass over the labels of one vector, after the labels `before` of the vectors
      ahead of it. */
  method NumberLabels(before: seq<nat>, labelSet: seq<nat>,
                      attrToId: map<nat, nat>, idToAttr: map<nat, nat>, numAttributes: nat)
    returns (attrToId': map<nat, nat>, idToAttr': map<nat, nat>, numAttributes': nat)
    requires Numbering(Dedup(before), attrToId, idToAttr) && numAttributes == |Dedup(before)|
    ensures Numbering(Dedup(before + labelSet), attrToId', idToAttr')
    ensures numAttributes' == |Dedup(before + labelSet)|
  {
    attrToId', idToAttr', numAttributes' := attrToId, idToAttr, numAttributes;
    assert before + labelSet[..0] == before;
    for k := 0 to |labelSet|
      invariant Numbering(Dedup(before + labelSet[..k]), attrToId', idToAttr')
      invariant numAttributes' == |Dedup(before + labelSet[..k])|
    {
      var lab := labelSet[k];
      ghost var seen := before + labelSet[..k];
      assert before + labelSet[..k + 1] == seen + [lab];
      NumberingAppend(seen, attrToId', idToAttr', lab);
      if lab !in attrToId' {
        attrToId' := attrToId'[lab := numAttributes'];
        idToAttr' := idToAttr'[numAttributes' := lab];
        numAttributes' := numAttributes' + 1;
      }
    }
    assert labelSet[..|labelSet|] == labelSet;
  }

  /** NumberingStep in terms of the labels seen so far. */
  lemma NumberingAppend(seen: seq<nat>, attrToId: map<nat, nat>, idToAttr: map<nat, nat>, l: nat)
    requires Numbering(Dedup(seen), attrToId, idToAttr)
    ensures l in attrToId ==> Dedup(seen + [l]) == Dedup(seen)
    ensures l !in attrToId ==> Dedup(seen + [l]) == Dedup(seen) + [l]
    ensures l !in attrToId ==>
              Numbering(Dedup(seen + [l]), attrToId[l := |Dedup(seen)|], idToAttr[|Dedup(seen)| := l])
  {
    assert (seen + [l])[..|seen|] == seen;
    NumberingStep(Dedup(seen), attrToId, idToAttr, l);
  }

  /** The numbering of the first pass gives every label an id below the attribute count. */
  lemma NumberedLabels(labels: seq<seq<nat>>, attrToId: map<nat, nat>, idToAttr: map<nat, nat>)
    requires Numbering(Dedup(Flatten(labels)), attrToId, idToAttr)
    ensures Labelled(labels, attrToId, |Dedup(Flatten(labels))|)
  {
    var order := Dedup(Flatten(labels));
    FlattenElems(labels);
    NumberingInverse(order, attrToId, idToAttr);
    forall v, k | 0 <= v < |labels| && 0 <= k < |labels[v]|
      ensures labels[v][k] in attrToId && attrToId[labels[v][k]] < |order|
    {
      assert labels[v][k] in labels[v];
    }
  }

  // ---------------------------------------------------------------- adjacency

  /** Vector node u's list for label sequence s: the attribute node of each label, in order. */
  function VecList(attrToId: map<nat, nat>, n: nat, s: seq<nat>): seq<nat>
    requires forall k :: 0 <= k < |s| ==> s[k] in attrToId
  {
    if s == [] then [] else VecList(attrToId, n, s[..|s| - 1]) + [n + attrToId[s[|s| - 1]]]
  }

  /** Vector u once for every label of s whose id is a. */
  function Hits(attrToId: map<nat, nat>, a: nat, u: nat, s: seq<nat>): seq<nat>
    requires forall k :: 0 <= k < |s| ==> s[k] in attrToId
  {
    if s == [] then [] else Hits(attrToId, a, u, s[..|s| - 1]) + (if attrToId[s[|s| - 1]] == a then [u] else [])
  }

  /** Attribute node a's list after vectors 0..v-1: those vectors carrying the label of id a,
      in vector order. */
  function AttrList(labels: seq<seq<nat>>, attrToId: map<nat, nat>, a: nat, v: nat): seq<nat>
    requires v <= |labels| && forall u, k :: 0 <= u < |labels| && 0 <= k < |labels[u]| ==> labels[u][k] in attrToId
  {
    if v == 0 then [] else AttrList(labels, attrToId, a, v - 1) + Hits(attrToId, a, v - 1, labels[v - 1])
  }

  /** Label sequence s holds a label whose attribute id is a. */
  ghost predicate Carries(attrToId: map<nat, nat>, s: seq<nat>, a: nat)
  {
    exists k :: 0 <= k < |s| && s[k] in attrToId && attrToId[s[k]] == a
  }

  lemma {:induction false} InVecList(attrToId: map<nat, nat>, n: nat, s: seq<nat>, x: nat)
    requires forall k :: 0 <= k < |s| ==> s[k] in attrToId
    ensures x in VecList(attrToId, n, s) <==> exists k :: 0 <= k < |s| && x == n + attrToId[s[k]]
  {
    if s != [] {
      var init := s[..|s| - 1];
      InVecList(attrToId, n, init, x);
      if x in VecList(attrToId, n, init) {
        var k :| 0 <= k < |init| && x == n + attrToId[init[k]];
        assert s[k] == init[k];
      }
      if exists k :: 0 <= k < |s| && x == n + attrToId[s[k]] {
        var k :| 0 <= k < |s| && x == n + attrToId[s[k]];
        if k < |init| {
          assert init[k] == s[k];
        }
      }
    }
  }

  lemma {:induction false} InHits(attrToId: map<nat, nat>, a: nat, u: nat, s: seq<nat>, x: nat)
    requires forall k :: 0 <= k < |s| ==> s[k] in attrToId
    ensures x in Hits(attrToId, a, u, s) <==> x == u && Carries(attrToId, s, a)
  {
    if s != [] {
      var init := s[..|s| - 1];
      InHits(attrToId, a, u, init, x);
      if Carries(attrToId, init, a) {
        var k :| 0 <= k < |init| && init[k] in attrToId && attrToId[init[k]] == a;
        assert s[k] == init[k];
      }
      if Carries(attrToId, s, a) {
        var k :| 0 <= k < |s| && s[k] in attrToId && attrToId[s[k]] == a;
        if k < |init| {
          assert init[k] == s[k];
        }
      }
    }
  }

  lemma {:induction false} InAttrList(labels: seq<seq<nat>>, attrToId: map<nat, nat>, a: nat, v: nat, x: nat)
    requires v <= |labels| && forall u, k :: 0 <= u < |labels| && 0 <= k < |labels[u]| ==> labels[u][k] in attrToId
    ensures x in AttrList(labels, attrToId, a, v) <==>
            x < v && Carries(attrToId, labels[x], a)
  {
    if v != 0 {
      InAttrList(labels, attrToId, a, v - 1, x);
      InHits(attrToId, a, v - 1, labels[v - 1], x);
    }
  }

  /** Appending one entry to one list adds one to the total length. */
  lemma {:induction false} TotalLengthAppend(ss: seq<seq<nat>>, i: nat, x: nat)
    requires i < |ss|
    ensures TotalLength(ss[i := ss[i] + [x]]) == TotalLength(ss) + 1
  {
    var ss' := ss[i := ss[i] + [x]];
    if i < |ss| - 1 {
      assert ss'[..|ss'| - 1] == ss[..|ss| - 1][i := ss[i] + [x]];
      TotalLengthAppend(ss[..|ss| - 1], i, x);
    } else {
      assert ss'[..|ss'| - 1] == ss[..|ss| - 1];
    }
  }

  lemma {:induction false} TotalLengthEmpty(ss: seq<seq<nat>>)
    requires forall i :: 0 <= i < |ss| ==> ss[i] == []
    ensures TotalLength(ss) == 0
  {
    if ss != [] {
      TotalLengthEmpty(ss[..|ss| - 1]);
    }
  }

  /** The adjacency build_vector_and_attr_graph leaves after vectors 0..v-1. */
  ghost predicate BuiltUpTo(labels: seq<seq<nat>>, attrToId: map<nat, nat>, numAttributes: nat,
                            graph: seq<seq<nat>>, v: nat)
  {
    && Labelled(labels, attrToId, numAttributes) && v <= |labels|
    && |graph| == |labels| + numAttributes
    && (forall u :: 0 <= u < |labels| ==>
          graph[u] == if u < v then VecList(attrToId, |labels|, labels[u]) else [])
    && (forall a :: 0 <= a < numAttributes ==> graph[|labels| + a] == AttrList(labels, attrToId, a, v))
    && TotalLength(graph) == 2 * TotalLength(labels[..v])
  }

  /** Part-way through vector v: its first k labels have their edges both ways. */
  ghost predicate EdgesUpTo(labels: seq<seq<nat>>, attrToId: map<nat, nat>, numAttributes: nat,
                            graph: seq<seq<nat>>, graph': seq<seq<nat>>, v: nat, k: nat)
    requires Labelled(labels, attrToId, numAttributes) && v < |labels|
  {
    && k <= |labels[v]|
    && |graph'| == |graph| == |labels| + numAttributes
    && graph'[v] == VecList(attrToId, |labels|, labels[v][..k])
    && (forall u :: 0 <= u < |labels| && u != v ==> graph'[u] == graph[u])
    && (forall a :: 0 <= a < numAttributes ==>
          graph'[|labels| + a] == AttrList(labels, attrToId, a, v) + Hits(attrToId, a, v, labels[v][..k]))
    && TotalLength(graph') == TotalLength(graph) + 2 * k
  }

  lemma EdgesStep(labels: seq<seq<nat>>, attrToId: map<nat, nat>, numAttributes: nat,
                  graph: seq<seq<nat>>, graph': seq<seq<nat>>, v: nat, k: nat, graph'': seq<seq<nat>>)
    requires Labelled(labels, attrToId, numAttributes) && v < |labels| && |graph| == |labels| + numAttributes
    requires EdgesUpTo(labels, attrToId, numAttributes, graph, graph', v, k) && k < |labels[v]|
    requires graph'' == graph'[v := graph'[v] + [|labels| + attrToId[labels[v][k]]]]
                              [|labels| + attrToId[labels[v][k]] :=
                                 graph'[|labels| + attrToId[labels[v][k]]] + [v]]
    ensures EdgesUpTo(labels, attrToId, numAttributes, graph, graph'', v, k + 1)
  {
    var n, s := |labels|, labels[v];
    assert s[k] in attrToId && attrToId[s[k]] < numAttributes;
    var b := attrToId[s[k]];
    assert s[..k + 1][..k] == s[..k];
    assert graph''[v] == graph'[v] + [n + b];
    var mid := graph'[v := graph'[v] + [n + b]];
    TotalLengthAppend(graph', v, n + b);
    TotalLengthAppend(mid, n + b, v);
    assert graph''[n + b] == graph'[n + b] + [v];
    assert forall x :: n <= x < |graph''| && x != n + b ==> graph''[x] == graph'[x];
    AttrListsStep(labels, attrToId, numAttributes, graph', graph'', v, k);
  }

  /** The attribute-node half of EdgesStep: only the node of label k of vector v gains v. */
  lemma AttrListsStep(labels: seq<seq<nat>>, attrToId: map<nat, nat>, numAttributes: nat,
                      graph': seq<seq<nat>>, graph'': seq<seq<nat>>, v: nat, k: nat)
    requires Labelled(labels, attrToId, numAttributes) && v < |labels| && k < |labels[v]|
    requires |graph''| == |graph'| == |labels| + numAttributes
    requires forall a :: 0 <= a < numAttributes ==>
               graph'[|labels| + a] == AttrList(labels, attrToId, a, v) + Hits(attrToId, a, v, labels[v][..k])
    requires graph''[|labels| + attrToId[labels[v][k]]] == graph'[|labels| + attrToId[labels[v][k]]] + [v]
    requires forall x :: |labels| <= x < |graph''| && x != |labels| + attrToId[labels[v][k]] ==>
               graph''[x] == graph'[x]
    ensures forall a :: 0 <= a < numAttributes ==>
              graph''[|labels| + a] == AttrList(labels, attrToId, a, v) + Hits(attrToId, a, v, labels[v][..k + 1])
  {
    var s := labels[v];
    assert s[..k + 1][..k] == s[..k];
    forall a | 0 <= a < numAttributes
      ensures graph''[|labels| + a] == AttrList(labels, attrToId, a, v) + Hits(attrToId, a, v, s[..k + 1])
    {
    }
  }

  lemma EdgesStart(labels: seq<seq<nat>>, attrToId: map<nat, nat>, numAttributes: nat,
                   graph: seq<seq<nat>>, v: nat)
    requires BuiltUpTo(labels, attrToId, numAttributes, graph, v) && v < |labels|
    ensures EdgesUpTo(labels, attrToId, numAttributes, graph, graph, v, 0)
  {
    assert labels[v][..0] == [];
  }

  lemma EdgesDone(labels: seq<seq<nat>>, attrToId: map<nat, nat>, numAttributes: nat,
                  graph: seq<seq<nat>>, graph': seq<seq<nat>>, v: nat)
    requires BuiltUpTo(labels, attrToId, numAttributes, graph, v) && v < |labels|
    requires EdgesUpTo(labels, attrToId, numAttributes, graph, graph', v, |labels[v]|)
    ensures BuiltUpTo(labels, attrToId, numAttributes, graph', v + 1)
  {
    assert labels[v][..|labels[v]|] == labels[v];
    assert labels[..v + 1][..v] == labels[..v];
  }

  /** The second pass for one vector v: for each of its labels, an edge from v to the label's
      attribute node and one back. */
  method AddVectorEdges(labels: seq<seq<nat>>, attrToId: map<nat, nat>, numAttributes: nat,
                        graph: seq<seq<nat>>, v: nat) returns (graph': seq<seq<nat>>)
    requires BuiltUpTo(labels, attrToId, numAttributes, graph, v) && v < |labels|
    ensures BuiltUpTo(labels, attrToId, numAttributes, graph', v + 1)
  {
    var n := |labels|;
    var labelSet := labels[v];
    graph' := graph;
    EdgesStart(labels, attrToId, numAttributes, graph, v);
    for k := 0 to |labelSet|
      invariant EdgesUpTo(labels, attrToId, numAttributes, graph, graph', v, k)
    {
      var attrId := attrToId[labelSet[k]];
      ghost var before := graph';
      graph' := graph'[v := graph'[v] + [n + attrId]];
      graph' := graph'[n + attrId := graph'[n + attrId] + [v]];
      EdgesStep(labels, attrToId, numAttributes, graph, before, v, k, graph');
    }
    EdgesDone(labels, attrToId, numAttributes, graph, graph', v);
  }

  /** The second pass of build_vector_and_attr_graph over vectors 0..n-1. */
  method BuildAdjacency(labels: seq<seq<nat>>, attrToId: map<nat, nat>, numAttributes: nat)
    returns (graph: seq<seq<nat>>)
    requires Labelled(labels, attrToId, numAttributes)
    ensures BuiltUpTo(labels, attrToId, numAttributes, graph, |labels|)
  {
    graph := seq(|labels| + numAttributes, _ => []);
    assert labels[..0] == [];
    TotalLengthEmpty(graph);
    for v := 0 to |labels|
      invariant BuiltUpTo(labels, attrToId, numAttributes, graph, v)
    {
      graph := AddVectorEdges(labels, attrToId, numAttributes, graph, v);
    }
  }

  /** In the finished adjacency, vector u lists the attribute node of each of its labels and
      appears in that node's list. */
  lemma VectorEdges(labels: seq<seq<nat>>, attrToId: map<nat, nat>, numAttributes: nat, graph: seq<seq<nat>>)
    requires BuiltUpTo(labels, attrToId, numAttributes, graph, |labels|)
    ensures forall u, k :: 0 <= u < |labels| && 0 <= k < |labels[u]| ==>
              |labels| + attrToId[labels[u][k]] in graph[u] && u in graph[|labels| + attrToId[labels[u][k]]]
  {
    forall u, k | 0 <= u < |labels| && 0 <= k < |labels[u]|
      ensures |labels| + attrToId[labels[u][k]] in graph[u] && u in graph[|labels| + attrToId[labels[u][k]]]
    {
      VectorEdge(labels, attrToId, numAttributes, graph, u, k);
    }
  }

  /** VectorEdges for label k of vector u. */
  lemma VectorEdge(labels: seq<seq<nat>>, attrToId: map<nat, nat>, numAttributes: nat, graph: seq<seq<nat>>,
                   u: nat, k: nat)
    requires BuiltUpTo(labels, attrToId, numAttributes, graph, |labels|)
    requires u < |labels| && k < |labels[u]|
    ensures |labels| + attrToId[labels[u][k]] in graph[u] && u in graph[|labels| + attrToId[labels[u][k]]]
  {
    var n, s := |labels|, labels[u];
    var a := attrToId[s[k]];
    assert graph[u] == VecList(attrToId, n, s);
    InVecList(attrToId, n, s, n + a);
    assert graph[n + a] == AttrList(labels, attrToId, a, n);
    InAttrList(labels, attrToId, a, n, u);
    assert Carries(attrToId, s, a);
  }

  /** The adjacency list of attribute node a (graph node num_points + a). */
  function AttrNode(graph: seq<seq<nat>>, n: nat, a: nat): seq<nat>
    requires n + a < |graph|
  {
    graph[n + a]
  }

  /** In the finished adjacency, attribute node a lists exactly the vectors carrying the
      label whose id is a. */
  lemma AttributeEdges(labels: seq<seq<nat>>, attrToId: map<nat, nat>, numAttributes: nat, graph: seq<seq<nat>>)
    requires BuiltUpTo(labels, attrToId, numAttributes, graph, |labels|)
    ensures forall a: nat, x: nat :: a < numAttributes ==>
              (x in AttrNode(graph, |labels|, a) <==> x < |labels| && Carries(attrToId, labels[x], a))
  {
    forall a: nat, x: nat | a < numAttributes
      ensures x in AttrNode(graph, |labels|, a) <==> x < |labels| && Carries(attrToId, labels[x], a)
    {
      InAttrList(labels, attrToId, a, |labels|, x);
    }
  }

  /** count_graph_edges: half the total length of all adjacency lists. */
  method CountGraphEdges(graph: seq<seq<nat>>) returns (edges: nat)
    ensures edges == TotalLength(graph) / 2
  {
    var total := 0;
    for i := 0 to |graph|
      invariant total == TotalLength(graph[..i])
    {
      assert graph[..i + 1][..i] == graph[..i];
      total := total + |graph[i]|;
    }
    assert graph[..|graph|] == graph;
    edges := total / 2;
  }

  /** Every edge is stored once at each end, so the edge count is the number of (vector,
      label) pairs. */
  lemma EdgeCount(labels: seq<seq<nat>>, attrToId: map<nat, nat>, numAttributes: nat, graph: seq<seq<nat>>)
    requires BuiltUpTo(labels, attrToId, numAttributes, graph, |labels|)
    ensures TotalLength(graph) / 2 == TotalLength(labels)
  {
    assert labels[..|labels|] == labels;
  }

  // ---------------------------------------------------------------- attribute bitmap

  /** The size of the std::bitset holding a query's candidate vectors. */
  const BITS: nat := 10000001

  /** x is a position of the bitset. */
  predicate IsBit(x: nat)
  {
    x < BITS
  }

  /** The bitset with every bit set. */
  function AllBits(): set<nat>
  {
    set x: nat | x < BITS && IsBit(x)
  }

  /** The bits a neighbour list sets, or None when one of its ids is past the end of the
      bitset, where std::bitset::set throws. */
  function ListBits(ids: seq<nat>): Option<set<nat>>
  {
    if forall i :: 0 <= i < |ids| ==> ids[i] < BITS then Some(Elems(ids)) else None
  }

  /** Every known label's attribute node is in the adjacency. */
  ghost predicate AttrIndexed(attrToId: map<nat, nat>, numPoints: nat, graph: seq<seq<nat>>)
  {
    forall l :: l in attrToId ==> numPoints + attrToId[l] < |graph|
  }

  /** The bitmap left after intersecting bitmap with the attribute nodes of query in turn; an
      unknown label empties it. */
  function Bitmap(attrToId: map<nat, nat>, numPoints: nat, graph: seq<seq<nat>>, query: seq<nat>, bitmap: set<nat>)
    : (r: Option<set<nat>>)
    requires AttrIndexed(attrToId, numPoints, graph)
    ensures r.Some? ==> r.value <= bitmap
    ensures r.Some? && r.value != {} ==> forall l :: l in query ==> l in attrToId
  {
    if query == [] then Some(bitmap)
    else if query[0] !in attrToId then Some({})
    else
      match ListBits(graph[numPoints + attrToId[query[0]]])
      case None => None
      case Some(bits) => Bitmap(attrToId, numPoints, graph, query[1..], bitmap * bits)
  }

  /** Setting the bits of one attribute node's list. */
  method SetBits(ids: seq<nat>) returns (r: Option<set<nat>>)
    ensures r == ListBits(ids)
  {
    var bits := {};
    for i := 0 to |ids|
      invariant forall j :: 0 <= j < i ==> ids[j] < BITS
      invariant bits == Elems(ids[..i])
    {
      if ids[i] >= BITS {
        return None;
      }
      assert Elems(ids[..i + 1]) == Elems(ids[..i]) + {ids[i]} by {
        assert ids[..i + 1] == ids[..i] + [ids[i]];
      }
      bits := bits + {ids[i]};
    }
    assert ids[..|ids|] == ids;
    return Some(bits);
  }

  /** compute_attribute_bitmap without its timing. */
  method ComputeAttributeBitmap(attrToId: map<nat, nat>, numPoints: nat, graph: seq<seq<nat>>, query: seq<nat>)
    returns (r: Option<set<nat>>)
    requires AttrIndexed(attrToId, numPoints, graph)
    ensures r == Bitmap(attrToId, numPoints, graph, query, AllBits())
  {
    var bitmap := AllBits();
    for i := 0 to |query|
      invariant Bitmap(attrToId, numPoints, graph, query, AllBits()) ==
                Bitmap(attrToId, numPoints, graph, query[i..], bitmap)
    {
      assert query[i..][0] == query[i] && query[i..][1..] == query[i + 1..];
      if query[i] !in attrToId {
        return Some({});
      }
      var temp := SetBits(graph[numPoints + attrToId[query[i]]]);
      if temp.None? {
        return None;
      }
      bitmap := bitmap * temp.value;
    }
    assert query[|query|..] == [];
    return Some(bitmap);
  }

  /** The vectors carrying the label l. */
  ghost function Carrying(labels: seq<seq<nat>>, l: nat): set<nat>
  {
    set v: nat | v < |labels| && l in labels[v]
  }

  /** The vectors carrying every label of query. */
  ghost function Having(labels: seq<seq<nat>>, query: seq<nat>): set<nat>
  {
    set v: nat | v < |labels| && forall k :: 0 <= k < |query| ==> query[k] in labels[v]
  }

  lemma AttrNodeMember(labels: seq<seq<nat>>, attrToId: map<nat, nat>, numAttributes: nat, graph: seq<seq<nat>>,
                       a: nat, x: nat)
    requires BuiltUpTo(labels, attrToId, numAttributes, graph, |labels|) && a < numAttributes
    ensures x in AttrNode(graph, |labels|, a) <==> x < |labels| && Carries(attrToId, labels[x], a)
  {
    assert AttrNode(graph, |labels|, a) == AttrList(labels, attrToId, a, |labels|);
    InAttrList(labels, attrToId, a, |labels|, x);
  }

  /** Under a numbering, holding the label l and holding a label numbered like l are one. */
  lemma CarriesLabel(order: seq<nat>, attrToId: map<nat, nat>, idToAttr: map<nat, nat>, s: seq<nat>, l: nat)
    requires Numbering(order, attrToId, idToAttr) && l in attrToId
    ensures Carries(attrToId, s, attrToId[l]) <==> l in s
  {
    NumberingInverse(order, attrToId, idToAttr);
    if Carries(attrToId, s, attrToId[l]) {
      var k :| 0 <= k < |s| && s[k] in attrToId && attrToId[s[k]] == attrToId[l];
      assert s[k] == idToAttr[attrToId[l]] == l;
    }
    if l in s {
      var k :| 0 <= k < |s| && s[k] == l;
      assert Carries(attrToId, s, attrToId[l]);
    }
  }

  /** Every label of every vector is known, and each known label's attribute node lists
      exactly the vectors carrying it. */
  ghost predicate Indexes(labels: seq<seq<nat>>, attrToId: map<nat, nat>, graph: seq<seq<nat>>)
  {
    && (forall v, k :: 0 <= v < |labels| && 0 <= k < |labels[v]| ==> labels[v][k] in attrToId)
    && AttrIndexed(attrToId, |labels|, graph)
    && (forall l, x: nat {:trigger x in AttrNode(graph, |labels|, attrToId[l])} :: l in attrToId ==>
          (x in AttrNode(graph, |labels|, attrToId[l]) <==> x < |labels| && l in labels[x]))
  }

  /** The bipartite graph built from a numbering of the labels indexes them. */
  lemma IndexesOfBuilt(labels: seq<seq<nat>>, order: seq<nat>, attrToId: map<nat, nat>, idToAttr: map<nat, nat>,
                       graph: seq<seq<nat>>)
    requires Numbering(order, attrToId, idToAttr) && BuiltUpTo(labels, attrToId, |order|, graph, |labels|)
    ensures Indexes(labels, attrToId, graph)
  {
    NumberingInverse(order, attrToId, idToAttr);
    forall l, x: nat | l in attrToId
      ensures x in AttrNode(graph, |labels|, attrToId[l]) <==> x < |labels| && l in labels[x]
    {
      AttrNodeMember(labels, attrToId, |order|, graph, attrToId[l], x);
      if x < |labels| {
        CarriesLabel(order, attrToId, idToAttr, labels[x], l);
      }
    }
  }

  /** A known label's attribute node sets exactly the bits of the vectors carrying it. */
  lemma LabelBits(labels: seq<seq<nat>>, attrToId: map<nat, nat>, graph: seq<seq<nat>>, l: nat)
    requires Indexes(labels, attrToId, graph) && |labels| <= BITS && l in attrToId
    ensures |labels| + attrToId[l] < |graph|
    ensures ListBits(AttrNode(graph, |labels|, attrToId[l])) == Some(Carrying(labels, l))
  {
    var ids := AttrNode(graph, |labels|, attrToId[l]);
    forall i | 0 <= i < |ids| ensures ids[i] < BITS
    {
      assert ids[i] in AttrNode(graph, |labels|, attrToId[l]);
    }
    assert Elems<nat>(ids) == Carrying(labels, l);
  }

  /** No vector carries a query whose first label has no attribute id. */
  lemma UnknownLabelNoneHave(labels: seq<seq<nat>>, attrToId: map<nat, nat>, query: seq<nat>)
    requires forall v, k :: 0 <= v < |labels| && 0 <= k < |labels[v]| ==> labels[v][k] in attrToId
    requires query != [] && query[0] !in attrToId
    ensures Having(labels, query) == {}
  {
    forall v: nat | v < |labels| ensures v !in Having(labels, query)
    {
      assert query[0] !in labels[v];
    }
  }

  /** What intersecting with the attribute nodes of a nonempty query leaves of bitmap. */
  lemma {:induction false} BitmapHaving(labels: seq<seq<nat>>, attrToId: map<nat, nat>, graph: seq<seq<nat>>,
                                        query: seq<nat>, bitmap: set<nat>)
    requires Indexes(labels, attrToId, graph) && |labels| <= BITS && query != []
    ensures AttrIndexed(attrToId, |labels|, graph)
    ensures Bitmap(attrToId, |labels|, graph, query, bitmap) == Some(bitmap * Having(labels, query))
  {
    var l := query[0];
    if l !in attrToId {
      UnknownLabelNoneHave(labels, attrToId, query);
      assert bitmap * Having(labels, query) == {};
    } else {
      LabelBits(labels, attrToId, graph, l);
      var bits := Carrying(labels, l);
      if query[1..] == [] {
        assert Having(labels, query) == bits;
      } else {
        BitmapHaving(labels, attrToId, graph, query[1..], bitmap * bits);
        assert Bitmap(attrToId, |labels|, graph, query, bitmap) == Bitmap(attrToId, |labels|, graph, query[1..], bitmap * bits);
        forall v ensures v in Having(labels, query) <==> v in bits && v in Having(labels, query[1..])
        {
          if v in bits && v in Having(labels, query[1..]) {
            forall k | 0 <= k < |query| ensures query[k] in labels[v]
            {
              if k > 0 {
                assert query[1..][k - 1] == query[k];
              }
            }
          }
          if v in Having(labels, query) {
            forall k | 0 <= k < |query[1..]| ensures query[1..][k] in labels[v]
            {
              assert query[1..][k] == query[k + 1];
            }
          }
        }
        assert Having(labels, query) == bits * Having(labels, query[1..]);
        assert bitmap * bits * Having(labels, query[1..]) == bitmap * Having(labels, query);
      }
    }
  }

  /** The bitmap of compute_attribute_bitmap over the bipartite graph of the loaded labels:
      an empty query leaves every bit set, any other query sets exactly the bits of the vectors
      carrying all its labels, so that a label no vector carries gives the empty bitmap. */
  lemma BitmapOfLabels(labels: seq<seq<nat>>, order: seq<nat>, attrToId: map<nat, nat>, idToAttr: map<nat, nat>,
                       graph: seq<seq<nat>>, query: seq<nat>)
    requires Numbering(order, attrToId, idToAttr) && BuiltUpTo(labels, attrToId, |order|, graph, |labels|)
    requires |labels| <= BITS
    ensures AttrIndexed(attrToId, |labels|, graph)
    ensures Bitmap(attrToId, |labels|, graph, query, AllBits()) ==
            Some(if query == [] then AllBits() else Having(labels, query))
  {
    IndexesOfBuilt(labels, order, attrToId, idToAttr, graph);
    if query != [] {
      BitmapHaving(labels, attrToId, graph, query, AllBits());
      assert AllBits() * Having(labels, query) == Having(labels, query);
    }
  }
}
