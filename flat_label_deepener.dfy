/**
 * Deepening flat label sets. Phase one mines a forest of theme trees from the rows' label sets:
 * each root is the most common label of the rows no earlier root covers, and each child is a
 * label that co-occurs often enough with its ancestors. Phase two rewrites every row as the
 * longest root-to-node path of the forest whose labels the row holds.
 *
 * Python sets and Counter insertion order are iterated here in ascending label order.
 */
module FlatLabelDeepener {
  import opened Common

  const MIN_SUPPORT_COUNT: nat := 10
  const MIN_PATH_DEPTH: nat := 3
  /** COVERAGE_TARGET = 0.99, as a percentage. */
  const COVERAGE_PERCENT: nat := 99
  const BATCH_SIZE: nat := 1000

  /** A theme-tree node: its label and its child nodes in construction order. */
  datatype Tree = Node(labelId: nat, children: seq<Tree>)

  // ---------------------------------------------------------------------------------------
  // Rows, label supports and the inverted index
  // ---------------------------------------------------------------------------------------

  /** Every index names a row of the data. */
  predicate RowsOf(data: seq<set<nat>>, rows: set<nat>)
  {
    forall r :: r in rows ==> r < |data|
  }

  /** The indices of all rows. */
  function AllRows(data: seq<set<nat>>): (rows: set<nat>)
    ensures RowsOf(data, rows) && |rows| == |data|
    ensures forall r: nat :: r < |data| ==> r in rows
  {
    var range := Range(0, |data|);
    DistinctCard(range);
    assert forall r :: r in range ==> r < |data|;
    forall r: nat | r < |data|
      ensures r in Elems(range)
    {
      assert range[r] == r;
    }
    Elems(range)
  }

  /** The rows among `rows` whose label set holds `l`. */
  function RowsWith(data: seq<set<nat>>, rows: set<nat>, l: nat): (r: set<nat>)
    ensures r <= rows
  {
    set i | i in rows && i < |data| && l in data[i]
  }

  /** How many of the rows hold `l`. */
  function Support(data: seq<set<nat>>, rows: set<nat>, l: nat): nat
  {
    |RowsWith(data, rows, l)|
  }

  /** The labels occurring in the rows. */
  function Labels(data: seq<set<nat>>, rows: set<nat>): set<nat>
  {
    set r, l | r in rows && r < |data| && l in data[r] :: l
  }

  function AllLabels(data: seq<set<nat>>): set<nat>
  {
    Labels(data, AllRows(data))
  }

  /** build_inverted_index: each occurring label mapped to the rows that hold it. */
  function InvertedIndex(data: seq<set<nat>>): map<nat, set<nat>>
  {
    map l | l in AllLabels(data) :: RowsWith(data, AllRows(data), l)
  }

  /** `inverted_index.get(l, set())`. */
  function IndexGet(index: map<nat, set<nat>>, l: nat): set<nat>
  {
    if l in index then index[l] else {}
  }

  /** Intersecting rows with an index entry keeps exactly the rows holding the label. */
  lemma IndexIntersection(data: seq<set<nat>>, rows: set<nat>, l: nat)
    requires RowsOf(data, rows)
    ensures rows * IndexGet(InvertedIndex(data), l) == RowsWith(data, rows, l)
  {
    var index := InvertedIndex(data);
    forall r | r in RowsWith(data, rows, l)
      ensures r in IndexGet(index, l)
    {
      assert r in AllRows(data);
      assert l in AllLabels(data);
    }
  }

  /** A counted label is held by some row, and every such label occurs in the data. */
  lemma LabelHeld(data: seq<set<nat>>, rows: set<nat>, l: nat)
    requires RowsOf(data, rows) && l in Labels(data, rows)
    ensures Support(data, rows, l) >= 1 && l in AllLabels(data)
  {
    var r :| r in rows && r < |data| && l in data[r];
    assert r in RowsWith(data, rows, l);
    assert r in AllRows(data);
  }

  // ---------------------------------------------------------------------------------------
  // Orders: ascending label order and Counter.most_common
  // ---------------------------------------------------------------------------------------

  lemma {:induction false} LeastOf(s: set<nat>) returns (m: nat)
    requires s != {}
    ensures m in s && forall x :: x in s ==> m <= x
  {
    var y :| y in s;
    var rest := s - {y};
    if rest == {} {
      m := y;
      forall x | x in s
        ensures m <= x
      {
        assert x !in rest;
      }
    } else {
      var low := LeastOf(rest);
      m := if y < low then y else low;
      forall x | x in s
        ensures m <= x
      {
        if x != y {
          assert x in rest;
        }
      }
    }
  }

  lemma MinExists(s: set<nat>)
    requires s != {}
    ensures exists m :: m in s && forall x :: x in s ==> m <= x
  {
    var m := LeastOf(s);
  }

  function Min(s: set<nat>): (m: nat)
    requires s != {}
    ensures m in s && forall x :: x in s ==> m <= x
  {
    MinExists(s);
    var m :| m in s && forall x :: x in s ==> m <= x;
    m
  }

  lemma ConsIncreasing(m: nat, rest: seq<nat>)
    requires StrictlyIncreasing(rest) && forall k :: 0 <= k < |rest| ==> m < rest[k]
    ensures StrictlyIncreasing([m] + rest)
  {
    forall i, j | 0 <= i < j < |[m] + rest|
      ensures ([m] + rest)[i] < ([m] + rest)[j]
    {
      assert ([m] + rest)[j] == rest[j - 1];
      if i > 0 {
        assert ([m] + rest)[i] == rest[i - 1];
      }
    }
  }

  /** The elements of a finite set, ascending. */
  function SortedList(s: set<nat>): (r: seq<nat>)
    ensures Elems(r) == s && |r| == |s| && StrictlyIncreasing(r)
    decreases s
  {
    if s == {} then []
    else
      var m := Min(s);
      var rest := SortedList(s - {m});
      SortedStep(s, m, rest);
      [m] + rest
  }

  lemma SortedStep(s: set<nat>, m: nat, rest: seq<nat>)
    requires m in s && (forall x :: x in s ==> m <= x)
    requires Elems(rest) == s - {m} && |rest| == |s - {m}| && StrictlyIncreasing(rest)
    ensures Elems([m] + rest) == s && |[m] + rest| == |s| && StrictlyIncreasing([m] + rest)
  {
    assert forall k :: 0 <= k < |rest| ==> rest[k] in Elems(rest);
    ConsIncreasing(m, rest);
    assert Elems([m] + rest) == {m} + Elems(rest);
  }

  /** Descending by support among the rows. */
  predicate ByCount(data: seq<set<nat>>, rows: set<nat>, s: seq<nat>)
  {
    forall i, j :: 0 <= i < j < |s| ==> Support(data, rows, s[i]) >= Support(data, rows, s[j])
  }

  /** The sort key of Counter.most_common(): larger counts first. */
  function CountKey(data: seq<set<nat>>, rows: set<nat>): nat -> int
  {
    (l: nat) => -(Support(data, rows, l) as int)
  }

  /** Counter.most_common(): by descending count, equal counts in insertion order. */
  function MostCommon(data: seq<set<nat>>, rows: set<nat>, labels: seq<nat>): (r: seq<nat>)
    ensures multiset(r) == multiset(labels) && ByCount(data, rows, r)
  {
    var r := SortBy(CountKey(data, rows), labels);
    assert forall i :: 0 <= i < |r| ==> CountKey(data, rows)(r[i]) == -(Support(data, rows, r[i]) as int);
    r
  }

  // ---------------------------------------------------------------------------------------
  // build_tree_recursive
  // ---------------------------------------------------------------------------------------

  /** The labels the Counter counts for a path: those of the rows that are not on the path. */
  function Counted(data: seq<set<nat>>, path: seq<nat>, rows: set<nat>): set<nat>
  {
    Labels(data, rows) - Elems(path)
  }

  /** The labels, in order, whose support reaches MIN_SUPPORT_COUNT. */
  function Strong(data: seq<set<nat>>, rows: set<nat>, labels: seq<nat>): (r: seq<nat>)
    ensures forall l :: l in r <==> l in labels && Support(data, rows, l) >= MIN_SUPPORT_COUNT
  {
    if labels == [] then []
    else
      var rest := Strong(data, rows, labels[1..]);
      assert forall l :: l in labels <==> l == labels[0] || l in labels[1..];
      if Support(data, rows, labels[0]) >= MIN_SUPPORT_COUNT then [labels[0]] + rest else rest
  }

  function Leaves(labels: seq<nat>): (r: seq<Tree>)
    ensures |r| == |labels| && forall i :: 0 <= i < |r| ==> r[i] == Node(labels[i], [])
  {
    seq(|labels|, i requires 0 <= i < |labels| => Node(labels[i], []))
  }

  lemma ExtendMeasure(data: seq<set<nat>>, path: seq<nat>, c: nat)
    requires c in AllLabels(data) && c !in path
    ensures |AllLabels(data) - Elems(path + [c])| < |AllLabels(data) - Elems(path)|
  {
    assert Elems(path + [c]) == Elems(path) + {c};
    assert AllLabels(data) - Elems(path) == (AllLabels(data) - Elems(path + [c])) + {c};
  }

  /**
   * build_tree_recursive(path, rows): no rows give no children; the labels counted with
   * support MIN_SUPPORT_COUNT or more become inner children over the rows that hold them,
   * and otherwise every counted label becomes a leaf, most common first.
   */
  function BuildTree(data: seq<set<nat>>, path: seq<nat>, rows: set<nat>): (r: seq<Tree>)
    requires RowsOf(data, rows)
    ensures rows == {} ==> r == []
    ensures forall i :: 0 <= i < |r| ==> r[i].labelId in Counted(data, path, rows)
    decreases |AllLabels(data) - Elems(path)|, 1, 0
  {
    if rows == {} then []
    else
      var counted := SortedList(Counted(data, path, rows));
      var strong := Strong(data, rows, counted);
      if strong != [] then BuildChildren(data, path, rows, strong)
      else LeafChildren(data, rows, counted)
  }

  /** Every counted label as a leaf, most common first. */
  function LeafChildren(data: seq<set<nat>>, rows: set<nat>, counted: seq<nat>): (r: seq<Tree>)
    ensures forall i :: 0 <= i < |r| ==> r[i].children == [] && r[i].labelId in counted
  {
    var common := MostCommon(data, rows, counted);
    assert forall i :: 0 <= i < |common| ==> common[i] in multiset(counted);
    Leaves(common)
  }

  /** The strong children, each with the subtree grown over its rows. */
  function BuildChildren(data: seq<set<nat>>, path: seq<nat>, rows: set<nat>, strong: seq<nat>): (r: seq<Tree>)
    requires RowsOf(data, rows)
    requires forall c :: c in strong ==> c in Counted(data, path, rows)
    ensures |r| == |strong| && forall i :: 0 <= i < |r| ==> r[i].labelId == strong[i]
    decreases |AllLabels(data) - Elems(path)|, 0, |strong|
  {
    if strong == [] then []
    else
      var c := strong[0];
      assert c in strong;
      assert c in Counted(data, path, rows);
      assert c in Labels(data, rows);
      LabelHeld(data, rows, c);
      ExtendMeasure(data, path, c);
      [Node(c, BuildTree(data, path + [c], RowsWith(data, rows, c)))]
        + BuildChildren(data, path, rows, strong[1..])
  }

  // ---------------------------------------------------------------------------------------
  // Paths and depth
  // ---------------------------------------------------------------------------------------

  /** `p` lists the labels from `t` down to one of its nodes. */
  predicate IsPath(t: Tree, p: seq<nat>)
    decreases t
  {
    |p| >= 1 && p[0] == t.labelId
    && (|p| == 1 || exists i :: 0 <= i < |t.children| && IsPath(t.children[i], p[1..]))
  }

  /** `p` is a path from the root of one of the trees. */
  predicate InForest(ts: seq<Tree>, p: seq<nat>)
  {
    exists i :: 0 <= i < |ts| && IsPath(ts[i], p)
  }

  lemma InForestSplit(ts: seq<Tree>, p: seq<nat>)
    requires ts != [] && InForest(ts, p)
    ensures IsPath(ts[0], p) || InForest(ts[1..], p)
  {
    var i :| 0 <= i < |ts| && IsPath(ts[i], p);
    if i > 0 {
      assert ts[1..][i - 1] == ts[i];
    }
  }

  lemma InForestJoin(a: seq<Tree>, b: seq<Tree>, p: seq<nat>)
    requires InForest(a + b, p)
    ensures InForest(a, p) || InForest(b, p)
  {
    var i :| 0 <= i < |a + b| && IsPath((a + b)[i], p);
    if i >= |a| {
      assert (a + b)[i] == b[i - |a|];
    } else {
      assert (a + b)[i] == a[i];
    }
  }

  /** get_max_depth: a leaf has depth 1, an inner node one more than its deepest child. */
  function Depth(t: Tree): nat
    decreases t
  {
    if t.children == [] then 1 else 1 + MaxDepth(t.children)
  }

  /** max([get_max_depth(child) ...], default=0). */
  function MaxDepth(ts: seq<Tree>): nat
    decreases ts
  {
    if ts == [] then 0
    else
      var d := Depth(ts[0]);
      var e := MaxDepth(ts[1..]);
      if d >= e then d else e
  }

  lemma {:induction false} DepthBound(t: Tree, p: seq<nat>)
    requires IsPath(t, p)
    ensures |p| <= Depth(t)
    decreases t
  {
    if |p| > 1 {
      var i :| 0 <= i < |t.children| && IsPath(t.children[i], p[1..]);
      assert InForest(t.children, p[1..]);
      MaxDepthBound(t.children, p[1..]);
    }
  }

  lemma {:induction false} MaxDepthBound(ts: seq<Tree>, p: seq<nat>)
    requires InForest(ts, p)
    ensures |p| <= MaxDepth(ts)
    decreases ts
  {
    InForestSplit(ts, p);
    if IsPath(ts[0], p) {
      DepthBound(ts[0], p);
    } else {
      MaxDepthBound(ts[1..], p);
    }
  }

  lemma {:induction false} DeepestBranch(t: Tree) returns (p: seq<nat>)
    ensures IsPath(t, p) && |p| == Depth(t)
    decreases t
  {
    if t.children == [] {
      p := [t.labelId];
    } else {
      var q := MaxDepthBranch(t.children);
      p := [t.labelId] + q;
      assert p[1..] == q;
    }
  }

  lemma {:induction false} MaxDepthBranch(ts: seq<Tree>) returns (p: seq<nat>)
    requires ts != []
    ensures InForest(ts, p) && |p| == MaxDepth(ts)
    decreases ts
  {
    var d := Depth(ts[0]);
    if ts[1..] == [] || d >= MaxDepth(ts[1..]) {
      p := DeepestBranch(ts[0]);
    } else {
      p := MaxDepthBranch(ts[1..]);
      var i :| 0 <= i < |ts[1..]| && IsPath(ts[1..][i], p);
      assert ts[i + 1] == ts[1..][i];
    }
  }

  /** The depth of a tree is the length of its longest root-to-node path. */
  lemma DepthMeans(t: Tree)
    ensures forall p :: IsPath(t, p) ==> |p| <= Depth(t)
    ensures exists p :: IsPath(t, p) && |p| == Depth(t)
  {
    forall p | IsPath(t, p)
      ensures |p| <= Depth(t)
    {
      DepthBound(t, p);
    }
    var p := DeepestBranch(t);
  }

  /**
   * Each node grown below `path` over `rows` carries a counted label, and the children of an
   * inner node are grown below the extended path over the rows holding its label.
   */
  predicate Grown(data: seq<set<nat>>, path: seq<nat>, rows: set<nat>, ts: seq<Tree>)
    decreases ts
  {
    forall i :: 0 <= i < |ts| ==>
      ts[i].labelId in Counted(data, path, rows)
      && Grown(data, path + [ts[i].labelId], RowsWith(data, rows, ts[i].labelId), ts[i].children)
  }

  lemma GrownCons(data: seq<set<nat>>, path: seq<nat>, rows: set<nat>, node: Tree, rest: seq<Tree>)
    requires node.labelId in Counted(data, path, rows)
    requires Grown(data, path + [node.labelId], RowsWith(data, rows, node.labelId), node.children)
    requires Grown(data, path, rows, rest)
    ensures Grown(data, path, rows, [node] + rest)
  {
    var ts := [node] + rest;
    forall i | 1 <= i < |ts|
      ensures ts[i] == rest[i - 1]
    {
    }
  }

  lemma GrownLeaves(data: seq<set<nat>>, path: seq<nat>, rows: set<nat>, ranked: seq<nat>)
    requires forall i :: 0 <= i < |ranked| ==> ranked[i] in Counted(data, path, rows)
    ensures Grown(data, path, rows, Leaves(ranked))
  {
    var ts := Leaves(ranked);
    forall i | 0 <= i < |ts|
      ensures Grown(data, path + [ts[i].labelId], RowsWith(data, rows, ts[i].labelId), ts[i].children)
    {
      assert ts[i].children == [];
    }
  }

  lemma {:induction false} BuildTreeGrown(data: seq<set<nat>>, path: seq<nat>, rows: set<nat>)
    requires RowsOf(data, rows)
    ensures Grown(data, path, rows, BuildTree(data, path, rows))
    decreases |AllLabels(data) - Elems(path)|, 1, 0
  {
    if rows != {} {
      var counted := SortedList(Counted(data, path, rows));
      var strong := Strong(data, rows, counted);
      if strong != [] {
        BuildChildrenGrown(data, path, rows, strong);
      } else {
        var ranked := MostCommon(data, rows, counted);
        forall i | 0 <= i < |ranked|
          ensures ranked[i] in Counted(data, path, rows)
        {
          assert ranked[i] in multiset(ranked);
          assert ranked[i] in Elems(counted);
        }
        GrownLeaves(data, path, rows, ranked);
      }
    }
  }

  lemma {:induction false} BuildChildrenGrown(data: seq<set<nat>>, path: seq<nat>, rows: set<nat>, strong: seq<nat>)
    requires RowsOf(data, rows)
    requires forall c :: c in strong ==> c in Counted(data, path, rows)
    ensures Grown(data, path, rows, BuildChildren(data, path, rows, strong))
    decreases |AllLabels(data) - Elems(path)|, 0, |strong|
  {
    if strong != [] {
      var c := strong[0];
      assert c in strong;
      LabelHeld(data, rows, c);
      ExtendMeasure(data, path, c);
      BuildTreeGrown(data, path + [c], RowsWith(data, rows, c));
      BuildChildrenGrown(data, path, rows, strong[1..]);
      GrownCons(data, path, rows, Node(c, BuildTree(data, path + [c], RowsWith(data, rows, c))),
                BuildChildren(data, path, rows, strong[1..]));
    }
  }

  /** Extending a duplicate-free path by a label not on it keeps it duplicate-free. */
  lemma ExtendDistinct(path: seq<nat>, c: nat)
    requires Distinct(path) && c !in Elems(path)
    ensures Distinct(path + [c])
  {
    assert forall k :: 0 <= k < |path| ==> path[k] in Elems(path);
  }

  lemma ConsDistinct(path: seq<nat>, c: nat, q: seq<nat>)
    requires Distinct((path + [c]) + q)
    ensures Distinct(path + ([c] + q))
  {
    assert (path + [c]) + q == path + ([c] + q);
  }

  lemma ConsInRow(c: nat, q: seq<nat>, row: set<nat>)
    requires c in row && Elems(q) <= row
    ensures Elems([c] + q) <= row
  {
    assert Elems([c] + q) == {c} + Elems(q);
  }

  /**
   * A path grown below `path` never repeats a label of `path` or of itself, and all of its
   * labels occur together in one of the rows it was grown over.
   */
  lemma BuildTreePaths(data: seq<set<nat>>, path: seq<nat>, rows: set<nat>, p: seq<nat>)
    requires RowsOf(data, rows) && Distinct(path)
    requires InForest(BuildTree(data, path, rows), p)
    ensures Distinct(path + p)
    ensures exists r :: r in rows && Elems(p) <= data[r]
  {
    BuildTreeGrown(data, path, rows);
    GrownPaths(data, path, rows, BuildTree(data, path, rows), p);
  }

  lemma {:induction false} GrownPaths(data: seq<set<nat>>, path: seq<nat>, rows: set<nat>, ts: seq<Tree>, p: seq<nat>)
    requires RowsOf(data, rows) && Distinct(path)
    requires Grown(data, path, rows, ts) && InForest(ts, p)
    ensures Distinct(path + p)
    ensures exists r :: r in rows && Elems(p) <= data[r]
    decreases ts
  {
    var i :| 0 <= i < |ts| && IsPath(ts[i], p);
    var c := ts[i].labelId;
    assert c in Counted(data, path, rows);
    LabelHeld(data, rows, c);
    ExtendDistinct(path, c);
    var childRows := RowsWith(data, rows, c);
    assert p == [c] + p[1..];
    if |p| == 1 {
      var r :| r in childRows;
      assert Elems(p) <= data[r];
    } else {
      var children := ts[i].children;
      var j :| 0 <= j < |children| && IsPath(children[j], p[1..]);
      assert InForest(children, p[1..]);
      GrownPaths(data, path + [c], childRows, children, p[1..]);
      ConsDistinct(path, c, p[1..]);
      var r :| r in childRows && Elems(p[1..]) <= data[r];
      ConsInRow(c, p[1..], data[r]);
    }
  }

  // ---------------------------------------------------------------------------------------
  // find_single_theme_tree and build_theme_forest
  // ---------------------------------------------------------------------------------------

  /** The scan over most_common() that stops at the first label with enough support. */
  function FirstSupported(data: seq<set<nat>>, rows: set<nat>, ranked: seq<nat>): Option<nat>
  {
    if ranked == [] then None
    else if Support(data, rows, ranked[0]) >= MIN_SUPPORT_COUNT then Some(ranked[0])
    else FirstSupported(data, rows, ranked[1..])
  }

  /** Over a ranking by descending count, the scan finds the head or nothing. */
  lemma {:induction false} FirstSupportedMeans(data: seq<set<nat>>, rows: set<nat>, ranked: seq<nat>)
    requires ByCount(data, rows, ranked)
    ensures FirstSupported(data, rows, ranked).None?
            <==> forall k :: 0 <= k < |ranked| ==> Support(data, rows, ranked[k]) < MIN_SUPPORT_COUNT
    ensures FirstSupported(data, rows, ranked).Some? ==> FirstSupported(data, rows, ranked).value == ranked[0]
  {
    if ranked != [] && Support(data, rows, ranked[0]) < MIN_SUPPORT_COUNT {
      FirstSupportedMeans(data, rows, ranked[1..]);
      assert forall k :: 1 <= k < |ranked| ==> ranked[k] == ranked[1..][k - 1];
    }
  }

  /** The root candidate of find_single_theme_tree. */
  function ThemeRoot(data: seq<set<nat>>, rows: set<nat>): Option<nat>
  {
    FirstSupported(data, rows, MostCommon(data, rows, SortedList(Labels(data, rows))))
  }

  /**
   * The candidate is a label of greatest support among the rows, and that support is at
   * least MIN_SUPPORT_COUNT; there is none exactly when no label reaches it.
   */
  lemma ThemeRootMeans(data: seq<set<nat>>, rows: set<nat>)
    ensures ThemeRoot(data, rows).None?
            <==> forall l :: l in Labels(data, rows) ==> Support(data, rows, l) < MIN_SUPPORT_COUNT
    ensures ThemeRoot(data, rows).Some? ==>
              var root := ThemeRoot(data, rows).value;
              && root in Labels(data, rows)
              && Support(data, rows, root) >= MIN_SUPPORT_COUNT
              && forall l :: l in Labels(data, rows) ==> Support(data, rows, l) <= Support(data, rows, root)
  {
    var sorted := SortedList(Labels(data, rows));
    var ranked := MostCommon(data, rows, sorted);
    FirstSupportedMeans(data, rows, ranked);
    RankedCovers(Labels(data, rows), sorted, ranked);
  }

  /** A rearrangement of a listing of a set lists exactly that set. */
  lemma RankedCovers(labels: set<nat>, sorted: seq<nat>, ranked: seq<nat>)
    requires Elems(sorted) == labels && multiset(ranked) == multiset(sorted)
    ensures forall l :: l in labels ==> exists k :: 0 <= k < |ranked| && ranked[k] == l
    ensures forall k :: 0 <= k < |ranked| ==> ranked[k] in labels
  {
    forall l | l in labels
      ensures exists k :: 0 <= k < |ranked| && ranked[k] == l
    {
      assert l in multiset(sorted);
      assert l in multiset(ranked);
    }
    forall k | 0 <= k < |ranked|
      ensures ranked[k] in labels
    {
      assert ranked[k] in multiset(ranked);
      assert ranked[k] in multiset(sorted);
    }
  }

  /**
   * find_single_theme_tree: no rows give no tree; otherwise the candidate root, when there is
   * one, grows a tree over the rows holding it, which is kept only when it is at least
   * MIN_PATH_DEPTH deep.
   */
  function FindSingleThemeTree(data: seq<set<nat>>, rows: set<nat>): (r: Option<Tree>)
    requires RowsOf(data, rows)
    ensures rows == {} || ThemeRoot(data, rows).None? ==> r.None?
    ensures r.Some? ==> ThemeRoot(data, rows) == Some(r.value.labelId) && Depth(r.value) >= MIN_PATH_DEPTH
  {
    if rows == {} then None
    else
      match ThemeRoot(data, rows)
      case None => None
      case Some(root) =>
        var t := Node(root, BuildTree(data, [root], RowsWith(data, rows, root)));
        if Depth(t) >= MIN_PATH_DEPTH then Some(t) else None
  }

  /** A theme tree's root is the candidate root and is held by MIN_SUPPORT_COUNT rows or more. */
  lemma ThemeTreeSupport(data: seq<set<nat>>, rows: set<nat>)
    requires RowsOf(data, rows)
    ensures FindSingleThemeTree(data, rows).Some? ==>
              && ThemeRoot(data, rows) == Some(FindSingleThemeTree(data, rows).value.labelId)
              && Support(data, rows, FindSingleThemeTree(data, rows).value.labelId) >= MIN_SUPPORT_COUNT
  {
    ThemeRootMeans(data, rows);
  }

  /**
   * A theme tree's root is a label of greatest support, at least MIN_SUPPORT_COUNT; the tree
   * is at least MIN_PATH_DEPTH deep; each of its paths repeats no label and lies within one
   * row. Without a label of enough support there is no tree.
   */
  lemma ThemeTreeMeans(data: seq<set<nat>>, rows: set<nat>)
    requires RowsOf(data, rows)
    ensures (forall l :: l in Labels(data, rows) ==> Support(data, rows, l) < MIN_SUPPORT_COUNT)
            ==> FindSingleThemeTree(data, rows).None?
    ensures FindSingleThemeTree(data, rows).Some? ==>
              var t := FindSingleThemeTree(data, rows).value;
              && Support(data, rows, t.labelId) >= MIN_SUPPORT_COUNT
              && (forall l :: l in Labels(data, rows) ==> Support(data, rows, l) <= Support(data, rows, t.labelId))
              && Depth(t) >= MIN_PATH_DEPTH
              && (forall p: seq<nat> :: IsPath(t, p) ==> Distinct(p) && exists r :: r in rows && Elems(p) <= data[r])
  {
    ThemeRootMeans(data, rows);
    if FindSingleThemeTree(data, rows).Some? {
      var t := FindSingleThemeTree(data, rows).value;
      var root := t.labelId;
      ThemeTreeShape(data, rows);
      ThemeTreePaths(data, rows, root, t);
    }
  }

  lemma ThemeTreeShape(data: seq<set<nat>>, rows: set<nat>)
    requires RowsOf(data, rows)
    ensures FindSingleThemeTree(data, rows).Some? ==>
              var t := FindSingleThemeTree(data, rows).value;
              t.children == BuildTree(data, [t.labelId], RowsWith(data, rows, t.labelId))
  {
  }

  lemma ThemeTreePaths(data: seq<set<nat>>, rows: set<nat>, root: nat, t: Tree)
    requires RowsOf(data, rows) && Support(data, rows, root) >= 1
    requires t == Node(root, BuildTree(data, [root], RowsWith(data, rows, root)))
    ensures forall p: seq<nat> :: IsPath(t, p) ==> Distinct(p) && exists r :: r in rows && Elems(p) <= data[r]
  {
    var row :| row in RowsWith(data, rows, root);
    assert root in data[row];
    forall q | InForest(t.children, q)
      ensures Distinct([root] + q) && exists r :: r in rows && Elems([root] + q) <= data[r]
    {
      ChildPathInRow(data, rows, root, t.children, q);
    }
    NodePaths(data, rows, t);
  }

  /** When a node's label lies in some row and every path below it, with the label put in
      front, repeats no label and lies in one row, so does every path from the node. */
  lemma NodePaths(data: seq<set<nat>>, rows: set<nat>, t: Tree)
    requires RowsOf(data, rows) && exists r :: r in rows && t.labelId in data[r]
    requires forall q :: InForest(t.children, q) ==>
               Distinct([t.labelId] + q) && exists r :: r in rows && Elems([t.labelId] + q) <= data[r]
    ensures forall p: seq<nat> :: IsPath(t, p) ==> Distinct(p) && exists r :: r in rows && Elems(p) <= data[r]
  {
    forall p: seq<nat> | IsPath(t, p)
      ensures Distinct(p) && exists r :: r in rows && Elems(p) <= data[r]
    {
      NodePath(data, rows, t, p);
    }
  }

  /** One path of NodePaths. */
  lemma NodePath(data: seq<set<nat>>, rows: set<nat>, t: Tree, p: seq<nat>)
    requires RowsOf(data, rows) && exists r :: r in rows && t.labelId in data[r]
    requires forall q :: InForest(t.children, q) ==>
               Distinct([t.labelId] + q) && exists r :: r in rows && Elems([t.labelId] + q) <= data[r]
    requires IsPath(t, p)
    ensures Distinct(p) && exists r :: r in rows && Elems(p) <= data[r]
  {
    if |p| == 1 {
      var row :| row in rows && t.labelId in data[row];
      assert Elems(p) <= data[row];
    } else {
      var q := p[1..];
      var i :| 0 <= i < |t.children| && IsPath(t.children[i], q);
      assert InForest(t.children, q);
      var row :| row in rows && Elems([t.labelId] + q) <= data[row];
      assert p == [t.labelId] + q;
      assert Elems(p) <= data[row];
    }
  }

  /** A path below the theme root, with the root put in front, repeats no label and lies in
      one row. */
  lemma ChildPathInRow(data: seq<set<nat>>, rows: set<nat>, root: nat, ts: seq<Tree>, q: seq<nat>)
    requires RowsOf(data, rows) && ts == BuildTree(data, [root], RowsWith(data, rows, root)) && InForest(ts, q)
    ensures Distinct([root] + q) && exists r :: r in rows && Elems([root] + q) <= data[r]
  {
    var childRows := RowsWith(data, rows, root);
    BuildTreePaths(data, [root], childRows, q);
    var row :| row in childRows && Elems(q) <= data[row];
    ConsInRow(root, q, data[row]);
  }

  function Roots(forest: seq<Tree>): (r: seq<nat>)
    ensures |r| == |forest| && forall k :: 0 <= k < |r| ==> r[k] == forest[k].labelId
  {
    seq(|forest|, k requires 0 <= k < |forest| => forest[k].labelId)
  }

  /** The rows holding none of the roots: `remaining_indices` once those trees were added. */
  function Uncovered(data: seq<set<nat>>, roots: seq<nat>): (rows: set<nat>)
    ensures RowsOf(data, rows)
  {
    set r: nat | r < |data| && forall k :: 0 <= k < |roots| ==> roots[k] !in data[r]
  }

  /** The coverage target: at least COVERAGE_PERCENT of the rows are covered. */
  predicate CoverageReached(total: nat, remaining: nat)
  {
    total > 0 && 100 * (total - remaining) >= COVERAGE_PERCENT * total
  }

  /** Every tree is the theme tree of the rows the earlier roots leave uncovered. */
  ghost predicate Mined(data: seq<set<nat>>, forest: seq<Tree>)
  {
    forall k :: 0 <= k < |forest| ==>
      FindSingleThemeTree(data, Uncovered(data, Roots(forest[..k]))) == Some(forest[k])
  }

  lemma UncoveredStep(data: seq<set<nat>>, forest: seq<Tree>, t: Tree)
    ensures var rest := Uncovered(data, Roots(forest));
            Uncovered(data, Roots(forest + [t])) == rest - RowsWith(data, rest, t.labelId)
  {
    var roots := Roots(forest + [t]);
    var old_roots := Roots(forest);
    assert roots == old_roots + [t.labelId];
    var rest := Uncovered(data, old_roots);
    forall r: nat | r < |data|
      ensures r in Uncovered(data, roots) <==> r in rest && t.labelId !in data[r]
    {
      if r in rest && t.labelId !in data[r] {
        forall k | 0 <= k < |roots|
          ensures roots[k] !in data[r]
        {
          if k < |old_roots| {
            assert roots[k] == old_roots[k];
          }
        }
      }
      if r in Uncovered(data, roots) {
        assert roots[|old_roots|] == t.labelId;
        forall k | 0 <= k < |old_roots|
          ensures old_roots[k] !in data[r]
        {
          assert roots[k] == old_roots[k];
        }
      }
    }
  }

  lemma UncoveredNone(data: seq<set<nat>>)
    ensures Uncovered(data, Roots([])) == AllRows(data)
  {
  }

  lemma MinedStep(data: seq<set<nat>>, forest: seq<Tree>, t: Tree)
    requires Mined(data, forest)
    requires FindSingleThemeTree(data, Uncovered(data, Roots(forest))) == Some(t)
    ensures Mined(data, forest + [t])
  {
    var grown := forest + [t];
    assert grown[..|forest|] == forest;
    forall k | 0 <= k < |forest|
      ensures grown[..k] == forest[..k]
    {
    }
  }

  lemma CardRemove<T>(rest: set<T>, covered: set<T>)
    requires covered <= rest
    ensures |rest - covered| == |rest| - |covered|
  {
    assert rest == (rest - covered) + covered;
    assert (rest - covered) * covered == {};
  }

  /**
   * build_theme_forest: while rows remain and coverage is below target, mine a theme tree
   * from the remaining rows and drop the rows holding its root.
   */
  method BuildThemeForest(data: seq<set<nat>>) returns (forest: seq<Tree>)
    ensures Mined(data, forest)
    ensures var rest := Uncovered(data, Roots(forest));
            rest == {} || CoverageReached(|data|, |rest|) || FindSingleThemeTree(data, rest).None?
  {
    forest := [];
    var remaining := AllRows(data);
    UncoveredNone(data);
    while true
      invariant remaining == Uncovered(data, Roots(forest))
      invariant Mined(data, forest)
      decreases |remaining|
    {
      if remaining == {} {
        break;
      }
      assert remaining <= AllRows(data);
      var processed := |data| - |remaining|;
      if |data| > 0 && 100 * processed >= COVERAGE_PERCENT * |data| {
        break;
      }
      var newTree := FindSingleThemeTree(data, remaining);
      if newTree.None? {
        break;
      }
      var t := newTree.value;
      ThemeTreeSupport(data, remaining);
      var covered := RowsWith(data, remaining, t.labelId);
      UncoveredStep(data, forest, t);
      MinedStep(data, forest, t);
      CardRemove(remaining, covered);
      forest := forest + [t];
      remaining := remaining - covered;
    }
  }

  /**
   * Each root of a mined forest is held by at least MIN_SUPPORT_COUNT of the rows the
   * earlier roots leave uncovered, so each tree uncovers that many rows fewer.
   */
  lemma MinedShrinks(data: seq<set<nat>>, forest: seq<Tree>)
    requires Mined(data, forest)
    ensures forall k :: 0 <= k < |forest| ==>
              Support(data, Uncovered(data, Roots(forest[..k])), forest[k].labelId) >= MIN_SUPPORT_COUNT
    ensures forall k :: 0 <= k < |forest| ==>
              |Uncovered(data, Roots(forest[..k + 1]))| + MIN_SUPPORT_COUNT <= |Uncovered(data, Roots(forest[..k]))|
  {
    forall k | 0 <= k < |forest|
      ensures Support(data, Uncovered(data, Roots(forest[..k])), forest[k].labelId) >= MIN_SUPPORT_COUNT
      ensures |Uncovered(data, Roots(forest[..k + 1]))| + MIN_SUPPORT_COUNT <= |Uncovered(data, Roots(forest[..k]))|
    {
      PrefixStep(forest, k);
      TreeShrinks(data, forest[..k], forest[k]);
    }
  }

  lemma TreeShrinks(data: seq<set<nat>>, earlier: seq<Tree>, t: Tree)
    requires FindSingleThemeTree(data, Uncovered(data, Roots(earlier))) == Some(t)
    ensures Support(data, Uncovered(data, Roots(earlier)), t.labelId) >= MIN_SUPPORT_COUNT
    ensures |Uncovered(data, Roots(earlier + [t]))| + MIN_SUPPORT_COUNT <= |Uncovered(data, Roots(earlier))|
  {
    var rest := Uncovered(data, Roots(earlier));
    ThemeTreeSupport(data, rest);
    UncoveredStep(data, earlier, t);
    CardRemove(rest, RowsWith(data, rest, t.labelId));
  }

  /** Every tree of a mined forest is MIN_PATH_DEPTH deep; its paths repeat no label and each lies in one row. */
  lemma MinedTrees(data: seq<set<nat>>, forest: seq<Tree>)
    requires Mined(data, forest)
    ensures forall k :: 0 <= k < |forest| ==> Depth(forest[k]) >= MIN_PATH_DEPTH
    ensures forall k, p: seq<nat> :: 0 <= k < |forest| && IsPath(forest[k], p) ==>
              Distinct(p) && exists r :: 0 <= r < |data| && Elems(p) <= data[r]
  {
    forall k | 0 <= k < |forest|
      ensures Depth(forest[k]) >= MIN_PATH_DEPTH
      ensures forall p: seq<nat> :: IsPath(forest[k], p) ==> Distinct(p) && exists r :: 0 <= r < |data| && Elems(p) <= data[r]
    {
      var rest := Uncovered(data, Roots(forest[..k]));
      ThemeTreeMeans(data, rest);
    }
  }

  /** No label roots two trees of a mined forest. */
  lemma MinedRootsDistinct(data: seq<set<nat>>, forest: seq<Tree>)
    requires Mined(data, forest)
    ensures Distinct(Roots(forest))
  {
    forall i, j | 0 <= i < j < |forest|
      ensures Roots(forest)[i] != Roots(forest)[j]
    {
      var rest := Uncovered(data, Roots(forest[..j]));
      ThemeTreeSupport(data, rest);
      var root := forest[j].labelId;
      assert Roots(forest[..j])[i] == forest[i].labelId;
      if root == forest[i].labelId {
        assert RowsWith(data, rest, root) == {};
      }
    }
  }

  // ---------------------------------------------------------------------------------------
  // find_deepest_path_in_tree_recursive
  // ---------------------------------------------------------------------------------------

  /**
   * find_deepest_path_in_tree_recursive: nothing when the row lacks the node's label;
   * otherwise the label followed by the longest path found below it.
   */
  function DeepestPath(t: Tree, labels: set<nat>): (r: Option<seq<nat>>)
    ensures r.None? <==> t.labelId !in labels
    ensures r.Some? ==> r.value != [] && r.value[0] == t.labelId
    decreases t
  {
    if t.labelId !in labels then None
    else if t.children == [] then Some([t.labelId])
    else Some([t.labelId] + Longest(Found(t.children, labels), 0, -1, []).1)
  }

  /** The path found in each of the trees, in order. */
  function Found(ts: seq<Tree>, labels: set<nat>): (r: seq<Option<seq<nat>>>)
    ensures |r| == |ts|
    decreases ts
  {
    seq(|ts|, i requires 0 <= i < |ts| => DeepestPath(ts[i], labels))
  }

  /**
   * The scan over `found[k..]` that takes a path only when it is strictly longer than the
   * one kept so far, as both the child loop of find_deepest_path_in_tree_recursive and the
   * tree loop of process_batch do; `idx` is the index of the kept path, -1 while none is.
   */
  function Longest(found: seq<Option<seq<nat>>>, k: nat, idx: int, best: seq<nat>): (r: (int, seq<nat>))
    requires k <= |found|
    ensures r == (idx, best) || (k <= r.0 < |found| && found[r.0] == Some(r.1) && |r.1| > |best|)
    decreases |found| - k
  {
    if k == |found| then (idx, best)
    else if found[k].Some? && |found[k].value| > |best| then Longest(found, k + 1, k, found[k].value)
    else Longest(found, k + 1, idx, best)
  }

  /** What the scan has kept after looking at `found[..k]`. */
  ghost predicate KeepsFirstLongest(found: seq<Option<seq<nat>>>, k: nat, idx: int, best: seq<nat>)
    requires k <= |found|
  {
    if idx == -1 then
      best == [] && forall i :: 0 <= i < k ==> found[i] == None
    else
      && 0 <= idx < k && found[idx] == Some(best)
      && (forall i :: 0 <= i < k && found[i].Some? ==> |found[i].value| <= |best|)
      && (forall i :: 0 <= i < idx && found[i].Some? ==> |found[i].value| < |best|)
  }

  lemma {:induction false} LongestFrom(found: seq<Option<seq<nat>>>, k: nat, idx: int, best: seq<nat>)
    requires k <= |found| && KeepsFirstLongest(found, k, idx, best)
    requires forall i :: 0 <= i < |found| && found[i].Some? ==> found[i].value != []
    ensures var r := Longest(found, k, idx, best);
            KeepsFirstLongest(found, |found|, r.0, r.1)
    decreases |found| - k
  {
    if k < |found| {
      if found[k].Some? && |found[k].value| > |best| {
        LongestFrom(found, k + 1, k, found[k].value);
      } else {
        LongestFrom(found, k + 1, idx, best);
      }
    }
  }

  /**
   * When no path found is empty, the scan keeps nothing exactly when nothing was found;
   * otherwise it keeps a path of greatest length, the first one that long.
   */
  lemma LongestMeans(found: seq<Option<seq<nat>>>)
    requires forall i :: 0 <= i < |found| && found[i].Some? ==> found[i].value != []
    ensures var r := Longest(found, 0, -1, []);
            && (r.0 == -1 <==> forall i :: 0 <= i < |found| ==> found[i] == None)
            && (r.0 == -1 ==> r.1 == [])
            && (r.0 != -1 ==>
                  && 0 <= r.0 < |found| && found[r.0] == Some(r.1)
                  && (forall i :: 0 <= i < |found| && found[i].Some? ==> |found[i].value| <= |r.1|)
                  && (forall i :: 0 <= i < r.0 && found[i].Some? ==> |found[i].value| < |r.1|))
  {
    LongestFrom(found, 0, -1, []);
  }

  /** DeepestPath never finds an empty path, so LongestMeans applies to a Found sequence. */
  lemma FoundNonEmpty(ts: seq<Tree>, labels: set<nat>)
    ensures forall i :: 0 <= i < |ts| && Found(ts, labels)[i].Some? ==>
              Found(ts, labels)[i] == DeepestPath(ts[i], labels) && Found(ts, labels)[i].value != []
  {
  }

  /** A path found runs from the node down the tree, through labels of the row only. */
  lemma {:induction false} DeepestPathIsPath(t: Tree, labels: set<nat>)
    ensures DeepestPath(t, labels).Some? ==>
              IsPath(t, DeepestPath(t, labels).value) && Elems(DeepestPath(t, labels).value) <= labels
    decreases t
  {
    if t.labelId in labels && t.children != [] {
      var p := DeepestPath(t, labels).value;
      FoundNonEmpty(t.children, labels);
      LongestMeans(Found(t.children, labels));
      var r := Longest(Found(t.children, labels), 0, -1, []);
      assert p == [t.labelId] + r.1;
      if r.0 != -1 {
        DeepestPathIsPath(t.children[r.0], labels);
        assert p[1..] == r.1;
        ConsInRow(t.labelId, r.1, labels);
      } else {
        assert p == [t.labelId];
      }
    }
  }

  /** No path of the tree through labels of the row is longer than the one found. */
  lemma {:induction false} DeepestPathIsLongest(t: Tree, labels: set<nat>, q: seq<nat>)
    requires IsPath(t, q) && Elems(q) <= labels
    ensures DeepestPath(t, labels).Some? && |q| <= |DeepestPath(t, labels).value|
    decreases t
  {
    assert q[0] in Elems(q);
    if |q| > 1 {
      var j :| 0 <= j < |t.children| && IsPath(t.children[j], q[1..]);
      assert Elems(q[1..]) <= Elems(q) by {
        assert forall x :: x in q[1..] ==> x in q;
      }
      DeepestPathIsLongest(t.children[j], labels, q[1..]);
      FoundNonEmpty(t.children, labels);
      LongestMeans(Found(t.children, labels));
    }
  }

  // ---------------------------------------------------------------------------------------
  // process_batch
  // ---------------------------------------------------------------------------------------

  /** The tree index and path process_batch keeps for one row (index -1 and [] when none). */
  function Match(forest: seq<Tree>, labels: set<nat>): (r: (int, seq<nat>))
    ensures r.0 == -1 <==> r.1 == []
    ensures r.0 != -1 ==> 0 <= r.0 < |forest| && IsPath(forest[r.0], r.1) && Elems(r.1) <= labels
  {
    FoundNonEmpty(forest, labels);
    LongestMeans(Found(forest, labels));
    var r := Longest(Found(forest, labels), 0, -1, []);
    if r.0 != -1 then DeepestPathIsPath(forest[r.0], labels); r else r
  }

  /** The labels written for a row: the path kept, or the row's own labels when none is. */
  function Relabel(forest: seq<Tree>, labels: set<nat>): (r: seq<nat>)
    ensures Elems(r) <= labels
    ensures Match(forest, labels).0 == -1 ==> Elems(r) == labels
  {
    var m := Match(forest, labels);
    if m.1 != [] then m.1 else SortedList(labels)
  }

  /**
   * A row some tree matches is rewritten as a longest path of the forest through its labels,
   * taken from the first tree holding one that long; any other row keeps its own labels.
   * Either way the new labels have the length process_batch records.
   */
  lemma RelabelMeans(forest: seq<Tree>, labels: set<nat>)
    ensures var m := Match(forest, labels);
            && ((m.0 == -1) <==> forall i :: 0 <= i < |forest| ==> forest[i].labelId !in labels)
            && (m.0 == -1 ==> Relabel(forest, labels) == SortedList(labels) && Elems(Relabel(forest, labels)) == labels)
            && (m.0 != -1 ==>
                  && 0 <= m.0 < |forest|
                  && Relabel(forest, labels) == m.1
                  && IsPath(forest[m.0], m.1) && Elems(m.1) <= labels
                  && (forall i, q :: 0 <= i < |forest| && IsPath(forest[i], q) && Elems(q) <= labels ==> |q| <= |m.1|)
                  && (forall i, q :: 0 <= i < m.0 && IsPath(forest[i], q) && Elems(q) <= labels ==> |q| < |m.1|))
  {
    var m := Match(forest, labels);
    FoundNonEmpty(forest, labels);
    LongestMeans(Found(forest, labels));
    if m.0 != -1 {
      DeepestPathIsPath(forest[m.0], labels);
      forall i, q | 0 <= i < |forest| && IsPath(forest[i], q) && Elems(q) <= labels
        ensures |q| <= |m.1|
        ensures i < m.0 ==> |q| < |m.1|
      {
        DeepestPathIsLongest(forest[i], labels, q);
      }
    }
  }

  /** The tree index each row of a batch is credited to, -1 for rows no tree matches. */
  function Choices(forest: seq<Tree>, batch: seq<(nat, set<nat>)>): (r: seq<int>)
    ensures |r| == |batch|
  {
    seq(|batch|, i requires 0 <= i < |batch| => Match(forest, batch[i].1).0)
  }

  lemma ChoicesRange(forest: seq<Tree>, batch: seq<(nat, set<nat>)>)
    ensures forall i :: 0 <= i < |batch| ==> -1 <= Choices(forest, batch)[i] < |forest|
  {
  }

  /** The (index, labels) pairs process_batch returns for a batch, in its order. */
  function Relabelled(forest: seq<Tree>, batch: seq<(nat, set<nat>)>): (r: seq<(nat, seq<nat>)>)
    ensures |r| == |batch|
  {
    seq(|batch|, i requires 0 <= i < |batch| => (batch[i].0, Relabel(forest, batch[i].1)))
  }

  /** The choices that credit a tree. */
  function Credited(choices: seq<int>): (r: seq<int>)
    ensures |r| + Count(choices, -1) == |choices|
    ensures -1 !in r
  {
    if choices == [] then []
    else if choices[|choices| - 1] == -1 then Credited(choices[..|choices| - 1])
    else Credited(choices[..|choices| - 1]) + [choices[|choices| - 1]]
  }

  lemma {:induction false} CreditedCount(choices: seq<int>, t: int)
    requires t != -1
    ensures Count(Credited(choices), t) == Count(choices, t)
  {
    if choices != [] {
      var init := choices[..|choices| - 1];
      CreditedCount(init, t);
      if choices[|choices| - 1] != -1 {
        CountSnoc(Credited(init), choices[|choices| - 1], t);
      }
    }
  }

  /** The lengths of the label lists written. */
  function Lengths(results: seq<(nat, seq<nat>)>): (r: seq<nat>)
    ensures |r| == |results|
  {
    if results == [] then [] else Lengths(results[..|results| - 1]) + [|results[|results| - 1].1|]
  }

  /** A Counter entry: zero for an absent key. */
  function Get<K>(m: map<K, nat>, k: K): nat
  {
    if k in m then m[k] else 0
  }

  /** The collections.Counter built by `c[x] += 1` for each x of s in turn. */
  function Counter<K>(s: seq<K>): map<K, nat>
  {
    if s == [] then map[]
    else
      var c := Counter(s[..|s| - 1]);
      c[s[|s| - 1] := Get(c, s[|s| - 1]) + 1]
  }

  /** A key is in a Counter only once it was counted. */
  lemma {:induction false} CounterKeys<K>(s: seq<K>, k: K)
    requires k in Counter(s)
    ensures k in s
  {
    if k != s[|s| - 1] {
      CounterKeys(s[..|s| - 1], k);
    }
  }

  /** A Counter holds, for every key, the number of times it was counted. */
  lemma {:induction false} CounterMeans<K>(s: seq<K>, k: K)
    ensures Get(Counter(s), k) == Count(s, k)
  {
    if s != [] {
      CounterMeans(s[..|s| - 1], k);
    }
  }

  /** `c[x] += 1` on the Counter of s is the Counter of s + [x]. */
  lemma CounterStep<K>(c: map<K, nat>, s: seq<K>, x: K)
    requires c == Counter(s)
    ensures c[x := Get(c, x) + 1] == Counter(s + [x])
  {
    assert (s + [x])[..|s|] == s;
  }

  /** Counter.update: the counts of both, added key by key. */
  function Merge<K(!new)>(a: map<K, nat>, b: map<K, nat>): (r: map<K, nat>)
    ensures forall k :: Get(r, k) == Get(a, k) + Get(b, k)
    ensures r.Keys == a.Keys + b.Keys
  {
    map k | k in a.Keys + b.Keys :: Get(a, k) + Get(b, k)
  }

  /** The statistics process_batch returns with its results. */
  datatype Stats = Stats(unmatched: nat, pathLengths: map<nat, nat>, treeAssignments: map<int, nat>)

  /**
   * Statistics that agree with a run over `rows` producing `results`: the rows no tree
   * matches, the length of every list written, and for each tree the rows credited to it.
   */
  ghost predicate Tallies(forest: seq<Tree>, rows: seq<(nat, set<nat>)>, results: seq<(nat, seq<nat>)>, st: Stats)
  {
    && st.unmatched == Count(Choices(forest, rows), -1)
    && (forall len: nat :: Get<nat>(st.pathLengths, len) == Count<nat>(Lengths(results), len))
    && (forall t: int :: t != -1 ==> Get(st.treeAssignments, t) == Count(Choices(forest, rows), t))
    && (forall t: int :: t in st.treeAssignments ==> 0 <= t < |forest|)
  }

  /** One row of process_batch. */
  lemma BatchStep(forest: seq<Tree>, batch: seq<(nat, set<nat>)>, i: nat, idx: int, written: seq<nat>)
    requires i < |batch| && idx == Match(forest, batch[i].1).0 && written == Relabel(forest, batch[i].1)
    ensures Choices(forest, batch[..i + 1]) == Choices(forest, batch[..i]) + [idx]
    ensures Relabelled(forest, batch[..i + 1]) == Relabelled(forest, batch[..i]) + [(batch[i].0, written)]
  {
  }

  lemma CreditedStep(choices: seq<int>, x: int)
    ensures Credited(choices + [x]) == Credited(choices) + (if x == -1 then [] else [x])
  {
    assert (choices + [x])[..|choices|] == choices;
  }

  lemma LengthsStep(results: seq<(nat, seq<nat>)>, x: (nat, seq<nat>))
    ensures Lengths(results + [x]) == Lengths(results) + [|x.1|]
  {
    assert (results + [x])[..|results|] == results;
  }

  /** The statistics of the batch loop as functions of the choices and lengths so far. */
  ghost predicate Recorded(choices: seq<int>, lengths: seq<nat>, unmatched: nat,
                           pathLengths: map<nat, nat>, treeAssignments: map<int, nat>)
  {
    && unmatched == Count(choices, -1)
    && pathLengths == Counter<nat>(lengths)
    && treeAssignments == Counter<int>(Credited(choices))
  }

  /**
   * The statistics update of process_batch for one row credited to tree `bestTree` (-1 for
   * none) whose written labels have length `written`.
   */
  method RecordRow(ghost choices: seq<int>, ghost lengths: seq<nat>, unmatched: nat,
                   pathLengths: map<nat, nat>, treeAssignments: map<int, nat>, bestTree: int, written: nat)
    returns (unmatched': nat, pathLengths': map<nat, nat>, treeAssignments': map<int, nat>)
    requires Recorded(choices, lengths, unmatched, pathLengths, treeAssignments)
    ensures Recorded(choices + [bestTree], lengths + [written], unmatched', pathLengths', treeAssignments')
  {
    CreditedStep(choices, bestTree);
    CountSnoc(choices, bestTree, -1);
    if bestTree != -1 {
      treeAssignments' := Increment(treeAssignments, Credited(choices), bestTree);
      unmatched' := unmatched;
    } else {
      treeAssignments' := treeAssignments;
      unmatched' := unmatched + 1;
    }
    pathLengths' := Increment(pathLengths, lengths, written);
  }

  /** `c[x] += 1` on a collections.Counter. */
  method Increment<K>(c: map<K, nat>, ghost s: seq<K>, x: K) returns (c': map<K, nat>)
    requires c == Counter(s)
    ensures c' == Counter(s + [x])
  {
    CounterStep(c, s, x);
    c' := c[x := Get(c, x) + 1];
  }

  /** The Counters kept as the batch loop goes tally what they should. */
  lemma CountersMean(forest: seq<Tree>, rows: seq<(nat, set<nat>)>, results: seq<(nat, seq<nat>)>, st: Stats)
    requires Recorded(Choices(forest, rows), Lengths(results), st.unmatched, st.pathLengths, st.treeAssignments)
    ensures Tallies(forest, rows, results, st)
  {
    forall len: nat
      ensures Get<nat>(st.pathLengths, len) == Count<nat>(Lengths(results), len)
    {
      CounterMeans<nat>(Lengths(results), len);
    }
    forall t: int | t != -1
      ensures Get(st.treeAssignments, t) == Count(Choices(forest, rows), t)
    {
      CounterMeans<int>(Credited(Choices(forest, rows)), t);
      CreditedCount(Choices(forest, rows), t);
    }
    forall t: int | t in st.treeAssignments
      ensures 0 <= t < |forest|
    {
      var c := Credited(Choices(forest, rows));
      CounterKeys<int>(c, t);
      var k :| 0 <= k < |c| && c[k] == t;
      CreditedFrom(Choices(forest, rows), k);
    }
  }

  lemma {:induction false} CreditedFrom(choices: seq<int>, k: nat)
    requires k < |Credited(choices)|
    ensures Credited(choices)[k] in choices
  {
    var init := choices[..|choices| - 1];
    if choices[|choices| - 1] == -1 || k < |Credited(init)| {
      CreditedFrom(init, k);
      assert Credited(init)[k] == Credited(choices)[k];
    }
  }

  /** The tree loop of process_batch for one row. */
  method MatchRow(forest: seq<Tree>, labels: set<nat>) returns (bestTree: int, bestPath: seq<nat>)
    ensures (bestTree, bestPath) == Match(forest, labels)
  {
    bestTree := -1;
    bestPath := [];
    var k := 0;
    while k < |forest|
      invariant 0 <= k <= |forest|
      invariant Longest(Found(forest, labels), k, bestTree, bestPath) == Match(forest, labels)
    {
      var path := DeepestPath(forest[k], labels);
      if path.Some? && |path.value| > |bestPath| {
        bestPath := path.value;
        bestTree := k;
      }
      k := k + 1;
    }
  }

  /**
   * The labels process_batch writes for one row and the tree it credits (-1 for none).
   * A tree is credited exactly when the path kept is nonempty.
   */
  method ProcessRow(forest: seq<Tree>, labels: set<nat>) returns (bestTree: int, written: seq<nat>)
    ensures bestTree == Match(forest, labels).0 && -1 <= bestTree < |forest|
    ensures written == Relabel(forest, labels)
  {
    var bestPath;
    bestTree, bestPath := MatchRow(forest, labels);
    FoundNonEmpty(forest, labels);
    LongestMeans(Found(forest, labels));
    if bestPath != [] {
      written := bestPath;
    } else {
      written := SortedList(labels);
    }
  }

  /**
   * process_batch: one (index, labels) pair per row, in batch order, with the number of
   * unmatched rows, the Counter of written lengths and the Counter of rows per tree.
   */
  method ProcessBatch(forest: seq<Tree>, batch: seq<(nat, set<nat>)>)
    returns (results: seq<(nat, seq<nat>)>, stats: Stats)
    ensures results == Relabelled(forest, batch)
    ensures forall i :: 0 <= i < |batch| ==> results[i] == (batch[i].0, Relabel(forest, batch[i].1))
    ensures Tallies(forest, batch, results, stats)
  {
    results := [];
    var unmatched := 0;
    var pathLengths: map<nat, nat> := map[];
    var treeAssignments: map<int, nat> := map[];
    var i := 0;
    while i < |batch|
      invariant 0 <= i <= |batch|
      invariant results == Relabelled(forest, batch[..i])
      invariant Recorded(Choices(forest, batch[..i]), Lengths(results), unmatched, pathLengths, treeAssignments)
    {
      var (index, labels) := batch[i];
      var bestTree, written := ProcessRow(forest, labels);
      BatchStep(forest, batch, i, bestTree, written);
      LengthsStep(results, (index, written));
      unmatched, pathLengths, treeAssignments :=
        RecordRow(Choices(forest, batch[..i]), Lengths(results), unmatched, pathLengths, treeAssignments, bestTree, |written|);
      results := results + [(index, written)];
      i := i + 1;
    }
    assert batch[..|batch|] == batch;
    stats := Stats(unmatched, pathLengths, treeAssignments);
    CountersMean(forest, batch, results, stats);
  }

  // ---------------------------------------------------------------------------------------
  // reconstruct_and_save_labels_parallel
  // ---------------------------------------------------------------------------------------

  function IndexKey(x: (nat, seq<nat>)): int
  {
    x.0
  }

  /** The sort by original row number and the list of labels that follows it. */
  function SortAndEmit(collected: seq<(nat, seq<nat>)>): (r: seq<seq<nat>>)
    ensures |r| == |collected|
  {
    var sorted := SortBy(IndexKey, collected);
    seq(|sorted|, i requires 0 <= i < |sorted| => sorted[i].1)
  }

  /**
   * Whatever order the batches come back in, sorting by row number restores the input
   * order: any arrangement of the pairs (i, outputs[i]) is emitted as outputs itself.
   */
  lemma SortAndEmitRestoresOrder(collected: seq<(nat, seq<nat>)>, outputs: seq<seq<nat>>)
    requires multiset(collected) == multiset(Indexed(outputs))
    ensures SortAndEmit(collected) == outputs
  {
    var sorted := SortBy(IndexKey, collected);
    SortedPairsInOrder(sorted, outputs);
    forall i | 0 <= i < |outputs|
      ensures SortAndEmit(collected)[i] == outputs[i]
    {
      assert sorted[i] == Indexed(outputs)[i];
    }
  }

  /** An arrangement of the pairs (i, outputs[i]) sorted by row number is the enumeration itself. */
  lemma SortedPairsInOrder(sorted: seq<(nat, seq<nat>)>, outputs: seq<seq<nat>>)
    requires multiset(sorted) == multiset(Indexed(outputs)) && SortedBy(IndexKey, sorted)
    ensures sorted == Indexed(outputs)
  {
    var pairs := Indexed(outputs);
    EnumeratedPairs(sorted, outputs);
    var keys := seq(|sorted|, i requires 0 <= i < |sorted| => sorted[i].0 as int);
    forall i, j | 0 <= i < j < |keys|
      ensures keys[i] < keys[j]
    {
      assert IndexKey(sorted[i]) <= IndexKey(sorted[j]);
      assert sorted[i] != sorted[j];
    }
    IncreasingIdentity(keys);
    forall i | 0 <= i < |sorted|
      ensures sorted[i] == pairs[i]
    {
      assert keys[i] == i;
    }
  }

  /** The members of an arrangement of the enumeration of `outputs`. */
  lemma EnumeratedPairs(sorted: seq<(nat, seq<nat>)>, outputs: seq<seq<nat>>)
    requires multiset(sorted) == multiset(Indexed(outputs))
    ensures |sorted| == |outputs| && Distinct(sorted)
    ensures forall i :: 0 <= i < |sorted| ==> sorted[i].0 < |sorted| && sorted[i] == Indexed(outputs)[sorted[i].0]
  {
    var pairs := Indexed(outputs);
    assert |sorted| == |pairs| by {
      assert |multiset(sorted)| == |sorted| && |multiset(pairs)| == |pairs|;
    }
    assert Distinct(pairs);
    PermutationDistinct(pairs, sorted);
    forall i | 0 <= i < |sorted|
      ensures sorted[i].0 < |sorted| && sorted[i] == pairs[sorted[i].0]
    {
      assert sorted[i] in multiset(pairs);
      var j :| 0 <= j < |pairs| && pairs[j] == sorted[i];
    }
  }

  /** The rows up to `end` are those up to `start` followed by the batch between them. */
  lemma RelabelledSplit(forest: seq<Tree>, rows: seq<(nat, set<nat>)>, start: nat, end: nat)
    requires start <= end <= |rows|
    ensures Relabelled(forest, rows[..end]) == Relabelled(forest, rows[..start]) + Relabelled(forest, rows[start..end])
  {
    var whole, front, back := Relabelled(forest, rows[..end]), Relabelled(forest, rows[..start]), Relabelled(forest, rows[start..end]);
    forall i | 0 <= i < end
      ensures whole[i] == (front + back)[i]
    {
      if i < start {
        assert rows[..end][i] == rows[..start][i];
      } else {
        assert rows[..end][i] == rows[start..end][i - start];
      }
    }
  }

  lemma ChoicesSplit(forest: seq<Tree>, rows: seq<(nat, set<nat>)>, start: nat, end: nat)
    requires start <= end <= |rows|
    ensures Choices(forest, rows[..end]) == Choices(forest, rows[..start]) + Choices(forest, rows[start..end])
  {
    var whole, front, back := Choices(forest, rows[..end]), Choices(forest, rows[..start]), Choices(forest, rows[start..end]);
    forall i | 0 <= i < end
      ensures whole[i] == (front + back)[i]
    {
      if i < start {
        assert rows[..end][i] == rows[..start][i];
      } else {
        assert rows[..end][i] == rows[start..end][i - start];
      }
    }
  }

  lemma {:induction false} LengthsConcat(a: seq<(nat, seq<nat>)>, b: seq<(nat, seq<nat>)>)
    ensures Lengths(a + b) == Lengths(a) + Lengths(b)
  {
    if b != [] {
      var b' := b[..|b| - 1];
      LengthsConcat(a, b');
      assert (a + b)[..|a + b| - 1] == a + b';
    } else {
      assert a + b == a;
    }
  }

  /** Counter.update of the statistics of two runs tallies the run over both. */
  lemma TalliesMerge(forest: seq<Tree>, rowsA: seq<(nat, set<nat>)>, resultsA: seq<(nat, seq<nat>)>, a: Stats,
                     rowsB: seq<(nat, set<nat>)>, resultsB: seq<(nat, seq<nat>)>, b: Stats,
                     choices: seq<int>)
    requires Tallies(forest, rowsA, resultsA, a) && Tallies(forest, rowsB, resultsB, b)
    requires choices == Choices(forest, rowsA) + Choices(forest, rowsB)
    ensures var merged := Stats(a.unmatched + b.unmatched, Merge(a.pathLengths, b.pathLengths),
                                Merge(a.treeAssignments, b.treeAssignments));
            && merged.unmatched == Count(choices, -1)
            && (forall len: nat :: Get<nat>(merged.pathLengths, len) == Count<nat>(Lengths(resultsA + resultsB), len))
            && (forall t: int :: t != -1 ==> Get(merged.treeAssignments, t) == Count(choices, t))
            && (forall t: int :: t in merged.treeAssignments ==> 0 <= t < |forest|)
  {
    CountConcat(Choices(forest, rowsA), Choices(forest, rowsB), -1);
    MergeCredited(a.treeAssignments, b.treeAssignments, Choices(forest, rowsA), Choices(forest, rowsB));
    LengthsConcat(resultsA, resultsB);
    MergeCounts<nat>(a.pathLengths, b.pathLengths, Lengths(resultsA), Lengths(resultsB));
  }

  lemma MergeCounts<K(!new)>(a: map<K, nat>, b: map<K, nat>, sa: seq<K>, sb: seq<K>)
    requires forall k :: Get(a, k) == Count(sa, k)
    requires forall k :: Get(b, k) == Count(sb, k)
    ensures forall k :: Get(Merge(a, b), k) == Count(sa + sb, k)
  {
    forall k
      ensures Get(Merge(a, b), k) == Count(sa + sb, k)
    {
      CountConcat(sa, sb, k);
    }
  }

  lemma MergeCredited(a: map<int, nat>, b: map<int, nat>, ca: seq<int>, cb: seq<int>)
    requires forall t: int :: t != -1 ==> Get(a, t) == Count(ca, t)
    requires forall t: int :: t != -1 ==> Get(b, t) == Count(cb, t)
    ensures forall t: int :: t != -1 ==> Get(Merge(a, b), t) == Count(ca + cb, t)
  {
    forall t: int | t != -1
      ensures Get(Merge(a, b), t) == Count(ca + cb, t)
    {
      CountConcat(ca, cb, t);
    }
  }

  /**
   * reconstruct_and_save_labels_parallel, with the batches processed one after another:
   * every row is rewritten as Relabel says, in input order, and the statistics tally the
   * whole input.
   */
  method ReconstructLabels(data: seq<set<nat>>, forest: seq<Tree>) returns (finalLabels: seq<seq<nat>>, stats: Stats)
    ensures |finalLabels| == |data|
    ensures forall i :: 0 <= i < |data| ==> finalLabels[i] == Relabel(forest, data[i])
    ensures Tallies(forest, Indexed(data), Relabelled(forest, Indexed(data)), stats)
  {
    var indexed := Indexed(data);
    var collected: seq<(nat, seq<nat>)> := [];
    stats := Stats(0, map[], map[]);
    var start := 0;
    while start < |indexed|
      invariant 0 <= start <= |indexed|
      invariant collected == Relabelled(forest, indexed[..start])
      invariant Tallies(forest, indexed[..start], collected, stats)
      decreases |indexed| - start
    {
      var end := if start + BATCH_SIZE <= |indexed| then start + BATCH_SIZE else |indexed|;
      var results, batchStats := ProcessBatch(forest, indexed[start..end]);
      RelabelledSplit(forest, indexed, start, end);
      ChoicesSplit(forest, indexed, start, end);
      TalliesMerge(forest, indexed[..start], collected, stats, indexed[start..end], results, batchStats,
                   Choices(forest, indexed[..end]));
      collected := collected + results;
      stats := Stats(stats.unmatched + batchStats.unmatched,
                     Merge(stats.pathLengths, batchStats.pathLengths),
                     Merge(stats.treeAssignments, batchStats.treeAssignments));
      start := end;
    }
    assert indexed[..|indexed|] == indexed;
    ghost var outputs := seq(|data|, i requires 0 <= i < |data| => Relabel(forest, data[i]));
    assert collected == Indexed(outputs);
    SortAndEmitRestoresOrder(collected, outputs);
    finalLabels := SortAndEmit(collected);
  }
}
