/** Shared vocabulary: failure-carrying results and a few facts about sequences. */
module Common {

  datatype Option<T> = None | Some(value: T)

  datatype Result<T, E> = Ok(value: T) | Err(error: E)

  /** The elements of a sequence, as a set. */
  function Elems<T>(s: seq<T>): set<T>
  {
    set x | x in s
  }

  /** No element occurs twice. */
  predicate Distinct<T(==)>(s: seq<T>)
  {
    forall i, j :: 0 <= i < j < |s| ==> s[i] != s[j]
  }

  /** Ascending without repetition. */
  predicate StrictlyIncreasing(s: seq<int>)
  {
    forall i, j :: 0 <= i < j < |s| ==> s[i] < s[j]
  }

  /** The natural numbers lo, lo+1, ..., hi-1 in order. */
  function Range(lo: nat, hi: nat): (r: seq<nat>)
    ensures |r| == if lo <= hi then hi - lo else 0
    ensures forall k :: 0 <= k < |r| ==> r[k] == lo + k
    decreases hi - lo
  {
    if lo >= hi then [] else [lo] + Range(lo + 1, hi)
  }

  /** The concatenation of a sequence of sequences (built from the end, as a loop appends). */
  function Flatten<T>(ss: seq<seq<T>>): seq<T>
  {
    if ss == [] then [] else Flatten(ss[..|ss| - 1]) + ss[|ss| - 1]
  }

  /** The total length of a sequence of sequences. */
  function TotalLength<T>(ss: seq<seq<T>>): nat
  {
    if ss == [] then 0 else TotalLength(ss[..|ss| - 1]) + |ss[|ss| - 1]|
  }

  lemma {:induction false} FlattenLength<T>(ss: seq<seq<T>>)
    ensures |Flatten(ss)| == TotalLength(ss)
  {
    if ss != [] {
      FlattenLength(ss[..|ss| - 1]);
    }
  }

  lemma {:induction false} FlattenElems<T>(ss: seq<seq<T>>)
    ensures Elems(Flatten(ss)) == set i, x | 0 <= i < |ss| && x in ss[i] :: x
  {
    if ss != [] {
      var init := ss[..|ss| - 1];
      FlattenElems(init);
      assert Elems(Flatten(ss)) == Elems(Flatten(init)) + Elems(ss[|ss| - 1]);
      forall x | x in Elems(Flatten(ss))
        ensures exists i :: 0 <= i < |ss| && x in ss[i]
      {
        if x in Elems(Flatten(init)) {
          var i :| 0 <= i < |init| && x in init[i];
          assert ss[i] == init[i];
        } else {
          assert x in ss[|ss| - 1];
        }
      }
      forall i, x | 0 <= i < |ss| && x in ss[i]
        ensures x in Elems(Flatten(ss))
      {
        if i < |ss| - 1 {
          assert init[i] == ss[i];
        }
      }
    }
  }

  /** A concatenation of duplicate-free, pairwise disjoint sequences is duplicate-free. */
  lemma {:induction false} FlattenDistinct<T>(ss: seq<seq<T>>)
    requires forall i :: 0 <= i < |ss| ==> Distinct(ss[i])
    requires forall i, j, x :: 0 <= i < j < |ss| && x in ss[i] ==> x !in ss[j]
    ensures Distinct(Flatten(ss))
  {
    if ss != [] {
      var init := ss[..|ss| - 1];
      var last := ss[|ss| - 1];
      FlattenDistinct(init);
      FlattenElems(init);
      var a := Flatten(init);
      forall i, j | 0 <= i < j < |a + last|
        ensures (a + last)[i] != (a + last)[j]
      {
        if i < |a| && j >= |a| {
          var x := a[i];
          assert x in Elems(a);
          var k :| 0 <= k < |init| && x in init[k];
          assert x in ss[k];
          assert (a + last)[j] == last[j - |a|];
          assert last[j - |a|] in ss[|ss| - 1];
        }
      }
    }
  }

  /** A duplicate-free sequence has as many elements as its set. */
  lemma {:induction false} DistinctCard<T>(s: seq<T>)
    requires Distinct(s)
    ensures |Elems(s)| == |s|
  {
    if s != [] {
      var init := s[..|s| - 1];
      DistinctCard(init);
      assert Elems(s) == Elems(init) + {s[|s| - 1]};
      assert s[|s| - 1] !in Elems(init);
    }
  }

  /** A subset with as many elements as its superset is the superset. */
  lemma SubsetSameCard<T>(x: set<T>, y: set<T>)
    requires x <= y && |x| == |y|
    ensures x == y
  {
    var rest := y - x;
    assert y == x + rest;
    assert |rest| == 0;
    assert rest == {};
  }

  /** The sum of a sequence of naturals. */
  function Sum(s: seq<nat>): nat
  {
    if s == [] then 0 else Sum(s[..|s| - 1]) + s[|s| - 1]
  }

  /** The number of occurrences of x in s. */
  function Count<T(==)>(s: seq<T>, x: T): nat
  {
    if s == [] then 0 else Count(s[..|s| - 1], x) + (if s[|s| - 1] == x then 1 else 0)
  }

  lemma CountSnoc<T>(s: seq<T>, y: T, x: T)
    ensures Count(s + [y], x) == Count(s, x) + (if y == x then 1 else 0)
  {
    assert (s + [y])[..|s|] == s;
  }

  lemma {:induction false} CountConcat<T>(a: seq<T>, b: seq<T>, x: T)
    ensures Count(a + b, x) == Count(a, x) + Count(b, x)
  {
    if b != [] {
      assert (a + b)[..|a + b| - 1] == a + b[..|b| - 1];
      CountConcat(a, b[..|b| - 1], x);
    } else {
      assert a + b == a;
    }
  }

  lemma {:induction false} CountDistinct<T>(s: seq<T>, x: T)
    requires Distinct(s)
    ensures Count(s, x) == if x in s then 1 else 0
  {
    if s != [] {
      var init := s[..|s| - 1];
      CountDistinct(init, x);
      if s[|s| - 1] == x {
        assert x !in init;
      } else {
        assert x in s <==> x in init;
      }
    }
  }

  /** A duplicate-free sequence holds each value at most once. */
  lemma {:induction false} DistinctOnce<T>(s: seq<T>, x: T)
    requires Distinct(s)
    ensures multiset(s)[x] <= 1
  {
    if s != [] {
      var init := s[..|s| - 1];
      assert s == init + [s[|s| - 1]];
      DistinctOnce(init, x);
      if s[|s| - 1] == x {
        assert x !in init;
      }
    }
  }

  /** A rearrangement of a duplicate-free sequence is duplicate-free. */
  lemma PermutationDistinct<T>(a: seq<T>, b: seq<T>)
    requires multiset(a) == multiset(b) && Distinct(a)
    ensures Distinct(b)
  {
    forall i, j | 0 <= i < j < |b| ensures b[i] != b[j]
    {
      if b[i] == b[j] {
        assert b == b[..i] + [b[i]] + b[i + 1..j] + [b[j]] + b[j + 1..];
        assert multiset(b)[b[i]] >= 2;
        DistinctOnce(a, b[i]);
      }
    }
  }

  /** A rearrangement has the same length and the same elements. */
  lemma PermutationElems<T>(a: seq<T>, b: seq<T>)
    requires multiset(a) == multiset(b)
    ensures |a| == |b| && Elems(a) == Elems(b)
  {
    assert |a| == |multiset(a)| == |multiset(b)| == |b|;
    forall x ensures x in a <==> x in b
    {
      assert x in a <==> x in multiset(a);
      assert x in b <==> x in multiset(b);
    }
  }

  /** Ascending by key. */
  predicate SortedBy<T>(key: T -> int, s: seq<T>)
  {
    forall i, j :: 0 <= i < j < |s| ==> key(s[i]) <= key(s[j])
  }

  /** Inserts `x` after every element whose key is at most its own. */
  function InsertBy<T(==)>(key: T -> int, x: T, sorted: seq<T>): (r: seq<T>)
    ensures multiset(r) == multiset(sorted) + multiset{x}
    ensures SortedBy(key, sorted) ==> SortedBy(key, r)
    ensures |r| == |sorted| + 1
  {
    if sorted == [] then [x]
    else if key(x) < key(sorted[0]) then [x] + sorted
    else
      var tail := InsertBy(key, x, sorted[1..]);
      assert sorted == [sorted[0]] + sorted[1..];
      InsertAfterHead(key, x, sorted, tail);
      [sorted[0]] + tail
  }

  lemma InsertAfterHead<T>(key: T -> int, x: T, sorted: seq<T>, tail: seq<T>)
    requires sorted != [] && key(sorted[0]) <= key(x)
    requires multiset(tail) == multiset(sorted[1..]) + multiset{x}
    requires SortedBy(key, sorted[1..]) ==> SortedBy(key, tail)
    ensures SortedBy(key, sorted) ==> SortedBy(key, [sorted[0]] + tail)
  {
    if SortedBy(key, sorted) {
      assert SortedBy(key, sorted[1..]);
      forall k | 0 <= k < |tail|
        ensures key(sorted[0]) <= key(tail[k])
      {
        assert tail[k] in multiset(tail);
        if tail[k] != x {
          assert tail[k] in multiset(sorted[1..]);
          var j :| 0 <= j < |sorted[1..]| && sorted[1..][j] == tail[k];
          assert sorted[j + 1] == tail[k];
        }
      }
      var r := [sorted[0]] + tail;
      forall i, j | 0 <= i < j < |r|
        ensures key(r[i]) <= key(r[j])
      {
        assert r[j] == tail[j - 1];
        if i > 0 {
          assert r[i] == tail[i - 1];
        }
      }
    }
  }

  /** A stable insertion sort by key: equal keys keep their order, as Python's sorts do. */
  function SortBy<T(==)>(key: T -> int, s: seq<T>): (r: seq<T>)
    ensures multiset(r) == multiset(s) && SortedBy(key, r)
    ensures |r| == |s|
  {
    if s == [] then []
    else
      var init := s[..|s| - 1];
      assert s == init + [s[|s| - 1]];
      InsertBy(key, s[|s| - 1], SortBy(key, init))
  }

  lemma PrefixStep<T>(s: seq<T>, k: nat)
    requires k < |s|
    ensures s[..k + 1] == s[..k] + [s[k]]
  {
  }

  /** Each element paired with its position, as Python's enumerate. */
  function Indexed<T>(s: seq<T>): (r: seq<(nat, T)>)
    ensures |r| == |s|
  {
    seq(|s|, i requires 0 <= i < |s| => (i, s[i]))
  }

  lemma {:induction false} IncreasingFloor(ks: seq<int>, i: nat)
    requires StrictlyIncreasing(ks) && i < |ks|
    requires forall j :: 0 <= j < |ks| ==> 0 <= ks[j]
    ensures i <= ks[i]
  {
    if i > 0 {
      IncreasingFloor(ks, i - 1);
    }
  }

  lemma {:induction false} IncreasingCeiling(ks: seq<int>, i: nat)
    requires StrictlyIncreasing(ks) && i < |ks|
    requires forall j :: 0 <= j < |ks| ==> ks[j] < |ks|
    ensures ks[i] <= i
    decreases |ks| - i
  {
    if i < |ks| - 1 {
      IncreasingCeiling(ks, i + 1);
    }
  }

  /** A strictly increasing sequence of n values below n, none negative, is 0, 1, ..., n-1. */
  lemma IncreasingIdentity(ks: seq<int>)
    requires StrictlyIncreasing(ks)
    requires forall j :: 0 <= j < |ks| ==> 0 <= ks[j] < |ks|
    ensures forall i :: 0 <= i < |ks| ==> ks[i] == i
  {
    forall i | 0 <= i < |ks|
      ensures ks[i] == i
    {
      IncreasingFloor(ks, i);
      IncreasingCeiling(ks, i);
    }
  }
}
