/** Label sets as the index stores them: ascending sequences of label ids, so that set
    containment can be decided by one ordered walk (std::includes). */
module LabelSets {
  import opened Common

  /** A canonical label set: strictly ascending label ids. */
  predicate Canonical(s: seq<nat>)
  {
    forall i, j :: 0 <= i < j < |s| ==> s[i] < s[j]
  }

  /** std::includes(a, b) on ascending ranges: walk a, advancing in b on every match;
      fail as soon as b's next label is below a's or a runs out. */
  function Includes(a: seq<nat>, b: seq<nat>): bool
    decreases |a| + |b|
  {
    if b == [] then true
    else if a == [] then false
    else if b[0] < a[0] then false
    else if a[0] < b[0] then Includes(a[1..], b)
    else Includes(a[1..], b[1..])
  }

  /** On canonical label sets the ordered walk decides set containment exactly. */
  lemma {:induction false} IncludesIsSubset(a: seq<nat>, b: seq<nat>)
    requires Canonical(a) && Canonical(b)
    ensures Includes(a, b) <==> Elems(b) <= Elems(a)
    decreases |a| + |b|
  {
    if b == [] {
    } else if a == [] {
      assert b[0] in Elems(b);
    } else if b[0] < a[0] {
      assert b[0] in Elems(b);
      assert b[0] !in Elems(a) by {
        forall i | 0 <= i < |a| ensures a[i] != b[0] {
          if i > 0 { assert a[0] < a[i]; }
        }
      }
    } else if a[0] < b[0] {
      IncludesIsSubset(a[1..], b);
      assert a[0] !in Elems(b) by {
        forall i | 0 <= i < |b| ensures b[i] != a[0] {
          if i > 0 { assert b[0] < b[i]; }
        }
      }
      assert Elems(a) == {a[0]} + Elems(a[1..]) by {
        assert a == [a[0]] + a[1..];
      }
    } else {
      IncludesIsSubset(a[1..], b[1..]);
      assert a == [a[0]] + a[1..];
      assert b == [b[0]] + b[1..];
      assert Elems(a) == {a[0]} + Elems(a[1..]);
      assert Elems(b) == {b[0]} + Elems(b[1..]);
      assert b[0] !in Elems(b[1..]) by {
        forall i | 0 <= i < |b[1..]| ensures b[1..][i] != b[0] {
          assert b[0] < b[i + 1];
        }
      }
      assert a[0] !in Elems(a[1..]) by {
        forall i | 0 <= i < |a[1..]| ensures a[1..][i] != a[0] {
          assert a[0] < a[i + 1];
        }
      }
    }
  }

  /** The first label of a canonical label set is its least, and the rest is canonical and
      holds every other label. */
  lemma CanonicalHead(a: seq<nat>)
    requires Canonical(a) && a != []
    ensures forall x :: x in Elems(a) ==> a[0] <= x
    ensures Canonical(a[1..]) && Elems(a[1..]) == Elems(a) - {a[0]}
  {
    forall x | x in Elems(a) ensures a[0] <= x {
      var i :| 0 <= i < |a| && a[i] == x;
      if i > 0 { assert a[0] < a[i]; }
    }
    assert a == [a[0]] + a[1..];
    forall x | x in Elems(a[1..]) ensures x != a[0] {
      var i :| 0 <= i < |a[1..]| && a[1..][i] == x;
      assert a[0] < a[i + 1];
    }
  }

  /** Only the empty sequence has no elements. */
  lemma NoElemsIsEmpty(s: seq<nat>)
    ensures Elems(s) == {} ==> s == []
  {
    if s != [] {
      assert s[0] in Elems(s);
    }
  }

  /** Equal canonical sequences are exactly equal sets. */
  lemma {:induction false} CanonicalUnique(a: seq<nat>, b: seq<nat>)
    requires Canonical(a) && Canonical(b) && Elems(a) == Elems(b)
    ensures a == b
    decreases |a|
  {
    if a == [] {
      NoElemsIsEmpty(b);
    } else {
      assert a[0] in Elems(a);
      CanonicalHead(a);
      CanonicalHead(b);
      assert a[0] == b[0] by {
        assert b[0] in Elems(b);
      }
      CanonicalUnique(a[1..], b[1..]);
      assert a == [a[0]] + a[1..];
      assert b == [b[0]] + b[1..];
    }
  }

  /** Containment between canonical label sets with equal size is equality. */
  lemma SameSizeIncludedIsEqual(a: seq<nat>, b: seq<nat>)
    requires Canonical(a) && Canonical(b) && |a| == |b| && Elems(b) <= Elems(a)
    ensures a == b
  {
    DistinctCard(a);
    DistinctCard(b);
    SubsetSameCard(Elems(b), Elems(a));
    CanonicalUnique(a, b);
  }
}
