/** The label trie, seen only through its results: every label set inserted so far, keyed
    by its canonical (ascending) label sequence, with the group id it was given. The node
    structure itself is not part of this model. */
module Trie {
  import opened Common

  datatype TrieIndex = TrieIndex(groups: map<seq<nat>, nat>)
  {
    /** Group ids are 1, 2, ..., next-1, each given to exactly one label set. */
    ghost predicate Numbered(next: nat)
    {
      && next >= 1
      && |groups| == next - 1
      && (forall k :: k in groups ==> 1 <= groups[k] < next)
      && (forall k1, k2 :: k1 in groups && k2 in groups && groups[k1] == groups[k2] ==> k1 == k2)
    }

    /** insert(label_set, new_group_id): a label set seen before gets its old id back;
        a new one gets new_group_id, which is then advanced. The result is the new trie,
        the label set's group id and the advanced counter. */
    function Insert(labelSet: seq<nat>, newGroupId: nat): (r: (TrieIndex, nat, nat))
      ensures labelSet in r.0.groups && r.0.groups[labelSet] == r.1
      ensures r.0.groups.Keys == groups.Keys + {labelSet}
      ensures forall k :: k in groups ==> k in r.0.groups && r.0.groups[k] == groups[k]
      ensures labelSet in groups <==> r.2 == newGroupId
      ensures labelSet !in groups ==> r.1 == newGroupId && r.2 == newGroupId + 1
    {
      if labelSet in groups then (this, groups[labelSet], newGroupId)
      else (TrieIndex(groups[labelSet := newGroupId]), newGroupId, newGroupId + 1)
    }

    /** find_exact_match: the group of exactly this label set, if any. */
    function FindExactMatch(labelSet: seq<nat>): (r: Option<nat>)
      ensures r.Some? <==> labelSet in groups
      ensures r.Some? ==> r.value == groups[labelSet]
    {
      if labelSet in groups then Some(groups[labelSet]) else None
    }

    /** get_super_set_entrances with need_containment: the groups whose label set contains
        every label of the query; with avoid_self, the query's own label set is left out. */
    function SuperSetEntrances(query: seq<nat>, avoidSelf: bool): set<nat>
    {
      set k | k in groups && Elems(query) <= Elems(k) && (!avoidSelf || k != query) :: groups[k]
    }
  }

  /** The empty trie is numbered from 1. */
  lemma EmptyNumbered()
    ensures TrieIndex(map[]).Numbered(1)
  {
  }

  /** insert keeps the numbering: ids stay 1..next-1, one per label set. */
  lemma {:induction false} InsertNumbered(t: TrieIndex, labelSet: seq<nat>, next: nat)
    requires t.Numbered(next)
    ensures var r := t.Insert(labelSet, next); r.0.Numbered(r.2)
    ensures var r := t.Insert(labelSet, next); 1 <= r.1 < r.2
    ensures var r := t.Insert(labelSet, next); labelSet !in t.groups ==> r.1 == next && r.2 == next + 1
  {
    if labelSet !in t.groups {
      var g := t.groups[labelSet := next];
      assert g.Keys == t.groups.Keys + {labelSet};
      assert |g| == |t.groups| + 1;
    }
  }

  /** Two insertions into a numbered trie return equal ids exactly for equal label sets. */
  lemma {:induction false} InsertIdsAgree(t: TrieIndex, a: seq<nat>, b: seq<nat>, next: nat)
    requires t.Numbered(next)
    ensures var r1 := t.Insert(a, next);
            var r2 := r1.0.Insert(b, r1.2);
            (r1.1 == r2.1 <==> a == b)
  {
    InsertNumbered(t, a, next);
    var r1 := t.Insert(a, next);
    InsertNumbered(r1.0, b, r1.2);
    var r2 := r1.0.Insert(b, r1.2);
    assert r2.0.groups[a] == r1.1;
  }
}
