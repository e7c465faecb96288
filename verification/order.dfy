/**
 * The order in which `Object.entries(labs)` visits the groups: the own
 * property keys of an ordinary object as section 10.1.11.1 of ECMA-262
 * (OrdinaryOwnPropertyKeys) lists them. Keys that are array indices come first
 * in ascending numeric order; the other string keys follow in the order their
 * properties were created, which for `labs` is the order keys are first seen.
 */
module PropertyOrder {
  import opened Text
  import opened LabParse

  /** 2^32 - 1: array indices are the integers strictly below it. */
  const ArrayIndexBound: nat := 0x1_0000_0000 - 1

  /** An array index (section 6.1.7 of ECMA-262): a canonical numeric string,
      `ToString(ToNumber(key)) === key`, whose value is an integer below 2^32 - 1.
      Keys here are lower-case `[a-z0-9]+`, so only all-digit keys can qualify. */
  predicate IsArrayIndex(key: string) {
    && |key| > 0
    && AllDigits(key)
    && NatToString(DecimalValue(key)) == key
    && DecimalValue(key) < ArrayIndexBound
  }

  predicate AllIndexed(groups: seq<LabGroup>) {
    forall i :: 0 <= i < |groups| ==> IsArrayIndex(groups[i].key)
  }

  predicate NoneIndexed(groups: seq<LabGroup>) {
    forall i :: 0 <= i < |groups| ==> !IsArrayIndex(groups[i].key)
  }

  /** The numeric value of a group's key when it is all digits (0 otherwise; it
      is only compared for array-index keys). */
  function IndexOf(g: LabGroup): nat {
    if AllDigits(g.key) then DecimalValue(g.key) else 0
  }

  /** Groups in ascending order of `rank`. */
  predicate SortedBy(rank: LabGroup -> nat, groups: seq<LabGroup>) {
    forall i, j :: 0 <= i < j < |groups| ==> rank(groups[i]) <= rank(groups[j])
  }

  /** The groups whose key is an array index, in their original order. */
  function IndexGroups(groups: seq<LabGroup>): (r: seq<LabGroup>)
    ensures AllIndexed(r)
  {
    if |groups| == 0 then []
    else (if IsArrayIndex(groups[0].key) then [groups[0]] else []) + IndexGroups(groups[1..])
  }

  /** The groups whose key is not an array index, in their original order. */
  function NamedGroups(groups: seq<LabGroup>): (r: seq<LabGroup>)
    ensures NoneIndexed(r)
  {
    if |groups| == 0 then []
    else (if IsArrayIndex(groups[0].key) then [] else [groups[0]]) + NamedGroups(groups[1..])
  }

  /** Every group goes to exactly one of the two sides. */
  lemma {:induction false} IndexNamedPartition(groups: seq<LabGroup>)
    ensures multiset(IndexGroups(groups)) + multiset(NamedGroups(groups)) == multiset(groups)
  {
    if |groups| > 0 {
      IndexNamedPartition(groups[1..]);
      assert groups == [groups[0]] + groups[1..];
    }
  }

  /** Selecting the named groups commutes with concatenation. */
  lemma {:induction false} NamedGroupsAppend(a: seq<LabGroup>, b: seq<LabGroup>)
    ensures NamedGroups(a + b) == NamedGroups(a) + NamedGroups(b)
  {
    if |a| > 0 {
      NamedGroupsAppend(a[1..], b);
      assert (a + b)[1..] == a[1..] + b;
    } else {
      assert a + b == b;
    }
  }

  /** Selecting from groups that all fall on one side. */
  lemma {:induction false} NamedGroupsOfSides(groups: seq<LabGroup>)
    ensures AllIndexed(groups) ==> NamedGroups(groups) == []
    ensures NoneIndexed(groups) ==> NamedGroups(groups) == groups && IndexGroups(groups) == []
  {
    if |groups| > 0 {
      NamedGroupsOfSides(groups[1..]);
    }
  }

  /** Inserts `g` into a list ascending by `rank`, before the first group of
      no smaller rank. */
  function InsertBy(rank: LabGroup -> nat, g: LabGroup, sorted: seq<LabGroup>): (r: seq<LabGroup>)
    requires SortedBy(rank, sorted)
    ensures SortedBy(rank, r)
    ensures multiset(r) == multiset(sorted) + multiset{g}
    ensures |r| == |sorted| + 1 && (r[0] == g || (|sorted| > 0 && r[0] == sorted[0]))
  {
    if |sorted| == 0 then [g]
    else if rank(g) <= rank(sorted[0]) then
      ConsSorted(rank, g, sorted);
      [g] + sorted
    else
      var head := sorted[0];
      var tail := InsertBy(rank, g, sorted[1..]);
      ConsSorted(rank, head, tail);
      assert sorted == [head] + sorted[1..];
      [head] + tail
  }

  /** Putting a group of rank no larger than the first in front keeps the list ascending. */
  lemma ConsSorted(rank: LabGroup -> nat, head: LabGroup, tail: seq<LabGroup>)
    requires SortedBy(rank, tail) && |tail| > 0 && rank(head) <= rank(tail[0])
    ensures SortedBy(rank, [head] + tail)
  {
    var r := [head] + tail;
    forall i, j | 0 <= i < j < |r|
      ensures rank(r[i]) <= rank(r[j])
    {
      if i == 0 {
        assert rank(tail[0]) <= rank(tail[j - 1]);
      } else {
        assert r[i] == tail[i - 1] && r[j] == tail[j - 1];
      }
    }
  }

  /** Insertion sort by `rank`: an ascending permutation of the groups. */
  function SortBy(rank: LabGroup -> nat, groups: seq<LabGroup>): (r: seq<LabGroup>)
    ensures SortedBy(rank, r)
    ensures multiset(r) == multiset(groups)
  {
    if |groups| == 0 then []
    else
      assert groups == [groups[0]] + groups[1..];
      InsertBy(rank, groups[0], SortBy(rank, groups[1..]))
  }

  /** The array-index groups in ascending numeric order. */
  function SortByIndex(groups: seq<LabGroup>): seq<LabGroup> {
    SortBy(IndexOf, groups)
  }

  /** Sorting only rearranges, so array-index groups stay array-index groups. */
  lemma SortKeepsIndexed(groups: seq<LabGroup>)
    requires AllIndexed(groups)
    ensures AllIndexed(SortByIndex(groups))
  {
    var r := SortByIndex(groups);
    forall i | 0 <= i < |r|
      ensures IsArrayIndex(r[i].key)
    {
      assert r[i] in multiset(groups);
      var k :| 0 <= k < |groups| && groups[k] == r[i];
    }
  }

  /** The order `Object.entries(labs)` visits the groups in, given the groups in
      property-creation order. */
  function EntriesOrder(groups: seq<LabGroup>): (r: seq<LabGroup>)
    ensures multiset(r) == multiset(groups)
  {
    IndexNamedPartition(groups);
    SortByIndex(IndexGroups(groups)) + NamedGroups(groups)
  }

  /** Array-index keys come before all other keys, in ascending numeric order. */
  lemma EntriesOrderIndexKeysFirst(groups: seq<LabGroup>)
    ensures var r := EntriesOrder(groups);
      forall i, j :: 0 <= i < j < |r| && IsArrayIndex(r[j].key) ==>
        IsArrayIndex(r[i].key) && DecimalValue(r[i].key) <= DecimalValue(r[j].key)
  {
    var index := IndexGroups(groups);
    var front := SortByIndex(index);
    var back := NamedGroups(groups);
    var r := front + back;
    SortKeepsIndexed(index);
    forall k | |front| <= k < |r|
      ensures !IsArrayIndex(r[k].key)
    {
      assert r[k] == back[k - |front|];
    }
    forall i, j | 0 <= i < j < |r| && IsArrayIndex(r[j].key)
      ensures IsArrayIndex(r[i].key) && DecimalValue(r[i].key) <= DecimalValue(r[j].key)
    {
      assert j < |front|;
      assert r[i] == front[i] && r[j] == front[j];
      assert SortedBy(IndexOf, front);
      assert IndexOf(front[i]) <= IndexOf(front[j]);
    }
  }

  /** Keys that are not array indices keep their creation order. */
  lemma EntriesOrderKeepsNamedOrder(groups: seq<LabGroup>)
    ensures NamedGroups(EntriesOrder(groups)) == NamedGroups(groups)
  {
    var front := SortByIndex(IndexGroups(groups));
    var back := NamedGroups(groups);
    NamedGroupsAppend(front, back);
    SortKeepsIndexed(IndexGroups(groups));
    NamedGroupsOfSides(front);
    NamedGroupsOfSides(back);
  }

  /** Without array-index keys, `Object.entries` is plain creation order. */
  lemma EntriesOrderWithoutIndexKeys(groups: seq<LabGroup>)
    requires NoneIndexed(groups)
    ensures EntriesOrder(groups) == groups
  {
    NamedGroupsOfSides(groups);
    assert IndexGroups(groups) == [];
    assert SortByIndex([]) == [];
  }
}
