/**
 * The structural comparators a slot's Set uses to decide whether a new value is a change:
 * scalars by equality, arrays index by index, maps entry by entry in iteration order.
 */
module Comparators {
  import opened OrderedMaps

  /** What the array comparator decides: same length, and equal at every index. */
  predicate ArraysEqual<T(==)>(v0: seq<T>, v1: seq<T>)
  {
    |v0| == |v1| && forall i :: 0 <= i < |v0| ==> v0[i] == v1[i]
  }

  /** FTypeComparator<TArray<T>>: a length check, then both iterators advanced in step. */
  method CompareArrays<T(==)>(v0: seq<T>, v1: seq<T>) returns (equal: bool)
    ensures equal <==> ArraysEqual(v0, v1)
    ensures equal <==> v0 == v1
  {
    if |v0| != |v1| {
      return false;
    }
    var i := 0;
    while i < |v0|
      invariant 0 <= i <= |v0|
      invariant forall j :: 0 <= j < i ==> v0[j] == v1[j]
    {
      if v0[i] != v1[i] {
        return false;
      }
      i := i + 1;
    }
    return true;
  }

  /**
   * What the map comparator decides: same count, and walking both maps in iteration order
   * the i-th keys are equal and the i-th values are equal.
   */
  predicate MapsEqual<T(==)>(m0: seq<Entry<T>>, m1: seq<Entry<T>>)
  {
    |m0| == |m1| && forall i :: 0 <= i < |m0| ==> m0[i].key == m1[i].key && m0[i].value == m1[i].value
  }

  /** FTypeComparator<TMap<FString, T>>: a count check, then both pair iterators advanced in step. */
  method CompareMaps<T(==)>(m0: seq<Entry<T>>, m1: seq<Entry<T>>) returns (equal: bool)
    ensures equal <==> MapsEqual(m0, m1)
    ensures equal <==> m0 == m1
  {
    if |m0| != |m1| {
      return false;
    }
    var i := 0;
    while i < |m0|
      invariant 0 <= i <= |m0|
      invariant forall j :: 0 <= j < i ==> m0[j] == m1[j]
    {
      if m0[i].key != m1[i].key || m0[i].value != m1[i].value {
        return false;
      }
      i := i + 1;
    }
    return true;
  }

  /** The map comparator depends on iteration order: the same two pairs in two orders differ. */
  lemma MapComparisonIsOrderSensitive()
    ensures var m0 := [Entry("a", 1), Entry("b", 2)];
            var m1 := [Entry("b", 2), Entry("a", 1)];
            ToMap(m0) == ToMap(m1) && !MapsEqual(m0, m1)
  {
    var m0 := [Entry("a", 1), Entry("b", 2)];
    var m1 := [Entry("b", 2), Entry("a", 1)];
    assert m0[0].key != m1[0].key;
    assert m0[1..] == [Entry("b", 2)] && m1[1..] == [Entry("a", 1)];
    assert m0[1..][1..] == [] && m1[1..][1..] == [];
  }

  lemma StrictlySortedTail<T>(m: seq<Entry<T>>)
    requires m != [] && StrictlySorted(m)
    ensures StrictlySorted(m[1..])
    ensures forall y :: y in Keys(m[1..]) ==> Less(m[0].key, y)
  {
    forall y | y in Keys(m[1..]) ensures Less(m[0].key, y) {
      var i :| 0 <= i < |m[1..]| && m[1..][i].key == y;
      assert m[1..][i] == m[i + 1];
    }
    forall i, j | 0 <= i < j < |m[1..]| ensures Less(m[1..][i].key, m[1..][j].key) {
      assert m[1..][i] == m[i + 1] && m[1..][j] == m[j + 1];
    }
  }

  /** The first key of a strictly ascending sequence is below every other key in it. */
  lemma FirstIsLeast<T>(m: seq<Entry<T>>, y: string)
    requires StrictlySorted(m) && y in Keys(m) && y != m[0].key
    ensures Less(m[0].key, y)
  {
    var i :| 0 <= i < |m| && m[i].key == y;
  }

  /** Dropping the first entry of a strictly ascending sequence drops exactly its key from the map. */
  lemma SortedTailMap<T>(m: seq<Entry<T>>)
    requires m != [] && StrictlySorted(m)
    ensures StrictlySorted(m[1..])
    ensures ToMap(m[1..]) == ToMap(m) - {m[0].key}
  {
    StrictlySortedTail(m);
    LessIrreflexive(m[0].key);
    assert m[0].key !in Keys(m[1..]);
    DropUpdated(ToMap(m[1..]), m[0].key, m[0].value);
  }

  /** Adding a fresh key and removing it again gives back the map. */
  lemma DropUpdated<T>(rest: map<string, T>, k: string, v: T)
    requires k !in rest
    ensures rest[k := v] - {k} == rest
  {
  }

  /** Two strictly ascending sequences with the same contents are both empty or both not. */
  lemma SameMapSameEmptiness<T>(m0: seq<Entry<T>>, m1: seq<Entry<T>>)
    requires ToMap(m0) == ToMap(m1)
    ensures m0 == [] <==> m1 == []
  {
    if m0 != [] { KeysCons(m0); }
    if m1 != [] { KeysCons(m1); }
  }

  /** Two strictly ascending sequences with the same contents start with the same entry. */
  lemma SortedHeadsAgree<T>(m0: seq<Entry<T>>, m1: seq<Entry<T>>)
    requires m0 != [] && m1 != [] && StrictlySorted(m0) && StrictlySorted(m1)
    requires ToMap(m0) == ToMap(m1)
    ensures m0[0] == m1[0]
  {
    KeysCons(m0);
    KeysCons(m1);
    var a, b := m0[0].key, m1[0].key;
    if a != b {
      FirstIsLeast(m0, b);
      FirstIsLeast(m1, a);
      LessAsymmetric(a, b);
    }
    assert m0[0].value == ToMap(m0)[a] == ToMap(m1)[a] == m1[0].value;
  }

  /** Equal first entries and step-equal rests make step-equal sequences. */
  lemma MapsEqualCons<T>(m0: seq<Entry<T>>, m1: seq<Entry<T>>)
    requires m0 != [] && m1 != [] && m0[0] == m1[0] && MapsEqual(m0[1..], m1[1..])
    ensures MapsEqual(m0, m1)
  {
    forall i | 0 <= i < |m0| ensures m0[i].key == m1[i].key && m0[i].value == m1[i].value {
      if i > 0 {
        assert m0[1..][i - 1] == m0[i] && m1[1..][i - 1] == m1[i];
      }
    }
  }

  /**
   * For maps kept in ascending key order, as a map slot keeps its value, the order-sensitive
   * comparison is exactly equality of contents.
   */
  lemma {:induction false} SortedMapsCompareByContent<T>(m0: seq<Entry<T>>, m1: seq<Entry<T>>)
    requires StrictlySorted(m0) && StrictlySorted(m1)
    ensures MapsEqual(m0, m1) <==> ToMap(m0) == ToMap(m1)
    decreases |m0|
  {
    if MapsEqual(m0, m1) {
      assert m0 == m1 by {
        forall i | 0 <= i < |m0| ensures m0[i] == m1[i] {}
      }
    } else if ToMap(m0) == ToMap(m1) {
      SameMapSameEmptiness(m0, m1);
      if m0 != [] {
        SortedHeadsAgree(m0, m1);
        SortedTailMap(m0);
        SortedTailMap(m1);
        SortedMapsCompareByContent(m0[1..], m1[1..]);
        MapsEqualCons(m0, m1);
      }
    }
  }
}
