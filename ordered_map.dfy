/**
 * A string-keyed map as the engine's TMap<FString, T> behaves: a sequence of entries with
 * distinct keys, iterated in the order the entries were added (or sorted into), where Add on a
 * present key replaces its value in place and KeyStableSort reorders the entries by key.
 */
module OrderedMaps {
  import opened Options

  datatype Entry<T> = Entry(key: string, value: T)

  function Keys<T>(es: seq<Entry<T>>): set<string>
  {
    set i | 0 <= i < |es| :: es[i].key
  }

  lemma KeysCons<T>(es: seq<Entry<T>>)
    requires es != []
    ensures Keys(es) == {es[0].key} + Keys(es[1..])
  {
    forall x | x in Keys(es) ensures x in {es[0].key} + Keys(es[1..]) {
      var i :| 0 <= i < |es| && es[i].key == x;
      if i > 0 { assert es[1..][i - 1].key == x; }
    }
    forall x | x in Keys(es[1..]) ensures x in Keys(es) {
      var i :| 0 <= i < |es[1..]| && es[1..][i].key == x;
      assert es[i + 1].key == x;
    }
  }

  predicate UniqueKeys<T>(es: seq<Entry<T>>)
  {
    forall i, j :: 0 <= i < j < |es| ==> es[i].key != es[j].key
  }

  lemma UniqueKeysCons<T>(es: seq<Entry<T>>)
    requires es != []
    ensures UniqueKeys(es) <==> es[0].key !in Keys(es[1..]) && UniqueKeys(es[1..])
  {
    if UniqueKeys(es) {
      forall i | 0 <= i < |es[1..]| ensures es[1..][i].key != es[0].key {
        assert es[1..][i] == es[i + 1];
      }
      forall i, j | 0 <= i < j < |es[1..]| ensures es[1..][i].key != es[1..][j].key {
        assert es[i + 1].key != es[j + 1].key;
      }
    }
    if es[0].key !in Keys(es[1..]) && UniqueKeys(es[1..]) {
      forall i, j | 0 <= i < j < |es| ensures es[i].key != es[j].key {
        if i == 0 {
          assert es[1..][j - 1].key == es[j].key;
        } else {
          assert es[1..][i - 1].key != es[1..][j - 1].key;
        }
      }
    }
  }

  /** TMap::Find. */
  function Find<T>(es: seq<Entry<T>>, k: string): (r: Option<T>)
    ensures r.Some? <==> k in Keys(es)
  {
    if es == [] then None
    else
      KeysCons(es);
      if es[0].key == k then Some(es[0].value) else Find(es[1..], k)
  }

  /** TMap::Add: a present key keeps its position and takes the new value; a new key goes last. */
  function Add<T>(es: seq<Entry<T>>, k: string, v: T): (r: seq<Entry<T>>)
    requires UniqueKeys(es)
    ensures UniqueKeys(r)
    ensures Keys(r) == Keys(es) + {k}
  {
    if es == [] then
      assert Keys([Entry(k, v)]) == {k} by { KeysCons([Entry(k, v)]); }
      [Entry(k, v)]
    else
      var r := if es[0].key == k then [Entry(k, v)] + es[1..] else [es[0]] + Add(es[1..], k, v);
      KeysCons(es);
      KeysCons(r);
      UniqueKeysCons(es);
      assert r[1..] == (if es[0].key == k then es[1..] else Add(es[1..], k, v));
      UniqueKeysCons(r);
      r
  }

  /** A key not yet present is appended after all others. */
  lemma {:induction false} AddAppendsNewKey<T>(es: seq<Entry<T>>, k: string, v: T)
    requires UniqueKeys(es) && k !in Keys(es)
    ensures Add(es, k, v) == es + [Entry(k, v)]
    decreases |es|
  {
    if es != [] {
      KeysCons(es);
      UniqueKeysCons(es);
      AddAppendsNewKey(es[1..], k, v);
      assert es == [es[0]] + es[1..];
    }
  }

  /** A present key keeps its position: the length does not change and every other entry stays put. */
  lemma {:induction false} AddReplacesInPlace<T>(es: seq<Entry<T>>, k: string, v: T)
    requires UniqueKeys(es) && k in Keys(es)
    ensures |Add(es, k, v)| == |es|
    ensures forall i :: 0 <= i < |es| ==> Add(es, k, v)[i] == if es[i].key == k then Entry(k, v) else es[i]
    decreases |es|
  {
    KeysCons(es);
    UniqueKeysCons(es);
    if es[0].key != k {
      AddReplacesInPlace(es[1..], k, v);
    } else {
      forall i | 0 < i < |es| ensures es[i].key != k { assert es[1..][i - 1].key == es[i].key; }
    }
  }

  /** After Add, the key finds the new value and every other key finds what it found before. */
  lemma {:induction false} AddThenFind<T>(es: seq<Entry<T>>, k: string, v: T, x: string)
    requires UniqueKeys(es)
    ensures Find(Add(es, k, v), x) == if x == k then Some(v) else Find(es, x)
    decreases |es|
  {
    if es != [] {
      UniqueKeysCons(es);
      if es[0].key != k {
        AddThenFind(es[1..], k, v, x);
      }
    }
  }

  /** The entries as a finite map, forgetting their order. */
  function ToMap<T>(es: seq<Entry<T>>): (m: map<string, T>)
    ensures m.Keys == Keys(es)
  {
    if es == [] then map[]
    else
      KeysCons(es);
      ToMap(es[1..])[es[0].key := es[0].value]
  }

  lemma {:induction false} ToMapFind<T>(es: seq<Entry<T>>, x: string)
    requires UniqueKeys(es) && x in Keys(es)
    ensures Find(es, x) == Some(ToMap(es)[x])
    decreases |es|
  {
    KeysCons(es);
    UniqueKeysCons(es);
    if es[0].key != x {
      ToMapFind(es[1..], x);
    }
  }

  /** Strict lexicographic order on strings, by character code. */
  predicate Less(a: string, b: string)
    decreases |a|
  {
    if a == [] then b != []
    else if b == [] then false
    else if a[0] != b[0] then a[0] < b[0]
    else Less(a[1..], b[1..])
  }

  lemma {:induction false} LessIrreflexive(a: string)
    ensures !Less(a, a)
    decreases |a|
  {
    if a != [] { LessIrreflexive(a[1..]); }
  }

  lemma {:induction false} LessTransitive(a: string, b: string, c: string)
    requires Less(a, b) && Less(b, c)
    ensures Less(a, c)
    decreases |a|
  {
    if a != [] && b != [] && c != [] && a[0] == b[0] && b[0] == c[0] {
      LessTransitive(a[1..], b[1..], c[1..]);
    }
  }

  lemma {:induction false} LessTotal(a: string, b: string)
    requires a != b
    ensures Less(a, b) || Less(b, a)
    decreases |a|
  {
    if a != [] && b != [] && a[0] == b[0] {
      assert a == [a[0]] + a[1..] && b == [b[0]] + b[1..];
      LessTotal(a[1..], b[1..]);
    }
  }

  lemma {:induction false} LessAsymmetric(a: string, b: string)
    requires Less(a, b)
    ensures !Less(b, a)
    decreases |a|
  {
    if a != [] && b != [] && a[0] == b[0] {
      LessAsymmetric(a[1..], b[1..]);
    }
  }

  /** "Not below" is transitive too: z <= y <= x gives z <= x. */
  lemma NotLessTransitive(x: string, y: string, z: string)
    requires !Less(x, y) && !Less(y, z)
    ensures !Less(x, z)
  {
    if Less(x, z) {
      if y == z {
      } else {
        LessTotal(y, z);
        LessTransitive(x, z, y);
      }
    }
  }

  /** Keys ascend from each entry to every later one. */
  predicate StrictlySorted<T>(es: seq<Entry<T>>)
  {
    forall i, j :: 0 <= i < j < |es| ==> Less(es[i].key, es[j].key)
  }

  /** No entry's key is below an earlier entry's key. */
  predicate Sorted<T>(es: seq<Entry<T>>)
  {
    forall i, j :: 0 <= i < j < |es| ==> !Less(es[j].key, es[i].key)
  }

  lemma SortedCons<T>(es: seq<Entry<T>>)
    requires es != []
    ensures Sorted(es) <==> (forall y :: y in Keys(es[1..]) ==> !Less(y, es[0].key)) && Sorted(es[1..])
  {
    var tail := es[1..];
    if Sorted(es) {
      forall y | y in Keys(tail) ensures !Less(y, es[0].key) {
        var i :| 0 <= i < |tail| && tail[i].key == y;
        assert tail[i] == es[i + 1];
      }
      forall i, j | 0 <= i < j < |tail| ensures !Less(tail[j].key, tail[i].key) {
        assert tail[i] == es[i + 1] && tail[j] == es[j + 1];
      }
    }
    if (forall y :: y in Keys(tail) ==> !Less(y, es[0].key)) && Sorted(tail) {
      forall i, j | 0 <= i < j < |es| ensures !Less(es[j].key, es[i].key) {
        assert es[j] == tail[j - 1];
        if i == 0 {
          assert tail[j - 1].key in Keys(tail);
        } else {
          assert es[i] == tail[i - 1];
        }
      }
    }
  }

  /** Puts e before the first entry whose key is not below e's: after all entries with a smaller key. */
  function Insert<T>(e: Entry<T>, es: seq<Entry<T>>): seq<Entry<T>>
  {
    if es == [] || !Less(es[0].key, e.key) then [e] + es
    else [es[0]] + Insert(e, es[1..])
  }

  /** TMap::KeyStableSort with the `A < B` key order: an insertion sort, stable. */
  function KeyStableSort<T>(es: seq<Entry<T>>): seq<Entry<T>>
  {
    if es == [] then [] else Insert(es[0], KeyStableSort(es[1..]))
  }

  /** Sorting an already key-sorted map changes nothing: the sort is stable and moves no entry. */
  lemma {:induction false} SortOfSorted<T>(es: seq<Entry<T>>)
    requires Sorted(es)
    ensures KeyStableSort(es) == es
    decreases |es|
  {
    if es != [] {
      SortedCons(es);
      SortOfSorted(es[1..]);
      if |es| > 1 {
        assert es[1..][0] == es[1];
      }
      assert [es[0]] + es[1..] == es;
    }
  }

  lemma {:induction false} InsertPermutes<T>(e: Entry<T>, es: seq<Entry<T>>)
    ensures multiset(Insert(e, es)) == multiset(es) + multiset{e}
    decreases |es|
  {
    if es != [] && Less(es[0].key, e.key) {
      InsertPermutes(e, es[1..]);
      assert Insert(e, es) == [es[0]] + Insert(e, es[1..]);
      assert es == [es[0]] + es[1..];
    }
  }

  lemma {:induction false} InsertKeys<T>(e: Entry<T>, es: seq<Entry<T>>)
    ensures Keys(Insert(e, es)) == Keys(es) + {e.key}
    decreases |es|
  {
    var r := Insert(e, es);
    KeysCons(r);
    if es == [] || !Less(es[0].key, e.key) {
      assert r[1..] == es;
    } else {
      InsertKeys(e, es[1..]);
      assert r[1..] == Insert(e, es[1..]);
      KeysCons(es);
    }
  }

  lemma {:induction false} InsertSorted<T>(e: Entry<T>, es: seq<Entry<T>>)
    requires Sorted(es)
    ensures Sorted(Insert(e, es))
    decreases |es|
  {
    var r := Insert(e, es);
    SortedCons(r);
    if es == [] {
      assert r == [e];
    } else if !Less(es[0].key, e.key) {
      assert r[1..] == es;
      SortedCons(es);
      KeysCons(es);
      forall y | y in Keys(es) ensures !Less(y, e.key) {
        if y != es[0].key {
          NotLessTransitive(y, es[0].key, e.key);
        }
      }
    } else {
      SortedCons(es);
      InsertSorted(e, es[1..]);
      InsertKeys(e, es[1..]);
      assert r[1..] == Insert(e, es[1..]);
      LessAsymmetric(es[0].key, e.key);
    }
  }

  lemma {:induction false} InsertUnique<T>(e: Entry<T>, es: seq<Entry<T>>)
    requires UniqueKeys(es) && e.key !in Keys(es)
    ensures UniqueKeys(Insert(e, es))
    decreases |es|
  {
    var r := Insert(e, es);
    UniqueKeysCons(r);
    if es == [] {
    } else if !Less(es[0].key, e.key) {
      assert r[1..] == es;
    } else {
      KeysCons(es);
      UniqueKeysCons(es);
      InsertUnique(e, es[1..]);
      InsertKeys(e, es[1..]);
      assert r[1..] == Insert(e, es[1..]);
    }
  }

  lemma {:induction false} InsertToMap<T>(e: Entry<T>, es: seq<Entry<T>>)
    requires e.key !in Keys(es)
    ensures ToMap(Insert(e, es)) == ToMap(es)[e.key := e.value]
    decreases |es|
  {
    if es != [] && Less(es[0].key, e.key) {
      KeysCons(es);
      InsertToMap(e, es[1..]);
      var r := Insert(e, es);
      assert r[1..] == Insert(e, es[1..]);
      assert r[0] == es[0];
    }
  }

  /** The sort's result is in key order. */
  lemma {:induction false} SortIsSorted<T>(es: seq<Entry<T>>)
    ensures Sorted(KeyStableSort(es))
    decreases |es|
  {
    if es != [] {
      SortIsSorted(es[1..]);
      InsertSorted(es[0], KeyStableSort(es[1..]));
    }
  }

  /** The sort's result is a permutation of its input. */
  lemma {:induction false} SortPermutes<T>(es: seq<Entry<T>>)
    ensures multiset(KeyStableSort(es)) == multiset(es)
    decreases |es|
  {
    if es != [] {
      SortPermutes(es[1..]);
      InsertPermutes(es[0], KeyStableSort(es[1..]));
      assert es == [es[0]] + es[1..];
    }
  }

  /** Sorting entries with distinct keys keeps them distinct and keeps the same map. */
  lemma {:induction false} SortKeepsMap<T>(es: seq<Entry<T>>)
    ensures Keys(KeyStableSort(es)) == Keys(es)
    ensures UniqueKeys(es) ==> UniqueKeys(KeyStableSort(es)) && ToMap(KeyStableSort(es)) == ToMap(es)
    decreases |es|
  {
    if es != [] {
      var tail := KeyStableSort(es[1..]);
      SortKeepsMap(es[1..]);
      InsertKeys(es[0], tail);
      KeysCons(es);
      if UniqueKeys(es) {
        UniqueKeysCons(es);
        InsertUnique(es[0], tail);
        InsertToMap(es[0], tail);
      }
    }
  }

  /** With distinct keys, a key-ordered sequence is strictly ascending. */
  lemma SortedUniqueIsStrict<T>(es: seq<Entry<T>>)
    requires Sorted(es) && UniqueKeys(es)
    ensures StrictlySorted(es)
  {
    forall i, j | 0 <= i < j < |es| ensures Less(es[i].key, es[j].key) {
      LessTotal(es[i].key, es[j].key);
    }
  }

  /** Sorting by key keeps the entries. */
  lemma SortedEntry<T>(es: seq<Entry<T>>, e: Entry<T>)
    ensures e in KeyStableSort(es) <==> e in es
  {
    SortPermutes(es);
    assert e in KeyStableSort(es) <==> e in multiset(KeyStableSort(es));
    assert e in es <==> e in multiset(es);
  }
}
