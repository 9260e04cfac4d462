/**
 * The generic array and map codecs: an array is written as WriteArray, one element per item,
 * PopArray; a map as WriteObject, one key entry per pair in iteration order, PopObject.
 * Reading builds a new container seeded from the old one.
 */
module Containers {
  import opened Tokens
  import opened Options
  import opened OrderedMaps
  import D = Deserializer
  import S = Scalars

  predicate AllOfType(items: seq<S.Scalar>, t: S.ScalarType)
  {
    forall i :: 0 <= i < |items| ==> S.HasType(items[i], t)
  }

  predicate AllValuesOfType(es: seq<Entry<S.Scalar>>, t: S.ScalarType)
  {
    forall i :: 0 <= i < |es| ==> S.HasType(es[i].value, t)
  }

  /* ---------------- arrays ---------------- */

  function ElementTokens(items: seq<S.Scalar>): seq<Token>
  {
    if items == [] then [] else S.Serialize(items[0]) + ElementTokens(items[1..])
  }

  /** The tokens FTypeSerializer<TArray<T>> writes. */
  function ArrayTokens(items: seq<S.Scalar>): seq<Token>
  {
    [WriteArray] + ElementTokens(items) + [PopArray]
  }

  /** FTypeSerializer<TArray<T>>::Serialize: the range-for over the elements. */
  method SerializeArray(items: seq<S.Scalar>) returns (out: seq<Token>)
    ensures out == ArrayTokens(items)
  {
    out := [WriteArray];
    var i := 0;
    while i < |items|
      invariant 0 <= i <= |items|
      invariant out + ElementTokens(items[i..]) == [WriteArray] + ElementTokens(items)
    {
      assert items[i..][1..] == items[i + 1..];
      out := out + S.Serialize(items[i]);
      i := i + 1;
    }
    assert items[i..] == [];
    out := out + [PopArray];
  }

  /** The seed of element i: the old element at that index, else the default. */
  function ElementSeed(t: S.ScalarType, prev: seq<S.Scalar>, i: nat): (v: S.Scalar)
    requires AllOfType(prev, t)
    ensures S.HasType(v, t)
  {
    if i < |prev| then prev[i] else S.Default(t)
  }

  /** The `while (ReadIndex())` loop from element index i on: the elements read and the cursor after them. */
  function ReadElements(t: S.ScalarType, c: D.Cursor, prev: seq<S.Scalar>, i: nat): (r: (seq<S.Scalar>, D.Cursor))
    requires AllOfType(prev, t)
    ensures AllOfType(r.0, t)
    decreases |c|
  {
    if D.ReadIndex(c) then
      var e := S.Deserialize(t, c, ElementSeed(t, prev, i));
      var (es, after) := ReadElements(t, D.PopIndex(c), prev, i + 1);
      ([e] + es, after)
    else ([], c)
  }

  /** FTypeDeserializer<TArray<T>>: the new array and the cursor after it; empty when no array opens. */
  function ArrayFromStream(t: S.ScalarType, c: D.Cursor, prev: seq<S.Scalar>): (r: (seq<S.Scalar>, D.Cursor))
    requires AllOfType(prev, t)
    ensures AllOfType(r.0, t)
  {
    if D.ReadArray(c) then
      var (es, after) := ReadElements(t, c[1..], prev, 0);
      (es, D.PopArray(after))
    else ([], c)
  }

  lemma ReadElementsStep(t: S.ScalarType, c: D.Cursor, prev: seq<S.Scalar>, i: nat)
    requires AllOfType(prev, t) && D.ReadIndex(c)
    ensures var next := ReadElements(t, D.PopIndex(c), prev, i + 1);
            ReadElements(t, c, prev, i) == ([S.Deserialize(t, c, ElementSeed(t, prev, i))] + next.0, next.1)
  {
  }

  /** FTypeDeserializer<TArray<T>>::Deserialize: builds NewValue one element per ReadIndex. */
  method DeserializeArray(t: S.ScalarType, c: D.Cursor, prev: seq<S.Scalar>) returns (r: seq<S.Scalar>, rest: D.Cursor)
    requires AllOfType(prev, t)
    ensures (r, rest) == ArrayFromStream(t, c, prev)
  {
    r := [];
    if !D.ReadArray(c) {
      return r, c;
    }
    var cur := c[1..];
    var i := 0;
    assert r + ReadElements(t, cur, prev, i).0 == ReadElements(t, cur, prev, i).0;
    while D.ReadIndex(cur)
      invariant |r| == i
      invariant AllOfType(r, t)
      invariant ReadElements(t, c[1..], prev, 0) == (r + ReadElements(t, cur, prev, i).0, ReadElements(t, cur, prev, i).1)
      decreases |cur|
    {
      var seed := if i < |prev| then prev[i] else S.Default(t);
      var e := S.Deserialize(t, cur, seed);
      ReadElementsStep(t, cur, prev, i);
      assert (r + [e]) + ReadElements(t, D.PopIndex(cur), prev, i + 1).0
          == r + ([e] + ReadElements(t, D.PopIndex(cur), prev, i + 1).0);
      r := r + [e];
      i := i + 1;
      cur := D.PopIndex(cur);
    }
    assert r + ReadElements(t, cur, prev, i).0 == r;
    rest := D.PopArray(cur);
  }

  /** The cursors at which successive ReadIndex calls succeed: the elements of the array body. */
  ghost function ElementCursors(c: D.Cursor): seq<D.Cursor>
    decreases |c|
  {
    if D.ReadIndex(c) then [c] + ElementCursors(D.PopIndex(c)) else []
  }

  /**
   * One element per ReadIndex, element k read from the k-th element cursor and seeded from
   * prev[i + k] when that index exists, else from the default; prev elements beyond are dropped.
   */
  lemma {:induction false} ReadElementsShape(t: S.ScalarType, c: D.Cursor, prev: seq<S.Scalar>, i: nat)
    requires AllOfType(prev, t)
    ensures var r := ReadElements(t, c, prev, i).0;
            var E := ElementCursors(c);
            |r| == |E| &&
            forall k :: 0 <= k < |r| ==> r[k] == S.Deserialize(t, E[k], ElementSeed(t, prev, i + k))
    decreases |c|
  {
    if D.ReadIndex(c) {
      ReadElementsShape(t, D.PopIndex(c), prev, i + 1);
      var r := ReadElements(t, c, prev, i).0;
      var E := ElementCursors(c);
      var later := ReadElements(t, D.PopIndex(c), prev, i + 1).0;
      var laterE := ElementCursors(D.PopIndex(c));
      ReadElementsStep(t, c, prev, i);
      assert r == [S.Deserialize(t, c, ElementSeed(t, prev, i))] + later;
      assert E == [c] + laterE;
      forall k | 0 < k < |r|
        ensures r[k] == S.Deserialize(t, E[k], ElementSeed(t, prev, i + k))
      {
        assert r[k] == later[k - 1];
        assert E[k] == laterE[k - 1];
        assert i + k == (i + 1) + (k - 1);
      }
    }
  }

  /** The array deserializer described in full, including the empty result when no array opens. */
  lemma ArrayFromStreamShape(t: S.ScalarType, c: D.Cursor, prev: seq<S.Scalar>)
    requires AllOfType(prev, t)
    ensures var r := ArrayFromStream(t, c, prev).0;
            if D.ReadArray(c) then
              var E := ElementCursors(c[1..]);
              |r| == |E| &&
              forall k :: 0 <= k < |r| ==> r[k] == S.Deserialize(t, E[k], ElementSeed(t, prev, k))
            else r == []
  {
    if D.ReadArray(c) {
      ReadElementsShape(t, c[1..], prev, 0);
      var r := ReadElements(t, c[1..], prev, 0).0;
      var E := ElementCursors(c[1..]);
      assert ArrayFromStream(t, c, prev).0 == r;
      forall k | 0 <= k < |r| ensures r[k] == S.Deserialize(t, E[k], ElementSeed(t, prev, k)) {
        assert r[k] == S.Deserialize(t, E[k], ElementSeed(t, prev, 0 + k));
      }
    }
  }

  lemma {:induction false} ElementTokensBalanced(items: seq<S.Scalar>)
    ensures Balanced(ElementTokens(items))
    decreases |items|
  {
    if items != [] {
      S.SerializeIsGroup(items[0]);
      GroupSkip(S.Serialize(items[0]), []);
      ElementTokensBalanced(items[1..]);
      BalancedConcat(S.Serialize(items[0]), ElementTokens(items[1..]));
    }
  }

  lemma {:induction false} ReadElementsRoundTrip(t: S.ScalarType, items: seq<S.Scalar>, rest: D.Cursor,
                                                 prev: seq<S.Scalar>, i: nat)
    requires AllOfType(items, t) && AllOfType(prev, t)
    ensures ReadElements(t, ElementTokens(items) + [PopArray] + rest, prev, i) == (items, [PopArray] + rest)
    decreases |items|
  {
    var tail := [PopArray] + rest;
    if items == [] {
      assert ElementTokens(items) + [PopArray] + rest == tail;
    } else {
      var g := S.Serialize(items[0]);
      var more := ElementTokens(items[1..]) + [PopArray] + rest;
      assert ElementTokens(items) + [PopArray] + rest == g + more;
      S.SerializeIsGroup(items[0]);
      GroupSkip(g, more);
      S.RoundTrip(items[0], t, more, ElementSeed(t, prev, i));
      ReadElementsRoundTrip(t, items[1..], rest, prev, i + 1);
      assert [items[0]] + items[1..] == items;
    }
  }

  /** Reading back a written array gives the same elements, whatever the old array was. */
  lemma ArrayRoundTrip(t: S.ScalarType, items: seq<S.Scalar>, rest: D.Cursor, prev: seq<S.Scalar>)
    requires AllOfType(items, t) && AllOfType(prev, t)
    ensures ArrayFromStream(t, ArrayTokens(items) + rest, prev) == (items, rest)
  {
    var c := ArrayTokens(items) + rest;
    assert c[1..] == ElementTokens(items) + [PopArray] + rest;
    ReadElementsRoundTrip(t, items, rest, prev, 0);
  }

  /** A written array is one whole element of the stream. */
  lemma ArrayTokensIsGroup(items: seq<S.Scalar>)
    ensures IsGroup(ArrayTokens(items))
  {
    ElementTokensBalanced(items);
    Wrap(WriteArray, ElementTokens(items), PopArray);
  }

  /* ---------------- maps ---------------- */

  function EntryTokens(e: Entry<S.Scalar>): seq<Token>
  {
    [Key(e.key)] + S.Serialize(e.value) + [PopKey(e.key)]
  }

  function EntriesTokens(es: seq<Entry<S.Scalar>>): seq<Token>
  {
    if es == [] then [] else EntryTokens(es[0]) + EntriesTokens(es[1..])
  }

  /** The tokens FTypeSerializer<TMap<FString, T>> writes. */
  function MapTokens(es: seq<Entry<S.Scalar>>): seq<Token>
  {
    [WriteObject] + EntriesTokens(es) + [PopObject]
  }

  /** The entries from i on are entry i followed by the entries after it. */
  lemma EntriesTokensStep(es: seq<Entry<S.Scalar>>, i: nat)
    requires i < |es|
    ensures EntriesTokens(es[i..]) == EntryTokens(es[i]) + EntriesTokens(es[i + 1..])
  {
    assert es[i..][1..] == es[i + 1..];
  }

  /** FTypeSerializer<TMap<FString, T>>::Serialize: the range-for over the pairs, each writing its key, its value and the key's pop. */
  method SerializeMap(es: seq<Entry<S.Scalar>>) returns (out: seq<Token>)
    ensures out == MapTokens(es)
  {
    out := [WriteObject];
    var i := 0;
    while i < |es|
      invariant 0 <= i <= |es|
      invariant out + EntriesTokens(es[i..]) == [WriteObject] + EntriesTokens(es)
    {
      EntriesTokensStep(es, i);
      out := out + EntryTokens(es[i]);
      i := i + 1;
    }
    assert es[i..] == [];
    out := out + [PopObject];
  }

  /** The seed of key k: the old value under k, else the default. */
  function KeySeed(t: S.ScalarType, prev: seq<Entry<S.Scalar>>, k: string): (v: S.Scalar)
    requires AllValuesOfType(prev, t)
    ensures S.HasType(v, t)
  {
    match Find(prev, k)
    case Some(v) =>
      FindTyped(t, prev, k);
      v
    case None => S.Default(t)
  }

  lemma {:induction false} FindTyped(t: S.ScalarType, es: seq<Entry<S.Scalar>>, k: string)
    requires AllValuesOfType(es, t) && Find(es, k).Some?
    ensures S.HasType(Find(es, k).value, t)
    decreases |es|
  {
    if es[0].key != k {
      FindTyped(t, es[1..], k);
    }
  }

  lemma {:induction false} AddTyped(t: S.ScalarType, es: seq<Entry<S.Scalar>>, k: string, v: S.Scalar)
    requires AllValuesOfType(es, t) && UniqueKeys(es) && S.HasType(v, t)
    ensures AllValuesOfType(Add(es, k, v), t)
    decreases |es|
  {
    if es != [] && es[0].key != k {
      UniqueKeysCons(es);
      AddTyped(t, es[1..], k, v);
    }
  }

  /**
   * The `while (ReadKey(Key))` loop: each key entry adds (key, value read) to `acc` as TMap::Add
   * does; returns the map and the cursor after the last entry.
   */
  function ReadEntries(t: S.ScalarType, c: D.Cursor, prev: seq<Entry<S.Scalar>>, acc: seq<Entry<S.Scalar>>)
    : (r: (seq<Entry<S.Scalar>>, D.Cursor))
    requires AllValuesOfType(prev, t) && AllValuesOfType(acc, t) && UniqueKeys(acc)
    ensures AllValuesOfType(r.0, t) && UniqueKeys(r.0)
    decreases |c|
  {
    match D.ReadKey(c)
    case None => (acc, c)
    case Some(k) =>
      var v := S.Deserialize(t, c[1..], KeySeed(t, prev, k));
      AddTyped(t, acc, k, v);
      ReadEntries(t, D.PopKey(c), prev, Add(acc, k, v))
  }

  /** FTypeDeserializer<TMap<FString, T>>: the new map and the cursor after it; empty when no object opens. */
  function MapFromStream(t: S.ScalarType, c: D.Cursor, prev: seq<Entry<S.Scalar>>)
    : (r: (seq<Entry<S.Scalar>>, D.Cursor))
    requires AllValuesOfType(prev, t)
    ensures AllValuesOfType(r.0, t) && UniqueKeys(r.0)
  {
    if D.ReadObject(c) then
      var (es, after) := ReadEntries(t, c[1..], prev, []);
      (es, D.PopObject(after))
    else ([], c)
  }

  /** FTypeDeserializer<TMap<FString, T>>::Deserialize: builds NewValue with one Add per key read. */
  method DeserializeMap(t: S.ScalarType, c: D.Cursor, prev: seq<Entry<S.Scalar>>)
    returns (r: seq<Entry<S.Scalar>>, rest: D.Cursor)
    requires AllValuesOfType(prev, t)
    ensures (r, rest) == MapFromStream(t, c, prev)
  {
    r := [];
    if !D.ReadObject(c) {
      return r, c;
    }
    var cur := c[1..];
    while D.ReadKey(cur).Some?
      invariant AllValuesOfType(r, t) && UniqueKeys(r)
      invariant ReadEntries(t, cur, prev, r) == ReadEntries(t, c[1..], prev, [])
      decreases |cur|
    {
      var key := D.ReadKey(cur).value;
      var seed := match Find(prev, key) case Some(v) => v case None => S.Default(t);
      var v := S.Deserialize(t, cur[1..], seed);
      AddTyped(t, r, key, v);
      r := Add(r, key, v);
      cur := D.PopKey(cur);
    }
    rest := D.PopObject(cur);
  }

  /** The set of keys the key entries at the head of c carry. */
  ghost function KeysRead(c: D.Cursor): set<string>
    decreases |c|
  {
    match D.ReadKey(c)
    case None => {}
    case Some(k) => {k} + KeysRead(D.PopKey(c))
  }

  /**
   * What the entries at the head of c leave under key k: the value read from the LAST entry
   * with that key, seeded from the old value under k; None when no entry has key k.
   */
  ghost function LastValue(t: S.ScalarType, c: D.Cursor, prev: seq<Entry<S.Scalar>>, k: string): Option<S.Scalar>
    requires AllValuesOfType(prev, t)
    decreases |c|
  {
    match D.ReadKey(c)
    case None => None
    case Some(k') =>
      var later := LastValue(t, D.PopKey(c), prev, k);
      if later.Some? then later
      else if k' == k then Some(S.Deserialize(t, c[1..], KeySeed(t, prev, k)))
      else None
  }

  /**
   * The map read holds exactly the keys held before plus the keys read; under a key read, the
   * value of its last entry; under any other key, what was held before.
   */
  lemma {:induction false} ReadEntriesShape(t: S.ScalarType, c: D.Cursor, prev: seq<Entry<S.Scalar>>,
                                            acc: seq<Entry<S.Scalar>>, k: string)
    requires AllValuesOfType(prev, t) && AllValuesOfType(acc, t) && UniqueKeys(acc)
    ensures var r := ReadEntries(t, c, prev, acc).0;
            Keys(r) == Keys(acc) + KeysRead(c) &&
            Find(r, k) == (if LastValue(t, c, prev, k).Some? then LastValue(t, c, prev, k) else Find(acc, k))
    decreases |c|
  {
    match D.ReadKey(c)
    case None =>
    case Some(k') =>
      var v := S.Deserialize(t, c[1..], KeySeed(t, prev, k'));
      AddTyped(t, acc, k', v);
      ReadEntriesShape(t, D.PopKey(c), prev, Add(acc, k', v), k);
      AddThenFind(acc, k', v, k);
  }

  /**
   * The map deserializer described in full: the keys are exactly the keys read (prev keys not
   * read are gone), each holding the value of its last entry seeded from the old value under
   * that key; a failed ReadObject gives the empty map.
   */
  lemma MapFromStreamShape(t: S.ScalarType, c: D.Cursor, prev: seq<Entry<S.Scalar>>, k: string)
    requires AllValuesOfType(prev, t)
    ensures var r := MapFromStream(t, c, prev).0;
            if D.ReadObject(c) then
              Keys(r) == KeysRead(c[1..]) && Find(r, k) == LastValue(t, c[1..], prev, k)
            else r == []
  {
    if D.ReadObject(c) {
      ReadEntriesShape(t, c[1..], prev, [], k);
      assert Keys<S.Scalar>([]) == {};
    }
  }

  lemma EntryTokensIsGroup(e: Entry<S.Scalar>)
    ensures IsGroup(EntryTokens(e))
  {
    S.SerializeIsGroup(e.value);
    GroupSkip(S.Serialize(e.value), []);
    Wrap(Key(e.key), S.Serialize(e.value), PopKey(e.key));
  }

  lemma {:induction false} EntriesTokensBalanced(es: seq<Entry<S.Scalar>>)
    ensures Balanced(EntriesTokens(es))
    decreases |es|
  {
    if es != [] {
      EntryTokensIsGroup(es[0]);
      GroupSkip(EntryTokens(es[0]), []);
      EntriesTokensBalanced(es[1..]);
      BalancedConcat(EntryTokens(es[0]), EntriesTokens(es[1..]));
    }
  }

  /** One written key entry is read back as that pair, appended since its key is new. */
  lemma ReadEntryStep(t: S.ScalarType, e: Entry<S.Scalar>, more: D.Cursor,
                      prev: seq<Entry<S.Scalar>>, acc: seq<Entry<S.Scalar>>)
    requires S.HasType(e.value, t) && AllValuesOfType(prev, t) && AllValuesOfType(acc, t)
    requires UniqueKeys(acc) && e.key !in Keys(acc)
    ensures AllValuesOfType(acc + [e], t) && UniqueKeys(acc + [e])
    ensures ReadEntries(t, EntryTokens(e) + more, prev, acc) == ReadEntries(t, more, prev, acc + [e])
  {
    var g := EntryTokens(e);
    var c := g + more;
    EntryTokensIsGroup(e);
    GroupSkip(g, more);
    assert c[0] == Key(e.key);
    assert c[1..] == S.Serialize(e.value) + ([PopKey(e.key)] + more);
    S.RoundTrip(e.value, t, [PopKey(e.key)] + more, KeySeed(t, prev, e.key));
    AddAppendsNewKey(acc, e.key, e.value);
    AddTyped(t, acc, e.key, e.value);
  }

  lemma {:induction false} ReadEntriesRoundTrip(t: S.ScalarType, es: seq<Entry<S.Scalar>>, rest: D.Cursor,
                                                prev: seq<Entry<S.Scalar>>, acc: seq<Entry<S.Scalar>>)
    requires AllValuesOfType(es, t) && AllValuesOfType(prev, t) && AllValuesOfType(acc, t)
    requires UniqueKeys(acc) && UniqueKeys(es) && Keys(acc) !! Keys(es)
    ensures ReadEntries(t, EntriesTokens(es) + [PopObject] + rest, prev, acc) == (acc + es, [PopObject] + rest)
    decreases |es|
  {
    if es == [] {
      assert EntriesTokens(es) + [PopObject] + rest == [PopObject] + rest;
      assert acc + es == acc;
    } else {
      var e := es[0];
      var more := EntriesTokens(es[1..]) + [PopObject] + rest;
      var c := EntriesTokens(es) + [PopObject] + rest;
      assert c == EntryTokens(e) + more;
      KeysCons(es);
      UniqueKeysCons(es);
      ReadEntryStep(t, e, more, prev, acc);
      KeysSnoc(acc, e);
      assert AllValuesOfType(es[1..], t) by {
        forall i | 0 <= i < |es[1..]| ensures S.HasType(es[1..][i].value, t) { assert es[1..][i] == es[i + 1]; }
      }
      ReadEntriesRoundTrip(t, es[1..], rest, prev, acc + [e]);
      ConsAppend(acc, es);
      calc {
        ReadEntries(t, c, prev, acc);
        ReadEntries(t, more, prev, acc + [e]);
        (acc + [e] + es[1..], [PopObject] + rest);
      }
    }
  }

  lemma ConsAppend<T>(a: seq<T>, s: seq<T>)
    requires s != []
    ensures a + [s[0]] + s[1..] == a + s
  {
    assert s == [s[0]] + s[1..];
  }

  lemma KeysSnoc<T>(acc: seq<Entry<T>>, e: Entry<T>)
    ensures Keys(acc + [e]) == Keys(acc) + {e.key}
  {
    var r := acc + [e];
    forall x | x in Keys(r) ensures x in Keys(acc) + {e.key} {
      var i :| 0 <= i < |r| && r[i].key == x;
      if i < |acc| { assert acc[i] == r[i]; }
    }
    forall x | x in Keys(acc) ensures x in Keys(r) {
      var i :| 0 <= i < |acc| && acc[i].key == x;
      assert r[i] == acc[i];
    }
    assert r[|acc|] == e;
  }

  /** Reading back a written map with distinct keys gives the same pairs in the same order. */
  lemma MapRoundTrip(t: S.ScalarType, es: seq<Entry<S.Scalar>>, rest: D.Cursor, prev: seq<Entry<S.Scalar>>)
    requires AllValuesOfType(es, t) && AllValuesOfType(prev, t) && UniqueKeys(es)
    ensures MapFromStream(t, MapTokens(es) + rest, prev) == (es, rest)
  {
    var body := EntriesTokens(es) + [PopObject] + rest;
    var c := MapTokens(es) + rest;
    assert c == [WriteObject] + body;
    assert D.ReadObject(c) && c[1..] == body;
    assert UniqueKeys<S.Scalar>([]) && Keys<S.Scalar>([]) == {};
    ReadEntriesRoundTrip(t, es, rest, prev, []);
    assert [] + es == es;
    assert D.PopObject([PopObject] + rest) == rest;
  }

  /** A written map is one whole element of the stream. */
  lemma MapTokensIsGroup(es: seq<Entry<S.Scalar>>)
    ensures IsGroup(MapTokens(es))
  {
    EntriesTokensBalanced(es);
    Wrap(WriteObject, EntriesTokens(es), PopObject);
  }

  /** Key-sorting keeps every value of the map's element type. */
  lemma SortedTyped(es: seq<Entry<S.Scalar>>, t: S.ScalarType)
    requires AllValuesOfType(es, t)
    ensures AllValuesOfType(KeyStableSort(es), t)
  {
    var s := KeyStableSort(es);
    forall k | 0 <= k < |s| ensures S.HasType(s[k].value, t) {
      SortedEntry(es, s[k]);
      var j :| 0 <= j < |es| && es[j] == s[k];
    }
  }
}
