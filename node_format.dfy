/**
 * The node format of UPsData::DataSerialize and UPsData::DataDeserialize on values: a node is
 * written as one key entry per registry field, in registry order, and read back key by key. A
 * known key is handed to its slot, whose Deserialize passes the value read to the slot's Set; an
 * unknown key is skipped; every key read is popped, whatever its slot consumed.
 */
module NodeFormat {
  import opened Options
  import opened Tokens
  import D = Deserializer
  import S = Scalars
  import C = Containers
  import opened OrderedMaps
  import opened DataModel

  /** The shapes whose slots hold values rather than owned nodes. */
  predicate IsValueShape(shape: Shape)
  {
    shape.ScalarField? || shape.ArrayField? || shape.MapField?
  }

  /** Field names are distinct, as the keys of the reflection table of a class are. */
  predicate UniqueNames(fields: seq<FieldDesc>)
  {
    forall a, b :: 0 <= a < b < |fields| ==> fields[a].name != fields[b].name
  }

  /** Every slot has the shape of its field. */
  predicate SlotsConform(fields: seq<FieldDesc>, slots: seq<SlotValue>)
    requires |slots| == |fields|
  {
    forall k :: 0 <= k < |fields| ==> Conforms(fields[k].shape, slots[k])
  }

  /** Every map slot holds its keys in the ascending order a map Set leaves them in. */
  predicate MapsSorted(fields: seq<FieldDesc>, slots: seq<SlotValue>)
    requires |slots| == |fields| && SlotsConform(fields, slots)
  {
    forall k :: 0 <= k < |fields| && fields[k].shape.MapField? ==> Sorted(slots[k].entries)
  }

  /* ---------------- serialize ---------------- */

  /**
   * What a slot's Serialize writes. A value slot writes its scalar, array or map; an owned slot
   * writes `nested`, the output of the FTypeSerializer<T*> element codec, which is not part of
   * this model.
   */
  function SlotTokens(v: SlotValue, nested: seq<Token>): seq<Token>
  {
    match v
    case ScalarSlot(x) => S.Serialize(x)
    case ArraySlot(items) => C.ArrayTokens(items)
    case MapSlot(es) => C.MapTokens(es)
    case _ => nested
  }

  /** One field's entry: its name as a key, the slot, the key closed. */
  function FieldTokens(field: FieldDesc, v: SlotValue, nested: seq<Token>): seq<Token>
  {
    [Key(field.name)] + SlotTokens(v, nested) + [PopKey(field.name)]
  }

  /** The entries of fields `j ..` in registry order. */
  function FieldsTokens(fields: seq<FieldDesc>, slots: seq<SlotValue>, nested: seq<seq<Token>>, j: nat): seq<Token>
    requires |slots| == |fields| == |nested| && j <= |fields|
    decreases |fields| - j
  {
    if j == |fields| then [] else FieldTokens(fields[j], slots[j], nested[j]) + FieldsTokens(fields, slots, nested, j + 1)
  }

  /** FAbstractDataProperty::Serialize, dispatched on the slot's shape. */
  method SerializeSlot(v: SlotValue, nested: seq<Token>) returns (out: seq<Token>)
    ensures out == SlotTokens(v, nested)
    ensures v.ScalarSlot? || v.ArraySlot? || v.MapSlot? ==> IsGroup(out)
  {
    match v
    case ScalarSlot(x) =>
      out := S.Serialize(x);
      S.SerializeIsGroup(x);
    case ArraySlot(items) =>
      out := C.SerializeArray(items);
      C.ArrayTokensIsGroup(items);
    case MapSlot(es) =>
      out := C.SerializeMap(es);
      C.MapTokensIsGroup(es);
    case _ =>
      out := nested;
  }

  /** The loop of DataSerialize over the fields and their slots. */
  method SerializeFields(fields: seq<FieldDesc>, slots: seq<SlotValue>, nested: seq<seq<Token>>) returns (out: seq<Token>)
    requires |slots| == |fields| == |nested|
    ensures out == FieldsTokens(fields, slots, nested, 0)
  {
    out := [];
    var j := 0;
    while j < |fields|
      invariant 0 <= j <= |fields|
      invariant out + FieldsTokens(fields, slots, nested, j) == FieldsTokens(fields, slots, nested, 0)
      decreases |fields| - j
    {
      var slot := SerializeSlot(slots[j], nested[j]);
      var entry := [Key(fields[j].name)] + slot + [PopKey(fields[j].name)];
      assert FieldsTokens(fields, slots, nested, j) == entry + FieldsTokens(fields, slots, nested, j + 1);
      assert out + entry + FieldsTokens(fields, slots, nested, j + 1) == out + (entry + FieldsTokens(fields, slots, nested, j + 1));
      out := out + entry;
      j := j + 1;
    }
    assert out + [] == out;
  }

  /** With every owned slot's output one whole element, each field entry is one whole element. */
  lemma FieldTokensIsGroup(field: FieldDesc, v: SlotValue, nested: seq<Token>)
    requires v.ScalarSlot? || v.ArraySlot? || v.MapSlot? || IsGroup(nested)
    ensures IsGroup(FieldTokens(field, v, nested))
  {
    var body := SlotTokens(v, nested);
    if v.ScalarSlot? {
      S.SerializeIsGroup(v.v);
    } else if v.ArraySlot? {
      C.ArrayTokensIsGroup(v.items);
    } else if v.MapSlot? {
      C.MapTokensIsGroup(v.entries);
    }
    GroupSkip(body, []);
    Wrap(Key(field.name), body, PopKey(field.name));
  }

  /* ---------------- deserialize ---------------- */

  /** `Fields.Find(Key)`: the index of the field named k, if the class has one. */
  function FieldIndex(fields: seq<FieldDesc>, k: string): (r: Option<nat>)
    ensures r.Some? ==> r.value < |fields| && fields[r.value].name == k
    ensures r.None? <==> forall j :: 0 <= j < |fields| ==> fields[j].name != k
  {
    if fields == [] then None
    else if fields[0].name == k then Some(0)
    else match FieldIndex(fields[1..], k)
      case None => None
      case Some(j) => Some(j + 1)
  }

  /**
   * A value slot's Deserialize: the value read from the stream with the held value as seed, and
   * whether the slot's Set records a change. Set compares the read value with the held one; a
   * changed map is stored key-sorted.
   */
  function ReadSlot(shape: Shape, c: D.Cursor, prev: SlotValue): (r: (SlotValue, bool))
    requires IsValueShape(shape) && Conforms(shape, prev)
    ensures Conforms(shape, r.0)
    ensures !r.1 ==> r.0 == prev
  {
    match shape
    case ScalarField(t) =>
      var v := S.Deserialize(t, c, prev.v);
      (ScalarSlot(v), ScalarSlot(v) != prev)
    case ArrayField(t) =>
      var items := C.ArrayFromStream(t, c, prev.items).0;
      if items == prev.items then (prev, false) else (ArraySlot(items), true)
    case MapField(t) =>
      var es := C.MapFromStream(t, c, prev.entries).0;
      if es == prev.entries then (prev, false)
      else
        SortKeepsMap(es);
        C.SortedTyped(es, t);
        (MapSlot(KeyStableSort(es)), true)
  }

  /**
   * The `while (ReadKey(Key))` loop of DataDeserialize over the slots of node `n`: the slots
   * afterwards, the change log afterwards (`log` extended), and the cursor where no key follows.
   * An owned slot's key is popped without a read: its FTypeDeserializer<T*> is not part of this model.
   */
  function ReadFields(n: NodeId, fields: seq<FieldDesc>, slots: seq<SlotValue>, log: seq<Change>, c: D.Cursor)
    : (r: (seq<SlotValue>, seq<Change>, D.Cursor))
    requires |slots| == |fields| && SlotsConform(fields, slots)
    decreases |c|
  {
    match D.ReadKey(c)
    case None => (slots, log, c)
    case Some(k) =>
      var (slots1, log1) := ReadEntry(n, fields, slots, log, k, c[1..]);
      ReadFields(n, fields, slots1, log1, D.PopKey(c))
  }

  /**
   * What DataDeserialize keeps: every slot still holds a value of its field's shape, owned
   * slots are untouched, and the log only grows, by changes of fields of `n`.
   */
  lemma {:induction false} ReadFieldsKeeps(n: NodeId, fields: seq<FieldDesc>, slots: seq<SlotValue>, log: seq<Change>, c: D.Cursor)
    requires |slots| == |fields| && SlotsConform(fields, slots)
    ensures var r := ReadFields(n, fields, slots, log, c);
            && |r.0| == |fields| && SlotsConform(fields, r.0)
            && (forall k :: 0 <= k < |fields| && !IsValueShape(fields[k].shape) ==> r.0[k] == slots[k])
            && Extends(log, r.1, n, fields)
    decreases |c|
  {
    match D.ReadKey(c)
    case None =>
      assert log[|log|..] == [];
    case Some(k) =>
      var (slots1, log1) := ReadEntry(n, fields, slots, log, k, c[1..]);
      ReadFieldsKeeps(n, fields, slots1, log1, D.PopKey(c));
      var r := ReadFields(n, fields, slots1, log1, D.PopKey(c));
      ExtendsChain(log, log1, r.1, n, fields);
  }

  /** A key read is one ReadEntry, then the loop goes on after the key's entry. */
  lemma ReadFieldsStep(n: NodeId, fields: seq<FieldDesc>, slots: seq<SlotValue>, log: seq<Change>, c: D.Cursor)
    requires |slots| == |fields| && SlotsConform(fields, slots) && D.ReadKey(c).Some?
    ensures var e := ReadEntry(n, fields, slots, log, D.ReadKey(c).value, c[1..]);
            ReadFields(n, fields, slots, log, c) == ReadFields(n, fields, e.0, e.1, D.PopKey(c))
  {
  }

  /**
   * One turn of the DataDeserialize loop, for the key k with its value at `c`: a known value
   * field's slot deserializes, anything else is left for PopKey to skip.
   */
  function ReadEntry(n: NodeId, fields: seq<FieldDesc>, slots: seq<SlotValue>, log: seq<Change>, k: string, c: D.Cursor)
    : (r: (seq<SlotValue>, seq<Change>))
    requires |slots| == |fields| && SlotsConform(fields, slots)
    ensures |r.0| == |fields| && SlotsConform(fields, r.0)
    ensures forall j :: 0 <= j < |fields| && (FieldIndex(fields, k) != Some(j) || !IsValueShape(fields[j].shape)) ==> r.0[j] == slots[j]
    ensures FieldIndex(fields, k).None? ==> r == (slots, log)
    ensures Extends(log, r.1, n, fields) && |r.1| <= |log| + 1
  {
    var i := FieldIndex(fields, k);
    if i.Some? && IsValueShape(fields[i.value].shape) then
      var (v, changed) := ReadSlot(fields[i.value].shape, c, slots[i.value]);
      var log1 := if changed then log + [Changed(n, fields[i.value])] else log;
      assert log1[|log|..] == (if changed then [Changed(n, fields[i.value])] else []);
      (slots[i.value := v], log1)
    else (slots, log)
  }

  /** `s` is `log` followed by changes of fields of `n` only. */
  ghost predicate Extends(log: seq<Change>, s: seq<Change>, n: NodeId, fields: seq<FieldDesc>)
  {
    |log| <= |s| && s[..|log|] == log && ChangesOf(s[|log|..], n, fields)
  }

  lemma ExtendsChain(a: seq<Change>, b: seq<Change>, c: seq<Change>, n: NodeId, fields: seq<FieldDesc>)
    requires Extends(a, b, n, fields) && Extends(b, c, n, fields)
    ensures Extends(a, c, n, fields)
  {
    assert c[..|a|] == c[..|b|][..|a|];
    forall k | 0 <= k < |c[|a|..]| ensures c[|a|..][k].instance == n && c[|a|..][k].field in fields {
      if k < |b| - |a| {
        assert c[|a|..][k] == b[|a|..][k];
      } else {
        assert c[|a|..][k] == c[|b|..][k - (|b| - |a|)];
      }
    }
  }

  /* ---------------- round trip ---------------- */

  /** The changes reading `slots` into `cur` records from field `j` on: one per value field that differs. */
  function Diffs(n: NodeId, fields: seq<FieldDesc>, cur: seq<SlotValue>, slots: seq<SlotValue>, j: nat): (r: seq<Change>)
    requires |cur| == |slots| == |fields| && j <= |fields|
    ensures ChangesOf(r, n, fields)
    ensures (forall k :: j <= k < |fields| && IsValueShape(fields[k].shape) ==> cur[k] == slots[k]) ==> r == []
    decreases |fields| - j
  {
    if j == |fields| then []
    else
      (if IsValueShape(fields[j].shape) && cur[j] != slots[j] then [Changed(n, fields[j])] else [])
      + Diffs(n, fields, cur, slots, j + 1)
  }

  /**
   * The slots after reading back the entries written for fields `j ..` of `slots` into `cur`: each
   * value field from `j` on takes the written value, every other slot keeps its own.
   */
  function Restored(fields: seq<FieldDesc>, cur: seq<SlotValue>, slots: seq<SlotValue>, j: nat): (r: seq<SlotValue>)
    requires |cur| == |slots| == |fields| && j <= |fields|
    ensures |r| == |cur|
    ensures forall k :: 0 <= k < |cur| ==> r[k] == (if j <= k && IsValueShape(fields[k].shape) then slots[k] else cur[k])
    decreases |fields| - j
  {
    if j == |fields| then cur
    else Restored(fields, if IsValueShape(fields[j].shape) then cur[j := slots[j]] else cur, slots, j + 1)
  }

  /** The log after field `j`, followed by the changes from `j + 1` on, is the log followed by the changes from `j` on. */
  lemma DiffsStep(n: NodeId, fields: seq<FieldDesc>, cur: seq<SlotValue>, slots: seq<SlotValue>, j: nat, log: seq<Change>)
    requires |cur| == |slots| == |fields| && j < |fields|
    ensures var step := if IsValueShape(fields[j].shape) && cur[j] != slots[j] then [Changed(n, fields[j])] else [];
            log + step + Diffs(n, fields, cur, slots, j + 1) == log + Diffs(n, fields, cur, slots, j)
  {
  }

  /** Diffs from `j` on looks only at slots `j ..`. */
  lemma {:induction false} DiffsFrom(n: NodeId, fields: seq<FieldDesc>, a: seq<SlotValue>, b: seq<SlotValue>,
                                     slots: seq<SlotValue>, j: nat)
    requires |a| == |b| == |slots| == |fields| && j <= |fields|
    requires forall k :: j <= k < |fields| ==> a[k] == b[k]
    ensures Diffs(n, fields, a, slots, j) == Diffs(n, fields, b, slots, j)
    decreases |fields| - j
  {
    if j < |fields| {
      DiffsFrom(n, fields, a, b, slots, j + 1);
    }
  }

  /** Reading back what a value slot wrote gives the slot back, and a change exactly when it differs from the seed. */
  lemma ReadSlotWritten(shape: Shape, v: SlotValue, prev: SlotValue, rest: D.Cursor)
    requires IsValueShape(shape) && Conforms(shape, v) && Conforms(shape, prev)
    requires shape.MapField? ==> Sorted(v.entries)
    ensures ReadSlot(shape, SlotTokens(v, []) + rest, prev) == (v, v != prev)
  {
    match shape
    case ScalarField(t) => S.RoundTrip(v.v, t, rest, prev.v);
    case ArrayField(t) => C.ArrayRoundTrip(t, v.items, rest, prev.items);
    case MapField(t) =>
      C.MapRoundTrip(t, v.entries, rest, prev.entries);
      SortOfSorted(v.entries);
  }

  /**
   * The entries DataSerialize wrote for fields `j ..` of `slots`, read into slots `cur`: every value
   * field from `j` on takes its written value, every other slot keeps its own, one change is
   * recorded per value field that differed, and the cursor is left where the entries end.
   */
  lemma {:induction false} ReadWrittenFields(n: NodeId, fields: seq<FieldDesc>, slots: seq<SlotValue>,
                                             nested: seq<seq<Token>>, j: nat, cur: seq<SlotValue>,
                                             log: seq<Change>, rest: D.Cursor)
    requires |slots| == |fields| == |nested| == |cur| && j <= |fields|
    requires UniqueNames(fields) && SlotsConform(fields, slots) && SlotsConform(fields, cur) && MapsSorted(fields, slots)
    requires forall k :: j <= k < |fields| && !IsValueShape(fields[k].shape) ==> IsGroup(nested[k])
    requires D.ReadKey(rest).None?
    ensures ReadFields(n, fields, cur, log, FieldsTokens(fields, slots, nested, j) + rest)
            == (Restored(fields, cur, slots, j), log + Diffs(n, fields, cur, slots, j), rest)
    decreases |fields| - j
  {
    if j == |fields| {
      ReadWrittenEnd(n, fields, slots, nested, cur, log, rest);
    } else {
      var cur1 := if IsValueShape(fields[j].shape) then cur[j := slots[j]] else cur;
      var log1 := log + (if IsValueShape(fields[j].shape) && cur[j] != slots[j] then [Changed(n, fields[j])] else []);
      assert SlotsConform(fields, cur1);
      ReadWrittenFields(n, fields, slots, nested, j + 1, cur1, log1, rest);
      ReadWrittenCombine(n, fields, slots, nested, j, cur, log, rest);
    }
  }

  /**
   * Field `j` read back, followed by the reading of fields `j + 1 ..` (the induction step of
   * ReadWrittenFields, taken as a requirement), is the reading of fields `j ..`.
   */
  lemma ReadWrittenCombine(n: NodeId, fields: seq<FieldDesc>, slots: seq<SlotValue>, nested: seq<seq<Token>>,
                           j: nat, cur: seq<SlotValue>, log: seq<Change>, rest: D.Cursor)
    requires |slots| == |fields| == |nested| == |cur| && j < |fields|
    requires UniqueNames(fields) && SlotsConform(fields, slots) && SlotsConform(fields, cur) && MapsSorted(fields, slots)
    requires !IsValueShape(fields[j].shape) ==> IsGroup(nested[j])
    requires var cur1 := if IsValueShape(fields[j].shape) then cur[j := slots[j]] else cur;
             var log1 := log + (if IsValueShape(fields[j].shape) && cur[j] != slots[j] then [Changed(n, fields[j])] else []);
             && SlotsConform(fields, cur1)
             && ReadFields(n, fields, cur1, log1, FieldsTokens(fields, slots, nested, j + 1) + rest)
                == (Restored(fields, cur1, slots, j + 1), log1 + Diffs(n, fields, cur1, slots, j + 1), rest)
    ensures ReadFields(n, fields, cur, log, FieldsTokens(fields, slots, nested, j) + rest)
            == (Restored(fields, cur, slots, j), log + Diffs(n, fields, cur, slots, j), rest)
  {
    RestoredStep(n, fields, cur, slots, j, log);
    var cur1, log1 := ReadWrittenStep(n, fields, slots, nested, j, cur, log, rest);
  }

  /** Past the last field nothing more is read: the slots, the log and the cursor stay. */
  lemma ReadWrittenEnd(n: NodeId, fields: seq<FieldDesc>, slots: seq<SlotValue>, nested: seq<seq<Token>>,
                       cur: seq<SlotValue>, log: seq<Change>, rest: D.Cursor)
    requires |slots| == |fields| == |nested| == |cur| && SlotsConform(fields, cur) && D.ReadKey(rest).None?
    ensures ReadFields(n, fields, cur, log, FieldsTokens(fields, slots, nested, |fields|) + rest)
            == (Restored(fields, cur, slots, |fields|), log + Diffs(n, fields, cur, slots, |fields|), rest)
  {
    assert FieldsTokens(fields, slots, nested, |fields|) + rest == rest;
    assert log + [] == log;
  }

  /** Field `j` read back moves the reading on to field `j + 1`. */
  lemma ReadWrittenStep(n: NodeId, fields: seq<FieldDesc>, slots: seq<SlotValue>, nested: seq<seq<Token>>,
                        j: nat, cur: seq<SlotValue>, log: seq<Change>, rest: D.Cursor)
    returns (cur1: seq<SlotValue>, log1: seq<Change>)
    requires |slots| == |fields| == |nested| == |cur| && j < |fields|
    requires UniqueNames(fields) && SlotsConform(fields, slots) && SlotsConform(fields, cur) && MapsSorted(fields, slots)
    requires !IsValueShape(fields[j].shape) ==> IsGroup(nested[j])
    ensures cur1 == (if IsValueShape(fields[j].shape) then cur[j := slots[j]] else cur)
    ensures log1 == log + (if IsValueShape(fields[j].shape) && cur[j] != slots[j] then [Changed(n, fields[j])] else [])
    ensures |cur1| == |fields| && SlotsConform(fields, cur1)
    ensures ReadFields(n, fields, cur, log, FieldsTokens(fields, slots, nested, j) + rest)
            == ReadFields(n, fields, cur1, log1, FieldsTokens(fields, slots, nested, j + 1) + rest)
  {
    FieldsTokensSplit(fields, slots, nested, j, rest);
    cur1, log1 := ReadWrittenEntry(n, fields, slots, nested, j, cur, log, rest);
  }

  /** Restored and Diffs from `j` are field `j`'s own step followed by Restored and Diffs from `j + 1`. */
  lemma RestoredStep(n: NodeId, fields: seq<FieldDesc>, cur: seq<SlotValue>, slots: seq<SlotValue>, j: nat, log: seq<Change>)
    requires |cur| == |slots| == |fields| && j < |fields|
    ensures var cur1 := if IsValueShape(fields[j].shape) then cur[j := slots[j]] else cur;
            var log1 := log + (if IsValueShape(fields[j].shape) && cur[j] != slots[j] then [Changed(n, fields[j])] else []);
            && Restored(fields, cur, slots, j) == Restored(fields, cur1, slots, j + 1)
            && log1 + Diffs(n, fields, cur1, slots, j + 1) == log + Diffs(n, fields, cur, slots, j)
  {
    var cur1 := if IsValueShape(fields[j].shape) then cur[j := slots[j]] else cur;
    DiffsFrom(n, fields, cur1, cur, slots, j + 1);
    DiffsStep(n, fields, cur, slots, j, log);
  }

  /** The entries from field `j` on are field `j`'s entry followed by those from `j + 1` on. */
  lemma FieldsTokensSplit(fields: seq<FieldDesc>, slots: seq<SlotValue>, nested: seq<seq<Token>>, j: nat, rest: D.Cursor)
    requires |slots| == |fields| == |nested| && j < |fields|
    ensures FieldsTokens(fields, slots, nested, j) + rest
            == FieldTokens(fields[j], slots[j], nested[j]) + (FieldsTokens(fields, slots, nested, j + 1) + rest)
  {
  }

  /** One entry written by DataSerialize, read back: the field's own key selects it, and PopKey resumes after it. */
  lemma ReadWrittenEntry(n: NodeId, fields: seq<FieldDesc>, slots: seq<SlotValue>, nested: seq<seq<Token>>,
                         j: nat, cur: seq<SlotValue>, log: seq<Change>, rest: D.Cursor)
    returns (cur1: seq<SlotValue>, log1: seq<Change>)
    requires |slots| == |fields| == |nested| == |cur| && j < |fields|
    requires UniqueNames(fields) && SlotsConform(fields, slots) && SlotsConform(fields, cur) && MapsSorted(fields, slots)
    requires !IsValueShape(fields[j].shape) ==> IsGroup(nested[j])
    ensures var more := FieldsTokens(fields, slots, nested, j + 1) + rest;
            var c := FieldTokens(fields[j], slots[j], nested[j]) + more;
            && D.ReadKey(c) == Some(fields[j].name) && D.PopKey(c) == more
            && ReadEntry(n, fields, cur, log, fields[j].name, c[1..]) == (cur1, log1)
    ensures cur1 == (if IsValueShape(fields[j].shape) then cur[j := slots[j]] else cur)
    ensures log1 == log + (if IsValueShape(fields[j].shape) && cur[j] != slots[j] then [Changed(n, fields[j])] else [])
  {
    var more := FieldsTokens(fields, slots, nested, j + 1) + rest;
    var c := FieldTokens(fields[j], slots[j], nested[j]) + more;
    assert FieldIndex(fields, fields[j].name) == Some(j);
    if IsValueShape(fields[j].shape) {
      assert Conforms(fields[j].shape, slots[j]);
      EntryFraming(fields[j], slots[j], nested[j], more);
      assert SlotTokens(slots[j], nested[j]) == SlotTokens(slots[j], []);
      ReadSlotWritten(fields[j].shape, slots[j], cur[j], [PopKey(fields[j].name)] + more);
      assert ReadSlot(fields[j].shape, c[1..], cur[j]) == (slots[j], slots[j] != cur[j]);
      cur1 := cur[j := slots[j]];
      log1 := log + (if cur[j] != slots[j] then [Changed(n, fields[j])] else []);
      assert log + [] == log;
    } else {
      EntryFraming(fields[j], slots[j], nested[j], more);
      cur1, log1 := cur, log;
      assert log + [] == log;
    }
  }

  /** A written field entry opens with its key, holds the slot's tokens, and PopKey resumes right after it. */
  lemma EntryFraming(field: FieldDesc, v: SlotValue, nested: seq<Token>, more: D.Cursor)
    requires v.ScalarSlot? || v.ArraySlot? || v.MapSlot? || IsGroup(nested)
    ensures var c := FieldTokens(field, v, nested) + more;
            && D.ReadKey(c) == Some(field.name) && D.PopKey(c) == more
            && c[1..] == SlotTokens(v, nested) + ([PopKey(field.name)] + more)
  {
    var entry := FieldTokens(field, v, nested);
    FieldTokensIsGroup(field, v, nested);
    GroupSkip(entry, more);
    assert (entry + more)[0] == Key(field.name);
    assert (entry + more)[1..] == SlotTokens(v, nested) + ([PopKey(field.name)] + more);
  }

  /**
   * The round trip of DataSerialize and DataDeserialize: reading what was written for `slots`
   * into any slots of the same class restores every value field, leaves every owned slot as it
   * was, records a change for each value field that differed, and stops where the entries end.
   */
  lemma DataRoundTrip(n: NodeId, fields: seq<FieldDesc>, slots: seq<SlotValue>, nested: seq<seq<Token>>,
                      cur: seq<SlotValue>, log: seq<Change>, rest: D.Cursor)
    requires |slots| == |fields| == |nested| == |cur|
    requires UniqueNames(fields) && SlotsConform(fields, slots) && SlotsConform(fields, cur) && MapsSorted(fields, slots)
    requires forall k :: 0 <= k < |fields| && !IsValueShape(fields[k].shape) ==> IsGroup(nested[k])
    requires D.ReadKey(rest).None?
    ensures var r := ReadFields(n, fields, cur, log, FieldsTokens(fields, slots, nested, 0) + rest);
            && |r.0| == |fields| && r.2 == rest && r.1 == log + Diffs(n, fields, cur, slots, 0)
            && (forall k :: 0 <= k < |fields| && IsValueShape(fields[k].shape) ==> r.0[k] == slots[k])
            && (forall k :: 0 <= k < |fields| && !IsValueShape(fields[k].shape) ==> r.0[k] == cur[k])
  {
    ReadWrittenFields(n, fields, slots, nested, 0, cur, log, rest);
  }

  /** Reading back into a node what it wrote changes nothing and records no change. */
  lemma ReloadIsQuiet(n: NodeId, fields: seq<FieldDesc>, slots: seq<SlotValue>, nested: seq<seq<Token>>,
                      log: seq<Change>, rest: D.Cursor)
    requires |slots| == |fields| == |nested|
    requires UniqueNames(fields) && SlotsConform(fields, slots) && MapsSorted(fields, slots)
    requires forall k :: 0 <= k < |fields| && !IsValueShape(fields[k].shape) ==> IsGroup(nested[k])
    requires D.ReadKey(rest).None?
    ensures ReadFields(n, fields, slots, log, FieldsTokens(fields, slots, nested, 0) + rest) == (slots, log, rest)
  {
    ReadWrittenFields(n, fields, slots, nested, 0, slots, log, rest);
    var r := ReadFields(n, fields, slots, log, FieldsTokens(fields, slots, nested, 0) + rest);
    assert r.0 == slots;
    assert log + [] == log;
  }

  /** An entry under a key no field has is skipped whole: its value is not read and nothing changes. */
  lemma SkipUnknownKey(n: NodeId, fields: seq<FieldDesc>, slots: seq<SlotValue>, log: seq<Change>,
                       k: string, body: seq<Token>, c: D.Cursor)
    requires |slots| == |fields| && SlotsConform(fields, slots)
    requires FieldIndex(fields, k).None? && Balanced(body)
    ensures ReadFields(n, fields, slots, log, [Key(k)] + body + [PopKey(k)] + c) == ReadFields(n, fields, slots, log, c)
  {
    var entry := [Key(k)] + body + [PopKey(k)];
    Wrap(Key(k), body, PopKey(k));
    GroupSkip(entry, c);
    assert (entry + c)[0] == Key(k);
  }
}
