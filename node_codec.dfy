/**
 * UPsData::DataSerialize and UPsData::DataDeserialize on a node of the forest, with the
 * Deserialize of the value-holding FDataProperty specialisations, proved against the node
 * format of module NodeFormat.
 */
module NodeCodec {
  import opened Tokens
  import D = Deserializer
  import S = Scalars
  import C = Containers
  import opened DataModel
  import opened ForestModel
  import opened Forest
  import opened Properties
  import opened Comparators
  import opened NodeFormat

  /**
   * UPsData::DataSerialize: the range-for over the class's fields, each written as WriteKey,
   * the slot, PopKey. `nested` stands for what each owned slot writes.
   */
  method DataSerialize(f: DataForest, n: NodeId, nested: seq<seq<Token>>) returns (out: seq<Token>)
    requires f.Valid() && n in f.nodes && |nested| == |f.registry[f.nodes[n].cls]|
    ensures |f.nodes[n].slots| == |f.registry[f.nodes[n].cls]|
    ensures out == FieldsTokens(f.registry[f.nodes[n].cls], f.nodes[n].slots, nested, 0)
  {
    out := SerializeFields(f.registry[f.nodes[n].cls], f.nodes[n].slots, nested);
  }

  /**
   * FAbstractDataProperty::Deserialize of a value slot: reads with the held value as seed and
   * passes the result to the slot's Set, which stores it and records a change only when it differs.
   */
  method DeserializeSlot(f: DataForest, n: NodeId, i: nat, c: D.Cursor)
    requires f.Valid() && IsSlot(f, n, i) && IsValueShape(FieldOf(f, n, i).shape)
    modifies f`nodes, f`changes
    ensures old(Conforms(FieldOf(f, n, i).shape, f.nodes[n].slots[i]))
    ensures f.Valid()
    ensures var r := old(ReadSlot(FieldOf(f, n, i).shape, c, f.nodes[n].slots[i]));
            && f.nodes == WithSlot(old(f.nodes), n, i, r.0)
            && f.changes == old(f.changes) + (if r.1 then [Changed(n, old(FieldOf(f, n, i)))] else [])
  {
    var field := FieldOf(f, n, i);
    var prev := f.nodes[n].slots[i];
    assert Conforms(field.shape, prev);
    WithSlotSame(f.nodes, n, i);
    match field.shape
    case ScalarField(t) =>
      var v := S.Deserialize(t, c, prev.v);
      SetScalar(f, n, i, v);
    case ArrayField(t) =>
      var items, _ := C.DeserializeArray(t, c, prev.items);
      assert ArraysEqual(prev.items, items) <==> prev.items == items;
      SetArray(f, n, i, items);
    case MapField(t) =>
      var es, _ := C.DeserializeMap(t, c, prev.entries);
      assert MapsEqual(prev.entries, es) <==> prev.entries == es;
      SetMap(f, n, i, es);
  }

  /**
   * UPsData::DataDeserialize: while a key can be read, a known value field's slot deserializes
   * from the key's value, and the key is popped. Only the slots of `n` and the change log change.
   */
  method DataDeserialize(f: DataForest, n: NodeId, c: D.Cursor) returns (rest: D.Cursor)
    requires f.Valid() && n in f.nodes
    modifies f`nodes, f`changes
    ensures old(|f.nodes[n].slots| == |f.registry[f.nodes[n].cls]|
                && SlotsConform(f.registry[f.nodes[n].cls], f.nodes[n].slots))
    ensures f.Valid()
    ensures var r := old(ReadFields(n, f.registry[f.nodes[n].cls], f.nodes[n].slots, f.changes, c));
            && f.nodes == old(f.nodes)[n := old(f.nodes[n]).(slots := r.0)]
            && f.changes == r.1 && rest == r.2
  {
    var fields := f.registry[f.nodes[n].cls];
    ghost var nodes0 := f.nodes;
    NodeConforms(f, n);
    ghost var r := ReadFields(n, fields, f.nodes[n].slots, f.changes, c);
    rest := c;
    while D.ReadKey(rest).Some?
      invariant f.Valid() && n in f.nodes && f.nodes == Reslot(nodes0, n, f.nodes[n].slots)
      invariant ReadFields(n, fields, f.nodes[n].slots, f.changes, rest) == r
      decreases |rest|
    {
      NodeConforms(f, n);
      ReadFieldsStep(n, fields, f.nodes[n].slots, f.changes, rest);
      ghost var slots0 := f.nodes[n].slots;
      DeserializeEntry(f, n, D.ReadKey(rest).value, rest[1..]);
      ReslotTwice(nodes0, n, slots0, f.nodes[n].slots);
      rest := D.PopKey(rest);
    }
  }

  /** One turn of the DataDeserialize loop: the slot of a known value field deserializes; any other key is left alone. */
  method DeserializeEntry(f: DataForest, n: NodeId, k: string, c: D.Cursor)
    requires f.Valid() && n in f.nodes
    modifies f`nodes, f`changes
    ensures old(|f.nodes[n].slots| == |f.registry[f.nodes[n].cls]|
                && SlotsConform(f.registry[f.nodes[n].cls], f.nodes[n].slots))
    ensures f.Valid()
    ensures var e := old(ReadEntry(n, f.registry[f.nodes[n].cls], f.nodes[n].slots, f.changes, k, c));
            && f.nodes == Reslot(old(f.nodes), n, e.0)
            && f.changes == e.1
  {
    var fields := f.registry[f.nodes[n].cls];
    var i := FieldIndex(fields, k);
    if i.Some? && IsValueShape(fields[i.value].shape) {
      DeserializeSlot(f, n, i.value, c);
    } else {
      assert f.nodes[n].(slots := f.nodes[n].slots) == f.nodes[n];
    }
  }

  /** `nodes` with the slots of `n` replaced by `slots`. */
  ghost function Reslot(nodes: Nodes, n: NodeId, slots: seq<SlotValue>): Nodes
    requires n in nodes
  {
    nodes[n := nodes[n].(slots := slots)]
  }

  lemma ReslotTwice(nodes: Nodes, n: NodeId, s1: seq<SlotValue>, s2: seq<SlotValue>)
    requires n in nodes
    ensures Reslot(Reslot(nodes, n, s1), n, s2) == Reslot(nodes, n, s2)
  {
  }

  /** In a valid forest a node's slots fit its class's fields. */
  lemma NodeConforms(f: DataForest, n: NodeId)
    requires f.Valid() && n in f.nodes
    ensures |f.nodes[n].slots| == |f.registry[f.nodes[n].cls]|
    ensures SlotsConform(f.registry[f.nodes[n].cls], f.nodes[n].slots)
  {
  }
}
