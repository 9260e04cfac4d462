/**
 * FAbstractDataProperty::Reset of the six slot shapes, and UPsData::Reset, which resets every
 * slot of a node in registry order. A value slot is reset by a Set of the empty or default
 * value; an owned slot by a Set of null or of the empty collection, except a strict owned node,
 * which is given a freshly allocated child.
 */
module PropertyReset {
  import opened Options
  import opened DataModel
  import opened ForestModel
  import opened SlotModel
  import OrderedMaps
  import opened Forest
  import opened Properties
  import S = Scalars

  /** The slot has the form Reset leaves: the initial value, or a held node for a strict owned node. */
  predicate Cleared(shape: Shape, v: SlotValue)
  {
    if shape.NodeField? && shape.strict then v.NodeSlot? && v.node.Some? else v == InitialSlot(shape)
  }

  /** Only slot `i` of `n` differs between the two node maps, and it has the form Reset leaves. */
  ghost predicate SlotOnly(nodes0: Nodes, nodes1: Nodes, n: NodeId, i: nat, shape: Shape)
    requires n in nodes0 && i < |nodes0[n].slots|
  {
    && n in nodes1 && nodes1[n].cls == nodes0[n].cls && |nodes1[n].slots| == |nodes0[n].slots|
    && nodes1[n].slots == nodes0[n].slots[i := nodes1[n].slots[i]]
    && Cleared(shape, nodes1[n].slots[i])
  }

  /** The change a Reset of slot `i` records: none when the slot already held `v`. */
  function ResetChange(slot: SlotValue, v: SlotValue, n: NodeId, field: FieldDesc): (r: seq<Change>)
    ensures r == [] <==> slot == v
    ensures |r| <= 1
  {
    if slot == v then [] else [Changed(n, field)]
  }

  /** FDataProperty<T>::Reset: a Set of the type's default value. */
  method ResetScalar(f: DataForest, n: NodeId, i: nat)
    requires f.Valid() && IsSlot(f, n, i) && FieldOf(f, n, i).shape.ScalarField?
    modifies f`nodes, f`changes
    ensures f.Valid()
    ensures f.nodes == WithSlot(old(f.nodes), n, i, InitialSlot(old(FieldOf(f, n, i)).shape))
    ensures f.changes == old(f.changes) + ResetChange(old(f.nodes[n].slots[i]), InitialSlot(old(FieldOf(f, n, i)).shape), n, old(FieldOf(f, n, i)))
    ensures SlotOnly(old(f.nodes), f.nodes, n, i, old(FieldOf(f, n, i)).shape)
  {
    var field := FieldOf(f, n, i);
    ghost var nodes0 := f.nodes;
    SetScalar(f, n, i, S.Default(field.shape.t));
    if nodes0[n].slots[i] == InitialSlot(field.shape) {
      WithSlotSame(nodes0, n, i);
    }
  }

  /** FDataProperty<TArray<T>>::Reset: a Set of the empty array. */
  method ResetArray(f: DataForest, n: NodeId, i: nat)
    requires f.Valid() && IsSlot(f, n, i) && FieldOf(f, n, i).shape.ArrayField?
    modifies f`nodes, f`changes
    ensures f.Valid()
    ensures f.nodes == WithSlot(old(f.nodes), n, i, ArraySlot([]))
    ensures f.changes == old(f.changes) + ResetChange(old(f.nodes[n].slots[i]), ArraySlot([]), n, old(FieldOf(f, n, i)))
    ensures SlotOnly(old(f.nodes), f.nodes, n, i, old(FieldOf(f, n, i)).shape)
  {
    ghost var nodes0 := f.nodes;
    assert f.nodes[n].slots[i].ArraySlot?;
    SetArray(f, n, i, []);
    if nodes0[n].slots[i] == ArraySlot([]) {
      WithSlotSame(nodes0, n, i);
    }
  }

  /** FDataProperty<TMap<FString, T>>::Reset: a Set of the empty map. */
  method ResetMap(f: DataForest, n: NodeId, i: nat)
    requires f.Valid() && IsSlot(f, n, i) && FieldOf(f, n, i).shape.MapField?
    modifies f`nodes, f`changes
    ensures f.Valid()
    ensures f.nodes == WithSlot(old(f.nodes), n, i, MapSlot([]))
    ensures f.changes == old(f.changes) + ResetChange(old(f.nodes[n].slots[i]), MapSlot([]), n, old(FieldOf(f, n, i)))
    ensures SlotOnly(old(f.nodes), f.nodes, n, i, old(FieldOf(f, n, i)).shape)
  {
    ghost var nodes0 := f.nodes;
    assert f.nodes[n].slots[i].MapSlot?;
    SetMap(f, n, i, []);
    if nodes0[n].slots[i] == MapSlot([]) {
      WithSlotSame(nodes0, n, i);
    }
  }

  /**
   * FDataProperty<T*>::Reset: a strict field allocates a fresh node of the field's class and
   * Sets it, so the old child is detached and the fresh one attached under the field's name;
   * any other field Sets null.
   */
  method ResetNode(f: DataForest, n: NodeId, i: nat)
    requires f.Valid() && IsSlot(f, n, i) && FieldOf(f, n, i).shape.NodeField?
    modifies f`nodes, f`tables, f`nextId, f`rank, f`rankBound, f`changes
    ensures old(f.nodes[n].slots[i].NodeSlot?)
    ensures old(f.nodes[n].slots[i].node.Some? ==> f.nodes[n].slots[i].node.value in f.nodes)
    ensures f.Valid()
    ensures !old(FieldOf(f, n, i)).shape.strict ==>
              && (old(f.nodes[n].slots[i]) == NodeSlot(None) ==> f.nodes == old(f.nodes) && f.changes == old(f.changes))
              && (old(f.nodes[n].slots[i]) != NodeSlot(None) ==>
                    f.nodes == NodeSwap(old(f.nodes), n, i, None, old(FieldOf(f, n, i)).name)
                    && f.changes == old(f.changes) + [Changed(n, old(FieldOf(f, n, i)))])
    ensures old(FieldOf(f, n, i)).shape.strict ==>
              && n in f.nodes && i < |f.nodes[n].slots| && f.nodes[n].slots[i].NodeSlot? && f.nodes[n].slots[i].node.Some?
              && var x := f.nodes[n].slots[i].node.value;
                 && x !in old(f.nodes)
                 && f.nodes == NodeSwap(old(f.nodes)[x := Fresh(f.registry, old(FieldOf(f, n, i)).shape.cls)], n, i, Some(x),
                                        old(FieldOf(f, n, i)).name)
                 && f.changes == old(f.changes) + [Changed(n, old(FieldOf(f, n, i)))]
    ensures SlotOnly(old(f.nodes), f.nodes, n, i, old(FieldOf(f, n, i)).shape)
  {
    var field := FieldOf(f, n, i);
    assert Held(f.nodes[n].slots[i]) == (if f.nodes[n].slots[i].node.Some? then [f.nodes[n].slots[i].node.value] else []);
    if field.shape.strict {
      var _ := AllocateSlot(f, n, i, field);
    } else {
      SetNode(f, n, i, None);
    }
  }

  /**
   * FDataProperty<T*>::Allocate: a fresh node of the field's class, Set into the slot; the node
   * it held is detached and the fresh one attached under the field's name.
   */
  method AllocateSlot(f: DataForest, n: NodeId, i: nat, field: FieldDesc) returns (x: NodeId)
    requires f.Valid() && IsSlot(f, n, i) && field == FieldOf(f, n, i) && field.shape.NodeField?
    requires f.nodes[n].slots[i].NodeSlot?
    requires f.nodes[n].slots[i].node.Some? ==> f.nodes[n].slots[i].node.value in f.nodes
    modifies f`nodes, f`tables, f`nextId, f`rank, f`rankBound, f`changes
    ensures f.Valid()
    ensures x !in old(f.nodes) && n in f.nodes && i < |f.nodes[n].slots| && f.nodes[n].slots[i] == NodeSlot(Some(x))
    ensures f.nodes == NodeSwap(old(f.nodes)[x := Fresh(f.registry, field.shape.cls)], n, i, Some(x), field.name)
    ensures f.changes == old(f.changes) + [Changed(n, field)]
  {
    assert DataClass(field.shape).Some?;
    x := f.Allocate(field.shape.cls);
    SetFresh(f, n, i, x, field);
  }

  /** The Set of a node that is not yet in the tree below `n`, which is therefore a change. */
  method SetFresh(f: DataForest, n: NodeId, i: nat, x: NodeId, field: FieldDesc)
    requires f.Valid() && IsSlot(f, n, i) && field == FieldOf(f, n, i) && field.shape.NodeField?
    requires f.nodes[n].slots[i].NodeSlot? && f.nodes[n].slots[i].node != Some(x)
    requires x in f.nodes && f.nodes[x].parent.None? && !Under(f.nodes, f.rank, n, x)
    modifies f`nodes, f`tables, f`rank, f`rankBound, f`changes
    ensures f.Valid()
    ensures n in f.nodes && i < |f.nodes[n].slots| && f.nodes[n].slots[i] == NodeSlot(Some(x))
    ensures old(f.nodes[n].slots[i].node.Some? ==> f.nodes[n].slots[i].node.value in f.nodes)
    ensures f.nodes == NodeSwap(old(f.nodes), n, i, Some(x), field.name)
    ensures f.changes == old(f.changes) + [Changed(n, field)]
  {
    NodeSwapEffect(f.nodes, f.rank, n, i, Some(x), field.name);
    SetNode(f, n, i, Some(x));
  }

  /** FDataProperty<TArray<T*>>::Reset: a Set of the empty array, which detaches every element. */
  method ResetNodeArray(f: DataForest, n: NodeId, i: nat)
    requires f.Valid() && IsSlot(f, n, i) && FieldOf(f, n, i).shape.NodeArrayField?
    modifies f`nodes, f`tables, f`rank, f`rankBound, f`changes
    ensures old(f.nodes[n].slots[i].NodeArraySlot?)
    ensures old(forall y :: y in f.nodes[n].slots[i].nodes ==> y in f.nodes)
    ensures f.Valid()
    ensures old(f.nodes[n].slots[i].nodes) == [] ==> f.nodes == old(f.nodes) && f.changes == old(f.changes)
    ensures old(f.nodes[n].slots[i].nodes) != [] ==>
              && f.nodes == ArraySwap(old(f.nodes), n, i, [], old(FieldOf(f, n, i)).name)
              && f.changes == old(f.changes) + [Changed(n, old(FieldOf(f, n, i)))]
    ensures SlotOnly(old(f.nodes), f.nodes, n, i, old(FieldOf(f, n, i)).shape)
  {
    ArraySwapOwned(f.registry, f.rank, f.nodes, n, i, [], FieldOf(f, n, i).name);
    ghost var olds := f.nodes[n].slots[i].nodes;
    if olds != [] {
      assert olds[0] in olds && olds[0] !in [];
    }
    SetNodeArray(f, n, i, []);
  }

  /** FDataProperty<TMap<FString, T*>>::Reset: a Set of the empty map, which detaches every value. */
  method ResetNodeMap(f: DataForest, n: NodeId, i: nat)
    requires f.Valid() && IsSlot(f, n, i) && FieldOf(f, n, i).shape.NodeMapField?
    modifies f`nodes, f`tables, f`rank, f`rankBound, f`changes
    ensures old(f.nodes[n].slots[i].NodeMapSlot?)
    ensures old(forall y :: y in Values(f.nodes[n].slots[i].children) ==> y in f.nodes)
    ensures f.Valid()
    ensures old(f.nodes[n].slots[i].children) == [] ==> f.nodes == old(f.nodes) && f.changes == old(f.changes)
    ensures old(f.nodes[n].slots[i].children) != [] ==>
              && f.nodes == MapSwap(old(f.nodes), n, i, [], old(FieldOf(f, n, i)).name)
              && f.changes == old(f.changes) + [Changed(n, old(FieldOf(f, n, i)))]
    ensures SlotOnly(old(f.nodes), f.nodes, n, i, old(FieldOf(f, n, i)).shape)
  {
    var field := FieldOf(f, n, i);
    ghost var nodes0 := f.nodes;
    MapResetChanged(f.nodes, n, i);
    SetNodeMap(f, n, i, []);
    MapResetSlot(nodes0, f.nodes, n, i, field.name, field.shape);
  }

  /** The owned-map Set to the empty map changes something exactly when the map held entries. */
  lemma MapResetChanged(nodes: Nodes, n: NodeId, i: nat)
    requires n in nodes && i < |nodes[n].slots| && nodes[n].slots[i].NodeMapSlot?
    ensures Values<NodeId>([]) == [] && AllIn(nodes, [])
    ensures MapChanged(nodes, n, nodes[n].slots[i].children, []) <==> nodes[n].slots[i].children != []
  {
    var olds := nodes[n].slots[i].children;
    assert Values<NodeId>([]) == [];
    if olds != [] {
      assert OrderedMaps.Find<NodeId>([], olds[0].key).None?;
    }
  }

  /** The owned-map Set to the empty map, or no change when it was empty, touches slot `i` alone and clears it. */
  lemma MapResetSlot(nodes0: Nodes, nodes1: Nodes, n: NodeId, i: nat, name: string, shape: Shape)
    requires n in nodes0 && i < |nodes0[n].slots| && nodes0[n].slots[i].NodeMapSlot? && shape.NodeMapField?
    requires forall y :: y in Values(nodes0[n].slots[i].children) ==> y in nodes0
    requires nodes0[n].slots[i].children == [] ==> nodes1 == nodes0
    requires nodes0[n].slots[i].children != [] ==> AllIn(nodes0, []) && nodes1 == MapSwap(nodes0, n, i, [], name)
    ensures SlotOnly(nodes0, nodes1, n, i, shape)
  {
    var olds := nodes0[n].slots[i].children;
    if olds != [] {
      var drop := KeyDrops(olds, []);
      assert Held(nodes0[n].slots[i]) == Values(olds) && |drop| == |olds|;
      assert nodes1 == Swap(nodes0, n, i, NodeMapSlot([]), [], name, drop);
      SwapShape(nodes0, n, i, NodeMapSlot([]), [], name, drop);
      assert nodes1[n].slots[i] == InitialSlot(shape);
    }
  }

  /** FAbstractDataProperty::Reset, dispatched on the field's shape. Only slot `i` of `n` changes. */
  method ResetSlot(f: DataForest, n: NodeId, i: nat)
    requires f.Valid() && IsSlot(f, n, i)
    modifies f`nodes, f`tables, f`nextId, f`rank, f`rankBound, f`changes
    ensures f.Valid()
    ensures SlotOnly(old(f.nodes), f.nodes, n, i, old(FieldOf(f, n, i)).shape)
    ensures f.changes == old(f.changes) || f.changes == old(f.changes) + [Changed(n, old(FieldOf(f, n, i)))]
  {
    match FieldOf(f, n, i).shape
    case ScalarField(_) => ResetScalar(f, n, i);
    case ArrayField(_) => ResetArray(f, n, i);
    case MapField(_) => ResetMap(f, n, i);
    case NodeField(_, _) => ResetNode(f, n, i);
    case NodeArrayField(_) => ResetNodeArray(f, n, i);
    case NodeMapField(_) => ResetNodeMap(f, n, i);
  }

  /** Slots `0 .. j` of `slots` have the form Reset leaves, against `fields`. */
  ghost predicate ClearedUpTo(fields: seq<FieldDesc>, slots: seq<SlotValue>, j: nat)
    requires j <= |fields| == |slots|
  {
    forall k :: 0 <= k < j ==> Cleared(fields[k].shape, slots[k])
  }

  /**
   * UPsData::Reset: every slot of the node is reset, in registry order. Afterwards each slot has
   * the form Reset leaves, and every change recorded is a change of one of the node's fields.
   */
  method ResetData(f: DataForest, n: NodeId)
    requires f.Valid() && n in f.nodes
    modifies f`nodes, f`tables, f`nextId, f`rank, f`rankBound, f`changes
    ensures f.Valid() && n in f.nodes && f.nodes[n].cls == old(f.nodes[n].cls)
    ensures |f.nodes[n].slots| == |f.registry[f.nodes[n].cls]|
    ensures forall j :: 0 <= j < |f.nodes[n].slots| ==> Cleared(f.registry[f.nodes[n].cls][j].shape, f.nodes[n].slots[j])
    ensures |old(f.changes)| <= |f.changes| && f.changes[..|old(f.changes)|] == old(f.changes)
    ensures forall k :: |old(f.changes)| <= k < |f.changes| ==>
              f.changes[k].instance == n && f.changes[k].field in f.registry[f.nodes[n].cls]
  {
    var fields := f.registry[f.nodes[n].cls];
    ghost var changes0 := f.changes;
    ghost var added: seq<Change> := [];
    var j := 0;
    while j < |fields|
      invariant 0 <= j <= |fields|
      invariant f.Valid() && n in f.nodes && f.nodes[n].cls == old(f.nodes[n].cls)
      invariant |f.nodes[n].slots| == |fields|
      invariant ClearedUpTo(fields, f.nodes[n].slots, j)
      invariant f.changes == changes0 + added && ChangesOf(added, n, fields)
    {
      ghost var before := f.nodes[n].slots;
      assert FieldOf(f, n, j) == fields[j];
      ResetSlot(f, n, j);
      added := LogStep(changes0, added, f.changes, Changed(n, fields[j]), n, fields);
      ResetStep(fields, before, f.nodes[n].slots, j);
      j := j + 1;
    }
    assert f.changes[..|changes0|] == changes0;
  }

  /** One more change of a field of `n`, or none, keeps the log a list of such changes. */
  lemma LogStep(changes0: seq<Change>, added: seq<Change>, changes1: seq<Change>, ch: Change, n: NodeId, fields: seq<FieldDesc>)
    returns (added1: seq<Change>)
    requires ChangesOf(added, n, fields) && ch.instance == n && ch.field in fields
    requires changes1 == changes0 + added || changes1 == changes0 + added + [ch]
    ensures changes1 == changes0 + added1 && ChangesOf(added1, n, fields)
  {
    if changes1 == changes0 + added {
      added1 := added;
    } else {
      added1 := added + [ch];
      assert changes1 == changes0 + added1;
    }
  }

  /** Resetting slot `j` after slots `0 .. j` keeps them, and clears slot `j`. */
  lemma ResetStep(fields: seq<FieldDesc>, before: seq<SlotValue>, after: seq<SlotValue>, j: nat)
    requires j < |fields| == |before| == |after|
    requires ClearedUpTo(fields, before, j)
    requires after == before[j := after[j]] && Cleared(fields[j].shape, after[j])
    ensures ClearedUpTo(fields, after, j + 1)
  {
  }
}
