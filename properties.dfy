/**
 * The change-detecting Set of the six FDataProperty specialisations, as in-place edits of one
 * slot of one node of a forest (Reset is in PropertyReset, Deserialize in NodeCodec).
 * FPsDataFriend::Changed appends to the forest's change log.
 */
module Properties {
  import opened Options
  import opened OrderedMaps
  import opened DataModel
  import opened ForestModel
  import opened SlotModel
  import opened Forest
  import opened Comparators
  import S = Scalars
  import C = Containers
  import D = Deserializer

  /** Slot `i` of node `n` is the slot of the i-th registered field of its class. */
  ghost predicate IsSlot(f: DataForest, n: NodeId, i: nat)
    reads f
  {
    n in f.nodes && f.nodes[n].cls in f.registry && i < |f.registry[f.nodes[n].cls]| && i < |f.nodes[n].slots|
  }

  /** The field that slot `i` of `n` stores. */
  function FieldOf(f: DataForest, n: NodeId, i: nat): FieldDesc
    reads f
    requires n in f.nodes && f.nodes[n].cls in f.registry && i < |f.registry[f.nodes[n].cls]|
  {
    f.registry[f.nodes[n].cls][i]
  }

  /**
   * FDataProperty<T>::Set: when the new value equals the held one nothing changes and no change
   * is recorded; otherwise the slot takes the new value and exactly one change is recorded.
   */
  method SetScalar(f: DataForest, n: NodeId, i: nat, v: S.Scalar)
    requires f.Valid() && IsSlot(f, n, i) && FieldOf(f, n, i).shape.ScalarField?
    requires S.HasType(v, FieldOf(f, n, i).shape.t)
    modifies f`nodes, f`changes
    ensures f.Valid()
    ensures old(f.nodes[n].slots[i]) == ScalarSlot(v) ==> f.nodes == old(f.nodes) && f.changes == old(f.changes)
    ensures old(f.nodes[n].slots[i]) != ScalarSlot(v) ==>
              f.nodes == WithSlot(old(f.nodes), n, i, ScalarSlot(v)) && f.changes == old(f.changes) + [Changed(n, FieldOf(f, n, i))]
  {
    if f.nodes[n].slots[i].v == v {
      return;
    }
    Store(f, n, i, ScalarSlot(v));
  }

  /** Stores a value that holds no node in a slot that holds none, and records the change. */
  method Store(f: DataForest, n: NodeId, i: nat, v: SlotValue)
    requires f.Valid() && IsSlot(f, n, i)
    requires Conforms(FieldOf(f, n, i).shape, v) && Held(v) == [] && Held(f.nodes[n].slots[i]) == []
    modifies f`nodes, f`changes
    ensures f.Valid()
    ensures f.nodes == WithSlot(old(f.nodes), n, i, v) && f.changes == old(f.changes) + [Changed(n, FieldOf(f, n, i))]
  {
    SlotKeepsLinks(f.nodes, f.tables, f.rank, f.rankBound, f.nextId, n, i, v);
    PlainSlotOwned(f.registry, f.nodes, n, i, v);
    f.changes := f.changes + [Changed(n, FieldOf(f, n, i))];
    f.nodes := WithSlot(f.nodes, n, i, v);
  }

  /** FDataProperty<TArray<T>>::Set: compared index by index. */
  method SetArray(f: DataForest, n: NodeId, i: nat, items: seq<S.Scalar>)
    requires f.Valid() && IsSlot(f, n, i) && FieldOf(f, n, i).shape.ArrayField?
    requires C.AllOfType(items, FieldOf(f, n, i).shape.t)
    modifies f`nodes, f`changes
    ensures f.Valid()
    ensures ArraysEqual(old(f.nodes[n].slots[i].items), items) ==> f.nodes == old(f.nodes) && f.changes == old(f.changes)
    ensures !ArraysEqual(old(f.nodes[n].slots[i].items), items) ==>
              f.nodes == WithSlot(old(f.nodes), n, i, ArraySlot(items)) && f.changes == old(f.changes) + [Changed(n, FieldOf(f, n, i))]
  {
    var same := CompareArrays(f.nodes[n].slots[i].items, items);
    if same {
      return;
    }
    Store(f, n, i, ArraySlot(items));
  }

  /**
   * FDataProperty<TMap<FString, T>>::Set: compared pair by pair in iteration order; a new value
   * is stored key-sorted, with the same pairs.
   */
  method SetMap(f: DataForest, n: NodeId, i: nat, es: seq<Entry<S.Scalar>>)
    requires f.Valid() && IsSlot(f, n, i) && FieldOf(f, n, i).shape.MapField?
    requires UniqueKeys(es) && C.AllValuesOfType(es, FieldOf(f, n, i).shape.t)
    modifies f`nodes, f`changes
    ensures f.Valid()
    ensures MapsEqual(old(f.nodes[n].slots[i].entries), es) ==> f.nodes == old(f.nodes) && f.changes == old(f.changes)
    ensures !MapsEqual(old(f.nodes[n].slots[i].entries), es) ==>
              && f.nodes == WithSlot(old(f.nodes), n, i, MapSlot(KeyStableSort(es)))
              && f.changes == old(f.changes) + [Changed(n, FieldOf(f, n, i))]
              && StrictlySorted(KeyStableSort(es)) && ToMap(KeyStableSort(es)) == ToMap(es)
  {
    var same := CompareMaps(f.nodes[n].slots[i].entries, es);
    if same {
      return;
    }
    var sorted := KeyStableSort(es);
    SortIsSorted(es);
    SortKeepsMap(es);
    SortedUniqueIsStrict(sorted);
    C.SortedTyped(es, FieldOf(f, n, i).shape.t);
    Store(f, n, i, MapSlot(sorted));
  }

  /**
   * FDataProperty<T*>::Set: the same pointer is a no-op; otherwise the held node is detached, the
   * slot takes the new one, which is named by the field and attached, and one change is recorded.
   */
  method SetNode(f: DataForest, n: NodeId, i: nat, v: Option<NodeId>)
    requires f.Valid() && IsSlot(f, n, i) && FieldOf(f, n, i).shape.NodeField?
    requires FieldOf(f, n, i).shape.strict ==> v.Some?
    requires v.Some? && v != f.nodes[n].slots[i].node ==>
               v.value in f.nodes && f.nodes[v.value].parent.None? && !Under(f.nodes, f.rank, n, v.value)
    modifies f`nodes, f`tables, f`rank, f`rankBound, f`changes
    ensures f.Valid()
    ensures old(f.nodes[n].slots[i]) == NodeSlot(v) ==>
              f.nodes == old(f.nodes) && f.tables == old(f.tables) && f.changes == old(f.changes)
    ensures old(f.nodes[n].slots[i]) != NodeSlot(v) ==>
              && old(f.nodes[n].slots[i].NodeSlot?)
              && (old(f.nodes[n].slots[i].node.Some?) ==> old(f.nodes[n].slots[i].node.value) in old(f.nodes))
              && f.nodes == NodeSwap(old(f.nodes), n, i, v, old(FieldOf(f, n, i)).name)
              && f.changes == old(f.changes) + [Changed(n, old(FieldOf(f, n, i)))]
    ensures KeptOffChain(old(f.nodes), old(f.rank), n, Listed(old(f.nodes[n].slots[i].node)) + Listed(v), old(f.tables), f.tables)
  {
    var field := FieldOf(f, n, i);
    var prev := f.nodes[n].slots[i].node;
    if prev == v {
      return;
    }
    NodeSwapOwned(f.registry, f.rank, f.nodes, n, i, v, field.name);
    f.changes := f.changes + [Changed(n, field)];
    Reseat(f, n, i, v, field.name);
  }

  /** The link edits of the owned-node Set: release the held node, store the new one, attach it. */
  method Reseat(f: DataForest, n: NodeId, i: nat, v: Option<NodeId>, fieldName: string)
    requires f.ValidLinks() && n in f.nodes && i < |f.nodes[n].slots| && f.nodes[n].slots[i].NodeSlot?
    requires var prev := f.nodes[n].slots[i].node;
             prev.Some? ==> prev.value in f.nodes && f.nodes[prev.value].parent == Some(n) && prev != v
    requires v.Some? ==> v.value in f.nodes && f.nodes[v.value].parent.None? && !Under(f.nodes, f.rank, n, v.value)
    modifies f`nodes, f`tables, f`rank, f`rankBound
    ensures f.ValidLinks()
    ensures f.nodes == NodeSwap(old(f.nodes), n, i, v, fieldName)
    ensures KeptOffChain(old(f.nodes), old(f.rank), n, Listed(old(f.nodes[n].slots[i].node)) + Listed(v), old(f.tables), f.tables)
  {
    ghost var target := NodeSwap(f.nodes, n, i, v, fieldName);
    ghost var nodes0, rank0, tables0 := f.nodes, f.rank, f.tables;
    var prev := f.nodes[n].slots[i].node;
    Release(f, n, prev);
    ghost var nodes1, tables1 := f.nodes, f.tables;
    Occupy(f, n, i, v, fieldName);
    KeptOffChainStep(nodes0, rank0, nodes1, rank0, n, Listed(prev), Listed(v), Listed(prev) + Listed(v), tables0, tables1, f.tables);
  }

  /** The second half of the owned-node Set: the slot takes `v`, which is named by the field and attached. */
  method Occupy(f: DataForest, n: NodeId, i: nat, v: Option<NodeId>, fieldName: string)
    requires f.ValidLinks() && n in f.nodes && i < |f.nodes[n].slots|
    requires v.Some? ==> v.value in f.nodes && f.nodes[v.value].parent.None? && !Under(f.nodes, f.rank, n, v.value)
    modifies f`nodes, f`tables, f`rank, f`rankBound
    ensures f.ValidLinks()
    ensures var stored := WithSlot(old(f.nodes), n, i, NodeSlot(v));
            f.nodes == if v.Some? then Adopt(stored, n, v.value, fieldName, "") else stored
    ensures KeptOffChain(old(f.nodes), old(f.rank), n, Listed(v), old(f.tables), f.tables)
  {
    ghost var nodes0 := f.nodes;
    SlotKeepsLinks(f.nodes, f.tables, f.rank, f.rankBound, f.nextId, n, i, NodeSlot(v));
    f.nodes := WithSlot(f.nodes, n, i, NodeSlot(v));
    if v.Some? {
      ghost var nodes1, rank1, tables1 := f.nodes, f.rank, f.tables;
      Place(f, n, v.value, fieldName, "");
      assert SameAncestors(nodes1, rank1, nodes0, rank1, n);
      KeptOffChainStep(nodes0, rank1, nodes1, rank1, n, [], [v.value], [v.value], tables1, tables1, f.tables);
    }
  }

  /** RemoveChild of the node a slot held, when it held one. */
  method Release(f: DataForest, n: NodeId, prev: Option<NodeId>)
    requires f.ValidLinks() && n in f.nodes
    requires prev.Some? ==> prev.value in f.nodes && f.nodes[prev.value].parent == Some(n)
    modifies f`nodes, f`tables
    ensures f.ValidLinks()
    ensures f.nodes == if prev.Some? then Unlink(old(f.nodes), n, prev.value) else old(f.nodes)
    ensures forall y :: Under(f.nodes, f.rank, n, y) == Under(old(f.nodes), f.rank, n, y)
    ensures KeptOffChain(old(f.nodes), f.rank, n, Listed(prev), old(f.tables), f.tables)
  {
    if prev.Some? {
      f.RemoveChild(n, prev.value);
    }
  }

  /** ChangeDataName then AddChild: how every owned Set attaches a node under its owner. */
  method Place(f: DataForest, n: NodeId, x: NodeId, name: string, collection: string)
    requires f.ValidLinks() && n in f.nodes && x in f.nodes
    requires f.nodes[x].parent.None? && !Under(f.nodes, f.rank, n, x)
    modifies f`nodes, f`tables, f`rank, f`rankBound
    ensures f.ValidLinks()
    ensures f.nodes == Adopt(old(f.nodes), n, x, name, collection)
    ensures forall y :: Under(f.nodes, f.rank, n, y) == Under(old(f.nodes), old(f.rank), n, y)
    ensures KeptOffChain(old(f.nodes), old(f.rank), n, [x], old(f.tables), f.tables)
  {
    ghost var nodes0, tables0 := f.nodes, f.tables;
    f.ChangeDataName(x, name, collection);
    assert KeptOffChain(nodes0, f.rank, n, [x], tables0, f.tables);
    ghost var nodes1, rank1, tables1 := f.nodes, f.rank, f.tables;
    f.AddChild(n, x);
    KeptOffChainStep(nodes0, rank1, nodes1, rank1, n, [x], [x], [x], tables0, tables1, f.tables);
  }

  /** The node an optional pointer names, as a sequence of at most one. */
  function Listed(o: Option<NodeId>): seq<NodeId>
  {
    if o.Some? then [o.value] else []
  }

  /**
   * The attach loop of the owned-collection Sets: every element that is not yet a child of `n` is
   * renamed to its key, with the field name as collection key, and added as a child; the flag says
   * whether any was.
   */
  method AttachAll(f: DataForest, n: NodeId, items: seq<Entry<NodeId>>, collection: string) returns (changed: bool)
    requires f.ValidLinks() && n in f.nodes && AllIn(f.nodes, items) && NoDup(Values(items))
    requires forall k :: 0 <= k < |items| ==>
               var x := items[k].value;
               f.nodes[x].parent == Some(n) || (f.nodes[x].parent.None? && !Under(f.nodes, f.rank, n, x))
    modifies f`nodes, f`tables, f`rank, f`rankBound
    ensures f.ValidLinks()
    ensures f.nodes == Attach(old(f.nodes), n, items, |items|, collection)
    ensures changed == exists k :: 0 <= k < |items| && old(f.nodes)[items[k].value].parent != Some(n)
    ensures !changed ==> f.nodes == old(f.nodes) && f.tables == old(f.tables) && f.rank == old(f.rank) && f.rankBound == old(f.rankBound)
    ensures SameAncestors(f.nodes, f.rank, old(f.nodes), old(f.rank), n)
    ensures KeptOffChain(old(f.nodes), old(f.rank), n, Values(items), old(f.tables), f.tables)
  {
    ghost var nodes0 := f.nodes;
    changed := AttachEach(f, n, items, collection);
    AdoptingIff(nodes0, n, items, |items|);
    if !changed {
      AttachIdle(nodes0, n, items, |items|, collection);
    }
  }

  /** The `for` loop of the attach: one AttachStep per element, the flag accumulated as Adopting. */
  /** Every element is already a child of `n`, or is unparented and not among n's ancestors. */
  ghost predicate Adoptables(nodes: Nodes, rank: map<NodeId, nat>, n: NodeId, items: seq<Entry<NodeId>>)
    requires Ranked(nodes, rank) && n in nodes && AllIn(nodes, items)
  {
    forall k :: 0 <= k < |items| ==>
      var x := items[k].value;
      nodes[x].parent == Some(n) || (nodes[x].parent.None? && !Under(nodes, rank, n, x))
  }

  method AttachEach(f: DataForest, n: NodeId, items: seq<Entry<NodeId>>, collection: string) returns (changed: bool)
    requires f.ValidLinks() && n in f.nodes && AllIn(f.nodes, items) && NoDup(Values(items))
    requires Adoptables(f.nodes, f.rank, n, items)
    modifies f`nodes, f`tables, f`rank, f`rankBound
    ensures f.ValidLinks()
    ensures f.nodes == Attach(old(f.nodes), n, items, |items|, collection)
    ensures changed == Adopting(old(f.nodes), n, items, |items|)
    ensures !changed ==> Untouched(f.tables, f.rank, f.rankBound, old(f.tables), old(f.rank), old(f.rankBound))
    ensures SameAncestors(f.nodes, f.rank, old(f.nodes), old(f.rank), n)
    ensures KeptOffChain(old(f.nodes), old(f.rank), n, Values(items), old(f.tables), f.tables)
  {
    ghost var nodes0, tables0, rank0, bound0 := f.nodes, f.tables, f.rank, f.rankBound;
    changed := false;
    var j := 0;
    while j < |items|
      invariant 0 <= j <= |items|
      invariant f.ValidLinks() && AttachLoop(nodes0, rank0, tables0, bound0, n, items, j, collection, changed,
                                             f.nodes, f.rank, f.tables, f.rankBound)
    {
      changed := Advance(f, n, items, j, collection, changed, nodes0, rank0, tables0, bound0);
      j := j + 1;
    }
  }

  /**
   * The attach loop's state after `j` elements, with its flag: Attaching, the flag is Adopting, and
   * while it is unset nothing but the nodes has changed.
   */
  ghost predicate AttachLoop(nodes0: Nodes, rank0: map<NodeId, nat>, tables0: map<NodeId, Table>, bound0: nat, n: NodeId,
                             items: seq<Entry<NodeId>>, j: nat, collection: string, changed: bool,
                             nodes: Nodes, rank: map<NodeId, nat>, tables: map<NodeId, Table>, bound: nat)
  {
    && Attaching(nodes0, rank0, tables0, n, items, j, collection, nodes, rank, tables)
    && changed == Adopting(nodes0, n, items, j)
    && (!changed ==> Untouched(tables, rank, bound, tables0, rank0, bound0))
  }

  /** One pass of the attach loop with its flag: AttachStep, and the flag raised if it adopted. */
  method Advance(f: DataForest, n: NodeId, items: seq<Entry<NodeId>>, j: nat, collection: string, changed: bool,
                 ghost nodes0: Nodes, ghost rank0: map<NodeId, nat>, ghost tables0: map<NodeId, Table>, ghost bound0: nat)
    returns (now: bool)
    requires f.ValidLinks() && AttachLoop(nodes0, rank0, tables0, bound0, n, items, j, collection, changed,
                                          f.nodes, f.rank, f.tables, f.rankBound)
    requires j < |items| && NoDup(Values(items)) && Adoptables(nodes0, rank0, n, items)
    modifies f`nodes, f`tables, f`rank, f`rankBound
    ensures f.ValidLinks() && AttachLoop(nodes0, rank0, tables0, bound0, n, items, j + 1, collection, now,
                                         f.nodes, f.rank, f.tables, f.rankBound)
  {
    var adopted := AttachStep(f, n, items, j, collection, nodes0, rank0, tables0);
    now := changed || adopted;
  }

  /** The tables, the ranks and the rank bound are those of an earlier state. */
  ghost predicate Untouched(tables: map<NodeId, Table>, rank: map<NodeId, nat>, bound: nat,
                            tables0: map<NodeId, Table>, rank0: map<NodeId, nat>, bound0: nat)
  {
    tables == tables0 && rank == rank0 && bound == bound0
  }

  /**
   * The state of the attach loop after `j` elements: the nodes are Attach's, the holder's ancestors
   * are unchanged, and every table off its chain and off the elements is unchanged.
   */
  ghost predicate Attaching(nodes0: Nodes, rank0: map<NodeId, nat>, tables0: map<NodeId, Table>, n: NodeId,
                            items: seq<Entry<NodeId>>, j: nat, collection: string,
                            nodes: Nodes, rank: map<NodeId, nat>, tables: map<NodeId, Table>)
  {
    && Ranked(nodes0, rank0) && n in nodes0 && j <= |items| && AllIn(nodes0, items)
    && nodes == Attach(nodes0, n, items, j, collection)
    && SameAncestors(nodes, rank, nodes0, rank0, n)
    && KeptOffChain(nodes0, rank0, n, Values(items), tables0, tables)
  }

  /** One pass of the attach loop, over element `j`. */
  method AttachStep(f: DataForest, n: NodeId, items: seq<Entry<NodeId>>, j: nat, collection: string,
                    ghost nodes0: Nodes, ghost rank0: map<NodeId, nat>, ghost tables0: map<NodeId, Table>)
    returns (adopted: bool)
    requires f.ValidLinks() && Attaching(nodes0, rank0, tables0, n, items, j, collection, f.nodes, f.rank, f.tables)
    requires j < |items| && NoDup(Values(items))
    requires Adoptables(nodes0, rank0, n, items)
    modifies f`nodes, f`tables, f`rank, f`rankBound
    ensures f.ValidLinks() && Attaching(nodes0, rank0, tables0, n, items, j + 1, collection, f.nodes, f.rank, f.tables)
    ensures adopted == (nodes0[items[j].value].parent != Some(n))
    ensures !adopted ==> Untouched(f.tables, f.rank, f.rankBound, old(f.tables), old(f.rank), old(f.rankBound))
  {
    var x := items[j].value;
    AttachFrame(nodes0, n, items, j, collection);
    assert x !in Values(items)[..j] by {
      forall k | 0 <= k < j ensures Values(items)[k] != x {
        assert Values(items)[j] == x;
      }
    }
    assert f.nodes[x].parent == nodes0[x].parent;
    ghost var acc := f.nodes;
    assert Attach(nodes0, n, items, j + 1, collection) ==
           if acc[x].parent != Some(n) then Adopt(acc, n, x, items[j].key, collection) else acc;
    adopted := f.nodes[x].parent != Some(n);
    if adopted {
      ghost var rank1, tables1 := f.rank, f.tables;
      assert SameAncestors(acc, rank1, nodes0, rank0, n);
      Place(f, n, x, items[j].key, collection);
      assert SameAncestors(f.nodes, f.rank, acc, rank1, n);
      SameAncestorsTrans(f.nodes, f.rank, acc, rank1, nodes0, rank0, n);
      assert Values(items)[j] == x;
      KeptOffChainStep(nodes0, rank0, acc, rank1, n, Values(items), [x], Values(items), tables0, tables1, f.tables);
    }
  }

  /** The detach loop of the owned-collection Sets: every old element whose flag is set is removed from `n`. */
  method DetachAll(f: DataForest, n: NodeId, olds: seq<NodeId>, drop: seq<bool>) returns (changed: bool)
    requires f.ValidLinks() && n in f.nodes && |drop| == |olds| && NoDup(olds) && n !in olds
    requires forall y :: y in olds ==> y in f.nodes
    requires forall k :: 0 <= k < |olds| && drop[k] ==> f.nodes[olds[k]].parent == Some(n)
    modifies f`nodes, f`tables
    ensures f.ValidLinks()
    ensures f.nodes == Detach(old(f.nodes), n, olds, drop, |olds|)
    ensures changed == exists k :: 0 <= k < |olds| && drop[k]
    ensures !changed ==> f.nodes == old(f.nodes) && f.tables == old(f.tables)
    ensures SameAncestors(f.nodes, f.rank, old(f.nodes), f.rank, n)
    ensures KeptOffChain(old(f.nodes), f.rank, n, olds, old(f.tables), f.tables)
  {
    ghost var nodes0, tables0 := f.nodes, f.tables;
    changed := false;
    var j := 0;
    while j < |olds|
      invariant 0 <= j <= |olds|
      invariant f.ValidLinks() && f.nodes == Detach(nodes0, n, olds, drop, j)
      invariant changed == AnySet(drop, j)
      invariant !changed ==> f.tables == tables0
      invariant SameAncestors(f.nodes, f.rank, nodes0, f.rank, n)
      invariant KeptOffChain(nodes0, f.rank, n, olds, tables0, f.tables)
    {
      DetachStep(f, n, olds, drop, j, nodes0, tables0);
      changed := changed || drop[j];
      j := j + 1;
    }
    AnySetIff(drop, j);
    if !changed {
      DetachIdle(nodes0, n, olds, drop, j);
    }
  }

  /** One pass of the detach loop, over old element `j`. */
  method DetachStep(f: DataForest, n: NodeId, olds: seq<NodeId>, drop: seq<bool>, j: nat,
                    ghost nodes0: Nodes, ghost tables0: map<NodeId, Table>)
    requires n in nodes0 && j < |olds| == |drop| && NoDup(olds) && n !in olds && forall y :: y in olds ==> y in nodes0
    requires drop[j] ==> nodes0[olds[j]].parent == Some(n)
    requires f.ValidLinks() && f.nodes == Detach(nodes0, n, olds, drop, j)
    requires SameAncestors(f.nodes, f.rank, nodes0, f.rank, n) && KeptOffChain(nodes0, f.rank, n, olds, tables0, f.tables)
    modifies f`nodes, f`tables
    ensures f.ValidLinks() && f.nodes == Detach(nodes0, n, olds, drop, j + 1)
    ensures !drop[j] ==> f.tables == old(f.tables)
    ensures SameAncestors(f.nodes, f.rank, nodes0, f.rank, n) && KeptOffChain(nodes0, f.rank, n, olds, tables0, f.tables)
  {
    if drop[j] {
      ghost var nodes1, tables1 := f.nodes, f.tables;
      DetachParents(nodes0, n, olds, drop, j);
      assert olds[j] !in Dropped(olds, drop, j) by {
        forall k | 0 <= k < j ensures olds[k] != olds[j] {
        }
      }
      f.RemoveChild(n, olds[j]);
      KeptOffChainStep(nodes0, f.rank, nodes1, f.rank, n, olds, [olds[j]], olds, tables0, tables1, f.tables);
    }
  }

  /** What the attach and detach loops of an owned Set need, from ownership and adoptability before the Set. */
  lemma SwapPlan(nodes: Nodes, rank: map<NodeId, nat>, n: NodeId, olds: seq<NodeId>,
                 items: seq<Entry<NodeId>>, drop: seq<bool>, collection: string)
    requires Ranked(nodes, rank) && n in nodes && AllIn(nodes, items) && Adoptable(nodes, rank, n, olds, Values(items))
    requires forall y :: y in olds ==> y in nodes && nodes[y].parent == Some(n)
    requires |drop| == |olds| && forall k :: 0 <= k < |olds| && drop[k] ==> olds[k] !in Values(items)
    ensures forall k :: 0 <= k < |items| ==>
              var x := items[k].value;
              nodes[x].parent == Some(n) || (nodes[x].parent.None? && !Under(nodes, rank, n, x))
    ensures n !in olds
    ensures var a := Attach(nodes, n, items, |items|, collection);
            forall k :: 0 <= k < |olds| && drop[k] ==> a[olds[k]].parent == Some(n)
  {
    NotHolder(nodes, rank, n, olds, Values(items));
    forall k | 0 <= k < |items|
      ensures var x := items[k].value; nodes[x].parent == Some(n) || (nodes[x].parent.None? && !Under(nodes, rank, n, x))
    {
      assert items[k].value == Values(items)[k];
    }
    DroppedStayChildren(nodes, n, olds, items, drop, collection);
  }

  /** The old nodes the detach loop will release are still children of `n` after the attach loop. */
  lemma DroppedStayChildren(nodes: Nodes, n: NodeId, olds: seq<NodeId>, items: seq<Entry<NodeId>>, drop: seq<bool>, collection: string)
    requires n in nodes && AllIn(nodes, items)
    requires forall y :: y in olds ==> y in nodes && nodes[y].parent == Some(n)
    requires |drop| == |olds| && forall k :: 0 <= k < |olds| && drop[k] ==> olds[k] !in Values(items)
    ensures var a := Attach(nodes, n, items, |items|, collection);
            forall k :: 0 <= k < |olds| && drop[k] ==> a[olds[k]].parent == Some(n)
  {
    AttachPlaces(nodes, n, items, |items|, collection);
    assert Values(items)[..|items|] == Values(items);
    var a := Attach(nodes, n, items, |items|, collection);
    forall k | 0 <= k < |olds| && drop[k] ensures a[olds[k]].parent == Some(n) {
      assert olds[k] in olds;
      assert SamePlace(a[olds[k]], nodes[olds[k]]);
    }
  }

  /**
   * FDataProperty<TArray<T*>>::Set: the attach loop, then the detach loop of the old elements the
   * new array lacks; only when either did something is the array stored and a change recorded.
   */
  method SetNodeArray(f: DataForest, n: NodeId, i: nat, vs: seq<NodeId>)
    requires f.Valid() && IsSlot(f, n, i) && FieldOf(f, n, i).shape.NodeArrayField?
    requires NoDup(vs) && Adoptable(f.nodes, f.rank, n, f.nodes[n].slots[i].nodes, vs)
    modifies f`nodes, f`tables, f`rank, f`rankBound, f`changes
    ensures f.Valid()
    ensures old(ArrayChanged(f.nodes, n, f.nodes[n].slots[i].nodes, vs)) ==>
              && f.nodes == ArraySwap(old(f.nodes), n, i, vs, old(FieldOf(f, n, i)).name)
              && f.changes == old(f.changes) + [Changed(n, old(FieldOf(f, n, i)))]
    ensures !old(ArrayChanged(f.nodes, n, f.nodes[n].slots[i].nodes, vs)) ==>
              f.nodes == old(f.nodes) && f.tables == old(f.tables) && f.changes == old(f.changes)
    ensures KeptOffChain(old(f.nodes), old(f.rank), n, vs + old(f.nodes[n].slots[i].nodes), old(f.tables), f.tables)
  {
    var field := FieldOf(f, n, i);
    ArraySwapOwned(f.registry, f.rank, f.nodes, n, i, vs, field.name);
    ArrayPlan(f.nodes, f.rank, n, i, vs, field.name);
    var _ := RelinkArray(f, n, i, vs, field);
  }

  /** The owned-array Set on the links alone, given what ArrayPlan derives from ownership. */
  method RelinkArray(f: DataForest, n: NodeId, i: nat, vs: seq<NodeId>, field: FieldDesc) returns (changed: bool)
    requires f.ValidLinks() && n in f.nodes && i < |f.nodes[n].slots| && f.nodes[n].slots[i].NodeArraySlot?
    requires var olds := f.nodes[n].slots[i].nodes;
             var items := Indexed(vs);
             var drop := ArrayDrops(olds, vs);
             && AllIn(f.nodes, items) && NoDup(Values(items)) && NoDup(olds) && n !in olds
             && (forall y :: y in olds ==> y in f.nodes)
             && (forall k :: 0 <= k < |items| ==>
                  var x := items[k].value;
                  f.nodes[x].parent == Some(n) || (f.nodes[x].parent.None? && !Under(f.nodes, f.rank, n, x)))
             && (var a := Attach(f.nodes, n, items, |items|, field.name);
                 forall k :: 0 <= k < |olds| && drop[k] ==> a[olds[k]].parent == Some(n))
    requires (forall x :: x in vs ==> x in f.nodes)
    modifies f`nodes, f`tables, f`rank, f`rankBound, f`changes
    ensures f.ValidLinks()
    ensures var olds := old(f.nodes[n].slots[i].nodes);
            var items := Indexed(vs);
            changed == ((exists k :: 0 <= k < |items| && old(f.nodes)[items[k].value].parent != Some(n))
                        || (exists k :: 0 <= k < |olds| && ArrayDrops(olds, vs)[k]))
    ensures changed ==> f.nodes == ArraySwap(old(f.nodes), n, i, vs, field.name) && f.changes == old(f.changes) + [Changed(n, field)]
    ensures !changed ==> && f.nodes == old(f.nodes) && f.tables == old(f.tables) && f.rank == old(f.rank)
                         && f.rankBound == old(f.rankBound) && f.changes == old(f.changes)
    ensures KeptOffChain(old(f.nodes), old(f.rank), n, vs + old(f.nodes[n].slots[i].nodes), old(f.tables), f.tables)
  {
    var olds := f.nodes[n].slots[i].nodes;
    ghost var nodes0 := f.nodes;
    var items := Indexed(vs);
    var drop := ArrayDrops(olds, vs);
    IndexedValues(vs);
    changed := Relink(f, n, i, items, olds, drop, NodeArraySlot(vs), field);
    if changed {
      ArraySwapIs(nodes0, n, i, vs, field.name);
    }
  }

  /** ArraySwap is the attach loop over the indexed elements, the detach loop, and the store. */
  lemma ArraySwapIs(nodes: Nodes, n: NodeId, i: nat, vs: seq<NodeId>, fieldName: string)
    requires n in nodes && i < |nodes[n].slots| && nodes[n].slots[i].NodeArraySlot?
    requires (forall x :: x in vs ==> x in nodes) && (forall y :: y in nodes[n].slots[i].nodes ==> y in nodes)
    ensures AllIn(nodes, Indexed(vs))
    ensures var olds := nodes[n].slots[i].nodes;
            var linked := Detach(Attach(nodes, n, Indexed(vs), |vs|, fieldName), n, olds, ArrayDrops(olds, vs), |olds|);
            n in linked && i < |linked[n].slots| && ArraySwap(nodes, n, i, vs, fieldName) == WithSlot(linked, n, i, NodeArraySlot(vs))
  {
    assert AllIn(nodes, Indexed(vs)) by {
      forall k | 0 <= k < |vs| ensures Indexed(vs)[k].value in nodes {
        assert vs[k] in vs;
      }
    }
    assert Held(nodes[n].slots[i]) == nodes[n].slots[i].nodes;
  }

  /**
   * What the two loops of an owned Set need: the new elements exist, are distinct and adoptable,
   * the old ones are distinct children other than `n`, and each one to drop is still a child
   * after the attach loop.
   */
  ghost predicate SwapReady(nodes: Nodes, rank: map<NodeId, nat>, n: NodeId, items: seq<Entry<NodeId>>,
                            olds: seq<NodeId>, drop: seq<bool>, collection: string)
  {
    && Ranked(nodes, rank) && n in nodes && AllIn(nodes, items) && NoDup(Values(items))
    && Adoptables(nodes, rank, n, items)
    && |drop| == |olds| && NoDup(olds) && n !in olds && (forall y :: y in olds ==> y in nodes)
    && (var a := Attach(nodes, n, items, |items|, collection);
        forall k :: 0 <= k < |olds| && drop[k] ==> a[olds[k]].parent == Some(n))
  }

  /**
   * The attach loop then the detach loop; when either did something, `v` is stored in slot `i`
   * and the change recorded.
   */
  method Relink(f: DataForest, n: NodeId, i: nat, items: seq<Entry<NodeId>>, olds: seq<NodeId>, drop: seq<bool>,
                v: SlotValue, field: FieldDesc) returns (changed: bool)
    requires f.ValidLinks() && SwapReady(f.nodes, f.rank, n, items, olds, drop, field.name) && i < |f.nodes[n].slots|
    modifies f`nodes, f`tables, f`rank, f`rankBound, f`changes
    ensures f.ValidLinks()
    ensures changed == ((exists k :: 0 <= k < |items| && old(f.nodes)[items[k].value].parent != Some(n))
                        || (exists k :: 0 <= k < |olds| && drop[k]))
    ensures changed ==>
              && f.nodes == WithSlot(Detach(Attach(old(f.nodes), n, items, |items|, field.name), n, olds, drop, |olds|), n, i, v)
              && f.changes == old(f.changes) + [Changed(n, field)]
    ensures !changed ==> && f.nodes == old(f.nodes) && f.tables == old(f.tables) && f.rank == old(f.rank)
                         && f.rankBound == old(f.rankBound) && f.changes == old(f.changes)
    ensures KeptOffChain(old(f.nodes), old(f.rank), n, Values(items) + olds, old(f.tables), f.tables)
  {
    changed := Loops(f, n, items, olds, drop, field.name);
    CommitIf(f, n, i, v, field, changed);
  }

  /** The store of a relinking Set, made only when either loop did something. */
  method CommitIf(f: DataForest, n: NodeId, i: nat, v: SlotValue, field: FieldDesc, changed: bool)
    requires f.ValidLinks() && n in f.nodes && i < |f.nodes[n].slots|
    modifies f`nodes, f`changes
    ensures f.ValidLinks()
    ensures changed ==> f.nodes == WithSlot(old(f.nodes), n, i, v) && f.changes == old(f.changes) + [Changed(n, field)]
    ensures !changed ==> f.nodes == old(f.nodes) && f.changes == old(f.changes)
  {
    if changed {
      Commit(f, n, i, v, field);
    }
  }

  /** The attach loop then the detach loop, and whether either did something; the change log is untouched. */
  method Loops(f: DataForest, n: NodeId, items: seq<Entry<NodeId>>, olds: seq<NodeId>, drop: seq<bool>, collection: string)
    returns (changed: bool)
    requires f.ValidLinks() && SwapReady(f.nodes, f.rank, n, items, olds, drop, collection)
    modifies f`nodes, f`tables, f`rank, f`rankBound
    ensures f.ValidLinks()
    ensures changed == ((exists k :: 0 <= k < |items| && old(f.nodes)[items[k].value].parent != Some(n))
                        || (exists k :: 0 <= k < |olds| && drop[k]))
    ensures f.nodes == Detach(Attach(old(f.nodes), n, items, |items|, collection), n, olds, drop, |olds|)
    ensures !changed ==> && f.nodes == old(f.nodes) && f.tables == old(f.tables) && f.rank == old(f.rank)
                         && f.rankBound == old(f.rankBound)
    ensures KeptOffChain(old(f.nodes), old(f.rank), n, Values(items) + olds, old(f.tables), f.tables)
  {
    ghost var nodes0, rank0, tables0 := f.nodes, f.rank, f.tables;
    var attached := AttachAll(f, n, items, collection);
    var detached := DetachAfter(f, n, items, olds, drop, collection, nodes0, rank0, tables0);
    changed := attached || detached;
  }

  /** The detach loop of Loops, run on the forest the attach loop left. */
  method DetachAfter(f: DataForest, n: NodeId, items: seq<Entry<NodeId>>, olds: seq<NodeId>, drop: seq<bool>, collection: string,
                     ghost nodes0: Nodes, ghost rank0: map<NodeId, nat>, ghost tables0: map<NodeId, Table>)
    returns (changed: bool)
    requires n in nodes0 && AllIn(nodes0, items)
    requires |drop| == |olds| && NoDup(olds) && n !in olds && forall y :: y in olds ==> y in nodes0
    requires var a := Attach(nodes0, n, items, |items|, collection);
             forall k :: 0 <= k < |olds| && drop[k] ==> a[olds[k]].parent == Some(n)
    requires f.ValidLinks() && f.nodes == Attach(nodes0, n, items, |items|, collection)
    requires SameAncestors(f.nodes, f.rank, nodes0, rank0, n)
    requires KeptOffChain(nodes0, rank0, n, Values(items), tables0, f.tables)
    modifies f`nodes, f`tables
    ensures f.ValidLinks()
    ensures changed == exists k :: 0 <= k < |olds| && drop[k]
    ensures f.nodes == Detach(old(f.nodes), n, olds, drop, |olds|)
    ensures !changed ==> f.nodes == old(f.nodes) && f.tables == old(f.tables)
    ensures KeptOffChain(nodes0, rank0, n, Values(items) + olds, tables0, f.tables)
  {
    ghost var nodes1, tables1 := f.nodes, f.tables;
    changed := DetachAll(f, n, olds, drop);
    KeptOffChainJoin(nodes0, rank0, nodes1, f.rank, n, Values(items), olds, tables0, tables1, f.tables);
  }

  /** SwapPlan for the owned-array Set, with its change flag. */
  lemma ArrayPlan(nodes: Nodes, rank: map<NodeId, nat>, n: NodeId, i: nat, vs: seq<NodeId>, fieldName: string)
    requires Ranked(nodes, rank) && HeldLinked(nodes) && HeldOnce(nodes) && n in nodes && i < |nodes[n].slots|
    requires nodes[n].slots[i].NodeArraySlot? && NoDup(vs) && Adoptable(nodes, rank, n, nodes[n].slots[i].nodes, vs)
    ensures var olds := nodes[n].slots[i].nodes;
            var items := Indexed(vs);
            var drop := ArrayDrops(olds, vs);
            && AllIn(nodes, items) && NoDup(Values(items)) && NoDup(olds) && n !in olds
            && (forall y :: y in olds ==> y in nodes && nodes[y].parent == Some(n))
            && (forall k :: 0 <= k < |items| ==>
                  var x := items[k].value;
                  nodes[x].parent == Some(n) || (nodes[x].parent.None? && !Under(nodes, rank, n, x)))
            && (var a := Attach(nodes, n, items, |items|, fieldName);
                forall k :: 0 <= k < |olds| && drop[k] ==> a[olds[k]].parent == Some(n))
            && (ArrayChanged(nodes, n, olds, vs) <==>
                  (exists k :: 0 <= k < |items| && nodes[items[k].value].parent != Some(n))
                  || (exists k :: 0 <= k < |olds| && drop[k]))
  {
    var olds := nodes[n].slots[i].nodes;
    assert Held(nodes[n].slots[i]) == olds;
    assert forall y :: y in olds ==> y in nodes && nodes[y].parent == Some(n);
    IndexedValues(vs);
    var items := Indexed(vs);
    assert AllIn(nodes, items) by {
      forall k | 0 <= k < |vs| ensures items[k].value in nodes {
        assert vs[k] in vs;
      }
    }
    SwapPlan(nodes, rank, n, olds, items, ArrayDrops(olds, vs), fieldName);
    ArrayChangedFlags(nodes, n, olds, vs);
  }

  /** The change flag of the owned-array Set is the flag of either loop. */
  lemma ArrayChangedFlags(nodes: Nodes, n: NodeId, olds: seq<NodeId>, vs: seq<NodeId>)
    requires forall x :: x in vs ==> x in nodes
    ensures var items := Indexed(vs);
            AllIn(nodes, items) &&
            (ArrayChanged(nodes, n, olds, vs) <==>
               (exists k :: 0 <= k < |items| && nodes[items[k].value].parent != Some(n))
               || (exists k :: 0 <= k < |olds| && ArrayDrops(olds, vs)[k]))
  {
    var items := Indexed(vs);
    var drop := ArrayDrops(olds, vs);
    assert AllIn(nodes, items) by {
      forall k | 0 <= k < |vs| ensures items[k].value in nodes {
        assert vs[k] in vs;
      }
    }
    if ArrayChanged(nodes, n, olds, vs) {
      if x :| x in vs && nodes[x].parent != Some(n) {
        var k :| 0 <= k < |vs| && vs[k] == x;
        assert nodes[items[k].value].parent != Some(n);
      } else {
        var y :| y in olds && y !in vs;
        var k :| 0 <= k < |olds| && olds[k] == y;
        assert drop[k];
      }
    }
  }

  /**
   * FDataProperty<TMap<FString, T*>>::Set: the attach loop over the new entries, then the detach
   * loop of the old entries whose key the new map lacks; only when either did something is the map
   * stored, key-sorted, and a change recorded.
   */
  method SetNodeMap(f: DataForest, n: NodeId, i: nat, es: seq<Entry<NodeId>>)
    requires f.Valid() && IsSlot(f, n, i) && FieldOf(f, n, i).shape.NodeMapField?
    requires UniqueKeys(es) && NoDup(Values(es)) && AllIn(f.nodes, es)
    requires Adoptable(f.nodes, f.rank, n, Values(f.nodes[n].slots[i].children), Values(es))
    requires NoRekeyedChild(f.nodes[n].slots[i].children, es)
    modifies f`nodes, f`tables, f`rank, f`rankBound, f`changes
    ensures old(forall y :: y in Values(f.nodes[n].slots[i].children) ==> y in f.nodes)
    ensures f.Valid()
    ensures old(MapChanged(f.nodes, n, f.nodes[n].slots[i].children, es)) ==>
              && f.nodes == MapSwap(old(f.nodes), n, i, es, old(FieldOf(f, n, i)).name)
              && f.changes == old(f.changes) + [Changed(n, old(FieldOf(f, n, i)))]
    ensures !old(MapChanged(f.nodes, n, f.nodes[n].slots[i].children, es)) ==>
              f.nodes == old(f.nodes) && f.tables == old(f.tables) && f.changes == old(f.changes)
    ensures KeptOffChain(old(f.nodes), old(f.rank), n, Values(es) + Values(old(f.nodes[n].slots[i].children)),
                         old(f.tables), f.tables)
  {
    var field := FieldOf(f, n, i);
    MapSwapOwned(f.registry, f.rank, f.nodes, n, i, es, field.name);
    MapPlan(f.nodes, f.rank, n, i, es, field.name);
    var _ := RelinkMap(f, n, i, es, field);
  }

  /** The owned-map Set on the links alone, given what MapPlan derives from ownership. */
  method RelinkMap(f: DataForest, n: NodeId, i: nat, es: seq<Entry<NodeId>>, field: FieldDesc) returns (changed: bool)
    requires f.ValidLinks() && n in f.nodes && i < |f.nodes[n].slots| && f.nodes[n].slots[i].NodeMapSlot?
    requires AllIn(f.nodes, es) && NoDup(Values(es))
    requires var olds := Values(f.nodes[n].slots[i].children);
             var drop := KeyDrops(f.nodes[n].slots[i].children, es);
             && NoDup(olds) && n !in olds && (forall y :: y in olds ==> y in f.nodes)
             && (forall k :: 0 <= k < |es| ==>
                  var x := es[k].value;
                  f.nodes[x].parent == Some(n) || (f.nodes[x].parent.None? && !Under(f.nodes, f.rank, n, x)))
             && (var a := Attach(f.nodes, n, es, |es|, field.name);
                 forall k :: 0 <= k < |olds| && drop[k] ==> a[olds[k]].parent == Some(n))
    modifies f`nodes, f`tables, f`rank, f`rankBound, f`changes
    ensures f.ValidLinks()
    ensures changed == old(MapChanged(f.nodes, n, f.nodes[n].slots[i].children, es))
    ensures changed ==> f.nodes == MapSwap(old(f.nodes), n, i, es, field.name) && f.changes == old(f.changes) + [Changed(n, field)]
    ensures !changed ==> && f.nodes == old(f.nodes) && f.tables == old(f.tables) && f.rank == old(f.rank)
                         && f.rankBound == old(f.rankBound) && f.changes == old(f.changes)
    ensures KeptOffChain(old(f.nodes), old(f.rank), n, Values(es) + Values(old(f.nodes[n].slots[i].children)),
                         old(f.tables), f.tables)
  {
    var children := f.nodes[n].slots[i].children;
    ghost var nodes0 := f.nodes;
    var olds := Values(children);
    var drop := KeyDrops(children, es);
    MapSwapIs(f.nodes, n, i, es, field.name);
    MapChangedFlags(f.nodes, n, children, es);
    changed := Relink(f, n, i, es, olds, drop, NodeMapSlot(KeyStableSort(es)), field);
  }

  /** MapSwap spelled out as the two loops and the store. */
  lemma MapSwapIs(nodes: Nodes, n: NodeId, i: nat, es: seq<Entry<NodeId>>, fieldName: string)
    requires n in nodes && i < |nodes[n].slots| && nodes[n].slots[i].NodeMapSlot? && AllIn(nodes, es)
    requires forall y :: y in Values(nodes[n].slots[i].children) ==> y in nodes
    ensures var children := nodes[n].slots[i].children;
            MapSwap(nodes, n, i, es, fieldName)
              == WithSlot(Detach(Attach(nodes, n, es, |es|, fieldName), n, Values(children), KeyDrops(children, es), |children|),
                          n, i, NodeMapSlot(KeyStableSort(es)))
  {
    assert Held(nodes[n].slots[i]) == Values(nodes[n].slots[i].children);
  }

  /** The change flag of the owned-map Set is the flag of either loop. */
  lemma MapChangedFlags(nodes: Nodes, n: NodeId, children: seq<Entry<NodeId>>, es: seq<Entry<NodeId>>)
    requires AllIn(nodes, es)
    ensures MapChanged(nodes, n, children, es) <==>
              (exists k :: 0 <= k < |es| && nodes[es[k].value].parent != Some(n))
              || (exists k :: 0 <= k < |Values(children)| && KeyDrops(children, es)[k])
  {
    var drop := KeyDrops(children, es);
    if exists k :: 0 <= k < |children| && Find(es, children[k].key).None? {
      var k :| 0 <= k < |children| && Find(es, children[k].key).None?;
      assert drop[k];
    }
  }

  /** SwapPlan for the owned-map Set. */
  lemma MapPlan(nodes: Nodes, rank: map<NodeId, nat>, n: NodeId, i: nat, es: seq<Entry<NodeId>>, fieldName: string)
    requires Ranked(nodes, rank) && HeldLinked(nodes) && HeldOnce(nodes) && n in nodes && i < |nodes[n].slots|
    requires nodes[n].slots[i].NodeMapSlot? && AllIn(nodes, es)
    requires Adoptable(nodes, rank, n, Values(nodes[n].slots[i].children), Values(es))
    requires NoRekeyedChild(nodes[n].slots[i].children, es)
    ensures var olds := Values(nodes[n].slots[i].children);
            var drop := KeyDrops(nodes[n].slots[i].children, es);
            && NoDup(olds) && n !in olds
            && (forall y :: y in olds ==> y in nodes && nodes[y].parent == Some(n))
            && (forall k :: 0 <= k < |es| ==>
                  var x := es[k].value;
                  nodes[x].parent == Some(n) || (nodes[x].parent.None? && !Under(nodes, rank, n, x)))
            && (var a := Attach(nodes, n, es, |es|, fieldName);
                forall k :: 0 <= k < |olds| && drop[k] ==> a[olds[k]].parent == Some(n))
  {
    MapSwapSetup(nodes, rank, n, i, es, fieldName);
    var children := nodes[n].slots[i].children;
    var olds := Values(children);
    var drop := KeyDrops(children, es);
    forall k | 0 <= k < |olds| && drop[k] ensures olds[k] !in Values(es) {
      assert olds[k] == children[k].value;
    }
    SwapPlan(nodes, rank, n, olds, es, drop, fieldName);
  }

  /** The write of a new value into a slot, and the change it records; the links stay valid, since slots are not links. */
  method Commit(f: DataForest, n: NodeId, i: nat, v: SlotValue, field: FieldDesc)
    requires f.ValidLinks() && n in f.nodes && i < |f.nodes[n].slots|
    modifies f`nodes, f`changes
    ensures f.ValidLinks() && f.nodes == WithSlot(old(f.nodes), n, i, v) && f.changes == old(f.changes) + [Changed(n, field)]
  {
    SlotKeepsLinks(f.nodes, f.tables, f.rank, f.rankBound, f.nextId, n, i, v);
    f.changes := f.changes + [Changed(n, field)];
    f.nodes := WithSlot(f.nodes, n, i, v);
  }

  /** Storing the value a slot already holds leaves the nodes as they are. */
  lemma WithSlotSame(nodes: Nodes, n: NodeId, i: nat)
    requires n in nodes && i < |nodes[n].slots|
    ensures WithSlot(nodes, n, i, nodes[n].slots[i]) == nodes
  {
    assert nodes[n].slots[i := nodes[n].slots[i]] == nodes[n].slots;
    assert nodes[n].(slots := nodes[n].slots) == nodes[n];
  }
}
