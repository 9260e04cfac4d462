/**
 * The owned-slot edits of FDataProperty::Set on values: the names array elements receive, the
 * attach loop and the detach loop as functions of the node map, and the proofs that replacing an
 * owned slot this way keeps the slots and the parent links in agreement.
 */
module SlotModel {
  import opened Options
  import opened OrderedMaps
  import opened DataModel
  import opened ForestModel

  predicate IsDecimal(s: string)
  {
    forall k :: 0 <= k < |s| ==> '0' <= s[k] <= '9'
  }

  function Digit(d: nat): (c: char)
    requires d < 10
    ensures '0' <= c <= '9' && (c as int) - ('0' as int) == d
  {
    (('0' as int) + d) as char
  }

  /** FString::FromInt on an index: its decimal digits, with no leading zero. */
  function IntToString(i: nat): (s: string)
    ensures |s| > 0 && IsDecimal(s)
    ensures s[0] == '0' <==> i == 0
    decreases i
  {
    if i < 10 then [Digit(i)] else IntToString(i / 10) + [Digit(i % 10)]
  }

  /** The number a string of decimal digits denotes. */
  function DecimalValue(s: string): nat
    requires IsDecimal(s)
  {
    if s == [] then 0 else DecimalValue(s[..|s| - 1]) * 10 + ((s[|s| - 1] as int) - ('0' as int))
  }

  /** Reading the digits back gives the index: distinct indices get distinct names. */
  lemma {:induction false} DecimalRoundTrip(i: nat)
    ensures DecimalValue(IntToString(i)) == i
    decreases i
  {
    if i >= 10 {
      DecimalRoundTrip(i / 10);
      var s := IntToString(i);
      assert s[..|s| - 1] == IntToString(i / 10);
    }
  }

  /** The elements of an owned array paired with the names the attach loop gives them: their indices. */
  function Indexed(vs: seq<NodeId>): (items: seq<Entry<NodeId>>)
    ensures |items| == |vs| && forall k :: 0 <= k < |vs| ==> items[k] == Entry(IntToString(k), vs[k])
  {
    seq(|vs|, k requires 0 <= k < |vs| => Entry(IntToString(k), vs[k]))
  }

  lemma IndexedValues(vs: seq<NodeId>)
    ensures Values(Indexed(vs)) == vs
  {
  }

  /** Every node named by the entries is a node of the map. */
  predicate AllIn(nodes: Nodes, items: seq<Entry<NodeId>>)
  {
    forall k :: 0 <= k < |items| ==> items[k].value in nodes
  }

  /** One attach step: `x` is renamed to `key` in `collection` and linked below `n`; nothing else changes but n's children. */
  function Adopt(nodes: Nodes, n: NodeId, x: NodeId, key: string, collection: string): (r: Nodes)
    requires n in nodes && x in nodes
    ensures r.Keys == nodes.Keys
    ensures forall m :: m in nodes ==> r[m].cls == nodes[m].cls && r[m].slots == nodes[m].slots
    ensures forall m :: m in nodes && m != x ==>
              r[m].parent == nodes[m].parent && r[m].dataKey == nodes[m].dataKey && r[m].collectionKey == nodes[m].collectionKey
    ensures r[x].parent == Some(n) && r[x].dataKey == key && r[x].collectionKey == collection
  {
    Link(Rename(nodes, x, key, collection), n, x)
  }

  /**
   * The nodes after the attach loop has run over items[..j]: an item that is not (by then) a child
   * of `n` is renamed to its key, with `collection` as collection key, and linked below `n`.
   */
  function Attach(nodes: Nodes, n: NodeId, items: seq<Entry<NodeId>>, j: nat, collection: string): (r: Nodes)
    requires n in nodes && j <= |items| && AllIn(nodes, items)
    ensures r.Keys == nodes.Keys
    ensures forall m :: m in nodes ==> r[m].cls == nodes[m].cls && r[m].slots == nodes[m].slots
    decreases j
  {
    if j == 0 then nodes
    else
      var acc := Attach(nodes, n, items, j - 1, collection);
      var x := items[j - 1].value;
      if acc[x].parent != Some(n) then Adopt(acc, n, x, items[j - 1].key, collection) else acc
  }

  /** Two states of a node agree on its place in the tree: parent and both keys. */
  predicate SamePlace(a: Data, b: Data)
  {
    a.parent == b.parent && a.dataKey == b.dataKey && a.collectionKey == b.collectionKey
  }

  /** One step of the attach loop: only item j - 1 may change, and only if it was not yet a child of `n`. */
  lemma AttachOne(nodes: Nodes, n: NodeId, items: seq<Entry<NodeId>>, j: nat, collection: string)
    requires n in nodes && 0 < j <= |items| && AllIn(nodes, items)
    ensures var acc := Attach(nodes, n, items, j - 1, collection);
            var r := Attach(nodes, n, items, j, collection);
            var x := items[j - 1].value;
            && (forall m :: m in nodes && m != x ==> SamePlace(r[m], acc[m]))
            && (acc[x].parent == Some(n) ==> r == acc)
            && (acc[x].parent != Some(n) ==>
                  r[x].dataKey == items[j - 1].key && r[x].collectionKey == collection)
            && r[x].parent == Some(n)
  {
  }

  /** The frame of the attach loop grows by one visited item per step. */
  lemma FramePass(nodes: Nodes, acc: Nodes, r: Nodes, vals: seq<NodeId>, j: nat)
    requires 0 < j <= |vals| && acc.Keys == nodes.Keys && r.Keys == nodes.Keys
    requires forall m :: m in nodes && m !in vals[..j - 1] ==> SamePlace(acc[m], nodes[m])
    requires forall m :: m in nodes && m != vals[j - 1] ==> SamePlace(r[m], acc[m])
    ensures forall m :: m in nodes && m !in vals[..j] ==> SamePlace(r[m], nodes[m])
  {
    assert vals[..j] == vals[..j - 1] + [vals[j - 1]];
  }

  lemma {:induction false} AttachPlaces(nodes: Nodes, n: NodeId, items: seq<Entry<NodeId>>, j: nat, collection: string)
    requires n in nodes && j <= |items| && AllIn(nodes, items)
    ensures var r := Attach(nodes, n, items, j, collection);
            forall m :: m in nodes && m !in Values(items)[..j] ==> SamePlace(r[m], nodes[m])
    decreases j
  {
    if j > 0 {
      AttachPlaces(nodes, n, items, j - 1, collection);
      AttachOne(nodes, n, items, j, collection);
      FramePass(nodes, Attach(nodes, n, items, j - 1, collection), Attach(nodes, n, items, j, collection), Values(items), j);
    }
  }

  /** The attach loop changes the parent and the keys only of the items it has visited. */
  lemma AttachFrame(nodes: Nodes, n: NodeId, items: seq<Entry<NodeId>>, j: nat, collection: string)
    requires n in nodes && j <= |items| && AllIn(nodes, items)
    ensures var r := Attach(nodes, n, items, j, collection);
            forall m :: m in nodes && m !in Values(items)[..j] ==>
              r[m].parent == nodes[m].parent && r[m].dataKey == nodes[m].dataKey && r[m].collectionKey == nodes[m].collectionKey
  {
    AttachPlaces(nodes, n, items, j, collection);
    var r := Attach(nodes, n, items, j, collection);
    forall m | m in nodes && m !in Values(items)[..j]
      ensures r[m].parent == nodes[m].parent && r[m].dataKey == nodes[m].dataKey && r[m].collectionKey == nodes[m].collectionKey
    {
      assert SamePlace(r[m], nodes[m]);
    }
  }

  /** Every item visited ends as a child of `n`. */
  lemma {:induction false} AttachParents(nodes: Nodes, n: NodeId, items: seq<Entry<NodeId>>, j: nat, collection: string)
    requires n in nodes && j <= |items| && AllIn(nodes, items) && n !in Values(items)
    ensures var r := Attach(nodes, n, items, j, collection);
            forall k :: 0 <= k < j ==> r[items[k].value].parent == Some(n)
    decreases j
  {
    if j > 0 {
      AttachParents(nodes, n, items, j - 1, collection);
      AttachOne(nodes, n, items, j, collection);
      var x := items[j - 1].value;
      var acc := Attach(nodes, n, items, j - 1, collection);
      var r := Attach(nodes, n, items, j, collection);
      forall k | 0 <= k < j ensures r[items[k].value].parent == Some(n) {
        var y := items[k].value;
        if y != x {
          assert y in nodes && k < j - 1;
          assert SamePlace(r[y], acc[y]);
        }
      }
    }
  }

  /**
   * With distinct items, an item that was not a child of `n` is renamed to its key and the
   * collection; an item that was keeps its keys.
   */
  lemma {:induction false} AttachNames(nodes: Nodes, n: NodeId, items: seq<Entry<NodeId>>, j: nat, collection: string)
    requires n in nodes && j <= |items| && AllIn(nodes, items) && NoDup(Values(items))
    ensures var r := Attach(nodes, n, items, j, collection);
            forall k :: 0 <= k < j ==>
              var x := items[k].value;
              if nodes[x].parent == Some(n) then r[x].dataKey == nodes[x].dataKey && r[x].collectionKey == nodes[x].collectionKey
              else r[x].dataKey == items[k].key && r[x].collectionKey == collection
    decreases j
  {
    if j > 0 {
      AttachNames(nodes, n, items, j - 1, collection);
      AttachFrame(nodes, n, items, j - 1, collection);
      AttachOne(nodes, n, items, j, collection);
      var vals := Values(items);
      var x := items[j - 1].value;
      var acc := Attach(nodes, n, items, j - 1, collection);
      var r := Attach(nodes, n, items, j, collection);
      assert x !in vals[..j - 1] by {
        forall k | 0 <= k < j - 1 ensures vals[k] != vals[j - 1] { }
      }
      assert acc[x].parent == nodes[x].parent && acc[x].dataKey == nodes[x].dataKey && acc[x].collectionKey == nodes[x].collectionKey;
      forall k | 0 <= k < j - 1
        ensures r[items[k].value].dataKey == acc[items[k].value].dataKey
        ensures r[items[k].value].collectionKey == acc[items[k].value].collectionKey
      {
        assert vals[k] != vals[j - 1];
      }
    }
  }

  /** Whether the attach loop over items[..j] adopts anything: some item was not a child of `n`. */
  predicate Adopting(nodes: Nodes, n: NodeId, items: seq<Entry<NodeId>>, j: nat)
    requires j <= |items| && AllIn(nodes, items)
  {
    j > 0 && (Adopting(nodes, n, items, j - 1) || nodes[items[j - 1].value].parent != Some(n))
  }

  /** Adopting, stated outright. */
  lemma {:induction false} AdoptingIff(nodes: Nodes, n: NodeId, items: seq<Entry<NodeId>>, j: nat)
    requires j <= |items| && AllIn(nodes, items)
    ensures Adopting(nodes, n, items, j) <==> exists k :: 0 <= k < j && nodes[items[k].value].parent != Some(n)
  {
    if j > 0 {
      AdoptingIff(nodes, n, items, j - 1);
    }
  }

  /** An attach loop that adopts nothing leaves the nodes as they were. */
  lemma {:induction false} AttachIdle(nodes: Nodes, n: NodeId, items: seq<Entry<NodeId>>, j: nat, collection: string)
    requires n in nodes && j <= |items| && AllIn(nodes, items) && !Adopting(nodes, n, items, j)
    ensures Attach(nodes, n, items, j, collection) == nodes
  {
    if j > 0 {
      AttachIdle(nodes, n, items, j - 1, collection);
    }
  }

  /** The nodes detached by the loop over ys[..j]: those whose drop flag is set, in order. */
  function Dropped(ys: seq<NodeId>, drop: seq<bool>, j: nat): (r: seq<NodeId>)
    requires j <= |ys| == |drop|
    ensures forall x :: x in r ==> x in ys[..j]
    ensures forall k :: 0 <= k < j && drop[k] ==> ys[k] in r
  {
    if j == 0 then []
    else
      var r := Dropped(ys, drop, j - 1) + (if drop[j - 1] then [ys[j - 1]] else []);
      assert ys[..j] == ys[..j - 1] + [ys[j - 1]];
      r
  }

  /** The nodes after the detach loop has run over ys[..j]: each node whose drop flag is set is unlinked from `n`. */
  function Detach(nodes: Nodes, n: NodeId, ys: seq<NodeId>, drop: seq<bool>, j: nat): (r: Nodes)
    requires n in nodes && j <= |ys| == |drop| && forall y :: y in ys ==> y in nodes
    ensures r.Keys == nodes.Keys
    ensures forall m :: m in nodes ==> r[m].cls == nodes[m].cls && r[m].slots == nodes[m].slots
    ensures forall m :: m in nodes ==> r[m].dataKey == nodes[m].dataKey && r[m].collectionKey == nodes[m].collectionKey
    decreases j
  {
    if j == 0 then nodes
    else
      var acc := Detach(nodes, n, ys, drop, j - 1);
      if drop[j - 1] then Unlink(acc, n, ys[j - 1]) else acc
  }

  /** Whether any of the first `j` flags is set. */
  predicate AnySet(flags: seq<bool>, j: nat)
    requires j <= |flags|
  {
    j > 0 && (AnySet(flags, j - 1) || flags[j - 1])
  }

  /** AnySet, stated outright. */
  lemma {:induction false} AnySetIff(flags: seq<bool>, j: nat)
    requires j <= |flags|
    ensures AnySet(flags, j) <==> exists k :: 0 <= k < j && flags[k]
  {
    if j > 0 {
      AnySetIff(flags, j - 1);
    }
  }

  /** A detach loop whose flags are all clear leaves the nodes as they were. */
  lemma {:induction false} DetachIdle(nodes: Nodes, n: NodeId, ys: seq<NodeId>, drop: seq<bool>, j: nat)
    requires n in nodes && j <= |ys| == |drop| && (forall y :: y in ys ==> y in nodes) && !AnySet(drop, j)
    ensures Detach(nodes, n, ys, drop, j) == nodes
  {
    if j > 0 {
      DetachIdle(nodes, n, ys, drop, j - 1);
    }
  }

  /** The detach loop clears the parent of exactly the dropped nodes. */
  lemma {:induction false} DetachParents(nodes: Nodes, n: NodeId, ys: seq<NodeId>, drop: seq<bool>, j: nat)
    requires n in nodes && j <= |ys| == |drop| && forall y :: y in ys ==> y in nodes
    requires n !in ys
    ensures var r := Detach(nodes, n, ys, drop, j);
            forall m :: m in nodes ==> r[m].parent == if m in Dropped(ys, drop, j) then None else nodes[m].parent
    decreases j
  {
    if j > 0 {
      DetachParents(nodes, n, ys, drop, j - 1);
      assert ys[j - 1] in ys;
    }
  }

  /** No dropped node is one the flags protect. */
  lemma {:induction false} DroppedOnly(ys: seq<NodeId>, drop: seq<bool>, j: nat, keep: seq<NodeId>)
    requires j <= |ys| == |drop|
    requires forall k :: 0 <= k < |ys| && drop[k] ==> ys[k] !in keep
    ensures forall x :: x in Dropped(ys, drop, j) ==> x !in keep
    decreases j
  {
    if j > 0 {
      DroppedOnly(ys, drop, j - 1, keep);
    }
  }

  /**
   * What the owned Sets need of the new elements to keep ownership: each is a node and either
   * unparented and not an ancestor of `n` (AddChild's check, and no cycle), or already a child of
   * `n` held by this slot.
   */
  ghost predicate Adoptable(nodes: Nodes, rank: map<NodeId, nat>, n: NodeId, olds: seq<NodeId>, xs: seq<NodeId>)
    requires Ranked(nodes, rank) && n in nodes
  {
    forall x :: x in xs ==>
      x in nodes && ((nodes[x].parent.None? && !Under(nodes, rank, n, x)) || (nodes[x].parent == Some(n) && x in olds))
  }

  /** Neither an adoptable node nor a child is the holder itself. */
  lemma NotHolder(nodes: Nodes, rank: map<NodeId, nat>, n: NodeId, olds: seq<NodeId>, xs: seq<NodeId>)
    requires Ranked(nodes, rank) && n in nodes && Adoptable(nodes, rank, n, olds, xs)
    requires forall y :: y in olds ==> y in nodes && nodes[y].parent == Some(n)
    ensures n !in xs && n !in olds
  {
  }

  /**
   * An owned Set on values: the attach loop over `items` below `n`, the detach loop over the old
   * nodes of slot `i` with flags `drop`, and `v` stored in the slot.
   */
  function Swap(nodes: Nodes, n: NodeId, i: nat, v: SlotValue, items: seq<Entry<NodeId>>, collection: string, drop: seq<bool>): Nodes
    requires n in nodes && i < |nodes[n].slots| && AllIn(nodes, items)
    requires |drop| == |Held(nodes[n].slots[i])| && forall y :: y in Held(nodes[n].slots[i]) ==> y in nodes
  {
    var olds := Held(nodes[n].slots[i]);
    WithSlot(Detach(Attach(nodes, n, items, |items|, collection), n, olds, drop, |olds|), n, i, v)
  }

  /** The final parents of a Swap: the new nodes are children of `n`, the dropped ones have none, the rest keep theirs. */
  lemma SwapParents(nodes: Nodes, n: NodeId, i: nat, v: SlotValue, items: seq<Entry<NodeId>>, collection: string, drop: seq<bool>)
    requires n in nodes && i < |nodes[n].slots| && AllIn(nodes, items)
    requires |drop| == |Held(nodes[n].slots[i])| && forall y :: y in Held(nodes[n].slots[i]) ==> y in nodes
    requires n !in Values(items) && n !in Held(nodes[n].slots[i])
    ensures var r := Swap(nodes, n, i, v, items, collection, drop);
            var olds := Held(nodes[n].slots[i]);
            forall x :: x in nodes ==>
              r[x].parent == if x in Dropped(olds, drop, |olds|) then None else if x in Values(items) then Some(n) else nodes[x].parent
  {
    var olds := Held(nodes[n].slots[i]);
    AttachAllParents(nodes, n, items, collection);
    var a := Attach(nodes, n, items, |items|, collection);
    DetachParents(a, n, olds, drop, |olds|);
    var d := Detach(a, n, olds, drop, |olds|);
    var r := Swap(nodes, n, i, v, items, collection, drop);
    assert r == WithSlot(d, n, i, v);
    forall x | x in nodes
      ensures r[x].parent == if x in Dropped(olds, drop, |olds|) then None else if x in Values(items) then Some(n) else nodes[x].parent
    {
      assert r[x].parent == d[x].parent;
    }
  }

  /** After the whole attach loop, exactly the items have `n` as parent among the nodes whose parent it set. */
  lemma AttachAllParents(nodes: Nodes, n: NodeId, items: seq<Entry<NodeId>>, collection: string)
    requires n in nodes && AllIn(nodes, items) && n !in Values(items)
    ensures var a := Attach(nodes, n, items, |items|, collection);
            forall x :: x in nodes ==> a[x].parent == if x in Values(items) then Some(n) else nodes[x].parent
  {
    var vals := Values(items);
    var a := Attach(nodes, n, items, |items|, collection);
    AttachFrame(nodes, n, items, |items|, collection);
    AttachParents(nodes, n, items, |items|, collection);
    assert vals[..|items|] == vals;
    forall x | x in vals ensures a[x].parent == Some(n) {
      var k :| 0 <= k < |items| && vals[k] == x;
      assert a[items[k].value].parent == Some(n);
    }
  }

  /**
   * Swap meets the conditions of ReplaceSlot when `v` holds exactly the attached nodes, once each,
   * and the flags spare every node `v` holds.
   */
  lemma SwapReplaces(nodes: Nodes, rank: map<NodeId, nat>, n: NodeId, i: nat, v: SlotValue,
                     items: seq<Entry<NodeId>>, collection: string, drop: seq<bool>)
    requires Ranked(nodes, rank) && HeldLinked(nodes) && n in nodes && i < |nodes[n].slots| && AllIn(nodes, items)
    requires Adoptable(nodes, rank, n, Held(nodes[n].slots[i]), Values(items))
    requires NoDup(Held(v)) && forall x :: x in Held(v) <==> x in Values(items)
    requires |drop| == |Held(nodes[n].slots[i])|
    requires forall k :: 0 <= k < |drop| && drop[k] ==> Held(nodes[n].slots[i])[k] !in Held(v)
    ensures forall y :: y in Held(nodes[n].slots[i]) ==> y in nodes
    ensures Replaces(nodes, Swap(nodes, n, i, v, items, collection, drop), n, i, v)
  {
    var olds := Held(nodes[n].slots[i]);
    HeldAreChildren(nodes, n, i);
    NotHolder(nodes, rank, n, olds, Values(items));
    SwapShape(nodes, n, i, v, items, collection, drop);
    SwapParents(nodes, n, i, v, items, collection, drop);
    DroppedOnly(olds, drop, |olds|, Held(v));
    var r := Swap(nodes, n, i, v, items, collection, drop);
    var dropped := Dropped(olds, drop, |olds|);
    assert forall x :: x in Values(items) ==> x in nodes && (nodes[x].parent.None? || (nodes[x].parent == Some(n) && x in olds));
    ReplacesByParents(nodes, r, n, i, v, dropped, Values(items));
  }

  /**
   * The conditions of ReplaceSlot from the final parents alone: `vals` become children of `n`,
   * `dropped` lose their parent, every other node keeps its own.
   */
  lemma ReplacesByParents(nodes: Nodes, r: Nodes, n: NodeId, i: nat, v: SlotValue, dropped: seq<NodeId>, vals: seq<NodeId>)
    requires n in nodes && i < |nodes[n].slots|
    requires r.Keys == nodes.Keys && (forall m :: m in nodes ==> r[m].cls == nodes[m].cls)
    requires (forall m :: m in nodes && m != n ==> r[m].slots == nodes[m].slots) && r[n].slots == nodes[n].slots[i := v]
    requires forall x :: x in nodes ==> r[x].parent == if x in dropped then None else if x in vals then Some(n) else nodes[x].parent
    requires NoDup(Held(v)) && forall x :: x in Held(v) <==> x in vals
    requires forall x :: x in vals ==> x in nodes && (nodes[x].parent.None? || (nodes[x].parent == Some(n) && x in Held(nodes[n].slots[i])))
    requires forall x :: x in dropped ==> x in Held(nodes[n].slots[i]) && x !in Held(v)
    requires forall y :: y in Held(nodes[n].slots[i]) ==> y in nodes && nodes[y].parent == Some(n)
    ensures Replaces(nodes, r, n, i, v)
  {
    var olds := Held(nodes[n].slots[i]);
    forall x | x in Held(v) ensures x in r && r[x].parent == Some(n) {
      assert x !in dropped && x in vals;
    }
    forall x | x in Held(v) && x in nodes && nodes[x].parent == Some(n) ensures x in olds {
      assert x in vals;
    }
    forall x | x in nodes && r[x].parent != nodes[x].parent
      ensures || nodes[x].parent.None?
              || (nodes[x].parent == Some(n) && x in olds && x !in Held(v))
    {
      if x !in dropped {
        assert x in vals;
      }
    }
  }

  /** Only the attach loop renames. */
  lemma SwapKeys(nodes: Nodes, n: NodeId, i: nat, v: SlotValue, items: seq<Entry<NodeId>>, collection: string, drop: seq<bool>)
    requires n in nodes && i < |nodes[n].slots| && AllIn(nodes, items)
    requires |drop| == |Held(nodes[n].slots[i])| && forall y :: y in Held(nodes[n].slots[i]) ==> y in nodes
    ensures var r := Swap(nodes, n, i, v, items, collection, drop);
            var a := Attach(nodes, n, items, |items|, collection);
            forall m :: m in nodes ==> r[m].dataKey == a[m].dataKey && r[m].collectionKey == a[m].collectionKey
  {
  }

  /**
   * When no flag is set on an item, Swap leaves `n` with slot `i` set to `v`, makes every item a
   * child of `n`, and keeps the parent of every node that is neither an item nor an old node.
   */
  lemma SwapEffect(nodes: Nodes, n: NodeId, i: nat, v: SlotValue, items: seq<Entry<NodeId>>, collection: string, drop: seq<bool>)
    requires n in nodes && i < |nodes[n].slots| && AllIn(nodes, items)
    requires |drop| == |Held(nodes[n].slots[i])| && forall y :: y in Held(nodes[n].slots[i]) ==> y in nodes
    requires n !in Values(items) && n !in Held(nodes[n].slots[i])
    requires forall k :: 0 <= k < |drop| && drop[k] ==> Held(nodes[n].slots[i])[k] !in Values(items)
    ensures var r := Swap(nodes, n, i, v, items, collection, drop);
            && r.Keys == nodes.Keys
            && r[n].slots == nodes[n].slots[i := v]
            && (forall x :: x in Values(items) ==> r[x].parent == Some(n))
            && (forall m :: m in nodes && m !in Values(items) && m !in Held(nodes[n].slots[i]) ==> r[m].parent == nodes[m].parent)
  {
    var ys := Held(nodes[n].slots[i]);
    SwapShape(nodes, n, i, v, items, collection, drop);
    SwapParents(nodes, n, i, v, items, collection, drop);
    DroppedOnly(ys, drop, |ys|, Values(items));
    var r := Swap(nodes, n, i, v, items, collection, drop);
    forall m | m in nodes && m !in Values(items) && m !in ys ensures r[m].parent == nodes[m].parent {
      assert m !in Dropped(ys, drop, |ys|);
    }
  }

  /**
   * With distinct items, Swap names an item that was not a child of `n` by its key in the
   * collection; every other node keeps its keys.
   */
  lemma SwapNames(nodes: Nodes, n: NodeId, i: nat, v: SlotValue, items: seq<Entry<NodeId>>, collection: string, drop: seq<bool>)
    requires n in nodes && i < |nodes[n].slots| && AllIn(nodes, items) && NoDup(Values(items))
    requires |drop| == |Held(nodes[n].slots[i])| && forall y :: y in Held(nodes[n].slots[i]) ==> y in nodes
    ensures var r := Swap(nodes, n, i, v, items, collection, drop);
            && (forall k :: 0 <= k < |items| ==>
                  if nodes[items[k].value].parent == Some(n)
                  then r[items[k].value].dataKey == nodes[items[k].value].dataKey && r[items[k].value].collectionKey == nodes[items[k].value].collectionKey
                  else r[items[k].value].dataKey == items[k].key && r[items[k].value].collectionKey == collection)
            && (forall m :: m in nodes && m !in Values(items) ==> r[m].dataKey == nodes[m].dataKey && r[m].collectionKey == nodes[m].collectionKey)
  {
    SwapNamesItems(nodes, n, i, v, items, collection, drop);
    SwapNamesRest(nodes, n, i, v, items, collection, drop);
  }

  lemma SwapNamesItems(nodes: Nodes, n: NodeId, i: nat, v: SlotValue, items: seq<Entry<NodeId>>, collection: string, drop: seq<bool>)
    requires n in nodes && i < |nodes[n].slots| && AllIn(nodes, items) && NoDup(Values(items))
    requires |drop| == |Held(nodes[n].slots[i])| && forall y :: y in Held(nodes[n].slots[i]) ==> y in nodes
    ensures var r := Swap(nodes, n, i, v, items, collection, drop);
            forall k :: 0 <= k < |items| ==>
              if nodes[items[k].value].parent == Some(n)
              then r[items[k].value].dataKey == nodes[items[k].value].dataKey && r[items[k].value].collectionKey == nodes[items[k].value].collectionKey
              else r[items[k].value].dataKey == items[k].key && r[items[k].value].collectionKey == collection
  {
    AttachNames(nodes, n, items, |items|, collection);
    SwapKeys(nodes, n, i, v, items, collection, drop);
  }

  lemma SwapNamesRest(nodes: Nodes, n: NodeId, i: nat, v: SlotValue, items: seq<Entry<NodeId>>, collection: string, drop: seq<bool>)
    requires n in nodes && i < |nodes[n].slots| && AllIn(nodes, items)
    requires |drop| == |Held(nodes[n].slots[i])| && forall y :: y in Held(nodes[n].slots[i]) ==> y in nodes
    ensures var r := Swap(nodes, n, i, v, items, collection, drop);
            forall m :: m in nodes && m !in Values(items) ==> r[m].dataKey == nodes[m].dataKey && r[m].collectionKey == nodes[m].collectionKey
  {
    AttachPlaces(nodes, n, items, |items|, collection);
    SwapKeys(nodes, n, i, v, items, collection, drop);
    var a := Attach(nodes, n, items, |items|, collection);
    assert Values(items)[..|items|] == Values(items);
    forall m | m in nodes && m !in Values(items) ensures SamePlace(a[m], nodes[m]) {
      assert m !in Values(items)[..|items|];
    }
  }

  /** A dropped old node ends with no parent. */
  lemma SwapDropped(nodes: Nodes, n: NodeId, i: nat, v: SlotValue, items: seq<Entry<NodeId>>, collection: string, drop: seq<bool>, k: nat)
    requires n in nodes && i < |nodes[n].slots| && AllIn(nodes, items)
    requires |drop| == |Held(nodes[n].slots[i])| && forall y :: y in Held(nodes[n].slots[i]) ==> y in nodes
    requires n !in Values(items) && n !in Held(nodes[n].slots[i])
    requires k < |drop| && drop[k]
    ensures Swap(nodes, n, i, v, items, collection, drop)[Held(nodes[n].slots[i])[k]].parent.None?
  {
    SwapParents(nodes, n, i, v, items, collection, drop);
  }

  /** A distinct old node whose flag is clear and that is not an item keeps its parent through Swap. */
  lemma SwapKept(nodes: Nodes, n: NodeId, i: nat, v: SlotValue, items: seq<Entry<NodeId>>, collection: string, drop: seq<bool>, k: nat)
    requires n in nodes && i < |nodes[n].slots| && AllIn(nodes, items)
    requires |drop| == |Held(nodes[n].slots[i])| && forall y :: y in Held(nodes[n].slots[i]) ==> y in nodes
    requires n !in Values(items) && n !in Held(nodes[n].slots[i]) && NoDup(Held(nodes[n].slots[i]))
    requires k < |drop| && !drop[k] && Held(nodes[n].slots[i])[k] !in Values(items)
    ensures var y := Held(nodes[n].slots[i])[k];
            Swap(nodes, n, i, v, items, collection, drop)[y].parent == nodes[y].parent
  {
    var ys := Held(nodes[n].slots[i]);
    var y := ys[k];
    SwapParents(nodes, n, i, v, items, collection, drop);
    forall k' | 0 <= k' < |ys| && drop[k'] ensures ys[k'] !in [y] {
      assert k' != k;
      if k' < k { assert ys[k'] != ys[k]; } else { assert ys[k] != ys[k']; }
    }
    DroppedOnly(ys, drop, |ys|, [y]);
  }

  /** Swap keeps the nodes and their classes, and changes only slot `i` of `n`, to `v`. */
  lemma SwapShape(nodes: Nodes, n: NodeId, i: nat, v: SlotValue, items: seq<Entry<NodeId>>, collection: string, drop: seq<bool>)
    requires n in nodes && i < |nodes[n].slots| && AllIn(nodes, items)
    requires |drop| == |Held(nodes[n].slots[i])| && forall y :: y in Held(nodes[n].slots[i]) ==> y in nodes
    ensures var r := Swap(nodes, n, i, v, items, collection, drop);
            && r.Keys == nodes.Keys
            && (forall m :: m in nodes ==> r[m].cls == nodes[m].cls)
            && (forall m :: m in nodes && m != n ==> r[m].slots == nodes[m].slots)
            && r[n].slots == nodes[n].slots[i := v]
  {
  }

  /** The detach flags of the owned-array Set: an old element goes when the new array does not contain it. */
  function ArrayDrops(olds: seq<NodeId>, vs: seq<NodeId>): (drop: seq<bool>)
    ensures |drop| == |olds| && forall k :: 0 <= k < |olds| ==> drop[k] == (olds[k] !in vs)
  {
    seq(|olds|, k requires 0 <= k < |olds| => olds[k] !in vs)
  }

  /** The detach flags of the owned-map Set: an old entry goes when the new map has no entry under its key. */
  function KeyDrops(olds: seq<Entry<NodeId>>, es: seq<Entry<NodeId>>): (drop: seq<bool>)
    ensures |drop| == |olds| && forall k :: 0 <= k < |olds| ==> drop[k] == Find(es, olds[k].key).None?
  {
    seq(|olds|, k requires 0 <= k < |olds| => Find(es, olds[k].key).None?)
  }

  /** The nodes after FDataProperty<TArray<T*>>::Set has replaced slot `i` of `n` by `vs`. */
  function ArraySwap(nodes: Nodes, n: NodeId, i: nat, vs: seq<NodeId>, fieldName: string): Nodes
    requires n in nodes && i < |nodes[n].slots| && nodes[n].slots[i].NodeArraySlot?
    requires (forall x :: x in vs ==> x in nodes) && (forall y :: y in nodes[n].slots[i].nodes ==> y in nodes)
  {
    var olds := nodes[n].slots[i].nodes;
    assert AllIn(nodes, Indexed(vs)) by {
      forall k | 0 <= k < |vs| ensures Indexed(vs)[k].value in nodes {
        assert vs[k] in vs;
      }
    }
    Swap(nodes, n, i, NodeArraySlot(vs), Indexed(vs), fieldName, ArrayDrops(olds, vs))
  }

  /** The change flag of the owned-array Set: some new element was not yet a child, or some old one is gone. */
  predicate ArrayChanged(nodes: Nodes, n: NodeId, olds: seq<NodeId>, vs: seq<NodeId>)
    requires forall x :: x in vs ==> x in nodes
  {
    (exists x :: x in vs && nodes[x].parent != Some(n)) || (exists y :: y in olds && y !in vs)
  }

  /** The owned-array Set keeps ownership when the new elements are distinct and adoptable. */
  lemma ArraySwapOwned(registry: map<ClassId, seq<FieldDesc>>, rank: map<NodeId, nat>, nodes: Nodes,
                       n: NodeId, i: nat, vs: seq<NodeId>, fieldName: string)
    requires Owned(registry, nodes) && Ranked(nodes, rank) && n in nodes && i < |nodes[n].slots|
    requires registry[nodes[n].cls][i].shape.NodeArrayField?
    requires NoDup(vs) && Adoptable(nodes, rank, n, nodes[n].slots[i].nodes, vs)
    ensures nodes[n].slots[i].NodeArraySlot? && forall y :: y in nodes[n].slots[i].nodes ==> y in nodes
    ensures Owned(registry, ArraySwap(nodes, n, i, vs, fieldName))
  {
    var olds := nodes[n].slots[i].nodes;
    assert Held(nodes[n].slots[i]) == olds;
    IndexedValues(vs);
    var v := NodeArraySlot(vs);
    SwapReplaces(nodes, rank, n, i, v, Indexed(vs), fieldName, ArrayDrops(olds, vs));
    ReplaceSlot(registry, nodes, ArraySwap(nodes, n, i, vs, fieldName), n, i, v);
  }

  /**
   * After the owned-array Set the slot holds `vs`, every element is a child of `n`, every old
   * element not in `vs` has no parent, and every other node keeps its parent.
   */
  lemma ArraySwapParents(nodes: Nodes, rank: map<NodeId, nat>, n: NodeId, i: nat, vs: seq<NodeId>, fieldName: string)
    requires Ranked(nodes, rank) && HeldLinked(nodes) && n in nodes && i < |nodes[n].slots| && nodes[n].slots[i].NodeArraySlot?
    requires Adoptable(nodes, rank, n, nodes[n].slots[i].nodes, vs)
    ensures forall y :: y in nodes[n].slots[i].nodes ==> y in nodes
    ensures var r := ArraySwap(nodes, n, i, vs, fieldName);
            var olds := nodes[n].slots[i].nodes;
            && r.Keys == nodes.Keys
            && r[n].slots == nodes[n].slots[i := NodeArraySlot(vs)]
            && (forall x :: x in vs ==> r[x].parent == Some(n))
            && (forall y :: y in olds && y !in vs ==> r[y].parent.None?)
            && (forall m :: m in nodes && m !in vs && m !in olds ==> r[m].parent == nodes[m].parent)
  {
    var olds := nodes[n].slots[i].nodes;
    assert Held(nodes[n].slots[i]) == olds;
    assert forall y :: y in olds ==> y in nodes && nodes[y].parent == Some(n);
    NotHolder(nodes, rank, n, olds, vs);
    IndexedValues(vs);
    var items := Indexed(vs);
    var drop := ArrayDrops(olds, vs);
    assert AllIn(nodes, items) by {
      forall k | 0 <= k < |vs| ensures items[k].value in nodes {
        assert vs[k] in vs;
      }
    }
    SwapShape(nodes, n, i, NodeArraySlot(vs), items, fieldName, drop);
    SwapParents(nodes, n, i, NodeArraySlot(vs), items, fieldName, drop);
    var r := ArraySwap(nodes, n, i, vs, fieldName);
    var dropped := Dropped(olds, drop, |olds|);
    DroppedOnly(olds, drop, |olds|, vs);
    forall y | y in olds && y !in vs ensures r[y].parent.None? {
      var k :| 0 <= k < |olds| && olds[k] == y;
      assert drop[k];
    }
    forall m | m in nodes && m !in vs && m !in olds ensures r[m].parent == nodes[m].parent {
      assert m !in dropped;
    }
  }

  /**
   * After the owned-array Set, an element that was not a child of `n` is named by its index in
   * the field's collection; every other node keeps its keys.
   */
  lemma ArraySwapNames(nodes: Nodes, n: NodeId, i: nat, vs: seq<NodeId>, fieldName: string)
    requires n in nodes && i < |nodes[n].slots| && nodes[n].slots[i].NodeArraySlot?
    requires (forall x :: x in vs ==> x in nodes) && (forall y :: y in nodes[n].slots[i].nodes ==> y in nodes)
    requires NoDup(vs)
    ensures var r := ArraySwap(nodes, n, i, vs, fieldName);
            && (forall k :: 0 <= k < |vs| ==>
                  if nodes[vs[k]].parent == Some(n)
                  then r[vs[k]].dataKey == nodes[vs[k]].dataKey && r[vs[k]].collectionKey == nodes[vs[k]].collectionKey
                  else r[vs[k]].dataKey == IntToString(k) && r[vs[k]].collectionKey == fieldName)
            && (forall m :: m in nodes && m !in vs ==> r[m].dataKey == nodes[m].dataKey && r[m].collectionKey == nodes[m].collectionKey)
  {
    var olds := nodes[n].slots[i].nodes;
    IndexedValues(vs);
    var items := Indexed(vs);
    assert AllIn(nodes, items) by {
      forall k | 0 <= k < |vs| ensures items[k].value in nodes {
        assert vs[k] in vs;
      }
    }
    SwapNames(nodes, n, i, NodeArraySlot(vs), items, fieldName, ArrayDrops(olds, vs));
  }

  /**
   * The owned-array Set records a change exactly when the new array and the slot's old array do
   * not hold the same nodes: a pure reorder is not a change.
   */
  lemma ArrayChangedIff(nodes: Nodes, rank: map<NodeId, nat>, n: NodeId, olds: seq<NodeId>, vs: seq<NodeId>)
    requires Ranked(nodes, rank) && n in nodes && Adoptable(nodes, rank, n, olds, vs)
    requires forall y :: y in olds ==> y in nodes && nodes[y].parent == Some(n)
    ensures ArrayChanged(nodes, n, olds, vs) <==> !(forall x :: x in vs <==> x in olds)
  {
  }

  /** For instance, reversing a two-element array is not a change. */
  lemma ArrayReorderIsNoChange(nodes: Nodes, n: NodeId, a: NodeId, b: NodeId)
    requires n in nodes && a in nodes && b in nodes && nodes[a].parent == Some(n) && nodes[b].parent == Some(n)
    ensures !ArrayChanged(nodes, n, [a, b], [b, a])
  {
  }

  /** A value occurs in the entries exactly when some entry carries it. */
  lemma ValuesIn<T>(es: seq<Entry<T>>, x: T)
    ensures x in Values(es) <==> exists e :: e in es && e.value == x
  {
    if x in Values(es) {
      var k :| 0 <= k < |es| && Values(es)[k] == x;
      assert es[k] in es;
    }
    if exists e :: e in es && e.value == x {
      var e :| e in es && e.value == x;
      var k :| 0 <= k < |es| && es[k] == e;
      assert Values(es)[k] == x;
    }
  }

  /** Sorting by key keeps the set of values. */
  lemma SortedValues<T>(es: seq<Entry<T>>)
    ensures forall x :: x in Values(KeyStableSort(es)) <==> x in Values(es)
  {
    forall x ensures x in Values(KeyStableSort(es)) <==> x in Values(es) {
      ValuesIn(es, x);
      ValuesIn(KeyStableSort(es), x);
      forall e ensures e in KeyStableSort(es) <==> e in es {
        SortedEntry(es, e);
      }
    }
  }

  /** Sorting entries with distinct keys keeps the keys distinct. */
  lemma SortedUniqueKeys<T>(es: seq<Entry<T>>)
    requires UniqueKeys(es)
    ensures UniqueKeys(KeyStableSort(es))
  {
    SortKeepsMap(es);
  }

  /** Two distinct entries of a sequence with distinct values carry distinct values. */
  lemma DistinctEntryValues<T>(es: seq<Entry<T>>, e0: Entry<T>, e1: Entry<T>)
    requires NoDup(Values(es)) && e0 in es && e1 in es && e0 != e1
    ensures e0.value != e1.value
  {
    var a :| 0 <= a < |es| && es[a] == e0;
    var b :| 0 <= b < |es| && es[b] == e1;
    assert a != b;
    if a < b {
      assert Values(es)[a] != Values(es)[b];
    } else {
      assert Values(es)[b] != Values(es)[a];
    }
  }

  /** Sorting entries with distinct keys keeps their values distinct. */
  lemma SortedDistinctValues<T>(es: seq<Entry<T>>)
    requires UniqueKeys(es) && NoDup(Values(es))
    ensures NoDup(Values(KeyStableSort(es)))
  {
    var s := KeyStableSort(es);
    SortedUniqueKeys(es);
    forall a, b | 0 <= a < b < |s| ensures Values(s)[a] != Values(s)[b] {
      assert s[a].key != s[b].key;
      SortedEntry(es, s[a]);
      SortedEntry(es, s[b]);
      DistinctEntryValues(es, s[a], s[b]);
    }
  }

  /** The owned-map Set's precondition on re-keying: a node under a key the new map drops is not kept under another key. */
  predicate NoRekeyedChild(olds: seq<Entry<NodeId>>, es: seq<Entry<NodeId>>)
  {
    forall k :: 0 <= k < |olds| && Find(es, olds[k].key).None? ==> olds[k].value !in Values(es)
  }

  /** The nodes after FDataProperty<TMap<FString, T*>>::Set has replaced slot `i` of `n` by `es`, stored key-sorted. */
  function MapSwap(nodes: Nodes, n: NodeId, i: nat, es: seq<Entry<NodeId>>, fieldName: string): Nodes
    requires n in nodes && i < |nodes[n].slots| && nodes[n].slots[i].NodeMapSlot?
    requires AllIn(nodes, es) && forall y :: y in Values(nodes[n].slots[i].children) ==> y in nodes
  {
    var olds := nodes[n].slots[i].children;
    Swap(nodes, n, i, NodeMapSlot(KeyStableSort(es)), es, fieldName, KeyDrops(olds, es))
  }

  /** The change flag of the owned-map Set: some new value was not yet a child, or some old key is gone. */
  predicate MapChanged(nodes: Nodes, n: NodeId, olds: seq<Entry<NodeId>>, es: seq<Entry<NodeId>>)
    requires AllIn(nodes, es)
  {
    || (exists k :: 0 <= k < |es| && nodes[es[k].value].parent != Some(n))
    || (exists k :: 0 <= k < |olds| && Find(es, olds[k].key).None?)
  }

  /** The key-sorted slot of the owned-map Set holds exactly the new values, once each, and no dropped old value. */
  lemma MapSlotHolds(olds: seq<Entry<NodeId>>, es: seq<Entry<NodeId>>)
    requires UniqueKeys(es) && NoDup(Values(es)) && NoRekeyedChild(olds, es)
    ensures var v := NodeMapSlot(KeyStableSort(es));
            && UniqueKeys(v.children) && NoDup(Held(v)) && (forall x :: x in Held(v) <==> x in Values(es))
            && forall k :: 0 <= k < |olds| && KeyDrops(olds, es)[k] ==> Values(olds)[k] !in Held(v)
  {
    SortedValues(es);
    SortedDistinctValues(es);
    SortedUniqueKeys(es);
  }

  /** The owned-map Set keeps ownership when the new map's values are distinct and adoptable and no child is re-keyed. */
  lemma MapSwapOwned(registry: map<ClassId, seq<FieldDesc>>, rank: map<NodeId, nat>, nodes: Nodes,
                     n: NodeId, i: nat, es: seq<Entry<NodeId>>, fieldName: string)
    requires Owned(registry, nodes) && Ranked(nodes, rank) && n in nodes && i < |nodes[n].slots|
    requires registry[nodes[n].cls][i].shape.NodeMapField?
    requires UniqueKeys(es) && NoDup(Values(es)) && AllIn(nodes, es)
    requires Adoptable(nodes, rank, n, Values(nodes[n].slots[i].children), Values(es))
    requires NoRekeyedChild(nodes[n].slots[i].children, es)
    ensures nodes[n].slots[i].NodeMapSlot? && forall y :: y in Values(nodes[n].slots[i].children) ==> y in nodes
    ensures Owned(registry, MapSwap(nodes, n, i, es, fieldName))
  {
    var olds := nodes[n].slots[i].children;
    assert Held(nodes[n].slots[i]) == Values(olds);
    var v := NodeMapSlot(KeyStableSort(es));
    MapSlotHolds(olds, es);
    SwapReplaces(nodes, rank, n, i, v, es, fieldName, KeyDrops(olds, es));
    ReplaceSlot(registry, nodes, MapSwap(nodes, n, i, es, fieldName), n, i, v);
  }

  /** The owned-map Set is a Swap whose old nodes are distinct children of `n`, neither of them nor any new value being `n`. */
  lemma MapSwapSetup(nodes: Nodes, rank: map<NodeId, nat>, n: NodeId, i: nat, es: seq<Entry<NodeId>>, fieldName: string)
    requires Ranked(nodes, rank) && HeldLinked(nodes) && HeldOnce(nodes) && n in nodes && i < |nodes[n].slots|
    requires nodes[n].slots[i].NodeMapSlot? && AllIn(nodes, es)
    requires Adoptable(nodes, rank, n, Values(nodes[n].slots[i].children), Values(es))
    ensures var olds := nodes[n].slots[i].children;
            && Held(nodes[n].slots[i]) == Values(olds) && NoDup(Values(olds))
            && (forall y :: y in Values(olds) ==> y in nodes && nodes[y].parent == Some(n))
            && n !in Values(es) && n !in Values(olds)
            && MapSwap(nodes, n, i, es, fieldName)
               == Swap(nodes, n, i, NodeMapSlot(KeyStableSort(es)), es, fieldName, KeyDrops(olds, es))
  {
    var ys := Values(nodes[n].slots[i].children);
    assert Held(nodes[n].slots[i]) == ys;
    SlotChildren(nodes, n, i);
    NotHolder(nodes, rank, n, ys, Values(es));
  }

  /** The nodes one slot holds are distinct children of its holder. */
  lemma HeldAreChildren(nodes: Nodes, n: NodeId, i: nat)
    requires HeldLinked(nodes) && n in nodes && i < |nodes[n].slots|
    ensures forall y :: y in Held(nodes[n].slots[i]) ==> y in nodes && nodes[y].parent == Some(n)
  {
  }

  lemma SlotChildren(nodes: Nodes, n: NodeId, i: nat)
    requires HeldLinked(nodes) && HeldOnce(nodes) && n in nodes && i < |nodes[n].slots|
    ensures NoDup(Held(nodes[n].slots[i]))
    ensures forall y :: y in Held(nodes[n].slots[i]) ==> y in nodes && nodes[y].parent == Some(n)
  {
  }

  /**
   * After the owned-map Set the slot holds the new map, key-sorted, every new value is a child of
   * `n`, and every node that is neither a new nor an old value keeps its parent.
   */
  lemma MapSwapParents(nodes: Nodes, rank: map<NodeId, nat>, n: NodeId, i: nat, es: seq<Entry<NodeId>>, fieldName: string)
    requires Ranked(nodes, rank) && HeldLinked(nodes) && HeldOnce(nodes) && n in nodes && i < |nodes[n].slots|
    requires nodes[n].slots[i].NodeMapSlot? && AllIn(nodes, es)
    requires Adoptable(nodes, rank, n, Values(nodes[n].slots[i].children), Values(es))
    requires NoRekeyedChild(nodes[n].slots[i].children, es)
    ensures forall y :: y in Values(nodes[n].slots[i].children) ==> y in nodes
    ensures var r := MapSwap(nodes, n, i, es, fieldName);
            var olds := nodes[n].slots[i].children;
            && r.Keys == nodes.Keys
            && r[n].slots == nodes[n].slots[i := NodeMapSlot(KeyStableSort(es))]
            && (forall x :: x in Values(es) ==> r[x].parent == Some(n))
            && (forall m :: m in nodes && m !in Values(es) && m !in Values(olds) ==> r[m].parent == nodes[m].parent)
  {
    MapSwapSetup(nodes, rank, n, i, es, fieldName);
    var olds := nodes[n].slots[i].children;
    SwapEffect(nodes, n, i, NodeMapSlot(KeyStableSort(es)), es, fieldName, KeyDrops(olds, es));
  }

  /**
   * After the owned-map Set the value of every old key the new map lacks has no parent, while the
   * old value under a kept key that the new map no longer holds stays a child of `n`, although
   * the slot, which now holds exactly the new values, no longer holds it.
   */
  lemma MapSwapReleases(nodes: Nodes, rank: map<NodeId, nat>, n: NodeId, i: nat, es: seq<Entry<NodeId>>, fieldName: string)
    requires Ranked(nodes, rank) && HeldLinked(nodes) && HeldOnce(nodes) && n in nodes && i < |nodes[n].slots|
    requires nodes[n].slots[i].NodeMapSlot? && AllIn(nodes, es)
    requires Adoptable(nodes, rank, n, Values(nodes[n].slots[i].children), Values(es))
    requires NoRekeyedChild(nodes[n].slots[i].children, es)
    ensures forall y :: y in Values(nodes[n].slots[i].children) ==> y in nodes
    ensures var r := MapSwap(nodes, n, i, es, fieldName);
            var olds := nodes[n].slots[i].children;
            && (forall k :: 0 <= k < |olds| && Find(es, olds[k].key).None? ==> r[olds[k].value].parent.None?)
            && (forall k :: 0 <= k < |olds| && Find(es, olds[k].key).Some? && olds[k].value !in Values(es) ==>
                  r[olds[k].value].parent == Some(n))
  {
    MapSwapSetup(nodes, rank, n, i, es, fieldName);
    MapDropsReleased(nodes, rank, n, i, es, fieldName);
    MapKeptStays(nodes, rank, n, i, es, fieldName);
  }

  /** The nodes a map slot holds are its values. */
  lemma HeldOfMap(v: SlotValue)
    requires v.NodeMapSlot?
    ensures Held(v) == Values(v.children)
  {
  }

  /**
   * The owned-map Set as written, without excluding a re-keyed child: a child of `n` that the old
   * map held under a key the new map drops, and that the new map holds under another key, is
   * skipped by the attach loop (it is already a child) and then detached by the detach loop (its
   * old key is gone). The stored map holds it, yet it has no parent.
   */
  lemma MapRekeyOrphans(nodes: Nodes, n: NodeId, i: nat, es: seq<Entry<NodeId>>, fieldName: string, k: nat)
    requires n in nodes && i < |nodes[n].slots| && nodes[n].slots[i].NodeMapSlot? && AllIn(nodes, es)
    requires forall y :: y in Values(nodes[n].slots[i].children) ==> y in nodes
    requires n !in Values(es) && n !in Values(nodes[n].slots[i].children)
    requires k < |nodes[n].slots[i].children|
    requires var e := nodes[n].slots[i].children[k];
             Find(es, e.key).None? && e.value in Values(es) && nodes[e.value].parent == Some(n)
    ensures var r := MapSwap(nodes, n, i, es, fieldName);
            var x := nodes[n].slots[i].children[k].value;
            x in Held(r[n].slots[i]) && r[x].parent.None?
  {
    var olds := nodes[n].slots[i].children;
    var drop := KeyDrops(olds, es);
    var v := NodeMapSlot(KeyStableSort(es));
    HeldOfMap(nodes[n].slots[i]);
    RekeyedIsDropped(olds, es, k);
    SwapDroppedParentless(nodes, n, i, v, es, fieldName, drop, olds[k].value);
    SwapStores(nodes, n, i, v, es, fieldName, drop);
    assert MapSwap(nodes, n, i, es, fieldName) == Swap(nodes, n, i, v, es, fieldName, drop);
    HeldOfMap(v);
    SortedValues(es);
  }

  /** An old entry whose key the new map lacks is among the nodes the detach loop drops. */
  lemma RekeyedIsDropped(olds: seq<Entry<NodeId>>, es: seq<Entry<NodeId>>, k: nat)
    requires k < |olds| && Find(es, olds[k].key).None?
    ensures olds[k].value in Dropped(Values(olds), KeyDrops(olds, es), |olds|)
  {
    assert Values(olds)[k] == olds[k].value;
  }

  /** A dropped node has no parent after the Swap. */
  lemma SwapDroppedParentless(nodes: Nodes, n: NodeId, i: nat, v: SlotValue, items: seq<Entry<NodeId>>, collection: string,
                              drop: seq<bool>, x: NodeId)
    requires n in nodes && i < |nodes[n].slots| && AllIn(nodes, items)
    requires |drop| == |Held(nodes[n].slots[i])| && forall y :: y in Held(nodes[n].slots[i]) ==> y in nodes
    requires n !in Values(items) && n !in Held(nodes[n].slots[i])
    requires x in Dropped(Held(nodes[n].slots[i]), drop, |drop|)
    ensures x in nodes && Swap(nodes, n, i, v, items, collection, drop)[x].parent.None?
  {
    SwapParents(nodes, n, i, v, items, collection, drop);
  }

  /** The Swap stores `v` in the slot. */
  lemma SwapStores(nodes: Nodes, n: NodeId, i: nat, v: SlotValue, items: seq<Entry<NodeId>>, collection: string, drop: seq<bool>)
    requires n in nodes && i < |nodes[n].slots| && AllIn(nodes, items)
    requires |drop| == |Held(nodes[n].slots[i])| && forall y :: y in Held(nodes[n].slots[i]) ==> y in nodes
    ensures var r := Swap(nodes, n, i, v, items, collection, drop);
            n in r && i < |r[n].slots| && r[n].slots[i] == v
  {
    SwapShape(nodes, n, i, v, items, collection, drop);
  }

  lemma MapDropsReleased(nodes: Nodes, rank: map<NodeId, nat>, n: NodeId, i: nat, es: seq<Entry<NodeId>>, fieldName: string)
    requires Ranked(nodes, rank) && HeldLinked(nodes) && HeldOnce(nodes) && n in nodes && i < |nodes[n].slots|
    requires nodes[n].slots[i].NodeMapSlot? && AllIn(nodes, es)
    requires Adoptable(nodes, rank, n, Values(nodes[n].slots[i].children), Values(es))
    requires NoRekeyedChild(nodes[n].slots[i].children, es)
    requires forall y :: y in Values(nodes[n].slots[i].children) ==> y in nodes
    ensures var r := MapSwap(nodes, n, i, es, fieldName);
            var olds := nodes[n].slots[i].children;
            forall k :: 0 <= k < |olds| && Find(es, olds[k].key).None? ==> r[olds[k].value].parent.None?
  {
    MapSwapSetup(nodes, rank, n, i, es, fieldName);
    var olds := nodes[n].slots[i].children;
    var drop := KeyDrops(olds, es);
    var r := MapSwap(nodes, n, i, es, fieldName);
    forall k | 0 <= k < |olds| && Find(es, olds[k].key).None? ensures r[olds[k].value].parent.None? {
      SwapDropped(nodes, n, i, NodeMapSlot(KeyStableSort(es)), es, fieldName, drop, k);
    }
  }

  lemma MapKeptStays(nodes: Nodes, rank: map<NodeId, nat>, n: NodeId, i: nat, es: seq<Entry<NodeId>>, fieldName: string)
    requires Ranked(nodes, rank) && HeldLinked(nodes) && HeldOnce(nodes) && n in nodes && i < |nodes[n].slots|
    requires nodes[n].slots[i].NodeMapSlot? && AllIn(nodes, es)
    requires Adoptable(nodes, rank, n, Values(nodes[n].slots[i].children), Values(es))
    requires forall y :: y in Values(nodes[n].slots[i].children) ==> y in nodes
    ensures var r := MapSwap(nodes, n, i, es, fieldName);
            var olds := nodes[n].slots[i].children;
            forall k :: 0 <= k < |olds| && Find(es, olds[k].key).Some? && olds[k].value !in Values(es) ==>
              r[olds[k].value].parent == Some(n)
  {
    MapSwapSetup(nodes, rank, n, i, es, fieldName);
    var olds := nodes[n].slots[i].children;
    var drop := KeyDrops(olds, es);
    var r := MapSwap(nodes, n, i, es, fieldName);
    forall k | 0 <= k < |olds| && Find(es, olds[k].key).Some? && olds[k].value !in Values(es)
      ensures r[olds[k].value].parent == Some(n)
    {
      SwapKept(nodes, n, i, NodeMapSlot(KeyStableSort(es)), es, fieldName, drop, k);
    }
  }

  /**
   * The names after an attach loop over `items` below `n`: an item that was not a child of `n`
   * carries its key in `collection`; one that was, and every node not among the items, keeps its keys.
   */
  ghost predicate NamedBy(nodes: Nodes, r: Nodes, n: NodeId, items: seq<Entry<NodeId>>, collection: string)
    requires AllIn(nodes, items) && r.Keys == nodes.Keys
  {
    && (forall k :: 0 <= k < |items| ==>
          if nodes[items[k].value].parent == Some(n)
          then r[items[k].value].dataKey == nodes[items[k].value].dataKey && r[items[k].value].collectionKey == nodes[items[k].value].collectionKey
          else r[items[k].value].dataKey == items[k].key && r[items[k].value].collectionKey == collection)
    && (forall m :: m in nodes && m !in Values(items) ==> r[m].dataKey == nodes[m].dataKey && r[m].collectionKey == nodes[m].collectionKey)
  }

  /**
   * After the owned-map Set, a new value that was not a child of `n` is named by its key in the
   * field's collection; one that was keeps its keys, as does every node the new map does not hold.
   */
  lemma MapSwapNames(nodes: Nodes, n: NodeId, i: nat, es: seq<Entry<NodeId>>, fieldName: string)
    requires n in nodes && i < |nodes[n].slots| && nodes[n].slots[i].NodeMapSlot?
    requires AllIn(nodes, es) && forall y :: y in Values(nodes[n].slots[i].children) ==> y in nodes
    requires NoDup(Values(es))
    ensures MapSwap(nodes, n, i, es, fieldName).Keys == nodes.Keys
    ensures NamedBy(nodes, MapSwap(nodes, n, i, es, fieldName), n, es, fieldName)
  {
    SwapNames(nodes, n, i, NodeMapSlot(KeyStableSort(es)), es, fieldName, KeyDrops(nodes[n].slots[i].children, es));
  }

  /**
   * The owned-map Set records a change exactly when some new value is not already one of the
   * slot's values, or some old key is missing from the new map: moving values between kept keys
   * is not a change.
   */
  lemma MapChangedIff(nodes: Nodes, rank: map<NodeId, nat>, n: NodeId, olds: seq<Entry<NodeId>>, es: seq<Entry<NodeId>>)
    requires Ranked(nodes, rank) && n in nodes && AllIn(nodes, es) && Adoptable(nodes, rank, n, Values(olds), Values(es))
    requires forall y :: y in Values(olds) ==> y in nodes && nodes[y].parent == Some(n)
    ensures MapChanged(nodes, n, olds, es) <==>
              !((forall x :: x in Values(es) ==> x in Values(olds)) && Keys(olds) <= Keys(es))
  {
    if (forall x :: x in Values(es) ==> x in Values(olds)) && Keys(olds) <= Keys(es) {
      forall k | 0 <= k < |es| ensures nodes[es[k].value].parent == Some(n) {
        assert Values(es)[k] == es[k].value;
      }
      forall k | 0 <= k < |olds| ensures Find(es, olds[k].key).Some? {
        assert olds[k].key in Keys(olds);
      }
    } else if exists x :: x in Values(es) && x !in Values(olds) {
      var x :| x in Values(es) && x !in Values(olds);
      var k :| 0 <= k < |es| && Values(es)[k] == x;
      assert nodes[es[k].value].parent != Some(n);
    } else {
      var key :| key in Keys(olds) && key !in Keys(es);
      var k :| 0 <= k < |olds| && olds[k].key == key;
      assert Find(es, olds[k].key).None?;
    }
  }

  /** For instance, exchanging the values of two keys is not a change, so the slot keeps its old pairing. */
  lemma MapValueExchangeIsNoChange(nodes: Nodes, n: NodeId, a: NodeId, b: NodeId)
    requires n in nodes && a in nodes && b in nodes && nodes[a].parent == Some(n) && nodes[b].parent == Some(n)
    ensures !MapChanged(nodes, n, [Entry("x", a), Entry("y", b)], [Entry("x", b), Entry("y", a)])
  {
    var es := [Entry("x", b), Entry("y", a)];
    assert Find(es, "x").Some? by { assert es[0].key == "x"; }
    assert Find(es, "y").Some? by { assert es[1].key == "y"; }
  }

  /**
   * FDataProperty<T*>::Set on values, when the new value differs from the held one: the held node
   * is unlinked, the slot takes the new value, and a new node is named by the field and linked below `n`.
   */
  function NodeSwap(nodes: Nodes, n: NodeId, i: nat, v: Option<NodeId>, fieldName: string): (r: Nodes)
    requires n in nodes && i < |nodes[n].slots| && nodes[n].slots[i].NodeSlot?
    requires (nodes[n].slots[i].node.Some? ==> nodes[n].slots[i].node.value in nodes) && (v.Some? ==> v.value in nodes)
    ensures r.Keys == nodes.Keys
  {
    var prev := nodes[n].slots[i].node;
    var released := if prev.Some? then Unlink(nodes, n, prev.value) else nodes;
    var stored := WithSlot(released, n, i, NodeSlot(v));
    if v.Some? then Adopt(stored, n, v.value, fieldName, "") else stored
  }

  /**
   * After the owned-node Set the slot holds `v`; the node it held has no parent; the new node is a
   * child of `n` named by the field with an empty collection; every other node keeps its parent,
   * its keys and its slots.
   */
  lemma NodeSwapEffect(nodes: Nodes, rank: map<NodeId, nat>, n: NodeId, i: nat, v: Option<NodeId>, fieldName: string)
    requires Ranked(nodes, rank) && HeldLinked(nodes) && n in nodes && i < |nodes[n].slots| && nodes[n].slots[i].NodeSlot?
    requires v != nodes[n].slots[i].node
    requires v.Some? ==> v.value in nodes && nodes[v.value].parent.None? && !Under(nodes, rank, n, v.value)
    ensures nodes[n].slots[i].node.Some? ==> nodes[n].slots[i].node.value in nodes
    ensures var r := NodeSwap(nodes, n, i, v, fieldName);
            var prev := nodes[n].slots[i].node;
            && r[n].slots == nodes[n].slots[i := NodeSlot(v)]
            && (forall m :: m in nodes && m != n ==> r[m].cls == nodes[m].cls && r[m].slots == nodes[m].slots)
            && (prev.Some? ==> r[prev.value].parent.None?)
            && (v.Some? ==> r[v.value].parent == Some(n) && r[v.value].dataKey == fieldName && r[v.value].collectionKey == "")
            && (forall m :: m in nodes && Some(m) != prev && Some(m) != v ==>
                  r[m].parent == nodes[m].parent && r[m].dataKey == nodes[m].dataKey && r[m].collectionKey == nodes[m].collectionKey)
  {
    var prev := nodes[n].slots[i].node;
    if prev.Some? {
      assert prev.value in Held(nodes[n].slots[i]);
    }
    if v.Some? {
      assert v.value != n;
    }
  }

  /** The owned-node Set keeps ownership when the new node is unparented and not an ancestor of `n`. */
  lemma NodeSwapOwned(registry: map<ClassId, seq<FieldDesc>>, rank: map<NodeId, nat>, nodes: Nodes,
                      n: NodeId, i: nat, v: Option<NodeId>, fieldName: string)
    requires Owned(registry, nodes) && Ranked(nodes, rank) && n in nodes && i < |nodes[n].slots|
    requires registry[nodes[n].cls][i].shape.NodeField?
    requires v != nodes[n].slots[i].node
    requires v.Some? ==> v.value in nodes && nodes[v.value].parent.None? && !Under(nodes, rank, n, v.value)
    ensures nodes[n].slots[i].NodeSlot?
    ensures var prev := nodes[n].slots[i].node;
            prev.Some? ==> prev.value in nodes && nodes[prev.value].parent == Some(n)
    ensures Owned(registry, NodeSwap(nodes, n, i, v, fieldName))
  {
    assert nodes[n].slots[i].NodeSlot?;
    NodeSwapEffect(nodes, rank, n, i, v, fieldName);
    var r := NodeSwap(nodes, n, i, v, fieldName);
    var prev := nodes[n].slots[i].node;
    assert Held(NodeSlot(v)) == if v.Some? then [v.value] else [];
    assert prev.Some? ==> Held(nodes[n].slots[i]) == [prev.value];
    assert Replaces(nodes, r, n, i, NodeSlot(v));
    ReplaceSlot(registry, nodes, r, n, i, NodeSlot(v));
  }

  /** Storing any value in a slot keeps the links: slots are not links. */
  lemma SlotKeepsLinks(nodes: Nodes, tables: map<NodeId, Table>, rank: map<NodeId, nat>, bound: nat, next: nat,
                       n: NodeId, i: nat, v: SlotValue)
    requires LinksOK(nodes, tables, rank, bound, next) && n in nodes && i < |nodes[n].slots|
    ensures LinksOK(WithSlot(nodes, n, i, v), tables, rank, bound, next)
    ensures forall m, y :: m in nodes ==> Under(WithSlot(nodes, n, i, v), rank, m, y) == Under(nodes, rank, m, y)
  {
    var r := WithSlot(nodes, n, i, v);
    SameLinks(nodes, r, rank, bound);
    forall m, y | m in nodes ensures Under(r, rank, m, y) == Under(nodes, rank, m, y) {
      SameUnder(nodes, r, rank, m, y);
    }
  }

  /** Ancestry depends on the parent links alone. */
  lemma {:induction false} SameUnder(nodes: Nodes, nodes': Nodes, rank: map<NodeId, nat>, m: NodeId, y: NodeId)
    requires Ranked(nodes, rank) && Ranked(nodes', rank) && m in nodes && nodes'.Keys == nodes.Keys
    requires forall x :: x in nodes ==> nodes'[x].parent == nodes[x].parent
    ensures Under(nodes', rank, m, y) == Under(nodes, rank, m, y)
    decreases rank[m]
  {
    if nodes[m].parent.Some? {
      SameUnder(nodes, nodes', rank, nodes[m].parent.value, y);
    }
  }

  /** Storing a value that holds no node in a slot that held none keeps ownership, when it fits the field. */
  lemma PlainSlotOwned(registry: map<ClassId, seq<FieldDesc>>, nodes: Nodes, n: NodeId, i: nat, v: SlotValue)
    requires Owned(registry, nodes) && n in nodes && i < |nodes[n].slots|
    requires Conforms(registry[nodes[n].cls][i].shape, v) && Held(v) == [] && Held(nodes[n].slots[i]) == []
    ensures Owned(registry, WithSlot(nodes, n, i, v))
  {
    ReplaceSlot(registry, nodes, WithSlot(nodes, n, i, v), n, i, v);
  }
}
