/**
 * The data nodes of one world and their listener tables, updated in place: parent/child
 * linking, renaming, root discovery, the broadcast of events with bubbling and the
 * re-entrancy counter, delegate binding and deferred pruning, and node allocation.
 */
module Forest {
  import opened Options
  import opened OrderedMaps
  import opened DataModel
  import opened Events
  import opened ForestModel

  class DataForest {
    /** The reflected fields of each data class, in registration order. */
    const registry: map<ClassId, seq<FieldDesc>>
    /** The reflected links of each data class. */
    const links: map<ClassId, seq<LinkDesc>>
    /** What each listener does when it runs. */
    const react: ListenerId -> Reaction

    var nodes: Nodes
    var tables: map<NodeId, Table>
    var nextId: nat

    ghost var rank: map<NodeId, nat>
    ghost var rankBound: nat
    /** The changes recorded by FPsDataFriend::Changed, oldest first. */
    ghost var changes: seq<Change>

    /** The parent relation is an acyclic forest that agrees with Children; every node has an idle table. */
    ghost predicate ValidLinks()
      reads this`nodes, this`tables, this`rank, this`rankBound, this`nextId
    {
      LinksOK(nodes, tables, rank, rankBound, nextId)
    }

    /** The links are valid, every owned field names a registered class, and the slots agree with the links. */
    ghost predicate Valid()
      reads this`nodes, this`tables, this`rank, this`rankBound, this`nextId
    {
      ValidLinks() && RegistryClosed(registry) && Owned(registry, nodes)
    }

    constructor(registry: map<ClassId, seq<FieldDesc>>, links: map<ClassId, seq<LinkDesc>>, react: ListenerId -> Reaction)
      ensures ValidLinks()
      ensures RegistryClosed(registry) ==> Valid()
      ensures this.registry == registry && this.links == links && this.react == react
      ensures nodes == map[] && tables == map[] && changes == []
    {
      this.registry := registry;
      this.links := links;
      this.react := react;
      nodes := map[];
      tables := map[];
      nextId := 0;
      rank := map[];
      rankBound := 0;
      changes := [];
    }

    /** A fresh, unparented node of the class, with initial slots and an empty listener table. */
    method Allocate(cls: ClassId) returns (x: NodeId)
      requires ValidLinks() && cls in registry
      modifies this`nodes, this`tables, this`nextId, this`rank, this`rankBound
      ensures ValidLinks()
      ensures x !in old(nodes)
      ensures nodes == old(nodes)[x := Fresh(registry, cls)]
      ensures tables == old(tables)[x := Table(0, map[])]
      ensures changes == old(changes)
      ensures forall m :: m in old(nodes) ==> rank[m] == old(rank)[m]
      ensures old(Owned(registry, nodes)) ==> Owned(registry, nodes)
      ensures forall m, y :: m in old(nodes) ==>
                Under(nodes, rank, m, y) == Under(old(nodes), old(rank), m, y) && !Under(nodes, rank, m, x)
    {
      x := nextId;
      var nodes1 := nodes[x := Fresh(registry, cls)];
      ghost var rank1 := rank[x := 0];
      AllocateKeeps(registry, nodes, tables, rank, rankBound, nextId, cls);
      forall m, y | m in nodes
        ensures Under(nodes1, rank1, m, y) == Under(nodes, rank, m, y) && !Under(nodes1, rank1, m, x)
      {
        AddNodeAncestry(nodes, rank, x, Fresh(registry, cls), m, y);
      }
      nextId := nextId + 1;
      nodes := nodes1;
      tables := tables[x := Table(0, map[])];
      rank := rank1;
      rankBound := rankBound + 1;
    }

    /** UPsData::GetRoot: follows Parent to a node without one. */
    method GetRoot(n: NodeId) returns (r: NodeId)
      requires ValidLinks() && n in nodes
      ensures r in nodes && nodes[r].parent.None?
      ensures Under(nodes, rank, n, r)
    {
      r := n;
      while nodes[r].parent.Some?
        invariant r in nodes && Under(nodes, rank, n, r)
        decreases rank[r]
      {
        UnderStep(nodes, rank, n, r);
        r := nodes[r].parent.value;
      }
    }

    /** UpdateDelegates: sweeps the node's table unless a broadcast is in progress on it. */
    method UpdateDelegates(n: NodeId)
      requires n in tables
      modifies this`tables
      ensures tables == old(tables)[n := Refresh(old(tables)[n])]
      ensures Idle(nodes, old(tables)) ==> Idle(nodes, tables)
      ensures old(ValidLinks()) ==> ValidLinks()
    {
      if tables[n].broadcastInProgress > 0 {
        return;
      }
      var swept := SweepDelegates(tables[n].delegates);
      var t := tables[n].(delegates := swept);
      if ValidLinks() {
        TableKeeps(nodes, tables, rank, rankBound, nextId, n, t);
      }
      tables := tables[n := t];
      assert tables[n] == Refresh(old(tables)[n]);
    }

    /** The first half of BroadcastInternal at one node: counter up, target, and the listener loop. */
    method ArriveAt(n: NodeId, ev: Event, prev: Option<ClassId>) returns (e: Event)
      requires n in tables
      modifies this`tables
      ensures var run := Arrive(old(tables)[n], n, ev, prev, react);
              e == run.ev && tables == Raised(old(tables), n, run)
    {
      var t := tables[n];
      tables := tables[n := t.(broadcastInProgress := t.broadcastInProgress + 1)];
      e := ev;
      if e.target.None? {
        e := e.(target := Some(n));
      }
      if !e.stopImmediate && e.eventType in t.delegates {
        var result := RunListeners(t.delegates[e.eventType], e, prev, t.delegates, react);
        e := result.ev;
        tables := tables[n := tables[n].(delegates := result.delegates)];
      }
    }

    /** The end of BroadcastInternal at one node: counter down, then UpdateDelegates. */
    method LeaveAt(n: NodeId)
      requires n in tables
      modifies this`tables
      ensures tables == old(tables)[n := Settle(old(tables)[n])]
    {
      tables := tables[n := tables[n].(broadcastInProgress := tables[n].broadcastInProgress - 1)];
      UpdateDelegates(n);
    }

    /** UPsData::BroadcastInternal, specified by Dispatch. */
    method BroadcastInternal(n: NodeId, ev: Event, prev: Option<ClassId>) returns (r: Event)
      requires Ranked(nodes, rank) && n in nodes && nodes.Keys <= tables.Keys
      modifies this`tables
      ensures var d := Dispatch(nodes, rank, old(tables), n, ev, prev, react);
              r == d.ev && tables == d.tables
      decreases rank[n]
    {
      r := ArriveAt(n, ev, prev);
      if !r.stop && r.bubbles && nodes[n].parent.Some? {
        r := BroadcastInternal(nodes[n].parent.value, r, Some(nodes[n].cls));
      }
      LeaveAt(n);
    }

    /** UPsData::Broadcast, without the deferred branch its constant switches off. */
    method Broadcast(n: NodeId, ev: Event)
      requires ValidLinks() && n in nodes
      modifies this`tables
      ensures ValidLinks()
      ensures tables == Dispatch(nodes, rank, old(tables), n, ev, None, react).tables
    {
      var _ := BroadcastInternal(n, ev, None);
      DispatchBalanced(nodes, rank, old(tables), n, ev, None, react);
    }

    /** FPsDataFriend::ChangeDataName: renames and announces it, only when either key differs. */
    method ChangeDataName(x: NodeId, name: string, collection: string)
      requires ValidLinks() && x in nodes
      modifies this`nodes, this`tables
      ensures ValidLinks()
      ensures nodes == Rename(old(nodes), x, name, collection)
      ensures tables == if old(nodes)[x].dataKey == name && old(nodes)[x].collectionKey == collection then old(tables)
                        else Dispatch(nodes, rank, old(tables), x, ConstructEvent("NameChanged", false), None, react).tables
      ensures forall m, y :: m in old(nodes) ==> Under(nodes, rank, m, y) == Under(old(nodes), old(rank), m, y)
      ensures forall m :: m in old(tables) && m != x ==> m in tables && tables[m] == old(tables)[m]
    {
      RenameKeepsAncestry(nodes, rank, x, name, collection);
      if nodes[x].dataKey == name && nodes[x].collectionKey == collection {
        RenameSame(nodes, x);
      } else {
        RenameKeeps(nodes, tables, rank, rankBound, nextId, x, name, collection);
        nodes := Rename(nodes, x, name, collection);
        ghost var t0 := tables;
        var ev := ConstructEvent("NameChanged", false);
        Broadcast(x, ev);
        DispatchEnd(nodes, rank, t0, x, ev, None, react);
        DispatchFrame(nodes, rank, t0, x, ev, None, react);
      }
    }

    /** FPsDataFriend::AddChild: links an unparented node below `p`, then announces it with a bubbling event. */
    method AddChild(p: NodeId, c: NodeId)
      requires ValidLinks() && p in nodes && c in nodes
      requires nodes[c].parent.None?
      requires !Under(nodes, rank, p, c)
      modifies this`nodes, this`tables, this`rank, this`rankBound
      ensures ValidLinks()
      ensures nodes == Link(old(nodes), p, c)
      ensures rank == Shift(old(nodes), old(rank), p, c)
      ensures tables == Dispatch(nodes, rank, old(tables), c, ConstructEvent("Added", true), None, react).tables
      ensures nodes[c].parent == Some(p) && c in nodes[p].children
      ensures forall y :: Under(nodes, rank, p, y) == Under(old(nodes), old(rank), p, y)
      ensures KeptOffChain(old(nodes), old(rank), p, [c], old(tables), tables)
    {
      LinkKeeps(nodes, tables, rank, rankBound, nextId, p, c);
      LinkKeepsAncestry(nodes, rank, rankBound, p, c);
      rankBound := rankBound + rank[p] + 1;
      rank := Shift(nodes, rank, p, c);
      nodes := Link(nodes, p, c);
      ghost var t0 := tables;
      var ev := ConstructEvent("Added", true);
      Broadcast(c, ev);
      DispatchOffChain(nodes, rank, t0, c, ev, None, react);
      forall m | m in t0 && m != c && !Under(old(nodes), old(rank), p, m) ensures !Under(nodes, rank, c, m) {
        assert Under(nodes, rank, p, m) == Under(old(nodes), old(rank), p, m);
      }
    }

    /** FPsDataFriend::RemoveChild: announces the removal with a bubbling event, then unlinks. */
    method RemoveChild(p: NodeId, c: NodeId)
      requires ValidLinks() && p in nodes && c in nodes
      requires nodes[c].parent == Some(p)
      modifies this`nodes, this`tables
      ensures ValidLinks()
      ensures tables == Dispatch(old(nodes), rank, old(tables), c, ConstructEvent("Removing", true), None, react).tables
      ensures nodes == Unlink(old(nodes), p, c)
      ensures nodes[c].parent.None? && c !in nodes[p].children
      ensures forall y :: Under(nodes, rank, p, y) == Under(old(nodes), rank, p, y)
      ensures KeptOffChain(old(nodes), rank, p, [c], old(tables), tables)
    {
      ghost var t0 := tables;
      var ev := ConstructEvent("Removing", true);
      Broadcast(c, ev);
      DispatchOffChain(nodes, rank, t0, c, ev, None, react);
      forall m | m in t0 && m != c && !Under(nodes, rank, p, m) ensures !Under(nodes, rank, c, m) {
      }
      UnlinkKeeps(nodes, tables, rank, rankBound, nextId, p, c);
      UnlinkKeepsAncestry(nodes, rank, p, c);
      nodes := Unlink(nodes, p, c);
    }

    /** UPsData::BindInternal: a bound delegate goes last in its type's bucket, then UpdateDelegates. */
    method BindInternal(n: NodeId, eventType: string, listener: ListenerId, isBound: bool, field: Option<FieldDesc>)
      requires ValidLinks() && n in nodes
      modifies this`tables
      ensures ValidLinks()
      ensures tables == if !isBound then old(tables)
                        else old(tables)[n := Refresh(old(tables)[n].(delegates :=
                               AddDelegate(old(tables)[n].delegates, eventType, Wrapper(listener, true, field))))]
    {
      if !isBound {
        return;
      }
      var added := AddDelegate(tables[n].delegates, eventType, Wrapper(listener, true, field));
      var t := tables[n].(delegates := added);
      TableKeeps(nodes, tables, rank, rankBound, nextId, n, t);
      tables := tables[n := t];
      UpdateDelegates(n);
      assert tables == old(tables)[n := t][n := Refresh(t)];
      MapUpdateTwice(old(tables), n, t, Refresh(t));
    }

    /** UPsData::UnbindInternal: unbinds the listener's delegates for that field in the bucket, then UpdateDelegates. */
    method UnbindInternal(n: NodeId, eventType: string, listener: ListenerId, isBound: bool, field: Option<FieldDesc>)
      requires ValidLinks() && n in nodes
      modifies this`tables
      ensures ValidLinks()
      ensures var d := old(tables)[n].delegates;
              var marked := if isBound && eventType in d then d[eventType := MarkMatching(d[eventType], listener, field)] else d;
              tables == old(tables)[n := Refresh(old(tables)[n].(delegates := marked))]
    {
      var d := tables[n].delegates;
      if isBound && eventType in d {
        var bucket := UnbindMatching(d[eventType], listener, field);
        var t := tables[n].(delegates := d[eventType := bucket]);
        TableKeeps(nodes, tables, rank, rankBound, nextId, n, t);
        tables := tables[n := t];
        UpdateDelegates(n);
        MapUpdateTwice(old(tables), n, t, Refresh(t));
      } else {
        UpdateDelegates(n);
      }
    }
  }
}
