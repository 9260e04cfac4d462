/**
 * The node forest on values: parent/child links, a ghost rank that keeps the parent relation
 * acyclic, the ancestor relation, the three link edits (link, unlink, rename), the ownership
 * invariant between property slots and parents, and the dispatch of one event up the parents.
 */
module ForestModel {
  import opened Options
  import opened OrderedMaps
  import opened DataModel
  import opened Events

  type Nodes = map<NodeId, Data>

  /** Every parent is a node of lower rank: the parent relation has no cycle. */
  ghost predicate Ranked(nodes: Nodes, rank: map<NodeId, nat>)
  {
    && nodes.Keys <= rank.Keys
    && forall n :: n in nodes && nodes[n].parent.Some? ==>
         nodes[n].parent.value in nodes && rank[nodes[n].parent.value] < rank[n]
  }

  ghost predicate Bounded(nodes: Nodes, rank: map<NodeId, nat>, bound: nat)
  {
    forall n :: n in nodes ==> n in rank && rank[n] < bound
  }

  /** Parent and Children agree: a node's parent lists it, and a listed child names its parent. */
  ghost predicate Symmetric(nodes: Nodes)
  {
    && (forall n :: n in nodes && nodes[n].parent.Some? ==>
          nodes[n].parent.value in nodes && n in nodes[nodes[n].parent.value].children)
    && (forall n, c :: n in nodes && c in nodes[n].children ==> c in nodes && nodes[c].parent == Some(n))
  }

  /** `c` is `m` or one of its ancestors. */
  ghost predicate Under(nodes: Nodes, rank: map<NodeId, nat>, m: NodeId, c: NodeId)
    requires Ranked(nodes, rank) && m in nodes
    decreases rank[m]
  {
    m == c || (nodes[m].parent.Some? && Under(nodes, rank, nodes[m].parent.value, c))
  }

  /** AddChild's two writes: the child's parent and the parent's children. */
  function Link(nodes: Nodes, p: NodeId, c: NodeId): Nodes
    requires p in nodes && c in nodes
  {
    var linked := nodes[c := nodes[c].(parent := Some(p))];
    linked[p := linked[p].(children := linked[p].children + {c})]
  }

  /** RemoveChild's two writes. */
  function Unlink(nodes: Nodes, p: NodeId, c: NodeId): Nodes
    requires p in nodes && c in nodes
  {
    var unlinked := nodes[p := nodes[p].(children := nodes[p].children - {c})];
    unlinked[c := unlinked[c].(parent := None)]
  }

  /** ChangeDataName's two writes. */
  function Rename(nodes: Nodes, x: NodeId, name: string, collection: string): Nodes
    requires x in nodes
  {
    nodes[x := nodes[x].(dataKey := name, collectionKey := collection)]
  }

  /** The ranks after linking `c` under `p`: c's whole tree moves below p. */
  ghost function Shift(nodes: Nodes, rank: map<NodeId, nat>, p: NodeId, c: NodeId): map<NodeId, nat>
    requires Ranked(nodes, rank) && p in nodes
  {
    map m | m in rank :: if m in nodes && Under(nodes, rank, m, c) then rank[m] + rank[p] + 1 else rank[m]
  }

  /** `n` has the same ancestors in both forests. */
  ghost predicate SameAncestors(a: Nodes, ra: map<NodeId, nat>, b: Nodes, rb: map<NodeId, nat>, n: NodeId)
  {
    && Ranked(a, ra) && Ranked(b, rb) && n in a && n in b
    && forall y :: Under(a, ra, n, y) == Under(b, rb, n, y)
  }

  /** Keeping a node's ancestors is transitive across states. */
  lemma SameAncestorsTrans(a: Nodes, ra: map<NodeId, nat>, b: Nodes, rb: map<NodeId, nat>,
                           c: Nodes, rc: map<NodeId, nat>, n: NodeId)
    requires SameAncestors(a, ra, b, rb, n) && SameAncestors(b, rb, c, rc, n)
    ensures SameAncestors(a, ra, c, rc, n)
  {
  }

  /** An ancestor has a rank no greater than its descendant's. */
  lemma {:induction false} UnderRank(nodes: Nodes, rank: map<NodeId, nat>, m: NodeId, c: NodeId)
    requires Ranked(nodes, rank) && m in nodes && Under(nodes, rank, m, c)
    ensures c in nodes && rank[c] <= rank[m]
    decreases rank[m]
  {
    if m != c {
      UnderRank(nodes, rank, nodes[m].parent.value, c);
    }
  }

  /** Ancestry extends by one parent step. */
  lemma {:induction false} UnderStep(nodes: Nodes, rank: map<NodeId, nat>, m: NodeId, a: NodeId)
    requires Ranked(nodes, rank) && m in nodes && Under(nodes, rank, m, a)
    requires a in nodes && nodes[a].parent.Some?
    ensures Under(nodes, rank, m, nodes[a].parent.value)
    decreases rank[m]
  {
    if m != a {
      UnderStep(nodes, rank, nodes[m].parent.value, a);
    }
  }

  /** The node's own parent is never one of its descendants. */
  lemma ParentNotUnder(nodes: Nodes, rank: map<NodeId, nat>, c: NodeId)
    requires Ranked(nodes, rank) && c in nodes && nodes[c].parent.Some?
    ensures !Under(nodes, rank, nodes[c].parent.value, c)
  {
    if Under(nodes, rank, nodes[c].parent.value, c) {
      UnderRank(nodes, rank, nodes[c].parent.value, c);
    }
  }

  /** The node GetRoot's loop has reached after `k` steps from `x`: it stops at a node without a parent. */
  function Climb(nodes: Nodes, x: NodeId, k: nat): NodeId
    decreases k
  {
    if k == 0 || x !in nodes || nodes[x].parent.None? then x
    else Climb(nodes, nodes[x].parent.value, k - 1)
  }

  /**
   * AddChild as written, given an unparented ancestor `c` of `p`: it links `c` below `p` and closes
   * a cycle. From any node below `c` the climb never meets a node without a parent, however many
   * steps it takes, so GetRoot's loop and the path loop of Validation never end.
   */
  lemma {:induction false} LinkAncestorLoops(nodes: Nodes, rank: map<NodeId, nat>, p: NodeId, c: NodeId, x: NodeId, k: nat)
    requires Ranked(nodes, rank) && p in nodes && c in nodes && nodes[c].parent.None? && Under(nodes, rank, p, c)
    requires x in nodes && Under(nodes, rank, x, c)
    ensures var y := Climb(Link(nodes, p, c), x, k);
            y in nodes && Under(nodes, rank, y, c) && Link(nodes, p, c)[y].parent.Some?
    decreases k
  {
    var linked := Link(nodes, p, c);
    var next := if x == c then p else nodes[x].parent.value;
    assert linked[x].parent == Some(next);
    if k > 0 {
      LinkAncestorLoops(nodes, rank, p, c, next, k - 1);
    }
  }

  /** Linking an unparented node below a node outside its tree keeps the ranks valid, once its tree is shifted. */
  lemma LinkRanked(nodes: Nodes, rank: map<NodeId, nat>, bound: nat, p: NodeId, c: NodeId)
    requires Ranked(nodes, rank) && Bounded(nodes, rank, bound)
    requires p in nodes && c in nodes && nodes[c].parent.None? && !Under(nodes, rank, p, c)
    ensures Ranked(Link(nodes, p, c), Shift(nodes, rank, p, c))
    ensures Bounded(Link(nodes, p, c), Shift(nodes, rank, p, c), bound + rank[p] + 1)
  {
    var nodes' := Link(nodes, p, c);
    var rank' := Shift(nodes, rank, p, c);
    forall m | m in nodes' && nodes'[m].parent.Some?
      ensures nodes'[m].parent.value in nodes' && rank'[nodes'[m].parent.value] < rank'[m]
    {
      if m != c {
        var q := nodes[m].parent.value;
        assert nodes'[m].parent == Some(q);
        assert Under(nodes, rank, m, c) <==> Under(nodes, rank, q, c);
      }
    }
  }

  /** Linking `c` does not change the ancestors of a node outside c's tree. */
  lemma {:induction false} UnderLink(nodes: Nodes, rank: map<NodeId, nat>, bound: nat, p: NodeId, c: NodeId, m: NodeId, y: NodeId)
    requires Ranked(nodes, rank) && Bounded(nodes, rank, bound)
    requires p in nodes && c in nodes && nodes[c].parent.None? && !Under(nodes, rank, p, c)
    requires m in nodes && !Under(nodes, rank, m, c)
    ensures Ranked(Link(nodes, p, c), Shift(nodes, rank, p, c))
    ensures Under(Link(nodes, p, c), Shift(nodes, rank, p, c), m, y) == Under(nodes, rank, m, y)
    decreases rank[m]
  {
    LinkRanked(nodes, rank, bound, p, c);
    if m != y && nodes[m].parent.Some? {
      UnderLink(nodes, rank, bound, p, c, nodes[m].parent.value, y);
    }
  }

  /** Unlinking a child does not change the ancestors of a node outside its tree. */
  lemma {:induction false} UnderUnlink(nodes: Nodes, rank: map<NodeId, nat>, p: NodeId, c: NodeId, m: NodeId, y: NodeId)
    requires Ranked(nodes, rank) && p in nodes && c in nodes && nodes[c].parent == Some(p)
    requires m in nodes && !Under(nodes, rank, m, c)
    ensures Ranked(Unlink(nodes, p, c), rank)
    ensures Under(Unlink(nodes, p, c), rank, m, y) == Under(nodes, rank, m, y)
    decreases rank[m]
  {
    if m != y && nodes[m].parent.Some? {
      UnderUnlink(nodes, rank, p, c, nodes[m].parent.value, y);
    }
  }

  /** Renaming does not change ancestry. */
  lemma {:induction false} UnderRename(nodes: Nodes, rank: map<NodeId, nat>, x: NodeId, name: string, collection: string,
                                       m: NodeId, y: NodeId)
    requires Ranked(nodes, rank) && x in nodes && m in nodes
    ensures Ranked(Rename(nodes, x, name, collection), rank)
    ensures Under(Rename(nodes, x, name, collection), rank, m, y) == Under(nodes, rank, m, y)
    decreases rank[m]
  {
    if m != y && nodes[m].parent.Some? {
      UnderRename(nodes, rank, x, name, collection, nodes[m].parent.value, y);
    }
  }

  /** Linking `c` below `p` keeps every ancestor of `p`, and adds none. */
  lemma LinkKeepsAncestry(nodes: Nodes, rank: map<NodeId, nat>, bound: nat, p: NodeId, c: NodeId)
    requires Ranked(nodes, rank) && Bounded(nodes, rank, bound)
    requires p in nodes && c in nodes && nodes[c].parent.None? && !Under(nodes, rank, p, c)
    ensures Ranked(Link(nodes, p, c), Shift(nodes, rank, p, c))
    ensures forall y :: Under(Link(nodes, p, c), Shift(nodes, rank, p, c), p, y) == Under(nodes, rank, p, y)
  {
    LinkRanked(nodes, rank, bound, p, c);
    forall y ensures Under(Link(nodes, p, c), Shift(nodes, rank, p, c), p, y) == Under(nodes, rank, p, y) {
      UnderLink(nodes, rank, bound, p, c, p, y);
    }
  }

  /** Unlinking a child of `p` keeps every ancestor of `p`. */
  lemma UnlinkKeepsAncestry(nodes: Nodes, rank: map<NodeId, nat>, p: NodeId, c: NodeId)
    requires Ranked(nodes, rank) && p in nodes && c in nodes && nodes[c].parent == Some(p)
    ensures Ranked(Unlink(nodes, p, c), rank)
    ensures forall y :: Under(Unlink(nodes, p, c), rank, p, y) == Under(nodes, rank, p, y)
  {
    ParentNotUnder(nodes, rank, c);
    UnderUnlink(nodes, rank, p, c, p, p);
    forall y ensures Under(Unlink(nodes, p, c), rank, p, y) == Under(nodes, rank, p, y) {
      UnderUnlink(nodes, rank, p, c, p, y);
    }
  }

  /** Renaming keeps every ancestor relation. */
  lemma RenameKeepsAncestry(nodes: Nodes, rank: map<NodeId, nat>, x: NodeId, name: string, collection: string)
    requires Ranked(nodes, rank) && x in nodes
    ensures Ranked(Rename(nodes, x, name, collection), rank)
    ensures forall m, y :: m in nodes ==> Under(Rename(nodes, x, name, collection), rank, m, y) == Under(nodes, rank, m, y)
  {
    UnderRename(nodes, rank, x, name, collection, x, x);
    forall m, y | m in nodes ensures Under(Rename(nodes, x, name, collection), rank, m, y) == Under(nodes, rank, m, y) {
      UnderRename(nodes, rank, x, name, collection, m, y);
    }
  }

  /** Renaming a node to the keys it has changes nothing. */
  lemma RenameSame(nodes: Nodes, x: NodeId)
    requires x in nodes
    ensures Rename(nodes, x, nodes[x].dataKey, nodes[x].collectionKey) == nodes
  {
    assert nodes[x].(dataKey := nodes[x].dataKey, collectionKey := nodes[x].collectionKey) == nodes[x];
  }

  /** Adding an unparented node keeps the ancestors of every other node, and it is an ancestor of none. */
  lemma {:induction false} AddNodeAncestry(nodes: Nodes, rank: map<NodeId, nat>, x: NodeId, d: Data, m: NodeId, y: NodeId)
    requires Ranked(nodes, rank) && Ranked(nodes[x := d], rank[x := 0]) && x !in nodes && m in nodes
    ensures Under(nodes[x := d], rank[x := 0], m, y) == Under(nodes, rank, m, y)
    ensures !Under(nodes[x := d], rank[x := 0], m, x)
    decreases rank[m]
  {
    if nodes[m].parent.Some? {
      AddNodeAncestry(nodes, rank, x, d, nodes[m].parent.value, y);
      AddNodeAncestry(nodes, rank, x, d, nodes[m].parent.value, x);
    }
  }

  /** Every node has a listener table and no broadcast is in progress. */
  ghost predicate Idle(nodes: Nodes, tables: map<NodeId, Table>)
  {
    tables.Keys == nodes.Keys && forall n :: n in tables ==> tables[n].broadcastInProgress == 0
  }

  lemma IdleUpdate(nodes: Nodes, tables: map<NodeId, Table>, n: NodeId, t: Table)
    requires Idle(nodes, tables) && n in tables && t.broadcastInProgress == 0
    ensures Idle(nodes, tables[n := t])
  {
  }

  lemma MapUpdateTwice<K, V>(m: map<K, V>, k: K, a: V, b: V)
    ensures m[k := a][k := b] == m[k := b]
  {
  }

  /** A change that keeps every node's parent and children keeps every structural property. */
  lemma SameLinks(nodes: Nodes, nodes': Nodes, rank: map<NodeId, nat>, bound: nat)
    requires Ranked(nodes, rank) && Bounded(nodes, rank, bound) && Symmetric(nodes)
    requires nodes'.Keys == nodes.Keys
    requires forall n :: n in nodes ==> nodes'[n].parent == nodes[n].parent && nodes'[n].children == nodes[n].children
    ensures Ranked(nodes', rank) && Bounded(nodes', rank, bound) && Symmetric(nodes')
  {
    SameParentsRanked(nodes, nodes', rank, bound);
    SameLinksSymmetric(nodes, nodes');
  }

  lemma SameParentsRanked(nodes: Nodes, nodes': Nodes, rank: map<NodeId, nat>, bound: nat)
    requires Ranked(nodes, rank) && Bounded(nodes, rank, bound)
    requires nodes'.Keys == nodes.Keys
    requires forall n :: n in nodes ==> nodes'[n].parent == nodes[n].parent
    ensures Ranked(nodes', rank) && Bounded(nodes', rank, bound)
  {
    forall n | n in nodes' && nodes'[n].parent.Some?
      ensures nodes'[n].parent.value in nodes' && rank[nodes'[n].parent.value] < rank[n]
    {
      assert nodes'[n].parent == nodes[n].parent;
    }
  }

  lemma SameLinksSymmetric(nodes: Nodes, nodes': Nodes)
    requires Symmetric(nodes)
    requires nodes'.Keys == nodes.Keys
    requires forall n :: n in nodes ==> nodes'[n].parent == nodes[n].parent && nodes'[n].children == nodes[n].children
    ensures Symmetric(nodes')
  {
    forall n | n in nodes' && nodes'[n].parent.Some?
      ensures nodes'[n].parent.value in nodes' && n in nodes'[nodes'[n].parent.value].children
    {
      assert nodes'[n].parent == nodes[n].parent;
      assert nodes'[nodes[n].parent.value].children == nodes[nodes[n].parent.value].children;
    }
    forall n, c | n in nodes' && c in nodes'[n].children ensures c in nodes' && nodes'[c].parent == Some(n) {
      assert c in nodes[n].children;
      assert nodes'[c].parent == nodes[c].parent;
    }
  }

  /** Renaming keeps every structural property. */
  lemma RenameValid(nodes: Nodes, rank: map<NodeId, nat>, bound: nat, x: NodeId, name: string, collection: string)
    requires x in nodes && Ranked(nodes, rank) && Bounded(nodes, rank, bound) && Symmetric(nodes)
    ensures var nodes' := Rename(nodes, x, name, collection);
            nodes'.Keys == nodes.Keys && Ranked(nodes', rank) && Bounded(nodes', rank, bound) && Symmetric(nodes')
  {
    var nodes' := Rename(nodes, x, name, collection);
    assert forall n :: n in nodes ==> nodes'[n].parent == nodes[n].parent && nodes'[n].children == nodes[n].children;
  }

  /** Link and Unlink keep Parent and Children in agreement. */
  lemma LinkSymmetric(nodes: Nodes, p: NodeId, c: NodeId)
    requires Symmetric(nodes) && p in nodes && c in nodes && p != c && nodes[c].parent.None?
    ensures Symmetric(Link(nodes, p, c))
  {
    var nodes' := Link(nodes, p, c);
    forall n, x | n in nodes' && x in nodes'[n].children ensures x in nodes' && nodes'[x].parent == Some(n) {
      if x != c {
        assert x in nodes[n].children;
      }
    }
  }

  lemma UnlinkSymmetric(nodes: Nodes, p: NodeId, c: NodeId)
    requires Symmetric(nodes) && p in nodes && c in nodes && p != c && nodes[c].parent == Some(p)
    ensures Symmetric(Unlink(nodes, p, c))
  {
    var nodes' := Unlink(nodes, p, c);
    forall n | n in nodes' && nodes'[n].parent.Some?
      ensures nodes'[n].parent.value in nodes' && n in nodes'[nodes'[n].parent.value].children
    {
      assert n != c && nodes'[n].parent == nodes[n].parent;
      var q := nodes[n].parent.value;
      assert n in nodes[q].children;
    }
    forall n, x | n in nodes' && x in nodes'[n].children ensures x in nodes' && nodes'[x].parent == Some(n) {
      assert x in nodes[n].children;
      assert x != c;
    }
  }

  /** The event after an event has finished, the tables, and the nodes whose listeners it reached, in order. */
  datatype Dispatched = Dispatched(ev: Event, tables: map<NodeId, Table>, path: seq<NodeId>)

  /** The work at one node before bubbling: the target is set if unset, then the listeners run unless stopped immediately. */
  function Arrive(t: Table, n: NodeId, ev: Event, prev: Option<ClassId>, react: ListenerId -> Reaction): RunResult
  {
    var ev1 := if ev.target.None? then ev.(target := Some(n)) else ev;
    if !ev1.stopImmediate && ev1.eventType in t.delegates
    then Run(t.delegates[ev1.eventType], ev1, prev, t.delegates, react)
    else RunResult(ev1, t.delegates, [])
  }

  /** Whether the event goes on to the parent. */
  predicate Forwards(nodes: Nodes, n: NodeId, ev: Event)
    requires n in nodes
  {
    !ev.stop && ev.bubbles && nodes[n].parent.Some?
  }

  /** UpdateDelegates: the delegates are swept only when no broadcast is in progress on the node. */
  function Refresh(t: Table): Table
  {
    if t.broadcastInProgress > 0 then t else t.(delegates := Pruned(t.delegates))
  }

  /** The end of BroadcastInternal at a node: the counter goes down, then UpdateDelegates. */
  function Settle(t: Table): Table
  {
    Refresh(t.(broadcastInProgress := t.broadcastInProgress - 1))
  }

  /**
   * BroadcastInternal at `n`, with `prev` the class of the node it bubbled from: the counter goes
   * up, the node's listeners run, the event goes on to the parent unless stopped or not bubbling,
   * and then the node's counter goes down and its table is swept.
   */
  ghost function Dispatch(nodes: Nodes, rank: map<NodeId, nat>, tables: map<NodeId, Table>, n: NodeId,
                          ev: Event, prev: Option<ClassId>, react: ListenerId -> Reaction): (r: Dispatched)
    requires Ranked(nodes, rank) && n in nodes && nodes.Keys <= tables.Keys
    ensures r.tables.Keys == tables.Keys
    decreases rank[n]
  {
    var run := Arrive(tables[n], n, ev, prev, react);
    var tables1 := tables[n := Table(tables[n].broadcastInProgress + 1, run.delegates)];
    var up := if Forwards(nodes, n, run.ev)
              then Dispatch(nodes, rank, tables1, nodes[n].parent.value, run.ev, Some(nodes[n].cls), react)
              else Dispatched(run.ev, tables1, []);
    Dispatched(up.ev, up.tables[n := Settle(up.tables[n])], [n] + up.path)
  }

  /** The tables after the node's listeners ran, before bubbling. */
  function Raised(tables: map<NodeId, Table>, n: NodeId, run: RunResult): map<NodeId, Table>
    requires n in tables
  {
    tables[n := Table(tables[n].broadcastInProgress + 1, run.delegates)]
  }

  /** Arriving keeps the event's type and bubbling, sets an unset target to the node, and never clears a stop flag. */
  lemma ArriveEvent(t: Table, n: NodeId, ev: Event, prev: Option<ClassId>, react: ListenerId -> Reaction)
    ensures var r := Arrive(t, n, ev, prev, react);
            && r.ev.target == (if ev.target.None? then Some(n) else ev.target)
            && r.ev.eventType == ev.eventType && r.ev.bubbles == ev.bubbles
            && (ev.stop ==> r.ev.stop) && (ev.stopImmediate ==> r.ev.stopImmediate)
  {
    var ev1 := if ev.target.None? then ev.(target := Some(n)) else ev;
    if !ev1.stopImmediate && ev1.eventType in t.delegates {
      RunFlags(t.delegates[ev1.eventType], ev1, prev, t.delegates, react);
    }
  }

  /** Every counter is back at its value before the broadcast. */
  lemma {:induction false} DispatchBalanced(nodes: Nodes, rank: map<NodeId, nat>, tables: map<NodeId, Table>, n: NodeId,
                                            ev: Event, prev: Option<ClassId>, react: ListenerId -> Reaction)
    requires Ranked(nodes, rank) && n in nodes && nodes.Keys <= tables.Keys
    ensures var r := Dispatch(nodes, rank, tables, n, ev, prev, react);
            forall m :: m in tables ==> r.tables[m].broadcastInProgress == tables[m].broadcastInProgress
    decreases rank[n]
  {
    var run := Arrive(tables[n], n, ev, prev, react);
    if Forwards(nodes, n, run.ev) {
      DispatchBalanced(nodes, rank, Raised(tables, n, run), nodes[n].parent.value, run.ev, Some(nodes[n].cls), react);
    }
  }

  /** The event climbs the parent chain from `n`: each node on the path is the parent of the one before. */
  lemma {:induction false} DispatchPath(nodes: Nodes, rank: map<NodeId, nat>, tables: map<NodeId, Table>, n: NodeId,
                                        ev: Event, prev: Option<ClassId>, react: ListenerId -> Reaction)
    requires Ranked(nodes, rank) && n in nodes && nodes.Keys <= tables.Keys
    ensures var r := Dispatch(nodes, rank, tables, n, ev, prev, react);
            && |r.path| > 0 && r.path[0] == n
            && (forall i :: 0 <= i < |r.path| ==> r.path[i] in nodes)
            && (forall i :: 0 <= i < |r.path| - 1 ==> nodes[r.path[i]].parent == Some(r.path[i + 1]))
    decreases rank[n]
  {
    var run := Arrive(tables[n], n, ev, prev, react);
    if Forwards(nodes, n, run.ev) {
      var p := nodes[n].parent.value;
      var tables1 := Raised(tables, n, run);
      DispatchPath(nodes, rank, tables1, p, run.ev, Some(nodes[n].cls), react);
      var up := Dispatch(nodes, rank, tables1, p, run.ev, Some(nodes[n].cls), react);
      var path := Dispatch(nodes, rank, tables, n, ev, prev, react).path;
      assert path == [n] + up.path;
      assert forall i :: 0 < i < |path| ==> path[i] == up.path[i - 1];
    }
  }

  /**
   * The event stops climbing only where it must: at a node without a parent, or once stopped;
   * a non-bubbling event reaches only `n`.
   */
  lemma {:induction false} DispatchEnd(nodes: Nodes, rank: map<NodeId, nat>, tables: map<NodeId, Table>, n: NodeId,
                                       ev: Event, prev: Option<ClassId>, react: ListenerId -> Reaction)
    requires Ranked(nodes, rank) && n in nodes && nodes.Keys <= tables.Keys
    ensures var r := Dispatch(nodes, rank, tables, n, ev, prev, react);
            && |r.path| > 0
            && (var last := r.path[|r.path| - 1]; last in nodes && (nodes[last].parent.None? || r.ev.stop || !ev.bubbles))
            && (!ev.bubbles ==> r.path == [n])
    decreases rank[n]
  {
    var run := Arrive(tables[n], n, ev, prev, react);
    ArriveEvent(tables[n], n, ev, prev, react);
    if Forwards(nodes, n, run.ev) {
      var p := nodes[n].parent.value;
      var tables1 := Raised(tables, n, run);
      DispatchEnd(nodes, rank, tables1, p, run.ev, Some(nodes[n].cls), react);
      var up := Dispatch(nodes, rank, tables1, p, run.ev, Some(nodes[n].cls), react);
      assert Dispatch(nodes, rank, tables, n, ev, prev, react).path == [n] + up.path;
    }
  }

  /** Tables of nodes the event did not reach are untouched. */
  lemma {:induction false} DispatchFrame(nodes: Nodes, rank: map<NodeId, nat>, tables: map<NodeId, Table>, n: NodeId,
                                         ev: Event, prev: Option<ClassId>, react: ListenerId -> Reaction)
    requires Ranked(nodes, rank) && n in nodes && nodes.Keys <= tables.Keys
    ensures var r := Dispatch(nodes, rank, tables, n, ev, prev, react);
            forall m :: m in tables && m !in r.path ==> r.tables[m] == tables[m]
    decreases rank[n]
  {
    var run := Arrive(tables[n], n, ev, prev, react);
    if Forwards(nodes, n, run.ev) {
      DispatchFrame(nodes, rank, Raised(tables, n, run), nodes[n].parent.value, run.ev, Some(nodes[n].cls), react);
    }
  }

  /** Tables of nodes that are neither `n` nor one of its ancestors are untouched. */
  lemma {:induction false} DispatchOffChain(nodes: Nodes, rank: map<NodeId, nat>, tables: map<NodeId, Table>, n: NodeId,
                                            ev: Event, prev: Option<ClassId>, react: ListenerId -> Reaction)
    requires Ranked(nodes, rank) && n in nodes && nodes.Keys <= tables.Keys
    ensures var r := Dispatch(nodes, rank, tables, n, ev, prev, react);
            forall m :: m in tables && !Under(nodes, rank, n, m) ==> r.tables[m] == tables[m]
    decreases rank[n]
  {
    var run := Arrive(tables[n], n, ev, prev, react);
    if Forwards(nodes, n, run.ev) {
      DispatchOffChain(nodes, rank, Raised(tables, n, run), nodes[n].parent.value, run.ev, Some(nodes[n].cls), react);
    }
  }

  /**
   * The tables in `t1` of the nodes outside `touched` that are neither `n` nor one of its
   * ancestors are those in `t0`: what the broadcasts of an edit below `n` leave.
   */
  ghost predicate KeptOffChain(nodes: Nodes, rank: map<NodeId, nat>, n: NodeId, touched: seq<NodeId>,
                               t0: map<NodeId, Table>, t1: map<NodeId, Table>)
  {
    && Ranked(nodes, rank) && n in nodes
    && forall m :: m in t0 && m !in touched && !Under(nodes, rank, n, m) ==> m in t1 && t1[m] == t0[m]
  }

  /** Two edits below `n` in a row, the second in a forest where `n` has the same ancestors. */
  lemma KeptOffChainStep(a: Nodes, ra: map<NodeId, nat>, b: Nodes, rb: map<NodeId, nat>, n: NodeId,
                         s0: seq<NodeId>, s1: seq<NodeId>, s: seq<NodeId>,
                         t0: map<NodeId, Table>, t1: map<NodeId, Table>, t2: map<NodeId, Table>)
    requires KeptOffChain(a, ra, n, s0, t0, t1) && SameAncestors(b, rb, a, ra, n) && KeptOffChain(b, rb, n, s1, t1, t2)
    requires forall y :: y in s0 ==> y in s
    requires forall y :: y in s1 ==> y in s
    ensures KeptOffChain(a, ra, n, s, t0, t2)
  {
  }

  /** Two edits below `n` in a row, each naming its own touched nodes: together they touch both lists. */
  lemma KeptOffChainJoin(a: Nodes, ra: map<NodeId, nat>, b: Nodes, rb: map<NodeId, nat>, n: NodeId,
                         s0: seq<NodeId>, s1: seq<NodeId>,
                         t0: map<NodeId, Table>, t1: map<NodeId, Table>, t2: map<NodeId, Table>)
    requires KeptOffChain(a, ra, n, s0, t0, t1) && SameAncestors(b, rb, a, ra, n) && KeptOffChain(b, rb, n, s1, t1, t2)
    ensures KeptOffChain(a, ra, n, s0 + s1, t0, t2)
  {
    KeptOffChainStep(a, ra, b, rb, n, s0, s1, s0 + s1, t0, t1, t2);
  }

  /** The target is set to `n` only if the event had none; type and bubbling never change. */
  lemma {:induction false} DispatchEvent(nodes: Nodes, rank: map<NodeId, nat>, tables: map<NodeId, Table>, n: NodeId,
                                         ev: Event, prev: Option<ClassId>, react: ListenerId -> Reaction)
    requires Ranked(nodes, rank) && n in nodes && nodes.Keys <= tables.Keys
    ensures var r := Dispatch(nodes, rank, tables, n, ev, prev, react);
            && r.ev.target == (if ev.target.None? then Some(n) else ev.target)
            && r.ev.eventType == ev.eventType && r.ev.bubbles == ev.bubbles
            && (ev.stop ==> r.ev.stop) && (ev.stopImmediate ==> r.ev.stopImmediate)
    decreases rank[n]
  {
    var run := Arrive(tables[n], n, ev, prev, react);
    ArriveEvent(tables[n], n, ev, prev, react);
    if Forwards(nodes, n, run.ev) {
      DispatchEvent(nodes, rank, Raised(tables, n, run), nodes[n].parent.value, run.ev, Some(nodes[n].cls), react);
    }
  }

  /** No unbound delegate and no empty bucket. */
  predicate Swept(d: Delegates)
  {
    forall k :: k in d ==> d[k] != [] && forall w :: w in d[k] ==> w.bound
  }

  /** Every node the event reached whose counter was zero ends with its table swept. */
  lemma {:induction false} DispatchSweeps(nodes: Nodes, rank: map<NodeId, nat>, tables: map<NodeId, Table>, n: NodeId,
                                          ev: Event, prev: Option<ClassId>, react: ListenerId -> Reaction)
    requires Ranked(nodes, rank) && n in nodes && nodes.Keys <= tables.Keys
    ensures var r := Dispatch(nodes, rank, tables, n, ev, prev, react);
            forall m :: m in r.path && m in tables && tables[m].broadcastInProgress == 0 ==> Swept(r.tables[m].delegates)
    decreases rank[n]
  {
    var run := Arrive(tables[n], n, ev, prev, react);
    var tables1 := Raised(tables, n, run);
    var r := Dispatch(nodes, rank, tables, n, ev, prev, react);
    if Forwards(nodes, n, run.ev) {
      var p := nodes[n].parent.value;
      DispatchSweeps(nodes, rank, tables1, p, run.ev, Some(nodes[n].cls), react);
      DispatchBalanced(nodes, rank, tables1, p, run.ev, Some(nodes[n].cls), react);
      DispatchPath(nodes, rank, tables1, p, run.ev, Some(nodes[n].cls), react);
      var up := Dispatch(nodes, rank, tables1, p, run.ev, Some(nodes[n].cls), react);
      assert r.path == [n] + up.path;
      forall m | m in r.path && m in tables && tables[m].broadcastInProgress == 0 ensures Swept(r.tables[m].delegates) {
        if m == n {
          PrunedFacts(up.tables[n].delegates);
        } else {
          assert m in up.path;
          assert r.tables[m] == up.tables[m];
        }
      }
    } else {
      assert r.path == [n];
      PrunedFacts(tables1[n].delegates);
    }
  }

  /** No element occurs twice. */
  predicate NoDup<T(==)>(s: seq<T>)
  {
    forall a, b :: 0 <= a < b < |s| ==> s[a] != s[b]
  }

  /** Every owned field names a registered class. */
  ghost predicate RegistryClosed(registry: map<ClassId, seq<FieldDesc>>)
  {
    forall c, i :: c in registry && 0 <= i < |registry[c]| && DataClass(registry[c][i].shape).Some? ==>
      DataClass(registry[c][i].shape).value in registry
  }

  /** Every node has one slot per field of its class, conforming to the field's shape. */
  ghost predicate SlotsFit(registry: map<ClassId, seq<FieldDesc>>, nodes: Nodes)
  {
    forall n :: n in nodes ==>
      && nodes[n].cls in registry
      && |nodes[n].slots| == |registry[nodes[n].cls]|
      && forall i :: 0 <= i < |nodes[n].slots| ==> Conforms(registry[nodes[n].cls][i].shape, nodes[n].slots[i])
  }

  /** Every node a slot holds is a node whose parent is the holder. */
  ghost predicate HeldLinked(nodes: Nodes)
  {
    forall n, i, x :: n in nodes && 0 <= i < |nodes[n].slots| && x in Held(nodes[n].slots[i]) ==>
      x in nodes && nodes[x].parent == Some(n)
  }

  /** No node is held by two slots of one holder, nor twice by one slot. */
  ghost predicate HeldOnce(nodes: Nodes)
  {
    && (forall n, i, j, x ::
          (n in nodes && 0 <= i < |nodes[n].slots| && 0 <= j < |nodes[n].slots|
           && x in Held(nodes[n].slots[i]) && x in Held(nodes[n].slots[j])) ==> i == j)
    && (forall n, i :: n in nodes && 0 <= i < |nodes[n].slots| ==> NoDup(Held(nodes[n].slots[i])))
  }

  /** The slots agree with the registry and with the parent links. */
  ghost predicate Owned(registry: map<ClassId, seq<FieldDesc>>, nodes: Nodes)
  {
    SlotsFit(registry, nodes) && HeldLinked(nodes) && HeldOnce(nodes)
  }

  /** The node map with one slot replaced. */
  function WithSlot(nodes: Nodes, n: NodeId, i: nat, v: SlotValue): Nodes
    requires n in nodes && i < |nodes[n].slots|
  {
    nodes[n := nodes[n].(slots := nodes[n].slots[i := v])]
  }

  /** The conditions under which replacing slot `i` of `n` by `v` turns `nodes0` into `nodes1` and keeps ownership. */
  ghost predicate Replaces(nodes0: Nodes, nodes1: Nodes, n: NodeId, i: nat, v: SlotValue)
    requires n in nodes0 && i < |nodes0[n].slots|
  {
    && nodes1.Keys == nodes0.Keys
    && (forall m :: m in nodes0 ==> nodes1[m].cls == nodes0[m].cls)
    && (forall m :: m in nodes0 && m != n ==> nodes1[m].slots == nodes0[m].slots)
    && nodes1[n].slots == nodes0[n].slots[i := v]
    && NoDup(Held(v))
    && (forall x :: x in Held(v) ==> x in nodes1 && nodes1[x].parent == Some(n))
    && (forall x :: x in Held(v) && x in nodes0 && nodes0[x].parent == Some(n) ==> x in Held(nodes0[n].slots[i]))
    && (forall x :: x in nodes0 && nodes1[x].parent != nodes0[x].parent ==>
          || nodes0[x].parent.None?
          || (nodes0[x].parent == Some(n) && x in Held(nodes0[n].slots[i]) && x !in Held(v)))
  }

  lemma ReplaceSlotFits(registry: map<ClassId, seq<FieldDesc>>, nodes0: Nodes, nodes1: Nodes, n: NodeId, i: nat, v: SlotValue)
    requires SlotsFit(registry, nodes0) && n in nodes0 && i < |nodes0[n].slots| && Replaces(nodes0, nodes1, n, i, v)
    requires Conforms(registry[nodes0[n].cls][i].shape, v)
    ensures SlotsFit(registry, nodes1)
  {
  }

  lemma ReplaceSlotLinked(nodes0: Nodes, nodes1: Nodes, n: NodeId, i: nat, v: SlotValue)
    requires HeldLinked(nodes0) && HeldOnce(nodes0) && n in nodes0 && i < |nodes0[n].slots| && Replaces(nodes0, nodes1, n, i, v)
    ensures HeldLinked(nodes1)
  {
    assert HeldApart(nodes0) && OtherSlotsKept(nodes0, nodes1, n) && ParentsMoved(nodes0, nodes1, n, i, v);
    assert nodes1[n].slots == nodes0[n].slots[i := v];
    assert forall x :: x in Held(v) ==> x in nodes1 && nodes1[x].parent == Some(n);
    OtherSlotsLinked(nodes0, nodes1, n, i, v);
  }

  /** The links of a replacement, from the facts about the other slots and about the new value. */
  lemma LinkedFromParts(nodes1: Nodes, n: NodeId, i: nat, v: SlotValue)
    requires n in nodes1 && i < |nodes1[n].slots| && nodes1[n].slots[i] == v
    requires forall m, j, x :: m in nodes1 && 0 <= j < |nodes1[m].slots| && !(m == n && j == i) && x in Held(nodes1[m].slots[j]) ==>
      x in nodes1 && nodes1[x].parent == Some(m)
    requires forall x :: x in Held(v) ==> x in nodes1 && nodes1[x].parent == Some(n)
    ensures HeldLinked(nodes1)
  {
    forall m, j, x | m in nodes1 && 0 <= j < |nodes1[m].slots| && x in Held(nodes1[m].slots[j])
      ensures x in nodes1 && nodes1[x].parent == Some(m)
    {
      if m == n && j == i {
        assert nodes1[m].slots[j] == v;
      }
    }
  }

  /** No node is held by two slots of one holder. */
  ghost predicate HeldApart(nodes: Nodes)
  {
    forall n, i, j, x ::
      (n in nodes && 0 <= i < |nodes[n].slots| && 0 <= j < |nodes[n].slots|
       && x in Held(nodes[n].slots[i]) && x in Held(nodes[n].slots[j])) ==> i == j
  }

  /** Same nodes, and every node but `n` keeps its slots. */
  ghost predicate OtherSlotsKept(nodes0: Nodes, nodes1: Nodes, n: NodeId)
  {
    && nodes1.Keys == nodes0.Keys
    && (forall m :: m in nodes0 && m != n ==> nodes1[m].slots == nodes0[m].slots)
  }

  /** The only parents that change are unset ones, or those of nodes dropped from slot `i` of `n`. */
  ghost predicate ParentsMoved(nodes0: Nodes, nodes1: Nodes, n: NodeId, i: nat, v: SlotValue)
    requires n in nodes0 && i < |nodes0[n].slots| && nodes1.Keys == nodes0.Keys
  {
    forall x :: x in nodes0 && nodes1[x].parent != nodes0[x].parent ==>
      || nodes0[x].parent.None?
      || (nodes0[x].parent == Some(n) && x in Held(nodes0[n].slots[i]) && x !in Held(v))
  }

  /** Nodes held by the other slots keep their parents, so with the new value's nodes linked the slots stay linked. */
  lemma OtherSlotsLinked(nodes0: Nodes, nodes1: Nodes, n: NodeId, i: nat, v: SlotValue)
    requires HeldLinked(nodes0) && HeldApart(nodes0) && n in nodes0 && i < |nodes0[n].slots|
    requires OtherSlotsKept(nodes0, nodes1, n) && n in nodes1 && nodes1[n].slots == nodes0[n].slots[i := v]
    requires ParentsMoved(nodes0, nodes1, n, i, v)
    requires forall x :: x in Held(v) ==> x in nodes1 && nodes1[x].parent == Some(n)
    ensures HeldLinked(nodes1)
  {
    forall m, j, x | m in nodes1 && 0 <= j < |nodes1[m].slots| && !(m == n && j == i) && x in Held(nodes1[m].slots[j])
      ensures x in nodes1 && nodes1[x].parent == Some(m)
    {
      ParentStays(nodes0, nodes1, n, i, v, m, j, x);
    }
    LinkedFromParts(nodes1, n, i, v);
  }

  /** A node held by slot `j` of `m`, not the replaced slot, keeps `m` as its parent. */
  lemma ParentStays(nodes0: Nodes, nodes1: Nodes, n: NodeId, i: nat, v: SlotValue, m: NodeId, j: nat, x: NodeId)
    requires HeldLinked(nodes0) && HeldApart(nodes0) && n in nodes0 && i < |nodes0[n].slots|
    requires OtherSlotsKept(nodes0, nodes1, n) && n in nodes1 && nodes1[n].slots == nodes0[n].slots[i := v]
    requires ParentsMoved(nodes0, nodes1, n, i, v)
    requires m in nodes1 && j < |nodes1[m].slots| && !(m == n && j == i) && x in Held(nodes1[m].slots[j])
    ensures x in nodes1 && nodes1[x].parent == Some(m)
  {
    assert nodes1[m].slots[j] == nodes0[m].slots[j];
    assert x in nodes0 && nodes0[x].parent == Some(m);
    if nodes1[x].parent != nodes0[x].parent {
      assert false;
    }
  }

  lemma ReplaceSlotOnce(nodes0: Nodes, nodes1: Nodes, n: NodeId, i: nat, v: SlotValue)
    requires HeldLinked(nodes0) && HeldOnce(nodes0) && n in nodes0 && i < |nodes0[n].slots| && Replaces(nodes0, nodes1, n, i, v)
    ensures HeldOnce(nodes1)
  {
  }

  /**
   * Replacing slot `i` of `n` keeps ownership when the new value's nodes are all children of `n`
   * afterwards, any of them already a child of `n` was held by that same slot, and the only nodes
   * whose parent changed were unparented before, or were dropped from that slot.
   */
  lemma ReplaceSlot(registry: map<ClassId, seq<FieldDesc>>, nodes0: Nodes, nodes1: Nodes, n: NodeId, i: nat, v: SlotValue)
    requires Owned(registry, nodes0) && n in nodes0 && i < |nodes0[n].slots| && Replaces(nodes0, nodes1, n, i, v)
    requires Conforms(registry[nodes0[n].cls][i].shape, v)
    ensures Owned(registry, nodes1)
  {
    ReplaceSlotFits(registry, nodes0, nodes1, n, i, v);
    ReplaceSlotLinked(nodes0, nodes1, n, i, v);
    ReplaceSlotOnce(nodes0, nodes1, n, i, v);
  }

  /** The parent relation is an acyclic forest that agrees with Children; every node has an idle table and an id below `next`. */
  ghost predicate LinksOK(nodes: Nodes, tables: map<NodeId, Table>, rank: map<NodeId, nat>, bound: nat, next: nat)
  {
    && Ranked(nodes, rank) && Bounded(nodes, rank, bound) && Symmetric(nodes)
    && (forall n :: n in nodes ==> n < next)
    && Idle(nodes, tables)
  }

  /** Replacing one node's listener table by an idle one keeps the links valid. */
  lemma TableKeeps(nodes: Nodes, tables: map<NodeId, Table>, rank: map<NodeId, nat>, bound: nat, next: nat, n: NodeId, t: Table)
    requires LinksOK(nodes, tables, rank, bound, next) && n in tables && t.broadcastInProgress == 0
    ensures LinksOK(nodes, tables[n := t], rank, bound, next)
  {
    IdleUpdate(nodes, tables, n, t);
  }

  /** Unlinking a child keeps the links valid. */
  lemma UnlinkKeeps(nodes: Nodes, tables: map<NodeId, Table>, rank: map<NodeId, nat>, bound: nat, next: nat, p: NodeId, c: NodeId)
    requires LinksOK(nodes, tables, rank, bound, next) && p in nodes && c in nodes && nodes[c].parent == Some(p)
    ensures LinksOK(Unlink(nodes, p, c), tables, rank, bound, next)
  {
    UnlinkSymmetric(nodes, p, c);
  }

  /** Linking an unparented node below a node outside its tree keeps the links valid, with shifted ranks. */
  lemma LinkKeeps(nodes: Nodes, tables: map<NodeId, Table>, rank: map<NodeId, nat>, bound: nat, next: nat, p: NodeId, c: NodeId)
    requires LinksOK(nodes, tables, rank, bound, next) && p in nodes && c in nodes
    requires nodes[c].parent.None? && !Under(nodes, rank, p, c)
    ensures LinksOK(Link(nodes, p, c), tables, Shift(nodes, rank, p, c), bound + rank[p] + 1, next)
  {
    LinkRanked(nodes, rank, bound, p, c);
    LinkSymmetric(nodes, p, c);
  }

  /** Renaming keeps the links valid. */
  lemma RenameKeeps(nodes: Nodes, tables: map<NodeId, Table>, rank: map<NodeId, nat>, bound: nat, next: nat,
                    x: NodeId, name: string, collection: string)
    requires LinksOK(nodes, tables, rank, bound, next) && x in nodes
    ensures LinksOK(Rename(nodes, x, name, collection), tables, rank, bound, next)
  {
    RenameValid(nodes, rank, bound, x, name, collection);
  }

  /** Allocation keeps the links valid and ownership. */
  lemma AllocateKeeps(registry: map<ClassId, seq<FieldDesc>>, nodes: Nodes, tables: map<NodeId, Table>,
                      rank: map<NodeId, nat>, bound: nat, next: nat, cls: ClassId)
    requires LinksOK(nodes, tables, rank, bound, next) && cls in registry
    ensures next !in nodes
    ensures LinksOK(nodes[next := Fresh(registry, cls)], tables[next := Table(0, map[])], rank[next := 0], bound + 1, next + 1)
    ensures Owned(registry, nodes) ==> Owned(registry, nodes[next := Fresh(registry, cls)])
  {
    AddNodeLinks(nodes, rank, bound, next, Fresh(registry, cls));
    if Owned(registry, nodes) {
      AddNodeOwned(registry, nodes, next, cls);
    }
  }

  /** Adding a fresh unparented node without children keeps the links valid. */
  lemma AddNodeLinks(nodes: Nodes, rank: map<NodeId, nat>, bound: nat, x: NodeId, d: Data)
    requires Ranked(nodes, rank) && Bounded(nodes, rank, bound) && Symmetric(nodes)
    requires x !in nodes && d.parent.None? && d.children == {}
    ensures Ranked(nodes[x := d], rank[x := 0]) && Bounded(nodes[x := d], rank[x := 0], bound + 1)
    ensures Symmetric(nodes[x := d])
  {
    var nodes' := nodes[x := d];
    forall n, c | n in nodes' && c in nodes'[n].children ensures c in nodes' && nodes'[c].parent == Some(n) {
      assert n != x && c in nodes[n].children;
    }
  }

  /** The slots of a freshly constructed node: each field's initial value. */
  function InitialSlots(fields: seq<FieldDesc>): (slots: seq<SlotValue>)
    ensures |slots| == |fields|
    ensures forall i :: 0 <= i < |fields| ==> Conforms(fields[i].shape, slots[i]) && Held(slots[i]) == []
  {
    seq(|fields|, i requires 0 <= i < |fields| => InitialSlot(fields[i].shape))
  }

  /** A freshly allocated node of the class: no parent, no children, empty keys, initial slots. */
  function Fresh(registry: map<ClassId, seq<FieldDesc>>, cls: ClassId): (d: Data)
    requires cls in registry
    ensures d.parent.None? && d.children == {}
  {
    Data(cls, None, {}, "", "", InitialSlots(registry[cls]))
  }

  /** Adding a fresh node keeps ownership: its slots fit its class and hold nothing. */
  lemma AddNodeOwned(registry: map<ClassId, seq<FieldDesc>>, nodes: Nodes, x: NodeId, cls: ClassId)
    requires Owned(registry, nodes) && x !in nodes && cls in registry
    ensures Owned(registry, nodes[x := Fresh(registry, cls)])
  {
    var d := Fresh(registry, cls);
    var nodes' := nodes[x := d];
    forall n, i, y | n in nodes' && 0 <= i < |nodes'[n].slots| && y in Held(nodes'[n].slots[i])
      ensures y in nodes' && nodes'[y].parent == Some(n)
    {
      assert n != x;
      assert y in Held(nodes[n].slots[i]);
    }
  }
}
