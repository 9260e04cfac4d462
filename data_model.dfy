/**
 * The entities of the data layer: the field registry of a data class (its reflected fields and
 * links), the value a property slot holds, a data node, and the event-system records.
 */
module DataModel {
  import opened Options
  import opened OrderedMaps
  import S = Scalars

  /** A data node, identified by handle. */
  type NodeId = nat

  /** A data class (the node's UClass). */
  type ClassId = string

  /** A bound delegate, identified by handle. */
  type ListenerId = nat

  /** The six property shapes, with the node class an owned shape holds. */
  datatype Shape =
    | ScalarField(t: S.ScalarType)
    | ArrayField(t: S.ScalarType)
    | MapField(t: S.ScalarType)
    | NodeField(cls: ClassId, strict: bool)
    | NodeArrayField(cls: ClassId)
    | NodeMapField(cls: ClassId)

  /** A reflected field: its name, the name of its change event, and its shape. */
  datatype FieldDesc = FieldDesc(name: string, changeEvent: string, shape: Shape)

  /** Context->IsData() and GetUE4Type(): the node class of an owned shape, None otherwise. */
  function DataClass(s: Shape): (r: Option<ClassId>)
    ensures r.Some? <==> (s.NodeField? || s.NodeArrayField? || s.NodeMapField?)
  {
    match s
    case NodeField(c, _) => Some(c)
    case NodeArrayField(c) => Some(c)
    case NodeMapField(c) => Some(c)
    case _ => None
  }

  /** A reflected link: a string (or string array) field naming entries of a node map reached from the root. */
  datatype LinkDesc = LinkDesc(name: string, path: string, isAbstract: bool, isCollection: bool, nullable: bool)

  /** The value a property slot holds. */
  datatype SlotValue =
    | ScalarSlot(v: S.Scalar)
    | ArraySlot(items: seq<S.Scalar>)
    | MapSlot(entries: seq<Entry<S.Scalar>>)
    | NodeSlot(node: Option<NodeId>)
    | NodeArraySlot(nodes: seq<NodeId>)
    | NodeMapSlot(children: seq<Entry<NodeId>>)

  /** The value has the field's shape and element type, and a map value has distinct keys. */
  predicate Conforms(shape: Shape, v: SlotValue)
  {
    match shape
    case ScalarField(t) => v.ScalarSlot? && S.HasType(v.v, t)
    case ArrayField(t) => v.ArraySlot? && forall i :: 0 <= i < |v.items| ==> S.HasType(v.items[i], t)
    case MapField(t) =>
      v.MapSlot? && UniqueKeys(v.entries) && forall i :: 0 <= i < |v.entries| ==> S.HasType(v.entries[i].value, t)
    case NodeField(_, _) => v.NodeSlot?
    case NodeArrayField(_) => v.NodeArraySlot?
    case NodeMapField(_) => v.NodeMapSlot? && UniqueKeys(v.children)
  }

  /** The value a freshly constructed slot holds: the default scalar, an empty container, null. */
  function InitialSlot(shape: Shape): (v: SlotValue)
    ensures Conforms(shape, v)
    ensures Held(v) == []
  {
    match shape
    case ScalarField(t) => ScalarSlot(S.Default(t))
    case ArrayField(_) => ArraySlot([])
    case MapField(_) => MapSlot([])
    case NodeField(_, _) => NodeSlot(None)
    case NodeArrayField(_) => NodeArraySlot([])
    case NodeMapField(_) => NodeMapSlot([])
  }

  function Values<T>(es: seq<Entry<T>>): (r: seq<T>)
    ensures |r| == |es| && forall i :: 0 <= i < |es| ==> r[i] == es[i].value
  {
    if es == [] then [] else [es[0].value] + Values(es[1..])
  }

  /** The nodes a slot holds, in iteration order. */
  function Held(v: SlotValue): seq<NodeId>
  {
    match v
    case NodeSlot(x) => if x.Some? then [x.value] else []
    case NodeArraySlot(xs) => xs
    case NodeMapSlot(es) => Values(es)
    case _ => []
  }

  /** A data node: its class, parent and children, its two name keys, and one slot per registry field. */
  datatype Data = Data(cls: ClassId, parent: Option<NodeId>, children: set<NodeId>,
                       dataKey: string, collectionKey: string, slots: seq<SlotValue>)

  /** An event in flight. */
  datatype Event = Event(eventType: string, target: Option<NodeId>, bubbles: bool, stop: bool, stopImmediate: bool)

  /** UPsDataEvent::ConstructEvent: no target yet, not stopped. */
  function ConstructEvent(eventType: string, bubbles: bool): (e: Event)
    ensures e.eventType == eventType && e.bubbles == bubbles
    ensures e.target.None? && !e.stop && !e.stopImmediate
  {
    Event(eventType, None, bubbles, false, false)
  }

  /** A registered delegate: the listener, whether it is still bound, and the field it was bound for. */
  datatype Wrapper = Wrapper(listener: ListenerId, bound: bool, field: Option<FieldDesc>)

  /**
   * What running a listener does, as far as the event system can see: it may set the event's
   * stop flags and unbind listeners from the node it runs on.
   */
  datatype Reaction = Reaction(stop: bool, stopImmediate: bool, unbind: set<ListenerId>)

  type Delegates = map<string, seq<Wrapper>>

  /** A node's listener table: the re-entrancy counter and the delegates by event type. */
  datatype Table = Table(broadcastInProgress: int, delegates: Delegates)

  /** FPsDataFriend::Changed(Instance, Field): a change recorded for one field of one node. */
  datatype Change = Changed(instance: NodeId, field: FieldDesc)

  /** Every change in `added` is a change of one of `fields` on instance `n`. */
  ghost predicate ChangesOf(added: seq<Change>, n: NodeId, fields: seq<FieldDesc>)
  {
    forall k :: 0 <= k < |added| ==> added[k].instance == n && added[k].field in fields
  }
}
