/**
 * UPsData::Validation on the forest: the path loop up the parents, the check of every link
 * of the node against the maps of its root, and the recursion into every node its owned
 * fields hold, each proved against module ValidationModel.
 */
module Validation {
  import opened Options
  import opened OrderedMaps
  import opened DataModel
  import FM = ForestModel
  import F = Forest
  import NF = NodeFormat
  import opened ValidationModel

  /** The path loop: prepends each node's segment, from `n` up to its root. */
  method NodePath(f: F.DataForest, n: NodeId) returns (path: string)
    requires f.ValidLinks() && n in f.nodes
    ensures path == Path(f.nodes, f.rank, n)
    ensures path == Dots(TrimTail(Segments(f.nodes, f.rank, n)))
  {
    var cur: Option<NodeId> := Some(n);
    path := "";
    while cur.Some?
      invariant FM.Ranked(f.nodes, f.rank) && (cur.Some? ==> cur.value in f.nodes)
      invariant Climb(f.nodes, f.rank, cur, path) == Path(f.nodes, f.rank, n)
      decreases if cur.Some? then f.rank[cur.value] + 1 else 0
    {
      var d := f.nodes[cur.value];
      if d.collectionKey != "" {
        if path == "" {
          path := d.collectionKey + "." + d.dataKey;
        } else {
          path := d.collectionKey + "." + d.dataKey + "." + path;
        }
      } else {
        if path == "" {
          path := d.dataKey;
        } else {
          path := d.dataKey + "." + path;
        }
      }
      cur := d.parent;
    }
    PathDots(f.nodes, f.rank, n);
  }

  /** The loop over the keys of one link: each key is looked up in the target map. */
  method CheckKeys(fieldPath: string, link: LinkDesc, keys: set<string>, props: seq<string>) returns (rs: seq<Report>)
    ensures rs == KeyReports(fieldPath, link, keys, props)
  {
    rs := [];
    for j := 0 to |props|
      invariant rs == KeyReports(fieldPath, link, keys, props[..j])
    {
      var p := props[j];
      if |p| > 0 {
        if p !in keys {
          rs := rs + [Report(Link, fieldPath, "Property not found", Some(link.path + "." + p))];
        }
      } else if !link.nullable {
        rs := rs + [Report(Link, fieldPath, "Property is empty", Some(link.path + ".?"))];
      }
      assert props[..j + 1][..j] == props[..j];
    }
    assert props[..|props|] == props;
  }

  /** The check of one link of a node at `path`, with the root's fields and slots for the target map. */
  method CheckLink(path: string, link: LinkDesc, fields: seq<FieldDesc>, slots: seq<SlotValue>,
                   rootFields: seq<FieldDesc>, rootSlots: seq<SlotValue>) returns (rs: seq<Report>)
    requires |slots| == |fields| && NF.SlotsConform(fields, slots)
    requires |rootSlots| == |rootFields| && NF.SlotsConform(rootFields, rootSlots)
    ensures rs == LinkReport(path, link, fields, slots, rootFields, rootSlots)
  {
    var fieldPath := path + "." + link.name;
    if link.isAbstract {
      rs := [Report(Logic, fieldPath, "Used abstract property", None)];
      return;
    }
    var props := LinkKeys(fields, slots, link);
    if props.None? {
      rs := [Report(Logic, fieldPath, "Used undeclared property", None)];
      return;
    }
    var keys := TargetKeys(rootFields, rootSlots, link.path);
    if keys.None? {
      rs := [Report(Logic, link.path, "Used undeclared property", None)];
      return;
    }
    rs := CheckKeys(fieldPath, link, keys.value, props.value);
  }

  /** The first half of Validation: the path, the root, and the check of each link of the node's class in turn. */
  method CheckLinks(f: F.DataForest, n: NodeId) returns (result: seq<Report>)
    requires f.Valid() && n in f.nodes
    ensures result == NodeReports(f.registry, f.links, f.nodes, f.rank, n)
  {
    var path := NodePath(f, n);
    var root := f.GetRoot(n);
    RootUnique(f.nodes, f.rank, n, root);
    var d := f.nodes[n];
    var rd := f.nodes[root];
    NodeFits(f.registry, f.nodes, n);
    NodeFits(f.registry, f.nodes, root);
    var fields := f.registry[d.cls];
    var ls := LinksOf(f.links, d.cls);
    result := [];
    for i := 0 to |ls|
      invariant result == LinksReports(path, ls[..i], fields, d.slots, f.registry[rd.cls], rd.slots)
    {
      var rs := CheckLink(path, ls[i], fields, d.slots, f.registry[rd.cls], rd.slots);
      result := result + rs;
      assert ls[..i + 1][..i] == ls[..i];
    }
    assert ls[..|ls|] == ls;
  }

  /**
   * UPsData::Validation: the reports of the node's links, then the reports of every node held
   * by its owned fields, in field order and, within a field, in slot order.
   */
  method Validate(f: F.DataForest, n: NodeId) returns (result: seq<Report>)
    requires f.Valid() && n in f.nodes
    ensures result == Reports(f.registry, f.links, f.nodes, f.rank, f.rankBound, n)
    decreases f.rankBound - f.rank[n], 2, 0
  {
    var own := CheckLinks(f, n);
    var held := ValidateFields(f, n);
    result := own + held;
  }

  /** The loop over the fields of `n`: each owned field appends the Validation of the nodes it holds. */
  method ValidateFields(f: F.DataForest, n: NodeId) returns (result: seq<Report>)
    requires f.Valid() && n in f.nodes
    ensures Walkable(f.registry, f.nodes, f.rank, f.rankBound)
    ensures result == FieldsReports(f.registry, f.links, f.nodes, f.rank, f.rankBound, n, |f.nodes[n].slots|)
    decreases f.rankBound - f.rank[n], 1, 0
  {
    var fields := f.registry[f.nodes[n].cls];
    result := [];
    for i := 0 to |fields|
      invariant result == FieldsReports(f.registry, f.links, f.nodes, f.rank, f.rankBound, n, i)
    {
      if DataClass(fields[i].shape).Some? {
        var rs := ValidateField(f, n, i);
        result := result + rs;
      }
    }
  }

  /** The loop over the nodes one owned field of `n` holds: each one's Validation is appended. */
  method ValidateField(f: F.DataForest, n: NodeId, i: nat) returns (result: seq<Report>)
    requires f.Valid() && n in f.nodes && i < |f.nodes[n].slots|
    ensures forall x :: x in Held(f.nodes[n].slots[i]) ==> x in f.nodes && f.nodes[x].parent == Some(n)
    ensures result == HeldReports(f.registry, f.links, f.nodes, f.rank, f.rankBound, n, Held(f.nodes[n].slots[i]))
    decreases f.rankBound - f.rank[n], 0, 0
  {
    var xs := Held(f.nodes[n].slots[i]);
    HeldChildren(f, n, i);
    result := [];
    for j := 0 to |xs|
      invariant result == HeldReports(f.registry, f.links, f.nodes, f.rank, f.rankBound, n, xs[..j])
    {
      ChildRank(f, n, xs[j]);
      var sub := Validate(f, xs[j]);
      result := result + sub;
      assert xs[..j + 1][..j] == xs[..j];
    }
    assert xs[..|xs|] == xs;
  }

  /** The nodes an owned slot holds are children of the holder. */
  lemma HeldChildren(f: F.DataForest, n: NodeId, i: nat)
    requires f.Valid() && n in f.nodes && i < |f.nodes[n].slots|
    ensures Walkable(f.registry, f.nodes, f.rank, f.rankBound)
    ensures forall x :: x in Held(f.nodes[n].slots[i]) ==> x in f.nodes && f.nodes[x].parent == Some(n)
  {
  }

  /** A child ranks above its parent and below the bound. */
  lemma ChildRank(f: F.DataForest, n: NodeId, x: NodeId)
    requires f.ValidLinks() && x in f.nodes && f.nodes[x].parent == Some(n)
    ensures n in f.nodes && f.rank[n] < f.rank[x] < f.rankBound
  {
  }
}
