/**
 * UPsData::Validation on values: the dotted path of a node (its key segments from the node up
 * to the root), the reports one node's links give, and the reports of a whole owned subtree.
 */
module ValidationModel {
  import opened Options
  import opened OrderedMaps
  import S = Scalars
  import opened DataModel
  import FM = ForestModel
  import NF = NodeFormat

  /** EPsDataReportType. */
  datatype ReportType = Logic | Link

  /** FPsDataReport: the kind, the path of the link field, the reason, and the linked path of a Link report. */
  datatype Report = Report(kind: ReportType, sourcePath: string, reason: string, linkedPath: Option<string>)

  /*
   * The path
   */

  /** One node's part of the path: "CollectionKey.DataKey", or just DataKey when there is no collection key. */
  function Segment(d: Data): string
  {
    if d.collectionKey != "" then d.collectionKey + "." + d.dataKey else d.dataKey
  }

  /** A turn of the path loop: the segment goes in front, joined by a dot unless the path is still empty. */
  function Prepend(seg: string, path: string): string
  {
    if path == "" then seg else seg + "." + path
  }

  /** The path loop from `cur` on, with `acc` built so far; `cur` is None once the root has been passed. */
  ghost function Climb(nodes: FM.Nodes, rank: map<NodeId, nat>, cur: Option<NodeId>, acc: string): string
    requires FM.Ranked(nodes, rank) && (cur.Some? ==> cur.value in nodes)
    decreases if cur.Some? then rank[cur.value] + 1 else 0
  {
    if cur.None? then acc
    else Climb(nodes, rank, nodes[cur.value].parent, Prepend(Segment(nodes[cur.value]), acc))
  }

  /** The path Validation builds for node `m`. */
  ghost function Path(nodes: FM.Nodes, rank: map<NodeId, nat>, m: NodeId): string
    requires FM.Ranked(nodes, rank) && m in nodes
  {
    Climb(nodes, rank, Some(m), "")
  }

  /** The segments of `m` and its ancestors, the root's first. */
  ghost function Segments(nodes: FM.Nodes, rank: map<NodeId, nat>, m: NodeId): (r: seq<string>)
    requires FM.Ranked(nodes, rank) && m in nodes
    ensures r != [] && r[|r| - 1] == Segment(nodes[m])
    decreases rank[m]
  {
    if nodes[m].parent.None? then [Segment(nodes[m])]
    else Segments(nodes, rank, nodes[m].parent.value) + [Segment(nodes[m])]
  }

  /** `xs` without its trailing empty strings. */
  function TrimTail(xs: seq<string>): (r: seq<string>)
    ensures r <= xs
    ensures r != [] ==> r[|r| - 1] != ""
    ensures forall k :: |r| <= k < |xs| ==> xs[k] == ""
  {
    if xs != [] && xs[|xs| - 1] == "" then TrimTail(xs[..|xs| - 1]) else xs
  }

  /** The strings joined by dots. */
  function Dots(xs: seq<string>): string
  {
    if |xs| == 0 then ""
    else if |xs| == 1 then xs[0]
    else Dots(xs[..|xs| - 1]) + "." + xs[|xs| - 1]
  }

  /** Prepending a segment to a path is the same as joining it as one more segment. */
  lemma PrependDots(xs: seq<string>, a: string, b: string)
    ensures Dots(TrimTail(xs + [Prepend(a, b)])) == Dots(TrimTail(xs + [a, b]))
  {
    if b == "" {
      assert (xs + [a, b])[..|xs| + 1] == xs + [a];
    } else {
      assert (xs + [a, b])[..|xs| + 1] == xs + [a];
      if xs != [] {
        assert (xs + [Prepend(a, b)])[..|xs|] == xs;
        assert (xs + [a])[..|xs|] == xs;
      }
    }
  }

  lemma {:induction false} ClimbDots(nodes: FM.Nodes, rank: map<NodeId, nat>, m: NodeId, acc: string)
    requires FM.Ranked(nodes, rank) && m in nodes
    ensures Climb(nodes, rank, Some(m), acc) == Dots(TrimTail(Segments(nodes, rank, m) + [acc]))
    decreases rank[m]
  {
    if nodes[m].parent.None? {
      PrependDots([], Segment(nodes[m]), acc);
      assert [] + [Segment(nodes[m]), acc] == Segments(nodes, rank, m) + [acc];
    } else {
      ClimbDots(nodes, rank, nodes[m].parent.value, Prepend(Segment(nodes[m]), acc));
      ClimbStep(nodes, rank, m, acc);
    }
  }

  /** One turn of the path loop, given the rest of the loop from the parent on. */
  lemma ClimbStep(nodes: FM.Nodes, rank: map<NodeId, nat>, m: NodeId, acc: string)
    requires FM.Ranked(nodes, rank) && m in nodes && nodes[m].parent.Some?
    requires Climb(nodes, rank, nodes[m].parent, Prepend(Segment(nodes[m]), acc))
             == Dots(TrimTail(Segments(nodes, rank, nodes[m].parent.value) + [Prepend(Segment(nodes[m]), acc)]))
    ensures Climb(nodes, rank, Some(m), acc) == Dots(TrimTail(Segments(nodes, rank, m) + [acc]))
  {
    PrependDots(Segments(nodes, rank, nodes[m].parent.value), Segment(nodes[m]), acc);
    assert Segments(nodes, rank, nodes[m].parent.value) + [Segment(nodes[m]), acc] == Segments(nodes, rank, m) + [acc];
  }

  /**
   * The path of a node is its segments and its ancestors' joined by dots from the root down,
   * leaving out the empty segments at the node's end.
   */
  lemma PathDots(nodes: FM.Nodes, rank: map<NodeId, nat>, m: NodeId)
    requires FM.Ranked(nodes, rank) && m in nodes
    ensures Path(nodes, rank, m) == Dots(TrimTail(Segments(nodes, rank, m)))
  {
    var xs := Segments(nodes, rank, m);
    ClimbDots(nodes, rank, m, "");
    assert (xs + [""])[..|xs|] == xs;
  }

  /** The node reached from `m` by following Parent to the end: GetRoot. */
  ghost function RootOf(nodes: FM.Nodes, rank: map<NodeId, nat>, m: NodeId): (r: NodeId)
    requires FM.Ranked(nodes, rank) && m in nodes
    ensures r in nodes && nodes[r].parent.None? && FM.Under(nodes, rank, m, r)
    decreases rank[m]
  {
    if nodes[m].parent.None? then m else RootOf(nodes, rank, nodes[m].parent.value)
  }

  /** A parentless ancestor is the root. */
  lemma {:induction false} RootUnique(nodes: FM.Nodes, rank: map<NodeId, nat>, m: NodeId, r: NodeId)
    requires FM.Ranked(nodes, rank) && m in nodes && FM.Under(nodes, rank, m, r)
    requires r in nodes && nodes[r].parent.None?
    ensures r == RootOf(nodes, rank, m)
    decreases rank[m]
  {
    if m != r {
      RootUnique(nodes, rank, nodes[m].parent.value, r);
    }
  }

  /*
   * The reports of one link
   */

  /** The strings an array of string scalars holds. */
  function Texts(items: seq<S.Scalar>): (r: seq<string>)
    requires forall i :: 0 <= i < |items| ==> items[i].Str?
    ensures |r| == |items| && forall i :: 0 <= i < |items| ==> r[i] == items[i].s
  {
    if items == [] then [] else [items[0].s] + Texts(items[1..])
  }

  /**
   * GetByName<FString> or GetByName<TArray<FString>> on the link's name: the keys the link
   * field holds (one for a single link), or None when the node has no such field of that type.
   */
  function LinkKeys(fields: seq<FieldDesc>, slots: seq<SlotValue>, link: LinkDesc): (r: Option<seq<string>>)
    requires |slots| == |fields| && NF.SlotsConform(fields, slots)
    ensures r.Some? && !link.isCollection ==> |r.value| == 1
  {
    match NF.FieldIndex(fields, link.name)
    case None => None
    case Some(i) =>
      if link.isCollection then
        if fields[i].shape == ArrayField(S.StringType) then Some(Texts(slots[i].items)) else None
      else
        if fields[i].shape == ScalarField(S.StringType) then Some([slots[i].v.s]) else None
  }

  /** GetByName<TMap<FString, UPsData*>> on the root: the keys of the owned map at `path`, or None. */
  function TargetKeys(fields: seq<FieldDesc>, slots: seq<SlotValue>, path: string): (r: Option<set<string>>)
    requires |slots| == |fields| && NF.SlotsConform(fields, slots)
    ensures r.Some? <==> exists i :: 0 <= i < |fields| && fields[i].name == path && fields[i].shape.NodeMapField?
                                     && NF.FieldIndex(fields, path) == Some(i)
  {
    match NF.FieldIndex(fields, path)
    case None => None
    case Some(i) => if fields[i].shape.NodeMapField? then Some(Keys(slots[i].children)) else None
  }

  /** The check of one key: a non-empty key must be in the target map, an empty one is allowed only on a nullable link. */
  function KeyReport(fieldPath: string, link: LinkDesc, keys: set<string>, p: string): seq<Report>
  {
    if |p| > 0 then
      if p in keys then [] else [Report(Link, fieldPath, "Property not found", Some(link.path + "." + p))]
    else if !link.nullable then [Report(Link, fieldPath, "Property is empty", Some(link.path + ".?"))]
    else []
  }

  /** The reports of the keys of one link, in the order of the keys. */
  function KeyReports(fieldPath: string, link: LinkDesc, keys: set<string>, props: seq<string>): seq<Report>
  {
    if props == [] then []
    else KeyReports(fieldPath, link, keys, props[..|props| - 1]) + KeyReport(fieldPath, link, keys, props[|props| - 1])
  }

  /** `x` followed by `a` is `x` followed by `b` only when `a` is `b`. */
  lemma SuffixCancel(x: string, a: string, b: string)
    requires x + a == x + b
    ensures a == b
  {
    assert a == (x + a)[|x|..];
    assert b == (x + b)[|x|..];
  }

  /**
   * A link's key reports: one "Property not found" report, linked to the target path and the
   * key, for each non-empty key missing from the target map; a "Property is empty" report,
   * linked to the target path and "?", when the link is not nullable and has an empty key; and
   * nothing else.
   */
  lemma {:induction false} KeyReportsExact(fieldPath: string, link: LinkDesc, keys: set<string>, props: seq<string>, k: string)
    ensures Report(Link, fieldPath, "Property not found", Some(link.path + "." + k)) in KeyReports(fieldPath, link, keys, props)
            <==> k in props && k != "" && k !in keys
    ensures Report(Link, fieldPath, "Property is empty", Some(link.path + ".?")) in KeyReports(fieldPath, link, keys, props)
            <==> "" in props && !link.nullable
    ensures forall r :: r in KeyReports(fieldPath, link, keys, props) ==> r.kind == Link && r.sourcePath == fieldPath
  {
    if props != [] {
      var init := props[..|props| - 1];
      var p := props[|props| - 1];
      KeyReportsExact(fieldPath, link, keys, init, k);
      assert props == init + [p];
      if Report(Link, fieldPath, "Property not found", Some(link.path + "." + k)) in KeyReport(fieldPath, link, keys, p) {
        SuffixCancel(link.path + ".", p, k);
      }
    }
  }

  /** A GetLinks entry: every link of the class, or none for a class without links. */
  function LinksOf(links: map<ClassId, seq<LinkDesc>>, cls: ClassId): seq<LinkDesc>
  {
    if cls in links then links[cls] else []
  }

  /**
   * The reports of one link of a node at `path`: an abstract link, a link field the node does
   * not have, or a target map the root does not have gives one Logic report; otherwise the keys
   * are checked against the target map.
   */
  function LinkReport(path: string, link: LinkDesc, fields: seq<FieldDesc>, slots: seq<SlotValue>,
                      rootFields: seq<FieldDesc>, rootSlots: seq<SlotValue>): seq<Report>
    requires |slots| == |fields| && NF.SlotsConform(fields, slots)
    requires |rootSlots| == |rootFields| && NF.SlotsConform(rootFields, rootSlots)
  {
    var fieldPath := path + "." + link.name;
    if link.isAbstract then [Report(Logic, fieldPath, "Used abstract property", None)]
    else match LinkKeys(fields, slots, link)
      case None => [Report(Logic, fieldPath, "Used undeclared property", None)]
      case Some(props) =>
        match TargetKeys(rootFields, rootSlots, link.path)
        case None => [Report(Logic, link.path, "Used undeclared property", None)]
        case Some(keys) => KeyReports(fieldPath, link, keys, props)
  }

  /** The reports of the links `ls`, in their order. */
  function LinksReports(path: string, ls: seq<LinkDesc>, fields: seq<FieldDesc>, slots: seq<SlotValue>,
                        rootFields: seq<FieldDesc>, rootSlots: seq<SlotValue>): seq<Report>
    requires |slots| == |fields| && NF.SlotsConform(fields, slots)
    requires |rootSlots| == |rootFields| && NF.SlotsConform(rootFields, rootSlots)
  {
    if ls == [] then []
    else LinksReports(path, ls[..|ls| - 1], fields, slots, rootFields, rootSlots)
         + LinkReport(path, ls[|ls| - 1], fields, slots, rootFields, rootSlots)
  }

  /*
   * The reports of a subtree
   */

  /** What Validation walks: an acyclic forest of bounded rank whose slots agree with the registry and the links. */
  ghost predicate Walkable(registry: map<ClassId, seq<FieldDesc>>, nodes: FM.Nodes, rank: map<NodeId, nat>, bound: nat)
  {
    FM.Ranked(nodes, rank) && FM.Bounded(nodes, rank, bound) && FM.Owned(registry, nodes)
  }

  lemma NodeFits(registry: map<ClassId, seq<FieldDesc>>, nodes: FM.Nodes, m: NodeId)
    requires FM.SlotsFit(registry, nodes) && m in nodes
    ensures nodes[m].cls in registry && |nodes[m].slots| == |registry[nodes[m].cls]|
    ensures NF.SlotsConform(registry[nodes[m].cls], nodes[m].slots)
  {
  }

  /** The reports of node `m`'s own links, with the keys looked up in the root's maps. */
  ghost function NodeReports(registry: map<ClassId, seq<FieldDesc>>, links: map<ClassId, seq<LinkDesc>>,
                             nodes: FM.Nodes, rank: map<NodeId, nat>, m: NodeId): seq<Report>
    requires FM.Ranked(nodes, rank) && FM.SlotsFit(registry, nodes) && m in nodes
  {
    var root := RootOf(nodes, rank, m);
    NodeFits(registry, nodes, m);
    NodeFits(registry, nodes, root);
    LinksReports(Path(nodes, rank, m), LinksOf(links, nodes[m].cls), registry[nodes[m].cls], nodes[m].slots,
                 registry[nodes[root].cls], nodes[root].slots)
  }

  /** Validation of node `n`: its own link reports, then the reports of every node its owned fields hold. */
  ghost function Reports(registry: map<ClassId, seq<FieldDesc>>, links: map<ClassId, seq<LinkDesc>>,
                         nodes: FM.Nodes, rank: map<NodeId, nat>, bound: nat, n: NodeId): seq<Report>
    requires Walkable(registry, nodes, rank, bound) && n in nodes
    decreases bound - rank[n], 2, 0
  {
    NodeReports(registry, links, nodes, rank, n) + FieldsReports(registry, links, nodes, rank, bound, n, |nodes[n].slots|)
  }

  /** The reports of the nodes held by the first `i` fields of `n` that are owned, in field order. */
  ghost function FieldsReports(registry: map<ClassId, seq<FieldDesc>>, links: map<ClassId, seq<LinkDesc>>,
                               nodes: FM.Nodes, rank: map<NodeId, nat>, bound: nat, n: NodeId, i: nat): seq<Report>
    requires Walkable(registry, nodes, rank, bound) && n in nodes && i <= |nodes[n].slots|
    decreases bound - rank[n], 1, i
  {
    if i == 0 then []
    else FieldsReports(registry, links, nodes, rank, bound, n, i - 1)
         + (if DataClass(registry[nodes[n].cls][i - 1].shape).Some?
            then HeldReports(registry, links, nodes, rank, bound, n, Held(nodes[n].slots[i - 1])) else [])
  }

  /** The Validation reports of the children `xs` of `n`, appended in order. */
  ghost function HeldReports(registry: map<ClassId, seq<FieldDesc>>, links: map<ClassId, seq<LinkDesc>>,
                             nodes: FM.Nodes, rank: map<NodeId, nat>, bound: nat, n: NodeId, xs: seq<NodeId>): seq<Report>
    requires Walkable(registry, nodes, rank, bound) && n in nodes
    requires forall x :: x in xs ==> x in nodes && nodes[x].parent == Some(n)
    decreases bound - rank[n], 0, |xs|
  {
    if xs == [] then []
    else HeldReports(registry, links, nodes, rank, bound, n, xs[..|xs| - 1])
         + Reports(registry, links, nodes, rank, bound, xs[|xs| - 1])
  }

  /** Every report of Validation on `n` is a link report of `n` or of a node below it. */
  lemma {:induction false} ReportsWithin(registry: map<ClassId, seq<FieldDesc>>, links: map<ClassId, seq<LinkDesc>>,
                                         nodes: FM.Nodes, rank: map<NodeId, nat>, bound: nat, n: NodeId, r: Report)
    requires Walkable(registry, nodes, rank, bound) && n in nodes
    requires r in Reports(registry, links, nodes, rank, bound, n)
    ensures exists m :: m in nodes && FM.Under(nodes, rank, m, n) && r in NodeReports(registry, links, nodes, rank, m)
    decreases bound - rank[n], 2, 0
  {
    if r in NodeReports(registry, links, nodes, rank, n) {
      assert FM.Under(nodes, rank, n, n);
    } else {
      FieldsWithin(registry, links, nodes, rank, bound, n, |nodes[n].slots|, r);
    }
  }

  lemma {:induction false} FieldsWithin(registry: map<ClassId, seq<FieldDesc>>, links: map<ClassId, seq<LinkDesc>>,
                                        nodes: FM.Nodes, rank: map<NodeId, nat>, bound: nat, n: NodeId, i: nat, r: Report)
    requires Walkable(registry, nodes, rank, bound) && n in nodes && i <= |nodes[n].slots|
    requires r in FieldsReports(registry, links, nodes, rank, bound, n, i)
    ensures exists m :: m in nodes && FM.Under(nodes, rank, m, n) && r in NodeReports(registry, links, nodes, rank, m)
    decreases bound - rank[n], 1, i
  {
    if r in FieldsReports(registry, links, nodes, rank, bound, n, i - 1) {
      FieldsWithin(registry, links, nodes, rank, bound, n, i - 1, r);
    } else {
      FieldsStep(registry, links, nodes, rank, bound, n, i, r);
      HeldWithin(registry, links, nodes, rank, bound, n, Held(nodes[n].slots[i - 1]), r);
    }
  }

  /** A report the i-th field adds comes from the nodes it holds, which are children of `n`. */
  lemma FieldsStep(registry: map<ClassId, seq<FieldDesc>>, links: map<ClassId, seq<LinkDesc>>,
                   nodes: FM.Nodes, rank: map<NodeId, nat>, bound: nat, n: NodeId, i: nat, r: Report)
    requires Walkable(registry, nodes, rank, bound) && n in nodes && 0 < i <= |nodes[n].slots|
    requires r in FieldsReports(registry, links, nodes, rank, bound, n, i)
    requires r !in FieldsReports(registry, links, nodes, rank, bound, n, i - 1)
    ensures forall x :: x in Held(nodes[n].slots[i - 1]) ==> x in nodes && nodes[x].parent == Some(n)
    ensures r in HeldReports(registry, links, nodes, rank, bound, n, Held(nodes[n].slots[i - 1]))
  {
  }

  lemma {:induction false} HeldWithin(registry: map<ClassId, seq<FieldDesc>>, links: map<ClassId, seq<LinkDesc>>,
                                      nodes: FM.Nodes, rank: map<NodeId, nat>, bound: nat, n: NodeId, xs: seq<NodeId>, r: Report)
    requires Walkable(registry, nodes, rank, bound) && n in nodes
    requires forall x :: x in xs ==> x in nodes && nodes[x].parent == Some(n)
    requires r in HeldReports(registry, links, nodes, rank, bound, n, xs)
    ensures exists m :: m in nodes && FM.Under(nodes, rank, m, n) && r in NodeReports(registry, links, nodes, rank, m)
    decreases bound - rank[n], 0, |xs|
  {
    var x := xs[|xs| - 1];
    if r in HeldReports(registry, links, nodes, rank, bound, n, xs[..|xs| - 1]) {
      HeldWithin(registry, links, nodes, rank, bound, n, xs[..|xs| - 1], r);
    } else {
      ReportsWithin(registry, links, nodes, rank, bound, x, r);
      var m :| m in nodes && FM.Under(nodes, rank, m, x) && r in NodeReports(registry, links, nodes, rank, m);
      FM.UnderStep(nodes, rank, m, x);
    }
  }
}
