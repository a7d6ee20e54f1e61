/** The id -> node table of `_mapNodes` and the rewriting of link endpoints
    in `_updateData` (graph.js). A node object is designated by its index in
    the node array. */
module Resolution {
  import opened Entities
  import opened Degrees

  /** `_mapNodes`: one pass over the node list in order, setting
      `table[node.id] := node`, so that of several nodes with one id the last
      one wins. */
  function IdTable(ns: seq<Node>): (t: map<NodeId, nat>)
    ensures forall i :: 0 <= i < |ns| ==> ns[i].id in t && i <= t[ns[i].id]
    ensures forall x :: x in t ==> t[x] < |ns| && ns[t[x]].id == x
  {
    if |ns| == 0 then map[]
    else IdTable(ns[..|ns| - 1])[ns[|ns| - 1].id := |ns| - 1]
  }

  /** With unique ids, the table maps each node's id to that very node. */
  lemma IdTableUniqueIds(ns: seq<Node>)
    requires UniqueIds(ns)
    ensures forall i :: 0 <= i < |ns| ==> IdTable(ns)[ns[i].id] == i
  {
    var t := IdTable(ns);
    forall i | 0 <= i < |ns|
      ensures t[ns[i].id] == i
    {
      var k := t[ns[i].id];
      assert ns[k].id == ns[i].id;
    }
  }

  /** The table depends on the node ids alone. */
  lemma {:induction false} IdTableDependsOnIdsOnly(a: seq<Node>, b: seq<Node>)
    requires |a| == |b|
    requires forall i :: 0 <= i < |a| ==> a[i].id == b[i].id
    ensures IdTable(a) == IdTable(b)
  {
    if |a| > 0 {
      IdTableDependsOnIdsOnly(a[..|a| - 1], b[..|b| - 1]);
    }
  }

  /** `nodesMap.get(endpoint)`. The table is keyed by the string form of the
      id: a raw id finds its node or gives `undefined`; a node object or
      `undefined` used as a key finds no numeric id and gives `undefined`. */
  function Resolve(t: map<NodeId, nat>, e: Endpoint): Endpoint {
    match e
    case Id(x) => if x in t then Ref(t[x]) else Absent
    case Ref(_) => Absent
    case Absent => Absent
  }

  function ResolveLink(t: map<NodeId, nat>, l: Link): Link {
    l.(source := Resolve(t, l.source), target := Resolve(t, l.target))
  }

  /** The `links.forEach` of `_updateData`, rewriting both endpoints of every
      link in place. */
  function ResolveAll(t: map<NodeId, nat>, ls: seq<Link>): seq<Link> {
    seq(|ls|, j requires 0 <= j < |ls| => ResolveLink(t, ls[j]))
  }

  /** A raw id resolves to the last node in list order that carries it, and
      to `undefined` when no node carries it; no error is raised. */
  lemma ResolveId(ns: seq<Node>, x: NodeId)
    ensures (exists i :: 0 <= i < |ns| && ns[i].id == x) <==> Resolve(IdTable(ns), Id(x)).Ref?
    ensures Resolve(IdTable(ns), Id(x)).Ref? ==>
      var i := Resolve(IdTable(ns), Id(x)).node;
      i < |ns| && ns[i].id == x && forall j :: i < j < |ns| ==> ns[j].id != x
  {
  }

  /** Resolution keeps the number and order of links and each link's type,
      leaves no raw id behind and only refers to nodes of the array. */
  lemma ResolveAllShape(ns: seq<Node>, ls: seq<Link>)
    ensures |ResolveAll(IdTable(ns), ls)| == |ls|
    ensures forall j :: 0 <= j < |ls| ==> ResolveAll(IdTable(ns), ls)[j].kind == ls[j].kind
    ensures forall j :: 0 <= j < |ls| ==>
      !ResolveAll(IdTable(ns), ls)[j].source.Id? && !ResolveAll(IdTable(ns), ls)[j].target.Id?
    ensures RefsInRange(|ns|, ResolveAll(IdTable(ns), ls))
  {
  }

  /** Resolution must happen exactly once: resolving links that are already
      resolved loses every endpoint. */
  lemma ResolveTwiceLosesEndpoints(t: map<NodeId, nat>, ls: seq<Link>)
    ensures forall j :: 0 <= j < |ls| ==>
      ResolveAll(t, ResolveAll(t, ls))[j].source == Absent &&
      ResolveAll(t, ResolveAll(t, ls))[j].target == Absent
  {
  }

  /** `endpoint.id`, read on an endpoint that is not `undefined`: a node
      object gives its id; a bare number has no `id` property and gives
      `undefined`. (On `undefined` the read throws; callers never ask.) */
  function Unresolve(ns: seq<Node>, e: Endpoint): Endpoint
    requires EndpointInRange(|ns|, e) && !e.Absent?
  {
    match e
    case Ref(i) => Id(ns[i].id)
    case Id(_) => Absent
  }

  /** A reference is canonical when the table would resolve its node's id
      to that same node; references made by resolution always are. */
  predicate Canonical(ns: seq<Node>, e: Endpoint) {
    e.Ref? ==> e.node < |ns| && ns[e.node].id in IdTable(ns) && IdTable(ns)[ns[e.node].id] == e.node
  }

  /** The id -> reference -> id round trip gives back the same node object
      (identity, not merely a node with an equal id) for a canonical
      reference. */
  lemma RoundTrip(ns: seq<Node>, e: Endpoint)
    requires e.Ref? && Canonical(ns, e)
    ensures Resolve(IdTable(ns), Unresolve(ns, e)) == e
  {
  }

  /** Every reference that resolution produces is canonical. */
  lemma ResolvedAreCanonical(ns: seq<Node>, ls: seq<Link>)
    ensures RefsInRange(|ns|, ResolveAll(IdTable(ns), ls))
    ensures forall j :: 0 <= j < |ls| ==>
      Canonical(ns, ResolveAll(IdTable(ns), ls)[j].source) &&
      Canonical(ns, ResolveAll(IdTable(ns), ls)[j].target)
  {
    var r := ResolveAll(IdTable(ns), ls);
    forall j | 0 <= j < |ls|
      ensures Canonical(ns, r[j].source) && Canonical(ns, r[j].target)
      ensures EndpointInRange(|ns|, r[j].source) && EndpointInRange(|ns|, r[j].target)
    {
      ResolvedIsCanonical(ns, ls[j].source);
      ResolvedIsCanonical(ns, ls[j].target);
    }
  }

  lemma ResolvedIsCanonical(ns: seq<Node>, e: Endpoint)
    ensures Canonical(ns, Resolve(IdTable(ns), e)) && EndpointInRange(|ns|, Resolve(IdTable(ns), e))
  {
  }

  /** With unique ids every reference into the array is canonical. */
  lemma UniqueIdsCanonical(ns: seq<Node>, e: Endpoint)
    requires UniqueIds(ns) && EndpointInRange(|ns|, e)
    ensures Canonical(ns, e)
  {
    IdTableUniqueIds(ns);
  }

  /** Every endpoint is a canonical reference into the node array: what a
      `_updateData` whose `force.start()` did not throw leaves behind. */
  predicate Linked(ns: seq<Node>, ls: seq<Link>) {
    AllRefs(ls) &&
    forall j :: 0 <= j < |ls| ==> Canonical(ns, ls[j].source) && Canonical(ns, ls[j].target)
  }

  /** The endpoint is the raw id of some node of the list. */
  predicate NamesNode(ns: seq<Node>, e: Endpoint) {
    exists i :: 0 <= i < |ns| && e == Id(ns[i].id)
  }

  /** `_updateData` on the node and link arrays: the radius loop, then the
      table, then endpoint resolution. The `force.start()` that follows
      reads `.weight` of every endpoint and throws on an `undefined` one,
      that is, unless `AllRefs` holds of the links this returns. */
  function AfterUpdateData(s: Scene, scale: RadiusScale): Scene {
    var ns := WithRadii(s.nodes, scale);
    Scene(ns, ResolveAll(IdTable(ns), s.links))
  }

  /** `_updateData` gets through `force.start()` exactly when every raw
      endpoint names a node of the list; it then leaves every endpoint a
      canonical reference. */
  lemma UpdateDataStartsIffIdsKnown(s: Scene, scale: RadiusScale)
    ensures AllRefs(AfterUpdateData(s, scale).links) <==>
      forall j :: 0 <= j < |s.links| ==> NamesNode(s.nodes, s.links[j].source) && NamesNode(s.nodes, s.links[j].target)
    ensures AllRefs(AfterUpdateData(s, scale).links) ==>
      Linked(AfterUpdateData(s, scale).nodes, AfterUpdateData(s, scale).links)
  {
    var ns := WithRadii(s.nodes, scale);
    WithRadiiKeepsData(s.nodes, scale);
    IdTableDependsOnIdsOnly(ns, s.nodes);
    ResolvedAreCanonical(ns, s.links);
    var r := AfterUpdateData(s, scale).links;
    forall j | 0 <= j < |s.links|
      ensures r[j].source.Ref? <==> NamesNode(s.nodes, s.links[j].source)
      ensures r[j].target.Ref? <==> NamesNode(s.nodes, s.links[j].target)
    {
      ResolvesIffNamesNode(s.nodes, s.links[j].source);
      ResolvesIffNamesNode(s.nodes, s.links[j].target);
    }
  }

  /** An endpoint resolves to a node exactly when it is the raw id of one. */
  lemma ResolvesIffNamesNode(ns: seq<Node>, e: Endpoint)
    ensures Resolve(IdTable(ns), e).Ref? <==> NamesNode(ns, e)
  {
    var t := IdTable(ns);
    if Resolve(t, e).Ref? {
      assert e == Id(ns[t[e.id]].id);
    }
  }
}
