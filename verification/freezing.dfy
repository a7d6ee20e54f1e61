/** `_freezeNodes` (graph.js): pin every node, turn every link endpoint back
    into its id, and run `_updateData` again. Reading `.id` of an `undefined`
    endpoint throws a TypeError, which ends the operation part-way. */
module Freezing {
  import opened Entities
  import opened Degrees
  import opened Resolution

  /** The `nodes.forEach` that sets `fixed = true`. */
  function FixAll(ns: seq<Node>): seq<Node> {
    seq(|ns|, i requires 0 <= i < |ns| => ns[i].(fixed := true))
  }

  /** The layout is frozen once every node is pinned. */
  predicate AllFixed(ns: seq<Node>) {
    forall i :: 0 <= i < |ns| ==> ns[i].fixed
  }

  /** A link with an `undefined` endpoint: reading its `.id` throws. */
  predicate Dangling(l: Link) {
    l.source.Absent? || l.target.Absent?
  }

  /** The index of the first dangling link, or the number of links. */
  function FirstDangling(ls: seq<Link>): (k: nat)
    ensures k <= |ls|
    ensures forall j :: 0 <= j < k ==> !Dangling(ls[j])
    ensures k < |ls| ==> Dangling(ls[k])
  {
    if |ls| == 0 then 0
    else if Dangling(ls[0]) then 0
    else 1 + FirstDangling(ls[1..])
  }

  /** `link.source = link.source.id; link.target = link.target.id`. */
  function UnresolveLink(ns: seq<Node>, l: Link): Link
    requires EndpointInRange(|ns|, l.source) && EndpointInRange(|ns|, l.target)
    requires !Dangling(l)
  {
    l.(source := Unresolve(ns, l.source), target := Unresolve(ns, l.target))
  }

  /** The link on which the TypeError is raised: when only the target is
      `undefined`, the source has already been turned into its id. */
  function CrashedLink(ns: seq<Node>, l: Link): Link
    requires EndpointInRange(|ns|, l.source)
  {
    if l.source.Absent? then l else l.(source := Unresolve(ns, l.source))
  }

  /** The link array after the `links.forEach` has run up to link `k`: the
      links before `k` are turned back into ids; link `k` is the one that
      throws, if it exists; the links after it are untouched. */
  function UnresolvedUpTo(ns: seq<Node>, ls: seq<Link>, k: nat): seq<Link>
    requires RefsInRange(|ns|, ls)
    requires k <= |ls| && forall j :: 0 <= j < k ==> !Dangling(ls[j])
  {
    seq(|ls|, j requires 0 <= j < |ls| =>
      if j < k then UnresolveLink(ns, ls[j])
      else if j == k then CrashedLink(ns, ls[j])
      else ls[j])
  }

  /** What `_freezeNodes` leaves behind: either it ran to the end, or a
      TypeError stopped it with the arrays as they were at that moment. */
  datatype FreezeResult = Completed(scene: Scene) | TypeError(scene: Scene)

  /** `_freezeNodes` on the two arrays. A TypeError is raised either by the
      `.id` read of an `undefined` endpoint, or by the `force.start()` of the
      second `_updateData`, which meets `undefined` where a raw id was read
      back (a number has no `id`). */
  function AfterFreeze(s: Scene, scale: RadiusScale): FreezeResult
    requires RefsInRange(|s.nodes|, s.links)
  {
    var ns := FixAll(s.nodes);
    var k := FirstDangling(s.links);
    var ls := UnresolvedUpTo(ns, s.links, k);
    if k < |s.links| then TypeError(Scene(ns, ls))
    else
      var r := AfterUpdateData(Scene(ns, ls), scale);
      if AllRefs(r.links) then Completed(r) else TypeError(r)
  }

  /** The link holds a raw id where a node reference belongs. */
  predicate HoldsRawId(l: Link) {
    l.source.Id? || l.target.Id?
  }

  /** Freezing fails exactly when some link has an `undefined` endpoint or
      still holds a raw id. */
  lemma FreezeFailsIffDangling(s: Scene, scale: RadiusScale)
    requires RefsInRange(|s.nodes|, s.links)
    ensures AfterFreeze(s, scale).TypeError? <==>
      exists j :: 0 <= j < |s.links| && (Dangling(s.links[j]) || HoldsRawId(s.links[j]))
  {
    var k := FirstDangling(s.links);
    if k < |s.links| {
      assert Dangling(s.links[k]);
    } else {
      var ns := FixAll(s.nodes);
      var t := IdTable(WithRadii(ns, scale));
      FixAllKeepsData(s.nodes);
      WithRadiiKeepsData(ns, scale);
      forall i | 0 <= i < |ns|
        ensures ns[i].id in t
      {
        assert WithRadii(ns, scale)[i].id == ns[i].id;
      }
      ReresolvedAllRefsIff(t, ns, s.links);
    }
  }

  /** When no `.id` read throws, the links resolve to references again
      exactly when none of them held a raw id, through any table that holds
      every node's id. */
  lemma ReresolvedAllRefsIff(t: map<NodeId, nat>, ns: seq<Node>, ls: seq<Link>)
    requires forall i :: 0 <= i < |ns| ==> ns[i].id in t
    requires RefsInRange(|ns|, ls) && FirstDangling(ls) == |ls|
    ensures AllRefs(ResolveAll(t, UnresolvedUpTo(ns, ls, |ls|))) <==>
      forall j :: 0 <= j < |ls| ==> !HoldsRawId(ls[j])
  {
    var u := UnresolvedUpTo(ns, ls, |ls|);
    var r := ResolveAll(t, u);
    forall j | 0 <= j < |ls|
      ensures r[j].source.Ref? && r[j].target.Ref? <==> !HoldsRawId(ls[j])
    {
      assert u[j] == UnresolveLink(ns, ls[j]);
      ReresolvedIsRef(t, ns, ls[j]);
    }
  }

  /** A link read back through `.id` resolves to node references again
      exactly when it held references and no raw id. */
  lemma ReresolvedIsRef(t: map<NodeId, nat>, ns: seq<Node>, l: Link)
    requires forall i :: 0 <= i < |ns| ==> ns[i].id in t
    requires EndpointInRange(|ns|, l.source) && EndpointInRange(|ns|, l.target) && !Dangling(l)
    ensures var r := ResolveLink(t, UnresolveLink(ns, l));
      r.source.Ref? && r.target.Ref? <==> !HoldsRawId(l)
  {
  }

  /** Whether or not it completes, freezing pins every node and changes no
      other node attribute, except that the second `_updateData` recomputes
      the radius, which it leaves as it was when it was current. */
  lemma FreezePinsEveryNode(s: Scene, scale: RadiusScale)
    requires RefsInRange(|s.nodes|, s.links)
    ensures |AfterFreeze(s, scale).scene.nodes| == |s.nodes|
    ensures forall i :: 0 <= i < |s.nodes| ==>
      AfterFreeze(s, scale).scene.nodes[i].fixed && SameData(AfterFreeze(s, scale).scene.nodes[i], s.nodes[i])
    ensures FirstDangling(s.links) < |s.links| || RadiiCurrent(s.nodes, scale) ==>
      forall i :: 0 <= i < |s.nodes| ==> AfterFreeze(s, scale).scene.nodes[i].radius == s.nodes[i].radius
  {
    FreezeNodes(s, scale);
    var ns := FixAll(s.nodes);
    var r := AfterFreeze(s, scale).scene.nodes;
    FixAllKeepsData(s.nodes);
    if FirstDangling(s.links) == |s.links| {
      assert r == WithRadii(ns, scale);
      WithRadiiKeepsData(ns, scale);
      forall i | 0 <= i < |s.nodes|
        ensures r[i].fixed && SameData(r[i], s.nodes[i])
      {
        assert SameData(r[i], ns[i]) && SameData(ns[i], s.nodes[i]);
      }
      if RadiiCurrent(s.nodes, scale) {
        FixAllKeepsRadii(s.nodes, scale);
        WithRadiiSettles(ns, scale);
      }
    } else {
      assert r == ns;
    }
  }

  /** The node array a freeze leaves: pinned, and with radii recomputed
      when no `.id` read throws. */
  lemma FreezeNodes(s: Scene, scale: RadiusScale)
    requires RefsInRange(|s.nodes|, s.links)
    ensures AfterFreeze(s, scale).scene.nodes ==
      if FirstDangling(s.links) < |s.links| then FixAll(s.nodes) else WithRadii(FixAll(s.nodes), scale)
  {
  }

  /** Pinning changes the flag and nothing else. */
  lemma FixAllKeepsData(ns: seq<Node>)
    ensures |FixAll(ns)| == |ns| && AllFixed(FixAll(ns))
    ensures forall i :: 0 <= i < |ns| ==> SameData(FixAll(ns)[i], ns[i]) && FixAll(ns)[i].radius == ns[i].radius
  {
  }

  /** Pinning keeps the extent and whether the radii are current. */
  lemma FixAllKeepsRadii(ns: seq<Node>, scale: RadiusScale)
    ensures DegreeExtent(FixAll(ns)) == DegreeExtent(ns)
    ensures RadiiCurrent(ns, scale) ==> RadiiCurrent(FixAll(ns), scale)
  {
    ExtentDependsOnDegreesOnly(FixAll(ns), ns);
  }

  /** Pinning nodes that are all pinned already changes nothing. */
  lemma FixAllOfFixed(ns: seq<Node>)
    requires AllFixed(ns)
    ensures FixAll(ns) == ns
  {
    forall i | 0 <= i < |ns|
      ensures FixAll(ns)[i] == ns[i]
    {
    }
  }

  /** The freeze round trip: when every endpoint is a canonical reference
      (always so after resolution, and always so with unique ids), freezing
      completes and gives every link back the very node objects it had. */
  lemma FreezeRoundTrip(s: Scene, scale: RadiusScale)
    requires RefsInRange(|s.nodes|, s.links) && AllRefs(s.links)
    requires forall j :: 0 <= j < |s.links| ==>
      Canonical(s.nodes, s.links[j].source) && Canonical(s.nodes, s.links[j].target)
    ensures AfterFreeze(s, scale).Completed?
    ensures AfterFreeze(s, scale).scene.links == s.links
  {
    NoDanglingWhenAllRefs(s.links);
    CompletedFreeze(s, scale);
    FixAllKeepsData(s.nodes);
    ResolveUnresolved(s.nodes, FixAll(s.nodes), s.links);
  }

  /** The shape of a freeze on links whose every endpoint is a reference. */
  lemma CompletedFreeze(s: Scene, scale: RadiusScale)
    requires RefsInRange(|s.nodes|, s.links) && AllRefs(s.links)
    ensures FirstDangling(s.links) == |s.links|
    ensures AfterFreeze(s, scale).Completed?
    ensures AfterFreeze(s, scale).scene.nodes == WithRadii(FixAll(s.nodes), scale)
    ensures AfterFreeze(s, scale).scene.links ==
      ResolveAll(IdTable(s.nodes), UnresolvedUpTo(FixAll(s.nodes), s.links, |s.links|))
  {
    NoDanglingWhenAllRefs(s.links);
    FixAllKeepsData(s.nodes);
    ResolveUnresolvedAreRefs(s.nodes, FixAll(s.nodes), s.links);
    FreezeKeepsIdTable(s.nodes, scale);
  }

  /** Pinning and recomputing radii keep the id table. */
  lemma FreezeKeepsIdTable(ns: seq<Node>, scale: RadiusScale)
    ensures IdTable(WithRadii(FixAll(ns), scale)) == IdTable(ns)
  {
    FixAllKeepsData(ns);
    WithRadiiKeepsData(FixAll(ns), scale);
    IdTableDependsOnIdsOnly(WithRadii(FixAll(ns), scale), ns);
  }

  /** Turning canonical references into ids and resolving them again gives
      back the links. */
  lemma ResolveUnresolved(ns: seq<Node>, pinned: seq<Node>, ls: seq<Link>)
    requires |pinned| == |ns| && forall i :: 0 <= i < |ns| ==> pinned[i].id == ns[i].id
    requires RefsInRange(|ns|, ls) && AllRefs(ls)
    requires forall j :: 0 <= j < |ls| ==> Canonical(ns, ls[j].source) && Canonical(ns, ls[j].target)
    ensures FirstDangling(ls) == |ls|
    ensures ResolveAll(IdTable(ns), UnresolvedUpTo(pinned, ls, |ls|)) == ls
  {
    NoDanglingWhenAllRefs(ls);
    var u := UnresolvedUpTo(pinned, ls, |ls|);
    forall j | 0 <= j < |ls|
      ensures ResolveLink(IdTable(ns), u[j]) == ls[j]
    {
      LinkRoundTrip(ns, pinned, ls[j]);
    }
  }

  /** One link through the round trip, the ids being read from a copy of
      the node list that differs only in other attributes. */
  lemma LinkRoundTrip(ns: seq<Node>, pinned: seq<Node>, l: Link)
    requires |pinned| == |ns| && forall i :: 0 <= i < |ns| ==> pinned[i].id == ns[i].id
    requires l.source.Ref? && l.target.Ref?
    requires Canonical(ns, l.source) && Canonical(ns, l.target)
    ensures ResolveLink(IdTable(ns), UnresolveLink(pinned, l)) == l
  {
    RoundTrip(ns, l.source);
    RoundTrip(ns, l.target);
  }

  /** No link is dangling when every endpoint is a reference. */
  lemma NoDanglingWhenAllRefs(ls: seq<Link>)
    requires AllRefs(ls)
    ensures FirstDangling(ls) == |ls|
  {
  }

  /** The same round trip, under the plain premise that node ids are
      unique. */
  lemma FreezeRoundTripUniqueIds(s: Scene, scale: RadiusScale)
    requires RefsInRange(|s.nodes|, s.links) && AllRefs(s.links)
    requires UniqueIds(s.nodes)
    ensures AfterFreeze(s, scale).Completed?
    ensures AfterFreeze(s, scale).scene.links == s.links
  {
    forall j | 0 <= j < |s.links|
      ensures Canonical(s.nodes, s.links[j].source) && Canonical(s.nodes, s.links[j].target)
    {
      UniqueIdsCanonical(s.nodes, s.links[j].source);
      UniqueIdsCanonical(s.nodes, s.links[j].target);
    }
    FreezeRoundTrip(s, scale);
  }

  /** When every endpoint is a reference, a freeze completes and leaves
      every endpoint a canonical reference into the node array. */
  lemma FreezeKeepsRefs(s: Scene, scale: RadiusScale)
    requires RefsInRange(|s.nodes|, s.links) && AllRefs(s.links)
    ensures AfterFreeze(s, scale).Completed?
    ensures var r := AfterFreeze(s, scale).scene;
      RefsInRange(|r.nodes|, r.links) && AllRefs(r.links) &&
      forall j :: 0 <= j < |r.links| ==> Canonical(r.nodes, r.links[j].source) && Canonical(r.nodes, r.links[j].target)
  {
    NoDanglingWhenAllRefs(s.links);
    CompletedFreeze(s, scale);
    var ns := FixAll(s.nodes);
    var u := UnresolvedUpTo(ns, s.links, |s.links|);
    FixAllKeepsData(s.nodes);
    ResolveUnresolvedAreRefs(s.nodes, ns, s.links);
    FreezeKeepsIdTable(s.nodes, scale);
    ResolvedAreCanonical(WithRadii(ns, scale), u);
  }

  /** Ids read from references into the array resolve to references again. */
  lemma ResolveUnresolvedAreRefs(ns: seq<Node>, pinned: seq<Node>, ls: seq<Link>)
    requires |pinned| == |ns| && forall i :: 0 <= i < |ns| ==> pinned[i].id == ns[i].id
    requires RefsInRange(|ns|, ls) && AllRefs(ls)
    ensures FirstDangling(ls) == |ls|
    ensures AllRefs(ResolveAll(IdTable(ns), UnresolvedUpTo(pinned, ls, |ls|)))
  {
    NoDanglingWhenAllRefs(ls);
    var u := UnresolvedUpTo(pinned, ls, |ls|);
    forall j | 0 <= j < |ls|
      ensures ResolveLink(IdTable(ns), u[j]).source.Ref? && ResolveLink(IdTable(ns), u[j]).target.Ref?
    {
      assert u[j] == UnresolveLink(pinned, ls[j]);
      assert ns[ls[j].source.node].id in IdTable(ns);
      assert ns[ls[j].target.node].id in IdTable(ns);
    }
  }

  /** Freezing twice leaves nodes, flags and endpoints as freezing once does,
      when every endpoint is a node reference. */
  lemma FreezeIdempotent(s: Scene, scale: RadiusScale)
    requires RefsInRange(|s.nodes|, s.links) && AllRefs(s.links)
    ensures AfterFreeze(s, scale).Completed?
    ensures RefsInRange(|AfterFreeze(s, scale).scene.nodes|, AfterFreeze(s, scale).scene.links)
    ensures AfterFreeze(AfterFreeze(s, scale).scene, scale) == AfterFreeze(s, scale)
  {
    FreezeKeepsRefs(s, scale);
    var once := AfterFreeze(s, scale).scene;
    FreezeRoundTrip(once, scale);
    FreezeSettlesNodes(s, scale);
    FreezeNodes(once, scale);
    WithRadiiSettles(once.nodes, scale);
    FixAllOfFixed(once.nodes);
    assert AfterFreeze(once, scale).scene == once;
  }

  /** A completed freeze leaves every node pinned with a current radius. */
  lemma FreezeSettlesNodes(s: Scene, scale: RadiusScale)
    requires RefsInRange(|s.nodes|, s.links)
    ensures AfterFreeze(s, scale).Completed? ==>
      AllFixed(AfterFreeze(s, scale).scene.nodes) && RadiiCurrent(AfterFreeze(s, scale).scene.nodes, scale)
  {
    FreezeNodes(s, scale);
    if AfterFreeze(s, scale).Completed? {
      var ns := FixAll(s.nodes);
      FixAllKeepsData(s.nodes);
      var r := WithRadii(ns, scale);
      assert AfterFreeze(s, scale).scene.nodes == r;
      WithRadiiKeepsData(ns, scale);
      WithRadiiSettles(ns, scale);
      forall i | 0 <= i < |r|
        ensures r[i].fixed
      {
        assert r[i].fixed == ns[i].fixed;
      }
    }
  }
}
