/** `MabogoGraph` (graph.js): the node and link arrays the graph keeps, the
    stroke opacity of each link's path, and the operations that change them
    in place. */
module Graph {
  import opened Entities
  import opened Degrees
  import opened Resolution
  import opened Freezing
  import opened Highlight

  class MabogoGraph {
    /** The node objects; a node's identity is its index. */
    var nodes: array<Node>
    /** The link objects, endpoints rewritten in place. */
    var links: array<Link>
    /** The `stroke-opacity` of the path drawn for each link, in link order. */
    var strokeOpacity: array<Opacity>
    /** The square-root radius scale over the degree extent. */
    const radiusScale: RadiusScale
    /** False when `force.start()` threw inside the constructor: the arrays
        then hold what `_updateData` wrote before the throw, no path is
        drawn and no freeze is scheduled. */
    var built: bool

    /** A graph that was built: one path per link, and every endpoint a
        canonical reference into the node array. */
    ghost predicate Valid()
      reads this, nodes, links
    {
      built &&
      strokeOpacity.Length == links.Length &&
      RefsInRange(nodes.Length, links[..]) &&
      Linked(nodes[..], links[..])
    }

    ghost function State(): Scene
      reads this, nodes, links
    {
      Scene(nodes[..], links[..])
    }

    /** `new MabogoGraph(body, data)`: `_updateData` on the input records,
        then the paths are drawn, every one at resting opacity. The build
        fails (`force.start()` throws) exactly when some link names an id
        that no node carries. */
    constructor (rawNodes: seq<Node>, rawLinks: seq<Link>, radiusScale: RadiusScale)
      ensures fresh(nodes) && fresh(links) && fresh(strokeOpacity)
      ensures this.radiusScale == radiusScale
      ensures State() == AfterUpdateData(Scene(rawNodes, rawLinks), radiusScale)
      ensures built <==> forall j :: 0 <= j < |rawLinks| ==>
        NamesNode(rawNodes, rawLinks[j].source) && NamesNode(rawNodes, rawLinks[j].target)
      ensures built ==> Valid() && strokeOpacity[..] == Opacities(links[..], None)
      ensures !built ==> strokeOpacity.Length == 0
    {
      this.radiusScale := radiusScale;
      nodes := new Node[|rawNodes|](i requires 0 <= i < |rawNodes| => rawNodes[i]);
      links := new Link[|rawLinks|](j requires 0 <= j < |rawLinks| => rawLinks[j]);
      strokeOpacity := new Opacity[0];
      built := false;
      new;
      assert nodes[..] == rawNodes && links[..] == rawLinks;
      UpdateDataStartsIffIdsKnown(Scene(rawNodes, rawLinks), radiusScale);
      built := UpdateData();
      if built {
        DrawChart();
      }
    }

    /** `_drawChart` of a built graph, as far as the paths go: one path per
        link, each drawn at resting opacity by `_updateLinks`. */
    method DrawChart()
      modifies this
      ensures nodes == old(nodes) && links == old(links) && built == old(built)
      ensures fresh(strokeOpacity)
      ensures strokeOpacity[..] == Opacities(links[..], None)
    {
      var paths := new Opacity[links.Length](_ => Half);
      assert paths[..] == Opacities(links[..], None);
      strokeOpacity := paths;
    }

    /** `_updateData`: set every radius from the degree extent, build the
        id table, rewrite every link endpoint through it and start the
        layout; `ok == false` stands for the TypeError `force.start()`
        raises on an `undefined` endpoint. */
    method UpdateData() returns (ok: bool)
      modifies nodes, links
      ensures State() == AfterUpdateData(old(State()), radiusScale)
      ensures RefsInRange(nodes.Length, links[..])
      ensures ok <==> AllRefs(links[..])
      ensures ok ==> Linked(nodes[..], links[..])
    {
      ghost var raw := links[..];
      SetRadii();
      var table := MapNodes();
      ResolveLinks(table);
      ResolvedAreCanonical(nodes[..], raw);
      ok := StartForce();
    }

    /** The link loop of `force.start()`, which increments `weight` on both
        endpoints of every link: it throws at the first `undefined` one. */
    method StartForce() returns (ok: bool)
      ensures ok <==> AllRefs(links[..])
    {
      ok := true;
      var j := 0;
      while ok && j < links.Length
        invariant 0 <= j <= links.Length
        invariant ok ==> forall k :: 0 <= k < j ==> links[k].source.Ref? && links[k].target.Ref?
        invariant !ok ==> !AllRefs(links[..])
      {
        if !links[j].source.Ref? || !links[j].target.Ref? {
          ok := false;
        } else {
          j := j + 1;
        }
      }
    }

    /** The `nodes.forEach` of `_updateData` that sets each radius from the
        extent of the degrees. */
    method SetRadii()
      modifies nodes
      ensures nodes[..] == WithRadii(old(nodes[..]), radiusScale)
    {
      ghost var before := nodes[..];
      var extent := DegreeExtent(nodes[..]);
      if extent.Some? {
        var (lo, hi) := extent.value;
        for i := 0 to nodes.Length
          invariant forall k :: 0 <= k < i ==> nodes[k] == before[k].(radius := radiusScale(lo, hi, before[k].links))
          invariant forall k :: i <= k < nodes.Length ==> nodes[k] == before[k]
        {
          nodes[i] := nodes[i].(radius := radiusScale(lo, hi, nodes[i].links));
        }
      }
    }

    /** The `links.forEach` of `_updateData` that rewrites both endpoints of
        every link through the table. */
    method ResolveLinks(table: map<NodeId, nat>)
      modifies links
      ensures links[..] == ResolveAll(table, old(links[..]))
    {
      for j := 0 to links.Length
        invariant forall k :: 0 <= k < j ==> links[k] == ResolveLink(table, old(links[k]))
        invariant forall k :: j <= k < links.Length ==> links[k] == old(links[k])
      {
        links[j] := ResolveLink(table, links[j]);
      }
    }

    /** `_mapNodes`: one pass over the nodes, the later of two nodes with
        the same id overwriting the earlier. */
    method MapNodes() returns (table: map<NodeId, nat>)
      ensures table == IdTable(nodes[..])
      ensures forall i :: 0 <= i < nodes.Length ==> nodes[i].id in table && nodes[table[nodes[i].id]].id == nodes[i].id
    {
      table := map[];
      for i := 0 to nodes.Length
        invariant table == IdTable(nodes[..i])
      {
        assert nodes[..i + 1][..i] == nodes[..i];
        table := table[nodes[i].id := i];
      }
      assert nodes[..nodes.Length] == nodes[..];
    }

    /** `_freezeNodes` on a built graph: pin every node, turn every link
        endpoint back into its id, then run `_updateData` again. Every
        endpoint being a canonical reference, no `.id` read throws, and
        every link gets back the very node objects it had. */
    method Freeze()
      requires Valid()
      modifies nodes, links
      ensures Valid()
      ensures AfterFreeze(old(State()), radiusScale).Completed?
      ensures State() == AfterFreeze(old(State()), radiusScale).scene
      ensures nodes[..] == WithRadii(FixAll(old(nodes[..])), radiusScale)
      ensures links[..] == old(links[..])
    {
      ghost var s := State();
      NoDanglingWhenAllRefs(links[..]);
      FreezeRoundTrip(s, radiusScale);
      FreezeKeepsRefs(s, radiusScale);
      CompletedFreeze(s, radiusScale);
      PinNodes();
      var unresolved := UnresolveLinks();
      assert unresolved;
      var started := UpdateData();
      assert started;
      assert State() == AfterFreeze(s, radiusScale).scene;
    }

    /** The `nodes.forEach` of `_freezeNodes` that sets `fixed = true`. */
    method PinNodes()
      modifies nodes
      ensures nodes[..] == FixAll(old(nodes[..]))
    {
      for i := 0 to nodes.Length
        invariant forall k :: 0 <= k < i ==> nodes[k] == old(nodes[k]).(fixed := true)
        invariant forall k :: i <= k < nodes.Length ==> nodes[k] == old(nodes[k])
      {
        nodes[i] := nodes[i].(fixed := true);
      }
    }

    /** The `links.forEach` of `_freezeNodes` that turns each endpoint back
        into its id; it stops, with `ok == false`, at the first `undefined`
        endpoint, whose `.id` read throws. */
    method UnresolveLinks() returns (ok: bool)
      requires RefsInRange(nodes.Length, links[..])
      modifies links
      ensures ok <==> FirstDangling(old(links[..])) == links.Length
      ensures links[..] == UnresolvedUpTo(nodes[..], old(links[..]), FirstDangling(old(links[..])))
    {
      ghost var raw := links[..];
      ghost var stop := FirstDangling(raw);
      ok := true;
      var j := 0;
      while ok && j < links.Length
        invariant 0 <= j <= stop
        invariant ok ==> forall k :: 0 <= k < j ==> links[k] == UnresolveLink(nodes[..], raw[k])
        invariant ok ==> forall k :: j <= k < links.Length ==> links[k] == raw[k]
        invariant !ok ==> j == stop < links.Length && links[..] == UnresolvedUpTo(nodes[..], raw, stop)
      {
        var l := links[j];
        if l.source.Absent? {
          ok := false;
        } else {
          var source := Unresolve(nodes[..], l.source);
          if l.target.Absent? {
            links[j] := l.(source := source);
            ok := false;
          } else {
            links[j] := l.(source := source, target := Unresolve(nodes[..], l.target));
            j := j + 1;
          }
        }
        if !ok {
          assert links[..] == UnresolvedUpTo(nodes[..], raw, stop);
        }
      }
      if ok {
        assert links[..] == UnresolvedUpTo(nodes[..], raw, stop);
      }
    }

    /** `_showDetails` for node `d`: every path is assigned, at full opacity
        exactly when its link starts or ends at `d`. */
    method ShowDetails(d: nat)
      requires Valid() && d < nodes.Length
      modifies strokeOpacity
      ensures strokeOpacity[..] == Opacities(links[..], Some(d))
      ensures forall j :: 0 <= j < links.Length ==> (strokeOpacity[j] == Full <==> Touches(links[j], d))
    {
      for j := 0 to links.Length
        invariant forall k :: 0 <= k < j ==> strokeOpacity[k] == LinkOpacity(links[k], Some(d))
      {
        strokeOpacity[j] := if Touches(links[j], d) then Full else Half;
      }
    }

    /** `_hideDetails`: every path back to resting opacity. */
    method HideDetails()
      requires Valid()
      modifies strokeOpacity
      ensures strokeOpacity[..] == Opacities(links[..], None)
      ensures forall j :: 0 <= j < links.Length ==> strokeOpacity[j] == Half
    {
      for j := 0 to links.Length
        invariant forall k :: 0 <= k < j ==> strokeOpacity[k] == Half
      {
        strokeOpacity[j] := Half;
      }
    }
  }
}
