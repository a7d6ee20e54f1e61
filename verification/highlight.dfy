/** The link opacity rules of `_showDetails` and `_hideDetails`
    (graph.js): the stroke opacity each link's path gets while a node is
    hovered and after the pointer leaves it. */
module Highlight {
  import opened Entities
  import opened Resolution

  /** The two stroke opacities the graph uses: 0.5 at rest, 1.0 when
      highlighted. */
  datatype Opacity = Half | Full

  function StrokeOpacity(o: Opacity): real {
    match o
    case Half => 0.5
    case Full => 1.0
  }

  /** `l.source === d || l.target === d`: an identity test against the
      node object `d`, the node at index `d`. */
  predicate Touches(l: Link, d: nat) {
    l.source == Ref(d) || l.target == Ref(d)
  }

  /** The opacity of a link's path with node `hovered` under the pointer,
      or with no node under it. */
  function LinkOpacity(l: Link, hovered: Option<nat>): Opacity {
    match hovered
    case None => Half
    case Some(d) => if Touches(l, d) then Full else Half
  }

  /** Every path's opacity, in link order. */
  function Opacities(ls: seq<Link>, hovered: Option<nat>): seq<Opacity> {
    seq(|ls|, j requires 0 <= j < |ls| => LinkOpacity(ls[j], hovered))
  }

  /** On hover of `d` in a freshly resolved graph, the links raised to full
      opacity are exactly those whose source or target id in the input
      document is `d`'s id, provided `d` is the node the table holds for
      that id; every other link stays at rest. */
  lemma HoverHighlightsLinksOfNode(ns: seq<Node>, raw: seq<Link>, d: nat)
    requires d < |ns|
    ensures |Opacities(ResolveAll(IdTable(ns), raw), Some(d))| == |raw|
    ensures forall j :: 0 <= j < |raw| ==>
      (Opacities(ResolveAll(IdTable(ns), raw), Some(d))[j] == Full <==>
        IdTable(ns)[ns[d].id] == d && (raw[j].source == Id(ns[d].id) || raw[j].target == Id(ns[d].id)))
  {
    var t := IdTable(ns);
    forall j | 0 <= j < |raw|
      ensures Touches(ResolveLink(t, raw[j]), d) <==>
        t[ns[d].id] == d && (raw[j].source == Id(ns[d].id) || raw[j].target == Id(ns[d].id))
    {
      EndpointDesignates(ns, raw[j].source, d);
      EndpointDesignates(ns, raw[j].target, d);
    }
  }

  /** With unique ids, every link whose raw source or target is `d`'s id,
      and no other, is highlighted on hover of `d`. */
  lemma HoverHighlightsLinksOfNodeUniqueIds(ns: seq<Node>, raw: seq<Link>, d: nat)
    requires UniqueIds(ns) && d < |ns|
    ensures forall j :: 0 <= j < |raw| ==>
      (Opacities(ResolveAll(IdTable(ns), raw), Some(d))[j] == Full <==>
        raw[j].source == Id(ns[d].id) || raw[j].target == Id(ns[d].id))
  {
    IdTableUniqueIds(ns);
    HoverHighlightsLinksOfNode(ns, raw, d);
  }

  /** A node shadowed by a later node with the same id is never referred
      to: hovering it highlights no link. */
  lemma HoverOfShadowedNode(ns: seq<Node>, raw: seq<Link>, d: nat, e: nat)
    requires d < e < |ns| && ns[e].id == ns[d].id
    ensures forall j :: 0 <= j < |raw| ==> Opacities(ResolveAll(IdTable(ns), raw), Some(d))[j] == Half
  {
    HoverHighlightsLinksOfNode(ns, raw, d);
  }

  /** An endpoint resolves to node `d` exactly when it is the raw id of `d`
      and `d` is the node the table holds for that id. */
  lemma EndpointDesignates(ns: seq<Node>, e: Endpoint, d: nat)
    requires d < |ns|
    ensures Resolve(IdTable(ns), e) == Ref(d) <==> e == Id(ns[d].id) && IdTable(ns)[ns[d].id] == d
  {
  }

  /** After un-hover every link is at rest, whatever it was before, which
      is also the opacity every path is drawn with. */
  lemma UnhoverRestsEveryLink(ls: seq<Link>)
    ensures |Opacities(ls, None)| == |ls|
    ensures forall j :: 0 <= j < |ls| ==> StrokeOpacity(Opacities(ls, None)[j]) == 0.5
  {
  }

  /** Hovering a node that no link touches changes no opacity. */
  lemma HoverOfIsolatedNode(ls: seq<Link>, d: nat)
    requires forall j :: 0 <= j < |ls| ==> !Touches(ls[j], d)
    ensures Opacities(ls, Some(d)) == Opacities(ls, None)
  {
  }
}
