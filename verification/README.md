# MabogoGraph bookkeeping, in Dafny

`MabogoGraph` (graph.js) draws a social-relationship graph as a force-directed
diagram. Under the D3 and SVG plumbing it keeps a small amount of graph state,
and this project models that state:

- the node array and the link array;
- the id → node table built by `_mapNodes`;
- the rewriting of each link's `source`/`target` from a raw id to a node object
  (`_updateData`);
- the degree extent that feeds the radius scale;
- the freeze step `_freezeNodes`, which pins every node, turns every endpoint
  back into its id and resolves the endpoints again;
- the link stroke opacity set by `_showDetails` and `_hideDetails`.

Modules, leaves first:

- `Entities` (entities.dfy) holds the records. A `Node` has an id, name, type
  (`kind`), degree (`links`), radius, position and `fixed` flag. A `Link` has a
  source, a target and a type. An `Endpoint` is a raw `Id`, a `Ref` to a node
  object, or `Absent` (`undefined`). Node identity (`===`) is the node's index
  in the node array.
- `Degrees` (degrees.dfy) holds the degree extent (`d3.extent`) and the radius
  loop. The square-root scale is a library call, so it is passed in as a
  parameter `RadiusScale` (lo, hi, degree) → radius.
- `Resolution` (resolution.dfy) holds the id table, endpoint resolution and its
  inverse, the `.id` read.
- `Freezing` (freezing.dfy) holds `_freezeNodes` as a function on the two arrays.
  It returns `Completed` or `TypeError`.
- `Highlight` (highlight.dfy) holds the hover opacity rule. `Half` is 0.5 (resting)
  and `Full` is 1.0.
- `Graph` (graph.dfy) holds the class `MabogoGraph`. It keeps the node, link and
  path-opacity arrays, and its methods update them in place. Each method is proved
  against the functions above.

Behaviour of graph.js worth knowing:

- A link that names an id no node carries gets the endpoint `undefined`
  (`Absent`) from the lookup, with no error at that point (graph.js:37-40). The
  `force.start()` that ends `_updateData` (graph.js:42) then increments `weight`
  on both endpoints of every link, and on `undefined` that throws a TypeError.
  So the constructor throws before `_drawChart` (graph.js:15). No path is drawn
  and no freeze is scheduled. The model's constructor ends with `built == false`
  in that case, exactly when some raw endpoint names no node. The arrays hold
  what `_updateData` wrote before the throw.
- A graph that was built has every endpoint as a canonical node reference
  (`Valid`). So `_freezeNodes` never meets an `undefined` endpoint there. It
  always completes, and every link gets back the very node objects it had.
  `AfterFreeze` also models the two ways `_freezeNodes` can throw on links
  that are not all references. Reading `.id` of `undefined` throws at
  graph.js:135-136, leaving a partial state; `UnresolveLinks` models the same
  path. A raw id reads back as `undefined` (a number has no `id`), and then
  the `force.start()` of the second `_updateData` (graph.js:138, 42) throws.
  A built graph reaches neither.
- Nothing stops `_freezeNodes` from running twice. A second run repeats the
  whole body, and `FreezeIdempotent` proves that it changes nothing.
- `_hideDetails` sets every path to 0.5, whatever each path held before.

## Model

| member | source | states |
|---|---|---|
| `Degrees.DegreeExtent` | graph.js:29-31 | No nodes give no extent. Otherwise lo ≤ hi, every node's degree lies in [lo, hi], and both lo and hi are the degree of some node. |
| `Degrees.ExtentDependsOnDegreesOnly` | graph.js:29-31 | The extent depends on the degrees only. Node lists with the same degrees have the same extent. |
| `Degrees.WithRadii` | graph.js:32-35 | The radius loop: every node gets the scale of its degree over the extent of the list. No nodes leave the list as it was. |
| `Degrees.WithRadiiKeepsData` | graph.js:33-35 | The radius loop keeps the list length, the flag and every attribute except the radius. |
| `Degrees.WithRadiiSettles` | graph.js:32-35 | After the radius loop, every radius is the scale of its degree over the (unchanged) extent. On radii that are already current, the loop changes nothing. |
| `Degrees.WithRadiiIdempotent` | graph.js:32-35 | Running the radius loop twice equals running it once. |
| `Resolution.IdTable` | graph.js:45-53 | Every id in the node list is a key, and every key maps to a node carrying that id. Each node's index is ≤ the index its id maps to, so with duplicate ids the last node in list order wins. |
| `Resolution.IdTableUniqueIds` | graph.js:48-51 | With unique ids, the table maps each node's id to that very node. |
| `Resolution.IdTableDependsOnIdsOnly` | graph.js:45-53 | The table depends on the node ids only. |
| `Resolution.Resolve` | graph.js:38-39 | `nodesMap.get(endpoint)`. A raw id gives its table entry or `undefined`. A node object or `undefined` used as a key gives `undefined`. |
| `Resolution.ResolveLink` | graph.js:37-40 | Both endpoints of one link go through the table. The type is kept. |
| `Resolution.ResolveAll` | graph.js:37-40 | The `links.forEach` resolves every link, in order. |
| `Resolution.ResolveId` | graph.js:37-40 | A raw id resolves to a node exactly when some node carries it. That node carries the id and no later node does. An unknown id gives `undefined` and raises no error. |
| `Resolution.ResolveAllShape` | graph.js:37-40 | Resolution keeps the number and order of links and each link's type. It leaves no raw id, and every reference points into the node array. |
| `Resolution.ResolveTwiceLosesEndpoints` | graph.js:37-40 | Resolving links that are already resolved turns every endpoint into `undefined`, so resolution must run exactly once. |
| `Resolution.Unresolve` | graph.js:135-136 | `endpoint.id`. A node object gives its id. A bare number has no `id` and gives `undefined`. |
| `Resolution.AfterUpdateData` | graph.js:25-43 | `_updateData` on the arrays: the radii, then the id table of the new node list, then resolution of every link. |
| `Resolution.UpdateDataStartsIffIdsKnown` | graph.js:37-42 | `force.start()` finds no `undefined` endpoint exactly when every raw source and target names some node. Every endpoint is then a canonical reference. |
| `Resolution.ResolvesIffNamesNode` | graph.js:38-39 | An endpoint resolves to a node exactly when it is the raw id of some node. |
| `Resolution.RoundTrip` | graph.js:134-138 | For a canonical reference, id → reference → id gives back the same node object (same index). |
| `Resolution.ResolvedAreCanonical` | graph.js:36-40 | Every reference made by resolution is canonical and lies in range. |
| `Resolution.UniqueIdsCanonical` | graph.js:48-51 | With unique ids, every in-range reference is canonical. |
| `Freezing.FixAll` | graph.js:131-133 | The `nodes.forEach` sets `fixed` on every node. |
| `Freezing.UnresolveLink` | graph.js:135-136 | Both endpoints of a link with no `undefined` endpoint are read back as ids. |
| `Freezing.CrashedLink` | graph.js:135-136 | The link whose `.id` read throws. If only its target is `undefined`, its source has already been turned into an id. |
| `Freezing.UnresolvedUpTo` | graph.js:134-137 | The link array when the `links.forEach` stops at link k. Earlier links are turned back into ids, link k is crashed, and later links are untouched. |
| `Freezing.AfterFreeze` | graph.js:126-140 | `_freezeNodes` on the two arrays. It pins the nodes and unresolves the links. On a dangling link it stops with a TypeError and the partial state. Otherwise it runs `_updateData`, which throws in `force.start()` unless every endpoint resolves again. |
| `Freezing.FirstDangling` | graph.js:134-137 | Returns the first link whose `.id` read throws, or the link count. No earlier link is dangling. |
| `Freezing.FreezeFailsIffDangling` | graph.js:134-138 | A freeze throws exactly when some link has an `undefined` endpoint or still holds a raw id. |
| `Freezing.ReresolvedAllRefsIff` | graph.js:134-138 | When no `.id` read throws, the links read back as ids resolve to references again exactly when none of them held a raw id. |
| `Freezing.ReresolvedIsRef` | graph.js:135-136 | One link read back through `.id` resolves to references again exactly when it held no raw id. |
| `Freezing.FreezePinsEveryNode` | graph.js:131-133 | Completed or not, every node ends with `fixed` true. Id, name, type, degree and position are unchanged. The radius is unchanged when an `.id` read throws. Otherwise the second `_updateData` recomputes it, which leaves it unchanged when it was current. |
| `Freezing.FixAllKeepsData` | graph.js:131-133 | The flag loop sets `fixed` and changes no other attribute. |
| `Freezing.FreezeRoundTrip` | graph.js:134-138 | If every endpoint is a canonical reference, the freeze completes and every link ends with the very node objects it had. |
| `Freezing.FreezeRoundTripUniqueIds` | graph.js:134-138 | If node ids are unique and every endpoint is a reference, the freeze completes and every link endpoint is the same node as before. |
| `Freezing.FreezeKeepsRefs` | graph.js:134-138 | If every endpoint is a node reference, the freeze completes and leaves every endpoint as a canonical, in-range node reference. |
| `Freezing.FreezeSettlesNodes` | graph.js:131-138 | A completed freeze leaves every node pinned with a current radius. |
| `Freezing.FreezeIdempotent` | graph.js:126-140 | If every endpoint is a reference, freezing twice leaves the same nodes, flags and endpoints as freezing once. |
| `Highlight.LinkOpacity` | graph.js:104-115 | While node d is hovered, a path is at 1.0 if its link's source or target is the object d and at 0.5 otherwise. With no node hovered, every path is at 0.5. |
| `Highlight.Opacities` | graph.js:104-115 | The opacity of every path, in link order. |
| `Highlight.HoverHighlightsLinksOfNode` | graph.js:104-110 | Take a graph just resolved and hover node d. A link goes to full opacity exactly when its raw source or target is d's id and d is the node the table holds for that id. Every other link is at 0.5. |
| `Highlight.HoverHighlightsLinksOfNodeUniqueIds` | graph.js:104-110 | With unique ids, the links at full opacity are exactly those whose raw source or target is d's id. |
| `Highlight.HoverOfShadowedNode` | graph.js:104-110 | A node shadowed in the id table (graph.js:48-51) by a later node with the same id is never linked to, so hovering it leaves every link at 0.5. |
| `Highlight.EndpointDesignates` | graph.js:105 | An endpoint resolves to the node object d exactly when it is d's raw id and d is the node the table holds for that id. |
| `Highlight.UnhoverRestsEveryLink` | graph.js:115 | With no node hovered, every path's opacity is 0.5. This is the value the paths are drawn with (graph.js:79) and the value `_hideDetails` sets. |
| `Highlight.HoverOfIsolatedNode` | graph.js:104-110 | Hovering a node that no link touches leaves every link at resting opacity. |
| `Graph.MabogoGraph.constructor` | graph.js:7-16 | The arrays hold the input records after `_updateData`. The graph is built exactly when every raw source and target names some node. A built graph is `Valid` and has every path at 0.5. A failed build draws no path. |
| `Graph.MabogoGraph.UpdateData` | graph.js:25-43 | The new arrays equal `AfterUpdateData` of the old ones: radii set, then endpoints resolved through the table. Every reference is in range. `ok` holds exactly when `force.start()` meets no `undefined` endpoint, and then every endpoint is canonical. |
| `Graph.MabogoGraph.StartForce` | graph.js:42 | The link loop of `force.start()` gets through exactly when every endpoint is a node reference. |
| `Graph.MabogoGraph.DrawChart` | graph.js:75-82 | Through `_drawChart` (graph.js:55-63), one path per link is drawn, each at opacity 0.5. Nodes, links and the build flag are untouched. |
| `Graph.MabogoGraph.SetRadii` | graph.js:32-35 | The node array becomes `WithRadii` of the old one. |
| `Graph.MabogoGraph.MapNodes` | graph.js:45-53 | The returned table is `IdTable` of the node array, so every node's id maps to a node with that id. |
| `Graph.MabogoGraph.ResolveLinks` | graph.js:37-40 | Every link is rewritten in place to `ResolveLink` of its old value, in order. |
| `Graph.MabogoGraph.Freeze` | graph.js:126-140 | On a built graph the freeze completes, and the new arrays are the scene of `AfterFreeze` of the old ones. Every node is pinned, with its radius recomputed. Every link is back to exactly what it was. The graph stays `Valid`, and the path opacities are untouched. |
| `Graph.MabogoGraph.PinNodes` | graph.js:131-133 | The node array becomes `FixAll` of the old one. |
| `Graph.MabogoGraph.UnresolveLinks` | graph.js:134-137 | `ok` holds exactly when no link is dangling. The links before the first dangling one are turned back into ids, the dangling link is partly converted, and later links are untouched. |
| `Graph.MabogoGraph.ShowDetails` | graph.js:103-110 | Every path is assigned a value. A path is at full opacity exactly when its link's source or target is node d (identity). The links are unchanged. |
| `Graph.MabogoGraph.HideDetails` | graph.js:114-115 | Every path is back at 0.5, whatever it held before. |

## Left out

- The D3 force simulation is left out: link distance, charge, ticks and drag (graph.js:22, 42, 95). It is floating-point physics inside a library. Node positions are carried through as data but never changed. Of `force.start()`, the model keeps only the TypeError it raises on an `undefined` endpoint (`StartForce`). The `weight` counts it increments, and its handling of numeric endpoints, are left out; after resolution no endpoint is a number.
- The value of the radius scale is left out. `d3.scale.sqrt().range([6, 16])` (graph.js:32) is a floating-point library call and stands as the parameter `radiusScale`. Only the extent that feeds it is computed.
- Rendering is left out: `_drawChart`, `_addMarkers`, `_updateLinks`, `_updateNodes`, `_updateText`, `_updateTick`, the colour scale and the fill changes of graph.js:111 and 116. The call to `_updateChart` at the end of a freeze is also left out; its data join adds and removes no path, so it leaves every opacity as it was.
- The 5-second timer (graph.js:62) is left out. A freeze is an explicit call to `Freeze` on a built graph. Also left out: `d3.json` loading, the jQuery start-up (graph.js:165-173) and `console.log`.
- Node ids are integers. `d3.map` keys by the string form of the id, so the model does not capture ids that differ but print alike (`1` and `"1"`). Looking up a node object or `undefined` as a key finds no integer id.
- `d3.extent` skips `null`/`NaN` degrees. The model's degrees are integers, so there is nothing to skip.
- D3's drag handlers also write bits into `fixed`. The model's `fixed` is a boolean that only the freeze sets.
