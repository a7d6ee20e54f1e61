/** The degree extent of the node list and the radius attribute it feeds
    (graph.js, `_updateData`). The square-root scale itself is a library call
    and enters the model as a parameter. */
module Degrees {
  import opened Entities

  /** The radius scale `d3.scale.sqrt().range([6, 16]).domain([lo, hi])`
      applied to a degree: `scale(lo, hi, degree)`. */
  type RadiusScale = (int, int, int) -> real

  /** `d3.extent(nodes, d => d.links)`: a left-to-right fold that starts from
      the first degree and widens (lo, hi) with each later one; no nodes give
      no extent. */
  function DegreeExtent(ns: seq<Node>): (r: Option<(int, int)>)
    ensures r.None? <==> |ns| == 0
    ensures r.Some? ==> r.value.0 <= r.value.1
    ensures r.Some? ==> forall i :: 0 <= i < |ns| ==> r.value.0 <= ns[i].links <= r.value.1
    ensures r.Some? ==> exists i :: 0 <= i < |ns| && ns[i].links == r.value.0
    ensures r.Some? ==> exists i :: 0 <= i < |ns| && ns[i].links == r.value.1
  {
    if |ns| == 0 then None
    else
      var v := ns[|ns| - 1].links;
      match DegreeExtent(ns[..|ns| - 1])
      case None => Some((v, v))
      case Some((lo, hi)) => Some((if lo > v then v else lo, if hi < v then v else hi))
  }

  /** The extent is a function of the degrees alone: changing any other
      attribute of the nodes leaves it as it was. */
  lemma ExtentDependsOnDegreesOnly(a: seq<Node>, b: seq<Node>)
    requires |a| == |b|
    requires forall i :: 0 <= i < |a| ==> a[i].links == b[i].links
    ensures DegreeExtent(a) == DegreeExtent(b)
  {
    if |a| > 0 {
      var ea, eb := DegreeExtent(a).value, DegreeExtent(b).value;
      MinMaxUnique(a, ea.0, ea.1, eb.0, eb.1);
    }
  }

  /** Two (lo, hi) pairs that both bound the degrees and are both attained
      are the same pair. */
  lemma MinMaxUnique(a: seq<Node>, lo: int, hi: int, lo': int, hi': int)
    requires forall i :: 0 <= i < |a| ==> lo <= a[i].links <= hi && lo' <= a[i].links <= hi'
    requires exists i :: 0 <= i < |a| && a[i].links == lo
    requires exists i :: 0 <= i < |a| && a[i].links == lo'
    requires exists i :: 0 <= i < |a| && a[i].links == hi
    requires exists i :: 0 <= i < |a| && a[i].links == hi'
    ensures lo == lo' && hi == hi'
  {
    var i :| 0 <= i < |a| && a[i].links == lo;
    var j :| 0 <= j < |a| && a[j].links == lo';
    var k :| 0 <= k < |a| && a[k].links == hi;
    var m :| 0 <= m < |a| && a[m].links == hi';
  }

  /** Every node's radius is the scale applied to its degree over the extent
      of the whole list. */
  ghost predicate RadiiCurrent(ns: seq<Node>, scale: RadiusScale) {
    |ns| > 0 ==>
      var (lo, hi) := DegreeExtent(ns).value;
      forall i :: 0 <= i < |ns| ==> ns[i].radius == scale(lo, hi, ns[i].links)
  }

  /** The radius loop of `_updateData`: each node's radius is set from the
      extent of the list before the loop. */
  function WithRadii(ns: seq<Node>, scale: RadiusScale): seq<Node> {
    match DegreeExtent(ns)
    case None => ns
    case Some((lo, hi)) =>
      seq(|ns|, i requires 0 <= i < |ns| => ns[i].(radius := scale(lo, hi, ns[i].links)))
  }

  /** The radius loop changes the radius and nothing else. */
  lemma WithRadiiKeepsData(ns: seq<Node>, scale: RadiusScale)
    ensures |WithRadii(ns, scale)| == |ns|
    ensures forall i :: 0 <= i < |ns| ==>
      SameData(WithRadii(ns, scale)[i], ns[i]) && WithRadii(ns, scale)[i].fixed == ns[i].fixed
  {
  }

  /** The radius loop leaves every radius consistent with the extent, which
      it does not change; on radii that are already consistent it changes
      nothing. */
  lemma WithRadiiSettles(ns: seq<Node>, scale: RadiusScale)
    ensures DegreeExtent(WithRadii(ns, scale)) == DegreeExtent(ns)
    ensures RadiiCurrent(WithRadii(ns, scale), scale)
    ensures RadiiCurrent(ns, scale) ==> WithRadii(ns, scale) == ns
  {
    var r := WithRadii(ns, scale);
    WithRadiiKeepsData(ns, scale);
    ExtentDependsOnDegreesOnly(r, ns);
    if RadiiCurrent(ns, scale) {
      forall i | 0 <= i < |ns|
        ensures r[i] == ns[i]
      {
      }
    }
  }

  /** Running the radius loop a second time changes nothing. */
  lemma WithRadiiIdempotent(ns: seq<Node>, scale: RadiusScale)
    ensures WithRadii(WithRadii(ns, scale), scale) == WithRadii(ns, scale)
  {
    WithRadiiSettles(ns, scale);
    WithRadiiSettles(WithRadii(ns, scale), scale);
  }
}
