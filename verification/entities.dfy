/** The records the graph works on: the node and link records of the input
    document, with the attributes the graph adds to them. */
module Entities {

  datatype Option<T> = None | Some(value: T)

  /** A node id as it appears in the input document. */
  type NodeId = int

  /** A node record. `links` is the node's degree as given in the input
      (it is not recomputed from the link list); `radius` is set from the
      degree extent; `x`, `y` belong to the force layout; `fixed` pins the
      node once the layout is frozen. `kind` is the record's `type`. */
  datatype Node = Node(
    id: NodeId,
    name: string,
    kind: string,
    links: int,
    radius: real,
    x: real,
    y: real,
    fixed: bool)

  /** Two node records agree on every attribute other than `fixed` and
      `radius`: id, name, type, degree and position. */
  predicate SameData(a: Node, b: Node) {
    a.id == b.id && a.name == b.name && a.kind == b.kind &&
    a.links == b.links && a.x == b.x && a.y == b.y
  }

  /** A link endpoint as it stands at some moment: the raw id of the input
      document, a reference to the node object at that index of the node
      array (identity, not value), or `undefined` after a failed lookup. */
  datatype Endpoint = Id(id: NodeId) | Ref(node: nat) | Absent

  datatype Link = Link(source: Endpoint, target: Endpoint, kind: string)

  /** The node and link arrays as values. */
  datatype Scene = Scene(nodes: seq<Node>, links: seq<Link>)

  predicate EndpointInRange(n: nat, e: Endpoint) {
    e.Ref? ==> e.node < n
  }

  /** Every node reference held by a link designates a node of the array. */
  predicate RefsInRange(n: nat, ls: seq<Link>) {
    forall j :: 0 <= j < |ls| ==> EndpointInRange(n, ls[j].source) && EndpointInRange(n, ls[j].target)
  }

  predicate UniqueIds(ns: seq<Node>) {
    forall i, j :: 0 <= i < j < |ns| ==> ns[i].id != ns[j].id
  }

  /** Every endpoint of every link is a resolved node reference. */
  predicate AllRefs(ls: seq<Link>) {
    forall j :: 0 <= j < |ls| ==> ls[j].source.Ref? && ls[j].target.Ref?
  }
}
