/** Local edge numbers of 2-D surface elements, following the numbering of
    section 7.114 "*SURFACE" of the CalculiX 2.15 manual. */
module EdgeNumbering {

  type NodeId = int

  /** The two numbering conventions. Shell elements number their edges from 3
      (edge 3 runs from node 1 to node 2); plane-stress, plane-strain and
      axisymmetric elements number them from 1. */
  datatype Family = Shell | Plane

  predicate IsShellType(etype: string)
    ensures IsShellType(etype) ==> !IsPlaneType(etype)
  {
    etype == "S3" || etype == "S4"
  }

  predicate IsPlaneType(etype: string) {
    etype == "CPS3" || etype == "CPS4" || etype == "CPE3" || etype == "CPE4"
  }

  /** The target types for which an edge number is defined. */
  predicate IsSurfaceType(etype: string) {
    IsShellType(etype) || IsPlaneType(etype)
  }

  function FamilyOf(etype: string): Family
    requires IsSurfaceType(etype)
  {
    if IsShellType(etype) then Shell else Plane
  }

  /** Number of the edge from the first node to the second. */
  function FirstEdge(family: Family): int {
    match family
    case Shell => 3
    case Plane => 1
  }

  /** Nodes `a` and `b` stand at positions `i` and `i + 1` of `nodes`. */
  predicate PairAt(nodes: seq<NodeId>, i: int, a: NodeId, b: NodeId) {
    0 <= i < |nodes| - 1 && nodes[i] == a && nodes[i + 1] == b
  }

  /** The first position `k >= i` where `(a, b)` is a consecutive pair of
      `nodes`; when there is none, the position of the last node, standing for
      the closing edge from the last node back to the first, which is taken
      without checking that `(a, b)` is that pair. */
  function LocalEdgeFrom(nodes: seq<NodeId>, a: NodeId, b: NodeId, i: nat): (k: int)
    decreases |nodes| - i
    ensures k == |nodes| - 1 || (i <= k && PairAt(nodes, k, a, b))
    ensures forall j :: i <= j < k ==> !PairAt(nodes, j, a, b)
  {
    if i + 1 >= |nodes| then |nodes| - 1
    else if nodes[i] == a && nodes[i + 1] == b then i
    else LocalEdgeFrom(nodes, a, b, i + 1)
  }

  /** Zero-based local edge of the segment `(a, b)` in `nodes`. */
  function LocalEdge(nodes: seq<NodeId>, a: NodeId, b: NodeId): int {
    LocalEdgeFrom(nodes, a, b, 0)
  }

  /** CalculiX edge number of the segment `(a, b)` of an element of type `etype`. */
  function EdgeIndex(etype: string, nodes: seq<NodeId>, a: NodeId, b: NodeId): (edge: int)
    requires IsSurfaceType(etype)
    ensures |nodes| > 0 ==> FirstEdge(FamilyOf(etype)) <= edge <= |nodes| + FirstEdge(FamilyOf(etype)) - 1
    ensures |nodes| == 0 ==> edge == FirstEdge(FamilyOf(etype)) - 1
  {
    FirstEdge(FamilyOf(etype)) + LocalEdge(nodes, a, b)
  }

  /** The scan of the source: the first consecutive pair equal to `(n1, n2)`
      gives its position plus the family's first edge number; when no pair
      matches, the closing edge's number is returned. */
  method EdgeNumber(etype: string, nodes: seq<NodeId>, n1: NodeId, n2: NodeId) returns (edge: int)
    requires IsSurfaceType(etype)
    ensures edge == EdgeIndex(etype, nodes, n1, n2)
  {
    var first := FirstEdge(FamilyOf(etype));
    var i := 0;
    while i < |nodes| - 1
      invariant 0 <= i
      invariant LocalEdgeFrom(nodes, n1, n2, i) == LocalEdge(nodes, n1, n2)
    {
      if nodes[i] == n1 && nodes[i + 1] == n2 {
        return i + first;
      }
      i := i + 1;
    }
    return |nodes| + first - 1;
  }

  /** A matching consecutive pair at `i`, with none before it, gives edge `i`
      plus the family's first edge number: `i + 3` for shells, `i + 1` for
      plane elements. */
  lemma EdgeIndexFirstMatch(etype: string, nodes: seq<NodeId>, a: NodeId, b: NodeId, i: int)
    requires IsSurfaceType(etype)
    requires PairAt(nodes, i, a, b)
    requires forall j :: 0 <= j < i ==> !PairAt(nodes, j, a, b)
    ensures EdgeIndex(etype, nodes, a, b) == i + FirstEdge(FamilyOf(etype))
    ensures IsShellType(etype) ==> EdgeIndex(etype, nodes, a, b) == i + 3
    ensures IsPlaneType(etype) ==> EdgeIndex(etype, nodes, a, b) == i + 1
  {
  }

  /** Without any matching consecutive pair the result is `|nodes| + 2` for
      shells and `|nodes|` for plane elements, whatever `(a, b)` is. */
  lemma EdgeIndexFallback(etype: string, nodes: seq<NodeId>, a: NodeId, b: NodeId)
    requires IsSurfaceType(etype)
    requires forall j :: 0 <= j < |nodes| - 1 ==> !PairAt(nodes, j, a, b)
    ensures IsShellType(etype) ==> EdgeIndex(etype, nodes, a, b) == |nodes| + 2
    ensures IsPlaneType(etype) ==> EdgeIndex(etype, nodes, a, b) == |nodes|
  {
  }

  /** On the same nodes, a shell edge number is the plane edge number plus two. */
  lemma ShellIsPlanePlusTwo(shell: string, plane: string, nodes: seq<NodeId>, a: NodeId, b: NodeId)
    requires IsShellType(shell) && IsPlaneType(plane)
    ensures EdgeIndex(shell, nodes, a, b) == EdgeIndex(plane, nodes, a, b) + 2
  {
  }

  /** Bounds of the edge number for a nonempty node list; for triangles and
      quadrilaterals every edge number is one of 1..6. */
  lemma EdgeIndexBounds(etype: string, nodes: seq<NodeId>, a: NodeId, b: NodeId)
    requires IsSurfaceType(etype) && |nodes| > 0
    ensures IsShellType(etype) ==> 3 <= EdgeIndex(etype, nodes, a, b) <= |nodes| + 2
    ensures IsPlaneType(etype) ==> 1 <= EdgeIndex(etype, nodes, a, b) <= |nodes|
    ensures |nodes| <= 4 ==> 1 <= EdgeIndex(etype, nodes, a, b) <= 6
  {
  }

  /** The fallback is not checked: on the quadrilateral 1-2-3-4 the diagonal
      (1, 3), which is no edge at all, receives the closing edge's number. */
  lemma FallbackIsUnchecked()
    ensures forall j :: !PairAt([1, 2, 3, 4], j, 1, 3)
    ensures EdgeIndex("S4", [1, 2, 3, 4], 1, 3) == 6
    ensures EdgeIndex("CPE4", [1, 2, 3, 4], 1, 3) == 4
  {
    assert LocalEdge([1, 2, 3, 4], 1, 3) == 3;
  }

  /** Edge numbers of the quadrilateral 1-2-3-4 in both families. */
  lemma QuadrilateralEdges()
    ensures EdgeIndex("S4", [1, 2, 3, 4], 2, 3) == 4
    ensures EdgeIndex("CPE4", [1, 2, 3, 4], 2, 3) == 2
    ensures EdgeIndex("S4", [1, 2, 3, 4], 4, 1) == 6
    ensures EdgeIndex("CPE4", [1, 2, 3, 4], 4, 1) == 4
  {
    assert LocalEdge([1, 2, 3, 4], 2, 3) == 1;
    assert LocalEdge([1, 2, 3, 4], 4, 1) == 3;
  }

  /** Python's `nodes.index(n)`: the position of the first occurrence of `n`. */
  function IndexOf(nodes: seq<NodeId>, n: NodeId): (i: nat)
    requires n in nodes
    ensures i < |nodes| && nodes[i] == n
    ensures forall j :: 0 <= j < i ==> nodes[j] != n
  {
    if nodes[0] == n then 0 else 1 + IndexOf(nodes[1..], n)
  }

  /** The swap step of the surface-set builder: the segment's two nodes,
      ordered by their first positions in the element's node list. */
  function Canonical(nodes: seq<NodeId>, n1: NodeId, n2: NodeId): (pair: (NodeId, NodeId))
    requires n1 in nodes && n2 in nodes
    ensures pair == (n1, n2) || pair == (n2, n1)
    ensures IndexOf(nodes, pair.0) <= IndexOf(nodes, pair.1)
  {
    if IndexOf(nodes, n1) > IndexOf(nodes, n2) then (n2, n1) else (n1, n2)
  }

  /** The swap makes the resolved edge independent of the order in which the
      segment lists its two nodes. */
  lemma CanonicalSymmetric(etype: string, nodes: seq<NodeId>, a: NodeId, b: NodeId)
    requires IsSurfaceType(etype) && a in nodes && b in nodes
    ensures Canonical(nodes, a, b) == Canonical(nodes, b, a)
    ensures EdgeIndex(etype, nodes, Canonical(nodes, a, b).0, Canonical(nodes, a, b).1)
         == EdgeIndex(etype, nodes, Canonical(nodes, b, a).0, Canonical(nodes, b, a).1)
  {
    if a != b {
      assert IndexOf(nodes, a) != IndexOf(nodes, b);
    }
  }

  /** No node occurs twice. */
  predicate Distinct(nodes: seq<NodeId>) {
    forall i, j :: 0 <= i < j < |nodes| ==> nodes[i] != nodes[j]
  }

  lemma IndexOfDistinct(nodes: seq<NodeId>, k: nat)
    requires Distinct(nodes) && k < |nodes|
    ensures IndexOf(nodes, nodes[k]) == k
  {
  }

  /** Position of the node after position `j`, going round the element. */
  function Next(j: nat, n: nat): nat {
    if j + 1 < n then j + 1 else 0
  }

  /** In a list without repeated nodes, the segment joining positions `j`
      and `j + 1`, in either order, is put in list order by the swap and then
      found at `j`. */
  lemma InteriorEdgeFound(nodes: seq<NodeId>, j: nat, a: NodeId, b: NodeId)
    requires Distinct(nodes) && j < |nodes| - 1
    requires (a == nodes[j] && b == nodes[j + 1]) || (b == nodes[j] && a == nodes[j + 1])
    ensures a in nodes && b in nodes
    ensures Canonical(nodes, a, b) == (nodes[j], nodes[j + 1])
    ensures LocalEdge(nodes, nodes[j], nodes[j + 1]) == j
  {
    assert nodes[j] in nodes && nodes[j + 1] in nodes;
    IndexOfDistinct(nodes, j);
    IndexOfDistinct(nodes, j + 1);
    assert PairAt(nodes, j, nodes[j], nodes[j + 1]);
  }

  /** In a list of at least three nodes without repeats, the closing segment
      joining the last node and the first, in either order, is put in list
      order by the swap and then matches no consecutive pair. */
  lemma ClosingEdgeFallsBack(nodes: seq<NodeId>, a: NodeId, b: NodeId)
    requires Distinct(nodes) && |nodes| >= 3
    requires (a == nodes[|nodes| - 1] && b == nodes[0]) || (b == nodes[|nodes| - 1] && a == nodes[0])
    ensures a in nodes && b in nodes
    ensures Canonical(nodes, a, b) == (nodes[0], nodes[|nodes| - 1])
    ensures LocalEdge(nodes, nodes[0], nodes[|nodes| - 1]) == |nodes| - 1
  {
    assert nodes[0] in nodes && nodes[|nodes| - 1] in nodes;
    IndexOfDistinct(nodes, 0);
    IndexOfDistinct(nodes, |nodes| - 1);
  }

  /** The edge-number table is right for true edges: when the node list has
      no repeated node and at least three nodes, a segment joining node `j`
      and the node after it (going round the element), listed in either
      order, resolves after the swap step to edge `j` plus the family's first
      edge number. */
  lemma TrueEdgeResolves(etype: string, nodes: seq<NodeId>, j: nat, a: NodeId, b: NodeId)
    requires IsSurfaceType(etype)
    requires Distinct(nodes) && |nodes| >= 3 && j < |nodes|
    requires (a == nodes[j] && b == nodes[Next(j, |nodes|)]) || (b == nodes[j] && a == nodes[Next(j, |nodes|)])
    ensures a in nodes && b in nodes
    ensures EdgeIndex(etype, nodes, Canonical(nodes, a, b).0, Canonical(nodes, a, b).1)
         == j + FirstEdge(FamilyOf(etype))
  {
    if j < |nodes| - 1 {
      InteriorEdgeFound(nodes, j, a, b);
    } else {
      ClosingEdgeFallsBack(nodes, a, b);
    }
  }
}
