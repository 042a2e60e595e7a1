/** Grouping of the boundary segments of one named set by the edge of the
    surface element they bound, as the converter's main block does before it
    writes "*ELSET" and "*SURFACE" records. */
module SurfaceSets {
  import opened Wrappers
  import opened ElementTypes
  import opened EdgeNumbering

  type ElementId = int

  /** One entry of the parsed element table: id, ordered node list and Gmsh
      type code. The table itself is insertion-ordered. */
  datatype Element = Element(id: ElementId, nodes: seq<NodeId>, gmshType: string)

  /** A boundary segment resolved to edge `edge` of element `owner`. */
  datatype Hit = Hit(edge: int, owner: ElementId)

  /** The six buckets pre-created for every set: no 2-D element has an edge
      numbered above 6. */
  predicate InRange(edge: int) {
    1 <= edge <= 6
  }

  /** Position of the first table entry with id `id` at or after `i`
      (the element table is a dictionary keyed by id). */
  function FindFrom(elements: seq<Element>, id: ElementId, i: nat): (r: Option<nat>)
    decreases |elements| - i
    ensures r.Some? ==> i <= r.value < |elements| && elements[r.value].id == id
    ensures r.Some? ==> forall k :: i <= k < r.value ==> elements[k].id != id
    ensures r.None? ==> forall k :: i <= k < |elements| ==> elements[k].id != id
  {
    if i >= |elements| then None
    else if elements[i].id == id then Some(i)
    else FindFrom(elements, id, i + 1)
  }

  function Find(elements: seq<Element>, id: ElementId): Option<nat> {
    FindFrom(elements, id, 0)
  }

  /** `id` names a table entry with at least two nodes, as every member of a
      boundary set does. */
  predicate IsSegment(elements: seq<Element>, id: ElementId) {
    Find(elements, id).Some? && |elements[Find(elements, id).value].nodes| >= 2
  }

  predicate SegmentsWellFormed(elements: seq<Element>, segments: seq<ElementId>) {
    forall s :: 0 <= s < |segments| ==> IsSegment(elements, segments[s])
  }

  /** The first two nodes of a boundary segment. */
  function SegmentEnds(elements: seq<Element>, id: ElementId): (ends: (NodeId, NodeId))
    requires IsSegment(elements, id)
    ensures exists k :: (0 <= k < |elements| && elements[k].id == id && |elements[k].nodes| >= 2
      && ends == (elements[k].nodes[0], elements[k].nodes[1]))
  {
    var nodes := elements[Find(elements, id).value].nodes;
    (nodes[0], nodes[1])
  }

  /** Element `e` is a possible owner of the segment `(a, b)`: its renamed type
      is the target and it contains both nodes. */
  predicate Candidate(e: Element, target: string, a: NodeId, b: NodeId)
    ensures Candidate(e, target, a, b) ==> |e.nodes| > 0 && (e.gmshType == target || target in CcxCodes)
  {
    RenameElement(e.gmshType) == target && a in e.nodes && b in e.nodes
  }

  /** Position of the first candidate owner at or after `i`. */
  function OwnerFrom(elements: seq<Element>, target: string, a: NodeId, b: NodeId, i: nat): (r: Option<nat>)
    decreases |elements| - i
    ensures r.Some? ==> i <= r.value < |elements| && Candidate(elements[r.value], target, a, b)
    ensures forall k :: i <= k < |elements| && (r.None? || k < r.value) ==> !Candidate(elements[k], target, a, b)
  {
    if i >= |elements| then None
    else if Candidate(elements[i], target, a, b) then Some(i)
    else OwnerFrom(elements, target, a, b, i + 1)
  }

  function Owner(elements: seq<Element>, target: string, a: NodeId, b: NodeId): Option<nat> {
    OwnerFrom(elements, target, a, b, 0)
  }

  /** Some element of the table with this id has the target type. */
  ghost predicate HasTargetType(elements: seq<Element>, target: string, id: ElementId) {
    exists k :: 0 <= k < |elements| && elements[k].id == id && RenameElement(elements[k].gmshType) == target
  }

  /** The contribution of one boundary segment: the first candidate owner in
      table order, and the edge of that owner which the segment, with its two
      nodes put in the owner's node order, resolves to; none when no element
      qualifies. */
  function HitOf(elements: seq<Element>, target: string, id: ElementId): (r: Option<Hit>)
    requires IsSurfaceType(target) && IsSegment(elements, id)
    ensures r.None? <==>
      forall k :: 0 <= k < |elements| ==> !Candidate(elements[k], target, SegmentEnds(elements, id).0, SegmentEnds(elements, id).1)
    ensures r.Some? ==> HasTargetType(elements, target, r.value.owner)
  {
    var (a, b) := SegmentEnds(elements, id);
    match Owner(elements, target, a, b)
    case None => None
    case Some(k) =>
      var nodes := elements[k].nodes;
      var (c1, c2) := Canonical(nodes, a, b);
      Some(Hit(EdgeIndex(target, nodes, c1, c2), elements[k].id))
  }

  /** The owner of a hit is the first candidate in table order, and the hit's
      edge lies between the family's first edge number and the number of the
      owner's closing edge. */
  lemma HitOfFirstCandidate(elements: seq<Element>, target: string, id: ElementId)
    requires IsSurfaceType(target) && IsSegment(elements, id)
    requires HitOf(elements, target, id).Some?
    ensures var (a, b) := SegmentEnds(elements, id);
      var h := HitOf(elements, target, id).value;
      exists k :: (0 <= k < |elements| && elements[k].id == h.owner && Candidate(elements[k], target, a, b)
        && (forall k' :: 0 <= k' < k ==> !Candidate(elements[k'], target, a, b))
        && FirstEdge(FamilyOf(target)) <= h.edge <= |elements[k].nodes| + FirstEdge(FamilyOf(target)) - 1)
  {
    var (a, b) := SegmentEnds(elements, id);
    var k := Owner(elements, target, a, b).value;
    var nodes := elements[k].nodes;
    var c := Canonical(nodes, a, b);
    assert LocalEdge(nodes, c.0, c.1) < |nodes|;
  }

  function HitSeq(elements: seq<Element>, target: string, id: ElementId): seq<Hit>
    requires IsSurfaceType(target) && IsSegment(elements, id)
  {
    match HitOf(elements, target, id)
    case None => []
    case Some(h) => [h]
  }

  /** The hits of all segments, in segment order. */
  function Hits(elements: seq<Element>, segments: seq<ElementId>, target: string): (hits: seq<Hit>)
    requires IsSurfaceType(target) && SegmentsWellFormed(elements, segments)
    ensures |hits| <= |segments|
    ensures forall i :: 0 <= i < |hits| ==> HasTargetType(elements, target, hits[i].owner)
  {
    if segments == [] then []
    else
      var init := segments[..|segments| - 1];
      assert SegmentsWellFormed(elements, init);
      Hits(elements, init, target) + HitSeq(elements, target, segments[|segments| - 1])
  }

  /** The owners of the hits on edge `edge`, in hit order. */
  function Bucket(hits: seq<Hit>, edge: int): (ids: seq<ElementId>)
    ensures |ids| <= |hits|
  {
    if hits == [] then []
    else
      var last := hits[|hits| - 1];
      Bucket(hits[..|hits| - 1], edge) + (if last.edge == edge then [last.owner] else [])
  }

  /** The edge of the first hit that has no pre-created bucket, if any. */
  function FirstBad(hits: seq<Hit>): (r: Option<int>)
    ensures r.None? <==> forall i :: 0 <= i < |hits| ==> InRange(hits[i].edge)
    ensures r.Some? ==> !InRange(r.value) && exists i :: (0 <= i < |hits| && hits[i].edge == r.value
      && forall j :: 0 <= j < i ==> InRange(hits[j].edge))
  {
    if hits == [] then None
    else
      var last := hits[|hits| - 1];
      match FirstBad(hits[..|hits| - 1])
      case Some(e) => Some(e)
      case None => if InRange(last.edge) then None else Some(last.edge)
  }

  /** The six buckets of a list of hits, all of whose edges are in range. */
  function BucketMap(hits: seq<Hit>): (m: map<int, seq<ElementId>>)
    ensures forall e :: e in m <==> InRange(e)
  {
    map e | 1 <= e <= 6 :: Bucket(hits, e)
  }

  /** What the source computes for one boundary set: the six buckets, or the
      edge number whose bucket is missing (a `KeyError` in the source) at the
      first segment that resolves outside 1..6. */
  function Surface(elements: seq<Element>, segments: seq<ElementId>, target: string): (r: Result<map<int, seq<ElementId>>, int>)
    requires IsSurfaceType(target) && SegmentsWellFormed(elements, segments)
    ensures r.Success? ==> forall e :: e in r.value <==> InRange(e)
    ensures r.Failure? ==> !InRange(r.error)
  {
    var hits := Hits(elements, segments, target);
    match FirstBad(hits)
    case Some(e) => Failure(e)
    case None => Success(BucketMap(hits))
  }

  /** Extending the segment list by one segment extends the hits by that
      segment's hit, if it has one. */
  lemma HitsSnoc(elements: seq<Element>, segments: seq<ElementId>, target: string, s: nat)
    requires IsSurfaceType(target) && SegmentsWellFormed(elements, segments) && s < |segments|
    ensures SegmentsWellFormed(elements, segments[..s]) && SegmentsWellFormed(elements, segments[..s + 1])
    ensures Hits(elements, segments[..s + 1], target)
         == Hits(elements, segments[..s], target) + HitSeq(elements, target, segments[s])
  {
    assert segments[..s + 1][..s] == segments[..s];
  }

  /** Appending an in-range hit appends its owner to its edge's bucket only. */
  lemma BucketMapSnoc(hits: seq<Hit>, h: Hit)
    requires InRange(h.edge)
    ensures FirstBad(hits + [h]) == FirstBad(hits)
    ensures BucketMap(hits + [h]) == BucketMap(hits)[h.edge := BucketMap(hits)[h.edge] + [h.owner]]
  {
    var longer := hits + [h];
    assert longer[..|hits|] == hits;
    var m, m' := BucketMap(hits), BucketMap(longer);
    forall e | e in m'
      ensures m'[e] == m[h.edge := m[h.edge] + [h.owner]][e]
    {
      assert Bucket(longer, e) == Bucket(hits, e) + (if h.edge == e then [h.owner] else []);
    }
  }

  /** When the scan reaches a candidate at `j` with none before it, the
      segment's hit is that element with the edge of the reordered segment. */
  lemma HitAtCandidate(elements: seq<Element>, target: string, id: ElementId, j: nat)
    requires IsSurfaceType(target) && IsSegment(elements, id) && j < |elements|
    requires OwnerFrom(elements, target, SegmentEnds(elements, id).0, SegmentEnds(elements, id).1, j)
          == Owner(elements, target, SegmentEnds(elements, id).0, SegmentEnds(elements, id).1)
    requires Candidate(elements[j], target, SegmentEnds(elements, id).0, SegmentEnds(elements, id).1)
    ensures var c := Canonical(elements[j].nodes, SegmentEnds(elements, id).0, SegmentEnds(elements, id).1);
      HitOf(elements, target, id) == Some(Hit(EdgeIndex(target, elements[j].nodes, c.0, c.1), elements[j].id))
  {
  }

  /** When the scan finds no candidate, the segment has no hit. */
  lemma NoHitPastEnd(elements: seq<Element>, target: string, id: ElementId)
    requires IsSurfaceType(target) && IsSegment(elements, id)
    requires OwnerFrom(elements, target, SegmentEnds(elements, id).0, SegmentEnds(elements, id).1, |elements|)
          == Owner(elements, target, SegmentEnds(elements, id).0, SegmentEnds(elements, id).1)
    ensures HitOf(elements, target, id) == None
  {
  }

  /** Appending an out-of-range hit to hits that are all in range fails on it. */
  lemma FirstBadSnoc(hits: seq<Hit>, h: Hit)
    requires FirstBad(hits).None? && !InRange(h.edge)
    ensures FirstBad(hits + [h]) == Some(h.edge)
  {
    assert (hits + [h])[..|hits|] == hits;
  }

  /** A failure found in a prefix of the hits is the failure of all of them. */
  lemma {:induction false} FirstBadPrefix(prefix: seq<Hit>, hits: seq<Hit>)
    requires prefix <= hits && FirstBad(prefix).Some?
    ensures FirstBad(hits) == FirstBad(prefix)
    decreases |hits|
  {
    if |prefix| < |hits| {
      var init := hits[..|hits| - 1];
      assert prefix <= init;
      FirstBadPrefix(prefix, init);
    } else {
      assert prefix == hits;
    }
  }

  /** A failure in a prefix of the segments is the failure of the whole list. */
  lemma {:induction false} FailurePersists(elements: seq<Element>, segments: seq<ElementId>, target: string, n: nat)
    requires IsSurfaceType(target) && SegmentsWellFormed(elements, segments) && n <= |segments|
    requires SegmentsWellFormed(elements, segments[..n])
    requires FirstBad(Hits(elements, segments[..n], target)).Some?
    ensures FirstBad(Hits(elements, segments, target)) == FirstBad(Hits(elements, segments[..n], target))
  {
    HitsPrefix(elements, segments, target, n);
    FirstBadPrefix(Hits(elements, segments[..n], target), Hits(elements, segments, target));
  }

  /** The first segment that resolves outside 1..6 decides the result. */
  lemma FailureAt(elements: seq<Element>, segments: seq<ElementId>, target: string, s: nat, h: Hit)
    requires IsSurfaceType(target) && SegmentsWellFormed(elements, segments) && s < |segments|
    requires SegmentsWellFormed(elements, segments[..s])
    requires FirstBad(Hits(elements, segments[..s], target)).None?
    requires HitOf(elements, target, segments[s]) == Some(h) && !InRange(h.edge)
    ensures Surface(elements, segments, target) == Failure(h.edge)
  {
    HitsSnoc(elements, segments, target, s);
    FirstBadSnoc(Hits(elements, segments[..s], target), h);
    FailurePersists(elements, segments, target, s + 1);
  }

  /** The inner scan of the bucketing block for one segment: walk the
      element table in order, stop at the first element of the target type
      that holds both segment nodes, swap the two nodes into that element's
      order and resolve the edge. */
  method SegmentHit(elements: seq<Element>, target: string, id: ElementId) returns (hit: Option<Hit>)
    requires IsSurfaceType(target) && IsSegment(elements, id)
    ensures hit == HitOf(elements, target, id)
  {
    var ends := SegmentEnds(elements, id);
    var j := 0;
    while j < |elements|
      invariant 0 <= j <= |elements|
      invariant OwnerFrom(elements, target, ends.0, ends.1, j) == Owner(elements, target, ends.0, ends.1)
    {
      var elem := elements[j];
      if Candidate(elem, target, ends.0, ends.1) {
        var n1, n2 := ends.0, ends.1;
        if IndexOf(elem.nodes, n1) > IndexOf(elem.nodes, n2) {
          n1, n2 := n2, n1;
        }
        assert (n1, n2) == Canonical(elem.nodes, ends.0, ends.1);
        var edge := EdgeNumber(target, elem.nodes, n1, n2);
        HitAtCandidate(elements, target, id, j);
        return Some(Hit(edge, elem.id));
      }
      j := j + 1;
    }
    NoHitPastEnd(elements, target, id);
    return None;
  }

  /** The bucketing block of the converter for one boundary set: pre-create
      buckets 1..6, then for each segment scan the element table for the
      first element of the target type holding both of its nodes, put the
      two nodes in that element's order, resolve the edge and append the
      element's id to that edge's bucket. */
  method BuildSurface(elements: seq<Element>, segments: seq<ElementId>, target: string)
      returns (res: Result<map<int, seq<ElementId>>, int>)
    requires IsSurfaceType(target) && SegmentsWellFormed(elements, segments)
    ensures res == Surface(elements, segments, target)
  {
    var E: map<int, seq<ElementId>> := map[];
    for edge := 0 to 6
      invariant forall e :: e in E <==> 1 <= e <= edge
      invariant forall e :: e in E ==> E[e] == []
    {
      E := E[edge + 1 := []];
    }
    assert E == BucketMap([]);
    for s := 0 to |segments|
      invariant SegmentsWellFormed(elements, segments[..s])
      invariant FirstBad(Hits(elements, segments[..s], target)).None?
      invariant E == BucketMap(Hits(elements, segments[..s], target))
    {
      HitsSnoc(elements, segments, target, s);
      ghost var hits := Hits(elements, segments[..s], target);
      var hit := SegmentHit(elements, target, segments[s]);
      if hit.Some? {
        if hit.value.edge !in E {
          FailureAt(elements, segments, target, s, hit.value);
          return Failure(hit.value.edge);
        }
        BucketMapSnoc(hits, hit.value);
        E := E[hit.value.edge := E[hit.value.edge] + [hit.value.owner]];
        assert HitSeq(elements, target, segments[s]) == [hit.value];
        assert E == BucketMap(hits + [hit.value]);
      } else {
        assert HitSeq(elements, target, segments[s]) == [];
        assert hits + HitSeq(elements, target, segments[s]) == hits;
      }
    }
    assert segments[..|segments|] == segments;
    return Success(E);
  }

  /** One more segment changes the buckets as the loop body does: without a
      candidate owner nothing changes; otherwise the first candidate's id is
      appended to exactly one bucket, or the result fails when the resolved
      edge has no bucket. */
  lemma SegmentStep(elements: seq<Element>, segments: seq<ElementId>, id: ElementId, target: string)
    requires IsSurfaceType(target) && SegmentsWellFormed(elements, segments) && IsSegment(elements, id)
    requires Surface(elements, segments, target).Success?
    ensures SegmentsWellFormed(elements, segments + [id])
    ensures var E := Surface(elements, segments, target).value;
      match HitOf(elements, target, id)
      case None => Surface(elements, segments + [id], target) == Success(E)
      case Some(h) => (Surface(elements, segments + [id], target)
        == if InRange(h.edge) then Success(E[h.edge := E[h.edge] + [h.owner]]) else Failure(h.edge))
  {
    var longer := segments + [id];
    assert longer[..|segments|] == segments;
    assert SegmentsWellFormed(elements, longer);
    HitsSnoc(elements, longer, target, |segments|);
    assert longer[..|segments| + 1] == longer;
    var hits := Hits(elements, segments, target);
    var r := HitOf(elements, target, id);
    if r.Some? {
      var h := r.value;
      assert Hits(elements, longer, target) == hits + [h];
      if InRange(h.edge) {
        BucketMapSnoc(hits, h);
      } else {
        FirstBadSnoc(hits, h);
      }
    } else {
      assert Hits(elements, longer, target) == hits;
    }
  }

  /** Every id in a bucket is the owner of some hit on that bucket's edge. */
  lemma {:induction false} BucketOwners(hits: seq<Hit>, edge: int, i: nat)
    requires i < |Bucket(hits, edge)|
    ensures exists j :: 0 <= j < |hits| && hits[j].edge == edge && hits[j].owner == Bucket(hits, edge)[i]
    decreases |hits|
  {
    var init := hits[..|hits| - 1];
    if i < |Bucket(init, edge)| {
      BucketOwners(init, edge, i);
      var j :| 0 <= j < |init| && init[j].edge == edge && init[j].owner == Bucket(init, edge)[i];
      assert hits[j] == init[j];
    } else {
      assert hits[|hits| - 1].owner == Bucket(hits, edge)[i];
    }
  }

  /** Every bucketed id is the id of an element whose renamed type is the target. */
  lemma BucketedIdsHaveTargetType(elements: seq<Element>, segments: seq<ElementId>, target: string, edge: int, i: nat)
    requires IsSurfaceType(target) && SegmentsWellFormed(elements, segments)
    requires Surface(elements, segments, target).Success?
    requires InRange(edge) && i < |Surface(elements, segments, target).value[edge]|
    ensures HasTargetType(elements, target, Surface(elements, segments, target).value[edge][i])
  {
    var hits := Hits(elements, segments, target);
    BucketOwners(hits, edge, i);
  }

  /** Total number of ids over the six buckets. */
  function TotalSize(m: map<int, seq<ElementId>>): nat
    requires 1 in m && 2 in m && 3 in m && 4 in m && 5 in m && 6 in m
  {
    |m[1]| + |m[2]| + |m[3]| + |m[4]| + |m[5]| + |m[6]|
  }

  /** With every edge in range, each hit lands in exactly one bucket. */
  lemma {:induction false} BucketSizesSum(hits: seq<Hit>)
    requires FirstBad(hits).None?
    ensures TotalSize(BucketMap(hits)) == |hits|
  {
    if hits != [] {
      var init, last := hits[..|hits| - 1], hits[|hits| - 1];
      assert hits == init + [last];
      BucketSizesSum(init);
      BucketMapSnoc(init, last);
      TotalSizeAppend(BucketMap(init), last.edge, last.owner);
    }
  }

  /** Appending one id to one of the six buckets adds one to the total. */
  lemma TotalSizeAppend(m: map<int, seq<ElementId>>, edge: int, id: ElementId)
    requires 1 in m && 2 in m && 3 in m && 4 in m && 5 in m && 6 in m && InRange(edge)
    ensures TotalSize(m[edge := m[edge] + [id]]) == TotalSize(m) + 1
  {
  }

  /** Each segment adds at most one id: the buckets hold exactly one id per
      segment that found an owner, and so at most as many ids as there are
      segments. */
  lemma SurfaceTotalSize(elements: seq<Element>, segments: seq<ElementId>, target: string)
    requires IsSurfaceType(target) && SegmentsWellFormed(elements, segments)
    requires Surface(elements, segments, target).Success?
    ensures TotalSize(Surface(elements, segments, target).value) == |Hits(elements, segments, target)| <= |segments|
  {
    BucketSizesSum(Hits(elements, segments, target));
  }

  /** The hits of a prefix of the segments are a prefix of all the hits. */
  lemma {:induction false} HitsPrefix(elements: seq<Element>, segments: seq<ElementId>, target: string, n: nat)
    requires IsSurfaceType(target) && SegmentsWellFormed(elements, segments) && n <= |segments|
    ensures SegmentsWellFormed(elements, segments[..n])
    ensures Hits(elements, segments[..n], target) <= Hits(elements, segments, target)
    decreases |segments|
  {
    if n < |segments| {
      var init := segments[..|segments| - 1];
      assert init[..n] == segments[..n];
      assert SegmentsWellFormed(elements, init);
      HitsPrefix(elements, init, target, n);
    } else {
      assert segments[..n] == segments;
    }
  }

  /** The bucket of a prefix of the hits is a prefix of the bucket. */
  lemma {:induction false} BucketPrefix(hits: seq<Hit>, k: nat, edge: int)
    requires k <= |hits|
    ensures Bucket(hits[..k], edge) <= Bucket(hits, edge)
    decreases |hits|
  {
    if k < |hits| {
      var init := hits[..|hits| - 1];
      assert init[..k] == hits[..k];
      BucketPrefix(init, k, edge);
    } else {
      assert hits[..k] == hits;
    }
  }

  /** Ids are bucketed in segment order: the buckets built from the first `n`
      segments are prefixes of the buckets built from all of them. */
  lemma SurfacePreservesSegmentOrder(elements: seq<Element>, segments: seq<ElementId>, target: string, n: nat, edge: int)
    requires IsSurfaceType(target) && SegmentsWellFormed(elements, segments) && n <= |segments|
    requires Surface(elements, segments, target).Success? && InRange(edge)
    ensures SegmentsWellFormed(elements, segments[..n])
    ensures Surface(elements, segments[..n], target).Success?
    ensures Surface(elements, segments[..n], target).value[edge] <= Surface(elements, segments, target).value[edge]
  {
    HitsPrefix(elements, segments, target, n);
    BucketMapPrefix(Hits(elements, segments[..n], target), Hits(elements, segments, target), edge);
  }

  /** A prefix of hits that are all in range is all in range, and each of its
      buckets is a prefix of the corresponding bucket of all the hits. */
  lemma BucketMapPrefix(prefix: seq<Hit>, hits: seq<Hit>, edge: int)
    requires prefix <= hits && FirstBad(hits).None? && InRange(edge)
    ensures FirstBad(prefix).None?
    ensures BucketMap(prefix)[edge] <= BucketMap(hits)[edge]
  {
    assert prefix == hits[..|prefix|];
    assert forall i :: 0 <= i < |prefix| ==> prefix[i] == hits[i];
    BucketPrefix(hits, |prefix|, edge);
  }

  /** When no element of the table has the target type, no segment finds an owner. */
  lemma {:induction false} NoOwnerNoHits(elements: seq<Element>, segments: seq<ElementId>, target: string)
    requires IsSurfaceType(target) && SegmentsWellFormed(elements, segments)
    requires forall k :: 0 <= k < |elements| ==> RenameElement(elements[k].gmshType) != target
    ensures Hits(elements, segments, target) == []
    decreases |segments|
  {
    if segments != [] {
      var init := segments[..|segments| - 1];
      assert SegmentsWellFormed(elements, init);
      NoOwnerNoHits(elements, init, target);
      assert HitOf(elements, target, segments[|segments| - 1]).None?;
    }
  }

  /** Plane-stress targets ("CPS3", "CPS4") never match: the renaming table
      maps those Gmsh codes to shells, so every bucket stays empty and every
      segment is dropped. */
  lemma PlaneStressTargetsYieldEmpty(elements: seq<Element>, segments: seq<ElementId>, target: string, edge: int)
    requires target == "CPS3" || target == "CPS4"
    requires SegmentsWellFormed(elements, segments) && InRange(edge)
    ensures Surface(elements, segments, target).Success?
    ensures Surface(elements, segments, target).value[edge] == []
  {
    forall k | 0 <= k < |elements|
      ensures RenameElement(elements[k].gmshType) != target
    {
      NothingRenamesToPlaneStress(elements[k].gmshType);
    }
    NoOwnerNoHits(elements, segments, target);
  }

  /** Largest node count of a target-type element for which every edge
      number has a bucket: 4 for shells (edges 3..6), 6 for plane elements. */
  function MaxNodes(target: string): int
    requires IsSurfaceType(target)
  {
    7 - FirstEdge(FamilyOf(target))
  }

  lemma {:induction false} HitsInRange(elements: seq<Element>, segments: seq<ElementId>, target: string)
    requires IsSurfaceType(target) && SegmentsWellFormed(elements, segments)
    requires forall k :: (0 <= k < |elements| && RenameElement(elements[k].gmshType) == target
      ==> |elements[k].nodes| <= MaxNodes(target))
    ensures forall i :: 0 <= i < |Hits(elements, segments, target)| ==> InRange(Hits(elements, segments, target)[i].edge)
    decreases |segments|
  {
    if segments != [] {
      var init := segments[..|segments| - 1];
      assert SegmentsWellFormed(elements, init);
      HitsInRange(elements, init, target);
      var last := segments[|segments| - 1];
      if HitOf(elements, target, last).Some? {
        HitOfFirstCandidate(elements, target, last);
      }
    }
  }

  /** The surface is built without a missing bucket when every element of
      the target type is a triangle or quadrilateral (at most 4 nodes for
      shells, at most 6 for plane elements). */
  lemma SurfaceSucceedsForSmallElements(elements: seq<Element>, segments: seq<ElementId>, target: string)
    requires IsSurfaceType(target) && SegmentsWellFormed(elements, segments)
    requires forall k :: (0 <= k < |elements| && RenameElement(elements[k].gmshType) == target
      ==> |elements[k].nodes| <= MaxNodes(target))
    ensures Surface(elements, segments, target).Success?
  {
    HitsInRange(elements, segments, target);
  }

  /** The unit square 1-2-3-4 meshed by one quadrilateral 10, whose Gmsh
      type is given, with the boundary set "LEFT" holding the segment 20 from
      node 4 to node 1. */
  function UnitSquare(quadType: string): seq<Element> {
    [Element(10, [1, 2, 3, 4], quadType), Element(20, [4, 1], "T3D2")]
  }

  /** The segment of "LEFT" has the quadrilateral as its owner; after the swap
      it reads (1, 4), matches no consecutive pair and takes the closing edge. */
  lemma UnitSquareHit(quadType: string, target: string)
    requires IsSurfaceType(target) && RenameElement(quadType) == target
    ensures SegmentsWellFormed(UnitSquare(quadType), [20])
    ensures Canonical([1, 2, 3, 4], 4, 1) == (1, 4)
    ensures Hits(UnitSquare(quadType), [20], target) == [Hit(3 + FirstEdge(FamilyOf(target)), 10)]
  {
    var elements := UnitSquare(quadType);
    assert Find(elements, 20) == Some(1);
    assert Owner(elements, target, 4, 1) == Some(0);
    assert Canonical([1, 2, 3, 4], 4, 1) == (1, 4);
    assert LocalEdge([1, 2, 3, 4], 1, 4) == 3;
    assert [20][..0] == [];
  }

  /** A set whose only hit is in range has that hit's owner in its bucket
      and nothing anywhere else. */
  lemma SingleHitSurface(elements: seq<Element>, segments: seq<ElementId>, target: string, edge: int)
    requires IsSurfaceType(target) && SegmentsWellFormed(elements, segments) && InRange(edge)
    requires |Hits(elements, segments, target)| == 1 && InRange(Hits(elements, segments, target)[0].edge)
    ensures Surface(elements, segments, target).Success?
    ensures var h := Hits(elements, segments, target)[0];
      Surface(elements, segments, target).value[edge] == if edge == h.edge then [h.owner] else []
  {
    var hits := Hits(elements, segments, target);
    assert hits[..0] == [];
    assert Bucket(hits, edge) == Bucket([], edge) + (if hits[0].edge == edge then [hits[0].owner] else []);
  }

  /** End to end on the unit square with a shell target: the "LEFT" segment
      lands in bucket 6 and every other bucket is empty. */
  lemma LeftEdgeShell(edge: int)
    requires InRange(edge)
    ensures SegmentsWellFormed(UnitSquare("CPS4"), [20])
    ensures Surface(UnitSquare("CPS4"), [20], "S4").Success?
    ensures Surface(UnitSquare("CPS4"), [20], "S4").value[edge] == if edge == 6 then [10] else []
  {
    RenameElementTable();
    UnitSquareHit("CPS4", "S4");
    SingleHitSurface(UnitSquare("CPS4"), [20], "S4", edge);
  }

  /** The same with a plane-strain target: the segment lands in bucket 4. */
  lemma LeftEdgePlane(edge: int)
    requires InRange(edge)
    ensures SegmentsWellFormed(UnitSquare("CPE4"), [20])
    ensures Surface(UnitSquare("CPE4"), [20], "CPE4").Success?
    ensures Surface(UnitSquare("CPE4"), [20], "CPE4").value[edge] == if edge == 4 then [10] else []
  {
    UnitSquareHit("CPE4", "CPE4");
    SingleHitSurface(UnitSquare("CPE4"), [20], "CPE4", edge);
  }

  /** The edges whose buckets are nonempty, from `edge` up to 6 in
      increasing order: only these are written out, as element sets named
      "<set>_S<edge>". */
  function NonemptyEdgesFrom(E: map<int, seq<ElementId>>, edge: int): (edges: seq<int>)
    requires 1 <= edge <= 7
    decreases 7 - edge
    ensures forall i :: 0 <= i < |edges| ==> edge <= edges[i] <= 6 && edges[i] in E && E[edges[i]] != []
    ensures forall e :: edge <= e <= 6 && e in E && E[e] != [] ==> e in edges
    ensures forall i, j :: 0 <= i < j < |edges| ==> edges[i] < edges[j]
  {
    if edge == 7 then []
    else if edge in E && E[edge] != [] then [edge] + NonemptyEdgesFrom(E, edge + 1)
    else NonemptyEdgesFrom(E, edge + 1)
  }

  function NonemptyEdges(E: map<int, seq<ElementId>>): seq<int> {
    NonemptyEdgesFrom(E, 1)
  }

  /** Name of the element set of bucket `edge` of set `setName`. */
  function SubsetName(setName: string, edge: int): (name: string)
    requires InRange(edge)
    ensures |name| == |setName| + 3 && name[..|setName|] == setName && name[|setName|..|setName| + 2] == "_S"
    ensures '1' <= name[|setName| + 2] <= '6' && name[|setName| + 2] as int - '0' as int == edge
  {
    setName + "_S" + [(('0' as int) + edge) as char]
  }

  /** Different buckets of one set are written under different names. */
  lemma SubsetNamesDistinct(setName: string, e1: int, e2: int)
    requires InRange(e1) && InRange(e2) && e1 != e2
    ensures SubsetName(setName, e1) != SubsetName(setName, e2)
  {
    assert SubsetName(setName, e1)[|setName| + 2] != SubsetName(setName, e2)[|setName| + 2];
  }
}
