# gmsh2ccx: element renaming, edge numbering and surface sets

A Dafny model of the core of `gmsh2ccx.py`, the converter that turns a Gmsh
`.inp` mesh into a CalculiX `.inp` deck. The model covers the three pieces of
the converter that carry logic:

- **Element renaming** (`element_types.dfy`, module `ElementTypes`). A fixed
  table maps Gmsh codes to CalculiX codes. `C1D2`/`T3D2` become `B31`,
  `C1D3`/`T3D3` become `B32`, `C2D3`/`CPS3` become `S3`, and `C2D4`/`CPS4`
  become `S4`. Any other code passes through unchanged.
- **Edge numbering** (`edge_numbering.dfy`, module `EdgeNumbering`). This
  follows section 7.114 "*SURFACE" of the CalculiX 2.15 manual. Shell elements
  (`S3`, `S4`) number their edges from 3. Plane-stress, plane-strain and
  axisymmetric elements (`CPS3`, `CPS4`, `CPE3`, `CPE4`) number them from 1.
  The `Family` datatype holds this convention.
  - `EdgeNumber` is the source's scan, written as a loop.
  - It is proved equal to `EdgeIndex`, which is the family's first edge number
    plus `LocalEdge`.
  - `LocalEdge` is the first position of a matching consecutive pair. If no
    pair matches, it is the position of the last node. That stands for the
    closing edge, which the source returns without checking it.
  - `Canonical` is the swap step that puts a segment's two nodes in the
    element's node order.
  - `TrueEdgeResolves` proves that the table is right for real edges. If an
    element has no repeated node, a segment along edge `j`, given in either
    node order, resolves to edge `j` plus the family's first edge number.
- **Surface sets** (`surface_sets.dfy`, module `SurfaceSets`). This is the
  block of the main script that groups the segments of one named boundary set
  by edge number.
  - `BuildSurface` is that block as a method. It pre-creates buckets 1..6
    and appends, segment by segment, the element id that `SegmentHit`
    finds to the bucket of the edge it resolves.
  - `SegmentHit` is the inner scan for one segment. It walks the
    insertion-ordered element table for the first element whose renamed
    type is the target and that holds both segment nodes. It then swaps the
    nodes into that element's order and resolves the edge. It is proved
    equal to `HitOf`.
  - `BuildSurface` is proved equal to `Surface`. `Surface` is defined
    declaratively: `Hits` gives each segment's owner and edge, in segment
    order, and `Bucket` filters those hits by edge.
  - A segment with no owner is dropped silently.
  - In the source, an edge number outside 1..6 raises a `KeyError`, because
    the bucket does not exist. The model returns `Failure(edge)` at the first
    such segment.
  - Plane-stress targets (`CPS3`, `CPS4`) can never match any element. The
    renaming table maps those Gmsh codes to shells, so with such a target
    every bucket stays empty (`PlaneStressTargetsYieldEmpty`).

The element table is a sequence of `Element(id, nodes, gmshType)` in the
source dictionary's insertion order. The type dictionary `mesh.types` is
folded into each element's `gmshType`.

## Model

| member | source | states |
|---|---|---|
| `ElementTypes.RenameElement` | gmsh2ccx.py:15-32 | the result is either the input code itself or one of the CalculiX codes `B31`, `B32`, `S3`, `S4` |
| `ElementTypes.RenameElementTable` | gmsh2ccx.py:16-28 | the eight table entries: `C1D2`/`T3D2`→`B31`, `C1D3`/`T3D3`→`B32`, `C2D3`/`CPS3`→`S3`, `C2D4`/`CPS4`→`S4` |
| `ElementTypes.RenameElementPassThrough` | gmsh2ccx.py:27-32 | a code is changed if and only if it is one of the eight listed codes; every other code passes through unchanged |
| `ElementTypes.NothingRenamesToPlaneStress` | gmsh2ccx.py:22-25 | no code is ever renamed to `CPS3` or `CPS4` |
| `EdgeNumbering.IsShellType` | gmsh2ccx.py:39-57 | the shell family `S3`, `S4` (line 39) and the plane family `CPS3`, `CPS4`, `CPE3`, `CPE4` (line 57) are disjoint, so the two branches never overlap |
| `EdgeNumbering.LocalEdgeFrom` | gmsh2ccx.py:51-54 | the result is the first position at or after `i` holding the consecutive pair `(a, b)`; if there is none, it is the last node's position, and no pair before the result matches |
| `EdgeNumbering.EdgeIndex` | gmsh2ccx.py:35-72 | the edge number of `edge_number` as a function: for a nonempty node list it lies between the family's first edge number and the closing edge's number (`len + 2` for shells, `len` for plane elements); an empty list gives 2 or 0 |
| `EdgeNumbering.EdgeNumber` | gmsh2ccx.py:35-72 | the loop returns the family's first edge number plus the position of the first matching consecutive pair, or the closing edge's number when none matches (`EdgeIndex`) |
| `EdgeNumbering.EdgeIndexFirstMatch` | gmsh2ccx.py:51-53 | for the smallest matching position `i`, the shell result is `i + 3` and the plane result is `i + 1` |
| `EdgeNumbering.EdgeIndexFallback` | gmsh2ccx.py:51-54 | with no matching pair, the shell result is `len + 2` and the plane result is `len`, whatever the segment is |
| `EdgeNumbering.ShellIsPlanePlusTwo` | gmsh2ccx.py:51-72 | on identical inputs, the shell result equals the plane result plus 2 |
| `EdgeNumbering.EdgeIndexBounds` | gmsh2ccx.py:51-72 | for a nonempty node list, shell results lie in `[3, len+2]` and plane results in `[1, len]`; with at most 4 nodes every result is in 1..6 |
| `EdgeNumbering.FallbackIsUnchecked` | gmsh2ccx.py:54 | on quadrilateral 1-2-3-4, the diagonal (1, 3) is not the closing pair (4, 1), yet it gets the closing edge's number: 6 for shells, 4 for plane elements |
| `EdgeNumbering.QuadrilateralEdges` | gmsh2ccx.py:40-68 | on quadrilateral 1-2-3-4, segment (2, 3) is edge 4 as a shell and edge 2 as a plane element; segment (4, 1) is edge 6 and edge 4 |
| `EdgeNumbering.IndexOf` | gmsh2ccx.py:137 | `nodes.index(n)` is a position holding `n` with no earlier occurrence of `n` |
| `EdgeNumbering.Canonical` | gmsh2ccx.py:137-138 | the swap returns the segment's two nodes, possibly exchanged, and afterwards the first node's position is not greater than the second's |
| `EdgeNumbering.CanonicalSymmetric` | gmsh2ccx.py:136-139 | after the swap, segments `(a, b)` and `(b, a)` resolve to the same pair and so to the same edge |
| `EdgeNumbering.InteriorEdgeFound` | gmsh2ccx.py:51-53 | with no repeated node, the segment joining positions `j` and `j+1`, in either order, is swapped into list order and found at `j` |
| `EdgeNumbering.ClosingEdgeFallsBack` | gmsh2ccx.py:51-54 | with no repeated node and at least 3 nodes, the segment joining the last and first nodes is swapped into (first, last), matches no pair and falls back to the last position |
| `EdgeNumbering.TrueEdgeResolves` | gmsh2ccx.py:36-72 | with no repeated node and at least 3 nodes, the edge from node `j` to the next node round the element, in either order, resolves after the swap to edge `j` plus the family's first number, as the manual's table lists |
| `SurfaceSets.FindFrom` | gmsh2ccx.py:129-130 | the lookup `mesh.elements[sbe]` gives the first table entry with that id, or none when no entry has it |
| `SurfaceSets.SegmentEnds` | gmsh2ccx.py:129-130 | the segment's two nodes are the first and second nodes of the table entry with the segment's id |
| `SurfaceSets.Candidate` | gmsh2ccx.py:136 | an element qualifies as owner when its renamed type is the target and it holds both nodes; such an element has nodes, and its Gmsh type is either the target itself or the target is one of the table's CalculiX codes |
| `SurfaceSets.OwnerFrom` | gmsh2ccx.py:133-136 | the scan gives the first element in table order whose renamed type is the target and that holds both nodes; every earlier element fails that test |
| `SurfaceSets.HitOf` | gmsh2ccx.py:128-141 | a segment gets no hit exactly when no element qualifies as its owner; a hit's owner id has the target type |
| `SurfaceSets.HitOfFirstCandidate` | gmsh2ccx.py:133-141 | a hit's owner is the first qualifying element, and the hit's edge lies between the family's first edge number and the owner's closing edge number |
| `SurfaceSets.Hits` | gmsh2ccx.py:128-141 | there are at most as many hits as segments, and every hit's owner has the target type |
| `SurfaceSets.Bucket` | gmsh2ccx.py:140 | a bucket holds no more ids than there are hits |
| `SurfaceSets.FirstBad` | gmsh2ccx.py:140 | none exactly when every hit's edge is one of 1..6; otherwise the out-of-range edge of a hit that has only in-range hits before it |
| `SurfaceSets.BucketMap` | gmsh2ccx.py:125-127 | the buckets are exactly the keys 1..6 |
| `SurfaceSets.Surface` | gmsh2ccx.py:124-141 | the result of the bucketing block as a function: on success its keys are exactly the buckets 1..6; on failure the edge is outside 1..6 |
| `SurfaceSets.FailureAt` | gmsh2ccx.py:139-140 | the first segment that resolves outside 1..6 makes the whole set fail with that edge (the `KeyError`) |
| `SurfaceSets.BuildSurface` | gmsh2ccx.py:124-141 | pre-filling, the per-segment scan of `SegmentHit` and the appends together compute `Surface`: the six buckets, or the failing edge |
| `SurfaceSets.SegmentHit` | gmsh2ccx.py:129-141 | the inner scan over the element table with `break`, the swap and the edge resolution give exactly `HitOf`: the first qualifying element with the edge of the reordered segment, or no hit |
| `SurfaceSets.SegmentStep` | gmsh2ccx.py:128-141 | one more segment leaves the buckets unchanged when it has no owner; otherwise it appends the first owner's id to exactly one bucket, or fails when that bucket does not exist |
| `SurfaceSets.BucketedIdsHaveTargetType` | gmsh2ccx.py:133-140 | every bucketed id is the id of an element whose renamed type is the target |
| `SurfaceSets.SurfaceTotalSize` | gmsh2ccx.py:128-141 | the six buckets together hold exactly one id per segment that found an owner, so no more ids than there are segments |
| `SurfaceSets.SurfacePreservesSegmentOrder` | gmsh2ccx.py:128-140 | each bucket built from the first `n` segments is a prefix of the same bucket built from all of them, so ids appear in segment order |
| `SurfaceSets.PlaneStressTargetsYieldEmpty` | gmsh2ccx.py:133-136 | with target `CPS3` or `CPS4`, the build succeeds and every bucket is empty |
| `SurfaceSets.SurfaceSucceedsForSmallElements` | gmsh2ccx.py:126-140 | if every target-type element has at most 4 nodes (shells) or at most 6 (plane elements), no bucket is ever missing |
| `SurfaceSets.UnitSquareHit` | gmsh2ccx.py:128-139 | on the unit square, segment (4, 1) is owned by quadrilateral 10, swapped to (1, 4) and given the closing edge |
| `SurfaceSets.LeftEdgeShell` | gmsh2ccx.py:124-141 | for the unit square with an `S4` target, set "LEFT" gives bucket 6 = [10] and all other buckets empty |
| `SurfaceSets.LeftEdgePlane` | gmsh2ccx.py:124-141 | for the unit square with a `CPE4` target, set "LEFT" gives bucket 4 = [10] and all other buckets empty |
| `SurfaceSets.NonemptyEdgesFrom` | gmsh2ccx.py:144-146 | the emitted edges are exactly those with nonempty buckets, listed in increasing order |
| `SurfaceSets.SubsetName` | gmsh2ccx.py:146 | the element-set name is the set's name, then `_S`, then the single digit of the edge number |
| `SurfaceSets.SubsetNamesDistinct` | gmsh2ccx.py:146 | different buckets of one set are written under different `<set>_S<edge>` names |

## Left out

- Command-line argument parsing (gmsh2ccx.py:76-90): the target type is a parameter of the model.
- Parsing the Gmsh file with `INPParser.Mesh` (gmsh2ccx.py:12, 93): `INPParser` is not part of this model. Its output is given as the ordered element table and the segment id list of each set.
- Node coordinates and all writing of `*NODE`, `*ELEMENT`, `*NSET`, `*ELSET` and `*SURFACE` records (gmsh2ccx.py:96-122, 143-154): this is text I/O. Only the choice of nonempty buckets and the `<set>_S<edge>` names are modelled.
- The loop over all named sets (gmsh2ccx.py:116): each set is built independently by `BuildSurface`.
- The diagnostic `print` calls (gmsh2ccx.py:31, 156): they are side effects only.
- `EdgeNumbering.EdgeNumber`: target types outside both families are excluded by a precondition. For them the source returns `None`, and the next `E[edge]` raises.
- `SurfaceSets.BuildSurface`: every segment id must name a table entry with at least two nodes. The source would raise on any other id, and the mesh parser guarantees it.
- `SurfaceSets.BuildSurface`: the target type must be a shell or plane code. With any other `--etype`, the source's block finishes with six empty buckets when no segment finds an owner, and otherwise raises at `E[None]`; neither path is modelled.
- `SurfaceSets.SegmentHit`: carries the same two preconditions as `BuildSurface` (a well-formed segment id and a shell or plane target), for the same reasons.
