# Yukon core algorithms, verified

A Dafny model of the algorithmic core of the Yukon spatial extension (liblwgeom, geogridcoder) with
proofs of what that core is for. `dafny verify dfyconfig.toml` checks all of it.

| files | what they model |
|---|---|
| `AreaHeap`, `AreaHeapPaths`, `EffectiveArea`, `EffectiveAreaRun`, `EffectiveAreaCode`, `EffectiveAreaGeometry` | Visvalingam line simplification: a binary heap with back-indices over a doubly linked list of surviving points |
| `CircGeometry`, `CircTypes`, `CircTree`, `CircTreeBuild`, `CircTreeSearch`, `CircTreeDistance` | the tree of bounding circles on the sphere: in-place build, pruned parity test, branch-and-bound distance |
| `ByteOrder`, `Serialized`, `SerializedCode`, `SerializedScan`, `SerializedBox`, `SerializedRecord`, `SerializedBytes` | the serialized form of geometries (version 2): sizes, writers, readers, emptiness scan, box calculation and its fast path, whole values, and such values byte by byte |
| `ArcBox` | the box of a circular arc through three points |
| `Lookup3`, `Lookup3Values` | the hash of lookup3.c with its three loops, and the values that the author of the hash publishes for it |
| `GridScan` | merge scans over sorted arrays of grid cells of mixed levels |
| `QuadKeys`, `QuadCells`, `QuadCover`, `QuadLines`, `QuadRun` | quadtree keys, their rectangles, and the adaptive cover of a rectangle, segment or point |
| `Geohash` | geohash encoding, decoding and automatic precision |
| `Geosot` | Morton codes in 64 and 96 bits and their text form |
| `Arith`, `GeomTypes`, `FloatRange` | division facts; the type numbers of geometries and which collection holds which type; the largest float |

How the parts are built. Where the source changes things step by step, a method (often of a class with
the source's fields) does the same and is proved equal to a function of the old state, and the laws
are lemmas about that function. So `AreaHeap.MinHeap.SiftDown` is proved equal to `Down`, the loop of
`tune_areas` to `Tune`, and the simplification theorems are about `Tune`.

Numbers. Coordinates are reals; rounding to float is an arbitrary function. Keys, sizes and byte
values are integers with the source's widths written out; additions of 32-bit words wrap. The words
of geosot.cpp are sequences of bits, as its bitsets are.

What the model found in the code.
- `lwgeodetic_tree.c:287-292`: when two circles have coincident centres the larger radius is lost if
  it belongs to the second one, so a parent circle can fail to cover a child
  (`CircGeometry.CoincidentCentresLoseTheLargerCircle`). `MergeCoversBoth` gives the exact condition.
- `lwgeodetic_tree.c:677-864`: a node of a collection type without children, as
  `lwcollection_calculate_circ_tree` makes for a multipoint of one point and an empty one, is passed
  over, and the distance stays at its start value (`CircTreeDistance.MultipointWithEmptyMember`). The
  result is exact when no pair that the descent can reach is passed over. When only the second leaf is
  a point the closest points come out exchanged (`CircTreeDistance.DistanceSearch.VisitLeaves`);
  distances are not affected.
- `geomgrid_ops.cpp:488-578`: the containment scan misses a cell that repeats
  (`GridScan.RepeatedCellIsMissed`); `GridScan.GridContains` says exactly what it computes.
- `geomgrid_ops.cpp:581-607`: only codes move, so on mixed levels a code can end up with the level of
  another cell (`GridScan.UniqueMixesLevels`). `UniqueIsFirstCells` gives the exact condition. The
  containment test then claims cells that are not contained and misses some that are
  (`MixedLevelsClaim`, `MixedLevelsMiss`).
- `UGGeoHash.cpp:34-98`: a segment or point along a grid line is lost when a cell is split at that
  line, and the loop then reads an entry of an empty list (`QuadRun.MeridianIsLost`). So is a rectangle
  beyond an edge of the bounds by less than the tolerance, which the cut turns inside out
  (`BeyondEdgeIsLost`); where `YkRect2D::IsIntersect` is the stricter test it stands for the whole index
  instead (`BeyondEdgeIsAll`). `QuadRun.ComputerGeoHash` says exactly for which queries, limits and key
  counts a query is lost.
- `UGGeoHash.h:79` speaks of a default limit of 30 levels; a key has room for 28
  (`QuadKeys.LevelsWithRoom`), and the default is 25.
- `gserialized2.c:224-250`: the emptiness scan and `lwgeom_is_empty` differ exactly on polygons that
  have rings but no point in the first one (`SerializedScan.EmptyTwice`, `HollowPolygon`).
- `gserialized2.c:1738-1806`: only numbers of dimensions are compared, so a box of other dimensions can
  be stored, and the z range of a box is rounded outwards only when its z flag is set
  (`SerializedRecord.WrittenAsDeclared` gives the exact condition). With extended flags the box is
  written over the flags (`SerializedRecord.ExtendedFlagsLost`); boxes end up where they are read
  exactly without such flags (`BoxedWithoutExtended`).
- `gbox.c:441-535`: the box of a circular string can leave out middle points. In height and measure it
  contains one exactly when its value lies between those of the ends (`SerializedBox.MiddleHeight`, with
  the input of `MiddleHeightIgnored`). In the plane it contains one exactly when the three points are not
  on a line or the point lies in the box of the ends (`ArcBox.MiddleInBox`, `StraightArcMissesMiddle`);
  for ends that count as equal without being so, `MiddleInNearlyClosedBox` has the condition and
  `NearlyClosedArcMissesMiddle` an input.
- `gbox.c:648-677`: a circular string of one or two points is not empty but has no box, and is saved with
  zeros (`SerializedRecord.ShortArcHasNoBox`, `SaveLwgeom`). `BoxlessHasNoSpans` says exactly which
  geometries have none.
- `gserialized2.c:1814-1847`: dropping the box of a value that has none cuts off the end of its geometry
  (`SerializedRecord.DropGbox`).
- `RasterizeHash.cpp:550`: coordinates equal to 2 to the power of the level pass the range check and
  lose their upper bit (`QuadKeys.UpperBitIsLost`).

## Model

| member | source | states |
|---|---|---|
| AreaHeap.DownRestoresOrder | liblwgeom/effectivearea.c:123-167 | sifting down from the only disordered place gives a heap |
| AreaHeap.DownRearranges | liblwgeom/effectivearea.c:123-167 | a sift down keeps the points, their areas and links, and keeps every back-index right |
| AreaHeapPaths.DownSinks | liblwgeom/effectivearea.c:123-167 | the keys that a sift down moves stand along one path of least children, left ones at ties, down to the first slot without a smaller child; each moves one slot up |
| AreaHeap.SwapSlotIsSmallest | liblwgeom/effectivearea.c:123-150 | the slot chosen for the exchange holds the least area among the parent and its children |
| AreaHeapPaths.SwapSlotIsLeastChild | liblwgeom/effectivearea.c:123-167 | that slot is the left child when the children tie, and the parent itself unless a child is smaller |
| AreaHeap.UpRestoresOrder | liblwgeom/effectivearea.c:169-192 | sifting up from a changed slot gives a heap, with the truncating parent index of slot 0 |
| AreaHeap.UpRearranges | liblwgeom/effectivearea.c:169-192 | a sift up keeps points, areas, links and back-indices |
| AreaHeapPaths.UpRises | liblwgeom/effectivearea.c:169-192 | the keys that a sift up moves stand along the path to the root as far as areas are larger; each moves one slot down |
| AreaHeap.PopTakesMinimum | liblwgeom/effectivearea.c:199-213 | the popped point has least area, the rest is a heap of exactly the other points with their areas and links |
| AreaHeap.UpdateRestoresOrder | liblwgeom/effectivearea.c:218-228 | after any change of one area, up or down, the update gives a heap again |
| AreaHeap.SetAreaThenUpdate | liblwgeom/effectivearea.c:218-228 | a new area for one point followed by an update at its back-index keeps a heap of the same points |
| AreaHeap.MinHeap.SiftDown | liblwgeom/effectivearea.c:123-167 | the in-place sift does exactly what Down does to keys, areas and back-indices |
| AreaHeap.MinHeap.SiftUp | liblwgeom/effectivearea.c:169-192 | the in-place loop does exactly what Up does |
| AreaHeap.MinHeap.PopMin | liblwgeom/effectivearea.c:199-213 | returns the root and leaves the heap that Pop describes |
| AreaHeap.MinHeap.UpdateAt | liblwgeom/effectivearea.c:218-228 | does exactly what Update does |
| EffectiveArea.RootIsInterior | liblwgeom/effectivearea.c:277-300 | with a live interior point left the root is interior: no end point is ever popped, ties at FLT_MAX included |
| EffectiveArea.TieGoesToInterior | liblwgeom/effectivearea.c:285-300 | once forced areas tie with the end points at FLT_MAX, the root is still an interior point |
| EffectiveArea.StepEffect | liblwgeom/effectivearea.c:274-332 | one turn removes the root, refreshes its two neighbours only, links them to each other and leaves all else alone |
| EffectiveArea.TurnKeepsLinks | liblwgeom/effectivearea.c:327-332 | the links still list exactly the live points in increasing order |
| EffectiveArea.TurnKeepsAreas | liblwgeom/effectivearea.c:304-326 | every live interior point again stores the area of its current neighbours, raised to the last emitted area |
| EffectiveArea.StepKeepsInv | liblwgeom/effectivearea.c:274-339 | heap order, back-indices, links, current areas and emitted values survive every turn |
| EffectiveAreaRun.EveryInteriorPoppedOnce | liblwgeom/effectivearea.c:277-339 | a full run takes out every interior point exactly once and nothing else |
| EffectiveAreaRun.EmittedAreasRise | liblwgeom/effectivearea.c:285-300 | emitted areas never decrease and never exceed FLT_MAX |
| EffectiveAreaRun.FullRunIsNaive | liblwgeom/effectivearea.c:234-346 | heap, cached areas and links together emit what the plain algorithm emits that recomputes all areas and takes a minimum at every turn |
| EffectiveAreaRun.RootIsNaiveMinimum | liblwgeom/effectivearea.c:277-300 | the root is a minimum of freshly computed areas over all live interior points |
| EffectiveAreaRun.RunIsPrefixOfFullRun | liblwgeom/effectivearea.c:280-283 | a run with a threshold writes a prefix of what the full run emits |
| EffectiveAreaRun.FinalEntry | liblwgeom/effectivearea.c:335-336 | the final area of each point is what its turn emitted, or the start value if the run stopped before |
| EffectiveAreaRun.StoppingEarlyIsSound | liblwgeom/effectivearea.c:335-336 | for every threshold the early-stopping run keeps exactly the points that the full run keeps |
| EffectiveAreaRun.KeptSetsAreNested | liblwgeom/effectivearea.c:402-449 | raising the threshold never brings a point back, in either mode |
| EffectiveAreaRun.EndsAreKept | liblwgeom/effectivearea.c:234-346 | both end points keep FLT_MAX in every run |
| EffectiveAreaRun.OuterRingKeepsFour | liblwgeom/effectivearea.c:285-290 | with avoid_collaps 4 at least min(n, 4) points survive every threshold up to FLT_MAX |
| EffectiveAreaCode.SortIsUnique | liblwgeom/effectivearea.c:105-118 | cmpfunc is a total order, so qsort has one possible result |
| EffectiveAreaCode.CompareOrders | liblwgeom/effectivearea.c:105-118 | the smaller area comes first, and of two equal ones that of the earlier point |
| EffectiveAreaCode.SortedByArea | liblwgeom/effectivearea.c:254-262 | in the sorted list areas rise, and equal areas stand in the order of their points |
| EffectiveAreaCode.FirstEmission | liblwgeom/effectivearea.c:277-332 | every run takes out the lowest-numbered interior point of least area first |
| EffectiveAreaCode.EarlierOfEqualGoes | liblwgeom/effectivearea.c:105-118 | of two equal triangles of a line of four points the earlier point is taken out and the later one kept |
| EffectiveAreaCode.StartSatisfiesInv | liblwgeom/effectivearea.c:234-272 | the sorted array with its back-indices, links and first areas satisfies the invariant |
| EffectiveAreaCode.EffectiveAreas.TakeTurn | liblwgeom/effectivearea.c:277-332 | the body of the loop does one turn of the model, and the branch for a wrongly ordered heap is unreachable |
| EffectiveAreaCode.EffectiveAreas.TuneAreas | liblwgeom/effectivearea.c:234-346 | fills the result list with exactly the areas of the model run |
| EffectiveAreaCode.EffectiveAreas.CalcAreas | liblwgeom/effectivearea.c:349-400 | initial areas, links and elimination together give the final areas |
| EffectiveAreaGeometry.SetEffectiveArea | liblwgeom/effectivearea.c:402-449 | the output lists, in order, exactly the points whose full-run area reaches the threshold |
| EffectiveAreaGeometry.SetEffectiveAreaLine | liblwgeom/effectivearea.c:451-475 | short lines come back as they are; others keep both end points up to FLT_MAX |
| EffectiveAreaGeometry.SetEffectiveAreaPolygon | liblwgeom/effectivearea.c:477-514 | every ring is simplified by itself; exactly those of four or more points remain, in order, and none left means NULL; the outer ring survives thresholds up to FLT_MAX |
| EffectiveAreaGeometry.SimplifiedIsUnique | liblwgeom/effectivearea.c:402-449 | a ring has one simplification, so the lists above are determined by ring and threshold |
| EffectiveAreaGeometry.OuterRingSurvives | liblwgeom/effectivearea.c:477-514 | an outer ring of four or more points keeps at least four |
| CircGeometry.MergeCoversBoth | liblwgeom/lwgeodetic_tree.c:246-330 | the folded circle contains the old one always, and the next one exactly when the coincident-centre branch meets no larger radius |
| CircGeometry.MergedCircleCoversAll | liblwgeom/lwgeodetic_tree.c:230-349 | a new parent circle contains the circles of all its children |
| CircGeometry.MergeIsSmallest | liblwgeom/lwgeodetic_tree.c:246-330 | no smaller circle contains both, unless the centres coincide; then the circle grows by at most twice the tolerance |
| CircGeometry.LeafIsSmallest | liblwgeom/lwgeodetic_tree.c:167-188 | no smaller circle than that of a leaf contains both ends of its edge |
| GeomTypes.TypeNumbers | liblwgeom/lwgeom.c:1088-1135 | the collection types and the collection type of each type, in numbers |
| GeomTypes.SubtypeNumbers | liblwgeom/lwcollection.c:512-545 | which collection allows which member, in numbers |
| GeomTypes.CollectionHoldsType | liblwgeom/lwgeom.c:1114-1135 | the collection for a type is a collection and allows the type |
| CircTypes.PromoteAllGathers | liblwgeom/lwgeodetic_tree.c:261-281 | the type of a parent: that of its first typed child if no other follows, and otherwise a collection that the children after it were gathered into |
| CircTypes.ParentOfSame | liblwgeom/lwgeodetic_tree.c:261-281 | two or more children of one primitive type give the collection of that type, whatever number of untyped ones stand in front |
| CircTypes.ParentOfDifferent | liblwgeom/lwgeodetic_tree.c:261-281 | children of different primitive types give COLLECTIONTYPE |
| CircTypes.ParentIsCollection | liblwgeom/lwgeodetic_tree.c:261-281 | two or more children, the first typed one not being the last, give a collection type |
| CircGeometry.CoincidentCentresLoseTheLargerCircle | liblwgeom/lwgeodetic_tree.c:287-292 | a concrete pair of circles for which the parent is too small |
| CircGeometry.IntervalIsGeometry | liblwgeom/lwgeodetic_tree.c:167-188 | the assumptions on distance, projection, nearest points and crossings hold of a concrete space |
| CircTreeBuild.InternalNew | liblwgeom/lwgeodetic_tree.c:230-349 | circle, children and type of a new internal node; the type is the one into which those of the children gather |
| CircTreeBuild.MergeLevel | liblwgeom/lwgeodetic_tree.c:409-455 | one round packs n nodes into ceil(n / 8) parents in the same array without losing an unread entry; the leaves stay in order |
| CircTreeBuild.TakeChild | liblwgeom/lwgeodetic_tree.c:418-436 | reading entry j and writing a parent changes no entry after j |
| CircTreeBuild.NodesMerge | liblwgeom/lwgeodetic_tree.c:409-455 | terminates with a root over exactly the input leaves in order, 2 to 8 children per new node, each with the type into which those of its children gather, and at most ceil(log8 n) more levels; without a slip every circle covers its leaves |
| CircTreeBuild.CeilLog8IsCeiling | liblwgeom/lwgeodetic_tree.c:409-455 | the level bound is the least k with n <= 8 to the power k |
| CircTreeBuild.GrownCovers | liblwgeom/lwgeodetic_tree.c:230-349 | in a tree grown without a slip every circle covers all leaves below it |
| CircTreeBuild.TreeNew | liblwgeom/lwgeodetic_tree.c:354-395 | the leaves are the edges of non-zero length of the point array in order, or its first point; 2 to 8 children at the root and at most ceil(log8 n) levels above the leaves |
| CircTreeSearch.PrunedHasNoCrossing | liblwgeom/lwgeodetic_tree.c:511-520 | a stab line outside the circle of a node crosses no leaf below it |
| CircTreeSearch.CrossCountOfBag | liblwgeom/lwgeodetic_tree.c:495-587 | the crossing count does not depend on the order of the leaves |
| CircTreeSearch.ContainsPoint | liblwgeom/lwgeodetic_tree.c:495-587 | the pruned count, reduced modulo 2 at every level, is the parity of the accepted crossings over all leaves |
| CircTreeDistance.CirclesBoundLeaves | liblwgeom/lwgeodetic_tree.c:589-606 | the two circle distances bound the distance of any two leaves below |
| CircTreeDistance.SettledIsExact | liblwgeom/lwgeodetic_tree.c:706-716 | pruning by the maximal distance never loses the closest pair |
| CircTreeDistance.SortChildren | liblwgeom/lwgeodetic_tree.c:652-673 | afterwards the children stand nearest first, and they are the same children with the same leaves below |
| CircTreeDistance.NoChildlessPassable | liblwgeom/lwgeodetic_tree.c:818-863 | when every node of a collection type has children, as in the trees of single lines, points and polygons, the descent passes over no pair |
| CircTreeDistance.DistanceSearch.VisitLeaves | liblwgeom/lwgeodetic_tree.c:741-817 | two leaves give their distance, and their nearest points, exchanged when only the second leaf is a point |
| CircTreeDistance.DistanceSearch.Visit | liblwgeom/lwgeodetic_tree.c:677-864 | when no pair that the descent can reach is passed over, every leaf pair below is settled: not closer than the minimum, below the threshold, or beaten by another pair; the value returned is no smaller than the minimum; a pair that is not pruned, of a polygon and a node whose first vertex it contains, gives zero |
| CircTreeDistance.DistanceTree | liblwgeom/lwgeodetic_tree.c:608-630 | the result is a lower bound for all leaf pairs, and the distance of some pair, or zero for a polygon that contains a vertex, unless below the threshold, as long as no pair that can be reached is passed over; it is zero if one root is a polygon that contains the first vertex, or every vertex, of the other, which is no collection; nothing is found when the roots are passed over |
| CircTreeDistance.ContainsAllThenFirst | liblwgeom/lwgeodetic_tree.c:708-739 | a polygon that contains every vertex of the other tree contains the one that the search tests |
| CircTreeDistance.BestIsExact | liblwgeom/lwgeodetic_tree.c:677-864 | a settled search that started at FLT_MAX has found a closest pair |
| CircTreeDistance.MultipointWithEmptyMember | liblwgeom/lwgeodetic_tree.c:677-864 | two concrete trees at distance zero, the first of which is a collection without children, for which the search finds nothing |
| Serialized.RoundTrip | liblwgeom/gserialized2.c:1632-1674 | reading the written bytes anywhere in a buffer gives the geometry and the position after it; refused exactly when a collection holds a member it does not allow |
| Serialized.PolygonRoundTrip | liblwgeom/gserialized2.c:1385-1440 | ring counts, padding and ordinates are read back with two pointers |
| Serialized.PointsBytesLength | liblwgeom/gserialized2.c:641-653 | coordinates take npoints times dimensions times eight bytes |
| SerializedCode.SizeOf | liblwgeom/gserialized2.c:639-810 | the size computed beforehand is the number of bytes the writers produce (the assertion at 1304) |
| SerializedCode.WritePolygon | liblwgeom/gserialized2.c:913-965 | counts, padding and ordinates overwrite exactly their stretch of the buffer |
| SerializedCode.WriteAny | liblwgeom/gserialized2.c:839-1186 | a writer overwrites exactly its stretch with the bytes of the geometry and returns their number |
| SerializedCode.ReadAny | liblwgeom/gserialized2.c:1319-1674 | the pointer-walking readers compute the parser |
| SerializedCode.WriteThenRead | liblwgeom/gserialized2.c:839-1674 | writing a geometry into a buffer and reading there gives it back |
| SerializedScan.OrdinatesAligned | liblwgeom/gserialized2.c:31-45 | from an aligned start every ordinate stands at a multiple of eight and decodes to its value |
| SerializedScan.IsEmptyRecurse | liblwgeom/gserialized2.c:224-250 | the byte scan answers empty exactly when all leaves have count zero, and then returns the size of the geometry |
| SerializedScan.EmptyTwice | liblwgeom/lwinline.h:171-202 | lwgeom_is_empty agrees with the scan except for polygons without a point in their first ring |
| SerializedScan.HollowPolygon | liblwgeom/gserialized2.c:224-250 | a concrete polygon on which the two differ |
| SerializedBox.TightBounds | liblwgeom/gbox.c:536-598 | the calculated bounds enclose all values and are attained |
| SerializedBox.BoxIsSmallest | liblwgeom/gbox.c:600-646 | every vertex lies in the box and every face of it touches a vertex |
| SerializedBox.Box.Calculate | liblwgeom/gbox.c:600-646 | for x/y, z, m and both the object holds the smallest box of the points, m in its own place |
| SerializedBox.Box.Merge | liblwgeom/gbox.c:257-281 | joins two boxes of the same dimensions and refuses others |
| SerializedBox.Box.FloatRound | liblwgeom/gbox.c:808-827 | rounds exactly the declared dimensions outwards |
| SerializedBox.CalculateGbox | liblwgeom/gbox.c:735-806 | succeeds exactly when there is a vertex or an arc; within the range of floats the box is then the smallest one around all vertices and arcs, outer rings only for polygons, and in general around these and the start values of circular strings; otherwise leaves the box alone |
| SerializedBox.CalculateArcs | liblwgeom/gbox.c:648-677 | the box of a circular string joins those of its arcs; fewer than three points have none |
| SerializedBox.HullIsSmallest | liblwgeom/gbox.c:735-767 | every vertex and arc lies in the box and every face of it touches one |
| SerializedBox.NilLeavesNoTrace | liblwgeom/gbox.c:660-662 | in every geometry within the range of floats, the start values of its circular strings leave no trace in the box, wherever they stand |
| SerializedBox.MiddleHeight | liblwgeom/gbox.c:522-535 | the middle point of an arc is within the range of a height or measure exactly when its value lies between those of the ends, in either order |
| SerializedBox.MiddleHeightIgnored | liblwgeom/gbox.c:522-535 | a concrete arc whose middle point lies above its box |
| ArcBox.CentreIsEquidistant | liblwgeom/lwalgorithm.c:229-279 | the computed centre is at the distance of the radius from all three points |
| ArcBox.BeyondChord | liblwgeom/gbox.c:494-519 | where the circle reaches further on the other side of the chord, no point on this side lies beyond both ends |
| ArcBox.ArcBoxIsSmallest | liblwgeom/gbox.c:458-519 | the box contains every point of the arc, the middle one included, and each face touches the arc |
| ArcBox.FullCircleBox | liblwgeom/gbox.c:473-481 | equal ends give the smallest box of the circle with the first two points opposite to each other |
| ArcBox.MiddleInBox | liblwgeom/gbox.c:441-519 | the middle point of an open arc lies in its box exactly when the arc does not count as straight or the point lies in the box of the ends |
| ArcBox.MiddleInNearlyClosedBox | liblwgeom/gbox.c:441-519 | for ends that count as equal without being so, the middle point lies in the box exactly when in every direction the circle's own bound is taken or an end lies at least as far out |
| ArcBox.NearlyClosedArcMissesMiddle | liblwgeom/gbox.c:441-519 | a concrete such arc whose box does not reach its middle point |
| ArcBox.StraightArcMissesMiddle | liblwgeom/gbox.c:463-471 | a concrete middle point on the line of the ends that lies outside the box |
| SerializedBox.PeekGbox | liblwgeom/gserialized2.c:360-529 | succeeds exactly on single points, two-point lines and collections of one such member, with the rounded smallest box |
| SerializedBox.NoBoxNeeded | liblwgeom/lwgeom.c:1197-1231 | no box is needed exactly by a point, a line of at most two points and a collection of one such member; what is stored without a box has one that the fast path can read, or at most one vertex |
| SerializedBox.GetGbox | liblwgeom/gserialized2.c:582-605 | the fast path and the detour over the deserialized geometry give the same box |
| SerializedRecord.WholeRoundTrip | liblwgeom/gserialized2.c:1676-1710 | header, extended flags, box and geometry load back; only the read-only flag is lost |
| SerializedBytes.LittleDigit | liblwgeom/gserialized2.c:26-45 | byte i of a number written in memory order |
| SerializedBytes.FlagNumbers | liblwgeom/gserialized2.h:4-11 | the bit of each flag in the flag byte |
| SerializedBytes.PointRecord | liblwgeom/gserialized2.c:839-870 | every byte of a plain point with any srid |
| SerializedBytes.PolygonBytes | liblwgeom/gserialized2.c:913-965 | every byte in front of the points of a polygon with one ring and with two, padding included |
| SerializedBytes.CollectionBytes | liblwgeom/gserialized2.c:1111-1142 | the members of a collection follow its type and their number |
| SerializedBytes.BoxedRecord | liblwgeom/gserialized2.c:1188-1235 | flags, extended flags and the ends of the box, dimension by dimension, in front of the geometry |
| SerializedBytes.KeyOfRecord | liblwgeom/gserialized2.c:268-292 | the hash of what is written is that of the srid in four bytes and the bytes of the geometry, without flags and box |
| SerializedRecord.FromLwgeom | liblwgeom/gserialized2.c:1272-1309 | the buffer holds the whole record and the returned size equals the expected one |
| SerializedRecord.SaveLwgeom | liblwgeom/gserialized2.c:1253-1309 | a value that needs a box and has none is written with the smallest one, rounded outwards, or with zeros where none can be calculated; otherwise as it is |
| SerializedRecord.BoxlessHasNoSpans | liblwgeom/gbox.c:648-767 | the calculation fails exactly when every part is a polygon without a point in its first ring, a circular string of fewer than three points, or has no point; empty values are among these |
| SerializedRecord.ShortArcHasNoBox | liblwgeom/gbox.c:648-655 | a circular string of one point is not empty, needs a box and has none |
| SerializedRecord.RecordIsSized | liblwgeom/gserialized2.c:1253-1309 | a written value has the sizes, srid, box and geometry that storing, dropping and hashing rely on |
| SerializedRecord.ToLwgeom | liblwgeom/gserialized2.c:1676-1710 | the loading code computes Load |
| SerializedRecord.LoadWithBox | liblwgeom/gserialized2.c:1676-1729 | a written value loads back, and its box is calculated exactly when none is stored, one is needed and there is a vertex or arc; it is then the smallest box |
| SerializedRecord.FlagsRead | liblwgeom/gserialized2.c:118-129 | the flag byte gives back each flag |
| SerializedRecord.SridRead | liblwgeom/gserialized2.c:191-222 | three bytes give back an srid of 21 bits, negative ones included |
| SerializedRecord.SameKey | liblwgeom/gserialized2.c:268-292 | equal srid bytes and equal geometry bytes give equal hashes, whatever the box |
| SerializedRecord.Hash | liblwgeom/gserialized2.c:268-292 | the hash of the copied key does not depend on where the copy lies or what follows it |
| SerializedRecord.SetGbox | liblwgeom/gserialized2.c:1738-1806 | refuses a box of another number of dimensions; a stored box is overwritten in place, otherwise the geometry moves; geometry, srid and hash stay, and without extended flags the rounded box is read back |
| SerializedRecord.WrittenAsDeclared | liblwgeom/gserialized2.c:1738-1806 | what is written is the declared box, rounded outwards, for all ranges exactly when box and value both have a z range or neither, and the z flag of the box is set if there is one |
| SerializedRecord.OtherDimensionStored | liblwgeom/gserialized2.c:1738-1806 | a concrete box with measures whose z range is stored in a value with heights |
| SerializedRecord.ExtendedFlagsLost | liblwgeom/gserialized2.c:1786-1803 | with extended flags the first range takes their place and every float is read as the one two places before it; the box read back is right exactly if the flags were those floats, all ranges are the same and the last one was there before |
| SerializedRecord.LastRangeStays | liblwgeom/gserialized2.c:1786-1803 | in a value with extended flags and a box, the last range read after storing is the old one |
| SerializedRecord.BoxedWithoutExtended | liblwgeom/gserialized2.c:1738-1806 | every box is read back as stored exactly when there are no extended flags |
| SerializedRecord.BoxedLoads | liblwgeom/gserialized2.c:1676-1806 | a written value loads back with the box stored in it |
| SerializedRecord.UnboxedLoads | liblwgeom/gserialized2.c:1676-1847 | a written value loads back without the box dropped from it |
| SerializedRecord.DropGbox | liblwgeom/gserialized2.c:1814-1847 | the copy lacks the box and has the same geometry, srid and hash; the copy of a value without a box is cut short and its size field wrong |
| SerializedRecord.DropAfterSet | liblwgeom/gserialized2.c:1738-1847 | storing a box in a value without one and dropping it again gives the same bytes |
| Lookup3.UnmixAfterMix | liblwgeom/lookup3.c:129-137 | mix can be undone |
| Lookup3.MixIsBijection | liblwgeom/lookup3.c:129-137 | mix maps different states to different states and reaches every state |
| Lookup3.HashByWords | liblwgeom/lookup3.c:493-558 | 32-bit reads with masked tails compute the hash of the key whatever follows it in memory |
| Lookup3.HashByHalves | liblwgeom/lookup3.c:559-605 | 16-bit reads compute the same hash |
| Lookup3.HashByBytes | liblwgeom/lookup3.c:606-651 | byte reads compute the same hash |
| Lookup3.HashLittle2 | liblwgeom/lookup3.c:479-651 | the alignment of the key selects the loop but not the result |
| Lookup3Values.EmptyKey | liblwgeom/lookup3.c:476-493 | the published hashes of the empty key for three pairs of seeds |
| Lookup3Values.FourScoreHash | liblwgeom/lookup3.c:476-640 | the published hash of a key of thirty bytes: two mixed blocks and a finished one, all nineteen rotations |
| GridScan.CompareMasked | geogridcoder/geomgrid_ops.cpp:400-435 | masking with the coarser level tells containment, before and after apart |
| GridScan.WidthIsPower | geogridcoder/geomgrid_ops.cpp:517-518 | a cell of a level has 2 to the power 64 - 2 * level codes |
| GridScan.OverlapIsSharing | geogridcoder/geomgrid_ops.cpp:400-435 | two cells are equal or nested exactly when they share a code |
| GridScan.GridOverlap | geogridcoder/geomgrid_ops.cpp:351-398 | true exactly when both arrays have a common code |
| GridScan.SpanOverlap | geogridcoder/geomgrid_ops.cpp:400-435 | true exactly when some pair of cells is equal or nested |
| GridScan.StoppingAtOneIsSafe | geogridcoder/geomgrid_ops.cpp:1033-1064 | after a key past the query no later key of a sorted index matches |
| GridScan.ComparePartialMeans | geogridcoder/geomgrid_ops.cpp:1033-1064 | zero for equal or nested cells, otherwise the side on which the key lies |
| GridScan.GridContains | geogridcoder/geomgrid_ops.cpp:488-578 | for cells true exactly when those of b can be assigned in order to cells of a that contain them, an equal one being used up; never claims too much; exact for containment when b has no nested or repeated cells; for an antichain a, misses exactly repeats of cells of a; for other codes sound, and exact where the comparison orders them |
| GridScan.RepeatedCellIsMissed | geogridcoder/geomgrid_ops.cpp:488-578 | the scan answers false for a contained list with a repeat |
| GridScan.Unique | geogridcoder/geomgrid_ops.cpp:581-607 | in place, the front of the array gets the codes without repeats, every slot keeping its level |
| GridScan.DedupIsSet | geogridcoder/geomgrid_ops.cpp:581-607 | the codes left are each code once, increasing |
| GridScan.UniqueOfOneLevel | geogridcoder/geomgrid_ops.cpp:581-607 | with one level throughout the cells left are exactly the given ones |
| GridScan.UniqueIsFirstCells | geogridcoder/geomgrid_ops.cpp:581-607 | the cells left are the first cells of the codes exactly when every cell that starts a new code has the level of the slot numbered by the codes before it |
| GridScan.OneLevelFits | geogridcoder/geomgrid_ops.cpp:581-607 | one level throughout meets that condition, and leaves an antichain |
| GridScan.GridarrayContains | geogridcoder/geomgrid_ops.cpp:772-814 | on sorted arrays the unique step and the scan together answer for what is left, which are the first cells where levels are kept, and for containment of all cells with one level in each array |
| GridScan.MixedLevelsClaim | geogridcoder/geomgrid_ops.cpp:772-814 | a concrete mixed-level array for which a cell outside all of its cells is claimed |
| GridScan.MixedLevelsMiss | geogridcoder/geomgrid_ops.cpp:772-814 | a concrete mixed-level array for which a contained cell is missed |
| GridScan.UniqueMixesLevels | geogridcoder/geomgrid_ops.cpp:581-607 | a concrete mixed-level array that ends up with a cell not of its level |
| QuadKeys.PackedInjective | geogridcoder/UGGeoHash.cpp:88-96 | a packed key decodes to one cell only |
| QuadKeys.LevelsWithRoom | geogridcoder/UGGeoHash.cpp:88-96 | the level can be read back from every key of a level exactly up to level 28 |
| QuadKeys.GetBetweenFilter1 | geogridcoder/UGGeoHash.cpp:560-574 | the bounds are the key and the last number with the same upper digits |
| QuadKeys.RangeIsSubtree | geogridcoder/UGGeoHash.cpp:560-574 | for levels up to 28 a key is in the range exactly when its cell is the query cell or below it |
| QuadKeys.PackFromBelow | geogridcoder/UGGeoHash.cpp:217-228 | the digit loop packs the interleaved coordinates and the level |
| QuadKeys.HashCode | geogridcoder/RasterizeHash.cpp:548-575 | the bit-by-bit code is the same key, and zero for coordinates out of range |
| QuadKeys.KeysOfFirstLevel | geogridcoder/UGGeoHash.cpp:199-230 | the four keys of the first level, written out |
| QuadKeys.UpperBitIsLost | geogridcoder/RasterizeHash.cpp:548-575 | a coordinate of 2 to the power of the level, which the check lets pass, gives the digits of zero |
| QuadCells.NestedOrApart | geogridcoder/UGGeoHash.cpp:517-549 | rectangles of cells are nested exactly as the numbers say and otherwise share no interior point |
| QuadCells.GetBoundsByKey | geogridcoder/UGGeoHash.cpp:517-549 | decoding a packed key gives the rectangle of its cell |
| QuadCells.InterleavedCell | geogridcoder/UGGeoHash.cpp:199-230 | the cell of an interleaved column and row is the grid rectangle of that column and row |
| QuadCells.ComputerPointGeoHash | geogridcoder/UGGeoHash.cpp:199-230 | the key belongs to a cell of the level, which contains the point unless the point lies on a far edge and cells are narrower there than EP |
| QuadCover.GetIntersectHash | geogridcoder/UGGeoHash.cpp:360-455 | the quarters that the query meets, with keys, rectangles, parts and percentages, in their order |
| QuadCover.PercentIsShare | geogridcoder/UGGeoHash.cpp:360-455 | a percentage times the area of its cell is a hundred times the area of the part |
| QuadCover.ChildrenInOrder | geogridcoder/UGGeoHash.cpp:360-455 | the quarters stand from the bottom up and from left to right |
| QuadCover.ChildrenAreMet | geogridcoder/UGGeoHash.cpp:360-455 | a quarter is in the list exactly when the query meets it, with its number, level, rectangle and part |
| QuadCover.SplitKeepsArea | geogridcoder/UGGeoHash.cpp:360-455 | the parts of the query in the quarters have its area in total, segments and points included |
| QuadCover.SplitCovers | geogridcoder/UGGeoHash.cpp:360-455 | every point of the part lies in the part of some quarter exactly when the split does not lose the query |
| QuadCover.SplitKeepsPartition | geogridcoder/UGGeoHash.cpp:55-84 | replacing a cell by its quarters keeps a partition of the query by separate cells, unless the query is lost |
| QuadRun.SplitLowersLoad | geogridcoder/UGGeoHash.cpp:55-84 | the sum of five to the number of levels left drops at every split short of the limit, lost cells included |
| QuadRun.GetMinPercentagePos | geogridcoder/UGGeoHash.cpp:504-515 | the first entry of minimal percentage |
| QuadRun.RunIsUnique | geogridcoder/UGGeoHash.cpp:55-84 | the run of the loop is determined: every list follows from the one before by putting the quarters of the first least covered entry at the end, and the run stops at the first list with enough keys, all full, empty, or with an entry at the limit |
| QuadRun.SplitCells | geogridcoder/UGGeoHash.cpp:55-84 | terminates with the last list of the one run of RunIsUnique; loses a query inside the bounds exactly when it runs along a grid line, the coarsest such lines being those of level n + 1 (or 0), and n is below the limit and fewer cells of level n are met than keys asked for (for n = 0: more than one key is asked for); loses one beyond an edge exactly when a split takes place; otherwise leaves a partition of at most two cells more than asked for, short only at the limit level or with an exact tiling |
| QuadRun.ComputerGeoHash | geogridcoder/UGGeoHash.cpp:34-98 | -1 for queries outside the bounds; otherwise the keys of the last list of that run, which is a partition of the query cut down to the bounds, or the query is lost, exactly as for SplitCells; the key 0 of the whole index for queries beyond an edge that are not lost |
| QuadRun.KeysCover | geogridcoder/UGGeoHash.cpp:34-98 | every point of the query lies in the rectangle of some returned key |
| QuadCover.SplitLosesQuery | geogridcoder/UGGeoHash.cpp:360-455 | a split loses a query exactly when it is a segment or point along a side of the cell or along a split line |
| QuadLines.QuarterGrid | geogridcoder/UGGeoHash.cpp:360-455 | inside a quarter that the query meets the grid lines of a level are those of the next level around it |
| QuadLines.SplitKeepsCount | geogridcoder/UGGeoHash.cpp:360-455 | a split keeps the number of cells of a finer level that the query meets |
| QuadLines.SplitKeepsOrder | geogridcoder/UGGeoHash.cpp:55-84 | a query without area is split level by level, and is lost exactly when the first cell has the last level whose lines do not hold it |
| QuadLines.AllAreLost | geogridcoder/UGGeoHash.cpp:55-84 | at that moment the list holds all cells of the level that are met, and every further split loses the query too |
| QuadRun.AreaIsKept | geogridcoder/UGGeoHash.cpp:34-98 | a query with an area is never lost |
| QuadRun.MeridianIsLost | geogridcoder/UGGeoHash.cpp:34-98 | a concrete segment that passes the test of the bounds and is lost by the first split with the default limits |
| QuadRun.PointIsLost | geogridcoder/UGGeoHash.cpp:34-98 | a concrete point that is lost by the second split, and kept with one key or with limit level 1 |
| QuadCover.CutsDown | geomodel/libUGC/Src/Base/YkRect2D.cpp:205-215 | rectangles that meet, or whose common part is not inside out, are cut down to it |
| QuadCover.CutLeaves | geomodel/libUGC/Src/Base/YkRect2D.cpp:406-419 | the cut of the bounds lies in the bounds or is turned inside out at one of their edges |
| QuadCover.BeyondMeetsNone | geogridcoder/UGGeoHash.cpp:360-455 | a query turned inside out at an edge meets no quarter |
| QuadRun.BeyondEdgeIsLost | geogridcoder/UGGeoHash.cpp:34-98 | a concrete rectangle with an area, beyond the edge by less than the tolerance, that is lost |
| QuadRun.BeyondEdgeIsAll | geogridcoder/UGGeoHash.cpp:34-98 | a concrete one near small bounds that does not nearly intersect them and stands for the whole index |
| Geohash.CellContains | liblwgeom/lwalgorithm.c:592-651 | a point of the world lies in the cell of its bits |
| Geohash.CellSize | liblwgeom/lwalgorithm.c:592-651 | k bits give a cell of one of 2 to the power (k + 1) / 2 columns and k / 2 rows of the world |
| Geohash.FirstCharacter | liblwgeom/lwalgorithm.c:592-651 | the first character for 126 degrees west and 48 north, written out |
| Geohash.GeohashPoint | liblwgeom/lwalgorithm.c:592-651 | the characters are those of the first five bits per character of the point |
| Geohash.AlphabetIsTable | liblwgeom/lwalgorithm.c:585-585 | the character function is the base32 table |
| Geohash.DecodeGeohashBbox | liblwgeom/lwalgorithm.c:716-759 | decodes valid characters, of either case, to the cell of their bits and reports invalid ones |
| Geohash.DecodedCellContains | liblwgeom/lwalgorithm.c:592-759 | decoding the geohash of a point gives a cell that contains it |
| Geohash.EncodeAfterDecode | liblwgeom/lwalgorithm.c:592-759 | encoding any point of a decoded cell, upper edges aside, gives the geohash back |
| Geohash.GeohashPrecision | liblwgeom/lwalgorithm.c:761-848 | terminates for every non-point box of the world; the bounds contain the box, are the cell of its centre, and the box reaches their next halving line and none before; a fifth of their bits, or 20 for a point, is the precision |
| Geohash.FitsOnce | liblwgeom/lwalgorithm.c:761-848 | the number of bits after which a box reaches the next halving line is determined |
| Geohash.PrecisionIsSafe | liblwgeom/lwalgorithm.c:761-895 | the geohash of the centre at that precision decodes to a cell around the whole box |
| Geohash.LwgeomGeohash | liblwgeom/lwalgorithm.c:857-896 | fails outside the world; gives the precision asked for, and without one 20 characters for a point and a fifth of the bits of GeohashPrecision for any other box, of which the cell contains the box |
| Geosot.SplitStep | geogridcoder/geosot.cpp:189-210 | one shift-or-mask step halves the runs of bits |
| Geosot.MergeStep | geogridcoder/geosot.cpp:212-232 | one shift-mask step doubles them, with or and with exclusive or alike |
| Geosot.SplitIsSpread | geogridcoder/geosot.cpp:189-210 | splitting puts bit j at position 2j, or 3j, and zeros elsewhere |
| Geosot.MergeIsGather2 | geogridcoder/geosot.cpp:212-221 | merging collects every second bit |
| Geosot.MergeIsGather3 | geogridcoder/geosot.cpp:223-232 | merging collects every third bit |
| Geosot.UnMagicAfterMagic | geogridcoder/geosot.cpp:166-180 | de-interleaving undoes interleaving |
| Geosot.MagicAfterUnMagic | geogridcoder/geosot.cpp:166-180 | interleaving undoes de-interleaving |
| Geosot.UnMagicAfterMagic3 | geogridcoder/geosot.cpp:171-187 | the same for three coordinates in 96 bits |
| Geosot.MagicAfterUnMagic3 | geogridcoder/geosot.cpp:171-187 | the same, the other way round |
| Geosot.LevelOfCode | geogridcoder/GeoGrid.cpp:1426-1442 | cutting a code to a level is interleaving the coordinates cut to that many bits |
| Geosot.ToString | geogridcoder/geosot.cpp:117-135 | the letter, the digits of the code from the highest pair of bits on, separators at 10, 17 and 24 when a digit follows, and nothing else; read from the left this gives the level and the cut code |
| Geosot.ToCode | geogridcoder/geosot.cpp:137-164 | skips everything but digits and packs these from the top |
| Geosot.TextRoundTrip | geogridcoder/geosot.cpp:117-164 | the text of a code at a level reads back as that level and the code cut to it |

## Left out

Weaker or narrower than the source:
- CircTreeDistance.DistanceTree: exactness asks that no pair that the descent can reach, whatever the order of the children and whatever is pruned, is passed over; that a pair passed over deeper down always spoils the result is not claimed, as pruning may never come to it. Only the sphere is modelled, not the spheroid, and the tolerance test for zero is exact equality.
- CircTreeBuild.NodesMerge: covering asks that no merge slips, which can fail as said above; the order in which circ_nodes_sort puts the nodes beforehand does not enter, the leaves being those of the array as passed.
- CircTreeSearch.ContainsPoint: the on-boundary flag is not modelled; whether a grazing crossing is accepted is an arbitrary predicate of stab line and edge.
- EffectiveAreaCode.EffectiveAreas.CalcAreas: takes at least three points and triangle areas below FLT_MAX; qsort is represented by its only possible result.
- EffectiveAreaGeometry.SetEffectiveAreaPolygon: rings have at least three points; smaller ones cannot keep the four points that a ring needs to stay, and the code reads their second point unconditionally.
- QuadRun.ComputerGeoHash: the query itself is not inside out, and the limit level is at most 28.
- QuadCells.ComputerPointGeoHash: the point lies in the bounds, which are at least EP wide if it lies on a far edge; the cast of the column to 32 bits is exact up to level 28.
- SerializedBox.CalculateGbox: geodetic boxes are not modelled, and square roots are exact.
- ArcBox.ArcBoxIsSmallest: for arcs whose ends are closer than EPSILON_SQLMM but not equal, only which middle points the box contains is stated.
- SerializedRecord.SetGbox: the size field of the result fits its 30 bits; where extended flags are present the contents of the gap after the misplaced floats are arbitrary.
- SerializedRecord.DropGbox: not for a value with both a box and extended flags, where the sizes computed do not fit the copy, nor for one without a box that is shorter than the box would be.
- SerializedRecord.ToLwgeom: the box of a value that has none is the subject of LoadWithBox.
- SerializedRecord.LoadWithBox: cartesian values, as for SaveLwgeom.
- Serialized.RoundTrip: one dimensionality throughout and at most one coordinate in a point, as the writers demand; readers take values where the source keeps pointers into the buffer, so sharing with the buffer is not captured, and leaving the buffer counts as an error.
- GridScan.GridarrayContains: the arrays are given in the order that std::sort leaves; for codes with bits below their level, exactness asks that the comparison orders what the unique step leaves.
- Geosot.ToCode: at most 32 digits, since a further one is shifted by a negative amount.

Not modelled:
- floating-point rounding, not-a-number and infinite coordinates, and the trigonometry of lwgeodetic.c, behind the abstract distance, projection, nearest-point and crossing functions of CircGeometry;
- circ_center_cartesian with its factor 1.1: the spherical centre is taken to succeed;
- the builders of trees for whole geometries (lwpoly_calculate_circ_tree and its kin), except for the node type they leave behind;
- the nested polygon-in-polygon tests beyond the vertex test of the distance search;
- ellipses, on whose structure size the serialized form depends, and Bezier curves, whose reader leaves the point array of an empty one unset;
- ComputerGeoHash2, Query, GetFilter1, GetFilter2 and the weighted search of UGGeoHash.cpp; with a threshold of 100 percent Query drops a single fully covered child;
- the SQL text around the range bounds of GetBetweenFilter1;
- three-dimensional grids of geomgrid_ops.cpp, whose unique function copies in the wrong direction, and altitude conversions;
- Dec2code and Code2Dec: decimal rounding, in which the seconds fraction can reach 2048;
- gserialized1.c, a near duplicate of version 2, and peek_first_point;
- big-endian machines;
- geohash_point_as_int;
- PostgreSQL entry points, memory management, error reporting and debug output.
