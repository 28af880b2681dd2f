# FEAViz mesh algorithms, verified

FEAViz is a C mesh and visualisation library. This project models the algorithms of `src/Algorithms` that carry state,
branching or arithmetic worth proving, in Dafny 4.11, over exact real arithmetic, and proves what they promise.

- **Plane clipper with caps** (`ClipOutput`, `ClipTriangle`, `ClipFilter`, `CapLoops`, `EarClip`, `CapFilling`, `ClipArea`,
  with the edge algebra of `Chains` and `EdgeSums`; orientation in `OrientedMeshes`, `CutDirections`, `LoopDirections`,
  `ClipOrientation` and `NestedCaps`): each triangle is clipped, cut vertices are merged through an edge map, cut
  segments are walked into loops, and loops are ear-clipped.
- **Expressions** (`ExpressionSyntax`, `ExpressionGrammar`, `ExpressionParser`, `ExpressionPrinter`, `ExpressionEval`,
  `ExpressionMeaning`, `ExpressionRange`, `ExpressionCache`): a parser into a flat arena of nodes, a shape checker, a
  broadcasting evaluator over chunks, and a least-recently-used compile cache.
- **Connectivity and feature edges** (`UnionFind`, `Connectivity`, `FeatureEdges`): union-find with path compression
  and 8-bit ranks, region labelling, and edges classified by sorting and grouping.
- **Field operations** (`Sums`, `Elimination`, `Refusal`, `LeastSquares`, `FieldGather`): the least-squares operator by
  Gauss-Jordan elimination, its application to tuples, and gathering by ids.
- **Point merging** (`CleanPoints`): chained buckets over quantized cells against brute force.
- **Composite geometry cache** (`CompositeTree`, `GeometryCache`, `CompositeFilter`): a worklist over a tree behind a
  generation, recency and byte-budget cache, against the plain recursive map.
- **Smoothing and decimation** (`SmoothAdjacency`, `Smoothing`, `Decimation`): compressed adjacency by counting sort,
  double-buffered relaxation, and vertex clustering.
- **Marching triangles** (`Contour`).

`Geometry`, `EdgeKeys`, `Chunks`, `Sorting` and `Totals` hold what several of them share. Code that changes state is a
method, or a class with methods, proved against a specification function or predicate; the theorems are about those.

## Where code and documentation differ

- The verification notes (`docs/verification/CORE_0_51_TO_0_60_VERIFICATION.md:9`) speak of oriented watertight caps.
  The code turns every cap loop to positive projected area on its own. `ClipOrientation.OrientedWhenCancelled` and
  `ClipOrientation.OrientedWhenNegative` say exactly when the output of an oriented mesh is oriented, and
  `NestedCaps.ClipHollow` is a hollow body for which it is not. With caps on, a closed input always yields an output in
  which no edge has an odd number of sides (`ClipFilter.ClosedStaysClosed`).
- Capping can fail on a simple loop, because the tolerance of the ear test is absolute: `CapFilling.SquareFilled` and
  `CapFilling.SmallSquareRefused`. `ClipFilter.Clip` says when capping succeeds.
- The relaxation bound, the id checks and the tolerances are proved as the code has them: the least-squares tolerance
  is absolute, and `LeastSquares.IndependentYetRefused` shows an independent basis that it refuses. The bounds
  `Refusal.RefusedIsNear` and `Refusal.NearIsRefused` enclose what is refused; they meet for the first column, and
  `LeastSquares.NearYetAccepted` shows that they cannot meet for later ones.
- The compile cache is exactly least-recently-used until its 64-bit use serial wraps; `ExpressionCache.Cache.Get` says
  precisely what remains true at the wrap.
- Feature edges skip a polygon side between equal ids but not a strip side between equal ids, and the model does the same.

## Model

| member | source | states |
|---|---|---|
| `ClipFilter.Clip` | src/Algorithms/FVizClipPolyDataFilter.c:673-835 | For any plane, side and mesh whose ids exist: the returned mesh is exactly the fans of the clipped triangles, each with its source id, then the caps; every vertex is on the kept side and every cut vertex exactly on the plane; output vertices are shared between triangles and no other points exist; modulo two the boundary is the kept part of the input sides, so with caps on a closed mesh stays closed; the 3 T provenance capacity is never exceeded; with caps on it succeeds if and only if no split input edge has an odd number of sides and every loop it traced is fillable, and always when the cut is even and every closed way along it is convex with the margin of the ear test |
| `ClipFilter.OddCutGraph` | src/Algorithms/FVizClipPolyDataFilter.c:776-793 | The cut graph has a vertex of odd degree if and only if some input edge that the plane splits has an odd number of triangle sides |
| `ClipFilter.ManifoldCutGraph` | src/Algorithms/FVizClipPolyDataFilter.c:776-793 | Without degenerate triangles and with at most two sides at every edge, every cut vertex has degree at most two |
| `ClipFilter.BoundaryOfOutput` | src/Algorithms/FVizClipPolyDataFilter.c:737-811 | The output sides at any two output vertices have the parity of the input sides whose kept part they are: between all vertices with caps, and wherever an original vertex takes part without |
| `ClipFilter.ClosedStaysClosed` | src/Algorithms/FVizClipPolyDataFilter.c:737-811 | If every input edge has an even number of sides, so has every output edge |
| `ClipFilter.PositionSymmetric` | src/Algorithms/FVizClipPolyDataFilter.c:362-373 | The crossing point of an edge is the same from whichever end it is measured |
| `ClipFilter.IntersectionPosition` | src/Algorithms/FVizClipPolyDataFilter.c:362-373 | On an edge whose ends are kept differently the clamp of the parameter never acts |
| `ClipFilter.WantedIsKept` | src/Algorithms/FVizClipPolyDataFilter.c:356-373 | Every vertex that clipping asks for passes the keep test, and crossings have distance zero |
| `ClipFilter.WhenCapped` | src/Algorithms/FVizClipPolyDataFilter.c:496-554 | The outcome of capping from the traced loops: success exactly when the cut is even and all loops are fillable, which a convex cut guarantees whatever was traced |
| `ClipFilter.ClipPolygon` | src/Algorithms/FVizClipPolyDataFilter.c:739-767 | Walking the three sides yields the polygon of the keep pattern, with placeable cut vertices |
| `ClipFilter.CutSegment` | src/Algorithms/FVizClipPolyDataFilter.c:776-793 | The segment found by comparing output ids joins the two different crossings of the polygon, or there is none |
| `ClipFilter.ClipTriangle` | src/Algorithms/FVizClipPolyDataFilter.c:737-811 | One triangle appends its fan with its own source id over shared vertices, and yields its cut segment |
| `ClipTriangles.ClippedBoundary` | src/Algorithms/FVizClipPolyDataFilter.c:737-811 | Fan and cut segment of one triangle are bounded, modulo two, by the kept parts of its sides, degenerate triangles included |
| `ClipTriangles.NextTriangle` | src/Algorithms/FVizClipPolyDataFilter.c:737-811 | The boundary law and the degree law carry over from any list of triangles to one more |
| `ClipOutputs.ClipOutput.OutputVertex` | src/Algorithms/FVizClipPolyDataFilter.c:314-354 | A vertex gets one output id, created on first use and found again from every triangle and from either direction of its edge, and lies where it should |
| `ClipOutputs.ClipOutput.InjectiveOrigins` | src/Algorithms/FVizClipPolyDataFilter.c:314-354 | No two output points stand for the same input point or cut edge |
| `ClipArea.OutputsShareArea` | src/Algorithms/FVizClipPolyDataFilter.c:356-811 | The meshes returned for the two sides of a plane share the input area between them, seen along any projection, except that triangles within the plane are kept by both |
| `ClipArea.HalvesAddUp` | src/Algorithms/FVizClipPolyDataFilter.c:746-800 | The two halves of one triangle have its area together, and twice its area exactly when all three corners are on the plane |
| `ClipArea.CapsHaveLoopsArea` | src/Algorithms/FVizClipPolyDataFilter.c:416-486 | The caps have exactly the projected area that the traced loops enclose |
| `OrientedMeshes.BalancedIsEven` | src/Algorithms/FVizClipPolyDataFilter.c:737-811 | A mesh is oriented, every antisymmetric edge weight adding up to zero, if and only if it runs along every edge as often one way as the other |
| `CutDirections.SurfaceForm` | src/Algorithms/FVizClipPolyDataFilter.c:737-811 | The clipped surface is bounded, with orientation, by the kept parts of the input sides and by the cuts directed as their polygons run, whatever triangles are degenerate |
| `CutDirections.CutDegrees` | src/Algorithms/FVizClipPolyDataFilter.c:776-793 | Directed cuts leave a crossing as often as the mesh runs out of the kept half there, and arrive as often as it runs back |
| `LoopDirections.OneDirection` | src/Algorithms/FVizClipPolyDataFilter.c:507-544 | Where at most one directed cut leaves and one arrives at every vertex, a traced loop of three points or more runs with all of its cuts or against all of them |
| `ClipOrientation.OutputFlux` | src/Algorithms/FVizClipPolyDataFilter.c:496-811 | The oriented boundary of the whole output of an oriented mesh is that of the directed cuts and of the loops turned to positive area |
| `ClipOrientation.OrientedWhenCancelled` | src/Algorithms/FVizClipPolyDataFilter.c:435-811 | An oriented mesh gives an oriented output if and only if the loops, each turned to positive area, together run against the directed cuts |
| `ClipOrientation.OrientedWhenNegative` | src/Algorithms/FVizClipPolyDataFilter.c:435-811 | An oriented manifold mesh gives an oriented output if and only if every loop of three points or more has negative projected area when taken as the clipped polygons run |
| `NestedCaps.HollowIsCapped` | src/Algorithms/FVizClipPolyDataFilter.c:496-554 | A tetrahedron within another turned inside out meets the conditions for being capped |
| `NestedCaps.ClipHollow` | src/Algorithms/FVizClipPolyDataFilter.c:435-441 | That mesh, oriented and manifold, is clipped and capped, and the returned mesh is not oriented |
| `EarClip.TriangulateCapLoop` | src/Algorithms/FVizClipPolyDataFilter.c:390-494 | A fillable loop of n points is refused only for want of room in the buffer and any other loop is refused; success yields n - 2 triangles without sources whose directed boundary is the loop turned to positive area, all but the last turning left by more than the tolerance; zero area is refused if and only if the loop has none; failing for want of an ear exhibits the remaining polygon that has none |
| `EarClip.FilledArea` | src/Algorithms/FVizClipPolyDataFilter.c:416-486 | Triangles that fill an oriented loop have its projected area, taken positive |
| `EarClip.FindEar` | src/Algorithms/FVizClipPolyDataFilter.c:443-467 | The first corner that turns left and holds no other remaining vertex, or none |
| `EarClip.EarCut` | src/Algorithms/FVizClipPolyDataFilter.c:439-486 | Cutting an ear off leaves emitted triangles and remaining polygon bounding the same oriented loop |
| `CapFilling.ConvexFills` | src/Algorithms/FVizClipPolyDataFilter.c:378-486 | A loop whose ordered triples of points all turn the same way by more than the tolerance of the ear test is fillable, traced in either direction |
| `CapFilling.FourPoints` | src/Algorithms/FVizClipPolyDataFilter.c:378-486 | A loop of four points is fillable if and only if it has an area and some corner turns left while a neighbour turns right or the opposite corner turns left, by more than the tolerances |
| `CapFilling.SquareFilled` | src/Algorithms/FVizClipPolyDataFilter.c:378-486 | A square is fillable if and only if the square of its side exceeds the tolerance of the ear test, however simple it is |
| `CapFilling.SmallSquareRefused` | src/Algorithms/FVizClipPolyDataFilter.c:378-486 | A simple loop that is refused: a square with a side of half a millionth |
| `Chains.CutCorner` | src/Algorithms/FVizClipPolyDataFilter.c:439-486 | Cutting a corner off a loop takes away exactly that corner triangle from every antisymmetric edge sum |
| `Chains.FillParity` | src/Algorithms/FVizClipPolyDataFilter.c:390-554 | Triangles that fill a loop in either direction have it as their boundary modulo two |
| `CapLoops.TraceLoop` | src/Algorithms/FVizClipPolyDataFilter.c:513-544 | The walk comes back to its start over segments used once, or the open part of the cut graph has an odd vertex |
| `CapLoops.GenerateCaps` | src/Algorithms/FVizClipPolyDataFilter.c:496-554 | On success every segment is used exactly once as a step of a closed loop, the caps are one patch for each loop, all loops are fillable, the caps bound the segments modulo two, and no vertex is odd; a failed walk implies an odd vertex; a failed patch is that of the last traced loop, which is not fillable, after patches for all loops before it |
| `CapLoops.LoopIsSimple` | src/Algorithms/FVizClipPolyDataFilter.c:507-544 | When no vertex has degree above two no loop meets a vertex twice |
| `ExpressionParser.Parser.ParseConditional` | src/Algorithms/FVizExpression.c:520-541 | From any state the method moves cursor, nodes, names and error as the grammar function says; the first error stays |
| `ExpressionParser.Parser.ParseTail` | src/Algorithms/FVizExpression.c:449-518 | The operator loop reads as many operators of its level as there are, to the left |
| `ExpressionParser.Parser.ParsePower` | src/Algorithms/FVizExpression.c:435-447 | Power takes a unary on its left and itself on its right |
| `ExpressionParser.Parser.ParseUnary` | src/Algorithms/FVizExpression.c:415-433 | Signs are read before primaries, a plus adding no node |
| `ExpressionParser.Parser.ParsePrimary` | src/Algorithms/FVizExpression.c:275-413 | Parentheses, literals, calls and variables, with the same failures at the same offsets |
| `ExpressionParser.Parser.ParseFunction` | src/Algorithms/FVizExpression.c:313-348 | A call needs a known name, its arity and a closing parenthesis |
| `ExpressionParser.Parser.Append` | src/Algorithms/FVizExpression.c:170-193 | A node is added unless the arena holds 4096 already |
| `ExpressionParser.Parser.Name` | src/Algorithms/FVizExpression.c:195-232 | A name gets the index of its first use, and no more than 256 names are taken |
| `ExpressionParser.Compile` | src/Algorithms/FVizExpression.c:560-598 | Compilation succeeds exactly on sources the grammar reads to their end within the limits, with that arena |
| `ExpressionGrammar.ParseIsSound` | src/Algorithms/FVizExpression.c:275-541 | Whatever is parsed means one well-formed tree, and the arena is exactly the post-order of that tree |
| `ExpressionPrinter.RoundTrip` | src/Algorithms/FVizExpression.c:275-541 | A tree printed for a level parses at that level to itself, wherever it stands and whatever looser symbol follows |
| `ExpressionPrinter.CompilePrinted` | src/Algorithms/FVizExpression.c:560-598 | Compiling a printed tree gives exactly its nodes, root last, for every tree within the limits |
| `ExpressionPrinter.CompiledIsPrintable` | src/Algorithms/FVizExpression.c:560-598 | Every source that compiles has a tree whose printed form compiles to the same nodes |
| `ExpressionPrinter.NeedsParentheses` | src/Algorithms/FVizExpression.c:415-541 | Every pair of parentheses that printing adds is needed: without it, parsing at that level fails or stops short |
| `ExpressionPrinter.PrintIsInjective` | src/Algorithms/FVizExpression.c:275-541 | Different trees print differently |
| `ExpressionEval.EmitIsPostOrder` | src/Algorithms/FVizExpression.c:170-193 | Children stand before their parents in every compiled arena, so evaluation terminates |
| `ExpressionEval.ShapesAreSized` | src/Algorithms/FVizExpression.c:666-757 | A shape that passes has one to the maximum number of components |
| `ExpressionEval.EvalNode` | src/Algorithms/FVizExpression.c:790-965 | A node with a shape of k components evaluates to exactly k, reading no operand past its end |
| `ExpressionMeaning.EmittedStandsFor` | src/Algorithms/FVizExpression.c:170-541 | The compiled nodes of a tree stand for that tree |
| `ExpressionMeaning.StandInMeans` | src/Algorithms/FVizExpression.c:666-965 | Shape and value computed on nodes are the shape and value of the tree they stand for |
| `ExpressionMeaning.CompilationKeepsMeaning` | src/Algorithms/FVizExpression.c:560-965 | From source to value: the compiled nodes have the shape and, on any data, the value of the one tree that the source means |
| `ExpressionRange.Evaluation.EvaluateRange` | src/Algorithms/FVizExpression.c:967-988 | A range writes its own tuples as planned and no other |
| `ExpressionRange.Evaluation.EvaluateChunks` | src/Algorithms/FVizExpression.c:967-988 | Chunks that cover all tuples, in any order and however they overlap, write the same output as one pass |
| `ExpressionRange.Evaluate` | src/Algorithms/FVizExpression.c:1072-1115 | The result does not depend on the division into chunks, and is refused exactly when some value is not finite and that matters |
| `ExpressionRange.ResultsMeanSource` | src/Algorithms/FVizExpression.c:990-1115 | Every output tuple is the value of the source tree on the data of that tuple |
| `ExpressionCache.Cache.Get` | src/Algorithms/FVizExpression.c:1155-1217 | A request answers with the compilation of its source; while the use serial has not wrapped the cache stays exactly the most recent distinct sources; at the wrap it stays so if and only if it holds at most one entry |
| `ExpressionCache.Cache.Clear` | src/Algorithms/FVizExpression.c:1117-1129 | Clearing starts a new history |
| `ExpressionCache.Cache.Oldest` | src/Algorithms/FVizExpression.c:1178-1188 | The entry evicted is a least recently stamped one, or the first when all stamps are largest |
| `ExpressionCache.CachedIffRecent` | src/Algorithms/FVizExpression.c:1155-1217 | A source is among the most recent if and only if fewer distinct sources than the capacity were requested since it |
| `ExpressionCache.LargerCacheHolds` | src/Algorithms/FVizExpression.c:1155-1217 | Of two caches with one history the larger holds all that the smaller holds |
| `ExpressionCache.FeedBoth` | src/Algorithms/FVizExpression.c:1155-1217 | Fed any same requests, two caches answer alike and the larger keeps holding all that the smaller holds |
| `ExpressionCache.HitIsExact` | src/Algorithms/FVizExpression.c:1162-1171 | A hit moves its source to the most recent place |
| `ExpressionCache.MissIsExact` | src/Algorithms/FVizExpression.c:1172-1216 | A miss evicts the least recent source when full and adds the new one |
| `UnionFind.Find` | src/Algorithms/FVizGeometryFilters.c:558-570 | Find returns the root, and its path compression changes no root |
| `UnionFind.Union` | src/Algorithms/FVizGeometryFilters.c:572-585 | Union joins exactly the two classes and keeps every class of rank r at 2^r cells or more |
| `UnionFind.CompressRoot` | src/Algorithms/FVizGeometryFilters.c:558-570 | Pointing a cell at its root changes the root of no cell |
| `UnionFind.LinkRoot` | src/Algorithms/FVizGeometryFilters.c:572-585 | Linking two roots moves exactly the cells of one class |
| `UnionFind.LinkBalanced` | src/Algorithms/FVizGeometryFilters.c:572-585 | A merged class pays for its rank |
| `UnionFind.RankBound` | src/Algorithms/FVizGeometryFilters.c:664-668 | With at most 2^32 - 1 cells no rank exceeds 31, so eight bits are enough |
| `Connectivity.JoinCells` | src/Algorithms/FVizGeometryFilters.c:700-726 | Two cells end with one root if and only if a chain of cells sharing points joins them |
| `Connectivity.LabelRegions` | src/Algorithms/FVizGeometryFilters.c:727-741 | Cells get one id exactly when they have one root, ids are numbered by first cell, and sizes count the cells |
| `Connectivity.LargestRegion` | src/Algorithms/FVizGeometryFilters.c:742-749 | The lowest-numbered region of maximum size |
| `Connectivity.SelectCells` | src/Algorithms/FVizGeometryFilters.c:769-783 | Exactly the cells of the region, in cell order |
| `Connectivity.ConnectCells` | src/Algorithms/FVizGeometryFilters.c:626-812 | Two cells carry one region id if and only if a chain of shared points joins them; ids are 0 to count - 1 by first cell, each size is the number of cells with its id, and the sizes add up to the cells; the extracted cells are those of the lowest-numbered largest region |
| `FeatureEdges.CollectUses` | src/Algorithms/FVizGeometryFilters.c:1007-1039 | Every side of every polygon and strip triangle is recorded once, with its cell normal |
| `FeatureEdges.UsesCountIncidences` | src/Algorithms/FVizGeometryFilters.c:1007-1039 | An edge has as many records as cells run along it |
| `FeatureEdges.OutputIgnoresTies` | src/Algorithms/FVizGeometryFilters.c:956-1088 | Two sorts that break ties differently give the same lines |
| `FeatureEdges.GroupIsEdge` | src/Algorithms/FVizGeometryFilters.c:1045-1051 | A group of equal keys in sorted records holds every record of its edge |
| `FeatureEdges.Classify` | src/Algorithms/FVizGeometryFilters.c:1044-1088 | One line for each edge that the settings ask for, no edge twice, classified by its number of cells and, for two, by their normals |
| `FeatureEdges.FeatureLines` | src/Algorithms/FVizGeometryFilters.c:967-1088 | An edge is drawn as boundary if and only if one cell runs along it, as non-manifold if and only if more than two do |
| `LeastSquares.LeastSquaresOperator` | src/Algorithms/FVizFieldOperations.c:431-520 | When the operator is returned it is a left inverse of the basis of the form r B^T with r the inverse of the Gram matrix, and the columns are independent; when it is refused some column of the Gram matrix is a combination of the columns before it up to the tolerance in every entry; and wherever one is so up to the tolerance halved for every column before it, the operator is refused |
| `LeastSquares.Reduce` | src/Algorithms/FVizFieldOperations.c:461-505 | The in-place elimination is, column by column, the elimination of the augmented matrix |
| `LeastSquares.NormalSystem` | src/Algorithms/FVizFieldOperations.c:449-460 | The augmented matrix starts as the Gram matrix beside the identity |
| `LeastSquares.FindPivot` | src/Algorithms/FVizFieldOperations.c:463-474 | The first row whose entry is largest in magnitude |
| `LeastSquares.ApplyTupleMatrix` | src/Algorithms/FVizFieldOperations.c:391-429 | Every output entry is the inner product of a matrix row with a component of the tuples |
| `LeastSquares.OperatorRecoversTuples` | src/Algorithms/FVizFieldOperations.c:391-520 | Applied to samples of B c the operator gives back c |
| `LeastSquares.OperatorIsOptimal` | src/Algorithms/FVizFieldOperations.c:431-520 | No coefficients leave a smaller sum of squared residuals than those the operator gives |
| `LeastSquares.NormalEquations` | src/Algorithms/FVizFieldOperations.c:431-520 | The fit solves the normal equations |
| `LeastSquares.ExactStallIsDependence` | src/Algorithms/FVizFieldOperations.c:475-479 | A refusal over candidates that are exactly zero means dependent columns |
| `LeastSquares.OneCoefficient` | src/Algorithms/FVizFieldOperations.c:475-479 | With one coefficient the operator exists if and only if the squared samples exceed the tolerance together |
| `LeastSquares.IndependentYetRefused` | src/Algorithms/FVizFieldOperations.c:475-479 | An independent basis that the absolute tolerance refuses |
| `LeastSquares.NearYetAccepted` | src/Algorithms/FVizFieldOperations.c:475-479 | Why the two bounds on refusal differ: two columns whose dependence is within the tolerance, yet accepted |
| `LeastSquares.NearDependenceInSamples` | src/Algorithms/FVizFieldOperations.c:449-479 | Near dependence shows in the samples: the squares of the combination add up to no more than the bound times the magnitudes of its coefficients |
| `Elimination.EliminationReaches` | src/Algorithms/FVizFieldOperations.c:461-505 | As long as it goes on, elimination keeps left block = right block times the Gram matrix, the right block invertible and the columns before it reduced |
| `Refusal.RefusedIsNear` | src/Algorithms/FVizFieldOperations.c:461-505 | A refused matrix sends a vector that ends in a one to no more than the tolerance in every entry |
| `Refusal.NearIsRefused` | src/Algorithms/FVizFieldOperations.c:461-505 | A matrix that sends such a vector to no more than t, with t doubled for every earlier column within the tolerance, is refused at that column at the latest |
| `Refusal.SweepBack` | src/Algorithms/FVizFieldOperations.c:480-505 | Undoing a column of the elimination, what rows make of a vector stays as small as it was where the pivot row makes nothing of it |
| `Refusal.SweepGrows` | src/Algorithms/FVizFieldOperations.c:463-505 | With the largest candidate as pivot, a column at most doubles what the rows below make of any vector |
| `Elimination.SingularIsRefused` | src/Algorithms/FVizFieldOperations.c:475-479 | A matrix that sends a non-zero vector to zero is never reduced |
| `FieldGather.Gather` | src/Algorithms/FVizFieldOperations.c:186-280 | Succeeds exactly when source ids are non-negative and unique, target ids non-negative and, under the strict policy, all present; each target carries its own id tuple, or the fill with a zero mask; not-found exactly when a missing id comes before any negative one |
| `FieldGather.FindId` | src/Algorithms/FVizFieldOperations.c:64-76 | Bisection finds an entry with the id if and only if there is one |
| `FieldGather.RepeatsAreAdjacent` | src/Algorithms/FVizFieldOperations.c:219-226 | Source ids are unique if and only if no neighbours in the sorted table agree |
| `FieldGather.SourceOrderDoesNotShow` | src/Algorithms/FVizFieldOperations.c:186-280 | The result depends only on which id carries which tuple |
| `FieldGather.GatherBack` | src/Algorithms/FVizFieldOperations.c:186-280 | Gathering to new places and back restores every tuple asked for |
| `CleanPoints.QuantizeNeighbor` | src/Algorithms/FVizPolyDataFilters.c:748-801 | Coordinates within one tolerance quantize to the same or adjacent cells, also where cells saturate |
| `CleanPoints.MatchIsNearby` | src/Algorithms/FVizPolyDataFilters.c:748-801 | Matching points are in cells that the search visits |
| `CleanPoints.PointMerger.SearchBlock` | src/Algorithms/FVizPolyDataFilters.c:1104-1136 | The hashed search of the surrounding cells finds a match exactly when some kept point matches |
| `CleanPoints.PointMerger.MergePoint` | src/Algorithms/FVizPolyDataFilters.c:1097-1153 | A point is mapped to a match, or kept when brute force finds none |
| `CleanPoints.MergePoints` | src/Algorithms/FVizPolyDataFilters.c:1049-1153 | The kept points are the greedy brute-force ones, each taken from its input, and every input point maps to a kept point within the tolerance |
| `CleanPoints.GreedySeparated` | src/Algorithms/FVizPolyDataFilters.c:1097-1153 | Kept points are pairwise farther apart than the tolerance |
| `CleanPoints.GreedyIdempotent` | src/Algorithms/FVizPolyDataFilters.c:1097-1153 | Cleaning what was cleaned merges nothing |
| `CleanPoints.SeparatedMapsToItself` | src/Algorithms/FVizPolyDataFilters.c:1097-1153 | On separated points every point maps to itself |
| `CleanPoints.BucketCount` | src/Algorithms/FVizPolyDataFilters.c:779-786 | A power of two of at least 16 and twice the points, as far as the size type reaches |
| `CompositeFilter.Run` | src/Algorithms/FVizCompositeGeometryFilter.c:444-607 | Over any run of edits, capacity changes and requests, every answer is the recursive map of the input of that moment: the cache is invisible |
| `CompositeFilter.Filter.Request` | src/Algorithms/FVizCompositeGeometryFilter.c:444-607 | A request returns the recursive map of the current input whatever the cache held; afterwards only leaves of the tree are cached, within the budget |
| `CompositeFilter.Filter.Walk` | src/Algorithms/FVizCompositeGeometryFilter.c:500-546 | The worklist terminates and leaves exactly the leaves that missed to be filled |
| `CompositeFilter.Filter.Leaf` | src/Algorithms/FVizCompositeGeometryFilter.c:523-545 | A leaf is filled from a current entry or postponed |
| `CompositeFilter.Filter.CommitAll` | src/Algorithms/FVizCompositeGeometryFilter.c:581-588 | Committing in order fills every postponed leaf, and keeps index and entries a bijection when no leaf occurs twice |
| `CompositeTrees.CoveredIsMapped` | src/Algorithms/FVizCompositeGeometryFilter.c:377-442 | With no job left every composite reads back as the recursive map of its source: names, empty slots and nesting kept |
| `CompositeTrees.CompositeAssigned` | src/Algorithms/FVizCompositeGeometryFilter.c:377-442 | Replacing a composite job by the jobs of its children loses no slot |
| `CompositeTrees.LeafFailsMap` | src/Algorithms/FVizCompositeGeometryFilter.c:566-580 | One leaf that does not convert fails the whole map |
| `GeometryCache.Cache.Lookup` | src/Algorithms/FVizCompositeGeometryFilter.c:137-157 | A hit needs the same modification time and renews the entry; a miss changes nothing |
| `GeometryCache.Cache.RemoveAt` | src/Algorithms/FVizCompositeGeometryFilter.c:159-184 | The entry leaves list, index and byte count, the last one taking its place |
| `GeometryCache.Cache.Prune` | src/Algorithms/FVizCompositeGeometryFilter.c:186-214 | Exactly the entries of the current generation stay |
| `GeometryCache.Cache.EnforceBudget` | src/Algorithms/FVizCompositeGeometryFilter.c:216-238 | The total ends within the budget, only least recently used entries go, and no more of them than needed |
| `GeometryCache.Cache.Commit` | src/Algorithms/FVizCompositeGeometryFilter.c:240-316 | A conversion goes to the known entry, to a new one, or nowhere when oversize; index and entries stay a bijection exactly when the input had no slot |
| `GeometryCache.Cache.SetCapacity` | src/Algorithms/FVizCompositeGeometryFilter.c:708-717 | After a capacity change the total is within a non-zero budget, by least recent removals that were needed |
| `GeometryCache.Cache.NewGeneration` | src/Algorithms/FVizCompositeGeometryFilter.c:456-465 | No entry belongs to a new generation yet; at the counter limit the cache is emptied |
| `GeometryCache.PrunedIsExact` | src/Algorithms/FVizCompositeGeometryFilter.c:186-214 | Closing the gaps in place leaves exactly the entries of the generation, as they were |
| `SmoothAdjacency.BuildAdjacency` | src/Algorithms/FVizMeshProcessingFilters.c:68-185 | Every slice is the other corners of the triangles at its point, repeats included, with no write outside it; a point is flagged if and only if it ends a side that occurs once |
| `SmoothAdjacency.DegreeCountsCorners` | src/Algorithms/FVizMeshProcessingFilters.c:110-123 | The degree of a point is two for each triangle corner at it |
| `SmoothAdjacency.NeighboursAreMutual` | src/Algorithms/FVizMeshProcessingFilters.c:135-146 | q is listed for p as often as p for q |
| `SmoothAdjacency.SlicesFill` | src/Algorithms/FVizMeshProcessingFilters.c:124-134 | Slices fill the neighbour list without gaps |
| `SmoothAdjacency.RoomLeft` | src/Algorithms/FVizMeshProcessingFilters.c:135-146 | The cursor of a point never reaches the next slice |
| `SmoothAdjacency.BoundaryMeansOneSide` | src/Algorithms/FVizMeshProcessingFilters.c:147-161 | A lone packed key is an edge with one triangle side, and conversely |
| `EdgeKeys.EdgeKeyInjective` | src/Algorithms/FVizMeshProcessingFilters.c:54-59 | Packed edge keys agree exactly when the undirected edges do |
| `Smoothing.SmoothMesh` | src/Algorithms/FVizMeshProcessingFilters.c:210-289 | Whatever the sweeps and the split of each, no point leaves any box that held the input, kept rims and loose points stay put; refused exactly on invalid triangles or none |
| `Smoothing.Smooth` | src/Algorithms/FVizMeshProcessingFilters.c:247-269 | The double buffer computes the sweeps one after the other, independent of the split |
| `Smoothing.SweepsStayInBox` | src/Algorithms/FVizMeshProcessingFilters.c:187-208 | With relaxation in [0, 1] any number of sweeps stays inside a box that held all points |
| `Smoothing.PinnedStay` | src/Algorithms/FVizMeshProcessingFilters.c:187-208 | Pinned points never move |
| `Smoothing.OvershootLeavesBox` | src/Algorithms/FVizMeshProcessingFilters.c:344-350 | Why the setter refuses a relaxation above one |
| `Decimation.CellKeyInjective` | src/Algorithms/FVizMeshProcessingFilters.c:710-713 | 21-bit packing loses nothing |
| `Decimation.SameKeyMeansSameCell` | src/Algorithms/FVizMeshProcessingFilters.c:705-713 | Points share a key exactly when they share a grid cell |
| `Decimation.ClusterPoints` | src/Algorithms/FVizMeshProcessingFilters.c:705-729 | Clusters are numbered by first point and hold the sum and the number of their points |
| `Decimation.ClustersAreCells` | src/Algorithms/FVizMeshProcessingFilters.c:705-729 | Points share a cluster exactly when they share a cell; no cluster is empty; counts add up to the points |
| `Decimation.Sort3` | src/Algorithms/FVizMeshProcessingFilters.c:451-475 | Sorts three ids |
| `Decimation.AscendingIsCanonical` | src/Algorithms/FVizMeshProcessingFilters.c:451-475 | Ascending ids agree exactly when the unordered triples do |
| `Decimation.FirstsRepresent` | src/Algorithms/FVizMeshProcessingFilters.c:750-775 | Every record has a kept one of its triple with the smallest source |
| `Decimation.Decimate` | src/Algorithms/FVizMeshProcessingFilters.c:626-784 | Each unordered triple of different clusters that a triangle hits is kept once, oriented as its smallest source, and nothing else; refused exactly without triangles |
| `Contour.NoneOrTwo` | src/Algorithms/FVizContourFilter.c:86-120 | A level crosses no side of a triangle or two |
| `Contour.CrossingHitsLevel` | src/Algorithms/FVizContourFilter.c:86-120 | The crossing lies on its edge and interpolates exactly to the level |
| `Contour.CrossingIsShared` | src/Algorithms/FVizContourFilter.c:86-120 | Both triangles at an edge compute the same crossing point |
| `Contour.EndsCountSides` | src/Algorithms/FVizContourFilter.c:86-120 | A crossed edge carries one segment end for each of its triangle sides |
| `Contour.ContoursClose` | src/Algorithms/FVizContourFilter.c:86-120 | At an edge of two triangles ends come in pairs at one point |
| `Contour.LineEndsAreSides` | src/Algorithms/FVizContourFilter.c:265-299 | At every position a level has as many line ends as triangle sides whose edge it meets there |
| `Contour.LevelCloses` | src/Algorithms/FVizContourFilter.c:265-299 | On a closed mesh an even number of line ends of a level meet at every position |
| `Contour.ContourChunks` | src/Algorithms/FVizContourFilter.c:86-120 | Chunks that cover all slots fill each with its own segment, whatever their order |
| `Contour.Execute` | src/Algorithms/FVizContourFilter.c:183-331 | Lines come level by level in triangle order, whatever the split; on a closed mesh the points of the output pair up at every position and level; refused exactly when the points would not fit 32-bit indices |
| `Contour.MeshJoinsLineEnds` | src/Algorithms/FVizContourFilter.c:288-307 | Each line joins its own two points, which lie at its ends and carry its level |
| `Contour.GridIndex` | src/Algorithms/FVizContourFilter.c:288-291 | Slot indices of level and triangle are unpacked as they were packed |

## Left out

- Rounding, NaN and infinities: all arithmetic is over exact reals, with the comparisons strict or not as the code has
  them; the finiteness test of the evaluator is a parameter of the plan.
- Attribute data: copying, interpolation and averaging of point and cell data in every filter, truncating writes included.
- Allocation failure, reference counts, error strings, progress, cancellation and abort requests.
- The pipeline around the filters: requests, ports, setters other than the bounds they enforce, observers.
- Mesh validation before a filter runs, other than triangle ids: Contour, Decimation and FeatureEdges take meshes that
  have passed it; `ClipFilter.Clip` and `Smoothing.SmoothMesh` model the check on triangle ids.
- Triangle normals, computed on the outputs of clipping, smoothing and decimation.
- Threads: a parallel loop is any list of chunks that covers its range, run one after the other.
- The projection axes of a cap are a parameter: the theorems hold for any pair of axes, so for the pair that the plane's
  normal gives.
- Plane distances are not divided by the length of the normal; the keep test and the crossing parameter do not depend on it.
- Character scanning of numbers: a literal or a component index is one symbol of the source, and error offsets count
  symbols; the 65536-character limit is checked on a length given beside the symbols.
- The depth of recursion of the expression parser and evaluator.
- Binding arrays to variable names, associations and tuple counts of expressions; transcendental functions are parameters.
- The spatial hash function and the bit pattern of a float are parameters of CleanPoints: the theorems hold for any.
- Remapping, degenerate removal and copying of cells in the clean filter, and the append filter.
- The four cell categories of a mesh are one concatenated list in Connectivity.
- Polygon and triangle normals, and the angle of a cosine, are parameters of FeatureEdges.
- Sorting.Sort stands for the C library's qsort; callers rely on its contract alone.
- Cache entries of the composite filter are a table by identity rather than heap objects, identities are never used
  twice, and the byte counter is unbounded; hit and miss statistics and parallel batches are not counted.
- GeometryCache.Cache.Prune: the compaction in place is a loop over list and table values, so aliasing of entries is not
  modelled.
- ExpressionCache.FeedBoth: both serials must have room for the requests, because the order of recency is lost when the
  serial wraps.
- CapFilling.ConvexFills: a condition that is enough for loops of any length; for loops of four points
  CapFilling.FourPoints is exact. For longer loops that are not convex the model has the run of the ear clipping itself.
- ClipOrientation.OrientedWhenNegative: is for manifold meshes; ClipOrientation.OrientedWhenCancelled covers all others.
- Smoothing.OvershootLeavesBox: a relaxation of two cannot be set; the lemma only shows what the bound is for.
- The grid resolution of decimation (a rounded-up square root) is a parameter, as is the copy made when no reduction is
  asked for.
- Contour.Execute: scalars are one value for each point; reading a component of an attribute array is not modelled.
- Weighted averages, discontinuity masks and derived scalars of the field operations; mesh quality, deformation, probes,
  image geometry and the primitive sources would add only easy members.
