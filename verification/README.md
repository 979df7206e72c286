# jsketcher B-Rep topology core in Dafny

This project models the discrete core of jsketcher's boundary-representation
(B-Rep) kernel. That is the half-edge structure of `web/app/brep/topo`, the
builders of `web/app/brep/brep-builder.js`, and the combinatorial steps of the
boolean algorithm in `web/app/brep/operations/boolean.js` and its older copy
`web/app/hds/boolean.js`. It also covers two front-end helpers that feed the
kernel: the sketch reader and the cut-extrude helpers.

Objects that refer to each other directly in the source live in one arena
(`Topo.Arena`). The arena holds maps from integer handles to half-edge, edge,
loop, face and shell records, plus the vertex points. One counter allocates
every handle. A reference that JavaScript leaves `null` or `undefined` is an
`Option`. A call that throws is a `Result` whose error is the thrown kind
(`Unsupported`, `TypeError` or `ReferenceError`).

Geometry is not computed. Every geometric question the code asks comes in as a
function parameter. This covers the dot and cross products of a turn, whether a
loop is CCW or contains a point, the parameter of a point on a curve, the
tangent sign at a node, plane and chunk construction, and surface inversion.
The model states how the topology follows from the answers.

Modules follow the source's structure:

- `Wrappers`: `Option` and `Result`.
- `Seqs`: small sequence helpers (`Reverse`, `IndexOf`, `InsertAt`, cyclic `NextIndex`).
- `Topo`: edge.js, face.js and the arena.
- `Builder`: `linkHalfEdges`, `createHalfEdge`, `iterateSegments`, `linkSegments`, `invertLoop` and `createLoopFromTrimmedCurve`.
- `Extruder`: `createFace`, `createFaceFromTwoEdges` and `Extruder.extrude`.
- `Invert`: `invert(shell)`.
- `LoopDetection`: `initGraph`, `leftTurningMeasure`, `findMaxTurningLeft` and `detectLoops`.
- `FaceFilter`: `traverseFaces`, `isFaceContainNewLoop` and `filterFaces`.
- `Nesting`: `getNestedLoops` and `loopsToFaces`.
- `Nodes`: `nodeNormal`, `calculateNodeNormals`, `filterNodes`, `findCloserOnCurve` and the pairing of nodes that `split` does.
- `SplitEdge`: `splitEdgeByVertex`.
- `Split`: `split`.
- `SolveData`: `addToListInMap`, `removeFromListInMap`, `EdgeSolveData`, `cleanUpSolveData` and `newVertex`.
- `Merge`: `mergeVertices`.
- `Classify`: the discrete part of `classifyPointInsideLoop`, and `classifyPointToFace`.
- `Sketch`: `ReadSketch`, `ReadSketchPoint` and the table building of `sketchToPaths`.
- `CutExtrude`: `fixNegativeValue` and `combineShells`.

`Builder.IterateSegments` models `iterateSegments` on its own, as the trace of
callback calls it makes. `Builder.LinkSegments` and the seam stitching of
`Extruder.Extrude` state their effect directly over the cyclic order. They are
not built on that trace.

## Model

| member | source | states |
|---|---|---|
| Topo.NewEdge | web/app/brep/topo/edge.js:6-25 | a new edge gets two fresh half-edges that point back to it; they are flagged `inverted` false and true, run a→b and b→a, and have no loop, next or prev |
| Topo.NewBareEdge | web/app/brep/topo/edge.js:6-11 | `new Edge(curve)` without endpoints names two distinct fresh half-edge handles with no record, since their endpoints are undefined; only the edge map grows |
| Topo.TwinInvolution | web/app/brep/topo/edge.js:27-29 | on a well-formed edge pair, `twin()` maps each half to the other, so twin of twin is the half-edge itself |
| Topo.TwinOfStranger | web/app/brep/topo/edge.js:27-29 | any half-edge other than its edge's `halfEdge1` gets `halfEdge1` as its twin, whether or not the edge lists it as `halfEdge2` |
| Topo.NewFace | web/app/brep/topo/face.js:7-19 | a new face has the given surface, no shell, no inner loops and a fresh empty outer loop that belongs to it; nothing else in the arena changes |
| Topo.Loops | web/app/brep/topo/face.js:38-45 | `loops` yields the outer loop first when there is one, then every inner loop in order |
| Topo.FaceEdgesMembers | web/app/brep/topo/face.js:47-53 | a half-edge is yielded by `edges` exactly when one of the face's loops holds it |
| Topo.FaceEdgesBlocks | web/app/brep/topo/face.js:47-53 | `edges` is the concatenation of each loop's half-edges, in the order of `loops` |
| Topo.IdRoundTrip | web/app/brep/topo/face.js:15-18 | the `id` written through the setter is the one the getter reads back, and writing back the `id` just read leaves the face as it was |
| Topo.Env2DMemoised | web/app/brep/topo/face.js:25-35 | the 2D environment is computed once; a second read, whatever it would build, returns the cached value and leaves the face as it was |
| Builder.LinkHalfEdges | web/app/brep/brep-builder.js:132-137 | both half-edges point to the edge, the edge points to them as `halfEdge1`/`halfEdge2` and keeps its curve, and when the two differ each is the other's twin; nothing else changes |
| Builder.CreateHalfEdge | web/app/brep/brep-builder.js:152-159 | a fresh half-edge a→b belongs to the loop and is appended at the end of the loop's list; the other records are unchanged |
| Builder.IterateSegments | web/app/brep/brep-builder.js:172-178 | call `i` receives `(items[i], items[(i+1) % n], i, (i+1) % n)`, for each `i` in order |
| Builder.LinkSegments | web/app/brep/brep-builder.js:161-166 | on distinct half-edges every `next` and `prev` follows the cyclic order of the list, and nothing but those links changes |
| Builder.InvertLoopSwaps | web/app/brep/brep-builder.js:180-185 | after `invertLoop` every half-edge of the loop runs from its old end to its old start |
| Builder.InvertLoop | web/app/brep/brep-builder.js:180-188 | the loop's list is reversed; only that loop and its own half-edges change |
| Builder.InvertLoopLinks | web/app/brep/brep-builder.js:186-187 | after inversion `next` and `prev` follow the reversed list cyclically |
| Builder.InvertLoopKeepsChain | web/app/brep/brep-builder.js:180-188 | a closed chain (each half-edge ends where the next starts) stays closed after inversion |
| Builder.InvertLoopTwice | web/app/brep/brep-builder.js:180-188 | inverting a loop whose list is linked in order twice gives back the whole arena |
| Builder.TrimmedChain | web/app/brep/brep-builder.js:139-150 | the half-edges built from trimmed segments form a closed chain: half-edge `i` ends at the vertex where half-edge `i+1` (mod n) starts |
| Builder.CreateLoopFromTrimmedCurve | web/app/brep/brep-builder.js:139-150 | one fresh faceless loop holds one fresh half-edge per segment, each on a new edge of the segment's curve as its `halfEdge1` and starting at a fresh vertex at the segment's start point; the list is a closed chain linked in order |
| Extruder.WallSurfaceAsWritten | web/app/brep/brep-builder.js:200-219 | as written, a wall gets a plane exactly when both curves are lines; a missing curve throws TypeError |
| Extruder.WallSurface | web/app/brep/brep-builder.js:200-219 | with the ApproxCurve branch read as intended, a wall gets a surface exactly when both curves are lines or the two chunks have the same length |
| Extruder.ApproxWallAsWrittenThrows | web/app/brep/brep-builder.js:205-206 | for two ApproxCurve edges the written code throws TypeError, while the intended reading succeeds exactly when the chunks agree; on every other pair the two readings agree |
| Extruder.CreateFace | web/app/brep/brep-builder.js:109-114 | the new face has the surface and the loop as outer loop, the loop's `face` is the new face, and every other record is unchanged |
| Extruder.CreateFaceFromTwoEdges | web/app/brep/brep-builder.js:190-225 | it succeeds exactly when the wall surface can be built and throws what that throws; on success the face's outer loop is `[e1, e1.end→e2.start, e2, e2.end→e1.start]` with `loop.face` set |
| Extruder.WallLoopClosed | web/app/brep/brep-builder.js:192-198 | the four half-edges of a wall loop form a closed chain |
| Extruder.BuildWall | web/app/brep/brep-builder.js:65-71 | two line edges always give a wall, and on half-edges that have edges any failure is `unsupported`; the wall is a new face in no shell whose four new half-edges, linked in order, run base end→base start→lid end→lid start→base end |
| Extruder.BuildWalls | web/app/brep/brep-builder.js:62-72 | all-line input gives `n` walls and, on half-edges that have edges, only `unsupported` can stop it; wall `i` is built from base half-edge `i` and lid half-edge `n-1-i`, and no two walls share a half-edge |
| Extruder.StitchWalls | web/app/brep/brep-builder.js:73-77 | for each wall `k`, half-edge 3 of wall `k` and half-edge 1 of wall `k+1` (mod n) become the two halves of one new seam edge |
| Extruder.AssignShell | web/app/brep/brep-builder.js:83-84 | the shell's faces are the given list and exactly those faces get the shell as theirs |
| Extruder.PrismClosed | web/app/brep/brep-builder.js:79-84 | the finished shell is a prism: `n` distinct walls, the base cap, then the lid cap, all naming the shell, with half-edge 3 of each wall and half-edge 1 of the next sharing a line seam edge |
| Extruder.Extrude | web/app/brep/brep-builder.js:47-85 | all-line contours always extrude; the base surface is inverted when `reverse` is set; the result is a prism on a fresh shell whose base cap lies on that surface and whose lid cap lies on the lid surface made from it |
| Invert.InvertShellFaces | web/app/brep/operations/boolean.js:48-53 | every face of the shell gets the inverted surface and its `INVERTED` flag negated, and faces outside the shell are untouched |
| Invert.InvertShellLoops | web/app/brep/operations/boolean.js:51-53 | every loop of the shell's faces has its half-edge list reversed, and every other loop is untouched |
| Invert.InvertShellMember | web/app/brep/operations/boolean.js:59-61 | a half-edge of an inverted loop runs the other way and keeps its edge, its flag and its loop |
| Invert.InvertShellTwice | web/app/brep/operations/boolean.js:48-57 | inverting a shell twice restores every half-edge, loop and flag; each surface becomes the inverse of its inverse |
| LoopDetection.InitGraph | web/app/brep/operations/boolean.js:165-170 | a vertex is a key exactly when some half-edge starts there, and its list is those half-edges in face order |
| LoopDetection.MeasureRange | web/app/brep/operations/boolean.js:291-300 | for `dot` in [-1, 1] a turn with a non-negative cross sign scores in [0, 2] and any other turn in [2, 4], so the sort ranks the latter at least as high |
| LoopDetection.MeasureMonotone | web/app/brep/operations/boolean.js:291-300 | on one side the score moves with `dot`: it falls as `dot` grows for a non-negative cross sign and rises otherwise |
| LoopDetection.FindMaxTurningLeftSpec | web/app/brep/operations/boolean.js:279-289 | there is no winner exactly when the list is empty; otherwise the winner is a candidate that scores at least as high as every other and beats every later one, as the last element after the stable ascending sort |
| LoopDetection.WalkFromIsWalk | web/app/brep/operations/boolean.js:123-152 | continuing a walk yields a walk of distinct unseen half-edges, each the turn winner after the one before, and the seen set grows by exactly its members |
| LoopDetection.DetectedClosedWalks | web/app/brep/operations/boolean.js:111-163 | every walk the reference keeps is a walk of unseen turn winners whose last half-edge ends where its first starts |
| LoopDetection.LoopsDisjoint | web/app/brep/operations/boolean.js:154-159 | since each found loop's half-edges point to it, no half-edge is in two found loops |
| LoopDetection.DetectLoops | web/app/brep/operations/boolean.js:111-163 | the half-edge lists of the loops found are exactly, in order, the walks of the reference `Detected`, which pops half-edges from the end, skips seen ones, walks from each other one and keeps the walk exactly when it closes; each is a fresh loop of the face whose half-edges point to it and are linked cyclically, and half-edges outside them are unchanged |
| FaceFilter.TwinFaces | web/app/brep/operations/boolean.js:240-246 | reading the faces across the half-edges throws TypeError exactly when some twin has no edge or no loop; otherwise the faces pushed are exactly the valid faces across them |
| FaceFilter.TraverseSpec | web/app/brep/operations/boolean.js:230-250 | the depth-first search answers true exactly when a face it can reach from the start satisfies the callback |
| FaceFilter.TraverseFacesSpec | web/app/brep/operations/boolean.js:230-250 | over valid faces, `traverseFaces` answers true exactly when some face reachable through twins is hit |
| FaceFilter.TraverseFacesOk | web/app/brep/operations/boolean.js:230-250 | when the start is valid and every valid face can be visited without throwing, the search does not throw |
| FaceFilter.ContainsNewLoop | web/app/brep/operations/boolean.js:221-228 | a face qualifies exactly when one of its loops is a new loop |
| FaceFilter.FilterFacesSpec | web/app/brep/operations/boolean.js:207-219 | the result has no repeats, and a face is in it exactly when it is one of the faces and reaches, through valid faces, a face with a new loop |
| FaceFilter.FilterFacesOk | web/app/brep/operations/boolean.js:207-219 | when every face can be visited, `filterFaces` does not throw |
| Nesting.ContaineesIff | web/app/hds/boolean.js:270-297 | loop `j` is in loop `i`'s nesting exactly when `j != i` and loop `i` contains `j` |
| Nesting.ContainersZero | web/app/hds/boolean.js:270-297 | a loop's level is zero exactly when no other loop contains it |
| Nesting.NestingIff | web/app/hds/boolean.js:270-297 | for any two loops, `j` appears in the nesting of `i` exactly when they differ and loop `i` contains loop `j` |
| Nesting.GetNestedLoops | web/app/hds/boolean.js:270-297 | the loop builds the reference nesting table, and the roots it returns are exactly the level-0 loops, in increasing index order |
| Nesting.LevelCountsNesting | web/app/hds/boolean.js:270-297 | a loop's level equals the number of entries of the table whose nesting lists it |
| Nesting.InvertSurface | web/app/hds/boolean.js:222-231 | the origin surface goes to its inverse, made on first use and cached; any other surface goes back to the origin with the cache unchanged; once cached, the cache never changes |
| Nesting.InvertSurfaceCached | web/app/hds/boolean.js:222-231 | over two calls `invert()` runs at most once, and asking twice for the origin surface's inverse returns the same surface and leaves the cache as it was |
| Nesting.LoopsToFacesSpec | web/app/hds/boolean.js:219-268 | only faces are added and loops repointed: half-edges, edges and existing faces are untouched, loops keep their half-edges, and each new face is fresh, distinct from the others, has one of the call's loops as outer loop, inner loops from the call, the origin's data and either the origin surface or its inverse |
| Nesting.LoopsToFacesRouting | web/app/hds/boolean.js:245-256 | a child one level down that is not CCW becomes an inner loop of the current face; a CCW child one level down, or any child two levels down, starts a new face; each loop's `face` is the face that holds it |
| Nesting.LoopsToFacesFirst | web/app/hds/boolean.js:263-267 | when faces were created, the first one's outer loop is the first root's loop and it takes the origin face's id |
| Nodes.NodeNormal | web/app/brep/operations/boolean.js:538-551 | the node normal is 0 when the dot product is near zero, otherwise the dot product's sign |
| Nodes.CalculateNodeNormals | web/app/brep/operations/boolean.js:350-360 | every present node gets its normal, and exactly those whose normal is 0 become null |
| Nodes.FilterNodes | web/app/brep/operations/boolean.js:362-379 | entries are only ever nulled, and the survivors are exactly the reference ones: of the nodes on one vertex only the first can stay, and it stays unless another node there has the opposite normal |
| Nodes.FilteredNoSharedVertex | web/app/brep/operations/boolean.js:362-379 | after filtering no two surviving nodes share a vertex |
| Nodes.FilterIdempotent | web/app/brep/operations/boolean.js:362-379 | filtering an already filtered list changes nothing |
| Nodes.FindCloserOnCurve | web/app/brep/operations/boolean.js:510-525 | -1 exactly when no present node has a signed distance (origin minus its parameter, times its normal) that is non-negative and below `Number.MAX_VALUE`; otherwise such a node at the least distance, the earliest of those |
| Nodes.ClosestUnique | web/app/brep/operations/boolean.js:510-525 | at most one index meets the closest-node description, so the answer is determined |
| Nodes.PairingPartner | web/app/brep/operations/boolean.js:413-433 | each pair `split` decides on joins a node with its closest partner, and the two normals are not both on one side |
| Nodes.PairingDisjoint | web/app/brep/operations/boolean.js:413-433 | no node is used in two pairs |
| SplitEdge.SplitEdgeByVertex | web/app/brep/operations/boolean.js:473-508 | a missing edge throws TypeError; an end vertex leaves everything as it was; otherwise the cut succeeds exactly when both loops' lists are readable |
| SplitEdge.CutRecords | web/app/brep/operations/boolean.js:475-481 | the original half-edge and its twin now end at the vertex, the twin moves to a new edge, and two fresh half-edges in the same loops run from the vertex to the old ends |
| SplitEdge.CutEdges | web/app/brep/operations/boolean.js:494-495 | the old edge pairs the original with the new twin, and a new edge on the same curve pairs the twin with the new original |
| SplitEdge.CutLoops | web/app/brep/operations/boolean.js:497-501 | each new half-edge is spliced right after its partner in the partner's loop list (both splices in one list when the two share a loop); other loops, points, faces and shells are unchanged |
| SplitEdge.CutStore | web/app/brep/operations/boolean.js:503-504 | the new half-edges carry the solve data of the halves they were split from, and no other entry changes |
| SplitEdge.CutKeepsChain | web/app/brep/operations/boolean.js:473-508 | a loop that was a closed chain is still a closed chain after the cut |
| SplitEdge.SplitAgainNoOp | web/app/brep/operations/boolean.js:486-488 | a split at an inner vertex cuts, and splitting the same half-edge again at that vertex does nothing |
| SplitEdge.InsertAfterMultiset | web/app/brep/operations/boolean.js:497-498 | the splice adds exactly the new half-edge to the list's multiset |
| Split.CrossEdgeTwins | web/app/brep/operations/boolean.js:439-464 | the two halves of a cross edge are each other's twins |
| Split.CrossStep | web/app/brep/operations/boolean.js:439-469 | a call without `direction` throws TypeError; a call whose `containsEdges` cannot run throws ReferenceError once both splits succeed; otherwise it succeeds exactly when both splits do |
| Split.Split | web/app/hds/boolean.js:439-497 | with `areEdgesEqual` supplied, a successful `split` leaves every handle of the arena below its next-handle counter and lists in `result` only edges present in the arena; the full effect is `Split.SplitAddsCrossEdges` |
| Split.SplitAsCalled | web/app/brep/operations/boolean.js:331 | called with the curve list and no direction, a successful `split` leaves every handle below the counter and lists only edges present in the arena; when it succeeds is `Split.SplitAsCalledThrows` |
| Split.SplitHdsAsWritten | web/app/hds/boolean.js:439-509 | as written, with `areEdgesEqual` undefined, a successful `split` leaves every handle below the counter and lists only edges present in the arena; how far it gets is `Split.SplitHdsAsWrittenAtMostOne` and `Split.AreEdgesEqualMissing` |
| Split.SplitAddsCrossEdges | web/app/hds/boolean.js:439-497 | with `areEdgesEqual` supplied, a successful `split` keeps every existing edge, and lists in `result` only new, distinct edges, each with two detached halves running between the same two vertices in opposite directions |
| Split.SplitKeepsIntact | web/app/hds/boolean.js:477-478 | splitting a loop half-edge between pairs leaves every edge already in `result` new, distinct and well formed, since their halves lie in no loop |
| Split.SplitHdsAsWrittenAtMostOne | web/app/hds/boolean.js:493-509 | as written, with `areEdgesEqual` undefined, a successful `split` has made at most one cross edge |
| Split.AreEdgesEqualMissing | web/app/hds/boolean.js:499-509 | on an empty `result` the undefined `areEdgesEqual` is never reached; on a non-empty one it throws ReferenceError where the defined version goes on |
| Split.SplitAsCalledThrows | web/app/brep/operations/boolean.js:331 | called as the newer file calls it, with the curve list and no direction, `split` throws TypeError exactly when some node is present |
| Split.SplitNoDirection | web/app/brep/operations/boolean.js:454 | without `direction`, `split` throws TypeError as soon as a pair is formed, and otherwise returns with nothing added |
| Split.NoContainsEdgesThrows | web/app/brep/operations/boolean.js:467 | in the newer file, `containsEdges` is not defined, so every pair whose splits succeed throws ReferenceError |
| SolveData.AddToListInMap | web/app/brep/operations/boolean.js:632-639 | the value is appended to the key's list, which is created empty if absent; other keys are unchanged |
| SolveData.RemoveFromListInMap | web/app/hds/boolean.js:994-1002 | one occurrence of the value leaves the key's list (its multiset loses exactly that element); a missing key or value changes nothing |
| SolveData.RemoveAfterAdd | web/app/hds/boolean.js:985-1002 | adding a value the list does not hold and removing it again restores the map, except that a key that was absent is left with an empty list |
| SolveData.CreateIfEmptyIdempotent | web/app/brep/operations/boolean.js:569-574 | calling `createIfEmpty` twice gives the same store and the same data as calling it once |
| SolveData.MarkNew | web/app/brep/operations/boolean.js:345 | the half-edge's data afterwards has `newEdgeFlag` set, and every other half-edge reads the same data as before |
| SolveData.Clear | web/app/brep/operations/boolean.js:576-578 | the half-edge has no data afterwards and the others keep theirs |
| SolveData.TransferShares | web/app/brep/operations/boolean.js:580-582 | after a transfer the target reads the same data as the source, and the source keeps it |
| SolveData.CleanUpSolveData | web/app/brep/operations/boolean.js:270-277 | the face data of the listed faces and the edge data of their half-edges are removed, and nothing else |
| SolveData.NewVertexMemoStable | web/app/brep/operations/boolean.js:527-536 | once a point has a vertex, asking again, whatever coordinates are passed, returns that vertex and changes neither the arena nor the memo |
| Merge.MergeVertices | web/app/brep/operations/boolean.js:176-198 | only half-edge records change, and no half-edge is added or removed; half-edges outside shell 2's faces keep their records; when shell 2's faces list each half-edge once, each of them has its endpoints replaced through the swap map and nothing else changed |
| Merge.ToSwapSpec | web/app/brep/operations/boolean.js:176-198 | a vertex of shell 2 is mapped exactly when some vertex of shell 1 passes the point-equality test against it, and it maps to the last such vertex |
| Merge.SwappedEndpoint | web/app/brep/operations/boolean.js:186-196 | a half-edge endpoint on a shell-2 vertex becomes that vertex's last shell-1 match, or stays when there is none |
| Merge.NoMatchNoChange | web/app/brep/operations/boolean.js:176-198 | when no shell-1 vertex matches any shell-2 vertex, every half-edge is left as it was |
| Merge.SwappedIdempotent | web/app/brep/operations/boolean.js:176-198 | when the shells share no vertex, swapping a half-edge's endpoints a second time changes nothing |
| Classify.VertexHitFirst | web/app/hds/boolean.js:812-819 | the vertex check finds nothing exactly when no vertex of the loop is at the point, and otherwise finds the first one |
| Classify.ClassifyPointInsideLoopVertex | web/app/hds/boolean.js:812-819 | a point on a vertex of the loop is reported inside with that vertex |
| Classify.ClassifyPointInsideLoopNoVertex | web/app/hds/boolean.js:794-860 | a point on no vertex gets the edge-and-ray answer |
| Classify.Grad | web/app/hds/boolean.js:822-842 | a grad is 0 exactly when the difference is near zero, 1 when it is positive and -1 otherwise |
| Classify.NextGradSpec | web/app/hds/boolean.js:844-851 | `nextGrad` is none exactly when every grad is 0, and otherwise the first non-zero grad scanning forward cyclically from the next index |
| Classify.PrevGradSpec | web/app/hds/boolean.js:853-860 | `prevGrad` is none exactly when every grad is 0, and otherwise the first non-zero grad scanning backward cyclically from the previous index |
| Classify.CcwCorrection | web/app/hds/boolean.js:653-658 | a result is returned as is for a CCW loop and with `inside` negated otherwise |
| Classify.ClassifyPointToFace | web/app/hds/boolean.js:652-680 | a face without an outer loop throws TypeError |
| Classify.ClassifyPointToFaceSpec | web/app/hds/boolean.js:652-680 | an inside vertex or edge hit on the outer loop is the answer; otherwise the first inner loop that hits or holds the point decides, its hit returned as is or, when the point is inside it, the outer result corrected by that inner loop's winding; with no such loop, the outer result corrected by the outer loop's winding |
| Classify.ClassifyHitUnchanged | web/app/hds/boolean.js:663-677 | when the answer is a vertex or edge hit (and a hit on the outer loop is inside it), it is exactly one loop's own classification, with no winding correction applied |
| Sketch.Coord | web/app/3d/craft/sketch/sketch-reader.js:62-64 | a coordinate is the second entry of its pair and is undefined when the pair has fewer than two entries |
| Sketch.ReadSketchPoint | web/app/3d/craft/sketch/sketch-reader.js:62-64 | a point is read exactly when the array has at least three entries; `z` is 0 and `x`, `y` come from `arr[1][1]` and `arr[2][1]` when present |
| Sketch.ReadObject | web/app/3d/craft/sketch/sketch-reader.js:19-55 | objects bound to an edge, auxiliary objects, unknown classes and non-segments on the construction layer give nothing; any other object whose points can be read gives a shape of its own class, placed on the construction list exactly when it comes from the construction layer, else on the connections (segments, arcs, elliptical arcs, Bézier curves) or loops (circles, ellipses) |
| Sketch.ReadSketch | web/app/3d/craft/sketch/sketch-reader.js:12-59 | without layers the result is empty; otherwise its lists together hold one item per emitted object, and no construction segments unless asked for; which items and in what order is `Sketch.ReadSketchContents` |
| Sketch.ReadSketchContents | web/app/3d/craft/sketch/sketch-reader.js:12-59 | each list holds exactly the emitted objects bound for it, in emission order, the object emitted `k`-th in the whole sketch carrying the id `faceId:k` and its own shape |
| Sketch.PositionsBound | web/app/3d/craft/sketch/sketch-reader.js:13-16 | every position recorded for a list is an emission index of an object bound for that list |
| Sketch.PositionsIncreasing | web/app/3d/craft/sketch/sketch-reader.js:13-16 | the positions recorded for a list strictly increase, so each list keeps emission order and holds no object twice |
| Sketch.PositionsComplete | web/app/3d/craft/sketch/sketch-reader.js:13-16 | every object bound for a list is recorded at its emission index, so no object is lost |
| Sketch.SelectAtPositions | web/app/3d/craft/sketch/sketch-reader.js:13-16 | filtering the numbered objects by list gives, item by item, the numbered object at each recorded position |
| Sketch.ReadSketchIdsUnique | web/app/3d/craft/sketch/sketch-reader.js:13-16 | every id `faceId:k` is given once, so no two items of the output share an id |
| Sketch.ReadSketchRouting | web/app/3d/craft/sketch/sketch-reader.js:26-54 | connections hold only segments, arcs, elliptical arcs and Bézier curves; loops hold only circles and ellipses; construction segments hold only segments |
| Sketch.MemDir | web/app/3d/craft/sketch/sketch-reader.js:89-97 | `b` is appended to `a`'s neighbours, and `a` joins `points` the first time it is seen |
| Sketch.BuildAdjacency | web/app/3d/craft/sketch/sketch-reader.js:99-106 | each point's neighbours are the other ends of its segments in segment order, and `points` lists each point once |
| Sketch.EdgeTable | web/app/3d/craft/sketch/sketch-reader.js:105 | the key `(a, b)` is present exactly for the segments from `a` to `b`, and maps to the last of them |
| Sketch.Contours | web/app/3d/craft/sketch/sketch-reader.js:126-146 | contours exist exactly when every step of every loop finds its edge one way or the other; loops with fewer than three segments are dropped |
| Sketch.SketchToPaths | web/app/3d/craft/sketch/sketch-reader.js:77-155 | paths exist exactly when every found loop chains through the segment table; they are the contours of the loops with at least three segments, then one closed path per closed curve, reversed when it is not CCW |
| CutExtrude.FixNegativeValue | web/app/3d/craft/brep/cut-extrude.js:61-66 | a non-negative depth comes back as the very argument; a negative one comes back in a copy with the depth negated and every other field kept; the depth is never negative afterwards |
| CutExtrude.FixNegativeValueIdempotent | web/app/3d/craft/brep/cut-extrude.js:61-66 | fixing the fixed parameters again returns them as they are, without a copy, and the depth keeps its magnitude |
| CutExtrude.CombineShells | web/app/3d/craft/brep/cut-extrude.js:69-75 | a single shell is returned as is with nothing changed; otherwise one new shell holds the faces of all the shells in order, and no other record changes |
| CutExtrude.AllFacesContents | web/app/3d/craft/brep/cut-extrude.js:69-75 | a face is in the combined list exactly when one of the shells holds it, and the list is as long as the shells' face lists together |

## Left out

- Floating point: coordinates, measures and distances are reals, so NaN, `-0` and the `TOLERANCE` comparisons of `math.areEqual` are not modelled. A tolerance test comes in as a predicate parameter (`nearZero`) where the code uses one.
- Geometry is abstract: vector arithmetic, curve and surface intersection, tangents, `isCCW`, `contains`, `normalOfCCWSeq`, `getChunk`, surface inversion and movement are parameters whose answers the model takes as given.
- The ray-crossing part of `classifyPointInsideLoop` (web/app/hds/boolean.js:862-983) is geometric. Its answer is a parameter of `Classify.ClassifyPointInsideLoop`; the vertex test, the grads and `nextGrad`/`prevGrad` are modelled.
- `BooleanAlgorithm`, `intersectFaces`, `intersectCurvesWithEdge` and `collectNodesOfIntersection` orchestrate the steps above around curve intersection, which is geometry; the steps are modelled one by one.
- Rendering, tessellation, the validator (`BREPValidator.validateToConsole` at web/app/brep/operations/boolean.js:56 only reports to the console), the `__DEBUG__` calls and `duplicatePointTest` are left out.
- Extruder.Extrude: its `r.Err? ==> r.error == Unsupported` holds for the intended ApproxCurve branch (`Extruder.WallSurface`). The written branch reads `e1.edge.vertexA`, which `Edge` does not have, and throws TypeError (see Findings). `Extruder.CreateFaceFromTwoEdges` and `Extruder.BuildWall` build on the same intended branch.
- Extruder.Extrude: `onWallCallback` (web/app/brep/brep-builder.js:69, 88-89) is an empty hook and the `role` strings (lines 68, 80-81) are labels; neither is modelled.
- Split.SplitHdsAsWritten: it is the hds `split` as written except for the `splitEdgeByVertex` it composes, which is the newer file's (`SplitEdge.SplitEdgeByVertex`) for the reason given on the next line.
- Split.Split: it composes the newer file's `splitEdgeByVertex` (`SplitEdge.SplitEdgeByVertex`). The hds copy's own `splitEdgeByVertex` (web/app/hds/boolean.js:513-548) uses `.a`/`.b`, `loop.edges` and `BREPBuilder.linkedges` from a `../brep-builder` that is not part of this model.
- SolveData.Transfer: it copies the data by value. The source shares one object (web/app/brep/operations/boolean.js:580-582). After `transfer(orig, newOrig)`, a later `createIfEmpty(orig).newEdgeFlag = true` also marks `newOrig`, so `SolveData.MarkNew`'s "other half-edges unchanged" does not hold of the source after a transfer.
- SolveData.MarkNew: its frame (every other half-edge reads the same data) holds of the value-copy store; in the source it fails for a half-edge that shares its data object with the marked one through an earlier `transfer`.
- SplitEdge.SplitEdgeByVertex: when reading a loop's list throws, the source has already changed the half-edges and edges (web/app/brep/operations/boolean.js:490-497). The model returns the error without those partial writes.
- Extruder.CreateFaceFromTwoEdges: when the surface step throws, the source has already set `e1.loop`, `e2.loop` and built the loop (web/app/brep/brep-builder.js:192-198). The model returns the error without those partial writes.
- `new HalfEdge()` (web/app/brep/operations/boolean.js:439, 476) and `HalfEdge.create` are treated as if edge.js exported `HalfEdge`; the edge.js file shown declares the class without `export` (web/app/brep/topo/edge.js:14).
- Sketch.SketchToPaths: `edge.invert()` and `contour.reverse()` (web/app/3d/craft/sketch/sketch-reader.js:134, 141) mutate the shared segment objects. The model records the direction as a flag on the path and does not write it back into `geom.connections`. `Graph.findAllLoops` and `contour.approximate` are parameters.
- Sketch.BuildAdjacency: `HashTable.forVector2d` and `forDoubleArray` compare keys by hash and equality functions; the model uses exact equality of points.
- Sketch.EdgeTable: keys are compared by exact equality of point pairs, for the same reason.
- Merge.MergeVertices: when two of shell 2's faces list the same half-edge, the source swaps its endpoints twice; the contract states the result only for half-edges listed once.
- Merge.ToSwapSpec: point equality is a parameter in place of `math.areVectorsEqual` with tolerance.
- `getSketchedPolygons3D` reads `localStorage` and transfers paths onto a surface; it is I/O and geometry.
- SolveData.NewVertexMemoStable: the `POINT_TO_VERT` map is a global in the source; the model passes the memo explicitly.

## Findings

| source | as written | input that shows it | evidently intended | confidence | as-written member | corrected member |
|---|---|---|---|---|---|---|
| web/app/brep/brep-builder.js:205-206 | the ApproxCurve branch reads `e1.edge.vertexA.point`, and `Edge` has no `vertexA` | two ApproxCurve edges: `e1.edge.vertexA` is undefined, so reading `.point` throws TypeError | chunk the curves between the edge's half-edge ends and build an ApproxSurface when the chunks have equal length | high; not executed | Extruder.WallSurfaceAsWritten, Extruder.ApproxWallAsWrittenThrows | Extruder.WallSurface, Extruder.Extrude |
| web/app/hds/boolean.js:508-509 | `isSameEdge` calls `areEdgesEqual`, which the file neither defines nor imports | any `split` call that forms a second cross edge: `containsEdges` over a non-empty `result` throws ReferenceError | compare the new edge with each edge already in `result` | high; not executed | Split.SplitHdsAsWritten, Split.AreEdgesEqualMissing, Split.SplitHdsAsWrittenAtMostOne | Split.Split, Split.SplitAddsCrossEdges |
| web/app/brep/operations/boolean.js:331, 454, 467 | `split(nodes, newEdges, curves)` passes the curve list as `onCurve` and no `direction`; `containsEdges` is not defined in the file | any face pair with a present node: `curve.t` on the list is undefined (TypeError), and a pair that gets through reads `direction.dot` (TypeError) | call `split` per curve with the curve and its direction, as the hds copy does | high; not executed | Split.SplitAsCalled, Split.SplitAsCalledThrows, Split.SplitNoDirection, Split.NoContainsEdgesThrows | Split.Split, Split.SplitAddsCrossEdges |
