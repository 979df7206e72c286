/** Face construction and prism extrusion of `web/app/brep/brep-builder.js`:
    `createFace`, `createFaceFromTwoEdges` and `Extruder.extrude`. The
    geometry these need (the plane through a loop, curve chunking, the lid
    surface) is passed in as functions. */
module Extruder {
  import opened Wrappers
  import opened Seqs
  import opened Topo
  import opened Builder

  /** The geometry `createFaceFromTwoEdges` consults.
      `plane` stands for `createPlaneForLoop(normalOfCCWSeq(points), loop)`
      over the start vertices of the four half-edges; `chunks` for
      `curve.getChunk(a, b).length`; `mesh` for the `ApproxSurface` built
      from the two chunk lists. */
  datatype FaceGeometry = FaceGeometry(
    plane: seq<VertexId> -> Surface,
    chunks: (Curve, VertexId, VertexId) -> nat,
    mesh: (Curve, VertexId, VertexId, Curve, VertexId, VertexId) -> Surface)

  /** `h.edge.curve`, or `None` when `h.edge` is null. */
  function CurveOf(ar: Arena, h: HalfEdgeId): (r: Option<Curve>)
    requires h in ar.halfEdges
    ensures r.Some? <==> ar.halfEdges[h].edge.Some? && ar.halfEdges[h].edge.value in ar.edges
    ensures r.Some? ==> r.value == ar.edges[ar.halfEdges[h].edge.value].curve
  {
    match ar.halfEdges[h].edge
    case Some(e) => if e in ar.edges then Some(ar.edges[e].curve) else None
    case None => None
  }

  /** The two end vertices of `h`'s edge, read from its `halfEdge1`. */
  function EdgeEnds(ar: Arena, h: HalfEdgeId): (r: Option<(VertexId, VertexId)>)
    requires h in ar.halfEdges
    ensures r.Some? <==> CurveOf(ar, h).Some? && ar.edges[ar.halfEdges[h].edge.value].halfEdge1 in ar.halfEdges
    ensures r.Some? ==>
      var h1 := ar.edges[ar.halfEdges[h].edge.value].halfEdge1;
      r.value == (ar.halfEdges[h1].vertexA, ar.halfEdges[h1].vertexB)
  {
    if CurveOf(ar, h).None? then None
    else
      var h1 := ar.edges[ar.halfEdges[h].edge.value].halfEdge1;
      if h1 in ar.halfEdges then Some((ar.halfEdges[h1].vertexA, ar.halfEdges[h1].vertexB)) else None
  }

  /** The surface choice of `createFaceFromTwoEdges` for the loop
      `[e1, _, e2, _]` with start vertices `starts`, exactly as written: the
      `ApproxCurve` branch reads `e1.edge.vertexA.point`, but an `Edge` has
      no `vertexA`, so that branch always throws. The conditions are
      evaluated left to right, so `e2.edge` is only read when `e1`'s curve
      is a `Line` or an `ApproxCurve`. */
  function WallSurfaceAsWritten(ar: Arena, e1: HalfEdgeId, e2: HalfEdgeId, starts: seq<VertexId>,
                                geo: FaceGeometry): (r: Result<Surface, Thrown>)
    requires e1 in ar.halfEdges && e2 in ar.halfEdges
    ensures CurveOf(ar, e1).None? ==> r == Err(TypeError)
    ensures r.Ok? <==> CurveOf(ar, e1) == Some(Line) && CurveOf(ar, e2) == Some(Line)
    ensures r.Ok? ==> r.value == geo.plane(starts)
  {
    match CurveOf(ar, e1)
    case None => Err(TypeError)
    case Some(c1) =>
      if c1.Line? || c1.ApproxCurve? then
        match CurveOf(ar, e2)
        case None => Err(TypeError)
        case Some(c2) =>
          if c1.Line? && c2.Line? then Ok(geo.plane(starts))
          else if c1.ApproxCurve? && c2.ApproxCurve? then Err(TypeError)
          else Err(Unsupported)
      else Err(Unsupported)
  }

  /** Both edges are `ApproxCurve`s with readable end vertices whose
      chunkings have the same length. */
  predicate ChunksAgree(ar: Arena, e1: HalfEdgeId, e2: HalfEdgeId, geo: FaceGeometry)
    requires e1 in ar.halfEdges && e2 in ar.halfEdges
  {
    && CurveOf(ar, e1).Some? && CurveOf(ar, e1).value.ApproxCurve?
    && CurveOf(ar, e2).Some? && CurveOf(ar, e2).value.ApproxCurve?
    && EdgeEnds(ar, e1).Some? && EdgeEnds(ar, e2).Some?
    && geo.chunks(CurveOf(ar, e1).value, EdgeEnds(ar, e1).value.0, EdgeEnds(ar, e1).value.1)
       == geo.chunks(CurveOf(ar, e2).value, EdgeEnds(ar, e2).value.0, EdgeEnds(ar, e2).value.1)
  }

  /** The surface choice with the `ApproxCurve` branch reading the edges'
      own end vertices (those of each edge's `halfEdge1`): two chunkings
      of equal length give a mesh surface, unequal lengths are
      `'unsupported'`. */
  function WallSurface(ar: Arena, e1: HalfEdgeId, e2: HalfEdgeId, starts: seq<VertexId>,
                       geo: FaceGeometry): (r: Result<Surface, Thrown>)
    requires e1 in ar.halfEdges && e2 in ar.halfEdges
    ensures CurveOf(ar, e1).None? ==> r == Err(TypeError)
    ensures CurveOf(ar, e1) == Some(Line) && CurveOf(ar, e2) == Some(Line) ==> r == Ok(geo.plane(starts))
    ensures r.Ok? <==>
      || (CurveOf(ar, e1) == Some(Line) && CurveOf(ar, e2) == Some(Line))
      || ChunksAgree(ar, e1, e2, geo)
  {
    match CurveOf(ar, e1)
    case None => Err(TypeError)
    case Some(c1) =>
      if c1.Line? || c1.ApproxCurve? then
        match CurveOf(ar, e2)
        case None => Err(TypeError)
        case Some(c2) =>
          if c1.Line? && c2.Line? then Ok(geo.plane(starts))
          else if c1.ApproxCurve? && c2.ApproxCurve? then
            match (EdgeEnds(ar, e1), EdgeEnds(ar, e2))
            case (Some((a1, b1)), Some((a2, b2))) =>
              if geo.chunks(c1, a1, b1) != geo.chunks(c2, a2, b2) then Err(Unsupported)
              else Ok(geo.mesh(c1, a1, b1, c2, a2, b2))
            case _ => Err(TypeError)
          else Err(Unsupported)
      else Err(Unsupported)
  }

  /** The two versions differ only on a pair of `ApproxCurve` edges: there
      the one as written always throws a `TypeError`, while the intended one
      builds a surface whenever both edges have readable end vertices and
      their chunk counts agree. */
  lemma ApproxWallAsWrittenThrows(ar: Arena, e1: HalfEdgeId, e2: HalfEdgeId, starts: seq<VertexId>,
                                  geo: FaceGeometry)
    requires e1 in ar.halfEdges && e2 in ar.halfEdges
    ensures var c1 := CurveOf(ar, e1); var c2 := CurveOf(ar, e2);
      if c1.Some? && c1.value.ApproxCurve? && c2.Some? && c2.value.ApproxCurve? then
        && WallSurfaceAsWritten(ar, e1, e2, starts, geo) == Err(TypeError)
        && (EdgeEnds(ar, e1).Some? && EdgeEnds(ar, e2).Some? ==>
             var (a1, b1) := EdgeEnds(ar, e1).value; var (a2, b2) := EdgeEnds(ar, e2).value;
             (WallSurface(ar, e1, e2, starts, geo).Ok? <==>
                geo.chunks(c1.value, a1, b1) == geo.chunks(c2.value, a2, b2)))
      else WallSurfaceAsWritten(ar, e1, e2, starts, geo) == WallSurface(ar, e1, e2, starts, geo)
  {
  }

  // ---------------------------------------------------------------------
  // createFace / createFaceFromTwoEdges

  /** `face.outerLoop = loop`. */
  function SetOuterLoop(ar: Arena, f: FaceId, l: LoopId): (r: Arena)
    requires f in ar.faces
    ensures r.faces.Keys == ar.faces.Keys && r.faces[f] == ar.faces[f].(outerLoop := Some(l))
    ensures forall k :: k in ar.faces && k != f ==> r.faces[k] == ar.faces[k]
    ensures r.halfEdges == ar.halfEdges && r.points == ar.points && r.edges == ar.edges
    ensures r.loops == ar.loops && r.shells == ar.shells && r.nextHandle == ar.nextHandle
  {
    ar.(faces := ar.faces[f := ar.faces[f].(outerLoop := Some(l))])
  }

  /** `loop.face = face`. */
  function SetLoopFace(ar: Arena, l: LoopId, f: FaceId): (r: Arena)
    requires l in ar.loops
    ensures r.loops.Keys == ar.loops.Keys && r.loops[l] == ar.loops[l].(face := Some(f))
    ensures forall k :: k in ar.loops && k != l ==> r.loops[k] == ar.loops[k]
    ensures r.halfEdges == ar.halfEdges && r.points == ar.points && r.edges == ar.edges
    ensures r.faces == ar.faces && r.shells == ar.shells && r.nextHandle == ar.nextHandle
  {
    ar.(loops := ar.loops[l := ar.loops[l].(face := Some(f))])
  }

  /** `createFace(surface, loop)`: a new face on `surface` whose outer loop
      is `loop`, and `loop.face` set to it. (`new Face` first makes an
      empty outer loop of its own, which is then dropped.) */
  function CreateFace(ar: Arena, surface: Surface, l: LoopId): (r: (Arena, FaceId))
    requires Bounded(ar) && l in ar.loops
    ensures var (ar', f) := r;
      && Bounded(ar') && ar'.nextHandle >= ar.nextHandle
      && f !in ar.faces && ar'.faces.Keys == ar.faces.Keys + {f}
      && ar'.faces[f] == Face(surface, None, Some(l), [], FaceData(None, false), None)
      && (forall k :: k in ar.faces ==> ar'.faces[k] == ar.faces[k])
      && ar'.loops.Keys >= ar.loops.Keys
      && ar'.loops[l] == Loop(Some(f), ar.loops[l].halfEdges)
      && (forall k :: k in ar.loops && k != l ==> ar'.loops[k] == ar.loops[k])
      && ar'.halfEdges == ar.halfEdges && ar'.edges == ar.edges
      && ar'.points == ar.points && ar'.shells == ar.shells
  {
    var (ar1, f) := NewFace(ar, surface);
    (SetLoopFace(SetOuterLoop(ar1, f, l), l, f), f)
  }

  /** `e1.loop = loop; e2.loop = loop`. */
  function SetLoops(ar: Arena, e1: HalfEdgeId, e2: HalfEdgeId, l: LoopId): (r: Arena)
    requires e1 in ar.halfEdges && e2 in ar.halfEdges
    ensures r.halfEdges.Keys == ar.halfEdges.Keys
    ensures r.halfEdges[e1] == ar.halfEdges[e1].(loop := Some(l))
    ensures r.halfEdges[e2] == ar.halfEdges[e2].(loop := Some(l))
    ensures forall k :: k in ar.halfEdges && k != e1 && k != e2 ==> r.halfEdges[k] == ar.halfEdges[k]
    ensures r.edges == ar.edges && r.loops == ar.loops && r.faces == ar.faces
    ensures r.points == ar.points && r.shells == ar.shells && r.nextHandle == ar.nextHandle
  {
    var hes := ar.halfEdges[e1 := ar.halfEdges[e1].(loop := Some(l))];
    ar.(halfEdges := hes[e2 := hes[e2].(loop := Some(l))])
  }

  /** The four-sided loop `l` that `createFaceFromTwoEdges(e1, e2)` builds:
      `[e1, c1, e2, c2]` with `c1` running from `e1`'s end to `e2`'s start
      and `c2` from `e2`'s end to `e1`'s start, all four in loop `l`. */
  ghost predicate WallLoop(ar: Arena, ar': Arena, l: LoopId, e1: HalfEdgeId, e2: HalfEdgeId)
    requires e1 in ar.halfEdges && e2 in ar.halfEdges
  {
    && l !in ar.loops && l in ar'.loops
    && var hs := ar'.loops[l].halfEdges;
    && |hs| == 4 && hs[0] == e1 && hs[2] == e2
    && hs[1] !in ar.halfEdges && hs[3] !in ar.halfEdges && hs[1] != hs[3]
    && AllIn(ar', hs)
    && ar'.halfEdges[e1] == ar.halfEdges[e1].(loop := Some(l))
    && ar'.halfEdges[e2] == ar.halfEdges[e2].(loop := Some(l))
    && ar'.halfEdges[hs[1]] == HalfEdge(None, false, ar.halfEdges[e1].vertexB, ar.halfEdges[e2].vertexA, Some(l), None, None)
    && ar'.halfEdges[hs[3]] == HalfEdge(None, false, ar.halfEdges[e2].vertexB, ar.halfEdges[e1].vertexA, Some(l), None, None)
  }

  /** The wall loop of face `f`: its outer loop, owned by it. */
  ghost predicate WallFace(ar: Arena, ar': Arena, f: FaceId, e1: HalfEdgeId, e2: HalfEdgeId)
    requires e1 in ar.halfEdges && e2 in ar.halfEdges
  {
    && f !in ar.faces && f in ar'.faces
    && ar'.faces[f].outerLoop.Some?
    && WallLoop(ar, ar', ar'.faces[f].outerLoop.value, e1, e2)
    && ar'.loops[ar'.faces[f].outerLoop.value].face == Some(f)
  }

  /** What `createFaceFromTwoEdges` leaves alone: every other half-edge,
      every existing loop, the edges, vertices and shells. */
  ghost predicate WallFrame(ar: Arena, ar': Arena, e1: HalfEdgeId, e2: HalfEdgeId) {
    && ar'.halfEdges.Keys >= ar.halfEdges.Keys
    && (forall k :: k in ar.halfEdges && k != e1 && k != e2 ==> ar'.halfEdges[k] == ar.halfEdges[k])
    && (forall k :: k in ar.loops ==> k in ar'.loops && ar'.loops[k] == ar.loops[k])
    && ar'.edges == ar.edges && ar'.points == ar.points && ar'.shells == ar.shells
  }

  /** The state after the first steps of `createFaceFromTwoEdges`: a new
      empty loop `l`, `e1` and `e2` moved into it, and the two connecting
      half-edges `c1`, `c2` created in it. */
  ghost predicate WallStepped(ar: Arena, ar': Arena, l: LoopId, c1: HalfEdgeId, c2: HalfEdgeId,
                              e1: HalfEdgeId, e2: HalfEdgeId)
    requires e1 in ar.halfEdges && e2 in ar.halfEdges
  {
    && Bounded(ar') && WallFrame(ar, ar', e1, e2) && ar'.faces == ar.faces
    && l !in ar.loops && l in ar'.loops && ar'.loops[l] == Loop(None, [])
    && c1 !in ar.halfEdges && c2 !in ar.halfEdges && c1 != c2
    && c1 in ar'.halfEdges && c2 in ar'.halfEdges
    && ar'.halfEdges[e1] == ar.halfEdges[e1].(loop := Some(l))
    && ar'.halfEdges[e2] == ar.halfEdges[e2].(loop := Some(l))
    && ar'.halfEdges[c1] == HalfEdge(None, false, ar.halfEdges[e1].vertexB, ar.halfEdges[e2].vertexA, Some(l), None, None)
    && ar'.halfEdges[c2] == HalfEdge(None, false, ar.halfEdges[e2].vertexB, ar.halfEdges[e1].vertexA, Some(l), None, None)
  }

  /** The first steps of `createFaceFromTwoEdges`. */
  function WallHalfEdges(ar: Arena, e1: HalfEdgeId, e2: HalfEdgeId): (r: (Arena, LoopId, HalfEdgeId, HalfEdgeId))
    requires Bounded(ar) && e1 in ar.halfEdges && e2 in ar.halfEdges
    ensures WallStepped(ar, r.0, r.1, r.2, r.3, e1, e2)
  {
    var x1 := ar.halfEdges[e1];
    var x2 := ar.halfEdges[e2];
    var (ar1, l) := NewLoop(ar);
    var ar2 := SetLoops(ar1, e1, e2, l);
    var (ar3, c1) := CreateHalfEdgeIn(ar2, x1.vertexB, x2.vertexA, l);
    var (ar4, c2) := CreateHalfEdgeIn(ar3, x2.vertexB, x1.vertexA, l);
    (ar4, l, c1, c2)
  }

  /** Listing `[e1, c1, e2, c2]` in the loop completes the wall loop. */
  lemma WallLoopListed(ar: Arena, ar4: Arena, ar5: Arena, l: LoopId, c1: HalfEdgeId, c2: HalfEdgeId,
                       e1: HalfEdgeId, e2: HalfEdgeId)
    requires e1 in ar.halfEdges && e2 in ar.halfEdges
    requires WallStepped(ar, ar4, l, c1, c2, e1, e2)
    requires ar5 == SetLoopHalfEdges(ar4, l, [e1, c1, e2, c2])
    ensures Bounded(ar5) && WallLoop(ar, ar5, l, e1, e2) && ar5.loops[l].face.None?
    ensures WallFrame(ar, ar5, e1, e2) && ar5.faces == ar.faces
  {
    assert AllIn(ar5, [e1, c1, e2, c2]);
  }

  /** The loop-building half of `createFaceFromTwoEdges`: the half-edges
      of `WallHalfEdges` listed as `[e1, c1, e2, c2]`. */
  function BuildWallLoop(ar: Arena, e1: HalfEdgeId, e2: HalfEdgeId): (r: (Arena, LoopId))
    requires Bounded(ar) && e1 in ar.halfEdges && e2 in ar.halfEdges
    ensures Bounded(r.0) && WallLoop(ar, r.0, r.1, e1, e2) && r.0.loops[r.1].face.None?
    ensures WallFrame(ar, r.0, e1, e2) && r.0.faces == ar.faces
  {
    var (ar4, l, c1, c2) := WallHalfEdges(ar, e1, e2);
    var ar5 := SetLoopHalfEdges(ar4, l, [e1, c1, e2, c2]);
    WallLoopListed(ar, ar4, ar5, l, c1, c2, e1, e2);
    (ar5, l)
  }

  /** `createFaceFromTwoEdges(e1, e2)` with the `ApproxCurve` branch as
      intended. The face exists exactly when `WallSurface` finds a surface
      for it; the half-edges `e1`, `e2` join the new loop and nothing else
      that existed before changes. */
  function CreateFaceFromTwoEdges(ar: Arena, e1: HalfEdgeId, e2: HalfEdgeId, geo: FaceGeometry)
    : (r: Result<(Arena, FaceId), Thrown>)
    requires Bounded(ar) && e1 in ar.halfEdges && e2 in ar.halfEdges
    ensures var x1 := ar.halfEdges[e1]; var x2 := ar.halfEdges[e2];
      var w := WallSurface(ar, e1, e2, [x1.vertexA, x1.vertexB, x2.vertexA, x2.vertexB], geo);
      && (r.Ok? <==> w.Ok?)
      && (r.Err? ==> r.error == w.error)
    ensures r.Ok? ==> var (ar', f) := r.value;
      && Bounded(ar') && WallFace(ar, ar', f, e1, e2) && WallFrame(ar, ar', e1, e2)
      && ar'.faces[f].surface == WallSurface(ar, e1, e2,
           [ar.halfEdges[e1].vertexA, ar.halfEdges[e1].vertexB, ar.halfEdges[e2].vertexA, ar.halfEdges[e2].vertexB], geo).value
      && (forall k :: k in ar.faces ==> k in ar'.faces && ar'.faces[k] == ar.faces[k])
  {
    var x1 := ar.halfEdges[e1];
    var x2 := ar.halfEdges[e2];
    var s :- WallSurface(ar, e1, e2, [x1.vertexA, x1.vertexB, x2.vertexA, x2.vertexB], geo);
    var (ar1, l) := BuildWallLoop(ar, e1, e2);
    var (ar2, f) := CreateFace(ar1, s, l);
    assert WallLoop(ar, ar2, l, e1, e2);
    Ok((ar2, f))
  }

  /** The loop of a wall face is a closed chain: each of the four
      half-edges ends where the next begins. */
  lemma WallLoopClosed(ar: Arena, ar': Arena, l: LoopId, e1: HalfEdgeId, e2: HalfEdgeId)
    requires e1 in ar.halfEdges && e2 in ar.halfEdges && WallLoop(ar, ar', l, e1, e2)
    ensures ClosedChain(ar', ar'.loops[l].halfEdges)
  {
    var hs := ar'.loops[l].halfEdges;
    forall i | 0 <= i < 4 ensures ar'.halfEdges[hs[i]].vertexB == ar'.halfEdges[NextOf(hs, i)].vertexA {
      if i == 3 { assert NextOf(hs, 3) == hs[0]; }
      else { assert NextOf(hs, i) == hs[i + 1]; }
    }
  }

  // ---------------------------------------------------------------------
  // Extruder.extrude

  /** `m'` keeps every entry of `m`. */
  ghost predicate Keeps<K, V>(m: map<K, V>, m': map<K, V>) {
    forall k :: k in m ==> k in m' && m'[k] == m[k]
  }

  /** `ar'` only adds to `ar`: every record of `ar` is still there,
      unchanged, and the counter has not gone back. */
  ghost predicate Extends(ar: Arena, ar': Arena) {
    && ar'.nextHandle >= ar.nextHandle
    && Keeps(ar.points, ar'.points) && Keeps(ar.halfEdges, ar'.halfEdges)
    && Keeps(ar.edges, ar'.edges) && Keeps(ar.loops, ar'.loops)
    && Keeps(ar.faces, ar'.faces) && Keeps(ar.shells, ar'.shells)
  }

  lemma ExtendsTrans(a: Arena, b: Arena, c: Arena)
    requires Extends(a, b) && Extends(b, c)
    ensures Extends(a, c)
  {
  }

  /** `h` has an edge whose `halfEdge1` has a record, so the edge's
      curve and end vertices can be read. */
  ghost predicate HasEdge(ar: Arena, h: HalfEdgeId) {
    && h in ar.halfEdges && ar.halfEdges[h].edge.Some?
    && ar.halfEdges[h].edge.value in ar.edges
    && ar.edges[ar.halfEdges[h].edge.value].halfEdge1 in ar.halfEdges
  }

  /** `h` runs from `a` to `b`. */
  ghost predicate Runs(ar: Arena, h: HalfEdgeId, a: VertexId, b: VertexId) {
    h in ar.halfEdges && ar.halfEdges[h].vertexA == a && ar.halfEdges[h].vertexB == b
  }

  /** The half-edges of face `f`'s outer loop. */
  function OuterHalfEdges(ar: Arena, f: FaceId): seq<HalfEdgeId>
    requires f in ar.faces && ar.faces[f].outerLoop.Some? && ar.faces[f].outerLoop.value in ar.loops
  {
    ar.loops[ar.faces[f].outerLoop.value].halfEdges
  }

  /** Face `f` is the wall between a base half-edge `bA->bB` and a lid
      half-edge `lA->lB`: its outer loop, owned by it, is the linked
      four-cycle `bB->bA`, `bA->lB`, `lB->lA`, `lA->bB` of distinct
      half-edges. */
  ghost predicate WallShape(ar: Arena, f: FaceId, bA: VertexId, bB: VertexId, lA: VertexId, lB: VertexId) {
    && f in ar.faces && ar.faces[f].outerLoop.Some? && ar.faces[f].outerLoop.value in ar.loops
    && ar.loops[ar.faces[f].outerLoop.value].face == Some(f)
    && var hs := OuterHalfEdges(ar, f);
    && |hs| == 4 && AllIn(ar, hs) && Distinct(hs) && Linked(ar, hs)
    && Runs(ar, hs[0], bB, bA) && Runs(ar, hs[1], bA, lB)
    && Runs(ar, hs[2], lB, lA) && Runs(ar, hs[3], lA, bB)
  }

  /** What building the wall for base half-edge `bh` and lid half-edge
      `lh` leaves behind: a new face of the right shape, in no shell, made
      of new half-edges in a new loop, with nothing old changed. */
  ghost predicate WallBuilt(ar: Arena, ar': Arena, f: FaceId, bh: HalfEdgeId, lh: HalfEdgeId)
    requires bh in ar.halfEdges && lh in ar.halfEdges
  {
    && Bounded(ar') && Extends(ar, ar') && ar'.edges == ar.edges && f !in ar.faces
    && var b := ar.halfEdges[bh]; var l := ar.halfEdges[lh];
    && WallShape(ar', f, b.vertexA, b.vertexB, l.vertexA, l.vertexB)
    && ar'.faces[f].shell.None?
    && ar'.faces[f].outerLoop.value !in ar.loops
    && var hs := OuterHalfEdges(ar', f);
    && hs[0] !in ar.halfEdges && hs[1] !in ar.halfEdges && hs[2] !in ar.halfEdges && hs[3] !in ar.halfEdges
  }

  /** The twins `t1` of `bh` and `t2` of `lh`, both new. */
  ghost predicate TwinsMade(ar: Arena, ar': Arena, t1: HalfEdgeId, t2: HalfEdgeId, bh: HalfEdgeId, lh: HalfEdgeId)
    requires bh in ar.halfEdges && lh in ar.halfEdges
  {
    && Bounded(ar') && Extends(ar, ar') && ar'.edges == ar.edges
    && t1 !in ar.halfEdges && t2 !in ar.halfEdges && t1 != t2
    && Runs(ar', t1, ar.halfEdges[bh].vertexB, ar.halfEdges[bh].vertexA)
    && Runs(ar', t2, ar.halfEdges[lh].vertexB, ar.halfEdges[lh].vertexA)
    && CurveOf(ar', t1) == CurveOf(ar, bh) && CurveOf(ar', t2) == CurveOf(ar, lh)
    && (HasEdge(ar, bh) ==> EdgeEnds(ar', t1).Some?)
    && (HasEdge(ar, lh) ==> EdgeEnds(ar', t2).Some?)
  }

  /** `baseHalfEdge.createTwin()` and `lidHalfEdge.createTwin()`. */
  function MakeTwins(ar: Arena, bh: HalfEdgeId, lh: HalfEdgeId): (r: (Arena, HalfEdgeId, HalfEdgeId))
    requires Bounded(ar) && bh in ar.halfEdges && lh in ar.halfEdges
    ensures TwinsMade(ar, r.0, r.1, r.2, bh, lh)
  {
    var (ar1, t1) := CreateTwin(ar, bh);
    var (ar2, t2) := CreateTwin(ar1, lh);
    (ar2, t1, t2)
  }

  /** The wall face before `linkSegments`: everything of `WallBuilt` but
      the `next`/`prev` links. */
  ghost predicate WallMade(ar: Arena, ar': Arena, f: FaceId, bh: HalfEdgeId, lh: HalfEdgeId)
    requires bh in ar.halfEdges && lh in ar.halfEdges
  {
    && Bounded(ar') && Extends(ar, ar') && ar'.edges == ar.edges && f !in ar.faces
    && f in ar'.faces && ar'.faces[f].outerLoop.Some? && ar'.faces[f].outerLoop.value in ar'.loops
    && ar'.loops[ar'.faces[f].outerLoop.value].face == Some(f)
    && ar'.faces[f].shell.None? && ar'.faces[f].outerLoop.value !in ar.loops
    && var hs := OuterHalfEdges(ar', f);
    && |hs| == 4 && AllIn(ar', hs) && Distinct(hs)
    && hs[0] !in ar.halfEdges && hs[1] !in ar.halfEdges && hs[2] !in ar.halfEdges && hs[3] !in ar.halfEdges
    && var b := ar.halfEdges[bh]; var l := ar.halfEdges[lh];
    && Runs(ar', hs[0], b.vertexB, b.vertexA) && Runs(ar', hs[1], b.vertexA, l.vertexB)
    && Runs(ar', hs[2], l.vertexB, l.vertexA) && Runs(ar', hs[3], l.vertexA, b.vertexB)
  }

  /** `createFaceFromTwoEdges` over half-edges that `ar` did not have
      only adds to `ar`. */
  lemma ExtendsThroughWall(ar: Arena, ar2: Arena, ar3: Arena, t1: HalfEdgeId, t2: HalfEdgeId)
    requires Extends(ar, ar2) && t1 !in ar.halfEdges && t2 !in ar.halfEdges
    requires ar3.nextHandle >= ar2.nextHandle && WallFrame(ar2, ar3, t1, t2)
    requires forall k :: k in ar2.faces ==> k in ar3.faces && ar3.faces[k] == ar2.faces[k]
    ensures Extends(ar, ar3)
  {
  }

  /** `linkSegments` over half-edges that `ar` did not have only adds to
      `ar`. */
  lemma ExtendsThroughLinks(ar: Arena, ar3: Arena, ar4: Arena, hs: seq<HalfEdgeId>)
    requires Extends(ar, ar3) && AllIn(ar3, hs) && ar4 == LinkSegments(ar3, hs)
    requires |hs| == 4 && hs[0] !in ar.halfEdges && hs[1] !in ar.halfEdges
    requires hs[2] !in ar.halfEdges && hs[3] !in ar.halfEdges
    ensures Extends(ar, ar4)
  {
    forall k | k in ar.halfEdges ensures ar4.halfEdges[k] == ar3.halfEdges[k] {
      assert k != hs[0] && k != hs[1] && k != hs[2] && k != hs[3];
      assert k !in hs;
    }
  }

  /** `createFaceFromTwoEdges` over the new twins gives `WallMade`. */
  lemma WallMadeFromTwins(ar: Arena, ar2: Arena, ar3: Arena, t1: HalfEdgeId, t2: HalfEdgeId,
                          f: FaceId, bh: HalfEdgeId, lh: HalfEdgeId, geo: FaceGeometry)
    requires Bounded(ar) && bh in ar.halfEdges && lh in ar.halfEdges
    requires TwinsMade(ar, ar2, t1, t2, bh, lh)
    requires CreateFaceFromTwoEdges(ar2, t1, t2, geo) == Ok((ar3, f))
    ensures WallMade(ar, ar3, f, bh, lh)
  {
    assert WallFace(ar2, ar3, f, t1, t2) && WallFrame(ar2, ar3, t1, t2);
    ExtendsThroughWall(ar, ar2, ar3, t1, t2);
    var hs := OuterHalfEdges(ar3, f);
    assert hs[1] !in ar2.halfEdges && hs[3] !in ar2.halfEdges;
    assert hs[0] in ar2.halfEdges && hs[2] in ar2.halfEdges;
    FourDistinct(hs);
  }

  /** Four pairwise different elements. */
  lemma FourDistinct<T>(s: seq<T>)
    requires |s| == 4 && s[0] != s[1] && s[0] != s[2] && s[0] != s[3]
    requires s[1] != s[2] && s[1] != s[3] && s[2] != s[3]
    ensures Distinct(s)
  {
  }

  /** `linkSegments` on the wall's loop turns `WallMade` into `WallBuilt`. */
  lemma WallBuiltLinked(ar: Arena, ar3: Arena, ar4: Arena, f: FaceId, bh: HalfEdgeId, lh: HalfEdgeId)
    requires bh in ar.halfEdges && lh in ar.halfEdges
    requires WallMade(ar, ar3, f, bh, lh)
    requires ar4 == LinkSegments(ar3, OuterHalfEdges(ar3, f))
    ensures WallBuilt(ar, ar4, f, bh, lh)
  {
    var hs := OuterHalfEdges(ar3, f);
    ExtendsThroughLinks(ar, ar3, ar4, hs);
    forall k | 0 <= k < 4 ensures SameButLinksRec(ar4.halfEdges[hs[k]], ar3.halfEdges[hs[k]]) {
      SameButLinksAt(ar3, ar4, hs[k]);
    }
  }

  /** One wall of `extrude`: `createFaceFromTwoEdges` over the twins of
      the base and lid half-edges, then `linkSegments` on its loop. */
  method BuildWall(ar: Arena, bh: HalfEdgeId, lh: HalfEdgeId, geo: FaceGeometry)
    returns (r: Result<(Arena, FaceId), Thrown>)
    requires Bounded(ar) && bh in ar.halfEdges && lh in ar.halfEdges
    ensures CurveOf(ar, bh) == Some(Line) && CurveOf(ar, lh) == Some(Line) ==> r.Ok?
    ensures HasEdge(ar, bh) && HasEdge(ar, lh) && r.Err? ==> r.error == Unsupported
    ensures r.Ok? ==> WallBuilt(ar, r.value.0, r.value.1, bh, lh)
  {
    var (ar2, t1, t2) := MakeTwins(ar, bh, lh);
    var made := CreateFaceFromTwoEdges(ar2, t1, t2, geo);
    if made.Err? {
      return Err(made.error);
    }
    var (ar3, f) := made.value;
    WallMadeFromTwins(ar, ar2, ar3, t1, t2, f, bh, lh, geo);
    var ar4 := LinkSegments(ar3, OuterHalfEdges(ar3, f));
    WallBuiltLinked(ar, ar3, ar4, f, bh, lh);
    r := Ok((ar4, f));
  }

  /** `WallShape` reads only records that `Extends` keeps. */
  lemma WallShapeExtends(ar: Arena, ar': Arena, f: FaceId, bA: VertexId, bB: VertexId, lA: VertexId, lB: VertexId)
    requires WallShape(ar, f, bA, bB, lA, lB) && Extends(ar, ar')
    ensures WallShape(ar', f, bA, bB, lA, lB)
    ensures OuterHalfEdges(ar', f) == OuterHalfEdges(ar, f)
  {
    var hs := OuterHalfEdges(ar, f);
    assert forall k :: 0 <= k < 4 ==> ar'.halfEdges[hs[k]] == ar.halfEdges[hs[k]];
  }

  /** Two different walls whose connecting half-edges (positions 1 and 3
      of the outer loop) are four different half-edges. */
  ghost predicate Apart(ar: Arena, f: FaceId, g: FaceId) {
    && f != g
    && f in ar.faces && ar.faces[f].outerLoop.Some? && ar.faces[f].outerLoop.value in ar.loops
    && g in ar.faces && ar.faces[g].outerLoop.Some? && ar.faces[g].outerLoop.value in ar.loops
    && var a := OuterHalfEdges(ar, f); var b := OuterHalfEdges(ar, g);
    && |a| == 4 && |b| == 4
    && a[1] != b[1] && a[1] != b[3] && a[3] != b[1] && a[3] != b[3]
  }

  lemma ApartExtends(ar: Arena, ar': Arena, f: FaceId, g: FaceId)
    requires Apart(ar, f, g) && Extends(ar, ar')
    ensures Apart(ar', f, g)
  {
  }

  /** Wall `f` joins base half-edge `bh` and lid half-edge `lh`, with the
      end vertices they have in `ar0`, and is in no shell yet. */
  ghost predicate WallAt(ar0: Arena, ar: Arena, f: FaceId, bh: HalfEdgeId, lh: HalfEdgeId)
    requires bh in ar0.halfEdges && lh in ar0.halfEdges
  {
    && f !in ar0.faces
    && WallShape(ar, f, ar0.halfEdges[bh].vertexA, ar0.halfEdges[bh].vertexB,
                 ar0.halfEdges[lh].vertexA, ar0.halfEdges[lh].vertexB)
    && ar.faces[f].shell.None?
  }

  /** The walls built so far: wall `k` joins base half-edge `k` and lid
      half-edge `n - 1 - k`, and any two walls are apart. */
  ghost predicate WallsInv(ar0: Arena, ar: Arena, walls: seq<FaceId>, baseHs: seq<HalfEdgeId>, lidHs: seq<HalfEdgeId>)
    requires AllIn(ar0, baseHs) && AllIn(ar0, lidHs) && |walls| <= |baseHs| == |lidHs|
  {
    && Bounded(ar) && Extends(ar0, ar) && ar.edges == ar0.edges
    && (forall k :: 0 <= k < |walls| ==> WallAt(ar0, ar, walls[k], baseHs[k], lidHs[|lidHs| - 1 - k]))
    && (forall j, k :: 0 <= j < k < |walls| ==> Apart(ar, walls[j], walls[k]))
  }

  /** Adding one more wall keeps `WallsInv`. */
  lemma WallsStep(ar0: Arena, ar: Arena, ar': Arena, walls: seq<FaceId>, f: FaceId,
                  baseHs: seq<HalfEdgeId>, lidHs: seq<HalfEdgeId>)
    requires AllIn(ar0, baseHs) && AllIn(ar0, lidHs) && |walls| < |baseHs| == |lidHs|
    requires WallsInv(ar0, ar, walls, baseHs, lidHs)
    requires WallBuilt(ar, ar', f, baseHs[|walls|], lidHs[|lidHs| - 1 - |walls|])
    ensures WallsInv(ar0, ar', walls + [f], baseHs, lidHs)
  {
    var n := |baseHs|;
    var i := |walls|;
    var walls' := walls + [f];
    ExtendsTrans(ar0, ar, ar');
    forall k | 0 <= k < i
      ensures WallAt(ar0, ar', walls'[k], baseHs[k], lidHs[n - 1 - k])
      ensures OuterHalfEdges(ar', walls[k]) == OuterHalfEdges(ar, walls[k])
    {
      var b := ar0.halfEdges[baseHs[k]];
      var l := ar0.halfEdges[lidHs[n - 1 - k]];
      WallShapeExtends(ar, ar', walls[k], b.vertexA, b.vertexB, l.vertexA, l.vertexB);
    }
    assert ar.halfEdges[baseHs[i]] == ar0.halfEdges[baseHs[i]];
    assert ar.halfEdges[lidHs[n - 1 - i]] == ar0.halfEdges[lidHs[n - 1 - i]];
    assert WallAt(ar0, ar', f, baseHs[i], lidHs[n - 1 - i]);
    forall j, k | 0 <= j < k < i + 1 ensures Apart(ar', walls'[j], walls'[k]) {
      if k < i {
        ApartExtends(ar, ar', walls[j], walls[k]);
      } else {
        var hs := OuterHalfEdges(ar, walls[j]);
        assert hs[1] in ar.halfEdges && hs[3] in ar.halfEdges;
      }
    }
  }

  /** The walls of `extrude`: wall `i` from base half-edge `i` and lid
      half-edge `n - 1 - i`, stopping at the first wall whose surface
      cannot be built. */
  method BuildWalls(ar0: Arena, baseHs: seq<HalfEdgeId>, lidHs: seq<HalfEdgeId>, geo: FaceGeometry)
    returns (r: Result<(Arena, seq<FaceId>), Thrown>)
    requires Bounded(ar0) && AllIn(ar0, baseHs) && AllIn(ar0, lidHs) && |baseHs| == |lidHs|
    ensures (forall i :: 0 <= i < |baseHs| ==> CurveOf(ar0, baseHs[i]) == Some(Line) && CurveOf(ar0, lidHs[i]) == Some(Line))
      ==> r.Ok?
    ensures (forall i :: 0 <= i < |baseHs| ==> HasEdge(ar0, baseHs[i]) && HasEdge(ar0, lidHs[i])) && r.Err?
      ==> r.error == Unsupported
    ensures r.Ok? ==> |r.value.1| == |baseHs| && WallsInv(ar0, r.value.0, r.value.1, baseHs, lidHs)
  {
    var n := |baseHs|;
    var ar := ar0;
    var walls: seq<FaceId> := [];
    while |walls| < n
      invariant |walls| <= n && WallsInv(ar0, ar, walls, baseHs, lidHs)
    {
      var i := |walls|;
      var bh := baseHs[i];
      var lh := lidHs[n - 1 - i];
      assert ar.halfEdges[bh] == ar0.halfEdges[bh] && ar.halfEdges[lh] == ar0.halfEdges[lh];
      assert CurveOf(ar, bh) == CurveOf(ar0, bh) && CurveOf(ar, lh) == CurveOf(ar0, lh);
      assert HasEdge(ar0, bh) ==> HasEdge(ar, bh);
      assert HasEdge(ar0, lh) ==> HasEdge(ar, lh);
      var w := BuildWall(ar, bh, lh, geo);
      if w.Err? {
        return Err(w.error);
      }
      WallsStep(ar0, ar, w.value.0, walls, w.value.1, baseHs, lidHs);
      ar := w.value.0;
      walls := walls + [w.value.1];
    }
    r := Ok((ar, walls));
  }

  /** `f` has an outer loop of four distinct half-edges with records. */
  ghost predicate Quad(ar: Arena, f: FaceId) {
    && f in ar.faces && ar.faces[f].outerLoop.Some? && ar.faces[f].outerLoop.value in ar.loops
    && var hs := OuterHalfEdges(ar, f);
    && |hs| == 4 && AllIn(ar, hs) && Distinct(hs)
  }

  /** Half-edge `k` of wall `f`'s outer loop. */
  function Corner(ar: Arena, f: FaceId, k: nat): HalfEdgeId
    requires Quad(ar, f) && k < 4
  {
    OuterHalfEdges(ar, f)[k]
  }

  /** Walls that can be stitched: each a `Quad`, any two apart. */
  ghost predicate Stitchable(ar: Arena, walls: seq<FaceId>) {
    && (forall k :: 0 <= k < |walls| ==> Quad(ar, walls[k]))
    && (forall j, k :: 0 <= j < k < |walls| ==> Apart(ar, walls[j], walls[k]))
  }

  /** Connecting half-edges (positions 1 and 3) of stitchable walls are
      all different. */
  lemma CornersDiffer(ar: Arena, walls: seq<FaceId>, p: nat, x: nat, q: nat, y: nat)
    requires Stitchable(ar, walls) && p < |walls| && q < |walls|
    requires (x == 1 || x == 3) && (y == 1 || y == 3) && (p != q || x != y)
    ensures Corner(ar, walls[p], x) != Corner(ar, walls[q], y)
  {
    if p < q {
      assert Apart(ar, walls[p], walls[q]);
    } else if q < p {
      assert Apart(ar, walls[q], walls[p]);
    }
  }

  /** What stitching changes: only the `edge` field of existing
      half-edges, and new edges are added. */
  ghost predicate StitchFrame(ar: Arena, ar': Arena) {
    && ar'.nextHandle >= ar.nextHandle
    && ar'.halfEdges.Keys == ar.halfEdges.Keys
    && (forall k :: k in ar.halfEdges ==> SameButEdgeRec(ar'.halfEdges[k], ar.halfEdges[k]))
    && Keeps(ar.edges, ar'.edges)
    && ar'.loops == ar.loops && ar'.faces == ar.faces
    && ar'.points == ar.points && ar'.shells == ar.shells
  }

  /** One record under `StitchFrame`. */
  lemma StitchFrameAt(ar: Arena, ar': Arena, h: HalfEdgeId)
    requires StitchFrame(ar, ar') && h in ar.halfEdges
    ensures h in ar'.halfEdges && SameButEdgeRec(ar'.halfEdges[h], ar.halfEdges[h])
  {
  }

  /** `e` is a new line edge whose halves are `a` and `b`, and both point
      back to it. */
  ghost predicate Stitched(ar0: Arena, ar: Arena, e: EdgeId, a: HalfEdgeId, b: HalfEdgeId) {
    && e !in ar0.edges && e in ar.edges && ar.edges[e] == Edge(Line, a, b)
    && a in ar.halfEdges && b in ar.halfEdges
    && ar.halfEdges[a].edge == Some(e) && ar.halfEdges[b].edge == Some(e)
  }

  /** The `i`-th stitch of `extrude` joins half-edge 3 of wall `i` and
      half-edge 1 of wall `(i + 1) % n`. */
  ghost predicate StitchAt(ar0: Arena, ar: Arena, walls: seq<FaceId>, e: EdgeId, i: nat)
    requires Stitchable(ar0, walls) && i < |walls|
  {
    Stitched(ar0, ar, e, Corner(ar0, walls[i], 3), Corner(ar0, walls[NextIndex(i, |walls|)], 1))
  }

  ghost predicate StitchInv(ar0: Arena, ar: Arena, walls: seq<FaceId>, es: seq<EdgeId>)
    requires Stitchable(ar0, walls)
  {
    && Bounded(ar) && StitchFrame(ar0, ar) && |es| <= |walls|
    && (forall k :: 0 <= k < |es| ==> StitchAt(ar0, ar, walls, es[k], k))
  }

  /** A new edge linked to two existing half-edges keeps `StitchFrame`. */
  lemma StitchFrameStep(ar0: Arena, ar: Arena, ar1: Arena, ar2: Arena, e: EdgeId, a: HalfEdgeId, b: HalfEdgeId)
    requires Bounded(ar) && StitchFrame(ar0, ar) && (ar1, e) == NewBareEdge(ar, Line)
    requires a in ar1.halfEdges && b in ar1.halfEdges && ar2 == LinkHalfEdges(ar1, e, a, b)
    ensures Bounded(ar2) && StitchFrame(ar0, ar2) && e !in ar.edges && Keeps(ar.edges, ar2.edges)
  {
  }

  /** An earlier stitch survives a later one that touches other
      half-edges. */
  lemma StitchKept(ar0: Arena, ar: Arena, ar1: Arena, ar2: Arena, e: EdgeId, e': EdgeId,
                   a: HalfEdgeId, b: HalfEdgeId, a': HalfEdgeId, b': HalfEdgeId)
    requires Stitched(ar0, ar, e', a', b') && e !in ar.edges && Keeps(ar.edges, ar2.edges)
    requires ar1.halfEdges == ar.halfEdges && a in ar1.halfEdges && b in ar1.halfEdges && e in ar1.edges
    requires ar2 == LinkHalfEdges(ar1, e, a, b)
    requires a' != a && a' != b && b' != a && b' != b
    ensures Stitched(ar0, ar2, e', a', b')
  {
  }

  /** One stitch keeps `StitchInv`: the half-edges it touches are none of
      those of the earlier stitches. */
  lemma StitchStep(ar0: Arena, ar: Arena, ar1: Arena, ar2: Arena, e: EdgeId,
                   walls: seq<FaceId>, es: seq<EdgeId>)
    requires Bounded(ar0) && Stitchable(ar0, walls) && StitchInv(ar0, ar, walls, es) && |es| < |walls|
    requires (ar1, e) == NewBareEdge(ar, Line)
    requires Corner(ar0, walls[|es|], 3) in ar1.halfEdges
    requires Corner(ar0, walls[NextIndex(|es|, |walls|)], 1) in ar1.halfEdges
    requires ar2 == LinkHalfEdges(ar1, e, Corner(ar0, walls[|es|], 3), Corner(ar0, walls[NextIndex(|es|, |walls|)], 1))
    ensures StitchInv(ar0, ar2, walls, es + [e])
  {
    var n := |walls|;
    var i := |es|;
    var a := Corner(ar0, walls[i], 3);
    var b := Corner(ar0, walls[NextIndex(i, n)], 1);
    StitchFrameStep(ar0, ar, ar1, ar2, e, a, b);
    var es' := es + [e];
    forall k | 0 <= k < i + 1 ensures StitchAt(ar0, ar2, walls, es'[k], k) {
      if k < i {
        StitchStepAt(ar0, ar, ar1, ar2, e, walls, es, k);
      } else {
        CornersDiffer(ar0, walls, i, 3, NextIndex(i, n), 1);
      }
    }
  }

  /** The `k`-th earlier stitch survives the `|es|`-th. */
  lemma StitchStepAt(ar0: Arena, ar: Arena, ar1: Arena, ar2: Arena, e: EdgeId,
                     walls: seq<FaceId>, es: seq<EdgeId>, k: nat)
    requires Bounded(ar0) && Stitchable(ar0, walls) && StitchInv(ar0, ar, walls, es) && k < |es| < |walls|
    requires (ar1, e) == NewBareEdge(ar, Line)
    requires Corner(ar0, walls[|es|], 3) in ar1.halfEdges
    requires Corner(ar0, walls[NextIndex(|es|, |walls|)], 1) in ar1.halfEdges
    requires ar2 == LinkHalfEdges(ar1, e, Corner(ar0, walls[|es|], 3), Corner(ar0, walls[NextIndex(|es|, |walls|)], 1))
    ensures StitchAt(ar0, ar2, walls, es[k], k)
  {
    var n := |walls|;
    var i := |es|;
    var a := Corner(ar0, walls[i], 3);
    var b := Corner(ar0, walls[NextIndex(i, n)], 1);
    var a' := Corner(ar0, walls[k], 3);
    var b' := Corner(ar0, walls[NextIndex(k, n)], 1);
    NextIndexInjective(k, i, n);
    CornersDiffer(ar0, walls, k, 3, i, 3);
    CornersDiffer(ar0, walls, k, 3, NextIndex(i, n), 1);
    CornersDiffer(ar0, walls, NextIndex(k, n), 1, i, 3);
    CornersDiffer(ar0, walls, NextIndex(k, n), 1, NextIndex(i, n), 1);
    assert StitchAt(ar0, ar, walls, es[k], k);
    StitchKept(ar0, ar, ar1, ar2, e, es[k], a, b, a', b');
  }

  /** The stitching loop of `extrude`: for each wall `i`, a new line edge
      shared by half-edge 3 of wall `i` and half-edge 1 of wall
      `(i + 1) % n`. */
  method StitchWalls(ar0: Arena, walls: seq<FaceId>) returns (ar: Arena, es: seq<EdgeId>)
    requires Bounded(ar0) && Stitchable(ar0, walls)
    ensures Bounded(ar) && StitchFrame(ar0, ar) && |es| == |walls|
    ensures forall k :: 0 <= k < |walls| ==> StitchAt(ar0, ar, walls, es[k], k)
  {
    var n := |walls|;
    ar := ar0;
    es := [];
    while |es| < n
      invariant StitchInv(ar0, ar, walls, es)
    {
      var i := |es|;
      var a := Corner(ar0, walls[i], 3);
      var b := Corner(ar0, walls[NextIndex(i, n)], 1);
      var (ar1, e) := NewBareEdge(ar, Line);
      var ar2 := LinkHalfEdges(ar1, e, a, b);
      StitchStep(ar0, ar, ar1, ar2, e, walls, es);
      ar := ar2;
      es := es + [e];
    }
  }

  /** A linked closed chain of half-edges with records. */
  ghost predicate Ring(ar: Arena, hs: seq<HalfEdgeId>) {
    AllIn(ar, hs) && ClosedChain(ar, hs) && Linked(ar, hs)
  }

  /** A ring stays a ring when nothing but `edge` fields change. */
  lemma RingKept(ar: Arena, ar': Arena, hs: seq<HalfEdgeId>)
    requires Ring(ar, hs)
    requires forall k :: 0 <= k < |hs| ==> hs[k] in ar'.halfEdges && SameButEdgeRec(ar'.halfEdges[hs[k]], ar.halfEdges[hs[k]])
    ensures Ring(ar', hs)
  {
    forall i | 0 <= i < |hs|
      ensures ar'.halfEdges[hs[i]].vertexB == ar'.halfEdges[NextOf(hs, i)].vertexA
      ensures ar'.halfEdges[hs[i]].next == Some(NextOf(hs, i))
      ensures ar'.halfEdges[NextOf(hs, i)].prev == Some(hs[i])
    {
      assert NextOf(hs, i) == hs[NextIndex(i, |hs|)];
    }
  }

  /** The loop `l` built from `segs`: one half-edge per segment, a ring,
      each half-edge on an edge over its segment's curve. */
  ghost predicate CapLoop(ar: Arena, l: LoopId, segs: seq<TrimmedSegment>) {
    && l in ar.loops
    && var hs := ar.loops[l].halfEdges;
    && |hs| == |segs| && Ring(ar, hs)
    && (forall k :: 0 <= k < |hs| ==> HasEdge(ar, hs[k]) && CurveOf(ar, hs[k]) == Some(segs[k].curve))
  }

  lemma CapLoopFromTrimmed(ar0: Arena, ar: Arena, l: LoopId, segs: seq<TrimmedSegment>)
    requires TrimmedLoop(ar0, ar, l, segs)
    ensures CapLoop(ar, l, segs)
  {
    var hs := ar.loops[l].halfEdges;
    forall k | 0 <= k < |hs| ensures HasEdge(ar, hs[k]) && CurveOf(ar, hs[k]) == Some(segs[k].curve) {
      assert TrimmedAt(ar, hs[k], l, segs[k].curve);
    }
  }

  /** `CapLoop` survives any change that keeps the half-edge and edge
      records and the loop's list. */
  lemma CapLoopKept(ar: Arena, ar': Arena, l: LoopId, segs: seq<TrimmedSegment>)
    requires CapLoop(ar, l, segs)
    requires Keeps(ar.halfEdges, ar'.halfEdges) && Keeps(ar.edges, ar'.edges)
    requires l in ar'.loops && ar'.loops[l].halfEdges == ar.loops[l].halfEdges
    ensures CapLoop(ar', l, segs)
  {
    var hs := ar.loops[l].halfEdges;
    RingKept(ar, ar', hs);
  }

  /** The state of `extrude` before the walls: base loop `bl` on base
      face `bf` over surface `bs`, lid loop `ll` with no face yet, and the
      new empty shell `s`; nothing of `ar0` changed. */
  ghost predicate CapsReady(ar0: Arena, ar: Arena, bl: LoopId, bf: FaceId, ll: LoopId, s: ShellId,
                            baseSegs: seq<TrimmedSegment>, lidSegs: seq<TrimmedSegment>, bs: Surface) {
    && Bounded(ar) && Extends(ar0, ar)
    && CapLoop(ar, bl, baseSegs) && CapLoop(ar, ll, lidSegs)
    && bf !in ar0.faces && bf in ar.faces
    && ar.faces[bf] == Face(bs, None, Some(bl), [], FaceData(None, false), None)
    && ar.loops[bl].face == Some(bf) && ar.loops[ll].face.None?
    && s !in ar0.shells && s in ar.shells
  }

  /** `createLoopFromTrimmedCurve` for the base, `createFace`, the same
      for the lid, and `new Shell()`. */
  method PrepareCaps(ar0: Arena, baseSegs: seq<TrimmedSegment>, lidSegs: seq<TrimmedSegment>, bs: Surface)
    returns (ar: Arena, bl: LoopId, bf: FaceId, ll: LoopId, s: ShellId)
    requires Bounded(ar0)
    ensures CapsReady(ar0, ar, bl, bf, ll, s, baseSegs, lidSegs, bs)
  {
    var ar1;
    ar1, bl := CreateLoopFromTrimmedCurve(ar0, baseSegs);
    CapLoopFromTrimmed(ar0, ar1, bl, baseSegs);
    var (ar2, f) := CreateFace(ar1, bs, bl);
    bf := f;
    CapLoopKept(ar1, ar2, bl, baseSegs);
    var ar3;
    ar3, ll := CreateLoopFromTrimmedCurve(ar2, lidSegs);
    CapLoopFromTrimmed(ar2, ar3, ll, lidSegs);
    CapLoopKept(ar2, ar3, bl, baseSegs);
    var (ar4, sh) := NewShell(ar3);
    s := sh;
    ar := ar4;
    CapLoopKept(ar3, ar4, bl, baseSegs);
    CapLoopKept(ar3, ar4, ll, lidSegs);
    assert Extends(ar0, ar1) && Extends(ar3, ar4);
    PrepareExtends(ar0, ar1, ar2, ar3, bl);
    ExtendsTrans(ar0, ar3, ar4);
  }

  lemma PrepareExtends(ar0: Arena, ar1: Arena, ar2: Arena, ar3: Arena, bl: LoopId)
    requires Extends(ar0, ar1) && bl !in ar0.loops
    requires ar2.nextHandle >= ar1.nextHandle && ar2.halfEdges == ar1.halfEdges && ar2.edges == ar1.edges
    requires ar2.points == ar1.points && ar2.shells == ar1.shells
    requires forall k :: k in ar1.faces ==> k in ar2.faces && ar2.faces[k] == ar1.faces[k]
    requires forall k :: k in ar1.loops && k != bl ==> k in ar2.loops && ar2.loops[k] == ar1.loops[k]
    requires Bounded(ar2) && Grown(ar2, ar3) && ar3.faces == ar2.faces && ar3.shells == ar2.shells
    requires forall k :: k in ar2.loops ==> k in ar3.loops && ar3.loops[k] == ar2.loops[k]
    requires forall k :: k in ar2.points ==> k in ar3.points && ar3.points[k] == ar2.points[k]
    ensures Extends(ar0, ar3)
  {
  }

  /** `WallShape` survives any change that keeps the face's outer loop,
      the loop record and everything of its half-edges but `edge`. */
  lemma WallShapeKept(ar: Arena, ar': Arena, f: FaceId, bA: VertexId, bB: VertexId, lA: VertexId, lB: VertexId)
    requires WallShape(ar, f, bA, bB, lA, lB)
    requires f in ar'.faces && ar'.faces[f].outerLoop == ar.faces[f].outerLoop
    requires ar.faces[f].outerLoop.value in ar'.loops
    requires ar'.loops[ar.faces[f].outerLoop.value] == ar.loops[ar.faces[f].outerLoop.value]
    requires forall k :: 0 <= k < 4 ==>
      OuterHalfEdges(ar, f)[k] in ar'.halfEdges &&
      SameButEdgeRec(ar'.halfEdges[OuterHalfEdges(ar, f)[k]], ar.halfEdges[OuterHalfEdges(ar, f)[k]])
    ensures WallShape(ar', f, bA, bB, lA, lB) && OuterHalfEdges(ar', f) == OuterHalfEdges(ar, f)
  {
    var hs := OuterHalfEdges(ar, f);
    forall i | 0 <= i < 4
      ensures ar'.halfEdges[hs[i]].next == Some(NextOf(hs, i))
      ensures ar'.halfEdges[NextOf(hs, i)].prev == Some(hs[i])
    {
      assert NextOf(hs, i) == hs[NextIndex(i, 4)];
    }
  }

  /** Built walls are stitchable. */
  lemma WallsStitchable(ar0: Arena, ar: Arena, walls: seq<FaceId>, baseHs: seq<HalfEdgeId>, lidHs: seq<HalfEdgeId>)
    requires AllIn(ar0, baseHs) && AllIn(ar0, lidHs) && |walls| == |baseHs| == |lidHs|
    requires WallsInv(ar0, ar, walls, baseHs, lidHs)
    ensures Stitchable(ar, walls)
  {
    forall k | 0 <= k < |walls| ensures Quad(ar, walls[k]) {
      assert WallAt(ar0, ar, walls[k], baseHs[k], lidHs[|lidHs| - 1 - k]);
    }
  }

  /** The walls after stitching, with the end vertices the base and lid
      half-edges have in `ar`, and the stitch edges `es`. */
  ghost predicate WallsStitched(ar0: Arena, ar: Arena, walls: seq<FaceId>, es: seq<EdgeId>,
                                baseHs: seq<HalfEdgeId>, lidHs: seq<HalfEdgeId>)
    requires AllIn(ar, baseHs) && AllIn(ar, lidHs) && |walls| == |es| == |baseHs| == |lidHs|
  {
    var n := |walls|;
    && (forall k :: 0 <= k < n ==> walls[k] !in ar0.faces)
    && (forall j, k :: 0 <= j < k < n ==> walls[j] != walls[k])
    && (forall k :: 0 <= k < n ==>
         WallShape(ar, walls[k], ar.halfEdges[baseHs[k]].vertexA, ar.halfEdges[baseHs[k]].vertexB,
                   ar.halfEdges[lidHs[n - 1 - k]].vertexA, ar.halfEdges[lidHs[n - 1 - k]].vertexB))
    && (forall k :: 0 <= k < n ==>
         Quad(ar, walls[k]) && Quad(ar, walls[NextIndex(k, n)]) &&
         Stitched(ar0, ar, es[k], Corner(ar, walls[k], 3), Corner(ar, walls[NextIndex(k, n)], 1)))
  }

  /** Stitching the built walls gives `WallsStitched`. */
  lemma WallsStitchedIntro(ar0: Arena, ar5: Arena, ar6: Arena, walls: seq<FaceId>, es: seq<EdgeId>,
                           baseHs: seq<HalfEdgeId>, lidHs: seq<HalfEdgeId>)
    requires AllIn(ar0, baseHs) && AllIn(ar0, lidHs) && |walls| == |es| == |baseHs| == |lidHs|
    requires WallsInv(ar0, ar5, walls, baseHs, lidHs) && Stitchable(ar5, walls)
    requires StitchFrame(ar5, ar6)
    requires forall k :: 0 <= k < |walls| ==> StitchAt(ar5, ar6, walls, es[k], k)
    ensures AllIn(ar6, baseHs) && AllIn(ar6, lidHs)
    ensures forall k :: 0 <= k < |baseHs| ==> SameButEdgeRec(ar6.halfEdges[baseHs[k]], ar0.halfEdges[baseHs[k]])
    ensures forall k :: 0 <= k < |lidHs| ==> SameButEdgeRec(ar6.halfEdges[lidHs[k]], ar0.halfEdges[lidHs[k]])
    ensures WallsStitched(ar0, ar6, walls, es, baseHs, lidHs)
  {
    var n := |walls|;
    EndsThroughStitch(ar0, ar5, ar6, baseHs);
    EndsThroughStitch(ar0, ar5, ar6, lidHs);
    forall k | 0 <= k < n
      ensures WallShape(ar6, walls[k], ar6.halfEdges[baseHs[k]].vertexA, ar6.halfEdges[baseHs[k]].vertexB,
                        ar6.halfEdges[lidHs[n - 1 - k]].vertexA, ar6.halfEdges[lidHs[n - 1 - k]].vertexB)
      ensures OuterHalfEdges(ar6, walls[k]) == OuterHalfEdges(ar5, walls[k])
    {
      assert WallAt(ar0, ar5, walls[k], baseHs[k], lidHs[n - 1 - k]);
      WallShapeKept(ar5, ar6, walls[k], ar0.halfEdges[baseHs[k]].vertexA, ar0.halfEdges[baseHs[k]].vertexB,
                    ar0.halfEdges[lidHs[n - 1 - k]].vertexA, ar0.halfEdges[lidHs[n - 1 - k]].vertexB);
    }
    forall j, k | 0 <= j < k < n ensures walls[j] != walls[k] {
      assert Apart(ar5, walls[j], walls[k]);
    }
    forall k | 0 <= k < n
      ensures Quad(ar6, walls[k]) && Quad(ar6, walls[NextIndex(k, n)])
      ensures Stitched(ar0, ar6, es[k], Corner(ar6, walls[k], 3), Corner(ar6, walls[NextIndex(k, n)], 1))
    {
      assert StitchAt(ar5, ar6, walls, es[k], k);
      assert Quad(ar5, walls[k]) && Quad(ar5, walls[NextIndex(k, n)]);
    }
  }

  /** Building and stitching walls keep everything of the old half-edges
      but their `edge` field. */
  lemma EndsThroughStitch(ar0: Arena, ar5: Arena, ar6: Arena, hs: seq<HalfEdgeId>)
    requires AllIn(ar0, hs) && Extends(ar0, ar5) && StitchFrame(ar5, ar6)
    ensures AllIn(ar6, hs)
    ensures forall k :: 0 <= k < |hs| ==> SameButEdgeRec(ar6.halfEdges[hs[k]], ar0.halfEdges[hs[k]])
  {
    forall k | 0 <= k < |hs| ensures hs[k] in ar6.halfEdges && SameButEdgeRec(ar6.halfEdges[hs[k]], ar0.halfEdges[hs[k]]) {
      assert hs[k] in ar0.halfEdges;
      assert ar5.halfEdges[hs[k]] == ar0.halfEdges[hs[k]];
      StitchFrameAt(ar5, ar6, hs[k]);
    }
  }

  /** The two half-edges joined by the `i`-th stitch run in opposite
      directions between the same two vertices: a base vertex and a lid
      vertex. This is where the base loop and the lid loop being closed
      chains (and the lid being walked backwards) is needed. */
  lemma {:induction false} SeamSwapped(ar0: Arena, ar: Arena, walls: seq<FaceId>, es: seq<EdgeId>,
                                       baseHs: seq<HalfEdgeId>, lidHs: seq<HalfEdgeId>, i: nat)
    requires AllIn(ar, baseHs) && AllIn(ar, lidHs) && |walls| == |es| == |baseHs| == |lidHs|
    requires WallsStitched(ar0, ar, walls, es, baseHs, lidHs)
    requires ClosedChain(ar, baseHs) && ClosedChain(ar, lidHs) && i < |walls|
    ensures var n := |walls|;
      Quad(ar, walls[i]) && Quad(ar, walls[NextIndex(i, n)]) &&
      var a := Corner(ar, walls[i], 3); var b := Corner(ar, walls[NextIndex(i, n)], 1);
      ar.halfEdges[a].vertexA == ar.halfEdges[b].vertexB && ar.halfEdges[a].vertexB == ar.halfEdges[b].vertexA
  {
    var n := |walls|;
    var j := NextIndex(i, n);
    var m := n - 1 - j;
    assert NextIndex(m, n) == n - 1 - i;
    assert ar.halfEdges[baseHs[i]].vertexB == ar.halfEdges[NextOf(baseHs, i)].vertexA;
    assert ar.halfEdges[lidHs[m]].vertexB == ar.halfEdges[NextOf(lidHs, m)].vertexA;
    var bi := ar.halfEdges[baseHs[i]];
    var li := ar.halfEdges[lidHs[n - 1 - i]];
    var bj := ar.halfEdges[baseHs[j]];
    var lj := ar.halfEdges[lidHs[n - 1 - j]];
    assert WallShape(ar, walls[i], bi.vertexA, bi.vertexB, li.vertexA, li.vertexB);
    assert WallShape(ar, walls[j], bj.vertexA, bj.vertexB, lj.vertexA, lj.vertexB);
  }

  /** `fs.forEach(f => f.shell = shell)` on the face records. */
  function SetShellOf(faces: map<FaceId, Face>, fs: seq<FaceId>, s: ShellId): (r: map<FaceId, Face>)
    requires forall k :: 0 <= k < |fs| ==> fs[k] in faces
    ensures r.Keys == faces.Keys
    ensures forall f :: f in faces ==> r[f] == if f in fs then faces[f].(shell := Some(s)) else faces[f]
  {
    if |fs| == 0 then faces
    else
      var m := SetShellOf(faces, fs[1..], s);
      assert forall f :: f in fs <==> f == fs[0] || f in fs[1..];
      m[fs[0] := faces[fs[0]].(shell := Some(s))]
  }

  /** `shell.faces = fs` and every face of `fs` gets `shell` as its shell;
      nothing else changes. */
  function AssignShell(ar: Arena, s: ShellId, fs: seq<FaceId>): (r: Arena)
    requires s in ar.shells && forall k :: 0 <= k < |fs| ==> fs[k] in ar.faces
    ensures r.shells == ar.shells[s := Shell(fs)] && r.shells.Keys == ar.shells.Keys
    ensures r.faces.Keys == ar.faces.Keys
    ensures Bounded(ar) ==> Bounded(r)
    ensures forall f :: f in ar.faces ==> r.faces[f] == if f in fs then ar.faces[f].(shell := Some(s)) else ar.faces[f]
    ensures r.halfEdges == ar.halfEdges && r.edges == ar.edges && r.loops == ar.loops
    ensures r.points == ar.points && r.nextHandle == ar.nextHandle
  {
    ar.(faces := SetShellOf(ar.faces, fs, s), shells := ar.shells[s := Shell(fs)])
  }

  /** Face `f` is a cap of the prism: on `surface`, no inner loops, and
      its own outer loop is a ring of `n` half-edges. */
  ghost predicate Cap(ar: Arena, f: FaceId, surface: Surface, n: nat) {
    && f in ar.faces && ar.faces[f].surface == surface && ar.faces[f].innerLoops == []
    && ar.faces[f].outerLoop.Some? && ar.faces[f].outerLoop.value in ar.loops
    && ar.loops[ar.faces[f].outerLoop.value].face == Some(f)
    && |OuterHalfEdges(ar, f)| == n && Ring(ar, OuterHalfEdges(ar, f))
  }

  /** Half-edges `a` and `b` share the line edge `e`, whose halves they
      are, and run in opposite directions between the same vertices. */
  ghost predicate Seam(ar: Arena, a: HalfEdgeId, b: HalfEdgeId) {
    && a in ar.halfEdges && b in ar.halfEdges
    && ar.halfEdges[a].edge.Some? && ar.halfEdges[b].edge == ar.halfEdges[a].edge
    && ar.halfEdges[a].edge.value in ar.edges
    && ar.edges[ar.halfEdges[a].edge.value] == Edge(Line, a, b)
    && ar.halfEdges[a].vertexA == ar.halfEdges[b].vertexB
    && ar.halfEdges[a].vertexB == ar.halfEdges[b].vertexA
  }

  /** The shell `extrude` returns for an `n`-segment contour: faces
      `0..n-1` are the walls, face `n` the base cap on `bs`, face `n + 1`
      the lid cap on `ls`; every face names the shell and none is listed
      twice. Wall `k` joins base half-edge `k` and lid half-edge
      `n - 1 - k`, and each wall's last half-edge and the next wall's
      second share a seam edge. */
  ghost predicate Prism(ar: Arena, s: ShellId, n: nat, bs: Surface, ls: Surface) {
    && s in ar.shells
    && var fs := ar.shells[s].faces;
    && |fs| == n + 2 && Distinct(fs)
    && (forall k :: 0 <= k < n + 2 ==> fs[k] in ar.faces && ar.faces[fs[k]].shell == Some(s))
    && Cap(ar, fs[n], bs, n) && Cap(ar, fs[n + 1], ls, n)
    && var base := OuterHalfEdges(ar, fs[n]); var lid := OuterHalfEdges(ar, fs[n + 1]);
    && (forall k :: 0 <= k < n ==>
         WallShape(ar, fs[k], ar.halfEdges[base[k]].vertexA, ar.halfEdges[base[k]].vertexB,
                   ar.halfEdges[lid[n - 1 - k]].vertexA, ar.halfEdges[lid[n - 1 - k]].vertexB))
    && (forall k :: 0 <= k < n ==>
         Quad(ar, fs[k]) && Quad(ar, fs[NextIndex(k, n)]) &&
         Seam(ar, Corner(ar, fs[k], 3), Corner(ar, fs[NextIndex(k, n)], 1)))
  }

  /** Whatever keeps the half-edges, the edges, the faces' outer loops
      and the loops that have a face keeps a wall. */
  ghost predicate KeepsWalls(ar: Arena, ar': Arena) {
    && ar'.halfEdges == ar.halfEdges && ar'.edges == ar.edges
    && (forall f :: f in ar.faces ==> f in ar'.faces && ar'.faces[f].outerLoop == ar.faces[f].outerLoop)
    && (forall l :: l in ar.loops && ar.loops[l].face.Some? ==> l in ar'.loops && ar'.loops[l] == ar.loops[l])
  }

  /** One wall under `KeepsWalls`. */
  lemma WallKeptAt(ar0: Arena, ar: Arena, ar': Arena, walls: seq<FaceId>, es: seq<EdgeId>,
                   baseHs: seq<HalfEdgeId>, lidHs: seq<HalfEdgeId>, k: nat)
    requires AllIn(ar, baseHs) && AllIn(ar, lidHs) && |walls| == |es| == |baseHs| == |lidHs|
    requires WallsStitched(ar0, ar, walls, es, baseHs, lidHs) && KeepsWalls(ar, ar') && k < |walls|
    ensures var n := |walls|;
      && WallShape(ar', walls[k], ar.halfEdges[baseHs[k]].vertexA, ar.halfEdges[baseHs[k]].vertexB,
                   ar.halfEdges[lidHs[n - 1 - k]].vertexA, ar.halfEdges[lidHs[n - 1 - k]].vertexB)
      && OuterHalfEdges(ar', walls[k]) == OuterHalfEdges(ar, walls[k])
  {
    var n := |walls|;
    var bA, bB := ar.halfEdges[baseHs[k]].vertexA, ar.halfEdges[baseHs[k]].vertexB;
    var lA, lB := ar.halfEdges[lidHs[n - 1 - k]].vertexA, ar.halfEdges[lidHs[n - 1 - k]].vertexB;
    assert WallShape(ar, walls[k], bA, bB, lA, lB);
    var l := ar.faces[walls[k]].outerLoop.value;
    assert l in ar.loops && ar.loops[l].face.Some?;
    WallShapeKept(ar, ar', walls[k], bA, bB, lA, lB);
  }

  /** `WallsStitched` survives `KeepsWalls`. */
  lemma WallsStitchedKept(ar0: Arena, ar: Arena, ar': Arena, walls: seq<FaceId>, es: seq<EdgeId>,
                          baseHs: seq<HalfEdgeId>, lidHs: seq<HalfEdgeId>)
    requires AllIn(ar, baseHs) && AllIn(ar, lidHs) && |walls| == |es| == |baseHs| == |lidHs|
    requires WallsStitched(ar0, ar, walls, es, baseHs, lidHs) && KeepsWalls(ar, ar')
    ensures WallsStitched(ar0, ar', walls, es, baseHs, lidHs)
  {
    forall k | 0 <= k < |walls|
      ensures var n := |walls|;
        && WallShape(ar', walls[k], ar.halfEdges[baseHs[k]].vertexA, ar.halfEdges[baseHs[k]].vertexB,
                     ar.halfEdges[lidHs[n - 1 - k]].vertexA, ar.halfEdges[lidHs[n - 1 - k]].vertexB)
        && OuterHalfEdges(ar', walls[k]) == OuterHalfEdges(ar, walls[k])
    {
      WallKeptAt(ar0, ar, ar', walls, es, baseHs, lidHs, k);
    }
  }

  /** `createFace(lidSurface, lidLoop)` on a loop without a face keeps
      the walls and every old face. */
  lemma LidFaceKeeps(ar6: Arena, ar7: Arena, lf: FaceId, ls: Surface, ll: LoopId)
    requires Bounded(ar6) && ll in ar6.loops && ar6.loops[ll].face.None?
    requires (ar7, lf) == CreateFace(ar6, ls, ll)
    ensures KeepsWalls(ar6, ar7) && Keeps(ar6.faces, ar7.faces) && lf !in ar6.faces
    ensures ar7.shells == ar6.shells && ar7.loops[ll] == Loop(Some(lf), ar6.loops[ll].halfEdges)
    ensures ar7.faces[lf] == Face(ls, None, Some(ll), [], FaceData(None, false), None)
    ensures forall l :: l in ar6.loops && l != ll ==> l in ar7.loops && ar7.loops[l] == ar6.loops[l]
  {
  }

  /** Assigning the shell keeps the walls. */
  lemma AssignShellKeeps(ar7: Arena, ar8: Arena, s: ShellId, fs: seq<FaceId>)
    requires s in ar7.shells && forall k :: 0 <= k < |fs| ==> fs[k] in ar7.faces
    requires ar8 == AssignShell(ar7, s, fs)
    ensures KeepsWalls(ar7, ar8) && ar8.loops == ar7.loops && ar8.shells[s].faces == fs
    ensures forall f :: f in ar7.faces ==>
      (f in ar8.faces && ar8.faces[f].surface == ar7.faces[f].surface &&
       ar8.faces[f].innerLoops == ar7.faces[f].innerLoops)
    ensures forall k :: 0 <= k < |fs| ==> ar8.faces[fs[k]].shell == Some(s)
  {
    forall k | 0 <= k < |fs| ensures ar8.faces[fs[k]].shell == Some(s) {
      assert fs[k] in fs;
    }
  }

  /** The state of `extrude` after stitching: the base loop `bl` on face
      `bf`, the lid loop `ll` still without a face, both rings of `n`
      half-edges, the shell `s`, and the stitched walls. */
  ghost predicate ReadyToClose(ar0: Arena, ar: Arena, bl: LoopId, bf: FaceId, ll: LoopId, s: ShellId,
                               walls: seq<FaceId>, es: seq<EdgeId>, n: nat, bs: Surface) {
    && Bounded(ar) && bl in ar.loops && ll in ar.loops
    && |ar.loops[bl].halfEdges| == n && |ar.loops[ll].halfEdges| == n
    && Ring(ar, ar.loops[bl].halfEdges) && Ring(ar, ar.loops[ll].halfEdges)
    && bf in ar0.faces && bf in ar.faces
    && ar.faces[bf] == Face(bs, None, Some(bl), [], FaceData(None, false), None)
    && ar.loops[bl].face == Some(bf) && ar.loops[ll].face.None?
    && s in ar.shells && |walls| == |es| == n
    && WallsStitched(ar0, ar, walls, es, ar.loops[bl].halfEdges, ar.loops[ll].halfEdges)
  }

  /** The walls of a `WallsStitched` state are faces, none of `ar0`. */
  lemma WallsAreFaces(ar0: Arena, ar: Arena, walls: seq<FaceId>, es: seq<EdgeId>,
                      baseHs: seq<HalfEdgeId>, lidHs: seq<HalfEdgeId>)
    requires AllIn(ar, baseHs) && AllIn(ar, lidHs) && |walls| == |es| == |baseHs| == |lidHs|
    requires WallsStitched(ar0, ar, walls, es, baseHs, lidHs)
    ensures forall k :: 0 <= k < |walls| ==> walls[k] in ar.faces && walls[k] !in ar0.faces
    ensures Distinct(walls)
  {
    var n := |walls|;
    forall k | 0 <= k < n ensures walls[k] in ar.faces {
      assert WallShape(ar, walls[k], ar.halfEdges[baseHs[k]].vertexA, ar.halfEdges[baseHs[k]].vertexB,
                       ar.halfEdges[lidHs[n - 1 - k]].vertexA, ar.halfEdges[lidHs[n - 1 - k]].vertexB);
    }
  }

  /** The face list of the shell is duplicate-free. */
  lemma ShellFacesDistinct(walls: seq<FaceId>, bf: FaceId, lf: FaceId)
    requires Distinct(walls) && bf !in walls && lf !in walls && bf != lf
    ensures Distinct(walls + [bf, lf])
  {
    var fs := walls + [bf, lf];
    forall j, k | 0 <= j < k < |fs| ensures fs[j] != fs[k] {
      if k < |walls| {
        assert fs[j] == walls[j] && fs[k] == walls[k];
      } else if j < |walls| {
        assert fs[j] in walls;
      }
    }
  }

  /** The prism, assembled from its parts in one arena. */
  lemma PrismIntro(ar0: Arena, ar: Arena, s: ShellId, n: nat, bs: Surface, ls: Surface,
                   walls: seq<FaceId>, bf: FaceId, lf: FaceId, es: seq<EdgeId>,
                   baseHs: seq<HalfEdgeId>, lidHs: seq<HalfEdgeId>)
    requires |walls| == |es| == n
    requires s in ar.shells && ar.shells[s].faces == walls + [bf, lf] && Distinct(walls + [bf, lf])
    requires forall k :: 0 <= k < n + 2 ==>
      ((walls + [bf, lf])[k] in ar.faces && ar.faces[(walls + [bf, lf])[k]].shell == Some(s))
    requires Cap(ar, bf, bs, n) && Cap(ar, lf, ls, n)
    requires OuterHalfEdges(ar, bf) == baseHs && OuterHalfEdges(ar, lf) == lidHs
    requires WallsStitched(ar0, ar, walls, es, baseHs, lidHs)
    ensures Prism(ar, s, n, bs, ls)
  {
    var fs := walls + [bf, lf];
    assert fs[n] == bf && fs[n + 1] == lf;
    forall k | 0 <= k < n
      ensures fs[k] == walls[k] && Quad(ar, fs[k]) && Quad(ar, fs[NextIndex(k, n)])
      ensures Seam(ar, Corner(ar, fs[k], 3), Corner(ar, fs[NextIndex(k, n)], 1))
    {
      SeamSwapped(ar0, ar, walls, es, baseHs, lidHs, k);
    }
  }

  /** A cap stays a cap while its face's surface, inner loops and outer
      loop, that loop's record and all half-edges stay. */
  lemma CapKept(ar: Arena, ar': Arena, f: FaceId, surface: Surface, n: nat)
    requires Cap(ar, f, surface, n) && ar'.halfEdges == ar.halfEdges
    requires f in ar'.faces && ar'.faces[f].surface == surface && ar'.faces[f].innerLoops == []
    requires ar'.faces[f].outerLoop == ar.faces[f].outerLoop
    requires ar.faces[f].outerLoop.value in ar'.loops
    requires ar'.loops[ar.faces[f].outerLoop.value] == ar.loops[ar.faces[f].outerLoop.value]
    ensures Cap(ar', f, surface, n) && OuterHalfEdges(ar', f) == OuterHalfEdges(ar, f)
  {
    RingKept(ar, ar', OuterHalfEdges(ar, f));
  }

  /** A face on a ring loop it owns is a cap. */
  lemma CapIntro(ar: Arena, f: FaceId, l: LoopId, surface: Surface, n: nat)
    requires f in ar.faces && ar.faces[f].surface == surface && ar.faces[f].innerLoops == []
    requires ar.faces[f].outerLoop == Some(l) && l in ar.loops && ar.loops[l].face == Some(f)
    requires |ar.loops[l].halfEdges| == n && Ring(ar, ar.loops[l].halfEdges)
    ensures Cap(ar, f, surface, n) && OuterHalfEdges(ar, f) == ar.loops[l].halfEdges
  {
  }

  /** The lid face `createFace` makes is a cap. */
  lemma LidCap(ar6: Arena, ar7: Arena, lf: FaceId, ls: Surface, ll: LoopId, n: nat)
    requires Bounded(ar6) && ll in ar6.loops && ar6.loops[ll].face.None?
    requires |ar6.loops[ll].halfEdges| == n && Ring(ar6, ar6.loops[ll].halfEdges)
    requires (ar7, lf) == CreateFace(ar6, ls, ll)
    ensures Cap(ar7, lf, ls, n) && OuterHalfEdges(ar7, lf) == ar6.loops[ll].halfEdges
  {
    RingKept(ar6, ar7, ar6.loops[ll].halfEdges);
    CapIntro(ar7, lf, ll, ls, n);
  }

  /** The caps after closing: the base face keeps its loop, the lid face
      gets the lid loop; both rings survive. */
  lemma CapsClosed(ar6: Arena, ar7: Arena, ar8: Arena, lf: FaceId, bl: LoopId, bf: FaceId, ll: LoopId,
                   s: ShellId, fs: seq<FaceId>, n: nat, bs: Surface, ls: Surface)
    requires Bounded(ar6) && bl in ar6.loops && ll in ar6.loops && bl != ll
    requires |ar6.loops[bl].halfEdges| == n && |ar6.loops[ll].halfEdges| == n
    requires Ring(ar6, ar6.loops[bl].halfEdges) && Ring(ar6, ar6.loops[ll].halfEdges)
    requires bf in ar6.faces && ar6.faces[bf] == Face(bs, None, Some(bl), [], FaceData(None, false), None)
    requires ar6.loops[bl].face == Some(bf) && ar6.loops[ll].face.None?
    requires (ar7, lf) == CreateFace(ar6, ls, ll)
    requires s in ar7.shells && (forall k :: 0 <= k < |fs| ==> fs[k] in ar7.faces)
    requires ar8 == AssignShell(ar7, s, fs)
    ensures Cap(ar8, bf, bs, n) && Cap(ar8, lf, ls, n) && lf != bf
    ensures OuterHalfEdges(ar8, bf) == ar6.loops[bl].halfEdges
    ensures OuterHalfEdges(ar8, lf) == ar6.loops[ll].halfEdges
  {
    CapIntro(ar6, bf, bl, bs, n);
    LidCap(ar6, ar7, lf, ls, ll, n);
    LidFaceKeeps(ar6, ar7, lf, ls, ll);
    CapKept(ar6, ar7, bf, bs, n);
    AssignShellKeeps(ar7, ar8, s, fs);
    CapKept(ar7, ar8, bf, bs, n);
    CapKept(ar7, ar8, lf, ls, n);
  }

  /** Closing the shell after stitching gives the prism. */
  lemma PrismClosed(ar0: Arena, ar6: Arena, ar7: Arena, ar8: Arena, lf: FaceId,
                    bl: LoopId, bf: FaceId, ll: LoopId, s: ShellId,
                    walls: seq<FaceId>, es: seq<EdgeId>, n: nat, bs: Surface, ls: Surface)
    requires ReadyToClose(ar0, ar6, bl, bf, ll, s, walls, es, n, bs)
    requires (ar7, lf) == CreateFace(ar6, ls, ll)
    requires forall k :: 0 <= k < |walls + [bf, lf]| ==> (walls + [bf, lf])[k] in ar7.faces
    requires ar8 == AssignShell(ar7, s, walls + [bf, lf])
    ensures Prism(ar8, s, n, bs, ls)
  {
    var fs := walls + [bf, lf];
    var baseHs := ar6.loops[bl].halfEdges;
    var lidHs := ar6.loops[ll].halfEdges;
    LidFaceKeeps(ar6, ar7, lf, ls, ll);
    AssignShellKeeps(ar7, ar8, s, fs);
    WallsAreFaces(ar0, ar6, walls, es, baseHs, lidHs);
    assert bl != ll;
    CapsClosed(ar6, ar7, ar8, lf, bl, bf, ll, s, fs, n, bs, ls);
    assert bf !in walls;
    ShellFacesDistinct(walls, bf, lf);
    WallsStitchedKept(ar0, ar6, ar7, walls, es, baseHs, lidHs);
    WallsStitchedKept(ar0, ar7, ar8, walls, es, baseHs, lidHs);
    PrismIntro(ar0, ar8, s, n, bs, ls, walls, bf, lf, es, baseHs, lidHs);
  }

  /** After the walls are built and stitched the state is `ReadyToClose`. */
  lemma StitchedReady(ar0: Arena, ar4: Arena, ar5: Arena, ar6: Arena, bl: LoopId, bf: FaceId, ll: LoopId,
                      s: ShellId, baseSegs: seq<TrimmedSegment>, lidSegs: seq<TrimmedSegment>, bs: Surface,
                      walls: seq<FaceId>, es: seq<EdgeId>)
    requires CapsReady(ar0, ar4, bl, bf, ll, s, baseSegs, lidSegs, bs) && |lidSegs| == |baseSegs|
    requires |walls| == |es| == |baseSegs|
    requires WallsInv(ar4, ar5, walls, ar4.loops[bl].halfEdges, ar4.loops[ll].halfEdges)
    requires Stitchable(ar5, walls) && Bounded(ar6) && StitchFrame(ar5, ar6)
    requires forall k :: 0 <= k < |walls| ==> StitchAt(ar5, ar6, walls, es[k], k)
    ensures ReadyToClose(ar4, ar6, bl, bf, ll, s, walls, es, |baseSegs|, bs)
  {
    var baseHs := ar4.loops[bl].halfEdges;
    var lidHs := ar4.loops[ll].halfEdges;
    WallsStitchedIntro(ar4, ar5, ar6, walls, es, baseHs, lidHs);
    RingKept(ar4, ar6, baseHs);
    RingKept(ar4, ar6, lidHs);
  }

  /** The walls loop and the `iterateSegments` stitching of `extrude`,
      from the caps to `ReadyToClose`. */
  method WallsAndSeams(ghost ar0: Arena, ar4: Arena, bl: LoopId, bf: FaceId, ll: LoopId, s: ShellId,
                       baseSegs: seq<TrimmedSegment>, lidSegs: seq<TrimmedSegment>, bs: Surface, geo: FaceGeometry)
    returns (r: Result<(Arena, seq<FaceId>, seq<EdgeId>), Thrown>)
    requires CapsReady(ar0, ar4, bl, bf, ll, s, baseSegs, lidSegs, bs) && |lidSegs| == |baseSegs|
    ensures (forall k :: 0 <= k < |baseSegs| ==> baseSegs[k].curve == Line && lidSegs[k].curve == Line)
      ==> r.Ok?
    ensures r.Err? ==> r.error == Unsupported
    ensures r.Ok? ==> ReadyToClose(ar4, r.value.0, bl, bf, ll, s, r.value.1, r.value.2, |baseSegs|, bs)
  {
    var baseHs := ar4.loops[bl].halfEdges;
    var lidHs := ar4.loops[ll].halfEdges;
    var built := BuildWalls(ar4, baseHs, lidHs, geo);
    if built.Err? {
      return Err(built.error);
    }
    var (ar5, walls) := built.value;
    WallsStitchable(ar4, ar5, walls, baseHs, lidHs);
    var ar6, es := StitchWalls(ar5, walls);
    StitchedReady(ar0, ar4, ar5, ar6, bl, bf, ll, s, baseSegs, lidSegs, bs, walls, es);
    return Ok((ar6, walls, es));
  }

  /** `createFace(lidSurface, lidLoop)`, `shell.faces.push(baseFace,
      lidFace)` and `shell.faces.forEach(f => f.shell = shell)`. */
  method CloseShell(ghost ar0: Arena, ar6: Arena, bl: LoopId, bf: FaceId, ll: LoopId, s: ShellId,
                    walls: seq<FaceId>, ghost es: seq<EdgeId>, ghost n: nat, ghost bs: Surface, ls: Surface)
    returns (ar: Arena)
    requires ReadyToClose(ar0, ar6, bl, bf, ll, s, walls, es, n, bs)
    ensures Bounded(ar) && Prism(ar, s, n, bs, ls) && ar.shells.Keys == ar6.shells.Keys
  {
    var (ar7, lf) := CreateFace(ar6, ls, ll);
    var fs := walls + [bf, lf];
    assert forall k :: 0 <= k < |fs| ==> fs[k] in ar7.faces by {
      LidFaceKeeps(ar6, ar7, lf, ls, ll);
      WallsAreFaces(ar0, ar6, walls, es, ar6.loops[bl].halfEdges, ar6.loops[ll].halfEdges);
    }
    ar := AssignShell(ar7, s, fs);
    PrismClosed(ar0, ar6, ar7, ar, lf, bl, bf, ll, s, walls, es, n, bs, ls);
  }

  /** `extrude(contour, baseSurface, reverse)`. The contour enters as the
      two segment lists `contour.transferOnSurface` yields for the base
      (in the order `reverse` asks for) and for the lid (walked
      backwards); `invert` is `Surface.invert` and `lidSurfaceOf` is
      `getLidSurface`. The result is a new shell that is a `Prism` over
      the base surface (inverted when `reverse`) and the lid surface. */
  method Extrude(ar0: Arena, baseSegs: seq<TrimmedSegment>, lidSegs: seq<TrimmedSegment>,
                 baseSurface: Surface, reverse: bool,
                 invert: Surface -> Surface, lidSurfaceOf: Surface -> Surface, geo: FaceGeometry)
    returns (r: Result<(Arena, ShellId), Thrown>)
    requires Bounded(ar0) && |lidSegs| == |baseSegs|
    ensures (forall k :: 0 <= k < |baseSegs| ==> baseSegs[k].curve == Line && lidSegs[k].curve == Line)
      ==> r.Ok?
    ensures r.Err? ==> r.error == Unsupported
    ensures r.Ok? ==>
      var bs := if reverse then invert(baseSurface) else baseSurface;
      && Bounded(r.value.0) && r.value.1 !in ar0.shells
      && Prism(r.value.0, r.value.1, |baseSegs|, bs, lidSurfaceOf(bs))
  {
    var bs := if reverse then invert(baseSurface) else baseSurface;
    var ls := lidSurfaceOf(bs);
    var ar4, bl, bf, ll, s := PrepareCaps(ar0, baseSegs, lidSegs, bs);
    var stitched := WallsAndSeams(ar0, ar4, bl, bf, ll, s, baseSegs, lidSegs, bs, geo);
    if stitched.Err? {
      return Err(stitched.error);
    }
    var (ar6, walls, es) := stitched.value;
    var ar := CloseShell(ar4, ar6, bl, bf, ll, s, walls, es, |baseSegs|, bs, ls);
    return Ok((ar, s));
  }
}
