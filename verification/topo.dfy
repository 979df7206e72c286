/** The half-edge topology of `web/app/brep/topo/edge.js` and
    `web/app/brep/topo/face.js`, held in an arena: every vertex, half-edge,
    edge, loop, face and shell is a record addressed by an integer handle.
    A JavaScript object reference becomes a handle; `null`/`undefined`
    becomes `None`. One counter hands out every new handle, so an
    allocation never collides with an object that already exists. */
module Topo {
  import opened Wrappers

  type VertexId = int
  type HalfEdgeId = int
  type EdgeId = int
  type LoopId = int
  type FaceId = int
  type ShellId = int

  /** A 3D position; the model never computes with it. */
  datatype Point = Point(x: real, y: real, z: real)

  /** The curve kinds the builder distinguishes by runtime class. */
  datatype Curve = Line | ApproxCurve(id: int) | OtherCurve(id: int)

  /** A surface is an opaque geometric object, compared by identity. */
  datatype Surface = Surface(id: int)

  datatype HalfEdge = HalfEdge(
    edge: Option<EdgeId>,
    inverted: bool,
    vertexA: VertexId,
    vertexB: VertexId,
    loop: Option<LoopId>,
    next: Option<HalfEdgeId>,
    prev: Option<HalfEdgeId>)

  datatype Edge = Edge(curve: Curve, halfEdge1: HalfEdgeId, halfEdge2: HalfEdgeId)

  datatype Loop = Loop(face: Option<FaceId>, halfEdges: seq<HalfEdgeId>)

  /** The parts of a face's `data` bag the core reads or writes:
      `data.id` and `data.INVERTED`. */
  datatype FaceData = FaceData(id: Option<string>, inverted: bool)

  /** The cached 2D working environment of a face (`__2d`); its contents are
      geometry and stay opaque. */
  datatype Env2D = Env2D(tag: int)

  datatype Face = Face(
    surface: Surface,
    shell: Option<ShellId>,
    outerLoop: Option<LoopId>,
    innerLoops: seq<LoopId>,
    data: FaceData,
    env2d: Option<Env2D>)

  datatype Shell = Shell(faces: seq<FaceId>)

  datatype Arena = Arena(
    points: map<VertexId, Point>,
    halfEdges: map<HalfEdgeId, HalfEdge>,
    edges: map<EdgeId, Edge>,
    loops: map<LoopId, Loop>,
    faces: map<FaceId, Face>,
    shells: map<ShellId, Shell>,
    nextHandle: int)

  /** Every handle in use is below the allocation counter. */
  ghost predicate Bounded(ar: Arena) {
    && (forall k :: k in ar.points ==> k < ar.nextHandle)
    && (forall k :: k in ar.halfEdges ==> k < ar.nextHandle)
    && (forall k :: k in ar.edges ==> k < ar.nextHandle)
    && (forall k :: k in ar.loops ==> k < ar.nextHandle)
    && (forall k :: k in ar.faces ==> k < ar.nextHandle)
    && (forall k :: k in ar.shells ==> k < ar.nextHandle)
  }

  function Empty(): (ar: Arena)
    ensures Bounded(ar)
  {
    Arena(map[], map[], map[], map[], map[], map[], 0)
  }

  // ---------------------------------------------------------------------
  // edge.js

  /** `new Edge(curve, a, b)`: a non-inverted `halfEdge1` a->b and an
      inverted `halfEdge2` b->a, both pointing back to the new edge and not
      yet in any loop. */
  function NewEdge(ar: Arena, curve: Curve, a: VertexId, b: VertexId): (r: (Arena, EdgeId))
    requires Bounded(ar)
    ensures var (ar', e) := r;
      && Bounded(ar')
      && e !in ar.edges && e in ar'.edges
      && var h1 := ar'.edges[e].halfEdge1; var h2 := ar'.edges[e].halfEdge2;
      && ar'.edges[e].curve == curve
      && h1 != h2 && h1 !in ar.halfEdges && h2 !in ar.halfEdges
      && h1 in ar'.halfEdges && h2 in ar'.halfEdges
      && ar'.halfEdges[h1].edge == Some(e) && ar'.halfEdges[h2].edge == Some(e)
      && !ar'.halfEdges[h1].inverted && ar'.halfEdges[h2].inverted
      && ar'.halfEdges[h1].vertexA == a && ar'.halfEdges[h1].vertexB == b
      && ar'.halfEdges[h2].vertexA == b && ar'.halfEdges[h2].vertexB == a
      && Detached(ar'.halfEdges[h1]) && Detached(ar'.halfEdges[h2])
      && Twin(ar', h1) == h2 && Twin(ar', h2) == h1
      && ar'.halfEdges.Keys == ar.halfEdges.Keys + {h1, h2}
      && ar'.edges.Keys == ar.edges.Keys + {e}
      && (forall k :: k in ar.halfEdges ==> ar'.halfEdges[k] == ar.halfEdges[k])
      && (forall k :: k in ar.edges ==> ar'.edges[k] == ar.edges[k])
      && ar'.loops == ar.loops && ar'.faces == ar.faces
      && ar'.points == ar.points && ar'.shells == ar.shells
  {
    var e := ar.nextHandle;
    var h1 := ar.nextHandle + 1;
    var h2 := ar.nextHandle + 2;
    var ar' := ar.(
      edges := ar.edges[e := Edge(curve, h1, h2)],
      halfEdges := ar.halfEdges[h1 := HalfEdge(Some(e), false, a, b, None, None, None)]
                               [h2 := HalfEdge(Some(e), true, b, a, None, None, None)],
      nextHandle := ar.nextHandle + 3);
    (ar', e)
  }

  /** A freshly constructed half-edge: no loop, no `next`, no `prev`. */
  predicate Detached(h: HalfEdge) {
    h.loop.None? && h.next.None? && h.prev.None?
  }

  /** `new Edge(curve)` called without endpoints: the constructor still
      builds two half-edges, but their endpoints are `undefined`. The model
      gives them fresh handles and no record, so nothing can read an
      endpoint of them. */
  function NewBareEdge(ar: Arena, curve: Curve): (r: (Arena, EdgeId))
    requires Bounded(ar)
    ensures var (ar', e) := r;
      && Bounded(ar')
      && e !in ar.edges && e in ar'.edges
      && ar'.edges[e].curve == curve
      && ar'.edges[e].halfEdge1 !in ar'.halfEdges
      && ar'.edges[e].halfEdge2 !in ar'.halfEdges
      && ar'.edges[e].halfEdge1 != ar'.edges[e].halfEdge2
      && ar'.edges[e].halfEdge1 < ar'.nextHandle && ar'.edges[e].halfEdge2 < ar'.nextHandle
      && ar'.edges.Keys == ar.edges.Keys + {e}
      && (forall k :: k in ar.edges ==> ar'.edges[k] == ar.edges[k])
      && ar'.halfEdges == ar.halfEdges && ar'.loops == ar.loops
      && ar'.faces == ar.faces && ar'.points == ar.points && ar'.shells == ar.shells
      && ar'.nextHandle > ar.nextHandle
  {
    var e := ar.nextHandle;
    (ar.(edges := ar.edges[e := Edge(curve, e + 1, e + 2)], nextHandle := ar.nextHandle + 3), e)
  }

  /** `HalfEdge.create(a, b, loop)`, which `edge.js` does not define: a new
      a->b half-edge that belongs to `loop`, has no edge and is not linked.
      It is not added to the loop's list; the caller does that. */
  function CreateHalfEdgeIn(ar: Arena, a: VertexId, b: VertexId, l: LoopId): (r: (Arena, HalfEdgeId))
    requires Bounded(ar)
    ensures var (ar', h) := r;
      && Bounded(ar')
      && h !in ar.halfEdges && h >= ar.nextHandle && ar'.nextHandle > h
      && ar'.halfEdges.Keys == ar.halfEdges.Keys + {h}
      && ar'.halfEdges[h] == HalfEdge(None, false, a, b, Some(l), None, None)
      && (forall k :: k in ar.halfEdges ==> ar'.halfEdges[k] == ar.halfEdges[k])
      && ar'.edges == ar.edges && ar'.loops == ar.loops && ar'.faces == ar.faces
      && ar'.points == ar.points && ar'.shells == ar.shells
  {
    var h := ar.nextHandle;
    (ar.(halfEdges := ar.halfEdges[h := HalfEdge(None, false, a, b, Some(l), None, None)],
         nextHandle := h + 1), h)
  }

  /** `halfEdge.createTwin()`, which `edge.js` does not define: a new
      half-edge running the other way along the same edge, with the
      opposite `inverted` flag, in no loop and not linked. The edge record
      itself is left alone. */
  function CreateTwin(ar: Arena, h: HalfEdgeId): (r: (Arena, HalfEdgeId))
    requires Bounded(ar) && h in ar.halfEdges
    ensures var (ar', t) := r;
      && Bounded(ar')
      && t !in ar.halfEdges && t >= ar.nextHandle && ar'.nextHandle > t
      && ar'.halfEdges.Keys == ar.halfEdges.Keys + {t}
      && ar'.halfEdges[t].vertexA == ar.halfEdges[h].vertexB
      && ar'.halfEdges[t].vertexB == ar.halfEdges[h].vertexA
      && ar'.halfEdges[t].edge == ar.halfEdges[h].edge
      && ar'.halfEdges[t].inverted == !ar.halfEdges[h].inverted
      && Detached(ar'.halfEdges[t])
      && (forall k :: k in ar.halfEdges ==> ar'.halfEdges[k] == ar.halfEdges[k])
      && ar'.edges == ar.edges && ar'.loops == ar.loops && ar'.faces == ar.faces
      && ar'.points == ar.points && ar'.shells == ar.shells
  {
    var x := ar.halfEdges[h];
    var t := ar.nextHandle;
    (ar.(halfEdges := ar.halfEdges[t := HalfEdge(x.edge, !x.inverted, x.vertexB, x.vertexA, None, None, None)],
         nextHandle := t + 1), t)
  }

  /** `new Loop()`: a new loop with no face and no half-edges. */
  function NewLoop(ar: Arena): (r: (Arena, LoopId))
    requires Bounded(ar)
    ensures var (ar', l) := r;
      && Bounded(ar')
      && l !in ar.loops && l >= ar.nextHandle && ar'.nextHandle > l
      && ar'.loops == ar.loops[l := Loop(None, [])]
      && ar'.loops.Keys == ar.loops.Keys + {l}
      && ar'.halfEdges == ar.halfEdges && ar'.edges == ar.edges && ar'.points == ar.points
      && ar'.faces == ar.faces && ar'.shells == ar.shells
  {
    var l := ar.nextHandle;
    (ar.(loops := ar.loops[l := Loop(None, [])], nextHandle := l + 1), l)
  }

  /** `new Shell()`: a new shell with no faces. */
  function NewShell(ar: Arena): (r: (Arena, ShellId))
    requires Bounded(ar)
    ensures var (ar', s) := r;
      && Bounded(ar')
      && s !in ar.shells && s >= ar.nextHandle && ar'.nextHandle > s
      && ar'.shells == ar.shells[s := Shell([])]
      && ar'.halfEdges == ar.halfEdges && ar'.edges == ar.edges && ar'.loops == ar.loops
      && ar'.faces == ar.faces && ar'.points == ar.points
  {
    var s := ar.nextHandle;
    (ar.(shells := ar.shells[s := Shell([])], nextHandle := s + 1), s)
  }

  /** `new Vertex(point)`: a new vertex at the given point. */
  function NewVertex(ar: Arena, p: Point): (r: (Arena, VertexId))
    requires Bounded(ar)
    ensures var (ar', v) := r;
      && Bounded(ar')
      && v !in ar.points && v >= ar.nextHandle && ar'.nextHandle > v
      && ar'.points == ar.points[v := p]
      && ar'.halfEdges == ar.halfEdges && ar'.edges == ar.edges && ar'.loops == ar.loops
      && ar'.faces == ar.faces && ar'.shells == ar.shells
  {
    var v := ar.nextHandle;
    (ar.(points := ar.points[v := p], nextHandle := v + 1), v)
  }

  /** `HalfEdge.twin()`: the other half of the half-edge's CURRENT edge.
      Any half-edge that is not the edge's `halfEdge1` gets `halfEdge1`. */
  function Twin(ar: Arena, h: HalfEdgeId): HalfEdgeId
    requires h in ar.halfEdges && ar.halfEdges[h].edge.Some?
    requires ar.halfEdges[h].edge.value in ar.edges
  {
    var e := ar.edges[ar.halfEdges[h].edge.value];
    if e.halfEdge1 == h then e.halfEdge2 else e.halfEdge1
  }

  /** The two halves of edge `e` both exist, differ and point back to `e`. */
  ghost predicate EdgePair(ar: Arena, e: EdgeId) {
    && e in ar.edges
    && ar.edges[e].halfEdge1 != ar.edges[e].halfEdge2
    && ar.edges[e].halfEdge1 in ar.halfEdges
    && ar.edges[e].halfEdge2 in ar.halfEdges
    && ar.halfEdges[ar.edges[e].halfEdge1].edge == Some(e)
    && ar.halfEdges[ar.edges[e].halfEdge2].edge == Some(e)
  }

  /** On a well-formed edge `twin` is an involution that swaps the halves. */
  lemma TwinInvolution(ar: Arena, e: EdgeId)
    requires EdgePair(ar, e)
    ensures Twin(ar, ar.edges[e].halfEdge1) == ar.edges[e].halfEdge2
    ensures Twin(ar, ar.edges[e].halfEdge2) == ar.edges[e].halfEdge1
    ensures forall h :: h == ar.edges[e].halfEdge1 || h == ar.edges[e].halfEdge2 ==>
      Twin(ar, Twin(ar, h)) == h
  {
  }

  /** `twin()` reads nothing but the edge's current halves: a half-edge that
      is registered as neither half is answered with `halfEdge1`. */
  lemma TwinOfStranger(ar: Arena, h: HalfEdgeId)
    requires h in ar.halfEdges && ar.halfEdges[h].edge.Some?
    requires ar.halfEdges[h].edge.value in ar.edges
    requires h != ar.edges[ar.halfEdges[h].edge.value].halfEdge1
    ensures Twin(ar, h) == ar.edges[ar.halfEdges[h].edge.value].halfEdge1
  {
  }

  // ---------------------------------------------------------------------
  // face.js

  /** `new Face(surface)`: the given surface, no shell, a new empty outer
      loop owned by the face, no inner loops. */
  function NewFace(ar: Arena, surface: Surface): (r: (Arena, FaceId))
    requires Bounded(ar)
    ensures var (ar', f) := r;
      && Bounded(ar')
      && f !in ar.faces && f in ar'.faces
      && ar'.faces[f].surface == surface
      && ar'.faces[f].shell.None?
      && ar'.faces[f].innerLoops == []
      && ar'.faces[f].outerLoop.Some?
      && var l := ar'.faces[f].outerLoop.value;
      && l !in ar.loops && l in ar'.loops
      && ar'.loops[l] == Loop(Some(f), [])
      && ar'.faces[f].env2d.None?
      && ar'.faces.Keys == ar.faces.Keys + {f}
      && ar'.loops.Keys == ar.loops.Keys + {l}
      && (forall k :: k in ar.faces ==> ar'.faces[k] == ar.faces[k])
      && (forall k :: k in ar.loops ==> ar'.loops[k] == ar.loops[k])
      && ar'.halfEdges == ar.halfEdges && ar'.edges == ar.edges
      && ar'.points == ar.points && ar'.shells == ar.shells
      && ar'.nextHandle > ar.nextHandle
  {
    var f := ar.nextHandle;
    var l := ar.nextHandle + 1;
    var ar' := ar.(
      faces := ar.faces[f := Face(surface, None, Some(l), [], FaceData(None, false), None)],
      loops := ar.loops[l := Loop(Some(f), [])],
      nextHandle := ar.nextHandle + 2);
    (ar', f)
  }

  /** The `loops` iterable: the outer loop (when present) first, then the
      inner loops in order, and nothing else. */
  function Loops(f: Face): (r: seq<LoopId>)
    ensures forall l :: l in r <==> (f.outerLoop == Some(l) || l in f.innerLoops)
    ensures f.outerLoop.Some? ==> |r| == |f.innerLoops| + 1 && r[0] == f.outerLoop.value
    ensures f.outerLoop.None? ==> r == f.innerLoops
    ensures r[|r| - |f.innerLoops|..] == f.innerLoops
  {
    match f.outerLoop
    case Some(o) => [o] + f.innerLoops
    case None => f.innerLoops
  }

  /** Total number of half-edges over the given loops. */
  function SumLengths(ar: Arena, ls: seq<LoopId>): nat
    requires forall l :: l in ls ==> l in ar.loops
  {
    if |ls| == 0 then 0
    else var l := ls[0]; assert l in ls; |ar.loops[l].halfEdges| + SumLengths(ar, ls[1..])
  }

  /** The half-edges of the given loops, loop after loop. */
  function ConcatLoops(ar: Arena, ls: seq<LoopId>): (r: seq<HalfEdgeId>)
    requires forall l :: l in ls ==> l in ar.loops
    ensures |r| == SumLengths(ar, ls)
  {
    if |ls| == 0 then []
    else
      var l := ls[0];
      assert l in ls;
      ar.loops[l].halfEdges + ConcatLoops(ar, ls[1..])
  }

  /** A half-edge is in the concatenation exactly when it is in one of
      the loops. */
  lemma {:induction false} ConcatLoopsMembers(ar: Arena, ls: seq<LoopId>)
    requires forall l :: l in ls ==> l in ar.loops
    ensures forall h :: h in ConcatLoops(ar, ls) <==> exists l :: l in ls && h in ar.loops[l].halfEdges
    decreases |ls|
  {
    if |ls| > 0 {
      ConcatLoopsMembers(ar, ls[1..]);
      assert forall l :: l in ls <==> l == ls[0] || l in ls[1..];
    }
  }

  /** Every loop of the face exists in the arena. */
  ghost predicate LoopsPresent(ar: Arena, f: FaceId) {
    f in ar.faces && forall l :: l in Loops(ar.faces[f]) ==> l in ar.loops
  }

  /** The `edges` iterable: every half-edge of every loop, in `loops` order. */
  function FaceEdges(ar: Arena, f: FaceId): (r: seq<HalfEdgeId>)
    requires LoopsPresent(ar, f)
    ensures |r| == SumLengths(ar, Loops(ar.faces[f]))
  {
    ConcatLoops(ar, Loops(ar.faces[f]))
  }

  /** A half-edge is in `edges` exactly when one of the face's loops holds it. */
  lemma FaceEdgesMembers(ar: Arena, f: FaceId)
    requires LoopsPresent(ar, f)
    ensures forall h :: h in FaceEdges(ar, f) <==>
      exists l :: l in Loops(ar.faces[f]) && h in ar.loops[l].halfEdges
  {
    ConcatLoopsMembers(ar, Loops(ar.faces[f]));
  }

  /** Concatenating the loops of two lists one after the other. */
  lemma {:induction false} ConcatLoopsAppend(ar: Arena, a: seq<LoopId>, b: seq<LoopId>)
    requires forall l :: l in a ==> l in ar.loops
    requires forall l :: l in b ==> l in ar.loops
    ensures forall l :: l in a + b ==> l in ar.loops
    ensures ConcatLoops(ar, a + b) == ConcatLoops(ar, a) + ConcatLoops(ar, b)
    decreases |a|
  {
    if |a| == 0 {
      assert a + b == b;
    } else {
      assert (a + b)[1..] == a[1..] + b;
      var l := a[0]; assert l in a;
      ConcatLoopsAppend(ar, a[1..], b);
      var h0 := ar.loops[l].halfEdges;
      var x, y := ConcatLoops(ar, a[1..]), ConcatLoops(ar, b);
      assert ConcatLoops(ar, a + b) == h0 + (x + y);
      assert h0 + (x + y) == (h0 + x) + y;
    }
  }

  /** The half-edges of the `i`-th loop form one block of the
      concatenation: after those of the loops before it and before those of
      the loops after it. */
  lemma ConcatLoopsAt(ar: Arena, ls: seq<LoopId>, i: nat)
    requires forall l :: l in ls ==> l in ar.loops
    requires i < |ls|
    ensures forall l :: l in ls[..i] ==> l in ar.loops
    ensures forall l :: l in ls[i + 1..] ==> l in ar.loops
    ensures ConcatLoops(ar, ls) == ConcatLoops(ar, ls[..i]) + ar.loops[ls[i]].halfEdges + ConcatLoops(ar, ls[i + 1..])
  {
    var front, mid, back := ls[..i], [ls[i]], ls[i + 1..];
    assert ls == front + (mid + back);
    ConcatLoopsAppend(ar, mid, back);
    ConcatLoopsAppend(ar, front, mid + back);
    ConcatLoopsOne(ar, ls[i]);
  }

  lemma ConcatLoopsOne(ar: Arena, l: LoopId)
    requires l in ar.loops
    ensures ConcatLoops(ar, [l]) == ar.loops[l].halfEdges
  {
    assert [l][1..] == [];
  }

  /** `edges` visits the loops one after another: the half-edges of the
      `i`-th loop of `Loops(face)` form a block, after those of the loops
      before it and before those of the loops after it. */
  lemma FaceEdgesBlocks(ar: Arena, f: FaceId, i: nat)
    requires LoopsPresent(ar, f) && i < |Loops(ar.faces[f])|
    ensures var ls := Loops(ar.faces[f]);
      && ls[i] in ar.loops
      && (forall l :: l in ls[..i] ==> l in ar.loops)
      && (forall l :: l in ls[i + 1..] ==> l in ar.loops)
      && FaceEdges(ar, f) == ConcatLoops(ar, ls[..i]) + ar.loops[ls[i]].halfEdges + ConcatLoops(ar, ls[i + 1..])
  {
    assert Loops(ar.faces[f])[i] in Loops(ar.faces[f]);
    ConcatLoopsAt(ar, Loops(ar.faces[f]), i);
  }

  /** The `id` getter reads `data.id`. */
  function GetId(f: Face): Option<string> {
    f.data.id
  }

  /** The `id` setter writes `data.id` and nothing else. */
  function SetId(f: Face, id: Option<string>): (r: Face)
    ensures r.data.id == id
    ensures r.(data := f.data) == f && r.data.inverted == f.data.inverted
  {
    f.(data := f.data.(id := id))
  }

  /** Reading the id returns what was last written. */
  lemma IdRoundTrip(f: Face, id: Option<string>)
    ensures GetId(SetId(f, id)) == id
    ensures SetId(f, GetId(f)) == f
  {
  }

  /** `env2D()`: builds the working environment only when nothing is cached
      yet; otherwise returns the cached object and leaves the face alone. */
  function Env2DOf(f: Face, build: Face -> Env2D): (r: (Env2D, Face))
    ensures f.env2d.Some? ==> r == (f.env2d.value, f)
    ensures f.env2d.None? ==> r.0 == build(f) && r.1 == f.(env2d := Some(r.0))
    ensures r.1.env2d == Some(r.0)
  {
    match f.env2d
    case Some(env) => (env, f)
    case None =>
      var env := build(f);
      (env, f.(env2d := Some(env)))
  }

  /** A second `env2D()` call computes nothing: it returns the object of the
      first call and leaves the face as the first call left it. */
  lemma Env2DMemoised(f: Face, build: Face -> Env2D, build2: Face -> Env2D)
    ensures var (env1, f1) := Env2DOf(f, build);
      Env2DOf(f1, build2) == (env1, f1)
  {
  }
}
