/** `split(nodes, result, onCurve, direction)`, written out in
    `web/app/hds/boolean.js` and copied into
    `web/app/brep/operations/boolean.js`: the pairing loop of `Nodes` joins
    each node with its closest partner on the curve; for every pair both
    crossed half-edges are split at the nodes' vertices and a new edge
    along the curve joins the two vertices. The edge's `halfEdge2` is the
    half that runs along `direction`, and the edge is added to `result`
    unless `containsEdges` finds one like it there.

    The newer file's caller passes neither one curve nor a direction, and
    the newer file does not define `containsEdges`; the three arguments
    that differ are therefore explicit here (`CurveArg`, an optional
    direction, an optional `containsEdges`). */
module Split {
  import opened Wrappers
  import opened Seqs
  import opened Topo
  import opened SolveData
  import opened SplitEdge
  import opened Nodes

  /** What `split` builds up: the arena, the solve data and the list
      `result` of new edges. */
  datatype SplitState = SplitState(ar: Arena, store: SolveStore, result: seq<EdgeId>)

  /** The `onCurve` argument: one curve, known by its parameter function
      `t`, or the list of all intersection curves, which has no `t`. */
  datatype CurveArg = OneCurve(curve: Curve, t: Point -> real) | CurveList

  /** `direction.dot(b.minus(a))` for the points `a`, `b`. */
  type DirDot = (Point, Point) -> real

  /** `areEdgesEqual(h1, h2)` on two half-edges of the current arena; the
      function is neither defined nor imported in the files it is called
      from, so it is a parameter. */
  type EdgesEqual = (Arena, HalfEdgeId, HalfEdgeId) -> bool

  /** What a call of `containsEdges(result, edge)` finds to run: nothing
      at all, as in `web/app/brep/operations/boolean.js`, which calls it
      without defining it; the loop of `web/app/hds/boolean.js`, whose
      `isSameEdge` calls the undefined `areEdgesEqual` as soon as `result`
      has an edge; or that loop with `areEdgesEqual` supplied. */
  datatype ContainsEdges = NotDefined | EqualNotDefined | Defined(eq: EdgesEqual)

  /** The equality `containsEdges` compares with; when `areEdgesEqual` is
      missing it is only reached over an empty `result`, where no
      comparison happens. */
  function EqOf(c: ContainsEdges): EdgesEqual {
    if c.Defined? then c.eq else (ar: Arena, a: HalfEdgeId, b: HalfEdgeId) => false
  }

  /** `containsEdges(result, edge)` can be called without throwing. */
  predicate CanContain(c: ContainsEdges, result: seq<EdgeId>) {
    c.Defined? || (c.EqualNotDefined? && |result| == 0)
  }

  // ---------------------------------------------------------------------
  // the new edge

  /** The shape of the edge `e` that `split` makes between `a` and `b`:
      both halves exist, point back to `e`, are detached and not inverted;
      `halfEdge2` runs a->b when `sameDirection` and b->a otherwise, and
      `halfEdge1` the other way. */
  ghost predicate CrossShape(ar: Arena, e: EdgeId, curve: Curve, a: VertexId, b: VertexId, sameDirection: bool) {
    && EdgePair(ar, e) && ar.edges[e].curve == curve
    && var h1 := ar.halfEdges[ar.edges[e].halfEdge1];
    && var h2 := ar.halfEdges[ar.edges[e].halfEdge2];
    && Detached(h1) && Detached(h2) && !h1.inverted && !h2.inverted
    && h2.vertexA == (if sameDirection then a else b) && h2.vertexB == (if sameDirection then b else a)
    && h1.vertexA == h2.vertexB && h1.vertexB == h2.vertexA
  }

  /** `halfEdge1`/`halfEdge2` made with `new HalfEdge()` and their
      endpoints set, then `new Edge(onCurve)` whose halves are replaced by
      them (the two halves the `Edge` constructor makes are dropped at once
      and get no record). */
  function NewCrossEdge(ar: Arena, curve: Curve, a: VertexId, b: VertexId, sameDirection: bool): (r: (Arena, EdgeId))
    requires Bounded(ar)
    ensures var (ar', e) := r;
      && Bounded(ar') && ar'.nextHandle >= ar.nextHandle
      && e !in ar.edges && e >= ar.nextHandle && ar'.edges.Keys == ar.edges.Keys + {e}
      && (forall x :: x in ar.edges ==> ar'.edges[x] == ar.edges[x])
      && ar'.halfEdges.Keys >= ar.halfEdges.Keys
      && (forall x :: x in ar.halfEdges ==> ar'.halfEdges[x] == ar.halfEdges[x])
      && (forall x :: x in ar'.halfEdges && x !in ar.halfEdges ==>
            ar'.halfEdges[x].edge == Some(e) && ar'.halfEdges[x].loop.None?)
      && ar'.points == ar.points && ar'.loops == ar.loops && ar'.faces == ar.faces && ar'.shells == ar.shells
      && CrossShape(ar', e, curve, a, b, sameDirection)
  {
    var h1 := ar.nextHandle;
    var h2 := ar.nextHandle + 1;
    var e := ar.nextHandle + 2;
    var same := if sameDirection then h1 else h2;
    var negative := if sameDirection then h2 else h1;
    (ar.(halfEdges := ar.halfEdges[h1 := HalfEdge(Some(e), false, a, b, None, None, None)]
                                  [h2 := HalfEdge(Some(e), false, b, a, None, None, None)],
         edges := ar.edges[e := Edge(curve, negative, same)],
         nextHandle := ar.nextHandle + 3), e)
  }

  /** The two halves of the new edge are each other's twins. */
  lemma CrossEdgeTwins(ar: Arena, curve: Curve, a: VertexId, b: VertexId, sameDirection: bool)
    requires Bounded(ar)
    ensures var (ar', e) := NewCrossEdge(ar, curve, a, b, sameDirection);
      var h1 := ar'.edges[e].halfEdge1;
      var h2 := ar'.edges[e].halfEdge2;
      Twin(ar', h1) == h2 && Twin(ar', h2) == h1
  {
  }

  // ---------------------------------------------------------------------
  // containsEdges

  /** Every listed edge exists. */
  ghost predicate ListedIn(ar: Arena, edges: seq<EdgeId>) {
    forall k :: 0 <= k < |edges| ==> edges[k] in ar.edges
  }

  /** `containsEdges(edges, edge)` of `web/app/hds/boolean.js`: some listed
      edge's `halfEdge1` is `areEdgesEqual` to the edge's `halfEdge1`
      (`isSameEdge`). */
  function ContainsEdge(ar: Arena, edges: seq<EdgeId>, e: EdgeId, eq: EdgesEqual): (r: bool)
    requires e in ar.edges && ListedIn(ar, edges)
    ensures r <==> exists k :: 0 <= k < |edges| && eq(ar, ar.edges[edges[k]].halfEdge1, ar.edges[e].halfEdge1)
  {
    if |edges| == 0 then false
    else
      assert ListedIn(ar, edges[1..]) by {
        forall k | 0 <= k < |edges[1..]| ensures edges[1..][k] in ar.edges {
          assert edges[1..][k] == edges[k + 1];
        }
      }
      var rest := ContainsEdge(ar, edges[1..], e, eq);
      assert rest <==> exists k :: 1 <= k < |edges| && eq(ar, ar.edges[edges[k]].halfEdge1, ar.edges[e].halfEdge1) by {
        if rest {
          var k :| 0 <= k < |edges[1..]| && eq(ar, ar.edges[edges[1..][k]].halfEdge1, ar.edges[e].halfEdge1);
          assert edges[1..][k] == edges[k + 1];
        }
        if exists k :: 1 <= k < |edges| && eq(ar, ar.edges[edges[k]].halfEdge1, ar.edges[e].halfEdge1) {
          var k :| 1 <= k < |edges| && eq(ar, ar.edges[edges[k]].halfEdge1, ar.edges[e].halfEdge1);
          assert edges[1..][k - 1] == edges[k];
        }
      }
      eq(ar, ar.edges[edges[0]].halfEdge1, ar.edges[e].halfEdge1) || rest
  }

  // ---------------------------------------------------------------------
  // split

  /** `splitEdgeByVertex` on the inner node's half-edge, then on the outer
      node's; only a `TypeError` can escape, and no edge disappears. */
  function BothSplits(st: SplitState, inNode: Node, outNode: Node): (r: Result<Outcome, Thrown>)
    requires Bounded(st.ar)
    ensures r.Err? ==> r.error == TypeError
    ensures r.Ok? ==> Bounded(r.value.ar) && r.value.ar.edges.Keys >= st.ar.edges.Keys
  {
    var o1 :- SplitEdgeByVertex(st.ar, st.store, inNode.edge, inNode.vertex);
    SplitTouches(st.ar, st.store, inNode.edge, inNode.vertex);
    var o2 :- SplitEdgeByVertex(o1.ar, o1.store, outNode.edge, outNode.vertex);
    SplitTouches(o1.ar, o1.store, outNode.edge, outNode.vertex);
    Ok(o2)
  }

  /** The new edge of one pair, after both splits: its `halfEdge2` runs
      from the inner node's vertex to the outer one's when `direction`
      points from the inner point to the outer one, and it is appended to
      `result` exactly when `containsEdges` finds no listed edge equal to
      it. */
  function AddCross(o: Outcome, result: seq<EdgeId>, inNode: Node, outNode: Node, curve: Curve,
                    direction: DirDot, eq: EdgesEqual): (r: SplitState)
    requires Bounded(o.ar) && ListedIn(o.ar, result)
    ensures Bounded(r.ar) && ListedIn(r.ar, r.result) && r.ar.edges.Keys > o.ar.edges.Keys
    ensures r.store == o.store
    ensures r.result == result || (|r.result| == |result| + 1 && r.result[..|result|] == result)
    ensures var e := if r.result == result then r.ar.nextHandle - 1 else r.result[|result|];
      && e !in o.ar.edges && e in r.ar.edges
      && CrossShape(r.ar, e, curve, inNode.vertex, outNode.vertex, direction(inNode.point, outNode.point) > 0.0)
      && (r.result == result <==> exists k :: 0 <= k < |result| && eq(r.ar, r.ar.edges[result[k]].halfEdge1, r.ar.edges[e].halfEdge1))
  {
    var sameDirection := direction(inNode.point, outNode.point) > 0.0;
    var ce := NewCrossEdge(o.ar, curve, inNode.vertex, outNode.vertex, sameDirection);
    var ar3, e := ce.0, ce.1;
    assert ListedIn(ar3, result);
    if ContainsEdge(ar3, result, e, eq) then SplitState(ar3, o.store, result)
    else
      assert (result + [e])[..|result|] == result;
      SplitState(ar3, o.store, result + [e])
  }

  /** One pair of the loop: the two splits, the direction test, the new
      edge and its `containsEdges` check. A missing direction is the
      `TypeError` of `direction.dot`; a missing `containsEdges`, or a
      missing `areEdgesEqual` reached over a non-empty `result`, is a
      `ReferenceError`. */
  function CrossStep(st: SplitState, inNode: Node, outNode: Node, curve: Curve,
                     direction: Option<DirDot>, contains: ContainsEdges): (r: Result<SplitState, Thrown>)
    requires Bounded(st.ar) && ListedIn(st.ar, st.result)
    ensures direction.None? ==> r == Err(TypeError)
    ensures direction.Some? && !CanContain(contains, st.result) ==>
      r == (if BothSplits(st, inNode, outNode).Ok? then Err(ReferenceError) else Err(TypeError))
    ensures r.Ok? <==> BothSplits(st, inNode, outNode).Ok? && direction.Some? && CanContain(contains, st.result)
    ensures r.Ok? ==> Bounded(r.value.ar) && ListedIn(r.value.ar, r.value.result)
    ensures r.Ok? ==>
      r.value == AddCross(BothSplits(st, inNode, outNode).value, st.result, inNode, outNode, curve, direction.value, EqOf(contains))
  {
    var o :- BothSplits(st, inNode, outNode);
    if direction.None? then Err(TypeError)
    else if !CanContain(contains, st.result) then Err(ReferenceError)
    else
      assert ListedIn(o.ar, st.result);
      Ok(AddCross(o, st.result, inNode, outNode, curve, direction.value, EqOf(contains)))
  }

  /** The loop over the decisions `ds` of the pairing from position `i`. */
  function SplitFrom(st: SplitState, ds: seq<Decision>, i: nat, curve: Curve,
                     direction: Option<DirDot>, contains: ContainsEdges): (r: Result<SplitState, Thrown>)
    requires i <= |ds| && Bounded(st.ar) && ListedIn(st.ar, st.result)
    ensures r.Ok? ==> Bounded(r.value.ar) && ListedIn(r.value.ar, r.value.result)
    decreases |ds| - i
  {
    if i == |ds| then Ok(st)
    else if ds[i].Looked? && ds[i].partner.Some? then
      var st' :- CrossStep(st, ds[i].partner.value.0, ds[i].partner.value.1, curve, direction, contains);
      SplitFrom(st', ds, i + 1, curve, direction, contains)
    else SplitFrom(st, ds, i + 1, curve, direction, contains)
  }

  /** The first present node from position `i`, or -1. */
  function FirstNode(nodes: Nodes, i: nat): (r: int)
    requires i <= |nodes|
    ensures r == -1 || i <= r < |nodes|
    ensures r == -1 <==> forall k :: i <= k < |nodes| ==> nodes[k].None?
    ensures r >= 0 ==> nodes[r].Some?
    decreases |nodes| - i
  {
    if i == |nodes| then -1 else if nodes[i].Some? then i else FirstNode(nodes, i + 1)
  }

  /** `split(nodes, [], onCurve, direction)` with the three arguments made
      explicit; on a list of curves `findCloserOnCurve` throws at `curve.t`
      as soon as the loop reaches a present node. */
  function SplitGeneral(ar: Arena, store: SolveStore, nodes: Nodes, onCurve: CurveArg,
                        direction: Option<DirDot>, contains: ContainsEdges): (r: Result<SplitState, Thrown>)
    requires Bounded(ar)
    ensures r.Ok? ==> Bounded(r.value.ar) && ListedIn(r.value.ar, r.value.result)
  {
    match onCurve
    case CurveList =>
      if FirstNode(nodes, 0) >= 0 then Err(TypeError) else Ok(SplitState(ar, store, []))
    case OneCurve(curve, t) =>
      SplitFrom(SplitState(ar, store, []), Pairing(nodes, t), 0, curve, direction, contains)
  }

  /** `split` as `web/app/hds/boolean.js` calls it: one curve and the
      direction of the cut. */
  function Split(ar: Arena, store: SolveStore, nodes: Nodes, curve: Curve, t: Point -> real,
                 direction: DirDot, eq: EdgesEqual): (r: Result<SplitState, Thrown>)
    requires Bounded(ar)
    ensures r.Ok? ==> Bounded(r.value.ar) && ListedIn(r.value.ar, r.value.result)
  {
    SplitGeneral(ar, store, nodes, OneCurve(curve, t), Some(direction), Defined(eq))
  }

  /** `split(nodes, newEdges, curves)` as `web/app/brep/operations/boolean.js`
      calls it: the list of curves and no direction, in a file without
      `containsEdges`. */
  function SplitAsCalled(ar: Arena, store: SolveStore, nodes: Nodes): (r: Result<SplitState, Thrown>)
    requires Bounded(ar)
    ensures r.Ok? ==> Bounded(r.value.ar) && ListedIn(r.value.ar, r.value.result)
  {
    SplitGeneral(ar, store, nodes, CurveList, None, NotDefined)
  }

  // ---------------------------------------------------------------------
  // the edges split adds

  /** `e` is an edge as `split` makes it: two distinct halves pointing back
      to it, detached, running between the same two vertices in opposite
      directions. */
  ghost predicate CrossOk(ar: Arena, e: EdgeId) {
    && EdgePair(ar, e)
    && var h1 := ar.halfEdges[ar.edges[e].halfEdge1];
    && var h2 := ar.halfEdges[ar.edges[e].halfEdge2];
    && Detached(h1) && Detached(h2) && h1.vertexA == h2.vertexB && h1.vertexB == h2.vertexA
  }

  /** What `split` keeps about `result` while it runs from the arena
      `ar0`: the listed edges are new, distinct and well formed. */
  ghost predicate Intact(ar0: Arena, ar: Arena, result: seq<EdgeId>) {
    && ar0.edges.Keys <= ar.edges.Keys
    && Distinct(result)
    && (forall k :: 0 <= k < |result| ==> result[k] !in ar0.edges && CrossOk(ar, result[k]))
  }

  /** Splitting a half-edge keeps `Intact`: the halves of a listed edge are
      outside any loop, so splitting one of them changes nothing, and
      splitting any other half-edge leaves the listed edges and their
      halves alone. */
  lemma SplitKeepsIntact(ar0: Arena, ar: Arena, store: SolveStore, result: seq<EdgeId>, orig: HalfEdgeId, v: VertexId)
    requires Bounded(ar) && Intact(ar0, ar, result) && SplitEdgeByVertex(ar, store, orig, v).Ok?
    ensures Intact(ar0, SplitEdgeByVertex(ar, store, orig, v).value.ar, result)
  {
    SplitTouches(ar, store, orig, v);
    var r := SplitEdgeByVertex(ar, store, orig, v).value.ar;
    var e := ar.halfEdges[orig].edge.value;
    if e in result {
      var k :| 0 <= k < |result| && result[k] == e;
      assert CrossOk(ar, result[k]);
      assert Twin(ar, orig) in {ar.edges[e].halfEdge1, ar.edges[e].halfEdge2};
      assert ar.halfEdges[Twin(ar, orig)].loop.None?;
      assert r == ar;
    } else {
      IntactFrame(ar0, ar, r, result, e);
    }
  }

  /** `Intact` survives a step that changes only the edge `e`, which is
      not listed, and half-edges inside loops. */
  lemma IntactFrame(ar0: Arena, ar: Arena, r: Arena, result: seq<EdgeId>, e: EdgeId)
    requires Intact(ar0, ar, result) && e !in result
    requires r.edges.Keys >= ar.edges.Keys && r.halfEdges.Keys >= ar.halfEdges.Keys
    requires forall x :: x in ar.edges && x != e ==> r.edges[x] == ar.edges[x]
    requires forall x :: x in ar.halfEdges && ar.halfEdges[x].loop.None? ==> r.halfEdges[x] == ar.halfEdges[x]
    ensures Intact(ar0, r, result)
  {
    forall k | 0 <= k < |result| ensures CrossOk(r, result[k]) {
      var c := result[k];
      assert r.edges[c] == ar.edges[c];
      assert ar.halfEdges[ar.edges[c].halfEdge1].loop.None?;
      assert ar.halfEdges[ar.edges[c].halfEdge2].loop.None?;
    }
  }

  /** Both splits of a pair keep `Intact`. */
  lemma BothSplitsIntact(ar0: Arena, st: SplitState, inNode: Node, outNode: Node)
    requires Bounded(st.ar) && Intact(ar0, st.ar, st.result) && BothSplits(st, inNode, outNode).Ok?
    ensures Intact(ar0, BothSplits(st, inNode, outNode).value.ar, st.result)
  {
    var o1 := SplitEdgeByVertex(st.ar, st.store, inNode.edge, inNode.vertex).value;
    SplitKeepsIntact(ar0, st.ar, st.store, st.result, inNode.edge, inNode.vertex);
    SplitKeepsIntact(ar0, o1.ar, o1.store, st.result, outNode.edge, outNode.vertex);
  }

  /** `Intact` survives a step that keeps every old record and adds the
      well-formed edge `e`, whether or not `e` is appended. */
  lemma IntactGrow(ar0: Arena, ar: Arena, ar': Arena, result: seq<EdgeId>, e: EdgeId)
    requires Intact(ar0, ar, result) && e !in ar.edges && CrossOk(ar', e)
    requires ar'.edges.Keys >= ar.edges.Keys && ar'.halfEdges.Keys >= ar.halfEdges.Keys
    requires forall x :: x in ar.edges ==> ar'.edges[x] == ar.edges[x]
    requires forall x :: x in ar.halfEdges ==> ar'.halfEdges[x] == ar.halfEdges[x]
    ensures Intact(ar0, ar', result) && Intact(ar0, ar', result + [e])
  {
    forall k | 0 <= k < |result| ensures CrossOk(ar', result[k]) {
      assert ar'.edges[result[k]] == ar.edges[result[k]];
    }
    var res := result + [e];
    forall k | 0 <= k < |res| ensures res[k] !in ar0.edges && CrossOk(ar', res[k]) {
      if k < |result| {
        assert res[k] == result[k];
      }
    }
  }

  /** The new edge of a pair keeps `Intact`, whether or not it is
      appended to the list. */
  lemma AddCrossIntact(ar0: Arena, o: Outcome, result: seq<EdgeId>, inNode: Node, outNode: Node, curve: Curve,
                       direction: DirDot, eq: EdgesEqual)
    requires Bounded(o.ar) && ListedIn(o.ar, result) && Intact(ar0, o.ar, result)
    ensures var r := AddCross(o, result, inNode, outNode, curve, direction, eq);
      Intact(ar0, r.ar, r.result)
  {
    var sameDirection := direction(inNode.point, outNode.point) > 0.0;
    var (ar', e) := NewCrossEdge(o.ar, curve, inNode.vertex, outNode.vertex, sameDirection);
    IntactGrow(ar0, o.ar, ar', result, e);
  }

  /** One pair keeps `Intact`. */
  lemma CrossStepIntact(ar0: Arena, st: SplitState, inNode: Node, outNode: Node, curve: Curve,
                        direction: Option<DirDot>, contains: ContainsEdges)
    requires Bounded(st.ar) && Intact(ar0, st.ar, st.result)
    requires ListedIn(st.ar, st.result)
    requires CrossStep(st, inNode, outNode, curve, direction, contains).Ok?
    ensures Intact(ar0, CrossStep(st, inNode, outNode, curve, direction, contains).value.ar,
                   CrossStep(st, inNode, outNode, curve, direction, contains).value.result)
  {
    BothSplitsIntact(ar0, st, inNode, outNode);
    var o := BothSplits(st, inNode, outNode).value;
    AddCrossIntact(ar0, o, st.result, inNode, outNode, curve, direction.value, EqOf(contains));
  }

  /** The whole loop keeps `Intact`. */
  lemma {:induction false} SplitFromIntact(ar0: Arena, st: SplitState, ds: seq<Decision>, i: nat, curve: Curve,
                                           direction: Option<DirDot>, contains: ContainsEdges)
    requires i <= |ds| && Bounded(st.ar) && ListedIn(st.ar, st.result) && Intact(ar0, st.ar, st.result)
    requires SplitFrom(st, ds, i, curve, direction, contains).Ok?
    ensures Intact(ar0, SplitFrom(st, ds, i, curve, direction, contains).value.ar,
                   SplitFrom(st, ds, i, curve, direction, contains).value.result)
    decreases |ds| - i
  {
    if i < |ds| {
      if ds[i].Looked? && ds[i].partner.Some? {
        var p := ds[i].partner.value;
        CrossStepIntact(ar0, st, p.0, p.1, curve, direction, contains);
        var st' := CrossStep(st, p.0, p.1, curve, direction, contains).value;
        SplitFromIntact(ar0, st', ds, i + 1, curve, direction, contains);
      } else {
        SplitFromIntact(ar0, st, ds, i + 1, curve, direction, contains);
      }
    }
  }

  /** Every edge `split` returns is new, listed once, and has two twin
      halves outside any loop running between the same vertices in
      opposite directions. */
  lemma SplitAddsCrossEdges(ar: Arena, store: SolveStore, nodes: Nodes, curve: Curve, t: Point -> real,
                            direction: DirDot, eq: EdgesEqual)
    requires Bounded(ar) && Split(ar, store, nodes, curve, t, direction, eq).Ok?
    ensures var r := Split(ar, store, nodes, curve, t, direction, eq).value;
      Intact(ar, r.ar, r.result)
  {
    SplitFromIntact(ar, SplitState(ar, store, []), Pairing(nodes, t), 0, curve, Some(direction), Defined(eq));
  }

  // ---------------------------------------------------------------------
  // what the three differences do

  /** Some decision from position `i` on pairs two nodes. */
  ghost predicate PairsFrom(ds: seq<Decision>, i: int) {
    exists j :: i <= j < |ds| && 0 <= j && ds[j].Looked? && ds[j].partner.Some?
  }

  /** As called in the newer file, `split` throws a `TypeError` exactly
      when some node is present, and otherwise changes nothing. */
  lemma SplitAsCalledThrows(ar: Arena, store: SolveStore, nodes: Nodes)
    requires Bounded(ar)
    ensures (exists k :: 0 <= k < |nodes| && nodes[k].Some?) ==> SplitAsCalled(ar, store, nodes) == Err(TypeError)
    ensures (forall k :: 0 <= k < |nodes| ==> nodes[k].None?) ==>
      SplitAsCalled(ar, store, nodes) == Ok(SplitState(ar, store, []))
  {
    var f := FirstNode(nodes, 0);
    if f == -1 {
      assert forall k :: 0 <= k < |nodes| ==> nodes[k].None?;
    }
  }

  /** When the pairing pairs no two nodes, the loop changes nothing; when
      it pairs some and there is no direction, the loop throws a
      `TypeError`. */
  lemma {:induction false} NoDirectionThrows(st: SplitState, ds: seq<Decision>, i: nat, curve: Curve,
                                             direction: Option<DirDot>, contains: ContainsEdges)
    requires i <= |ds| && Bounded(st.ar) && ListedIn(st.ar, st.result)
    ensures direction.None? && PairsFrom(ds, i) ==> SplitFrom(st, ds, i, curve, direction, contains) == Err(TypeError)
    ensures !PairsFrom(ds, i) ==> SplitFrom(st, ds, i, curve, direction, contains) == Ok(st)
    decreases |ds| - i
  {
    if i < |ds| {
      NoDirectionThrows(st, ds, i + 1, curve, direction, contains);
      if !(ds[i].Looked? && ds[i].partner.Some?) {
        assert PairsFrom(ds, i) <==> PairsFrom(ds, i + 1) by {
          if PairsFrom(ds, i) {
            var j :| i <= j < |ds| && 0 <= j && ds[j].Looked? && ds[j].partner.Some?;
            assert i + 1 <= j;
          }
        }
      } else {
        assert PairsFrom(ds, i);
      }
    }
  }

  /** With one curve and no direction, `split` throws exactly when the
      pairing pairs two nodes. */
  lemma SplitNoDirection(ar: Arena, store: SolveStore, nodes: Nodes, curve: Curve, t: Point -> real,
                         contains: ContainsEdges)
    requires Bounded(ar)
    ensures var r := SplitGeneral(ar, store, nodes, OneCurve(curve, t), None, contains);
      && (PairsFrom(Pairing(nodes, t), 0) ==> r == Err(TypeError))
      && (!PairsFrom(Pairing(nodes, t), 0) ==> r == Ok(SplitState(ar, store, [])))
  {
    NoDirectionThrows(SplitState(ar, store, []), Pairing(nodes, t), 0, curve, None, contains);
  }

  /** With a direction but without `containsEdges`, the first pair whose
      two splits succeed throws a `ReferenceError`. */
  lemma NoContainsEdgesThrows(st: SplitState, inNode: Node, outNode: Node, curve: Curve, direction: DirDot)
    requires Bounded(st.ar) && ListedIn(st.ar, st.result)
    ensures var r := CrossStep(st, inNode, outNode, curve, Some(direction), NotDefined);
      && r.Err?
      && (r.error == ReferenceError <==> BothSplits(st, inNode, outNode).Ok?)
  {
  }

  // ---------------------------------------------------------------------
  // `areEdgesEqual` as written

  /** `split` of `web/app/hds/boolean.js` as written, where `isSameEdge`
      calls an `areEdgesEqual` that is never defined; only the
      `splitEdgeByVertex` it composes is the newer file's
      (`SplitEdge.SplitEdgeByVertex`), not the hds copy's own. */
  function SplitHdsAsWritten(ar: Arena, store: SolveStore, nodes: Nodes, curve: Curve, t: Point -> real,
                             direction: DirDot): (r: Result<SplitState, Thrown>)
    requires Bounded(ar)
    ensures r.Ok? ==> Bounded(r.value.ar) && ListedIn(r.value.ar, r.value.result)
  {
    SplitGeneral(ar, store, nodes, OneCurve(curve, t), Some(direction), EqualNotDefined)
  }

  /** Over an empty `result` the missing `areEdgesEqual` is never reached
      and the pair is handled as intended; over a non-empty one the pair
      whose splits succeed throws a `ReferenceError` where the intended
      code goes on. */
  lemma AreEdgesEqualMissing(st: SplitState, inNode: Node, outNode: Node, curve: Curve,
                             direction: DirDot, eq: EdgesEqual)
    requires Bounded(st.ar) && ListedIn(st.ar, st.result)
    ensures |st.result| == 0 ==>
      CrossStep(st, inNode, outNode, curve, Some(direction), EqualNotDefined)
        == CrossStep(st, inNode, outNode, curve, Some(direction), Defined(eq))
    ensures |st.result| > 0 && BothSplits(st, inNode, outNode).Ok? ==>
      && CrossStep(st, inNode, outNode, curve, Some(direction), EqualNotDefined) == Err(ReferenceError)
      && CrossStep(st, inNode, outNode, curve, Some(direction), Defined(eq)).Ok?
  {
  }

  /** As written, the loop never lists a second edge: it throws first. */
  lemma {:induction false} AsWrittenAtMostOne(st: SplitState, ds: seq<Decision>, i: nat, curve: Curve, direction: DirDot)
    requires i <= |ds| && Bounded(st.ar) && ListedIn(st.ar, st.result) && |st.result| <= 1
    ensures SplitFrom(st, ds, i, curve, Some(direction), EqualNotDefined).Ok? ==>
      |SplitFrom(st, ds, i, curve, Some(direction), EqualNotDefined).value.result| <= 1
    decreases |ds| - i
  {
    if i < |ds| {
      if ds[i].Looked? && ds[i].partner.Some? {
        var p := ds[i].partner.value;
        var c := CrossStep(st, p.0, p.1, curve, Some(direction), EqualNotDefined);
        if c.Ok? {
          assert |st.result| == 0;
          AsWrittenAtMostOne(c.value, ds, i + 1, curve, direction);
        }
      } else {
        AsWrittenAtMostOne(st, ds, i + 1, curve, direction);
      }
    }
  }

  /** `split` of `web/app/hds/boolean.js` as written returns at most one
      edge: at the second pair whose splits succeed it throws. */
  lemma SplitHdsAsWrittenAtMostOne(ar: Arena, store: SolveStore, nodes: Nodes, curve: Curve, t: Point -> real,
                                   direction: DirDot)
    requires Bounded(ar)
    ensures var r := SplitHdsAsWritten(ar, store, nodes, curve, t, direction);
      r.Ok? ==> |r.value.result| <= 1
  {
    AsWrittenAtMostOne(SplitState(ar, store, []), Pairing(nodes, t), 0, curve, direction);
  }
}
