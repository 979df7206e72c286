/** `splitEdgeByVertex(originHalfEdge, vertex, splittingFace)` of
    `web/app/brep/operations/boolean.js`: an edge is cut in two at a vertex
    lying on it. Each of its two halves keeps its start and ends at the
    vertex; a new half-edge continues from the vertex to the old end and is
    placed right after it in its loop. The edge keeps the original half and
    the new half of the twin; a new edge on the same curve pairs the twin
    with the new half of the original. */
module SplitEdge {
  import opened Wrappers
  import opened Seqs
  import opened Topo
  import opened Builder
  import opened SolveData

  /** What a split leaves: the arena, the solve data and, when the edge was
      cut, the two new half-edges (the new half of the original, then the
      new half of the twin). The JavaScript function returns nothing; the
      handles are reported so that properties can name them. */
  datatype Outcome = Outcome(ar: Arena, store: SolveStore, added: Option<(HalfEdgeId, HalfEdgeId)>)

  /** `orig.twin()` can be evaluated: the half-edge has an edge. */
  predicate HasEdge(ar: Arena, orig: HalfEdgeId) {
    orig in ar.halfEdges && ar.halfEdges[orig].edge.Some? && ar.halfEdges[orig].edge.value in ar.edges
  }

  /** `orig.loop.halfEdges` and `twin.loop.halfEdges` can be read. */
  predicate LoopsReady(ar: Arena, orig: HalfEdgeId, twin: HalfEdgeId) {
    && orig in ar.halfEdges && twin in ar.halfEdges
    && ar.halfEdges[orig].loop.Some? && ar.halfEdges[orig].loop.value in ar.loops
    && ar.halfEdges[twin].loop.Some? && ar.halfEdges[twin].loop.value in ar.loops
  }

  /** `list.splice(list.indexOf(after) + 1, 0, x)`: `x` right after the
      first occurrence of `after`, or at the front when `after` is absent. */
  function InsertAfter(s: seq<HalfEdgeId>, after: HalfEdgeId, x: HalfEdgeId): (r: seq<HalfEdgeId>)
  {
    InsertAt(s, IndexOf(s, after) + 1, x)
  }

  /** The splice adds `x` and nothing else. */
  lemma InsertAfterMultiset(s: seq<HalfEdgeId>, after: HalfEdgeId, x: HalfEdgeId)
    ensures multiset(InsertAfter(s, after, x)) == multiset(s) + multiset{x}
  {
    var at := IndexOf(s, after) + 1;
    var front, back := s[..at], s[at..];
    assert InsertAfter(s, after, x) == front + [x] + back;
    assert multiset(front + [x] + back) == multiset(front) + multiset{x} + multiset(back);
    assert s == front + back;
    assert multiset(s) == multiset(front) + multiset(back);
  }

  /** The splice adds `x` to the members and keeps all others. */
  lemma InsertAfterMembers(s: seq<HalfEdgeId>, after: HalfEdgeId, x: HalfEdgeId)
    ensures forall y :: y in InsertAfter(s, after, x) <==> y == x || y in s
  {
    InsertAfterMultiset(s, after, x);
    forall y ensures y in InsertAfter(s, after, x) <==> y == x || y in s {
      assert y in InsertAfter(s, after, x) <==> y in multiset(InsertAfter(s, after, x));
      assert y in s <==> y in multiset(s);
    }
  }

  /** `splitHalfEdge(h)`: a new half-edge from `v` to where `h` ended, with
      no edge, loop or links yet, and `h` now ends at `v`. */
  function SplitHalf(ar: Arena, h: HalfEdgeId, v: VertexId): (r: (Arena, HalfEdgeId))
    requires Bounded(ar) && h in ar.halfEdges
    ensures var (ar', n) := r;
      && Bounded(ar') && n !in ar.halfEdges && n >= ar.nextHandle && ar'.nextHandle > n
      && ar'.halfEdges == ar.halfEdges[h := ar.halfEdges[h].(vertexB := v)]
                                      [n := HalfEdge(None, false, v, ar.halfEdges[h].vertexB, None, None, None)]
      && ar' == ar.(halfEdges := ar'.halfEdges, nextHandle := ar'.nextHandle)
  {
    var n := ar.nextHandle;
    var x := ar.halfEdges[h];
    (ar.(halfEdges := ar.halfEdges[h := x.(vertexB := v)][n := HalfEdge(None, false, v, x.vertexB, None, None, None)],
         nextHandle := n + 1), n)
  }

  /** `x.loop = Some(l)` on one half-edge record. */
  function SetLoop(ar: Arena, x: HalfEdgeId, l: LoopId): (r: Arena)
    requires x in ar.halfEdges
    ensures r == ar.(halfEdges := ar.halfEdges[x := ar.halfEdges[x].(loop := Some(l))])
  {
    ar.(halfEdges := ar.halfEdges[x := ar.halfEdges[x].(loop := Some(l))])
  }

  /** Both halves split at `v`: first the original, then its twin. */
  function Halves(ar: Arena, orig: HalfEdgeId, twin: HalfEdgeId, v: VertexId): (r: (Arena, HalfEdgeId, HalfEdgeId))
    requires Bounded(ar) && orig in ar.halfEdges && twin in ar.halfEdges
    ensures var (ar2, no, nt) := r;
      && Bounded(ar2) && no !in ar.halfEdges && nt !in ar.halfEdges && no != nt
      && ar2.nextHandle >= ar.nextHandle
      && ar2.points == ar.points && ar2.edges == ar.edges && ar2.loops == ar.loops
      && ar2.faces == ar.faces && ar2.shells == ar.shells
      && ar2.halfEdges.Keys == ar.halfEdges.Keys + {no, nt}
      && (forall x :: x in ar.halfEdges ==>
            ar2.halfEdges[x] == (if x == orig || x == twin then ar.halfEdges[x].(vertexB := v) else ar.halfEdges[x]))
      && ar2.halfEdges[no] == HalfEdge(None, false, v, ar.halfEdges[orig].vertexB, None, None, None)
      && ar2.halfEdges[nt] == HalfEdge(None, false, v, if twin == orig then v else ar.halfEdges[twin].vertexB,
                                       None, None, None)
  {
    var (ar1, no) := SplitHalf(ar, orig, v);
    var (ar2, nt) := SplitHalf(ar1, twin, v);
    (ar2, no, nt)
  }

  /** `linkHalfEdges(orig.edge, orig, newTwin)` and then
      `linkHalfEdges(new Edge(orig.edge.curve), twin, newOrig)`. */
  function Relink(ar: Arena, e: EdgeId, orig: HalfEdgeId, twin: HalfEdgeId, no: HalfEdgeId, nt: HalfEdgeId)
    : (r: (Arena, EdgeId))
    requires Bounded(ar) && e in ar.edges
    requires orig in ar.halfEdges && twin in ar.halfEdges && no in ar.halfEdges && nt in ar.halfEdges
    ensures var (ar', e2) := r;
      && Bounded(ar') && e2 !in ar.edges && ar'.nextHandle >= ar.nextHandle
      && ar'.points == ar.points && ar'.loops == ar.loops && ar'.faces == ar.faces && ar'.shells == ar.shells
      && ar'.edges.Keys == ar.edges.Keys + {e2}
      && ar'.halfEdges.Keys == ar.halfEdges.Keys
  {
    var curve := ar.edges[e].curve;
    // `new Edge(curve)` takes a handle for the edge and one for each of its
    // two initial halves, which the second link discards at once.
    var e2 := ar.nextHandle;
    var h3 := ar.halfEdges[orig := ar.halfEdges[orig].(edge := Some(e))];
    var h4 := h3[nt := h3[nt].(edge := Some(e))];
    var h5 := h4[twin := h4[twin].(edge := Some(e2))];
    (ar.(halfEdges := h5[no := h5[no].(edge := Some(e2))],
         edges := ar.edges[e := Edge(curve, orig, nt)][e2 := Edge(curve, twin, no)],
         nextHandle := ar.nextHandle + 3), e2)
  }

  /** After the links, the edge pairs `orig` with `newTwin` and the new
      edge, on the same curve, pairs `twin` with `newOrig`. */
  lemma RelinkEdges(ar: Arena, e: EdgeId, orig: HalfEdgeId, twin: HalfEdgeId, no: HalfEdgeId, nt: HalfEdgeId)
    requires Bounded(ar) && e in ar.edges
    requires orig in ar.halfEdges && twin in ar.halfEdges && no in ar.halfEdges && nt in ar.halfEdges
    ensures var (ar', e2) := Relink(ar, e, orig, twin, no, nt);
      && ar'.edges[e] == Edge(ar.edges[e].curve, orig, nt)
      && ar'.edges[e2] == Edge(ar.edges[e].curve, twin, no)
      && (forall x :: x in ar.edges && x != e ==> ar'.edges[x] == ar.edges[x])
  {
  }

  /** The links change the `edge` field of the four half-edges and nothing
      else; `twin` and `newOrig` are linked last. */
  lemma RelinkRecords(ar: Arena, e: EdgeId, orig: HalfEdgeId, twin: HalfEdgeId, no: HalfEdgeId, nt: HalfEdgeId)
    requires Bounded(ar) && e in ar.edges
    requires orig in ar.halfEdges && twin in ar.halfEdges && no in ar.halfEdges && nt in ar.halfEdges
    ensures var (ar', e2) := Relink(ar, e, orig, twin, no, nt);
      && (forall x :: x in ar.halfEdges && x != orig && x != twin && x != no && x != nt ==>
            ar'.halfEdges[x] == ar.halfEdges[x])
      && (forall x :: x == twin || x == no ==> ar'.halfEdges[x] == ar.halfEdges[x].(edge := Some(e2)))
      && (forall x :: (x == orig || x == nt) && x != twin && x != no ==>
            ar'.halfEdges[x] == ar.halfEdges[x].(edge := Some(e)))
  {
  }

  /** The two `splice`s into the loops `lo` of `orig` and `lt` of `twin`. */
  function Splice(ar: Arena, lo: LoopId, lt: LoopId, orig: HalfEdgeId, twin: HalfEdgeId, no: HalfEdgeId, nt: HalfEdgeId)
    : (r: Arena)
    requires lo in ar.loops && lt in ar.loops
    ensures r == ar.(loops := r.loops) && r.loops.Keys == ar.loops.Keys
  {
    var l6 := ar.loops[lo := ar.loops[lo].(halfEdges := InsertAfter(ar.loops[lo].halfEdges, orig, no))];
    ar.(loops := l6[lt := l6[lt].(halfEdges := InsertAfter(l6[lt].halfEdges, twin, nt))])
  }

  /** Only the lists of `lo` and `lt` change: each gets its new half-edge
      after its old one, both into the same list when the loops are one. */
  lemma SpliceLists(ar: Arena, lo: LoopId, lt: LoopId, orig: HalfEdgeId, twin: HalfEdgeId, no: HalfEdgeId, nt: HalfEdgeId)
    requires lo in ar.loops && lt in ar.loops
    ensures var r := Splice(ar, lo, lt, orig, twin, no, nt);
      && (forall l :: l in ar.loops && l != lo && l != lt ==> r.loops[l] == ar.loops[l])
      && (forall l :: l in ar.loops ==> r.loops[l].face == ar.loops[l].face)
      && (lo != lt ==> r.loops[lo].halfEdges == InsertAfter(ar.loops[lo].halfEdges, orig, no))
      && (lo != lt ==> r.loops[lt].halfEdges == InsertAfter(ar.loops[lt].halfEdges, twin, nt))
      && (lo == lt ==> r.loops[lo].halfEdges == InsertAfter(InsertAfter(ar.loops[lo].halfEdges, orig, no), twin, nt))
  {
    var a := InsertAfter(ar.loops[lo].halfEdges, orig, no);
    var l6 := ar.loops[lo := ar.loops[lo].(halfEdges := a)];
    var b := InsertAfter(l6[lt].halfEdges, twin, nt);
    var r := Splice(ar, lo, lt, orig, twin, no, nt);
    assert r.loops == l6[lt := l6[lt].(halfEdges := b)];
    if lo != lt {
      assert r.loops[lo].halfEdges == a;
      assert l6[lt] == ar.loops[lt];
    }
  }

  /** The splices, then `newOrig.loop = orig.loop` and
      `newTwin.loop = twin.loop`. */
  function Place(ar: Arena, orig: HalfEdgeId, twin: HalfEdgeId, no: HalfEdgeId, nt: HalfEdgeId): (r: Arena)
    requires LoopsReady(ar, orig, twin) && no in ar.halfEdges && nt in ar.halfEdges
    ensures r == Splice(ar, ar.halfEdges[orig].loop.value, ar.halfEdges[twin].loop.value, orig, twin, no, nt)
                   .(halfEdges := r.halfEdges)
    ensures r.halfEdges.Keys == ar.halfEdges.Keys
  {
    var lo := ar.halfEdges[orig].loop.value;
    var lt := ar.halfEdges[twin].loop.value;
    var ar7 := Splice(ar, lo, lt, orig, twin, no, nt);
    var h7 := ar7.halfEdges[no := ar7.halfEdges[no].(loop := Some(lo))];
    ar7.(halfEdges := h7[nt := h7[nt].(loop := Some(lt))])
  }

  /** Only the `loop` fields of the two new half-edges change. */
  lemma PlaceRecords(ar: Arena, orig: HalfEdgeId, twin: HalfEdgeId, no: HalfEdgeId, nt: HalfEdgeId)
    requires LoopsReady(ar, orig, twin) && no in ar.halfEdges && nt in ar.halfEdges
    ensures var r := Place(ar, orig, twin, no, nt);
      && (forall x :: x in ar.halfEdges && x != no && x != nt ==> r.halfEdges[x] == ar.halfEdges[x])
      && r.halfEdges[nt] == ar.halfEdges[nt].(loop := ar.halfEdges[twin].loop)
      && (no != nt ==> r.halfEdges[no] == ar.halfEdges[no].(loop := ar.halfEdges[orig].loop))
  {
  }

  /** Handles below the counter stay below it when no key is added and
      the counter does not move. */
  lemma BoundedSameKeys(a: Arena, b: Arena)
    requires Bounded(a) && b.nextHandle == a.nextHandle
    requires b.points.Keys == a.points.Keys && b.halfEdges.Keys == a.halfEdges.Keys
    requires b.edges.Keys == a.edges.Keys && b.loops.Keys == a.loops.Keys
    requires b.faces.Keys == a.faces.Keys && b.shells.Keys == a.shells.Keys
    ensures Bounded(b)
  {
  }

  /** The cut itself, once the early return and every `TypeError` are
      ruled out. */
  function Cut(ar: Arena, store: SolveStore, orig: HalfEdgeId, twin: HalfEdgeId, v: VertexId): (r: Outcome)
    requires Bounded(ar) && HasEdge(ar, orig) && twin == Twin(ar, orig) && LoopsReady(ar, orig, twin)
    ensures Bounded(r.ar) && r.added.Some?
  {
    var e := ar.halfEdges[orig].edge.value;
    var hv := Halves(ar, orig, twin, v);
    var ar2, no, nt := hv.0, hv.1, hv.2;
    var ar5 := Relink(ar2, e, orig, twin, no, nt).0;
    var ar8 := Place(ar5, orig, twin, no, nt);
    BoundedSameKeys(ar5, ar8);
    Outcome(ar8, Transfer(Transfer(store, orig, no), twin, nt), Some((no, nt)))
  }

  /** `splitEdgeByVertex`: a half-edge without an edge, or whose halves
      are not both in loops, throws; a vertex that is already an end of the
      half-edge changes nothing; otherwise the edge is cut. */
  function SplitEdgeByVertex(ar: Arena, store: SolveStore, orig: HalfEdgeId, v: VertexId): (r: Result<Outcome, Thrown>)
    requires Bounded(ar)
    ensures r.Err? ==> r.error == TypeError
    ensures !HasEdge(ar, orig) ==> r == Err(TypeError)
    ensures HasEdge(ar, orig) && (ar.halfEdges[orig].vertexA == v || ar.halfEdges[orig].vertexB == v) ==>
      r == Ok(Outcome(ar, store, None))
    ensures HasEdge(ar, orig) && ar.halfEdges[orig].vertexA != v && ar.halfEdges[orig].vertexB != v ==>
      (r.Ok? <==> LoopsReady(ar, orig, Twin(ar, orig)))
    ensures r.Ok? ==> Bounded(r.value.ar)
    ensures r.Ok? && r.value.added.Some? ==> r.value == Cut(ar, store, orig, Twin(ar, orig), v)
  {
    if !HasEdge(ar, orig) then Err(TypeError)
    else
      var o := ar.halfEdges[orig];
      var twin := Twin(ar, orig);
      if o.vertexA == v || o.vertexB == v then Ok(Outcome(ar, store, None))
      else if !LoopsReady(ar, orig, twin) then Err(TypeError)
      else Ok(Cut(ar, store, orig, twin, v))
  }

  /** The four half-edges a cut touches, field by field: both old halves
      now end at `v`; `orig` stays on its edge `e`, `twin` moves to a new
      edge `e2`; each new half runs from `v` to where its old half ended,
      lies in its old half's loop, sits on the other edge and is not yet
      linked. */
  lemma CutRecords(ar: Arena, store: SolveStore, orig: HalfEdgeId, v: VertexId)
    requires Bounded(ar) && HasEdge(ar, orig) && LoopsReady(ar, orig, Twin(ar, orig))
    requires Twin(ar, orig) != orig
    ensures var twin := Twin(ar, orig);
      var r := Cut(ar, store, orig, twin, v);
      var (no, nt) := r.added.value;
      var o := ar.halfEdges[orig];
      var t := ar.halfEdges[twin];
      var e := o.edge.value;
      && no !in ar.halfEdges && nt !in ar.halfEdges && no != nt
      && r.ar.halfEdges.Keys == ar.halfEdges.Keys + {no, nt}
      && r.ar.halfEdges[no].edge.Some? && r.ar.halfEdges[no].edge.value !in ar.edges
      && var e2 := r.ar.halfEdges[no].edge.value;
      && r.ar.halfEdges[orig] == o.(vertexB := v)
      && r.ar.halfEdges[twin] == t.(vertexB := v, edge := Some(e2))
      && r.ar.halfEdges[no] == HalfEdge(Some(e2), false, v, o.vertexB, o.loop, None, None)
      && r.ar.halfEdges[nt] == HalfEdge(Some(e), false, v, t.vertexB, t.loop, None, None)
  {
    var twin := Twin(ar, orig);
    var e := ar.halfEdges[orig].edge.value;
    var hv := Halves(ar, orig, twin, v);
    var ar2, no, nt := hv.0, hv.1, hv.2;
    RelinkRecords(ar2, e, orig, twin, no, nt);
    var ar5 := Relink(ar2, e, orig, twin, no, nt).0;
    PlaceRecords(ar5, orig, twin, no, nt);
  }

  /** The edges after a cut: `e` now pairs `orig` with `newTwin`, the new
      edge pairs `twin` with `newOrig` on the same curve, so `twin()`
      answers across each pair; no other edge changes. */
  lemma CutEdges(ar: Arena, store: SolveStore, orig: HalfEdgeId, v: VertexId)
    requires Bounded(ar) && HasEdge(ar, orig) && LoopsReady(ar, orig, Twin(ar, orig))
    requires Twin(ar, orig) != orig
    ensures var twin := Twin(ar, orig);
      var r := Cut(ar, store, orig, twin, v);
      var (no, nt) := r.added.value;
      var e := ar.halfEdges[orig].edge.value;
      && r.ar.halfEdges[no].edge.Some?
      && var e2 := r.ar.halfEdges[no].edge.value;
      && e2 !in ar.edges && r.ar.edges.Keys == ar.edges.Keys + {e2}
      && r.ar.edges[e] == Edge(ar.edges[e].curve, orig, nt)
      && r.ar.edges[e2] == Edge(ar.edges[e].curve, twin, no)
      && EdgePair(r.ar, e) && EdgePair(r.ar, e2)
      && Twin(r.ar, orig) == nt && Twin(r.ar, nt) == orig
      && Twin(r.ar, twin) == no && Twin(r.ar, no) == twin
      && (forall x :: x in ar.edges && x != e ==> r.ar.edges[x] == ar.edges[x])
  {
    var twin := Twin(ar, orig);
    var e := ar.halfEdges[orig].edge.value;
    CutRecords(ar, store, orig, v);
    var hv := Halves(ar, orig, twin, v);
    var ar2, no, nt := hv.0, hv.1, hv.2;
    RelinkEdges(ar2, e, orig, twin, no, nt);
  }

  /** The loops after a cut: `newOrig` comes right after `orig` in the
      loop of `orig`, `newTwin` right after `twin` in the loop of `twin`
      (both into one list when the loops are one); every other loop, and
      every loop's face, stays, and so do the points, faces and shells. */
  lemma CutLoops(ar: Arena, store: SolveStore, orig: HalfEdgeId, v: VertexId)
    requires Bounded(ar) && HasEdge(ar, orig) && LoopsReady(ar, orig, Twin(ar, orig))
    ensures var twin := Twin(ar, orig);
      var r := Cut(ar, store, orig, twin, v);
      var (no, nt) := r.added.value;
      var lo := ar.halfEdges[orig].loop.value;
      var lt := ar.halfEdges[twin].loop.value;
      && r.ar.points == ar.points && r.ar.faces == ar.faces && r.ar.shells == ar.shells
      && r.ar.loops.Keys == ar.loops.Keys
      && (forall l :: l in ar.loops && l != lo && l != lt ==> r.ar.loops[l] == ar.loops[l])
      && (forall l :: l in ar.loops ==> r.ar.loops[l].face == ar.loops[l].face)
      && (lo != lt ==> r.ar.loops[lo].halfEdges == InsertAfter(ar.loops[lo].halfEdges, orig, no))
      && (lo != lt ==> r.ar.loops[lt].halfEdges == InsertAfter(ar.loops[lt].halfEdges, twin, nt))
      && (lo == lt ==> r.ar.loops[lo].halfEdges == InsertAfter(InsertAfter(ar.loops[lo].halfEdges, orig, no), twin, nt))
  {
    var twin := Twin(ar, orig);
    var e := ar.halfEdges[orig].edge.value;
    var hv := Halves(ar, orig, twin, v);
    var ar2, no, nt := hv.0, hv.1, hv.2;
    var ar5 := Relink(ar2, e, orig, twin, no, nt).0;
    SpliceLists(ar5, ar.halfEdges[orig].loop.value, ar.halfEdges[twin].loop.value, orig, twin, no, nt);
  }

  /** Every other half-edge record stays as it was. */
  lemma CutFrame(ar: Arena, store: SolveStore, orig: HalfEdgeId, v: VertexId)
    requires Bounded(ar) && HasEdge(ar, orig) && LoopsReady(ar, orig, Twin(ar, orig))
    ensures var twin := Twin(ar, orig);
      var r := Cut(ar, store, orig, twin, v);
      forall x :: x in ar.halfEdges && x != orig && x != twin ==> r.ar.halfEdges[x] == ar.halfEdges[x]
  {
    var twin := Twin(ar, orig);
    var e := ar.halfEdges[orig].edge.value;
    var hv := Halves(ar, orig, twin, v);
    var ar2, no, nt := hv.0, hv.1, hv.2;
    RelinkRecords(ar2, e, orig, twin, no, nt);
    var ar5 := Relink(ar2, e, orig, twin, no, nt).0;
    PlaceRecords(ar5, orig, twin, no, nt);
    forall x | x in ar.halfEdges && x != orig && x != twin
      ensures Place(ar5, orig, twin, no, nt).halfEdges[x] == ar.halfEdges[x]
    {
      assert x != no && x != nt;
    }
  }

  /** `EdgeSolveData.transfer`: each new half reads the solve data of its
      old half; no other half-edge's data changes. */
  lemma CutStore(ar: Arena, store: SolveStore, orig: HalfEdgeId, v: VertexId)
    requires Bounded(ar) && HasEdge(ar, orig) && LoopsReady(ar, orig, Twin(ar, orig))
    ensures var twin := Twin(ar, orig);
      var r := Cut(ar, store, orig, twin, v);
      var (no, nt) := r.added.value;
      && Get(r.store, no) == Get(store, orig) && Get(r.store, nt) == Get(store, twin)
      && (forall j :: j != no && j != nt ==> Get(r.store, j) == Get(store, j))
  {
    var twin := Twin(ar, orig);
    var hv := Halves(ar, orig, twin, v);
    var ar2, no, nt := hv.0, hv.1, hv.2;
    TransferShares(store, orig, no);
    TransferShares(Transfer(store, orig, no), twin, nt);
  }

  /** Splitting `s[i]` into `s[i]` and a new `n` right after it keeps a
      chain of endpoints closed: `s[i]` must keep its start and end where
      `n` starts, `n` must end where `s[i]` ended, and every other member
      must keep its ends. */
  lemma {:induction false} InsertSplitChain(a: Arena, a': Arena, s: seq<HalfEdgeId>, i: nat, n: HalfEdgeId)
    requires AllIn(a, s) && Distinct(s) && ClosedChain(a, s) && i < |s| && n !in s
    requires AllIn(a', s) && n in a'.halfEdges
    requires forall x :: x in s && x != s[i] ==>
      a'.halfEdges[x].vertexA == a.halfEdges[x].vertexA && a'.halfEdges[x].vertexB == a.halfEdges[x].vertexB
    requires a'.halfEdges[s[i]].vertexA == a.halfEdges[s[i]].vertexA
    requires a'.halfEdges[s[i]].vertexB == a'.halfEdges[n].vertexA
    requires a'.halfEdges[n].vertexB == a.halfEdges[s[i]].vertexB
    ensures var s' := InsertAt(s, i + 1, n);
      AllIn(a', s') && Distinct(s') && ClosedChain(a', s')
  {
    var s' := InsertAt(s, i + 1, n);
    forall k | 0 <= k < |s'| ensures s'[k] in a'.halfEdges {
      if k != i + 1 {
        assert s'[k] in s;
      }
    }
    forall k, m | 0 <= k < m < |s'| ensures s'[k] != s'[m] {
      if k != i + 1 && m != i + 1 {
        var k0 := if k < i + 1 then k else k - 1;
        var m0 := if m < i + 1 then m else m - 1;
        assert s'[k] == s[k0] && s'[m] == s[m0];
      } else {
        assert s'[k] in s || s'[m] in s;
      }
    }
    forall k {:trigger NextOf(s', k)} | 0 <= k < |s'|
      ensures a'.halfEdges[s'[k]].vertexB == a'.halfEdges[NextOf(s', k)].vertexA
    {
      if k < i {
        assert s'[k] == s[k] && NextOf(s', k) == s[k + 1] == NextOf(s, k);
      } else if k == i {
        assert s'[k] == s[i] && NextOf(s', k) == n;
      } else if k == i + 1 {
        assert NextOf(s', k) == NextOf(s, i);
        assert a.halfEdges[s[i]].vertexB == a.halfEdges[NextOf(s, i)].vertexA;
      } else {
        assert s'[k] == s[k - 1] && NextOf(s', k) == NextOf(s, k - 1);
        assert a.halfEdges[s[k - 1]].vertexB == a.halfEdges[NextOf(s, k - 1)].vertexA;
      }
    }
  }

  /** A list whose members all keep their records stays a closed chain. */
  lemma ChainUntouched(ar: Arena, a: Arena, s: seq<HalfEdgeId>)
    requires AllIn(ar, s) && ClosedChain(ar, s)
    requires forall k :: 0 <= k < |s| ==> s[k] in a.halfEdges && a.halfEdges[s[k]] == ar.halfEdges[s[k]]
    ensures AllIn(a, s) && ClosedChain(a, s)
  {
    forall k {:trigger NextOf(s, k)} | 0 <= k < |s|
      ensures a.halfEdges[s[k]].vertexB == a.halfEdges[NextOf(s, k)].vertexA
    {
      var j := NextIndex(k, |s|);
      assert NextOf(s, k) == s[j];
      assert ar.halfEdges[s[k]].vertexB == ar.halfEdges[NextOf(s, k)].vertexA;
    }
  }

  /** `InsertSplitChain` at the first occurrence of `h`, as the splice
      of `splitEdgeByVertex` places the new half-edge. */
  lemma InsertAfterChain(a: Arena, a': Arena, s: seq<HalfEdgeId>, h: HalfEdgeId, n: HalfEdgeId)
    requires AllIn(a, s) && Distinct(s) && ClosedChain(a, s) && h in s && n !in s
    requires AllIn(a', s) && n in a'.halfEdges
    requires forall x :: x in s && x != h ==>
      a'.halfEdges[x].vertexA == a.halfEdges[x].vertexA && a'.halfEdges[x].vertexB == a.halfEdges[x].vertexB
    requires a'.halfEdges[h].vertexA == a.halfEdges[h].vertexA
    requires a'.halfEdges[h].vertexB == a'.halfEdges[n].vertexA
    requires a'.halfEdges[n].vertexB == a.halfEdges[h].vertexB
    ensures var s' := InsertAfter(s, h, n);
      AllIn(a', s') && Distinct(s') && ClosedChain(a', s') && h in s'
  {
    var i := IndexOf(s, h);
    InsertSplitChain(a, a', s, i, n);
    var s' := InsertAt(s, i + 1, n);
    assert s'[i] == h;
  }

  /** Both halves of a cut edge in one list: two splits in a row, through
      the arena in which only `orig` is split so far. */
  lemma ChainBothSplit(ar: Arena, a: Arena, s: seq<HalfEdgeId>, orig: HalfEdgeId, twin: HalfEdgeId,
                       no: HalfEdgeId, nt: HalfEdgeId, v: VertexId)
    requires AllIn(ar, s) && Distinct(s) && ClosedChain(ar, s)
    requires orig in s && twin in s && orig != twin && no !in s && nt !in s && no != nt
    requires AllIn(a, s) && no in a.halfEdges && nt in a.halfEdges
    requires forall x :: x in s && x != orig && x != twin ==> a.halfEdges[x] == ar.halfEdges[x]
    requires a.halfEdges[orig].vertexA == ar.halfEdges[orig].vertexA && a.halfEdges[orig].vertexB == v
    requires a.halfEdges[twin].vertexA == ar.halfEdges[twin].vertexA && a.halfEdges[twin].vertexB == v
    requires a.halfEdges[no].vertexA == v && a.halfEdges[no].vertexB == ar.halfEdges[orig].vertexB
    requires a.halfEdges[nt].vertexA == v && a.halfEdges[nt].vertexB == ar.halfEdges[twin].vertexB
    ensures var s' := InsertAfter(InsertAfter(s, orig, no), twin, nt);
      AllIn(a, s') && Distinct(s') && ClosedChain(a, s')
  {
    var m := ar.(halfEdges := ar.halfEdges[orig := ar.halfEdges[orig].(vertexB := v)][no := a.halfEdges[no]]);
    forall k | 0 <= k < |s| ensures s[k] in m.halfEdges {
      assert s[k] in ar.halfEdges;
    }
    InsertAfterChain(ar, m, s, orig, no);
    var s1 := InsertAfter(s, orig, no);
    InsertAfterMembers(s, orig, no);
    forall k | 0 <= k < |s1| ensures s1[k] in a.halfEdges {
      assert s1[k] in s1;
    }
    forall x | x in s1 && x != twin
      ensures a.halfEdges[x].vertexA == m.halfEdges[x].vertexA && a.halfEdges[x].vertexB == m.halfEdges[x].vertexB
    {
      if x != no && x != orig {
        assert m.halfEdges[x] == ar.halfEdges[x] == a.halfEdges[x];
      }
    }
    InsertAfterChain(m, a, s1, twin, nt);
  }

  /** The endpoint facts of a cut that the chain argument needs. */
  ghost predicate CutShape(ar: Arena, a: Arena, orig: HalfEdgeId, twin: HalfEdgeId, no: HalfEdgeId, nt: HalfEdgeId,
                           v: VertexId)
  {
    && orig != twin && no !in ar.halfEdges && nt !in ar.halfEdges && no != nt
    && orig in ar.halfEdges && twin in ar.halfEdges
    && orig in a.halfEdges && twin in a.halfEdges && no in a.halfEdges && nt in a.halfEdges
    && (forall x :: x in ar.halfEdges && x != orig && x != twin ==> x in a.halfEdges && a.halfEdges[x] == ar.halfEdges[x])
    && a.halfEdges[orig].vertexA == ar.halfEdges[orig].vertexA && a.halfEdges[orig].vertexB == v
    && a.halfEdges[twin].vertexA == ar.halfEdges[twin].vertexA && a.halfEdges[twin].vertexB == v
    && a.halfEdges[no].vertexA == v && a.halfEdges[no].vertexB == ar.halfEdges[orig].vertexB
    && a.halfEdges[nt].vertexA == v && a.halfEdges[nt].vertexB == ar.halfEdges[twin].vertexB
  }

  /** The chain argument on the abstract shape of a cut: a list holding
      neither old half is untouched, a list holding one of them gets one
      split, a list holding both gets two. */
  lemma ChainAfterCut(ar: Arena, a: Arena, orig: HalfEdgeId, twin: HalfEdgeId, no: HalfEdgeId, nt: HalfEdgeId,
                      v: VertexId, s: seq<HalfEdgeId>, s': seq<HalfEdgeId>)
    requires CutShape(ar, a, orig, twin, no, nt, v)
    requires AllIn(ar, s) && Distinct(s) && ClosedChain(ar, s)
    requires orig !in s && twin !in s ==> s' == s
    requires orig in s && twin !in s ==> s' == InsertAfter(s, orig, no)
    requires orig !in s && twin in s ==> s' == InsertAfter(s, twin, nt)
    requires orig in s && twin in s ==> s' == InsertAfter(InsertAfter(s, orig, no), twin, nt)
    ensures AllIn(a, s') && Distinct(s') && ClosedChain(a, s')
  {
    assert no !in s && nt !in s;
    forall x | x in s && x != orig && x != twin ensures a.halfEdges[x] == ar.halfEdges[x] {
    }
    if orig !in s && twin !in s {
      forall k | 0 <= k < |s| ensures s[k] in a.halfEdges && a.halfEdges[s[k]] == ar.halfEdges[s[k]] {
        assert s[k] in s && s[k] in ar.halfEdges;
      }
      ChainUntouched(ar, a, s);
    } else if orig in s && twin !in s {
      forall k | 0 <= k < |s| ensures s[k] in a.halfEdges {
        assert s[k] in ar.halfEdges;
      }
      InsertAfterChain(ar, a, s, orig, no);
    } else if orig !in s && twin in s {
      forall k | 0 <= k < |s| ensures s[k] in a.halfEdges {
        assert s[k] in ar.halfEdges;
      }
      InsertAfterChain(ar, a, s, twin, nt);
    } else {
      forall k | 0 <= k < |s| ensures s[k] in a.halfEdges {
        assert s[k] in ar.halfEdges;
      }
      ChainBothSplit(ar, a, s, orig, twin, no, nt, v);
    }
  }

  /** A cut keeps every loop a closed chain of endpoints without repeats,
      provided each of the two old halves lies in a loop's list exactly
      when its `loop` field names that loop. */
  lemma CutKeepsChain(ar: Arena, store: SolveStore, orig: HalfEdgeId, v: VertexId, l: LoopId)
    requires Bounded(ar) && HasEdge(ar, orig) && LoopsReady(ar, orig, Twin(ar, orig))
    requires Twin(ar, orig) != orig
    requires l in ar.loops && AllIn(ar, ar.loops[l].halfEdges)
    requires Distinct(ar.loops[l].halfEdges) && ClosedChain(ar, ar.loops[l].halfEdges)
    requires orig in ar.loops[l].halfEdges <==> ar.halfEdges[orig].loop == Some(l)
    requires Twin(ar, orig) in ar.loops[l].halfEdges <==> ar.halfEdges[Twin(ar, orig)].loop == Some(l)
    ensures var a := Cut(ar, store, orig, Twin(ar, orig), v).ar;
      && l in a.loops && AllIn(a, a.loops[l].halfEdges)
      && Distinct(a.loops[l].halfEdges) && ClosedChain(a, a.loops[l].halfEdges)
  {
    var twin := Twin(ar, orig);
    var r := Cut(ar, store, orig, twin, v);
    var (no, nt) := r.added.value;
    CutRecords(ar, store, orig, v);
    CutLoops(ar, store, orig, v);
    CutFrame(ar, store, orig, v);
    assert CutShape(ar, r.ar, orig, twin, no, nt, v);
    ChainAfterCut(ar, r.ar, orig, twin, no, nt, v, ar.loops[l].halfEdges, r.ar.loops[l].halfEdges);
  }

  /** Splitting the same half-edge again at the same vertex changes
      nothing: the vertex is now its end. */
  lemma SplitAgainNoOp(ar: Arena, store: SolveStore, orig: HalfEdgeId, v: VertexId)
    requires Bounded(ar) && HasEdge(ar, orig) && LoopsReady(ar, orig, Twin(ar, orig))
    requires Twin(ar, orig) != orig
    requires ar.halfEdges[orig].vertexA != v && ar.halfEdges[orig].vertexB != v
    ensures var r := SplitEdgeByVertex(ar, store, orig, v);
      && r.Ok? && r.value.added.Some?
      && SplitEdgeByVertex(r.value.ar, r.value.store, orig, v) == Ok(Outcome(r.value.ar, r.value.store, None))
  {
    CutRecords(ar, store, orig, v);
    CutEdges(ar, store, orig, v);
  }

  /** What any successful split leaves of the arena: the counter does
      not go back; no edge or half-edge disappears; every edge but the
      split half-edge's own `e` keeps its record; a half-edge outside any
      loop keeps its record (and when `orig` is one, nothing changes); and
      every half-edge record that changed or is new lies in a loop and sits
      either on `e` or on an edge that did not exist before. */
  lemma SplitTouches(ar: Arena, store: SolveStore, orig: HalfEdgeId, v: VertexId)
    requires Bounded(ar) && SplitEdgeByVertex(ar, store, orig, v).Ok?
    ensures HasEdge(ar, orig)
    ensures var r := SplitEdgeByVertex(ar, store, orig, v).value.ar;
      var e := ar.halfEdges[orig].edge.value;
      && r.nextHandle >= ar.nextHandle
      && r.edges.Keys >= ar.edges.Keys && r.halfEdges.Keys >= ar.halfEdges.Keys
      && (ar.halfEdges[orig].loop.None? ==> r == ar)
      && (forall x :: x in ar.edges && x != e ==> r.edges[x] == ar.edges[x])
      && (forall x :: x in ar.halfEdges && ar.halfEdges[x].loop.None? ==> r.halfEdges[x] == ar.halfEdges[x])
      && (forall x :: x in r.halfEdges ==>
            || (x in ar.halfEdges && r.halfEdges[x] == ar.halfEdges[x])
            || (&& r.halfEdges[x].loop.Some? && r.halfEdges[x].edge.Some? && r.halfEdges[x].edge.value in r.edges
                && (r.halfEdges[x].edge.value == e || r.halfEdges[x].edge.value !in ar.edges)))
  {
    var o := ar.halfEdges[orig];
    var twin := Twin(ar, orig);
    if o.vertexA != v && o.vertexB != v {
      CutTouches(ar, store, orig, twin, v);
    }
  }

  lemma CutTouches(ar: Arena, store: SolveStore, orig: HalfEdgeId, twin: HalfEdgeId, v: VertexId)
    requires Bounded(ar) && HasEdge(ar, orig) && twin == Twin(ar, orig) && LoopsReady(ar, orig, twin)
    ensures var r := Cut(ar, store, orig, twin, v).ar;
      var e := ar.halfEdges[orig].edge.value;
      && r.nextHandle >= ar.nextHandle
      && r.edges.Keys >= ar.edges.Keys && r.halfEdges.Keys >= ar.halfEdges.Keys
      && (forall x :: x in ar.edges && x != e ==> r.edges[x] == ar.edges[x])
      && (forall x :: x in ar.halfEdges && ar.halfEdges[x].loop.None? ==> r.halfEdges[x] == ar.halfEdges[x])
      && (forall x :: x in r.halfEdges ==>
            || (x in ar.halfEdges && r.halfEdges[x] == ar.halfEdges[x])
            || (&& r.halfEdges[x].loop.Some? && r.halfEdges[x].edge.Some? && r.halfEdges[x].edge.value in r.edges
                && (r.halfEdges[x].edge.value == e || r.halfEdges[x].edge.value !in ar.edges)))
  {
    var e := ar.halfEdges[orig].edge.value;
    var hv := Halves(ar, orig, twin, v);
    var ar2, no, nt := hv.0, hv.1, hv.2;
    RelinkEdges(ar2, e, orig, twin, no, nt);
    var rl := Relink(ar2, e, orig, twin, no, nt);
    var ar5, e2 := rl.0, rl.1;
    var r := Place(ar5, orig, twin, no, nt);
    assert r.edges == ar5.edges && r.nextHandle == ar5.nextHandle;
    CutFrame(ar, store, orig, v);
    CutFour(ar, orig, twin, v);
    TouchedFromFacts(ar.halfEdges, r.halfEdges, orig, twin, no, nt, e, e2, ar.edges.Keys, r.edges.Keys);
  }

  /** The half-edge half of `CutTouches`, from the facts about the stages. */
  lemma TouchedFromFacts(hs: map<HalfEdgeId, HalfEdge>, rs: map<HalfEdgeId, HalfEdge>,
                         orig: HalfEdgeId, twin: HalfEdgeId, no: HalfEdgeId, nt: HalfEdgeId,
                         e: EdgeId, e2: EdgeId, edges: set<EdgeId>, edges': set<EdgeId>)
    requires orig in hs && twin in hs && rs.Keys == hs.Keys + {no, nt} && e2 !in edges
    requires e in edges' && e2 in edges'
    requires hs[orig].loop.Some? && hs[twin].loop.Some?
    requires forall x :: x in hs && x != orig && x != twin ==> rs[x] == hs[x]
    requires forall x :: (x == orig || x == twin || x == no || x == nt) ==>
      && rs[x].loop.Some? && rs[x].edge.Some? && (rs[x].edge.value == e || rs[x].edge.value == e2)
    ensures forall x :: x in hs && hs[x].loop.None? ==> rs[x] == hs[x]
    ensures forall x :: x in rs ==>
      || (x in hs && rs[x] == hs[x])
      || (rs[x].loop.Some? && rs[x].edge.Some? && rs[x].edge.value in edges'
          && (rs[x].edge.value == e || rs[x].edge.value !in edges))
  {
  }

  /** The four half-edges a cut touches lie in loops and sit on `e` or on
      the new edge. */
  lemma CutFour(ar: Arena, orig: HalfEdgeId, twin: HalfEdgeId, v: VertexId)
    requires Bounded(ar) && HasEdge(ar, orig) && twin == Twin(ar, orig) && LoopsReady(ar, orig, twin)
    ensures var e := ar.halfEdges[orig].edge.value;
      var hv := Halves(ar, orig, twin, v);
      var rl := Relink(hv.0, e, orig, twin, hv.1, hv.2);
      var r := Place(rl.0, orig, twin, hv.1, hv.2);
      forall x :: (x == orig || x == twin || x == hv.1 || x == hv.2) ==>
        && r.halfEdges[x].loop.Some? && r.halfEdges[x].edge.Some?
        && (r.halfEdges[x].edge.value == e || r.halfEdges[x].edge.value == rl.1)
  {
    var e := ar.halfEdges[orig].edge.value;
    var hv := Halves(ar, orig, twin, v);
    var ar2, no, nt := hv.0, hv.1, hv.2;
    RelinkRecords(ar2, e, orig, twin, no, nt);
    var rl := Relink(ar2, e, orig, twin, no, nt);
    var ar5, e2 := rl.0, rl.1;
    PlaceRecords(ar5, orig, twin, no, nt);
    assert ar5.halfEdges[orig].loop == ar.halfEdges[orig].loop;
    assert ar5.halfEdges[twin].loop == ar.halfEdges[twin].loop;
  }
}
