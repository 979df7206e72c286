/** `filterFaces`, `traverseFaces` and `isFaceContainNewLoop` of
    `web/app/brep/operations/boolean.js`: after the loops of the boolean
    result are detected, a face is kept when a face holding a new loop can
    be reached from it by crossing edges into neighbouring faces of the
    given list. */
module FaceFilter {
  import opened Wrappers
  import opened Seqs
  import opened Topo

  /** The faces `traverseFaces` pushes after visiting a face, in push
      order, or the error it throws. */
  type Nbrs = FaceId -> Result<seq<FaceId>, Thrown>

  // ---------------------------------------------------------------------
  // the neighbours of a face

  /** `halfEdge.twin().loop.face`: `twin()` throws on a half-edge without an
      edge, and reading `.face` throws when the twin is in no loop (the
      halves `new Edge(curve)` makes without endpoints have no record here
      and stand for such twins). */
  function TwinFace(ar: Arena, h: HalfEdgeId): (r: Result<Option<FaceId>, Thrown>)
    ensures r.Err? ==> r.error == TypeError
    ensures r.Ok? <==>
      && h in ar.halfEdges && ar.halfEdges[h].edge.Some? && ar.halfEdges[h].edge.value in ar.edges
      && Twin(ar, h) in ar.halfEdges && ar.halfEdges[Twin(ar, h)].loop.Some?
      && ar.halfEdges[Twin(ar, h)].loop.value in ar.loops
    ensures r.Ok? ==> r.value == ar.loops[ar.halfEdges[Twin(ar, h)].loop.value].face
  {
    if h !in ar.halfEdges || ar.halfEdges[h].edge.None? || ar.halfEdges[h].edge.value !in ar.edges then Err(TypeError)
    else
      var tw := Twin(ar, h);
      if tw !in ar.halfEdges || ar.halfEdges[tw].loop.None? || ar.halfEdges[tw].loop.value !in ar.loops then Err(TypeError)
      else Ok(ar.loops[ar.halfEdges[tw].loop.value].face)
  }

  /** The inner loop of `traverseFaces` over the half-edges `hs`: the face
      across each one is pushed when it is one of the `valid` faces. */
  function TwinFaces(ar: Arena, valid: set<FaceId>, hs: seq<HalfEdgeId>): (r: Result<seq<FaceId>, Thrown>)
    ensures r.Err? ==> r.error == TypeError
    ensures r.Ok? <==> forall k :: 0 <= k < |hs| ==> TwinFace(ar, hs[k]).Ok?
    ensures r.Ok? ==> forall g :: g in r.value <==>
      g in valid && exists k :: 0 <= k < |hs| && TwinFace(ar, hs[k]) == Ok(Some(g))
  {
    if |hs| == 0 then Ok([])
    else
      var tf :- TwinFace(ar, hs[0]);
      var rest :- TwinFaces(ar, valid, hs[1..]);
      assert forall k :: 1 <= k < |hs| ==> hs[k] == hs[1..][k - 1];
      assert forall k :: 0 <= k < |hs[1..]| ==> hs[1..][k] == hs[k + 1];
      if tf.Some? && tf.value in valid then Ok([tf.value] + rest) else Ok(rest)
  }

  /** Everything `traverseFaces` pushes after visiting `f`: nothing when
      `f` is not one of the valid faces, otherwise the valid faces across
      the half-edges of `f`'s loops, loop after loop. A face or loop handle
      without a record cannot come from the program's objects and is
      reported as a `TypeError`. */
  function FaceNeighbors(ar: Arena, valid: set<FaceId>, f: FaceId): (r: Result<seq<FaceId>, Thrown>)
    ensures r.Err? ==> r.error == TypeError
    ensures f !in valid ==> r == Ok([])
    ensures r.Ok? ==> forall g :: g in r.value ==> g in valid
    ensures f in valid && LoopsPresent(ar, f) ==> r == TwinFaces(ar, valid, FaceEdges(ar, f))
  {
    if f !in valid then Ok([])
    else if !LoopsPresentCheck(ar, f) then Err(TypeError)
    else TwinFaces(ar, valid, FaceEdges(ar, f))
  }

  /** `LoopsPresent`, computed. */
  function LoopsPresentCheck(ar: Arena, f: FaceId): (r: bool)
    ensures r <==> LoopsPresent(ar, f)
  {
    f in ar.faces && forall l | l in Loops(ar.faces[f]) :: l in ar.loops
  }

  /** `FaceNeighbors` as the function `traverseFaces` works with. */
  function NeighborFn(ar: Arena, valid: set<FaceId>): Nbrs {
    f => FaceNeighbors(ar, valid, f)
  }

  // ---------------------------------------------------------------------
  // reachability

  /** `g` is pushed after visiting `f`. */
  ghost predicate Adj(nbrs: Nbrs, f: FaceId, g: FaceId) {
    nbrs(f).Ok? && g in nbrs(f).value
  }

  /** A walk along `Adj`. */
  ghost predicate IsPath(nbrs: Nbrs, p: seq<FaceId>) {
    |p| >= 1 && forall k :: 0 <= k < |p| - 1 ==> Adj(nbrs, p[k], p[k + 1])
  }

  /** `g` can be reached from `f` in zero or more steps. */
  ghost predicate Reaches(nbrs: Nbrs, f: FaceId, g: FaceId) {
    exists p :: IsPath(nbrs, p) && p[0] == f && p[|p| - 1] == g
  }

  lemma ReachesRefl(nbrs: Nbrs, f: FaceId)
    ensures Reaches(nbrs, f, f)
  {
    assert IsPath(nbrs, [f]);
  }

  lemma ReachesStep(nbrs: Nbrs, f: FaceId, g: FaceId, h: FaceId)
    requires Reaches(nbrs, f, g) && Adj(nbrs, g, h)
    ensures Reaches(nbrs, f, h)
  {
    var p :| IsPath(nbrs, p) && p[0] == f && p[|p| - 1] == g;
    var q := p + [h];
    assert forall k :: 0 <= k < |p| ==> q[k] == p[k];
    assert IsPath(nbrs, q);
  }

  /** Reachability is transitive. */
  lemma ReachesTrans(nbrs: Nbrs, f: FaceId, g: FaceId, h: FaceId)
    requires Reaches(nbrs, f, g) && Reaches(nbrs, g, h)
    ensures Reaches(nbrs, f, h)
  {
    var p :| IsPath(nbrs, p) && p[0] == f && p[|p| - 1] == g;
    var q :| IsPath(nbrs, q) && q[0] == g && q[|q| - 1] == h;
    var pq := p + q[1..];
    forall k | 0 <= k < |pq| - 1 ensures Adj(nbrs, pq[k], pq[k + 1]) {
      if k < |p| - 1 {
        assert pq[k] == p[k] && pq[k + 1] == p[k + 1];
      } else {
        assert pq[k] == q[k - |p| + 1] && pq[k + 1] == q[k - |p| + 2];
      }
    }
    assert IsPath(nbrs, pq);
  }

  /** A set closed under `Adj` holds the end of every walk that starts in
      it. */
  lemma {:induction false} ClosedHoldsPath(nbrs: Nbrs, seen: set<FaceId>, p: seq<FaceId>)
    requires IsPath(nbrs, p) && p[0] in seen
    requires forall x :: x in seen ==> nbrs(x).Ok? && forall y :: y in nbrs(x).value ==> y in seen
    ensures p[|p| - 1] in seen
    decreases |p|
  {
    if |p| > 1 {
      var q := p[..|p| - 1];
      assert forall k :: 0 <= k < |q| ==> q[k] == p[k];
      assert IsPath(nbrs, q);
      ClosedHoldsPath(nbrs, seen, q);
      assert Adj(nbrs, p[|p| - 2], p[|p| - 1]);
    }
  }

  // ---------------------------------------------------------------------
  // traverseFaces

  /** Every face on the stack is in the universe `u`. */
  ghost predicate StackIn(stack: seq<FaceId>, u: set<FaceId>) {
    forall k :: 0 <= k < |stack| ==> stack[k] in u
  }

  /** Every face a visit pushes stays in `u`. */
  ghost predicate ClosedIn(nbrs: Nbrs, u: set<FaceId>) {
    forall x :: x in u && nbrs(x).Ok? ==> forall k :: 0 <= k < |nbrs(x).value| ==> nbrs(x).value[k] in u
  }

  lemma SeenGrows(u: set<FaceId>, seen: set<FaceId>, f: FaceId)
    requires f in u && f !in seen
    ensures |u - (seen + {f})| < |u - seen|
  {
    assert u - seen == (u - (seen + {f})) + {f};
  }

  /** The loop of `traverseFaces`: pop a face; skip it when seen; otherwise
      mark it seen and stop with `true` when `hit` holds for it, or push the
      faces across its edges. The universe `u` of faces that can ever be on
      the stack bounds the loop. */
  function Traverse(nbrs: Nbrs, u: set<FaceId>, hit: FaceId -> bool, stack: seq<FaceId>, seen: set<FaceId>)
    : (r: Result<bool, Thrown>)
    requires ClosedIn(nbrs, u) && StackIn(stack, u)
    ensures r.Err? ==> exists x :: x in u && nbrs(x).Err? && r.error == nbrs(x).error
    decreases |u - seen|, |stack|
  {
    if |stack| == 0 then Ok(false)
    else
      var f := stack[|stack| - 1];
      var rest := stack[..|stack| - 1];
      if f in seen then Traverse(nbrs, u, hit, rest, seen)
      else if hit(f) then Ok(true)
      else
        var ns :- nbrs(f);
        SeenGrows(u, seen, f);
        Traverse(nbrs, u, hit, rest + ns, seen + {f})
  }

  /** A visit only ever pushes valid faces. */
  lemma NeighborsClosed(ar: Arena, valid: set<FaceId>)
    ensures ClosedIn(NeighborFn(ar, valid), valid)
  {
  }

  /** `traverseFaces(face, validFaces, callback)`: a depth-first search
      from `start` that ends at the first face for which the callback
      returns `true`. */
  function TraverseFaces(ar: Arena, valid: set<FaceId>, start: FaceId, hit: FaceId -> bool): (r: Result<bool, Thrown>)
    ensures r.Err? ==> r.error == TypeError
  {
    assert ClosedIn(NeighborFn(ar, valid), valid + {start});
    Traverse(NeighborFn(ar, valid), valid + {start}, hit, [start], {})
  }

  /** What holds between two rounds of the search from `start`: `start`
      was pushed; every seen face missed and had all its neighbours seen or
      still stacked; every seen or stacked face is reachable. */
  ghost predicate DfsInv(nbrs: Nbrs, hit: FaceId -> bool, start: FaceId, stack: seq<FaceId>, seen: set<FaceId>) {
    && (start in seen || start in stack)
    && (forall x :: x in seen ==> !hit(x) && nbrs(x).Ok? && forall y :: y in nbrs(x).value ==> y in seen || y in stack)
    && (forall x :: x in seen ==> Reaches(nbrs, start, x))
    && (forall y :: y in stack ==> Reaches(nbrs, start, y))
  }

  /** The search answers `true` exactly when some face reachable from
      `start` is hit. */
  lemma {:induction false} TraverseSpec(nbrs: Nbrs, u: set<FaceId>, hit: FaceId -> bool, start: FaceId,
                                        stack: seq<FaceId>, seen: set<FaceId>)
    requires ClosedIn(nbrs, u) && StackIn(stack, u) && DfsInv(nbrs, hit, start, stack, seen)
    ensures Traverse(nbrs, u, hit, stack, seen).Ok? ==>
      (Traverse(nbrs, u, hit, stack, seen).value <==> exists y :: Reaches(nbrs, start, y) && hit(y))
    decreases |u - seen|, |stack|
  {
    if |stack| == 0 {
      forall y | Reaches(nbrs, start, y) ensures !hit(y) {
        var p :| IsPath(nbrs, p) && p[0] == start && p[|p| - 1] == y;
        ClosedHoldsPath(nbrs, seen, p);
      }
    } else {
      var f := stack[|stack| - 1];
      var rest := stack[..|stack| - 1];
      assert forall y :: y in stack <==> y in rest || y == f;
      assert StackIn(rest, u);
      if f in seen {
        assert DfsInv(nbrs, hit, start, rest, seen);
        TraverseSpec(nbrs, u, hit, start, rest, seen);
      } else if !hit(f) && nbrs(f).Ok? {
        var ns := nbrs(f).value;
        var stack' := rest + ns;
        var seen' := seen + {f};
        SeenGrows(u, seen, f);
        assert forall y :: y in stack' <==> y in rest || y in ns;
        assert StackIn(stack', u);
        forall y | y in ns ensures Reaches(nbrs, start, y) {
          ReachesStep(nbrs, start, f, y);
        }
        assert DfsInv(nbrs, hit, start, stack', seen');
        TraverseSpec(nbrs, u, hit, start, stack', seen');
      }
    }
  }

  /** The search throws only when visiting some face throws: when every
      face of the universe can be visited, it answers. */
  lemma {:induction false} TraverseOk(nbrs: Nbrs, u: set<FaceId>, hit: FaceId -> bool, stack: seq<FaceId>, seen: set<FaceId>)
    requires ClosedIn(nbrs, u) && StackIn(stack, u)
    requires forall x :: x in u ==> nbrs(x).Ok?
    ensures Traverse(nbrs, u, hit, stack, seen).Ok?
    decreases |u - seen|, |stack|
  {
    if |stack| > 0 {
      var f := stack[|stack| - 1];
      var rest := stack[..|stack| - 1];
      assert StackIn(rest, u);
      if f in seen {
        TraverseOk(nbrs, u, hit, rest, seen);
      } else if !hit(f) {
        SeenGrows(u, seen, f);
        var ns := nbrs(f).value;
        assert forall k :: 0 <= k < |rest + ns| ==> (rest + ns)[k] in rest || (rest + ns)[k] in ns;
        TraverseOk(nbrs, u, hit, rest + ns, seen + {f});
      }
    }
  }

  /** `traverseFaces` answers `true` exactly when a face the callback
      accepts can be reached from `start`. */
  lemma TraverseFacesSpec(ar: Arena, valid: set<FaceId>, start: FaceId, hit: FaceId -> bool)
    ensures TraverseFaces(ar, valid, start, hit).Ok? ==>
      (TraverseFaces(ar, valid, start, hit).value <==> exists y :: Reaches(NeighborFn(ar, valid), start, y) && hit(y))
  {
    var nbrs := NeighborFn(ar, valid);
    ReachesRefl(nbrs, start);
    assert DfsInv(nbrs, hit, start, [start], {});
    TraverseSpec(nbrs, valid + {start}, hit, start, [start], {});
  }

  // ---------------------------------------------------------------------
  // filterFaces

  /** `isFaceContainNewLoop`: some loop of the face is one of the new
      loops. A face handle without a record holds none. */
  function ContainsNewLoop(ar: Arena, f: FaceId, newLoops: set<LoopId>): (r: bool)
    ensures r <==> f in ar.faces && exists k :: 0 <= k < |Loops(ar.faces[f])| && Loops(ar.faces[f])[k] in newLoops
  {
    f in ar.faces && AnyIn(Loops(ar.faces[f]), newLoops)
  }

  /** The scan over the loops, stopping at the first new one. */
  function AnyIn(ls: seq<LoopId>, newLoops: set<LoopId>): (r: bool)
    ensures r <==> exists k :: 0 <= k < |ls| && ls[k] in newLoops
  {
    if |ls| == 0 then false
    else if ls[0] in newLoops then true
    else
      assert forall k :: 1 <= k < |ls| ==> ls[k] == ls[1..][k - 1];
      AnyIn(ls[1..], newLoops)
  }

  /** The callback of `filterFaces`: the face is already in the result or
      holds a new loop. */
  function HitFn(ar: Arena, newLoops: set<LoopId>, result: seq<FaceId>): FaceId -> bool {
    it => it in result || ContainsNewLoop(ar, it, newLoops)
  }

  /** The faces of the list, as the `Set` `filterFaces` builds from it. */
  function SetOf(faces: seq<FaceId>): (r: set<FaceId>)
    ensures forall f :: f in r <==> f in faces
  {
    set f | f in faces
  }

  /** The loop of `filterFaces` from position `i`: each face is traversed
      and, when the callback fired, added to the result set (kept here as
      a sequence in insertion order). */
  function FilterFrom(ar: Arena, faces: seq<FaceId>, newLoops: set<LoopId>, i: nat, result: seq<FaceId>)
    : (r: Result<seq<FaceId>, Thrown>)
    requires i <= |faces|
    ensures r.Err? ==> r.error == TypeError
    decreases |faces| - i
  {
    if i == |faces| then Ok(result)
    else
      var face := faces[i];
      var b :- TraverseFaces(ar, SetOf(faces), face, HitFn(ar, newLoops, result));
      FilterFrom(ar, faces, newLoops, i + 1, if b && face !in result then result + [face] else result)
  }

  /** `filterFaces(faces, newLoops, validLoops)`; `validLoops` is not
      read. */
  function FilterFaces(ar: Arena, faces: seq<FaceId>, newLoops: set<LoopId>): (r: Result<seq<FaceId>, Thrown>)
    ensures r.Err? ==> r.error == TypeError
  {
    FilterFrom(ar, faces, newLoops, 0, [])
  }

  /** From `g`, a face holding a new loop is reachable through the given
      faces. */
  ghost predicate LeadsToNew(ar: Arena, faces: seq<FaceId>, newLoops: set<LoopId>, g: FaceId) {
    exists y :: Reaches(NeighborFn(ar, SetOf(faces)), g, y) && ContainsNewLoop(ar, y, newLoops)
  }

  /** The result so far is exactly the faces before `i` that lead to a new
      loop, each once. */
  ghost predicate FilterInv(ar: Arena, faces: seq<FaceId>, newLoops: set<LoopId>, i: nat, result: seq<FaceId>)
    requires i <= |faces|
  {
    && Distinct(result)
    && forall g :: g in result <==> g in faces[..i] && LeadsToNew(ar, faces, newLoops, g)
  }

  /** One traversal of `filterFaces` fires exactly when its face leads to a
      new loop: a face already in the result leads to one itself. */
  lemma HitIffLeads(ar: Arena, faces: seq<FaceId>, newLoops: set<LoopId>, i: nat, result: seq<FaceId>)
    requires i < |faces| && FilterInv(ar, faces, newLoops, i, result)
    ensures var b := TraverseFaces(ar, SetOf(faces), faces[i], HitFn(ar, newLoops, result));
      b.Ok? ==> (b.value <==> LeadsToNew(ar, faces, newLoops, faces[i]))
  {
    var nbrs := NeighborFn(ar, SetOf(faces));
    var hit := HitFn(ar, newLoops, result);
    var face := faces[i];
    TraverseFacesSpec(ar, SetOf(faces), face, hit);
    if y :| Reaches(nbrs, face, y) && hit(y) {
      if y in result {
        var z :| Reaches(nbrs, y, z) && ContainsNewLoop(ar, z, newLoops);
        ReachesTrans(nbrs, face, y, z);
      }
    }
    if LeadsToNew(ar, faces, newLoops, face) {
      var z :| Reaches(nbrs, face, z) && ContainsNewLoop(ar, z, newLoops);
      assert hit(z);
    }
  }

  /** Adding the face at `i` exactly when it leads to a new loop keeps
      `FilterInv`. */
  lemma FilterStep(ar: Arena, faces: seq<FaceId>, newLoops: set<LoopId>, i: nat, result: seq<FaceId>, b: bool)
    requires i < |faces| && FilterInv(ar, faces, newLoops, i, result)
    requires b <==> LeadsToNew(ar, faces, newLoops, faces[i])
    ensures FilterInv(ar, faces, newLoops, i + 1, if b && faces[i] !in result then result + [faces[i]] else result)
  {
    assert faces[..i + 1] == faces[..i] + [faces[i]];
  }

  lemma {:induction false} FilterFromSpec(ar: Arena, faces: seq<FaceId>, newLoops: set<LoopId>, i: nat, result: seq<FaceId>)
    requires i <= |faces| && FilterInv(ar, faces, newLoops, i, result)
    ensures var r := FilterFrom(ar, faces, newLoops, i, result);
      r.Ok? ==> FilterInv(ar, faces, newLoops, |faces|, r.value)
    decreases |faces| - i
  {
    if i < |faces| {
      var face := faces[i];
      var b := TraverseFaces(ar, SetOf(faces), face, HitFn(ar, newLoops, result));
      if b.Ok? {
        var result' := if b.value && face !in result then result + [face] else result;
        assert FilterFrom(ar, faces, newLoops, i, result) == FilterFrom(ar, faces, newLoops, i + 1, result');
        HitIffLeads(ar, faces, newLoops, i, result);
        FilterStep(ar, faces, newLoops, i, result, b.value);
        FilterFromSpec(ar, faces, newLoops, i + 1, result');
      }
    }
  }

  /** `filterFaces` keeps exactly the given faces from which a face holding
      a new loop is reachable through twin-adjacency among the given
      faces, each once. */
  lemma FilterFacesSpec(ar: Arena, faces: seq<FaceId>, newLoops: set<LoopId>)
    ensures var r := FilterFaces(ar, faces, newLoops);
      r.Ok? ==> Distinct(r.value) && forall g :: g in r.value <==> g in faces && LeadsToNew(ar, faces, newLoops, g)
  {
    assert faces[..0] == [];
    FilterFromSpec(ar, faces, newLoops, 0, []);
    assert faces[..|faces|] == faces;
  }

  /** A search over faces that can all be visited answers. */
  lemma TraverseFacesOk(ar: Arena, valid: set<FaceId>, start: FaceId, hit: FaceId -> bool)
    requires start in valid && forall x :: x in valid ==> FaceNeighbors(ar, valid, x).Ok?
    ensures TraverseFaces(ar, valid, start, hit).Ok?
  {
    var nbrs := NeighborFn(ar, valid);
    var u := valid + {start};
    StartUniverse(ar, valid, start);
    assert StackIn([start], u);
    TraverseOk(nbrs, u, hit, [start], {});
  }

  /** The universe of the search from `start` is closed and every face in
      it can be visited. */
  lemma StartUniverse(ar: Arena, valid: set<FaceId>, start: FaceId)
    requires start in valid && forall x :: x in valid ==> FaceNeighbors(ar, valid, x).Ok?
    ensures ClosedIn(NeighborFn(ar, valid), valid + {start})
    ensures forall x :: x in valid + {start} ==> NeighborFn(ar, valid)(x).Ok?
  {
    var nbrs := NeighborFn(ar, valid);
    NeighborsClosed(ar, valid);
    forall x | x in valid ensures nbrs(x).Ok? {
      assert nbrs(x) == FaceNeighbors(ar, valid, x);
    }
    UniverseWithStart(nbrs, valid, start);
  }

  /** Adding a start face that is already in the universe changes nothing. */
  lemma UniverseWithStart(nbrs: Nbrs, u: set<FaceId>, start: FaceId)
    requires start in u && ClosedIn(nbrs, u) && forall x :: x in u ==> nbrs(x).Ok?
    ensures ClosedIn(nbrs, u + {start}) && forall x :: x in u + {start} ==> nbrs(x).Ok?
  {
    assert u + {start} == u;
  }

  /** When every given face can be visited, `filterFaces` does not
      throw. */
  lemma {:induction false} FilterFacesOk(ar: Arena, faces: seq<FaceId>, newLoops: set<LoopId>, i: nat, result: seq<FaceId>)
    requires i <= |faces|
    requires forall x :: x in faces ==> FaceNeighbors(ar, SetOf(faces), x).Ok?
    ensures FilterFrom(ar, faces, newLoops, i, result).Ok?
    decreases |faces| - i
  {
    if i < |faces| {
      var face := faces[i];
      TraverseFacesOk(ar, SetOf(faces), face, HitFn(ar, newLoops, result));
      var b := TraverseFaces(ar, SetOf(faces), face, HitFn(ar, newLoops, result));
      FilterFacesOk(ar, faces, newLoops, i + 1, if b.value && face !in result then result + [face] else result);
    }
  }
}
