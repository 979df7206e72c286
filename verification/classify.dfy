/** Point classification of `web/app/hds/boolean.js`: the discrete parts
    of `classifyPointInsideLoop` (the vertex hit that returns before any
    crossing test, the `grads` signs and the cyclic searches `nextGrad` and
    `prevGrad`) and the face-level combinator `classifyPointToFace`. The
    geometry is abstract: `toUV` maps a vertex to the surface's parameter
    plane, `eq` is `math.areEqual(_, _, TOLERANCE)`, `nearZero` the same
    test against 0, and the ray-crossing parity is handed in as a result. */
module Classify {
  import opened Wrappers
  import opened Topo

  /** A point of a surface's (u, v) parameter plane. */
  datatype UV = UV(x: real, y: real)

  /** The objects `classifyPointInsideLoop` returns: `VertexResult` and
      `EdgeResult` carry a vertex or an edge and have `inside` set, the
      crossing test returns only `inside`. */
  datatype Classification = Classification(inside: bool, vertex: Option<VertexId>, edge: Option<HalfEdgeId>)

  /** `result.vertex || result.edge`: the point lies on the loop. */
  predicate Hit(c: Classification) {
    c.vertex.Some? || c.edge.Some?
  }

  // ---------------------------------------------------------------------
  // classifyPointInsideLoop: the vertex hit

  /** The loop vertex `v` sits at `uvPt` within tolerance, `y` first. */
  predicate AtVertex(uvPt: UV, v: VertexId, toUV: VertexId -> UV, eq: (real, real) -> bool) {
    eq(uvPt.y, toUV(v).y) && eq(uvPt.x, toUV(v).x)
  }

  /** Lines 810-816: the first loop vertex (the `a` end of each half-edge,
      in loop order) at `uvPt` gives a `VertexResult`; none gives nothing. */
  function VertexHit(uvPt: UV, starts: seq<VertexId>, toUV: VertexId -> UV, eq: (real, real) -> bool): (r: Option<Classification>)
    ensures r.Some? ==> r.value.inside && r.value.edge.None? && r.value.vertex.Some?
    decreases |starts|
  {
    if starts == [] then None
    else if AtVertex(uvPt, starts[0], toUV, eq) then Some(Classification(true, Some(starts[0]), None))
    else VertexHit(uvPt, starts[1..], toUV, eq)
  }

  /** The vertex hit is the first vertex at the point, and there is none
      exactly when no vertex is at the point. */
  lemma {:induction false} VertexHitFirst(uvPt: UV, starts: seq<VertexId>, toUV: VertexId -> UV, eq: (real, real) -> bool)
    ensures VertexHit(uvPt, starts, toUV, eq).None? <==>
      forall k :: 0 <= k < |starts| ==> !AtVertex(uvPt, starts[k], toUV, eq)
    ensures forall k ::
      (0 <= k < |starts| && AtVertex(uvPt, starts[k], toUV, eq)
       && (forall j :: 0 <= j < k ==> !AtVertex(uvPt, starts[j], toUV, eq))) ==>
      VertexHit(uvPt, starts, toUV, eq) == Some(Classification(true, Some(starts[k]), None))
    decreases |starts|
  {
    if starts != [] {
      VertexHitFirst(uvPt, starts[1..], toUV, eq);
      forall k | 1 <= k < |starts| ensures starts[k] == starts[1..][k - 1] {
      }
      if !AtVertex(uvPt, starts[0], toUV, eq) {
        forall k | 0 <= k < |starts[1..]| && !AtVertex(uvPt, starts[1..][k], toUV, eq)
          ensures !AtVertex(uvPt, starts[k + 1], toUV, eq)
        {
        }
      }
    }
  }

  /** `classifyPointInsideLoop` up to its crossing test: a vertex hit
      returns at once; otherwise the result is that of the ray crossing
      test, `crossing`, which this model does not compute. */
  function ClassifyPointInsideLoop(uvPt: UV, starts: seq<VertexId>, toUV: VertexId -> UV, eq: (real, real) -> bool,
                                   crossing: Classification): (r: Classification)
    ensures r == crossing || (r.inside && r.vertex.Some? && r.edge.None?)
  {
    match VertexHit(uvPt, starts, toUV, eq)
    case Some(c) => c
    case None => crossing
  }

  /** Before any crossing test, the first vertex at the point wins, with
      `inside` set; with no vertex at the point, the crossing test decides. */
  lemma ClassifyPointInsideLoopVertex(uvPt: UV, starts: seq<VertexId>, toUV: VertexId -> UV, eq: (real, real) -> bool,
                                      crossing: Classification, k: nat)
    requires k < |starts| && AtVertex(uvPt, starts[k], toUV, eq)
    requires forall j :: 0 <= j < k ==> !AtVertex(uvPt, starts[j], toUV, eq)
    ensures ClassifyPointInsideLoop(uvPt, starts, toUV, eq, crossing) == Classification(true, Some(starts[k]), None)
  {
    VertexHitFirst(uvPt, starts, toUV, eq);
  }

  lemma ClassifyPointInsideLoopNoVertex(uvPt: UV, starts: seq<VertexId>, toUV: VertexId -> UV, eq: (real, real) -> bool,
                                        crossing: Classification)
    requires forall k :: 0 <= k < |starts| ==> !AtVertex(uvPt, starts[k], toUV, eq)
    ensures ClassifyPointInsideLoop(uvPt, starts, toUV, eq, crossing) == crossing
  {
    VertexHitFirst(uvPt, starts, toUV, eq);
  }

  // ---------------------------------------------------------------------
  // grads, nextGrad, prevGrad

  /** Lines 834-840: the sign of an edge's `dy`, 0 within tolerance. */
  function Grad(dy: real, nearZero: real -> bool): (r: int)
    ensures r == 0 || r == 1 || r == -1
    ensures r == 0 <==> nearZero(dy)
    ensures r == 1 <==> !nearZero(dy) && dy > 0.0
  {
    if nearZero(dy) then 0 else if dy > 0.0 then 1 else -1
  }

  /** Lines 820-841: one sign per edge of the loop, in loop order. */
  function Grads(dys: seq<real>, nearZero: real -> bool): (r: seq<int>)
    ensures |r| == |dys|
    ensures forall i :: 0 <= i < |r| ==> r[i] == Grad(dys[i], nearZero)
    ensures Signs(r)
  {
    seq(|dys|, i requires 0 <= i < |dys| => Grad(dys[i], nearZero))
  }

  /** Every entry is -1, 0 or 1. */
  predicate Signs(grads: seq<int>) {
    forall i :: 0 <= i < |grads| ==> grads[i] == 0 || grads[i] == 1 || grads[i] == -1
  }

  /** The index `nextGrad(start)` reads at step `i`. */
  function Fwd(n: nat, start: nat, i: nat): nat
    requires n > 0
  {
    (i + start + 1) % n
  }

  /** The index `prevGrad(start)` reads at step `i < n`; the `+ n` keeps
      the operand of `%` non-negative, so JavaScript's `%` and Dafny's agree. */
  function Bwd(n: nat, start: nat, i: nat): nat
    requires n > 0 && i < n
  {
    (start - i - 1 + n) % n
  }

  function NextGradFrom(grads: seq<int>, start: nat, i: nat): Option<int>
    decreases |grads| - i
  {
    if i >= |grads| then None
    else if grads[Fwd(|grads|, start, i)] != 0 then Some(grads[Fwd(|grads|, start, i)])
    else NextGradFrom(grads, start, i + 1)
  }

  function PrevGradFrom(grads: seq<int>, start: nat, i: nat): Option<int>
    decreases |grads| - i
  {
    if i >= |grads| then None
    else if grads[Bwd(|grads|, start, i)] != 0 then Some(grads[Bwd(|grads|, start, i)])
    else PrevGradFrom(grads, start, i + 1)
  }

  /** Lines 844-851: the first non-zero sign after `start`, scanning
      forward cyclically; `undefined` (None) when every sign is 0. */
  function NextGrad(grads: seq<int>, start: nat): (r: Option<int>)
    ensures Signs(grads) && r.Some? ==> r.value == 1 || r.value == -1
  {
    NextGradScan(grads, start, 0);
    NextGradFrom(grads, start, 0)
  }

  /** Lines 853-860: the first non-zero sign before `start`, scanning
      backward cyclically; `undefined` (None) when every sign is 0. */
  function PrevGrad(grads: seq<int>, start: nat): (r: Option<int>)
    ensures Signs(grads) && r.Some? ==> r.value == 1 || r.value == -1
  {
    PrevGradScan(grads, start, 0);
    PrevGradFrom(grads, start, 0)
  }

  /** The forward scan from step `i` stops at step `j`. */
  predicate FwdStop(grads: seq<int>, start: nat, i: nat, j: nat)
    requires |grads| > 0
  {
    && i <= j < |grads| && grads[Fwd(|grads|, start, j)] != 0
    && forall m :: i <= m < j ==> grads[Fwd(|grads|, start, m)] == 0
  }

  predicate BwdStop(grads: seq<int>, start: nat, i: nat, j: nat)
    requires |grads| > 0
  {
    && i <= j < |grads| && grads[Bwd(|grads|, start, j)] != 0
    && forall m :: i <= m < j ==> grads[Bwd(|grads|, start, m)] == 0
  }

  lemma {:induction false} NextGradScan(grads: seq<int>, start: nat, i: nat)
    ensures NextGradFrom(grads, start, i).None? <==>
      forall m :: i <= m < |grads| ==> grads[Fwd(|grads|, start, m)] == 0
    ensures NextGradFrom(grads, start, i).Some? ==>
      exists j :: FwdStop(grads, start, i, j) && NextGradFrom(grads, start, i) == Some(grads[Fwd(|grads|, start, j)])
    decreases |grads| - i
  {
    if i < |grads| && grads[Fwd(|grads|, start, i)] == 0 {
      NextGradScan(grads, start, i + 1);
      if NextGradFrom(grads, start, i + 1).Some? {
        var j :| FwdStop(grads, start, i + 1, j) && NextGradFrom(grads, start, i + 1) == Some(grads[Fwd(|grads|, start, j)]);
        assert FwdStop(grads, start, i, j);
      }
    } else if i < |grads| {
      assert FwdStop(grads, start, i, i);
    }
  }

  lemma {:induction false} PrevGradScan(grads: seq<int>, start: nat, i: nat)
    ensures PrevGradFrom(grads, start, i).None? <==>
      forall m :: i <= m < |grads| ==> grads[Bwd(|grads|, start, m)] == 0
    ensures PrevGradFrom(grads, start, i).Some? ==>
      exists j :: BwdStop(grads, start, i, j) && PrevGradFrom(grads, start, i) == Some(grads[Bwd(|grads|, start, j)])
    decreases |grads| - i
  {
    if i < |grads| && grads[Bwd(|grads|, start, i)] == 0 {
      PrevGradScan(grads, start, i + 1);
      if PrevGradFrom(grads, start, i + 1).Some? {
        var j :| BwdStop(grads, start, i + 1, j) && PrevGradFrom(grads, start, i + 1) == Some(grads[Bwd(|grads|, start, j)]);
        assert BwdStop(grads, start, i, j);
      }
    } else if i < |grads| {
      assert BwdStop(grads, start, i, i);
    }
  }

  lemma {:induction false} MulAtLeast(n: nat, m: nat)
    requires m >= 1
    ensures n * m >= n
    decreases m
  {
    if m > 1 {
      MulAtLeast(n, m - 1);
      assert n * m == n * (m - 1) + n;
    }
  }

  /** Euclidean division has one remainder. */
  lemma ModUnique(x: int, n: int, q: int, r: int)
    requires n > 0 && 0 <= r < n && x == n * q + r
    ensures x % n == r
  {
    var q' := x / n;
    var d := q - q';
    assert n * q == n * q' + n * d;
    assert n * d == x % n - r;
    if d >= 1 {
      MulAtLeast(n, d);
    } else if d <= -1 {
      MulAtLeast(n, -d);
    }
  }

  /** The forward scan visits every index. */
  lemma FwdCovers(n: nat, start: nat, k: nat)
    requires n > 0 && k < n
    ensures var i := (k - start - 1) % n; i < n && Fwd(n, start, i) == k
  {
    var d := k - start - 1;
    var i := d % n;
    assert d == n * (d / n) + i;
    ModUnique(i + start + 1, n, -(d / n), k);
  }

  /** The backward scan visits every index. */
  lemma BwdCovers(n: nat, start: nat, k: nat)
    requires n > 0 && k < n
    ensures var i := (start - 1 - k) % n; i < n && Bwd(n, start, i) == k
  {
    var d := start - 1 - k;
    var i := d % n;
    assert d == n * (d / n) + i;
    ModUnique(start - i - 1 + n, n, d / n + 1, k);
  }

  /** `nextGrad` gives nothing exactly when every sign is 0; otherwise it
      gives the sign at the first non-zero index of the cyclic scan that
      starts right after `start`. */
  lemma NextGradSpec(grads: seq<int>, start: nat)
    ensures NextGrad(grads, start).None? <==> forall k :: 0 <= k < |grads| ==> grads[k] == 0
    ensures NextGrad(grads, start).Some? ==>
      exists j :: FwdStop(grads, start, 0, j) && NextGrad(grads, start) == Some(grads[Fwd(|grads|, start, j)])
  {
    NextGradScan(grads, start, 0);
    if NextGrad(grads, start).None? {
      forall k | 0 <= k < |grads| ensures grads[k] == 0 {
        FwdCovers(|grads|, start, k);
      }
    }
  }

  /** `prevGrad` gives nothing exactly when every sign is 0; otherwise it
      gives the sign at the first non-zero index of the cyclic scan that
      starts right before `start`. */
  lemma PrevGradSpec(grads: seq<int>, start: nat)
    ensures PrevGrad(grads, start).None? <==> forall k :: 0 <= k < |grads| ==> grads[k] == 0
    ensures PrevGrad(grads, start).Some? ==>
      exists j :: BwdStop(grads, start, 0, j) && PrevGrad(grads, start) == Some(grads[Bwd(|grads|, start, j)])
  {
    PrevGradScan(grads, start, 0);
    if PrevGrad(grads, start).None? {
      forall k | 0 <= k < |grads| ensures grads[k] == 0 {
        BwdCovers(|grads|, start, k);
      }
    }
  }

  // ---------------------------------------------------------------------
  // classifyPointToFace

  /** `ccwCorrection(result, loop)`: `inside` is flipped when the loop is
      not counter-clockwise on the face's surface. */
  function CcwCorrection(result: Classification, isCcw: bool): (r: Classification)
    ensures r == result.(inside := r.inside)
    ensures r.inside != result.inside <==> !isCcw
  {
    if !isCcw then result.(inside := !result.inside) else result
  }

  /** The `for (let innerLoop of face.innerLoops)` loop from position `i`:
      a hit is returned as is; the first inner loop that contains the point
      decides; with none, the outer loop decides. */
  function ScanInner(outer: Classification, outerLoop: LoopId, inner: seq<LoopId>, i: nat,
                     classify: LoopId -> Classification, ccw: LoopId -> bool): Classification
    decreases |inner| - i
  {
    if i >= |inner| then CcwCorrection(outer, ccw(outerLoop))
    else if Hit(classify(inner[i])) then classify(inner[i])
    else if classify(inner[i]).inside then CcwCorrection(outer, ccw(inner[i]))
    else ScanInner(outer, outerLoop, inner, i + 1, classify, ccw)
  }

  /** `classifyPointToFace(point, face)` with `classify(loop)` standing for
      `classifyPointInsideLoop(point, loop, face.surface, uvPt)` and
      `ccw(loop)` for `loop.isCCW(face.surface)`. A face without an outer
      loop makes the first call read `edges` of `null`. */
  function ClassifyPointToFace(face: Face, classify: LoopId -> Classification, ccw: LoopId -> bool): (r: Result<Classification, Thrown>)
    ensures r.Err? <==> face.outerLoop.None?
    ensures r.Err? ==> r.error == TypeError
  {
    if face.outerLoop.None? then Err(TypeError)
    else
      var outer := classify(face.outerLoop.value);
      if outer.inside && Hit(outer) then Ok(outer)
      else Ok(ScanInner(outer, face.outerLoop.value, face.innerLoops, 0, classify, ccw))
  }

  /** The scan stops at inner loop `inner[k]`: it is a hit or contains
      the point. */
  predicate Stops(c: Classification) {
    Hit(c) || c.inside
  }

  lemma {:induction false} ScanInnerSpec(outer: Classification, outerLoop: LoopId, inner: seq<LoopId>, i: nat,
                                          classify: LoopId -> Classification, ccw: LoopId -> bool, k: nat)
    requires i <= k
    ensures k < |inner| && Stops(classify(inner[k])) && (forall j :: i <= j < k ==> !Stops(classify(inner[j]))) ==>
      ScanInner(outer, outerLoop, inner, i, classify, ccw)
        == (if Hit(classify(inner[k])) then classify(inner[k]) else CcwCorrection(outer, ccw(inner[k])))
    ensures k == |inner| && (forall j :: i <= j < |inner| ==> !Stops(classify(inner[j]))) ==>
      ScanInner(outer, outerLoop, inner, i, classify, ccw) == CcwCorrection(outer, ccw(outerLoop))
    decreases |inner| - i
  {
    if i < |inner| && i < k && !Stops(classify(inner[i])) {
      ScanInnerSpec(outer, outerLoop, inner, i + 1, classify, ccw, k);
    }
  }

  /** `inner[k]` is the first inner loop the scan stops at. */
  predicate FirstStop(inner: seq<LoopId>, classify: LoopId -> Classification, k: int) {
    0 <= k < |inner| && Stops(classify(inner[k])) && forall j :: 0 <= j < k ==> !Stops(classify(inner[j]))
  }

  /** The scan stops at no inner loop. */
  predicate NoStop(inner: seq<LoopId>, classify: LoopId -> Classification) {
    forall j :: 0 <= j < |inner| ==> !Stops(classify(inner[j]))
  }

  /** What `classifyPointToFace` returns, stated loop by loop: a hit on
      the outer loop that is inside is returned as is; otherwise the first
      inner loop that is hit or contains the point decides: a hit is
      returned as is, containment returns the outer result with `inside`
      flipped exactly when that inner loop is not counter-clockwise; with
      no such inner loop the outer result is returned with `inside` flipped
      exactly when the outer loop is not counter-clockwise. */
  lemma ClassifyPointToFaceSpec(face: Face, classify: LoopId -> Classification, ccw: LoopId -> bool)
    requires face.outerLoop.Some?
    ensures var outer := classify(face.outerLoop.value);
      var r := ClassifyPointToFace(face, classify, ccw).value;
      var inner := face.innerLoops;
      && (outer.inside && Hit(outer) ==> r == outer)
      && (!(outer.inside && Hit(outer)) ==>
            && (forall k :: FirstStop(inner, classify, k) && Hit(classify(inner[k])) ==> r == classify(inner[k]))
            && (forall k :: FirstStop(inner, classify, k) && !Hit(classify(inner[k])) ==>
                  r == outer.(inside := r.inside) && (r.inside != outer.inside <==> !ccw(inner[k])))
            && (NoStop(inner, classify) ==>
                  r == outer.(inside := r.inside) && (r.inside != outer.inside <==> !ccw(face.outerLoop.value))))
  {
    var outer := classify(face.outerLoop.value);
    var inner := face.innerLoops;
    if !(outer.inside && Hit(outer)) {
      forall k | FirstStop(inner, classify, k)
        ensures ScanInner(outer, face.outerLoop.value, inner, 0, classify, ccw)
          == (if Hit(classify(inner[k])) then classify(inner[k]) else CcwCorrection(outer, ccw(inner[k])))
      {
        ScanInnerSpec(outer, face.outerLoop.value, inner, 0, classify, ccw, k);
      }
      ScanInnerSpec(outer, face.outerLoop.value, inner, 0, classify, ccw, |inner|);
    }
  }

  /** Every hit `classifyPointToFace` returns is one of the loops' own
      results, unchanged. */
  lemma ClassifyHitUnchanged(face: Face, classify: LoopId -> Classification, ccw: LoopId -> bool)
    requires face.outerLoop.Some? && Hit(ClassifyPointToFace(face, classify, ccw).value)
    requires Hit(classify(face.outerLoop.value)) ==> classify(face.outerLoop.value).inside
    ensures var r := ClassifyPointToFace(face, classify, ccw).value;
      r == classify(face.outerLoop.value) || exists k :: 0 <= k < |face.innerLoops| && r == classify(face.innerLoops[k])
  {
    var outer := classify(face.outerLoop.value);
    if !(outer.inside && Hit(outer)) {
      ScanHit(outer, face.outerLoop.value, face.innerLoops, 0, classify, ccw);
    }
  }

  lemma {:induction false} ScanHit(outer: Classification, outerLoop: LoopId, inner: seq<LoopId>, i: nat,
                                   classify: LoopId -> Classification, ccw: LoopId -> bool)
    requires !Hit(outer)
    ensures var r := ScanInner(outer, outerLoop, inner, i, classify, ccw);
      Hit(r) ==> exists k :: i <= k < |inner| && r == classify(inner[k])
    decreases |inner| - i
  {
    if i < |inner| && !Hit(classify(inner[i])) && !classify(inner[i]).inside {
      ScanHit(outer, outerLoop, inner, i + 1, classify, ccw);
    }
  }
}
