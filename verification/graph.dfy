/** Loop detection of `web/app/brep/operations/boolean.js`: the
    vertex-to-half-edge graph (`initGraph`), the left-turn score
    (`leftTurningMeasure`, `findMaxTurningLeft`) and the greedy walk that
    collects a face's closed loops (`detectLoops`). */
module LoopDetection {
  import opened Wrappers
  import opened Seqs
  import opened Topo
  import opened Builder
  import opened SolveData

  /** `faceData.vertexToEdge`: for a vertex, the half-edges leaving it. */
  type Graph = map<VertexId, seq<HalfEdgeId>>

  /** The half-edges a sequence lists. */
  function Elems(s: seq<HalfEdgeId>): (r: set<HalfEdgeId>)
    ensures forall x :: x in r <==> x in s
  {
    set x | x in s
  }

  // ---------------------------------------------------------------------
  // initGraph

  /** The half-edges of `hs` that start at `v`, in order. */
  function Starting(ar: Arena, hs: seq<HalfEdgeId>, v: VertexId): (r: seq<HalfEdgeId>)
    requires AllIn(ar, hs)
    ensures forall x :: x in r <==> x in hs && ar.halfEdges[x].vertexA == v
  {
    if |hs| == 0 then []
    else
      var last := hs[|hs| - 1];
      assert forall x :: x in hs <==> x in hs[..|hs| - 1] || x == last;
      Starting(ar, hs[..|hs| - 1], v) + (if ar.halfEdges[last].vertexA == v then [last] else [])
  }

  /** `initGraph`: starting from an empty map, every half-edge of `hs` is
      appended to the list of its start vertex. A vertex is a key exactly
      when some half-edge starts there, and its list holds those
      half-edges in their order in `hs`. */
  function InitGraph(ar: Arena, hs: seq<HalfEdgeId>): (g: Graph)
    requires AllIn(ar, hs)
    ensures forall v :: v in g <==> |Starting(ar, hs, v)| > 0
    ensures forall v :: v in g ==> g[v] == Starting(ar, hs, v)
  {
    if |hs| == 0 then map[]
    else
      var n := |hs| - 1;
      var g0 := InitGraph(ar, hs[..n]);
      var g := AddToListInMap(g0, ar.halfEdges[hs[n]].vertexA, hs[n]);
      assert forall v :: Starting(ar, hs, v) == Starting(ar, hs[..n], v) + (if ar.halfEdges[hs[n]].vertexA == v then [hs[n]] else []);
      g
  }

  /** What `detectLoops` relies on: every listed half-edge is one of `E`,
      exists, and starts at the vertex it is listed under. */
  ghost predicate GraphInv(ar: Arena, g: Graph, E: set<HalfEdgeId>) {
    forall v, i :: v in g && 0 <= i < |g[v]| ==>
      g[v][i] in E && g[v][i] in ar.halfEdges && ar.halfEdges[g[v][i]].vertexA == v
  }

  /** `initGraph` establishes that invariant for the face's own half-edges. */
  lemma InitGraphInv(ar: Arena, hs: seq<HalfEdgeId>)
    requires AllIn(ar, hs)
    ensures GraphInv(ar, InitGraph(ar, hs), Elems(hs))
  {
    var g := InitGraph(ar, hs);
    forall v, i | v in g && 0 <= i < |g[v]|
      ensures g[v][i] in Elems(hs) && g[v][i] in ar.halfEdges && ar.halfEdges[g[v][i]].vertexA == v
    {
      assert g[v][i] in Starting(ar, hs, v);
    }
  }

  // ---------------------------------------------------------------------
  // leftTurningMeasure / findMaxTurningLeft

  /** `leftTurningMeasure(v1, v2, normal)` from `dot = v1 . v2` and the
      sign input `cross = (v1 x v2) . normal`. */
  function LeftTurningMeasure(dot: real, cross: real): (r: real)
    ensures cross >= 0.0 ==> r == 1.0 - dot
    ensures cross < 0.0 ==> r == 3.0 + dot
  {
    var measure := if cross < 0.0 then -(2.0 + dot) else dot;
    -(measure - 1.0)
  }

  /** For unit vectors a turn with a non-negative cross sign scores in
      [0, 2] and any other turn in [2, 4]: the latter always rank at least
      as high. */
  lemma MeasureRange(dot: real, cross: real)
    requires -1.0 <= dot <= 1.0
    ensures cross >= 0.0 ==> 0.0 <= LeftTurningMeasure(dot, cross) <= 2.0
    ensures cross < 0.0 ==> 2.0 <= LeftTurningMeasure(dot, cross) <= 4.0
  {
  }

  /** Within one side the score is monotone in `dot`: decreasing for a
      non-negative cross sign, increasing otherwise. */
  lemma MeasureMonotone(d1: real, d2: real, cross: real)
    requires d1 <= d2
    ensures cross >= 0.0 ==> LeftTurningMeasure(d1, cross) >= LeftTurningMeasure(d2, cross)
    ensures cross < 0.0 ==> LeftTurningMeasure(d1, cross) <= LeftTurningMeasure(d2, cross)
  {
  }

  /** The geometry `findMaxTurningLeft` reads, for a pivot half-edge `p`
      and a candidate `c`: the dot product of `p`'s reversed direction with
      `c`'s direction, and the sign of their cross product along the
      surface normal. */
  datatype Turning = Turning(dot: (HalfEdgeId, HalfEdgeId) -> real, cross: (HalfEdgeId, HalfEdgeId) -> real)

  /** The score of candidate `c` after pivot `p`. */
  function Measure(t: Turning, p: HalfEdgeId, c: HalfEdgeId): real {
    LeftTurningMeasure(t.dot(p, c), t.cross(p, c))
  }

  /** The position the ascending stable sort puts last: a maximal score,
      the latest one among equal scores. */
  function LastMax(t: Turning, p: HalfEdgeId, cs: seq<HalfEdgeId>): (i: nat)
    requires |cs| > 0
    ensures i < |cs|
    ensures forall j :: 0 <= j < |cs| ==> Measure(t, p, cs[j]) <= Measure(t, p, cs[i])
    ensures forall j :: i < j < |cs| ==> Measure(t, p, cs[j]) < Measure(t, p, cs[i])
  {
    if |cs| == 1 then 0
    else
      var k := LastMax(t, p, cs[..|cs| - 1]);
      assert forall j :: 0 <= j < |cs| - 1 ==> cs[..|cs| - 1][j] == cs[j];
      if Measure(t, p, cs[|cs| - 1]) >= Measure(t, p, cs[k]) then |cs| - 1 else k
  }

  /** `findMaxTurningLeft(pivot, edges, normal)`: nothing for an empty
      list (`edges[-1]`), otherwise the candidate the sort puts last. */
  function FindMaxTurningLeft(t: Turning, p: HalfEdgeId, cs: seq<HalfEdgeId>): Option<HalfEdgeId> {
    if |cs| == 0 then None else Some(cs[LastMax(t, p, cs)])
  }

  /** The winner is one of the candidates, scores at least as high as every
      other, and no later candidate ties with it; there is none exactly
      when the list is empty. The list is a value, so the caller's copy is
      untouched. */
  lemma FindMaxTurningLeftSpec(t: Turning, p: HalfEdgeId, cs: seq<HalfEdgeId>)
    ensures FindMaxTurningLeft(t, p, cs).None? <==> |cs| == 0
    ensures FindMaxTurningLeft(t, p, cs).Some? ==>
      exists i :: 0 <= i < |cs| && cs[i] == FindMaxTurningLeft(t, p, cs).value
        && (forall j :: 0 <= j < |cs| ==> Measure(t, p, cs[j]) <= Measure(t, p, cs[i]))
        && (forall j :: i < j < |cs| ==> Measure(t, p, cs[j]) < Measure(t, p, cs[i]))
  {
    if |cs| > 0 {
      var i := LastMax(t, p, cs);
      assert cs[i] == FindMaxTurningLeft(t, p, cs).value;
    }
  }

  // ---------------------------------------------------------------------
  // The walk of detectLoops

  /** The walk moves from `p` to `c`: `p` ends at a listed vertex and `c`
      wins the turn there. */
  ghost predicate Step(ar: Arena, g: Graph, t: Turning, p: HalfEdgeId, c: HalfEdgeId) {
    && p in ar.halfEdges && ar.halfEdges[p].vertexB in g
    && FindMaxTurningLeft(t, p, g[ar.halfEdges[p].vertexB]) == Some(c)
  }

  /** The walk stops after `last`: no list at its end vertex, an empty
      list, or a winner already seen. */
  ghost predicate Stops(ar: Arena, g: Graph, t: Turning, seen: set<HalfEdgeId>, last: HalfEdgeId)
    requires last in ar.halfEdges
  {
    var b := ar.halfEdges[last].vertexB;
    b !in g || FindMaxTurningLeft(t, last, g[b]).None? || FindMaxTurningLeft(t, last, g[b]).value in seen
  }

  /** `hs` is a walk of fresh half-edges, each the turn winner after the
      previous one. */
  ghost predicate WalkOf(ar: Arena, g: Graph, t: Turning, seen0: set<HalfEdgeId>, hs: seq<HalfEdgeId>) {
    && |hs| > 0 && AllIn(ar, hs) && Distinct(hs)
    && (forall i :: 0 <= i < |hs| ==> hs[i] !in seen0)
    && forall i :: 0 <= i < |hs| - 1 ==> Step(ar, g, t, hs[i], hs[i + 1])
  }

  /** Under the graph invariant each walked successor starts where its
      predecessor ends. */
  lemma WalkChains(ar: Arena, g: Graph, E: set<HalfEdgeId>, t: Turning, seen0: set<HalfEdgeId>, hs: seq<HalfEdgeId>)
    requires GraphInv(ar, g, E) && WalkOf(ar, g, t, seen0, hs)
    ensures forall i :: 0 <= i < |hs| - 1 ==> ar.halfEdges[hs[i]].vertexB == ar.halfEdges[hs[i + 1]].vertexA
  {
    forall i | 0 <= i < |hs| - 1
      ensures ar.halfEdges[hs[i]].vertexB == ar.halfEdges[hs[i + 1]].vertexA
    {
      var b := ar.halfEdges[hs[i]].vertexB;
      assert Step(ar, g, t, hs[i], hs[i + 1]);
      FindMaxTurningLeftSpec(t, hs[i], g[b]);
      var j :| 0 <= j < |g[b]| && g[b][j] == hs[i + 1];
    }
  }

  lemma CardShrinks<T>(E: set<T>, s: set<T>, x: T)
    requires x in E && x !in s
    ensures |E - (s + {x})| < |E - s|
  {
    assert E - (s + {x}) == (E - s) - {x};
  }

  /** One more step keeps a walk a walk and shrinks what is left to see. */
  lemma WalkExtend(ar: Arena, g: Graph, E: set<HalfEdgeId>, t: Turning, seen0: set<HalfEdgeId>,
                   hs: seq<HalfEdgeId>, seen: set<HalfEdgeId>, c: HalfEdgeId)
    requires GraphInv(ar, g, E) && WalkOf(ar, g, t, seen0, hs)
    requires seen == seen0 + Elems(hs) && seen <= E && c !in seen
    requires Step(ar, g, t, hs[|hs| - 1], c)
    ensures WalkOf(ar, g, t, seen0, hs + [c])
    ensures seen + {c} == seen0 + Elems(hs + [c]) && seen + {c} <= E
    ensures |E - (seen + {c})| < |E - seen|
  {
    var b := ar.halfEdges[hs[|hs| - 1]].vertexB;
    FindMaxTurningLeftSpec(t, hs[|hs| - 1], g[b]);
    var j :| 0 <= j < |g[b]| && g[b][j] == c;
    assert c in E && c in ar.halfEdges;
    CardShrinks(E, seen, c);
    WalkAppend(ar, g, t, seen0, hs, c);
    ElemsAppend(hs, c);
  }

  lemma ElemsAppend(hs: seq<HalfEdgeId>, c: HalfEdgeId)
    ensures Elems(hs + [c]) == Elems(hs) + {c}
  {
  }

  lemma WalkAppend(ar: Arena, g: Graph, t: Turning, seen0: set<HalfEdgeId>, hs: seq<HalfEdgeId>, c: HalfEdgeId)
    requires WalkOf(ar, g, t, seen0, hs) && Step(ar, g, t, hs[|hs| - 1], c)
    requires c in ar.halfEdges && c !in seen0 && c !in hs
    ensures WalkOf(ar, g, t, seen0, hs + [c])
  {
    DistinctAppend(hs, c);
    var hs' := hs + [c];
    forall i | 0 <= i < |hs'| - 1 ensures Step(ar, g, t, hs'[i], hs'[i + 1]) {
      if i < |hs| - 1 {
        assert hs'[i] == hs[i] && hs'[i + 1] == hs[i + 1];
      }
    }
  }

  /** The inner walk of `detectLoops` as a function of the walk `hs` so
      far and the half-edges `seen`: the walk grows by the turn winner at
      its end vertex, which becomes seen, until there is no list there, no
      winner, or the winner was seen. Yields the walk and the seen set. */
  function WalkFrom(ar: Arena, g: Graph, E: set<HalfEdgeId>, t: Turning, hs: seq<HalfEdgeId>,
                    seen: set<HalfEdgeId>): (r: (seq<HalfEdgeId>, set<HalfEdgeId>))
    requires GraphInv(ar, g, E) && |hs| > 0 && AllIn(ar, hs) && seen <= E
    ensures |hs| <= |r.0| && r.0[..|hs|] == hs && AllIn(ar, r.0)
    ensures seen <= r.1 <= E
    decreases |E - seen|
  {
    var cur := hs[|hs| - 1];
    var b := ar.halfEdges[cur].vertexB;
    if b !in g then (hs, seen)
    else
      var c := FindMaxTurningLeft(t, cur, g[b]);
      if c.None? || c.value in seen then (hs, seen)
      else
        WinnerListed(ar, g, E, t, cur, c.value);
        CardShrinks(E, seen, c.value);
        var r := WalkFrom(ar, g, E, t, hs + [c.value], seen + {c.value});
        PrefixOfLonger(r.0, hs, c.value);
        r
  }

  /** The turn winner is a listed half-edge of `E`. */
  lemma WinnerListed(ar: Arena, g: Graph, E: set<HalfEdgeId>, t: Turning, p: HalfEdgeId, c: HalfEdgeId)
    requires GraphInv(ar, g, E) && Step(ar, g, t, p, c)
    ensures c in E && c in ar.halfEdges
  {
    var b := ar.halfEdges[p].vertexB;
    FindMaxTurningLeftSpec(t, p, g[b]);
    var j :| 0 <= j < |g[b]| && g[b][j] == c;
  }

  lemma PrefixOfLonger<T>(r: seq<T>, a: seq<T>, x: T)
    requires |a| + 1 <= |r| && r[..|a| + 1] == a + [x]
    ensures r[..|a|] == a
  {
    assert r[..|a|] == r[..|a| + 1][..|a|];
  }

  /** `WalkFrom` makes no step where the walk stops. */
  lemma WalkFromStops(ar: Arena, g: Graph, E: set<HalfEdgeId>, t: Turning, hs: seq<HalfEdgeId>, seen: set<HalfEdgeId>)
    requires GraphInv(ar, g, E) && |hs| > 0 && AllIn(ar, hs) && seen <= E
    requires Stops(ar, g, t, seen, hs[|hs| - 1])
    ensures WalkFrom(ar, g, E, t, hs, seen) == (hs, seen)
  {
  }

  /** `WalkFrom` takes the turn winner when it is unseen. */
  lemma WalkFromStep(ar: Arena, g: Graph, E: set<HalfEdgeId>, t: Turning, hs: seq<HalfEdgeId>, seen: set<HalfEdgeId>,
                     c: HalfEdgeId)
    requires GraphInv(ar, g, E) && |hs| > 0 && AllIn(ar, hs) && seen <= E
    requires Step(ar, g, t, hs[|hs| - 1], c) && c !in seen
    ensures c in E && c in ar.halfEdges && AllIn(ar, hs + [c])
    ensures WalkFrom(ar, g, E, t, hs, seen) == WalkFrom(ar, g, E, t, hs + [c], seen + {c})
  {
    WinnerListed(ar, g, E, t, hs[|hs| - 1], c);
  }

  /** What `WalkFrom` yields from a walk is a walk, with exactly its
      members added to the seen set. */
  lemma {:induction false} WalkFromIsWalk(ar: Arena, g: Graph, E: set<HalfEdgeId>, t: Turning, seen0: set<HalfEdgeId>,
                                          hs: seq<HalfEdgeId>, seen: set<HalfEdgeId>)
    requires GraphInv(ar, g, E) && WalkOf(ar, g, t, seen0, hs) && seen == seen0 + Elems(hs) && seen <= E
    ensures WalkOf(ar, g, t, seen0, WalkFrom(ar, g, E, t, hs, seen).0)
    ensures WalkFrom(ar, g, E, t, hs, seen).1 == seen0 + Elems(WalkFrom(ar, g, E, t, hs, seen).0)
    decreases |E - seen|
  {
    var cur := hs[|hs| - 1];
    var b := ar.halfEdges[cur].vertexB;
    var c := if b in g then FindMaxTurningLeft(t, cur, g[b]) else None;
    if b in g && c.Some? && c.value !in seen {
      assert Step(ar, g, t, cur, c.value);
      WalkExtend(ar, g, E, t, seen0, hs, seen, c.value);
      assert WalkFrom(ar, g, E, t, hs, seen) == WalkFrom(ar, g, E, t, hs + [c.value], seen + {c.value});
      WalkFromIsWalk(ar, g, E, t, seen0, hs + [c.value], seen + {c.value});
    } else {
      assert WalkFrom(ar, g, E, t, hs, seen) == (hs, seen);
    }
  }

  /** The walk reads only the endpoints, which `Kept` keeps: walking the
      grown arena gives the same walk. */
  lemma {:induction false} WalkFromKept(ar: Arena, ar': Arena, g: Graph, E: set<HalfEdgeId>, t: Turning,
                                        hs: seq<HalfEdgeId>, seen: set<HalfEdgeId>)
    requires GraphInv(ar, g, E) && |hs| > 0 && AllIn(ar, hs) && seen <= E && Kept(ar, ar')
    ensures GraphInv(ar', g, E) && AllIn(ar', hs)
    ensures WalkFrom(ar', g, E, t, hs, seen) == WalkFrom(ar, g, E, t, hs, seen)
    decreases |E - seen|
  {
    GraphInvKept(ar, ar', g, E);
    var cur := hs[|hs| - 1];
    assert SameEnds(ar.halfEdges[cur], ar'.halfEdges[cur]);
    var b := ar.halfEdges[cur].vertexB;
    if b in g {
      var c := FindMaxTurningLeft(t, cur, g[b]);
      if c.Some? && c.value !in seen {
        WinnerListed(ar, g, E, t, cur, c.value);
        CardShrinks(E, seen, c.value);
        WalkFromKept(ar, ar', g, E, t, hs + [c.value], seen + {c.value});
      }
    }
  }

  /** The turn winner after `cur` when there is one and it is unseen:
      the half-edge the inner loop of `detectLoops` moves to next. */
  function Successor(ar: Arena, g: Graph, t: Turning, seen: set<HalfEdgeId>, cur: HalfEdgeId): (r: Option<HalfEdgeId>)
    requires cur in ar.halfEdges
    ensures r.Some? ==> Step(ar, g, t, cur, r.value) && r.value !in seen
    ensures r.None? ==> Stops(ar, g, t, seen, cur)
  {
    var b := ar.halfEdges[cur].vertexB;
    if b !in g then None
    else
      var c := FindMaxTurningLeft(t, cur, g[b]);
      if c.None? || c.value in seen then None else c
  }

  /** What holds between two rounds of the walk from `start`: continuing
      it with `WalkFrom` gives the walk `WalkFrom` gives from `start`. */
  ghost predicate WalkLoop(ar: Arena, g: Graph, E: set<HalfEdgeId>, t: Turning, start: HalfEdgeId,
                           seen0: set<HalfEdgeId>, hs: seq<HalfEdgeId>, seen: set<HalfEdgeId>) {
    && GraphInv(ar, g, E) && start in E && start in ar.halfEdges && start !in seen0 && seen0 <= E
    && |hs| > 0 && AllIn(ar, hs) && seen <= E
    && AllIn(ar, [start])
    && WalkFrom(ar, g, E, t, hs, seen) == WalkFrom(ar, g, E, t, [start], seen0 + {start})
  }

  /** Taking the unseen turn winner keeps the walk on course and shrinks
      what is left to see. */
  lemma WalkAdvance(ar: Arena, g: Graph, E: set<HalfEdgeId>, t: Turning, start: HalfEdgeId,
                    seen0: set<HalfEdgeId>, hs: seq<HalfEdgeId>, seen: set<HalfEdgeId>, c: HalfEdgeId)
    requires WalkLoop(ar, g, E, t, start, seen0, hs, seen)
    requires Step(ar, g, t, hs[|hs| - 1], c) && c !in seen
    ensures c in ar.halfEdges && WalkLoop(ar, g, E, t, start, seen0, hs + [c], seen + {c})
    ensures |E - (seen + {c})| < |E - seen|
  {
    WalkFromStep(ar, g, E, t, hs, seen, c);
    CardShrinks(E, seen, c);
  }

  /** The inner `while (edge)` loop of `detectLoops`: from `start`, push
      the half-edge, mark it seen and move to the turn winner at its end
      vertex, until there is none or it was seen. */
  method Walk(ar: Arena, g: Graph, E: set<HalfEdgeId>, t: Turning, start: HalfEdgeId, seen0: set<HalfEdgeId>)
    returns (hs: seq<HalfEdgeId>, seen: set<HalfEdgeId>)
    requires GraphInv(ar, g, E) && start in E && start in ar.halfEdges && start !in seen0 && seen0 <= E
    ensures WalkOf(ar, g, t, seen0, hs) && hs[0] == start
    ensures seen == seen0 + Elems(hs) && seen <= E
    ensures Stops(ar, g, t, seen, hs[|hs| - 1])
    ensures (hs, seen) == WalkFrom(ar, g, E, t, [start], seen0 + {start})
  {
    hs := [start];
    seen := seen0 + {start};
    var cur := start;
    var next := Successor(ar, g, t, seen, cur);
    while next.Some?
      invariant WalkLoop(ar, g, E, t, start, seen0, hs, seen) && cur == hs[|hs| - 1]
      invariant cur in ar.halfEdges && next == Successor(ar, g, t, seen, cur)
      decreases |E - seen|
    {
      WalkAdvance(ar, g, E, t, start, seen0, hs, seen, next.value);
      hs := hs + [next.value];
      seen := seen + {next.value};
      cur := next.value;
      next := Successor(ar, g, t, seen, cur);
    }
    WalkFinish(ar, g, E, t, start, seen0, hs, seen);
  }

  /** A walk that stops has reached what `WalkFrom` yields from `start`. */
  lemma WalkFinish(ar: Arena, g: Graph, E: set<HalfEdgeId>, t: Turning, start: HalfEdgeId,
                   seen0: set<HalfEdgeId>, hs: seq<HalfEdgeId>, seen: set<HalfEdgeId>)
    requires WalkLoop(ar, g, E, t, start, seen0, hs, seen) && Stops(ar, g, t, seen, hs[|hs| - 1])
    ensures WalkOf(ar, g, t, seen0, hs) && hs[0] == start
    ensures seen == seen0 + Elems(hs) && seen <= E
    ensures Stops(ar, g, t, seen, hs[|hs| - 1])
    ensures (hs, seen) == WalkFrom(ar, g, E, t, [start], seen0 + {start})
  {
    WalkFromStops(ar, g, E, t, hs, seen);
    WalkDone(ar, g, E, t, start, seen0, hs, seen);
  }

  /** The walk `WalkFrom` yields from `start` is a walk from `start` that
      stops, with exactly its members added to the seen set. */
  lemma WalkDone(ar: Arena, g: Graph, E: set<HalfEdgeId>, t: Turning, start: HalfEdgeId, seen0: set<HalfEdgeId>,
                 hs: seq<HalfEdgeId>, seen: set<HalfEdgeId>)
    requires GraphInv(ar, g, E) && start in E && start in ar.halfEdges && start !in seen0 && seen0 <= E
    requires (hs, seen) == WalkFrom(ar, g, E, t, [start], seen0 + {start})
    requires Stops(ar, g, t, seen, hs[|hs| - 1])
    ensures WalkOf(ar, g, t, seen0, hs) && hs[0] == start
    ensures seen == seen0 + Elems(hs) && seen <= E
    ensures Stops(ar, g, t, seen, hs[|hs| - 1])
  {
    assert Elems([start]) == {start};
    WalkFromIsWalk(ar, g, E, t, seen0, [start], seen0 + {start});
    assert hs[..1] == [start];
  }

  // ---------------------------------------------------------------------
  // Keeping a closed walk

  /** Two half-edge records agree on everything but `loop`, `next` and
      `prev`. */
  predicate SameEnds(x: HalfEdge, y: HalfEdge) {
    x.edge == y.edge && x.inverted == y.inverted && x.vertexA == y.vertexA && x.vertexB == y.vertexB
  }

  /** `ar'` grows `ar` by new loops and changes at most the `loop`, `next`
      and `prev` fields of existing half-edges. */
  ghost predicate Kept(ar: Arena, ar': Arena) {
    && ar'.halfEdges.Keys == ar.halfEdges.Keys
    && (forall h :: h in ar.halfEdges ==> SameEnds(ar.halfEdges[h], ar'.halfEdges[h]))
    && ar'.points == ar.points && ar'.edges == ar.edges && ar'.faces == ar.faces && ar'.shells == ar.shells
    && (forall l :: l in ar.loops ==> l in ar'.loops && ar'.loops[l] == ar.loops[l])
    && ar.nextHandle <= ar'.nextHandle
  }

  lemma KeptTrans(a: Arena, b: Arena, c: Arena)
    requires Kept(a, b) && Kept(b, c)
    ensures Kept(a, c)
  {
    forall h | h in a.halfEdges ensures SameEnds(a.halfEdges[h], c.halfEdges[h]) {
      assert SameEnds(a.halfEdges[h], b.halfEdges[h]);
      assert SameEnds(b.halfEdges[h], c.halfEdges[h]);
    }
  }

  lemma GraphInvKept(ar: Arena, ar': Arena, g: Graph, E: set<HalfEdgeId>)
    requires GraphInv(ar, g, E) && Kept(ar, ar')
    ensures GraphInv(ar', g, E)
  {
    forall v, i | v in g && 0 <= i < |g[v]|
      ensures g[v][i] in E && g[v][i] in ar'.halfEdges && ar'.halfEdges[g[v][i]].vertexA == v
    {
      var x := g[v][i];
      assert x in ar.halfEdges;
      assert SameEnds(ar.halfEdges[x], ar'.halfEdges[x]);
    }
  }

  /** Every half-edge of `hs` gets `loop := l`. */
  function SetLoopField(ar: Arena, hs: seq<HalfEdgeId>, l: LoopId): (r: Arena)
    ensures r == ar.(halfEdges := r.halfEdges) && r.halfEdges.Keys == ar.halfEdges.Keys
    ensures forall x :: x in ar.halfEdges ==>
      r.halfEdges[x] == if x in hs then ar.halfEdges[x].(loop := Some(l)) else ar.halfEdges[x]
  {
    ar.(halfEdges := map x | x in ar.halfEdges :: if x in hs then ar.halfEdges[x].(loop := Some(l)) else ar.halfEdges[x])
  }

  /** Setting `loop` fields keeps everything `Kept` looks at. */
  lemma LoopFieldKept(ar: Arena, r: Arena, hs: seq<HalfEdgeId>, l: LoopId)
    requires r == ar.(halfEdges := r.halfEdges) && r.halfEdges.Keys == ar.halfEdges.Keys
    requires forall x :: x in ar.halfEdges ==>
      r.halfEdges[x] == if x in hs then ar.halfEdges[x].(loop := Some(l)) else ar.halfEdges[x]
    ensures Kept(ar, r)
  {
    forall h | h in ar.halfEdges ensures SameEnds(ar.halfEdges[h], r.halfEdges[h]) {
    }
  }

  /** `ar'` holds `hs` as the new loop `l` of face `f`: every member points
      back to `l`, nothing else changes but new loops and links, and a
      repetition-free `hs` is linked in order. */
  ghost predicate LoopKept(ar: Arena, ar': Arena, f: FaceId, hs: seq<HalfEdgeId>, l: LoopId) {
    && Bounded(ar') && Kept(ar, ar') && l !in ar.loops && l in ar'.loops
    && ar'.loops[l] == Loop(Some(f), hs) && ar'.loops.Keys == ar.loops.Keys + {l}
    && (forall x :: x in hs ==> x in ar'.halfEdges && ar'.halfEdges[x].loop == Some(l))
    && (forall x :: x in ar.halfEdges && x !in hs ==> ar'.halfEdges[x] == ar.halfEdges[x])
    && (Distinct(hs) && AllIn(ar', hs) ==> Linked(ar', hs))
  }

  /** A closed walk becomes a loop of face `f`: a new `Loop` holds the
      half-edges, each points back to it, and they are linked in order. */
  function KeepLoop(ar: Arena, f: FaceId, hs: seq<HalfEdgeId>): (r: (Arena, LoopId))
    requires Bounded(ar) && AllIn(ar, hs)
    ensures LoopKept(ar, r.0, f, hs, r.1)
  {
    var l := ar.nextHandle;
    var ar2 := ar.(loops := ar.loops[l := Loop(Some(f), hs)], nextHandle := l + 1);
    var ar3 := SetLoopField(ar2, hs, l);
    var ar4 := LinkSegments(ar3, hs);
    KeepLoopProof(ar, ar2, ar3, ar4, f, hs, l);
    (ar4, l)
  }

  lemma KeepLoopProof(ar: Arena, ar2: Arena, ar3: Arena, ar4: Arena, f: FaceId, hs: seq<HalfEdgeId>, l: LoopId)
    requires Bounded(ar) && AllIn(ar, hs) && l == ar.nextHandle
    requires ar2 == ar.(loops := ar.loops[l := Loop(Some(f), hs)], nextHandle := l + 1)
    requires ar3 == ar2.(halfEdges := ar3.halfEdges) && ar3.halfEdges.Keys == ar2.halfEdges.Keys
    requires forall x :: x in ar2.halfEdges ==>
      ar3.halfEdges[x] == if x in hs then ar2.halfEdges[x].(loop := Some(l)) else ar2.halfEdges[x]
    requires SameButLinks(ar3, ar4)
    requires forall x :: x in ar3.halfEdges && x !in hs ==> ar4.halfEdges[x] == ar3.halfEdges[x]
    requires AllIn(ar3, hs) && (Distinct(hs) ==> Linked(ar4, hs))
    ensures LoopKept(ar, ar4, f, hs, l)
  {
    assert Kept(ar, ar2);
    LoopFieldKept(ar2, ar3, hs, l);
    KeptTrans(ar, ar2, ar3);
    KeptOfLinks(ar3, ar4);
    KeptTrans(ar, ar3, ar4);
    KeepLoopFields(ar, ar3, ar4, hs, l);
    BoundedGrown(ar, ar4, l);
  }

  lemma BoundedGrown(ar: Arena, ar': Arena, l: LoopId)
    requires Bounded(ar) && Kept(ar, ar') && ar'.loops.Keys == ar.loops.Keys + {l} && l < ar'.nextHandle
    ensures Bounded(ar')
  {
  }

  lemma KeepLoopFields(ar: Arena, ar3: Arena, ar4: Arena, hs: seq<HalfEdgeId>, l: LoopId)
    requires ar3.halfEdges.Keys == ar.halfEdges.Keys && AllIn(ar, hs)
    requires forall x :: x in ar.halfEdges ==>
      ar3.halfEdges[x] == if x in hs then ar.halfEdges[x].(loop := Some(l)) else ar.halfEdges[x]
    requires SameButLinks(ar3, ar4) && AllIn(ar3, hs)
    requires forall x :: x in ar3.halfEdges && x !in hs ==> ar4.halfEdges[x] == ar3.halfEdges[x]
    ensures forall x :: x in hs ==> ar4.halfEdges[x].loop == Some(l)
    ensures forall x :: x in ar.halfEdges && x !in hs ==> ar4.halfEdges[x] == ar.halfEdges[x]
  {
    forall x | x in hs ensures ar4.halfEdges[x].loop == Some(l) {
      SameButLinksAt(ar3, ar4, x);
    }
  }

  /** Relinking keeps everything `Kept` looks at. */
  lemma KeptOfLinks(ar: Arena, ar': Arena)
    requires SameButLinks(ar, ar')
    ensures Kept(ar, ar')
  {
    forall h | h in ar.halfEdges ensures SameEnds(ar.halfEdges[h], ar'.halfEdges[h]) {
      SameButLinksAt(ar, ar', h);
    }
  }

  /** A walk whose chain closes is a closed chain. */
  lemma ChainCloses(ar: Arena, hs: seq<HalfEdgeId>)
    requires |hs| > 0 && AllIn(ar, hs)
    requires forall i :: 0 <= i < |hs| - 1 ==> ar.halfEdges[hs[i]].vertexB == ar.halfEdges[hs[i + 1]].vertexA
    requires ar.halfEdges[hs[0]].vertexA == ar.halfEdges[hs[|hs| - 1]].vertexB
    ensures ClosedChain(ar, hs)
  {
    forall i | 0 <= i < |hs|
      ensures ar.halfEdges[hs[i]].vertexB == ar.halfEdges[NextOf(hs, i)].vertexA
    {
      if i + 1 < |hs| {
        assert NextOf(hs, i) == hs[i + 1];
      }
    }
  }

  /** What `detectLoops` promises of each kept loop `l`: it belongs to
      face `f`, its half-edges are distinct, drawn from `S`, form a closed
      chain, point back to `l` and are linked in order. */
  ghost predicate LoopFound(ar: Arena, f: FaceId, l: LoopId, S: set<HalfEdgeId>) {
    && l in ar.loops && ar.loops[l].face == Some(f)
    && var hs := ar.loops[l].halfEdges;
    && |hs| > 0 && AllIn(ar, hs) && Distinct(hs)
    && ClosedChain(ar, hs) && Linked(ar, hs)
    && forall i :: 0 <= i < |hs| ==> hs[i] in S && ar.halfEdges[hs[i]].loop == Some(l)
  }

  /** A found loop stays found when its records and its `Loop` do not
      change. */
  lemma LoopFoundFrame(ar: Arena, ar': Arena, f: FaceId, l: LoopId, S: set<HalfEdgeId>, S': set<HalfEdgeId>)
    requires LoopFound(ar, f, l, S) && S <= S'
    requires l in ar'.loops && ar'.loops[l] == ar.loops[l]
    requires forall x :: x in ar.loops[l].halfEdges ==> x in ar'.halfEdges && ar'.halfEdges[x] == ar.halfEdges[x]
    ensures LoopFound(ar', f, l, S')
  {
    var hs := ar.loops[l].halfEdges;
    forall i | 0 <= i < |hs|
      ensures hs[i] in ar'.halfEdges && ar'.halfEdges[hs[i]] == ar.halfEdges[hs[i]]
      ensures NextOf(hs, i) in ar'.halfEdges && ar'.halfEdges[NextOf(hs, i)] == ar.halfEdges[NextOf(hs, i)]
    {
      var x, y := hs[i], NextOf(hs, i);
      assert x in ar.loops[l].halfEdges && y in ar.loops[l].halfEdges;
    }
  }

  /** The state of the outer loop of `detectLoops`: the arena only grows
      by the found loops and changes only their members, and every found
      loop satisfies `LoopFound` with members already seen. */
  ghost predicate DetectInv(ar0: Arena, ar: Arena, f: FaceId, E: set<HalfEdgeId>, loops: seq<LoopId>, seen: set<HalfEdgeId>) {
    && Bounded(ar) && Kept(ar0, ar) && seen <= E && Distinct(loops)
    && (forall k :: 0 <= k < |loops| ==> loops[k] !in ar0.loops && LoopFound(ar, f, loops[k], seen))
    && (forall x :: x in ar0.halfEdges ==>
          ar.halfEdges[x] == ar0.halfEdges[x] || (ar.halfEdges[x].loop.Some? && ar.halfEdges[x].loop.value in loops))
  }

  /** Marking more half-edges seen keeps the state. */
  lemma DetectInvSeen(ar0: Arena, ar: Arena, f: FaceId, E: set<HalfEdgeId>, loops: seq<LoopId>, seen: set<HalfEdgeId>, seen': set<HalfEdgeId>)
    requires DetectInv(ar0, ar, f, E, loops, seen) && seen <= seen' <= E
    ensures DetectInv(ar0, ar, f, E, loops, seen')
  {
    forall k | 0 <= k < |loops| ensures LoopFound(ar, f, loops[k], seen') {
      LoopFoundFrame(ar, ar, f, loops[k], seen, seen');
    }
  }

  /** Keeping a closed walk of unseen half-edges keeps the state, with the
      new loop appended. */
  lemma DetectInvKeep(ar0: Arena, ar: Arena, ar': Arena, f: FaceId, E: set<HalfEdgeId>, loops: seq<LoopId>,
                      seen: set<HalfEdgeId>, seen': set<HalfEdgeId>, hs: seq<HalfEdgeId>, l: LoopId)
    requires DetectInv(ar0, ar, f, E, loops, seen) && seen <= seen' <= E
    requires |hs| > 0 && AllIn(ar, hs) && Distinct(hs)
    requires forall i :: 0 <= i < |hs| ==> hs[i] !in seen && hs[i] in seen'
    requires forall i :: 0 <= i < |hs| - 1 ==> ar.halfEdges[hs[i]].vertexB == ar.halfEdges[hs[i + 1]].vertexA
    requires ar.halfEdges[hs[0]].vertexA == ar.halfEdges[hs[|hs| - 1]].vertexB
    requires LoopKept(ar, ar', f, hs, l)
    ensures DetectInv(ar0, ar', f, E, loops + [l], seen')
  {
    KeptTrans(ar0, ar, ar');
    OldLoopsFound(ar, ar', f, loops, seen, seen', hs, l);
    NewLoopFound(ar, ar', f, hs, l, seen');
    DistinctAppend(loops, l);
    FoundAppend(ar0, ar', f, loops, l, seen');
    OnlyLoopsChanged(ar0, ar, ar', loops, hs, l);
  }

  lemma FoundAppend(ar0: Arena, ar: Arena, f: FaceId, loops: seq<LoopId>, l: LoopId, S: set<HalfEdgeId>)
    requires forall k :: 0 <= k < |loops| ==> loops[k] !in ar0.loops && LoopFound(ar, f, loops[k], S)
    requires l !in ar0.loops && LoopFound(ar, f, l, S)
    ensures forall k :: 0 <= k < |loops + [l]| ==> (loops + [l])[k] !in ar0.loops && LoopFound(ar, f, (loops + [l])[k], S)
  {
  }

  lemma OldLoopsFound(ar: Arena, ar': Arena, f: FaceId, loops: seq<LoopId>, seen: set<HalfEdgeId>,
                      seen': set<HalfEdgeId>, hs: seq<HalfEdgeId>, l: LoopId)
    requires forall k :: 0 <= k < |loops| ==> LoopFound(ar, f, loops[k], seen)
    requires seen <= seen' && (forall i :: 0 <= i < |hs| ==> hs[i] !in seen)
    requires LoopKept(ar, ar', f, hs, l)
    ensures forall k :: 0 <= k < |loops| ==> LoopFound(ar', f, loops[k], seen')
  {
    forall k | 0 <= k < |loops| ensures LoopFound(ar', f, loops[k], seen') {
      var m := loops[k];
      assert LoopFound(ar, f, m, seen);
      forall x | x in ar.loops[m].halfEdges ensures x in ar'.halfEdges && ar'.halfEdges[x] == ar.halfEdges[x] {
        assert x !in hs;
      }
      LoopFoundFrame(ar, ar', f, m, seen, seen');
    }
  }

  lemma NewLoopFound(ar: Arena, ar': Arena, f: FaceId, hs: seq<HalfEdgeId>, l: LoopId, seen': set<HalfEdgeId>)
    requires |hs| > 0 && AllIn(ar, hs) && Distinct(hs) && (forall i :: 0 <= i < |hs| ==> hs[i] in seen')
    requires forall i :: 0 <= i < |hs| - 1 ==> ar.halfEdges[hs[i]].vertexB == ar.halfEdges[hs[i + 1]].vertexA
    requires ar.halfEdges[hs[0]].vertexA == ar.halfEdges[hs[|hs| - 1]].vertexB
    requires LoopKept(ar, ar', f, hs, l)
    ensures LoopFound(ar', f, l, seen')
  {
    ChainCloses(ar, hs);
    ClosedChainKept(ar, ar', hs);
    assert AllIn(ar', hs) && ClosedChain(ar', hs) && Linked(ar', hs);
  }

  /** Closed chains survive anything that keeps the endpoints. */
  lemma ClosedChainKept(ar: Arena, ar': Arena, hs: seq<HalfEdgeId>)
    requires AllIn(ar, hs) && ClosedChain(ar, hs) && Kept(ar, ar')
    ensures AllIn(ar', hs) && ClosedChain(ar', hs)
  {
    forall i | 0 <= i < |hs| ensures ar'.halfEdges[hs[i]].vertexB == ar'.halfEdges[NextOf(hs, i)].vertexA {
      var x, y := hs[i], NextOf(hs, i);
      assert x in ar.halfEdges && y in ar.halfEdges;
      assert SameEnds(ar.halfEdges[x], ar'.halfEdges[x]);
      assert SameEnds(ar.halfEdges[y], ar'.halfEdges[y]);
    }
  }

  lemma OnlyLoopsChanged(ar0: Arena, ar: Arena, ar': Arena, loops: seq<LoopId>, hs: seq<HalfEdgeId>, l: LoopId)
    requires Kept(ar0, ar) && Kept(ar, ar')
    requires forall x :: x in ar0.halfEdges ==>
      ar.halfEdges[x] == ar0.halfEdges[x] || (ar.halfEdges[x].loop.Some? && ar.halfEdges[x].loop.value in loops)
    requires forall x :: x in hs ==> x in ar'.halfEdges && ar'.halfEdges[x].loop == Some(l)
    requires forall x :: x in ar.halfEdges && x !in hs ==> ar'.halfEdges[x] == ar.halfEdges[x]
    ensures forall x :: x in ar0.halfEdges ==>
      ar'.halfEdges[x] == ar0.halfEdges[x] || (ar'.halfEdges[x].loop.Some? && ar'.halfEdges[x].loop.value in loops + [l])
  {
  }

  /** No half-edge belongs to two of the loops. */
  ghost predicate LoopsApart(ar: Arena, loops: seq<LoopId>) {
    forall k1, k2, x ::
      (0 <= k1 < |loops| && 0 <= k2 < |loops| && k1 != k2 && loops[k1] in ar.loops && loops[k2] in ar.loops
       && x in ar.loops[loops[k1]].halfEdges) ==> x !in ar.loops[loops[k2]].halfEdges
  }

  /** Found loops are apart: each member points back to its one loop. */
  lemma LoopsDisjoint(ar: Arena, f: FaceId, loops: seq<LoopId>, S: set<HalfEdgeId>)
    requires Distinct(loops) && forall k :: 0 <= k < |loops| ==> LoopFound(ar, f, loops[k], S)
    ensures LoopsApart(ar, loops)
  {
    forall k1, k2, x | 0 <= k1 < |loops| && 0 <= k2 < |loops| && k1 != k2 && loops[k1] in ar.loops
      && loops[k2] in ar.loops && x in ar.loops[loops[k1]].halfEdges
      ensures x !in ar.loops[loops[k2]].halfEdges
    {
      assert LoopFound(ar, f, loops[k1], S) && LoopFound(ar, f, loops[k2], S);
      assert ar.halfEdges[x].loop == Some(loops[k1]);
      assert loops[k1] != loops[k2];
    }
  }

  /** A walk closes when its first half-edge starts where its last one
      ends: the test `detectLoops` keeps a walk by. */
  predicate Closes(ar: Arena, w: seq<HalfEdgeId>)
    requires |w| > 0 && w[0] in ar.halfEdges && w[|w| - 1] in ar.halfEdges
  {
    ar.halfEdges[w[0]].vertexA == ar.halfEdges[w[|w| - 1]].vertexB
  }

  /** The half-edge lists `detectLoops` keeps when it pops `stack` from
      its end with `seen` already visited: a seen half-edge is skipped,
      any other starts `WalkFrom`, and that walk is kept, in order, exactly
      when it `Closes`. */
  function Detected(ar: Arena, g: Graph, E: set<HalfEdgeId>, t: Turning, stack: seq<HalfEdgeId>,
                    seen: set<HalfEdgeId>): (r: seq<seq<HalfEdgeId>>)
    requires GraphInv(ar, g, E) && E <= ar.halfEdges.Keys && seen <= E
    requires forall i :: 0 <= i < |stack| ==> stack[i] in E
    ensures |r| <= |stack|
    decreases |E - seen|, |stack|
  {
    if |stack| == 0 then []
    else
      var edge := stack[|stack| - 1];
      var rest := stack[..|stack| - 1];
      if edge in seen then Detected(ar, g, E, t, rest, seen)
      else
        var w := WalkFrom(ar, g, E, t, [edge], seen + {edge});
        CardShrinks(E, seen, edge);
        ShrinkMore(E, seen + {edge}, w.1);
        (if Closes(ar, w.0) then [w.0] else []) + Detected(ar, g, E, t, rest, w.1)
  }

  lemma ShrinkMore<T>(E: set<T>, s: set<T>, s': set<T>)
    requires s <= s'
    ensures |E - s'| <= |E - s|
  {
    var A, B := E - s', E - s;
    assert B == A + (B - A);
    assert A * (B - A) == {};
  }

  /** Popping one more half-edge: the first step of `Detected`. */
  lemma DetectedPop(ar: Arena, g: Graph, E: set<HalfEdgeId>, t: Turning, rest: seq<HalfEdgeId>,
                    edge: HalfEdgeId, seen: set<HalfEdgeId>)
    requires GraphInv(ar, g, E) && E <= ar.halfEdges.Keys && seen <= E && edge in E
    requires forall i :: 0 <= i < |rest| ==> rest[i] in E
    ensures edge in seen ==> Detected(ar, g, E, t, rest + [edge], seen) == Detected(ar, g, E, t, rest, seen)
    ensures edge !in seen ==>
      var w := WalkFrom(ar, g, E, t, [edge], seen + {edge});
      Detected(ar, g, E, t, rest + [edge], seen)
        == (if Closes(ar, w.0) then [w.0] else []) + Detected(ar, g, E, t, rest, w.1)
  {
    assert (rest + [edge])[..|rest|] == rest;
  }

  /** Every list `Detected` yields is a closed walk of half-edges not seen
      before. */
  lemma {:induction false} DetectedClosedWalks(ar: Arena, g: Graph, E: set<HalfEdgeId>, t: Turning,
                                               stack: seq<HalfEdgeId>, seen: set<HalfEdgeId>)
    requires GraphInv(ar, g, E) && E <= ar.halfEdges.Keys && seen <= E
    requires forall i :: 0 <= i < |stack| ==> stack[i] in E
    ensures forall k :: 0 <= k < |Detected(ar, g, E, t, stack, seen)| ==>
      var w := Detected(ar, g, E, t, stack, seen)[k];
      WalkOf(ar, g, t, seen, w) && Closes(ar, w)
    decreases |E - seen|, |stack|
  {
    if |stack| > 0 {
      var edge := stack[|stack| - 1];
      var rest := stack[..|stack| - 1];
      assert stack == rest + [edge];
      DetectedPop(ar, g, E, t, rest, edge, seen);
      if edge in seen {
        DetectedClosedWalks(ar, g, E, t, rest, seen);
      } else {
        var w := WalkFrom(ar, g, E, t, [edge], seen + {edge});
        CardShrinks(E, seen, edge);
        ShrinkMore(E, seen + {edge}, w.1);
        assert Elems([edge]) == {edge};
        WalkFromIsWalk(ar, g, E, t, seen, [edge], seen + {edge});
        DetectedClosedWalks(ar, g, E, t, rest, w.1);
        var tail := Detected(ar, g, E, t, rest, w.1);
        forall k | 0 <= k < |tail| ensures WalkOf(ar, g, t, seen, tail[k]) {
          WalkOfFewerSeen(ar, g, t, seen, w.1, tail[k]);
        }
      }
    }
  }

  lemma WalkOfFewerSeen(ar: Arena, g: Graph, t: Turning, seen: set<HalfEdgeId>, seen': set<HalfEdgeId>, hs: seq<HalfEdgeId>)
    requires seen <= seen' && WalkOf(ar, g, t, seen', hs)
    ensures WalkOf(ar, g, t, seen, hs)
  {
  }

  /** The half-edge lists of `loops`, in order. */
  function LoopLists(ar: Arena, loops: seq<LoopId>): seq<seq<HalfEdgeId>>
    requires forall k :: 0 <= k < |loops| ==> loops[k] in ar.loops
  {
    seq(|loops|, k requires 0 <= k < |loops| => ar.loops[loops[k]].halfEdges)
  }

  /** Keeping loop `l` for `hs` appends `hs` to the lists. */
  lemma LoopListsKeep(ar: Arena, ar': Arena, f: FaceId, loops: seq<LoopId>, hs: seq<HalfEdgeId>, l: LoopId)
    requires forall k :: 0 <= k < |loops| ==> loops[k] in ar.loops
    requires LoopKept(ar, ar', f, hs, l)
    ensures forall k :: 0 <= k < |loops + [l]| ==> (loops + [l])[k] in ar'.loops
    ensures LoopLists(ar', loops + [l]) == LoopLists(ar, loops) + [hs]
  {
    var a, b := LoopLists(ar', loops + [l]), LoopLists(ar, loops) + [hs];
    forall k | 0 <= k < |a| ensures a[k] == b[k] {
      if k < |loops| {
        assert (loops + [l])[k] == loops[k];
      }
    }
  }

  /** What a pass of the outer loop adds to the lists is what `Detected`
      takes for the popped half-edge. */
  lemma DetectStepRef(ar0: Arena, ar: Arena, ar': Arena, g: Graph, E: set<HalfEdgeId>, t: Turning,
                      loops: seq<LoopId>, loops': seq<LoopId>, seen: set<HalfEdgeId>, rest: seq<HalfEdgeId>,
                      edge: HalfEdgeId, w: (seq<HalfEdgeId>, set<HalfEdgeId>))
    requires GraphInv(ar0, g, E) && E <= ar0.halfEdges.Keys && seen <= E && edge in E && edge !in seen
    requires forall i :: 0 <= i < |rest| ==> rest[i] in E
    requires Kept(ar0, ar) && GraphInv(ar, g, E) && edge in ar.halfEdges
    requires w == WalkFrom(ar, g, E, t, [edge], seen + {edge})
    requires forall k :: 0 <= k < |loops| ==> loops[k] in ar.loops
    requires forall k :: 0 <= k < |loops'| ==> loops'[k] in ar'.loops
    requires LoopLists(ar', loops') == LoopLists(ar, loops) + (if Closes(ar, w.0) then [w.0] else [])
    ensures LoopLists(ar', loops') + Detected(ar0, g, E, t, rest, w.1)
      == LoopLists(ar, loops) + Detected(ar0, g, E, t, rest + [edge], seen)
  {
    WalkFromKept(ar0, ar, g, E, t, [edge], seen + {edge});
    DetectedPop(ar0, g, E, t, rest, edge, seen);
    ClosesKept(ar0, ar, w.0);
    AppendAssoc(LoopLists(ar, loops), if Closes(ar, w.0) then [w.0] else [], Detected(ar0, g, E, t, rest, w.1));
  }

  /** Whether a walk closes depends only on endpoints, which `Kept` keeps. */
  lemma ClosesKept(ar0: Arena, ar: Arena, hs: seq<HalfEdgeId>)
    requires Kept(ar0, ar) && |hs| > 0 && AllIn(ar, hs)
    ensures hs[0] in ar0.halfEdges && hs[|hs| - 1] in ar0.halfEdges
    ensures Closes(ar0, hs) == Closes(ar, hs)
  {
    var first, last := hs[0], hs[|hs| - 1];
    assert SameEnds(ar0.halfEdges[first], ar.halfEdges[first]);
    assert SameEnds(ar0.halfEdges[last], ar.halfEdges[last]);
  }

  lemma AppendAssoc<T>(a: seq<T>, b: seq<T>, c: seq<T>)
    ensures a + b + c == a + (b + c)
  {
  }

  /** The outcome of `detectLoops` over the stack `stack` of half-edges
      drawn from `E`: `DetectInv` with all of `E` seen, the loops are
      apart, and their half-edge lists are exactly `Detected`, in order. */
  ghost predicate DetectedAll(ar0: Arena, ar: Arena, f: FaceId, g: Graph, t: Turning, E: set<HalfEdgeId>,
                              stack: seq<HalfEdgeId>, loops: seq<LoopId>)
    requires GraphInv(ar0, g, E) && E <= ar0.halfEdges.Keys
    requires forall i :: 0 <= i < |stack| ==> stack[i] in E
  {
    && DetectInv(ar0, ar, f, E, loops, E) && LoopsApart(ar, loops)
    && LoopLists(ar, loops) == Detected(ar0, g, E, t, stack, {})
  }

  /** `detectLoops(face)` given the vertex-to-half-edge graph `g` of the
      face: half-edges are popped from the end of a copy of the face's
      list; each one not yet seen starts a walk, and a walk whose first
      half-edge starts where its last one ends becomes a new loop of the
      face. The result satisfies `DetectInv` with every face half-edge
      seen: the loops are new, distinct and `LoopFound`, and only their
      members change, only in `loop`, `next` and `prev`. */
  method DetectLoops(ar0: Arena, f: FaceId, g: Graph, t: Turning) returns (ar: Arena, loops: seq<LoopId>)
    requires Bounded(ar0) && LoopsPresent(ar0, f) && AllIn(ar0, FaceEdges(ar0, f))
    requires GraphInv(ar0, g, Elems(FaceEdges(ar0, f)))
    ensures DetectedAll(ar0, ar, f, g, t, Elems(FaceEdges(ar0, f)), FaceEdges(ar0, f), loops)
  {
    var hs := FaceEdges(ar0, f);
    ar, loops := DetectAll(ar0, f, g, t, Elems(hs), hs);
  }

  /** The outer loop of `detectLoops` over the stack `stack` of half-edges
      drawn from `E`. */
  method DetectAll(ar0: Arena, f: FaceId, g: Graph, t: Turning, E: set<HalfEdgeId>, stack0: seq<HalfEdgeId>)
    returns (ar: Arena, loops: seq<LoopId>)
    requires Bounded(ar0) && GraphInv(ar0, g, E) && E <= ar0.halfEdges.Keys
    requires forall i :: 0 <= i < |stack0| ==> stack0[i] in E
    ensures DetectedAll(ar0, ar, f, g, t, E, stack0, loops)
  {
    var stack := stack0;
    var seen: set<HalfEdgeId> := {};
    ar, loops := ar0, [];
    while |stack| > 0
      invariant DetectInv(ar0, ar, f, E, loops, seen)
      invariant forall i :: 0 <= i < |stack| ==> stack[i] in E
      invariant LoopLists(ar, loops) + Detected(ar0, g, E, t, stack, seen) == Detected(ar0, g, E, t, stack0, {})
    {
      var edge := stack[|stack| - 1];
      ghost var popped := stack;
      stack := stack[..|stack| - 1];
      assert popped == stack + [edge];
      ar, loops, seen := DetectStep(ar0, ar, f, g, t, E, loops, seen, edge, stack);
    }
    assert LoopLists(ar, loops) + [] == LoopLists(ar, loops);
    DetectInvSeen(ar0, ar, f, E, loops, seen, E);
    LoopsDisjoint(ar, f, loops, E);
  }

  /** One pass of the outer loop of `detectLoops` for the popped `edge`:
      a seen edge is skipped, any other starts a walk. */
  method DetectStep(ghost ar0: Arena, ar: Arena, f: FaceId, g: Graph, t: Turning, E: set<HalfEdgeId>,
                    loops: seq<LoopId>, seen: set<HalfEdgeId>, edge: HalfEdgeId, ghost rest: seq<HalfEdgeId>)
    returns (ar': Arena, loops': seq<LoopId>, seen': set<HalfEdgeId>)
    requires DetectInv(ar0, ar, f, E, loops, seen) && GraphInv(ar0, g, E) && E <= ar0.halfEdges.Keys
    requires edge in E && forall i :: 0 <= i < |rest| ==> rest[i] in E
    ensures DetectInv(ar0, ar', f, E, loops', seen') && edge in seen'
    ensures loops' == loops || (|loops'| == |loops| + 1 && loops'[..|loops|] == loops)
    ensures LoopLists(ar', loops') + Detected(ar0, g, E, t, rest, seen')
      == LoopLists(ar, loops) + Detected(ar0, g, E, t, rest + [edge], seen)
  {
    if edge in seen {
      DetectedPop(ar0, g, E, t, rest, edge, seen);
      return ar, loops, seen;
    }
    GraphInvKept(ar0, ar, g, E);
    var hs;
    hs, seen' := Walk(ar, g, E, t, edge, seen);
    WalkChains(ar, g, E, t, seen, hs);
    if ar.halfEdges[hs[0]].vertexA == ar.halfEdges[hs[|hs| - 1]].vertexB {
      var (ar1, l) := KeepLoop(ar, f, hs);
      DetectInvKeep(ar0, ar, ar1, f, E, loops, seen, seen', hs, l);
      LoopListsKeep(ar, ar1, f, loops, hs, l);
      DetectStepRef(ar0, ar, ar1, g, E, t, loops, loops + [l], seen, rest, edge, (hs, seen'));
      ar', loops' := ar1, loops + [l];
    } else {
      DetectInvSeen(ar0, ar, f, E, loops, seen, seen');
      assert LoopLists(ar, loops) + [] == LoopLists(ar, loops);
      DetectStepRef(ar0, ar, ar, g, E, t, loops, loops, seen, rest, edge, (hs, seen'));
      ar', loops' := ar, loops;
    }
  }

  /** `initGraph` followed by `detectLoops`, as the boolean algorithm runs
      them on each face. */
  method DetectFaceLoops(ar0: Arena, f: FaceId, t: Turning) returns (ar: Arena, loops: seq<LoopId>)
    requires Bounded(ar0) && LoopsPresent(ar0, f) && AllIn(ar0, FaceEdges(ar0, f))
    ensures GraphInv(ar0, InitGraph(ar0, FaceEdges(ar0, f)), Elems(FaceEdges(ar0, f)))
    ensures DetectedAll(ar0, ar, f, InitGraph(ar0, FaceEdges(ar0, f)), t, Elems(FaceEdges(ar0, f)), FaceEdges(ar0, f), loops)
  {
    var g := InitGraph(ar0, FaceEdges(ar0, f));
    InitGraphInv(ar0, FaceEdges(ar0, f));
    ar, loops := DetectLoops(ar0, f, g, t);
  }
}
