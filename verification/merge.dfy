/** `mergeVertices(shell1, shell2)` of `web/app/brep/operations/boolean.js`:
    every vertex of the second shell that coincides with one of the first
    is replaced, in the second shell's half-edges, by that vertex. */
module Merge {
  import opened Seqs
  import opened Topo
  import opened Builder
  import opened SolveData

  /** The index of the last vertex of `vs1` that coincides (`near`, the
      tolerance test of `areVectorsEqual`) with `v2`, or -1 when none does. */
  function LastMatch(vs1: seq<VertexId>, v2: VertexId, near: (VertexId, VertexId) -> bool): (r: int)
    ensures -1 <= r < |vs1|
    ensures r == -1 <==> forall i :: 0 <= i < |vs1| ==> !near(vs1[i], v2)
    ensures r >= 0 ==> near(vs1[r], v2) && forall j :: r < j < |vs1| ==> !near(vs1[j], v2)
  {
    if |vs1| == 0 then -1
    else if near(vs1[|vs1| - 1], v2) then |vs1| - 1
    else LastMatch(vs1[..|vs1| - 1], v2, near)
  }

  /** The swap table built by the nested loops of `mergeVertices`: the
      outer loop runs over `vs1`, so a later first-shell vertex overwrites
      the entry an earlier one made. */
  function ToSwap(vs1: seq<VertexId>, vs2: seq<VertexId>, near: (VertexId, VertexId) -> bool)
    : map<VertexId, VertexId>
  {
    if |vs1| == 0 then map[]
    else
      var n := |vs1| - 1;
      ToSwap(vs1[..n], vs2, near) + map v2 | v2 in vs2 && near(vs1[n], v2) :: vs1[n]
  }

  /** The table maps exactly the second-shell vertices that coincide with
      some first-shell vertex, each to the last such vertex. */
  lemma {:induction false} ToSwapSpec(vs1: seq<VertexId>, vs2: seq<VertexId>, near: (VertexId, VertexId) -> bool,
                                      v2: VertexId)
    ensures v2 in ToSwap(vs1, vs2, near) <==> v2 in vs2 && LastMatch(vs1, v2, near) >= 0
    ensures v2 in ToSwap(vs1, vs2, near) ==> ToSwap(vs1, vs2, near)[v2] == vs1[LastMatch(vs1, v2, near)]
  {
    if |vs1| > 0 {
      var n := |vs1| - 1;
      ToSwapSpec(vs1[..n], vs2, near, v2);
      if !near(vs1[n], v2) {
        assert LastMatch(vs1, v2, near) == LastMatch(vs1[..n], v2, near);
        if LastMatch(vs1, v2, near) >= 0 {
          assert vs1[..n][LastMatch(vs1, v2, near)] == vs1[LastMatch(vs1, v2, near)];
        }
      }
    }
  }

  /** One half-edge record with both endpoints looked up in the table. */
  function Swapped(x: HalfEdge, swap: map<VertexId, VertexId>): HalfEdge {
    x.(vertexA := if x.vertexA in swap then swap[x.vertexA] else x.vertexA,
       vertexB := if x.vertexB in swap then swap[x.vertexB] else x.vertexB)
  }

  /** The second loop of `mergeVertices`: the half-edges `hs` are visited
      in order and their endpoints replaced through `swap`. */
  function ApplySwaps(ar: Arena, hs: seq<HalfEdgeId>, swap: map<VertexId, VertexId>): (r: Arena)
    requires AllIn(ar, hs)
    ensures r == ar.(halfEdges := r.halfEdges) && r.halfEdges.Keys == ar.halfEdges.Keys
    ensures forall x :: x in ar.halfEdges && x !in hs ==> r.halfEdges[x] == ar.halfEdges[x]
    ensures Distinct(hs) ==> forall x :: x in hs ==> r.halfEdges[x] == Swapped(ar.halfEdges[x], swap)
    decreases |hs|
  {
    if |hs| == 0 then ar
    else
      var h := hs[0];
      var ar1 := ar.(halfEdges := ar.halfEdges[h := Swapped(ar.halfEdges[h], swap)]);
      assert forall x :: x in hs <==> x == h || x in hs[1..];
      assert Distinct(hs) ==> h !in hs[1..] && Distinct(hs[1..]);
      ApplySwaps(ar1, hs[1..], swap)
  }

  /** `mergeVertices` with the vertex lists `vs1`, `vs2` of the shells and
      the faces `faces2` of the second shell. Only the endpoints of the
      second shell's half-edges change: an endpoint listed in the table
      becomes the matching first-shell vertex, every other endpoint stays,
      and every half-edge outside those faces is untouched. */
  function MergeVertices(ar: Arena, vs1: seq<VertexId>, vs2: seq<VertexId>, faces2: seq<FaceId>,
                         near: (VertexId, VertexId) -> bool): (r: Arena)
    requires forall k :: 0 <= k < |faces2| ==> LoopsPresent(ar, faces2[k])
    requires AllIn(ar, FacesEdges(ar, faces2))
    ensures r == ar.(halfEdges := r.halfEdges) && r.halfEdges.Keys == ar.halfEdges.Keys
    ensures forall x :: x in ar.halfEdges && x !in FacesEdges(ar, faces2) ==> r.halfEdges[x] == ar.halfEdges[x]
    ensures Distinct(FacesEdges(ar, faces2)) ==> forall x :: x in FacesEdges(ar, faces2) ==>
      r.halfEdges[x] == Swapped(ar.halfEdges[x], ToSwap(vs1, vs2, near))
  {
    ApplySwaps(ar, FacesEdges(ar, faces2), ToSwap(vs1, vs2, near))
  }

  /** When no first-shell vertex is itself a second-shell vertex, a
      replaced endpoint is never replaced again: swapping is idempotent. */
  lemma SwappedIdempotent(x: HalfEdge, vs1: seq<VertexId>, vs2: seq<VertexId>, near: (VertexId, VertexId) -> bool)
    requires forall i :: 0 <= i < |vs1| ==> vs1[i] !in vs2
    ensures Swapped(Swapped(x, ToSwap(vs1, vs2, near)), ToSwap(vs1, vs2, near)) == Swapped(x, ToSwap(vs1, vs2, near))
  {
    var swap := ToSwap(vs1, vs2, near);
    ToSwapSpec(vs1, vs2, near, x.vertexA);
    ToSwapSpec(vs1, vs2, near, x.vertexB);
    var y := Swapped(x, swap);
    ToSwapSpec(vs1, vs2, near, y.vertexA);
    ToSwapSpec(vs1, vs2, near, y.vertexB);
  }

  /** An endpoint that coincides with no first-shell vertex is kept, one
      that does becomes the last first-shell vertex it coincides with. */
  lemma SwappedEndpoint(x: HalfEdge, vs1: seq<VertexId>, vs2: seq<VertexId>, near: (VertexId, VertexId) -> bool)
    requires x.vertexA in vs2
    ensures var i := LastMatch(vs1, x.vertexA, near);
      Swapped(x, ToSwap(vs1, vs2, near)).vertexA == (if i >= 0 then vs1[i] else x.vertexA)
  {
    ToSwapSpec(vs1, vs2, near, x.vertexA);
  }

  /** When no vertex of the second shell coincides with one of the first,
      merging changes no half-edge. */
  lemma NoMatchNoChange(x: HalfEdge, vs1: seq<VertexId>, vs2: seq<VertexId>, near: (VertexId, VertexId) -> bool)
    requires forall i, v2 :: 0 <= i < |vs1| && v2 in vs2 ==> !near(vs1[i], v2)
    ensures Swapped(x, ToSwap(vs1, vs2, near)) == x
  {
    ToSwapSpec(vs1, vs2, near, x.vertexA);
    ToSwapSpec(vs1, vs2, near, x.vertexB);
  }
}
