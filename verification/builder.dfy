/** The topology primitives of `web/app/brep/brep-builder.js`: cyclic
    iteration, `next`/`prev` linking, edge linking, half-edge and loop
    construction, loop inversion and the four-sided wall face. */
module Builder {
  import opened Wrappers
  import opened Seqs
  import opened Topo

  // ---------------------------------------------------------------------
  // Predicates over an ordered half-edge sequence

  /** Every handle of `hs` names a half-edge record. */
  ghost predicate AllIn(ar: Arena, hs: seq<HalfEdgeId>) {
    forall i :: 0 <= i < |hs| ==> hs[i] in ar.halfEdges
  }

  /** Each half-edge ends where its cyclic successor starts. */
  ghost predicate ClosedChain(ar: Arena, hs: seq<HalfEdgeId>)
    requires AllIn(ar, hs)
  {
    forall i {:trigger NextOf(hs, i)} :: 0 <= i < |hs| ==>
      ar.halfEdges[hs[i]].vertexB == ar.halfEdges[NextOf(hs, i)].vertexA
  }

  /** `next`/`prev` follow the cyclic order of `hs`. */
  ghost predicate Linked(ar: Arena, hs: seq<HalfEdgeId>)
    requires AllIn(ar, hs)
  {
    forall i {:trigger NextOf(hs, i)} :: 0 <= i < |hs| ==>
      && ar.halfEdges[hs[i]].next == Some(NextOf(hs, i))
      && ar.halfEdges[NextOf(hs, i)].prev == Some(hs[i])
  }

  /** Two half-edge records agree on everything but `next` and `prev`. */
  predicate SameButLinksRec(x: HalfEdge, y: HalfEdge) {
    x.edge == y.edge && x.inverted == y.inverted && x.vertexA == y.vertexA
    && x.vertexB == y.vertexB && x.loop == y.loop
  }

  /** `ar'` differs from `ar` at most in the `next`/`prev` fields of
      existing half-edges. */
  ghost predicate SameButLinks(ar: Arena, ar': Arena) {
    && ar'.halfEdges.Keys == ar.halfEdges.Keys
    && ar'.points == ar.points && ar'.edges == ar.edges && ar'.loops == ar.loops
    && ar'.faces == ar.faces && ar'.shells == ar.shells && ar'.nextHandle == ar.nextHandle
    && forall k :: k in ar.halfEdges ==> SameButLinksRec(ar'.halfEdges[k], ar.halfEdges[k])
  }

  /** One record under `SameButLinks`. */
  lemma SameButLinksAt(ar: Arena, ar': Arena, h: HalfEdgeId)
    requires h in ar.halfEdges && SameButLinks(ar, ar')
    ensures h in ar'.halfEdges && SameButLinksRec(ar'.halfEdges[h], ar.halfEdges[h])
  {
  }

  // ---------------------------------------------------------------------
  // iterateSegments / linkSegments

  datatype SegmentCall<T> = SegmentCall(prev: T, next: T, i: nat, j: nat)

  /** `iterateSegments(items, callback)`: the callback is invoked once per
      item, in order, with the item, its cyclic successor and both indices.
      The model returns the sequence of invocations. */
  method IterateSegments<T>(items: seq<T>) returns (calls: seq<SegmentCall<T>>)
    ensures |calls| == |items|
    ensures forall i :: 0 <= i < |items| ==>
      calls[i] == SegmentCall(items[i], items[(i + 1) % |items|], i, (i + 1) % |items|)
  {
    calls := [];
    var i := 0;
    while i < |items|
      invariant 0 <= i <= |items|
      invariant |calls| == i
      invariant forall k :: 0 <= k < i ==>
        calls[k] == SegmentCall(items[k], items[(k + 1) % |items|], k, (k + 1) % |items|)
    {
      var j := NextIndex(i, |items|);
      NextIndexIsMod(i, |items|);
      calls := calls + [SegmentCall(items[i], items[j], i, j)];
      i := i + 1;
    }
  }

  /** The callback of `linkSegments`: `prev.next = next; next.prev = prev`. */
  function LinkPair(ar: Arena, p: HalfEdgeId, n: HalfEdgeId): (r: Arena)
    requires p in ar.halfEdges && n in ar.halfEdges
    ensures SameButLinks(ar, r)
    ensures r.halfEdges[p].next == Some(n) && r.halfEdges[n].prev == Some(p)
    ensures forall x :: x in ar.halfEdges && x != p ==> r.halfEdges[x].next == ar.halfEdges[x].next
    ensures forall x :: x in ar.halfEdges && x != n ==> r.halfEdges[x].prev == ar.halfEdges[x].prev
  {
    var ar1 := ar.(halfEdges := ar.halfEdges[p := ar.halfEdges[p].(next := Some(n))]);
    ar1.(halfEdges := ar1.halfEdges[n := ar1.halfEdges[n].(prev := Some(p))])
  }

  /** The invocations of `linkSegments` from index `i` on. */
  function LinkFrom(ar: Arena, hs: seq<HalfEdgeId>, i: nat): (r: Arena)
    requires i <= |hs| && AllIn(ar, hs)
    ensures SameButLinks(ar, r)
    decreases |hs| - i
  {
    if i == |hs| then ar else LinkFrom(LinkPair(ar, hs[i], NextOf(hs, i)), hs, i + 1)
  }

  /** A half-edge that no step from `i` on names as `prev` keeps its `next`. */
  lemma {:induction false} LinkFromNext(ar: Arena, hs: seq<HalfEdgeId>, i: nat, x: HalfEdgeId)
    requires i <= |hs| && AllIn(ar, hs) && x in ar.halfEdges
    requires forall k :: i <= k < |hs| ==> hs[k] != x
    ensures LinkFrom(ar, hs, i).halfEdges[x].next == ar.halfEdges[x].next
    decreases |hs| - i
  {
    if i < |hs| {
      LinkFromNext(LinkPair(ar, hs[i], NextOf(hs, i)), hs, i + 1, x);
    }
  }

  /** A half-edge that no step from `i` on names as `next` keeps its `prev`. */
  lemma {:induction false} LinkFromPrev(ar: Arena, hs: seq<HalfEdgeId>, i: nat, x: HalfEdgeId)
    requires i <= |hs| && AllIn(ar, hs) && x in ar.halfEdges
    requires forall k {:trigger NextOf(hs, k)} :: i <= k < |hs| ==> NextOf(hs, k) != x
    ensures LinkFrom(ar, hs, i).halfEdges[x].prev == ar.halfEdges[x].prev
    decreases |hs| - i
  {
    if i < |hs| {
      LinkFromPrev(LinkPair(ar, hs[i], NextOf(hs, i)), hs, i + 1, x);
    }
  }

  /** Step `k` of `linkSegments` is not undone by the later steps. */
  lemma {:induction false} LinkFromLinks(ar: Arena, hs: seq<HalfEdgeId>, i: nat, k: nat)
    requires i <= k < |hs| && AllIn(ar, hs) && Distinct(hs)
    ensures LinkFrom(ar, hs, i).halfEdges[hs[k]].next == Some(NextOf(hs, k))
    ensures LinkFrom(ar, hs, i).halfEdges[NextOf(hs, k)].prev == Some(hs[k])
    decreases |hs| - i
  {
    var ar1 := LinkPair(ar, hs[i], NextOf(hs, i));
    if i < k {
      LinkFromLinks(ar1, hs, i + 1, k);
    } else {
      forall j | i + 1 <= j < |hs| ensures hs[j] != hs[k] && NextOf(hs, j) != NextOf(hs, k) {
        NextIndexInjective(j, k, |hs|);
      }
      LinkFromNext(ar1, hs, i + 1, hs[k]);
      LinkFromPrev(ar1, hs, i + 1, NextOf(hs, k));
    }
  }

  /** `linkSegments(halfEdges)`: afterwards each half-edge's `next` is its
      cyclic successor and that successor's `prev` is the half-edge
      (when no half-edge occurs twice). Nothing but `next`/`prev` of the
      listed half-edges changes. */
  function LinkSegments(ar: Arena, hs: seq<HalfEdgeId>): (r: Arena)
    requires AllIn(ar, hs)
    ensures SameButLinks(ar, r)
    ensures forall x :: x in ar.halfEdges && x !in hs ==> r.halfEdges[x] == ar.halfEdges[x]
    ensures Distinct(hs) ==> Linked(r, hs)
  {
    var r := LinkFrom(ar, hs, 0);
    assert forall x :: x in ar.halfEdges && x !in hs ==> r.halfEdges[x] == ar.halfEdges[x] by {
      forall x | x in ar.halfEdges && x !in hs ensures r.halfEdges[x] == ar.halfEdges[x] {
        LinkFromNext(ar, hs, 0, x);
        LinkFromPrev(ar, hs, 0, x);
      }
    }
    assert Distinct(hs) ==> Linked(r, hs) by {
      if Distinct(hs) {
        forall k | 0 <= k < |hs| ensures r.halfEdges[hs[k]].next == Some(NextOf(hs, k))
          && r.halfEdges[NextOf(hs, k)].prev == Some(hs[k]) {
          LinkFromLinks(ar, hs, 0, k);
        }
      }
    }
    r
  }

  /** `linkHalfEdges(edge, h1, h2)`: both half-edges point to the edge and
      the edge's halves are `h1`, `h2`; the edge's curve stays. */
  function LinkHalfEdges(ar: Arena, e: EdgeId, h1: HalfEdgeId, h2: HalfEdgeId): (r: Arena)
    requires e in ar.edges && h1 in ar.halfEdges && h2 in ar.halfEdges
    ensures r.halfEdges.Keys == ar.halfEdges.Keys && r.edges.Keys == ar.edges.Keys
    ensures r.halfEdges[h1].edge == Some(e) && r.halfEdges[h2].edge == Some(e)
    ensures r.edges[e] == Edge(ar.edges[e].curve, h1, h2)
    ensures h1 != h2 ==> EdgePair(r, e) && Twin(r, h1) == h2 && Twin(r, h2) == h1
    ensures forall x :: x in ar.halfEdges ==>
      r.halfEdges[x] == (if x == h1 || x == h2 then ar.halfEdges[x].(edge := Some(e)) else ar.halfEdges[x])
    ensures forall x :: x in ar.edges && x != e ==> r.edges[x] == ar.edges[x]
    ensures r.(halfEdges := ar.halfEdges, edges := ar.edges) == ar
  {
    var hes := ar.halfEdges[h1 := ar.halfEdges[h1].(edge := Some(e))];
    var hes' := hes[h2 := hes[h2].(edge := Some(e))];
    ar.(halfEdges := hes', edges := ar.edges[e := ar.edges[e].(halfEdge1 := h1, halfEdge2 := h2)])
  }

  /** `createHalfEdge(loop, a, b)`: one new a->b half-edge owned by the loop,
      appended to the end of the loop's half-edges. */
  function CreateHalfEdge(ar: Arena, l: LoopId, a: VertexId, b: VertexId): (r: (Arena, HalfEdgeId))
    requires Bounded(ar) && l in ar.loops
    ensures var (ar', h) := r;
      && Bounded(ar')
      && h !in ar.halfEdges && h >= ar.nextHandle && ar'.nextHandle > h
      && ar'.halfEdges.Keys == ar.halfEdges.Keys + {h}
      && ar'.halfEdges[h].vertexA == a && ar'.halfEdges[h].vertexB == b
      && ar'.halfEdges[h].loop == Some(l) && ar'.halfEdges[h].edge.None?
      && ar'.halfEdges[h].next.None? && ar'.halfEdges[h].prev.None?
      && !ar'.halfEdges[h].inverted
      && ar'.loops.Keys == ar.loops.Keys
      && ar'.loops[l] == ar.loops[l].(halfEdges := ar.loops[l].halfEdges + [h])
      && (forall k :: k in ar.loops && k != l ==> ar'.loops[k] == ar.loops[k])
      && (forall k :: k in ar.halfEdges ==> ar'.halfEdges[k] == ar.halfEdges[k])
      && ar'.edges == ar.edges && ar'.faces == ar.faces
      && ar'.points == ar.points && ar'.shells == ar.shells
  {
    var h := ar.nextHandle;
    var ar' := ar.(
      halfEdges := ar.halfEdges[h := HalfEdge(None, false, a, b, Some(l), None, None)],
      loops := ar.loops[l := ar.loops[l].(halfEdges := ar.loops[l].halfEdges + [h])],
      nextHandle := h + 1);
    (ar', h)
  }

  // ---------------------------------------------------------------------
  // invertLoop

  /** Two half-edge records agree on everything but their endpoints. */
  predicate SameButEndsRec(x: HalfEdge, y: HalfEdge) {
    x.edge == y.edge && x.inverted == y.inverted && x.loop == y.loop
    && x.next == y.next && x.prev == y.prev
  }

  /** The first loop of `invertLoop`: exchange `vertexA` and `vertexB` of each
      listed half-edge, one after another. */
  function SwapEnds(ar: Arena, hs: seq<HalfEdgeId>): (r: Arena)
    requires AllIn(ar, hs)
    decreases |hs|
    ensures r.halfEdges.Keys == ar.halfEdges.Keys
    ensures r.points == ar.points && r.edges == ar.edges && r.loops == ar.loops
    ensures r.faces == ar.faces && r.shells == ar.shells && r.nextHandle == ar.nextHandle
    ensures forall x :: x in ar.halfEdges ==> SameButEndsRec(r.halfEdges[x], ar.halfEdges[x])
    ensures forall x :: x in ar.halfEdges && x !in hs ==> r.halfEdges[x] == ar.halfEdges[x]
    ensures Distinct(hs) ==> forall x :: x in hs ==>
      r.halfEdges[x].vertexA == ar.halfEdges[x].vertexB && r.halfEdges[x].vertexB == ar.halfEdges[x].vertexA
  {
    if |hs| == 0 then ar
    else
      var h := hs[0];
      var rec := ar.halfEdges[h];
      var ar1 := ar.(halfEdges := ar.halfEdges[h := rec.(vertexA := rec.vertexB, vertexB := rec.vertexA)]);
      assert AllIn(ar1, hs[1..]);
      var r := SwapEnds(ar1, hs[1..]);
      assert Distinct(hs) ==> h !in hs[1..] && Distinct(hs[1..]);
      assert forall x :: x in hs <==> x == h || x in hs[1..];
      r
  }

  /** The loop `l` with its half-edge list replaced by `hs`. */
  function SetLoopHalfEdges(ar: Arena, l: LoopId, hs: seq<HalfEdgeId>): (r: Arena)
    requires l in ar.loops
    ensures r.loops.Keys == ar.loops.Keys && r.loops[l] == ar.loops[l].(halfEdges := hs)
    ensures forall k :: k in ar.loops && k != l ==> r.loops[k] == ar.loops[k]
    ensures r.halfEdges == ar.halfEdges && r.points == ar.points && r.edges == ar.edges
    ensures r.faces == ar.faces && r.shells == ar.shells && r.nextHandle == ar.nextHandle
  {
    ar.(loops := ar.loops[l := ar.loops[l].(halfEdges := hs)])
  }

  /** `invertLoop(loop)`: swap every half-edge's endpoints, reverse the
      order, relink `next`/`prev`. */
  function InvertLoop(ar: Arena, l: LoopId): (r: Arena)
    requires l in ar.loops && AllIn(ar, ar.loops[l].halfEdges)
    ensures r.loops.Keys == ar.loops.Keys
    ensures r.loops[l] == ar.loops[l].(halfEdges := Reverse(ar.loops[l].halfEdges))
    ensures forall k :: k in ar.loops && k != l ==> r.loops[k] == ar.loops[k]
    ensures r.halfEdges.Keys == ar.halfEdges.Keys
    ensures r.points == ar.points && r.edges == ar.edges
    ensures r.faces == ar.faces && r.shells == ar.shells && r.nextHandle == ar.nextHandle
    ensures forall x :: x in ar.halfEdges && x !in ar.loops[l].halfEdges ==>
      r.halfEdges[x] == ar.halfEdges[x]
    ensures AllIn(r, r.loops[l].halfEdges)
  {
    var hs := ar.loops[l].halfEdges;
    ReverseSameElements(hs);
    LinkSegments(SetLoopHalfEdges(SwapEnds(ar, hs), l, Reverse(hs)), Reverse(hs))
  }

  /** On a loop without repeated half-edges, inversion swaps the endpoints
      of every member and leaves its other fields but `next`/`prev` alone. */
  lemma InvertLoopSwaps(ar: Arena, l: LoopId, x: HalfEdgeId)
    requires l in ar.loops && AllIn(ar, ar.loops[l].halfEdges)
    requires Distinct(ar.loops[l].halfEdges)
    requires x in ar.loops[l].halfEdges
    ensures var r := InvertLoop(ar, l);
      && r.halfEdges[x].vertexA == ar.halfEdges[x].vertexB
      && r.halfEdges[x].vertexB == ar.halfEdges[x].vertexA
      && r.halfEdges[x].edge == ar.halfEdges[x].edge
      && r.halfEdges[x].inverted == ar.halfEdges[x].inverted
      && r.halfEdges[x].loop == ar.halfEdges[x].loop
  {
    var hs := ar.loops[l].halfEdges;
    var ar2 := SetLoopHalfEdges(SwapEnds(ar, hs), l, Reverse(hs));
    assert SameButLinksRec(InvertLoop(ar, l).halfEdges[x], ar2.halfEdges[x]);
  }

  /** On a loop without repeated half-edges, inversion links the reversed
      order. */
  lemma InvertLoopLinks(ar: Arena, l: LoopId)
    requires l in ar.loops && AllIn(ar, ar.loops[l].halfEdges)
    requires Distinct(ar.loops[l].halfEdges)
    ensures var r := InvertLoop(ar, l); Linked(r, r.loops[l].halfEdges)
  {
    var hs := ar.loops[l].halfEdges;
    ReverseDistinct(hs);
    ReverseSameElements(hs);
  }

  /** Inverting keeps a closed chain closed: the reversed sequence with
      swapped endpoints again ends each half-edge where the next begins. */
  lemma {:induction false} InvertLoopKeepsChain(ar: Arena, l: LoopId)
    requires l in ar.loops && AllIn(ar, ar.loops[l].halfEdges)
    requires Distinct(ar.loops[l].halfEdges)
    requires ClosedChain(ar, ar.loops[l].halfEdges)
    ensures var r := InvertLoop(ar, l); ClosedChain(r, r.loops[l].halfEdges)
  {
    var r := InvertLoop(ar, l);
    var rev := r.loops[l].halfEdges;
    forall i | 0 <= i < |rev|
      ensures r.halfEdges[rev[i]].vertexB == r.halfEdges[NextOf(rev, i)].vertexA
    {
      InvertChainLink(ar, l, i);
    }
  }

  /** One link of the inverted chain: the `i`-th reversed half-edge, with
      its ends swapped, ends where the next one begins, because in the
      original order the next one ended where it began. */
  lemma InvertChainLink(ar: Arena, l: LoopId, i: nat)
    requires l in ar.loops && AllIn(ar, ar.loops[l].halfEdges)
    requires Distinct(ar.loops[l].halfEdges)
    requires ClosedChain(ar, ar.loops[l].halfEdges)
    requires i < |ar.loops[l].halfEdges|
    ensures var r := InvertLoop(ar, l); var rev := r.loops[l].halfEdges;
      r.halfEdges[rev[i]].vertexB == r.halfEdges[NextOf(rev, i)].vertexA
  {
    var hs := ar.loops[l].halfEdges;
    var r := InvertLoop(ar, l);
    var rev := r.loops[l].halfEdges;
    var n := |hs|;
    var j := NextIndex(i, n);
    assert rev[i] == hs[n - 1 - i] && rev[j] == hs[n - 1 - j];
    InvertLoopSwaps(ar, l, rev[i]);
    InvertLoopSwaps(ar, l, rev[j]);
    if i + 1 == n {
      // rev[n-1] == hs[0] and rev[0] == hs[n-1]: the wrap-around link
      assert NextOf(hs, n - 1) == hs[0];
    } else {
      assert NextOf(hs, n - 2 - i) == hs[n - 1 - i];
    }
  }

  /** In a linked distinct sequence, every member's `prev` is its cyclic
      predecessor, so `next`/`prev` of the members are fully determined. */
  lemma LinkedPrev(ar: Arena, hs: seq<HalfEdgeId>, j: nat)
    requires AllIn(ar, hs) && Linked(ar, hs) && j < |hs|
    ensures ar.halfEdges[hs[j]].prev == Some(hs[if j == 0 then |hs| - 1 else j - 1])
  {
    var i := if j == 0 then |hs| - 1 else j - 1;
    assert NextOf(hs, i) == hs[j];
  }

  /** Two arenas that link the same distinct sequence agree on the links
      of its members. */
  lemma LinkedAgree(a: Arena, b: Arena, hs: seq<HalfEdgeId>, j: nat)
    requires AllIn(a, hs) && Linked(a, hs) && AllIn(b, hs) && Linked(b, hs) && j < |hs|
    ensures a.halfEdges[hs[j]].next == b.halfEdges[hs[j]].next
    ensures a.halfEdges[hs[j]].prev == b.halfEdges[hs[j]].prev
  {
    LinkedPrev(a, hs, j);
    LinkedPrev(b, hs, j);
    assert a.halfEdges[hs[j]].next == Some(NextOf(hs, j));
  }

  /** A half-edge record is determined by its fields. */
  lemma SameRecord(x: HalfEdge, y: HalfEdge)
    requires SameButLinksRec(x, y) && x.next == y.next && x.prev == y.prev
    ensures x == y
  {
  }

  /** The record `invertLoop` gives member `x` of loop `l`: its endpoints
      exchanged and its links set to its neighbours in the reversed list. */
  ghost function InvertedRec(ar: Arena, l: LoopId, x: HalfEdgeId): HalfEdge
    requires l in ar.loops && x in ar.halfEdges && x in ar.loops[l].halfEdges
  {
    var rev := Reverse(ar.loops[l].halfEdges);
    ReverseMembership(ar.loops[l].halfEdges, x);
    var j := IndexOf(rev, x);
    var rec := ar.halfEdges[x];
    rec.(vertexA := rec.vertexB, vertexB := rec.vertexA,
         next := Some(NextOf(rev, j)), prev := Some(rev[if j == 0 then |rev| - 1 else j - 1]))
  }

  /** On a loop without repeated half-edges, `invertLoop` gives each
      member the record `InvertedRec` describes. */
  lemma InvertLoopAt(ar: Arena, l: LoopId, x: HalfEdgeId)
    requires l in ar.loops && AllIn(ar, ar.loops[l].halfEdges)
    requires Distinct(ar.loops[l].halfEdges) && x in ar.loops[l].halfEdges
    ensures x in ar.halfEdges && InvertLoop(ar, l).halfEdges[x] == InvertedRec(ar, l, x)
  {
    var hs := ar.loops[l].halfEdges;
    var r := InvertLoop(ar, l);
    var rev := Reverse(hs);
    InvertLoopSwaps(ar, l, x);
    InvertLoopLinks(ar, l);
    ReverseMembership(hs, x);
    var j := IndexOf(rev, x);
    assert r.loops[l].halfEdges == rev && rev[j] == x;
    assert r.halfEdges[x].next == Some(NextOf(rev, j));
    LinkedPrev(r, rev, j);
  }

  /** Inverting twice gives a member of a linked loop its record back:
      `r1` is any arena that holds the reversed loop and the inverted
      record of `x`. */
  lemma InvertedRecTwice(ar: Arena, r1: Arena, l: LoopId, x: HalfEdgeId)
    requires l in ar.loops && AllIn(ar, ar.loops[l].halfEdges)
    requires Distinct(ar.loops[l].halfEdges) && Linked(ar, ar.loops[l].halfEdges)
    requires x in ar.loops[l].halfEdges && x in ar.halfEdges
    requires l in r1.loops && r1.loops[l].halfEdges == Reverse(ar.loops[l].halfEdges)
    requires x in r1.halfEdges && r1.halfEdges[x] == InvertedRec(ar, l, x)
    ensures x in r1.loops[l].halfEdges && InvertedRec(r1, l, x) == ar.halfEdges[x]
  {
    var hs := ar.loops[l].halfEdges;
    ReverseMembership(hs, x);
    ReverseReverse(hs);
    assert Reverse(r1.loops[l].halfEdges) == hs;
    var j := IndexOf(hs, x);
    assert ar.halfEdges[hs[j]].next == Some(NextOf(hs, j));
    LinkedPrev(ar, hs, j);
  }

  /** After two inversions a member's endpoints and other fields are back. */
  lemma InvertLoopTwiceEnds(ar: Arena, l: LoopId, x: HalfEdgeId)
    requires l in ar.loops && AllIn(ar, ar.loops[l].halfEdges)
    requires Distinct(ar.loops[l].halfEdges)
    requires x in ar.loops[l].halfEdges
    ensures SameButLinksRec(InvertLoop(InvertLoop(ar, l), l).halfEdges[x], ar.halfEdges[x])
  {
    var hs := ar.loops[l].halfEdges;
    ReverseDistinct(hs);
    ReverseMembership(hs, x);
    InvertLoopSwaps(ar, l, x);
    InvertLoopSwaps(InvertLoop(ar, l), l, x);
  }

  /** After two inversions a member's links are back. */
  lemma InvertLoopTwiceLinks(ar: Arena, l: LoopId, j: nat)
    requires l in ar.loops && AllIn(ar, ar.loops[l].halfEdges)
    requires Distinct(ar.loops[l].halfEdges)
    requires Linked(ar, ar.loops[l].halfEdges)
    requires j < |ar.loops[l].halfEdges|
    ensures var x := ar.loops[l].halfEdges[j];
      var r2 := InvertLoop(InvertLoop(ar, l), l);
      r2.halfEdges[x].next == ar.halfEdges[x].next && r2.halfEdges[x].prev == ar.halfEdges[x].prev
  {
    var hs := ar.loops[l].halfEdges;
    ReverseDistinct(hs);
    ReverseReverse(hs);
    InvertLoopLinks(InvertLoop(ar, l), l);
    LinkedAgree(ar, InvertLoop(InvertLoop(ar, l), l), hs, j);
  }

  /** One record after two inversions of a linked loop equals the original. */
  lemma InvertLoopTwiceRecord(ar: Arena, l: LoopId, x: HalfEdgeId)
    requires l in ar.loops && AllIn(ar, ar.loops[l].halfEdges)
    requires Distinct(ar.loops[l].halfEdges)
    requires Linked(ar, ar.loops[l].halfEdges)
    requires x in ar.halfEdges
    ensures InvertLoop(InvertLoop(ar, l), l).halfEdges[x] == ar.halfEdges[x]
  {
    var hs := ar.loops[l].halfEdges;
    var r1 := InvertLoop(ar, l);
    ReverseMembership(hs, x);
    if x in hs {
      var j :| 0 <= j < |hs| && hs[j] == x;
      InvertLoopTwiceEnds(ar, l, x);
      InvertLoopTwiceLinks(ar, l, j);
      SameRecord(InvertLoop(r1, l).halfEdges[x], ar.halfEdges[x]);
    }
  }

  /** Two inversions restore the half-edge map of a linked loop. */
  lemma InvertLoopTwiceHalfEdges(ar: Arena, l: LoopId)
    requires l in ar.loops && AllIn(ar, ar.loops[l].halfEdges)
    requires Distinct(ar.loops[l].halfEdges)
    requires Linked(ar, ar.loops[l].halfEdges)
    ensures InvertLoop(InvertLoop(ar, l), l).halfEdges == ar.halfEdges
  {
    var m := InvertLoop(InvertLoop(ar, l), l).halfEdges;
    assert m.Keys == ar.halfEdges.Keys;
    forall x | x in ar.halfEdges ensures m[x] == ar.halfEdges[x] {
      InvertLoopTwiceRecord(ar, l, x);
    }
    MapExt(m, ar.halfEdges);
  }

  /** Two inversions restore the loop map. */
  lemma InvertLoopTwiceLoops(ar: Arena, l: LoopId)
    requires l in ar.loops && AllIn(ar, ar.loops[l].halfEdges)
    ensures InvertLoop(InvertLoop(ar, l), l).loops == ar.loops
  {
    ReverseReverse(ar.loops[l].halfEdges);
  }

  /** Inverting a linked loop twice restores the arena exactly: the same
      order, the same endpoints and the same links. */
  lemma {:induction false} InvertLoopTwice(ar: Arena, l: LoopId)
    requires l in ar.loops && AllIn(ar, ar.loops[l].halfEdges)
    requires Distinct(ar.loops[l].halfEdges)
    requires Linked(ar, ar.loops[l].halfEdges)
    ensures InvertLoop(InvertLoop(ar, l), l) == ar
  {
    InvertLoopTwiceHalfEdges(ar, l);
    InvertLoopTwiceLoops(ar, l);
  }

  // ---------------------------------------------------------------------
  // createLoopFromTrimmedCurve

  /** One piece of a contour transferred onto a surface: its start point
      `a` and its curve. (The end point `b` is never read by the builder.) */
  datatype TrimmedSegment = TrimmedSegment(a: Point, curve: Curve)

  /** `ar'` only adds to the half-edges and edges of `ar`: every old record
      is kept and every new half-edge handle was unused in `ar`. */
  ghost predicate Grown(ar: Arena, ar': Arena) {
    && ar'.nextHandle >= ar.nextHandle
    && ar'.halfEdges.Keys >= ar.halfEdges.Keys
    && (forall k :: k in ar'.halfEdges && k !in ar.halfEdges ==> k >= ar.nextHandle)
    && (forall k :: k in ar.halfEdges ==> ar'.halfEdges[k] == ar.halfEdges[k])
    && ar'.edges.Keys >= ar.edges.Keys
    && (forall k :: k in ar.edges ==> ar'.edges[k] == ar.edges[k])
  }

  lemma GrownTrans(a: Arena, b: Arena, c: Arena)
    requires Grown(a, b) && Grown(b, c)
    ensures Grown(a, c)
  {
  }

  /** `h` is a loop half-edge of `createLoopFromTrimmedCurve`: it belongs to
      `l`, is not inverted, and its own edge over `curve` names it as
      `halfEdge1`; the edge's `halfEdge2` is still the constructor's
      placeholder, which has no endpoints and so no record. */
  ghost predicate TrimmedAt(ar: Arena, h: HalfEdgeId, l: LoopId, curve: Curve) {
    && h in ar.halfEdges
    && var x := ar.halfEdges[h];
    && x.loop == Some(l) && !x.inverted
    && x.edge.Some? && x.edge.value in ar.edges
    && var e := ar.edges[x.edge.value];
    && e.curve == curve && e.halfEdge1 == h
    && e.halfEdge2 !in ar.halfEdges && e.halfEdge2 < ar.nextHandle
  }

  /** `halfEdge.edge = new Edge(curve); halfEdge.edge.halfEdge1 = halfEdge`. */
  function AttachNewEdge(ar: Arena, h: HalfEdgeId, curve: Curve): (r: Arena)
    requires Bounded(ar) && h in ar.halfEdges
    ensures Bounded(r) && r.nextHandle >= ar.nextHandle
    ensures r.halfEdges.Keys == ar.halfEdges.Keys
    ensures r.halfEdges[h].edge.Some? && r.halfEdges[h].edge.value !in ar.edges
    ensures r.halfEdges[h].edge.value in r.edges
    ensures var e := r.edges[r.halfEdges[h].edge.value];
      e.curve == curve && e.halfEdge1 == h && e.halfEdge2 !in r.halfEdges && e.halfEdge2 < r.nextHandle
    ensures SameButEdgeRec(r.halfEdges[h], ar.halfEdges[h])
    ensures forall k :: k in ar.halfEdges && k != h ==> r.halfEdges[k] == ar.halfEdges[k]
    ensures r.edges.Keys >= ar.edges.Keys
    ensures forall k :: k in ar.edges ==> r.edges[k] == ar.edges[k]
    ensures r.loops == ar.loops && r.points == ar.points && r.faces == ar.faces && r.shells == ar.shells
  {
    var (ar1, e) := NewBareEdge(ar, curve);
    ar1.(halfEdges := ar1.halfEdges[h := ar1.halfEdges[h].(edge := Some(e))],
         edges := ar1.edges[e := ar1.edges[e].(halfEdge1 := h)])
  }

  /** Two half-edge records agree on everything but their edge. */
  predicate SameButEdgeRec(x: HalfEdge, y: HalfEdge) {
    x.inverted == y.inverted && x.vertexA == y.vertexA && x.vertexB == y.vertexB
    && x.loop == y.loop && x.next == y.next && x.prev == y.prev
  }

  /** What one round of `createLoopFromTrimmedCurve` does: `h` is a new
      a->b half-edge with its own edge, appended to loop `l`; nothing else
      changes but the new edge. */
  ghost predicate TrimmedStepped(ar: Arena, ar': Arena, h: HalfEdgeId, l: LoopId,
                                 a: VertexId, b: VertexId, curve: Curve)
  {
    && Bounded(ar') && l in ar.loops
    && h !in ar.halfEdges && h >= ar.nextHandle
    && TrimmedAt(ar', h, l, curve)
    && ar'.halfEdges[h].vertexA == a && ar'.halfEdges[h].vertexB == b
    && ar'.halfEdges.Keys == ar.halfEdges.Keys + {h}
    && Grown(ar, ar')
    && ar'.loops.Keys == ar.loops.Keys
    && ar'.loops[l].halfEdges == ar.loops[l].halfEdges + [h] && ar'.loops[l].face == ar.loops[l].face
    && (forall k :: k in ar.loops && k != l ==> ar'.loops[k] == ar.loops[k])
    && ar'.points == ar.points && ar'.faces == ar.faces && ar'.shells == ar.shells
  }

  /** The loop body of `createLoopFromTrimmedCurve`: `createHalfEdge`, then
      `new Edge(seg.curve)` and `edge.halfEdge1 = halfEdge`. */
  function AddTrimmedHalfEdge(ar: Arena, l: LoopId, a: VertexId, b: VertexId, curve: Curve): (r: (Arena, HalfEdgeId))
    requires Bounded(ar) && l in ar.loops
    ensures TrimmedStepped(ar, r.0, r.1, l, a, b, curve)
  {
    var (ar1, h) := CreateHalfEdge(ar, l, a, b);
    var ar2 := AttachNewEdge(ar1, h, curve);
    assert Grown(ar, ar2);
    (ar2, h)
  }

  /** `segments.map(s => new Vertex(s.a))`: one new vertex per segment, at
      the segment's start point, no two alike. */
  method NewVertices(ar0: Arena, segs: seq<TrimmedSegment>) returns (ar: Arena, vs: seq<VertexId>)
    requires Bounded(ar0)
    ensures Bounded(ar) && ar.nextHandle >= ar0.nextHandle
    ensures |vs| == |segs|
    ensures forall k :: 0 <= k < |vs| ==> vs[k] !in ar0.points && vs[k] in ar.points && ar.points[vs[k]] == segs[k].a
    ensures Distinct(vs)
    ensures forall k :: k in ar0.points ==> k in ar.points && ar.points[k] == ar0.points[k]
    ensures ar.halfEdges == ar0.halfEdges && ar.edges == ar0.edges && ar.loops == ar0.loops
    ensures ar.faces == ar0.faces && ar.shells == ar0.shells
  {
    ar := ar0;
    vs := [];
    var i := 0;
    while i < |segs|
      invariant 0 <= i <= |segs| && |vs| == i
      invariant Bounded(ar) && ar.nextHandle >= ar0.nextHandle
      invariant forall k :: 0 <= k < i ==> vs[k] !in ar0.points && vs[k] in ar.points && ar.points[vs[k]] == segs[k].a
      invariant Distinct(vs)
      invariant forall k :: k in ar0.points ==> k in ar.points && ar.points[k] == ar0.points[k]
      invariant ar.halfEdges == ar0.halfEdges && ar.edges == ar0.edges && ar.loops == ar0.loops
      invariant ar.faces == ar0.faces && ar.shells == ar0.shells
    {
      var (ar1, v) := NewVertex(ar, segs[i].a);
      ar := ar1;
      vs := vs + [v];
      i := i + 1;
    }
  }

  /** A trimmed-loop half-edge stays one while the arena only grows. */
  lemma TrimmedAtGrown(ar: Arena, ar': Arena, h: HalfEdgeId, l: LoopId, curve: Curve)
    requires TrimmedAt(ar, h, l, curve) && Grown(ar, ar')
    ensures TrimmedAt(ar', h, l, curve)
  {
    var e := ar.halfEdges[h].edge.value;
    assert ar'.halfEdges[h] == ar.halfEdges[h] && ar'.edges[e] == ar.edges[e];
    var t := ar.edges[e].halfEdge2;
    assert t !in ar'.halfEdges;
  }

  /** The loop invariant of `createLoopFromTrimmedCurve` after the
      half-edges `hs` are built. */
  ghost predicate TrimmedInv(ar0: Arena, ar: Arena, l: LoopId, vs: seq<VertexId>,
                             segs: seq<TrimmedSegment>, hs: seq<HalfEdgeId>)
    requires |vs| == |segs|
  {
    && |hs| <= |segs| && Bounded(ar) && Grown(ar0, ar) && AllIn(ar, hs) && Distinct(hs)
    && (forall k :: 0 <= k < |hs| ==> hs[k] !in ar0.halfEdges && TrimmedAt(ar, hs[k], l, segs[k].curve))
    && (forall k :: 0 <= k < |hs| ==>
         ar.halfEdges[hs[k]].vertexA == vs[k] && ar.halfEdges[hs[k]].vertexB == vs[NextIndex(k, |vs|)])
    && ar.loops.Keys == ar0.loops.Keys && l in ar.loops
    && ar.loops[l].halfEdges == hs && ar.loops[l].face == ar0.loops[l].face
    && (forall k :: k in ar0.loops && k != l ==> ar.loops[k] == ar0.loops[k])
    && ar.points == ar0.points && ar.faces == ar0.faces && ar.shells == ar0.shells
  }

  /** One round keeps the trimmed-half-edge facts of the earlier rounds
      and adds those of the new one. */
  lemma TrimmedInvExtendAt(ar0: Arena, ar: Arena, ar1: Arena, h: HalfEdgeId, l: LoopId,
                           vs: seq<VertexId>, segs: seq<TrimmedSegment>, hs: seq<HalfEdgeId>)
    requires |vs| == |segs| && TrimmedInv(ar0, ar, l, vs, segs, hs) && |hs| < |segs|
    requires TrimmedStepped(ar, ar1, h, l, vs[|hs|], vs[NextIndex(|hs|, |vs|)], segs[|hs|].curve)
    ensures forall k :: 0 <= k < |hs + [h]| ==>
      (hs + [h])[k] !in ar0.halfEdges && TrimmedAt(ar1, (hs + [h])[k], l, segs[k].curve)
  {
    var hs1 := hs + [h];
    forall k | 0 <= k < |hs1| ensures hs1[k] !in ar0.halfEdges && TrimmedAt(ar1, hs1[k], l, segs[k].curve) {
      if k < |hs| {
        assert hs1[k] == hs[k];
        TrimmedAtGrown(ar, ar1, hs[k], l, segs[k].curve);
      }
    }
  }

  /** One round keeps the endpoints of the earlier rounds and gives the new
      half-edge vertex `i` to vertex `(i + 1) % n`. */
  lemma TrimmedInvExtendEnds(ar0: Arena, ar: Arena, ar1: Arena, h: HalfEdgeId, l: LoopId,
                             vs: seq<VertexId>, segs: seq<TrimmedSegment>, hs: seq<HalfEdgeId>)
    requires |vs| == |segs| && TrimmedInv(ar0, ar, l, vs, segs, hs) && |hs| < |segs|
    requires TrimmedStepped(ar, ar1, h, l, vs[|hs|], vs[NextIndex(|hs|, |vs|)], segs[|hs|].curve)
    ensures forall k :: 0 <= k < |hs + [h]| ==>
      ar1.halfEdges[(hs + [h])[k]].vertexA == vs[k] && ar1.halfEdges[(hs + [h])[k]].vertexB == vs[NextIndex(k, |vs|)]
  {
    var hs1 := hs + [h];
    forall k | 0 <= k < |hs1| ensures ar1.halfEdges[hs1[k]].vertexA == vs[k]
      && ar1.halfEdges[hs1[k]].vertexB == vs[NextIndex(k, |vs|)] {
      if k < |hs| { assert hs1[k] == hs[k] && ar1.halfEdges[hs[k]] == ar.halfEdges[hs[k]]; }
    }
  }

  /** One round of the loop keeps the invariant. */
  lemma TrimmedInvExtend(ar0: Arena, ar: Arena, ar1: Arena, h: HalfEdgeId, l: LoopId,
                         vs: seq<VertexId>, segs: seq<TrimmedSegment>, hs: seq<HalfEdgeId>)
    requires |vs| == |segs| && TrimmedInv(ar0, ar, l, vs, segs, hs) && |hs| < |segs|
    requires TrimmedStepped(ar, ar1, h, l, vs[|hs|], vs[NextIndex(|hs|, |vs|)], segs[|hs|].curve)
    ensures TrimmedInv(ar0, ar1, l, vs, segs, hs + [h])
  {
    TrimmedInvExtendAt(ar0, ar, ar1, h, l, vs, segs, hs);
    TrimmedInvExtendEnds(ar0, ar, ar1, h, l, vs, segs, hs);
    GrownTrans(ar0, ar, ar1);
    assert h !in hs;
    DistinctAppend(hs, h);
  }

  /** The `for` loop of `createLoopFromTrimmedCurve`: half-edge `i` runs
      from vertex `i` to vertex `(i + 1) % n`. */
  method AddTrimmedHalfEdges(ar0: Arena, l: LoopId, vs: seq<VertexId>, segs: seq<TrimmedSegment>)
    returns (ar: Arena, hs: seq<HalfEdgeId>)
    requires Bounded(ar0) && l in ar0.loops && ar0.loops[l].halfEdges == []
    requires |vs| == |segs|
    ensures |hs| == |segs| && TrimmedInv(ar0, ar, l, vs, segs, hs)
  {
    ar := ar0;
    hs := [];
    while |hs| < |segs|
      invariant TrimmedInv(ar0, ar, l, vs, segs, hs)
      decreases |segs| - |hs|
    {
      var i := |hs|;
      var (ar1, h) := AddTrimmedHalfEdge(ar, l, vs[i], vs[NextIndex(i, |vs|)], segs[i].curve);
      TrimmedInvExtend(ar0, ar, ar1, h, l, vs, segs, hs);
      ar := ar1;
      hs := hs + [h];
    }
  }

  /** Half-edge `k` runs from `vs[k]` to `vs[(k + 1) % n]`: a closed chain,
      whatever `linkSegments` did to the links. */
  lemma {:induction false} TrimmedChain(ar3: Arena, ar: Arena, hs: seq<HalfEdgeId>, vs: seq<VertexId>)
    requires |vs| == |hs| && AllIn(ar3, hs) && SameButLinks(ar3, ar)
    requires forall k :: 0 <= k < |hs| ==>
      ar3.halfEdges[hs[k]].vertexA == vs[k] && ar3.halfEdges[hs[k]].vertexB == vs[NextIndex(k, |vs|)]
    ensures AllIn(ar, hs) && ClosedChain(ar, hs)
  {
    forall i | 0 <= i < |hs| ensures ar.halfEdges[hs[i]].vertexB == ar.halfEdges[NextOf(hs, i)].vertexA {
      var j := NextIndex(i, |hs|);
      SameButLinksAt(ar3, ar, hs[i]);
      SameButLinksAt(ar3, ar, hs[j]);
    }
  }

  /** Relinking does not disturb a trimmed-loop half-edge. */
  lemma TrimmedAtLinks(ar3: Arena, ar: Arena, h: HalfEdgeId, l: LoopId, curve: Curve)
    requires TrimmedAt(ar3, h, l, curve) && SameButLinks(ar3, ar)
    ensures TrimmedAt(ar, h, l, curve)
  {
    assert SameButLinksRec(ar.halfEdges[h], ar3.halfEdges[h]);
  }

  /** Relinking only new half-edges keeps an arena grown from `ar0`. */
  lemma GrownRelinked(ar0: Arena, ar3: Arena, ar: Arena, hs: seq<HalfEdgeId>)
    requires Grown(ar0, ar3) && SameButLinks(ar3, ar)
    requires forall x :: x in ar3.halfEdges && x !in hs ==> ar.halfEdges[x] == ar3.halfEdges[x]
    requires forall k :: 0 <= k < |hs| ==> hs[k] !in ar0.halfEdges
    ensures Grown(ar0, ar)
  {
  }

  /** The loop `l` built by `createLoopFromTrimmedCurve(segs)` from `ar0`. */
  ghost predicate TrimmedLoop(ar0: Arena, ar: Arena, l: LoopId, segs: seq<TrimmedSegment>)
  {
    && l in ar.loops
    && var hs := ar.loops[l].halfEdges;
    && |hs| == |segs| && AllIn(ar, hs) && Distinct(hs)
    && (forall k :: 0 <= k < |hs| ==> hs[k] !in ar0.halfEdges && TrimmedAt(ar, hs[k], l, segs[k].curve))
    && (forall k :: 0 <= k < |hs| ==>
         var v := ar.halfEdges[hs[k]].vertexA; v !in ar0.points && v in ar.points && ar.points[v] == segs[k].a)
    && (forall j, k :: 0 <= j < k < |hs| ==> ar.halfEdges[hs[j]].vertexA != ar.halfEdges[hs[k]].vertexA)
    && ClosedChain(ar, hs) && Linked(ar, hs)
  }

  /** The new vertices become the half-edges' start vertices. */
  lemma TrimmedStarts(ar0: Arena, ar3: Arena, ar: Arena,
                      vs: seq<VertexId>, segs: seq<TrimmedSegment>, hs: seq<HalfEdgeId>)
    requires |vs| == |segs| == |hs| && Distinct(vs) && AllIn(ar3, hs)
    requires forall k :: 0 <= k < |vs| ==> vs[k] !in ar0.points && vs[k] in ar3.points && ar3.points[vs[k]] == segs[k].a
    requires forall k :: 0 <= k < |hs| ==> ar3.halfEdges[hs[k]].vertexA == vs[k]
    requires SameButLinks(ar3, ar)
    ensures AllIn(ar, hs)
    ensures forall k :: 0 <= k < |hs| ==>
      var v := ar.halfEdges[hs[k]].vertexA; v !in ar0.points && v in ar.points && ar.points[v] == segs[k].a
    ensures forall j, k :: 0 <= j < k < |hs| ==> ar.halfEdges[hs[j]].vertexA != ar.halfEdges[hs[k]].vertexA
  {
    forall k | 0 <= k < |hs| ensures ar.halfEdges[hs[k]].vertexA == vs[k] {
      SameButLinksAt(ar3, ar, hs[k]);
    }
  }

  /** Relinking keeps the trimmed-loop facts of every half-edge. */
  lemma TrimmedAtAllLinks(ar3: Arena, ar: Arena, l: LoopId, segs: seq<TrimmedSegment>, hs: seq<HalfEdgeId>)
    requires |segs| == |hs|
    requires forall k :: 0 <= k < |hs| ==> TrimmedAt(ar3, hs[k], l, segs[k].curve)
    requires SameButLinks(ar3, ar)
    ensures forall k :: 0 <= k < |hs| ==> TrimmedAt(ar, hs[k], l, segs[k].curve)
  {
    forall k | 0 <= k < |hs| ensures TrimmedAt(ar, hs[k], l, segs[k].curve) {
      TrimmedAtLinks(ar3, ar, hs[k], l, segs[k].curve);
    }
  }

  /** The part of `createLoopFromTrimmedCurve` before `linkSegments`: the
      new loop, its vertices and its unlinked half-edges. */
  method BuildTrimmedHalfEdges(ar0: Arena, segs: seq<TrimmedSegment>)
    returns (ar: Arena, l: LoopId, vs: seq<VertexId>, hs: seq<HalfEdgeId>)
    requires Bounded(ar0)
    ensures Bounded(ar) && Grown(ar0, ar)
    ensures l !in ar0.loops && ar.loops.Keys == ar0.loops.Keys + {l}
    ensures ar.loops[l] == Loop(None, hs)
    ensures forall k :: k in ar0.loops ==> ar.loops[k] == ar0.loops[k]
    ensures forall k :: k in ar0.points ==> k in ar.points && ar.points[k] == ar0.points[k]
    ensures ar.faces == ar0.faces && ar.shells == ar0.shells
    ensures |vs| == |segs| == |hs| && Distinct(vs) && AllIn(ar, hs) && Distinct(hs)
    ensures forall k :: 0 <= k < |vs| ==> vs[k] !in ar0.points && vs[k] in ar.points && ar.points[vs[k]] == segs[k].a
    ensures forall k :: 0 <= k < |hs| ==> hs[k] !in ar0.halfEdges && TrimmedAt(ar, hs[k], l, segs[k].curve)
    ensures forall k :: 0 <= k < |hs| ==>
      ar.halfEdges[hs[k]].vertexA == vs[k] && ar.halfEdges[hs[k]].vertexB == vs[NextIndex(k, |vs|)]
  {
    var (ar1, l1) := NewLoop(ar0);
    l := l1;
    var ar2;
    ar2, vs := NewVertices(ar1, segs);
    ar, hs := AddTrimmedHalfEdges(ar2, l, vs, segs);
    assert Grown(ar0, ar2);
    GrownTrans(ar0, ar2, ar);
  }

  /** `createLoopFromTrimmedCurve(segments)`: a new loop with one new
      half-edge per segment. Half-edge `i` runs from the new vertex at
      segment `i`'s start to the one at segment `(i + 1) % n`'s start, so
      the half-edges form a closed chain; each has its own new edge over
      the segment's curve and is that edge's `halfEdge1`; finally the
      half-edges are linked in order. Nothing that existed before changes. */
  method CreateLoopFromTrimmedCurve(ar0: Arena, segs: seq<TrimmedSegment>) returns (ar: Arena, l: LoopId)
    requires Bounded(ar0)
    ensures Bounded(ar) && Grown(ar0, ar)
    ensures l !in ar0.loops && l in ar.loops && ar.loops[l].face.None?
    ensures TrimmedLoop(ar0, ar, l, segs)
    ensures ar.loops.Keys == ar0.loops.Keys + {l}
    ensures forall k :: k in ar0.loops ==> ar.loops[k] == ar0.loops[k]
    ensures forall k :: k in ar0.points ==> k in ar.points && ar.points[k] == ar0.points[k]
    ensures ar.faces == ar0.faces && ar.shells == ar0.shells
  {
    var ar3, l1, vs, hs := BuildTrimmedHalfEdges(ar0, segs);
    l := l1;
    ar := LinkSegments(ar3, hs);
    TrimmedChain(ar3, ar, hs, vs);
    TrimmedAtAllLinks(ar3, ar, l, segs, hs);
    TrimmedStarts(ar0, ar3, ar, vs, segs, hs);
    GrownRelinked(ar0, ar3, ar, hs);
  }
}
