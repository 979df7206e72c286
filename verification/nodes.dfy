/** The intersection nodes of `web/app/brep/operations/boolean.js`: a node
    is a vertex where an intersection curve meets an edge of a face
    (`new Node(vertex, splitsEdge, splittingFace)`, whose `normal` starts
    at 0). The curve geometry is abstract: `t` is the curve parameter of a
    point, `dotAt` the dot product of the edge tangent with the curve
    direction at a node, `nearZero` the tolerance test against 0. */
module Nodes {
  import opened Wrappers
  import opened Topo

  datatype Node = Node(vertex: VertexId, point: Point, edge: HalfEdgeId, normal: int)

  /** A list of nodes in which the algorithm nulls entries out. */
  type Nodes = seq<Option<Node>>

  // ---------------------------------------------------------------------
  // nodeNormal / calculateNodeNormals

  /** `nodeNormal`: the dot product snapped to 0 within tolerance and
      otherwise reduced to its sign. */
  function NodeNormal(dot: real, nearZero: real -> bool): (r: int)
    ensures r == 0 || r == 1 || r == -1
    ensures r == 0 <==> nearZero(dot)
    ensures r == -1 <==> !nearZero(dot) && dot < 0.0
  {
    if nearZero(dot) then 0 else if dot < 0.0 then -1 else 1
  }

  /** `calculateNodeNormals`: every node gets its normal, and a node whose
      normal is 0 is nulled out. */
  method CalculateNodeNormals(nodes: Nodes, dotAt: Node -> real, nearZero: real -> bool)
    returns (r: Nodes)
    ensures |r| == |nodes|
    ensures forall i :: 0 <= i < |nodes| ==>
      (r[i].Some? <==> nodes[i].Some? && !nearZero(dotAt(nodes[i].value)))
    ensures forall i :: 0 <= i < |nodes| && r[i].Some? ==>
      r[i].value == nodes[i].value.(normal := NodeNormal(dotAt(nodes[i].value), nearZero))
    ensures forall i :: 0 <= i < |r| && r[i].Some? ==> r[i].value.normal == 1 || r[i].value.normal == -1
  {
    r := nodes;
    var i := 0;
    while i < |r|
      invariant 0 <= i <= |r| == |nodes|
      invariant forall k :: i <= k < |r| ==> r[k] == nodes[k]
      invariant forall k :: 0 <= k < i ==>
        (r[k].Some? <==> nodes[k].Some? && !nearZero(dotAt(nodes[k].value)))
      invariant forall k :: 0 <= k < i && r[k].Some? ==>
        r[k].value == nodes[k].value.(normal := NodeNormal(dotAt(nodes[k].value), nearZero))
    {
      if r[i].Some? {
        var n := r[i].value;
        var normal := NodeNormal(dotAt(n), nearZero);
        if normal == 0 {
          r := r[i := None];
        } else {
          r := r[i := Some(n.(normal := normal))];
        }
      }
      i := i + 1;
    }
  }

  // ---------------------------------------------------------------------
  // filterNodes

  /** No non-null node before `k` sits on the vertex of node `k`. */
  predicate FirstAtVertex(nodes: Nodes, k: int)
    requires 0 <= k < |nodes| && nodes[k].Some?
  {
    forall m :: 0 <= m < k && nodes[m].Some? ==> nodes[m].value.vertex != nodes[k].value.vertex
  }

  /** No other non-null node on the vertex of node `k` has the opposite
      normal (the two normals do not sum to 0). */
  predicate NoOpposite(nodes: Nodes, k: int)
    requires 0 <= k < |nodes| && nodes[k].Some?
  {
    forall j :: 0 <= j < |nodes| && j != k && nodes[j].Some? && nodes[j].value.vertex == nodes[k].value.vertex
      ==> nodes[k].value.normal + nodes[j].value.normal != 0
  }

  /** The nodes `filterNodes` keeps: of the nodes on one vertex only the
      first can stay, and it stays unless another node there has the
      opposite normal. */
  predicate Survives(nodes: Nodes, k: int)
    requires 0 <= k < |nodes|
  {
    nodes[k].Some? && FirstAtVertex(nodes, k) && NoOpposite(nodes, k)
  }

  /** The list `filterNodes` leaves, described per entry. */
  function Filtered(nodes: Nodes): (r: Nodes)
    ensures |r| == |nodes|
  {
    seq(|nodes|, k requires 0 <= k < |nodes| => if Survives(nodes, k) then nodes[k] else None)
  }

  /** No two non-null entries share a vertex. */
  predicate NoSharedVertex(nodes: Nodes) {
    forall i, j :: 0 <= i < |nodes| && 0 <= j < |nodes| && i != j && nodes[i].Some? && nodes[j].Some?
      ==> nodes[i].value.vertex != nodes[j].value.vertex
  }

  /** Some non-null node before position `i` sits on the vertex of node `k`. */
  ghost predicate Touched(nodes: Nodes, i: int, k: int)
    requires 0 <= k < |nodes| && nodes[k].Some?
  {
    exists m :: 0 <= m < i && m < |nodes| && nodes[m].Some? && nodes[m].value.vertex == nodes[k].value.vertex
  }

  /** Entry `k` after the outer loop of `filterNodes` has visited the
      positions before `i`: the nodes on every vertex already visited are
      settled, the others untouched. */
  ghost function Settled(nodes: Nodes, i: int, k: int): Option<Node>
    requires 0 <= k < |nodes|
  {
    if nodes[k].Some? && Touched(nodes, i, k) && !Survives(nodes, k) then None else nodes[k]
  }

  /** `filterNodes`: for every node still present, every other node on its
      vertex is nulled, and the node itself is nulled too when one of them
      has the opposite normal. The inner loop goes on comparing with the
      node even after nulling its own entry. */
  method FilterNodes(nodes: Nodes) returns (r: Nodes)
    ensures r == Filtered(nodes)
    ensures forall k :: 0 <= k < |r| ==> r[k].None? || r[k] == nodes[k]
    ensures NoSharedVertex(r)
  {
    r := nodes;
    var i := 0;
    while i < |r|
      invariant 0 <= i <= |r| == |nodes|
      invariant forall k :: 0 <= k < |nodes| ==> r[k] == Settled(nodes, i, k)
    {
      if r[i].Some? {
        var node1 := r[i].value;
        FirstOfVertex(nodes, i, r);
        ghost var r0 := r;
        var j := 0;
        while j < |r|
          invariant 0 <= j <= |r| == |nodes|
          invariant forall k :: 0 <= k < |nodes| && k != i && !(k < j && InGroup(r0, k, node1)) ==> r[k] == r0[k]
          invariant forall k :: 0 <= k < j && k != i && InGroup(r0, k, node1) ==> r[k].None?
          invariant r[i] == (if OppositeBefore(r0, i, j, node1) then None else Some(node1))
        {
          if i != j && r[j].Some? && r[j].value.vertex == node1.vertex {
            if node1.normal + r[j].value.normal == 0 {
              r := r[i := None];
            }
            r := r[j := None];
          }
          j := j + 1;
        }
        VisitedVertex(nodes, i, r0, r, node1);
      } else {
        SkippedVertex(nodes, i, r);
      }
      i := i + 1;
    }
    forall k | 0 <= k < |nodes|
      ensures r[k] == Filtered(nodes)[k]
    {
      if nodes[k].Some? {
        assert Touched(nodes, |nodes|, k);
      }
    }
    FilteredNoSharedVertex(nodes);
  }

  /** Entry `k` of `s` is a node on the vertex of `node1`. */
  predicate InGroup(s: Nodes, k: int, node1: Node)
    requires 0 <= k < |s|
  {
    s[k].Some? && s[k].value.vertex == node1.vertex
  }

  /** Some other node on the vertex of `node1` before position `j` has the
      opposite normal. */
  ghost predicate OppositeBefore(s: Nodes, i: int, j: int, node1: Node) {
    exists k :: 0 <= k < j && k < |s| && k != i && InGroup(s, k, node1) && node1.normal + s[k].value.normal == 0
  }

  /** A node still present when the outer loop reaches it is the original
      node and the first one on its vertex, and no node on that vertex has
      been touched yet. */
  lemma FirstOfVertex(nodes: Nodes, i: int, r: Nodes)
    requires 0 <= i < |nodes| == |r| && r[i].Some?
    requires forall k :: 0 <= k < |nodes| ==> r[k] == Settled(nodes, i, k)
    ensures r[i] == nodes[i] && FirstAtVertex(nodes, i) && !Touched(nodes, i, i)
    ensures forall k :: 0 <= k < |nodes| && InGroup(nodes, k, r[i].value) ==> r[k] == nodes[k] && (k != i ==> i < k)
  {
    assert r[i] == Settled(nodes, i, i);
    FirstIffUntouched(nodes, i);
    forall k | 0 <= k < |nodes| && InGroup(nodes, k, r[i].value)
      ensures r[k] == nodes[k] && (k != i ==> i < k)
    {
      TouchedSameVertex(nodes, i, i, k);
      TouchedWitness(nodes, i, i, k);
      assert r[k] == Settled(nodes, i, k);
    }
  }

  /** Being first on its vertex is having no visited node on it. */
  lemma FirstIffUntouched(nodes: Nodes, k: int)
    requires 0 <= k < |nodes| && nodes[k].Some?
    ensures FirstAtVertex(nodes, k) <==> !Touched(nodes, k, k)
  {
    if Touched(nodes, k, k) {
      var m :| 0 <= m < k && m < |nodes| && nodes[m].Some? && nodes[m].value.vertex == nodes[k].value.vertex;
      assert !FirstAtVertex(nodes, k);
    }
  }

  /** Nodes on the same vertex are touched together. */
  lemma TouchedSameVertex(nodes: Nodes, i: int, k1: int, k2: int)
    requires 0 <= k1 < |nodes| && nodes[k1].Some? && 0 <= k2 < |nodes| && nodes[k2].Some?
    requires nodes[k1].value.vertex == nodes[k2].value.vertex
    ensures Touched(nodes, i, k1) == Touched(nodes, i, k2)
  {
    if Touched(nodes, i, k1) {
      var m :| 0 <= m < i && m < |nodes| && nodes[m].Some? && nodes[m].value.vertex == nodes[k1].value.vertex;
      assert Touched(nodes, i, k2);
    }
    if Touched(nodes, i, k2) {
      var m :| 0 <= m < i && m < |nodes| && nodes[m].Some? && nodes[m].value.vertex == nodes[k2].value.vertex;
      assert Touched(nodes, i, k1);
    }
  }

  /** A visited node `m` on the vertex of node `k` touches it. */
  lemma TouchedWitness(nodes: Nodes, i: int, k: int, m: int)
    requires 0 <= k < |nodes| && nodes[k].Some?
    ensures 0 <= m < i && m < |nodes| && nodes[m].Some? && nodes[m].value.vertex == nodes[k].value.vertex
      ==> Touched(nodes, i, k)
  {
  }

  /** The outer step for a node that was present: its vertex is settled. */
  lemma VisitedVertex(nodes: Nodes, i: int, r0: Nodes, r: Nodes, node1: Node)
    requires 0 <= i < |nodes| == |r0| == |r|
    requires r0[i] == nodes[i] == Some(node1) && FirstAtVertex(nodes, i) && !Touched(nodes, i, i)
    requires forall k :: 0 <= k < |nodes| ==> r0[k] == Settled(nodes, i, k)
    requires forall k :: 0 <= k < |nodes| && InGroup(nodes, k, node1) ==> r0[k] == nodes[k] && (k != i ==> i < k)
    requires forall k :: 0 <= k < |nodes| && k != i && !InGroup(r0, k, node1) ==> r[k] == r0[k]
    requires forall k :: 0 <= k < |nodes| && k != i && InGroup(r0, k, node1) ==> r[k].None?
    requires r[i] == (if OppositeBefore(r0, i, |nodes|, node1) then None else Some(node1))
    ensures forall k :: 0 <= k < |nodes| ==> r[k] == Settled(nodes, i + 1, k)
  {
    forall k | 0 <= k < |nodes|
      ensures r[k] == Settled(nodes, i + 1, k)
    {
      if nodes[k].Some? && nodes[k].value.vertex == node1.vertex {
        assert Touched(nodes, i + 1, k);
        assert InGroup(nodes, k, node1);
        if k == i {
          if OppositeBefore(r0, i, |nodes|, node1) {
            var j :| 0 <= j < |nodes| && j < |r0| && j != i && InGroup(r0, j, node1) && node1.normal + r0[j].value.normal == 0;
            assert r0[j] == Settled(nodes, i, j);
            assert !NoOpposite(nodes, i);
          } else {
            forall j | 0 <= j < |nodes| && j != i && nodes[j].Some? && nodes[j].value.vertex == nodes[i].value.vertex
              ensures nodes[i].value.normal + nodes[j].value.normal != 0
            {
              assert InGroup(nodes, j, node1) && InGroup(r0, j, node1);
            }
            assert Survives(nodes, i);
          }
        } else {
          assert InGroup(r0, k, node1);
          assert !FirstAtVertex(nodes, k);
        }
      } else {
        assert k != i;
        if nodes[k].Some? {
          if Touched(nodes, i + 1, k) {
            var m :| 0 <= m < i + 1 && m < |nodes| && nodes[m].Some? && nodes[m].value.vertex == nodes[k].value.vertex;
            assert m != i;
            assert Touched(nodes, i, k);
          }
          if Touched(nodes, i, k) {
            var m :| 0 <= m < i && m < |nodes| && nodes[m].Some? && nodes[m].value.vertex == nodes[k].value.vertex;
            assert Touched(nodes, i + 1, k);
          }
        }
        if InGroup(r0, k, node1) {
          assert r0[k] == Settled(nodes, i, k);
        }
      }
    }
  }

  /** The outer step for an entry that was already null changes nothing. */
  lemma SkippedVertex(nodes: Nodes, i: int, r: Nodes)
    requires 0 <= i < |nodes| == |r| && r[i].None?
    requires forall k :: 0 <= k < |nodes| ==> r[k] == Settled(nodes, i, k)
    ensures forall k :: 0 <= k < |nodes| ==> r[k] == Settled(nodes, i + 1, k)
  {
    assert r[i] == Settled(nodes, i, i);
    forall k | 0 <= k < |nodes| && nodes[k].Some? && Touched(nodes, i + 1, k)
      ensures Touched(nodes, i, k)
    {
      var m :| 0 <= m < i + 1 && m < |nodes| && nodes[m].Some? && nodes[m].value.vertex == nodes[k].value.vertex;
      if m == i {
        var m' :| 0 <= m' < i && m' < |nodes| && nodes[m'].Some? && nodes[m'].value.vertex == nodes[i].value.vertex;
        assert nodes[m'].value.vertex == nodes[k].value.vertex;
      }
    }
    forall k | 0 <= k < |nodes| && nodes[k].Some? && Touched(nodes, i, k)
      ensures Touched(nodes, i + 1, k)
    {
      var m :| 0 <= m < i && m < |nodes| && nodes[m].Some? && nodes[m].value.vertex == nodes[k].value.vertex;
    }
  }

  /** The surviving nodes sit on pairwise different vertices. */
  lemma FilteredNoSharedVertex(nodes: Nodes)
    ensures NoSharedVertex(Filtered(nodes))
  {
    var r := Filtered(nodes);
    forall i, j | 0 <= i < |r| && 0 <= j < |r| && i != j && r[i].Some? && r[j].Some?
      ensures r[i].value.vertex != r[j].value.vertex
    {
      assert Survives(nodes, i) && Survives(nodes, j);
      if i < j {
        assert FirstAtVertex(nodes, j);
      } else {
        assert FirstAtVertex(nodes, i);
      }
    }
  }

  /** Nodes on pairwise different vertices all survive: filtering such a
      list changes nothing. */
  lemma FilterKeepsDistinct(nodes: Nodes)
    requires NoSharedVertex(nodes)
    ensures Filtered(nodes) == nodes
  {
    forall k | 0 <= k < |nodes| && nodes[k].Some?
      ensures Survives(nodes, k)
    {
    }
  }

  /** Filtering twice is filtering once. */
  lemma {:induction false} FilterIdempotent(nodes: Nodes)
    ensures Filtered(Filtered(nodes)) == Filtered(nodes)
  {
    FilteredNoSharedVertex(nodes);
    FilterKeepsDistinct(Filtered(nodes));
  }

  // ---------------------------------------------------------------------
  // findCloserOnCurve

  /** `Number.MAX_VALUE`, the largest finite double, the search's starting
      bound. */
  const MAX_VALUE: real := 179769313486231570814527423731704356798070567525844996598917476803157260780028538760589558632766878171540458953514382464234321326889464182768467546703537516986049910576551282076245490090389328944075868508455133942304583236903222948165808559332123348274797826204144723168738177180919299881250404026184124858368.0

  /** The signed distance of `n` from the curve parameter `origin`:
      `(origin - t(n.point)) * n.normal`. */
  function Dist(origin: real, n: Node, t: Point -> real): real {
    (origin - t(n.point)) * (n.normal as real)
  }

  /** Node `k` can be chosen: it is present and its signed distance is
      non-negative and below `Number.MAX_VALUE`. */
  predicate Candidate(nodes: Nodes, origin: real, t: Point -> real, k: int)
    requires 0 <= k < |nodes|
  {
    nodes[k].Some? && 0.0 <= Dist(origin, nodes[k].value, t) < MAX_VALUE
  }

  /** `r` is the answer of `findCloserOnCurve`: -1 when no node can be
      chosen, otherwise a candidate with the least signed distance, the
      earliest of those. */
  ghost predicate Closest(nodes: Nodes, origin: real, t: Point -> real, r: int) {
    && -1 <= r < |nodes|
    && (r == -1 <==> forall k :: 0 <= k < |nodes| ==> !Candidate(nodes, origin, t, k))
    && (r >= 0 ==>
          && Candidate(nodes, origin, t, r)
          && (forall k :: 0 <= k < |nodes| && Candidate(nodes, origin, t, k) ==>
                Dist(origin, nodes[r].value, t) <= Dist(origin, nodes[k].value, t))
          && (forall k :: 0 <= k < r && Candidate(nodes, origin, t, k) ==>
                Dist(origin, nodes[r].value, t) < Dist(origin, nodes[k].value, t)))
  }

  /** At most one index is the closest. */
  lemma ClosestUnique(nodes: Nodes, origin: real, t: Point -> real, r1: int, r2: int)
    requires Closest(nodes, origin, t, r1) && Closest(nodes, origin, t, r2)
    ensures r1 == r2
  {
    if r1 >= 0 && r2 >= 0 {
      assert Candidate(nodes, origin, t, r1) && Candidate(nodes, origin, t, r2);
    }
  }

  /** The loop of `findCloserOnCurve` from position `i`, with the best
      index `hero` and its distance `heroDistance` so far. */
  function FindCloserFrom(nodes: Nodes, origin: real, t: Point -> real, i: int, hero: int, heroDistance: real)
    : (r: int)
    requires 0 <= i <= |nodes| && -1 <= hero < i
    requires hero == -1 ==> heroDistance == MAX_VALUE && forall k :: 0 <= k < i ==> !Candidate(nodes, origin, t, k)
    requires hero >= 0 ==>
      && Candidate(nodes, origin, t, hero) && heroDistance == Dist(origin, nodes[hero].value, t)
      && (forall k :: 0 <= k < i && Candidate(nodes, origin, t, k) ==> heroDistance <= Dist(origin, nodes[k].value, t))
      && (forall k :: 0 <= k < hero && Candidate(nodes, origin, t, k) ==> heroDistance < Dist(origin, nodes[k].value, t))
    ensures Closest(nodes, origin, t, r)
    decreases |nodes| - i
  {
    if i == |nodes| then hero
    else if nodes[i].None? then FindCloserFrom(nodes, origin, t, i + 1, hero, heroDistance)
    else
      var distance := Dist(origin, nodes[i].value, t);
      if distance < 0.0 then FindCloserFrom(nodes, origin, t, i + 1, hero, heroDistance)
      else if distance < heroDistance then FindCloserFrom(nodes, origin, t, i + 1, i, distance)
      else FindCloserFrom(nodes, origin, t, i + 1, hero, heroDistance)
  }

  /** `findCloserOnCurve(nodes, toNode, curve)`. */
  function FindCloserOnCurve(nodes: Nodes, toNode: Node, t: Point -> real): (r: int)
    ensures Closest(nodes, t(toNode.point), t, r)
  {
    FindCloserFrom(nodes, t(toNode.point), t, 0, -1, MAX_VALUE)
  }

  // ---------------------------------------------------------------------
  // the pairing loop of split

  /** What the loop of `split` does at one position: the entry was already
      null (`Skip`); or the node looked for its closest node on the curve
      and found none (`closest == -1`), found one on the same side
      (`partner == None`), or was paired with it. */
  datatype Decision =
    | Skip
    | Looked(closest: int, partner: Option<(Node, Node)>)

  /** Node `k` was taken as the partner of an earlier node. */
  ghost predicate PairedIn(prefix: seq<Decision>, k: int) {
    exists m :: 0 <= m < |prefix| && prefix[m].Looked? && prefix[m].partner.Some? && prefix[m].closest == k
  }

  /** The list of nodes once the loop has made the decisions `prefix`:
      every visited entry and every partner taken is null. */
  ghost function LiveAt(nodes: Nodes, prefix: seq<Decision>): (r: Nodes)
    ensures |r| == |nodes|
  {
    seq(|nodes|, k requires 0 <= k < |nodes| => if k < |prefix| || PairedIn(prefix, k) then None else nodes[k])
  }

  /** `d` is what the loop decides at position `|prefix|`: a null entry is
      skipped; otherwise the entry is nulled, the closest remaining node on
      the curve is looked up, and it becomes the partner exactly when the
      two normals do not point the same way (`outNode.normal *
      inNode.normal > 0` rejects it). */
  ghost predicate Decided(nodes: Nodes, t: Point -> real, prefix: seq<Decision>, d: Decision)
    requires |prefix| < |nodes|
  {
    var i := |prefix|;
    var cur := LiveAt(nodes, prefix);
    if cur[i].None? then d == Skip
    else
      var inNode := cur[i].value;
      var live := cur[i := None];
      && d.Looked?
      && Closest(live, t(inNode.point), t, d.closest)
      && (d.partner.Some? <==> d.closest >= 0 && live[d.closest].value.normal * inNode.normal <= 0)
      && (d.partner.Some? ==> d.partner.value == (inNode, live[d.closest].value))
  }

  /** The loop of `split` from position `i` over the current list `cur`. */
  function PairFrom(cur: Nodes, t: Point -> real, i: nat): (ds: seq<Decision>)
    requires i <= |cur|
    ensures |ds| == |cur| - i
    decreases |cur| - i
  {
    if i == |cur| then []
    else if cur[i].None? then [Skip] + PairFrom(cur, t, i + 1)
    else
      var inNode := cur[i].value;
      var live := cur[i := None];
      var c := FindCloserOnCurve(live, inNode, t);
      if c == -1 then [Looked(-1, None)] + PairFrom(live, t, i + 1)
      else
        var outNode := live[c].value;
        if outNode.normal * inNode.normal > 0 then [Looked(c, None)] + PairFrom(live, t, i + 1)
        else [Looked(c, Some((inNode, outNode)))] + PairFrom(live[c := None], t, i + 1)
  }

  /** The decisions of the loop of `split` over `nodes`, one per position. */
  function Pairing(nodes: Nodes, t: Point -> real): (ds: seq<Decision>)
    ensures |ds| == |nodes|
  {
    PairFrom(nodes, t, 0)
  }

  /** Every decision of the loop is the one `Decided` describes. */
  lemma PairingSpec(nodes: Nodes, t: Point -> real)
    ensures forall i :: 0 <= i < |nodes| ==> Decided(nodes, t, Pairing(nodes, t)[..i], Pairing(nodes, t)[i])
  {
    assert LiveAt(nodes, []) == nodes;
    PairFromSpec(nodes, t, []);
    assert [] + PairFrom(nodes, t, 0) == Pairing(nodes, t);
  }

  lemma {:induction false} PairFromSpec(nodes: Nodes, t: Point -> real, prefix: seq<Decision>)
    requires |prefix| <= |nodes|
    requires forall m :: 0 <= m < |prefix| ==> Decided(nodes, t, prefix[..m], prefix[m])
    ensures var ds := prefix + PairFrom(LiveAt(nodes, prefix), t, |prefix|);
      forall m :: 0 <= m < |ds| ==> Decided(nodes, t, ds[..m], ds[m])
    decreases |nodes| - |prefix|
  {
    var i := |prefix|;
    var cur := LiveAt(nodes, prefix);
    if i < |nodes| {
      var d := PairFrom(cur, t, i)[0];
      var next := prefix + [d];
      assert PairFrom(cur, t, i) == [d] + PairFrom(NextLive(cur, i, d), t, i + 1) by {
        PairFromHead(cur, t, i);
      }
      DecidedHead(nodes, t, prefix);
      NextLiveAt(nodes, prefix, d);
      forall m | 0 <= m < |next|
        ensures Decided(nodes, t, next[..m], next[m])
      {
        if m < i {
          assert next[..m] == prefix[..m];
        } else {
          assert next[..m] == prefix;
        }
      }
      PairFromSpec(nodes, t, next);
      assert prefix + PairFrom(cur, t, i) == next + PairFrom(LiveAt(nodes, next), t, i + 1);
    } else {
      assert prefix + PairFrom(cur, t, i) == prefix;
    }
  }

  /** The list after the decision `d` at position `i`. */
  function NextLive(cur: Nodes, i: int, d: Decision): (r: Nodes)
    requires 0 <= i < |cur|
    ensures |r| == |cur|
  {
    if d.Looked? && d.partner.Some? && 0 <= d.closest < |cur| then cur[i := None][d.closest := None]
    else cur[i := None]
  }

  /** One step of the loop: the first decision and the list it leaves. */
  lemma PairFromHead(cur: Nodes, t: Point -> real, i: nat)
    requires i < |cur|
    ensures var d := PairFrom(cur, t, i)[0];
      && (d.Looked? && d.partner.Some? ==> 0 <= d.closest < |cur|)
      && PairFrom(cur, t, i) == [d] + PairFrom(NextLive(cur, i, d), t, i + 1)
  {
    if cur[i].Some? {
      var live := cur[i := None];
      var c := FindCloserOnCurve(live, cur[i].value, t);
      if c != -1 {
        assert Candidate(live, t(cur[i].value.point), t, c);
      }
    } else {
      assert cur[i := None] == cur;
    }
  }

  /** The first decision of the loop from `LiveAt(nodes, prefix)` is the
      one `Decided` describes. */
  lemma DecidedHead(nodes: Nodes, t: Point -> real, prefix: seq<Decision>)
    requires |prefix| < |nodes|
    ensures Decided(nodes, t, prefix, PairFrom(LiveAt(nodes, prefix), t, |prefix|)[0])
  {
    var i := |prefix|;
    var cur := LiveAt(nodes, prefix);
    if cur[i].Some? {
      var live := cur[i := None];
      var c := FindCloserOnCurve(live, cur[i].value, t);
      if c != -1 {
        assert Candidate(live, t(cur[i].value.point), t, c);
      }
    }
  }

  /** The list after one more decision is `LiveAt` of the longer prefix. */
  lemma NextLiveAt(nodes: Nodes, prefix: seq<Decision>, d: Decision)
    requires |prefix| < |nodes|
    ensures NextLive(LiveAt(nodes, prefix), |prefix|, d) == LiveAt(nodes, prefix + [d])
  {
    var next := prefix + [d];
    forall k | 0 <= k < |nodes|
      ensures NextLive(LiveAt(nodes, prefix), |prefix|, d)[k] == LiveAt(nodes, next)[k]
    {
      if PairedIn(next, k) {
        var m :| 0 <= m < |next| && next[m].Looked? && next[m].partner.Some? && next[m].closest == k;
        if m < |prefix| {
          assert PairedIn(prefix, k);
        }
      }
      if PairedIn(prefix, k) {
        var m :| 0 <= m < |prefix| && prefix[m].Looked? && prefix[m].partner.Some? && prefix[m].closest == k;
        assert next[m] == prefix[m];
      }
      if d.Looked? && d.partner.Some? && d.closest == k {
        assert next[|prefix|] == d;
      }
    }
  }

  /** A pair the loop makes joins two present nodes at positions `i < c`,
      taken from the input unchanged, whose normals do not point the same
      way; the partner's own position is then skipped. */
  lemma PairingPartner(nodes: Nodes, t: Point -> real, i: int)
    requires 0 <= i < |nodes|
    requires Pairing(nodes, t)[i].Looked? && Pairing(nodes, t)[i].partner.Some?
    ensures var ds := Pairing(nodes, t);
      var c := ds[i].closest;
      && i < c < |nodes| && nodes[i].Some? && nodes[c].Some?
      && ds[i].partner.value == (nodes[i].value, nodes[c].value)
      && nodes[c].value.normal * nodes[i].value.normal <= 0
      && ds[c] == Skip
  {
    PairingSpec(nodes, t);
    var ds := Pairing(nodes, t);
    var c := ds[i].closest;
    assert Decided(nodes, t, ds[..i], ds[i]);
    var cur := LiveAt(nodes, ds[..i]);
    var live := cur[i := None];
    assert Candidate(live, t(cur[i].value.point), t, c);
    assert cur[c].Some? && c != i;
    assert ds[..c][i] == ds[i];
    assert PairedIn(ds[..c], c);
    assert Decided(nodes, t, ds[..c], ds[c]);
  }

  /** Two different pairs the loop makes share no position: no node is
      used twice. */
  lemma PairingDisjoint(nodes: Nodes, t: Point -> real, i: int, j: int)
    requires 0 <= i < j < |nodes|
    requires Pairing(nodes, t)[i].Looked? && Pairing(nodes, t)[i].partner.Some?
    requires Pairing(nodes, t)[j].Looked? && Pairing(nodes, t)[j].partner.Some?
    ensures var ds := Pairing(nodes, t);
      ds[i].closest != ds[j].closest && ds[i].closest != j && ds[j].closest != i
  {
    var ds := Pairing(nodes, t);
    PairingPartner(nodes, t, i);
    PairingPartner(nodes, t, j);
    PairingSpec(nodes, t);
    var c := ds[i].closest;
    assert Decided(nodes, t, ds[..j], ds[j]);
    var cur := LiveAt(nodes, ds[..j]);
    assert ds[..j][i] == ds[i];
    assert PairedIn(ds[..j], c);
    assert cur[c].None?;
    assert Candidate(cur[j := None], t(cur[j].value.point), t, ds[j].closest);
  }
}
