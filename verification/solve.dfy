/** The bookkeeping of `web/app/brep/operations/boolean.js`: the
    list-valued maps (`addToListInMap`, `removeFromListInMap`), the per
    half-edge solve data (`EdgeSolveData`) and its clean-up, and the
    point-to-vertex memo of `newVertex`. */
module SolveData {
  import opened Wrappers
  import opened Seqs
  import opened Topo

  // ---------------------------------------------------------------------
  // addToListInMap / removeFromListInMap

  /** `addToListInMap(map, key, value)`: `value` is appended to the list
      under `key`, which is created empty first when missing. */
  function AddToListInMap<K, V>(m: map<K, seq<V>>, k: K, v: V): (r: map<K, seq<V>>)
    ensures r.Keys == m.Keys + {k}
    ensures r[k] == (if k in m then m[k] else []) + [v]
    ensures forall j :: j in m && j != k ==> r[j] == m[j]
  {
    if k in m then m[k := m[k] + [v]] else m[k := [v]]
  }

  /** `list.splice(idx, 1)`: the list without position `idx`. */
  function RemoveAt<V>(s: seq<V>, idx: nat): (r: seq<V>)
    requires idx < |s|
    ensures |r| == |s| - 1
    ensures forall k :: 0 <= k < idx ==> r[k] == s[k]
    ensures forall k :: idx <= k < |r| ==> r[k] == s[k + 1]
  {
    s[..idx] + s[idx + 1..]
  }

  lemma RemoveAtMultiset<V>(s: seq<V>, idx: nat)
    requires idx < |s|
    ensures multiset(RemoveAt(s, idx)) == multiset(s) - multiset{s[idx]}
  {
    assert s == s[..idx] + [s[idx]] + s[idx + 1..];
  }

  /** `removeFromListInMap(map, key, value)`: the first occurrence of
      `value` in the list under `key` is removed; a missing key or value
      leaves the map as it is. */
  function RemoveFromListInMap<K, V(==)>(m: map<K, seq<V>>, k: K, v: V): (r: map<K, seq<V>>)
    ensures r.Keys == m.Keys
    ensures forall j :: j in m && j != k ==> r[j] == m[j]
    ensures k in m && v !in m[k] ==> r[k] == m[k]
    ensures k in m && v in m[k] ==> |r[k]| == |m[k]| - 1 && multiset(r[k]) == multiset(m[k]) - multiset{v}
  {
    if k !in m then m
    else
      var idx := IndexOf(m[k], v);
      if idx == -1 then m
      else
        RemoveAtMultiset(m[k], idx);
        m[k := RemoveAt(m[k], idx)]
  }

  /** Removing what was just added restores the map, except that a key
      that was missing stays behind with an empty list. */
  lemma RemoveAfterAdd<K, V>(m: map<K, seq<V>>, k: K, v: V)
    requires k in m ==> v !in m[k]
    ensures k in m ==> RemoveFromListInMap(AddToListInMap(m, k, v), k, v) == m
    ensures k !in m ==> RemoveFromListInMap(AddToListInMap(m, k, v), k, v) == m[k := []]
  {
    var prev := if k in m then m[k] else [];
    RemoveAppended(m, AddToListInMap(m, k, v), k, v, prev);
  }

  /** The step of `RemoveAfterAdd` once the added list is known. */
  lemma RemoveAppended<K, V>(m: map<K, seq<V>>, a: map<K, seq<V>>, k: K, v: V, prev: seq<V>)
    requires v !in prev && k in a && a[k] == prev + [v]
    requires a.Keys == m.Keys + {k} && forall j :: j in m && j != k ==> a[j] == m[j]
    ensures RemoveFromListInMap(a, k, v) == m[k := prev]
  {
    assert a[k][|prev|] == v;
    assert IndexOf(a[k], v) == |prev|;
    RemoveLast(prev, v);
    var r := RemoveFromListInMap(a, k, v);
    assert r[k] == prev;
    MapExt(r, m[k := prev]);
  }

  lemma RemoveLast<V>(s: seq<V>, v: V)
    ensures RemoveAt(s + [v], |s|) == s
  {
  }

  // ---------------------------------------------------------------------
  // EdgeSolveData

  /** The solve data of a half-edge (`edge.data[MY]`); the algorithm reads
      and writes `newEdgeFlag`. */
  datatype EdgeSolve = EdgeSolve(newEdgeFlag: bool)

  /** `EdgeSolveData.EMPTY`. */
  const EMPTY := EdgeSolve(false)

  /** The solve data of every half-edge that has some. */
  type SolveStore = map<HalfEdgeId, EdgeSolve>

  /** `EdgeSolveData.get(edge)`: the edge's data, or `EMPTY` without. */
  function Get(store: SolveStore, h: HalfEdgeId): (r: EdgeSolve)
    ensures h !in store ==> r == EMPTY
  {
    if h in store then store[h] else EMPTY
  }

  /** `EdgeSolveData.createIfEmpty(edge)`: existing data is kept, missing
      data is created; the data is returned. */
  function CreateIfEmpty(store: SolveStore, h: HalfEdgeId): (r: (SolveStore, EdgeSolve))
    ensures h in r.0 && r.0[h] == r.1 && Get(r.0, h) == r.1
    ensures h in store ==> r.0 == store && r.1 == store[h]
    ensures h !in store ==> r.0 == store[h := EdgeSolve(false)]
  {
    if h in store then (store, store[h]) else (store[h := EdgeSolve(false)], EdgeSolve(false))
  }

  /** Creating twice is creating once. */
  lemma CreateIfEmptyIdempotent(store: SolveStore, h: HalfEdgeId)
    ensures CreateIfEmpty(CreateIfEmpty(store, h).0, h) == CreateIfEmpty(store, h)
  {
  }

  /** `EdgeSolveData.createIfEmpty(edge).newEdgeFlag = true`. */
  function MarkNew(store: SolveStore, h: HalfEdgeId): (r: SolveStore)
    ensures Get(r, h).newEdgeFlag
    ensures forall j :: j != h ==> Get(r, j) == Get(store, j)
  {
    var (s, d) := CreateIfEmpty(store, h);
    s[h := d.(newEdgeFlag := true)]
  }

  /** `EdgeSolveData.clear(edge)`: `delete edge.data[MY]`. */
  function Clear(store: SolveStore, h: HalfEdgeId): (r: SolveStore)
    ensures h !in r && Get(r, h) == EMPTY
    ensures forall j :: j != h ==> (j in r <==> j in store) && Get(r, j) == Get(store, j)
  {
    store - {h}
  }

  /** `EdgeSolveData.transfer(from, to)`: `to` shares `from`'s data (an
      `undefined` copy reads as no data). */
  function Transfer(store: SolveStore, from: HalfEdgeId, to: HalfEdgeId): (r: SolveStore)
    ensures forall j :: j != to ==> (j in r <==> j in store) && Get(r, j) == Get(store, j)
  {
    if from in store then store[to := store[from]] else store - {to}
  }

  /** After a transfer both ends read the same data, and it is what `from`
      had. */
  lemma TransferShares(store: SolveStore, from: HalfEdgeId, to: HalfEdgeId)
    ensures Get(Transfer(store, from, to), to) == Get(store, from)
    ensures Get(Transfer(store, from, to), from) == Get(store, from)
  {
  }

  /** The half-edges of the loops of every face of `fs`. */
  function FacesEdges(ar: Arena, fs: seq<FaceId>): (r: seq<HalfEdgeId>)
    requires forall k :: 0 <= k < |fs| ==> LoopsPresent(ar, fs[k])
    ensures forall h :: h in r <==> exists k :: 0 <= k < |fs| && h in FaceEdges(ar, fs[k])
  {
    if |fs| == 0 then []
    else
      var rest := FacesEdges(ar, fs[1..]);
      forall h | h in rest
        ensures exists k :: 0 <= k < |fs| && h in FaceEdges(ar, fs[k])
      {
        var k :| 0 <= k < |fs[1..]| && h in FaceEdges(ar, fs[1..][k]);
        assert fs[1..][k] == fs[k + 1];
      }
      forall h | exists k :: 0 <= k < |fs| && h in FaceEdges(ar, fs[k])
        ensures h in FaceEdges(ar, fs[0]) || h in rest
      {
        var k :| 0 <= k < |fs| && h in FaceEdges(ar, fs[k]);
        if k > 0 {
          assert fs[1..][k - 1] == fs[k];
        }
      }
      FaceEdges(ar, fs[0]) + rest
  }

  /** `cleanUpSolveData(shell)` over the faces `fs`: each face's
      `data[MY]` is deleted and so is the solve data of every half-edge
      of its loops; nothing else is touched. */
  function CleanUpSolveData<T>(ar: Arena, fs: seq<FaceId>, faceData: map<FaceId, T>, store: SolveStore)
    : (r: (map<FaceId, T>, SolveStore))
    requires forall k :: 0 <= k < |fs| ==> LoopsPresent(ar, fs[k])
    ensures forall f :: f in fs ==> f !in r.0
    ensures forall f :: f !in fs ==> (f in r.0 <==> f in faceData) && (f in faceData ==> r.0[f] == faceData[f])
    ensures forall k, h :: 0 <= k < |fs| && h in FaceEdges(ar, fs[k]) ==> h !in r.1
    ensures forall h :: h !in FacesEdges(ar, fs) ==> (h in r.1 <==> h in store) && Get(r.1, h) == Get(store, h)
  {
    (map f | f in faceData && f !in fs :: faceData[f], ClearAll(store, FacesEdges(ar, fs)))
  }

  /** `EdgeSolveData.clear` on every half-edge of `hs`. */
  function ClearAll(store: SolveStore, hs: seq<HalfEdgeId>): (r: SolveStore)
    ensures forall h :: h in hs ==> h !in r
    ensures forall h :: h !in hs ==> (h in r <==> h in store) && Get(r, h) == Get(store, h)
  {
    if |hs| == 0 then store else Clear(ClearAll(store, hs[1..]), hs[0])
  }

  // ---------------------------------------------------------------------
  // newVertex

  /** A point object, compared by identity as the `Map` key of
      `POINT_TO_VERT` is. */
  type PointRef = int

  /** Every vertex the memo hands out exists. */
  ghost predicate MemoValid(ar: Arena, memo: map<PointRef, VertexId>) {
    forall p :: p in memo ==> memo[p] in ar.points
  }

  /** `newVertex(point)`: the vertex already made for this point object,
      or a new vertex at `coords` that is remembered for it. */
  function NewVertexMemo(ar: Arena, memo: map<PointRef, VertexId>, p: PointRef, coords: Point)
    : (r: (Arena, map<PointRef, VertexId>, VertexId))
    requires Bounded(ar) && MemoValid(ar, memo)
    ensures var (ar', memo', v) := r;
      && Bounded(ar') && MemoValid(ar', memo') && p in memo' && memo'[p] == v && v in ar'.points
      && (p in memo ==> ar' == ar && memo' == memo)
      && (p !in memo ==>
            (&& v !in ar.points && ar'.points == ar.points[v := coords] && memo' == memo[p := v]
             && ar'.halfEdges == ar.halfEdges && ar'.edges == ar.edges && ar'.loops == ar.loops
             && ar'.faces == ar.faces && ar'.shells == ar.shells))
  {
    if p in memo then (ar, memo, memo[p])
    else
      var (ar', v) := NewVertex(ar, coords);
      (ar', memo[p := v], v)
  }

  /** Asking again for the same point object returns the same vertex and
      creates nothing: each point gets its vertex at most once. */
  lemma NewVertexMemoStable(ar: Arena, memo: map<PointRef, VertexId>, p: PointRef, coords: Point, coords2: Point)
    requires Bounded(ar) && MemoValid(ar, memo)
    ensures var (ar', memo', v) := NewVertexMemo(ar, memo, p, coords);
      NewVertexMemo(ar', memo', p, coords2) == (ar', memo', v)
  {
  }
}
