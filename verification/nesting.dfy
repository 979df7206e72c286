/** `getNestedLoops` and `loopsToFaces` of `web/app/hds/boolean.js`: the
    loops a face is cut into are ordered by containment, and every loop
    that is not a hole of an enclosing loop becomes the outer loop of a new
    face. The geometric tests `contains(loop, other)` (every polygon point
    of `other` is inside `loop`) and `loop.isCCW(surface)` are parameters;
    so is `Surface.invert`. */
module Nesting {
  import opened Wrappers
  import opened Seqs
  import opened Topo

  /** `new NestedLoop(loop)` once `getNestedLoops` has filled it in: the
      loops it contains, as indices into the table in index order, and the
      number of other loops containing it. */
  datatype NestedLoop = NestedLoop(loop: LoopId, nesting: seq<nat>, level: nat)

  /** `contains(loop, other)`. */
  type Contains = (LoopId, LoopId) -> bool

  /** Loop `i` contains the different loop `j`. */
  predicate Inside(loops: seq<LoopId>, contains: Contains, i: nat, j: nat)
    requires i < |loops| && j < |loops|
  {
    i != j && contains(loops[i], loops[j])
  }

  predicate Increasing(s: seq<nat>) {
    forall a, b :: 0 <= a < b < |s| ==> s[a] < s[b]
  }

  /** The loops among the first `m` that loop `i` contains, in index order. */
  function Containees(loops: seq<LoopId>, contains: Contains, i: nat, m: nat): (r: seq<nat>)
    requires i < |loops| && m <= |loops|
    ensures forall k :: 0 <= k < |r| ==> r[k] < m
    decreases m
  {
    if m == 0 then []
    else
      var r := Containees(loops, contains, i, m - 1);
      if Inside(loops, contains, i, m - 1) then r + [m - 1] else r
  }

  /** Loop `j` is listed exactly when it is among the first `m` and loop
      `i` contains it. */
  lemma {:induction false} ContaineesIff(loops: seq<LoopId>, contains: Contains, i: nat, m: nat, j: nat)
    requires i < |loops| && m <= |loops|
    ensures j in Containees(loops, contains, i, m) <==> j < m && Inside(loops, contains, i, j)
    decreases m
  {
    if m > 0 {
      ContaineesIff(loops, contains, i, m - 1, j);
    }
  }

  /** The listed loops come in index order, each once. */
  lemma {:induction false} ContaineesIncreasing(loops: seq<LoopId>, contains: Contains, i: nat, m: nat)
    requires i < |loops| && m <= |loops|
    ensures Increasing(Containees(loops, contains, i, m))
    decreases m
  {
    if m > 0 {
      ContaineesIncreasing(loops, contains, i, m - 1);
    }
  }

  /** How many of the first `m` loops contain loop `j`. */
  function Containers(loops: seq<LoopId>, contains: Contains, j: nat, m: nat): (r: nat)
    requires j < |loops| && m <= |loops|
    ensures r <= m && (j < m ==> r < m)
    decreases m
  {
    if m == 0 then 0
    else Containers(loops, contains, j, m - 1) + (if Inside(loops, contains, m - 1, j) then 1 else 0)
  }

  /** The entry `getNestedLoops` fills in for loop `k`. */
  function Entry(loops: seq<LoopId>, contains: Contains, k: nat): NestedLoop
    requires k < |loops|
  {
    NestedLoop(loops[k], Containees(loops, contains, k, |loops|), Containers(loops, contains, k, |loops|))
  }

  /** No loop among the first `m` contains loop `j` exactly when the count
      is zero. */
  lemma {:induction false} ContainersZero(loops: seq<LoopId>, contains: Contains, j: nat, m: nat)
    requires j < |loops| && m <= |loops|
    ensures Containers(loops, contains, j, m) == 0 <==> forall i :: 0 <= i < m ==> !Inside(loops, contains, i, j)
    decreases m
  {
    if m > 0 {
      ContainersZero(loops, contains, j, m - 1);
    }
  }

  /** The table `getNestedLoops` fills in, one entry per loop. */
  function NestAll(loops: seq<LoopId>, contains: Contains): (r: seq<NestedLoop>)
    ensures |r| == |loops|
    ensures forall k :: 0 <= k < |r| ==> r[k].loop == loops[k]
  {
    seq(|loops|, k requires 0 <= k < |loops| => Entry(loops, contains, k))
  }

  lemma NestAllAt(loops: seq<LoopId>, contains: Contains, k: nat)
    requires k < |loops|
    ensures NestAll(loops, contains)[k] == Entry(loops, contains, k)
  {
  }

  /** Loop `j` is listed in loop `i`'s nesting exactly when `i` contains it. */
  lemma NestingIff(loops: seq<LoopId>, contains: Contains, i: nat, j: nat)
    requires i < |loops| && j < |loops|
    ensures j in NestAll(loops, contains)[i].nesting <==> Inside(loops, contains, i, j)
  {
    NestAllAt(loops, contains, i);
    ContaineesIff(loops, contains, i, |loops|, j);
  }

  /** Both halves of every entry, stated as `getNestedLoops` promises them. */
  lemma NestAllFacts(loops: seq<LoopId>, contains: Contains)
    ensures forall i, j :: 0 <= i < |loops| && 0 <= j < |loops| ==>
      (j in NestAll(loops, contains)[i].nesting <==> Inside(loops, contains, i, j))
    ensures forall j :: 0 <= j < |loops| ==>
      (NestAll(loops, contains)[j].level == 0 <==> forall i :: 0 <= i < |loops| ==> !Inside(loops, contains, i, j))
  {
    forall i, j | 0 <= i < |loops| && 0 <= j < |loops|
      ensures j in NestAll(loops, contains)[i].nesting <==> Inside(loops, contains, i, j)
    {
      NestingIff(loops, contains, i, j);
    }
    forall j | 0 <= j < |loops|
      ensures NestAll(loops, contains)[j].level == 0 <==> forall i :: 0 <= i < |loops| ==> !Inside(loops, contains, i, j)
    {
      NestAllAt(loops, contains, j);
      ContainersZero(loops, contains, j, |loops|);
    }
  }

  /** `loops.filter(l => l.level == 0)`, as indices into the table. */
  function Roots(table: seq<NestedLoop>, m: nat): (r: seq<nat>)
    requires m <= |table|
    ensures forall k: nat :: k in r <==> k < m && table[k].level == 0
    ensures forall a :: 0 <= a < |r| ==> r[a] < m
    ensures Increasing(r)
    decreases m
  {
    if m == 0 then []
    else
      var r := Roots(table, m - 1);
      if table[m - 1].level == 0 then r + [m - 1] else r
  }

  lemma ContaineesNext(loops: seq<LoopId>, contains: Contains, i: nat, m: nat)
    requires i < |loops| && m < |loops|
    ensures Containees(loops, contains, i, m + 1) ==
      Containees(loops, contains, i, m) + (if Inside(loops, contains, i, m) then [m] else [])
  {
  }

  lemma ContainersNext(loops: seq<LoopId>, contains: Contains, j: nat, m: nat)
    requires j < |loops| && m < |loops|
    ensures Containers(loops, contains, j, m + 1) ==
      Containers(loops, contains, j, m) + (if Inside(loops, contains, m, j) then 1 else 0)
  {
  }

  /** One pass of the outer loop of `getNestedLoops`: loop `i` is compared
      against every loop `j`; each one it contains is appended to its
      nesting and has its level raised. */
  method VisitRow(loops: seq<LoopId>, contains: Contains, i: nat, t0: seq<NestedLoop>) returns (table: seq<NestedLoop>)
    requires i < |loops| && |t0| == |loops|
    requires forall k :: 0 <= k < |loops| ==> t0[k].loop == loops[k]
    requires t0[i].nesting == []
    requires forall k :: 0 <= k < |loops| ==> t0[k].level == Containers(loops, contains, k, i)
    ensures |table| == |loops|
    ensures forall k :: 0 <= k < |loops| ==> table[k].loop == loops[k]
    ensures forall k :: 0 <= k < |loops| && k != i ==> table[k].nesting == t0[k].nesting
    ensures table[i].nesting == Containees(loops, contains, i, |loops|)
    ensures forall k :: 0 <= k < |loops| ==> table[k].level == Containers(loops, contains, k, i + 1)
  {
    var n := |loops|;
    table := t0;
    var j := 0;
    while j < n
      invariant 0 <= j <= n && |table| == n
      invariant forall k :: 0 <= k < n ==> table[k].loop == loops[k]
      invariant forall k :: 0 <= k < n && k != i ==> table[k].nesting == t0[k].nesting
      invariant table[i].nesting == Containees(loops, contains, i, j)
      invariant forall k :: 0 <= k < j ==> table[k].level == Containers(loops, contains, k, i + 1)
      invariant forall k :: j <= k < n ==> table[k].level == Containers(loops, contains, k, i)
    {
      ContaineesNext(loops, contains, i, j);
      ContainersNext(loops, contains, j, i);
      if Inside(loops, contains, i, j) {
        table := table[i := table[i].(nesting := table[i].nesting + [j])];
        table := table[j := table[j].(level := table[j].level + 1)];
      }
      j := j + 1;
    }
  }

  /** A table whose every entry has the declared contents is the declared
      table. */
  lemma TableIsNestAll(loops: seq<LoopId>, contains: Contains, table: seq<NestedLoop>)
    requires |table| == |loops|
    requires forall k :: 0 <= k < |loops| ==> table[k].loop == loops[k]
    requires forall k :: 0 <= k < |loops| ==> table[k].nesting == Containees(loops, contains, k, |loops|)
    requires forall k :: 0 <= k < |loops| ==> table[k].level == Containers(loops, contains, k, |loops|)
    ensures table == NestAll(loops, contains)
  {
    forall k | 0 <= k < |loops| ensures table[k] == NestAll(loops, contains)[k] {
      NestAllAt(loops, contains, k);
    }
  }

  /** `getNestedLoops(face, loops)`: for every ordered pair of different
      loops where the first contains the second, record the second in the
      first's `nesting` and raise the second's `level`; return the loops no
      other loop contains, in their original order. */
  method GetNestedLoops(loops: seq<LoopId>, contains: Contains) returns (table: seq<NestedLoop>, roots: seq<nat>)
    ensures table == NestAll(loops, contains)
    ensures forall k: nat :: k in roots <==> k < |loops| && table[k].level == 0
    ensures Increasing(roots)
  {
    var n := |loops|;
    table := seq(n, k requires 0 <= k < n => NestedLoop(loops[k], [], 0));
    var i := 0;
    while i < n
      invariant 0 <= i <= n && |table| == n
      invariant forall k :: 0 <= k < n ==> table[k].loop == loops[k]
      invariant forall k :: 0 <= k < i ==> table[k].nesting == Containees(loops, contains, k, n)
      invariant forall k :: i <= k < n ==> table[k].nesting == []
      invariant forall k :: 0 <= k < n ==> table[k].level == Containers(loops, contains, k, i)
    {
      table := VisitRow(loops, contains, i, table);
      i := i + 1;
    }
    TableIsNestAll(loops, contains, table);
    NestAllFacts(loops, contains);
    roots := Roots(table, n);
  }

  /** How many of the first `m` entries list loop `j` in their `nesting`. */
  function Listing(table: seq<NestedLoop>, j: nat, m: nat): nat
    requires m <= |table|
  {
    if m == 0 then 0 else Listing(table, j, m - 1) + (if j in table[m - 1].nesting then 1 else 0)
  }

  /** The two halves of the table agree: a loop's `level` is the number of
      entries whose `nesting` lists it. */
  lemma {:induction false} LevelCountsNesting(loops: seq<LoopId>, contains: Contains, j: nat, m: nat)
    requires j < |loops| && m <= |loops|
    ensures Listing(NestAll(loops, contains), j, m) == Containers(loops, contains, j, m)
    decreases m
  {
    if m > 0 {
      LevelCountsNesting(loops, contains, j, m - 1);
      NestingIff(loops, contains, m - 1, j);
    }
  }

  // ---------------------------------------------------------------------
  // loopsToFaces

  /** The closure state of `invertSurface`: the cached inverted surface and
      how many times `invert()` was called to make it. */
  datatype Cache = Cache(inverted: Option<Surface>, made: nat)

  /** What `loopsToFaces` fixes for the whole call: the origin face's
      surface and data, the loops handed in, the orientation test and
      `Surface.invert`. */
  datatype Ctx = Ctx(originSurface: Surface, data: FaceData, loops: seq<LoopId>,
                     ccw: (LoopId, Surface) -> bool, inv: Surface -> Surface)

  /** The cache holds nothing yet, or the one inverted origin surface. */
  predicate CacheOk(ctx: Ctx, c: Cache) {
    || (c.inverted.None? && c.made == 0)
    || (c.inverted == Some(ctx.inv(ctx.originSurface)) && c.made == 1)
  }

  /** One of the two surfaces a new face may get. */
  predicate SurfaceOk(ctx: Ctx, s: Surface) {
    s == ctx.originSurface || s == ctx.inv(ctx.originSurface)
  }

  /** `invertSurface(surface)`: the origin surface goes to its inverted
      instance, made on first use and cached; any other surface goes back to
      the origin. */
  function InvertSurface(ctx: Ctx, c: Cache, s: Surface): (r: (Surface, Cache))
    requires CacheOk(ctx, c)
    ensures CacheOk(ctx, r.1) && SurfaceOk(ctx, r.0)
    ensures s == ctx.originSurface ==> r.0 == ctx.inv(ctx.originSurface) && r.1.inverted == Some(r.0)
    ensures s != ctx.originSurface ==> r == (ctx.originSurface, c)
    ensures c.inverted.Some? ==> r.1 == c
  {
    if s == ctx.originSurface then
      match c.inverted
      case None =>
        var t := ctx.inv(ctx.originSurface);
        (t, Cache(Some(t), c.made + 1))
      case Some(t) => (t, c)
    else (ctx.originSurface, c)
  }

  /** However often it is asked, `invertSurface` calls `invert()` at most
      once and always hands out the same inverted instance. */
  lemma InvertSurfaceCached(ctx: Ctx, c: Cache, s1: Surface, s2: Surface)
    requires CacheOk(ctx, c)
    ensures var (t1, c1) := InvertSurface(ctx, c, s1);
      var (t2, c2) := InvertSurface(ctx, c1, s2);
      && c2.made <= 1
      && (s1 == ctx.originSurface && s2 == ctx.originSurface ==> t1 == t2)
      && (s1 == ctx.originSurface && s2 == ctx.originSurface ==> c2 == c1)
  {
  }

  /** The mutable state `createFaces` threads: the arena, the `out` array
      and the `invertSurface` cache. */
  datatype Build = Build(ar: Arena, out: seq<FaceId>, cache: Cache)

  /** Every loop handed to `loopsToFaces` exists. */
  ghost predicate LoopsIn(ar: Arena, loops: seq<LoopId>) {
    forall k :: 0 <= k < |loops| ==> loops[k] in ar.loops
  }

  /** The table is one `getNestedLoops` could return over the loops of the
      call: an entry per loop, in order, indices in range and levels below
      the number of loops. */
  ghost predicate TableOk(ctx: Ctx, table: seq<NestedLoop>) {
    && |table| == |ctx.loops|
    && (forall k :: 0 <= k < |table| ==> table[k].loop == ctx.loops[k] && table[k].level < |table|)
    && (forall k, p :: 0 <= k < |table| && 0 <= p < |table[k].nesting| ==> table[k].nesting[p] < |table|)
  }

  /** A face `createFaces` made: the origin's data, no shell, one of the
      call's loops as outer loop and only such loops as inner loops, and the
      origin surface or its inverse. */
  ghost predicate Made(ctx: Ctx, f: Face) {
    && f.data == ctx.data && f.shell.None? && f.env2d.None?
    && f.outerLoop.Some? && f.outerLoop.value in ctx.loops
    && (forall m :: m in f.innerLoops ==> m in ctx.loops)
    && SurfaceOk(ctx, f.surface)
  }

  /** `b` is `a` with at most some of the call's loops added as inner loops. */
  ghost predicate FaceKept(ctx: Ctx, a: Face, b: Face) {
    && b == a.(innerLoops := b.innerLoops)
    && (forall m :: m in b.innerLoops ==> m in a.innerLoops || m in ctx.loops)
  }

  /** What every stretch of `createFaces` work does to the state: it only
      allocates faces (and their unused empty loops), appends the new faces
      to `out` in creation order, adds the call's loops as inner loops,
      re-points the call's loops at faces, and keeps the cache well formed. */
  ghost predicate Step(ctx: Ctx, st: Build, r: Build) {
    && Bounded(r.ar)
    && st.ar.faces.Keys <= r.ar.faces.Keys && st.ar.loops.Keys <= r.ar.loops.Keys
    && r.ar.halfEdges == st.ar.halfEdges && r.ar.edges == st.ar.edges
    && r.ar.points == st.ar.points && r.ar.shells == st.ar.shells
    && |st.out| <= |r.out| && r.out[..|st.out|] == st.out
    && (forall k :: |st.out| <= k < |r.out| ==>
          r.out[k] !in st.ar.faces && r.out[k] in r.ar.faces && Made(ctx, r.ar.faces[r.out[k]]))
    && (forall a, b :: |st.out| <= a < b < |r.out| ==> r.out[a] != r.out[b])
    && (forall g :: g in st.ar.faces ==> FaceKept(ctx, st.ar.faces[g], r.ar.faces[g]))
    && (forall l :: l in st.ar.loops ==>
          r.ar.loops[l].halfEdges == st.ar.loops[l].halfEdges
          && (r.ar.loops[l] != st.ar.loops[l] ==> l in ctx.loops))
    && CacheOk(ctx, r.cache)
  }

  lemma StepRefl(ctx: Ctx, st: Build)
    requires Bounded(st.ar) && CacheOk(ctx, st.cache)
    ensures Step(ctx, st, st)
  {
    assert st.out[..|st.out|] == st.out;
  }

  lemma StepTrans(ctx: Ctx, a: Build, b: Build, c: Build)
    requires Step(ctx, a, b) && Step(ctx, b, c)
    ensures Step(ctx, a, c)
  {
    assert c.out[..|a.out|] == c.out[..|b.out|][..|a.out|];
    forall k | |a.out| <= k < |c.out|
      ensures c.out[k] !in a.ar.faces && c.out[k] in c.ar.faces && Made(ctx, c.ar.faces[c.out[k]])
    {
      if k < |b.out| {
        assert c.out[k] == c.out[..|b.out|][k];
      }
    }
    forall x, y | |a.out| <= x < y < |c.out| ensures c.out[x] != c.out[y] {
      if y < |b.out| {
        assert c.out[x] == c.out[..|b.out|][x] && c.out[y] == c.out[..|b.out|][y];
      } else if x < |b.out| {
        assert c.out[x] == c.out[..|b.out|][x];
      }
    }
  }

  /** Lines 245-256, for the child at position `p` of entry `i` when the
      face's surface is `s`: one level down and not counter-clockwise, it
      is a hole of the face. */
  function HoleAt(ctx: Ctx, table: seq<NestedLoop>, i: nat, p: nat, s: Surface): seq<LoopId>
    requires TableOk(ctx, table) && i < |table| && p < |table[i].nesting|
  {
    var c := table[table[i].nesting[p]];
    if c.level == table[i].level + 1 && !ctx.ccw(c.loop, s) then [c.loop] else []
  }

  /** The holes among the children of entry `i` from position `p` on, in
      order. */
  function Holes(ctx: Ctx, table: seq<NestedLoop>, i: nat, p: nat, s: Surface): seq<LoopId>
    requires TableOk(ctx, table) && i < |table| && p <= |table[i].nesting|
    decreases |table[i].nesting| - p
  {
    if p == |table[i].nesting| then [] else HoleAt(ctx, table, i, p, s) + Holes(ctx, table, i, p + 1, s)
  }

  /** Lines 234-236 with `invertSurface` spelled out: the surface the face
      of loop `l` gets when `createFaces` is handed `s`. */
  function Turned(ctx: Ctx, l: LoopId, s: Surface): Surface {
    if ctx.ccw(l, s) then s
    else if s == ctx.originSurface then ctx.inv(ctx.originSurface)
    else ctx.originSurface
  }

  /** A face seen from outside: outer loop, surface and inner loops. */
  datatype Shape = Shape(outer: Option<LoopId>, surface: Surface, inner: seq<LoopId>)

  /** The shapes of the faces `fs`, in order. */
  ghost function Shapes(ar: Arena, fs: seq<FaceId>): seq<Shape>
    requires forall k :: 0 <= k < |fs| ==> fs[k] in ar.faces
    decreases |fs|
  {
    if fs == [] then []
    else
      var x := ar.faces[fs[0]];
      [Shape(x.outerLoop, x.surface, x.innerLoops)] + Shapes(ar, fs[1..])
  }

  /** The faces `createFaces` builds for entry `idx` when handed surface
      `s`, in creation order: first the entry's own face, with its loop
      outside, the turned surface, and its holes inside; then the faces of
      the children that start faces of their own. */
  function Plan(ctx: Ctx, table: seq<NestedLoop>, idx: nat, s: Surface, level: nat): seq<Shape>
    requires TableOk(ctx, table) && idx < |table| && table[idx].level == level
    decreases |table| - level, |table[idx].nesting| + 1, 0
  {
    var l := table[idx].loop;
    var t := Turned(ctx, l, s);
    [Shape(Some(l), t, Holes(ctx, table, idx, 0, t))] + PlanChildren(ctx, table, idx, 0, t, level)
  }

  /** The faces the child at position `pos` starts: those of its own
      entry when it lies two levels down, or one level down and
      counter-clockwise; none when it is a hole or lies deeper. */
  function PlanChild(ctx: Ctx, table: seq<NestedLoop>, idx: nat, pos: nat, s: Surface, level: nat): seq<Shape>
    requires TableOk(ctx, table) && idx < |table| && table[idx].level == level && pos < |table[idx].nesting|
    decreases |table| - level, |table[idx].nesting| - pos, 0
  {
    var c := table[idx].nesting[pos];
    if table[c].level == level + 2 || (table[c].level == level + 1 && ctx.ccw(table[c].loop, s))
    then Plan(ctx, table, c, s, table[c].level)
    else []
  }

  function PlanChildren(ctx: Ctx, table: seq<NestedLoop>, idx: nat, pos: nat, s: Surface, level: nat): seq<Shape>
    requires TableOk(ctx, table) && idx < |table| && table[idx].level == level && pos <= |table[idx].nesting|
    decreases |table| - level, |table[idx].nesting| - pos, 1
  {
    if pos == |table[idx].nesting| then []
    else PlanChild(ctx, table, idx, pos, s, level) + PlanChildren(ctx, table, idx, pos + 1, s, level)
  }

  /** The faces of the level-0 entries of `roots` from position `i` on,
      each handed the origin surface. */
  function PlanRoots(ctx: Ctx, table: seq<NestedLoop>, roots: seq<nat>, i: nat): seq<Shape>
    requires TableOk(ctx, table) && i <= |roots|
    requires forall k :: 0 <= k < |roots| ==> roots[k] < |table|
    decreases |roots| - i
  {
    if i == |roots| then []
    else
      (if table[roots[i]].level == 0 then Plan(ctx, table, roots[i], ctx.originSurface, 0) else [])
      + PlanRoots(ctx, table, roots, i + 1)
  }

  /** Loop `m` points at a face outside `prior` that holds `m` as its outer
      loop or as an inner loop. */
  ghost predicate Holds(prior: set<FaceId>, ar: Arena, m: LoopId) {
    && m in ar.loops && ar.loops[m].face.Some?
    && var h := ar.loops[m].face.value;
      && h !in prior && h in ar.faces
      && (ar.faces[h].outerLoop == Some(m) || m in ar.faces[h].innerLoops)
  }

  /** Every loop of face `g` is held. */
  ghost predicate FaceHeld(prior: set<FaceId>, ar: Arena, g: FaceId) {
    && g in ar.faces
    && (ar.faces[g].outerLoop.Some? ==> Holds(prior, ar, ar.faces[g].outerLoop.value))
    && (forall m :: m in ar.faces[g].innerLoops ==> Holds(prior, ar, m))
  }

  ghost predicate AllHeld(prior: set<FaceId>, ar: Arena, fs: seq<FaceId>) {
    forall k :: 0 <= k < |fs| ==> FaceHeld(prior, ar, fs[k])
  }

  /** Every loop whose record changed from `a` to `b` is held. */
  ghost predicate Repointed(prior: set<FaceId>, a: Arena, b: Arena) {
    forall m :: m in a.loops && m in b.loops && b.loops[m] != a.loops[m] ==> Holds(prior, b, m)
  }

  /** Faces stay and only gain inner loops. */
  ghost predicate FacesGrow(a: Arena, b: Arena) {
    forall h :: h in a.faces ==>
      && h in b.faces && b.faces[h] == a.faces[h].(innerLoops := b.faces[h].innerLoops)
      && (forall m :: m in a.faces[h].innerLoops ==> m in b.faces[h].innerLoops)
  }

  /** The few facts about a stretch of `createFaces` work that the plan
      proofs read: nothing is dropped, faces only gain inner loops, and the
      faces appended to `out` are new. */
  ghost predicate Grows(a: Build, b: Build) {
    && a.ar.faces.Keys <= b.ar.faces.Keys && a.ar.loops.Keys <= b.ar.loops.Keys
    && |a.out| <= |b.out| && b.out[..|a.out|] == a.out
    && (forall k :: |a.out| <= k < |b.out| ==> b.out[k] in b.ar.faces && b.out[k] !in a.ar.faces)
    && FacesGrow(a.ar, b.ar)
  }

  lemma {:induction false} ShapesConcat(ar: Arena, a: seq<FaceId>, b: seq<FaceId>)
    requires forall k :: 0 <= k < |a| ==> a[k] in ar.faces
    requires forall k :: 0 <= k < |b| ==> b[k] in ar.faces
    ensures forall k :: 0 <= k < |a + b| ==> (a + b)[k] in ar.faces
    ensures Shapes(ar, a + b) == Shapes(ar, a) + Shapes(ar, b)
    decreases |a|
  {
    if a == [] {
      assert a + b == b;
    } else {
      assert (a + b)[0] == a[0];
      assert (a + b)[1..] == a[1..] + b;
      ShapesConcat(ar, a[1..], b);
    }
  }

  lemma {:induction false} ShapesFrame(a: Arena, b: Arena, fs: seq<FaceId>)
    requires forall k :: 0 <= k < |fs| ==> fs[k] in a.faces && fs[k] in b.faces && b.faces[fs[k]] == a.faces[fs[k]]
    ensures Shapes(a, fs) == Shapes(b, fs)
    decreases |fs|
  {
    if fs != [] {
      ShapesFrame(a, b, fs[1..]);
    }
  }

  lemma SliceSplit<T>(a: seq<T>, b: seq<T>, c: seq<T>)
    requires |a| <= |b| <= |c| && b[..|a|] == a && c[..|b|] == b
    ensures c[|a|..] == b[|a|..] + c[|b|..]
  {
  }

  lemma HoldsKeep(prior: set<FaceId>, a: Arena, b: Arena, m: LoopId)
    requires Holds(prior, a, m) && FacesGrow(a, b) && Repointed(prior, a, b) && a.loops.Keys <= b.loops.Keys
    ensures Holds(prior, b, m)
  {
  }

  lemma AllHeldKeep(prior: set<FaceId>, a: Arena, b: Arena, fs: seq<FaceId>)
    requires AllHeld(prior, a, fs) && FacesGrow(a, b) && Repointed(prior, a, b) && a.loops.Keys <= b.loops.Keys
    requires forall k :: 0 <= k < |fs| ==> fs[k] in a.faces && b.faces[fs[k]] == a.faces[fs[k]]
    ensures AllHeld(prior, b, fs)
  {
    forall k | 0 <= k < |fs| ensures FaceHeld(prior, b, fs[k]) {
      var x := a.faces[fs[k]];
      if x.outerLoop.Some? {
        HoldsKeep(prior, a, b, x.outerLoop.value);
      }
      forall m | m in x.innerLoops ensures Holds(prior, b, m) {
        HoldsKeep(prior, a, b, m);
      }
    }
  }

  lemma RepointedTrans(prior: set<FaceId>, a: Arena, b: Arena, c: Arena)
    requires Repointed(prior, a, b) && Repointed(prior, b, c) && FacesGrow(b, c)
    requires a.loops.Keys <= b.loops.Keys <= c.loops.Keys
    ensures Repointed(prior, a, c)
  {
    forall m | m in a.loops && m in c.loops && c.loops[m] != a.loops[m] ensures Holds(prior, c, m) {
      if b.loops[m] != a.loops[m] {
        HoldsKeep(prior, b, c, m);
      }
    }
  }

  /** Fewer prior faces: whatever is held stays held. */
  lemma HeldWeaken(old0: set<FaceId>, old1: set<FaceId>, a: Arena, b: Arena, fs: seq<FaceId>)
    requires old0 <= old1 && Repointed(old1, a, b) && AllHeld(old1, b, fs)
    ensures Repointed(old0, a, b) && AllHeld(old0, b, fs)
  {
  }

  /** A step that touches at most face `f` among the existing faces, and
      only adds inner loops to it, grows the state. */
  lemma StepGrow(ctx: Ctx, st: Build, r: Build, f: FaceId)
    requires Step(ctx, st, r)
    requires forall g :: g in st.ar.faces && g != f ==> r.ar.faces[g] == st.ar.faces[g]
    requires f in st.ar.faces ==> forall m :: m in st.ar.faces[f].innerLoops ==> m in r.ar.faces[f].innerLoops
    ensures Grows(st, r)
  {
  }

  lemma StepGrowAll(ctx: Ctx, st: Build, r: Build)
    requires Step(ctx, st, r)
    requires forall g :: g in st.ar.faces ==> r.ar.faces[g] == st.ar.faces[g]
    ensures Grows(st, r)
  {
  }

  /** Lines 238-242: `new Face(surface)`, the origin's data copied in, the
      loop made its outer loop and pointed back at it, the face pushed to
      `out`; `cache` is the `invertSurface` state after the surface was
      chosen. */
  function PlaceFace(ctx: Ctx, st: Build, l: LoopId, s: Surface, cache: Cache): (r: (Build, FaceId))
    requires Bounded(st.ar) && l in st.ar.loops && l in ctx.loops && SurfaceOk(ctx, s) && CacheOk(ctx, cache)
    ensures var (b, f) := r;
      && Step(ctx, st, b)
      && f !in st.ar.faces && f in b.ar.faces && b.out == st.out + [f] && b.cache == cache
      && b.ar.faces[f] == Face(s, None, Some(l), [], ctx.data, None)
      && b.ar.loops[l].face == Some(f)
      && (forall g :: g in st.ar.faces ==> b.ar.faces[g] == st.ar.faces[g])
      && (forall m :: m in st.ar.loops && m != l ==> b.ar.loops[m] == st.ar.loops[m])
      && b.ar.faces.Keys == st.ar.faces.Keys + {f}
  {
    var (ar1, f) := NewFace(st.ar, s);
    var ar2 := ar1.(faces := ar1.faces[f := Face(s, None, Some(l), [], ctx.data, None)],
                    loops := ar1.loops[l := ar1.loops[l].(face := Some(f))]);
    var b := Build(ar2, st.out + [f], cache);
    assert Bounded(b.ar);
    PlacedStep(ctx, st, b, f, l);
    (b, f)
  }

  /** A state that differs from `st` by one new face made for the call,
      appended to `out`, and by the face of the call's loop `l`, is one
      `Step` on. */
  lemma PlacedStep(ctx: Ctx, st: Build, b: Build, f: FaceId, l: LoopId)
    requires Bounded(b.ar) && CacheOk(ctx, b.cache) && l in ctx.loops
    requires f !in st.ar.faces && f in b.ar.faces && Made(ctx, b.ar.faces[f]) && b.out == st.out + [f]
    requires st.ar.faces.Keys <= b.ar.faces.Keys && st.ar.loops.Keys <= b.ar.loops.Keys
    requires b.ar.halfEdges == st.ar.halfEdges && b.ar.edges == st.ar.edges
    requires b.ar.points == st.ar.points && b.ar.shells == st.ar.shells
    requires forall g :: g in st.ar.faces ==> b.ar.faces[g] == st.ar.faces[g]
    requires forall m :: m in st.ar.loops && m != l ==> b.ar.loops[m] == st.ar.loops[m]
    requires l in st.ar.loops ==> b.ar.loops[l].halfEdges == st.ar.loops[l].halfEdges
    ensures Step(ctx, st, b)
  {
    assert b.out[..|st.out|] == st.out;
  }

  /** Lines 249-250: the child loop is pointed at the face and appended to
      its inner loops. */
  function AddInner(st: Build, f: FaceId, l: LoopId): (r: Build)
    requires f in st.ar.faces && l in st.ar.loops
    ensures r.out == st.out && r.cache == st.cache
    ensures r.ar.faces.Keys == st.ar.faces.Keys && r.ar.loops.Keys == st.ar.loops.Keys
    ensures r.ar.faces[f] == st.ar.faces[f].(innerLoops := st.ar.faces[f].innerLoops + [l])
    ensures r.ar.loops[l] == st.ar.loops[l].(face := Some(f))
    ensures forall g :: g in st.ar.faces && g != f ==> r.ar.faces[g] == st.ar.faces[g]
    ensures forall m :: m in st.ar.loops && m != l ==> r.ar.loops[m] == st.ar.loops[m]
    ensures r.ar.halfEdges == st.ar.halfEdges && r.ar.edges == st.ar.edges && r.ar.points == st.ar.points
    ensures r.ar.shells == st.ar.shells && r.ar.nextHandle == st.ar.nextHandle
  {
    var x := st.ar.faces[f];
    st.(ar := st.ar.(faces := st.ar.faces[f := x.(innerLoops := x.innerLoops + [l])],
                     loops := st.ar.loops[l := st.ar.loops[l].(face := Some(f))]))
  }

  lemma AddInnerStep(ctx: Ctx, st: Build, f: FaceId, l: LoopId)
    requires f in st.ar.faces && l in st.ar.loops && l in ctx.loops && Bounded(st.ar) && CacheOk(ctx, st.cache)
    ensures Step(ctx, st, AddInner(st, f, l))
  {
    assert AddInner(st, f, l).out[..|st.out|] == st.out;
  }

  /** Everything a `createFaces` call may assume. */
  ghost predicate Ready(ctx: Ctx, table: seq<NestedLoop>, st: Build) {
    Bounded(st.ar) && TableOk(ctx, table) && LoopsIn(st.ar, ctx.loops) && CacheOk(ctx, st.cache)
  }

  lemma ReadyAfter(ctx: Ctx, table: seq<NestedLoop>, st: Build, r: Build)
    requires Ready(ctx, table, st) && Step(ctx, st, r)
    ensures Ready(ctx, table, r)
  {
  }

  /** Lines 234-236: the surface `createFaces` picks is the turned one. */
  lemma PickedIsTurned(ctx: Ctx, c: Cache, l: LoopId, s: Surface)
    requires CacheOk(ctx, c)
    ensures (if !ctx.ccw(l, s) then InvertSurface(ctx, c, s) else (s, c)).0 == Turned(ctx, l, s)
  {
  }

  /** A new face followed by work that leaves it in place: the whole is a
      step that touches no face that existed, and the first face it adds
      has outer loop `l`. */
  lemma FaceThenChildren(ctx: Ctx, st: Build, st1: Build, r: Build, f: FaceId, l: LoopId)
    requires Step(ctx, st, st1) && Step(ctx, st1, r)
    requires f !in st.ar.faces && st1.out == st.out + [f] && f in st1.ar.faces && st1.ar.faces[f].outerLoop == Some(l)
    requires forall g :: g in st.ar.faces ==> st1.ar.faces[g] == st.ar.faces[g]
    requires forall g :: g in st1.ar.faces && g != f ==> r.ar.faces[g] == st1.ar.faces[g]
    ensures Step(ctx, st, r)
    ensures forall g :: g in st.ar.faces ==> r.ar.faces[g] == st.ar.faces[g]
    ensures |r.out| > |st.out| && r.ar.faces[r.out[|st.out|]].outerLoop == Some(l)
  {
    StepTrans(ctx, st, st1, r);
    assert r.out[|st.out|] == r.out[..|st1.out|][|st.out|];
  }

  /** The plan facts of a stretch of `createFaces` work that starts
      faces: the faces it appends to `out` are shaped as `p`, and every
      loop it touches is held by a face that did not exist before. */
  ghost predicate FacesPlanned(st: Build, r: Build, p: seq<Shape>) {
    && |st.out| <= |r.out| && (forall k :: |st.out| <= k < |r.out| ==> r.out[k] in r.ar.faces)
    && Shapes(r.ar, r.out[|st.out|..]) == p
    && Repointed(st.ar.faces.Keys, st.ar, r.ar) && AllHeld(st.ar.faces.Keys, r.ar, r.out[|st.out|..])
  }

  /** The plan facts of a stretch of the child loop of face `f`: the faces
      appended are shaped as `p`, `f` gains the holes `h` at the end of its
      inner loops, and every loop touched is held by `f` or by a face that
      did not exist before. */
  ghost predicate ChildrenPlanned(st: Build, r: Build, f: FaceId, p: seq<Shape>, h: seq<LoopId>) {
    && |st.out| <= |r.out| && (forall k :: |st.out| <= k < |r.out| ==> r.out[k] in r.ar.faces)
    && f in st.ar.faces && f in r.ar.faces
    && Shapes(r.ar, r.out[|st.out|..]) == p
    && r.ar.faces[f].innerLoops == st.ar.faces[f].innerLoops + h
    && Repointed(st.ar.faces.Keys - {f}, st.ar, r.ar) && AllHeld(st.ar.faces.Keys - {f}, r.ar, r.out[|st.out|..])
    && (forall m :: m in h ==> Holds(st.ar.faces.Keys - {f}, r.ar, m))
  }

  /** Plan, one step: the entry's own face, then its children's faces. */
  lemma PlanFirst(ctx: Ctx, table: seq<NestedLoop>, idx: nat, surface: Surface, level: nat, s: Surface)
    requires TableOk(ctx, table) && idx < |table| && table[idx].level == level
    requires s == Turned(ctx, table[idx].loop, surface)
    ensures Plan(ctx, table, idx, surface, level)
      == [Shape(Some(table[idx].loop), s, Holes(ctx, table, idx, 0, s))] + PlanChildren(ctx, table, idx, 0, s, level)
  {
  }

  /** PlanChildren and Holes, one step. */
  lemma PlanChildrenStep(ctx: Ctx, table: seq<NestedLoop>, idx: nat, pos: nat, s: Surface, level: nat)
    requires TableOk(ctx, table) && idx < |table| && table[idx].level == level && pos <= |table[idx].nesting|
    ensures pos == |table[idx].nesting| ==>
      PlanChildren(ctx, table, idx, pos, s, level) == [] && Holes(ctx, table, idx, pos, s) == []
    ensures pos < |table[idx].nesting| ==>
      && PlanChildren(ctx, table, idx, pos, s, level)
         == PlanChild(ctx, table, idx, pos, s, level) + PlanChildren(ctx, table, idx, pos + 1, s, level)
      && Holes(ctx, table, idx, pos, s) == HoleAt(ctx, table, idx, pos, s) + Holes(ctx, table, idx, pos + 1, s)
  {
  }

  /** PlanChild and HoleAt for a child that starts a face of its own. */
  lemma PlanChildSpawn(ctx: Ctx, table: seq<NestedLoop>, idx: nat, pos: nat, s: Surface, level: nat)
    requires TableOk(ctx, table) && idx < |table| && table[idx].level == level && pos < |table[idx].nesting|
    requires var child := table[table[idx].nesting[pos]];
      child.level == level + 2 || (child.level == level + 1 && ctx.ccw(child.loop, s))
    ensures var c := table[idx].nesting[pos];
      && PlanChild(ctx, table, idx, pos, s, level) == Plan(ctx, table, c, s, table[c].level)
      && HoleAt(ctx, table, idx, pos, s) == []
  {
  }

  /** PlanChild and HoleAt for a child that starts no face. */
  lemma PlanChildNone(ctx: Ctx, table: seq<NestedLoop>, idx: nat, pos: nat, s: Surface, level: nat)
    requires TableOk(ctx, table) && idx < |table| && table[idx].level == level && pos < |table[idx].nesting|
    requires var child := table[table[idx].nesting[pos]];
      !(child.level == level + 2 || (child.level == level + 1 && ctx.ccw(child.loop, s)))
    ensures var child := table[table[idx].nesting[pos]];
      && PlanChild(ctx, table, idx, pos, s, level) == []
      && HoleAt(ctx, table, idx, pos, s) == (if child.level == level + 1 then [child.loop] else [])
  {
  }

  /** PlanRoots, one step. */
  lemma PlanRootsStep(ctx: Ctx, table: seq<NestedLoop>, roots: seq<nat>, i: nat)
    requires TableOk(ctx, table) && i <= |roots|
    requires forall k :: 0 <= k < |roots| ==> roots[k] < |table|
    ensures i == |roots| ==> PlanRoots(ctx, table, roots, i) == []
    ensures i < |roots| ==>
      var here := if table[roots[i]].level == 0 then Plan(ctx, table, roots[i], ctx.originSurface, 0) else [];
      PlanRoots(ctx, table, roots, i) == here + PlanRoots(ctx, table, roots, i + 1)
  {
  }

  /** The same, for the plan: the new face comes first with loop `l`
      outside and `holes` inside, the children's faces follow, and every
      loop touched is held by a new face. */
  lemma FacePlanned(st: Build, st1: Build, r: Build, f: FaceId, l: LoopId, s: Surface, holes: seq<LoopId>, rest: seq<Shape>, p: seq<Shape>)
    requires Grows(st1, r) && st.ar.loops.Keys <= st1.ar.loops.Keys
    requires st1.out == st.out + [f] && f !in st.ar.faces && st1.ar.faces.Keys == st.ar.faces.Keys + {f}
    requires st1.ar.faces[f].outerLoop == Some(l) && st1.ar.faces[f].surface == s && st1.ar.faces[f].innerLoops == []
    requires l in st.ar.loops && st1.ar.loops[l].face == Some(f)
    requires forall m :: m in st.ar.loops && m != l ==> st1.ar.loops[m] == st.ar.loops[m]
    requires ChildrenPlanned(st1, r, f, rest, holes)
    requires p == [Shape(Some(l), s, holes)] + rest
    ensures FacesPlanned(st, r, p)
  {
    var prior := st.ar.faces.Keys;
    assert st1.ar.faces.Keys - {f} == prior;
    assert r.out[..|st.out|] == st.out by {
      assert r.out[..|st.out|] == r.out[..|st1.out|][..|st.out|];
    }
    SliceSplit(st.out, st1.out, r.out);
    assert st1.out[|st.out|..] == [f];
    ShapesConcat(r.ar, [f], r.out[|st1.out|..]);
    assert r.ar.faces[f] == st1.ar.faces[f].(innerLoops := r.ar.faces[f].innerLoops);
    assert r.ar.faces[f].innerLoops == holes;
    assert Shapes(r.ar, [f]) == [Shape(Some(l), s, holes)] + Shapes(r.ar, []);
    assert Holds(prior, st1.ar, l);
    assert Repointed(prior, st.ar, st1.ar);
    RepointedTrans(prior, st.ar, st1.ar, r.ar);
    HoldsKeep(prior, st1.ar, r.ar, l);
    assert FaceHeld(prior, r.ar, f);
    forall k | |st.out| <= k < |r.out| ensures r.out[k] in r.ar.faces {
      if k == |st.out| {
        assert r.out[k] == r.out[..|st1.out|][k];
      }
    }
  }

  /** Two steps that each touch at most face `f` among the faces that
      existed make one such step. */
  lemma StepThenStep(ctx: Ctx, st: Build, st1: Build, r: Build, f: FaceId)
    requires Step(ctx, st, st1) && Step(ctx, st1, r)
    requires forall g :: g in st.ar.faces && g != f ==> st1.ar.faces[g] == st.ar.faces[g]
    requires forall g :: g in st1.ar.faces && g != f ==> r.ar.faces[g] == st1.ar.faces[g]
    ensures Step(ctx, st, r)
    ensures forall g :: g in st.ar.faces && g != f ==> r.ar.faces[g] == st.ar.faces[g]
  {
    StepTrans(ctx, st, st1, r);
  }

  /** The same, for the plan: one child's faces, then those of the rest;
      one child's hole, then those of the rest. */
  lemma ChildThenChildren(st: Build, st1: Build, r: Build, f: FaceId, p1: seq<Shape>, p2: seq<Shape>, h1: seq<LoopId>, h2: seq<LoopId>, p: seq<Shape>, h: seq<LoopId>)
    requires Grows(st, st1) && Grows(st1, r)
    requires forall g :: g in st1.ar.faces && g != f ==> r.ar.faces[g] == st1.ar.faces[g]
    requires ChildrenPlanned(st, st1, f, p1, h1) && ChildrenPlanned(st1, r, f, p2, h2)
    requires p == p1 + p2 && h == h1 + h2
    ensures ChildrenPlanned(st, r, f, p, h)
  {
    var prior := st.ar.faces.Keys - {f};
    HeldWeaken(prior, st1.ar.faces.Keys - {f}, st1.ar, r.ar, r.out[|st1.out|..]);
    var mid := st1.out[|st.out|..];
    SliceSplit(st.out, st1.out, r.out);
    forall k | 0 <= k < |mid| ensures mid[k] in st1.ar.faces && r.ar.faces[mid[k]] == st1.ar.faces[mid[k]] {
      assert mid[k] == st1.out[|st.out| + k];
    }
    ShapesFrame(st1.ar, r.ar, mid);
    ShapesConcat(r.ar, mid, r.out[|st1.out|..]);
    AllHeldKeep(prior, st1.ar, r.ar, mid);
    RepointedTrans(prior, st.ar, st1.ar, r.ar);
    forall m | m in h1 ensures Holds(prior, r.ar, m) {
      HoldsKeep(prior, st1.ar, r.ar, m);
    }
    assert r.ar.faces[f].innerLoops == st.ar.faces[f].innerLoops + (h1 + h2);
    forall k | |st.out| <= k < |r.out| ensures r.out[k] in r.ar.faces {
      if k < |st1.out| {
        assert r.out[k] == r.out[..|st1.out|][k];
      }
    }
  }

  /** The faces `createFaces` starts for a child, seen from the child loop
      of face `f`, which they leave alone. */
  lemma SpawnPlanned(st: Build, r: Build, f: FaceId, p: seq<Shape>, p': seq<Shape>, h: seq<LoopId>)
    requires FacesPlanned(st, r, p) && f in st.ar.faces
    requires forall g :: g in st.ar.faces ==> g in r.ar.faces && r.ar.faces[g] == st.ar.faces[g]
    requires p' == p && h == []
    ensures ChildrenPlanned(st, r, f, p', h)
  {
    HeldWeaken(st.ar.faces.Keys - {f}, st.ar.faces.Keys, st.ar, r.ar, r.out[|st.out|..]);
  }

  /** The hole added to face `f` is held by it; nothing else moves. */
  lemma HolePlanned(st: Build, f: FaceId, l: LoopId, p: seq<Shape>, h: seq<LoopId>)
    requires f in st.ar.faces && l in st.ar.loops
    requires p == [] && h == [l]
    ensures ChildrenPlanned(st, AddInner(st, f, l), f, p, h)
  {
    assert AddInner(st, f, l).out[|st.out|..] == [];
  }

  /** No work, no faces and no holes. */
  lemma NothingPlanned(st: Build, f: FaceId, p: seq<Shape>, h: seq<LoopId>)
    requires f in st.ar.faces && p == [] && h == []
    ensures ChildrenPlanned(st, st, f, p, h) && FacesPlanned(st, st, p)
  {
    assert st.out[|st.out|..] == [];
  }

  lemma NothingPlannedRoots(st: Build, p: seq<Shape>)
    requires p == []
    ensures FacesPlanned(st, st, p)
  {
    assert st.out[|st.out|..] == [];
  }

  /** `createFaces(nestedLoop, surface, level)` for the entry `idx` of the
      table. A loop that is not counter-clockwise on the given surface
      switches it through `invertSurface`; the loop becomes the outer loop
      of a new face; then its children are visited. The faces it adds are
      exactly the planned ones, and each loop it touches is held by one of
      them. */
  function CreateFaces(ctx: Ctx, table: seq<NestedLoop>, idx: nat, surface: Surface, level: nat, st: Build): (r: Build)
    requires Ready(ctx, table, st) && idx < |table| && table[idx].level == level && SurfaceOk(ctx, surface)
    ensures Step(ctx, st, r)
    ensures forall g :: g in st.ar.faces ==> r.ar.faces[g] == st.ar.faces[g]
    ensures |r.out| > |st.out| && r.ar.faces[r.out[|st.out|]].outerLoop == Some(table[idx].loop)
    ensures FacesPlanned(st, r, Plan(ctx, table, idx, surface, level))
    decreases |table| - level, |table[idx].nesting| + 1, 0
  {
    var l := table[idx].loop;
    var (s, cache) := if !ctx.ccw(l, surface) then InvertSurface(ctx, st.cache, surface) else (surface, st.cache);
    assert l == ctx.loops[idx];
    PickedIsTurned(ctx, st.cache, l, surface);
    var (st1, f) := PlaceFace(ctx, st, l, s, cache);
    ReadyAfter(ctx, table, st, st1);
    var r := CreateChildren(ctx, table, idx, 0, s, level, f, st1);
    FaceThenChildren(ctx, st, st1, r, f, l);
    StepGrow(ctx, st1, r, f);
    PlanFirst(ctx, table, idx, surface, level, s);
    FacePlanned(st, st1, r, f, l, s, Holes(ctx, table, idx, 0, s), PlanChildren(ctx, table, idx, 0, s, level),
      Plan(ctx, table, idx, surface, level));
    r
  }

  /** Lines 245-255, for a child that starts a face of its own (two
      levels down, or one level down and counter-clockwise): `createFaces`
      on it, with face `f` untouched. */
  function Spawn(ctx: Ctx, table: seq<NestedLoop>, idx: nat, pos: nat, surface: Surface, level: nat, f: FaceId, st: Build): (r: Build)
    requires Ready(ctx, table, st) && idx < |table| && table[idx].level == level && SurfaceOk(ctx, surface)
    requires pos < |table[idx].nesting| && f in st.ar.faces
    requires var child := table[table[idx].nesting[pos]];
      child.level == level + 2 || (child.level == level + 1 && ctx.ccw(child.loop, surface))
    ensures Step(ctx, st, r)
    ensures forall g :: g in st.ar.faces && g != f ==> r.ar.faces[g] == st.ar.faces[g]
    ensures ChildrenPlanned(st, r, f, PlanChild(ctx, table, idx, pos, surface, level), HoleAt(ctx, table, idx, pos, surface))
    decreases |table| - level, |table[idx].nesting| - pos, 0
  {
    var c := table[idx].nesting[pos];
    var r := CreateFaces(ctx, table, c, surface, table[c].level, st);
    PlanChildSpawn(ctx, table, idx, pos, surface, level);
    SpawnPlanned(st, r, f, Plan(ctx, table, c, surface, table[c].level),
      PlanChild(ctx, table, idx, pos, surface, level), HoleAt(ctx, table, idx, pos, surface));
    r
  }

  /** Lines 249-250, for a child one level down that is not
      counter-clockwise: it becomes a hole of face `f`. */
  function Hole(ctx: Ctx, table: seq<NestedLoop>, idx: nat, pos: nat, surface: Surface, level: nat, f: FaceId, st: Build): (r: Build)
    requires Ready(ctx, table, st) && idx < |table| && table[idx].level == level
    requires pos < |table[idx].nesting| && f in st.ar.faces
    requires var child := table[table[idx].nesting[pos]];
      child.level == level + 1 && !ctx.ccw(child.loop, surface)
    ensures Step(ctx, st, r)
    ensures forall g :: g in st.ar.faces && g != f ==> r.ar.faces[g] == st.ar.faces[g]
    ensures ChildrenPlanned(st, r, f, PlanChild(ctx, table, idx, pos, surface, level), HoleAt(ctx, table, idx, pos, surface))
  {
    var c := table[idx].nesting[pos];
    var l := table[c].loop;
    assert l == ctx.loops[c];
    PlanChildNone(ctx, table, idx, pos, surface, level);
    AddInnerStep(ctx, st, f, l);
    HolePlanned(st, f, l, PlanChild(ctx, table, idx, pos, surface, level), HoleAt(ctx, table, idx, pos, surface));
    AddInner(st, f, l)
  }

  /** One pass of the `for (let child of nestedLoop.nesting)` loop of
      `createFaces`: a child two levels down becomes a face of its own; a
      child one level down is a hole of face `f` when it is not
      counter-clockwise and a face of its own otherwise; other children are
      skipped. */
  function VisitChild(ctx: Ctx, table: seq<NestedLoop>, idx: nat, pos: nat, surface: Surface, level: nat, f: FaceId, st: Build): (r: Build)
    requires Ready(ctx, table, st) && idx < |table| && table[idx].level == level && SurfaceOk(ctx, surface)
    requires pos < |table[idx].nesting| && f in st.ar.faces
    ensures Step(ctx, st, r)
    ensures forall g :: g in st.ar.faces && g != f ==> r.ar.faces[g] == st.ar.faces[g]
    ensures ChildrenPlanned(st, r, f, PlanChild(ctx, table, idx, pos, surface, level), HoleAt(ctx, table, idx, pos, surface))
    decreases |table| - level, |table[idx].nesting| - pos, 1
  {
    var child := table[table[idx].nesting[pos]];
    if child.level == level + 2 || (child.level == level + 1 && ctx.ccw(child.loop, surface)) then
      Spawn(ctx, table, idx, pos, surface, level, f, st)
    else if child.level == level + 1 then
      Hole(ctx, table, idx, pos, surface, level, f, st)
    else
      PlanChildNone(ctx, table, idx, pos, surface, level);
      NothingPlanned(st, f, PlanChild(ctx, table, idx, pos, surface, level), HoleAt(ctx, table, idx, pos, surface));
      StepRefl(ctx, st);
      st
  }

  /** The `for (let child of nestedLoop.nesting)` loop of `createFaces`,
      from position `pos` on: face `f` gains exactly the holes, and the
      faces added are exactly the planned ones. */
  function CreateChildren(ctx: Ctx, table: seq<NestedLoop>, idx: nat, pos: nat, surface: Surface, level: nat, f: FaceId, st: Build): (r: Build)
    requires Ready(ctx, table, st) && idx < |table| && table[idx].level == level && SurfaceOk(ctx, surface)
    requires pos <= |table[idx].nesting| && f in st.ar.faces
    ensures Step(ctx, st, r)
    ensures forall g :: g in st.ar.faces && g != f ==> r.ar.faces[g] == st.ar.faces[g]
    ensures ChildrenPlanned(st, r, f, PlanChildren(ctx, table, idx, pos, surface, level), Holes(ctx, table, idx, pos, surface))
    decreases |table| - level, |table[idx].nesting| - pos, 2
  {
    PlanChildrenStep(ctx, table, idx, pos, surface, level);
    if pos == |table[idx].nesting| then
      StepRefl(ctx, st);
      NothingPlanned(st, f, PlanChildren(ctx, table, idx, pos, surface, level), Holes(ctx, table, idx, pos, surface));
      st
    else
      var st1 := VisitChild(ctx, table, idx, pos, surface, level, f, st);
      ReadyAfter(ctx, table, st, st1);
      var r := CreateChildren(ctx, table, idx, pos + 1, surface, level, f, st1);
      StepThenStep(ctx, st, st1, r, f);
      StepGrow(ctx, st, st1, f);
      StepGrow(ctx, st1, r, f);
      ChildThenChildren(st, st1, r, f,
        PlanChild(ctx, table, idx, pos, surface, level), PlanChildren(ctx, table, idx, pos + 1, surface, level),
        HoleAt(ctx, table, idx, pos, surface), Holes(ctx, table, idx, pos + 1, surface),
        PlanChildren(ctx, table, idx, pos, surface, level), Holes(ctx, table, idx, pos, surface));
      r
  }

  /** A step that touches no existing face, then another: the first face
      the first step adds stays first. */
  lemma RootThenRoots(ctx: Ctx, st: Build, st1: Build, r: Build)
    requires Step(ctx, st, st1) && Step(ctx, st1, r)
    requires forall g :: g in st.ar.faces ==> st1.ar.faces[g] == st.ar.faces[g]
    requires forall g :: g in st1.ar.faces ==> r.ar.faces[g] == st1.ar.faces[g]
    ensures Step(ctx, st, r)
    ensures forall g :: g in st.ar.faces ==> r.ar.faces[g] == st.ar.faces[g]
    ensures |st1.out| > |st.out| ==>
      && |r.out| > |st.out| && r.out[|st.out|] == st1.out[|st.out|]
      && r.ar.faces[r.out[|st.out|]] == st1.ar.faces[st1.out[|st.out|]]
  {
    StepTrans(ctx, st, st1, r);
    if |st1.out| > |st.out| {
      assert r.out[|st.out|] == r.out[..|st1.out|][|st.out|];
    }
  }

  /** The same, for the plan: one root's faces, then those of the rest. */
  lemma RootThenRootsPlanned(st: Build, st1: Build, r: Build, p1: seq<Shape>, p2: seq<Shape>, p: seq<Shape>)
    requires Grows(st, st1) && Grows(st1, r)
    requires forall g :: g in st1.ar.faces ==> r.ar.faces[g] == st1.ar.faces[g]
    requires FacesPlanned(st, st1, p1) && FacesPlanned(st1, r, p2) && p == p1 + p2
    ensures FacesPlanned(st, r, p)
  {
    var prior := st.ar.faces.Keys;
    HeldWeaken(prior, st1.ar.faces.Keys, st1.ar, r.ar, r.out[|st1.out|..]);
    var mid := st1.out[|st.out|..];
    SliceSplit(st.out, st1.out, r.out);
    forall k | 0 <= k < |mid| ensures mid[k] in st1.ar.faces && r.ar.faces[mid[k]] == st1.ar.faces[mid[k]] {
      assert mid[k] == st1.out[|st.out| + k];
    }
    ShapesFrame(st1.ar, r.ar, mid);
    ShapesConcat(r.ar, mid, r.out[|st1.out|..]);
    AllHeldKeep(prior, st1.ar, r.ar, mid);
    RepointedTrans(prior, st.ar, st1.ar, r.ar);
    forall k | |st.out| <= k < |r.out| ensures r.out[k] in r.ar.faces {
      if k < |st1.out| {
        assert r.out[k] == r.out[..|st1.out|][k];
      }
    }
  }

  /** `for (let nestedLoop of nestedLoops) if (nestedLoop.level == 0)
      createFaces(nestedLoop, originSurface, 0)`, from position `i` on. */
  function CreateRoots(ctx: Ctx, table: seq<NestedLoop>, roots: seq<nat>, i: nat, st: Build): (r: Build)
    requires Ready(ctx, table, st) && i <= |roots|
    requires forall k :: 0 <= k < |roots| ==> roots[k] < |table|
    ensures Step(ctx, st, r)
    ensures forall g :: g in st.ar.faces ==> r.ar.faces[g] == st.ar.faces[g]
    ensures i < |roots| && table[roots[i]].level == 0 ==>
      |r.out| > |st.out| && r.ar.faces[r.out[|st.out|]].outerLoop == Some(table[roots[i]].loop)
    ensures (forall k :: i <= k < |roots| ==> table[roots[k]].level != 0) ==> r == st
    ensures FacesPlanned(st, r, PlanRoots(ctx, table, roots, i))
    decreases |roots| - i
  {
    PlanRootsStep(ctx, table, roots, i);
    if i == |roots| then
      StepRefl(ctx, st);
      NothingPlannedRoots(st, PlanRoots(ctx, table, roots, i));
      st
    else
      var here := if table[roots[i]].level == 0 then Plan(ctx, table, roots[i], ctx.originSurface, 0) else [];
      var st1 :=
        if table[roots[i]].level == 0 then CreateFaces(ctx, table, roots[i], ctx.originSurface, 0, st)
        else
          (StepRefl(ctx, st);
           NothingPlannedRoots(st, here);
           st);
      ReadyAfter(ctx, table, st, st1);
      var r := CreateRoots(ctx, table, roots, i + 1, st1);
      RootThenRoots(ctx, st, st1, r);
      StepGrowAll(ctx, st, st1);
      StepGrowAll(ctx, st1, r);
      RootThenRootsPlanned(st, st1, r, here, PlanRoots(ctx, table, roots, i + 1), PlanRoots(ctx, table, roots, i));
      r
  }

  /** The context `loopsToFaces` sets up from the origin face. */
  function CtxOf(ar: Arena, origin: FaceId, loops: seq<LoopId>, ccw: (LoopId, Surface) -> bool, inv: Surface -> Surface): Ctx
    requires origin in ar.faces
  {
    Ctx(ar.faces[origin].surface, ar.faces[origin].data, loops, ccw, inv)
  }

  lemma NestAllOk(ctx: Ctx, contains: Contains)
    ensures TableOk(ctx, NestAll(ctx.loops, contains))
  {
    var t := NestAll(ctx.loops, contains);
    forall k | 0 <= k < |t| ensures t[k].level < |t| {
      NestAllAt(ctx.loops, contains, k);
    }
    forall k, p | 0 <= k < |t| && 0 <= p < |t[k].nesting| ensures t[k].nesting[p] < |t| {
      NestAllAt(ctx.loops, contains, k);
    }
  }

  /** The faces `loopsToFaces` is to create: PlanRoots over the nesting
      table of `loops`, from the origin face's surface. */
  function RoutingPlan(ar: Arena, origin: FaceId, loops: seq<LoopId>, contains: Contains,
                       ccw: (LoopId, Surface) -> bool, inv: Surface -> Surface): seq<Shape>
    requires origin in ar.faces
  {
    var ctx := CtxOf(ar, origin, loops, ccw, inv);
    NestAllOk(ctx, contains);
    var table := NestAll(loops, contains);
    PlanRoots(ctx, table, Roots(table, |table|), 0)
  }

  /** The faces and `out` after the `createFaces` calls, before the id of
      the first new face is set. */
  function CreateAll(ar: Arena, origin: FaceId, loops: seq<LoopId>, out: seq<FaceId>,
                     contains: Contains, ccw: (LoopId, Surface) -> bool, inv: Surface -> Surface): (r: Build)
    requires Bounded(ar) && origin in ar.faces && LoopsIn(ar, loops)
    ensures Bounded(r.ar) && r.ar.halfEdges == ar.halfEdges && r.ar.edges == ar.edges
    ensures forall g :: g in ar.faces ==> g in r.ar.faces && r.ar.faces[g] == ar.faces[g]
    ensures forall l :: l in ar.loops ==> l in r.ar.loops && r.ar.loops[l].halfEdges == ar.loops[l].halfEdges
    ensures |r.out| >= |out| && r.out[..|out|] == out
    ensures forall a, b :: |out| <= a < b < |r.out| ==> r.out[a] != r.out[b]
    ensures forall k :: |out| <= k < |r.out| ==>
      r.out[k] !in ar.faces && r.out[k] in r.ar.faces && Made(CtxOf(ar, origin, loops, ccw, inv), r.ar.faces[r.out[k]])
    ensures var roots := Roots(NestAll(loops, contains), |loops|);
      && (|roots| > 0 ==> |r.out| > |out| && r.ar.faces[r.out[|out|]].outerLoop == Some(loops[roots[0]]))
      && (|roots| == 0 ==> r.ar == ar && r.out == out)
    ensures FacesPlanned(Build(ar, out, Cache(None, 0)), r, RoutingPlan(ar, origin, loops, contains, ccw, inv))
  {
    var ctx := CtxOf(ar, origin, loops, ccw, inv);
    var table := NestAll(loops, contains);
    NestAllOk(ctx, contains);
    var roots := Roots(table, |table|);
    var st := Build(ar, out, Cache(None, 0));
    var r := CreateRoots(ctx, table, roots, 0, st);
    assert |roots| > 0 ==> roots[0] in roots;
    r
  }

  /** Lines 265-267: when a face was created, the first one (at position
      `from` of `out`) gets the id `id`. */
  function SetFirstId(b: Build, from: nat, id: Option<string>): (r: (Arena, seq<FaceId>))
    requires Bounded(b.ar) && from <= |b.out| && (from < |b.out| ==> b.out[from] in b.ar.faces)
    ensures Bounded(r.0) && r.1 == b.out
    ensures r.0.faces.Keys == b.ar.faces.Keys && r.0.loops == b.ar.loops
    ensures from < |b.out| ==> r.0.faces[b.out[from]].data.id == id
  {
    if from < |b.out| then
      var f := b.out[from];
      (b.ar.(faces := b.ar.faces[f := SetId(b.ar.faces[f], id)]), b.out)
    else (b.ar, b.out)
  }

  /** Setting an id the first face already has changes nothing. */
  lemma SetFirstIdSame(b: Build, from: nat, id: Option<string>)
    requires Bounded(b.ar) && from <= |b.out| && (from < |b.out| ==> b.out[from] in b.ar.faces)
    requires from < |b.out| ==> b.ar.faces[b.out[from]].data.id == id
    ensures SetFirstId(b, from, id) == (b.ar, b.out)
  {
    if from < |b.out| {
      var f := b.out[from];
      var x := b.ar.faces[f];
      assert SetId(x, id) == x;
      MapExt(b.ar.faces[f := x], b.ar.faces);
    }
  }

  /** `loopsToFaces(originFace, loops, out)`: the new arena and `out`. */
  function LoopsToFaces(ar: Arena, origin: FaceId, loops: seq<LoopId>, out: seq<FaceId>,
                        contains: Contains, ccw: (LoopId, Surface) -> bool, inv: Surface -> Surface): (r: (Arena, seq<FaceId>))
    requires Bounded(ar) && origin in ar.faces && LoopsIn(ar, loops)
    ensures Bounded(r.0) && |r.1| >= |out| && r.1[..|out|] == out
  {
    var b := CreateAll(ar, origin, loops, out, contains, ccw, inv);
    SetFirstId(b, |out|, GetId(ar.faces[origin]))
  }

  /** The faces `loopsToFaces` creates are new and distinct, follow `out`'s
      prior contents, and are `Made` from the origin: they carry the origin
      face's data (so its id), have no shell, have one of the given loops as
      outer loop and given loops as inner loops, and lie on the origin
      surface or its inverse. Faces that
      existed are untouched, and no loop changes its half-edges. */
  lemma LoopsToFacesSpec(ar: Arena, origin: FaceId, loops: seq<LoopId>, out: seq<FaceId>,
                         contains: Contains, ccw: (LoopId, Surface) -> bool, inv: Surface -> Surface)
    requires Bounded(ar) && origin in ar.faces && LoopsIn(ar, loops)
    ensures var (ar', out') := LoopsToFaces(ar, origin, loops, out, contains, ccw, inv);
      && ar'.halfEdges == ar.halfEdges && ar'.edges == ar.edges
      && (forall g :: g in ar.faces ==> g in ar'.faces && ar'.faces[g] == ar.faces[g])
      && (forall l :: l in ar.loops ==> l in ar'.loops && ar'.loops[l].halfEdges == ar.loops[l].halfEdges)
      && (forall a, b :: |out| <= a < b < |out'| ==> out'[a] != out'[b])
      && (forall k :: |out| <= k < |out'| ==>
            out'[k] !in ar.faces && out'[k] in ar'.faces && Made(CtxOf(ar, origin, loops, ccw, inv), ar'.faces[out'[k]]))
  {
    IdAlreadyCopied(ar, origin, loops, out, contains, ccw, inv);
  }

  /** Lines 232-256, the routing of `createFaces`, over the whole call:
      the faces created, in creation order, are shaped as PlanRoots says
      (each root's face, with its clockwise children one level down as
      holes, then the faces of its counter-clockwise children one level
      down and of its children two levels down, recursively); every loop
      whose record changed points at a new face that holds it as outer or
      inner loop; and every loop of a new face points at a new face that
      holds it. */
  lemma LoopsToFacesRouting(ar: Arena, origin: FaceId, loops: seq<LoopId>, out: seq<FaceId>,
                            contains: Contains, ccw: (LoopId, Surface) -> bool, inv: Surface -> Surface)
    requires Bounded(ar) && origin in ar.faces && LoopsIn(ar, loops)
    ensures var (ar', out') := LoopsToFaces(ar, origin, loops, out, contains, ccw, inv);
      && |out| <= |out'| && (forall k :: |out| <= k < |out'| ==> out'[k] in ar'.faces)
      && Shapes(ar', out'[|out|..]) == RoutingPlan(ar, origin, loops, contains, ccw, inv)
      && Repointed(ar.faces.Keys, ar, ar')
      && AllHeld(ar.faces.Keys, ar', out'[|out|..])
  {
    IdAlreadyCopied(ar, origin, loops, out, contains, ccw, inv);
  }

  /** Setting the first new face's id to the origin's id changes nothing:
      `Object.assign` already copied the origin's data, id included, into
      every new face. */
  lemma IdAlreadyCopied(ar: Arena, origin: FaceId, loops: seq<LoopId>, out: seq<FaceId>,
                        contains: Contains, ccw: (LoopId, Surface) -> bool, inv: Surface -> Surface)
    requires Bounded(ar) && origin in ar.faces && LoopsIn(ar, loops)
    ensures var b := CreateAll(ar, origin, loops, out, contains, ccw, inv);
      LoopsToFaces(ar, origin, loops, out, contains, ccw, inv) == (b.ar, b.out)
  {
    var b := CreateAll(ar, origin, loops, out, contains, ccw, inv);
    if |b.out| > |out| {
      assert b.ar.faces[b.out[|out|]].data == ar.faces[origin].data;
    }
    SetFirstIdSame(b, |out|, GetId(ar.faces[origin]));
  }

  /** When some loop lies in no other loop, the first face created (the
      one at the prior end of `out`) has the first such loop as its outer
      loop and the origin's id; when every loop lies in another, nothing
      changes at all. */
  lemma LoopsToFacesFirst(ar: Arena, origin: FaceId, loops: seq<LoopId>, out: seq<FaceId>,
                          contains: Contains, ccw: (LoopId, Surface) -> bool, inv: Surface -> Surface)
    requires Bounded(ar) && origin in ar.faces && LoopsIn(ar, loops)
    ensures var (ar', out') := LoopsToFaces(ar, origin, loops, out, contains, ccw, inv);
      var roots := Roots(NestAll(loops, contains), |loops|);
      && (|roots| > 0 ==>
            && |out'| > |out|
            && ar'.faces[out'[|out|]].outerLoop == Some(loops[roots[0]])
            && ar'.faces[out'[|out|]].data.id == ar.faces[origin].data.id)
      && (|roots| == 0 ==> ar' == ar && out' == out)
  {
    var b := CreateAll(ar, origin, loops, out, contains, ccw, inv);
    IdAlreadyCopied(ar, origin, loops, out, contains, ccw, inv);
    if |b.out| > |out| {
      assert b.ar.faces[b.out[|out|]].data == ar.faces[origin].data;
    }
  }
}
