/** The sketch reader of `web/app/3d/craft/sketch/sketch-reader.js`: the
    stored sketch (layers of objects tagged by class name) is routed into
    connections, loops and construction segments, each emitted object
    getting the next sequential id; and the adjacency and contour-count
    parts of `sketchToPaths`. */
module Sketch {
  import opened Wrappers
  import opened Seqs

  /** A `Vector`; a coordinate read from a stored pair that has no value
      is JavaScript's `undefined`, written `None`. */
  datatype Vec3 = Vec3(x: Option<real>, y: Option<real>, z: real)

  /** A stored point: `[id, [name, x], [name, y]]` in the sketch JSON. An
      absent point is the empty sequence. */
  type RawPoint = seq<seq<real>>

  /** The coordinate `pair[1]`, `undefined` when the pair is too short. */
  function Coord(pair: seq<real>): (r: Option<real>)
    ensures r.Some? <==> |pair| >= 2
    ensures r.Some? ==> r.value == pair[1]
  {
    if |pair| >= 2 then Some(pair[1]) else None
  }

  /** `ReadSketchPoint(arr)`: the vector `(arr[1][1], arr[2][1], 0)`.
      Reading `[1]` of a missing `arr[1]` or `arr[2]` throws, reported as
      `None`; a pair without a value only leaves its coordinate
      undefined. */
  function ReadSketchPoint(arr: RawPoint): (r: Option<Vec3>)
    ensures r.Some? <==> |arr| >= 3
    ensures r.Some? ==> r.value.z == 0.0
    ensures r.Some? ==> (r.value.x.Some? <==> |arr[1]| >= 2) && (r.value.y.Some? <==> |arr[2]| >= 2)
    ensures r.Some? && r.value.x.Some? ==> r.value.x.value == arr[1][1]
    ensures r.Some? && r.value.y.Some? ==> r.value.y.value == arr[2][1]
  {
    if |arr| >= 3 then Some(Vec3(Coord(arr[1]), Coord(arr[2]), 0.0)) else None
  }

  const SEGMENT := "TCAD.TWO.Segment"
  const ARC := "TCAD.TWO.Arc"
  const ELLIPTICAL_ARC := "TCAD.TWO.EllipticalArc"
  const BEZIER_CURVE := "TCAD.TWO.BezierCurve"
  const CIRCLE := "TCAD.TWO.Circle"
  const ELLIPSE := "TCAD.TWO.Ellipse"
  const CONSTRUCTION_LAYER := "_construction_"

  /** One stored sketch object. `hasEdge` is `obj.edge !== undefined`,
      `aux` is `!!obj.aux`; point fields that are absent are empty. */
  datatype SketchObject = SketchObject(
    cls: string, hasEdge: bool, aux: bool,
    points: seq<RawPoint>, ep1: RawPoint, ep2: RawPoint, a: RawPoint, b: RawPoint,
    cp1: RawPoint, cp2: RawPoint, c: RawPoint, r: real)

  datatype Layer = Layer(name: string, data: seq<SketchObject>)

  /** The sketch-model objects the reader creates, without their ids. */
  datatype Shape =
    | Segment(a: Vec3, b: Vec3)
    | Arc(a: Vec3, b: Vec3, center: Vec3)
    | EllipticalArc(ep1: Vec3, ep2: Vec3, a: Vec3, b: Vec3, r: real)
    | BezierCurve(a: Vec3, b: Vec3, cp1: Vec3, cp2: Vec3)
    | Circle(c: Vec3, r: real)
    | Ellipse(ep1: Vec3, ep2: Vec3, r: real)

  /** The output list an object is pushed on. */
  datatype Target = Connections | Loops | Construction

  datatype Draft = Draft(target: Target, shape: Shape)

  datatype Item = Item(id: string, shape: Shape)

  datatype SketchOut = SketchOut(connections: seq<Item>, loops: seq<Item>, constructionSegments: seq<Item>)

  /** A point the reader needs is missing or lacks its `[1]` or `[2]`
      entry: the `TypeError` of reading a property of `undefined`. */
  datatype ReadError = MalformedPoint

  predicate KnownClass(cls: string) {
    cls == SEGMENT || cls == ARC || cls == ELLIPTICAL_ARC || cls == BEZIER_CURVE || cls == CIRCLE || cls == ELLIPSE
  }

  /** The object is turned into a sketch-model object: on the construction
      layer only segments are, and objects bound to an edge or marked
      auxiliary never are. */
  predicate Emits(obj: SketchObject, isConstruction: bool) {
    && !(isConstruction && obj.cls != SEGMENT)
    && !obj.hasEdge && !obj.aux && KnownClass(obj.cls)
  }

  /** The point at `k` of `obj.points`, if there is one. */
  function PointAt(obj: SketchObject, k: nat): Option<Vec3> {
    if k < |obj.points| then ReadSketchPoint(obj.points[k]) else None
  }

  function Need(p: Option<Vec3>): Result<Vec3, ReadError> {
    if p.Some? then Ok(p.value) else Err(MalformedPoint)
  }

  /** The class dispatch of `ReadSketch`'s inner loop for one object. */
  function ReadObject(obj: SketchObject, isConstruction: bool): (r: Result<Option<Draft>, ReadError>)
    ensures !Emits(obj, isConstruction) ==> r == Ok(None)
    ensures Emits(obj, isConstruction) && r.Ok? ==> r.value.Some?
    ensures r.Ok? && r.value.Some? ==> var d := r.value.value;
      && (d.target == Construction <==> isConstruction)
      && (d.target == Construction ==> d.shape.Segment?)
      && (d.target == Connections ==>
            d.shape.Segment? || d.shape.Arc? || d.shape.EllipticalArc? || d.shape.BezierCurve?)
      && (d.target == Loops ==> d.shape.Circle? || d.shape.Ellipse?)
      && (obj.cls == SEGMENT <==> d.shape.Segment?) && (obj.cls == ARC <==> d.shape.Arc?)
      && (obj.cls == ELLIPTICAL_ARC <==> d.shape.EllipticalArc?)
      && (obj.cls == BEZIER_CURVE <==> d.shape.BezierCurve?)
      && (obj.cls == CIRCLE <==> d.shape.Circle?) && (obj.cls == ELLIPSE <==> d.shape.Ellipse?)
  {
    if isConstruction && obj.cls != SEGMENT then Ok(None)
    else if obj.hasEdge then Ok(None)
    else if obj.aux then Ok(None)
    else if obj.cls == SEGMENT then
      var a :- Need(PointAt(obj, 0));
      var b :- Need(PointAt(obj, 1));
      Ok(Some(Draft(if isConstruction then Construction else Connections, Segment(a, b))))
    else if obj.cls == ARC then
      var a :- Need(PointAt(obj, 0));
      var b :- Need(PointAt(obj, 1));
      var c :- Need(PointAt(obj, 2));
      Ok(Some(Draft(Connections, Arc(a, b, c))))
    else if obj.cls == ELLIPTICAL_ARC then
      var ep1 :- Need(ReadSketchPoint(obj.ep1));
      var ep2 :- Need(ReadSketchPoint(obj.ep2));
      var a :- Need(ReadSketchPoint(obj.a));
      var b :- Need(ReadSketchPoint(obj.b));
      Ok(Some(Draft(Connections, EllipticalArc(ep1, ep2, a, b, obj.r))))
    else if obj.cls == BEZIER_CURVE then
      var a :- Need(ReadSketchPoint(obj.a));
      var b :- Need(ReadSketchPoint(obj.b));
      var cp1 :- Need(ReadSketchPoint(obj.cp1));
      var cp2 :- Need(ReadSketchPoint(obj.cp2));
      Ok(Some(Draft(Connections, BezierCurve(a, b, cp1, cp2))))
    else if obj.cls == CIRCLE then
      var c :- Need(ReadSketchPoint(obj.c));
      Ok(Some(Draft(Loops, Circle(c, obj.r))))
    else if obj.cls == ELLIPSE then
      var ep1 :- Need(ReadSketchPoint(obj.ep1));
      var ep2 :- Need(ReadSketchPoint(obj.ep2));
      Ok(Some(Draft(Loops, Ellipse(ep1, ep2, obj.r))))
    else Ok(None)
  }

  /** The number of objects of `objs` that are emitted. */
  function CountEmits(objs: seq<SketchObject>, isConstruction: bool): nat {
    if |objs| == 0 then 0
    else (if Emits(objs[0], isConstruction) then 1 else 0) + CountEmits(objs[1..], isConstruction)
  }

  /** All drafts are routed as `ReadObject` routes them. */
  ghost predicate Routed(ds: seq<Draft>) {
    forall k :: 0 <= k < |ds| ==>
      && (ds[k].target == Construction ==> ds[k].shape.Segment?)
      && (ds[k].target == Connections ==>
            ds[k].shape.Segment? || ds[k].shape.Arc? || ds[k].shape.EllipticalArc? || ds[k].shape.BezierCurve?)
      && (ds[k].target == Loops ==> ds[k].shape.Circle? || ds[k].shape.Ellipse?)
  }

  /** The objects of one layer, in order. */
  function ReadObjects(objs: seq<SketchObject>, isConstruction: bool): (r: Result<seq<Draft>, ReadError>)
    ensures r.Ok? ==> |r.value| == CountEmits(objs, isConstruction) && Routed(r.value)
    ensures r.Ok? ==> forall k :: 0 <= k < |r.value| ==> (r.value[k].target == Construction <==> isConstruction)
  {
    if |objs| == 0 then Ok([])
    else
      var d :- ReadObject(objs[0], isConstruction);
      var rest :- ReadObjects(objs[1..], isConstruction);
      Ok((if d.Some? then [d.value] else []) + rest)
  }

  /** A layer is read unless it is the construction layer and construction
      segments were not asked for. */
  predicate LayerRead(layer: Layer, readConstruction: bool) {
    !(layer.name == CONSTRUCTION_LAYER && !readConstruction)
  }

  /** The number of objects emitted from `layers`. */
  function CountLayerEmits(layers: seq<Layer>, readConstruction: bool): nat {
    if |layers| == 0 then 0
    else
      (if LayerRead(layers[0], readConstruction)
       then CountEmits(layers[0].data, layers[0].name == CONSTRUCTION_LAYER) else 0)
      + CountLayerEmits(layers[1..], readConstruction)
  }

  /** Every layer, in order. */
  function ReadLayers(layers: seq<Layer>, readConstruction: bool): (r: Result<seq<Draft>, ReadError>)
    ensures r.Ok? ==> |r.value| == CountLayerEmits(layers, readConstruction) && Routed(r.value)
    ensures r.Ok? && !readConstruction ==> forall k :: 0 <= k < |r.value| ==> r.value[k].target != Construction
  {
    if |layers| == 0 then Ok([])
    else
      var isConstruction := layers[0].name == CONSTRUCTION_LAYER;
      var here :- if isConstruction && !readConstruction then Ok([]) else ReadObjects(layers[0].data, isConstruction);
      var rest :- ReadLayers(layers[1..], readConstruction);
      Ok(here + rest)
  }

  /** The decimal digit character of `d`. */
  function Digit(d: nat): char
    requires d < 10
  {
    "0123456789"[d]
  }

  /** `String(n)` for a natural number: its decimal digits. */
  function NatStr(n: nat): (r: string)
    ensures |r| >= 1
    ensures n >= 10 ==> |r| >= 2
    decreases n
  {
    if n < 10 then [Digit(n)] else NatStr(n / 10) + [Digit(n % 10)]
  }

  /** Different numbers have different decimal strings. */
  lemma {:induction false} NatStrInjective(a: nat, b: nat)
    requires NatStr(a) == NatStr(b)
    ensures a == b
    decreases a
  {
    if a >= 10 && b >= 10 {
      var sa := NatStr(a);
      assert sa[..|sa| - 1] == NatStr(a / 10) && sa[|sa| - 1] == Digit(a % 10);
      var sb := NatStr(b);
      assert sb[..|sb| - 1] == NatStr(b / 10) && sb[|sb| - 1] == Digit(b % 10);
      NatStrInjective(a / 10, b / 10);
    }
  }

  /** `genID()` for the `k`-th emitted object: `faceId + ":" + k`. */
  function Id(faceId: string, k: nat): string {
    faceId + ":" + NatStr(k)
  }

  lemma IdInjective(faceId: string, a: nat, b: nat)
    requires Id(faceId, a) == Id(faceId, b)
    ensures a == b
  {
    var n := |faceId| + 1;
    assert Id(faceId, a)[n..] == NatStr(a);
    assert Id(faceId, b)[n..] == NatStr(b);
    NatStrInjective(a, b);
  }

  /** The drafts with their ids, the counter starting at `start`. */
  function Number(ds: seq<Draft>, faceId: string, start: nat): (r: seq<(Target, Item)>)
    ensures |r| == |ds|
    ensures forall k :: 0 <= k < |ds| ==>
      r[k].0 == ds[k].target && r[k].1 == Item(Id(faceId, start + k), ds[k].shape)
  {
    if |ds| == 0 then [] else [(ds[0].target, Item(Id(faceId, start), ds[0].shape))] + Number(ds[1..], faceId, start + 1)
  }

  /** The items pushed on list `t`, in order. */
  function Select(ts: seq<(Target, Item)>, t: Target): (r: seq<Item>)
    ensures |r| <= |ts|
    ensures forall x :: x in r ==> (t, x) in ts
  {
    if |ts| == 0 then []
    else (if ts[0].0 == t then [ts[0].1] else []) + Select(ts[1..], t)
  }

  function Ids(items: seq<Item>): (r: seq<string>)
    ensures |r| == |items| && forall k :: 0 <= k < |items| ==> r[k] == items[k].id
  {
    if |items| == 0 then [] else [items[0].id] + Ids(items[1..])
  }

  /** `ReadSketch(sketch, faceId, readConstructionSegments)`: `layers` is
      `None` when the sketch has none. Every emitted object is pushed on
      its list in emission order with id `faceId:k`, `k` counting the
      emitted objects only. */
  function ReadSketch(layers: Option<seq<Layer>>, faceId: string, readConstruction: bool): (r: Result<SketchOut, ReadError>)
    ensures layers.None? ==> r == Ok(SketchOut([], [], []))
    ensures r.Ok? && layers.Some? ==>
      |r.value.connections| + |r.value.loops| + |r.value.constructionSegments|
        == CountLayerEmits(layers.value, readConstruction)
    ensures r.Ok? && !readConstruction ==> r.value.constructionSegments == []
  {
    if layers.None? then Ok(SketchOut([], [], []))
    else
      var ds :- ReadLayers(layers.value, readConstruction);
      var ts := Number(ds, faceId, 0);
      SelectCounts(ts);
      Ok(SketchOut(Select(ts, Connections), Select(ts, Loops), Select(ts, Construction)))
  }

  /** The three lists together hold every numbered item. */
  lemma {:induction false} SelectCounts(ts: seq<(Target, Item)>)
    ensures |Select(ts, Connections)| + |Select(ts, Loops)| + |Select(ts, Construction)| == |ts|
    ensures (forall k :: 0 <= k < |ts| ==> ts[k].0 != Construction) ==> Select(ts, Construction) == []
  {
    if |ts| > 0 {
      SelectCounts(ts[1..]);
    }
  }

  /** No two numbered items share an id. */
  ghost predicate IdsApart(ts: seq<(Target, Item)>) {
    forall j, k :: 0 <= j < k < |ts| ==> ts[j].1.id != ts[k].1.id
  }

  /** The numbered items carry pairwise different ids. */
  lemma NumberDistinct(ds: seq<Draft>, faceId: string, start: nat)
    ensures IdsApart(Number(ds, faceId, start))
  {
    var ts := Number(ds, faceId, start);
    forall j, k | 0 <= j < k < |ts| ensures ts[j].1.id != ts[k].1.id {
      assert ts[j].1.id == Id(faceId, start + j) && ts[k].1.id == Id(faceId, start + k);
      if Id(faceId, start + j) == Id(faceId, start + k) {
        IdInjective(faceId, start + j, start + k);
      }
    }
  }

  /** Selecting keeps ids apart. */
  lemma {:induction false} SelectDistinct(ts: seq<(Target, Item)>, t: Target)
    requires IdsApart(ts)
    ensures Distinct(Ids(Select(ts, t)))
    ensures forall x :: x in Select(ts, t) ==> exists k :: 0 <= k < |ts| && ts[k] == (t, x)
  {
    if |ts| > 0 {
      SelectDistinct(ts[1..], t);
      var rest := Select(ts[1..], t);
      forall x | x in rest ensures x.id != ts[0].1.id {
        var k :| 0 <= k < |ts[1..]| && ts[1..][k] == (t, x);
        assert ts[k + 1] == (t, x);
      }
      var s := Select(ts, t);
      forall x | x in s ensures exists k :: 0 <= k < |ts| && ts[k] == (t, x) {
        if x in rest {
          var k :| 0 <= k < |ts[1..]| && ts[1..][k] == (t, x);
          assert ts[k + 1] == (t, x);
        } else {
          assert ts[0] == (t, x);
        }
      }
      if ts[0].0 == t {
        assert Ids(s) == [ts[0].1.id] + Ids(rest);
        forall k | 0 <= k < |Ids(rest)| ensures Ids(rest)[k] != ts[0].1.id {
          assert rest[k] in rest;
        }
      }
    }
  }

  /** Items of two different lists never share an id. */
  lemma SelectApart(ts: seq<(Target, Item)>, t: Target, u: Target, x: Item, y: Item)
    requires IdsApart(ts)
    requires t != u && x in Select(ts, t) && y in Select(ts, u)
    ensures x.id != y.id
  {
    SelectDistinct(ts, t);
    SelectDistinct(ts, u);
    var j :| 0 <= j < |ts| && ts[j] == (t, x);
    var k :| 0 <= k < |ts| && ts[k] == (u, y);
  }

  /** The three lists selected from items with distinct ids. */
  ghost predicate OutIdsUnique(out: SketchOut) {
    && Distinct(Ids(out.connections)) && Distinct(Ids(out.loops)) && Distinct(Ids(out.constructionSegments))
    && (forall x, y :: x in out.connections && y in out.loops ==> x.id != y.id)
    && (forall x, y :: x in out.connections && y in out.constructionSegments ==> x.id != y.id)
    && (forall x, y :: x in out.loops && y in out.constructionSegments ==> x.id != y.id)
  }

  lemma SelectAllApart(ts: seq<(Target, Item)>)
    requires IdsApart(ts)
    ensures OutIdsUnique(SketchOut(Select(ts, Connections), Select(ts, Loops), Select(ts, Construction)))
  {
    SelectDistinct(ts, Connections);
    SelectDistinct(ts, Loops);
    SelectDistinct(ts, Construction);
    forall x, y | x in Select(ts, Connections) && y in Select(ts, Loops) ensures x.id != y.id {
      SelectApart(ts, Connections, Loops, x, y);
    }
    forall x, y | x in Select(ts, Connections) && y in Select(ts, Construction) ensures x.id != y.id {
      SelectApart(ts, Connections, Construction, x, y);
    }
    forall x, y | x in Select(ts, Loops) && y in Select(ts, Construction) ensures x.id != y.id {
      SelectApart(ts, Loops, Construction, x, y);
    }
  }

  /** The ids `ReadSketch` hands out are unique: within each list and
      across the three lists. */
  lemma ReadSketchIdsUnique(layers: Option<seq<Layer>>, faceId: string, readConstruction: bool)
    requires ReadSketch(layers, faceId, readConstruction).Ok?
    ensures OutIdsUnique(ReadSketch(layers, faceId, readConstruction).value)
  {
    if layers.Some? {
      var ds := ReadLayers(layers.value, readConstruction).value;
      var ts := Number(ds, faceId, 0);
      assert ReadSketch(layers, faceId, readConstruction).value
        == SketchOut(Select(ts, Connections), Select(ts, Loops), Select(ts, Construction));
      NumberDistinct(ds, faceId, 0);
      SelectAllApart(ts);
    }
  }

  /** Every list holds only the kinds routed to it: curves with two ends
      in `connections`, closed curves in `loops`, segments in
      `constructionSegments`. */
  lemma ReadSketchRouting(layers: Option<seq<Layer>>, faceId: string, readConstruction: bool)
    requires ReadSketch(layers, faceId, readConstruction).Ok?
    ensures var out := ReadSketch(layers, faceId, readConstruction).value;
      && (forall x :: x in out.connections ==>
            x.shape.Segment? || x.shape.Arc? || x.shape.EllipticalArc? || x.shape.BezierCurve?)
      && (forall x :: x in out.loops ==> x.shape.Circle? || x.shape.Ellipse?)
      && (forall x :: x in out.constructionSegments ==> x.shape.Segment?)
  {
    if layers.Some? {
      var ds := ReadLayers(layers.value, readConstruction).value;
      var ts := Number(ds, faceId, 0);
      forall t, x | x in Select(ts, t) ensures exists k :: 0 <= k < |ds| && ds[k] == Draft(t, x.shape) {
        var k :| 0 <= k < |ts| && ts[k] == (t, x);
        assert ds[k] == Draft(t, x.shape);
      }
    }
  }

  /** The emission positions of the drafts bound for list `t`, in order,
      counting from `base`. */
  function Positions(ds: seq<Draft>, t: Target, base: nat): seq<nat>
    decreases |ds|
  {
    if |ds| == 0 then []
    else (if ds[0].target == t then [base] else []) + Positions(ds[1..], t, base + 1)
  }

  /** Every position `Positions` lists is a draft bound for `t`. */
  lemma {:induction false} PositionsBound(ds: seq<Draft>, t: Target, base: nat)
    ensures forall i :: 0 <= i < |Positions(ds, t, base)| ==>
      base <= Positions(ds, t, base)[i] < base + |ds| && ds[Positions(ds, t, base)[i] - base].target == t
    decreases |ds|
  {
    if |ds| > 0 {
      PositionsBound(ds[1..], t, base + 1);
      var q := Positions(ds[1..], t, base + 1);
      var p := Positions(ds, t, base);
      var o := if ds[0].target == t then 1 else 0;
      assert p == (if ds[0].target == t then [base] else []) + q;
      forall i | o <= i < |p| ensures base <= p[i] < base + |ds| && ds[p[i] - base].target == t {
        assert p[i] == q[i - o];
        assert ds[p[i] - base] == ds[1..][q[i - o] - (base + 1)];
      }
    }
  }

  /** `Positions` lists its positions in increasing order. */
  lemma {:induction false} PositionsIncreasing(ds: seq<Draft>, t: Target, base: nat)
    ensures forall i, j :: 0 <= i < j < |Positions(ds, t, base)| ==>
      Positions(ds, t, base)[i] < Positions(ds, t, base)[j]
    decreases |ds|
  {
    if |ds| > 0 {
      PositionsBound(ds[1..], t, base + 1);
      PositionsIncreasing(ds[1..], t, base + 1);
      var q := Positions(ds[1..], t, base + 1);
      var p := Positions(ds, t, base);
      var o := if ds[0].target == t then 1 else 0;
      assert p == (if ds[0].target == t then [base] else []) + q;
      forall i, j | 0 <= i < j < |p| ensures p[i] < p[j] {
        assert p[j] == q[j - o];
        if i >= o {
          assert p[i] == q[i - o];
        }
      }
    }
  }

  /** Every draft bound for `t` has its position listed. */
  lemma {:induction false} PositionsComplete(ds: seq<Draft>, t: Target, base: nat)
    ensures forall k :: 0 <= k < |ds| && ds[k].target == t ==> base + k in Positions(ds, t, base)
    decreases |ds|
  {
    if |ds| > 0 {
      PositionsComplete(ds[1..], t, base + 1);
      var q := Positions(ds[1..], t, base + 1);
      var p := Positions(ds, t, base);
      assert p == (if ds[0].target == t then [base] else []) + q;
      forall k | 1 <= k < |ds| && ds[k].target == t ensures base + k in p {
        assert ds[1..][k - 1] == ds[k];
        assert base + 1 + (k - 1) in q;
      }
    }
  }

  /** `s` holds, in order, the items of `ts` at the positions `p`
      (counted from `start`). */
  ghost predicate SelectedAt(s: seq<Item>, p: seq<nat>, ts: seq<(Target, Item)>, start: nat) {
    && |s| == |p|
    && forall i :: 0 <= i < |s| ==> start <= p[i] < start + |ts| && s[i] == ts[p[i] - start].1
  }

  /** An item of `ts[1..]` at a position counted from `start + 1` is the
      item of `ts` at the same position counted from `start`. */
  lemma {:induction false} SelectedAtShift(s: seq<Item>, p: seq<nat>, ts: seq<(Target, Item)>, start: nat)
    requires |ts| > 0 && SelectedAt(s, p, ts[1..], start + 1)
    ensures SelectedAt(s, p, ts, start)
  {
    forall i | 0 <= i < |s| ensures start <= p[i] < start + |ts| && s[i] == ts[p[i] - start].1 {
      assert ts[1..][p[i] - (start + 1)] == ts[p[i] - start];
    }
  }

  /** Putting the head of `ts` in front keeps `SelectedAt`, with the head at
      position `start`. */
  lemma {:induction false} SelectedAtCons(s: seq<Item>, p: seq<nat>, ts: seq<(Target, Item)>, start: nat)
    requires |ts| > 0 && SelectedAt(s, p, ts, start)
    ensures SelectedAt([ts[0].1] + s, [start] + p, ts, start)
  {
    var s1 := [ts[0].1] + s;
    var p1 := [start] + p;
    forall i | 0 <= i < |s1| ensures start <= p1[i] < start + |ts| && s1[i] == ts[p1[i] - start].1 {
      if i > 0 {
        assert s1[i] == s[i - 1] && p1[i] == p[i - 1];
      }
    }
  }

  /** The list `t` selected from the numbered drafts holds the items at the
      positions bound for `t`, in order. */
  lemma {:induction false} SelectAtPositions(ds: seq<Draft>, ts: seq<(Target, Item)>, start: nat, t: Target)
    requires |ts| == |ds| && forall k :: 0 <= k < |ds| ==> ts[k].0 == ds[k].target
    ensures SelectedAt(Select(ts, t), Positions(ds, t, start), ts, start)
    decreases |ds|
  {
    if |ds| == 0 {
      assert Select(ts, t) == [] && Positions(ds, t, start) == [];
    } else {
      assert forall k :: 0 <= k < |ds[1..]| ==> ts[1..][k].0 == ds[1..][k].target;
      SelectAtPositions(ds[1..], ts[1..], start + 1, t);
      var s' := Select(ts[1..], t);
      var q := Positions(ds[1..], t, start + 1);
      SelectedAtShift(s', q, ts, start);
      if ds[0].target == t {
        assert Select(ts, t) == [ts[0].1] + s';
        assert Positions(ds, t, start) == [start] + q;
        SelectedAtCons(s', q, ts, start);
      } else {
        assert Select(ts, t) == s' && Positions(ds, t, start) == q;
      }
    }
  }

  /** The list of `out` that drafts bound for `t` go to. */
  function ListOf(out: SketchOut, t: Target): seq<Item> {
    match t
    case Connections => out.connections
    case Loops => out.loops
    case Construction => out.constructionSegments
  }

  /** What `ReadSketch` puts on each list: the emitted objects bound for it,
      in emission order, the `k`-th emitted object of the whole sketch
      carrying the id `faceId:k`. */
  lemma ReadSketchContents(layers: seq<Layer>, faceId: string, readConstruction: bool, t: Target)
    requires ReadSketch(Some(layers), faceId, readConstruction).Ok?
    ensures ReadLayers(layers, readConstruction).Ok?
    ensures var ds := ReadLayers(layers, readConstruction).value;
      var list := ListOf(ReadSketch(Some(layers), faceId, readConstruction).value, t);
      var p := Positions(ds, t, 0);
      && |list| == |p|
      && forall i :: 0 <= i < |list| ==> p[i] < |ds| && list[i] == Item(Id(faceId, p[i]), ds[p[i]].shape)
  {
    var ds := ReadLayers(layers, readConstruction).value;
    var ts := Number(ds, faceId, 0);
    assert ReadSketch(Some(layers), faceId, readConstruction).value
      == SketchOut(Select(ts, Connections), Select(ts, Loops), Select(ts, Construction));
    SelectAtPositions(ds, ts, 0, t);
  }

  // ---------------------------------------------------------------------
  // sketchToPaths

  /** The neighbours `memDir` registers for `p` while walking the segment
      ends `segs` (each segment `(a, b)` calls `memDir(a, b)` then
      `memDir(b, a)`), in registration order. */
  function Dirs(segs: seq<(Vec3, Vec3)>, p: Vec3): seq<Vec3> {
    if |segs| == 0 then []
    else
      var s := segs[|segs| - 1];
      Dirs(segs[..|segs| - 1], p) + (if s.0 == p then [s.1] else []) + (if s.1 == p then [s.0] else [])
  }

  /** The adjacency of `sketchToPaths`: `dict` maps each point to its
      neighbours, `points` lists the points in the order first seen. */
  datatype Adjacency = Adjacency(dict: map<Vec3, seq<Vec3>>, points: seq<Vec3>)

  /** `memDir(a, b)`: `b` is appended to `a`'s neighbours; `a` is recorded
      as a point the first time it is seen. */
  function MemDir(adj: Adjacency, a: Vec3, b: Vec3): (r: Adjacency)
    ensures a in r.dict && r.dict[a] == (if a in adj.dict then adj.dict[a] else []) + [b]
    ensures forall q :: q != a ==> (q in r.dict <==> q in adj.dict) && (q in adj.dict ==> r.dict[q] == adj.dict[q])
    ensures r.points == if a in adj.dict then adj.points else adj.points + [a]
  {
    if a in adj.dict then Adjacency(adj.dict[a := adj.dict[a] + [b]], adj.points)
    else Adjacency(adj.dict[a := [b]], adj.points + [a])
  }

  /** `dict` and `points` describe exactly the segments `segs`. */
  ghost predicate AdjacencyOf(adj: Adjacency, segs: seq<(Vec3, Vec3)>) {
    && (forall p :: p in adj.dict <==> Dirs(segs, p) != [])
    && (forall p :: p in adj.dict ==> adj.dict[p] == Dirs(segs, p))
    && Distinct(adj.points) && (forall p :: p in adj.points <==> p in adj.dict)
  }

  /** A new last segment adds its other end to the neighbours of each of
      its ends. */
  lemma DirsAppend(segs: seq<(Vec3, Vec3)>, a: Vec3, b: Vec3, p: Vec3)
    ensures Dirs(segs + [(a, b)], p) == Dirs(segs, p) + (if a == p then [b] else []) + (if b == p then [a] else [])
  {
    var segs' := segs + [(a, b)];
    assert segs'[..|segs'| - 1] == segs;
  }

  /** One segment's two `memDir` calls keep `AdjacencyOf`. */
  lemma MemDirStep(adj: Adjacency, segs: seq<(Vec3, Vec3)>, a: Vec3, b: Vec3)
    requires AdjacencyOf(adj, segs)
    ensures AdjacencyOf(MemDir(MemDir(adj, a, b), b, a), segs + [(a, b)])
  {
    var adj2 := MemDir(MemDir(adj, a, b), b, a);
    forall p ensures (p in adj2.dict <==> Dirs(segs + [(a, b)], p) != [])
                  && (p in adj2.dict ==> adj2.dict[p] == Dirs(segs + [(a, b)], p)) {
      MemDirAt(adj, segs, a, b, p);
    }
    MemDirPoints(adj, segs, a, b);
  }

  /** After one segment's two `memDir` calls, the neighbours of `p` are
      its neighbours along the extended segment list. */
  lemma MemDirAt(adj: Adjacency, segs: seq<(Vec3, Vec3)>, a: Vec3, b: Vec3, p: Vec3)
    requires AdjacencyOf(adj, segs)
    ensures var adj2 := MemDir(MemDir(adj, a, b), b, a);
      && (p in adj2.dict <==> Dirs(segs + [(a, b)], p) != [])
      && (p in adj2.dict ==> adj2.dict[p] == Dirs(segs + [(a, b)], p))
  {
    DirsAppend(segs, a, b, p);
    var old1 := if p in adj.dict then adj.dict[p] else [];
    assert old1 == Dirs(segs, p);
  }

  /** One segment's two `memDir` calls record each new end once. */
  lemma MemDirPoints(adj: Adjacency, segs: seq<(Vec3, Vec3)>, a: Vec3, b: Vec3)
    requires AdjacencyOf(adj, segs)
    ensures var adj2 := MemDir(MemDir(adj, a, b), b, a);
      Distinct(adj2.points) && forall p :: p in adj2.points <==> p in adj2.dict
  {
    var adj1 := MemDir(adj, a, b);
    if a !in adj.dict {
      DistinctAppend(adj.points, a);
    }
    if b !in adj1.dict {
      DistinctAppend(adj1.points, b);
    }
  }

  /** The first loop of `sketchToPaths`: each segment registers `b` among
      `a`'s neighbours and `a` among `b`'s; a point is recorded once, when
      first seen. */
  method BuildAdjacency(segs: seq<(Vec3, Vec3)>) returns (adj: Adjacency)
    ensures AdjacencyOf(adj, segs)
  {
    adj := Adjacency(map[], []);
    var i := 0;
    while i < |segs|
      invariant i <= |segs| && AdjacencyOf(adj, segs[..i])
    {
      var (a, b) := segs[i];
      assert segs[..i + 1] == segs[..i] + [(a, b)];
      MemDirStep(adj, segs[..i], a, b);
      adj := MemDir(MemDir(adj, a, b), b, a);
      i := i + 1;
    }
    assert segs[..i] == segs;
  }

  /** The segment tables of `sketchToPaths`: `edges.put([a, b], seg)` for
      every segment in order, so a later segment with the same ends wins. */
  function EdgeTable(segs: seq<(Vec3, Vec3)>): (r: map<(Vec3, Vec3), nat>)
    ensures forall key :: key in r <==> key in segs
    ensures forall key :: key in r ==>
      (r[key] < |segs| && segs[r[key]] == key && forall k :: r[key] < k < |segs| ==> segs[k] != key)
  {
    if |segs| == 0 then map[]
    else EdgeTable(segs[..|segs| - 1])[segs[|segs| - 1] := |segs| - 1]
  }

  /** A contour: each segment by its index among the connections and
      whether it was inverted to follow the loop. */
  datatype Path =
    | Chain(segments: seq<(nat, bool)>, reversed: bool)
    | Closed(loopIndex: nat, reversed: bool)

  /** The segments of one found loop: for each point and its successor the
      segment stored under `[point, next]`, else the one under
      `[next, point]` inverted; a missing segment is a `TypeError`
      (`null.invert()`). */
  function ContourOf(table: map<(Vec3, Vec3), nat>, loop: seq<Vec3>, pi: nat): (r: Option<seq<(nat, bool)>>)
    requires pi <= |loop|
    ensures r.Some? ==> |r.value| == |loop| - pi
    ensures r.Some? <==> forall k :: pi <= k < |loop| ==>
      (loop[k], NextOf(loop, k)) in table || (NextOf(loop, k), loop[k]) in table
    decreases |loop| - pi
  {
    if pi == |loop| then Some([])
    else
      var point := loop[pi];
      var next := NextOf(loop, pi);
      var here :=
        if (point, next) in table then Some((table[(point, next)], false))
        else if (next, point) in table then Some((table[(next, point)], true))
        else None;
      var rest := ContourOf(table, loop, pi + 1);
      if here.Some? && rest.Some? then Some([here.value] + rest.value) else None
  }

  /** The found loops, turned into contours and filtered: contours of
      fewer than 3 segments are dropped; a kept contour is reversed when
      `isCCW` says it is clockwise. */
  function Contours(table: map<(Vec3, Vec3), nat>, loops: seq<seq<Vec3>>,
                    isCCW: seq<(nat, bool)> -> bool): (r: Option<seq<Path>>)
    ensures r.Some? <==> forall j :: 0 <= j < |loops| ==> ContourOf(table, loops[j], 0).Some?
    ensures r.Some? ==> |r.value| == CountLong(loops)
    ensures r.Some? ==> forall k :: 0 <= k < |r.value| ==> r.value[k].Chain? && |r.value[k].segments| >= 3
  {
    if |loops| == 0 then Some([])
    else
      var c := ContourOf(table, loops[0], 0);
      var rest := Contours(table, loops[1..], isCCW);
      if c.None? || rest.None? then None
      else Some((if |c.value| >= 3 then [Chain(c.value, !isCCW(c.value))] else []) + rest.value)
  }

  /** The number of found loops with at least 3 points. */
  function CountLong(loops: seq<seq<Vec3>>): nat {
    if |loops| == 0 then 0 else (if |loops[0]| >= 3 then 1 else 0) + CountLong(loops[1..])
  }

  /** `sketchToPaths(geom)`: `segs` are the ends of `geom.connections`,
      `found` the point loops `Graph.findAllLoops` returns for the
      adjacency, `closedCCW` whether each of `geom.loops` is CCW. The
      contours of the found loops come first, then one per closed curve. */
  function SketchToPaths(segs: seq<(Vec3, Vec3)>, found: seq<seq<Vec3>>,
                         isCCW: seq<(nat, bool)> -> bool, closedCCW: seq<bool>): (r: Option<seq<Path>>)
    ensures r.Some? <==> forall j :: 0 <= j < |found| ==> ContourOf(EdgeTable(segs), found[j], 0).Some?
    ensures r.Some? ==> |r.value| == CountLong(found) + |closedCCW|
    ensures r.Some? ==> forall k :: 0 <= k < |r.value| ==>
      (k < CountLong(found) ==> r.value[k].Chain? && |r.value[k].segments| >= 3)
      && (k >= CountLong(found) ==> r.value[k] == Closed(k - CountLong(found), !closedCCW[k - CountLong(found)]))
  {
    var chains := Contours(EdgeTable(segs), found, isCCW);
    if chains.None? then None
    else Some(chains.value + seq(|closedCCW|, j requires 0 <= j < |closedCCW| => Closed(j, !closedCCW[j])))
  }
}
