/** The parameter and shell helpers of `web/app/3d/craft/brep/cut-extrude.js`. */
module CutExtrude {
  import opened Topo

  /** The operation parameters the helpers touch: the signed `value`
      (extrusion depth) and the rest of the parameter bag, kept opaque. */
  datatype ExtrudeParams = ExtrudeParams(value: real, face: string, rotation: real, angle: real)

  /** What `fixNegativeValue(params)` returns: the parameters and whether
      they are a new object (`Object.assign({}, params)`) rather than the
      very argument. */
  datatype Fixed = Fixed(params: ExtrudeParams, copied: bool)

  /** `fixNegativeValue`: a negative depth is replaced by its magnitude in
      a copy; otherwise the argument itself is returned. The argument is a
      value here, so it is never changed. */
  function FixNegativeValue(p: ExtrudeParams): (r: Fixed)
    ensures p.value < 0.0 ==> r.copied && r.params.value == -p.value && r.params.value > 0.0
    ensures p.value >= 0.0 ==> !r.copied && r.params == p
    ensures r.params.face == p.face && r.params.rotation == p.rotation && r.params.angle == p.angle
    ensures r.params.value >= 0.0
  {
    if p.value < 0.0 then Fixed(p.(value := p.value * -1.0), true) else Fixed(p, false)
  }

  /** Fixing is idempotent: a fixed depth is returned as it is, and the
      magnitude of the depth never changes. */
  lemma FixNegativeValueIdempotent(p: ExtrudeParams)
    ensures var q := FixNegativeValue(p).params;
      FixNegativeValue(q) == Fixed(q, false)
      && (q.value == p.value || q.value == -p.value)
  {
  }

  /** All faces of `shells`, shell after shell, in order. */
  function AllFaces(ar: Arena, shells: seq<ShellId>): (r: seq<FaceId>)
    requires forall k :: 0 <= k < |shells| ==> shells[k] in ar.shells
  {
    if |shells| == 0 then [] else ar.shells[shells[0]].faces + AllFaces(ar, shells[1..])
  }

  /** The total face count of `shells`. */
  function FaceCount(ar: Arena, shells: seq<ShellId>): nat
    requires forall k :: 0 <= k < |shells| ==> shells[k] in ar.shells
  {
    if |shells| == 0 then 0 else |ar.shells[shells[0]].faces| + FaceCount(ar, shells[1..])
  }

  /** The concatenation has one entry per face of each shell, and a face
      occurs in it exactly when some shell lists it. */
  lemma {:induction false} AllFacesContents(ar: Arena, shells: seq<ShellId>, f: FaceId)
    requires forall k :: 0 <= k < |shells| ==> shells[k] in ar.shells
    ensures |AllFaces(ar, shells)| == FaceCount(ar, shells)
    ensures f in AllFaces(ar, shells) <==> exists k :: 0 <= k < |shells| && f in ar.shells[shells[k]].faces
  {
    if |shells| > 0 {
      AllFacesContents(ar, shells[1..], f);
      if f in AllFaces(ar, shells) && f !in ar.shells[shells[0]].faces {
        var k :| 0 <= k < |shells[1..]| && f in ar.shells[shells[1..][k]].faces;
        assert f in ar.shells[shells[k + 1]].faces;
      }
      if exists k :: 0 <= k < |shells| && f in ar.shells[shells[k]].faces {
        var k :| 0 <= k < |shells| && f in ar.shells[shells[k]].faces;
        if k > 0 {
          assert shells[1..][k - 1] == shells[k];
        }
      }
    }
  }

  /** `combineShells(shells)`: a single shell is returned unchanged;
      otherwise a new shell lists every face of every input shell, in
      order. The faces' own `shell` fields are not touched. */
  function CombineShells(ar: Arena, shells: seq<ShellId>): (r: (Arena, ShellId))
    requires Bounded(ar) && forall k :: 0 <= k < |shells| ==> shells[k] in ar.shells
    ensures var (ar', s) := r;
      && Bounded(ar') && s in ar'.shells
      && (|shells| == 1 ==> ar' == ar && s == shells[0])
      && (|shells| != 1 ==>
            s !in ar.shells && ar'.shells == ar.shells[s := Shell(AllFaces(ar, shells))])
      && ar'.faces == ar.faces && ar'.loops == ar.loops && ar'.halfEdges == ar.halfEdges
      && ar'.edges == ar.edges && ar'.points == ar.points
  {
    if |shells| == 1 then (ar, shells[0])
    else
      var (ar1, s) := NewShell(ar);
      (ar1.(shells := ar1.shells[s := Shell(AllFaces(ar, shells))]), s)
  }
}
