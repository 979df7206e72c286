/** `invert(shell)` of `web/app/brep/operations/boolean.js`, which
    `subtract` applies to its second operand: every face of the shell gets
    the inverted surface and a toggled `INVERTED` flag, and every loop of
    every face is inverted with `invertLoop`. */
module Invert {
  import opened Seqs
  import opened Topo
  import opened Builder

  /** `face.surface = face.surface.invert(); face.data.INVERTED =
      !face.data.INVERTED`, with `inv` standing for `Surface.invert`. */
  function FlipFace(x: Face, inv: Surface -> Surface): Face {
    x.(surface := inv(x.surface), data := x.data.(inverted := !x.data.inverted))
  }

  /** Every listed face has a record. */
  ghost predicate FacesIn(ar: Arena, faces: seq<FaceId>) {
    forall k :: 0 <= k < |faces| ==> faces[k] in ar.faces
  }

  /** The update of one face record. */
  function FlipOne(ar: Arena, f: FaceId, inv: Surface -> Surface): (r: Arena)
    requires f in ar.faces
    ensures r.halfEdges == ar.halfEdges && r.loops == ar.loops && r.faces.Keys == ar.faces.Keys
    ensures r.points == ar.points && r.edges == ar.edges && r.shells == ar.shells && r.nextHandle == ar.nextHandle
    ensures r.faces[f] == FlipFace(ar.faces[f], inv)
    ensures forall g :: g in ar.faces && g != f ==> r.faces[g] == ar.faces[g]
  {
    ar.(faces := ar.faces[f := FlipFace(ar.faces[f], inv)])
  }

  /** The face updates of `invert`, face after face. They touch only face
      records and never a face's loops. */
  function FlipFaces(ar: Arena, faces: seq<FaceId>, inv: Surface -> Surface): (r: Arena)
    requires FacesIn(ar, faces)
    ensures r.halfEdges == ar.halfEdges && r.loops == ar.loops && r.faces.Keys == ar.faces.Keys
    ensures r.points == ar.points && r.edges == ar.edges && r.shells == ar.shells && r.nextHandle == ar.nextHandle
    ensures forall f :: f in ar.faces ==> r.faces[f].outerLoop == ar.faces[f].outerLoop && r.faces[f].innerLoops == ar.faces[f].innerLoops
    ensures forall f :: f in ar.faces && f !in faces ==> r.faces[f] == ar.faces[f]
    ensures Distinct(faces) ==> forall f :: f in faces ==> r.faces[f] == FlipFace(ar.faces[f], inv)
    decreases |faces|
  {
    if |faces| == 0 then ar
    else
      var ar1 := FlipOne(ar, faces[0], inv);
      assert FacesIn(ar1, faces[1..]);
      FlipFacesStep(faces);
      FlipFaces(ar1, faces[1..], inv)
  }

  lemma FlipFacesStep(faces: seq<FaceId>)
    requires |faces| > 0
    ensures forall x :: x in faces <==> x == faces[0] || x in faces[1..]
    ensures Distinct(faces) ==> faces[0] !in faces[1..] && Distinct(faces[1..])
  {
    assert faces == [faces[0]] + faces[1..];
  }

  /** The loops of the listed faces, face after face, each face's in
      `loops` order. */
  function ShellLoops(ar: Arena, faces: seq<FaceId>): (r: seq<LoopId>)
    requires FacesIn(ar, faces)
    ensures forall l :: l in r <==> exists k :: 0 <= k < |faces| && l in Loops(ar.faces[faces[k]])
    decreases |faces|
  {
    if |faces| == 0 then []
    else
      assert FacesIn(ar, faces[1..]);
      var rest := ShellLoops(ar, faces[1..]);
      assert forall k :: 1 <= k < |faces| ==> faces[k] == faces[1..][k - 1];
      assert forall k :: 0 <= k < |faces[1..]| ==> faces[1..][k] == faces[k + 1];
      Loops(ar.faces[faces[0]]) + rest
  }

  /** Every listed loop exists and lists existing half-edges. */
  ghost predicate Invertible(ar: Arena, ls: seq<LoopId>) {
    forall k :: 0 <= k < |ls| ==> ls[k] in ar.loops && AllIn(ar, ar.loops[ls[k]].halfEdges)
  }

  /** `invertLoop` on each listed loop in turn. */
  function InvertLoops(ar: Arena, ls: seq<LoopId>): (r: Arena)
    requires Invertible(ar, ls)
    ensures r.halfEdges.Keys == ar.halfEdges.Keys && r.loops.Keys == ar.loops.Keys
    ensures r.faces == ar.faces && r.points == ar.points && r.edges == ar.edges
    ensures r.shells == ar.shells && r.nextHandle == ar.nextHandle
    decreases |ls|
  {
    if |ls| == 0 then ar
    else
      var ar1 := InvertLoop(ar, ls[0]);
      assert Invertible(ar1, ls[1..]) by {
        forall k | 0 <= k < |ls[1..]| ensures ls[1..][k] in ar1.loops && AllIn(ar1, ar1.loops[ls[1..][k]].halfEdges) {
          var l := ls[1..][k];
          assert l == ls[k + 1];
          if l != ls[0] {
            assert ar1.loops[l] == ar.loops[l];
          }
        }
      }
      InvertLoops(ar1, ls[1..])
  }

  /** One step of `InvertLoops`. */
  lemma InvertLoopsUnfold(ar: Arena, ls: seq<LoopId>)
    requires |ls| > 0 && Invertible(ar, ls)
    ensures Invertible(InvertLoop(ar, ls[0]), ls[1..])
    ensures InvertLoops(ar, ls) == InvertLoops(InvertLoop(ar, ls[0]), ls[1..])
  {
  }

  /** `invert(shell)` for the faces `faces` of the shell. The face updates
      and the loop inversions of the source are interleaved face by face;
      since the first touch only face records and the second never read
      them, running all face updates first gives the same arena. */
  function InvertShell(ar: Arena, faces: seq<FaceId>, inv: Surface -> Surface): (r: Arena)
    requires FacesIn(ar, faces) && Invertible(ar, ShellLoops(ar, faces))
    ensures r.halfEdges.Keys == ar.halfEdges.Keys && r.loops.Keys == ar.loops.Keys && r.faces.Keys == ar.faces.Keys
    ensures forall f :: f in ar.faces ==> Loops(r.faces[f]) == Loops(ar.faces[f])
  {
    var ar1 := FlipFaces(ar, faces, inv);
    assert ShellLoops(ar1, faces) == ShellLoops(ar, faces) by { ShellLoopsSame(ar, ar1, faces); }
    InvertLoops(ar1, ShellLoops(ar, faces))
  }

  lemma {:induction false} ShellLoopsSame(ar: Arena, ar1: Arena, faces: seq<FaceId>)
    requires FacesIn(ar, faces) && FacesIn(ar1, faces)
    requires forall k :: 0 <= k < |faces| ==> Loops(ar1.faces[faces[k]]) == Loops(ar.faces[faces[k]])
    ensures ShellLoops(ar1, faces) == ShellLoops(ar, faces)
    decreases |faces|
  {
    if |faces| > 0 {
      assert FacesIn(ar, faces[1..]) && FacesIn(ar1, faces[1..]);
      ShellLoopsSame(ar, ar1, faces[1..]);
    }
  }

  // ---------------------------------------------------------------------
  // what inversion does to each half-edge

  /** The listed loops are distinct, invertible, without repeated
      half-edges, and no half-edge is in two of them. */
  ghost predicate LoopsApart(ar: Arena, ls: seq<LoopId>) {
    && Distinct(ls) && Invertible(ar, ls)
    && (forall k :: 0 <= k < |ls| ==> Distinct(ar.loops[ls[k]].halfEdges))
    && (forall i, j, x :: 0 <= i < j < |ls| && x in ar.loops[ls[i]].halfEdges ==> x !in ar.loops[ls[j]].halfEdges)
  }

  /** `x` is a half-edge of one of the listed loops. */
  ghost predicate InLoops(ar: Arena, ls: seq<LoopId>, x: HalfEdgeId)
    requires Invertible(ar, ls)
  {
    exists k :: 0 <= k < |ls| && x in ar.loops[ls[k]].halfEdges
  }

  /** The loops after the first of an apart list are apart, also after
      the first one is inverted, and keep their lists. */
  lemma ApartTail(ar: Arena, ls: seq<LoopId>)
    requires |ls| > 0 && LoopsApart(ar, ls)
    ensures LoopsApart(InvertLoop(ar, ls[0]), ls[1..])
    ensures forall k :: 0 <= k < |ls[1..]| ==> InvertLoop(ar, ls[0]).loops[ls[1..][k]] == ar.loops[ls[1..][k]]
  {
    var ar1 := InvertLoop(ar, ls[0]);
    var rest := ls[1..];
    forall k | 0 <= k < |rest| ensures ar1.loops[rest[k]] == ar.loops[rest[k]] {
      assert rest[k] == ls[k + 1];
    }
    forall i, j, x | 0 <= i < j < |rest| && x in ar1.loops[rest[i]].halfEdges
      ensures x !in ar1.loops[rest[j]].halfEdges
    {
      assert rest[i] == ls[i + 1] && rest[j] == ls[j + 1];
    }
    forall k | 0 <= k < |rest| ensures Distinct(ar1.loops[rest[k]].halfEdges) {
      assert rest[k] == ls[k + 1];
    }
  }

  /** A half-edge in none of the listed loops is left alone. */
  lemma {:induction false} InvertLoopsOther(ar: Arena, ls: seq<LoopId>, x: HalfEdgeId)
    requires Invertible(ar, ls) && x in ar.halfEdges && !InLoops(ar, ls, x)
    ensures InvertLoops(ar, ls).halfEdges[x] == ar.halfEdges[x]
    decreases |ls|
  {
    if |ls| > 0 {
      InvertLoopsUnfold(ar, ls);
      OtherTailFacts(ar, ls, x);
      InvertLoopsOther(InvertLoop(ar, ls[0]), ls[1..], x);
    }
  }

  /** A half-edge outside every listed loop stays outside them, and keeps
      its record, when the first loop is inverted. */
  lemma OtherTailFacts(ar: Arena, ls: seq<LoopId>, x: HalfEdgeId)
    requires |ls| > 0 && Invertible(ar, ls) && x in ar.halfEdges && !InLoops(ar, ls, x)
    ensures var ar1 := InvertLoop(ar, ls[0]);
      && Invertible(ar1, ls[1..]) && x in ar1.halfEdges && !InLoops(ar1, ls[1..], x)
      && ar1.halfEdges[x] == ar.halfEdges[x]
  {
    var ar1 := InvertLoop(ar, ls[0]);
    var rest := ls[1..];
    InvertLoopsUnfold(ar, ls);
    assert x !in ar.loops[ls[0]].halfEdges;
    ReverseMembership(ar.loops[ls[0]].halfEdges, x);
    assert x !in ar1.loops[ls[0]].halfEdges;
    forall j | 0 <= j < |rest| ensures x !in ar1.loops[rest[j]].halfEdges {
      var l := rest[j];
      assert l == ls[j + 1];
      if l != ls[0] {
        assert ar1.loops[l] == ar.loops[l];
      }
    }
  }

  /** A loop that is not listed is left alone. */
  lemma {:induction false} InvertLoopsLoopOther(ar: Arena, ls: seq<LoopId>, l: LoopId)
    requires Invertible(ar, ls) && l in ar.loops && l !in ls
    ensures InvertLoops(ar, ls).loops[l] == ar.loops[l]
    decreases |ls|
  {
    if |ls| > 0 {
      assert ls[0] in ls;
      assert forall y :: y in ls[1..] ==> y in ls;
      InvertLoopsLoopOther(InvertLoop(ar, ls[0]), ls[1..], l);
    }
  }

  /** Each listed loop ends up reversed. */
  lemma {:induction false} InvertLoopsLoop(ar: Arena, ls: seq<LoopId>, k: nat)
    requires LoopsApart(ar, ls) && k < |ls|
    ensures InvertLoops(ar, ls).loops[ls[k]] == ar.loops[ls[k]].(halfEdges := Reverse(ar.loops[ls[k]].halfEdges))
    decreases |ls|
  {
    var ar1 := InvertLoop(ar, ls[0]);
    var rest := ls[1..];
    ApartTail(ar, ls);
    if k == 0 {
      forall j | 0 <= j < |rest| ensures rest[j] != ls[0] { assert rest[j] == ls[j + 1]; }
      InvertLoopsLoopOther(ar1, rest, ls[0]);
    } else {
      assert ls[k] == rest[k - 1];
      InvertLoopsLoop(ar1, rest, k - 1);
    }
  }

  /** What the members of a later loop see after the first loop is
      inverted. */
  lemma MemberTailFacts(ar: Arena, ls: seq<LoopId>, l: LoopId, x: HalfEdgeId)
    requires LoopsApart(ar, ls) && l in ls && l != ls[0] && x in ar.loops[l].halfEdges
    ensures var ar1 := InvertLoop(ar, ls[0]);
      && LoopsApart(ar1, ls[1..]) && l in ls[1..]
      && ar1.loops[l] == ar.loops[l] && ar1.halfEdges[x] == ar.halfEdges[x]
      && x in ar.halfEdges
  {
    ApartTail(ar, ls);
    var k :| 0 <= k < |ls| && ls[k] == l;
    assert ls[1..][k - 1] == l;
    assert x !in ar.loops[ls[0]].halfEdges;
  }

  /** The members of the first loop see no later loop. */
  lemma MemberHeadFacts(ar: Arena, ls: seq<LoopId>, x: HalfEdgeId)
    requires LoopsApart(ar, ls) && 0 < |ls| && x in ar.loops[ls[0]].halfEdges
    ensures var ar1 := InvertLoop(ar, ls[0]);
      && Invertible(ar1, ls[1..]) && x in ar1.halfEdges && !InLoops(ar1, ls[1..], x)
  {
    var ar1 := InvertLoop(ar, ls[0]);
    var rest := ls[1..];
    ApartTail(ar, ls);
    forall j | 0 <= j < |rest| ensures x !in ar1.loops[rest[j]].halfEdges {
      var l := rest[j];
      assert l == ls[j + 1];
      if l != ls[0] {
        assert ar1.loops[l] == ar.loops[l];
      }
    }
  }

  /** `InvertedRec` reads only the loop's list and the member's record. */
  lemma InvertedRecSame(a: Arena, b: Arena, l: LoopId, x: HalfEdgeId)
    requires l in a.loops && x in a.halfEdges && x in a.loops[l].halfEdges
    requires l in b.loops && x in b.halfEdges && b.loops[l] == a.loops[l] && b.halfEdges[x] == a.halfEdges[x]
    ensures InvertedRec(b, l, x) == InvertedRec(a, l, x)
  {
  }

  /** The members of the first loop keep the record its inversion gives
      them. */
  lemma InvertLoopsHead(ar: Arena, ls: seq<LoopId>, x: HalfEdgeId)
    requires LoopsApart(ar, ls) && 0 < |ls| && x in ar.loops[ls[0]].halfEdges
    ensures x in ar.halfEdges && InvertLoops(ar, ls).halfEdges[x] == InvertedRec(ar, ls[0], x)
  {
    InvertLoopsUnfold(ar, ls);
    MemberHeadFacts(ar, ls, x);
    InvertLoopsOther(InvertLoop(ar, ls[0]), ls[1..], x);
    InvertLoopAt(ar, ls[0], x);
  }

  /** Each member of a listed loop ends up with the record `invertLoop`
      of that loop alone gives it. */
  lemma {:induction false} InvertLoopsMember(ar: Arena, ls: seq<LoopId>, l: LoopId, x: HalfEdgeId)
    requires LoopsApart(ar, ls) && l in ls && x in ar.loops[l].halfEdges
    ensures x in ar.halfEdges && InvertLoops(ar, ls).halfEdges[x] == InvertedRec(ar, l, x)
    decreases |ls|
  {
    if l == ls[0] {
      InvertLoopsHead(ar, ls, x);
    } else {
      var ar1 := InvertLoop(ar, ls[0]);
      InvertLoopsUnfold(ar, ls);
      MemberTailFacts(ar, ls, l, x);
      InvertLoopsMember(ar1, ls[1..], l, x);
      InvertedRecSame(ar, ar1, l, x);
    }
  }

  /** `invert` flips every listed face: its surface is inverted and its
      `INVERTED` flag toggled. Faces outside the shell do not change. */
  lemma InvertShellFaces(ar: Arena, faces: seq<FaceId>, inv: Surface -> Surface)
    requires FacesIn(ar, faces) && Invertible(ar, ShellLoops(ar, faces))
    ensures var r := InvertShell(ar, faces, inv);
      && (Distinct(faces) ==> forall f :: f in faces ==>
            r.faces[f] == ar.faces[f].(surface := inv(ar.faces[f].surface),
                                       data := ar.faces[f].data.(inverted := !ar.faces[f].data.inverted)))
      && (forall f :: f in ar.faces && f !in faces ==> r.faces[f] == ar.faces[f])
  {
    var ar1 := FlipFaces(ar, faces, inv);
    ShellLoopsSame(ar, ar1, faces);
  }

  /** `invert` reverses every loop of the shell's faces and leaves every
      other loop alone. */
  lemma InvertShellLoops(ar: Arena, faces: seq<FaceId>, inv: Surface -> Surface, l: LoopId)
    requires FacesIn(ar, faces) && LoopsApart(ar, ShellLoops(ar, faces)) && l in ar.loops
    ensures var r := InvertShell(ar, faces, inv);
      && (l in ShellLoops(ar, faces) ==> r.loops[l] == ar.loops[l].(halfEdges := Reverse(ar.loops[l].halfEdges)))
      && (l !in ShellLoops(ar, faces) ==> r.loops[l] == ar.loops[l])
  {
    var ls := ShellLoops(ar, faces);
    var ar1 := FlipFaces(ar, faces, inv);
    ShellLoopsSame(ar, ar1, faces);
    assert LoopsApart(ar1, ls);
    if l in ls {
      var k :| 0 <= k < |ls| && ls[k] == l;
      InvertLoopsLoop(ar1, ls, k);
    } else {
      InvertLoopsLoopOther(ar1, ls, l);
    }
  }

  /** The face updates change nothing `InvertLoops` reads. */
  lemma FlipKeepsLoops(ar: Arena, faces: seq<FaceId>, inv: Surface -> Surface)
    requires FacesIn(ar, faces) && Invertible(ar, ShellLoops(ar, faces))
    ensures var ar1 := FlipFaces(ar, faces, inv);
      && ar1.halfEdges == ar.halfEdges && ar1.loops == ar.loops
      && Invertible(ar1, ShellLoops(ar, faces))
      && InvertShell(ar, faces, inv) == InvertLoops(ar1, ShellLoops(ar, faces))
      && (LoopsApart(ar, ShellLoops(ar, faces)) ==> LoopsApart(ar1, ShellLoops(ar, faces)))
  {
    ShellLoopsSame(ar, FlipFaces(ar, faces, inv), faces);
  }

  /** What `InvertedRec` keeps and what it exchanges. */
  lemma InvertedRecFields(ar: Arena, l: LoopId, x: HalfEdgeId)
    requires l in ar.loops && x in ar.halfEdges && x in ar.loops[l].halfEdges
    ensures var y := InvertedRec(ar, l, x);
      && y.vertexA == ar.halfEdges[x].vertexB && y.vertexB == ar.halfEdges[x].vertexA
      && y.edge == ar.halfEdges[x].edge && y.inverted == ar.halfEdges[x].inverted
      && y.loop == ar.halfEdges[x].loop
  {
  }

  /** `invert` gives each half-edge of a loop of the shell the record
      `invertLoop` of that loop gives it: endpoints exchanged, links to its
      neighbours in the reversed loop, edge, flag and loop kept. */
  lemma InvertShellMember(ar: Arena, faces: seq<FaceId>, inv: Surface -> Surface, l: LoopId, x: HalfEdgeId)
    requires FacesIn(ar, faces) && LoopsApart(ar, ShellLoops(ar, faces))
    requires l in ShellLoops(ar, faces) && x in ar.loops[l].halfEdges
    ensures x in ar.halfEdges
    ensures var r := InvertShell(ar, faces, inv);
      && r.halfEdges[x] == InvertedRec(ar, l, x)
      && r.halfEdges[x].vertexA == ar.halfEdges[x].vertexB && r.halfEdges[x].vertexB == ar.halfEdges[x].vertexA
      && r.halfEdges[x].edge == ar.halfEdges[x].edge && r.halfEdges[x].inverted == ar.halfEdges[x].inverted
      && r.halfEdges[x].loop == ar.halfEdges[x].loop
  {
    var ar1 := FlipFaces(ar, faces, inv);
    FlipKeepsLoops(ar, faces, inv);
    InvertLoopsMember(ar1, ShellLoops(ar, faces), l, x);
    InvertedRecSame(ar1, ar, l, x);
    InvertedRecFields(ar, l, x);
  }

  /** A half-edge in no loop of the shell's faces is left alone. */
  lemma InvertShellOther(ar: Arena, faces: seq<FaceId>, inv: Surface -> Surface, x: HalfEdgeId)
    requires FacesIn(ar, faces) && Invertible(ar, ShellLoops(ar, faces))
    requires x in ar.halfEdges && !InLoops(ar, ShellLoops(ar, faces), x)
    ensures InvertShell(ar, faces, inv).halfEdges[x] == ar.halfEdges[x]
  {
    var ar1 := FlipFaces(ar, faces, inv);
    FlipKeepsLoops(ar, faces, inv);
    assert !InLoops(ar1, ShellLoops(ar, faces), x);
    InvertLoopsOther(ar1, ShellLoops(ar, faces), x);
  }

  /** After `invert` the loops of the shell are still apart. */
  lemma ApartAfterInvert(ar: Arena, faces: seq<FaceId>, inv: Surface -> Surface)
    requires FacesIn(ar, faces) && LoopsApart(ar, ShellLoops(ar, faces))
    ensures var r := InvertShell(ar, faces, inv);
      FacesIn(r, faces) && ShellLoops(r, faces) == ShellLoops(ar, faces) && LoopsApart(r, ShellLoops(ar, faces))
  {
    var r := InvertShell(ar, faces, inv);
    var ls := ShellLoops(ar, faces);
    ShellLoopsSame(ar, r, faces);
    forall k | 0 <= k < |ls|
      ensures r.loops[ls[k]].halfEdges == Reverse(ar.loops[ls[k]].halfEdges)
    {
      InvertShellLoops(ar, faces, inv, ls[k]);
    }
    forall k | 0 <= k < |ls| ensures AllIn(r, r.loops[ls[k]].halfEdges) && Distinct(r.loops[ls[k]].halfEdges) {
      ReverseDistinct(ar.loops[ls[k]].halfEdges);
    }
    forall i, j, x | 0 <= i < j < |ls| && x in r.loops[ls[i]].halfEdges
      ensures x !in r.loops[ls[j]].halfEdges
    {
      ReverseMembership(ar.loops[ls[i]].halfEdges, x);
      ReverseMembership(ar.loops[ls[j]].halfEdges, x);
    }
  }

  /** Every loop of the shell is linked along its list. */
  ghost predicate LoopsLinked(ar: Arena, ls: seq<LoopId>)
    requires Invertible(ar, ls)
  {
    forall k :: 0 <= k < |ls| ==> Linked(ar, ar.loops[ls[k]].halfEdges)
  }

  /** `invert` applied twice to the same faces. */
  ghost function InvertTwice(ar: Arena, faces: seq<FaceId>, inv: Surface -> Surface): Arena
    requires FacesIn(ar, faces) && LoopsApart(ar, ShellLoops(ar, faces))
  {
    ApartAfterInvert(ar, faces, inv);
    InvertShell(InvertShell(ar, faces, inv), faces, inv)
  }

  /** A member of a loop of the shell gets its record back after two
      inversions. */
  lemma InvertTwiceMember(ar: Arena, faces: seq<FaceId>, inv: Surface -> Surface, l: LoopId, x: HalfEdgeId)
    requires FacesIn(ar, faces) && LoopsApart(ar, ShellLoops(ar, faces))
    requires LoopsLinked(ar, ShellLoops(ar, faces))
    requires l in ShellLoops(ar, faces) && x in ar.loops[l].halfEdges
    ensures x in ar.halfEdges && InvertTwice(ar, faces, inv).halfEdges[x] == ar.halfEdges[x]
  {
    var r1 := InvertShell(ar, faces, inv);
    var ls := ShellLoops(ar, faces);
    ApartAfterInvert(ar, faces, inv);
    InvertShellMember(ar, faces, inv, l, x);
    InvertShellLoops(ar, faces, inv, l);
    ReverseMembership(ar.loops[l].halfEdges, x);
    InvertShellMember(r1, faces, inv, l, x);
    var k :| 0 <= k < |ls| && ls[k] == l;
    assert Linked(ar, ar.loops[l].halfEdges);
    InvertedRecTwice(ar, r1, l, x);
  }

  /** A half-edge in no loop of the shell is never touched. */
  lemma InvertTwiceOther(ar: Arena, faces: seq<FaceId>, inv: Surface -> Surface, x: HalfEdgeId)
    requires FacesIn(ar, faces) && LoopsApart(ar, ShellLoops(ar, faces))
    requires x in ar.halfEdges && !InLoops(ar, ShellLoops(ar, faces), x)
    ensures InvertTwice(ar, faces, inv).halfEdges[x] == ar.halfEdges[x]
  {
    var r1 := InvertShell(ar, faces, inv);
    var ls := ShellLoops(ar, faces);
    ApartAfterInvert(ar, faces, inv);
    InvertShellOther(ar, faces, inv, x);
    assert !InLoops(r1, ls, x) by {
      forall k | 0 <= k < |ls| ensures x !in r1.loops[ls[k]].halfEdges {
        InvertShellLoops(ar, faces, inv, ls[k]);
        ReverseMembership(ar.loops[ls[k]].halfEdges, x);
      }
    }
    InvertShellOther(r1, faces, inv, x);
  }

  /** `invert` applied twice gives every half-edge its record back. */
  lemma InvertShellTwiceAt(ar: Arena, faces: seq<FaceId>, inv: Surface -> Surface, x: HalfEdgeId)
    requires FacesIn(ar, faces) && LoopsApart(ar, ShellLoops(ar, faces))
    requires LoopsLinked(ar, ShellLoops(ar, faces)) && x in ar.halfEdges
    ensures InvertTwice(ar, faces, inv).halfEdges[x] == ar.halfEdges[x]
  {
    var ls := ShellLoops(ar, faces);
    if k :| 0 <= k < |ls| && x in ar.loops[ls[k]].halfEdges {
      InvertTwiceMember(ar, faces, inv, ls[k], x);
    } else {
      InvertTwiceOther(ar, faces, inv, x);
    }
  }

  /** Two inversions restore the half-edge map. */
  lemma InvertTwiceHalfEdges(ar: Arena, faces: seq<FaceId>, inv: Surface -> Surface)
    requires FacesIn(ar, faces) && LoopsApart(ar, ShellLoops(ar, faces))
    requires LoopsLinked(ar, ShellLoops(ar, faces))
    ensures InvertTwice(ar, faces, inv).halfEdges == ar.halfEdges
  {
    var r2 := InvertTwice(ar, faces, inv);
    forall x | x in ar.halfEdges ensures r2.halfEdges[x] == ar.halfEdges[x] {
      InvertShellTwiceAt(ar, faces, inv, x);
    }
    MapExt(r2.halfEdges, ar.halfEdges);
  }

  /** Two inversions restore the loop map. */
  lemma InvertTwiceLoops(ar: Arena, faces: seq<FaceId>, inv: Surface -> Surface)
    requires FacesIn(ar, faces) && LoopsApart(ar, ShellLoops(ar, faces))
    ensures InvertTwice(ar, faces, inv).loops == ar.loops
  {
    var r1 := InvertShell(ar, faces, inv);
    ApartAfterInvert(ar, faces, inv);
    var r2 := InvertShell(r1, faces, inv);
    forall l | l in ar.loops ensures r2.loops[l] == ar.loops[l] {
      InvertShellLoops(ar, faces, inv, l);
      InvertShellLoops(r1, faces, inv, l);
      ReverseReverse(ar.loops[l].halfEdges);
    }
    MapExt(r2.loops, ar.loops);
  }

  /** Two inversions flip each face of the shell back, with its surface
      inverted twice. */
  lemma InvertTwiceFaces(ar: Arena, faces: seq<FaceId>, inv: Surface -> Surface)
    requires FacesIn(ar, faces) && Distinct(faces) && LoopsApart(ar, ShellLoops(ar, faces))
    ensures var r2 := InvertTwice(ar, faces, inv);
      && r2.faces.Keys == ar.faces.Keys
      && (forall f :: f in ar.faces && f !in faces ==> r2.faces[f] == ar.faces[f])
      && (forall f :: f in faces ==> r2.faces[f] == ar.faces[f].(surface := inv(inv(ar.faces[f].surface))))
  {
    var r1 := InvertShell(ar, faces, inv);
    ApartAfterInvert(ar, faces, inv);
    InvertShellFaces(ar, faces, inv);
    InvertShellFaces(r1, faces, inv);
  }

  /** `invert` is an involution on the topology of a shell whose loops are
      apart and linked: half-edges and loops come back unchanged, and each
      face comes back with its flag and loops and the surface inverted
      twice. */
  lemma InvertShellTwice(ar: Arena, faces: seq<FaceId>, inv: Surface -> Surface)
    requires FacesIn(ar, faces) && Distinct(faces) && LoopsApart(ar, ShellLoops(ar, faces))
    requires LoopsLinked(ar, ShellLoops(ar, faces))
    ensures var r2 := InvertTwice(ar, faces, inv);
      && r2.halfEdges == ar.halfEdges && r2.loops == ar.loops && r2.faces.Keys == ar.faces.Keys
      && (forall f :: f in ar.faces && f !in faces ==> r2.faces[f] == ar.faces[f])
      && (forall f :: f in faces ==> r2.faces[f] == ar.faces[f].(surface := inv(inv(ar.faces[f].surface))))
  {
    InvertTwiceHalfEdges(ar, faces, inv);
    InvertTwiceLoops(ar, faces, inv);
    InvertTwiceFaces(ar, faces, inv);
  }
}
