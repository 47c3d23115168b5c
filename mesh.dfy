/** MtMesh: vertices, faces and the triangle strips derived from the faces. */
module Meshes {
  import opened Wrappers
  import opened Numerics
  import opened Vertices
  import opened Faces
  import opened TriangleStrips
  import opened Boxes
  import opened SeqFacts
  import opened GreedyRuns

  /** SetFaceVertices reads VertexIndices[0..2] of every face as indices into the mesh vertices. */
  predicate FacesIndexable(fs: seq<Face>, vs: seq<Vertex>)
  {
    forall k :: 0 <= k < |fs| ==>
      |fs[k].vertexIndices| >= 3 &&
      0 <= fs[k].vertexIndices[0] < |vs| && 0 <= fs[k].vertexIndices[1] < |vs| && 0 <= fs[k].vertexIndices[2] < |vs|
  }

  /** SetFaceVertices on one face: appends the mesh vertices at the face's first three indices
      to whatever the face already holds, touching nothing else. */
  function AttachVertices(f: Face, vs: seq<Vertex>): (g: Face)
    requires |f.vertexIndices| >= 3
    requires 0 <= f.vertexIndices[0] < |vs| && 0 <= f.vertexIndices[1] < |vs| && 0 <= f.vertexIndices[2] < |vs|
    ensures g.vertexIndices == f.vertexIndices && g.clockwise == f.clockwise
    ensures |g.vertices| == |f.vertices| + 3 && g.vertices[..|f.vertices|] == f.vertices
    ensures forall j :: 0 <= j < 3 ==> g.vertices[|f.vertices| + j] == vs[f.vertexIndices[j]]
  {
    f.(vertices := f.vertices + [vs[f.vertexIndices[0]], vs[f.vertexIndices[1]], vs[f.vertexIndices[2]]])
  }

  function AttachAll(fs: seq<Face>, vs: seq<Vertex>): (gs: seq<Face>)
    requires FacesIndexable(fs, vs)
    ensures |gs| == |fs| && forall k :: 0 <= k < |fs| ==> gs[k] == AttachVertices(fs[k], vs)
  {
    seq(|fs|, k requires 0 <= k < |fs| => AttachVertices(fs[k], vs))
  }

  /** The vertex copies of every face, which is what AddFace reads. */
  function VertexLists(fs: seq<Face>): (ls: seq<seq<Vertex>>)
    ensures |ls| == |fs| && forall k :: 0 <= k < |fs| ==> ls[k] == fs[k].vertices
  {
    seq(|fs|, k requires 0 <= k < |fs| => fs[k].vertices)
  }

  predicate Triangles(ls: seq<seq<Vertex>>)
  {
    forall k :: 0 <= k < |ls| ==> |ls[k]| >= 3
  }

  /** A fresh strip after AddFace of f, which always accepts. */
  function Seed(f: seq<Vertex>): (s: StripState)
    requires |f| >= 3
    ensures WellFormed(s) && s == StripState(f[..3], [0, 1, 2])
  {
    EmptyStripAcceptsFace(Empty, f);
    AddFaceSpec(Empty, f).1
  }

  /** AddFace as a total step: a strip that is not well formed or a face with fewer than three
      vertices is refused (the builder never produces either). */
  function AddTotal(s: StripState, f: seq<Vertex>): (bool, StripState)
  {
    if WellFormed(s) && |f| >= 3 then AddFaceSpec(s, f) else (false, s)
  }

  predicate AllNonEmpty(strips: seq<StripState>)
  {
    forall k :: 0 <= k < |strips| ==> WellFormed(strips[k]) && |strips[k].vertices| > 0
  }

  /** The strip list BuildTriangleStrips leaves, face by face: try the last strip, and open a
      new one when there is none or the last one rejects the face. */
  function BuildStrips(ls: seq<seq<Vertex>>): (strips: seq<StripState>)
    requires Triangles(ls)
    ensures |strips| == 0 <==> |ls| == 0
    ensures |strips| <= |ls| && AllNonEmpty(strips)
  {
    BuildStripsNonEmpty(ls);
    Build(AddTotal, Empty, ls)
  }

  lemma {:induction false} BuildStripsNonEmpty(ls: seq<seq<Vertex>>)
    requires Triangles(ls)
    ensures AllNonEmpty(Build(AddTotal, Empty, ls))
  {
    if |ls| > 0 {
      var init := ls[..|ls| - 1];
      BuildStripsNonEmpty(init);
      assert Build(AddTotal, Empty, ls) == Extend(AddTotal, Empty, ls);
      NextKeepsNonEmpty(Build(AddTotal, Empty, init), ls[|ls| - 1]);
    }
  }

  /** A face fed to non-empty well-formed strips leaves them so. */
  lemma NextKeepsNonEmpty(prev: seq<StripState>, f: seq<Vertex>)
    requires AllNonEmpty(prev) && |f| >= 3
    ensures AllNonEmpty(Next(AddTotal, Empty, prev, f))
  {
    var seed := AddTotal(Empty, f);
    assert seed.0 && |seed.1.vertices| > 0 by {
      EmptyStripAcceptsFace(Empty, f);
    }
    if |prev| == 0 {
      assert Next(AddTotal, Empty, prev, f) == [] + [seed.1];
      AppendKeepsNonEmpty([], seed.1);
    } else {
      var m := |prev| - 1;
      var r := AddTotal(prev[m], f);
      if r.0 {
        assert AllNonEmpty(prev[..m]);
        AppendKeepsNonEmpty(prev[..m], r.1);
      } else {
        AppendKeepsNonEmpty(prev, seed.1);
      }
    }
  }

  lemma AppendKeepsNonEmpty(prev: seq<StripState>, t: StripState)
    requires AllNonEmpty(prev) && WellFormed(t) && |t.vertices| > 0
    ensures AllNonEmpty(prev + [t])
  {
    assert forall k :: 0 <= k < |prev| ==> (prev + [t])[k] == prev[k];
  }


  /** One more face: the strips of the longer prefix are one Next step from the shorter one. */
  lemma BuildStripsStep(ls: seq<seq<Vertex>>, i: nat)
    requires Triangles(ls) && i < |ls|
    ensures Triangles(ls[..i]) && Triangles(ls[..i + 1])
    ensures BuildStrips(ls[..i + 1]) == Next(AddTotal, Empty, BuildStrips(ls[..i]), ls[i])
  {
    PrefixSnoc(ls, i);
    BuildSnoc(AddTotal, Empty, ls[..i], ls[i]);
  }

  function TotalFaces(strips: seq<StripState>): nat
  {
    if |strips| == 0 then 0 else TotalFaces(strips[..|strips| - 1]) + FaceCount(strips[|strips| - 1])
  }

  lemma TotalFacesSnoc(strips: seq<StripState>, t: StripState)
    ensures TotalFaces(strips + [t]) == TotalFaces(strips) + FaceCount(t)
  {
    SnocInit(strips, t);
  }

  /** One more face adds one triangle to the strips, whether the last strip takes it or a new
      strip is opened. */
  lemma NextAddsOneFace(prev: seq<StripState>, f: seq<Vertex>)
    requires AllNonEmpty(prev) && |f| >= 3
    ensures TotalFaces(Next(AddTotal, Empty, prev, f)) == TotalFaces(prev) + 1
  {
    EmptyStripAcceptsFace(Empty, f);
    assert FaceCount(Seed(f)) == 1;
    if |prev| == 0 {
      TotalFacesSnoc([], Seed(f));
    } else {
      var m := |prev| - 1;
      var last := prev[m];
      if AddFaceSpec(last, f).0 {
        AcceptedFaceAppendsOneTriangle(last, f);
        SplitLast(prev);
        TotalFacesSnoc(prev[..m], last);
        TotalFacesSnoc(prev[..m], AddFaceSpec(last, f).1);
      } else {
        TotalFacesSnoc(prev, Seed(f));
      }
    }
  }

  /** Every face lands in exactly one strip: the strips hold as many triangles as there are faces. */
  lemma {:induction false} EveryFaceInOneStrip(ls: seq<seq<Vertex>>)
    requires Triangles(ls)
    ensures TotalFaces(BuildStrips(ls)) == |ls|
  {
    if |ls| > 0 {
      BuildStripsStep(ls, |ls| - 1);
      assert ls[..|ls|] == ls;
      EveryFaceInOneStrip(ls[..|ls| - 1]);
      NextAddsOneFace(BuildStrips(ls[..|ls| - 1]), ls[|ls| - 1]);
    }
  }

  /** BuildTriangleStrips is a greedy partition of the faces into consecutive runs: adding the
      faces of run k one after another to a new strip gives strip k, and each strip after the
      first was opened because the one before it rejected its first face. */
  lemma GreedyPartitionOfFaces(ls: seq<seq<Vertex>>)
    requires Triangles(ls)
    ensures Partitions(AddTotal, Empty, ls, BuildStrips(ls), Starts(AddTotal, Empty, ls))
  {
    forall i | 0 <= i < |ls|
      ensures AddTotal(Empty, ls[i]).0
    {
      EmptyStripAcceptsFace(Empty, ls[i]);
    }
    GreedyPartition(AddTotal, Empty, ls);
  }

  /** One face makes one strip holding that face's vertices and the ids 0, 1, 2. */
  lemma OneFaceOneStrip(f: seq<Vertex>)
    requires |f| >= 3
    ensures BuildStrips([f]) == [StripState(f[..3], [0, 1, 2])]
  {
    assert [f][..0] == [];
    assert Build(AddTotal, Empty, [f]) == Extend(AddTotal, Empty, [f]);
    EmptyStripAcceptsFace(Empty, f);
  }

  /** The corners of a unit square, as vertices with a position only. */
  const Corner0 := Vertex(Some(Vector3(0.0, 0.0, 0.0)), [], None, None, None)
  const Corner1 := Vertex(Some(Vector3(1.0, 0.0, 0.0)), [], None, None, None)
  const Corner2 := Vertex(Some(Vector3(0.0, 1.0, 0.0)), [], None, None, None)
  const Corner3 := Vertex(Some(Vector3(1.0, 1.0, 0.0)), [], None, None, None)

  /** The second face of the square shares strip positions 1 and 2 with the first. */
  lemma SquareSearch()
    ensures Search([Corner1, Corner2, Corner3], StripState([Corner0, Corner1, Corner2], [0, 1, 2]))
      == (Some(Match(0, 1)), Some(Match(1, 2)))
  {
    var face := [Corner1, Corner2, Corner3];
    var s := StripState([Corner0, Corner1, Corner2], [0, 1, 2]);
    // Corner1 sits at strip position 1, Corner2 at position 2; nothing else matches.
    var hits := HitTable(face, s);
    assert !hits[0] && hits[1] && !hits[2] && hits[3];
    assert FirstTrue(hits, 1, None) == Some(1);
    assert FirstTrue(hits, 0, None) == Some(1);
    assert FirstTrue(hits, 3, Some(1)) == Some(3);
    assert FirstTrue(hits, 2, Some(1)) == Some(3);
  }

  /** ... so the strip takes it, adding Corner3 and the triple 2 1 3. */
  lemma SquareSecondFace()
    ensures AddTotal(StripState([Corner0, Corner1, Corner2], [0, 1, 2]), [Corner1, Corner2, Corner3])
      == (true, StripState([Corner0, Corner1, Corner2, Corner3], [0, 1, 2, 2, 1, 3]))
  {
    var face := [Corner1, Corner2, Corner3];
    var s := StripState([Corner0, Corner1, Corner2], [0, 1, 2]);
    SquareSearch();
    AddFaceSpecAccepted(s, face, Match(0, 1), Match(1, 2));
    assert Shared(s, Match(0, 1), Match(1, 2)) == [2, 1];
    assert NewVertexIndex(0, 1) == 2;
    assert s.vertices + [face[2]] == [Corner0, Corner1, Corner2, Corner3];
    assert s.vertexIds + [2, 1] + [3] == [0, 1, 2, 2, 1, 3];
  }

  /** Two triangles sharing an edge merge into one strip: faces (v0, v1, v2) and (v1, v2, v3)
      give ids 0 1 2 2 1 3 over the vertices v0 v1 v2 v3. */
  lemma TwoFacesSharingAnEdge()
    ensures BuildStrips([[Corner0, Corner1, Corner2], [Corner1, Corner2, Corner3]])
      == [StripState([Corner0, Corner1, Corner2, Corner3], [0, 1, 2, 2, 1, 3])]
  {
    var first := [Corner0, Corner1, Corner2];
    var ls := [first, [Corner1, Corner2, Corner3]];
    OneFaceOneStrip(first);
    assert first[..3] == first;
    assert ls[..1] == [first];
    SquareSecondFace();
    assert Build(AddTotal, Empty, ls) == Extend(AddTotal, Empty, ls);
  }


  class Mesh {
    var name: string
    var labels: seq<string>
    var materialId: Option<int>
    var vertices: seq<Vertex>
    var faces: seq<Face>
    var triangleStrips: seq<TriangleStrip>
    var isVisible: bool
    var isMeshVisible: bool
    var isWireframeVisible: bool

    /** The parameterless constructor; the null name is the empty string here. */
    constructor ()
      ensures name == "" && labels == [] && materialId == None
      ensures vertices == [] && faces == [] && triangleStrips == []
      ensures isVisible && isMeshVisible && isWireframeVisible
    {
      name := "";
      labels := [];
      materialId := None;
      vertices := [];
      triangleStrips := [];
      faces := [];
      isVisible := true;
      isMeshVisible := true;
      isWireframeVisible := true;
    }

    /** The min/max scan over the vertex positions. */
    method GetBoundingBox() returns (box: Rect3D)
      requires AllPositioned(vertices)
      ensures box == BoundingBox(Positions(vertices))
    {
      ghost var ps := Positions(vertices);
      var minX, minY, minZ, maxX, maxY, maxZ := 0.0, 0.0, 0.0, 0.0, 0.0, 0.0;
      var i := 0;
      while i < |vertices|
        invariant 0 <= i <= |vertices|
        invariant minX == Lowest(Coords(ps[..i], X)) && maxX == Highest(Coords(ps[..i], X))
        invariant minY == Lowest(Coords(ps[..i], Y)) && maxY == Highest(Coords(ps[..i], Y))
        invariant minZ == Lowest(Coords(ps[..i], Z)) && maxZ == Highest(Coords(ps[..i], Z))
      {
        var p := vertices[i].absolutePosition.value;
        ScanStep(ps, i, X);
        ScanStep(ps, i, Y);
        ScanStep(ps, i, Z);
        if minX > p.x { minX := p.x; }
        assert minX == Lowest(Coords(ps[..i + 1], X));
        if minY > p.y { minY := p.y; }
        assert minY == Lowest(Coords(ps[..i + 1], Y));
        if minZ > p.z { minZ := p.z; }
        assert minZ == Lowest(Coords(ps[..i + 1], Z));
        if maxX < p.x { maxX := p.x; }
        assert maxX == Highest(Coords(ps[..i + 1], X));
        if maxY < p.y { maxY := p.y; }
        assert maxY == Highest(Coords(ps[..i + 1], Y));
        if maxZ < p.z { maxZ := p.z; }
        assert maxZ == Highest(Coords(ps[..i + 1], Z));
        i := i + 1;
      }
      assert ps[..i] == ps;
      box := Rect3D(0.0, 0.0, 0.0, 0.0, 0.0, 0.0);
      box := box.(sizeX := maxX - minX, sizeY := maxY - minY, sizeZ := maxZ - minZ);
      box := Offset(box, maxX - box.sizeX / 2.0, maxY - box.sizeY / 2.0, maxZ - box.sizeZ / 2.0);
    }

    /** Copies into every face the mesh vertices its first three indices name. */
    method SetFaceVertices()
      requires FacesIndexable(faces, vertices)
      modifies this
      ensures vertices == old(vertices) && triangleStrips == old(triangleStrips)
      ensures faces == AttachAll(old(faces), vertices)
      ensures name == old(name) && labels == old(labels) && materialId == old(materialId)
      ensures isVisible == old(isVisible) && isMeshVisible == old(isMeshVisible) && isWireframeVisible == old(isWireframeVisible)
    {
      var k := 0;
      while k < |faces|
        invariant 0 <= k <= |faces| == |old(faces)|
        invariant vertices == old(vertices) && triangleStrips == old(triangleStrips)
        invariant forall j :: 0 <= j < k ==> faces[j] == AttachVertices(old(faces)[j], vertices)
        invariant forall j :: k <= j < |faces| ==> faces[j] == old(faces)[j]
        invariant name == old(name) && labels == old(labels) && materialId == old(materialId)
        invariant isVisible == old(isVisible) && isMeshVisible == old(isMeshVisible) && isWireframeVisible == old(isWireframeVisible)
      {
        var face := faces[k];
        face := face.(vertices := face.vertices + [vertices[face.vertexIndices[0]]]);
        face := face.(vertices := face.vertices + [vertices[face.vertexIndices[1]]]);
        face := face.(vertices := face.vertices + [vertices[face.vertexIndices[2]]]);
        faces := faces[k := face];
        k := k + 1;
      }
    }

    /** Discards the strips and rebuilds them from the faces, greedily. */
    method BuildTriangleStrips()
      requires FacesIndexable(faces, vertices)
      modifies this
      ensures vertices == old(vertices)
      ensures faces == AttachAll(old(faces), vertices) && Triangles(VertexLists(faces))
      ensures name == old(name) && labels == old(labels) && materialId == old(materialId)
      ensures isVisible == old(isVisible) && isMeshVisible == old(isMeshVisible) && isWireframeVisible == old(isWireframeVisible)
      ensures Holds(triangleStrips, BuildStrips(VertexLists(faces)))
      ensures Distinct(triangleStrips) && forall k :: 0 <= k < |triangleStrips| ==> fresh(triangleStrips[k])
    {
      triangleStrips := [];
      SetFaceVertices();
      assert Triangles(VertexLists(faces));
      triangleStrips := BuildStripObjects(faces);
    }
  }

  /** The loop of BuildTriangleStrips over the faces, once their vertices are attached, with
      the strip list in a local. */
  method BuildStripObjects(faces: seq<Face>) returns (strips: seq<TriangleStrip>)
    requires Triangles(VertexLists(faces))
    ensures Holds(strips, BuildStrips(VertexLists(faces)))
    ensures Distinct(strips) && forall k :: 0 <= k < |strips| ==> fresh(strips[k])
  {
    ghost var ls := VertexLists(faces);
    strips := [];
    var i := 0;
    while i < |faces|
      invariant 0 <= i <= |faces| == |ls|
      invariant Holds(strips, BuildStrips(ls[..i]))
      invariant Distinct(strips) && forall k :: 0 <= k < |strips| ==> fresh(strips[k])
    {
      var iFace := faces[i];
      strips := AddFaceToStrips(strips, ls, i, iFace);
      i := i + 1;
    }
    assert ls[..i] == ls;
  }

  /** One pass of the loop of BuildTriangleStrips: make sure there is a last strip, then offer
      the face to it, opening a new strip when it rejects the face. */
  method AddFaceToStrips(strips: seq<TriangleStrip>, ghost ls: seq<seq<Vertex>>, ghost i: nat, iFace: Face)
    returns (strips': seq<TriangleStrip>)
    requires Triangles(ls) && i < |ls| && iFace.vertices == ls[i]
    requires Holds(strips, BuildStrips(ls[..i])) && Distinct(strips)
    modifies strips
    ensures Holds(strips', BuildStrips(ls[..i + 1])) && Distinct(strips')
    ensures forall k :: 0 <= k < |strips'| ==> strips'[k] in strips || fresh(strips'[k])
  {
    BuildStripsStep(ls, i);
    var withLast, held := EnsureLastStrip(strips, BuildStrips(ls[..i]), iFace);
    strips' := OfferOrOpen(withLast, held, iFace);
  }

  /** Opens the first strip when the strip list is still empty. */
  method EnsureLastStrip(strips: seq<TriangleStrip>, ghost cur: seq<StripState>, iFace: Face)
    returns (strips': seq<TriangleStrip>, ghost held: seq<StripState>)
    requires Holds(strips, cur) && Distinct(strips) && |iFace.vertices| >= 3
    ensures Holds(strips', held) && Distinct(strips') && |strips'| > 0
    ensures Next(AddTotal, Empty, held, iFace.vertices) == Next(AddTotal, Empty, cur, iFace.vertices)
    ensures forall k :: 0 <= k < |strips'| ==> strips'[k] in strips || fresh(strips'[k])
  {
    strips', held := strips, cur;
    if |strips| == 0 {
      var first := new TriangleStrip();
      strips' := [first];
      NextOnEmptyStrip(iFace.vertices);
      held := [Empty];
    }
  }

  /** AddFace on the last strip; on rejection, a new strip that takes the face. */
  method OfferOrOpen(strips: seq<TriangleStrip>, ghost cur: seq<StripState>, iFace: Face)
    returns (strips': seq<TriangleStrip>)
    requires Holds(strips, cur) && Distinct(strips) && |strips| > 0 && |iFace.vertices| >= 3
    modifies strips[|strips| - 1]
    ensures Holds(strips', Next(AddTotal, Empty, cur, iFace.vertices)) && Distinct(strips')
    ensures forall k :: 0 <= k < |strips'| ==> strips'[k] in strips || fresh(strips'[k])
  {
    var faceAdded := OfferToLast(strips, cur, iFace);
    strips' := strips;
    if !faceAdded {
      strips' := OpenStrip(strips, cur, iFace);
    }
  }

  /** AddFace on the last strip of the list. */
  method OfferToLast(strips: seq<TriangleStrip>, ghost cur: seq<StripState>, iFace: Face) returns (added: bool)
    requires Holds(strips, cur) && Distinct(strips) && |strips| > 0 && |iFace.vertices| >= 3
    modifies strips[|strips| - 1]
    ensures added == AddTotal(cur[|cur| - 1], iFace.vertices).0
    ensures Holds(strips, if added then cur[..|cur| - 1] + [AddTotal(cur[|cur| - 1], iFace.vertices).1] else cur)
  {
    ghost var m := |strips| - 1;
    HoldsSplit(strips, cur);
    var triStrip := strips[|strips| - 1];
    added := triStrip.AddFace(iFace);
    HoldsSnoc(strips[..m], cur[..m], triStrip, triStrip.State());
    SplitLast(strips);
    SplitLast(cur);
  }

  /** Appends a new strip and adds the face to it, which an empty strip always accepts. */
  method OpenStrip(strips: seq<TriangleStrip>, ghost cur: seq<StripState>, iFace: Face)
    returns (strips': seq<TriangleStrip>)
    requires Holds(strips, cur) && Distinct(strips) && |iFace.vertices| >= 3
    ensures Holds(strips', cur + [AddTotal(Empty, iFace.vertices).1]) && Distinct(strips')
    ensures |strips'| == |strips| + 1 && strips'[..|strips|] == strips && fresh(strips'[|strips|])
  {
    var next := new TriangleStrip();
    strips' := strips + [next];
    var triStrip := strips'[|strips'| - 1];
    EmptyStripAcceptsFace(Empty, iFace.vertices);
    var faceAdded2 := triStrip.AddFace(iFace);
    if !faceAdded2 {
      assert false;
    }
    HoldsSnoc(strips, cur, triStrip, triStrip.State());
  }

  /** The strip objects hold the given strip values, in order, each valid and counter-clockwise. */
  ghost predicate Holds(ts: seq<TriangleStrip>, ss: seq<StripState>)
    reads ts
  {
    |ts| == |ss| && forall k :: 0 <= k < |ts| ==> ts[k].Valid() && !ts[k].isClockwise && ts[k].State() == ss[k]
  }

  predicate Distinct(ts: seq<TriangleStrip>)
  {
    forall j, k :: 0 <= j < k < |ts| ==> ts[j] != ts[k]
  }

  lemma HoldsSplit(ts: seq<TriangleStrip>, ss: seq<StripState>)
    requires Holds(ts, ss) && |ts| > 0
    ensures Holds(ts[..|ts| - 1], ss[..|ss| - 1])
  {
  }

  lemma HoldsSnoc(ts: seq<TriangleStrip>, ss: seq<StripState>, t: TriangleStrip, s: StripState)
    requires Holds(ts, ss) && t.Valid() && !t.isClockwise && t.State() == s
    ensures Holds(ts + [t], ss + [s])
  {
  }

  /** With no strips yet, the builder first opens an empty one; the face then goes into it. */
  lemma NextOnEmptyStrip(f: seq<Vertex>)
    requires |f| >= 3
    ensures Next(AddTotal, Empty, [], f) == Next(AddTotal, Empty, [Empty], f)
  {
    EmptyStripAcceptsFace(Empty, f);
  }
}
