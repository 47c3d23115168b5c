/** MtModel: a named skeleton (joints), meshes and materials. */
module Models {
  import opened Wrappers
  import opened Numerics
  import opened Vertices
  import opened Boxes
  import opened Joints
  import opened Materials
  import opened Meshes

  // ---------------------------------------------------------------------------------------
  // The forward pass over the joints.
  // ---------------------------------------------------------------------------------------

  /** What the pass reads without failing: every relative matrix, every parent index, and the
      stored absolute matrix of a parent at or after the joint (which the pass has not
      rewritten yet when it reads it). */
  predicate PassReadable(js: seq<Joint>)
  {
    forall i :: 0 <= i < |js| ==>
      && js[i].relative.Some?
      && (js[i].parentId.Some? ==>
            0 <= js[i].parentId.value < |js| &&
            (js[i].parentId.value >= i ==> js[js[i].parentId.value].absolute.Some?))
  }

  /** The absolute matrix the pass gives joint i: its relative matrix, times the parent's
      absolute matrix as stored when joint i is reached, which is the freshly computed one
      for a parent before i and the old one otherwise. */
  function AbsoluteOf(js: seq<Joint>, i: nat): Matrix4x4
    requires PassReadable(js) && i < |js|
    decreases i
  {
    var rel := js[i].relative.value;
    match js[i].parentId
    case None => rel
    case Some(p) => Mul(rel, if p < i then AbsoluteOf(js, p) else js[p].absolute.value)
  }

  /** Joint i after the pass: the absolute matrix set, both splits recomputed, the rest kept. */
  function Calculated(js: seq<Joint>, i: nat): (j: Joint)
    requires PassReadable(js) && i < |js|
    ensures j.name == js[i].name && j.relative == js[i].relative && j.parentId == js[i].parentId
    ensures j.isVisible == js[i].isVisible && j.absolute == Some(AbsoluteOf(js, i))
    ensures j.absoluteSplit == Some(DecompositionOf(AbsoluteOf(js, i)))
    ensures j.relativeSplit == Some(DecompositionOf(js[i].relative.value))
  {
    Decompose(js[i].(absolute := Some(AbsoluteOf(js, i))))
  }

  /** Each parent index is that of an earlier joint. */
  predicate ParentsPrecede(js: seq<Joint>)
  {
    forall i :: 0 <= i < |js| && js[i].parentId.Some? ==> 0 <= js[i].parentId.value < i
  }

  /** With parents first, the pass reads only what it has written, plus the relative matrices. */
  lemma ParentsPrecedeReadable(js: seq<Joint>)
    requires ParentsPrecede(js) && forall i :: 0 <= i < |js| ==> js[i].relative.Some?
    ensures PassReadable(js)
  {
  }

  /** The joints from i up to its root, following parent indices. */
  function Ancestry(js: seq<Joint>, i: nat): (path: seq<nat>)
    requires ParentsPrecede(js) && i < |js|
    decreases i
    ensures |path| > 0 && path[0] == i && forall k :: 0 <= k < |path| ==> path[k] < |js|
    ensures js[path[|path| - 1]].parentId.None?
    ensures forall k :: 0 <= k < |path| - 1 ==> js[path[k]].parentId == Some(path[k + 1] as int)
  {
    match js[i].parentId
    case None => [i]
    case Some(p) => [i] + Ancestry(js, p)
  }

  /** m0 * (m1 * (... * mn)). */
  function Product(ms: seq<Matrix4x4>): Matrix4x4
    requires |ms| > 0
  {
    if |ms| == 1 then ms[0] else Mul(ms[0], Product(ms[1..]))
  }

  function Relatives(js: seq<Joint>, path: seq<nat>): (ms: seq<Matrix4x4>)
    requires forall k :: 0 <= k < |path| ==> path[k] < |js| && js[path[k]].relative.Some?
    ensures |ms| == |path| && forall k :: 0 <= k < |path| ==> ms[k] == js[path[k]].relative.value
  {
    seq(|path|, k requires 0 <= k < |path| => js[path[k]].relative.value)
  }

  /** When parents precede children, the absolute matrix of joint i is the product of the
      relative matrices from i up to its root: rel[i] * rel[parent(i)] * ... * rel[root]. */
  lemma {:induction false} AbsoluteIsChainOfRelatives(js: seq<Joint>, i: nat)
    requires ParentsPrecede(js) && PassReadable(js) && i < |js|
    decreases i
    ensures AbsoluteOf(js, i) == Product(Relatives(js, Ancestry(js, i)))
  {
    var path := Ancestry(js, i);
    match js[i].parentId
    case None =>
    case Some(p) =>
      AbsoluteIsChainOfRelatives(js, p);
      assert path[1..] == Ancestry(js, p);
      assert Relatives(js, path)[1..] == Relatives(js, path[1..]);
  }

  /** A joint without a parent gets its relative matrix as absolute matrix. */
  lemma RootAbsoluteIsRelative(js: seq<Joint>, i: nat)
    requires PassReadable(js) && i < |js| && js[i].parentId.None?
    ensures Calculated(js, i).absolute == js[i].relative
  {
  }

  /** A parent after the joint is read before the pass reaches it: the joint is combined with
      the parent's old absolute matrix, not the one the pass gives the parent later. */
  lemma LaterParentReadStale(js: seq<Joint>, i: nat)
    requires PassReadable(js) && i < |js| && js[i].parentId.Some? && js[i].parentId.value > i
    ensures Calculated(js, i).absolute == Some(Mul(js[i].relative.value, js[js[i].parentId.value].absolute.value))
  {
  }

  // ---------------------------------------------------------------------------------------
  // The whole-model bounding box.
  // ---------------------------------------------------------------------------------------

  /** The vertices of all meshes, mesh after mesh. */
  ghost function AllVertices(ms: seq<Mesh>): seq<Vertex>
    reads ms
  {
    if |ms| == 0 then [] else AllVertices(ms[..|ms| - 1]) + ms[|ms| - 1].vertices
  }

  lemma AllVerticesStep(ms: seq<Mesh>, m: nat)
    requires m < |ms|
    ensures AllVertices(ms[..m + 1]) == AllVertices(ms[..m]) + ms[m].vertices
  {
    assert ms[..m + 1][..m] == ms[..m];
  }

  /** Every vertex of the list is positioned when all vertices of all meshes are. */
  lemma {:induction false} MeshPositioned(ms: seq<Mesh>, m: nat)
    requires m < |ms| && AllPositioned(AllVertices(ms))
    ensures AllPositioned(ms[m].vertices)
  {
    var init := ms[..|ms| - 1];
    var before, last := AllVertices(init), ms[|ms| - 1].vertices;
    assert forall k :: 0 <= k < |before| ==> (before + last)[k] == before[k];
    assert forall k :: 0 <= k < |last| ==> (before + last)[|before| + k] == last[k];
    if m < |ms| - 1 {
      MeshPositioned(init, m);
    }
  }

  class Model {
    var name: string
    var labels: seq<string>
    var joints: seq<Joint>
    var meshes: seq<Mesh>
    var materials: seq<Material>
    var isVisible: bool

    /** The parameterless constructor; the null name is the empty string here. */
    constructor ()
      ensures name == "" && labels == [] && joints == [] && meshes == [] && materials == [] && isVisible
    {
      name := "";
      labels := [];
      joints := [];
      meshes := [];
      materials := [];
      isVisible := true;
    }

    /** The forward pass: joint by joint, absolute = relative * parent's absolute, then
        Decompose. */
    method CalculateJointAbsoluteMatrices()
      requires PassReadable(joints)
      modifies this
      ensures |joints| == |old(joints)|
      ensures forall i :: 0 <= i < |joints| ==> joints[i] == Calculated(old(joints), i)
      ensures name == old(name) && labels == old(labels) && meshes == old(meshes)
      ensures materials == old(materials) && isVisible == old(isVisible)
    {
      ghost var js := joints;
      var i := 0;
      while i < |joints|
        invariant 0 <= i <= |joints| == |js|
        invariant forall k :: 0 <= k < i ==> joints[k] == Calculated(js, k)
        invariant forall k :: i <= k < |joints| ==> joints[k] == js[k]
        invariant name == old(name) && labels == old(labels) && meshes == old(meshes)
        invariant materials == old(materials) && isVisible == old(isVisible)
      {
        var joint := joints[i];
        var absoluteMatrix := joint.relative.value;
        if joint.parentId.Some? {
          absoluteMatrix := Mul(absoluteMatrix, joints[joint.parentId.value].absolute.value);
        }
        assert absoluteMatrix == AbsoluteOf(js, i);
        joint := joint.(absolute := Some(absoluteMatrix));
        joint := Decompose(joint);
        joints := joints[i := joint];
        i := i + 1;
      }
    }

    /** The min/max scan over every vertex of every mesh. */
    method GetBoundingBox() returns (box: Rect3D)
      requires AllPositioned(AllVertices(meshes))
      ensures box == BoundingBox(Positions(AllVertices(meshes)))
    {
      var minX, minY, minZ, maxX, maxY, maxZ := 0.0, 0.0, 0.0, 0.0, 0.0, 0.0;
      var m := 0;
      assert meshes[..0] == [];
      while m < |meshes|
        invariant 0 <= m <= |meshes|
        invariant AllPositioned(AllVertices(meshes[..m]))
        invariant ScanIs(minX, minY, minZ, maxX, maxY, maxZ, Positions(AllVertices(meshes[..m])))
      {
        var mesh := meshes[m];
        AllVerticesStep(meshes, m);
        MeshPositioned(meshes, m);
        PositionsAppend(AllVertices(meshes[..m]), mesh.vertices);
        minX, minY, minZ, maxX, maxY, maxZ :=
          ScanVertices(mesh.vertices, Positions(AllVertices(meshes[..m])), minX, minY, minZ, maxX, maxY, maxZ);
        m := m + 1;
      }
      assert meshes[..m] == meshes;
      ScanGivesBoundingBox(minX, minY, minZ, maxX, maxY, maxZ, Positions(AllVertices(meshes)));
      box := Rect3D(0.0, 0.0, 0.0, 0.0, 0.0, 0.0);
      box := box.(sizeX := maxX - minX, sizeY := maxY - minY, sizeZ := maxZ - minZ);
      box := Offset(box, maxX - box.sizeX / 2.0, maxY - box.sizeY / 2.0, maxZ - box.sizeZ / 2.0);
    }
  }

  /** The inner loop of the model scan, over the vertices of one mesh, continuing from the
      accumulators left by the meshes before it (whose positions are `done`). */
  method ScanVertices(vs: seq<Vertex>, ghost done: seq<Vector3>,
                      minX: real, minY: real, minZ: real, maxX: real, maxY: real, maxZ: real)
    returns (minX': real, minY': real, minZ': real, maxX': real, maxY': real, maxZ': real)
    requires AllPositioned(vs) && ScanIs(minX, minY, minZ, maxX, maxY, maxZ, done)
    ensures ScanIs(minX', minY', minZ', maxX', maxY', maxZ', done + Positions(vs))
  {
    minX', minY', minZ', maxX', maxY', maxZ' := minX, minY, minZ, maxX, maxY, maxZ;
    var j := 0;
    assert done + Positions(vs[..0]) == done;
    while j < |vs|
      invariant 0 <= j <= |vs|
      invariant ScanIs(minX', minY', minZ', maxX', maxY', maxZ', done + Positions(vs[..j]))
    {
      var p := vs[j].absolutePosition.value;
      ScanIsStep(minX', minY', minZ', maxX', maxY', maxZ', done + Positions(vs[..j]), p);
      PositionsPrefixStep(done, vs, j);
      if minX' > p.x { minX' := p.x; }
      if minY' > p.y { minY' := p.y; }
      if minZ' > p.z { minZ' := p.z; }
      if maxX' < p.x { maxX' := p.x; }
      if maxY' < p.y { maxY' := p.y; }
      if maxZ' < p.z { maxZ' := p.z; }
      j := j + 1;
    }
    assert vs[..j] == vs;
  }

  /** The positions of a prefix of the scanned vertices, extended by the next one. */
  lemma PositionsPrefixStep(done: seq<Vector3>, vs: seq<Vertex>, j: nat)
    requires j < |vs| && AllPositioned(vs)
    ensures done + Positions(vs[..j + 1]) == (done + Positions(vs[..j])) + [vs[j].absolutePosition.value]
  {
    assert vs[..j + 1] == vs[..j] + [vs[j]];
    PositionsAppend(vs[..j], [vs[j]]);
  }
}
