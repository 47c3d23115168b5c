/** AssimpExporter.ExportScene: a model, or a list of models, as an Assimp scene.

    A single model is exported with its skeleton: every mesh carries one bone per joint, and
    the joints become nodes hung under the root or under the node named after their parent.
    A list of models is exported without skeletal data, each model under a node of its own,
    with its material, mesh and node names prefixed by the model's name.

    The scene is built as a value: the lists the source grows in place (materials, meshes,
    channels, bone weights, child nodes) are reassigned with one more element. An exception
    ends the export with the ExportError naming the access that throws it. */
module Exporter {
  import opened Wrappers
  import N = Numerics
  import opened WeightPositions
  import opened Vertices
  import Faces
  import opened Joints
  import Materials
  import opened Meshes
  import opened Models
  import A = AssimpScenes
  import U = AssimpUtils
  import Paths

  /** The exceptions ExportScene can throw, by the access that throws them. */
  datatype ExportError =
    | NoMaterialId          // mesh.MaterialId.Value on null
    | NoPosition            // vertex.AbsolutePosition.Value on null
    | NoTextureCoordinates  // vertex.TextureCoordinates.Value on null
    | NoJointIndex          // iweight.JointIndex.Value on null
    | NoSuchBone            // iMesh.Bones[index] with the index out of range
    | NoWeight              // iweight.Weight.Value on null
    | ShortFace             // face.VertexIndices[k], k < 3, out of range
    | NoSuchParentJoint     // model.Joints[ParentId] out of range
    | NoRelativeMatrix      // joint.RelativeTransformationMatrix.Value on null
    | NoParentNode          // parentNode.Children when FindNode found nothing

  // ---------------------------------------------------------------------------------------
  // Materials.
  // ---------------------------------------------------------------------------------------

  /** How a model is exported: alone, with its skeleton; or as one of a list of models, with
      its names prefixed by the model's name and its material indices shifted past the
      materials already in the scene. */
  datatype Mode = Skeletal(joints: seq<Joint>) | Prefixed(prefix: string, materialBase: int)

  /** A material, mesh or mesh-node name as the mode writes it. */
  function Qualified(mode: Mode, name: string): (r: string)
    ensures mode.Skeletal? ==> r == name
    ensures mode.Prefixed? ==> r == mode.prefix + "." + name
  {
    if mode.Skeletal? then name else mode.prefix + "." + name
  }

  /** The material keeps its (qualified) name; its diffuse texture is the file name of the
      model's texture without its extension, qualified the same way. */
  function ExportedMaterial(m: Materials.Material, mode: Mode): A.Material
  {
    A.Material(Qualified(mode, m.name),
               A.TextureSlot(Qualified(mode, Paths.GetFileNameWithoutExtension(m.diffuseTextureFileName)), A.Diffuse))
  }

  function ExportedMaterials(ms: seq<Materials.Material>, mode: Mode): (r: seq<A.Material>)
    ensures |r| == |ms| && forall i :: 0 <= i < |ms| ==> r[i] == ExportedMaterial(ms[i], mode)
  {
    seq(|ms|, i requires 0 <= i < |ms| => ExportedMaterial(ms[i], mode))
  }

  method ExportMaterials(ms: seq<Materials.Material>, mode: Mode) returns (materials: seq<A.Material>)
    ensures materials == ExportedMaterials(ms, mode)
  {
    materials := [];
    var i := 0;
    while i < |ms|
      invariant 0 <= i <= |ms| && |materials| == i
      invariant forall k :: 0 <= k < i ==> materials[k] == ExportedMaterial(ms[k], mode)
    {
      var materialName := Paths.GetFileNameWithoutExtension(ms[i].diffuseTextureFileName);
      var texture := A.TextureSlot(if mode.Skeletal? then materialName else mode.prefix + "." + materialName, A.Diffuse);
      var mat := A.Material(if mode.Skeletal? then ms[i].name else mode.prefix + "." + ms[i].name, texture);
      assert mat == ExportedMaterial(ms[i], mode);
      materials := materials + [mat];
      i := i + 1;
    }
    assert materials == ExportedMaterials(ms, mode);
  }

  // ---------------------------------------------------------------------------------------
  // Vertices: the first exception, the channels and the bone weights.
  // ---------------------------------------------------------------------------------------

  /** The exception a weight raises: no joint index, an index that is no bone, no weight. */
  function WeightError(w: WeightPosition, boneCount: nat): (r: Option<ExportError>)
    ensures r.None? <==> w.jointIndex.Some? && 0 <= w.jointIndex.value < boneCount && w.weight.Some?
    ensures r == Some(NoSuchBone) ==> w.jointIndex.Some?
    ensures r == Some(NoWeight) ==> w.jointIndex.Some? && 0 <= w.jointIndex.value < boneCount
  {
    if w.jointIndex.None? then Some(NoJointIndex)
    else if !(0 <= w.jointIndex.value < boneCount) then Some(NoSuchBone)
    else if w.weight.None? then Some(NoWeight)
    else None
  }

  /** The exception of the first weight that raises one. */
  function WeightsError(ws: seq<WeightPosition>, boneCount: nat): Option<ExportError>
  {
    if |ws| == 0 then None
    else
      var e := WeightsError(ws[..|ws| - 1], boneCount);
      if e.Some? then e else WeightError(ws[|ws| - 1], boneCount)
  }

  /** The exception exporting a vertex raises: no position, no UV, then the weights when
      `bones` gives the bone count (a list of models exports no weights). */
  function VertexError(v: Vertex, bones: Option<nat>): (r: Option<ExportError>)
    ensures r.None? <==>
      v.absolutePosition.Some? && v.textureCoordinates.Some? && (bones.Some? ==> WeightsError(v.weights, bones.value).None?)
    ensures r == Some(NoTextureCoordinates) ==> v.absolutePosition.Some?
  {
    if v.absolutePosition.None? then Some(NoPosition)
    else if v.textureCoordinates.None? then Some(NoTextureCoordinates)
    else if bones.None? then None
    else WeightsError(v.weights, bones.value)
  }

  /** The exception of the first vertex that raises one. */
  function VerticesError(vs: seq<Vertex>, bones: Option<nat>): Option<ExportError>
  {
    if |vs| == 0 then None
    else
      var e := VerticesError(vs[..|vs| - 1], bones);
      if e.Some? then e else VertexError(vs[|vs| - 1], bones)
  }

  /** Every vertex has a position and a UV. */
  predicate Placed(vs: seq<Vertex>)
  {
    forall k :: 0 <= k < |vs| ==> vs[k].absolutePosition.Some? && vs[k].textureCoordinates.Some?
  }

  /** A vertex is exported only with a position and a UV. */
  lemma {:induction false} ExportableVerticesPlaced(vs: seq<Vertex>, bones: Option<nat>)
    ensures VerticesError(vs, bones).None? ==> Placed(vs)
  {
    if |vs| > 0 && VerticesError(vs, bones).None? {
      ExportableVerticesPlaced(vs[..|vs| - 1], bones);
      assert forall k :: 0 <= k < |vs| - 1 ==> vs[k] == vs[..|vs| - 1][k];
    }
  }

  function Positions(vs: seq<Vertex>): (ps: seq<A.Vector3D>)
    requires Placed(vs)
    ensures |ps| == |vs|
  {
    seq(|vs|, k requires 0 <= k < |vs| && Placed(vs) => U.ToAssimpVector(vs[k].absolutePosition.value))
  }

  /** The UV of a vertex as a 3D texture coordinate with a zero third component. */
  function UV(t: N.Vector3): A.Vector3D
  {
    A.Vector3D(t.x, t.y, 0.0)
  }

  function UVs(vs: seq<Vertex>): (ts: seq<A.Vector3D>)
    requires Placed(vs)
    ensures |ts| == |vs|
  {
    seq(|vs|, k requires 0 <= k < |vs| && Placed(vs) => UV(vs[k].textureCoordinates.value))
  }

  /** The colours of the vertices that have one, in vertex order. */
  function Colors(vs: seq<Vertex>): seq<A.Color4D>
  {
    if |vs| == 0 then []
    else
      var v := vs[|vs| - 1];
      Colors(vs[..|vs| - 1]) + (if v.color.Some? then [U.ToAssimpColor(v.color.value)] else [])
  }

  /** The normals of the vertices that have one, in vertex order. */
  function Normals(vs: seq<Vertex>): seq<A.Vector3D>
  {
    if |vs| == 0 then []
    else
      var v := vs[|vs| - 1];
      Normals(vs[..|vs| - 1]) + (if v.normal.Some? then [U.ToAssimpVector(v.normal.value)] else [])
  }

  /** The weight written for a stored one: 0 is written as 1, so no bone gets a zero weight. */
  function EmittedWeight(w: real): (r: real)
    ensures r != 0.0 && (w != 0.0 ==> r == w)
  {
    if w == 0.0 then 1.0 else w
  }

  /** What vertex k's weights give bone j: one entry per weight bound to j, in list order. */
  function WeightsTo(ws: seq<WeightPosition>, k: nat, j: nat): (r: seq<A.VertexWeight>)
    ensures |r| <= |ws| && forall e :: e in r ==> e.weight != 0.0
  {
    if |ws| == 0 then []
    else
      var w := ws[|ws| - 1];
      WeightsTo(ws[..|ws| - 1], k, j)
        + (if w.jointIndex == Some(j) && w.weight.Some? then [A.VertexWeight(k, EmittedWeight(w.weight.value))] else [])
  }

  /** What the vertices give bone j, vertex by vertex, each tagged with its vertex's ordinal. */
  function BoneWeights(vs: seq<Vertex>, j: nat): seq<A.VertexWeight>
  {
    if |vs| == 0 then []
    else BoneWeights(vs[..|vs| - 1], j) + WeightsTo(vs[|vs| - 1].weights, |vs| - 1, j)
  }

  /** The bones after the weights of vertex k have been added. */
  function AddedWeights(bones: seq<A.Bone>, ws: seq<WeightPosition>, k: nat): (r: seq<A.Bone>)
    ensures |r| == |bones|
  {
    seq(|bones|, j requires 0 <= j < |bones| =>
      bones[j].(vertexWeights := bones[j].vertexWeights + WeightsTo(ws, k, j)))
  }

  /** The bones after the weights of all the vertices have been added. */
  function Skinned(bones: seq<A.Bone>, vs: seq<Vertex>): (r: seq<A.Bone>)
    ensures |r| == |bones|
  {
    seq(|bones|, j requires 0 <= j < |bones| =>
      bones[j].(vertexWeights := bones[j].vertexWeights + BoneWeights(vs, j)))
  }

  /** The mesh after its vertex loop: the channels gain the vertices' data, and the bones
      their weights when `skin` holds. */
  function WithVertices(m: A.Mesh, vs: seq<Vertex>, skin: bool): A.Mesh
    requires Placed(vs)
  {
    m.(vertices := m.vertices + Positions(vs),
       textureCoordinates := m.textureCoordinates + UVs(vs),
       vertexColors := m.vertexColors + Colors(vs),
       normals := m.normals + Normals(vs),
       bones := if skin then Skinned(m.bones, vs) else m.bones)
  }

  /** The result of the vertex loop on mesh m. */
  function VerticesExport(m: A.Mesh, vs: seq<Vertex>, skin: bool): Result<A.Mesh, ExportError>
  {
    var e := VerticesError(vs, if skin then Some(|m.bones|) else None);
    if e.Some? then Failure(e.value)
    else
      ExportableVerticesPlaced(vs, if skin then Some(|m.bones|) else None);
      Success(WithVertices(m, vs, skin))
  }

  /** The inner weight loop: each weight goes to the bone at its joint index. */
  method AddWeights(bones: seq<A.Bone>, ws: seq<WeightPosition>, currentVertex: nat)
    returns (r: Result<seq<A.Bone>, ExportError>)
    ensures WeightsError(ws, |bones|).Some? ==> r == Failure(WeightsError(ws, |bones|).value)
    ensures WeightsError(ws, |bones|).None? ==> r == Success(AddedWeights(bones, ws, currentVertex))
  {
    var current := bones;
    var i := 0;
    AddedNoWeights(bones, currentVertex);
    while i < |ws|
      invariant 0 <= i <= |ws|
      invariant WeightsError(ws[..i], |bones|).None?
      invariant current == AddedWeights(bones, ws[..i], currentVertex)
    {
      var iweight := ws[i];
      assert ws[..i + 1][..i] == ws[..i];
      if iweight.jointIndex.None? {
        WeightsErrorSticks(ws, i + 1, |bones|);
        return Failure(NoJointIndex);
      }
      var index := iweight.jointIndex.value;
      if !(0 <= index < |current|) {
        WeightsErrorSticks(ws, i + 1, |bones|);
        return Failure(NoSuchBone);
      }
      if iweight.weight.None? {
        WeightsErrorSticks(ws, i + 1, |bones|);
        return Failure(NoWeight);
      }
      var weight := if iweight.weight.value == 0.0 then 1.0 else iweight.weight.value;
      var bone := current[index];
      current := current[index := bone.(vertexWeights := bone.vertexWeights + [A.VertexWeight(currentVertex, weight)])];
      AddedWeightsStep(bones, ws, i, currentVertex);
      i := i + 1;
    }
    assert ws[..i] == ws;
    return Success(current);
  }

  /** An exception among the first n weights is the exception of the whole list. */
  lemma {:induction false} WeightsErrorSticks(ws: seq<WeightPosition>, n: nat, boneCount: nat)
    requires n <= |ws| && WeightsError(ws[..n], boneCount).Some?
    decreases |ws| - n
    ensures WeightsError(ws, boneCount) == WeightsError(ws[..n], boneCount)
  {
    if n < |ws| {
      assert ws[..n + 1][..n] == ws[..n];
      WeightsErrorSticks(ws, n + 1, boneCount);
    } else {
      assert ws[..n] == ws;
    }
  }

  /** One more weight goes to the bone at its index and no other. */
  lemma AddedWeightsStep(bones: seq<A.Bone>, ws: seq<WeightPosition>, i: nat, k: nat)
    requires i < |ws| && ws[i].jointIndex.Some? && 0 <= ws[i].jointIndex.value < |bones| && ws[i].weight.Some?
    ensures var before := AddedWeights(bones, ws[..i], k);
      var b := ws[i].jointIndex.value;
      AddedWeights(bones, ws[..i + 1], k) ==
        before[b := before[b].(vertexWeights := before[b].vertexWeights + [A.VertexWeight(k, EmittedWeight(ws[i].weight.value))])]
  {
    var before, after := AddedWeights(bones, ws[..i], k), AddedWeights(bones, ws[..i + 1], k);
    var b := ws[i].jointIndex.value;
    var x := A.VertexWeight(k, EmittedWeight(ws[i].weight.value));
    assert ws[..i + 1][..i] == ws[..i];
    forall j | 0 <= j < |bones|
      ensures after[j] == before[b := before[b].(vertexWeights := before[b].vertexWeights + [x])][j]
    {
      if j == b {
        assert WeightsTo(ws[..i + 1], k, j) == WeightsTo(ws[..i], k, j) + [x];
        assert bones[j].vertexWeights + (WeightsTo(ws[..i], k, j) + [x])
            == bones[j].vertexWeights + WeightsTo(ws[..i], k, j) + [x];
      } else {
        assert WeightsTo(ws[..i + 1], k, j) == WeightsTo(ws[..i], k, j) + [];
      }
    }
  }

  /** Adding no weights leaves the bones as they are. */
  lemma AddedNoWeights(bones: seq<A.Bone>, k: nat)
    ensures AddedWeights(bones, [], k) == bones
  {
    forall j | 0 <= j < |bones|
      ensures AddedWeights(bones, [], k)[j] == bones[j]
    {
      assert bones[j].vertexWeights + [] == bones[j].vertexWeights;
    }
  }

  /** The vertex loop: position, UV, weights (when `skin`), colour and normal of each vertex. */
  method ExportVertices(m: A.Mesh, vs: seq<Vertex>, skin: bool) returns (r: Result<A.Mesh, ExportError>)
    ensures r == VerticesExport(m, vs, skin)
  {
    ghost var bones := if skin then Some(|m.bones|) else None;
    var iMesh := m;
    var currentVertex := 0;
    assert WithVertices(m, vs[..0], skin) == m by {
      assert Positions([]) == [] && UVs([]) == [];
      if skin { SkinnedNothing(m.bones); }
    }
    while currentVertex < |vs|
      invariant 0 <= currentVertex <= |vs|
      invariant VerticesError(vs[..currentVertex], bones).None?
      invariant Placed(vs[..currentVertex])
      invariant iMesh == WithVertices(m, vs[..currentVertex], skin)
    {
      var next := ExportVertex(m, vs, currentVertex, skin, iMesh);
      if next.Failure? {
        return next;
      }
      iMesh := next.value;
      currentVertex := currentVertex + 1;
    }
    assert vs[..currentVertex] == vs;
    return Success(iMesh);
  }

  /** One turn of the vertex loop: vertex `currentVertex` exported into the mesh of the
      vertices before it, or the exception that ends the loop. */
  method ExportVertex(m: A.Mesh, vs: seq<Vertex>, currentVertex: nat, skin: bool, iMesh: A.Mesh)
    returns (r: Result<A.Mesh, ExportError>)
    requires currentVertex < |vs| && Placed(vs[..currentVertex])
    requires VerticesError(vs[..currentVertex], if skin then Some(|m.bones|) else None).None?
    requires iMesh == WithVertices(m, vs[..currentVertex], skin)
    ensures r.Failure? ==> r == VerticesExport(m, vs, skin)
    ensures r.Success? ==> && VerticesError(vs[..currentVertex + 1], if skin then Some(|m.bones|) else None).None?
                           && Placed(vs[..currentVertex + 1])
                           && r.value == WithVertices(m, vs[..currentVertex + 1], skin)
  {
    ghost var bones := if skin then Some(|m.bones|) else None;
    var vertex := vs[currentVertex];
    assert vs[..currentVertex + 1][..currentVertex] == vs[..currentVertex];
    if vertex.absolutePosition.None? {
      VerticesErrorSticks(vs, currentVertex + 1, bones);
      return Failure(NoPosition);
    }
    var p := vertex.absolutePosition.value;
    var mesh := iMesh.(vertices := iMesh.vertices + [A.Vector3D(p.x, p.y, p.z)]);
    if vertex.textureCoordinates.None? {
      VerticesErrorSticks(vs, currentVertex + 1, bones);
      return Failure(NoTextureCoordinates);
    }
    var t := vertex.textureCoordinates.value;
    mesh := mesh.(textureCoordinates := mesh.textureCoordinates + [A.Vector3D(t.x, t.y, 0.0)]);
    if skin {
      var added := AddWeights(mesh.bones, vertex.weights, currentVertex);
      if added.Failure? {
        VerticesErrorSticks(vs, currentVertex + 1, bones);
        return Failure(added.error);
      }
      mesh := mesh.(bones := added.value);
    }
    if vertex.color.Some? {
      var c := vertex.color.value;
      mesh := mesh.(vertexColors := mesh.vertexColors + [A.Color4D(c.x, c.y, c.z, c.w)]);
    }
    if vertex.normal.Some? {
      var q := vertex.normal.value;
      mesh := mesh.(normals := mesh.normals + [A.Vector3D(q.x, q.y, q.z)]);
    }
    WithVerticesStep(m, vs, currentVertex, skin);
    return Success(mesh);
  }

  /** An exception among the first n vertices is the exception of the whole list. */
  lemma {:induction false} VerticesErrorSticks(vs: seq<Vertex>, n: nat, bones: Option<nat>)
    requires n <= |vs| && VerticesError(vs[..n], bones).Some?
    decreases |vs| - n
    ensures VerticesError(vs, bones) == VerticesError(vs[..n], bones)
  {
    if n < |vs| {
      assert vs[..n + 1][..n] == vs[..n];
      VerticesErrorSticks(vs, n + 1, bones);
    } else {
      assert vs[..n] == vs;
    }
  }

  lemma SkinnedNothing(bones: seq<A.Bone>)
    ensures Skinned(bones, []) == bones
  {
    forall j | 0 <= j < |bones|
      ensures Skinned(bones, [])[j] == bones[j]
    {
      assert bones[j].vertexWeights + [] == bones[j].vertexWeights;
    }
  }

  /** The weights of one more vertex go to the bones as the inner loop adds them. */
  lemma SkinnedStep(bones: seq<A.Bone>, vs: seq<Vertex>, i: nat)
    requires i < |vs|
    ensures Skinned(bones, vs[..i + 1]) == AddedWeights(Skinned(bones, vs[..i]), vs[i].weights, i)
  {
    assert vs[..i + 1][..i] == vs[..i];
    forall j | 0 <= j < |bones|
      ensures Skinned(bones, vs[..i + 1])[j] == AddedWeights(Skinned(bones, vs[..i]), vs[i].weights, i)[j]
    {
      var w := bones[j].vertexWeights;
      assert BoneWeights(vs[..i + 1], j) == BoneWeights(vs[..i], j) + WeightsTo(vs[i].weights, i, j);
      assert w + (BoneWeights(vs[..i], j) + WeightsTo(vs[i].weights, i, j))
          == w + BoneWeights(vs[..i], j) + WeightsTo(vs[i].weights, i, j);
    }
  }

  /** One more vertex adds its position, UV, colour and normal, and its weights when `skin`. */
  lemma WithVerticesStep(m: A.Mesh, vs: seq<Vertex>, i: nat, skin: bool)
    requires i < |vs| && Placed(vs[..i]) && vs[i].absolutePosition.Some? && vs[i].textureCoordinates.Some?
    ensures Placed(vs[..i + 1])
    ensures var before, v := WithVertices(m, vs[..i], skin), vs[i];
      var p, t := v.absolutePosition.value, v.textureCoordinates.value;
      WithVertices(m, vs[..i + 1], skin) ==
        before.(vertices := before.vertices + [A.Vector3D(p.x, p.y, p.z)],
                textureCoordinates := before.textureCoordinates + [A.Vector3D(t.x, t.y, 0.0)],
                vertexColors := before.vertexColors +
                  (if v.color.Some? then [A.Color4D(v.color.value.x, v.color.value.y, v.color.value.z, v.color.value.w)] else []),
                normals := before.normals +
                  (if v.normal.Some? then [A.Vector3D(v.normal.value.x, v.normal.value.y, v.normal.value.z)] else []),
                bones := if skin then AddedWeights(before.bones, v.weights, i) else before.bones)
  {
    var ws := vs[..i + 1];
    assert ws[..i] == vs[..i];
    assert forall k :: 0 <= k < i ==> ws[k] == vs[..i][k];
    assert Positions(ws) == Positions(vs[..i]) + [U.ToAssimpVector(vs[i].absolutePosition.value)];
    assert UVs(ws) == UVs(vs[..i]) + [UV(vs[i].textureCoordinates.value)];
    assert m.vertices + Positions(ws) == m.vertices + Positions(vs[..i]) + [U.ToAssimpVector(vs[i].absolutePosition.value)];
    assert m.textureCoordinates + UVs(ws) == m.textureCoordinates + UVs(vs[..i]) + [UV(vs[i].textureCoordinates.value)];
    var c := if vs[i].color.Some? then [U.ToAssimpColor(vs[i].color.value)] else [];
    assert m.vertexColors + Colors(ws) == m.vertexColors + Colors(vs[..i]) + c;
    var q := if vs[i].normal.Some? then [U.ToAssimpVector(vs[i].normal.value)] else [];
    assert m.normals + Normals(ws) == m.normals + Normals(vs[..i]) + q;
    if skin {
      SkinnedStep(m.bones, vs, i);
    }
  }

  // ---------------------------------------------------------------------------------------
  // Faces and bones.
  // ---------------------------------------------------------------------------------------

  /** Every face has the three indices the face loop reads. */
  predicate FacesComplete(fs: seq<Faces.Face>)
  {
    forall k :: 0 <= k < |fs| ==> |fs[k].vertexIndices| >= 3
  }

  /** The triangle written for a face: its first three indices, the last two swapped for a
      counter-clockwise face when the winding is honoured. */
  function Triangle(f: Faces.Face, honourWinding: bool): (r: seq<int>)
    requires |f.vertexIndices| >= 3
    ensures |r| == 3 && r[0] == f.vertexIndices[0]
    ensures forall x :: x in r <==> x in f.vertexIndices[..3]
  {
    var i := f.vertexIndices;
    if !honourWinding || f.clockwise then [i[0], i[1], i[2]] else [i[0], i[2], i[1]]
  }

  /** The faces written for a face list: one triangle per face, in order. */
  function ExportedFaces(fs: seq<Faces.Face>, honourWinding: bool): (r: seq<A.Face>)
    requires FacesComplete(fs)
    ensures |r| == |fs|
    ensures forall k :: 0 <= k < |fs| ==> r[k].indices == Triangle(fs[k], honourWinding)
  {
    seq(|fs|, k requires 0 <= k < |fs| && FacesComplete(fs) => A.Face(Triangle(fs[k], honourWinding)))
  }

  /** The face loop. */
  method ExportFaces(m: A.Mesh, fs: seq<Faces.Face>, honourWinding: bool) returns (r: Result<A.Mesh, ExportError>)
    ensures !FacesComplete(fs) ==> r == Failure(ShortFace)
    ensures FacesComplete(fs) ==> r == Success(m.(faces := m.faces + ExportedFaces(fs, honourWinding)))
  {
    var iMesh := m;
    var k := 0;
    while k < |fs|
      invariant 0 <= k <= |fs| && FacesComplete(fs[..k])
      invariant iMesh == m.(faces := m.faces + ExportedFaces(fs[..k], honourWinding))
    {
      var face := fs[k];
      if |face.vertexIndices| < 3 {
        return Failure(ShortFace);
      }
      var idx := face.vertexIndices;
      var indices := if honourWinding && !face.clockwise then [idx[0], idx[2], idx[1]] else [idx[0], idx[1], idx[2]];
      iMesh := iMesh.(faces := iMesh.faces + [A.Face(indices)]);
      assert fs[..k + 1][..k] == fs[..k];
      assert ExportedFaces(fs[..k + 1], honourWinding) == ExportedFaces(fs[..k], honourWinding) + [A.Face(indices)];
      k := k + 1;
    }
    assert fs[..k] == fs;
    return Success(iMesh);
  }

  /** Honouring the winding keeps the triangle's corners and its first index, and changes the
      orientation only of a counter-clockwise face; ignoring it keeps the first three indices. */
  lemma WindingKeepsCorners(f: Faces.Face)
    requires |f.vertexIndices| >= 3
    ensures var i := f.vertexIndices;
      && Triangle(f, false) == i[..3]
      && multiset(Triangle(f, true)) == multiset(i[..3]) && Triangle(f, true)[0] == i[0]
      && (Triangle(f, true) == i[..3] <==> f.clockwise || i[1] == i[2])
  {
    var i := f.vertexIndices;
    assert i[..3] == [i[0], i[1], i[2]];
  }

  /** One bone per joint, named after it, with no weights yet. */
  function MeshBones(js: seq<Joint>): (bs: seq<A.Bone>)
    ensures |bs| == |js| && forall j :: 0 <= j < |js| ==> bs[j] == A.Bone(js[j].name, [])
  {
    seq(|js|, j requires 0 <= j < |js| => A.Bone(js[j].name, []))
  }

  method ExportBones(js: seq<Joint>) returns (bones: seq<A.Bone>)
    ensures bones == MeshBones(js)
  {
    bones := [];
    var j := 0;
    while j < |js|
      invariant 0 <= j <= |js| && |bones| == j
      invariant forall k :: 0 <= k < j ==> bones[k] == A.Bone(js[k].name, [])
    {
      bones := bones + [A.Bone(js[j].name, [])];
      j := j + 1;
    }
  }

  // ---------------------------------------------------------------------------------------
  // Meshes.
  // ---------------------------------------------------------------------------------------

  /** What the exporter reads of an MtMesh. */
  datatype MeshData = MeshData(name: string, materialId: Option<int>, vertices: seq<Vertex>, faces: seq<Faces.Face>)

  function DataOf(m: Mesh): MeshData
    reads m
  {
    MeshData(m.name, m.materialId, m.vertices, m.faces)
  }

  /** The bone count a vertex's weights are checked against: one bone per joint when
      skeletal, none at all (weights are not read) otherwise. */
  function BoneCount(mode: Mode): Option<nat>
  {
    if mode.Skeletal? then Some(|mode.joints|) else None
  }

  /** The mesh before its vertex loop: name, two UV components, material index and bones. */
  function MeshStart(d: MeshData, mode: Mode): A.Mesh
    requires d.materialId.Some?
  {
    A.NewMesh(Qualified(mode, d.name)).(
      uvComponentCount := 2,
      materialIndex := (if mode.Skeletal? then 0 else mode.materialBase) + d.materialId.value,
      bones := if mode.Skeletal? then MeshBones(mode.joints) else [])
  }

  /** One mesh of the model: material index, bones, vertex loop, face loop, each step raising
      its exception in that order. */
  function ExportedMesh(d: MeshData, mode: Mode): Result<A.Mesh, ExportError>
  {
    if d.materialId.None? then Failure(NoMaterialId)
    else
      match VerticesExport(MeshStart(d, mode), d.vertices, mode.Skeletal?)
      case Failure(e) => Failure(e)
      case Success(m) =>
        if FacesComplete(d.faces) then Success(m.(faces := m.faces + ExportedFaces(d.faces, mode.Prefixed?)))
        else Failure(ShortFace)
  }

  method ExportMesh(mesh: Mesh, mode: Mode) returns (r: Result<A.Mesh, ExportError>)
    ensures r == ExportedMesh(DataOf(mesh), mode)
  {
    var iMesh := A.NewMesh(if mode.Skeletal? then mesh.name else mode.prefix + "." + mesh.name);
    iMesh := iMesh.(uvComponentCount := 2);
    if mesh.materialId.None? {
      return Failure(NoMaterialId);
    }
    var base := if mode.Skeletal? then 0 else mode.materialBase;
    iMesh := iMesh.(materialIndex := base + mesh.materialId.value);
    if mode.Skeletal? {
      var bones := ExportBones(mode.joints);
      iMesh := iMesh.(bones := bones);
    }
    assert iMesh == MeshStart(DataOf(mesh), mode);
    var withVertices := ExportVertices(iMesh, mesh.vertices, mode.Skeletal?);
    if withVertices.Failure? {
      return Failure(withVertices.error);
    }
    r := ExportFaces(withVertices.value, mesh.faces, mode.Prefixed?);
  }

  /** The values in order, or the exception of the first result that is one. */
  function Collected<T>(rs: seq<Result<T, ExportError>>): (r: Result<seq<T>, ExportError>)
    ensures r.Success? ==> |r.value| == |rs|
  {
    if |rs| == 0 then Success([])
    else
      match Collected(rs[..|rs| - 1])
      case Failure(e) => Failure(e)
      case Success(vs) =>
        match rs[|rs| - 1]
        case Failure(e) => Failure(e)
        case Success(v) => Success(vs + [v])
  }

  /** An exception among the first n results is the exception of the whole list. */
  lemma {:induction false} CollectedSticks<T>(rs: seq<Result<T, ExportError>>, n: nat)
    requires n <= |rs| && Collected(rs[..n]).Failure?
    decreases |rs| - n
    ensures Collected(rs) == Collected(rs[..n])
  {
    if n < |rs| {
      assert rs[..n + 1][..n] == rs[..n];
      CollectedSticks(rs, n + 1);
    } else {
      assert rs[..n] == rs;
    }
  }

  /** The results collect exactly when each is a value, and then to those values; otherwise
      to the exception of the first one that is not. */
  lemma {:induction false} CollectedEach<T>(rs: seq<Result<T, ExportError>>)
    ensures Collected(rs).Success? <==> forall i :: 0 <= i < |rs| ==> rs[i].Success?
    ensures Collected(rs).Success? ==> forall i :: 0 <= i < |rs| ==> Collected(rs).value[i] == rs[i].value
    ensures Collected(rs).Failure? ==>
      exists i :: 0 <= i < |rs| && rs[i] == Failure(Collected(rs).error) && forall k :: 0 <= k < i ==> rs[k].Success?
  {
    if |rs| > 0 {
      var init := rs[..|rs| - 1];
      CollectedEach(init);
      assert forall i :: 0 <= i < |init| ==> init[i] == rs[i];
      if Collected(init).Success? && rs[|rs| - 1].Success? {
        assert Collected(rs).value == Collected(init).value + [rs[|rs| - 1].value];
      }
    }
  }

  /** Each mesh's export, in order. */
  function MeshResults(ds: seq<MeshData>, mode: Mode): (rs: seq<Result<A.Mesh, ExportError>>)
    decreases |ds|, 1
    ensures |rs| == |ds|
  {
    if |ds| == 0 then [] else ResultsThenLast(ds, mode)
  }

  /** The results of all meshes but the last, then the last one's. */
  function ResultsThenLast(ds: seq<MeshData>, mode: Mode): (rs: seq<Result<A.Mesh, ExportError>>)
    requires |ds| > 0
    decreases |ds|, 0
    ensures |rs| == |ds|
  {
    MeshResults(ds[..|ds| - 1], mode) + [ExportedMesh(ds[|ds| - 1], mode)]
  }

  lemma {:induction false} MeshResultsAt(ds: seq<MeshData>, mode: Mode, i: nat)
    requires i < |ds|
    ensures MeshResults(ds, mode)[i] == ExportedMesh(ds[i], mode)
  {
    assert MeshResults(ds, mode) == ResultsThenLast(ds, mode);
    if i < |ds| - 1 {
      MeshResultsAt(ds[..|ds| - 1], mode, i);
    }
  }

  /** A prefix of the meshes gives the prefix of the results. */
  lemma {:induction false} MeshResultsPrefix(ds: seq<MeshData>, mode: Mode, n: nat)
    requires n <= |ds|
    ensures MeshResults(ds[..n], mode) == MeshResults(ds, mode)[..n]
  {
    if n < |ds| {
      assert ds[..|ds| - 1][..n] == ds[..n];
      assert MeshResults(ds, mode) == ResultsThenLast(ds, mode);
      MeshResultsPrefix(ds[..|ds| - 1], mode, n);
    } else {
      assert ds[..n] == ds;
    }
  }

  /** One turn of a mesh loop: the mesh's export, which is its entry in the results. */
  method NextMesh(mesh: Mesh, mode: Mode, ghost ds: seq<MeshData>, ghost i: nat) returns (r: Result<A.Mesh, ExportError>)
    requires i < |ds| && ds[i] == DataOf(mesh)
    ensures r == MeshResults(ds, mode)[i]
  {
    r := ExportMesh(mesh, mode);
    MeshResultsAt(ds, mode, i);
  }

  /** The meshes export exactly when each does, each to its own export. */
  lemma MeshesExportEach(ds: seq<MeshData>, mode: Mode)
    ensures var r := Collected(MeshResults(ds, mode));
      && (r.Success? <==> forall i :: 0 <= i < |ds| ==> ExportedMesh(ds[i], mode).Success?)
      && (r.Success? ==> forall i :: 0 <= i < |ds| ==> r.value[i] == ExportedMesh(ds[i], mode).value)
  {
    var rs := MeshResults(ds, mode);
    CollectedEach(rs);
    forall i | 0 <= i < |ds|
      ensures rs[i] == ExportedMesh(ds[i], mode)
    {
      MeshResultsAt(ds, mode, i);
    }
  }

  /** What the exporter reads of an MtModel. */
  datatype ModelData = ModelData(
    name: string, joints: seq<Joint>, materials: seq<Materials.Material>, meshes: seq<MeshData>)

  function MeshesData(ms: seq<Mesh>): (ds: seq<MeshData>)
    reads ms
    ensures |ds| == |ms| && forall i :: 0 <= i < |ms| ==> ds[i] == DataOf(ms[i])
  {
    seq(|ms|, i reads ms requires 0 <= i < |ms| => DataOf(ms[i]))
  }

  function ModelDataOf(model: Model): ModelData
    reads model, model.meshes
  {
    ModelData(model.name, model.joints, model.materials, MeshesData(model.meshes))
  }

  // ---------------------------------------------------------------------------------------
  // Nodes: one per mesh under the root, then the skeleton.
  // ---------------------------------------------------------------------------------------

  /** The node of mesh i: "MeshNode" and i in four digits, pointing at mesh i. */
  function MeshNode(i: nat): (n: A.Node)
    ensures n.meshIndices == [i] && n.children == []
  {
    A.NewNode("MeshNode" + Paths.D4(i)).(meshIndices := [i])
  }

  /** Different meshes get differently named nodes. */
  lemma MeshNodeNamesDiffer(i: nat, j: nat)
    requires i != j
    ensures MeshNode(i).name != MeshNode(j).name
  {
    Paths.D4Injective(i, j);
    assert MeshNode(i).name[8..] == Paths.D4(i);
    assert MeshNode(j).name[8..] == Paths.D4(j);
  }

  /** The base scene's root with the nodes of n meshes. */
  function MeshRoot(n: nat): (r: A.Node)
    ensures r.name == U.RootNodeName && |r.children| == n
    ensures forall i :: 0 <= i < n ==> r.children[i] == MeshNode(i)
  {
    U.GetBaseScene().rootNode.(children := seq(n, i requires 0 <= i => MeshNode(i)))
  }

  /** The node of a joint: its name, with its relative matrix as the transform. */
  function JointNode(j: Joint): A.Node
    requires j.relative.Some?
  {
    A.NewNode(j.name).(transform := U.ToAssimp(j.relative.value))
  }

  /** A parent id of null or -1 hangs the joint under the root. */
  predicate Orphan(j: Joint)
  {
    j.parentId.None? || j.parentId.value == -1
  }

  /** One joint added to the tree: under the root, or under the first node named like its
      parent; the parent lookup, the matrix and the parent node each raise their exception. */
  function AttachJoint(root: A.Node, js: seq<Joint>, j: Joint): Result<A.Node, ExportError>
  {
    if !Orphan(j) && !(0 <= j.parentId.value < |js|) then Failure(NoSuchParentJoint)
    else if j.relative.None? then Failure(NoRelativeMatrix)
    else
      var parent := if Orphan(j) then Some([]) else A.FindNode(root, js[j.parentId.value].name);
      if parent.None? then Failure(NoParentNode)
      else Success(A.AddChild(root, parent.value, JointNode(j)))
  }

  /** The first n joints added in order. */
  function AttachJoints(root: A.Node, js: seq<Joint>, n: nat): Result<A.Node, ExportError>
    requires n <= |js|
  {
    if n == 0 then Success(root)
    else
      match AttachJoints(root, js, n - 1)
      case Failure(e) => Failure(e)
      case Success(t) => AttachJoint(t, js, js[n - 1])
  }

  /** The joint loop. */
  method ExportJoints(root: A.Node, joints: seq<Joint>) returns (r: Result<A.Node, ExportError>)
    ensures r == AttachJoints(root, joints, |joints|)
  {
    var node := root;
    var k := 0;
    while k < |joints|
      invariant 0 <= k <= |joints| && AttachJoints(root, joints, k) == Success(node)
    {
      var joint := joints[k];
      var boneNode := A.NewNode(joint.name);
      var parentNode: Option<seq<nat>>;
      if joint.parentId.None? || joint.parentId.value == -1 {
        parentNode := Some([]);
      } else {
        if !(0 <= joint.parentId.value < |joints|) {
          AttachJointsSticks(root, joints, k + 1, |joints|);
          return Failure(NoSuchParentJoint);
        }
        parentNode := A.FindNode(node, joints[joint.parentId.value].name);
      }
      if joint.relative.None? {
        AttachJointsSticks(root, joints, k + 1, |joints|);
        return Failure(NoRelativeMatrix);
      }
      boneNode := boneNode.(transform := U.ToAssimp(joint.relative.value));
      if parentNode.None? {
        AttachJointsSticks(root, joints, k + 1, |joints|);
        return Failure(NoParentNode);
      }
      node := A.AddChild(node, parentNode.value, boneNode);
      k := k + 1;
    }
    return Success(node);
  }

  /** An exception among the first n joints is the exception of the first m. */
  lemma {:induction false} AttachJointsSticks(root: A.Node, js: seq<Joint>, n: nat, m: nat)
    requires n <= m <= |js| && AttachJoints(root, js, n).Failure?
    decreases m
    ensures AttachJoints(root, js, m) == AttachJoints(root, js, n)
  {
    if n < m {
      AttachJointsSticks(root, js, n, m - 1);
    }
  }

  /** Every joint has a matrix, and a parent that is null, -1 or an earlier joint. */
  predicate Attachable(js: seq<Joint>)
  {
    forall i :: 0 <= i < |js| ==>
      js[i].relative.Some? && (!Orphan(js[i]) ==> 0 <= js[i].parentId.value < i)
  }

  /** The importer's joints satisfy it: parents come first, every matrix is there. */
  lemma ImportedJointsAttachable(js: seq<Joint>)
    requires ParentsPrecede(js) && PassReadable(js)
    ensures Attachable(js)
  {
  }

  /** Some node of the tree carries the joint's name and its relative matrix. */
  ghost predicate HasJointNode(n: A.Node, j: Joint)
    requires j.relative.Some?
  {
    exists p: seq<nat> :: A.NodeAt(n, p).Some? && A.NodeAt(n, p).value.name == j.name
      && A.NodeAt(n, p).value.transform == U.ToAssimp(j.relative.value)
  }

  /** Every node of the first tree is in the second, under the same path, with the same name,
      transform and meshes. */
  ghost predicate Keeps(before: A.Node, after: A.Node)
  {
    forall q: seq<nat> :: A.NodeAt(before, q).Some? ==>
      && A.NodeAt(after, q).Some?
      && A.NodeAt(after, q).value.name == A.NodeAt(before, q).value.name
      && A.NodeAt(after, q).value.transform == A.NodeAt(before, q).value.transform
      && A.NodeAt(after, q).value.meshIndices == A.NodeAt(before, q).value.meshIndices
  }

  /** Adding the node of joint k keeps every node there was, and the nodes of joints 0 to
      k - 1, and adds that of joint k. */
  lemma AttachOneKeeps(t: A.Node, path: seq<nat>, js: seq<Joint>, k: nat)
    requires A.NodeAt(t, path).Some? && Attachable(js) && k < |js|
    requires forall i :: 0 <= i < k ==> HasJointNode(t, js[i])
    ensures var after := A.AddChild(t, path, JointNode(js[k]));
      && Keeps(t, after)
      && forall i :: 0 <= i <= k ==> HasJointNode(after, js[i])
  {
    var child := JointNode(js[k]);
    var after := A.AddChild(t, path, child);
    forall q: seq<nat> | A.NodeAt(t, q).Some?
      ensures A.NodeAt(after, q).Some? && A.NodeAt(after, q).value.name == A.NodeAt(t, q).value.name
        && A.NodeAt(after, q).value.transform == A.NodeAt(t, q).value.transform
        && A.NodeAt(after, q).value.meshIndices == A.NodeAt(t, q).value.meshIndices
    {
      A.AddChildKeeps(t, path, child, q);
    }
    forall i | 0 <= i <= k
      ensures HasJointNode(after, js[i])
    {
      if i == k {
        var p := path + [|A.NodeAt(t, path).value.children|];
        A.AddChildPlaces(t, path, child);
        assert A.NodeAt(after, p) == Some(child);
      } else {
        var p :| A.NodeAt(t, p).Some? && A.NodeAt(t, p).value.name == js[i].name
          && A.NodeAt(t, p).value.transform == U.ToAssimp(js[i].relative.value);
        A.AddChildKeeps(t, path, child, p);
      }
    }
  }

  lemma KeepsTransitive(a: A.Node, b: A.Node, c: A.Node)
    requires Keeps(a, b) && Keeps(b, c)
    ensures Keeps(a, c)
  {
    forall q: seq<nat> | A.NodeAt(a, q).Some?
      ensures A.NodeAt(c, q).Some? && A.NodeAt(c, q).value.name == A.NodeAt(a, q).value.name
        && A.NodeAt(c, q).value.transform == A.NodeAt(a, q).value.transform
        && A.NodeAt(c, q).value.meshIndices == A.NodeAt(a, q).value.meshIndices
    {
      assert A.NodeAt(b, q).Some?;
    }
  }

  /** Attachable joints are all added without an exception, each as a node with its name and
      matrix, and every node there was stays where it was. */
  lemma {:induction false} AttachableJointsAttach(root: A.Node, js: seq<Joint>, n: nat)
    requires Attachable(js) && n <= |js|
    ensures AttachJoints(root, js, n).Success?
    ensures Keeps(root, AttachJoints(root, js, n).value)
    ensures forall i :: 0 <= i < n ==> HasJointNode(AttachJoints(root, js, n).value, js[i])
  {
    if n == 0 {
      assert Keeps(root, root);
    } else {
      AttachableJointsAttach(root, js, n - 1);
      AttachStep(root, js, n - 1);
    }
  }

  /** Joint k added to the tree of the joints before it: the tree still holds every node
      there was, and now holds joint k's node as well. */
  lemma AttachStep(root: A.Node, js: seq<Joint>, k: nat)
    requires Attachable(js) && k < |js| && AttachJoints(root, js, k).Success?
    requires Keeps(root, AttachJoints(root, js, k).value)
    requires forall i :: 0 <= i < k ==> HasJointNode(AttachJoints(root, js, k).value, js[i])
    ensures AttachJoints(root, js, k + 1).Success?
    ensures Keeps(root, AttachJoints(root, js, k + 1).value)
    ensures forall i :: 0 <= i < k + 1 ==> HasJointNode(AttachJoints(root, js, k + 1).value, js[i])
  {
    var t := AttachJoints(root, js, k).value;
    var path := AttachableJointAttaches(root, js, k);
    AttachOneKeeps(t, path, js, k);
    KeepsTransitive(root, t, A.AddChild(t, path, JointNode(js[k])));
  }

  /** With every earlier joint in the tree, joint k is added under some node of it. */
  lemma AttachableJointAttaches(root: A.Node, js: seq<Joint>, k: nat) returns (path: seq<nat>)
    requires Attachable(js) && k < |js| && AttachJoints(root, js, k).Success?
    requires forall i :: 0 <= i < k ==> HasJointNode(AttachJoints(root, js, k).value, js[i])
    ensures var t := AttachJoints(root, js, k).value;
      A.NodeAt(t, path).Some? && AttachJoints(root, js, k + 1) == Success(A.AddChild(t, path, JointNode(js[k])))
  {
    path := JointParentPath(root, js, k);
  }

  /** With every earlier joint in the tree, joint k finds its parent node: the root for a
      null or -1 parent id, and otherwise the first node named after the parent joint. */
  lemma JointParentPath(root: A.Node, js: seq<Joint>, k: nat) returns (path: seq<nat>)
    requires Attachable(js) && k < |js| && AttachJoints(root, js, k).Success?
    requires forall i :: 0 <= i < k ==> HasJointNode(AttachJoints(root, js, k).value, js[i])
    ensures var t := AttachJoints(root, js, k).value;
      A.NodeAt(t, path).Some? && AttachJoints(root, js, k + 1) == Success(A.AddChild(t, path, JointNode(js[k])))
    ensures Orphan(js[k]) ==> path == []
    ensures !Orphan(js[k]) ==> A.FindNode(AttachJoints(root, js, k).value, js[js[k].parentId.value].name) == Some(path)
  {
    var t := AttachJoints(root, js, k).value;
    var j := js[k];
    if Orphan(j) {
      path := [];
    } else {
      var p := j.parentId.value;
      assert HasJointNode(t, js[p]);
      var q :| A.NodeAt(t, q).Some? && A.NodeAt(t, q).value.name == js[p].name
        && A.NodeAt(t, q).value.transform == U.ToAssimp(js[p].relative.value);
      A.FindNodeComplete(t, js[p].name, q);
      path := A.FindNode(t, js[p].name).value;
    }
  }

  // ---------------------------------------------------------------------------------------
  // ExportScene(MtModel).
  // ---------------------------------------------------------------------------------------

  /** The scene of one model: its materials, its meshes with their nodes under the root, then
      its joints as nodes; the first exception of the mesh loop or the joint loop, if any. */
  function ExportModel(md: ModelData): Result<A.Scene, ExportError>
  {
    var mode := Skeletal(md.joints);
    match Collected(MeshResults(md.meshes, mode))
    case Failure(e) => Failure(e)
    case Success(ms) =>
      match AttachJoints(MeshRoot(|ms|), md.joints, |md.joints|)
      case Failure(e) => Failure(e)
      case Success(root) => Success(A.Scene(root, ExportedMaterials(md.materials, mode), ms))
  }

  method ExportScene(model: Model) returns (r: Result<A.Scene, ExportError>)
    ensures r == ExportModel(ModelDataOf(model))
  {
    ghost var md := ModelDataOf(model);
    var mode := Skeletal(model.joints);
    ghost var rs := MeshResults(md.meshes, mode);
    var scene := U.GetBaseScene();
    var materials := ExportMaterials(model.materials, mode);
    scene := scene.(materials := scene.materials + materials);
    assert rs[..0] == [];
    var i := 0;
    while i < |model.meshes|
      invariant 0 <= i <= |model.meshes| && Collected(rs[..i]).Success?
      invariant scene == A.Scene(MeshRoot(i), ExportedMaterials(md.materials, mode), Collected(rs[..i]).value)
    {
      var iMesh := NextMesh(model.meshes[i], mode, md.meshes, i);
      assert rs[..i + 1][..i] == rs[..i];
      if iMesh.Failure? {
        CollectedSticks(rs, i + 1);
        return Failure(iMesh.error);
      }
      scene := scene.(meshes := scene.meshes + [iMesh.value]);
      var iMeshNode := A.NewNode("MeshNode" + Paths.D4(i)).(meshIndices := [i]);
      scene := scene.(rootNode := scene.rootNode.(children := scene.rootNode.children + [iMeshNode]));
      i := i + 1;
    }
    assert rs[..i] == rs;
    var root := ExportJoints(scene.rootNode, model.joints);
    if root.Failure? {
      return Failure(root.error);
    }
    return Success(scene.(rootNode := root.value));
  }

  /** The tree after the joint loop on the root with n mesh nodes: still the root, mesh node i
      still at child i, and a node for every joint. */
  lemma MeshRootWithJoints(js: seq<Joint>, n: nat)
    requires Attachable(js)
    ensures AttachJoints(MeshRoot(n), js, |js|).Success?
    ensures var root := AttachJoints(MeshRoot(n), js, |js|).value;
      && root.name == U.RootNodeName
      && (forall i :: 0 <= i < n ==>
            && A.NodeAt(root, [i]).Some?
            && A.NodeAt(root, [i]).value.name == MeshNode(i).name
            && A.NodeAt(root, [i]).value.meshIndices == [i])
      && forall i :: 0 <= i < |js| ==> HasJointNode(root, js[i])
  {
    AttachableJointsAttach(MeshRoot(n), js, |js|);
    var root := AttachJoints(MeshRoot(n), js, |js|).value;
    assert A.NodeAt(MeshRoot(n), []) == Some(MeshRoot(n));
    forall i | 0 <= i < n
      ensures A.NodeAt(root, [i]).Some? && A.NodeAt(root, [i]).value.name == MeshNode(i).name
        && A.NodeAt(root, [i]).value.meshIndices == [i]
    {
      assert A.NodeAt(MeshRoot(n), [i]) == Some(MeshNode(i));
    }
  }

  /** A model whose meshes all export and whose joints are attachable exports: every mesh to
      its own export, pointed at by a node under the root named after its index, every joint
      as a node with its name and matrix, and the materials as exported. */
  lemma ExportedModel(md: ModelData)
    requires Attachable(md.joints)
    requires forall i :: 0 <= i < |md.meshes| ==> ExportedMesh(md.meshes[i], Skeletal(md.joints)).Success?
    ensures ExportModel(md).Success?
    ensures var scene := ExportModel(md).value;
      && scene.rootNode.name == U.RootNodeName
      && scene.materials == ExportedMaterials(md.materials, Skeletal(md.joints))
      && |scene.meshes| == |md.meshes|
      && (forall i :: 0 <= i < |md.meshes| ==>
            && scene.meshes[i] == ExportedMesh(md.meshes[i], Skeletal(md.joints)).value
            && A.NodeAt(scene.rootNode, [i]).Some?
            && A.NodeAt(scene.rootNode, [i]).value.name == MeshNode(i).name
            && A.NodeAt(scene.rootNode, [i]).value.meshIndices == [i])
      && forall i :: 0 <= i < |md.joints| ==> HasJointNode(scene.rootNode, md.joints[i])
  {
    MeshesExportEach(md.meshes, Skeletal(md.joints));
    MeshRootWithJoints(md.joints, |md.meshes|);
  }

  // ---------------------------------------------------------------------------------------
  // ExportScene(List<MtModel>).
  // ---------------------------------------------------------------------------------------

  /** The nodes of a model's meshes: the qualified mesh name, pointing at the mesh's place in
      the scene, the model's meshes coming after the first `first`. */
  function ModelMeshNodes(ds: seq<MeshData>, prefix: string, first: nat): (ns: seq<A.Node>)
    ensures |ns| == |ds|
    ensures forall i :: 0 <= i < |ds| ==>
      ns[i].name == prefix + "." + ds[i].name && ns[i].meshIndices == [first + i] && ns[i].children == []
  {
    seq(|ds|, i requires 0 <= i < |ds| => A.NewNode(prefix + "." + ds[i].name).(meshIndices := [first + i]))
  }

  /** One model added to a scene: its materials after the scene's, its meshes after the
      scene's and shifted to those materials, and a node named after the model, holding one
      node per mesh, as the root's last child. */
  function AddModel(scene: A.Scene, md: ModelData): Result<A.Scene, ExportError>
  {
    var mode := Prefixed(md.name, |scene.materials|);
    match Collected(MeshResults(md.meshes, mode))
    case Failure(e) => Failure(e)
    case Success(ms) =>
      var modelNode := A.NewNode(md.name).(children := ModelMeshNodes(md.meshes, md.name, |scene.meshes|));
      Success(A.Scene(scene.rootNode.(children := scene.rootNode.children + [modelNode]),
                      scene.materials + ExportedMaterials(md.materials, mode),
                      scene.meshes + ms))
  }

  /** The first n models added in order to the base scene. */
  function AddModels(mds: seq<ModelData>, n: nat): Result<A.Scene, ExportError>
    requires n <= |mds|
    decreases n, 1
  {
    if n == 0 then Success(U.GetBaseScene()) else AddModelsThenLast(mds, n)
  }

  /** The first n - 1 models added, then model n - 1. */
  function AddModelsThenLast(mds: seq<ModelData>, n: nat): Result<A.Scene, ExportError>
    requires 0 < n <= |mds|
    decreases n, 0
  {
    match AddModels(mds, n - 1)
    case Failure(e) => Failure(e)
    case Success(scene) => AddModel(scene, mds[n - 1])
  }

  /** A single model is exported as ExportScene(MtModel) does, with its skeleton; any other
      number of models without skeletons, each under its own node. */
  function ExportModels(mds: seq<ModelData>): Result<A.Scene, ExportError>
  {
    if |mds| == 1 then ExportModel(mds[0]) else AddModels(mds, |mds|)
  }

  /** The meshes of all the models. */
  function AllMeshes(models: seq<Model>): set<Mesh>
    reads models
  {
    set m, x | m in models && x in m.meshes :: x
  }

  function ModelsData(models: seq<Model>): (mds: seq<ModelData>)
    reads models, AllMeshes(models)
    ensures |mds| == |models| && forall i :: 0 <= i < |models| ==> mds[i] == ModelDataOf(models[i])
  {
    seq(|models|, i reads models, AllMeshes(models) requires 0 <= i < |models| =>
      assert forall x :: x in models[i].meshes ==> x in AllMeshes(models);
      ModelDataOf(models[i]))
  }

  /** One turn of the model loop. */
  method ExportModelInto(scene: A.Scene, model: Model) returns (r: Result<A.Scene, ExportError>)
    ensures r == AddModel(scene, ModelDataOf(model))
  {
    ghost var md := ModelDataOf(model);
    var modelNode := A.NewNode(model.name);
    var baseMaterialCount := |scene.materials|;
    var mode := Prefixed(model.name, baseMaterialCount);
    ghost var rs := MeshResults(md.meshes, mode);
    var materials := ExportMaterials(model.materials, mode);
    var s := scene.(materials := scene.materials + materials);
    assert rs[..0] == [];
    var i := 0;
    while i < |model.meshes|
      invariant 0 <= i <= |model.meshes| && Collected(rs[..i]).Success?
      invariant s == scene.(materials := scene.materials + materials, meshes := scene.meshes + Collected(rs[..i]).value)
      invariant modelNode == A.NewNode(model.name).(children := ModelMeshNodes(md.meshes[..i], model.name, |scene.meshes|))
    {
      var mesh := model.meshes[i];
      var iMesh := NextMesh(mesh, mode, md.meshes, i);
      assert rs[..i + 1][..i] == rs[..i];
      if iMesh.Failure? {
        CollectedSticks(rs, i + 1);
        return Failure(iMesh.error);
      }
      s := s.(meshes := s.meshes + [iMesh.value]);
      var iMeshNode := A.NewNode(model.name + "." + mesh.name).(meshIndices := [|s.meshes| - 1]);
      assert ModelMeshNodes(md.meshes[..i + 1], model.name, |scene.meshes|)
          == ModelMeshNodes(md.meshes[..i], model.name, |scene.meshes|) + [iMeshNode];
      modelNode := modelNode.(children := modelNode.children + [iMeshNode]);
      i := i + 1;
    }
    assert rs[..i] == rs;
    assert md.meshes[..i] == md.meshes;
    s := s.(rootNode := s.rootNode.(children := s.rootNode.children + [modelNode]));
    return Success(s);
  }

  method ExportScenes(models: seq<Model>) returns (r: Result<A.Scene, ExportError>)
    ensures r == ExportModels(ModelsData(models))
  {
    ghost var mds := ModelsData(models);
    if |models| == 1 {
      r := ExportScene(models[0]);
    } else {
      r := ExportEachModel(models, mds);
    }
    assert ModelsData(models) == mds;
  }

  /** The model loop of ExportScene(List<MtModel>). */
  method ExportEachModel(models: seq<Model>, ghost mds: seq<ModelData>) returns (r: Result<A.Scene, ExportError>)
    requires |mds| == |models| && forall k :: 0 <= k < |models| ==> mds[k] == ModelDataOf(models[k])
    ensures r == AddModels(mds, |mds|)
  {
    var scene := U.GetBaseScene();
    var it := 0;
    while it < |models|
      invariant 0 <= it <= |models| && AddModels(mds, it) == Success(scene)
    {
      var next := NextModel(scene, models[it], mds, it);
      if next.Failure? {
        AddModelsSticks(mds, it + 1, |mds|);
        return next;
      }
      scene := next.value;
      it := it + 1;
    }
    return Success(scene);
  }

  /** One turn of the model loop, as a step of the fold. */
  method NextModel(scene: A.Scene, model: Model, ghost mds: seq<ModelData>, ghost it: nat)
    returns (r: Result<A.Scene, ExportError>)
    requires it < |mds| && mds[it] == ModelDataOf(model) && AddModels(mds, it) == Success(scene)
    ensures r == AddModels(mds, it + 1)
  {
    r := ExportModelInto(scene, model);
    assert AddModels(mds, it + 1) == AddModelsThenLast(mds, it + 1);
  }

  /** An exception among the first n models is the exception of the first m. */
  lemma {:induction false} AddModelsSticks(mds: seq<ModelData>, n: nat, m: nat)
    requires n <= m <= |mds| && AddModels(mds, n).Failure?
    decreases m
    ensures AddModels(mds, m) == AddModels(mds, n)
  {
    if n < m {
      AddModelsSticks(mds, n, m - 1);
      assert AddModels(mds, m) == AddModelsThenLast(mds, m);
    }
  }
}
