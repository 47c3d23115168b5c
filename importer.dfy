/** AssimpImporter.ImportScene, from the scene Assimp has read: the skeleton from the node tree,
    the materials, and the meshes with their vertices, skin weights, faces and triangle strips. */
module Importer {
  import opened Wrappers
  import N = Numerics
  import opened WeightPositions
  import opened Vertices
  import Faces
  import opened Joints
  import Materials
  import opened Meshes
  import T = TriangleStrips
  import opened Models
  import A = AssimpScenes
  import U = AssimpUtils
  import Paths

  /** The exceptions the importer throws on a face that is not a triangle. */
  datatype FaceError = TooManyIndices | TooFewIndices

  /** The message each exception carries. */
  function Message(e: FaceError): string
  {
    match e
    case TooManyIndices => "Sorry! We only work with triangles and you have a face with more than 3 vertices!"
    case TooFewIndices => "It seems like one of your faces consist of less than 3 vertices. That doesn't sound right."
  }

  /** List.IndexOf: the first position holding x, or -1. */
  function IndexOf<T(==)>(xs: seq<T>, x: T): (r: int)
    ensures -1 <= r < |xs|
    ensures r == -1 <==> x !in xs
    ensures r >= 0 ==> xs[r] == x && x !in xs[..r]
  {
    if |xs| == 0 then -1
    else if xs[0] == x then 0
    else
      var r := IndexOf(xs[1..], x);
      assert r >= 0 ==> xs[..r + 1] == [xs[0]] + xs[1..][..r];
      if r == -1 then -1 else r + 1
  }

  // ---------------------------------------------------------------------------------------
  // Skeleton.
  // ---------------------------------------------------------------------------------------

  /** nodeList.IndexOf(node.Parent), when the node has a parent that is in the list. */
  function ParentIndex(nodes: seq<seq<nat>>, p: seq<nat>): (r: Option<int>)
    ensures r.None? <==> |p| == 0 || p[..|p| - 1] !in nodes
    ensures r.Some? ==> 0 <= r.value < |nodes| && nodes[r.value] == p[..|p| - 1] && p[..|p| - 1] !in nodes[..r.value]
  {
    if |p| == 0 then None
    else
      var j := IndexOf(nodes, p[..|p| - 1]);
      if j == -1 then None else Some(j)
  }

  predicate AllExist(root: A.Node, nodes: seq<seq<nat>>)
  {
    forall k :: 0 <= k < |nodes| ==> A.NodeAt(root, nodes[k]).Some?
  }

  /** The joint made from node i of the list: its name, its transform as the relative matrix,
      the parent's list index, then Decompose. */
  function ImportedJoint(root: A.Node, nodes: seq<seq<nat>>, i: nat): Joint
    requires i < |nodes| && AllExist(root, nodes)
  {
    var node := A.NodeAt(root, nodes[i]).value;
    Decompose(Joints.New().(name := node.name,
                            relative := Some(U.ToNumerics(node.transform)),
                            parentId := ParentIndex(nodes, nodes[i])))
  }

  function ImportedJoints(root: A.Node, nodes: seq<seq<nat>>): (js: seq<Joint>)
    requires AllExist(root, nodes)
    ensures |js| == |nodes| && forall i :: 0 <= i < |nodes| ==> js[i] == ImportedJoint(root, nodes, i)
  {
    seq(|nodes|, i requires 0 <= i < |nodes| => ImportedJoint(root, nodes, i))
  }

  method ImportJoints(root: A.Node, nodes: seq<seq<nat>>) returns (joints: seq<Joint>)
    requires AllExist(root, nodes)
    ensures joints == ImportedJoints(root, nodes)
  {
    joints := [];
    var i := 0;
    while i < |nodes|
      invariant 0 <= i <= |nodes| && |joints| == i
      invariant forall k :: 0 <= k < i ==> joints[k] == ImportedJoint(root, nodes, k)
    {
      var node := A.NodeAt(root, nodes[i]).value;
      var joint := Joints.New();
      joint := joint.(name := node.name);
      joint := joint.(relative := Some(U.ToNumerics(node.transform)));
      joint := joint.(parentId := ParentIndex(nodes, nodes[i]));
      joint := Decompose(joint);
      joints := joints + [joint];
      i := i + 1;
    }
  }

  /** Every path GetNodeList gives leads to a node. */
  lemma ListedNodesExist(root: A.Node)
    ensures AllExist(root, U.Collect(root, []))
  {
    var nodes := U.Collect(root, []);
    U.NodeListFacts(root);
    forall k | 0 <= k < |nodes|
      ensures A.NodeAt(root, nodes[k]).Some?
    {
      U.ListedAvoidsMeshes(root, nodes[k], 0);
    }
  }

  /** A joint's parent index names the joint made from its node's parent, and, since GetNodeList
      lists ancestors first, an earlier one: the absolute pass then reads only fresh values. */
  lemma ImportedParentsPrecede(root: A.Node, nodes: seq<seq<nat>>)
    requires AllExist(root, nodes) && U.AncestorsFirst(nodes)
    ensures ParentsPrecede(ImportedJoints(root, nodes))
    ensures forall i :: 0 <= i < |nodes| && ImportedJoint(root, nodes, i).parentId.Some? ==>
      var j := ImportedJoint(root, nodes, i).parentId.value;
      0 <= j < |nodes| && |nodes[i]| > 0 && nodes[j] == nodes[i][..|nodes[i]| - 1]
  {
    var js := ImportedJoints(root, nodes);
    forall i | 0 <= i < |js| && js[i].parentId.Some?
      ensures 0 <= js[i].parentId.value < i
    {
      var j := js[i].parentId.value;
      var parent := nodes[i][..|nodes[i]| - 1];
      assert nodes[j] == parent;
      assert U.Extends(nodes[j], nodes[i]);
    }
  }

  /** The skeleton GetNodeList and the joint loop give for a scene. */
  ghost function SceneJoints(scene: A.Scene): (js: seq<Joint>)
    ensures ParentsPrecede(js) && PassReadable(js)
  {
    ListedNodesExist(scene.rootNode);
    U.NodeListFacts(scene.rootNode);
    var nodes := U.Collect(scene.rootNode, []);
    ImportedParentsPrecede(scene.rootNode, nodes);
    ParentsPrecedeReadable(ImportedJoints(scene.rootNode, nodes));
    ImportedJoints(scene.rootNode, nodes)
  }

  /** After the absolute pass, each imported joint's absolute matrix is the product of the
      relative matrices (node transforms) from the joint up to its root. */
  lemma ImportedAbsoluteIsChain(scene: A.Scene, i: nat)
    requires i < |SceneJoints(scene)|
    ensures var js := SceneJoints(scene);
      Calculated(js, i).absolute == Some(Product(Relatives(js, Ancestry(js, i))))
  {
    AbsoluteIsChainOfRelatives(SceneJoints(scene), i);
  }

  // ---------------------------------------------------------------------------------------
  // Materials.
  // ---------------------------------------------------------------------------------------

  /** The material keeps its name; its texture file is the last backslash-separated part of
      the scene's path, placed in the model's directory, with ".png" appended. */
  function ImportedMaterial(m: A.Material, directory: string): Materials.Material
  {
    Materials.Material(m.name, Paths.Combine(directory, Paths.LastSegment(m.textureDiffuse.filePath)) + ".png")
  }

  /** The materials of the scene, imported one by one. */
  function ImportedMaterials(ms: seq<A.Material>, directory: string): (r: seq<Materials.Material>)
    ensures |r| == |ms| && forall i :: 0 <= i < |ms| ==> r[i] == ImportedMaterial(ms[i], directory)
  {
    if |ms| == 0 then [] else ImportedMaterials(ms[..|ms| - 1], directory) + [ImportedMaterial(ms[|ms| - 1], directory)]
  }

  method ImportMaterials(ms: seq<A.Material>, directory: string) returns (materials: seq<Materials.Material>)
    ensures materials == ImportedMaterials(ms, directory)
  {
    materials := [];
    var i := 0;
    while i < |ms|
      invariant 0 <= i <= |ms|
      invariant materials == ImportedMaterials(ms[..i], directory)
    {
      var material := ImportMaterial(ms[i], directory);
      assert ms[..i + 1][..i] == ms[..i];
      materials := materials + [material];
      i := i + 1;
    }
    assert ms[..i] == ms;
  }

  /** The body of the material loop. */
  method ImportMaterial(m: A.Material, directory: string) returns (material: Materials.Material)
    ensures material == ImportedMaterial(m, directory)
  {
    material := Materials.New();
    material := material.(name := m.name);
    var textureFilepath := m.textureDiffuse.filePath;
    textureFilepath := Paths.LastSegment(textureFilepath);
    textureFilepath := Paths.Combine(directory, textureFilepath);
    textureFilepath := textureFilepath + ".png";
    material := material.(diffuseTextureFileName := textureFilepath);
  }

  /** The exporter's GetFileNameWithoutExtension recovers the texture name the scene gave,
      when that name is non-empty and has no '/' or ':'. */
  lemma ImportedTextureNameRoundTrips(m: A.Material, directory: string)
    requires var name := Paths.LastSegment(m.textureDiffuse.filePath); |name| > 0 && Paths.PlainName(name)
    ensures Paths.GetFileNameWithoutExtension(ImportedMaterial(m, directory).diffuseTextureFileName)
         == Paths.LastSegment(m.textureDiffuse.filePath)
  {
    Paths.TextureNameRoundTrips(directory, Paths.LastSegment(m.textureDiffuse.filePath));
  }

  // ---------------------------------------------------------------------------------------
  // Vertices and weights.
  // ---------------------------------------------------------------------------------------

  /** Each channel the importer reads at index j, for every vertex j, is empty or long enough. */
  predicate ChannelsCover(am: A.Mesh)
  {
    && (|am.textureCoordinates| == 0 || |am.textureCoordinates| >= |am.vertices|)
    && (|am.vertexColors| == 0 || |am.vertexColors| >= |am.vertices|)
    && (|am.normals| == 0 || |am.normals| >= |am.vertices|)
  }

  /** Vertex j: its position, and UV, colour and normal when the mesh has that channel. */
  function ImportedVertex(am: A.Mesh, j: nat): Vertex
    requires ChannelsCover(am) && j < |am.vertices|
  {
    Vertices.New().(
      absolutePosition := Some(U.ToNumericsVector(am.vertices[j])),
      textureCoordinates := if |am.textureCoordinates| > 0 then Some(U.ToNumericsVector(am.textureCoordinates[j])) else None,
      color := if |am.vertexColors| > 0 then Some(U.ToNumericsColor(am.vertexColors[j])) else None,
      normal := if |am.normals| > 0 then Some(U.ToNumericsVector(am.normals[j])) else None)
  }

  method ImportVertices(am: A.Mesh) returns (vs: seq<Vertex>)
    requires ChannelsCover(am)
    ensures |vs| == |am.vertices| && forall j :: 0 <= j < |vs| ==> vs[j] == ImportedVertex(am, j)
  {
    vs := [];
    var j := 0;
    while j < |am.vertices|
      invariant 0 <= j <= |am.vertices| && |vs| == j
      invariant forall k :: 0 <= k < j ==> vs[k] == ImportedVertex(am, k)
    {
      var vertex := Vertices.New();
      vertex := vertex.(absolutePosition := Some(U.ToNumericsVector(am.vertices[j])));
      if |am.textureCoordinates| > 0 {
        vertex := vertex.(textureCoordinates := Some(U.ToNumericsVector(am.textureCoordinates[j])));
      }
      if |am.vertexColors| > 0 {
        vertex := vertex.(color := Some(U.ToNumericsColor(am.vertexColors[j])));
      }
      if |am.normals| > 0 {
        vertex := vertex.(normal := Some(U.ToNumericsVector(am.normals[j])));
      }
      vs := vs + [vertex];
      j := j + 1;
    }
  }

  /** The weights one bone gives vertex v, in the bone's order, all bound to boneIndex. */
  function BoneWeights(ws: seq<A.VertexWeight>, boneIndex: int, v: int): seq<WeightPosition>
  {
    if |ws| == 0 then []
    else
      var w := ws[|ws| - 1];
      BoneWeights(ws[..|ws| - 1], boneIndex, v)
        + (if w.vertexId == v then [WeightPosition(Some(boneIndex), None, Some(w.weight))] else [])
  }

  /** The weights all bones give vertex v, bone by bone; a bone is bound to the first joint of
      its name, or to -1. */
  function MeshWeights(bones: seq<A.Bone>, names: seq<string>, v: int): seq<WeightPosition>
  {
    if |bones| == 0 then []
    else
      var b := bones[|bones| - 1];
      MeshWeights(bones[..|bones| - 1], names, v) + BoneWeights(b.vertexWeights, IndexOf(names, b.name), v)
  }

  function JointNames(js: seq<Joint>): (names: seq<string>)
    ensures |names| == |js| && forall i :: 0 <= i < |js| ==> names[i] == js[i].name
  {
    seq(|js|, i requires 0 <= i < |js| => js[i].name)
  }

  /** The search for the first joint named like the bone. */
  method FindJointIndex(joints: seq<Joint>, boneName: string) returns (boneIndex: int)
    ensures boneIndex == IndexOf(JointNames(joints), boneName)
  {
    boneIndex := -1;
    var k := 0;
    while k < |joints|
      invariant 0 <= k <= |joints|
      invariant boneName !in JointNames(joints)[..k]
    {
      if joints[k].name == boneName {
        boneIndex := k;
        assert JointNames(joints)[k] == boneName;
        return;
      }
      assert JointNames(joints)[..k + 1] == JointNames(joints)[..k] + [joints[k].name];
      k := k + 1;
    }
    assert JointNames(joints)[..k] == JointNames(joints);
  }

  /** Every weight of every bone names a vertex of the mesh. */
  predicate WeightsInRange(bones: seq<A.Bone>, n: nat)
  {
    forall b, k :: 0 <= b < |bones| && 0 <= k < |bones[b].vertexWeights| ==> 0 <= bones[b].vertexWeights[k].vertexId < n
  }

  /** One bone's weights, appended to the vertices they name. */
  method AddBoneWeights(vs: seq<Vertex>, ws: seq<A.VertexWeight>, boneIndex: int) returns (result: seq<Vertex>)
    requires forall k :: 0 <= k < |ws| ==> 0 <= ws[k].vertexId < |vs|
    ensures |result| == |vs|
    ensures forall v :: 0 <= v < |vs| ==> result[v] == vs[v].(weights := vs[v].weights + BoneWeights(ws, boneIndex, v))
  {
    result := vs;
    var k := 0;
    while k < |ws|
      invariant 0 <= k <= |ws| && |result| == |vs|
      invariant forall v :: 0 <= v < |vs| ==> result[v] == vs[v].(weights := vs[v].weights + BoneWeights(ws[..k], boneIndex, v))
    {
      var weight := ws[k];
      var weightPosition := WeightPositions.New();
      weightPosition := weightPosition.(jointIndex := Some(boneIndex));
      weightPosition := weightPosition.(weight := Some(weight.weight));
      var id := weight.vertexId;
      result := result[id := result[id].(weights := result[id].weights + [weightPosition])];
      assert ws[..k + 1][..k] == ws[..k];
      k := k + 1;
    }
    assert ws[..k] == ws;
  }

  /** All bones' weights, bone by bone. */
  method ImportWeights(vs: seq<Vertex>, bones: seq<A.Bone>, joints: seq<Joint>) returns (result: seq<Vertex>)
    requires WeightsInRange(bones, |vs|)
    ensures |result| == |vs|
    ensures forall v :: 0 <= v < |vs| ==> result[v] == vs[v].(weights := vs[v].weights + MeshWeights(bones, JointNames(joints), v))
  {
    result := vs;
    var j := 0;
    while j < |bones|
      invariant 0 <= j <= |bones| && |result| == |vs|
      invariant forall v :: 0 <= v < |vs| ==> result[v] == vs[v].(weights := vs[v].weights + MeshWeights(bones[..j], JointNames(joints), v))
    {
      var bone := bones[j];
      var boneIndex := FindJointIndex(joints, bone.name);
      assert forall k :: 0 <= k < |bone.vertexWeights| ==> 0 <= bone.vertexWeights[k].vertexId < |vs|;
      result := AddBoneWeights(result, bone.vertexWeights, boneIndex);
      assert bones[..j + 1][..j] == bones[..j];
      j := j + 1;
    }
    assert bones[..j] == bones;
  }

  /** What the weights give each vertex, in terms of the scene: a weight bound to joint index
      `idx` with value w sits on vertex v exactly when some bone bound to idx (the first joint
      of its name, or -1) has the weight (v, w). */
  lemma {:induction false} BoneWeightsIff(ws: seq<A.VertexWeight>, idx: int, v: int, x: WeightPosition)
    ensures x in BoneWeights(ws, idx, v) <==>
      exists k :: 0 <= k < |ws| && ws[k].vertexId == v && x == WeightPosition(Some(idx), None, Some(ws[k].weight))
  {
    if |ws| > 0 {
      var init := ws[..|ws| - 1];
      BoneWeightsIff(init, idx, v, x);
      if exists k :: 0 <= k < |init| && init[k].vertexId == v && x == WeightPosition(Some(idx), None, Some(init[k].weight)) {
        var k :| 0 <= k < |init| && init[k].vertexId == v && x == WeightPosition(Some(idx), None, Some(init[k].weight));
        assert ws[k] == init[k];
      }
      if exists k :: 0 <= k < |ws| && ws[k].vertexId == v && x == WeightPosition(Some(idx), None, Some(ws[k].weight)) {
        var k :| 0 <= k < |ws| && ws[k].vertexId == v && x == WeightPosition(Some(idx), None, Some(ws[k].weight));
        if k < |init| {
          assert init[k] == ws[k];
        }
      }
    }
  }

  /** x is among the weights bone b gives vertex v. */
  predicate FromBone(bones: seq<A.Bone>, b: int, names: seq<string>, v: int, x: WeightPosition)
    requires 0 <= b < |bones|
  {
    x in BoneWeights(bones[b].vertexWeights, IndexOf(names, bones[b].name), v)
  }

  lemma {:induction false} MeshWeightsIff(bones: seq<A.Bone>, names: seq<string>, v: int, x: WeightPosition)
    ensures x in MeshWeights(bones, names, v) <==> exists b :: 0 <= b < |bones| && FromBone(bones, b, names, v, x)
  {
    if |bones| > 0 {
      var n := |bones| - 1;
      var init := bones[..n];
      MeshWeightsIff(init, names, v, x);
      assert MeshWeights(bones, names, v) == MeshWeights(init, names, v) + BoneWeights(bones[n].vertexWeights, IndexOf(names, bones[n].name), v);
      assert forall b :: 0 <= b < n ==> (FromBone(init, b, names, v, x) <==> FromBone(bones, b, names, v, x));
      if x in MeshWeights(bones, names, v) {
        if x in MeshWeights(init, names, v) {
          var b :| 0 <= b < n && FromBone(init, b, names, v, x);
          assert FromBone(bones, b, names, v, x);
        } else {
          assert FromBone(bones, n, names, v, x);
        }
      }
      if exists b :: 0 <= b < |bones| && FromBone(bones, b, names, v, x) {
        var b :| 0 <= b < |bones| && FromBone(bones, b, names, v, x);
        if b < n {
          assert FromBone(init, b, names, v, x);
        }
      }
    }
  }

  // ---------------------------------------------------------------------------------------
  // Faces.
  // ---------------------------------------------------------------------------------------

  /** The faces in order, every one clockwise with its indices, or the exception of the first
      face that is not a triangle. */
  function ImportedFaces(fs: seq<A.Face>): Result<seq<Faces.Face>, FaceError>
  {
    if |fs| == 0 then Success([])
    else
      match ImportedFaces(fs[..|fs| - 1])
      case Failure(e) => Failure(e)
      case Success(prev) =>
        var f := fs[|fs| - 1];
        if |f.indices| > 3 then Failure(TooManyIndices)
        else if |f.indices| < 3 then Failure(TooFewIndices)
        else Success(prev + [Faces.Face(f.indices, [], true)])
  }

  method ImportFaces(fs: seq<A.Face>) returns (r: Result<seq<Faces.Face>, FaceError>)
    ensures r == ImportedFaces(fs)
  {
    var faces: seq<Faces.Face> := [];
    var j := 0;
    while j < |fs|
      invariant 0 <= j <= |fs|
      invariant ImportedFaces(fs[..j]) == Success(faces)
    {
      var iFace := fs[j];
      assert fs[..j + 1][..j] == fs[..j];
      if |iFace.indices| > 3 {
        ImportedFacesFailureSticks(fs, j + 1);
        return Failure(TooManyIndices);
      } else if |iFace.indices| < 3 {
        ImportedFacesFailureSticks(fs, j + 1);
        return Failure(TooFewIndices);
      }
      var face := Faces.New();
      face := face.(vertexIndices := iFace.indices);
      face := face.(clockwise := true);
      faces := faces + [face];
      j := j + 1;
    }
    assert fs[..j] == fs;
    return Success(faces);
  }

  /** Once a prefix fails, the whole list fails with the same exception. */
  lemma {:induction false} ImportedFacesFailureSticks(fs: seq<A.Face>, j: nat)
    requires j <= |fs| && ImportedFaces(fs[..j]).Failure?
    decreases |fs| - j
    ensures ImportedFaces(fs) == ImportedFaces(fs[..j])
  {
    if j < |fs| {
      assert fs[..j + 1][..j] == fs[..j];
      ImportedFacesFailureSticks(fs, j + 1);
    } else {
      assert fs[..j] == fs;
    }
  }

  /** The import of the faces succeeds exactly when every face has three indices, and then
      gives one clockwise face per face, with the same indices and no vertices yet. */
  lemma {:induction false} ImportedFacesSucceed(fs: seq<A.Face>)
    ensures ImportedFaces(fs).Success? <==> forall k :: 0 <= k < |fs| ==> |fs[k].indices| == 3
    ensures ImportedFaces(fs).Success? ==>
      var faces := ImportedFaces(fs).value;
      |faces| == |fs| && forall k :: 0 <= k < |fs| ==> faces[k] == Faces.Face(fs[k].indices, [], true)
  {
    if |fs| > 0 {
      var init := fs[..|fs| - 1];
      ImportedFacesSucceed(init);
      assert forall k :: 0 <= k < |init| ==> init[k] == fs[k];
    }
  }

  /** A failing import reports the first face that is not a triangle. */
  lemma {:induction false} ImportedFacesReportFirst(fs: seq<A.Face>, j: nat)
    requires j < |fs| && |fs[j].indices| != 3 && forall k :: 0 <= k < j ==> |fs[k].indices| == 3
    ensures ImportedFaces(fs) == Failure(if |fs[j].indices| > 3 then TooManyIndices else TooFewIndices)
  {
    ImportedFacesSucceed(fs[..j]);
    assert forall k :: 0 <= k < j ==> fs[..j][k] == fs[k];
    assert fs[..j + 1][..j] == fs[..j];
    ImportedFacesFailureSticks(fs, j + 1);
  }

  // ---------------------------------------------------------------------------------------
  // Meshes and the scene.
  // ---------------------------------------------------------------------------------------

  /** What the mesh loop needs in order not to throw midway: channels long enough, weights
      on existing vertices, and the indices of every triangle naming existing vertices. */
  predicate MeshImportable(am: A.Mesh)
  {
    && ChannelsCover(am)
    && WeightsInRange(am.bones, |am.vertices|)
    && forall f :: 0 <= f < |am.faces| && |am.faces[f].indices| == 3 ==>
         0 <= am.faces[f].indices[0] < |am.vertices| && 0 <= am.faces[f].indices[1] < |am.vertices|
         && 0 <= am.faces[f].indices[2] < |am.vertices|
  }

  /** The vertices of an imported mesh: each with its weights from all bones. */
  function ImportedMeshVertices(am: A.Mesh, names: seq<string>): (vs: seq<Vertex>)
    requires ChannelsCover(am)
    ensures |vs| == |am.vertices|
    ensures forall j :: 0 <= j < |vs| ==> vs[j] == ImportedVertex(am, j).(weights := MeshWeights(am.bones, names, j))
  {
    seq(|am.vertices|, j requires 0 <= j < |am.vertices| => ImportedVertex(am, j).(weights := MeshWeights(am.bones, names, j)))
  }

  /** The state of an imported mesh: its name and material, its vertices, its faces with their
      vertices attached, and the strips built from them. */
  ghost predicate MeshImported(m: Mesh, am: A.Mesh, names: seq<string>)
    reads m, m.triangleStrips
  {
    && ChannelsCover(am) && ImportedFaces(am.faces).Success?
    && m.name == am.name && m.labels == [] && m.materialId == Some(am.materialIndex)
    && m.isVisible && m.isMeshVisible && m.isWireframeVisible
    && m.vertices == ImportedMeshVertices(am, names)
    && FacesIndexable(ImportedFaces(am.faces).value, m.vertices)
    && m.faces == AttachAll(ImportedFaces(am.faces).value, m.vertices)
    && Triangles(VertexLists(m.faces))
    && Holds(m.triangleStrips, BuildStrips(VertexLists(m.faces)))
    && Distinct(m.triangleStrips)
  }

  /** What a mesh holds, with the states of its strips, as a value: the mesh loop keeps these
      so that its facts about earlier meshes do not depend on the heap. */
  datatype MeshValue = MeshValue(
    name: string, labels: seq<string>, materialId: Option<int>,
    isVisible: bool, isMeshVisible: bool, isWireframeVisible: bool,
    vertices: seq<Vertex>, faces: seq<Faces.Face>,
    strips: seq<T.TriangleStrip>, states: seq<T.StripState>)

  /** The mesh and its strips hold the value. */
  ghost predicate Shows(m: Mesh, v: MeshValue)
    reads m, m.triangleStrips
  {
    && m.name == v.name && m.labels == v.labels && m.materialId == v.materialId
    && m.isVisible == v.isVisible && m.isMeshVisible == v.isMeshVisible
    && m.isWireframeVisible == v.isWireframeVisible
    && m.vertices == v.vertices && m.faces == v.faces && m.triangleStrips == v.strips
    && |v.states| == |v.strips|
    && forall j :: 0 <= j < |v.strips| ==>
         && v.strips[j].vertices == v.states[j].vertices && v.strips[j].vertexIds == v.states[j].vertexIds
         && !v.strips[j].isClockwise
  }

  /** MeshImported on values. */
  predicate Imported(v: MeshValue, am: A.Mesh, names: seq<string>)
  {
    && ChannelsCover(am) && ImportedFaces(am.faces).Success?
    && v.name == am.name && v.labels == [] && v.materialId == Some(am.materialIndex)
    && v.isVisible && v.isMeshVisible && v.isWireframeVisible
    && v.vertices == ImportedMeshVertices(am, names)
    && FacesIndexable(ImportedFaces(am.faces).value, v.vertices)
    && v.faces == AttachAll(ImportedFaces(am.faces).value, v.vertices)
    && Triangles(VertexLists(v.faces))
    && v.states == BuildStrips(VertexLists(v.faces))
    && Distinct(v.strips)
  }

  lemma ValueOfImported(m: Mesh, am: A.Mesh, names: seq<string>) returns (v: MeshValue)
    requires MeshImported(m, am, names)
    ensures Shows(m, v) && Imported(v, am, names)
  {
    assert AllNonEmpty(BuildStrips(VertexLists(m.faces)));
    v := MeshValue(m.name, m.labels, m.materialId, m.isVisible, m.isMeshVisible, m.isWireframeVisible,
      m.vertices, m.faces, m.triangleStrips, BuildStrips(VertexLists(m.faces)));
  }

  lemma ImportedValueShown(m: Mesh, v: MeshValue, am: A.Mesh, names: seq<string>)
    requires Shows(m, v) && Imported(v, am, names)
    ensures MeshImported(m, am, names)
  {
    assert AllNonEmpty(v.states);
    forall j | 0 <= j < |v.strips|
      ensures v.strips[j].Valid() && v.strips[j].State() == v.states[j]
    {
    }
  }

  /** The faces of an importable mesh, once imported, index its vertices. */
  lemma ImportedFacesIndexable(am: A.Mesh, vs: seq<Vertex>)
    requires MeshImportable(am) && ImportedFaces(am.faces).Success? && |vs| == |am.vertices|
    ensures FacesIndexable(ImportedFaces(am.faces).value, vs)
  {
    ImportedFacesSucceed(am.faces);
  }

  /** The body of the mesh loop. */
  method ImportMesh(am: A.Mesh, joints: seq<Joint>) returns (r: Result<Mesh, FaceError>)
    requires MeshImportable(am)
    ensures r.Failure? <==> ImportedFaces(am.faces).Failure?
    ensures r.Failure? ==> r.error == ImportedFaces(am.faces).error
    ensures r.Success? ==> fresh(r.value) && MeshImported(r.value, am, JointNames(joints))
  {
    var mesh := new Mesh();
    mesh.name := am.name;
    mesh.materialId := Some(am.materialIndex);
    var vs := ImportVertices(am);
    vs := ImportWeights(vs, am.bones, joints);
    assert vs == ImportedMeshVertices(am, JointNames(joints)) by {
      forall j | 0 <= j < |vs|
        ensures vs[j] == ImportedMeshVertices(am, JointNames(joints))[j]
      {
        assert [] + MeshWeights(am.bones, JointNames(joints), j) == MeshWeights(am.bones, JointNames(joints), j);
      }
    }
    mesh.vertices := vs;
    var faces := ImportFaces(am.faces);
    if faces.Failure? {
      return Failure(faces.error);
    }
    mesh.faces := faces.value;
    ImportedFacesIndexable(am, vs);
    mesh.BuildTriangleStrips();
    return Success(mesh);
  }

  /** The exception of the first mesh that has a face that is not a triangle, if any. */
  function FirstFaceError(ms: seq<A.Mesh>): Option<FaceError>
  {
    if |ms| == 0 then None
    else
      match FirstFaceError(ms[..|ms| - 1])
      case Some(e) => Some(e)
      case None =>
        var faces := ImportedFaces(ms[|ms| - 1].faces);
        if faces.Failure? then Some(faces.error) else None
  }

  /** Once a prefix of the meshes fails, all of them fail with that exception. */
  lemma {:induction false} FirstFaceErrorSticks(ms: seq<A.Mesh>, i: nat)
    requires i <= |ms| && FirstFaceError(ms[..i]).Some?
    decreases |ms| - i
    ensures FirstFaceError(ms) == FirstFaceError(ms[..i])
  {
    if i < |ms| {
      assert ms[..i + 1][..i] == ms[..i];
      FirstFaceErrorSticks(ms, i + 1);
    } else {
      assert ms[..i] == ms;
    }
  }

  /** The import fails exactly when some face of some mesh is not a triangle. */
  lemma {:induction false} FirstFaceErrorIff(ms: seq<A.Mesh>)
    ensures FirstFaceError(ms).None? <==>
      forall i, k :: 0 <= i < |ms| && 0 <= k < |ms[i].faces| ==> |ms[i].faces[k].indices| == 3
  {
    if |ms| > 0 {
      var init := ms[..|ms| - 1];
      FirstFaceErrorIff(init);
      ImportedFacesSucceed(ms[|ms| - 1].faces);
      assert forall i :: 0 <= i < |init| ==> init[i] == ms[i];
    }
  }

  /** No element occurs twice; stated on the last element. */
  predicate NoRepeats<X(==)>(xs: seq<X>)
    decreases |xs|
  {
    |xs| == 0 || (NoRepeats(xs[..|xs| - 1]) && xs[|xs| - 1] !in xs[..|xs| - 1])
  }

  lemma {:induction false} NoRepeatsDistinct<X>(xs: seq<X>, j: nat, k: nat)
    requires NoRepeats(xs) && j < k < |xs|
    decreases |xs|
    ensures xs[j] != xs[k]
  {
    if k < |xs| - 1 {
      NoRepeatsDistinct(xs[..|xs| - 1], j, k);
    } else {
      assert xs[j] == xs[..|xs| - 1][j];
    }
  }

  /** Each value is the import of the scene mesh at the same index. Stated on the last element,
      as the mesh loop builds the list. */
  predicate AllImported(vs: seq<MeshValue>, ms: seq<A.Mesh>, names: seq<string>)
    decreases |ms|, 1
  {
    |vs| == |ms| && (|ms| == 0 || LastImported(vs, ms, names))
  }

  /** The earlier values are imported from the earlier meshes and the last from the last. */
  predicate LastImported(vs: seq<MeshValue>, ms: seq<A.Mesh>, names: seq<string>)
    requires |vs| == |ms| > 0
    decreases |ms|, 0
  {
    AllImported(vs[..|ms| - 1], ms[..|ms| - 1], names) && Imported(vs[|ms| - 1], ms[|ms| - 1], names)
  }

  lemma AllImportedExtend(vs: seq<MeshValue>, ms: seq<A.Mesh>, names: seq<string>, v: MeshValue, am: A.Mesh)
    requires AllImported(vs, ms, names) && Imported(v, am, names)
    ensures AllImported(vs + [v], ms + [am], names)
  {
    assert (vs + [v])[..|vs|] == vs;
    assert (ms + [am])[..|ms|] == ms;
    assert LastImported(vs + [v], ms + [am], names);
  }

  lemma {:induction false} AllImportedAt(vs: seq<MeshValue>, ms: seq<A.Mesh>, names: seq<string>, i: nat)
    requires AllImported(vs, ms, names) && i < |ms|
    decreases |ms|
    ensures Imported(vs[i], ms[i], names)
  {
    assert LastImported(vs, ms, names);
    if i < |ms| - 1 {
      AllImportedAt(vs[..|ms| - 1], ms[..|ms| - 1], names, i);
    }
  }

  /** One turn of the mesh loop: the next mesh, and the value it holds. */
  method ImportNext(ms: seq<A.Mesh>, i: nat, joints: seq<Joint>, ghost values: seq<MeshValue>, ghost meshes: seq<Mesh>)
    returns (r: Result<Mesh, FaceError>, ghost v: MeshValue)
    requires i < |ms| && MeshImportable(ms[i]) && AllImported(values, ms[..i], JointNames(joints))
    requires |meshes| == |values| && forall k :: 0 <= k < |meshes| ==> Shows(meshes[k], values[k])
    ensures forall k :: 0 <= k < |meshes| ==> Shows(meshes[k], values[k])
    ensures r.Failure? <==> ImportedFaces(ms[i].faces).Failure?
    ensures r.Failure? ==> r.error == ImportedFaces(ms[i].faces).error
    ensures r.Success? ==> fresh(r.value) && Shows(r.value, v)
    ensures r.Success? ==> AllImported(values + [v], ms[..i + 1], JointNames(joints))
  {
    r := ImportMesh(ms[i], joints);
    if r.Success? {
      v := ValueOfImported(r.value, ms[i], JointNames(joints));
      assert ms[..i + 1] == ms[..i] + [ms[i]];
      AllImportedExtend(values, ms[..i], JointNames(joints), v, ms[i]);
    } else {
      v := MeshValue("", [], None, false, false, false, [], [], [], []);
    }
  }

  /** Meshes that show values imported from the scene's meshes were imported from them. */
  lemma AllShownImported(meshes: seq<Mesh>, vs: seq<MeshValue>, ms: seq<A.Mesh>, names: seq<string>)
    requires |meshes| == |ms| && AllImported(vs, ms, names)
    requires forall k :: 0 <= k < |meshes| ==> Shows(meshes[k], vs[k])
    ensures forall k :: 0 <= k < |ms| ==> MeshImported(meshes[k], ms[k], names)
  {
    forall k | 0 <= k < |ms|
      ensures MeshImported(meshes[k], ms[k], names)
    {
      AllImportedAt(vs, ms, names, k);
      ImportedValueShown(meshes[k], vs[k], ms[k], names);
    }
  }

  /** The mesh loop, up to the first exception. */
  method ImportMeshes(ms: seq<A.Mesh>, joints: seq<Joint>) returns (r: Result<seq<Mesh>, FaceError>)
    requires forall i :: 0 <= i < |ms| ==> MeshImportable(ms[i])
    ensures r.Failure? <==> FirstFaceError(ms).Some?
    ensures r.Failure? ==> r.error == FirstFaceError(ms).value
    ensures r.Success? ==> |r.value| == |ms| && NoRepeats(r.value)
    ensures r.Success? ==> forall i :: 0 <= i < |ms| ==>
      fresh(r.value[i]) && MeshImported(r.value[i], ms[i], JointNames(joints))
  {
    var meshes: seq<Mesh> := [];
    ghost var values: seq<MeshValue> := [];
    var i := 0;
    while i < |ms|
      invariant 0 <= i <= |ms| && |meshes| == i
      invariant FirstFaceError(ms[..i]).None?
      invariant AllImported(values, ms[..i], JointNames(joints))
      invariant NoRepeats(meshes)
      invariant |values| == i
      invariant forall k :: 0 <= k < i ==> fresh(meshes[k]) && Shows(meshes[k], values[k])
    {
      assert ms[..i + 1][..i] == ms[..i];
      var mesh, v := ImportNext(ms, i, joints, values, meshes);
      if mesh.Failure? {
        FirstFaceErrorSticks(ms, i + 1);
        return Failure(mesh.error);
      }
      assert (meshes + [mesh.value])[..i] == meshes;
      meshes := meshes + [mesh.value];
      values := values + [v];
      i := i + 1;
    }
    assert ms[..i] == ms;
    AllShownImported(meshes, values, ms, JointNames(joints));
    return Success(meshes);
  }

  /** What the importer needs of a scene besides the file: every mesh importable. */
  predicate SceneImportable(scene: A.Scene)
  {
    forall i :: 0 <= i < |scene.meshes| ==> MeshImportable(scene.meshes[i])
  }

  /** ImportScene on the scene Assimp has read from a file in `directory`. */
  method ImportScene(scene: A.Scene, directory: string) returns (r: Result<Model, FaceError>)
    requires SceneImportable(scene)
    ensures r.Failure? <==> FirstFaceError(scene.meshes).Some?
    ensures r.Failure? ==> r.error == FirstFaceError(scene.meshes).value
    ensures r.Success? ==> var model := r.value;
      && fresh(model) && model.name == "" && model.labels == [] && model.isVisible
      && |model.joints| == |SceneJoints(scene)|
      && (forall i :: 0 <= i < |model.joints| ==> model.joints[i] == Calculated(SceneJoints(scene), i))
      && model.materials == ImportedMaterials(scene.materials, directory)
      && |model.meshes| == |scene.meshes| && NoRepeats(model.meshes)
      && forall i :: 0 <= i < |scene.meshes| ==>
           fresh(model.meshes[i]) && MeshImported(model.meshes[i], scene.meshes[i], JointNames(SceneJoints(scene)))
  {
    var nodes := U.GetNodeList(scene);
    ListedNodesExist(scene.rootNode);
    var joints := ImportJoints(scene.rootNode, nodes);
    assert joints == SceneJoints(scene);
    var model := new Model();
    model.joints := joints;
    model.CalculateJointAbsoluteMatrices();
    var materials := ImportMaterials(scene.materials, directory);
    model.materials := materials;
    assert JointNames(model.joints) == JointNames(SceneJoints(scene));
    var meshes := ImportMeshes(scene.meshes, model.joints);
    if meshes.Failure? {
      return Failure(meshes.error);
    }
    model.meshes := meshes.value;
    return Success(model);
  }
}
