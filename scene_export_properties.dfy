/** What the two ExportScene overloads build around the meshes: where each joint's node hangs,
    and how the models of a list are laid out, each under a node of its own, with their
    materials and meshes appended in order and their indices shifted accordingly. */
module SceneExportProperties {
  import opened Wrappers
  import opened Joints
  import Materials
  import A = AssimpScenes
  import U = AssimpUtils
  import opened Exporter
  import opened ExportProperties

  // ---------------------------------------------------------------------------------------
  // The skeleton of a single model.
  // ---------------------------------------------------------------------------------------

  /** Joint k's node, with the joint's name and matrix, becomes the last child of the root
      when the joint's parent id is null or -1, and otherwise of the first node, in FindNode's
      order, named after its parent joint in the tree the earlier joints have built. */
  lemma JointHangsUnderParent(root: A.Node, js: seq<Joint>, k: nat) returns (t: A.Node, parent: seq<nat>)
    requires Attachable(js) && k < |js|
    ensures AttachJoints(root, js, k) == Success(t) && A.NodeAt(t, parent).Some?
    ensures Orphan(js[k]) ==> parent == []
    ensures !Orphan(js[k]) ==> A.FindNode(t, js[js[k].parentId.value].name) == Some(parent)
    ensures AttachJoints(root, js, k + 1).Success?
    ensures A.NodeAt(AttachJoints(root, js, k + 1).value, parent + [|A.NodeAt(t, parent).value.children|])
         == Some(JointNode(js[k]))
  {
    AttachableJointsAttach(root, js, k);
    t := AttachJoints(root, js, k).value;
    parent := JointParentPath(root, js, k);
    A.AddChildPlaces(t, parent, JointNode(js[k]));
  }

  // ---------------------------------------------------------------------------------------
  // One model of a list.
  // ---------------------------------------------------------------------------------------

  /** The mode model md is exported in, after the materials already in the scene. */
  function ModeAfter(scene: A.Scene, md: ModelData): Mode
  {
    Prefixed(md.name, |scene.materials|)
  }

  /** Adding a model succeeds exactly when each of its meshes exports. */
  lemma AddModelSucceeds(scene: A.Scene, md: ModelData)
    ensures AddModel(scene, md).Success? <==>
      forall i :: 0 <= i < |md.meshes| ==> ExportedMesh(md.meshes[i], ModeAfter(scene, md)).Success?
  {
    MeshesExportEach(md.meshes, ModeAfter(scene, md));
  }

  /** After a model is added, the root keeps its name, transform, meshes and children and
      gains a last child named after the model, with one node per mesh, named after the mesh
      and prefixed with the model's name, that points at the mesh's place in the scene. */
  lemma AddModelRoot(scene: A.Scene, md: ModelData)
    requires AddModel(scene, md).Success?
    ensures var r := AddModel(scene, md).value.rootNode;
      && r.name == scene.rootNode.name && r.transform == scene.rootNode.transform
      && r.meshIndices == scene.rootNode.meshIndices
      && |r.children| == |scene.rootNode.children| + 1
      && r.children[..|scene.rootNode.children|] == scene.rootNode.children
    ensures var g := AddModel(scene, md).value.rootNode.children[|scene.rootNode.children|];
      && g.name == md.name && |g.children| == |md.meshes|
      && forall i :: 0 <= i < |md.meshes| ==>
           g.children[i].name == md.name + "." + md.meshes[i].name && g.children[i].meshIndices == [|scene.meshes| + i]
  {
  }

  /** The scene's materials, then the model's, exported in the model's mode: their names carry
      the model's prefix. */
  lemma AddModelMaterials(scene: A.Scene, md: ModelData)
    requires AddModel(scene, md).Success?
    ensures var ms := AddModel(scene, md).value.materials;
      |ms| == |scene.materials| + |md.materials| && ms[..|scene.materials|] == scene.materials
    ensures var ms := AddModel(scene, md).value.materials;
      forall k :: 0 <= k < |md.materials| ==>
        && ms[|scene.materials| + k] == ExportedMaterial(md.materials[k], ModeAfter(scene, md))
        && ms[|scene.materials| + k].name == md.name + "." + md.materials[k].name
  {
  }

  /** The scene's meshes, then the model's, each exported in the model's mode. */
  lemma AddModelMeshList(scene: A.Scene, md: ModelData)
    requires AddModel(scene, md).Success?
    ensures var ms := AddModel(scene, md).value.meshes;
      |ms| == |scene.meshes| + |md.meshes| && ms[..|scene.meshes|] == scene.meshes
    ensures var ms := AddModel(scene, md).value.meshes;
      forall i :: 0 <= i < |md.meshes| ==>
        ExportedMesh(md.meshes[i], ModeAfter(scene, md)).Success?
        && ms[|scene.meshes| + i] == ExportedMesh(md.meshes[i], ModeAfter(scene, md)).value
  {
    MeshesExportEach(md.meshes, ModeAfter(scene, md));
  }

  /** Each mesh of an added model has no bones, its model's prefix on its name, and a material
      index shifted past the scene's materials. */
  lemma AddModelMeshes(scene: A.Scene, md: ModelData, i: nat)
    requires AddModel(scene, md).Success? && i < |md.meshes|
    ensures var s, c := AddModel(scene, md).value, |scene.meshes|;
      && c + i < |s.meshes|
      && var m := s.meshes[c + i];
      && m.bones == [] && m.name == md.name + "." + md.meshes[i].name
      && md.meshes[i].materialId.Some?
      && m.materialIndex == |scene.materials| + md.meshes[i].materialId.value
  {
    AddModelMeshList(scene, md);
    PrefixedMeshHeader(md.meshes[i], ModeAfter(scene, md));
  }

  /** The shifted material index of a mesh of an added model names the model's own material,
      as exported, when the mesh's material id is one of the model's. */
  lemma AddModelMeshMaterial(scene: A.Scene, md: ModelData, i: nat)
    requires AddModel(scene, md).Success? && i < |md.meshes|
    ensures md.meshes[i].materialId.Some?
    ensures var s, id := AddModel(scene, md).value, md.meshes[i].materialId.value;
      0 <= id < |md.materials| ==>
        && 0 <= |scene.materials| + id < |s.materials|
        && s.materials[|scene.materials| + id] == ExportedMaterial(md.materials[id], ModeAfter(scene, md))
  {
    AddModelMeshes(scene, md, i);
    AddModelMaterials(scene, md);
  }

  /** A mesh exported with a prefix: no bones, the prefixed name, and its material id
      shifted by the mode's base. */
  lemma PrefixedMeshHeader(d: MeshData, mode: Mode)
    requires mode.Prefixed? && ExportedMesh(d, mode).Success?
    ensures var m := ExportedMesh(d, mode).value;
      && m.bones == [] && m.name == mode.prefix + "." + d.name
      && d.materialId.Some? && m.materialIndex == mode.materialBase + d.materialId.value
  {
    ExportedMeshContents(d, mode);
  }

  // ---------------------------------------------------------------------------------------
  // The whole list.
  // ---------------------------------------------------------------------------------------

  /** The number of materials of the first k models. */
  function MaterialsBefore(mds: seq<ModelData>, k: nat): nat
    requires k <= |mds|
  {
    if k == 0 then 0 else MaterialsBefore(mds, k - 1) + |mds[k - 1].materials|
  }

  /** The number of meshes of the first k models. */
  function MeshesBefore(mds: seq<ModelData>, k: nat): nat
    requires k <= |mds|
  {
    if k == 0 then 0 else MeshesBefore(mds, k - 1) + |mds[k - 1].meshes|
  }

  /** The mode model k of the list is exported in. */
  function ModeOf(mds: seq<ModelData>, k: nat): Mode
    requires k < |mds|
  {
    Prefixed(mds[k].name, MaterialsBefore(mds, k))
  }

  /** The materials of model k follow those of the models before it. */
  predicate MaterialsPlaced(s: A.Scene, mds: seq<ModelData>, k: nat)
    requires k < |mds|
  {
    MaterialsFrom(s, mds[k].materials, MaterialsBefore(mds, k), ModeOf(mds, k))
  }

  /** The materials of the scene from index b on are ms, exported in the mode. */
  predicate MaterialsFrom(s: A.Scene, ms: seq<Materials.Material>, b: nat, mode: Mode)
  {
    && b + |ms| <= |s.materials|
    && forall j :: 0 <= j < |ms| ==> s.materials[b + j] == ExportedMaterial(ms[j], mode)
  }

  /** The meshes of model k follow those of the models before it. */
  predicate MeshesPlaced(s: A.Scene, mds: seq<ModelData>, k: nat)
    requires k < |mds|
  {
    MeshesFrom(s, mds[k].meshes, MeshesBefore(mds, k), ModeOf(mds, k))
  }

  /** The meshes of the scene from index c on are the exports of ds in the mode. */
  predicate MeshesFrom(s: A.Scene, ds: seq<MeshData>, c: nat, mode: Mode)
  {
    && c + |ds| <= |s.meshes|
    && forall i :: 0 <= i < |ds| ==>
         ExportedMesh(ds[i], mode).Success? && s.meshes[c + i] == ExportedMesh(ds[i], mode).value
  }

  /** Child k of the root is named after model k and has a node per mesh, named after the
      mesh with the model's prefix and pointing at the mesh. */
  predicate NodePlaced(s: A.Scene, mds: seq<ModelData>, k: nat)
    requires k < |mds|
  {
    && k < |s.rootNode.children|
    && var g, md := s.rootNode.children[k], mds[k];
    && g.name == md.name && |g.children| == |md.meshes|
    && forall i :: 0 <= i < |md.meshes| ==>
         g.children[i].name == md.name + "." + md.meshes[i].name
         && g.children[i].meshIndices == [MeshesBefore(mds, k) + i]
  }

  /** Model k of the list sits in the scene: a node named after it as child k of the root,
      its materials and meshes after those of the models before it, and one node per mesh
      pointing at the mesh. */
  predicate ModelPlaced(s: A.Scene, mds: seq<ModelData>, k: nat)
    requires k < |mds|
  {
    MaterialsPlaced(s, mds, k) && MeshesPlaced(s, mds, k) && NodePlaced(s, mds, k)
  }

  /** Every mesh of the first n models exports in a list export. */
  predicate ListExportable(mds: seq<ModelData>, n: nat)
    requires n <= |mds|
  {
    forall k, i :: 0 <= k < n && 0 <= i < |mds[k].meshes| ==> MeshExportable(mds[k].meshes[i], Prefixed(mds[k].name, 0))
  }

  /** The placement of a model survives the addition of the next one. */
  lemma {:induction false} ModelStaysPlaced(s: A.Scene, mds: seq<ModelData>, n: nat, k: nat)
    requires k < n < |mds| && AddModel(s, mds[n]).Success?
    requires |s.materials| == MaterialsBefore(mds, n) && |s.meshes| == MeshesBefore(mds, n)
    requires MaterialsBefore(mds, k + 1) <= MaterialsBefore(mds, n) && MeshesBefore(mds, k + 1) <= MeshesBefore(mds, n)
    requires ModelPlaced(s, mds, k)
    ensures ModelPlaced(AddModel(s, mds[n]).value, mds, k)
  {
    var t := AddModel(s, mds[n]).value;
    AddModelMaterials(s, mds[n]);
    forall p | 0 <= p < |s.materials|
      ensures t.materials[p] == s.materials[p]
    {
      assert t.materials[..|s.materials|][p] == t.materials[p];
    }
    assert MaterialsPlaced(t, mds, k);
    AddModelMeshList(s, mds[n]);
    forall p | 0 <= p < |s.meshes|
      ensures t.meshes[p] == s.meshes[p]
    {
      assert t.meshes[..|s.meshes|][p] == t.meshes[p];
    }
    assert MeshesPlaced(t, mds, k);
    AddModelRoot(s, mds[n]);
    assert t.rootNode.children[..|s.rootNode.children|][k] == t.rootNode.children[k];
  }

  lemma {:induction false} BeforeGrows(mds: seq<ModelData>, k: nat, n: nat)
    requires k <= n <= |mds|
    decreases n
    ensures MaterialsBefore(mds, k) <= MaterialsBefore(mds, n) && MeshesBefore(mds, k) <= MeshesBefore(mds, n)
  {
    if k < n {
      BeforeGrows(mds, k, n - 1);
    }
  }

  /** The model after the first n in a scene laid out for those n is placed. */
  lemma {:induction false} NewModelPlaced(s: A.Scene, mds: seq<ModelData>, n: nat)
    requires n < |mds| && AddModel(s, mds[n]).Success?
    requires |s.materials| == MaterialsBefore(mds, n) && |s.meshes| == MeshesBefore(mds, n)
    requires |s.rootNode.children| == n
    ensures ModelPlaced(AddModel(s, mds[n]).value, mds, n)
  {
    assert ModeAfter(s, mds[n]) == ModeOf(mds, n);
    NewMaterialsPlaced(s, mds, n);
    NewMeshesPlaced(s, mds, n);
    NewNodePlaced(s, mds, n);
  }

  lemma {:induction false} NewNodePlaced(s: A.Scene, mds: seq<ModelData>, n: nat)
    requires n < |mds| && AddModel(s, mds[n]).Success?
    requires |s.meshes| == MeshesBefore(mds, n) && |s.rootNode.children| == n
    ensures NodePlaced(AddModel(s, mds[n]).value, mds, n)
  {
    AddModelRoot(s, mds[n]);
  }

  lemma {:induction false} NewMaterialsPlaced(s: A.Scene, mds: seq<ModelData>, n: nat)
    requires n < |mds| && AddModel(s, mds[n]).Success? && |s.materials| == MaterialsBefore(mds, n)
    ensures MaterialsPlaced(AddModel(s, mds[n]).value, mds, n)
  {
    AddModelMaterials(s, mds[n]);
    assert MaterialsFrom(AddModel(s, mds[n]).value, mds[n].materials, |s.materials|, ModeAfter(s, mds[n]));
    assert ModeAfter(s, mds[n]) == ModeOf(mds, n);
  }

  lemma {:induction false} NewMeshesPlaced(s: A.Scene, mds: seq<ModelData>, n: nat)
    requires n < |mds| && AddModel(s, mds[n]).Success?
    requires |s.materials| == MaterialsBefore(mds, n) && |s.meshes| == MeshesBefore(mds, n)
    ensures MeshesPlaced(AddModel(s, mds[n]).value, mds, n)
  {
    AddModelMeshList(s, mds[n]);
    assert MeshesFrom(AddModel(s, mds[n]).value, mds[n].meshes, |s.meshes|, ModeAfter(s, mds[n]));
    assert ModeAfter(s, mds[n]) == ModeOf(mds, n);
  }

  /** The scene holds the first n models of the list, as the list export lays them out: the
      base scene's root with one node per model, each model placed after the ones before it,
      and no mesh with bones. */
  predicate LaidOut(s: A.Scene, mds: seq<ModelData>, n: nat)
    requires n <= |mds|
  {
    && s.rootNode.name == U.RootNodeName && |s.rootNode.children| == n
    && |s.materials| == MaterialsBefore(mds, n) && |s.meshes| == MeshesBefore(mds, n)
    && (forall k :: 0 <= k < n ==> ModelPlaced(s, mds, k))
    && forall m :: 0 <= m < |s.meshes| ==> s.meshes[m].bones == []
  }

  /** Adding model n to a scene laid out for the first n lays it out for n + 1. */
  lemma {:induction false} AddedModelsStep(s: A.Scene, mds: seq<ModelData>, n: nat)
    requires n < |mds| && LaidOut(s, mds, n) && AddModel(s, mds[n]).Success?
    ensures LaidOut(AddModel(s, mds[n]).value, mds, n + 1)
  {
    var md := mds[n];
    AddModelRoot(s, md);
    AddModelMeshList(s, md);
    var t := AddModel(s, md).value;
    forall k | 0 <= k < n
      ensures ModelPlaced(t, mds, k)
    {
      BeforeGrows(mds, k + 1, n);
      ModelStaysPlaced(s, mds, n, k);
    }
    NewModelPlaced(s, mds, n);
    forall m | 0 <= m < |t.meshes|
      ensures t.meshes[m].bones == []
    {
      if m < |s.meshes| {
        assert t.meshes[m] == t.meshes[..|s.meshes|][m];
      } else {
        AddModelMeshes(s, md, m - |s.meshes|);
      }
    }
  }

  /** A list export whose meshes all export succeeds and lays the models out. */
  lemma {:induction false} AddedModels(mds: seq<ModelData>, n: nat)
    requires n <= |mds| && ListExportable(mds, n)
    ensures AddModels(mds, n).Success? && LaidOut(AddModels(mds, n).value, mds, n)
  {
    if n > 0 {
      AddedModels(mds, n - 1);
      var s := AddModels(mds, n - 1).value;
      var md := mds[n - 1];
      assert AddModels(mds, n) == AddModelsThenLast(mds, n);
      forall i | 0 <= i < |md.meshes|
        ensures ExportedMesh(md.meshes[i], ModeAfter(s, md)).Success?
      {
        ExportedMeshSucceeds(md.meshes[i], ModeAfter(s, md));
        ExportedMeshSucceeds(md.meshes[i], Prefixed(md.name, 0));
      }
      AddModelSucceeds(s, md);
      AddedModelsStep(s, mds, n - 1);
    }
  }
}
