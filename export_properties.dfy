/** What an exported mesh holds, when a mesh exports, and what an import followed by an export
    gives back of the Assimp mesh and materials the importer read. */
module ExportProperties {
  import opened Wrappers
  import Numerics
  import opened WeightPositions
  import opened Vertices
  import Faces
  import opened Joints
  import Materials
  import A = AssimpScenes
  import U = AssimpUtils
  import Paths
  import Im = Importer
  import opened Exporter

  // ---------------------------------------------------------------------------------------
  // The bone weights.
  // ---------------------------------------------------------------------------------------

  /** The stored weight w is bound to joint j and is written as x. */
  predicate Binds(w: WeightPosition, j: nat, x: real)
  {
    w.jointIndex == Some(j) && w.weight.Some? && x == EmittedWeight(w.weight.value)
  }

  /** A vertex's weights give bone j exactly its weights bound to j, tagged with the vertex. */
  lemma {:induction false} WeightsToIff(ws: seq<WeightPosition>, k: nat, j: nat, e: A.VertexWeight)
    ensures e in WeightsTo(ws, k, j) <==> e.vertexId == k && exists i :: 0 <= i < |ws| && Binds(ws[i], j, e.weight)
  {
    if |ws| > 0 {
      var init := ws[..|ws| - 1];
      WeightsToIff(init, k, j, e);
      assert forall i :: 0 <= i < |init| ==> init[i] == ws[i];
    }
  }

  /** Bone j holds the entry (k, x) exactly when vertex k has a weight bound to j that is
      written as x: every weight goes to the bone at its joint index, and nothing else does. */
  lemma {:induction false} BoneWeightsIff(vs: seq<Vertex>, j: nat, e: A.VertexWeight)
    ensures e in BoneWeights(vs, j) <==>
      0 <= e.vertexId < |vs| && exists i :: 0 <= i < |vs[e.vertexId].weights| && Binds(vs[e.vertexId].weights[i], j, e.weight)
  {
    if |vs| > 0 {
      var n := |vs| - 1;
      var init := vs[..n];
      BoneWeightsIff(init, j, e);
      WeightsToIff(vs[n].weights, n, j, e);
      if 0 <= e.vertexId < n {
        assert init[e.vertexId] == vs[e.vertexId];
      }
    }
  }

  /** The entries are ordered by vertex. */
  predicate ByVertex(ws: seq<A.VertexWeight>)
  {
    forall a, b :: 0 <= a < b < |ws| ==> ws[a].vertexId <= ws[b].vertexId
  }

  lemma {:induction false} WeightsToTagged(ws: seq<WeightPosition>, k: nat, j: nat)
    ensures forall e :: e in WeightsTo(ws, k, j) ==> e.vertexId == k
  {
    forall e | e in WeightsTo(ws, k, j)
      ensures e.vertexId == k
    {
      WeightsToIff(ws, k, j, e);
    }
  }

  /** A bone's weights come vertex by vertex, in vertex order. */
  lemma {:induction false} BoneWeightsByVertex(vs: seq<Vertex>, j: nat)
    ensures ByVertex(BoneWeights(vs, j))
    ensures forall e :: e in BoneWeights(vs, j) ==> e.vertexId < |vs|
  {
    if |vs| > 0 {
      var n := |vs| - 1;
      var head := BoneWeights(vs[..n], j);
      var tail := WeightsTo(vs[n].weights, n, j);
      BoneWeightsByVertex(vs[..n], j);
      WeightsToTagged(vs[n].weights, n, j);
      var all := head + tail;
      forall a, b | 0 <= a < b < |all|
        ensures all[a].vertexId <= all[b].vertexId
      {
        if b < |head| {
          assert all[a] == head[a] && all[b] == head[b];
        } else if a < |head| {
          assert all[a] in head && all[b] in tail;
        } else {
          assert all[a] in tail && all[b] in tail;
        }
      }
      forall e | e in all
        ensures e.vertexId < |vs|
      {
        if e in head {
        } else {
          assert e in tail;
        }
      }
    }
  }

  // ---------------------------------------------------------------------------------------
  // When a mesh exports.
  // ---------------------------------------------------------------------------------------

  lemma {:induction false} WeightsErrorNoneIff(ws: seq<WeightPosition>, n: nat)
    ensures WeightsError(ws, n).None? <==> forall i :: 0 <= i < |ws| ==> WeightError(ws[i], n).None?
  {
    if |ws| > 0 {
      var init := ws[..|ws| - 1];
      WeightsErrorNoneIff(init, n);
      assert forall i :: 0 <= i < |init| ==> init[i] == ws[i];
    }
  }

  lemma {:induction false} VerticesErrorNoneIff(vs: seq<Vertex>, bones: Option<nat>)
    ensures VerticesError(vs, bones).None? <==> forall k :: 0 <= k < |vs| ==> VertexError(vs[k], bones).None?
  {
    if |vs| > 0 {
      var init := vs[..|vs| - 1];
      VerticesErrorNoneIff(init, bones);
      assert forall k :: 0 <= k < |init| ==> init[k] == vs[k];
    }
  }

  /** A weight the skeletal export reads without an exception. */
  predicate WeightReadable(w: WeightPosition, boneCount: nat)
  {
    w.jointIndex.Some? && 0 <= w.jointIndex.value < boneCount && w.weight.Some?
  }

  /** What a mesh needs in order to export: a material id, a position and a UV on every
      vertex, readable weights when the export is skeletal, and three indices in every face. */
  predicate MeshExportable(d: MeshData, mode: Mode)
  {
    && d.materialId.Some?
    && Placed(d.vertices)
    && (mode.Skeletal? ==>
          forall k, i :: 0 <= k < |d.vertices| && 0 <= i < |d.vertices[k].weights| ==>
            WeightReadable(d.vertices[k].weights[i], |mode.joints|))
    && FacesComplete(d.faces)
  }

  /** The vertex loop runs through exactly when each vertex has a position and a UV and, in a
      skeletal export, each of its weights is readable. */
  lemma VerticesExportable(d: MeshData, mode: Mode)
    requires d.materialId.Some?
    ensures VerticesExport(MeshStart(d, mode), d.vertices, mode.Skeletal?).Success? <==>
      && Placed(d.vertices)
      && (mode.Skeletal? ==>
            forall k, i :: 0 <= k < |d.vertices| && 0 <= i < |d.vertices[k].weights| ==>
              WeightReadable(d.vertices[k].weights[i], |mode.joints|))
  {
    var vs := d.vertices;
    var bones := BoneCount(mode);
    VerticesErrorNoneIff(vs, bones);
    forall k | 0 <= k < |vs| && bones.Some?
      ensures WeightsError(vs[k].weights, bones.value).None? <==>
        forall i :: 0 <= i < |vs[k].weights| ==> WeightReadable(vs[k].weights[i], bones.value)
    {
      WeightsErrorNoneIff(vs[k].weights, bones.value);
    }
  }

  /** A mesh exports exactly when it is exportable. */
  lemma ExportedMeshSucceeds(d: MeshData, mode: Mode)
    ensures ExportedMesh(d, mode).Success? <==> MeshExportable(d, mode)
  {
    if d.materialId.Some? {
      VerticesExportable(d, mode);
    }
  }

  // ---------------------------------------------------------------------------------------
  // What an exported mesh holds.
  // ---------------------------------------------------------------------------------------

  /** The colour channel has one entry per vertex with a colour, in vertex order: one per
      vertex when they all have one, none when none has. */
  lemma {:induction false} ColorsOfVertices(vs: seq<Vertex>)
    ensures |Colors(vs)| <= |vs|
    ensures (forall k :: 0 <= k < |vs| ==> vs[k].color.Some?) ==>
      |Colors(vs)| == |vs| && forall k :: 0 <= k < |vs| ==> Colors(vs)[k] == U.ToAssimpColor(vs[k].color.value)
    ensures (forall k :: 0 <= k < |vs| ==> vs[k].color.None?) ==> Colors(vs) == []
  {
    if |vs| > 0 {
      var init := vs[..|vs| - 1];
      ColorsOfVertices(init);
      assert forall k :: 0 <= k < |init| ==> init[k] == vs[k];
    }
  }

  /** The same for the normals. */
  lemma {:induction false} NormalsOfVertices(vs: seq<Vertex>)
    ensures |Normals(vs)| <= |vs|
    ensures (forall k :: 0 <= k < |vs| ==> vs[k].normal.Some?) ==>
      |Normals(vs)| == |vs| && forall k :: 0 <= k < |vs| ==> Normals(vs)[k] == U.ToAssimpVector(vs[k].normal.value)
    ensures (forall k :: 0 <= k < |vs| ==> vs[k].normal.None?) ==> Normals(vs) == []
  {
    if |vs| > 0 {
      var init := vs[..|vs| - 1];
      NormalsOfVertices(init);
      assert forall k :: 0 <= k < |init| ==> init[k] == vs[k];
    }
  }

  /** An exported mesh: the qualified name, two UV components, the material index shifted by
      the mode's base, a position and a UV per vertex, the colours and normals of the vertices
      that have them, one triangle per face, and one bone per joint holding that joint's
      weights in a skeletal export, no bones otherwise. */
  lemma ExportedMeshContents(d: MeshData, mode: Mode)
    requires ExportedMesh(d, mode).Success?
    ensures MeshExportable(d, mode)
    ensures var m := ExportedMesh(d, mode).value;
      && m.name == Qualified(mode, d.name) && m.uvComponentCount == 2
      && m.materialIndex == (if mode.Skeletal? then 0 else mode.materialBase) + d.materialId.value
      && |m.vertices| == |d.vertices| && |m.textureCoordinates| == |d.vertices|
      && (forall k :: 0 <= k < |d.vertices| ==>
            && m.vertices[k] == U.ToAssimpVector(d.vertices[k].absolutePosition.value)
            && m.textureCoordinates[k] == UV(d.vertices[k].textureCoordinates.value))
      && m.vertexColors == Colors(d.vertices) && m.normals == Normals(d.vertices)
      && |m.faces| == |d.faces|
      && (forall k :: 0 <= k < |d.faces| ==> m.faces[k].indices == Triangle(d.faces[k], mode.Prefixed?))
      && (mode.Prefixed? ==> m.bones == [])
      && (mode.Skeletal? ==>
            |m.bones| == |mode.joints| &&
            forall j :: 0 <= j < |mode.joints| ==> m.bones[j] == A.Bone(mode.joints[j].name, BoneWeights(d.vertices, j)))
  {
    ExportedMeshSucceeds(d, mode);
  }

  // ---------------------------------------------------------------------------------------
  // Import, then export.
  // ---------------------------------------------------------------------------------------

  /** The faces hold the scene faces' indices (the importer also gives them vertices, which
      the exporter does not read). */
  predicate SameIndices(fs: seq<Faces.Face>, afs: seq<A.Face>)
  {
    |fs| == |afs| && forall k :: 0 <= k < |fs| ==> fs[k].vertexIndices == afs[k].indices
  }

  /** What the exporter reads of the mesh the importer made from am for the joints js. */
  function Reimported(am: A.Mesh, js: seq<Joint>, fs: seq<Faces.Face>): MeshData
    requires Im.ChannelsCover(am)
  {
    MeshData(am.name, Some(am.materialIndex), Im.ImportedMeshVertices(am, Im.JointNames(js)), fs)
  }

  /** Every bone that weighs some vertex is named after one of the joints. */
  predicate BonesMatched(bones: seq<A.Bone>, names: seq<string>)
  {
    forall b :: 0 <= b < |bones| && |bones[b].vertexWeights| > 0 ==> bones[b].name in names
  }

  /** Entry i of bone b weighs vertex k, and x is the weight the importer stores for it. */
  predicate Carries(bones: seq<A.Bone>, names: seq<string>, k: int, x: WeightPosition, b: int, i: int)
  {
    && 0 <= b < |bones| && 0 <= i < |bones[b].vertexWeights| && bones[b].vertexWeights[i].vertexId == k
    && x == WeightPosition(Some(Im.IndexOf(names, bones[b].name)), None, Some(bones[b].vertexWeights[i].weight))
  }

  /** The weights the importer gives vertex k are those of the bones' entries on k. */
  lemma ImportedWeightIff(bones: seq<A.Bone>, names: seq<string>, k: int, x: WeightPosition)
    ensures x in Im.MeshWeights(bones, names, k) <==> exists b, i :: Carries(bones, names, k, x, b, i)
  {
    Im.MeshWeightsIff(bones, names, k, x);
    if x in Im.MeshWeights(bones, names, k) {
      var b :| 0 <= b < |bones| && Im.FromBone(bones, b, names, k, x);
      var ws := bones[b].vertexWeights;
      Im.BoneWeightsIff(ws, Im.IndexOf(names, bones[b].name), k, x);
      var i :| 0 <= i < |ws| && ws[i].vertexId == k && x == WeightPosition(Some(Im.IndexOf(names, bones[b].name)), None, Some(ws[i].weight));
      assert Carries(bones, names, k, x, b, i);
    }
    if exists b, i :: Carries(bones, names, k, x, b, i) {
      var b, i :| Carries(bones, names, k, x, b, i);
      Im.BoneWeightsIff(bones[b].vertexWeights, Im.IndexOf(names, bones[b].name), k, x);
      assert Im.FromBone(bones, b, names, k, x);
    }
  }

  /** A mesh read by the importer exports again, skeletally with the imported joints, when
      its vertices have UVs and each of its weighing bones is named after a joint. */
  lemma ReimportedExportable(am: A.Mesh, js: seq<Joint>, fs: seq<Faces.Face>)
    requires RoundTrippable(am, js, fs)
    ensures MeshExportable(Reimported(am, js, fs), Skeletal(js))
  {
    var names := Im.JointNames(js);
    var vs := Im.ImportedMeshVertices(am, names);
    forall k, t | 0 <= k < |vs| && 0 <= t < |vs[k].weights|
      ensures WeightReadable(vs[k].weights[t], |js|)
    {
      var x := vs[k].weights[t];
      ImportedWeightIff(am.bones, names, k, x);
      var b, i :| Carries(am.bones, names, k, x, b, i);
    }
  }

  /** What the round trip lemmas assume of a mesh the importer read: channels it could read,
      a UV on every vertex, weighing bones named after joints, and triangles with the scene's
      indices. */
  predicate RoundTrippable(am: A.Mesh, js: seq<Joint>, fs: seq<Faces.Face>)
  {
    && Im.ChannelsCover(am) && (|am.vertices| > 0 ==> |am.textureCoordinates| > 0)
    && BonesMatched(am.bones, Im.JointNames(js))
    && SameIndices(fs, am.faces) && forall k :: 0 <= k < |am.faces| ==> |am.faces[k].indices| == 3
  }

  /** The positions come back, and the UVs with the third component zeroed. */
  lemma RoundTripPositions(am: A.Mesh, js: seq<Joint>, fs: seq<Faces.Face>)
    requires RoundTrippable(am, js, fs)
    ensures ExportedMesh(Reimported(am, js, fs), Skeletal(js)).Success?
    ensures var m := ExportedMesh(Reimported(am, js, fs), Skeletal(js)).value;
      && m.vertices == am.vertices
      && |m.textureCoordinates| == |am.vertices|
      && forall k :: 0 <= k < |am.vertices| ==> m.textureCoordinates[k] == am.textureCoordinates[k].(z := 0.0)
  {
    var d := Reimported(am, js, fs);
    ReimportedExportable(am, js, fs);
    ExportedMeshSucceeds(d, Skeletal(js));
    ExportedMeshContents(d, Skeletal(js));
  }

  /** The imported vertices carry the colour channel's first entries, one per vertex, or no
      colour when the channel is empty. */
  lemma ImportedColors(am: A.Mesh, names: seq<string>)
    requires Im.ChannelsCover(am)
    ensures Colors(Im.ImportedMeshVertices(am, names)) == (if |am.vertexColors| > 0 then am.vertexColors[..|am.vertices|] else [])
  {
    var vs := Im.ImportedMeshVertices(am, names);
    ColorsOfVertices(vs);
    if |am.vertexColors| > 0 {
      assert forall k :: 0 <= k < |vs| ==> vs[k].color.Some?;
      forall k | 0 <= k < |vs|
        ensures Colors(vs)[k] == am.vertexColors[k]
      {
        U.VectorRoundTrips(Numerics.Vector3(0.0, 0.0, 0.0), A.Vector3D(0.0, 0.0, 0.0), Numerics.Vector4(0.0, 0.0, 0.0, 0.0), am.vertexColors[k]);
      }
    } else {
      assert forall k :: 0 <= k < |vs| ==> vs[k].color.None?;
    }
  }

  /** The same for the normals. */
  lemma ImportedNormals(am: A.Mesh, names: seq<string>)
    requires Im.ChannelsCover(am)
    ensures Normals(Im.ImportedMeshVertices(am, names)) == (if |am.normals| > 0 then am.normals[..|am.vertices|] else [])
  {
    var vs := Im.ImportedMeshVertices(am, names);
    NormalsOfVertices(vs);
    if |am.normals| > 0 {
      assert forall k :: 0 <= k < |vs| ==> vs[k].normal.Some?;
      forall k | 0 <= k < |vs|
        ensures Normals(vs)[k] == am.normals[k]
      {
        U.VectorRoundTrips(Numerics.Vector3(0.0, 0.0, 0.0), am.normals[k], Numerics.Vector4(0.0, 0.0, 0.0, 0.0), A.Color4D(0.0, 0.0, 0.0, 0.0));
      }
    } else {
      assert forall k :: 0 <= k < |vs| ==> vs[k].normal.None?;
    }
  }

  /** The colours and normals come back, as many as there are vertices. */
  lemma RoundTripColors(am: A.Mesh, js: seq<Joint>, fs: seq<Faces.Face>)
    requires RoundTrippable(am, js, fs)
    ensures ExportedMesh(Reimported(am, js, fs), Skeletal(js)).Success?
    ensures var m := ExportedMesh(Reimported(am, js, fs), Skeletal(js)).value;
      && m.vertexColors == (if |am.vertexColors| > 0 then am.vertexColors[..|am.vertices|] else [])
      && m.normals == (if |am.normals| > 0 then am.normals[..|am.vertices|] else [])
  {
    var d := Reimported(am, js, fs);
    ReimportedExportable(am, js, fs);
    ExportedMeshSucceeds(d, Skeletal(js));
    ExportedMeshContents(d, Skeletal(js));
    ImportedColors(am, Im.JointNames(js));
    ImportedNormals(am, Im.JointNames(js));
  }

  /** The name, the material index and the faces come back, and there is a bone per joint,
      named after it. */
  lemma RoundTripFaces(am: A.Mesh, js: seq<Joint>, fs: seq<Faces.Face>)
    requires RoundTrippable(am, js, fs)
    ensures ExportedMesh(Reimported(am, js, fs), Skeletal(js)).Success?
    ensures var m := ExportedMesh(Reimported(am, js, fs), Skeletal(js)).value;
      && m.name == am.name && m.materialIndex == am.materialIndex && m.faces == am.faces
      && |m.bones| == |js| && forall j :: 0 <= j < |js| ==> m.bones[j].name == js[j].name
  {
    var d := Reimported(am, js, fs);
    ReimportedExportable(am, js, fs);
    ExportedMeshSucceeds(d, Skeletal(js));
    ExportedMeshContents(d, Skeletal(js));
    var m := ExportedMesh(d, Skeletal(js)).value;
    forall k | 0 <= k < |am.faces|
      ensures m.faces[k] == am.faces[k]
    {
      assert m.faces[k].indices == fs[k].vertexIndices[..3];
    }
  }

  /** Importing a mesh and exporting it with the imported joints gives back its name,
      material index, positions, colours, normals and faces, its UVs with the third component
      zeroed, and one bone per joint with the joint's name. */
  lemma MeshRoundTrips(am: A.Mesh, js: seq<Joint>, fs: seq<Faces.Face>)
    requires RoundTrippable(am, js, fs)
    ensures ExportedMesh(Reimported(am, js, fs), Skeletal(js)).Success?
    ensures var m := ExportedMesh(Reimported(am, js, fs), Skeletal(js)).value;
      && m.name == am.name && m.materialIndex == am.materialIndex
      && m.vertices == am.vertices
      && |m.textureCoordinates| == |am.vertices|
      && (forall k :: 0 <= k < |am.vertices| ==> m.textureCoordinates[k] == am.textureCoordinates[k].(z := 0.0))
      && m.vertexColors == (if |am.vertexColors| > 0 then am.vertexColors[..|am.vertices|] else [])
      && m.normals == (if |am.normals| > 0 then am.normals[..|am.vertices|] else [])
      && m.faces == am.faces
      && |m.bones| == |js| && forall j :: 0 <= j < |js| ==> m.bones[j].name == js[j].name
  {
    RoundTripPositions(am, js, fs);
    RoundTripColors(am, js, fs);
    RoundTripFaces(am, js, fs);
  }

  /** Entry i of bone b weighs vertex e.vertexId with the weight e carries, and the bone is
      named after joint j. */
  predicate GivesBack(bones: seq<A.Bone>, names: seq<string>, j: int, e: A.VertexWeight, b: int, i: int)
  {
    && 0 <= b < |bones| && 0 <= i < |bones[b].vertexWeights| && Im.IndexOf(names, bones[b].name) == j
    && bones[b].vertexWeights[i].vertexId == e.vertexId && e.weight == EmittedWeight(bones[b].vertexWeights[i].weight)
  }

  /** After the round trip, bone j holds exactly the entries of the scene's bones named after
      joint j (the first joint of their name), with 0 written as 1. */
  lemma RoundTripWeights(am: A.Mesh, js: seq<Joint>, j: nat, e: A.VertexWeight)
    requires Im.ChannelsCover(am) && Im.WeightsInRange(am.bones, |am.vertices|)
    ensures e in BoneWeights(Im.ImportedMeshVertices(am, Im.JointNames(js)), j) <==>
      exists b, i :: GivesBack(am.bones, Im.JointNames(js), j, e, b, i)
  {
    var names := Im.JointNames(js);
    var vs := Im.ImportedMeshVertices(am, names);
    var k := e.vertexId;
    BoneWeightsIff(vs, j, e);
    if e in BoneWeights(vs, j) {
      var t :| 0 <= t < |vs[k].weights| && Binds(vs[k].weights[t], j, e.weight);
      var x := vs[k].weights[t];
      ImportedWeightIff(am.bones, names, k, x);
      var b, i :| Carries(am.bones, names, k, x, b, i);
      assert GivesBack(am.bones, names, j, e, b, i);
    }
    if exists b, i :: GivesBack(am.bones, names, j, e, b, i) {
      var b, i :| GivesBack(am.bones, names, j, e, b, i);
      var w := am.bones[b].vertexWeights[i];
      var x := WeightPosition(Some(j), None, Some(w.weight));
      assert Carries(am.bones, names, k, x, b, i);
      ImportedWeightIff(am.bones, names, k, x);
      var t :| 0 <= t < |vs[k].weights| && vs[k].weights[t] == x;
      assert Binds(vs[k].weights[t], j, e.weight);
    }
  }

  /** The weights raise no exception but e. */
  lemma {:induction false} WeightsErrorOnly(ws: seq<WeightPosition>, n: nat, e: ExportError)
    requires forall t :: 0 <= t < |ws| ==> WeightError(ws[t], n).None? || WeightError(ws[t], n) == Some(e)
    ensures WeightsError(ws, n).None? || WeightsError(ws, n) == Some(e)
  {
    if |ws| > 0 {
      var init := ws[..|ws| - 1];
      assert forall t :: 0 <= t < |init| ==> init[t] == ws[t];
      WeightsErrorOnly(init, n, e);
    }
  }

  /** The vertices raise no exception but e. */
  lemma {:induction false} VerticesErrorOnly(vs: seq<Vertex>, bones: Option<nat>, e: ExportError)
    requires forall k :: 0 <= k < |vs| ==> VertexError(vs[k], bones).None? || VertexError(vs[k], bones) == Some(e)
    ensures VerticesError(vs, bones).None? || VerticesError(vs, bones) == Some(e)
  {
    if |vs| > 0 {
      var init := vs[..|vs| - 1];
      assert forall k :: 0 <= k < |init| ==> init[k] == vs[k];
      VerticesErrorOnly(init, bones, e);
    }
  }

  /** A scene bone named after no joint gets joint index -1 on import, and exporting the
      mesh again then throws on the bone lookup, whatever else the mesh holds. */
  lemma UnmatchedBoneFails(am: A.Mesh, js: seq<Joint>, fs: seq<Faces.Face>, b: nat, i: nat)
    requires Im.ChannelsCover(am) && Im.WeightsInRange(am.bones, |am.vertices|) && |am.textureCoordinates| > 0
    requires b < |am.bones| && i < |am.bones[b].vertexWeights| && am.bones[b].name !in Im.JointNames(js)
    ensures ExportedMesh(Reimported(am, js, fs), Skeletal(js)) == Failure(NoSuchBone)
  {
    var names := Im.JointNames(js);
    var vs := Im.ImportedMeshVertices(am, names);
    var n := |js|;
    forall k | 0 <= k < |vs|
      ensures VertexError(vs[k], Some(n)).None? || VertexError(vs[k], Some(n)) == Some(NoSuchBone)
    {
      forall t | 0 <= t < |vs[k].weights|
        ensures WeightError(vs[k].weights[t], n).None? || WeightError(vs[k].weights[t], n) == Some(NoSuchBone)
      {
        ImportedWeightIff(am.bones, names, k, vs[k].weights[t]);
      }
      WeightsErrorOnly(vs[k].weights, n, NoSuchBone);
    }
    VerticesErrorOnly(vs, Some(n), NoSuchBone);
    var k := am.bones[b].vertexWeights[i].vertexId;
    var x := WeightPosition(Some(-1), None, Some(am.bones[b].vertexWeights[i].weight));
    assert Carries(am.bones, names, k, x, b, i);
    ImportedWeightIff(am.bones, names, k, x);
    var t :| 0 <= t < |vs[k].weights| && vs[k].weights[t] == x;
    WeightsErrorNoneIff(vs[k].weights, n);
    VerticesErrorNoneIff(vs, Some(n));
  }

  /** A mesh as the importer leaves it is read by the exporter as Reimported describes. */
  lemma ImportedValueReexports(v: Im.MeshValue, am: A.Mesh, js: seq<Joint>)
    requires Im.Imported(v, am, Im.JointNames(js))
    ensures MeshData(v.name, v.materialId, v.vertices, v.faces) == Reimported(am, js, v.faces)
    ensures SameIndices(v.faces, am.faces) && forall k :: 0 <= k < |am.faces| ==> |am.faces[k].indices| == 3
  {
    Im.ImportedFacesSucceed(am.faces);
  }

  /** The backslash-free path is its own last segment. */
  lemma LastSegmentOfPlain(s: string)
    requires '\\' !in s
    ensures Paths.LastSegment(s) == s
  {
  }

  /** Importing a material and exporting it again gives back its name and its diffuse texture
      path, both qualified as the mode writes them, when the path is a plain, non-empty file
      name. */
  lemma MaterialRoundTrips(am: A.Material, directory: string, mode: Mode)
    requires am.textureDiffuse.textureType == A.Diffuse
    requires |am.textureDiffuse.filePath| > 0 && Paths.PlainName(am.textureDiffuse.filePath)
    ensures ExportedMaterial(Im.ImportedMaterial(am, directory), mode)
         == A.Material(Qualified(mode, am.name), A.TextureSlot(Qualified(mode, am.textureDiffuse.filePath), A.Diffuse))
    ensures mode.Skeletal? ==> ExportedMaterial(Im.ImportedMaterial(am, directory), mode) == am
  {
    var p := am.textureDiffuse.filePath;
    var mt := Im.ImportedMaterial(am, directory);
    assert Paths.GetFileNameWithoutExtension(mt.diffuseTextureFileName) == p by {
      LastSegmentOfPlain(p);
      Im.ImportedTextureNameRoundTrips(am, directory);
    }
    assert mt.name == am.name;
  }
}
