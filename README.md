# ModelingToolkit core, modelled in Dafny

ModelingToolkit is a C# library for 3D models. An `MtModel` holds:

- joints, forming a skeleton;
- materials, each with a diffuse texture file;
- meshes. A mesh holds vertices, triangular faces that index them, and triangle strips built from its faces.

Assimp scenes come in through `AssimpImporter.ImportScene` and go out through the two `AssimpExporter.ExportScene` overloads.

This project models that core. It proves what each operation computes and how the operations fit together.

Each C# class whose methods update its fields in place is a Dafny `class`, with `modifies` clauses:

- `MtTriangleStrip` (`TriangleStrips.TriangleStrip`);
- `MtMesh` (`Meshes.Mesh`);
- `MtModel` (`Models.Model`);
- the metadata dictionary (`Helpers.Metadata`);
- the node list that `GetNodeAndChildren` fills (`AssimpUtils.NodeList`).

The plain value types are datatypes:

- `MtVertex`, `MtWeightPosition`, `MtFace`, `MtJoint`, `MtMaterial`;
- the Assimp scene types (`AssimpScenes`).

Every loop of the C# is a `while` loop, proved against a function that specifies its result. The properties are lemmas about those functions.

- **Triangle strips** (`triangle_strip.dfy`).
  - `AddFace` seeds an empty strip with the face's first three vertices. Otherwise it looks for two face vertices that equal entries at two different positions of the last three strip ids.
  - The search is specified as a table of the nine (face vertex, strip position) comparisons, scanned in the C#'s order.
  - `SearchSucceedsIffTwoPositionsMatch` proves that the search succeeds exactly when two different strip positions are matched.
  - `AcceptedFaceAppendsOneTriangle` states the triangle appended: the two shared ids, in an order that alternates with the parity of the id count, then the new vertex.
  - `FlipOrder` swaps the first two ids of every triple. `FlippedTwiceRestores` proves that flipping is an involution.
  - The search follows the code in one edge case as well: the second match can come from the same face vertex as the first, when that vertex equals two strip entries.
- **Strip building** (`greedy_runs.dfy`, `mesh.dfy`).
  - `BuildTriangleStrips` is a greedy partition of the faces into consecutive runs. Each face goes to the last strip, and a face the last strip rejects opens a new strip.
  - `GreedyPartitionOfFaces` proves the partition property. `EveryFaceInOneStrip` proves that the strips hold one triangle per face.
  - A fresh strip always accepts a face, so the C#'s "algorithm is wrong" exception is unreachable.
- **Bounding boxes** (`box.dfy`, `mesh.dfy`, `model.dfy`).
  - Both `GetBoundingBox` methods scan the vertices with minima and maxima that start at 0.
  - `BoundingBoxBounds` proves the consequences:
    - the sizes are the extents between the scanned extremes;
    - the range between the extremes always contains the origin and every vertex;
    - the box's location is the midpoint of the extremes.
  - A `Rect3D`'s location is its minimum corner, so the returned box spans midpoint .. midpoint + size on every axis. It is the range between the extremes shifted up by half its size, and it can leave vertices out. `CornerBoxMissesVertex` shows this on a single vertex at (-2, 0, 0): the box is at (-1, 0, 0) with size (2, 0, 0), so it does not contain the vertex. `CornerBoxExcludesLowerHalf` proves that any vertex below the midpoint on x is outside the box. The model keeps the location as the code computes it.
- **Joint matrices** (`model.dfy`).
  - `CalculateJointAbsoluteMatrices` multiplies each joint's relative matrix by its parent's absolute matrix, in one pass.
  - When parents come before their children, `AbsoluteIsChainOfRelatives` proves the absolute matrix is the product of the relative matrices along the path to the root.
  - `LaterParentReadStale` covers a parent that comes after its child: the pass then reads the parent's stale absolute matrix.
- **Assimp utilities** (`assimp_utils.dfy`, `assimp_scene.dfy`, `paths.dfy`).
  - The matrix, vector and colour conversions are proved inverse to each other. The matrix conversion transposes.
  - `GetNodeList` collects the nodes of the tree in pre-order. It skips mesh nodes together with everything below them, and leaves out nodes named `RootNode`. `NodeListFacts` states exactly which paths it collects, and proves that every collected ancestor comes before its descendants.
  - `FindBone` finds the first bone with the name.
  - `GetFormatFileExtension` gives `dae`, `fbx` or the format's own name.
- **Import** (`importer.dfy`).
  - `ImportScene` reads joints, materials and meshes from an in-memory scene.
  - For every part, the result is stated as a function of the scene:
    - the joints' parents are the indices of their parent nodes;
    - texture file names gain the directory and `.png`;
    - each vertex takes its channels and its weights from all bones;
    - faces must be triangles, and the first offending face decides which exception is raised;
    - each mesh's strips are built from its faces.
- **Export** (`exporter.dfy`, `export_properties.dfy`, `scene_export_properties.dfy`).
  - Every null dereference and out-of-range index that can throw in `ExportScene` is a `Failure` of an `ExportError` value. Each step raises its error in the C#'s order.
  - `ExportedModel` states the exported scene of one model:
    - its materials;
    - its meshes;
    - one mesh node per mesh, in order;
    - a node for every joint, with its relative transform.
  - For a list of models, `AddedModels` states that each model's materials, meshes and node sit at the offsets of the models before it.
  - The round-trip lemmas follow an imported mesh or material out again. They do not give back the whole scene.
    - `MeshRoundTrips`: the exported mesh has the scene mesh's name, material index, positions and faces, its UVs with the third component zeroed, and its colours and normals cut to the vertex count. `ExportedMeshContents` adds that `uvComponentCount` is 2.
    - The exported bones are the model's joints, one per joint, in joint order and named after it. They are not the scene's bones.
    - `RoundTripWeights`: bone j holds the entries of the scene bones whose name first occurs at joint j, with weight 0 written as 1. Scene bones sharing a joint's name merge into that joint's bone. A scene bone that names no joint and weighs nothing is dropped.
    - `MaterialRoundTrips`: a material with a plain texture file name comes back with its name and its texture path.
  - `UnmatchedBoneFails` records the other side of the round trip. The importer gives joint index -1 to the weights of a bone that names no joint, and such a mesh cannot be exported skeletally: the export raises `NoSuchBone`.

## Model

| member | source | states |
|---|---|---|
| `WeightPositions.New` | ModelingToolkit/Objects/MtWeightPosition.cs:11-16 | a new weight has no joint index, no position and no weight |
| `WeightPositions.Equals` | ModelingToolkit/Objects/MtWeightPosition.cs:18-31 | two weights are equal exactly when all three fields are equal |
| `WeightPositions.EqualsIsReflexive` | ModelingToolkit/Objects/MtWeightPosition.cs:18-31 | every weight equals itself, whichever of its fields are null |
| `WeightPositions.EqualsIsSymmetric` | ModelingToolkit/Objects/MtWeightPosition.cs:18-31 | weight equality does not depend on the order of its arguments |
| `Vertices.New` | ModelingToolkit/Objects/MtVertex.cs:18-25 | a new vertex has no position, no weights, no UV, no colour and no normal |
| `Vertices.WeightsEqual` | ModelingToolkit/Objects/MtVertex.cs:43-59 | the element-by-element weight comparison holds exactly when the two weight lists are equal |
| `Vertices.Equals` | ModelingToolkit/Objects/MtVertex.cs:36-81 | weights are compared when the first vertex has any, positions otherwise; UV, colour and normal are always compared |
| `Vertices.EqualsNullable` | ModelingToolkit/Objects/MtVertex.cs:38-41 | a null second vertex is never equal |
| `Vertices.EqualsIsReflexive` | ModelingToolkit/Objects/MtVertex.cs:36-81 | every vertex equals itself |
| `Vertices.WeightedEqualsIgnoresPosition` | ModelingToolkit/Objects/MtVertex.cs:43-63 | when the first vertex has weights, neither vertex's position affects the answer |
| `Vertices.UnweightedEqualsIgnoresOtherWeights` | ModelingToolkit/Objects/MtVertex.cs:43-63 | when the first vertex has no weights, the second vertex's weights do not affect the answer |
| `Vertices.EqualsIsNotSymmetric` | ModelingToolkit/Objects/MtVertex.cs:43-63 | there are two vertices equal in one order and unequal in the other |
| `Faces.New` | ModelingToolkit/Objects/MtFace.cs:11-16 | a new face has no indices and no vertices, and is clockwise |
| `Materials.New` | ModelingToolkit/Objects/MtMaterial.cs:15-20 | a new material has an empty name and an empty texture file name |
| `Joints.New` | ModelingToolkit/Objects/MtJoint.cs:22-37 | a new joint has no matrices, no decompositions and no parent, and is visible |
| `Joints.Decompose` | ModelingToolkit/Objects/MtJoint.cs:44-63 | each matrix present is split anew, missing ones leave the old split, and every other field is kept |
| `Joints.DecomposeIsIdempotent` | ModelingToolkit/Objects/MtJoint.cs:44-63 | decomposing twice gives what decomposing once gives |
| `Joints.DecomposeForgetsOldSplits` | ModelingToolkit/Objects/MtJoint.cs:44-63 | with both matrices present, the earlier splits do not affect the result |
| `TriangleStrips.HitTable` | ModelingToolkit/Objects/MtTriangleStrip.cs:43-50 | entry r of the table says whether face vertex r / 3 equals the vertex at strip position count - 1 - r % 3 |
| `TriangleStrips.FirstTrue` | ModelingToolkit/Objects/MtTriangleStrip.cs:38-61 | the first hit at or after a rank, skipping the strip position already matched, and no earlier such hit |
| `TriangleStrips.SearchRanks` | ModelingToolkit/Objects/MtTriangleStrip.cs:52-57 | a second match is only found after a first, and at a later rank |
| `TriangleStrips.TwoHitsFound` | ModelingToolkit/Objects/MtTriangleStrip.cs:38-61 | two hits at different strip positions guarantee a second match |
| `TriangleStrips.Search` | ModelingToolkit/Objects/MtTriangleStrip.cs:33-61 | both matches lie within the last three strip ids, and the second is at a different strip position from the first |
| `TriangleStrips.SearchReportsMatches` | ModelingToolkit/Objects/MtTriangleStrip.cs:50 | each reported match pairs a face vertex with an equal strip vertex |
| `TriangleStrips.RankOfMatch` | ModelingToolkit/Objects/MtTriangleStrip.cs:38-44 | every pair in the window is examined at some rank of the scan |
| `TriangleStrips.SearchSucceedsIffTwoPositionsMatch` | ModelingToolkit/Objects/MtTriangleStrip.cs:33-66 | the search finds two matches exactly when face vertices match strip vertices at two different positions of the last three |
| `TriangleStrips.NewVertexIndex` | ModelingToolkit/Objects/MtTriangleStrip.cs:81-89 | the new vertex is the least face index different from both matched ones |
| `TriangleStrips.AddFaceSpec` | ModelingToolkit/Objects/MtTriangleStrip.cs:20-92 | adding keeps the strip well formed, a refusal leaves it unchanged, and an accepted face leaves it non-empty |
| `TriangleStrips.Shared` | ModelingToolkit/Objects/MtTriangleStrip.cs:69-78 | the two appended ids are the ids at the two matched positions |
| `TriangleStrips.AddFaceSpecAccepted` | ModelingToolkit/Objects/MtTriangleStrip.cs:64-91 | given two matches, the strip gains the shared ids and then the new face vertex |
| `TriangleStrips.EmptyStripAcceptsFace` | ModelingToolkit/Objects/MtTriangleStrip.cs:22-31 | an empty strip takes the face's first three vertices with ids 0, 1, 2 |
| `TriangleStrips.NonEmptyAcceptsIffTwoPositionsMatch` | ModelingToolkit/Objects/MtTriangleStrip.cs:63-66 | a non-empty strip accepts exactly the faces that match two of its last three positions |
| `TriangleStrips.AcceptedFaceAppendsOneTriangle` | ModelingToolkit/Objects/MtTriangleStrip.cs:68-89 | adds one face and one vertex: the old ids stay, the shared ids swap with the parity of the id count, and the last id is the new vertex, a face vertex that was not matched |
| `TriangleStrips.Flipped` | ModelingToolkit/Objects/MtTriangleStrip.cs:94-102 | flipping keeps the number of ids |
| `TriangleStrips.FlippedKeepsWellFormed` | ModelingToolkit/Objects/MtTriangleStrip.cs:94-102 | flipped ids still index the vertices, in whole triples |
| `TriangleStrips.FlippedTriple` | ModelingToolkit/Objects/MtTriangleStrip.cs:96-101 | in each triple the first two ids trade places and the third stays |
| `TriangleStrips.FlippedTwiceRestores` | ModelingToolkit/Objects/MtTriangleStrip.cs:94-102 | flipping twice gives the original order |
| `TriangleStrips.TriangleStrip.constructor` | ModelingToolkit/Objects/MtTriangleStrip.cs:12-17 | a new strip is counter-clockwise and empty |
| `TriangleStrips.TriangleStrip.FindMatches` | ModelingToolkit/Objects/MtTriangleStrip.cs:33-61 | the two nested loops return the search's matches |
| `TriangleStrips.TriangleStrip.ScanRow` | ModelingToolkit/Objects/MtTriangleStrip.cs:43-60 | the inner loop for one face vertex advances the scan by three ranks, stopping at the second match |
| `TriangleStrips.TriangleStrip.ScanCell` | ModelingToolkit/Objects/MtTriangleStrip.cs:45-59 | one comparison skips the matched position, records the first match or records the second |
| `TriangleStrips.TriangleStrip.AddFace` | ModelingToolkit/Objects/MtTriangleStrip.cs:20-92 | the answer and the new strip state are those of `AddFaceSpec` on the old state and the face's vertices, and the winding flag is kept |
| `TriangleStrips.TriangleStrip.SeedWith` | ModelingToolkit/Objects/MtTriangleStrip.cs:22-31 | the strip holds the first three face vertices and ids 0, 1, 2 |
| `TriangleStrips.TriangleStrip.AppendSharedIds` | ModelingToolkit/Objects/MtTriangleStrip.cs:69-78 | the shared ids are appended and the vertices are untouched |
| `TriangleStrips.TriangleStrip.AppendNewVertex` | ModelingToolkit/Objects/MtTriangleStrip.cs:81-89 | the unmatched face vertex is appended, and its index is appended to the ids |
| `TriangleStrips.TriangleStrip.FlipOrder` | ModelingToolkit/Objects/MtTriangleStrip.cs:94-102 | the ids become their flipped order; the vertices and the winding flag stay |
| `GreedyRuns.Build` | ModelingToolkit/Objects/MtMesh.cs:73-96 | there are no more runs than items, and none exactly when there are no items |
| `GreedyRuns.BuildSnoc` | ModelingToolkit/Objects/MtMesh.cs:81-95 | one more item extends the last run or opens a new run starting at that item |
| `GreedyRuns.GreedyPartition` | ModelingToolkit/Objects/MtMesh.cs:73-96 | when a fresh run takes every item, the runs split the items into consecutive stretches: each stretch grows its run from a fresh one, and each run after the first was opened because the one before refused its first item |
| `GreedyRuns.PartitionExtend` | ModelingToolkit/Objects/MtMesh.cs:83-86 | an item the last run accepts keeps the partition |
| `GreedyRuns.PartitionOpen` | ModelingToolkit/Objects/MtMesh.cs:87-94 | an item the last run refuses opens a run, and the partition still holds |
| `Meshes.AttachVertices` | ModelingToolkit/Objects/MtMesh.cs:60-65 | the face gains the three vertices its indices name, after the vertices it had |
| `Meshes.AttachAll` | ModelingToolkit/Objects/MtMesh.cs:58-66 | every face gains its three vertices |
| `Meshes.Seed` | ModelingToolkit/Objects/MtMesh.cs:77-80 | the face opens a well-formed strip holding its first three vertices |
| `Meshes.BuildStrips` | ModelingToolkit/Objects/MtMesh.cs:73-96 | no faces give no strips, there are never more strips than faces, and every strip is non-empty and well formed |
| `Meshes.NextAddsOneFace` | ModelingToolkit/Objects/MtMesh.cs:81-95 | each face adds one triangle to the strips in total |
| `Meshes.EveryFaceInOneStrip` | ModelingToolkit/Objects/MtMesh.cs:73-96 | the strips hold exactly one triangle per face |
| `Meshes.GreedyPartitionOfFaces` | ModelingToolkit/Objects/MtMesh.cs:73-96 | the strips partition the faces greedily, as `GreedyRuns.GreedyPartition` states |
| `Meshes.OneFaceOneStrip` | ModelingToolkit/Objects/MtMesh.cs:77-86 | a single face gives a single strip of its three vertices |
| `Meshes.SquareSearch` | ModelingToolkit/Objects/MtTriangleStrip.cs:33-61 | the second triangle of a square matches strip positions 1 and 2 |
| `Meshes.SquareSecondFace` | ModelingToolkit/Objects/MtTriangleStrip.cs:5 | that face is taken with ids 2, 1, 3, following the alternation the file's header describes |
| `Meshes.TwoFacesSharingAnEdge` | ModelingToolkit/Objects/MtMesh.cs:73-96 | two triangles sharing an edge build the single strip 0 1 2 2 1 3 |
| `Meshes.Mesh.constructor` | ModelingToolkit/Objects/MtMesh.cs:18-29 | a new mesh has no name, labels, material, vertices, faces or strips, and all three visibility flags set |
| `Meshes.Mesh.GetBoundingBox` | ModelingToolkit/Objects/MtMesh.cs:31-56 | the box of the vertex positions, as `Boxes.BoundingBoxBounds` describes it |
| `Meshes.Mesh.SetFaceVertices` | ModelingToolkit/Objects/MtMesh.cs:58-66 | every face gains the vertices of its first three indices, and nothing else changes |
| `Meshes.Mesh.BuildTriangleStrips` | ModelingToolkit/Objects/MtMesh.cs:68-97 | the faces gain their vertices; the strips are fresh, distinct objects holding the greedy strips of the faces |
| `Meshes.BuildStripObjects` | ModelingToolkit/Objects/MtMesh.cs:73-96 | the face loop leaves fresh, distinct strip objects holding the greedy strips |
| `Meshes.OfferToLast` | ModelingToolkit/Objects/MtMesh.cs:81-86 | the last strip answers as `AddTotal` does on its state, and only that strip changes, and only when it accepts |
| `Meshes.OpenStrip` | ModelingToolkit/Objects/MtMesh.cs:89-94 | a fresh strip seeded with the face is appended; the other strips stay |
| `Boxes.LowestIsLeast` | ModelingToolkit/Objects/MtMesh.cs:33-47 | the scanned minimum is at most 0 and at most every coordinate, and it is 0 or one of them |
| `Boxes.HighestIsGreatest` | ModelingToolkit/Objects/MtMesh.cs:36-47 | the scanned maximum is at least 0 and at least every coordinate, and it is 0 or one of them |
| `Boxes.Offset` | ModelingToolkit/Objects/MtMesh.cs:53 | `Rect3D.Offset` moves the location by the offsets and keeps the size |
| `Boxes.ScanGivesBoundingBox` | ModelingToolkit/Objects/MtMesh.cs:49-55 | the sizes and offset computed from the scanned extremes give the bounding box |
| `Boxes.BoundingBoxBounds` | ModelingToolkit/Objects/MtMesh.cs:31-56 | the sizes are non-negative and equal the extents between the scanned extremes; the location is the midpoint of the extremes; the range between the extremes contains the origin and every position, and each extreme is 0 or a coordinate of some position; no vertices give the zero box |
| `Boxes.CornerBoxMissesVertex` | ModelingToolkit/Objects/MtMesh.cs:49-53 | one vertex at (-2, 0, 0) gives the box at (-1, 0, 0) with size (2, 0, 0), whose corner-based extent -1 .. 1 leaves out that vertex |
| `Boxes.CornerBoxExcludesLowerHalf` | ModelingToolkit/Objects/MtMesh.cs:49-53 | the box's location is the midpoint of the extremes, so a position below the midpoint on x lies outside the extent location .. location + size |
| `Models.Calculated` | ModelingToolkit/Objects/MtModel.cs:30-37 | a joint after the pass has its absolute matrix computed and both matrices decomposed anew, and keeps its name, relative matrix, parent and visibility |
| `Models.ParentsPrecedeReadable` | ModelingToolkit/Objects/MtModel.cs:28-38 | the pass reads nothing missing when parents come first and every relative matrix is set |
| `Models.Ancestry` | ModelingToolkit/Objects/MtModel.cs:32-34 | the chain of parents from a joint ends at a joint without a parent |
| `Models.AbsoluteIsChainOfRelatives` | ModelingToolkit/Objects/MtModel.cs:26-39 | with parents first, a joint's absolute matrix is the product of the relative matrices from it up to the root |
| `Models.RootAbsoluteIsRelative` | ModelingToolkit/Objects/MtModel.cs:31-36 | a joint without a parent gets its relative matrix as its absolute matrix |
| `Models.LaterParentReadStale` | ModelingToolkit/Objects/MtModel.cs:32-34 | a parent after its child contributes its old absolute matrix |
| `Models.MeshPositioned` | ModelingToolkit/Objects/MtModel.cs:49-60 | when all the model's vertices have positions, so do those of each of its meshes |
| `Models.Model.constructor` | ModelingToolkit/Objects/MtModel.cs:16-24 | a new model is empty and visible |
| `Models.Model.CalculateJointAbsoluteMatrices` | ModelingToolkit/Objects/MtModel.cs:26-39 | each joint becomes its calculated version, read against the joints as the pass finds them; the other fields stay |
| `Models.Model.GetBoundingBox` | ModelingToolkit/Objects/MtModel.cs:41-74 | the box of the positions of all the meshes' vertices, in order |
| `Models.ScanVertices` | ModelingToolkit/Objects/MtModel.cs:51-59 | the inner loop extends the running extremes over one mesh's vertices |
| `Helpers.Metadata.constructor` | ModelingToolkit/MtHelper.cs:15 | the dictionary holds the entries given |
| `Helpers.MetadataIsTrue` | ModelingToolkit/MtHelper.cs:15-23 | the answer and the dictionary afterwards are those of the lookup |
| `Helpers.Lookup` | ModelingToolkit/MtHelper.cs:15-23 | the answer and the new dictionary of a lookup; `PresentKeyIsRead`, `MissingKeyStoresDefault` and `LookupIsStable` state what they are |
| `Helpers.PresentKeyIsRead` | ModelingToolkit/MtHelper.cs:22 | a present key answers whether its value is "True", and the dictionary is unchanged |
| `Helpers.MissingKeyStoresDefault` | ModelingToolkit/MtHelper.cs:17-21 | a missing key answers the default and is stored with a value that reads back as the default; the other entries stay |
| `Helpers.LookupIsStable` | ModelingToolkit/MtHelper.cs:15-23 | asking again afterwards, with any default, gives the same answer and changes nothing |
| `Paths.BoolToString` | ModelingToolkit/MtHelper.cs:19 | the string is "True" exactly for true |
| `AssimpScenes.NewNode` | ModelingToolkit/AssimpModule/AssimpUtils.cs:79 | a new node has the name, the identity transform, no meshes and no children |
| `AssimpScenes.NewMesh` | ModelingToolkit/AssimpModule/AssimpExporter.cs:29 | a new mesh has the name and is otherwise empty |
| `AssimpScenes.FindNode` | ModelingToolkit/AssimpModule/AssimpExporter.cs:104 | a path found leads to a node of that name |
| `AssimpScenes.FindNodeIffNamed` | ModelingToolkit/AssimpModule/AssimpExporter.cs:104 | a node is found exactly when some node of the tree has the name |
| `AssimpScenes.AddChild` | ModelingToolkit/AssimpModule/AssimpExporter.cs:109 | the root keeps its name, transform and meshes; `AddChildAppends` and `AddChildKeeps` state where the child goes and that the other nodes stay |
| `AssimpScenes.AddChildAppends` | ModelingToolkit/AssimpModule/AssimpExporter.cs:109 | the node at the path gains the child as its last child |
| `AssimpScenes.AddChildKeeps` | ModelingToolkit/AssimpModule/AssimpExporter.cs:109 | every node there was keeps its name, transform and meshes |
| `AssimpScenes.AddChildNamed` | ModelingToolkit/AssimpModule/AssimpExporter.cs:109 | afterwards the child's name and every earlier name are in the tree |
| `AssimpUtils.ToAssimp` | ModelingToolkit/AssimpModule/AssimpUtils.cs:9 | entry (r, c) of the Assimp matrix is entry (c, r) of the numerics matrix |
| `AssimpUtils.ToNumerics` | ModelingToolkit/AssimpModule/AssimpUtils.cs:10 | entry (r, c) of the numerics matrix is entry (c, r) of the Assimp matrix |
| `AssimpUtils.MatrixRoundTrips` | ModelingToolkit/AssimpModule/AssimpUtils.cs:9-10 | the two matrix conversions are inverse to each other |
| `AssimpUtils.IdentityConverts` | ModelingToolkit/AssimpModule/AssimpUtils.cs:9-10 | the identity converts to the identity, both ways |
| `AssimpUtils.ToAssimpVector` | ModelingToolkit/AssimpModule/AssimpUtils.cs:11 | the vector keeps its components |
| `AssimpUtils.ToNumericsVector` | ModelingToolkit/AssimpModule/AssimpUtils.cs:12 | the vector keeps its components |
| `AssimpUtils.ToAssimpColor` | ModelingToolkit/AssimpModule/AssimpUtils.cs:13 | x, y, z, w become r, g, b, a |
| `AssimpUtils.ToNumericsColor` | ModelingToolkit/AssimpModule/AssimpUtils.cs:14 | r, g, b, a become x, y, z, w |
| `AssimpUtils.VectorRoundTrips` | ModelingToolkit/AssimpModule/AssimpUtils.cs:11-14 | the vector and colour conversions are inverse to each other |
| `AssimpUtils.Collect` | ModelingToolkit/AssimpModule/AssimpUtils.cs:54-73 | the paths GetNodeAndChildren appends for a node: none under a mesh node, the node itself unless it is named RootNode, then its children's; `CollectSound`, `ListedIsCollected` and `CollectAncestorsFirst` state which paths and in what order |
| `AssimpUtils.CollectChildren` | ModelingToolkit/AssimpModule/AssimpUtils.cs:63-72 | the paths appended for the children from an index on, child by child; covered by the same lemmas |
| `AssimpUtils.CollectSound` | ModelingToolkit/AssimpModule/AssimpUtils.cs:54-73 | every collected path extends the start's path, and the rest of it is a listed path of the subtree |
| `AssimpUtils.ListedIsCollected` | ModelingToolkit/AssimpModule/AssimpUtils.cs:54-73 | every such path is collected |
| `AssimpUtils.ListedAvoidsMeshes` | ModelingToolkit/AssimpModule/AssimpUtils.cs:57-66 | no node on a listed path has meshes, and the listed node is not named RootNode |
| `AssimpUtils.CollectAncestorsFirst` | ModelingToolkit/AssimpModule/AssimpUtils.cs:63-72 | a node is collected before every node below it |
| `AssimpUtils.NodeList.constructor` | ModelingToolkit/AssimpModule/AssimpUtils.cs:50 | a new node list is empty |
| `AssimpUtils.GetNodeAndChildren` | ModelingToolkit/AssimpModule/AssimpUtils.cs:54-73 | the list gains the collected paths of the subtree, in pre-order |
| `AssimpUtils.GetNodeList` | ModelingToolkit/AssimpModule/AssimpUtils.cs:48-53 | the node list of the scene is that of its root |
| `AssimpUtils.NodeListFacts` | ModelingToolkit/AssimpModule/AssimpUtils.cs:48-73 | a path is listed exactly when it avoids mesh nodes and ends at a node not named RootNode, and ancestors come first |
| `AssimpUtils.GetBaseScene` | ModelingToolkit/AssimpModule/AssimpUtils.cs:76-81 | the base scene is a bare node named RootNode, with no materials and no meshes |
| `AssimpUtils.BaseSceneHasNoSkeleton` | ModelingToolkit/AssimpModule/AssimpUtils.cs:76-81 | the base scene lists no nodes |
| `AssimpUtils.FindBone` | ModelingToolkit/AssimpModule/AssimpUtils.cs:95-104 | null exactly when no bone has the name; otherwise the first bone that has it |
| `AssimpUtils.FormatName` | ModelingToolkit/AssimpModule/AssimpUtils.cs:107-119 | the name of each of the 22 formats, as `ToString` writes it; `SameExtensionSameFormat` shows the names distinguish the formats |
| `AssimpUtils.GetFormatFileExtension` | ModelingToolkit/AssimpModule/AssimpUtils.cs:107-119 | collada gives dae, fbx and fbxa give fbx, any other format its own name |
| `AssimpUtils.ExtensionIdentifiesFormat` | ModelingToolkit/AssimpModule/AssimpUtils.cs:107-119 | the extension gives the format back, with fbxa read as fbx |
| `AssimpUtils.SameExtensionSameFormat` | ModelingToolkit/AssimpModule/AssimpUtils.cs:107-119 | two formats share an extension only when they are equal or are fbx and fbxa |
| `Paths.LastSegmentIsLastPart` | ModelingToolkit/AssimpModule/AssimpImporter.cs:47-48 | the last piece of the split is a backslash-free suffix, preceded by a backslash unless it is the whole path |
| `Paths.LastSegment` | ModelingToolkit/AssimpModule/AssimpImporter.cs:47-48 | what follows the last backslash; `LastSegmentIsLastPart` states it |
| `Paths.Combine` | ModelingToolkit/AssimpModule/AssimpImporter.cs:49 | Path.Combine: the second path when the first is empty or the second is rooted, otherwise the two joined by one separator; `CombineEndsWithName` states where a plain name lands |
| `Paths.GetFileName` | ModelingToolkit/AssimpModule/AssimpExporter.cs:17 | Path.GetFileName: what follows the last separator or drive prefix; `FileNameIsSuffix` and `FileNameAfterSeparator` state it |
| `Paths.GetFileNameWithoutExtension` | ModelingToolkit/AssimpModule/AssimpExporter.cs:17 | the file name up to its last period; its contract and `TextureNameRoundTrips` state it |
| `Paths.WithoutExtension` | ModelingToolkit/AssimpModule/AssimpExporter.cs:17 | the name loses what follows its last period, and that period |
| `Paths.TextureNameRoundTrips` | ModelingToolkit/AssimpModule/AssimpImporter.cs:49-50 | a plain name, combined with the directory and given ".png", gives the name back without the extension |
| `Paths.D4` | ModelingToolkit/AssimpModule/AssimpExporter.cs:87 | the index is written in at least four digits, exactly four below 10000 |
| `Paths.D4Value` | ModelingToolkit/AssimpModule/AssimpExporter.cs:87 | the digits read back as the index |
| `Paths.D4Injective` | ModelingToolkit/AssimpModule/AssimpExporter.cs:87 | different indices give different digits |
| `Importer.IndexOf` | ModelingToolkit/AssimpModule/AssimpImporter.cs:29-31 | -1 exactly when the item is absent; otherwise its first position |
| `Importer.ParentIndex` | ModelingToolkit/AssimpModule/AssimpImporter.cs:29-32 | a node has a parent index exactly when it is not the root and its parent node is listed; the index is then the parent's first position in the list |
| `Importer.ImportedJoints` | ModelingToolkit/AssimpModule/AssimpImporter.cs:23-35 | one joint per listed node, with its name, its transform as a numerics matrix and the index of its parent node, decomposed |
| `Importer.ImportedJoint` | ModelingToolkit/AssimpModule/AssimpImporter.cs:23-35 | the joint of one node: its name, its transform converted as the relative matrix, its parent index, then decomposed; `ImportedJoints` and `ImportedParentsPrecede` state them |
| `Importer.ImportJoints` | ModelingToolkit/AssimpModule/AssimpImporter.cs:23-35 | the joint loop gives those joints |
| `Importer.ListedNodesExist` | ModelingToolkit/AssimpModule/AssimpImporter.cs:19-25 | every listed path leads to a node |
| `Importer.ImportedParentsPrecede` | ModelingToolkit/AssimpModule/AssimpImporter.cs:29-32 | a joint's parent comes before it and is its parent node |
| `Importer.SceneJoints` | ModelingToolkit/AssimpModule/AssimpImporter.cs:19-35 | the imported joints have their parents first and can be read by the matrix pass |
| `Importer.ImportedAbsoluteIsChain` | ModelingToolkit/AssimpModule/AssimpImporter.cs:38-39 | each imported joint's absolute matrix is the product of the relative matrices up to the root |
| `Importer.ImportedMaterials` | ModelingToolkit/AssimpModule/AssimpImporter.cs:42-56 | one material per scene material, in order |
| `Importer.ImportedMaterial` | ModelingToolkit/AssimpModule/AssimpImporter.cs:44-52 | the name is kept and the texture is the last backslash piece of its path, combined with the directory, with ".png" appended; `ImportedTextureNameRoundTrips` states what that gives back |
| `Importer.ImportMaterials` | ModelingToolkit/AssimpModule/AssimpImporter.cs:42-56 | the material loop gives those materials |
| `Importer.ImportMaterial` | ModelingToolkit/AssimpModule/AssimpImporter.cs:44-52 | the name is kept, and the texture becomes the last backslash piece of its path, combined with the directory and given ".png" |
| `Importer.ImportedTextureNameRoundTrips` | ModelingToolkit/AssimpModule/AssimpImporter.cs:46-50 | the texture file name gives back the last piece of the scene's path |
| `Importer.ImportVertices` | ModelingToolkit/AssimpModule/AssimpImporter.cs:66-87 | one vertex per scene vertex, with its position, and UV, colour and normal when the mesh has that channel |
| `Importer.ChannelsCover` | ModelingToolkit/AssimpModule/AssimpImporter.cs:66-87 | the channels the vertex loop indexes are each empty or long enough not to throw |
| `Importer.ImportedVertex` | ModelingToolkit/AssimpModule/AssimpImporter.cs:66-87 | a vertex with the scene's position, and UV, colour and normal when the mesh has that channel; `ImportVertices` is proved against it |
| `Importer.FindJointIndex` | ModelingToolkit/AssimpModule/AssimpImporter.cs:93-100 | the index of the first joint with the bone's name, or -1 |
| `Importer.AddBoneWeights` | ModelingToolkit/AssimpModule/AssimpImporter.cs:102-111 | each vertex gains, in order, the bone's weights that name it |
| `Importer.ImportWeights` | ModelingToolkit/AssimpModule/AssimpImporter.cs:89-112 | each vertex gains the weights of all bones that name it, bone by bone |
| `Importer.BoneWeightsIff` | ModelingToolkit/AssimpModule/AssimpImporter.cs:102-111 | a weight is added to a vertex exactly when an entry of the bone names that vertex, with the bone's index and the entry's weight |
| `Importer.MeshWeightsIff` | ModelingToolkit/AssimpModule/AssimpImporter.cs:89-112 | a vertex's weights are exactly those some bone gives it |
| `Importer.ImportFaces` | ModelingToolkit/AssimpModule/AssimpImporter.cs:115-130 | the face loop gives the imported faces, or the exception of the first face that is not a triangle |
| `Importer.ImportedFaces` | ModelingToolkit/AssimpModule/AssimpImporter.cs:115-130 | the faces in order, each clockwise with the scene's indices, or the first non-triangle's exception; `ImportedFacesSucceed` and `ImportedFacesReportFirst` state both cases |
| `Importer.ImportedFacesSucceed` | ModelingToolkit/AssimpModule/AssimpImporter.cs:115-130 | faces import exactly when all are triangles, as clockwise faces with the scene's indices |
| `Importer.ImportedFacesReportFirst` | ModelingToolkit/AssimpModule/AssimpImporter.cs:118-123 | the first face that is not a triangle decides the exception: too many indices or too few |
| `Importer.ImportedMeshVertices` | ModelingToolkit/AssimpModule/AssimpImporter.cs:66-112 | each vertex is the read vertex with the weights of all bones |
| `Importer.ImportedFacesIndexable` | ModelingToolkit/AssimpModule/AssimpImporter.cs:125-132 | imported faces index the mesh's vertices |
| `Importer.ImportMesh` | ModelingToolkit/AssimpModule/AssimpImporter.cs:61-132 | fails exactly when the faces fail, with their exception; otherwise a fresh mesh with the scene's name and material, the imported vertices, the faces with their vertices attached and the strips built |
| `Importer.MeshImported` | ModelingToolkit/AssimpModule/AssimpImporter.cs:61-132 | the state an imported mesh is in: name, material, vertices, faces with their vertices attached and strips built from them; `ImportMesh` ensures it |
| `Importer.FirstFaceErrorIff` | ModelingToolkit/AssimpModule/AssimpImporter.cs:115-123 | no mesh raises an exception exactly when every face of every mesh is a triangle |
| `Importer.ImportNext` | ModelingToolkit/AssimpModule/AssimpImporter.cs:61-133 | imports mesh i, and the earlier meshes keep their state |
| `Importer.ImportMeshes` | ModelingToolkit/AssimpModule/AssimpImporter.cs:59-134 | fails exactly when some mesh has a face that is not a triangle, with the first such exception; otherwise one fresh mesh per scene mesh, each imported, all distinct |
| `Importer.ImportScene` | ModelingToolkit/AssimpModule/AssimpImporter.cs:9-137 | the model has the joints with absolute matrices computed, the imported materials and the imported meshes, or the first face exception |
| `Exporter.Qualified` | ModelingToolkit/AssimpModule/AssimpExporter.cs:141 | a single model keeps its names, and a model of a list prefixes them with its name and a period |
| `Exporter.ExportedMaterials` | ModelingToolkit/AssimpModule/AssimpExporter.cs:14-24 | one Assimp material per material, in order |
| `Exporter.ExportedMaterial` | ModelingToolkit/AssimpModule/AssimpExporter.cs:14-24 | the qualified name, and a diffuse texture that is the texture's file name without its extension, qualified the same way; `ExportProperties.MaterialRoundTrips` states what comes back |
| `Exporter.ExportMaterials` | ModelingToolkit/AssimpModule/AssimpExporter.cs:14-24 | the material loop gives those materials |
| `Exporter.ExportableVerticesPlaced` | ModelingToolkit/AssimpModule/AssimpExporter.cs:46-49 | vertices that export all have a position and a UV |
| `Exporter.WeightError` | ModelingToolkit/AssimpModule/AssimpExporter.cs:43-57 | a weight raises nothing exactly when it has a joint index naming a bone and a weight; otherwise no index, no such bone, no weight, checked in that order |
| `Exporter.VertexError` | ModelingToolkit/AssimpModule/AssimpExporter.cs:43-57 | a vertex raises nothing exactly when it has a position, a UV and, when weights are read, no failing weight; a missing UV is reported only for a vertex that has a position |
| `Exporter.EmittedWeight` | ModelingToolkit/AssimpModule/AssimpExporter.cs:55 | the written weight is never 0, and equals the weight unless it is 0 |
| `Exporter.WeightsTo` | ModelingToolkit/AssimpModule/AssimpExporter.cs:52-57 | at most one entry per weight, none weighing 0; `ExportProperties.WeightsToIff` states exactly which entries |
| `Exporter.AddWeights` | ModelingToolkit/AssimpModule/AssimpExporter.cs:52-57 | the first weight that cannot be read raises its exception; otherwise each bone gains the vertex's entries for it |
| `Exporter.AddedWeightsStep` | ModelingToolkit/AssimpModule/AssimpExporter.cs:54-56 | one weight adds one entry to its bone and touches no other bone |
| `Exporter.ExportVertices` | ModelingToolkit/AssimpModule/AssimpExporter.cs:42-76 | the vertex loop gives the mesh with the vertex channels and weights, or the first exception |
| `Exporter.ExportVertex` | ModelingToolkit/AssimpModule/AssimpExporter.cs:43-76 | one vertex extends the channels and weights, or raises the loop's exception |
| `Exporter.WithVerticesStep` | ModelingToolkit/AssimpModule/AssimpExporter.cs:46-73 | a vertex appends its position, its UV with z = 0, and its colour and normal when it has them |
| `Exporter.ExportFaces` | ModelingToolkit/AssimpModule/AssimpExporter.cs:79-82 | faces with fewer than three indices raise an exception; otherwise one triangle per face is appended |
| `Exporter.ExportedFaces` | ModelingToolkit/AssimpModule/AssimpExporter.cs:79-82 | one triangle per face, in order |
| `Exporter.WindingKeepsCorners` | ModelingToolkit/AssimpModule/AssimpExporter.cs:200-210 | without winding, the first three indices in order; with winding, the same corners from the same first corner, in order exactly when the face is clockwise or its last two corners coincide |
| `Exporter.Triangle` | ModelingToolkit/AssimpModule/AssimpExporter.cs:200-210 | three indices, starting with the face's first, made of the face's first three corners; `WindingKeepsCorners` states the order |
| `Exporter.MeshBones` | ModelingToolkit/AssimpModule/AssimpExporter.cs:36-39 | one empty bone per joint, named after it |
| `Exporter.ExportBones` | ModelingToolkit/AssimpModule/AssimpExporter.cs:36-39 | the bone loop gives those bones |
| `Exporter.MeshStart` | ModelingToolkit/AssimpModule/AssimpExporter.cs:28-40 | the mesh the vertex loop starts from: qualified name, two UV components, material index past the earlier models' materials, one bone per joint when skeletal; `ExportProperties.ExportedMeshContents` states these for the exported mesh |
| `Exporter.ExportedMesh` | ModelingToolkit/AssimpModule/AssimpExporter.cs:28-84 | one mesh exported, raising no material id, then the vertex loop's exception, then a short face; `ExportProperties.ExportedMeshSucceeds` states when it succeeds and `ExportedMeshContents` what it holds |
| `Exporter.ExportMesh` | ModelingToolkit/AssimpModule/AssimpExporter.cs:28-84 | the mesh loop body gives `ExportedMesh` of the mesh: the exported mesh or its first exception |
| `Exporter.CollectedEach` | ModelingToolkit/AssimpModule/AssimpExporter.cs:26-90 | the mesh loop succeeds exactly when every mesh does, keeping their results; otherwise it stops at the first failing mesh |
| `Exporter.MeshResultsAt` | ModelingToolkit/AssimpModule/AssimpExporter.cs:26-28 | result i is the export of mesh i |
| `Exporter.NextMesh` | ModelingToolkit/AssimpModule/AssimpExporter.cs:28-84 | the loop body gives result i |
| `Exporter.MeshesExportEach` | ModelingToolkit/AssimpModule/AssimpExporter.cs:26-90 | the meshes export exactly when each does, in order |
| `Exporter.MeshNode` | ModelingToolkit/AssimpModule/AssimpExporter.cs:87-88 | mesh node i holds mesh i and no children |
| `Exporter.MeshNodeNamesDiffer` | ModelingToolkit/AssimpModule/AssimpExporter.cs:87 | distinct meshes get distinct node names |
| `Exporter.MeshRoot` | ModelingToolkit/AssimpModule/AssimpExporter.cs:86-90 | the root holds the mesh nodes in order |
| `Exporter.ExportJoints` | ModelingToolkit/AssimpModule/AssimpExporter.cs:93-110 | the joint loop attaches every joint, or raises the first exception |
| `Exporter.JointNode` | ModelingToolkit/AssimpModule/AssimpExporter.cs:95-107 | a node named after the joint, with its relative matrix converted as transform; `AttachableJointsAttach` states each joint gets one |
| `Exporter.Orphan` | ModelingToolkit/AssimpModule/AssimpExporter.cs:98-100 | a joint whose parent id is null or -1 hangs under the root; `JointParentPath` states where the others go |
| `Exporter.AttachJoint` | ModelingToolkit/AssimpModule/AssimpExporter.cs:93-110 | one joint attached, raising no such parent joint, no relative matrix or no parent node, in that order; `AttachOneKeeps` states what it keeps and adds |
| `Exporter.AttachJoints` | ModelingToolkit/AssimpModule/AssimpExporter.cs:93-110 | the first n joints attached in order, stopping at the first failure; `AttachJointsSticks` and `AttachableJointsAttach` state it |
| `Exporter.AttachJointsSticks` | ModelingToolkit/AssimpModule/AssimpExporter.cs:93-110 | once a joint fails, the loop's result is that failure |
| `Exporter.ImportedJointsAttachable` | ModelingToolkit/AssimpModule/AssimpExporter.cs:98-107 | joints with parents first and every matrix set can all be attached |
| `Exporter.AttachOneKeeps` | ModelingToolkit/AssimpModule/AssimpExporter.cs:109 | attaching a joint keeps every node there was and adds the joint's node |
| `Exporter.AttachableJointsAttach` | ModelingToolkit/AssimpModule/AssimpExporter.cs:93-110 | attachable joints all attach: the tree keeps its nodes and has a node per joint with its transform |
| `Exporter.JointParentPath` | ModelingToolkit/AssimpModule/AssimpExporter.cs:97-105 | a joint hangs under the root when it is an orphan, and otherwise under the first node named after its parent |
| `Exporter.ExportScene` | ModelingToolkit/AssimpModule/AssimpExporter.cs:9-113 | the scene is the model's export, or its first exception |
| `Exporter.ExportModel` | ModelingToolkit/AssimpModule/AssimpExporter.cs:9-113 | the single-model export: the meshes, then the joints, each step raising its first exception; `ExportedModel` states the scene it gives |
| `Exporter.ExportedModel` | ModelingToolkit/AssimpModule/AssimpExporter.cs:9-113 | with attachable joints and exportable meshes: the materials, the meshes in order, node i under the root holding mesh i, and a node for every joint with its name and converted matrix; where each joint node hangs (under the root or under its parent's node) is stated by `SceneExportProperties.JointHangsUnderParent` |
| `Exporter.MeshRootWithJoints` | ModelingToolkit/AssimpModule/AssimpExporter.cs:86-110 | the joint nodes leave the mesh nodes in place |
| `Exporter.ModelMeshNodes` | ModelingToolkit/AssimpModule/AssimpExporter.cs:214-217 | each mesh node is named model.mesh and holds the scene's index of its mesh |
| `Exporter.AddModel` | ModelingToolkit/AssimpModule/AssimpExporter.cs:125-221 | one model added to the scene, as a node under the root with its materials and meshes appended; `SceneExportProperties.AddModelSucceeds`, `AddModelRoot`, `AddModelMaterials` and `AddModelMeshes` state it |
| `Exporter.ExportModelInto` | ModelingToolkit/AssimpModule/AssimpExporter.cs:127-220 | the model loop body gives `AddModel` of the scene and the model: the scene with the model added, or its first exception |
| `Exporter.ExportScenes` | ModelingToolkit/AssimpModule/AssimpExporter.cs:116-224 | one model exports as the single-model overload does; any other number, each model in turn |
| `Exporter.ExportEachModel` | ModelingToolkit/AssimpModule/AssimpExporter.cs:123-223 | the model loop adds every model to the base scene, in order |
| `Exporter.NextModel` | ModelingToolkit/AssimpModule/AssimpExporter.cs:125-221 | one pass of the model loop adds the next model |
| `Exporter.AddModelsSticks` | ModelingToolkit/AssimpModule/AssimpExporter.cs:125-221 | once a model fails, the result is that failure |
| `Exporter.AddModels` | ModelingToolkit/AssimpModule/AssimpExporter.cs:125-221 | the first n models added in order to the base scene, stopping at the first failure; `SceneExportProperties.AddedModels` states where each lands |
| `Exporter.ExportModels` | ModelingToolkit/AssimpModule/AssimpExporter.cs:116-224 | one model exports as the single-model export does; any other number is added model by model; `ExportScenes` is proved against it |
| `ExportProperties.WeightsToIff` | ModelingToolkit/AssimpModule/AssimpExporter.cs:52-57 | a vertex puts an entry on bone j exactly when one of its weights names j, with that weight as written |
| `ExportProperties.BoneWeightsIff` | ModelingToolkit/AssimpModule/AssimpExporter.cs:42-76 | bone j holds an entry exactly when the vertex it names has a weight for j |
| `ExportProperties.BoneWeightsByVertex` | ModelingToolkit/AssimpModule/AssimpExporter.cs:75 | a bone's entries name existing vertices, in vertex order |
| `ExportProperties.VerticesErrorNoneIff` | ModelingToolkit/AssimpModule/AssimpExporter.cs:43-76 | the vertex loop raises nothing exactly when no vertex does |
| `ExportProperties.VerticesExportable` | ModelingToolkit/AssimpModule/AssimpExporter.cs:42-76 | the vertex loop runs through exactly when every vertex has a position and a UV and, with a skeleton, every weight has a joint index of a bone and a weight |
| `ExportProperties.ExportedMeshSucceeds` | ModelingToolkit/AssimpModule/AssimpExporter.cs:28-84 | a mesh exports exactly when it has a material, its vertices export and its faces have three indices |
| `ExportProperties.ColorsOfVertices` | ModelingToolkit/AssimpModule/AssimpExporter.cs:59-67 | the colour channel has one entry per coloured vertex; all coloured gives one per vertex, none coloured gives none |
| `ExportProperties.NormalsOfVertices` | ModelingToolkit/AssimpModule/AssimpExporter.cs:69-73 | the same for normals |
| `ExportProperties.ExportedMeshContents` | ModelingToolkit/AssimpModule/AssimpExporter.cs:28-84 | an exported mesh has the name, two UV components, the shifted material index, one position and UV per vertex, the colours, the normals, one triangle per face and the bones |
| `ExportProperties.ImportedWeightIff` | ModelingToolkit/AssimpModule/AssimpImporter.cs:89-112 | an imported vertex's weights are exactly the bone entries on it, tagged with the index of the bone's joint |
| `ExportProperties.ReimportedExportable` | ModelingToolkit/AssimpModule/AssimpExporter.cs:42-76 | an imported mesh whose vertices have UVs, whose weighing bones are named after joints and whose faces are the scene's triangles exports skeletally |
| `ExportProperties.RoundTripPositions` | ModelingToolkit/AssimpModule/AssimpExporter.cs:46-49 | import then export gives back the positions, and the UVs with the third component zeroed |
| `ExportProperties.RoundTripColors` | ModelingToolkit/AssimpModule/AssimpExporter.cs:59-73 | import then export gives back the colours and normals |
| `ExportProperties.RoundTripFaces` | ModelingToolkit/AssimpModule/AssimpExporter.cs:29-38 | import then export gives back the name, the material index, the faces and one bone per joint |
| `ExportProperties.MeshRoundTrips` | ModelingToolkit/AssimpModule/AssimpExporter.cs:28-84 | import then export gives back the name, the material index, the positions and the faces; the UVs with the third component zeroed; the colours and normals cut to the vertex count; and one bone per joint, named after the joint, whose entries `RoundTripWeights` states |
| `ExportProperties.RoundTripWeights` | ModelingToolkit/AssimpModule/AssimpExporter.cs:52-57 | after the round trip, bone j holds exactly the scene's entries of the bones whose name first occurs at joint j, with weight 0 written as 1 |
| `ExportProperties.UnmatchedBoneFails` | ModelingToolkit/AssimpModule/AssimpExporter.cs:54 | a weighing bone that names no joint makes the skeletal export of the imported mesh fail |
| `ExportProperties.ImportedValueReexports` | ModelingToolkit/AssimpModule/AssimpImporter.cs:61-132 | what the exporter reads of an imported mesh is the imported data, with the scene's face indices, all triangles |
| `ExportProperties.MaterialRoundTrips` | ModelingToolkit/AssimpModule/AssimpExporter.cs:14-24 | an imported material with a plain texture file name exports with its name and texture path back, qualified as the mode writes them, and unchanged for a single model |
| `SceneExportProperties.JointHangsUnderParent` | ModelingToolkit/AssimpModule/AssimpExporter.cs:93-110 | joint k's node is the last child of the root or of the first node named after its parent |
| `SceneExportProperties.AddModelSucceeds` | ModelingToolkit/AssimpModule/AssimpExporter.cs:147-218 | a model adds exactly when each of its meshes exports |
| `SceneExportProperties.AddModelRoot` | ModelingToolkit/AssimpModule/AssimpExporter.cs:128-220 | the root keeps its children and gains a node named after the model, holding the model.mesh nodes with the new mesh indices |
| `SceneExportProperties.AddModelMaterials` | ModelingToolkit/AssimpModule/AssimpExporter.cs:133-144 | the scene's materials are followed by the model's, prefixed |
| `SceneExportProperties.AddModelMeshList` | ModelingToolkit/AssimpModule/AssimpExporter.cs:147-212 | the scene's meshes are followed by the model's |
| `SceneExportProperties.AddModelMeshes` | ModelingToolkit/AssimpModule/AssimpExporter.cs:149-154 | each added mesh has no bones, the prefixed name, and its material index shifted past the earlier materials |
| `SceneExportProperties.AddModelMeshMaterial` | ModelingToolkit/AssimpModule/AssimpExporter.cs:130-154 | a mesh's shifted material index points at its own model's material |
| `SceneExportProperties.ModelStaysPlaced` | ModelingToolkit/AssimpModule/AssimpExporter.cs:125-221 | adding a model leaves the earlier models' materials, meshes and node where they were |
| `SceneExportProperties.NewModelPlaced` | ModelingToolkit/AssimpModule/AssimpExporter.cs:127-220 | a model added lands at the offsets of the models before it |
| `SceneExportProperties.AddedModels` | ModelingToolkit/AssimpModule/AssimpExporter.cs:123-223 | with all meshes exportable, the list exports, and every model's materials, meshes and node lie at the offsets of the models before it |

## Left out

- Floating point: coordinates, weights and matrix entries are unbounded reals. Float rounding, and the narrowing of `double` to `float` in the bounding boxes, are not modelled.
- `Matrix4x4.Decompose` (scale, rotation and translation, and the Euler angles) is not modelled arithmetically. A joint records which matrix each of its splits was taken from. Matrix products are real matrix products. Nothing is proved about them beyond their order.
- File I/O in `ImportScene` is replaced by parameters:
  - reading the file with Assimp: the scene is taken in memory;
  - `Path.GetDirectoryName`: the directory is a parameter;
  - loading the texture bitmap: left out.
- The bitmap of `MtMaterial` and its methods (`GetAsBitmapImageFromPath`, `GetAsBitmapImage`, `ExportAsPng`) are left out, and so is what the viewport flags do. So are `ToString`, `MtHelper`'s image and bounding-box helpers, and the file-export helpers of `AssimpUtils` (`ExportScene`, `ExportSceneWithDialog`), which call Assimp and a dialog.
- Exceptions are `Failure` values, not control flow. The exporter names each throwing access in `ExportError`, the importer's face checks are `FaceError`, and their messages are the C#'s strings.
- Object identity:
  - Assimp nodes are values, identified by their child-index path from the root. `node.Parent` is the path without its last index.
  - Vertices, faces, joints and materials are values held in sequences. Sharing between a face's vertices and the mesh's vertices is therefore not modelled.
  - Strips and meshes are objects. The model proves them fresh and distinct.
- Null strings are modelled as strings, so a null name is not distinguished from a value. `MtVertex.Weights` is never null.
- `Importer.ImportScene`: requires every mesh to be importable: each channel empty or at least as long as the vertex list, every weight naming an existing vertex, and every triangle's indices in range. Where these fail, the C# throws an index exception midway. That exception is not modelled.
- `Models.Model.CalculateJointAbsoluteMatrices`: requires every relative matrix to be set, every parent id to be in range, and a parent after its child to have an absolute matrix. Where these fail, the C# throws. That failure is not modelled.
- `Meshes.Mesh.SetFaceVertices`: requires each face's first three indices to be in range, where the C# would throw.
- `Meshes.Mesh.GetBoundingBox`, `Models.Model.GetBoundingBox`: require every vertex to have a position, where the C# would throw on `.Value`.
- `Path.Combine`, `Path.GetFileName` and `Path.GetFileNameWithoutExtension` follow the .NET rules for `\`, `/` and drive letters only. Invalid-character checks and other separators are not modelled.
- `AssimpScenes.FindNode`: searches the node, then its children depth-first, and ignores Assimp's internal name handling.
- Bone offset matrices and primitive types: `AssimpScenes.Bone` and `AssimpScenes.Mesh` have no field for them. The exporter always writes `Matrix3x3.Identity` as a bone's offset matrix (AssimpExporter.cs:38) and builds every mesh with `PrimitiveType.Triangle` (AssimpExporter.cs:29, 150). The importer reads neither.
- `TriangleStrips.TriangleStrip.AddFace`: requires the face to have at least three vertices. The C# indexes `newFace.Vertices[0..2]` and throws an index exception for a shorter face; that exception is not modelled. Both callers in `MtMesh` pass faces whose three vertices `SetFaceVertices` has just set.
- `ExportProperties.RoundTripWeights`: states the bone entries as a membership property (which entries are present), not their order within a bone.
