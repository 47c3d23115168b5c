/** AssimpUtils: conversions between the System.Numerics and Assimp value types, the list of
    skeleton nodes of a scene, the empty export scene, bone lookup and file-format extensions. */
module AssimpUtils {
  import opened Wrappers
  import N = Numerics
  import opened AssimpScenes

  // ---------------------------------------------------------------------------------------
  // Conversions.
  // ---------------------------------------------------------------------------------------

  /** Entry (r, c) of an Assimp matrix, both 1-based: row r is A, B, C or D. */
  function EntryAt(m: Matrix, r: nat, c: nat): real
    requires 1 <= r <= 4 && 1 <= c <= 4
  {
    match (r, c)
    case (1, 1) => m.a1 case (1, 2) => m.a2 case (1, 3) => m.a3 case (1, 4) => m.a4
    case (2, 1) => m.b1 case (2, 2) => m.b2 case (2, 3) => m.b3 case (2, 4) => m.b4
    case (3, 1) => m.c1 case (3, 2) => m.c2 case (3, 3) => m.c3 case (3, 4) => m.c4
    case (4, 1) => m.d1 case (4, 2) => m.d2 case (4, 3) => m.d3 case (_, _) => m.d4
  }

  /** The Numerics matrix is row-vector, the Assimp one column-vector: entry (r, c) of the
      result is entry (c, r) of the argument. */
  function ToAssimp(m: N.Matrix4x4): (a: Matrix)
    ensures forall r, c :: 1 <= r <= 4 && 1 <= c <= 4 ==> EntryAt(a, r, c) == N.At(m, c, r)
  {
    Matrix(m.m11, m.m21, m.m31, m.m41, m.m12, m.m22, m.m32, m.m42,
           m.m13, m.m23, m.m33, m.m43, m.m14, m.m24, m.m34, m.m44)
  }

  /** The transpose the other way round. */
  function ToNumerics(a: Matrix): (m: N.Matrix4x4)
    ensures forall r, c :: 1 <= r <= 4 && 1 <= c <= 4 ==> N.At(m, r, c) == EntryAt(a, c, r)
  {
    N.Matrix4x4(a.a1, a.b1, a.c1, a.d1, a.a2, a.b2, a.c2, a.d2,
                a.a3, a.b3, a.c3, a.d3, a.a4, a.b4, a.c4, a.d4)
  }

  lemma MatrixRoundTrips(m: N.Matrix4x4, a: Matrix)
    ensures ToNumerics(ToAssimp(m)) == m
    ensures ToAssimp(ToNumerics(a)) == a
  {
  }

  /** Both conversions keep the identity. */
  lemma IdentityConverts()
    ensures ToAssimp(N.Identity) == Identity && ToNumerics(Identity) == N.Identity
  {
  }

  function ToAssimpVector(v: N.Vector3): (w: Vector3D)
    ensures w.x == v.x && w.y == v.y && w.z == v.z
  {
    Vector3D(v.x, v.y, v.z)
  }

  function ToNumericsVector(w: Vector3D): (v: N.Vector3)
    ensures v.x == w.x && v.y == w.y && v.z == w.z
  {
    N.Vector3(w.x, w.y, w.z)
  }

  /** The colour channels (X, Y, Z, W) are (R, G, B, A). */
  function ToAssimpColor(c: N.Vector4): (d: Color4D)
    ensures d.r == c.x && d.g == c.y && d.b == c.z && d.a == c.w
  {
    Color4D(c.x, c.y, c.z, c.w)
  }

  function ToNumericsColor(d: Color4D): (c: N.Vector4)
    ensures c.x == d.r && c.y == d.g && c.z == d.b && c.w == d.a
  {
    N.Vector4(d.r, d.g, d.b, d.a)
  }

  lemma VectorRoundTrips(v: N.Vector3, w: Vector3D, c: N.Vector4, d: Color4D)
    ensures ToNumericsVector(ToAssimpVector(v)) == v && ToAssimpVector(ToNumericsVector(w)) == w
    ensures ToNumericsColor(ToAssimpColor(c)) == c && ToAssimpColor(ToNumericsColor(d)) == d
  {
  }

  // ---------------------------------------------------------------------------------------
  // The skeleton nodes of a scene.
  // ---------------------------------------------------------------------------------------

  const RootNodeName := "RootNode"

  /** q is a prefix of p (q is p itself or one of its ancestors). */
  predicate Extends(q: seq<nat>, p: seq<nat>)
  {
    |q| <= |p| && p[..|q|] == q
  }

  /** The node reached from n by rel is listed: no node on the way, itself included, has
      meshes, and it is not named "RootNode" (the nodes above it may be). */
  ghost predicate Listed(n: Node, rel: seq<nat>)
    decreases |rel|
  {
    && !HasMeshes(n)
    && if |rel| == 0 then n.name != RootNodeName
       else rel[0] < |n.children| && Listed(n.children[rel[0]], rel[1..])
  }

  /** The paths GetNodeAndChildren appends for the node at `path`, in order. */
  function Collect(n: Node, path: seq<nat>): seq<seq<nat>>
    decreases n, 1
  {
    if HasMeshes(n) then []
    else (if n.name != RootNodeName then [path] else []) + CollectChildren(n, path, 0)
  }

  /** The paths appended for the children from index i on. */
  function CollectChildren(n: Node, path: seq<nat>, i: nat): seq<seq<nat>>
    requires !HasMeshes(n)
    decreases n, 0, |n.children| - i
  {
    if i >= |n.children| then []
    else Collect(n.children[i], path + [i]) + CollectChildren(n, path, i + 1)
  }

  /** Every collected path lies under `path` and leads to a Listed node. */
  lemma {:induction false} CollectSound(n: Node, path: seq<nat>)
    decreases n, 1
    ensures forall k :: 0 <= k < |Collect(n, path)| ==>
      Extends(path, Collect(n, path)[k]) && Listed(n, Collect(n, path)[k][|path|..])
  {
    if !HasMeshes(n) {
      var own: seq<seq<nat>> := if n.name != RootNodeName then [path] else [];
      var kids := CollectChildren(n, path, 0);
      CollectChildrenSound(n, path, 0);
      assert path[|path|..] == [];
      forall k | 0 <= k < |own + kids|
        ensures Extends(path, (own + kids)[k]) && Listed(n, (own + kids)[k][|path|..])
      {
        if k >= |own| {
          assert (own + kids)[k] == kids[k - |own|];
          assert Extends(path, kids[k - |own|]) && Listed(n, kids[k - |own|][|path|..]);
        } else {
          assert (own + kids)[k] == path;
        }
      }
    }
  }

  lemma {:induction false} CollectChildrenSound(n: Node, path: seq<nat>, i: nat)
    requires !HasMeshes(n)
    decreases n, 0, |n.children| - i
    ensures forall k :: 0 <= k < |CollectChildren(n, path, i)| ==>
      var p := CollectChildren(n, path, i)[k];
      Extends(path, p) && |p| > |path| && p[|path|] >= i && Listed(n, p[|path|..])
  {
    if i < |n.children| {
      var own := Collect(n.children[i], path + [i]);
      CollectSound(n.children[i], path + [i]);
      ChildPathsUnder(n, path, i, own);
      var rest := CollectChildren(n, path, i + 1);
      CollectChildrenSound(n, path, i + 1);
      forall k | 0 <= k < |own + rest|
        ensures var p := (own + rest)[k];
          Extends(path, p) && |p| > |path| && p[|path|] >= i && Listed(n, p[|path|..])
      {
        if k >= |own| {
          assert (own + rest)[k] == rest[k - |own|];
        } else {
          assert (own + rest)[k] == own[k];
        }
      }
    }
  }

  /** The paths collected below child i lie under path + [i], and are listed from n. */
  lemma ChildPathsUnder(n: Node, path: seq<nat>, i: nat, own: seq<seq<nat>>)
    requires !HasMeshes(n) && i < |n.children|
    requires forall k :: 0 <= k < |own| ==> Extends(path + [i], own[k]) && Listed(n.children[i], own[k][|path + [i]|..])
    ensures forall k :: 0 <= k < |own| ==>
      && Extends(path, own[k]) && |own[k]| > |path| && own[k][|path|] == i
      && Listed(n, own[k][|path|..])
  {
    forall k | 0 <= k < |own|
      ensures Extends(path, own[k]) && |own[k]| > |path| && own[k][|path|] == i
      ensures Listed(n, own[k][|path|..])
    {
      var p := own[k];
      assert p[..|path| + 1] == path + [i];
      assert p[..|path|] == p[..|path| + 1][..|path|];
      assert p[|path|] == p[..|path| + 1][|path|];
      assert p[|path|..][1..] == p[|path| + 1..];
    }
  }

  /** Every node Listed from n is collected: the characterisation holds in both directions. */
  lemma {:induction false} ListedIsCollected(n: Node, path: seq<nat>, rel: seq<nat>)
    requires Listed(n, rel)
    decreases n, 1
    ensures path + rel in Collect(n, path)
  {
    if |rel| == 0 {
      assert path + rel == path;
      assert Collect(n, path)[0] == path;
    } else {
      ListedIsCollectedBelow(n, path, 0, rel);
      CollectedChildrenInCollect(n, path);
    }
  }

  lemma {:induction false} ListedIsCollectedBelow(n: Node, path: seq<nat>, i: nat, rel: seq<nat>)
    requires |rel| > 0 && i <= rel[0] && Listed(n, rel)
    decreases n, 0, |n.children| - i
    ensures path + rel in CollectChildren(n, path, i)
  {
    var own := Collect(n.children[i], path + [i]);
    var rest := CollectChildren(n, path, i + 1);
    assert CollectChildren(n, path, i) == own + rest;
    if i == rel[0] {
      ListedIsCollected(n.children[i], path + [i], rel[1..]);
      assert path + [i] + rel[1..] == path + rel;
    } else {
      ListedIsCollectedBelow(n, path, i + 1, rel);
    }
  }

  /** What the children give is part of what the node gives. */
  lemma CollectedChildrenInCollect(n: Node, path: seq<nat>)
    requires !HasMeshes(n)
    ensures forall p :: p in CollectChildren(n, path, 0) ==> p in Collect(n, path)
  {
  }

  /** A listed node has no meshes, nor does any node above it, and it is not named
      "RootNode". */
  lemma {:induction false} ListedAvoidsMeshes(n: Node, rel: seq<nat>, k: nat)
    requires Listed(n, rel) && k <= |rel|
    decreases |rel|
    ensures NodeAt(n, rel[..k]).Some? && !HasMeshes(NodeAt(n, rel[..k]).value)
    ensures NodeAt(n, rel).Some? && NodeAt(n, rel).value.name != RootNodeName
  {
    if |rel| > 0 {
      ListedAvoidsMeshes(n.children[rel[0]], rel[1..], if k == 0 then 0 else k - 1);
      if k > 0 {
        assert rel[..k][1..] == rel[1..][..k - 1];
      }
    }
  }

  /** No later path is a prefix of an earlier one: no path is listed twice, and the listed
      ancestors of a node come before it. */
  predicate AncestorsFirst(ps: seq<seq<nat>>)
  {
    forall j, k :: 0 <= j < k < |ps| ==> !Extends(ps[k], ps[j])
  }

  lemma ConcatAncestorsFirst(a: seq<seq<nat>>, b: seq<seq<nat>>)
    requires AncestorsFirst(a) && AncestorsFirst(b)
    requires forall j, k :: 0 <= j < |a| && 0 <= k < |b| ==> !Extends(b[k], a[j])
    ensures AncestorsFirst(a + b)
  {
    forall j, k | 0 <= j < k < |a + b|
      ensures !Extends((a + b)[k], (a + b)[j])
    {
      if k < |a| {
        assert (a + b)[k] == a[k] && (a + b)[j] == a[j];
      } else if j < |a| {
        assert (a + b)[k] == b[k - |a|] && (a + b)[j] == a[j];
      } else {
        assert (a + b)[k] == b[k - |a|] && (a + b)[j] == b[j - |a|];
      }
    }
  }

  lemma {:induction false} CollectAncestorsFirst(n: Node, path: seq<nat>)
    decreases n, 1
    ensures AncestorsFirst(Collect(n, path))
  {
    if !HasMeshes(n) {
      var own: seq<seq<nat>> := if n.name != RootNodeName then [path] else [];
      var kids := CollectChildren(n, path, 0);
      CollectChildrenAncestorsFirst(n, path, 0);
      CollectChildrenSound(n, path, 0);
      ConcatAncestorsFirst(own, kids);
    }
  }

  lemma {:induction false} CollectChildrenAncestorsFirst(n: Node, path: seq<nat>, i: nat)
    requires !HasMeshes(n)
    decreases n, 0, |n.children| - i
    ensures AncestorsFirst(CollectChildren(n, path, i))
  {
    if i < |n.children| {
      var own := Collect(n.children[i], path + [i]);
      var rest := CollectChildren(n, path, i + 1);
      CollectAncestorsFirst(n.children[i], path + [i]);
      CollectChildrenAncestorsFirst(n, path, i + 1);
      CollectSound(n.children[i], path + [i]);
      ChildPathsUnder(n, path, i, own);
      CollectChildrenSound(n, path, i + 1);
      forall j, k | 0 <= j < |own| && 0 <= k < |rest|
        ensures !Extends(rest[k], own[j])
      {
        assert own[j][|path|] == i && rest[k][|path|] > i;
      }
      ConcatAncestorsFirst(own, rest);
    }
  }

  /** The list List<Node> that GetNodeAndChildren appends to; a node is its path. */
  class NodeList {
    var nodes: seq<seq<nat>>

    constructor ()
      ensures nodes == []
    {
      nodes := [];
    }
  }

  /** Appends the paths of the node and its subtree in pre-order, skipping mesh nodes with
      their subtrees and the node named "RootNode" (but not its children). */
  method GetNodeAndChildren(node: Node, path: seq<nat>, nodeList: NodeList)
    modifies nodeList
    decreases node
    ensures nodeList.nodes == old(nodeList.nodes) + Collect(node, path)
  {
    if HasMeshes(node) {
      assert old(nodeList.nodes) + Collect(node, path) == nodeList.nodes;
      return;
    }
    if node.name != RootNodeName {
      nodeList.nodes := nodeList.nodes + [path];
    }
    ghost var own: seq<seq<nat>> := if node.name != RootNodeName then [path] else [];
    var i := 0;
    while i < |node.children|
      invariant 0 <= i <= |node.children|
      invariant nodeList.nodes + CollectChildren(node, path, i) == old(nodeList.nodes) + own + CollectChildren(node, path, 0)
    {
      ghost var before := nodeList.nodes;
      GetNodeAndChildren(node.children[i], path + [i], nodeList);
      assert CollectChildren(node, path, i) == Collect(node.children[i], path + [i]) + CollectChildren(node, path, i + 1);
      assert before + CollectChildren(node, path, i) == nodeList.nodes + CollectChildren(node, path, i + 1);
      i := i + 1;
    }
    assert CollectChildren(node, path, i) == [];
    assert nodeList.nodes + CollectChildren(node, path, i) == nodeList.nodes;
    assert Collect(node, path) == own + CollectChildren(node, path, 0);
  }

  /** The skeleton nodes of the scene, as paths from its root. */
  method GetNodeList(scene: Scene) returns (nodes: seq<seq<nat>>)
    ensures nodes == Collect(scene.rootNode, [])
  {
    var nodeList := new NodeList();
    GetNodeAndChildren(scene.rootNode, [], nodeList);
    nodes := nodeList.nodes;
  }

  /** What GetNodeList returns, in its own terms: exactly the Listed nodes, each once, and
      every ancestor of a listed node that is listed comes before it. */
  lemma NodeListFacts(root: Node)
    ensures forall p :: p in Collect(root, []) <==> Listed(root, p)
    ensures AncestorsFirst(Collect(root, []))
  {
    CollectSound(root, []);
    forall p
      ensures p in Collect(root, []) <==> Listed(root, p)
    {
      if Listed(root, p) {
        ListedIsCollected(root, [], p);
        assert [] + p == p;
      }
      if p in Collect(root, []) {
        var none: seq<nat> := [];
        assert p[|none|..] == p;
      }
    }
    CollectAncestorsFirst(root, []);
  }

  /** An empty scene whose root node is named "RootNode". */
  function GetBaseScene(): (scene: Scene)
    ensures scene.rootNode == NewNode(RootNodeName) && scene.materials == [] && scene.meshes == []
  {
    Scene(NewNode(RootNodeName), [], [])
  }

  /** The root of the base scene is skipped, so it has no skeleton nodes. */
  lemma BaseSceneHasNoSkeleton()
    ensures Collect(GetBaseScene().rootNode, []) == []
  {
  }

  // ---------------------------------------------------------------------------------------
  // Bones and formats.
  // ---------------------------------------------------------------------------------------

  /** The first bone with the given name, or null. */
  method FindBone(bones: seq<Bone>, boneName: string) returns (r: Option<Bone>)
    ensures r.None? <==> forall i :: 0 <= i < |bones| ==> bones[i].name != boneName
    ensures r.Some? ==> exists i :: (0 <= i < |bones| && bones[i] == r.value && bones[i].name == boneName &&
      forall j :: 0 <= j < i ==> bones[j].name != boneName)
  {
    var i := 0;
    while i < |bones|
      invariant 0 <= i <= |bones|
      invariant forall j :: 0 <= j < i ==> bones[j].name != boneName
    {
      if bones[i].name == boneName {
        return Some(bones[i]);
      }
      i := i + 1;
    }
    return None;
  }

  datatype FileFormat =
    | collada | fbx | fbxa | obj
    | x | stp | objnomtl | stl | stlb | ply | plyb
    | gltf2 | glb2 | gltf | glb | assbin | assxml | x3d | m3d | m3da | pbrt | assjson

  /** format.ToString(): the identifier of the enum member. */
  function FormatName(f: FileFormat): string
  {
    match f
    case collada => "collada" case fbx => "fbx" case fbxa => "fbxa" case obj => "obj"
    case x => "x" case stp => "stp" case objnomtl => "objnomtl" case stl => "stl" case stlb => "stlb"
    case ply => "ply" case plyb => "plyb" case gltf2 => "gltf2" case glb2 => "glb2" case gltf => "gltf"
    case glb => "glb" case assbin => "assbin" case assxml => "assxml" case x3d => "x3d" case m3d => "m3d"
    case m3da => "m3da" case pbrt => "pbrt" case assjson => "assjson"
  }

  /** The extension a format's files use. */
  function GetFormatFileExtension(f: FileFormat): (ext: string)
    ensures f == collada ==> ext == "dae"
    ensures f == fbx || f == fbxa ==> ext == "fbx"
    ensures f != collada && f != fbx && f != fbxa ==> ext == FormatName(f)
  {
    match f
    case collada => "dae"
    case fbx => "fbx"
    case fbxa => "fbx"
    case _ => FormatName(f)
  }

  /** The format an extension belongs to, fbxa aside (it shares "fbx" with fbx). */
  function FormatOfExtension(ext: string): Option<FileFormat>
  {
    if ext == "dae" then Some(collada) else if ext == "fbx" then Some(fbx) else if ext == "obj" then Some(obj)
    else if ext == "x" then Some(x) else if ext == "stp" then Some(stp) else if ext == "objnomtl" then Some(objnomtl)
    else if ext == "stl" then Some(stl) else if ext == "stlb" then Some(stlb) else if ext == "ply" then Some(ply)
    else if ext == "plyb" then Some(plyb) else if ext == "gltf2" then Some(gltf2) else if ext == "glb2" then Some(glb2)
    else if ext == "gltf" then Some(gltf) else if ext == "glb" then Some(glb) else if ext == "assbin" then Some(assbin)
    else if ext == "assxml" then Some(assxml) else if ext == "x3d" then Some(x3d) else if ext == "m3d" then Some(m3d)
    else if ext == "m3da" then Some(m3da) else if ext == "pbrt" then Some(pbrt) else if ext == "assjson" then Some(assjson)
    else None
  }

  /** The extension identifies the format, except that fbx and fbxa share one. */
  lemma ExtensionIdentifiesFormat(f: FileFormat)
    ensures FormatOfExtension(GetFormatFileExtension(f)) == Some(if f == fbxa then fbx else f)
  {
  }

  /** Hence two formats with one extension are equal or are fbx and fbxa. */
  lemma SameExtensionSameFormat(f: FileFormat, g: FileFormat)
    requires GetFormatFileExtension(f) == GetFormatFileExtension(g)
    ensures f == g || (f in {fbx, fbxa} && g in {fbx, fbxa})
  {
    ExtensionIdentifiesFormat(f);
    ExtensionIdentifiesFormat(g);
  }
}
