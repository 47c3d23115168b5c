/** The parts of an Assimp scene the importer and exporter touch, as plain values.

    A node is known by its path: the child indices leading to it from the root, so the root is
    [] and the parent of a node is its path without the last index. Appending a child never
    changes the path of an existing node, which is what lets a path stand for a reference. */
module AssimpScenes {
  import opened Wrappers

  datatype Vector3D = Vector3D(x: real, y: real, z: real)

  datatype Color4D = Color4D(r: real, g: real, b: real, a: real)

  /** Assimp.Matrix4x4: rows A to D, columns 1 to 4. */
  datatype Matrix = Matrix(
    a1: real, a2: real, a3: real, a4: real,
    b1: real, b2: real, b3: real, b4: real,
    c1: real, c2: real, c3: real, c4: real,
    d1: real, d2: real, d3: real, d4: real)

  const Identity := Matrix(1.0, 0.0, 0.0, 0.0,
                           0.0, 1.0, 0.0, 0.0,
                           0.0, 0.0, 1.0, 0.0,
                           0.0, 0.0, 0.0, 1.0)

  datatype Node = Node(name: string, transform: Matrix, meshIndices: seq<int>, children: seq<Node>)

  /** new Assimp.Node(name): identity transform, no meshes, no children. */
  function NewNode(name: string): (n: Node)
    ensures n.name == name && n.transform == Identity && n.meshIndices == [] && n.children == []
  {
    Node(name, Identity, [], [])
  }

  predicate HasMeshes(n: Node) { |n.meshIndices| > 0 }

  datatype VertexWeight = VertexWeight(vertexId: int, weight: real)

  /** The offset matrix of a bone is not modelled (the exporter always passes the identity). */
  datatype Bone = Bone(name: string, vertexWeights: seq<VertexWeight>)

  datatype Face = Face(indices: seq<int>)

  /** A mesh with its first texture-coordinate and colour channels. */
  datatype Mesh = Mesh(
    name: string,
    materialIndex: int,
    vertices: seq<Vector3D>,
    textureCoordinates: seq<Vector3D>,
    vertexColors: seq<Color4D>,
    normals: seq<Vector3D>,
    bones: seq<Bone>,
    faces: seq<Face>,
    uvComponentCount: int)

  /** new Assimp.Mesh(name, PrimitiveType.Triangle): everything empty. */
  function NewMesh(name: string): (m: Mesh)
    ensures m.name == name && m.vertices == [] && m.textureCoordinates == [] && m.vertexColors == []
    ensures m.normals == [] && m.bones == [] && m.faces == [] && m.materialIndex == 0 && m.uvComponentCount == 0
  {
    Mesh(name, 0, [], [], [], [], [], [], 0)
  }

  datatype TextureType = NoTexture | Diffuse

  datatype TextureSlot = TextureSlot(filePath: string, textureType: TextureType)

  datatype Material = Material(name: string, textureDiffuse: TextureSlot)

  datatype Scene = Scene(rootNode: Node, materials: seq<Material>, meshes: seq<Mesh>)

  // ---------------------------------------------------------------------------------------
  // Paths into the node tree.
  // ---------------------------------------------------------------------------------------

  /** The node at the end of the path, if every index on it exists. */
  function NodeAt(n: Node, path: seq<nat>): Option<Node>
    decreases |path|
  {
    if |path| == 0 then Some(n)
    else if path[0] < |n.children| then NodeAt(n.children[path[0]], path[1..])
    else None
  }

  lemma {:induction false} NodeAtAppend(n: Node, path: seq<nat>, i: nat)
    requires NodeAt(n, path).Some? && i < |NodeAt(n, path).value.children|
    decreases |path|
    ensures NodeAt(n, path + [i]) == Some(NodeAt(n, path).value.children[i])
  {
    if |path| == 0 {
      assert ([] + [i])[1..] == [];
    } else {
      assert (path + [i])[1..] == path[1..] + [i];
      NodeAtAppend(n.children[path[0]], path[1..], i);
    }
  }

  /** The node with the given name, looked up as Assimp's FindNode does: the node itself,
      then each child's subtree in order. */
  function FindNode(n: Node, name: string): (r: Option<seq<nat>>)
    decreases n, 1
    ensures r.Some? ==> NodeAt(n, r.value).Some? && NodeAt(n, r.value).value.name == name
  {
    if n.name == name then Some([]) else FindInChildren(n, name, 0)
  }

  function FindInChildren(n: Node, name: string, i: nat): (r: Option<seq<nat>>)
    decreases n, 0, |n.children| - i
    ensures r.Some? ==> NodeAt(n, r.value).Some? && NodeAt(n, r.value).value.name == name
  {
    if i >= |n.children| then None
    else
      match FindNode(n.children[i], name)
      case Some(p) =>
        assert ([i] + p)[1..] == p;
        Some([i] + p)
      case None => FindInChildren(n, name, i + 1)
  }

  /** Some node of the tree carries the name. */
  ghost predicate Named(n: Node, name: string)
  {
    exists p: seq<nat> :: NodeAt(n, p).Some? && NodeAt(n, p).value.name == name
  }

  /** FindNode fails only when no node of the tree carries the name. */
  lemma {:induction false} FindNodeComplete(n: Node, name: string, p: seq<nat>)
    requires NodeAt(n, p).Some? && NodeAt(n, p).value.name == name
    decreases n, 1
    ensures FindNode(n, name).Some?
  {
    if n.name != name {
      FindInChildrenComplete(n, name, 0, p);
    }
  }

  lemma {:induction false} FindInChildrenComplete(n: Node, name: string, i: nat, p: seq<nat>)
    requires |p| > 0 && i <= p[0] && NodeAt(n, p).Some? && NodeAt(n, p).value.name == name
    decreases n, 0, |n.children| - i
    ensures FindInChildren(n, name, i).Some?
  {
    if FindNode(n.children[i], name).None? {
      if i == p[0] {
        FindNodeComplete(n.children[i], name, p[1..]);
      } else {
        FindInChildrenComplete(n, name, i + 1, p);
      }
    }
  }

  /** FindNode finds a node exactly when some node carries the name. */
  lemma FindNodeIffNamed(n: Node, name: string)
    ensures FindNode(n, name).Some? <==> Named(n, name)
  {
    if Named(n, name) {
      var p :| NodeAt(n, p).Some? && NodeAt(n, p).value.name == name;
      FindNodeComplete(n, name, p);
    }
    if FindNode(n, name).Some? {
      var p := FindNode(n, name).value;
      assert NodeAt(n, p).Some? && NodeAt(n, p).value.name == name;
    }
  }

  /** Children.Add on the node at the path; the new child's path is the path plus its index. */
  function AddChild(n: Node, path: seq<nat>, child: Node): (r: Node)
    requires NodeAt(n, path).Some?
    decreases |path|
    ensures r.name == n.name && r.transform == n.transform && r.meshIndices == n.meshIndices
  {
    if |path| == 0 then n.(children := n.children + [child])
    else n.(children := n.children[path[0] := AddChild(n.children[path[0]], path[1..], child)])
  }

  /** The node at the path gains the child as its last child and is otherwise unchanged. */
  lemma {:induction false} AddChildAppends(n: Node, path: seq<nat>, child: Node)
    requires NodeAt(n, path).Some?
    decreases |path|
    ensures var before, after := NodeAt(n, path).value, NodeAt(AddChild(n, path, child), path);
      && after.Some?
      && after.value == before.(children := before.children + [child])
  {
    if |path| > 0 {
      AddChildAppends(n.children[path[0]], path[1..], child);
    }
  }

  /** Every node that was there is still there, under the same path and with the same name,
      transform and meshes. */
  lemma {:induction false} AddChildKeeps(n: Node, path: seq<nat>, child: Node, q: seq<nat>)
    requires NodeAt(n, path).Some? && NodeAt(n, q).Some?
    decreases |q|
    ensures var before, after := NodeAt(n, q).value, NodeAt(AddChild(n, path, child), q);
      && after.Some?
      && after.value.name == before.name && after.value.transform == before.transform
      && after.value.meshIndices == before.meshIndices
  {
    if |q| > 0 && |path| > 0 && q[0] == path[0] {
      AddChildKeeps(n.children[path[0]], path[1..], child, q[1..]);
    }
  }

  /** The added child sits under the path, at the index after the former last child. */
  lemma AddChildPlaces(n: Node, path: seq<nat>, child: Node)
    requires NodeAt(n, path).Some?
    ensures var r := AddChild(n, path, child);
      NodeAt(r, path + [|NodeAt(n, path).value.children|]) == Some(child)
  {
    AddChildAppends(n, path, child);
    var r := AddChild(n, path, child);
    NodeAtAppend(r, path, |NodeAt(n, path).value.children|);
  }

  /** After the addition, the child's name is found and every name found before still is. */
  lemma AddChildNamed(n: Node, path: seq<nat>, child: Node, name: string)
    requires NodeAt(n, path).Some?
    ensures Named(AddChild(n, path, child), child.name)
    ensures Named(n, name) ==> Named(AddChild(n, path, child), name)
  {
    AddChildPlaces(n, path, child);
    if Named(n, name) {
      var q :| NodeAt(n, q).Some? && NodeAt(n, q).value.name == name;
      AddChildKeeps(n, path, child, q);
    }
  }
}
