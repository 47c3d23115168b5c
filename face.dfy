/** MtFace: a plain record of vertex indices, copies of the indexed vertices (filled in
    before strip building) and a winding flag. */
module Faces {
  import Vertices

  datatype Face = Face(vertexIndices: seq<int>, vertices: seq<Vertices.Vertex>, clockwise: bool)

  /** The parameterless constructor: no indices, no vertices, clockwise. */
  function New(): (f: Face)
    ensures f.vertexIndices == [] && f.vertices == [] && f.clockwise
  {
    Face([], [], true)
  }
}
