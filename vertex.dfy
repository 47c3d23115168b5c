/** MtVertex and the vertex-matching relation the triangle-strip builder uses. */
module Vertices {
  import opened Wrappers
  import opened Numerics
  import WeightPositions

  type WeightPosition = WeightPositions.WeightPosition

  /** The Weights list is never null in this model (the constructor always creates one). */
  datatype Vertex = Vertex(
    absolutePosition: Option<Vector3>,
    weights: seq<WeightPosition>,
    textureCoordinates: Option<Vector3>,
    color: Option<Vector4>,
    normal: Option<Vector3>)

  predicate HasWeights(v: Vertex) { |v.weights| > 0 }
  predicate HasTextureCoordinates(v: Vertex) { v.textureCoordinates.Some? }
  predicate HasColor(v: Vertex) { v.color.Some? }
  predicate HasNormal(v: Vertex) { v.normal.Some? }

  /** The parameterless constructor: nothing present and an empty weight list. */
  function New(): (v: Vertex)
    ensures v.absolutePosition == None && v.weights == []
    ensures !HasWeights(v) && !HasTextureCoordinates(v) && !HasColor(v) && !HasNormal(v)
  {
    Vertex(None, [], None, None, None)
  }

  /** The loop of Equals over the weight lists: every pair at the same index Equals. */
  function WeightsEqual(ws: seq<WeightPosition>, vs: seq<WeightPosition>): (r: bool)
    requires |ws| == |vs|
    ensures r <==> forall i :: 0 <= i < |ws| ==> WeightPositions.Equals(ws[i], vs[i])
    ensures r <==> ws == vs
  {
    if |ws| == 0 then true
    else if !WeightPositions.Equals(ws[0], vs[0]) then false
    else
      var rest := WeightsEqual(ws[1..], vs[1..]);
      assert rest ==> ws == [ws[0]] + ws[1..] == [vs[0]] + vs[1..] == vs;
      assert !rest ==> exists i :: 0 <= i < |ws| - 1 && ws[1..][i] != vs[1..][i];
      rest
  }

  /** MtVertex.Equals(second). A weighted receiver is compared by its weight lists and its
      position is ignored; an unweighted one is compared by position. UV, colour and normal
      must then agree, absent matching absent. */
  function Equals(a: Vertex, b: Vertex): (r: bool)
    ensures r <==>
      && (if HasWeights(a) then a.weights == b.weights else a.absolutePosition == b.absolutePosition)
      && a.textureCoordinates == b.textureCoordinates
      && a.color == b.color
      && a.normal == b.normal
  {
    if HasWeights(a) && |a.weights| != |b.weights| then false
    else if HasWeights(a) && !WeightsEqual(a.weights, b.weights) then false
    else if !HasWeights(a) && a.absolutePosition != b.absolutePosition then false
    else if a.textureCoordinates != b.textureCoordinates then false
    else if a.color != b.color then false
    else a.normal == b.normal
  }

  /** Equals with a nullable argument: null is never equal. */
  function EqualsNullable(a: Vertex, b: Option<Vertex>): (r: bool)
    ensures b == None ==> !r
    ensures b != None ==> (r <==> Equals(a, b.value))
  {
    b.Some? && Equals(a, b.value)
  }

  lemma EqualsIsReflexive(a: Vertex)
    ensures Equals(a, a)
  {
  }

  /** A weighted receiver ignores both positions. */
  lemma {:induction false} WeightedEqualsIgnoresPosition(a: Vertex, b: Vertex, p: Option<Vector3>, q: Option<Vector3>)
    requires HasWeights(a)
    ensures Equals(a, b) == Equals(a.(absolutePosition := p), b.(absolutePosition := q))
  {
  }

  /** An unweighted receiver ignores the argument's weights. */
  lemma UnweightedEqualsIgnoresOtherWeights(a: Vertex, b: Vertex, ws: seq<WeightPosition>)
    requires !HasWeights(a)
    ensures Equals(a, b) == Equals(a, b.(weights := ws))
  {
  }

  /** Equals is not symmetric: an unweighted vertex equals a weighted one at the same
      position, but not the other way round. */
  lemma EqualsIsNotSymmetric()
    ensures exists a: Vertex, b: Vertex :: Equals(a, b) && !Equals(b, a)
  {
    var a := New().(absolutePosition := Some(Vector3(0.0, 0.0, 0.0)));
    var b := a.(weights := [WeightPositions.New()]);
    assert Equals(a, b) && !Equals(b, a);
  }
}
