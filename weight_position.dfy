/** MtWeightPosition: one skinning binding of a vertex (joint index, relative position, weight).
    Every field is nullable in the source and is an Option here. */
module WeightPositions {
  import opened Wrappers
  import opened Numerics

  datatype WeightPosition = WeightPosition(
    jointIndex: Option<int>,
    relativePosition: Option<Vector3>,
    weight: Option<real>)

  /** The parameterless constructor: every field absent. */
  function New(): (w: WeightPosition)
    ensures w.jointIndex == None && w.relativePosition == None && w.weight == None
  {
    WeightPosition(None, None, None)
  }

  /** Equals compares the three fields, an absent field being equal only to an absent one.
      The argument cannot be null here (the source dereferences it without a check). */
  function Equals(a: WeightPosition, b: WeightPosition): (r: bool)
    ensures r <==> a == b
  {
    if a.jointIndex != b.jointIndex then false
    else if a.relativePosition != b.relativePosition then false
    else a.weight == b.weight
  }

  lemma EqualsIsReflexive(a: WeightPosition)
    ensures Equals(a, a)
  {
  }

  lemma EqualsIsSymmetric(a: WeightPosition, b: WeightPosition)
    ensures Equals(a, b) == Equals(b, a)
  {
  }
}
