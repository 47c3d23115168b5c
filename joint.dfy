/** MtJoint: one joint of a skeleton, with its transformation relative to the parent joint,
    the absolute one, and the scale/rotation/translation split of each. */
module Joints {
  import opened Wrappers
  import opened Numerics

  /** The scale, rotation (quaternion and Euler angles) and translation that
      Matrix4x4.Decompose extracts from `matrix`. The floating-point decomposition itself is
      not modelled: a split is known only by the matrix it came from. */
  datatype Decomposition = DecompositionOf(matrix: Matrix4x4)

  /** Name is never null here: the null of the constructor is the empty string. */
  datatype Joint = Joint(
    name: string,
    absoluteSplit: Option<Decomposition>,
    relativeSplit: Option<Decomposition>,
    absolute: Option<Matrix4x4>,
    relative: Option<Matrix4x4>,
    parentId: Option<int>,
    isVisible: bool)

  /** The parameterless constructor: everything absent, visible. */
  function New(): (j: Joint)
    ensures j.name == "" && j.absoluteSplit == None && j.relativeSplit == None
    ensures j.absolute == None && j.relative == None && j.parentId == None && j.isVisible
  {
    Joint("", None, None, None, None, None, true)
  }

  /** Decompose: each present matrix replaces its split; an absent one leaves its split alone. */
  function Decompose(j: Joint): (r: Joint)
    ensures r.name == j.name && r.absolute == j.absolute && r.relative == j.relative
    ensures r.parentId == j.parentId && r.isVisible == j.isVisible
    ensures r.absoluteSplit == if j.absolute.Some? then Some(DecompositionOf(j.absolute.value)) else j.absoluteSplit
    ensures r.relativeSplit == if j.relative.Some? then Some(DecompositionOf(j.relative.value)) else j.relativeSplit
  {
    j.(absoluteSplit := if j.absolute.Some? then Some(DecompositionOf(j.absolute.value)) else j.absoluteSplit,
       relativeSplit := if j.relative.Some? then Some(DecompositionOf(j.relative.value)) else j.relativeSplit)
  }

  /** Decomposing twice is decomposing once. */
  lemma DecomposeIsIdempotent(j: Joint)
    ensures Decompose(Decompose(j)) == Decompose(j)
  {
  }

  /** Once both matrices are present, the earlier splits are forgotten: the result depends only
      on the matrices and the other fields. */
  lemma DecomposeForgetsOldSplits(j: Joint, a: Option<Decomposition>, b: Option<Decomposition>)
    requires j.absolute.Some? && j.relative.Some?
    ensures Decompose(j.(absoluteSplit := a, relativeSplit := b)) == Decompose(j)
  {
  }
}
