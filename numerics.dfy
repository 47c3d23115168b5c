/** The System.Numerics value types the object model uses. Coordinates and matrix
    entries are exact reals: single-precision rounding is not modelled. */
module Numerics {

  datatype Vector3 = Vector3(x: real, y: real, z: real)

  datatype Vector4 = Vector4(x: real, y: real, z: real, w: real)

  /** A 4x4 matrix in row-major order, as System.Numerics.Matrix4x4 (M11 .. M44). */
  datatype Matrix4x4 = Matrix4x4(
    m11: real, m12: real, m13: real, m14: real,
    m21: real, m22: real, m23: real, m24: real,
    m31: real, m32: real, m33: real, m34: real,
    m41: real, m42: real, m43: real, m44: real)

  const Identity := Matrix4x4(1.0, 0.0, 0.0, 0.0,
                              0.0, 1.0, 0.0, 0.0,
                              0.0, 0.0, 1.0, 0.0,
                              0.0, 0.0, 0.0, 1.0)

  /** Entry (r, c) of m, both 1-based. */
  function At(m: Matrix4x4, r: nat, c: nat): real
    requires 1 <= r <= 4 && 1 <= c <= 4
  {
    match (r, c)
    case (1, 1) => m.m11 case (1, 2) => m.m12 case (1, 3) => m.m13 case (1, 4) => m.m14
    case (2, 1) => m.m21 case (2, 2) => m.m22 case (2, 3) => m.m23 case (2, 4) => m.m24
    case (3, 1) => m.m31 case (3, 2) => m.m32 case (3, 3) => m.m33 case (3, 4) => m.m34
    case (4, 1) => m.m41 case (4, 2) => m.m42 case (4, 3) => m.m43 case (_, _) => m.m44
  }

  function Dot(a: Matrix4x4, b: Matrix4x4, r: nat, c: nat): real
    requires 1 <= r <= 4 && 1 <= c <= 4
  {
    At(a, r, 1) * At(b, 1, c) + At(a, r, 2) * At(b, 2, c) + At(a, r, 3) * At(b, 3, c) + At(a, r, 4) * At(b, 4, c)
  }

  /** The matrix product a * b (operator * of Matrix4x4). The proofs never look inside it. */
  function Mul(a: Matrix4x4, b: Matrix4x4): Matrix4x4
  {
    Matrix4x4(
      Dot(a, b, 1, 1), Dot(a, b, 1, 2), Dot(a, b, 1, 3), Dot(a, b, 1, 4),
      Dot(a, b, 2, 1), Dot(a, b, 2, 2), Dot(a, b, 2, 3), Dot(a, b, 2, 4),
      Dot(a, b, 3, 1), Dot(a, b, 3, 2), Dot(a, b, 3, 3), Dot(a, b, 3, 4),
      Dot(a, b, 4, 1), Dot(a, b, 4, 2), Dot(a, b, 4, 3), Dot(a, b, 4, 4))
  }
}
