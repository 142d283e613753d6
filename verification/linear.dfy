/**
 * Vectors and matrices as the mesh tools see them (glam's `Vec2`, `Vec3`,
 * `Vec4`, `Mat3`, `Mat4`). Components are carried and compared but never
 * computed with: every floating-point operation the tools call is a field of
 * `Numerics`, so what is proved holds for any implementation of them.
 * Only the operations that are exact in IEEE arithmetic (transposition and
 * taking the upper-left 3x3 block) are defined here.
 */
module Linear {

  /** An `f32` component. The model stores and compares it, nothing more. */
  type F32 = real

  datatype Vec2 = Vec2(x: F32, y: F32)
  datatype Vec3 = Vec3(x: F32, y: F32, z: F32)
  datatype Vec4 = Vec4(x: F32, y: F32, z: F32, w: F32)

  /** Column-major 3x3 matrix, as glam stores it: three column vectors. */
  datatype Mat3 = Mat3(xAxis: Vec3, yAxis: Vec3, zAxis: Vec3)

  /** Column-major 4x4 matrix: four column vectors. */
  datatype Mat4 = Mat4(xAxis: Vec4, yAxis: Vec4, zAxis: Vec4, wAxis: Vec4)

  /** Bevy's `Transform`: translation, rotation quaternion, scale. */
  datatype Transform = Transform(translation: Vec3, rotation: Vec4, scale: Vec3)

  /** The floating-point operations the tools use, left uninterpreted. */
  datatype Numerics = Numerics(
    computeMatrix: Transform -> Mat4,        // Transform::compute_matrix
    transformPoint3: (Mat4, Vec3) -> Vec3,   // Mat4::transform_point3
    inverse: Mat4 -> Mat4,                   // Mat4::inverse
    mulVec3: (Mat3, Vec3) -> Vec3,           // Mat3::mul_vec3
    normalizeOrZero: Vec3 -> Vec3,           // Vec3::normalize_or_zero
    scale: (F32, Mat4) -> Mat4,              // f32 * Mat4
    add: (Mat4, Mat4) -> Mat4,               // Mat4 + Mat4
    mul: (Mat4, Mat4) -> Mat4                // Affine3A * Mat4, as a 4x4 product
  )

  /** Component `i` (0 = x, 1 = y, 2 = z, 3 = w) of a 4-vector. */
  function Comp4(v: Vec4, i: nat): F32
    requires i < 4
  {
    if i == 0 then v.x else if i == 1 then v.y else if i == 2 then v.z else v.w
  }

  /** Component `i` of a 3-vector. */
  function Comp3(v: Vec3, i: nat): F32
    requires i < 3
  {
    if i == 0 then v.x else if i == 1 then v.y else v.z
  }

  /** Column `c` of a 4x4 matrix. */
  function Col4(m: Mat4, c: nat): Vec4
    requires c < 4
  {
    if c == 0 then m.xAxis else if c == 1 then m.yAxis else if c == 2 then m.zAxis else m.wAxis
  }

  /** Column `c` of a 3x3 matrix. */
  function Col3(m: Mat3, c: nat): Vec3
    requires c < 3
  {
    if c == 0 then m.xAxis else if c == 1 then m.yAxis else m.zAxis
  }

  /** The entry in row `row`, column `col` of a 4x4 matrix. */
  function At4(m: Mat4, row: nat, col: nat): F32
    requires row < 4 && col < 4
  {
    Comp4(Col4(m, col), row)
  }

  /** The entry in row `row`, column `col` of a 3x3 matrix. */
  function At3(m: Mat3, row: nat, col: nat): F32
    requires row < 3 && col < 3
  {
    Comp3(Col3(m, col), row)
  }

  /** `Vec4Swizzles::xyz`: drop the w component. */
  function Xyz(v: Vec4): (r: Vec3)
    ensures forall i :: 0 <= i < 3 ==> Comp3(r, i) == Comp4(v, i)
  {
    Vec3(v.x, v.y, v.z)
  }

  /** `Mat4::transpose`: rows become columns. */
  function Transpose(m: Mat4): (r: Mat4)
    ensures forall row, col :: 0 <= row < 4 && 0 <= col < 4 ==> At4(r, row, col) == At4(m, col, row)
  {
    Mat4(Vec4(m.xAxis.x, m.yAxis.x, m.zAxis.x, m.wAxis.x),
         Vec4(m.xAxis.y, m.yAxis.y, m.zAxis.y, m.wAxis.y),
         Vec4(m.xAxis.z, m.yAxis.z, m.zAxis.z, m.wAxis.z),
         Vec4(m.xAxis.w, m.yAxis.w, m.zAxis.w, m.wAxis.w))
  }

  /** The `Mat3 { x_axis: m.x_axis.xyz(), .. }` construction: the upper-left 3x3 block. */
  function UpperLeft3(m: Mat4): (r: Mat3)
    ensures forall row, col :: 0 <= row < 3 && 0 <= col < 3 ==> At3(r, row, col) == At4(m, row, col)
  {
    Mat3(Xyz(m.xAxis), Xyz(m.yAxis), Xyz(m.zAxis))
  }

  /**
   * The normal matrix of a model matrix: the upper-left 3x3 block of the
   * transpose of its inverse, so entry (row, col) is entry (col, row) of the inverse.
   */
  function NormalMatrix(num: Numerics, model: Mat4): (r: Mat3)
    ensures forall row, col :: 0 <= row < 3 && 0 <= col < 3 ==>
              At3(r, row, col) == At4(num.inverse(model), col, row)
  {
    UpperLeft3(Transpose(num.inverse(model)))
  }

  /** A normal carried through a normal matrix and re-normalised (zero stays zero). */
  function TransformNormal(num: Numerics, normalMatrix: Mat3, n: Vec3): Vec3
  {
    num.normalizeOrZero(num.mulVec3(normalMatrix, n))
  }
}
