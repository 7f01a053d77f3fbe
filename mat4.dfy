// The 4x4 matrix value stored in scenes and sprites (math/mat4.h). Only
// the identity is needed here; matrix arithmetic is not part of this model.
module Matrices {

  /** Sixteen row-major elements. */
  datatype Mat4 = Mat4(elements: seq<real>)

  /** mat4Identity */
  function Identity(): (m: Mat4)
    ensures |m.elements| == 16
    ensures forall i :: 0 <= i < 16 ==> m.elements[i] == if i % 5 == 0 then 1.0 else 0.0
  {
    Mat4([1.0, 0.0, 0.0, 0.0,
          0.0, 1.0, 0.0, 0.0,
          0.0, 0.0, 1.0, 0.0,
          0.0, 0.0, 0.0, 1.0])
  }

  /** The all-zero matrix of zero-filled storage. */
  const ZeroMat4: Mat4 := Mat4(seq(16, _ => 0.0))
}
