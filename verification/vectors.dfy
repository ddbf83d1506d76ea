/**
 * Real-valued 3-vectors and quaternions: the stand-in for the single-precision
 * vector library the rig is written against. Every operation is exact here.
 */
module Vectors {

  datatype Vec3 = Vec3(x: real, y: real, z: real)

  /** The origin, where every joint starts. */
  const Zero := Vec3(0.0, 0.0, 0.0)

  function Dot(a: Vec3, b: Vec3): real {
    a.x * b.x + a.y * b.y + a.z * b.z
  }

  /** A quaternion x i + y j + z k + w; rotations are meant to be unit quaternions. */
  datatype Quat = Quat(x: real, y: real, z: real, w: real)

  const Identity := Quat(0.0, 0.0, 0.0, 1.0)

  /**
   * Rotates `v` by `q`: the sandwich product q v q* in the form the vector
   * library evaluates it, v (w^2 - b.b) + b 2 (v.b) + (b x v) 2 w, with b the
   * vector part (x, y, z) of `q`.
   */
  function Rotate(q: Quat, v: Vec3): Vec3 {
    var s := q.w * q.w - (q.x * q.x + q.y * q.y + q.z * q.z);
    var d := 2.0 * (v.x * q.x + v.y * q.y + v.z * q.z);
    var w2 := 2.0 * q.w;
    Vec3(v.x * s + q.x * d + (q.y * v.z - q.z * v.y) * w2,
         v.y * s + q.y * d + (q.z * v.x - q.x * v.z) * w2,
         v.z * s + q.z * d + (q.x * v.y - q.y * v.x) * w2)
  }

  /** The identity quaternion leaves every vector where it is. */
  lemma RotateIdentity(v: Vec3)
    ensures Rotate(Identity, v) == v
  {
    assert Identity == Quat(0.0, 0.0, 0.0, 1.0);
  }
}
