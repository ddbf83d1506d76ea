/** Placing one bone: where its distal end (its base joint) lands. */
module Maths {
  import opened Vectors
  import opened Rig

  /** The direction every bone points in before rotation: straight down, negative Z. */
  const BoneNoRotation := Vec3(0.0, 0.0, -1.0)

  /** The point `l` along direction `d` from `p`. */
  function Along(p: Vec3, d: Vec3, l: real): Vec3 {
    Vec3(p.x + d.x * l, p.y + d.y * l, p.z + d.z * l)
  }

  /**
   * The distal end of `bone` when its proximal end is at `head`. A bone of
   * length 0 ends on its head, and an unrotated bone hangs straight down from
   * it by its length.
   */
  function Place(head: Vec3, bone: Bone): (p: Vec3)
    ensures bone.length == 0.0 ==> p == head
    ensures bone.rotation == Identity ==> p == Vec3(head.x, head.y, head.z - bone.length)
  {
    AlongRotatedRest(head, bone);
    Along(head, Rotate(bone.rotation, BoneNoRotation), bone.length)
  }

  /** The facts Place promises, stated over its body. */
  lemma AlongRotatedRest(head: Vec3, bone: Bone)
    ensures bone.length == 0.0 ==> Along(head, Rotate(bone.rotation, BoneNoRotation), bone.length) == head
    ensures bone.rotation == Identity ==>
              Along(head, Rotate(bone.rotation, BoneNoRotation), bone.length) == Vec3(head.x, head.y, head.z - bone.length)
  {
    if bone.length == 0.0 {
      AlongZero(head, Rotate(bone.rotation, BoneNoRotation));
    }
    if bone.rotation == Identity {
      AlongUnrotated(head, bone);
    }
  }

  lemma AlongZero(p: Vec3, d: Vec3)
    ensures Along(p, d, 0.0) == p
  {
  }

  lemma AlongUnrotated(head: Vec3, bone: Bone)
    requires bone.rotation == Identity
    ensures Along(head, Rotate(bone.rotation, BoneNoRotation), bone.length) == Vec3(head.x, head.y, head.z - bone.length)
  {
    RotateIdentity(BoneNoRotation);
    AlongRest(head, bone.length);
  }

  lemma AlongRest(p: Vec3, l: real)
    ensures Along(p, BoneNoRotation, l) == Vec3(p.x, p.y, p.z - l)
  {
  }

  /**
   * Writes into the joint cell `base` the distal end of bone `bone` hung from
   * the joint cell `head`. The head position is read before the write, so
   * `head == base` moves that joint by the bone's offset.
   */
  method CalcBoneBaseFromBoneAndHead(head: JointId, bone: BoneId, base: JointId, bones: array<Bone>, joints: array<Vec3>)
    requires bones.Length == BONE_COUNT && joints.Length == JOINT_COUNT
    modifies joints
    ensures joints[..] == old(joints[..])[base.Index() := Place(old(joints[head.Index()]), bones[bone.Index()])]
  {
    joints[base.Index()] := Place(joints[head.Index()], bones[bone.Index()]);
  }

  /** The worked case: head at the origin, unrotated bone of length 2. */
  lemma PlaceUnrotatedExample(head: Vec3, bone: Bone)
    requires head == Zero && bone == Bone(2.0, Identity)
    ensures Place(head, bone) == Vec3(0.0, 0.0, -2.0)
  {
  }

  /** Placing the same unrotated unit bone twice from the origin lowers the point by 1, then by 2. */
  lemma PlaceUnrotatedTwice(p: Vec3, bone: Bone)
    requires p == Zero && bone == Bone(1.0, Identity)
    ensures Place(p, bone) == Vec3(0.0, 0.0, -1.0)
    ensures Place(Place(p, bone), bone) == Vec3(0.0, 0.0, -2.0)
  {
    var once := Place(p, bone);
    assert once == Vec3(0.0, 0.0, -1.0);
  }

  /** The squared norm of a quaternion; rotations have norm 1. */
  function NormSq(q: Quat): real {
    q.x * q.x + q.y * q.y + q.z * q.z + q.w * q.w
  }

  /** The rest direction rotated by `q`, in closed form. */
  lemma RotatedRest(q: Quat)
    ensures Rotate(q, BoneNoRotation)
         == Vec3(-2.0 * (q.x * q.z + q.w * q.y),
                 2.0 * (q.w * q.x - q.y * q.z),
                 q.x * q.x + q.y * q.y - q.z * q.z - q.w * q.w)
  {
  }

  /** The polynomial identity behind length preservation, with P = x^2 + y^2 and Q = z^2 + w^2. */
  lemma FourSquares(x: real, y: real, z: real, w: real)
    ensures 4.0 * (x * z + w * y) * (x * z + w * y) + 4.0 * (w * x - y * z) * (w * x - y * z)
         == 4.0 * (x * x + y * y) * (z * z + w * w)
  {
  }

  /**
   * A unit rotation keeps bone lengths: the base lies at distance |length|
   * from the head.
   */
  lemma PlaceKeepsLength(head: Vec3, bone: Bone)
    requires NormSq(bone.rotation) == 1.0
    ensures var d := Place(head, bone);
            var off := Vec3(d.x - head.x, d.y - head.y, d.z - head.z);
            Dot(off, off) == bone.length * bone.length
  {
    var q := bone.rotation;
    RotatedRest(q);
    var a := -2.0 * (q.x * q.z + q.w * q.y);
    var b := 2.0 * (q.w * q.x - q.y * q.z);
    var p := q.x * q.x + q.y * q.y;
    var r := q.z * q.z + q.w * q.w;
    var c := p - r;
    assert Rotate(q, BoneNoRotation) == Vec3(a, b, c);
    FourSquares(q.x, q.y, q.z, q.w);
    assert a * a + b * b == 4.0 * p * r;
    assert p + r == 1.0;
    assert a * a + b * b + c * c == 1.0 by {
      assert c * c == (p + r) * (p + r) - 4.0 * p * r;
    }
    AlongUnitKeepsLength(head, Vec3(a, b, c), bone.length);
  }

  /** Moving by `l` along a unit direction covers distance |l|. */
  lemma AlongUnitKeepsLength(p: Vec3, d: Vec3, l: real)
    requires Dot(d, d) == 1.0
    ensures var e := Along(p, d, l);
            var off := Vec3(e.x - p.x, e.y - p.y, e.z - p.z);
            Dot(off, off) == l * l
  {
    assert (d.x * l) * (d.x * l) + (d.y * l) * (d.y * l) + (d.z * l) * (d.z * l) == Dot(d, d) * (l * l);
  }

  /**
   * A unit rotation about the vertical axis leaves the rest direction where it
   * is: such a bone still hangs straight down, as an unrotated one does.
   */
  lemma TurnAboutVerticalKeepsRest(s: real, c: real)
    requires s * s + c * c == 1.0
    ensures Rotate(Quat(0.0, 0.0, s, c), BoneNoRotation) == BoneNoRotation
  {
    RotatedRest(Quat(0.0, 0.0, s, c));
    VerticalTurnKeepsRest(s, c);
  }

  /** The arithmetic behind TurnAboutVerticalKeepsRest. */
  lemma VerticalTurnKeepsRest(s: real, c: real)
    requires s * s + c * c == 1.0
    ensures Vec3(-2.0 * (0.0 * s + c * 0.0), 2.0 * (c * 0.0 - 0.0 * s), 0.0 * 0.0 + 0.0 * 0.0 - s * s - c * c)
         == BoneNoRotation
  {
  }

  /**
   * A quarter turn about Y (a half-angle sine and cosine of 1/sqrt 2) swings a
   * bone from straight down to the negative X direction.
   */
  lemma PlaceQuarterTurnAboutY(head: Vec3, bone: Bone, s: real)
    requires s > 0.0 && s * s == 0.5
    requires bone.rotation == Quat(0.0, s, 0.0, s)
    ensures Place(head, bone) == Vec3(head.x - bone.length, head.y, head.z)
  {
    RotatedRest(bone.rotation);
  }
}
