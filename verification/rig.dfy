/**
 * The named bones and joints of the rig and their lookup tables.
 *
 * A bone or joint in the rig is a shared mutable cell: the tree node and the
 * named table entry hold the same cell. Here every cell is a slot of a table
 * (an arena) and every handle is the id of its slot, so two handles alias
 * exactly when they carry the same id.
 */
module Rig {
  import opened Vectors

  const BONE_COUNT: nat := 9
  const JOINT_COUNT: nat := 8

  datatype BoneId =
    | Spine
    | LeftHipOffset
    | LeftUpperLeg
    | LeftLowerLeg
    | LeftFoot
    | RightHipOffset
    | RightUpperLeg
    | RightLowerLeg
    | RightFoot
  {
    /** The discriminant, used as the slot in the bone table. */
    function Index(): (i: nat)
      ensures i < BONE_COUNT
    {
      match this
      case Spine => 0
      case LeftHipOffset => 1
      case LeftUpperLeg => 2
      case LeftLowerLeg => 3
      case LeftFoot => 4
      case RightHipOffset => 5
      case RightUpperLeg => 6
      case RightLowerLeg => 7
      case RightFoot => 8
    }
  }

  datatype JointId =
    | Head
    | Hips
    | LeftHipJoint
    | LeftKnee
    | LeftAnkle
    | RightHipJoint
    | RightKnee
    | RightAnkle
  {
    /** The discriminant, used as the slot in the joint table. */
    function Index(): (i: nat)
      ensures i < JOINT_COUNT
    {
      match this
      case Head => 0
      case Hips => 1
      case LeftHipJoint => 2
      case LeftKnee => 3
      case LeftAnkle => 4
      case RightHipJoint => 5
      case RightKnee => 6
      case RightAnkle => 7
    }
  }

  /** Distinct ids name distinct slots: no two named bones or joints share a cell. */
  lemma IndexInjective()
    ensures forall a: BoneId, b: BoneId :: a.Index() == b.Index() ==> a == b
    ensures forall a: JointId, b: JointId :: a.Index() == b.Index() ==> a == b
  {
  }

  /** The contents of a bone cell: its length (metres) and its rotation. */
  datatype Bone = Bone(length: real, rotation: Quat)

  /** A fresh bone: length 0 and the identity rotation. */
  const DefaultBone := Bone(0.0, Identity)

  /** The bone table: one cell per BoneId. */
  type BoneTable = s: seq<Bone> | |s| == BONE_COUNT
    witness [DefaultBone, DefaultBone, DefaultBone, DefaultBone, DefaultBone,
             DefaultBone, DefaultBone, DefaultBone, DefaultBone]

  /** The joint table: one position cell per JointId. */
  type Positions = s: seq<Vec3> | |s| == JOINT_COUNT
    witness [Zero, Zero, Zero, Zero, Zero, Zero, Zero, Zero]

  /** The default bone table: every named bone is a fresh bone of its own. */
  function DefaultBones(): (r: BoneTable)
    ensures forall b: BoneId :: r[b.Index()] == Bone(0.0, Identity)
  {
    seq(BONE_COUNT, _ => DefaultBone)
  }

  /** The default joint table: every named joint is a cell of its own at the origin. */
  function DefaultJoints(): (r: Positions)
    ensures forall j: JointId :: r[j.Index()] == Vec3(0.0, 0.0, 0.0)
  {
    seq(JOINT_COUNT, _ => Zero)
  }

  /** Two joint tables that agree on every named joint are the same table. */
  lemma PositionsByName(a: Positions, b: Positions)
    requires forall j: JointId :: a[j.Index()] == b[j.Index()]
    ensures a == b
  {
    assert a[Head.Index()] == b[Head.Index()] && a[Hips.Index()] == b[Hips.Index()];
    assert a[LeftHipJoint.Index()] == b[LeftHipJoint.Index()] && a[LeftKnee.Index()] == b[LeftKnee.Index()];
    assert a[LeftAnkle.Index()] == b[LeftAnkle.Index()] && a[RightHipJoint.Index()] == b[RightHipJoint.Index()];
    assert a[RightKnee.Index()] == b[RightKnee.Index()] && a[RightAnkle.Index()] == b[RightAnkle.Index()];
  }
}
