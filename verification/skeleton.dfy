/**
 * The skeleton object: a rig tree, the bone table and the joint table it
 * shares with the tree, and the joint the root hangs from.
 *
 * Tree nodes and the named tables alias the same bone and joint cells. Here
 * each cell is an entry of an array and both the tree and the named accessors
 * refer to it by its id, so a write through either is seen by the other.
 */
module Skeleton {
  import opened Wrappers
  import opened Vectors
  import opened Tree
  import opened Rig
  import opened Maths
  import opened Evaluation
  import opened DefaultRig

  class Skeleton {
    const tree: RigTree
    const bones: array<Bone>
    const joints: array<Vec3>
    /** The joint the root bone hangs from. */
    var head: JointId

    ghost predicate Valid()
      reads this
    {
      bones.Length == BONE_COUNT && joints.Length == JOINT_COUNT
    }

    /** A skeleton over the given tree, tables and head joint. */
    constructor New(tree: RigTree, bones: BoneTable, joints: Positions, head: JointId)
      ensures Valid()
      ensures this.tree == tree && this.head == head
      ensures this.bones[..] == bones && this.joints[..] == joints
      ensures fresh(this.bones) && fresh(this.joints)
    {
      this.tree := tree;
      this.bones := new Bone[BONE_COUNT](i requires 0 <= i < BONE_COUNT => bones[i]);
      this.joints := new Vec3[JOINT_COUNT](i requires 0 <= i < JOINT_COUNT => joints[i]);
      this.head := head;
    }

    /**
     * The default skeleton: the default tree over default bones and joints,
     * hung from the head joint of the table.
     */
    constructor Default()
      ensures Valid()
      ensures tree == DefaultTree() && head == Head
      ensures bones[..] == DefaultBones() && joints[..] == DefaultJoints()
      ensures fresh(bones) && fresh(joints)
    {
      var b := new Bone[BONE_COUNT](_ => DefaultBone);
      var j := new Vec3[JOINT_COUNT](_ => Zero);
      assert b[..] == DefaultBones();
      assert j[..] == DefaultJoints();
      tree := DefaultTree();
      bones := b;
      joints := j;
      head := Head;
    }

    /**
     * The bone cell the table names `id`: the very cell every tree node
     * carrying `id` reads when it is placed.
     */
    function BoneAt(id: BoneId): (b: Bone)
      requires Valid()
      reads this, bones
      ensures forall n | n in Subtrees(tree) && n.value.bone == id :: b == bones[n.value.bone.Index()]
    {
      bones[id.Index()]
    }

    /**
     * The position in the joint cell the table names `id`: the very cell
     * every tree node carrying `id` writes when it is placed.
     */
    function JointAt(id: JointId): (p: Vec3)
      requires Valid()
      reads this, joints
      ensures forall n | n in Subtrees(tree) && n.value.joint == Some(id) :: p == joints[n.value.joint.value.Index()]
    {
      joints[id.Index()]
    }

    /** Sets the length of bone `id`; its rotation and every other bone stay. */
    method SetBoneLength(id: BoneId, length: real)
      requires Valid()
      modifies bones
      ensures bones[..] == old(bones[..])[id.Index() := Bone(length, old(bones[id.Index()]).rotation)]
    {
      bones[id.Index()] := Bone(length, bones[id.Index()].rotation);
    }

    /** Sets the rotation of bone `id`; its length and every other bone stay. */
    method SetBoneRotation(id: BoneId, rotation: Quat)
      requires Valid()
      modifies bones
      ensures bones[..] == old(bones[..])[id.Index() := Bone(old(bones[id.Index()]).length, rotation)]
    {
      bones[id.Index()] := Bone(bones[id.Index()].length, rotation);
    }

    /** Sets the position of joint `id`; every other joint stays. */
    method SetJointPosition(id: JointId, position: Vec3)
      requires Valid()
      modifies joints
      ensures joints[..] == old(joints[..])[id.Index() := position]
    {
      joints[id.Index()] := position;
    }

    /**
     * Walks the tree from the root, hanging it from `head`, and writes every
     * joint the tree names. Fails exactly when a node without a joint has a
     * child; the bones are never changed, neither is a joint the tree does
     * not name, and when the tree is well formed each joint ends up at its
     * parent's position plus its bone's offset.
     */
    method Evaluate() returns (r: Outcome)
      requires Valid()
      modifies joints
      ensures (r, joints[..]) == Eval(tree, head, bones[..], old(joints[..]), Place)
      ensures r == Ok <==> WellFormed(tree)
      ensures r != Ok ==> r == Err(InvalidStructure)
      ensures forall j: JointId :: j !in JointUses(tree) ==> joints[j.Index()] == old(joints[j.Index()])
      ensures WellFormed(tree) && DistinctJoints(tree) ==>
                Consistent(tree, old(joints[head.Index()]), bones[..], joints[..], Place)
    {
      r := EvaluateFrom(tree, head);
      EvalOkIffWellFormed(tree, head, bones[..], old(joints[..]), Place);
      if WellFormed(tree) && DistinctJoints(tree) {
        EvalPlacesJoints(tree, head, bones[..], old(joints[..]), Place);
      }
    }

    /**
     * Evaluates the subtree `t` hung from joint `from`: at a node with a
     * joint, places its bone into that joint, then evaluates the left and
     * the right child from it, stopping at the first error; at a node without
     * a joint, fails if it has any child.
     */
    method EvaluateFrom(t: RigTree, from: JointId) returns (r: Outcome)
      requires Valid()
      modifies joints
      ensures (r, joints[..]) == Eval(t, from, bones[..], old(joints[..]), Place)
      decreases t
    {
      match t.value.joint
      case Some(j) =>
        CalcBoneBaseFromBoneAndHead(from, t.value.bone, j, bones, joints);
        var left := t.Left();
        if left.Some? {
          r := EvaluateFrom(left.value, j);
          if r.Err? {
            return;
          }
        }
        var right := t.Right();
        if right.Some? {
          r := EvaluateFrom(right.value, j);
          if r.Err? {
            return;
          }
        }
        r := Ok;
      case None =>
        if t.Left().Some? || t.Right().Some? {
          r := Err(InvalidStructure);
        } else {
          r := Ok;
        }
    }
  }

  /**
   * Bones are reached by name and by the tree alike: giving the spine a new
   * length and rotation through the bone table is seen by the next
   * evaluation, which hangs the hips from the head by the new spine and
   * leaves the head where it was. Holds for any rig rooted at the spine and
   * the hips that evaluates cleanly, the default one among them.
   */
  method ReposeSpine(s: Skeleton, length: real, rotation: Quat) returns (r: Outcome)
    requires s.Valid() && s.head == Head
    requires s.tree.value == RigNode(Spine, Some(Hips))
    requires WellFormed(s.tree) && DistinctJoints(s.tree) && Head !in JointUses(s.tree)
    modifies s.bones, s.joints
    ensures r == Ok
    ensures s.BoneAt(Spine) == Bone(length, rotation)
    ensures s.JointAt(Hips) == Place(old(s.JointAt(Head)), Bone(length, rotation))
    ensures s.JointAt(Head) == old(s.JointAt(Head))
  {
    s.SetBoneLength(Spine, length);
    s.SetBoneRotation(Spine, rotation);
    EvalPlacesRoot(s.tree, Head, s.bones[..], s.joints[..], Place);
    r := s.Evaluate();
  }

  /** With the head at the origin and an unrotated spine of length 2, the default tree puts the hips at (0, 0, -2). */
  lemma SpineLengthHangsHips(bones: BoneTable, pos: Positions)
    requires pos[Head.Index()] == Zero && bones[Spine.Index()] == Bone(2.0, Identity)
    ensures var res := Eval(DefaultTree(), Head, bones, pos, Place);
            res.0 == Ok && res.1[Hips.Index()] == Vec3(0.0, 0.0, -2.0) && res.1[Head.Index()] == Zero
  {
    PlaceUnrotatedExample(pos[Head.Index()], bones[Spine.Index()]);
    DefaultHangsHips(bones, pos, Place, Vec3(0.0, 0.0, -2.0));
  }
}
