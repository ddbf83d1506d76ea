/**
 * The rig every default skeleton starts from: a spine ending at the hips,
 * and two legs, each a hip offset, an upper leg, a lower leg and a foot. The
 * left leg hangs off left children and the right leg off right children; the
 * feet carry no joint.
 */
module DefaultRig {
  import opened Wrappers
  import opened Vectors
  import opened Tree
  import opened Rig
  import opened Evaluation

  /** The default tree, built bottom-up from the feet as the default skeleton does. */
  function DefaultTree(): (t: RigTree)
    ensures t.value == RigNode(Spine, Some(Hips))
  {
    var leftFoot := New(RigNode(LeftFoot, None), None, None);
    var rightFoot := New(RigNode(RightFoot, None), None, None);
    var leftLowerLeg := New(RigNode(LeftLowerLeg, Some(LeftAnkle)), Some(leftFoot), None);
    var rightLowerLeg := New(RigNode(RightLowerLeg, Some(RightAnkle)), None, Some(rightFoot));
    var leftUpperLeg := New(RigNode(LeftUpperLeg, Some(LeftKnee)), Some(leftLowerLeg), None);
    var rightUpperLeg := New(RigNode(RightUpperLeg, Some(RightKnee)), None, Some(rightLowerLeg));
    var leftHipOffset := New(RigNode(LeftHipOffset, Some(LeftHipJoint)), Some(leftUpperLeg), None);
    var rightHipOffset := New(RigNode(RightHipOffset, Some(RightHipJoint)), None, Some(rightUpperLeg));
    New(RigNode(Spine, Some(Hips)), Some(leftHipOffset), Some(rightHipOffset))
  }

  /** The nodes of the default tree in pre-order, reached through the left leg, then the right. */
  lemma DefaultListing()
    ensures var t := DefaultTree();
            var l, r := t.left.value, t.right.value;
            Subtrees(t) == [t, l, l.left.value, l.left.value.left.value, l.left.value.left.value.left.value,
                            r, r.right.value, r.right.value.right.value, r.right.value.right.value.right.value]
  {
    var t := DefaultTree();
    var l := t.left.value;
    var r := t.right.value;
    assert Subtrees(l) == [l, l.left.value, l.left.value.left.value, l.left.value.left.value.left.value];
    assert Subtrees(r) == [r, r.right.value, r.right.value.right.value, r.right.value.right.value.right.value];
    assert Subtrees(t) == [t] + Subtrees(l) + Subtrees(r);
  }

  /**
   * Listed in pre-order, the nodes of the default tree carry the bones in the
   * order of their ids: the k-th node holds the bone with index k. So the tree
   * has one node per bone.
   */
  lemma DefaultPreOrder()
    ensures |Subtrees(DefaultTree())| == BONE_COUNT
    ensures forall k | 0 <= k < |Subtrees(DefaultTree())| :: Subtrees(DefaultTree())[k].value.bone.Index() == k
  {
    DefaultListing();
    var nodes := Subtrees(DefaultTree());
    forall k | 0 <= k < |nodes|
      ensures nodes[k].value.bone.Index() == k
    {
      if k < 5 {
        if k < 3 {
          assert k == 0 || k == 1 || k == 2;
        } else {
          assert k == 3 || k == 4;
        }
      } else {
        if k < 7 {
          assert k == 5 || k == 6;
        } else {
          assert k == 7 || k == 8;
        }
      }
    }
  }

  /**
   * Every bone appears in exactly one node of the default tree: the node at
   * its own index in pre-order, and no other.
   */
  lemma DefaultBonesOnce()
    ensures forall b: BoneId :: b.Index() < |Subtrees(DefaultTree())| && Subtrees(DefaultTree())[b.Index()].value.bone == b
    ensures forall k, b: BoneId | 0 <= k < |Subtrees(DefaultTree())| && Subtrees(DefaultTree())[k].value.bone == b :: k == b.Index()
  {
    DefaultPreOrder();
    IndexInjective();
  }

  /** Every joint but the head appears in exactly one node; the head in none. */
  lemma DefaultJointUses()
    ensures forall j: JointId :: JointUses(DefaultTree())[j] == if j == Head then 0 else 1
  {
    var t := DefaultTree();
    var l, r := t.left.value, t.right.value;
    var ll, rr := l.left.value, r.right.value;
    var lll, rrr := ll.left.value, rr.right.value;
    assert JointUses(lll) == multiset{LeftAnkle} by {
      assert JointUses(lll.left.value) == multiset{};
    }
    assert JointUses(rrr) == multiset{RightAnkle} by {
      assert JointUses(rrr.right.value) == multiset{};
    }
    var left := multiset{LeftHipJoint, LeftKnee, LeftAnkle};
    var right := multiset{RightHipJoint, RightKnee, RightAnkle};
    assert JointUses(l) == left;
    assert JointUses(r) == right;
    assert JointUses(t) == multiset{Hips} + left + right;
    EachJointButHeadOnce(JointUses(t));
  }

  lemma EachJointButHeadOnce(m: multiset<JointId>)
    requires m == multiset{Hips} + multiset{LeftHipJoint, LeftKnee, LeftAnkle}
                 + multiset{RightHipJoint, RightKnee, RightAnkle}
    ensures forall j: JointId :: m[j] == if j == Head then 0 else 1
  {
    forall j: JointId
      ensures m[j] == if j == Head then 0 else 1
    {
      assert j.Index() < JOINT_COUNT;
    }
  }

  /** The only jointless nodes of the default tree are the two feet. */
  lemma DefaultJointlessAreFeet()
    ensures forall s | s in Subtrees(DefaultTree()) ::
      s.value.joint.None? <==> s.value.bone == LeftFoot || s.value.bone == RightFoot
  {
    DefaultListing();
    var nodes := Subtrees(DefaultTree());
    forall s | s in nodes
      ensures s.value.joint.None? <==> s.value.bone == LeftFoot || s.value.bone == RightFoot
    {
      var k :| 0 <= k < |nodes| && nodes[k] == s;
      if k < 5 {
        if k < 3 {
          assert k == 0 || k == 1 || k == 2;
        } else {
          assert k == 3 || k == 4;
        }
      } else {
        if k < 7 {
          assert k == 5 || k == 6;
        } else {
          assert k == 7 || k == 8;
        }
      }
    }
  }

  /** Every jointless node of the default tree is a leaf, so the tree keeps the shape rule. */
  lemma DefaultWellFormed()
    ensures forall s | s in Subtrees(DefaultTree()) && s.value.joint.None? :: s.left.None? && s.right.None?
    ensures WellFormed(DefaultTree())
  {
    var t := DefaultTree();
    var l, r := t.left.value, t.right.value;
    var ll, rr := l.left.value, r.right.value;
    var lll, rrr := ll.left.value, rr.right.value;
    WellFormedSplit(lll.left.value);
    WellFormedSplit(rrr.right.value);
    WellFormedSplit(lll);
    WellFormedSplit(rrr);
    WellFormedSplit(ll);
    WellFormedSplit(rr);
    WellFormedSplit(l);
    WellFormedSplit(r);
    WellFormedSplit(t);
  }

  /** No joint is named twice in the default tree, and the head is not named at all. */
  lemma DefaultJointsDistinct()
    ensures DistinctJoints(DefaultTree()) && Head !in JointUses(DefaultTree())
  {
    DefaultJointUses();
  }

  /**
   * Every evaluation of the default tree succeeds, leaves the head where it
   * was and places every joint from its parent.
   */
  lemma DefaultEvaluates(bones: BoneTable, pos: Positions, place: Placement)
    ensures var res := Eval(DefaultTree(), Head, bones, pos, place);
            && res.0 == Ok
            && res.1[Head.Index()] == pos[Head.Index()]
            && Consistent(DefaultTree(), pos[Head.Index()], bones, res.1, place)
  {
    DefaultWellFormed();
    DefaultJointsDistinct();
    EvalPlacesJoints(DefaultTree(), Head, bones, pos, place);
  }

  /**
   * Evaluating the default tree puts the hips where the spine, hung from the
   * head, ends, and leaves the head where it was.
   */
  lemma DefaultHangsHips(bones: BoneTable, pos: Positions, place: Placement, hips: Vec3)
    requires place(pos[Head.Index()], bones[Spine.Index()]) == hips
    ensures var res := Eval(DefaultTree(), Head, bones, pos, place);
            res.0 == Ok && res.1[Hips.Index()] == hips && res.1[Head.Index()] == pos[Head.Index()]
  {
    DefaultEvaluates(bones, pos, place);
  }
}
