/**
 * The forward-kinematics evaluation of a rig tree, as a function of the bone
 * table and the joint table, and what it guarantees.
 *
 * The step that places one bone is a parameter `place`: the skeleton passes
 * Maths.Place, and every property here holds whatever the placement computes.
 */
module Evaluation {
  import opened Wrappers
  import opened Vectors
  import opened Tree
  import opened Rig
  import opened Maths

  /** A tree node's value: its bone and, when tracked, the joint at the bone's distal end. */
  datatype RigNode = RigNode(bone: BoneId, joint: Option<JointId>)

  type RigTree = BinaryTree<RigNode>

  datatype SkeletonError = InvalidStructure

  datatype Outcome = Ok | Err(error: SkeletonError)

  /** Where a bone's distal end lands, given its proximal end and the bone. */
  type Placement = (Vec3, Bone) -> Vec3

  /** A node that breaks the rig's shape rule: it has no joint to branch from, yet has a child. */
  predicate Misplaced(t: RigTree) {
    t.value.joint.None? && (t.left.Some? || t.right.Some?)
  }

  /** The shape rule: every node without a joint is a leaf. */
  predicate WellFormed(t: RigTree) {
    forall s | s in Subtrees(t) :: !Misplaced(s)
  }

  /** How many nodes of the tree name each joint. */
  function JointUses(t: RigTree): multiset<JointId> {
    (match t.value.joint
     case Some(j) => multiset{j}
     case None => multiset{})
    + ChildJointUses(t.left) + ChildJointUses(t.right)
  }

  function ChildJointUses(c: Option<RigTree>): multiset<JointId> {
    match c
    case None => multiset{}
    case Some(s) => JointUses(s)
  }

  /** No joint is named by two nodes. */
  predicate DistinctJoints(t: RigTree) {
    forall j: JointId :: JointUses(t)[j] <= 1
  }

  /**
   * Evaluates the tree hanging from joint `head`, depth first, pre-order, left
   * before right: a node with a joint writes its bone's distal end into that
   * joint and hangs both children from it; a node without a joint must be a
   * leaf. The first error ends the walk and nothing written is undone.
   * Returns the outcome and the joint table afterwards. Every joint no node
   * names keeps its position.
   */
  function Eval(t: RigTree, head: JointId, bones: BoneTable, pos: Positions, place: Placement): (res: (Outcome, Positions))
    ensures forall j: JointId :: j !in JointUses(t) ==> res.1[j.Index()] == pos[j.Index()]
    decreases t
  {
    match t.value.joint
    case None =>
      if t.left.Some? || t.right.Some? then (Err(InvalidStructure), pos) else (Ok, pos)
    case Some(j) =>
      var written := pos[j.Index() := place(pos[head.Index()], bones[t.value.bone.Index()])];
      var afterLeft := if t.left.Some? then Eval(t.left.value, j, bones, written, place) else (Ok, written);
      if afterLeft.0.Err? then afterLeft
      else if t.right.Some? then Eval(t.right.value, j, bones, afterLeft.1, place)
      else (Ok, afterLeft.1)
  }

  /**
   * Every node with a joint holds its bone's distal end hung from its parent's
   * joint, the root's hung from `headPos`.
   */
  ghost predicate Consistent(t: RigTree, headPos: Vec3, bones: BoneTable, pos: Positions, place: Placement)
    decreases t
  {
    match t.value.joint
    case None => true
    case Some(j) =>
      pos[j.Index()] == place(headPos, bones[t.value.bone.Index()])
      && (t.left.Some? ==> Consistent(t.left.value, pos[j.Index()], bones, pos, place))
      && (t.right.Some? ==> Consistent(t.right.value, pos[j.Index()], bones, pos, place))
  }

  /** The shape rule holds of a tree exactly when it holds at the root and in both subtrees. */
  lemma WellFormedSplit(t: RigTree)
    ensures WellFormed(t) <==>
      !Misplaced(t)
      && (t.left.Some? ==> WellFormed(t.left.value))
      && (t.right.Some? ==> WellFormed(t.right.value))
  {
    assert Subtrees(t) == [t] + ChildSubtrees(t.left) + ChildSubtrees(t.right);
  }

  /**
   * Evaluation fails exactly when some node breaks the shape rule: the
   * topmost such node is always reached, since every node above it has a
   * joint. The outcome never depends on the joint table.
   */
  lemma {:induction false} EvalOkIffWellFormed(t: RigTree, head: JointId, bones: BoneTable, pos: Positions, place: Placement)
    ensures Eval(t, head, bones, pos, place).0 == Ok <==> WellFormed(t)
    ensures Eval(t, head, bones, pos, place).0 != Ok ==> Eval(t, head, bones, pos, place).0 == Err(InvalidStructure)
    decreases t
  {
    WellFormedSplit(t);
    match t.value.joint
    case None =>
    case Some(j) =>
      var written := pos[j.Index() := place(pos[head.Index()], bones[t.value.bone.Index()])];
      var afterLeft := if t.left.Some? then Eval(t.left.value, j, bones, written, place) else (Ok, written);
      if t.left.Some? {
        EvalOkIffWellFormed(t.left.value, j, bones, written, place);
      }
      if t.right.Some? {
        EvalOkIffWellFormed(t.right.value, j, bones, afterLeft.1, place);
      }
  }

  /** A Consistent table stays Consistent under changes to joints the tree does not name. */
  lemma {:induction false} ConsistentFrame(t: RigTree, headPos: Vec3, bones: BoneTable, pos: Positions, pos': Positions, place: Placement)
    requires Consistent(t, headPos, bones, pos, place)
    requires forall j: JointId :: j in JointUses(t) ==> pos'[j.Index()] == pos[j.Index()]
    ensures Consistent(t, headPos, bones, pos', place)
    decreases t
  {
    match t.value.joint
    case None =>
    case Some(j) =>
      assert JointUses(t) == multiset{j} + ChildJointUses(t.left) + ChildJointUses(t.right);
      if t.left.Some? {
        ConsistentFrame(t.left.value, pos[j.Index()], bones, pos, pos', place);
      }
      if t.right.Some? {
        ConsistentFrame(t.right.value, pos[j.Index()], bones, pos, pos', place);
      }
  }

  /**
   * When the shape rule holds and no joint is named twice, evaluation
   * succeeds and leaves every named joint at its parent's position plus its
   * bone's offset, the root's parent being the head as it was before the walk
   * (the head is read once, before anything is written, so this holds even
   * when the tree names the head).
   */
  lemma {:induction false} EvalPlacesJoints(t: RigTree, head: JointId, bones: BoneTable, pos: Positions, place: Placement)
    requires WellFormed(t) && DistinctJoints(t)
    ensures Eval(t, head, bones, pos, place).0 == Ok
    ensures Consistent(t, pos[head.Index()], bones, Eval(t, head, bones, pos, place).1, place)
    decreases t
  {
    EvalOkIffWellFormed(t, head, bones, pos, place);
    WellFormedSplit(t);
    match t.value.joint
    case None =>
    case Some(j) =>
      var p := place(pos[head.Index()], bones[t.value.bone.Index()]);
      var written := pos[j.Index() := p];
      var afterLeft := if t.left.Some? then Eval(t.left.value, j, bones, written, place).1 else written;
      var out := if t.right.Some? then Eval(t.right.value, j, bones, afterLeft, place).1 else afterLeft;
      EvalWellFormedNode(t, head, bones, pos, place);
      DistinctSplit(t);
      assert afterLeft[j.Index()] == p;
      assert out[j.Index()] == p;
      if t.left.Some? {
        EvalPlacesJoints(t.left.value, j, bones, written, place);
        ConsistentFrame(t.left.value, p, bones, afterLeft, out, place);
      }
      if t.right.Some? {
        EvalPlacesJoints(t.right.value, j, bones, afterLeft, place);
      }
  }

  /**
   * In a tree that names no joint twice, neither subtree names the root's
   * joint, no joint is named in both subtrees, and each subtree again names
   * no joint twice.
   */
  lemma DistinctSplit(t: RigTree)
    requires DistinctJoints(t) && t.value.joint.Some?
    ensures var j, left, right := t.value.joint.value, ChildJointUses(t.left), ChildJointUses(t.right);
            && j !in left && j !in right
            && (forall i: JointId :: i in left ==> i !in right)
            && (t.left.Some? ==> DistinctJoints(t.left.value))
            && (t.right.Some? ==> DistinctJoints(t.right.value))
  {
    var j, left, right := t.value.joint.value, ChildJointUses(t.left), ChildJointUses(t.right);
    assert JointUses(t) == multiset{j} + left + right;
    forall i: JointId
      ensures left[i] + right[i] + (if i == j then 1 else 0) <= 1
    {
      assert JointUses(t)[i] <= 1;
    }
  }

  /**
   * Under the same conditions, the root's joint ends at the head plus the
   * root bone's offset and the head keeps its position.
   */
  lemma EvalPlacesRoot(t: RigTree, head: JointId, bones: BoneTable, pos: Positions, place: Placement)
    requires WellFormed(t) && DistinctJoints(t) && head !in JointUses(t) && t.value.joint.Some?
    ensures Eval(t, head, bones, pos, place).1[t.value.joint.value.Index()] == place(pos[head.Index()], bones[t.value.bone.Index()])
    ensures Eval(t, head, bones, pos, place).1[head.Index()] == pos[head.Index()]
  {
    EvalPlacesJoints(t, head, bones, pos, place);
  }

  /** One step of evaluation at a node with a joint, on a tree that keeps the shape rule. */
  lemma EvalWellFormedNode(t: RigTree, head: JointId, bones: BoneTable, pos: Positions, place: Placement)
    requires WellFormed(t) && t.value.joint.Some?
    ensures var j := t.value.joint.value;
            var written := pos[j.Index() := place(pos[head.Index()], bones[t.value.bone.Index()])];
            var afterLeft := if t.left.Some? then Eval(t.left.value, j, bones, written, place).1 else written;
            Eval(t, head, bones, pos, place)
            == (Ok, if t.right.Some? then Eval(t.right.value, j, bones, afterLeft, place).1 else afterLeft)
  {
    EvalOkIffWellFormed(t, head, bones, pos, place);
    WellFormedSplit(t);
    var j := t.value.joint.value;
    var written := pos[j.Index() := place(pos[head.Index()], bones[t.value.bone.Index()])];
    if t.left.Some? {
      EvalOkIffWellFormed(t.left.value, j, bones, written, place);
    }
  }

  /**
   * Two joint tables `out` and `out'` reached from `pos` and `pos'`: every
   * joint either ends the same in both, or kept its old position in both.
   */
  predicate SameOrKept(out: Positions, out': Positions, pos: Positions, pos': Positions) {
    forall j: JointId :: out[j.Index()] == out'[j.Index()]
      || (out[j.Index()] == pos[j.Index()] && out'[j.Index()] == pos'[j.Index()])
  }

  lemma SameOrKeptTrans(out: Positions, out': Positions, mid: Positions, mid': Positions, pos: Positions, pos': Positions)
    requires SameOrKept(out, out', mid, mid') && SameOrKept(mid, mid', pos, pos')
    ensures SameOrKept(out, out', pos, pos')
  {
  }

  /**
   * What evaluation writes depends on the head's position and the bones only,
   * never on the old joint positions, and this holds on the error path too:
   * from two tables that agree at the head, evaluation has the same outcome,
   * and every joint either ends the same in both runs or is left untouched by
   * both.
   */
  lemma {:induction false} EvalIgnoresOldPositions(t: RigTree, head: JointId, bones: BoneTable, pos: Positions, pos': Positions, place: Placement)
    requires pos[head.Index()] == pos'[head.Index()]
    ensures Eval(t, head, bones, pos, place).0 == Eval(t, head, bones, pos', place).0
    ensures SameOrKept(Eval(t, head, bones, pos, place).1, Eval(t, head, bones, pos', place).1, pos, pos')
    decreases t
  {
    match t.value.joint
    case None =>
    case Some(j) =>
      var p := place(pos[head.Index()], bones[t.value.bone.Index()]);
      var written, written' := pos[j.Index() := p], pos'[j.Index() := p];
      assert SameOrKept(written, written', pos, pos');
      var afterLeft := if t.left.Some? then Eval(t.left.value, j, bones, written, place) else (Ok, written);
      var afterLeft' := if t.left.Some? then Eval(t.left.value, j, bones, written', place) else (Ok, written');
      if t.left.Some? {
        EvalIgnoresOldPositions(t.left.value, j, bones, written, written', place);
        SameOrKeptTrans(afterLeft.1, afterLeft'.1, written, written', pos, pos');
      }
      assert afterLeft.1[j.Index()] == afterLeft'.1[j.Index()];
      if afterLeft.0.Ok? && t.right.Some? {
        var out := Eval(t.right.value, j, bones, afterLeft.1, place).1;
        var out' := Eval(t.right.value, j, bones, afterLeft'.1, place).1;
        EvalIgnoresOldPositions(t.right.value, j, bones, afterLeft.1, afterLeft'.1, place);
        SameOrKeptTrans(out, out', afterLeft.1, afterLeft'.1, pos, pos');
      }
  }

  /**
   * Evaluating twice in a row, with nothing changed in between, gives the
   * same outcome and leaves the table as the first evaluation left it,
   * provided the head is not itself a joint of the tree. This holds for
   * misshapen trees too: the second run rewrites the same prefix with the same
   * values and stops at the same node.
   */
  lemma EvalIdempotent(t: RigTree, head: JointId, bones: BoneTable, pos: Positions, place: Placement)
    requires head !in JointUses(t)
    ensures var once := Eval(t, head, bones, pos, place);
            Eval(t, head, bones, once.1, place) == once
  {
    var once := Eval(t, head, bones, pos, place);
    var twice := Eval(t, head, bones, once.1, place);
    EvalIgnoresOldPositions(t, head, bones, pos, once.1, place);
    forall i: JointId
      ensures twice.1[i.Index()] == once.1[i.Index()]
    {
    }
    PositionsByName(twice.1, once.1);
  }

  /**
   * Without the proviso on the head, evaluation is not idempotent: a one-node
   * tree whose joint is its own head moves that joint by its bone's offset on
   * every evaluation.
   */
  lemma HeadInsideTreeMoves(b: BoneId, h: JointId, bones: BoneTable, pos: Positions, place: Placement)
    ensures var t := New(RigNode(b, Some(h)), None, None);
            Eval(t, h, bones, pos, place) == (Ok, pos[h.Index() := place(pos[h.Index()], bones[b.Index()])])
  {
  }

  /**
   * A placement that lowers the head by 1 and then by 2 makes two evaluations
   * of the one-node tree drift by exactly those amounts.
   */
  lemma HeadInsideTreeDriftsBy(bones: BoneTable, pos: Positions, place: Placement)
    requires place(pos[Head.Index()], bones[Spine.Index()]) == Vec3(0.0, 0.0, -1.0)
    requires place(Vec3(0.0, 0.0, -1.0), bones[Spine.Index()]) == Vec3(0.0, 0.0, -2.0)
    ensures var t := New(RigNode(Spine, Some(Head)), None, None);
            var once := Eval(t, Head, bones, pos, place).1;
            once[Head.Index()] == Vec3(0.0, 0.0, -1.0)
            && Eval(t, Head, bones, once, place).1[Head.Index()] == Vec3(0.0, 0.0, -2.0)
  {
    HeadInsideTreeMoves(Spine, Head, bones, pos, place);
    var once := Eval(New(RigNode(Spine, Some(Head)), None, None), Head, bones, pos, place).1;
    HeadInsideTreeMoves(Spine, Head, bones, once, place);
  }

  /** With an unrotated unit spine whose joint is the head at the origin, the head drops to -1, then to -2. */
  lemma HeadInsideTreeDrifts(bones: BoneTable, pos: Positions)
    requires bones[Spine.Index()] == Bone(1.0, Identity) && pos[Head.Index()] == Zero
    ensures var t := New(RigNode(Spine, Some(Head)), None, None);
            var once := Eval(t, Head, bones, pos, Place).1;
            once[Head.Index()] == Vec3(0.0, 0.0, -1.0)
            && Eval(t, Head, bones, once, Place).1[Head.Index()] == Vec3(0.0, 0.0, -2.0)
  {
    PlaceUnrotatedTwice(pos[Head.Index()], bones[Spine.Index()]);
    HeadInsideTreeDriftsBy(bones, pos, Place);
  }
}
