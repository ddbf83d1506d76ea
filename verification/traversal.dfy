/**
 * Evaluation seen as the sequence of writes it performs. The walk is
 * flattened into its steps in pre-order, left before right, and the steps are
 * then run one by one against the joint table. This makes explicit that an
 * error leaves behind exactly the writes made before it: nothing after the
 * first failing node happens and nothing before it is undone.
 */
module Traversal {
  import opened Wrappers
  import opened Vectors
  import opened Tree
  import opened Rig
  import opened Evaluation

  /** One step of the walk: place `bone` hung from `from` into `joint`, or stop with an error. */
  datatype Step = Write(joint: JointId, from: JointId, bone: BoneId) | Fail

  /** The steps a walk of `t` hung from `head` would take if no step stopped it, in pre-order. */
  function Steps(t: RigTree, head: JointId): seq<Step>
    decreases t
  {
    match t.value.joint
    case None => if t.left.Some? || t.right.Some? then [Fail] else []
    case Some(j) => [Write(j, head, t.value.bone)] + ChildSteps(t.left, j) + ChildSteps(t.right, j)
  }

  function ChildSteps(c: Option<RigTree>, head: JointId): seq<Step>
    decreases c
  {
    match c
    case None => []
    case Some(s) => Steps(s, head)
  }

  /** Runs the steps in order; the first `Fail` ends the run with the table as it stands. */
  function Run(steps: seq<Step>, bones: BoneTable, pos: Positions, place: Placement): (res: (Outcome, Positions))
    ensures res.0 == Ok <==> Fail !in steps
    decreases |steps|
  {
    if steps == [] then (Ok, pos)
    else match steps[0]
      case Fail => (Err(InvalidStructure), pos)
      case Write(j, h, b) =>
        var r := Run(steps[1..], bones, pos[j.Index() := place(pos[h.Index()], bones[b.Index()])], place);
        assert steps == [steps[0]] + steps[1..];
        r
  }

  /** The position of the first `Fail`, or the length when there is none. */
  function FirstFail(steps: seq<Step>): (k: nat)
    ensures k <= |steps|
    ensures Fail !in steps[..k]
    ensures k < |steps| <==> Fail in steps
    ensures k < |steps| ==> steps[k] == Fail
  {
    if steps == [] then 0
    else if steps[0] == Fail then 0
    else
      var k := 1 + FirstFail(steps[1..]);
      assert steps[..k] == [steps[0]] + steps[1..][..k - 1];
      assert steps == [steps[0]] + steps[1..];
      k
  }

  /** The joints a run of these steps writes. */
  function Written(steps: seq<Step>): set<JointId> {
    set s | s in steps && s.Write? :: s.joint
  }

  /** Running one list after another is running the first, then, unless it failed, the second. */
  lemma {:induction false} RunAppend(a: seq<Step>, b: seq<Step>, bones: BoneTable, pos: Positions, place: Placement)
    ensures var first := Run(a, bones, pos, place);
            Run(a + b, bones, pos, place) == if first.0 == Ok then Run(b, bones, first.1, place) else first
    decreases |a|
  {
    if a == [] {
      assert a + b == b;
    } else {
      assert (a + b)[0] == a[0];
      assert (a + b)[1..] == a[1..] + b;
      match a[0]
      case Fail =>
      case Write(j, h, bone) =>
        RunAppend(a[1..], b, bones, pos[j.Index() := place(pos[h.Index()], bones[bone.Index()])], place);
    }
  }

  /** Evaluating a tree is running its steps. */
  lemma {:induction false} EvalIsRun(t: RigTree, head: JointId, bones: BoneTable, pos: Positions, place: Placement)
    ensures Eval(t, head, bones, pos, place) == Run(Steps(t, head), bones, pos, place)
    decreases t
  {
    match t.value.joint
    case None =>
      if t.left.Some? || t.right.Some? {
        assert Run([Fail], bones, pos, place) == (Err(InvalidStructure), pos);
      }
    case Some(j) =>
      var step := Write(j, head, t.value.bone);
      var written := pos[j.Index() := place(pos[head.Index()], bones[t.value.bone.Index()])];
      var ls, rs := ChildSteps(t.left, j), ChildSteps(t.right, j);
      assert Steps(t, head) == [step] + (ls + rs);
      assert Run([step] + (ls + rs), bones, pos, place) == Run(ls + rs, bones, written, place);
      RunAppend(ls, rs, bones, written, place);
      var afterLeft := Run(ls, bones, written, place);
      if t.left.Some? {
        EvalIsRun(t.left.value, j, bones, written, place);
      }
      if t.right.Some? {
        EvalIsRun(t.right.value, j, bones, afterLeft.1, place);
      }
  }

  /** A tree's steps contain a `Fail` exactly when the tree breaks the shape rule. */
  lemma StepsFailIffMisshapen(t: RigTree, head: JointId)
    ensures Fail in Steps(t, head) <==> !WellFormed(t)
  {
    EvalIsRun(t, head, DefaultBones(), DefaultJoints(), (p: Vec3, b: Bone) => p);
    EvalOkIffWellFormed(t, head, DefaultBones(), DefaultJoints(), (p: Vec3, b: Bone) => p);
  }

  /** A run that fails leaves the table as the steps before the first `Fail` left it. */
  lemma RunStopsAtFirstFail(steps: seq<Step>, bones: BoneTable, pos: Positions, place: Placement)
    requires Fail in steps
    ensures var k := FirstFail(steps);
            Run(steps, bones, pos, place) == (Err(InvalidStructure), Run(steps[..k], bones, pos, place).1)
  {
    var k := FirstFail(steps);
    assert steps == steps[..k] + steps[k..];
    RunAppend(steps[..k], steps[k..], bones, pos, place);
  }

  /** A run never changes a joint none of its writes names. */
  lemma {:induction false} RunUntouched(steps: seq<Step>, bones: BoneTable, pos: Positions, place: Placement, j: JointId)
    requires j !in Written(steps)
    ensures Run(steps, bones, pos, place).1[j.Index()] == pos[j.Index()]
    decreases |steps|
  {
    if steps != [] {
      match steps[0]
      case Fail =>
      case Write(w, h, b) =>
        assert w != j;
        IndexInjective();
        assert Written(steps[1..]) <= Written(steps) by {
          forall s | s in steps[1..] ensures s in steps {
          }
        }
        RunUntouched(steps[1..], bones, pos[w.Index() := place(pos[h.Index()], bones[b.Index()])], place, j);
    }
  }

  /**
   * No rollback: when evaluation fails, the joint table holds exactly what the
   * writes before the first failing node put there, and every joint that only
   * later steps would have written keeps its old position.
   */
  lemma EvalErrorKeepsPrefix(t: RigTree, head: JointId, bones: BoneTable, pos: Positions, place: Placement)
    requires !WellFormed(t)
    ensures var steps := Steps(t, head);
            var k := FirstFail(steps);
            && k < |steps|
            && Eval(t, head, bones, pos, place) == (Err(InvalidStructure), Run(steps[..k], bones, pos, place).1)
            && forall j: JointId :: j !in Written(steps[..k]) ==>
                 Eval(t, head, bones, pos, place).1[j.Index()] == pos[j.Index()]
  {
    var steps := Steps(t, head);
    StepsFailIffMisshapen(t, head);
    EvalIsRun(t, head, bones, pos, place);
    RunStopsAtFirstFail(steps, bones, pos, place);
    var k := FirstFail(steps);
    forall j: JointId | j !in Written(steps[..k])
      ensures Eval(t, head, bones, pos, place).1[j.Index()] == pos[j.Index()]
    {
      RunUntouched(steps[..k], bones, pos, place, j);
    }
  }
}
