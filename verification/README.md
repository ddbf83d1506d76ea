# Skeletal rig and forward kinematics

This project models the core of a body-tracking server: its skeletal rig and
the forward-kinematics evaluator that turns bone rotations into joint positions.

- **The rig.** It has nine named bones (spine, hip offsets, upper legs, lower
  legs, feet) and eight named joints (head, hips, hip joints, knees, ankles).
  The bones hang in a binary tree. The named tables and the tree nodes share
  the same bone and joint cells.
- **Evaluation.** It walks the tree depth first, in pre-order, left child
  before right. At each node with a joint, it writes into that joint the
  distal end of the node's bone, hung from the parent's joint. For the root,
  the parent is the skeleton's head joint. A node without a joint must be a
  leaf; otherwise evaluation stops with `InvalidStructure`. Nothing written
  before that point is undone.

Modules:
- `Vectors`: real 3-vectors and quaternions, with the library's
  vector-rotation formula written out.
- `Rig`: bone and joint ids, their table slots, and the default tables.
- `Tree`: the generic binary tree.
- `Maths`: the placement step.
- `Evaluation`: evaluation as a function, and its properties.
- `Traversal`: evaluation flattened into its sequence of writes.
- `DefaultRig`: the default topology.
- `Skeleton`: the skeleton object, over arrays.

How the model represents the source:
- **Shared cells.** Each shared cell (`Rc<Cell<..>>`) is a slot of an array:
  bones in `bones`, joint positions in `joints`. A handle is the id of its
  slot. The tree and the tables therefore alias exactly when the ids agree,
  so a `set_*` write into a cell through the table is seen by the tree, and
  the reverse.
- **The evaluator.** The method `Skeleton.EvaluateFrom` mirrors
  `evaluate_inner`: the same recursion, the same early return, the same
  in-place writes. It is proved equal to the function `Evaluation.Eval`, and
  every property is proved about that function.
- **The placement parameter.** `Eval` takes the one-bone placement as a
  parameter. The structural properties therefore hold for any placement, and
  the skeleton instantiates it with `Maths.Place`.

## Model

| member | source | states |
|---|---|---|
| Tree.BinaryTree.Left | src/tree.rs:24-26 | Never fails: the result is present exactly when the node has a left child, and a missing child is `None`. |
| Tree.BinaryTree.Right | src/tree.rs:28-30 | Never fails: the result is present exactly when the node has a right child, and a missing child is `None`. |
| Tree.ChildrenInPreOrder | src/tree.rs:24-30 | In pre-order, the left child comes right after its parent. The right child comes right after the parent and the whole left subtree. |
| Tree.New | src/tree.rs:16-22 | The built node holds the given value, and its left and right accessors return exactly the subtrees it was given (present iff given). |
| Tree.NewOfParts | src/tree.rs:16-30 | Every node is what `new` builds from its value, `left()` and `right()`: the accessors lose nothing. |
| Tree.BinaryTree.WriteLeft | src/tree.rs:32-34 | A write through `left_mut` replaces the left child only. The value and right child stay, and the left child is present after exactly when it was before. |
| Tree.BinaryTree.WriteRight | src/tree.rs:36-38 | A write through `right_mut` replaces the right child only. The value and left child stay, and the right child is present after exactly when it was before. |
| Tree.WriteBackUnchanged | src/tree.rs:24-38 | Writing back through `left_mut`/`right_mut` the child just read leaves the node unchanged. |
| Rig.BoneId.Index | src/skeleton.rs:280-292 | Every bone discriminant is below BONE_COUNT (9), so indexing the bone table is in bounds. |
| Rig.JointId.Index | src/skeleton.rs:185-196 | Every joint discriminant is below JOINT_COUNT (8), so indexing the joint table is in bounds. |
| Rig.IndexInjective | src/skeleton.rs:264-276 | Distinct ids index distinct slots, so no two named bones or joints share a cell. |
| Rig.DefaultBones | src/skeleton.rs:353-363 | The default bone table holds, for every bone id, a bone of length 0 with the identity rotation. |
| Rig.DefaultJoints | src/skeleton.rs:252-262 | The default joint table holds, for every joint id, a joint at the origin. |
| Vectors.RotateIdentity | src/maths.rs:9 | Rotating by the identity quaternion leaves every vector unchanged. |
| Maths.CalcBoneBaseFromBoneAndHead | src/maths.rs:7-11 | The base joint becomes the head's old position plus the rotated rest direction (-Z) times the bone's length. Its old value does not matter. No other joint changes, and no bone is written. |
| Maths.Place | src/maths.rs:8-10 | The base computed from a head and a bone: a bone of length 0 places its base on its head, and an unrotated bone places it straight below the head, by its length along -Z. |
| Maths.RotatedRest | src/maths.rs:5-9 | The rest direction -Z turned by a quaternion, in closed form in the quaternion's components. |
| Maths.PlaceUnrotatedExample | src/maths.rs:5-10 | With the head at the origin and an unrotated bone of length 2, the base is at (0, 0, -2). |
| Maths.PlaceKeepsLength | src/maths.rs:9 | For a unit rotation, the base lies at distance abs(length) from the head. |
| Maths.TurnAboutVerticalKeepsRest | src/maths.rs:5 | Any unit rotation about Z leaves the rest direction -Z fixed. |
| Maths.PlaceQuarterTurnAboutY | src/maths.rs:9 | A quarter turn about Y swings the bone from -Z to -X: the base is `length` away from the head along -X. |
| Evaluation.Eval | src/skeleton.rs:52-78 | A joint that no node of the tree names keeps its position, whatever the outcome. |
| Evaluation.EvalOkIffWellFormed | src/skeleton.rs:52-78 | Evaluation succeeds iff every jointless node is a leaf; any failure is `InvalidStructure`. |
| Evaluation.EvalPlacesJoints | src/skeleton.rs:56-68 | Holds for a well-formed tree that names no joint twice, even one that names the head. Evaluation succeeds and every node's joint is placed from its parent's joint (the root's from the head's position before the walk). |
| Evaluation.EvalPlacesRoot | src/skeleton.rs:48-60 | Under the same conditions, the root's joint ends at the head plus the root bone's offset, and the head does not move. |
| Evaluation.EvalIgnoresOldPositions | src/skeleton.rs:56-68 | Holds for any tree, including a failing one. From two joint tables that agree at the head, evaluation has the same outcome. Every joint either ends the same in both runs or keeps its own old position in both. |
| Evaluation.EvalIdempotent | src/skeleton.rs:48-78 | For any tree that does not name the head, a second evaluation with nothing changed in between gives the same outcome and the same table as the first. On a misshapen tree, it rewrites the same prefix and fails at the same node. |
| Evaluation.HeadInsideTreeMoves | src/skeleton.rs:56-60 | A one-node tree whose joint is its own head moves that joint by its bone's offset on every evaluation. |
| Evaluation.HeadInsideTreeDrifts | src/skeleton.rs:56-60 | Concretely, an unrotated unit bone moves a head at the origin to -1 and then to -2 along Z, so idempotence needs its proviso. |
| Traversal.EvalIsRun | src/skeleton.rs:56-70 | Evaluating the tree is running its pre-order list of writes, left subtree before right, with a failing step where a jointless node has children. |
| Traversal.StepsFailIffMisshapen | src/skeleton.rs:72-76 | The write list contains a failing step iff some jointless node has a child. |
| Traversal.EvalErrorKeepsPrefix | src/skeleton.rs:62-74 | On error, the joint table is exactly what the writes before the first failing node produce. Every joint those writes do not touch keeps its old position. |
| DefaultRig.DefaultTree | src/skeleton.rs:170-177 | The default root is the spine bone with the hips joint. |
| DefaultRig.DefaultPreOrder | src/skeleton.rs:116-177 | The default tree has nine nodes. In pre-order, the k-th node carries the bone whose id has index k. |
| DefaultRig.DefaultBonesOnce | src/skeleton.rs:116-177 | Each of the nine bones appears in exactly one node of the default tree. |
| DefaultRig.DefaultJointUses | src/skeleton.rs:113-177 | Every joint except the head appears in exactly one node of the default tree; the head appears in none. |
| DefaultRig.DefaultJointlessAreFeet | src/skeleton.rs:116-117 | The jointless nodes of the default tree are exactly the two feet. |
| DefaultRig.DefaultWellFormed | src/skeleton.rs:116-177 | Every jointless node of the default tree is a leaf, so the tree keeps the shape rule. |
| DefaultRig.DefaultJointsDistinct | src/skeleton.rs:113-177 | The default tree names no joint twice and never names the head. |
| DefaultRig.DefaultEvaluates | src/skeleton.rs:109-180 | Evaluating the default tree from the head always succeeds and leaves the head where it was. Every joint is placed from its parent. |
| DefaultRig.DefaultHangsHips | src/skeleton.rs:170-177 | Evaluating the default tree puts the hips at the end of the spine hung from the head. |
| Skeleton.Skeleton.New | src/skeleton.rs:34-46 | The skeleton holds the given tree, tables and head joint. |
| Skeleton.Skeleton.Default | src/skeleton.rs:109-180 | The default skeleton holds the default tree and the default tables, and its head is the table's `Head` cell. |
| Skeleton.Skeleton.BoneAt | src/skeleton.rs:81-87 | The bone read by name is the very cell every tree node carrying that bone id reads when it is placed. |
| Skeleton.Skeleton.JointAt | src/skeleton.rs:95-101 | The joint read by name is the very cell every tree node carrying that joint id writes when it is placed. |
| Skeleton.Skeleton.SetBoneLength | src/skeleton.rs:319-321 | Sets one bone's length; its rotation and every other bone stay. |
| Skeleton.Skeleton.SetBoneRotation | src/skeleton.rs:323-325 | Sets one bone's rotation; its length and every other bone stay. |
| Skeleton.Skeleton.SetJointPosition | src/skeleton.rs:217-219 | Sets one joint's position; every other joint stays. |
| Skeleton.Skeleton.Evaluate | src/skeleton.rs:48-50 | Evaluation from the head joint is `Eval`. It succeeds iff the tree is well formed, and fails only with `InvalidStructure`. It leaves unnamed joints alone and never writes a bone. When no joint is named twice, every joint is placed from its parent. |
| Skeleton.Skeleton.EvaluateFrom | src/skeleton.rs:52-78 | The in-place recursive walk, with its early return on error, has exactly the outcome and joint table of `Eval`. |
| Skeleton.ReposeSpine | src/skeleton.rs:81-107 | A length and rotation set on the spine through the named bone table are seen by the next evaluation: the hips land at the head plus the new spine's offset, and the head stays. |
| Skeleton.SpineLengthHangsHips | src/skeleton.rs:116-177 | With the head at the origin and an unrotated spine of length 2, the default tree puts the hips at (0, 0, -2). |

## Left out

- src/server.rs, src/interface.rs, src/config.rs and src/main.rs are not part of this model. They are network I/O, threads, configuration loading and process start-up.
- The `Debug` implementations of `Bones` and `Joints` (src/skeleton.rs:230-244, 336-351) are output formatting only.
- Vectors and quaternions are exact reals, not single-precision floats. Rounding is not modelled, so "bit-for-bit" equality becomes exact equality.
- `Vectors.Rotate` writes out the library's rotation formula over reals. It is not a general quaternion library.
- Reference counts are not modelled. Aliasing is modelled by the shared slot index.
- A skeleton built by `Skeleton::new` from cells that are not the table's own is not modelled. In this model a tree node and a table entry with the same id always share a cell.
- Replacing a handle is not modelled; only `set_*` writes into a cell are. Such a replacement can go through `IndexMut` on the skeleton (src/skeleton.rs:89-93, 103-107), through `Joints::as_mut_slice` (src/skeleton.rs:246-250), or by assigning the public `head_joint` field (src/skeleton.rs:30). For example, `skeleton[BoneId::Spine] = Bone::new(..)` swaps the table's handle for a fresh cell, while the tree keeps the old one, so later evaluations no longer see the table entry. In this model, a table entry and the tree nodes with the same id always share one cell.
- The unused `Position` enum of src/tree.rs:1-6 is not modelled.
- The error variant is spelled `InvalidStruture` in the source. Here it is `InvalidStructure`.
- `Skeleton::default` sets no bone proportions: every bone keeps length 0 and the identity rotation from `Bone::default` (src/skeleton.rs:328-332). A realistic rig needs lengths and rotations set afterwards through `set_length` and `set_rotation`, and the model's default skeleton is likewise all zero-length bones.
- A quarter turn about the vertical axis does not move a bone off -Z: any rotation about Z leaves -Z fixed (`Maths.TurnAboutVerticalKeepsRest`). A bone is turned from -Z to a horizontal direction only by a rotation about a horizontal axis (`Maths.PlaceQuarterTurnAboutY`).
- Skeleton.ReposeSpine: states its effect symbolically, as `Place` of the old head position, for any rig rooted at the spine and hips that evaluates cleanly. The numeric instance (hips at (0, 0, -2)) is stated on values, in `Skeleton.SpineLengthHangsHips`.
