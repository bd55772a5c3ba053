# Symbolic regression expression trees in Dafny

This project models the expression-tree core of a genetic-programming symbolic-regression
program. An `ExpressionTree` holds a root node and a fitness. Nodes are operators (`+`, `-`, `*`,
`/`), variables or coefficients. Each node has a left child, a right child and a parent link.
The tree supports five operations:

- construction from a list of operators and a shuffled list of terminals;
- evaluation under a variable binding, with a division-by-zero flag;
- deep copying;
- a one-pass bottom-up simplification;
- coefficient mutation.

It also supports crossover, which swaps two non-root subtrees between clones of two parents.

The model has three layers:

- **Values.** `Trees.Tree` is the node graph read as a value. The modules `Semantics`,
  `Simplification`, `Mutation`, `Crossover` and `Construction` define what each operation computes
  on such values, and prove its properties. Examples are the in-order traversal behind
  `getKthNode`, the idempotence and value preservation of `simplify`, and the multiset of leaves
  and operators that the constructor's queue loop keeps.
- **The node heap.** `Arenas.Arena` holds the node objects as a sequence of records. Each record
  has a payload plus `left`, `right` and `parent` indices, with `-1` for null. The recursive node
  methods (`getSize`, `getKthNode`, `getRandomNode`, `evaluate`, `copy`, `simplify`, `mutate`) are
  methods on that heap. Each is proved against the value layer through the predicate
  `Holds(nodes, i, t, parent)`, which says that node `i` holds tree `t`, with back-links, and
  that no node is reached twice. Each method also states which records it may change: its
  footprint (`Foot`) and nothing else.
- **The `ExpressionTree` class.** The class `Expressions.ExpressionTree` has the fields `root` and
  `fitness` and a ghost `tree`. It has the two constructors and `evaluate`, `clone`, `simplify`,
  `mutate`, `crossover` and `compareTo`. Each method's postcondition gives the new tree as the
  value-layer function of the old one.

Randomness is passed in as data:

- the permutation `Collections.shuffle` applies;
- the `nextInt(size - 1)` draws of `getRandomNode`;
- the `(nextDouble, nextInt)` pair each coefficient consumes in `mutate`.

The data set's fitness function is a parameter `fit: Tree -> real`.

Behaviour of the code worth knowing:

- **The root is never simplified.** `simplify` only rewrites operator nodes that have a parent,
  so a whole tree `2 + 3` stays as it is (`Simplification.SumOfCoefficientsKeptAtRoot`).
- **Only two rewrites exist.** Two coefficients under `+`, `-` or `*` are folded. `x / x` becomes
  1.0 and keeps its two children attached. There is no `x - x` rule, no identity elimination, no
  rounding, and a division of two coefficients is never folded.
- **Division by exactly zero yields 1.0.** It also raises the flag, and `evaluate` then sets the
  fitness to `Double.MAX_VALUE`.
- **`getRandomNode` draws `nextInt(size - 1)`.** The node it can never return is the last one in
  in-order, not the root. Crossover retries until the node it draws has a parent.
- **Node sizes are not cached.** `getSize` recounts on every call.
- **`mutate` with `maxMutation < minMutation` throws.** The first coefficient whose chance is
  below the rate asks `nextInt` for a bound that is not positive, which throws
  `IllegalArgumentException`. The coefficients visited before it keep their new values.
- **A `null` list element stops the constructor.** The node check throws
  `IllegalArgumentException("value does not match type")` before any node is linked.

## Model

| member | source | states |
|---|---|---|
| Operators.Symbol | src/Operator.java:4-20 | every operator prints as a three-character string with a space on each side, and the `"unknown"` fallback is never returned |
| Operators.SymbolRoundTrip | src/Operator.java:4-20 | the middle character of the printed symbol reads back as the same operator |
| Operators.SymbolsDistinct | src/Operator.java:4-20 | the four symbols are pairwise different |
| Nodes.CheckNode | src/ExpressionTreeNode.java:10-32 | the check succeeds iff a type is given and the value has that type's class; on success the payload has that type and boxes back to the value; a null type gives `IllegalArgumentException("Invalid type")`, a wrong class the class's mismatch message |
| Nodes.CheckAcceptsPayload | src/ExpressionTreeNode.java:10-32 | every well-typed payload passes the check unchanged |
| Nodes.ExpressionTreeNode.constructor | src/ExpressionTreeNode.java:33-35 | the new node holds the checked payload and all three links are null |
| Nodes.NewNode | src/ExpressionTreeNode.java:10-36 | construction succeeds iff the check does and then yields a fresh node of the requested type, holding the value, with null links; otherwise it throws the check's exception |
| Trees.InOrder | src/ExpressionTree.java:194-199 | the in-order traversal lists one subtree per node, all non-null |
| Trees.Size | src/ExpressionTree.java:164-174 | the node count of a tree is zero exactly for the null tree |
| Trees.KthNode | src/ExpressionTree.java:217-235 | the descent by left-subtree sizes returns the k-th entry of the in-order traversal |
| Trees.RandomPosition | src/ExpressionTree.java:197-211 | a lone node returns itself; otherwise the drawn position is in range and is never the last in-order position |
| Trees.RootDrawn | src/ExpressionTree.java:197-211 | a drawn node is the root iff the draw equals the size of the left subtree |
| Trees.SubtreeSmaller | src/ExpressionTree.java:217-235 | the k-th subtree is no larger than the tree, and strictly smaller unless it is the root |
| Trees.LeafMeasures | src/ExpressionTree.java:164-174 | a childless node has size one and is its own only leaf |
| Trees.StrictCounts | src/ExpressionTree.java:286-298 | a tree with operators exactly at its inner nodes is complete, has one more leaf than operators, and its size is their sum |
| Semantics.Apply | src/ExpressionTree.java:137-156 | `+`, `-`, `*` give the exact sum, difference and product; `/` gives the quotient, or 1.0 with the flag raised when the divisor is exactly zero; no other case raises the flag |
| Semantics.Evaluate | src/ExpressionTree.java:123-159 | the recursive evaluation can only throw a `NullPointerException` (a null child, or a variable bound to `null` that is unboxed) or `IllegalArgumentException("Undefined variable")` |
| Semantics.EvaluateSucceeds | src/ExpressionTree.java:123-136 | on a complete tree, evaluation succeeds iff every variable it reaches is bound to a non-null value; when every reached variable is a key the failure is `NullPointerException`, and when no reached key is bound to `null` it is `IllegalArgumentException("Undefined variable")` |
| Semantics.EvaluateLocal | src/ExpressionTree.java:128-133 | two bindings that agree on the reached variables give the same outcome |
| Semantics.NoDivisionNoFlag | src/ExpressionTree.java:148-154 | a tree without division never raises the flag |
| Simplification.Fold | src/ExpressionTree.java:84-94 | a folded node takes the value the evaluation would give the operator on the two coefficients |
| Simplification.Simplify | src/ExpressionTree.java:76-114 | the result is complete, null iff the input is, no larger than the input, and keeps the root's payload when applied at the root |
| Simplification.SimplifyNormal | src/ExpressionTree.java:76-114 | after one pass no node below the root can be rewritten |
| Simplification.NormalFixed | src/ExpressionTree.java:76-114 | a tree with nothing to rewrite is left unchanged |
| Simplification.SimplifyIdempotent | src/ExpressionTree.java:76-114 | simplifying twice equals simplifying once |
| Simplification.SimplifyKeepsValue | src/ExpressionTree.java:76-114 | with exact arithmetic, every successful evaluation keeps its value after simplification, and the division flag can only go down |
| Simplification.StepKeepsValue | src/ExpressionTree.java:81-111 | one node's rewrite keeps the value once its children do |
| Simplification.EvaluateOp | src/ExpressionTree.java:134-156 | an operator node over two evaluable children applies its operator and ORs the three flags |
| Simplification.SelfQuotient | src/ExpressionTree.java:107-111 | `x / x` is 1 for every nonzero `x`, which justifies the rewrite to 1.0 |
| Simplification.RootKept | src/ExpressionTree.java:81 | at the root only the subtrees are simplified |
| Simplification.SumOfCoefficientsKeptAtRoot | src/ExpressionTree.java:81 | the whole tree `2 + 3` is not folded |
| Mutation.MutateKeepsShape | src/ExpressionTree.java:245-258 | mutation, whether or not it throws, keeps the shape, the operators, the variable names, the size and completeness |
| Mutation.Perturb | src/ExpressionTree.java:247-250 | a coefficient changes only when its chance is below the rate |
| Mutation.Mutate | src/ExpressionTree.java:245-258 | pre-order mutation of a node and then its children; it throws only when `maxMutation < minMutation` |
| Mutation.MutateBelow | src/ExpressionTree.java:252-257 | the left child mutates first and the right child is not visited when the left one threw; a throw needs `maxMutation < minMutation` |
| Mutation.MutateThrows | src/ExpressionTree.java:248-249 | mutation throws exactly when one of its draws has a chance below the rate while the bound `maxMutation - minMutation + 1` is not positive |
| Mutation.Shifted | src/ExpressionTree.java:245-258 | shifting the coefficients by the draws keeps their number |
| Mutation.ShiftedAppend | src/ExpressionTree.java:252-257 | shifting a concatenation shifts the first part, and the second part only when the first did not throw |
| Mutation.ShiftedAt | src/ExpressionTree.java:247-250 | each coefficient is shifted by its own draw unless that draw or an earlier one threw, in which case it keeps its value |
| Mutation.MutateCoefficients | src/ExpressionTree.java:245-258 | the coefficients in pre-order after mutation are the old ones shifted by the draws in order, one draw each, up to the draw that throws |
| Mutation.MutationBounds | src/ExpressionTree.java:247-250 | with draws the generator can produce, nothing throws, a coefficient whose chance is below the rate moves by a whole number in `[minMutation, maxMutation]`, and any other coefficient does not move |
| Crossover.Replace | src/ExpressionTree.java:386-398 | the offspring loses the nodes of the removed subtree and gains those of the inserted one |
| Crossover.ReplaceLeft | src/ExpressionTree.java:386-388 | a replacement in the left subtree rebuilds the root over the replaced left subtree |
| Crossover.ReplaceRight | src/ExpressionTree.java:389-391 | a replacement in the right subtree rebuilds the root over the replaced right subtree |
| Crossover.ReplaceSelf | src/ExpressionTree.java:386-398 | replacing a subtree by itself changes nothing |
| Crossover.ReplaceBelowRoot | src/ExpressionTree.java:376-398 | below the root the offspring keeps its root and contains the inserted subtree, and completeness survives |
| Crossover.CrossoverPoint | src/ExpressionTree.java:377-384 | the retry loop settles on the first draw that is not the root's position, and that point is in range and not the root |
| Crossover.Offspring | src/ExpressionTree.java:385-402 | the two offspring together have as many nodes as the two parents |
| Crossover.CrossoverKeepsNodes | src/ExpressionTree.java:385-402 | the two offspring together have as many nodes as the parents, each keeps its parent's root and holds the other parent's subtree |
| Crossover.SubtreeComplete | src/ExpressionTree.java:377-384 | every subtree of a complete tree is complete |
| Crossover.Cross | src/ExpressionTree.java:371-415 | from complete parents, both simplified offspring are complete, non-null, and keep their parents' root payloads |
| Construction.Assemble | src/ExpressionTree.java:286-298 | the loop fails only with a `NullPointerException`; when it finishes, each round has taken two trees from the queue and put one back, the root is non-null, and it holds the operator polled last (or is the current tree when no operator remains) |
| Construction.AssembleSucceeds | src/ExpressionTree.java:288-298 | with at least one operator, the loop runs to the end iff there are at least one more terminal than operators |
| Construction.Round | src/ExpressionTree.java:290-297 | one round keeps the multiset of leaves, adds its operator to the multiset of operators, and adds one to the size |
| Construction.RoundLeaves | src/ExpressionTree.java:290-297 | one round keeps the multiset of leaf payloads in the queue |
| Construction.RoundOperators | src/ExpressionTree.java:290-297 | one round adds exactly its operator to the queue's operators |
| Construction.RoundStrict | src/ExpressionTree.java:290-297 | the node a round enqueues has operators exactly at its inner nodes |
| Construction.AssembleShape | src/ExpressionTree.java:288-299 | with exactly one more terminal than operators, the loop leaves one tree in the queue; that tree is the root, holds the last operator, and contains every leaf and operator that went in |
| Construction.StepWell | src/ExpressionTree.java:288-298 | one more round in front keeps the loop's result well assembled |
| Construction.Terminals | src/ExpressionTree.java:278-283 | one terminal node per variable and per coefficient |
| Construction.Shuffle | src/ExpressionTree.java:285 | the shuffle keeps the length and every terminal with its multiplicity |
| Construction.PermutationInjective | src/ExpressionTree.java:285 | a shuffle order names every position once |
| Construction.RangeOnce | src/ExpressionTree.java:285 | each position below `n` occurs exactly once in the identity order |
| Construction.TerminalQueue | src/ExpressionTree.java:278-285 | the shuffled terminal queue holds childless nodes whose payloads are the terminals, with no operator |
| Construction.TerminalLeaves | src/ExpressionTree.java:278-283 | the terminal trees are the childless nodes of the terminal payloads |
| Construction.TerminalsAreLeaves | src/ExpressionTree.java:278-283 | a queue of childless terminals contributes exactly their payloads and no operator |
| Construction.BuildShape | src/ExpressionTree.java:270-299 | with n > 0 operators and n + 1 terminals, the assembled tree has size 2n + 1, the last operator at its root, operators exactly at its inner nodes, and the supplied terminals and operators as its leaf and operator multisets |
| Construction.Build | src/ExpressionTree.java:270-298 | the assembled tree fails only with a `NullPointerException`; on success there is an operator and the root holds the last one |
| Construction.BuildFails | src/ExpressionTree.java:286-300 | the constructor throws a `NullPointerException` iff there is no operator or there are fewer terminals than operators plus one |
| Construction.AssembleStrict | src/ExpressionTree.java:288-298 | whatever tree the loop leaves is non-null, with operators exactly at its inner nodes |
| Construction.BuildStrict | src/ExpressionTree.java:270-298 | a successfully assembled tree is non-null, complete, with operators exactly at its inner nodes |
| Construction.Constructed | src/ExpressionTree.java:299-300 | the stored tree exists iff assembly succeeds; it is complete, keeps the root operator and is no larger than the assembled tree; otherwise the exception is `NullPointerException` |
| Construction.ObjectsMatch | src/ExpressionTree.java:274-283 | each list passes the node check element by element iff it holds no `null`, and the nodes then carry its values in list order |
| Construction.ConstructFails | src/ExpressionTree.java:270-300 | on the Java lists the constructor throws iff a list holds `null`, there is no operator, or there are fewer terminals than operators plus one; a `null` gives `IllegalArgumentException("value does not match type")`, the other two a `NullPointerException` |
| Arenas.FootOfHolds | src/ExpressionTree.java:18-23 | a held tree's nodes lie in the heap, and the node itself is among them iff the tree is non-null |
| Arenas.HoldsFrame | src/ExpressionTree.java:18-23 | what a node holds depends only on the records of its own nodes |
| Arenas.HoldsGrow | src/ExpressionTree.java:31-57 | allocating new nodes leaves every existing tree as it was |
| Arenas.HoldsNode | src/ExpressionTree.java:18-23 | a node over two disjoint held subtrees that point back to it holds the tree they make |
| Arenas.HoldsReparent | src/ExpressionTree.java:400-402 | changing only the root's parent link moves the whole tree under the new parent |
| Arenas.KthIndexHolds | src/ExpressionTree.java:217-235 | the node `getKthNode` reaches holds the k-th in-order subtree inside the tree's nodes, and is the root exactly at the root's position |
| Arenas.PointParent | src/ExpressionTree.java:378-383 | in a tree whose root has a null parent, the drawn node has a null parent iff it is the root |
| Arenas.MutateSplit | src/ExpressionTree.java:245-258 | a coefficient whose draw throws stops the mutation where it is; otherwise the node's own draw comes first, then its children take the draws that follow |
| Arenas.BelowSplit | src/ExpressionTree.java:252-257 | the left child takes the draws up to the end of its coefficients, and the right child, when the left one did not throw, the rest |
| Arenas.ReplaceHolds | src/ExpressionTree.java:386-398 | pointing the parent's slot that held the crossover point at another tree makes the root hold the replaced tree; the old subtree's nodes leave the footprint and the new subtree's nodes join it |
| Arenas.ReplaceLeftChild | src/ExpressionTree.java:386-388 | the same when the crossover point is the root's left child |
| Arenas.ReplaceRightChild | src/ExpressionTree.java:389-391 | the same when the crossover point is the root's right child |
| Arenas.ReplaceInLeft | src/ExpressionTree.java:386-398 | the same when the crossover point lies deeper in the left subtree |
| Arenas.ReplaceInRight | src/ExpressionTree.java:386-398 | the same when the crossover point lies deeper in the right subtree |
| Arenas.RebuildLeft | src/ExpressionTree.java:18-23 | a node whose record and right subtree are untouched holds itself over a new left subtree |
| Arenas.RebuildRight | src/ExpressionTree.java:18-23 | a node whose record and left subtree are untouched holds itself over a new right subtree |
| Arenas.Swapped | src/ExpressionTree.java:386-402 | the pointer swap keeps the number of node records |
| Arenas.SwappedRecords | src/ExpressionTree.java:386-402 | for four distinct nodes the swap changes exactly the two parents' slots and the two points' parent links |
| Arenas.MovedHolds | src/ExpressionTree.java:400-402 | a subtree moved under a new parent is held there on the same nodes |
| Arenas.SwapHolds | src/ExpressionTree.java:386-402 | swapping two non-root nodes of two disjoint trees yields the two value-level offspring; together they occupy exactly the parents' nodes, each node in one of them, and no other record changes |
| Arenas.SwapSide | src/ExpressionTree.java:386-402 | one offspring of the swap holds its replaced tree on its parent's nodes minus its point's subtree plus the other point's subtree |
| Arenas.Linked | src/ExpressionTree.java:290-295 | one round of linking keeps the number of node records |
| Arenas.LinkedRecords | src/ExpressionTree.java:290-295 | a round sets exactly the operator's two child slots and its two children's parent links |
| Arenas.RoundNode | src/ExpressionTree.java:290-297 | the operator node of a round holds the new tree over the two trees it took, on their nodes plus itself |
| Arenas.QueueStep | src/ExpressionTree.java:288-298 | one round on the heap links the waiting operator over the two head trees of `q2`; the queue invariant carries over with one operator fewer waiting |
| Arenas.QueueTail | src/ExpressionTree.java:290-297 | past its first two entries the queue avoids the operator being linked |
| Arenas.QueueHead | src/ExpressionTree.java:292-295 | the two head trees of `q2` are distinct, disjoint, and disjoint from the rest of the queue |
| Arenas.QueueRest | src/ExpressionTree.java:290-297 | the queue survives changes to records that none of its trees contains |
| Arenas.QueueJoin | src/ExpressionTree.java:297 | a tree disjoint from the queue can join it at the back |
| Arenas.Retag | src/ExpressionTree.java:107-111 | changing the payload of a tree's root keeps its links |
| Arenas.Collapse | src/ExpressionTree.java:82-105 | turning a node into a childless coefficient makes it hold that leaf alone and changes no other record |
| Arenas.CopyJoin | src/ExpressionTree.java:179-192 | a fresh node whose slots receive fresh copies of two subtrees holds the copied tree with a null parent, on new records only |
| Arenas.LeftDone | src/ExpressionTree.java:77-78 | once the left subtree has been rewritten within its own nodes, the node and its right subtree are as they were |
| Arenas.BothDone | src/ExpressionTree.java:77-80 | once both subtrees have been rewritten within their own nodes, the node holds itself over the new subtrees on the same nodes, and no other record changed |
| Arenas.Arena.Alloc | src/ExpressionTree.java:31-57 | allocation appends one unlinked record holding the payload |
| Arenas.Arena.NewNode | src/ExpressionTree.java:31-57 | the inner node constructor succeeds iff the type/value check does; it appends one unlinked node of the requested type holding the value, and a failed check allocates nothing and throws the check's exception |
| Arenas.Arena.SetLeft | src/ExpressionTree.java:292 | only the left slot of the node changes |
| Arenas.Arena.SetRight | src/ExpressionTree.java:294 | only the right slot of the node changes |
| Arenas.Arena.SetParent | src/ExpressionTree.java:293 | only the parent link of the node changes |
| Arenas.Arena.AllocAll | src/ExpressionTree.java:275-283 | one `new ExpressionTreeNode` per value: the run succeeds iff every value has the class of the kind, appending one unlinked node per value with the queue listing them in order; otherwise it throws `IllegalArgumentException("value does not match type")` with the heap only extended |
| Arenas.Arena.SwapSubtrees | src/ExpressionTree.java:386-402 | the heap afterwards is the swapped heap: each parent's slot that held its point holds the other point, and the points exchange parents |
| Arenas.Arena.GetSize | src/ExpressionTree.java:164-174 | the recursive count is the size of the held tree, the length of its in-order traversal |
| Arenas.Arena.KthNodeAt | src/ExpressionTree.java:217-235 | the node reached holds the k-th in-order subtree |
| Arenas.Arena.RandomNodeAt | src/ExpressionTree.java:197-211 | the node returned is the one at the drawn position, or the node itself when it is alone |
| Arenas.Arena.ReadTree | src/ExpressionTree.java:123-159 | reading the held tree back from the heap gives exactly that tree |
| Arenas.Arena.EvaluateAt | src/ExpressionTree.java:123-159 | the heap evaluation returns the value or exception of the value-level evaluation; the flag, which is never reset, ends raised iff it already was or some division met a zero divisor |
| Arenas.Arena.Copy | src/ExpressionTree.java:179-192 | the deep copy holds the same tree with a null parent, only on new records, and every existing record is unchanged |
| Arenas.Arena.CopyChild | src/ExpressionTree.java:182-190 | a child's copy is linked into the chosen slot both ways, and only that slot of the old records changes |
| Arenas.Arena.SimplifyAt | src/ExpressionTree.java:76-114 | the node comes to hold the simplified tree, uses no record it did not use before, changes no record outside the tree, and answers false |
| Arenas.Arena.SimplifyChildren | src/ExpressionTree.java:77-80 | the node keeps its record and comes to hold itself over its simplified subtrees |
| Arenas.Arena.MutateAt | src/ExpressionTree.java:245-258 | the node comes to hold the value-level mutated tree on the same nodes, throws exactly when the value-level mutation does, uses one draw per coefficient in pre-order, and no other record changes |
| Arenas.Arena.MutateLink | src/ExpressionTree.java:252-257 | a null child is skipped, uses no draw and does not throw; a non-null one is mutated as above |
| Arenas.Arena.MutateChildren | src/ExpressionTree.java:252-257 | the left subtree uses the next draws, then, unless it threw, the right subtree; the node holds itself over the mutated subtrees |
| Expressions.Compare | src/ExpressionTree.java:436-438 | the result is -1, 0 or 1, negative iff the first fitness is smaller and zero iff the fitnesses are equal |
| Expressions.CompareAntisymmetric | src/ExpressionTree.java:436-438 | swapping the trees negates the comparison |
| Expressions.CompareTransitive | src/ExpressionTree.java:436-438 | the ordering is transitive |
| Expressions.ParentsKept | src/ExpressionTree.java:374-375 | allocating the clones leaves both parents holding their trees |
| Expressions.AllocatedLayout | src/ExpressionTree.java:272-283 | after allocation the operator nodes wait unlinked in list order, followed by the terminal nodes |
| Expressions.AllocatedQueues | src/ExpressionTree.java:272-285 | once operators and then terminals are appended, every operator node is pending unlinked and the shuffled terminal queue holds one childless node per terminal above them |
| Expressions.InitialQueue | src/ExpressionTree.java:278-285 | the shuffled terminal queue holds one childless node per terminal, all above the operator nodes |
| Expressions.PendingRound | src/ExpressionTree.java:290 | after a round the operators not yet polled are still unlinked |
| Expressions.LinkingRound | src/ExpressionTree.java:288-298 | one round re-establishes the loop invariant: the queue holds the value-level round's trees and one operator fewer waits |
| Expressions.ExpressionTree.constructor | src/ExpressionTree.java:309-312 | the tree is built from a root that holds a complete tree, and has that root and that fitness |
| Expressions.ExpressionTree.Build | src/ExpressionTree.java:270-302 | the queue constructor succeeds iff the value-level construction on the Java lists does; it then yields a fresh valid tree holding the simplified assembled tree with fitness `fit` of it, on new records only, and otherwise throws the value-level construction's exception |
| Expressions.ExpressionTree.AllocTerminals | src/ExpressionTree.java:278-283 | the variable nodes and then the coefficient nodes are appended unlinked, in list order; a `null` element in either list throws `IllegalArgumentException("value does not match type")` with the heap only extended |
| Expressions.ExpressionTree.Allocate | src/ExpressionTree.java:272-285 | allocation succeeds iff no list holds `null`, and otherwise throws `IllegalArgumentException("value does not match type")`; on success `q1` lists the unlinked operator nodes in order, and `q2` holds the terminal nodes shuffled by the permutation |
| Expressions.ExpressionTree.Link | src/ExpressionTree.java:286-298 | the loop runs to the end iff the value-level assembly succeeds, and `current` then holds the assembled tree with a null parent |
| Expressions.ExpressionTree.LinkStep | src/ExpressionTree.java:289-297 | one pass either stops exactly where the value-level assembly fails, or keeps the loop invariant with one operator fewer |
| Expressions.ExpressionTree.Round | src/ExpressionTree.java:290-297 | the operator takes the two head nodes of `q2` as children and goes to the back of `q2`, which then holds the value-level round's trees |
| Expressions.ExpressionTree.HalfRound | src/ExpressionTree.java:292-294 | a round that finds one node left links it and then dereferences the null right child, changing only new records |
| Expressions.ExpressionTree.Finish | src/ExpressionTree.java:299-301 | a null root throws `NullPointerException`; otherwise the new tree holds the assembled tree simplified below its root, with fitness `fit` of it |
| Expressions.ExpressionTree.Evaluate | src/ExpressionTree.java:333-341 | the result is the value-level evaluation, and the fitness becomes `Double.MAX_VALUE` iff a division met a zero divisor; only the fitness is written, so the tree stays valid with the same root and expression |
| Expressions.ExpressionTree.Clone | src/ExpressionTree.java:354-360 | a null root gives null; otherwise a fresh tree with the same expression and fitness on new records, with the original untouched |
| Expressions.ExpressionTree.Simplify | src/ExpressionTree.java:362-365 | the tree becomes the value-level simplification of the old one, below its root, on a subset of its nodes; the fitness stays; a null root throws |
| Expressions.ExpressionTree.Mutate | src/ExpressionTree.java:425-427 | the tree becomes the value-level mutation: same shape and same nodes, coefficients shifted by the draws in pre-order and within bounds; a null root throws `NullPointerException` and `maxMutation < minMutation` throws `IllegalArgumentException` at the first coefficient whose chance is below the rate, keeping the earlier changes |
| Expressions.ExpressionTree.PickCrossoverPoint | src/ExpressionTree.java:377-384 | the loop returns the node at the first drawn position that is not the root |
| Expressions.ExpressionTree.Crossover | src/ExpressionTree.java:371-415 | both parents stay as they were; the offspring are fresh, valid and disjoint, hold the simplified offspring of the value-level crossover at the drawn points, and have fitness `fit` of their trees; a null root in either parent throws |
| Expressions.ExpressionTree.ClonePair | src/ExpressionTree.java:374-375 | the two clones are distinct, hold their parents' trees, and share no node |
| Expressions.ExpressionTree.Breed | src/ExpressionTree.java:377-413 | the two clones become the simplified value-level offspring, with fitness `fit` of their trees |
| Expressions.ExpressionTree.SwapPoints | src/ExpressionTree.java:377-402 | each clone holds its tree with the crossover point replaced by the other clone's subtree; the two stay disjoint |
| Expressions.ExpressionTree.SimplifyBoth | src/ExpressionTree.java:405-406 | both offspring are simplified below their roots, each leaving the other intact |
| Expressions.ExpressionTree.CompareTo | src/ExpressionTree.java:436-438 | the result is -1, 0 or 1, negative iff this fitness is smaller, zero iff the fitnesses are equal |

## Left out

- Printing (`print` on the tree and its nodes) is console output and is not modelled.
- `getRoot` and `getFitness` only return a field; the model reads the fields `root` and `fitness` directly.
- Doubles are exact reals: rounding, overflow to infinity and NaN are not modelled. `Double.MAX_VALUE` is the exact value `(2 - 2^-52) * 2^1023`.
- Java `int` overflow in `getSize` and in `maxMutation - minMutation + 1` is not modelled; sizes are unbounded naturals.
- The operator, variable and coefficient lists themselves are never `null`; their elements may be.
- The variable map passed to `evaluate` is never `null`; its values may be (`None` in `Semantics.Bindings`).
- `java.util.Random` and `System.nanoTime` are replaced by the draws they would produce, passed in as parameters.
- `Collections.shuffle` is replaced by the permutation it applies, passed in as a parameter.
- `DataSet.fitness` is an arbitrary function `fit` of the tree. `DataSet.java` is not part of this model, and neither is `ExpressionTreeTester.java`.
- `Type.java` is not part of this model. The model assumes it declares the three constants `OPERATOR`, `VARIABLE` and `COEFFICIENT`. A null type is the only value that reaches the "Invalid type" branch.
- The Java heap is one shared `Arena` of node records. Garbage collection is not modelled. A node the fold branch unlinks, and the detached child records of such a node, stay in the arena, unreachable.
- The `x / x` rewrite compares the two variables' names. The source compares the `String` references with `==`. Interned or shared strings compare equal under both tests; distinct `String` objects with equal contents do not under the source's.
- Crossover with a parent of size one never ends: its only draw names the root. The model's precondition `CrossoverDraws` demands a draw that names a non-root node, so it does not model the non-terminating retry loop.
- The crossover result is a Dafny pair rather than a two-element array.
- Line 157 of `src/ExpressionTree.java` (`return eval;` after the if-chain) is unreachable and names an undeclared variable. The model treats the chain as ending at the division branch.
- Expressions.ExpressionTree.Simplify: the node-level `simplify` always returns false, so the branch that sets the fitness to `Double.MAX_VALUE` is unreachable and the model keeps the fitness unchanged.
- Simplification.Simplify: states `Size(s) <= Size(t)` rather than an exact node count. A fold removes two nodes only when neither child is an `x / x` that was rewritten to 1.0 and still has its children attached.
