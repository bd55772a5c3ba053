/**
 * The `ExpressionTree` class: a root node in the node heap and the fitness of the expression.
 * The ghost field `tree` is the value the root holds; `Valid` ties the two together.
 */
module Expressions {
  import opened Outcomes
  import opened Operators
  import opened Nodes
  import opened Trees
  import opened Semantics
  import opened Simplification
  import opened Mutation
  import opened Crossover
  import opened Construction
  import opened Arenas

  /** `Double.MAX_VALUE`, the fitness given to a tree whose evaluation divided by zero. */
  const MaxDouble: real := 179769313486231570814527423731704356798070567525844996598917476803157260780028538760589558632766878171540458953514382464234321326889464182768467546703537516986049910576551282076245490090389328944075868508455133942304583236903222948165808559332123348274797826204144723168738177180919299881250404026184124858368.0

  /** `Double.compare` on fitness values taken as exact reals: the sign of `x - y`. */
  function Compare(x: real, y: real): (c: int)
    ensures -1 <= c <= 1
    ensures c < 0 <==> x < y
    ensures c == 0 <==> x == y
  {
    if x < y then -1 else if x > y then 1 else 0
  }

  /** Swapping the arguments negates the comparison. */
  lemma CompareAntisymmetric(x: real, y: real)
    ensures Compare(x, y) == -Compare(y, x)
  {
  }

  /** The comparison orders trees consistently: it is transitive. */
  lemma CompareTransitive(x: real, y: real, z: real)
    requires Compare(x, y) <= 0 && Compare(y, z) <= 0
    ensures Compare(x, z) <= 0
  {
  }

  /** The records for two runs of payloads are the records of the first run, then the second. */
  lemma UnlinkedAppend(a: seq<Payload>, b: seq<Payload>)
    ensures Unlinked(a + b) == Unlinked(a) + Unlinked(b)
  {
  }

  /** Appending records keeps both parents of a crossover where they were. */
  lemma ParentsKept(a: seq<NodeRec>, b: seq<NodeRec>, i1: int, t1: Tree, i2: int, t2: Tree)
    requires Holds(a, i1, t1, Null) && Holds(a, i2, t2, Null) && Extends(a, b)
    ensures Holds(b, i1, t1, Null) && Holds(b, i2, t2, Null)
  {
    HoldsGrow(a, b, i1, t1, Null);
    HoldsGrow(a, b, i2, t2, Null);
  }

  /**
   * After the operator nodes and then the terminal nodes are appended, the operators wait
   * unlinked from `|n0|` on and the terminals follow them.
   */
  lemma AllocatedLayout(n0: seq<NodeRec>, nodes: seq<NodeRec>, operators: seq<Operator>, ps: seq<Payload>)
    requires nodes == n0 + Unlinked(OperatorPayloads(operators)) + Unlinked(ps)
    ensures Extends(n0, nodes) && |nodes| == |n0| + |operators| + |ps|
    ensures Pending(nodes, operators, |n0|, 0)
    ensures forall x :: 0 <= x < |ps| ==> nodes[|n0| + |operators| + x] == NodeRec(ps[x], Null, Null, Null)
  {
  }

  /**
   * After the operator nodes and then the terminal nodes are appended, the operators wait
   * unlinked and the shuffled terminal queue holds one childless node per terminal.
   */
  lemma AllocatedQueues(n0: seq<NodeRec>, nodes: seq<NodeRec>, operators: seq<Operator>, variables: seq<string>,
                        coefficients: seq<real>, order: seq<nat>, qt: seq<int>)
    requires IsPermutation(order, |variables| + |coefficients|)
    requires nodes == n0 + Unlinked(OperatorPayloads(operators)) + Unlinked(TerminalPayloads(variables, coefficients))
    requires |qt| == |variables| + |coefficients| && forall x :: 0 <= x < |qt| ==> qt[x] == |n0| + |operators| + x
    ensures Extends(n0, nodes) && |n0| + |operators| <= |nodes|
    ensures Pending(nodes, operators, |n0|, 0)
    ensures QueueHolds(nodes, Shuffle(qt, order), Shuffle(Terminals(variables, coefficients), order),
      |n0|, |n0|, |n0| + |operators|)
  {
    var ps := TerminalPayloads(variables, coefficients);
    AllocatedLayout(n0, nodes, operators, ps);
    TerminalLeaves(variables, coefficients);
    var q := Shuffle(qt, order);
    forall x | 0 <= x < |q|
      ensures q[x] == |n0| + |operators| + order[x]
    {
      ShuffledAt(qt, order, x);
    }
    InitialQueue(nodes, |n0|, |operators|, variables, coefficients, order, q);
  }

  /**
   * Right after the terminal nodes are created and shuffled, the queue `q2` holds the shuffled
   * terminal trees, one childless node each, all above the operator nodes.
   */
  lemma InitialQueue(nodes: seq<NodeRec>, base: int, n: nat, variables: seq<string>, coefficients: seq<real>,
                     order: seq<nat>, q: seq<int>)
    requires 0 <= base && IsPermutation(order, |variables| + |coefficients|)
    requires base + n + |variables| + |coefficients| <= |nodes|
    requires forall x :: 0 <= x < |variables| + |coefficients| ==>
      nodes[base + n + x] == NodeRec(TerminalPayloads(variables, coefficients)[x], Null, Null, Null)
    requires |q| == |order| && forall x :: 0 <= x < |q| ==> q[x] == base + n + order[x]
    ensures QueueHolds(nodes, q, Shuffle(Terminals(variables, coefficients), order), base, base, base + n)
  {
    var m := |variables| + |coefficients|;
    var ts := Shuffle(Terminals(variables, coefficients), order);
    var ps := TerminalPayloads(variables, coefficients);
    PermutationInjective(order, m);
    TerminalLeaves(variables, coefficients);
    forall x | 0 <= x < |q|
      ensures ts[x].Node? && Holds(nodes, q[x], ts[x], Null) && Foot(nodes, q[x], ts[x]) == {q[x]}
    {
      ShuffledAt(Terminals(variables, coefficients), order, x);
      LeafHolds(nodes, q[x], ps[order[x]]);
    }
    forall x, y | 0 <= x < y < |q|
      ensures Foot(nodes, q[x], ts[x]) !! Foot(nodes, q[y], ts[y])
    {
      assert q[x] != q[y];
    }
    forall x, z | 0 <= x < |q| && z in Foot(nodes, q[x], ts[x])
      ensures base <= z && !(base <= z < base + n)
    {
      assert z == q[x];
    }
  }

  /** The shuffle puts the element at position `order[x]` at position `x`. */
  lemma ShuffledAt<T>(s: seq<T>, order: seq<nat>, x: nat)
    requires IsPermutation(order, |s|) && x < |s|
    ensures Shuffle(s, order)[x] == s[order[x]]
  {
  }

  /** An unlinked record holds the childless node of its payload, on itself alone. */
  lemma LeafHolds(nodes: seq<NodeRec>, i: int, p: Payload)
    requires 0 <= i < |nodes| && nodes[i] == NodeRec(p, Null, Null, Null)
    ensures Holds(nodes, i, Leaf(p), Null) && Foot(nodes, i, Leaf(p)) == {i}
  {
    assert Foot(nodes, Null, Nil) == {};
  }

  class ExpressionTree {
    const arena: Arena
    var root: int
    var fitness: real
    /** The expression the root holds. */
    ghost var tree: Tree

    /** The root holds `tree` with a null parent, and every operator node has two children. */
    ghost predicate Valid()
      reads this, arena
    {
      Holds(arena.nodes, root, tree, Null) && Complete(tree)
    }

    /** The heap records of the nodes of this tree. */
    ghost function Footprint(): set<int>
      reads this, arena
    {
      Foot(arena.nodes, root, tree)
    }

    /** The root-and-fitness constructor. */
    constructor (arena: Arena, root: int, fitness: real, ghost tree: Tree)
      requires Holds(arena.nodes, root, tree, Null) && Complete(tree)
      ensures this.arena == arena && this.root == root && this.fitness == fitness && this.tree == tree
      ensures Valid()
    {
      this.arena := arena;
      this.root := root;
      this.fitness := fitness;
      this.tree := tree;
    }

    /**
     * The queue-based constructor. Operator nodes go into `q1`, terminal nodes into `q2`,
     * which is shuffled by `order`; each round links the next operator over the two nodes at
     * the head of `q2` and enqueues it. The root is the last operator, simplified below the
     * root, and the fitness is `fit` of the stored tree. A `null` list element fails the node
     * check before any linking.
     */
    static method Build(arena: Arena, operators: seq<Option<Operator>>, variables: seq<Option<string>>,
                        coefficients: seq<Option<real>>, order: seq<nat>, fit: Tree -> real)
      returns (r: Result<ExpressionTree, Exception>)
      requires IsPermutation(order, |variables| + |coefficients|)
      modifies arena
      ensures Extends(old(arena.nodes), arena.nodes)
      ensures r.Success? <==> Construct(operators, variables, coefficients, order).Success?
      ensures r.Failure? ==> r.error == Construct(operators, variables, coefficients, order).error
      ensures r.Success? ==> fresh(r.value) && r.value.arena == arena && r.value.Valid()
      ensures r.Success? ==> r.value.tree == Construct(operators, variables, coefficients, order).value
      ensures r.Success? ==> r.value.fitness == fit(r.value.tree)
      ensures r.Success? ==> forall x :: x in r.value.Footprint() ==> |old(arena.nodes)| <= x
    {
      ghost var n0 := arena.nodes;
      var queues := Allocate(arena, operators, variables, coefficients, order);
      if queues.Failure? {
        return Failure(queues.error);
      }
      ghost var ops, vs, cs := Values(operators), Values(variables), Values(coefficients);
      ghost var ts0 := Shuffle(Terminals(vs, cs), order);
      var ok, current, cur := Link(arena, queues.value.0, queues.value.1, ts0, n0, ops);
      BuildFails(ops, vs, cs, order);
      if !ok {
        return Failure(NullPointer);
      }
      TerminalQueue(vs, cs, order);
      AssembleStrict(ops, ts0, Nil);
      StrictCounts(cur);
      ghost var n1 := arena.nodes;
      r := Finish(arena, current, cur, fit);
      ExtendsPast(n0, n1, arena.nodes, Foot(n1, current, cur));
    }

    /**
     * The allocation part of the constructor: one unlinked node per operator in `q1`, one per
     * variable and then per coefficient, and `q2` holding the terminal nodes shuffled by
     * `order`. The first `null` element, operators first, then variables, then coefficients,
     * fails the node check.
     */
    static method Allocate(arena: Arena, operators: seq<Option<Operator>>, variables: seq<Option<string>>,
                           coefficients: seq<Option<real>>, order: seq<nat>)
      returns (r: Result<(seq<int>, seq<int>), Exception>)
      requires IsPermutation(order, |variables| + |coefficients|)
      modifies arena
      ensures Extends(old(arena.nodes), arena.nodes)
      ensures r.Success? <==> NoNull(operators) && NoNull(variables) && NoNull(coefficients)
      ensures r.Failure? ==> r.error == IllegalArgument(InnerMismatchMessage)
      ensures r.Success? ==> |old(arena.nodes)| + |operators| <= |arena.nodes|
      ensures r.Success? ==> |r.value.0| == |operators|
      ensures r.Success? ==> forall x :: 0 <= x < |operators| ==> r.value.0[x] == |old(arena.nodes)| + x
      ensures r.Success? ==> Pending(arena.nodes, Values(operators), |old(arena.nodes)|, 0)
      ensures r.Success? ==> QueueHolds(arena.nodes, r.value.1, Shuffle(Terminals(Values(variables), Values(coefficients)), order),
        |old(arena.nodes)|, |old(arena.nodes)|, |old(arena.nodes)| + |operators|)
    {
      ghost var n0 := arena.nodes;
      ghost var base := |n0|;
      ObjectsMatch(operators, variables, coefficients);
      var r1 := arena.AllocAll(OPERATOR, OperatorObjects(operators));
      if r1.Failure? {
        return Failure(r1.error);
      }
      ghost var n1 := arena.nodes;
      var r2 := AllocTerminals(arena, variables, coefficients);
      if r2.Failure? {
        return Failure(r2.error);
      }
      var q2 := Shuffle(r2.value, order);
      AllocatedQueues(n0, arena.nodes, Values(operators), Values(variables), Values(coefficients), order, r2.value);
      r := Success((r1.value, q2));
    }

    /**
     * The terminal part of the allocation: one unlinked node per variable, then one per
     * coefficient, in list order. The first `null` element fails the node check.
     */
    static method AllocTerminals(arena: Arena, variables: seq<Option<string>>, coefficients: seq<Option<real>>)
      returns (r: Result<seq<int>, Exception>)
      modifies arena
      ensures Extends(old(arena.nodes), arena.nodes)
      ensures r.Success? <==> NoNull(variables) && NoNull(coefficients)
      ensures r.Failure? ==> r.error == IllegalArgument(InnerMismatchMessage)
      ensures r.Success? ==> arena.nodes == old(arena.nodes) + Unlinked(TerminalPayloads(Values(variables), Values(coefficients)))
      ensures r.Success? ==> |r.value| == |variables| + |coefficients|
      ensures r.Success? ==> forall x :: 0 <= x < |r.value| ==> r.value[x] == |old(arena.nodes)| + x
    {
      ObjectsMatch([], variables, coefficients);
      var r2 := arena.AllocAll(VARIABLE, VariableObjects(variables));
      if r2.Failure? {
        return Failure(r2.error);
      }
      var r3 := arena.AllocAll(COEFFICIENT, CoefficientObjects(coefficients));
      if r3.Failure? {
        return Failure(r3.error);
      }
      UnlinkedAppend(Unboxed(VARIABLE, VariableObjects(variables)), Unboxed(COEFFICIENT, CoefficientObjects(coefficients)));
      r := Success(r2.value + r3.value);
    }

    /**
     * The constructor loop. It runs to the end exactly when the assembly succeeds, and then
     * `current`, the operator polled last, holds the assembled tree with a null parent.
     */
    static method Link(arena: Arena, q1: seq<int>, q2: seq<int>, ghost ts0: seq<Tree>, ghost n0: seq<NodeRec>,
                       ghost operators: seq<Operator>) returns (ok: bool, current: int, ghost cur: Tree)
      requires Extends(n0, arena.nodes) && |n0| + |operators| <= |arena.nodes|
      requires |q1| == |operators| && forall x :: 0 <= x < |q1| ==> q1[x] == |n0| + x
      requires Pending(arena.nodes, operators, |n0|, 0)
      requires QueueHolds(arena.nodes, q2, ts0, |n0|, |n0|, |n0| + |operators|)
      modifies arena
      ensures Extends(n0, arena.nodes)
      ensures ok <==> Assemble(operators, ts0, Nil).Success?
      ensures ok ==> cur == Assemble(operators, ts0, Nil).value.root && Holds(arena.nodes, current, cur, Null)
      ensures ok ==> forall z :: z in Foot(arena.nodes, current, cur) ==> |n0| <= z
    {
      var queue1, queue2 := q1, q2;
      current := Null;
      ghost var ts := ts0;
      cur := Nil;
      ghost var c: nat := 0;
      while |queue1| > 0
        invariant Linking(arena.nodes, n0, operators, ts0, queue1, queue2, ts, cur, current, c)
        decreases |queue1|
      {
        var more;
        more, queue1, queue2, current, ts, cur := LinkStep(arena, queue1, queue2, current, ts, cur, c, n0, operators, ts0);
        if !more {
          return false, current, cur;
        }
        c := c + 1;
      }
      assert operators[c..] == [];
      ok := current != Null;
    }

    /**
     * One pass of the constructor loop: poll an operator from `q1`, poll its two children from
     * `q2`, and enqueue it. It stops early exactly when a poll finds `q2` empty.
     */
    static method LinkStep(arena: Arena, q1: seq<int>, q2: seq<int>, current: int, ghost ts: seq<Tree>, ghost cur: Tree,
                           ghost c: nat, ghost n0: seq<NodeRec>, ghost operators: seq<Operator>, ghost ts0: seq<Tree>)
      returns (more: bool, q1': seq<int>, q2': seq<int>, current': int, ghost ts': seq<Tree>, ghost cur': Tree)
      requires Linking(arena.nodes, n0, operators, ts0, q1, q2, ts, cur, current, c) && |q1| > 0
      modifies arena
      ensures Extends(n0, arena.nodes) && |q1'| < |q1|
      ensures !more ==> Assemble(operators, ts0, Nil).Failure?
      ensures more ==> Linking(arena.nodes, n0, operators, ts0, q1', q2', ts', cur', current', c + 1)
    {
      ghost var base, n := |n0|, |operators|;
      current' := q1[0];
      q1' := q1[1..];
      ts', cur' := ts, cur;
      assert operators[c..][0] == operators[c] && operators[c..][1..] == operators[c + 1..];
      if |q2| == 0 {
        return false, q1', q2, current', ts', cur';
      }
      if |q2| == 1 {
        HalfRound(arena, current', q2[0], ts[0], base, n0);
        return false, q1', q2, current', ts', cur';
      }
      assert current' == |n0| + c && current' - |n0| == c;
      q2' := Round(arena, current', q2, ts, n0, operators);
      cur' := Node(Op(operators[c]), ts[0], ts[1]);
      ts' := ts[2..] + [cur'];
      LinkingRound(arena.nodes, n0, operators, ts0, q1, q2, ts, cur, c, q2');
      more := true;
    }

    /**
     * One round of the constructor loop: operator node `o`, still unlinked, takes the head of
     * `q2` as left child and the next node as right child, and goes to the back of `q2`.
     */
    static method Round(arena: Arena, o: int, q2: seq<int>, ghost ts: seq<Tree>, ghost n0: seq<NodeRec>,
                        ghost operators: seq<Operator>) returns (q2': seq<int>)
      requires |q2| >= 2 && |n0| <= o < |n0| + |operators| <= |arena.nodes| && Extends(n0, arena.nodes)
      requires QueueHolds(arena.nodes, q2, ts, |n0|, o, |n0| + |operators|)
      requires Pending(arena.nodes, operators, |n0|, o - |n0|)
      modifies arena
      ensures Extends(n0, arena.nodes) && Pending(arena.nodes, operators, |n0|, o + 1 - |n0|)
      ensures |arena.nodes| == |old(arena.nodes)|
      ensures q2' == q2[2..] + [o] && |q2'| > 0 && q2'[|q2'| - 1] == o
      ensures QueueHolds(arena.nodes, q2', ts[2..] + [Node(Op(operators[o - |n0|]), ts[0], ts[1])], |n0|, o + 1, |n0| + |operators|)
    {
      ghost var a := arena.nodes;
      ghost var lo, c := |n0|, o - |n0|;
      QueueStep(a, q2, ts, lo, o, lo + |operators|, Op(operators[c]));
      arena.SetLeft(o, q2[0]);
      arena.SetParent(q2[0], o);
      arena.SetRight(o, q2[1]);
      arena.SetParent(q2[1], o);
      assert arena.nodes == Linked(a, o, q2[0], q2[1]);
      PendingRound(a, arena.nodes, operators, lo, c, q2[0], q2[1]);
      ExtendsPast(n0, a, arena.nodes, {o, q2[0], q2[1]});
      q2' := q2[2..] + [o];
    }

    /** A round that finds one node left in `q2`: it becomes the left child before the null right child is dereferenced. */
    static method HalfRound(arena: Arena, o: int, l: int, ghost t: Tree, ghost lo: int, ghost n0: seq<NodeRec>)
      requires Holds(arena.nodes, l, t, Null) && t.Node? && lo == |n0| && Extends(n0, arena.nodes)
      requires lo <= o < |arena.nodes| && forall z :: z in Foot(arena.nodes, l, t) ==> lo <= z
      modifies arena
      ensures Extends(n0, arena.nodes)
    {
      FootOfHolds(arena.nodes, l, t, Null);
      ghost var a := arena.nodes;
      arena.SetLeft(o, l);
      arena.SetParent(l, o);
      ExtendsPast(n0, a, arena.nodes, {o, l});
    }

    /**
     * The end of the constructor: the tree rooted at the last operator polled, simplified
     * below its root (a null root is dereferenced), with the fitness `fit` gives it.
     */
    static method Finish(arena: Arena, current: int, ghost cur: Tree, fit: Tree -> real)
      returns (r: Result<ExpressionTree, Exception>)
      requires Holds(arena.nodes, current, cur, Null) && Complete(cur)
      modifies arena
      ensures r.Success? <==> cur.Node?
      ensures r.Failure? ==> r.error == NullPointer && arena.nodes == old(arena.nodes)
      ensures r.Success? ==> fresh(r.value) && r.value.arena == arena && r.value.Valid()
      ensures r.Success? ==> r.value.tree == Simplification.Simplify(cur, true) && r.value.fitness == fit(r.value.tree)
      ensures r.Success? ==> r.value.Footprint() <= Foot(old(arena.nodes), current, cur)
      ensures Outside(old(arena.nodes), arena.nodes, Foot(old(arena.nodes), current, cur))
    {
      var e := new ExpressionTree(arena, current, 0.0, cur);
      var s := e.Simplify();
      if s.Failure? {
        return Failure(s.error);
      }
      var t := arena.ReadTree(e.root, e.tree, Null);
      e.fitness := fit(t);
      r := Success(e);
    }

    /**
     * `evaluate`: the value of the expression under `env`, with a fresh division-by-zero flag;
     * when the flag comes back raised the fitness becomes `Double.MAX_VALUE`.
     */
    method Evaluate(env: Bindings) returns (r: Result<real, Exception>)
      requires Valid()
      modifies this`fitness
      ensures Valid() && root == old(root) && tree == old(tree)
      ensures Semantics.Evaluate(tree, env).Failure? ==>
        r == Failure(Semantics.Evaluate(tree, env).error) && fitness == old(fitness)
      ensures Semantics.Evaluate(tree, env).Success? ==> r == Success(Semantics.Evaluate(tree, env).value.value)
      ensures Semantics.Evaluate(tree, env).Success? ==>
        fitness == if Semantics.Evaluate(tree, env).value.zeroDivisor then MaxDouble else old(fitness)
    {
      var zeroDivisor := new bool[1];
      zeroDivisor[0] := false;
      r := arena.EvaluateAt(root, env, zeroDivisor, tree, Null);
      if r.Success? && zeroDivisor[0] {
        fitness := MaxDouble;
      }
    }

    /**
     * `clone`: null for a null root, otherwise a new tree over a deep copy of the nodes with
     * the same fitness. The copy lives in new records; the original keeps its own.
     */
    method Clone() returns (c: ExpressionTree?)
      requires Valid()
      modifies arena
      ensures Valid() && Extends(old(arena.nodes), arena.nodes)
      ensures c == null <==> tree.Nil?
      ensures c != null ==> fresh(c) && c.arena == arena && c.Valid() && c.tree == tree && c.fitness == fitness
      ensures c != null ==> forall x :: x in c.Footprint() ==> |old(arena.nodes)| <= x < |arena.nodes|
    {
      FootOfHolds(arena.nodes, root, tree, Null);
      if root == Null {
        return null;
      }
      ghost var n0 := arena.nodes;
      var copy := arena.Copy(root, tree, Null);
      HoldsGrow(n0, arena.nodes, root, tree, Null);
      c := new ExpressionTree(arena, copy, fitness, tree);
    }

    /**
     * The tree-level `simplify`: the nodes below the root are simplified in place. A null
     * root is dereferenced. The node-level result is always false, so the fitness stays.
     */
    method Simplify() returns (r: Result<(), Exception>)
      requires Valid()
      modifies this, arena
      ensures Valid() && root == old(root) && fitness == old(fitness)
      ensures r.Failure? <==> old(tree).Nil?
      ensures r.Failure? ==> r.error == NullPointer && arena.nodes == old(arena.nodes)
      ensures tree == Simplification.Simplify(old(tree), true)
      ensures Footprint() <= old(Footprint()) && Outside(old(arena.nodes), arena.nodes, old(Footprint()))
    {
      FootOfHolds(arena.nodes, root, tree, Null);
      if root == Null {
        return Failure(NullPointer);
      }
      var degenerate := arena.SimplifyAt(root, tree, Null);
      tree := Simplification.Simplify(tree, true);
      fitness := if degenerate then MaxDouble else fitness;
      r := Success(());
    }

    /**
     * `mutate`: every coefficient, in pre-order, takes the next draw and is shifted when its
     * chance is below `rate`. When `maxMutation < minMutation`, the first such coefficient makes
     * `nextInt` throw and the coefficients before it keep their new values. Shape, operators,
     * variables and parent links stay; a null root is dereferenced.
     */
    method Mutate(rate: real, minMutation: int, maxMutation: int, draws: seq<Draw>) returns (r: Result<(), Exception>)
      requires Valid() && |Coefficients(tree)| <= |draws|
      modifies this, arena
      ensures Valid() && root == old(root) && fitness == old(fitness)
      ensures r.Failure? <==> old(tree).Nil? || Halted(draws[..|Coefficients(old(tree))|], rate, minMutation, maxMutation)
      ensures old(tree).Nil? ==> r == Failure(NullPointer) && arena.nodes == old(arena.nodes)
      ensures old(tree).Node? && r.Failure? ==> r.error == IllegalArgument(BoundMessage)
      ensures tree == Mutation.Mutate(old(tree), rate, minMutation, maxMutation, draws[..|Coefficients(old(tree))|]).tree
      ensures Shape(tree) == Shape(old(tree))
      ensures Coefficients(tree) == Shifted(Coefficients(old(tree)), rate, minMutation, maxMutation, draws[..|Coefficients(old(tree))|])
      ensures forall j :: 0 <= j < |Coefficients(tree)| && ValidDraw(draws[j], rate, minMutation, maxMutation) ==>
        var delta := Coefficients(tree)[j] - Coefficients(old(tree))[j];
        delta == 0.0 || minMutation as real <= delta <= maxMutation as real
      ensures Footprint() == old(Footprint()) && Outside(old(arena.nodes), arena.nodes, old(Footprint()))
    {
      ghost var t0 := tree;
      ghost var k := |Coefficients(t0)|;
      FootOfHolds(arena.nodes, root, tree, Null);
      MutateKeepsShape(t0, rate, minMutation, maxMutation, draws[..k]);
      MutateCoefficients(t0, rate, minMutation, maxMutation, draws[..k]);
      MutateThrows(t0, rate, minMutation, maxMutation, draws[..k]);
      forall j | 0 <= j < k && ValidDraw(draws[j], rate, minMutation, maxMutation)
        ensures var delta := Coefficients(Mutation.Mutate(t0, rate, minMutation, maxMutation, draws[..k]).tree)[j]
                           - Coefficients(t0)[j];
          delta == 0.0 || minMutation as real <= delta <= maxMutation as real
      {
        MutationBounds(t0, rate, minMutation, maxMutation, draws[..k], j);
      }
      if root == Null {
        return Failure(NullPointer);
      }
      var _, thrown := arena.MutateAt(root, rate, minMutation, maxMutation, draws, 0, tree, Null);
      assert draws[0..k] == draws[..k];
      tree := Mutation.Mutate(tree, rate, minMutation, maxMutation, draws[..k]).tree;
      r := if thrown then Failure(IllegalArgument(BoundMessage)) else Success(());
    }

    /**
     * The retry loop of `crossover`: draw positions until the node drawn has a parent, that is
     * until it is not the root. It settles on the first draw that is not the root's position.
     */
    method PickCrossoverPoint(draws: seq<nat>) returns (j: int)
      requires Valid() && tree.Node? && CrossoverDraws(tree, draws)
      ensures j == KthIndex(arena.nodes, root, tree, CrossoverPoint(tree, draws))
    {
      ghost var k := CrossoverPoint(tree, draws);
      ghost var w :| 0 <= w < |draws| && draws[w] == k && forall m :: 0 <= m < w ==> draws[m] == RootPosition(tree);
      var d := 0;
      j := arena.RandomNodeAt(root, draws[d], tree, Null);
      PointParent(arena.nodes, root, tree, draws[d]);
      while arena.nodes[j].parent == Null
        invariant 0 <= d <= w
        invariant j == KthIndex(arena.nodes, root, tree, draws[d]) && 0 <= j < |arena.nodes|
        invariant arena.nodes[j].parent == Null <==> draws[d] == RootPosition(tree)
        decreases w - d
      {
        assert d != w;
        d := d + 1;
        j := arena.RandomNodeAt(root, draws[d], tree, Null);
        PointParent(arena.nodes, root, tree, draws[d]);
      }
      assert d == w;
    }

    /**
     * `crossover`: both parents are cloned, a non-root crossover point is drawn in each clone,
     * the two subtrees change places, and both offspring are simplified and given `fit` of
     * their trees. The parents are untouched; a null root in either parent is dereferenced.
     * The two offspring, which the source returns in a two-element array, come back as a pair.
     */
    method Crossover(other: ExpressionTree, fit: Tree -> real, draws1: seq<nat>, draws2: seq<nat>)
      returns (r: Result<(ExpressionTree, ExpressionTree), Exception>)
      requires Valid() && other.Valid() && other.arena == arena
      requires tree.Node? ==> CrossoverDraws(tree, draws1)
      requires tree.Node? && other.tree.Node? ==> CrossoverDraws(other.tree, draws2)
      modifies arena
      ensures Valid() && other.Valid() && Extends(old(arena.nodes), arena.nodes)
      ensures r.Failure? <==> tree.Nil? || other.tree.Nil?
      ensures r.Failure? ==> r.error == NullPointer
      ensures r.Success? ==> fresh(r.value.0) && fresh(r.value.1)
      ensures r.Success? ==> OffspringOf(r.value.0, r.value.1, fit)
      ensures r.Success? ==>
        (r.value.0.tree, r.value.1.tree) == Cross(tree, other.tree, CrossoverPoint(tree, draws1), CrossoverPoint(other.tree, draws2))
      ensures r.Success? ==> forall x :: x in r.value.0.Footprint() ==> |old(arena.nodes)| <= x
      ensures r.Success? ==> forall x :: x in r.value.1.Footprint() ==> |old(arena.nodes)| <= x
    {
      ghost var n0 := arena.nodes;
      var one, two := ClonePair(other);
      if one == null || two == null {
        return Failure(NullPointer);
      }
      Breed(one, two, fit, draws1, draws2, n0);
      ParentsKept(n0, arena.nodes, root, tree, other.root, other.tree);
      r := Success((one, two));
    }

    /**
     * The first step of `crossover`: both parents are cloned into fresh node records. The
     * clones are distinct, hold their parents' trees, and share no node with each other.
     */
    method ClonePair(other: ExpressionTree) returns (one: ExpressionTree?, two: ExpressionTree?)
      requires Valid() && other.Valid() && other.arena == arena
      modifies arena
      ensures Valid() && other.Valid() && Extends(old(arena.nodes), arena.nodes)
      ensures one == null <==> tree.Nil?
      ensures two == null <==> other.tree.Nil?
      ensures one != null && two != null ==>
        && fresh(one) && fresh(two) && one.arena == arena && two.arena == arena
        && one.Valid() && two.Valid() && one.tree == tree && two.tree == other.tree
        && one.Footprint() !! two.Footprint()
        && (forall x :: x in one.Footprint() ==> |old(arena.nodes)| <= x)
        && (forall x :: x in two.Footprint() ==> |old(arena.nodes)| <= x)
    {
      ghost var n0 := arena.nodes;
      one := Clone();
      ghost var n1 := arena.nodes;
      ghost var F1 := if one == null then {} else one.Footprint();
      HoldsGrow(n0, n1, other.root, other.tree, Null);
      two := other.Clone();
      ghost var n2 := arena.nodes;
      HoldsGrow(n1, n2, root, tree, Null);
      if one != null && two != null {
        HoldsGrow(n1, n2, one.root, one.tree, Null);
        assert one.Footprint() == F1;
        Separated(one.Footprint(), two.Footprint(), |n1|);
      }
    }

    /**
     * The rest of `crossover` on the two clones: swap subtrees at the drawn crossover
     * points, simplify both offspring and rate them with `fit`.
     */
    static method Breed(one: ExpressionTree, two: ExpressionTree, fit: Tree -> real, draws1: seq<nat>, draws2: seq<nat>,
                        ghost n0: seq<NodeRec>)
      requires one != two && one.arena == two.arena && one.Valid() && two.Valid()
      requires one.tree.Node? && two.tree.Node? && one.Footprint() !! two.Footprint()
      requires CrossoverDraws(one.tree, draws1) && CrossoverDraws(two.tree, draws2)
      requires Extends(n0, one.arena.nodes)
      requires forall x :: x in one.Footprint() ==> |n0| <= x
      requires forall x :: x in two.Footprint() ==> |n0| <= x
      modifies one, two, one.arena
      ensures OffspringOf(one, two, fit)
      ensures (one.tree, two.tree) ==
        Cross(old(one.tree), old(two.tree), CrossoverPoint(old(one.tree), draws1), CrossoverPoint(old(two.tree), draws2))
      ensures Extends(n0, one.arena.nodes)
      ensures forall x :: x in one.Footprint() ==> |n0| <= x
      ensures forall x :: x in two.Footprint() ==> |n0| <= x
    {
      var arena := one.arena;
      SwapPoints(one, two, draws1, draws2, n0);
      SimplifyBoth(one, two, n0);
      var t1 := arena.ReadTree(one.root, one.tree, Null);
      one.fitness := fit(t1);
      var t2 := arena.ReadTree(two.root, two.tree, Null);
      two.fitness := fit(t2);
    }

    /**
     * The middle of `crossover`: a non-root crossover point is drawn in each offspring and
     * the two subtrees change places, parent slots and parent links both.
     */
    static method SwapPoints(one: ExpressionTree, two: ExpressionTree, draws1: seq<nat>, draws2: seq<nat>, ghost n0: seq<NodeRec>)
      requires one != two && one.arena == two.arena && one.Valid() && two.Valid()
      requires one.tree.Node? && two.tree.Node? && one.Footprint() !! two.Footprint()
      requires CrossoverDraws(one.tree, draws1) && CrossoverDraws(two.tree, draws2)
      requires Extends(n0, one.arena.nodes)
      requires forall x :: x in one.Footprint() ==> |n0| <= x
      requires forall x :: x in two.Footprint() ==> |n0| <= x
      modifies one, two, one.arena
      ensures one.root == old(one.root) && two.root == old(two.root)
      ensures one.fitness == old(one.fitness) && two.fitness == old(two.fitness)
      ensures one.tree == Replace(old(one.tree), CrossoverPoint(old(one.tree), draws1),
        KthNode(old(two.tree), CrossoverPoint(old(two.tree), draws2)))
      ensures two.tree == Replace(old(two.tree), CrossoverPoint(old(two.tree), draws2),
        KthNode(old(one.tree), CrossoverPoint(old(one.tree), draws1)))
      ensures one.Valid() && two.Valid() && one.tree.Node? && two.tree.Node? && one.Footprint() !! two.Footprint()
      ensures Extends(n0, one.arena.nodes)
      ensures forall x :: x in one.Footprint() ==> |n0| <= x
      ensures forall x :: x in two.Footprint() ==> |n0| <= x
    {
      var arena := one.arena;
      ghost var t1, t2 := one.tree, two.tree;
      ghost var a := arena.nodes;
      ghost var F := one.Footprint() + two.Footprint();
      var j1 := one.PickCrossoverPoint(draws1);
      var j2 := two.PickCrossoverPoint(draws2);
      ghost var k1, k2 := CrossoverPoint(t1, draws1), CrossoverPoint(t2, draws2);
      SwapHolds(a, one.root, t1, k1, two.root, t2, k2, j1, j2);
      arena.SwapSubtrees(j1, j2);
      ExtendsPast(n0, a, arena.nodes, F);
      SubtreeComplete(t1, k1);
      SubtreeComplete(t2, k2);
      ReplaceBelowRoot(t1, k1, KthNode(t2, k2));
      ReplaceBelowRoot(t2, k2, KthNode(t1, k1));
      one.tree := Replace(t1, k1, KthNode(t2, k2));
      two.tree := Replace(t2, k2, KthNode(t1, k1));
    }

    /** The last step of `crossover`: both offspring simplified, each leaving the other intact. */
    static method SimplifyBoth(one: ExpressionTree, two: ExpressionTree, ghost n0: seq<NodeRec>)
      requires one != two && one.arena == two.arena && one.Valid() && two.Valid()
      requires one.tree.Node? && two.tree.Node? && one.Footprint() !! two.Footprint()
      requires Extends(n0, one.arena.nodes)
      requires forall x :: x in one.Footprint() ==> |n0| <= x
      requires forall x :: x in two.Footprint() ==> |n0| <= x
      modifies one, two, one.arena
      ensures one.Valid() && two.Valid() && one.Footprint() !! two.Footprint()
      ensures one.root == old(one.root) && two.root == old(two.root)
      ensures one.fitness == old(one.fitness) && two.fitness == old(two.fitness)
      ensures one.tree == Simplification.Simplify(old(one.tree), true)
      ensures two.tree == Simplification.Simplify(old(two.tree), true)
      ensures Extends(n0, one.arena.nodes)
      ensures forall x :: x in one.Footprint() ==> |n0| <= x
      ensures forall x :: x in two.Footprint() ==> |n0| <= x
    {
      var arena := one.arena;
      ghost var a := arena.nodes;
      ghost var F1, F2 := one.Footprint(), two.Footprint();
      var s1 := one.Simplify();
      ghost var b := arena.nodes;
      ghost var G1 := one.Footprint();
      ExtendsPast(n0, a, b, F1);
      FootOfHolds(a, two.root, two.tree, Null);
      OutsideAgree(a, b, F2, F1);
      HoldsFrame(a, b, two.root, two.tree, Null);
      assert two.Footprint() == F2;
      var s2 := two.Simplify();
      ExtendsPast(n0, b, arena.nodes, F2);
      FootOfHolds(b, one.root, one.tree, Null);
      assert G1 !! F2;
      OutsideAgree(b, arena.nodes, G1, F2);
      HoldsFrame(b, arena.nodes, one.root, one.tree, Null);
    }

    /** `compareTo`: `Double.compare` of the two fitness values. */
    function CompareTo(other: ExpressionTree): (c: int)
      reads this, other
      ensures -1 <= c <= 1
      ensures c < 0 <==> fitness < other.fitness
      ensures c == 0 <==> fitness == other.fitness
    {
      Compare(fitness, other.fitness)
    }
  }


  /** The state of the constructor loop after `c` passes, tied to the value-level `Assemble`. */
  ghost predicate Linking(nodes: seq<NodeRec>, n0: seq<NodeRec>, operators: seq<Operator>, ts0: seq<Tree>,
                          q1: seq<int>, q2: seq<int>, ts: seq<Tree>, cur: Tree, current: int, c: nat)
  {
    && c <= |operators| && |q1| == |operators| - c && (forall x :: 0 <= x < |q1| ==> q1[x] == |n0| + c + x)
    && |n0| + |operators| <= |nodes| && Extends(n0, nodes)
    && Pending(nodes, operators, |n0|, c)
    && QueueHolds(nodes, q2, ts, |n0|, |n0| + c, |n0| + |operators|)
    && Assemble(operators, ts0, Nil) == Assemble(operators[c..], ts, cur)
    && (c == 0 ==> current == Null && cur == Nil)
    && (c > 0 ==> |q2| > 0 && current == q2[|q2| - 1] && cur == ts[|ts| - 1])
  }

  /** A full round, linking operator `c` over the head of the queue, moves `Linking` to pass `c + 1`. */
  lemma LinkingRound(nodes: seq<NodeRec>, n0: seq<NodeRec>, operators: seq<Operator>, ts0: seq<Tree>,
                     q1: seq<int>, q2: seq<int>, ts: seq<Tree>, cur: Tree, c: nat, q2': seq<int>)
    requires c < |operators| && |q1| == |operators| - c && (forall x :: 0 <= x < |q1| ==> q1[x] == |n0| + c + x)
    requires Assemble(operators, ts0, Nil) == Assemble(operators[c..], ts, cur)
    requires |q2| == |ts| >= 2 && q2' == q2[2..] + [q1[0]]
    requires |n0| + |operators| <= |nodes| && Extends(n0, nodes) && Pending(nodes, operators, |n0|, c + 1)
    requires QueueHolds(nodes, q2', ts[2..] + [Node(Op(operators[c]), ts[0], ts[1])], |n0|, |n0| + c + 1, |n0| + |operators|)
    ensures Linking(nodes, n0, operators, ts0, q1[1..], q2', ts[2..] + [Node(Op(operators[c]), ts[0], ts[1])],
                    Node(Op(operators[c]), ts[0], ts[1]), q1[0], c + 1)
  {
    assert operators[c..][0] == operators[c] && operators[c..][1..] == operators[c + 1..];
  }

  /** The operator records from position `c` on are still unlinked, as `q1` created them. */
  ghost predicate Pending(nodes: seq<NodeRec>, operators: seq<Operator>, base: int, c: nat)
  {
    && 0 <= base && base + |operators| <= |nodes|
    && forall x :: base + c <= x < base + |operators| ==> nodes[x] == NodeRec(Op(operators[x - base]), Null, Null, Null)
  }

  /** A round touches its operator record and two records outside the pending ones. */
  lemma PendingRound(a: seq<NodeRec>, b: seq<NodeRec>, operators: seq<Operator>, base: int, c: nat, l: int, r: int)
    requires Pending(a, operators, base, c) && Outside(a, b, {base + c, l, r}) && c < |operators|
    requires !(base + c <= l < base + |operators|) && !(base + c <= r < base + |operators|)
    ensures Pending(b, operators, base, c + 1)
  {
    forall x | base + c + 1 <= x < base + |operators|
      ensures b[x] == NodeRec(Op(operators[x - base]), Null, Null, Null)
    {
      assert a[x] == NodeRec(Op(operators[x - base]), Null, Null, Null);
      assert x !in {base + c, l, r};
      assert b[x] == a[x];
    }
  }

  /** Two offspring in one heap: both valid, disjoint, and rated by `fit`. */
  ghost predicate OffspringOf(one: ExpressionTree, two: ExpressionTree, fit: Tree -> real)
    reads one, two, one.arena, two.arena
  {
    && one != two && one.arena == two.arena && one.Valid() && two.Valid()
    && one.Footprint() !! two.Footprint()
    && one.fitness == fit(one.tree) && two.fitness == fit(two.tree)
  }
}
