/** The value-level meaning of the queue-based `ExpressionTree` constructor. */
module Construction {
  import opened Outcomes
  import opened Operators
  import opened Nodes
  import opened Trees
  import opened Simplification

  /** The tree the loop leaves in `root`, and what is left in the terminal queue `q2`. */
  datatype Assembly = Assembly(root: Tree, queue: seq<Tree>)

  /**
   * The loop from the state where `operators` remain in `q1`, `queue` is `q2` and `current`
   * is the operator polled last: poll an operator, give it the two nodes at the head of the
   * queue as children, and enqueue it. Polling an empty queue yields null and the next
   * dereference fails; with no operator at all the root stays null and the `simplify` that
   * follows dereferences it. Each round takes two trees from the queue and puts one back, and
   * the root left at the end holds the operator polled last.
   */
  function Assemble(operators: seq<Operator>, queue: seq<Tree>, current: Tree): (r: Result<Assembly, Exception>)
    ensures r.Failure? ==> r.error == NullPointer
    ensures r.Success? ==> r.value.root.Node? && |r.value.queue| + |operators| == |queue|
    ensures r.Success? && |operators| == 0 ==> r.value.root == current
    ensures r.Success? && |operators| > 0 ==> r.value.root.val == Op(operators[|operators| - 1])
    decreases |operators|
  {
    if |operators| == 0 then
      if current.Nil? then Failure(NullPointer) else Success(Assembly(current, queue))
    else if |queue| < 2 then Failure(NullPointer)
    else
      var n := Node(Op(operators[0]), queue[0], queue[1]);
      Assemble(operators[1..], queue[2..] + [n], n)
  }

  /** The loop runs to the end exactly when there is an operator and enough terminals. */
  lemma {:induction false} AssembleSucceeds(operators: seq<Operator>, queue: seq<Tree>, current: Tree)
    requires |operators| > 0
    ensures Assemble(operators, queue, current).Success? <==> |queue| >= |operators| + 1
    decreases |operators|
  {
    if |queue| >= 2 && |operators| > 1 {
      var n := Node(Op(operators[0]), queue[0], queue[1]);
      AssembleSucceeds(operators[1..], queue[2..] + [n], n);
    }
  }

  /** The payloads of the leaves of every tree in the queue, front to back. */
  function QueueLeaves(q: seq<Tree>): seq<Payload>
  {
    if q == [] then [] else Leaves(q[0]) + QueueLeaves(q[1..])
  }

  /** The operators of every tree in the queue, front to back. */
  function QueueOperators(q: seq<Tree>): seq<Operator>
  {
    if q == [] then [] else OperatorsOf(q[0]) + QueueOperators(q[1..])
  }

  function QueueSize(q: seq<Tree>): nat
  {
    if q == [] then 0 else Size(q[0]) + QueueSize(q[1..])
  }

  /** The queue measures of a tree in front of a queue. */
  lemma QueueCons(x: Tree, q: seq<Tree>)
    ensures QueueLeaves([x] + q) == Leaves(x) + QueueLeaves(q)
    ensures QueueOperators([x] + q) == OperatorsOf(x) + QueueOperators(q)
    ensures QueueSize([x] + q) == Size(x) + QueueSize(q)
  {
    assert ([x] + q)[1..] == q;
  }

  /** The leaves of two queues one after the other. */
  lemma {:induction false} LeavesAppend(a: seq<Tree>, b: seq<Tree>)
    ensures QueueLeaves(a + b) == QueueLeaves(a) + QueueLeaves(b)
    decreases |a|
  {
    if a == [] {
      assert a + b == b;
    } else {
      assert (a + b)[0] == a[0] && (a + b)[1..] == a[1..] + b;
      LeavesAppend(a[1..], b);
      assert QueueLeaves(a + b) == Leaves(a[0]) + (QueueLeaves(a[1..]) + QueueLeaves(b));
    }
  }

  /** The operators of two queues one after the other. */
  lemma {:induction false} OperatorsAppend(a: seq<Tree>, b: seq<Tree>)
    ensures QueueOperators(a + b) == QueueOperators(a) + QueueOperators(b)
    decreases |a|
  {
    if a == [] {
      assert a + b == b;
    } else {
      assert (a + b)[0] == a[0] && (a + b)[1..] == a[1..] + b;
      OperatorsAppend(a[1..], b);
      assert QueueOperators(a + b) == OperatorsOf(a[0]) + (QueueOperators(a[1..]) + QueueOperators(b));
    }
  }

  /** The size of two queues one after the other. */
  lemma {:induction false} SizeAppend(a: seq<Tree>, b: seq<Tree>)
    ensures QueueSize(a + b) == QueueSize(a) + QueueSize(b)
    decreases |a|
  {
    if a == [] {
      assert a + b == b;
    } else {
      assert (a + b)[0] == a[0] && (a + b)[1..] == a[1..] + b;
      SizeAppend(a[1..], b);
    }
  }

  /** The queue measures of a queue with one more tree at the back. */
  lemma QueueSnoc(q: seq<Tree>, x: Tree)
    ensures QueueLeaves(q + [x]) == QueueLeaves(q) + Leaves(x)
    ensures QueueOperators(q + [x]) == QueueOperators(q) + OperatorsOf(x)
    ensures QueueSize(q + [x]) == QueueSize(q) + Size(x)
  {
    LeavesAppend(q, [x]);
    OperatorsAppend(q, [x]);
    SizeAppend(q, [x]);
    QueueCons(x, []);
    assert [x] + [] == [x];
  }

  /** The queue measures split after the two trees at the head. */
  lemma QueueHead(q: seq<Tree>)
    requires |q| >= 2
    ensures QueueLeaves(q) == Leaves(q[0]) + (Leaves(q[1]) + QueueLeaves(q[2..]))
    ensures QueueOperators(q) == OperatorsOf(q[0]) + (OperatorsOf(q[1]) + QueueOperators(q[2..]))
    ensures QueueSize(q) == Size(q[0]) + (Size(q[1]) + QueueSize(q[2..]))
  {
    assert q == [q[0]] + ([q[1]] + q[2..]);
    QueueCons(q[1], q[2..]);
    QueueCons(q[0], [q[1]] + q[2..]);
  }

  /** One round of the loop moves two trees under a new operator and keeps every count. */
  lemma Round(op: Operator, queue: seq<Tree>)
    requires |queue| >= 2 && queue[0].Node? && queue[1].Node?
    ensures var q' := queue[2..] + [Node(Op(op), queue[0], queue[1])];
      multiset(QueueLeaves(q')) == multiset(QueueLeaves(queue)) &&
      multiset(QueueOperators(q')) == multiset(QueueOperators(queue)) + multiset{op} &&
      QueueSize(q') == QueueSize(queue) + 1
  {
    RoundLeaves(op, queue);
    RoundOperators(op, queue);
    var n := Node(Op(op), queue[0], queue[1]);
    QueueSnoc(queue[2..], n);
    QueueHead(queue);
  }

  lemma RoundLeaves(op: Operator, queue: seq<Tree>)
    requires |queue| >= 2 && queue[0].Node? && queue[1].Node?
    ensures multiset(QueueLeaves(queue[2..] + [Node(Op(op), queue[0], queue[1])])) == multiset(QueueLeaves(queue))
  {
    var n := Node(Op(op), queue[0], queue[1]);
    QueueSnoc(queue[2..], n);
    QueueHead(queue);
    assert Leaves(n) == Leaves(queue[0]) + Leaves(queue[1]);
    Rotate(Leaves(queue[0]), Leaves(queue[1]), QueueLeaves(queue[2..]));
  }

  lemma RoundOperators(op: Operator, queue: seq<Tree>)
    requires |queue| >= 2
    ensures multiset(QueueOperators(queue[2..] + [Node(Op(op), queue[0], queue[1])])) == multiset(QueueOperators(queue)) + multiset{op}
  {
    var n := Node(Op(op), queue[0], queue[1]);
    QueueSnoc(queue[2..], n);
    QueueHead(queue);
    assert OperatorsOf(n) == OperatorsOf(queue[0]) + [op] + OperatorsOf(queue[1]);
    RotateAround(OperatorsOf(queue[0]), op, OperatorsOf(queue[1]), QueueOperators(queue[2..]));
  }

  lemma Rotate<T>(a: seq<T>, b: seq<T>, c: seq<T>)
    ensures multiset(c + (a + b)) == multiset(a + (b + c))
  {
  }

  lemma RotateAround<T>(a: seq<T>, x: T, b: seq<T>, c: seq<T>)
    ensures multiset(c + (a + [x] + b)) == multiset(a + (b + c)) + multiset{x}
  {
  }

  /**
   * What the loop promises about its result: one node left in the queue, the root, holding
   * the last operator; every operator node has two children; every leaf and operator that
   * went in is in the root, nothing lost and nothing added.
   */
  ghost predicate WellAssembled(a: Assembly, operators: seq<Operator>, queue: seq<Tree>)
  {
    && a.queue == [a.root] && a.root.Node? && Strict(a.root)
    && (|operators| > 0 ==> a.root.val == Op(operators[|operators| - 1]))
    && multiset(Leaves(a.root)) == multiset(QueueLeaves(queue))
    && multiset(OperatorsOf(a.root)) == multiset(QueueOperators(queue)) + multiset(operators)
    && Size(a.root) == QueueSize(queue) + |operators|
  }

  /** With exactly one more terminal tree than operators the loop ends well assembled. */
  lemma {:induction false} AssembleShape(operators: seq<Operator>, queue: seq<Tree>, current: Tree)
    requires |operators| > 0 ==> |queue| == |operators| + 1
    requires |operators| == 0 ==> queue == [current] && current.Node?
    requires forall i :: 0 <= i < |queue| ==> queue[i].Node? && Strict(queue[i])
    ensures Assemble(operators, queue, current).Success?
    ensures WellAssembled(Assemble(operators, queue, current).value, operators, queue)
    decreases |operators|
  {
    if |operators| == 0 {
      QueueCons(current, []);
      assert [current] + [] == queue;
    } else {
      var n := Node(Op(operators[0]), queue[0], queue[1]);
      var q' := queue[2..] + [n];
      Round(operators[0], queue);
      RoundStrict(operators[0], queue);
      if |operators| == 1 {
        assert q' == [n];
      }
      AssembleShape(operators[1..], q', n);
      assert Assemble(operators, queue, current) == Assemble(operators[1..], q', n);
      StepWell(Assemble(operators[1..], q', n).value, operators, queue);
    }
  }

  /** One more round in front keeps the loop's result well assembled. */
  lemma StepWell(a: Assembly, operators: seq<Operator>, queue: seq<Tree>)
    requires |operators| > 0 && |queue| >= 2 && queue[0].Node? && queue[1].Node?
    requires WellAssembled(a, operators[1..], queue[2..] + [Node(Op(operators[0]), queue[0], queue[1])])
    requires |operators| == 1 ==> a.root == Node(Op(operators[0]), queue[0], queue[1])
    ensures WellAssembled(a, operators, queue)
  {
    var q' := queue[2..] + [Node(Op(operators[0]), queue[0], queue[1])];
    Round(operators[0], queue);
    HeadAndLast(operators);
    Regroup(multiset(OperatorsOf(a.root)), multiset(QueueOperators(queue)), multiset(QueueOperators(q')),
      multiset(operators), multiset(operators[1..]), operators[0]);
  }

  lemma Regroup<T>(all: multiset<T>, q: multiset<T>, q': multiset<T>, ops: multiset<T>, ops': multiset<T>, x: T)
    requires all == q' + ops' && q' == q + multiset{x} && ops == multiset{x} + ops'
    ensures all == q + ops
  {
  }

  /** The new operator node is strict when the two trees it takes are. */
  lemma RoundStrict(op: Operator, queue: seq<Tree>)
    requires |queue| >= 2
    requires forall i :: 0 <= i < |queue| ==> queue[i].Node? && Strict(queue[i])
    ensures var q' := queue[2..] + [Node(Op(op), queue[0], queue[1])];
      forall i :: 0 <= i < |q'| ==> q'[i].Node? && Strict(q'[i])
  {
  }

  lemma HeadAndLast<T>(s: seq<T>)
    requires |s| > 0
    ensures multiset(s) == multiset{s[0]} + multiset(s[1..])
    ensures |s| > 1 ==> s[1..][|s| - 2] == s[|s| - 1]
  {
    assert s == [s[0]] + s[1..];
  }

  /** The terminal nodes of the constructor: the variables first, then the coefficients. */
  function Terminals(variables: seq<string>, coefficients: seq<real>): (q: seq<Tree>)
    ensures |q| == |variables| + |coefficients|
  {
    seq(|variables|, i requires 0 <= i < |variables| => Leaf(Var(variables[i])))
    + seq(|coefficients|, i requires 0 <= i < |coefficients| => Leaf(Coef(coefficients[i])))
  }

  /** The payloads of the constructor's operator nodes, in the order of the operator list. */
  function OperatorPayloads(operators: seq<Operator>): seq<Payload>
  {
    seq(|operators|, x requires 0 <= x < |operators| => Op(operators[x]))
  }

  function TerminalPayloads(variables: seq<string>, coefficients: seq<real>): seq<Payload>
  {
    seq(|variables|, i requires 0 <= i < |variables| => Var(variables[i]))
    + seq(|coefficients|, i requires 0 <= i < |coefficients| => Coef(coefficients[i]))
  }

  /** The positions `0 .. n-1` in order. */
  function Range(n: nat): seq<nat>
  {
    seq(n, i requires 0 <= i < n => i)
  }

  /** `order` is a permutation of the positions `0 .. n-1`, the outcome of `Collections.shuffle`. */
  predicate IsPermutation(order: seq<nat>, n: nat)
  {
    |order| == n && (forall j :: 0 <= j < n ==> order[j] < n) && multiset(order) == multiset(Range(n))
  }

  /** The elements of `s` at the positions `order` lists. */
  function Pick<T>(s: seq<T>, order: seq<nat>): seq<T>
    requires forall j :: 0 <= j < |order| ==> order[j] < |s|
  {
    seq(|order|, j requires 0 <= j < |order| => s[order[j]])
  }

  /** `Collections.shuffle`, with the permutation it draws passed in. */
  function Shuffle<T>(s: seq<T>, order: seq<nat>): (r: seq<T>)
    requires IsPermutation(order, |s|)
    ensures |r| == |s| && multiset(r) == multiset(s)
  {
    PickMultiset(s, order, Range(|s|));
    assert Pick(s, Range(|s|)) == s;
    Pick(s, order)
  }

  /** `u` without its element at position `p`. */
  function Without<T>(u: seq<T>, p: nat): (r: seq<T>)
    requires p < |u|
    ensures |r| == |u| - 1
  {
    u[..p] + u[p + 1..]
  }

  lemma RemoveAt<T>(u: seq<T>, p: nat)
    requires p < |u|
    ensures multiset(u) == multiset{u[p]} + multiset(Without(u, p))
  {
    assert u == u[..p] + [u[p]] + u[p + 1..];
  }

  lemma PickWithout<T>(s: seq<T>, o: seq<nat>, p: nat)
    requires p < |o| && forall j :: 0 <= j < |o| ==> o[j] < |s|
    ensures Pick(s, Without(o, p)) == Without(Pick(s, o), p)
  {
  }

  /** Picking by two index lists with the same elements picks the same elements. */
  lemma {:induction false} PickMultiset<T>(s: seq<T>, o1: seq<nat>, o2: seq<nat>)
    requires forall j :: 0 <= j < |o1| ==> o1[j] < |s|
    requires forall j :: 0 <= j < |o2| ==> o2[j] < |s|
    requires multiset(o1) == multiset(o2)
    ensures multiset(Pick(s, o1)) == multiset(Pick(s, o2))
    decreases |o1|
  {
    if |o1| == 0 {
      assert |multiset(o2)| == 0;
      assert o2 == [];
    } else {
      var x := o1[0];
      assert x in multiset(o2);
      var p :| 0 <= p < |o2| && o2[p] == x;
      RemoveAt(o1, 0);
      RemoveAt(o2, p);
      Cancel(multiset(Without(o1, 0)), multiset(Without(o2, p)), x);
      PickMultiset(s, Without(o1, 0), Without(o2, p));
      PickWithout(s, o1, 0);
      PickWithout(s, o2, p);
      RemoveAt(Pick(s, o1), 0);
      RemoveAt(Pick(s, o2), p);
    }
  }

  lemma Cancel<T>(a: multiset<T>, b: multiset<T>, x: T)
    requires multiset{x} + a == multiset{x} + b
    ensures a == b
  {
    assert forall y :: a[y] == (multiset{x} + a)[y] - multiset{x}[y];
    assert forall y :: b[y] == (multiset{x} + b)[y] - multiset{x}[y];
  }

  /**
   * The constructor's tree before `simplify`: the terminals shuffled, then assembled under
   * the operators in their given order.
   */
  function Build(operators: seq<Operator>, variables: seq<string>, coefficients: seq<real>, order: seq<nat>): (r: Result<Tree, Exception>)
    requires IsPermutation(order, |variables| + |coefficients|)
    ensures r.Failure? ==> r.error == NullPointer
    ensures r.Success? ==> |operators| > 0 && r.value.Node? && r.value.val == Op(operators[|operators| - 1])
  {
    match Assemble(operators, Shuffle(Terminals(variables, coefficients), order), Nil)
    case Failure(e) => Failure(e)
    case Success(a) => Success(a.root)
  }

  lemma {:induction false} TerminalQueue(variables: seq<string>, coefficients: seq<real>, order: seq<nat>)
    requires IsPermutation(order, |variables| + |coefficients|)
    ensures var q := Shuffle(Terminals(variables, coefficients), order);
      (forall i :: 0 <= i < |q| ==> q[i].Node? && Strict(q[i])) &&
      multiset(QueueLeaves(q)) == multiset(TerminalPayloads(variables, coefficients)) &&
      QueueOperators(q) == [] && QueueSize(q) == |q|
  {
    var ps := TerminalPayloads(variables, coefficients);
    var q := Shuffle(Terminals(variables, coefficients), order);
    TerminalLeaves(variables, coefficients);
    assert forall i :: 0 <= i < |q| ==> q[i] == Leaf(ps[order[i]]);
    TerminalsAreLeaves(q);
    assert QueueLeaves(q) == Shuffle(ps, order);
  }

  /** The terminal trees are childless nodes holding the terminal payloads. */
  lemma TerminalLeaves(variables: seq<string>, coefficients: seq<real>)
    ensures |TerminalPayloads(variables, coefficients)| == |variables| + |coefficients|
    ensures forall x :: 0 <= x < |variables| + |coefficients| ==>
      Terminals(variables, coefficients)[x] == Leaf(TerminalPayloads(variables, coefficients)[x])
  {
  }

  /** A queue of childless terminal nodes contributes their payloads and nothing else. */
  lemma {:induction false} TerminalsAreLeaves(q: seq<Tree>)
    requires forall i :: 0 <= i < |q| ==> q[i].Node? && q[i].left.Nil? && q[i].right.Nil? && !q[i].val.Op?
    ensures forall i :: 0 <= i < |q| ==> q[i].Node? && Strict(q[i])
    ensures |QueueLeaves(q)| == |q| && forall i :: 0 <= i < |q| ==> QueueLeaves(q)[i] == q[i].val
    ensures QueueOperators(q) == [] && QueueSize(q) == |q|
    decreases |q|
  {
    if q != [] {
      TerminalsAreLeaves(q[1..]);
      assert q[0] == Leaf(q[0].val);
      LeafMeasures(q[0].val);
      assert QueueLeaves(q) == [q[0].val] + QueueLeaves(q[1..]);
      forall i | 1 <= i < |q|
        ensures QueueLeaves(q)[i] == q[i].val
      {
        assert QueueLeaves(q)[i] == QueueLeaves(q[1..])[i - 1] == q[1..][i - 1].val;
      }
    }
  }

  /**
   * With n > 0 operators and n + 1 terminals the constructor's tree has size 2n + 1, its root
   * holds the last operator, every operator node has two children and every terminal is a
   * leaf, and its leaves are the supplied terminals in some order.
   */
  lemma BuildShape(operators: seq<Operator>, variables: seq<string>, coefficients: seq<real>, order: seq<nat>)
    requires IsPermutation(order, |variables| + |coefficients|)
    requires |operators| > 0 && |variables| + |coefficients| == |operators| + 1
    ensures Build(operators, variables, coefficients, order).Success?
    ensures var t := Build(operators, variables, coefficients, order).value;
      && t.Node? && Strict(t) && Complete(t)
      && t.val == Op(operators[|operators| - 1])
      && Size(t) == 2 * |operators| + 1
      && multiset(Leaves(t)) == multiset(TerminalPayloads(variables, coefficients))
      && multiset(OperatorsOf(t)) == multiset(operators)
  {
    var q := Shuffle(Terminals(variables, coefficients), order);
    TerminalQueue(variables, coefficients, order);
    AssembleShape(operators, q, Nil);
    var t := Assemble(operators, q, Nil).value.root;
    StrictCounts(t);
    assert multiset(QueueOperators(q)) == multiset{};
  }

  /**
   * The constructor fails with a null dereference exactly when there is no operator (the root
   * stays null) or fewer terminals than operators plus one (a poll returns null).
   */
  lemma BuildFails(operators: seq<Operator>, variables: seq<string>, coefficients: seq<real>, order: seq<nat>)
    requires IsPermutation(order, |variables| + |coefficients|)
    ensures Build(operators, variables, coefficients, order).Failure? <==>
      |operators| == 0 || |variables| + |coefficients| < |operators| + 1
    ensures Build(operators, variables, coefficients, order).Failure? ==>
      Build(operators, variables, coefficients, order).error == NullPointer
  {
    var q := Shuffle(Terminals(variables, coefficients), order);
    if |operators| > 0 {
      AssembleSucceeds(operators, q, Nil);
    }
  }

  /** From strict terminal trees, whatever the loop leaves in `root` is a strict operator tree. */
  lemma {:induction false} AssembleStrict(operators: seq<Operator>, queue: seq<Tree>, current: Tree)
    requires forall i :: 0 <= i < |queue| ==> queue[i].Node? && Strict(queue[i])
    requires Strict(current)
    ensures Assemble(operators, queue, current).Success? ==>
      Assemble(operators, queue, current).value.root.Node? && Strict(Assemble(operators, queue, current).value.root)
    decreases |operators|
  {
    if |operators| > 0 && |queue| >= 2 {
      var n := Node(Op(operators[0]), queue[0], queue[1]);
      RoundStrict(operators[0], queue);
      AssembleStrict(operators[1..], queue[2..] + [n], n);
    }
  }

  /** A Java list holds no `null` element; `None` stands for `null`. */
  predicate NoNull<T>(xs: seq<Option<T>>)
  {
    forall i :: 0 <= i < |xs| ==> xs[i].Some?
  }

  /** The elements of a list without `null`. */
  function Values<T>(xs: seq<Option<T>>): seq<T>
    requires NoNull(xs)
  {
    seq(|xs|, i requires 0 <= i < |xs| => xs[i].value)
  }

  /** The operator list's elements as the `Object` arguments of the node constructor. */
  function OperatorObjects(xs: seq<Option<Operator>>): seq<JavaObject>
  {
    seq(|xs|, i requires 0 <= i < |xs| => if xs[i].Some? then OperatorObject(xs[i].value) else NullObject)
  }

  /** The variable list's elements as the `Object` arguments of the node constructor. */
  function VariableObjects(xs: seq<Option<string>>): seq<JavaObject>
  {
    seq(|xs|, i requires 0 <= i < |xs| => if xs[i].Some? then StringObject(xs[i].value) else NullObject)
  }

  /** The coefficient list's elements as the `Object` arguments of the node constructor. */
  function CoefficientObjects(xs: seq<Option<real>>): seq<JavaObject>
  {
    seq(|xs|, i requires 0 <= i < |xs| => if xs[i].Some? then DoubleObject(xs[i].value) else NullObject)
  }

  /**
   * Each list passes the node check element by element exactly when it holds no `null`, and
   * then the nodes carry its values.
   */
  lemma ObjectsMatch(operators: seq<Option<Operator>>, variables: seq<Option<string>>, coefficients: seq<Option<real>>)
    ensures (forall x :: 0 <= x < |operators| ==> Matches(OPERATOR, OperatorObjects(operators)[x])) <==> NoNull(operators)
    ensures (forall x :: 0 <= x < |variables| ==> Matches(VARIABLE, VariableObjects(variables)[x])) <==> NoNull(variables)
    ensures (forall x :: 0 <= x < |coefficients| ==> Matches(COEFFICIENT, CoefficientObjects(coefficients)[x]))
        <==> NoNull(coefficients)
    ensures NoNull(operators) ==> Unboxed(OPERATOR, OperatorObjects(operators)) == OperatorPayloads(Values(operators))
    ensures NoNull(variables) && NoNull(coefficients) ==>
      Unboxed(VARIABLE, VariableObjects(variables)) + Unboxed(COEFFICIENT, CoefficientObjects(coefficients))
      == TerminalPayloads(Values(variables), Values(coefficients))
  {
    if !NoNull(operators) {
      var i :| 0 <= i < |operators| && operators[i].None?;
      assert !Matches(OPERATOR, OperatorObjects(operators)[i]);
    }
    if !NoNull(variables) {
      var i :| 0 <= i < |variables| && variables[i].None?;
      assert !Matches(VARIABLE, VariableObjects(variables)[i]);
    }
    if !NoNull(coefficients) {
      var i :| 0 <= i < |coefficients| && coefficients[i].None?;
      assert !Matches(COEFFICIENT, CoefficientObjects(coefficients)[i]);
    }
    if NoNull(operators) {
      var ps := Unboxed(OPERATOR, OperatorObjects(operators));
      assert forall x :: 0 <= x < |ps| ==> ps[x] == OperatorPayloads(Values(operators))[x];
    }
    if NoNull(variables) && NoNull(coefficients) {
      var vs := Unboxed(VARIABLE, VariableObjects(variables));
      var cs := Unboxed(COEFFICIENT, CoefficientObjects(coefficients));
      var ts := TerminalPayloads(Values(variables), Values(coefficients));
      assert forall x :: 0 <= x < |vs| ==> (vs + cs)[x] == ts[x];
      assert forall x :: |vs| <= x < |vs| + |cs| ==> (vs + cs)[x] == ts[x];
    }
  }

  /**
   * The constructor on the Java lists, which may hold `null`: a `null` element fails the node
   * check with an `IllegalArgumentException` before any linking; otherwise it builds what
   * `Constructed` describes from the elements.
   */
  function Construct(operators: seq<Option<Operator>>, variables: seq<Option<string>>, coefficients: seq<Option<real>>,
                     order: seq<nat>): Result<Tree, Exception>
    requires IsPermutation(order, |variables| + |coefficients|)
  {
    if NoNull(operators) && NoNull(variables) && NoNull(coefficients) then
      Constructed(Values(operators), Values(variables), Values(coefficients), order)
    else Failure(IllegalArgument(InnerMismatchMessage))
  }

  /**
   * The constructor throws exactly when a list holds `null` (an `IllegalArgumentException`
   * from the node check), when there is no operator, or when there are fewer terminals than
   * operators plus one (a null dereference in both of the last two cases).
   */
  lemma ConstructFails(operators: seq<Option<Operator>>, variables: seq<Option<string>>, coefficients: seq<Option<real>>,
                       order: seq<nat>)
    requires IsPermutation(order, |variables| + |coefficients|)
    ensures Construct(operators, variables, coefficients, order).Failure? <==>
      !NoNull(operators) || !NoNull(variables) || !NoNull(coefficients) ||
      |operators| == 0 || |variables| + |coefficients| < |operators| + 1
    ensures Construct(operators, variables, coefficients, order).Failure? ==>
      Construct(operators, variables, coefficients, order).error ==
        if NoNull(operators) && NoNull(variables) && NoNull(coefficients) then NullPointer
        else IllegalArgument(InnerMismatchMessage)
  {
    if NoNull(operators) && NoNull(variables) && NoNull(coefficients) {
      BuildFails(Values(operators), Values(variables), Values(coefficients), order);
    }
  }

  /**
   * What the constructor stores before computing the fitness: the assembled tree simplified
   * everywhere below its root. It exists exactly when the assembly succeeds, and keeps the
   * root operator and at most the assembled size.
   */
  function Constructed(operators: seq<Operator>, variables: seq<string>, coefficients: seq<real>, order: seq<nat>): (r: Result<Tree, Exception>)
    requires IsPermutation(order, |variables| + |coefficients|)
    ensures r.Success? <==> Build(operators, variables, coefficients, order).Success?
    ensures r.Failure? ==> r.error == NullPointer
    ensures r.Success? ==> r.value.Node? && Complete(r.value)
    ensures r.Success? ==> Build(operators, variables, coefficients, order).value.Node?
    ensures r.Success? ==> r.value.val == Build(operators, variables, coefficients, order).value.val
    ensures r.Success? ==> Size(r.value) <= Size(Build(operators, variables, coefficients, order).value)
  {
    BuildFails(operators, variables, coefficients, order);
    match Build(operators, variables, coefficients, order)
    case Failure(e) => Failure(e)
    case Success(t) =>
      BuildStrict(operators, variables, coefficients, order);
      Success(Simplify(t, true))
  }

  /** A tree the loop assembles has an operator at every inner node and a terminal at every leaf. */
  lemma BuildStrict(operators: seq<Operator>, variables: seq<string>, coefficients: seq<real>, order: seq<nat>)
    requires IsPermutation(order, |variables| + |coefficients|)
    requires Build(operators, variables, coefficients, order).Success?
    ensures var t := Build(operators, variables, coefficients, order).value;
      t.Node? && Strict(t) && Complete(t)
  {
    TerminalQueue(variables, coefficients, order);
    AssembleStrict(operators, Shuffle(Terminals(variables, coefficients), order), Nil);
    StrictCounts(Build(operators, variables, coefficients, order).value);
  }

  /** Every position below `n` occurs once in `Range(n)`, and nothing else occurs. */
  lemma {:induction false} RangeOnce(n: nat, v: int)
    ensures multiset(Range(n))[v] == if 0 <= v < n then 1 else 0
  {
    if n > 0 {
      RangeOnce(n - 1, v);
      assert Range(n) == Range(n - 1) + [n - 1];
    }
  }

  /** A value at two positions of a sequence occurs at least twice in it. */
  lemma Twice<T>(s: seq<T>, x: nat, y: nat)
    requires x < y < |s| && s[x] == s[y]
    ensures multiset(s)[s[x]] >= 2
  {
    assert s == s[..x] + [s[x]] + s[x + 1..y] + [s[y]] + s[y + 1..];
  }

  /** A permutation names every position once: shuffled entries stay distinct. */
  lemma PermutationInjective(order: seq<nat>, n: nat)
    requires IsPermutation(order, n)
    ensures forall x, y :: 0 <= x < y < n ==> order[x] != order[y]
  {
    forall x, y | 0 <= x < y < n
      ensures order[x] != order[y]
    {
      if order[x] == order[y] {
        Twice(order, x, y);
        RangeOnce(n, order[x]);
      }
    }
  }
}
