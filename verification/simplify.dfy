/** The bottom-up rewrite `ExpressionTreeNode.simplify`. */
module Simplification {
  import opened Outcomes
  import opened Operators
  import opened Nodes
  import opened Trees
  import opened Semantics

  /** The value a folded `+`, `-` or `*` node takes. */
  function Fold(op: Operator, a: real, b: real): (c: real)
    requires op != Divide
    ensures c == Apply(op, a, b).value
  {
    match op
    case Add => a + b
    case Subtract => a - b
    case Multiply => a * b
  }

  /** Would the rewrite change an operator node `v` whose children are `l` and `r`? */
  predicate Reducible(v: Payload, l: Tree, r: Tree)
    requires l.Node? && r.Node?
  {
    v.Op? &&
    ((l.val.Coef? && r.val.Coef? && v.op != Divide) ||
     (l.val.Var? && r.val.Var? && v.op == Divide && l.val.name == r.val.name))
  }

  /**
   * `simplify`: children first, then, only at a node with a parent (`isRoot` false) that is
   * an operator, fold two coefficient children under `+`, `-`, `*` into a childless
   * coefficient, or turn `x / x` into the coefficient 1.0 with both children left attached.
   * A division of two coefficients is left alone. The source compares the two variables of
   * `x / x` as references; here their names are compared.
   */
  function Simplify(t: Tree, isRoot: bool): (s: Tree)
    requires Complete(t)
    ensures Complete(s)
    ensures s.Node? <==> t.Node?
    ensures Size(s) <= Size(t)
    ensures isRoot ==> s.Nil? || s.val == t.val
    decreases t
  {
    match t
    case Nil => Nil
    case Node(v, l, r) =>
      var l' := Simplify(l, false);
      var r' := Simplify(r, false);
      if !isRoot && v.Op? then
        if l'.val.Coef? && r'.val.Coef? && v.op != Divide then
          Leaf(Coef(Fold(v.op, l'.val.value, r'.val.value)))
        else if l'.val.Var? && r'.val.Var? && v.op == Divide && l'.val.name == r'.val.name then
          Node(Coef(1.0), l', r')
        else
          Node(v, l', r')
      else
        Node(v, l', r')
  }

  /** No node below the root (or at it, when `isRoot` is false) can be rewritten. */
  predicate Normal(t: Tree, isRoot: bool)
  {
    match t
    case Nil => true
    case Node(v, l, r) =>
      Normal(l, false) && Normal(r, false) &&
      (!isRoot && v.Op? && l.Node? && r.Node? ==> !Reducible(v, l, r))
  }

  /** After one pass nothing is left to rewrite. */
  lemma {:induction false} SimplifyNormal(t: Tree, isRoot: bool)
    requires Complete(t)
    ensures Normal(Simplify(t, isRoot), isRoot)
    decreases t
  {
    if t.Node? {
      SimplifyNormal(t.left, false);
      SimplifyNormal(t.right, false);
    }
  }

  /** A tree with nothing to rewrite is left as it is. */
  lemma {:induction false} NormalFixed(t: Tree, isRoot: bool)
    requires Complete(t) && Normal(t, isRoot)
    ensures Simplify(t, isRoot) == t
    decreases t
  {
    if t.Node? {
      NormalFixed(t.left, false);
      NormalFixed(t.right, false);
    }
  }

  /** Simplifying twice is simplifying once. */
  lemma {:induction false} SimplifyIdempotent(t: Tree, isRoot: bool)
    requires Complete(t)
    ensures Simplify(Simplify(t, isRoot), isRoot) == Simplify(t, isRoot)
  {
    SimplifyNormal(t, isRoot);
    NormalFixed(Simplify(t, isRoot), isRoot);
  }

  /**
   * With exact arithmetic the rewrite keeps the value of every evaluation that succeeds, and
   * it can only lower the division-by-zero flag: `x / x` gave 1 for a nonzero `x` and 1.0
   * with the flag for a zero `x`, and now gives 1.0 without it.
   */
  lemma {:induction false} SimplifyKeepsValue(t: Tree, isRoot: bool, env: Bindings)
    requires Complete(t)
    requires Evaluate(t, env).Success?
    ensures Evaluate(Simplify(t, isRoot), env).Success?
    ensures Evaluate(Simplify(t, isRoot), env).value.value == Evaluate(t, env).value.value
    ensures Evaluate(Simplify(t, isRoot), env).value.zeroDivisor ==> Evaluate(t, env).value.zeroDivisor
    decreases t
  {
    if t.val.Op? {
      SimplifyKeepsValue(t.left, false, env);
      SimplifyKeepsValue(t.right, false, env);
      StepKeepsValue(t.val, t.left, t.right, isRoot, env);
    }
  }

  /** One node's step, given that its children already keep their values. */
  lemma StepKeepsValue(v: Payload, l: Tree, r: Tree, isRoot: bool, env: Bindings)
    requires v.Op? && Complete(Node(v, l, r))
    requires Evaluate(Node(v, l, r), env).Success?
    requires Evaluate(Simplify(l, false), env).Success? && Evaluate(Simplify(r, false), env).Success?
    requires Evaluate(Simplify(l, false), env).value.value == Evaluate(l, env).value.value
    requires Evaluate(Simplify(r, false), env).value.value == Evaluate(r, env).value.value
    requires Evaluate(Simplify(l, false), env).value.zeroDivisor ==> Evaluate(l, env).value.zeroDivisor
    requires Evaluate(Simplify(r, false), env).value.zeroDivisor ==> Evaluate(r, env).value.zeroDivisor
    ensures Evaluate(Simplify(Node(v, l, r), isRoot), env).Success?
    ensures Evaluate(Simplify(Node(v, l, r), isRoot), env).value.value == Evaluate(Node(v, l, r), env).value.value
    ensures Evaluate(Simplify(Node(v, l, r), isRoot), env).value.zeroDivisor ==> Evaluate(Node(v, l, r), env).value.zeroDivisor
  {
    var op := v.op;
    var l', r' := Simplify(l, false), Simplify(r, false);
    var a, b := Evaluate(l, env).value, Evaluate(r, env).value;
    var a', b' := Evaluate(l', env).value, Evaluate(r', env).value;
    var z := Apply(op, a.value, b.value);
    EvaluateOp(op, l, r, env);
    EvaluateOp(op, l', r', env);
    assert Apply(op, a'.value, b'.value) == z;
    if !isRoot && l'.val.Coef? && r'.val.Coef? && op != Divide {
      assert Simplify(Node(v, l, r), isRoot) == Leaf(Coef(Fold(op, l'.val.value, r'.val.value)));
    } else if !isRoot && l'.val.Var? && r'.val.Var? && op == Divide && l'.val.name == r'.val.name {
      assert Simplify(Node(v, l, r), isRoot) == Node(Coef(1.0), l', r');
      assert a.value == b.value;
      if b.value != 0.0 {
        SelfQuotient(a.value, b.value, z.value);
      }
    } else {
      assert Simplify(Node(v, l, r), isRoot) == Node(v, l', r');
    }
  }

  /** An operator node over two children that evaluate applies its operator to their values. */
  lemma EvaluateOp(op: Operator, l: Tree, r: Tree, env: Bindings)
    requires Evaluate(l, env).Success? && Evaluate(r, env).Success?
    ensures var a, b := Evaluate(l, env).value, Evaluate(r, env).value;
      var z := Apply(op, a.value, b.value);
      Evaluate(Node(Op(op), l, r), env) == Success(Evaluation(z.value, a.zeroDivisor || b.zeroDivisor || z.zeroDivisor))
  {
  }

  /** A quotient whose product with a non-zero divisor gives back the divisor is one. */
  lemma SelfQuotient(y: real, x: real, z: real)
    requires x != 0.0 && z * x == y && y == x
    ensures z == 1.0
  {
    assert (z - 1.0) * x == 0.0;
  }

  /** The root is never rewritten: only its subtrees are simplified. */
  lemma RootKept(v: Payload, l: Tree, r: Tree)
    requires Complete(Node(v, l, r))
    ensures Simplify(Node(v, l, r), true) == Node(v, Simplify(l, false), Simplify(r, false))
  {
  }

  /** A whole tree `2 + 3` is not folded: its operator is the root. */
  lemma SumOfCoefficientsKeptAtRoot()
    ensures Simplify(Node(Op(Add), Leaf(Coef(2.0)), Leaf(Coef(3.0))), true)
         == Node(Op(Add), Leaf(Coef(2.0)), Leaf(Coef(3.0)))
  {
  }
}
