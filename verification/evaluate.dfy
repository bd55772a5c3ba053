/** The recursive interpretation of a node, `ExpressionTreeNode.evaluate`. */
module Semantics {
  import opened Outcomes
  import opened Operators
  import opened Nodes
  import opened Trees

  /** A value together with the `zeroDivisor` out-flag the recursion may raise. */
  datatype Evaluation = Evaluation(value: real, zeroDivisor: bool)

  const UndefinedVariable: string := "Undefined variable"

  /**
   * One operator applied to the values of its two children. Dividing by exactly zero does
   * not fail: it yields 1.0 and raises the flag; no other case raises it.
   */
  function Apply(op: Operator, left: real, right: real): (e: Evaluation)
    ensures e.zeroDivisor <==> op == Divide && right == 0.0
    ensures e.zeroDivisor ==> e.value == 1.0
    ensures op == Divide && right != 0.0 ==> e.value * right == left
    ensures op == Add ==> e.value - right == left
    ensures op == Subtract ==> e.value + right == left
    ensures op == Multiply ==> e.value == left * right
  {
    match op
    case Add => Evaluation(left + right, false)
    case Subtract => Evaluation(left - right, false)
    case Multiply => Evaluation(left * right, false)
    case Divide => if right == 0.0 then Evaluation(1.0, true) else Evaluation(left / right, false)
  }

  /**
   * The `HashMap<String, Double>` of variable values: a key may be bound to `null`, written
   * `None`, which throws `NullPointerException` when the lookup's result is unboxed.
   */
  type Bindings = map<string, Option<real>>

  /** The variables bound to a non-null value. */
  function Defined(env: Bindings): set<string>
  {
    set x | x in env && env[x].Some?
  }

  /**
   * `evaluate(variables, zeroDivisor)` on a node: a coefficient gives its value, a variable
   * its binding (an unbound one throws, a `null` one fails to unbox), an operator evaluates its left child, then its right
   * child, then applies itself; a null child is dereferenced. The flag is the disjunction of
   * every flag raised on the way, since the source never resets it.
   */
  function Evaluate(t: Tree, env: Bindings): (r: Result<Evaluation, Exception>)
    ensures r.Failure? ==> r.error == NullPointer || r.error == IllegalArgument(UndefinedVariable)
  {
    match t
    case Nil => Failure(NullPointer)
    case Node(Coef(c), _, _) => Success(Evaluation(c, false))
    case Node(Var(x), _, _) =>
      if x !in env then Failure(IllegalArgument(UndefinedVariable))
      else if env[x].None? then Failure(NullPointer)
      else Success(Evaluation(env[x].value, false))
    case Node(Op(op), l, r) =>
      match Evaluate(l, env)
      case Failure(e) => Failure(e)
      case Success(a) =>
        match Evaluate(r, env)
        case Failure(e) => Failure(e)
        case Success(b) =>
          var z := Apply(op, a.value, b.value);
          Success(Evaluation(z.value, a.zeroDivisor || b.zeroDivisor || z.zeroDivisor))
  }

  /**
   * The variables the evaluation looks up: those not hidden below a coefficient (a rewritten
   * `x / x` keeps its children, which are never evaluated).
   */
  function Reached(t: Tree): set<string>
  {
    match t
    case Nil => {}
    case Node(Coef(_), _, _) => {}
    case Node(Var(x), _, _) => {x}
    case Node(Op(_), l, r) => Reached(l) + Reached(r)
  }

  /**
   * On a complete tree the evaluation succeeds exactly when every variable it reaches is
   * bound to a non-null value. When every reached variable is a key the failure is the
   * unboxing `NullPointerException`; when no reached key is bound to `null` it is
   * `IllegalArgumentException("Undefined variable")`.
   */
  lemma {:induction false} EvaluateSucceeds(t: Tree, env: Bindings)
    requires t.Node? && Complete(t)
    ensures Evaluate(t, env).Success? <==> Reached(t) <= Defined(env)
    ensures Evaluate(t, env).Failure? && Reached(t) <= env.Keys ==> Evaluate(t, env).error == NullPointer
    ensures Evaluate(t, env).Failure? && (forall x :: x in Reached(t) && x in env ==> env[x].Some?) ==>
      Evaluate(t, env).error == IllegalArgument(UndefinedVariable)
    decreases t
  {
    if t.val.Op? {
      EvaluateSucceeds(t.left, env);
      EvaluateSucceeds(t.right, env);
    }
  }

  /**
   * Only the reached variables matter: two bindings that agree on them give the same
   * outcome. In particular a coefficient evaluates to its value under every binding.
   */
  lemma {:induction false} EvaluateLocal(t: Tree, env1: Bindings, env2: Bindings)
    requires forall x :: x in Reached(t) ==> (x in env1 <==> x in env2)
    requires forall x :: x in Reached(t) && x in env1 && x in env2 ==> env1[x] == env2[x]
    ensures Evaluate(t, env1) == Evaluate(t, env2)
    decreases t
  {
    if t.Node? && t.val.Op? {
      EvaluateLocal(t.left, env1, env2);
      EvaluateLocal(t.right, env1, env2);
    }
  }

  /** The flag stays down for a tree without division. */
  lemma {:induction false} NoDivisionNoFlag(t: Tree, env: Bindings)
    requires Divide !in OperatorsOf(t)
    requires Evaluate(t, env).Success?
    ensures !Evaluate(t, env).value.zeroDivisor
    decreases t
  {
    if t.val.Op? {
      NoDivisionNoFlag(t.left, env);
      NoDivisionNoFlag(t.right, env);
    }
  }
}
