/**
 * Node kinds and the type-checked node constructor of `ExpressionTreeNode.java`
 * (the same check opens the inner node class of `ExpressionTree.java`).
 */
module Nodes {
  import opened Outcomes
  import opened Operators

  /** The constants of the `Type` enum that the constructor tests against. */
  datatype TypeTag = OPERATOR | VARIABLE | COEFFICIENT

  /**
   * A node's data. The source keeps a `Type` and an untyped `Object` side by side; here the
   * two travel together, so a node whose kind and value disagree cannot be represented.
   */
  datatype Payload = Op(op: Operator) | Var(name: string) | Coef(value: real)

  function TypeOf(p: Payload): TypeTag
  {
    match p
    case Op(_) => OPERATOR
    case Var(_) => VARIABLE
    case Coef(_) => COEFFICIENT
  }

  /** The `Object` a caller hands to the constructor, as `instanceof` sees it. */
  datatype JavaObject =
    | OperatorObject(op: Operator)
    | StringObject(s: string)
    | DoubleObject(d: real)
    | OtherObject
    | NullObject

  /** The payload as the `Object` the node stores. */
  function Boxed(p: Payload): JavaObject
  {
    match p
    case Op(o) => OperatorObject(o)
    case Var(x) => StringObject(x)
    case Coef(c) => DoubleObject(c)
  }

  /** Message of `ExpressionTreeNode.java` when the value has the wrong class. */
  const MismatchMessage: string := "Value does not match type"
  /** Message of the inner node class of `ExpressionTree.java` for the same case. */
  const InnerMismatchMessage: string := "value does not match type"
  const InvalidTypeMessage: string := "Invalid type"

  /** Does `value` have the class that nodes of kind `tag` carry? */
  predicate Matches(tag: TypeTag, value: JavaObject)
  {
    match tag
    case OPERATOR => value.OperatorObject?
    case VARIABLE => value.StringObject?
    case COEFFICIENT => value.DoubleObject?
  }

  /**
   * The constructor's check of its `(type, value)` arguments. `kind` is `None` for a null
   * type, the only way to reach the "Invalid type" branch; `mismatch` is the message the
   * class at hand uses when the value has the wrong class.
   */
  function CheckNode(kind: Option<TypeTag>, value: JavaObject, mismatch: string): (r: Result<Payload, Exception>)
    ensures r.Success? <==> kind.Some? && Matches(kind.value, value)
    ensures r.Success? ==> TypeOf(r.value) == kind.value && Boxed(r.value) == value
    ensures kind.None? ==> r == Failure(IllegalArgument(InvalidTypeMessage))
    ensures kind.Some? && !Matches(kind.value, value) ==> r == Failure(IllegalArgument(mismatch))
  {
    match kind
    case None => Failure(IllegalArgument(InvalidTypeMessage))
    case Some(OPERATOR) =>
      if value.OperatorObject? then Success(Op(value.op)) else Failure(IllegalArgument(mismatch))
    case Some(VARIABLE) =>
      if value.StringObject? then Success(Var(value.s)) else Failure(IllegalArgument(mismatch))
    case Some(COEFFICIENT) =>
      if value.DoubleObject? then Success(Coef(value.d)) else Failure(IllegalArgument(mismatch))
  }

  /** The payloads the check makes of values that all have the class nodes of kind `tag` carry. */
  function Unboxed(tag: TypeTag, values: seq<JavaObject>): seq<Payload>
    requires forall x :: 0 <= x < |values| ==> Matches(tag, values[x])
  {
    seq(|values|, x requires 0 <= x < |values| => CheckNode(Some(tag), values[x], InnerMismatchMessage).value)
  }

  /** Every well-typed payload passes the check unchanged: the check only rejects. */
  lemma CheckAcceptsPayload(p: Payload, mismatch: string)
    ensures CheckNode(Some(TypeOf(p)), Boxed(p), mismatch) == Success(p)
  {
  }

  /** The stand-alone mutable node class of `ExpressionTreeNode.java`. */
  class ExpressionTreeNode {
    var payload: Payload
    var leftChild: ExpressionTreeNode?
    var rightChild: ExpressionTreeNode?
    var parent: ExpressionTreeNode?

    /** Stores a payload that has passed the check, with every link null. */
    constructor (p: Payload)
      ensures payload == p
      ensures leftChild == null && rightChild == null && parent == null
    {
      payload := p;
      leftChild := null;
      rightChild := null;
      parent := null;
    }

    function Type(): TypeTag
      reads this
    {
      TypeOf(payload)
    }
  }

  /**
   * `new ExpressionTreeNode(type, value)`: throws `IllegalArgumentException` when the value
   * has the wrong class or the type is null, otherwise a fresh unlinked node holding them.
   */
  method NewNode(kind: Option<TypeTag>, value: JavaObject) returns (r: Result<ExpressionTreeNode, Exception>)
    ensures r.Success? <==> kind.Some? && Matches(kind.value, value)
    ensures r.Failure? ==> r == Failure(CheckNode(kind, value, MismatchMessage).error)
    ensures r.Success? ==> fresh(r.value)
    ensures r.Success? ==> r.value.Type() == kind.value && Boxed(r.value.payload) == value
    ensures r.Success? ==> r.value.leftChild == null && r.value.rightChild == null && r.value.parent == null
  {
    var checked := CheckNode(kind, value, MismatchMessage);
    match checked
    case Failure(e) =>
      r := Failure(e);
    case Success(p) =>
      var node := new ExpressionTreeNode(p);
      r := Success(node);
  }
}
