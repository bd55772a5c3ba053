/**
 * An expression tree seen as a value: the node graph reachable from a node through its
 * `leftChild` / `rightChild` links, with `Nil` for a null link.
 */
module Trees {
  import opened Operators
  import opened Nodes

  datatype Tree = Nil | Node(val: Payload, left: Tree, right: Tree)

  function Leaf(p: Payload): Tree
  {
    Node(p, Nil, Nil)
  }

  /** `getSize`: one for the node plus the sizes of whichever children are non-null. */
  function Size(t: Tree): (s: nat)
    ensures s == 0 <==> t.Nil?
  {
    match t
    case Nil => 0
    case Node(_, l, r) => 1 + Size(l) + Size(r)
  }

  /**
   * The in-order traversal, listing the subtree rooted at each node. This is the reference
   * against which `getSize` and `getKthNode` are checked.
   */
  function InOrder(t: Tree): (s: seq<Tree>)
    ensures |s| == Size(t)
    ensures forall u :: u in s ==> u.Node?
  {
    match t
    case Nil => []
    case Node(_, l, r) => InOrder(l) + [t] + InOrder(r)
  }

  /**
   * `getKthNode`: descends by comparing `k` with the size of the left subtree. For every
   * `k` below the size it selects the k-th node of the in-order traversal; any other `k`
   * runs into a null child.
   */
  function KthNode(t: Tree, k: nat): (s: Tree)
    requires k < Size(t)
    ensures s == InOrder(t)[k]
    decreases t
  {
    var leftSize := Size(t.left);
    if leftSize == k then t
    else if leftSize > k then KthNode(t.left, k)
    else KthNode(t.right, k - leftSize - 1)
  }

  /** The in-order position of a tree's root. */
  function RootPosition(t: Tree): nat
  {
    if t.Node? then Size(t.left) else 0
  }

  /**
   * `getRandomNode` with the draw `nextInt(size - 1)` passed in as `position`: a tree of one
   * node returns itself, a larger one its node at `position`.
   */
  function RandomPosition(t: Tree, position: nat): (k: nat)
    requires t.Node?
    requires Size(t) > 1 ==> position < Size(t) - 1
    ensures k < Size(t)
    ensures Size(t) > 1 ==> k != Size(t) - 1
    ensures Size(t) == 1 ==> KthNode(t, k) == t
  {
    if Size(t) > 1 then position else RootPosition(t)
  }

  /**
   * A drawn position names the root exactly when it equals the size of the left subtree;
   * the last in-order node, not the root, is the one no draw reaches.
   */
  lemma {:induction false} RootDrawn(t: Tree, k: nat)
    requires k < Size(t)
    ensures KthNode(t, k) == t <==> k == RootPosition(t)
  {
    if k != RootPosition(t) {
      SubtreeSmaller(t, k);
    }
  }

  lemma {:induction false} SubtreeSmaller(t: Tree, k: nat)
    requires k < Size(t)
    ensures Size(KthNode(t, k)) <= Size(t)
    ensures k != RootPosition(t) ==> Size(KthNode(t, k)) < Size(t)
    decreases t
  {
    var leftSize := Size(t.left);
    if leftSize > k {
      SubtreeSmaller(t.left, k);
    } else if leftSize < k {
      SubtreeSmaller(t.right, k - leftSize - 1);
    }
  }

  /** Every operator node has two children: the shape the constructor builds. */
  predicate Complete(t: Tree)
  {
    match t
    case Nil => true
    case Node(v, l, r) => (v.Op? ==> l.Node? && r.Node?) && Complete(l) && Complete(r)
  }

  /** The payloads of the childless nodes, left to right. */
  function Leaves(t: Tree): seq<Payload>
  {
    match t
    case Nil => []
    case Node(v, Nil, Nil) => [v]
    case Node(_, l, r) => Leaves(l) + Leaves(r)
  }

  /** A childless node has size one and is its own only leaf. */
  lemma LeafMeasures(p: Payload)
    ensures Size(Leaf(p)) == 1 && Leaves(Leaf(p)) == [p]
    ensures OperatorsOf(Leaf(p)) == if p.Op? then [p.op] else []
  {
  }

  /** The operators of the operator nodes, in in-order. */
  function OperatorsOf(t: Tree): seq<Operator>
  {
    match t
    case Nil => []
    case Node(v, l, r) => OperatorsOf(l) + (if v.Op? then [v.op] else []) + OperatorsOf(r)
  }

  /**
   * In a complete tree whose leaves are all terminals (variables and coefficients) and whose
   * inner nodes are all operators, there is one more leaf than operator, and the size is the
   * sum of the two.
   */
  ghost predicate Strict(t: Tree)
  {
    match t
    case Nil => true
    case Node(v, l, r) =>
      (v.Op? <==> l.Node?) && (v.Op? <==> r.Node?) && Strict(l) && Strict(r)
  }

  lemma {:induction false} StrictCounts(t: Tree)
    requires t.Node? && Strict(t)
    ensures Complete(t)
    ensures |Leaves(t)| == |OperatorsOf(t)| + 1
    ensures Size(t) == |Leaves(t)| + |OperatorsOf(t)|
    decreases t
  {
    if t.left.Node? {
      StrictCounts(t.left);
      StrictCounts(t.right);
    }
  }
}
