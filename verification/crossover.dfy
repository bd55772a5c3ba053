/** Subtree exchange, the value-level meaning of `ExpressionTree.crossover`. */
module Crossover {
  import opened Nodes
  import opened Trees
  import opened Simplification

  /**
   * The tree with its node at in-order position `k` (and everything below it) replaced by `s`,
   * what rewiring that node's parent slot to `s` produces: it loses the nodes of the subtree
   * at `k` and gains those of `s`.
   */
  function Replace(t: Tree, k: nat, s: Tree): (r: Tree)
    requires k < Size(t)
    ensures Size(r) == Size(t) - Size(KthNode(t, k)) + Size(s)
    decreases t
  {
    var leftSize := Size(t.left);
    if k == leftSize then s
    else if k < leftSize then Node(t.val, Replace(t.left, k, s), t.right)
    else Node(t.val, t.left, Replace(t.right, k - leftSize - 1, s))
  }

  /** A replacement in the left subtree rebuilds the root over the replaced left subtree. */
  lemma ReplaceLeft(t: Tree, k: nat, s: Tree)
    requires t.Node? && k < Size(t.left)
    ensures Replace(t, k, s) == Node(t.val, Replace(t.left, k, s), t.right)
  {
  }

  /** A replacement in the right subtree rebuilds the root over the replaced right subtree. */
  lemma ReplaceRight(t: Tree, k: nat, s: Tree)
    requires t.Node? && Size(t.left) < k < Size(t)
    ensures Replace(t, k, s) == Node(t.val, t.left, Replace(t.right, k - Size(t.left) - 1, s))
  {
    assert Size(t) == Size(t.left) + 1 + Size(t.right);
    assert k - Size(t.left) - 1 < Size(t.right);
  }

  /** Replacing a subtree by itself changes nothing. */
  lemma {:induction false} ReplaceSelf(t: Tree, k: nat)
    requires k < Size(t)
    ensures Replace(t, k, KthNode(t, k)) == t
    decreases t
  {
    var leftSize := Size(t.left);
    if k < leftSize {
      ReplaceSelf(t.left, k);
    } else if k > leftSize {
      ReplaceSelf(t.right, k - leftSize - 1);
    }
  }

  /**
   * Below the root, the replaced tree keeps its root and contains `s` among its subtrees;
   * completeness survives when `s` is a complete non-null tree.
   */
  lemma {:induction false} ReplaceBelowRoot(t: Tree, k: nat, s: Tree)
    requires k < Size(t) && k != RootPosition(t)
    ensures Replace(t, k, s).Node? && Replace(t, k, s).val == t.val
    ensures s.Node? ==> s in InOrder(Replace(t, k, s))
    ensures Complete(t) && Complete(s) && s.Node? ==> Complete(Replace(t, k, s))
    decreases t
  {
    var leftSize := Size(t.left);
    if k < leftSize {
      if k != RootPosition(t.left) {
        ReplaceBelowRoot(t.left, k, s);
      } else if s.Node? {
        assert InOrder(s) == InOrder(s.left) + [s] + InOrder(s.right);
      }
    } else {
      var k' := k - leftSize - 1;
      if k' != RootPosition(t.right) {
        ReplaceBelowRoot(t.right, k', s);
      } else if s.Node? {
        assert InOrder(s) == InOrder(s.left) + [s] + InOrder(s.right);
      }
    }
  }

  /**
   * Draws the retry loop can be fed: each a `nextInt(size - 1)` result, and at least one of
   * them naming a node other than the root, without which the loop never ends.
   */
  predicate CrossoverDraws(t: Tree, draws: seq<nat>)
  {
    && (forall j :: 0 <= j < |draws| ==> draws[j] < Size(t) - 1)
    && exists j :: 0 <= j < |draws| && draws[j] != RootPosition(t)
  }

  /**
   * The crossover point the retry loop settles on: the first draw that does not name the root.
   * Draws are `nextInt(size - 1)` results, so the last in-order node is never a candidate.
   */
  function CrossoverPoint(t: Tree, draws: seq<nat>): (k: nat)
    requires CrossoverDraws(t, draws)
    ensures k < Size(t) && k != RootPosition(t)
    ensures exists j :: 0 <= j < |draws| && draws[j] == k && forall m :: 0 <= m < j ==> draws[m] == RootPosition(t)
  {
    if draws[0] != RootPosition(t) then draws[0]
    else
      var k := CrossoverPoint(t, draws[1..]);
      var j :| 0 <= j < |draws| - 1 && draws[1..][j] == k
        && forall m :: 0 <= m < j ==> draws[1..][m] == RootPosition(t);
      assert draws[j + 1] == k && forall m :: 0 <= m < j + 1 ==> draws[m] == RootPosition(t);
      k
  }

  /** The two offspring: each parent with its crossover point replaced by the other's subtree. */
  function Offspring(t1: Tree, t2: Tree, k1: nat, k2: nat): (o: (Tree, Tree))
    requires k1 < Size(t1) && k2 < Size(t2)
    ensures Size(o.0) + Size(o.1) == Size(t1) + Size(t2)
  {
    (Replace(t1, k1, KthNode(t2, k2)), Replace(t2, k2, KthNode(t1, k1)))
  }

  /**
   * Nodes are moved, never copied or dropped: the offspring together have as many nodes as
   * the parents together, and each offspring holds the other parent's subtree below its root.
   */
  lemma CrossoverKeepsNodes(t1: Tree, t2: Tree, k1: nat, k2: nat)
    requires k1 < Size(t1) && k1 != RootPosition(t1)
    requires k2 < Size(t2) && k2 != RootPosition(t2)
    ensures var (o1, o2) := Offspring(t1, t2, k1, k2);
      Size(o1) + Size(o2) == Size(t1) + Size(t2) &&
      o1.Node? && o1.val == t1.val && KthNode(t2, k2) in InOrder(o1) &&
      o2.Node? && o2.val == t2.val && KthNode(t1, k1) in InOrder(o2)
  {
    ReplaceBelowRoot(t1, k1, KthNode(t2, k2));
    ReplaceBelowRoot(t2, k2, KthNode(t1, k1));
  }

  /** Every subtree of a complete tree is complete. */
  lemma {:induction false} SubtreeComplete(t: Tree, k: nat)
    requires k < Size(t) && Complete(t)
    ensures Complete(KthNode(t, k))
    decreases t
  {
    var leftSize := Size(t.left);
    if k < leftSize {
      SubtreeComplete(t.left, k);
    } else if k > leftSize {
      SubtreeComplete(t.right, k - leftSize - 1);
    }
  }

  /**
   * The trees `crossover` returns: both offspring simplified below their roots. From complete
   * parents they are complete, non-null, and keep their parents' root values.
   */
  function Cross(t1: Tree, t2: Tree, k1: nat, k2: nat): (r: (Tree, Tree))
    requires Complete(t1) && k1 < Size(t1) && k1 != RootPosition(t1)
    requires Complete(t2) && k2 < Size(t2) && k2 != RootPosition(t2)
    ensures r.0.Node? && Complete(r.0) && r.0.val == t1.val
    ensures r.1.Node? && Complete(r.1) && r.1.val == t2.val
  {
    SubtreeComplete(t1, k1);
    SubtreeComplete(t2, k2);
    ReplaceBelowRoot(t1, k1, KthNode(t2, k2));
    ReplaceBelowRoot(t2, k2, KthNode(t1, k1));
    var (o1, o2) := Offspring(t1, t2, k1, k2);
    (Simplify(o1, true), Simplify(o2, true))
  }
}
