/**
 * The node heap of `ExpressionTree.java`: every `ExpressionTreeNode` object is a record in
 * one growing sequence, and its `leftChild`, `rightChild` and `parent` references are indices
 * into it, `Null` standing for `null`. `Holds` ties an index to the value-level `Tree` the
 * nodes reachable from it spell out; the methods of `Arena` are the node methods of the inner
 * class, each proved against the function on trees that it implements.
 */
module Arenas {
  import opened Outcomes
  import opened Operators
  import opened Nodes
  import opened Trees
  import opened Semantics
  import opened Simplification
  import opened Mutation
  import opened Crossover

  /** A null reference. */
  const Null: int := -1

  /** One node object: its type and value, and its three links. */
  datatype NodeRec = NodeRec(val: Payload, left: int, right: int, parent: int)

  /** The indices of the nodes that make up `t` when `i` holds it. */
  ghost function Foot(nodes: seq<NodeRec>, i: int, t: Tree): set<int>
    decreases t
  {
    if t.Nil? || !(0 <= i < |nodes|) then {}
    else {i} + Foot(nodes, nodes[i].left, t.left) + Foot(nodes, nodes[i].right, t.right)
  }

  /**
   * Node `i` (null for `Nil`) holds `t`: its type and value are `t`'s root, its `parent` link
   * is `parent`, its children hold `t`'s subtrees with their `parent` links pointing back to
   * `i`, and no node is reached twice.
   */
  ghost predicate Holds(nodes: seq<NodeRec>, i: int, t: Tree, parent: int)
    decreases t
  {
    if t.Nil? then i == Null
    else
      && 0 <= i < |nodes|
      && nodes[i].val == t.val && nodes[i].parent == parent
      && Holds(nodes, nodes[i].left, t.left, i)
      && Holds(nodes, nodes[i].right, t.right, i)
      && i !in Foot(nodes, nodes[i].left, t.left)
      && i !in Foot(nodes, nodes[i].right, t.right)
      && Foot(nodes, nodes[i].left, t.left) !! Foot(nodes, nodes[i].right, t.right)
  }

  /** `a` and `b` have the same records at the indices of `s`. */
  ghost predicate Agree(a: seq<NodeRec>, b: seq<NodeRec>, s: set<int>)
  {
    forall x :: x in s ==> 0 <= x < |a| && 0 <= x < |b| && a[x] == b[x]
  }

  /** The footprint lies in the heap, and contains `i` exactly when `t` is a node. */
  lemma {:induction false} FootOfHolds(nodes: seq<NodeRec>, i: int, t: Tree, parent: int)
    requires Holds(nodes, i, t, parent)
    ensures forall x :: x in Foot(nodes, i, t) ==> 0 <= x < |nodes|
    ensures t.Node? <==> i in Foot(nodes, i, t)
    ensures t.Node? <==> i != Null
    decreases t
  {
    if t.Node? {
      FootOfHolds(nodes, nodes[i].left, t.left, i);
      FootOfHolds(nodes, nodes[i].right, t.right, i);
    }
  }

  /** What a node holds depends only on the records of its footprint. */
  lemma {:induction false} HoldsFrame(a: seq<NodeRec>, b: seq<NodeRec>, i: int, t: Tree, parent: int)
    requires Holds(a, i, t, parent)
    requires Agree(a, b, Foot(a, i, t))
    ensures Holds(b, i, t, parent)
    ensures Foot(b, i, t) == Foot(a, i, t)
    decreases t
  {
    if t.Node? {
      HoldsFrame(a, b, a[i].left, t.left, i);
      HoldsFrame(a, b, a[i].right, t.right, i);
    }
  }

  /** `b` differs from `a` only at the indices of `s`. */
  ghost predicate Outside(a: seq<NodeRec>, b: seq<NodeRec>, s: set<int>)
  {
    |a| == |b| && forall x :: 0 <= x < |a| && x !in s ==> b[x] == a[x]
  }

  /** `b` is `a` with records appended. */
  ghost predicate Extends(a: seq<NodeRec>, b: seq<NodeRec>)
  {
    |a| <= |b| && forall x :: 0 <= x < |a| ==> b[x] == a[x]
  }

  /** Appending records leaves every held tree as it was. */
  lemma HoldsGrow(a: seq<NodeRec>, b: seq<NodeRec>, i: int, t: Tree, parent: int)
    requires Holds(a, i, t, parent) && Extends(a, b)
    ensures Holds(b, i, t, parent)
    ensures Foot(b, i, t) == Foot(a, i, t)
  {
    FootOfHolds(a, i, t, parent);
    HoldsFrame(a, b, i, t, parent);
  }

  /** Indices below a bound and indices from it on are disjoint sets. */
  lemma Separated(a: set<int>, b: set<int>, bound: int)
    requires forall x :: x in a ==> x < bound
    requires forall x :: x in b ==> bound <= x
    ensures a !! b
  {
    forall x | x in a
      ensures x !in b
    {
    }
  }

  /** A node whose children hold two disjoint trees below it holds the tree they make. */
  lemma HoldsNode(nodes: seq<NodeRec>, c: int, v: Payload, l: Tree, r: Tree, parent: int)
    requires 0 <= c < |nodes| && nodes[c].val == v && nodes[c].parent == parent
    requires Holds(nodes, nodes[c].left, l, c) && Holds(nodes, nodes[c].right, r, c)
    requires c !in Foot(nodes, nodes[c].left, l) && c !in Foot(nodes, nodes[c].right, r)
    requires Foot(nodes, nodes[c].left, l) !! Foot(nodes, nodes[c].right, r)
    ensures Holds(nodes, c, Node(v, l, r), parent)
    ensures Foot(nodes, c, Node(v, l, r)) == {c} + Foot(nodes, nodes[c].left, l) + Foot(nodes, nodes[c].right, r)
  {
  }

  /** Re-pointing the root's `parent` link moves the whole tree under the new parent. */
  lemma HoldsReparent(a: seq<NodeRec>, i: int, t: Tree, parent: int, parent': int)
    requires Holds(a, i, t, parent) && t.Node?
    ensures Holds(a[i := a[i].(parent := parent')], i, t, parent')
    ensures Foot(a[i := a[i].(parent := parent')], i, t) == Foot(a, i, t)
  {
    var b := a[i := a[i].(parent := parent')];
    FootOfHolds(a, a[i].left, t.left, i);
    FootOfHolds(a, a[i].right, t.right, i);
    HoldsFrame(a, b, a[i].left, t.left, i);
    HoldsFrame(a, b, a[i].right, t.right, i);
  }

  /** The index `getKthNode(k)` reaches from `i`, following the same descent. */
  ghost function KthIndex(nodes: seq<NodeRec>, i: int, t: Tree, k: nat): int
    requires k < Size(t)
    decreases t
  {
    var leftSize := Size(t.left);
    if k == leftSize || !(0 <= i < |nodes|) then i
    else if k < leftSize then KthIndex(nodes, nodes[i].left, t.left, k)
    else KthIndex(nodes, nodes[i].right, t.right, k - leftSize - 1)
  }

  /**
   * The k-th node holds the k-th in-order subtree and lies in the footprint with its own
   * footprint; it is the root exactly for the root's position, and otherwise its parent is a
   * node of the tree outside the subtree.
   */
  lemma {:induction false} KthIndexHolds(nodes: seq<NodeRec>, i: int, t: Tree, parent: int, k: nat)
    requires Holds(nodes, i, t, parent) && k < Size(t)
    ensures var j := KthIndex(nodes, i, t, k);
      && 0 <= j < |nodes| && j in Foot(nodes, i, t)
      && Holds(nodes, j, KthNode(t, k), nodes[j].parent)
      && Foot(nodes, j, KthNode(t, k)) <= Foot(nodes, i, t)
      && (j == i <==> k == RootPosition(t))
      && (j == i ==> nodes[j].parent == parent)
      && (j != i ==> nodes[j].parent in Foot(nodes, i, t) - Foot(nodes, j, KthNode(t, k)))
    decreases t
  {
    var leftSize := Size(t.left);
    FootOfHolds(nodes, i, t, parent);
    if k < leftSize {
      KthIndexHolds(nodes, nodes[i].left, t.left, i, k);
    } else if k > leftSize {
      KthIndexHolds(nodes, nodes[i].right, t.right, i, k - leftSize - 1);
    }
  }

  /**
   * `Mutate` on the draws from `next` to `end`: a coefficient whose draw throws stops the
   * mutation where it is; otherwise the node's own perturbation is followed by the mutation of
   * its children on the draws after its own.
   */
  lemma MutateSplit(t: Tree, rate: real, minMutation: int, maxMutation: int, draws: seq<Draw>, next: nat, end: nat)
    requires t.Node? && end == next + |Coefficients(t)| <= |draws|
    ensures t.val.Coef? && Throws(draws[next], rate, minMutation, maxMutation) ==>
      Mutate(t, rate, minMutation, maxMutation, draws[next..end]) == Mutated(t, true)
    ensures t.val.Coef? && !Throws(draws[next], rate, minMutation, maxMutation) ==>
      Mutate(t, rate, minMutation, maxMutation, draws[next..end]) ==
      MutateBelow(Coef(Perturb(t.val.value, rate, minMutation, draws[next])), t.left, t.right,
                  rate, minMutation, maxMutation, draws[next + 1..end])
    ensures !t.val.Coef? ==>
      Mutate(t, rate, minMutation, maxMutation, draws[next..end]) ==
      MutateBelow(t.val, t.left, t.right, rate, minMutation, maxMutation, draws[next..end])
  {
    var ds := draws[next..end];
    if t.val.Coef? {
      assert ds[0] == draws[next] && ds[1..] == draws[next + 1..end];
    }
  }

  /**
   * `MutateBelow` on the draws from `next` to `end`: the left child takes the draws up to
   * `mid`, and the right child, when the left one did not throw, the rest.
   */
  lemma BelowSplit(v: Payload, l: Tree, r: Tree, rate: real, minMutation: int, maxMutation: int, draws: seq<Draw>,
                   next: nat, mid: nat, end: nat)
    requires mid == next + |Coefficients(l)| && end == mid + |Coefficients(r)| <= |draws|
    ensures var ml := Mutate(l, rate, minMutation, maxMutation, draws[next..mid]);
      MutateBelow(v, l, r, rate, minMutation, maxMutation, draws[next..end]) ==
      if ml.thrown then Mutated(Node(v, ml.tree, r), true)
      else
        var mr := Mutate(r, rate, minMutation, maxMutation, draws[mid..end]);
        Mutated(Node(v, ml.tree, mr.tree), mr.thrown)
  {
    var ds := draws[next..end];
    assert ds[..mid - next] == draws[next..mid];
    assert ds[mid - next..] == draws[mid..end];
  }

  /**
   * A parent record after crossover re-points the slot holding `j` at `j'`: the left slot
   * when it is the one that holds `j`, otherwise the right one.
   */
  function SetSlot(r: NodeRec, j: int, j': int): NodeRec
  {
    if r.left == j then r.(left := j') else r.(right := j')
  }

  /**
   * Re-pointing, in the parent `q` of the node `j` at position `k`, the slot that holds `j`
   * at a tree `s` held by `js` under `q` makes `i` hold `Replace(t, k, s)`, as long as the
   * rest of the tree is untouched and `s` shares no node with it. The subtree at `j` leaves
   * the footprint, the one at `js` joins it.
   */
  lemma {:induction false} ReplaceHolds(a: seq<NodeRec>, b: seq<NodeRec>, i: int, t: Tree, parent: int,
                                        k: nat, j: int, q: int, js: int, s: Tree)
    requires Holds(a, i, t, parent) && k < Size(t) && k != RootPosition(t)
    requires j == KthIndex(a, i, t, k) && 0 <= j < |a| && q == a[j].parent && 0 <= q < |a|
    requires Agree(a, b, Foot(a, i, t) - Foot(a, j, KthNode(t, k)) - {q})
    requires q < |b| && b[q] == SetSlot(a[q], j, js)
    requires Holds(b, js, s, q)
    requires Foot(b, js, s) !! Foot(a, i, t) - Foot(a, j, KthNode(t, k))
    ensures Holds(b, i, Replace(t, k, s), parent)
    ensures Foot(b, i, Replace(t, k, s)) == Foot(a, i, t) - Foot(a, j, KthNode(t, k)) + Foot(b, js, s)
    decreases t, 1
  {
    if k < Size(t.left) {
      if k == RootPosition(t.left) {
        ReplaceLeftChild(a, b, i, t, parent, k, j, q, js, s);
      } else {
        ReplaceInLeft(a, b, i, t, parent, k, j, q, js, s);
      }
    } else if k - Size(t.left) - 1 == RootPosition(t.right) {
      ReplaceRightChild(a, b, i, t, parent, k, j, q, js, s);
    } else {
      ReplaceInRight(a, b, i, t, parent, k, j, q, js, s);
    }
  }

  /** `ReplaceHolds` when the replaced node is the left child. */
  lemma {:induction false} ReplaceLeftChild(a: seq<NodeRec>, b: seq<NodeRec>, i: int, t: Tree, parent: int,
      k: nat, j: int, q: int, js: int, s: Tree)
    requires Holds(a, i, t, parent) && t.Node? && k < Size(t.left) && k == RootPosition(t.left)
    requires j == KthIndex(a, i, t, k) && 0 <= j < |a| && q == a[j].parent && 0 <= q < |a|
    requires Agree(a, b, Foot(a, i, t) - Foot(a, j, KthNode(t, k)) - {q})
    requires q < |b| && b[q] == SetSlot(a[q], j, js)
    requires Holds(b, js, s, q)
    requires Foot(b, js, s) !! Foot(a, i, t) - Foot(a, j, KthNode(t, k))
    ensures Holds(b, i, Replace(t, k, s), parent)
    ensures Foot(b, i, Replace(t, k, s)) == Foot(a, i, t) - Foot(a, j, KthNode(t, k)) + Foot(b, js, s)
    decreases t, 0
  {
    var rec := a[i];
    var L, R, J := Foot(a, rec.left, t.left), Foot(a, rec.right, t.right), Foot(a, j, KthNode(t, k));
    assert Foot(a, i, t) == {i} + L + R;
    assert KthNode(t, k) == KthNode(t.left, k) && j == KthIndex(a, rec.left, t.left, k);
    KthIndexHolds(a, rec.left, t.left, i, k);
    assert J <= L;
    assert Agree(a, b, R) by {
      assert R <= Foot(a, i, t) - J - {q};
    }
    HoldsFrame(a, b, rec.right, t.right, i);
    assert j == rec.left && q == i && J == L;
    assert b[i] == rec.(left := js);
    ReplaceLeft(t, k, s);
    HoldsNode(b, i, t.val, s, t.right, parent);
  }

  /** `ReplaceHolds` when the replaced node lies deeper in the left subtree. */
  lemma {:induction false} ReplaceInLeft(a: seq<NodeRec>, b: seq<NodeRec>, i: int, t: Tree, parent: int,
      k: nat, j: int, q: int, js: int, s: Tree)
    requires Holds(a, i, t, parent) && t.Node? && k < Size(t.left) && k != RootPosition(t.left)
    requires j == KthIndex(a, i, t, k) && 0 <= j < |a| && q == a[j].parent && 0 <= q < |a|
    requires Agree(a, b, Foot(a, i, t) - Foot(a, j, KthNode(t, k)) - {q})
    requires q < |b| && b[q] == SetSlot(a[q], j, js)
    requires Holds(b, js, s, q)
    requires Foot(b, js, s) !! Foot(a, i, t) - Foot(a, j, KthNode(t, k))
    ensures Holds(b, i, Replace(t, k, s), parent)
    ensures Foot(b, i, Replace(t, k, s)) == Foot(a, i, t) - Foot(a, j, KthNode(t, k)) + Foot(b, js, s)
    decreases t, 0
  {
    var rec := a[i];
    var L, R, J := Foot(a, rec.left, t.left), Foot(a, rec.right, t.right), Foot(a, j, KthNode(t, k));
    var l' := Replace(t.left, k, s);
    assert Foot(a, i, t) == {i} + L + R;
    assert KthNode(t, k) == KthNode(t.left, k);
    KthIndexHolds(a, rec.left, t.left, i, k);
    assert Agree(a, b, L - J - {q}) by {
      assert L - J - {q} <= Foot(a, i, t) - J - {q};
    }
    ReplaceHolds(a, b, rec.left, t.left, i, k, j, q, js, s);
    assert Agree(a, b, {i} + R) by {
      assert {i} + R <= Foot(a, i, t) - J - {q};
    }
    FootOfHolds(a, i, t, parent);
    SideDisjoint(i, L, R, J, Foot(b, js, s));
    ReplaceLeft(t, k, s);
    RebuildLeft(a, b, i, t, parent, l', Replace(t, k, s));
    SideAlgebra(i, R, L, J, Foot(b, js, s));
  }

  /** A node whose record and right subtree are untouched, over a new left subtree held below it. */
  lemma RebuildLeft(a: seq<NodeRec>, b: seq<NodeRec>, i: int, t: Tree, parent: int, l': Tree, u: Tree)
    requires Holds(a, i, t, parent) && t.Node?
    requires Agree(a, b, {i} + Foot(a, a[i].right, t.right))
    requires Holds(b, a[i].left, l', i)
    requires Foot(b, a[i].left, l') !! {i} + Foot(a, a[i].right, t.right)
    requires u == Node(t.val, l', t.right)
    ensures Holds(b, i, u, parent)
    ensures Foot(b, i, u) == {i} + Foot(b, a[i].left, l') + Foot(a, a[i].right, t.right)
  {
    FootOfHolds(a, a[i].right, t.right, i);
    HoldsFrame(a, b, a[i].right, t.right, i);
    HoldsNode(b, i, t.val, l', t.right, parent);
  }

  /** `ReplaceHolds` when the replaced node is the right child. */
  lemma {:induction false} ReplaceRightChild(a: seq<NodeRec>, b: seq<NodeRec>, i: int, t: Tree, parent: int,
      k: nat, j: int, q: int, js: int, s: Tree)
    requires Holds(a, i, t, parent) && t.Node? && Size(t.left) < k < Size(t) && k - Size(t.left) - 1 == RootPosition(t.right)
    requires j == KthIndex(a, i, t, k) && 0 <= j < |a| && q == a[j].parent && 0 <= q < |a|
    requires Agree(a, b, Foot(a, i, t) - Foot(a, j, KthNode(t, k)) - {q})
    requires q < |b| && b[q] == SetSlot(a[q], j, js)
    requires Holds(b, js, s, q)
    requires Foot(b, js, s) !! Foot(a, i, t) - Foot(a, j, KthNode(t, k))
    ensures Holds(b, i, Replace(t, k, s), parent)
    ensures Foot(b, i, Replace(t, k, s)) == Foot(a, i, t) - Foot(a, j, KthNode(t, k)) + Foot(b, js, s)
    decreases t, 0
  {
    var rec := a[i];
    var k' := k - Size(t.left) - 1;
    var L, R, J := Foot(a, rec.left, t.left), Foot(a, rec.right, t.right), Foot(a, j, KthNode(t, k));
    assert Foot(a, i, t) == {i} + L + R;
    assert KthNode(t, k) == KthNode(t.right, k') && j == KthIndex(a, rec.right, t.right, k');
    KthIndexHolds(a, rec.right, t.right, i, k');
    FootOfHolds(a, rec.left, t.left, i);
    assert J <= R;
    assert Agree(a, b, L) by {
      assert L <= Foot(a, i, t) - J - {q};
    }
    HoldsFrame(a, b, rec.left, t.left, i);
    assert j == rec.right && q == i && J == R;
    assert rec.left != j;
    assert b[i] == rec.(right := js);
    ReplaceRight(t, k, s);
    HoldsNode(b, i, t.val, t.left, s, parent);
  }

  /** `ReplaceHolds` when the replaced node lies deeper in the right subtree. */
  lemma {:induction false} ReplaceInRight(a: seq<NodeRec>, b: seq<NodeRec>, i: int, t: Tree, parent: int,
      k: nat, j: int, q: int, js: int, s: Tree)
    requires Holds(a, i, t, parent) && t.Node? && Size(t.left) < k < Size(t) && k - Size(t.left) - 1 != RootPosition(t.right)
    requires j == KthIndex(a, i, t, k) && 0 <= j < |a| && q == a[j].parent && 0 <= q < |a|
    requires Agree(a, b, Foot(a, i, t) - Foot(a, j, KthNode(t, k)) - {q})
    requires q < |b| && b[q] == SetSlot(a[q], j, js)
    requires Holds(b, js, s, q)
    requires Foot(b, js, s) !! Foot(a, i, t) - Foot(a, j, KthNode(t, k))
    ensures Holds(b, i, Replace(t, k, s), parent)
    ensures Foot(b, i, Replace(t, k, s)) == Foot(a, i, t) - Foot(a, j, KthNode(t, k)) + Foot(b, js, s)
    decreases t, 0
  {
    var rec := a[i];
    var k' := k - Size(t.left) - 1;
    var L, R, J := Foot(a, rec.left, t.left), Foot(a, rec.right, t.right), Foot(a, j, KthNode(t, k));
    var r' := Replace(t.right, k', s);
    assert Foot(a, i, t) == {i} + L + R;
    assert KthNode(t, k) == KthNode(t.right, k');
    KthIndexHolds(a, rec.right, t.right, i, k');
    assert Agree(a, b, R - J - {q}) by {
      assert R - J - {q} <= Foot(a, i, t) - J - {q};
    }
    ReplaceHolds(a, b, rec.right, t.right, i, k', j, q, js, s);
    assert Agree(a, b, {i} + L) by {
      assert {i} + L <= Foot(a, i, t) - J - {q};
    }
    FootOfHolds(a, i, t, parent);
    SideDisjoint(i, L, R, J, Foot(b, js, s));
    ReplaceRight(t, k, s);
    RebuildRight(a, b, i, t, parent, r', Replace(t, k, s));
    SideAlgebra(i, L, R, J, Foot(b, js, s));
  }

  /** The rewritten side of a node stays apart from the node and its other side. */
  lemma SideDisjoint(i: int, L: set<int>, R: set<int>, J: set<int>, S: set<int>)
    requires i !in L && i !in R && L !! R && S !! {i} + L + R - J
    ensures J <= R ==> (R - J + S) !! {i} + L
    ensures J <= L ==> (L - J + S) !! {i} + R
  {
  }

  /** The footprint arithmetic of a replacement inside one side `R` of a node `i` with other side `L`. */
  lemma SideAlgebra(i: int, L: set<int>, R: set<int>, J: set<int>, S: set<int>)
    requires J <= R && i !in R && L !! R
    ensures {i} + L + (R - J + S) == {i} + L + R - J + S
    ensures {i} + (R - J + S) + L == {i} + R + L - J + S
  {
  }

  /** A node whose record and left subtree are untouched, over a new right subtree held below it. */
  lemma RebuildRight(a: seq<NodeRec>, b: seq<NodeRec>, i: int, t: Tree, parent: int, r': Tree, u: Tree)
    requires Holds(a, i, t, parent) && t.Node?
    requires Agree(a, b, {i} + Foot(a, a[i].left, t.left))
    requires Holds(b, a[i].right, r', i)
    requires Foot(b, a[i].right, r') !! {i} + Foot(a, a[i].left, t.left)
    requires u == Node(t.val, t.left, r')
    ensures Holds(b, i, u, parent)
    ensures Foot(b, i, u) == {i} + Foot(a, a[i].left, t.left) + Foot(b, a[i].right, r')
  {
    FootOfHolds(a, a[i].left, t.left, i);
    HoldsFrame(a, b, a[i].left, t.left, i);
    HoldsNode(b, i, t.val, t.left, r', parent);
  }

  /**
   * The heap after crossover's pointer swap between the nodes `j1` and `j2`: each parent's
   * slot that held its crossover point now holds the other point, and the two points have
   * exchanged parents.
   */
  function Swapped(a: seq<NodeRec>, j1: int, j2: int): (b: seq<NodeRec>)
    requires 0 <= j1 < |a| && 0 <= j2 < |a|
    requires 0 <= a[j1].parent < |a| && 0 <= a[j2].parent < |a|
    ensures |b| == |a|
  {
    var q1, q2 := a[j1].parent, a[j2].parent;
    var b := a[q1 := SetSlot(a[q1], j1, j2)];
    var c := b[q2 := SetSlot(b[q2], j2, j1)];
    var d := c[j1 := c[j1].(parent := c[j2].parent)];
    d[j2 := d[j2].(parent := c[j1].parent)]
  }

  /** For four distinct nodes, the swap changes exactly the two parents and the two points. */
  lemma SwappedRecords(a: seq<NodeRec>, j1: int, j2: int)
    requires 0 <= j1 < |a| && 0 <= j2 < |a|
    requires 0 <= a[j1].parent < |a| && 0 <= a[j2].parent < |a|
    requires |{j1, j2, a[j1].parent, a[j2].parent}| == 4
    ensures var b, q1, q2 := Swapped(a, j1, j2), a[j1].parent, a[j2].parent;
      && b[q1] == SetSlot(a[q1], j1, j2) && b[q2] == SetSlot(a[q2], j2, j1)
      && b[j1] == a[j1].(parent := q2) && b[j2] == a[j2].(parent := q1)
      && Outside(a, b, {j1, j2, q1, q2})
  {
  }

  /**
   * The subtree at `j` of the tree held by `i`, moved under a new parent `q` by a heap `b`
   * that keeps its other records, is held there with the same footprint.
   */
  lemma MovedHolds(a: seq<NodeRec>, b: seq<NodeRec>, i: int, t: Tree, k: nat, j: int, q: int)
    requires Holds(a, i, t, Null) && k < Size(t) && j == KthIndex(a, i, t, k)
    requires 0 <= j < |a| && j < |b| && b[j] == a[j].(parent := q)
    requires Agree(a, b, Foot(a, j, KthNode(t, k)) - {j})
    ensures Holds(b, j, KthNode(t, k), q)
    ensures Foot(b, j, KthNode(t, k)) == Foot(a, j, KthNode(t, k))
  {
    KthIndexHolds(a, i, t, Null, k);
    ReparentFrame(a, b, j, KthNode(t, k), a[j].parent, q);
  }

  /**
   * Swapping two non-root nodes of two disjoint trees yields the two offspring of value-level
   * crossover; together they occupy the parents' nodes, each node in exactly one of them, and
   * nothing outside the parents changes.
   */
  lemma SwapHolds(a: seq<NodeRec>, r1: int, t1: Tree, k1: nat, r2: int, t2: Tree, k2: nat, j1: int, j2: int)
    requires Holds(a, r1, t1, Null) && k1 < Size(t1) && k1 != RootPosition(t1) && j1 == KthIndex(a, r1, t1, k1)
    requires Holds(a, r2, t2, Null) && k2 < Size(t2) && k2 != RootPosition(t2) && j2 == KthIndex(a, r2, t2, k2)
    requires Foot(a, r1, t1) !! Foot(a, r2, t2)
    ensures 0 <= j1 < |a| && 0 <= j2 < |a| && 0 <= a[j1].parent < |a| && 0 <= a[j2].parent < |a|
    ensures var b, o1, o2 := Swapped(a, j1, j2), Replace(t1, k1, KthNode(t2, k2)), Replace(t2, k2, KthNode(t1, k1));
      && Holds(b, r1, o1, Null) && Holds(b, r2, o2, Null)
      && Foot(b, r1, o1) + Foot(b, r2, o2) == Foot(a, r1, t1) + Foot(a, r2, t2)
      && Foot(b, r1, o1) !! Foot(b, r2, o2)
      && Outside(a, b, Foot(a, r1, t1) + Foot(a, r2, t2))
  {
    var F1, F2 := Foot(a, r1, t1), Foot(a, r2, t2);
    var J1, J2 := Foot(a, j1, KthNode(t1, k1)), Foot(a, j2, KthNode(t2, k2));
    assert 0 <= j1 < |a| && 0 <= j2 < |a| && 0 <= a[j1].parent < |a| && 0 <= a[j2].parent < |a|
      && J1 <= F1 && J2 <= F2 && j1 in J1 && j2 in J2 && a[j1].parent in F1 - J1 && a[j2].parent in F2 - J2 by {
      KthIndexHolds(a, r1, t1, Null, k1);
      KthIndexHolds(a, r2, t2, Null, k2);
      FootOfHolds(a, r1, t1, Null);
      FootOfHolds(a, r2, t2, Null);
      FootOfHolds(a, j1, KthNode(t1, k1), a[j1].parent);
      FootOfHolds(a, j2, KthNode(t2, k2), a[j2].parent);
    }
    var q1, q2 := a[j1].parent, a[j2].parent;
    SwapSets(F1, F2, J1, J2, j1, j2, q1, q2);
    SwappedRecords(a, j1, j2);
    var b := Swapped(a, j1, j2);
    SwapSide(a, b, r1, t1, k1, j1, r2, t2, k2, j2);
    FourReordered(j1, j2, q1, q2);
    SwapSide(a, b, r2, t2, k2, j2, r1, t1, k1, j1);
    OutsideGrow(a, b, {j1, j2, q1, q2}, F1 + F2);
  }

  /** The footprint arithmetic of the swap: what stays in place avoids the four changed records. */
  lemma SwapSets(F1: set<int>, F2: set<int>, J1: set<int>, J2: set<int>, j1: int, j2: int, q1: int, q2: int)
    requires F1 !! F2 && J1 <= F1 && J2 <= F2
    requires j1 in J1 && j2 in J2 && q1 in F1 - J1 && q2 in F2 - J2
    ensures J2 - {j2} !! {j1, j2, q1, q2}
    ensures F1 - J1 - {q1} !! {j1, j2, q1, q2}
    ensures |{j1, j2, q1, q2}| == 4 && {j1, j2, q1, q2} <= F1 + F2
    ensures (F1 - J1 + J2) + (F2 - J2 + J1) == F1 + F2 && F1 - J1 + J2 !! F2 - J2 + J1
  {
  }

  /** The four records a swap changes, listed from either offspring's side. */
  lemma FourReordered(w: int, x: int, y: int, z: int)
    ensures {x, w, z, y} == {w, x, y, z}
  {
  }

  /** A heap that keeps the records outside a set keeps those outside any larger set. */
  lemma OutsideGrow(a: seq<NodeRec>, b: seq<NodeRec>, s: set<int>, s': set<int>)
    requires Outside(a, b, s) && s <= s'
    ensures Outside(a, b, s')
  {
  }

  /** Records outside the changed ones agree. */
  lemma OutsideAgree(a: seq<NodeRec>, b: seq<NodeRec>, s: set<int>, changed: set<int>)
    requires Outside(a, b, changed) && s !! changed
    requires forall x :: x in s ==> 0 <= x < |a|
    ensures Agree(a, b, s)
  {
  }

  /** One offspring of `SwapHolds`: the side whose crossover point is `j1`. */
  lemma SwapSide(a: seq<NodeRec>, b: seq<NodeRec>, r1: int, t1: Tree, k1: nat, j1: int, r2: int, t2: Tree, k2: nat, j2: int)
    requires Holds(a, r1, t1, Null) && k1 < Size(t1) && k1 != RootPosition(t1) && j1 == KthIndex(a, r1, t1, k1)
    requires Holds(a, r2, t2, Null) && k2 < Size(t2) && j2 == KthIndex(a, r2, t2, k2)
    requires Foot(a, r1, t1) !! Foot(a, r2, t2)
    requires 0 <= j1 < |a| && 0 <= j2 < |a| && 0 <= a[j1].parent < |a| && 0 <= a[j2].parent < |a|
    requires |b| == |a| && b[a[j1].parent] == SetSlot(a[a[j1].parent], j1, j2)
    requires b[j2] == a[j2].(parent := a[j1].parent)
    requires Outside(a, b, {j1, j2, a[j1].parent, a[j2].parent})
    ensures Holds(b, r1, Replace(t1, k1, KthNode(t2, k2)), Null)
    ensures Foot(b, r1, Replace(t1, k1, KthNode(t2, k2))) ==
      Foot(a, r1, t1) - Foot(a, j1, KthNode(t1, k1)) + Foot(a, j2, KthNode(t2, k2))
  {
    var F1, F2 := Foot(a, r1, t1), Foot(a, r2, t2);
    var J1, J2 := Foot(a, j1, KthNode(t1, k1)), Foot(a, j2, KthNode(t2, k2));
    var q1, q2 := a[j1].parent, a[j2].parent;
    var changed := {j1, j2, q1, q2};
    KthIndexHolds(a, r1, t1, Null, k1);
    KthIndexHolds(a, r2, t2, Null, k2);
    FootOfHolds(a, r1, t1, Null);
    FootOfHolds(a, r2, t2, Null);
    FootOfHolds(a, j1, KthNode(t1, k1), q1);
    FootOfHolds(a, j2, KthNode(t2, k2), q2);
    SwapSets(F1, F2, J1, J2, j1, j2, q1, q2);
    OutsideAgree(a, b, J2 - {j2}, changed);
    MovedHolds(a, b, r2, t2, k2, j2, q1);
    OutsideAgree(a, b, F1 - J1 - {q1}, changed);
    ReplaceHolds(a, b, r1, t1, Null, k1, j1, q1, j2, KthNode(t2, k2));
  }

  /** Unlinked records for the given payloads, as the constructor's `new ExpressionTreeNode` calls make them. */
  function Unlinked(ps: seq<Payload>): seq<NodeRec>
  {
    seq(|ps|, x requires 0 <= x < |ps| => NodeRec(ps[x], Null, Null, Null))
  }

  /** The heap after one round of the constructor: operator `o` over `l` and `r`, both parented by `o`. */
  function Linked(a: seq<NodeRec>, o: int, l: int, r: int): (b: seq<NodeRec>)
    requires 0 <= o < |a| && 0 <= l < |a| && 0 <= r < |a|
    ensures |b| == |a|
  {
    var a1 := a[o := a[o].(left := l)];
    var a2 := a1[l := a1[l].(parent := o)];
    var a3 := a2[o := a2[o].(right := r)];
    a3[r := a3[r].(parent := o)]
  }

  lemma LinkedRecords(a: seq<NodeRec>, o: int, l: int, r: int)
    requires 0 <= o < |a| && 0 <= l < |a| && 0 <= r < |a| && |{o, l, r}| == 3
    ensures var b := Linked(a, o, l, r);
      && b[o] == a[o].(left := l, right := r) && b[l] == a[l].(parent := o) && b[r] == a[r].(parent := o)
      && Outside(a, b, {o, l, r})
  {
  }

  /**
   * The terminal queue `q2` of the constructor, seen through the trees `ts` it holds: every
   * entry is the root of its tree, no node is in two entries, and every node lies at `lo` or
   * above, outside the operator nodes `gapLo .. gapHi - 1` still waiting in `q1`.
   */
  ghost predicate QueueHolds(nodes: seq<NodeRec>, q: seq<int>, ts: seq<Tree>, lo: int, gapLo: int, gapHi: int)
  {
    && |q| == |ts|
    && (forall x :: 0 <= x < |q| ==> ts[x].Node? && Holds(nodes, q[x], ts[x], Null))
    && (forall x, y :: 0 <= x < y < |q| ==> Foot(nodes, q[x], ts[x]) !! Foot(nodes, q[y], ts[y]))
    && (forall x, z :: 0 <= x < |q| && z in Foot(nodes, q[x], ts[x]) ==> lo <= z && !(gapLo <= z < gapHi))
  }

  /** The queue survives changes to records none of its trees contains. */
  lemma QueueRest(a: seq<NodeRec>, b: seq<NodeRec>, q: seq<int>, ts: seq<Tree>, lo: int, gapLo: int, gapHi: int, changed: set<int>)
    requires QueueHolds(a, q, ts, lo, gapLo, gapHi) && Outside(a, b, changed)
    requires forall x :: 0 <= x < |q| ==> Foot(a, q[x], ts[x]) !! changed
    ensures QueueHolds(b, q, ts, lo, gapLo, gapHi)
    ensures forall x :: 0 <= x < |q| ==> Foot(b, q[x], ts[x]) == Foot(a, q[x], ts[x])
  {
    forall x | 0 <= x < |q|
      ensures Holds(b, q[x], ts[x], Null) && Foot(b, q[x], ts[x]) == Foot(a, q[x], ts[x])
    {
      FootOfHolds(a, q[x], ts[x], Null);
      OutsideAgree(a, b, Foot(a, q[x], ts[x]), changed);
      HoldsFrame(a, b, q[x], ts[x], Null);
    }
  }

  /** A tree disjoint from the queue's trees and outside the gap can join the queue at its back. */
  lemma QueueJoin(a: seq<NodeRec>, q: seq<int>, ts: seq<Tree>, lo: int, gapLo: int, gapHi: int, o: int, t: Tree)
    requires QueueHolds(a, q, ts, lo, gapLo, gapHi) && t.Node? && Holds(a, o, t, Null)
    requires forall x :: 0 <= x < |q| ==> Foot(a, q[x], ts[x]) !! Foot(a, o, t)
    requires forall z :: z in Foot(a, o, t) ==> lo <= z && !(gapLo <= z < gapHi)
    ensures QueueHolds(a, q + [o], ts + [t], lo, gapLo, gapHi)
  {
  }

  /** An entry of the queue moved under a new parent, with its other records kept, holds there. */
  lemma ReparentFrame(a: seq<NodeRec>, b: seq<NodeRec>, i: int, t: Tree, p0: int, p: int)
    requires Holds(a, i, t, p0) && t.Node? && 0 <= i < |b| && b[i] == a[i].(parent := p)
    requires Agree(a, b, Foot(a, i, t) - {i})
    ensures Holds(b, i, t, p) && Foot(b, i, t) == Foot(a, i, t)
  {
    var a' := a[i := a[i].(parent := p)];
    HoldsReparent(a, i, t, p0, p);
    FootOfHolds(a, i, t, p0);
    forall x | x in Foot(a, i, t)
      ensures 0 <= x < |a'| && 0 <= x < |b| && a'[x] == b[x]
    {
      if x != i {
        assert x in Foot(a, i, t) - {i};
      }
    }
    HoldsFrame(a', b, i, t, p);
  }

  /**
   * Past its first two entries the queue avoids the first record of the gap as well, so it
   * holds with the gap narrowed by one.
   */
  lemma QueueTail(a: seq<NodeRec>, q: seq<int>, ts: seq<Tree>, lo: int, gapLo: int, gapHi: int)
    requires QueueHolds(a, q, ts, lo, gapLo, gapHi) && |q| >= 2 && gapLo < gapHi
    ensures QueueHolds(a, q[2..], ts[2..], lo, gapLo + 1, gapHi)
  {
    forall x, z | 0 <= x < |q| - 2 && z in Foot(a, q[2..][x], ts[2..][x])
      ensures lo <= z && !(gapLo + 1 <= z < gapHi)
    {
      assert z in Foot(a, q[x + 2], ts[x + 2]);
    }
  }

  /** The two trees at the head of the queue: distinct, disjoint, and disjoint from the rest. */
  lemma QueueHead(a: seq<NodeRec>, q: seq<int>, ts: seq<Tree>, lo: int, gapLo: int, gapHi: int)
    requires QueueHolds(a, q, ts, lo, gapLo, gapHi) && |q| >= 2 && 0 <= lo <= gapLo < gapHi
    ensures var Fl, Fr := Foot(a, q[0], ts[0]), Foot(a, q[1], ts[1]);
      && 0 <= q[0] < |a| && 0 <= q[1] < |a| && q[0] in Fl && q[1] in Fr && Fl !! Fr
      && gapLo !in Fl && gapLo !in Fr
      && (forall z :: z in Fl + Fr ==> lo <= z && !(gapLo <= z < gapHi))
      && (forall x :: 2 <= x < |q| ==> Foot(a, q[x], ts[x]) !! Fl + Fr)
  {
    FootOfHolds(a, q[0], ts[0], Null);
    FootOfHolds(a, q[1], ts[1], Null);
  }

  /** A footprint without its root avoids its root, a node outside it, and a node of a disjoint one. */
  lemma Avoids(F: set<int>, G: set<int>, l: int, o: int, r: int)
    requires l in F && o !in F && r in G && F !! G
    ensures F - {l} !! {o, l, r}
  {
  }

  /** The operator node of one round holds the new tree, its footprint the two subtrees' and itself. */
  lemma RoundNode(a: seq<NodeRec>, o: int, l: int, r: int, tl: Tree, tr: Tree, v: Payload)
    requires Holds(a, l, tl, Null) && Holds(a, r, tr, Null) && tl.Node? && tr.Node?
    requires 0 <= o < |a| && 0 <= l < |a| && 0 <= r < |a| && a[o] == NodeRec(v, Null, Null, Null)
    requires l in Foot(a, l, tl) && r in Foot(a, r, tr) && Foot(a, l, tl) !! Foot(a, r, tr)
    requires o !in Foot(a, l, tl) && o !in Foot(a, r, tr)
    ensures var b := Linked(a, o, l, r);
      && Holds(b, o, Node(v, tl, tr), Null)
      && Foot(b, o, Node(v, tl, tr)) == {o} + Foot(a, l, tl) + Foot(a, r, tr)
      && Outside(a, b, {o, l, r})
  {
    var Fl, Fr := Foot(a, l, tl), Foot(a, r, tr);
    assert |{o, l, r}| == 3;
    LinkedRecords(a, o, l, r);
    var b := Linked(a, o, l, r);
    FootOfHolds(a, l, tl, Null);
    FootOfHolds(a, r, tr, Null);
    Avoids(Fl, Fr, l, o, r);
    OutsideAgree(a, b, Fl - {l}, {o, l, r});
    ReparentFrame(a, b, l, tl, Null, o);
    Avoids(Fr, Fl, r, o, l);
    assert {o, r, l} == {o, l, r};
    OutsideAgree(a, b, Fr - {r}, {o, l, r});
    ReparentFrame(a, b, r, tr, Null, o);
    HoldsNode(b, o, v, tl, tr, Null);
  }

  /**
   * One round of the constructor's loop on the heap: the waiting operator node `gapLo`, linked
   * over the two trees at the head of the queue and enqueued, holds the value-level round's
   * new tree, and the queue invariant carries over with one operator fewer waiting.
   */
  lemma QueueStep(a: seq<NodeRec>, q: seq<int>, ts: seq<Tree>, lo: int, gapLo: int, gapHi: int, v: Payload)
    requires QueueHolds(a, q, ts, lo, gapLo, gapHi) && |q| >= 2
    requires 0 <= lo <= gapLo < gapHi <= |a| && a[gapLo] == NodeRec(v, Null, Null, Null)
    ensures 0 <= q[0] < |a| && 0 <= q[1] < |a| && lo <= q[0] && lo <= q[1]
    ensures !(gapLo <= q[0] < gapHi) && !(gapLo <= q[1] < gapHi) && q[0] != q[1]
    ensures var b := Linked(a, gapLo, q[0], q[1]);
      && QueueHolds(b, q[2..] + [gapLo], ts[2..] + [Node(v, ts[0], ts[1])], lo, gapLo + 1, gapHi)
      && Outside(a, b, {gapLo, q[0], q[1]})
  {
    var o, l, r := gapLo, q[0], q[1];
    var Fl, Fr := Foot(a, l, ts[0]), Foot(a, r, ts[1]);
    QueueHead(a, q, ts, lo, gapLo, gapHi);
    var b := Linked(a, o, l, r);
    var q', ts', t := q[2..], ts[2..], Node(v, ts[0], ts[1]);
    RoundNode(a, o, l, r, ts[0], ts[1], v);
    QueueTail(a, q, ts, lo, gapLo, gapHi);
    forall x | 0 <= x < |q'|
      ensures Foot(a, q'[x], ts'[x]) !! {o, l, r}
    {
      assert Foot(a, q[x + 2], ts[x + 2]) !! Fl + Fr;
    }
    QueueRest(a, b, q', ts', lo, gapLo + 1, gapHi, {o, l, r});
    forall x | 0 <= x < |q'|
      ensures Foot(b, q'[x], ts'[x]) !! Foot(b, o, t)
    {
      assert Foot(a, q[x + 2], ts[x + 2]) !! Fl + Fr;
    }
    QueueJoin(b, q', ts', lo, gapLo + 1, gapHi, o, t);
  }

  /** In a tree held with a null parent, the node at position `k` has a null parent exactly at the root. */
  lemma PointParent(nodes: seq<NodeRec>, i: int, t: Tree, k: nat)
    requires Holds(nodes, i, t, Null) && k < Size(t)
    ensures 0 <= KthIndex(nodes, i, t, k) < |nodes|
    ensures nodes[KthIndex(nodes, i, t, k)].parent == Null <==> k == RootPosition(t)
  {
    KthIndexHolds(nodes, i, t, Null, k);
    FootOfHolds(nodes, i, t, Null);
  }

  /** Changes confined to records at or above `|n0|` keep the records of `n0`. */
  lemma ExtendsPast(n0: seq<NodeRec>, a: seq<NodeRec>, b: seq<NodeRec>, changed: set<int>)
    requires Extends(n0, a) && Outside(a, b, changed)
    requires forall z :: z in changed ==> |n0| <= z
    ensures Extends(n0, b)
  {
  }

  /** The shared node heap. */
  class Arena {
    var nodes: seq<NodeRec>

    constructor ()
      ensures nodes == []
    {
      nodes := [];
    }

    /** The allocation in `new ExpressionTreeNode(type, value)` once the check has passed. */
    method Alloc(p: Payload) returns (i: int)
      modifies this
      ensures nodes == old(nodes) + [NodeRec(p, Null, Null, Null)]
      ensures i == |old(nodes)|
    {
      i := |nodes|;
      nodes := nodes + [NodeRec(p, Null, Null, Null)];
    }

    /**
     * The inner class's constructor: the type/value check, then a fresh node with null links.
     * A failed check allocates nothing.
     */
    method NewNode(kind: Option<TypeTag>, value: JavaObject) returns (r: Result<int, Exception>)
      modifies this
      ensures r.Success? <==> kind.Some? && Matches(kind.value, value)
      ensures r.Failure? ==> r.error == CheckNode(kind, value, InnerMismatchMessage).error && nodes == old(nodes)
      ensures r.Success? ==> r.value == |old(nodes)|
      ensures r.Success? ==> nodes == old(nodes) + [NodeRec(CheckNode(kind, value, InnerMismatchMessage).value, Null, Null, Null)]
      ensures r.Success? ==> TypeOf(nodes[r.value].val) == kind.value && Boxed(nodes[r.value].val) == value
    {
      match CheckNode(kind, value, InnerMismatchMessage)
      case Failure(e) =>
        r := Failure(e);
      case Success(p) =>
        var i := Alloc(p);
        r := Success(i);
    }

    /** `node.leftChild = child`. */
    method SetLeft(i: int, child: int)
      requires 0 <= i < |nodes|
      modifies this
      ensures nodes == old(nodes)[i := old(nodes)[i].(left := child)]
    {
      nodes := nodes[i := nodes[i].(left := child)];
    }

    /** `node.rightChild = child`. */
    method SetRight(i: int, child: int)
      requires 0 <= i < |nodes|
      modifies this
      ensures nodes == old(nodes)[i := old(nodes)[i].(right := child)]
    {
      nodes := nodes[i := nodes[i].(right := child)];
    }

    /** `node.parent = parent`. */
    method SetParent(i: int, parent: int)
      requires 0 <= i < |nodes|
      modifies this
      ensures nodes == old(nodes)[i := old(nodes)[i].(parent := parent)]
    {
      nodes := nodes[i := nodes[i].(parent := parent)];
    }

    /**
     * A run of `new ExpressionTreeNode(kind, value)` calls, one per value, and the queue of the
     * new nodes. The first value of the wrong class throws, and the nodes made before it stay
     * allocated and unreachable.
     */
    method AllocAll(kind: TypeTag, values: seq<JavaObject>) returns (r: Result<seq<int>, Exception>)
      modifies this
      ensures Extends(old(nodes), nodes)
      ensures r.Success? <==> forall x :: 0 <= x < |values| ==> Matches(kind, values[x])
      ensures r.Failure? ==> r.error == IllegalArgument(InnerMismatchMessage)
      ensures r.Success? ==> nodes == old(nodes) + Unlinked(Unboxed(kind, values))
      ensures r.Success? ==> |r.value| == |values| && forall x :: 0 <= x < |values| ==> r.value[x] == |old(nodes)| + x
    {
      var q := [];
      var x := 0;
      while x < |values|
        invariant 0 <= x <= |values| && forall y :: 0 <= y < x ==> Matches(kind, values[y])
        invariant nodes == old(nodes) + Unlinked(Unboxed(kind, values[..x]))
        invariant |q| == x && forall y :: 0 <= y < x ==> q[y] == |old(nodes)| + y
      {
        var n := NewNode(Some(kind), values[x]);
        if n.Failure? {
          return Failure(n.error);
        }
        q := q + [n.value];
        x := x + 1;
        assert Unboxed(kind, values[..x]) == Unboxed(kind, values[..x - 1]) + [Unboxed(kind, values[..x])[x - 1]];
      }
      assert values[..x] == values;
      r := Success(q);
    }

    /** The pointer swap of `crossover`: first the two parents' slots, then the two parent links. */
    method SwapSubtrees(j1: int, j2: int)
      requires 0 <= j1 < |nodes| && 0 <= j2 < |nodes|
      requires 0 <= nodes[j1].parent < |nodes| && 0 <= nodes[j2].parent < |nodes|
      modifies this
      ensures nodes == Swapped(old(nodes), j1, j2)
    {
      var q1 := nodes[j1].parent;
      if nodes[q1].left == j1 {
        SetLeft(q1, j2);
      } else {
        SetRight(q1, j2);
      }
      var q2 := nodes[j2].parent;
      if nodes[q2].left == j2 {
        SetLeft(q2, j1);
      } else {
        SetRight(q2, j1);
      }
      var temp := nodes[j1].parent;
      SetParent(j1, nodes[j2].parent);
      SetParent(j2, temp);
    }

    /** `getSize`: one plus the sizes of the non-null children. */
    method GetSize(i: int, ghost t: Tree, ghost parent: int) returns (n: int)
      requires Holds(nodes, i, t, parent) && t.Node?
      ensures n == Size(t) && n == |InOrder(t)|
      decreases t
    {
      var leftSize, rightSize := 0, 0;
      if nodes[i].left != Null {
        leftSize := GetSize(nodes[i].left, t.left, i);
      }
      if nodes[i].right != Null {
        rightSize := GetSize(nodes[i].right, t.right, i);
      }
      n := 1 + leftSize + rightSize;
    }

    /**
     * `getKthNode(k)`: the node the descent by left-subtree sizes reaches, which holds the
     * k-th subtree of the in-order traversal.
     */
    method KthNodeAt(i: int, k: int, ghost t: Tree, ghost parent: int) returns (j: int)
      requires Holds(nodes, i, t, parent) && 0 <= k < Size(t)
      ensures j == KthIndex(nodes, i, t, k)
      ensures 0 <= j < |nodes| && Holds(nodes, j, InOrder(t)[k], nodes[j].parent)
      decreases t
    {
      KthIndexHolds(nodes, i, t, parent, k);
      var leftSize := 0;
      if nodes[i].left != Null {
        leftSize := GetSize(nodes[i].left, t.left, i);
      }
      if leftSize == k {
        j := i;
      } else if leftSize > k {
        j := KthNodeAt(nodes[i].left, k, t.left, i);
      } else {
        j := KthNodeAt(nodes[i].right, k - leftSize - 1, t.right, i);
      }
    }

    /**
     * `getRandomNode` with the draw `nextInt(size - 1)` passed in: the node itself when it
     * is alone, otherwise its node at the drawn in-order position.
     */
    method RandomNodeAt(i: int, position: nat, ghost t: Tree, ghost parent: int) returns (j: int)
      requires Holds(nodes, i, t, parent) && t.Node?
      requires Size(t) > 1 ==> position < Size(t) - 1
      ensures j == KthIndex(nodes, i, t, RandomPosition(t, position))
    {
      var size := GetSize(i, t, parent);
      if size > 1 {
        j := KthNodeAt(i, position, t, parent);
      } else {
        j := i;
      }
    }

    /**
     * What `DataSet.fitness` sees of a tree when it evaluates it: the tree the nodes from
     * `i` hold, read off the heap.
     */
    method ReadTree(i: int, ghost t: Tree, ghost parent: int) returns (r: Tree)
      requires Holds(nodes, i, t, parent)
      ensures r == t
      decreases t
    {
      if i == Null {
        FootOfHolds(nodes, i, t, parent);
        r := Nil;
      } else {
        FootOfHolds(nodes, i, t, parent);
        var l := ReadTree(nodes[i].left, t.left, i);
        var rr := ReadTree(nodes[i].right, t.right, i);
        r := Node(nodes[i].val, l, rr);
      }
    }

    /**
     * `evaluate(variables, zeroDivisor)` on the node `i`: the value and the exception are
     * those of `Evaluate`, and the flag, never reset, ends up raised exactly when it already
     * was or some division on the way met a zero divisor.
     */
    method EvaluateAt(i: int, env: Bindings, zeroDivisor: array<bool>, ghost t: Tree, ghost parent: int)
      returns (r: Result<real, Exception>)
      requires Holds(nodes, i, t, parent) && zeroDivisor.Length == 1
      modifies zeroDivisor
      ensures Evaluate(t, env).Failure? ==> r == Failure(Evaluate(t, env).error)
      ensures Evaluate(t, env).Success? ==> r == Success(Evaluate(t, env).value.value)
      ensures Evaluate(t, env).Success? ==> zeroDivisor[0] == (old(zeroDivisor[0]) || Evaluate(t, env).value.zeroDivisor)
      decreases t
    {
      FootOfHolds(nodes, i, t, parent);
      if i == Null {
        return Failure(NullPointer);
      }
      var v := nodes[i].val;
      assert t.Node? && t.val == v;
      if v.Coef? {
        return Success(v.value);
      } else if v.Var? {
        if v.name !in env {
          return Failure(IllegalArgument(UndefinedVariable));
        }
        if env[v.name].None? {
          return Failure(NullPointer);
        }
        return Success(env[v.name].value);
      }
      var left := EvaluateAt(nodes[i].left, env, zeroDivisor, t.left, i);
      if left.Failure? {
        return Failure(left.error);
      }
      var right := EvaluateAt(nodes[i].right, env, zeroDivisor, t.right, i);
      if right.Failure? {
        return Failure(right.error);
      }
      assert t == Node(Op(v.op), t.left, t.right);
      assert Evaluate(t, env).value.value == Apply(v.op, left.value, right.value).value;
      if v.op.Add? {
        r := Success(left.value + right.value);
      } else if v.op.Subtract? {
        r := Success(left.value - right.value);
      } else if v.op.Multiply? {
        assert v.op == Multiply;
        assert Apply(Multiply, left.value, right.value).value == left.value * right.value;
        r := Success(left.value * right.value);
        assert r.value == Evaluate(t, env).value.value;
      } else if right.value == 0.0 {
        zeroDivisor[0] := true;
        r := Success(1.0);
      } else {
        r := Success(left.value / right.value);
      }
    }

    /**
     * `copy`: a fresh node with the same type and value, then copies of the non-null children
     * linked under it both ways. The copy holds the same tree with a null parent and consists
     * of new records only; every record that existed before is untouched.
     */
    method Copy(i: int, ghost t: Tree, ghost parent: int) returns (c: int)
      requires Holds(nodes, i, t, parent) && t.Node?
      modifies this
      ensures Extends(old(nodes), nodes)
      ensures Holds(nodes, c, t, Null)
      ensures forall x :: x in Foot(nodes, c, t) ==> |old(nodes)| <= x < |nodes|
      decreases t, 0
    {
      ghost var n0 := nodes;
      var rec := nodes[i];
      c := Alloc(rec.val);
      ghost var n1 := nodes;
      if rec.left != Null {
        HoldsGrow(n0, nodes, rec.left, t.left, i);
        var l := CopyChild(c, rec.left, t.left, i, true);
      }
      ghost var n2 := nodes;
      assert ChildCopied(n1, n2, c, n2[c].left, t.left) && n2[c] == n1[c].(left := n2[c].left);
      if rec.right != Null {
        FootOfHolds(n0, rec.right, t.right, i);
        HoldsGrow(n0, n1, rec.right, t.right, i);
        HoldsFrame(n1, n2, rec.right, t.right, i);
        var r := CopyChild(c, rec.right, t.right, i, false);
      }
      CopyJoin(n0, n1, n2, nodes, c, rec.val, t.left, t.right);
    }

    /**
     * One child of `copy`: `copy.leftChild = leftChild.copy(); copy.leftChild.parent = copy;`
     * (or the same with `rightChild`). Only the slot of `c` changes among the old records.
     */
    method CopyChild(c: int, child: int, ghost t: Tree, ghost parent: int, left: bool) returns (l: int)
      requires 0 <= c < |nodes| && Holds(nodes, child, t, parent) && t.Node?
      modifies this
      ensures ChildCopied(old(nodes), nodes, c, l, t)
      ensures nodes[c] == if left then old(nodes)[c].(left := l) else old(nodes)[c].(right := l)
      decreases t, 1
    {
      l := Copy(child, t, parent);
      ghost var n2 := nodes;
      FootOfHolds(nodes, l, t, Null);
      if left {
        SetLeft(c, l);
      } else {
        SetRight(c, l);
      }
      HoldsFrame(n2, nodes, l, t, Null);
      ghost var n3 := nodes;
      SetParent(l, c);
      HoldsReparent(n3, l, t, Null, c);
    }

    /**
     * `simplify` on node `i`: both children first, then, only at an operator node that has a
     * parent, either fold two coefficient children under `+`, `-`, `*` into this node as a
     * childless coefficient, or turn `x / x` into the coefficient 1.0 with both children kept.
     * It answers false on every path. Only records of the tree change, and the rewritten tree
     * uses no record it did not use before.
     */
    method SimplifyAt(i: int, ghost t: Tree, ghost parent: int) returns (degenerate: bool)
      requires Holds(nodes, i, t, parent) && t.Node? && Complete(t)
      modifies this
      ensures !degenerate
      ensures Holds(nodes, i, Simplify(t, parent == Null), parent)
      ensures Foot(nodes, i, Simplify(t, parent == Null)) <= Foot(old(nodes), i, t)
      ensures Outside(old(nodes), nodes, Foot(old(nodes), i, t))
      decreases t, 1
    {
      ghost var l', r' := Simplify(t.left, false), Simplify(t.right, false);
      ghost var n0 := nodes;
      SimplifyChildren(i, t, parent);
      ghost var n2 := nodes;
      degenerate := false;
      var rec := nodes[i];
      FootOfHolds(nodes, i, Node(t.val, l', r'), parent);
      FootOfHolds(n0, i, t, parent);
      if rec.parent != Null && rec.val.Op? {
        var left, right := nodes[rec.left], nodes[rec.right];
        if left.val.Coef? && right.val.Coef? && !rec.val.op.Divide? {
          var value :=
            if rec.val.op.Add? then left.val.value + right.val.value
            else if rec.val.op.Subtract? then left.val.value - right.val.value
            else left.val.value * right.val.value;
          nodes := nodes[i := NodeRec(Coef(value), Null, Null, rec.parent)];
          assert Simplify(t, parent == Null) == Leaf(Coef(value)) by {
            assert Fold(rec.val.op, left.val.value, right.val.value) == value;
          }
          Collapse(n2, nodes, i, Node(t.val, l', r'), parent, Coef(value));
        } else if left.val.Var? && right.val.Var? && rec.val.op.Divide? && left.val.name == right.val.name {
          nodes := nodes[i := rec.(val := Coef(1.0))];
          assert Simplify(t, parent == Null) == Node(Coef(1.0), l', r');
          Retag(n2, nodes, i, Node(t.val, l', r'), parent, Coef(1.0));
        } else {
          assert Simplify(t, parent == Null) == Node(t.val, l', r');
        }
      } else {
        assert Simplify(t, parent == Null) == Node(t.val, l', r');
      }
      OutsideChain(n0, n2, nodes, Foot(n0, i, t), {i}, Foot(n0, i, t));
    }

    /** The first half of `simplify`: the non-null children are simplified, the node kept. */
    method SimplifyChildren(i: int, ghost t: Tree, ghost parent: int)
      requires Holds(nodes, i, t, parent) && t.Node? && Complete(t)
      modifies this
      ensures |nodes| == |old(nodes)| && nodes[i] == old(nodes)[i]
      ensures Holds(nodes, i, Node(t.val, Simplify(t.left, false), Simplify(t.right, false)), parent)
      ensures Foot(nodes, i, Node(t.val, Simplify(t.left, false), Simplify(t.right, false))) <= Foot(old(nodes), i, t)
      ensures Outside(old(nodes), nodes, Foot(old(nodes), i, t))
      decreases t, 0
    {
      ghost var n0 := nodes;
      ghost var l', r' := Simplify(t.left, false), Simplify(t.right, false);
      FootOfHolds(nodes, i, t, parent);
      FootOfHolds(nodes, nodes[i].left, t.left, i);
      FootOfHolds(nodes, nodes[i].right, t.right, i);
      if nodes[i].left != Null {
        var _ := SimplifyAt(nodes[i].left, t.left, i);
      }
      ghost var n1 := nodes;
      HoldsFrame(n0, n1, n0[i].right, t.right, i);
      if nodes[i].right != Null {
        var _ := SimplifyAt(nodes[i].right, t.right, i);
      }
      ghost var n2 := nodes;
      FootOfHolds(n1, n1[i].left, l', i);
      HoldsFrame(n1, n2, n1[i].left, l', i);
      HoldsNode(nodes, i, t.val, l', r', parent);
    }

    /**
     * `mutate` on node `i`: a coefficient node takes the next draw and has its value shifted
     * by `offset + minMutation` when the draw's chance is below the rate, unless the bound
     * `maxMutation - minMutation + 1` it then asks `nextInt` for is not positive, which throws;
     * then the left and the right subtree take theirs. The draws from `next` on are consumed
     * one per coefficient in pre-order; links and every record outside the tree stay as they
     * were, and the coefficients changed before a throw stay changed.
     */
    method MutateAt(i: int, rate: real, minMutation: int, maxMutation: int, draws: seq<Draw>, next: nat,
                    ghost t: Tree, ghost parent: int)
      returns (next': nat, thrown: bool)
      requires Holds(nodes, i, t, parent) && t.Node?
      requires next + |Coefficients(t)| <= |draws|
      modifies this
      ensures thrown == Mutate(t, rate, minMutation, maxMutation, draws[next..next + |Coefficients(t)|]).thrown
      ensures !thrown ==> next' == next + |Coefficients(t)|
      ensures Holds(nodes, i, Mutate(t, rate, minMutation, maxMutation, draws[next..next + |Coefficients(t)|]).tree, parent)
      ensures Foot(nodes, i, Mutate(t, rate, minMutation, maxMutation, draws[next..next + |Coefficients(t)|]).tree)
           == Foot(old(nodes), i, t)
      ensures Outside(old(nodes), nodes, Foot(old(nodes), i, t))
      decreases Size(t), 1
    {
      ghost var n0 := nodes;
      ghost var end := next + |Coefficients(t)|;
      MutateSplit(t, rate, minMutation, maxMutation, draws, next, end);
      next' := next;
      var rec := nodes[i];
      var v := rec.val;
      if v.Coef? {
        if draws[next].chance < rate && maxMutation - minMutation + 1 <= 0 {
          return next, true;
        }
        v := Coef(Perturb(v.value, rate, minMutation, draws[next]));
        next' := next + 1;
      }
      nodes := nodes[i := rec.(val := v)];
      ghost var u := Node(v, t.left, t.right);
      assert |Coefficients(t)| == next' - next + |Coefficients(t.left)| + |Coefficients(t.right)|;
      Retag(n0, nodes, i, t, parent, v);
      ghost var n1 := nodes;
      next', thrown := MutateChildren(i, rate, minMutation, maxMutation, draws, next', u, parent);
      OutsideChain(n0, n1, nodes, {i}, Foot(n1, i, u), Foot(n0, i, t));
    }

    /** A child link of a node being mutated: followed only when it is not null. */
    method MutateLink(j: int, rate: real, minMutation: int, maxMutation: int, draws: seq<Draw>, next: nat,
                      ghost t: Tree, ghost parent: int)
      returns (next': nat, thrown: bool)
      requires Holds(nodes, j, t, parent)
      requires next + |Coefficients(t)| <= |draws|
      modifies this
      ensures thrown == Mutate(t, rate, minMutation, maxMutation, draws[next..next + |Coefficients(t)|]).thrown
      ensures !thrown ==> next' == next + |Coefficients(t)|
      ensures Holds(nodes, j, Mutate(t, rate, minMutation, maxMutation, draws[next..next + |Coefficients(t)|]).tree, parent)
      ensures Foot(nodes, j, Mutate(t, rate, minMutation, maxMutation, draws[next..next + |Coefficients(t)|]).tree)
           == Foot(old(nodes), j, t)
      ensures Outside(old(nodes), nodes, Foot(old(nodes), j, t))
      decreases Size(t), 2
    {
      if j != Null {
        next', thrown := MutateAt(j, rate, minMutation, maxMutation, draws, next, t, parent);
      } else {
        next', thrown := next, false;
      }
    }

    /**
     * The second half of `mutate`: the non-null children mutate in turn, left first; the
     * right child is not visited when the left one threw.
     */
    method MutateChildren(i: int, rate: real, minMutation: int, maxMutation: int, draws: seq<Draw>, next: nat,
                          ghost t: Tree, ghost parent: int)
      returns (next': nat, thrown: bool)
      requires Holds(nodes, i, t, parent) && t.Node?
      requires next + |Coefficients(t.left)| + |Coefficients(t.right)| <= |draws|
      modifies this
      ensures var end := next + |Coefficients(t.left)| + |Coefficients(t.right)|;
        thrown == MutateBelow(t.val, t.left, t.right, rate, minMutation, maxMutation, draws[next..end]).thrown
      ensures !thrown ==> next' == next + |Coefficients(t.left)| + |Coefficients(t.right)|
      ensures var end := next + |Coefficients(t.left)| + |Coefficients(t.right)|;
        Holds(nodes, i, MutateBelow(t.val, t.left, t.right, rate, minMutation, maxMutation, draws[next..end]).tree, parent)
      ensures var end := next + |Coefficients(t.left)| + |Coefficients(t.right)|;
        Foot(nodes, i, MutateBelow(t.val, t.left, t.right, rate, minMutation, maxMutation, draws[next..end]).tree)
        == Foot(old(nodes), i, t)
      ensures Outside(old(nodes), nodes, Foot(old(nodes), i, t))
      decreases Size(t), 0
    {
      ghost var n0 := nodes;
      ghost var mid := next + |Coefficients(t.left)|;
      ghost var end := mid + |Coefficients(t.right)|;
      BelowSplit(t.val, t.left, t.right, rate, minMutation, maxMutation, draws, next, mid, end);
      var rec := nodes[i];
      next', thrown := MutateLink(rec.left, rate, minMutation, maxMutation, draws, next, t.left, i);
      ghost var l' := Mutate(t.left, rate, minMutation, maxMutation, draws[next..mid]).tree;
      ghost var n1 := nodes;
      LeftDone(n0, n1, i, t, parent, l');
      if thrown {
        BothDone(n0, n1, n1, i, t, parent, l', t.right);
        return;
      }
      next', thrown := MutateLink(rec.right, rate, minMutation, maxMutation, draws, next', t.right, i);
      ghost var r' := Mutate(t.right, rate, minMutation, maxMutation, draws[mid..end]).tree;
      BothDone(n0, n1, nodes, i, t, parent, l', r');
    }
  }

  /**
   * Once the left subtree of `i` has been rewritten within its own footprint, node `i` and
   * the right subtree are as they were.
   */
  lemma LeftDone(n0: seq<NodeRec>, n1: seq<NodeRec>, i: int, t: Tree, parent: int, l': Tree)
    requires Holds(n0, i, t, parent) && t.Node?
    requires Holds(n1, n0[i].left, l', i) && Foot(n1, n0[i].left, l') == Foot(n0, n0[i].left, t.left)
    requires Outside(n0, n1, Foot(n0, n0[i].left, t.left))
    ensures 0 <= i < |n1| && n1[i] == n0[i]
    ensures Holds(n1, n0[i].right, t.right, i)
    ensures Foot(n1, n0[i].right, t.right) == Foot(n0, n0[i].right, t.right)
  {
    FootOfHolds(n0, n0[i].right, t.right, i);
    OutsideAgree(n0, n1, {i} + Foot(n0, n0[i].right, t.right), Foot(n0, n0[i].left, t.left));
    HoldsFrame(n0, n1, n0[i].right, t.right, i);
  }

  /**
   * Once both subtrees of `i` have been rewritten, each within its own footprint, `i` holds
   * the node over the new subtrees, on the same footprint, and nothing outside it changed.
   */
  lemma BothDone(n0: seq<NodeRec>, n1: seq<NodeRec>, n2: seq<NodeRec>, i: int, t: Tree, parent: int, l': Tree, r': Tree)
    requires Holds(n0, i, t, parent) && t.Node?
    requires Holds(n1, n0[i].left, l', i) && Foot(n1, n0[i].left, l') == Foot(n0, n0[i].left, t.left)
    requires Outside(n0, n1, Foot(n0, n0[i].left, t.left))
    requires Holds(n2, n0[i].right, r', i) && Foot(n2, n0[i].right, r') == Foot(n1, n0[i].right, t.right)
    requires Outside(n1, n2, Foot(n1, n0[i].right, t.right))
    ensures Holds(n2, i, Node(t.val, l', r'), parent)
    ensures Foot(n2, i, Node(t.val, l', r')) == Foot(n0, i, t)
    ensures Outside(n0, n2, Foot(n0, i, t))
  {
    LeftDone(n0, n1, i, t, parent, l');
    var L, R := Foot(n0, n0[i].left, t.left), Foot(n0, n0[i].right, t.right);
    assert Foot(n0, i, t) == {i} + L + R && i !in L && i !in R && L !! R;
    FootOfHolds(n0, n0[i].left, t.left, i);
    FootOfHolds(n1, n0[i].left, l', i);
    OutsideAgree(n1, n2, {i} + L, R);
    HoldsFrame(n1, n2, n0[i].left, l', i);
    OutsideChain(n0, n1, n2, L, R, Foot(n0, i, t));
    HoldsNode(n2, i, t.val, l', r', parent);
  }

  /** Changing the value of the record at a tree's root keeps the tree's links. */
  lemma Retag(a: seq<NodeRec>, b: seq<NodeRec>, i: int, t: Tree, parent: int, v: Payload)
    requires Holds(a, i, t, parent) && t.Node?
    requires b == a[i := a[i].(val := v)]
    ensures Holds(b, i, Node(v, t.left, t.right), parent)
    ensures Foot(b, i, Node(v, t.left, t.right)) == Foot(a, i, t)
    ensures Outside(a, b, {i})
  {
    FootOfHolds(a, a[i].left, t.left, i);
    FootOfHolds(a, a[i].right, t.right, i);
    HoldsFrame(a, b, a[i].left, t.left, i);
    HoldsFrame(a, b, a[i].right, t.right, i);
  }

  /**
   * `b` keeps every record of `a` except possibly `c`, and `j` holds in `b` a copy of `t`
   * under `c` made of records appended after `a`.
   */
  ghost predicate ChildCopied(a: seq<NodeRec>, b: seq<NodeRec>, c: int, j: int, t: Tree)
  {
    && |a| <= |b| && 0 <= c < |a|
    && (forall x :: 0 <= x < |a| && x != c ==> b[x] == a[x])
    && Holds(b, j, t, c)
    && (forall x :: x in Foot(b, j, t) ==> |a| <= x < |b|)
  }

  /**
   * A fresh record `c` with payload `v` whose left and then right slot receive fresh copies
   * of `l` and `r` holds `Node(v, l, r)` with a null parent, on appended records only.
   */
  lemma CopyJoin(n0: seq<NodeRec>, n1: seq<NodeRec>, n2: seq<NodeRec>, n3: seq<NodeRec>, c: int, v: Payload, l: Tree, r: Tree)
    requires c == |n0| && n1 == n0 + [NodeRec(v, Null, Null, Null)]
    requires |n1| <= |n2| && n2[c] == n1[c].(left := n2[c].left) && ChildCopied(n1, n2, c, n2[c].left, l)
    requires |n2| <= |n3| && n3[c] == n2[c].(right := n3[c].right) && ChildCopied(n2, n3, c, n3[c].right, r)
    ensures Extends(n0, n3)
    ensures Holds(n3, c, Node(v, l, r), Null)
    ensures forall x :: x in Foot(n3, c, Node(v, l, r)) ==> |n0| <= x < |n3|
  {
    var fl := Foot(n2, n2[c].left, l);
    FootOfHolds(n2, n2[c].left, l, c);
    HoldsFrame(n2, n3, n2[c].left, l, c);
    Separated(fl, Foot(n3, n3[c].right, r), |n2|);
    HoldsNode(n3, c, v, l, r, Null);
  }

  /**
   * Turning the record at a tree's root into a childless node with payload `v` makes it hold
   * that leaf alone, changing no other record.
   */
  lemma Collapse(a: seq<NodeRec>, b: seq<NodeRec>, i: int, t: Tree, parent: int, v: Payload)
    requires Holds(a, i, t, parent) && t.Node?
    requires b == a[i := NodeRec(v, Null, Null, a[i].parent)]
    ensures Holds(b, i, Leaf(v), parent)
    ensures Foot(b, i, Leaf(v)) == {i} <= Foot(a, i, t)
    ensures Outside(a, b, {i})
  {
    assert Foot(b, Null, Nil) == {};
  }

  /** Two changes, each confined to part of `s`, together change nothing outside `s`. */
  lemma OutsideChain(a: seq<NodeRec>, b: seq<NodeRec>, c: seq<NodeRec>, s1: set<int>, s2: set<int>, s: set<int>)
    requires Outside(a, b, s1) && Outside(b, c, s2) && s1 <= s && s2 <= s
    ensures Outside(a, c, s)
  {
  }
}
