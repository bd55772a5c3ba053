/** `ExpressionTreeNode.mutate`: perturbation of coefficient values, visited in pre-order. */
module Mutation {
  import opened Nodes
  import opened Trees

  /**
   * The two draws the source makes for one coefficient: `nextDouble()` as `chance`, and
   * `nextInt(maxMutation - minMutation + 1)` as `offset`.
   */
  datatype Draw = Draw(chance: real, offset: int)

  /** A draw the random generator can produce for the given range. */
  predicate ValidDraw(d: Draw, rate: real, minMutation: int, maxMutation: int)
  {
    0.0 <= d.chance < 1.0 && (d.chance < rate ==> 0 <= d.offset <= maxMutation - minMutation)
  }

  /** The message of the exception `Random.nextInt` throws for a bound that is not positive. */
  const BoundMessage := "bound must be positive"

  /**
   * A coefficient whose chance is below the rate asks for `nextInt(maxMutation - minMutation + 1)`,
   * which throws when that bound is not positive, that is when `maxMutation < minMutation`.
   */
  predicate Throws(d: Draw, rate: real, minMutation: int, maxMutation: int)
  {
    d.chance < rate && maxMutation - minMutation + 1 <= 0
  }

  /** Some draw among `draws` makes `nextInt` throw. */
  predicate Halted(draws: seq<Draw>, rate: real, minMutation: int, maxMutation: int)
  {
    exists j :: 0 <= j < |draws| && Throws(draws[j], rate, minMutation, maxMutation)
  }

  /**
   * The tree after `mutate` has run, and whether it stopped with an exception. A thrown
   * exception leaves every coefficient visited before it already changed in place.
   */
  datatype Mutated = Mutated(tree: Tree, thrown: bool)

  /** The coefficient values in pre-order, the order in which `mutate` visits nodes. */
  function Coefficients(t: Tree): seq<real>
  {
    match t
    case Nil => []
    case Node(v, l, r) => (if v.Coef? then [v.value] else []) + Coefficients(l) + Coefficients(r)
  }

  /** One coefficient after its draw: shifted by `offset + minMutation` when `chance < rate`. */
  function Perturb(value: real, rate: real, minMutation: int, d: Draw): (p: real)
    ensures p != value ==> d.chance < rate
  {
    if d.chance < rate then value + (d.offset + minMutation) as real else value
  }

  /**
   * `mutate` on one node: a coefficient takes the first draw, and stops everything when that
   * draw throws; then the children mutate, left first. The draws are consumed in pre-order,
   * one per coefficient.
   */
  function Mutate(t: Tree, rate: real, minMutation: int, maxMutation: int, draws: seq<Draw>): (m: Mutated)
    requires |draws| == |Coefficients(t)|
    ensures m.thrown ==> maxMutation < minMutation
    decreases Size(t), 1
  {
    match t
    case Nil => Mutated(Nil, false)
    case Node(v, l, r) =>
      if v.Coef? && Throws(draws[0], rate, minMutation, maxMutation) then Mutated(t, true)
      else if v.Coef? then
        MutateBelow(Coef(Perturb(v.value, rate, minMutation, draws[0])), l, r, rate, minMutation, maxMutation, draws[1..])
      else MutateBelow(v, l, r, rate, minMutation, maxMutation, draws)
  }

  /**
   * The children of a node holding `v` mutate in turn: the right child is not visited when
   * the left one threw.
   */
  function MutateBelow(v: Payload, l: Tree, r: Tree, rate: real, minMutation: int, maxMutation: int,
                       draws: seq<Draw>): (m: Mutated)
    requires |draws| == |Coefficients(l)| + |Coefficients(r)|
    ensures m.thrown ==> maxMutation < minMutation
    decreases Size(l) + Size(r) + 1, 0
  {
    var mid := |Coefficients(l)|;
    var ml := Mutate(l, rate, minMutation, maxMutation, draws[..mid]);
    if ml.thrown then Mutated(Node(v, ml.tree, r), true)
    else
      var mr := Mutate(r, rate, minMutation, maxMutation, draws[mid..]);
      Mutated(Node(v, ml.tree, mr.tree), mr.thrown)
  }

  /** The tree with every coefficient value forgotten: its shape, operators and variables. */
  function Shape(t: Tree): Tree
  {
    match t
    case Nil => Nil
    case Node(v, l, r) => Node(if v.Coef? then Coef(0.0) else v, Shape(l), Shape(r))
  }

  /**
   * Mutation changes coefficient values only, whether or not it throws: shape, operators and
   * variable names are as before, and so are the size and completeness.
   */
  lemma {:induction false} MutateKeepsShape(t: Tree, rate: real, minMutation: int, maxMutation: int, draws: seq<Draw>)
    requires |draws| == |Coefficients(t)|
    ensures Shape(Mutate(t, rate, minMutation, maxMutation, draws).tree) == Shape(t)
    ensures Size(Mutate(t, rate, minMutation, maxMutation, draws).tree) == Size(t)
    ensures Complete(Mutate(t, rate, minMutation, maxMutation, draws).tree) == Complete(t)
    decreases t
  {
    if t.Node? && !(t.val.Coef? && Throws(draws[0], rate, minMutation, maxMutation)) {
      var ds := if t.val.Coef? then draws[1..] else draws;
      var mid := |Coefficients(t.left)|;
      MutateKeepsShape(t.left, rate, minMutation, maxMutation, ds[..mid]);
      if !Mutate(t.left, rate, minMutation, maxMutation, ds[..mid]).thrown {
        MutateKeepsShape(t.right, rate, minMutation, maxMutation, ds[mid..]);
      }
    }
  }

  /** Some draw of `a + b` throws exactly when one of `a` or of `b` does. */
  lemma HaltedAppend(a: seq<Draw>, b: seq<Draw>, rate: real, minMutation: int, maxMutation: int)
    ensures Halted(a + b, rate, minMutation, maxMutation)
        <==> Halted(a, rate, minMutation, maxMutation) || Halted(b, rate, minMutation, maxMutation)
  {
    var ab := a + b;
    if Halted(b, rate, minMutation, maxMutation) {
      var j :| 0 <= j < |b| && Throws(b[j], rate, minMutation, maxMutation);
      assert ab[|a| + j] == b[j];
    }
    if Halted(a, rate, minMutation, maxMutation) {
      var j :| 0 <= j < |a| && Throws(a[j], rate, minMutation, maxMutation);
      assert ab[j] == a[j];
    }
    if Halted(ab, rate, minMutation, maxMutation) {
      var j :| 0 <= j < |ab| && Throws(ab[j], rate, minMutation, maxMutation);
      if j >= |a| {
        assert b[j - |a|] == ab[j];
      } else {
        assert a[j] == ab[j];
      }
    }
  }

  /** `mutate` throws exactly when one of the draws it is given throws. */
  lemma {:induction false} MutateThrows(t: Tree, rate: real, minMutation: int, maxMutation: int, draws: seq<Draw>)
    requires |draws| == |Coefficients(t)|
    ensures Mutate(t, rate, minMutation, maxMutation, draws).thrown <==> Halted(draws, rate, minMutation, maxMutation)
    decreases t
  {
    if t.Node? {
      if t.val.Coef? && Throws(draws[0], rate, minMutation, maxMutation) {
        assert Halted(draws, rate, minMutation, maxMutation);
      } else {
        var own := if t.val.Coef? then 1 else 0;
        var ds := draws[own..];
        var mid := |Coefficients(t.left)|;
        assert draws == draws[..own] + ds[..mid] + ds[mid..];
        assert !Halted(draws[..own], rate, minMutation, maxMutation);
        HaltedAppend(draws[..own] + ds[..mid], ds[mid..], rate, minMutation, maxMutation);
        HaltedAppend(draws[..own], ds[..mid], rate, minMutation, maxMutation);
        MutateThrows(t.left, rate, minMutation, maxMutation, ds[..mid]);
        MutateThrows(t.right, rate, minMutation, maxMutation, ds[mid..]);
      }
    } else {
      assert draws == [];
    }
  }

  /**
   * The coefficient values after `mutate`, in pre-order: each is perturbed by its draw, up
   * to the first draw that throws; from there on every value is as it was.
   */
  function Shifted(values: seq<real>, rate: real, minMutation: int, maxMutation: int, draws: seq<Draw>): (s: seq<real>)
    requires |draws| == |values|
    ensures |s| == |values|
  {
    if |values| == 0 then []
    else if Throws(draws[0], rate, minMutation, maxMutation) then values
    else [Perturb(values[0], rate, minMutation, draws[0])] + Shifted(values[1..], rate, minMutation, maxMutation, draws[1..])
  }

  /** Shifting a concatenation: the second part moves only when the first part did not throw. */
  lemma {:induction false} ShiftedAppend(a: seq<real>, b: seq<real>, da: seq<Draw>, db: seq<Draw>,
                                         rate: real, minMutation: int, maxMutation: int)
    requires |da| == |a| && |db| == |b|
    ensures Shifted(a + b, rate, minMutation, maxMutation, da + db)
         == Shifted(a, rate, minMutation, maxMutation, da)
          + (if Halted(da, rate, minMutation, maxMutation) then b else Shifted(b, rate, minMutation, maxMutation, db))
    decreases |a|
  {
    if |a| == 0 {
      assert a + b == b && da + db == db;
    } else if Throws(da[0], rate, minMutation, maxMutation) {
      assert Halted(da, rate, minMutation, maxMutation);
      assert (da + db)[0] == da[0];
    } else {
      assert (a + b)[1..] == a[1..] + b && (da + db)[1..] == da[1..] + db;
      assert (da + db)[0] == da[0] && (a + b)[0] == a[0];
      ShiftedAppend(a[1..], b, da[1..], db, rate, minMutation, maxMutation);
      assert da == [da[0]] + da[1..];
      HaltedAppend([da[0]], da[1..], rate, minMutation, maxMutation);
      assert !Halted([da[0]], rate, minMutation, maxMutation);
    }
  }

  /**
   * The coefficients in pre-order after `mutate` are the old ones shifted by the draws in
   * order, up to the one that throws.
   */
  lemma {:induction false} MutateCoefficients(t: Tree, rate: real, minMutation: int, maxMutation: int, draws: seq<Draw>)
    requires |draws| == |Coefficients(t)|
    ensures Coefficients(Mutate(t, rate, minMutation, maxMutation, draws).tree)
         == Shifted(Coefficients(t), rate, minMutation, maxMutation, draws)
    decreases t
  {
    if t.Node? && !(t.val.Coef? && Throws(draws[0], rate, minMutation, maxMutation)) {
      var own := if t.val.Coef? then 1 else 0;
      var ds := draws[own..];
      var mid := |Coefficients(t.left)|;
      MutateCoefficients(t.left, rate, minMutation, maxMutation, ds[..mid]);
      MutateThrows(t.left, rate, minMutation, maxMutation, ds[..mid]);
      if !Mutate(t.left, rate, minMutation, maxMutation, ds[..mid]).thrown {
        MutateCoefficients(t.right, rate, minMutation, maxMutation, ds[mid..]);
      }
      MutatedNode(t, rate, minMutation, maxMutation, draws);
      ShiftedNode(if t.val.Coef? then [t.val.value] else [], Coefficients(t.left), Coefficients(t.right),
                  rate, minMutation, maxMutation, draws);
    }
  }

  /** The coefficients of a mutated node that did not throw at its own value, part by part. */
  lemma MutatedNode(t: Tree, rate: real, minMutation: int, maxMutation: int, draws: seq<Draw>)
    requires |draws| == |Coefficients(t)| && t.Node?
    requires !(t.val.Coef? && Throws(draws[0], rate, minMutation, maxMutation))
    ensures var own := if t.val.Coef? then 1 else 0;
      var ds := draws[own..];
      var mid := |Coefficients(t.left)|;
      var ml := Mutate(t.left, rate, minMutation, maxMutation, ds[..mid]);
      Coefficients(Mutate(t, rate, minMutation, maxMutation, draws).tree)
      == (if t.val.Coef? then [Perturb(t.val.value, rate, minMutation, draws[0])] else [])
       + Coefficients(ml.tree)
       + (if ml.thrown then Coefficients(t.right)
          else Coefficients(Mutate(t.right, rate, minMutation, maxMutation, ds[mid..]).tree))
  {
    var own := if t.val.Coef? then 1 else 0;
    var v := if t.val.Coef? then Coef(Perturb(t.val.value, rate, minMutation, draws[0])) else t.val;
    assert Mutate(t, rate, minMutation, maxMutation, draws)
        == MutateBelow(v, t.left, t.right, rate, minMutation, maxMutation, draws[own..]);
  }

  /**
   * The shifted coefficients of a node that did not throw at its own value (`first`, empty or
   * one value), part by part: the right part moves only when the left part did not throw.
   */
  lemma ShiftedNode(first: seq<real>, cl: seq<real>, cr: seq<real>, rate: real, minMutation: int, maxMutation: int,
                    draws: seq<Draw>)
    requires |first| <= 1 && |draws| == |first| + |cl| + |cr|
    requires |first| == 1 ==> !Throws(draws[0], rate, minMutation, maxMutation)
    ensures var ds := draws[|first|..];
      Shifted(first + cl + cr, rate, minMutation, maxMutation, draws)
      == (if |first| == 1 then [Perturb(first[0], rate, minMutation, draws[0])] else [])
       + Shifted(cl, rate, minMutation, maxMutation, ds[..|cl|])
       + (if Halted(ds[..|cl|], rate, minMutation, maxMutation) then cr
          else Shifted(cr, rate, minMutation, maxMutation, ds[|cl|..]))
  {
    var own := |first|;
    var ds := draws[own..];
    var head := if own == 1 then [Perturb(first[0], rate, minMutation, draws[0])] else [];
    assert first + cl + cr == first + (cl + cr);
    assert draws == draws[..own] + ds;
    assert !Halted(draws[..own], rate, minMutation, maxMutation);
    ShiftedAppend(first, cl + cr, draws[..own], ds, rate, minMutation, maxMutation);
    assert Shifted(first, rate, minMutation, maxMutation, draws[..own]) == head;
    assert ds == ds[..|cl|] + ds[|cl|..];
    ShiftedAppend(cl, cr, ds[..|cl|], ds[|cl|..], rate, minMutation, maxMutation);
  }

  /**
   * Position by position: a coefficient is shifted by its own draw unless that draw or an
   * earlier one threw, in which case it keeps its value.
   */
  lemma {:induction false} ShiftedAt(values: seq<real>, rate: real, minMutation: int, maxMutation: int,
                                     draws: seq<Draw>, j: nat)
    requires |draws| == |values| && j < |values|
    ensures Shifted(values, rate, minMutation, maxMutation, draws)[j]
         == if Halted(draws[..j + 1], rate, minMutation, maxMutation) then values[j]
            else Perturb(values[j], rate, minMutation, draws[j])
    decreases j
  {
    if Throws(draws[0], rate, minMutation, maxMutation) {
      assert draws[..j + 1][0] == draws[0];
    } else if j == 0 {
      assert !Halted(draws[..1], rate, minMutation, maxMutation);
    } else {
      ShiftedAt(values[1..], rate, minMutation, maxMutation, draws[1..], j - 1);
      assert draws[..j + 1] == [draws[0]] + draws[1..][..j];
      HaltedAppend([draws[0]], draws[1..][..j], rate, minMutation, maxMutation);
      assert !Halted([draws[0]], rate, minMutation, maxMutation);
    }
  }

  /**
   * With draws the generator can produce, every coefficient moves by a whole number in
   * `[minMutation, maxMutation]` when its chance is below the rate, and stays put otherwise.
   * Such a draw asks for a positive bound, so nothing throws.
   */
  lemma MutationBounds(t: Tree, rate: real, minMutation: int, maxMutation: int, draws: seq<Draw>, j: nat)
    requires |draws| == |Coefficients(t)| && j < |draws|
    requires ValidDraw(draws[j], rate, minMutation, maxMutation)
    ensures |Coefficients(Mutate(t, rate, minMutation, maxMutation, draws).tree)| == |draws|
    ensures var delta := Coefficients(Mutate(t, rate, minMutation, maxMutation, draws).tree)[j] - Coefficients(t)[j];
      if draws[j].chance < rate then
        delta == (draws[j].offset + minMutation) as real && minMutation as real <= delta <= maxMutation as real
      else delta == 0.0
  {
    MutateCoefficients(t, rate, minMutation, maxMutation, draws);
    ShiftedAt(Coefficients(t), rate, minMutation, maxMutation, draws, j);
    if draws[j].chance < rate {
      assert !Halted(draws[..j + 1], rate, minMutation, maxMutation);
    }
  }
}
