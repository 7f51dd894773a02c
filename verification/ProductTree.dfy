/**
 The three passes over the tree of the interpolation.  Threads work on disjoint parts of the tree and are taken
 one after the other.
 */
module ProductTree {
  import opened Fields
  import opened Polynomials
  import PolyRoots
  import opened PolyRing
  import opened PointProducts
  import opened Heap
  import opened Interpolation
  import opened Powers
  import opened SubTrees

  // Building the tree

  ghost function TreeNodes<F(!new)>(f: Field<F>, x: seq<F>): (nat, seq<F>) -> bool
    requires |x| > 0
  {
    (i: nat, p: seq<F>) => i < 2 * |x| - 1 && TreeOk(f, x, i, p)
  }

  /** The product tree of the points. */
  ghost predicate IsTree<F(!new)>(f: Field<F>, x: seq<F>, tree: seq<seq<F>>)
    requires |x| > 0
  {
    |tree| == 2 * |x| - 1 && Between(TreeNodes(f, x), tree, 0, |tree|)
  }

  lemma LeafStep<F(!new)>(f: Field<F>, x: seq<F>, i: nat)
    requires f.Ok() && |x| > 0 && |x| - 1 <= i < 2 * |x| - 1
    ensures TreeNodes(f, x)(i, [f.neg(x[i - (|x| - 1)]), f.one])
  {
    hide Field.Ok, TreeOk;
    TreeLeaf(f, x, i);
  }

  lemma TreeStep<F(!new)>(f: Field<F>, x: seq<F>, v: nat, left: seq<F>, right: seq<F>)
    requires f.Ok() && |x| > 0 && v < |x| - 1
    requires TreeNodes(f, x)(2 * v + 1, left) && TreeNodes(f, x)(2 * v + 2, right)
    ensures TreeNodes(f, x)(v, Mul(f, left, right))
  {
    hide Field.Ok, TreeOk, Mul;
    TreeNode(f, x, v, left, right);
  }

  method BuildLeaves<F(!new)>(f: Field<F>, tree: array<seq<F>>, points: seq<F>)
    requires f.Ok() && |points| > 1 && tree.Length == 2 * |points| - 1
    modifies tree
    ensures Between(TreeNodes(f, points), tree[..], |points| - 1, tree.Length)
  {
    hide Field.Ok, TreeNodes, Between;
    var n := |points|;
    Nothing(TreeNodes(f, points), tree[..], [], [], n - 1);
    for i := n - 1 to 2 * n - 1
      invariant Between(TreeNodes(f, points), tree[..], n - 1, i)
    {
      var negated := f.neg(points[i - (n - 1)]);
      LeafStep(f, points, i);
      OneMore(TreeNodes(f, points), tree[..], n - 1, i, [negated, f.one]);
      ghost var before := tree[..];
      tree[i] := [negated, f.one];
      assert tree[..] == before[i := [negated, f.one]];
    }
  }

  /** One thread: from the last entry of its list to the first. */
  method BuildSubTree<F(!new)>(f: Field<F>, tree: array<seq<F>>, list: seq<nat>, ghost x: seq<F>, ghost root: nat)
    requires f.Ok() && |x| > 1 && IsSubTree(list, root, |x| - 1) && tree.Length == 2 * |x| - 1
    requires Between(TreeNodes(f, x), tree[..], |x| - 1, tree.Length)
    modifies tree
    ensures Listed(TreeNodes(f, x), tree[..], list, 0, |list|) && SameOutside(old(tree[..]), tree[..], list)
  {
    hide Field.Ok, Mul, IsSubTree, TreeNodes, Between, Listed;
    ghost var ok := TreeNodes(f, x);
    Nothing(ok, tree[..], list, [], 0);
    var i := |list|;
    while i > 0
      invariant 0 <= i <= |list| && Listed(ok, tree[..], list, i, |list|)
      invariant Between(ok, tree[..], |x| - 1, tree.Length) && SameOutside(old(tree[..]), tree[..], list)
    {
      i := i - 1;
      var index := list[i];
      ghost var before := tree[..];
      ChildrenDone(ok, before, list, root, |x| - 1, i);
      TreeStep(f, x, index, tree[2 * index + 1], tree[2 * index + 2]);
      tree[index] := Mul(f, tree[2 * index + 1], tree[2 * index + 2]);
      NextUp(ok, before, list, root, |x| - 1, i, tree[index]);
      assert tree[..] == before[index := tree[index]];
    }
  }

  /** All threads: every node from numThreads - 1 on is right. */
  method BuildSubTrees<F(!new)>(f: Field<F>, tree: array<seq<F>>, numThreads: nat, ghost x: seq<F>)
    requires f.Ok() && 0 < numThreads && 2 * numThreads <= |x| && tree.Length == 2 * |x| - 1
    requires Between(TreeNodes(f, x), tree[..], |x| - 1, tree.Length)
    modifies tree
    ensures Between(TreeNodes(f, x), tree[..], numThreads - 1, tree.Length)
  {
    hide Field.Ok, IsSubTree, TreeNodes, Between, Listed, ListsDone, SameOutside;
    ghost var ok := TreeNodes(f, x);
    var subs := GenerateSubTreeArrays(numThreads, tree.Length / 2, numThreads - 1);
    Nothing(ok, tree[..], [], subs, 0);
    for t := 0 to numThreads
      invariant Between(ok, tree[..], |x| - 1, tree.Length) && ListsDone(ok, tree[..], subs, t)
    {
      ghost var before := tree[..];
      BuildSubTree(f, tree, subs[t], x, numThreads - 1 + t);
      ListWithin(subs[t], numThreads - 1 + t, |x| - 1);
      BetweenKept(ok, before, tree[..], subs[t], |x| - 1, tree.Length);
      NextList(ok, before, tree[..], subs, |x| - 1, t);
    }
    AllLists(ok, tree[..], subs, |x| - 1);
    Join(ok, tree[..], numThreads - 1, |x| - 1, tree.Length);
  }

  method BuildLevel<F(!new)>(f: Field<F>, tree: array<seq<F>>, first: nat, ghost x: seq<F>)
    requires f.Ok() && 2 * first + 1 < |x| && tree.Length == 2 * |x| - 1
    requires Between(TreeNodes(f, x), tree[..], 2 * first + 1, tree.Length)
    modifies tree
    ensures Between(TreeNodes(f, x), tree[..], first, tree.Length)
  {
    hide Field.Ok, Mul, TreeNodes;
    ghost var ok := TreeNodes(f, x);
    for j := first to 2 * first + 1
      invariant Between(ok, tree[..], 2 * first + 1, tree.Length) && Between(ok, tree[..], first, j)
    {
      TreeStep(f, x, j, tree[2 * j + 1], tree[2 * j + 2]);
      tree[j] := Mul(f, tree[2 * j + 1], tree[2 * j + 2]);
    }
  }

  /** The product tree: leaves, then the subtrees of the threads, then level by level up to the root. */
  method BuildTree<F(!new)>(f: Field<F>, tree: array<seq<F>>, points: seq<F>, k: nat)
    requires f.Ok() && tree.Length == 2 * |points| - 1 && 2 * Pow2(k) <= |points|
    modifies tree
    ensures IsTree(f, points, tree[..])
  {
    hide Field.Ok, TreeNodes, Pow2, Between;
    ghost var ok := TreeNodes(f, points);
    LevelSizes(k);
    BuildLeaves(f, tree, points);
    BuildSubTrees(f, tree, Pow2(k), points);
    var i: nat := k;
    while i > 1
      invariant i <= k && Between(ok, tree[..], Pow2(i) - 1, tree.Length)
    {
      i := i - 1;
      LevelSize(i, k);
      BuildLevel(f, tree, Pow2(i) - 1, points);
    }
    LevelSizes(i);
    Join(ok, tree[..], Pow2(i) - 1, 1, tree.Length);
    BuildLevel(f, tree, 0, points);
  }

  lemma LevelSizes(k: nat)
    ensures Pow2(k) >= 1 && (k >= 1 ==> Pow2(k) >= 2) && (k <= 1 ==> Pow2(k) <= 2) && Pow2(2) == 4
  {
  }

  lemma LevelSize(i: nat, k: nat)
    requires i < k
    ensures Pow2(i) >= 1 && Pow2(i + 1) == 2 * Pow2(i) <= Pow2(k)
  {
    Pow2Monotone(i + 1, k);
    Pow2Double(i);
  }

  // Evaluating a polynomial at all points

  type Remainder<!F(!new)> = (seq<F>, seq<F>) -> seq<F>

  /** Node v holds a remainder of p; a leaf nothing but the value. */
  ghost predicate Computed<F(!new)>(f: Field<F>, x: seq<F>, p: seq<F>, v: nat, r: seq<F>)
    requires |x| > 0
  {
    v < 2 * |x| - 1 && RemainderOk(f, x, v, p, r) && (v >= |x| - 1 ==> |r| <= 1)
  }

  ghost function EvalNodes<F(!new)>(f: Field<F>, x: seq<F>, p: seq<F>): (nat, seq<F>) -> bool
    requires |x| > 0
  {
    (v: nat, r: seq<F>) => Computed(f, x, p, v, r)
  }

  /** The nodes above the threads hold remainders, the first three perhaps p itself. */
  ghost function UpperNodes<F(!new)>(f: Field<F>, x: seq<F>, p: seq<F>): (nat, seq<F>) -> bool
    requires |x| > 0
  {
    (v: nat, r: seq<F>) => v < 2 * |x| - 1 && RemainderOk(f, x, v, p, r)
  }

  lemma EvalStep<F(!new)>(f: Field<F>, x: seq<F>, p: seq<F>, v: nat, above: seq<F>, m: seq<F>, rem: Remainder<F>)
    requires f.Ok() && Divides(f, rem) && |x| > 0 && v < 2 * |x| - 1 && TreeNodes(f, x)(v, m)
    requires UpperNodes(f, x, p)(Parent(v), above)
    ensures EvalNodes(f, x, p)(v, rem(above, m)) && UpperNodes(f, x, p)(v, rem(above, m))
  {
    hide Field.Ok, Eval, RootProduct, WeightedSum, Slope, IsRemainder;
    if v > 0 {
      BelowParent(|x|, v);
    }
    RemainderNode(f, x, v, p, above, m, rem(above, m));
  }

  lemma EvalIsUpper<F(!new)>(f: Field<F>, x: seq<F>, p: seq<F>, v: nat, r: seq<F>)
    requires |x| > 0 && EvalNodes(f, x, p)(v, r)
    ensures UpperNodes(f, x, p)(v, r)
  {
  }

  /** One thread: from the first entry of its list to the last. */
  method EvalSubTree<F(!new)>(f: Field<F>, reminders: array<seq<F>>, tree: array<seq<F>>, list: seq<nat>, rem: Remainder<F>,
                              ghost x: seq<F>, ghost p: seq<F>, ghost root: nat)
    requires f.Ok() && Divides(f, rem) && |x| > 0 && IsTree(f, x, tree[..]) && reminders.Length == tree.Length && reminders != tree
    requires IsSubTree(list, root, tree.Length)
    requires Parent(root) < reminders.Length && UpperNodes(f, x, p)(Parent(root), reminders[Parent(root)])
    modifies reminders
    ensures Listed(EvalNodes(f, x, p), reminders[..], list, 0, |list|) && SameOutside(old(reminders[..]), reminders[..], list)
  {
    hide Field.Ok, Divides, TreeNodes, EvalNodes, UpperNodes, Parent, Nth;
    ghost var ok := EvalNodes(f, x, p);
    for i := 0 to |list|
      invariant Listed(ok, reminders[..], list, 0, i) && SameOutside(old(reminders[..]), reminders[..], list)
      invariant i == 0 ==> reminders[..] == old(reminders[..])
    {
      var index := list[i];
      ParentInList(list, root, tree.Length, i);
      if i > 0 {
        EvalIsUpper(f, x, p, Parent(index), reminders[Parent(index)]);
      }
      EvalStep(f, x, p, index, reminders[Parent(index)], tree[index], rem);
      ghost var before := reminders[..];
      reminders[index] := rem(reminders[Parent(index)], tree[index]);
      NextDown(ok, before, list, root, tree.Length, i, reminders[index]);
      assert reminders[..] == before[index := reminders[index]];
    }
  }

  /** The levels above the threads, from the third on; the first three nodes start with the polynomial itself. */
  method EvalLevels<F(!new)>(f: Field<F>, reminders: array<seq<F>>, tree: array<seq<F>>, rem: Remainder<F>, k: nat, ghost x: seq<F>, p: seq<F>)
    requires f.Ok() && Divides(f, rem) && |x| > 1 && IsTree(f, x, tree[..]) && reminders.Length == tree.Length && reminders != tree
    requires 2 * Pow2(k) <= |x|
    modifies reminders
    ensures Between(UpperNodes(f, x, p), reminders[..], 0, if k >= 2 then Pow2(k) - 1 else 3)
  {
    hide Field.Ok, Divides, Pow2, TreeNodes, UpperNodes, EvalNodes;
    ghost var ok := UpperNodes(f, x, p);
    reminders[0], reminders[1], reminders[2] := p, p, p;
    FirstThree(f, x, p);
    LevelSizes(k);
    if k >= 2 {
      for i := 2 to k
        invariant Between(ok, reminders[..], 0, Pow2(i) - 1)
      {
        LevelSize(i, k);
        LevelSize(1, i);
        for j: int := Pow2(i) - 1 to Pow2(i + 1) - 1
          invariant Between(ok, reminders[..], 0, j)
        {
          assert Parent(j) < j;
          EvalStep(f, x, p, j, reminders[Parent(j)], tree[j], rem);
          reminders[j] := rem(reminders[Parent(j)], tree[j]);
        }
      }
    }
  }

  lemma FirstThree<F(!new)>(f: Field<F>, x: seq<F>, p: seq<F>)
    requires |x| > 1
    ensures forall v: nat | v < 3 :: UpperNodes(f, x, p)(v, p)
  {
  }

  /** All threads: every node from numThreads - 1 on is computed. */
  method EvalSubTrees<F(!new)>(f: Field<F>, reminders: array<seq<F>>, tree: array<seq<F>>, subs: seq<seq<nat>>, rem: Remainder<F>,
                               ghost x: seq<F>, ghost p: seq<F>)
    requires f.Ok() && Divides(f, rem) && |x| > 1 && IsTree(f, x, tree[..]) && reminders.Length == tree.Length && reminders != tree
    requires 0 < |subs| <= |x| && AreSubTrees(subs, |subs| - 1, tree.Length)
    requires Between(UpperNodes(f, x, p), reminders[..], 0, if |subs| == 1 then 1 else |subs| - 1)
    modifies reminders
    ensures Between(EvalNodes(f, x, p), reminders[..], |subs| - 1, reminders.Length)
  {
    hide Field.Ok, Divides, TreeNodes, UpperNodes, EvalNodes, IsSubTree, Listed, ListsDone, SameOutside, IsTree;
    ghost var ok := EvalNodes(f, x, p);
    Nothing(ok, reminders[..], [], subs, 0);
    for t := 0 to |subs|
      invariant ListsDone(ok, reminders[..], subs, t)
      invariant |subs| > 1 || t == 0 ==> Between(UpperNodes(f, x, p), reminders[..], 0, if |subs| == 1 then 1 else |subs| - 1)
    {
      ghost var before := reminders[..];
      var root := |subs| - 1 + t;
      assert Parent(root) < if |subs| == 1 then 1 else |subs| - 1;
      EvalSubTree(f, reminders, tree, subs[t], rem, x, p, root);
      NextList(ok, before, reminders[..], subs, tree.Length, t);
      if |subs| > 1 {
        ListWithin(subs[t], root, tree.Length);
        BetweenKept(UpperNodes(f, x, p), before, reminders[..], subs[t], 0, |subs| - 1);
      }
    }
    AllLists(ok, reminders[..], subs, tree.Length);
  }

  /** The values of p at all points. */
  method Evaluate<F(!new)>(f: Field<F>, p: seq<F>, tree: array<seq<F>>, reminders: array<seq<F>>, results: array<F>, rem: Remainder<F>, k: nat,
                           ghost x: seq<F>)
    requires f.Ok() && Divides(f, rem) && 2 * Pow2(k) <= |x| && IsTree(f, x, tree[..]) && reminders.Length == tree.Length && reminders != tree
    requires results.Length == |x| && results as object != reminders && results as object != tree
    modifies reminders, results
    ensures forall l | 0 <= l < results.Length :: results[l] == Eval(f, p, x[l])
  {
    hide Field.Ok, Divides, Pow2, TreeNodes, EvalNodes, UpperNodes, Between, AreSubTrees;
    LevelSizes(k);
    var numThreads := Pow2(k);
    var subs := GenerateSubTreeArrays(numThreads, tree.Length, numThreads - 1);
    EvalLevels(f, reminders, tree, rem, k, x, p);
    UpperPart(UpperNodes(f, x, p), reminders[..], if k >= 2 then Pow2(k) - 1 else 3, if numThreads == 1 then 1 else numThreads - 1);
    EvalSubTrees(f, reminders, tree, subs, rem, x, p);
    ghost var done := reminders[..];
    for i := tree.Length / 2 to tree.Length
      invariant reminders[..] == done
      invariant forall l | 0 <= l < i - (|x| - 1) :: results[l] == Eval(f, p, x[l])
      modifies results
    {
      LeafValue(f, x, p, reminders[..], numThreads - 1, i);
      results[i - (tree.Length - 1) / 2] := Coeff(f, reminders[i], 0);
    }
  }

  lemma UpperPart<P(!new)>(ok: (nat, P) -> bool, nodes: seq<P>, hi: nat, hi': nat)
    requires Between(ok, nodes, 0, hi) && hi' <= hi
    ensures Between(ok, nodes, 0, hi')
  {
  }

  lemma LeafValue<F(!new)>(f: Field<F>, x: seq<F>, p: seq<F>, rems: seq<seq<F>>, lo: nat, i: nat)
    requires f.Ok() && |x| > 0 && |rems| == 2 * |x| - 1 && lo <= |x| - 1 <= i < |rems|
    requires Between(EvalNodes(f, x, p), rems, lo, |rems|)
    ensures Coeff(f, rems[i], 0) == Eval(f, p, x[i - (|x| - 1)])
  {
    hide Field.Ok, Eval, Coeff;
    var l := i - (|x| - 1);
    assert EvalNodes(f, x, p)(i, rems[i]);
    LeafSize(|x|, i);
    assert l in Leaves(|x|, i);
    ConstantCoeff(f, rems[i], x[l]);
  }

  // Interpolation

  /** The derivative of the product at a point is the product of its differences to the other points, and not zero. */
  lemma Weights<F(!new)>(f: Field<F>, x: seq<F>, m: seq<F>, k: nat)
    requires f.Ok() && k < |x| && Distinct(x) && TreeOk(f, x, 0, m)
    ensures InRange(Others(|x|, k), |x|)
    ensures Slope(f, m, x[k]) == RootProduct(f, x, Others(|x|, k), x[k]) != f.zero
  {
    hide Field.Ok, Slope, Eval, RootProduct, WeightedSum, Monic, Others;
    var a, b := OthersAre(|x|, k);
    var w := Ones(f, |x|);
    AtPoint(f, x, w, k);
    var r := RootProduct(f, x, Others(|x|, k), x[k]);
    f.Products(f.one, r, r);
    f.Products(r, f.one, f.one);
    forall l | l in Others(|x|, k) ensures x[l] != x[k] {
    }
    ProductNonZero(f, x, Others(|x|, k), x[k]);
  }

  method PrepareForInterpolate<F(!new)>(f: Field<F>, x: seq<F>, m: array<seq<F>>, a: array<F>, rem: Remainder<F>, k: nat)
    requires f.Ok() && Divides(f, rem) && Distinct(x) && 2 * Pow2(k) <= |x|
    requires m.Length == 2 * |x| - 1 && a.Length == |x| && a as object != m
    modifies m, a
    ensures IsTree(f, x, m[..])
    ensures forall l | 0 <= l < |x| :: InRange(Others(|x|, l), |x|) && a[l] == RootProduct(f, x, Others(|x|, l), x[l])
    ensures forall l | 0 <= l < |x| :: a[l] != f.zero
  {
    hide Field.Ok, Divides, Pow2, TreeNodes, TreeOk, Between, RootProduct, Others, Distinct, InRange;
    LevelSizes(k);
    BuildTree(f, m, x, k);
    RootOk(f, x, m[..]);
    var d := Diff(f, m[0]);
    var reminders := new seq<F>[m.Length](i => []);
    ghost var built := m[..];
    Evaluate(f, d, m, reminders, a, rem, k, x);
    assert m[..] == built;
    forall l | 0 <= l < |x|
      ensures InRange(Others(|x|, l), |x|) && a[l] == RootProduct(f, x, Others(|x|, l), x[l]) && a[l] != f.zero
    {
      Weights(f, x, m[0], l);
    }
  }

  lemma RootOk<F(!new)>(f: Field<F>, x: seq<F>, tree: seq<seq<F>>)
    requires |x| > 0 && IsTree(f, x, tree)
    ensures TreeOk(f, x, 0, tree[0])
  {
    hide TreeOk;
  }

  ghost function CombinedNodes<F(!new)>(f: Field<F>, x: seq<F>, w: seq<F>): (nat, seq<F>) -> bool
    requires |w| == |x| > 0
  {
    (i: nat, p: seq<F>) => i < 2 * |x| - 1 && CombinedOk(f, x, w, i, p)
  }

  function Combine<F(!new)>(f: Field<F>, a: seq<F>, mb: seq<F>, b: seq<F>, ma: seq<F>): seq<F> {
    Add(f, Mul(f, a, mb), Mul(f, b, ma))
  }

  lemma CombineLeafStep<F(!new)>(f: Field<F>, x: seq<F>, w: seq<F>, i: nat)
    requires f.Ok() && |w| == |x| > 0 && |x| - 1 <= i < 2 * |x| - 1
    ensures CombinedNodes(f, x, w)(i, [w[i - (|x| - 1)]])
  {
    hide Field.Ok, CombinedOk;
    CombinedLeaf(f, x, w, i);
  }

  lemma CombineStep<F(!new)>(f: Field<F>, x: seq<F>, w: seq<F>, tree: seq<seq<F>>, v: nat, a: seq<F>, b: seq<F>)
    requires f.Ok() && |w| == |x| > 0 && v < |x| - 1 && IsTree(f, x, tree)
    requires CombinedNodes(f, x, w)(2 * v + 1, a) && CombinedNodes(f, x, w)(2 * v + 2, b)
    ensures CombinedNodes(f, x, w)(v, Combine(f, a, tree[2 * v + 2], b, tree[2 * v + 1]))
  {
    hide Field.Ok, CombinedOk, TreeOk, Mul, Add;
    var ma, mb := tree[2 * v + 1], tree[2 * v + 2];
    assert TreeNodes(f, x)(2 * v + 1, ma) && TreeNodes(f, x)(2 * v + 2, mb);
    CombinedNode(f, x, w, v, a, b, ma, mb);
  }

  method InterSubTree<F(!new)>(f: Field<F>, temp: array<seq<F>>, m: array<seq<F>>, list: seq<nat>, ghost x: seq<F>, ghost w: seq<F>, ghost root: nat)
    requires f.Ok() && |w| == |x| > 1 && IsSubTree(list, root, |x| - 1) && temp.Length == m.Length && temp != m && IsTree(f, x, m[..])
    requires Between(CombinedNodes(f, x, w), temp[..], |x| - 1, temp.Length)
    modifies temp
    ensures Listed(CombinedNodes(f, x, w), temp[..], list, 0, |list|) && SameOutside(old(temp[..]), temp[..], list)
  {
    hide Field.Ok, Combine, IsSubTree, CombinedNodes, Between, Listed;
    ghost var ok := CombinedNodes(f, x, w);
    Nothing(ok, temp[..], list, [], 0);
    var i := |list|;
    while i > 0
      invariant 0 <= i <= |list| && Listed(ok, temp[..], list, i, |list|)
      invariant Between(ok, temp[..], |x| - 1, temp.Length) && SameOutside(old(temp[..]), temp[..], list)
    {
      i := i - 1;
      var index := list[i];
      ghost var before := temp[..];
      ChildrenDone(ok, before, list, root, |x| - 1, i);
      CombineStep(f, x, w, m[..], index, temp[2 * index + 1], temp[2 * index + 2]);
      temp[index] := Combine(f, temp[2 * index + 1], m[2 * index + 2], temp[2 * index + 2], m[2 * index + 1]);
      NextUp(ok, before, list, root, |x| - 1, i, temp[index]);
      assert temp[..] == before[index := temp[index]];
    }
  }

  method InterSubTrees<F(!new)>(f: Field<F>, temp: array<seq<F>>, m: array<seq<F>>, numThreads: nat, ghost x: seq<F>, ghost w: seq<F>)
    requires f.Ok() && 0 < numThreads && 2 * numThreads <= |x| == |w| && temp.Length == m.Length && temp != m && IsTree(f, x, m[..])
    requires Between(CombinedNodes(f, x, w), temp[..], |x| - 1, temp.Length)
    modifies temp
    ensures Between(CombinedNodes(f, x, w), temp[..], numThreads - 1, temp.Length)
  {
    hide Field.Ok, IsSubTree, CombinedNodes, TreeNodes, Between, Listed, ListsDone, SameOutside;
    ghost var ok := CombinedNodes(f, x, w);
    var subs := GenerateSubTreeArrays(numThreads, temp.Length / 2, numThreads - 1);
    Nothing(ok, temp[..], [], subs, 0);
    for t := 0 to numThreads
      invariant Between(ok, temp[..], |x| - 1, temp.Length) && ListsDone(ok, temp[..], subs, t)
    {
      ghost var before := temp[..];
      InterSubTree(f, temp, m, subs[t], x, w, numThreads - 1 + t);
      ListWithin(subs[t], numThreads - 1 + t, |x| - 1);
      BetweenKept(ok, before, temp[..], subs[t], |x| - 1, temp.Length);
      NextList(ok, before, temp[..], subs, |x| - 1, t);
    }
    AllLists(ok, temp[..], subs, |x| - 1);
    Join(ok, temp[..], numThreads - 1, |x| - 1, temp.Length);
  }

  method InterLevel<F(!new)>(f: Field<F>, temp: array<seq<F>>, m: array<seq<F>>, first: nat, ghost x: seq<F>, ghost w: seq<F>)
    requires f.Ok() && 2 * first + 1 < |x| == |w| && temp.Length == m.Length && temp != m && IsTree(f, x, m[..])
    requires Between(CombinedNodes(f, x, w), temp[..], 2 * first + 1, temp.Length)
    modifies temp
    ensures Between(CombinedNodes(f, x, w), temp[..], first, temp.Length)
  {
    hide Field.Ok, Combine, TreeNodes, CombinedNodes;
    ghost var ok := CombinedNodes(f, x, w);
    for j := first to 2 * first + 1
      invariant Between(ok, temp[..], 2 * first + 1, temp.Length) && Between(ok, temp[..], first, j)
    {
      CombineStep(f, x, w, m[..], j, temp[2 * j + 1], temp[2 * j + 2]);
      temp[j] := Combine(f, temp[2 * j + 1], m[2 * j + 2], temp[2 * j + 2], m[2 * j + 1]);
    }
  }

  /** The weight of point l is y_l / a_l. */
  function Ratios<F(!new)>(f: Field<F>, y: seq<F>, a: seq<F>): (w: seq<F>)
    requires |y| == |a|
    ensures |w| == |y| && forall l | 0 <= l < |y| :: w[l] == f.mul(y[l], f.inv(a[l]))
  {
    seq(|y|, l requires 0 <= l < |y| => f.mul(y[l], f.inv(a[l])))
  }

  method InterLeaves<F(!new)>(f: Field<F>, temp: array<seq<F>>, y: seq<F>, a: seq<F>, ghost x: seq<F>)
    requires f.Ok() && |x| == |y| == |a| > 1 && temp.Length == 2 * |x| - 1
    modifies temp
    ensures Between(CombinedNodes(f, x, Ratios(f, y, a)), temp[..], |x| - 1, temp.Length)
  {
    hide Field.Ok, CombinedNodes;
    var i := temp.Length - 1;
    while i >= temp.Length / 2
      invariant |x| - 2 <= i < temp.Length && Between(CombinedNodes(f, x, Ratios(f, y, a)), temp[..], i + 1, temp.Length)
    {
      var l := i - (temp.Length - 1) / 2;
      var inverse := f.inv(a[l]);
      CombineLeafStep(f, x, Ratios(f, y, a), i);
      temp[i] := [f.mul(y[l], inverse)];
      i := i - 1;
    }
  }

  /** Leaves, threads and levels as in building the tree; the root goes to the result. */
  method IterativeInterpolate<F(!new)>(f: Field<F>, temp: array<seq<F>>, y: seq<F>, a: seq<F>, m: array<seq<F>>, k: nat, ghost x: seq<F>)
    returns (resultP: seq<F>)
    requires f.Ok() && 2 * Pow2(k) <= |x| == |y| == |a| && temp.Length == m.Length && temp != m && IsTree(f, x, m[..])
    modifies temp
    ensures CombinedNodes(f, x, Ratios(f, y, a))(0, resultP)
  {
    hide Field.Ok, TreeNodes, CombinedNodes, Combine, Pow2, Between, Ratios;
    ghost var w := Ratios(f, y, a);
    ghost var ok := CombinedNodes(f, x, w);
    LevelSizes(k);
    InterLeaves(f, temp, y, a, x);
    InterSubTrees(f, temp, m, Pow2(k), x, w);
    var i: nat := k;
    while i > 1
      invariant i <= k && Between(ok, temp[..], Pow2(i) - 1, temp.Length)
    {
      i := i - 1;
      LevelSize(i, k);
      InterLevel(f, temp, m, Pow2(i) - 1, x, w);
    }
    LevelSizes(i);
    Join(ok, temp[..], Pow2(i) - 1, 1, temp.Length);
    resultP := Combine(f, temp[1], m[2], temp[2], m[1]);
    AtRoot(ok, temp[..]);
    CombineStep(f, x, w, m[..], 0, temp[1], temp[2]);
  }

  lemma AtRoot<P(!new)>(ok: (nat, P) -> bool, nodes: seq<P>)
    requires |nodes| > 2 && Between(ok, nodes, 1, |nodes|)
    ensures ok(1, nodes[1]) && ok(2, nodes[2])
  {
  }

  /** The combination at the root takes the wanted values. */
  lemma Interpolates<F(!new)>(f: Field<F>, x: seq<F>, y: seq<F>, a: seq<F>, p: seq<F>, k: nat)
    requires f.Ok() && |x| == |y| == |a| && k < |x| && CombinedNodes(f, x, Ratios(f, y, a))(0, p)
    requires InRange(Others(|x|, k), |x|) && a[k] == RootProduct(f, x, Others(|x|, k), x[k]) != f.zero
    ensures Eval(f, p, x[k]) == y[k]
  {
    hide Field.Ok, Eval, RootProduct, WeightedSum, Others;
    var w := Ratios(f, y, a);
    AtPoint(f, x, w, k);
    f.Products(y[k], f.inv(a[k]), a[k]);
    f.Products(f.inv(a[k]), a[k], a[k]);
    f.Products(a[k], f.inv(a[k]), a[k]);
    f.Products(y[k], f.one, f.one);
  }

  /** The tree has as many leaves as there are points. */
  lemma {:induction false} FewDistinct(s: seq<nat>, n: nat)
    requires NoRepeat(s) && forall l | l in s :: l < n
    ensures |s| <= n
    decreases n
  {
    if s != [] {
      assert s[0] in s;
      if n - 1 in s {
        var a, b := WithoutIs(s, n - 1);
        DropMiddle(a, n - 1, b);
        FewDistinct(a + b, n - 1);
      } else {
        FewDistinct(s, n - 1);
      }
    }
  }

  /** Interpolation: for distinct points, the result has degree below their number and takes the given values. */
  method Interpolate<F(!new)>(f: Field<F>, x: seq<F>, y: seq<F>, rem: Remainder<F>, k: nat) returns (resultP: seq<F>)
    requires f.Ok() && Divides(f, rem) && Distinct(x) && 2 * Pow2(k) <= |x| == |y|
    ensures |resultP| <= |x| && forall i | 0 <= i < |x| :: Eval(f, resultP, x[i]) == y[i]
  {
    hide Field.Ok, Divides, Pow2, Eval, RootProduct, Others, TreeNodes, Between, Ratios;
    LevelSizes(k);
    var m := new seq<F>[2 * |x| - 1](i => []);
    var a := new F[|x|](i => f.zero);
    PrepareForInterpolate(f, x, m, a, rem, k);
    var temp := new seq<F>[2 * |x| - 1](i => []);
    resultP := IterativeInterpolate(f, temp, y, a[..], m, k, x);
    forall i | 0 <= i < |x| ensures Eval(f, resultP, x[i]) == y[i] {
      Interpolates(f, x, y, a[..], resultP, i);
    }
    LeavesOnce(|x|, 0);
    FewDistinct(Leaves(|x|, 0), |x|);
  }

  /** Whatever the number of threads, it is the same polynomial. */
  lemma OnlyInterpolant<F(!new)>(f: Field<F>, x: seq<F>, y: seq<F>, p: seq<F>, q: seq<F>)
    requires f.Ok() && Distinct(x) && |x| == |y| && |p| <= |x| && |q| <= |x|
    requires forall i | 0 <= i < |x| :: Eval(f, p, x[i]) == y[i] && Eval(f, q, x[i]) == y[i]
    ensures forall j: nat :: Coeff(f, p, j) == Coeff(f, q, j)
  {
    hide Field.Ok, Eval, Coeff;
    PolyRoots.ValuesDetermine(f, p, q, x);
  }
}
