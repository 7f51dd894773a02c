/** Interpolation over a product tree, a remainder tree and a bottom-up combination, with the work spread over threads. */
module Interpolation {
  import opened Fields
  import opened Polynomials
  import opened PolyRing
  import opened PointProducts
  import opened Heap

  // Monic polynomials

  ghost predicate Monic<F(!new)>(f: Field<F>, p: seq<F>) {
    p != [] && p[|p| - 1] == f.one
  }

  lemma {:induction false} AddTop<F(!new)>(f: Field<F>, p: seq<F>, q: seq<F>)
    requires |p| < |q|
    ensures Add(f, p, q)[|q| - 1] == q[|q| - 1]
  {
    if p != [] {
      AddTop(f, p[1..], q[1..]);
    }
  }

  lemma {:induction false} ScaleTop<F(!new)>(f: Field<F>, c: F, p: seq<F>)
    requires p != []
    ensures Scale(f, c, p)[|p| - 1] == f.mul(c, p[|p| - 1])
  {
    if |p| > 1 {
      ScaleTop(f, c, p[1..]);
    }
  }

  lemma {:induction false} MulMonic<F(!new)>(f: Field<F>, p: seq<F>, q: seq<F>)
    requires f.Ok() && Monic(f, p) && Monic(f, q)
    ensures Monic(f, Mul(f, p, q)) && |Mul(f, p, q)| == |p| + |q| - 1
    decreases |p|
  {
    hide Field.Ok;
    var s := Scale(f, p[0], q);
    if |p| == 1 {
      assert Mul(f, p[1..], q) == [];
      ScaleTop(f, f.one, q);
      f.Products(f.one, f.one, f.one);
      f.Zeros(s[0]);
      f.Sums(s[0], f.zero, f.zero);
      AddZeroTop(f, s);
    } else {
      MulMonic(f, p[1..], q);
      AddTop(f, s, [f.zero] + Mul(f, p[1..], q));
    }
  }

  lemma AddZeroTop<F(!new)>(f: Field<F>, s: seq<F>)
    requires f.Ok() && s != []
    ensures Add(f, s, [f.zero]) == s
  {
    hide Field.Ok;
    f.Sums(s[0], f.zero, f.zero);
    assert Add(f, s[1..], []) == s[1..];
  }

  // The product tree

  /** The polynomial of node i: the product of t - x_l over the points below it. */
  ghost predicate TreeOk<F(!new)>(f: Field<F>, x: seq<F>, i: nat, p: seq<F>)
    requires |x| > 0 && i < 2 * |x| - 1
  {
    && Monic(f, p) && |p| == |Leaves(|x|, i)| + 1
    && (forall t :: Eval(f, p, t) == RootProduct(f, x, Leaves(|x|, i), t))
    && (forall t :: Slope(f, p, t) == WeightedSum(f, x, Ones(f, |x|), Leaves(|x|, i), t))
  }

  function Ones<F(!new)>(f: Field<F>, n: nat): (w: seq<F>)
    ensures |w| == n && forall i | 0 <= i < n :: w[i] == f.one
  {
    seq(n, i => f.one)
  }

  lemma TreeLeaf<F(!new)>(f: Field<F>, x: seq<F>, i: nat)
    requires f.Ok() && |x| > 0 && |x| - 1 <= i < 2 * |x| - 1
    ensures TreeOk(f, x, i, [f.neg(x[i - (|x| - 1)]), f.one])
  {
    hide Field.Ok, Slope;
    var l := i - (|x| - 1);
    var p := [f.neg(x[l]), f.one];
    forall t ensures Eval(f, p, t) == RootProduct(f, x, [l], t) && Slope(f, p, t) == WeightedSum(f, x, Ones(f, |x|), [l], t) {
      One(f, x, Ones(f, |x|), l, t);
      LinearAt(f, f.neg(x[l]), t);
      f.Sums(f.neg(x[l]), t, t);
    }
  }

  lemma LinearAt<F(!new)>(f: Field<F>, c: F, t: F)
    requires f.Ok()
    ensures Eval(f, [c, f.one], t) == f.add(c, t) && Slope(f, [c, f.one], t) == f.one
  {
    hide Field.Ok, Slope, Eval;
    var p := [c, f.one];
    EvalHead(f, p, t);
    assert p[1..] == [f.one];
    EvalHead(f, [f.one], t);
    assert [f.one][1..] == [];
    EvalNothing(f, t);
    f.Zeros(t);
    f.Sums(f.one, f.zero, f.zero);
    f.Products(t, f.one, f.one);
    SlopeHead(f, p, t);
    SlopeHead(f, [f.one], t);
    SlopeHead(f, [], t);
    f.Zeros(f.zero);
  }

  lemma EvalNothing<F(!new)>(f: Field<F>, t: F)
    ensures Eval(f, [], t) == f.zero
  {
  }

  lemma TreeNode<F(!new)>(f: Field<F>, x: seq<F>, i: nat, left: seq<F>, right: seq<F>)
    requires f.Ok() && |x| > 0 && i < |x| - 1
    requires TreeOk(f, x, 2 * i + 1, left) && TreeOk(f, x, 2 * i + 2, right)
    ensures TreeOk(f, x, i, Mul(f, left, right))
  {
    hide Field.Ok, Slope, Eval, RootProduct, WeightedSum, Ones, Mul, Monic;
    var a, b, w := Leaves(|x|, 2 * i + 1), Leaves(|x|, 2 * i + 2), Ones(f, |x|);
    assert Leaves(|x|, i) == a + b;
    MulMonic(f, left, right);
    forall t
      ensures Eval(f, Mul(f, left, right), t) == RootProduct(f, x, a + b, t)
      ensures Slope(f, Mul(f, left, right), t) == WeightedSum(f, x, w, a + b, t)
    {
      EvalMul(f, left, right, t);
      SlopeMul(f, left, right, t);
      ProductAppend(f, x, a, b, t);
      SumAppend(f, x, w, a, b, t);
      f.Products(RootProduct(f, x, a, t), WeightedSum(f, x, w, b, t), t);
    }
  }

  // The remainder tree

  /** Division with remainder by a monic polynomial, as the polynomial library provides it. */
  ghost predicate IsRemainder<F(!new)>(f: Field<F>, p: seq<F>, m: seq<F>, r: seq<F>) {
    |r| < |m| && exists q :: IsQuotient(f, p, m, r, q)
  }

  ghost predicate IsQuotient<F(!new)>(f: Field<F>, p: seq<F>, m: seq<F>, r: seq<F>, q: seq<F>) {
    forall t :: Eval(f, p, t) == f.add(f.mul(Eval(f, q, t), Eval(f, m, t)), Eval(f, r, t))
  }

  ghost predicate Divides<F(!new)>(f: Field<F>, rem: (seq<F>, seq<F>) -> seq<F>) {
    forall p, m | Monic(f, m) :: IsRemainder(f, p, m, rem(p, m))
  }

  /** The remainder of node i takes the values of p at the points below it; that of a leaf is the value. */
  ghost predicate RemainderOk<F(!new)>(f: Field<F>, x: seq<F>, i: nat, p: seq<F>, r: seq<F>)
    requires |x| > 0 && i < 2 * |x| - 1
  {
    forall l | l in Leaves(|x|, i) :: Eval(f, r, x[l]) == Eval(f, p, x[l])
  }

  lemma RemainderNode<F(!new)>(f: Field<F>, x: seq<F>, i: nat, p: seq<F>, above: seq<F>, m: seq<F>, r: seq<F>)
    requires f.Ok() && |x| > 0 && i < 2 * |x| - 1 && TreeOk(f, x, i, m) && IsRemainder(f, above, m, r)
    requires forall l | l in Leaves(|x|, i) :: Eval(f, above, x[l]) == Eval(f, p, x[l])
    ensures RemainderOk(f, x, i, p, r) && (i >= |x| - 1 ==> |r| <= 1)
  {
    hide Field.Ok, Eval, RootProduct, WeightedSum, Slope, Monic;
    var q :| IsQuotient(f, above, m, r, q);
    forall l | l in Leaves(|x|, i) ensures Eval(f, r, x[l]) == Eval(f, p, x[l]) {
      RootVanishes(f, x, Leaves(|x|, i), l);
      f.Zeros(Eval(f, q, x[l]));
      f.Zeros(Eval(f, r, x[l]));
    }
    LeafSize(|x|, i);
  }

  lemma LeafSize(n: nat, i: nat)
    requires n > 0 && i < 2 * n - 1
    ensures i >= n - 1 ==> Leaves(n, i) == [i - (n - 1)]
  {
  }

  /** What is below a child is below its parent. */
  lemma BelowParent(n: nat, i: nat)
    requires n > 0 && 0 < i < 2 * n - 1
    ensures Parent(i) < 2 * n - 1 && forall l | l in Leaves(n, i) :: l in Leaves(n, Parent(i))
  {
    var v := (i - 1) / 2;
    assert i == 2 * v + 1 || i == 2 * v + 2;
  }

  lemma ConstantCoeff<F(!new)>(f: Field<F>, r: seq<F>, t: F)
    requires f.Ok() && |r| <= 1
    ensures Coeff(f, r, 0) == Eval(f, r, t)
  {
    hide Field.Ok;
    if r != [] {
      EvalHead(f, r, t);
      f.Zeros(t);
      f.Sums(r[0], f.zero, f.zero);
    }
  }

  // The combination

  /** The interpolant of node i: its weighted sum, of degree below the number of points. */
  ghost predicate CombinedOk<F(!new)>(f: Field<F>, x: seq<F>, w: seq<F>, i: nat, p: seq<F>)
    requires |w| == |x| > 0 && i < 2 * |x| - 1
  {
    |p| <= |Leaves(|x|, i)| && forall t :: Eval(f, p, t) == WeightedSum(f, x, w, Leaves(|x|, i), t)
  }

  lemma CombinedLeaf<F(!new)>(f: Field<F>, x: seq<F>, w: seq<F>, i: nat)
    requires f.Ok() && |w| == |x| > 0 && |x| - 1 <= i < 2 * |x| - 1
    ensures CombinedOk(f, x, w, i, [w[i - (|x| - 1)]])
  {
    hide Field.Ok;
    var l := i - (|x| - 1);
    forall t ensures Eval(f, [w[l]], t) == WeightedSum(f, x, w, [l], t) {
      One(f, x, w, l, t);
      ConstantCoeff(f, [w[l]], t);
    }
  }

  lemma CombinedNode<F(!new)>(f: Field<F>, x: seq<F>, w: seq<F>, i: nat, a: seq<F>, b: seq<F>, ma: seq<F>, mb: seq<F>)
    requires f.Ok() && |w| == |x| > 0 && i < |x| - 1
    requires CombinedOk(f, x, w, 2 * i + 1, a) && CombinedOk(f, x, w, 2 * i + 2, b)
    requires TreeOk(f, x, 2 * i + 1, ma) && TreeOk(f, x, 2 * i + 2, mb)
    ensures CombinedOk(f, x, w, i, Add(f, Mul(f, a, mb), Mul(f, b, ma)))
  {
    hide Field.Ok, Slope, Eval, RootProduct, WeightedSum, Mul, Add, Monic;
    var la, lb := Leaves(|x|, 2 * i + 1), Leaves(|x|, 2 * i + 2);
    assert Leaves(|x|, i) == la + lb;
    forall t ensures Eval(f, Add(f, Mul(f, a, mb), Mul(f, b, ma)), t) == WeightedSum(f, x, w, la + lb, t) {
      EvalAdd(f, Mul(f, a, mb), Mul(f, b, ma), t);
      EvalMul(f, a, mb, t);
      EvalMul(f, b, ma, t);
      SumAppend(f, x, w, la, lb, t);
    }
    ProductSize(f, a, mb, |la|, |lb|);
    ProductSize(f, b, ma, |lb|, |la|);
  }

  lemma ProductSize<F(!new)>(f: Field<F>, p: seq<F>, q: seq<F>, m: nat, n: nat)
    requires |p| <= m && |q| == n + 1
    ensures |Mul(f, p, q)| <= m + n
  {
  }

  // The points

  ghost predicate Distinct<F(!new)>(x: seq<F>) {
    forall i, j | 0 <= i < j < |x| :: x[i] != x[j]
  }

  function Without(s: seq<nat>, k: nat): seq<nat> {
    if s == [] then [] else if s[0] == k then s[1..] else [s[0]] + Without(s[1..], k)
  }

  lemma {:induction false} WithoutSplits(s: seq<nat>, k: nat) returns (a: seq<nat>, b: seq<nat>)
    requires k in s
    ensures s == a + [k] + b && Without(s, k) == a + b
  {
    if s[0] == k {
      a, b := [], s[1..];
      assert s == [k] + b;
    } else {
      var front, back := WithoutSplits(s[1..], k);
      a, b := [s[0]] + front, back;
      assert s == [s[0]] + s[1..];
      assert [s[0]] + (front + [k] + back) == a + [k] + b && [s[0]] + (front + back) == a + b;
    }
  }

  lemma MiddleOnce(a: seq<nat>, k: nat, b: seq<nat>, l: nat)
    requires NoRepeat(a + [k] + b)
    ensures l in a + b <==> l in a + [k] + b && l != k
  {
    var s := a + [k] + b;
    assert s[|a|] == k;
    assert forall i | 0 <= i < |a| :: a[i] == s[i];
    assert forall i | 0 <= i < |b| :: b[i] == s[|a| + 1 + i];
  }

  lemma WithoutIs(s: seq<nat>, k: nat) returns (a: seq<nat>, b: seq<nat>)
    requires NoRepeat(s) && k in s
    ensures s == a + [k] + b && Without(s, k) == a + b
    ensures forall l: nat :: l in Without(s, k) <==> l in s && l != k
  {
    hide NoRepeat;
    a, b := WithoutSplits(s, k);
    forall l: nat ensures l in Without(s, k) <==> l in s && l != k {
      MiddleOnce(a, k, b, l);
    }
  }

  /** The points below the root other than k, in tree order. */
  function Others(n: nat, k: nat): seq<nat>
    requires n > 0
  {
    Without(Leaves(n, 0), k)
  }

  lemma AllLeaves(n: nat, k: nat)
    requires n > 0
    ensures k in Leaves(n, 0) <==> k < n
  {
    LeavesAre(n, 0, k);
    AboveAll(k + n - 1);
  }

  /** Every other point exactly once. */
  lemma OthersAre(n: nat, k: nat) returns (a: seq<nat>, b: seq<nat>)
    requires k < n
    ensures Leaves(n, 0) == a + [k] + b && Others(n, k) == a + b && NoRepeat(Others(n, k))
    ensures forall l: nat :: l in Others(n, k) <==> l < n && l != k
  {
    AllLeaves(n, k);
    LeavesOnce(n, 0);
    a, b := WithoutIs(Leaves(n, 0), k);
    DropMiddle(a, k, b);
    forall l: nat ensures l in Leaves(n, 0) <==> l < n {
      AllLeaves(n, l);
    }
  }

  lemma DropMiddle(a: seq<nat>, k: nat, b: seq<nat>)
    requires NoRepeat(a + [k] + b)
    ensures NoRepeat(a + b)
  {
    var s := a + [k] + b;
    forall i, j | 0 <= i < j < |a + b| ensures (a + b)[i] != (a + b)[j] {
      assert (a + b)[i] == s[if i < |a| then i else i + 1] && (a + b)[j] == s[if j < |a| then j else j + 1];
    }
  }

  /** The weight of a point times the product over the others: what a weighted sum over the whole tree is at that point. */
  lemma AtPoint<F(!new)>(f: Field<F>, x: seq<F>, w: seq<F>, k: nat)
    requires f.Ok() && |w| == |x| && k < |x|
    ensures InRange(Others(|x|, k), |x|)
    ensures WeightedSum(f, x, w, Leaves(|x|, 0), x[k]) == f.mul(w[k], RootProduct(f, x, Others(|x|, k), x[k]))
  {
    hide Field.Ok, WeightedSum, RootProduct, Others;
    var a, b := OthersAre(|x|, k);
    RangeParts(a, k, b, |x|);
    SumAtPoint(f, x, w, a, k, b);
  }

  lemma RangeParts(a: seq<nat>, k: nat, b: seq<nat>, n: nat)
    requires InRange(a + [k] + b, n)
    ensures InRange(a, n) && InRange(b, n)
  {
    assert forall i | 0 <= i < |a| :: a[i] == (a + [k] + b)[i];
    assert forall i | 0 <= i < |b| :: b[i] == (a + [k] + b)[|a| + 1 + i];
  }
}
