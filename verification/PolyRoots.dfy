/** A polynomial with more roots than its degree allows is zero, so values at enough points determine it. */
module PolyRoots {
  import opened Fields
  import opened Polynomials
  import opened PolyRing

  /** The quotient of p by x - a. */
  function Deflate<F(!new)>(f: Field<F>, p: seq<F>, a: F): (r: seq<F>)
    ensures |r| == if p == [] then 0 else |p| - 1
  {
    if |p| <= 1 then [] else [Eval(f, p[1..], a)] + Deflate(f, p[1..], a)
  }

  /** (x - a) * (r + x * g) + (c + a * r) == c + x * (r + (x - a) * g) */
  lemma DeflateAlgebra<F(!new)>(f: Field<F>, x: F, a: F, c: F, r: F, g: F)
    requires f.Ok()
    ensures f.add(f.mul(f.Sub(x, a), f.add(r, f.mul(x, g))), f.add(c, f.mul(a, r)))
         == f.add(c, f.mul(x, f.add(f.mul(f.Sub(x, a), g), r)))
  {
    hide Field.Ok;
    var s := f.Sub(x, a);
    f.Distribute(s, r, f.mul(x, g));
    f.Products(s, x, g);
    f.Products(x, s, g);
    f.Products(s, x, x);
    var sxg := f.mul(x, f.mul(s, g));
    f.DifferenceZero(x, a);
    f.Distribute(r, s, a);
    f.Swap(f.mul(s, r), sxg, c, f.mul(a, r));
    f.Swap(f.mul(s, r), sxg, f.mul(a, r), c);
    f.Sums(c, f.mul(a, r), c);
    f.Sums(f.mul(x, r), f.add(sxg, c), c);
    f.Sums(sxg, c, c);
    f.Sums(c, sxg, f.mul(x, r));
    f.Sums(f.mul(x, r), f.add(c, sxg), c);
    f.Distribute(x, f.mul(s, g), r);
  }

  lemma {:induction false} DeflateEval<F(!new)>(f: Field<F>, p: seq<F>, a: F, x: F)
    requires f.Ok()
    ensures Eval(f, p, x) == f.add(f.mul(f.Sub(x, a), Eval(f, Deflate(f, p, a), x)), Eval(f, p, a))
  {
    hide Field.Ok, Eval;
    var d := Deflate(f, p, a);
    f.Zeros(f.Sub(x, a));
    if p == [] {
      NoTerms(f, x);
      NoTerms(f, a);
      f.Zeros(f.zero);
    } else {
      EvalHead(f, p, x);
      EvalHead(f, p, a);
      if |p| == 1 {
        assert p[1..] == [];
        NoTerms(f, x);
        NoTerms(f, a);
        f.Zeros(x);
        f.Zeros(a);
        f.Zeros(f.add(p[0], f.zero));
      } else {
        DeflateEval(f, p[1..], a, x);
        EvalHead(f, d, x);
        assert d[1..] == Deflate(f, p[1..], a);
        DeflateAlgebra(f, x, a, p[0], Eval(f, p[1..], a), Eval(f, d[1..], x));
      }
    }
  }

  lemma NoTerms<F(!new)>(f: Field<F>, x: F)
    ensures Eval(f, [], x) == f.zero
  {
  }

  lemma {:induction false} DeflateZero<F(!new)>(f: Field<F>, p: seq<F>, a: F)
    requires f.Ok() && AllZero(f, Deflate(f, p, a)) && Eval(f, p, a) == f.zero
    ensures AllZero(f, p)
  {
    hide Field.Ok, Eval;
    if p != [] {
      var d := Deflate(f, p, a);
      EvalHead(f, p, a);
      if |p| > 1 {
        assert d[1..] == Deflate(f, p[1..], a) && d[0] == f.zero;
        assert forall i | 0 <= i < |d| - 1 :: d[1..][i] == d[i + 1];
        DeflateZero(f, p[1..], a);
        assert forall i | 1 <= i < |p| :: p[i] == p[1..][i - 1];
      } else {
        NoTerms(f, a);
      }
      f.Zeros(a);
      f.Sums(p[0], f.zero, f.zero);
    }
  }

  /** More distinct roots than coefficients below the top: all coefficients are zero. */
  lemma {:induction false} ManyRoots<F(!new)>(f: Field<F>, p: seq<F>, x: seq<F>)
    requires f.Ok() && |p| <= |x| && (forall i, j | 0 <= i < j < |x| :: x[i] != x[j])
    requires forall i | 0 <= i < |x| :: Eval(f, p, x[i]) == f.zero
    ensures AllZero(f, p)
    decreases |p|
  {
    hide Field.Ok, Eval;
    if p != [] {
      var a, rest := x[0], x[1..];
      var d := Deflate(f, p, a);
      forall i | 0 <= i < |rest| ensures Eval(f, d, rest[i]) == f.zero {
        assert rest[i] == x[i + 1];
        DeflateEval(f, p, a, rest[i]);
        f.Sums(f.mul(f.Sub(rest[i], a), Eval(f, d, rest[i])), f.zero, f.zero);
        f.NoZeroDivisors(f.Sub(rest[i], a), Eval(f, d, rest[i]));
        f.DifferenceZero(rest[i], a);
      }
      ManyRoots(f, d, rest);
      DeflateZero(f, p, a);
    }
  }

  lemma {:induction false} CoeffAdd<F(!new)>(f: Field<F>, p: seq<F>, q: seq<F>, k: nat)
    requires f.Ok()
    ensures Coeff(f, Add(f, p, q), k) == f.add(Coeff(f, p, k), Coeff(f, q, k))
  {
    hide Field.Ok;
    f.Zeros(Coeff(f, q, k));
    f.Sums(Coeff(f, p, k), f.zero, f.zero);
    if p != [] && q != [] && k > 0 {
      CoeffAdd(f, p[1..], q[1..], k - 1);
    }
  }

  lemma {:induction false} CoeffScale<F(!new)>(f: Field<F>, c: F, p: seq<F>, k: nat)
    requires f.Ok()
    ensures Coeff(f, Scale(f, c, p), k) == f.mul(c, Coeff(f, p, k))
  {
    hide Field.Ok;
    f.Zeros(c);
    if p != [] && k > 0 {
      CoeffScale(f, c, p[1..], k - 1);
    }
  }

  /** At most one polynomial with at most as many coefficients as there are points takes given values there. */
  lemma ValuesDetermine<F(!new)>(f: Field<F>, p: seq<F>, q: seq<F>, x: seq<F>)
    requires f.Ok() && |p| <= |x| && |q| <= |x| && (forall i, j | 0 <= i < j < |x| :: x[i] != x[j])
    requires forall i | 0 <= i < |x| :: Eval(f, p, x[i]) == Eval(f, q, x[i])
    ensures forall k: nat :: Coeff(f, p, k) == Coeff(f, q, k)
  {
    hide Field.Ok, Eval, Coeff;
    var minus := f.neg(f.one);
    var d := Add(f, p, Scale(f, minus, q));
    forall i | 0 <= i < |x| ensures Eval(f, d, x[i]) == f.zero {
      EvalAdd(f, p, Scale(f, minus, q), x[i]);
      EvalScale(f, minus, q, x[i]);
      MinusOne(f, Eval(f, p, x[i]), Eval(f, q, x[i]));
    }
    ManyRoots(f, d, x);
    forall k: nat ensures Coeff(f, p, k) == Coeff(f, q, k) {
      CoeffAdd(f, p, Scale(f, minus, q), k);
      CoeffScale(f, minus, q, k);
      MinusOne(f, Coeff(f, p, k), Coeff(f, q, k));
      ZeroCoeff(f, d, k);
    }
  }

  lemma ZeroCoeff<F(!new)>(f: Field<F>, d: seq<F>, k: nat)
    requires AllZero(f, d)
    ensures Coeff(f, d, k) == f.zero
  {
  }

  lemma MinusOne<F(!new)>(f: Field<F>, a: F, b: F)
    requires f.Ok()
    ensures f.add(a, f.mul(f.neg(f.one), b)) == f.zero <==> a == b
  {
    hide Field.Ok;
    f.Negatives(f.one, b);
    f.Products(b, f.one, f.one);
    f.Products(f.one, b, b);
    f.DifferenceZero(a, b);
  }

  /** n-fold sum of a. */
  function Times<F(!new)>(f: Field<F>, n: nat, a: F): F {
    if n == 0 then f.zero else f.add(a, Times(f, n - 1, a))
  }

  /** The derivative is the formal one: coefficient k is k + 1 times coefficient k + 1. */
  lemma {:induction false} DiffCoeff<F(!new)>(f: Field<F>, p: seq<F>, k: nat)
    requires f.Ok()
    ensures Coeff(f, Diff(f, p), k) == Times(f, k + 1, Coeff(f, p, k + 1))
    decreases |p|
  {
    hide Field.Ok;
    if p == [] {
      TimesZero(f, k + 1);
    } else {
      var r := p[1..];
      CoeffAdd(f, r, [f.zero] + Diff(f, r), k);
      assert Coeff(f, r, k) == Coeff(f, p, k + 1);
      if k > 0 {
        DiffCoeff(f, r, k - 1);
        assert Coeff(f, [f.zero] + Diff(f, r), k) == Coeff(f, Diff(f, r), k - 1);
      }
    }
  }

  lemma {:induction false} TimesZero<F(!new)>(f: Field<F>, n: nat)
    requires f.Ok()
    ensures Times(f, n, f.zero) == f.zero
  {
    hide Field.Ok;
    if n > 0 {
      TimesZero(f, n - 1);
      f.Zeros(f.zero);
    }
  }
}
