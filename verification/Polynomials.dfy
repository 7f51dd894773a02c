/** Polynomials as coefficient sequences, lowest first, over any field. */
module Polynomials {
  import opened Fields

  function Coeff<F(!new)>(f: Field<F>, p: seq<F>, k: int): F {
    if 0 <= k < |p| then p[k] else f.zero
  }

  function Power<F(!new)>(f: Field<F>, x: F, n: nat): F {
    if n == 0 then f.one else f.mul(Power(f, x, n - 1), x)
  }

  /** The value at x. */
  function Eval<F(!new)>(f: Field<F>, p: seq<F>, x: F): F {
    if p == [] then f.zero else f.add(Eval(f, p[..|p| - 1], x), f.mul(p[|p| - 1], Power(f, x, |p| - 1)))
  }

  lemma EvalSnoc<F(!new)>(f: Field<F>, p: seq<F>, c: F, x: F)
    ensures Eval(f, p + [c], x) == f.add(Eval(f, p, x), f.mul(c, Power(f, x, |p|)))
  {
    assert (p + [c])[..|p|] == p;
  }

  lemma {:induction false} PowerAdd<F(!new)>(f: Field<F>, x: F, m: nat, n: nat)
    requires f.Ok()
    ensures Power(f, x, m + n) == f.mul(Power(f, x, m), Power(f, x, n))
  {
    hide Field.Ok;
    if n == 0 {
      f.Products(Power(f, x, m), x, x);
    } else {
      PowerAdd(f, x, m, n - 1);
      assert m + n - 1 == m + (n - 1);
      f.Products(Power(f, x, m), Power(f, x, n - 1), x);
    }
  }

  /** Changing one coefficient. */
  lemma {:induction false} EvalUpdate<F(!new)>(f: Field<F>, p: seq<F>, k: nat, d: F, x: F)
    requires f.Ok() && k < |p|
    ensures Eval(f, p[k := f.add(p[k], d)], x) == f.add(Eval(f, p, x), f.mul(d, Power(f, x, k)))
  {
    hide Field.Ok;
    var m := |p| - 1;
    var rest, top := Eval(f, p[..m], x), f.mul(p[m], Power(f, x, m));
    if k == m {
      var p' := p[k := f.add(p[k], d)];
      assert p'[..m] == p[..m];
      f.Distribute(Power(f, x, m), p[k], d);
      f.Sums(rest, top, f.mul(d, Power(f, x, m)));
    } else {
      var e := f.mul(d, Power(f, x, k));
      assert p[k := f.add(p[k], d)][..m] == p[..m][k := f.add(p[k], d)];
      EvalUpdate(f, p[..m], k, d, x);
      f.Sums(rest, e, top);
      f.Sums(e, top, top);
      f.Sums(rest, top, e);
    }
  }

  ghost predicate AllZero<F(!new)>(f: Field<F>, p: seq<F>) {
    forall i | 0 <= i < |p| :: p[i] == f.zero
  }

  /** Zeros at the top change nothing. */
  lemma {:induction false} EvalPadded<F(!new)>(f: Field<F>, p: seq<F>, zeros: seq<F>, x: F)
    requires f.Ok() && AllZero(f, zeros)
    ensures Eval(f, p + zeros, x) == Eval(f, p, x)
    decreases |zeros|
  {
    hide Field.Ok;
    if zeros == [] {
      assert p + zeros == p;
    } else {
      var m := |zeros| - 1;
      assert p + zeros == (p + zeros[..m]) + [f.zero];
      EvalPadded(f, p, zeros[..m], x);
      EvalSnoc(f, p + zeros[..m], f.zero, x);
      f.Zeros(Power(f, x, |p + zeros[..m]|));
      f.Sums(Eval(f, p, x), f.zero, f.zero);
    }
  }

  /** The sum of q[i] * b[k - i] over i < n. */
  function Convolve<F(!new)>(f: Field<F>, q: seq<F>, b: seq<F>, k: int, n: nat): F {
    if n == 0 then f.zero else f.add(Convolve(f, q, b, k, n - 1), f.mul(Coeff(f, q, n - 1), Coeff(f, b, k - (n - 1))))
  }

  /** Coefficient k of the product. */
  function ProductCoeff<F(!new)>(f: Field<F>, q: seq<F>, b: seq<F>, k: nat): F {
    Convolve(f, q, b, k, k + 1)
  }

  /** Setting a coefficient of q that was zero. */
  lemma {:induction false} ConvolveUpdate<F(!new)>(f: Field<F>, q: seq<F>, r: seq<F>, b: seq<F>, d: nat, c: F, k: int, n: nat)
    requires f.Ok() && Coeff(f, q, d) == f.zero && Coeff(f, r, d) == c && forall i: nat | i != d :: Coeff(f, r, i) == Coeff(f, q, i)
    ensures Convolve(f, r, b, k, n)
         == f.add(Convolve(f, q, b, k, n), if d < n then f.mul(c, Coeff(f, b, k - d)) else f.zero)
  {
    hide Field.Ok, Coeff;
    f.Sums(Convolve(f, q, b, k, n), f.zero, f.zero);
    if n > 0 {
      ConvolveUpdate(f, q, r, b, d, c, k, n - 1);
      var s, t := Convolve(f, q, b, k, n - 1), f.mul(Coeff(f, q, n - 1), Coeff(f, b, k - (n - 1)));
      f.Sums(s, f.zero, f.zero);
      if d == n - 1 {
        f.Zeros(Coeff(f, b, k - d));
        f.Sums(s, f.zero, f.zero);
      } else {
        var e := if d < n - 1 then f.mul(c, Coeff(f, b, k - d)) else f.zero;
        f.Sums(s, e, t);
        f.Sums(e, t, t);
        f.Sums(s, t, e);
      }
    }
  }

  /** a = q * b + r, coefficient by coefficient and at every point. */
  ghost predicate IsDivision<F(!new)>(f: Field<F>, a: seq<F>, b: seq<F>, q: seq<F>, r: seq<F>) {
    && (forall k: nat :: Coeff(f, a, k) == f.add(ProductCoeff(f, q, b, k), Coeff(f, r, k)))
    && (forall x :: Eval(f, a, x) == f.add(f.mul(Eval(f, q, x), Eval(f, b, x)), Eval(f, r, x)))
  }

  /** Moving a term from one summand to the other. */
  lemma MoveTerm<F(!new)>(f: Field<F>, x: F, y: F, z: F)
    requires f.Ok()
    ensures f.add(f.add(x, z), f.add(y, f.neg(z))) == f.add(x, y)
  {
    hide Field.Ok;
    f.Swap(x, z, y, f.neg(z));
    f.Sums(z, z, z);
    f.Sums(f.add(x, y), f.zero, f.zero);
  }
}
