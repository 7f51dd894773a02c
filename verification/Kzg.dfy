/** The toy KZG commitment: polynomial division in place, and the equation it justifies.  Group elements are their exponents. */
module Kzg {
  import opened Options
  import opened Fields
  import opened Polynomials

  /** evaluate_polynomial: accumulates terms and powers of x. */
  method EvaluatePolynomial<F(!new)>(f: Field<F>, poly: seq<F>, x: F) returns (result: F)
    requires f.Ok()
    ensures result == Eval(f, poly, x)
  {
    hide Field.Ok;
    result := f.zero;
    var power := f.one;
    for i := 0 to |poly|
      invariant result == Eval(f, poly[..i], x) && power == Power(f, x, i)
    {
      assert poly[..i + 1] == poly[..i] + [poly[i]];
      EvalSnoc(f, poly[..i], poly[i], x);
      var term := f.mul(poly[i], power);
      result := f.add(result, term);
      power := f.mul(power, x);
    }
    assert poly[..|poly|] == poly;
  }

  /** Drops the zeros at the top. */
  method Trim<F(!new, ==)>(f: Field<F>, p: seq<F>) returns (r: seq<F>)
    ensures r <= p && AllZero(f, p[|r|..])
    ensures r == [] || r[|r| - 1] != f.zero
  {
    r := p;
    while r != [] && r[|r| - 1] == f.zero
      invariant r <= p && AllZero(f, p[|r|..])
    {
      assert p[|r| - 1..] == [f.zero] + p[|r|..];
      r := r[..|r| - 1];
    }
  }

  /** Trimming changes neither the coefficients nor the values. */
  lemma TrimKeeps<F(!new)>(f: Field<F>, p: seq<F>, r: seq<F>)
    requires f.Ok() && r <= p && AllZero(f, p[|r|..])
    ensures forall k :: Coeff(f, r, k) == Coeff(f, p, k)
    ensures forall x :: Eval(f, r, x) == Eval(f, p, x)
  {
    assert p == r + p[|r|..];
    forall k ensures Coeff(f, r, k) == Coeff(f, p, k) {
      if |r| <= k < |p| {
        assert p[k] == p[|r|..][k - |r|];
      }
    }
    forall x ensures Eval(f, r, x) == Eval(f, p, x) {
      EvalPadded(f, r, p[|r|..], x);
    }
  }

  lemma DivisionTrimmed<F(!new)>(f: Field<F>, a: seq<F>, b: seq<F>, q: seq<F>, r: seq<F>, b': seq<F>, q': seq<F>, r': seq<F>)
    requires f.Ok() && IsDivision(f, a, b, q, r)
    requires forall k :: Coeff(f, b', k) == Coeff(f, b, k) && Coeff(f, q', k) == Coeff(f, q, k) && Coeff(f, r', k) == Coeff(f, r, k)
    requires forall x :: Eval(f, b', x) == Eval(f, b, x) && Eval(f, q', x) == Eval(f, q, x) && Eval(f, r', x) == Eval(f, r, x)
    ensures IsDivision(f, a, b', q', r')
  {
    hide Field.Ok, Coeff, Eval;
    forall k: nat ensures ProductCoeff(f, q', b', k) == ProductCoeff(f, q, b, k) {
      SameProduct(f, q, b, q', b', k, k + 1);
    }
  }

  lemma {:induction false} SameProduct<F(!new)>(f: Field<F>, q: seq<F>, b: seq<F>, q': seq<F>, b': seq<F>, k: int, n: nat)
    requires forall k :: Coeff(f, b', k) == Coeff(f, b, k) && Coeff(f, q', k) == Coeff(f, q, k)
    ensures Convolve(f, q', b', k, n) == Convolve(f, q, b, k, n)
  {
    hide Coeff;
    if n > 0 {
      SameProduct(f, q, b, q', b', k, n - 1);
    }
  }

  /** Subtracts coef * x^deg * d from r, coefficient by coefficient. */
  method SubtractMultiple<F(!new)>(f: Field<F>, r0: seq<F>, d: seq<F>, deg: nat, coef: F) returns (r: seq<F>)
    requires f.Ok() && |r0| == deg + |d|
    ensures |r| == |r0|
    ensures forall k: nat :: Coeff(f, r, k) == f.add(Coeff(f, r0, k), f.neg(f.mul(coef, Coeff(f, d, k - deg))))
    ensures forall x :: Eval(f, r, x) == f.add(Eval(f, r0, x), f.neg(f.mul(f.mul(coef, Power(f, x, deg)), Eval(f, d, x))))
  {
    hide Field.Ok, Eval, Power;
    r := r0;
    NothingSubtracted(f, r0, d, deg, coef);
    for i := 0 to |d|
      invariant |r| == |r0| && forall k | 0 <= k < |r| && !(deg <= k < deg + i) :: r[k] == r0[k]
      invariant forall j | 0 <= j < i :: r[deg + j] == f.add(r0[deg + j], f.neg(f.mul(coef, d[j])))
      invariant forall x :: Eval(f, r, x) == f.add(Eval(f, r0, x), f.neg(f.mul(f.mul(coef, Power(f, x, deg)), Eval(f, d[..i], x))))
    {
      var temp := f.mul(coef, d[i]);
      ghost var before := r;
      r := r[deg + i := f.Sub(r[deg + i], temp)];
      MoreSubtracted(f, r0, before, d, deg, coef, i);
    }
    assert d[..|d|] == d;
    forall k: nat ensures Coeff(f, r, k) == f.add(Coeff(f, r0, k), f.neg(f.mul(coef, Coeff(f, d, k - deg)))) {
      if !(deg <= k < deg + |d|) {
        f.Zeros(coef);
        f.Sums(Coeff(f, r0, k), f.zero, f.zero);
      } else {
        assert r[deg + (k - deg)] == r[k];
      }
    }
  }

  lemma NothingSubtracted<F(!new)>(f: Field<F>, r: seq<F>, d: seq<F>, deg: nat, coef: F)
    requires f.Ok()
    ensures forall x :: Eval(f, r, x) == f.add(Eval(f, r, x), f.neg(f.mul(f.mul(coef, Power(f, x, deg)), Eval(f, d[..0], x))))
  {
    hide Field.Ok;
    forall x ensures Eval(f, r, x) == f.add(Eval(f, r, x), f.neg(f.mul(f.mul(coef, Power(f, x, deg)), Eval(f, d[..0], x)))) {
      f.Zeros(f.mul(coef, Power(f, x, deg)));
      f.Sums(Eval(f, r, x), f.zero, f.zero);
    }
  }

  lemma MoreSubtracted<F(!new)>(f: Field<F>, r0: seq<F>, r: seq<F>, d: seq<F>, deg: nat, coef: F, i: nat)
    requires f.Ok() && i < |d| && deg + i < |r|
    requires forall x :: Eval(f, r, x) == f.add(Eval(f, r0, x), f.neg(f.mul(f.mul(coef, Power(f, x, deg)), Eval(f, d[..i], x))))
    ensures var s := r[deg + i := f.Sub(r[deg + i], f.mul(coef, d[i]))];
            forall x :: Eval(f, s, x) == f.add(Eval(f, r0, x), f.neg(f.mul(f.mul(coef, Power(f, x, deg)), Eval(f, d[..i + 1], x))))
  {
    hide Field.Ok, Eval, Power;
    var t := f.neg(f.mul(coef, d[i]));
    var s := r[deg + i := f.add(r[deg + i], t)];
    assert d[..i + 1] == d[..i] + [d[i]];
    forall x ensures Eval(f, s, x) == f.add(Eval(f, r0, x), f.neg(f.mul(f.mul(coef, Power(f, x, deg)), Eval(f, d[..i + 1], x)))) {
      EvalUpdate(f, r, deg + i, t, x);
      EvalSnoc(f, d[..i], d[i], x);
      PowerAdd(f, x, deg, i);
      TermBelow(f, coef, d[i], Power(f, x, deg), Power(f, x, i), Eval(f, d[..i], x));
      f.Sums(Eval(f, r0, x), f.neg(f.mul(f.mul(coef, Power(f, x, deg)), Eval(f, d[..i], x))), f.mul(t, Power(f, x, deg + i)));
    }
  }

  /** -(c * p) * e - (c * b) * (p * q) == -(c * p) * (e + b * q) */
  lemma TermBelow<F(!new)>(f: Field<F>, c: F, b: F, p: F, q: F, e: F)
    requires f.Ok()
    ensures f.add(f.neg(f.mul(f.mul(c, p), e)), f.mul(f.neg(f.mul(c, b)), f.mul(p, q)))
         == f.neg(f.mul(f.mul(c, p), f.add(e, f.mul(b, q))))
  {
    hide Field.Ok;
    var cp := f.mul(c, p);
    f.Distribute(cp, e, f.mul(b, q));
    f.Negatives(f.mul(cp, e), f.mul(cp, f.mul(b, q)));
    f.Negatives(f.mul(c, b), f.mul(p, q));
    f.Products(c, b, f.mul(p, q));
    f.Products(b, p, q);
    f.Products(p, b, q);
    f.Products(c, p, f.mul(b, q));
    f.Products(b, p, p);
  }

  /** One step of the division keeps a = q * b + r. */
  lemma DivisionStep<F(!new)>(f: Field<F>, a: seq<F>, d: seq<F>, q: seq<F>, r: seq<F>, q': seq<F>, r': seq<F>, deg: nat, coef: F)
    requires f.Ok() && IsDivision(f, a, d, q, r) && Coeff(f, q, deg) == f.zero && Coeff(f, q', deg) == coef
    requires forall i: nat | i != deg :: Coeff(f, q', i) == Coeff(f, q, i)
    requires forall x :: Eval(f, q', x) == f.add(Eval(f, q, x), f.mul(coef, Power(f, x, deg)))
    requires forall k: nat :: Coeff(f, r', k) == f.add(Coeff(f, r, k), f.neg(f.mul(coef, Coeff(f, d, k - deg))))
    requires forall x :: Eval(f, r', x) == f.add(Eval(f, r, x), f.neg(f.mul(f.mul(coef, Power(f, x, deg)), Eval(f, d, x))))
    ensures IsDivision(f, a, d, q', r')
  {
    hide Field.Ok, Coeff, Eval, Power, Convolve;
    forall k: nat ensures Coeff(f, a, k) == f.add(ProductCoeff(f, q', d, k), Coeff(f, r', k)) {
      var t := f.mul(coef, Coeff(f, d, k - deg));
      ConvolveUpdate(f, q, q', d, deg, coef, k, k + 1);
      if deg < k + 1 {
        MoveTerm(f, ProductCoeff(f, q, d, k), Coeff(f, r, k), t);
      } else {
        BelowDegree(f, coef, d, k - deg);
        f.Sums(Coeff(f, r, k), f.zero, f.zero);
        f.Sums(ProductCoeff(f, q, d, k), f.zero, f.zero);
      }
    }
    forall x ensures Eval(f, a, x) == f.add(f.mul(Eval(f, q', x), Eval(f, d, x)), Eval(f, r', x)) {
      var t := f.mul(coef, Power(f, x, deg));
      f.Distribute(Eval(f, d, x), Eval(f, q, x), t);
      MoveTerm(f, f.mul(Eval(f, q, x), Eval(f, d, x)), Eval(f, r, x), f.mul(t, Eval(f, d, x)));
    }
  }

  lemma BelowDegree<F(!new)>(f: Field<F>, coef: F, d: seq<F>, k: int)
    requires f.Ok() && k < 0
    ensures f.neg(f.mul(coef, Coeff(f, d, k))) == f.zero
  {
    hide Field.Ok;
    f.Zeros(coef);
  }

  /** q[deg] = coef, where q grows as needed and new entries are zero. */
  method SetQuotient<F(!new, 0)>(f: Field<F>, q: seq<F>, deg: nat, coef: F) returns (n: seq<F>)
    requires f.Ok() && Coeff(f, q, deg) == f.zero
    ensures |n| == (if |q| <= deg then deg + 1 else |q|) && Coeff(f, n, deg) == coef
    ensures forall i: nat | i != deg :: Coeff(f, n, i) == Coeff(f, q, i)
    ensures forall x :: Eval(f, n, x) == f.add(Eval(f, q, x), f.mul(coef, Power(f, x, deg)))
  {
    hide Field.Ok, Eval, Power;
    n := q;
    ghost var zeros: seq<F> := [];
    if |q| <= deg {
      var pad := seq(deg + 1 - |q|, i => f.zero);
      zeros := pad;
      n := q + pad;
    } else {
      assert q + [] == q;
    }
    ghost var padded := n;
    f.Zeros(coef);
    f.Sums(f.zero, coef, coef);
    n := n[deg := coef];
    forall x ensures Eval(f, n, x) == f.add(Eval(f, q, x), f.mul(coef, Power(f, x, deg))) {
      EvalPadded(f, q, zeros, x);
      EvalUpdate(f, padded, deg, coef, x);
    }
  }

  /** Where a coefficient of q may still be zero: above what has been written. */
  ghost predicate Unwritten<F(!new)>(f: Field<F>, q: seq<F>, r: seq<F>, d: seq<F>) {
    forall k: nat | k + |d| < |r| || (k + |d| == |r| && r != [] && r[|r| - 1] != f.zero) :: Coeff(f, q, k) == f.zero
  }

  /** poly_div: throws for a zero divisor, else the quotient of the long division. */
  method PolyDiv<F(!new, ==, 0)>(f: Field<F>, a: seq<F>, b: seq<F>) returns (result: Option<seq<F>>, ghost remainder: seq<F>)
    requires f.Ok()
    ensures result.None? <==> AllZero(f, b)
    ensures result.Some? ==> IsDivision(f, a, b, result.value, remainder)
    ensures result.Some? ==> exists n | 0 < n <= |b| :: b[n - 1] != f.zero && AllZero(f, b[n..]) && |remainder| < n
    ensures result.Some? ==> |result.value| <= |a|
    ensures result.Some? && result.value != [] ==> result.value[|result.value| - 1] != f.zero
  {
    hide Field.Ok, Eval, Coeff, IsDivision;
    remainder := [];
    var divisor := Trim(f, b);
    if divisor == [] {
      assert b == b[0..];
      return None, [];
    }
    TrimKeeps(f, b, divisor);
    var q: seq<F>, r := [], a;
    NothingDivided(f, a, divisor);
    while r != [] && |r| >= |divisor|
      invariant IsDivision(f, a, divisor, q, r) && Unwritten(f, q, r, divisor) && |q| <= |a| && |r| <= |a|
      decreases 2 * |r| + if r != [] && r[|r| - 1] != f.zero then 1 else 0
    {
      var r1 := Trim(f, r);
      TrimKeeps(f, r, r1);
      DivisionTrimmed(f, a, divisor, q, r, divisor, q, r1);
      Trimmed(f, q, r, r1, divisor);
      r := r1;
      if r == [] || |r| < |divisor| {
        break;
      }
      var coef := f.Div(r[|r| - 1], divisor[|divisor| - 1]);
      var deg := |r| - |divisor|;
      var q' := SetQuotient(f, q, deg, coef);
      var r' := SubtractMultiple(f, r, divisor, deg, coef);
      DivisionStep(f, a, divisor, q, r, q', r', deg, coef);
      TopGone(f, r, r', divisor, deg, coef);
      StillUnwritten(f, q, q', r, r', divisor, deg);
      q, r := q', r';
    }
    var q1 := Trim(f, q);
    TrimKeeps(f, q, q1);
    DivisionTrimmed(f, a, divisor, q, r, b, q1, r);
    result, remainder := Some(q1), r;
  }

  lemma NothingDivided<F(!new)>(f: Field<F>, a: seq<F>, d: seq<F>)
    requires f.Ok()
    ensures IsDivision(f, a, d, [], a) && Unwritten(f, [], a, d)
  {
    hide Field.Ok;
    forall k: nat ensures Coeff(f, a, k) == f.add(ProductCoeff(f, [], d, k), Coeff(f, a, k)) {
      EmptyProduct(f, d, k, k + 1);
      f.Zeros(Coeff(f, a, k));
    }
    forall x ensures Eval(f, a, x) == f.add(f.mul(Eval(f, [], x), Eval(f, d, x)), Eval(f, a, x)) {
      f.Zeros(Eval(f, d, x));
      f.Zeros(Eval(f, a, x));
    }
  }

  lemma {:induction false} EmptyProduct<F(!new)>(f: Field<F>, d: seq<F>, k: int, n: nat)
    requires f.Ok()
    ensures Convolve(f, [], d, k, n) == f.zero
  {
    hide Field.Ok;
    if n > 0 {
      EmptyProduct(f, d, k, n - 1);
      f.Zeros(Coeff(f, d, k - (n - 1)));
      f.Zeros(f.zero);
    }
  }

  lemma Trimmed<F(!new)>(f: Field<F>, q: seq<F>, r: seq<F>, r1: seq<F>, d: seq<F>)
    requires Unwritten(f, q, r, d) && r1 <= r && AllZero(f, r[|r1|..])
    ensures Unwritten(f, q, r1, d)
  {
    hide Coeff;
    if |r1| < |r| {
      assert r[|r1|..][|r| - 1 - |r1|] == r[|r| - 1];
    }
  }

  /** The top coefficient cancels. */
  lemma TopGone<F(!new)>(f: Field<F>, r: seq<F>, r': seq<F>, d: seq<F>, deg: nat, coef: F)
    requires f.Ok() && |r'| == |r| == deg + |d| && d != [] && d[|d| - 1] != f.zero
    requires coef == f.Div(r[|r| - 1], d[|d| - 1])
    requires forall k: nat :: Coeff(f, r', k) == f.add(Coeff(f, r, k), f.neg(f.mul(coef, Coeff(f, d, k - deg))))
    ensures r'[|r'| - 1] == f.zero
  {
    hide Field.Ok;
    var top, last := r[|r| - 1], d[|d| - 1];
    assert Coeff(f, r', |r| - 1) == r'[|r| - 1];
    f.Products(top, f.inv(last), last);
    f.Products(f.inv(last), last, last);
    f.Products(last, last, last);
    f.Products(top, f.one, f.one);
    f.Sums(top, top, top);
  }

  lemma StillUnwritten<F(!new)>(f: Field<F>, q: seq<F>, q': seq<F>, r: seq<F>, r': seq<F>, d: seq<F>, deg: nat)
    requires Unwritten(f, q, r, d) && |r'| == |r| == deg + |d| && d != [] && r'[|r'| - 1] == f.zero
    requires forall i: nat | i != deg :: Coeff(f, q', i) == Coeff(f, q, i)
    ensures Unwritten(f, q', r', d)
  {
    hide Coeff;
  }

  // Commitments

  /** The points of the setup are the powers of the secret. */
  ghost predicate IsSetup<F(!new)>(f: Field<F>, setup: seq<F>, s: F) {
    forall i | 0 <= i < |setup| :: setup[i] == Power(f, s, i)
  }

  /** trusted_setup: each point is the one before it times the secret. */
  method TrustedSetup<F(!new)>(f: Field<F>, s: F, n: nat) returns (g1Points: seq<F>, sG2: F)
    requires f.Ok() && n > 0
    ensures |g1Points| == n && IsSetup(f, g1Points, s) && sG2 == s
  {
    hide Field.Ok;
    g1Points := [f.one];
    for i := 1 to n
      invariant |g1Points| == i && IsSetup(f, g1Points, s)
    {
      g1Points := g1Points + [f.mul(g1Points[i - 1], s)];
    }
    f.Products(s, s, s);
    f.Products(f.one, s, s);
    sG2 := f.mul(f.one, s);
  }

  /** The commitment to a polynomial is its value at the secret. */
  method Commit<F(!new)>(f: Field<F>, poly: seq<F>, setup: seq<F>, ghost s: F) returns (result: F)
    requires f.Ok() && IsSetup(f, setup, s) && |poly| <= |setup|
    ensures result == Eval(f, poly, s)
  {
    hide Field.Ok;
    result := f.zero;
    for i := 0 to |poly|
      invariant result == Eval(f, poly[..i], s)
    {
      assert poly[..i + 1] == poly[..i] + [poly[i]];
      EvalSnoc(f, poly[..i], poly[i], s);
      f.Products(setup[i], poly[i], poly[i]);
      var tmp := f.mul(setup[i], poly[i]);
      result := f.add(result, tmp);
    }
    assert poly[..|poly|] == poly;
  }

  lemma EvalLinear<F(!new)>(f: Field<F>, c: F, x: F)
    requires f.Ok()
    ensures Eval(f, [c, f.one], x) == f.add(c, x) && Eval(f, [c], x) == c && Eval(f, [], x) == f.zero
  {
    hide Field.Ok;
    assert [] + [c] == [c] && [c] + [f.one] == [c, f.one];
    EvalSnoc(f, [], c, x);
    EvalSnoc(f, [c], f.one, x);
    f.Products(c, f.one, f.one);
    f.Zeros(c);
    f.Products(f.one, x, x);
    f.Products(x, f.one, f.one);
    assert Power(f, x, 0) == f.one && Power(f, x, 1) == f.mul(f.one, x);
  }

  /** A remainder of at most one coefficient is a constant. */
  lemma ConstantRemainder<F(!new)>(f: Field<F>, r: seq<F>, x: F, s: F)
    requires f.Ok() && |r| <= 1
    ensures Eval(f, r, x) == Eval(f, r, s)
  {
    hide Field.Ok;
    if r != [] {
      assert r == [r[0]];
      EvalLinear(f, r[0], x);
      EvalLinear(f, r[0], s);
    }
  }

  /** create_proof: the commitment to the quotient by t - x.  What the division leaves is the error of the claim. */
  method CreateProof<F(!new, ==, 0)>(f: Field<F>, poly: seq<F>, x: F, y: F, setup: seq<F>, ghost s: F) returns (pi: F)
    requires f.Ok() && IsSetup(f, setup, s) && 0 < |poly| <= |setup|
    ensures f.Sub(Eval(f, poly, s), y) == f.add(f.mul(pi, f.Sub(s, x)), f.Sub(Eval(f, poly, x), y))
  {
    hide Field.Ok, Eval, Power, IsDivision, Coeff;
    f.Products(f.one, f.one, f.one);
    var divisor := [f.neg(x), f.one];
    var numerator := poly[0 := f.Sub(poly[0], y)];
    var quotient;
    ghost var remainder;
    assert divisor[1] != f.zero;
    quotient, remainder := PolyDiv(f, numerator, divisor);
    pi := Commit(f, quotient.value, setup, s);
    ghost var q := quotient.value;
    Shifted(f, poly, y, x);
    Shifted(f, poly, y, s);
    EvalLinear(f, f.neg(x), x);
    EvalLinear(f, f.neg(x), s);
    ConstantRemainder(f, remainder, x, s);
    DivisionAt(f, numerator, divisor, q, remainder, x);
    DivisionAt(f, numerator, divisor, q, remainder, s);
    Opened(f, Eval(f, numerator, x), Eval(f, numerator, s), Eval(f, q, x), Eval(f, q, s), Eval(f, remainder, s), x, s);
  }

  lemma DivisionAt<F(!new)>(f: Field<F>, a: seq<F>, b: seq<F>, q: seq<F>, r: seq<F>, x: F)
    requires IsDivision(f, a, b, q, r)
    ensures Eval(f, a, x) == f.add(f.mul(Eval(f, q, x), Eval(f, b, x)), Eval(f, r, x))
  {
  }

  /** The quotient by t - x: the remainder is the value at x. */
  lemma Opened<F(!new)>(f: Field<F>, nx: F, ns: F, qx: F, qs: F, r: F, x: F, s: F)
    requires f.Ok() && nx == f.add(f.mul(qx, f.add(f.neg(x), x)), r) && ns == f.add(f.mul(qs, f.add(f.neg(x), s)), r)
    ensures ns == f.add(f.mul(qs, f.Sub(s, x)), nx)
  {
    hide Field.Ok;
    f.Sums(f.neg(x), x, x);
    f.Sums(x, x, x);
    f.Sums(f.neg(x), s, s);
    f.Zeros(qx);
    f.Zeros(r);
  }

  /** Subtracting y from the constant coefficient subtracts it from every value. */
  lemma Shifted<F(!new)>(f: Field<F>, poly: seq<F>, y: F, x: F)
    requires f.Ok() && 0 < |poly|
    ensures Eval(f, poly[0 := f.Sub(poly[0], y)], x) == f.Sub(Eval(f, poly, x), y)
  {
    hide Field.Ok;
    EvalUpdate(f, poly, 0, f.neg(y), x);
    f.Products(f.neg(y), f.one, f.one);
    assert Power(f, x, 0) == f.one;
  }

  /** verify: the pairing compares the exponents (C - y) * 1 and pi * (s - x). */
  method Verify<F(!new, ==)>(f: Field<F>, C: F, pi: F, x: F, y: F, sG2: F) returns (ok: bool)
    requires f.Ok()
    ensures ok <==> f.Sub(C, y) == f.mul(pi, f.Sub(sG2, x))
  {
    hide Field.Ok;
    f.Products(f.one, y, y);
    f.Products(y, f.one, f.one);
    f.Products(f.one, x, x);
    f.Products(x, f.one, f.one);
    var yG1 := f.mul(f.one, y);
    var lhs := f.Sub(C, yG1);
    var xG2 := f.mul(f.one, x);
    var rhsG2 := f.Sub(sG2, xG2);
    f.Products(lhs, f.one, f.one);
    var e1 := f.mul(lhs, f.one);
    var e2 := f.mul(pi, rhsG2);
    ok := e1 == e2;
  }

  /** Commit, prove, verify: the proof passes exactly when the claimed value is the value of the polynomial. */
  method OpenAndVerify<F(!new, ==, 0)>(f: Field<F>, poly: seq<F>, x: F, y: F, s: F, n: nat) returns (ok: bool)
    requires f.Ok() && 0 < |poly| <= n
    ensures ok <==> y == Eval(f, poly, x)
  {
    hide Field.Ok, Eval, IsSetup;
    var setup, sG2 := TrustedSetup(f, s, n);
    var C := Commit(f, poly, setup, s);
    var pi := CreateProof(f, poly, x, y, setup, s);
    ok := Verify(f, C, pi, x, y, sG2);
    PassesIff(f, f.Sub(C, y), f.mul(pi, f.Sub(s, x)), Eval(f, poly, x), y);
  }

  lemma PassesIff<F(!new)>(f: Field<F>, lhs: F, rhs: F, v: F, y: F)
    requires f.Ok() && lhs == f.add(rhs, f.Sub(v, y))
    ensures lhs == rhs <==> v == y
  {
    hide Field.Ok;
    f.DifferenceZero(v, y);
    f.Sums(rhs, f.zero, f.zero);
    f.Sums(rhs, f.Sub(v, y), f.zero);
    f.Sums(f.zero, rhs, f.zero);
    f.Cancel(f.Sub(v, y), f.zero, rhs);
  }
}
