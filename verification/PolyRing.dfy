/** Sums, products and derivatives of polynomials, and the products over points that interpolation is made of. */
module PolyRing {
  import opened Fields
  import opened Polynomials

  lemma {:induction false} EvalHead<F(!new)>(f: Field<F>, p: seq<F>, x: F)
    requires f.Ok() && p != []
    ensures Eval(f, p, x) == f.add(p[0], f.mul(x, Eval(f, p[1..], x)))
  {
    hide Field.Ok;
    var m := |p| - 1;
    if m == 0 {
      assert p == [] + [p[0]];
      EvalSnoc(f, [], p[0], x);
      f.Products(p[0], f.one, f.one);
      f.Zeros(p[0]);
      f.Zeros(x);
      f.Sums(p[0], f.zero, f.zero);
    } else {
      EvalHead(f, p[..m], x);
      assert p[..m][1..] == p[1..][..m - 1];
      var e, t := Eval(f, p[1..][..m - 1], x), f.mul(p[m], Power(f, x, m - 1));
      f.Distribute(x, e, t);
      f.Sums(p[0], f.mul(x, e), f.mul(x, t));
      f.Products(p[m], Power(f, x, m - 1), x);
      f.Products(f.mul(p[m], Power(f, x, m - 1)), x, x);
    }
  }

  function Add<F(!new)>(f: Field<F>, p: seq<F>, q: seq<F>): (r: seq<F>)
    ensures |r| == if |p| >= |q| then |p| else |q|
  {
    if p == [] then q else if q == [] then p else [f.add(p[0], q[0])] + Add(f, p[1..], q[1..])
  }

  function Scale<F(!new)>(f: Field<F>, c: F, p: seq<F>): (r: seq<F>)
    ensures |r| == |p|
  {
    if p == [] then [] else [f.mul(c, p[0])] + Scale(f, c, p[1..])
  }

  function Mul<F(!new)>(f: Field<F>, p: seq<F>, q: seq<F>): (r: seq<F>)
    ensures |r| <= |p| + |q| && (p != [] && q != [] ==> |r| <= |p| + |q| - 1)
    decreases |p|
  {
    if p == [] then [] else Add(f, Scale(f, p[0], q), [f.zero] + Mul(f, p[1..], q))
  }

  /** The derivative: of c + x * r it is r + x * r'. */
  function Diff<F(!new)>(f: Field<F>, p: seq<F>): (r: seq<F>) {
    if p == [] then [] else Add(f, p[1..], [f.zero] + Diff(f, p[1..]))
  }

  lemma EvalShift<F(!new)>(f: Field<F>, p: seq<F>, x: F)
    requires f.Ok()
    ensures Eval(f, [f.zero] + p, x) == f.mul(x, Eval(f, p, x))
  {
    hide Field.Ok;
    EvalHead(f, [f.zero] + p, x);
    assert ([f.zero] + p)[1..] == p;
    f.Zeros(f.mul(x, Eval(f, p, x)));
  }

  lemma {:induction false} EvalAdd<F(!new)>(f: Field<F>, p: seq<F>, q: seq<F>, x: F)
    requires f.Ok()
    ensures Eval(f, Add(f, p, q), x) == f.add(Eval(f, p, x), Eval(f, q, x))
  {
    hide Field.Ok;
    if p == [] {
      f.Zeros(Eval(f, q, x));
    } else if q == [] {
      f.Sums(Eval(f, p, x), f.zero, f.zero);
    } else {
      var s := Add(f, p, q);
      EvalAdd(f, p[1..], q[1..], x);
      EvalHead(f, s, x);
      EvalHead(f, p, x);
      EvalHead(f, q, x);
      assert s[1..] == Add(f, p[1..], q[1..]);
      var e, g := Eval(f, p[1..], x), Eval(f, q[1..], x);
      f.Distribute(x, e, g);
      f.Swap(p[0], f.mul(x, e), q[0], f.mul(x, g));
    }
  }

  lemma {:induction false} EvalScale<F(!new)>(f: Field<F>, c: F, p: seq<F>, x: F)
    requires f.Ok()
    ensures Eval(f, Scale(f, c, p), x) == f.mul(c, Eval(f, p, x))
  {
    hide Field.Ok;
    if p == [] {
      f.Zeros(c);
    } else {
      var s := Scale(f, c, p);
      EvalScale(f, c, p[1..], x);
      EvalHead(f, s, x);
      EvalHead(f, p, x);
      assert s[1..] == Scale(f, c, p[1..]);
      var e := Eval(f, p[1..], x);
      f.Distribute(c, p[0], f.mul(x, e));
      f.Products(c, x, e);
      f.Products(x, c, e);
      f.Products(c, x, x);
    }
  }

  lemma {:induction false} EvalMul<F(!new)>(f: Field<F>, p: seq<F>, q: seq<F>, x: F)
    requires f.Ok()
    ensures Eval(f, Mul(f, p, q), x) == f.mul(Eval(f, p, x), Eval(f, q, x))
    decreases |p|
  {
    hide Field.Ok;
    var g := Eval(f, q, x);
    if p == [] {
      f.Zeros(g);
    } else {
      var e := Eval(f, p[1..], x);
      EvalMul(f, p[1..], q, x);
      EvalAdd(f, Scale(f, p[0], q), [f.zero] + Mul(f, p[1..], q), x);
      EvalScale(f, p[0], q, x);
      EvalShift(f, Mul(f, p[1..], q), x);
      EvalHead(f, p, x);
      f.Distribute(g, p[0], f.mul(x, e));
      f.Products(x, e, g);
    }
  }

  // The derivative at a point

  function Slope<F(!new)>(f: Field<F>, p: seq<F>, x: F): F {
    Eval(f, Diff(f, p), x)
  }

  lemma SlopeHead<F(!new)>(f: Field<F>, p: seq<F>, x: F)
    requires f.Ok()
    ensures p == [] ==> Slope(f, p, x) == f.zero
    ensures p != [] ==> Slope(f, p, x) == f.add(Eval(f, p[1..], x), f.mul(x, Slope(f, p[1..], x)))
  {
    hide Field.Ok;
    if p != [] {
      EvalAdd(f, p[1..], [f.zero] + Diff(f, p[1..]), x);
      EvalShift(f, Diff(f, p[1..]), x);
    }
  }

  lemma {:induction false} SlopeAdd<F(!new)>(f: Field<F>, p: seq<F>, q: seq<F>, x: F)
    requires f.Ok()
    ensures Slope(f, Add(f, p, q), x) == f.add(Slope(f, p, x), Slope(f, q, x))
  {
    hide Field.Ok, Slope;
    SlopeHead(f, p, x);
    SlopeHead(f, q, x);
    if p == [] {
      f.Zeros(Slope(f, q, x));
    } else if q == [] {
      f.Sums(Slope(f, p, x), f.zero, f.zero);
    } else {
      var s := Add(f, p, q);
      SlopeHead(f, s, x);
      assert s[1..] == Add(f, p[1..], q[1..]);
      SlopeAdd(f, p[1..], q[1..], x);
      EvalAdd(f, p[1..], q[1..], x);
      f.Distribute(x, Slope(f, p[1..], x), Slope(f, q[1..], x));
      f.Swap(Eval(f, p[1..], x), f.mul(x, Slope(f, p[1..], x)), Eval(f, q[1..], x), f.mul(x, Slope(f, q[1..], x)));
    }
  }

  lemma {:induction false} SlopeScale<F(!new)>(f: Field<F>, c: F, p: seq<F>, x: F)
    requires f.Ok()
    ensures Slope(f, Scale(f, c, p), x) == f.mul(c, Slope(f, p, x))
  {
    hide Field.Ok, Slope;
    SlopeHead(f, p, x);
    SlopeHead(f, Scale(f, c, p), x);
    if p == [] {
      f.Zeros(c);
    } else {
      assert Scale(f, c, p)[1..] == Scale(f, c, p[1..]);
      SlopeScale(f, c, p[1..], x);
      EvalScale(f, c, p[1..], x);
      var e, d := Eval(f, p[1..], x), Slope(f, p[1..], x);
      f.Distribute(c, e, f.mul(x, d));
      f.Products(c, x, d);
      f.Products(x, c, d);
      f.Products(c, x, x);
    }
  }

  /** The product rule. */
  lemma {:induction false} SlopeMul<F(!new)>(f: Field<F>, p: seq<F>, q: seq<F>, x: F)
    requires f.Ok()
    ensures Slope(f, Mul(f, p, q), x)
         == f.add(f.mul(Slope(f, p, x), Eval(f, q, x)), f.mul(Eval(f, p, x), Slope(f, q, x)))
    decreases |p|
  {
    hide Field.Ok, Slope, Eval;
    SlopeHead(f, p, x);
    var g, h := Eval(f, q, x), Slope(f, q, x);
    if p == [] {
      NothingTimes(f, q, x);
    } else {
      var r := p[1..];
      var e, d := Eval(f, r, x), Slope(f, r, x);
      SlopeMul(f, r, q, x);
      SlopeAdd(f, Scale(f, p[0], q), [f.zero] + Mul(f, r, q), x);
      SlopeScale(f, p[0], q, x);
      SlopeHead(f, [f.zero] + Mul(f, r, q), x);
      assert ([f.zero] + Mul(f, r, q))[1..] == Mul(f, r, q);
      EvalMul(f, r, q, x);
      EvalHead(f, p, x);
      ProductRule(f, p[0], x, e, d, g, h);
    }
  }

  lemma NothingTimes<F(!new)>(f: Field<F>, q: seq<F>, x: F)
    requires f.Ok()
    ensures Slope(f, Mul(f, [], q), x)
         == f.add(f.mul(f.zero, Eval(f, q, x)), f.mul(Eval(f, [], x), Slope(f, q, x)))
  {
    hide Field.Ok;
    f.Zeros(Eval(f, q, x));
    f.Zeros(Slope(f, q, x));
    f.Zeros(f.zero);
  }

  /** a * h + (e * g + x * (d * g + e * h)) == (e + x * d) * g + (a + x * e) * h */
  lemma ProductRule<F(!new)>(f: Field<F>, a: F, x: F, e: F, d: F, g: F, h: F)
    requires f.Ok()
    ensures f.add(f.mul(a, h), f.add(f.mul(e, g), f.mul(x, f.add(f.mul(d, g), f.mul(e, h)))))
         == f.add(f.mul(f.add(e, f.mul(x, d)), g), f.mul(f.add(a, f.mul(x, e)), h))
  {
    hide Field.Ok;
    var ah, eg, xdg, xeh := f.mul(a, h), f.mul(e, g), f.mul(x, f.mul(d, g)), f.mul(x, f.mul(e, h));
    f.Distribute(x, f.mul(d, g), f.mul(e, h));
    f.Distribute(g, e, f.mul(x, d));
    f.Distribute(h, a, f.mul(x, e));
    f.Products(x, d, g);
    f.Products(x, e, h);
    f.Sums(eg, xdg, xeh);
    f.Sums(ah, f.add(eg, xdg), xeh);
    f.Sums(ah, f.add(eg, xdg), ah);
    f.Sums(f.add(eg, xdg), ah, xeh);
  }
}
