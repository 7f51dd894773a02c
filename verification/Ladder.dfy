/** The merged ladder: two scalar multiples in any abelian group, in one pass over both scalars. */
module Ladder {
  import opened Powers
  import opened Words
  import opened Bits
  import opened Sliding

  datatype Group<!G(!new)> = Group(zero: G, add: (G, G) -> G, neg: G -> G) {

    ghost predicate Abelian()
    {
      && (forall a, b, c :: add(add(a, b), c) == add(a, add(b, c)))
      && (forall a, b :: add(a, b) == add(b, a))
      && (forall a :: add(a, zero) == a && add(a, neg(a)) == zero)
    }

    /** n times x. */
    function Times(n: int, x: G): G
      decreases if n < 0 then -n else n
    {
      if n == 0 then zero else if n > 0 then add(Times(n - 1, x), x) else add(Times(n + 1, x), neg(x))
    }

    lemma Laws(a: G, b: G, c: G)
      requires Abelian()
      ensures add(add(a, b), c) == add(a, add(b, c)) && add(a, b) == add(b, a)
      ensures add(a, zero) == a && add(a, neg(a)) == zero
    {
    }

    lemma AddNeg(a: G, x: G)
      requires Abelian()
      ensures add(add(a, x), neg(x)) == a && add(add(a, neg(x)), x) == a
    {
      Laws(a, x, neg(x));
      Laws(a, neg(x), x);
      Laws(x, x, x);
      Laws(neg(x), x, x);
    }

    lemma TimesStep(n: int, x: G)
      requires Abelian()
      ensures Times(n + 1, x) == add(Times(n, x), x) && Times(n - 1, x) == add(Times(n, x), neg(x))
    {
      hide Abelian;
      if n < 0 {
        AddNeg(Times(n + 1, x), x);
      }
      if n > 0 {
        AddNeg(Times(n - 1, x), x);
      }
    }

    lemma {:induction false} TimesAdd(m: int, n: int, x: G)
      requires Abelian()
      ensures Times(m + n, x) == add(Times(m, x), Times(n, x))
      decreases if n < 0 then -n else n
    {
      hide Abelian;
      if n == 0 {
        Laws(Times(m, x), zero, zero);
      } else {
        var k := if n > 0 then n - 1 else n + 1;
        TimesAdd(m, k, x);
        TimesStep(m + k, x);
        TimesStep(k, x);
        Laws(Times(m, x), Times(k, x), if n > 0 then x else neg(x));
      }
    }

    /** Multiples of a negated element, and negated multiples. */
    lemma {:induction false} TimesNeg(n: int, x: G)
      requires Abelian()
      ensures Times(n, neg(x)) == Times(-n, x) && neg(Times(n, x)) == Times(-n, x)
      decreases if n < 0 then -n else n
    {
      hide Abelian;
      TimesAdd(n, -n, x);
      Inverse(Times(n, x), Times(-n, x));
      if n != 0 {
        var k := if n > 0 then n - 1 else n + 1;
        TimesNeg(k, x);
        TimesStep(-k, x);
        Laws(neg(x), x, x);
        Laws(x, neg(x), x);
        Inverse(neg(x), x);
      }
    }

    lemma Inverse(a: G, b: G)
      requires Abelian()
      ensures add(a, b) == zero ==> neg(a) == b
    {
      if add(a, b) == zero {
        AddNeg(b, a);
        Laws(a, b, neg(a));
        Laws(neg(a), zero, zero);
        Laws(zero, neg(a), zero);
        Laws(b, a, zero);
      }
    }

    /** Sums of two multiples, added. */
    lemma Merge(a: int, b: int, c: int, d: int, x: G, y: G)
      requires Abelian()
      ensures add(add(Times(a, x), Times(b, y)), add(Times(c, x), Times(d, y))) == add(Times(a + c, x), Times(b + d, y))
    {
      hide Abelian;
      TimesAdd(a, c, x);
      TimesAdd(b, d, y);
      Swap(Times(a, x), Times(b, y), Times(c, x), Times(d, y));
    }

    lemma Swap(p: G, q: G, r: G, s: G)
      requires Abelian()
      ensures add(add(p, q), add(r, s)) == add(add(p, r), add(q, s))
    {
      hide Abelian;
      Laws(add(p, q), r, s);
      Laws(p, q, r);
      Laws(q, r, s);
      Laws(p, r, q);
      Laws(add(p, r), q, s);
    }
  }

  const P_W_WIDTH: nat := 3
  const B_W_WIDTH: nat := 5
  const P_W_SIZE: nat := 2

  /** A table of the odd multiples of x. */
  ghost predicate OddMultiples<G(!new)>(g: Group<G>, lut: seq<G>, x: G) {
    forall k | 0 <= k < |lut| :: lut[k] == g.Times(2 * k + 1, x)
  }

  /** The look-up table for one point: the point, then two more of it at each step. */
  method Precompute<G(!new)>(g: Group<G>, x: G) returns (lut: seq<G>)
    requires g.Abelian()
    ensures |lut| == P_W_SIZE && OddMultiples(g, lut, x)
  {
    hide Group.Abelian, Group.Times, OddMultiples;
    var double := g.add(x, x);
    Small(g, x);
    lut := [x];
    for i := 1 to P_W_SIZE
      invariant |lut| == i && forall k | 0 <= k < i :: lut[k] == g.Times(2 * k + 1, x)
    {
      g.TimesAdd(2, 2 * i - 1, x);
      assert 2 * (i - 1) + 1 == 2 * i - 1;
      lut := lut + [g.add(double, lut[i - 1])];
    }
    Tabulated(g, lut, x);
  }

  lemma Small<G(!new)>(g: Group<G>, x: G)
    requires g.Abelian()
    ensures g.Times(1, x) == x && g.Times(2, x) == g.add(x, x) && g.Times(0, x) == g.zero && g.add(g.zero, g.zero) == g.zero
  {
    hide Group.Abelian;
    g.Laws(g.zero, x, x);
    g.Laws(x, x, x);
    assert g.Times(0, x) == g.zero && g.Times(1, x) == g.add(g.Times(0, x), x);
  }

  lemma Tabulated<G(!new)>(g: Group<G>, lut: seq<G>, x: G)
    requires forall k | 0 <= k < |lut| :: lut[k] == g.Times(2 * k + 1, x)
    ensures OddMultiples(g, lut, x)
  {
  }

  /** Adds a digit times x, from the table of odd multiples; the two guards are the code's. */
  method AddDigit<G(!new)>(g: Group<G>, sum: G, d: int, lut: seq<G>, ghost x: G, width: nat) returns (r: G)
    requires 2 <= width && (d == 0 || IsDigit(d, width))
    requires g.Abelian() && OddMultiples(g, lut, x) && |lut| == Pow2(width - 2)
    ensures r == g.add(sum, g.Times(d, x))
  {
    hide Group.Abelian;
    r := sum;
    DigitIndex(d, width);
    if d > 0 {
      r := g.add(r, lut[d / 2]);
    }
    if d < 0 {
      g.TimesNeg(-d, x);
      r := g.add(r, g.neg(lut[-d / 2]));
    }
    g.Laws(sum, g.zero, g.zero);
  }

  lemma DigitIndex(d: int, width: nat)
    requires 2 <= width && (d == 0 || IsDigit(d, width))
    ensures d > 0 ==> d / 2 < Pow2(width - 2) && 2 * (d / 2) + 1 == d
    ensures d < 0 ==> -d / 2 < Pow2(width - 2) && 2 * (-d / 2) + 1 == -d
  {
    Pow2Step(width - 1);
  }

  /** The second half of a ladder step: both digits, after the doubling. */
  method AddDigits<G(!new)>(g: Group<G>, double: G, ghost a: int, ghost b: int, hDigit: int, sDigit: int,
                            lutA: seq<G>, bWindow: seq<G>, ghost minusA: G, ghost B: G) returns (sum: G)
    requires (hDigit == 0 || IsDigit(hDigit, P_W_WIDTH)) && (sDigit == 0 || IsDigit(sDigit, B_W_WIDTH))
    requires g.Abelian() && OddMultiples(g, lutA, minusA) && OddMultiples(g, bWindow, B)
    requires |lutA| == P_W_SIZE && |bWindow| == 8
    requires double == g.add(g.Times(a, minusA), g.Times(b, B))
    ensures sum == g.add(g.Times(a + hDigit, minusA), g.Times(b + sDigit, B))
  {
    hide Group.Abelian, Group.Times, Pow2, IsDigit, OddMultiples;
    TableSizes();
    AddBoth(g, a, b, hDigit, sDigit, minusA, B);
    sum := AddDigit(g, double, hDigit, lutA, minusA, P_W_WIDTH);
    sum := AddDigit(g, sum, sDigit, bWindow, B, B_W_WIDTH);
  }

  /** [s]B - [h]A, as the signature check computes it: minusA is -A, and bWindow the fixed table for B. */
  method LadderSum<G(!new)>(g: Group<G>, minusA: G, B: G, bWindow: seq<G>, h: seq<u8>, s: seq<u8>) returns (sum: G)
    requires g.Abelian() && |bWindow| == 8 && OddMultiples(g, bWindow, B)
    requires |h| == |s| == 32 && 0 <= Val(256, h) < Pow2(253) && 0 <= Val(256, s) < Pow2(253)
    ensures sum == g.add(g.Times(Val(256, h), minusA), g.Times(Val(256, s), B))
  {
    hide Group.Abelian, Group.Times, Consistent, Val, Pow2, IsDigit, OddMultiples;
    TableSizes();
    var lutA := Precompute(g, minusA);
    var hSlide := new SlideCtx(h);
    var sSlide := new SlideCtx(s);
    var i: int := if hSlide.nextCheck >= sSlide.nextCheck then hSlide.nextCheck else sSlide.nextCheck;
    sum := g.zero;
    ghost var hAcc, sAcc := 0, 0;
    Small(g, minusA);
    Small(g, B);
    while i >= 0
      invariant -1 <= i && fresh(hSlide) && fresh(sSlide) && hSlide != sSlide
      invariant Consistent(hSlide.State(), Val(256, h), P_W_WIDTH, i, hAcc)
      invariant Consistent(sSlide.State(), Val(256, s), B_W_WIDTH, i, sAcc)
      invariant sum == g.add(g.Times(hAcc, minusA), g.Times(sAcc, B))
    {
      g.Merge(hAcc, sAcc, hAcc, sAcc, minusA, B);
      var double := g.add(sum, sum);
      var hDigit := hSlide.Step(P_W_WIDTH, i, h, hAcc);
      var sDigit := sSlide.Step(B_W_WIDTH, i, s, sAcc);
      sum := AddDigits(g, double, 2 * hAcc, 2 * sAcc, hDigit, sDigit, lutA, bWindow, minusA, B);
      hAcc, sAcc := 2 * hAcc + hDigit, 2 * sAcc + sDigit;
      i := i - 1;
    }
    AllEmitted(hSlide.State(), Val(256, h), P_W_WIDTH, hAcc);
    AllEmitted(sSlide.State(), Val(256, s), B_W_WIDTH, sAcc);
  }

  lemma TableSizes()
    ensures Pow2(P_W_WIDTH - 2) == P_W_SIZE && Pow2(B_W_WIDTH - 2) == 8
  {
    SmallPowers();
  }

  lemma AddBoth<G(!new)>(g: Group<G>, a: int, b: int, c: int, d: int, x: G, y: G)
    requires g.Abelian()
    ensures g.add(g.add(g.add(g.Times(a, x), g.Times(b, y)), g.Times(c, x)), g.Times(d, y))
         == g.add(g.Times(a + c, x), g.Times(b + d, y))
  {
    hide Group.Abelian, Group.Times;
    g.Merge(a, b, c, d, x, y);
    g.Laws(g.add(g.Times(a, x), g.Times(b, y)), g.Times(c, x), g.Times(d, y));
  }

  /** After the last step every digit has been emitted: their sum is the scalar. */
  lemma AllEmitted(t: Slide, x: nat, width: nat, acc: int)
    requires Consistent(t, x, width, -1, acc)
    ensures acc == x
  {
    assert Pow2(0) == 1;
  }
}
