/** Fields, given by their operations, and polynomials over them. */
module Fields {

  datatype Field<!F(!new)> = Field(zero: F, one: F, add: (F, F) -> F, neg: F -> F, mul: (F, F) -> F, inv: F -> F) {

    ghost predicate Ok() {
      && (forall a, b, c :: add(add(a, b), c) == add(a, add(b, c)))
      && (forall a, b :: add(a, b) == add(b, a))
      && (forall a :: add(a, zero) == a && add(a, neg(a)) == zero)
      && (forall a, b, c :: mul(mul(a, b), c) == mul(a, mul(b, c)))
      && (forall a, b :: mul(a, b) == mul(b, a))
      && (forall a :: mul(a, one) == a)
      && (forall a, b, c :: mul(a, add(b, c)) == add(mul(a, b), mul(a, c)))
      && (forall a :: a != zero ==> mul(a, inv(a)) == one)
      && zero != one
    }

    function Sub(a: F, b: F): F {
      add(a, neg(b))
    }

    function Div(a: F, b: F): F {
      mul(a, inv(b))
    }

    lemma Sums(a: F, b: F, c: F)
      requires Ok()
      ensures add(add(a, b), c) == add(a, add(b, c)) && add(a, b) == add(b, a)
      ensures add(a, zero) == a && add(a, neg(a)) == zero
    {
    }

    lemma Products(a: F, b: F, c: F)
      requires Ok()
      ensures mul(mul(a, b), c) == mul(a, mul(b, c)) && mul(a, b) == mul(b, a)
      ensures mul(a, one) == a && zero != one
      ensures a != zero ==> mul(a, inv(a)) == one
    {
    }

    lemma Distribute(a: F, b: F, c: F)
      requires Ok()
      ensures mul(a, add(b, c)) == add(mul(a, b), mul(a, c))
      ensures mul(add(b, c), a) == add(mul(b, a), mul(c, a))
    {
      assert mul(add(b, c), a) == mul(a, add(b, c));
      assert mul(b, a) == mul(a, b) && mul(c, a) == mul(a, c);
    }

    /** Adding the same element to both sides. */
    lemma Cancel(a: F, b: F, c: F)
      requires Ok()
      ensures add(a, c) == add(b, c) ==> a == b
    {
      hide Ok;
      Sums(a, c, neg(c));
      Sums(b, c, neg(c));
      Sums(c, c, c);
      Sums(a, zero, zero);
      Sums(b, zero, zero);
    }

    lemma Zeros(a: F)
      requires Ok()
      ensures mul(a, zero) == zero && mul(zero, a) == zero && add(zero, a) == a && neg(zero) == zero
    {
      hide Ok;
      Distribute(a, zero, zero);
      Sums(zero, zero, zero);
      Sums(mul(a, zero), zero, zero);
      Sums(zero, mul(a, zero), zero);
      Cancel(mul(a, zero), zero, mul(a, zero));
      Products(a, zero, zero);
      Sums(zero, a, zero);
      Sums(a, zero, zero);
      Sums(zero, neg(zero), zero);
      Sums(neg(zero), zero, zero);
    }

    lemma Negatives(a: F, b: F)
      requires Ok()
      ensures mul(a, neg(b)) == neg(mul(a, b)) && mul(neg(a), b) == neg(mul(a, b))
      ensures neg(add(a, b)) == add(neg(a), neg(b)) && neg(neg(a)) == a
    {
      hide Ok;
      MulNeg(a, b);
      MulNeg(b, a);
      Products(a, b, b);
      Products(neg(a), b, b);
      NegUnique(add(a, b), add(neg(a), neg(b)));
      Swap(a, b, neg(a), neg(b));
      Sums(a, a, a);
      Sums(b, b, b);
      Sums(zero, zero, zero);
      NegUnique(neg(a), a);
      Sums(neg(a), a, a);
    }

    lemma MulNeg(a: F, b: F)
      requires Ok()
      ensures mul(a, neg(b)) == neg(mul(a, b))
    {
      hide Ok;
      Distribute(a, b, neg(b));
      Sums(b, b, b);
      Zeros(a);
      NegUnique(mul(a, b), mul(a, neg(b)));
    }

    lemma NegUnique(a: F, b: F)
      requires Ok()
      ensures add(a, b) == zero ==> neg(a) == b
    {
      hide Ok;
      Sums(a, b, neg(a));
      Sums(a, neg(a), neg(a));
      Sums(b, a, neg(a));
      Sums(b, zero, zero);
      Sums(zero, neg(a), neg(a));
      Sums(neg(a), zero, zero);
    }

    lemma Swap(p: F, q: F, r: F, s: F)
      requires Ok()
      ensures add(add(p, q), add(r, s)) == add(add(p, r), add(q, s))
    {
      hide Ok;
      Sums(add(p, q), r, s);
      Sums(p, q, r);
      Sums(q, r, s);
      Sums(p, r, q);
      Sums(add(p, r), q, s);
    }

    /** A product is zero only if a factor is. */
    lemma NoZeroDivisors(a: F, b: F)
      requires Ok()
      ensures mul(a, b) == zero ==> a == zero || b == zero
    {
      hide Ok;
      if mul(a, b) == zero && a != zero {
        Products(inv(a), a, b);
        Products(a, inv(a), b);
        Zeros(inv(a));
        Products(b, one, one);
        Products(one, b, b);
      }
    }

    lemma DifferenceZero(a: F, b: F)
      requires Ok()
      ensures Sub(a, b) == zero <==> a == b
      ensures add(Sub(a, b), b) == a && Sub(add(a, b), b) == a
    {
      hide Ok;
      Sums(a, neg(b), b);
      Sums(neg(b), b, b);
      Sums(b, neg(b), b);
      Sums(a, zero, zero);
      Sums(a, b, neg(b));
      Zeros(b);
      Sums(zero, b, b);
    }
  }
}
