/** Products of x - x_l over lists of points, and the weighted sums of such products that interpolate. */
module PointProducts {
  import opened Fields
  import opened Polynomials

  ghost predicate InRange(list: seq<nat>, n: nat) {
    forall i | 0 <= i < |list| :: list[i] < n
  }

  /** The product of t - x_l over the list. */
  function RootProduct<F(!new)>(f: Field<F>, x: seq<F>, list: seq<nat>, t: F): F
    requires InRange(list, |x|)
  {
    if list == [] then f.one
    else f.mul(RootProduct(f, x, list[..|list| - 1], t), f.Sub(t, x[list[|list| - 1]]))
  }

  /** The sum of w_l times the product over all other entries of the list. */
  function WeightedSum<F(!new)>(f: Field<F>, x: seq<F>, w: seq<F>, list: seq<nat>, t: F): F
    requires InRange(list, |x|) && |w| == |x|
  {
    if list == [] then f.zero
    else
      var front, l := list[..|list| - 1], list[|list| - 1];
      f.add(f.mul(WeightedSum(f, x, w, front, t), f.Sub(t, x[l])), f.mul(w[l], RootProduct(f, x, front, t)))
  }

  lemma {:induction false} ProductAppend<F(!new)>(f: Field<F>, x: seq<F>, a: seq<nat>, b: seq<nat>, t: F)
    requires f.Ok() && InRange(a, |x|) && InRange(b, |x|)
    ensures InRange(a + b, |x|)
    ensures RootProduct(f, x, a + b, t) == f.mul(RootProduct(f, x, a, t), RootProduct(f, x, b, t))
    decreases |b|
  {
    hide Field.Ok;
    if b == [] {
      assert a + b == a;
      f.Products(RootProduct(f, x, a, t), t, t);
    } else {
      var m := |b| - 1;
      assert (a + b)[..|a + b| - 1] == a + b[..m];
      ProductAppend(f, x, a, b[..m], t);
      f.Products(RootProduct(f, x, a, t), RootProduct(f, x, b[..m], t), f.Sub(t, x[b[m]]));
    }
  }

  /** (s * q + r * u) * d + w * (r * q) == s * (q * d) + (u * d + w * q) * r */
  lemma SumAlgebra<F(!new)>(f: Field<F>, s: F, q: F, r: F, u: F, d: F, w: F)
    requires f.Ok()
    ensures f.add(f.mul(f.add(f.mul(s, q), f.mul(u, r)), d), f.mul(w, f.mul(r, q)))
         == f.add(f.mul(s, f.mul(q, d)), f.mul(f.add(f.mul(u, d), f.mul(w, q)), r))
  {
    hide Field.Ok;
    f.Distribute(d, f.mul(s, q), f.mul(u, r));
    f.Products(s, q, d);
    f.Products(u, r, d);
    f.Products(r, d, d);
    f.Products(u, d, r);
    f.Products(w, r, q);
    f.Products(w, q, r);
    f.Products(r, q, q);
    f.Distribute(r, f.mul(u, d), f.mul(w, q));
    f.Sums(f.mul(s, f.mul(q, d)), f.mul(u, f.mul(r, d)), f.mul(w, f.mul(r, q)));
  }

  lemma {:induction false} SumAppend<F(!new)>(f: Field<F>, x: seq<F>, w: seq<F>, a: seq<nat>, b: seq<nat>, t: F)
    requires f.Ok() && InRange(a, |x|) && InRange(b, |x|) && |w| == |x|
    ensures InRange(a + b, |x|)
    ensures WeightedSum(f, x, w, a + b, t)
         == f.add(f.mul(WeightedSum(f, x, w, a, t), RootProduct(f, x, b, t)), f.mul(WeightedSum(f, x, w, b, t), RootProduct(f, x, a, t)))
    decreases |b|
  {
    hide Field.Ok;
    var s, r := WeightedSum(f, x, w, a, t), RootProduct(f, x, a, t);
    if b == [] {
      assert a + b == a;
      f.Products(s, t, t);
      f.Zeros(r);
      f.Sums(s, f.zero, f.zero);
    } else {
      var m := |b| - 1;
      var l := b[m];
      assert (a + b)[..|a + b| - 1] == a + b[..m];
      SumAppend(f, x, w, a, b[..m], t);
      ProductAppend(f, x, a, b[..m], t);
      SumAlgebra(f, s, RootProduct(f, x, b[..m], t), r, WeightedSum(f, x, w, b[..m], t), f.Sub(t, x[l]), w[l]);
    }
  }

  lemma One<F(!new)>(f: Field<F>, x: seq<F>, w: seq<F>, k: nat, t: F)
    requires f.Ok() && k < |x| == |w|
    ensures RootProduct(f, x, [k], t) == f.Sub(t, x[k]) && WeightedSum(f, x, w, [k], t) == w[k]
  {
    hide Field.Ok;
    assert [k][..0] == [];
    f.Products(f.one, f.Sub(t, x[k]), t);
    f.Products(f.Sub(t, x[k]), t, t);
    f.Zeros(f.Sub(t, x[k]));
    f.Products(w[k], t, t);
    f.Zeros(w[k]);
  }

  /** At a point of the list the product vanishes. */
  lemma {:induction false} RootVanishes<F(!new)>(f: Field<F>, x: seq<F>, list: seq<nat>, k: nat)
    requires f.Ok() && InRange(list, |x|) && k in list
    ensures k < |x| && RootProduct(f, x, list, x[k]) == f.zero
    decreases |list|
  {
    hide Field.Ok;
    var m := |list| - 1;
    var p := RootProduct(f, x, list[..m], x[k]);
    if list[m] == k {
      f.DifferenceZero(x[k], x[k]);
      f.Zeros(p);
    } else {
      assert list == list[..m] + [list[m]];
      RootVanishes(f, x, list[..m], k);
      f.Zeros(f.Sub(x[k], x[list[m]]));
    }
  }

  lemma {:induction false} ProductNonZero<F(!new)>(f: Field<F>, x: seq<F>, list: seq<nat>, t: F)
    requires f.Ok() && InRange(list, |x|) && forall l | l in list :: x[l] != t
    ensures RootProduct(f, x, list, t) != f.zero
  {
    hide Field.Ok;
    f.Products(t, t, t);
    if list != [] {
      var m := |list| - 1;
      ProductNonZero(f, x, list[..m], t);
      f.DifferenceZero(t, x[list[m]]);
      f.NoZeroDivisors(RootProduct(f, x, list[..m], t), f.Sub(t, x[list[m]]));
    }
  }

  /** At the point k of a list without repetition only the term of k is left. */
  lemma SumAtPoint<F(!new)>(f: Field<F>, x: seq<F>, w: seq<F>, a: seq<nat>, k: nat, b: seq<nat>)
    requires f.Ok() && |w| == |x| && k < |x| && InRange(a, |x|) && InRange(b, |x|)
    ensures InRange(a + [k] + b, |x|) && InRange(a + b, |x|)
    ensures WeightedSum(f, x, w, a + [k] + b, x[k]) == f.mul(w[k], RootProduct(f, x, a + b, x[k]))
  {
    hide Field.Ok;
    var t := x[k];
    var sa, ra, rb, sb := WeightedSum(f, x, w, a, t), RootProduct(f, x, a, t), RootProduct(f, x, b, t), WeightedSum(f, x, w, b, t);
    One(f, x, w, k, t);
    f.DifferenceZero(t, t);
    SumAppend(f, x, w, a, [k], t);
    ProductAppend(f, x, a, [k], t);
    SumAppend(f, x, w, a + [k], b, t);
    ProductAppend(f, x, a, b, t);
    f.Zeros(sa);
    f.Zeros(ra);
    f.Zeros(f.mul(w[k], ra));
    f.Zeros(sb);
    f.Products(w[k], ra, rb);
    f.Sums(f.mul(w[k], f.mul(ra, rb)), f.zero, f.zero);
  }
}
