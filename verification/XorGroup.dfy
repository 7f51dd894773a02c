/** GF(2^k) under addition: polynomials over GF(2), kept as the set of their non-zero exponents. */
module XorGroup {
  type GF = set<nat>

  const Zero: GF := {}

  function Xor(a: GF, b: GF): GF {
    (a - b) + (b - a)
  }

  lemma XorLaws(a: GF, b: GF, c: GF)
    ensures Xor(Xor(a, b), c) == Xor(a, Xor(b, c))
    ensures Xor(a, b) == Xor(b, a)
    ensures Xor(a, a) == Zero && Xor(a, Zero) == a
  {
  }

  function XorSum(s: seq<GF>): GF {
    if s == [] then Zero else Xor(XorSum(s[..|s| - 1]), s[|s| - 1])
  }

  lemma XorSumSnoc(s: seq<GF>, x: GF)
    ensures XorSum(s + [x]) == Xor(XorSum(s), x)
  {
    assert (s + [x])[..|s|] == s;
  }

  lemma {:induction false} XorSumAppend(s: seq<GF>, r: seq<GF>)
    ensures XorSum(s + r) == Xor(XorSum(s), XorSum(r))
    decreases |r|
  {
    if r == [] {
      assert s + r == s;
      XorLaws(XorSum(s), Zero, Zero);
    } else {
      var k := |r| - 1;
      assert s + r == (s + r[..k]) + [r[k]] && r == r[..k] + [r[k]];
      XorSumAppend(s, r[..k]);
      XorSumSnoc(s + r[..k], r[k]);
      XorSumSnoc(r[..k], r[k]);
      XorLaws(XorSum(s), XorSum(r[..k]), r[k]);
    }
  }
}
