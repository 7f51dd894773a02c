/** Arithmetic modulo L, the order of the base point: Barrett and Montgomery reduction. */
module ModL {
  import opened Powers
  import opened Words
  import opened Bits
  import opened Limbs

  const L_LIMBS: seq<u32> :=
    [0x5cf5d3ed, 0x5812631a, 0xa2f79cd6, 0x14def9de, 0x00000000, 0x00000000, 0x00000000, 0x10000000]

  const R_LIMBS: seq<u32> := [
    0x0a2c131b, 0xed9ce5a3, 0x086329a7, 0x2106215d, 0xffffffeb, 0xffffffff, 0xffffffff, 0xffffffff, 0xf]

  const K_LIMBS: seq<u32> := [
    0x12547e1b, 0xd2b51da3, 0xfdba84ff, 0xb1a206f2, 0xffa36bea, 0x14e75438, 0x6fe91836, 0x9db6c6f2]

  /** The prime order of the base point. */
  function L(): int {
    Val(TWO_32, L_LIMBS)
  }

  function R(): int {
    Val(TWO_32, R_LIMBS)
  }

  function K(): int {
    Val(TWO_32, K_LIMBS)
  }

  const TWO_256: nat := 0x1_0000000000000000_0000000000000000_0000000000000000_0000000000000000

  lemma Order()
    ensures |L_LIMBS| == 8 && L() == 0x1000000000000000000000000000000014def9dea2f79cd65812631a5cf5d3ed
    ensures Pow(TWO_32, 8) == TWO_256 && Pow(TWO_32, 16) == TWO_256 * TWO_256
  {
    hide Val, Pow;
    EightLimbs(L_LIMBS);
    ValZero(TWO_32, L_LIMBS[8..]);
    PowOne();
    PowSquare(1);
    PowSquare(2);
    PowSquare(4);
    PowSquare(8);
  }

  lemma Multipliers()
    ensures |R_LIMBS| == 9 && R() == 0xf_ffffffffffffffff_ffffffffffffffeb_2106215d086329a7_ed9ce5a30a2c131b
    ensures |K_LIMBS| == 8 && K() == 0x9db6c6f26fe91836_14e75438ffa36bea_b1a206f2fdba84ff_d2b51da312547e1b
  {
    hide Val;
    EightLimbs(R_LIMBS);
    HeadOf(TWO_32, R_LIMBS, 8);
    ValZero(TWO_32, R_LIMBS[9..]);
    EightLimbs(K_LIMBS);
    ValZero(TWO_32, K_LIMBS[8..]);
  }

  /** What the proofs need to know of the constants: r is 2^512 / L rounded down, and k is -1 / L modulo 2^256. */
  lemma Constants() returns (w: nat)
    ensures |L_LIMBS| == |K_LIMBS| == 8 && |R_LIMBS| == 9
    ensures 0 < L() && 2 * L() < Pow(TWO_32, 8) && 0 <= R() && 0 <= K()
    ensures R() * L() <= Pow(TWO_32, 16) < R() * L() + L()
    ensures K() * L() + 1 == Pow(TWO_32, 8) * w
  {
    hide Val, Pow, L, R, K;
    Order();
    Multipliers();
    w := 0x9db6c6f26fe9183_614e75438ffa36beb_7f5c66a973f754cc_766cca43d5f0d24;
  }

  /** ~L & mask: everything or nothing. */
  function Masked(i: nat, mask: u32): (r: nat)
    requires i < 8
  {
    And(0xffff_ffff - L_LIMBS[i], mask)
  }

  lemma MaskedIs(i: nat)
    requires i < 8
    ensures Masked(i, 0) == 0 && Masked(i, 0xffff_ffff) == Complement(L_LIMBS)[i]
  {
    hide And;
    WordPowers();
    AndMask(0xffff_ffff - L_LIMBS[i], 32);
    AndAtMost(0xffff_ffff - L_LIMBS[i], 0);
  }

  /** Whether x >= L: the carry of x - L in two's complement. */
  method IsAboveL(x: array<u32>, xo: nat) returns (carry: u64)
    requires xo + 8 <= x.Length
    ensures carry <= 1 && (carry == 1 <==> Val(TWO_32, x[xo..xo + 8]) >= L())
  {
    hide Val, Pow;
    carry := 1;
    ghost var q: seq<u32> := [];
    ghost var w := Constants();
    ghost var y: seq<u32> := Complement(L_LIMBS);
    RowStart(x[..], xo, y);
    for i := 0 to 8
      invariant carry <= 1 && |q| == i
      invariant Val(TWO_32, q) + Pow(TWO_32, i) * carry == Val(TWO_32, x[xo..xo + i]) + Val(TWO_32, y[..i]) + 1
    {
      var sum: u64 := carry + x[xo + i] + (0xffff_ffff - L_LIMBS[i]);
      assert x[xo..xo + i + 1] == x[xo..xo + i] + [x[xo + i]] && y[..i + 1] == y[..i] + [y[i]];
      SumStep(q, x[xo..xo + i], y[..i], carry, x[xo + i], y[i], 1, i, sum);
      q := q + [sum % TWO_32];
      carry := sum / TWO_32;
    }
    assert y[..8] == y;
    ComplementVal(L_LIMBS);
    ValBound(TWO_32, q);
    Compared(Pow(TWO_32, 8), Val(TWO_32, q), Val(TWO_32, x[xo..xo + 8]), L(), carry);
  }

  lemma Compared(p: nat, q: nat, x: int, l: int, carry: nat)
    requires q < p && carry <= 1 && q + p * carry == x + (p - 1 - l) + 1
    ensures carry == 1 <==> x >= l
  {
  }

  /** r = x mod L for x below 2 * L; r may be x. */
  method RemoveL(r: array<u32>, x: array<u32>, xo: nat)
    requires r.Length >= 8 && xo + 8 <= x.Length && (r != x || xo == 0)
    requires Val(TWO_32, x[xo..xo + 8]) < 2 * L()
    modifies r
    ensures L() > 0 && Val(TWO_32, r[..8]) == Val(TWO_32, old(x[xo..xo + 8])) % L() && r[8..] == old(r[8..])
  {
    hide Val, Pow, L, Masked;
    var carry: u64 := IsAboveL(x, xo);
    ghost var above: u64 := carry;
    var mask: u32 := if carry == 1 then 0xffff_ffff else 0;
    ghost var x0: seq<u32> := x[xo..xo + 8];
    ghost var y: seq<u32> := if carry == 1 then Complement(L_LIMBS) else seq(8, i => 0);
    ghost var w := Constants();
    RowStart(x0, 0, y);
    RowStart(r[..], 0, y);
    for i := 0 to 8
      invariant carry <= 1 && above <= 1 && r[8..] == old(r[8..]) && forall j | i <= j < 8 :: x[xo + j] == x0[j]
      invariant Val(TWO_32, r[..i]) + Pow(TWO_32, i) * carry == Val(TWO_32, x0[..i]) + Val(TWO_32, y[..i]) + above
    {
      MaskedIs(i);
      assert Masked(i, mask) == y[i];
      var sum: u64 := carry + x[xo + i] + Masked(i, mask);
      assert x0[..i + 1] == x0[..i] + [x0[i]] && y[..i + 1] == y[..i] + [y[i]];
      SumStep(r[..i], x0[..i], y[..i], carry, x0[i], y[i], above, i, sum);
      ghost var before := r[..i];
      r[i] := sum % TWO_32;
      carry := sum / TWO_32;
      assert r[..i + 1] == before + [sum % TWO_32];
    }
    assert x0[..8] == x0 && y[..8] == y;
    OrderVal();
    ComplementVal(L_LIMBS);
    ValZero(TWO_32, seq(8, i => 0));
    ValBound(TWO_32, r[..8]);
    ValBound(TWO_32, x0);
    Removed(Pow(TWO_32, 8), L(), Val(TWO_32, r[..8]), Val(TWO_32, x0), above, carry);
  }

  lemma OrderVal()
    ensures Val(TWO_32, L_LIMBS) == L() && Val(TWO_32, R_LIMBS) == R() && Val(TWO_32, K_LIMBS) == K()
  {
  }

  lemma Removed(p: nat, l: nat, r: nat, x: nat, above: nat, carry: nat)
    requires 0 < l && 2 * l < p && r < p && x < 2 * l && carry <= 1 && above <= 1 && (above == 1 <==> x >= l)
    requires r + p * carry == x + (if above == 1 then p - 1 - l else 0) + above
    ensures r == x % l
  {
    DivModUnique(x, l, above, if above == 1 then x - l else x);
  }

  /** The estimated quotient is at most one too small. */
  lemma Barrett(p: nat, r: nat, l: nat, x: nat, q: int, lo: nat)
    requires r * l <= p < r * l + l && x < p && lo < p && x * r == lo + p * q
    ensures 0 <= x - q * l < 2 * l
  {
    var e := p - r * l;
    var d := x - q * l;
    BarrettArith(p, r, l, x, q, lo, e);
    MulMonotone(x, 0, e);
    MulMonotone(x, e, l);
    MulMonotone(l, x, p);
    MulMonotone(l, lo, p);
    MulMonotone(l, 0, lo);
    if d < 0 { MulMonotone(p, d, -1); }
    if d >= 2 * l { MulMonotone(p, 2 * l, d); }
    BarrettStrict(p, l, x, lo, e);
  }

  lemma BarrettArith(p: int, r: int, l: int, x: int, q: int, lo: int, e: int)
    requires e == p - r * l && x * r == lo + p * q
    ensures p * (x - q * l) == x * e + lo * l
  {
    MulAssoc(x, r, l);
    MulDistribute(x, p, r * l);
    MulDistribute(p, x, q * l);
    MulAssoc(p, q, l);
    MulDistribute(l, lo, p * q);
    MulAssoc(l, x * r, 0);
  }

  lemma BarrettStrict(p: nat, l: nat, x: nat, lo: nat, e: nat)
    requires x < p && lo < p && e < l
    ensures x * e + lo * l < p * (2 * l)
  {
    MulMonotone(x, e, l);
    MulMonotone(l, x, p - 1);
    MulMonotone(l, lo, p - 1);
    MulDistribute(l, p, 1);
    MulAssoc(p, 2, l);
    MulAssoc(2, p, l);
  }

  /** The quotient is read off the limbs of x * r above 2^512. */
  lemma Quotient(xr: seq<u32>, x: seq<u32>) returns (q: nat)
    requires |xr| == 25 && |x| == 16 && Val(TWO_32, xr) == R() * Val(TWO_32, x)
    ensures q == Val(TWO_32, xr[16..24]) + Pow(TWO_32, 8) * xr[24]
    ensures 0 <= Val(TWO_32, x) - q * L() < 2 * L()
  {
    hide Val, Pow, L, R, K;
    var w := Constants();
    ValBound(TWO_32, x);
    ValBound(TWO_32, xr[..16]);
    ValBound(TWO_32, xr[16..24]);
    ValSplit(TWO_32, xr, 16);
    assert xr[16..] == xr[16..24] + [xr[24]];
    ValSnoc(TWO_32, xr[16..24], xr[24]);
    q := Val(TWO_32, xr[16..24]) + Pow(TWO_32, 8) * xr[24];
    Barrett(Pow(TWO_32, 16), R(), L(), Val(TWO_32, x), q, Val(TWO_32, xr[..16]));
  }

  /** It is enough to subtract modulo p. */
  lemma BarrettLow(p: nat, l: nat, r: int, x: int, lo: int, hi: int, a: int, h: int, q: int, v: int, t: int, c: int)
    requires 0 < l && 2 * l < p && 0 <= r < p && x == lo + p * hi && q == a + p * h
    requires v + p * t == a * l && r + p * c == lo + p - v
    requires 0 <= x - q * l < 2 * l
    ensures r == x - q * l && r % l == x % l
  {
    var z := t + h * l + 1 - c - hi;
    assert r == x - q * l + p * z by {
      MulAssoc(p, h, l);
      MulDistribute(l, a, p * h);
      BarrettZ(p, t, h * l, c, hi);
    }
    SameResidue(p, r, x - q * l, z);
    ModMultiple(x - q * l, q, l);
  }

  lemma BarrettZ(p: int, t: int, hl: int, c: int, hi: int)
    ensures p * (t + hl + 1 - c - hi) == p * t + p * hl + p - p * c - p * hi
  {
  }

  /** Full reduction of a 512-bit number modulo L. */
  method Reduce(reduced: array<u8>, x: seq<u32>)
    requires |x| == 16 && reduced.Length == 32
    modifies reduced
    ensures L() > 0 && Val(256, reduced[..]) == Val(TWO_32, x) % L()
  {
    hide Val, Pow, L, R, K;
    var xr := new u32[25](i => 0);
    ghost var w := Constants();
    OrderVal();
    ValZero(TWO_32, xr[..16]);
    Multiply(xr, R_LIMBS, x);
    ghost var q := Quotient(xr[..], x);
    ghost var a, h := xr[16..24], xr[24];
    assert xr[..][16..24] == a;
    ZeroLow(xr);
    assert xr[16..24] == a by { assert xr[8..][8..16] == xr[16..24]; }
    ValZero(TWO_32, xr[..8]);
    ghost var t := MultiplyLow(xr, xr[16..24], L_LIMBS);
    ghost var v := Val(TWO_32, xr[..8]);
    ghost var c := SubtractFrom(xr, x);
    LowHalf(x);
    ValBound(TWO_32, xr[..8]);
    BarrettLow(Pow(TWO_32, 8), L(), Val(TWO_32, xr[..8]), Val(TWO_32, x), Val(TWO_32, x[..8]), Val(TWO_32, x[8..]),
               Val(TWO_32, a), h, q, v, t, c);
    assert xr[0..0 + 8] == xr[..8];
    RemoveL(xr, xr, 0);
    StoreBuf(reduced, xr[..8]);
  }

  /** x / 2^256 modulo L, for x < L * 2^256. */
  method Redc(u: array<u32>, x: seq<u32>)
    requires u.Length == 8 && |x| == 16 && Val(TWO_32, x) < L() * Pow(TWO_32, 8)
    modifies u
    ensures 0 <= Val(TWO_32, u[..]) < L()
    ensures Val(TWO_32, u[..]) * Pow(TWO_32, 8) % L() == Val(TWO_32, x) % L()
  {
    hide Val, Pow, L, R, K;
    OrderVal();
    var s := new u32[8](i => 0);
    ValZero(TWO_32, s[..8]);
    ghost var w0 := Constants();
    ghost var t1 := MultiplyLow(s, x[..8], K_LIMBS);
    assert s[..8] == s[..];
    var t := new u32[16](i => 0);
    ValZero(TWO_32, t[..8]);
    Multiply(t, s[..], L_LIMBS);
    LowHalf(x);
    ValBound(TWO_32, s[..]);
    ValBound(TWO_32, x);
    ghost var p, sv, xv := Pow(TWO_32, 8), Val(TWO_32, s[..]), Val(TWO_32, x);
    ghost var w := Montgomery(p, L(), K(), w0, sv, xv, Val(TWO_32, x[..8]), Val(TWO_32, x[8..]), t1);
    PowSquare(8);
    AddTo(t, x);
    LowHalf(t[..]);
    ValBound(TWO_32, t[..8]);
    assert t[..][8..] == t[8..8 + 8] && t[..][..8] == t[..8];
    DivModUnique(sv * L() + xv, p, w, 0);
    DivModUnique(sv * L() + xv, p, Val(TWO_32, t[8..8 + 8]), Val(TWO_32, t[..8]));
    RemoveL(u, t, 8);
    assert u[..8] == u[..];
    MontgomeryMod(p, L(), w, sv, xv, Val(TWO_32, u[..]));
  }

  lemma Montgomery(p: nat, l: nat, k: nat, w0: nat, s: nat, x: nat, lo: int, hi: int, t1: int) returns (w: nat)
    requires 2 * l < p && s < p && x < l * p && x == lo + p * hi && s + p * t1 == lo * k && k * l + 1 == p * w0
    ensures s * l + x == p * w && w < 2 * l && s * l + x < p * p
  {
    var z := lo * w0 + hi - t1 * l;
    MontgomeryEq(p, l, k, w0, s, lo, hi, t1, p * t1, k * l);
    MontgomeryBound(p, l, s, x, z);
    w := z;
  }

  lemma MontgomeryEq(p: int, l: int, k: int, w0: int, s: int, lo: int, hi: int, t1: int, pt: int, kl: int)
    requires pt == p * t1 && s + pt == lo * k && kl == k * l && kl + 1 == p * w0
    ensures s * l + (lo + p * hi) == p * (lo * w0 + hi - t1 * l)
  {
    MulDistribute(l, s, pt);
    MulAssoc(p, t1, l);
    MulAssoc(lo, k, l);
    MulDistribute(lo, kl, 1);
    MulAssoc(lo, p, w0);
    MulAssoc(p, lo, w0);
    MontgomerySum(p, lo * w0, hi, t1 * l);
  }

  lemma MontgomeryBound(p: nat, l: nat, s: nat, x: nat, z: int)
    requires 2 * l < p && s < p && x < l * p && s * l + x == p * z
    ensures 0 <= z < 2 * l && s * l + x < p * p
  {
    MulMonotone(l, s, p);
    MulMonotone(p, 2 * l, p);
    MulAssoc(l, p, 2);
    MulAssoc(2, l, p);
    if z < 0 { MulMonotone(p, z, -1); }
    if z >= 2 * l { MulMonotone(p, 2 * l, z); }
  }

  lemma MontgomerySum(p: int, a: int, hi: int, b: int)
    ensures p * (a + hi - b) == p * a + p * hi - p * b
  {
  }

  lemma MontgomeryMod(p: nat, l: nat, w: nat, s: nat, x: nat, u: int)
    requires l > 0 && s * l + x == p * w && u == w % l
    ensures 0 <= u < l && u * p % l == x % l
  {
    var q := w / l;
    ModMultiple(x, s, l);
    DivModUnique(w, l, q, u);
    MontgomeryQuotient(p, l, q, u, w);
    ModMultiple(u * p, q * p, l);
  }

  lemma MontgomeryQuotient(p: int, l: int, q: int, u: int, w: int)
    requires w == l * q + u
    ensures p * w == u * p + (q * p) * l
  {
    MulDistribute(p, l * q, u);
    MulAssoc(q, p, l);
    MulAssoc(p, l, q);
  }
}
