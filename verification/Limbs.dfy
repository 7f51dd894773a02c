/** Numbers as arrays of 32-bit limbs: rows of a multiplication, sums with a carry, and their bytes. */
module Limbs {
  import opened Powers
  import opened Words

  lemma PowOne()
    ensures Pow(TWO_32, 0) == 1 && Pow(TWO_32, 1) == TWO_32
  {
  }

  lemma PowSquare(n: nat)
    ensures Pow(TWO_32, 2 * n) == Pow(TWO_32, n) * Pow(TWO_32, n)
  {
    PowAdd(TWO_32, n, n);
    assert n + n == 2 * n;
  }

  lemma ProductBound(a: u32, b: u32)
    ensures 0 <= a * b <= (TWO_32 - 1) * (TWO_32 - 1)
  {
    MulMonotone(a, b, TWO_32 - 1);
    MulMonotone(TWO_32 - 1, a, TWO_32 - 1);
    MulMonotone(a, 0, b);
  }

  lemma RowStart(p: seq<u32>, i: nat, y: seq<u32>)
    requires i <= |p|
    ensures Val(TWO_32, p[i..i + 0]) == 0 && Val(TWO_32, y[..0]) == 0 && Pow(TWO_32, 0) == 1
  {
  }

  lemma RowStep(q: seq<int>, q0: seq<int>, y: seq<int>, carry: nat, limb: int, a: int, b: int, j: nat, sum: nat)
    requires |q| == |q0| == |y| == j && sum == carry + limb + a * b
    requires Val(TWO_32, q) + Pow(TWO_32, j) * carry == Val(TWO_32, q0) + a * Val(TWO_32, y)
    ensures Val(TWO_32, q + [sum % TWO_32]) + Pow(TWO_32, j + 1) * (sum / TWO_32)
         == Val(TWO_32, q0 + [limb]) + a * Val(TWO_32, y + [b])
  {
    var p := Pow(TWO_32, j);
    ValSnoc(TWO_32, q, sum % TWO_32);
    ValSnoc(TWO_32, q0, limb);
    ValSnoc(TWO_32, y, b);
    Carried(p, carry, limb, a, b, sum, Val(TWO_32, y));
  }

  lemma Carried(p: int, carry: int, limb: int, a: int, b: int, sum: int, y: int)
    requires sum == carry + limb + a * b
    ensures p * (sum % TWO_32) + (TWO_32 * p) * (sum / TWO_32) == p * carry + p * limb + a * (p * b)
    ensures a * (y + p * b) == a * y + a * (p * b)
  {
    var lo, hi := sum % TWO_32, sum / TWO_32;
    assert sum == TWO_32 * hi + lo;
    assert p * sum == p * (TWO_32 * hi) + p * lo;
    assert p * (TWO_32 * hi) == (TWO_32 * p) * hi;
    assert p * sum == p * carry + p * limb + p * (a * b);
    assert p * (a * b) == a * (p * b);
  }

  /** One row of a schoolbook multiplication: adds a * y to m limbs of p, and returns the carry. */
  method AddRow(p: array<u32>, i: nat, m: nat, a: u32, y: seq<u32>) returns (c: u32)
    requires i + m <= p.Length && m <= |y|
    modifies p
    ensures p[..i] == old(p[..i]) && p[i + m..] == old(p[i + m..])
    ensures Val(TWO_32, p[i..i + m]) + Pow(TWO_32, m) * c == Val(TWO_32, old(p[i..i + m])) + a * Val(TWO_32, y[..m])
  {
    hide Val, Pow;
    var carry: u64 := 0;
    ghost var p0 := p[..];
    RowStart(p0, i, y);
    for j := 0 to m
      invariant carry < TWO_32 && |p0| == p.Length
      invariant p[..i] == p0[..i] && p[i + j..] == p0[i + j..]
      invariant Val(TWO_32, p[i..i + j]) + Pow(TWO_32, j) * carry == Val(TWO_32, p0[i..i + j]) + a * Val(TWO_32, y[..j])
    {
      ProductBound(a, y[j]);
      var sum: u64 := carry + p[i + j] + a * y[j];
      ghost var before := p[i..i + j];
      RowStep(before, p0[i..i + j], y[..j], carry, p0[i + j], a, y[j], j, sum);
      assert p0[i..i + j + 1] == p0[i..i + j] + [p0[i + j]] && y[..j + 1] == y[..j] + [y[j]];
      p[i + j] := sum % TWO_32;
      carry := sum / TWO_32;
      assert p[i..i + j + 1] == before + [sum % TWO_32];
    }
    c := carry;
  }

  lemma NoRows(b: nat, a: seq<int>, y: int)
    ensures Val(b, a[..0]) * y == 0
  {
  }

  lemma RowAdded(q: seq<int>, r: seq<int>, i: nat, m: nat, a: int, carry: int, y: int)
    requires i + m < |q| == |r| && r[..i] == q[..i] && r[i + m] == carry
    requires Val(TWO_32, r[i..i + m]) + Pow(TWO_32, m) * carry == Val(TWO_32, q[i..i + m]) + a * y
    ensures Val(TWO_32, r[..i + m + 1]) == Val(TWO_32, q[..i + m]) + Pow(TWO_32, i) * (a * y)
  {
    hide Val, Pow;
    var b := TWO_32;
    assert r[..i + m + 1] == r[..i] + r[i..i + m] + [carry] && q[..i + m] == q[..i] + q[i..i + m];
    ValSnoc(b, r[..i] + r[i..i + m], carry);
    ValAppend(b, r[..i], r[i..i + m]);
    ValAppend(b, q[..i], q[i..i + m]);
    PowAdd(b, i, m);
    MulAssoc(Pow(b, i), Pow(b, m), carry);
    MulDistribute(Pow(b, i), Val(b, r[i..i + m]), Pow(b, m) * carry);
    MulDistribute(Pow(b, i), Val(b, q[i..i + m]), a * y);
  }

  lemma MoreRows(a: seq<int>, d: int, i: nat, y: int)
    requires |a| == i
    ensures Val(TWO_32, a + [d]) * y == Val(TWO_32, a) * y + Pow(TWO_32, i) * (d * y)
  {
    hide Val, Pow;
    ValSnoc(TWO_32, a, d);
    MulDistribute(y, Val(TWO_32, a), Pow(TWO_32, i) * d);
    MulAssoc(Pow(TWO_32, i), d, y);
  }

  /** p = a * y + p, where only the low |y| limbs of p count: the others are overwritten. */
  method Multiply(p: array<u32>, a: seq<u32>, y: seq<u32>)
    requires p.Length == |a| + |y|
    modifies p
    ensures Val(TWO_32, p[..]) == Val(TWO_32, a) * Val(TWO_32, y) + Val(TWO_32, old(p[..|y|]))
  {
    hide Val, Pow;
    var m := |y|;
    ghost var p0 := p[..m];
    NoRows(TWO_32, a, Val(TWO_32, y));
    assert p[..0 + m] == p0;
    for i := 0 to |a|
      invariant Val(TWO_32, p[..i + m]) == Val(TWO_32, a[..i]) * Val(TWO_32, y) + Val(TWO_32, p0)
    {
      ghost var q := p[..];
      var carry := AddRow(p, i, m, a[i], y);
      assert y[..m] == y;
      p[i + m] := carry;
      ghost var r := p[..];
      assert r[i..i + m] == p[i..i + m] && r[..i] == q[..i];
      RowAdded(q, r, i, m, a[i], carry, Val(TWO_32, y));
      assert a[..i + 1] == a[..i] + [a[i]];
      MoreRows(a[..i], a[i], i, Val(TWO_32, y));
      assert r[..i + 1 + m] == r[..i + m + 1];
    }
    assert a[..|a|] == a && p[..|a| + m] == p[..];
  }

  lemma CutMore(p: int, t: int, u: int)
    ensures p * (t + u) == p * t + p * u
  {
  }

  lemma CutRow(q: seq<int>, r: seq<int>, i: nat, a: int, carry: int, y: seq<int>)
    requires i <= |q| == |r| == |y| && r[..i] == q[..i]
    requires Val(TWO_32, r[i..]) + Pow(TWO_32, |y| - i) * carry == Val(TWO_32, q[i..]) + a * Val(TWO_32, y[..|y| - i])
    ensures Val(TWO_32, r) + Pow(TWO_32, |y|) * (carry + a * Val(TWO_32, y[|y| - i..]))
         == Val(TWO_32, q) + Pow(TWO_32, i) * (a * Val(TWO_32, y))
  {
    hide Val, Pow;
    var b, n := TWO_32, |y|;
    ValSplit(b, q, i);
    ValSplit(b, r, i);
    ValSplit(b, y, n - i);
    PowAdd(b, i, n - i);
    CutArith(Pow(b, i), Pow(b, n - i), carry, a, Val(b, r[i..]), Val(b, q[i..]), Val(b, y[..n - i]), Val(b, y[n - i..]));
  }

  lemma CutArith(p: int, h: int, carry: int, a: int, r: int, q: int, lo: int, hi: int)
    requires r + h * carry == q + a * lo
    ensures p * r + (p * h) * (carry + a * hi) == p * q + p * (a * (lo + h * hi))
  {
    var u := a * hi;
    assert (p * h) * (carry + u) == p * (h * carry) + p * (h * u);
    assert p * (r + h * carry) == p * r + p * (h * carry);
    assert p * (q + a * lo) == p * q + p * (a * lo);
    assert a * (lo + h * hi) == a * lo + h * u;
    assert p * (a * lo + h * u) == p * (a * lo) + p * (h * u);
  }

  /** The low n limbs of p[lo..lo + n] + a * y: the rows are cut off at n limbs. */
  method MultiplyLow(p: array<u32>, a: seq<u32>, y: seq<u32>) returns (ghost t: int)
    requires |a| == |y| <= p.Length
    modifies p
    ensures p[|y|..] == old(p[|y|..])
    ensures Val(TWO_32, p[..|y|]) + Pow(TWO_32, |y|) * t == Val(TWO_32, a) * Val(TWO_32, y) + Val(TWO_32, old(p[..|y|]))
  {
    hide Val, Pow;
    var n := |y|;
    ghost var p0 := p[..n];
    t := 0;
    NoRows(TWO_32, a, Val(TWO_32, y));
    for i := 0 to n
      invariant p[n..] == old(p[n..])
      invariant Val(TWO_32, p[..n]) + Pow(TWO_32, n) * t == Val(TWO_32, a[..i]) * Val(TWO_32, y) + Val(TWO_32, p0)
    {
      ghost var q := p[..];
      var carry := AddRow(p, i, n - i, a[i], y);
      ghost var r := p[..];
      assert i + (n - i) == n && r[i..n] == p[i..n] && q[i..n] == q[i..i + (n - i)];
      assert r[..i] == q[..i] && r[n..] == q[n..];
      CutRow(q[..n], r[..n], i, a[i], carry, y);
      assert a[..i + 1] == a[..i] + [a[i]];
      MoreRows(a[..i], a[i], i, Val(TWO_32, y));
      CutMore(Pow(TWO_32, n), t, carry + a[i] * Val(TWO_32, y[n - i..]));
      t := t + (carry + a[i] * Val(TWO_32, y[n - i..]));
    }
    assert a[..n] == a;
  }

  // Sums with a carry

  lemma SumStep(q: seq<int>, x: seq<int>, y: seq<int>, carry: nat, a: int, b: int, c0: int, j: nat, sum: nat)
    requires |q| == |x| == |y| == j && sum == carry + a + b
    requires Val(TWO_32, q) + Pow(TWO_32, j) * carry == Val(TWO_32, x) + Val(TWO_32, y) + c0
    ensures Val(TWO_32, q + [sum % TWO_32]) + Pow(TWO_32, j + 1) * (sum / TWO_32)
         == Val(TWO_32, x + [a]) + Val(TWO_32, y + [b]) + c0
  {
    ValSnoc(TWO_32, q, sum % TWO_32);
    ValSnoc(TWO_32, x, a);
    ValSnoc(TWO_32, y, b);
    Carried(Pow(TWO_32, j), carry, a, b, 1, sum, 0);
    MulDistribute(Pow(TWO_32, j), a, b);
  }

  /** ~x, limb by limb. */
  function Complement(x: seq<u32>): (y: seq<u32>)
    ensures |y| == |x|
  {
    seq(|x|, i requires 0 <= i < |x| => 0xffff_ffff - x[i])
  }

  lemma {:induction false} ComplementVal(x: seq<u32>)
    ensures Val(TWO_32, Complement(x)) == Pow(TWO_32, |x|) - 1 - Val(TWO_32, x)
  {
    if x != [] {
      ComplementVal(x[1..]);
      assert Complement(x)[1..] == Complement(x[1..]);
      MulDistribute(TWO_32, Pow(TWO_32, |x| - 1) - 1, Val(TWO_32, x[1..]));
    }
  }

  /** x = x - y in place, modulo 2^256. */
  method SubtractFrom(y: array<u32>, x: seq<u32>) returns (ghost c: int)
    requires y.Length >= 8 && |x| >= 8
    modifies y
    ensures Val(TWO_32, y[..8]) + Pow(TWO_32, 8) * c == Val(TWO_32, x[..8]) + Pow(TWO_32, 8) - Val(TWO_32, old(y[..8]))
  {
    hide Val, Pow;
    var carry: u64 := 1;
    ghost var y0: seq<u32> := y[..8];
    RowStart(x, 0, Complement(y0));
    RowStart(y[..], 0, y0);
    for i := 0 to 8
      invariant carry <= 1 && forall j | i <= j < 8 :: y[j] == y0[j]
      invariant Val(TWO_32, y[..i]) + Pow(TWO_32, i) * carry == Val(TWO_32, x[..i]) + Val(TWO_32, Complement(y0)[..i]) + 1
    {
      var sum: u64 := carry + x[i] + (0xffff_ffff - y[i]);
      assert x[..i + 1] == x[..i] + [x[i]] && Complement(y0)[..i + 1] == Complement(y0)[..i] + [Complement(y0)[i]];
      SumStep(y[..i], x[..i], Complement(y0)[..i], carry, x[i], Complement(y0)[i], 1, i, sum);
      ghost var before := y[..i];
      y[i] := sum % TWO_32;
      carry := sum / TWO_32;
      assert y[..i + 1] == before + [sum % TWO_32];
    }
    assert Complement(y0)[..8] == Complement(y0);
    ComplementVal(y0);
    c := carry;
  }

  /** t = t + x over 16 limbs, where the sum fits. */
  method AddTo(t: array<u32>, x: seq<u32>)
    requires t.Length == |x| == 16 && Val(TWO_32, t[..]) + Val(TWO_32, x) < Pow(TWO_32, 16)
    modifies t
    ensures Val(TWO_32, t[..]) == Val(TWO_32, old(t[..])) + Val(TWO_32, x)
  {
    hide Val, Pow;
    var carry: u64 := 0;
    ghost var t0: seq<u32> := t[..];
    RowStart(t0, 0, x);
    RowStart(t0, 0, t0);
    for i := 0 to 16
      invariant carry <= 1 && forall j | i <= j < 16 :: t[j] == t0[j]
      invariant Val(TWO_32, t[..i]) + Pow(TWO_32, i) * carry == Val(TWO_32, t0[..i]) + Val(TWO_32, x[..i]) + 0
    {
      var sum: u64 := carry + t[i] + x[i];
      assert x[..i + 1] == x[..i] + [x[i]] && t0[..i + 1] == t0[..i] + [t0[i]];
      SumStep(t[..i], t0[..i], x[..i], carry, t0[i], x[i], 0, i, sum);
      ghost var before := t[..i];
      t[i] := sum % TWO_32;
      carry := sum / TWO_32;
      assert t[..i + 1] == before + [sum % TWO_32];
    }
    assert t[..16] == t[..] && t0[..16] == t0 && x[..16] == x;
    ValBound(TWO_32, t[..]);
    NoCarry(Pow(TWO_32, 16), Val(TWO_32, t[..]), carry, Val(TWO_32, t0) + Val(TWO_32, x));
  }

  lemma NoCarry(p: nat, a: int, c: nat, sum: int)
    requires 0 <= a && sum < p && a + p * c == sum
    ensures c == 0 && a == sum
  {
    if c > 0 {
      MulMonotone(p, 1, c);
    }
  }

  /** Numbers below m that differ by a multiple of m are equal. */
  lemma SameResidue(m: nat, a: int, b: int, z: int)
    requires 0 <= a < m && 0 <= b < m && a == b + m * z
    ensures a == b
  {
    DivModUnique(a, m, z, b);
    DivModUnique(a, m, 0, a);
  }

  lemma ModMultiple(a: int, q: int, m: nat)
    requires m > 0
    ensures (a + q * m) % m == a % m
  {
    DivModUnique(a + q * m, m, a / m + q, a % m);
  }

  lemma LowHalf(x: seq<u32>)
    requires |x| == 16
    ensures Val(TWO_32, x) == Val(TWO_32, x[..8]) + Pow(TWO_32, 8) * Val(TWO_32, x[8..])
  {
    ValSplit(TWO_32, x, 8);
  }

  lemma EightLimbs(x: seq<int>)
    requires |x| >= 8
    ensures var b := TWO_32;
            Val(b, x) == x[0] + b * (x[1] + b * (x[2] + b * (x[3] + b * (x[4] + b * (x[5] + b * (x[6] + b * (x[7]
                       + b * Val(b, x[8..]))))))))
  {
    hide Val;
    var b := TWO_32;
    FourHeads(b, x);
    FourHeads(b, x[4..]);
    assert x[4..][4..] == x[8..];
  }

  lemma FourHeads(b: nat, x: seq<int>)
    requires |x| >= 4
    ensures Val(b, x) == x[0] + b * (x[1] + b * (x[2] + b * (x[3] + b * Val(b, x[4..]))))
  {
    hide Val;
    HeadOf(b, x, 0);
    HeadOf(b, x, 1);
    HeadOf(b, x, 2);
    HeadOf(b, x, 3);
    assert x[0..] == x;
  }

  /** The four bytes of a word, lowest first. */
  function Store32(w: u32): (b: seq<u8>)
    ensures |b| == 4
  {
    [w % 256, w / 256 % 256, w / 0x1_0000 % 256, w / 0x100_0000]
  }

  lemma Store32Val(w: u32)
    ensures Val(256, Store32(w)) == w && Pow(256, 4) == TWO_32
  {
    hide Val, Pow;
    FourDigits(256, Store32(w));
    FourPowers();
    Quotients(w);
  }

  lemma Quotients(w: u32)
    ensures w == w % 256 + 256 * (w / 256 % 256 + 256 * (w / 0x1_0000 % 256 + 256 * (w / 0x100_0000)))
  {
    var a := w / 256;
    var b := a / 256;
    assert b == w / 0x1_0000;
    assert b / 256 == w / 0x100_0000;
  }

  lemma FourPowers()
    ensures Pow(256, 4) == TWO_32
  {
    assert Pow(256, 2) == 256 * (256 * Pow(256, 0));
    PowAdd(256, 2, 2);
  }

  lemma WordBound(b: seq<u8>)
    requires |b| == 8
    ensures 0 <= Val(256, b) < TWO_64
  {
    hide Val, Pow;
    ValBound(256, b);
    FourPowers();
    PowAdd(256, 4, 4);
  }

  lemma FourDigits(b: nat, x: seq<int>)
    requires |x| == 4
    ensures Val(b, x) == x[0] + b * (x[1] + b * (x[2] + b * x[3]))
  {
    hide Val;
    HeadOf(b, x, 0);
    HeadOf(b, x, 1);
    HeadOf(b, x, 2);
    HeadOf(b, x, 3);
    ValZero(b, x[4..]);
    assert x[0..] == x;
  }

  lemma {:induction false} WordPower(n: nat)
    ensures Pow(TWO_32, n) == Pow(256, 4 * n)
  {
    if n > 0 {
      WordPower(n - 1);
      PowAdd(256, 4, 4 * (n - 1));
      Store32Val(0);
    }
  }

  /** Writes words as bytes: the number stays the same. */
  method StoreBuf(dst: array<u8>, src: seq<u32>)
    requires dst.Length == 4 * |src|
    modifies dst
    ensures Val(256, dst[..]) == Val(TWO_32, src)
  {
    hide Val, Pow, Store32;
    RowStart(src, 0, src);
    ValZero(256, dst[..0]);
    for i := 0 to |src|
      invariant Val(256, dst[..4 * i]) == Val(TWO_32, src[..i])
    {
      var b := Store32(src[i]);
      ghost var before := dst[..4 * i];
      dst[4 * i] := b[0];
      dst[4 * i + 1] := b[1];
      dst[4 * i + 2] := b[2];
      dst[4 * i + 3] := b[3];
      assert dst[..4 * (i + 1)] == before + b;
      ValAppend(256, before, b);
      Store32Val(src[i]);
      WordPower(i);
      assert src[..i + 1] == src[..i] + [src[i]];
      ValSnoc(TWO_32, src[..i], src[i]);
    }
    assert dst[..4 * |src|] == dst[..] && src[..|src|] == src;
  }

  method ZeroLow(p: array<u32>)
    requires p.Length >= 8
    modifies p
    ensures p[8..] == old(p[8..]) && forall i | 0 <= i < 8 :: p[i] == 0
  {
    for i := 0 to 8
      invariant p[8..] == old(p[8..]) && forall j | 0 <= j < i :: p[j] == 0
    {
      p[i] := 0;
    }
  }
}
