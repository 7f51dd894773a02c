/** One block of Poly1305: (h + c) * r with partial reduction modulo 2^130 - 5, in 32- and 64-bit words. */
module PolyBlock {
  import opened Powers
  import opened Words

  /** The number with five limbs. */
  function Five(b: int, x0: int, x1: int, x2: int, x3: int, x4: int): int {
    x0 + b * (x1 + b * (x2 + b * (x3 + b * x4)))
  }

  lemma FiveLinear(b: int, k: int, x0: int, x1: int, x2: int, x3: int, x4: int)
    ensures k * Five(b, x0, x1, x2, x3, x4) == Five(b, k * x0, k * x1, k * x2, k * x3, k * x4)
  {
    MulFive(k, b, x0, x1 + b * (x2 + b * (x3 + b * x4)));
    MulFive(k, b, x1, x2 + b * (x3 + b * x4));
    MulFive(k, b, x2, x3 + b * x4);
    MulFive(k, b, x3, x4);
  }

  lemma MulFive(k: int, b: int, x: int, y: int)
    ensures k * (x + b * y) == k * x + b * (k * y)
  {
    MulDistribute(k, x, b * y);
    MulAssoc(k, b, y);
    MulAssoc(b, k, y);
  }

  lemma FiveAdd(b: int, x0: int, x1: int, x2: int, x3: int, x4: int, y0: int, y1: int, y2: int, y3: int, y4: int)
    ensures Five(b, x0, x1, x2, x3, x4) + Five(b, y0, y1, y2, y3, y4)
         == Five(b, x0 + y0, x1 + y1, x2 + y2, x3 + y3, x4 + y4)
  {
    AddFive(b, x3, x4, y3, y4);
    AddFive(b, x2, x3 + b * x4, y2, y3 + b * y4);
    AddFive(b, x1, x2 + b * (x3 + b * x4), y1, y2 + b * (y3 + b * y4));
    AddFive(b, x0, x1 + b * (x2 + b * (x3 + b * x4)), y0, y1 + b * (y2 + b * (y3 + b * y4)));
  }

  lemma AddFive(b: int, x: int, x': int, y: int, y': int)
    ensures x + b * x' + (y + b * y') == x + y + b * (x' + y')
  {
    MulDistribute(b, x', y');
  }

  /** A multiple of b^4 whose factor is divisible by four folds back to the lowest limb. */
  lemma Fold(b: int, p: int, q: int, x0: int, x1: int, x2: int, x3: int, rest: int)
    requires p + 5 == 4 * (b * (b * (b * b)))
    ensures Five(b, x0, x1, x2, x3, 4 * q + rest) == Five(b, x0 + 5 * q, x1, x2, x3, rest) + p * q
  {
    FiveAdd(b, x0, x1, x2, x3, rest, 0, 0, 0, 0, 4 * q);
    FiveAdd(b, x0, x1, x2, x3, rest, 5 * q, 0, 0, 0, 0);
    var b4 := b * (b * (b * b));
    assert Five(b, 0, 0, 0, 0, 4 * q) == b4 * (4 * q) by {
      MulAssoc(b, b, 4 * q);
      MulAssoc(b, b * b, 4 * q);
      MulAssoc(b, b * (b * b), 4 * q);
    }
    MulAssoc(b4, 4, q);
    MulAssoc(4, b4, q);
    MulAssoc(q, p + 5, 0);
    MulDistribute(q, p, -5);
    assert (p + 5) * q == p * q + 5 * q by { MulDistribute(q, p, 5); MulAssoc(q, p, 0); MulAssoc(q, p + 5, 0); }
  }

  lemma Shifted(b: int, y0: int, y1: int, y2: int, y3: int)
    ensures b * Five(b, y0, y1, y2, y3, 0) == Five(b, 0, y0, y1, y2, y3)
  {
  }

  /** The multiplier split for folding: r1 to r3 are multiples of four, r0 is 4 * q0 + e. */
  datatype Clamped = Clamped(q0: nat, e: nat, q1: nat, q2: nat, q3: nat) {
    function R0(): nat { 4 * q0 + e }

    function Value(b: int): int {
      Five(b, R0(), 4 * q1, 4 * q2, 4 * q3, 0)
    }

    function Row(b: int, i: nat): int {
      if i == 0 then Five(b, R0(), 4 * q1, 4 * q2, 4 * q3, 0)
      else if i == 1 then Five(b, 5 * q3, R0(), 4 * q1, 4 * q2, 0)
      else if i == 2 then Five(b, 5 * q2, 5 * q3, R0(), 4 * q1, 0)
      else if i == 3 then Five(b, 5 * q1, 5 * q2, 5 * q3, R0(), 0)
      else Five(b, 5 * q0, 5 * q1, 5 * q2, 5 * q3, e)
    }

    function Fold(i: nat): int {
      if i == 0 then q3 else if i == 1 then q2 else if i == 2 then q1 else q0
    }
  }

  /** Each row is the one before it, shifted by a limb and folded. */
  lemma Rows(b: int, p: int, r: Clamped, i: nat)
    requires p + 5 == 4 * (b * (b * (b * b))) && i < 4
    ensures b * r.Row(b, i) == r.Row(b, i + 1) + p * r.Fold(i)
  {
    hide Five;
    if i == 0 {
      Shifted(b, r.R0(), 4 * r.q1, 4 * r.q2, 4 * r.q3);
      Fold(b, p, r.q3, 0, r.R0(), 4 * r.q1, 4 * r.q2, 0);
    } else if i == 1 {
      Shifted(b, 5 * r.q3, r.R0(), 4 * r.q1, 4 * r.q2);
      Fold(b, p, r.q2, 0, 5 * r.q3, r.R0(), 4 * r.q1, 0);
    } else if i == 2 {
      Shifted(b, 5 * r.q2, 5 * r.q3, r.R0(), 4 * r.q1);
      Fold(b, p, r.q1, 0, 5 * r.q2, 5 * r.q3, r.R0(), 0);
    } else {
      Shifted(b, 5 * r.q1, 5 * r.q2, 5 * r.q3, r.R0());
      Fold(b, p, r.q0, 0, 5 * r.q1, 5 * r.q2, 5 * r.q3, r.e);
    }
  }

  /** The product is the sum of the rows, up to a multiple of p. */
  lemma SumOfRows(b: int, p: int, r: Clamped, s0: int, s1: int, s2: int, s3: int, s4: int) returns (z: int)
    requires p + 5 == 4 * (b * (b * (b * b)))
    ensures Five(b, s0, s1, s2, s3, s4) * r.Value(b)
         == s0 * r.Row(b, 0) + s1 * r.Row(b, 1) + s2 * r.Row(b, 2) + s3 * r.Row(b, 3) + s4 * r.Row(b, 4) + p * z
  {
    hide Clamped.Row, Clamped.Fold;
    RowZero(b, r);
    Rows(b, p, r, 0);
    Rows(b, p, r, 1);
    Rows(b, p, r, 2);
    Rows(b, p, r, 3);
    var t3 := s3 + b * s4;
    var t2 := s2 + b * t3;
    var t1 := s1 + b * t2;
    Horner(b, p, s3, s4, r.Row(b, 3), r.Row(b, 4), r.Fold(3));
    Horner(b, p, s2, t3, r.Row(b, 2), r.Row(b, 3), r.Fold(2));
    Horner(b, p, s1, t2, r.Row(b, 1), r.Row(b, 2), r.Fold(1));
    Horner(b, p, s0, t1, r.Row(b, 0), r.Row(b, 1), r.Fold(0));
    var z3, z2, z1, z0 := s4 * r.Fold(3), t3 * r.Fold(2), t2 * r.Fold(1), t1 * r.Fold(0);
    z := z0 + z1 + z2 + z3;
    Four(p, z0, z1, z2, z3);
  }

  lemma RowZero(b: int, r: Clamped)
    ensures r.Value(b) == r.Row(b, 0)
  {
  }

  lemma Four(p: int, a: int, b: int, c: int, d: int)
    ensures p * (a + b + c + d) == p * a + p * b + p * c + p * d
  {
  }

  /** The columns of the product, as the code adds them up. */
  lemma Columns(b: int, r: Clamped, s0: int, s1: int, s2: int, s3: int, s4: int)
    ensures s0 * r.Row(b, 0) + s1 * r.Row(b, 1) + s2 * r.Row(b, 2) + s3 * r.Row(b, 3) + s4 * r.Row(b, 4)
         == Five(b,
                 s0 * r.R0() + s1 * (5 * r.q3) + s2 * (5 * r.q2) + s3 * (5 * r.q1) + s4 * (5 * r.q0),
                 s0 * (4 * r.q1) + s1 * r.R0() + s2 * (5 * r.q3) + s3 * (5 * r.q2) + s4 * (5 * r.q1),
                 s0 * (4 * r.q2) + s1 * (4 * r.q1) + s2 * r.R0() + s3 * (5 * r.q3) + s4 * (5 * r.q2),
                 s0 * (4 * r.q3) + s1 * (4 * r.q2) + s2 * (4 * r.q1) + s3 * r.R0() + s4 * (5 * r.q3),
                 s4 * r.e)
  {
    hide Five;
    var f, g1, g2, g3 := r.R0(), 4 * r.q1, 4 * r.q2, 4 * r.q3;
    var h0, h1, h2, h3 := 5 * r.q0, 5 * r.q1, 5 * r.q2, 5 * r.q3;
    FiveLinear(b, s0, f, g1, g2, g3, 0);
    FiveLinear(b, s1, h3, f, g1, g2, 0);
    FiveLinear(b, s2, h2, h3, f, g1, 0);
    FiveLinear(b, s3, h1, h2, h3, f, 0);
    FiveLinear(b, s4, h0, h1, h2, h3, r.e);
    FiveAdd(b, s0 * f, s0 * g1, s0 * g2, s0 * g3, s0 * 0, s1 * h3, s1 * f, s1 * g1, s1 * g2, s1 * 0);
    FiveAdd(b, s0 * f + s1 * h3, s0 * g1 + s1 * f, s0 * g2 + s1 * g1, s0 * g3 + s1 * g2, 0,
            s2 * h2, s2 * h3, s2 * f, s2 * g1, s2 * 0);
    FiveAdd(b, s0 * f + s1 * h3 + s2 * h2, s0 * g1 + s1 * f + s2 * h3, s0 * g2 + s1 * g1 + s2 * f, s0 * g3 + s1 * g2 + s2 * g1, 0,
            s3 * h1, s3 * h2, s3 * h3, s3 * f, s3 * 0);
    FiveAdd(b, s0 * f + s1 * h3 + s2 * h2 + s3 * h1, s0 * g1 + s1 * f + s2 * h3 + s3 * h2,
            s0 * g2 + s1 * g1 + s2 * f + s3 * h3, s0 * g3 + s1 * g2 + s2 * g1 + s3 * f, 0,
            s4 * h0, s4 * h1, s4 * h2, s4 * h3, s4 * r.e);
  }

  /** Carrying: the limbs change, the number does not, up to a multiple of p. */
  lemma CarryAll(b: int, p: int, x0: int, x1: int, x2: int, x3: int, x4: int,
                 l0: int, l1: int, l2: int, l3: int, k0: int, k1: int, k2: int, k3: int, a: int, e: int)
    requires p + 5 == 4 * (b * (b * (b * b)))
    requires x0 == l0 + b * k0 && x1 == l1 + b * k1 && x2 == l2 + b * k2 && x3 == l3 + b * k3 && x4 + k3 == 4 * a + e
    ensures Five(b, x0, x1, x2, x3, x4) == Five(b, 5 * a + l0, l1 + k0, l2 + k1, l3 + k2, e) + p * a
  {
    hide Five;
    Shift0(b, l0, k0, x1, x2, x3, x4);
    Shift1(b, l0, l1 + k0, k1, x2, x3, x4);
    Shift2(b, l0, l1 + k0, l2 + k1, k2, x3, x4);
    Shift3(b, l0, l1 + k0, l2 + k1, l3 + k2, k3, x4);
    Fold(b, p, a, l0, l1 + k0, l2 + k1, l3 + k2, e);
  }

  lemma Shift0(b: int, l: int, k: int, x1: int, x2: int, x3: int, x4: int)
    ensures Five(b, l + b * k, x1, x2, x3, x4) == Five(b, l, x1 + k, x2, x3, x4)
  {
    MulDistribute(b, k, x1 + b * (x2 + b * (x3 + b * x4)));
  }

  lemma Shift1(b: int, x0: int, l: int, k: int, x2: int, x3: int, x4: int)
    ensures forall y | y == l + b * k :: Five(b, x0, y, x2, x3, x4) == Five(b, x0, l, x2 + k, x3, x4)
    ensures Five(b, x0, l + b * k, x2, x3, x4) == Five(b, x0, l, x2 + k, x3, x4)
  {
    MulDistribute(b, k, x2 + b * (x3 + b * x4));
  }

  lemma Shift2(b: int, x0: int, x1: int, l: int, k: int, x3: int, x4: int)
    ensures Five(b, x0, x1, l + b * k, x3, x4) == Five(b, x0, x1, l, x3 + k, x4)
  {
    MulDistribute(b, k, x3 + b * x4);
  }

  lemma Shift3(b: int, x0: int, x1: int, x2: int, l: int, k: int, x4: int)
    ensures Five(b, x0, x1, x2, l + b * k, x4) == Five(b, x0, x1, x2, l, x4 + k)
  {
    MulDistribute(b, k, x4);
  }

  /** Carrying on to the next limb, without folding. */
  lemma CarryOn(b: int, y0: int, y1: int, y2: int, y3: int, y4: int,
                h0: int, h1: int, h2: int, h3: int, c0: int, c1: int, c2: int, c3: int)
    requires y0 == h0 + b * c0 && y1 + c0 == h1 + b * c1 && y2 + c1 == h2 + b * c2 && y3 + c2 == h3 + b * c3
    ensures Five(b, y0, y1, y2, y3, y4) == Five(b, h0, h1, h2, h3, y4 + c3)
  {
    hide Five;
    Shift0(b, h0, c0, y1, y2, y3, y4);
    Shift1(b, h0, h1, c1, y2, y3, y4);
    Shift2(b, h0, h1, h2, c2, y3, y4);
    Shift3(b, h0, h1, h2, h3, c3, y4);
  }

  lemma ProductUpTo(s: int, y: int, sMax: int, yMax: int)
    requires 0 <= s <= sMax && 0 <= y <= yMax
    ensures 0 <= s * y <= sMax * yMax
  {
    MulMonotone(s, 0, y);
    MulMonotone(s, y, yMax);
    MulMonotone(yMax, s, sMax);
  }

  const S_MAX: nat := 0x1_ffff_fffe
  const R_MAX: nat := 0x0fff_ffff
  const Q_MAX: nat := 0x03ff_ffff

  /** A column is a sum of four products of words and one of the top limb: it fits in 64 bits. */
  lemma ColumnFits(s0: int, s1: int, s2: int, s3: int, s4: int, y0: int, y1: int, y2: int, y3: int, y4: int)
    requires 0 <= s0 <= S_MAX && 0 <= s1 <= S_MAX && 0 <= s2 <= S_MAX && 0 <= s3 <= S_MAX && 0 <= s4 <= 5
    requires 0 <= y0 <= 5 * Q_MAX && 0 <= y1 <= 5 * Q_MAX && 0 <= y2 <= 5 * Q_MAX && 0 <= y3 <= 5 * Q_MAX && 0 <= y4 <= 5 * Q_MAX
    ensures 0 <= s0 * y0 && 0 <= s1 * y1 && 0 <= s2 * y2 && 0 <= s3 * y3 && 0 <= s4 * y4
    ensures s0 * y0 + s1 * y1 + s2 * y2 + s3 * y3 + s4 * y4 < TWO_64
  {
    ProductUpTo(s0, y0, S_MAX, 5 * Q_MAX);
    ProductUpTo(s1, y1, S_MAX, 5 * Q_MAX);
    ProductUpTo(s2, y2, S_MAX, 5 * Q_MAX);
    ProductUpTo(s3, y3, S_MAX, 5 * Q_MAX);
    ProductUpTo(s4, y4, 5, 5 * Q_MAX);
  }

  /** The highest column is smaller, which bounds the new top limb. */
  lemma TopColumn(s0: int, s1: int, s2: int, s3: int, s4: int, y0: int, y1: int, y2: int, y3: int, y4: int)
    requires 0 <= s0 <= S_MAX && 0 <= s1 <= S_MAX && 0 <= s2 <= S_MAX && 0 <= s3 <= S_MAX && 0 <= s4 <= 5
    requires 0 <= y0 <= R_MAX && 0 <= y1 <= R_MAX && 0 <= y2 <= R_MAX && 0 <= y3 <= 5 * Q_MAX && 0 <= y4 <= 5 * Q_MAX
    ensures s0 * y0 + s1 * y1 + s2 * y2 + s3 * y3 + s4 * y4 < 0x9000_0000_0000_0000
  {
    ProductUpTo(s0, y0, S_MAX, R_MAX);
    ProductUpTo(s1, y1, S_MAX, R_MAX);
    ProductUpTo(s2, y2, S_MAX, R_MAX);
    ProductUpTo(s3, y3, S_MAX, 5 * Q_MAX);
    ProductUpTo(s4, y4, 5, 5 * Q_MAX);
  }

  /** The words of r, as the mask of the key leaves them. */
  ghost predicate ClampedWords(r: seq<u32>) {
    |r| == 4 && r[0] <= R_MAX && forall i | 1 <= i < 4 :: r[i] <= 0x0fff_fffc && r[i] % 4 == 0
  }

  ghost function SplitWords(r: seq<u32>): Clamped
    requires ClampedWords(r)
  {
    Clamped(r[0] / 4, r[0] % 4, r[1] / 4, r[2] / 4, r[3] / 4)
  }

  datatype Limbs5 = Limbs5(h0: u32, h1: u32, h2: u32, h3: u32, h4: u32) {
    ghost function Value(): int {
      Five(TWO_32, h0, h1, h2, h3, h4)
    }
  }

  /** The modulus 2^130 - 5. */
  const P: nat := 0x3_ffff_ffff_ffff_ffff_ffff_ffff_ffff_fffb

  lemma ModulusIs()
    ensures P + 5 == 4 * (TWO_32 * (TWO_32 * (TWO_32 * TWO_32)))
  {
  }

  /** Bounds on the words of r and on their folded forms. */
  ghost predicate Multipliers(q: Clamped, r0: u32, r1: u32, r2: u32, r3: u32, rr0: u32, rr1: u32, rr2: u32, rr3: u32, rr4: u32) {
    && r0 == q.R0() && r1 == 4 * q.q1 && r2 == 4 * q.q2 && r3 == 4 * q.q3
    && rr0 == 5 * q.q0 && rr1 == 5 * q.q1 && rr2 == 5 * q.q2 && rr3 == 5 * q.q3 && rr4 == q.e <= 3
    && r0 <= R_MAX && q.q0 <= Q_MAX && q.q1 <= Q_MAX && q.q2 <= Q_MAX && q.q3 <= Q_MAX
  }

  /** The columns of the product fit their words, the upper two with room to spare. */
  lemma ColumnsFit(q: Clamped, s0: int, s1: int, s2: int, s3: int, s4: int,
                   r0: u32, r1: u32, r2: u32, r3: u32, rr0: u32, rr1: u32, rr2: u32, rr3: u32, rr4: u32)
    requires Multipliers(q, r0, r1, r2, r3, rr0, rr1, rr2, rr3, rr4)
    requires 0 <= s0 <= S_MAX && 0 <= s1 <= S_MAX && 0 <= s2 <= S_MAX && 0 <= s3 <= S_MAX && 0 <= s4 <= 5
    ensures 0 <= s0 * r0 + s1 * rr3 + s2 * rr2 + s3 * rr1 + s4 * rr0 < TWO_64
    ensures 0 <= s0 * r1 + s1 * r0 + s2 * rr3 + s3 * rr2 + s4 * rr1 < TWO_64
    ensures 0 <= s0 * r2 + s1 * r1 + s2 * r0 + s3 * rr3 + s4 * rr2 < 0x9000_0000_0000_0000
    ensures 0 <= s0 * r3 + s1 * r2 + s2 * r1 + s3 * r0 + s4 * rr3 < 0x9000_0000_0000_0000
    ensures 0 <= s4 * rr4 <= 15
  {
    ColumnFits(s0, s1, s2, s3, s4, r0, rr3, rr2, rr1, rr0);
    ColumnFits(s0, s1, s2, s3, s4, r1, r0, rr3, rr2, rr1);
    TopColumn(s0, s1, s2, s3, s4, r2, r1, r0, rr3, rr2);
    ColumnFits(s0, s1, s2, s3, s4, r2, r1, r0, rr3, rr2);
    TopColumn(s0, s1, s2, s3, s4, r3, r2, r1, r0, rr3);
    ColumnFits(s0, s1, s2, s3, s4, r3, r2, r1, r0, rr3);
    ProductUpTo(s4, rr4, 5, 3);
  }

  /** (h + c) * r, without carry propagation. */
  method MultiplyColumns(s0: u64, s1: u64, s2: u64, s3: u64, s4: u32, ghost q: Clamped,
                         r0: u32, r1: u32, r2: u32, r3: u32, rr0: u32, rr1: u32, rr2: u32, rr3: u32, rr4: u32)
    returns (x0: u64, x1: u64, x2: u64, x3: u64, x4: u32, ghost z: int)
    requires Multipliers(q, r0, r1, r2, r3, rr0, rr1, rr2, rr3, rr4)
    requires s0 <= S_MAX && s1 <= S_MAX && s2 <= S_MAX && s3 <= S_MAX && s4 <= 5
    ensures x2 < 0x9000_0000_0000_0000 && x3 < 0x9000_0000_0000_0000 && x4 <= 15
    ensures Five(TWO_32, s0, s1, s2, s3, s4) * q.Value(TWO_32) == Five(TWO_32, x0, x1, x2, x3, x4) + P * z
  {
    hide Five, Clamped.Value, P;
    ColumnsFit(q, s0, s1, s2, s3, s4, r0, r1, r2, r3, rr0, rr1, rr2, rr3, rr4);
    x0 := s0 * r0 + s1 * rr3 + s2 * rr2 + s3 * rr1 + s4 * rr0;
    x1 := s0 * r1 + s1 * r0 + s2 * rr3 + s3 * rr2 + s4 * rr1;
    x2 := s0 * r2 + s1 * r1 + s2 * r0 + s3 * rr3 + s4 * rr2;
    x3 := s0 * r3 + s1 * r2 + s2 * r1 + s3 * r0 + s4 * rr3;
    x4 := s4 * rr4;
    z := Product(q, s0, s1, s2, s3, s4, x0, x1, x2, x3, x4);
  }

  lemma Combine(a: int, b: int, p: int, x: int, z0: int, n: int, z1: int)
    requires a * b == x + p * z0 && x == n + p * z1
    ensures a * b == n + p * (z0 + z1)
  {
    MulDistribute(p, z0, z1);
  }

  /** One turn of the block loop: h = (h + c) * r, not fully reduced. */
  method Block(h: Limbs5, r: seq<u32>, m0: u32, m1: u32, m2: u32, m3: u32, end: u32) returns (n: Limbs5, ghost z: int)
    requires ClampedWords(r) && h.h4 <= 4 && end <= 1
    ensures n.h4 <= 4
    ensures (h.Value() + Five(TWO_32, m0, m1, m2, m3, end)) * SplitWords(r).Value(TWO_32) == n.Value() + P * z
  {
    hide Five, Clamped.Value, P;
    var r0, r1, r2, r3 := r[0], r[1], r[2], r[3];
    var rr0: u32 := r0 / 4 * 5;
    var rr1: u32 := r1 / 4 + r1;
    var rr2: u32 := r2 / 4 + r2;
    var rr3: u32 := r3 / 4 + r3;
    var rr4: u32 := r0 % 4;
    var s0: u64 := h.h0 + m0;
    var s1: u64 := h.h1 + m1;
    var s2: u64 := h.h2 + m2;
    var s3: u64 := h.h3 + m3;
    var s4: u32 := h.h4 + end;
    FiveAdd(TWO_32, h.h0, h.h1, h.h2, h.h3, h.h4, m0, m1, m2, m3, end);
    var x0, x1, x2, x3, x4;
    ghost var z0, z1;
    x0, x1, x2, x3, x4, z0 := MultiplyColumns(s0, s1, s2, s3, s4, SplitWords(r), r0, r1, r2, r3, rr0, rr1, rr2, rr3, rr4);
    n, z1 := Reduce(x0, x1, x2, x3, x4);
    Combine(h.Value() + Five(TWO_32, m0, m1, m2, m3, end), SplitWords(r).Value(TWO_32), P, Five(TWO_32, x0, x1, x2, x3, x4), z0, n.Value(), z1);
    z := z0 + z1;
  }

  lemma Product(q: Clamped, s0: int, s1: int, s2: int, s3: int, s4: int, x0: int, x1: int, x2: int, x3: int, x4: int) returns (z: int)
    requires x0 == s0 * q.R0() + s1 * (5 * q.q3) + s2 * (5 * q.q2) + s3 * (5 * q.q1) + s4 * (5 * q.q0)
    requires x1 == s0 * (4 * q.q1) + s1 * q.R0() + s2 * (5 * q.q3) + s3 * (5 * q.q2) + s4 * (5 * q.q1)
    requires x2 == s0 * (4 * q.q2) + s1 * (4 * q.q1) + s2 * q.R0() + s3 * (5 * q.q3) + s4 * (5 * q.q2)
    requires x3 == s0 * (4 * q.q3) + s1 * (4 * q.q2) + s2 * (4 * q.q1) + s3 * q.R0() + s4 * (5 * q.q3)
    requires x4 == s4 * q.e
    ensures Five(TWO_32, s0, s1, s2, s3, s4) * q.Value(TWO_32) == Five(TWO_32, x0, x1, x2, x3, x4) + P * z
  {
    hide Five, Clamped.Value, Clamped.Row, P;
    ModulusIs();
    z := SumOfRows(TWO_32, P, q, s0, s1, s2, s3, s4);
    Columns(TWO_32, q, s0, s1, s2, s3, s4);
  }

  /** The partial reduction. */
  method Reduce(x0: u64, x1: u64, x2: u64, x3: u64, x4: u32) returns (n: Limbs5, ghost z: int)
    requires x2 < 0x9000_0000_0000_0000 && x3 < 0x9000_0000_0000_0000 && x4 <= 15
    ensures n.h4 <= 4 && Five(TWO_32, x0, x1, x2, x3, x4) == n.Value() + P * z
  {
    hide Five, P;
    var u5: u32 := x4 + x3 / TWO_32;
    var u0: u64 := u5 / 4 * 5 + x0 % TWO_32;
    var u1: u64 := u0 / TWO_32 + x1 % TWO_32 + x0 / TWO_32;
    var u2: u64 := u1 / TWO_32 + x2 % TWO_32 + x1 / TWO_32;
    var u3: u64 := u2 / TWO_32 + x3 % TWO_32 + x2 / TWO_32;
    var u4: u32 := u3 / TWO_32 + u5 % 4;
    n := Limbs5(u0 % TWO_32, u1 % TWO_32, u2 % TWO_32, u3 % TWO_32, u4);
    ModulusIs();
    z := u5 / 4;
    CarryAll(TWO_32, P, x0, x1, x2, x3, x4, x0 % TWO_32, x1 % TWO_32, x2 % TWO_32, x3 % TWO_32,
             x0 / TWO_32, x1 / TWO_32, x2 / TWO_32, x3 / TWO_32, u5 / 4, u5 % 4);
    CarryOn(TWO_32, u5 / 4 * 5 + x0 % TWO_32, x1 % TWO_32 + x0 / TWO_32, x2 % TWO_32 + x1 / TWO_32, x3 % TWO_32 + x2 / TWO_32,
            u5 % 4, u0 % TWO_32, u1 % TWO_32, u2 % TWO_32, u3 % TWO_32, u0 / TWO_32, u1 / TWO_32, u2 / TWO_32, u3 / TWO_32);
  }
}
