/**
 Numbers modulo 2^255 - 19 in ten signed limbs of 26 and 25 bits in turn.  The radices and the modulus are
 parameters here: a for the even limbs, b for the odd ones, a == 2 * b.
 */
module FieldLimbs {
  import opened Powers
  import opened Words

  type Ten = s: seq<int> | |s| == 10 witness [0, 0, 0, 0, 0, 0, 0, 0, 0, 0]

  /** Two limbs and what stands above them. */
  function Pair(a: int, b: int, y0: int, y1: int, rest: int): int {
    y0 + a * (y1 + b * rest)
  }

  /** The number with these limbs, and top above them. */
  function Number(a: int, b: int, y: Ten, top: int): int {
    Pair(a, b, y[0], y[1], Pair(a, b, y[2], y[3], Pair(a, b, y[4], y[5], Pair(a, b, y[6], y[7], Pair(a, b, y[8], y[9], top)))))
  }

  /** a * b to the fifth: the weight of top. */
  function Full(a: int, b: int): int {
    (a * b) * ((a * b) * ((a * b) * ((a * b) * (a * b))))
  }

  lemma PairTop(a: int, b: int, y0: int, y1: int, rest: int, k: int)
    ensures Pair(a, b, y0, y1, rest + k) == Pair(a, b, y0, y1, rest) + (a * b) * k
  {
    MulDistribute(b, rest, k);
    MulDistribute(a, y1 + b * rest, b * k);
    MulAssoc(a, b, k);
  }

  /** What stands on top folds back to the lowest limb. */
  lemma TopWeight(a: int, b: int, y: Ten, top: int)
    ensures Number(a, b, y, top) == Number(a, b, y, 0) + Full(a, b) * top
  {
    hide Pair;
    var m := a * b;
    var n8 := Pair(a, b, y[8], y[9], 0);
    PairTop(a, b, y[8], y[9], 0, top);
    var k1 := m * top;
    var n6 := Pair(a, b, y[6], y[7], n8);
    PairTop(a, b, y[6], y[7], n8, k1);
    var k2 := m * k1;
    var n4 := Pair(a, b, y[4], y[5], n6);
    PairTop(a, b, y[4], y[5], n6, k2);
    var k3 := m * k2;
    var n2 := Pair(a, b, y[2], y[3], n4);
    PairTop(a, b, y[2], y[3], n4, k3);
    var k4 := m * k3;
    PairTop(a, b, y[0], y[1], n2, k4);
    FifthPower(m, top);
  }

  lemma FifthPower(m: int, t: int)
    ensures (m * (m * (m * (m * m)))) * t == m * (m * (m * (m * (m * t))))
  {
    MulAssoc(m, m, t);
    MulAssoc(m, m * m, t);
    MulAssoc(m, m * (m * m), t);
    MulAssoc(m, m * (m * (m * m)), t);
  }

  lemma LowWeight(a: int, b: int, y: Ten, k: int)
    ensures Number(a, b, y[0 := y[0] + k], 0) == Number(a, b, y, 0) + k
  {
  }

  lemma Fold(a: int, b: int, p: int, y: Ten, top: int)
    requires p + 19 == Full(a, b)
    ensures Number(a, b, y, top) == Number(a, b, y[0 := y[0] + 19 * top], 0) + p * top
  {
    TopWeight(a, b, y, top);
    LowWeight(a, b, y, 19 * top);
    MulDistribute(top, p, 19);
    MulAssoc(top, p + 19, 0);
    MulAssoc(top, p, 0);
  }

  // Shifting by one limb

  lemma EvenPair(a: int, b: int, y0: int, y1: int, rest: int, shifted: int)
    requires a == 2 * b && shifted == a * rest
    ensures a * Pair(a, b, y0, y1, rest) == Pair(a, b, 0, y0, 2 * y1 + shifted)
  {
    var t := y1 + b * rest;
    assert a * t == b * (2 * t);
    MulDistribute(b, 2 * y1, shifted);
    MulAssoc(b, a, rest);
    MulAssoc(a, b, rest);
    MulDistribute(a, y0, a * t);
    assert 2 * (b * rest) == a * rest;
    assert b * (2 * t) == b * (2 * y1 + shifted);
  }

  /** Adding to the lower limb of a pair. */
  lemma AddLow(a: int, b: int, y0: int, y1: int, rest: int, k: int)
    ensures k + Pair(a, b, y0, y1, rest) == Pair(a, b, k + y0, y1, rest)
  {
  }

  function EvenRow(y: Ten): Ten {
    [0, y[0], 2 * y[1], y[2], 2 * y[3], y[4], 2 * y[5], y[6], 2 * y[7], y[8]]
  }

  /** Multiplying by a: every limb moves up; the odd ones double. */
  lemma EvenShift(a: int, b: int, y: Ten)
    requires a == 2 * b
    ensures a * Number(a, b, y, 0) == Number(a, b, EvenRow(y), 2 * y[9])
  {
    hide Pair;
    var n8 := Pair(a, b, y[8], y[9], 0);
    var n6 := Pair(a, b, y[6], y[7], n8);
    var n4 := Pair(a, b, y[4], y[5], n6);
    var n2 := Pair(a, b, y[2], y[3], n4);
    EvenPair(a, b, y[8], y[9], 0, 0);
    EvenPair(a, b, y[6], y[7], n8, a * n8);
    EvenPair(a, b, y[4], y[5], n6, a * n6);
    EvenPair(a, b, y[2], y[3], n4, a * n4);
    EvenPair(a, b, y[0], y[1], n2, a * n2);
    var m8 := Pair(a, b, 2 * y[7], y[8], 2 * y[9]);
    AddLow(a, b, 0, y[8], 2 * y[9] + 0, 2 * y[7]);
    var m6 := Pair(a, b, 2 * y[5], y[6], m8);
    AddLow(a, b, 0, y[6], m8, 2 * y[5]);
    var m4 := Pair(a, b, 2 * y[3], y[4], m6);
    AddLow(a, b, 0, y[4], m6, 2 * y[3]);
    AddLow(a, b, 0, y[2], m4, 2 * y[1]);
  }

  lemma OddPair(a: int, b: int, e0: int, y1: int, rest: int, shifted: int)
    requires a == 2 * b && shifted == b * rest
    ensures b * Pair(a, b, 2 * e0, y1, rest) == Pair(a, b, 0, e0, y1 + shifted)
  {
    var t := y1 + shifted;
    assert b * (2 * e0) == a * e0;
    MulAssoc(b, a, t);
    MulAssoc(a, b, t);
    MulDistribute(b, 2 * e0, a * t);
    MulDistribute(a, e0, b * t);
  }

  function OddRow(y: Ten): Ten {
    [0, y[0] / 2, y[1], y[2] / 2, y[3], y[4] / 2, y[5], y[6] / 2, y[7], y[8] / 2]
  }

  /** Multiplying by b: every limb moves up; the even ones, which are even numbers, halve. */
  lemma OddShift(a: int, b: int, y: Ten)
    requires a == 2 * b && y[0] % 2 == 0 && y[2] % 2 == 0 && y[4] % 2 == 0 && y[6] % 2 == 0 && y[8] % 2 == 0
    ensures b * Number(a, b, y, 0) == Number(a, b, OddRow(y), y[9])
  {
    hide Pair;
    var e0, e2, e4, e6, e8 := y[0] / 2, y[2] / 2, y[4] / 2, y[6] / 2, y[8] / 2;
    var n8 := Pair(a, b, y[8], y[9], 0);
    var n6 := Pair(a, b, y[6], y[7], n8);
    var n4 := Pair(a, b, y[4], y[5], n6);
    var n2 := Pair(a, b, y[2], y[3], n4);
    OddPair(a, b, e8, y[9], 0, 0);
    OddPair(a, b, e6, y[7], n8, b * n8);
    OddPair(a, b, e4, y[5], n6, b * n6);
    OddPair(a, b, e2, y[3], n4, b * n4);
    OddPair(a, b, e0, y[1], n2, b * n2);
    var m8 := Pair(a, b, y[7], e8, y[9]);
    AddLow(a, b, 0, e8, y[9] + 0, y[7]);
    var m6 := Pair(a, b, y[5], e6, m8);
    AddLow(a, b, 0, e6, m8, y[5]);
    var m4 := Pair(a, b, y[3], e4, m6);
    AddLow(a, b, 0, e4, m6, y[3]);
    AddLow(a, b, 0, e2, m4, y[1]);
  }

  // Linear combinations

  function Scale(k: int, y: Ten): Ten {
    [k * y[0], k * y[1], k * y[2], k * y[3], k * y[4], k * y[5], k * y[6], k * y[7], k * y[8], k * y[9]]
  }

  function Sum(x: Ten, y: Ten): Ten {
    [x[0] + y[0], x[1] + y[1], x[2] + y[2], x[3] + y[3], x[4] + y[4],
     x[5] + y[5], x[6] + y[6], x[7] + y[7], x[8] + y[8], x[9] + y[9]]
  }

  lemma PairScale(a: int, b: int, k: int, y0: int, y1: int, rest: int, scaled: int)
    requires scaled == k * rest
    ensures k * Pair(a, b, y0, y1, rest) == Pair(a, b, k * y0, k * y1, scaled)
  {
    MulDistribute(k, y0, a * (y1 + b * rest));
    MulAssoc(k, a, y1 + b * rest);
    MulAssoc(a, k, y1 + b * rest);
    MulDistribute(k, y1, b * rest);
    MulAssoc(k, b, rest);
    MulAssoc(b, k, rest);
  }

  lemma NumberScale(a: int, b: int, k: int, y: Ten)
    ensures k * Number(a, b, y, 0) == Number(a, b, Scale(k, y), 0)
  {
    hide Pair;
    var n8 := Pair(a, b, y[8], y[9], 0);
    var n6 := Pair(a, b, y[6], y[7], n8);
    var n4 := Pair(a, b, y[4], y[5], n6);
    var n2 := Pair(a, b, y[2], y[3], n4);
    PairScale(a, b, k, y[8], y[9], 0, 0);
    PairScale(a, b, k, y[6], y[7], n8, k * n8);
    PairScale(a, b, k, y[4], y[5], n6, k * n6);
    PairScale(a, b, k, y[2], y[3], n4, k * n4);
    PairScale(a, b, k, y[0], y[1], n2, k * n2);
  }

  lemma PairAdd(a: int, b: int, x0: int, x1: int, xr: int, y0: int, y1: int, yr: int)
    ensures Pair(a, b, x0, x1, xr) + Pair(a, b, y0, y1, yr) == Pair(a, b, x0 + y0, x1 + y1, xr + yr)
  {
    MulDistribute(b, xr, yr);
    MulDistribute(a, x1 + b * xr, y1 + b * yr);
  }

  lemma NumberAdd(a: int, b: int, x: Ten, y: Ten)
    ensures Number(a, b, x, 0) + Number(a, b, y, 0) == Number(a, b, Sum(x, y), 0)
  {
    hide Pair;
    var x8, y8 := Pair(a, b, x[8], x[9], 0), Pair(a, b, y[8], y[9], 0);
    var x6, y6 := Pair(a, b, x[6], x[7], x8), Pair(a, b, y[6], y[7], y8);
    var x4, y4 := Pair(a, b, x[4], x[5], x6), Pair(a, b, y[4], y[5], y6);
    var x2, y2 := Pair(a, b, x[2], x[3], x4), Pair(a, b, y[2], y[3], y4);
    PairAdd(a, b, x[8], x[9], 0, y[8], y[9], 0);
    PairAdd(a, b, x[6], x[7], x8, y[6], y[7], y8);
    PairAdd(a, b, x[4], x[5], x6, y[4], y[5], y6);
    PairAdd(a, b, x[2], x[3], x4, y[2], y[3], y4);
    PairAdd(a, b, x[0], x[1], x2, y[0], y[1], y2);
  }

  // Multiplication by rows

  /** Row i + 1 of the multiplication by g, from row i: shifted by a limb, and what stands on top folded. */
  function NextRow(y: Ten, i: nat): Ten {
    if i % 2 == 0 then EvenRow(y)[0 := 38 * y[9]] else OddRow(y)[0 := 19 * y[9]]
  }

  function Row(g: Ten, i: nat): Ten {
    if i == 0 then g else NextRow(Row(g, i - 1), i - 1)
  }

  function Radix(a: int, b: int, i: nat): int {
    if i % 2 == 0 then a else b
  }

  function Top(y: Ten, i: nat): int {
    if i % 2 == 0 then 2 * y[9] else y[9]
  }

  ghost predicate EvenLimbsEven(y: Ten) {
    y[0] % 2 == 0 && y[2] % 2 == 0 && y[4] % 2 == 0 && y[6] % 2 == 0 && y[8] % 2 == 0
  }

  lemma RowStep(a: int, b: int, p: int, y: Ten, i: nat)
    requires a == 2 * b && p + 19 == Full(a, b) && (i % 2 == 1 ==> EvenLimbsEven(y))
    ensures Radix(a, b, i) * Number(a, b, y, 0) == Number(a, b, NextRow(y, i), 0) + p * Top(y, i)
  {
    hide Pair, Full, Number;
    if i % 2 == 0 {
      EvenShift(a, b, y);
      Fold(a, b, p, EvenRow(y), 2 * y[9]);
    } else {
      OddShift(a, b, y);
      Fold(a, b, p, OddRow(y), y[9]);
    }
  }

  lemma RowOf(g: Ten, i: nat)
    ensures Row(g, 0) == g
    ensures i > 0 ==> Row(g, i) == NextRow(Row(g, i - 1), i - 1)
  {
  }

  /** Two rows on: the limbs move up by two places. */
  lemma TwoRows(g: Ten, i: nat)
    requires i % 2 == 0
    ensures var y := Row(g, i);
            && Row(g, i + 1) == [38 * y[9], y[0], 2 * y[1], y[2], 2 * y[3], y[4], 2 * y[5], y[6], 2 * y[7], y[8]]
            && Row(g, i + 2) == [19 * y[8], 19 * y[9], y[0], y[1], y[2], y[3], y[4], y[5], y[6], y[7]]
            && EvenLimbsEven(Row(g, i + 1))
  {
    hide Row;
    RowOf(g, i + 1);
    RowOf(g, i + 2);
  }

  /** The product is the sum of the rows, up to a multiple of p. */
  lemma ProductByRows(a: int, b: int, p: int, f: Ten, g: Ten) returns (z: int)
    requires a == 2 * b && p + 19 == Full(a, b)
    ensures Number(a, b, f, 0) * Number(a, b, g, 0) == Combination(a, b, f, g) + p * z
  {
    hide Number, Full, Row, NextRow;
    var r := seq(10, i requires 0 <= i < 10 => Number(a, b, Row(g, i), 0));
    AllRows(a, b, p, g);
    RowOf(g, 0);
    var t8 := f[8] + a * f[9];
    var t7 := f[7] + b * t8;
    var t6 := f[6] + a * t7;
    var t5 := f[5] + b * t6;
    var t4 := f[4] + a * t5;
    var t3 := f[3] + b * t4;
    var t2 := f[2] + a * t3;
    var t1 := f[1] + b * t2;
    var q := seq(9, i requires 0 <= i < 9 => Top(Row(g, i), i));
    Horner(a, p, f[8], f[9], r[8], r[9], q[8]);
    Horner(b, p, f[7], t8, r[7], r[8], q[7]);
    Horner(a, p, f[6], t7, r[6], r[7], q[6]);
    Horner(b, p, f[5], t6, r[5], r[6], q[5]);
    Horner(a, p, f[4], t5, r[4], r[5], q[4]);
    Horner(b, p, f[3], t4, r[3], r[4], q[3]);
    Horner(a, p, f[2], t3, r[2], r[3], q[2]);
    Horner(b, p, f[1], t2, r[1], r[2], q[1]);
    Horner(a, p, f[0], t1, r[0], r[1], q[0]);
    NumberNested(a, b, f);
    z := t1 * q[0] + t2 * q[1] + t3 * q[2] + t4 * q[3] + t5 * q[4] + t6 * q[5] + t7 * q[6] + t8 * q[7] + f[9] * q[8];
    NineParts(p, t1 * q[0], t2 * q[1], t3 * q[2], t4 * q[3], t5 * q[4], t6 * q[5], t7 * q[6], t8 * q[7], f[9] * q[8]);
  }

  function Combination(a: int, b: int, f: Ten, g: Ten): int {
    f[0] * Number(a, b, Row(g, 0), 0) + f[1] * Number(a, b, Row(g, 1), 0) + f[2] * Number(a, b, Row(g, 2), 0)
    + f[3] * Number(a, b, Row(g, 3), 0) + f[4] * Number(a, b, Row(g, 4), 0) + f[5] * Number(a, b, Row(g, 5), 0)
    + f[6] * Number(a, b, Row(g, 6), 0) + f[7] * Number(a, b, Row(g, 7), 0) + f[8] * Number(a, b, Row(g, 8), 0)
    + f[9] * Number(a, b, Row(g, 9), 0)
  }

  lemma NineParts(p: int, z0: int, z1: int, z2: int, z3: int, z4: int, z5: int, z6: int, z7: int, z8: int)
    ensures p * (z0 + z1 + z2 + z3 + z4 + z5 + z6 + z7 + z8)
         == p * z0 + p * z1 + p * z2 + p * z3 + p * z4 + p * z5 + p * z6 + p * z7 + p * z8
  {
  }

  lemma NumberNested(a: int, b: int, f: Ten)
    ensures Number(a, b, f, 0)
         == f[0] + a * (f[1] + b * (f[2] + a * (f[3] + b * (f[4] + a * (f[5] + b * (f[6] + a * (f[7] + b * (f[8] + a * f[9]))))))))
  {
  }

  lemma AllRows(a: int, b: int, p: int, g: Ten)
    requires a == 2 * b && p + 19 == Full(a, b)
    ensures forall i | 0 <= i < 9 ::
              Radix(a, b, i) * Number(a, b, Row(g, i), 0) == Number(a, b, Row(g, i + 1), 0) + p * Top(Row(g, i), i)
  {
    hide Number, Full, Row, NextRow, Radix, Top;
    forall i: nat | i < 9
      ensures Radix(a, b, i) * Number(a, b, Row(g, i), 0) == Number(a, b, Row(g, i + 1), 0) + p * Top(Row(g, i), i)
    {
      TwoRows(g, i - i % 2);
      RowStep(a, b, p, Row(g, i), i);
      RowOf(g, i + 1);
    }
  }

  /** The limbs of the product, before any carry. */
  function Columns(f: Ten, g: Ten): Ten {
    Sum(Sum(Sum(Sum(Sum(Sum(Sum(Sum(Sum(
      Scale(f[0], Row(g, 0)), Scale(f[1], Row(g, 1))), Scale(f[2], Row(g, 2))), Scale(f[3], Row(g, 3))), Scale(f[4], Row(g, 4))),
      Scale(f[5], Row(g, 5))), Scale(f[6], Row(g, 6))), Scale(f[7], Row(g, 7))), Scale(f[8], Row(g, 8))), Scale(f[9], Row(g, 9)))
  }

  lemma ColumnsNumber(a: int, b: int, f: Ten, g: Ten)
    ensures Number(a, b, Columns(f, g), 0) == Combination(a, b, f, g)
  {
    hide Number, Row, Scale, Sum;
    var s := seq(10, i requires 0 <= i < 10 => Scale(f[i], Row(g, i)));
    forall i | 0 <= i < 10 ensures f[i] * Number(a, b, Row(g, i), 0) == Number(a, b, s[i], 0) {
      NumberScale(a, b, f[i], Row(g, i));
    }
    var c1 := Sum(s[0], s[1]);
    NumberAdd(a, b, s[0], s[1]);
    var c2 := Sum(c1, s[2]);
    NumberAdd(a, b, c1, s[2]);
    var c3 := Sum(c2, s[3]);
    NumberAdd(a, b, c2, s[3]);
    var c4 := Sum(c3, s[4]);
    NumberAdd(a, b, c3, s[4]);
    var c5 := Sum(c4, s[5]);
    NumberAdd(a, b, c4, s[5]);
    var c6 := Sum(c5, s[6]);
    NumberAdd(a, b, c5, s[6]);
    var c7 := Sum(c6, s[7]);
    NumberAdd(a, b, c6, s[7]);
    var c8 := Sum(c7, s[8]);
    NumberAdd(a, b, c7, s[8]);
    NumberAdd(a, b, c8, s[9]);
  }

  // The rows, written out

  lemma Rows0(g: Ten)
    ensures Row(g, 0) == [g[0], g[1], g[2], g[3], g[4], g[5], g[6], g[7], g[8], g[9]]
    ensures Row(g, 1) == [38 * g[9], g[0], 2 * g[1], g[2], 2 * g[3], g[4], 2 * g[5], g[6], 2 * g[7], g[8]]
    ensures Row(g, 2) == [19 * g[8], 19 * g[9], g[0], g[1], g[2], g[3], g[4], g[5], g[6], g[7]]
  {
    hide Row, NextRow, EvenRow, OddRow, EvenLimbsEven;
    RowOf(g, 0);
    TwoRows(g, 0);
  }

  lemma Rows2(g: Ten)
    ensures Row(g, 3) == [38 * g[7], 19 * g[8], 38 * g[9], g[0], 2 * g[1], g[2], 2 * g[3], g[4], 2 * g[5], g[6]]
    ensures Row(g, 4) == [19 * g[6], 19 * g[7], 19 * g[8], 19 * g[9], g[0], g[1], g[2], g[3], g[4], g[5]]
  {
    hide Row, NextRow, EvenRow, OddRow, EvenLimbsEven;
    Rows0(g);
    TwoRows(g, 2);
  }

  lemma Rows4(g: Ten)
    ensures Row(g, 5) == [38 * g[5], 19 * g[6], 38 * g[7], 19 * g[8], 38 * g[9], g[0], 2 * g[1], g[2], 2 * g[3], g[4]]
    ensures Row(g, 6) == [19 * g[4], 19 * g[5], 19 * g[6], 19 * g[7], 19 * g[8], 19 * g[9], g[0], g[1], g[2], g[3]]
  {
    hide Row, NextRow, EvenRow, OddRow, EvenLimbsEven;
    Rows2(g);
    TwoRows(g, 4);
  }

  lemma Rows6(g: Ten)
    ensures Row(g, 7) == [38 * g[3], 19 * g[4], 38 * g[5], 19 * g[6], 38 * g[7], 19 * g[8], 38 * g[9], g[0], 2 * g[1], g[2]]
    ensures Row(g, 8) == [19 * g[2], 19 * g[3], 19 * g[4], 19 * g[5], 19 * g[6], 19 * g[7], 19 * g[8], 19 * g[9], g[0], g[1]]
  {
    hide Row, NextRow, EvenRow, OddRow, EvenLimbsEven;
    Rows4(g);
    TwoRows(g, 6);
  }

  lemma Rows8(g: Ten)
    ensures Row(g, 9) == [38 * g[1], 19 * g[2], 38 * g[3], 19 * g[4], 38 * g[5], 19 * g[6], 38 * g[7], 19 * g[8], 38 * g[9], g[0]]
  {
    hide Row, NextRow, EvenRow, OddRow, EvenLimbsEven;
    Rows6(g);
    TwoRows(g, 8);
  }

  lemma RowTable(g: Ten)
    ensures Row(g, 0) == [g[0], g[1], g[2], g[3], g[4], g[5], g[6], g[7], g[8], g[9]]
    ensures Row(g, 1) == [38 * g[9], g[0], 2 * g[1], g[2], 2 * g[3], g[4], 2 * g[5], g[6], 2 * g[7], g[8]]
    ensures Row(g, 2) == [19 * g[8], 19 * g[9], g[0], g[1], g[2], g[3], g[4], g[5], g[6], g[7]]
    ensures Row(g, 3) == [38 * g[7], 19 * g[8], 38 * g[9], g[0], 2 * g[1], g[2], 2 * g[3], g[4], 2 * g[5], g[6]]
    ensures Row(g, 4) == [19 * g[6], 19 * g[7], 19 * g[8], 19 * g[9], g[0], g[1], g[2], g[3], g[4], g[5]]
    ensures Row(g, 5) == [38 * g[5], 19 * g[6], 38 * g[7], 19 * g[8], 38 * g[9], g[0], 2 * g[1], g[2], 2 * g[3], g[4]]
    ensures Row(g, 6) == [19 * g[4], 19 * g[5], 19 * g[6], 19 * g[7], 19 * g[8], 19 * g[9], g[0], g[1], g[2], g[3]]
    ensures Row(g, 7) == [38 * g[3], 19 * g[4], 38 * g[5], 19 * g[6], 38 * g[7], 19 * g[8], 38 * g[9], g[0], 2 * g[1], g[2]]
    ensures Row(g, 8) == [19 * g[2], 19 * g[3], 19 * g[4], 19 * g[5], 19 * g[6], 19 * g[7], 19 * g[8], 19 * g[9], g[0], g[1]]
    ensures Row(g, 9) == [38 * g[1], 19 * g[2], 38 * g[3], 19 * g[4], 38 * g[5], 19 * g[6], 38 * g[7], 19 * g[8], 38 * g[9], g[0]]
  {
    hide Row;
    Rows0(g);
    Rows2(g);
    Rows4(g);
    Rows6(g);
    Rows8(g);
  }

  /** Sums of products, as long as the code's. */
  function Dot10(x: seq<int>, y: seq<int>): int
    requires |x| == |y| == 10
  {
    x[0] * y[0] + x[1] * y[1] + x[2] * y[2] + x[3] * y[3] + x[4] * y[4]
    + x[5] * y[5] + x[6] * y[6] + x[7] * y[7] + x[8] * y[8] + x[9] * y[9]
  }

  function Dot6(x: seq<int>, y: seq<int>): int
    requires |x| == |y| == 6
  {
    x[0] * y[0] + x[1] * y[1] + x[2] * y[2] + x[3] * y[3] + x[4] * y[4] + x[5] * y[5]
  }

  function Dot5(x: seq<int>, y: seq<int>): int
    requires |x| == |y| == 5
  {
    x[0] * y[0] + x[1] * y[1] + x[2] * y[2] + x[3] * y[3] + x[4] * y[4]
  }

  // The columns as the multiplication adds them up, then as the squaring does

  lemma Column0(f: Ten, g: Ten)
    ensures Columns(f, g)[0]
         == Dot10([f[0], 2 * f[1], f[2], 2 * f[3], f[4], 2 * f[5], f[6], 2 * f[7], f[8], 2 * f[9]],
                  [g[0], 19 * g[9], 19 * g[8], 19 * g[7], 19 * g[6], 19 * g[5], 19 * g[4], 19 * g[3], 19 * g[2], 19 * g[1]])
  {
    hide Row;
    RowTable(g);
  }

  lemma Column1(f: Ten, g: Ten)
    ensures Columns(f, g)[1]
         == Dot10([f[0], f[1], f[2], f[3], f[4], f[5], f[6], f[7], f[8], f[9]],
                  [g[1], g[0], 19 * g[9], 19 * g[8], 19 * g[7], 19 * g[6], 19 * g[5], 19 * g[4], 19 * g[3], 19 * g[2]])
  {
    hide Row;
    RowTable(g);
  }

  lemma Column2(f: Ten, g: Ten)
    ensures Columns(f, g)[2]
         == Dot10([f[0], 2 * f[1], f[2], 2 * f[3], f[4], 2 * f[5], f[6], 2 * f[7], f[8], 2 * f[9]],
                  [g[2], g[1], g[0], 19 * g[9], 19 * g[8], 19 * g[7], 19 * g[6], 19 * g[5], 19 * g[4], 19 * g[3]])
  {
    hide Row;
    RowTable(g);
  }

  lemma Column3(f: Ten, g: Ten)
    ensures Columns(f, g)[3]
         == Dot10([f[0], f[1], f[2], f[3], f[4], f[5], f[6], f[7], f[8], f[9]],
                  [g[3], g[2], g[1], g[0], 19 * g[9], 19 * g[8], 19 * g[7], 19 * g[6], 19 * g[5], 19 * g[4]])
  {
    hide Row;
    RowTable(g);
  }

  lemma Column4(f: Ten, g: Ten)
    ensures Columns(f, g)[4]
         == Dot10([f[0], 2 * f[1], f[2], 2 * f[3], f[4], 2 * f[5], f[6], 2 * f[7], f[8], 2 * f[9]],
                  [g[4], g[3], g[2], g[1], g[0], 19 * g[9], 19 * g[8], 19 * g[7], 19 * g[6], 19 * g[5]])
  {
    hide Row;
    RowTable(g);
  }

  lemma Column5(f: Ten, g: Ten)
    ensures Columns(f, g)[5]
         == Dot10([f[0], f[1], f[2], f[3], f[4], f[5], f[6], f[7], f[8], f[9]],
                  [g[5], g[4], g[3], g[2], g[1], g[0], 19 * g[9], 19 * g[8], 19 * g[7], 19 * g[6]])
  {
    hide Row;
    RowTable(g);
  }

  lemma Column6(f: Ten, g: Ten)
    ensures Columns(f, g)[6]
         == Dot10([f[0], 2 * f[1], f[2], 2 * f[3], f[4], 2 * f[5], f[6], 2 * f[7], f[8], 2 * f[9]],
                  [g[6], g[5], g[4], g[3], g[2], g[1], g[0], 19 * g[9], 19 * g[8], 19 * g[7]])
  {
    hide Row;
    RowTable(g);
  }

  lemma Column7(f: Ten, g: Ten)
    ensures Columns(f, g)[7]
         == Dot10([f[0], f[1], f[2], f[3], f[4], f[5], f[6], f[7], f[8], f[9]],
                  [g[7], g[6], g[5], g[4], g[3], g[2], g[1], g[0], 19 * g[9], 19 * g[8]])
  {
    hide Row;
    RowTable(g);
  }

  lemma Column8(f: Ten, g: Ten)
    ensures Columns(f, g)[8]
         == Dot10([f[0], 2 * f[1], f[2], 2 * f[3], f[4], 2 * f[5], f[6], 2 * f[7], f[8], 2 * f[9]],
                  [g[8], g[7], g[6], g[5], g[4], g[3], g[2], g[1], g[0], 19 * g[9]])
  {
    hide Row;
    RowTable(g);
  }

  lemma Column9(f: Ten, g: Ten)
    ensures Columns(f, g)[9]
         == Dot10([f[0], f[1], f[2], f[3], f[4], f[5], f[6], f[7], f[8], f[9]],
                  [g[9], g[8], g[7], g[6], g[5], g[4], g[3], g[2], g[1], g[0]])
  {
    hide Row;
    RowTable(g);
  }

  lemma SquareColumn0(f: Ten)
    ensures Columns(f, f)[0]
         == Dot6([f[0], 2 * f[1], 2 * f[2], 2 * f[3], 2 * f[4], f[5]], [f[0], 38 * f[9], 19 * f[8], 38 * f[7], 19 * f[6], 38 * f[5]])
  {
    hide Columns;
    Column0(f, f);
  }

  lemma SquareColumn1(f: Ten)
    ensures Columns(f, f)[1]
         == Dot5([2 * f[0], f[2], 2 * f[3], f[4], 2 * f[5]], [f[1], 38 * f[9], 19 * f[8], 38 * f[7], 19 * f[6]])
  {
    hide Columns;
    Column1(f, f);
  }

  lemma SquareColumn2(f: Ten)
    ensures Columns(f, f)[2]
         == Dot6([2 * f[0], 2 * f[1], 2 * f[3], 2 * f[4], 2 * f[5], f[6]], [f[2], f[1], 38 * f[9], 19 * f[8], 38 * f[7], 19 * f[6]])
  {
    hide Columns;
    Column2(f, f);
  }

  lemma SquareColumn3(f: Ten)
    ensures Columns(f, f)[3]
         == Dot5([2 * f[0], 2 * f[1], f[4], 2 * f[5], f[6]], [f[3], f[2], 38 * f[9], 19 * f[8], 38 * f[7]])
  {
    hide Columns;
    Column3(f, f);
  }

  lemma SquareColumn4(f: Ten)
    ensures Columns(f, f)[4]
         == Dot6([2 * f[0], 2 * f[1], f[2], 2 * f[5], 2 * f[6], f[7]], [f[4], 2 * f[3], f[2], 38 * f[9], 19 * f[8], 38 * f[7]])
  {
    hide Columns;
    Column4(f, f);
  }

  lemma SquareColumn5(f: Ten)
    ensures Columns(f, f)[5]
         == Dot5([2 * f[0], 2 * f[1], 2 * f[2], f[6], 2 * f[7]], [f[5], f[4], f[3], 38 * f[9], 19 * f[8]])
  {
    hide Columns;
    Column5(f, f);
  }

  lemma SquareColumn6(f: Ten)
    ensures Columns(f, f)[6]
         == Dot6([2 * f[0], 2 * f[1], 2 * f[2], 2 * f[3], 2 * f[7], f[8]], [f[6], 2 * f[5], f[4], f[3], 38 * f[9], 19 * f[8]])
  {
    hide Columns;
    Column6(f, f);
  }

  lemma SquareColumn7(f: Ten)
    ensures Columns(f, f)[7]
         == Dot5([2 * f[0], 2 * f[1], 2 * f[2], 2 * f[3], f[8]], [f[7], f[6], f[5], f[4], 38 * f[9]])
  {
    hide Columns;
    Column7(f, f);
  }

  lemma SquareColumn8(f: Ten)
    ensures Columns(f, f)[8]
         == Dot6([2 * f[0], 2 * f[1], 2 * f[2], 2 * f[3], f[4], f[9]], [f[8], 2 * f[7], f[6], 2 * f[5], f[4], 38 * f[9]])
  {
    hide Columns;
    Column8(f, f);
  }

  lemma SquareColumn9(f: Ten)
    ensures Columns(f, f)[9]
         == Dot5([2 * f[0], 2 * f[1], 2 * f[2], 2 * f[3], f[4]], [f[9], f[8], f[7], f[6], 2 * f[5]])
  {
    hide Columns;
    Column9(f, f);
  }

  // Carrying

  /** Moving c from limb i to the next one. */
  function CarryMoved(a: int, b: int, y: Ten, i: nat, c: int): Ten
    requires i < 9
  {
    y[i := y[i] - Radix(a, b, i) * c][i + 1 := y[i + 1] + c]
  }

  lemma PairCarry(a: int, b: int, y0: int, y1: int, rest: int, c: int)
    ensures Pair(a, b, y0 - a * c, y1 + c, rest) == Pair(a, b, y0, y1, rest)
    ensures Pair(a, b, y0, y1 - b * c, rest + c) == Pair(a, b, y0, y1, rest)
  {
    MulDistribute(a, c, y1 + b * rest);
    MulDistribute(b, rest, c);
  }

  lemma CarryKeeps(a: int, b: int, y: Ten, i: nat, c: int)
    requires i < 9
    ensures Number(a, b, CarryMoved(a, b, y, i, c), 0) == Number(a, b, y, 0)
  {
    hide Pair;
    var n8 := Pair(a, b, y[8], y[9], 0);
    var n6 := Pair(a, b, y[6], y[7], n8);
    var n4 := Pair(a, b, y[4], y[5], n6);
    var n2 := Pair(a, b, y[2], y[3], n4);
    assert i == 0 || i == 1 || i == 2 || i == 3 || i == 4 || i == 5 || i == 6 || i == 7 || i == 8;
    var rest := if i <= 1 then n2 else if i <= 3 then n4 else if i <= 5 then n6 else if i <= 7 then n8 else 0;
    var k := i - i % 2;
    PairCarry(a, b, y[k], y[k + 1], rest, c);
    if i == 1 { AddLow(a, b, y[2], y[3], n4, c); }
    if i == 3 { AddLow(a, b, y[4], y[5], n6, c); }
    if i == 5 { AddLow(a, b, y[6], y[7], n8, c); }
    if i == 7 { AddLow(a, b, y[8], y[9], 0, c); }
  }

  /** Moving c from the last limb to the first, nineteen times as much. */
  lemma WrapCarry(a: int, b: int, p: int, y: Ten, c: int)
    requires p + 19 == Full(a, b)
    ensures Number(a, b, y, 0) == Number(a, b, y[9 := y[9] - b * c][0 := y[0] + 19 * c], 0) + p * c
  {
    hide Full;
    PairCarry(a, b, y[8], y[9], 0, c);
    var z := y[9 := y[9] - b * c];
    assert Number(a, b, z, c) == Number(a, b, y, 0);
    Fold(a, b, p, z, c);
  }
}
