/** Field elements modulo 2^255 - 19: multiplication, squaring, carry propagation and canonical bytes. */
module Field {
  import opened Powers
  import opened Words
  import opened Bits
  import opened Limbs
  import opened FieldLimbs

  const A: int := 0x400_0000
  const B: int := 0x200_0000

  /** The prime 2^255 - 19. */
  ghost function Prime(): int {
    Full(A, B) - 19
  }

  ghost function Value(h: Ten): int {
    Number(A, B, h, 0)
  }

  lemma PrimeIs()
    ensures Prime() == Pow2(255) - 19 && Prime() > 0
  {
    hide Pow2;
    var m := A * B;
    assert m == Pow2(51) by {
      WordPowers();
      Pow2Add(32, 16);
      Pow2Add(48, 2);
      Pow2Double(0);
      Pow2Double(1);
      Pow2Double(50);
      PowZero();
    }
    Pow2Add(51, 51);
    Pow2Add(51, 102);
    Pow2Add(51, 153);
    Pow2Add(51, 204);
    Pow2Monotone(5, 255);
    Pow2Double(1);
    Pow2Double(2);
    Pow2Double(3);
    Pow2Double(4);
  }

  lemma PowZero()
    ensures Pow2(0) == 1 && Pow2(2) == 4
  {
  }

  /** Limb i is at most even, or odd. */
  ghost predicate Bounded(h: Ten, even: int, odd: int) {
    forall i | 0 <= i < 10 :: -(if i % 2 == 0 then even else odd) <= h[i] <= if i % 2 == 0 then even else odd
  }

  /** Below 1.1 * 2^25 and 1.1 * 2^24. */
  ghost predicate Tight(h: Ten) {
    Bounded(h, 36909875, 18454937)
  }

  /** Below 1.65 * 2^26 and 1.65 * 2^25: what a sum or difference of two tight elements is. */
  ghost predicate Loose(h: Ten) {
    Bounded(h, 110729625, 55364812)
  }

  lemma SumsAreLoose(f: Ten, g: Ten)
    requires Tight(f) && Tight(g)
    ensures Loose(Sum(f, g)) && Loose(Sum(f, Scale(-1, g)))
    ensures Value(Sum(f, g)) == Value(f) + Value(g) && Value(Sum(f, Scale(-1, g))) == Value(f) - Value(g)
  {
    hide Number;
    NumberAdd(A, B, f, g);
    NumberScale(A, B, -1, g);
    NumberAdd(A, B, f, Scale(-1, g));
  }

  // Carry propagation

  type i64x10 = s: seq<i64> | |s| == 10 witness [0, 0, 0, 0, 0, 0, 0, 0, 0, 0]

  const MAX: int := 0x4000_0000_0000_0000

  /** One line of the carry macro, for any limb but the last; c is the carry, rounded to the nearest. */
  method CarryLimb(t: i64x10, i: nat) returns (n: i64x10, ghost c: int)
    requires i < 9 && -2 * MAX <= t[i] < 2 * MAX - A && -MAX - MAX / 2 <= t[i + 1] <= MAX + MAX / 2
    ensures i % 2 == 0 ==> n[i] == t[i] - A * c && -(A / 2) <= n[i] <= A / 2
    ensures i % 2 == 1 ==> n[i] == t[i] - B * c && -(B / 2) <= n[i] <= B / 2
    ensures n[i + 1] == t[i + 1] + c && forall j | 0 <= j < 10 && j != i && j != i + 1 :: n[j] == t[j]
    ensures Value(n) == Value(t)
  {
    hide Number;
    var r := if i % 2 == 0 then A else B;
    var sum: i64 := t[i] + r / 2;
    var d: i64 := sum / r;
    c := d;
    CarryKeeps(A, B, t, i, c);
    n := t[i := t[i] - d * r][i + 1 := t[i + 1] + d];
    assert n == CarryMoved(A, B, t, i, c);
  }

  /** The carry out of the last limb comes back to the first, nineteen times. */
  method CarryAround(t: i64x10) returns (n: i64x10, ghost c: int)
    requires -2 * MAX <= t[9] < 2 * MAX - A && -A <= t[0] <= A
    ensures n[9] == t[9] - B * c && -(B / 2) <= n[9] <= B / 2
    ensures n[0] == t[0] + 19 * c && forall j | 0 < j < 9 :: n[j] == t[j]
    ensures Value(t) == Value(n) + Prime() * c
  {
    hide Number, Full;
    var sum: i64 := t[9] + B / 2;
    var d: i64 := sum / B;
    c := d;
    WrapCarry(A, B, Prime(), t, c);
    n := t[9 := t[9] - d * B][0 := t[0] + d * 19];
  }

  /** The first six carries: limbs 0 to 2 and 4 to 6 become small. */
  method CarryFirst(t0: i64x10) returns (t: i64x10)
    requires forall i | 0 <= i < 10 :: -MAX <= t0[i] <= MAX
    ensures Value(t) == Value(t0) && t[8] == t0[8] && t[9] == t0[9]
    ensures -(A / 2) <= t[0] <= A / 2 && -(A / 2) <= t[2] <= A / 2 && -(A / 2) <= t[4] <= A / 2 && -(A / 2) <= t[6] <= A / 2
    ensures -(B / 2) <= t[1] <= B / 2 && -(B / 2) <= t[5] <= B / 2
    ensures -MAX - MAX / 4 <= t[3] <= MAX + MAX / 4 && -MAX - MAX / 4 <= t[7] <= MAX + MAX / 4
  {
    hide Value;
    t := t0;
    ghost var c0, c4, c1, c5, c2, c6;
    t, c0 := CarryLimb(t, 0);
    t, c4 := CarryLimb(t, 4);
    t, c1 := CarryLimb(t, 1);
    t, c5 := CarryLimb(t, 5);
    t, c2 := CarryLimb(t, 2);
    t, c6 := CarryLimb(t, 6);
  }

  /** FE_CARRY: twelve carries, after which every limb is tight. */
  method Carry(t0: i64x10) returns (h: Ten, ghost z: int)
    requires forall i | 0 <= i < 10 :: -MAX <= t0[i] <= MAX
    ensures Tight(h) && Value(t0) == Value(h) + Prime() * z
  {
    hide Value, Prime;
    var t := CarryFirst(t0);
    ghost var c3, c7, c4, c8, c0;
    t, c3 := CarryLimb(t, 3);
    t, c7 := CarryLimb(t, 7);
    t, c4 := CarryLimb(t, 4);
    t, c8 := CarryLimb(t, 8);
    t, z := CarryAround(t);
    t, c0 := CarryLimb(t, 0);
    h := t;
    AllTight(h);
  }

  lemma AllTight(h: Ten)
    requires forall i | 0 <= i < 10 :: (i % 2 == 0 ==> -36909875 <= h[i] <= 36909875) && (i % 2 == 1 ==> -18454937 <= h[i] <= 18454937)
    ensures Tight(h)
  {
  }

  // Multiplication

  /** A product of a limb and a row entry, and any sum of at most ten of them, fits 62 bits. */
  lemma ColumnBound(f: Ten, g: Ten, k: nat)
    requires Loose(f) && Loose(g) && k < 10
    ensures -MAX <= Columns(f, g)[k] <= MAX
  {
    hide Row, Columns;
    ColumnIs(f, g, k);
    RowBound(g);
    Term(f[0], Row(g, 0)[k]);
    Term(f[1], Row(g, 1)[k]);
    Term(f[2], Row(g, 2)[k]);
    Term(f[3], Row(g, 3)[k]);
    Term(f[4], Row(g, 4)[k]);
    Term(f[5], Row(g, 5)[k]);
    Term(f[6], Row(g, 6)[k]);
    Term(f[7], Row(g, 7)[k]);
    Term(f[8], Row(g, 8)[k]);
    Term(f[9], Row(g, 9)[k]);
  }

  lemma ColumnIs(f: Ten, g: Ten, k: nat)
    requires k < 10
    ensures Columns(f, g)[k]
         == f[0] * Row(g, 0)[k] + f[1] * Row(g, 1)[k] + f[2] * Row(g, 2)[k] + f[3] * Row(g, 3)[k] + f[4] * Row(g, 4)[k]
            + f[5] * Row(g, 5)[k] + f[6] * Row(g, 6)[k] + f[7] * Row(g, 7)[k] + f[8] * Row(g, 8)[k] + f[9] * Row(g, 9)[k]
  {
    hide Row;
    assert k == 0 || k == 1 || k == 2 || k == 3 || k == 4 || k == 5 || k == 6 || k == 7 || k == 8 || k == 9;
  }

  lemma Term(x: int, y: int)
    requires -110729625 <= x <= 110729625 && -2103862875 <= y <= 2103862875
    ensures -(110729625 * 2103862875) <= x * y <= 110729625 * 2103862875
  {
    var a, b := if x < 0 then -x else x, if y < 0 then -y else y;
    MulMonotone(a, b, 2103862875);
    MulMonotone(2103862875, a, 110729625);
  }

  lemma RowBound(g: Ten)
    requires Loose(g)
    ensures forall i, k | 0 <= i < 10 && 0 <= k < 10 :: -2103862875 <= Row(g, i)[k] <= 2103862875
  {
    hide Row;
    RowTable(g);
    forall i, k | 0 <= i < 10 && 0 <= k < 10 ensures -2103862875 <= Row(g, i)[k] <= 2103862875 {
      assert i == 0 || i == 1 || i == 2 || i == 3 || i == 4 || i == 5 || i == 6 || i == 7 || i == 8 || i == 9;
    }
  }

  /** A limb, doubled if need be, and a limb, perhaps times 19 or 38. */
  predicate IsFactor(x: int, y: int) {
    -221459250 <= x <= 221459250 && -2103862875 <= y <= 2103862875
  }

  const PRODUCT_MAX: int := 221459250 * 2103862875

  lemma ProductFits(x: int, y: int)
    requires IsFactor(x, y)
    ensures -PRODUCT_MAX <= x * y <= PRODUCT_MAX
  {
    var a, b := if x < 0 then -x else x, if y < 0 then -y else y;
    MulMonotone(a, b, 2103862875);
    MulMonotone(2103862875, a, 221459250);
    Signs(x, y);
  }

  lemma Signs(x: int, y: int)
    ensures (-x) * y == -(x * y) && x * (-y) == -(x * y) && (-x) * (-y) == x * y
  {
  }

  /** A product of 32-bit words, taken in 64 bits. */
  method Product(x: i32, y: i32) returns (p: i64)
    requires IsFactor(x, y)
    ensures p == (x as int) * (y as int) && -PRODUCT_MAX <= p <= PRODUCT_MAX
  {
    ProductFits(x, y);
    var a: int, b: int := x, y;
    p := a * b;
  }

  // The columns, product by product: every product and every partial sum is a 64-bit word

  method Sum10(x0: i32, x1: i32, x2: i32, x3: i32, x4: i32, x5: i32, x6: i32, x7: i32, x8: i32, x9: i32,
              y0: i32, y1: i32, y2: i32, y3: i32, y4: i32, y5: i32, y6: i32, y7: i32, y8: i32, y9: i32) returns (t: i64)
    requires IsFactor(x0, y0) && IsFactor(x1, y1) && IsFactor(x2, y2) && IsFactor(x3, y3) && IsFactor(x4, y4)
    requires IsFactor(x5, y5) && IsFactor(x6, y6) && IsFactor(x7, y7) && IsFactor(x8, y8) && IsFactor(x9, y9)
    ensures t == Dot10([x0, x1, x2, x3, x4, x5, x6, x7, x8, x9], [y0, y1, y2, y3, y4, y5, y6, y7, y8, y9])
  {
    var p: i64;
    t := Product(x0, y0);
    p := Product(x1, y1);
    t := t + p;
    p := Product(x2, y2);
    t := t + p;
    p := Product(x3, y3);
    t := t + p;
    p := Product(x4, y4);
    t := t + p;
    p := Product(x5, y5);
    t := t + p;
    p := Product(x6, y6);
    t := t + p;
    p := Product(x7, y7);
    t := t + p;
    p := Product(x8, y8);
    t := t + p;
    p := Product(x9, y9);
    t := t + p;
  }

  method Sum6(x0: i32, x1: i32, x2: i32, x3: i32, x4: i32, x5: i32,
             y0: i32, y1: i32, y2: i32, y3: i32, y4: i32, y5: i32) returns (t: i64)
    requires IsFactor(x0, y0) && IsFactor(x1, y1) && IsFactor(x2, y2) && IsFactor(x3, y3) && IsFactor(x4, y4)
    requires IsFactor(x5, y5)
    ensures t == Dot6([x0, x1, x2, x3, x4, x5], [y0, y1, y2, y3, y4, y5])
  {
    var p: i64;
    t := Product(x0, y0);
    p := Product(x1, y1);
    t := t + p;
    p := Product(x2, y2);
    t := t + p;
    p := Product(x3, y3);
    t := t + p;
    p := Product(x4, y4);
    t := t + p;
    p := Product(x5, y5);
    t := t + p;
  }

  method Sum5(x0: i32, x1: i32, x2: i32, x3: i32, x4: i32,
             y0: i32, y1: i32, y2: i32, y3: i32, y4: i32) returns (t: i64)
    requires IsFactor(x0, y0) && IsFactor(x1, y1) && IsFactor(x2, y2) && IsFactor(x3, y3) && IsFactor(x4, y4)
    ensures t == Dot5([x0, x1, x2, x3, x4], [y0, y1, y2, y3, y4])
  {
    var p: i64;
    t := Product(x0, y0);
    p := Product(x1, y1);
    t := t + p;
    p := Product(x2, y2);
    t := t + p;
    p := Product(x3, y3);
    t := t + p;
    p := Product(x4, y4);
    t := t + p;
  }

  /** The columns of a product, in 32- and 64-bit words. */
  method MulColumns(f: Ten, g: Ten) returns (t: i64x10)
    requires Loose(f) && Loose(g)
    ensures t == Columns(f, g) && forall i | 0 <= i < 10 :: -MAX <= t[i] <= MAX
  {
    hide Columns, Dot10;
    var f0: i32, f1: i32, f2: i32, f3: i32, f4: i32 := f[0], f[1], f[2], f[3], f[4];
    var f5: i32, f6: i32, f7: i32, f8: i32, f9: i32 := f[5], f[6], f[7], f[8], f[9];
    var g0: i32, g1: i32, g2: i32, g3: i32, g4: i32 := g[0], g[1], g[2], g[3], g[4];
    var g5: i32, g6: i32, g7: i32, g8: i32, g9: i32 := g[5], g[6], g[7], g[8], g[9];
    var F1: i32, F3: i32, F5: i32, F7: i32, F9: i32 := f1 * 2, f3 * 2, f5 * 2, f7 * 2, f9 * 2;
    var G1: i32, G2: i32, G3: i32 := g1 * 19, g2 * 19, g3 * 19;
    var G4: i32, G5: i32, G6: i32 := g4 * 19, g5 * 19, g6 * 19;
    var G7: i32, G8: i32, G9: i32 := g7 * 19, g8 * 19, g9 * 19;
    AllColumns(f, g);
    Column0(f, g);
    var t0 := Sum10(f0, F1, f2, F3, f4, F5, f6, F7, f8, F9, g0, G9, G8, G7, G6, G5, G4, G3, G2, G1);
    Column1(f, g);
    var t1 := Sum10(f0, f1, f2, f3, f4, f5, f6, f7, f8, f9, g1, g0, G9, G8, G7, G6, G5, G4, G3, G2);
    Column2(f, g);
    var t2 := Sum10(f0, F1, f2, F3, f4, F5, f6, F7, f8, F9, g2, g1, g0, G9, G8, G7, G6, G5, G4, G3);
    Column3(f, g);
    var t3 := Sum10(f0, f1, f2, f3, f4, f5, f6, f7, f8, f9, g3, g2, g1, g0, G9, G8, G7, G6, G5, G4);
    Column4(f, g);
    var t4 := Sum10(f0, F1, f2, F3, f4, F5, f6, F7, f8, F9, g4, g3, g2, g1, g0, G9, G8, G7, G6, G5);
    Column5(f, g);
    var t5 := Sum10(f0, f1, f2, f3, f4, f5, f6, f7, f8, f9, g5, g4, g3, g2, g1, g0, G9, G8, G7, G6);
    Column6(f, g);
    var t6 := Sum10(f0, F1, f2, F3, f4, F5, f6, F7, f8, F9, g6, g5, g4, g3, g2, g1, g0, G9, G8, G7);
    Column7(f, g);
    var t7 := Sum10(f0, f1, f2, f3, f4, f5, f6, f7, f8, f9, g7, g6, g5, g4, g3, g2, g1, g0, G9, G8);
    Column8(f, g);
    var t8 := Sum10(f0, F1, f2, F3, f4, F5, f6, F7, f8, F9, g8, g7, g6, g5, g4, g3, g2, g1, g0, G9);
    Column9(f, g);
    var t9 := Sum10(f0, f1, f2, f3, f4, f5, f6, f7, f8, f9, g9, g8, g7, g6, g5, g4, g3, g2, g1, g0);
    t := [t0, t1, t2, t3, t4, t5, t6, t7, t8, t9];
  }

  lemma AllColumns(f: Ten, g: Ten)
    requires Loose(f) && Loose(g)
    ensures forall k | 0 <= k < 10 :: -MAX <= Columns(f, g)[k] <= MAX
  {
    hide Columns;
    forall k: nat | k < 10 ensures -MAX <= Columns(f, g)[k] <= MAX {
      ColumnBound(f, g, k);
    }
  }

  /** The columns of a square, with every product taken once. */
  method SquareColumns(f: Ten) returns (t: i64x10)
    requires Loose(f)
    ensures t == Columns(f, f) && forall i | 0 <= i < 10 :: -MAX <= t[i] <= MAX
  {
    hide Columns, Dot5, Dot6;
    var f0: i32, f1: i32, f2: i32, f3: i32, f4: i32 := f[0], f[1], f[2], f[3], f[4];
    var f5: i32, f6: i32, f7: i32, f8: i32, f9: i32 := f[5], f[6], f[7], f[8], f[9];
    var f0_2: i32, f1_2: i32, f2_2: i32, f3_2: i32, f4_2: i32 := f0 * 2, f1 * 2, f2 * 2, f3 * 2, f4 * 2;
    var f5_2: i32, f6_2: i32, f7_2: i32 := f5 * 2, f6 * 2, f7 * 2;
    var f6_19: i32, f8_19: i32 := f6 * 19, f8 * 19;
    var f5_38: i32, f7_38: i32, f9_38: i32 := f5 * 38, f7 * 38, f9 * 38;
    AllColumns(f, f);
    SquareColumn0(f);
    var t0 := Sum6(f0, f1_2, f2_2, f3_2, f4_2, f5, f0, f9_38, f8_19, f7_38, f6_19, f5_38);
    SquareColumn1(f);
    var t1 := Sum5(f0_2, f2, f3_2, f4, f5_2, f1, f9_38, f8_19, f7_38, f6_19);
    SquareColumn2(f);
    var t2 := Sum6(f0_2, f1_2, f3_2, f4_2, f5_2, f6, f2, f1, f9_38, f8_19, f7_38, f6_19);
    SquareColumn3(f);
    var t3 := Sum5(f0_2, f1_2, f4, f5_2, f6, f3, f2, f9_38, f8_19, f7_38);
    SquareColumn4(f);
    var t4 := Sum6(f0_2, f1_2, f2, f5_2, f6_2, f7, f4, f3_2, f2, f9_38, f8_19, f7_38);
    SquareColumn5(f);
    var t5 := Sum5(f0_2, f1_2, f2_2, f6, f7_2, f5, f4, f3, f9_38, f8_19);
    SquareColumn6(f);
    var t6 := Sum6(f0_2, f1_2, f2_2, f3_2, f7_2, f8, f6, f5_2, f4, f3, f9_38, f8_19);
    SquareColumn7(f);
    var t7 := Sum5(f0_2, f1_2, f2_2, f3_2, f8, f7, f6, f5, f4, f9_38);
    SquareColumn8(f);
    var t8 := Sum6(f0_2, f1_2, f2_2, f3_2, f4, f9, f8, f7_2, f6, f5_2, f4, f9_38);
    SquareColumn9(f);
    var t9 := Sum5(f0_2, f1_2, f2_2, f3_2, f4, f9, f8, f7, f6, f5_2);
    t := [t0, t1, t2, t3, t4, t5, t6, t7, t8, t9];
  }

  /** h = f * g modulo 2^255 - 19; h may be f or g. */
  method Mul(h: array<i32>, f: array<i32>, g: array<i32>)
    requires h.Length == f.Length == g.Length == 10 && Loose(f[..]) && Loose(g[..])
    modifies h
    ensures Tight(h[..]) && Congruent(Value(h[..]), old(Value(f[..]) * Value(g[..])))
  {
    hide Value, Prime, Columns, Combination, Number, Full, Loose;
    ghost var x, y := f[..], g[..];
    var t := MulColumns(f[..], g[..]);
    CarryInto(h, t);
    ProductCongruent(x, y, t);
    ThenReduced(Value(x) * Value(y), Value(t), Value(h[..]));
  }

  /** h = f * f, modulo 2^255 - 19. */
  method Square(h: array<i32>, f: array<i32>)
    requires h.Length == f.Length == 10 && Loose(f[..])
    modifies h
    ensures Tight(h[..]) && Congruent(Value(h[..]), old(Value(f[..]) * Value(f[..])))
  {
    hide Value, Prime, Columns, Combination, Number, Full, Loose;
    ghost var x := f[..];
    var t := SquareColumns(f[..]);
    CarryInto(h, t);
    ProductCongruent(x, x, t);
    ThenReduced(Value(x) * Value(x), Value(t), Value(h[..]));
  }

  ghost predicate Congruent(x: int, y: int) {
    exists z :: x - y == Prime() * z
  }

  lemma ThenReduced(x: int, t: int, h: int)
    requires Congruent(x, t) && Congruent(t, h)
    ensures Congruent(h, x)
  {
    hide Prime;
    var z1 :| x - t == Prime() * z1;
    var z2 :| t - h == Prime() * z2;
    MulDistribute(Prime(), z1, z2);
    MulDistribute(Prime(), 0, z1 + z2);
    assert h - x == Prime() * (0 - (z1 + z2));
  }

  lemma ProductCongruent(f: Ten, g: Ten, t: Ten)
    requires t == Columns(f, g)
    ensures Congruent(Value(f) * Value(g), Value(t))
  {
    hide Columns, Combination, Number, Full;
    ColumnsNumber(A, B, f, g);
    var z := ProductByRows(A, B, Prime(), f, g);
    assert Value(f) * Value(g) - Value(t) == Prime() * z;
  }

  /** Carries and writes the limbs as 32-bit words. */
  method CarryInto(h: array<i32>, t: i64x10)
    requires h.Length == 10 && forall i | 0 <= i < 10 :: -MAX <= t[i] <= MAX
    modifies h
    ensures Tight(h[..]) && Congruent(Value(t), Value(h[..]))
  {
    hide Value, Prime;
    var r, z := Carry(t);
    for i := 0 to 10
      invariant forall j | 0 <= j < i :: h[j] == r[j]
    {
      h[i] := r[i];
    }
    assert h[..] == r;
    assert Value(t) - Value(h[..]) == Prime() * z;
  }
}
