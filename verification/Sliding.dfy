/**
 Signed sliding windows over a scalar, from the top bit down, and the ladder that adds two scalar
 multiples in one pass.
 */
module Sliding {
  import opened Powers
  import opened Words
  import opened Bits

  function ScalarBit(scalar: seq<u8>, i: int): (b: nat)
    requires |scalar| == 32 && i < 256
  {
    if i < 0 then 0 else scalar[i / 8] / Pow2(i % 8) % 2
  }

  lemma {:induction false} BytesAreBits(k: nat)
    ensures Pow(256, k) == Pow2(8 * k)
  {
    if k > 0 {
      BytesAreBits(k - 1);
      Pow2Add(8, 8 * (k - 1));
      SmallPowers();
      assert Pow2(8) == 256;
    }
  }

  /** The bit taken from a byte of the scalar is the bit of the number. */
  lemma ScalarBitIs(scalar: seq<u8>, i: int)
    requires |scalar| == 32 && i < 256
    ensures 0 <= Val(256, scalar) && ScalarBit(scalar, i) == Bit(Val(256, scalar), i)
  {
    hide Pow, Val;
    ValBound(256, scalar);
    if i >= 0 {
      var k, r, x := i / 8, i % 8, Val(256, scalar);
      ValSplit(256, scalar, k);
      ValBound(256, scalar[..k]);
      ValBound(256, scalar[k + 1..]);
      HeadOf(256, scalar, k);
      BytesAreBits(k);
      var rest := Val(256, scalar[k + 1..]);
      DivModUnique(x, Pow2(8 * k), scalar[k] + 256 * rest, Val(256, scalar[..k]));
      Pow2Add(8 * k, r);
      DivDiv(x, Pow2(8 * k), Pow2(r));
      ByteBit(scalar[k], rest, r);
    }
  }

  lemma ByteBit(b: u8, rest: nat, r: nat)
    requires r < 8
    ensures (b + 256 * rest) / Pow2(r) % 2 == b / Pow2(r) % 2
  {
    hide Pow2;
    Pow2Add(r, 8 - r);
    Pow2Eight();
    Pow2Step(7 - r);
    assert r + (8 - r) == 8 && 7 - r + 1 == 8 - r;
    HighBytes(b, rest, Pow2(r), Pow2(7 - r));
  }

  lemma HighBytes(b: nat, rest: nat, p: nat, w: nat)
    requires p > 0 && 256 == p * (2 * w)
    ensures (b + 256 * rest) / p % 2 == b / p % 2
  {
    DivMod(b, p);
    MulAssoc(p, 2 * w, rest);
    MulAssoc(2, w, rest);
    MulDistribute(p, b / p, 2 * (w * rest));
    DivModUnique(b + 256 * rest, p, b / p + 2 * (w * rest), b % p);
    AddEven(b / p, w * rest);
  }

  lemma AddEven(a: nat, b: nat)
    ensures (a + 2 * b) % 2 == a % 2
  {
  }

  /** x / 2^n rounded to the nearest integer, half upwards. */
  function Round(x: nat, n: nat): nat {
    Shr(x, n) + Bit(x, n - 1)
  }

  /** The value of the window of w bits below and including bit i. */
  function WindowValue(x: nat, i: nat, w: nat): int
    requires 1 <= w <= i + 1
  {
    Field(x, i + 1 - w, w - 1) - Bit(x, i) * Pow2(w - 1) + Bit(x, i - w)
  }

  lemma RoundStep(x: nat, i: nat)
    requires Bit(x, i) == Bit(x, i - 1)
    ensures Round(x, i) == 2 * Round(x, i + 1)
  {
    HalfShift(x, i);
  }

  /** A window takes the rounding from one position to another. */
  lemma RoundWindow(x: nat, i: nat, w: nat)
    requires 1 <= w <= i + 1
    ensures Round(x, i + 1 - w) == Pow2(w) * Round(x, i + 1) + WindowValue(x, i, w)
  {
    hide Pow2, Bit, Shr;
    var n := i + 1 - w;
    FieldIs(x, n, w);
    assert n + w == i + 1 && n + w - 1 == i && n - 1 == i - w && i + 1 - 1 == i;
    Pow2Step(w);
    MulDistribute(Pow2(w), Shr(x, i + 1), Bit(x, i));
    MulAssoc(2, Pow2(w - 1), Bit(x, i));
  }

  /** A window that starts where two bits differ is not zero, and is bounded. */
  lemma WindowBounds(x: nat, i: nat, w: nat)
    requires 1 <= w <= i + 1 && Bit(x, i) != Bit(x, i - 1)
    ensures WindowValue(x, i, w) != 0 && 0 - Pow2(w - 1) <= WindowValue(x, i, w) <= Pow2(w - 1)
  {
    hide Bit, Shr;
    FieldIs(x, i + 1 - w, w - 1);
    if w >= 2 {
      FieldIs(x, i + 1 - w, w - 2);
      assert i + 1 - w + (w - 1) - 1 == i - 1;
      Pow2Step(w - 1);
    }
  }

  /** v as a 32-bit word in two's complement. */
  function TwosComplement(v: int): (r: nat)
    requires -0x8000_0000 <= v < 0x8000_0000
  {
    if v < 0 then v + 0x1_0000_0000 else v
  }

  /** The smallest bit of v, and v without its trailing zeros. */
  lemma SmallestBit(v: int, w: nat) returns (s: nat)
    requires v != 0 && 1 <= w <= 8 && 0 - Pow2(w - 1) <= v <= Pow2(w - 1)
    ensures -128 <= v <= 128
    ensures s < w && And(TwosComplement(v), 0x1_0000_0000 - TwosComplement(v)) == Pow2(s)
    ensures v == v / Pow2(s) * Pow2(s) && v / Pow2(s) % 2 == 1
    ensures v / Pow2(s) == 1 || v / Pow2(s) == -1 || 0 - Pow2(w - 1) < v / Pow2(s) < Pow2(w - 1)
  {
    hide And, Pow2;
    Pow2Monotone(w - 1, 7);
    SmallPowers();
    WordPowers();
    s := AndNegative(TwosComplement(v), 32);
    SignedQuotient(v, s);
    QuotientBound(v / Pow2(s), Pow2(s), Pow2(w - 1));
    if s >= w {
      Pow2Monotone(w - 1, s);
      assert false;
    }
    if s == 0 && w > 1 {
      Pow2Step(w - 1);
      assert Pow2(0) == 1;
    }
  }

  lemma QuotientBound(d: int, p: nat, m: nat)
    requires p > 0 && d != 0 && 0 - m <= d * p <= m
    ensures p <= m && (p >= 2 ==> 0 - m < d < m) && (p == 1 ==> 0 - m <= d <= m)
  {
    MulAtLeast(d, p);
    if p >= 2 {
      OddBelow(d, p, m);
    }
  }

  lemma SignedQuotient(v: int, s: nat)
    requires -128 <= v <= 128 && v != 0 && s < 32
    requires TwosComplement(v) % Pow2(s) == 0 && TwosComplement(v) / Pow2(s) % 2 == 1
    ensures v == v / Pow2(s) * Pow2(s) && v / Pow2(s) % 2 == 1
  {
    hide Pow2;
    var p, h := Pow2(s), Pow2(31 - s);
    var q := TwosComplement(v) / p;
    DivMod(TwosComplement(v), p);
    WordPowers();
    Pow2Add(s, 32 - s);
    Pow2Step(31 - s);
    assert s + (32 - s) == 32;
    MulDistribute(p, q, 2 * h);
    ExactQuotient(v, p, if v < 0 then q - 2 * h else q);
    OddMinus(q, h);
  }

  lemma OddMinus(q: nat, h: nat)
    requires q % 2 == 1
    ensures (q - 2 * h) % 2 == 1
  {
  }

  lemma ExactQuotient(v: int, p: nat, q: int)
    requires p > 0 && v == p * q
    ensures v / p == q && v == v / p * p
  {
    DivModUnique(v, p, q, 0);
    MulAssoc(p, q, 1);
  }

  lemma MulAtLeast(d: int, p: nat)
    requires p > 0 && d != 0
    ensures d * p >= p || d * p <= 0 - p
  {
    if d > 0 { MulMonotone(p, 1, d); } else { MulMonotone(p, d, -1); }
  }

  lemma OddBelow(d: int, p: nat, m: nat)
    requires p >= 2 && m > 0 && 0 - m <= d * p <= m
    ensures 0 - m < d < m
  {
    if d >= m { MulMonotone(p, m, d); MulMonotone(m, 2, p); }
    if d <= 0 - m { MulMonotone(p, d, 0 - m); MulMonotone(m, 2, p); }
  }

  /** An odd digit that indexes a table of the odd multiples below 2^(width - 1). */
  ghost predicate IsDigit(d: int, width: nat) {
    2 <= width && d % 2 == 1 && 0 - Pow2(width - 1) < d < Pow2(width - 1)
  }

  lemma ZeroShift(x: nat, k: nat)
    ensures Shr(x, k) == 0 <==> x < Pow2(k)
  {
    DivMod(x, Pow2(k));
    if x >= Pow2(k) && Shr(x, k) == 0 {
      assert Pow2(k) * Shr(x, k) == 0;
    }
    if Shr(x, k) > 0 {
      MulMonotone(Pow2(k), 1, Shr(x, k));
    }
  }

  /** The state of a slide as a value: the position and value of the digit computed last, and the next position to check. */
  datatype Slide = Slide(index: int, digit: int, next: nat)

  /** The digit that was computed and not emitted yet, with its weight. */
  ghost function Pending(t: Slide, i: int): int {
    if t.next <= t.index <= i then t.digit * Pow2(t.index) else 0
  }

  /**
   Before the step for bit i: acc, the value of the digits emitted so far in units of 2^(i + 1), and the
   pending digit make up x rounded to a multiple of 2^next.
   */
  ghost predicate Consistent(t: Slide, x: nat, width: nat, i: int, acc: int) {
    && -1 <= i <= 253 && t.next <= i + 1 && (t.index == -1 || t.index >= t.next)
    && Pow2(i + 1) * acc + Pending(t, i) == Pow2(t.next) * Round(x, t.next)
    && (t.next <= t.index <= i ==> IsDigit(t.digit, width))
  }

  lemma SkipBit(t: Slide, x: nat, width: nat, i: nat, acc: int)
    requires Consistent(t, x, width, i, acc) && t.next == i + 1 && Bit(x, i) == Bit(x, i - 1)
    ensures Consistent(t.(next := i), x, width, i, acc)
  {
    hide Round, IsDigit, Pow2;
    RoundStep(x, i);
    Weigh(i, Round(x, i + 1), 0);
  }

  /** Emitting the digit whose turn it is. */
  lemma EmitDigit(t: Slide, x: nat, width: nat, i: nat, acc: int)
    requires Consistent(t, x, width, i, acc) && t.next <= i
    ensures var d := if i == t.index then t.digit else 0;
            Consistent(t, x, width, i - 1, 2 * acc + d) && (d == 0 || IsDigit(d, width))
  {
    hide Round, IsDigit, Pow2;
    Weigh(i, acc, t.digit);
  }

  class SlideCtx {
    var nextIndex: int
    var nextDigit: int
    var nextCheck: u8

    /** The bits from next on are accounted for; the check position wraps around below zero. */
    ghost function State(): Slide
      reads this
    {
      Slide(nextIndex, nextDigit, if nextCheck == 255 then 0 else nextCheck + 1)
    }

    /** Finds the top bit; bits 253 to 255 of the scalar are zero. */
    constructor (scalar: seq<u8>)
      requires |scalar| == 32 && 0 <= Val(256, scalar) < Pow2(253)
      ensures 1 <= nextCheck <= 253
      ensures forall i, width | nextCheck <= i <= 253 :: Consistent(State(), Val(256, scalar), width, i, 0)
    {
      hide Pow2, Val, Bit, Shr;
      ghost var x := Val(256, scalar);
      var i := 252;
      while i > 0 && ScalarBit(scalar, i) == 0
        invariant 0 <= i <= 252 && x < Pow2(i + 1)
      {
        ScalarBitIs(scalar, i);
        ZeroShift(x, i + 1);
        HalfShift(x, i);
        ZeroShift(x, i);
        i := i - 1;
      }
      nextCheck := i + 1;
      nextIndex := -1;
      nextDigit := -1;
      TopRound(x, i);
    }

    /** One step of the scan: the digit for bit i, or zero. */
    method Step(width: nat, i: nat, scalar: seq<u8>, ghost acc: int) returns (d: int)
      requires 2 <= width <= 8 && |scalar| == 32 && 0 <= Val(256, scalar)
      requires Consistent(State(), Val(256, scalar), width, i, acc)
      modifies this
      ensures Consistent(State(), Val(256, scalar), width, i - 1, 2 * acc + d)
      ensures d == 0 || IsDigit(d, width)
    {
      hide Pow2, Val, Bit, Round, WindowValue, ScalarBit, IsDigit, Pending;
      ghost var x := Val(256, scalar);
      ScalarBitIs(scalar, i);
      ScalarBitIs(scalar, i - 1);
      if i == nextCheck {
        if ScalarBit(scalar, i) == ScalarBit(scalar, i - 1) {
          SkipBit(State(), x, width, i, acc);
          nextCheck := if nextCheck == 0 then 255 else nextCheck - 1;
        } else {
          var w: nat := if width <= i + 1 then width else i + 1;
          var v := WindowDigit(scalar, i, w);
          var s := TrailingZeros(scalar, i, w, v);
          WindowEmits(State(), x, width, i, w, s, v / Pow2(s), acc);
          nextIndex := i - (w - 1) + s;
          nextDigit := v / Pow2(s);
          nextCheck := if nextCheck - w < 0 then nextCheck - w + 256 else nextCheck - w;
        }
      }
      EmitDigit(State(), x, width, i, acc);
      d := if i == nextIndex then nextDigit else 0;
    }
  }

  /** The value of the window, bit by bit. */
  method WindowDigit(scalar: seq<u8>, i: nat, w: nat) returns (v: int)
    requires |scalar| == 32 && 1 <= w <= i + 1 <= 254 && 0 <= Val(256, scalar)
    ensures v == WindowValue(Val(256, scalar), i, w)
  {
    hide Pow2, Val, Bit, ScalarBit;
    ghost var x := Val(256, scalar);
    ScalarBitIs(scalar, i);
    v := -(ScalarBit(scalar, i) * Pow2(w - 1));
    for j := 0 to w - 1
      invariant v == Field(x, i + 1 - w, j) - Bit(x, i) * Pow2(w - 1)
    {
      ScalarBitIs(scalar, i - (w - 1) + j);
      v := v + ScalarBit(scalar, i - (w - 1) + j) * Pow2(j);
    }
    ScalarBitIs(scalar, i - w);
    v := v + ScalarBit(scalar, i - w);
  }

  /** The number of trailing zeros of the window, from its smallest bit and three masks. */
  method TrailingZeros(scalar: seq<u8>, i: nat, w: nat, v: int) returns (s: nat)
    requires |scalar| == 32 && 1 <= w <= i + 1 <= 254 && w <= 8 && 0 <= Val(256, scalar)
    requires v == WindowValue(Val(256, scalar), i, w) && Bit(Val(256, scalar), i) != Bit(Val(256, scalar), i - 1)
    ensures s < w && v == v / Pow2(s) * Pow2(s) && v / Pow2(s) % 2 == 1
    ensures v / Pow2(s) == 1 || v / Pow2(s) == -1 || 0 - Pow2(w - 1) < v / Pow2(s) < Pow2(w - 1)
  {
    hide Pow2, Val, Bit, And, WindowValue;
    WindowBounds(Val(256, scalar), i, w);
    ghost var s0 := SmallestBit(v, w);
    var lsb := And(TwosComplement(v), 0x1_0000_0000 - TwosComplement(v));
    MaskedLog(s0);
    s := (if And(lsb, 0xAA) != 0 then 1 else 0) + (if And(lsb, 0xCC) != 0 then 2 else 0)
         + (if And(lsb, 0xF0) != 0 then 4 else 0);
  }

  lemma WindowEmits(t: Slide, x: nat, width: nat, i: nat, w: nat, s: nat, d: int, acc: int)
    requires Consistent(t, x, width, i, acc) && t.next == i + 1 && 1 <= w <= i + 1 && w <= width && 2 <= width
    requires s < w && d * Pow2(s) == WindowValue(x, i, w) && d % 2 == 1
    requires d == 1 || d == -1 || 0 - Pow2(w - 1) < d < Pow2(w - 1)
    ensures Consistent(Slide(i - (w - 1) + s, d, i + 1 - w), x, width, i, acc)
  {
    hide Round, WindowValue, IsDigit, Pow2;
    DigitRange(d, w, width);
    WindowWeight(x, i, w, s, d, acc);
  }

  lemma TopRound(x: nat, i: nat)
    requires x < Pow2(i + 1)
    ensures Pow2(i + 2) * Round(x, i + 2) == 0 && forall j :: Pow2(j) * 0 == 0
  {
    ZeroShift(x, i + 1);
    HalfShift(x, i + 1);
  }

  /** One more doubling. */
  lemma Weigh(i: nat, a: int, b: int)
    ensures Pow2(i + 1) * a + b * Pow2(i) == Pow2(i) * (2 * a + b)
    ensures Pow2(i) * (2 * a) == Pow2(i + 1) * a
  {
    Pow2Step(i);
    MulDistribute(Pow2(i), 2 * a, b);
    MulAssoc(Pow2(i), 2, a);
    MulAssoc(2, Pow2(i), a);
    MulAssoc(b, Pow2(i), 0);
  }

  lemma DigitRange(d: int, w: nat, width: nat)
    requires 1 <= w <= width && 2 <= width && d % 2 == 1
    requires d == 1 || d == -1 || 0 - Pow2(w - 1) < d < Pow2(w - 1)
    ensures IsDigit(d, width)
  {
    Pow2Monotone(w - 1, width - 1);
    Pow2Monotone(1, width - 1);
    SmallPowers();
  }

  lemma WindowWeight(x: nat, i: nat, w: nat, s: nat, d: int, acc: int)
    requires 1 <= w <= i + 1 && s < w && d * Pow2(s) == WindowValue(x, i, w)
    requires Pow2(i + 1) * acc == Pow2(i + 1) * Round(x, i + 1)
    ensures Pow2(i + 1) * acc + d * Pow2(i + 1 - w + s) == Pow2(i + 1 - w) * Round(x, i + 1 - w)
  {
    hide Round, WindowValue;
    var n := i + 1 - w;
    RoundWindow(x, i, w);
    Pow2Add(n, w);
    Pow2Add(n, s);
    MulDistribute(Pow2(n), Pow2(w) * Round(x, i + 1), WindowValue(x, i, w));
    MulAssoc(Pow2(n), Pow2(w), Round(x, i + 1));
    MulAssoc(d, Pow2(n), Pow2(s));
    MulAssoc(Pow2(n), d, Pow2(s));
  }
}
