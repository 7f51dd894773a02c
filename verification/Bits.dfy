/** The binary digits of a number, and the bit operations the code uses on them. */
module Bits {
  import opened Powers

  function Shr(x: nat, k: nat): nat {
    QuotientNat(x, Pow2(k));
    x / Pow2(k)
  }

  lemma QuotientNat(x: nat, d: nat)
    ensures d > 0 ==> x / d >= 0
  {
  }

  /** Bit k of x; there are none below bit 0. */
  function Bit(x: nat, k: int): (b: nat)
    ensures b < 2
  {
    if k < 0 then 0 else Shr(x, k) % 2
  }

  lemma DivMod(x: nat, d: nat)
    requires d > 0
    ensures x == d * (x / d) + x % d && x % d < d
  {
  }

  lemma DivDiv(x: nat, a: nat, b: nat)
    requires a > 0 && b > 0
    ensures a * b > 0 && x / (a * b) == x / a / b
  {
    DivMod(x, a);
    DivMod(x / a, b);
    Nested(x, a, b, x / a, x % a, x / a / b, x / a % b);
    DivModUnique(x, a * b, x / a / b, a * (x / a % b) + x % a);
  }

  lemma Nested(x: nat, a: nat, b: nat, q: nat, r: nat, d: nat, e: nat)
    requires x == a * q + r && q == b * d + e && r < a && e < b
    ensures x == (a * b) * d + (a * e + r) && 0 <= a * e + r < a * b
  {
    MulParts(a, b, d, e);
    MulMonotone(a, e + 1, b);
    MulMonotone(a, 0, e);
  }

  lemma MulParts(a: nat, b: nat, d: nat, e: nat)
    ensures a * (b * d + e) == (a * b) * d + a * e
    ensures a * (e + 1) == a * e + a
  {
  }

  /** Shifting by one more position. */
  lemma HalfShift(x: nat, k: nat)
    ensures Shr(x, k) == 2 * Shr(x, k + 1) + Bit(x, k)
  {
    DivDiv(x, Pow2(k), 2);
    assert Pow2(k + 1) == Pow2(k) * 2;
  }

  /** The w bits of x from bit n on. */
  function Field(x: nat, n: nat, w: nat): (f: nat) {
    if w == 0 then 0 else Field(x, n, w - 1) + Bit(x, n + w - 1) * Pow2(w - 1)
  }

  lemma {:induction false} FieldIs(x: nat, n: nat, w: nat)
    ensures Field(x, n, w) < Pow2(w)
    ensures Shr(x, n) == Pow2(w) * Shr(x, n + w) + Field(x, n, w)
  {
    hide Bit, Pow2, Shr;
    Pow2Step(w);
    if w > 0 {
      FieldIs(x, n, w - 1);
      Pow2Step(w - 1);
      assert n + (w - 1) == n + w - 1 && n + w - 1 + 1 == n + w;
      HalfShift(x, n + w - 1);
      FieldStep(Shr(x, n), Pow2(w - 1), Shr(x, n + w - 1), Shr(x, n + w), Bit(x, n + w - 1), Field(x, n, w - 1));
    }
  }

  lemma Pow2Step(k: nat)
    ensures Pow2(k + 1) == 2 * Pow2(k) && (k == 0 ==> Pow2(k) == 1)
    ensures k > 0 ==> Pow2(k) == 2 * Pow2(k - 1)
  {
  }

  lemma FieldStep(x: nat, p: nat, h: nat, g: nat, b: nat, f: nat)
    requires x == p * h + f && h == 2 * g + b && f < p && b < 2
    ensures x == (2 * p) * g + (f + b * p) && f + b * p < 2 * p
  {
    MulParts(p, 2, g, b);
  }

  /** Bitwise and. */
  function And(a: nat, b: nat): (r: nat) {
    if a == 0 || b == 0 then 0 else (a % 2) * (b % 2) + 2 * And(a / 2, b / 2)
  }

  /** A number and its complement have no bit in common. */
  lemma {:induction false} AndComplement(a: nat, n: nat)
    requires a < Pow2(n)
    ensures And(a, Pow2(n) - 1 - a) == 0
  {
    if a > 0 && Pow2(n) - 1 - a > 0 {
      AndComplement(a / 2, n - 1);
      assert (Pow2(n) - 1 - a) / 2 == Pow2(n - 1) - 1 - a / 2;
    }
  }

  /** v & (~v + 1) in n bits: the largest power of two that divides v. */
  lemma {:induction false} AndNegative(a: nat, n: nat) returns (s: nat)
    requires 0 < a < Pow2(n)
    ensures s < n && And(a, Pow2(n) - a) == Pow2(s)
    ensures a % Pow2(s) == 0 && a / Pow2(s) % 2 == 1
  {
    if a % 2 == 1 {
      s := 0;
      assert (Pow2(n) - a) % 2 == 1 && (Pow2(n) - a) / 2 == Pow2(n - 1) - 1 - a / 2;
      AndComplement(a / 2, n - 1);
    } else {
      var t := AndNegative(a / 2, n - 1);
      s := t + 1;
      assert (Pow2(n) - a) / 2 == Pow2(n - 1) - a / 2;
      DivDiv(a, 2, Pow2(t));
      EvenMultiple(a, t);
    }
  }

  lemma EvenMultiple(a: nat, t: nat)
    requires a % 2 == 0 && a / 2 % Pow2(t) == 0
    ensures a % Pow2(t + 1) == 0
  {
    var d := a / 2 / Pow2(t);
    assert a == 2 * (Pow2(t) * d) == Pow2(t + 1) * d by { MulParts(2, Pow2(t), d, 0); }
    DivModUnique(a, Pow2(t + 1), d, 0);
  }

  lemma {:induction false} AndPower(s: nat, b: nat)
    ensures And(Pow2(s), b) == Bit(b, s) * Pow2(s)
  {
    if b > 0 {
      if s == 0 {
        assert And(1, b) == b % 2;
      } else {
        AndPower(s - 1, b / 2);
        DivDiv(b, 2, Pow2(s - 1));
      }
    }
  }

  /** The position of the only bit of a power of two below 2^8, from three masks. */
  lemma MaskedLog(s: nat)
    requires s < 8
    ensures var lsb := Pow2(s);
            (if And(lsb, 0xAA) != 0 then 1 else 0) + (if And(lsb, 0xCC) != 0 then 2 else 0)
              + (if And(lsb, 0xF0) != 0 then 4 else 0) == s
  {
    hide And;
    AndPower(s, 0xAA);
    AndPower(s, 0xCC);
    AndPower(s, 0xF0);
    SmallPowers();
    assert s == 0 || s == 1 || s == 2 || s == 3 || s == 4 || s == 5 || s == 6 || s == 7;
  }

  lemma SmallPowers()
    ensures Pow2(0) == 1 && Pow2(1) == 2 && Pow2(2) == 4 && Pow2(3) == 8
    ensures Pow2(4) == 16 && Pow2(5) == 32 && Pow2(6) == 64 && Pow2(7) == 128
  {
  }

  /** Masking with ones keeps the low bits. */
  lemma {:induction false} AndMask(a: nat, n: nat)
    ensures And(a, Pow2(n) - 1) == a % Pow2(n)
  {
    hide Pow2, And;
    Pow2Step(n);
    AndUnfold(a, Pow2(n) - 1);
    if n > 0 {
      if a > 0 {
        AndMask(a / 2, n - 1);
        ModTwo(a, Pow2(n - 1));
        HalfMask(Pow2(n - 1));
      } else {
        DivModUnique(0, Pow2(n), 0, 0);
      }
    } else {
      DivModUnique(a, 1, a, 0);
    }
  }

  lemma HalfMask(p: nat)
    requires p > 0
    ensures (2 * p - 1) / 2 == p - 1 && (2 * p - 1) % 2 == 1
  {
  }

  lemma ModTwo(a: nat, p: nat)
    requires p > 0
    ensures a % (2 * p) == a % 2 + 2 * (a / 2 % p)
  {
    var q, e := a / 2 / p, a / 2 % p;
    DivMod(a / 2, p);
    MulParts(2, p, q, e);
    DivModUnique(a, 2 * p, q, a % 2 + 2 * e);
  }

  lemma {:induction false} AndAtMost(a: nat, b: nat)
    ensures And(a, b) <= b && And(a, b) <= a
  {
    if a > 0 && b > 0 {
      AndAtMost(a / 2, b / 2);
      BitProduct(a % 2, b % 2);
    }
  }

  lemma BitProduct(x: nat, y: nat)
    requires x < 2 && y < 2
    ensures x * y <= x && x * y <= y
  {
  }

  /** The low two bits of a mask that clears them. */
  lemma AndCleared(a: nat, b: nat)
    requires b % 4 == 0
    ensures And(a, b) % 4 == 0
  {
    hide And;
    AndUnfold(a, b);
    AndUnfold(a / 2, b / 2);
  }

  lemma AndUnfold(a: nat, b: nat)
    ensures And(a, b) == (a % 2) * (b % 2) + 2 * And(a / 2, b / 2) && (a == 0 || b == 0 ==> And(a, b) == 0)
  {
  }

  /** The gap missing to align x to a power of two, as (~x + 1) & (2^k - 1) computes it. */
  function Gap(x: nat, k: nat): (g: nat)
    requires x < 0x1_0000_0000_0000_0000
  {
    And((0x1_0000_0000_0000_0000 - x) % 0x1_0000_0000_0000_0000, Pow2(k) - 1)
  }

  lemma GapAligns(x: nat, k: nat)
    requires x < 0x1_0000_0000_0000_0000 && k <= 64
    ensures Gap(x, k) < Pow2(k) && (x + Gap(x, k)) % Pow2(k) == 0
  {
    hide And, Pow2;
    var t := 0x1_0000_0000_0000_0000;
    AndMask((t - x) % t, k);
    WordPowers();
    Pow2Add(k, 64 - k);
    assert k + (64 - k) == 64;
    GapModulo(x, t, Pow2(k), Pow2(64 - k));
  }

  lemma GapModulo(x: nat, t: nat, p: nat, w: nat)
    requires x < t && p > 0 && t == p * w
    ensures (x + (t - x) % t % p) % p == 0
  {
    if x == 0 {
      DivModUnique(t, t, 1, 0);
      DivModUnique(0, p, 0, 0);
    } else {
      DivModUnique(t - x, t, 0, t - x);
      DivMod(t - x, p);
      MulSub(p, w, (t - x) / p);
      DivModUnique(x + (t - x) % p, p, w - (t - x) / p, 0);
    }
  }

  lemma MulSub(p: int, a: int, b: int)
    ensures p * a - p * b == p * (a - b)
  {
  }

  /** Bitwise or. */
  function Or(a: nat, b: nat): (r: nat) {
    if a == 0 then b else if b == 0 then a else (if a % 2 == 1 || b % 2 == 1 then 1 else 0) + 2 * Or(a / 2, b / 2)
  }

  /** Or of numbers without a common bit is their sum. */
  lemma {:induction false} OrDisjoint(a: nat, b: nat, k: nat)
    requires a < Pow2(k)
    ensures Or(a, b * Pow2(k)) == a + b * Pow2(k)
  {
    hide Pow2;
    Pow2Step(k);
    if a > 0 && k > 0 {
      DoubleProduct(b, Pow2(k - 1));
      OrDisjoint(a / 2, b, k - 1);
      OrUnfold(a, b * Pow2(k));
    } else {
      OrUnfold(a, b * Pow2(k));
    }
  }

  lemma DoubleProduct(b: nat, p: nat)
    ensures b * (2 * p) == 2 * (b * p) && b * (2 * p) / 2 == b * p && b * (2 * p) % 2 == 0
  {
    assert b * (2 * p) == 2 * (b * p);
  }

  lemma OrUnfold(a: nat, b: nat)
    ensures a == 0 ==> Or(a, b) == b
    ensures b == 0 ==> Or(a, b) == a
    ensures a > 0 && b > 0 ==> Or(a, b) == (if a % 2 == 1 || b % 2 == 1 then 1 else 0) + 2 * Or(a / 2, b / 2)
  {
  }

  /** A left shift that drops the bits beyond the word. */
  lemma ShiftOut(x: nat, s: nat, n: nat)
    requires s <= n
    ensures x * Pow2(s) % Pow2(n) == x % Pow2(n - s) * Pow2(s)
  {
    hide Pow2;
    var p, m := Pow2(s), Pow2(n - s);
    Pow2Add(s, n - s);
    assert s + (n - s) == n;
    DivMod(x, m);
    ShiftParts(x, p, m, x / m, x % m);
    DivModUnique(x * p, p * m, x / m, x % m * p);
  }

  lemma ShiftParts(x: nat, p: nat, m: nat, d: nat, e: nat)
    requires x == m * d + e && e < m && p > 0
    ensures x * p == (p * m) * d + e * p && 0 <= e * p < p * m
  {
    assert (m * d + e) * p == (p * m) * d + e * p;
    MulMonotone(p, e + 1, m);
    MulMonotone(p, 0, e);
    assert p * (e + 1) == e * p + p;
  }

  /** Bitwise exclusive or. */
  function Xor(a: nat, b: nat): (r: nat) {
    if a == 0 then b else if b == 0 then a else (a + b) % 2 + 2 * Xor(a / 2, b / 2)
  }
}
