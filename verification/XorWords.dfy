/** Exclusive or by its bits, and of words given by their bytes. */
module XorWords {
  import opened Powers
  import opened Bits

  lemma TwoParts(x: nat, q: nat, r: nat)
    requires x == 2 * q + r && r < 2
    ensures x / 2 == q && x % 2 == r
  {
  }

  lemma XorStep(h: nat, k: nat, i: nat, j: nat)
    requires i < 2 && j < 2
    ensures Xor(2 * h + i, 2 * k + j) == 2 * Xor(h, k) + (if i == j then 0 else 1)
  {
    assert (2 * h + i) / 2 == h && (2 * k + j) / 2 == k;
  }

  lemma XorHalves(a: nat, b: nat)
    ensures Xor(a, b) / 2 == Xor(a / 2, b / 2) && Xor(a, b) % 2 == (a % 2 + b % 2) % 2
  {
    hide Xor;
    XorStep(a / 2, b / 2, a % 2, b % 2);
    TwoParts(Xor(a, b), Xor(a / 2, b / 2), Xor(a, b) - 2 * Xor(a / 2, b / 2));
  }

  /** Each bit of the exclusive or is the parity of the two bits. */
  lemma {:induction false} XorBit(a: nat, b: nat, k: nat)
    ensures Bit(Xor(a, b), k) == (Bit(a, k) + Bit(b, k)) % 2
  {
    hide Xor, Bit;
    XorHalves(a, b);
    if k == 0 {
      LowBit(a);
      LowBit(b);
      LowBit(Xor(a, b));
    } else {
      XorBit(a / 2, b / 2, k - 1);
      BitAbove(a, k);
      BitAbove(b, k);
      BitAbove(Xor(a, b), k);
    }
  }

  lemma OrHalves(a: nat, b: nat)
    ensures Or(a, b) / 2 == Or(a / 2, b / 2) && Or(a, b) % 2 == if a % 2 == 1 || b % 2 == 1 then 1 else 0
  {
  }

  /** Each bit of the or is set if one of the two is. */
  lemma {:induction false} OrBit(a: nat, b: nat, k: nat)
    ensures Bit(Or(a, b), k) == if Bit(a, k) == 1 || Bit(b, k) == 1 then 1 else 0
  {
    hide Or, Bit;
    OrHalves(a, b);
    if k == 0 {
      LowBit(a);
      LowBit(b);
      LowBit(Or(a, b));
    } else {
      OrBit(a / 2, b / 2, k - 1);
      BitAbove(a, k);
      BitAbove(b, k);
      BitAbove(Or(a, b), k);
    }
  }

  lemma AndStep(h: nat, k: nat, i: nat, j: nat)
    requires i < 2 && j < 2
    ensures And(2 * h + i, 2 * k + j) == 2 * And(h, k) + (if i == 1 && j == 1 then 1 else 0)
  {
    assert (2 * h + i) / 2 == h && (2 * k + j) / 2 == k;
  }

  lemma AndHalves(a: nat, b: nat)
    ensures And(a, b) / 2 == And(a / 2, b / 2) && And(a, b) % 2 == a % 2 * (b % 2)
  {
    hide And;
    AndStep(a / 2, b / 2, a % 2, b % 2);
    TwoParts(And(a, b), And(a / 2, b / 2), And(a, b) - 2 * And(a / 2, b / 2));
  }

  /** Each bit of the and is set if both are. */
  lemma {:induction false} AndBit(a: nat, b: nat, k: nat)
    ensures Bit(And(a, b), k) == Bit(a, k) * Bit(b, k)
  {
    hide And, Bit;
    AndHalves(a, b);
    if k == 0 {
      LowBit(a);
      LowBit(b);
      LowBit(And(a, b));
    } else {
      AndBit(a / 2, b / 2, k - 1);
      BitAbove(a, k);
      BitAbove(b, k);
      BitAbove(And(a, b), k);
    }
  }

  lemma LowBit(a: nat)
    ensures Bit(a, 0) == a % 2
  {
  }

  lemma BitAbove(a: nat, k: nat)
    requires k > 0
    ensures Bit(a, k) == Bit(a / 2, k - 1)
  {
    DivDiv(a, 2, Pow2(k - 1));
  }

  lemma XorZero(b: nat)
    ensures Xor(0, b) == b
  {
  }

  // A byte

  lemma Halves(x: bv8)
    ensures x as nat == 2 * (x >> 1) as nat + (x & 1) as nat && (x & 1) as nat < 2
  {
  }

  lemma ByteHalves(x: bv8, y: bv8)
    ensures (x ^ y) >> 1 == (x >> 1) ^ (y >> 1)
    ensures ((x ^ y) & 1) as nat == if (x & 1) as nat == (y & 1) as nat then 0 else 1
  {
  }

  lemma Parts(x: bv8, y: bv8) returns (a: bv8, b: bv8, i: nat, j: nat)
    ensures i < 2 && j < 2 && x as nat == 2 * a as nat + i && y as nat == 2 * b as nat + j
    ensures (x ^ y) as nat == 2 * (a ^ b) as nat + (if i == j then 0 else 1)
  {
    Halves(x);
    Halves(y);
    Halves(x ^ y);
    ByteHalves(x, y);
    a, b, i, j := x >> 1, y >> 1, (x & 1) as nat, (y & 1) as nat;
  }

  lemma XorJoin(x: nat, y: nat, z: nat, a: nat, b: nat, h: nat, i: nat, j: nat)
    requires x == 2 * a + i && y == 2 * b + j && i < 2 && j < 2 && Xor(a, b) == h && z == 2 * h + if i == j then 0 else 1
    ensures Xor(x, y) == z
  {
    hide Xor;
    XorStep(a, b, i, j);
  }

  lemma NoBits(x: bv8, y: bv8)
    requires x as nat == 0
    ensures x ^ y == y
  {
  }

  /** Of two bytes it is the operation on bit vectors. */
  lemma {:induction false} XorByte(x: bv8, y: bv8)
    ensures Xor(x as nat, y as nat) == (x ^ y) as nat
    decreases x as nat
  {
    hide Xor;
    if x as nat == 0 {
      XorZero(y as nat);
      NoBits(x, y);
    } else {
      var a, b, i, j := Parts(x, y);
      XorByte(a, b);
      XorJoin(x as nat, y as nat, (x ^ y) as nat, a as nat, b as nat, (a ^ b) as nat, i, j);
    }
  }

  // A word

  lemma {:induction false} XorBlocks(h: nat, k: nat, c: nat, d: nat, n: nat)
    requires c < Pow2(n) && d < Pow2(n)
    ensures Xor(h * Pow2(n) + c, k * Pow2(n) + d) == Xor(h, k) * Pow2(n) + Xor(c, d)
  {
    hide Xor, Pow2;
    Pow2Step(n);
    if n == 0 {
      XorZero(0);
    } else {
      var p := Pow2(n - 1);
      XorBlocks(h, k, c / 2, d / 2, n - 1);
      XorStep(c / 2, d / 2, c % 2, d % 2);
      XorStep(h * p + c / 2, k * p + d / 2, c % 2, d % 2);
      Doubled(h, p);
      Doubled(k, p);
      Doubled(Xor(h, k), p);
    }
  }

  lemma Doubled(h: nat, p: nat)
    ensures h * (2 * p) == 2 * (h * p)
  {
  }

  function Push(h: nat, x: bv8): nat {
    0x100 * h + x as nat
  }

  lemma XorPush(h: nat, k: nat, z: nat, x: bv8, y: bv8)
    requires Xor(h, k) == z
    ensures Xor(Push(h, x), Push(k, y)) == Push(z, x ^ y)
  {
    hide Xor, Pow2;
    Pow2Eight();
    XorBlocks(h, k, x as nat, y as nat, 8);
    XorByte(x, y);
  }

  /** The word with these bytes, the most significant first. */
  function Word(x7: bv8, x6: bv8, x5: bv8, x4: bv8, x3: bv8, x2: bv8, x1: bv8, x0: bv8): nat {
    Push(Push(Push(Push(Push(Push(Push(x7 as nat, x6), x5), x4), x3), x2), x1), x0)
  }

  lemma XorWord(x7: bv8, x6: bv8, x5: bv8, x4: bv8, x3: bv8, x2: bv8, x1: bv8, x0: bv8,
                y7: bv8, y6: bv8, y5: bv8, y4: bv8, y3: bv8, y2: bv8, y1: bv8, y0: bv8)
    ensures Xor(Word(x7, x6, x5, x4, x3, x2, x1, x0), Word(y7, y6, y5, y4, y3, y2, y1, y0))
         == Word(x7 ^ y7, x6 ^ y6, x5 ^ y5, x4 ^ y4, x3 ^ y3, x2 ^ y2, x1 ^ y1, x0 ^ y0)
  {
    hide Xor, Push;
    XorByte(x7, y7);
    var a, b, c := x7 as nat, y7 as nat, (x7 ^ y7) as nat;
    XorPush(a, b, c, x6, y6);
    a, b, c := Push(a, x6), Push(b, y6), Push(c, x6 ^ y6);
    XorPush(a, b, c, x5, y5);
    a, b, c := Push(a, x5), Push(b, y5), Push(c, x5 ^ y5);
    XorPush(a, b, c, x4, y4);
    a, b, c := Push(a, x4), Push(b, y4), Push(c, x4 ^ y4);
    XorPush(a, b, c, x3, y3);
    a, b, c := Push(a, x3), Push(b, y3), Push(c, x3 ^ y3);
    XorPush(a, b, c, x2, y2);
    a, b, c := Push(a, x2), Push(b, y2), Push(c, x2 ^ y2);
    XorPush(a, b, c, x1, y1);
    XorPush(Push(a, x1), Push(b, y1), Push(c, x1 ^ y1), x0, y0);
  }
}
