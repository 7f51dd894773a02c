/** Poly1305 as a stream: blocks are buffered, absorbed and finished; any split into updates gives one tag. */
module Poly1305 {
  import opened Powers
  import opened Words
  import opened Bits
  import opened Limbs
  import opened PolyBlock

  // The specification

  /** A block of 16 bytes as a number, with end at 2^128. */
  ghost function BlockValue(m: seq<u8>, end: nat): int {
    Val(256, m) + end * Pow(256, 16)
  }

  lemma ModulusPositive()
    ensures P > 0
  {
  }

  /** The polynomial in r modulo 2^130 - 5 over the first n blocks of m, starting from acc. */
  ghost function Absorb(acc: int, r: int, m: seq<u8>, n: nat): int
    requires 16 * n <= |m|
  {
    ModulusPositive();
    if n == 0 then acc else (Absorb(acc, r, m, n - 1) + BlockValue(m[16 * (n - 1)..16 * n], 1)) * r % P
  }

  /** The whole blocks of the message, then what is left of it with a one after its last byte. */
  ghost function Evaluate(r: int, m: seq<u8>): int {
    ModulusPositive();
    var n := |m| / 16;
    var acc, rest := Absorb(0, r, m, n), m[16 * n..];
    if rest == [] then acc else (acc + Val(256, rest) + Pow(256, |rest|)) * r % P
  }

  /** The tag: the polynomial plus the pad, modulo 2^128. */
  ghost function Tag(r: int, pad: int, m: seq<u8>): int {
    (Evaluate(r, m) + pad) % Pow(256, 16)
  }

  // The same polynomial as a sum of powers

  /** Block i of the message, at most 16 bytes, with a one after its last byte. */
  ghost function Coefficient(m: seq<u8>, i: nat): int
    requires 16 * i < |m|
  {
    var b := if 16 * i + 16 <= |m| then m[16 * i..16 * i + 16] else m[16 * i..];
    Val(256, b) + Pow(256, |b|)
  }

  /** The sum over the blocks i < n of the block times r^(k - i). */
  ghost function PowerSum(r: nat, m: seq<u8>, n: nat, k: nat): int
    requires n <= k && 16 * n < |m| + 16
  {
    if n == 0 then 0 else PowerSum(r, m, n - 1, k) + Coefficient(m, n - 1) * Pow(r, k - (n - 1))
  }

  lemma {:induction false} PowerSumShift(r: nat, m: seq<u8>, n: nat, k: nat)
    requires n <= k && 16 * n < |m| + 16
    ensures PowerSum(r, m, n, k + 1) == PowerSum(r, m, n, k) * r
  {
    hide Coefficient, Pow;
    if n > 0 {
      PowerSumShift(r, m, n - 1, k);
      PowNext(r, k - (n - 1));
      var c, p, s := Coefficient(m, n - 1), Pow(r, k - (n - 1)), PowerSum(r, m, n - 1, k);
      assert k + 1 - (n - 1) == k - (n - 1) + 1;
      Factored(s, c, p, r);
    }
  }

  lemma PowNext(r: nat, k: nat)
    ensures Pow(r, k + 1) == Pow(r, k) * r && Pow(r, 1) == r
  {
    MulAssoc(r, Pow(r, k), 0);
  }

  lemma Factored(s: int, c: int, p: int, r: int)
    ensures s * r + c * (p * r) == (s + c * p) * r
  {
    MulAssoc(c, p, r);
    MulAssoc(s + c * p, r, 0);
    MulAssoc(s, r, 0);
    MulAssoc(c * p, r, 0);
    MulDistribute(r, s, c * p);
  }

  lemma PowerSumNext(r: nat, m: seq<u8>, n: nat)
    requires 16 * n < |m|
    ensures PowerSum(r, m, n + 1, n + 1) == (PowerSum(r, m, n, n) + Coefficient(m, n)) * r
  {
    hide Coefficient, Pow;
    PowerSumShift(r, m, n, n);
    PowNext(r, 0);
    MulAssoc(PowerSum(r, m, n, n) + Coefficient(m, n), r, 0);
    MulAssoc(PowerSum(r, m, n, n), r, 0);
    MulAssoc(Coefficient(m, n), r, 0);
    MulDistribute(r, PowerSum(r, m, n, n), Coefficient(m, n));
  }

  lemma {:induction false} AbsorbIs(r: nat, m: seq<u8>, n: nat)
    requires 16 * n <= |m| && P > 0
    ensures Absorb(0, r, m, n) % P == PowerSum(r, m, n, n) % P
  {
    hide P, Pow, Val;
    if n > 0 {
      AbsorbIs(r, m, n - 1);
      PowerSumNext(r, m, n - 1);
      assert 16 * (n - 1) + 16 == 16 * n;
      StepModulo(P, Absorb(0, r, m, n - 1), PowerSum(r, m, n - 1, n - 1), Coefficient(m, n - 1), r);
      ModTwice((Absorb(0, r, m, n - 1) + Coefficient(m, n - 1)) * r, P);
    }
  }

  lemma StepModulo(p: int, a: int, b: int, c: int, r: int)
    requires p > 0 && a % p == b % p
    ensures (a + c) * r % p == (b + c) * r % p
  {
    ModStep(p, b, a, c, r, (b + c) * r, 0);
  }

  /** The polynomial has the blocks as coefficients, the first one at the highest power of r, and none at r^0. */
  lemma EvaluateIs(r: nat, m: seq<u8>)
    requires P > 0
    ensures var k := (|m| + 15) / 16; Evaluate(r, m) == PowerSum(r, m, k, k) % P
  {
    hide P, Pow, Val, PowerSum;
    var n := |m| / 16;
    AbsorbIs(r, m, n);
    if 16 * n == |m| {
      assert (|m| + 15) / 16 == n;
      assert m[16 * n..] == [];
      AbsorbReduced(r, m, n);
      DivModUnique(Absorb(0, r, m, n), P, 0, Absorb(0, r, m, n));
    } else {
      assert (|m| + 15) / 16 == n + 1;
      PowerSumNext(r, m, n);
      StepModulo(P, Absorb(0, r, m, n), PowerSum(r, m, n, n), Coefficient(m, n), r);
    }
  }

  /** Absorbing depends only on the blocks absorbed. */
  lemma {:induction false} AbsorbPrefix(acc: int, r: int, m: seq<u8>, k: seq<u8>, n: nat)
    requires 16 * n <= |m| && 16 * n <= |k| && m[..16 * n] == k[..16 * n]
    ensures Absorb(acc, r, m, n) == Absorb(acc, r, k, n)
  {
    hide P, BlockValue;
    if n > 0 {
      assert m[..16 * (n - 1)] == m[..16 * n][..16 * (n - 1)];
      assert k[..16 * (n - 1)] == k[..16 * n][..16 * (n - 1)];
      AbsorbPrefix(acc, r, m, k, n - 1);
      assert m[16 * (n - 1)..16 * n] == m[..16 * n][16 * (n - 1)..];
      assert k[16 * (n - 1)..16 * n] == k[..16 * n][16 * (n - 1)..];
    }
  }

  /** Absorbing in two parts. */
  lemma {:induction false} AbsorbSplit(acc: int, r: int, m: seq<u8>, j: nat, k: seq<u8>, n: nat)
    requires |m| == 16 * j && 16 * n <= |k|
    ensures Absorb(acc, r, m + k, j + n) == Absorb(Absorb(acc, r, m, j), r, k, n)
  {
    hide P, BlockValue;
    if n == 0 {
      AbsorbPrefix(acc, r, m + k, m, j);
    } else {
      AbsorbSplit(acc, r, m, j, k, n - 1);
      assert (m + k)[16 * (j + n - 1)..16 * (j + n)] == k[16 * (n - 1)..16 * n];
    }
  }

  // Words and blocks

  function Load32(b: seq<u8>): (w: u32)
    requires |b| == 4
  {
    var b0: int, b1: int, b2: int, b3: int := b[0], b[1], b[2], b[3];
    b0 + 0x100 * b1 + 0x1_0000 * b2 + 0x100_0000 * b3
  }

  lemma Load32Val(b: seq<u8>)
    requires |b| == 4
    ensures Load32(b) == Val(256, b)
  {
    hide Val;
    FourDigits(256, b);
  }

  /** The four words of a block are the number of its bytes. */
  lemma BlockWords(m: seq<u8>, end: u32)
    requires |m| == 16
    ensures Five(TWO_32, Load32(m[..4]), Load32(m[4..8]), Load32(m[8..12]), Load32(m[12..]), end) == BlockValue(m, end)
  {
    hide Val, Pow, Load32;
    Load32Val(m[..4]);
    Load32Val(m[4..8]);
    Load32Val(m[8..12]);
    Load32Val(m[12..]);
    FourPowers();
    PowAdd(256, 4, 4);
    PowAdd(256, 8, 8);
    ValSplit(256, m, 4);
    ValSplit(256, m[4..], 4);
    ValSplit(256, m[8..], 4);
    assert m[4..][..4] == m[4..8] && m[4..][4..] == m[8..] && m[8..][..4] == m[8..12] && m[8..][4..] == m[12..];
    FiveOf(TWO_32, Load32(m[..4]), Load32(m[4..8]), Load32(m[8..12]), Load32(m[12..]), end, Pow(256, 8), Pow(256, 16));
  }

  lemma FiveOf(b: int, x0: int, x1: int, x2: int, x3: int, x4: int, b2: int, b4: int)
    requires b2 == b * b && b4 == b2 * b2
    ensures Five(b, x0, x1, x2, x3, x4) == x0 + b * (x1 + b * (x2 + b * x3)) + x4 * b4
  {
    MulDistribute(b, x3, b * x4);
    MulDistribute(b, x2 + b * x3, b * (b * x4));
    MulDistribute(b, x1 + b * (x2 + b * x3), b * (b * (b * x4)));
    assert b * (b * (b * (b * x4))) == x4 * b4 by {
      MulAssoc(b, b, x4);
      MulAssoc(b, b, b2 * x4);
      MulAssoc(b2, b2, x4);
      MulAssoc(b4, x4, 0);
    }
  }

  /** A step of the limbs is a step of the polynomial. */
  lemma ModStep(p: int, h: int, acc: int, m: int, r: int, n: int, z: int)
    requires p > 0 && (h + m) * r == n + p * z && h % p == acc % p
    ensures n % p == (acc + m) * r % p
  {
    var d := (h - acc) / p;
    assert h - acc == p * d by {
      DivModUnique(h, p, h / p, h % p);
      DivModUnique(acc, p, acc / p, acc % p);
      MulDistribute(p, h / p, acc / p);
      DivModUnique(h - acc, p, h / p - acc / p, 0);
    }
    assert (h + m) * r == (acc + m) * r + p * (d * r) by {
      MulDistribute(r, acc + m, p * d);
      MulAssoc(p, d, r);
      MulAssoc(r, h + m, 0);
      MulAssoc(r, acc + m, 0);
    }
    MulDistribute(p, d * r, z);
    ModMultiple((acc + m) * r, d * r - z, p);
    MulAssoc(p, d * r - z, 0);
  }

  // The context

  class Context {
    const c: array<u8>
    var cIdx: nat
    var h: Limbs5
    var r: seq<u32>
    var pad: seq<u32>
    ghost var message: seq<u8>

    ghost function RValue(): int
      requires ClampedWords(r)
      reads `r
    {
      SplitWords(r).Value(TWO_32)
    }

    /** acc blocks of the message have been absorbed, and the rest waits in the buffer. */
    ghost predicate Absorbed(done: seq<u8>)
      reads `h, `r, `pad
    {
      && ClampedWords(r) && |pad| == 4 && h.h4 <= 4
      && |done| % 16 == 0 && P > 0 && h.Value() % P == Absorb(0, RValue(), done, |done| / 16) % P
    }

    ghost predicate Valid()
      reads this, c
    {
      && c.Length == 16 && cIdx < 16 && cIdx <= |message|
      && message[|message| - cIdx..] == c[..cIdx] && Absorbed(message[..|message| - cIdx])
    }

    /** r = key[..16] with some bits cleared, pad = key[16..]. */
    constructor (key: seq<u8>)
      requires |key| == 32
      ensures Valid() && fresh(c) && message == []
      ensures r == ClampKey(key) && Val(TWO_32, pad) == Val(256, key[16..])
    {
      hide ClampKey, PadOf, Val, P, ClampedWords, Absorb, Five, SplitWords, Clamped.Value, Limbs5.Value;
      c := new u8[16];
      cIdx, h, message := 0, Limbs5(0, 0, 0, 0, 0), [];
      r, pad := ClampKey(key), PadOf(key);
      new;
      KeyIsClamped(key);
      PadValue(key);
      NothingAbsorbed(h, RValue());
      assert message[..0] == [] == message[0..] == c[..0];
    }

    /** poly_blocks with end = 1: absorbs nb whole blocks. */
    method Blocks(input: seq<u8>, nb: nat, ghost done: seq<u8>)
      requires Absorbed(done) && 16 * nb <= |input|
      modifies `h
      ensures Absorbed(done + input[..16 * nb])
    {
      hide P, Five, SplitWords, Clamped.Value, Limbs5.Value, ClampedWords, BlockValue, Absorb;
      assert done + input[..0] == done;
      for i := 0 to nb
        invariant Absorbed(done + input[..16 * i])
      {
        ghost var before := done + input[..16 * i];
        var block := input[16 * i..16 * i + 16];
        ghost var h0 := h;
        ghost var z;
        BlockWords(block, 1);
        h, z := Block(h, r, Load32(block[..4]), Load32(block[4..8]), Load32(block[8..12]), Load32(block[12..]), 1);
        assert before + block == done + input[..16 * (i + 1)];
        MoreAbsorbed(h0.Value(), h.Value(), z, RValue(), before, block);
      }
    }

    method Update(input: seq<u8>)
      requires Valid() && |input| < TWO_64
      modifies this`cIdx, this`h, this`message, c
      ensures Valid() && message == old(message) + input
    {
      hide P, Absorbed;
      if |input| == 0 {
        assert message == message + input;
        return;
      }
      var rest := Align(input);
      var nb := |rest| / 16;
      ghost var before := message;
      AbsorbBlocks(rest, nb);
      Buffer(rest[16 * nb..]);
      assert before + rest == before + rest[..16 * nb] + rest[16 * nb..];
    }

    /** Fills the buffer up to a block boundary, and processes the block if it is complete. */
    method Align(input: seq<u8>) returns (rest: seq<u8>)
      requires Valid() && |input| < TWO_64
      modifies this`cIdx, this`h, this`message, c
      ensures Valid() && old(message) + input == message + rest
      ensures cIdx == 0 || rest == []
    {
      hide P, Absorbed, Gap;
      WordGap(cIdx);
      var gap := Gap(cIdx, 4);
      var aligned := if gap <= |input| then gap else |input|;
      Buffer(input[..aligned]);
      rest := input[aligned..];
      assert input == input[..aligned] + rest;
      if cIdx == 16 {
        FullBlock();
      }
    }

    method FullBlock()
      requires c.Length == 16 == cIdx <= |message|
      requires message[|message| - 16..] == c[..16] && Absorbed(message[..|message| - 16])
      modifies this`cIdx, this`h
      ensures Valid() && cIdx == 0
    {
      hide P, Absorbed;
      ghost var done := message[..|message| - 16];
      Blocks(c[..], 1, done);
      assert c[..][..16 * 1] == c[..16] && done + c[..16] == message;
      cIdx := 0;
      assert message[..|message| - 0] == message;
    }

    method AbsorbBlocks(rest: seq<u8>, nb: nat)
      requires Valid() && nb == |rest| / 16 && (cIdx == 0 || rest == [])
      modifies this`h, this`message
      ensures Valid() && message == old(message) + rest[..16 * nb]
    {
      hide P, Absorbed;
      ghost var done := message[..|message| - cIdx];
      Blocks(rest, nb, done);
      if cIdx != 0 {
        assert done + rest[..16 * nb] == done && message + rest[..16 * nb] == message;
      } else {
        assert done == message && (message + rest[..16 * nb])[..|message + rest[..16 * nb]| - 0] == done + rest[..16 * nb];
      }
      message := message + rest[..16 * nb];
    }

    /** Copies bytes to the buffer, one by one. */
    method Buffer(bytes: seq<u8>)
      requires c.Length == 16 && cIdx + |bytes| <= 16 && cIdx <= |message|
      requires message[|message| - cIdx..] == c[..cIdx]
      modifies this`cIdx, this`message, c
      ensures cIdx == old(cIdx) + |bytes| && message == old(message) + bytes && cIdx <= |message|
      ensures message[|message| - cIdx..] == c[..cIdx] && message[..|message| - cIdx] == old(message[..|message| - cIdx])
    {
      ghost var done := message[..|message| - cIdx];
      for i := 0 to |bytes|
        invariant cIdx == old(cIdx) + i && message == old(message) + bytes[..i] && cIdx <= |message|
        invariant message[|message| - cIdx..] == c[..cIdx] && message[..|message| - cIdx] == done
      {
        ghost var before := message;
        c[cIdx] := bytes[i];
        cIdx := cIdx + 1;
        message := message + [bytes[i]];
        assert message[|message| - cIdx..] == before[|before| - (cIdx - 1)..] + [bytes[i]];
      }
      assert bytes[..|bytes|] == bytes;
    }

    /** Processes the last block, if any, reduces fully and adds the pad. */
    method Final() returns (mac: array<u8>)
      requires Valid()
      modifies this`h, c
      ensures fresh(mac) && mac.Length == 16
      ensures Val(256, mac[..]) == Tag(RValue(), Val(TWO_32, pad), message)
    {
      hide P, Val, Pow, Absorb, Evaluate, Five, Clamped.Value, SplitWords, Absorbed;
      PadLength();
      LastBlock();
      var hs: seq<u32> := [h.h0, h.h1, h.h2, h.h3];
      var carry := Excess(hs, h.h4);
      mac := new u8[16];
      ghost var words, k := AddPad(hs, pad, carry, mac);
      ValBound(TWO_32, words);
      ValBound(TWO_32, hs);
      FourWords(h);
      TagArith(Pow(TWO_32, 4), P, Val(TWO_32, hs), h.h4, Val(TWO_32, pad), carry, Val(TWO_32, words), k);
    }

    lemma PadLength()
      requires Valid()
      ensures |pad| == 4
    {
    }

    /** The bytes left in the buffer get a one after the last and are absorbed without the bit at 2^128. */
    method LastBlock()
      requires Valid()
      modifies this`h, c
      ensures P > 0 && h.h4 <= 4 && h.Value() % P == Evaluate(RValue(), message)
    {
      hide P, Val, Pow, Absorb, Evaluate, BlockValue, Limbs5.Value, Clamped.Value, SplitWords, ClampedWords, Five;
      ghost var done, rest := message[..|message| - cIdx], message[|message| - cIdx..];
      assert message == done + rest;
      ModulusPositive();
      EvaluateParts(RValue(), done, rest);
      if cIdx != 0 {
        PadBuffer(rest);
        var block := c[..];
        BlockWords(block, 0);
        BlockIs(block);
        ghost var h0 := h;
        ghost var z;
        h, z := Block(h, r, Load32(block[..4]), Load32(block[4..8]), Load32(block[8..12]), Load32(block[12..]), 0);
        ModStep(P, h0.Value(), Absorb(0, RValue(), done, |done| / 16), Val(256, block), RValue(), h.Value(), z);
      }
    }

    method PadBuffer(ghost rest: seq<u8>)
      requires c.Length == 16 && cIdx < 16 && c[..cIdx] == rest
      modifies c
      ensures Val(256, c[..]) == Val(256, rest) + Pow(256, |rest|)
    {
      hide Val, Pow;
      for i := cIdx to 16
        invariant c[..cIdx] == rest && forall j | cIdx <= j < i :: c[j] == 0
      {
        c[i] := 0;
      }
      c[cIdx] := 1;
      PaddedValue(rest, c[..]);
    }
  }

  lemma BlockIs(block: seq<u8>)
    ensures BlockValue(block, 0) == Val(256, block)
  {
  }

  lemma {:induction false} AbsorbReduced(r: int, m: seq<u8>, n: nat)
    requires 16 * n <= |m|
    ensures P > 0 && 0 <= Absorb(0, r, m, n) < P
  {
    ModulusPositive();
  }

  lemma EvaluateParts(r: int, done: seq<u8>, rest: seq<u8>)
    requires |done| % 16 == 0 && |rest| < 16 && P > 0
    ensures var acc := Absorb(0, r, done, |done| / 16);
            && (rest == [] ==> Evaluate(r, done + rest) == acc % P)
            && (rest != [] ==> Evaluate(r, done + rest) == (acc + (Val(256, rest) + Pow(256, |rest|))) * r % P)
  {
    hide P, Val, Pow, Absorb;
    var m, n := done + rest, |done| / 16;
    assert |m| / 16 == n && m[16 * n..] == rest;
    AbsorbPrefix(0, r, m, done, n);
    AbsorbReduced(r, done, n);
    DivModUnique(Absorb(0, r, done, n), P, 0, Absorb(0, r, done, n));
  }

  lemma PaddedValue(rest: seq<u8>, block: seq<u8>)
    requires |rest| < 16 == |block| && block[..|rest|] == rest && block[|rest|] == 1
    requires forall j | |rest| < j < 16 :: block[j] == 0
    ensures Val(256, block) == Val(256, rest) + Pow(256, |rest|)
  {
    hide Val, Pow;
    ValSplit(256, block, |rest|);
    HeadOf(256, block, |rest|);
    ValZero(256, block[|rest| + 1..]);
  }

  /** Five times the number of times that 2^130 - 5 must be subtracted. */
  method Excess(hs: seq<u32>, h4: u32) returns (c: u64)
    requires |hs| == 4 && h4 <= 4
    ensures c == 5 * ((Val(TWO_32, hs) + Pow(TWO_32, 4) * h4 + 5) / (4 * Pow(TWO_32, 4))) && c <= 5
  {
    hide Val, Pow;
    c := 5;
    ghost var q: seq<u32>, zeros: seq<u32> := [], [0, 0, 0, 0];
    RowStart(hs, 0, zeros);
    for i := 0 to 4
      invariant c <= 5 && (i > 0 ==> c <= 1) && |q| == i
      invariant Val(TWO_32, q) + Pow(TWO_32, i) * c == Val(TWO_32, hs[..i]) + Val(TWO_32, zeros[..i]) + 5
    {
      var sum: u64 := c + hs[i];
      assert hs[..i + 1] == hs[..i] + [hs[i]] && zeros[..i + 1] == zeros[..i] + [zeros[i]];
      SumStep(q, hs[..i], zeros[..i], c, hs[i], 0, 5, i, sum);
      q := q + [sum % TWO_32];
      c := sum / TWO_32;
    }
    assert hs[..4] == hs;
    ValZero(TWO_32, zeros[..4]);
    ValBound(TWO_32, q);
    TopBits(Pow(TWO_32, 4), Val(TWO_32, q), Val(TWO_32, hs), c, h4);
    c := c + h4;
    c := c / 4 * 5;
  }

  lemma TopBits(b4: nat, q: nat, hs: int, c: nat, h4: nat)
    requires q < b4 && q + b4 * c == hs + 5
    ensures (c + h4) / 4 == (hs + b4 * h4 + 5) / (4 * b4)
  {
    var n, d, e := c + h4, (c + h4) / 4, (c + h4) % 4;
    MulDistribute(b4, c, h4);
    assert hs + b4 * h4 + 5 == q + b4 * n;
    assert b4 * n == (4 * b4) * d + b4 * e by { MulDistribute(b4, 4 * d, e); MulAssoc(b4, 4, d); MulAssoc(4, b4, d); }
    MulMonotone(b4, e, 3);
    MulMonotone(b4, 0, e);
    DivModUnique(hs + b4 * h4 + 5, 4 * b4, d, b4 * e + q);
  }

  /** mac = hs + pad + c modulo 2^128, word by word. */
  method AddPad(hs: seq<u32>, pad: seq<u32>, c0: u64, mac: array<u8>) returns (ghost words: seq<u32>, ghost k: int)
    requires |hs| == |pad| == 4 && c0 <= 5 && mac.Length == 16
    modifies mac
    ensures |words| == 4 && Val(256, mac[..]) == Val(TWO_32, words)
    ensures Val(TWO_32, words) + Pow(TWO_32, 4) * k == Val(TWO_32, hs) + Val(TWO_32, pad) + c0
  {
    hide Val, Pow, Store32;
    var c: u64 := c0;
    words := [];
    RowStart(hs, 0, pad);
    ValZero(256, mac[..0]);
    for i := 0 to 4
      invariant c <= 5 && |words| == i && Val(256, mac[..4 * i]) == Val(TWO_32, words)
      invariant Val(TWO_32, words) + Pow(TWO_32, i) * c == Val(TWO_32, hs[..i]) + Val(TWO_32, pad[..i]) + c0
    {
      var sum: u64 := c + hs[i] + pad[i];
      assert hs[..i + 1] == hs[..i] + [hs[i]] && pad[..i + 1] == pad[..i] + [pad[i]];
      SumStep(words, hs[..i], pad[..i], c, hs[i], pad[i], c0, i, sum);
      StoreAt(mac, i, sum % TWO_32, words);
      words := words + [sum % TWO_32];
      c := sum / TWO_32;
    }
    assert hs[..4] == hs && pad[..4] == pad && mac[..16] == mac[..];
    k := c;
  }

  method StoreAt(mac: array<u8>, i: nat, w: u32, ghost words: seq<u32>)
    requires i < 4 && mac.Length == 16 && |words| == i && Val(256, mac[..4 * i]) == Val(TWO_32, words)
    modifies mac
    ensures Val(256, mac[..4 * (i + 1)]) == Val(TWO_32, words + [w])
  {
    hide Val, Pow, Store32;
    var b := Store32(w);
    ghost var before := mac[..4 * i];
    mac[4 * i] := b[0];
    mac[4 * i + 1] := b[1];
    mac[4 * i + 2] := b[2];
    mac[4 * i + 3] := b[3];
    assert mac[..4 * (i + 1)] == before + b;
    ValAppend(256, before, b);
    Store32Val(w);
    WordPower(i);
    ValSnoc(TWO_32, words, w);
  }

  lemma FourWords(h: Limbs5)
    ensures var hs: seq<u32> := [h.h0, h.h1, h.h2, h.h3];
            h.Value() == Val(TWO_32, hs) + Pow(TWO_32, 4) * h.h4
    ensures P + 5 == 4 * Pow(TWO_32, 4) && Pow(256, 16) == Pow(TWO_32, 4) > 5 && P > 0
  {
    hide Val, Pow, P, Five;
    ModulusIs();
    ModulusPositive();
    PowOne();
    PowSquare(1);
    PowSquare(2);
    WordPower(4);
    FourDigits(TWO_32, [h.h0, h.h1, h.h2, h.h3]);
    FiveOf(TWO_32, h.h0, h.h1, h.h2, h.h3, h.h4, Pow(TWO_32, 2), Pow(TWO_32, 4));
    MulAssoc(TWO_32, TWO_32, TWO_32 * TWO_32);
  }

  /** Subtracting p = 4 * b4 - 5 once or not at all is adding 5 or nothing, modulo b4. */
  lemma TagArith(b4: nat, p: nat, hl: nat, h4: nat, pad: int, c: nat, mac: nat, k: int)
    requires p + 5 == 4 * b4 && p > 0 && b4 > 5 && hl < b4 && h4 <= 4 && mac < b4
    requires c == 5 * ((hl + b4 * h4 + 5) / (4 * b4)) && mac + b4 * k == hl + pad + c
    ensures mac == ((hl + b4 * h4) % p + pad) % b4
  {
    var h := hl + b4 * h4;
    MulMonotone(b4, h4, 4);
    MulMonotone(b4, 0, h4);
    var q := if h + 5 >= 4 * b4 then 1 else 0;
    DivModUnique(h + 5, 4 * b4, q, h + 5 - 4 * b4 * q);
    DivModUnique(h, p, q, h - p * q);
    assert h % p + pad == mac + b4 * (k + h4 - 4 * q) by {
      MulDistribute(b4, k, h4 - 4 * q);
      MulDistribute(b4, h4, 4 * q);
    }
    DivModUnique(h % p + pad, b4, k + h4 - 4 * q, mac);
  }

  lemma NothingAbsorbed(h: Limbs5, r: int)
    requires h == Limbs5(0, 0, 0, 0, 0)
    ensures P > 0 && h.Value() % P == Absorb(0, r, [], 0) % P
  {
    ModulusPositive();
    assert h.Value() == 0;
  }

  function ClampKey(key: seq<u8>): seq<u32>
    requires |key| == 32
  {
    AndAtMost(Load32(key[0..4]), 0x0fff_ffff);
    AndAtMost(Load32(key[4..8]), 0x0fff_fffc);
    AndAtMost(Load32(key[8..12]), 0x0fff_fffc);
    AndAtMost(Load32(key[12..16]), 0x0fff_fffc);
    [And(Load32(key[0..4]), 0x0fff_ffff), And(Load32(key[4..8]), 0x0fff_fffc),
     And(Load32(key[8..12]), 0x0fff_fffc), And(Load32(key[12..16]), 0x0fff_fffc)]
  }

  /**
   Which bits of the key are in r, as section 2.5 of RFC 8439 lists them: the bytes 3, 7, 11 and 15 lose their upper four bits,
   and the bytes 4, 8 and 12 their lower two.
   */
  lemma KeyBytes(key: seq<u8>, c: seq<u8>)
    requires |key| == 32 && |c| == 16
    requires forall i | 0 <= i < 16 :: c[i] == if i % 4 == 3 then key[i] % 16 else if i % 4 == 0 && i > 0 then key[i] - key[i] % 4 else key[i]
    ensures ClampedWords(ClampKey(key)) && SplitWords(ClampKey(key)).Value(TWO_32) == Val(256, c)
  {
    hide And, Load32, Val, ClampedWords;
    KeyIsClamped(key);
    TopCleared(key[0..4], c[..4]);
    BothCleared(key[4..8], c[4..8]);
    BothCleared(key[8..12], c[8..12]);
    BothCleared(key[12..16], c[12..]);
    BlockWords(c, 0);
    SplitValue(ClampKey(key));
  }

  lemma SplitValue(r: seq<u32>)
    requires ClampedWords(r)
    ensures SplitWords(r).Value(TWO_32) == Five(TWO_32, r[0], r[1], r[2], r[3], 0)
  {
  }

  lemma TopCleared(k: seq<u8>, c: seq<u8>)
    requires |k| == |c| == 4 && c[0] == k[0] && c[1] == k[1] && c[2] == k[2] && c[3] == k[3] % 16
    ensures And(Load32(k), 0x0fff_ffff) == Load32(c)
  {
    hide And, Pow2;
    SmallMasks();
    AndMask(Load32(k), 28);
    DivModUnique(Load32(k), 0x1000_0000, k[3] / 16, Load32(c));
  }

  lemma BothCleared(k: seq<u8>, c: seq<u8>)
    requires |k| == |c| == 4 && c[0] == k[0] - k[0] % 4 && c[1] == k[1] && c[2] == k[2] && c[3] == k[3] % 16
    ensures And(Load32(k), 0x0fff_fffc) == Load32(c)
  {
    hide And, Pow2, Load32;
    var x := Load32(k);
    SmallMasks();
    LowCleared(x);
    AndMask(x / 4, 26);
    QuarterWord(k, c);
  }

  lemma LowCleared(x: nat)
    ensures And(x, 0x0fff_fffc) == 4 * And(x / 4, 0x03ff_ffff)
  {
    hide And;
    AndUnfold(x, 0x0fff_fffc);
    AndUnfold(x / 2, 0x07ff_fffe);
    assert x / 2 / 2 == x / 4;
  }

  lemma QuarterWord(k: seq<u8>, c: seq<u8>)
    requires |k| == |c| == 4 && c[0] == k[0] - k[0] % 4 && c[1] == k[1] && c[2] == k[2] && c[3] == k[3] % 16
    ensures Load32(k) / 4 % 0x400_0000 * 4 == Load32(c)
  {
    var x, y: int := Load32(k), Load32(c) / 4;
    assert Load32(c) == 4 * y;
    assert x / 4 == 0x400_0000 * (k[3] / 16) + y by {
      DivModUnique(x, 4, 0x400_0000 * (k[3] / 16) + y, k[0] % 4);
    }
    DivModUnique(x / 4, 0x400_0000, k[3] / 16, y);
  }

  lemma SmallMasks()
    ensures Pow2(26) == 0x400_0000 && Pow2(28) == 0x1000_0000
  {
    hide Pow2;
    WordPowers();
    assert Pow2(2) == 4 && Pow2(4) == 16 by {
      Pow2Small();
    }
    Pow2Add(16, 8);
    Pow2Add(24, 2);
    Pow2Add(24, 4);
  }

  lemma Pow2Small()
    ensures Pow2(2) == 4 && Pow2(4) == 16
  {
  }

  function PadOf(key: seq<u8>): seq<u32>
    requires |key| == 32
  {
    [Load32(key[16..20]), Load32(key[20..24]), Load32(key[24..28]), Load32(key[28..32])]
  }

  lemma KeyIsClamped(key: seq<u8>)
    requires |key| == 32
    ensures ClampedWords(ClampKey(key))
  {
    hide And, Load32;
    AndAtMost(Load32(key[0..4]), 0x0fff_ffff);
    AndAtMost(Load32(key[4..8]), 0x0fff_fffc);
    AndAtMost(Load32(key[8..12]), 0x0fff_fffc);
    AndAtMost(Load32(key[12..16]), 0x0fff_fffc);
    AndCleared(Load32(key[4..8]), 0x0fff_fffc);
    AndCleared(Load32(key[8..12]), 0x0fff_fffc);
    AndCleared(Load32(key[12..16]), 0x0fff_fffc);
  }

  lemma PadValue(key: seq<u8>)
    requires |key| == 32
    ensures |PadOf(key)| == 4 && Val(TWO_32, PadOf(key)) == Val(256, key[16..])
  {
    hide Load32, Val;
    var k := key[16..];
    assert k[..4] == key[16..20] && k[4..8] == key[20..24] && k[8..12] == key[24..28] && k[12..] == key[28..32];
    BlockWords(k, 0);
    FourDigits(TWO_32, PadOf(key));
  }

  /** One more block. */
  lemma MoreAbsorbed(h0: int, h1: int, z: int, r: int, done: seq<u8>, block: seq<u8>)
    requires |done| % 16 == 0 && |block| == 16 && P > 0
    requires h0 % P == Absorb(0, r, done, |done| / 16) % P
    requires (h0 + BlockValue(block, 1)) * r == h1 + P * z
    ensures |done + block| % 16 == 0 && h1 % P == Absorb(0, r, done + block, |done + block| / 16) % P
  {
    hide P, BlockValue;
    var n := |done| / 16;
    AbsorbSplit(0, r, done, n, block, 1);
    assert block[16 * 0..16 * 1] == block;
    ModStep(P, h0, Absorb(0, r, done, n), BlockValue(block, 1), r, h1, z);
    ModTwice((Absorb(0, r, done, n) + BlockValue(block, 1)) * r, P);
  }

  lemma ModTwice(a: int, p: int)
    requires p > 0
    ensures a % p % p == a % p
  {
    DivModUnique(a % p, p, 0, a % p);
  }

  lemma WordGap(x: nat)
    requires x < 16
    ensures Gap(x, 4) == if x == 0 then 0 else 16 - x
  {
    hide And;
    assert Pow2(4) == 16;
    GapAligns(x, 4);
  }

  /** The tag of a message under a key: the clamped half is r, the other half the pad. */
  ghost function TagOf(key: seq<u8>, message: seq<u8>): int
    requires |key| == 32
  {
    KeyIsClamped(key);
    Tag(SplitWords(ClampKey(key)).Value(TWO_32), Val(256, key[16..]), message)
  }

  /** The tag in full: a polynomial at the clamped first half of the key, modulo 2^130 - 5, plus the second half, modulo 2^128. */
  lemma TagIs(key: seq<u8>, c: seq<u8>, m: seq<u8>)
    requires |key| == 32 && |c| == 16 && P > 0
    requires forall i | 0 <= i < 16 :: c[i] == if i % 4 == 3 then key[i] % 16 else if i % 4 == 0 && i > 0 then key[i] - key[i] % 4 else key[i]
    ensures Val(256, c) >= 0
    ensures var k := (|m| + 15) / 16;
            TagOf(key, m) == (PowerSum(Val(256, c), m, k, k) % P + Val(256, key[16..])) % Pow(256, 16)
  {
    hide P, Val, Pow, PowerSum, Evaluate, Clamped.Value, SplitWords, ClampKey;
    KeyIsClamped(key);
    KeyBytes(key, c);
    ValBound(256, c);
    EvaluateIs(Val(256, c), m);
  }

  /** Any split of the message gives the same tag. */
  method InPieces(key: seq<u8>, pieces: seq<seq<u8>>) returns (mac: array<u8>)
    requires |key| == 32 && forall i | 0 <= i < |pieces| :: |pieces[i]| < TWO_64
    ensures fresh(mac) && mac.Length == 16 && Val(256, mac[..]) == TagOf(key, Joined(pieces))
  {
    hide P, Val, Context.Valid, Tag, ClampKey, SplitWords, Clamped.Value;
    var ctx := new Context(key);
    assert pieces[..0] == [];
    for i := 0 to |pieces|
      invariant ctx.Valid() && fresh(ctx) && fresh(ctx.c) && ctx.message == Joined(pieces[..i])
      invariant ctx.r == ClampKey(key) && Val(TWO_32, ctx.pad) == Val(256, key[16..])
    {
      assert pieces[..i + 1][..i] == pieces[..i];
      ctx.Update(pieces[i]);
    }
    assert pieces[..|pieces|] == pieces;
    KeyIsClamped(key);
    mac := ctx.Final();
  }
}
