/** The canonical bytes of a field element. */
module FieldBytes {
  import opened Powers
  import opened Words
  import opened Bits
  import opened Limbs
  import opened FieldLimbs
  import opened Field

  /** The limbs from i on, as a number. */
  ghost function Tail(h: Ten, i: nat): int
    requires i <= 10
    decreases 10 - i
  {
    if i == 10 then 0 else h[i] + Radix(A, B, i) * Tail(h, i + 1)
  }

  /** The limbs below n with x above them, as a number. */
  ghost function Glue(t: Ten, n: nat, x: int): int
    requires n <= 10
  {
    if n == 0 then x else Glue(t, n - 1, t[n - 1] + Radix(A, B, n - 1) * x)
  }

  /** The weight of limb 10, counted from limb i. */
  ghost function Weight(i: nat): int
    requires i <= 10
    decreases 10 - i
  {
    if i == 10 then 1 else Radix(A, B, i) * Weight(i + 1)
  }

  lemma TailIs(h: Ten)
    ensures Tail(h, 0) == Value(h)
  {
    hide Tail;
    TailPair(h, 8);
    TailPair(h, 6);
    TailPair(h, 4);
    TailPair(h, 2);
    TailPair(h, 0);
    TailEnd(h);
  }

  lemma TailPair(h: Ten, i: nat)
    requires i <= 8 && i % 2 == 0
    ensures Tail(h, i) == Pair(A, B, h[i], h[i + 1], Tail(h, i + 2))
  {
  }

  lemma TailEnd(h: Ten)
    ensures Tail(h, 10) == 0
  {
  }

  lemma GlueIs(t: Ten, q: int)
    ensures Glue(t, 10, q) == Number(A, B, t, q)
  {
    hide Glue;
    GluePair(t, 8, q);
    var n8 := Pair(A, B, t[8], t[9], q);
    GluePair(t, 6, n8);
    var n6 := Pair(A, B, t[6], t[7], n8);
    GluePair(t, 4, n6);
    var n4 := Pair(A, B, t[4], t[5], n6);
    GluePair(t, 2, n4);
    GluePair(t, 0, Pair(A, B, t[2], t[3], n4));
    GlueStart(t, Pair(A, B, t[0], t[1], Pair(A, B, t[2], t[3], n4)));
  }

  lemma GluePair(t: Ten, i: nat, x: int)
    requires i <= 8 && i % 2 == 0
    ensures Glue(t, i + 2, x) == Glue(t, i, Pair(A, B, t[i], t[i + 1], x))
  {
  }

  lemma GlueStart(t: Ten, x: int)
    ensures Glue(t, 0, x) == x
  {
  }

  lemma {:induction false} GlueSame(t: Ten, u: Ten, n: nat, x: int)
    requires n <= 10 && forall j | 0 <= j < n :: t[j] == u[j]
    ensures Glue(t, n, x) == Glue(u, n, x)
  {
    if n > 0 {
      GlueSame(t, u, n - 1, t[n - 1] + Radix(A, B, n - 1) * x);
    }
  }

  lemma WeightIs()
    ensures Weight(0) == Full(A, B) && Weight(9) == B
  {
    hide Weight;
    WeightPair(8);
    WeightPair(6);
    WeightPair(4);
    WeightPair(2);
    WeightPair(0);
    WeightEnd();
  }

  lemma WeightPair(i: nat)
    requires i <= 8 && i % 2 == 0
    ensures Weight(i) == (A * B) * Weight(i + 2)
  {
  }

  lemma WeightEnd()
    ensures Weight(10) == 1 && Weight(9) == B
  {
  }

  // The sign and the size of an element

  lemma {:induction false} WeightPositive(i: nat)
    requires i <= 10
    ensures Weight(i) > 0
    decreases 10 - i
  {
    if i < 10 {
      WeightPositive(i + 1);
      MulMonotone(Radix(A, B, i), 1, Weight(i + 1));
    }
  }

  /** A tight element is less than 9/16 of 2^255 in absolute value. */
  lemma {:induction false} TailSmall(h: Ten, i: nat)
    requires Tight(h) && i <= 9
    ensures 16 * (Tail(h, i) + 1) <= 9 * Weight(i) && 16 * (1 - Tail(h, i)) <= 9 * Weight(i)
    decreases 9 - i
  {
    hide Weight, Tail;
    UnfoldTail(h, i);
    if i < 9 {
      TailSmall(h, i + 1);
      Inflate(Radix(A, B, i), Tail(h, i + 1), Weight(i + 1));
    }
  }

  lemma UnfoldTail(h: Ten, i: nat)
    requires i <= 9
    ensures Tail(h, i) == h[i] + Radix(A, B, i) * Tail(h, i + 1) && Weight(i) == Radix(A, B, i) * Weight(i + 1)
    ensures Tail(h, 10) == 0 && Weight(10) == 1
  {
  }

  lemma Inflate(r: nat, t: int, w: int)
    requires 16 * (t + 1) <= 9 * w && 16 * (1 - t) <= 9 * w
    ensures 16 * (r * t) + 16 * r <= 9 * (r * w) && 16 * r - 16 * (r * t) <= 9 * (r * w)
  {
    MulMonotone(r, 16 * (t + 1), 9 * w);
    MulMonotone(r, 16 * (1 - t), 9 * w);
    assert r * (16 * (t + 1)) == 16 * (r * t) + 16 * r;
    assert r * (16 * (1 - t)) == 16 * r - 16 * (r * t);
    assert r * (9 * w) == 9 * (r * w);
  }

  /** The last limb decides the sign, unless it is zero. */
  lemma {:induction false} TailSign(h: Ten, i: nat)
    requires Tight(h) && i <= 9
    ensures h[9] > 0 ==> Tail(h, i) > 0
    ensures h[9] < 0 ==> Tail(h, i) < 0
    decreases 9 - i
  {
    hide Tail;
    UnfoldTail(h, i);
    if i < 9 {
      TailSign(h, i + 1);
      var r := Radix(A, B, i);
      if h[9] > 0 { MulMonotone(r, 1, Tail(h, i + 1)); }
      if h[9] < 0 { MulMonotone(r, Tail(h, i + 1), -1); }
    }
  }

  /** Floor division keeps the sign of what is left. */
  lemma SignStep(q: int, h: Ten, i: nat)
    requires i <= 9
    ensures q + Tail(h, i) >= 0 <==> (q + h[i]) / Radix(A, B, i) + Tail(h, i + 1) >= 0
  {
    hide Tail;
    UnfoldTail(h, i);
    FloorSign(q + h[i], Radix(A, B, i), Tail(h, i + 1));
  }

  lemma FloorSign(x: int, r: nat, t: int)
    requires r > 0
    ensures x + r * t >= 0 <==> x / r + t >= 0
  {
    var d, e := x / r, x % r;
    assert x == r * d + e && 0 <= e < r;
    MulDistribute(r, d, t);
    if d + t >= 0 { MulMonotone(r, 0, d + t); } else { MulMonotone(r, d + t, -1); }
  }

  /** q = 0 if the element is not negative, else -1. */
  method SignOf(t: Ten) returns (q: i32)
    requires Tight(t)
    ensures q == if Value(t) >= 0 then 0 else -1
  {
    hide Tail;
    q := (19 * t[9] + 0x100_0000) / B;
    ghost var q0 := q;
    assert -16 <= q0 <= 16 && (t[9] > 0 ==> q0 >= 0) && (t[9] <= 0 ==> q0 <= 0) && (t[9] == 0 ==> q0 == 0);
    for i := 0 to 5
      invariant -16 <= q <= 16 && (i > 0 ==> -1 <= q <= 0)
      invariant q0 + Tail(t, 0) >= 0 <==> q + Tail(t, 2 * i) >= 0
    {
      SignStep(q, t, 2 * i);
      q := q + t[2 * i];
      q := q / A;
      SignStep(q, t, 2 * i + 1);
      q := q + t[2 * i + 1];
      q := q / B;
    }
    TailEnd(t);
    TailSign(t, 0);
    TailIs(t);
  }

  ghost predicate Proper(t: Ten) {
    forall i | 0 <= i < 10 :: 0 <= t[i] < Radix(A, B, i)
  }

  /** Adds 19 * q and carries: every limb ends up in its proper range. */
  method CarryDown(h: Ten, q0: i32) returns (t: Ten, ghost excess: int)
    requires Tight(h) && -1 <= q0 <= 0
    ensures Proper(t) && Value(h) + 19 * q0 == Number(A, B, t, excess)
  {
    hide Tail, Glue, Number;
    var q: i32 := q0 * 19;
    t := h;
    TailIs(h);
    GlueStart(t, q + Tail(h, 0));
    for i := 0 to 5
      invariant -19 <= q <= 19 && (forall j | 2 * i <= j < 10 :: t[j] == h[j])
      invariant forall j | 0 <= j < 2 * i :: 0 <= t[j] < Radix(A, B, j)
      invariant Value(h) + 19 * q0 == Glue(t, 2 * i, q + Tail(h, 2 * i))
    {
      var x: i32 := t[2 * i] + q;
      q := x / A;
      GlueStep(t, h, 2 * i, x, q);
      t := t[2 * i := x - q * A];
      var y: i32 := t[2 * i + 1] + q;
      q := y / B;
      GlueStep(t, h, 2 * i + 1, y, q);
      t := t[2 * i + 1 := y - q * B];
    }
    TailEnd(h);
    GlueIs(t, q);
    excess := q;
  }

  lemma GlueStep(t: Ten, h: Ten, n: nat, x: int, q: int)
    requires n <= 9
    ensures Glue(t, n, x - h[n] + Tail(h, n)) == Glue(t[n := x - Radix(A, B, n) * q], n + 1, q + Tail(h, n + 1))
  {
    hide Tail, Glue;
    UnfoldTail(h, n);
    var r := Radix(A, B, n);
    var u := t[n := x - r * q];
    MulDistribute(r, q, Tail(h, n + 1));
    GlueSame(t, u, n, x + r * Tail(h, n + 1));
    UnfoldGlue(u, n, q + Tail(h, n + 1));
  }

  lemma UnfoldGlue(t: Ten, n: nat, x: int)
    requires n <= 9
    ensures Glue(t, n + 1, x) == Glue(t, n, t[n] + Radix(A, B, n) * x)
  {
  }

  // The canonical representative

  lemma {:induction false} ProperRange(t: Ten, i: nat)
    requires Proper(t) && i <= 10
    ensures 0 <= Tail(t, i) < Weight(i)
    decreases 10 - i
  {
    hide Tail, Weight;
    if i < 10 {
      UnfoldTail(t, i);
      ProperRange(t, i + 1);
      var r := Radix(A, B, i);
      MulMonotone(r, 0, Tail(t, i + 1));
      MulMonotone(r, Tail(t, i + 1) + 1, Weight(i + 1));
      MulDistribute(r, Tail(t, i + 1), 1);
    } else {
      TailEnd(t);
      WeightEnd();
    }
  }

  lemma {:induction false} WeightLarge(i: nat)
    requires i <= 9
    ensures Weight(i) >= B
    decreases 9 - i
  {
    hide Weight;
    WeightEnd();
    if i < 9 {
      WeightLarge(i + 1);
      MulMonotone(Weight(i + 1), 1, Radix(A, B, i));
      WeightNext(i);
    }
  }

  lemma WeightNext(i: nat)
    requires i <= 9
    ensures Weight(i) == Radix(A, B, i) * Weight(i + 1)
  {
  }

  /** After the carries the limbs hold the representative between 0 and the prime. */
  lemma Canonical(h: Ten, t: Ten, excess: int)
    requires Tight(h) && Proper(t)
    requires Value(h) + 19 * (if Value(h) >= 0 then 0 else -1) == Number(A, B, t, excess)
    ensures Prime() > 0 && Tail(t, 0) == Value(h) % Prime()
  {
    hide Tail, Weight, Number, Full;
    TailIs(h);
    TailIs(t);
    TailSmall(h, 0);
    ProperRange(t, 0);
    WeightIs();
    WeightLarge(0);
    TopWeight(A, B, t, excess);
    Representative(Full(A, B), Value(h), Tail(t, 0), excess);
  }

  lemma Representative(full: nat, v: int, n: nat, excess: int)
    requires full >= B && 16 * (v + 1) <= 9 * full && 16 * (1 - v) <= 9 * full && n < full
    requires v + 19 * (if v >= 0 then 0 else -1) == n + full * excess
    ensures n == v % (full - 19)
  {
    var w := v + 19 * (if v >= 0 then 0 else -1);
    DivModUnique(w, full, excess, n);
    DivModUnique(w, full, if v >= 0 then 0 else -1, if v >= 0 then v else v - 19 + full);
    DivModUnique(v, full - 19, if v >= 0 then 0 else -1, n);
  }

  // Packing the limbs into words

  /** (hi << s) | lo in 32 bits. */
  function Joined(lo: nat, hi: nat, s: nat): (w: nat)
    requires s <= 32
  {
    Or(lo, hi * Pow2(s) % Pow2(32))
  }

  lemma JoinedIs(lo: nat, hi: nat, s: nat)
    requires s <= 32 && lo < Pow2(s)
    ensures Joined(lo, hi, s) == lo + hi % Pow2(32 - s) * Pow2(s) < Pow2(32)
  {
    hide Or, Pow2;
    ShiftOut(hi, s, 32);
    OrDisjoint(lo, hi % Pow2(32 - s), s);
    Pow2Add(s, 32 - s);
    assert s + (32 - s) == 32;
    DivMod(hi, Pow2(32 - s));
    MulMonotone(Pow2(s), hi % Pow2(32 - s) + 1, Pow2(32 - s));
    MulDistribute(Pow2(s), hi % Pow2(32 - s), 1);
    MulAssoc(Pow2(s), hi % Pow2(32 - s), 0);
  }

  /** One word: what is left of the limb before, the low bits of the next limb, and the rest above. */
  lemma PackWord(lo: nat, x: nat, s: nat, e: nat, rest: int)
    requires s <= 32 && lo < Pow2(s) && 32 - s <= e
    ensures lo + Pow2(s) * (x + Pow2(e) * rest)
         == Joined(lo, x, s) + TWO_32 * (x / Pow2(32 - s) + Pow2(e - (32 - s)) * rest)
  {
    hide Joined, Pow2;
    JoinedIs(lo, x, s);
    WordPowers();
    Pow2Add(s, 32 - s);
    Pow2Add(32 - s, e - (32 - s));
    assert s + (32 - s) == 32 && 32 - s + (e - (32 - s)) == e;
    DivMod(x, Pow2(32 - s));
    PackArith(lo, x, Pow2(s), Pow2(32 - s), Pow2(e - (32 - s)), x / Pow2(32 - s), x % Pow2(32 - s), rest);
  }

  lemma PackArith(lo: int, x: int, p: int, m: int, k: int, d: int, e: int, rest: int)
    requires x == m * d + e
    ensures lo + p * (x + (m * k) * rest) == lo + e * p + (p * m) * (d + k * rest)
  {
    MulDistribute(p, m * d + e, (m * k) * rest);
    MulDistribute(p, m * d, e);
    MulAssoc(p, m, d);
    MulAssoc(m, k, rest);
    MulAssoc(p, m, k * rest);
    MulDistribute(p * m, d, k * rest);
    MulAssoc(p, e, 0);
  }

  function Packed(t: Ten): (w: seq<int>)
    requires forall i | 0 <= i < 10 :: t[i] >= 0
    ensures |w| == 8
  {
    [Joined(t[0], t[1], 26), Joined(t[1] / 0x40, t[2], 19), Joined(t[2] / 0x2000, t[3], 13), Joined(t[3] / 0x8_0000, t[4], 6),
     Joined(t[5], t[6], 25), Joined(t[6] / 0x80, t[7], 19), Joined(t[7] / 0x2000, t[8], 12), Joined(t[8] / 0x10_0000, t[9], 6)]
  }

  lemma SmallShifts()
    ensures Pow2(6) == 0x40 && Pow2(7) == 0x80 && Pow2(12) == 0x1000 && Pow2(13) == 0x2000 && Pow2(19) == 0x8_0000
    ensures Pow2(20) == 0x10_0000 && Pow2(25) == B && Pow2(26) == A && Pow2(0) == 1
  {
    hide Pow2;
    SmallPowers();
    Pow2Add(6, 6);
    Pow2Add(6, 7);
    Pow2Add(6, 13);
    Pow2Add(7, 13);
    Pow2Add(6, 19);
    Pow2Add(7, 19);
  }

  /** The words hold the same number as the limbs. */
  lemma WordsAreLimbs(t: Ten)
    requires Proper(t)
    ensures Digits(TWO_32, Packed(t)) && |Packed(t)| == 8
    ensures Val(TWO_32, Packed(t)) == Tail(t, 0)
  {
    WordsFit(t);
    RestIs(t, 0);
  }

  lemma {:induction false} RestIs(t: Ten, j: nat)
    requires Proper(t) && j <= 8
    ensures Val(TWO_32, Packed(t)[j..]) == Rest(t, j)
    decreases 8 - j
  {
    hide Val, Packed, Tail;
    if j < 8 {
      RestIs(t, j + 1);
      HeadOf(TWO_32, Packed(t), j);
      if j < 4 { LowRest(t, j); } else { HighRest(t, j); }
    } else {
      ValZero(TWO_32, Packed(t)[8..]);
    }
  }

  lemma WordsFit(t: Ten)
    requires Proper(t)
    ensures forall i | 0 <= i < 8 :: 0 <= Packed(t)[i] < TWO_32
  {
    hide Joined, Pow2;
    SmallShifts();
    WordPowers();
    JoinedIs(t[0], t[1], 26);
    JoinedIs(t[1] / 0x40, t[2], 19);
    JoinedIs(t[2] / 0x2000, t[3], 13);
    JoinedIs(t[3] / 0x8_0000, t[4], 6);
    JoinedIs(t[5], t[6], 25);
    JoinedIs(t[6] / 0x80, t[7], 19);
    JoinedIs(t[7] / 0x2000, t[8], 12);
    JoinedIs(t[8] / 0x10_0000, t[9], 6);
  }

  /** What word j and the words above it hold. */
  ghost function Rest(t: Ten, j: nat): int
    requires j <= 8
  {
    if j == 0 then Tail(t, 0)
    else if j == 1 then t[1] / 0x40 + 0x8_0000 * Tail(t, 2)
    else if j == 2 then t[2] / 0x2000 + 0x2000 * Tail(t, 3)
    else if j == 3 then t[3] / 0x8_0000 + 0x40 * Tail(t, 4)
    else if j == 4 then Tail(t, 5)
    else if j == 5 then t[6] / 0x80 + 0x8_0000 * Tail(t, 7)
    else if j == 6 then t[7] / 0x2000 + 0x1000 * Tail(t, 8)
    else if j == 7 then t[8] / 0x10_0000 + 0x40 * Tail(t, 9)
    else 0
  }

  lemma LowRest(t: Ten, j: nat)
    requires Proper(t) && j < 4
    ensures Rest(t, j) == Packed(t)[j] + TWO_32 * Rest(t, j + 1)
  {
    hide Tail, Joined, Pow2;
    SmallShifts();
    if j == 0 {
      UnfoldTail(t, 0);
      UnfoldTail(t, 1);
      PackWord(t[0], t[1], 26, 25, Tail(t, 2));
    } else if j == 1 {
      UnfoldTail(t, 2);
      PackWord(t[1] / 0x40, t[2], 19, 26, Tail(t, 3));
    } else if j == 2 {
      UnfoldTail(t, 3);
      PackWord(t[2] / 0x2000, t[3], 13, 25, Tail(t, 4));
    } else {
      UnfoldTail(t, 4);
      PackWord(t[3] / 0x8_0000, t[4], 6, 26, Tail(t, 5));
      assert t[4] / Pow2(26) == 0;
    }
  }

  lemma HighRest(t: Ten, j: nat)
    requires Proper(t) && 4 <= j < 8
    ensures Rest(t, j) == Packed(t)[j] + TWO_32 * Rest(t, j + 1)
  {
    hide Tail, Joined, Pow2;
    SmallShifts();
    if j == 4 {
      UnfoldTail(t, 5);
      UnfoldTail(t, 6);
      PackWord(t[5], t[6], 25, 26, Tail(t, 7));
    } else if j == 5 {
      UnfoldTail(t, 7);
      PackWord(t[6] / 0x80, t[7], 19, 25, Tail(t, 8));
    } else if j == 6 {
      UnfoldTail(t, 8);
      PackWord(t[7] / 0x2000, t[8], 12, 26, Tail(t, 9));
    } else {
      UnfoldTail(t, 9);
      PackWord(t[8] / 0x10_0000, t[9], 6, 26, 0);
      assert t[9] / Pow2(26) == 0;
    }
  }

  /** Writes the unique representative below the prime. */
  method ToBytes(s: array<u8>, h: array<i32>)
    requires s.Length == 32 && h.Length == 10 && Tight(h[..])
    modifies s
    ensures Prime() > 0 && Val(256, s[..]) == Value(h[..]) % Prime()
  {
    hide Value, Number, Tail, Prime, Val, Packed;
    ghost var x := h[..];
    var q := SignOf(h[..]);
    var t, excess := CarryDown(h[..], q);
    Canonical(h[..], t, excess);
    WordsAreLimbs(t);
    var words := Packed(t);
    StoreBuf(s, words);
  }

  // Reading bytes

  function Load(s: seq<u8>): int {
    Val(256, s)
  }

  /** How far the loaded bytes are shifted into limb i. */
  function LoadShift(i: nat): nat
    requires i < 10
  {
    [0x1, 0x40, 0x20, 0x8, 0x4, 0x1, 0x80, 0x20, 0x10, 0x4][i]
  }

  /** The byte limb i is loaded from. */
  function LoadOffset(i: nat): nat
    requires i < 10
  {
    [0, 4, 7, 10, 13, 16, 20, 23, 26, 29][i]
  }

  function LoadEnd(i: nat): nat
    requires i < 10
  {
    if i == 9 then 32 else LoadOffset(i + 1)
  }

  /** The number in the bytes, where the top nbMask bits are ignored. */
  ghost function Masked(s: seq<u8>, nbMask: nat, i: nat): int
    requires |s| == 32 && nbMask <= 24 && i < 10
    decreases 10 - i
  {
    if i == 9 then Load(s[29..]) % Pow2(24 - nbMask)
    else Load(s[LoadOffset(i)..LoadEnd(i)]) + Pow(256, LoadEnd(i) - LoadOffset(i)) * Masked(s, nbMask, i + 1)
  }

  lemma {:induction false} MaskedIs(s: seq<u8>, nbMask: nat, i: nat)
    requires |s| == 32 && nbMask <= 24 && i < 10
    ensures Masked(s, nbMask, i)
         == Load(s[LoadOffset(i)..29]) + Pow(256, 29 - LoadOffset(i)) * (Load(s[29..]) % Pow2(24 - nbMask))
    decreases 10 - i
  {
    hide Val, Pow, Pow2;
    assert i == 0 || i == 1 || i == 2 || i == 3 || i == 4 || i == 5 || i == 6 || i == 7 || i == 8 || i == 9;
    if i < 9 {
      MaskedIs(s, nbMask, i + 1);
      var o, e := LoadOffset(i), LoadEnd(i);
      var top := Load(s[29..]) % Pow2(24 - nbMask);
      assert s[o..29] == s[o..e] + s[e..29];
      ValAppend(256, s[o..e], s[e..29]);
      PowAdd(256, e - o, 29 - e);
      assert e - o + (29 - e) == 29 - o;
      LoadNest(Pow(256, e - o), Load(s[e..29]), Pow(256, 29 - e), top);
    } else {
      ValZero(256, s[29..29]);
      PowNought();
    }
  }

  lemma LoadNest(p: int, y: int, q: int, top: int)
    ensures p * (y + q * top) == p * y + (p * q) * top
  {
    MulDistribute(p, y, q * top);
    MulAssoc(p, q, top);
  }

  lemma PowNought()
    ensures Pow(256, 0) == 1 && Pow(256, 3) == 0x100_0000 && Pow(256, 4) == TWO_32
  {
    FourPowers();
    assert Pow(256, 3) == 256 * (256 * Pow(256, 1));
  }

  function Loaded(s: seq<u8>, nbMask: nat): Ten
    requires |s| == 32 && nbMask <= 24
  {
    [Load(s[0..4]), Load(s[4..7]) * 0x40, Load(s[7..10]) * 0x20, Load(s[10..13]) * 0x8, Load(s[13..16]) * 0x4,
     Load(s[16..20]), Load(s[20..23]) * 0x80, Load(s[23..26]) * 0x20, Load(s[26..29]) * 0x10,
     And(LoadNat(s[29..32]), Pow2(24 - nbMask) - 1) * 0x4]
  }

  function LoadNat(s: seq<u8>): nat {
    ValBound(256, s);
    Load(s)
  }

  /** The shifts put every group of bytes at its place. */
  lemma {:induction false} LoadedTail(s: seq<u8>, nbMask: nat, i: nat)
    requires |s| == 32 && nbMask <= 24 && i < 10
    ensures Tail(Loaded(s, nbMask), i) == LoadShift(i) * Masked(s, nbMask, i)
    decreases 10 - i
  {
    hide Tail, Val, Pow, And, Pow2;
    var t := Loaded(s, nbMask);
    UnfoldTail(t, i);
    PowNought();
    assert i == 0 || i == 1 || i == 2 || i == 3 || i == 4 || i == 5 || i == 6 || i == 7 || i == 8 || i == 9;
    if i < 9 {
      LoadedTail(s, nbMask, i + 1);
    } else {
      AndMask(LoadNat(s[29..32]), 24 - nbMask);
      assert s[29..32] == s[29..];
    }
  }

  /** Decodes a field element, ignoring the top nbMask bits. */
  method FromBytes(h: array<i32>, s: seq<u8>, nbMask: nat)
    requires h.Length == 10 && |s| == 32 && 1 <= nbMask <= 2
    modifies h
    ensures Tight(h[..])
    ensures Congruent(Val(256, s[..29]) + Pow(256, 29) * (Val(256, s[29..]) % Pow2(24 - nbMask)), Value(h[..]))
  {
    hide Value, Val, Pow, Pow2, And, Prime, Tail, Number;
    var t := Loaded(s, nbMask);
    LoadedFits(s, nbMask);
    CarryInto(h, t);
    TailIs(t);
    LoadedTail(s, nbMask, 0);
    MaskedIs(s, nbMask, 0);
  }

  lemma LoadedFits(s: seq<u8>, nbMask: nat)
    requires |s| == 32 && nbMask <= 24
    ensures forall i | 0 <= i < 10 :: 0 <= Loaded(s, nbMask)[i] < 0x8000_0000_0
  {
    hide Val, Pow, And, Pow2;
    PowNought();
    AndAtMost(LoadNat(s[29..32]), Pow2(24 - nbMask) - 1);
    ValBound(256, s[0..4]);
    ValBound(256, s[4..7]);
    ValBound(256, s[7..10]);
    ValBound(256, s[10..13]);
    ValBound(256, s[13..16]);
    ValBound(256, s[16..20]);
    ValBound(256, s[20..23]);
    ValBound(256, s[23..26]);
    ValBound(256, s[26..29]);
    ValBound(256, s[29..32]);
  }
}
