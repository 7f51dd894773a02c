/**
 The values of XXH64 that its own test program checks: no byte, 1 byte, 14 bytes and 222 bytes of a generated
 message, under two seeds.  Between them they go through every step.
 */
module Xxh64Values {
  import opened Powers
  import opened Words
  import opened Bits
  import opened Limbs
  import opened XorWords
  import opened Xxh64

  // The generated message

  /** n bytes of the generator in state g: each is the top byte of the state, which is then multiplied. */
  function Sanity(g: u64, n: nat): (b: seq<u8>)
    ensures |b| == n
    decreases n
  {
    if n == 0 then [] else [g / 0x100_0000_0000_0000] + Sanity(g * 11400714785074694797 % TWO_64, n - 1)
  }

  /** The first n bytes. */
  function Message(n: nat): (b: seq<u8>)
    ensures |b| == n
  {
    Sanity(2654435761, n)
  }

  /** The state next follows g, whose product is q * 2^64 above it, and b is the byte made of g. */
  predicate Follows(g: u64, q: nat, b: u8, next: u64) {
    g * 11400714785074694797 == q * 0x1_0000_0000_0000_0000 + next
    && b * 0x100_0000_0000_0000 <= g < (b + 1) * 0x100_0000_0000_0000
  }

  lemma ByteIs(n: nat, g: u64, q: nat, b: u8, next: u64)
    requires n >= 1 && Follows(g, q, b, next)
    ensures Sanity(g, n)[0] == b && Sanity(g, n)[1..] == Sanity(next, n - 1)
  {
    DivModUnique(g, 0x100_0000_0000_0000, b, g - b * 0x100_0000_0000_0000);
    DivModUnique(g * 11400714785074694797, TWO_64, q, next);
  }

  lemma FourBytes(n: nat, g0: u64, q0: nat, b0: u8, g1: u64, q1: nat, b1: u8, g2: u64, q2: nat, b2: u8, g3: u64, q3: nat, b3: u8, g4: u64)
    requires n >= 4 && Follows(g0, q0, b0, g1) && Follows(g1, q1, b1, g2) && Follows(g2, q2, b2, g3) && Follows(g3, q3, b3, g4)
    ensures Sanity(g0, n)[..4] == [b0, b1, b2, b3] && Sanity(g0, n)[4..] == Sanity(g4, n - 4)
  {
    hide Sanity, Follows;
    ByteIs(n, g0, q0, b0, g1);
    ByteIs(n - 1, g1, q1, b1, g2);
    ByteIs(n - 2, g2, q2, b2, g3);
    ByteIs(n - 3, g3, q3, b3, g4);
    var s := Sanity(g0, n);
    assert s[1..][1..] == s[2..] && s[2..][1..] == s[3..] && s[3..][1..] == s[4..];
    assert s[1] == s[1..][0] && s[2] == s[2..][0] && s[3] == s[3..][0];
  }

  lemma HalfWordIs(n: nat, g0: u64, q0: nat, b0: u8, g1: u64, q1: nat, b1: u8, g2: u64, q2: nat, b2: u8, g3: u64, q3: nat, b3: u8, g4: u64,
                   w: u32)
    requires n >= 4 && Follows(g0, q0, b0, g1) && Follows(g1, q1, b1, g2) && Follows(g2, q2, b2, g3) && Follows(g3, q3, b3, g4)
    requires w == b0 as int + 0x100 * b1 as int + 0x1_0000 * b2 as int + 0x100_0000 * b3 as int
    ensures Read32(Sanity(g0, n)[..4]) == w && Sanity(g0, n)[4..] == Sanity(g4, n - 4)
  {
    hide Sanity, Follows, Val;
    FourBytes(n, g0, q0, b0, g1, q1, b1, g2, q2, b2, g3, q3, b3, g4);
    FourVal(Sanity(g0, n)[..4]);
  }

  lemma FourVal(b: seq<u8>)
    requires |b| == 4
    ensures Val(256, b) == b[0] as int + 0x100 * b[1] as int + 0x1_0000 * b[2] as int + 0x100_0000 * b[3] as int
  {
    FourDigits(256, b);
  }

  lemma EightVal(b: seq<u8>)
    requires |b| == 8
    ensures Val(256, b) == Val(256, b[..4]) + 0x1_0000_0000 * Val(256, b[4..])
  {
    hide Val;
    ValAppend(256, b[..4], b[4..]);
    FourPowers();
    assert b == b[..4] + b[4..];
  }

  lemma WordIs(n: nat, g0: u64, q0: nat, b0: u8, g1: u64, q1: nat, b1: u8, g2: u64, q2: nat, b2: u8, g3: u64, q3: nat, b3: u8,
               g4: u64, q4: nat, b4: u8, g5: u64, q5: nat, b5: u8, g6: u64, q6: nat, b6: u8, g7: u64, q7: nat, b7: u8, g8: u64, w: u64)
    requires n >= 8 && Follows(g0, q0, b0, g1) && Follows(g1, q1, b1, g2) && Follows(g2, q2, b2, g3) && Follows(g3, q3, b3, g4)
    requires Follows(g4, q4, b4, g5) && Follows(g5, q5, b5, g6) && Follows(g6, q6, b6, g7) && Follows(g7, q7, b7, g8)
    requires w == b0 as int + 0x100 * b1 as int + 0x1_0000 * b2 as int + 0x100_0000 * b3 as int
                + 0x1_0000_0000 * (b4 as int + 0x100 * b5 as int + 0x1_0000 * b6 as int + 0x100_0000 * b7 as int)
    ensures Read64(Sanity(g0, n)[..8]) == w && Sanity(g0, n)[8..] == Sanity(g8, n - 8)
  {
    hide Sanity, Follows, Val;
    FourBytes(n, g0, q0, b0, g1, q1, b1, g2, q2, b2, g3, q3, b3, g4);
    FourBytes(n - 4, g4, q4, b4, g5, q5, b5, g6, q6, b6, g7, q7, b7, g8);
    var s := Sanity(g0, n);
    assert s[4..][4..] == s[8..] && s[..8][..4] == s[..4] && s[..8][4..] == s[4..][..4];
    EightVal(s[..8]);
    FourVal(s[..4]);
    FourVal(s[4..][..4]);
  }

  ghost predicate HoldsWords(b: seq<u8>, w0: u64, w1: u64, w2: u64, w3: u64) {
    |b| >= 32 && Read64(b[0..8]) == w0 && Read64(b[8..16]) == w1 && Read64(b[16..24]) == w2 && Read64(b[24..32]) == w3
  }

  lemma Aligned(b: seq<u8>)
    requires |b| >= 32
    ensures b[..8] == b[0..8] && b[8..][..8] == b[8..16] && b[8..][8..] == b[16..]
    ensures b[16..][..8] == b[16..24] && b[16..][8..] == b[24..] && b[24..][..8] == b[24..32] && b[24..][8..] == b[32..]
  {
  }

  // The steps in arithmetic

  lemma Rotations()
    ensures Pow2(1) == 2 && Pow2(7) == 0x80 && Pow2(11) == 0x800 && Pow2(12) == 0x1000
    ensures Pow2(18) == 0x4_0000 && Pow2(23) == 0x80_0000 && Pow2(27) == 0x800_0000 && Pow2(29) == 0x2000_0000
    ensures Pow2(31) == 0x8000_0000 && Pow2(32) == 0x1_0000_0000 && Pow2(33) == 0x2_0000_0000
    ensures Pow2(37) == 0x20_0000_0000 && Pow2(41) == 0x200_0000_0000 && Pow2(46) == 0x4000_0000_0000
    ensures Pow2(52) == 0x10_0000_0000_0000 && Pow2(53) == 0x20_0000_0000_0000 && Pow2(57) == 0x200_0000_0000_0000
    ensures Pow2(63) == 0x8000_0000_0000_0000
  {
    SmallPowers();
    hide Pow2;
    WordPowers();
    Pow2Add(8, 4);
    Pow2Add(8, 3);
    Pow2Add(16, 2);
    Pow2Add(16, 7);
    Pow2Add(16, 11);
    Pow2Add(16, 13);
    Pow2Add(8, 5);
    Pow2Add(16, 15);
    Pow2Add(8, 7);
    Pow2Add(32, 1);
    Pow2Add(32, 5);
    Pow2Add(32, 9);
    Pow2Add(8, 1);
    Pow2Add(32, 14);
    Pow2Add(8, 6);
    Pow2Add(32, 20);
    Pow2Add(16, 4);
    Pow2Add(32, 21);
    Pow2Add(16, 5);
    Pow2Add(32, 25);
    Pow2Add(16, 9);
  }

  lemma SmallPowers()
    ensures Pow2(1) == 2 && Pow2(2) == 4 && Pow2(3) == 8 && Pow2(4) == 16 && Pow2(5) == 32 && Pow2(6) == 64 && Pow2(7) == 128
  {
  }

  /** A product and sum of q words and a remainder. */
  lemma WrapIs(x: nat, q: nat, r: u64)
    requires x == q * 0x1_0000_0000_0000_0000 + r
    ensures Wrap(x) == r
  {
    DivModUnique(x, TWO_64, q, r);
  }

  /** A rotation exchanges the two parts of a word. */
  lemma Rotated(hi: nat, lo: nat, r: nat, p: nat, q: nat)
    requires 0 < r < 64 && Pow2(r) == p && Pow2(64 - r) == q && p * q == TWO_64 && hi < p && lo < q
    ensures hi * q + lo < TWO_64 && lo * p + hi < TWO_64 && Rotl64(hi * q + lo, r) == lo * p + hi
  {
    hide Rotl64, Pow2;
    var x := hi * q + lo;
    RotlFits(lo, hi, q, p);
    RotlFits(hi, lo, p, q);
    RotlLaw(x, r);
    DivModUnique(x, q, hi, lo);
    assert (hi * q + lo) * p == hi * TWO_64 + lo * p by { assert hi * q * p == hi * (p * q); }
    DivModUnique(x * p, TWO_64, hi, lo * p);
  }

  lemma RoundIs(acc: u64, input: u64, q: nat, hi: nat, lo: nat, q': nat, r: u64)
    requires acc + input * PRIME64_2 == q * 0x1_0000_0000_0000_0000 + hi * 0x2_0000_0000 + lo && hi < 0x8000_0000 && lo < 0x2_0000_0000
    requires (lo * 0x8000_0000 + hi) * PRIME64_1 == q' * 0x1_0000_0000_0000_0000 + r
    ensures Round(acc, input) == r
  {
    hide Rotl64, Pow2, Wrap;
    Rotations();
    Rotated(hi, lo, 31, 0x8000_0000, 0x2_0000_0000);
    WrapIs(acc + input * PRIME64_2, q, hi * 0x2_0000_0000 + lo);
    WrapIs((lo * 0x8000_0000 + hi) * PRIME64_1, q', r);
  }

  lemma XorFits(a: u64, b: u64, x: u64)
    requires Xor(a, b) == x
    ensures Xor64(a, b) == x
  {
    hide Xor;
  }

  lemma MergeIs(acc: u64, val: u64, n: u64, x: u64, q: nat, r: u64)
    requires Round(0, val) == n && Xor(acc, n) == x && x * PRIME64_1 + PRIME64_4 == q * 0x1_0000_0000_0000_0000 + r
    ensures MergeRound(acc, val) == r
  {
    hide Round, Xor64, Wrap, Xor;
    XorFits(acc, n, x);
    WrapIs(x * PRIME64_1 + PRIME64_4, q, r);
  }

  lemma ConvergeIs(v: Lanes, a1: nat, b1: nat, a2: nat, b2: nat, a3: nat, b3: nat, a4: nat, b4: nat, q: nat,
                   h0: u64, h1: u64, h2: u64, h3: u64, h4: u64)
    requires v.v1 == a1 * 0x8000_0000_0000_0000 + b1 && a1 < 2 && b1 < 0x8000_0000_0000_0000
    requires v.v2 == a2 * 0x200_0000_0000_0000 + b2 && a2 < 0x80 && b2 < 0x200_0000_0000_0000
    requires v.v3 == a3 * 0x10_0000_0000_0000 + b3 && a3 < 0x1000 && b3 < 0x10_0000_0000_0000
    requires v.v4 == a4 * 0x4000_0000_0000 + b4 && a4 < 0x4_0000 && b4 < 0x4000_0000_0000
    requires b1 * 2 + a1 + (b2 * 0x80 + a2) + (b3 * 0x1000 + a3) + (b4 * 0x4_0000 + a4) == q * 0x1_0000_0000_0000_0000 + h0
    requires MergeRound(h0, v.v1) == h1 && MergeRound(h1, v.v2) == h2 && MergeRound(h2, v.v3) == h3 && MergeRound(h3, v.v4) == h4
    ensures Converge(v) == h4
  {
    hide Rotl64, Pow2, MergeRound, Wrap;
    Rotations();
    Rotated(a1, b1, 1, 2, 0x8000_0000_0000_0000);
    Rotated(a2, b2, 7, 0x80, 0x200_0000_0000_0000);
    Rotated(a3, b3, 12, 0x1000, 0x10_0000_0000_0000);
    Rotated(a4, b4, 18, 0x4_0000, 0x4000_0000_0000);
    WrapIs(b1 * 2 + a1 + (b2 * 0x80 + a2) + (b3 * 0x1000 + a3) + (b4 * 0x4_0000 + a4), q, h0);
  }

  lemma TailEight(h: u64, b: seq<u8>, w: u64, n: u64, hi: nat, lo: nat, q: nat, r: u64)
    requires |b| >= 8 && Read64(b[..8]) == w && Round(0, w) == n && Xor(h, n) == hi * 0x20_0000_0000 + lo
    requires hi < 0x800_0000 && lo < 0x20_0000_0000 && (lo * 0x800_0000 + hi) * PRIME64_1 + PRIME64_4 == q * 0x1_0000_0000_0000_0000 + r
    ensures Tail(h, b) == Tail(r, b[8..])
  {
    hide Tail, Rotl64, Pow2, Round, Xor, Xor64, Read64, Wrap;
    TailStep(h, b);
    Rotations();
    Rotated(hi, lo, 27, 0x800_0000, 0x20_0000_0000);
    XorFits(h, n, hi * 0x20_0000_0000 + lo);
    WrapIs((lo * 0x800_0000 + hi) * PRIME64_1 + PRIME64_4, q, r);
  }

  lemma TailFour(h: u64, b: seq<u8>, w: u32, q: nat, n: u64, hi: nat, lo: nat, q': nat, r: u64)
    requires 4 <= |b| < 8 && Read32(b[..4]) == w && w * PRIME64_1 == q * 0x1_0000_0000_0000_0000 + n
    requires Xor(h, n) == hi * 0x200_0000_0000 + lo && hi < 0x80_0000 && lo < 0x200_0000_0000
    requires (lo * 0x80_0000 + hi) * PRIME64_2 + PRIME64_3 == q' * 0x1_0000_0000_0000_0000 + r
    ensures Tail(h, b) == Tail(r, b[4..])
  {
    hide Tail, Rotl64, Pow2, Xor, Xor64, Read32, Wrap;
    TailStep(h, b);
    Rotations();
    Rotated(hi, lo, 23, 0x80_0000, 0x200_0000_0000);
    WrapIs(w * PRIME64_1, q, n);
    XorFits(h, n, hi * 0x200_0000_0000 + lo);
    WrapIs((lo * 0x80_0000 + hi) * PRIME64_2 + PRIME64_3, q', r);
  }

  lemma TailOne(h: u64, b: seq<u8>, byte: u8, q: nat, n: u64, hi: nat, lo: nat, q': nat, r: u64)
    requires 1 <= |b| < 4 && b[0] == byte && byte * PRIME64_5 == q * 0x1_0000_0000_0000_0000 + n
    requires Xor(h, n) == hi * 0x20_0000_0000_0000 + lo && hi < 0x800 && lo < 0x20_0000_0000_0000
    requires (lo * 0x800 + hi) * PRIME64_1 == q' * 0x1_0000_0000_0000_0000 + r
    ensures Tail(h, b) == Tail(r, b[1..])
  {
    hide Tail, Rotl64, Pow2, Xor, Xor64, Wrap;
    TailStep(h, b);
    Rotations();
    Rotated(hi, lo, 11, 0x800, 0x20_0000_0000_0000);
    WrapIs(byte * PRIME64_5, q, n);
    XorFits(h, n, hi * 0x20_0000_0000_0000 + lo);
    WrapIs((lo * 0x800 + hi) * PRIME64_1, q', r);
  }

  lemma TailNone(h: u64, g: u64)
    ensures Tail(h, Sanity(g, 0)) == h
  {
    hide Tail;
    TailStep(h, Sanity(g, 0));
  }

  lemma ShiftIs(x: u64, k: nat, p: nat, hi: nat, lo: nat)
    requires Pow2(k) == p && x == hi * p + lo && lo < p
    ensures Shr(x, k) == hi
  {
    hide Pow2;
    DivModUnique(x, p, hi, lo);
  }

  lemma AvalancheIs(h: u64, a: nat, a': nat, x: u64, q: nat, b: u64, c: nat, c': nat, y: u64, q': nat, d: u64, e: nat, e': nat, r: u64)
    requires h == a * 0x2_0000_0000 + a' && a' < 0x2_0000_0000 && Xor(h, a) == x && x * PRIME64_2 == q * 0x1_0000_0000_0000_0000 + b
    requires b == c * 0x2000_0000 + c' && c' < 0x2000_0000 && Xor(b, c) == y && y * PRIME64_3 == q' * 0x1_0000_0000_0000_0000 + d
    requires d == e * 0x1_0000_0000 + e' && e' < 0x1_0000_0000 && Xor(d, e) == r
    ensures Avalanche(h) == r
  {
    hide Xor, Xor64, Pow2, Wrap, Shr;
    Rotations();
    ShiftIs(h, 33, 0x2_0000_0000, a, a');
    WrapIs(a, 0, a);
    XorFits(h, a, x);
    WrapIs(x * PRIME64_2, q, b);
    ShiftIs(b, 29, 0x2000_0000, c, c');
    WrapIs(c, 0, c);
    XorFits(b, c, y);
    WrapIs(y * PRIME64_3, q', d);
    ShiftIs(d, 32, 0x1_0000_0000, e, e');
    WrapIs(e, 0, e);
    XorFits(d, e, r);
  }

  // The whole

  lemma NoStripe(v: Lanes, m: seq<u8>)
    ensures Stripes(v, m, 0) == v
  {
  }

  lemma NextStripes(seed: u64, k: nat, v: Lanes, r: Lanes, w0: u64, w1: u64, w2: u64, w3: u64)
    requires k < 6 && Stripes(Start(seed), Message(222), k) == v && HoldsWords(Message(222)[32 * k..], w0, w1, w2, w3)
    requires Round(v.v1, w0) == r.v1 && Round(v.v2, w1) == r.v2 && Round(v.v3, w2) == r.v3 && Round(v.v4, w3) == r.v4
    ensures Stripes(Start(seed), Message(222), k + 1) == r
  {
    hide Stripes, Stripe, Round, Start, Message, Read64;
    var m := Message(222);
    NextStripe(Start(seed), m, k);
    var b := m[32 * k..];
    var s := m[32 * k..32 * (k + 1)];
    assert s == b[..32];
    assert s[0..8] == b[0..8] && s[8..16] == b[8..16] && s[16..24] == b[16..24] && s[24..32] == b[24..32];
    StripeIs(v, s);
  }

  lemma StripeIs(v: Lanes, b: seq<u8>)
    requires |b| == 32
    ensures Stripe(v, b) == Lanes(Round(v.v1, Read64(b[0..8])), Round(v.v2, Read64(b[8..16])),
                                  Round(v.v3, Read64(b[16..24])), Round(v.v4, Read64(b[24..32])))
  {
  }

  lemma ShortHash(m: seq<u8>, seed: u64, q: nat, h: u64)
    requires |m| < 32 && seed + PRIME64_5 + |m| == q * 0x1_0000_0000_0000_0000 + h
    ensures Hash(m, seed) == Avalanche(Tail(h, m))
  {
    hide Tail, Avalanche;
    assert m[0..] == m;
    assert Wrap(Wrap(seed + PRIME64_5) + |m|) == h;
  }

  lemma LongHash(seed: u64, v: Lanes, h0: u64, h: u64)
    requires Stripes(Start(seed), Message(222), 6) == v && Converge(v) == h0 && h == h0 + 222
    ensures Hash(Message(222), seed) == Avalanche(Tail(h, Message(222)[192..]))
  {
    hide Tail, Avalanche, Stripes, Converge, Start, Message, Wrap;
    WrapIs(h0 + 222, 0, h);
  }


  // The 222 bytes

  lemma Word0(n: nat)
    requires n >= 8
    ensures Read64(Sanity(2654435761, n)[..8]) == 2640009570739704320
    ensures Sanity(2654435761, n)[8..] == Sanity(3245128801315169233, n - 8)
  {
    hide Sanity, Read64;
    WordIs(n, 2654435761, 1640531516, 0, 5956952469040705661, 3681599084174993886, 82,
           10587317562483726041, 6543322083647057576, 146, 11194468992740265861, 6918562302736463957, 155,
           13197767433398320705, 8156668824953451972, 183, 3652317082689885133, 2257256088013262175, 50,
           11763957408259828201, 7270525498669555797, 163, 2624535428965052245, 1622052094905935427, 36,
           3245128801315169233, 2640009570739704320);
  }

  lemma Word1(n: nat)
    requires n >= 8
    ensures Read64(Sanity(3245128801315169233, n)[..8]) == 10644517266675138605
    ensures Sanity(3245128801315169233, n)[8..] == Sanity(16368398465380356593, n - 8)
  {
    hide Sanity, Read64;
    WordIs(n, 3245128801315169233, 2005599891059023905, 45, 18880375704200221, 11668713870509876, 0,
           12611049607295190521, 7794057267705576428, 175, 10775849349343511589, 6659841135536124888, 149,
           1058217781749283425, 654014554655872195, 14, 17037146980474122605, 10529535873629224439, 236,
           13318304444214442761, 8231164794316338269, 184, 10605421940529421813, 6554511204590862098, 147,
           16368398465380356593, 10644517266675138605);
  }

  lemma Word2(n: nat)
    requires n >= 8
    ensures Read64(Sanity(16368398465380356593, n)[..8]) == 3084357347933413347
    ensures Sanity(16368398465380356593, n)[8..] == Sanity(5987687142641091601, n - 8)
  {
    hide Sanity, Read64;
    WordIs(n, 16368398465380356593, 10116226562616863565, 227, 16133703792104475581, 9971177277989555148, 223,
           17291931200929732889, 10687001181194901582, 239, 10626901759939022021, 6567786463018324969, 147,
           12286633010870024833, 7593556785202583153, 170, 15440031270700368653, 9542464083987861015, 214,
           14831690086784348201, 9166488556700864950, 205, 3089573352780750997, 1909461337018325013, 42,
           5987687142641091601, 3084357347933413347);
  }

  lemma Word3(n: nat)
    requires n >= 8
    ensures Read64(Sanity(5987687142641091601, n)[..8]) == 15379610570380315475
    ensures Sanity(5987687142641091601, n)[8..] == Sanity(6455861157346458161, n - 8)
  {
    hide Sanity, Read64;
    WordIs(n, 5987687142641091601, 3700594157036104041, 83, 10065882780359419741, 6221057666345943878, 139,
           6672224741911580729, 4123661658691598700, 92, 4585471776293267813, 2833977403689137661, 63,
           6085225014749658785, 3760875877008448648, 84, 6505058705923426477, 4020347366996694245, 90,
           8025586130046290249, 4960084993107916642, 111, 15416820734027740981, 9528119183470144256, 213,
           6455861157346458161, 15379610570380315475);
  }

  lemma Word4(n: nat)
    requires n >= 8
    ensures Read64(Sanity(6455861157346458161, n)[..8]) == 3727157020097232985
    ensures Sanity(6455861157346458161, n)[8..] == Sanity(2129431737719256145, n - 8)
  {
    hide Sanity, Read64;
    WordIs(n, 6455861157346458161, 3989941609904294715, 89, 13880081020636378877, 8578361811585644700, 192,
           18403438756745767769, 11373950627377890285, 255, 18223595469722147333, 11262801363682689706, 252,
           10360765116323661505, 6403304972106327786, 143, 9627736525030687309, 5950268389322766458, 133,
           13382426652451735145, 8270794498321633185, 185, 3711004114777563605, 2293526668433343940, 51,
           2129431737719256145, 3727157020097232985);
  }

  lemma Word5(n: nat)
    requires n >= 8
    ensures Read64(Sanity(2129431737719256145, n)[..8]) == 2851629272449461021
    ensures Sanity(2129431737719256145, n)[8..] == Sanity(12715532596037743217, n - 8)
  {
    hide Sanity, Read64;
    WordIs(n, 2129431737719256145, 1316061186679716659, 29, 12386818168926206621, 7655474617863578568, 171,
           8427534092068285049, 5208502494599998680, 116, 17865085349881323173, 11041229924975877637, 247,
           13184083974147019489, 8148211982077878549, 182, 431797894591213549, 266865774326331862, 5,
           10650246048991815561, 6582214027052812106, 147, 2823926817833672821, 1745282749920597320, 39,
           12715532596037743217, 2851629272449461021);
  }

  lemma Word6(n: nat)
    requires n >= 8
    ensures Read64(Sanity(12715532596037743217, n)[..8]) == 8547687402607767728
    ensures Sanity(12715532596037743217, n)[8..] == Sanity(5212923509130474641, n - 8)
  {
    hide Sanity, Read64;
    WordIs(n, 12715532596037743217, 7858631305800661936, 176, 8129530400373453373, 5024326084912926103, 112,
           9567286174212967833, 5912908017997793857, 132, 12916003895384241989, 7982529382193454718, 179,
           7463808723587506945, 4612887462847628275, 103, 8953741088699322765, 5533716302659017542, 124,
           11504755873070705833, 7110330140467763755, 159, 8569532160576172821, 5296262127011073631, 118,
           5212923509130474641, 8547687402607767728);
  }

  lemma Word7(n: nat)
    requires n >= 8
    ensures Read64(Sanity(5212923509130474641, n)[..8]) == 16724003399295696968
    ensures Sanity(5212923509130474641, n)[8..] == Sanity(15929031230811421361, n - 8)
  {
    hide Sanity, Read64;
    WordIs(n, 5212923509130474641, 3221763899717613609, 72, 67311497893600733, 41600793406940662, 0,
           8270892621012276409, 5111692741730425378, 114, 17147738428550833125, 10597885147200374976, 237,
           8901015421425989409, 5501130048302470806, 123, 11001786739239282477, 6799478121401669588, 152,
           1709541818781717961, 1056554946022453891, 23, 16726601621763611061, 10337608287474163291, 232,
           15929031230811421361, 16724003399295696968);
  }

  lemma Word8(n: nat)
    requires n >= 8
    ensures Read64(Sanity(15929031230811421361, n)[..8]) == 7336587045594089693
    ensures Sanity(15929031230811421361, n)[8..] == Sanity(4566199745637942481, n - 8)
  {
    hide Sanity, Read64;
    WordIs(n, 15929031230811421361, 9844682678925949682, 221, 5240790121643572605, 3238986413350293701, 72,
           6774507844466065369, 4186876092355161048, 94, 875242719577531525, 540929747479818636, 12,
           920947099460259649, 569176607597226107, 12, 14682009896710107341, 9073981112070337953, 203,
           15029801151466922729, 9288927927854308911, 208, 7305145507094090837, 4514828202584890738, 101,
           4566199745637942481, 7336587045594089693);
  }

  lemma Word9(n: nat)
    requires n >= 8
    ensures Read64(Sanity(4566199745637942481, n)[..8]) == 16747954703755816255
    ensures Sanity(4566199745637942481, n)[8..] == Sanity(10231556405271106289, n - 8)
  {
    hide Sanity, Read64;
    WordIs(n, 4566199745637942481, 2822066633747697439, 63, 12472271432994459933, 7708287639348725408, 173,
           12838409607033409273, 7934573474803842802, 178, 10312397093695584549, 6373411890243353015, 143,
           1245122772632169313, 769528191341474262, 17, 12729780351079657069, 7867436902653494782, 176,
           7805799883982902281, 4824249623189053566, 108, 16752452673084269301, 10353585115787252488, 232,
           10231556405271106289, 16747954703755816255);
  }

  lemma Word10(n: nat)
    requires n >= 8
    ensures Read64(Sanity(10231556405271106289, n)[..8]) == 6222111049440669837
    ensures Sanity(10231556405271106289, n)[8..] == Sanity(7843441175953597713, n - 8)
  {
    hide Sanity, Read64;
    WordIs(n, 10231556405271106289, 6323449597273175306, 141, 12709365809398683837, 7854820022067803858, 176,
           17422805903256961561, 10767886195257669915, 241, 9717724748052865477, 6005884169570604855, 134,
           583747261110127489, 360775647121924480, 8, 7022737528621015053, 4340290473718704191, 97,
           6423264983167756585, 3969796066419164002, 89, 6258911923073861013, 3868220289431222928, 86,
           7843441175953597713, 6222111049440669837);
  }

  lemma Word11(n: nat)
    requires n >= 8
    ensures Read64(Sanity(7843441175953597713, n)[..8]) == 12375156286357933676
    ensures Sanity(7843441175953597713, n)[8..] == Sanity(11313865048483429169, n - 8)
  {
    hide Sanity, Read64;
    WordIs(n, 7843441175953597713, 4847513220937516463, 108, 10277828327243945053, 6352047217691263602, 142,
           5673773826331908409, 3506585058618648338, 78, 8676784888269233765, 5362547957912395360, 120,
           1371712228303318945, 847764777328564971, 19, 7136605566888986029, 4410664791389174841, 99,
           13624622211633898057, 8420479585370832616, 189, 12354388588738001973, 7635432035126587132, 171,
           11313865048483429169, 12375156286357933676);
  }

  lemma Word12(n: nat)
    requires n >= 8
    ensures Read64(Sanity(11313865048483429169, n)[..8]) == 15649852480130593437
    ensures Sanity(11313865048483429169, n)[8..] == Sanity(8800659318106903889, n - 8)
  {
    hide Sanity, Read64;
    WordIs(n, 11313865048483429169, 6992353123086743447, 157, 3652743212646073341, 2257519450809019832, 50,
           8336344700881458265, 5152144351602433217, 115, 682462751513718533, 421785175224181149, 9,
           16906748279987886017, 10448945044882012985, 234, 8161442905659219789, 5044049097786441185, 113,
           3402628067612032873, 2102939790541240903, 47, 15684253458837112533, 9693401696609813482, 217,
           8800659318106903889, 15649852480130593437);
  }

  lemma Word13(n: nat)
    requires n >= 8
    ensures Read64(Sanity(8800659318106903889, n)[..8]) == 16848118810213195130
    ensures Sanity(8800659318106903889, n)[8..] == Sanity(6778485400293241713, n - 8)
  {
    hide Sanity, Read64;
    WordIs(n, 8800659318106903889, 5439106565659102478, 122, 11322713312912861085, 6997821651229151245, 157,
           6174111825235112825, 3815810946875001190, 85, 17355759740369048485, 10726449387902156746, 240,
           14588336879660631009, 9016088003878927928, 202, 9950954003449228525, 6150027776143370088, 138,
           14988316631855022217, 9263289084804213583, 208, 16814178612502504821, 10391733844220637639, 233,
           6778485400293241713, 16848118810213195130);
  }

  lemma Word14(n: nat)
    requires n >= 8
    ensures Read64(Sanity(6778485400293241713, n)[..8]) == 5893540017610299998
    ensures Sanity(6778485400293241713, n)[8..] == Sanity(17226673961129006481, n - 8)
  {
    hide Sanity, Read64;
    WordIs(n, 6778485400293241713, 4189334357041121441, 94, 1877376245310668605, 1160282325788088496, 26,
           3928266644496938649, 2427802295878328976, 54, 12923657752208084037, 7987259725841404154, 179,
           7767481664722842625, 4800567661369108038, 107, 1098455261295832717, 678882684562562852, 15,
           14617934106004104617, 9034380095676967730, 202, 5890424063732226069, 3640482268600542207, 81,
           17226673961129006481, 5893540017610299998);
  }

  lemma Word15(n: nat)
    requires n >= 8
    ensures Read64(Sanity(17226673961129006481, n)[..8]) == 10808900114150755311
    ensures Sanity(17226673961129006481, n)[8..] == Sanity(17537128520014494641, n - 8)
  {
    hide Sanity, Read64;
    WordIs(n, 17226673961129006481, 10646669989107207824, 239, 10068289754142935773, 6222545257949717893, 139,
           11738232934826007993, 7254626899792521635, 162, 14143446256528300261, 8741130478333017969, 196,
           7092556574689454113, 4383441017121467151, 98, 17102938109728384045, 10570197027544446728, 237,
           68528864701001417, 42353167468430050, 0, 10862795290579066549, 6713576682242123732, 150,
           17537128520014494641, 10808900114150755311);
  }

  lemma Word16(n: nat)
    requires n >= 8
    ensures Read64(Sanity(17537128520014494641, n)[..8]) == 10537245619465565427
    ensures Sanity(17537128520014494641, n)[8..] == Sanity(11631576973425141201, n - 8)
  {
    hide Sanity, Read64;
    WordIs(n, 17537128520014494641, 10838541457884400558, 243, 3748095208146881149, 2316450224746614154, 52,
           5281359493108508889, 3264059663742522729, 73, 16970528008157870469, 10488363084565878101, 235,
           1084641805610688577, 670345499472699578, 15, 15112032461836815821, 9339749672449672637, 209,
           4298758290621651945, 2656778725043439670, 59, 10540989922789423445, 6514690027783432379, 146,
           11631576973425141201, 10537245619465565427);
  }

  lemma Word17(n: nat)
    requires n >= 8
    ensures Read64(Sanity(11631576973425141201, n)[..8]) == 14933353257511397793
    ensures Sanity(11631576973425141201, n)[8..] == Sanity(17414967096149971953, n - 8)
  {
    hide Sanity, Read64;
    WordIs(n, 11631576973425141201, 7188709890742008178, 161, 12203017765919915549, 7541879722001008937, 169,
           7200246529310906361, 4449997069124519660, 99, 15790538275544133157, 9759089325625474906, 219,
           12279487267383336033, 7589140472866188188, 170, 17082813206612208493, 10557759153435715762, 237,
           4459204279062539529, 2755939798960594500, 61, 14940740557627418613, 9233885453968597113, 207,
           17414967096149971953, 14933353257511397793);
  }

  lemma Word18(n: nat)
    requires n >= 8
    ensures Read64(Sanity(17414967096149971953, n)[..8]) == 11682816793847663089
    ensures Sanity(17414967096149971953, n)[8..] == Sanity(16960745837647562257, n - 8)
  {
    hide Sanity, Read64;
    WordIs(n, 17414967096149971953, 10763041546048849752, 241, 663407089112229309, 410008128217296395, 9,
           4775997752229980953, 2951728932204037561, 66, 14825309583465952965, 9162545188796611340, 205,
           17975982946511297665, 11109768408757983516, 249, 12941923837614587149, 7998548787430118427, 179,
           2389166328384135721, 1476585991282426222, 33, 11733533696479668885, 7251722610781971893, 162,
           16960745837647562257, 11682816793847663089);
  }

  lemma Word19(n: nat)
    requires n >= 8
    ensures Read64(Sanity(16960745837647562257, n)[..8]) == 15080356012655964907
    ensures Sanity(16960745837647562257, n)[8..] == Sanity(5454698863733521457, n - 8)
  {
    hide Sanity, Read64;
    WordIs(n, 16960745837647562257, 10482317370724922447, 235, 17494902920587952477, 10812444602321856117, 242,
           14482801774978327097, 8950863722374924006, 200, 17594455842575520613, 10873971691604708503, 244,
           16463678403844759713, 10175112802856964984, 228, 3399936298023699117, 2101276185450764910, 47,
           5259372191406799689, 3250470764010789998, 72, 15081485373671981365, 9320870533763179478, 209,
           5454698863733521457, 15080356012655964907);
  }

  lemma Word20(n: nat)
    requires n >= 8
    ensures Read64(Sanity(5454698863733521457, n)[..8]) == 5402328267543023691
    ensures Sanity(5454698863733521457, n)[8..] == Sanity(13112418066652378705, n - 8)
  {
    hide Sanity, Read64;
    WordIs(n, 5454698863733521457, 3371189286055471107, 75, 1219803191712600317, 753879829799286021, 16,
           17585119723173690713, 10868201652508683868, 244, 14048325271975789573, 8682342477012815713, 194,
           17276232905200609473, 10677299100898001691, 239, 17065086479842229325, 10546803433815497705, 236,
           17935342129031280745, 11084651002300206565, 248, 5393283616568224725, 3333232575993866570, 74,
           13112418066652378705, 5402328267543023691);
  }

  lemma Word21(n: nat)
    requires n >= 8
    ensures Read64(Sanity(13112418066652378705, n)[..8]) == 1036574090832656565
    ensures Sanity(13112418066652378705, n)[8..] == Sanity(13800172141949416561, n - 8)
  {
    hide Sanity, Read64;
    WordIs(n, 13112418066652378705, 8103920015544640728, 181, 4067535229245281437, 2513875014559331882, 56,
           8404737954391161977, 5194413706745638199, 116, 14055610835414354085, 8686845202831515651, 195,
           11844986085368853729, 7320603975035935076, 164, 12028558525163465197, 7434057981885925365, 166,
           7091573354315340169, 4382833353513658809, 98, 1024587129910815349, 633229668818323962, 14,
           13800172141949416561, 1036574090832656565);
  }

  lemma Word22(n: nat)
    requires n >= 8
    ensures Read64(Sanity(13800172141949416561, n)[..8]) == 10990721809885953471
    ensures Sanity(13800172141949416561, n)[8..] == Sanity(1898659277045855889, n - 8)
  {
    hide Sanity, Read64;
    WordIs(n, 13800172141949416561, 8528975408702569951, 191, 18278201844207242301, 11296549959015500415, 253,
           7191733491091087257, 4444735722172949991, 99, 4034747775569666373, 2493611253844112785, 55,
           4737652850405950721, 2928030479652700762, 65, 16402741271255567245, 10137451583853021956, 227,
           9706635832121843369, 5999030842647430856, 134, 11016135064590187797, 6808345874123531520, 152,
           1898659277045855889, 10990721809885953471);
  }

  lemma Word23(n: nat)
    requires n >= 8
    ensures Read64(Sanity(1898659277045855889, n)[..8]) == 9756489313772432154
    ensures Sanity(1898659277045855889, n)[8..] == Sanity(17079432134879263921, n - 8)
  {
    hide Sanity, Read64;
    WordIs(n, 1898659277045855889, 1173435962744562490, 26, 16949183950327625693, 10475171731408571196, 235,
           5506360133257766585, 3403117706427508612, 76, 13449732050241441253, 8312391521657043389, 186,
           6227166328933194017, 3848600433318170564, 86, 241066160811598125, 148987080471448502, 3,
           7406302829737576393, 4577346866001693960, 102, 9775907848891687861, 6041843303351835981, 135,
           17079432134879263921, 9756489313772432154);
  }

  lemma Word24(n: nat)
    requires n >= 8
    ensures Read64(Sanity(17079432134879263921, n)[..8]) == 13133769478792085741
    ensures Sanity(17079432134879263921, n)[8..] == Sanity(14059909550521403089, n - 8)
  {
    hide Sanity, Read64;
    WordIs(n, 17079432134879263921, 10555669536192631858, 237, 51925166951536509, 32091517951157277, 0,
           5015515817412334041, 3099759236961651693, 69, 6484167063691398789, 4007435622055286155, 89,
           13909407620567724353, 8596486647063238329, 193, 9646901872764201677, 5962113225592706426, 133,
           4921945817748690153, 3041929797015927016, 68, 13162970353053376085, 8135163046655620066, 182,
           14059909550521403089, 13133769478792085741);
  }

  lemma Word25(n: nat)
    requires n >= 8
    ensures Read64(Sanity(14059909550521403089, n)[..8]) == 9798120476998461635
    ensures Sanity(14059909550521403089, n)[8..] == Sanity(16204203912168183025, n - 8)
  {
    hide Sanity, Read64;
    WordIs(n, 14059909550521403089, 8689501954867643519, 195, 7519919900869651229, 4647566077452587531, 104,
           17994221078008455417, 11121040193880655823, 249, 4753043357306905381, 2937542335993006306, 65,
           12239618922011512161, 7564500480425201643, 169, 16898418985612421229, 10443797257871136711, 234,
           17948638813331670537, 11092868805110837748, 249, 9786867982224895221, 6048617038252640057, 135,
           16204203912168183025, 9798120476998461635);
  }

  lemma Word26(n: nat)
    requires n >= 8
    ensures Read64(Sanity(16204203912168183025, n)[..8]) == 5211813577325977568
    ensures Sanity(16204203912168183025, n)[8..] == Sanity(6742991821638739729, n - 8)
  {
    hide Sanity, Read64;
    WordIs(n, 16204203912168183025, 10014748748268983163, 224, 11494255780927779517, 7103840726657924203, 159,
           1324292591238911001, 818457829976616589, 18, 15054055680783403973, 9303918051307993749, 208,
           15387696410411380097, 9510119361629954636, 213, 1506645733854763533, 931158269730010765, 20,
           6064494127577291561, 3748063484157475782, 84, 5211439854359744405, 3220846950644485966, 72,
           6742991821638739729, 5211813577325977568);
  }

  lemma Words0()
    ensures Message(222)[0..] == Sanity(2654435761, 222)
    ensures HoldsWords(Message(222)[0..], 2640009570739704320, 10644517266675138605, 3084357347933413347, 15379610570380315475)
    ensures Message(222)[32..] == Sanity(6455861157346458161, 190)
  {
    hide Sanity, Read64;
    var m := Message(222);
    Word0(222);
    Word1(214);
    Word2(206);
    Word3(198);
    Aligned(m[0..]);
    assert m[0..] == m;
    assert m[0..][32..] == m[32..];
  }

  lemma Words1()
    ensures Message(222)[32..] == Sanity(6455861157346458161, 190)
    ensures HoldsWords(Message(222)[32..], 3727157020097232985, 2851629272449461021, 8547687402607767728, 16724003399295696968)
    ensures Message(222)[64..] == Sanity(15929031230811421361, 158)
  {
    hide Sanity, Read64;
    Words0();
    var m := Message(222);
    Word4(190);
    Word5(182);
    Word6(174);
    Word7(166);
    Aligned(m[32..]);
    assert m[32..][32..] == m[64..];
  }

  lemma Words2()
    ensures Message(222)[64..] == Sanity(15929031230811421361, 158)
    ensures HoldsWords(Message(222)[64..], 7336587045594089693, 16747954703755816255, 6222111049440669837, 12375156286357933676)
    ensures Message(222)[96..] == Sanity(11313865048483429169, 126)
  {
    hide Sanity, Read64;
    Words1();
    var m := Message(222);
    Word8(158);
    Word9(150);
    Word10(142);
    Word11(134);
    Aligned(m[64..]);
    assert m[64..][32..] == m[96..];
  }

  lemma Words3()
    ensures Message(222)[96..] == Sanity(11313865048483429169, 126)
    ensures HoldsWords(Message(222)[96..], 15649852480130593437, 16848118810213195130, 5893540017610299998, 10808900114150755311)
    ensures Message(222)[128..] == Sanity(17537128520014494641, 94)
  {
    hide Sanity, Read64;
    Words2();
    var m := Message(222);
    Word12(126);
    Word13(118);
    Word14(110);
    Word15(102);
    Aligned(m[96..]);
    assert m[96..][32..] == m[128..];
  }

  lemma Words4()
    ensures Message(222)[128..] == Sanity(17537128520014494641, 94)
    ensures HoldsWords(Message(222)[128..], 10537245619465565427, 14933353257511397793, 11682816793847663089, 15080356012655964907)
    ensures Message(222)[160..] == Sanity(5454698863733521457, 62)
  {
    hide Sanity, Read64;
    Words3();
    var m := Message(222);
    Word16(94);
    Word17(86);
    Word18(78);
    Word19(70);
    Aligned(m[128..]);
    assert m[128..][32..] == m[160..];
  }

  lemma Words5()
    ensures Message(222)[160..] == Sanity(5454698863733521457, 62)
    ensures HoldsWords(Message(222)[160..], 5402328267543023691, 1036574090832656565, 10990721809885953471, 9756489313772432154)
    ensures Message(222)[192..] == Sanity(17079432134879263921, 30)
  {
    hide Sanity, Read64;
    Words4();
    var m := Message(222);
    Word20(62);
    Word21(54);
    Word22(46);
    Word23(38);
    Aligned(m[160..]);
    assert m[160..][32..] == m[192..];
  }

  lemma ZeroStripe0()
    ensures Stripes(Start(0), Message(222), 1)
         == Lanes(7069633883026219576, 14385599071495377624, 10032750152301120636, 11910530268515371490)
  {
    hide Stripes, Round, Read64, Sanity, Message;
    Words0();
    NoStripe(Start(0), Message(222));
    RoundIs(6983438078262162902, 2640009570739704320, 2007830106656883948, 9929224, 3912106966,
            5192218316733210731, 7069633883026219576);
    RoundIs(14029467366897019727, 10644517266675138605, 8095569984191783913, 1379472488, 4265822258,
            5661675577820833008, 14385599071495377624);
    RoundIs(0, 3084357347933413347, 2345773898514280743, 1942307492, 3599202317,
            4776925672801264962, 10032750152301120636);
    RoundIs(7046029288634856825, 15379610570380315475, 11696792873071244346, 1878586766, 21259542,
            28216045440231942, 11910530268515371490);
    NextStripes(0, 0, Lanes(6983438078262162902, 14029467366897019727, 0, 7046029288634856825),
                Lanes(7069633883026219576, 14385599071495377624, 10032750152301120636, 11910530268515371490),
                2640009570739704320, 10644517266675138605, 3084357347933413347, 15379610570380315475);
  }

  lemma ZeroStripe1()
    ensures Stripes(Start(0), Message(222), 2)
         == Lanes(279451242779712611, 2782777690120809140, 8790634575470521953, 8152586709699986290)
  {
    hide Stripes, Round, Read64, Sanity, Message, Start;
    Words1();
    ZeroStripe0();
    RoundIs(7069633883026219576, 3727157020097232985, 2834648086177952611, 1059572293, 4614385839,
            6124295394908605769, 279451242779712611);
    RoundIs(14385599071495377624, 2851629272449461021, 2168775132373418389, 1667164332, 7495499723,
            9948161258639318471, 2782777690120809140);
    RoundIs(10032750152301120636, 8547687402607767728, 6500849201254581573, 1924346327, 2939675340,
            3901589676071143214, 8790634575470521953);
    RoundIs(11910530268515371490, 16724003399295696968, 12719255983427923840, 1944208254, 7742011418,
            10275335988231382203, 8152586709699986290);
    NextStripes(0, 1, Lanes(7069633883026219576, 14385599071495377624, 10032750152301120636, 11910530268515371490),
                Lanes(279451242779712611, 2782777690120809140, 8790634575470521953, 8152586709699986290),
                3727157020097232985, 2851629272449461021, 8547687402607767728, 16724003399295696968);
  }

  lemma ZeroStripe2()
    ensures Stripes(Start(0), Message(222), 3)
         == Lanes(5136842186988731949, 12294633378682539502, 882191967480038276, 15181840755376274100)
  {
    hide Stripes, Round, Read64, Sanity, Message, Start;
    Words2();
    ZeroStripe1();
    RoundIs(279451242779712611, 7336587045594089693, 5579760207507627130, 547084971, 434927510,
            577243568445221287, 5136842186988731949);
    RoundIs(2782777690120809140, 16747954703755816255, 12737471883370763225, 36509730, 719369765,
            954760415009808978, 12294633378682539502);
    RoundIs(8790634575470521953, 6222111049440669837, 4732157803704112579, 1853025628, 2258295012,
            2997249521106284843, 882191967480038276);
    RoundIs(8152586709699986290, 12375156286357933676, 9411788366877669056, 508336300, 7292328646,
            9678508971675138708, 15181840755376274100);
    NextStripes(0, 2, Lanes(279451242779712611, 2782777690120809140, 8790634575470521953, 8152586709699986290),
                Lanes(5136842186988731949, 12294633378682539502, 882191967480038276, 15181840755376274100),
                7336587045594089693, 16747954703755816255, 6222111049440669837, 12375156286357933676);
  }

  lemma ZeroStripe3()
    ensures Stripes(Start(0), Message(222), 4)
         == Lanes(1177772320942630419, 15018068247919161449, 14951586900713689623, 17625060754262440973)
  {
    hide Stripes, Round, Read64, Sanity, Message, Start;
    Words3();
    ZeroStripe2();
    RoundIs(5136842186988731949, 15649852480130593437, 11902322371331748587, 1205989141, 5330631584,
            7074909554782484339, 1177772320942630419);
    RoundIs(12294633378682539502, 16848118810213195130, 12813650587713551190, 1109981583, 7735026836,
            10266065925595756397, 15018068247919161449);
    RoundIs(882191967480038276, 5893540017610299998, 4482266736188213997, 2134200305, 3172479110,
            4210571002453542807, 14951586900713689623);
    RoundIs(15181840755376274100, 10808900114150755311, 8220589542392496144, 743736779, 4769566325,
            6330253710477878326, 17625060754262440973);
    NextStripes(0, 3, Lanes(5136842186988731949, 12294633378682539502, 882191967480038276, 15181840755376274100),
                Lanes(1177772320942630419, 15018068247919161449, 14951586900713689623, 17625060754262440973),
                15649852480130593437, 16848118810213195130, 5893540017610299998, 10808900114150755311);
  }

  lemma ZeroStripe4()
    ensures Stripes(Start(0), Message(222), 5)
         == Lanes(4738774576061027994, 4412252865135288379, 5440683969109590838, 12584132624906838526)
  {
    hide Stripes, Round, Read64, Sanity, Message, Start;
    Words4();
    ZeroStripe3();
    RoundIs(1177772320942630419, 10537245619465565427, 8013985718268949130, 949066006, 5326835216,
            7069870947132146090, 4738774576061027994);
    RoundIs(15018068247919161449, 14933353257511397793, 11357396804956627368, 927786413, 7693898776,
            10211480028850119117, 4412252865135288379);
    RoundIs(14951586900713689623, 11682816793847663089, 8885237216269462232, 472343194, 2793512566,
            3707599828019244419, 5440683969109590838);
    RoundIs(17625060754262440973, 15080356012655964907, 11469198125986714416, 529520530, 7836691346,
            10400996880747874627, 12584132624906838526);
    NextStripes(0, 4, Lanes(1177772320942630419, 15018068247919161449, 14951586900713689623, 17625060754262440973),
                Lanes(4738774576061027994, 4412252865135288379, 5440683969109590838, 12584132624906838526),
                10537245619465565427, 14933353257511397793, 11682816793847663089, 15080356012655964907);
  }

  lemma ZeroStripe5()
    ensures Stripes(Start(0), Message(222), 6)
         == Lanes(4564022589846573756, 3422793928921071255, 11728731934967217960, 3045736568910386696)
  {
    hide Stripes, Round, Read64, Sanity, Message, Start;
    Words5();
    ZeroStripe4();
    RoundIs(4738774576061027994, 5402328267543023691, 4108681067613402326, 307960420, 7720072895,
            10246218787217026589, 4564022589846573756);
    RoundIs(4412252865135288379, 1036574090832656565, 788354970535635506, 1073389425, 392578838,
            521037654065588719, 3422793928921071255);
    RoundIs(5440683969109590838, 10990721809885953471, 8358872023936019591, 1403308440, 2397447719,
            3181935481715119267, 11728731934967217960);
    RoundIs(12584132624906838526, 9756489313772432154, 7420190137409124705, 2001441720, 2735688964,
            3630855310459839111, 3045736568910386696);
    NextStripes(0, 5, Lanes(4738774576061027994, 4412252865135288379, 5440683969109590838, 12584132624906838526),
                Lanes(4564022589846573756, 3422793928921071255, 11728731934967217960, 3045736568910386696),
                5402328267543023691, 1036574090832656565, 10990721809885953471, 9756489313772432154);
  }

  lemma SeededStripe0()
    ensures Stripes(Start(2654435761), Message(222), 1)
         == Lanes(5907963751228236344, 13223928939697394392, 8871080020503137404, 10748860136717388258)
  {
    hide Stripes, Round, Read64, Sanity, Message;
    Words0();
    NoStripe(Start(2654435761), Message(222));
    RoundIs(6983438080916598663, 2640009570739704320, 2007830106656883948, 9929224, 6566542727,
            8715232922065341636, 5907963751228236344);
    RoundIs(14029467369551455488, 10644517266675138605, 8095569984191783913, 1379472488, 6920258019,
            9184690183152963913, 13223928939697394392);
    RoundIs(2654435761, 3084357347933413347, 2345773898514280743, 1942307492, 6253638078,
            8299940278133395867, 8871080020503137404);
    RoundIs(7046029291289292586, 15379610570380315475, 11696792873071244346, 1878586766, 2675695303,
            3551230650772362847, 10748860136717388258);
    NextStripes(2654435761, 0, Lanes(6983438080916598663, 14029467369551455488, 2654435761, 7046029291289292586),
                Lanes(5907963751228236344, 13223928939697394392, 8871080020503137404, 10748860136717388258),
                2640009570739704320, 10644517266675138605, 3084357347933413347, 15379610570380315475);
  }

  lemma SeededStripe1()
    ensures Stripes(Start(2654435761), Message(222), 2)
         == Lanes(3150411516163226237, 5653737963504322766, 11661594848854035579, 11023546983083499916)
  {
    hide Stripes, Round, Read64, Sanity, Message, Start;
    Words1();
    SeededStripe0();
    RoundIs(5907963751228236344, 3727157020097232985, 2834648086177952611, 924336091, 2466902191,
            3274116698556351502, 3150411516163226237);
    RoundIs(13223928939697394392, 2851629272449461021, 2168775132373418389, 1531928130, 5348016075,
            7097982562287064204, 5653737963504322766);
    RoundIs(8871080020503137404, 8547687402607767728, 6500849201254581573, 1789110125, 792191692,
            1051410979718888947, 11661594848854035579);
    RoundIs(10748860136717388258, 16724003399295696968, 12719255983427923840, 1808972052, 5594527770,
            7425157291879127936, 11023546983083499916);
    NextStripes(2654435761, 1, Lanes(5907963751228236344, 13223928939697394392, 8871080020503137404, 10748860136717388258),
                Lanes(3150411516163226237, 5653737963504322766, 11661594848854035579, 11023546983083499916),
                3727157020097232985, 2851629272449461021, 8547687402607767728, 16724003399295696968);
  }

  lemma SeededStripe2()
    ensures Stripes(Start(2654435761), Message(222), 3)
         == Lanes(4111242463402705721, 11269033655096513274, 4254949626878380176, 7110211743155391047)
  {
    hide Stripes, Round, Read64, Sanity, Message, Start;
    Words2();
    SeededStripe1();
    RoundIs(3150411516163226237, 7336587045594089693, 5579760207507627130, 881308735, 1966396848,
            2609837057883459158, 4111242463402705721);
    RoundIs(5653737963504322766, 16747954703755816255, 12737471883370763225, 370733494, 2250839103,
            2987353904448046849, 11269033655096513274);
    RoundIs(11661594848854035579, 6222111049440669837, 4732157803704112580, 39765744, 3789764350,
            5029843009217304833, 4254949626878380176);
    RoundIs(11023546983083499916, 12375156286357933676, 9411788366877669056, 842560065, 233863392,
            310387676038681789, 7110211743155391047);
    NextStripes(2654435761, 2, Lanes(3150411516163226237, 5653737963504322766, 11661594848854035579, 11023546983083499916),
                Lanes(4111242463402705721, 11269033655096513274, 4254949626878380176, 7110211743155391047),
                7336587045594089693, 16747954703755816255, 6222111049440669837, 12375156286357933676);
  }

  lemma SeededStripe3()
    ensures Stripes(Start(2654435761), Message(222), 4)
         == Lanes(1195495330035032005, 7989761968376706210, 13637092094982636635, 5355577264650208814)
  {
    hide Stripes, Round, Read64, Sanity, Message, Start;
    Words3();
    SeededStripe2();
    RoundIs(4111242463402705721, 15649852480130593437, 11902322371331748587, 1086593619, 6302302380,
            8364528409373716379, 1195495330035032005);
    RoundIs(11269033655096513274, 16848118810213195130, 12813650587713551190, 990586062, 116763040,
            154969995112293647, 7989761968376706210);
    RoundIs(4254949626878380176, 5893540017610299998, 4482266736188213998, 379357325, 6291633554,
            8350368552302686432, 13637092094982636635);
    RoundIs(7110211743155391047, 10808900114150755311, 8220589542392496143, 1951559138, 3693092360,
            4901538216702054964, 5355577264650208814);
    NextStripes(2654435761, 3, Lanes(4111242463402705721, 11269033655096513274, 4254949626878380176, 7110211743155391047),
                Lanes(1195495330035032005, 7989761968376706210, 13637092094982636635, 5355577264650208814),
                15649852480130593437, 16848118810213195130, 5893540017610299998, 10808900114150755311);
  }

  lemma SeededStripe4()
    ensures Stripes(Start(2654435761), Message(222), 5)
         == Lanes(11636627519838003724, 3421256693191998492, 4034101987117734398, 5385105517586912179)
  {
    hide Stripes, Round, Read64, Sanity, Message, Start;
    Words4();
    SeededStripe3();
    RoundIs(1195495330035032005, 10537245619465565427, 8013985718268949130, 951129236, 3670984642,
            4872196457451320988, 11636627519838003724);
    RoundIs(7989761968376706210, 14933353257511397793, 11357396804956627368, 109583876, 3989903441,
            5295471189475020732, 3421256693191998492);
    RoundIs(13637092094982636635, 11682816793847663089, 8885237216269462232, 319315858, 4090466490,
            5428940266381343600, 4034101987117734398);
    RoundIs(5355577264650208814, 15080356012655964907, 11469198125986714415, 1248648309, 7033779635,
            9335358101680258245, 5385105517586912179);
    NextStripes(2654435761, 4, Lanes(1195495330035032005, 7989761968376706210, 13637092094982636635, 5355577264650208814),
                Lanes(11636627519838003724, 3421256693191998492, 4034101987117734398, 5385105517586912179),
                10537245619465565427, 14933353257511397793, 11682816793847663089, 15080356012655964907);
  }

  lemma SeededStripe5()
    ensures Stripes(Start(2654435761), Message(222), 6)
         == Lanes(3841399003539580089, 12763845839038129378, 10135480934899357734, 9466675943331329914)
  {
    hide Stripes, Round, Read64, Sanity, Message, Start;
    Words5();
    SeededStripe4();
    RoundIs(11636627519838003724, 5402328267543023691, 4108681067613402326, 1110976191, 2262598193,
            3002960779415026501, 3841399003539580089);
    RoundIs(3421256693191998492, 1036574090832656565, 788354970535635506, 958022286, 6525461239,
            8660708837209403725, 12763845839038129378);
    RoundIs(4034101987117734398, 10990721809885953471, 8358872023936019591, 1239560746, 1456422127,
            1932989489657280918, 10135480934899357734);
    RoundIs(5385105517586912179, 9756489313772432154, 7420190137409124705, 1163364662, 6691552953,
            8881148730003448177, 9466675943331329914);
    NextStripes(2654435761, 5, Lanes(11636627519838003724, 3421256693191998492, 4034101987117734398, 5385105517586912179),
                Lanes(3841399003539580089, 12763845839038129378, 10135480934899357734, 9466675943331329914),
                5402328267543023691, 1036574090832656565, 10990721809885953471, 9756489313772432154);
  }

  // From the last lane or byte to the hash

  lemma EmptyAvalanche()
    ensures Avalanche(2870177450012600261) == 17241709254077376921
  {
    hide Stripes, Start, Converge, Tail, Step8, Step4, Step1, Round, MergeRound, Avalanche, Xor, Rotl64, Read64, Read32, Sanity;
    XorWord(0x27, 0xd4, 0xeb, 0x2f, 0x16, 0x56, 0x67, 0xc5, 0x00, 0x00, 0x00, 0x00, 0x13, 0xea, 0x75, 0x97);
    XorWord(0xbe, 0xb1, 0x3d, 0xda, 0x13, 0xc2, 0xed, 0x4e, 0x00, 0x00, 0x00, 0x05, 0xf5, 0x89, 0xee, 0xd0);
    XorWord(0xef, 0x46, 0xdb, 0x37, 0xbe, 0x9e, 0x32, 0xae, 0x00, 0x00, 0x00, 0x00, 0xef, 0x46, 0xdb, 0x37);
    AvalancheIs(2870177450012600261, 334132631, 4669728709, 2870177449734050386, 2182881743648002948, 13740831944927800654,
                25594293968, 331541838, 13740831969934771102, 1198969161725600792, 17241709255902245550, 4014398263, 3198038702, 17241709254077376921);
  }

  /** The hash of the empty message. */
  lemma Empty()
    ensures Hash(Message(0), 0) == 0xef46db3751d8e999
  {
    hide Stripes, Start, Converge, Tail, Step8, Step4, Step1, Round, MergeRound, Avalanche, Xor, Rotl64, Read64, Read32, Sanity;
    TailNone(2870177450012600261, 2654435761);
    EmptyAvalanche();
    ShortHash(Message(0), 0, 0, 2870177450012600261);
  }

  lemma SeededEmptyAvalanche()
    ensures Avalanche(2870177452667036022) == 12427117621484918767
  {
    hide Stripes, Start, Converge, Tail, Step8, Step4, Step1, Round, MergeRound, Avalanche, Xor, Rotl64, Read64, Read32, Sanity;
    XorWord(0x27, 0xd4, 0xeb, 0x2f, 0xb4, 0x8d, 0xe1, 0x76, 0x00, 0x00, 0x00, 0x00, 0x13, 0xea, 0x75, 0x97);
    XorWord(0x15, 0xe2, 0x23, 0x73, 0x4f, 0xf5, 0x7c, 0x6f, 0x00, 0x00, 0x00, 0x00, 0xaf, 0x11, 0x1b, 0x9a);
    XorWord(0xac, 0x75, 0xfd, 0xa2, 0x3e, 0xee, 0xea, 0x4d, 0x00, 0x00, 0x00, 0x00, 0xac, 0x75, 0xfd, 0xa2);
    AvalancheIs(2870177452667036022, 334132631, 7324164470, 2870177452446422241, 2182881745710867391, 1576861797702794351,
                2937133978, 267746415, 1576861800134371317, 137590553090301992, 12427117620081125965, 2893413794, 1055844941, 12427117621484918767);
  }

  /** The hash of the empty message under the seed 2654435761. */
  lemma SeededEmpty()
    ensures Hash(Message(0), 2654435761) == 0xac75fda2929b17ef
  {
    hide Stripes, Start, Converge, Tail, Step8, Step4, Step1, Round, MergeRound, Avalanche, Xor, Rotl64, Read64, Read32, Sanity;
    TailNone(2870177452667036022, 2654435761);
    SeededEmptyAvalanche();
    ShortHash(Message(0), 2654435761, 0, 2870177452667036022);
  }

  lemma OneByteTail0()
    ensures Tail(2870177450012600262, Sanity(2654435761, 1)) == Tail(12118583197341639602, Sanity(5956952469040705661, 0))
  {
    hide Stripes, Start, Converge, Tail, Step8, Step4, Step1, Round, MergeRound, Avalanche, Xor, Rotl64, Read64, Read32, Sanity;
    ByteIs(1, 2654435761, 1640531516, 0, 5956952469040705661);
    XorWord(0x27, 0xd4, 0xeb, 0x2f, 0x16, 0x56, 0x67, 0xc6, 0x00, 0x00, 0x00, 0x00, 0x00, 0x00, 0x00, 0x00);
    TailOne(2870177450012600262, Sanity(2654435761, 1), 0, 0, 0,
            318, 5888087004964806, 7452749592274759234, 12118583197341639602);
  }

  lemma OneByteAvalanche()
    ensures Avalanche(12118583197341639602) == 16804241149081757544
  {
    hide Stripes, Start, Converge, Tail, Step8, Step4, Step1, Round, MergeRound, Avalanche, Xor, Rotl64, Read64, Read32, Sanity;
    XorWord(0xa8, 0x2d, 0xdb, 0x36, 0x02, 0x90, 0xe3, 0xb2, 0x00, 0x00, 0x00, 0x00, 0x54, 0x16, 0xed, 0x9b);
    XorWord(0x74, 0xa2, 0xd8, 0x22, 0xbb, 0x52, 0x01, 0xa7, 0x00, 0x00, 0x00, 0x03, 0xa5, 0x16, 0xc1, 0x15);
    XorWord(0xe9, 0x34, 0xa8, 0x4a, 0x32, 0x31, 0x8f, 0x22, 0x00, 0x00, 0x00, 0x00, 0xe9, 0x34, 0xa8, 0x4a);
    AvalancheIs(12118583197341639602, 1410788763, 43049906, 12118583198750215721, 9216654540255840167, 8404517498309968295,
                15654633749, 458359207, 8404517491380109490, 733344044479716782, 16804241146249318178, 3912542282, 842108706, 16804241149081757544);
  }

  /** The hash of the first byte. */
  lemma OneByte()
    ensures Hash(Message(1), 0) == 0xe934a84adb052768
  {
    hide Stripes, Start, Converge, Tail, Step8, Step4, Step1, Round, MergeRound, Avalanche, Xor, Rotl64, Read64, Read32, Sanity;
    OneByteTail0();
    TailNone(12118583197341639602, 5956952469040705661);
    OneByteAvalanche();
    ShortHash(Message(1), 0, 0, 2870177450012600262);
  }

  lemma SeededOneByteTail0()
    ensures Tail(2870177452667036023, Sanity(2654435761, 1)) == Tail(212630379277032370, Sanity(5956952469040705661, 0))
  {
    hide Stripes, Start, Converge, Tail, Step8, Step4, Step1, Round, MergeRound, Avalanche, Xor, Rotl64, Read64, Read32, Sanity;
    ByteIs(1, 2654435761, 1640531516, 0, 5956952469040705661);
    XorWord(0x27, 0xd4, 0xeb, 0x2f, 0xb4, 0x8d, 0xe1, 0x77, 0x00, 0x00, 0x00, 0x00, 0x00, 0x00, 0x00, 0x00);
    TailOne(2870177452667036023, Sanity(2654435761, 1), 0, 0, 0,
            318, 5888089659400567, 7452752952083304664, 212630379277032370);
  }

  lemma SeededOneByteAvalanche()
    ensures Avalanche(212630379277032370) == 5770343083626050755
  {
    hide Stripes, Start, Converge, Tail, Step8, Step4, Step1, Round, MergeRound, Avalanche, Xor, Rotl64, Read64, Read32, Sanity;
    XorWord(0x02, 0xf3, 0x6a, 0x34, 0x11, 0x43, 0x9b, 0xb2, 0x00, 0x00, 0x00, 0x00, 0x01, 0x79, 0xb5, 0x1a);
    XorWord(0x67, 0x95, 0x2c, 0x48, 0xa5, 0xe8, 0x9d, 0xd8, 0x00, 0x00, 0x00, 0x03, 0x3c, 0xa9, 0x62, 0x45);
    XorWord(0x50, 0x14, 0x60, 0x76, 0x13, 0xbd, 0xd4, 0xb5, 0x00, 0x00, 0x00, 0x00, 0x50, 0x14, 0x60, 0x76);
    AvalancheIs(212630379277032370, 24753434, 289643442, 212630379259637416, 161713685359008439, 7463920647969218008,
                13902635589, 99130840, 7463920660641873821, 651271387151578831, 5770343082822063285, 1343512694, 331207861, 5770343083626050755);
  }

  /** The hash of the first byte under the seed 2654435761. */
  lemma SeededOneByte()
    ensures Hash(Message(1), 2654435761) == 0x5014607643a9b4c3
  {
    hide Stripes, Start, Converge, Tail, Step8, Step4, Step1, Round, MergeRound, Avalanche, Xor, Rotl64, Read64, Read32, Sanity;
    SeededOneByteTail0();
    TailNone(212630379277032370, 5956952469040705661);
    SeededOneByteAvalanche();
    ShortHash(Message(1), 2654435761, 0, 2870177452667036023);
  }

  lemma FourteenTail0()
    ensures Tail(2870177450012600275, Sanity(2654435761, 14)) == Tail(17576508009812539549, Sanity(3245128801315169233, 6))
  {
    hide Stripes, Start, Converge, Tail, Step8, Step4, Step1, Round, MergeRound, Avalanche, Xor, Rotl64, Read64, Read32, Sanity;
    Word0(14);
    RoundIs(0, 2640009570739704320, 2007830106656883947, 1344433681, 997019136,
            1323261625591551836, 1404812954009629943);
    XorWord(0x27, 0xd4, 0xeb, 0x2f, 0x16, 0x56, 0x67, 0xd3, 0x13, 0x7e, 0xe5, 0xf0, 0x4b, 0x9c, 0x74, 0xf7);
    TailEight(2870177450012600275, Sanity(2654435761, 14), 2640009570739704320, 1404812954009629943,
              27611254, 134717510436, 11174968043913432092, 17576508009812539549);
  }

  lemma FourteenTail1()
    ensures Tail(17576508009812539549, Sanity(3245128801315169233, 6)) == Tail(12884173470358556745, Sanity(1058217781749283425, 2))
  {
    hide Stripes, Start, Converge, Tail, Step8, Step4, Step1, Round, MergeRound, Avalanche, Xor, Rotl64, Read64, Read32, Sanity;
    HalfWordIs(6, 3245128801315169233, 2005599891059023905, 45, 18880375704200221, 11668713870509876, 0,
               12611049607295190521, 7794057267705576428, 175, 10775849349343511589, 6659841135536124888, 149,
               1058217781749283425, 2511274029);
    XorWord(0xf3, 0xec, 0x4c, 0xe9, 0x1c, 0xaf, 0x38, 0x9d, 0x53, 0x0d, 0x2d, 0x44, 0x8f, 0xbb, 0x99, 0xbb);
    TailFour(17576508009812539549, Sanity(3245128801315169233, 6), 2511274029, 1552052700, 5984489252337719739,
             5271728, 1845008572710, 11770902148095505677, 12884173470358556745);
  }

  lemma FourteenTail2()
    ensures Tail(12884173470358556745, Sanity(1058217781749283425, 2)) == Tail(10527275905125250653, Sanity(17037146980474122605, 1))
  {
    hide Stripes, Start, Converge, Tail, Step8, Step4, Step1, Round, MergeRound, Avalanche, Xor, Rotl64, Read64, Read32, Sanity;
    ByteIs(2, 1058217781749283425, 654014554655872195, 14, 17037146980474122605);
    XorWord(0xb2, 0xcd, 0xc7, 0x82, 0x0d, 0x3b, 0xd0, 0x49, 0x2d, 0xa4, 0xdc, 0x93, 0x38, 0xb9, 0xac, 0xc6);
    TailOne(12884173470358556745, Sanity(1058217781749283425, 2), 14, 2, 3288996152757300422,
            1275, 2563035516533903, 3244120184489011336, 10527275905125250653);
  }

  lemma FourteenTail3()
    ensures Tail(10527275905125250653, Sanity(17037146980474122605, 1)) == Tail(7601030732333948478, Sanity(13318304444214442761, 0))
  {
    hide Stripes, Start, Converge, Tail, Step8, Step4, Step1, Round, MergeRound, Avalanche, Xor, Rotl64, Read64, Read32, Sanity;
    ByteIs(1, 17037146980474122605, 10529535873629224439, 236, 13318304444214442761);
    XorWord(0x92, 0x18, 0x65, 0xa8, 0xe9, 0x84, 0xf6, 0x5d, 0xb8, 0x48, 0xcf, 0x68, 0x97, 0xa7, 0xa9, 0x9c);
    TailOne(10527275905125250653, Sanity(17037146980474122605, 1), 236, 36, 13279091549429803420,
            338, 4691343354060737, 5937990936566678856, 7601030732333948478);
  }

  lemma FourteenAvalanche()
    ensures Avalanche(7601030732333948478) == 9404321708846757320
  {
    hide Stripes, Start, Converge, Tail, Step8, Step4, Step1, Round, MergeRound, Avalanche, Xor, Rotl64, Read64, Read32, Sanity;
    XorWord(0x69, 0x7c, 0x49, 0x2d, 0xd7, 0x97, 0x9e, 0x3e, 0x00, 0x00, 0x00, 0x00, 0x34, 0xbe, 0x24, 0x96);
    XorWord(0xd2, 0xc2, 0xd8, 0xb6, 0x93, 0x58, 0xd1, 0xd8, 0x00, 0x00, 0x00, 0x06, 0x96, 0x16, 0xc5, 0xb4);
    XorWord(0x82, 0x82, 0xdc, 0xc4, 0x1b, 0xcc, 0xe9, 0x0c, 0x00, 0x00, 0x00, 0x00, 0x82, 0x82, 0xdc, 0xc4);
    AvalancheIs(7601030732333948478, 884876438, 7912005182, 7601030732528073384, 5780879931476139476, 15186939172114452952,
                28287878580, 324587992, 15186939143961580652, 1325150597464133590, 9404321706741131532, 2189614276, 466413836, 9404321708846757320);
  }

  /** The hash of the first 14 bytes. */
  lemma Fourteen()
    ensures Hash(Message(14), 0) == 0x8282dcc4994e35c8
  {
    hide Stripes, Start, Converge, Tail, Step8, Step4, Step1, Round, MergeRound, Avalanche, Xor, Rotl64, Read64, Read32, Sanity;
    FourteenTail0();
    FourteenTail1();
    FourteenTail2();
    FourteenTail3();
    TailNone(7601030732333948478, 13318304444214442761);
    FourteenAvalanche();
    ShortHash(Message(14), 0, 0, 2870177450012600275);
  }

  lemma SeededFourteenTail0()
    ensures Tail(2870177452667036036, Sanity(2654435761, 14)) == Tail(7279142280398583965, Sanity(3245128801315169233, 6))
  {
    hide Stripes, Start, Converge, Tail, Step8, Step4, Step1, Round, MergeRound, Avalanche, Xor, Rotl64, Read64, Read32, Sanity;
    Word0(14);
    RoundIs(0, 2640009570739704320, 2007830106656883947, 1344433681, 997019136,
            1323261625591551836, 1404812954009629943);
    XorWord(0x27, 0xd4, 0xeb, 0x2f, 0xb4, 0x8d, 0xe1, 0x84, 0x13, 0x7e, 0xe5, 0xf0, 0x4b, 0x9c, 0x74, 0xf7);
    TailEight(2870177452667036036, Sanity(2654435761, 14), 2640009570739704320, 1404812954009629943,
              27611254, 137423328627, 11399418686737501489, 7279142280398583965);
  }

  lemma SeededFourteenTail1()
    ensures Tail(7279142280398583965, Sanity(3245128801315169233, 6)) == Tail(1243497416504981741, Sanity(1058217781749283425, 2))
  {
    hide Stripes, Start, Converge, Tail, Step8, Step4, Step1, Round, MergeRound, Avalanche, Xor, Rotl64, Read64, Read32, Sanity;
    HalfWordIs(6, 3245128801315169233, 2005599891059023905, 45, 18880375704200221, 11668713870509876, 0,
               12611049607295190521, 7794057267705576428, 175, 10775849349343511589, 6659841135536124888, 149,
               1058217781749283425, 2511274029);
    XorWord(0x65, 0x04, 0xb5, 0x56, 0x64, 0xaf, 0x38, 0x9d, 0x53, 0x0d, 0x2d, 0x44, 0x8f, 0xbb, 0x99, 0xbb);
    TailFour(7279142280398583965, Sanity(3245128801315169233, 6), 2511274029, 1552052700, 5984489252337719739,
             1770700, 81253409062, 518385627805139382, 1243497416504981741);
  }

  lemma SeededFourteenTail2()
    ensures Tail(1243497416504981741, Sanity(1058217781749283425, 2)) == Tail(9345474518624480977, Sanity(17037146980474122605, 1))
  {
    hide Stripes, Start, Converge, Tail, Step8, Step4, Step1, Round, MergeRound, Avalanche, Xor, Rotl64, Read64, Read32, Sanity;
    ByteIs(2, 1058217781749283425, 654014554655872195, 14, 17037146980474122605);
    XorWord(0x11, 0x41, 0xca, 0x4f, 0xdd, 0xe5, 0x38, 0xed, 0x2d, 0xa4, 0xdc, 0x93, 0x38, 0xb9, 0xac, 0xc6);
    TailOne(1243497416504981741, Sanity(1058217781749283425, 2), 14, 2, 3288996152757300422,
            487, 1432512880219179, 1813179692314285332, 9345474518624480977);
  }

  lemma SeededFourteenTail3()
    ensures Tail(9345474518624480977, Sanity(17037146980474122605, 1)) == Tail(3145478484987486761, Sanity(13318304444214442761, 0))
  {
    hide Stripes, Start, Converge, Tail, Step8, Step4, Step1, Round, MergeRound, Avalanche, Xor, Rotl64, Read64, Read32, Sanity;
    ByteIs(1, 17037146980474122605, 10529535873629224439, 236, 13318304444214442761);
    XorWord(0x81, 0xb1, 0xcb, 0x8f, 0x6c, 0x13, 0xae, 0xd1, 0xb8, 0x48, 0xcf, 0x68, 0x97, 0xa7, 0xa9, 0x9c);
    TailOne(9345474518624480977, Sanity(17037146980474122605, 1), 236, 36, 13279091549429803420,
            463, 7042268824602445, 8913636307851878752, 3145478484987486761);
  }

  lemma SeededFourteenAvalanche()
    ensures Avalanche(3145478484987486761) == 14104548313339227632
  {
    hide Stripes, Start, Converge, Tail, Step8, Step4, Step1, Round, MergeRound, Avalanche, Xor, Rotl64, Read64, Read32, Sanity;
    XorWord(0x2b, 0xa6, 0xfc, 0x04, 0x42, 0x50, 0x22, 0x29, 0x00, 0x00, 0x00, 0x00, 0x15, 0xd3, 0x7e, 0x02);
    XorWord(0xed, 0xa5, 0x6d, 0xbe, 0x77, 0xc0, 0xea, 0x45, 0x00, 0x00, 0x00, 0x07, 0x6d, 0x2b, 0x6d, 0xf3);
    XorWord(0xc3, 0xbd, 0x6b, 0xf6, 0xfe, 0x56, 0x06, 0x06, 0x00, 0x00, 0x00, 0x00, 0xc3, 0xbd, 0x6b, 0xf6);
    AvalancheIs(3145478484987486761, 366181890, 1112547881, 3145478485343165483, 2392258904176600191, 17124213822966524485,
                31896333811, 398518853, 17124213799934199734, 1494189311814613270, 14104548316567438854, 3283971062, 4267050502, 14104548313339227632);
  }

  /** The hash of the first 14 bytes under the seed 2654435761. */
  lemma SeededFourteen()
    ensures Hash(Message(14), 2654435761) == 0xc3bd6bf63deb6df0
  {
    hide Stripes, Start, Converge, Tail, Step8, Step4, Step1, Round, MergeRound, Avalanche, Xor, Rotl64, Read64, Read32, Sanity;
    SeededFourteenTail0();
    SeededFourteenTail1();
    SeededFourteenTail2();
    SeededFourteenTail3();
    TailNone(3145478484987486761, 13318304444214442761);
    SeededFourteenAvalanche();
    ShortHash(Message(14), 2654435761, 0, 2870177452667036036);
  }

  lemma LongMerge0()
    ensures MergeRound(1231626072500872269, 4564022589846573756) == 257608267023949328
  {
    hide Stripes, Start, Converge, Tail, Step8, Step4, Step1, Round, MergeRound, Avalanche, Xor, Rotl64, Read64, Read32, Sanity;
    RoundIs(0, 4564022589846573756, 3471116947802758791, 1596487402, 5948218372,
            7894581782979527191, 16585688757449611622);
    XorWord(0x11, 0x17, 0x9d, 0x63, 0x33, 0x86, 0x24, 0x4d, 0xe6, 0x2c, 0x34, 0x0c, 0xd6, 0xf9, 0x59, 0x66);
    MergeIs(1231626072500872269, 4564022589846573756, 16585688757449611622, 17815019049050930475,
            11010287249464671711, 257608267023949328);
  }

  lemma LongMerge1()
    ensures MergeRound(257608267023949328, 3422793928921071255) == 14654756157983717159
  {
    hide Stripes, Start, Converge, Tail, Step8, Step4, Step1, Round, MergeRound, Avalanche, Xor, Rotl64, Read64, Read32, Sanity;
    RoundIs(0, 3422793928921071255, 2603168100426452113, 2002679444, 4078955929,
            5413663245044922793, 4502465948107493388);
    XorWord(0x03, 0x93, 0x35, 0x5a, 0x9f, 0x2a, 0x9e, 0x10, 0x3e, 0x7b, 0xf8, 0xec, 0xba, 0x3d, 0x50, 0x0c);
    MergeIs(257608267023949328, 3422793928921071255, 4502465948107493388, 4461041613100535324,
            2757075333841351769, 14654756157983717159);
  }

  lemma LongMerge2()
    ensures MergeRound(14654756157983717159, 11728731934967217960) == 17465857761929218959
  {
    hide Stripes, Start, Converge, Tail, Step8, Step4, Step1, Round, MergeRound, Avalanche, Xor, Rotl64, Read64, Read32, Sanity;
    RoundIs(0, 11728731934967217960, 8920157469481048533, 1001372629, 6135035224,
            8142528449013712891, 6728406534636248915);
    XorWord(0xcb, 0x60, 0x27, 0x14, 0xda, 0x96, 0x77, 0x27, 0x5d, 0x60, 0x1a, 0x18, 0x39, 0x69, 0x1f, 0x53);
    MergeIs(14654756157983717159, 11728731934967217960, 6728406534636248915, 10808706231263258740,
            6680147805265867935, 17465857761929218959);
  }

  lemma LongMerge3()
    ensures MergeRound(17465857761929218959, 3045736568910386696) == 18154468365719939494
  {
    hide Stripes, Start, Converge, Tail, Step8, Step4, Step1, Round, MergeRound, Avalanche, Xor, Rotl64, Read64, Read32, Sanity;
    RoundIs(0, 3045736568910386696, 2316401291791779922, 1089790278, 5321401464,
            7062659174405094560, 2517752167161792490);
    XorWord(0xf2, 0x63, 0x31, 0x18, 0xad, 0x4a, 0x4b, 0x8f, 0x22, 0xf0, 0xda, 0x41, 0xa4, 0x26, 0x07, 0xea);
    MergeIs(17465857761929218959, 3045736568910386696, 2517752167161792490, 15029615149108186213,
            9288812972074967423, 18154468365719939494);
  }

  lemma LongConverge()
    ensures Converge(Lanes(4564022589846573756, 3422793928921071255, 11728731934967217960, 3045736568910386696))
         == 18154468365719939494
  {
    hide Stripes, Start, Converge, Tail, Step8, Step4, Step1, Round, MergeRound, Avalanche, Xor, Rotl64, Read64, Read32, Sanity;
    LongMerge0();
    LongMerge1();
    LongMerge2();
    LongMerge3();
    ConvergeIs(Lanes(4564022589846573756, 3422793928921071255, 11728731934967217960, 3045736568910386696),
               0, 4564022589846573756, 23, 108144603176386199, 2604, 1358505294446376, 43282, 36583412733448, 2,
               1231626072500872269, 257608267023949328, 14654756157983717159, 17465857761929218959, 18154468365719939494);
  }

  lemma LongTail0()
    ensures Tail(18154468365719939716, Sanity(17079432134879263921, 30)) == Tail(2572967201452891664, Sanity(14059909550521403089, 22))
  {
    hide Stripes, Start, Converge, Tail, Step8, Step4, Step1, Round, MergeRound, Avalanche, Xor, Rotl64, Read64, Read32, Sanity;
    Word24(30);
    RoundIs(0, 13133769478792085741, 9988743247631986453, 1690353967, 3278428195,
            4351188522241557555, 3124941502816056777);
    XorWord(0xfb, 0xf1, 0xa0, 0xca, 0xc8, 0xcd, 0xaa, 0x84, 0x2b, 0x5e, 0x05, 0xbd, 0x7b, 0x39, 0xf5, 0xc9);
    TailEight(18154468365719939716, Sanity(17079432134879263921, 30), 13133769478792085741, 3124941502816056777,
              109411627, 101803384653, 8444704527161935501, 2572967201452891664);
  }

  lemma LongTail1()
    ensures Tail(2572967201452891664, Sanity(14059909550521403089, 22)) == Tail(7874561927698082895, Sanity(16204203912168183025, 14))
  {
    hide Stripes, Start, Converge, Tail, Step8, Step4, Step1, Round, MergeRound, Avalanche, Xor, Rotl64, Read64, Read32, Sanity;
    Word25(22);
    RoundIs(0, 9798120476998461635, 7451852258572173485, 746354145, 3315488045,
            4400375017236475050, 4171233335222252455);
    XorWord(0x23, 0xb5, 0x04, 0x09, 0x9d, 0x54, 0x9e, 0x10, 0x39, 0xe3, 0x32, 0x9e, 0x45, 0x30, 0xb3, 0xa7);
    TailEight(2572967201452891664, Sanity(14059909550521403089, 22), 9798120476998461635, 4171233335222252455,
              13808052, 102414691767, 8495413135373946002, 7874561927698082895);
  }

  lemma LongTail2()
    ensures Tail(7874561927698082895, Sanity(16204203912168183025, 14)) == Tail(13251150489503126685, Sanity(6742991821638739729, 6))
  {
    hide Stripes, Start, Converge, Tail, Step8, Step4, Step1, Round, MergeRound, Avalanche, Xor, Rotl64, Read64, Read32, Sanity;
    Word26(14);
    RoundIs(0, 5211813577325977568, 3963787225175165891, 1037572369, 7851865632,
            10421136464768857809, 15821882726255403511);
    XorWord(0x6d, 0x48, 0x10, 0x5a, 0x1e, 0x42, 0x6c, 0x4f, 0xdb, 0x92, 0x9e, 0x82, 0xf8, 0x57, 0xa1, 0xf7);
    TailEight(7874561927698082895, Sanity(16204203912168183025, 14), 5211813577325977568, 15821882726255403511,
              95868022, 106939403704, 8870743047179767718, 13251150489503126685);
  }

  lemma LongTail3()
    ensures Tail(13251150489503126685, Sanity(6742991821638739729, 6)) == Tail(13935986842480162109, Sanity(16412089297064989089, 2))
  {
    hide Stripes, Start, Converge, Tail, Step8, Step4, Step1, Round, MergeRound, Avalanche, Xor, Rotl64, Read64, Read32, Sanity;
    HalfWordIs(6, 6742991821638739729, 4167398119116169368, 93, 4914764805599391325, 3037491687447366782, 68,
               4654802022231616313, 2876825851998706799, 64, 5837756206340786277, 3607931742715783980, 81,
               16412089297064989089, 1363166301);
    XorWord(0xb7, 0xe5, 0x8b, 0x29, 0xa0, 0x13, 0xd4, 0x9d, 0xce, 0x3b, 0x73, 0x17, 0xa1, 0x34, 0x6f, 0x0b);
    TailFour(13251150489503126685, Sanity(6742991821638739729, 6), 1363166301, 842483103, 14860597940765093643,
             3993468, 266307353494, 1699004462996281687, 13935986842480162109);
  }

  lemma LongTail4()
    ensures Tail(13935986842480162109, Sanity(16412089297064989089, 2)) == Tail(10614158690527364131, Sanity(4088849919859769261, 1))
  {
    hide Stripes, Start, Converge, Tail, Step8, Step4, Step1, Round, MergeRound, Avalanche, Xor, Rotl64, Read64, Read32, Sanity;
    ByteIs(2, 16412089297064989089, 10143228981513600217, 227, 4088849919859769261);
    XorWord(0xc1, 0x66, 0x92, 0x32, 0x7c, 0x8c, 0x35, 0x3d, 0x51, 0xcc, 0x8a, 0xc0, 0xce, 0x9e, 0x03, 0xaf);
    TailOne(13935986842480162109, Sanity(16412089297064989089, 2), 227, 35, 5894238573025952687,
            1157, 2842180415796882, 3597443264194451227, 10614158690527364131);
  }

  lemma LongTail5()
    ensures Tail(10614158690527364131, Sanity(4088849919859769261, 1)) == Tail(10949898036823315266, Sanity(464950828752475209, 0))
  {
    hide Stripes, Start, Converge, Tail, Step8, Step4, Step1, Round, MergeRound, Avalanche, Xor, Rotl64, Read64, Read32, Sanity;
    ByteIs(1, 4088849919859769261, 2527048217779200563, 56, 464950828752475209);
    XorWord(0x93, 0x4d, 0x11, 0x17, 0xc2, 0x82, 0x44, 0x23, 0xb6, 0x93, 0x72, 0x4c, 0xe2, 0xe6, 0xb3, 0x18);
    TailOne(10614158690527364131, Sanity(4088849919859769261, 1), 56, 8, 13155984611029201688,
            302, 8553492337981243, 10826442693639512740, 10949898036823315266);
  }

  lemma LongAvalanche()
    ensures Avalanche(10949898036823315266) == 13132969907770737012
  {
    hide Stripes, Start, Converge, Tail, Step8, Step4, Step1, Round, MergeRound, Avalanche, Xor, Rotl64, Read64, Read32, Sanity;
    XorWord(0x97, 0xf5, 0xda, 0x3f, 0xdb, 0x99, 0xd3, 0x42, 0x00, 0x00, 0x00, 0x00, 0x4b, 0xfa, 0xed, 0x1f);
    XorWord(0xb2, 0x8c, 0x76, 0x01, 0x78, 0xe3, 0x9d, 0xb3, 0x00, 0x00, 0x00, 0x05, 0x94, 0x63, 0xb0, 0x0b);
    XorWord(0xb6, 0x41, 0xae, 0x8c, 0x00, 0xd0, 0x6f, 0xf8, 0x00, 0x00, 0x00, 0x00, 0xb6, 0x41, 0xae, 0x8c);
    AvalancheIs(10949898036823315266, 1274735903, 7979258690, 10949898035561447005, 8327823953480296210, 12865787984185892275,
                23964397579, 417570227, 12865787999010434488, 1122616380570299810, 13132969904721391608, 3057757836, 13660152, 13132969907770737012);
  }

  /** The hash of the first 222 bytes. */
  lemma Long()
    ensures Hash(Message(222), 0) == 0xb641ae8cb691c174
  {
    hide Stripes, Start, Converge, Tail, Step8, Step4, Step1, Round, MergeRound, Avalanche, Xor, Rotl64, Read64, Read32, Sanity;
    ZeroStripe5();
    Words5();
    LongConverge();
    LongTail0();
    LongTail1();
    LongTail2();
    LongTail3();
    LongTail4();
    LongTail5();
    TailNone(10949898036823315266, 464950828752475209);
    LongAvalanche();
    LongHash(0, Lanes(4564022589846573756, 3422793928921071255, 11728731934967217960, 3045736568910386696), 18154468365719939494, 18154468365719939716);
  }

  lemma SeededLongMerge0()
    ensures MergeRound(1268838847257981205, 3841399003539580089) == 14568893691370901291
  {
    hide Stripes, Start, Converge, Tail, Step8, Step4, Step1, Round, MergeRound, Avalanche, Xor, Rotl64, Read64, Read32, Sanity;
    RoundIs(0, 3841399003539580089, 2921533564299712674, 810534635, 1756440599,
            2331179369989290998, 15818386093075616749);
    XorWord(0x11, 0x9b, 0xd2, 0x35, 0x80, 0x07, 0x31, 0x15, 0xdb, 0x86, 0x32, 0x57, 0x9d, 0xc0, 0x53, 0xed);
    MergeIs(1268838847257981205, 3841399003539580089, 15818386093075616749, 14564043481997075192,
            9001073858465736635, 14568893691370901291);
  }

  lemma SeededLongMerge1()
    ensures MergeRound(14568893691370901291, 12763845839038129378) == 9599840913036293543
  {
    hide Stripes, Start, Converge, Tail, Step8, Step4, Step1, Round, MergeRound, Avalanche, Xor, Rotl64, Read64, Read32, Sanity;
    RoundIs(0, 12763845839038129378, 9707401911110248194, 1504403537, 227006398,
            301286951402648785, 7527724884084569271);
    XorWord(0xca, 0x2f, 0x1b, 0x9f, 0x7c, 0x97, 0x8f, 0x2b, 0x68, 0x77, 0xd9, 0xe6, 0x02, 0xba, 0xb4, 0xb7);
    MergeIs(14568893691370901291, 12763845839038129378, 7527724884084569271, 11698313859158588316,
            7229955554304691737, 9599840913036293543);
  }

  lemma SeededLongMerge2()
    ensures MergeRound(9599840913036293543, 10135480934899357734) == 13778515216178640931
  {
    hide Stripes, Start, Converge, Tail, Step8, Step4, Step1, Round, MergeRound, Avalanche, Xor, Rotl64, Read64, Read32, Sanity;
    RoundIs(0, 10135480934899357734, 7708428026961975654, 1118108065, 8041977274,
            10673456035421972857, 13841960476248092135);
    XorWord(0x85, 0x39, 0x7c, 0x72, 0xc1, 0xca, 0x35, 0xa7, 0xc0, 0x18, 0x85, 0xb7, 0x1d, 0xc3, 0xad, 0xe7);
    MergeIs(9599840913036293543, 10135480934899357734, 13841960476248092135, 4981537291043969088,
            3078759352841452666, 13778515216178640931);
  }

  lemma SeededLongMerge3()
    ensures MergeRound(13778515216178640931, 9466675943331329914) == 4444217025573330153
  {
    hide Stripes, Start, Converge, Tail, Step8, Step4, Step1, Round, MergeRound, Avalanche, Xor, Rotl64, Read64, Read32, Sanity;
    RoundIs(0, 9466675943331329914, 7199775780986807692, 34745615, 5254569126,
            6973958099746340520, 1130829977779476713);
    XorWord(0xbf, 0x37, 0x1e, 0x96, 0x60, 0xa4, 0x78, 0x23, 0x0f, 0xb1, 0x83, 0xdf, 0x96, 0xe8, 0x98, 0xe9);
    MergeIs(13778515216178640931, 9466675943331329914, 1130829977779476713, 12720027138544951498,
            7861409085825653184, 4444217025573330153);
  }

  lemma SeededLongConverge()
    ensures Converge(Lanes(3841399003539580089, 12763845839038129378, 10135480934899357734, 9466675943331329914))
         == 4444217025573330153
  {
    hide Stripes, Start, Converge, Tail, Step8, Step4, Step1, Round, MergeRound, Avalanche, Xor, Rotl64, Read64, Read32, Sanity;
    SeededLongMerge0();
    SeededLongMerge1();
    SeededLongMerge2();
    SeededLongMerge3();
    ConvergeIs(Lanes(3841399003539580089, 12763845839038129378, 10135480934899357734, 9466675943331329914),
               0, 3841399003539580089, 88, 81709288362812642, 2250, 2381773315741734, 134529, 39157854369658, 2,
               1268838847257981205, 14568893691370901291, 9599840913036293543, 13778515216178640931, 4444217025573330153);
  }

  lemma SeededLongTail0()
    ensures Tail(4444217025573330375, Sanity(17079432134879263921, 30)) == Tail(5988236168824872552, Sanity(14059909550521403089, 22))
  {
    hide Stripes, Start, Converge, Tail, Step8, Step4, Step1, Round, MergeRound, Avalanche, Xor, Rotl64, Read64, Read32, Sanity;
    Word24(30);
    RoundIs(0, 13133769478792085741, 9988743247631986453, 1690353967, 3278428195,
            4351188522241557555, 3124941502816056777);
    XorWord(0x3d, 0xad, 0x07, 0xd6, 0x9a, 0x0a, 0x9d, 0xc7, 0x2b, 0x5e, 0x05, 0xbd, 0x7b, 0x39, 0xf5, 0xc9);
    TailEight(4444217025573330375, Sanity(17079432134879263921, 30), 13133769478792085741, 3124941502816056777,
              12032019, 51022882830, 4232405151256074956, 5988236168824872552);
  }

  lemma SeededLongTail1()
    ensures Tail(5988236168824872552, Sanity(14059909550521403089, 22)) == Tail(2518885015175581127, Sanity(16204203912168183025, 14))
  {
    hide Stripes, Start, Converge, Tail, Step8, Step4, Step1, Round, MergeRound, Avalanche, Xor, Rotl64, Read64, Read32, Sanity;
    Word25(22);
    RoundIs(0, 9798120476998461635, 7451852258572173485, 746354145, 3315488045,
            4400375017236475050, 4171233335222252455);
    XorWord(0x53, 0x1a, 0x7d, 0x11, 0x89, 0xf3, 0xde, 0x68, 0x39, 0xe3, 0x32, 0x9e, 0x45, 0x30, 0xb3, 0xa7);
    TailEight(5988236168824872552, Sanity(14059909550521403089, 22), 9798120476998461635, 4171233335222252455,
              56085116, 67859869135, 5629051981416650368, 2518885015175581127);
  }

  lemma SeededLongTail2()
    ensures Tail(2518885015175581127, Sanity(16204203912168183025, 14)) == Tail(2599560502760075763, Sanity(6742991821638739729, 6))
  {
    hide Stripes, Start, Converge, Tail, Step8, Step4, Step1, Round, MergeRound, Avalanche, Xor, Rotl64, Read64, Read32, Sanity;
    Word26(14);
    RoundIs(0, 5211813577325977568, 3963787225175165891, 1037572369, 7851865632,
            10421136464768857809, 15821882726255403511);
    XorWord(0x22, 0xf4, 0xe0, 0x93, 0x5f, 0x98, 0x4d, 0xc7, 0xdb, 0x92, 0x9e, 0x82, 0xf8, 0x57, 0xa1, 0xf7);
    TailEight(2518885015175581127, Sanity(16204203912168183025, 14), 5211813577325977568, 15821882726255403511,
              130757616, 75829865520, 6290172088448864927, 2599560502760075763);
  }

  lemma SeededLongTail3()
    ensures Tail(2599560502760075763, Sanity(6742991821638739729, 6)) == Tail(2492789844526377427, Sanity(16412089297064989089, 2))
  {
    hide Stripes, Start, Converge, Tail, Step8, Step4, Step1, Round, MergeRound, Avalanche, Xor, Rotl64, Read64, Read32, Sanity;
    HalfWordIs(6, 6742991821638739729, 4167398119116169368, 93, 4914764805599391325, 3037491687447366782, 68,
               4654802022231616313, 2876825851998706799, 64, 5837756206340786277, 3607931742715783980, 81,
               16412089297064989089, 1363166301);
    XorWord(0x24, 0x13, 0x7e, 0x81, 0x13, 0x26, 0x71, 0xf3, 0xce, 0x3b, 0x73, 0x17, 0xa1, 0x34, 0x6f, 0x0b);
    TailFour(2599560502760075763, Sanity(6742991821638739729, 6), 1363166301, 842483103, 14860597940765093643,
             7672838, 1746744254200, 11143989246478033635, 2492789844526377427);
  }

  lemma SeededLongTail4()
    ensures Tail(2492789844526377427, Sanity(16412089297064989089, 2)) == Tail(17538845168201009718, Sanity(4088849919859769261, 1))
  {
    hide Stripes, Start, Converge, Tail, Step8, Step4, Step1, Round, MergeRound, Avalanche, Xor, Rotl64, Read64, Read32, Sanity;
    ByteIs(2, 16412089297064989089, 10143228981513600217, 227, 4088849919859769261);
    XorWord(0x22, 0x98, 0x2b, 0x27, 0xfe, 0xb2, 0x29, 0xd3, 0x51, 0xcc, 0x8a, 0xc0, 0xce, 0x9e, 0x03, 0xaf);
    TailOne(2492789844526377427, Sanity(16412089297064989089, 2), 227, 35, 5894238573025952687,
            922, 5807513851931260, 7350765444806707554, 17538845168201009718);
  }

  lemma SeededLongTail5()
    ensures Tail(17538845168201009718, Sanity(4088849919859769261, 1)) == Tail(9595228988959706313, Sanity(464950828752475209, 0))
  {
    hide Stripes, Start, Converge, Tail, Step8, Step4, Step1, Round, MergeRound, Avalanche, Xor, Rotl64, Read64, Read32, Sanity;
    ByteIs(1, 4088849919859769261, 2527048217779200563, 56, 464950828752475209);
    XorWord(0xf3, 0x66, 0x7e, 0xc1, 0x75, 0x32, 0x8a, 0x36, 0xb6, 0x93, 0x72, 0x4c, 0xe2, 0xe6, 0xb3, 0x18);
    TailOne(17538845168201009718, Sanity(4088849919859769261, 1), 56, 8, 13155984611029201688,
            559, 5924776788113710, 7499189083772266221, 9595228988959706313);
  }

  lemma SeededLongAvalanche()
    ensures Avalanche(9595228988959706313) == 2363134950989939018
  {
    hide Stripes, Start, Converge, Tail, Step8, Step4, Step1, Round, MergeRound, Avalanche, Xor, Rotl64, Read64, Read32, Sanity;
    XorWord(0x85, 0x29, 0x19, 0xed, 0x81, 0x79, 0x4c, 0xc9, 0x00, 0x00, 0x00, 0x00, 0x42, 0x94, 0x8c, 0xf6);
    XorWord(0x36, 0x5b, 0x5d, 0x6a, 0x83, 0x04, 0x28, 0x71, 0x00, 0x00, 0x00, 0x01, 0xb2, 0xda, 0xeb, 0x54);
    XorWord(0x20, 0xcb, 0x8a, 0xb7, 0x8e, 0xdb, 0x4b, 0xfd, 0x00, 0x00, 0x00, 0x00, 0x20, 0xcb, 0x8a, 0xb7);
    AvalancheIs(9595228988959706313, 1117031670, 6467177673, 9595228990074634303, 7297545380163433269, 3916827012974782577,
                7295658836, 50604145, 3916827015908344613, 341766409353021688, 2363134950466341885, 550210231, 2396736509, 2363134950989939018);
  }

  /** The hash of the first 222 bytes under the seed 2654435761. */
  lemma SeededLong()
    ensures Hash(Message(222), 2654435761) == 0x20cb8ab7ae10c14a
  {
    hide Stripes, Start, Converge, Tail, Step8, Step4, Step1, Round, MergeRound, Avalanche, Xor, Rotl64, Read64, Read32, Sanity;
    SeededStripe5();
    Words5();
    SeededLongConverge();
    SeededLongTail0();
    SeededLongTail1();
    SeededLongTail2();
    SeededLongTail3();
    SeededLongTail4();
    SeededLongTail5();
    TailNone(9595228988959706313, 464950828752475209);
    SeededLongAvalanche();
    LongHash(2654435761, Lanes(3841399003539580089, 12763845839038129378, 10135480934899357734, 9466675943331329914), 4444217025573330153, 4444217025573330375);
  }

}
