/** XXH64 in one pass and as a stream over a buffer of 32 bytes. */
module Xxh64 {
  import opened Powers
  import opened Words
  import opened Bits
  import opened Limbs

  const PRIME64_1: u64 := 11400714785074694791
  const PRIME64_2: u64 := 14029467366897019727
  const PRIME64_3: u64 := 1609587929392839161
  const PRIME64_4: u64 := 9650029242287828579
  const PRIME64_5: u64 := 2870177450012600261

  // Words

  /** The low 64 bits. */
  function Wrap(x: int): u64 {
    x % TWO_64
  }

  function Rotl64(x: u64, r: nat): u64
    requires 0 < r < 64
  {
    Wrap(Or(Wrap(x * Pow2(r)), Shr(x, 64 - r)))
  }

  /** The bits that fall out at the top come back at the bottom. */
  lemma RotlLaw(x: u64, r: nat)
    requires 0 < r < 64
    ensures Rotl64(x, r) == x * Pow2(r) % TWO_64 + x / Pow2(64 - r)
  {
    hide Or, Pow2;
    WordPowers();
    ShiftOut(x, r, 64);
    Pow2Add(r, 64 - r);
    assert r + (64 - r) == 64;
    TopBits(x, Pow2(64 - r), Pow2(r));
    OrCommutes(x % Pow2(64 - r) * Pow2(r), x / Pow2(64 - r));
    OrDisjoint(x / Pow2(64 - r), x % Pow2(64 - r), r);
    RotlFits(x / Pow2(64 - r), x % Pow2(64 - r), Pow2(r), Pow2(64 - r));
  }

  lemma TopBits(x: u64, p: nat, q: nat)
    requires p > 0 && p * q == TWO_64
    ensures x / p < q
  {
    DivMod(x, p);
    if x / p >= q {
      MulMonotone(p, q, x / p);
    }
  }

  lemma RotlFits(h: nat, m: nat, q: nat, p: nat)
    requires h < q && m < p && q * p == TWO_64
    ensures h + m * q < TWO_64
  {
    MulMonotone(q, m + 1, p);
    assert q * (m + 1) == m * q + q;
  }

  lemma {:induction false} OrCommutes(a: nat, b: nat)
    ensures Or(a, b) == Or(b, a)
  {
    if a > 0 && b > 0 {
      OrCommutes(a / 2, b / 2);
    }
  }

  function Xor64(a: u64, b: u64): u64 {
    Wrap(Xor(a, b))
  }

  function Read64(b: seq<u8>): u64
    requires |b| == 8
  {
    WordBound(b);
    Val(256, b)
  }

  function Read32(b: seq<u8>): u32
    requires |b| == 4
  {
    FourPowers();
    ValBound(256, b);
    Val(256, b)
  }

  function Round(acc: u64, input: u64): u64 {
    Wrap(Rotl64(Wrap(acc + input * PRIME64_2), 31) * PRIME64_1)
  }

  function MergeRound(acc: u64, val: u64): u64 {
    Wrap(Xor64(acc, Round(0, val)) * PRIME64_1 + PRIME64_4)
  }

  function Avalanche(h: u64): u64 {
    var a: u64 := Wrap(Xor64(h, Wrap(Shr(h, 33))) * PRIME64_2);
    var b: u64 := Wrap(Xor64(a, Wrap(Shr(a, 29))) * PRIME64_3);
    Xor64(b, Wrap(Shr(b, 32)))
  }

  // The specification

  datatype Lanes = Lanes(v1: u64, v2: u64, v3: u64, v4: u64)

  function Start(seed: u64): Lanes {
    Lanes(Wrap(seed + PRIME64_1 + PRIME64_2), Wrap(seed + PRIME64_2), Wrap(seed + 0), Wrap(seed - PRIME64_1))
  }

  function Stripe(v: Lanes, b: seq<u8>): Lanes
    requires |b| == 32
  {
    Lanes(Round(v.v1, Read64(b[0..8])), Round(v.v2, Read64(b[8..16])), Round(v.v3, Read64(b[16..24])), Round(v.v4, Read64(b[24..32])))
  }

  /** The lanes after the first n stripes. */
  function Stripes(v: Lanes, m: seq<u8>, n: nat): Lanes
    requires 32 * n <= |m|
  {
    if n == 0 then v else Stripe(Stripes(v, m, n - 1), m[32 * (n - 1)..32 * n])
  }

  function Converge(v: Lanes): u64 {
    var h: u64 := Wrap(Rotl64(v.v1, 1) + Rotl64(v.v2, 7) + Rotl64(v.v3, 12) + Rotl64(v.v4, 18));
    MergeRound(MergeRound(MergeRound(MergeRound(h, v.v1), v.v2), v.v3), v.v4)
  }

  function Step8(h: u64, b: seq<u8>): u64
    requires |b| == 8
  {
    Wrap(Rotl64(Xor64(h, Round(0, Read64(b))), 27) * PRIME64_1 + PRIME64_4)
  }

  function Step4(h: u64, b: seq<u8>): u64
    requires |b| == 4
  {
    Wrap(Rotl64(Xor64(h, Wrap(Read32(b) * PRIME64_1)), 23) * PRIME64_2 + PRIME64_3)
  }

  function Step1(h: u64, b: u8): u64 {
    Wrap(Rotl64(Xor64(h, Wrap(b * PRIME64_5)), 11) * PRIME64_1)
  }

  /** What is left after the stripes: by eights, then a four, then single bytes. */
  function Tail(h: u64, b: seq<u8>): u64
    decreases |b|
  {
    hide Step8, Step4, Step1;
    if |b| >= 8 then Tail(Step8(h, b[..8]), b[8..])
    else if |b| >= 4 then Tail(Step4(h, b[..4]), b[4..])
    else if |b| >= 1 then Tail(Step1(h, b[0]), b[1..])
    else h
  }

  /** The hash of a message. */
  function Hash(m: seq<u8>, seed: u64): u64 {
    var n := |m| / 32;
    var h: u64 := if |m| >= 32 then Converge(Stripes(Start(seed), m, n)) else Wrap(seed + PRIME64_5);
    Avalanche(Tail(Wrap(h + |m|), m[32 * n..]))
  }

  lemma {:induction false} StripesPrefix(v: Lanes, m: seq<u8>, k: seq<u8>, n: nat)
    requires 32 * n <= |m| && 32 * n <= |k| && m[..32 * n] == k[..32 * n]
    ensures Stripes(v, m, n) == Stripes(v, k, n)
  {
    hide Stripe;
    if n > 0 {
      assert m[..32 * (n - 1)] == m[..32 * n][..32 * (n - 1)];
      assert k[..32 * (n - 1)] == k[..32 * n][..32 * (n - 1)];
      StripesPrefix(v, m, k, n - 1);
      assert m[32 * (n - 1)..32 * n] == m[..32 * n][32 * (n - 1)..];
      assert k[32 * (n - 1)..32 * n] == k[..32 * n][32 * (n - 1)..];
    }
  }

  /** Stripes in two parts. */
  lemma {:induction false} StripesSplit(v: Lanes, m: seq<u8>, j: nat, k: seq<u8>, n: nat)
    requires |m| == 32 * j && 32 * n <= |k|
    ensures Stripes(v, m + k, j + n) == Stripes(Stripes(v, m, j), k, n)
  {
    hide Stripe;
    if n == 0 {
      StripesPrefix(v, m + k, m, j);
    } else {
      StripesSplit(v, m, j, k, n - 1);
      assert (m + k)[32 * (j + n - 1)..32 * (j + n)] == k[32 * (n - 1)..32 * n];
    }
  }

  // The tail

  lemma TailStep(h: u64, b: seq<u8>)
    ensures |b| >= 8 ==> Tail(h, b) == Tail(Step8(h, b[..8]), b[8..])
    ensures 4 <= |b| < 8 ==> Tail(h, b) == Tail(Step4(h, b[..4]), b[4..])
    ensures 1 <= |b| < 4 ==> Tail(h, b) == Tail(Step1(h, b[0]), b[1..])
    ensures |b| == 0 ==> Tail(h, b) == h
  {
    hide Step8, Step4, Step1;
  }

  /** The loops for small targets. */
  method FinalizeLoops(h0: u64, ptr: seq<u8>, len0: nat) returns (r: u64)
    requires len0 % 32 <= |ptr|
    ensures r == Avalanche(Tail(h0, ptr[..len0 % 32]))
  {
    hide Tail, Step8, Step4, Step1, Avalanche;
    var h: u64, len, p := h0, len0 % 32, 0;
    ghost var end := len;
    while len >= 8
      invariant 0 <= p <= end && len == end - p && Tail(h, ptr[p..end]) == Tail(h0, ptr[..end])
    {
      ghost var left := ptr[p..end];
      TailStep(h, left);
      assert left[..8] == ptr[p..p + 8] && left[8..] == ptr[p + 8..end];
      h := Step8(h, ptr[p..p + 8]);
      p := p + 8;
      len := len - 8;
    }
    if len >= 4 {
      ghost var left := ptr[p..end];
      TailStep(h, left);
      assert left[..4] == ptr[p..p + 4] && left[4..] == ptr[p + 4..end];
      h := Step4(h, ptr[p..p + 4]);
      p := p + 4;
      len := len - 4;
    }
    while len > 0
      invariant 0 <= p <= end && len == end - p < 4 && Tail(h, ptr[p..end]) == Tail(h0, ptr[..end])
    {
      ghost var left := ptr[p..end];
      TailStep(h, left);
      assert left[1..] == ptr[p + 1..end];
      h := Step1(h, ptr[p]);
      p := p + 1;
      len := len - 1;
    }
    TailStep(h, ptr[p..end]);
    r := Avalanche(h);
  }

  /** Eights, as the cases of the switch with the same remainder modulo 8 fall through. */
  method Eights(h0: u64, ptr: seq<u8>, n: nat) returns (h: u64, p: nat)
    requires n < 32 && n <= |ptr|
    ensures p == n - n % 8 && Tail(h, ptr[p..n]) == Tail(h0, ptr[..n])
  {
    hide Tail, Step8;
    h, p := h0, 0;
    assert ptr[0..n] == ptr[..n];
    if n >= 24 {
      EightsStep(h, ptr, p, n);
      h, p := Step8(h, ptr[p..p + 8]), p + 8;
    }
    if n >= 16 {
      EightsStep(h, ptr, p, n);
      h, p := Step8(h, ptr[p..p + 8]), p + 8;
    }
    if n >= 8 {
      EightsStep(h, ptr, p, n);
      h, p := Step8(h, ptr[p..p + 8]), p + 8;
    }
  }

  lemma EightsStep(h: u64, ptr: seq<u8>, p: nat, n: nat)
    requires p + 8 <= n <= |ptr|
    ensures Tail(h, ptr[p..n]) == Tail(Step8(h, ptr[p..p + 8]), ptr[p + 8..n])
  {
    hide Tail, Step8;
    TailStep(h, ptr[p..n]);
    assert ptr[p..n][..8] == ptr[p..p + 8] && ptr[p..n][8..] == ptr[p + 8..n];
  }

  lemma FewBytes(h: u64, b: seq<u8>)
    ensures |b| == 0 ==> Tail(h, b) == h
    ensures |b| == 1 ==> Tail(h, b) == Step1(h, b[0])
    ensures |b| == 2 ==> Tail(h, b) == Step1(Step1(h, b[0]), b[1])
    ensures |b| == 3 ==> Tail(h, b) == Step1(Step1(Step1(h, b[0]), b[1]), b[2])
  {
    hide Tail, Step1;
    TailStep(h, b);
    if 1 <= |b| < 4 {
      var h1 := Step1(h, b[0]);
      TailStep(h1, b[1..]);
      if |b| > 1 {
        var h2 := Step1(h1, b[1]);
        assert b[1..][1..] == b[2..];
        TailStep(h2, b[2..]);
        if |b| > 2 {
          assert b[2..][1..] == b[3..];
          TailStep(Step1(h2, b[2]), b[3..]);
        }
      }
    }
  }

  /** The switch over all lengths: one, two or three bytes follow a four or not. */
  method FinalizeSwitch(h0: u64, ptr: seq<u8>, len: nat) returns (r: u64)
    requires len % 32 <= |ptr|
    ensures r == Avalanche(Tail(h0, ptr[..len % 32]))
  {
    hide Tail, Step8, Step4, Step1, Avalanche;
    var n := len % 32;
    var h, p := Eights(h0, ptr, n);
    TailStep(h, ptr[p..n]);
    if n % 8 >= 4 {
      assert ptr[p..n][..4] == ptr[p..p + 4] && ptr[p..n][4..] == ptr[p + 4..n];
      h, p := Step4(h, ptr[p..p + 4]), p + 4;
    }
    FewBytes(h, ptr[p..n]);
    match n % 4 {
      case 0 =>
      case 1 => h := Step1(h, ptr[p]);
      case 2 =>
        h := Step1(h, ptr[p]);
        h := Step1(h, ptr[p + 1]);
      case _ =>
        h := Step1(h, ptr[p]);
        h := Step1(h, ptr[p + 1]);
        h := Step1(h, ptr[p + 2]);
    }
    r := Avalanche(h);
  }

  /** One pass over the whole input. */
  method EndianAlign(input: seq<u8>, seed: u64) returns (r: u64)
    requires |input| < TWO_64
    ensures r == Hash(input, seed)
  {
    hide Tail, Stripe, Avalanche, Converge, Start, Wrap;
    var p, h: u64 := 0, 0;
    if |input| >= 32 {
      var limit := |input| - 32;
      var v := Start(seed);
      ghost var n := 0;
      while p <= limit
        invariant p == 32 * n <= |input| && v == Stripes(Start(seed), input, n)
      {
        v := Stripe(v, input[p..p + 32]);
        p := p + 32;
        n := n + 1;
      }
      h := Converge(v);
    } else {
      h := Wrap(seed + PRIME64_5);
    }
    h := Wrap(h + |input|);
    assert p == 32 * (|input| / 32) && input[p..][..|input| % 32] == input[p..];
    r := FinalizeSwitch(h, input[p..], |input|);
  }

  // The stream

  class State {
    var totalLen: u64
    var v: Lanes
    const mem: array<u8>
    var memsize: nat
    ghost var seed: u64
    ghost var data: seq<u8>

    /** All whole stripes are in the lanes; the rest is in the buffer. */
    ghost predicate Valid()
      reads this, mem
    {
      && mem.Length == 32 && totalLen == |data| && memsize == |data| % 32
      && v == Stripes(Start(seed), data, |data| / 32) && data[|data| - memsize..] == mem[..memsize]
    }

    constructor ()
      ensures fresh(mem) && mem.Length == 32
    {
      mem := new u8[32];
    }

    method Reset(newSeed: u64)
      requires mem.Length == 32
      modifies this, mem
      ensures Valid() && data == [] && seed == newSeed
    {
      hide Start, Stripe, Stripes, Wrap;
      for i := 0 to 32
        modifies mem
      {
        mem[i] := 0;
      }
      totalLen, memsize, seed, data := 0, 0, newSeed, [];
      v := Start(newSeed);
      NoStripes(v);
      assert mem[..0] == [];
    }

    method Copy(at: nat, bytes: seq<u8>)
      requires at + |bytes| <= mem.Length
      modifies mem
      ensures mem[..at] == old(mem[..at]) && mem[at..at + |bytes|] == bytes
    {
      for i := 0 to |bytes|
        invariant mem[..at] == old(mem[..at]) && mem[at..at + i] == bytes[..i]
      {
        mem[at + i] := bytes[i];
      }
    }

    method Update(input: seq<u8>)
      requires Valid() && |data| + |input| < TWO_64
      modifies this`totalLen, this`v, this`memsize, this`data, mem
      ensures Valid() && data == old(data) + input
    {
      hide Stripe, Stripes, Start;
      totalLen := totalLen + |input|;
      if memsize + |input| < 32 {
        Keep(input);
        return;
      }
      var p := FillBuffer(input);
      p := WholeStripes(input, p);
      KeepRest(input, p);
    }

    /** Not enough for a stripe: only the buffer grows. */
    method Keep(input: seq<u8>)
      requires mem.Length == 32 && memsize == |data| % 32 && memsize + |input| < 32
      requires v == Stripes(Start(seed), data, |data| / 32) && data[|data| - memsize..] == mem[..memsize]
      modifies this`memsize, this`data, mem
      ensures memsize == |data| % 32 && data == old(data) + input
      ensures v == Stripes(Start(seed), data, |data| / 32) && data[|data| - memsize..] == mem[..memsize]
    {
      hide Stripe, Stripes, Start;
      ghost var all := data + input;
      Copy(memsize, input);
      StripesPrefix(Start(seed), data, all, |data| / 32);
      assert all[|all| - (memsize + |input|)..] == data[|data| - memsize..] + input;
      assert mem[..memsize + |input|] == mem[..memsize] + mem[memsize..memsize + |input|];
      memsize := memsize + |input|;
      data := all;
    }

    method KeepRest(input: seq<u8>, p: nat)
      requires p <= |input| < p + 32 && mem.Length == 32 && memsize == 0 && (|data| + p) % 32 == 0
      requires v == Stripes(Start(seed), data + input, (|data| + p) / 32)
      modifies this`memsize, this`data, mem
      ensures memsize == |data| % 32 && data == old(data) + input
      ensures v == Stripes(Start(seed), data, |data| / 32) && data[|data| - memsize..] == mem[..memsize]
    {
      hide Stripe, Stripes, Start;
      var rest := input[p..];
      data := data + input;
      assert data[|data| - |rest|..] == rest;
      if |rest| > 0 {
        Copy(0, rest);
        memsize := |rest|;
        assert mem[..|rest|] == mem[0..0 + |rest|];
      }
    }

    /** If bytes wait in the buffer, completes it and takes it in. */
    method FillBuffer(input: seq<u8>) returns (p: nat)
      requires mem.Length == 32 && memsize == |data| % 32 && memsize + |input| >= 32
      requires v == Stripes(Start(seed), data, |data| / 32) && data[|data| - memsize..] == mem[..memsize]
      modifies this`v, this`memsize, mem
      ensures p <= |input| && memsize == 0 && (|data| + p) % 32 == 0
      ensures v == Stripes(Start(seed), data + input, (|data| + p) / 32)
    {
      hide Stripe, Stripes, Start;
      p := 0;
      ghost var all, n := data + input, |data| / 32;
      StripesPrefix(Start(seed), data, all, n);
      if memsize > 0 {
        Copy(memsize, input[..32 - memsize]);
        p := 32 - memsize;
        assert all[32 * n..32 * (n + 1)] == data[|data| - memsize..] + input[..p];
        assert mem[..] == mem[..memsize] + mem[memsize..memsize + p];
        NextStripe(Start(seed), all, n);
        v := Stripe(v, mem[..]);
        memsize := 0;
      }
    }

    method WholeStripes(input: seq<u8>, p0: nat) returns (p: nat)
      requires p0 <= |input| && (|data| + p0) % 32 == 0 && v == Stripes(Start(seed), data + input, (|data| + p0) / 32)
      modifies this`v
      ensures p <= |input| && (|data| + p) % 32 == 0 && |input| - p < 32
      ensures v == Stripes(Start(seed), data + input, (|data| + p) / 32)
    {
      hide Stripe, Stripes, Start;
      p := p0;
      if p + 32 <= |input| {
        var limit := |input| - 32;
        var w := v;
        while p <= limit
          invariant p <= |input| && (|data| + p) % 32 == 0 && w == Stripes(Start(seed), data + input, (|data| + p) / 32)
        {
          ghost var n := (|data| + p) / 32;
          NextStripe(Start(seed), data + input, n);
          assert (data + input)[32 * n..32 * (n + 1)] == input[p..p + 32];
          w := Stripe(w, input[p..p + 32]);
          p := p + 32;
        }
        v := w;
      }
    }

    /** The hash of everything since the reset. */
    method Digest() returns (r: u64)
      requires Valid()
      ensures r == Hash(data, seed)
    {
      hide Tail, Stripe, Avalanche, Converge, Wrap;
      var h: u64 := if totalLen >= 32 then Converge(v) else Wrap(v.v3 + PRIME64_5);
      SeedInLane(seed);
      h := Wrap(h + totalLen);
      assert data[32 * (|data| / 32)..] == mem[..][..totalLen % 32];
      r := FinalizeSwitch(h, mem[..], totalLen);
    }
  }

  lemma SeedInLane(seed: u64)
    ensures Start(seed).v3 == seed
  {
  }

  lemma NoStripes(v: Lanes)
    ensures Stripes(v, [], 0) == v
  {
  }

  lemma NextStripe(v: Lanes, m: seq<u8>, n: nat)
    requires 32 * (n + 1) <= |m|
    ensures Stripes(v, m, n + 1) == Stripe(Stripes(v, m, n), m[32 * n..32 * (n + 1)])
  {
    hide Stripe;
  }

  lemma JoinedNext<T>(pieces: seq<seq<T>>, i: nat)
    requires i <= |pieces|
    ensures Joined(pieces[..0]) == [] && (i < |pieces| ==> Joined(pieces[..i + 1]) == Joined(pieces[..i]) + pieces[i])
  {
    if i < |pieces| {
      assert pieces[..i + 1][..i] == pieces[..i];
    }
  }

  /** Any split of the message gives the hash of one pass. */
  method InPieces(pieces: seq<seq<u8>>, seed: u64) returns (r: u64)
    requires |Joined(pieces)| < TWO_64
    ensures r == Hash(Joined(pieces), seed)
  {
    hide Hash, Stripes, Joined, State.Valid;
    var state := new State();
    state.Reset(seed);
    JoinedNext(pieces, 0);
    for i := 0 to |pieces|
      invariant fresh(state) && fresh(state.mem) && state.Valid() && state.seed == seed && state.data == Joined(pieces[..i])
    {
      JoinedNext(pieces, i);
      JoinedPrefix(pieces, i + 1);
      state.Update(pieces[i]);
    }
    assert pieces[..|pieces|] == pieces;
    r := state.Digest();
  }

  lemma {:induction false} JoinedPrefix<T>(pieces: seq<seq<T>>, i: nat)
    requires i <= |pieces|
    ensures |Joined(pieces[..i])| <= |Joined(pieces)|
  {
    if i == |pieces| {
      assert pieces[..i] == pieces;
    } else {
      var m := |pieces| - 1;
      assert pieces[..m][..i] == pieces[..i];
      JoinedPrefix(pieces[..m], i);
    }
  }
}
