/** BLAKE2b as a stream: a buffer of words, and compression delayed until more input is known to follow. */
module Blake2b {
  import opened Powers
  import opened Words
  import opened Bits
  import opened Limbs
  import opened Poly1305

  type Chain = h: seq<u64> | |h| == 8 witness [0, 0, 0, 0, 0, 0, 0, 0]

  /** The parameter block and the compression of a block at an offset of two words. */
  datatype Primitive = Primitive(initial: (nat, nat) -> Chain, compress: (Chain, seq<u64>, u64, u64, bool) -> Chain)

  // The specification

  /** A block filled up with zeros. */
  function Padded(b: seq<u8>): (r: seq<u8>)
    requires |b| <= 128
    ensures |r| == 128
  {
    b + seq(128 - |b|, i => 0)
  }

  /** Word i of a block, its first byte lowest. */
  ghost function WordOf(b: seq<u8>, i: nat): (w: u64)
    requires |b| <= 128 && i < 16
  {
    WordBound(Padded(b)[8 * i..8 * i + 8]);
    Val(256, Padded(b)[8 * i..8 * i + 8])
  }

  ghost function BlockWords16(b: seq<u8>): (w: seq<u64>)
    requires |b| <= 128
    ensures |w| == 16 && forall i | 0 <= i < 16 :: w[i] == WordOf(b, i)
  {
    seq(16, i requires 0 <= i < 16 => WordOf(b, i))
  }

  /** The counter of bytes as two words. */
  function Low(t: nat): u64 {
    t % TWO_64
  }

  function High(t: nat): u64 {
    t / TWO_64 % TWO_64
  }

  /** The chain after the first n blocks, none of them the last. */
  ghost function Chained(p: Primitive, h: Chain, data: seq<u8>, n: nat): Chain
    requires 128 * n <= |data|
  {
    if n == 0 then h
    else p.compress(Chained(p, h, data, n - 1), BlockWords16(data[128 * (n - 1)..128 * n]), Low(128 * n), High(128 * n), false)
  }

  /** How many blocks come before the last; the last is never empty unless all is. */
  function Before(size: nat): (n: nat)
    ensures size == 0 ==> n == 0
    ensures size > 0 ==> 0 < size - 128 * n <= 128
  {
    if size == 0 then 0 else (size - 1) / 128
  }

  ghost function Hash(p: Primitive, h: Chain, data: seq<u8>): Chain {
    var n := Before(|data|);
    p.compress(Chained(p, h, data, n), BlockWords16(data[128 * n..]), Low(|data|), High(|data|), true)
  }

  /** A key is a first block of its own. */
  function KeyBlock(key: seq<u8>): seq<u8>
    requires |key| <= 64
  {
    if key == [] then [] else Padded(key)
  }

  /** The first size bytes of a chain, least significant byte of each word first. */
  function Truncated(h: Chain, size: nat): (r: seq<u8>)
    requires size <= 64
    ensures |r| == size
  {
    seq(size, i requires 0 <= i < size => ByteOf(h[i / 8], i % 8))
  }

  function ByteOf(w: nat, j: nat): u8 {
    Shr(w, 8 * j) % 256
  }

  /** The hash of a message: size bytes, at most 64. */
  ghost function Digest(p: Primitive, size: nat, key: seq<u8>, message: seq<u8>): seq<u8>
    requires |key| <= 64
  {
    Truncated(Hash(p, p.initial(size, |key|), KeyBlock(key) + message), if size <= 64 then size else 64)
  }

  lemma {:induction false} ChainedPrefix(p: Primitive, h: Chain, data: seq<u8>, more: seq<u8>, n: nat)
    requires 128 * n <= |data|
    ensures Chained(p, h, data + more, n) == Chained(p, h, data, n)
  {
    hide BlockWords16;
    if n > 0 {
      ChainedPrefix(p, h, data, more, n - 1);
      assert (data + more)[128 * (n - 1)..128 * n] == data[128 * (n - 1)..128 * n];
    }
  }

  lemma ChainedNext(p: Primitive, h: Chain, data: seq<u8>, n: nat)
    requires 0 < 128 * n <= |data|
    ensures Chained(p, h, data, n)
         == p.compress(Chained(p, h, data, n - 1), BlockWords16(data[128 * (n - 1)..128 * n]), Low(128 * n), High(128 * n), false)
  {
  }

  // What the parts of the specification mean

  /** A key is followed by zeros up to a whole block. */
  lemma KeyBlockIs(key: seq<u8>)
    requires |key| <= 64
    ensures key == [] ==> KeyBlock(key) == []
    ensures key != [] ==> var b := KeyBlock(key);
              |b| == 128 && b[..|key|] == key && forall i | |key| <= i < 128 :: b[i] == 0
  {
  }

  lemma {:induction false} BytesOfWord(w: nat, n: nat) returns (b: seq<u8>)
    requires n <= 8
    ensures |b| == n && (forall j | 0 <= j < n :: b[j] == ByteOf(w, j)) && Val(256, b) == w % Pow2(8 * n)
  {
    if n == 0 {
      b := [];
      assert w % 1 == 0;
    } else {
      var front := BytesOfWord(w, n - 1);
      b := front + [ByteOf(w, n - 1)];
      hide Pow2, Val, Pow, Shr;
      ValSnoc(256, front, ByteOf(w, n - 1));
      PowBytes(n - 1);
      Pow2Eight();
      Pow2Add(8 * (n - 1), 8);
      assert 8 * (n - 1) + 8 == 8 * n;
      NextDigit(w, Pow2(8 * (n - 1)));
      ByteIs(w, n - 1);
    }
  }

  lemma ByteIs(w: nat, j: nat)
    ensures ByteOf(w, j) == w / Pow2(8 * j) % 256
  {
  }

  lemma NextDigit(w: nat, p: nat)
    requires p > 0
    ensures w % (p * 256) == w % p + p * (w / p % 256)
  {
    DivMod(w, p);
    DivMod(w / p, 256);
    var d, e := w / p / 256, w / p % 256;
    MulDistribute(p, 256 * d, e);
    MulAssoc(p, 256, d);
    MulMonotone(p, e + 1, 256);
    MulMonotone(p, 0, e);
    DivModUnique(w, p * 256, d, w % p + p * e);
  }

  /** The bytes of the first n words of a chain are their number. */
  lemma {:induction false} ChainBytes(h: Chain, n: nat)
    requires n <= 8
    ensures Val(256, Truncated(h, 8 * n)) == Val(TWO_64, h[..n])
  {
    hide Val, Pow, Pow2, ByteOf;
    if n == 0 {
      assert Truncated(h, 0) == [] && h[..0] == [];
      EmptyVal();
    } else {
      ChainBytes(h, n - 1);
      var b := BytesOfWord(h[n - 1], 8);
      var w: u64 := h[n - 1];
      WordPowers();
      assert w % TWO_64 == w;
      assert Truncated(h, 8 * n) == Truncated(h, 8 * (n - 1)) + b;
      assert h[..n] == h[..n - 1] + [w];
      ValAppend(256, Truncated(h, 8 * (n - 1)), b);
      ValSnoc(TWO_64, h[..n - 1], w);
      EightBytes(n - 1);
    }
  }

  lemma EmptyVal()
    ensures Val(256, []) == 0 && Val(TWO_64, []) == 0
  {
  }

  lemma {:induction false} EightBytes(n: nat)
    ensures Pow(256, 8 * n) == Pow(TWO_64, n)
  {
    if n > 0 {
      EightBytes(n - 1);
      EightPower();
      PowAdd(256, 8, 8 * (n - 1));
      assert 8 + 8 * (n - 1) == 8 * n;
    }
  }

  lemma EightPower()
    ensures Pow(256, 8) == TWO_64
  {
    hide Pow;
    FourPowers();
    PowAdd(256, 4, 4);
  }

  /** The bytes of a chain are its number in little-endian order; a shorter hash is a prefix of them. */
  lemma TruncatedIs(h: Chain, size: nat)
    requires size <= 64
    ensures Val(256, Truncated(h, 64)) == Val(TWO_64, h) && Truncated(h, size) == Truncated(h, 64)[..size]
  {
    ChainBytes(h, 8);
    assert h[..8] == h;
  }

  /** So are the words of a block: the number of its bytes, whatever is missing being zero. */
  lemma BlockIs(b: seq<u8>)
    requires |b| <= 128
    ensures Val(TWO_64, BlockWords16(b)) == Val(256, b)
  {
    hide Val, Pow, WordOf;
    var p := Padded(b);
    BlockPart(b, 16);
    assert p[..128] == p && BlockWords16(b)[..16] == BlockWords16(b);
    ValAppend(256, b, seq(128 - |b|, i => 0));
    ValZero(256, seq(128 - |b|, i => 0));
  }

  lemma {:induction false} BlockPart(b: seq<u8>, n: nat)
    requires |b| <= 128 && n <= 16
    ensures Val(TWO_64, BlockWords16(b)[..n]) == Val(256, Padded(b)[..8 * n])
  {
    hide Val, Pow, Padded;
    var w, p := BlockWords16(b), Padded(b);
    if n == 0 {
      EmptyVal();
      assert w[..0] == [] && p[..8 * 0] == [];
    } else {
      BlockPart(b, n - 1);
      assert w[..n] == w[..n - 1] + [w[n - 1]];
      assert p[..8 * n] == p[..8 * (n - 1)] + p[8 * (n - 1)..8 * (n - 1) + 8];
      ValSnoc(TWO_64, w[..n - 1], w[n - 1]);
      ValAppend(256, p[..8 * (n - 1)], p[8 * (n - 1)..8 * (n - 1) + 8]);
      EightBytes(n - 1);
    }
  }

  lemma {:induction false} ChainSteps(p: Primitive, h: Chain, data: seq<u8>, n: nat) returns (chain: seq<Chain>)
    requires 128 * n <= |data|
    ensures |chain| == n + 1 && chain[0] == h && chain[n] == Chained(p, h, data, n)
    ensures forall i | 0 <= i < n :: chain[i + 1]
              == p.compress(chain[i], BlockWords16(data[128 * i..128 * (i + 1)]), 128 * (i + 1) % TWO_64, 128 * (i + 1) / TWO_64 % TWO_64, false)
  {
    hide BlockWords16;
    if n == 0 {
      chain := [h];
    } else {
      chain := ChainSteps(p, h, data, n - 1);
      chain := chain + [Chained(p, h, data, n)];
    }
  }

  /**
   A hash as section 3.3 of RFC 7693 builds it: the blocks of 128 bytes are compressed in turn, each with the number of bytes up
   to its end; the last one, which is empty only if everything is, is filled up with zeros, counted without them, and flagged.
   */
  lemma HashSteps(p: Primitive, h: Chain, data: seq<u8>) returns (chain: seq<Chain>, n: nat)
    ensures 128 * n < |data| <= 128 * (n + 1) || (data == [] && n == 0)
    ensures |chain| == n + 1 && chain[0] == h
    ensures forall i | 0 <= i < n :: chain[i + 1]
              == p.compress(chain[i], BlockWords16(data[128 * i..128 * (i + 1)]), 128 * (i + 1) % TWO_64, 128 * (i + 1) / TWO_64 % TWO_64, false)
    ensures Hash(p, h, data) == p.compress(chain[n], BlockWords16(data[128 * n..]), |data| % TWO_64, |data| / TWO_64 % TWO_64, true)
  {
    hide BlockWords16, Chained;
    n := Before(|data|);
    chain := ChainSteps(p, h, data, n);
  }

  /** The digest is the beginning of the chain's bytes, of all data after the block of the key, if there is a key. */
  lemma DigestIs(p: Primitive, size: nat, key: seq<u8>, message: seq<u8>, block: seq<u8>)
    requires |key| <= 64 && |block| == 128 && block[..|key|] == key && forall i | |key| <= i < 128 :: block[i] == 0
    ensures var d := Digest(p, size, key, message);
            && |d| == (if size < 64 then size else 64)
            && d <= Truncated(Hash(p, p.initial(size, |key|), if key == [] then message else block + message), 64)
  {
    hide Hash, ByteOf;
    KeyBlockIs(key);
    assert key != [] ==> KeyBlock(key) == block;
    assert key == [] ==> KeyBlock(key) + message == message;
  }

  // Words and bytes

  function Load64(b: seq<u8>): (w: u64)
    requires |b| == 8
  {
    var lo: int, hi: int := Load32(b[..4]), Load32(b[4..]);
    lo + 0x1_0000_0000 * hi
  }

  lemma Load64Val(b: seq<u8>)
    requires |b| == 8
    ensures Load64(b) == Val(256, b)
  {
    hide Val, Pow, Load32;
    Load32Val(b[..4]);
    Load32Val(b[4..]);
    ValSplit(256, b, 4);
    FourPowers();
  }

  /** The words hold the bytes b and zeros after them. */
  ghost predicate Holds(input: seq<u64>, b: seq<u8>) {
    |input| == 16 && |b| <= 128 && forall i | 0 <= i < 16 :: input[i] == WordOf(b, i)
  }

  lemma HoldsNothing(input: seq<u64>)
    requires |input| == 16 && forall i | 0 <= i < 16 :: input[i] == 0
    ensures Holds(input, [])
  {
    hide Val;
    forall i | 0 <= i < 16 ensures WordOf([], i) == 0 {
      ValZero(256, Padded([])[8 * i..8 * i + 8]);
    }
  }

  lemma {:induction false} PowBytes(s: nat)
    ensures Pow(256, s) == Pow2(8 * s)
  {
    if s > 0 {
      PowBytes(s - 1);
      Pow2Eight();
      Pow2Add(8, 8 * (s - 1));
      assert 8 + 8 * (s - 1) == 8 * s;
    }
  }

  lemma PaddedMore(b: seq<u8>, x: u8)
    requires |b| < 128
    ensures Padded(b + [x]) == Padded(b)[|b| := x] && forall j | |b| <= j < 128 :: Padded(b)[j] == 0
  {
  }

  /** A byte after the others lands above them in its word. */
  lemma PushByte(b: seq<u8>, x: u8)
    requires |b| < 128
    ensures var w, s := |b| / 8, |b| % 8;
            WordOf(b, w) < Pow2(8 * s) && WordOf(b + [x], w) == WordOf(b, w) + x * Pow2(8 * s)
  {
    hide Val, Pow, Pow2, Padded;
    var w, s := |b| / 8, |b| % 8;
    var p := Padded(b);
    PaddedMore(b, x);
    var word := p[8 * w..8 * w + 8];
    assert Padded(b + [x])[8 * w..8 * w + 8] == word[s := x];
    ValUpdate(256, word, s, x);
    ValSplit(256, word, s);
    ValZero(256, word[s..]);
    ValBound(256, word[..s]);
    PowBytes(s);
  }

  lemma OtherWords(b: seq<u8>, x: u8)
    requires |b| < 128
    ensures forall i | 0 <= i < 16 && i != |b| / 8 :: WordOf(b + [x], i) == WordOf(b, i)
  {
    hide Val, Padded;
    PaddedMore(b, x);
    forall i | 0 <= i < 16 && i != |b| / 8 ensures WordOf(b + [x], i) == WordOf(b, i) {
      assert Padded(b + [x])[8 * i..8 * i + 8] == Padded(b)[8 * i..8 * i + 8];
    }
  }

  lemma HoldsByte(input: seq<u64>, b: seq<u8>, x: u8)
    requires Holds(input, b) && |b| < 128
    ensures var w, s := |b| / 8, |b| % 8;
            && Or(input[w], x * Pow2(8 * s)) < TWO_64
            && Holds(input[w := Or(input[w], x * Pow2(8 * s))], b + [x])
  {
    hide WordOf, Or, Pow2;
    var w, s := |b| / 8, |b| % 8;
    PushByte(b, x);
    OtherWords(b, x);
    OrDisjoint(input[w], x, 8 * s);
  }

  /** Whole words after whole words. */
  lemma HoldsWords(input: seq<u64>, b: seq<u8>, src: seq<u8>, n: nat, after: seq<u64>)
    requires |input| == |after| == 16 && |b| % 8 == 0 && |b| + 8 * n <= 128 && 8 * n <= |src|
    requires Holds(input, b) || (b == [] && n == 16)
    requires forall i | 0 <= i < 16 && !(|b| / 8 <= i < |b| / 8 + n) :: after[i] == input[i]
    requires forall k | 0 <= k < n :: after[|b| / 8 + k] == Load64(src[8 * k..8 * k + 8])
    ensures Holds(after, b + src[..8 * n])
  {
    hide Val, Load64;
    var at := |b| / 8;
    var r := b + src[..8 * n];
    forall i | 0 <= i < 16 ensures after[i] == WordOf(r, i) {
      if at <= i < at + n {
        var k := i - at;
        assert after[at + k] == Load64(src[8 * k..8 * k + 8]);
        Load64Val(src[8 * k..8 * k + 8]);
        assert Padded(r)[8 * i..8 * i + 8] == src[8 * k..8 * k + 8];
      } else {
        assert Padded(r)[8 * i..8 * i + 8] == Padded(b)[8 * i..8 * i + 8];
      }
    }
  }

  method Load64Buf(dst: array<u64>, at: nat, src: seq<u8>, size: nat)
    requires at + size <= dst.Length && 8 * size <= |src|
    modifies dst
    ensures forall i | 0 <= i < dst.Length && !(at <= i < at + size) :: dst[i] == old(dst[i])
    ensures forall k | 0 <= k < size :: dst[at + k] == Load64(src[8 * k..8 * k + 8])
  {
    hide Load64;
    for i := 0 to size
      invariant forall j | 0 <= j < dst.Length && !(at <= j < at + i) :: dst[j] == old(dst[j])
      invariant forall k | 0 <= k < i :: dst[at + k] == Load64(src[8 * k..8 * k + 8])
    {
      dst[at + i] := Load64(src[8 * i..8 * i + 8]);
    }
  }

  /** Adding to a counter of two words. */
  lemma Count(t: nat, y: nat)
    requires y <= 128
    ensures Low(t + y) == (Low(t) + y) % TWO_64
    ensures High(t + y) == if Low(t + y) < y then (High(t) + 1) % TWO_64 else High(t)
  {
    var q, r := t / TWO_64, t % TWO_64;
    if r + y < TWO_64 {
      DivModUnique(t + y, TWO_64, q, r + y);
    } else {
      DivModUnique(t + y, TWO_64, q + 1, r + y - TWO_64);
      if q % TWO_64 == TWO_64 - 1 {
        DivModUnique(q + 1, TWO_64, q / TWO_64 + 1, 0);
      } else {
        DivModUnique(q + 1, TWO_64, q / TWO_64, q % TWO_64 + 1);
      }
    }
  }

  lemma NoBytes()
    ensures Low(0) == 0 && High(0) == 0
  {
  }

  lemma HoldsBlock(input: seq<u64>, b: seq<u8>)
    requires Holds(input, b)
    ensures input == BlockWords16(b)
  {
  }

  class Context {
    const p: Primitive
    const input: array<u64>
    var hash: Chain
    var offset0: u64
    var offset1: u64
    var inputIdx: nat
    var hashSize: nat
    ghost const initial: Chain
    ghost var data: seq<u8>

    /** How many bytes have been compressed. */
    ghost function Done(): int
      reads this
    {
      |data| - inputIdx
    }

    /** The hash has seen whole blocks, and the words hold the rest. */
    ghost predicate Steady()
      reads this, input
    {
      && input.Length == 16 && inputIdx <= 128 && Done() >= 0 && Done() % 128 == 0
      && Holds(input[..], data[Done()..]) && hash == Chained(p, initial, data, Done() / 128)
      && offset0 == Low(Done()) && offset1 == High(Done())
    }

    /** Once there is data the buffer is not empty: its last block waits for more to follow. */
    ghost predicate Valid()
      reads this, input
    {
      Steady() && (inputIdx == 0 ==> data == [])
    }

    constructor (primitive: Primitive, size: nat, key: seq<u8>)
      requires |key| <= 64
      ensures Valid() && fresh(input) && data == KeyBlock(key) && hashSize == size
      ensures p == primitive && initial == primitive.initial(size, |key|)
    {
      hide Holds, Low, High, Load64;
      p, initial, hash := primitive, primitive.initial(size, |key|), primitive.initial(size, |key|);
      offset0, offset1, inputIdx, hashSize, data := 0, 0, 0, size, [];
      input := new u64[16](i => 0);
      new;
      HoldsNothing(input[..]);
      NoBytes();
      if |key| > 0 {
        var keyBlock := Padded(key);
        ghost var before := input[..];
        Load64Buf(input, 0, keyBlock, 16);
        HoldsWords(before, [], keyBlock, 16, input[..]);
        assert [] + keyBlock[..8 * 16] == keyBlock;
        inputIdx := 128;
        data := keyBlock;
      }
    }

    /** Counts the bytes of the block and compresses it. */
    method Compress(last: bool)
      requires Steady()
      modifies `hash, `offset0, `offset1
      ensures offset0 == Low(|data|) && offset1 == High(|data|)
      ensures hash == p.compress(old(hash), BlockWords16(data[Done()..]), Low(|data|), High(|data|), last)
    {
      hide Holds, Low, High, Chained, BlockWords16;
      Count(Done(), inputIdx);
      HoldsBlock(input[..], data[Done()..]);
      offset0 := (offset0 + inputIdx) % TWO_64;
      if offset0 < inputIdx {
        offset1 := (offset1 + 1) % TWO_64;
      }
      hash := p.compress(hash, input[..], offset0, offset1, last);
    }

    /** A full block is compressed once more input follows. */
    method Flush()
      requires Steady() && inputIdx == 128
      modifies `hash, `offset0, `offset1, `inputIdx
      ensures inputIdx == 0 && Done() % 128 == 0 && Done() >= 0
      ensures hash == Chained(p, initial, data, Done() / 128) && offset0 == Low(Done()) && offset1 == High(Done())
    {
      hide Holds, Low, High, BlockWords16, Chained;
      ghost var n := |data| / 128;
      assert 128 * n == |data| && data[128 * (n - 1)..128 * n] == data[Done()..];
      ChainedNext(p, initial, data, n);
      Compress(false);
      inputIdx := 0;
    }

    method Update(message: seq<u8>)
      requires Valid() && |message| < TWO_64
      modifies this`hash, this`offset0, this`offset1, this`inputIdx, this`data, input
      ensures Valid() && data == old(data) + message
    {
      hide Steady;
      if |message| == 0 {
        assert data == data + message;
        return;
      }
      var rest := AlignWords(message);
      rest := AlignBlocks(rest);
      var nbBlocks := |rest| / 128;
      ghost var before := data;
      Blocks(rest, nbBlocks);
      rest := rest[128 * nbBlocks..];
      if |rest| != 0 {
        Remaining(rest);
      }
    }

    /** Byte by byte up to a word boundary. */
    method AlignWords(message: seq<u8>) returns (rest: seq<u8>)
      requires Valid() && 0 < |message| < TWO_64
      modifies this`inputIdx, this`data, input
      ensures Valid() && old(data) + message == data + rest && |rest| <= |message|
      ensures inputIdx % 8 == 0 || rest == []
    {
      hide Holds, Low, High, Chained, Gap;
      rest := message;
      if inputIdx % 8 != 0 {
        WordGap8(inputIdx);
        var nbBytes := if Gap(inputIdx, 3) <= |message| then Gap(inputIdx, 3) else |message|;
        FillWord(message[..nbBytes]);
        rest := message[nbBytes..];
        assert message == message[..nbBytes] + rest;
      }
    }

    method FillWord(message: seq<u8>)
      requires Steady() && inputIdx % 8 != 0 && inputIdx % 8 + |message| <= 8
      modifies this`inputIdx, this`data, input
      ensures Steady() && data == old(data) + message && inputIdx == old(inputIdx) + |message|
    {
      hide Holds, Low, High, Chained, Or, Pow2;
      var word, byte := inputIdx / 8, inputIdx % 8;
      ghost var data0, start := data, Done();
      for i := 0 to |message|
        invariant data == data0 + message[..i] && inputIdx == old(inputIdx)
        invariant Holds(input[..], data[start..])
      {
        ghost var b, words := data[start..], input[..];
        HoldsByte(words, b, message[i]);
        input[word] := Or(input[word], message[i] * Pow2(8 * (byte + i)));
        assert input[..] == words[word := input[word]];
        assert b + [message[i]] == (data0 + message[..i + 1])[start..];
        data := data0 + message[..i + 1];
      }
      inputIdx := inputIdx + |message|;
      assert message[..|message|] == message;
      ChainedPrefix(p, initial, data0, message, start / 128);
    }

    /** Word by word up to a block boundary. */
    method AlignBlocks(message: seq<u8>) returns (rest: seq<u8>)
      requires Valid() && |message| < TWO_64 && (inputIdx % 8 == 0 || message == [])
      modifies this`inputIdx, this`data, input
      ensures Valid() && old(data) + message == data + rest && |rest| <= |message|
      ensures inputIdx % 128 == 0 || |rest| < 8
      ensures inputIdx % 8 == 0 || rest == []
    {
      hide Holds, Low, High, Chained, Gap, Load64;
      rest := message;
      if inputIdx % 128 != 0 {
        BlockGap(inputIdx);
        var nbWords := (if Gap(inputIdx, 7) <= |message| then Gap(inputIdx, 7) else |message|) / 8;
        ghost var b, words, data0, start := data[Done()..], input[..], data, Done();
        Load64Buf(input, inputIdx / 8, message, nbWords);
        if inputIdx % 8 == 0 {
          HoldsWords(words, b, message, nbWords, input[..]);
        } else {
          assert nbWords == 0 && input[..] == words && b + message[..0] == b;
        }
        inputIdx := inputIdx + 8 * nbWords;
        data := data + message[..8 * nbWords];
        rest := message[8 * nbWords..];
        assert data[start..] == b + message[..8 * nbWords];
        ChainedPrefix(p, initial, data0, message[..8 * nbWords], start / 128);
        assert message == message[..8 * nbWords] + rest;
      }
    }

    /** Block by block, each compressed when the next one comes. */
    method Blocks(message: seq<u8>, nbBlocks: nat)
      requires Valid() && 128 * nbBlocks <= |message| && (nbBlocks > 0 ==> inputIdx % 128 == 0)
      modifies this`hash, this`offset0, this`offset1, this`inputIdx, this`data, input
      ensures Valid() && data == old(data) + message[..128 * nbBlocks]
      ensures nbBlocks == 0 ==> inputIdx == old(inputIdx)
      ensures nbBlocks > 0 ==> inputIdx == 128
    {
      hide Holds, Low, High, Chained, Load64, BlockWords16;
      assert data == data + message[..0];
      for i := 0 to nbBlocks
        invariant Valid() && data == old(data) + message[..128 * i]
        invariant i == 0 ==> inputIdx == old(inputIdx)
        invariant i > 0 ==> inputIdx == 128
      {
        if inputIdx == 128 {
          Flush();
        }
        ghost var words, data0 := input[..], data;
        var block := message[128 * i..128 * i + 128];
        Load64Buf(input, 0, block, 16);
        HoldsWords(words, [], block, 16, input[..]);
        assert [] + block[..8 * 16] == block;
        inputIdx := 128;
        data := data + block;
        ChainedPrefix(p, initial, data0, block, |data0| / 128);
        assert data[|data0|..] == block;
        assert message[..128 * (i + 1)] == message[..128 * i] + block;
      }
    }

    /** What is left, less than a block, in words and then in bytes. */
    method Remaining(message: seq<u8>)
      requires Valid() && 0 < |message| < 128 && (inputIdx % 128 == 0 || (inputIdx % 8 == 0 && |message| < 8))
      modifies this`hash, this`offset0, this`offset1, this`inputIdx, this`data, input
      ensures Valid() && data == old(data) + message
    {
      hide Steady;
      MakeRoom();
      var nbWords := |message| / 8;
      var words, rest := message[..8 * nbWords], message[8 * nbWords..];
      ghost var before := data;
      RemainingWords(message, nbWords);
      RemainingBytes(rest);
      assert words + rest == message;
      assert (before + words) + rest == before + (words + rest);
    }

    /** Compresses a full block and clears an empty buffer. */
    method MakeRoom()
      requires Valid()
      modifies `hash, `offset0, `offset1, `inputIdx, input
      ensures Steady() && inputIdx == old(inputIdx) % 128
    {
      hide Holds, Low, High, Chained, BlockWords16;
      if inputIdx == 128 {
        Flush();
      }
      if inputIdx == 0 {
        Clear();
        assert data[Done()..] == [];
      }
    }

    method RemainingWords(message: seq<u8>, nbWords: nat)
      requires Steady() && 8 * nbWords <= |message| < 128 && (inputIdx == 0 || nbWords == 0)
      modifies this`inputIdx, this`data, input
      ensures Steady() && data == old(data) + message[..8 * nbWords] && inputIdx == old(inputIdx) + 8 * nbWords
    {
      hide Holds, Low, High, Chained, Load64;
      ghost var b, words, data0, start := data[Done()..], input[..], data, Done();
      Load64Buf(input, 0, message, nbWords);
      WholeWords(words, b, message, nbWords, input[..]);
      inputIdx := inputIdx + 8 * nbWords;
      data := data + message[..8 * nbWords];
      assert data[start..] == b + message[..8 * nbWords];
      ChainedPrefix(p, initial, data0, message[..8 * nbWords], start / 128);
    }

    method Clear()
      requires input.Length == 16
      modifies input
      ensures Holds(input[..], [])
    {
      hide Holds;
      for i := 0 to 16
        invariant forall j | 0 <= j < i :: input[j] == 0
      {
        input[i] := 0;
      }
      HoldsNothing(input[..]);
    }

    method RemainingBytes(message: seq<u8>)
      requires Steady() && inputIdx + |message| <= 128
      modifies this`inputIdx, this`data, input
      ensures Steady() && data == old(data) + message && inputIdx == old(inputIdx) + |message|
    {
      hide Holds, Low, High, Chained, Or, Pow2;
      ghost var data0, start := data, Done();
      for i := 0 to |message|
        invariant data == data0 + message[..i] && inputIdx == old(inputIdx) + i
        invariant Holds(input[..], data[start..])
      {
        ghost var b, words := data[start..], input[..];
        var word, byte := inputIdx / 8, inputIdx % 8;
        HoldsByte(words, b, message[i]);
        input[word] := Or(input[word], message[i] * Pow2(8 * byte));
        assert input[..] == words[word := input[word]];
        assert b + [message[i]] == (data0 + message[..i + 1])[start..];
        inputIdx := inputIdx + 1;
        data := data0 + message[..i + 1];
      }
      assert message[..|message|] == message;
      ChainedPrefix(p, initial, data0, message, start / 128);
    }

    /** Compresses the last block; the hash is the one-shot hash of all the data, in bytes. */
    method Final() returns (result: seq<u8>)
      requires Valid()
      modifies `hash, `offset0, `offset1
      ensures result == Truncated(Hash(p, initial, data), if hashSize <= 64 then hashSize else 64)
    {
      hide Holds, Low, High, Chained, BlockWords16, Truncated;
      assert Done() == 128 * Before(|data|);
      Compress(true);
      var size := if hashSize <= 64 then hashSize else 64;
      result := StoreBytes(hash, size);
    }
  }

  /** Whole words at the start of an empty block; nothing otherwise. */
  lemma WholeWords(words: seq<u64>, b: seq<u8>, message: seq<u8>, n: nat, after: seq<u64>)
    requires |words| == |after| == 16 && Holds(words, b) && 8 * n <= |message| && 8 * n < 128 && (b == [] || n == 0)
    requires forall i | 0 <= i < 16 && !(0 <= i < n) :: after[i] == words[i]
    requires forall k | 0 <= k < n :: after[0 + k] == Load64(message[8 * k..8 * k + 8])
    ensures Holds(after, b + message[..8 * n])
  {
    hide Holds, Load64;
    if b == [] {
      HoldsWords(words, [], message, n, after);
    } else {
      assert after == words && b + message[..0] == b;
    }
  }

  lemma WordGap8(x: nat)
    requires x <= 128 && x % 8 != 0
    ensures Gap(x, 3) == 8 - x % 8
  {
    hide And;
    SmallPowers();
    GapAligns(x, 3);
  }

  lemma BlockGap(x: nat)
    requires 0 < x < 128
    ensures Gap(x, 7) == 128 - x
  {
    hide And;
    SmallPowers();
    GapAligns(x, 7);
  }

  function Store64(w: u64): (b: seq<u8>)
    ensures |b| == 8
  {
    seq(8, j requires 0 <= j < 8 => ByteOf(w, j))
  }

  /** Whole words, then the bytes left. */
  method StoreBytes(h: Chain, size: nat) returns (r: seq<u8>)
    requires size <= 64
    ensures r == Truncated(h, size)
  {
    hide ByteOf;
    r := [];
    for i := 0 to size / 8
      invariant r == Truncated(h, 8 * i)
    {
      ghost var before := r;
      r := r + Store64(h[i]);
      assert r == Truncated(h, 8 * i + 8) by {
        forall k | 0 <= k < 8 * i + 8 ensures r[k] == ByteOf(h[k / 8], k % 8) {
        }
      }
    }
    for i := size / 8 * 8 to size
      invariant r == Truncated(h, i)
    {
      r := r + [ByteOf(h[i / 8], i % 8)];
    }
  }

  method Keyed(p: Primitive, size: nat, key: seq<u8>, message: seq<u8>) returns (hash: seq<u8>)
    requires |key| <= 64 && |message| < TWO_64
    ensures hash == Digest(p, size, key, message)
  {
    hide Truncated, Hash, KeyBlock;
    var ctx := new Context(p, size, key);
    ctx.Update(message);
    hash := ctx.Final();
  }

  /** Any split of the message gives the same hash. */
  method InPieces(p: Primitive, size: nat, key: seq<u8>, pieces: seq<seq<u8>>) returns (hash: seq<u8>)
    requires |key| <= 64 && forall i | 0 <= i < |pieces| :: |pieces[i]| < TWO_64
    ensures hash == Digest(p, size, key, Joined(pieces))
  {
    hide Truncated, Hash, KeyBlock, Context.Valid;
    var ctx := new Context(p, size, key);
    assert pieces[..0] == [];
    for i := 0 to |pieces|
      invariant ctx.Valid() && fresh(ctx) && fresh(ctx.input) && ctx.data == KeyBlock(key) + Joined(pieces[..i])
      invariant ctx.hashSize == size
    {
      ctx.Update(pieces[i]);
      assert pieces[..i + 1][..i] == pieces[..i];
      assert KeyBlock(key) + Joined(pieces[..i + 1]) == KeyBlock(key) + Joined(pieces[..i]) + pieces[i];
    }
    assert pieces[..|pieces|] == pieces;
    hash := ctx.Final();
  }
}
