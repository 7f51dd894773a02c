/**
 The byte format of a tree: the number of live leaves, the number of flushed leaves, the live leaf
 hashes, and the hashes of the flushed subtrees along the left edge, the lowest first.
 */
module MerkleCodec {
  import opened Powers
  import opened MerkleSpec

  function Pow256(k: nat): (r: nat)
    ensures r > 0
  {
    if k == 0 then 1 else 256 * Pow256(k - 1)
  }

  /** The k low bytes of n, most significant first: what serialise_uint64_t writes for k == 8. */
  function BigEndian(n: nat, k: nat): (b: seq<byte>)
    ensures |b| == k
  {
    if k == 0 then [] else BigEndian(n / 256, k - 1) + [(n % 256) as byte]
  }

  function Value(b: seq<byte>): nat {
    if b == [] then 0 else 256 * Value(b[..|b| - 1]) + b[|b| - 1] as nat
  }

  lemma {:induction false} ValueOfBigEndian(n: nat, k: nat)
    ensures Value(BigEndian(n, k)) == n % Pow256(k)
  {
    if k > 0 {
      ValueOfBigEndian(n / 256, k - 1);
      assert BigEndian(n, k)[..k - 1] == BigEndian(n / 256, k - 1);
      ModSplit(n, Pow256(k - 1));
    }
  }

  lemma ModSplit(n: nat, p: nat)
    requires p > 0
    ensures n % (256 * p) == 256 * ((n / 256) % p) + n % 256
  {
    var q, r := n / 256, n % 256;
    var d, m := q / p, q % p;
    assert n == 256 * (p * d + m) + r;
    assert 256 * (p * d + m) + r == (256 * p) * d + (256 * m + r) by {
      assert 256 * (p * d) == (256 * p) * d;
    }
    assert 0 <= 256 * m + r < 256 * p;
    DivModUnique(n, 256 * p, d, 256 * m + r);
  }

  lemma DivTwice(n: nat, p: nat)
    requires p > 0
    ensures n / 256 / p == n / (256 * p)
  {
    var q, r := n / 256, n % 256;
    var d, m := q / p, q % p;
    assert q == p * d + m && 256 * (p * d) == (256 * p) * d;
    DivModUnique(n, 256 * p, d, 256 * m + r);
  }

  /** The byte at i counts multiples of 256^(k - 1 - i): the most significant byte comes first. */
  lemma {:induction false} BigEndianAt(n: nat, k: nat, i: nat)
    requires i < k
    ensures BigEndian(n, k)[i] as nat == n / Pow256(k - 1 - i) % 256
  {
    if i == k - 1 {
      assert n / 1 == n;
    } else {
      BigEndianAt(n / 256, k - 1, i);
      DivTwice(n, Pow256(k - 2 - i));
    }
  }

  lemma {:induction false} ValueAt(b: seq<byte>, i: nat)
    requires i < |b|
    ensures Value(b) / Pow256(|b| - 1 - i) % 256 == b[i] as nat
  {
    var front, last := b[..|b| - 1], b[|b| - 1] as nat;
    DivModUnique(Value(b), 256, Value(front), last);
    if i < |b| - 1 {
      ValueAt(front, i);
      DivTwice(Value(b), Pow256(|b| - 2 - i));
    } else {
      assert Value(b) / 1 == Value(b);
    }
  }

  lemma {:induction false} ValueBound(b: seq<byte>)
    ensures Value(b) < Pow256(|b|)
  {
    if b != [] {
      ValueBound(b[..|b| - 1]);
    }
  }

  /** Big-endian 64-bit numbers: serialise_uint64_t and deserialise_uint64_t. */
  const U64_SIZE: nat := 8

  function U64(n: nat): (b: seq<byte>)
    ensures |b| == U64_SIZE
  {
    BigEndian(n, 8)
  }

  lemma U64RoundTrip(n: nat)
    requires n < Pow256(8)
    ensures Value(U64(n)) == n
  {
    ValueOfBigEndian(n, 8);
  }

  /** Writing: byte i of the eight is the digit of 256^(7 - i). */
  lemma U64Bytes(n: nat)
    ensures forall i | 0 <= i < 8 :: U64(n)[i] as nat == n / Pow256(7 - i) % 256
    ensures Pow256(0) == 1 && Pow256(1) == 256
  {
    forall i | 0 <= i < 8 ensures U64(n)[i] as nat == n / Pow256(7 - i) % 256 {
      BigEndianAt(n, 8, i);
    }
  }

  /** Reading: of every eight bytes, byte i is the digit of 256^(7 - i) of the number read. */
  lemma ValueOfBytes(b: seq<byte>)
    requires |b| == 8
    ensures Value(b) < Pow256(8) && forall i | 0 <= i < 8 :: Value(b) / Pow256(7 - i) % 256 == b[i] as nat
  {
    ValueBound(b);
    forall i | 0 <= i < 8 ensures Value(b) / Pow256(7 - i) % 256 == b[i] as nat {
      ValueAt(b, i);
    }
  }

  lemma U64Range()
    ensures Pow256(8) == 0x1_0000_0000_0000_0000
  {
    assert Pow256(4) == 0x1_0000_0000;
  }

  function Concat(hs: seq<Hash>): (b: seq<byte>)
    ensures |b| == |hs| * HASH_SIZE
  {
    if hs == [] then []
    else
      var b := Concat(hs[..|hs| - 1]);
      assert |b| + HASH_SIZE == |hs| * HASH_SIZE by { assert (|hs| - 1) * HASH_SIZE == |hs| * HASH_SIZE - HASH_SIZE; }
      b + hs[|hs| - 1]
  }

  lemma ConcatSnoc(hs: seq<Hash>, h: Hash)
    ensures Concat(hs + [h]) == Concat(hs) + h
  {
    assert (hs + [h])[..|hs|] == hs;
  }

  lemma {:induction false} ConcatAppend(a: seq<Hash>, b: seq<Hash>)
    ensures Concat(a + b) == Concat(a) + Concat(b)
    decreases |b|
  {
    if b == [] {
      assert a + b == a;
    } else {
      var k := |b| - 1;
      ConcatAppend(a, b[..k]);
      assert a + b == (a + b[..k]) + [b[k]];
      ConcatSnoc(a + b[..k], b[k]);
      assert Concat(b) == Concat(b[..k]) + b[k];
    }
  }

  lemma ConcatCons(h: Hash, hs: seq<Hash>)
    ensures Concat([h] + hs) == h + Concat(hs)
  {
    ConcatAppend([h], hs);
    ConcatSnoc([], h);
    assert [] + [h] == [h];
  }

  /** The hashes that join at the left, from the leaf up. */
  function LeftHashes(p: seq<Element>): seq<Hash> {
    if p == [] then []
    else
      var hs := LeftHashes(p[..|p| - 1]);
      if p[|p| - 1].direction == PathLeft then hs + [p[|p| - 1].hash] else hs
  }

  lemma LeftHashesSnoc(p: seq<Element>, e: Element)
    ensures LeftHashes(p + [e]) == if e.direction == PathLeft then LeftHashes(p) + [e.hash] else LeftHashes(p)
  {
    assert (p + [e])[..|p|] == p;
  }

  ghost function Extras(ls: seq<Hash>, f: nat): seq<Hash>
    requires f < |ls|
  {
    LeftHashes(MPath(ls, f))
  }

  /** The serialisation of the tree over ls with f leaves flushed. */
  ghost function Encoding(ls: seq<Hash>, f: nat): seq<byte>
    requires f < |ls| || (f == 0 && ls == [])
  {
    U64(|ls| - f) + U64(f) + Concat(ls[f..]) + if ls == [] then [] else Concat(Extras(ls, f))
  }

  /** The hashes on the left edge do not depend on the leaves after a later one. */
  lemma {:induction false} ExtrasOfPrefix(ls: seq<Hash>, f: nat, last: nat)
    requires f <= last < |ls|
    ensures Extras(ls[..last + 1], f) == Extras(ls, f)
    decreases |ls|
  {
    hide MPath, Mth, LeftHashes;
    if |ls| == 1 {
      assert ls[..last + 1] == ls;
    } else {
      var m := Split(|ls|);
      PathUnfold(ls, f);
      PastPathStep(ls, f, last);
      if f < m {
        LeftHashesSnoc(MPath(ls[..m], f), Element(Mth(ls[m..]), PathRight));
        if last < m {
          ExtrasOfPrefix(ls[..m], f, last);
        } else {
          LeftHashesSnoc(MPath(ls[..m], f), Element(Mth(ls[m..][..last + 1 - m]), PathRight));
        }
      } else {
        ExtrasOfPrefix(ls[m..], f - m, last - m);
        LeftHashesSnoc(MPath(ls[m..], f - m), Element(Mth(ls[..m]), PathLeft));
        LeftHashesSnoc(MPath(ls[m..][..last - m + 1], f - m), Element(Mth(ls[..m]), PathLeft));
      }
    }
  }

  /** The same hashes by level: a block of w leaves for every odd it, from the lowest level up. */
  ghost function LevelExtras(ls: seq<Hash>, it: nat, w: nat): seq<Hash>
    requires it * w <= |ls| && w > 0
    decreases it
  {
    if it == 0 then []
    else
      HalfFits(it, w);
      (if it % 2 == 1 then [Mth(ls[(it - 1) * w..it * w])] else []) + LevelExtras(ls, it / 2, 2 * w)
  }

  lemma HalfFits(it: nat, w: nat)
    ensures (it / 2) * (2 * w) <= it * w
    ensures it > 0 ==> 0 <= (it - 1) * w && (it - 1) * w + w == it * w
  {
    var h := it / 2;
    assert h * (2 * w) == (2 * h) * w;
    assert (it - 2 * h) * w == it * w - (2 * h) * w;
  }

  lemma {:induction false} LevelExtrasOfPrefix(ls: seq<Hash>, m: nat, it: nat, w: nat)
    requires w > 0 && it * w <= m <= |ls|
    ensures LevelExtras(ls[..m], it, w) == LevelExtras(ls, it, w)
    decreases it
  {
    if it > 0 {
      HalfFits(it, w);
      LevelExtrasOfPrefix(ls, m, it / 2, 2 * w);
      assert ls[..m][(it - 1) * w..it * w] == ls[(it - 1) * w..it * w];
    }
  }

  /** With a leading block of e * w leaves, e a power of two, its hash comes last. */
  lemma {:induction false} LevelExtrasSplit(ls: seq<Hash>, it: nat, e: nat, w: nat, k: nat)
    requires w > 0 && e == Pow2(k) && it < e && (e + it) * w <= |ls|
    ensures e * w + it * w == (e + it) * w && 0 < e * w
    ensures LevelExtras(ls, e + it, w) == LevelExtras(ls[e * w..], it, w) + [Mth(ls[..e * w])]
    decreases k
  {
    hide Mth, LevelExtras, Pow2;
    BlockArithmetic(it, e, w);
    if k == 0 {
      Pow2Zero();
      LevelExtrasZero(ls, w);
      LevelExtrasZero(ls[w..], w);
    } else {
      var half, h := Pow2(k - 1), it / 2;
      Pow2Step(k);
      HalfFits(e + it, w);
      HalfFits(it, w);
      assert half * (2 * w) == e * w;
      LevelExtrasSplit(ls, h, half, 2 * w, k - 1);
      LevelExtrasStep(ls, e + it, w);
      if it > 0 {
        LevelExtrasStep(ls[e * w..], it, w);
        BlockShift(ls, it, e, w);
      } else {
        LevelExtrasZero(ls[e * w..], w);
      }
    }
  }

  lemma Pow2Zero()
    ensures Pow2(0) == 1
  {
  }

  lemma Pow2Step(k: nat)
    requires k > 0
    ensures Pow2(k) == 2 * Pow2(k - 1)
  {
  }

  lemma BlockArithmetic(it: nat, e: nat, w: nat)
    requires w > 0
    ensures e * w + it * w == (e + it) * w
    ensures e > 0 ==> e * w > 0
    ensures it > 0 ==> (it - 1) * w + w == it * w && (e + it - 1) * w == e * w + (it - 1) * w
  {
  }

  lemma BlockShift(ls: seq<Hash>, it: nat, e: nat, w: nat)
    requires w > 0 && it > 0 && (e + it) * w <= |ls|
    ensures 0 <= (it - 1) * w <= it * w <= |ls| - e * w && 0 <= (e + it - 1) * w <= (e + it) * w && 0 <= e * w
    ensures ls[(e + it - 1) * w..(e + it) * w] == ls[e * w..][(it - 1) * w..it * w]
  {
    BlockArithmetic(it, e, w);
  }

  lemma LevelExtrasStep(ls: seq<Hash>, it: nat, w: nat)
    requires it > 0 && it * w <= |ls| && w > 0
    ensures (it / 2) * (2 * w) <= it * w && 0 <= (it - 1) * w <= it * w
    ensures LevelExtras(ls, it, w) ==
            (if it % 2 == 1 then [Mth(ls[(it - 1) * w..it * w])] else []) + LevelExtras(ls, it / 2, 2 * w)
  {
    HalfFits(it, w);
  }

  lemma LevelExtrasZero(ls: seq<Hash>, w: nat)
    requires w > 0
    ensures LevelExtras(ls, 0, w) == [] && LevelExtras(ls, 0, 2 * w) == []
    ensures w <= |ls| ==> LevelExtras(ls, 1, w) == [Mth(ls[..w])]
  {
    assert w <= |ls| ==> ls[(1 - 1) * w..1 * w] == ls[..w];
  }

  /** The walk to leaf f and the bits of f name the same hashes. */
  lemma {:induction false} ExtrasByLevel(ls: seq<Hash>, f: nat)
    requires f < |ls|
    ensures Extras(ls, f) == LevelExtras(ls, f, 1)
    decreases |ls|
  {
    hide MPath, Mth, LeftHashes, LevelExtras;
    if |ls| == 1 {
      SingleLeaf(ls);
      LevelExtrasZero(ls, 1);
      LeftHashesNone();
    } else {
      var m := Split(|ls|);
      PathUnfold(ls, f);
      if f < m {
        ExtrasByLevel(ls[..m], f);
        LeftHashesSnoc(MPath(ls[..m], f), Element(Mth(ls[m..]), PathRight));
        LevelExtrasOfPrefix(ls, m, f, 1);
      } else {
        ExtrasByLevel(ls[m..], f - m);
        LeftHashesSnoc(MPath(ls[m..], f - m), Element(Mth(ls[..m]), PathLeft));
        SplitIsPow2(|ls|);
        LevelExtrasSplit(ls, f - m, m, 1, CeilLog(m));
      }
    }
  }

  lemma LeftHashesNone()
    ensures LeftHashes([]) == []
  {
  }

  /** What flushing keeps is enough: live leaves and left edge determine the root and every live path. */
  lemma {:induction false} EdgeDeterminesTree(a: seq<Hash>, b: seq<Hash>, f: nat, i: nat)
    requires f <= i < |a| == |b| && a[f..] == b[f..] && Extras(a, f) == Extras(b, f)
    ensures Mth(a) == Mth(b) && MPath(a, i) == MPath(b, i)
    decreases |a|
  {
    hide MPath, Mth, LeftHashes;
    if |a| == 1 {
      assert a == a[f..] && b == b[f..];
    } else {
      var m := Split(|a|);
      MthUnfold(a);
      MthUnfold(b);
      PathUnfold(a, f);
      PathUnfold(b, f);
      PathUnfold(a, i);
      PathUnfold(b, i);
      if f < m {
        assert a[m..] == a[f..][m - f..] && b[m..] == b[f..][m - f..];
        assert a[..m][f..] == a[f..][..m - f] && b[..m][f..] == b[f..][..m - f];
        LeftHashesSnoc(MPath(a[..m], f), Element(Mth(a[m..]), PathRight));
        LeftHashesSnoc(MPath(b[..m], f), Element(Mth(b[m..]), PathRight));
        EdgeDeterminesTree(a[..m], b[..m], f, if i < m then i else f);
      } else {
        assert a[m..][f - m..] == a[f..] && b[m..][f - m..] == b[f..];
        LeftHashesSnoc(MPath(a[m..], f - m), Element(Mth(a[..m]), PathLeft));
        LeftHashesSnoc(MPath(b[m..], f - m), Element(Mth(b[..m]), PathLeft));
        LastOf(LeftHashes(MPath(a[m..], f - m)), Mth(a[..m]), LeftHashes(MPath(b[m..], f - m)), Mth(b[..m]));
        EdgeDeterminesTree(a[m..], b[m..], f - m, i - m);
      }
    }
  }

  lemma LastOf(a: seq<Hash>, x: Hash, b: seq<Hash>, y: Hash)
    requires a + [x] == b + [y]
    ensures a == b && x == y
  {
    assert (a + [x])[..|a|] == a && (b + [y])[..|b|] == b;
    assert (a + [x])[|a|] == x && (b + [y])[|b|] == y;
  }
}
