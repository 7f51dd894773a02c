/**
 The fill loop of Argon2: which block each block refers to, with the wrap-around of 32-bit words, and why
 the lanes of a slice can be filled in any order.
 */
module Argon {
  import opened Powers
  import opened Words
  import opened Bits

  /** A block of 128 words; only its first word is looked at here. */
  type Block = b: seq<u64> | |b| == 128 witness seq(128, i => 0)

  /** The new block from the previous one and the reference, in the first pass; later the old block is mixed in. */
  const MixFirst: (Block, Block) -> Block
  const MixAgain: (Block, Block, Block) -> Block

  /** Word number block % 128 of the deterministic index blocks. */
  const IndexSeed: (nat, nat, nat, nat) -> u64

  /** 0 is Argon2d, 1 is Argon2i, 2 is Argon2id. */
  datatype Config = Config(lanes: nat, segment: nat, passes: nat, algorithm: nat) {
    ghost predicate Ok() {
      lanes > 0 && segment >= 2 && lanes * (4 * segment) < TWO_32 && 4 * segment < TWO_32
    }

    function LaneSize(): nat {
      4 * segment
    }
  }

  /** Where the fill loop is. */
  datatype Place = Place(pass: nat, slice: nat, lane: nat, block: nat) {
    predicate In(c: Config) {
      slice < 4 && lane < c.lanes && block < c.segment && (pass == 0 && slice == 0 ==> block >= 2)
    }

    function Position(c: Config): nat {
      slice * c.segment + block
    }

    /** The block before, around the lane. */
    function Previous(c: Config): int {
      if block == 0 && slice == 0 then c.LaneSize() - 1 else Position(c) - 1
    }

    function WindowSize(c: Config, refLane: nat): u32
      requires c.segment * 3 < TWO_32
    {
      var segments := if pass == 0 then slice else 3;
      var last := if refLane == lane then (block - 1) % TWO_32 else if block == 0 then TWO_32 - 1 else 0;
      (segments * c.segment + last) % TWO_32
    }

    function WindowStart(c: Config): nat {
      if pass == 0 then 0 else (slice + 1) % 4 * c.segment
    }

    function RefLane(c: Config, seed: u64): nat
      requires c.lanes > 0
    {
      if pass == 0 && slice == 0 then lane else seed / TWO_32 % c.lanes
    }
  }

  /** Position of the reference in the window: the product with the squared low half of the seed. */
  function Selector(window: u32, seed: u64): int {
    var j1 := seed % TWO_32;
    var x := j1 * j1 / TWO_32;
    var y := window * x / TWO_32;
    window - 1 - y
  }

  function RefPosition(c: Config, p: Place, seed: u64): nat
    requires c.Ok() && p.In(c)
  {
    SelectorRange(p.WindowSize(c, p.RefLane(c, seed)), seed);
    WindowIs(c, p, p.RefLane(c, seed));
    (p.WindowStart(c) + Selector(p.WindowSize(c, p.RefLane(c, seed)), seed)) % c.LaneSize()
  }

  lemma SelectorRange(window: u32, seed: u64)
    ensures window > 0 ==> 0 <= Selector(window, seed) < window
  {
    var j1 := seed % TWO_32;
    MulMonotone(j1, j1, TWO_32 - 1);
    MulMonotone(TWO_32 - 1, j1, TWO_32 - 1);
    var x := j1 * j1 / TWO_32;
    assert x < TWO_32;
    if window > 0 {
      MulMonotone(window, x, TWO_32 - 1);
      MulMonotone(window, 0, x);
      Below(window, window * x);
    }
  }

  lemma Below(window: nat, product: nat)
    requires window > 0 && product <= window * (TWO_32 - 1)
    ensures 0 <= product / TWO_32 < window
  {
    assert window * (TWO_32 - 1) < window * TWO_32;
    DivMod(product, TWO_32);
  }

  /** The selector counts back from the end of the window, by the window times the square of the low half, in units of 2^64. */
  lemma SelectorCounts(window: u32, seed: u64)
    ensures var j1, d := seed % TWO_32, window - 1 - Selector(window, seed);
            d * TWO_32 * TWO_32 <= window * j1 * j1 < (d + 1) * TWO_32 * TWO_32 + window * TWO_32
  {
    var j1 := seed % TWO_32;
    var q := j1 * j1;
    DivMod(q, TWO_32);
    DivMod(window * (q / TWO_32), TWO_32);
    CountBack(window, q, q / TWO_32, window * (q / TWO_32) / TWO_32);
    assert window * j1 * j1 == window * q by { MulAssoc(window, j1, j1); }
  }

  lemma CountBack(w: nat, q: nat, x: nat, d: nat)
    requires x * TWO_32 <= q < x * TWO_32 + TWO_32 && d * TWO_32 <= w * x < d * TWO_32 + TWO_32
    ensures d * TWO_32 * TWO_32 <= w * q < (d + 1) * TWO_32 * TWO_32 + w * TWO_32
  {
    MulMonotone(w, x * TWO_32, q);
    MulMonotone(w, q, x * TWO_32 + TWO_32);
    MulDistribute(w, x * TWO_32, TWO_32);
    MulAssoc(w, x, TWO_32);
  }

  /** Both divisions round down. */
  lemma SelectorIs(window: u32, seed: u64, x: nat)
    requires var j1 := seed % TWO_32; x * TWO_32 <= j1 * j1 < (x + 1) * TWO_32
    ensures var d := window - 1 - Selector(window, seed); d * TWO_32 <= window * x < (d + 1) * TWO_32
  {
    var q: nat := seed % TWO_32 * (seed % TWO_32);
    DivModUnique(q, TWO_32, x, q - x * TWO_32);
    DivMod(window * x, TWO_32);
  }

  /** A zero low half selects the end of the window, and a larger one never selects anything nearer to it. */
  lemma SelectorFalls(window: u32, seed: u64, other: u64)
    requires seed % TWO_32 <= other % TWO_32
    ensures Selector(window, seed) >= Selector(window, other)
    ensures seed % TWO_32 == 0 ==> Selector(window, seed) == window - 1
  {
    var j, k := seed % TWO_32, other % TWO_32;
    MulMonotone(j, j, k);
    MulMonotone(k, j, k);
    QuotientGrows(j * j, k * k);
    MulMonotone(window, j * j / TWO_32, k * k / TWO_32);
    QuotientGrows(window * (j * j / TWO_32), window * (k * k / TWO_32));
  }

  lemma QuotientGrows(a: nat, b: nat)
    requires a <= b
    ensures a / TWO_32 <= b / TWO_32
  {
  }

  /** The window never wraps around 2^32, and is never empty. */
  lemma WindowIs(c: Config, p: Place, refLane: nat)
    requires c.Ok() && p.In(c)
    requires p.pass == 0 && p.slice == 0 ==> refLane == p.lane
    ensures c.segment * 3 < TWO_32
    ensures 0 < p.WindowSize(c, refLane) ==
            (if p.pass == 0 then p.slice * c.segment else 3 * c.segment) + (if refLane == p.lane then p.block - 1 else if p.block == 0 then -1 else 0)
  {
    var s := if p.pass == 0 then p.slice else 3;
    SegmentBound(c);
    Finished(c.segment, s);
    WindowArith(c.segment, s * c.segment, p.block, refLane == p.lane);
  }

  lemma Finished(segment: nat, s: nat)
    requires s <= 3
    ensures s * segment <= 3 * segment && (s == 0 || s * segment >= segment) && (s == 0 ==> s * segment == 0)
  {
    MulMonotone(segment, s, 3);
    if s > 0 {
      MulMonotone(segment, 1, s);
    }
  }

  /** m is the size of the finished segments. */
  lemma WindowArith(seg: nat, m: nat, block: nat, own: bool)
    requires seg >= 2 && 4 * seg < TWO_32 && block < seg && m <= 3 * seg && (m >= seg || (m == 0 && own && block >= 2))
    ensures var last := if own then (block - 1) % TWO_32 else if block == 0 then TWO_32 - 1 else 0;
            0 < (m + last) % TWO_32 == m + (if own then block - 1 else if block == 0 then -1 else 0)
  {
    WrapAdd(m, if own then block - 1 else if block == 0 then -1 else 0);
  }

  lemma SegmentBound(c: Config)
    requires c.Ok()
    ensures 4 * c.segment < TWO_32
  {
  }

  lemma WrapAdd(a: nat, d: int)
    requires -1 <= d < TWO_32 && 0 <= a + d < TWO_32
    ensures (a + d % TWO_32) % TWO_32 == a + d
    ensures d == -1 ==> (a + (TWO_32 - 1)) % TWO_32 == a - 1
  {
  }

  /**
   The reference block lies in the work area, is neither the current nor the previous block of its lane, is
   not in the slice that is being filled of another lane, and in the first pass has been filled before.
   */
  lemma ReferenceIsSafe(c: Config, p: Place, seed: u64)
    requires c.Ok() && p.In(c)
    ensures var lane, pos := p.RefLane(c, seed), RefPosition(c, p, seed);
            && lane < c.lanes && pos < c.LaneSize()
            && (lane == p.lane ==> pos != p.Position(c) && pos != p.Previous(c))
            && (lane != p.lane ==> pos / c.segment != p.slice)
            && (p.pass == 0 ==> pos < if lane == p.lane then p.Position(c) else p.slice * c.segment)
  {
    var lane := p.RefLane(c, seed);
    WindowIs(c, p, lane);
    SelectorRange(p.WindowSize(c, lane), seed);
    var z := Selector(p.WindowSize(c, lane), seed);
    if p.pass == 0 {
      FirstPass(c.segment, p.slice, p.block, z, lane == p.lane);
    } else {
      LaterPass(c.segment, p.slice, p.block, z, lane == p.lane);
    }
  }

  lemma FirstPass(s: nat, slice: nat, block: nat, z: nat, own: bool)
    requires s >= 2 && slice < 4 && block < s && z < slice * s + (if own then block - 1 else 0)
    ensures z % (4 * s) == z && (own ==> z < slice * s + block - 1)
    ensures !own ==> z / s != slice
  {
    MulMonotone(s, slice, 3);
    DivModUnique(z, 4 * s, 0, z);
    OutsideSlice(z, s, slice);
  }

  lemma OutsideSlice(pos: nat, s: nat, slice: nat)
    requires s > 0
    ensures pos / s == slice <==> slice * s <= pos < slice * s + s
  {
    DivMod(pos, s);
    if slice * s <= pos < slice * s + s {
      DivModUnique(pos, s, slice, pos - s * slice);
    }
  }

  lemma LaterPass(s: nat, slice: nat, block: nat, z: nat, own: bool)
    requires s >= 2 && slice < 4 && block < s && z < 3 * s + (if own then block - 1 else 0)
    ensures var pos := ((slice + 1) % 4 * s + z) % (4 * s);
            && pos < 4 * s
            && (own ==> pos != slice * s + block && pos != (if block == 0 && slice == 0 then 4 * s - 1 else slice * s + block - 1))
            && (!own ==> pos / s != slice)
  {
    var w := (slice + 1) % 4;
    var sum := w * s + z;
    var pos := if sum < 4 * s then sum else sum - 4 * s;
    assert slice == 0 || slice == 1 || slice == 2 || slice == 3;
    DivModUnique(sum, 4 * s, if sum < 4 * s then 0 else 1, pos);
    OutsideSlice(pos, s, slice);
  }

  /**
   Which block is referred to.  The high half of the seed gives the lane, except in the first slice of all, which stays in its
   own lane.  There are n blocks to choose from: those of the segments in view, without the previous block of the own lane, or
   without the last one of another lane if the segment has just begun.  The low half of the seed says how far to go back from
   the newest of them, around the lane: by n times its square over 2^64, rounded down after each of two divisions by 2^32.
   */
  lemma ReferenceIs(c: Config, p: Place, seed: u64) returns (d: nat)
    requires c.Ok() && p.In(c)
    ensures p.RefLane(c, seed) == if p.pass == 0 && p.slice == 0 then p.lane else seed / TWO_32 % c.lanes
    ensures var j1 := seed % TWO_32;
            var last := if p.RefLane(c, seed) == p.lane then p.block - 1 else if p.block == 0 then -1 else 0;
            var n := (if p.pass == 0 then p.slice else 3) * c.segment + last;
            && d < n && RefPosition(c, p, seed) == (p.slice * c.segment + last - 1 - d) % (4 * c.segment)
            && d * TWO_32 * TWO_32 <= n * j1 * j1 < (d + 1) * TWO_32 * TWO_32 + n * TWO_32
            && (forall x: nat | x * TWO_32 <= j1 * j1 < (x + 1) * TWO_32 :: d * TWO_32 <= n * x < (d + 1) * TWO_32)
            && (j1 == 0 ==> d == 0)
  {
    hide Selector;
    var lane := p.RefLane(c, seed);
    WindowIs(c, p, lane);
    var n := p.WindowSize(c, lane);
    d := Distance(n, seed);
    CountedAround(c, p, lane, n, d);
  }

  /** How far the selector goes back. */
  lemma Distance(window: u32, seed: u64) returns (d: nat)
    requires window > 0
    ensures var j1 := seed % TWO_32;
            && d < window && Selector(window, seed) == window - 1 - d
            && d * TWO_32 * TWO_32 <= window * j1 * j1 < (d + 1) * TWO_32 * TWO_32 + window * TWO_32
            && (forall x: nat | x * TWO_32 <= j1 * j1 < (x + 1) * TWO_32 :: d * TWO_32 <= window * x < (d + 1) * TWO_32)
            && (j1 == 0 ==> d == 0)
  {
    hide Selector;
    SelectorRange(window, seed);
    SelectorCounts(window, seed);
    SelectorFalls(window, seed, seed);
    d := window - 1 - Selector(window, seed);
    var j1 := seed % TWO_32;
    forall x: nat | x * TWO_32 <= j1 * j1 < (x + 1) * TWO_32 ensures d * TWO_32 <= window * x < (d + 1) * TWO_32 {
      SelectorIs(window, seed, x);
    }
  }

  lemma CountedAround(c: Config, p: Place, refLane: nat, n: nat, d: nat)
    requires c.Ok() && p.In(c) && d < n
    requires n == (if p.pass == 0 then p.slice else 3) * c.segment
                + (if refLane == p.lane then p.block - 1 else if p.block == 0 then -1 else 0)
    ensures var last := if refLane == p.lane then p.block - 1 else if p.block == 0 then -1 else 0;
            (p.WindowStart(c) + (n - 1 - d)) % c.LaneSize() == (p.slice * c.segment + last - 1 - d) % (4 * c.segment)
  {
    var last := if refLane == p.lane then p.block - 1 else if p.block == 0 then -1 else 0;
    if p.pass != 0 {
      AroundLane(c.segment, p.slice, last - 1 - d);
    }
  }

  /** Three segments on from the next slice is the slice itself. */
  lemma AroundLane(s: nat, slice: nat, z: int)
    requires s > 0 && slice < 4 && 3 * s + z >= 0
    ensures ((slice + 1) % 4 * s + (3 * s + z)) % (4 * s) == (slice * s + z) % (4 * s)
  {
    var a := slice * s + z;
    if slice == 3 {
    } else {
      assert (slice + 1) % 4 * s + (3 * s + z) == a + 4 * s;
      WholeTurn(a, 4 * s);
    }
  }

  lemma WholeTurn(a: int, n: nat)
    requires n > 0
    ensures (a + n) % n == a % n
  {
    DivModUnique(a + n, n, a / n + 1, a % n);
  }

  // Filling

  /** Constant-time indexing, which Argon2id gives up after the first two slices. */
  predicate ConstantTime(c: Config, pass: nat, slice: nat) {
    c.algorithm != 0 && !(c.algorithm == 2 && (pass > 0 || slice >= 2))
  }

  function Index(c: Config, lane: nat, pos: nat): nat {
    lane * c.LaneSize() + pos
  }

  ghost predicate Area(c: Config, bs: seq<Block>) {
    c.Ok() && |bs| == c.lanes * c.LaneSize()
  }

  lemma IndexFits(c: Config, lane: nat, pos: nat)
    requires c.Ok() && lane < c.lanes && pos < c.LaneSize()
    ensures Index(c, lane, pos) < c.lanes * c.LaneSize()
  {
    MulMonotone(c.LaneSize(), lane + 1, c.lanes);
    MulAssoc(c.LaneSize(), lane + 1, 0);
    MulDistribute(c.LaneSize(), lane, 1);
  }

  lemma IndexUnique(c: Config, lane: nat, pos: nat, lane': nat, pos': nat)
    requires c.Ok() && pos < c.LaneSize() && pos' < c.LaneSize() && Index(c, lane, pos) == Index(c, lane', pos')
    ensures lane == lane' && pos == pos'
  {
    DivModUnique(Index(c, lane, pos), c.LaneSize(), lane, pos);
    DivModUnique(Index(c, lane, pos), c.LaneSize(), lane', pos');
  }

  function At(c: Config, bs: seq<Block>, lane: nat, pos: nat): Block
    requires c.Ok() && |bs| == c.lanes * c.LaneSize() && lane < c.lanes && pos < c.LaneSize()
  {
    IndexFits(c, lane, pos);
    bs[Index(c, lane, pos)]
  }

  lemma PlaceFits(c: Config, p: Place)
    requires c.Ok() && p.In(c)
    ensures 0 <= p.Previous(c) < c.LaneSize() && p.Position(c) < c.LaneSize()
    ensures p.Position(c) / c.segment == p.slice
  {
    MulMonotone(c.segment, p.slice, 3);
    if p.slice > 0 { MulMonotone(c.segment, 1, p.slice); }
    DivModUnique(p.Position(c), c.segment, p.slice, p.block);
  }

  function SeedOf(c: Config, bs: seq<Block>, p: Place): u64
    requires c.Ok() && |bs| == c.lanes * c.LaneSize() && p.In(c)
  {
    PlaceFits(c, p);
    if ConstantTime(c, p.pass, p.slice) then IndexSeed(p.pass, p.lane, p.slice, p.block) else At(c, bs, p.lane, p.Previous(c))[0]
  }

  /** The block that goes to place p. */
  function NewBlock(c: Config, bs: seq<Block>, p: Place): Block
    requires c.Ok() && |bs| == c.lanes * c.LaneSize() && p.In(c)
  {
    PlaceFits(c, p);
    var seed := SeedOf(c, bs, p);
    ReferenceIsSafe(c, p, seed);
    var previous := At(c, bs, p.lane, p.Previous(c));
    var reference := At(c, bs, p.RefLane(c, seed), RefPosition(c, p, seed));
    if p.pass == 0 then MixFirst(previous, reference)
    else MixAgain(previous, reference, At(c, bs, p.lane, p.Position(c)))
  }

  function FillBlock(c: Config, bs: seq<Block>, p: Place): (r: seq<Block>)
    requires c.Ok() && |bs| == c.lanes * c.LaneSize() && p.In(c)
    ensures |r| == |bs|
  {
    PlaceFits(c, p);
    IndexFits(c, p.lane, p.Position(c));
    bs[Index(c, p.lane, p.Position(c)) := NewBlock(c, bs, p)]
  }

  /** On the first slice of the first pass, blocks 0 and 1 are already filled. */
  function Offset(pass: nat, slice: nat): nat {
    if pass == 0 && slice == 0 then 2 else 0
  }

  /** The blocks below n of a segment. */
  function FillSegment(c: Config, bs: seq<Block>, pass: nat, slice: nat, lane: nat, n: nat): (r: seq<Block>)
    requires c.Ok() && |bs| == c.lanes * c.LaneSize() && slice < 4 && lane < c.lanes && n <= c.segment
    ensures |r| == |bs|
    decreases n
  {
    if n <= Offset(pass, slice) then bs
    else FillBlock(c, FillSegment(c, bs, pass, slice, lane, n - 1), Place(pass, slice, lane, n - 1))
  }

  /** The segments of a slice, lane by lane in the given order. */
  function FillSlice(c: Config, bs: seq<Block>, pass: nat, slice: nat, order: seq<nat>): (r: seq<Block>)
    requires c.Ok() && |bs| == c.lanes * c.LaneSize() && slice < 4 && forall i | 0 <= i < |order| :: order[i] < c.lanes
    ensures |r| == |bs|
    decreases |order|
  {
    if order == [] then bs
    else
      var m := |order| - 1;
      FillSegment(c, FillSlice(c, bs, pass, slice, order[..m]), pass, slice, order[m], c.segment)
  }

  // The lanes of a slice are independent

  /** bs and cs agree except in the slices that other lanes are filling. */
  ghost predicate AgreeFor(c: Config, bs: seq<Block>, cs: seq<Block>, slice: nat, lane: nat) {
    && Area(c, bs) && Area(c, cs)
    && forall l, pos | 0 <= l < c.lanes && 0 <= pos < c.LaneSize() && (l == lane || pos / c.segment != slice) ::
         At(c, bs, l, pos) == At(c, cs, l, pos)
  }

  lemma FillBlockAt(c: Config, bs: seq<Block>, p: Place, l: nat, pos: nat)
    requires Area(c, bs) && p.In(c) && l < c.lanes && pos < c.LaneSize()
    ensures At(c, FillBlock(c, bs, p), l, pos)
         == if l == p.lane && pos == p.Position(c) then NewBlock(c, bs, p) else At(c, bs, l, pos)
  {
    hide NewBlock;
    PlaceFits(c, p);
    IndexFits(c, l, pos);
    if Index(c, l, pos) == Index(c, p.lane, p.Position(c)) {
      IndexUnique(c, l, pos, p.lane, p.Position(c));
    }
  }

  /** A block depends only on what its lane may see. */
  lemma NewBlockLocal(c: Config, bs: seq<Block>, cs: seq<Block>, p: Place)
    requires AgreeFor(c, bs, cs, p.slice, p.lane) && p.In(c)
    ensures NewBlock(c, bs, p) == NewBlock(c, cs, p)
  {
    hide At, RefPosition;
    PlaceFits(c, p);
    ReferenceIsSafe(c, p, SeedOf(c, bs, p));
  }

  lemma {:induction false} SegmentLocal(c: Config, bs: seq<Block>, cs: seq<Block>, pass: nat, slice: nat, lane: nat, n: nat)
    requires AgreeFor(c, bs, cs, slice, lane) && slice < 4 && lane < c.lanes && n <= c.segment
    ensures AgreeFor(c, FillSegment(c, bs, pass, slice, lane, n), FillSegment(c, cs, pass, slice, lane, n), slice, lane)
    decreases n
  {
    hide NewBlock, FillBlock, At;
    if n > Offset(pass, slice) {
      SegmentLocal(c, bs, cs, pass, slice, lane, n - 1);
      var b1, c1 := FillSegment(c, bs, pass, slice, lane, n - 1), FillSegment(c, cs, pass, slice, lane, n - 1);
      var p := Place(pass, slice, lane, n - 1);
      NewBlockLocal(c, b1, c1, p);
      forall l, pos | 0 <= l < c.lanes && 0 <= pos < c.LaneSize() && (l == lane || pos / c.segment != slice)
        ensures At(c, FillBlock(c, b1, p), l, pos) == At(c, FillBlock(c, c1, p), l, pos)
      {
        FillBlockAt(c, b1, p, l, pos);
        FillBlockAt(c, c1, p, l, pos);
      }
    }
  }

  /** A segment writes only its own slice of its own lane. */
  lemma {:induction false} SegmentWrites(c: Config, bs: seq<Block>, pass: nat, slice: nat, lane: nat, n: nat, l: nat, pos: nat)
    requires Area(c, bs) && slice < 4 && lane < c.lanes && n <= c.segment && l < c.lanes && pos < c.LaneSize()
    requires l != lane || pos / c.segment != slice
    ensures At(c, FillSegment(c, bs, pass, slice, lane, n), l, pos) == At(c, bs, l, pos)
    decreases n
  {
    hide NewBlock, FillBlock, At;
    if n > Offset(pass, slice) {
      SegmentWrites(c, bs, pass, slice, lane, n - 1, l, pos);
      var p := Place(pass, slice, lane, n - 1);
      PlaceFits(c, p);
      FillBlockAt(c, FillSegment(c, bs, pass, slice, lane, n - 1), p, l, pos);
    }
  }

  /** Filling a slice: every lane gets what it would get alone. */
  lemma {:induction false} SliceResult(c: Config, bs: seq<Block>, pass: nat, slice: nat, order: seq<nat>, l: nat, pos: nat)
    requires Area(c, bs) && slice < 4 && (forall i | 0 <= i < |order| :: order[i] < c.lanes)
    requires forall i, j | 0 <= i < j < |order| :: order[i] != order[j]
    requires l < c.lanes && pos < c.LaneSize()
    ensures At(c, FillSlice(c, bs, pass, slice, order), l, pos)
         == if l in order && pos / c.segment == slice then At(c, FillSegment(c, bs, pass, slice, l, c.segment), l, pos) else At(c, bs, l, pos)
    decreases |order|
  {
    hide FillSegment, At;
    if order != [] {
      var m := |order| - 1;
      var front, lane := order[..m], order[m];
      var r := FillSlice(c, bs, pass, slice, front);
      assert order == front + [lane];
      SliceResult(c, bs, pass, slice, front, l, pos);
      if l == lane && pos / c.segment == slice {
        forall l', pos' | 0 <= l' < c.lanes && 0 <= pos' < c.LaneSize() && (l' == lane || pos' / c.segment != slice)
          ensures At(c, r, l', pos') == At(c, bs, l', pos')
        {
          SliceResult(c, bs, pass, slice, front, l', pos');
        }
        SegmentLocal(c, r, bs, pass, slice, lane, c.segment);
      } else {
        SegmentWrites(c, r, pass, slice, lane, c.segment, l, pos);
      }
    }
  }

  /** The lanes of a slice can be filled in any order, as threads would. */
  lemma AnyOrder(c: Config, bs: seq<Block>, pass: nat, slice: nat, order: seq<nat>, other: seq<nat>)
    requires Area(c, bs) && slice < 4
    requires (forall i | 0 <= i < |order| :: order[i] < c.lanes) && (forall i | 0 <= i < |other| :: other[i] < c.lanes)
    requires forall i, j | 0 <= i < j < |order| :: order[i] != order[j]
    requires forall i, j | 0 <= i < j < |other| :: other[i] != other[j]
    requires forall l :: l in order <==> l in other
    ensures FillSlice(c, bs, pass, slice, order) == FillSlice(c, bs, pass, slice, other)
  {
    hide FillSegment, FillSlice, At;
    var r, s := FillSlice(c, bs, pass, slice, order), FillSlice(c, bs, pass, slice, other);
    forall l, pos | 0 <= l < c.lanes && 0 <= pos < c.LaneSize() ensures At(c, r, l, pos) == At(c, s, l, pos) {
      SliceResult(c, bs, pass, slice, order, l, pos);
      SliceResult(c, bs, pass, slice, other, l, pos);
    }
    SameEverywhere(c, r, s);
  }

  lemma SameEverywhere(c: Config, r: seq<Block>, s: seq<Block>)
    requires Area(c, r) && Area(c, s)
    requires forall l, pos | 0 <= l < c.lanes && 0 <= pos < c.LaneSize() :: At(c, r, l, pos) == At(c, s, l, pos)
    ensures r == s
  {
    hide At, Config.LaneSize, Index;
    forall i | 0 <= i < |r| ensures r[i] == s[i] {
      var l, pos := Locate(c, i);
      AtIs(c, r, l, pos);
      AtIs(c, s, l, pos);
    }
  }

  lemma AtIs(c: Config, r: seq<Block>, l: nat, pos: nat)
    requires Area(c, r) && l < c.lanes && pos < c.LaneSize()
    ensures Index(c, l, pos) < |r| && At(c, r, l, pos) == r[Index(c, l, pos)]
  {
    IndexFits(c, l, pos);
  }

  lemma Locate(c: Config, i: nat) returns (l: nat, pos: nat)
    requires c.Ok() && i < c.lanes * c.LaneSize()
    ensures l < c.lanes && pos < c.LaneSize() && Index(c, l, pos) == i
  {
    var size := c.LaneSize();
    hide Config.LaneSize;
    l, pos := Divide(i, size, c.lanes);
  }

  lemma Divide(i: nat, size: nat, lanes: nat) returns (l: nat, pos: nat)
    requires size > 0 && i < lanes * size
    ensures l < lanes && pos < size && l * size + pos == i
  {
    l, pos := i / size, i % size;
    DivMod(i, size);
    LaneBelow(i, size, lanes);
  }

  lemma LaneBelow(i: nat, size: nat, lanes: nat)
    requires size > 0 && i < lanes * size
    ensures i / size < lanes
  {
    DivMod(i, size);
    if i / size >= lanes {
      MulMonotone(size, lanes, i / size);
    }
  }

  // The first pass reads only what has been filled

  /** How much of a lane is filled before block n of lane k in slice s of the first pass. */
  function Bound(c: Config, s: nat, k: nat, n: nat, l: nat): nat {
    if l < k then (s + 1) * c.segment else if l == k then s * c.segment + n else if s == 0 then 2 else s * c.segment
  }

  /** Two areas agree on everything filled so far. */
  ghost predicate SameFilled(c: Config, bs: seq<Block>, cs: seq<Block>, s: nat, k: nat, n: nat) {
    && Area(c, bs) && Area(c, cs)
    && forall l, pos | 0 <= l < c.lanes && 0 <= pos < c.LaneSize() && pos < Bound(c, s, k, n, l) :: At(c, bs, l, pos) == At(c, cs, l, pos)
  }

  lemma BoundCovers(c: Config, p: Place, seed: u64)
    requires c.Ok() && p.In(c) && p.pass == 0
    ensures 0 <= p.Previous(c) < Bound(c, p.slice, p.lane, p.block, p.lane)
    ensures RefPosition(c, p, seed) < Bound(c, p.slice, p.lane, p.block, p.RefLane(c, seed))
  {
    hide RefPosition;
    PlaceFits(c, p);
    ReferenceIsSafe(c, p, seed);
    if p.slice > 0 { MulMonotone(c.segment, 1, p.slice); }
    MulDistribute(c.segment, p.slice, 1);
  }

  lemma FirstPassBlock(c: Config, bs: seq<Block>, cs: seq<Block>, p: Place)
    requires p.In(c) && p.pass == 0 && SameFilled(c, bs, cs, p.slice, p.lane, p.block)
    ensures SameFilled(c, FillBlock(c, bs, p), FillBlock(c, cs, p), p.slice, p.lane, p.block + 1)
  {
    hide At, RefPosition, FillBlock;
    NewBlockFilled(c, bs, cs, p);
    forall l, pos | 0 <= l < c.lanes && 0 <= pos < c.LaneSize() && pos < Bound(c, p.slice, p.lane, p.block + 1, l)
      ensures At(c, FillBlock(c, bs, p), l, pos) == At(c, FillBlock(c, cs, p), l, pos)
    {
      FillBlockAt(c, bs, p, l, pos);
      FillBlockAt(c, cs, p, l, pos);
    }
  }

  lemma NewBlockFilled(c: Config, bs: seq<Block>, cs: seq<Block>, p: Place)
    requires p.In(c) && p.pass == 0 && SameFilled(c, bs, cs, p.slice, p.lane, p.block)
    ensures NewBlock(c, bs, p) == NewBlock(c, cs, p)
  {
    hide At, RefPosition, Bound;
    PlaceFits(c, p);
    BoundCovers(c, p, SeedOf(c, bs, p));
    ReferenceIsSafe(c, p, SeedOf(c, bs, p));
  }

  lemma {:induction false} FirstPassSegment(c: Config, bs: seq<Block>, cs: seq<Block>, s: nat, k: nat, n: nat)
    requires s < 4 && k < c.lanes && Offset(0, s) <= n <= c.segment && SameFilled(c, bs, cs, s, k, Offset(0, s))
    ensures SameFilled(c, FillSegment(c, bs, 0, s, k, n), FillSegment(c, cs, 0, s, k, n), s, k, n)
    decreases n
  {
    hide FillBlock, SameFilled;
    AreaOf(c, bs, cs, s, k, Offset(0, s));
    if n > Offset(0, s) {
      FirstPassSegment(c, bs, cs, s, k, n - 1);
      FirstPassBlock(c, FillSegment(c, bs, 0, s, k, n - 1), FillSegment(c, cs, 0, s, k, n - 1), Place(0, s, k, n - 1));
    }
  }

  lemma AreaOf(c: Config, bs: seq<Block>, cs: seq<Block>, s: nat, k: nat, n: nat)
    requires SameFilled(c, bs, cs, s, k, n)
    ensures Area(c, bs) && Area(c, cs)
  {
  }

  /** All lanes in order. */
  function Lanes(k: nat): (r: seq<nat>)
    ensures |r| == k && forall i | 0 <= i < k :: r[i] == i
  {
    seq(k, i => i)
  }

  lemma LanesSnoc(k: nat)
    ensures Lanes(k + 1) != [] && Lanes(k + 1)[..k] == Lanes(k) && Lanes(k + 1)[k] == k
  {
  }

  lemma NextLane(c: Config, bs: seq<Block>, cs: seq<Block>, s: nat, k: nat)
    requires SameFilled(c, bs, cs, s, k, c.segment)
    ensures SameFilled(c, bs, cs, s, k + 1, Offset(0, s))
  {
    hide At;
    MulDistribute(c.segment, s, 1);
    if s > 0 { MulMonotone(c.segment, 1, s); }
  }

  lemma NextSlice(c: Config, bs: seq<Block>, cs: seq<Block>, s: nat)
    requires c.lanes > 0 && SameFilled(c, bs, cs, s, c.lanes, Offset(0, s))
    ensures SameFilled(c, bs, cs, s + 1, 0, 0)
  {
    hide At;
    assert forall l | 0 <= l < c.lanes :: Bound(c, s + 1, 0, 0, l) == Bound(c, s, c.lanes, Offset(0, s), l);
  }

  lemma {:induction false} FirstPassLanes(c: Config, bs: seq<Block>, cs: seq<Block>, s: nat, k: nat)
    requires s < 4 && k <= c.lanes && SameFilled(c, bs, cs, s, 0, Offset(0, s))
    ensures Area(c, bs) && Area(c, cs)
    ensures SameFilled(c, FillSlice(c, bs, 0, s, Lanes(k)), FillSlice(c, cs, 0, s, Lanes(k)), s, k, Offset(0, s))
  {
    hide SameFilled, FillSegment;
    AreaOf(c, bs, cs, s, 0, Offset(0, s));
    if k > 0 {
      FirstPassLanes(c, bs, cs, s, k - 1);
      LanesSnoc(k - 1);
      var b1, c1 := FillSlice(c, bs, 0, s, Lanes(k - 1)), FillSlice(c, cs, 0, s, Lanes(k - 1));
      FirstPassSegment(c, b1, c1, s, k - 1, c.segment);
      NextLane(c, FillSegment(c, b1, 0, s, k - 1, c.segment), FillSegment(c, c1, 0, s, k - 1, c.segment), s, k - 1);
    }
  }

  /** The slices below n of a pass. */
  function FillPass(c: Config, bs: seq<Block>, pass: nat, n: nat): (r: seq<Block>)
    requires c.Ok() && |bs| == c.lanes * c.LaneSize() && n <= 4
    ensures |r| == |bs|
  {
    if n == 0 then bs else FillSlice(c, FillPass(c, bs, pass, n - 1), pass, n - 1, Lanes(c.lanes))
  }

  /** The passes below n. */
  function FillAll(c: Config, bs: seq<Block>, n: nat): (r: seq<Block>)
    requires c.Ok() && |bs| == c.lanes * c.LaneSize()
    ensures |r| == |bs|
  {
    if n == 0 then bs else FillPass(c, FillAll(c, bs, n - 1), n - 1, 4)
  }

  lemma {:induction false} FirstPassSlices(c: Config, bs: seq<Block>, cs: seq<Block>, n: nat)
    requires n <= 4 && c.lanes > 0 && SameFilled(c, bs, cs, 0, 0, 2)
    ensures Area(c, bs) && Area(c, cs)
    ensures SameFilled(c, FillPass(c, bs, 0, n), FillPass(c, cs, 0, n), n, 0, Offset(0, n))
  {
    hide SameFilled, FillSlice;
    AreaOf(c, bs, cs, 0, 0, 2);
    if n > 0 {
      FirstPassSlices(c, bs, cs, n - 1);
      var b1, c1 := FillPass(c, bs, 0, n - 1), FillPass(c, cs, 0, n - 1);
      FirstPassLanes(c, b1, c1, n - 1, c.lanes);
      NextSlice(c, FillSlice(c, b1, 0, n - 1, Lanes(c.lanes)), FillSlice(c, c1, 0, n - 1, Lanes(c.lanes)), n - 1);
    }
  }

  /** After the first pass nothing of what the work area held before is left: only the first two blocks of each lane matter. */
  lemma {:induction false} OldContentsForgotten(c: Config, bs: seq<Block>, cs: seq<Block>, passes: nat)
    requires passes > 0 && c.lanes > 0 && SameFilled(c, bs, cs, 0, 0, 2)
    ensures Area(c, bs) && Area(c, cs) && FillAll(c, bs, passes) == FillAll(c, cs, passes)
  {
    AreaOf(c, bs, cs, 0, 0, 2);
    if passes == 1 {
      hide FillPass, At;
      FirstPassSlices(c, bs, cs, 4);
      assert FillAll(c, bs, 0) == bs && FillAll(c, cs, 0) == cs;
      var b1, c1 := FillPass(c, bs, 0, 4), FillPass(c, cs, 0, 4);
      assert forall l | 0 <= l < c.lanes :: Bound(c, 4, 0, 0, l) == c.LaneSize();
      SameEverywhere(c, b1, c1);
    } else {
      OldContentsForgotten(c, bs, cs, passes - 1);
    }
  }

  /** The fill loop, in place.  Constant-time indexing is switched off for good once Argon2id gets to the third slice. */
  method Fill(c: Config, blocks: array<Block>)
    requires c.Ok() && blocks.Length == c.lanes * c.LaneSize()
    modifies blocks
    ensures blocks[..] == FillAll(c, old(blocks[..]), c.passes)
  {
    hide FillBlock, FillSegment;
    ghost var b0 := blocks[..];
    var constantTime := c.algorithm != 0;
    for pass := 0 to c.passes
      invariant blocks[..] == FillAll(c, b0, pass)
      invariant constantTime == ConstantTime(c, pass, 0)
    {
      ghost var b1 := blocks[..];
      for slice := 0 to 4
        invariant blocks[..] == FillPass(c, b1, pass, slice)
        invariant constantTime == ConstantTime(c, pass, if slice == 0 then 0 else slice - 1)
      {
        if slice == 2 && c.algorithm == 2 {
          constantTime := false;
        }
        ghost var b2 := blocks[..];
        for segment := 0 to c.lanes
          invariant blocks[..] == FillSlice(c, b2, pass, slice, Lanes(segment))
        {
          LanesSnoc(segment);
          FillSegmentInPlace(c, blocks, pass, slice, segment, constantTime);
        }
      }
    }
  }

  method FillSegmentInPlace(c: Config, blocks: array<Block>, pass: nat, slice: nat, segment: nat, constantTime: bool)
    requires c.Ok() && blocks.Length == c.lanes * c.LaneSize() && slice < 4 && segment < c.lanes
    requires constantTime == ConstantTime(c, pass, slice)
    modifies blocks
    ensures blocks[..] == FillSegment(c, old(blocks[..]), pass, slice, segment, c.segment)
  {
    hide FillBlock;
    ghost var b0 := blocks[..];
    var block := Offset(pass, slice);
    while block < c.segment
      invariant Offset(pass, slice) <= block <= c.segment
      invariant blocks[..] == FillSegment(c, b0, pass, slice, segment, block)
    {
      ghost var seed, previous, reference := FillBlockInPlace(c, blocks, Place(pass, slice, segment, block), constantTime);
      block := block + 1;
    }
  }

  /** One block: the block before it in its lane and the one that the seed refers to are mixed into it. */
  method FillBlockInPlace(c: Config, blocks: array<Block>, p: Place, constantTime: bool)
    returns (ghost seed: u64, ghost previous: nat, ghost reference: nat)
    requires c.Ok() && blocks.Length == c.lanes * c.LaneSize() && p.In(c)
    requires constantTime == ConstantTime(c, p.pass, p.slice)
    modifies blocks
    ensures blocks[..] == FillBlock(c, old(blocks[..]), p)
    ensures previous == p.lane * (4 * c.segment)
                      + (if p.block == 0 && p.slice == 0 then 4 * c.segment - 1 else p.slice * c.segment + p.block - 1) < blocks.Length
    ensures constantTime <==> c.algorithm != 0 && (c.algorithm == 2 ==> p.pass == 0 && p.slice < 2)
    ensures seed == if constantTime then IndexSeed(p.pass, p.lane, p.slice, p.block) else old(blocks[..])[previous][0]
    ensures reference == p.RefLane(c, seed) * (4 * c.segment) + RefPosition(c, p, seed) < blocks.Length
    ensures var was, i := old(blocks[..]), p.lane * (4 * c.segment) + p.slice * c.segment + p.block;
            && i < blocks.Length && (forall j | 0 <= j < blocks.Length && j != i :: blocks[j] == was[j])
            && blocks[i] == if p.pass == 0 then MixFirst(was[previous], was[reference]) else MixAgain(was[previous], was[reference], was[i])
  {
    hide RefPosition;
    PlaceFits(c, p);
    IndexFits(c, p.lane, p.Position(c));
    IndexFits(c, p.lane, p.Previous(c));
    var current := Index(c, p.lane, p.Position(c));
    previous := Index(c, p.lane, p.Previous(c));
    var before := blocks[Index(c, p.lane, p.Previous(c))];
    var indexSeed := if constantTime then IndexSeed(p.pass, p.lane, p.slice, p.block) else before[0];
    seed := indexSeed;
    ReferenceIsSafe(c, p, indexSeed);
    IndexFits(c, p.RefLane(c, indexSeed), RefPosition(c, p, indexSeed));
    reference := Index(c, p.RefLane(c, seed), RefPosition(c, p, seed));
    var other := blocks[Index(c, p.RefLane(c, indexSeed), RefPosition(c, p, indexSeed))];
    blocks[current] := if p.pass == 0 then MixFirst(before, other) else MixAgain(before, other, blocks[current]);
  }
}
