/**
 Rebuilding a tree level by level, as deserialise does: a row holds the tops of the blocks of w leaves
 from the first live one on; a row that starts at an odd block first gets back the flushed block to its
 left, and then neighbours are joined.
 */
module MerkleRows {
  import opened Options
  import opened Powers
  import opened MerkleSpec
  import opened MerkleShape
  import opened MerkleWalk
  import opened MerkleCodec

  /** What the bytes are known to encode: the leaves, how many are flushed, and the live leaf nodes. */
  datatype Source = Source(ls: seq<Hash>, f: nat, live: seq<Node>) {
    ghost predicate Ok() {
      f < |ls| <= MAX_LEAVES && |live| == |ls| - f
    }
  }

  ghost function Min(a: nat, b: nat): nat {
    if a < b then a else b
  }

  /** Where block k of a row that starts at block q begins. */
  ghost function Start(q: nat, k: nat, w: nat): nat {
    (q + k) * w
  }

  ghost predicate LeafIs(s: Shape, src: Source, a: nat, i: nat) {
    a <= i && src.f <= i < src.f + |src.live| && LeafAt(s, i - a).n == src.live[i - src.f]
  }

  /** The live leaves of the block hang where they should. */
  ghost predicate Placed(s: Shape, src: Source, a: nat) {
    forall i | src.f <= i && a <= i < a + |Seg(s)| :: LeafIs(s, src, a, i)
  }

  /** s is the canonical tree over the block of at most w leaves from a on, above the live leaf nodes. */
  ghost predicate Block(s: Shape, src: Source, a: nat, w: nat)
    requires src.Ok()
    reads Nodes(s)
  {
    && a < |src.ls| && Seg(s) == src.ls[a..Min(a + w, |src.ls|)]
    && Canon(s, Minus(src.f, a)) && Good(s) && Distinct(s) && Placed(s, src, a)
  }

  ghost predicate Row(sh: seq<Shape>, level: seq<Node>, src: Source, q: nat, w: nat, rep: set<Node>)
    requires src.Ok()
    reads rep
  {
    && |sh| == |level| && Start(q, |sh|, w) >= |src.ls|
    && (forall k | 0 <= k < |sh| ::
          sh[k].n == level[k] && Nodes(sh[k]) <= rep && Block(sh[k], src, Start(q, k, w), w))
    && (forall i, j | 0 <= i < j < |sh| :: Nodes(sh[i]) !! Nodes(sh[j]))
  }

  lemma LeafBlock(src: Source, k: nat)
    requires src.Ok() && k < |src.live| && src.live[k].IsLeaf(src.ls[src.f + k])
    ensures Block(L(src.live[k], [src.ls[src.f + k]]), src, src.f + k, 1)
  {
    var s := L(src.live[k], [src.ls[src.f + k]]);
    Pow2IsPow2(0);
    SingleLeaf(Seg(s));
    assert src.ls[src.f + k..src.f + k + 1] == Seg(s);
  }

  lemma FirstRow(src: Source, rep: set<Node>) returns (sh: seq<Shape>)
    requires src.Ok() && forall k | 0 <= k < |src.live| :: src.live[k] in rep && src.live[k].IsLeaf(src.ls[src.f + k])
    requires forall i, j | 0 <= i < j < |src.live| :: src.live[i] != src.live[j]
    ensures Row(sh, src.live, src, src.f, 1, rep)
  {
    sh := seq(|src.live|, k requires 0 <= k < |src.live| => L(src.live[k], [src.ls[src.f + k]]));
    forall k | 0 <= k < |sh| ensures Block(sh[k], src, Start(src.f, k, 1), 1) {
      LeafBlock(src, k);
    }
  }

  /** The flushed block put back in front of a row. */
  lemma StubBlock(n: Node, src: Source, q: nat, k: nat)
    requires src.Ok() && q > 0 && q * Pow2(k) <= src.f
    requires 0 <= (q - 1) * Pow2(k) <= q * Pow2(k)
    requires n.left == null && n.right == null && !n.dirty && n.height == k + 1 && n.size == Pow2(k + 1) - 1
    requires (q - 1) * Pow2(k) + Pow2(k) == q * Pow2(k)
    requires n.hash == Mth(src.ls[(q - 1) * Pow2(k)..q * Pow2(k)])
    ensures Block(L(n, src.ls[(q - 1) * Pow2(k)..q * Pow2(k)]), src, (q - 1) * Pow2(k), Pow2(k))
  {
    hide Mth;
    Pow2IsPow2(k);
  }

  /** Two neighbouring blocks under a new node. */
  lemma JoinedBlock(n: Node, l: Shape, r: Shape, src: Source, a: nat, w: nat)
    requires src.Ok() && IsPow2(w) && src.f < a + 2 * w && Block(l, src, a, w) && Block(r, src, a + w, w)
    requires Nodes(l) !! Nodes(r) && n !in Nodes(l) && n !in Nodes(r)
    requires n.left == l.n && n.right == r.n && n.dirty && n.size == l.n.size + r.n.size + 1
    requires n.height == (if l.n.height > r.n.height then l.n.height else r.n.height) + 1
    ensures Block(B(n, l, r), src, a, 2 * w)
  {
    hide Mth, Pow2, CeilLog, Good, Nodes, Distinct, Canon, Placed, Seg, IsPow2, Split;
    var s := B(n, l, r);
    SegLength(s);
    PowerPositive(w);
    var top := Min(a + 2 * w, |src.ls|);
    assert |Seg(l)| == w && |Seg(r)| == top - (a + w) > 0;
    assert Seg(s) == src.ls[a..top];
    SplitUnique(|Seg(s)|, w);
    JoinedParts(s, src.f, a);
    JoinedLeaves(s, src, a);
  }

  lemma PowerPositive(w: nat)
    requires IsPow2(w)
    ensures w > 0
  {
  }

  lemma JoinedParts(s: Shape, f: nat, a: nat)
    requires s.B? && |Seg(s)| >= 2 && |Seg(s.l)| == Split(|Seg(s)|) && f < a + |Seg(s)|
    requires Good(s.l) && Good(s.r) && Canon(s.l, Minus(f, a)) && Canon(s.r, Minus(f, a + |Seg(s.l)|))
    requires Distinct(s.l) && Distinct(s.r) && Nodes(s.l) !! Nodes(s.r) && s.n !in Nodes(s.l) && s.n !in Nodes(s.r)
    requires s.n.left == s.l.n && s.n.right == s.r.n && s.n.dirty && s.n.size == s.l.n.size + s.r.n.size + 1
    requires s.n.height == (if s.l.n.height > s.r.n.height then s.l.n.height else s.r.n.height) + 1
    ensures Good(s) && Distinct(s) && Canon(s, Minus(f, a))
  {
    hide Mth, Pow2, CeilLog, Split;
    CanonSplits(s.l, Minus(f, a));
    CanonSplits(s.r, Minus(f, a + |Seg(s.l)|));
    SizesAgree(s);
  }

  lemma JoinedLeaves(s: Shape, src: Source, a: nat)
    requires s.B? && Placed(s.l, src, a) && Placed(s.r, src, a + |Seg(s.l)|)
    ensures Placed(s, src, a)
  {
    hide Seg, LeafAt;
    SegLength(s);
    forall i | src.f <= i && a <= i < a + |Seg(s)| ensures LeafIs(s, src, a, i) {
      LeafAtStep(s, i - a);
      if i < a + |Seg(s.l)| {
        assert LeafIs(s.l, src, a, i);
      } else {
        assert LeafIs(s.r, src, a + |Seg(s.l)|, i);
      }
    }
  }

  lemma SegLength(s: Shape)
    requires s.B?
    ensures Seg(s) == Seg(s.l) + Seg(s.r)
  {
  }

  lemma LeafAtStep(s: Shape, i: nat)
    requires s.B?
    ensures LeafAt(s, i) == if i < |Seg(s.l)| then LeafAt(s.l, i) else LeafAt(s.r, i - |Seg(s.l)|)
  {
  }

  /** A block that reaches the last leaf is also a block of twice the width. */
  lemma LastBlock(s: Shape, src: Source, a: nat, w: nat)
    requires src.Ok() && Block(s, src, a, w) && a + w >= |src.ls|
    ensures Block(s, src, a, 2 * w)
  {
    hide Good, Nodes, Distinct, Canon, Placed, Seg;
  }

  lemma PairIndex(q: nat, k: nat, w: nat)
    requires q % 2 == 0
    ensures Start(q / 2, k, 2 * w) == Start(q, 2 * k, w)
    ensures Start(q, 2 * k, w) + w == Start(q, 2 * k + 1, w)
  {
    assert (q / 2 + k) * (2 * w) == (2 * (q / 2 + k)) * w;
    assert 2 * (q / 2 + k) == q + 2 * k;
  }

  /** The next row as far as it is built, and the rest of the current one. */
  ghost predicate Partial(nsh: seq<Shape>, next: seq<Node>, sh: seq<Shape>, level: seq<Node>, src: Source,
                          q: nat, w: nat, rep0: set<Node>, rep: set<Node>, i: nat)
    requires src.Ok()
    reads rep0, rep
  {
    && q % 2 == 0 && IsPow2(w) && src.f < Start(q, 2, w) && rep0 <= rep && Row(sh, level, src, q, w, rep0) && |nsh| == |next|
    && (forall k | 0 <= k < |nsh| ::
          nsh[k].n == next[k] && Nodes(nsh[k]) <= rep && Block(nsh[k], src, Start(q / 2, k, 2 * w), 2 * w))
    && (forall k, j | 0 <= k < j < |nsh| :: Nodes(nsh[k]) !! Nodes(nsh[j]))
    && (forall k, j | 0 <= k < |nsh| && i <= j < |sh| :: Nodes(nsh[k]) !! Nodes(sh[j]))
  }

  lemma PairNext(nsh: seq<Shape>, next: seq<Node>, sh: seq<Shape>, level: seq<Node>, src: Source,
                 q: nat, w: nat, rep0: set<Node>, rep: set<Node>, i: nat, n: Node)
    requires src.Ok() && Partial(nsh, next, sh, level, src, q, w, rep0, rep, i)
    requires i == 2 * |next| && i + 1 < |level| && n !in rep
    requires n.left == level[i] && n.right == level[i + 1] && n.dirty && n.size == level[i].size + level[i + 1].size + 1
    requires n.height == (if level[i].height > level[i + 1].height then level[i].height else level[i + 1].height) + 1
    ensures |sh| == |level| && Partial(nsh + [B(n, sh[i], sh[i + 1])], next + [n], sh, level, src, q, w, rep0, rep + {n}, i + 2)
  {
    hide Block, IsPow2, Nodes;
    var s := B(n, sh[i], sh[i + 1]);
    PairIndex(q, |next|, w);
    MulMonotone(w, q, q + i);
    JoinedBlock(n, sh[i], sh[i + 1], src, Start(q, i, w), w);
    assert Nodes(s) == {n} + Nodes(sh[i]) + Nodes(sh[i + 1]) by { NodesTop(s); }
  }

  lemma NodesTop(s: Shape)
    requires s.B?
    ensures Nodes(s) == {s.n} + Nodes(s.l) + Nodes(s.r)
  {
  }

  lemma PairLast(nsh: seq<Shape>, next: seq<Node>, sh: seq<Shape>, level: seq<Node>, src: Source,
                 q: nat, w: nat, rep0: set<Node>, rep: set<Node>, i: nat)
    requires src.Ok() && Partial(nsh, next, sh, level, src, q, w, rep0, rep, i)
    requires i == 2 * |next| && i + 1 == |level|
    ensures |sh| == |level| && Partial(nsh + [sh[i]], next + [level[i]], sh, level, src, q, w, rep0, rep, i + 2)
  {
    hide Block, IsPow2, Nodes;
    PairIndex(q, |next|, w);
    LastBlock(sh[i], src, Start(q, i, w), w);
  }

  lemma PairsDone(nsh: seq<Shape>, next: seq<Node>, sh: seq<Shape>, level: seq<Node>, src: Source,
                  q: nat, w: nat, rep0: set<Node>, rep: set<Node>, i: nat)
    requires src.Ok() && Partial(nsh, next, sh, level, src, q, w, rep0, rep, i)
    requires |next| == (|level| + 1) / 2
    ensures Row(nsh, next, src, q / 2, 2 * w, rep)
  {
    hide Block, IsPow2, Nodes;
    PairIndex(q, |next|, w);
    MulMonotone(w, q + |level|, q + 2 * |next|);
  }

  /** Rebuilds the next row; the ghost flag says whether the bytes are an encoding. */
  method PairUp(level: seq<Node>, ghost enc: bool, ghost src: Source, ghost sh: seq<Shape>, ghost q: nat,
                ghost w: nat, ghost rep0: set<Node>)
    returns (next: seq<Node>, ghost nsh: seq<Shape>, ghost rep: set<Node>)
    requires enc ==> src.Ok() && q % 2 == 0 && IsPow2(w) && src.f < Start(q, 2, w) && Row(sh, level, src, q, w, rep0)
    ensures |next| == (|level| + 1) / 2
    ensures fresh(rep - rep0) && rep >= rep0
    ensures enc ==> Row(nsh, next, src, q / 2, 2 * w, rep)
  {
    hide Block, Row, Nodes, IsPow2;
    next, nsh, rep := [], [], rep0;
    var i := 0;
    while i < |level|
      invariant i % 2 == 0 && |next| == (if i <= |level| then i / 2 else (|level| + 1) / 2) && i <= |level| + 1
      invariant fresh(rep - rep0) && rep >= rep0
      invariant enc ==> Partial(nsh, next, sh, level, src, q, w, rep0, rep, i)
    {
      if i + 1 >= |level| {
        if enc {
          PairLast(nsh, next, sh, level, src, q, w, rep0, rep, i);
          nsh := nsh + [sh[i]];
        }
        next := next + [level[i]];
      } else {
        var n := new Node.Inner(level[i], level[i + 1]);
        if enc {
          PairNext(nsh, next, sh, level, src, q, w, rep0, rep, i, n);
          nsh := nsh + [B(n, sh[i], sh[i + 1])];
        }
        next := next + [n];
        rep := rep + {n};
      }
      i := i + 2;
    }
    if enc {
      PairsDone(nsh, next, sh, level, src, q, w, rep0, rep, i);
    }
  }

  /** The bytes from the position on begin with the remaining hashes of the left edge. */
  ghost predicate EdgeAt(bytes: seq<byte>, position: nat, end: nat, src: Source, it: nat, w: nat)
    requires src.Ok()
  {
    && w > 0 && it * w <= src.f && position <= end <= |bytes|
    && bytes[position..end] == Concat(LevelExtras(src.ls, it, w))
  }

  /** An odd level reads one hash, an even level none. */
  lemma EdgeStep(bytes: seq<byte>, position: nat, end: nat, src: Source, it: nat, w: nat)
    requires src.Ok() && it > 0 && EdgeAt(bytes, position, end, src, it, w)
    ensures 0 <= (it - 1) * w && (it - 1) * w + w == it * w <= src.f
    ensures it % 2 == 1 ==>
              && position + HASH_SIZE <= end <= |bytes|
              && bytes[position..position + HASH_SIZE] == Mth(src.ls[(it - 1) * w..it * w])
              && EdgeAt(bytes, position + HASH_SIZE, end, src, it / 2, 2 * w)
    ensures it % 2 == 0 ==> EdgeAt(bytes, position, end, src, it / 2, 2 * w)
  {
    hide Mth, LevelExtras;
    HalfFits(it, w);
    LevelExtrasStep(src.ls, it, w);
    var rest := LevelExtras(src.ls, it / 2, 2 * w);
    if it % 2 == 1 {
      var h := Mth(src.ls[(it - 1) * w..it * w]);
      ConcatCons(h, rest);
      var here := bytes[position..end];
      assert |here| == HASH_SIZE + |Concat(rest)|;
      assert here[..HASH_SIZE] == h && here[HASH_SIZE..] == Concat(rest);
      assert bytes[position..position + HASH_SIZE] == here[..HASH_SIZE];
      assert bytes[position + HASH_SIZE..end] == here[HASH_SIZE..];
    } else {
      assert [] + rest == rest;
    }
  }

  lemma RowCons(sh: seq<Shape>, level: seq<Node>, src: Source, it: nat, w: nat, rep: set<Node>, s: Shape)
    requires src.Ok() && it > 0 && Row(sh, level, src, it, w, rep)
    requires s.L? && s.n !in rep && Block(s, src, Start(it - 1, 0, w), w)
    ensures Row([s] + sh, [s.n] + level, src, it - 1, w, rep + {s.n})
  {
    hide Block, Nodes;
    LeafNodes(s);
    var sh', level' := [s] + sh, [s.n] + level;
    forall k | 0 <= k < |sh'|
      ensures sh'[k].n == level'[k] && Nodes(sh'[k]) <= rep + {s.n} && Block(sh'[k], src, Start(it - 1, k, w), w)
    {
      if k > 0 {
        assert sh'[k] == sh[k - 1] && Start(it - 1, k, w) == Start(it, k - 1, w);
      }
    }
    assert Start(it - 1, |sh'|, w) == Start(it, |sh|, w);
  }

  lemma LeafNodes(s: Shape)
    requires s.L?
    ensures Nodes(s) == {s.n}
  {
  }

  /** f lies in block it. */
  ghost predicate Within(f: nat, it: nat, w: nat) {
    it * w <= f < (it + 1) * w
  }

  lemma FlushedBounds(f: nat, it: nat, w: nat)
    requires Within(f, it, w)
    ensures Within(f, it / 2, 2 * w)
    ensures it % 2 == 0 ==> f < Start(it, 2, w)
    ensures it % 2 == 1 ==> f < Start(it - 1, 2, w) && (it - 1) / 2 == it / 2
  {
    HalfFits(it, w);
    var h := it / 2;
    assert (h + 1) * (2 * w) == (2 * h + 2) * w;
    MulMonotone(w, it + 1, 2 * h + 2);
    MulMonotone(w, it + 1, it + 2);
  }

  /** The only block of a row that starts at zero is the whole tree. */
  lemma WholeTree(sh: seq<Shape>, level: seq<Node>, src: Source, w: nat, rep: set<Node>)
    requires src.Ok() && Row(sh, level, src, 0, w, rep) && |level| <= 1
    ensures |sh| == 1 && |level| == 1 && level[0] == sh[0].n && Nodes(sh[0]) <= rep
    ensures Seg(sh[0]) == src.ls && Canon(sh[0], src.f) && Good(sh[0]) && Distinct(sh[0])
    ensures Live(sh[0], src.f) == src.live
  {
    hide Good, Distinct, Nodes, Canon, Live, Seg;
    assert Start(0, 0, w) == 0;
    var s := sh[0];
    assert Block(s, src, Start(0, 0, w), w);
    assert Start(0, 1, w) == w;
    assert src.ls[0..|src.ls|] == src.ls;
    LiveCount(s, src.f);
    forall k | 0 <= k < |src.live| ensures Live(s, src.f)[k] == src.live[k] {
      LiveAt(s, src.f, src.f + k);
      assert LeafIs(s, src, 0, src.f + k);
    }
  }

  datatype Rebuilt = Rebuilt(root: Option<Node>, position: nat)

  /** How many bytes the left edge takes: one hash for each level at which the position is odd. */
  function EdgeBytes(it: nat): nat {
    if it == 0 then 0 else (if it % 2 == 1 then HASH_SIZE else 0) + EdgeBytes(it / 2)
  }

  /** The levels of deserialise; nothing where the bytes end too early, which the source reports by throwing. */
  method Rebuild(bytes: seq<byte>, position0: nat, leaves: seq<Node>, numFlushed: nat,
                 ghost enc: bool, ghost src: Source, ghost end: nat, ghost rep0: set<Node>)
    returns (r: Option<Rebuilt>, ghost sh: seq<Shape>, ghost rep: set<Node>)
    requires enc ==> src.Ok() && numFlushed == src.f && leaves == src.live && EdgeAt(bytes, position0, end, src, src.f, 1)
    requires enc ==> forall k | 0 <= k < |leaves| :: leaves[k] in rep0 && leaves[k].IsLeaf(src.ls[src.f + k])
    requires enc ==> forall i, j | 0 <= i < j < |leaves| :: leaves[i] != leaves[j]
    requires position0 <= |bytes|
    ensures rep >= rep0 && fresh(rep - rep0)
    ensures r.Some? <==> position0 + EdgeBytes(numFlushed) <= |bytes|
    ensures r.Some? ==> r.value.position == position0 + EdgeBytes(numFlushed)
    ensures numFlushed == 0 && leaves == [] ==> r == Some(Rebuilt(None, position0))
    ensures enc ==>
              && r.Some? && r.value.position == end && |sh| == 1
              && r.value.root == Some(sh[0].n) && Nodes(sh[0]) <= rep
              && Seg(sh[0]) == src.ls && Canon(sh[0], src.f) && Good(sh[0]) && Distinct(sh[0])
              && Live(sh[0], src.f) == src.live
  {
    hide Block, Row, Nodes, EdgeAt, Pow2, IsPow2, Start, Seg, Canon, Good, Distinct, Live, Mth, Within;
    var level, it: nat, levelNo: nat, position: nat := leaves, numFlushed, 0, position0;
    sh, rep := [], rep0;
    ghost var w: nat := 1;
    if enc {
      sh := FirstRow(src, rep);
      Pow2Zero();
      WithinFirst(src.f);
    }
    while it != 0 || |level| > 1
      invariant rep >= rep0 && fresh(rep - rep0)
      invariant position + EdgeBytes(it) == position0 + EdgeBytes(numFlushed) && position <= |bytes|
      invariant numFlushed == 0 && leaves == [] ==> it == 0 && level == [] && position == position0
      invariant enc ==> Within(src.f, it, w) && w == Pow2(levelNo)
      invariant enc ==> Row(sh, level, src, it, w, rep) && EdgeAt(bytes, position, end, src, it, w)
      decreases it, |level|
    {
      if enc {
        FlushedBounds(src.f, it, w);
        Pow2IsPow2(levelNo);
        Pow2Step(levelNo + 1);
      }
      var edge;
      ghost var q: nat;
      edge, sh, q, rep := RestoreEdge(bytes, position, level, it, levelNo, enc, src, end, sh, w, rep);
      if edge.None? {
        return None, sh, rep;
      }
      level, position := edge.value.level, edge.value.position;
      level, sh, rep := PairUp(level, enc, src, sh, q, w, rep);
      it := it / 2;
      levelNo := levelNo + 1;
      w := 2 * w;
    }
    if enc {
      WholeTree(sh, level, src, w, rep);
      EdgeNone(bytes, position, end, src, w);
    }
    r := Some(Rebuilt(if |level| == 1 then Some(level[0]) else None, position));
  }

  lemma WithinFirst(f: nat)
    ensures Within(f, f, 1)
  {
  }

  datatype Edge = Edge(level: seq<Node>, position: nat)

  /** Puts the flushed block back in front of an odd row. */
  method RestoreEdge(bytes: seq<byte>, position: nat, level: seq<Node>, it: nat, levelNo: nat,
                     ghost enc: bool, ghost src: Source, ghost end: nat, ghost sh0: seq<Shape>, ghost w: nat, ghost rep0: set<Node>)
    returns (r: Option<Edge>, ghost sh: seq<Shape>, ghost q: nat, ghost rep: set<Node>)
    requires enc ==> src.Ok() && w == Pow2(levelNo)
    requires enc ==> Row(sh0, level, src, it, w, rep0) && EdgeAt(bytes, position, end, src, it, w)
    ensures rep >= rep0 && fresh(rep - rep0)
    ensures q == if it % 2 == 1 then it - 1 else it
    ensures r.Some? <==> it % 2 == 0 || position + HASH_SIZE <= |bytes|
    ensures r.Some? ==> |r.value.level| == |level| + it % 2
    ensures r.Some? ==> r.value.position == position + if it % 2 == 1 then HASH_SIZE else 0
    ensures enc ==> r.Some? && Row(sh, r.value.level, src, q, w, rep)
                    && EdgeAt(bytes, r.value.position, end, src, it / 2, 2 * w)
  {
    hide Block, Row, Nodes, EdgeAt, Pow2, Start, Seg, Mth;
    sh, q, rep := sh0, it, rep0;
    if enc {
      if it > 0 {
        EdgeStep(bytes, position, end, src, it, w);
      } else {
        EdgeNone(bytes, position, end, src, w);
      }
    }
    if it % 2 == 1 {
      q := it - 1;
      if |bytes| < position + HASH_SIZE {
        return None, sh, q, rep;
      }
      var h: Hash := bytes[position..position + HASH_SIZE];
      var n := new Node.Stub(h, levelNo + 1);
      if enc {
        StubBlock(n, src, it, levelNo);
        StartAt(q, w);
        var s := L(n, src.ls[q * w..it * w]);
        RowCons(sh, level, src, it, w, rep, s);
        sh := [s] + sh;
      }
      rep := rep + {n};
      r := Some(Edge([n] + level, position + HASH_SIZE));
    } else {
      r := Some(Edge(level, position));
    }
  }

  lemma StartAt(q: nat, w: nat)
    ensures Start(q, 0, w) == q * w
  {
  }

  lemma EdgeNone(bytes: seq<byte>, position: nat, end: nat, src: Source, w: nat)
    requires src.Ok() && EdgeAt(bytes, position, end, src, 0, w)
    ensures position == end && EdgeAt(bytes, position, end, src, 0, 2 * w)
  {
  }

  /** The left siblings met by a walk, appended lowest first: the tail of a serialisation. */
  method AppendExtras(trail: seq<Step>, bytes0: seq<byte>, ghost s: Shape, ghost i: nat, ghost flushed: nat)
    returns (bytes: seq<byte>)
    requires OnWalk(s, i, flushed) && i < |Seg(s)| && trail == Trail(s, i)
    ensures bytes == bytes0 + Concat(Extras(Seg(s), i))
  {
    hide Pow2, Mth, MPath, Trail, Split, Seg, OnWalk, LeftHashes, Concat, Backwards;
    var extras: seq<Hash> := [];
    ghost var t: Shape, x: nat, f: nat := s, i, flushed;
    StepWalk(t, x, f);
    BackwardsNone();
    for k := 0 to |trail|
      invariant OnWalk(t, x, f) && trail[k..] == Trail(t, x) && x < |Seg(t)|
      invariant LeftHashes(MPath(Seg(s), i)) == LeftHashes(MPath(Seg(t), x)) + Backwards(extras)
    {
      StepWalk(t, x, f);
      TrailHead(t, x, trail[k..]);
      PathUnfold(Seg(t), x);
      var n, goRight := trail[k].n, trail[k].goRight;
      if goRight {
        LeftHashesSnoc(MPath(Seg(t.r), x - |Seg(t.l)|), Element(Mth(Seg(t.l)), PathLeft));
        BackwardsSnoc(extras, n.left.hash);
        extras := extras + [n.left.hash];
      } else {
        LeftHashesSnoc(MPath(Seg(t.l), x), Element(Mth(Seg(t.r)), PathRight));
      }
      t, x, f := Below(t, x), BelowIndex(t, x), BelowFlushed(t, x, f);
      StepWalk(t, x, f);
    }
    TrailEnd(t, x);
    StepWalk(t, x, f);
    SingleLeaf(Seg(t));
    LeftHashesNone();
    bytes := bytes0;
    ConcatNone();
    var k := |extras|;
    assert extras[..k] == extras && [] + Backwards(extras) == Backwards(extras);
    while k > 0
      invariant 0 <= k <= |extras|
      invariant bytes + Concat(Backwards(extras[..k])) == bytes0 + Concat(Backwards(extras))
    {
      k := k - 1;
      assert extras[..k + 1] == extras[..k] + [extras[k]];
      BackwardsSnoc(extras[..k], extras[k]);
      ConcatCons(extras[k], Backwards(extras[..k]));
      bytes := bytes + extras[k];
    }
    assert extras[..k] == [] && bytes + [] == bytes;
  }

  function Backwards(hs: seq<Hash>): seq<Hash> {
    if hs == [] then [] else [hs[|hs| - 1]] + Backwards(hs[..|hs| - 1])
  }

  lemma BackwardsSnoc(hs: seq<Hash>, h: Hash)
    ensures Backwards(hs + [h]) == [h] + Backwards(hs)
  {
    assert (hs + [h])[..|hs|] == hs;
  }

  lemma BackwardsNone()
    ensures Backwards([]) == []
  {
  }

  lemma ConcatNone()
    ensures Concat([]) == []
  {
  }

  /** Serialised hashes can be read back one by one. */
  lemma {:induction false} ConcatAt(hs: seq<Hash>, k: nat)
    requires k < |hs|
    ensures 0 <= k * HASH_SIZE && k * HASH_SIZE + HASH_SIZE <= |Concat(hs)|
    ensures Concat(hs)[k * HASH_SIZE..k * HASH_SIZE + HASH_SIZE] == hs[k]
  {
    hide Concat;
    assert hs == hs[..k] + ([hs[k]] + hs[k + 1..]);
    ConcatAppend(hs[..k], [hs[k]] + hs[k + 1..]);
    ConcatCons(hs[k], hs[k + 1..]);
  }

  /** The bytes from the position on begin with the encoding of a tree over ls with f leaves flushed. */
  ghost predicate EncodedAt(bytes: seq<byte>, position: nat, ls: seq<Hash>, f: nat) {
    && (f < |ls| || (f == 0 && ls == [])) && |ls| <= MAX_LEAVES
    && position + |Encoding(ls, f)| <= |bytes|
    && bytes[position..position + |Encoding(ls, f)|] == Encoding(ls, f)
  }

  /** What the parts of an encoding read as. */
  lemma EncodedParts(bytes: seq<byte>, position: nat, ls: seq<Hash>, f: nat)
    requires EncodedAt(bytes, position, ls, f)
    ensures (f < |ls| || (f == 0 && ls == [])) && |ls| <= MAX_LEAVES && position + 16 <= |bytes|
    ensures Value(bytes[position..position + 8]) == |ls| - f && Value(bytes[position + 8..position + 16]) == f
    ensures var p := position + 16 + (|ls| - f) * HASH_SIZE;
            var end := position + |Encoding(ls, f)|;
            && 0 <= (|ls| - f) * HASH_SIZE && p <= end <= |bytes|
            && bytes[position + 16..p] == Concat(ls[f..])
            && (ls != [] ==> bytes[p..end] == Concat(Extras(ls, f)))
            && (ls == [] ==> p == end)
  {
    hide Concat, U64, Value, LeftHashes, MPath;
    var extras := if ls == [] then [] else Concat(Extras(ls, f));
    FourParts(bytes, position, U64(|ls| - f), U64(f), Concat(ls[f..]), extras);
    U64Range();
    U64RoundTrip(|ls| - f);
    U64RoundTrip(f);
  }

  lemma FourParts(bytes: seq<byte>, p: nat, a: seq<byte>, b: seq<byte>, c: seq<byte>, d: seq<byte>)
    requires p + |a + b + c + d| <= |bytes| && bytes[p..p + |a + b + c + d|] == a + b + c + d
    ensures bytes[p..p + |a|] == a
    ensures bytes[p + |a|..p + |a| + |b|] == b
    ensures bytes[p + |a| + |b|..p + |a| + |b| + |c|] == c
    ensures bytes[p + |a| + |b| + |c|..p + |a| + |b| + |c| + |d|] == d
  {
    TwoParts(bytes, p, a + b + c, d);
    TwoParts(bytes, p, a + b, c);
    TwoParts(bytes, p, a, b);
  }

  lemma TwoParts(bytes: seq<byte>, p: nat, a: seq<byte>, b: seq<byte>)
    requires p + |a + b| <= |bytes| && bytes[p..p + |a + b|] == a + b
    ensures bytes[p..p + |a|] == a && bytes[p + |a|..p + |a| + |b|] == b
  {
    var whole := bytes[p..p + |a + b|];
    assert bytes[p..p + |a|] == whole[..|a|];
    assert bytes[p + |a|..p + |a| + |b|] == whole[|a|..];
  }

  lemma EdgeFirst(bytes: seq<byte>, p: nat, end: nat, src: Source)
    requires src.Ok() && p <= end <= |bytes| && bytes[p..end] == Concat(Extras(src.ls, src.f))
    ensures EdgeAt(bytes, p, end, src, src.f, 1)
  {
    hide LevelExtras, Concat, LeftHashes;
    ExtrasByLevel(src.ls, src.f);
  }

  /** Whatever surrounds it, a serialisation is read back as the encoding it is. */
  lemma EncodedAnywhere(before: seq<byte>, ls: seq<Hash>, f: nat, after: seq<byte>)
    requires (f < |ls| || (f == 0 && ls == [])) && |ls| <= MAX_LEAVES
    ensures EncodedAt(before + Encoding(ls, f) + after, |before|, ls, f)
  {
    hide Encoding;
    var e, bytes := Encoding(ls, f), before + Encoding(ls, f) + after;
    assert bytes[|before|..|before| + |e|] == e;
  }
}
