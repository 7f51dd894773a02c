/**
 Walking from the root to a leaf: which nodes are met, which way each turn goes, and why the bits of
 a 64-bit index select the turns although short right subtrees skip levels.
 */
module MerkleWalk {
  import opened Powers
  import opened MerkleSpec
  import opened MerkleShape

  datatype Step = Step(n: Node, goRight: bool)

  /** The inner nodes on the way to leaf i, with the turn taken at each. */
  ghost function Trail(s: Shape, i: nat): seq<Step> {
    match s
    case L(_, _) => []
    case B(n, l, r) =>
      if i < |Seg(l)| then [Step(n, false)] + Trail(l, i) else [Step(n, true)] + Trail(r, i - |Seg(l)|)
  }

  ghost function Below(s: Shape, i: nat): Shape
    requires s.B?
  {
    if i < |Seg(s.l)| then s.l else s.r
  }

  ghost function BelowIndex(s: Shape, i: nat): nat
    requires s.B?
  {
    if i < |Seg(s.l)| then i else i - |Seg(s.l)|
  }

  ghost function BelowFlushed(s: Shape, i: nat, f: nat): nat
    requires s.B?
  {
    if i < |Seg(s.l)| then f else Minus(f, |Seg(s.l)|)
  }

  /** A subtree on the walk to a live leaf x of a tree with f leaves flushed. */
  ghost predicate OnPath(t: Shape, x: nat, f: nat)
    reads Nodes(t)
  {
    Linked(t) && Sized(t) && Canon(t, f) && f <= x < |Seg(t)|
  }

  /** The same where every node is clean. */
  ghost predicate OnWalk(t: Shape, x: nat, f: nat)
    reads Nodes(t)
  {
    OnPath(t, x, f) && Hashed(t) && !t.n.dirty
  }

  lemma StepPath(t: Shape, x: nat, f: nat)
    requires OnPath(t, x, f)
    ensures t.n.height == CeilLog(|Seg(t)|) + 1
    ensures t.L? ==> |Seg(t)| == 1 && x == 0 && t.n.height == 1
    ensures t.B? ==>
              && t.n.left == t.l.n && t.n.right == t.r.n
              && OnPath(Below(t, x), BelowIndex(t, x), BelowFlushed(t, x, f))
              && |Seg(t.l)| + |Seg(t.r)| == |Seg(t)| >= 2
              && |Seg(t.l)| == Split(|Seg(t)|) == Pow2(t.n.height - 2) && t.n.height >= 2
    ensures t.B? ==> 1 <= Below(t, x).n.height < t.n.height
    ensures f <= x < |Seg(t)| <= Pow2(t.n.height - 1)
  {
    hide Pow2;
    CeilLogBounds(|Seg(t)|);
    if t.L? {
      Pow2IsPow2(0);
    } else {
      SplitIsPow2(|Seg(t)|);
      CeilLogMonotone(|Seg(Below(t, x))|, |Seg(t.l)|);
    }
  }

  lemma StepWalk(t: Shape, x: nat, f: nat)
    requires OnWalk(t, x, f)
    ensures t.n.hash == Mth(Seg(t)) && x < |Seg(t)|
    ensures t.L? ==> |Seg(t)| == 1 && x == 0
    ensures t.B? ==>
              && t.n.left == t.l.n && t.n.right == t.r.n
              && t.l.n.hash == Mth(Seg(t.l)) && t.r.n.hash == Mth(Seg(t.r))
              && OnWalk(Below(t, x), BelowIndex(t, x), BelowFlushed(t, x, f))
              && |Seg(t.l)| + |Seg(t.r)| == |Seg(t)| >= 2 && |Seg(t.l)| == Split(|Seg(t)|)
              && Seg(t)[..|Seg(t.l)|] == Seg(t.l) && Seg(t)[|Seg(t.l)|..] == Seg(t.r)
  {
    hide Mth, Pow2, CeilLog, Nodes;
    StepPath(t, x, f);
    if t.B? {
      assert Hashed(t.l) && HashOk(t.l) && Hashed(t.r) && HashOk(t.r);
    }
  }

  const TWO64: nat := 0x1_0000_0000_0000_0000
  const TWO63: nat := 0x8000_0000_0000_0000

  /** The shifted index: x in the top height - 1 bits of a 64-bit word. */
  function Bits(x: nat, height: nat): nat
    requires 1 <= height <= 65
  {
    x * Pow2(65 - height)
  }

  /** The top bit says whether x lies in the right half; shifting it out leaves the rest of x. */
  lemma TopBit(x: nat, height: nat)
    requires 2 <= height <= 64 && x < Pow2(height - 1)
    ensures Bits(x, height) < TWO64
    ensures Bits(x, height) / TWO63 == (if x < Pow2(height - 2) then 0 else 1)
    ensures (2 * Bits(x, height)) % TWO64 ==
            Bits(if x < Pow2(height - 2) then x else x - Pow2(height - 2), height - 1)
  {
    hide Pow2;
    WordPowers();
    var p, q := Pow2(65 - height), Pow2(height - 2);
    Pow2Add(65 - height, height - 2);
    Pow2Double(height - 2);
    Pow2Double(65 - height);
    TopBitArithmetic(x, q, p);
  }

  lemma TopBitArithmetic(x: nat, q: nat, p: nat)
    requires p > 0 && p * q == TWO63 && x < 2 * q
    ensures x * p < TWO64
    ensures (x * p) / TWO63 == (if x < q then 0 else 1)
    ensures (2 * (x * p)) % TWO64 == (if x < q then x else x - q) * (2 * p)
  {
    var y := if x < q then x else x - q;
    HalfRange(y, q, p);
    assert x * p == y * p + (if x < q then 0 else TWO63) by {
      if x >= q { assert (x - q) * p == x * p - q * p; }
    }
    assert y * (2 * p) == 2 * (y * p);
  }

  lemma HalfRange(y: nat, q: nat, p: nat)
    requires y < q && p > 0
    ensures y * p < p * q
  {
    assert (q - y) * p > 0;
  }

  lemma {:induction false} LiveCount(s: Shape, f: nat)
    requires Canon(s, f) && f <= |Seg(s)|
    ensures |Live(s, f)| == |Seg(s)| - f
  {
    if s.B? {
      CanonSplits(s, f);
      SplitsPositive(s);
      var m := |Seg(s.l)|;
      LiveCount(s.r, Minus(f, m));
      if f <= m {
        LiveCount(s.l, f);
      } else {
        LiveNone(s.l, f);
      }
    }
  }

  lemma {:induction false} LiveNone(s: Shape, f: nat)
    requires Canon(s, f) && f >= |Seg(s)|
    ensures Live(s, f) == []
  {
  }

  /** The leaf a walk ends at. */
  ghost function LeafAt(s: Shape, i: nat): Shape {
    match s
    case L(_, _) => s
    case B(_, l, r) => if i < |Seg(l)| then LeafAt(l, i) else LeafAt(r, i - |Seg(l)|)
  }

  lemma {:induction false} LiveAt(s: Shape, f: nat, i: nat)
    requires Canon(s, f) && f <= i < |Seg(s)|
    ensures |Live(s, f)| == |Seg(s)| - f && Live(s, f)[i - f] == LeafAt(s, i).n
    ensures LeafAt(s, i) == L(LeafAt(s, i).n, [Seg(s)[i]])
  {
    hide Splits, IsPow2, CeilLog, Split, Pow2;
    LiveCount(s, f);
    if s.B? {
      CanonSplits(s, f);
      SplitsPositive(s);
      var m := |Seg(s.l)|;
      LiveCount(s.r, Minus(f, m));
      if i < m {
        LiveAt(s.l, f, i);
      } else {
        if f <= m { LiveCount(s.l, f); } else { LiveNone(s.l, f); }
        LiveAt(s.r, Minus(f, m), i - m);
      }
    }
  }

  lemma TurnTaken(t: Shape, x: nat, f: nat, height: nat)
    requires OnPath(t, x, f) && 2 <= height && t.n.height <= height
    ensures t.n.height == height ==> t.B? && (x < Pow2(height - 2) <==> x < |Seg(t.l)|)
    ensures t.n.height < height ==> x < Pow2(height - 2)
    ensures t.n.height == height && x >= Pow2(height - 2) ==> x - Pow2(height - 2) == BelowIndex(t, x)
  {
    hide Seg, Good, Canon, Nodes, Pow2, CeilLog;
    StepPath(t, x, f);
    if t.n.height < height {
      Pow2Monotone(t.n.height - 1, height - 2);
    }
  }

  lemma TrailStep(t: Shape, x: nat)
    requires t.B?
    ensures Trail(t, x) == [Step(t.n, x >= |Seg(t.l)|)] + Trail(Below(t, x), BelowIndex(t, x))
    ensures LeafAt(t, x) == LeafAt(Below(t, x), BelowIndex(t, x))
  {
  }

  lemma TrailHead(t: Shape, x: nat, trail: seq<Step>)
    requires trail == Trail(t, x) && trail != []
    ensures t.B? && trail[0] == Step(t.n, x >= |Seg(t.l)|) && trail[1..] == Trail(Below(t, x), BelowIndex(t, x))
  {
  }

  lemma TrailEnd(t: Shape, x: nat)
    ensures Trail(t, x) == [] <==> t.L?
  {
  }

  /** Leaf nodes carry their leaf hash. */
  ghost predicate Labelled(s: Shape)
    reads Nodes(s)`hash
  {
    match s
    case L(n, seg) => |seg| == 1 ==> n.hash == seg[0]
    case B(_, l, r) => Labelled(l) && Labelled(r)
  }

  lemma {:induction false} HashedLabelled(s: Shape)
    requires Hashed(s)
    ensures Labelled(s)
  {
    if s.B? {
      HashedLabelled(s.l);
      HashedLabelled(s.r);
    } else if |s.seg| == 1 {
      SingleLeaf(s.seg);
    }
  }

  lemma {:induction false} LeafNodeHash(s: Shape, i: nat)
    requires Labelled(s) && i < |Seg(s)| && LeafAt(s, i) == L(LeafAt(s, i).n, [Seg(s)[i]])
    ensures LeafAt(s, i).n.hash == Seg(s)[i]
  {
    if s.B? {
      if i < |Seg(s.l)| { LeafNodeHash(s.l, i); } else { LeafNodeHash(s.r, i - |Seg(s.l)|); }
    }
  }

  /** A cursor of a walk: at a node, with the rest of the index in the top bits of a word. */
  ghost predicate Cursor(t: Shape, x: nat, f: nat, cur: Node, it: nat, height: nat)
    reads Nodes(t)
  {
    && cur == t.n && OnPath(t, x, f) && x < |Seg(t)|
    && 1 <= cur.height <= height <= 31 && (height > 1 ==> it == Bits(x, height))
  }

  lemma CursorStart(t: Shape, x: nat, f: nat)
    requires OnPath(t, x, f) && x < |Seg(t)| && 1 <= t.n.height <= 31
    ensures Cursor(t, x, f, t.n, if t.n.height > 1 then Bits(x, t.n.height) % TWO64 else 0, t.n.height)
  {
    hide OnPath, Seg, Nodes, Bits;
    StepPath(t, x, f);
    if t.n.height > 1 {
      TopBit(x, t.n.height);
    }
  }

  /** One turn of the loop in walk_to and past_path: the level is skipped or the cursor moves down. */
  lemma CursorStep(t: Shape, x: nat, f: nat, cur: Node, it: nat, height: nat)
    requires Cursor(t, x, f, cur, it, height) && height > 1
    ensures cur.height == height ==>
              && t.B? && ((it / TWO63) % 2 == 1 <==> x >= |Seg(t.l)|)
              && cur.left == t.l.n && cur.right == t.r.n
              && Cursor(Below(t, x), BelowIndex(t, x), BelowFlushed(t, x, f),
                        Below(t, x).n, (2 * it) % TWO64, height - 1)
    ensures cur.height < height ==>
              (it / TWO63) % 2 == 0 && Cursor(t, x, f, cur, (2 * it) % TWO64, height - 1)
  {
    hide OnPath, Seg, Nodes, Bits, Pow2;
    StepPath(t, x, f);
    Pow2Monotone(cur.height - 1, height - 1);
    TopBit(x, height);
    TurnTaken(t, x, f, height);
    if cur.height == height {
      StepPath(Below(t, x), BelowIndex(t, x), BelowFlushed(t, x, f));
    }
  }

  lemma CursorEnd(t: Shape, x: nat, f: nat, cur: Node, it: nat, height: nat)
    requires Cursor(t, x, f, cur, it, height) && height <= 1
    ensures t.L? && |Seg(t)| == 1 && x == 0 && Seg(t)[..1] == Seg(t)
    ensures Trail(t, x) == [] && LeafAt(t, x) == t
  {
    StepPath(t, x, f);
  }

  lemma CursorHeight(t: Shape, x: nat, f: nat, cur: Node, it: nat, height: nat)
    requires Cursor(t, x, f, cur, it, height)
    ensures cur == t.n && 1 <= cur.height <= height && x < |Seg(t)| && OnPath(t, x, f)
  {
  }

  /** The loop of walk_to. */
  method Descend(root: Node, index: nat, ghost s: Shape, ghost flushed: nat) returns (cur: Node, trail: seq<Step>)
    requires root == s.n && OnPath(s, index, flushed) && index < |Seg(s)| && 1 <= root.height <= 31
    ensures trail == Trail(s, index) && cur == LeafAt(s, index).n
  {
    hide Cursor, Trail, Seg, LeafAt, OnPath, Bits;
    var it: nat, height := 0, root.height;
    cur, trail := root, [];
    if root.height > 1 {
      it := Bits(index, root.height) % TWO64;
    }
    ghost var t: Shape, x: nat, f: nat := s, index, flushed;
    CursorStart(t, x, f);
    while height > 1
      invariant Cursor(t, x, f, cur, it, height)
      invariant cur.height <= height
      invariant Trail(s, index) == trail + Trail(t, x) && LeafAt(s, index) == LeafAt(t, x) && cur == t.n
      decreases height
    {
      CursorStep(t, x, f, cur, it, height);
      var goRight := (it / TWO63) % 2 == 1;
      if cur.height == height {
        TrailStep(t, x);
        trail := trail + [Step(cur, goRight)];
        cur := if goRight then cur.right else cur.left;
        t, x, f := Below(t, x), BelowIndex(t, x), BelowFlushed(t, x, f);
      }
      it := (2 * it) % TWO64;
      height := height - 1;
      CursorHeight(t, x, f, cur, it, height);
    }
    CursorEnd(t, x, f, cur, it, height);
  }

  /** The callback of path: collects the sibling hash of every turn, the last turn first. */
  method CollectPath(trail: seq<Step>, ghost s: Shape, ghost i: nat, ghost flushed: nat) returns (elements: seq<Element>)
    requires OnWalk(s, i, flushed) && i < |Seg(s)| && trail == Trail(s, i)
    ensures elements == MPath(Seg(s), i)
  {
    hide Pow2, Mth, MPath, Trail, Split, Seg, OnWalk;
    elements := [];
    ghost var t: Shape, x: nat, f: nat := s, i, flushed;
    StepWalk(t, x, f);
    for k := 0 to |trail|
      invariant OnWalk(t, x, f) && trail[k..] == Trail(t, x) && x < |Seg(t)|
      invariant MPath(Seg(s), i) == MPath(Seg(t), x) + elements
    {
      StepWalk(t, x, f);
      TrailHead(t, x, trail[k..]);
      var n, goRight := trail[k].n, trail[k].goRight;
      var e := if goRight then Element(n.left.hash, PathLeft) else Element(n.right.hash, PathRight);
      PathUnfold(Seg(t), x);
      elements := [e] + elements;
      t, x, f := Below(t, x), BelowIndex(t, x), BelowFlushed(t, x, f);
      StepWalk(t, x, f);
    }
    TrailEnd(t, x);
    StepWalk(t, x, f);
    SingleLeaf(Seg(t));
  }
}
