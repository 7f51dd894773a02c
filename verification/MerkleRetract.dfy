/**
 Retraction: on the way down to the new last leaf, every node left to the left takes over the content
 of its left child and drops its right child; sizes are repaired from the bottom afterwards.
 */
module MerkleRetract {
  import opened Powers
  import opened MerkleSpec
  import opened MerkleShape
  import opened MerkleZipper
  import opened MerkleWalk

  ghost function Count(s: Shape): nat {
    1 + if s.B? then Count(s.l) + Count(s.r) else 0
  }

  /** The shape s hanging from node n instead of its own top. */
  ghost function Retop(s: Shape, n: Node): (r: Shape)
    ensures Seg(r) == Seg(s) && r.n == n && Count(r) == Count(s) && (r.B? <==> s.B?)
    ensures s.B? ==> r.l == s.l && r.r == s.r
  {
    match s
    case L(_, seg) => L(n, seg)
    case B(_, l, r) => B(n, l, r)
  }

  /** The shape of the first i + 1 leaves that retract_to leaves behind. */
  ghost function Cut(s: Shape, i: nat): Shape
    decreases Count(s)
  {
    match s
    case L(_, _) => s
    case B(n, l, r) => if i < |Seg(l)| then Cut(Retop(l, n), i) else B(n, l, Cut(r, i - |Seg(l)|))
  }

  lemma RetopCanon(s: Shape, n: Node, f: nat)
    ensures Canon(Retop(s, n), f) <==> Canon(s, f)
    ensures s.B? ==> Live(Retop(s, n), f) == Live(s, f)
    ensures Distinct(s) && n !in Nodes(s) ==> Distinct(Retop(s, n))
    ensures Nodes(Retop(s, n)) <= Nodes(s) + {n}
  {
  }

  /** Cutting the canonical tree gives the canonical tree over fewer leaves, under the same flush. */
  lemma {:induction false} CutCanon(s: Shape, f: nat, i: nat)
    requires Canon(s, f) && f <= i < |Seg(s)|
    ensures Canon(Cut(s, i), f) && Seg(Cut(s, i)) == Seg(s)[..i + 1]
    decreases Count(s)
  {
    hide Pow2, CeilLog, Live, Nodes, Distinct;
    if s.B? {
      CanonSplits(s, f);
      SplitsPositive(s);
      var m := |Seg(s.l)|;
      if i < m {
        RetopCanon(s.l, s.n, f);
        CutCanon(Retop(s.l, s.n), f, i);
      } else {
        CutCanon(s.r, Minus(f, m), i - m);
        assert Seg(s)[..i + 1] == Seg(s.l) + Seg(s.r)[..i + 1 - m];
        PrefixSplit(|Seg(s)|, i + 1);
      }
    } else {
      assert Seg(s)[..1] == Seg(s);
    }
  }

  /** The live leaf nodes of the cut: the earlier ones, and wherever the last leaf has moved to. */
  lemma {:induction false} CutLive(s: Shape, f: nat, i: nat)
    requires Canon(s, f) && f <= i < |Seg(s)|
    ensures |Live(s, f)| == |Seg(s)| - f
    ensures Live(Cut(s, i), f) == Live(s, f)[..i - f] + [LeafAt(Cut(s, i), i).n]
    decreases Count(s)
  {
    hide Pow2, CeilLog, Nodes, Distinct, Split, Live, Canon, Cut, Seg, LeafAt;
    LiveCount(s, f);
    if s.B? {
      LiveTop(s, f);
      CutTop(s, i);
      var m := |Seg(s.l)|;
      if i < m {
        RetopCanon(s.l, s.n, f);
        CutLive(Retop(s.l, s.n), f, i);
        if s.l.L? { SingleLive(s.l, f); }
      } else {
        CutLive(s.r, Minus(f, m), i - m);
        assert Live(s, f)[..i - f] == Live(s.l, f) + Live(s.r, Minus(f, m))[..i - m - Minus(f, m)];
      }
    } else {
      SingleLive(s, f);
      CutTop(s, i);
    }
  }

  lemma SingleLive(s: Shape, f: nat)
    requires s.L? && Canon(s, f) && f < |Seg(s)|
    ensures Live(s, f) == [s.n] && |Seg(s)| == 1
  {
  }

  lemma LiveTop(s: Shape, f: nat)
    requires s.B? && Canon(s, f)
    ensures Live(s, f) == Live(s.l, f) + Live(s.r, Minus(f, |Seg(s.l)|))
    ensures Canon(s.l, f) && Canon(s.r, Minus(f, |Seg(s.l)|)) && |Seg(s)| == |Seg(s.l)| + |Seg(s.r)|
    ensures |Live(s.l, f)| == if f <= |Seg(s.l)| then |Seg(s.l)| - f else 0
  {
    if f <= |Seg(s.l)| { LiveCount(s.l, f); } else { LiveNone(s.l, f); }
  }

  lemma CutTop(s: Shape, i: nat)
    requires i < |Seg(s)|
    ensures s.L? ==> Cut(s, i) == s && LeafAt(s, i) == s
    ensures s.B? && i < |Seg(s.l)| ==> Cut(s, i) == Cut(Retop(s.l, s.n), i)
    ensures s.B? && i >= |Seg(s.l)| ==>
              var c := Cut(s.r, i - |Seg(s.l)|);
              && Cut(s, i) == B(s.n, s.l, c) && LeafAt(Cut(s, i), i) == LeafAt(c, i - |Seg(s.l)|)
              && forall f: nat :: Live(Cut(s, i), f) == Live(s.l, f) + Live(c, Minus(f, |Seg(s.l)|))
  {
  }

  lemma {:induction false} CutNodes(s: Shape, i: nat)
    requires Distinct(s)
    ensures Nodes(Cut(s, i)) <= Nodes(s) && Distinct(Cut(s, i)) && Cut(s, i).n == s.n
    decreases Count(s)
  {
    if s.B? {
      if i < |Seg(s.l)| {
        RetopCanon(s.l, s.n, 0);
        CutNodes(Retop(s.l, s.n), i);
      } else {
        CutNodes(s.r, i - |Seg(s.l)|);
      }
    }
  }

  /** *n = *old_left: n takes over its left child and is marked dirty if it still has children. */
  method Eliminate(n: Node, ghost t: Shape, ghost rep: set<Node>)
    requires n == t.n && t.B? && Distinct(t) && n.left == t.l.n && Good(t.l) && Nodes(t) <= rep
    modifies n, t.l.n
    ensures Good(Retop(t.l, n))
  {
    hide Mth, Pow2, CeilLog, Seg, Good, Linked, Sized, Hashed, Distinct, Nodes;
    DistinctTop(t);
    if t.l.B? {
      DistinctTop(t.l);
    }
    GoodTop(t.l);
    var oldLeft := n.left;
    n.right := null;
    n.hash, n.left, n.right := oldLeft.hash, oldLeft.left, oldLeft.right;
    n.size, n.height, n.dirty := oldLeft.size, oldLeft.height, oldLeft.dirty;
    oldLeft.left := null;
    oldLeft.right := null;
    if n.left != null && n.right != null {
      n.dirty := true;
    }
    RetopGood(t.l, n);
  }

  lemma RetopGood(s: Shape, n: Node)
    requires SizedTop(Retop(s, n))
    requires s.B? ==> n.left == s.l.n && n.right == s.r.n && n.dirty && Good(s.l) && Good(s.r)
    requires s.L? ==> n.left == null && n.right == null && !n.dirty && n.hash == Mth(s.seg)
    ensures Good(Retop(s, n))
  {
  }

  /** The walk stack holds, top to bottom of the tree, every frame node and maybe the focus, with repeats. */
  ghost predicate StackOk(ws: seq<Node>, ds: seq<nat>, z: Zipper) {
    && |ws| == |ds|
    && (forall k | 0 <= k < |ds| :: ds[k] <= |z.frames| && ws[k] == TopAt(z, ds[k]))
    && (forall j, k | 0 <= j < k < |ds| :: ds[j] <= ds[k] && (k == j + 1 ==> ds[k] <= ds[j] + 1))
    && (ds != [] ==> ds[0] == 0)
    && (z.frames != [] ==> ds != [] && ds[|ds| - 1] >= |z.frames| - 1)
  }

  lemma StackPush(ws: seq<Node>, ds: seq<nat>, z: Zipper)
    requires StackOk(ws, ds, z)
    ensures StackOk(ws + [z.focus.n], ds + [|z.frames|], z)
  {
  }

  lemma StackDown(ws: seq<Node>, ds: seq<nat>, z: Zipper)
    requires StackOk(ws, ds, z) && z.focus.B? && ds != [] && ds[|ds| - 1] == |z.frames|
    ensures StackOk(ws, ds, Down(z))
  {
  }

  lemma StackPop(ws: seq<Node>, ds: seq<nat>, z: Zipper)
    requires StackOk(ws, ds, z) && ds != []
    ensures var k := |ds| - 1;
            && ws[k] == TopAt(z, ds[k]) && (ds[k] == |z.frames| || ds[k] == |z.frames| - 1)
            && StackOk(ws[..k], ds[..k], if ds[k] == |z.frames| then z else Up(z))
  {
    var k := |ds| - 1;
    if ds[k] < |z.frames| {
      assert forall j | 0 <= j < k :: ds[j] <= ds[k];
    }
    if k > 0 {
      assert ds[k] <= ds[k - 1] + 1;
    }
  }

  /** What holds of the nodes during the walk down; the sizes of frame nodes are stale. */
  ghost predicate Cutting(z: Zipper, x: nat, target: Shape)
    reads CtxNodes(z.frames), Nodes(z.focus)
  {
    && FramesOk(z.frames) && Chained(z.frames) && LastLinks(z.frames, z.focus.n)
    && Linked(z.focus) && Sized(z.focus) && Hashed(z.focus) && Distinct(Plug(z))
    && Plug(Zipper(z.frames, Cut(z.focus, x))) == target
  }

  /** Going right keeps the node, marked dirty, as a frame. */
  method KeepRight(n: Node, ghost z0: Zipper, ghost x: nat, ghost target: Shape) returns (ghost z: Zipper)
    requires n == z0.focus.n && z0.focus.B? && Cutting(z0, x, target) && x >= |Seg(z0.focus.l)|
    modifies n`dirty
    ensures z == Down(z0) && Cutting(z, x - |Seg(z0.focus.l)|, target)
    ensures CtxNodes(z.frames) + Nodes(z.focus) == CtxNodes(z0.frames) + Nodes(z0.focus)
  {
    hide Plug, Seg, Nodes, CtxNodes, Distinct, Sized, Linked, Hashed, Up, FramesOk, Chained, LastLinks, Cut;
    PlugDistinct(z0);
    DistinctTop(z0.focus);
    TopParts(z0.focus);
    DownUp(z0);
    DownNodes(z0);
    z := Down(z0);
    n.dirty := true;
    SnocOk(z0.frames, Frame(n, z0.focus.l), z0.focus.r.n);
    CutRight(z0, x);
  }

  lemma TopParts(t: Shape)
    requires t.B? && Linked(t) && Sized(t) && Hashed(t)
    ensures t.n.left == t.l.n && t.n.right == t.r.n && Good(t.l) && Good(t.r)
    ensures Linked(t.r) && Sized(t.r) && Hashed(t.r)
  {
  }

  lemma DownNodes(z: Zipper)
    requires z.focus.B?
    ensures CtxNodes(Down(z).frames) == CtxNodes(z.frames) + {z.focus.n} + Nodes(z.focus.l)
    ensures Nodes(z.focus) == {z.focus.n} + Nodes(z.focus.l) + Nodes(z.focus.r)
  {
    assert Down(z).frames[..|z.frames|] == z.frames;
  }

  lemma CutRight(z: Zipper, x: nat)
    requires z.focus.B? && x >= |Seg(z.focus.l)|
    ensures Plug(Zipper(Down(z).frames, Cut(z.focus.r, x - |Seg(z.focus.l)|))) ==
            Plug(Zipper(z.frames, Cut(z.focus, x)))
  {
    var c := Zipper(Down(z).frames, Cut(z.focus.r, x - |Seg(z.focus.l)|));
    assert c.frames[..|z.frames|] == z.frames;
  }

  /** Going left replaces the node by its left child, in place. */
  method DropRight(n: Node, ghost z0: Zipper, ghost x: nat, ghost target: Shape, ghost rep: set<Node>)
    returns (ghost z: Zipper)
    requires n == z0.focus.n && z0.focus.B? && Cutting(z0, x, target) && x < |Seg(z0.focus.l)|
    requires CtxNodes(z0.frames) + Nodes(z0.focus) <= rep
    modifies n, z0.focus.l.n
    ensures z == Zipper(z0.frames, Retop(z0.focus.l, n)) && Cutting(z, x, target)
    ensures CtxNodes(z.frames) + Nodes(z.focus) <= CtxNodes(z0.frames) + Nodes(z0.focus)
  {
    hide Plug, Seg, Nodes, CtxNodes, Distinct, Sized, Linked, Hashed, Up, FramesOk, Chained, LastLinks, Cut;
    PlugDistinct(z0);
    DistinctTop(z0.focus);
    TopParts(z0.focus);
    z := Zipper(z0.frames, Retop(z0.focus.l, n));
    n.dirty := true;
    Eliminate(n, z0.focus, rep);
    RetopCanon(z0.focus.l, n, 0);
    DistinctReplace(z0, z.focus);
    CutLeft(z0.focus, x);
  }

  lemma CutLeft(t: Shape, x: nat)
    requires t.B? && x < |Seg(t.l)|
    ensures Cut(t, x) == Cut(Retop(t.l, t.n), x)
  {
  }

  lemma StartCut(s: Shape, x: nat, f: nat)
    requires OnPath(s, x, f) && Hashed(s) && Distinct(s)
    ensures Cutting(Zipper([], s), x, Cut(s, x)) && StackOk([], [], Zipper([], s))
    ensures CtxNodes([]) == {}
  {
  }

  lemma FocusNodes(z: Zipper, x: nat, target: Shape)
    requires Cutting(z, x, target) && z.focus.B?
    ensures z.focus.n in Nodes(z.focus) && z.focus.l.n in Nodes(z.focus)
    ensures Nodes(z.focus.r) <= Nodes(z.focus) && z.focus.n !in Nodes(z.focus.r)
  {
    hide Plug, CtxNodes, Cut;
    PlugDistinct(z);
  }

  lemma StackRetop(ws: seq<Node>, ds: seq<nat>, z: Zipper, s: Shape)
    requires StackOk(ws, ds, z) && s.n == z.focus.n
    ensures StackOk(ws, ds, Zipper(z.frames, s))
  {
  }

  /** What is known about the left child of the cursor without looking at the heap. */
  lemma CursorLeft(t: Shape, x: nat, f: nat, cur: Node, it: nat, height: nat)
    requires Cursor(t, x, f, cur, it, height) && cur.height == height > 1 && t.B? && x < |Seg(t.l)|
    ensures Canon(t.l, f) && f <= x
    ensures CeilLog(|Seg(t.l)|) + 1 <= height <= 31 && it == Bits(x, height)
  {
    hide Pow2, Nodes, Linked;
    StepPath(t, x, f);
  }

  lemma CursorRetopped(z: Zipper, x: nat, f: nat, it: nat, height: nat, l: Shape, target: Shape)
    requires z.focus == Retop(l, z.focus.n) && Cutting(z, x, target)
    requires Canon(l, f) && f <= x < |Seg(l)|
    requires CeilLog(|Seg(l)|) + 1 <= height <= 31 && it == Bits(x, height)
    ensures Cursor(z.focus, x, f, z.focus.n, it, height)
  {
    hide Pow2, Nodes, CtxNodes, Plug, Cut, Linked, Hashed, Distinct, FramesOk;
    RetopCanon(l, z.focus.n, f);
  }

  /** The walk of retract_to below the root; the hashes it passes become dirty. */
  method CutWalk(root: Node, index: nat, ghost s: Shape, ghost flushed: nat, ghost rep: set<Node>)
    returns (cur: Node, walkStack: seq<Node>, ghost ds: seq<nat>, ghost z: Zipper)
    requires root == s.n && OnPath(s, index, flushed) && index < |Seg(s)| && 1 <= root.height <= 31
    requires Hashed(s) && Distinct(s) && Nodes(s) <= rep
    modifies Nodes(s)
    ensures Cutting(z, 0, Cut(s, index)) && StackOk(walkStack, ds, z) && cur == z.focus.n
    ensures z.focus.L? && |Seg(z.focus)| == 1 && CtxNodes(z.frames) + Nodes(z.focus) <= Nodes(s)
  {
    hide Plug, Seg, Nodes, CtxNodes, Distinct, Sized, Linked, Hashed, Up, Cut, Cutting, Cursor, Bits, OnPath, StackOk;
    cur := root;
    var it: nat, height := 0, root.height;
    walkStack, ds, z := [], [], Zipper([], s);
    if root.height > 1 {
      it := Bits(index, root.height) % TWO64;
    }
    ghost var x: nat, f: nat := index, flushed;
    CursorStart(s, x, f);
    StartCut(s, index, flushed);
    while height > 1
      invariant Cursor(z.focus, x, f, cur, it, height) && cur == z.focus.n
      invariant Cutting(z, x, Cut(s, index)) && StackOk(walkStack, ds, z)
      invariant CtxNodes(z.frames) + Nodes(z.focus) <= Nodes(s)
      decreases height, Count(z.focus)
    {
      CursorStep(z.focus, x, f, cur, it, height);
      CursorHeight(z.focus, x, f, cur, it, height);
      var goRight := (it / TWO63) % 2 == 1;
      StackPush(walkStack, ds, z);
      walkStack, ds := walkStack + [cur], ds + [|z.frames|];
      if cur.height == height {
        FocusNodes(z, x, Cut(s, index));
        if !goRight && cur.right != null {
          CursorLeft(z.focus, x, f, cur, it, height);
          StackRetop(walkStack, ds, z, Retop(z.focus.l, cur));
          ghost var l := z.focus.l;
          z := DropRight(cur, z, x, Cut(s, index), rep);
          CursorRetopped(z, x, f, it, height, l, Cut(s, index));
          continue;
        }
        StackDown(walkStack, ds, z);
        var next := cur.right;
        ghost var y, g := BelowIndex(z.focus, x), BelowFlushed(z.focus, x, f);
        z := KeepRight(cur, z, x, Cut(s, index));
        cur, x, f := next, y, g;
      }
      it := (2 * it) % TWO64;
      height := height - 1;
    }
    CursorEnd(z.focus, x, f, cur, it, height);
  }

  /** One entry of the walk stack: repairs the size of the focus again or of the last frame. */
  method Repair(n: Node, ghost z0: Zipper, ghost d: nat, ghost rep: set<Node>) returns (ghost z: Zipper)
    requires ZipOk(z0) && Distinct(Plug(z0)) && Splits(Plug(z0)) && CtxNodes(z0.frames) + Nodes(z0.focus) <= rep
    requires d <= |z0.frames| && n == TopAt(z0, d) && |z0.frames| <= d + 1
    requires z0.focus.L? ==> |Seg(z0.focus)| == 1
    modifies n`size, n`height
    ensures z == if d == |z0.frames| then z0 else Up(z0)
    ensures ZipOk(z) && Plug(z) == Plug(z0)
    ensures CtxNodes(z.frames) + Nodes(z.focus) == CtxNodes(z0.frames) + Nodes(z0.focus)
    ensures z.focus.L? ==> |Seg(z.focus)| == 1
  {
    hide Plug, Seg, Nodes, CtxNodes, Distinct, Good, Splits, FramesOk, Chained, LastLinks, Linked, Hashed, Sized, SizedTop;
    z := if d == |z0.frames| then z0 else Up(z0);
    RepairTop(z0, z);
    PlugDistinct(z);
    PlugSplits(z);
    if z.focus.B? {
      DistinctTop(z.focus);
      SizedBelow(z.focus);
    }
    n.UpdateSizes();
    if z.focus.B? {
      SizesAgree(z.focus);
      NowGood(z.focus);
    }
    RepairDone(z);
  }

  /** What the zipper to be repaired looks like before the repair. */
  lemma RepairTop(z0: Zipper, z: Zipper)
    requires ZipOk(z0) && (z == z0 || (z0.frames != [] && z == Up(z0)))
    requires z0.focus.L? ==> |Seg(z0.focus)| == 1
    ensures Plug(z) == Plug(z0)
    ensures CtxNodes(z.frames) + Nodes(z.focus) == CtxNodes(z0.frames) + Nodes(z0.focus)
    ensures FramesOk(z.frames) && Chained(z.frames) && LastLinks(z.frames, z.focus.n)
    ensures z.focus.B? ==> Unsized(z.focus)
    ensures z.focus.L? ==> Linked(z.focus) && Hashed(z.focus) && |Seg(z.focus)| == 1 && z.focus.n.left == null
    ensures z.focus.B? ==> Linked(z.focus) && Hashed(z.focus) && Sized(z.focus.l) && Sized(z.focus.r)
  {
    hide Seg, Nodes, CtxNodes, Plug, FrameOk;
    if z != z0 {
      PendingTop(z0);
      var k := |z0.frames| - 1;
      assert k > 0 ==> z0.frames[k - 1].n.right == z0.frames[k].n;
    } else {
      GoodUnsized(z.focus);
    }
  }

  lemma GoodUnsized(s: Shape)
    requires Good(s)
    ensures s.B? ==> Unsized(s)
    ensures s.L? ==> Linked(s) && Hashed(s) && s.n.left == null
  {
  }

  lemma NowGood(s: Shape)
    requires s.B? && Linked(s) && Hashed(s) && Sized(s.l) && Sized(s.r) && SizedTop(s)
    ensures Good(s)
  {
  }

  lemma RepairDone(z: Zipper)
    requires FramesOk(z.frames) && Chained(z.frames) && LastLinks(z.frames, z.focus.n)
    requires if z.focus.B? then Good(z.focus)
             else Linked(z.focus) && Hashed(z.focus) && |Seg(z.focus)| == 1 && z.focus.n.size == z.focus.n.height == 1
    ensures ZipOk(z)
  {
    hide Nodes, CtxNodes, Mth;
  }

  /** Pops the walk stack: deepest nodes first. */
  method RepairSizes(walkStack0: seq<Node>, ghost ds0: seq<nat>, ghost z0: Zipper, ghost target: Shape, ghost rep: set<Node>)
    requires Cutting(z0, 0, target) && StackOk(walkStack0, ds0, z0) && Splits(target) && Distinct(target)
    requires z0.focus.L? && |Seg(z0.focus)| == 1 && CtxNodes(z0.frames) + Nodes(z0.focus) <= rep
    modifies rep`size, rep`height
    ensures Good(target)
  {
    hide Plug, Seg, Nodes, CtxNodes, Distinct, Good, Splits, FramesOk, Chained, LastLinks, Up, ZipOk;
    var walkStack := walkStack0;
    ghost var z, ds := z0, ds0;
    StartRepair(z, target);
    while walkStack != []
      invariant ZipOk(z) && Plug(z) == target && StackOk(walkStack, ds, z) && |ds| == |walkStack|
      invariant CtxNodes(z.frames) + Nodes(z.focus) <= rep
      invariant z.focus.L? ==> |Seg(z.focus)| == 1
      decreases |walkStack|
    {
      var n := walkStack[|walkStack| - 1];
      StackPop(walkStack, ds, z);
      ghost var d := ds[|ds| - 1];
      TopWithin(z, d);
      walkStack, ds := walkStack[..|walkStack| - 1], ds[..|ds| - 1];
      z := Repair(n, z, d, rep);
    }
    EndRepair(z, ds);
  }

  lemma StartRepair(z: Zipper, target: Shape)
    requires Cutting(z, 0, target) && z.focus.L?
    ensures ZipOk(z) && Plug(z) == target
  {
  }

  lemma TopWithin(z: Zipper, d: nat)
    requires d <= |z.frames|
    ensures TopAt(z, d) in CtxNodes(z.frames) + Nodes(z.focus)
  {
  }

  lemma EndRepair(z: Zipper, ds: seq<nat>)
    requires ZipOk(z) && StackOk([], ds, z)
    ensures z.frames == [] && Good(Plug(z))
  {
  }

  /** The leaf the cut ends at is the focus of the walk. */
  lemma {:induction false} CutLeaf(z: Zipper, s: Shape)
    requires Plug(z) == s && z.focus.L? && |Seg(z.focus)| == 1 && |Seg(s)| > 0
    ensures LeafAt(s, |Seg(s)| - 1) == z.focus
  {
    PlugLast(z);
  }

  lemma {:induction false} PlugLast(z: Zipper)
    requires |Seg(z.focus)| > 0
    ensures |Seg(Plug(z))| > 0
    ensures LeafAt(Plug(z), |Seg(Plug(z))| - 1) == LeafAt(z.focus, |Seg(z.focus)| - 1)
    decreases |z.frames|
  {
    if z.frames != [] {
      PlugLast(Up(z));
    }
  }

  lemma CanonOnPath(s: Shape, i: nat, f: nat)
    requires OnWalk(s, i, f) && i < |Seg(s)|
    ensures Hashed(s) && |Seg(Cut(s, i))| == i + 1 && Splits(Cut(s, i))
  {
    hide Seg, Cut, Canon, Splits, Nodes;
    CutCanon(s, f, i);
    CanonSplits(Cut(s, i), f);
  }

  lemma PlugOfCut(z: Zipper, target: Shape)
    requires Cutting(z, 0, target) && z.focus.L?
    ensures Plug(z) == target
  {
  }
}
