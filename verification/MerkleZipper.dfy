/**
 A shape with a distinguished place on its right spine: the frames are the nodes on the way down,
 each with its left subtree, and the focus is the subtree at the place.  The insertion stack of a
 tree is the list of frame nodes, and the node called root by the tree is the top of the focus.
 */
module MerkleZipper {
  import opened Powers
  import opened MerkleSpec
  import opened MerkleShape
  import opened MerkleWalk

  datatype Frame = Frame(n: Node, l: Shape)
  datatype Zipper = Zipper(frames: seq<Frame>, focus: Shape)

  ghost function Up(z: Zipper): Zipper
    requires z.frames != []
  {
    var k := |z.frames| - 1;
    Zipper(z.frames[..k], B(z.frames[k].n, z.frames[k].l, z.focus))
  }

  /** The whole shape. */
  ghost function Plug(z: Zipper): Shape
    decreases |z.frames|
  {
    if z.frames == [] then z.focus else Plug(Up(z))
  }

  ghost function Down(z: Zipper): Zipper
    requires z.focus.B?
  {
    Zipper(z.frames + [Frame(z.focus.n, z.focus.l)], z.focus.r)
  }

  lemma DownUp(z: Zipper)
    requires z.focus.B?
    ensures Up(Down(z)) == z && Plug(Down(z)) == Plug(z)
  {
    assert Down(z).frames[..|z.frames|] == z.frames;
  }

  ghost function CtxNodes(frames: seq<Frame>): (ns: set<Node>)
    ensures forall j | 0 <= j < |frames| :: frames[j].n in ns && Nodes(frames[j].l) <= ns
  {
    if frames == [] then {}
    else
      var k := |frames| - 1;
      CtxNodes(frames[..k]) + {frames[k].n} + Nodes(frames[k].l)
  }

  ghost predicate FrameOk(fr: Frame)
    reads {fr.n} + Nodes(fr.l)
  {
    fr.n.dirty && fr.n.left == fr.l.n && Good(fr.l)
  }

  ghost function TopAt(z: Zipper, j: nat): Node
    requires j <= |z.frames|
  {
    if j < |z.frames| then z.frames[j].n else z.focus.n
  }

  ghost predicate FramesOk(frames: seq<Frame>)
    reads CtxNodes(frames)
  {
    forall j | 0 <= j < |frames| :: FrameOk(frames[j])
  }

  /** Every frame node but the last links to the next one. */
  ghost predicate Chained(frames: seq<Frame>)
    reads CtxNodes(frames)`right
  {
    forall j | 0 <= j < |frames| - 1 :: frames[j].n.right == frames[j + 1].n
  }

  ghost predicate LastLinks(frames: seq<Frame>, top: Node)
    reads CtxNodes(frames)`right
  {
    frames != [] ==> frames[|frames| - 1].n.right == top
  }

  ghost predicate ZipOk(z: Zipper)
    reads CtxNodes(z.frames) + Nodes(z.focus)
  {
    FramesOk(z.frames) && Chained(z.frames) && LastLinks(z.frames, z.focus.n) && Good(z.focus)
  }

  lemma SnocOk(frames: seq<Frame>, fr: Frame, top: Node)
    requires FramesOk(frames) && Chained(frames) && LastLinks(frames, fr.n)
    requires FrameOk(fr) && fr.n.right == top
    ensures FramesOk(frames + [fr]) && Chained(frames + [fr]) && LastLinks(frames + [fr], top)
  {
    hide FrameOk, CtxNodes, Nodes;
    assert frames != [] ==> frames[|frames| - 1].n.right == fr.n;
  }

  lemma {:induction false} PlugNodes(z: Zipper)
    ensures Nodes(Plug(z)) == CtxNodes(z.frames) + Nodes(z.focus)
    decreases |z.frames|
  {
    if z.frames != [] {
      PlugNodes(Up(z));
    }
  }

  lemma {:induction false} PlugDistinct(z: Zipper)
    requires Distinct(Plug(z))
    ensures Distinct(z.focus) && CtxNodes(z.frames) !! Nodes(z.focus)
    ensures forall i | 0 <= i < |z.frames| :: Distinct(z.frames[i].l)
    ensures forall i, j | 0 <= i < |z.frames| && 0 <= j < |z.frames| :: z.frames[i].n !in Nodes(z.frames[j].l)
    ensures forall i, j | 0 <= i < j < |z.frames| :: z.frames[i].n != z.frames[j].n
    decreases |z.frames|
  {
    hide CtxNodes, Nodes, Distinct;
    if z.frames != [] {
      var u := Up(z);
      PlugDistinct(u);
      TopDistinct(z);
      assert forall i | 0 <= i < |u.frames| :: z.frames[i] == u.frames[i] && z.frames[i].n in CtxNodes(u.frames);
    } else {
      assert CtxNodes([]) == {} by { NoCtx(); }
    }
  }

  lemma NoCtx()
    ensures CtxNodes([]) == {}
  {
  }

  /** Around the last frame. */
  lemma TopDistinct(z: Zipper)
    requires z.frames != [] && Distinct(Up(z).focus) && CtxNodes(Up(z).frames) !! Nodes(Up(z).focus)
    ensures var fr := z.frames[|z.frames| - 1];
            && Distinct(fr.l) && Distinct(z.focus) && fr.n !in Nodes(fr.l) && CtxNodes(z.frames) !! Nodes(z.focus)
            && fr.n !in CtxNodes(Up(z).frames) && Nodes(fr.l) !! CtxNodes(Up(z).frames)
            && (forall j | 0 <= j < |z.frames| - 1 :: fr.n !in Nodes(z.frames[j].l))
  {
    assert Nodes(Up(z).focus) == {z.frames[|z.frames| - 1].n} + Nodes(z.frames[|z.frames| - 1].l) + Nodes(z.focus);
    assert forall j | 0 <= j < |z.frames| - 1 :: Nodes(Up(z).frames[j].l) <= CtxNodes(Up(z).frames);
  }

  lemma {:induction false} DistinctReplace(z: Zipper, s: Shape)
    requires Distinct(Plug(z)) && Distinct(s) && Nodes(s) !! CtxNodes(z.frames)
    ensures Distinct(Plug(Zipper(z.frames, s)))
    decreases |z.frames|
  {
    if z.frames != [] {
      PlugDistinct(Up(z));
      var z' := Zipper(z.frames, s);
      DistinctReplace(Up(z), Up(z').focus);
    }
  }

  lemma {:induction false} PlugSplits(z: Zipper)
    requires Splits(Plug(z))
    ensures Splits(z.focus) && |Seg(z.focus)| > 0
    ensures z.frames != [] ==> Splits(Up(z).focus)
    ensures z.frames != [] ==> var l := z.frames[|z.frames| - 1].l; IsPow2(|Seg(l)|) && |Seg(z.focus)| <= |Seg(l)|
    decreases |z.frames|
  {
    if z.frames != [] {
      PlugSplits(Up(z));
      SplitsPositive(Up(z).focus);
    } else {
      SplitsPositive(z.focus);
    }
  }

  /** No level of the spine is full. */
  ghost predicate Open(z: Zipper)
    decreases |z.frames|
  {
    z.frames != [] ==> |Seg(z.focus)| < |Seg(z.frames[|z.frames| - 1].l)| && Open(Up(z))
  }

  lemma {:induction false} OpenAbovePartial(z: Zipper)
    requires Splits(Plug(z)) && !Full(z.focus)
    ensures Open(z)
    decreases |z.frames|
  {
    if z.frames != [] {
      PlugSplits(z);
      var l := z.frames[|z.frames| - 1].l;
      if Full(Up(z).focus) {
        PowersApart(|Seg(l)|, |Seg(Up(z).focus)|);
      }
      OpenAbovePartial(Up(z));
    }
  }

  /** s' is s with one more leaf at its right end, canonical and live as it should be. */
  ghost predicate Grows(s: Shape, s': Shape, x: Hash, leaf: Node) {
    && Seg(s') == Seg(s) + [x]
    && forall f: nat | f < |Seg(s)| && Canon(s, f) :: Canon(s', f) && Live(s', f) == Live(s, f) + [leaf]
  }

  lemma GrowsFull(s: Shape, n: Node, x: Hash, leaf: Node)
    requires Full(s)
    ensures Grows(s, B(n, s, L(leaf, [x])), x, leaf)
  {
    var s' := B(n, s, L(leaf, [x]));
    assert Seg(s') == Seg(s) + [x];
    SplitUnique(|Seg(s')|, |Seg(s)|);
    Pow2IsPow2(0);
    assert forall f: nat | f < |Seg(s)| :: Live(s', f) == Live(s, f) + [leaf];
  }

  lemma GrowsUp(n: Node, l: Shape, s: Shape, s': Shape, x: Hash, leaf: Node)
    requires Grows(s, s', x, leaf) && 0 < |Seg(s)| < |Seg(l)|
    ensures Grows(B(n, l, s), B(n, l, s'), x, leaf)
  {
    var b, b' := B(n, l, s), B(n, l, s');
    assert Seg(b') == Seg(b) + [x];
    forall f: nat | f < |Seg(b)| && Canon(b, f) ensures Canon(b', f) && Live(b', f) == Live(b, f) + [leaf] {
      SplitIsPow2(|Seg(b)|);
      SplitUnique(|Seg(b')|, |Seg(l)|);
      assert Canon(s, Minus(f, |Seg(l)|));
      assert Live(l, f) + (Live(s, Minus(f, |Seg(l)|)) + [leaf]) == Live(b, f) + [leaf];
    }
  }

  lemma {:induction false} GrowsPlug(z: Zipper, s: Shape, x: Hash, leaf: Node)
    requires Grows(z.focus, s, x, leaf) && Open(z) && |Seg(z.focus)| > 0
    ensures Grows(Plug(z), Plug(Zipper(z.frames, s)), x, leaf)
    decreases |z.frames|
  {
    if z.frames != [] {
      var fr, z' := z.frames[|z.frames| - 1], Zipper(z.frames, s);
      GrowsUp(fr.n, fr.l, z.focus, s, x, leaf);
      GrowsPlug(Up(z), Up(z').focus, x, leaf);
    }
  }

  lemma OpenAtTop(z: Zipper)
    requires z.frames == []
    ensures Open(z)
  {
  }

  lemma LeafIsFull(s: Shape)
    requires s.L? && Splits(s)
    ensures Full(s)
  {
  }

  /** What is_full answers at the focus and, when the focus is partial, at its left child. */
  lemma IsFullAtFocus(z: Zipper)
    requires ZipOk(z) && Splits(Plug(z)) && |Seg(Plug(z))| <= MAX_LEAVES
    ensures z.focus.n.height < 31 && (z.focus.n.IsFull() <==> Full(z.focus))
    ensures !Full(z.focus) ==>
              && z.focus.B? && z.focus.n.left == z.focus.l.n && z.focus.n.right == z.focus.r.n
              && z.focus.l.n.height < 31 && z.focus.l.n.IsFull()
  {
    hide Plug, Seg, Nodes, CtxNodes, Good, Linked, Sized, Hashed, Splits, Split, CeilLog, Pow2, Up, Down, IsPow2;
    PlugSplits(z);
    SegWithin(z);
    HeightBound(|Seg(z.focus)|);
    GoodTop(z.focus);
    FullIffSize(z.focus);
    if z.focus.L? {
      LeafIsFull(z.focus);
    } else {
      GoodTop(z.focus.l);
      SplitsPositive(z.focus);
      HeightBound(|Seg(z.focus.l)|);
      FullIffSize(z.focus.l);
    }
  }

  method MarkDirty(n: Node, ghost z0: Zipper) returns (ghost z: Zipper)
    requires n == z0.focus.n && z0.focus.B? && ZipOk(z0) && Open(z0) && !Full(z0.focus)
    requires Distinct(Plug(z0)) && Splits(Plug(z0))
    modifies n`dirty
    ensures z == Down(z0) && Plug(z) == Plug(z0) && Open(z) && ZipOk(z) && n.dirty
    ensures z.frames == z0.frames + [Frame(n, z0.focus.l)] && z.focus == z0.focus.r
    ensures CtxNodes(z.frames) + Nodes(z.focus) == CtxNodes(z0.frames) + Nodes(z0.focus)
    ensures Nodes(z.focus) <= Nodes(z0.focus)
  {
    hide Plug, Seg, Nodes, CtxNodes, Distinct, Good, Linked, Sized, Hashed, Splits, Full, Up, FramesOk, Chained, LastLinks, Open;
    PlugDistinct(z0);
    DistinctTop(z0.focus);
    GoodTop(z0.focus);
    DownUp(z0);
    StepDown(z0);
    z := Down(z0);
    n.dirty := true;
    SnocOk(z0.frames, Frame(n, z0.focus.l), z0.focus.r.n);
  }

  lemma {:induction false} SegWithin(z: Zipper)
    ensures |Seg(z.focus)| <= |Seg(Plug(z))|
    decreases |z.frames|
  {
    if z.frames != [] {
      SegWithin(Up(z));
    }
  }

  /** Moving down the right spine of a partial focus keeps the spine open. */
  lemma StepDown(z: Zipper)
    requires Splits(Plug(z)) && !Full(z.focus) && Open(z)
    ensures z.focus.B? && Open(Down(z))
    ensures CtxNodes(Down(z).frames) == CtxNodes(z.frames) + {z.focus.n} + Nodes(z.focus.l)
  {
    PlugSplits(z);
    DownUp(z);
    PlugSplits(Down(z));
    assert Down(z).frames[..|z.frames|] == z.frames;
    if |Seg(z.focus.r)| == |Seg(z.focus.l)| {
      SplitsPositive(z.focus);
      DoubleIsPow2(|Seg(z.focus.l)|);
    }
  }

  lemma DoubleIsPow2(n: nat)
    requires IsPow2(n)
    ensures IsPow2(2 * n)
  {
    Pow2IsPow2(CeilLog(n) + 1);
  }

  /** Everything about the shape holds except the size and height of its top. */
  ghost predicate Unsized(s: Shape)
    reads Nodes(s)
  {
    s.B? && Linked(s) && Hashed(s) && Sized(s.l) && Sized(s.r)
  }

  method FinishTop(n: Node, ghost z: Zipper, ghost rep: set<Node>)
    requires CtxNodes(z.frames) + Nodes(z.focus) <= rep
    requires n == z.focus.n && Unsized(z.focus) && FramesOk(z.frames) && Chained(z.frames)
    requires Distinct(Plug(z)) && Splits(Plug(z))
    modifies n`size, n`height
    ensures Good(z.focus) && FramesOk(z.frames) && Chained(z.frames)
  {
    hide Plug, Seg, CtxNodes, Distinct, Nodes, Up, FramesOk, Chained, SizedTop, Splits;
    PlugDistinct(z);
    PlugSplits(z);
    DistinctTop(z.focus);
    SizedBelow(z.focus);
    n.UpdateSizes();
    SizesAgree(z.focus);
  }

  lemma SizedBelow(s: Shape)
    requires Unsized(s)
    ensures SizedTop(s.l) && SizedTop(s.r) && s.n.left == s.l.n && s.n.right == s.r.n
    ensures s.l.n in Nodes(s.l) && s.r.n in Nodes(s.r)
  {
  }

  method Attach(n: Node, left: bool, result: Node, ghost z0: Zipper, ghost rep: set<Node>)
    returns (ghost z: Zipper)
    requires CtxNodes(z0.frames) + Nodes(z0.focus) <= rep
    requires z0.frames != [] && n == z0.frames[|z0.frames| - 1].n && !left && result == z0.focus.n
    requires FramesOk(z0.frames) && Chained(z0.frames) && Good(z0.focus)
    requires Distinct(Plug(z0)) && Splits(Plug(z0))
    modifies n
    ensures z == Up(z0) && z.focus.n == n && z.frames == z0.frames[..|z0.frames| - 1]
    ensures ZipOk(z) && Plug(z) == Plug(z0)
    ensures CtxNodes(z.frames) + Nodes(z.focus) == CtxNodes(z0.frames) + Nodes(z0.focus)
    ensures CtxNodes(z.frames) <= CtxNodes(z0.frames)
  {
    hide Seg, CtxNodes, Distinct, Nodes, Good, SizedTop, Splits, Linked, Sized, Hashed, Plug;
    z := Up(z0);
    UpUnfold(z0);
    PlugDistinct(z);
    PlugSplits(z);
    DistinctTop(z.focus);
    var oldLeft, oldRight := n.left, n.right;
    n.left, n.right := if left then result else oldLeft, if left then oldRight else result;
    n.dirty := true;
    GoodTop(z.focus.l);
    GoodTop(z.focus.r);
    n.UpdateSizes();
    SizesAgree(z.focus);
    GoodFromParts(z.focus);
  }

  lemma GoodFromParts(s: Shape)
    requires s.B? && Good(s.l) && Good(s.r) && SizedTop(s)
    requires s.n.left == s.l.n && s.n.right == s.r.n && s.n.dirty
    ensures Good(s)
  {
  }

  lemma UpUnfold(z: Zipper)
    requires z.frames != []
    ensures Plug(Up(z)) == Plug(z)
    ensures CtxNodes(Up(z).frames) + Nodes(Up(z).focus) == CtxNodes(z.frames) + Nodes(z.focus)
    ensures CtxNodes(Up(z).frames) <= CtxNodes(z.frames)
  {
  }

  lemma NoFrames(z: Zipper)
    requires z.frames == [] && Good(z.focus)
    ensures ZipOk(z)
  {
  }

  lemma FullAtFocus(z: Zipper)
    requires ZipOk(z) && Splits(Plug(z)) && |Seg(Plug(z))| <= MAX_LEAVES
    ensures z.focus.n.height < 31 && (z.focus.n.IsFull() <==> Full(z.focus))
  {
    hide Plug, Seg, CtxNodes, Nodes, FramesOk, Chained, LastLinks, Splits, Pow2, CeilLog;
    IsFullAtFocus(z);
  }

  lemma TopShape(z: Zipper)
    requires z.frames == []
    ensures Plug(z) == z.focus && CtxNodes(z.frames) == {} && z == Zipper([], z.focus)
  {
  }

  /** The focus covers all leaves only when there is no frame. */
  lemma {:induction false} FocusPart(z: Zipper)
    requires Splits(Plug(z))
    ensures |Seg(z.focus)| <= |Seg(Plug(z))|
    ensures |Seg(z.focus)| == |Seg(Plug(z))| <==> z.frames == []
    decreases |z.frames|
  {
    if z.frames != [] {
      PlugSplits(z);
      SplitsPositive(Up(z).focus);
      FocusPart(Up(z));
    }
  }

  lemma FirstLeaf(n: Node, x: Hash)
    requires n.IsLeaf(x)
    ensures var z := Zipper([], L(n, [x]));
            && Plug(z) == z.focus && Seg(z.focus) == [x] && ZipOk(z) && Distinct(z.focus)
            && Canon(z.focus, 0) && Live(z.focus, 0) == [n]
            && CtxNodes(z.frames) + Nodes(z.focus) == {n}
  {
    Pow2IsPow2(0);
  }

  /** The fresh node over a full focus and a new leaf, seen in the whole shape. */
  lemma NewTop(z: Zipper, e: Node, n: Node, x: Hash, f: nat)
    requires Open(z) && Full(z.focus) && ZipOk(z) && Distinct(Plug(z))
    requires Canon(Plug(z), f) && f < |Seg(Plug(z))|
    requires e !in CtxNodes(z.frames) + Nodes(z.focus) && n !in CtxNodes(z.frames) + Nodes(z.focus) && e != n
    requires e.left == z.focus.n && e.right == n && e.dirty && n.IsLeaf(x)
    ensures var r0 := B(e, z.focus, L(n, [x]));
            var s := Plug(Zipper(z.frames, r0));
            && Unsized(r0) && Distinct(s) && Splits(s) && Canon(s, f) && f < |Seg(s)|
            && Seg(s) == Seg(Plug(z)) + [x] && Live(s, f) == Live(Plug(z), f) + [n]
            && Nodes(r0) == Nodes(z.focus) + {e, n}
            && FramesOk(z.frames) && Chained(z.frames)
  {
    hide Plug, Seg, CtxNodes, Canon, Splits, Full, Live, Up, Pow2, CeilLog, Open, FramesOk, Chained, LastLinks;
    var r0 := B(e, z.focus, L(n, [x]));
    PlugDistinct(z);
    DistinctReplace(z, r0);
    CanonSplits(Plug(z), f);
    PlugSplits(z);
    GrowsFull(z.focus, e, x, n);
    GrowsPlug(z, r0, x, n);
    CanonSplits(Plug(Zipper(z.frames, r0)), f);
    NewTopUnsized(z.focus, e, n, x);
  }

  lemma NewTopUnsized(s: Shape, e: Node, n: Node, x: Hash)
    requires Good(s) && e.left == s.n && e.right == n && e.dirty && n.IsLeaf(x)
    ensures Unsized(B(e, s, L(n, [x])))
  {
    var leaf := L(n, [x]);
    assert Sized(leaf) && Hashed(leaf) && Linked(leaf) by { SingleLeaf([x]); }
    assert Seg(B(e, s, leaf)) == Seg(s) + [x];
  }

  lemma PendingTop(z: Zipper)
    requires z.frames != [] && ZipOk(z)
    ensures var k := |z.frames| - 1;
            && Up(z) == Zipper(z.frames[..k], B(z.frames[k].n, z.frames[k].l, z.focus))
            && Plug(Up(z)) == Plug(z) && Unsized(Up(z).focus)
            && FramesOk(z.frames[..k]) && Chained(z.frames[..k])
            && CtxNodes(Up(z).frames) + Nodes(Up(z).focus) == CtxNodes(z.frames) + Nodes(z.focus)
            && CtxNodes(Up(z).frames) <= CtxNodes(z.frames) && Up(z).focus.n in CtxNodes(z.frames)
  {
    hide Seg, Nodes, CtxNodes, Plug, FrameOk;
    UpUnfold(z);
    var k := |z.frames| - 1;
    FrameUnsized(z.frames[k], z.focus);
    assert forall j | 0 <= j < k - 1 :: z.frames[j].n.right == z.frames[j + 1].n;
  }

  lemma FrameUnsized(fr: Frame, s: Shape)
    requires FrameOk(fr) && Good(s) && fr.n.right == s.n
    ensures Unsized(B(fr.n, fr.l, s))
  {
  }

  lemma {:induction false} LabelledPlug(z: Zipper)
    requires FramesOk(z.frames) && Good(z.focus)
    ensures Labelled(Plug(z))
  {
    HashedLabelled(z.focus);
    LabelledUp(z);
  }

  lemma {:induction false} LabelledUp(z: Zipper)
    requires FramesOk(z.frames) && Labelled(z.focus)
    ensures Labelled(Plug(z))
    decreases |z.frames|
  {
    hide Hashed, Linked, Sized, Nodes, CtxNodes;
    if z.frames != [] {
      var k := |z.frames| - 1;
      assert FrameOk(z.frames[k]);
      HashedLabelled(z.frames[k].l);
      assert FramesOk(z.frames[..k]);
      LabelledUp(Up(z));
    }
  }

  // Where a lazy insertion stops

  /** The first place above z that is not full, or the top. */
  ghost function Settle(z: Zipper): Zipper
    decreases |z.frames|
  {
    if z.frames == [] then z else if Full(Up(z).focus) then Settle(Up(z)) else Up(z)
  }

  /** How many leaves the subtree in focus has after a lazy insertion that makes them m in all. */
  function LazyFocus(m: nat): (c: nat)
    ensures c <= m
    ensures m >= 2 ==> (c == m <==> IsPow2(m - Split(m)) || IsPow2(m - Split(m) - 1))
  {
    if m < 2 then m
    else if IsPow2(m - Split(m)) || IsPow2(m - Split(m) - 1) then m
    else LazyFocus(m - Split(m))
  }

  lemma NotPower(l: nat, x: nat)
    requires IsPow2(l) && 0 < x < l
    ensures !IsPow2(l + x)
  {
    if IsPow2(l + x) {
      PowersApart(l, l + x);
    }
  }

  /** The sizes around the place above z. */
  lemma UpParts(z: Zipper)
    requires z.frames != [] && Splits(Plug(z))
    ensures var l, c, m := |Seg(z.frames[|z.frames| - 1].l)|, |Seg(z.focus)|, |Seg(Up(z).focus)|;
            && m == l + c && 0 < c <= l && IsPow2(l) && m >= 2 && Split(m) == l && Plug(Up(z)) == Plug(z)
  {
    hide IsPow2, Split;
    PlugSplits(z);
  }

  lemma UpSizes(z: Zipper)
    requires z.frames != [] && Splits(Plug(z)) && 2 <= |Seg(z.focus)|
    ensures var c, m := |Seg(z.focus)|, |Seg(Up(z).focus)|;
            && m >= 2 && m - Split(m) == c && Plug(Up(z)) == Plug(z)
            && (!IsPow2(m) ==> !IsPow2(m - 1)) && (!IsPow2(c) ==> !IsPow2(m))
  {
    hide Seg, Splits, Plug, Up, Split, IsPow2;
    UpParts(z);
    var l, c := |Seg(z.frames[|z.frames| - 1].l)|, |Seg(z.focus)|;
    if c < l {
      NotPower(l, c - 1);
      NotPower(l, c);
    } else {
      DoublePower(l);
    }
  }

  lemma DoublePower(l: nat)
    requires IsPow2(l)
    ensures IsPow2(l + l)
  {
    Pow2IsPow2(CeilLog(l) + 1);
  }

  /** Above a place that is not full, nor one leaf beyond, the answer stays the same. */
  lemma {:induction false} Stopped(z: Zipper)
    requires Splits(Plug(z)) && 2 <= |Seg(z.focus)| && !IsPow2(|Seg(z.focus)|) && !IsPow2(|Seg(z.focus)| - 1)
    ensures LazyFocus(|Seg(Plug(z))|) == LazyFocus(|Seg(z.focus)|)
    decreases |z.frames|
  {
    hide Splits, Seg, Split, IsPow2;
    if z.frames == [] {
      TopShape(z);
    } else {
      UpSizes(z);
      Stopped(Up(z));
    }
  }

  /** The place where the insertion stops is determined by the number of leaves. */
  lemma {:induction false} SettleSize(z: Zipper)
    requires Splits(Plug(z)) && 2 <= |Seg(z.focus)|
    requires IsPow2(|Seg(z.focus)|) || IsPow2(|Seg(z.focus)| - 1)
    requires LazyFocus(|Seg(z.focus)|) == |Seg(z.focus)|
    ensures |Seg(Settle(z).focus)| == LazyFocus(|Seg(Plug(z))|)
    decreases |z.frames|
  {
    hide Splits, Seg, Split, IsPow2;
    if z.frames == [] {
      TopShape(z);
    } else {
      UpSizes(z);
      if Full(Up(z).focus) {
        SettleSize(Up(z));
      } else {
        Stopped(Up(z));
      }
    }
  }

  lemma SettleUp(z: Zipper)
    ensures z.frames == [] ==> Settle(z) == z
    ensures z.frames != [] ==> Settle(z) == if Full(Up(z).focus) then Settle(Up(z)) else Up(z)
  {
  }

  /** A new node over a full subtree and one leaf settles where the number of leaves says. */
  lemma SettledAt(z: Zipper, x: Hash)
    requires z.focus.B? && Full(z.focus.l) && z.focus.r.L? && z.focus.r.seg == [x] && Splits(Plug(z))
    ensures |Seg(Settle(z).focus)| == LazyFocus(|Seg(Plug(z))|)
  {
    hide Splits, Plug;
    PlugSplits(z);
    var d := |Seg(z.focus.l)|;
    assert |Seg(z.focus)| == d + 1;
    SplitUnique(d + 1, d);
    assert IsPow2(1) by { Pow2IsPow2(0); }
    SettleSize(z);
  }
}
