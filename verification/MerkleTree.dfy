/**
 The tree: lazy insertion through a continuation stack, dirty-flag hashing, flushing and retraction.
 Its abstract state is the sequence of all leaf hashes and the number of flushed ones.
 */
module MerkleTree {
  import opened Options
  import opened Powers
  import opened MerkleSpec
  import opened MerkleShape
  import opened MerkleZipper
  import opened MerkleWalk
  import opened MerklePast
  import opened MerkleFlush
  import opened MerkleRetract
  import opened MerkleCodec
  import opened MerkleRows

  datatype StackElement = StackElement(n: Node, left: bool)

  ghost predicate Stacked(stack: seq<StackElement>, frames: seq<Frame>) {
    |stack| == |frames| && forall j | 0 <= j < |stack| :: stack[j] == StackElement(frames[j].n, false)
  }

  datatype Walk = Walk(leaf: Node, trail: seq<Step>)

  /** PathT: the leaf hash, its index, the elements from the leaf to the root, and the last index. */
  datatype Path = Path(leaf: Hash, leafIndex: nat, elements: seq<Element>, maxIndex: nat) {

    /** PathT::root: hashes the elements in order. */
    method Root() returns (result: Hash)
      ensures result == Fold(leaf, elements)
    {
      result := leaf;
      for k := 0 to |elements|
        invariant result == Fold(leaf, elements[..k])
      {
        var e := elements[k];
        assert elements[..k + 1] == elements[..k] + [e];
        FoldSnoc(leaf, elements[..k], e);
        if e.direction == PathLeft {
          result := HashFunction(e.hash, result);
        } else {
          result := HashFunction(result, e.hash);
        }
      }
      assert elements[..|elements|] == elements;
    }

    method Verify(expected: Hash) returns (ok: bool)
      ensures ok <==> Fold(leaf, elements) == expected
    {
      var r := Root();
      ok := r == expected;
    }
  }

  class Tree {
    var leafNodes: seq<Node>
    var uninserted: seq<Node>
    var numFlushed: nat
    var root: Node?
    var insertionStack: seq<StackElement>

    ghost var leaves: seq<Hash>
    ghost var zip: Option<Zipper>
    ghost var Repr: set<Node>

    /** The leaves already in the node structure. */
    ghost function Inserted(): seq<Hash>
      reads `zip
    {
      if zip.None? then [] else Seg(Plug(zip.value))
    }

    ghost function ZipNodes(): set<Node>
      reads `zip
    {
      if zip.None? then {} else CtxNodes(zip.value.frames) + Nodes(zip.value.focus)
    }

    /** The part of the invariant that does not mention the leaves waiting for insertion. */
    ghost predicate CoreValid()
      reads `zip, `root, `insertionStack, `leafNodes, `numFlushed, ZipNodes()
    {
      match zip
      case None => root == null && insertionStack == [] && leafNodes == [] && numFlushed == 0
      case Some(z) =>
        && root == z.focus.n
        && Stacked(insertionStack, z.frames)
        && Distinct(Plug(z))
        && Canon(Plug(z), numFlushed) && numFlushed < |Seg(Plug(z))| <= MAX_LEAVES
        && leafNodes == Live(Plug(z), numFlushed)
        && ZipOk(z)
        && (z.frames != [] ==> !Full(z.focus))
    }

    /** The nodes waiting for insertion are new leaves for the last of the leaf hashes. */
    ghost predicate WaitingOk(ns: seq<Node>)
      reads `leaves, `zip, ns
    {
      && |leaves| == |Inserted()| + |ns| <= MAX_LEAVES
      && Inserted() <= leaves
      && (forall i | 0 <= i < |ns| :: ns[i] !in ZipNodes() && ns[i].IsLeaf(leaves[|Inserted()| + i]))
      && (forall i, j | 0 <= i < j < |ns| :: ns[i] != ns[j])
    }

    /** The subtree in focus is where a lazy insertion of the last leaf stops. */
    ghost predicate Lazy()
      reads `zip
    {
      zip.Some? && |Seg(zip.value.focus)| == LazyFocus(|Inserted()|)
    }

    ghost predicate Valid()
      reads this, Repr
    {
      && ZipNodes() <= Repr && (forall n | n in uninserted :: n in Repr)
      && CoreValid() && WaitingOk(uninserted)
    }

    /** No leaf waits, no stack is pending and every node is clean. */
    ghost predicate Ready()
      reads this, Repr
    {
      Valid() && uninserted == [] && insertionStack == [] && root != null && !root.dirty
    }

    constructor ()
      ensures Valid() && fresh(Repr) && leaves == [] && numFlushed == 0
    {
      leafNodes, uninserted, numFlushed, root, insertionStack := [], [], 0, null, [];
      leaves, zip, Repr := [], None, {};
    }

    method Insert(h: Hash)
      requires Valid() && |leaves| < MAX_LEAVES
      modifies `uninserted, `leaves, `Repr
      ensures Valid() && fresh(Repr - old(Repr))
      ensures leaves == old(leaves) + [h] && |uninserted| == |old(uninserted)| + 1
    {
      hide CoreValid, Inserted, ZipNodes;
      var n := new Node.Leaf(h);
      uninserted := uninserted + [n];
      leaves := leaves + [h];
      Repr := Repr + {n};
    }

    /** Descends to the full subtree that the new leaf joins; the left branch is never taken. */
    method ContinueInsertionStack(n0: Node, newLeaf: Node, ghost z0: Zipper) returns (ghost z: Zipper)
      requires n0 == z0.focus.n && Stacked(insertionStack, z0.frames) && ZipOk(z0)
      requires Distinct(Plug(z0)) && Splits(Plug(z0)) && |Seg(Plug(z0))| <= MAX_LEAVES
      requires z0.frames != [] ==> !Full(z0.focus)
      requires CtxNodes(z0.frames) + Nodes(z0.focus) <= Repr
      modifies `insertionStack, Nodes(z0.focus)`dirty
      ensures Plug(z) == Plug(z0) && Open(z) && Full(z.focus) && ZipOk(z)
      ensures CtxNodes(z.frames) + Nodes(z.focus) == CtxNodes(z0.frames) + Nodes(z0.focus)
      ensures |insertionStack| == |z.frames| + 1 && Stacked(insertionStack[..|z.frames|], z.frames)
      ensures var e := insertionStack[|z.frames|];
              !e.left && fresh(e.n) && e.n.left == z.focus.n && e.n.right == newLeaf && e.n.dirty
    {
      hide Plug, Seg, Nodes, CtxNodes, Distinct, Good, Splits, Full, FramesOk, Chained, LastLinks, Up, Down;
      var n: Node := n0;
      z := z0;
      if z.frames == [] {
        OpenAtTop(z);
      } else {
        OpenAbovePartial(z);
      }
      while true
        invariant n == z.focus.n && Stacked(insertionStack, z.frames) && ZipOk(z) && Open(z)
        invariant Plug(z) == Plug(z0)
        invariant CtxNodes(z.frames) + Nodes(z.focus) == CtxNodes(z0.frames) + Nodes(z0.focus)
        invariant Nodes(z.focus) <= Nodes(z0.focus)
        decreases z.focus
      {
        IsFullAtFocus(z);
        if n.IsFull() {
          var result := new Node.Inner(n, newLeaf);
          insertionStack := insertionStack + [StackElement(result, false)];
          return;
        }
        var left, right := n.left, n.right;
        var goLeft := !left.IsFull();
        assert !goLeft;
        insertionStack := insertionStack + [StackElement(n, goLeft)];
        var next := if goLeft then left else right;
        z := MarkDirty(n, z);
        n := next;
      }
    }

    /** Completes the top entry, then hangs each result below the entry under it. */
    method ProcessInsertionStack(complete: bool, ghost fr: seq<Frame>, ghost r0: Shape)
      returns (result: Node, ghost z: Zipper)
      requires |insertionStack| == |fr| + 1 && Stacked(insertionStack[..|fr|], fr)
      requires insertionStack[|fr|].n == r0.n && r0.B?
      requires FramesOk(fr) && Chained(fr) && Unsized(r0)
      requires Distinct(Plug(Zipper(fr, r0))) && Splits(Plug(Zipper(fr, r0)))
      requires |Seg(Plug(Zipper(fr, r0)))| <= MAX_LEAVES
      requires CtxNodes(fr) + Nodes(r0) <= Repr
      modifies `insertionStack, CtxNodes(fr), r0.n
      ensures result == z.focus.n && Stacked(insertionStack, z.frames)
      ensures ZipOk(z) && Plug(z) == Plug(Zipper(fr, r0))
      ensures CtxNodes(z.frames) + Nodes(z.focus) == CtxNodes(fr) + Nodes(r0)
      ensures if complete then z.frames == [] else z == Settle(Zipper(fr, r0))
      ensures z.frames != [] ==> !Full(z.focus)
    {
      hide Plug, Seg, Nodes, CtxNodes, Distinct, Good, Splits, Full, FramesOk, Chained, LastLinks, Up, Unsized, Settle;
      result := insertionStack[|insertionStack| - 1].n;
      insertionStack := insertionStack[..|insertionStack| - 1];
      z := Zipper(fr, r0);
      FinishTop(result, z, Repr);
      while insertionStack != []
        invariant result == z.focus.n && Stacked(insertionStack, z.frames)
        invariant FramesOk(z.frames) && Chained(z.frames) && Good(z.focus)
        invariant Plug(z) == Plug(Zipper(fr, r0))
        invariant CtxNodes(z.frames) + Nodes(z.focus) == CtxNodes(fr) + Nodes(r0)
        invariant CtxNodes(z.frames) <= CtxNodes(fr)
        invariant !complete ==> Settle(z) == Settle(Zipper(fr, r0))
        decreases |insertionStack|
      {
        var top := insertionStack[|insertionStack| - 1];
        insertionStack := insertionStack[..|insertionStack| - 1];
        SettleUp(z);
        z := Attach(top.n, top.left, result, z, Repr);
        result := top.n;
        FullAtFocus(z);
        if !complete && !result.IsFull() {
          return;
        }
      }
      NoFrames(z);
      SettleUp(z);
    }

    method InsertLeaf(n: Node, ghost x: Hash)
      requires CoreValid() && ZipNodes() <= Repr && n in Repr - ZipNodes() && n.IsLeaf(x)
      requires |Inserted()| < MAX_LEAVES
      modifies `leafNodes, `root, `insertionStack, `zip, `Repr, ZipNodes()
      ensures CoreValid() && Inserted() == old(Inserted()) + [x]
      ensures ZipNodes() <= Repr && Repr >= old(Repr) && fresh(Repr - old(Repr))
      ensures ZipNodes() <= old(ZipNodes()) + {n} + (Repr - old(Repr))
      ensures Lazy()
    {
      hide Plug, Seg, Nodes, CtxNodes, Distinct, Splits, Canon, Full, Live, ZipOk, Up, Unsized;
      leafNodes := leafNodes + [n];
      if insertionStack == [] && root == null {
        root := n;
        zip := Some(Zipper([], L(n, [x])));
        FirstLeaf(n, x);
      } else {
        ghost var z := InsertBelowRoot(n, x, zip.value);
        zip := Some(z);
      }
    }

    /** insert_leaf when there is a root: extends the stack by one leaf and processes it lazily. */
    method InsertBelowRoot(n: Node, ghost x: Hash, ghost z0: Zipper) returns (ghost z: Zipper)
      requires root == z0.focus.n && Stacked(insertionStack, z0.frames) && ZipOk(z0)
      requires Distinct(Plug(z0)) && Canon(Plug(z0), numFlushed) && numFlushed < |Seg(Plug(z0))| < MAX_LEAVES
      requires z0.frames != [] ==> !Full(z0.focus)
      requires CtxNodes(z0.frames) + Nodes(z0.focus) <= Repr
      requires n in Repr - (CtxNodes(z0.frames) + Nodes(z0.focus)) && n.IsLeaf(x)
      modifies `root, `insertionStack, `Repr, CtxNodes(z0.frames) + Nodes(z0.focus)
      ensures root == z.focus.n && Stacked(insertionStack, z.frames) && ZipOk(z)
      ensures Distinct(Plug(z)) && Canon(Plug(z), numFlushed)
      ensures Seg(Plug(z)) == Seg(Plug(z0)) + [x]
      ensures Live(Plug(z), numFlushed) == Live(Plug(z0), numFlushed) + [n]
      ensures z.frames != [] ==> !Full(z.focus)
      ensures Repr >= old(Repr) && fresh(Repr - old(Repr)) && CtxNodes(z.frames) + Nodes(z.focus) <= Repr
      ensures CtxNodes(z.frames) + Nodes(z.focus) <=
              CtxNodes(z0.frames) + Nodes(z0.focus) + {n} + (Repr - old(Repr))
      ensures |Seg(z.focus)| == LazyFocus(|Seg(Plug(z))|)
    {
      hide Plug, Seg, Nodes, CtxNodes, Distinct, Splits, Canon, Full, Live, ZipOk, Up, Unsized, Settle, LazyFocus;
      CanonSplits(Plug(z0), numFlushed);
      z := ContinueInsertionStack(root, n, z0);
      ghost var e := insertionStack[|z.frames|].n;
      Repr := Repr + {e};
      ghost var r0 := B(e, z.focus, L(n, [x]));
      NewTop(z, e, n, x, numFlushed);
      SettledAt(Zipper(z.frames, r0), x);
      root, z := ProcessInsertionStack(false, z.frames, r0);
    }

    method InsertLeaves(complete: bool)
      requires Valid()
      modifies `leafNodes, `uninserted, `root, `insertionStack, `zip, `Repr, Repr
      ensures Valid() && fresh(Repr - old(Repr)) && uninserted == []
      ensures complete ==> insertionStack == []
      ensures !complete && old(uninserted) != [] ==> Lazy()
      ensures !complete && old(uninserted) == [] ==> insertionStack == old(insertionStack)
    {
      hide CoreValid, Plug, Seg, Nodes, CtxNodes, Lazy;
      if uninserted != [] {
        var k := 0;
        while k < |uninserted|
          invariant k <= |uninserted| && uninserted == old(uninserted)
          invariant CoreValid() && WaitingOk(uninserted[k..])
          invariant ZipNodes() <= Repr && forall n | n in uninserted :: n in Repr
          invariant Repr >= old(Repr) && fresh(Repr - old(Repr))
          invariant k > 0 ==> Lazy()
        {
          ghost var rest := uninserted[k..];
          assert uninserted[k] == rest[0] && uninserted[k + 1..] == rest[1..];
          InsertLeaf(uninserted[k], leaves[|Inserted()|]);
          k := k + 1;
        }
        uninserted := [];
      }
      if complete && insertionStack != [] {
        CompleteStack();
      }
    }

    method CompleteStack()
      requires CoreValid() && insertionStack != [] && ZipNodes() <= Repr
      modifies `root, `insertionStack, `zip, ZipNodes()
      ensures CoreValid() && Inserted() == old(Inserted()) && insertionStack == []
      ensures ZipNodes() == old(ZipNodes())
    {
      hide Plug, Seg, Nodes, CtxNodes, Distinct, Splits, Canon, Full, Live, ZipOk, Up, Unsized;
      ghost var z := zip.value;
      CanonSplits(Plug(z), numFlushed);
      PendingTop(z);
      root, z := ProcessInsertionStack(true, z.frames[..|z.frames| - 1], Up(z).focus);
      zip := Some(z);
    }

    function NumLeaves(): nat
      reads `numFlushed, `leafNodes, `uninserted
    {
      numFlushed + |leafNodes| + |uninserted|
    }

    function MaxIndex(): nat
      reads `numFlushed, `leafNodes, `uninserted
    {
      if NumLeaves() == 0 then 0 else NumLeaves() - 1
    }

    lemma Counted()
      requires Valid()
      ensures NumLeaves() == |leaves| && (leaves != [] ==> numFlushed < |leaves|)
      ensures numFlushed + |leafNodes| == |Inserted()| && (zip.None? <==> Inserted() == [])
    {
      hide ZipOk, Plug, Distinct, Seg, Nodes, CtxNodes, Canon, Live;
      if zip.Some? {
        LiveCount(Plug(zip.value), numFlushed);
      }
    }

    /** Inserts what waits, completes the stack, and rehashes what is dirty; false for the empty tree. */
    method ComputeRoot() returns (ok: bool)
      requires Valid()
      modifies `leafNodes, `uninserted, `root, `insertionStack, `zip, `Repr, Repr
      ensures Valid() && fresh(Repr - old(Repr))
      ensures ok <==> leaves != []
      ensures ok ==> Ready()
    {
      hide CoreValid, WaitingOk, Inserted;
      InsertLeaves(true);
      Counted();
      if NumLeaves() == 0 {
        return false;
      }
      ghost var s := RootShape();
      if root.dirty {
        HashNode(root, s);
      }
      SettledAgain(s);
      ok := true;
    }

    /** Without a pending stack the whole shape hangs below root. */
    lemma RootShape() returns (s: Shape)
      requires Valid() && uninserted == [] && insertionStack == [] && leaves != []
      ensures Settled(s) && Nodes(s) <= Repr && root == s.n
      ensures Splits(s) && (root.dirty ==> s.B?)
    {
      hide Plug, Distinct, Seg, Nodes, Canon, Live, Splits, Full, CtxNodes;
      Counted();
      s := zip.value.focus;
      TopShape(zip.value);
      CanonSplits(s, numFlushed);
      GoodTop(s);
    }

    ghost predicate Settled(s: Shape)
      reads `zip, `root, `insertionStack, `leafNodes, `numFlushed, `leaves, Nodes(s)
    {
      && zip == Some(Zipper([], s)) && root == s.n && insertionStack == []
      && Distinct(s) && Good(s) && Canon(s, numFlushed) && numFlushed < |Seg(s)| <= MAX_LEAVES
      && Seg(s) == leaves && leafNodes == Live(s, numFlushed)
    }

    lemma SettledAgain(s: Shape)
      requires Settled(s) && Nodes(s) <= Repr && uninserted == []
      ensures Valid()
    {
      hide Distinct, Seg, Nodes, Canon, Live, Full, Good;
      TopShape(zip.value);
      NoFrames(zip.value);
    }

    /** Extracts the root hash; the empty tree has none. */
    method Root() returns (r: Option<Hash>)
      requires Valid()
      modifies `leafNodes, `uninserted, `root, `insertionStack, `zip, `Repr, Repr
      ensures Valid() && fresh(Repr - old(Repr))
      ensures r == if leaves == [] then None else Some(Mth(leaves))
    {
      hide CoreValid, WaitingOk, Inserted, Mth;
      var ok := ComputeRoot();
      if !ok {
        return None;
      }
      ghost var s := RootShape();
      CleanRoot(s);
      r := Some(root.hash);
    }

    lemma CleanRoot(s: Shape)
      requires Settled(s) && !root.dirty
      ensures root.hash == Mth(leaves)
    {
      hide Distinct, Nodes, Canon, Live, Mth;
      CleanBelow(s);
    }

    /**
     The node count that size() reports.  With leaves waiting, it is that of the subtree where the last of them
     stopped, which their number alone decides; otherwise it is right exactly when no stack was left pending.
     */
    method Size() returns (r: nat)
      requires Valid()
      modifies `leafNodes, `uninserted, `root, `insertionStack, `zip, `Repr, Repr
      ensures Valid() && fresh(Repr - old(Repr))
      ensures leaves == [] ==> r == 0
      ensures leaves != [] ==> zip.Some? && r == 2 * |Seg(zip.value.focus)| - 1
      ensures leaves != [] ==> (r == 2 * |leaves| - 1 <==> insertionStack == []) && r <= 2 * |leaves| - 1
      ensures old(uninserted) != [] ==> r == 2 * LazyFocus(|leaves|) - 1
      ensures old(uninserted) == [] && leaves != [] ==> (r == 2 * |leaves| - 1 <==> old(insertionStack) == [])
    {
      hide CoreValid, WaitingOk, Inserted, LazyFocus, Seg;
      if uninserted != [] {
        InsertLeaves(false);
      }
      Counted();
      SizeOfFocus();
      r := if root != null then root.size else 0;
    }

    lemma SizeOfFocus()
      requires Valid() && uninserted == []
      ensures root == null <==> leaves == []
      ensures root != null ==> zip.Some? && root.size == 2 * |Seg(zip.value.focus)| - 1
      ensures root != null ==>
                root.size <= 2 * |leaves| - 1 && (root.size == 2 * |leaves| - 1 <==> insertionStack == [])
    {
      hide Plug, Distinct, Seg, Nodes, Canon, Live, Splits, Full, CtxNodes;
      Counted();
      if root != null {
        var z := zip.value;
        GoodTop(z.focus);
        CanonSplits(Plug(z), numFlushed);
        FocusPart(z);
      }
    }

    /** The leaf index is live: what walk_to and path demand. */
    predicate Live?(index: nat)
      reads `numFlushed, `leafNodes, `uninserted
    {
      NumLeaves() != 0 && numFlushed <= index <= MaxIndex()
    }

    /**
     walk_to: the leaf at index and the turns on the way, found from the bits of the index.  No walk
     (an exception in the source) for a flushed or future index or an empty tree.
     */
    method WalkTo(index: nat) returns (w: Option<Walk>)
      requires Valid()
      modifies `leafNodes, `uninserted, `root, `insertionStack, `zip, `Repr, Repr
      ensures Valid() && fresh(Repr - old(Repr))
      ensures w.Some? <==> numFlushed <= index < |leaves|
      ensures w.Some? ==> Ready()
      ensures w.Some? ==> exists s :: WalkOf(s, index, w.value)
    {
      hide CoreValid, WaitingOk, Inserted, OnWalk, OnPath, Trail, Seg, Settled, LeafAt;
      Counted();
      if index < numFlushed || MaxIndex() < index {
        return None;
      }
      var ok := ComputeRoot();
      if !ok {
        return None;
      }
      ghost var s := RootShape();
      StartWalk(s, index);
      var leaf, trail := Descend(root, index, s, numFlushed);
      EndWalk(s, index);
      w := Some(Walk(leaf, trail));
      assert WalkOf(s, index, w.value);
    }

    /** w walks a clean, settled tree of shape s to a live leaf. */
    ghost predicate WalkOf(s: Shape, index: nat, w: Walk)
      reads this, Nodes(s)
    {
      && Settled(s) && OnWalk(s, index, numFlushed) && index < |leaves|
      && w.trail == Trail(s, index)
      && index - numFlushed < |leafNodes| && w.leaf == leafNodes[index - numFlushed]
    }

    lemma StartWalk(s: Shape, index: nat)
      requires Settled(s) && !root.dirty && numFlushed <= index < |leaves|
      ensures OnWalk(s, index, numFlushed) && OnPath(s, index, numFlushed)
      ensures index < |Seg(s)| && 1 <= root.height < 31
    {
      hide Distinct, Nodes, Live, Mth, Pow2;
      StepPath(s, index, numFlushed);
      HeightBound(|Seg(s)|);
    }

    lemma EndWalk(s: Shape, index: nat)
      requires Settled(s) && numFlushed <= index < |leaves|
      ensures index - numFlushed < |leafNodes| && LeafAt(s, index).n == leafNodes[index - numFlushed]
    {
      hide Distinct, Nodes, Live, Mth, Seg, Good, Canon;
      LiveAt(s, numFlushed, index);
    }

    /** path: the sibling hashes on the way, each put in front of the earlier ones. */
    method PathTo(index: nat) returns (p: Option<Path>)
      requires Valid()
      modifies `leafNodes, `uninserted, `root, `insertionStack, `zip, `Repr, Repr
      ensures Valid() && fresh(Repr - old(Repr))
      ensures p.Some? <==> numFlushed <= index < |leaves|
      ensures p.Some? ==> p.value == Path(leaves[index], index, MPath(leaves, index), |leaves| - 1)
    {
      hide CoreValid, WaitingOk, Inserted, Pow2, Mth, MPath, Trail, Settled, Split, Seg, OnWalk;
      var w := WalkTo(index);
      if w.None? {
        return None;
      }
      ghost var s :| WalkOf(s, index, w.value);
      SettledLeaves(s);
      Counted();
      LeafHash(index);
      var elements := CollectPath(w.value.trail, s, index, numFlushed);
      Counted();
      p := Some(Path(leafNodes[index - numFlushed].hash, index, elements, MaxIndex()));
    }

    lemma SettledLeaves(s: Shape)
      requires Settled(s)
      ensures Seg(s) == leaves
    {
    }

    /** The hash stored in a live leaf node, whatever else is pending. */
    lemma LeafHash(index: nat)
      requires Valid() && numFlushed <= index < |Inserted()|
      ensures index - numFlushed < |leafNodes| && leafNodes[index - numFlushed].hash == leaves[index]
    {
      hide Distinct, Nodes, Live, Seg, Canon, Mth, Plug, Labelled, FramesOk, CtxNodes, Good;
      var z := zip.value;
      LabelledPlug(z);
      LiveAt(Plug(z), numFlushed, index);
      LeafNodeHash(Plug(z), index);
    }

    /** past_root: folds only the elements that join at the left. */
    method PastRoot(index: nat) returns (r: Option<Hash>)
      requires Valid()
      modifies `leafNodes, `uninserted, `root, `insertionStack, `zip, `Repr, Repr
      ensures Valid() && fresh(Repr - old(Repr))
      ensures r == if numFlushed <= index < |leaves| then Some(Mth(leaves[..index + 1])) else None
    {
      hide CoreValid, WaitingOk, Inserted, Mth, MPath;
      var p := PathTo(index);
      if p.None? {
        return None;
      }
      var elements, result := p.value.elements, p.value.leaf;
      for k := 0 to |elements|
        modifies {}
        invariant result == FoldLeft(p.value.leaf, elements[..k])
      {
        assert elements[..k + 1] == elements[..k] + [elements[k]];
        FoldSnoc(p.value.leaf, elements[..k], elements[k]);
        if elements[k].direction == PathLeft {
          result := HashFunction(elements[k].hash, result);
        }
      }
      assert elements[..|elements|] == elements;
      PathFoldsToPastRoot(leaves, index);
      r := Some(result);
    }

    /** past_path: the path of index in the tree whose last leaf was as_of. */
    method PastPath(index: nat, asOf: nat) returns (p: Option<Path>)
      requires Valid()
      modifies `leafNodes, `uninserted, `root, `insertionStack, `zip, `Repr, Repr
      ensures Valid() && fresh(Repr - old(Repr))
      ensures p == if numFlushed <= index <= asOf < |leaves|
                   then Some(Path(leaves[index], index, MPath(leaves[..asOf + 1], index), asOf)) else None
    {
      hide CoreValid, WaitingOk, Inserted, Mth, MPath, Settled, OnWalk, OnPath;
      Counted();
      if (index < numFlushed || MaxIndex() < index) || (asOf < numFlushed || MaxIndex() < asOf) || index > asOf {
        return None;
      }
      var ok := ComputeRoot();
      if !ok {
        return None;
      }
      ghost var s := RootShape();
      StartWalk(s, index);
      StartWalk(s, asOf);
      SettledLeaves(s);
      Counted();
      LeafHash(index);
      var leaf := leafNodes[index - numFlushed].hash;
      var elements := CollectPastPath(root, index, asOf, s, numFlushed);
      p := Some(Path(leaf, index, elements, asOf));
    }

    /** Flushes the leaves below index; false where the source throws. */
    method FlushTo(index: nat) returns (ok: bool)
      requires Valid()
      modifies `leafNodes, `uninserted, `numFlushed, `root, `insertionStack, `zip, `Repr, Repr
      ensures Valid() && fresh(Repr - old(Repr))
      ensures ok <==> index <= old(numFlushed) || index < |leaves|
      ensures numFlushed == if old(numFlushed) < index < |leaves| then index else old(numFlushed)
    {
      hide CoreValid, WaitingOk, Inserted, Settled, OnWalk, OnPath,
           Seg, Nodes, Distinct, Canon, Live, Good, Plug, Prune, PrunedTops, Trail, LeafAt, ZipNodes;
      if index <= numFlushed {
        return true;
      }
      var w := WalkTo(index);
      if w.None? {
        return false;
      }
      ghost var s :| WalkOf(s, index, w.value);
      SettledFacts(s);
      PruneShape(s, index);
      PruneCanon(s, numFlushed, index);
      PruneLive(s, numFlushed, index);
      ConflateLeft(w.value.trail, s, index, numFlushed);
      var numNewlyFlushed := index - numFlushed;
      leafNodes := leafNodes[numNewlyFlushed..];
      numFlushed := numFlushed + numNewlyFlushed;
      zip := Some(Zipper([], Prune(s, index)));
      NowSettled(Prune(s, index));
      ok := true;
    }

    lemma SettledFacts(s: Shape)
      requires Settled(s) && Valid()
      ensures zip == Some(Zipper([], s)) && root == s.n && insertionStack == []
      ensures Distinct(s) && Canon(s, numFlushed) && numFlushed < |Seg(s)| <= MAX_LEAVES
      ensures Seg(s) == leaves && leafNodes == Live(s, numFlushed) && Nodes(s) <= Repr && uninserted == []
    {
      hide Plug, Distinct, Good, Canon, Live, Nodes;
      TopShape(Zipper([], s));
    }

    lemma NowSettled(s: Shape)
      requires zip == Some(Zipper([], s)) && root == s.n && insertionStack == []
      requires Distinct(s) && Good(s) && Canon(s, numFlushed) && numFlushed < |Seg(s)| <= MAX_LEAVES
      requires Seg(s) == leaves && leafNodes == Live(s, numFlushed) && Nodes(s) <= Repr && uninserted == []
      ensures Settled(s) && Valid()
    {
      hide Plug, Distinct, Good, Canon, Live, Nodes, Seg;
      SettledAgain(s);
    }

    /**
     Retracts to the leaves up to index: a no-op beyond the last leaf, false where the source throws.
     */
    method RetractTo(index: nat) returns (ok: bool)
      requires Valid()
      modifies `leafNodes, `uninserted, `root, `insertionStack, `leaves, `zip, `Repr, Repr
      ensures Valid() && fresh(Repr - old(Repr))
      ensures ok <==> numFlushed <= index || MaxIndex() < index
      ensures leaves == if numFlushed <= index < |old(leaves)| then old(leaves)[..index + 1] else old(leaves)
    {
      hide CoreValid, WaitingOk, Inserted, Settled, OnWalk, OnPath,
           Seg, Nodes, Distinct, Canon, Live, Good, Plug, Cut, LeafAt, ZipNodes;
      Counted();
      if MaxIndex() < index {
        return true;
      }
      if index < numFlushed {
        return false;
      }
      if index >= numFlushed + |leafNodes| {
        var over := index - (numFlushed + |leafNodes|) + 1;
        DropWaiting(over);
        return true;
      }
      ok := ComputeRoot();
      ghost var s := RootShape();
      StartWalk(s, index);
      SettledFacts(s);
      CutCanon(s, numFlushed, index);
      CutLive(s, numFlushed, index);
      CutNodes(s, index);
      var leaf := CutTo(index, s);
      leafNodes := leafNodes[index - numFlushed := leaf];
      var numRetracted := NumLeaves() - index - 1;
      leafNodes := if numRetracted < |leafNodes| then leafNodes[..|leafNodes| - numRetracted] else [];
      leaves := leaves[..index + 1];
      zip := Some(Zipper([], Cut(s, index)));
      NowSettled(Cut(s, index));
    }

    /** The walk with its callback, and the size updates that follow it. */
    method CutTo(index: nat, ghost s: Shape) returns (leaf: Node)
      requires root == s.n && OnWalk(s, index, numFlushed) && OnPath(s, index, numFlushed) && index < |Seg(s)|
      requires 1 <= s.n.height <= 31 && Distinct(s) && Nodes(s) <= Repr
      modifies Repr
      ensures Good(Cut(s, index)) && leaf == LeafAt(Cut(s, index), index).n
    {
      hide Seg, Nodes, Distinct, Canon, Cut, Live, LeafAt, Good, Hashed, Plug, OnPath, Cutting, CtxNodes, StackOk;
      CanonOnPath(s, index, numFlushed);
      CutNodes(s, index);
      ghost var target := Cut(s, index);
      var walkStack;
      ghost var ds, z;
      leaf, walkStack, ds, z := CutWalk(root, index, s, numFlushed, Repr);
      PlugOfCut(z, target);
      RepairSizes(walkStack, ds, z, target, Repr);
      CutLeaf(z, target);
    }

    /** Drops leaves that wait for insertion until only over of them are left. */
    method DropWaiting(over: nat)
      requires Valid()
      modifies `uninserted, `leaves
      ensures Valid()
      ensures leaves == if over < |old(uninserted)| then old(leaves)[..|Inserted()| + over] else old(leaves)
    {
      hide CoreValid, Inserted, ZipNodes;
      while |uninserted| > over
        invariant Valid() && |uninserted| <= |old(uninserted)| && (over < |old(uninserted)| ==> over <= |uninserted|)
        invariant over >= |old(uninserted)| ==> uninserted == old(uninserted)
        invariant leaves == old(leaves)[..|Inserted()| + |uninserted|]
        decreases |uninserted|
      {
        uninserted := uninserted[..|uninserted| - 1];
        leaves := leaves[..|leaves| - 1];
      }
    }

    /** leaf: the hash of a live leaf. */
    method Leaf(index: nat) returns (h: Option<Hash>)
      requires Valid()
      ensures h == if numFlushed <= index < |leaves| then Some(leaves[index]) else None
    {
      hide CoreValid;
      Counted();
      if index < numFlushed || index >= NumLeaves() {
        return None;
      }
      if index - numFlushed >= |leafNodes| {
        h := Some(uninserted[index - numFlushed - |leafNodes|].hash);
      } else {
        LeafHash(index);
        h := Some(leafNodes[index - numFlushed].hash);
      }
    }

    /** Serialises the tree behind the bytes already there. */
    method Serialise(bytes0: seq<byte>) returns (bytes: seq<byte>)
      requires Valid()
      modifies `leafNodes, `uninserted, `root, `insertionStack, `zip, `Repr, Repr
      ensures Valid() && fresh(Repr - old(Repr))
      ensures (numFlushed < |leaves| || (leaves == [] && numFlushed == 0)) && bytes == bytes0 + Encoding(leaves, numFlushed)
    {
      hide CoreValid, WaitingOk, Inserted, Concat, U64, LeftHashes, MPath, Settled, OnWalk, Trail;
      Counted();
      var header := bytes0 + U64(|leafNodes| + |uninserted|) + U64(numFlushed);
      bytes := AppendLeaves(header);
      if NumLeaves() != 0 {
        bytes := AppendEdge(numFlushed, bytes);
      } else {
        NoLeaves();
      }
      assert bytes == bytes0 + Encoding(leaves, numFlushed);
    }

    lemma NoLeaves()
      requires Valid() && leaves == []
      ensures numFlushed == 0
    {
      Counted();
    }

    method AppendLeaves(bytes0: seq<byte>) returns (bytes: seq<byte>)
      requires Valid()
      ensures numFlushed <= |leaves| && bytes == bytes0 + Concat(leaves[numFlushed..])
    {
      hide CoreValid, Concat;
      Counted();
      bytes := bytes0;
      ConcatNone();
      var k := 0;
      while k < |leafNodes|
        invariant k <= |leafNodes| && bytes == bytes0 + Concat(leaves[numFlushed..numFlushed + k])
      {
        LeafHash(numFlushed + k);
        ConcatSnoc(leaves[numFlushed..numFlushed + k], leaves[numFlushed + k]);
        assert leaves[numFlushed..numFlushed + k + 1] == leaves[numFlushed..numFlushed + k] + [leaves[numFlushed + k]];
        bytes := bytes + leafNodes[k].hash;
        k := k + 1;
      }
      var j := 0;
      var m := numFlushed + |leafNodes|;
      while j < |uninserted|
        invariant j <= |uninserted| && bytes == bytes0 + Concat(leaves[numFlushed..m + j])
      {
        ConcatSnoc(leaves[numFlushed..m + j], leaves[m + j]);
        assert leaves[numFlushed..m + j + 1] == leaves[numFlushed..m + j] + [leaves[m + j]];
        bytes := bytes + uninserted[j].hash;
        j := j + 1;
      }
      assert leaves[numFlushed..|leaves|] == leaves[numFlushed..];
    }

    /** Computes the root, walks to a live leaf and appends the hashes of the left edge. */
    method AppendEdge(index: nat, bytes0: seq<byte>) returns (bytes: seq<byte>)
      requires Valid() && numFlushed <= index < |leaves|
      modifies `leafNodes, `uninserted, `root, `insertionStack, `zip, `Repr, Repr
      ensures Valid() && fresh(Repr - old(Repr))
      ensures bytes == bytes0 + Concat(Extras(leaves, index))
    {
      hide CoreValid, WaitingOk, Inserted, Concat, LeftHashes, MPath, Settled, OnWalk, Trail;
      var w := WalkTo(index);
      ghost var s :| WalkOf(s, index, w.value);
      SettledLeaves(s);
      bytes := AppendExtras(w.value.trail, bytes0, s, index, numFlushed);
    }

    /** Serialises the leaves from .. to as the tree that retracting to `to` and flushing to `from` gives. */
    method SerialiseSegment(from: nat, to: nat, bytes0: seq<byte>) returns (bytes: Option<seq<byte>>)
      requires Valid()
      modifies `leafNodes, `uninserted, `root, `insertionStack, `zip, `Repr, Repr
      ensures Valid() && fresh(Repr - old(Repr))
      ensures bytes == if numFlushed <= from <= to < |leaves|
                       then Some(bytes0 + Encoding(leaves[..to + 1], from)) else None
    {
      hide CoreValid, WaitingOk, Inserted, Concat, U64, LeftHashes, MPath;
      Counted();
      if (from < numFlushed || MaxIndex() < from) || (to < numFlushed || MaxIndex() < to) || from > to {
        return None;
      }
      if NumLeaves() == 0 {
        return None;
      }
      var b := bytes0 + U64(to - from + 1) + U64(from);
      ConcatNone();
      var i := from;
      while i <= to
        modifies {}
        invariant from <= i <= to + 1 && Valid()
        invariant b == bytes0 + U64(to - from + 1) + U64(from) + Concat(leaves[from..i])
      {
        var h := Leaf(i);
        ConcatSnoc(leaves[from..i], leaves[i]);
        assert leaves[from..i + 1] == leaves[from..i] + [leaves[i]];
        b := b + h.value;
        i := i + 1;
      }
      assert leaves[from..to + 1] == leaves[..to + 1][from..];
      ExtrasOfPrefix(leaves, from, to);
      b := AppendEdge(from, b);
      assert b == bytes0 + Encoding(leaves[..to + 1], from);
      bytes := Some(b);
    }

    /**
     Reads a tree from the bytes at the position; None where the source throws.  The leaf hashes are
     read without a bounds check, so the caller must provide as many bytes as the count demands.  For
     the encoding of a tree over ls with f leaves flushed, all of it is read and that tree is restored.
     */
    method Deserialise(bytes: seq<byte>, position0: nat, ghost ls: seq<Hash>, ghost f: nat) returns (r: Option<nat>)
      requires position0 + 16 <= |bytes| ==>
                 position0 + 16 + Value(bytes[position0..position0 + 8]) * HASH_SIZE <= |bytes|
      modifies this
      ensures EncodedAt(bytes, position0, ls, f) ==>
                && r == Some(position0 + |Encoding(ls, f)|)
                && Valid() && fresh(Repr) && leaves == ls && numFlushed == f
                && uninserted == [] && insertionStack == []
      ensures |bytes| < position0 + 16 ==> r.None?
      ensures position0 + 16 <= |bytes| ==>
                var count, flushed := Value(bytes[position0..position0 + 8]), Value(bytes[position0 + 8..position0 + 16]);
                var end := position0 + 16 + count * HASH_SIZE + EdgeBytes(flushed);
                && (r.Some? <==> end <= |bytes|)
                && (r.Some? ==> r.value == end && numFlushed == flushed && |leafNodes| == count)
                && (r.Some? ==> forall k | 0 <= k < count :: HashAt(bytes, position0 + 16, k) == Some(leafNodes[k].hash))
    {
      hide CoreValid, WaitingOk, Value, Encoding, EncodedAt, Seg, Canon, Good, Distinct, Live, Nodes, Settled;
      leafNodes, uninserted, insertionStack, root := [], [], [], null;
      var b;
      ghost var s, rep;
      b, s, rep := ReadTree(bytes, position0, ls, f);
      if b.None? {
        return None;
      }
      leafNodes, numFlushed := b.value.leafNodes, b.value.numFlushed;
      root := if b.value.root.None? then null else b.value.root.value;
      zip := if s.None? then None else Some(Zipper([], s.value));
      leaves, Repr := ls, rep;
      r := Some(b.value.position);
      if EncodedAt(bytes, position0, ls, f) {
        if s.Some? {
          NowSettled(s.value);
        } else {
          NowEmpty();
        }
      }
    }

    lemma NowEmpty()
      requires zip.None? && root == null && insertionStack == [] && leafNodes == [] && uninserted == []
      requires numFlushed == 0 && leaves == []
      ensures Valid()
    {
    }
  }

  datatype TreeRead = TreeRead(leafNodes: seq<Node>, numFlushed: nat, root: Option<Node>, position: nat)

  /** The bytes of a tree, as new nodes. */
  method ReadTree(bytes: seq<byte>, position0: nat, ghost ls: seq<Hash>, ghost f: nat)
    returns (r: Option<TreeRead>, ghost s: Option<Shape>, ghost rep: set<Node>)
    requires position0 + 16 <= |bytes| ==>
               position0 + 16 + Value(bytes[position0..position0 + 8]) * HASH_SIZE <= |bytes|
    ensures fresh(rep)
    ensures |bytes| < position0 + 16 ==> r.None?
    ensures position0 + 16 <= |bytes| ==>
              var count, flushed := Value(bytes[position0..position0 + 8]), Value(bytes[position0 + 8..position0 + 16]);
              var end := position0 + 16 + count * HASH_SIZE + EdgeBytes(flushed);
              && (r.Some? <==> end <= |bytes|)
              && (r.Some? ==> r.value.position == end && r.value.numFlushed == flushed && |r.value.leafNodes| == count)
              && (r.Some? ==> forall k | 0 <= k < count :: HashAt(bytes, position0 + 16, k) == Some(r.value.leafNodes[k].hash))
    ensures EncodedAt(bytes, position0, ls, f) ==>
              && r.Some? && r.value.position == position0 + |Encoding(ls, f)| && r.value.numFlushed == f
              && |ls| <= MAX_LEAVES
              && (ls == [] ==> s.None? && r.value.root.None? && r.value.leafNodes == [] && f == 0)
              && (ls != [] ==> && s.Some? && r.value.root == Some(s.value.n) && f < |ls|
                               && Seg(s.value) == ls && Canon(s.value, f) && Good(s.value) && Distinct(s.value)
                               && Live(s.value, f) == r.value.leafNodes && Nodes(s.value) <= rep)
  {
    hide Value, Encoding, EncodedAt, Concat, EdgeAt, LevelExtras, Extras, LeftHashes, HashAt,
         Seg, Canon, Good, Distinct, Live, Nodes;
    s, rep := None, {};
    ghost var enc, end := EncodedAt(bytes, position0, ls, f), position0;
    if enc {
      EncodedParts(bytes, position0, ls, f);
      end := position0 + |Encoding(ls, f)|;
    }
    if |bytes| < position0 + 16 {
      return None, s, rep;
    }
    var numLeafNodes := Value(bytes[position0..position0 + 8]);
    var numFlushed := Value(bytes[position0 + 8..position0 + 16]);
    var p := position0 + 16 + numLeafNodes * HASH_SIZE;
    var leafNodes;
    leafNodes, rep := ReadLeaves(bytes, position0 + 16, numLeafNodes);
    ghost var src := Source(ls, f, leafNodes);
    ghost var some := enc && ls != [];
    if some {
      LeavesRead(bytes, position0 + 16, ls, f, leafNodes);
      EdgeFirst(bytes, p, end, src);
    }
    var b;
    ghost var sh;
    b, sh, rep := Rebuild(bytes, p, leafNodes, numFlushed, some, src, end, rep);
    if b.None? {
      return None, s, rep;
    }
    if some {
      s := Some(sh[0]);
    }
    r := Some(TreeRead(leafNodes, numFlushed, b.value.root, b.value.position));
  }

  /** The leaf nodes, read one after the other. */
  method ReadLeaves(bytes: seq<byte>, p: nat, count: nat) returns (nodes: seq<Node>, ghost rep: set<Node>)
    requires p + count * HASH_SIZE <= |bytes|
    ensures |nodes| == count && fresh(rep) && forall k | 0 <= k < count :: nodes[k] in rep
    ensures forall k | 0 <= k < count :: HashAt(bytes, p, k).Some? && nodes[k].IsLeaf(HashAt(bytes, p, k).value)
    ensures forall i, j | 0 <= i < j < count :: nodes[i] != nodes[j]
  {
    hide HashAt;
    nodes, rep := [], {};
    var position := p;
    for k := 0 to count
      invariant position == p + k * HASH_SIZE
      invariant |nodes| == k && fresh(rep) && forall j | 0 <= j < k :: nodes[j] in rep
      invariant forall j | 0 <= j < k :: HashAt(bytes, p, j).Some? && nodes[j].IsLeaf(HashAt(bytes, p, j).value)
      invariant forall i, j | 0 <= i < j < k :: nodes[i] != nodes[j]
    {
      MulMonotone(HASH_SIZE, k + 1, count);
      NextHash(bytes, p, k, position);
      var n := new Node.Leaf(bytes[position..position + HASH_SIZE]);
      nodes, rep := nodes + [n], rep + {n};
      position := position + HASH_SIZE;
    }
  }

  function HashAt(bytes: seq<byte>, p: nat, k: nat): Option<Hash> {
    var a := p + k * HASH_SIZE;
    if a + HASH_SIZE <= |bytes| then Some(bytes[a..a + HASH_SIZE]) else None
  }

  lemma NextHash(bytes: seq<byte>, p: nat, k: nat, position: nat)
    requires position == p + k * HASH_SIZE && (k + 1) * HASH_SIZE == HASH_SIZE * (k + 1) <= |bytes| - p
    ensures position + HASH_SIZE <= |bytes| && HashAt(bytes, p, k) == Some(bytes[position..position + HASH_SIZE])
    ensures position + HASH_SIZE == p + (k + 1) * HASH_SIZE
  {
  }

  lemma LeavesRead(bytes: seq<byte>, p: nat, ls: seq<Hash>, f: nat, nodes: seq<Node>)
    requires f < |ls| && |nodes| == |ls| - f
    requires 0 <= (|ls| - f) * HASH_SIZE && p + (|ls| - f) * HASH_SIZE <= |bytes|
    requires bytes[p..p + (|ls| - f) * HASH_SIZE] == Concat(ls[f..])
    requires forall k | 0 <= k < |nodes| :: HashAt(bytes, p, k).Some? && nodes[k].IsLeaf(HashAt(bytes, p, k).value)
    ensures forall k | 0 <= k < |nodes| :: nodes[k].IsLeaf(ls[f + k])
  {
    hide Concat;
    forall k | 0 <= k < |nodes| ensures nodes[k].IsLeaf(ls[f + k]) {
      ConcatAt(ls[f..], k);
      var a, whole := k * HASH_SIZE, bytes[p..p + (|ls| - f) * HASH_SIZE];
      assert whole[a..a + HASH_SIZE] == bytes[p + a..p + a + HASH_SIZE];
    }
  }
}
