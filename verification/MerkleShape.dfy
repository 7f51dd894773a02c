/**
 Tree nodes on the heap, and the ghost shapes that describe them.  A shape names every node of a
 subtree and the leaf hashes below it, flushed ones included; the predicates here say that the
 pointers, sizes, hashes and dirty flags found on the heap agree with a shape.
 */
module MerkleShape {
  import opened Powers
  import opened MerkleSpec

  class Node {
    var hash: Hash
    var left: Node?
    var right: Node?
    var size: nat
    var height: nat
    var dirty: bool

    constructor Leaf(h: Hash)
      ensures IsLeaf(h)
    {
      hash, left, right, size, height, dirty := h, null, null, 1, 1, false;
    }

    constructor Inner(l: Node, r: Node)
      ensures left == l && right == r && dirty && size == l.size + r.size + 1
      ensures height == (if l.height > r.height then l.height else r.height) + 1
    {
      hash := seq(HASH_SIZE, i => 0 as byte);
      left, right, dirty := l, r, true;
      size := l.size + r.size + 1;
      height := (if l.height > r.height then l.height else r.height) + 1;
    }

    /** The node of a flushed subtree: a hash without children. */
    constructor Stub(h: Hash, height: nat)
      requires height > 0
      ensures hash == h && left == null && right == null && !dirty
      ensures this.height == height && size == Pow2(height) - 1
    {
      this.hash, left, right, dirty := h, null, null, false;
      this.height, size := height, Pow2(height) - 1;
    }

    ghost predicate IsLeaf(h: Hash)
      reads this
    {
      hash == h && left == null && right == null && size == 1 && height == 1 && !dirty
    }

    /** The shift 1 << height is an int in the source, hence the bound on height. */
    predicate IsFull()
      requires height < 31
      reads `size, `height
    {
      size == Pow2(height) - 1
    }

    method UpdateSizes()
      modifies `size, `height
      ensures left != null && right != null && left != this && right != this ==>
                size == left.size + right.size + 1 &&
                height == (if left.height > right.height then left.height else right.height) + 1
      ensures left == null || right == null ==> size == height == 1
    {
      if left != null && right != null {
        size := left.size + right.size + 1;
        height := (if left.height > right.height then left.height else right.height) + 1;
      } else {
        size, height := 1, 1;
      }
    }
  }

  /** L is a node without children: a leaf, or a flushed full subtree.  seg lists the leaf hashes. */
  datatype Shape = L(n: Node, seg: seq<Hash>) | B(n: Node, l: Shape, r: Shape)

  ghost function Seg(s: Shape): seq<Hash> {
    match s
    case L(_, seg) => seg
    case B(_, l, r) => Seg(l) + Seg(r)
  }

  ghost function Nodes(s: Shape): (ns: set<Node>)
    ensures s.n in ns
  {
    match s
    case L(n, _) => {n}
    case B(n, l, r) => {n} + Nodes(l) + Nodes(r)
  }

  ghost predicate Distinct(s: Shape) {
    s.B? ==>
      && Distinct(s.l) && Distinct(s.r)
      && s.n !in Nodes(s.l) && s.n !in Nodes(s.r)
      && Nodes(s.l) !! Nodes(s.r)
  }

  ghost predicate Linked(s: Shape)
    reads Nodes(s)`left, Nodes(s)`right
  {
    match s
    case L(n, _) => n.left == null && n.right == null
    case B(n, l, r) => n.left == l.n && n.right == r.n && Linked(l) && Linked(r)
  }

  ghost predicate SizedTop(s: Shape)
    reads s.n`size, s.n`height
  {
    |Seg(s)| > 0 && s.n.size == 2 * |Seg(s)| - 1 && s.n.height == CeilLog(|Seg(s)|) + 1
  }

  ghost predicate Sized(s: Shape)
    reads Nodes(s)`size, Nodes(s)`height
  {
    SizedTop(s) && (s.B? ==> Sized(s.l) && Sized(s.r))
  }

  ghost predicate HashOk(s: Shape)
    reads s.n`hash, s.n`dirty
  {
    |Seg(s)| > 0 && (s.L? ==> !s.n.dirty) && (!s.n.dirty ==> s.n.hash == Mth(Seg(s)))
  }

  /** Clean nodes carry the Merkle hash of their leaves, and nothing below a clean node is dirty. */
  ghost predicate Hashed(s: Shape)
    reads Nodes(s)`hash, Nodes(s)`dirty
  {
    HashOk(s) &&
    (s.B? ==> Hashed(s.l) && Hashed(s.r) && (!s.n.dirty ==> !s.l.n.dirty && !s.r.n.dirty))
  }

  ghost predicate Good(s: Shape)
    reads Nodes(s)
  {
    Linked(s) && Sized(s) && Hashed(s)
  }

  lemma GoodTop(s: Shape)
    requires Good(s)
    ensures SizedTop(s)
    ensures s.B? ==> s.n.left == s.l.n && s.n.right == s.r.n && Good(s.l) && Good(s.r)
    ensures s.L? ==> s.n.left == null && s.n.right == null && !s.n.dirty && s.n.hash == Mth(s.seg)
  {
  }

  lemma DistinctTop(s: Shape)
    requires Distinct(s) && s.B?
    ensures Distinct(s.l) && Distinct(s.r) && Nodes(s.l) !! Nodes(s.r)
    ensures s.n !in Nodes(s.l) && s.n !in Nodes(s.r)
    ensures Nodes(s) == {s.n} + Nodes(s.l) + Nodes(s.r)
  {
  }

  ghost function Minus(f: nat, k: nat): nat {
    if f <= k then 0 else f - k
  }

  /**
   The canonical tree over |Seg(s)| leaves of which the first f are flushed.  Up to the identity of
   its nodes the shape is a function of the leaves and f.
   */
  ghost predicate Canon(s: Shape, f: nat) {
    var n := |Seg(s)|;
    match s
    case L(_, _) => IsPow2(n) && (n == 1 || f >= n)
    case B(_, l, r) => n >= 2 && f < n && |Seg(l)| == Split(n) && Canon(l, f) && Canon(r, Minus(f, |Seg(l)|))
  }

  ghost predicate Full(s: Shape) {
    IsPow2(|Seg(s)|)
  }

  /** The nodes of the live leaves, from left to right: what leaf_nodes holds. */
  ghost function Live(s: Shape, f: nat): seq<Node> {
    match s
    case L(n, seg) => if f >= |seg| then [] else [n]
    case B(_, l, r) => Live(l, f) + Live(r, Minus(f, |Seg(l)|))
  }

  ghost predicate Splits(s: Shape) {
    var n := |Seg(s)|;
    match s
    case L(_, _) => IsPow2(n)
    case B(_, l, r) => n >= 2 && |Seg(l)| == Split(n) && Splits(l) && Splits(r)
  }

  lemma {:induction false} CanonSplits(s: Shape, f: nat)
    requires Canon(s, f)
    ensures Splits(s) && |Seg(s)| > 0
  {
    if s.B? {
      CanonSplits(s.l, f);
      CanonSplits(s.r, Minus(f, |Seg(s.l)|));
    }
  }

  lemma {:induction false} SplitsPositive(s: Shape)
    requires Splits(s)
    ensures |Seg(s)| > 0
    ensures s.B? ==> 0 < |Seg(s.r)| <= |Seg(s.l)| < |Seg(s)| && IsPow2(|Seg(s.l)|)
  {
    if s.B? {
      SplitIsPow2(|Seg(s)|);
    }
  }

  /** Two canonical shapes over as many leaves with as many flushed differ only in node identities. */
  ghost predicate SameShape(a: Shape, b: Shape) {
    a.L? == b.L? && |Seg(a)| == |Seg(b)| && (a.B? && b.B? ==> SameShape(a.l, b.l) && SameShape(a.r, b.r))
  }

  lemma {:induction false} CanonUnique(a: Shape, b: Shape, f: nat)
    requires Canon(a, f) && Canon(b, f) && |Seg(a)| == |Seg(b)|
    ensures SameShape(a, b)
  {
    if a.B? && b.B? {
      CanonUnique(a.l, b.l, f);
      CanonUnique(a.r, b.r, Minus(f, |Seg(a.l)|));
    }
  }

  /** Keeps every node height at most 30, the largest for which is_full does not overflow. */
  const MAX_LEAVES: nat := 0x2000_0000

  lemma HeightBound(n: nat)
    requires 1 <= n <= MAX_LEAVES
    ensures CeilLog(n) + 1 < 31
  {
    CeilLogMonotone(n, MAX_LEAVES);
    assert Pow2(29) == MAX_LEAVES by {
      assert Pow2(10) == 1024;
      Pow2Add(10, 10);
      assert Pow2(9) == 512;
      Pow2Add(20, 9);
    }
    Pow2IsPow2(29);
  }

  lemma FullIffSize(s: Shape)
    requires SizedTop(s) && s.n.height < 31
    ensures s.n.IsFull() <==> Full(s)
  {
  }

  /** update_sizes on a node whose children are right makes the node right. */
  lemma SizesAgree(s: Shape)
    requires s.B? && Splits(s) && SizedTop(s.l) && SizedTop(s.r)
    requires s.n.size == s.l.n.size + s.r.n.size + 1
    requires s.n.height == (if s.l.n.height > s.r.n.height then s.l.n.height else s.r.n.height) + 1
    ensures SizedTop(s)
  {
    var n, m := |Seg(s)|, |Seg(s.l)|;
    SplitIsPow2(n);
    CeilLogMonotone(n - m, m);
  }

  /** Shapes that occur in s. */
  ghost function Subs(s: Shape): set<Shape> {
    {s} + if s.B? then Subs(s.l) + Subs(s.r) else {}
  }

  lemma SubsSelf(s: Shape)
    ensures s in Subs(s)
  {
  }

  lemma {:induction false} SubsNodes(s: Shape, t: Shape)
    requires t in Subs(s)
    ensures Nodes(t) <= Nodes(s)
    ensures t.B? ==> t.l in Subs(s) && t.r in Subs(s)
    ensures Splits(s) ==> Splits(t)
    ensures Linked(s) ==> Linked(t) && (t.B? ==> t.n.left == t.l.n && t.n.right == t.r.n)
  {
    if t != s {
      SubsNodes(if t in Subs(s.l) then s.l else s.r, t);
    }
  }

  lemma {:induction false} SubsDistinct(s: Shape, t: Shape, u: Shape)
    requires Distinct(s) && t in Subs(s) && u in Subs(s)
    ensures t.n == u.n ==> t == u
  {
    if s.B? {
      forall v | v in {t, u} ensures v == s || v.n in Nodes(if v in Subs(s.l) then s.l else s.r) {
        if v != s { SubsNodes(if v in Subs(s.l) then s.l else s.r, v); }
      }
      if t in Subs(s.l) && u in Subs(s.l) {
        SubsDistinct(s.l, t, u);
      } else if t in Subs(s.r) && u in Subs(s.r) {
        SubsDistinct(s.r, t, u);
      }
    }
  }

  ghost function Dirty(s: Shape): set<Node>
    reads Nodes(s)`dirty
  {
    set t | t in Nodes(s) && t.dirty
  }

  /** If the node of t is outside d, so are its children. */
  ghost predicate DirtyUpward(t: Shape, d: set<Node>) {
    t.B? && t.n !in d ==> t.l.n !in d && t.r.n !in d
  }

  lemma {:induction false} HashedLocally(s: Shape, d: set<Node>)
    requires forall n | n in Nodes(s) :: n in d <==> n.dirty
    ensures Hashed(s) <==> forall t | t in Subs(s) :: HashOk(t) && DirtyUpward(t, d)
  {
    if s.B? {
      HashedLocally(s.l, d);
      HashedLocally(s.r, d);
      assert s in Subs(s);
    }
  }

  lemma {:induction false} CleanBelow(s: Shape)
    requires Hashed(s) && !s.n.dirty
    ensures s.n.hash == Mth(Seg(s))
    ensures forall t | t in Subs(s) :: !t.n.dirty && HashOk(t)
  {
    if s.B? {
      CleanBelow(s.l);
      CleanBelow(s.r);
    }
  }

  /**
   TreeT::hash: rehashes the dirty nodes below and including n with an explicit stack, and touches
   nothing but hashes and dirty flags.
   */
  method HashNode(n0: Node, ghost s: Shape)
    requires n0 == s.n && s.B? && s.n.dirty
    requires Distinct(s) && Splits(s) && Linked(s) && Hashed(s)
    modifies Nodes(s)`hash, Nodes(s)`dirty
    ensures Hashed(s) && !s.n.dirty
  {
    hide Mth, Seg, Subs, Nodes, Splits, Distinct, Hashed, Linked, Pow2, CeilLog, Split, IsPow2;
    SubsSelf(s);
    var hashingStack: seq<Node> := [n0];
    ghost var path, d := [s], Dirty(s);
    HashedLocally(s, d);
    while |hashingStack| > 0
      invariant |path| == |hashingStack|
      invariant forall i | 0 <= i < |path| :: OnStack(path[i], hashingStack[i], s)
      invariant |path| > 0 ==> path[0] == s
      invariant forall i | 0 < i < |path| :: ChildOf(path[i], path[i - 1])
      invariant path == [] ==> !s.n.dirty
      invariant forall t | t in Subs(s) :: HashOk(t) && DirtyUpward(t, d)
      invariant d == Dirty(s) && Linked(s)
      decreases d, if |path| > 0 then path[|path| - 1] else s
    {
      var n := hashingStack[|hashingStack| - 1];
      ghost var t := path[|path| - 1];
      assert OnStack(t, n, s);
      SubsNodes(s, t);
      SubsNodes(s, t.l);
      SubsNodes(s, t.r);
      assert HashOk(t.l) && HashOk(t.r);
      if n.left != null && n.left.dirty {
        hashingStack, path := hashingStack + [n.left], path + [t.l];
      } else if n.right != null && n.right.dirty {
        hashingStack, path := hashingStack + [n.right], path + [t.r];
      } else {
        Rehashed(s, t);
        forall i | 0 <= i < |path| - 1 ensures path[i].n != n {
          PathAbove(path, i);
          SubsDistinct(s, path[i], t);
        }
        n.hash := HashFunction(n.left.hash, n.right.hash);
        n.dirty := false;
        d := d - {n};
        forall u | u in Subs(s) ensures HashOk(u) && DirtyUpward(u, d) {
          SubsDistinct(s, u, t);
        }
        hashingStack, path := hashingStack[..|hashingStack| - 1], path[..|path| - 1];
      }
    }
    HashedLocally(s, d);
  }

  ghost predicate ChildOf(t: Shape, parent: Shape) {
    parent.B? && (t == parent.l || t == parent.r)
  }

  ghost predicate OnStack(t: Shape, n: Node, s: Shape)
    reads t.n`dirty
  {
    t in Subs(s) && t.n == n && t.B? && t.n.dirty
  }

  /** Entries of a root-to-node path are strictly nested. */
  lemma {:induction false} PathAbove(path: seq<Shape>, i: nat)
    requires i < |path| - 1
    requires forall k | 0 < k < |path| :: ChildOf(path[k], path[k - 1])
    ensures path[i] != path[|path| - 1]
    ensures path[|path| - 1] < path[i]
    decreases |path|
  {
    if i < |path| - 2 {
      PathAbove(path[..|path| - 1], i);
    }
  }

  lemma Rehashed(s: Shape, t: Shape)
    requires t in Subs(s) && t.B? && Splits(s)
    requires HashOk(t.l) && HashOk(t.r)
    requires !t.l.n.dirty && !t.r.n.dirty
    ensures |Seg(t)| > 0 && Mth(Seg(t)) == HashFunction(t.l.n.hash, t.r.n.hash)
  {
    SubsNodes(s, t);
    assert Seg(t)[..|Seg(t.l)|] == Seg(t.l) && Seg(t)[|Seg(t.l)|..] == Seg(t.r);
  }
}
