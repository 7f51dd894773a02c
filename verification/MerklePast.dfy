/**
 The two-cursor walk of past_path: down to the fork of the two indices, then separately to each, and
 how the three recorded lists make up the path of the first index in the tree as of the second.
 */
module MerklePast {
  import opened Powers
  import opened MerkleSpec
  import opened MerkleShape
  import opened MerkleWalk

  /** A list read from its back, as the loops over rbegin do. */
  function Rev(p: seq<Element>): (r: seq<Element>)
    ensures |r| == |p|
    ensures forall k | 0 <= k < |p| :: r[k] == p[|p| - 1 - k]
  {
    if p == [] then [] else [p[|p| - 1]] + Rev(p[..|p| - 1])
  }

  lemma RevSnoc(p: seq<Element>, e: Element)
    ensures Rev(p + [e]) == [e] + Rev(p)
    ensures p != [] ==> Rev((p + [e])[1..]) == [e] + Rev(p[1..])
  {
    assert (p + [e])[..|p|] == p;
    if p != [] {
      assert (p + [e])[1..] == p[1..] + [e];
      assert (p[1..] + [e])[..|p| - 1] == p[1..];
    }
  }

  lemma {:induction false} FoldLeftAppend(x: Hash, p: seq<Element>, q: seq<Element>)
    ensures FoldLeft(x, p + q) == FoldLeft(FoldLeft(x, p), q)
    decreases |q|
  {
    if q == [] {
      assert p + q == p;
    } else {
      var k := |q| - 1;
      FoldLeftAppend(x, p, q[..k]);
      assert p + q == (p + q[..k]) + [q[k]] && q == q[..k] + [q[k]];
      FoldSnoc(x, p + q[..k], q[k]);
      FoldSnoc(FoldLeft(x, p), q[..k], q[k]);
    }
  }

  /** Below the root so far: target is the path inside the current subtree, then what was recorded. */
  ghost predicate BeforeFork(target: seq<Element>, t: Shape, x: nat, a: nat, recorded: seq<Element>) {
    x <= a < |Seg(t)| && target == MPath(Seg(t)[..a + 1], x) + Rev(recorded)
  }

  /** Past the fork: both recorded lists start with the entry of the fork itself. */
  ghost predicate AfterFork(target: seq<Element>, recorded: seq<Element>, past: Hash,
                            t: Shape, x: nat, toIndex: seq<Element>, u: Shape, a: nat, toAsOf: seq<Element>) {
    && x < |Seg(t)| && a < |Seg(u)| && toIndex != [] && toAsOf != []
    && target == (MPath(Seg(t), x) + Rev(toIndex[1..])) + [Element(past, PathRight)] + Rev(recorded)
    && past == FoldLeft(Mth(Seg(u)[..a + 1]), Rev(toAsOf[1..]))
    && forall k | 0 <= k < |toAsOf| :: toAsOf[k].direction == PathLeft
  }

  lemma SharedTurn(target: seq<Element>, t: Shape, x: nat, a: nat, recorded: seq<Element>)
    requires t.B? && |Seg(t)| >= 2 && |Seg(t.l)| == Split(|Seg(t)|)
    requires BeforeFork(target, t, x, a, recorded)
    ensures a < |Seg(t.l)| ==> BeforeFork(target, t.l, x, a, recorded)
    ensures x >= |Seg(t.l)| ==>
              BeforeFork(target, t.r, x - |Seg(t.l)|, a - |Seg(t.l)|, recorded + [Element(Mth(Seg(t.l)), PathLeft)])
    ensures x < |Seg(t.l)| <= a ==>
              forall e: Element, d: Element | d.direction == PathLeft ::
                AfterFork(target, recorded, Mth(Seg(t.r)[..a - |Seg(t.l)| + 1]),
                          t.l, x, [e], t.r, a - |Seg(t.l)|, [d])
  {
    hide Mth, MPath, FoldLeft, Rev;
    var m := |Seg(t.l)|;
    PastPathStep(Seg(t), x, a);
    assert Seg(t)[..m] == Seg(t.l) && Seg(t)[m..] == Seg(t.r);
    if x >= m {
      RevSnoc(recorded, Element(Mth(Seg(t.l)), PathLeft));
    } else if a >= m {
      RevEmpty();
    }
  }

  lemma RevEmpty()
    ensures Rev([]) == [] && forall x :: FoldLeft(x, []) == x
  {
  }

  lemma IndexTurn(target: seq<Element>, recorded: seq<Element>, past: Hash,
                  t: Shape, x: nat, toIndex: seq<Element>, u: Shape, a: nat, toAsOf: seq<Element>)
    requires t.B? && |Seg(t)| >= 2 && |Seg(t.l)| == Split(|Seg(t)|)
    requires AfterFork(target, recorded, past, t, x, toIndex, u, a, toAsOf)
    ensures var e := if x >= |Seg(t.l)| then Element(Mth(Seg(t.l)), PathLeft) else Element(Mth(Seg(t.r)), PathRight);
            AfterFork(target, recorded, past, Below(t, x), BelowIndex(t, x), toIndex + [e], u, a, toAsOf)
  {
    hide Mth, MPath, FoldLeft, Rev;
    var e := if x >= |Seg(t.l)| then Element(Mth(Seg(t.l)), PathLeft) else Element(Mth(Seg(t.r)), PathRight);
    assert Seg(t)[..|Seg(t.l)|] == Seg(t.l) && Seg(t)[|Seg(t.l)|..] == Seg(t.r);
    PathUnfold(Seg(t), x);
    RevSnoc(toIndex, e);
  }

  lemma AsOfTurn(target: seq<Element>, recorded: seq<Element>, past: Hash,
                 t: Shape, x: nat, toIndex: seq<Element>, u: Shape, a: nat, toAsOf: seq<Element>)
    requires u.B? && |Seg(u)| >= 2 && |Seg(u.l)| == Split(|Seg(u)|)
    requires AfterFork(target, recorded, past, t, x, toIndex, u, a, toAsOf)
    ensures AfterFork(target, recorded, past, t, x, toIndex, Below(u, a), BelowIndex(u, a),
                      if a >= |Seg(u.l)| then toAsOf + [Element(Mth(Seg(u.l)), PathLeft)] else toAsOf)
  {
    hide Mth, MPath, FoldLeft, Rev;
    var m, e := |Seg(u.l)|, Element(Mth(Seg(u.l)), PathLeft);
    if a < m {
      assert Seg(u)[..a + 1] == Seg(u.l)[..a + 1];
    } else {
      var ls := Seg(u)[..a + 1];
      PrefixSplit(|Seg(u)|, a + 1);
      MthUnfold(ls);
      assert ls[..m] == Seg(u.l) && ls[m..] == Seg(u.r)[..a - m + 1];
      RevSnoc(toAsOf, e);
      FoldSnoc(Mth(ls[m..]), [], e);
      RevEmpty();
      assert [] + [e] == [e];
      FoldLeftAppend(Mth(ls[m..]), [e], Rev(toAsOf[1..]));
    }
  }

  /** The hash of the part to the right of the fork, over the leaves up to as_of. */
  method FoldPast(h: Hash, elements: seq<Element>) returns (r: Hash)
    requires forall k | 0 <= k < |elements| :: elements[k].direction == PathLeft
    ensures r == FoldLeft(h, Rev(elements))
  {
    r := h;
    ghost var rev := Rev(elements);
    RevEmpty();
    for k := 0 to |elements|
      invariant r == FoldLeft(h, rev[..k])
    {
      FoldSnoc(h, rev[..k], rev[k]);
      assert rev[..k + 1] == rev[..k] + [rev[k]];
      r := HashFunction(elements[|elements| - 1 - k].hash, r);
    }
    assert rev[..|elements|] == rev;
  }

  /** The body of past_path after the root has been computed. */
  method CollectPastPath(root: Node, index: nat, asOf: nat, ghost s: Shape, ghost flushed: nat)
    returns (path: seq<Element>)
    requires root == s.n && OnWalk(s, index, flushed) && OnWalk(s, asOf, flushed)
    requires index <= asOf < |Seg(s)| && 1 <= root.height <= 31
    ensures path == MPath(Seg(s)[..asOf + 1], index)
  {
    hide Cursor, Seg, OnWalk, OnPath, Bits, BeforeFork, AfterFork, Mth, MPath, Rev, FoldLeft, Split;
    var rootToFork, forkToIndex, forkToAsOf := [], [], [];
    var forkNode: Node? := null;
    var curI: Node, curA: Node := root, root;
    var itI: nat, itA: nat, height := 0, 0, root.height;
    if root.height > 1 {
      itI := Bits(index, root.height) % TWO64;
      itA := Bits(asOf, root.height) % TWO64;
    }
    ghost var target := MPath(Seg(s)[..asOf + 1], index);
    ghost var t: Shape, x: nat, f: nat := s, index, flushed;
    ghost var u: Shape, a: nat, g: nat := s, asOf, flushed;
    ghost var past: Hash := s.n.hash;
    OnWalkPaths(s, index, flushed);
    OnWalkPaths(s, asOf, flushed);
    CursorStart(t, x, f);
    CursorStart(u, a, g);
    StartShared(s, index, asOf);
    while height > 1
      invariant Cursor(t, x, f, curI, itI, height) && Cursor(u, a, g, curA, itA, height)
      invariant OnWalk(t, x, f) && OnWalk(u, a, g)
      invariant forkNode == null ==>
                  && t == u && f == g && x <= a && forkToIndex == [] && forkToAsOf == []
                  && BeforeFork(target, t, x, a, rootToFork)
      invariant forkNode != null ==> AfterFork(target, rootToFork, past, t, x, forkToIndex, u, a, forkToAsOf)
      decreases height
    {
      CursorStep(t, x, f, curI, itI, height);
      CursorStep(u, a, g, curA, itA, height);
      CursorLocal(t, x, f, curI, itI, height);
      CursorLocal(u, a, g, curA, itA, height);
      var goRightI := (itI / TWO63) % 2 == 1;
      var goRightA := (itA / TWO63) % 2 == 1;
      var atFork := forkNode == null && goRightI != goRightA;
      if atFork {
        forkNode := curI;
      }
      if forkNode == null {
        if curI.height == height {
          SharedTurn(target, t, x, a, rootToFork);
          if goRightI {
            rootToFork := rootToFork + [Element(curI.left.hash, PathLeft)];
          }
          curI := if goRightI then curI.right else curI.left;
          curA := curI;
          t, x, f := Below(t, x), BelowIndex(t, x), BelowFlushed(t, x, f);
          u, a, g := Below(u, a), BelowIndex(u, a), BelowFlushed(u, a, g);
        }
      } else {
        if atFork {
          SharedTurn(target, t, x, a, rootToFork);
          past := Mth(Seg(t.r)[..a - |Seg(t.l)| + 1]);
        }
        if curI.height == height {
          var e := if goRightI then Element(curI.left.hash, PathLeft) else Element(curI.right.hash, PathRight);
          if atFork {
            assert forkToIndex + [e] == [e];
          } else {
            IndexTurn(target, rootToFork, past, t, x, forkToIndex, u, a, forkToAsOf);
          }
          forkToIndex := forkToIndex + [e];
          curI := if goRightI then curI.right else curI.left;
          t, x, f := Below(t, x), BelowIndex(t, x), BelowFlushed(t, x, f);
        }
        if curA.height == height {
          if atFork {
            assert forkToAsOf + [Element(curA.left.hash, PathLeft)] == [Element(curA.left.hash, PathLeft)];
          } else {
            AsOfTurn(target, rootToFork, past, t, x, forkToIndex, u, a, forkToAsOf);
          }
          if goRightA {
            forkToAsOf := forkToAsOf + [Element(curA.left.hash, PathLeft)];
          }
          curA := if goRightA then curA.right else curA.left;
          u, a, g := Below(u, a), BelowIndex(u, a), BelowFlushed(u, a, g);
        }
      }
      itI := (2 * itI) % TWO64;
      itA := (2 * itA) % TWO64;
      height := height - 1;
    }
    CursorEnd(t, x, f, curI, itI, height);
    CursorEnd(u, a, g, curA, itA, height);
    CursorLocal(u, a, g, curA, itA, height);
    path := [];
    EndPast(target, rootToFork, past, t, x, forkToIndex, u, a, forkToAsOf, forkNode != null);
    if forkToIndex != [] {
      forkToIndex := forkToIndex[1..];
    }
    path := path + Rev(forkToIndex);
    if forkNode != null {
      if forkToAsOf != [] {
        forkToAsOf := forkToAsOf[1..];
      }
      var asOfHash := FoldPast(curA.hash, forkToAsOf);
      path := path + [Element(asOfHash, PathRight)];
    }
    path := path + Rev(rootToFork);
  }

  lemma OnWalkPaths(s: Shape, i: nat, f: nat)
    requires OnWalk(s, i, f)
    ensures OnPath(s, i, f)
  {
  }

  lemma StartShared(s: Shape, index: nat, asOf: nat)
    requires index <= asOf < |Seg(s)|
    ensures BeforeFork(MPath(Seg(s)[..asOf + 1], index), s, index, asOf, [])
  {
  }

  lemma CursorLocal(t: Shape, x: nat, f: nat, cur: Node, it: nat, height: nat)
    requires Cursor(t, x, f, cur, it, height) && OnWalk(t, x, f)
    ensures cur == t.n && x < |Seg(t)| && 1 <= cur.height <= height
    ensures t.B? ==> && cur.left == t.l.n && cur.right == t.r.n
                     && t.l.n.hash == Mth(Seg(t.l)) && t.r.n.hash == Mth(Seg(t.r))
                     && |Seg(t.l)| + |Seg(t.r)| == |Seg(t)| >= 2 && |Seg(t.l)| == Split(|Seg(t)|)
                     && OnWalk(Below(t, x), BelowIndex(t, x), BelowFlushed(t, x, f))
    ensures t.L? ==> cur.hash == Mth(Seg(t))
  {
    hide Mth, OnWalk, OnPath, Seg, Split;
    StepWalk(t, x, f);
  }

  /** At the two leaves the recorded lists alone make up the path. */
  lemma EndPast(target: seq<Element>, recorded: seq<Element>, past: Hash,
                t: Shape, x: nat, toIndex: seq<Element>, u: Shape, a: nat, toAsOf: seq<Element>, forked: bool)
    requires |Seg(t)| == 1 && x == 0 && |Seg(u)| == 1 && a == 0
    requires !forked ==> t == u && toIndex == [] && BeforeFork(target, t, x, a, recorded)
    requires forked ==> AfterFork(target, recorded, past, t, x, toIndex, u, a, toAsOf)
    ensures !forked ==> target == Rev(recorded)
    ensures forked ==>
              && toIndex != [] && toAsOf != []
              && target == Rev(toIndex[1..]) + [Element(past, PathRight)] + Rev(recorded)
              && past == FoldLeft(Mth(Seg(u)), Rev(toAsOf[1..]))
              && forall k | 0 <= k < |toAsOf| :: toAsOf[k].direction == PathLeft
  {
    hide Mth, MPath, Rev, FoldLeft;
    assert Seg(t)[..1] == Seg(t) && Seg(u)[..1] == Seg(u);
    SingleLeaf(Seg(t));
    if forked {
      assert [] + Rev(toIndex[1..]) == Rev(toIndex[1..]);
    } else {
      assert [] + Rev(recorded) == Rev(recorded);
    }
  }
}
