/** Flushing: the subtrees to the left of the walk lose their children and keep only their hash. */
module MerkleFlush {
  import opened Powers
  import opened MerkleSpec
  import opened MerkleShape
  import opened MerkleWalk

  /** The shape after every left sibling on the walk to leaf i has been conflated. */
  ghost function Prune(s: Shape, i: nat): Shape {
    match s
    case L(_, _) => s
    case B(n, l, r) =>
      if i < |Seg(l)| then B(n, Prune(l, i), r) else B(n, L(l.n, Seg(l)), Prune(r, i - |Seg(l)|))
  }

  ghost function PrunedTops(s: Shape, i: nat): set<Node> {
    match s
    case L(_, _) => {}
    case B(n, l, r) => if i < |Seg(l)| then PrunedTops(l, i) else {l.n} + PrunedTops(r, i - |Seg(l)|)
  }

  lemma {:induction false} PruneShape(s: Shape, i: nat)
    ensures Seg(Prune(s, i)) == Seg(s) && Prune(s, i).n == s.n
    ensures Nodes(Prune(s, i)) <= Nodes(s) && PrunedTops(s, i) <= Nodes(s)
    ensures Distinct(s) ==> Distinct(Prune(s, i)) && s.n !in PrunedTops(s, i)
  {
    if s.B? {
      if i < |Seg(s.l)| { PruneShape(s.l, i); } else { PruneShape(s.r, i - |Seg(s.l)|); }
    }
  }

  /** Pruning the canonical tree gives the canonical tree with more leaves flushed. */
  lemma {:induction false} PruneCanon(s: Shape, f: nat, i: nat)
    requires Canon(s, f) && f <= i < |Seg(s)|
    ensures Canon(Prune(s, i), i) && Seg(Prune(s, i)) == Seg(s)
  {
    hide Pow2, CeilLog, Split;
    if s.B? {
      CanonSplits(s, f);
      SplitsPositive(s);
      PruneShape(s, i);
      var m := |Seg(s.l)|;
      if i < m {
        PruneCanon(s.l, f, i);
      } else {
        PruneCanon(s.r, Minus(f, m), i - m);
      }
    }
  }

  /** What stays live after the pruning is the tail of what was live before. */
  lemma {:induction false} PruneLive(s: Shape, f: nat, i: nat)
    requires Canon(s, f) && f <= i < |Seg(s)|
    ensures |Live(s, f)| == |Seg(s)| - f && Live(Prune(s, i), i) == Live(s, f)[i - f..]
  {
    hide Prune, Live, Canon, Seg, Splits, Pow2, CeilLog, Split;
    LiveCount(s, f);
    PruneTurn(s, f, i);
    if s.B? {
      var m := |Seg(s.l)|;
      if i < m {
        PruneLive(s.l, f, i);
      } else {
        PruneLive(s.r, Minus(f, m), i - m);
        if f <= m { LiveCount(s.l, f); } else { LiveNone(s.l, f); }
      }
    }
  }

  lemma PruneTurn(s: Shape, f: nat, i: nat)
    requires Canon(s, f) && f <= i < |Seg(s)|
    ensures s.L? ==> f == i && Prune(s, i) == s
    ensures s.B? ==> |Seg(s)| == |Seg(s.l)| + |Seg(s.r)| && Canon(s.l, f) && Canon(s.r, Minus(f, |Seg(s.l)|))
    ensures s.B? ==> Live(s, f) == Live(s.l, f) + Live(s.r, Minus(f, |Seg(s.l)|))
    ensures s.B? && i < |Seg(s.l)| ==> Live(Prune(s, i), i) == Live(Prune(s.l, i), i) + Live(s.r, 0)
    ensures s.B? && i >= |Seg(s.l)| ==>
              Live(Prune(s, i), i) == Live(Prune(s.r, i - |Seg(s.l)|), i - |Seg(s.l)|)
  {
    hide Pow2, CeilLog, Split;
    if s.B? {
      PruneShape(s.l, i);
      var c := L(s.l.n, Seg(s.l));
      assert Seg(c) == Seg(s.l);
      assert i >= |Seg(s.l)| ==> Live(c, i) == [];
    }
  }

  ghost predicate Steady(s: Shape)
    reads Nodes(s)`size, Nodes(s)`height, Nodes(s)`hash, Nodes(s)`dirty
  {
    Sized(s) && Hashed(s) && !s.n.dirty
  }

  /** The links of a shape, read from snapshots of the child fields. */
  ghost predicate LinkedBy(s: Shape, lefts: map<Node, Node?>, rights: map<Node, Node?>) {
    && s.n in lefts && s.n in rights
    && match s
       case L(n, _) => lefts[n] == null && rights[n] == null
       case B(n, l, r) =>
         lefts[n] == l.n && rights[n] == r.n && LinkedBy(l, lefts, rights) && LinkedBy(r, lefts, rights)
  }

  lemma {:induction false} LinkedNow(s: Shape, lefts: map<Node, Node?>, rights: map<Node, Node?>)
    requires forall n | n in Nodes(s) :: n in lefts && n in rights && lefts[n] == n.left && rights[n] == n.right
    ensures Linked(s) <==> LinkedBy(s, lefts, rights)
  {
    if s.B? {
      LinkedNow(s.l, lefts, rights);
      LinkedNow(s.r, lefts, rights);
    }
  }

  ghost predicate Conflated(ns: set<Node>, done: set<Node>, lefts: map<Node, Node?>, rights: map<Node, Node?>)
    requires ns <= lefts.Keys && ns <= rights.Keys
    reads ns`left, ns`right
  {
    forall n | n in ns :: n.left == (if n in done then null else lefts[n]) &&
                          n.right == (if n in done then null else rights[n])
  }

  lemma {:induction false} PruneLinked(s: Shape, i: nat, lefts: map<Node, Node?>, rights: map<Node, Node?>)
    requires Distinct(s) && LinkedBy(s, lefts, rights) && Nodes(s) <= lefts.Keys && Nodes(s) <= rights.Keys
    requires Conflated(Nodes(s), PrunedTops(s, i), lefts, rights)
    ensures Linked(Prune(s, i))
  {
    hide Seg, Pow2;
    PruneShape(s, i);
    if s.B? {
      PruneShape(s.l, i);
      PruneShape(s.r, if i < |Seg(s.l)| then 0 else i - |Seg(s.l)|);
      if i < |Seg(s.l)| {
        PruneLinked(s.l, i, lefts, rights);
        LinkedNow(s.r, lefts, rights);
      } else {
        PruneLinked(s.r, i - |Seg(s.l)|, lefts, rights);
      }
    }
  }

  lemma {:induction false} PruneGood(s: Shape, i: nat)
    requires Linked(Prune(s, i)) && Steady(s)
    ensures Good(Prune(s, i))
  {
    hide Mth, Pow2, CeilLog, Nodes;
    PruneShape(s, i);
    if s.B? {
      assert Steady(s.l) && Steady(s.r);
      assert HashOk(s.l) && SizedTop(s.l);
      if i < |Seg(s.l)| {
        PruneShape(s.l, i);
        PruneGood(s.l, i);
      } else {
        PruneShape(s.r, i - |Seg(s.l)|);
        PruneGood(s.r, i - |Seg(s.l)|);
        var c := L(s.l.n, Seg(s.l));
        assert Seg(c) == Seg(s.l) && SizedTop(c) && HashOk(c);
        assert Sized(c) && Hashed(c) && Linked(c);
      }
    }
  }

  /** The callback of flush_to at one node of the walk: conflate its left child if the walk turns right. */
  method ConflateTurn(step: Step, ghost t: Shape, ghost s: Shape, ghost done: set<Node>,
                      ghost lefts: map<Node, Node?>, ghost rights: map<Node, Node?>)
    requires Steady(s)
    requires t.B? && step.n == t.n && t.n in Nodes(s) && t.l.n in Nodes(s) && t.n !in done
    requires Nodes(s) <= lefts.Keys && Nodes(s) <= rights.Keys && lefts[t.n] == t.l.n
    requires Conflated(Nodes(s), done, lefts, rights)
    modifies (if step.goRight then {t.l.n} else {})`left, (if step.goRight then {t.l.n} else {})`right
    ensures Steady(s)
    ensures Conflated(Nodes(s), if step.goRight then done + {t.l.n} else done, lefts, rights)
  {
    hide Steady, Nodes;
    if step.goRight && step.n.left != null {
      var c: Node := step.n.left;
      c.left := null;
      c.right := null;
    }
  }

  method ConflateLeft(trail: seq<Step>, ghost s: Shape, ghost i: nat, ghost flushed: nat)
    requires OnWalk(s, i, flushed) && i < |Seg(s)| && trail == Trail(s, i) && Distinct(s)
    modifies PrunedTops(s, i)`left, PrunedTops(s, i)`right
    ensures Good(Prune(s, i))
  {
    hide Seg, Linked, Steady, Distinct, Nodes, Canon, LinkedBy, Trail, PrunedTops, Prune, Pow2, Split, OnWalk, OnPath, Conflated;
    ghost var lefts := map n | n in Nodes(s) :: n.left;
    ghost var rights := map n | n in Nodes(s) :: n.right;
    WalkFacts(s, i, flushed);
    LinkedNow(s, lefts, rights);
    PruneShape(s, i);
    ghost var t: Shape, x: nat, done: set<Node> := s, i, {};
    NothingConflated(Nodes(s), lefts, rights);
    for k := 0 to |trail|
      invariant trail[k..] == Trail(t, x) && Distinct(t) && LinkedBy(t, lefts, rights)
      invariant Nodes(t) <= Nodes(s) && done !! Nodes(t) && done + PrunedTops(t, x) == PrunedTops(s, i)
      invariant Conflated(Nodes(s), done, lefts, rights)
      invariant Steady(s)
    {
      TrailHead(t, x, trail[k..]);
      PruneStep(t, x, lefts, rights);
      ConflateTurn(trail[k], t, s, done, lefts, rights);
      if trail[k].goRight { done := done + {t.l.n}; }
      t, x := Below(t, x), BelowIndex(t, x);
    }
    TrailEnd(t, x);
    PruneEnd(t, x);
    PruneLinked(s, i, lefts, rights);
    PruneGood(s, i);
  }

  lemma NothingConflated(all: set<Node>, lefts: map<Node, Node?>, rights: map<Node, Node?>)
    requires all <= lefts.Keys && all <= rights.Keys
    requires forall n | n in all :: n.left == lefts[n] && n.right == rights[n]
    ensures Conflated(all, {}, lefts, rights)
  {
  }

  lemma WalkFacts(s: Shape, i: nat, f: nat)
    requires OnWalk(s, i, f)
    ensures Linked(s) && Steady(s)
  {
  }

  lemma PruneStep(t: Shape, x: nat, lefts: map<Node, Node?>, rights: map<Node, Node?>)
    requires t.B? && Distinct(t) && LinkedBy(t, lefts, rights)
    ensures t.n in lefts && lefts[t.n] == t.l.n && LinkedBy(Below(t, x), lefts, rights)
    ensures Distinct(Below(t, x)) && Nodes(Below(t, x)) <= Nodes(t) && t.l.n in Nodes(t)
    ensures x >= |Seg(t.l)| ==> t.l.n !in Nodes(t.r)
    ensures PrunedTops(t, x) ==
            (if x < |Seg(t.l)| then {} else {t.l.n}) + PrunedTops(Below(t, x), BelowIndex(t, x))
  {
  }

  lemma PruneEnd(t: Shape, x: nat)
    requires t.L?
    ensures PrunedTops(t, x) == {}
  {
  }
}
