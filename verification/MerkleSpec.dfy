/**
 The meaning of the Merkle tree: a recursive hash over the sequence of leaf hashes, the audit path
 of a leaf, and what folding a path computes.  The hash function is an arbitrary binary function.
 */
module MerkleSpec {
  import opened Powers

  newtype byte = x: int | 0 <= x < 256

  /** Template parameters of the tree: they have no value here, so everything holds for all values. */
  const HASH_SIZE: nat
  type Hash = b: seq<byte> | |b| == HASH_SIZE witness seq(HASH_SIZE, i => 0 as byte)
  const HashFunction: (Hash, Hash) -> Hash

  /** The recursive Merkle hash; the left part is the largest power of two below the length. */
  function Mth(ls: seq<Hash>): Hash
    requires |ls| > 0
    decreases |ls|
  {
    if |ls| == 1 then ls[0]
    else HashFunction(Mth(ls[..Split(|ls|)]), Mth(ls[Split(|ls|)..]))
  }

  datatype Direction = PathLeft | PathRight
  datatype Element = Element(hash: Hash, direction: Direction)

  /** The audit path of leaf i, from the leaf up to the root. */
  function MPath(ls: seq<Hash>, i: nat): (p: seq<Element>)
    requires i < |ls|
    decreases |ls|
  {
    if |ls| == 1 then []
    else
      var m := Split(|ls|);
      if i < m then MPath(ls[..m], i) + [Element(Mth(ls[m..]), PathRight)]
      else MPath(ls[m..], i - m) + [Element(Mth(ls[..m]), PathLeft)]
  }

  function Join(x: Hash, e: Element): Hash {
    if e.direction == PathLeft then HashFunction(e.hash, x) else HashFunction(x, e.hash)
  }

  /** What PathT::root computes. */
  function Fold(x: Hash, p: seq<Element>): Hash {
    if p == [] then x else Join(Fold(x, p[..|p| - 1]), p[|p| - 1])
  }

  /** What past_root computes: elements that join at the right are skipped. */
  function FoldLeft(x: Hash, p: seq<Element>): Hash {
    if p == [] then x
    else
      var y := FoldLeft(x, p[..|p| - 1]);
      if p[|p| - 1].direction == PathLeft then HashFunction(p[|p| - 1].hash, y) else y
  }

  lemma PathUnfold(ls: seq<Hash>, i: nat)
    requires i < |ls| && |ls| >= 2
    ensures var m := Split(|ls|);
            MPath(ls, i) ==
            if i < m then MPath(ls[..m], i) + [Element(Mth(ls[m..]), PathRight)]
            else MPath(ls[m..], i - m) + [Element(Mth(ls[..m]), PathLeft)]
  {
  }

  lemma MthUnfold(ls: seq<Hash>)
    requires |ls| >= 2
    ensures Mth(ls) == HashFunction(Mth(ls[..Split(|ls|)]), Mth(ls[Split(|ls|)..]))
  {
  }

  lemma SingleLeaf(ls: seq<Hash>)
    requires |ls| == 1
    ensures Mth(ls) == ls[0] && MPath(ls, 0) == []
    ensures forall x :: Fold(x, []) == x && FoldLeft(x, []) == x
  {
  }

  lemma FoldSnoc(x: Hash, p: seq<Element>, e: Element)
    ensures Fold(x, p + [e]) ==
            if e.direction == PathLeft then HashFunction(e.hash, Fold(x, p)) else HashFunction(Fold(x, p), e.hash)
    ensures FoldLeft(x, p + [e]) ==
            if e.direction == PathLeft then HashFunction(e.hash, FoldLeft(x, p)) else FoldLeft(x, p)
  {
    assert (p + [e])[..|p|] == p;
  }

  /** A path folds to the root. */
  lemma {:induction false} PathFoldsToRoot(ls: seq<Hash>, i: nat)
    requires i < |ls|
    ensures Fold(ls[i], MPath(ls, i)) == Mth(ls)
    decreases |ls|
  {
    if |ls| > 1 {
      var m := Split(|ls|);
      if i < m {
        PathFoldsToRoot(ls[..m], i);
        FoldSnoc(ls[i], MPath(ls[..m], i), Element(Mth(ls[m..]), PathRight));
      } else {
        PathFoldsToRoot(ls[m..], i - m);
        FoldSnoc(ls[i], MPath(ls[m..], i - m), Element(Mth(ls[..m]), PathLeft));
      }
    }
  }

  /** The split of a prefix that reaches past the left part is the split of the whole. */
  lemma PrefixSplit(n: nat, k: nat)
    requires n >= 2 && Split(n) < k <= n
    ensures Split(k) == Split(n)
  {
    SplitIsPow2(n);
    SplitUnique(k, Split(n));
  }

  /** Folding only the left-joining elements gives the root over the leaves up to i. */
  lemma {:induction false} PathFoldsToPastRoot(ls: seq<Hash>, i: nat)
    requires i < |ls|
    ensures FoldLeft(ls[i], MPath(ls, i)) == Mth(ls[..i + 1])
    decreases |ls|
  {
    hide *;
    if |ls| > 1 {
      PathUnfold(ls, i);
      var m := Split(|ls|);
      if i < m {
        PathFoldsToPastRoot(ls[..m], i);
        FoldSnoc(ls[i], MPath(ls[..m], i), Element(Mth(ls[m..]), PathRight));
        assert ls[..m][..i + 1] == ls[..i + 1];
      } else {
        PathFoldsToPastRoot(ls[m..], i - m);
        FoldSnoc(ls[i], MPath(ls[m..], i - m), Element(Mth(ls[..m]), PathLeft));
        PrefixSplit(|ls|, i + 1);
        MthUnfold(ls[..i + 1]);
        assert ls[..i + 1][..m] == ls[..m];
        assert ls[..i + 1][m..] == ls[m..][..i + 1 - m];
      }
    } else {
      SingleLeaf(ls);
      assert ls[..1] == ls;
    }
  }

  /** How the path of i in the tree over the first asOf + 1 leaves sits in the larger tree. */
  lemma {:induction false} PastPathStep(ls: seq<Hash>, i: nat, asOf: nat)
    requires i <= asOf < |ls| && |ls| >= 2
    ensures var m := Split(|ls|);
            MPath(ls[..asOf + 1], i) ==
            if asOf < m then MPath(ls[..m][..asOf + 1], i)
            else if i < m then MPath(ls[..m], i) + [Element(Mth(ls[m..][..asOf + 1 - m]), PathRight)]
            else MPath(ls[m..][..asOf + 1 - m], i - m) + [Element(Mth(ls[..m]), PathLeft)]
  {
    hide *;
    var m := Split(|ls|);
    var past := ls[..asOf + 1];
    if asOf < m {
      assert ls[..m][..asOf + 1] == past;
    } else {
      PrefixSplit(|ls|, asOf + 1);
      assert past[..m] == ls[..m];
      assert past[m..] == ls[m..][..asOf + 1 - m];
      PathUnfold(past, i);
    }
  }

  ghost predicate Collision() {
    exists a, b, c, d :: Collides(a, b, c, d)
  }

  ghost predicate Collides(a: Hash, b: Hash, c: Hash, d: Hash) {
    (a, b) != (c, d) && HashFunction(a, b) == HashFunction(c, d)
  }

  ghost function Directions(p: seq<Element>): seq<Direction> {
    seq(|p|, k requires 0 <= k < |p| => p[k].direction)
  }

  lemma Collide(a: Hash, b: Hash, c: Hash, d: Hash)
    requires a != c || b != d
    requires HashFunction(a, b) == HashFunction(c, d)
    ensures Collision()
  {
    assert Collides(a, b, c, d);
  }

  lemma DirectionsAt(p: seq<Element>, k: int)
    ensures |Directions(p)| == |p|
    ensures 0 <= k < |p| ==> Directions(p)[k] == p[k].direction && Directions(p[..k]) == Directions(p)[..k]
  {
  }

  /**
   Binding: another leaf or other sibling hashes, presented along the directions of leaf i, fold to
   the root only if the hash function has a collision.
   */
  lemma {:induction false} PathIsBinding(ls: seq<Hash>, i: nat, x: Hash, p: seq<Element>)
    requires i < |ls|
    requires Directions(p) == Directions(MPath(ls, i))
    requires Fold(x, p) == Mth(ls)
    requires x != ls[i] || p != MPath(ls, i)
    ensures Collision()
    decreases |ls|
  {
    hide *;
    var q := MPath(ls, i);
    if |ls| == 1 {
      SingleLeaf(ls);
      DirectionsAt(p, 0);
      DirectionsAt(q, 0);
    } else {
      var k := |p| - 1;
      DirectionsAt(p, k);
      DirectionsAt(q, k);
      PathUnfold(ls, i);
      MthUnfold(ls);
      var m := Split(|ls|);
      var sub, j := if i < m then ls[..m] else ls[m..], if i < m then i else i - m;
      assert q[..k] == MPath(sub, j);
      assert p == p[..k] + [p[k]] && q == q[..k] + [q[k]];
      FoldSnoc(x, p[..k], p[k]);
      var y := Fold(x, p[..k]);
      if p[k].hash == q[k].hash && y == Mth(sub) {
        assert sub[j] == ls[i];
        PathIsBinding(sub, j, x, p[..k]);
      } else if i < m {
        Collide(y, p[k].hash, Mth(ls[..m]), Mth(ls[m..]));
      } else {
        Collide(p[k].hash, y, Mth(ls[..m]), Mth(ls[m..]));
      }
    }
  }

  /** Two leaf sequences of one length with one root are equal, or the hash function has a collision. */
  lemma {:induction false} RootIsBinding(a: seq<Hash>, b: seq<Hash>)
    requires 0 < |a| == |b| && a != b && Mth(a) == Mth(b)
    ensures Collision()
    decreases |a|
  {
    if |a| > 1 {
      var m := Split(|a|);
      assert a == a[..m] + a[m..] && b == b[..m] + b[m..];
      if Mth(a[..m]) != Mth(b[..m]) || Mth(a[m..]) != Mth(b[m..]) {
        assert Collides(Mth(a[..m]), Mth(a[m..]), Mth(b[..m]), Mth(b[m..]));
      } else if a[..m] != b[..m] {
        RootIsBinding(a[..m], b[..m]);
      } else {
        RootIsBinding(a[m..], b[m..]);
      }
    }
  }
}
