/**
 Keys as hyperedges over the buckets of several hash tables.  Peeling removes keys that are alone in
 some bucket; what it leaves is the 2-core, whatever the order.
 */
module Peeling {
  type Key = nat

  /** A fixed number of tables with a fixed hash function each. */
  datatype Graph = Graph(tables: nat, h: (nat, Key) -> nat)

  function Bucket(g: Graph, s: set<Key>, t: nat, p: nat): set<Key> {
    set k | k in s && g.h(t, k) == p
  }

  ghost predicate Alone(g: Graph, s: set<Key>, t: nat, k: Key) {
    k in s && forall k' | k' in s && k' != k :: g.h(t, k') != g.h(t, k)
  }

  /** Every occupied bucket of every table holds at least two keys. */
  ghost predicate IsCore(g: Graph, s: set<Key>) {
    forall t: nat, k | t < g.tables && k in s :: !Alone(g, s, t, k)
  }

  /** k owns its bucket of table t: no key of s uses it. */
  ghost predicate Owns(g: Graph, k: Key, t: nat, s: set<Key>) {
    t < g.tables && forall k' | k' in s :: g.h(t, k') != g.h(t, k)
  }

  ghost predicate Owned(g: Graph, k: Key, s: set<Key>) {
    exists t :: Owns(g, k, t, s)
  }

  ghost function Elements(order: seq<Key>): set<Key> {
    set k | k in order
  }

  /** Every key of order owns a bucket that no later key of order and no key of rest uses. */
  ghost predicate OwnersInOrder(g: Graph, rest: set<Key>, order: seq<Key>) {
    forall i | 0 <= i < |order| :: Owned(g, order[i], rest + Elements(order[i + 1..])) && order[i] !in order[i + 1..]
  }

  ghost predicate HoldsCores(g: Graph, all: set<Key>, rest: set<Key>) {
    forall s | s <= all && IsCore(g, s) :: s <= rest
  }

  /** From all, the keys of order were peeled in that order and rest is left. */
  ghost predicate Peeled(g: Graph, all: set<Key>, rest: set<Key>, order: seq<Key>) {
    && all == rest + Elements(order) && rest !! Elements(order)
    && |all| == |rest| + |order|
    && OwnersInOrder(g, rest, order) && HoldsCores(g, all, rest)
  }

  /** The 2-core: a core that contains every core. */
  ghost predicate IsTwoCore(g: Graph, all: set<Key>, core: set<Key>) {
    core <= all && IsCore(g, core) && HoldsCores(g, all, core)
  }

  lemma TwoCoreUnique(g: Graph, all: set<Key>, a: set<Key>, b: set<Key>)
    requires IsTwoCore(g, all, a) && IsTwoCore(g, all, b)
    ensures a == b
  {
  }

  lemma BucketOne(g: Graph, s: set<Key>, t: nat, p: nat, k: Key)
    requires |Bucket(g, s, t, p)| == 1 && k in Bucket(g, s, t, p)
    ensures Alone(g, s, t, k) && Bucket(g, s, t, p) == {k}
  {
    var b := Bucket(g, s, t, p);
    SingletonSet(b, k);
    assert forall k' | k' in s && g.h(t, k') == p :: k' in b;
  }

  lemma SingletonSet<T>(s: set<T>, x: T)
    requires |s| == 1 && x in s
    ensures s == {x}
  {
    assert |s - {x}| == 0;
  }

  lemma AloneBucket(g: Graph, s: set<Key>, t: nat, k: Key)
    requires Alone(g, s, t, k)
    ensures Bucket(g, s, t, g.h(t, k)) == {k}
  {
  }

  lemma PeeledNothing(g: Graph, all: set<Key>)
    ensures Peeled(g, all, all, [])
  {
  }

  /** Removing a lonely key keeps everything: no core can contain it. */
  lemma PeelStep(g: Graph, all: set<Key>, rest: set<Key>, order: seq<Key>, t: nat, k: Key)
    requires Peeled(g, all, rest, order) && t < g.tables && Alone(g, rest, t, k)
    ensures Peeled(g, all, rest - {k}, order + [k])
  {
    ElementsSnoc(order, k);
    OwnersStep(g, rest, order, t, k);
    CoresStep(g, all, rest, t, k);
  }

  lemma ElementsSnoc(order: seq<Key>, k: Key)
    ensures Elements(order + [k]) == Elements(order) + {k}
  {
  }

  lemma OwnersStep(g: Graph, rest: set<Key>, order: seq<Key>, t: nat, k: Key)
    requires OwnersInOrder(g, rest, order) && rest !! Elements(order) && t < g.tables && Alone(g, rest, t, k)
    ensures OwnersInOrder(g, rest - {k}, order + [k])
  {
    hide Owned;
    var rest', order' := rest - {k}, order + [k];
    forall i | 0 <= i < |order'|
      ensures Owned(g, order'[i], rest' + Elements(order'[i + 1..])) && order'[i] !in order'[i + 1..]
    {
      if i < |order| {
        assert order'[i + 1..] == order[i + 1..] + [k];
        ElementsSnoc(order[i + 1..], k);
        assert rest' + Elements(order'[i + 1..]) == rest + Elements(order[i + 1..]);
        assert order[i] in Elements(order);
      } else {
        LastOwner(g, rest, t, k);
        assert rest' + Elements(order'[i + 1..]) == rest';
      }
    }
  }

  lemma LastOwner(g: Graph, rest: set<Key>, t: nat, k: Key)
    requires t < g.tables && Alone(g, rest, t, k)
    ensures Owned(g, k, rest - {k})
  {
    assert Owns(g, k, t, rest - {k});
  }

  lemma CoresStep(g: Graph, all: set<Key>, rest: set<Key>, t: nat, k: Key)
    requires HoldsCores(g, all, rest) && t < g.tables && Alone(g, rest, t, k)
    ensures HoldsCores(g, all, rest - {k})
  {
    forall s | s <= all && IsCore(g, s) ensures s <= rest - {k} {
      assert s <= rest;
      assert k in s ==> Alone(g, s, t, k);
    }
  }

  /** The list of waiting buckets covers all buckets of size one. */
  ghost predicate Covered(g: Graph, s: set<Key>, t: nat, size: nat, waiting: seq<nat>) {
    forall p | 0 <= p < size && |Bucket(g, s, t, p)| == 1 :: p in waiting
  }

  /** A table without buckets of size one holds no lonely key. */
  lemma NoOnesNoLonely(g: Graph, s: set<Key>, size: nat)
    requires forall t: nat | t < g.tables :: Covered(g, s, t, size, [])
    requires forall t: nat, k: Key :: g.h(t, k) < size
    ensures IsCore(g, s)
  {
    forall t: nat, k | t < g.tables && k in s ensures !Alone(g, s, t, k) {
      assert |{k}| == 1 && Covered(g, s, t, size, []);
      if Alone(g, s, t, k) {
        AloneBucket(g, s, t, k);
      }
    }
  }

  lemma {:induction false} ElementsCount(ks: seq<Key>)
    ensures |Elements(ks)| <= |ks|
    ensures |Elements(ks)| == |ks| ==> forall i | 0 <= i < |ks| :: ks[i] !in ks[..i]
  {
    if ks != [] {
      var m := |ks| - 1;
      var front, last := ks[..m], ks[m];
      assert ks == front + [last];
      ElementsSnoc(front, last);
      ElementsCount(front);
      if last in front {
        assert last in Elements(front);
        assert Elements(ks) == Elements(front);
      }
      assert forall i | 0 <= i < m :: front[..i] == ks[..i];
    }
  }

  /** Removing a key changes only its own bucket. */
  lemma RemoveBucket(g: Graph, s: set<Key>, t: nat, k: Key)
    requires k in s
    ensures forall p :: Bucket(g, s - {k}, t, p) == Bucket(g, s, t, p) - {k}
    ensures forall p | p != g.h(t, k) :: Bucket(g, s - {k}, t, p) == Bucket(g, s, t, p)
  {
  }

  lemma RemoveCovered(g: Graph, s: set<Key>, t: nat, size: nat, waiting: seq<nat>, k: Key)
    requires k in s && Covered(g, s, t, size, waiting)
    ensures var p := g.h(t, k);
            Covered(g, s - {k}, t, size, if |Bucket(g, s - {k}, t, p)| == 1 then waiting + [p] else waiting)
  {
    RemoveBucket(g, s, t, k);
  }

  /** Removing the only key of a bucket empties it. */
  lemma RemoveAlone(g: Graph, s: set<Key>, t: nat, size: nat, waiting: seq<nat>, k: Key)
    requires Alone(g, s, t, k) && Covered(g, s, t, size, [g.h(t, k)] + waiting)
    ensures Covered(g, s - {k}, t, size, waiting)
  {
    RemoveBucket(g, s, t, k);
    AloneBucket(g, s, t, k);
    assert Bucket(g, s - {k}, t, g.h(t, k)) == {};
  }

  lemma StillRoom(g: Graph, all: set<Key>, rest: set<Key>, order: seq<Key>, t: nat, key: Key)
    requires Peeled(g, all, rest, order) && Alone(g, rest, t, key)
    ensures |order| < |all| && |rest - {key}| == |rest| - 1
  {
    assert rest == (rest - {key}) + {key};
  }

  lemma InBucket(g: Graph, s: set<Key>, t: nat, pos: nat, key: Key)
    requires |Bucket(g, s, t, pos)| == 1 && key in Bucket(g, s, t, pos)
    ensures Alone(g, s, t, key) && g.h(t, key) == pos && key in s
  {
    BucketOne(g, s, t, pos, key);
  }

  lemma DropPosition(g: Graph, s: set<Key>, t: nat, size: nat, pos: nat, waiting: seq<nat>)
    requires Covered(g, s, t, size, [pos] + waiting) && |Bucket(g, s, t, pos)| != 1
    ensures Covered(g, s, t, size, waiting)
  {
  }

  lemma NothingSwept(g: Graph, s: set<Key>, t: nat)
    ensures Covered(g, s, t, 0, [])
  {
  }

  lemma SweepNext(g: Graph, s: set<Key>, t: nat, position: nat)
    requires Covered(g, s, t, position, [])
    ensures Covered(g, s, t, position + 1, [position] + [])
    ensures |Bucket(g, s, t, position)| != 1 ==> Covered(g, s, t, position + 1, [])
  {
  }

  lemma NothingWaits(g: Graph, all: set<Key>, rest: set<Key>, order: seq<Key>, size: nat)
    requires Peeled(g, all, rest, order) && forall t: nat, k: Key :: g.h(t, k) < size
    requires forall t: nat | t < g.tables :: Covered(g, rest, t, size, [])
    ensures IsTwoCore(g, all, rest) && |rest| == |all| - |order|
  {
    hide Covered, Bucket, OwnersInOrder;
    NoOnesNoLonely(g, rest, size);
  }

  // Where peeling starts

  /** k is alone in its bucket, and no bucket before that one, in table order, has one key. */
  ghost predicate FirstAlone(g: Graph, s: set<Key>, t: nat, k: Key) {
    && t < g.tables && Alone(g, s, t, k)
    && forall u: nat, k' | u < g.tables && Alone(g, s, u, k') :: t < u || (t == u && g.h(t, k) <= g.h(t, k'))
  }

  /** The first key to go is the first one that is alone. */
  ghost predicate StartsFirst(g: Graph, all: set<Key>, order: seq<Key>) {
    order != [] ==> forall t: nat, k | FirstAlone(g, all, t, k) :: k == order[0]
  }

  /** A sweep over the tables in order keeps that. */
  lemma SweepStarts(g: Graph, all: set<Key>, rest: set<Key>, order: seq<Key>, t: nat, size: nat, key: Key)
    requires Peeled(g, all, rest, order) && StartsFirst(g, all, order) && Alone(g, rest, t, key) && t < g.tables
    requires forall t: nat, k: Key :: g.h(t, k) < size
    requires order == [] ==> forall u: nat | u < t :: Covered(g, rest, u, size, [])
    requires Covered(g, rest, t, g.h(t, key), [])
    ensures StartsFirst(g, all, order + [key])
  {
    hide OwnersInOrder, HoldsCores, Bucket;
    if order == [] {
      assert rest == all;
      forall u: nat, k | FirstAlone(g, all, u, k) ensures k == key {
        assert u < t ==> Covered(g, all, u, size, []);
        assert u < t || (u == t && g.h(u, k) <= g.h(t, key));
        AloneBucket(g, all, u, k);
        assert |Bucket(g, all, u, g.h(u, k))| == |{k}|;
      }
      assert (order + [key])[0] == key;
    } else {
      assert (order + [key])[0] == order[0];
    }
  }
}
