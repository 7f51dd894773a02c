/** Peeling over two hash tables: a sweep of the first, then a sweep of the second that follows chains. */
module PeelingTwo {
  import opened Peeling

  class OBD2Tables {
    const g: Graph
    const size: nat
    const hashSize: nat
    const v: nat
    var keys: seq<Key>
    var first: set<Key>
    var second: set<Key>
    var peelingVector: seq<Key>
    var peelingCounter: nat

    ghost predicate Ok() {
      g.tables == 2 && forall t: nat, k: Key :: g.h(t, k) < size
    }

    /** The keys left in both tables are what peeling off the recorded keys leaves of all. */
    ghost predicate PeeledFrom(all: set<Key>)
      reads this
    {
      && Ok() && first == second && peelingCounter <= |peelingVector| == hashSize == |all|
      && Peeled(g, all, first, peelingVector[..peelingCounter])
    }

    constructor (g: Graph, size: nat, hashSize: nat, v: nat, keys: seq<Key>)
      requires g.tables == 2 && |keys| == hashSize && forall t: nat, k: Key :: g.h(t, k) < size
      ensures this.g == g && this.size == size && this.hashSize == hashSize && this.v == v && this.keys == keys
      ensures Ok() && first == second == {}
    {
      this.g, this.size, this.hashSize, this.v, this.keys := g, size, hashSize, v, keys;
      first, second, peelingVector, peelingCounter := {}, {}, [], 0;
    }

    method FillTables()
      requires first == second == {} && |keys| == hashSize
      modifies `first, `second
      ensures first == second == Elements(keys)
    {
      for i := 0 to hashSize
        invariant first == second == Elements(keys[..i])
      {
        assert keys[..i + 1] == keys[..i] + [keys[i]];
        first, second := first + {keys[i]}, second + {keys[i]};
      }
      assert keys[..hashSize] == keys;
    }

    /** Records a key that is alone in its bucket of table t and erases it from both tables. */
    method Peel(key: Key, t: nat, ghost all: set<Key>)
      requires PeeledFrom(all) && t < 2 && Alone(g, first, t, key)
      modifies `first, `second, `peelingVector, `peelingCounter
      ensures PeeledFrom(all) && first == old(first) - {key} && |first| < |old(first)|
    {
      hide Peeled, Alone;
      PeelStep(g, all, first, peelingVector[..peelingCounter], t, key);
      StillRoom(g, all, first, peelingVector[..peelingCounter], t, key);
      ghost var before := peelingVector[..peelingCounter];
      peelingVector := peelingVector[peelingCounter := key];
      peelingCounter := peelingCounter + 1;
      assert peelingVector[..peelingCounter] == before + [key];
      first, second := first - {key}, second - {key};
    }

    method SweepFirst(ghost all: set<Key>)
      requires PeeledFrom(all)
      modifies `first, `second, `peelingVector, `peelingCounter
      ensures PeeledFrom(all) && Covered(g, first, 0, size, [])
    {
      hide Covered, Bucket, Alone, Peeled;
      NothingSwept(g, first, 0);
      for position := 0 to size
        invariant PeeledFrom(all) && Covered(g, first, 0, position, [])
      {
        SweepNext(g, first, 0, position);
        var bucket := Bucket(g, first, 0, position);
        if |bucket| == 1 {
          var key :| key in bucket;
          InBucket(g, first, 0, position, key);
          RemoveAlone(g, first, 0, position + 1, [], key);
          Peel(key, 0, all);
        }
      }
    }

    /**
     The chain that starts with the only key of bucket position of the second table.  secondBucket starts
     at 0 only to enter the loop; the chain goes on while it leads back to buckets already swept.
     */
    method FollowChain(key0: Key, position: nat, ghost all: set<Key>)
      requires PeeledFrom(all) && position < size && Alone(g, second, 1, key0) && g.h(1, key0) == position
      requires Covered(g, first, 0, size, []) && Covered(g, first, 1, position + 1, [position])
      modifies `first, `second, `peelingVector, `peelingCounter
      ensures PeeledFrom(all) && Covered(g, first, 0, size, []) && Covered(g, first, 1, position + 1, [])
    {
      hide Covered, Bucket, Alone, Peeled;
      var key, secondBucket := key0, 0;
      while secondBucket <= position
        invariant PeeledFrom(all) && Covered(g, first, 0, size, [])
        invariant secondBucket <= position ==>
                    Alone(g, second, 1, key) && Covered(g, first, 1, position + 1, [g.h(1, key)])
        invariant secondBucket > position ==> Covered(g, first, 1, position + 1, [])
        decreases |first|, position + 1 - secondBucket
      {
        ghost var before := first;
        AloneIn(g, before, 1, key);
        assert [g.h(1, key)] + [] == [g.h(1, key)];
        RemoveAlone(g, before, 1, position + 1, [], key);
        Peel(key, 1, all);
        RemoveCovered(g, before, 0, size, [], key);
        var bucket := g.h(0, key);
        if |Bucket(g, first, 0, bucket)| == 1 {
          key :| key in Bucket(g, first, 0, bucket);
          InBucket(g, first, 0, bucket, key);
          before := first;
          assert [g.h(0, key)] + [] == [g.h(0, key)] && [] + [bucket] == [bucket];
          RemoveAlone(g, before, 0, size, [], key);
          Peel(key, 0, all);
          RemoveCovered(g, before, 1, position + 1, [], key);
          secondBucket := g.h(1, key);
          if |Bucket(g, second, 1, secondBucket)| == 1 {
            key :| key in Bucket(g, second, 1, secondBucket);
            InBucket(g, second, 1, secondBucket, key);
            assert [] + [secondBucket] == [secondBucket];
            BeyondSweep(g, first, 1, position + 1, secondBucket);
          } else {
            secondBucket := position + 1;
          }
        } else {
          secondBucket := position + 1;
        }
      }
    }

    /**
     Peels until no bucket of either table holds exactly one key.  What is left is the 2-core of the keys,
     the result says whether it is small enough.
     */
    method RunPeeling() returns (succeeded: bool)
      requires Ok() && first == second == Elements(keys) && |first| == hashSize
      modifies `first, `second, `peelingVector, `peelingCounter
      ensures PeeledFrom(Elements(keys)) && IsTwoCore(g, Elements(keys), first)
      ensures |first| == hashSize - peelingCounter
      ensures succeeded <==> |first| <= v
    {
      hide Covered, Bucket, Alone, Peeled, Elements;
      ghost var all := Elements(keys);
      peelingVector := seq(hashSize, i => 0);
      peelingCounter := 0;
      PeeledNothing(g, all);
      assert peelingVector[..0] == [];
      SweepFirst(all);
      NothingSwept(g, first, 1);
      for position := 0 to size
        invariant PeeledFrom(all) && Covered(g, first, 0, size, []) && Covered(g, first, 1, position, [])
      {
        SweepNext(g, first, 1, position);
        var bucket := Bucket(g, second, 1, position);
        if |bucket| == 1 {
          var key :| key in bucket;
          InBucket(g, second, 1, position, key);
          assert [position] + [] == [position];
          FollowChain(key, position, all);
        }
      }
      NothingWaits(g, all, first, peelingVector[..peelingCounter], size);
      succeeded := !(hashSize - peelingCounter > v);
    }
  }

  lemma AloneIn(g: Graph, s: set<Key>, t: nat, key: Key)
    requires Alone(g, s, t, key)
    ensures key in s
  {
  }

  /** A bucket that the sweep has not reached yet will be seen later. */
  lemma BeyondSweep(g: Graph, s: set<Key>, t: nat, swept: nat, b: nat)
    requires Covered(g, s, t, swept, [b])
    ensures b >= swept ==> Covered(g, s, t, swept, [])
  {
  }
}
