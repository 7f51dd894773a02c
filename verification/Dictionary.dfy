/** The dictionary object: fill, peel, solve, unpeel, decode. */
module Dictionary {
  import opened XorGroup
  import opened Peeling
  import opened DictionaryTables
  import opened BackSubstitution
  import opened LateWrites

  datatype Queues = Queues(main: seq<nat>, other1: seq<nat>, other2: seq<nat>)

  /** The external solver. */
  type Solver = (seq<seq<bool>>, seq<GF>) -> seq<GF>

  ghost predicate SolvedBy(p: Params, sys: System, solver: Solver, m: nat) {
    Solves(sys.matrix, sys.values, Resize(solver(sys.matrix, sys.values), 3 * m + p.gamma))
  }

  datatype Run = Run(sys: System, rowOf: map<Key, nat>, start: seq<GF>, order: seq<Key>)

  class OBD3Tables {
    const p: Params
    const hashSize: nat
    const v: nat
    var keys: seq<Key>
    var vals: map<Key, GF>
    var tables: seq<set<Key>>  // first, second, third
    var peelingVector: seq<Key>
    var peelingCounter: nat
    var variables: seq<GF>
    var sign: seq<bool>

    ghost predicate Shaped()
      reads this
    {
      && p.Ok() && |tables| == 3 && tables[0] == tables[1] == tables[2]
      && |keys| == hashSize && |variables| == 3 * p.size + p.gamma && |sign| == 3 * p.size
      && forall k | k in keys :: k in vals
    }

    /** No variable has been given a value yet. */
    ghost predicate Blank()
      reads `variables, `sign
    {
      && p.Ok() && |variables| == 3 * p.size + p.gamma && |sign| == 3 * p.size
      && (forall i | 0 <= i < |variables| :: variables[i] == Zero) && (forall i | 0 <= i < |sign| :: !sign[i])
    }

    /** The keys left in the tables are what peeling off the recorded keys leaves of all. */
    ghost predicate PeeledFrom(all: set<Key>)
      reads this
    {
      && Shaped() && peelingCounter <= |peelingVector| && |all| <= |peelingVector|
      && Peeled(p.g, all, tables[0], peelingVector[..peelingCounter])
    }

    constructor (p: Params, hashSize: nat, v: nat)
      requires p.Ok()
      ensures this.p == p && this.hashSize == hashSize && this.v == v
      ensures tables == [{}, {}, {}] && peelingCounter == 0
      ensures variables == seq(3 * p.size + p.gamma, i => Zero) && sign == seq(3 * p.size, i => false)
    {
      this.p, this.hashSize, this.v := p, hashSize, v;
      keys, vals, tables := [], map[], [{}, {}, {}];
      peelingVector, peelingCounter := [], 0;
      variables, sign := seq(3 * p.size + p.gamma, i => Zero), seq(3 * p.size, i => false);
    }

    /** A repeated key keeps its first value, as inserting into the map does. */
    method SetKeysAndVals(keys: seq<Key>, values: seq<GF>)
      requires |keys| == |values| == hashSize
      modifies `keys, `vals
      ensures this.keys == keys && vals.Keys == Elements(keys)
      ensures forall i | 0 <= i < |keys| && keys[i] !in keys[..i] :: vals[keys[i]] == values[i]
    {
      this.keys := keys;
      vals := map[];
      for i := 0 to hashSize
        invariant this.keys == keys && vals.Keys == Elements(keys[..i])
        invariant forall j | 0 <= j < i && keys[j] !in keys[..j] :: vals[keys[j]] == values[j]
      {
        assert keys[..i + 1] == keys[..i] + [keys[i]];
        if keys[i] !in vals {
          vals := vals[keys[i] := values[i]];
        }
      }
      assert keys[..hashSize] == keys;
    }

    method Init()
      modifies `tables, `peelingVector, `peelingCounter
      ensures tables == [{}, {}, {}] && peelingVector == [] && peelingCounter == 0
    {
      peelingVector, peelingCounter := [], 0;
      tables := [{}, {}, {}];
    }

    method FillTables()
      requires Shaped()
      modifies `tables
      ensures Shaped() && tables[0] == old(tables[0]) + Elements(keys)
    {
      for i := 0 to hashSize
        invariant Shaped() && tables[0] == old(tables[0]) + Elements(keys[..i])
      {
        assert keys[..i + 1] == keys[..i] + [keys[i]];
        tables := [tables[0] + {keys[i]}, tables[1] + {keys[i]}, tables[2] + {keys[i]}];
      }
      assert keys[..hashSize] == keys;
    }

    /** Records a key that is alone in its bucket of table t and erases it from every table. */
    method Peel(key: Key, t: nat, ghost all: set<Key>)
      requires PeeledFrom(all) && t < 3 && Alone(p.g, tables[0], t, key)
      modifies `tables, `peelingVector, `peelingCounter
      ensures PeeledFrom(all) && tables[0] == old(tables[0]) - {key} && |tables[0]| < |old(tables[0])|
      ensures |peelingVector| == |old(peelingVector)|
      ensures peelingCounter == old(peelingCounter) + 1
      ensures peelingVector[..peelingCounter] == old(peelingVector[..peelingCounter]) + [key]
    {
      hide Peeled, Alone;
      PeelStep(p.g, all, tables[0], peelingVector[..peelingCounter], t, key);
      StillRoom(p.g, all, tables[0], peelingVector[..peelingCounter], t, key);
      ghost var before := peelingVector[..peelingCounter];
      peelingVector := peelingVector[peelingCounter := key];
      peelingCounter := peelingCounter + 1;
      assert peelingVector[..peelingCounter] == before + [key];
      tables := [tables[0] - {key}, tables[1] - {key}, tables[2] - {key}];
    }

    /** After key was erased: the bucket it leaves is queued if one key is left in it. */
    method PushIfOne(t: nat, key: Key, queue: seq<nat>, ghost before: set<Key>) returns (q: seq<nat>)
      requires Shaped() && t < 3 && key in before && tables[0] == before - {key}
      requires Covered(p.g, before, t, p.size, queue)
      ensures Covered(p.g, tables[0], t, p.size, q)
      ensures q == queue || q == queue + [p.g.h(t, key)]
    {
      hide Covered, Bucket;
      RemoveCovered(p.g, before, t, p.size, queue, key);
      q := if |Bucket(p.g, tables[t], t, p.g.h(t, key))| == 1 then queue + [p.g.h(t, key)] else queue;
    }

    method HandleQueue(m: nat, o1: nat, o2: nat, q0: Queues, ghost all: set<Key>) returns (q: Queues)
      requires PeeledFrom(all) && m < 3 && o1 < 3 && o2 < 3 && m != o1 && m != o2 && o1 != o2
      requires peelingCounter > 0 && StartsFirst(p.g, all, peelingVector[..peelingCounter])
      requires Covered(p.g, tables[0], m, p.size, q0.main)
      requires Covered(p.g, tables[0], o1, p.size, q0.other1) && Covered(p.g, tables[0], o2, p.size, q0.other2)
      modifies `tables, `peelingVector, `peelingCounter
      ensures PeeledFrom(all) && |peelingVector| == |old(peelingVector)|
      ensures peelingCounter > 0 && StartsFirst(p.g, all, peelingVector[..peelingCounter])
      ensures Covered(p.g, tables[0], m, p.size, q.main)
      ensures Covered(p.g, tables[0], o1, p.size, q.other1) && Covered(p.g, tables[0], o2, p.size, q.other2)
      ensures |q.main| <= |q0.main| && (q0.main != [] ==> |q.main| < |q0.main|)
      ensures |tables[0]| < |old(tables[0])| ||
              (|tables[0]| == |old(tables[0])| && q.other1 == q0.other1 && q.other2 == q0.other2)
    {
      hide Covered, Bucket, Alone, Peeled;
      q := q0;
      var i := 0;
      while i < |q.main|
        invariant PeeledFrom(all) && |peelingVector| == |old(peelingVector)|
        invariant peelingCounter > 0 && StartsFirst(p.g, all, peelingVector[..peelingCounter])
        invariant Covered(p.g, tables[0], m, p.size, q.main)
        invariant Covered(p.g, tables[0], o1, p.size, q.other1) && Covered(p.g, tables[0], o2, p.size, q.other2)
        invariant |q.main| <= |q0.main| && (i == 0 ==> q == q0) && (i > 0 ==> |q.main| < |q0.main|)
        invariant |tables[0]| < |old(tables[0])| ||
                  (|tables[0]| == |old(tables[0])| && q.other1 == q0.other1 && q.other2 == q0.other2)
        decreases |q.main|
      {
        var pos := q.main[0];
        assert q.main == [pos] + q.main[1..];
        q := q.(main := q.main[1..]);
        var bucket := Bucket(p.g, tables[m], m, pos);
        if |bucket| == 1 {
          var key :| key in bucket;
          InBucket(p.g, tables[0], m, pos, key);
          ghost var before := tables[0];
          RemoveAlone(p.g, before, m, p.size, q.main, key);
          assert q0.main != [];
          Peel(key, m, all);
          var q1 := PushIfOne(o1, key, q.other1, before);
          var q2 := PushIfOne(o2, key, q.other2, before);
          q := q.(other1 := q1, other2 := q2);
        } else {
          DropPosition(p.g, tables[0], m, p.size, pos, q.main);
        }
        i := i + 1;
      }
    }

    /** First sweep: nothing waits, the later sweeps visit the other tables. */
    method SweepFirst(ghost all: set<Key>)
      requires PeeledFrom(all) && StartsFirst(p.g, all, peelingVector[..peelingCounter])
      modifies `tables, `peelingVector, `peelingCounter
      ensures PeeledFrom(all) && |peelingVector| == |old(peelingVector)|
      ensures StartsFirst(p.g, all, peelingVector[..peelingCounter])
      ensures Covered(p.g, tables[0], 0, p.size, [])
    {
      hide Covered, Bucket, Alone, Peeled, StartsFirst;
      NothingSwept(p.g, tables[0], 0);
      for position := 0 to p.size
        invariant PeeledFrom(all) && |peelingVector| == |old(peelingVector)|
        invariant StartsFirst(p.g, all, peelingVector[..peelingCounter])
        invariant Covered(p.g, tables[0], 0, position, [])
      {
        var bucket := Bucket(p.g, tables[0], 0, position);
        SweepNext(p.g, tables[0], 0, position);
        if |bucket| == 1 {
          var key :| key in bucket;
          InBucket(p.g, tables[0], 0, position, key);
          RemoveAlone(p.g, tables[0], 0, position + 1, [], key);
          SweepStarts(p.g, all, tables[0], peelingVector[..peelingCounter], 0, p.size, key);
          Peel(key, 0, all);
        }
      }
    }

    method SweepSecond(ghost all: set<Key>) returns (queueFirst: seq<nat>)
      requires PeeledFrom(all) && StartsFirst(p.g, all, peelingVector[..peelingCounter])
      requires Covered(p.g, tables[0], 0, p.size, [])
      modifies `tables, `peelingVector, `peelingCounter
      ensures PeeledFrom(all) && |peelingVector| == |old(peelingVector)|
      ensures StartsFirst(p.g, all, peelingVector[..peelingCounter]) && (peelingCounter == 0 ==> queueFirst == [])
      ensures Covered(p.g, tables[0], 0, p.size, queueFirst) && Covered(p.g, tables[0], 1, p.size, [])
    {
      hide Covered, Bucket, Alone, Peeled, StartsFirst;
      queueFirst := [];
      NothingSwept(p.g, tables[0], 1);
      for position := 0 to p.size
        invariant PeeledFrom(all) && |peelingVector| == |old(peelingVector)|
        invariant StartsFirst(p.g, all, peelingVector[..peelingCounter]) && (peelingCounter == 0 ==> queueFirst == [])
        invariant Covered(p.g, tables[0], 0, p.size, queueFirst) && Covered(p.g, tables[0], 1, position, [])
      {
        var bucket := Bucket(p.g, tables[1], 1, position);
        SweepNext(p.g, tables[0], 1, position);
        if |bucket| == 1 {
          var key :| key in bucket;
          InBucket(p.g, tables[0], 1, position, key);
          RemoveAlone(p.g, tables[0], 1, position + 1, [], key);
          SweepStarts(p.g, all, tables[0], peelingVector[..peelingCounter], 1, p.size, key);
          ghost var before := tables[0];
          Peel(key, 1, all);
          queueFirst := PushIfOne(0, key, queueFirst, before);
        }
      }
    }

    method SweepThird(queueFirst0: seq<nat>, ghost all: set<Key>) returns (queueFirst: seq<nat>, queueSecond: seq<nat>)
      requires PeeledFrom(all)
      requires StartsFirst(p.g, all, peelingVector[..peelingCounter]) && (peelingCounter == 0 ==> queueFirst0 == [])
      requires Covered(p.g, tables[0], 0, p.size, queueFirst0) && Covered(p.g, tables[0], 1, p.size, [])
      modifies `tables, `peelingVector, `peelingCounter
      ensures PeeledFrom(all) && |peelingVector| == |old(peelingVector)|
      ensures StartsFirst(p.g, all, peelingVector[..peelingCounter]) && (peelingCounter == 0 ==> queueFirst == queueSecond == [])
      ensures Covered(p.g, tables[0], 0, p.size, queueFirst) && Covered(p.g, tables[0], 1, p.size, queueSecond)
      ensures Covered(p.g, tables[0], 2, p.size, [])
    {
      hide Covered, Bucket, Alone, Peeled, StartsFirst;
      queueFirst, queueSecond := queueFirst0, [];
      NothingSwept(p.g, tables[0], 2);
      for position := 0 to p.size
        invariant PeeledFrom(all) && |peelingVector| == |old(peelingVector)|
        invariant StartsFirst(p.g, all, peelingVector[..peelingCounter]) && (peelingCounter == 0 ==> queueFirst == queueSecond == [])
        invariant Covered(p.g, tables[0], 0, p.size, queueFirst) && Covered(p.g, tables[0], 1, p.size, queueSecond)
        invariant Covered(p.g, tables[0], 2, position, [])
      {
        var bucket := Bucket(p.g, tables[2], 2, position);
        SweepNext(p.g, tables[0], 2, position);
        if |bucket| == 1 {
          var key :| key in bucket;
          InBucket(p.g, tables[0], 2, position, key);
          RemoveAlone(p.g, tables[0], 2, position + 1, [], key);
          SweepStarts(p.g, all, tables[0], peelingVector[..peelingCounter], 2, p.size, key);
          ghost var before := tables[0];
          Peel(key, 2, all);
          queueFirst := PushIfOne(0, key, queueFirst, before);
          queueSecond := PushIfOne(1, key, queueSecond, before);
        }
      }
    }

    /**
     Peels until no bucket of any table holds exactly one key.  What is left is the 2-core of the keys;
     the result says whether it is small enough.
     */
    method RunPeeling(ghost all: set<Key>) returns (succeeded: bool)
      requires Shaped() && tables[0] == all && |all| == hashSize
      modifies `tables, `peelingVector, `peelingCounter
      ensures PeeledFrom(all) && IsTwoCore(p.g, all, tables[0])
      ensures StartsFirst(p.g, all, peelingVector[..peelingCounter])
      ensures |tables[0]| == hashSize - peelingCounter
      ensures succeeded <==> |tables[0]| <= v
    {
      hide Covered, Bucket, Alone, Peeled, FirstAlone;
      peelingVector := seq(hashSize, i => 0);
      peelingCounter := 0;
      PeeledNothing(p.g, all);
      assert peelingVector[..0] == [];
      SweepFirst(all);
      var queueFirst := SweepSecond(all);
      var queueSecond, queueThird := [], [];
      queueFirst, queueSecond := SweepThird(queueFirst, all);
      while |queueFirst| != 0 || |queueSecond| != 0 || |queueThird| != 0
        invariant PeeledFrom(all) && |peelingVector| == hashSize
        invariant StartsFirst(p.g, all, peelingVector[..peelingCounter])
        invariant peelingCounter == 0 ==> queueFirst == queueSecond == queueThird == []
        invariant Covered(p.g, tables[0], 0, p.size, queueFirst)
        invariant Covered(p.g, tables[0], 1, p.size, queueSecond)
        invariant Covered(p.g, tables[0], 2, p.size, queueThird)
        decreases |tables[0]|, |queueFirst| + |queueSecond| + |queueThird|
      {
        var q := HandleQueue(0, 1, 2, Queues(queueFirst, queueSecond, queueThird), all);
        queueFirst, queueSecond, queueThird := q.main, q.other1, q.other2;
        q := HandleQueue(1, 0, 2, Queues(queueSecond, queueFirst, queueThird), all);
        queueSecond, queueFirst, queueThird := q.main, q.other1, q.other2;
        q := HandleQueue(2, 0, 1, Queues(queueThird, queueFirst, queueSecond), all);
        queueThird, queueFirst, queueSecond := q.main, q.other1, q.other2;
      }
      NothingWaits(p.g, all, tables[0], peelingVector[..peelingCounter], p.size);
      succeeded := !(hashSize - peelingCounter > v);
    }

    // The core: a linear system over the buckets in use

    /** Adds the equation of one core key. */
    method AddRow(key: Key, m: nat, sys0: System, ghost rowOf: map<Key, nat>) returns (sys: System)
      requires Shaped() && key in vals && SystemOk(p, sys0, rowOf, vals, m) && key !in rowOf && |rowOf| < m
      modifies `sign
      ensures Shaped() && SystemOk(p, sys, rowOf[key := |sys0.matrix|], vals, m)
      ensures forall i | 0 <= i < |sign| :: sign[i] <==> old(sign[i]) || i in Cells(p, key)
    {
      hide IsRow, Index, WithColumns, Extends, RowOk;
      SystemBounded(p, sys0, rowOf, vals, m);
      sys := WithColumns(p, sys0, key);
      ColumnsAdded(p, sys0, key);
      IndexRange(p, key);
      sign := sign[Index(p, 0, key) := true][Index(p, 1, key) := true][Index(p, 2, key) := true];
      ColumnsFit(p, sys, key, m);
      var row := BuildRow(p, key, sys.cols, m);
      sys := sys.(matrix := sys.matrix + [row], values := sys.values + [vals[key]]);
      RowAdded(p, sys0, sys, rowOf, key, vals, m);
    }

    /** The keys of the core whose bucket in the first table lies below i. */
    ghost function Below(i: nat): set<Key>
      requires |tables| == 3
      reads this
    {
      set k | k in tables[0] && p.g.h(0, k) < i
    }

    /** The equations of the keys of one bucket, in whatever order the bucket lists them. */
    method AddBucket(bucket: set<Key>, m: nat, sys0: System, ghost rowOf0: map<Key, nat>)
      returns (sys: System, ghost rowOf: map<Key, nat>)
      requires Shaped() && |tables[0]| == m && bucket <= tables[0] && bucket !! rowOf0.Keys && rowOf0.Keys <= tables[0]
      requires SystemOk(p, sys0, rowOf0, vals, m) && forall k | k in tables[0] :: k in vals
      modifies `sign
      ensures Shaped() && SystemOk(p, sys, rowOf, vals, m) && rowOf.Keys == rowOf0.Keys + bucket
      ensures forall c | 0 <= c < |sign| :: sign[c] <==> old(sign[c]) || Touched(p, c, bucket)
    {
      hide SystemOk, Cells, Touched, SignsAre, Split;
      sys, rowOf := sys0, rowOf0;
      var rest := bucket;
      ghost var done: set<Key> := {};
      SignsStart(p, sign);
      NoneMoved(bucket);
      while rest != {}
        invariant Split(bucket, done, rest) && Shaped() && SystemOk(p, sys, rowOf, vals, m)
        invariant rowOf.Keys == rowOf0.Keys + done && rest <= bucket
        invariant SignsAre(p, old(sign), sign, done)
        decreases rest
      {
        var key :| key in rest;
        NotYet(bucket, done, rest, key, rowOf0.Keys);
        RowsLeft(rowOf, tables[0], key);
        ghost var row := |sys.matrix|;
        ghost var before := sign;
        sys := AddRow(key, m, sys, rowOf);
        SignsMore(p, old(sign), before, sign, done, key);
        MoveKey(bucket, done, rest, key);
        KeyAdded(rowOf, rowOf0.Keys, done, key, row);
        rowOf := rowOf[key := row];
        rest, done := rest - {key}, done + {key};
      }
      AllMoved(bucket, done, rest);
      SignsEnd(p, old(sign), sign, done, bucket);
    }

    /** The equations of all keys left by peeling, bucket by bucket of the first table. */
    method BuildSystem(m: nat) returns (sys: System, ghost rowOf: map<Key, nat>)
      requires Shaped() && IsCore(p.g, tables[0]) && |tables[0]| == m && forall k | k in tables[0] :: k in vals
      modifies `sign
      ensures Shaped() && SystemOk(p, sys, rowOf, vals, m) && rowOf.Keys == tables[0]
      ensures forall i | 0 <= i < |sign| :: sign[i] <==> old(sign[i]) || Touched(p, i, tables[0])
    {
      hide SystemOk, IsCore, Cells, Touched;
      sys, rowOf := System([], [], [map[], map[], map[]], [0, 0, 0]), map[];
      EmptySystem(p, vals, m);
      TouchedNone(p);
      for i := 0 to p.size
        invariant Shaped() && SystemOk(p, sys, rowOf, vals, m) && rowOf.Keys == Below(i)
        invariant forall c | 0 <= c < |sign| :: sign[c] <==> old(sign[c]) || Touched(p, c, Below(i))
      {
        var bucket := Bucket(p.g, tables[0], 0, i);
        CoreBucket(p.g, tables[0], i);
        TouchedJoin(p, Below(i), bucket);
        if |bucket| > 1 {
          sys, rowOf := AddBucket(bucket, m, sys, rowOf);
        }
      }
      assert Below(p.size) == tables[0];
    }

    /** Copies the solution to the cells of the keys of one bucket. */
    method CopyBucket(bucket: set<Key>, sys: System, slim: seq<GF>, m: nat, ghost rowOf: map<Key, nat>, ghost done: set<Key>)
      requires Shaped() && SystemOk(p, sys, rowOf, vals, m) && bucket <= rowOf.Keys && |slim| == 3 * m + p.gamma
      requires forall k | k in done :: Copied(p, variables, slim, sys.cols, m, k)
      modifies `variables
      ensures Shaped() && forall k | k in done + bucket :: Copied(p, variables, slim, sys.cols, m, k)
      ensures forall i | 0 <= i < 3 * p.size && !Touched(p, i, bucket) :: variables[i] == old(variables[i])
    {
      hide SystemOk, Cells, Copied, Touched;
      var rest := bucket;
      TouchedNone(p);
      assert bucket - rest == {};
      while rest != {}
        invariant rest <= bucket && Shaped()
        invariant forall k | k in done + (bucket - rest) :: Copied(p, variables, slim, sys.cols, m, k)
        invariant forall i | 0 <= i < 3 * p.size && !Touched(p, i, bucket - rest) :: variables[i] == old(variables[i])
        decreases rest
      {
        var key :| key in rest;
        HasColumns(p, sys, rowOf, vals, m, key);
        IndexRange(p, key);
        ghost var before := variables;
        var c0, c1, c2 := sys.cols[0][p.g.h(0, key)], sys.cols[1][p.g.h(1, key)], sys.cols[2][p.g.h(2, key)];
        variables := variables[Index(p, 0, key) := slim[c0]][Index(p, 1, key) := slim[m + c1]][Index(p, 2, key) := slim[2 * m + c2]];
        CopiedMore(p, before, variables, slim, sys.cols, m, done + (bucket - rest), key);
        TouchedMore(p, bucket - rest, key);
        CellsOf(p, key);
        assert bucket - rest + {key} == bucket - (rest - {key});
        assert done + (bucket - rest) + {key} == done + (bucket - (rest - {key}));
        rest := rest - {key};
      }
      assert bucket - rest == bucket;
    }

    method CopyExtra(slim: seq<GF>, m: nat)
      requires Shaped() && |slim| == 3 * m + p.gamma
      modifies `variables
      ensures Shaped() && variables == old(variables)[..3 * p.size] + slim[3 * m..]
    {
      for j := 0 to p.gamma
        invariant variables == old(variables)[..3 * p.size] + slim[3 * m..3 * m + j] + old(variables)[3 * p.size + j..]
      {
        variables := variables[3 * p.size + j := slim[3 * m + j]];
      }
    }

    /** Copies the solution back to the buckets in use and to the extra variables. */
    method CopySolution(sys: System, slim: seq<GF>, m: nat, ghost rowOf: map<Key, nat>)
      requires Shaped() && IsCore(p.g, tables[0]) && SystemOk(p, sys, rowOf, vals, m) && rowOf.Keys == tables[0]
      requires |slim| == 3 * m + p.gamma
      modifies `variables
      ensures Shaped() && forall k | k in tables[0] :: Copied(p, variables, slim, sys.cols, m, k)
      ensures variables[3 * p.size..] == slim[3 * m..]
      ensures forall i | 0 <= i < 3 * p.size && !Touched(p, i, tables[0]) :: variables[i] == old(variables[i])
    {
      hide SystemOk, IsCore, Cells, Copied, Touched;
      TouchedNone(p);
      for i := 0 to p.size
        invariant Shaped() && forall k | k in Below(i) :: Copied(p, variables, slim, sys.cols, m, k)
        invariant forall c | 0 <= c < 3 * p.size && !Touched(p, c, Below(i)) :: variables[c] == old(variables[c])
      {
        var bucket := Bucket(p.g, tables[0], 0, i);
        CoreBucket(p.g, tables[0], i);
        TouchedJoin(p, Below(i), bucket);
        if |bucket| > 1 {
          CopyBucket(bucket, sys, slim, m, rowOf, Below(i));
        }
      }
      assert Below(p.size) == tables[0];
      ghost var before := variables;
      CopyExtra(slim, m);
      forall k | k in tables[0] ensures Copied(p, variables, slim, sys.cols, m, k) {
        CopiedKept(p, before, variables, slim, sys.cols, m, k);
      }
    }

    /** Gives every bucket of the core and every extra variable its value.  solver stands for the external tool. */
    method GenerateExternalToolValues(solver: Solver) returns (ghost sys: System, ghost rowOf: map<Key, nat>)
      requires Shaped() && IsCore(p.g, tables[0]) && |tables[0]| == hashSize - peelingCounter
      requires forall k | k in tables[0] :: k in vals
      modifies `sign, `variables
      ensures Shaped()
      ensures SystemOk(p, sys, rowOf, vals, |tables[0]|) && rowOf.Keys == tables[0]
      ensures SolvedBy(p, sys, solver, |tables[0]|) ==> SaysRight(p, variables, vals, tables[0])
      ensures forall i | 0 <= i < |sign| :: sign[i] <==> old(sign[i]) || Touched(p, i, tables[0])
      ensures forall i | 0 <= i < 3 * p.size && !Touched(p, i, tables[0]) :: variables[i] == old(variables[i])
    {
      hide SystemOk, IsCore, Cells, Copied, Touched, ValueOf, Solves;
      var matrixSize := hashSize - peelingCounter;
      var s;
      s, rowOf := BuildSystem(matrixSize);
      sys := s;
      var slim := Resize(solver(s.matrix, s.values), 3 * matrixSize + p.gamma);
      CopySolution(s, slim, matrixSize, rowOf);
      if SolvedBy(p, sys, solver, matrixSize) {
        forall k | k in tables[0] ensures ValueOf(p, variables, k) == vals[k] {
          CoreSolved(p, sys, rowOf, vals, matrixSize, variables, slim, k);
        }
      }
    }

    // Back-substitution

    /**
     One key of the peeling vector: random values for its other unset variables, and its own equation
     solved for the first unset one.  Only unset variables of the key are written.
     */
    method UnpeelKey(key: Key, random: (Key, nat) -> GF)
      requires Shaped() && key in vals
      requires HasUnset(p, variables, sign, key)
      modifies `variables
      ensures Shaped() && ValueOf(p, variables, key) == vals[key]
      ensures forall i | 0 <= i < |variables| && variables[i] != old(variables[i]) ::
                i < |sign| && i in {Index(p, 0, key), Index(p, 1, key), Index(p, 2, key)} && Unset(old(variables), sign, i)
      ensures forall t: nat, u: nat | t < u < 3 && UnsetAt(p, old(variables), sign, key, t) && UnsetAt(p, old(variables), sign, key, u) ::
                Index(p, u, key) < |variables| && variables[Index(p, u, key)] == random(key, Index(p, u, key))
      ensures WritesUnset(p, old(variables), variables, sign, key)
      ensures variables == UnpeelStep(p, old(variables), sign, vals[key], key, random)
    {
      hide Xor, DhSum, Index, ValueOf;
      IndexRange(p, key);
      var i0, i1, i2 := Index(p, 0, key), Index(p, 1, key), Index(p, 2, key);
      ghost var x0 := variables;
      var dhBitsVal := DhValue(key);
      if Unset(variables, sign, i0) {
        if Unset(variables, sign, i1) {
          variables := variables[i1 := random(key, i1)];
        }
        if Unset(variables, sign, i2) {
          variables := variables[i2 := random(key, i2)];
        }
        variables := variables[i0 := Xor(Xor(Xor(vals[key], variables[i1]), variables[i2]), dhBitsVal)];
      } else if Unset(variables, sign, i1) {
        if Unset(variables, sign, i2) {
          variables := variables[i2 := random(key, i2)];
        }
        variables := variables[i1 := Xor(Xor(Xor(vals[key], variables[i0]), variables[i2]), dhBitsVal)];
      } else if Unset(variables, sign, i2) {
        variables := variables[i2 := Xor(Xor(Xor(vals[key], variables[i0]), variables[i1]), dhBitsVal)];
      }
      StepSolves(p, x0, sign, vals[key], key, random);
    }

    /** The sum over the extra variables of a key. */
    method DhValue(key: Key) returns (d: GF)
      requires Shaped()
      ensures d == DhSum(p, variables, 3 * p.size, key, p.gamma)
    {
      d := Zero;
      for j := 0 to p.gamma
        invariant d == DhSum(p, variables, 3 * p.size, key, j)
      {
        if p.dh(key, j) {
          d := Xor(d, variables[3 * p.size + j]);
        }
      }
    }

    /** Gives the peeled keys their values, the last peeled first. */
    method Unpeeling(random: (Key, nat) -> GF, ghost order: seq<Key>)
      requires Shaped() && peelingCounter <= |peelingVector| && order == peelingVector[..peelingCounter]
      requires (forall k | k in order :: k in vals) && OwnersInOrder(p.g, tables[0], order)
      requires UnsetOutside(p, variables, sign, tables[0])
      modifies `variables, `peelingCounter
      ensures Shaped() && peelingCounter == 0
      ensures variables == Unpeeled(p, old(variables), sign, vals, order, random)
    {
      hide Owned, OwnersInOrder, Elements, ValueOf, WritesUnset, HasUnset, UnsetOutside, UnpeelStep, Unpeeled;
      ghost var later := tables[0];
      assert order[..|order|] == order;
      while peelingCounter > 0
        invariant Shaped() && peelingCounter <= |order| && peelingVector[..|order|] == order
        invariant OwnersInOrder(p.g, later, order[..peelingCounter]) && UnsetOutside(p, variables, sign, later)
        invariant Unpeeled(p, variables, sign, vals, order[..peelingCounter], random)
               == Unpeeled(p, old(variables), sign, vals, order, random)
        decreases peelingCounter
      {
        ghost var i := peelingCounter - 1;
        peelingCounter := peelingCounter - 1;
        var key := peelingVector[peelingCounter];
        ghost var before := variables;
        assert order[..i + 1][..i] == order[..i] && order[i] == key && key in order;
        UnpeeledLast(p, variables, sign, vals, order, i, random);
        OwnersLast(p.g, later, order[..i + 1]);
        OneUnset(p, key, later, variables, sign);
        UnpeelKey(key, random);
        StepWrites(p, before, variables, sign, later, key);
        later := later + {key};
      }
      assert order[..0] == [];
      UnpeeledNone(p, variables, sign, vals, random);
    }

    // Decoding and the whole encoding

    method DecIndices(key: Key) returns (keyIndices: seq<nat>)
      ensures keyIndices == Dec(p, key)
    {
      keyIndices := [p.g.h(0, key), p.size + p.g.h(1, key), 2 * p.size + p.g.h(2, key)];
      ghost var start := keyIndices;
      for j := 0 to p.gamma
        invariant keyIndices == start + DhIndices(p, key, j)
      {
        if p.dh(key, j) {
          keyIndices := keyIndices + [3 * p.size + j];
        }
      }
    }

    method Decode(key: Key) returns (val: GF)
      requires Fits(p, variables)
      ensures val == ValueOf(p, variables, key)
    {
      hide Xor, DhIndices, ValueOf;
      var indices := DecIndices(key);
      DecInRange(p, key);
      val := Zero;
      for j := 0 to |indices|
        invariant val == XorSum(Gather(variables, indices[..j]))
      {
        assert indices[j] in Dec(p, key);
        assert indices[..j + 1] == indices[..j] + [indices[j]];
        GatherSnoc(variables, indices[..j], indices[j]);
        XorSumSnoc(Gather(variables, indices[..j]), At(variables, indices[j]));
        val := Xor(val, variables[indices[j]]);
      }
      assert indices[..|indices|] == indices;
      SumOverDec(p, variables, key);
    }

    /** The keys ks are in the tables, all different, and no variable has a value. */
    ghost predicate FilledWith(ks: seq<Key>)
      reads this
    {
      keys == ks && |Elements(ks)| == hashSize && Blank() && Shaped() && tables[0] == Elements(ks)
    }

    /** The keys ks have been peeled down to their 2-core, and no variable has a value. */
    ghost predicate PeeledToCore(ks: seq<Key>)
      reads this
    {
      && keys == ks && |Elements(ks)| == hashSize && Blank()
      && PeeledFrom(Elements(ks)) && IsTwoCore(p.g, Elements(ks), tables[0])
      && |tables[0]| == hashSize - peelingCounter
    }

    /** The values of the keys are vs. */
    ghost predicate HasVals(ks: seq<Key>, vs: seq<GF>)
      reads `vals
    {
      |ks| == |vs| && forall j | 0 <= j < |ks| :: ks[j] in vals && vals[ks[j]] == vs[j]
    }

    /** The dictionary says vs of the keys ks. */
    ghost predicate Holds(ks: seq<Key>, vs: seq<GF>)
      reads `variables
    {
      |ks| == |vs| && Fits(p, variables) && forall j | 0 <= j < |ks| :: ValueOf(p, variables, ks[j]) == vs[j]
    }

    /** What an encoding has done: the system of the core, the variables copied from its solution, and the unpeeling. */
    ghost predicate RunOf(run: Run, random: (Key, nat) -> GF)
      reads this
    {
      && Shaped() && Peeled(p.g, Elements(keys), tables[0], run.order) && (forall k | k in run.order :: k in vals)
      && SystemOk(p, run.sys, run.rowOf, vals, |tables[0]|) && run.rowOf.Keys == tables[0]
      && Fits(p, run.start) && UnsetOutside(p, run.start, sign, tables[0]) && SetWithin(p, run.start, sign, tables[0])
      && variables == Unpeeled(p, run.start, sign, vals, run.order, random)
    }

    /** The solver solved the system, and no step of the unpeeling wrote over a zero in use. */
    ghost predicate Sound(run: Run, solver: Solver, random: (Key, nat) -> GF)
      requires RunOf(run, random)
      reads this
    {
      && SolvedBy(p, run.sys, solver, |tables[0]|)
      && Clean(p, run.start, sign, vals, run.order, tables[0], random)
    }

    /** For each peeled key, the final values of its variables that were unset after its own step cancel. */
    ghost predicate NothingLost(run: Run, random: (Key, nat) -> GF)
      requires RunOf(run, random)
      reads this
    {
      OpenCancel(p, run.start, sign, vals, run.order, random, variables)
    }

    /** generateExternalToolValues and unpeeling, which always follow each other. */
    method SolveAndUnpeel(solver: Solver, random: (Key, nat) -> GF) returns (ghost run: Run)
      requires PeeledToCore(keys)
      modifies `peelingCounter, `variables, `sign
      ensures RunOf(run, random) && run.order == old(peelingVector[..peelingCounter])
      ensures Sound(run, solver, random) ==> SaysRight(p, variables, vals, Elements(keys))
      ensures SolvedBy(p, run.sys, solver, |tables[0]|) ==>
                && SaysRight(p, variables, vals, tables[0])
                && (SaysRight(p, variables, vals, Elements(keys)) <==> NothingLost(run, random))
    {
      hide OpenCancel, Touched, Peeled, HoldsCores, IsCore, SystemOk, SolvedBy, OwnersInOrder, Clean, SaysRight, Unset, Unpeeled, Elements;
      ghost var all, x := Elements(keys), variables;
      CoreWithin(p.g, all, tables[0]);
      KeysKnown(keys, vals);
      ghost var order := peelingVector[..peelingCounter];
      PeeledUnion(p.g, all, tables[0], order);
      OrderKnown(order, all, vals);
      ghost var sys, rowOf := GenerateExternalToolValues(solver);
      run := Run(sys, rowOf, variables, order);
      UnsetNow(p, x, variables, sign, tables[0]);
      UnpeelingSolves(p, variables, sign, vals, order, tables[0], random);
      if SolvedBy(p, sys, solver, |tables[0]|) {
        RightExactlyWhen(p, variables, sign, vals, order, tables[0], random);
      }
      Unpeeling(random, order);
    }

    /** Nothing has been encoded with this object yet. */
    ghost predicate Unused()
      reads this
    {
      Shaped() && tables[0] == {} && Blank()
    }

    /**
     The first encoding of distinct keys.  It reports whether the 2-core is small enough, and goes on in
     either case.  If the solver solved the system, every core key then decodes to its value; all keys do if no
     zero in use was overwritten while unpeeling, and exactly if the variables that were left unset cancel.
     */
    method Encode(solver: Solver, random: (Key, nat) -> GF) returns (succeeded: bool, ghost run: Run)
      requires Unused() && |Elements(keys)| == hashSize
      modifies `tables, `peelingVector, `peelingCounter, `variables, `sign
      ensures Shaped() && IsTwoCore(p.g, Elements(keys), tables[0])
      ensures succeeded <==> |tables[0]| <= v
      ensures RunOf(run, random) && StartsFirst(p.g, Elements(keys), run.order)
      ensures Sound(run, solver, random) ==> SaysRight(p, variables, vals, Elements(keys))
      ensures SolvedBy(p, run.sys, solver, |tables[0]|) ==>
                && SaysRight(p, variables, vals, tables[0])
                && (SaysRight(p, variables, vals, Elements(keys)) <==> NothingLost(run, random))
    {
      hide Touched, ValueOf, Peeled, HoldsCores, IsCore, IsTwoCore, SystemOk, SolvedBy, OpenCancel, Unpeeled, SaysRight, Clean, StartsFirst;
      FillTables();
      assert tables[0] == Elements(keys);
      succeeded := RunPeeling(Elements(keys));
      run := SolveAndUnpeel(solver, random);
    }

    /** A run that writes no zero while unpeeling overwrites none; without a core nothing must be solved. */
    lemma ZeroFreeIsSound(run: Run, solver: Solver, random: (Key, nat) -> GF)
      requires RunOf(run, random) && SolvedBy(p, run.sys, solver, |tables[0]|)
      requires ZeroFree(p, run.start, sign, vals, run.order, random)
      ensures Sound(run, solver, random)
    {
      hide Owned, OwnersInOrder, Clean, ZeroFree, SaysRight, UnsetOutside, SetWithin, SystemOk, SolvedBy, Unpeeled;
      PeeledUnion(p.g, Elements(keys), tables[0], run.order);
      KeysKnown(keys, vals);
      OrderKnown(run.order, Elements(keys), vals);
      UnpeelingSolves(p, run.start, sign, vals, run.order, tables[0], random);
    }

    /** If the values drawn are not zero and no key has its value by chance after its draws, a solved system makes a run sound. */
    lemma LuckyIsSound(run: Run, solver: Solver, random: (Key, nat) -> GF)
      requires RunOf(run, random) && SolvedBy(p, run.sys, solver, |tables[0]|)
      requires Lucky(p, run.start, sign, vals, run.order, random)
      ensures Sound(run, solver, random)
    {
      hide Lucky, Owned, OwnersInOrder, Clean, ZeroFree, SaysRight, UnsetOutside, SetWithin, SystemOk, SolvedBy, Unpeeled;
      PeeledUnion(p.g, Elements(keys), tables[0], run.order);
      ZeroFreeWhen(p, run.start, sign, vals, run.order, tables[0], random);
      ZeroFreeIsSound(run, solver, random);
    }

    lemma EmptyCoreIsSolved(run: Run, solver: Solver, random: (Key, nat) -> GF)
      requires RunOf(run, random) && tables[0] == {}
      ensures SolvedBy(p, run.sys, solver, |tables[0]|)
    {
      hide SystemOk, Unpeeled;
      NoEquations(p, run.sys, run.rowOf, vals, 0, Resize(solver(run.sys.matrix, run.sys.values), 3 * 0 + p.gamma));
    }

    method GenerateRandomEncoding(random: nat -> GF)
      modifies `variables
      ensures |variables| == |old(variables)| && forall i | 0 <= i < |variables| :: variables[i] == random(i)
    {
      for i := 0 to |variables|
        invariant |variables| == |old(variables)| && forall j | 0 <= j < i :: variables[j] == random(j)
      {
        variables := variables[i := random(i)];
      }
    }
  }

  lemma CoreWithin(g: Graph, all: set<Key>, core: set<Key>)
    requires IsTwoCore(g, all, core)
    ensures core <= all && IsCore(g, core)
  {
  }

  lemma DecInRange(p: Params, key: Key)
    requires p.Ok()
    ensures forall i | i in Dec(p, key) :: i < 3 * p.size + p.gamma
  {
    hide Dec;
    DecAre(p, key);
  }

  lemma PeeledUnion(g: Graph, all: set<Key>, rest: set<Key>, order: seq<Key>)
    requires Peeled(g, all, rest, order)
    ensures all == rest + Elements(order) && rest <= all && OwnersInOrder(g, rest, order)
  {
  }

  lemma OrderKnown(order: seq<Key>, all: set<Key>, vals: map<Key, GF>)
    requires Elements(order) <= all && forall k | k in all :: k in vals
    ensures forall k | k in order :: k in vals
  {
    assert forall k | k in order :: k in Elements(order);
  }

  lemma KeysKnown(keys: seq<Key>, vals: map<Key, GF>)
    requires forall k | k in keys :: k in vals
    ensures forall k | k in Elements(keys) :: k in vals
  {
  }

  /** After the solution has been copied, exactly the variables of the core are in use. */
  lemma UnsetNow(p: Params, x: seq<GF>, y: seq<GF>, sign: seq<bool>, core: set<Key>)
    requires |x| == |y| >= |sign| == 3 * p.size && forall i | 0 <= i < |x| :: x[i] == Zero
    requires forall i | 0 <= i < |sign| :: sign[i] <==> Touched(p, i, core)
    requires forall i | 0 <= i < 3 * p.size && !Touched(p, i, core) :: y[i] == x[i]
    ensures UnsetOutside(p, y, sign, core) && SetWithin(p, y, sign, core)
  {
    hide Touched;
  }

  /** The coefficients of the equation of a key. */
  method BuildRow(p: Params, key: Key, cols: seq<map<nat, nat>>, m: nat) returns (row: seq<bool>)
    requires |cols| == 3 && forall t | 0 <= t < 3 :: p.g.h(t, key) in cols[t] && cols[t][p.g.h(t, key)] < m
    ensures IsRow(p, row, key, cols, m)
  {
    var c0, c1, c2 := cols[0][p.g.h(0, key)], cols[1][p.g.h(1, key)], cols[2][p.g.h(2, key)];
    row := seq(3 * m + p.gamma, i => false);
    row := row[c0 := true][m + c1 := true][2 * m + c2 := true];
    for j := 0 to p.gamma
      invariant |row| == 3 * m + p.gamma
      invariant forall c | 0 <= c < 3 * m :: row[c] <==> c == c0 || c == m + c1 || c == 2 * m + c2
      invariant forall i | 0 <= i < j :: row[3 * m + i] <==> p.dh(key, i)
    {
      row := row[3 * m + j := p.dh(key, j)];
    }
    NewRow(p, row, key, cols, m, c0, c1, c2);
  }

  lemma EmptySystem(p: Params, vals: map<Key, GF>, m: nat)
    ensures SystemOk(p, System([], [], [map[], map[], map[]], [0, 0, 0]), map[], vals, m)
  {
  }

  /** A bucket of the core is empty or holds several keys. */
  lemma CoreBucket(g: Graph, s: set<Key>, i: nat)
    requires IsCore(g, s) && g.tables > 0
    ensures |Bucket(g, s, 0, i)| > 1 || Bucket(g, s, 0, i) == {}
    ensures (set k | k in s && g.h(0, k) < i + 1) == (set k | k in s && g.h(0, k) < i) + Bucket(g, s, 0, i)
  {
    var b := Bucket(g, s, 0, i);
    if |b| == 1 {
      var k :| k in b;
      BucketOne(g, s, 0, i, k);
    }
  }

  lemma RowsLeft(rowOf: map<Key, nat>, core: set<Key>, key: Key)
    requires rowOf.Keys <= core && key in core && key !in rowOf
    ensures |rowOf| < |core|
  {
    assert |rowOf.Keys + {key}| == |rowOf.Keys| + 1;
    SubsetSize(rowOf.Keys + {key}, core);
  }

  lemma SubsetSize<T>(a: set<T>, b: set<T>)
    requires a <= b
    ensures |a| <= |b|
  {
    assert b == a + (b - a);
  }

  /** A loop over a set: the elements done and those that rest. */
  ghost predicate Split<T>(s: set<T>, done: set<T>, rest: set<T>) {
    s == done + rest && done !! rest
  }

  lemma NoneMoved<T>(s: set<T>)
    ensures Split(s, {}, s)
  {
  }

  lemma AllMoved<T>(s: set<T>, done: set<T>, rest: set<T>)
    requires Split(s, done, rest) && rest == {}
    ensures done == s
  {
  }

  lemma MoveKey<T>(s: set<T>, done: set<T>, rest: set<T>, key: T)
    requires Split(s, done, rest) && key in rest
    ensures Split(s, done + {key}, rest - {key}) && rest - {key} <= s
  {
  }

  lemma NotYet<T>(s: set<T>, done: set<T>, rest: set<T>, key: T, others: set<T>)
    requires Split(s, done, rest) && key in rest && s !! others
    ensures key !in others + done && key in s && others + done <= others + s
  {
  }

  lemma KeyAdded(rowOf: map<Key, nat>, others: set<Key>, done: set<Key>, key: Key, row: nat)
    requires rowOf.Keys == others + done
    ensures rowOf[key := row].Keys == others + (done + {key})
  {
  }

  ghost predicate SignsAre(p: Params, sign0: seq<bool>, sign: seq<bool>, s: set<Key>) {
    |sign0| == |sign| && forall c | 0 <= c < |sign| :: sign[c] <==> sign0[c] || Touched(p, c, s)
  }

  lemma SignsStart(p: Params, sign: seq<bool>)
    ensures SignsAre(p, sign, sign, {})
  {
    TouchedNone(p);
  }

  lemma SignsMore(p: Params, sign0: seq<bool>, sign: seq<bool>, sign': seq<bool>, s: set<Key>, key: Key)
    requires SignsAre(p, sign0, sign, s) && |sign'| == |sign|
    requires forall i | 0 <= i < |sign'| :: sign'[i] <==> sign[i] || i in Cells(p, key)
    ensures SignsAre(p, sign0, sign', s + {key})
  {
    hide Cells, Touched;
    TouchedMore(p, s, key);
  }

  lemma SignsEnd(p: Params, sign0: seq<bool>, sign: seq<bool>, s: set<Key>, t: set<Key>)
    requires SignsAre(p, sign0, sign, s) && s == t
    ensures forall c | 0 <= c < |sign| :: sign[c] <==> sign0[c] || Touched(p, c, t)
    ensures |sign0| == |sign|
  {
  }

  lemma NoEquations(p: Params, sys: System, rowOf: map<Key, nat>, vals: map<Key, GF>, m: nat, x: seq<GF>)
    requires SystemOk(p, sys, rowOf, vals, m) && rowOf.Keys == {}
    ensures Solves(sys.matrix, sys.values, x)
  {
    assert |rowOf| == |rowOf.Keys|;
  }

  /** The solver fills a vector of a fixed length. */
  function Resize(x: seq<GF>, n: nat): (r: seq<GF>)
    ensures |r| == n
  {
    seq(n, i requires 0 <= i < n => At(x, i))
  }

  lemma CellsOf(p: Params, key: Key)
    ensures Index(p, 0, key) in Cells(p, key) && Index(p, 1, key) in Cells(p, key) && Index(p, 2, key) in Cells(p, key)
  {
  }

  lemma HasColumns(p: Params, sys: System, rowOf: map<Key, nat>, vals: map<Key, GF>, m: nat, key: Key)
    requires SystemOk(p, sys, rowOf, vals, m) && key in rowOf
    ensures |sys.cols| == 3 && forall t | 0 <= t < 3 :: p.g.h(t, key) in sys.cols[t] && sys.cols[t][p.g.h(t, key)] < m
  {
    assert RowOk(p, sys, rowOf[key], key, vals, m);
  }

  /** Copying the buckets of one more key keeps those copied before: shared buckets get the same value. */
  lemma CopiedMore(p: Params, x: seq<GF>, y: seq<GF>, slim: seq<GF>, cols: seq<map<nat, nat>>, m: nat, done: set<Key>, key: Key)
    requires Fits(p, x) && Fits(p, y) && |slim| == 3 * m + p.gamma && |cols| == 3
    requires forall t | 0 <= t < 3 :: p.g.h(t, key) in cols[t] && cols[t][p.g.h(t, key)] < m
    requires forall k | k in done :: Copied(p, x, slim, cols, m, k)
    requires Index(p, 0, key) < Index(p, 1, key) < Index(p, 2, key) < 3 * p.size
    requires y == x[Index(p, 0, key) := slim[cols[0][p.g.h(0, key)]]]
                   [Index(p, 1, key) := slim[m + cols[1][p.g.h(1, key)]]]
                   [Index(p, 2, key) := slim[2 * m + cols[2][p.g.h(2, key)]]]
    ensures forall k | k in done + {key} :: Copied(p, y, slim, cols, m, k)
  {
    forall k | k in done + {key} ensures Copied(p, y, slim, cols, m, k) {
      forall t: nat | t < 3
        ensures && p.g.h(t, k) in cols[t] && cols[t][p.g.h(t, k)] < m
                && Index(p, t, k) < 3 * p.size && t * m + cols[t][p.g.h(t, k)] < 3 * m
                && y[Index(p, t, k)] == slim[t * m + cols[t][p.g.h(t, k)]]
      {
        IndexRange(p, k);
        IndexInjective(p, t, k, 0, key);
        IndexInjective(p, t, k, 1, key);
        IndexInjective(p, t, k, 2, key);
        if k in done {
          assert Copied(p, x, slim, cols, m, k);
        }
        ThreeTables(t, m, cols, p, k);
      }
    }
  }

  lemma ThreeTables(t: nat, m: nat, cols: seq<map<nat, nat>>, p: Params, k: Key)
    requires t < 3 && p.Ok()
    ensures t == 0 || t == 1 || t == 2
    ensures Index(p, t, k) < 3 * p.size
  {
    IndexRange(p, k);
  }

  lemma CopiedKept(p: Params, x: seq<GF>, y: seq<GF>, slim: seq<GF>, cols: seq<map<nat, nat>>, m: nat, k: Key)
    requires Copied(p, x, slim, cols, m, k) && Fits(p, y) && y[..3 * p.size] == x[..3 * p.size]
    ensures Copied(p, y, slim, cols, m, k)
  {
  }

  lemma SystemBounded(p: Params, sys: System, rowOf: map<Key, nat>, vals: map<Key, GF>, m: nat)
    requires SystemOk(p, sys, rowOf, vals, m)
    ensures Bounded(sys) && |sys.cols| == 3 == |sys.counters| && |sys.matrix| == |sys.values| == |rowOf|
    ensures forall t | 0 <= t < 3 :: sys.counters[t] <= |rowOf|
  {
  }

  lemma ColumnsFit(p: Params, sys: System, key: Key, m: nat)
    requires Bounded(sys) && forall t | 0 <= t < 3 :: sys.counters[t] <= m && p.g.h(t, key) in sys.cols[t]
    ensures |sys.cols| == 3 && forall t | 0 <= t < 3 :: sys.cols[t][p.g.h(t, key)] < m
  {
  }

  lemma NewRow(p: Params, row: seq<bool>, key: Key, cols: seq<map<nat, nat>>, m: nat, c0: nat, c1: nat, c2: nat)
    requires |cols| == 3 && |row| == 3 * m + p.gamma && c0 < m && c1 < m && c2 < m
    requires forall t | 0 <= t < 3 :: p.g.h(t, key) in cols[t]
    requires c0 == cols[0][p.g.h(0, key)] && c1 == cols[1][p.g.h(1, key)] && c2 == cols[2][p.g.h(2, key)]
    requires forall c | 0 <= c < 3 * m :: row[c] <==> c == c0 || c == m + c1 || c == 2 * m + c2
    requires forall j | 0 <= j < p.gamma :: row[3 * m + j] <==> p.dh(key, j)
    ensures IsRow(p, row, key, cols, m)
  {
    forall t, c | 0 <= t < 3 && t * m <= c < t * m + m ensures row[c] <==> c == t * m + cols[t][p.g.h(t, key)] {
      if t == 0 {
      } else if t == 1 {
      } else {
        assert t == 2;
      }
    }
  }

  lemma RowAdded(p: Params, sys0: System, sys: System, rowOf: map<Key, nat>, key: Key, vals: map<Key, GF>, m: nat)
    requires SystemOk(p, sys0, rowOf, vals, m) && key !in rowOf && |rowOf| < m && key in vals
    requires Bounded(sys) && Extends(sys0.cols, sys.cols)
    requires |sys.matrix| == |sys0.matrix| + 1 && sys.matrix[..|sys0.matrix|] == sys0.matrix
    requires sys.values == sys0.values + [vals[key]]
    requires forall t | 0 <= t < 3 :: sys.counters[t] <= sys0.counters[t] + 1
    requires IsRow(p, sys.matrix[|sys0.matrix|], key, sys.cols, m)
    ensures SystemOk(p, sys, rowOf[key := |sys0.matrix|], vals, m)
  {
    hide IsRow, Bounded, Extends;
    var rowOf' := rowOf[key := |sys0.matrix|];
    assert rowOf'.Keys == rowOf.Keys + {key} && |rowOf'.Keys| == |rowOf.Keys| + 1;
    RowLength(p, sys.matrix[|sys0.matrix|], key, sys.cols, m);
    assert forall r | 0 <= r < |sys0.matrix| :: sys.matrix[r] == sys0.matrix[r];
    forall k | k in rowOf' ensures RowOk(p, sys, rowOf'[k], k, vals, m) {
      if k != key {
        assert RowOk(p, sys0, rowOf[k], k, vals, m);
        SameRow(p, sys.matrix[rowOf[k]], k, sys0.cols, sys.cols, m);
      }
    }
  }

  lemma RowLength(p: Params, row: seq<bool>, k: Key, cols: seq<map<nat, nat>>, m: nat)
    requires IsRow(p, row, k, cols, m)
    ensures |row| == 3 * m + p.gamma
  {
  }

  lemma SameRow(p: Params, row: seq<bool>, k: Key, cols: seq<map<nat, nat>>, cols': seq<map<nat, nat>>, m: nat)
    requires IsRow(p, row, k, cols, m) && Extends(cols, cols')
    ensures IsRow(p, row, k, cols', m)
  {
  }
}
