/**
 The two-level dictionary: keys are spread over q bins with a dictionary each, and one more dictionary,
 the centre, repairs the one bin whose 2-core may be too large.
 */
module Star {
  import opened Powers
  import opened XorGroup
  import opened Peeling
  import opened DictionaryTables
  import opened BackSubstitution
  import opened Dictionary

  /** -1: none of them; i: only i; -2: more than one. */
  ghost predicate IsFailureIndex(f: int, failed: set<nat>) {
    (f == -1 && failed == {}) || (f >= 0 && failed == {f}) || (f == -2 && |failed| >= 2)
  }

  lemma OneMoreFailure(f: int, failed: set<nat>, i: nat)
    requires IsFailureIndex(f, failed) && i !in failed
    ensures f >= -2 && IsFailureIndex(if f == -1 then i else -2, failed + {i})
  {
    if f >= 0 {
      assert |{f, i}| == 2;
    }
  }

  /** Merging the code of one thread into the code of those before it. */
  function Merge(f: int, g: int): int {
    if g == -1 then f else if g > -1 then (if f == -1 then g else -2) else -2
  }

  lemma FailureCount(f: int, failed: set<nat>)
    requires IsFailureIndex(f, failed)
    ensures -2 <= f && (f == -2 <==> |failed| > 1) && (f >= 0 ==> f in failed)
  {
  }

  lemma MergeFailures(f: int, failed: set<nat>, g: int, more: set<nat>)
    requires IsFailureIndex(f, failed) && IsFailureIndex(g, more) && failed !! more
    ensures IsFailureIndex(Merge(f, g), failed + more)
  {
    if g == -1 {
      assert failed + more == failed;
    } else if g > -1 {
      OneMoreFailure(f, failed, g);
    } else {
      SubsetSize(more, failed + more);
    }
  }

  /** Thread t works on the bins from its start up to its end. */
  function ThreadEnd(t: nat, size: nat, q: nat): nat {
    if (t + 1) * size <= q then (t + 1) * size else q
  }

  function PerThread(q: nat, threads: nat): nat
    requires threads > 0
  {
    if q <= threads then 1 else (q + threads - 1) / threads
  }

  /** The threads cover all bins: each starts where the one before it ends, or has nothing to do. */
  lemma ThreadsPartition(q: nat, threads: nat)
    requires threads > 0
    ensures var n, size := if q <= threads then q else threads, PerThread(q, threads);
            && q <= n * size
            && forall t: nat | t < n :: (t + 1) * size == t * size + size
  {
    var n, size := if q <= threads then q else threads, PerThread(q, threads);
    if q > threads {
      var r := (q + threads - 1) % threads;
      assert q + threads - 1 == threads * size + r;
    }
    forall t: nat | t < n ensures (t + 1) * size == t * size + size {
      NextThread(t, size);
    }
  }

  /** Every bin belongs to exactly one thread. */
  lemma EachBinOnce(q: nat, threads: nat, i: nat) returns (t: nat)
    requires threads > 0 && i < q
    ensures var n, size := if q <= threads then q else threads, PerThread(q, threads);
            t < n && forall u: nat | u < n :: u * size <= i < ThreadEnd(u, size, q) <==> u == t
  {
    hide PerThread, ThreadEnd;
    ThreadsPartition(q, threads);
    var n, size := if q <= threads then q else threads, PerThread(q, threads);
    t := ThreadOf(q, n, size, i);
    forall u: nat | u < n ensures u * size <= i < ThreadEnd(u, size, q) <==> u == t {
      InThread(q, size, i, u);
    }
  }

  lemma ThreadOf(q: nat, n: nat, size: nat, i: nat) returns (t: nat)
    requires i < q <= n * size
    ensures size > 0 && t == i / size < n
  {
    assert size * n == n * size && (size == 0 ==> n * size == 0);
    t := i / size;
    if t >= n {
      MulMonotone(size, n, t);
    }
  }

  lemma InThread(q: nat, size: nat, i: nat, u: nat)
    requires size > 0 && i < q
    ensures u * size <= i < ThreadEnd(u, size, q) <==> u == i / size
  {
    NextThread(u, size);
    if u * size <= i < u * size + size {
      assert size * u == u * size;
      DivModUnique(i, size, u, i - u * size);
    }
    assert i == size * (i / size) + i % size;
    assert size * (i / size) == (i / size) * size;
  }

  lemma NextThread(t: nat, size: nat)
    ensures (t + 1) * size == t * size + size
  {
  }

  /** The 2-core of the keys is larger than the dictionary allows. */
  ghost predicate TooDense(b: OBD3Tables, ks: seq<Key>) {
    exists core :: IsTwoCore(b.p.g, Elements(ks), core) && |core| > b.v
  }

  lemma DenseCore(b: OBD3Tables, ks: seq<Key>, core: set<Key>)
    requires IsTwoCore(b.p.g, Elements(ks), core)
    ensures TooDense(b, ks) <==> |core| > b.v
  {
    hide IsTwoCore;
    if TooDense(b, ks) {
      var c :| IsTwoCore(b.p.g, Elements(ks), c) && |c| > b.v;
      TwoCoreUnique(b.p.g, Elements(ks), c, core);
    }
  }

  /** A row keeps its first entries, and the others come from dummies. */
  function FilledUp<T>(row: seq<T>, from: nat, dummy: nat -> T): (r: seq<T>)
    requires from <= |row|
    ensures |r| == |row| && r[..from] == row[..from] && forall j | from <= j < |row| :: r[j] == dummy(j)
  {
    row[..from] + seq(|row| - from, j requires 0 <= j => dummy(from + j))
  }

  /** How many of the keys a hash function puts into bin i of q. */
  ghost function Load(h: Key -> nat, q: nat, keys: seq<Key>, i: nat): nat
    requires q > 0
  {
    if keys == [] then 0 else Load(h, q, keys[..|keys| - 1], i) + if h(keys[|keys| - 1]) % q == i then 1 else 0
  }

  class StarDictionary {
    const q: nat
    const numItemsForBin: nat
    const hashForBins: Key -> nat
    const bins: seq<OBD3Tables>
    ghost const Repr: set<OBD3Tables>
    var numThreads: nat
    var keysForBins: seq<seq<Key>>
    var valsForBins: seq<seq<GF>>

    ghost predicate BinsOk() {
      && q > 0 && |bins| == q + 1
      && (forall i, j | 0 <= i < j <= q :: bins[i] != bins[j]) && Repr == Range(bins, 0, q + 1)
      && (forall i | 0 <= i <= q :: bins[i].hashSize == numItemsForBin && bins[i].p.Ok())
    }

    ghost predicate Built()
      reads this
    {
      && BinsOk() && numThreads > 0 && |keysForBins| == |valsForBins| == q
      && (forall i | 0 <= i < q :: |keysForBins[i]| == |valsForBins[i]| == numItemsForBin)
    }

    /** Every bin is filled with its keys and nothing has been encoded yet. */
    ghost predicate Filled()
      reads this, bins
    {
      Built() && bins[q].Blank() && FilledRange(bins, keysForBins, 0, q)
    }

    /** All bins, and the centre behind them, are new. */
    constructor (q: nat, numItemsForBin: nat, numThreads: nat, p: Params, v: nat, hashForBins: Key -> nat)
      requires q > 0 && numThreads > 0 && p.Ok()
      ensures BinsOk() && this.q == q && this.numItemsForBin == numItemsForBin && this.hashForBins == hashForBins
      ensures this.numThreads == numThreads && fresh(Repr)
      ensures forall i | 0 <= i <= q :: bins[i].Blank() && bins[i].p == p && bins[i].v == v
    {
      hide Range;
      var made: seq<OBD3Tables> := [];
      for i := 0 to q + 1
        invariant |made| == i && forall j | 0 <= j < i :: fresh(made[j])
        invariant forall j, k | 0 <= j < k < i :: made[j] != made[k]
        invariant forall j | 0 <= j < i :: made[j].hashSize == numItemsForBin && made[j].p == p && made[j].v == v && made[j].Blank()
      {
        var bin := new OBD3Tables(p, numItemsForBin, v);
        made := made + [bin];
      }
      this.q, this.numItemsForBin, this.numThreads, this.hashForBins := q, numItemsForBin, numThreads, hashForBins;
      bins, keysForBins, valsForBins := made, [], [];
      Repr := Range(made, 0, q + 1);
      new;
      RangeIn(bins, 0, q + 1);
    }

    /** What the bin and the centre together say about a key. */
    ghost function StarValue(i: nat, key: Key): GF
      requires i < q < |bins| && Fits(bins[i].p, bins[i].variables) && Fits(bins[q].p, bins[q].variables)
      reads this, bins
    {
      Xor(ValueOf(bins[i].p, bins[i].variables, key), ValueOf(bins[q].p, bins[q].variables, key))
    }

    /** The bin of a key. */
    function BinOf(key: Key): nat
      requires q > 0
    {
      hashForBins(key) % q
    }

    ghost function Homes(keys: seq<Key>): seq<nat>
      requires q > 0
    {
      seq(|keys|, t requires 0 <= t < |keys| => BinOf(keys[t]))
    }

    ghost predicate Sized()
      reads this
    {
      |keysForBins| == |valsForBins| == q && forall i | 0 <= i < q :: |keysForBins[i]| == |valsForBins[i]| == numItemsForBin
    }

    /** Spreads the keys over their bins, which are large enough, and fills the rest with random keys and values. */
    method SetKeysAndVals(keys: seq<Key>, values: seq<GF>, dummyKey: (nat, nat) -> Key, dummyVal: (nat, nat) -> GF)
      requires BinsOk() && numThreads > 0 && |keys| == |values|
      requires forall i | 0 <= i < q :: Load(hashForBins, q, keys, i) <= numItemsForBin
      modifies `keysForBins, `valsForBins, Range(bins, 0, q)`keys, Range(bins, 0, q)`vals
      ensures Built()
      ensures forall t | 0 <= t < |keys| :: Placed(keysForBins, valsForBins, BinOf(keys[t]), keys[t], values[t])
      ensures forall i, j | 0 <= i < q && Load(hashForBins, q, keys, i) <= j < numItemsForBin ::
                keysForBins[i][j] == dummyKey(i, j) && valsForBins[i][j] == dummyVal(i, j)
      ensures forall i | 0 <= i < q :: bins[i].keys == keysForBins[i] && bins[i].vals.Keys == Elements(keysForBins[i])
    {
      hide Elements, Range, Load, Spotted;
      ghost var spot;
      var used;
      spot, used := Distribute(keys, values);
      RangesApart(bins, 0, 0, q);
      for i := 0 to q
        invariant Sized() && |used| == q && Spotted(keysForBins, valsForBins, Homes(keys), keys, values, spot, used, numItemsForBin)
        invariant forall u | 0 <= u < i :: bins[u].keys == keysForBins[u] && bins[u].vals.Keys == Elements(keysForBins[u])
        invariant forall u, j | 0 <= u < i && used[u] <= j < numItemsForBin ::
                    keysForBins[u][j] == dummyKey(u, j) && valsForBins[u][j] == dummyVal(u, j)
      {
        RangeApart(bins, 0, i, q);
        RangeOne(bins, i);
        FillBin(i, keys, values, spot, used, dummyKey, dummyVal);
      }
      forall t | 0 <= t < |keys| ensures Placed(keysForBins, valsForBins, BinOf(keys[t]), keys[t], values[t]) {
        SpotOf(keysForBins, valsForBins, Homes(keys), keys, values, spot, used, t, numItemsForBin);
      }
    }

    method Distribute(keys: seq<Key>, values: seq<GF>) returns (ghost spot: seq<nat>, used: seq<nat>)
      requires q > 0 && |keys| == |values| && forall i | 0 <= i < q :: Load(hashForBins, q, keys, i) <= numItemsForBin
      modifies `keysForBins, `valsForBins
      ensures Spotted(keysForBins, valsForBins, Homes(keys), keys, values, spot, used, numItemsForBin) && |spot| == |keys| && Sized() && |used| == q
      ensures forall i | 0 <= i < q :: used[i] == Load(hashForBins, q, keys, i)
    {
      hide Load, Spotted;
      keysForBins := seq(q, i => seq(numItemsForBin, j => 0));
      valsForBins := seq(q, i => seq(numItemsForBin, j => Zero));
      used, spot := seq(q, i => 0), [];
      LoadStep(keys, 0);
      NothingSpotted(keysForBins, valsForBins, Homes(keys), keys, values, used, numItemsForBin);
      for t := 0 to |keys|
        invariant Sized() && |used| == q && |spot| == t && Spotted(keysForBins, valsForBins, Homes(keys), keys, values, spot, used, numItemsForBin)
        invariant forall i | 0 <= i < q :: used[i] == Load(hashForBins, q, keys[..t], i)
      {
        LoadStep(keys, t);
        LoadGrows(keys, t + 1, BinOf(keys[t]));
        var index := BinOf(keys[t]);
        var place := used[index];
        SpotMore(keysForBins, valsForBins, Homes(keys), keys, values, spot, used, t, numItemsForBin);
        keysForBins := keysForBins[index := keysForBins[index][place := keys[t]]];
        valsForBins := valsForBins[index := valsForBins[index][place := values[t]]];
        used, spot := used[index := place + 1], spot + [place];
      }
      assert keys[..|keys|] == keys;
    }

    method FillBin(i: nat, keys: seq<Key>, values: seq<GF>, ghost spot: seq<nat>, used: seq<nat>,
                   dummyKey: (nat, nat) -> Key, dummyVal: (nat, nat) -> GF)
      requires BinsOk() && i < q == |used| && Sized() && |keys| == |values| && Spotted(keysForBins, valsForBins, Homes(keys), keys, values, spot, used, numItemsForBin)
      modifies `keysForBins, `valsForBins, Range(bins, i, i + 1)`keys, Range(bins, i, i + 1)`vals
      ensures Spotted(keysForBins, valsForBins, Homes(keys), keys, values, spot, used, numItemsForBin) && Sized()
      ensures bins[i].keys == keysForBins[i] && bins[i].vals.Keys == Elements(keysForBins[i])
      ensures forall u | 0 <= u < q && u != i ::
                keysForBins[u] == old(keysForBins)[u] && valsForBins[u] == old(valsForBins)[u]
      ensures forall j | used[i] <= j < numItemsForBin ::
                keysForBins[i][j] == dummyKey(i, j) && valsForBins[i][j] == dummyVal(i, j)
    {
      hide Spotted, Homes, Elements, FilledUp;
      SpottedSizes(keysForBins, valsForBins, Homes(keys), keys, values, spot, used, numItemsForBin);
      var ks := FilledUp(keysForBins[i], used[i], j => dummyKey(i, j));
      var vs := FilledUp(valsForBins[i], used[i], j => dummyVal(i, j));
      SpotsKept(keysForBins, valsForBins, Homes(keys), keys, values, spot, used, numItemsForBin, i, ks, vs);
      keysForBins, valsForBins := keysForBins[i := ks], valsForBins[i := vs];
      bins[i].SetKeysAndVals(ks, vs);
    }

    lemma LoadStep(keys: seq<Key>, t: nat)
      requires q > 0 && t <= |keys|
      ensures forall i | 0 <= i < q :: Load(hashForBins, q, keys[..0], i) == 0
      ensures t < |keys| ==> forall i | 0 <= i < q ::
                Load(hashForBins, q, keys[..t + 1], i) == Load(hashForBins, q, keys[..t], i) + if BinOf(keys[t]) == i then 1 else 0
    {
      if t < |keys| {
        assert keys[..t + 1][..t] == keys[..t];
      }
    }

    lemma {:induction false} LoadGrows(keys: seq<Key>, t: nat, i: nat)
      requires q > 0 && i < q && t <= |keys|
      ensures Load(hashForBins, q, keys[..t], i) <= Load(hashForBins, q, keys, i)
      decreases |keys| - t
    {
      if t < |keys| {
        LoadStep(keys, t);
        LoadGrows(keys, t + 1, i);
      } else {
        assert keys[..t] == keys;
      }
    }

    /** Fills the tables of every bin with its keys, which are all different. */
    method Init()
      requires Built() && forall i | 0 <= i <= q :: bins[i].Blank()
      requires forall i | 0 <= i < q :: |Elements(keysForBins[i])| == numItemsForBin && bins[i].keys == keysForBins[i]
      requires forall i | 0 <= i < q :: bins[i].vals.Keys == Elements(keysForBins[i])
      modifies Range(bins, 0, q)
      ensures Filled()
    {
      hide Elements, Range, FilledRange;
      RangesApart(bins, 0, 0, q);
      NoneFilled(bins, keysForBins);
      for i := 0 to q
        invariant bins[q].Blank() && FilledRange(bins, keysForBins, 0, i)
        invariant forall u | i <= u < q ::
                    bins[u].Blank() && bins[u].keys == keysForBins[u] && bins[u].vals.Keys == Elements(keysForBins[u])
      {
        RangeApart(bins, 0, i, q);
        InitBin(i);
        FilledNext(bins, keysForBins, i);
      }
    }

    method InitBin(i: nat)
      requires Built() && i < q && bins[i].Blank() && bins[i].keys == keysForBins[i] && |Elements(keysForBins[i])| == numItemsForBin
      requires bins[i].vals.Keys == Elements(keysForBins[i])
      modifies bins[i]
      ensures bins[i].FilledWith(keysForBins[i])
    {
      hide Elements;
      EveryKey(keysForBins[i]);
      bins[i].Init();
      bins[i].FillTables();
      assert {} + Elements(keysForBins[i]) == Elements(keysForBins[i]);
    }

    method Decode(key: Key) returns (val: GF)
      requires Built() && forall i | 0 <= i <= q :: Fits(bins[i].p, bins[i].variables)
      ensures val == StarValue(hashForBins(key) % q, key)
    {
      var index := hashForBins(key) % q;
      var first := bins[index].Decode(key);
      var second := bins[q].Decode(key);
      val := Xor(first, second);
    }

    /** Peels one bin. */
    method PeelBin(i: nat) returns (succeed: bool)
      requires Built() && i < q && bins[i].FilledWith(keysForBins[i])
      modifies bins[i]
      ensures bins[i].PeeledToCore(keysForBins[i])
      ensures succeed <==> !TooDense(bins[i], keysForBins[i])
    {
      hide Peeled, IsTwoCore, TooDense;
      succeed := bins[i].RunPeeling(Elements(keysForBins[i]));
      DenseCore(bins[i], keysForBins[i], bins[i].tables[0]);
    }

    lemma BinsApart()
      requires Built()
      ensures |bins| == q + 1 && |keysForBins| == |valsForBins| == q > 0 && (forall i, j | 0 <= i < j < |bins| :: bins[i] != bins[j])
      ensures Repr == Range(bins, 0, |bins|)
    {
    }

    /** One thread: peels its bins. */
    method PeelMultipleBins(start: nat, end: nat) returns (failureIndex: int)
      requires Built() && end <= q && FilledRange(bins, keysForBins, start, end)
      modifies Range(bins, start, end)
      ensures PeeledRange(bins, keysForBins, start, end)
      ensures IsFailureIndex(failureIndex, Failed(bins, keysForBins, start, end))
    {
      hide Range, TooDense, IsFailureIndex, Failed, FilledRange, PeeledRange, Built, OBD3Tables.PeeledToCore, OBD3Tables.FilledWith;
      assert |bins| == q + 1 == |keysForBins| + 1 by { BinsApart(); }
      failureIndex := -1;
      var i := start;
      NoBins(bins, keysForBins, start, end);
      while i < end
        invariant start <= i && (i <= end || i == start)
        invariant PeeledRange(bins, keysForBins, start, i) && FilledRange(bins, keysForBins, i, end)
        invariant i <= end ==> IsFailureIndex(failureIndex, Failed(bins, keysForBins, start, i))
        invariant start >= end ==>
                    PeeledRange(bins, keysForBins, start, end) && IsFailureIndex(failureIndex, Failed(bins, keysForBins, start, end))
      {
        BinsApart();
        RangeApart(bins, start, i, end);
        FilledFirst(bins, keysForBins, i, end);
        var succeed := PeelBin(i);
        PeeledNext(bins, keysForBins, start, i);
        FailedNext(bins, keysForBins, start, i);
        if !succeed {
          OneMoreFailure(failureIndex, Failed(bins, keysForBins, start, i), i);
          if failureIndex == -1 {
            failureIndex := i;
          } else if failureIndex > -1 {
            failureIndex := -2;
          }
        }
        i := i + 1;
      }
    }

    /** The threads before t have peeled their bins. */
    ghost predicate PeeledUpTo(t: nat, size: nat)
      reads this, bins
    {
      && Built() && bins[q].Blank()
      && PeeledRange(bins, keysForBins, 0, Reach(t, size, q)) && FilledRange(bins, keysForBins, Reach(t, size, q), q)
    }

    method PeelThread(t: nat, size: nat) returns (failureIndex: int)
      requires PeeledUpTo(t, size)
      modifies Range(bins, 0, q)
      ensures PeeledUpTo(t + 1, size)
      ensures IsFailureIndex(failureIndex, FailedIn(t, size))
    {
      hide Range, TooDense, IsFailureIndex, Failed, FilledRange, PeeledRange, Reach, OBD3Tables.PeeledToCore, OBD3Tables.FilledWith;
      ReachNext(t, size, q);
      var start := t * size;
      var end := if (t + 1) * size <= q then (t + 1) * size else q;
      ghost var reach := Reach(t, size, q);
      FilledSplit(bins, keysForBins, start, reach, end, q);
      RangesApart(bins, start, reach, end);
      failureIndex := PeelMultipleBins(start, end);
      PeeledJoin(bins, keysForBins, start, reach, end);
    }

    method PeelThreads(size: nat) returns (failureIndex: int)
      requires Filled() && q <= numThreads * size
      modifies Range(bins, 0, q)
      ensures PeeledUpTo(numThreads, size)
      ensures IsFailureIndex(failureIndex, Failed(bins, keysForBins, 0, q))
    {
      hide Range, TooDense, IsFailureIndex, Failed, FilledRange, PeeledRange, PeeledUpTo, Reach, FailedIn;
      var failureIndices: seq<int> := [];
      StartPeeling(size);
      for t := 0 to numThreads
        invariant |failureIndices| == t && PeeledUpTo(t, size)
        invariant forall u | 0 <= u < t :: IsFailureIndex(failureIndices[u], FailedIn(u, size))
      {
        var f := PeelThread(t, size);
        failureIndices := failureIndices + [f];
      }
      failureIndex := MergeCodes(failureIndices, size);
    }

    lemma StartPeeling(size: nat)
      requires Filled()
      ensures PeeledUpTo(0, size)
    {
    }

    method MergeCodes(failureIndices: seq<int>, size: nat) returns (failureIndex: int)
      requires Built() && |failureIndices| == numThreads && q <= numThreads * size
      requires forall t | 0 <= t < numThreads :: IsFailureIndex(failureIndices[t], FailedIn(t, size))
      ensures IsFailureIndex(failureIndex, Failed(bins, keysForBins, 0, q))
    {
      hide TooDense, IsFailureIndex, Failed, Reach;
      failureIndex := -1;
      ReachEnds(numThreads, size, q);
      NoBins(bins, keysForBins, 0, 0);
      for t := 0 to numThreads
        invariant IsFailureIndex(failureIndex, Failed(bins, keysForBins, 0, Reach(t, size, q)))
      {
        ReachNext(t, size, q);
        FailedJoin(bins, keysForBins, Reach(t, size, q), Reach(t + 1, size, q));
        var f := failureIndices[t];
        MergeFailures(failureIndex, Failed(bins, keysForBins, 0, Reach(t, size, q)), f, FailedIn(t, size));
        if f == -1 {
        } else if f > -1 {
          failureIndex := if failureIndex == -1 then f else -2;
        } else {
          failureIndex := -2;
        }
      }
    }

    /** Encodes the keys with the centre, which has not been used before. */
    method EncodeCentre(ks: seq<Key>, vs: seq<GF>, solver: Solver, random: (Key, nat) -> GF) returns (ghost run: Run)
      requires |bins| == q + 1 && bins[q].Blank() && |ks| == |vs| == bins[q].hashSize == |Elements(ks)|
      modifies bins[q]
      ensures bins[q].keys == ks && bins[q].RunOf(run, random)
      ensures bins[q].Sound(run, solver, random) ==> bins[q].Holds(ks, vs)
    {
      hide Peeled, IsTwoCore, SaysRight, Clean, SolvedBy, Unpeeled, SystemOk;
      var centre := bins[q];
      centre.SetKeysAndVals(ks, vs);
      centre.Init();
      centre.FillTables();
      assert centre.tables[0] == Elements(ks);
      var succeed := centre.RunPeeling(Elements(ks));
      run := centre.SolveAndUnpeel(solver, random);
      ElementsCount(ks);
      if centre.Sound(run, solver, random) {
        RightHolds(centre, ks, vs);
      }
    }

    /** The one bin that failed gets random values, and the centre gets what is missing. */
    method RepairBin(f: nat, solver: Solver, random: nat -> ((Key, nat) -> GF), noise: nat -> GF) returns (ghost run: Run)
      requires Built() && f < q && bins[f].PeeledToCore(keysForBins[f]) && bins[q].Blank()
      modifies bins[f], bins[q]
      ensures Fits(bins[f].p, bins[f].variables) && Fits(bins[q].p, bins[q].variables) && bins[q].keys == keysForBins[f]
      ensures Repaired(bins[f], bins[q], keysForBins[f], valsForBins[f], run, solver, random(q))
      ensures forall i | 0 <= i < |bins[f].variables| :: bins[f].variables[i] == noise(i)
    {
      hide ValueOf, Xor, OBD3Tables.Sound, OBD3Tables.PeeledToCore, OBD3Tables.RunOf;
      PeeledFits(bins[f], keysForBins[f]);
      bins[f].GenerateRandomEncoding(noise);
      var ks := keysForBins[f];
      var valsForCentre: seq<GF> := [];
      ghost var p, x := bins[f].p, bins[f].variables;
      for i := 0 to numItemsForBin
        modifies {}
        invariant |valsForCentre| == i
        invariant forall j | 0 <= j < i :: valsForCentre[j] == Xor(ValueOf(p, x, ks[j]), valsForBins[f][j])
      {
        var binVal := bins[f].Decode(ks[i]);
        valsForCentre := valsForCentre + [Xor(binVal, valsForBins[f][i])];
      }
      run := EncodeCentre(ks, valsForCentre, solver, random(q));
      RunFits(bins[q], run, random(q));
      if bins[q].Sound(run, solver, random(q)) {
        forall j | 0 <= j < numItemsForBin
          ensures Xor(ValueOf(p, x, ks[j]), ValueOf(bins[q].p, bins[q].variables, ks[j])) == valsForBins[f][j]
        {
          XorShift(ValueOf(p, x, ks[j]), valsForBins[f][j]);
        }
      }
    }

    /** One thread: the new value of a key is what the centre leaves to its bin. */
    method SetNewVals(start: nat, end: nat, f: int)
      requires Built() && end <= q && Fits(bins[q].p, bins[q].variables)
      modifies `valsForBins
      ensures Built()
      ensures valsForBins == NewVals(bins[q].p, bins[q].variables, keysForBins, old(valsForBins), f, start, end)
    {
      hide ValueOf, Xor;
      var i := start;
      while i < end
        invariant Built() && start <= i && (i <= end || i == start)
        invariant valsForBins == NewVals(bins[q].p, bins[q].variables, keysForBins, old(valsForBins), f, start, i)
      {
        if i != f {
          SetBinVals(i);
        }
        i := i + 1;
      }
    }

    method SetBinVals(i: nat)
      requires Built() && i < q && Fits(bins[q].p, bins[q].variables)
      modifies `valsForBins
      ensures Built()
      ensures valsForBins == old(valsForBins)[i := ShiftedRow(bins[q].p, bins[q].variables, keysForBins[i], old(valsForBins)[i])]
    {
      hide ValueOf, Xor;
      ghost var p, x := bins[q].p, bins[q].variables;
      for j := 0 to numItemsForBin
        invariant Built()
        invariant forall u | 0 <= u < q && u != i :: valsForBins[u] == old(valsForBins)[u]
        invariant forall u | 0 <= u < j :: valsForBins[i][u] == Xor(ValueOf(p, x, keysForBins[i][u]), old(valsForBins)[i][u])
        invariant forall u | j <= u < numItemsForBin :: valsForBins[i][u] == old(valsForBins)[i][u]
      {
        var binVal := bins[q].Decode(keysForBins[i][j]);
        valsForBins := valsForBins[i := valsForBins[i][j := Xor(binVal, valsForBins[i][j])]];
      }
      assert valsForBins[i] == ShiftedRow(p, x, keysForBins[i], old(valsForBins)[i]);
    }

    method SetNewValsThreads(size: nat, f: int)
      requires Built() && q <= numThreads * size && Fits(bins[q].p, bins[q].variables)
      modifies `valsForBins
      ensures Built()
      ensures valsForBins == NewVals(bins[q].p, bins[q].variables, keysForBins, old(valsForBins), f, 0, q)
    {
      hide NewVals, Reach, ValueOf;
      ghost var p, x, vss := bins[q].p, bins[q].variables, valsForBins;
      ReachEnds(numThreads, size, q);
      NewValsNone(p, x, keysForBins, vss, f);
      for t := 0 to numThreads
        invariant Built() && valsForBins == NewVals(p, x, keysForBins, vss, f, 0, Reach(t, size, q))
      {
        ReachNext(t, size, q);
        var start := t * size;
        var end := if (t + 1) * size <= q then (t + 1) * size else q;
        SetNewVals(start, end, f);
        NewValsJoin(p, x, keysForBins, vss, f, start, Reach(t, size, q), end);
      }
    }

    /** Gives every bin but f its new values. */
    method SetAllVals(f: int)
      requires Built() && PeeledExcept(bins, keysForBins, 0, q, f)
      modifies Range(bins, 0, q)
      ensures ValuedExcept(bins, keysForBins, valsForBins, 0, q, f)
      ensures 0 <= f < q ==> bins[f].variables == old(bins[f].variables)
    {
      hide Range, Others, PeeledExcept, ValuedExcept, Built, OBD3Tables.PeeledToCore, OBD3Tables.HasVals;
      BinsApart();
      NoneValued(bins, keysForBins, valsForBins, f);
      for i := 0 to q
        invariant ValuedExcept(bins, keysForBins, valsForBins, 0, i, f) && PeeledExcept(bins, keysForBins, i, q, f)
        invariant 0 <= f < q ==> bins[f].variables == old(bins[f].variables)
      {
        RangeApart(bins, 0, i, q);
        OthersApart(bins, i + 1, q, f);
        PeeledFirst(bins, keysForBins, i, q, f);
        if i != f {
          SetBin(i);
        }
        ValuedNext(bins, keysForBins, valsForBins, i, f);
      }
    }

    method SetBin(i: nat)
      requires Built() && i < q && bins[i].PeeledToCore(keysForBins[i])
      modifies bins[i]
      ensures bins[i].PeeledToCore(keysForBins[i]) && bins[i].HasVals(keysForBins[i], valsForBins[i])
    {
      hide Peeled, IsTwoCore, Elements;
      PeeledFits(bins[i], keysForBins[i]);
      ElementsCount(keysForBins[i]);
      bins[i].SetKeysAndVals(keysForBins[i], valsForBins[i]);
      EveryKey(keysForBins[i]);
      FirstVals(bins[i], keysForBins[i], valsForBins[i]);
    }

    method UnpeelBin(i: nat, solver: Solver, random: (Key, nat) -> GF) returns (ghost run: Run)
      requires Built() && i < q && bins[i].PeeledToCore(keysForBins[i]) && bins[i].HasVals(keysForBins[i], valsForBins[i])
      modifies bins[i]
      ensures Held(bins[i], keysForBins[i], valsForBins[i], run, solver, random)
    {
      hide ValueOf, Peeled, IsTwoCore, SystemOk, Unpeeled, Clean, SolvedBy, Elements;
      EveryKey(keysForBins[i]);
      run := bins[i].SolveAndUnpeel(solver, random);
    }

    /** One thread: unpeels its bins. */
    method UnpeelMultipleBins(start: nat, end: nat, f: int, solver: Solver, random: nat -> ((Key, nat) -> GF), ghost runs0: map<nat, Run>)
      returns (ghost runs: map<nat, Run>)
      requires Built() && end <= q && ValuedExcept(bins, keysForBins, valsForBins, start, end, f)
      requires forall i | i in runs0 :: i != f
      modifies Range(bins, start, end)
      ensures HeldExcept(bins, keysForBins, valsForBins, start, end, f, runs, solver, random)
      ensures forall i | i in runs :: i != f
      ensures 0 <= f < q ==> bins[f].variables == old(bins[f].variables)
      ensures forall i | i < start || i >= end :: (i in runs <==> i in runs0) && (i in runs ==> runs[i] == runs0[i])
    {
      hide Range, ValuedExcept, HeldExcept, Held, Built, OBD3Tables.PeeledToCore, OBD3Tables.HasVals;
      BinsApart();
      runs := runs0;
      NoneHeld(bins, keysForBins, valsForBins, start, end, f, runs, solver, random);
      var i := start;
      while i < end
        invariant start <= i && (i <= end || i == start)
        invariant HeldExcept(bins, keysForBins, valsForBins, start, i, f, runs, solver, random)
        invariant ValuedExcept(bins, keysForBins, valsForBins, i, end, f) && forall j | j in runs :: j != f
        invariant 0 <= f < q ==> bins[f].variables == old(bins[f].variables)
        invariant start >= end ==> HeldExcept(bins, keysForBins, valsForBins, start, end, f, runs, solver, random)
        invariant forall j | j < start || j >= end :: (j in runs <==> j in runs0) && (j in runs ==> runs[j] == runs0[j])
      {
        RangeApart(bins, start, i, end);
        ValuedFirst(bins, keysForBins, valsForBins, i, end, f);
        if i != f {
          ghost var run := UnpeelBin(i, solver, random(i));
          HeldNext(bins, keysForBins, valsForBins, start, i, f, runs, run, solver, random);
          runs := runs[i := run];
        } else {
          HeldSkip(bins, keysForBins, valsForBins, start, i, f, runs, solver, random);
        }
        i := i + 1;
      }
    }

    method UnpeelThreads(size: nat, f: int, solver: Solver, random: nat -> ((Key, nat) -> GF)) returns (ghost runs: map<nat, Run>)
      requires Built() && q <= numThreads * size && ValuedExcept(bins, keysForBins, valsForBins, 0, q, f)
      modifies Range(bins, 0, q)
      ensures HeldExcept(bins, keysForBins, valsForBins, 0, q, f, runs, solver, random)
      ensures forall i | i in runs :: i < q && i != f
      ensures 0 <= f < q ==> bins[f].variables == old(bins[f].variables)
    {
      hide Range, ValuedExcept, HeldExcept, Held, Reach, Built;
      BinsApart();
      runs := map[];
      ReachEnds(numThreads, size, q);
      NoneHeld(bins, keysForBins, valsForBins, 0, 0, f, runs, solver, random);
      for t := 0 to numThreads
        invariant HeldExcept(bins, keysForBins, valsForBins, 0, Reach(t, size, q), f, runs, solver, random)
        invariant ValuedExcept(bins, keysForBins, valsForBins, Reach(t, size, q), q, f)
        invariant forall i | i in runs :: i < q && i != f
        invariant 0 <= f < q ==> bins[f].variables == old(bins[f].variables)
      {
        ReachNext(t, size, q);
        var start := t * size;
        var end := if (t + 1) * size <= q then (t + 1) * size else q;
        ghost var reach := Reach(t, size, q);
        ValuedSplit(bins, keysForBins, valsForBins, start, reach, end, q, f);
        RangesApart(bins, start, reach, end);
        ghost var before := runs;
        runs := UnpeelMultipleBins(start, end, f, solver, random, runs);
        HeldJoin(bins, keysForBins, valsForBins, start, reach, end, f, before, runs, solver, random);
      }
    }

    /** The second half of the encoding: every bin but f is given what the centre leaves to it, solved and unpeeled. */
    method FinishBins(size: nat, f: int, solver: Solver, random: nat -> ((Key, nat) -> GF)) returns (ghost runs: map<nat, Run>)
      requires Built() && q <= numThreads * size && PeeledExcept(bins, keysForBins, 0, q, f)
      requires Fits(bins[q].p, bins[q].variables)
      modifies `valsForBins, Range(bins, 0, q)
      ensures Built()
      ensures HeldExcept(bins, keysForBins, NewVals(bins[q].p, bins[q].variables, keysForBins, old(valsForBins), f, 0, q), 0, q, f,
                         runs, solver, random)
      ensures forall i | i in runs :: i < q && i != f
      ensures 0 <= f < q ==> bins[f].variables == old(bins[f].variables)
    {
      hide Range, Others, PeeledExcept, ValuedExcept, HeldExcept, NewVals;
      BinsApart();
      RangesApart(bins, 0, 0, q);
      OthersApart(bins, 0, q, f);
      SetNewValsThreads(size, f);
      SetAllVals(f);
      runs := UnpeelThreads(size, f, solver, random);
    }

    /**
     The first encoding: it fails if and only if more than one bin has too large a 2-core.  runs records what
     was done in each dictionary that was solved and unpeeled, that is in all but one, which is the bin that
     failed, or the centre if none did.  If all the runs were sound, then every bin together with the centre
     gives each of its keys the value it came with.
     */
    method Encode(solver: Solver, random: nat -> ((Key, nat) -> GF), noise: nat -> GF)
      returns (ok: bool, ghost runs: map<nat, Run>, ghost spared: nat)
      requires Filled()
      modifies `numThreads, `valsForBins, Range(bins, 0, q + 1)
      ensures Built()
      ensures ok <==> |Failed(bins, keysForBins, 0, q)| <= 1
      ensures ok ==> spared <= q && IsFailureIndex(if spared == q then -1 else spared, Failed(bins, keysForBins, 0, q))
      ensures ok ==> RunsOf(runs, spared, random)
      ensures ok ==> forall i | 0 <= i < |bins[spared].variables| :: bins[spared].variables[i] == noise(i)
      ensures numThreads == if q <= old(numThreads) then q else old(numThreads)
      ensures ok && AllSound(runs, spared, solver, random) ==> forall i | 0 <= i < q :: BinRight(i, old(valsForBins))
    {
      hide Range, PeeledRange, RunsOf, AllSound, BinRight, OBD3Tables.Blank, OBD3Tables.PeeledToCore, OBD3Tables.RunOf, OBD3Tables.Sound, TooDense;
      var size := 1;
      if q <= numThreads {
        numThreads := q;
      } else {
        size := (q + numThreads - 1) / numThreads;
      }
      ThreadsPartition(q, old(numThreads));
      runs, spared := map[], q;
      RangesApart(bins, 0, 0, q);
      var failureIndex := PeelThreads(size);
      FailureCount(failureIndex, Failed(bins, keysForBins, 0, q));
      if failureIndex < -1 {
        return false, runs, spared;
      }
      ok, runs := FinishEncoding(size, failureIndex, solver, random, noise);
      spared := if failureIndex == -1 then q else failureIndex;
    }

    /** With at most one failed bin f: random values for the centre, or for the failed bin and the centre encoded. */
    method FinishEncoding(size: nat, f: int, solver: Solver, random: nat -> ((Key, nat) -> GF), noise: nat -> GF)
      returns (ok: bool, ghost runs: map<nat, Run>)
      requires Built() && -1 <= f < q && q <= numThreads * size
      requires PeeledRange(bins, keysForBins, 0, q) && bins[q].Blank()
      modifies `valsForBins, Range(bins, 0, q + 1)
      ensures Built() && ok
      ensures RunsOf(runs, if f == -1 then q else f, random)
      ensures AllSound(runs, if f == -1 then q else f, solver, random) ==> forall i | 0 <= i < q :: BinRight(i, old(valsForBins))
      ensures var s := if f == -1 then q else f; forall i | 0 <= i < |bins[s].variables| :: bins[s].variables[i] == noise(i)
    {
      hide Range, Others, PeeledExcept, PeeledRange, HeldExcept, NewVals, ValueOf, RunsOf, AllSound, BinRight, Repaired, OBD3Tables.RunOf, OBD3Tables.Sound,
        OBD3Tables.Blank, OBD3Tables.PeeledToCore;
      ghost var vss := valsForBins;
      ghost var centreRun := Run(System([], [], [], []), map[], [], []);
      SpareOne(bins, keysForBins, q, f);
      BinsApart();
      RangesApart(bins, 0, 0, q);
      RangeApart(bins, 0, q, q + 1);
      BlankFits(bins[q]);
      OthersApart(bins, 0, q, f);
      if f == -1 {
        bins[q].GenerateRandomEncoding(noise);
      } else {
        RangeApart(bins, 0, f, q + 1);
        centreRun := RepairBin(f, solver, random, noise);
      }
      runs := FinishBins(size, f, solver, random);
      EncodingEnds(f, runs, centreRun, vss, solver, random);
      if f > -1 {
        runs := runs[q := centreRun];
      }
      ok := true;
    }

    lemma EncodingEnds(f: int, runs0: map<nat, Run>, centreRun: Run, vss: seq<seq<GF>>, solver: Solver, random: nat -> ((Key, nat) -> GF))
      requires Built() && -1 <= f < q && Fits(bins[q].p, bins[q].variables)
      requires |vss| == q && forall i | 0 <= i < q :: |vss[i]| == |keysForBins[i]|
      requires HeldExcept(bins, keysForBins, NewVals(bins[q].p, bins[q].variables, keysForBins, vss, f, 0, q), 0, q, f, runs0, solver, random)
      requires forall i | i in runs0 :: i < q && i != f
      requires f >= 0 ==> Repaired(bins[f], bins[q], keysForBins[f], vss[f], centreRun, solver, random(q))
      ensures var runs := if f == -1 then runs0 else runs0[q := centreRun];
              && RunsOf(runs, if f == -1 then q else f, random)
              && (AllSound(runs, if f == -1 then q else f, solver, random) ==> forall i | 0 <= i < q :: BinRight(i, vss))
    {
      hide ValueOf, HeldExcept, NewVals, AllSound, RunsOf, Repaired, BinRight;
      var spared, runs := if f == -1 then q else f, if f == -1 then runs0 else runs0[q := centreRun];
      RunsCollected(f, runs0, centreRun, NewVals(bins[q].p, bins[q].variables, keysForBins, vss, f, 0, q), vss, solver, random);
      if AllSound(runs, spared, solver, random) {
        SoundBin(runs, spared, solver, random, if f == 0 then q else 0);
        forall i | 0 <= i < q ensures BinRight(i, vss) {
          SoundBin(runs, spared, solver, random, if i == f then q else i);
          if i != f {
            OrdinaryBin(f, runs0, vss, i, solver, random);
          } else {
            RepairedBin(i, centreRun, vss, solver, random);
          }
        }
      }
    }

    lemma RunsCollected(f: int, runs0: map<nat, Run>, centreRun: Run, nss: seq<seq<GF>>, vss: seq<seq<GF>>, solver: Solver,
                        random: nat -> ((Key, nat) -> GF))
      requires Built() && -1 <= f < q == |vss| && Fits(bins[q].p, bins[q].variables)
      requires HeldExcept(bins, keysForBins, nss, 0, q, f, runs0, solver, random)
      requires forall i | i in runs0 :: i < q && i != f
      requires f >= 0 ==> Repaired(bins[f], bins[q], keysForBins[f], vss[f], centreRun, solver, random(q))
      ensures RunsOf(if f == -1 then runs0 else runs0[q := centreRun], if f == -1 then q else f, random)
    {
      hide OBD3Tables.RunOf, OBD3Tables.Sound, OBD3Tables.Holds, ValueOf, Held;
      forall i | 0 <= i < q && i != f ensures Fits(bins[i].p, bins[i].variables) && bins[i].RunOf(runs0[i], random(i)) {
        HeldRun(bins[i], keysForBins[i], nss[i], runs0[i], solver, random(i));
      }
    }

    lemma SoundBin(runs: map<nat, Run>, spared: nat, solver: Solver, random: nat -> ((Key, nat) -> GF), i: nat)
      requires |bins| == q + 1 && RunsOf(runs, spared, random) && AllSound(runs, spared, solver, random) && i <= q && i != spared
      ensures i in runs && bins[i].RunOf(runs[i], random(i)) && bins[i].Sound(runs[i], solver, random(i))
      ensures forall j | 0 <= j <= q :: Fits(bins[j].p, bins[j].variables)
    {
      hide OBD3Tables.RunOf, OBD3Tables.Sound;
    }

    lemma OrdinaryBin(f: int, runs: map<nat, Run>, vss: seq<seq<GF>>, i: nat, solver: Solver, random: nat -> ((Key, nat) -> GF))
      requires Built() && i < q == |vss| && i != f && forall i | 0 <= i <= q :: Fits(bins[i].p, bins[i].variables)
      requires forall i | 0 <= i < q :: |vss[i]| == |keysForBins[i]|
      requires HeldExcept(bins, keysForBins, NewVals(bins[q].p, bins[q].variables, keysForBins, vss, f, 0, q), 0, q, f, runs, solver, random)
      requires i in runs && bins[i].RunOf(runs[i], random(i)) && bins[i].Sound(runs[i], solver, random(i))
      ensures BinRight(i, vss)
    {
      hide ValueOf, Xor, OBD3Tables.RunOf, OBD3Tables.Sound;
      var p, x := bins[q].p, bins[q].variables;
      assert Held(bins[i], keysForBins[i], ShiftedRow(p, x, keysForBins[i], vss[i]), runs[i], solver, random(i));
      forall j | 0 <= j < |vss[i]| ensures StarValue(i, keysForBins[i][j]) == vss[i][j] {
        XorShift(ValueOf(p, x, keysForBins[i][j]), vss[i][j]);
      }
    }

    lemma RepairedBin(f: nat, run: Run, vss: seq<seq<GF>>, solver: Solver, random: nat -> ((Key, nat) -> GF))
      requires Built() && f < q == |vss| && Repaired(bins[f], bins[q], keysForBins[f], vss[f], run, solver, random(q)) && bins[q].Sound(run, solver, random(q))
      requires forall i | 0 <= i <= q :: Fits(bins[i].p, bins[i].variables)
      ensures BinRight(f, vss)
    {
      hide ValueOf, Xor, OBD3Tables.RunOf, OBD3Tables.Sound;
    }

    /** Each dictionary but the spared one was encoded by its run. */
    ghost predicate RunsOf(runs: map<nat, Run>, spared: nat, random: nat -> ((Key, nat) -> GF))
      requires |bins| == q + 1
      reads this, bins
    {
      && (forall i | 0 <= i <= q :: Fits(bins[i].p, bins[i].variables) && (i in runs <==> i != spared))
      && (forall i | i in runs :: i <= q && bins[i].RunOf(runs[i], random(i)))
    }

    ghost predicate AllSound(runs: map<nat, Run>, spared: nat, solver: Solver, random: nat -> ((Key, nat) -> GF))
      requires |bins| == q + 1 && RunsOf(runs, spared, random)
      reads this, bins
    {
      forall i | i in runs :: bins[i].Sound(runs[i], solver, random(i))
    }

    /** Bin and centre together give the keys of the bin these values. */
    ghost predicate BinRight(i: nat, vss: seq<seq<GF>>)
      requires i < q && |bins| == q + 1 && forall i | 0 <= i <= q :: Fits(bins[i].p, bins[i].variables)
      reads this, bins
    {
      i < |keysForBins| && i < |vss| && |keysForBins[i]| == |vss[i]|
      && forall j | 0 <= j < |vss[i]| :: StarValue(i, keysForBins[i][j]) == vss[i][j]
    }

    /** Every key that was placed decodes to its value if its bin came out right. */
    lemma PlacedRight(key: Key, value: GF, vss: seq<seq<GF>>)
      requires Built() && Placed(keysForBins, vss, BinOf(key), key, value)
      requires (forall i | 0 <= i <= q :: Fits(bins[i].p, bins[i].variables)) && BinRight(BinOf(key), vss)
      ensures StarValue(BinOf(key), key) == value
    {
      hide ValueOf, Xor, BinOf;
    }

    /** The bins of thread t whose 2-core is too large. */
    ghost function FailedIn(t: nat, size: nat): set<nat>
      reads `keysForBins
    {
      Failed(bins, keysForBins, Reach(t, size, q), Reach(t + 1, size, q))
    }
  }

  lemma PeeledFits(b: OBD3Tables, ks: seq<Key>)
    requires b.PeeledToCore(ks)
    ensures Fits(b.p, b.variables) && |ks| == |Elements(ks)| == b.hashSize
  {
  }

  lemma RightHolds(b: OBD3Tables, ks: seq<Key>, vs: seq<GF>)
    requires |ks| == |vs| && SaysRight(b.p, b.variables, b.vals, Elements(ks))
    requires forall i | 0 <= i < |ks| && ks[i] !in ks[..i] :: ks[i] in b.vals && b.vals[ks[i]] == vs[i]
    requires forall i | 0 <= i < |ks| :: ks[i] !in ks[..i]
    ensures b.Holds(ks, vs)
  {
    hide ValueOf;
    forall j | 0 <= j < |ks| ensures ValueOf(b.p, b.variables, ks[j]) == vs[j] {
      assert ks[j] in Elements(ks) && ks[j] !in ks[..j];
    }
  }

  lemma XorShift(a: GF, b: GF)
    ensures Xor(a, Xor(a, b)) == b && Xor(Xor(a, b), a) == b && Xor(a, b) == Xor(b, a)
  {
  }

  /** The values of one bin after the centre's share has been taken out. */
  ghost function ShiftedRow(p: Params, x: seq<GF>, ks: seq<Key>, vs: seq<GF>): seq<GF>
    requires Fits(p, x) && |ks| == |vs|
  {
    seq(|vs|, j requires 0 <= j < |vs| => Xor(ValueOf(p, x, ks[j]), vs[j]))
  }

  ghost function NewVals(p: Params, x: seq<GF>, kss: seq<seq<Key>>, vss: seq<seq<GF>>, f: int, lo: nat, hi: nat): seq<seq<GF>>
    requires Fits(p, x) && |kss| == |vss| && forall i | 0 <= i < |kss| :: |kss[i]| == |vss[i]|
  {
    seq(|vss|, i requires 0 <= i < |vss| => if lo <= i < hi && i != f then ShiftedRow(p, x, kss[i], vss[i]) else vss[i])
  }

  /** Where the first t threads end. */
  ghost function Reach(t: nat, size: nat, q: nat): nat {
    if t * size <= q then t * size else q
  }

  lemma ReachNext(t: nat, size: nat, q: nat)
    ensures Reach(t, size, q) <= Reach(t + 1, size, q) <= q
    ensures Reach(t, size, q) == if t * size <= q then t * size else q
    ensures Reach(t + 1, size, q) == if (t + 1) * size <= q then (t + 1) * size else q
  {
    NextThread(t, size);
  }

  lemma ReachEnds(threads: nat, size: nat, q: nat)
    requires q <= threads * size
    ensures Reach(0, size, q) == 0 && Reach(threads, size, q) == q
  {
  }

  // Placing keys in bins

  /** The key and its value are somewhere in bin b. */
  ghost predicate Placed(kss: seq<seq<Key>>, vss: seq<seq<GF>>, b: nat, key: Key, value: GF) {
    b < |kss| && b < |vss| && |kss[b]| == |vss[b]| && exists j | 0 <= j < |kss[b]| :: kss[b][j] == key && vss[b][j] == value
  }

  /** Key number u is at place spot[u] of its bin, which is one of the places used so far; every bin has n places. */
  ghost predicate Spotted(kss: seq<seq<Key>>, vss: seq<seq<GF>>, homes: seq<nat>, keys: seq<Key>, values: seq<GF>,
                          spot: seq<nat>, used: seq<nat>, n: nat)
  {
    && |kss| == |vss| == |used| && |spot| <= |keys| == |values| == |homes| && (forall u | 0 <= u < |homes| :: homes[u] < |used|)
    && (forall i | 0 <= i < |kss| :: |kss[i]| == |vss[i]| == n && used[i] <= n)
    && forall u | 0 <= u < |spot| ::
         spot[u] < used[homes[u]] && kss[homes[u]][spot[u]] == keys[u] && vss[homes[u]][spot[u]] == values[u]
  }

  lemma NothingSpotted(kss: seq<seq<Key>>, vss: seq<seq<GF>>, homes: seq<nat>, keys: seq<Key>, values: seq<GF>, used: seq<nat>, n: nat)
    requires |kss| == |vss| == |used| && |keys| == |values| == |homes| && (forall u | 0 <= u < |homes| :: homes[u] < |used|)
    requires forall i | 0 <= i < |kss| :: |kss[i]| == |vss[i]| == n && used[i] == 0
    ensures Spotted(kss, vss, homes, keys, values, [], used, n)
  {
  }

  lemma SpotMore(kss: seq<seq<Key>>, vss: seq<seq<GF>>, homes: seq<nat>, keys: seq<Key>, values: seq<GF>,
                 spot: seq<nat>, used: seq<nat>, t: nat, n: nat)
    requires Spotted(kss, vss, homes, keys, values, spot, used, n) && t == |spot| < |keys| && used[homes[t]] < n
    ensures var b, j := homes[t], used[homes[t]];
            Spotted(kss[b := kss[b][j := keys[t]]], vss[b := vss[b][j := values[t]]], homes, keys, values,
                    spot + [j], used[b := j + 1], n)
  {
  }

  lemma SpottedSizes(kss: seq<seq<Key>>, vss: seq<seq<GF>>, homes: seq<nat>, keys: seq<Key>, values: seq<GF>,
                     spot: seq<nat>, used: seq<nat>, n: nat)
    requires Spotted(kss, vss, homes, keys, values, spot, used, n)
    ensures |kss| == |vss| == |used| && forall i | 0 <= i < |kss| :: |kss[i]| == |vss[i]| == n && used[i] <= n
  {
  }

  /** Filling the unused places of a bin moves no key. */
  lemma SpotsKept(kss: seq<seq<Key>>, vss: seq<seq<GF>>, homes: seq<nat>, keys: seq<Key>, values: seq<GF>,
                  spot: seq<nat>, used: seq<nat>, n: nat, i: nat, ks: seq<Key>, vs: seq<GF>)
    requires Spotted(kss, vss, homes, keys, values, spot, used, n) && i < |kss| && |ks| == |vs| == n
    requires ks[..used[i]] == kss[i][..used[i]] && vs[..used[i]] == vss[i][..used[i]]
    ensures Spotted(kss[i := ks], vss[i := vs], homes, keys, values, spot, used, n)
  {
    forall j | 0 <= j < used[i] ensures ks[j] == kss[i][j] && vs[j] == vss[i][j] {
      assert ks[..used[i]][j] == kss[i][..used[i]][j] && vs[..used[i]][j] == vss[i][..used[i]][j];
    }
  }

  lemma SpotOf(kss: seq<seq<Key>>, vss: seq<seq<GF>>, homes: seq<nat>, keys: seq<Key>, values: seq<GF>,
               spot: seq<nat>, used: seq<nat>, t: nat, n: nat)
    requires Spotted(kss, vss, homes, keys, values, spot, used, n) && t < |spot|
    ensures Placed(kss, vss, homes[t], keys[t], values[t])
  {
  }

  // Ranges of bins

  ghost function Range(bins: seq<OBD3Tables>, start: nat, end: nat): set<OBD3Tables> {
    set i | start <= i < end && i < |bins| :: bins[i]
  }

  lemma RangeOne(bins: seq<OBD3Tables>, i: nat)
    requires i < |bins|
    ensures Range(bins, i, i + 1) == {bins[i]}
  {
  }

  lemma RangeIn(bins: seq<OBD3Tables>, start: nat, end: nat)
    ensures forall b | b in Range(bins, start, end) :: b in bins
  {
  }

  ghost predicate PeeledRange(bins: seq<OBD3Tables>, kss: seq<seq<Key>>, start: nat, end: nat)
    reads Range(bins, start, end)
  {
    && (start < end ==> end <= |bins| && end <= |kss|)
    && forall i | start <= i < end :: bins[i].PeeledToCore(kss[i])
  }

  ghost predicate FilledRange(bins: seq<OBD3Tables>, kss: seq<seq<Key>>, start: nat, end: nat)
    reads Range(bins, start, end)
  {
    && (start < end ==> end <= |bins| && end <= |kss|)
    && forall i | start <= i < end :: bins[i].FilledWith(kss[i])
  }

  /** The bins from start up to end whose 2-core is too large. */
  ghost function Failed(bins: seq<OBD3Tables>, kss: seq<seq<Key>>, start: nat, end: nat): set<nat> {
    set i | start <= i < end && i < |bins| && i < |kss| && TooDense(bins[i], kss[i])
  }

  lemma NoBins(bins: seq<OBD3Tables>, kss: seq<seq<Key>>, start: nat, end: nat)
    ensures PeeledRange(bins, kss, start, start) && IsFailureIndex(-1, Failed(bins, kss, start, start))
    ensures start >= end ==> PeeledRange(bins, kss, start, end) && IsFailureIndex(-1, Failed(bins, kss, start, end))
  {
    assert Failed(bins, kss, start, start) == {};
    assert start >= end ==> Failed(bins, kss, start, end) == {};
  }

  lemma FailedNext(bins: seq<OBD3Tables>, kss: seq<seq<Key>>, start: nat, i: nat)
    requires start <= i < |bins| && i < |kss|
    ensures TooDense(bins[i], kss[i]) ==> Failed(bins, kss, start, i + 1) == Failed(bins, kss, start, i) + {i}
    ensures !TooDense(bins[i], kss[i]) ==> Failed(bins, kss, start, i + 1) == Failed(bins, kss, start, i)
    ensures i !in Failed(bins, kss, start, i)
  {
  }

  lemma NoneFilled(bins: seq<OBD3Tables>, kss: seq<seq<Key>>)
    ensures FilledRange(bins, kss, 0, 0)
  {
  }

  lemma FilledNext(bins: seq<OBD3Tables>, kss: seq<seq<Key>>, i: nat)
    requires FilledRange(bins, kss, 0, i) && i < |bins| && i < |kss| && bins[i].FilledWith(kss[i])
    ensures FilledRange(bins, kss, 0, i + 1)
  {
  }

  lemma FilledFirst(bins: seq<OBD3Tables>, kss: seq<seq<Key>>, i: nat, end: nat)
    requires FilledRange(bins, kss, i, end) && i < end
    ensures i < |bins| && i < |kss| && bins[i].FilledWith(kss[i]) && FilledRange(bins, kss, i + 1, end)
  {
  }

  lemma PeeledNext(bins: seq<OBD3Tables>, kss: seq<seq<Key>>, start: nat, i: nat)
    requires PeeledRange(bins, kss, start, i) && start <= i < |bins| && i < |kss| && bins[i].PeeledToCore(kss[i])
    ensures PeeledRange(bins, kss, start, i + 1)
  {
  }

  lemma RangeApart(bins: seq<OBD3Tables>, start: nat, i: nat, end: nat)
    requires forall i, j | 0 <= i < j < |bins| :: bins[i] != bins[j]
    requires start <= i < end <= |bins|
    ensures bins[i] in Range(bins, start, end)
    ensures bins[i] !in Range(bins, start, i) && bins[i] !in Range(bins, i + 1, end)
    ensures Range(bins, start, i) <= Range(bins, 0, |bins|) && Range(bins, i + 1, end) <= Range(bins, 0, |bins|)
  {
  }

  /** A thread whose start lies beyond the end has no bins; otherwise it starts where the others stopped. */
  lemma FilledSplit(bins: seq<OBD3Tables>, kss: seq<seq<Key>>, start: nat, reach: nat, end: nat, q: nat)
    requires FilledRange(bins, kss, reach, q) && reach <= end <= q && (start == reach || start >= end)
    ensures FilledRange(bins, kss, start, end) && FilledRange(bins, kss, end, q)
  {
  }

  lemma RangesApart(bins: seq<OBD3Tables>, start: nat, reach: nat, end: nat)
    requires forall i, j | 0 <= i < j < |bins| :: bins[i] != bins[j]
    requires reach <= end < |bins| && (start == reach || start >= end)
    ensures Range(bins, start, end) <= Range(bins, 0, |bins| - 1) <= Range(bins, 0, |bins|)
    ensures Range(bins, start, end) !! Range(bins, 0, reach) && Range(bins, start, end) !! Range(bins, end, |bins| - 1)
    ensures bins[|bins| - 1] !in Range(bins, start, end)
    ensures Range(bins, 0, reach) <= Range(bins, 0, |bins|) && Range(bins, end, |bins| - 1) <= Range(bins, 0, |bins|)
    ensures bins[|bins| - 1] in Range(bins, 0, |bins|)
  {
  }

  lemma PeeledJoin(bins: seq<OBD3Tables>, kss: seq<seq<Key>>, start: nat, reach: nat, end: nat)
    requires PeeledRange(bins, kss, 0, reach) && PeeledRange(bins, kss, start, end) && reach <= end
    requires start == reach || start >= end == reach
    ensures PeeledRange(bins, kss, 0, end) && Failed(bins, kss, start, end) == Failed(bins, kss, reach, end)
  {
  }

  lemma FailedJoin(bins: seq<OBD3Tables>, kss: seq<seq<Key>>, a: nat, b: nat)
    requires a <= b
    ensures Failed(bins, kss, 0, b) == Failed(bins, kss, 0, a) + Failed(bins, kss, a, b)
    ensures Failed(bins, kss, 0, a) !! Failed(bins, kss, a, b)
  {
  }

  // Bins but one

  ghost function Others(bins: seq<OBD3Tables>, lo: nat, hi: nat, f: int): set<OBD3Tables> {
    set i | lo <= i < hi && i < |bins| && i != f :: bins[i]
  }

  lemma OthersApart(bins: seq<OBD3Tables>, lo: nat, hi: nat, f: int)
    requires forall i, j | 0 <= i < j < |bins| :: bins[i] != bins[j]
    requires hi < |bins|
    ensures Others(bins, lo, hi, f) <= Range(bins, lo, hi) <= Range(bins, 0, |bins|)
    ensures bins[|bins| - 1] !in Others(bins, lo, hi, f) && (0 <= f < hi ==> bins[f] !in Others(bins, lo, hi, f))
  {
  }

  ghost predicate PeeledExcept(bins: seq<OBD3Tables>, kss: seq<seq<Key>>, lo: nat, hi: nat, f: int)
    reads Others(bins, lo, hi, f)
  {
    && (lo < hi ==> hi <= |bins| && hi <= |kss|)
    && forall i | lo <= i < hi && i != f :: bins[i].PeeledToCore(kss[i])
  }

  ghost predicate ValuedExcept(bins: seq<OBD3Tables>, kss: seq<seq<Key>>, vss: seq<seq<GF>>, lo: nat, hi: nat, f: int)
    reads Range(bins, lo, hi)
  {
    && (lo < hi ==> hi <= |bins| && hi <= |kss| && hi <= |vss|)
    && forall i | lo <= i < hi && i != f :: bins[i].PeeledToCore(kss[i]) && bins[i].HasVals(kss[i], vss[i])
  }

  /** The dictionary holds its values if its run is sound. */
  ghost predicate Held(b: OBD3Tables, ks: seq<Key>, vs: seq<GF>, run: Run, solver: Solver, random: (Key, nat) -> GF)
    reads b
  {
    b.keys == ks && b.RunOf(run, random) && (b.Sound(run, solver, random) ==> b.Holds(ks, vs))
  }

  ghost predicate HeldExcept(bins: seq<OBD3Tables>, kss: seq<seq<Key>>, vss: seq<seq<GF>>, lo: nat, hi: nat, f: int,
                             runs: map<nat, Run>, solver: Solver, random: nat -> ((Key, nat) -> GF))
    reads Range(bins, lo, hi)
  {
    && (lo < hi ==> hi <= |bins| && hi <= |kss| && hi <= |vss|)
    && (forall i | lo <= i < hi :: i in runs <==> i != f)
    && forall i | lo <= i < hi && i != f :: Held(bins[i], kss[i], vss[i], runs[i], solver, random(i))
  }

  lemma PeeledFirst(bins: seq<OBD3Tables>, kss: seq<seq<Key>>, i: nat, hi: nat, f: int)
    requires PeeledExcept(bins, kss, i, hi, f) && i < hi
    ensures i < |bins| && i < |kss| && (i != f ==> bins[i].PeeledToCore(kss[i])) && PeeledExcept(bins, kss, i + 1, hi, f)
  {
  }

  lemma NoneValued(bins: seq<OBD3Tables>, kss: seq<seq<Key>>, vss: seq<seq<GF>>, f: int)
    ensures ValuedExcept(bins, kss, vss, 0, 0, f)
  {
  }

  lemma ValuedNext(bins: seq<OBD3Tables>, kss: seq<seq<Key>>, vss: seq<seq<GF>>, i: nat, f: int)
    requires ValuedExcept(bins, kss, vss, 0, i, f) && i < |bins| && i < |kss| && i < |vss|
    requires i != f ==> bins[i].PeeledToCore(kss[i]) && bins[i].HasVals(kss[i], vss[i])
    ensures ValuedExcept(bins, kss, vss, 0, i + 1, f)
  {
  }

  lemma ValuedFirst(bins: seq<OBD3Tables>, kss: seq<seq<Key>>, vss: seq<seq<GF>>, i: nat, hi: nat, f: int)
    requires ValuedExcept(bins, kss, vss, i, hi, f) && i < hi
    ensures i < |bins| && i < |kss| && i < |vss| && ValuedExcept(bins, kss, vss, i + 1, hi, f)
    ensures i != f ==> bins[i].PeeledToCore(kss[i]) && bins[i].HasVals(kss[i], vss[i])
  {
  }

  lemma ValuedSplit(bins: seq<OBD3Tables>, kss: seq<seq<Key>>, vss: seq<seq<GF>>, start: nat, reach: nat, end: nat, q: nat, f: int)
    requires ValuedExcept(bins, kss, vss, reach, q, f) && reach <= end <= q && (start == reach || start >= end)
    ensures ValuedExcept(bins, kss, vss, start, end, f) && ValuedExcept(bins, kss, vss, end, q, f)
  {
  }

  lemma NoneHeld(bins: seq<OBD3Tables>, kss: seq<seq<Key>>, vss: seq<seq<GF>>, lo: nat, hi: nat, f: int,
                 runs: map<nat, Run>, solver: Solver, random: nat -> ((Key, nat) -> GF))
    ensures HeldExcept(bins, kss, vss, lo, lo, f, runs, solver, random)
    ensures lo >= hi ==> HeldExcept(bins, kss, vss, lo, hi, f, runs, solver, random)
  {
  }

  lemma HeldNext(bins: seq<OBD3Tables>, kss: seq<seq<Key>>, vss: seq<seq<GF>>, lo: nat, i: nat, f: int,
                 runs: map<nat, Run>, run: Run, solver: Solver, random: nat -> ((Key, nat) -> GF))
    requires HeldExcept(bins, kss, vss, lo, i, f, runs, solver, random) && lo <= i < |bins| && i < |kss| && i < |vss|
    requires i != f && Held(bins[i], kss[i], vss[i], run, solver, random(i))
    ensures HeldExcept(bins, kss, vss, lo, i + 1, f, runs[i := run], solver, random)
  {
    hide Held;
  }

  lemma HeldSkip(bins: seq<OBD3Tables>, kss: seq<seq<Key>>, vss: seq<seq<GF>>, lo: nat, i: nat, f: int,
                 runs: map<nat, Run>, solver: Solver, random: nat -> ((Key, nat) -> GF))
    requires HeldExcept(bins, kss, vss, lo, i, f, runs, solver, random) && lo <= i < |bins| && i < |kss| && i < |vss|
    requires i == f && i !in runs
    ensures HeldExcept(bins, kss, vss, lo, i + 1, f, runs, solver, random)
  {
    hide Held;
  }

  lemma HeldJoin(bins: seq<OBD3Tables>, kss: seq<seq<Key>>, vss: seq<seq<GF>>, start: nat, reach: nat, end: nat, f: int,
                 runs0: map<nat, Run>, runs: map<nat, Run>, solver: Solver, random: nat -> ((Key, nat) -> GF))
    requires HeldExcept(bins, kss, vss, 0, reach, f, runs0, solver, random) && reach <= end
    requires HeldExcept(bins, kss, vss, start, end, f, runs, solver, random)
    requires start == reach || start >= end == reach
    requires forall i | i < start || i >= end :: (i in runs <==> i in runs0) && (i in runs ==> runs[i] == runs0[i])
    ensures HeldExcept(bins, kss, vss, 0, end, f, runs, solver, random)
  {
    hide Held;
  }

  lemma FirstVals(b: OBD3Tables, ks: seq<Key>, vs: seq<GF>)
    requires |ks| == |vs| && forall i | 0 <= i < |ks| :: ks[i] !in ks[..i]
    requires forall i | 0 <= i < |ks| && ks[i] !in ks[..i] :: ks[i] in b.vals && b.vals[ks[i]] == vs[i]
    ensures b.HasVals(ks, vs)
  {
    forall j | 0 <= j < |ks| ensures ks[j] in b.vals && b.vals[ks[j]] == vs[j] {
      assert ks[j] !in ks[..j];
    }
  }

  lemma EveryKey(ks: seq<Key>)
    ensures forall k :: k in ks <==> k in Elements(ks)
  {
  }

  lemma NewValsNone(p: Params, x: seq<GF>, kss: seq<seq<Key>>, vss: seq<seq<GF>>, f: int)
    requires Fits(p, x) && |kss| == |vss| && forall i | 0 <= i < |kss| :: |kss[i]| == |vss[i]|
    ensures NewVals(p, x, kss, vss, f, 0, 0) == vss
  {
  }

  lemma NewValsJoin(p: Params, x: seq<GF>, kss: seq<seq<Key>>, vss: seq<seq<GF>>, f: int, start: nat, reach: nat, end: nat)
    requires Fits(p, x) && |kss| == |vss| && forall i | 0 <= i < |kss| :: |kss[i]| == |vss[i]|
    requires reach <= end && (start == reach || start >= end == reach)
    ensures var mid := NewVals(p, x, kss, vss, f, 0, reach);
            && |mid| == |kss| && (forall i | 0 <= i < |kss| :: |kss[i]| == |mid[i]|)
            && NewVals(p, x, kss, mid, f, start, end) == NewVals(p, x, kss, vss, f, 0, end)
  {
    hide ValueOf, Fits;
  }

  lemma SpareOne(bins: seq<OBD3Tables>, kss: seq<seq<Key>>, q: nat, f: int)
    requires PeeledRange(bins, kss, 0, q) && q < |bins| && q <= |kss|
    ensures PeeledExcept(bins, kss, 0, q, f)
    ensures 0 <= f < q ==> bins[f].PeeledToCore(kss[f])
  {
  }

  lemma RunFits(b: OBD3Tables, run: Run, random: (Key, nat) -> GF)
    requires b.RunOf(run, random)
    ensures Fits(b.p, b.variables)
  {
  }

  /** What bin b and the centre together say of the keys ks is vs, if the centre's run is sound. */
  ghost predicate Repaired(b: OBD3Tables, centre: OBD3Tables, ks: seq<Key>, vs: seq<GF>, run: Run, solver: Solver, random: (Key, nat) -> GF)
    reads b`variables, centre
  {
    && Fits(b.p, b.variables) && Fits(centre.p, centre.variables) && centre.RunOf(run, random) && |vs| == |ks|
    && (centre.Sound(run, solver, random) ==>
          forall j | 0 <= j < |vs| ::
            Xor(ValueOf(b.p, b.variables, ks[j]), ValueOf(centre.p, centre.variables, ks[j])) == vs[j])
  }

  lemma HeldRun(b: OBD3Tables, ks: seq<Key>, vs: seq<GF>, run: Run, solver: Solver, random: (Key, nat) -> GF)
    requires Held(b, ks, vs, run, solver, random)
    ensures b.RunOf(run, random) && Fits(b.p, b.variables)
  {
    RunFits(b, run, random);
  }

  lemma BlankFits(b: OBD3Tables)
    requires b.Blank()
    ensures Fits(b.p, b.variables)
  {
  }
}
