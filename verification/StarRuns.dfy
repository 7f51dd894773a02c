/** The whole life of a star dictionary: built, given keys, encoded and decoded. */
module StarRuns {
  import opened XorGroup
  import opened Peeling
  import opened DictionaryTables
  import opened Dictionary
  import opened Star

  // The keys of a bin are distinct

  ghost function AtHome(h: Key -> nat, q: nat, keys: seq<Key>, i: nat): set<Key>
    requires q > 0
  {
    set k | k in keys && h(k) % q == i
  }

  lemma {:induction false} HomeCount(h: Key -> nat, q: nat, keys: seq<Key>, i: nat)
    requires q > 0 && forall t | 0 <= t < |keys| :: keys[t] !in keys[..t]
    ensures |AtHome(h, q, keys, i)| == Load(h, q, keys, i)
  {
    if keys != [] {
      var m := |keys| - 1;
      var front, last := keys[..m], keys[m];
      assert keys == front + [last];
      assert forall t | 0 <= t < m :: front[..t] == keys[..t];
      HomeCount(h, q, front, i);
      assert AtHome(h, q, keys, i) == AtHome(h, q, front, i) + if h(last) % q == i then {last} else {};
    }
  }

  ghost function Dummies(dummyKey: (nat, nat) -> Key, i: nat, from: nat, n: nat): set<Key> {
    set j | from <= j < n :: dummyKey(i, j)
  }

  lemma {:induction false} DummyCount(dummyKey: (nat, nat) -> Key, i: nat, from: nat, n: nat)
    requires from <= n && forall j, j' | from <= j < j' < n :: dummyKey(i, j) != dummyKey(i, j')
    ensures |Dummies(dummyKey, i, from, n)| == n - from
  {
    if from < n {
      DummyCount(dummyKey, i, from, n - 1);
      var d := Dummies(dummyKey, i, from, n - 1);
      assert Dummies(dummyKey, i, from, n) == d + {dummyKey(i, n - 1)};
      assert dummyKey(i, n - 1) !in d;
    }
  }

  /** A bin that holds its keys and distinct dummies behind them holds nothing twice. */
  lemma RowDistinct(h: Key -> nat, q: nat, keys: seq<Key>, i: nat, row: seq<Key>, dummyKey: (nat, nat) -> Key)
    requires q > 0 && |Elements(keys)| == |keys| && Load(h, q, keys, i) <= |row|
    requires forall k | k in AtHome(h, q, keys, i) :: k in row
    requires forall j | Load(h, q, keys, i) <= j < |row| :: row[j] == dummyKey(i, j) && dummyKey(i, j) !in keys
    requires forall j, j' | 0 <= j < j' < |row| :: dummyKey(i, j) != dummyKey(i, j')
    ensures |Elements(row)| == |row|
  {
    hide Load;
    var n, load := |row|, Load(h, q, keys, i);
    var a, b := AtHome(h, q, keys, i), Dummies(dummyKey, i, load, n);
    ElementsCount(keys);
    HomeCount(h, q, keys, i);
    DummyCount(dummyKey, i, load, n);
    ElementsCount(row);
    assert a !! b;
    assert |a + b| == |a| + |b|;
    SubsetSize(a + b, Elements(row));
  }

  lemma HomesPlaced(s: StarDictionary, keys: seq<Key>, values: seq<GF>, i: nat)
    requires s.Built() && i < s.q && |keys| == |values|
    requires forall t | 0 <= t < |keys| :: Placed(s.keysForBins, s.valsForBins, s.BinOf(keys[t]), keys[t], values[t])
    ensures forall k | k in AtHome(s.hashForBins, s.q, keys, i) :: k in s.keysForBins[i]
  {
    forall k | k in AtHome(s.hashForBins, s.q, keys, i) ensures k in s.keysForBins[i] {
      var t :| 0 <= t < |keys| && keys[t] == k;
      assert Placed(s.keysForBins, s.valsForBins, s.BinOf(keys[t]), keys[t], values[t]);
    }
  }

  /**
   A new star dictionary for distinct keys that fit their bins, with distinct dummies.  If it reports success
   then, whichever bin failed and however many threads there are, every key decodes to its value when the
   encodings made on the way are sound.
   */
  method EncodeThenDecode(q: nat, n: nat, numThreads: nat, p: Params, v: nat, hashForBins: Key -> nat, keys: seq<Key>, values: seq<GF>,
                          dummyKey: (nat, nat) -> Key, dummyVal: (nat, nat) -> GF,
                          solver: Solver, random: nat -> ((Key, nat) -> GF), noise: nat -> GF)
    returns (s: StarDictionary, ok: bool, decoded: seq<GF>, ghost runs: map<nat, Run>, ghost spared: nat)
    requires q > 0 && numThreads > 0 && p.Ok() && |Elements(keys)| == |keys| == |values|
    requires forall i | 0 <= i < q :: Load(hashForBins, q, keys, i) <= n
    requires forall i, j | 0 <= i < q && 0 <= j < n :: dummyKey(i, j) !in keys
    requires forall i, j, j' | 0 <= i < q && 0 <= j < j' < n :: dummyKey(i, j) != dummyKey(i, j')
    ensures s.Built() && s.q == q && (ok <==> |Failed(s.bins, s.keysForBins, 0, q)| <= 1)
    ensures ok ==> spared <= q && IsFailureIndex(if spared == q then -1 else spared, Failed(s.bins, s.keysForBins, 0, q))
    ensures ok ==> forall i | 0 <= i < |s.bins[spared].variables| :: s.bins[spared].variables[i] == noise(i)
    ensures ok ==> s.RunsOf(runs, spared, random) && |decoded| == |keys|
    ensures ok && s.AllSound(runs, spared, solver, random) ==> decoded == values
  {
    hide StarDictionary.BinRight, StarDictionary.AllSound, StarDictionary.RunsOf, Failed, Load, Range, Placed, Elements, IsFailureIndex;
    s := new StarDictionary(q, n, numThreads, p, v, hashForBins);
    RangesApart(s.bins, 0, 0, q);
    s.SetKeysAndVals(keys, values, dummyKey, dummyVal);
    forall i | 0 <= i < q ensures |Elements(s.keysForBins[i])| == n {
      HomesPlaced(s, keys, values, i);
      RowDistinct(hashForBins, q, keys, i, s.keysForBins[i], dummyKey);
    }
    ghost var rows, vals := s.keysForBins, s.valsForBins;
    s.Init();
    ok, runs, spared := s.Encode(solver, random, noise);
    decoded := [];
    if ok {
      decoded := DecodeAll(s, keys, values, rows, vals, runs, spared, solver, random);
    }
  }

  method DecodeAll(s: StarDictionary, keys: seq<Key>, ghost values: seq<GF>, ghost rows: seq<seq<Key>>, ghost vals: seq<seq<GF>>,
                   ghost runs: map<nat, Run>, ghost spared: nat, ghost solver: Solver, ghost random: nat -> ((Key, nat) -> GF))
    returns (decoded: seq<GF>)
    requires s.Built() && |keys| == |values| && s.keysForBins == rows && s.RunsOf(runs, spared, random)
    requires forall t | 0 <= t < |keys| :: Placed(rows, vals, s.BinOf(keys[t]), keys[t], values[t])
    requires s.AllSound(runs, spared, solver, random) ==> forall i | 0 <= i < s.q :: s.BinRight(i, vals)
    ensures |decoded| == |keys| && (s.AllSound(runs, spared, solver, random) ==> decoded == values)
  {
    hide StarDictionary.BinRight, StarDictionary.AllSound, StarDictionary.StarValue, Placed;
    decoded := [];
    ghost var sound := s.AllSound(runs, spared, solver, random);
    for t := 0 to |keys|
      invariant |decoded| == t && (sound ==> decoded == values[..t])
    {
      var val := s.Decode(keys[t]);
      if sound {
        s.PlacedRight(keys[t], values[t], vals);
      }
      decoded := decoded + [val];
    }
  }
}
