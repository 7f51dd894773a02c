/** Whole lives of a dictionary: built, given keys, encoded and decoded. */
module DictionaryRuns {
  import opened XorGroup
  import opened Peeling
  import opened DictionaryTables
  import opened BackSubstitution
  import opened LateWrites
  import opened Dictionary

  /** Every distinct key decodes to its value in a sound run; with a solved system, exactly if nothing is lost. */
  method EncodeThenDecode(p: Params, v: nat, ks: seq<Key>, vs: seq<GF>, solver: Solver, random: (Key, nat) -> GF)
    returns (d: OBD3Tables, succeeded: bool, decoded: seq<GF>, ghost run: Run)
    requires p.Ok() && |ks| == |vs| && |Elements(ks)| == |ks|
    ensures fresh(d) && d.p == p && d.keys == ks && d.Shaped() && IsTwoCore(p.g, Elements(ks), d.tables[0])
    ensures d.RunOf(run, random) && StartsFirst(p.g, Elements(ks), run.order) && (succeeded <==> |d.tables[0]| <= v)
    ensures d.HasVals(ks, vs) && d.Holds(ks, decoded)
    ensures d.Sound(run, solver, random) ==> decoded == vs
    ensures SolvedBy(p, run.sys, solver, |d.tables[0]|) ==> (decoded == vs <==> d.NothingLost(run, random))
  {
    hide ValueOf, SystemOk, SolvedBy, Peeled, IsTwoCore, StartsFirst, Unpeeled, OpenCancel, Clean, UnsetOutside, SetWithin, SaysRight;
    d := new OBD3Tables(p, |ks|, v);
    d.SetKeysAndVals(ks, vs);
    ElementsCount(ks);
    succeeded, run := d.Encode(solver, random);
    decoded := [];
    for i := 0 to |ks|
      modifies {}
      invariant |decoded| == i && forall j | 0 <= j < i :: decoded[j] == ValueOf(p, d.variables, ks[j])
    {
      var val := d.Decode(ks[i]);
      decoded := decoded + [val];
    }
    AllRight(p, d.variables, d.vals, ks, vs, decoded);
  }

  lemma AllRight(p: Params, x: seq<GF>, vals: map<Key, GF>, ks: seq<Key>, vs: seq<GF>, decoded: seq<GF>)
    requires Fits(p, x) && |ks| == |vs| == |decoded|
    requires forall j | 0 <= j < |ks| :: ks[j] in vals && vals[ks[j]] == vs[j] && decoded[j] == ValueOf(p, x, ks[j])
    ensures SaysRight(p, x, vals, Elements(ks)) <==> decoded == vs
  {
    hide ValueOf;
    assert forall j | 0 <= j < |ks| :: ks[j] in Elements(ks);
  }

  // A zero that is lost

  function SharedFirst(t: nat, k: Key): nat {
    if t == 0 then 0 else k % 2
  }

  /** Two keys that share their bucket of the first table, and only that. */
  const TwoKeys: Params := Params(Graph(3, SharedFirst), (k, j) => false, 2, 1)

  /** Key 2 is alone in bucket 0 of the second table, before key 1 in bucket 1. */
  lemma TwoGoesFirst()
    ensures TwoKeys.Ok() && FirstAlone(TwoKeys.g, {1, 2}, 1, 2)
  {
    assert TwoKeys.g.h(0, 1) == TwoKeys.g.h(0, 2);
    assert forall k | k in {1, 2} :: !Alone(TwoKeys.g, {1, 2}, 0, k);
  }

  /** Nothing of the two keys is a core, so both are peeled, key 2 first. */
  lemma PeeledInOrder(core: set<Key>, order: seq<Key>)
    requires Peeled(TwoKeys.g, {1, 2}, core, order) && IsTwoCore(TwoKeys.g, {1, 2}, core) && StartsFirst(TwoKeys.g, {1, 2}, order)
    ensures core == {} && order == [2, 1]
  {
    hide OwnersInOrder, HoldsCores;
    TwoGoesFirst();
    var g := TwoKeys.g;
    assert 1 in core ==> Alone(g, core, 1, 1);
    assert 2 in core ==> Alone(g, core, 1, 2);
    assert core == {};
    assert |{1, 2}| == 2 == |order| && order[0] == 2;
    assert order[1] in Elements(order) && 1 in Elements(order);
    assert order == [2, order[1]];
  }

  /** While the table variables are unset and random values are zero, the step of a key writes its value to its first bucket. */
  lemma ZeroStep(p: Params, x: seq<GF>, sign: seq<bool>, val: GF, key: Key, random: (Key, nat) -> GF)
    requires Fits(p, x) && |sign| == 3 * p.size && forall i | 0 <= i < 3 * p.size :: x[i] == Zero && !sign[i]
    requires (forall i :: random(key, i) == Zero) && DhSum(p, x, 3 * p.size, key, p.gamma) == Zero
    ensures Index(p, 0, key) < |x| && UnpeelStep(p, x, sign, val, key, random) == x[Index(p, 0, key) := val]
  {
    hide Xor, DhSum, Index;
    IndexRange(p, key);
    EmptySum(val);
    var y := UnpeelStep(p, x, sign, val, key, random);
    assert y[Index(p, 1, key)] == Zero && y[Index(p, 2, key)] == Zero;
  }

  lemma NoExtras(x: seq<GF>, key: Key)
    requires |x| == 7
    ensures DhSum(TwoKeys, x, 6, key, 1) == Zero
  {
    assert DhSum(TwoKeys, x, 6, key, 0) == Zero;
  }

  /** Key 1 is unpeeled first and writes zeros; key 2 takes them for unset and writes its own value over the first. */
  lemma KeyOneOverwritten(x: seq<GF>, sign: seq<bool>, vals: map<Key, GF>, random: (Key, nat) -> GF)
    requires Fits(TwoKeys, x) && |sign| == 6 && (forall i | 0 <= i < 6 :: x[i] == Zero && !sign[i]) && (forall k, i :: random(k, i) == Zero)
    requires 1 in vals && 2 in vals && vals[1] == Zero
    ensures ValueOf(TwoKeys, Unpeeled(TwoKeys, x, sign, vals, [2, 1], random), 1) == vals[2]
  {
    hide UnpeelStep, ValueOf, DhSum;
    var p := TwoKeys;
    NoExtras(x, 1);
    NoExtras(x, 2);
    ZeroStep(p, x, sign, Zero, 1, random);
    ZeroStep(p, x, sign, vals[2], 2, random);
    UnpeeledLast(p, x, sign, vals, [2, 1], 1, random);
    UnpeeledLast(p, x, sign, vals, [2, 1], 0, random);
    assert [2, 1][..2] == [2, 1] && [2, 1][..0] == [] && x[0 := Zero] == x;
    FirstOnly(x[0 := vals[2]]);
  }

  lemma AllUnset(x: seq<GF>, sign: seq<bool>)
    requires UnsetOutside(TwoKeys, x, sign, {})
    ensures |x| >= |sign| == 6 && forall i | 0 <= i < 6 :: x[i] == Zero && !sign[i]
  {
    TouchedNone(TwoKeys);
    forall i | 0 <= i < 6 ensures x[i] == Zero && !sign[i] {
      assert !Touched(TwoKeys, i, {});
      assert Unset(x, sign, i);
    }
  }

  lemma FirstOnly(y: seq<GF>)
    requires |y| == 7 && forall i | 0 < i < 6 :: y[i] == Zero
    ensures Fits(TwoKeys, y) && ValueOf(TwoKeys, y, 1) == y[0]
  {
    hide Xor, DhSum;
    TwoGoesFirst();
    IndexRange(TwoKeys, 1);
    assert Index(TwoKeys, 0, 1) == 0;
    NoExtras(y, 1);
    EmptySum(y[0]);
  }

  /**
   Why a condition is needed: a dictionary with two keys, peeled down to nothing, whatever the solver.  Key 1
   has the value zero and decodes to the value of key 2.
   */
  method LostKey(solver: Solver) returns (d: OBD3Tables, succeeded: bool, lost: GF)
    ensures fresh(d) && d.HasVals([1, 2], [Zero, {0}]) && succeeded
    ensures d.p == TwoKeys && d.Shaped() && lost == ValueOf(d.p, d.variables, 1) == {0} != Zero
  {
    hide ValueOf, Peeled, IsTwoCore, FirstAlone, StartsFirst, SystemOk, SolvedBy, Unpeeled, OpenCancel, Clean, Params.Ok, UnsetOutside, SetWithin;
    TwoGoesFirst();
    assert Elements([1, 2]) == {1, 2};
    var random: (Key, nat) -> GF := (k, i) => Zero;
    var decoded;
    ghost var run;
    d, succeeded, decoded, run := EncodeThenDecode(TwoKeys, 0, [1, 2], [Zero, {0}], solver, random);
    PeeledInOrder(d.tables[0], run.order);
    assert d.vals[[1, 2][0]] == Zero && d.vals[[1, 2][1]] == {0};
    AllUnset(run.start, d.sign);
    KeyOneOverwritten(run.start, d.sign, d.vals, random);
    lost := decoded[0];
    assert [1, 2][0] == 1;
  }
}
