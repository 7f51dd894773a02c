/**
 Back-substitution: each peeled key, the last peeled first, solves its own equation for a variable
 that nothing before it has given a value.
 */
module BackSubstitution {
  import opened XorGroup
  import opened Peeling
  import opened Powers
  import opened DictionaryTables

  /** The code's test for a variable that has not been given a value. */
  predicate Unset(x: seq<GF>, sign: seq<bool>, i: nat)
    requires i < |x| && i < |sign|
  {
    x[i] == Zero && !sign[i]
  }

  /** The variable of the key in table t is unset. */
  ghost predicate UnsetAt(p: Params, x: seq<GF>, sign: seq<bool>, key: Key, t: nat) {
    Index(p, t, key) < |x| && Index(p, t, key) < |sign| && Unset(x, sign, Index(p, t, key))
  }

  /** Changing only table variables that no key of s uses keeps what is said about s. */
  lemma UntouchedValue(p: Params, x: seq<GF>, y: seq<GF>, s: set<Key>, k: Key)
    requires Fits(p, x) && Fits(p, y) && k in s
    requires forall i | 0 <= i < |x| && x[i] != y[i] :: i < 3 * p.size && !Touched(p, i, s)
    ensures ValueOf(p, x, k) == ValueOf(p, y, k)
  {
    hide Xor, DhSum;
    IndexRange(p, k);
    assert forall i | i in Cells(p, k) :: Touched(p, i, s);
    DhSumSame(p, x, y, 3 * p.size, k, p.gamma);
  }

  /** An owned bucket has not been touched by the keys that do not use it. */
  lemma OwnerUntouched(p: Params, k: Key, s: set<Key>)
    requires p.Ok() && Owned(p.g, k, s)
    ensures exists t: nat :: t < 3 && Index(p, t, k) < 3 * p.size && !Touched(p, Index(p, t, k), s)
  {
    var t :| Owns(p.g, k, t, s);
    IndexRange(p, k);
    forall k' | k' in s ensures Index(p, t, k) !in Cells(p, k') {
      IndexInjective(p, 0, k', t, k);
      IndexInjective(p, 1, k', t, k);
      IndexInjective(p, 2, k', t, k);
    }
  }

  lemma IndexInjective(p: Params, t: nat, k: Key, u: nat, k': Key)
    requires p.Ok() && t < 3 && u < 3
    ensures Index(p, t, k) == Index(p, u, k') <==> t == u && p.g.h(t, k) == p.g.h(u, k')
  {
    var i := p.g.h(t, k) - p.g.h(u, k');
    assert -(p.size as int) < i < p.size;
    assert t < u ==> t * p.size + p.size <= u * p.size by { MulStep(t, u, p.size); }
    assert u < t ==> u * p.size + p.size <= t * p.size by { MulStep(u, t, p.size); }
  }

  lemma MulStep(a: nat, b: nat, n: nat)
    ensures a < b ==> a * n + n <= b * n
  {
    if a < b {
      MulMonotone(n, a + 1, b);
    }
  }

  /** Solving the equation of a key for one of its three variables. */
  lemma SolveFor(val: GF, a: GF, b: GF, d: GF)
    ensures var c := Xor(Xor(Xor(val, a), b), d);
            && Xor(Xor(Xor(c, a), b), d) == val
            && Xor(Xor(Xor(a, c), b), d) == val
            && Xor(Xor(Xor(a, b), c), d) == val
  {
    var c := Xor(Xor(Xor(val, a), b), d);
    forall e: nat ensures e in Xor(Xor(Xor(c, a), b), d) <==> e in val
                  ensures e in Xor(Xor(Xor(a, c), b), d) <==> e in val
                  ensures e in Xor(Xor(Xor(a, b), c), d) <==> e in val
    {
    }
  }

  /** The variables after the step of one key: random values for its other unset variables, the first unset one solved for. */
  function UnpeelStep(p: Params, x: seq<GF>, sign: seq<bool>, val: GF, key: Key, random: (Key, nat) -> GF): (y: seq<GF>)
    requires Fits(p, x) && |sign| == 3 * p.size
    ensures |y| == |x|
  {
    IndexRange(p, key);
    var i0, i1, i2 := Index(p, 0, key), Index(p, 1, key), Index(p, 2, key);
    var d := DhSum(p, x, 3 * p.size, key, p.gamma);
    if Unset(x, sign, i0) then
      var x1 := if Unset(x, sign, i1) then x[i1 := random(key, i1)] else x;
      var x2 := if Unset(x1, sign, i2) then x1[i2 := random(key, i2)] else x1;
      x2[i0 := Xor(Xor(Xor(val, x2[i1]), x2[i2]), d)]
    else if Unset(x, sign, i1) then
      var x2 := if Unset(x, sign, i2) then x[i2 := random(key, i2)] else x;
      x2[i1 := Xor(Xor(Xor(val, x2[i0]), x2[i2]), d)]
    else if Unset(x, sign, i2) then
      x[i2 := Xor(Xor(Xor(val, x[i0]), x[i1]), d)]
    else x
  }

  /** The variables after the keys of order, the last first. */
  function Unpeeled(p: Params, x: seq<GF>, sign: seq<bool>, vals: map<Key, GF>, order: seq<Key>, random: (Key, nat) -> GF): (y: seq<GF>)
    requires Fits(p, x) && |sign| == 3 * p.size && forall k | k in order :: k in vals
    ensures |y| == |x|
    decreases |order|
  {
    if order == [] then x
    else
      var k, m := order[|order| - 1], |order| - 1;
      Unpeeled(p, UnpeelStep(p, x, sign, vals[k], k, random), sign, vals, order[..m], random)
  }

  /**
   The step makes the equation of the key hold.  Of the three variables of the key in table order, each unset one
   with an unset one before it gets the random value drawn for it; what was set stays, and so does everything else.
   */
  lemma StepSolves(p: Params, x: seq<GF>, sign: seq<bool>, val: GF, key: Key, random: (Key, nat) -> GF)
    requires Fits(p, x) && |sign| == 3 * p.size && HasUnset(p, x, sign, key)
    ensures var y := UnpeelStep(p, x, sign, val, key, random);
            && ValueOf(p, y, key) == val && WritesUnset(p, x, y, sign, key)
            && forall t: nat, u: nat | t < u < 3 && UnsetAt(p, x, sign, key, t) && UnsetAt(p, x, sign, key, u) ::
                 Index(p, u, key) < |y| && y[Index(p, u, key)] == random(key, Index(p, u, key))
  {
    hide Xor, DhSum, Index;
    IndexRange(p, key);
    var i0, i1, i2 := Index(p, 0, key), Index(p, 1, key), Index(p, 2, key);
    var y := UnpeelStep(p, x, sign, val, key, random);
    var d := DhSum(p, x, 3 * p.size, key, p.gamma);
    DhSumSame(p, x, y, 3 * p.size, key, p.gamma);
    if Unset(x, sign, i0) {
      SolveFor(val, y[i1], y[i2], d);
    } else if Unset(x, sign, i1) {
      SolveFor(val, y[i0], y[i2], d);
    } else {
      SolveFor(val, y[i0], y[i1], d);
    }
  }

  lemma UnpeeledNone(p: Params, x: seq<GF>, sign: seq<bool>, vals: map<Key, GF>, random: (Key, nat) -> GF)
    requires Fits(p, x) && |sign| == 3 * p.size
    ensures Unpeeled(p, x, sign, vals, [], random) == x
  {
  }

  lemma UnpeeledLast(p: Params, x: seq<GF>, sign: seq<bool>, vals: map<Key, GF>, order: seq<Key>, i: nat, random: (Key, nat) -> GF)
    requires Fits(p, x) && |sign| == 3 * p.size && i < |order| && forall k | k in order :: k in vals
    ensures Unpeeled(p, x, sign, vals, order[..i + 1], random)
         == Unpeeled(p, UnpeelStep(p, x, sign, vals[order[i]], order[i], random), sign, vals, order[..i], random)
  {
    assert order[..i + 1][..i] == order[..i];
  }

  /** No step gives a non-zero value to a variable that is already in use. */
  ghost predicate Clean(p: Params, x: seq<GF>, sign: seq<bool>, vals: map<Key, GF>, order: seq<Key>, later: set<Key>, random: (Key, nat) -> GF)
    requires Fits(p, x) && |sign| == 3 * p.size && forall k | k in order :: k in vals
    decreases |order|
  {
    order == [] ||
    var k, m := order[|order| - 1], |order| - 1;
    var y := UnpeelStep(p, x, sign, vals[k], k, random);
    !Clobbers(p, x, y, sign, later, k) && Clean(p, y, sign, vals, order[..m], later + {k}, random)
  }

  /** No step writes a zero. */
  ghost predicate ZeroFree(p: Params, x: seq<GF>, sign: seq<bool>, vals: map<Key, GF>, order: seq<Key>, random: (Key, nat) -> GF)
    requires Fits(p, x) && |sign| == 3 * p.size && forall k | k in order :: k in vals
    decreases |order|
  {
    order == [] ||
    var k, m := order[|order| - 1], |order| - 1;
    var y := UnpeelStep(p, x, sign, vals[k], k, random);
    WritesNoZero(p, x, y, sign, k) && ZeroFree(p, y, sign, vals, order[..m], random)
  }

  /** The variables after the draws of a step, before the key's own equation is solved. */
  ghost function Drawn(p: Params, x: seq<GF>, sign: seq<bool>, key: Key, random: (Key, nat) -> GF): (y: seq<GF>)
    requires Fits(p, x) && |sign| == 3 * p.size
    ensures |y| == |x|
  {
    seq(|x|, i requires 0 <= i < |x| => if DrawnAt(p, x, sign, key, i) then random(key, i) else x[i])
  }

  /** Variable i is an unset one of the key, and not the first. */
  ghost predicate DrawnAt(p: Params, x: seq<GF>, sign: seq<bool>, key: Key, i: nat) {
    exists t: nat, u: nat :: t < u < 3 && UnsetAt(p, x, sign, key, t) && UnsetAt(p, x, sign, key, u) && i == Index(p, u, key)
  }

  /** In every step the values drawn are not zero, and after the draws the key does not have its value by chance. */
  ghost predicate Lucky(p: Params, x: seq<GF>, sign: seq<bool>, vals: map<Key, GF>, order: seq<Key>, random: (Key, nat) -> GF)
    requires Fits(p, x) && |sign| == 3 * p.size && forall k | k in order :: k in vals
    decreases |order|
  {
    order == [] ||
    var k, m := order[|order| - 1], |order| - 1;
    && (forall i: nat | DrawnAt(p, x, sign, k, i) :: random(k, i) != Zero)
    && ValueOf(p, Drawn(p, x, sign, k, random), k) != vals[k]
    && Lucky(p, UnpeelStep(p, x, sign, vals[k], k, random), sign, vals, order[..m], random)
  }

  /** The first of the three variables of the key that is unset. */
  lemma FirstUnset(p: Params, x: seq<GF>, sign: seq<bool>, key: Key) returns (t: nat)
    requires Fits(p, x) && |sign| == 3 * p.size && HasUnset(p, x, sign, key)
    ensures t < 3 && UnsetAt(p, x, sign, key, t) && forall u: nat | u < t :: !UnsetAt(p, x, sign, key, u)
  {
    hide Index, Unset;
    IndexRange(p, key);
    t := if UnsetAt(p, x, sign, key, 0) then 0 else if UnsetAt(p, x, sign, key, 1) then 1 else 2;
  }

  /** A step is its draws and the value of the first unset variable. */
  lemma StepIsDrawn(p: Params, x: seq<GF>, sign: seq<bool>, val: GF, key: Key, random: (Key, nat) -> GF, t: nat)
    requires Fits(p, x) && |sign| == 3 * p.size && HasUnset(p, x, sign, key)
    requires t < 3 && UnsetAt(p, x, sign, key, t) && forall u: nat | u < t :: !UnsetAt(p, x, sign, key, u)
    ensures var y, z, i := UnpeelStep(p, x, sign, val, key, random), Drawn(p, x, sign, key, random), Index(p, t, key);
            z[i] == Zero && y == z[i := y[i]]
  {
    hide Xor, DhSum, Index, UnpeelStep, ValueOf, HasUnset;
    IndexRange(p, key);
    StepSolves(p, x, sign, val, key, random);
    var y, z, i := UnpeelStep(p, x, sign, val, key, random), Drawn(p, x, sign, key, random), Index(p, t, key);
    forall j | 0 <= j < |x| && j != i ensures y[j] == z[j] {
      var v: nat := if j == Index(p, 0, key) then 0 else if j == Index(p, 1, key) then 1 else 2;
      assert y[j] != x[j] ==> j == Index(p, v, key) && UnsetAt(p, x, sign, key, v);
      if DrawnAt(p, x, sign, key, j) {
        var s: nat, u: nat :| s < u < 3 && UnsetAt(p, x, sign, key, s) && UnsetAt(p, x, sign, key, u) && j == Index(p, u, key);
        assert y[Index(p, u, key)] == random(key, Index(p, u, key));
      }
    }
    assert !DrawnAt(p, x, sign, key, i) by {
      forall u: nat | u < 3 && i == Index(p, u, key) ensures u == t {
        IndexInjective(p, t, key, u, key);
      }
    }
  }

  /** Putting a value in place of a zero changes a sum exactly if the value is not zero. */
  lemma SumMoves(c: GF, a: GF, b: GF, d: GF)
    ensures Xor(Xor(Xor(c, a), b), d) == Xor(Xor(Xor(Zero, a), b), d) <==> c == Zero
    ensures Xor(Xor(Xor(a, c), b), d) == Xor(Xor(Xor(a, Zero), b), d) <==> c == Zero
    ensures Xor(Xor(Xor(a, b), c), d) == Xor(Xor(Xor(a, b), Zero), d) <==> c == Zero
  {
    XorCancels(Xor(Xor(c, a), b), Xor(Xor(Zero, a), b), d);
    XorCancels(Xor(c, a), Xor(Zero, a), b);
    XorCancels(c, Zero, a);
    XorCancels(Xor(Xor(a, c), b), Xor(Xor(a, Zero), b), d);
    XorCancels(Xor(a, c), Xor(a, Zero), b);
    XorLaws(a, c, c);
    XorLaws(a, Zero, Zero);
    XorCancels(Xor(Xor(a, b), c), Xor(Xor(a, b), Zero), d);
    XorLaws(Xor(a, b), c, c);
    XorLaws(Xor(a, b), Zero, Zero);
    XorCancels(c, Zero, Xor(a, b));
  }

  lemma XorCancels(a: GF, b: GF, c: GF)
    ensures Xor(a, c) == Xor(b, c) <==> a == b
  {
    XorLaws(a, c, c);
    XorLaws(b, c, c);
  }

  /** A step writes no zero exactly if nothing drawn is zero and the draws alone do not give the key its value. */
  lemma StepZeroFree(p: Params, x: seq<GF>, sign: seq<bool>, val: GF, key: Key, random: (Key, nat) -> GF)
    requires Fits(p, x) && |sign| == 3 * p.size && HasUnset(p, x, sign, key)
    ensures WritesNoZero(p, x, UnpeelStep(p, x, sign, val, key, random), sign, key) <==>
              && (forall i: nat | DrawnAt(p, x, sign, key, i) :: random(key, i) != Zero)
              && ValueOf(p, Drawn(p, x, sign, key, random), key) != val
  {
    hide Xor, DhSum, Index, UnpeelStep, HasUnset;
    IndexRange(p, key);
    var y, z := UnpeelStep(p, x, sign, val, key, random), Drawn(p, x, sign, key, random);
    var t := FirstUnset(p, x, sign, key);
    var i := Index(p, t, key);
    StepSolves(p, x, sign, val, key, random);
    StepIsDrawn(p, x, sign, val, key, random, t);
    DhSumSame(p, z, y, 3 * p.size, key, p.gamma);
    SumMoves(y[i], y[Index(p, if t == 0 then 1 else 0, key)], y[Index(p, if t == 2 then 1 else 2, key)], DhSum(p, y, 3 * p.size, key, p.gamma));
    assert ValueOf(p, z, key) != val <==> y[i] != Zero;
    forall j | j in Cells(p, key) && j != i ensures Unset(x, sign, j) <==> DrawnAt(p, x, sign, key, j) {
      var u: nat := if j == Index(p, 0, key) then 0 else if j == Index(p, 1, key) then 1 else 2;
      assert j == Index(p, u, key);
      assert Unset(x, sign, j) ==> UnsetAt(p, x, sign, key, u) && t < u;
    }
    assert !DrawnAt(p, x, sign, key, i);
  }

  /** No step of a run writes a zero exactly if the run is lucky in what it draws. */
  lemma {:induction false} ZeroFreeWhen(p: Params, x: seq<GF>, sign: seq<bool>, vals: map<Key, GF>, order: seq<Key>,
                                        later: set<Key>, random: (Key, nat) -> GF)
    requires Fits(p, x) && |sign| == 3 * p.size && (forall k | k in order :: k in vals)
    requires OwnersInOrder(p.g, later, order) && UnsetOutside(p, x, sign, later)
    ensures ZeroFree(p, x, sign, vals, order, random) <==> Lucky(p, x, sign, vals, order, random)
    decreases |order|
  {
    hide Owned, OwnersInOrder, UnpeelStep, UnsetOutside, WritesNoZero, WritesUnset, HasUnset, ValueOf, DrawnAt, UnsetAt, Drawn;
    if order != [] {
      var k, m := order[|order| - 1], |order| - 1;
      OwnersLast(p.g, later, order);
      OneUnset(p, k, later, x, sign);
      StepSolves(p, x, sign, vals[k], k, random);
      StepZeroFree(p, x, sign, vals[k], k, random);
      var y := UnpeelStep(p, x, sign, vals[k], k, random);
      StepWrites(p, x, y, sign, later, k);
      ZeroFreeWhen(p, y, sign, vals, order[..m], later + {k}, random);
    }
  }

  lemma OwnersLast(g: Graph, later: set<Key>, order: seq<Key>)
    requires OwnersInOrder(g, later, order) && order != []
    ensures var k, m := order[|order| - 1], |order| - 1;
            Owned(g, k, later) && OwnersInOrder(g, later + {k}, order[..m])
            && later + {k} + Elements(order[..m]) == later + Elements(order)
  {
    hide Owned;
    var k, m := order[|order| - 1], |order| - 1;
    assert order == order[..m] + [k];
    ElementsSnoc(order[..m], k);
    assert later + Elements(order[m + 1..]) == later;
    forall i | 0 <= i < m
      ensures Owned(g, order[..m][i], later + {k} + Elements(order[..m][i + 1..])) && order[..m][i] !in order[..m][i + 1..]
    {
      assert order[i + 1..] == order[..m][i + 1..] + [k];
      ElementsSnoc(order[..m][i + 1..], k);
      assert later + {k} + Elements(order[..m][i + 1..]) == later + Elements(order[i + 1..]);
    }
  }

  /** Back-substitution over a whole peeling order: if it is clean, every key gets its value. */
  lemma {:induction false} UnpeelingSolves(p: Params, x: seq<GF>, sign: seq<bool>, vals: map<Key, GF>, order: seq<Key>,
                                           later: set<Key>, random: (Key, nat) -> GF)
    requires Fits(p, x) && |sign| == 3 * p.size && (forall k | k in order :: k in vals) && (forall k | k in later :: k in vals)
    requires OwnersInOrder(p.g, later, order) && UnsetOutside(p, x, sign, later)
    ensures Clean(p, x, sign, vals, order, later, random) && SaysRight(p, x, vals, later) ==>
              SaysRight(p, Unpeeled(p, x, sign, vals, order, random), vals, later + Elements(order))
    ensures ZeroFree(p, x, sign, vals, order, random) && SetWithin(p, x, sign, later) ==>
              Clean(p, x, sign, vals, order, later, random)
    decreases |order|
  {
    hide Owned, OwnersInOrder, UnpeelStep, UnsetOutside, SaysRight, Clobbers, SetWithin, WritesNoZero, WritesUnset, HasUnset;
    if order == [] {
      assert later + Elements(order) == later;
    } else {
      var k, m := order[|order| - 1], |order| - 1;
      OwnersLast(p.g, later, order);
      OneUnset(p, k, later, x, sign);
      StepSolves(p, x, sign, vals[k], k, random);
      var y := UnpeelStep(p, x, sign, vals[k], k, random);
      StepKeeps(p, x, y, sign, vals, later, k);
      UnpeelingSolves(p, y, sign, vals, order[..m], later + {k}, random);
    }
  }

  /** The step from x to y changes only variables of the key that were unset. */
  ghost predicate WritesUnset(p: Params, x: seq<GF>, y: seq<GF>, sign: seq<bool>, key: Key) {
    && |x| == |y| >= |sign| == 3 * p.size
    && forall i | 0 <= i < |y| && y[i] != x[i] :: i < |sign| && i in Cells(p, key) && Unset(x, sign, i)
  }

  /** The step writes over a zero that is in use, because the test for unset takes it for no value. */
  ghost predicate Clobbers(p: Params, x: seq<GF>, y: seq<GF>, sign: seq<bool>, later: set<Key>, key: Key) {
    exists i | i in Cells(p, key) :: i < |x| && i < |y| && i < |sign| && Touched(p, i, later) && Unset(x, sign, i) && y[i] != Zero
  }

  /** No value written in the step is zero. */
  ghost predicate WritesNoZero(p: Params, x: seq<GF>, y: seq<GF>, sign: seq<bool>, key: Key) {
    forall i | i in Cells(p, key) && i < |x| && i < |y| && i < |sign| && Unset(x, sign, i) :: y[i] != Zero
  }

  ghost predicate UnsetOutside(p: Params, x: seq<GF>, sign: seq<bool>, s: set<Key>) {
    |x| >= |sign| == 3 * p.size && forall i | 0 <= i < 3 * p.size && !Touched(p, i, s) :: Unset(x, sign, i)
  }

  ghost predicate SetWithin(p: Params, x: seq<GF>, sign: seq<bool>, s: set<Key>) {
    |x| >= |sign| == 3 * p.size && forall i | 0 <= i < 3 * p.size && Touched(p, i, s) :: !Unset(x, sign, i)
  }

  /** The variables say of every key of s what its value is. */
  ghost predicate SaysRight(p: Params, x: seq<GF>, vals: map<Key, GF>, s: set<Key>) {
    Fits(p, x) && forall k | k in s :: k in vals && ValueOf(p, x, k) == vals[k]
  }

  ghost predicate HasUnset(p: Params, x: seq<GF>, sign: seq<bool>, key: Key) {
    |x| >= |sign| == 3 * p.size && exists i | i in Cells(p, key) :: i < 3 * p.size && Unset(x, sign, i)
  }

  /** The variable of the owned bucket is unset. */
  lemma OneUnset(p: Params, key: Key, later: set<Key>, x: seq<GF>, sign: seq<bool>)
    requires Fits(p, x) && |sign| == 3 * p.size && Owned(p.g, key, later)
    requires UnsetOutside(p, x, sign, later)
    ensures HasUnset(p, x, sign, key)
  {
    hide Touched, Owned, Index;
    OwnerUntouched(p, key, later);
    var t: nat :| t < 3 && Index(p, t, key) < 3 * p.size && !Touched(p, Index(p, t, key), later);
    var i := Index(p, t, key);
    if t != 0 && t != 1 {
      assert t == 2;
    }
    assert i in Cells(p, key);
  }

  /** After the step only the variables of the key may be in use as well. */
  lemma StepWrites(p: Params, x: seq<GF>, y: seq<GF>, sign: seq<bool>, later: set<Key>, key: Key)
    requires UnsetOutside(p, x, sign, later) && WritesUnset(p, x, y, sign, key)
    ensures UnsetOutside(p, y, sign, later + {key})
  {
    hide Touched, Cells;
    TouchedMore(p, later, key);
  }

  /** What one step of the unpeeling keeps. */
  lemma StepKeeps(p: Params, x: seq<GF>, y: seq<GF>, sign: seq<bool>, vals: map<Key, GF>, later: set<Key>, key: Key)
    requires Fits(p, x) && Fits(p, y) && |sign| == 3 * p.size && key in vals && forall k | k in later :: k in vals
    requires ValueOf(p, y, key) == vals[key] && WritesUnset(p, x, y, sign, key)
    requires UnsetOutside(p, x, sign, later)
    ensures UnsetOutside(p, y, sign, later + {key})
    ensures WritesNoZero(p, x, y, sign, key) && SetWithin(p, x, sign, later) ==>
              !Clobbers(p, x, y, sign, later, key) && SetWithin(p, y, sign, later + {key})
    ensures !Clobbers(p, x, y, sign, later, key) && SaysRight(p, x, vals, later) ==> SaysRight(p, y, vals, later + {key})
  {
    hide Touched, ValueOf, Cells;
    TouchedMore(p, later, key);
    StepWrites(p, x, y, sign, later, key);
    if !Clobbers(p, x, y, sign, later, key) {
      forall k | k in later ensures ValueOf(p, x, k) == ValueOf(p, y, k) {
        UntouchedValue(p, x, y, later, k);
      }
    }
  }

  lemma TouchedNone(p: Params)
    ensures forall i :: !Touched(p, i, {})
  {
  }

  lemma TouchedJoin(p: Params, a: set<Key>, b: set<Key>)
    ensures forall i :: Touched(p, i, a + b) <==> Touched(p, i, a) || Touched(p, i, b)
  {
    hide Cells;
    forall i ensures Touched(p, i, a + b) <==> Touched(p, i, a) || Touched(p, i, b) {
      if Touched(p, i, a) {
        var k :| k in a && i in Cells(p, k);
        assert k in a + b;
      }
      if Touched(p, i, b) {
        var k :| k in b && i in Cells(p, k);
        assert k in a + b;
      }
    }
  }

  lemma TouchedMore(p: Params, s: set<Key>, key: Key)
    ensures forall i :: Touched(p, i, s + {key}) <==> Touched(p, i, s) || i in Cells(p, key)
  {
    hide Cells;
    forall i ensures Touched(p, i, s + {key}) <==> Touched(p, i, s) || i in Cells(p, key) {
      assert key in s + {key};
      if Touched(p, i, s) {
        var k :| k in s && i in Cells(p, k);
        assert k in s + {key};
      }
    }
  }
}
