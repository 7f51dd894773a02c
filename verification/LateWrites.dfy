/**
 Exactly when unpeeling gives every key its value.  A variable in use is written again only if it holds a zero
 with sign 0, so all depends on the variables of a key that are still unset, as the code tests it, after its
 own step: their final values must cancel.
 */
module LateWrites {
  import opened XorGroup
  import opened Peeling
  import opened DictionaryTables
  import opened BackSubstitution

  /** From x to z only table variables that were unset have changed. */
  ghost predicate SetStay(p: Params, x: seq<GF>, sign: seq<bool>, z: seq<GF>) {
    && Fits(p, x) && Fits(p, z) && |sign| == 3 * p.size
    && forall i | 0 <= i < |x| :: z[i] == x[i] || (i < 3 * p.size && Unset(x, sign, i))
  }

  lemma StepStays(p: Params, x: seq<GF>, sign: seq<bool>, val: GF, key: Key, random: (Key, nat) -> GF)
    requires Fits(p, x) && |sign| == 3 * p.size
    ensures SetStay(p, x, sign, UnpeelStep(p, x, sign, val, key, random))
  {
    hide Xor, DhSum, Index;
    IndexRange(p, key);
  }

  /** A variable that is set is never written again. */
  lemma {:induction false} UnpeeledStays(p: Params, x: seq<GF>, sign: seq<bool>, vals: map<Key, GF>, order: seq<Key>, random: (Key, nat) -> GF)
    requires Fits(p, x) && |sign| == 3 * p.size && forall k | k in order :: k in vals
    ensures SetStay(p, x, sign, Unpeeled(p, x, sign, vals, order, random))
    decreases |order|
  {
    hide UnpeelStep;
    if order != [] {
      var k, m := order[|order| - 1], |order| - 1;
      StepStays(p, x, sign, vals[k], k, random);
      UnpeeledStays(p, UnpeelStep(p, x, sign, vals[k], k, random), sign, vals, order[..m], random);
    }
  }

  /** Hence every core key of a solved system is right, whatever is unpeeled after it. */
  lemma CoreStaysRight(p: Params, x: seq<GF>, sign: seq<bool>, vals: map<Key, GF>, order: seq<Key>, core: set<Key>, random: (Key, nat) -> GF)
    requires Fits(p, x) && |sign| == 3 * p.size && forall k | k in order :: k in vals
    requires SetWithin(p, x, sign, core) && SaysRight(p, x, vals, core)
    ensures SaysRight(p, Unpeeled(p, x, sign, vals, order, random), vals, core)
  {
    hide ValueOf, Touched, Unpeeled;
    var z := Unpeeled(p, x, sign, vals, order, random);
    UnpeeledStays(p, x, sign, vals, order, random);
    forall k | k in core ensures ValueOf(p, x, k) == ValueOf(p, z, k) {
      UntouchedValue(p, x, z, core, k);
    }
  }

  /** What variable i ends with, if the code took it for unset. */
  ghost function Open(x: seq<GF>, sign: seq<bool>, z: seq<GF>, i: nat): GF
    requires i < |x| && i < |sign| && i < |z|
  {
    if Unset(x, sign, i) then z[i] else Zero
  }

  /** The final values of those variables of a key that are unset in x. */
  ghost function OpenSum(p: Params, x: seq<GF>, sign: seq<bool>, z: seq<GF>, k: Key): GF
    requires Fits(p, x) && Fits(p, z) && |sign| == 3 * p.size
  {
    IndexRange(p, k);
    Xor(Xor(Open(x, sign, z, Index(p, 0, k)), Open(x, sign, z, Index(p, 1, k))), Open(x, sign, z, Index(p, 2, k)))
  }

  lemma OpenValue(p: Params, x: seq<GF>, sign: seq<bool>, z: seq<GF>, k: Key)
    requires SetStay(p, x, sign, z)
    ensures ValueOf(p, z, k) == Xor(ValueOf(p, x, k), OpenSum(p, x, sign, z, k))
  {
    hide Xor, DhSum, Index;
    IndexRange(p, k);
    DhSumSame(p, x, z, 3 * p.size, k, p.gamma);
    var i0, i1, i2 := Index(p, 0, k), Index(p, 1, k), Index(p, 2, k);
    OpenCell(x[i0], z[i0]);
    OpenCell(x[i1], z[i1]);
    OpenCell(x[i2], z[i2]);
    Regroup(x[i0], x[i1], x[i2], Open(x, sign, z, i0), Open(x, sign, z, i1), Open(x, sign, z, i2), DhSum(p, x, 3 * p.size, k, p.gamma));
  }

  lemma OpenCell(a: GF, b: GF)
    ensures Xor(a, Zero) == a && Xor(Zero, b) == b
  {
  }

  lemma Regroup(a: GF, b: GF, c: GF, u: GF, v: GF, w: GF, d: GF)
    ensures Xor(Xor(Xor(Xor(a, u), Xor(b, v)), Xor(c, w)), d) == Xor(Xor(Xor(Xor(a, b), c), d), Xor(Xor(u, v), w))
  {
    forall e: nat ensures e in Xor(Xor(Xor(Xor(a, u), Xor(b, v)), Xor(c, w)), d) <==> e in Xor(Xor(Xor(Xor(a, b), c), d), Xor(Xor(u, v), w)) {
    }
  }

  lemma SameIff(a: GF, d: GF)
    ensures Xor(a, d) == a <==> d == Zero
  {
    assert Xor(a, Xor(a, d)) == d;
  }

  /** For every peeled key, the final values of its variables that are unset after its own step cancel. */
  ghost predicate OpenCancel(p: Params, x: seq<GF>, sign: seq<bool>, vals: map<Key, GF>, order: seq<Key>, random: (Key, nat) -> GF, z: seq<GF>)
    requires Fits(p, x) && Fits(p, z) && |sign| == 3 * p.size && forall k | k in order :: k in vals
    decreases |order|
  {
    order == [] ||
    var k, m := order[|order| - 1], |order| - 1;
    var y := UnpeelStep(p, x, sign, vals[k], k, random);
    OpenSum(p, y, sign, z, k) == Zero && OpenCancel(p, y, sign, vals, order[..m], random, z)
  }

  lemma {:induction false} PeeledExactly(p: Params, x: seq<GF>, sign: seq<bool>, vals: map<Key, GF>, order: seq<Key>,
                                         later: set<Key>, random: (Key, nat) -> GF, z: seq<GF>)
    requires Fits(p, x) && |sign| == 3 * p.size && forall k | k in order :: k in vals
    requires OwnersInOrder(p.g, later, order) && UnsetOutside(p, x, sign, later)
    requires z == Unpeeled(p, x, sign, vals, order, random)
    ensures OpenCancel(p, x, sign, vals, order, random, z) <==> forall k | k in order :: ValueOf(p, z, k) == vals[k]
    decreases |order|
  {
    hide Owned, OwnersInOrder, UnpeelStep, UnsetOutside, HasUnset, WritesUnset, ValueOf, Xor, Clobbers, OpenSum, SetStay;
    if order != [] {
      var k, m := order[|order| - 1], |order| - 1;
      var y := UnpeelStep(p, x, sign, vals[k], k, random);
      OwnersLast(p.g, later, order);
      OneUnset(p, k, later, x, sign);
      StepSolves(p, x, sign, vals[k], k, random);
      StepWrites(p, x, y, sign, later, k);
      UnpeeledStays(p, y, sign, vals, order[..m], random);
      OpenValue(p, y, sign, z, k);
      SameIff(vals[k], OpenSum(p, y, sign, z, k));
      PeeledExactly(p, y, sign, vals, order[..m], later + {k}, random, z);
      assert order == order[..m] + [k];
    }
  }

  /** From a solved core, every key comes out right if and only if the variables left unset cancel. */
  lemma RightExactlyWhen(p: Params, x: seq<GF>, sign: seq<bool>, vals: map<Key, GF>, order: seq<Key>, core: set<Key>, random: (Key, nat) -> GF)
    requires Fits(p, x) && |sign| == 3 * p.size && forall k | k in order :: k in vals
    requires OwnersInOrder(p.g, core, order) && UnsetOutside(p, x, sign, core)
    requires SetWithin(p, x, sign, core) && SaysRight(p, x, vals, core)
    ensures var z := Unpeeled(p, x, sign, vals, order, random);
            && SaysRight(p, z, vals, core)
            && (SaysRight(p, z, vals, core + Elements(order)) <==> OpenCancel(p, x, sign, vals, order, random, z))
  {
    hide OwnersInOrder, UnsetOutside, SetWithin, ValueOf, OpenCancel, Unpeeled;
    var z := Unpeeled(p, x, sign, vals, order, random);
    CoreStaysRight(p, x, sign, vals, order, core, random);
    PeeledExactly(p, x, sign, vals, order, core, random, z);
    assert forall k | k in order :: k in Elements(order);
  }

  // One variable left unset

  /** Some step of order, the last first, gives variable i a non-zero value. */
  ghost predicate WritesLater(p: Params, x: seq<GF>, sign: seq<bool>, vals: map<Key, GF>, order: seq<Key>, random: (Key, nat) -> GF, i: nat)
    requires Fits(p, x) && |sign| == 3 * p.size && i < |sign| && forall k | k in order :: k in vals
    decreases |order|
  {
    order != [] &&
    var k, m := order[|order| - 1], |order| - 1;
    var y := UnpeelStep(p, x, sign, vals[k], k, random);
    (Unset(x, sign, i) && y[i] != Zero) || WritesLater(p, y, sign, vals, order[..m], random, i)
  }

  /** An unset variable ends non-zero exactly when some step writes a non-zero value to it. */
  lemma {:induction false} EndsWritten(p: Params, x: seq<GF>, sign: seq<bool>, vals: map<Key, GF>, order: seq<Key>, random: (Key, nat) -> GF, i: nat)
    requires Fits(p, x) && |sign| == 3 * p.size && i < |sign| && forall k | k in order :: k in vals
    requires x[i] == Zero && !sign[i]
    ensures Unpeeled(p, x, sign, vals, order, random)[i] != Zero <==> WritesLater(p, x, sign, vals, order, random, i)
    decreases |order|
  {
    hide UnpeelStep;
    if order != [] {
      var k, m := order[|order| - 1], |order| - 1;
      var y := UnpeelStep(p, x, sign, vals[k], k, random);
      if y[i] == Zero {
        EndsWritten(p, y, sign, vals, order[..m], random, i);
      } else {
        UnpeeledStays(p, y, sign, vals, order[..m], random);
      }
    }
  }

  /** Variable i is the only one of the key that is still unset. */
  ghost predicate OnlyOpen(p: Params, x: seq<GF>, sign: seq<bool>, k: Key, i: nat)
    requires Fits(p, x) && |sign| == 3 * p.size
  {
    i in Cells(p, k) && forall j | j in Cells(p, k) :: j < |sign| && (Unset(x, sign, j) <==> j == i)
  }

  /** A key with one variable left unset is lost exactly when a later step writes a non-zero value there. */
  lemma LostExactlyWhen(p: Params, x: seq<GF>, sign: seq<bool>, vals: map<Key, GF>, order: seq<Key>, random: (Key, nat) -> GF, k: Key, i: nat)
    requires Fits(p, x) && |sign| == 3 * p.size && forall k | k in order :: k in vals
    requires OnlyOpen(p, x, sign, k, i)
    ensures i < |sign|
    ensures ValueOf(p, Unpeeled(p, x, sign, vals, order, random), k) != ValueOf(p, x, k)
       <==> WritesLater(p, x, sign, vals, order, random, i)
  {
    hide ValueOf, Xor, Unpeeled, Index, SetStay;
    var z := Unpeeled(p, x, sign, vals, order, random);
    IndexRange(p, k);
    UnpeeledStays(p, x, sign, vals, order, random);
    OpenValue(p, x, sign, z, k);
    OpenCell(z[i], Zero);
    OpenCell(Zero, z[i]);
    SameIff(ValueOf(p, x, k), OpenSum(p, x, sign, z, k));
    EndsWritten(p, x, sign, vals, order, random, i);
  }
}
