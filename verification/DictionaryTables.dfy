/**
 The oblivious dictionary over three hash tables: peeling with queues, a linear system for the 2-core,
 and back-substitution in reverse peeling order.
 */
module DictionaryTables {
  import opened XorGroup
  import opened Peeling
  import opened Powers

  /** The fixed parameters of a dictionary: size buckets per table, gamma extra variables. */
  datatype Params = Params(g: Graph, dh: (Key, nat) -> bool, size: nat, gamma: nat) {
    ghost predicate Ok() {
      g.tables == 3 && forall t: nat, k: Key :: g.h(t, k) < size
    }
  }

  /** The variable of key k in table t. */
  function Index(p: Params, t: nat, k: Key): nat {
    t * p.size + p.g.h(t, k)
  }

  /** The extra variables selected by the first j hash bits of k, lowest first. */
  function DhIndices(p: Params, k: Key, j: nat): seq<nat> {
    if j == 0 then []
    else if p.dh(k, j - 1) then DhIndices(p, k, j - 1) + [3 * p.size + (j - 1)]
    else DhIndices(p, k, j - 1)
  }

  function Dec(p: Params, k: Key): seq<nat> {
    [Index(p, 0, k), Index(p, 1, k), Index(p, 2, k)] + DhIndices(p, k, p.gamma)
  }

  ghost predicate Ascending(s: seq<nat>) {
    forall a, b | 0 <= a < b < |s| :: s[a] < s[b]
  }

  lemma AscendingAppend(s: seq<nat>, r: seq<nat>)
    requires Ascending(s) && Ascending(r) && forall a, b | a in s && b in r :: a < b
    ensures Ascending(s + r) && forall i :: i in s + r <==> i in s || i in r
  {
    var q := s + r;
    forall a, b | 0 <= a < b < |q| ensures q[a] < q[b] {
      assert a < |s| <= b ==> q[a] in s && q[b] in r;
      assert |s| <= a ==> q[a] == r[a - |s|] && q[b] == r[b - |s|];
      assert b < |s| ==> q[a] == s[a] && q[b] == s[b];
    }
  }

  /** The extra variables of a key ascend, and they are those of the bits that are set. */
  lemma {:induction false} DhIndicesAre(p: Params, k: Key, j: nat)
    ensures var d := DhIndices(p, k, j);
            Ascending(d) && forall i: nat :: i in d <==> 3 * p.size <= i < 3 * p.size + j && p.dh(k, i - 3 * p.size)
  {
    if j > 0 {
      DhIndicesAre(p, k, j - 1);
      AscendingAppend(DhIndices(p, k, j - 1), [3 * p.size + (j - 1)]);
    }
  }

  /** The variables of a key: one in the part of each table, at its bucket there, then one for each hash bit that is set. */
  lemma DecAre(p: Params, k: Key)
    requires p.Ok()
    ensures var d := Dec(p, k);
            && |d| >= 3 && (forall t | 0 <= t < 3 :: d[t] == t * p.size + p.g.h(t, k) < t * p.size + p.size) && Ascending(d)
            && forall i: nat | i >= 3 * p.size :: i in d <==> i < 3 * p.size + p.gamma && p.dh(k, i - 3 * p.size)
  {
    hide DhIndices;
    DhIndicesAre(p, k, p.gamma);
    IndexRange(p, k);
    AscendingAppend([Index(p, 0, k), Index(p, 1, k), Index(p, 2, k)], DhIndices(p, k, p.gamma));
  }

  /** The sum of x[base + i] over the hash bits i < j of k that are set. */
  function DhSum(p: Params, x: seq<GF>, base: nat, k: Key, j: nat): GF
    requires base + j <= |x|
  {
    if j == 0 then Zero
    else if p.dh(k, j - 1) then Xor(DhSum(p, x, base, k, j - 1), x[base + (j - 1)])
    else DhSum(p, x, base, k, j - 1)
  }

  ghost predicate Fits(p: Params, x: seq<GF>) {
    p.Ok() && |x| == 3 * p.size + p.gamma
  }

  lemma IndexRange(p: Params, k: Key)
    requires p.Ok()
    ensures Index(p, 0, k) < p.size <= Index(p, 1, k) < 2 * p.size <= Index(p, 2, k) < 3 * p.size
  {
  }

  /** What the variables say about key k. */
  ghost function ValueOf(p: Params, x: seq<GF>, k: Key): GF
    requires Fits(p, x)
  {
    IndexRange(p, k);
    Xor(Xor(Xor(x[Index(p, 0, k)], x[Index(p, 1, k)]), x[Index(p, 2, k)]), DhSum(p, x, 3 * p.size, k, p.gamma))
  }

  function At(x: seq<GF>, i: nat): GF {
    if i < |x| then x[i] else Zero
  }

  function Gather(x: seq<GF>, indices: seq<nat>): seq<GF> {
    seq(|indices|, j requires 0 <= j < |indices| => At(x, indices[j]))
  }

  lemma GatherSnoc(x: seq<GF>, indices: seq<nat>, i: nat)
    ensures Gather(x, indices + [i]) == Gather(x, indices) + [At(x, i)]
  {
  }

  lemma {:induction false} DhGather(p: Params, x: seq<GF>, k: Key, j: nat)
    requires Fits(p, x) && j <= p.gamma
    ensures XorSum(Gather(x, DhIndices(p, k, j))) == DhSum(p, x, 3 * p.size, k, j)
  {
    if j > 0 {
      DhGather(p, x, k, j - 1);
      if p.dh(k, j - 1) {
        GatherSnoc(x, DhIndices(p, k, j - 1), 3 * p.size + (j - 1));
        XorSumSnoc(Gather(x, DhIndices(p, k, j - 1)), x[3 * p.size + (j - 1)]);
      }
    }
  }

  /** The sum over dec(k), which decode computes, is what the variables say about k. */
  lemma SumOverDec(p: Params, x: seq<GF>, k: Key)
    requires Fits(p, x)
    ensures XorSum(Gather(x, Dec(p, k))) == ValueOf(p, x, k)
  {
    hide Xor, XorSum, DhSum, DhIndices, Index;
    IndexRange(p, k);
    var a, b, c := Index(p, 0, k), Index(p, 1, k), Index(p, 2, k);
    var tail := DhIndices(p, k, p.gamma);
    assert Gather(x, [a, b, c] + tail) == [x[a], x[b], x[c]] + Gather(x, tail);
    XorSumAppend([x[a], x[b], x[c]], Gather(x, tail));
    DhGather(p, x, k, p.gamma);
    ThreeSum(x[a], x[b], x[c]);
  }

  lemma ThreeSum(a: GF, b: GF, c: GF)
    ensures XorSum([a, b, c]) == Xor(Xor(a, b), c)
  {
    hide Xor, XorSum;
    XorSumSnoc([a, b], c);
    XorSumSnoc([a], b);
    XorSumSnoc([], a);
    assert [a, b] + [c] == [a, b, c] && [a] + [b] == [a, b] && [] + [a] == [a];
    EmptySum(a);
  }

  lemma EmptySum(a: GF)
    ensures XorSum([]) == Zero && Xor(Zero, a) == a && Xor(a, Zero) == a
  {
  }

  /** Two variable vectors that agree on the cells of k say the same about k. */
  lemma {:induction false} DhSumSame(p: Params, x: seq<GF>, y: seq<GF>, base: nat, k: Key, j: nat)
    requires base + j <= |x| && base + j <= |y| && forall i | base <= i < base + j :: x[i] == y[i]
    ensures DhSum(p, x, base, k, j) == DhSum(p, y, base, k, j)
  {
    if j > 0 {
      DhSumSame(p, x, y, base, k, j - 1);
    }
  }

  // The linear system of the core

  /** The sum of x over the columns below n that are set in the row. */
  ghost function RowSum(row: seq<bool>, x: seq<GF>, n: nat): GF
    requires n <= |row| == |x|
  {
    if n == 0 then Zero
    else if row[n - 1] then Xor(RowSum(row, x, n - 1), x[n - 1])
    else RowSum(row, x, n - 1)
  }

  /** A solution of the system, as the external solver is assumed to return. */
  ghost predicate Solves(matrix: seq<seq<bool>>, values: seq<GF>, x: seq<GF>) {
    && |matrix| == |values|
    && forall r | 0 <= r < |matrix| :: |matrix[r]| == |x| && RowSum(matrix[r], x, |x|) == values[r]
  }

  /** The row of key k: one column for its bucket in each table, then its hash bits. */
  ghost predicate IsRow(p: Params, row: seq<bool>, k: Key, cols: seq<map<nat, nat>>, m: nat) {
    && |cols| == 3 && |row| == 3 * m + p.gamma
    && (forall t | 0 <= t < 3 :: p.g.h(t, k) in cols[t] && cols[t][p.g.h(t, k)] < m)
    && (forall t, c | 0 <= t < 3 && t * m <= c < t * m + m :: row[c] <==> c == t * m + cols[t][p.g.h(t, k)])
    && (forall j | 0 <= j < p.gamma :: row[3 * m + j] <==> p.dh(k, j))
  }

  lemma {:induction false} RowSumOne(row: seq<bool>, x: seq<GF>, a: nat, b: nat, c: nat)
    requires a <= b <= |row| == |x| && forall i | a <= i < b :: row[i] <==> i == c
    ensures RowSum(row, x, b) == if a <= c < b then Xor(RowSum(row, x, a), x[c]) else RowSum(row, x, a)
    decreases b
  {
    if a < b {
      RowSumOne(row, x, a, b - 1, c);
    }
  }

  lemma {:induction false} RowSumDh(p: Params, row: seq<bool>, x: seq<GF>, base: nat, k: Key, j: nat)
    requires base + j <= |row| == |x| && forall i | 0 <= i < j :: row[base + i] <==> p.dh(k, i)
    ensures RowSum(row, x, base + j) == Xor(RowSum(row, x, base), DhSum(p, x, base, k, j))
  {
    var s := RowSum(row, x, base);
    if j == 0 {
      EmptySum(s);
    } else {
      RowSumDh(p, row, x, base, k, j - 1);
      assert base + j - 1 == base + (j - 1);
      XorLaws(s, DhSum(p, x, base, k, j - 1), x[base + (j - 1)]);
    }
  }

  /** What an equation of the system says. */
  lemma RowMeans(p: Params, row: seq<bool>, k: Key, cols: seq<map<nat, nat>>, m: nat, x: seq<GF>)
    requires IsRow(p, row, k, cols, m) && |x| == |row|
    ensures var c := seq(3, t requires 0 <= t < 3 => t * m + cols[t][p.g.h(t, k)]);
            && c[0] < m <= c[1] < 2 * m <= c[2] < 3 * m <= |x|
            && RowSum(row, x, |x|) == Xor(Xor(Xor(x[c[0]], x[c[1]]), x[c[2]]), DhSum(p, x, 3 * m, k, p.gamma))
  {
    hide Xor, RowSum, DhSum;
    var c0, c1, c2 := cols[0][p.g.h(0, k)], m + cols[1][p.g.h(1, k)], 2 * m + cols[2][p.g.h(2, k)];
    assert forall c | 0 * m <= c < 0 * m + m :: row[c] <==> c == 0 * m + c0;
    assert forall c | 1 * m <= c < 1 * m + m :: row[c] <==> c == 1 * m + cols[1][p.g.h(1, k)];
    assert forall c | 2 * m <= c < 2 * m + m :: row[c] <==> c == 2 * m + cols[2][p.g.h(2, k)];
    RowSumOne(row, x, 0, m, c0);
    RowSumOne(row, x, m, 2 * m, c1);
    RowSumOne(row, x, 2 * m, 3 * m, c2);
    RowSumNone(row, x);
    EmptySum(x[c0]);
    RowSumDh(p, row, x, 3 * m, k, p.gamma);
  }

  lemma RowSumNone(row: seq<bool>, x: seq<GF>)
    requires |row| == |x|
    ensures RowSum(row, x, 0) == Zero
  {
  }

  /** The system under construction: rows, right-hand sides, and the column given to each bucket. */
  datatype System = System(matrix: seq<seq<bool>>, values: seq<GF>, cols: seq<map<nat, nat>>, counters: seq<nat>)

  ghost predicate Bounded(sys: System) {
    && |sys.cols| == 3 == |sys.counters|
    && forall t, b | 0 <= t < 3 && b in sys.cols[t] :: sys.cols[t][b] < sys.counters[t]
  }

  ghost predicate Extends(cols: seq<map<nat, nat>>, cols': seq<map<nat, nat>>) {
    && |cols| == |cols'| == 3
    && forall t, b | 0 <= t < 3 && b in cols[t] :: b in cols'[t] && cols'[t][b] == cols[t][b]
  }

  ghost predicate SystemOk(p: Params, sys: System, rowOf: map<Key, nat>, vals: map<Key, GF>, m: nat) {
    && |sys.matrix| == |sys.values| == |rowOf| <= m && Bounded(sys)
    && (forall t | 0 <= t < 3 :: sys.counters[t] <= |rowOf|)
    && (forall r | 0 <= r < |sys.matrix| :: |sys.matrix[r]| == 3 * m + p.gamma)
    && forall k | k in rowOf :: RowOk(p, sys, rowOf[k], k, vals, m)
  }

  ghost predicate RowOk(p: Params, sys: System, r: nat, k: Key, vals: map<Key, GF>, m: nat)
    requires |sys.matrix| == |sys.values|
  {
    r < |sys.matrix| && IsRow(p, sys.matrix[r], k, sys.cols, m) && k in vals && sys.values[r] == vals[k]
  }

  /** Gives a bucket of table t the next free column if it has none yet. */
  function WithColumn(sys: System, t: nat, b: nat): System
    requires t < |sys.cols| == |sys.counters|
  {
    if b in sys.cols[t] then sys
    else
      var col: map<nat, nat> := sys.cols[t] + map[b := sys.counters[t]];
      sys.(cols := sys.cols[t := col], counters := sys.counters[t := sys.counters[t] + 1])
  }

  function WithColumns(p: Params, sys: System, k: Key): System
    requires |sys.cols| == |sys.counters| == 3
  {
    WithColumn(WithColumn(WithColumn(sys, 0, p.g.h(0, k)), 1, p.g.h(1, k)), 2, p.g.h(2, k))
  }

  lemma ColumnAdded(sys: System, t: nat, b: nat)
    requires Bounded(sys) && t < 3
    ensures var s := WithColumn(sys, t, b);
            && Bounded(s) && Extends(sys.cols, s.cols) && s.matrix == sys.matrix && s.values == sys.values
            && b in s.cols[t] && forall u | 0 <= u < 3 :: s.counters[u] <= sys.counters[u] + if u == t then 1 else 0
  {
  }

  lemma ColumnsAdded(p: Params, sys: System, k: Key)
    requires Bounded(sys)
    ensures var s := WithColumns(p, sys, k);
            && Bounded(s) && Extends(sys.cols, s.cols) && s.matrix == sys.matrix && s.values == sys.values
            && forall t | 0 <= t < 3 :: p.g.h(t, k) in s.cols[t] && s.counters[t] <= sys.counters[t] + 1
  {
    hide WithColumn;
    ColumnAdded(sys, 0, p.g.h(0, k));
    var s1 := WithColumn(sys, 0, p.g.h(0, k));
    ColumnAdded(s1, 1, p.g.h(1, k));
    var s2 := WithColumn(s1, 1, p.g.h(1, k));
    ColumnAdded(s2, 2, p.g.h(2, k));
  }

  /** The three table variables of a key. */
  function Cells(p: Params, k: Key): set<nat> {
    {Index(p, 0, k), Index(p, 1, k), Index(p, 2, k)}
  }

  ghost predicate Touched(p: Params, i: nat, s: set<Key>) {
    exists k | k in s :: i in Cells(p, k)
  }

  /** The values the solution gives to the buckets of k. */
  ghost predicate Copied(p: Params, x: seq<GF>, slim: seq<GF>, cols: seq<map<nat, nat>>, m: nat, k: Key) {
    && |cols| == 3 && Fits(p, x) && |slim| == 3 * m + p.gamma
    && forall t | 0 <= t < 3 ::
         && p.g.h(t, k) in cols[t] && cols[t][p.g.h(t, k)] < m
         && Index(p, t, k) < 3 * p.size && t * m + cols[t][p.g.h(t, k)] < 3 * m
         && x[Index(p, t, k)] == slim[t * m + cols[t][p.g.h(t, k)]]
  }

  lemma {:induction false} DhCopied(p: Params, x: seq<GF>, slim: seq<GF>, m: nat, k: Key, j: nat)
    requires Fits(p, x) && |slim| == 3 * m + p.gamma && j <= p.gamma
    requires x[3 * p.size..] == slim[3 * m..]
    ensures DhSum(p, x, 3 * p.size, k, j) == DhSum(p, slim, 3 * m, k, j)
  {
    if j > 0 {
      DhCopied(p, x, slim, m, k, j - 1);
      assert x[3 * p.size..][j - 1] == slim[3 * m..][j - 1];
    }
  }

  /** A solution of the system, copied back to the buckets, says the right thing about every core key. */
  lemma CoreSolved(p: Params, sys: System, rowOf: map<Key, nat>, vals: map<Key, GF>, m: nat, x: seq<GF>, slim: seq<GF>, k: Key)
    requires SystemOk(p, sys, rowOf, vals, m) && k in rowOf && k in vals
    requires Copied(p, x, slim, sys.cols, m, k) && Fits(p, x) && |slim| == 3 * m + p.gamma
    requires x[3 * p.size..] == slim[3 * m..]
    requires Solves(sys.matrix, sys.values, slim)
    ensures ValueOf(p, x, k) == vals[k]
  {
    hide Xor, DhSum, RowSum;
    assert RowOk(p, sys, rowOf[k], k, vals, m);
    RowMeans(p, sys.matrix[rowOf[k]], k, sys.cols, m, slim);
    DhCopied(p, x, slim, m, k, p.gamma);
  }
}
