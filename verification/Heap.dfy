/** Binary trees laid out in an array: node i has children 2 * i + 1 and 2 * i + 2. */
module Heap {

  function Parent(i: nat): nat {
    if i == 0 then 0 else (i - 1) / 2
  }

  /** Node number j, level by level, of the subtree of root. */
  function Nth(root: nat, j: nat): nat {
    if j == 0 then root
    else if j % 2 == 1 then 2 * Nth(root, (j - 1) / 2) + 1
    else 2 * Nth(root, (j - 1) / 2) + 2
  }

  lemma {:induction false} NthIncreases(root: nat, j: nat)
    ensures Nth(root, j) < Nth(root, j + 1) && Nth(root, j) >= root + j
  {
    if j > 0 {
      NthIncreases(root, (j - 1) / 2);
      if j % 2 == 0 {
        assert (j + 1 - 1) / 2 == (j - 1) / 2 + 1;
      }
    }
  }

  lemma {:induction false} NthMonotone(root: nat, i: nat, j: nat)
    requires i <= j
    ensures Nth(root, i) <= Nth(root, j) && (i < j ==> Nth(root, i) < Nth(root, j))
    decreases j - i
  {
    if i < j {
      NthIncreases(root, j - 1);
      NthMonotone(root, i, j - 1);
    }
  }

  /** The parent of a node other than the root, and on which side it hangs. */
  lemma NthParent(root: nat, j: nat)
    requires j > 0
    ensures Nth(root, j) > 0 && (Nth(root, j) - 1) / 2 == Nth(root, (j - 1) / 2)
    ensures Nth(root, j) % 2 == j % 2
    ensures Nth(root, 0) == root
  {
  }

  lemma NthChild(root: nat, j: nat)
    ensures Nth(root, 2 * j + 1) == 2 * Nth(root, j) + 1 && Nth(root, 2 * j + 2) == 2 * Nth(root, j) + 2
  {
    assert (2 * j + 1 - 1) / 2 == j && (2 * j + 2 - 1) / 2 == j;
  }

  /** Below the roots first, ..., 2 * first every node lies in one of their subtrees. */
  lemma {:induction false} Covered(first: nat, v: nat) returns (i: nat, j: nat)
    requires v >= first
    ensures i <= first && Nth(first + i, j) == v
  {
    hide Nth;
    if v <= 2 * first {
      i, j := v - first, 0;
      NthParent(v, 1);
    } else {
      var k;
      i, k := Covered(first, (v - 1) / 2);
      NthChild(first + i, k);
      j := if v % 2 == 1 then 2 * k + 1 else 2 * k + 2;
    }
  }

  /** And in only one of them. */
  lemma {:induction false} CoveredOnce(first: nat, i: nat, j: nat, i': nat, j': nat)
    requires i <= first && i' <= first && Nth(first + i, j) == Nth(first + i', j')
    ensures i == i' && j == j'
    decreases j
  {
    hide Nth;
    if j > 0 { NthParent(first + i, j); NthIncreases(first + i, (j - 1) / 2); } else { NthParent(first + i, 1); }
    if j' > 0 { NthParent(first + i', j'); NthIncreases(first + i', (j' - 1) / 2); } else { NthParent(first + i', 1); }
    if j > 0 && j' > 0 {
      CoveredOnce(first, i, (j - 1) / 2, i', (j' - 1) / 2);
    }
  }

  // Leaves

  /** The points below node i of the tree over n points, left before right. */
  function Leaves(n: nat, i: nat): (r: seq<nat>)
    requires n > 0 && i < 2 * n - 1
    ensures |r| > 0 && forall k | 0 <= k < |r| :: r[k] < n
    decreases 2 * n - 1 - i
  {
    if i >= n - 1 then [i - (n - 1)] else Leaves(n, 2 * i + 1) + Leaves(n, 2 * i + 2)
  }

  predicate Above(v: nat, u: nat)
    decreases u
  {
    u == v || (u > v && Above(v, (u - 1) / 2))
  }

  lemma {:induction false} AboveBoth(a: nat, b: nat, u: nat)
    requires Above(a, u) && Above(b, u) && a <= b
    ensures Above(a, b)
    decreases u
  {
    if u != b {
      AboveBoth(a, b, (u - 1) / 2);
    }
  }

  lemma {:induction false} AboveChild(v: nat, u: nat)
    ensures Above(v, u) <==> u == v || Above(2 * v + 1, u) || Above(2 * v + 2, u)
    decreases u
  {
    if u > v {
      AboveChild(v, (u - 1) / 2);
    }
  }

  lemma {:induction false} LeavesAre(n: nat, i: nat, l: nat)
    requires n > 0 && i < 2 * n - 1
    ensures l in Leaves(n, i) <==> l < n && Above(i, l + n - 1)
    decreases 2 * n - 1 - i
  {
    AboveChild(i, l + n - 1);
    if i >= n - 1 {
      if l < n { TooDeep(n, i, l + n - 1); }
    } else {
      LeavesAre(n, 2 * i + 1, l);
      LeavesAre(n, 2 * i + 2, l);
    }
  }

  lemma TooDeep(n: nat, i: nat, u: nat)
    requires n > 0 && i >= n - 1 && u < 2 * n - 1
    ensures Above(i, u) <==> u == i
  {
    if u > i {
      assert (u - 1) / 2 < i;
    }
  }

  /** Every point is below the root. */
  lemma {:induction false} AboveAll(u: nat)
    ensures Above(0, u)
  {
    if u > 0 {
      AboveAll((u - 1) / 2);
    }
  }

  ghost predicate NoRepeat(s: seq<nat>) {
    forall j, k | 0 <= j < k < |s| :: s[j] != s[k]
  }

  lemma NoRepeatAppend(a: seq<nat>, b: seq<nat>)
    requires NoRepeat(a) && NoRepeat(b) && forall l | l in a :: l !in b
    ensures NoRepeat(a + b)
  {
    forall j, k | 0 <= j < k < |a + b| ensures (a + b)[j] != (a + b)[k] {
      if j < |a| <= k {
        assert (a + b)[j] == a[j] && (a + b)[k] == b[k - |a|];
        assert a[j] in a && b[k - |a|] in b;
      } else if j >= |a| {
        assert (a + b)[j] == b[j - |a|] && (a + b)[k] == b[k - |a|];
      }
    }
  }

  lemma {:induction false} LeavesOnce(n: nat, i: nat)
    requires n > 0 && i < 2 * n - 1
    ensures NoRepeat(Leaves(n, i))
    decreases 2 * n - 1 - i
  {
    if i < n - 1 {
      var a, b := Leaves(n, 2 * i + 1), Leaves(n, 2 * i + 2);
      LeavesOnce(n, 2 * i + 1);
      LeavesOnce(n, 2 * i + 2);
      forall l | l in a ensures l !in b {
        LeavesAre(n, 2 * i + 1, l);
        LeavesAre(n, 2 * i + 2, l);
        if l in b {
          AboveBoth(2 * i + 1, 2 * i + 2, l + n - 1);
        }
      }
      NoRepeatAppend(a, b);
    }
  }
}
