/**
 The index lists that spread a tree over threads, and what a pass over such a list does to an array of nodes in
 which every node has to meet a condition of its own.
 */
module SubTrees {
  import opened Heap

  /** The nodes of the subtree of root below index max, level by level. */
  ghost predicate IsSubTree(list: seq<nat>, root: nat, max: nat) {
    && 0 < |list| && (forall j | 0 <= j < |list| :: list[j] == Nth(root, j) < max)
    && Nth(root, |list|) >= max
  }

  /** One list for each thread, with roots from firstIndex on. */
  ghost predicate AreSubTrees(subs: seq<seq<nat>>, firstIndex: nat, max: nat) {
    forall i | 0 <= i < |subs| :: IsSubTree(subs[i], firstIndex + i, max)
  }

  method GenerateSubTreeArrays(numThreads: nat, totalNodes: nat, firstIndex: nat) returns (subs: seq<seq<nat>>)
    requires firstIndex + numThreads <= totalNodes
    ensures |subs| == numThreads && AreSubTrees(subs, firstIndex, totalNodes)
  {
    hide IsSubTree;
    subs := [];
    for i := 0 to numThreads
      invariant |subs| == i && AreSubTrees(subs, firstIndex, totalNodes)
    {
      var list := GenerateSubTree(firstIndex + i, totalNodes);
      subs := subs + [list];
    }
  }

  /** One list: each entry is a child of an earlier one, until the first that is too large. */
  method GenerateSubTree(root: nat, totalNodes: nat) returns (list: seq<nat>)
    requires root < totalNodes
    ensures IsSubTree(list, root, totalNodes)
  {
    hide Nth;
    NthParent(root, 1);
    list := seq(totalNodes, i => root);
    for j := 1 to totalNodes
      invariant |list| == totalNodes && forall k | 0 <= k < j :: list[k] == Nth(root, k) < totalNodes
    {
      NthParent(root, j);
      var next := if j % 2 == 1 then 2 * list[Parent(j)] + 1 else 2 * list[Parent(j)] + 2;
      list := list[j := next];
      if next >= totalNodes {
        list := list[..j];
        return;
      }
    }
    NthIncreases(root, totalNodes);
  }

  /** Node v of the tree over n points has two children. */
  predicate HasChildren(v: nat, n: nat) {
    2 * v + 2 < 2 * n - 1
  }

  /** What 2 * numThreads <= n is for: exactly then every root of a thread has the children that it is computed from. */
  lemma RootsAreInner(numThreads: nat, n: nat)
    requires 0 < numThreads && 0 < n
    ensures 2 * numThreads <= n <==> forall v: nat | numThreads - 1 <= v < 2 * numThreads - 1 :: HasChildren(v, n)
  {
    var last: nat := 2 * numThreads - 2;
    assert HasChildren(last, n) <==> 2 * numThreads <= n;
  }

  /** With numThreads roots from numThreads - 1 on, every node from there up to max is in exactly one list, at one place. */
  lemma VisitedOnce(subs: seq<seq<nat>>, max: nat, v: nat) returns (i: nat, j: nat)
    requires |subs| > 0 && AreSubTrees(subs, |subs| - 1, max)
    requires |subs| - 1 <= v < max
    ensures i < |subs| && j < |subs[i]| && subs[i][j] == v
    ensures forall i', j' | 0 <= i' < |subs| && 0 <= j' < |subs[i']| && subs[i'][j'] == v :: i' == i && j' == j
  {
    hide Nth;
    i, j := Covered(|subs| - 1, v);
    if j >= |subs[i]| {
      NthMonotone(|subs| - 1 + i, |subs[i]|, j);
      assert false;
    }
    forall i', j' | 0 <= i' < |subs| && 0 <= j' < |subs[i']| && subs[i'][j'] == v ensures i' == i && j' == j {
      CoveredOnce(|subs| - 1, i, j, i', j');
    }
  }

  /** Different threads have different nodes. */
  lemma ListsApart(subs: seq<seq<nat>>, max: nat, t: nat, u: nat)
    requires t < |subs| && u < |subs| && t != u && AreSubTrees(subs, |subs| - 1, max)
    ensures forall v | v in subs[t] :: v !in subs[u]
  {
    hide Nth;
    forall v | v in subs[t] ensures v !in subs[u] {
      if v in subs[u] {
        var j :| 0 <= j < |subs[t]| && subs[t][j] == v;
        var j' :| 0 <= j' < |subs[u]| && subs[u][j'] == v;
        CoveredOnce(|subs| - 1, t, j, u, j');
      }
    }
  }

  /** A list holds nothing above its root and nothing from max on. */
  lemma ListWithin(list: seq<nat>, root: nat, max: nat)
    requires IsSubTree(list, root, max)
    ensures forall v | v in list :: root <= v < max
  {
    hide Nth;
    forall j | 0 <= j < |list| ensures root <= list[j] {
      NthIncreases(root, j);
    }
  }

  lemma ListDistinct(list: seq<nat>, root: nat, max: nat, i: nat, j: nat)
    requires IsSubTree(list, root, max) && i < |list| && j < |list| && i != j
    ensures list[i] != list[j]
  {
    hide Nth;
    if i < j { NthMonotone(root, i, j); } else { NthMonotone(root, j, i); }
  }

  /** The children of entry j are further on in the list, or beyond it. */
  lemma ChildrenInList(list: seq<nat>, root: nat, max: nat, j: nat)
    requires IsSubTree(list, root, max) && j < |list|
    ensures 2 * list[j] + 1 < max ==> 2 * j + 1 < |list| && list[2 * j + 1] == 2 * list[j] + 1
    ensures 2 * list[j] + 2 < max ==> 2 * j + 2 < |list| && list[2 * j + 2] == 2 * list[j] + 2
  {
    hide Nth;
    NthChild(root, j);
    if 2 * j + 1 >= |list| { NthMonotone(root, |list|, 2 * j + 1); }
    if 2 * j + 2 >= |list| { NthMonotone(root, |list|, 2 * j + 2); }
  }

  /** The parent of entry j is earlier in the list; that of entry 0 is the parent of the root. */
  lemma ParentInList(list: seq<nat>, root: nat, max: nat, j: nat)
    requires IsSubTree(list, root, max) && j < |list|
    ensures j == 0 ==> list[j] == root
    ensures j > 0 ==> Parent(list[j]) == list[(j - 1) / 2]
  {
    hide Nth;
    if j == 0 { NthParent(root, 1); } else { NthParent(root, j); }
  }

  // Nodes that meet their condition

  /** The nodes from lo up to hi meet it. */
  ghost predicate Between<P>(ok: (nat, P) -> bool, nodes: seq<P>, lo: nat, hi: nat) {
    hi <= |nodes| && forall v: nat | lo <= v < hi :: ok(v, nodes[v])
  }

  /** The nodes at places i up to k of the list meet it. */
  ghost predicate Listed<P>(ok: (nat, P) -> bool, nodes: seq<P>, list: seq<nat>, i: nat, k: nat) {
    k <= |list| && forall j | i <= j < k :: list[j] < |nodes| && ok(list[j], nodes[list[j]])
  }

  /** The nodes of the first t lists meet it. */
  ghost predicate ListsDone<P>(ok: (nat, P) -> bool, nodes: seq<P>, subs: seq<seq<nat>>, t: nat) {
    t <= |subs| && forall u | 0 <= u < t :: Listed(ok, nodes, subs[u], 0, |subs[u]|)
  }

  /** Only nodes of the list have changed. */
  ghost predicate SameOutside<P(!new)>(before: seq<P>, after: seq<P>, list: seq<nat>) {
    |before| == |after| && forall v: nat | v < |after| && v !in list :: after[v] == before[v]
  }

  lemma BetweenKept<P(!new)>(ok: (nat, P) -> bool, before: seq<P>, after: seq<P>, list: seq<nat>, lo: nat, hi: nat)
    requires Between(ok, before, lo, hi) && SameOutside(before, after, list) && forall v | v in list :: v < lo || v >= hi
    ensures Between(ok, after, lo, hi)
  {
  }

  lemma NextList<P(!new)>(ok: (nat, P) -> bool, before: seq<P>, after: seq<P>, subs: seq<seq<nat>>, max: nat, t: nat)
    requires t < |subs| && AreSubTrees(subs, |subs| - 1, max) && SameOutside(before, after, subs[t])
    requires ListsDone(ok, before, subs, t) && Listed(ok, after, subs[t], 0, |subs[t]|)
    ensures ListsDone(ok, after, subs, t + 1)
  {
    hide AreSubTrees;
    forall u | 0 <= u < t ensures Listed(ok, after, subs[u], 0, |subs[u]|) {
      ListsApart(subs, max, t, u);
      assert forall j | 0 <= j < |subs[u]| :: subs[u][j] in subs[u];
    }
  }

  /** When all threads are done, so are all nodes. */
  lemma AllLists<P(!new)>(ok: (nat, P) -> bool, nodes: seq<P>, subs: seq<seq<nat>>, max: nat)
    requires |subs| > 0 && AreSubTrees(subs, |subs| - 1, max) && max <= |nodes| && ListsDone(ok, nodes, subs, |subs|)
    ensures Between(ok, nodes, |subs| - 1, max)
  {
    hide AreSubTrees;
    forall v: nat | |subs| - 1 <= v < max ensures ok(v, nodes[v]) {
      var i, j := VisitedOnce(subs, max, v);
      assert Listed(ok, nodes, subs[i], 0, |subs[i]|);
    }
  }

  /** Going up a list: the children of the next node are leaves or done. */
  lemma ChildrenDone<P(!new)>(ok: (nat, P) -> bool, nodes: seq<P>, list: seq<nat>, root: nat, max: nat, i: nat)
    requires |nodes| == 2 * max + 1 && IsSubTree(list, root, max) && i < |list|
    requires Between(ok, nodes, max, |nodes|) && Listed(ok, nodes, list, i + 1, |list|)
    ensures var v := list[i]; v < max && ok(2 * v + 1, nodes[2 * v + 1]) && ok(2 * v + 2, nodes[2 * v + 2])
  {
    hide Nth;
    ChildrenInList(list, root, max, i);
  }

  lemma NextUp<P(!new)>(ok: (nat, P) -> bool, nodes: seq<P>, list: seq<nat>, root: nat, max: nat, i: nat, p: P)
    requires |nodes| == 2 * max + 1 && IsSubTree(list, root, max) && i < |list| && list[i] < max && ok(list[i], p)
    requires Between(ok, nodes, max, |nodes|) && Listed(ok, nodes, list, i + 1, |list|)
    ensures Between(ok, nodes[list[i] := p], max, |nodes|) && Listed(ok, nodes[list[i] := p], list, i, |list|)
  {
    hide IsSubTree;
    forall j | i + 1 <= j < |list| ensures list[j] != list[i] {
      ListDistinct(list, root, max, i, j);
    }
  }

  /** Going down a list. */
  lemma NextDown<P(!new)>(ok: (nat, P) -> bool, nodes: seq<P>, list: seq<nat>, root: nat, max: nat, i: nat, p: P)
    requires IsSubTree(list, root, max) && max <= |nodes| && i < |list| && Listed(ok, nodes, list, 0, i)
    requires list[i] < |nodes| && ok(list[i], p)
    ensures Listed(ok, nodes[list[i] := p], list, 0, i + 1)
  {
    hide IsSubTree;
    forall j | 0 <= j < i ensures list[j] != list[i] {
      ListDistinct(list, root, max, i, j);
    }
  }

  lemma Nothing<P(!new)>(ok: (nat, P) -> bool, nodes: seq<P>, list: seq<nat>, subs: seq<seq<nat>>, v: nat)
    ensures Listed(ok, nodes, list, |list|, |list|) && Listed(ok, nodes, list, 0, 0) && ListsDone(ok, nodes, subs, 0)
    ensures v <= |nodes| ==> Between(ok, nodes, v, v)
    ensures SameOutside(nodes, nodes, list)
  {
  }

  lemma OneMore<P(!new)>(ok: (nat, P) -> bool, nodes: seq<P>, lo: nat, hi: nat, p: P)
    requires Between(ok, nodes, lo, hi) && lo <= hi < |nodes| && ok(hi, p)
    ensures Between(ok, nodes[hi := p], lo, hi + 1)
    ensures forall lo', hi' | hi < lo' && Between(ok, nodes, lo', hi') :: Between(ok, nodes[hi := p], lo', hi')
  {
  }

  lemma Join<P(!new)>(ok: (nat, P) -> bool, nodes: seq<P>, lo: nat, mid: nat, hi: nat)
    requires lo <= mid <= hi
    ensures Between(ok, nodes, lo, mid) && Between(ok, nodes, mid, hi) <==> Between(ok, nodes, lo, hi) && mid <= |nodes|
  {
  }
}
