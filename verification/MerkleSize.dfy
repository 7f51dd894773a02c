/** Where the node count of a tree with waiting leaves is wrong. */
module MerkleSize {
  import opened Powers
  import opened MerkleSpec
  import opened MerkleShape
  import opened MerkleZipper
  import opened MerkleTree

  lemma SmallPowersOfTwo()
    ensures IsPow2(1) && IsPow2(2) && IsPow2(4) && IsPow2(8)
  {
    Pow2IsPow2(0);
    Pow2IsPow2(1);
    Pow2IsPow2(2);
    Pow2IsPow2(3);
  }

  lemma FourteenStopAtSix()
    ensures LazyFocus(14) == 6
  {
    hide IsPow2, Split;
    SmallPowersOfTwo();
    SplitUnique(14, 8);
    SplitUnique(6, 4);
    NotPower(4, 1);
    NotPower(4, 2);
    assert LazyFocus(14) == LazyFocus(6);
  }

  /** Fewer leaves, inserted in one go, are always counted right. */
  lemma FewerAreRight(m: nat)
    requires m < 14
    ensures LazyFocus(m) == m
  {
    hide IsPow2, Split;
    SmallPowersOfTwo();
    if m > 8 {
      SplitUnique(m, 8);
    }
    if m >= 2 {
      var r := m - Split(m);
      assert 1 <= r <= 5;
      assert r == 1 || r == 2 || r == 3 || r == 4 || r == 5;
    }
  }

  /** Fourteen leaves make 27 nodes; asked for its size at once, the tree says 11. */
  method FourteenLeaves(h: Hash) returns (t: Tree, r: nat)
    ensures fresh(t) && t.Valid() && t.leaves == seq(14, i => h) && r == 11 != 2 * |t.leaves| - 1
  {
    hide Tree.CoreValid, Tree.WaitingOk, Tree.Inserted, Tree.ZipNodes, LazyFocus;
    t := new Tree();
    for i := 0 to 14
      invariant fresh(t) && fresh(t.Repr) && t.Valid() && t.leaves == seq(i, j => h) && |t.uninserted| >= i
    {
      t.Insert(h);
    }
    r := t.Size();
    FourteenStopAtSix();
  }
}
