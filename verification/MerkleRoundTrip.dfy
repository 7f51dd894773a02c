/** What goes through bytes comes back: whole trees, and segments as retraction and flushing would leave them. */
module MerkleRoundTrip {
  import opened Options
  import opened MerkleSpec
  import opened MerkleShape
  import opened MerkleCodec
  import opened MerkleRows
  import opened MerkleTree

  lemma EnoughBytes(bytes: seq<byte>, position: nat, ls: seq<Hash>, f: nat)
    requires EncodedAt(bytes, position, ls, f)
    ensures position + 16 <= |bytes|
    ensures position + 16 + Value(bytes[position..position + 8]) * HASH_SIZE <= |bytes|
  {
    hide Value, Encoding, Concat, Extras;
    EncodedParts(bytes, position, ls, f);
  }

  /** A tree read back from its bytes, wherever they stand, has its leaves, its flushed prefix, its root and its paths. */
  method RoundTrip(t: Tree, before: seq<byte>, after: seq<byte>, index: nat)
    returns (u: Tree, position: Option<nat>, root: Option<Hash>, path: Option<Path>)
    requires t.Valid()
    modifies t`leafNodes, t`uninserted, t`root, t`insertionStack, t`zip, t`Repr, t.Repr
    ensures t.Valid() && u.Valid() && fresh(u)
    ensures u.leaves == t.leaves && u.numFlushed == t.numFlushed
    ensures position == Some(|before| + |Encoding(t.leaves, t.numFlushed)|)
    ensures root == if t.leaves == [] then None else Some(Mth(t.leaves))
    ensures path == if t.numFlushed <= index < |t.leaves|
                    then Some(Path(t.leaves[index], index, MPath(t.leaves, index), |t.leaves| - 1)) else None
  {
    hide Encoding, EncodedAt, Value, Mth, MPath, Tree.CoreValid, Tree.WaitingOk, Tree.Inserted, Tree.ZipNodes;
    t.Counted();
    SmallEnough(t);
    ghost var ls, f := t.leaves, t.numFlushed;
    var bytes := t.Serialise(before);
    EncodedAnywhere(before, ls, f, after);
    u := new Tree();
    EnoughBytes(bytes + after, |before|, ls, f);
    position := u.Deserialise(bytes + after, |before|, ls, f);
    root := u.Root();
    path := u.PathTo(index);
  }

  /** A segment read back is the tree that retracting to its last leaf and flushing to its first one leaves. */
  method SegmentRoundTrip(t: Tree, from: nat, to: nat) returns (u: Tree, kept: Option<Hash>, read: Option<Hash>)
    requires t.Valid() && t.numFlushed <= from <= to < |t.leaves|
    modifies t, t.Repr
    ensures t.Valid() && u.Valid() && fresh(u)
    ensures u.leaves == t.leaves == old(t.leaves)[..to + 1] && u.numFlushed == t.numFlushed == from
    ensures kept == read == Some(Mth(old(t.leaves)[..to + 1]))
  {
    hide Encoding, EncodedAt, Value, Mth, Tree.CoreValid, Tree.WaitingOk, Tree.Inserted, Tree.ZipNodes;
    t.Counted();
    ghost var ls := t.leaves[..to + 1];
    SmallEnough(t);
    var bytes := t.SerialiseSegment(from, to, []);
    EncodedAnywhere([], ls, from, []);
    assert [] + Encoding(ls, from) + [] == [] + Encoding(ls, from);
    u := new Tree();
    EnoughBytes(bytes.value, 0, ls, from);
    var position := u.Deserialise(bytes.value, 0, ls, from);
    var retracted := t.RetractTo(to);
    var flushed := t.FlushTo(from);
    kept := t.Root();
    read := u.Root();
  }

  lemma SmallEnough(t: Tree)
    requires t.Valid()
    ensures |t.leaves| <= MAX_LEAVES
  {
    hide Tree.CoreValid, Tree.Inserted, Tree.ZipNodes;
  }
}
