# Verified models of the PSI and commitment code

Dafny models of the parts of this repository that carry its hard guarantees, with proofs of those guarantees:
the lazily built Merkle tree of merklecpp, the oblivious dictionary and its star construction, the arithmetic and
the streaming hashes of Monocypher and xxHash, the threaded product-tree interpolation, and the toy KZG commitment.
To verify: `dafny verify dfyconfig.toml`.

The code works in place, and so do the models: classes with the fields of the original objects, loops over arrays
and sequences, explicit stacks and queues. Each is proved against a mathematical description that says nothing about
how the code goes about it, and the promises of the library are stated about that description.

**Merkle tree** (`Merkle*.dfy`). The abstract state is the sequence of all leaf hashes and the number of flushed ones.
`MerkleSpec` gives the recursive hash (split at the largest power of two below the length), the paths, and what they
fold to, for any binary hash function and any hash size. `MerkleShape` ties heap nodes to shapes and says which shape
is canonical; `MerkleZipper` reads root and insertion stack as a zipper whose plugged tree is always canonical;
`MerkleWalk`, `MerklePast`, `MerkleFlush` and `MerkleRetract` hold the walks; `MerkleCodec` and `MerkleRows` the byte
format; `MerkleTree` the class itself and `MerkleRoundTrip` the round trips. Since every operation states leaves and
flushed number and keeps the invariant, the results hold for every sequence of operations. The one operation that does
not do what its comment says is `size()`: `MerkleTree.Tree.Size` has the exact condition and `MerkleSize.FourteenLeaves`
the smallest input of leaves inserted in one go. Trees have at most 2^29 leaves, where the shift in `is_full` is still
right.

**Oblivious dictionary** (`XorGroup`, `Peeling*`, `BackSubstitution`, `LateWrites`, `Dictionary*`, `Star*`). Keys
are hyperedges over two or three tables. Peeling is proved to find the 2-core whatever its order, unpeeling is a triangular
back-substitution, and the star construction repairs one bin that failed. GF(2^k) is the group of finite sets under
symmetric difference; hash functions are fixed functions into the tables, random bytes are arbitrary values, and the
linear solver is a parameter of which only "A * X = B" is ever used.

The encode-then-decode promise is false without a condition: the code takes a zero with sign 0 for "unset", so a zero
written while unpeeling can be overwritten later. `DictionaryRuns.LostKey` builds a dictionary of two keys, encodes it,
and decodes the wrong value. A variable that does not look unset is never written again, so core keys of a solved system
are always right; a peeled key is right if and only if the final values of those of its variables that look unset after
its own step cancel (`LateWrites.RightExactlyWhen`), and a key with one such variable is lost if and only if a later step
writes a non-zero value there (`LateWrites.LostExactlyWhen`). A run is called sound if its system is solved and no zero in
use is overwritten; runs that write no zero are sound, and `BackSubstitution.ZeroFreeWhen` says of the values drawn when
that is so. `DictionaryRuns` and `StarRuns` follow both dictionaries from
construction to decoding.

**Monocypher and xxHash** (`Words`, `Bits`, `Limbs`, `Sliding`, `Ladder`, `ModL`, `PolyBlock`, `Poly1305`, `Blake2b`,
`Argon*`, `Field*`, `Xxh64*`, `XorWords`). Machine words are bounded integers, so that every store into a 32- or 64-bit variable is a
proof that nothing overflows unless the model says that it wraps. `Val` reads a sequence of limbs or bytes as a number.
The streaming classes carry the message as a ghost field; what they compute depends on the message alone, not on the
splits. `Xxh64Values` derives the eight values of XXH64 that its test program lists. The comment on `slide_ctx` promises digits below 2^width; the digits stay below 2^(width-1), as the tables need.

**Interpolation** (`Fields`, `Polynomials`, `PolyRing`, `PolyRoots`, `PointProducts`, `Heap`, `SubTrees`, `Interpolation`,
`ProductTree`). Over any field, with the polynomial remainder of the library as a contract. Threads have disjoint nodes,
so their order does not matter, and one is taken after the other. The condition 2 * numThreads <= n says exactly that all
thread roots have the two children that they are computed from (`SubTrees.RootsAreInner`).

**KZG** (`Kzg`). Group elements are their exponents to a fixed generator, so that a pairing is a product.

## Model

| member | source | states |
|---|---|---|
| `MerkleTree.Tree.Insert` | merklecpp/merklecpp.h:759-766 | appends one leaf hash to the abstract leaf sequence; the leaf waits, and the tree invariant is kept |
| `MerkleTree.Tree.constructor` | merklecpp/merklecpp.h:694 | the empty tree |
| `MerkleTree.Tree.ContinueInsertionStack` | merklecpp/merklecpp.h:1702-1737 | from any valid pending stack the descent reaches a full subtree without ever turning left; plugging stack and focus together gives the same tree as before, and the new top joins that full subtree and the leaf |
| `MerkleTree.Tree.ProcessInsertionStack` | merklecpp/merklecpp.h:1742-1788 | completing one or all entries plugs to the same tree, leaves sizes and heights right, empties the stack when asked to, and otherwise stops at a subtree that is not full |
| `MerkleTree.Tree.InsertLeaf` | merklecpp/merklecpp.h:1793-1806 | keeps the zipper invariant and appends the leaf to the leaves under the plugged tree |
| `MerkleTree.Tree.InsertLeaves` | merklecpp/merklecpp.h:1811-1826 | all waiting leaves enter the tree; with `complete` no stack is left pending; the abstract leaves do not change |
| `MerkleZipper.MarkDirty` | merklecpp/merklecpp.h:1720-1734 | one step of the descent: the node goes on the stack, turned right and dirty, and nothing is lost |
| `MerkleZipper.Attach` | merklecpp/merklecpp.h:1759-1773 | popping an entry hangs the result below it, with right sizes and dirty flag |
| `MerkleShape.Node.UpdateSizes` | merklecpp/merklecpp.h:651-661 | size and height from the children, one for a leaf |
| `MerkleZipper.GrowsPlug` | merklecpp/merklecpp.h:1742-1788 | replacing the open subtree by one with one more leaf yields the canonical tree over one more leaf, for every pending stack |
| `MerkleZipper.OpenAbovePartial` | merklecpp/merklecpp.h:1725-1734 | if the subtree in focus is not full, everything to its left is: the left branch of the descent is dead |
| `MerkleShape.FullIffSize` | merklecpp/merklecpp.h:641-648 | the size test of `is_full` holds exactly for perfect subtrees (heights below 31) |
| `MerkleShape.CanonUnique` | merklecpp/merklecpp.h:1645-1826 | for given numbers of leaves and flushed leaves there is exactly one canonical shape, so history leaves no trace in the tree |
| `MerkleShape.HashNode` | merklecpp/merklecpp.h:1645-1680 | the explicit stack cleans every dirty node below and changes nothing but hashes and dirty flags; clean nodes carry the recursive hash of their leaves |
| `MerkleTree.Tree.ComputeRoot` | merklecpp/merklecpp.h:1683-1695 | fails exactly on the empty tree; otherwise no leaf waits, no stack is pending and the root is clean |
| `MerkleTree.Tree.Root` | merklecpp/merklecpp.h:932-942 | for every run of inserts, roots, flushes and retractions the root is the recursive Merkle hash of all leaves |
| `MerkleZipper.SettleSize` | merklecpp/merklecpp.h:1753-1783 | the subtree at which a lazy insertion stops is determined by the number of leaves alone |
| `MerkleTree.Tree.Size` | merklecpp/merklecpp.h:1447-1452 | with leaves waiting, the size of the subtree that their insertion stops at, which is the number of nodes exactly for those leaf counts that stop at the top; with none waiting, the number of nodes exactly when no insertion stack was pending |
| `MerkleSize.FourteenLeaves` | merklecpp/merklecpp.h:1447-1452 | an input for which it is wrong: 14 leaves in one go are 27 nodes, and the size is 11 |
| `MerkleSize.FewerAreRight` | merklecpp/merklecpp.h:1447-1452 | fewer leaves in one go are counted right |
| `MerkleTree.Tree.WalkTo` | merklecpp/merklecpp.h:978-1024 | succeeds exactly for live indices, ends at the leaf of that index, and its turns are the path in the tree |
| `MerkleWalk.TurnTaken` | merklecpp/merklecpp.h:986-1014 | at each level the top bit of the shifted index says whether the leaf is to the right, and a level that the subtree is too low for has bit zero |
| `MerkleWalk.Descend` | merklecpp/merklecpp.h:986-1014 | the bit-driven loop that skips levels reaches the leaf at the index with the turns of the recursive descent |
| `MerkleTree.Tree.PathTo` | merklecpp/merklecpp.h:1029-1045 | the path of a live leaf, element for element; none for other indices |
| `MerkleTree.Path.Root` | merklecpp/merklecpp.h:323-353 | hashes the elements in order, each on the side its direction says |
| `MerkleTree.Path.Verify` | merklecpp/merklecpp.h:358-361 | accepts exactly the root that the path folds to |
| `MerkleSpec.PathFoldsToRoot` | merklecpp/merklecpp.h:323-353 | the path of every leaf folds to the root, for any hash function |
| `MerkleSpec.PathFoldsToPastRoot` | merklecpp/merklecpp.h:951-969 | folding only the left-joining elements gives the root over the leaves up to that index |
| `MerkleSpec.PathIsBinding` | merklecpp/merklecpp.h:320-361 | another leaf or other siblings along the same directions fold to the root only if the hash function has a collision |
| `MerkleSpec.RootIsBinding` | merklecpp/merklecpp.h:932-942 | two leaf sequences of one length with one root are equal unless the hash function has a collision |
| `MerkleSpec.PastPathStep` | merklecpp/merklecpp.h:1054-1216 | how the path in the tree over the first as_of + 1 leaves sits in the larger tree: before, at and after the fork |
| `MerkleTree.Tree.PastRoot` | merklecpp/merklecpp.h:951-969 | the root over the first index + 1 leaves, for every live index |
| `MerklePast.CollectPastPath` | merklecpp/merklecpp.h:1054-1216 | the walk along the fork of two indices collects exactly the path in the tree over the first as_of + 1 leaves |
| `MerkleTree.Tree.PastPath` | merklecpp/merklecpp.h:1054-1216 | for min_index <= index <= as_of <= max_index the path of index in the tree over the first as_of + 1 leaves, element for element; nothing otherwise |
| `MerkleFlush.ConflateLeft` | merklecpp/merklecpp.h:796-811 | cutting off what is left of the walk leaves sizes, heights, hashes and dirty flags of the pruned tree right |
| `MerkleFlush.PruneCanon` | merklecpp/merklecpp.h:788-817 | the pruned tree is canonical with more leaves flushed, over the same leaf sequence |
| `MerkleFlush.PruneLive` | merklecpp/merklecpp.h:813-816 | dropping the first newly flushed entries leaves the live leaves of the pruned tree |
| `MerkleTree.Tree.FlushTo` | merklecpp/merklecpp.h:788-817 | the leaf sequence, and so the root and every path that is left, stays the same; the number flushed becomes index where that is larger; fails exactly for a future index |
| `MerkleRetract.CutWalk` | merklecpp/merklecpp.h:845-888 | one walk drops right subtrees and eliminates nodes that lose theirs; what is left has the leaves up to the index |
| `MerkleRetract.Eliminate` | merklecpp/merklecpp.h:855-879 | a node that takes the place of its left child is that subtree again |
| `MerkleRetract.RepairSizes` | merklecpp/merklecpp.h:1016-1021 | the recorded nodes, taken from the stack backwards, get their sizes and heights right again, including those the cut removed |
| `MerkleRetract.CutCanon` | merklecpp/merklecpp.h:823-900 | the cut tree is the canonical tree over the first index + 1 leaves under the same flush |
| `MerkleRetract.CutLive` | merklecpp/merklecpp.h:890-897 | the live leaves of the cut tree, with the last one in its new node |
| `MerkleTree.Tree.DropWaiting` | merklecpp/merklecpp.h:834-843 | leaves that wait for insertion are dropped from the end |
| `MerkleTree.Tree.RetractTo` | merklecpp/merklecpp.h:823-900 | afterwards the tree is a valid tree over the first index + 1 leaves, so that everything later goes on as if the others had never existed; unchanged for a future index, refused for a flushed one |
| `MerkleTree.Tree.Leaf` | merklecpp/merklecpp.h:1395-1406 | the hash of a live leaf, inserted or waiting |
| `MerkleCodec.U64RoundTrip` | merklecpp/merklecpp.h:72-88 | the eight bytes written read back as the number |
| `MerkleCodec.U64Bytes` | merklecpp/merklecpp.h:72-77 | byte i of the eight written is the digit of 256^(7 - i): the most significant comes first |
| `MerkleCodec.ValueOfBytes` | merklecpp/merklecpp.h:82-88 | of any eight bytes read, byte i is the digit of 256^(7 - i) of the number |
| `MerkleCodec.ExtrasOfPrefix` | merklecpp/merklecpp.h:1272-1290 | the hashes on the left edge at a leaf do not depend on what comes after it, so a segment can take them from the larger tree |
| `MerkleCodec.ExtrasByLevel` | merklecpp/merklecpp.h:1331-1365 | the left edge as the walk collects it is the left edge level by level, as reading consumes it |
| `MerkleCodec.EdgeDeterminesTree` | merklecpp/merklecpp.h:1304-1374 | live leaves and left edge determine the root and every live path, whatever the flushed leaves were |
| `MerkleTree.Tree.Serialise` | merklecpp/merklecpp.h:1220-1251 | appends the encoding of all live leaves, the number flushed and the left edge; the tree does not change |
| `MerkleTree.Tree.SerialiseSegment` | merklecpp/merklecpp.h:1257-1291 | appends the encoding of the tree over the first to + 1 leaves with `from` leaves flushed; refuses other indices |
| `MerkleRows.AppendExtras` | merklecpp/merklecpp.h:1241-1249 | the hashes of left siblings on the walk, last first, are the left edge |
| `MerkleRows.RestoreEdge` | merklecpp/merklecpp.h:1334-1344 | an odd position reads one hash of the left edge and puts it in front of the row |
| `MerkleRows.PairUp` | merklecpp/merklecpp.h:1351-1358 | joining neighbours makes a row of the next level over the same leaves |
| `MerkleRows.Rebuild` | merklecpp/merklecpp.h:1329-1373 | reading the rows level by level gives the canonical tree over the encoded leaves and consumes all of the edge |
| `MerkleTree.ReadTree` | merklecpp/merklecpp.h:1318-1373 | header, leaves and edge of an encoding as new nodes |
| `MerkleTree.Tree.Deserialise` | merklecpp/merklecpp.h:1304-1374 | for any bytes, leaf count and flushed number decide how many are needed, and it fails exactly when there are fewer; from an encoding, wherever it stands, exactly the bytes written are consumed and the tree is restored |
| `MerkleRoundTrip.RoundTrip` | merklecpp/merklecpp.h:1220-1374 | serialising a tree and reading it back restores leaves, flushed number, root and every path, and consumes exactly what was written |
| `MerkleRoundTrip.SegmentRoundTrip` | merklecpp/merklecpp.h:1257-1374 | reading back a segment from .. to gives the tree that retracting to `to` and flushing to `from` leaves, with the same root |
| `Peeling.PeelStep` | OBDBasedPSI/ObliviousDictionary.cpp:728-739 | removing a key that is alone in a bucket keeps what peeling is about: owners in order, and every core among the keys left |
| `Peeling.TwoCoreUnique` | OBDBasedPSI/ObliviousDictionary.cpp:711-875 | there is one 2-core |
| `Peeling.SweepStarts` | OBDBasedPSI/ObliviousDictionary.cpp:727-796 | the first key that the sweeps peel is the one that is alone in the first such bucket, tables in order |
| `Dictionary.OBD3Tables.constructor` | OBDBasedPSI/ObliviousDictionary.cpp:561-579 | empty tables, and all variables zero and unsigned |
| `Dictionary.OBD3Tables.SetKeysAndVals` | OBDBasedPSI/ObliviousDictionary.h:60-95 | stores the keys, and for each the value at its first occurrence |
| `Dictionary.OBD3Tables.FillTables` | OBDBasedPSI/ObliviousDictionary.cpp:686-709 | puts every key into all three tables |
| `Dictionary.OBD3Tables.Peel` | OBDBasedPSI/ObliviousDictionary.cpp:728-739 | one key leaves all tables and enters the peeling vector |
| `Dictionary.OBD3Tables.SweepFirst` | OBDBasedPSI/ObliviousDictionary.cpp:727-740 | no bucket of the first table is left with one key |
| `Dictionary.OBD3Tables.SweepSecond` | OBDBasedPSI/ObliviousDictionary.cpp:749-767 | nor of the second, and the new ones of the first wait in the queue |
| `Dictionary.OBD3Tables.SweepThird` | OBDBasedPSI/ObliviousDictionary.cpp:774-796 | no bucket of the third table is left with one key, and the new ones of the other tables wait in their queues |
| `Dictionary.OBD3Tables.HandleQueue` | OBDBasedPSI/ObliviousDictionary.cpp:846-875 | although the loop bound shrinks as the queue is popped, every bucket with one key still waits somewhere, and each call on a non-empty queue removes an entry or a key |
| `Dictionary.OBD3Tables.RunPeeling` | OBDBasedPSI/ObliviousDictionary.cpp:711-844 | terminates; the keys left are the 2-core, the peeling vector lists every other key once with a bucket of its own, beginning with the first that is alone, and success means a core of at most v keys |
| `PeelingTwo.OBD2Tables.FillTables` | OBDBasedPSI/ObliviousDictionary.cpp:188-202 | puts every key into both tables |
| `PeelingTwo.OBD2Tables.Peel` | OBDBasedPSI/ObliviousDictionary.cpp:214-221 | one key leaves both tables and enters the peeling vector |
| `PeelingTwo.OBD2Tables.SweepFirst` | OBDBasedPSI/ObliviousDictionary.cpp:211-222 | no bucket of the first table is left with one key |
| `PeelingTwo.OBD2Tables.FollowChain` | OBDBasedPSI/ObliviousDictionary.cpp:238-271 | the chain of removals ends, without leaving a single key in the first table or in a bucket of the second that the sweep has passed |
| `PeelingTwo.OBD2Tables.RunPeeling` | OBDBasedPSI/ObliviousDictionary.cpp:204-290 | the two-table peeler ends at the 2-core too, with every other key listed once and owning a bucket |
| `Dictionary.OBD3Tables.DecIndices` | OBDBasedPSI/ObliviousDictionary.cpp:625-646 | the list of positions that a key selects |
| `DictionaryTables.DecAre` | OBDBasedPSI/ObliviousDictionary.cpp:625-646 | that list ascends: the bucket of the key in the part of each table, then exactly the extra positions whose hash bit is set |
| `DictionaryTables.SumOverDec` | OBDBasedPSI/ObliviousDictionary.cpp:669-682 | summing over the index list is the sum of three positions and the masked extra positions |
| `Dictionary.OBD3Tables.Decode` | OBDBasedPSI/ObliviousDictionary.cpp:669-682 | the value of a key: the sum of the variables it selects |
| `Dictionary.OBD3Tables.BuildSystem` | OBDBasedPSI/ObliviousDictionary.cpp:897-968 | one equation for each core key, with columns numbered as buckets are first met, and the signs set exactly on the positions of core keys |
| `Dictionary.OBD3Tables.AddRow` | OBDBasedPSI/ObliviousDictionary.cpp:921-964 | one more key: its row, its value, its columns and its signs |
| `Dictionary.OBD3Tables.CopySolution` | OBDBasedPSI/ObliviousDictionary.cpp:1002-1019 | every core key has the solution at its positions; other positions are untouched |
| `DictionaryTables.CoreSolved` | OBDBasedPSI/ObliviousDictionary.cpp:994-1019 | a solution of the system, copied back, gives every core key its value |
| `Dictionary.OBD3Tables.GenerateExternalToolValues` | OBDBasedPSI/ObliviousDictionary.cpp:878-1031 | if the solver solves the system then all core keys decode to their values; other variables are untouched |
| `BackSubstitution.StepSolves` | OBDBasedPSI/ObliviousDictionary.cpp:1043-1088 | a key with an unset variable decodes to its value after its step, whatever random values were drawn; every unset variable of it but the first gets the random value drawn for it, and nothing else is written |
| `Dictionary.OBD3Tables.UnpeelKey` | OBDBasedPSI/ObliviousDictionary.cpp:1045-1087 | the branches of one step give the key its value: its first unset variable is solved for, every other unset one gets the random value drawn for it, and everything else stays |
| `Dictionary.OBD3Tables.Unpeeling` | OBDBasedPSI/ObliviousDictionary.cpp:1036-1096 | the countdown loop is back-substitution in the reverse order of peeling |
| `BackSubstitution.UnpeelingSolves` | OBDBasedPSI/ObliviousDictionary.cpp:1036-1096 | if no step writes over a zero that is in use then afterwards all core and peeled keys decode to their values; a run that writes no zero is such a run |
| `LateWrites.UnpeeledStays` | OBDBasedPSI/ObliviousDictionary.cpp:1058-1087 | a variable that the test for unset does not take for one is never written again |
| `LateWrites.CoreStaysRight` | OBDBasedPSI/ObliviousDictionary.cpp:1036-1096 | so every core key of a solved system is right, whatever is unpeeled after it |
| `LateWrites.OpenValue` | OBDBasedPSI/ObliviousDictionary.cpp:1058-1087 | what a key decodes to at the end is what it decoded to before, plus the final values of its variables that were still unset |
| `LateWrites.RightExactlyWhen` | OBDBasedPSI/ObliviousDictionary.cpp:1036-1096 | from a solved core, all keys come out right if and only if, for each peeled key, the final values of those of its variables that are zero with sign 0 after its own step cancel |
| `LateWrites.LostExactlyWhen` | OBDBasedPSI/ObliviousDictionary.cpp:1058-1087 | a key with one such variable is lost if and only if a later step writes a non-zero value there |
| `DictionaryRuns.LostKey` | OBDBasedPSI/ObliviousDictionary.cpp:48-86 | an input for which it fails: two keys, peeled and unpeeled in the order of the code, and key 1 decodes to the value of key 2 |
| `Dictionary.OBD3Tables.SolveAndUnpeel` | OBDBasedPSI/ObliviousDictionary.cpp:878-1096 | from the peeled state to variables that decode every key to its value, for every solver and all random values, when the run is sound |
| `Dictionary.OBD3Tables.Encode` | OBDBasedPSI/ObliviousDictionary.cpp:48-86 | on a fresh dictionary with distinct keys: the 2-core is found, success means it has at most v keys, for a sound run every key decodes to its value; with a solved system core keys always do, and all keys exactly when their unset variables cancel |
| `DictionaryRuns.EncodeThenDecode` | OBDBasedPSI/ObliviousDictionary.cpp:48-86 | a new dictionary given distinct keys, encoded and decoded: the decoded values are the given ones in a sound run, and with a solved system exactly when no key is lost |
| `Dictionary.OBD3Tables.ZeroFreeIsSound` | OBDBasedPSI/ObliviousDictionary.cpp:1036-1096 | a solved system and no zero written while unpeeling make a run sound |
| `BackSubstitution.StepZeroFree` | OBDBasedPSI/ObliviousDictionary.cpp:1058-1087 | one step writes no zero if and only if no value drawn is zero and the key does not have its value already after the draws |
| `BackSubstitution.ZeroFreeWhen` | OBDBasedPSI/ObliviousDictionary.cpp:1036-1096 | so a whole unpeeling writes no zero if and only if that is so in each step |
| `Dictionary.OBD3Tables.LuckyIsSound` | OBDBasedPSI/ObliviousDictionary.cpp:1036-1096 | with a solved system, such values drawn make the run sound, so that every key decodes to its value |
| `Dictionary.OBD3Tables.EmptyCoreIsSolved` | OBDBasedPSI/ObliviousDictionary.cpp:994 | an empty core leaves nothing to solve |
| `Dictionary.OBD3Tables.GenerateRandomEncoding` | OBDBasedPSI/ObliviousDictionary.h:106-156 | all variables are replaced, each by its own random value |
| `Star.StarDictionary.constructor` | OBDBasedPSI/ObliviousDictionary.cpp:1144-1171 | all bins and the centre are new dictionaries of one size and with nothing in them |
| `Star.StarDictionary.SetKeysAndVals` | OBDBasedPSI/ObliviousDictionary.cpp:1173-1203 | every key is placed with its value in its bin, nothing is overwritten, the rest is dummies, and every bin gets its keys and values and nothing else |
| `Star.StarDictionary.Distribute` | OBDBasedPSI/ObliviousDictionary.cpp:1178-1188 | every key gets a place of its own in its bin, in the order of the keys |
| `Star.StarDictionary.FillBin` | OBDBasedPSI/ObliviousDictionary.cpp:1191-1201 | the free places of one bin get dummies, and the bin its keys |
| `Star.StarDictionary.Init` | OBDBasedPSI/ObliviousDictionary.cpp:1205-1211 | every bin has its tables filled with its keys |
| `Star.StarDictionary.Decode` | OBDBasedPSI/ObliviousDictionary.cpp:1288-1300 | bin value plus centre value |
| `Star.EachBinOnce` | OBDBasedPSI/ObliviousDictionary.cpp:1306-1324 | for every number of threads and bins the ranges of the threads partition the bins |
| `Star.MergeFailures` | OBDBasedPSI/ObliviousDictionary.cpp:1329-1344 | merging failure codes of disjoint sets of bins: -1 for none, the bin for one, -2 for several |
| `Star.StarDictionary.PeelMultipleBins` | OBDBasedPSI/ObliviousDictionary.cpp:1471-1484 | peels a range of bins and reports its failures |
| `Star.StarDictionary.PeelBin` | OBDBasedPSI/ObliviousDictionary.cpp:1475 | a bin fails exactly when its 2-core is too large, whatever the order of peeling |
| `Star.StarDictionary.MergeCodes` | OBDBasedPSI/ObliviousDictionary.cpp:1329-1344 | merging the codes of all threads gives the code of all bins |
| `Star.StarDictionary.PeelThreads` | OBDBasedPSI/ObliviousDictionary.cpp:1302-1344 | after all threads the failure index is -1, i or -2 for no failed bin, only bin i, or several |
| `Star.StarDictionary.RepairBin` | OBDBasedPSI/ObliviousDictionary.cpp:1356-1376 | the failed bin holds the random values, position by position, and an encoding of the differences in the centre makes bin and centre together right |
| `Star.StarDictionary.EncodeCentre` | OBDBasedPSI/ObliviousDictionary.cpp:1370-1375 | a sound encoding of the keys of one bin into the centre |
| `Star.StarDictionary.SetNewValsThreads` | OBDBasedPSI/ObliviousDictionary.cpp:1390-1398 | after all threads every value of every other bin is shifted by what the centre says, once |
| `Star.StarDictionary.SetNewVals` | OBDBasedPSI/ObliviousDictionary.cpp:1435-1450 | one range of that |
| `Star.StarDictionary.SetAllVals` | OBDBasedPSI/ObliviousDictionary.cpp:1403-1408 | every other bin gets its keys with the shifted values |
| `Star.StarDictionary.UnpeelThreads` | OBDBasedPSI/ObliviousDictionary.cpp:1414-1424 | after all threads every other bin decodes its shifted values, and the failed bin is untouched |
| `Star.StarDictionary.UnpeelMultipleBins` | OBDBasedPSI/ObliviousDictionary.cpp:1452-1469 | one range of that |
| `Star.StarDictionary.FinishBins` | OBDBasedPSI/ObliviousDictionary.cpp:1390-1424 | new values, keys and unpeeling for all other bins |
| `Star.StarDictionary.FinishEncoding` | OBDBasedPSI/ObliviousDictionary.cpp:1350-1431 | with at most one failed bin, bin and centre together give every key its value, and the one dictionary that is not solved, the centre or the failed bin, holds the random values |
| `Star.StarDictionary.Encode` | OBDBasedPSI/ObliviousDictionary.cpp:1302-1433 | returns true exactly when at most one bin failed, and then bin and centre give every key of every bin its original value, with no failed bin and with one, whenever the encodings made on the way are sound; the dictionary left out of the solving holds the random values |
| `Star.StarDictionary.PlacedRight` | OBDBasedPSI/ObliviousDictionary.cpp:1288-1300 | a key placed in a bin that came out right decodes to its value |
| `StarRuns.RowDistinct` | OBDBasedPSI/ObliviousDictionary.cpp:1178-1201 | distinct keys and distinct dummies make the keys of a bin distinct |
| `StarRuns.EncodeThenDecode` | OBDBasedPSI/ObliviousDictionary.cpp:1144-1433 | a new star dictionary given distinct keys that fit their bins: when it reports success, every key decodes to its value if the encodings made on the way are sound, with no failed bin and with one, and the centre or the failed bin holds the random values |
| `PolyBlock.SumOfRows` | KA-APSI(ours)/cpp_code/monocypher.c:337-342 | the five columns with rr = 5 * r / 4 are the product with r modulo 2^130 - 5 |
| `PolyBlock.MultiplyColumns` | KA-APSI(ours)/cpp_code/monocypher.c:337-342 | no column overflows, and the top ones leave room for the carries |
| `PolyBlock.Reduce` | KA-APSI(ours)/cpp_code/monocypher.c:344-357 | carrying and folding keeps the value modulo 2^130 - 5 and brings the top limb back to at most 4, with no overflow of 32 or 64 bits |
| `PolyBlock.Block` | KA-APSI(ours)/cpp_code/monocypher.c:303-358 | one block: (h + c) * r modulo 2^130 - 5 within the bounds that the comment states |
| `Poly1305.Context.constructor` | KA-APSI(ours)/cpp_code/monocypher.c:366-375 | r is the first half of the key with its bits cleared, the pad is the other half, nothing is absorbed |
| `Poly1305.KeyBytes` | KA-APSI(ours)/cpp_code/monocypher.c:370-374 | r is the number of the first 16 key bytes with the upper four bits of bytes 3, 7, 11 and 15 and the lower two of bytes 4, 8 and 12 cleared (section 2.5 of RFC 8439) |
| `Poly1305.EvaluateIs` | KA-APSI(ours)/cpp_code/monocypher.c:310-364 | the running product and sum is the polynomial whose coefficients are the blocks, the first at the highest power of r |
| `Poly1305.TagIs` | KA-APSI(ours)/cpp_code/monocypher.c:366-440 | the tag in full: that polynomial at the clamped half of the key modulo 2^130 - 5, plus the other half, modulo 2^128 |
| `Poly1305.Context.Blocks` | KA-APSI(ours)/cpp_code/monocypher.c:310-364 | absorbs whole blocks: the accumulator is the polynomial in r over all of them |
| `Poly1305.Context.Update` | KA-APSI(ours)/cpp_code/monocypher.c:377-411 | after any update the accumulator is the polynomial over the whole blocks so far, and the buffer holds exactly the rest |
| `Poly1305.Context.Align` | KA-APSI(ours)/cpp_code/monocypher.c:385-398 | bytes up to a block boundary, and the block when it is complete |
| `Poly1305.Context.Buffer` | KA-APSI(ours)/cpp_code/monocypher.c:406-410 | bytes wait in the buffer |
| `Poly1305.Context.LastBlock` | KA-APSI(ours)/cpp_code/monocypher.c:418-422 | a last incomplete block gets its one after the last byte and is absorbed without the bit at 2^128 |
| `Poly1305.Excess` | KA-APSI(ours)/cpp_code/monocypher.c:424-433 | the carry propagation finds how often 2^130 - 5 must be subtracted |
| `Poly1305.AddPad` | KA-APSI(ours)/cpp_code/monocypher.c:434-438 | word by word addition with carry, stored as bytes |
| `Poly1305.TagArith` | KA-APSI(ours)/cpp_code/monocypher.c:424-438 | adding the carry back is full reduction, modulo 2^128 |
| `Poly1305.Context.Final` | KA-APSI(ours)/cpp_code/monocypher.c:413-440 | the tag is the fully reduced polynomial plus the pad modulo 2^128 (section 2.5 of RFC 8439) |
| `Poly1305.InPieces` | KA-APSI(ours)/cpp_code/monocypher.c:366-449 | every split of a message into updates gives the one tag of key and message |
| `Blake2b.Count` | KA-APSI(ours)/cpp_code/monocypher.c:478-484 | the two-word counter with its carry counts bytes modulo 2^128 |
| `Blake2b.BlockIs` | KA-APSI(ours)/cpp_code/monocypher.c:571-583 | the words of a block are the number of its bytes, what is missing being zero |
| `Blake2b.KeyBlockIs` | KA-APSI(ours)/cpp_code/monocypher.c:540-550 | a key becomes 128 bytes that begin with it and end in zeros; no key, no block |
| `Blake2b.HashSteps` | KA-APSI(ours)/cpp_code/monocypher.c:461-636 | blocks of 128 bytes are compressed in turn, each counted to its end; the last, empty only if everything is, is counted to the end of the data and flagged |
| `Blake2b.TruncatedIs` | KA-APSI(ours)/cpp_code/monocypher.c:629-634 | 64 bytes of hash are the chain as a little-endian number, and a shorter hash is a prefix of them |
| `Blake2b.DigestIs` | KA-APSI(ours)/cpp_code/monocypher.c:626-651 | the digest has min(hash_size, 64) bytes and is the beginning of the chain over key block and message |
| `Blake2b.HoldsByte` | KA-APSI(ours)/cpp_code/monocypher.c:571-573 | or-ing a byte into its word appends it to the bytes that the words hold |
| `Blake2b.HoldsWords` | KA-APSI(ours)/cpp_code/monocypher.c:582-583 | loading words at a word boundary appends their bytes |
| `Blake2b.Context.constructor` | KA-APSI(ours)/cpp_code/monocypher.c:530-551 | a key is a full first block, not compressed yet; without one the buffer is empty |
| `Blake2b.Context.Compress` | KA-APSI(ours)/cpp_code/monocypher.c:461-528 | counts the buffered bytes and then compresses the block at that offset; the rounds themselves are an arbitrary function |
| `Blake2b.Context.AlignWords` | KA-APSI(ours)/cpp_code/monocypher.c:566-577 | byte by byte up to a word boundary or the end |
| `Blake2b.Context.AlignBlocks` | KA-APSI(ours)/cpp_code/monocypher.c:579-586 | word by word up to a block boundary, or fewer than eight bytes are left |
| `Blake2b.Context.Blocks` | KA-APSI(ours)/cpp_code/monocypher.c:588-597 | each block is compressed only when another follows |
| `Blake2b.Context.Remaining` | KA-APSI(ours)/cpp_code/monocypher.c:600-623 | what is left goes to the start of a cleared buffer, or behind bytes already there |
| `Blake2b.Context.Update` | KA-APSI(ours)/cpp_code/monocypher.c:558-624 | after any update the chain has seen all whole blocks but the last, the counter is right, and the words hold exactly the bytes that wait |
| `Blake2b.Context.Final` | KA-APSI(ours)/cpp_code/monocypher.c:626-636 | the hash of all data, in little-endian bytes, cut to min(hash_size, 64) |
| `Blake2b.StoreBytes` | KA-APSI(ours)/cpp_code/monocypher.c:629-634 | whole words and then single bytes are the first bytes of the chain |
| `Blake2b.Keyed` | KA-APSI(ours)/cpp_code/monocypher.c:638-651 | the one-shot hash is the hash of section 3.3 of RFC 7693 for the given compression |
| `Blake2b.InPieces` | KA-APSI(ours)/cpp_code/monocypher.c:558-651 | every split into updates gives the one-shot hash |
| `Argon.ReferenceIsSafe` | KA-APSI(ours)/cpp_code/monocypher.c:860-882 | despite the 32-bit wrap-around the reference block is in range, never the current or previous block of its lane, never in the slice being filled of another lane, and in the first pass already filled (section 3.4.2 of RFC 9106) |
| `Argon.ReferenceIs` | KA-APSI(ours)/cpp_code/monocypher.c:860-882 | which block is referred to: the lane by the high half of the seed, or the own one in the first slice of all; from the newest block that may be referred to, back around the lane by the number of choices times the square of the low half over 2^64, rounded down twice |
| `Argon.SelectorCounts` | KA-APSI(ours)/cpp_code/monocypher.c:876-879 | that distance d satisfies d * 2^64 <= window * j1^2 < (d + 1) * 2^64 + window * 2^32 |
| `Argon.SelectorFalls` | KA-APSI(ours)/cpp_code/monocypher.c:876-879 | a low half of zero refers to the newest block of the window, and a larger one never to a newer |
| `Argon.FillBlockInPlace` | KA-APSI(ours)/cpp_code/monocypher.c:821-892 | one block: the one before it around its lane, the reference and, after the first pass, the old block go into it, and no other block changes; the seed is the index word exactly for Argon2i and the first half of the first pass of Argon2id, else the first word of the previous block |
| `Argon.FillSegmentInPlace` | KA-APSI(ours)/cpp_code/monocypher.c:818-893 | one segment of one lane |
| `Argon.SliceResult` | KA-APSI(ours)/cpp_code/monocypher.c:815-893 | each lane of a slice comes out as if it had been filled alone |
| `Argon.AnyOrder` | KA-APSI(ours)/cpp_code/monocypher.c:815-818 | the segments of a slice may be filled in any order |
| `Argon.OldContentsForgotten` | KA-APSI(ours)/cpp_code/monocypher.c:802-895 | the result depends only on the first two blocks of each lane: every other old block is written before it is read |
| `Argon.Fill` | KA-APSI(ours)/cpp_code/monocypher.c:802-895 | the fill loops are passes of slices of segments of blocks, for any mixing and any index blocks, with constant-time indexing switched off on the way |
| `ArgonOrder.FillOrder` | KA-APSI(ours)/cpp_code/monocypher.c:802-895 | every place of every pass, but the first two blocks of each lane in the first, is filled once, in the order of pass, slice, lane and block |
| `Limbs.Multiply` | KA-APSI(ours)/cpp_code/monocypher.c:1572-1584 | p = a * b + p over limbs, with no lost carry |
| `Limbs.MultiplyLow` | KA-APSI(ours)/cpp_code/monocypher.c:1635-1643 | the low limbs of a product |
| `ModL.IsAboveL` | KA-APSI(ours)/cpp_code/monocypher.c:1586-1596 | the carry is one exactly when x >= L |
| `Limbs.SubtractFrom` | KA-APSI(ours)/cpp_code/monocypher.c:1644-1650 | x - y modulo 2^256 by adding the complement |
| `Limbs.AddTo` | KA-APSI(ours)/cpp_code/monocypher.c:2773-2779 | the sum of 16 limbs |
| `Limbs.StoreBuf` | KA-APSI(ours)/cpp_code/monocypher.c:134-136 | words as bytes: the number stays the same |
| `ModL.RemoveL` | KA-APSI(ours)/cpp_code/monocypher.c:1602-1611 | for x < 2 * L one conditional subtraction gives x mod L, in place too |
| `ModL.Barrett` | KA-APSI(ours)/cpp_code/monocypher.c:1613-1643 | the quotient estimate of a 512-bit x is off by at most one |
| `ModL.Reduce` | KA-APSI(ours)/cpp_code/monocypher.c:1614-1656 | x mod L for every 512-bit x, in bytes |
| `ModL.Montgomery` | KA-APSI(ours)/cpp_code/monocypher.c:2745-2784 | x + s * L is a multiple of 2^256, and the quotient is below 2 * L |
| `ModL.Redc` | KA-APSI(ours)/cpp_code/monocypher.c:2752-2788 | for every x < L * 2^256 the result u is below L and u * 2^256 is x modulo L |
| `Sliding.RoundWindow` | KA-APSI(ours)/cpp_code/monocypher.c:1944-1950 | the signed digit of a window is the difference of the scalar rounded above and below it |
| `Sliding.WindowDigit` | KA-APSI(ours)/cpp_code/monocypher.c:1945-1950 | the loop computes the signed value of the window |
| `Sliding.TrailingZeros` | KA-APSI(ours)/cpp_code/monocypher.c:1951-1957 | the three masks find the lowest set bit, also of a negative digit, and the odd digit left is in range |
| `Sliding.SlideCtx.constructor` | KA-APSI(ours)/cpp_code/monocypher.c:1917-1936 | starts above the top bit of any scalar below 2^253, consistently from every later position and for every width |
| `Sliding.SlideCtx.Step` | KA-APSI(ours)/cpp_code/monocypher.c:1938-1962 | each step emits zero or an odd digit below 2^(width-1) in magnitude and keeps the weighted sum of digits on course for the scalar |
| `Ladder.AllEmitted` | KA-APSI(ours)/cpp_code/monocypher.c:1938-1962 | when all positions are done the digits, weighted by powers of two, sum to the scalar |
| `Ladder.Group.TimesAdd` | KA-APSI(ours)/cpp_code/monocypher.c:2007-2018 | multiples add, in any abelian group and for negative numbers too |
| `Ladder.Precompute` | KA-APSI(ours)/cpp_code/monocypher.c:1989-1998 | the table holds the odd multiples |
| `Ladder.AddDigit` | KA-APSI(ours)/cpp_code/monocypher.c:2012-2016 | a digit indexes its table in range and adds that multiple, subtracting for negative digits |
| `Ladder.AddDigits` | KA-APSI(ours)/cpp_code/monocypher.c:2009-2016 | one step of the merged loop adds both digits to both multiples |
| `Ladder.LadderSum` | KA-APSI(ours)/cpp_code/monocypher.c:2000-2018 | the merged loop with widths 3 and 5 computes [s]B - [h]A in any abelian group (section 5.1.7 of RFC 8032) |
| `Field.PrimeIs` | KA-APSI(ours)/cpp_code/monocypher.c:1105-1117 | limbs of alternating widths 26 and 25 with a factor 19 at the wrap are arithmetic modulo 2^255 - 19 |
| `Field.SumsAreLoose` | KA-APSI(ours)/cpp_code/monocypher.c:974-975 | sums and differences of tight elements meet the precondition of multiplication |
| `Field.Carry` | KA-APSI(ours)/cpp_code/monocypher.c:1105-1120 | from 64-bit limbs within the stated bound to tight 32-bit limbs, the value kept modulo 2^255 - 19, with no overflow |
| `Field.Mul` | KA-APSI(ours)/cpp_code/monocypher.c:1225-1279 | within the stated limb bounds no 32- or 64-bit overflow; the result is tight and congruent to the product modulo 2^255 - 19 |
| `Field.Sum10` | KA-APSI(ours)/cpp_code/monocypher.c:1241-1260 | a column of ten products: each product and each partial sum is a 64-bit word |
| `Field.Sum6` | KA-APSI(ours)/cpp_code/monocypher.c:1293-1310 | the same for six merged products |
| `Field.Sum5` | KA-APSI(ours)/cpp_code/monocypher.c:1295-1312 | and for five |
| `Field.MulColumns` | KA-APSI(ours)/cpp_code/monocypher.c:1225-1260 | each column is the sum of the products that land in it, with no overflow of 32 or 64 bits on the way |
| `Field.Square` | KA-APSI(ours)/cpp_code/monocypher.c:1281-1325 | the same for the square with its doubled terms |
| `Field.SquareColumns` | KA-APSI(ours)/cpp_code/monocypher.c:1281-1312 | the merged terms give the same columns, with no overflow on the way |
| `FieldBytes.SignOf` | KA-APSI(ours)/cpp_code/monocypher.c:1165-1177 | the carry chain computes the sign of the whole number |
| `FieldBytes.CarryDown` | KA-APSI(ours)/cpp_code/monocypher.c:1178-1183 | all limbs become proper digits, with what is left over counted |
| `FieldBytes.Canonical` | KA-APSI(ours)/cpp_code/monocypher.c:1150-1184 | removing 19 from a negative number and dropping the excess bit is reduction modulo the prime |
| `FieldBytes.ToBytes` | KA-APSI(ours)/cpp_code/monocypher.c:1161-1196 | the bytes are the unique representative below 2^255 - 19, for every tight element |
| `FieldBytes.FromBytes` | KA-APSI(ours)/cpp_code/monocypher.c:1128-1142 | the masked bytes as a tight element |
| `Xxh64.RotlLaw` | OBDBasedPSI/xxHash/xxhash.c:219 | a rotation is x * 2^r modulo 2^64 plus x / 2^(64 - r) |
| `XorWords.XorBit` | OBDBasedPSI/xxHash/xxhash.c:747-757 | bit k of an exclusive or is the parity of the bits k |
| `XorWords.OrBit` | OBDBasedPSI/xxHash/xxhash.c:219 | bit k of an or is set if one of the bits k is |
| `XorWords.AndBit` | KA-APSI(ours)/cpp_code/monocypher.c:373-374 | bit k of an and is set if both bits k are |
| `Xxh64.FinalizeLoops` | OBDBasedPSI/xxHash/xxhash.c:783-798 | the rerolled loops compute the tail function of the last len mod 32 bytes |
| `Xxh64.FinalizeSwitch` | OBDBasedPSI/xxHash/xxhash.c:799-880 | so does the switch with its fall-through cases, for every length |
| `Xxh64.EndianAlign` | OBDBasedPSI/xxHash/xxhash.c:887-928 | one pass computes the hash |
| `Xxh64.State.Reset` | OBDBasedPSI/xxHash/xxhash.c:969-980 | an empty message under the new seed |
| `Xxh64.State.Update` | OBDBasedPSI/xxHash/xxhash.c:982-1040 | all whole stripes are in the lanes and the buffer holds exactly the rest |
| `Xxh64.State.Keep` | OBDBasedPSI/xxHash/xxhash.c:997-1001 | too little for a stripe only waits |
| `Xxh64.State.FillBuffer` | OBDBasedPSI/xxHash/xxhash.c:1003-1011 | a waiting buffer is completed and taken in |
| `Xxh64.State.WholeStripes` | OBDBasedPSI/xxHash/xxhash.c:1013-1031 | whole stripes are taken from the input directly |
| `Xxh64.State.KeepRest` | OBDBasedPSI/xxHash/xxhash.c:1033-1036 | the rest of the input waits |
| `Xxh64.State.Digest` | OBDBasedPSI/xxHash/xxhash.c:1043-1065 | the hash of everything since the reset; for short messages the seed is found in the third lane |
| `Xxh64.InPieces` | OBDBasedPSI/xxHash/xxhash.c:887-1065 | every split into updates gives the one-pass hash |
| `Xxh64Values.Empty` | OBDBasedPSI/xxHash/xxhsum.c:720 | the value listed for the empty message, seed 0: 0xEF46DB3751D8E999 |
| `Xxh64Values.SeededEmpty` | OBDBasedPSI/xxHash/xxhsum.c:721 | the value listed for the empty message, seed 2654435761: 0xAC75FDA2929B17EF |
| `Xxh64Values.OneByte` | OBDBasedPSI/xxHash/xxhsum.c:722 | the value listed for one byte, seed 0: 0xE934A84ADB052768 |
| `Xxh64Values.SeededOneByte` | OBDBasedPSI/xxHash/xxhsum.c:723 | the value listed for one byte, seed 2654435761: 0x5014607643A9B4C3 |
| `Xxh64Values.Fourteen` | OBDBasedPSI/xxHash/xxhsum.c:724 | the value listed for 14 bytes, seed 0: 0x8282DCC4994E35C8 |
| `Xxh64Values.SeededFourteen` | OBDBasedPSI/xxHash/xxhsum.c:725 | the value listed for 14 bytes, seed 2654435761: 0xC3BD6BF63DEB6DF0 |
| `Xxh64Values.Long` | OBDBasedPSI/xxHash/xxhsum.c:726 | the value listed for 222 bytes, seed 0: 0xB641AE8CB691C174 |
| `Xxh64Values.SeededLong` | OBDBasedPSI/xxHash/xxhsum.c:727 | the value listed for 222 bytes, seed 2654435761: 0x20CB8AB7AE10C14A |
| `Heap.LeavesOnce` | OBDBasedPSI/Poly/polyFFT.cpp:45-89 | below every node of the heap each point occurs at most once |
| `Heap.LeavesAre` | OBDBasedPSI/Poly/polyFFT.cpp:45-89 | the points below a node are those whose chain of parents meets it |
| `SubTrees.GenerateSubTreeArrays` | OBDBasedPSI/Poly/polyFFT.cpp:93-128 | each list is the subtree of its root, level by level, cut at the number of nodes |
| `SubTrees.GenerateSubTree` | OBDBasedPSI/Poly/polyFFT.cpp:106-124 | each entry is a child of an earlier one, up to the first that is too large |
| `SubTrees.RootsAreInner` | OBDBasedPSI/Poly/polyFFT.cpp:58-64 | all roots of the threads have two children in the tree if and only if 2 * numThreads <= n |
| `SubTrees.VisitedOnce` | OBDBasedPSI/Poly/polyFFT.cpp:93-128 | with numThreads roots from numThreads - 1 on, every node from there on is in exactly one list, at one place |
| `SubTrees.ListsApart` | OBDBasedPSI/Poly/polyFFT.cpp:61-67 | no node belongs to two threads |
| `Interpolation.TreeNode` | OBDBasedPSI/Poly/polyFFT.cpp:140 | the product of the children of a node is monic, of the right degree, with the right values and derivative |
| `ProductTree.BuildLeaves` | OBDBasedPSI/Poly/polyFFT.cpp:50-56 | a leaf is t minus its point |
| `ProductTree.BuildSubTree` | OBDBasedPSI/Poly/polyFFT.cpp:130-146 | one thread: from the last entry of its list to the first, every node is the product over its points |
| `ProductTree.BuildSubTrees` | OBDBasedPSI/Poly/polyFFT.cpp:58-67 | after all threads every node from numThreads - 1 on is right |
| `ProductTree.BuildLevel` | OBDBasedPSI/Poly/polyFFT.cpp:73-84 | one level, once the level below is right |
| `ProductTree.BuildTree` | OBDBasedPSI/Poly/polyFFT.cpp:45-89 | for every power-of-two number of threads with 2 * numThreads <= n the whole product tree is right |
| `Interpolation.RemainderNode` | OBDBasedPSI/Poly/polyFFT.cpp:185-194 | a remainder keeps the values at the points below the node |
| `ProductTree.EvalLevels` | OBDBasedPSI/Poly/polyFFT.cpp:236-276 | although the first three nodes hold the polynomial unreduced, all nodes above the threads keep its values |
| `ProductTree.EvalSubTree` | OBDBasedPSI/Poly/polyFFT.cpp:177-196 | one thread: every node of its list gets a remainder with the right values, leaves a constant |
| `ProductTree.EvalSubTrees` | OBDBasedPSI/Poly/polyFFT.cpp:284-296 | after all threads every node from numThreads - 1 on is computed |
| `ProductTree.Evaluate` | OBDBasedPSI/Poly/polyFFT.cpp:231-311 | the result at every index is the value of the polynomial at that point |
| `PolyRing.EvalMul` | OBDBasedPSI/Poly/polyFFT.cpp:140 | multiplying coefficient sequences multiplies values |
| `PolyRing.SlopeMul` | OBDBasedPSI/Poly/polyFFT.cpp:547 | the product rule for the derivative |
| `PolyRoots.DiffCoeff` | OBDBasedPSI/Poly/polyFFT.cpp:547 | the derivative is the formal one: coefficient k is k + 1 times coefficient k + 1 |
| `ProductTree.Weights` | OBDBasedPSI/Poly/polyFFT.cpp:536-561 | the derivative of the product at a point is the product of its differences to all other points, and not zero |
| `ProductTree.PrepareForInterpolate` | OBDBasedPSI/Poly/polyFFT.cpp:536-561 | the tree, and for each point the product of its differences to the others |
| `PointProducts.SumAppend` | OBDBasedPSI/Poly/polyFFT.cpp:168 | combining two halves with the products of the other half is the weighted sum over both |
| `ProductTree.InterSubTree` | OBDBasedPSI/Poly/polyFFT.cpp:148-175 | one thread: every node of its list is the weighted sum over its points |
| `ProductTree.InterLeaves` | OBDBasedPSI/Poly/polyFFT.cpp:442-449 | a leaf is its value over its weight |
| `ProductTree.InterSubTrees` | OBDBasedPSI/Poly/polyFFT.cpp:451-471 | after all threads every node from numThreads - 1 on is combined |
| `ProductTree.InterLevel` | OBDBasedPSI/Poly/polyFFT.cpp:489-501 | one level, once the level below is combined |
| `ProductTree.IterativeInterpolate` | OBDBasedPSI/Poly/polyFFT.cpp:440-515 | the combination at the root is the weighted sum over all points with weights y / a |
| `Interpolation.AtPoint` | OBDBasedPSI/Poly/polyFFT.cpp:440-515 | at a point only its own term of the weighted sum is left |
| `ProductTree.Interpolate` | OBDBasedPSI/Poly/polyFFT.cpp:518-534 | for distinct points over any field the result has degree below n and takes the given values |
| `ProductTree.OnlyInterpolant` | OBDBasedPSI/Poly/polyFFT.cpp:518-534 | there is only one such polynomial, so the result does not depend on the number of threads |
| `PolyRoots.ManyRoots` | OBDBasedPSI/Poly/polyFFT.cpp:518-534 | a polynomial with as many distinct roots as coefficients is zero |
| `Kzg.EvaluatePolynomial` | KZG/kzg-py-toy-cpp/polynomial.cpp:4-16 | the value at x, though with running powers and not by Horner's rule as its comment says |
| `Kzg.DivisionStep` | KZG/kzg-py-toy-cpp/polynomial.cpp:56-69 | one step keeps a = q * d + r, coefficient by coefficient and at every point |
| `Kzg.SubtractMultiple` | KZG/kzg-py-toy-cpp/polynomial.cpp:65-69 | subtracts a shifted multiple of the divisor in place |
| `Kzg.SetQuotient` | KZG/kzg-py-toy-cpp/polynomial.cpp:60-63 | resizing fills with zeros; one coefficient is set |
| `Kzg.Trim` | KZG/kzg-py-toy-cpp/polynomial.cpp:40-43 | leading zeros go, and nothing else |
| `Kzg.PolyDiv` | KZG/kzg-py-toy-cpp/polynomial.cpp:32-77 | over any field: refused exactly for zero divisors; otherwise terminates with a = q * b + r, deg r < deg b and no leading zero in q |
| `Kzg.TrustedSetup` | KZG/kzg-py-toy-cpp/kzg.cpp:10-30 | the powers of the secret |
| `Kzg.Commit` | KZG/kzg-py-toy-cpp/kzg.cpp:32-41 | the commitment is the polynomial at the secret |
| `Kzg.CreateProof` | KZG/kzg-py-toy-cpp/kzg.cpp:43-53 | the proof satisfies the division equation at the secret |
| `Kzg.Verify` | KZG/kzg-py-toy-cpp/kzg.cpp:55-78 | accepts exactly when the pairing equation holds |
| `Kzg.OpenAndVerify` | KZG/kzg-py-toy-cpp/kzg.cpp:10-78 | for every non-empty polynomial within the setup, every secret and every x and y, the proof passes exactly when y is the value at x |

## Left out

- BackSubstitution.UnpeelingSolves: one direction only, because overwritten zeros of a key can cancel; LateWrites has the exact condition.
- Dictionary.OBD3Tables.Encode: states the first encoding of a dictionary, since `init` resets neither `variables` nor `sign`; the run that the condition is about is returned as a ghost value.
- Star.StarDictionary.Encode: the same for the star construction; keys in a bin are distinct and no bin overflows, as the source assumes.
- Dictionary.OBD3Tables.GenerateRandomEncoding: the bytes that `getVariables` sends (`sigma`) are identified with the field elements.
- MerkleTree.Tree.Deserialise: of bytes that are not an encoding it states how many are read and which leaves result, not the shape of the tree; the caller provides as many bytes as the leaf count demands, because the hashes are read without a bounds check.
- MerkleTree.ReadTree: the same.
- MerkleTree.Tree.Size: states exactly when the size is the number of nodes, because it is not always.
- MerkleTree.Tree.WalkTo: the callback is a list of turns that the caller goes through, or a loop of its own where it changes the tree (past paths, retraction).
- MerkleTree.Tree.Insert: memory deallocation, statistics, tracing, copying and moving trees, and the serialisation of paths are not part of the model.
- Blake2b.Context.Compress: the rounds and the parameter block are arbitrary functions; only what they are applied to is modelled.
- Argon.Fill: the block mixing and the deterministic index blocks are arbitrary functions; the initial hashing and the final xor of last blocks are not modelled; lanes have at least 8 blocks.
- Argon.FillBlockInPlace: the mixing of a block is an arbitrary function.
- Ladder.LadderSum: in an abstract abelian group; curve formulas, point decoding, square roots and Elligator are not modelled.
- ModL.Reduce: wiping of buffers and contexts is not modelled, here and in all other parts.
- Poly1305.Context.Update: the or of bytes loaded at different positions is written as their sum.
- FieldBytes.ToBytes: `fe_mul_small`, conditional swaps and inversion are not modelled.
- ProductTree.Evaluate: `evaluate_main`, a serial variant, is not modelled; polynomials need not be stripped of leading zeros.
- Kzg.PolyDiv: `encode_as_polynomial` is not modelled; `-INT_MIN` and the conversion of integers to field elements are not either.
- Xxh64.State.Update: total length below 2^64; null inputs, big-endian hosts, XXH32 and XXH3 are not modelled.
- The system and the unpeeling of the two-table dictionary, `decOptimized`, the index lists of the star dictionary, `checkOutput`, timers and statistics files.
- Networking, oblivious transfer, AES, the PSI front ends, and the end-to-end protocols.
