/** The block chain's records and its two indices (by hash and by height),
    the invariant tying them together and the retention window, and the
    facts about admission and pruning that the chain's methods rely on. */
module ChainIndex {
  import opened Utxo

  /** Depth below the maximum height that is still retained. */
  const CUT_OFF_AGE: int := 10

  /** A block as the chain receives it; `prevBlockHash` is `None` for a block
      that names no parent. */
  datatype Block = Block(hash: Hash, prevBlockHash: Option<Hash>, coinbase: Transaction, transactions: seq<Transaction>)

  /** A retained block record. Records are never changed once stored; each owns its pool object. */
  datatype BlockWrapper = BlockWrapper(serialID: int, hash: Hash, block: Block, height: int, utxoPool: UTXOPool)

  function Elems(s: seq<Hash>): set<Hash> {
    set k | 0 <= k < |s| :: s[k]
  }

  /** The height index after recording hash `b` at height `h`, unless it is already listed there. */
  function AddToHeights(heights: map<int, seq<Hash>>, h: int, b: Hash): map<int, seq<Hash>> {
    if h in heights then
      if b in heights[h] then heights else heights[h := heights[h] + [b]]
    else heights[h := [b]]
  }

  /** The hash index without the records listed at height `out`. */
  function Pruned(blockchain: map<Hash, BlockWrapper>, heights: map<int, seq<Hash>>, out: int): map<Hash, BlockWrapper> {
    if out in heights then blockchain - Elems(heights[out]) else blockchain
  }

  /** The hash index after storing `rec`; a record that raises the maximum
      height also drops the records of the height that falls out of the window. */
  function AdmittedChain(blockchain: map<Hash, BlockWrapper>, heights: map<int, seq<Hash>>, maxHeight: int,
                         rec: BlockWrapper): map<Hash, BlockWrapper> {
    var bc, hs := blockchain[rec.hash := rec], AddToHeights(heights, rec.height, rec.hash);
    if rec.height > maxHeight then Pruned(bc, hs, rec.height - CUT_OFF_AGE - 1) else bc
  }

  /** The height index after listing `rec`, with the same pruning. */
  function AdmittedHeights(heights: map<int, seq<Hash>>, maxHeight: int, rec: BlockWrapper): map<int, seq<Hash>> {
    var hs := AddToHeights(heights, rec.height, rec.hash);
    if rec.height > maxHeight then hs - {rec.height - CUT_OFF_AGE - 1} else hs
  }

  /** The two indices describe the same records: every listed hash is a
      record at that height and every record is listed at its height; lists
      are non-empty and duplicate-free; serial IDs are below the counter and
      distinct; no two records share a pool object. */
  ghost predicate Indexed(blockchain: map<Hash, BlockWrapper>, heights: map<int, seq<Hash>>, blockCount: int) {
    && 0 <= blockCount
    && (forall h :: h in heights ==> heights[h] != [] && NoDuplicates(heights[h]))
    && (forall h, b :: h in heights && b in heights[h] ==> b in blockchain && blockchain[b].height == h)
    && (forall b :: b in blockchain ==>
          && blockchain[b].hash == b
          && blockchain[b].block.hash == b
          && blockchain[b].height in heights
          && b in heights[blockchain[b].height]
          && 0 <= blockchain[b].serialID < blockCount)
    && (forall b, c :: b in blockchain && c in blockchain && b != c ==>
          blockchain[b].serialID != blockchain[c].serialID &&
          blockchain[b].utxoPool != blockchain[c].utxoPool)
  }

  /** The retention window: the maximum height is present and every retained
      height lies in `[maxHeight - CUT_OFF_AGE, maxHeight]`. */
  ghost predicate InWindow(heights: map<int, seq<Hash>>, maxHeight: int) {
    && maxHeight in heights
    && forall h :: h in heights ==> 1 <= h && maxHeight - CUT_OFF_AGE <= h <= maxHeight
  }

  ghost predicate ChainInvariant(blockchain: map<Hash, BlockWrapper>, heights: map<int, seq<Hash>>, blockCount: int, maxHeight: int) {
    Indexed(blockchain, heights, blockCount) && InWindow(heights, maxHeight)
  }

  /** A chain holding one record at height 1 with serial ID 0 satisfies the invariant. */
  lemma GenesisInvariant(rec: BlockWrapper)
    requires rec.serialID == 0 && rec.height == 1 && rec.block.hash == rec.hash
    ensures ChainInvariant(map[rec.hash := rec], map[1 := [rec.hash]], 1, 1)
  {
    assert [rec.hash][0] == rec.hash;
    assert multiset([rec.hash]) == multiset{rec.hash};
  }

  /** `w` is the record at the maximum height with the smallest serial ID. */
  ghost predicate IsHead(blockchain: map<Hash, BlockWrapper>, heights: map<int, seq<Hash>>, maxHeight: int, w: BlockWrapper) {
    && maxHeight in heights
    && w.hash in heights[maxHeight]
    && w.hash in blockchain
    && blockchain[w.hash] == w
    && forall b :: b in heights[maxHeight] && b in blockchain ==> w.serialID <= blockchain[b].serialID
  }

  /** The hashes listed at the maximum height: at least one, each naming a
      record at that height stored under its own hash. */
  lemma HeadCandidates(blockchain: map<Hash, BlockWrapper>, heights: map<int, seq<Hash>>, blockCount: int, maxHeight: int)
    requires ChainInvariant(blockchain, heights, blockCount, maxHeight)
    ensures maxHeight in heights && |heights[maxHeight]| > 0
    ensures forall k :: 0 <= k < |heights[maxHeight]| ==>
              var b := heights[maxHeight][k];
              b in blockchain && blockchain[b].hash == b && blockchain[b].height == maxHeight
  {
  }

  /** Under the invariant the head is unique: the tie-break is deterministic. */
  lemma HeadUnique(blockchain: map<Hash, BlockWrapper>, heights: map<int, seq<Hash>>, blockCount: int, maxHeight: int,
                   w1: BlockWrapper, w2: BlockWrapper)
    requires ChainInvariant(blockchain, heights, blockCount, maxHeight)
    requires IsHead(blockchain, heights, maxHeight, w1) && IsHead(blockchain, heights, maxHeight, w2)
    ensures w1 == w2
  {
    assert w1.serialID == w2.serialID;
  }

  /** A block whose parent is retained lands strictly above
      `maxHeight - CUT_OFF_AGE` and at most one above `maxHeight`; in
      particular a block at height 2 is acceptable only while
      `maxHeight <= CUT_OFF_AGE + 1`. */
  lemma AcceptableHeight(blockchain: map<Hash, BlockWrapper>, heights: map<int, seq<Hash>>, blockCount: int, maxHeight: int,
                         parent: Hash)
    requires ChainInvariant(blockchain, heights, blockCount, maxHeight)
    requires parent in blockchain
    ensures maxHeight - CUT_OFF_AGE < blockchain[parent].height + 1 <= maxHeight + 1
    ensures blockchain[parent].height + 1 == 2 ==> maxHeight <= CUT_OFF_AGE + 1
  {
    assert blockchain[parent].height in heights;
  }

  /** Appending a hash not yet listed keeps the list duplicate-free. */
  lemma AppendNoDuplicates(s: seq<Hash>, b: Hash)
    requires NoDuplicates(s) && b !in s
    ensures NoDuplicates(s + [b])
  {
    assert multiset(s + [b]) == multiset(s) + multiset{b};
    forall x | x in s + [b] ensures multiset(s + [b])[x] <= 1 {
      if x != b {
        assert x in s;
      }
    }
  }

  /** Storing a new record with the next serial ID and a pool of its own keeps the indices consistent. */
  lemma InsertKeepsIndexed(blockchain: map<Hash, BlockWrapper>, heights: map<int, seq<Hash>>, blockCount: int, rec: BlockWrapper)
    requires Indexed(blockchain, heights, blockCount)
    requires rec.hash !in blockchain && rec.block.hash == rec.hash && rec.serialID == blockCount
    requires forall b :: b in blockchain ==> blockchain[b].utxoPool != rec.utxoPool
    ensures Indexed(blockchain[rec.hash := rec], AddToHeights(heights, rec.height, rec.hash), blockCount + 1)
  {
    var bc, hs := blockchain[rec.hash := rec], AddToHeights(heights, rec.height, rec.hash);
    if rec.height in heights {
      assert rec.hash !in heights[rec.height];
      AppendNoDuplicates(heights[rec.height], rec.hash);
      assert hs == heights[rec.height := heights[rec.height] + [rec.hash]];
    } else {
      assert hs == heights[rec.height := [rec.hash]];
    }
    forall h | h in hs ensures hs[h] != [] && NoDuplicates(hs[h]) {
    }
    forall h, b | h in hs && b in hs[h] ensures b in bc && bc[b].height == h {
      if b != rec.hash {
        assert h in heights && b in heights[h];
      }
    }
    forall b | b in bc
      ensures bc[b].hash == b && bc[b].block.hash == b && bc[b].height in hs && b in hs[bc[b].height]
      ensures 0 <= bc[b].serialID < blockCount + 1
    {
      if b != rec.hash {
        assert b in heights[blockchain[b].height];
      }
    }
    forall b, c | b in bc && c in bc && b != c
      ensures bc[b].serialID != bc[c].serialID && bc[b].utxoPool != bc[c].utxoPool
    {
    }
  }

  /** Dropping one height from both indices keeps them consistent. */
  lemma PruneKeepsIndexed(blockchain: map<Hash, BlockWrapper>, heights: map<int, seq<Hash>>, blockCount: int, out: int)
    requires Indexed(blockchain, heights, blockCount)
    ensures Indexed(Pruned(blockchain, heights, out), heights - {out}, blockCount)
  {
    if out in heights {
      var gone := Elems(heights[out]);
      var bc, hs := blockchain - gone, heights - {out};
      assert forall x | x in gone :: x in blockchain && blockchain[x].height == out;
      forall h, b | h in hs && b in hs[h] ensures b in bc && bc[b].height == h {
        assert b in blockchain && blockchain[b].height == h;
      }
      forall b | b in bc ensures bc[b].height in hs && b in hs[bc[b].height] {
        assert b in heights[blockchain[b].height];
      }
      forall b, c | b in bc && c in bc && b != c
        ensures bc[b].serialID != bc[c].serialID && bc[b].utxoPool != bc[c].utxoPool
      {
      }
    } else {
      assert heights - {out} == heights;
    }
  }

  /** The window after admitting a block at height `h`: when `h` raises the
      maximum, dropping the single height `h - CUT_OFF_AGE - 1` restores it. */
  lemma AdmitKeepsWindow(heights: map<int, seq<Hash>>, maxHeight: int, h: int, b: Hash)
    requires InWindow(heights, maxHeight)
    requires 1 <= h && maxHeight - CUT_OFF_AGE < h <= maxHeight + 1
    ensures h <= maxHeight ==> InWindow(AddToHeights(heights, h, b), maxHeight)
    ensures h > maxHeight ==> InWindow(AddToHeights(heights, h, b) - {h - CUT_OFF_AGE - 1}, h)
  {
  }

  /** The new record survives the pruning its own arrival triggers. */
  lemma NewRecordRetained(blockchain: map<Hash, BlockWrapper>, heights: map<int, seq<Hash>>, blockCount: int, maxHeight: int,
                          rec: BlockWrapper)
    requires ChainInvariant(blockchain, heights, blockCount, maxHeight)
    requires rec.hash !in blockchain
    ensures var bc, hs := blockchain[rec.hash := rec], AddToHeights(heights, rec.height, rec.hash);
            rec.hash in Pruned(bc, hs, rec.height - CUT_OFF_AGE - 1)
  {
  }

  /** Storing a record below or at the maximum height keeps the invariant. */
  lemma AdmitBelowMax(blockchain: map<Hash, BlockWrapper>, heights: map<int, seq<Hash>>, blockCount: int, maxHeight: int,
                      rec: BlockWrapper)
    requires ChainInvariant(blockchain, heights, blockCount, maxHeight)
    requires rec.hash !in blockchain && rec.block.hash == rec.hash && rec.serialID == blockCount
    requires 1 <= rec.height && maxHeight - CUT_OFF_AGE < rec.height <= maxHeight
    requires forall b :: b in blockchain ==> blockchain[b].utxoPool != rec.utxoPool
    ensures ChainInvariant(blockchain[rec.hash := rec], AddToHeights(heights, rec.height, rec.hash), blockCount + 1, maxHeight)
  {
    InsertKeepsIndexed(blockchain, heights, blockCount, rec);
    AdmitKeepsWindow(heights, maxHeight, rec.height, rec.hash);
  }

  /** Storing a record one above the maximum height and pruning the height
      that falls out of the window keeps the invariant and retains the record. */
  lemma AdmitAboveMax(blockchain: map<Hash, BlockWrapper>, heights: map<int, seq<Hash>>, blockCount: int, maxHeight: int,
                      rec: BlockWrapper, blockchain': map<Hash, BlockWrapper>, heights': map<int, seq<Hash>>)
    requires ChainInvariant(blockchain, heights, blockCount, maxHeight)
    requires rec.hash !in blockchain && rec.block.hash == rec.hash && rec.serialID == blockCount
    requires 1 <= rec.height == maxHeight + 1
    requires forall b :: b in blockchain ==> blockchain[b].utxoPool != rec.utxoPool
    requires blockchain' == Pruned(blockchain[rec.hash := rec], AddToHeights(heights, rec.height, rec.hash), rec.height - CUT_OFF_AGE - 1)
    requires heights' == AddToHeights(heights, rec.height, rec.hash) - {rec.height - CUT_OFF_AGE - 1}
    ensures ChainInvariant(blockchain', heights', blockCount + 1, rec.height)
    ensures rec.hash in blockchain' && blockchain'[rec.hash] == rec
  {
    var bc, hs := blockchain[rec.hash := rec], AddToHeights(heights, rec.height, rec.hash);
    var out := rec.height - CUT_OFF_AGE - 1;
    assert blockchain' == Pruned(bc, hs, out) && heights' == hs - {out};
    InsertKeepsIndexed(blockchain, heights, blockCount, rec);
    PruneKeepsIndexed(bc, hs, blockCount + 1, out);
    AdmitKeepsWindow(heights, maxHeight, rec.height, rec.hash);
    NewRecordRetained(blockchain, heights, blockCount, maxHeight, rec);
  }

  /** Admission as a whole keeps the chain invariant and retains the new
      record: `blockchain'`, `heights'`, `blockCount'` and `maxHeight'` are the
      indices, counter and maximum after storing `rec` and, when it raises
      the maximum, pruning the height that falls out of the window. */
  lemma AdmitKeepsInvariant(blockchain: map<Hash, BlockWrapper>, heights: map<int, seq<Hash>>, blockCount: int, maxHeight: int,
                            rec: BlockWrapper, blockchain': map<Hash, BlockWrapper>, heights': map<int, seq<Hash>>,
                            blockCount': int, maxHeight': int)
    requires ChainInvariant(blockchain, heights, blockCount, maxHeight)
    requires rec.hash !in blockchain && rec.block.hash == rec.hash && rec.serialID == blockCount
    requires 1 <= rec.height && maxHeight - CUT_OFF_AGE < rec.height <= maxHeight + 1
    requires forall b :: b in blockchain ==> blockchain[b].utxoPool != rec.utxoPool
    requires blockCount' == blockCount + 1
    requires maxHeight' == (if rec.height > maxHeight then rec.height else maxHeight)
    requires blockchain' == AdmittedChain(blockchain, heights, maxHeight, rec)
    requires heights' == AdmittedHeights(heights, maxHeight, rec)
    ensures ChainInvariant(blockchain', heights', blockCount', maxHeight')
    ensures rec.hash in blockchain' && blockchain'[rec.hash] == rec
  {
    var bc, hs := blockchain[rec.hash := rec], AddToHeights(heights, rec.height, rec.hash);
    var out := rec.height - CUT_OFF_AGE - 1;
    if rec.height > maxHeight {
      assert blockchain' == Pruned(bc, hs, out) && heights' == hs - {out} && maxHeight' == rec.height;
      AdmitAboveMax(blockchain, heights, blockCount, maxHeight, rec, blockchain', heights');
    } else {
      assert blockchain' == bc && heights' == hs && maxHeight' == maxHeight;
      AdmitBelowMax(blockchain, heights, blockCount, maxHeight, rec);
    }
  }
}
