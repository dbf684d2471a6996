/** The block chain: retained block records indexed by hash and by height, the
    running maximum height and arrival counter, block admission with pruning
    of a bounded window, and earliest-arrival head selection. */
module Chain {
  import opened Utxo
  import opened Resolver
  import opened ChainIndex

  class BlockChain {
    var transactionPool: map<Hash, Transaction>
    /** Block hash to record. */
    var blockchain: map<Hash, BlockWrapper>
    /** Height to the hashes of the records at that height, in arrival order. */
    var heights: map<int, seq<Hash>>
    var blockCount: int
    var maxHeight: int
    const crypto: Crypto

    /** A chain holding only the genesis block, whose pool is exactly the
        outputs of its coinbase transaction. */
    constructor (genesisBlock: Block, crypto: Crypto)
      ensures ChainInvariant(blockchain, heights, blockCount, maxHeight)
      ensures var g := genesisBlock.hash;
              && g in blockchain
              && blockchain == map[g := BlockWrapper(0, g, genesisBlock, 1, blockchain[g].utxoPool)]
              && fresh(blockchain[g].utxoPool)
              && blockchain[g].utxoPool.utxos == OutputUtxos(genesisBlock.coinbase)
      ensures heights == map[1 := [genesisBlock.hash]]
      ensures maxHeight == 1 && blockCount == 1
      ensures transactionPool == map[]
      ensures this.crypto == crypto
    {
      var hash := genesisBlock.hash;
      var utxoPool := new UTXOPool.Empty();
      var coinbaseTx := genesisBlock.coinbase;
      AddOutputs(utxoPool, coinbaseTx);
      assert utxoPool.utxos == OutputUtxos(coinbaseTx);
      blockchain := map[];
      heights := map[];
      transactionPool := map[];
      blockCount := 0;
      maxHeight := 0;
      this.crypto := crypto;
      new;
      var blockWrapper := BlockWrapper(blockCount, hash, genesisBlock, 1, utxoPool);
      GenesisInvariant(blockWrapper);
      blockchain := blockchain[hash := blockWrapper];
      AddToHeightMap(1, hash);
      maxHeight := 1;
      blockCount := blockCount + 1;
    }

    /** The record at the maximum height with the smallest serial ID: the earliest arrival. */
    method GetMaxHeightBlockWrapper() returns (w: BlockWrapper)
      requires ChainInvariant(blockchain, heights, blockCount, maxHeight)
      ensures IsHead(blockchain, heights, maxHeight, w)
      ensures w.height == maxHeight
    {
      HeadCandidates(blockchain, heights, blockCount, maxHeight);
      var allBlockHash := heights[maxHeight];
      w := blockchain[allBlockHash[0]];
      var oldest := w.serialID;
      ghost var j := 0;
      for i := 1 to |allBlockHash|
        invariant 0 <= j < i && allBlockHash[j] == w.hash && blockchain[allBlockHash[j]] == w
        invariant oldest == w.serialID
        invariant forall k :: 0 <= k < i ==> w.serialID <= blockchain[allBlockHash[k]].serialID
      {
        var tmpBlockWrapper := blockchain[allBlockHash[i]];
        if tmpBlockWrapper.serialID < oldest {
          w := tmpBlockWrapper;
          oldest := tmpBlockWrapper.serialID;
          j := i;
        }
      }
      forall b | b in allBlockHash && b in blockchain ensures w.serialID <= blockchain[b].serialID {
        var k :| 0 <= k < |allBlockHash| && allBlockHash[k] == b;
      }
    }

    method GetMaxHeightBlock() returns (b: Block)
      requires ChainInvariant(blockchain, heights, blockCount, maxHeight)
      ensures exists w :: IsHead(blockchain, heights, maxHeight, w) && w.block == b
    {
      var w := GetMaxHeightBlockWrapper();
      b := w.block;
    }

    /** The pool object of the head record (shared, not copied). */
    method GetMaxHeightUTXOPool() returns (p: UTXOPool)
      requires ChainInvariant(blockchain, heights, blockCount, maxHeight)
      ensures exists w :: IsHead(blockchain, heights, maxHeight, w) && w.utxoPool == p
    {
      var w := GetMaxHeightBlockWrapper();
      p := w.utxoPool;
    }

    function GetTransactionPool(): (pool: map<Hash, Transaction>)
      reads this
      ensures pool == transactionPool
    {
      transactionPool
    }

    /** True exactly when `tx` is valid against `utxoPool`. */
    method IsValidTx(tx: Transaction, utxoPool: UTXOPool) returns (valid: bool)
      ensures valid <==> ValidTx(tx, utxoPool.utxos, crypto)
    {
      valid := CheckTx(utxoPool, tx, crypto);
    }

    /** Spends the inputs of `tx` in `newUTXOPool` and credits its outputs. */
    method HandleValidTx(tx: Transaction, newUTXOPool: UTXOPool)
      modifies newUTXOPool
      ensures newUTXOPool.utxos == ApplyTx(old(newUTXOPool.utxos), tx)
    {
      Resolver.HandleValidTx(newUTXOPool, tx);
    }

    /** Resolves the block's transactions against `newUTXOPool` in place and
        reports whether every transaction of the list was admitted; a list
        naming a transaction twice is never fully admitted. */
    method CheckTxs(possibleTxs: seq<Transaction>, newUTXOPool: UTXOPool) returns (ok: bool)
      modifies newUTXOPool
      ensures var r := Resolve(old(newUTXOPool.utxos), Dedup(possibleTxs), crypto);
              && newUTXOPool.utxos == r.pool
              && (ok <==> |possibleTxs| == |r.admitted|)
              && (ok <==> NoDuplicates(possibleTxs) && r.unresolved == [])
              && ValidSeq(old(newUTXOPool.utxos), r.admitted, crypto)
              && newUTXOPool.utxos == ApplySeq(old(newUTXOPool.utxos), r.admitted)
    {
      AllAdmitted(newUTXOPool.utxos, possibleTxs, crypto);
      HandleTxsCorrect(newUTXOPool.utxos, possibleTxs, crypto);
      var validTx, passes := ResolveTxs(newUTXOPool, possibleTxs, crypto);
      ok := |possibleTxs| == |validTx|;
    }

    /** Removes every record listed at `outHeight` from the hash index, then the height itself. */
    method RemoveOutdatedBlocks(outHeight: int)
      modifies this`blockchain, this`heights
      ensures blockchain == Pruned(old(blockchain), old(heights), outHeight)
      ensures heights == old(heights) - {outHeight}
    {
      if outHeight in heights {
        var list := heights[outHeight];
        for i := 0 to |list|
          invariant blockchain == old(blockchain) - Elems(list[..i])
          invariant heights == old(heights)
        {
          assert Elems(list[..i + 1]) == Elems(list[..i]) + {list[i]};
          blockchain := blockchain - {list[i]};
        }
        assert list[..|list|] == list;
        heights := heights - {outHeight};
      }
    }

    /** Lists `b` at height `h` unless it is already listed there. */
    method AddToHeightMap(h: int, b: Hash)
      modifies this`heights
      ensures heights == AddToHeights(old(heights), h, b)
      ensures h in heights && b in heights[h]
    {
      if h !in heights {
        heights := heights[h := [b]];
      } else {
        var list := heights[h];
        if b !in list {
          heights := heights[h := list + [b]];
        }
      }
    }

    /** Removes the given transactions from the pending pool by hash. */
    method RemoveFromTransactionPool(txs: seq<Transaction>)
      modifies this`transactionPool
      ensures transactionPool == old(transactionPool) - (set k | 0 <= k < |txs| :: txs[k].hash)
    {
      for i := 0 to |txs|
        invariant transactionPool == old(transactionPool) - (set k | 0 <= k < i :: txs[k].hash)
      {
        transactionPool := transactionPool - {txs[i].hash};
      }
    }

    /** The pool a block would leave behind: a fresh copy of the parent's
        pool with the block's transactions resolved against it and the first
        coinbase output credited; `ok` says whether every transaction was admitted. */
    method BlockPool(parentPool: UTXOPool, block: Block) returns (ok: bool, newUTXOPool: UTXOPool)
      requires |block.coinbase.outputs| > 0
      ensures fresh(newUTXOPool)
      ensures var r := Resolve(parentPool.utxos, Dedup(block.transactions), crypto);
              && (ok <==> |block.transactions| == |r.admitted|)
              && (ok ==> newUTXOPool.utxos == r.pool[UTXO(block.coinbase.hash, 0) := block.coinbase.outputs[0]])
    {
      newUTXOPool := new UTXOPool.Copy(parentPool);
      ok := CheckTxs(block.transactions, newUTXOPool);
      if ok {
        var coinbaseTx := block.coinbase;
        newUTXOPool.AddUTXO(UTXO(coinbaseTx.hash, 0), coinbaseTx.outputs[0]);
      }
    }

    /** Stores a new record and lists it at its height; when it raises the
        maximum height, the height that falls out of the window is pruned. */
    method StoreBlock(rec: BlockWrapper)
      requires ChainInvariant(blockchain, heights, blockCount, maxHeight)
      requires rec.hash !in blockchain && rec.block.hash == rec.hash && rec.serialID == blockCount
      requires 1 <= rec.height && maxHeight - CUT_OFF_AGE < rec.height <= maxHeight + 1
      requires forall b :: b in blockchain ==> blockchain[b].utxoPool != rec.utxoPool
      modifies this`blockchain, this`heights, this`blockCount, this`maxHeight
      ensures ChainInvariant(blockchain, heights, blockCount, maxHeight)
      ensures blockCount == old(blockCount) + 1
      ensures maxHeight == (if rec.height > old(maxHeight) then rec.height else old(maxHeight))
      ensures blockchain == AdmittedChain(old(blockchain), old(heights), old(maxHeight), rec)
      ensures heights == AdmittedHeights(old(heights), old(maxHeight), rec)
      ensures rec.hash in blockchain && blockchain[rec.hash] == rec
    {
      ghost var bc0, hs0, count0, max0 := blockchain, heights, blockCount, maxHeight;
      blockchain := blockchain[rec.hash := rec];
      AddToHeightMap(rec.height, rec.hash);
      blockCount := blockCount + 1;
      if rec.height > maxHeight {
        maxHeight := rec.height;
        RemoveOutdatedBlocks(maxHeight - CUT_OFF_AGE - 1);
      }
      AdmitKeepsInvariant(bc0, hs0, count0, max0, rec, blockchain, heights, blockCount, maxHeight);
    }

    /** Admission of a new block whose parent is retained: the block's
        transactions are resolved against a fresh copy of the parent's pool;
        if any is left out nothing changes. Otherwise the coinbase output is
        credited, the record is stored at the parent's height plus one with
        the next serial ID, its transactions leave the pending pool, and a
        block that raises the maximum height prunes the single height that
        falls out of the window. */
    method AddChild(block: Block, parent: BlockWrapper) returns (ok: bool)
      requires ChainInvariant(blockchain, heights, blockCount, maxHeight)
      requires |block.coinbase.outputs| > 0
      requires block.hash !in blockchain
      requires parent.hash in blockchain && blockchain[parent.hash] == parent
      modifies this
      ensures ChainInvariant(blockchain, heights, blockCount, maxHeight)
      ensures var r := Resolve(parent.utxoPool.utxos, Dedup(block.transactions), crypto);
              var h := parent.height + 1;
              && (ok <==> |block.transactions| == |r.admitted|)
              && (!ok ==> unchanged(this))
              && (ok ==>
                    && old(maxHeight) - CUT_OFF_AGE < h <= old(maxHeight) + 1
                    && block.hash in blockchain
                    && var rec := blockchain[block.hash];
                    && rec == BlockWrapper(old(blockCount), block.hash, block, h, rec.utxoPool)
                    && fresh(rec.utxoPool)
                    && rec.utxoPool.utxos == r.pool[UTXO(block.coinbase.hash, 0) := block.coinbase.outputs[0]]
                    && blockCount == old(blockCount) + 1
                    && maxHeight == (if h > old(maxHeight) then h else old(maxHeight))
                    && blockchain == AdmittedChain(old(blockchain), old(heights), old(maxHeight), rec)
                    && heights == AdmittedHeights(old(heights), old(maxHeight), rec)
                    && transactionPool == old(transactionPool) -
                         (set k | 0 <= k < |block.transactions| :: block.transactions[k].hash))
    {
      var allTxsOk, newUTXOPool := BlockPool(parent.utxoPool, block);
      if !allTxsOk {
        return false;
      }
      var newBlockWrapper := BlockWrapper(blockCount, block.hash, block, parent.height + 1, newUTXOPool);
      AcceptableHeight(blockchain, heights, blockCount, maxHeight, parent.hash);
      StoreBlock(newBlockWrapper);
      RemoveFromTransactionPool(block.transactions);
      return true;
    }

    /** Block admission. A block without a parent, or whose parent is not
        retained, is refused with no change; a block already present is
        accepted with no change; any other block is admitted as `AddChild` says. */
    method AddBlock(block: Block) returns (ok: bool)
      requires ChainInvariant(blockchain, heights, blockCount, maxHeight)
      requires block.prevBlockHash.Some? && block.prevBlockHash.value in blockchain && block.hash !in blockchain ==>
                 |block.coinbase.outputs| > 0
      modifies this
      ensures ChainInvariant(blockchain, heights, blockCount, maxHeight)
      ensures forall b :: b in old(blockchain) ==> unchanged(old(blockchain)[b].utxoPool)
      ensures block.prevBlockHash.None? ==> !ok && unchanged(this)
      ensures block.prevBlockHash.Some? && block.prevBlockHash.value !in old(blockchain) ==> !ok && unchanged(this)
      ensures block.prevBlockHash.Some? && block.prevBlockHash.value in old(blockchain) && block.hash in old(blockchain) ==>
                ok && unchanged(this)
      ensures block.prevBlockHash.Some? && block.prevBlockHash.value in old(blockchain) && block.hash !in old(blockchain) ==>
                var parent := old(blockchain)[block.prevBlockHash.value];
                var r := Resolve(old(parent.utxoPool.utxos), Dedup(block.transactions), crypto);
                var h := parent.height + 1;
                && (ok <==> |block.transactions| == |r.admitted|)
                && (!ok ==> unchanged(this))
                && (ok ==>
                      && old(maxHeight) - CUT_OFF_AGE < h <= old(maxHeight) + 1
                      && block.hash in blockchain
                      && var rec := blockchain[block.hash];
                      && rec == BlockWrapper(old(blockCount), block.hash, block, h, rec.utxoPool)
                      && fresh(rec.utxoPool)
                      && rec.utxoPool.utxos == r.pool[UTXO(block.coinbase.hash, 0) := block.coinbase.outputs[0]]
                      && blockCount == old(blockCount) + 1
                      && maxHeight == (if h > old(maxHeight) then h else old(maxHeight))
                      && blockchain == AdmittedChain(old(blockchain), old(heights), old(maxHeight), rec)
                      && heights == AdmittedHeights(old(heights), old(maxHeight), rec)
                      && transactionPool == old(transactionPool) -
                           (set k | 0 <= k < |block.transactions| :: block.transactions[k].hash))
    {
      // A block without a parent cannot be added (only the genesis block has none).
      if block.prevBlockHash.None? {
        return false;
      }
      var prevBlockHash := block.prevBlockHash.value;
      // The parent is unknown, or pruned as outdated.
      if prevBlockHash !in blockchain {
        return false;
      }
      // Already added: processing it again would change its serial ID.
      if block.hash in blockchain {
        return true;
      }
      var parent := blockchain[prevBlockHash];
      ok := AddChild(block, parent);
    }

    /** Adds `tx` to the pending pool under its hash, without validation. */
    method AddTransaction(tx: Transaction)
      modifies this`transactionPool
      ensures transactionPool == old(transactionPool)[tx.hash := tx]
    {
      transactionPool := transactionPool[tx.hash := tx];
    }
  }
}
