# UTXO ledger validation: transaction handler and block chain

This project is a Dafny model of the ledger-validation core of a small
UTXO ("unspent transaction output") block-chain exercise, with proofs
about the model.

**Transaction handler.** A `TxHandler` holds one UTXO pool, which maps the
key `(transaction hash, output index)` to an output (a value and an owner
key).
- It decides whether a transaction is valid against the pool.
  - Every claimed output must be in the pool.
  - No output may be claimed twice.
  - Every input's signature must verify under the owner key of the output it claims.
  - No output value may be negative.
  - The inputs must be worth at least as much as the outputs.
- It applies a valid transaction in place: the inputs are spent and the outputs are credited at `(tx.hash, i)`.
- It resolves an unordered batch of candidates by repeated full passes. Each pass admits every candidate that is valid against the pool as it stands at that moment. The passes stop when one pass admits nothing.

**Block chain.** A `BlockChain` reuses the same validator and resolver in
all-or-nothing mode, and keeps the following state:
- records indexed by block hash;
- the hashes at each height, in arrival order;
- an arrival counter and the maximum height;
- a pool of pending transactions.

A block is admitted on top of a retained parent. Its transactions are
resolved against a copy of the parent's pool. If they are all admitted:
- the first coinbase output is credited;
- the record is stored at the parent's height plus one;
- its transactions leave the pending pool;
- when the block raises the maximum height, the single height
  `maxHeight - CUT_OFF_AGE - 1` is pruned.

The head is the record at the maximum height with the smallest serial ID,
that is, the earliest arrival.

Modules:
- `Utxo`: the value types and the validity rule `ValidTx`. It also defines the effect of one transaction (`ApplyTx`) and of a sequence (`ApplySeq`, `ValidSeq`), and proves conservation, and no double spend under a freshness assumption on transaction hashes. The collaborator pool object is `class UTXOPool`.
- `Resolver`: the resolver as specification functions (`Dedup`, `Pass`, `Resolve`, `Passes`) with their lemmas. It also holds the imperative loops that both classes share: `CheckTx`, `HandleValidTx`, `AddOutputs`, `ResolvePass`, `ResolveLoop` and `ResolveTxs`. Each loop is proved equal to its specification function.
- `TxHandling`: `class TxHandler`.
- `ChainIndex`:
  - the block and record types;
  - the invariant tying the two indices, the counter and the retention window together (`ChainInvariant`);
  - the states after admission (`AdmittedChain`, `AdmittedHeights`);
  - the lemmas showing that admission and pruning keep the invariant.
- `Chain`: `class BlockChain`, whose fields are updated in place by its methods. Each method states its exact new state. `AddBlock` (through `AddChild` and `StoreBlock`) keeps `ChainInvariant`. `AddTransaction` and `RemoveFromTransactionPool` change only the pending pool and leave the indices alone. The helpers `RemoveOutdatedBlocks` and `AddToHeightMap` do not keep the invariant on their own: pruning at the maximum height, or listing a hash that names no record, breaks it. They keep it only as the constructor and `StoreBlock` call them.

What the source does that the model follows:
- The signature check and the signed bytes of an input are given as a `Crypto` value: two total functions.
- Hashes are given fields and are never recomputed.
- The iteration order of the candidate set is the order in which candidates first occur (`Dedup`). Every property is proved for every candidate list. Any other iteration order is therefore covered by running the model on the candidates in that order.
- `checkTxs` compares the size of the list, duplicates included, with the number of admitted transactions. So a block that names the same transaction twice is never accepted (`Resolver.AllAdmitted`).
- The height pruned when the maximum rises may be height 1. Once the maximum height reaches `CUT_OFF_AGE + 2` (12), the genesis record is pruned like any other. Height 1 gets no exemption.

## Model

| member | source | states |
|---|---|---|
| Utxo.ValidTx | assignment3/TxHandler.java:56-107 | the validity rule: every claimed key is in the pool, no key is claimed twice, every signature verifies under the claimed output's address, no output is negative, and the input sum is at least the output sum |
| Utxo.OutputUtxos | assignment3/TxHandler.java:123-126 | the keys created by a transaction are exactly `(tx.hash, i)` for its output indices, each mapped to output `i` |
| Utxo.ApplyTx | assignment3/TxHandler.java:112-127 | after a transaction, a key is present exactly when it was present and not spent, or is one of the transaction's outputs; untouched keys keep their outputs; output `i` sits at `(tx.hash, i)` |
| Utxo.ValidSeqAt | assignment3/TxHandler.java:147-153 | a sequence is valid exactly when each transaction is valid against the pool left by the transactions before it |
| Utxo.Conservation | assignment3/TxHandler.java:96-105 | in a valid sequence no transaction has a negative output, and none creates more value than it consumed at the moment it was applied |
| Utxo.NonNegativePreserved | assignment3/TxHandler.java:96-102 | a pool without negative values keeps none after a valid sequence |
| Utxo.NoDoubleSpend | assignment3/TxHandler.java:79-86 | under fresh transaction hashes, no two transactions of a valid sequence consume a common key |
| Utxo.UTXOPool.Empty | assignment3/BlockChain.java:56 | a new pool holds no key |
| Utxo.UTXOPool.Copy | assignment3/TxHandler.java:17 | the copy-constructed pool has the same contents as the original |
| Utxo.UTXOPool.Contains | assignment3/TxHandler.java:84 | true exactly when the key is in the pool |
| Utxo.UTXOPool.GetTxOutput | assignment3/TxHandler.java:89 | the output stored under a present key |
| Utxo.UTXOPool.AddUTXO | assignment3/TxHandler.java:125 | the pool with the key set to the output |
| Utxo.UTXOPool.RemoveUTXO | assignment3/TxHandler.java:120 | the pool without the key |
| Resolver.Dedup | assignment3/TxHandler.java:138-141 | the candidate set holds the same transactions as the candidate list, each once, and is no longer than the list |
| Resolver.CollectCandidates | assignment3/TxHandler.java:138-141 | the loop that fills the set yields the distinct candidates in first-occurrence order |
| Resolver.Pass | assignment3/TxHandler.java:147-154 | one pass in iteration order: a transaction valid against the current pool is admitted and applied at once, so later transactions of the same pass see its effect; the others stay unresolved |
| Resolver.PassPartition | assignment3/TxHandler.java:147-154 | one pass splits its input between the admitted and the remaining transactions, as a multiset |
| Resolver.PassAdmitsNothing | assignment3/TxHandler.java:155-156 | a pass that admits nothing leaves the remaining set and the pool unchanged, and none of its transactions was valid |
| Resolver.PassSound | assignment3/TxHandler.java:147-154 | what one pass admits is a valid sequence, and the pool it leaves is the old pool with those transactions applied |
| Resolver.Resolve | assignment3/TxHandler.java:144-156 | admitted and unresolved transactions partition the candidates; no unresolved transaction is valid against the final pool |
| Resolver.Passes | assignment3/TxHandler.java:142-156 | the resolver makes at least one and at most (number of distinct candidates + 1) passes |
| Resolver.ResolveSound | assignment3/TxHandler.java:136-158 | the admitted transactions form a valid sequence that yields the final pool |
| Resolver.DedupKeepsLength | assignment3/BlockChain.java:232 | the candidate set is as long as the list exactly when the list has no duplicates |
| Resolver.HandleTxsCorrect | assignment3/TxHandler.java:134-159 | every returned transaction is a candidate and appears once; each was valid when admitted; the final pool applies them in order; every candidate not returned is invalid against the final pool; passes are bounded |
| Resolver.ReofferedTxDoubleSpend | assignment3/TxHandler.java:144-156 | a batch of a spender, the re-offered transaction that created the spent key, and a second spender, all with distinct hashes, is admitted in full, although both spenders consume the same key |
| Resolver.AllAdmitted | assignment3/BlockChain.java:209-233 | all candidates are admitted exactly when the list has no duplicates and nothing is left unresolved |
| Resolver.CheckTx | assignment3/TxHandler.java:65-107 | the validation loop returns true exactly when the five validity conditions hold |
| Resolver.HandleValidTx | assignment3/TxHandler.java:112-127 | the removal and insertion loops leave the pool equal to `ApplyTx` of the old pool |
| Resolver.AddOutputs | assignment3/BlockChain.java:61-65 | the loop adds exactly the transaction's outputs under `(tx.hash, i)` |
| Resolver.ResolvePass | assignment3/TxHandler.java:147-154 | the iterator loop computes one pass: the remaining transactions, the admitted ones in order and the resulting pool |
| Resolver.ResolveLoop | assignment3/TxHandler.java:142-156 | the do-while loop returns the admitted transactions of `Resolve`, leaves its final pool, and makes `Passes` passes |
| Resolver.ResolveTxs | assignment3/TxHandler.java:136-156 | the resolver returns `Resolve` of the distinct candidates and leaves its final pool |
| TxHandling.TxHandler.constructor | assignment3/TxHandler.java:15-18 | the handler's pool is a fresh object with the caller's contents |
| TxHandling.TxHandler.IsValidTx | assignment3/TxHandler.java:65-107 | true exactly when the transaction is valid against the handler's pool |
| TxHandling.TxHandler.HandleValidTx | assignment3/TxHandler.java:112-127 | the pool becomes `ApplyTx` of the old pool; every key neither spent nor created keeps its presence and output |
| TxHandling.TxHandler.HandleTxs | assignment3/TxHandler.java:134-159 | the returned transactions are candidates, distinct, each valid when admitted; the pool is the old pool with them applied; every candidate left out is invalid against the new pool |
| TxHandling.TxHandler.GetUTXOPool | assignment3/TxHandler.java:161-163 | the handler's own pool object |
| TxHandling.HandlerPoolIsIndependent | assignment3/TxHandler.java:8-18 | applying a transaction through the handler changes the handler's pool and leaves the caller's pool as it was |
| ChainIndex.AddToHeights | assignment3/BlockChain.java:321-330 | the height index after listing a hash: a new height gets a one-element list; an existing list gains the hash at its end unless it already holds it |
| ChainIndex.Pruned | assignment3/BlockChain.java:236-245 | the hash index without every record listed at the pruned height, and unchanged when that height is not indexed |
| ChainIndex.AdmittedChain | assignment3/BlockChain.java:293-310 | the hash index after admission: the new record stored, and when its height exceeds the maximum, the records listed at `height - CUT_OFF_AGE - 1` removed |
| ChainIndex.AdmittedHeights | assignment3/BlockChain.java:293-310 | the height index after admission: the new hash listed at its height, and when its height exceeds the maximum, `height - CUT_OFF_AGE - 1` removed |
| ChainIndex.IsHead | assignment3/BlockChain.java:75-89 | the head condition: a record listed at the maximum height, stored under its hash, whose serial ID is no larger than that of any record listed there |
| ChainIndex.GenesisInvariant | assignment3/BlockChain.java:66-71 | one record at height 1 with serial ID 0, listed alone at height 1, satisfies the chain invariant with counter 1 and maximum height 1 |
| ChainIndex.HeadCandidates | assignment3/BlockChain.java:77-78 | under the invariant the maximum height has a non-empty list, each of whose hashes names a record at that height |
| ChainIndex.HeadUnique | assignment3/BlockChain.java:75-89 | under the invariant two records that both satisfy the head condition are equal: the tie-break picks one head |
| ChainIndex.AcceptableHeight | assignment3/BlockChain.java:247-256 | a child of a retained block lands above `maxHeight - CUT_OFF_AGE` and at most one above `maxHeight`; height 2 is possible only while `maxHeight <= CUT_OFF_AGE + 1` |
| ChainIndex.AppendNoDuplicates | assignment3/BlockChain.java:328 | appending an absent hash keeps a height list duplicate-free |
| ChainIndex.InsertKeepsIndexed | assignment3/BlockChain.java:293-296 | storing a new record with the next serial ID and its own pool keeps the two indices consistent |
| ChainIndex.PruneKeepsIndexed | assignment3/BlockChain.java:236-245 | dropping one height, and the records listed there, keeps the two indices consistent |
| ChainIndex.AdmitKeepsWindow | assignment3/BlockChain.java:306-310 | a block at or below the maximum keeps the window; one that raises it restores the window once the single height `h - CUT_OFF_AGE - 1` is dropped |
| ChainIndex.NewRecordRetained | assignment3/BlockChain.java:306-310 | the new record survives the pruning that its own arrival triggers |
| ChainIndex.AdmitBelowMax | assignment3/BlockChain.java:293-305 | storing a record at or below the maximum height keeps the chain invariant |
| ChainIndex.AdmitAboveMax | assignment3/BlockChain.java:293-310 | storing a record one above the maximum and pruning the height that leaves the window keeps the chain invariant and retains the record |
| ChainIndex.AdmitKeepsInvariant | assignment3/BlockChain.java:293-310 | admission as a whole keeps the chain invariant and retains the new record |
| Chain.BlockChain.constructor | assignment3/BlockChain.java:48-72 | one record at height 1 with serial ID 0 whose fresh pool is exactly the coinbase outputs; `heights == {1: [genesis]}`; `maxHeight == 1`, `blockCount == 1`; empty pending pool; invariant established |
| Chain.BlockChain.GetMaxHeightBlockWrapper | assignment3/BlockChain.java:75-89 | the min-search loop returns a record listed at the maximum height whose serial ID is no larger than that of any record listed there |
| Chain.BlockChain.GetMaxHeightBlock | assignment3/BlockChain.java:92-95 | the block of the head record |
| Chain.BlockChain.GetMaxHeightUTXOPool | assignment3/BlockChain.java:98-101 | the pool object of the head record |
| Chain.BlockChain.GetTransactionPool | assignment3/BlockChain.java:104-107 | the pending pool |
| Chain.BlockChain.IsValidTx | assignment3/BlockChain.java:144-188 | true exactly when the transaction is valid against the given pool |
| Chain.BlockChain.HandleValidTx | assignment3/BlockChain.java:191-206 | the given pool becomes `ApplyTx` of its old contents |
| Chain.BlockChain.CheckTxs | assignment3/BlockChain.java:209-233 | the pool is left as `Resolve` leaves it, a valid sequence applied; true exactly when every listed transaction was admitted, which is exactly when there are no duplicates and nothing is left unresolved |
| Chain.BlockChain.RemoveOutdatedBlocks | assignment3/BlockChain.java:236-245 | the records listed at the height leave the hash index and the height leaves the height index; nothing else changes |
| Chain.BlockChain.AddToHeightMap | assignment3/BlockChain.java:321-330 | the hash is listed at the height, appended only if absent; nothing else changes |
| Chain.BlockChain.RemoveFromTransactionPool | assignment3/BlockChain.java:300-302 | the pending pool loses exactly the hashes of the given transactions |
| Chain.BlockChain.BlockPool | assignment3/BlockChain.java:280-290 | a fresh pool; true exactly when all transactions were admitted, and then the pool is the resolved copy plus `(coinbase.hash, 0)` mapped to the first coinbase output |
| Chain.BlockChain.StoreBlock | assignment3/BlockChain.java:293-310 | the record is stored and listed; the counter rises by one; a record that raises the maximum prunes the height leaving the window; the invariant is kept |
| Chain.BlockChain.AddChild | assignment3/BlockChain.java:279-311 | with a retained parent and a fresh hash: if any transaction is left out, false and nothing changes; otherwise a new record with the prior counter as serial ID, the parent's height plus one, and the resolved pool plus the coinbase output; the indices as admission defines them; block transactions leave the pending pool |
| Chain.BlockChain.AddBlock | assignment3/BlockChain.java:259-312 | false with no change for a block without a parent or with an unretained parent; true with no change for a block already present; otherwise as `AddChild`; stored pools are never touched; the invariant is kept |
| Chain.BlockChain.AddTransaction | assignment3/BlockChain.java:315-318 | the pending pool gains the transaction under its hash |

## Left out

- Console output (`printTransaction`, `printUTXOPool` in both files) is not modelled.
- Signature verification with SHA256withRSA, and the transaction's signed bytes, are not modelled. They become the two functions of the `Crypto` parameter. The `SignatureException` that the code prints and swallows makes the check answer false, and that outcome is folded into the function. On the `NoSuchAlgorithmException` path `sig` stays null, and the next call throws a `NullPointerException` that nothing catches. The model has no such path.
- Values are exact `real` numbers, not `double`. Nothing is claimed about floating-point rounding of the running sums. Java `double` also has NaN, and both `NaN < 0` and `inputSum < NaN` are false. So the source accepts a transaction with no inputs and a NaN output, and any later spend of that output. `Utxo.Conservation` and `Utxo.NonNegativePreserved` hold for the real-valued model only.
- Java `int` overflow of `blockCount`, `maxHeight` and heights is not modelled; they are unbounded integers.
- `Transaction`, `Block`, `ByteArrayWrapper` and `TransactionPool` are not part of this model. They become datatypes and a map from hash to transaction, and transaction hashing is a given field. `UTXOPool` becomes a class around a map with the operations the core uses.
- The records of the chain are immutable datatypes holding a reference to their own pool object. The source never changes a record after creating it.
- Iteration order of `HashSet`: the model iterates in first-occurrence order; see above for why this covers every order.
- `handleTxs` returns an array in the source; the model returns a sequence.
- Chain.BlockChain.AddBlock: requires the coinbase to have at least one output, but only for a block that has a retained parent and a hash not yet stored. Such a block with an empty coinbase fails in the source at the coinbase credit with an index error, but only after all its transactions were admitted. When the list is rejected, the source returns false normally, and the requirement excludes that case too. The other exits (no parent, unknown parent, duplicate block) are not restricted.
- Chain.BlockChain.AddChild: requires the coinbase to have at least one output, for the same reason. This also excludes the rejected-transactions exit for such blocks.
- Chain.BlockChain.BlockPool: requires the coinbase to have at least one output, for the same reason. This also excludes the rejected-transactions exit for such blocks.
- Chain.BlockChain.GetMaxHeightBlockWrapper: requires the chain invariant, which the constructor establishes and `AddBlock` keeps; `AddTransaction` does not touch the indices. Without it the source could fail on a missing list.
- Chain.BlockChain.AddBlock: the same holds for its requirement of the chain invariant.
- Utxo.NoDoubleSpend: proved under a freshness assumption. Transaction hashes must be pairwise distinct and must not be the hash behind any key already in the pool. The source checks neither condition. Collision-free hashing gives the first condition but not the second: a transaction offered again after it was applied re-credits the key it created. Then two other transactions of the same batch can both spend that key. `Resolver.ReofferedTxDoubleSpend` shows such a batch; it has distinct hashes and is admitted in full.
- `consensus-from-trust/CompliantNode.java` is not part of this model. It is a node of a simulated broadcast protocol, not ledger logic.
