/** The transaction handler: one UTXO pool, a validator against it, and the
    maximal-subset batch resolver that admits transactions into it. */
module TxHandling {
  import opened Utxo
  import opened Resolver

  class TxHandler {
    var utxoPool: UTXOPool
    const crypto: Crypto

    /** Stores a copy of the caller's pool, never the caller's object. */
    constructor (utxoPool: UTXOPool, crypto: Crypto)
      ensures fresh(this.utxoPool)
      ensures this.utxoPool.utxos == utxoPool.utxos
      ensures this.crypto == crypto
    {
      this.utxoPool := new UTXOPool.Copy(utxoPool);
      this.crypto := crypto;
    }

    /** True exactly when `tx` is valid against the current pool. */
    method IsValidTx(tx: Transaction) returns (valid: bool)
      ensures valid <==> ValidTx(tx, utxoPool.utxos, crypto)
    {
      valid := CheckTx(utxoPool, tx, crypto);
    }

    /** Spends the inputs of `tx` and credits its outputs; no other key changes. */
    method HandleValidTx(tx: Transaction)
      modifies utxoPool
      ensures utxoPool.utxos == ApplyTx(old(utxoPool.utxos), tx)
      ensures forall u :: u !in SpentUtxos(tx) && !IsOutputOf(u, tx) ==>
                (u in utxoPool.utxos <==> u in old(utxoPool.utxos)) &&
                (u in utxoPool.utxos ==> utxoPool.utxos[u] == old(utxoPool.utxos)[u])
    {
      Resolver.HandleValidTx(utxoPool, tx);
    }

    /** Admits a maximal mutually valid subset of the candidates, in admission
        order, and leaves the pool with their effects applied. */
    method HandleTxs(possibleTxs: seq<Transaction>) returns (validTx: seq<Transaction>)
      modifies utxoPool
      ensures validTx == Resolve(old(utxoPool.utxos), Dedup(possibleTxs), crypto).admitted
      ensures forall t :: t in validTx ==> t in possibleTxs
      ensures NoDuplicates(validTx)
      ensures ValidSeq(old(utxoPool.utxos), validTx, crypto)
      ensures utxoPool.utxos == ApplySeq(old(utxoPool.utxos), validTx)
      ensures forall t :: t in possibleTxs && t !in validTx ==> !ValidTx(t, utxoPool.utxos, crypto)
    {
      ghost var passes;
      HandleTxsCorrect(utxoPool.utxos, possibleTxs, crypto);
      validTx, passes := ResolveTxs(utxoPool, possibleTxs, crypto);
    }

    function GetUTXOPool(): (p: UTXOPool)
      reads this
      ensures p == utxoPool
    {
      utxoPool
    }
  }

  /** What the copy in the constructor buys: changing the handler's pool
      leaves the caller's pool as it was. */
  method HandlerPoolIsIndependent(callerPool: UTXOPool, crypto: Crypto, tx: Transaction)
    returns (handler: TxHandler)
    ensures handler.utxoPool != callerPool
    ensures callerPool.utxos == old(callerPool.utxos)
    ensures handler.utxoPool.utxos == ApplyTx(callerPool.utxos, tx)
  {
    handler := new TxHandler(callerPool, crypto);
    handler.HandleValidTx(tx);
  }
}
