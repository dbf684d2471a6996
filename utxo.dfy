/** Values of the ledger: outputs, inputs, transactions, unspent-output keys and
    the pool that maps them, with the validity rule for one transaction and the
    effect of applying it. */
module Utxo {

  type Bytes = seq<bv8>
  type Hash = Bytes
  type PublicKey = Bytes

  datatype Option<T> = None | Some(value: T)

  /** A coin: its value and the key that may spend it. */
  datatype Output = Output(value: real, address: PublicKey)

  /** A claim on the output `outputIndex` of the transaction `prevTxHash`. */
  datatype Input = Input(prevTxHash: Hash, outputIndex: int, signature: Bytes)

  /** The hash is a given identity; it is not recomputed from the contents. */
  datatype Transaction = Transaction(hash: Hash, inputs: seq<Input>, outputs: seq<Output>)

  /** The key of one unspent output. */
  datatype UTXO = UTXO(txHash: Hash, index: int)

  type Pool = map<UTXO, Output>

  /** The cryptographic capabilities the validator consumes: signature
      verification, and the bytes input `i` of a transaction signs. */
  datatype Crypto = Crypto(
    verifySignature: (PublicKey, Bytes, Bytes) -> bool,
    rawDataToSign: (Transaction, int) -> Bytes)

  /** Each element occurs at most once. */
  predicate NoDuplicates<T(==)>(s: seq<T>) {
    forall x | x in s :: multiset(s)[x] <= 1
  }

  function InputUtxo(inp: Input): UTXO {
    UTXO(inp.prevTxHash, inp.outputIndex)
  }

  /** The keys a transaction consumes. */
  function SpentUtxos(tx: Transaction): set<UTXO> {
    set i | 0 <= i < |tx.inputs| :: InputUtxo(tx.inputs[i])
  }

  /** True of the keys a transaction creates: `(tx.hash, i)` for each output index `i`. */
  predicate IsOutputOf(u: UTXO, tx: Transaction) {
    u.txHash == tx.hash && 0 <= u.index < |tx.outputs|
  }

  /** The outputs of `tx`, keyed `(tx.hash, i)`. */
  function OutputUtxos(tx: Transaction): (m: Pool)
    ensures forall u :: u in m <==> IsOutputOf(u, tx)
    ensures forall i :: 0 <= i < |tx.outputs| ==> UTXO(tx.hash, i) in m && m[UTXO(tx.hash, i)] == tx.outputs[i]
  {
    map i | 0 <= i < |tx.outputs| :: UTXO(tx.hash, i) := tx.outputs[i]
  }

  /** The value held at `u`, zero when `u` is not in the pool. */
  function ValueAt(pool: Pool, u: UTXO): real {
    if u in pool then pool[u].value else 0.0
  }

  function InputSum(ins: seq<Input>, pool: Pool): real {
    if ins == [] then 0.0
    else InputSum(ins[..|ins| - 1], pool) + ValueAt(pool, InputUtxo(ins[|ins| - 1]))
  }

  function OutputSum(outs: seq<Output>): real {
    if outs == [] then 0.0
    else OutputSum(outs[..|outs| - 1]) + outs[|outs| - 1].value
  }

  // The five conditions of a valid transaction.

  predicate AllInPool(tx: Transaction, pool: Pool) {
    forall i :: 0 <= i < |tx.inputs| ==> InputUtxo(tx.inputs[i]) in pool
  }

  predicate NoDoubleClaim(tx: Transaction) {
    forall i, j :: 0 <= i < j < |tx.inputs| ==> InputUtxo(tx.inputs[i]) != InputUtxo(tx.inputs[j])
  }

  predicate SignatureOk(tx: Transaction, pool: Pool, crypto: Crypto, i: int)
    requires 0 <= i < |tx.inputs| && InputUtxo(tx.inputs[i]) in pool
  {
    crypto.verifySignature(pool[InputUtxo(tx.inputs[i])].address, crypto.rawDataToSign(tx, i), tx.inputs[i].signature)
  }

  predicate SignaturesVerify(tx: Transaction, pool: Pool, crypto: Crypto) {
    forall i :: 0 <= i < |tx.inputs| && InputUtxo(tx.inputs[i]) in pool ==> SignatureOk(tx, pool, crypto, i)
  }

  predicate OutputsNonNegative(tx: Transaction) {
    forall i :: 0 <= i < |tx.outputs| ==> tx.outputs[i].value >= 0.0
  }

  /** A transaction is valid against a pool when all five conditions hold. */
  predicate ValidTx(tx: Transaction, pool: Pool, crypto: Crypto) {
    && AllInPool(tx, pool)
    && NoDoubleClaim(tx)
    && SignaturesVerify(tx, pool, crypto)
    && OutputsNonNegative(tx)
    && InputSum(tx.inputs, pool) >= OutputSum(tx.outputs)
  }

  /** The pool after `tx`: its inputs spent, then its outputs credited. */
  function ApplyTx(pool: Pool, tx: Transaction): (r: Pool)
    ensures forall u :: u in r <==> (u in pool && u !in SpentUtxos(tx)) || IsOutputOf(u, tx)
    ensures forall u :: u in r && !IsOutputOf(u, tx) ==> r[u] == pool[u]
    ensures forall i :: 0 <= i < |tx.outputs| ==> UTXO(tx.hash, i) in r && r[UTXO(tx.hash, i)] == tx.outputs[i]
  {
    (pool - SpentUtxos(tx)) + OutputUtxos(tx)
  }

  /** The pool after applying `txs` in order. */
  function ApplySeq(pool: Pool, txs: seq<Transaction>): Pool
    decreases |txs|
  {
    if txs == [] then pool else ApplySeq(ApplyTx(pool, txs[0]), txs[1..])
  }

  /** Each transaction of `txs` is valid against the pool left by those before it. */
  predicate ValidSeq(pool: Pool, txs: seq<Transaction>, crypto: Crypto)
    decreases |txs|
  {
    txs == [] || (ValidTx(txs[0], pool, crypto) && ValidSeq(ApplyTx(pool, txs[0]), txs[1..], crypto))
  }

  lemma {:induction false} ApplySeqAppend(pool: Pool, a: seq<Transaction>, b: seq<Transaction>)
    ensures ApplySeq(pool, a + b) == ApplySeq(ApplySeq(pool, a), b)
    decreases |a|
  {
    if a != [] {
      assert (a + b)[1..] == a[1..] + b;
      ApplySeqAppend(ApplyTx(pool, a[0]), a[1..], b);
    } else {
      assert a + b == b;
    }
  }

  lemma {:induction false} ValidSeqAppend(pool: Pool, a: seq<Transaction>, b: seq<Transaction>, crypto: Crypto)
    ensures ValidSeq(pool, a + b, crypto) <==> ValidSeq(pool, a, crypto) && ValidSeq(ApplySeq(pool, a), b, crypto)
    decreases |a|
  {
    if a != [] {
      assert (a + b)[0] == a[0];
      assert (a + b)[1..] == a[1..] + b;
      ValidSeqAppend(ApplyTx(pool, a[0]), a[1..], b, crypto);
    } else {
      assert a + b == b;
    }
  }

  /** Applying one more transaction at the end. */
  lemma ApplySeqSnoc(pool: Pool, a: seq<Transaction>, t: Transaction, crypto: Crypto)
    ensures ApplySeq(pool, a + [t]) == ApplyTx(ApplySeq(pool, a), t)
    ensures ValidSeq(pool, a + [t], crypto) <==> ValidSeq(pool, a, crypto) && ValidTx(t, ApplySeq(pool, a), crypto)
  {
    ApplySeqAppend(pool, a, [t]);
    ValidSeqAppend(pool, a, [t], crypto);
    assert [t][1..] == [];
  }

  /** `ValidSeq` says exactly that each transaction was valid against the pool
      at the moment it was applied. */
  lemma {:induction false} ValidSeqAt(pool: Pool, txs: seq<Transaction>, crypto: Crypto)
    ensures ValidSeq(pool, txs, crypto) <==>
            forall k :: 0 <= k < |txs| ==> ValidTx(txs[k], ApplySeq(pool, txs[..k]), crypto)
    decreases |txs|
  {
    if txs != [] {
      var p1 := ApplyTx(pool, txs[0]);
      ValidSeqAt(p1, txs[1..], crypto);
      assert txs[..0] == [];
      forall k | 1 <= k < |txs|
        ensures ApplySeq(pool, txs[..k]) == ApplySeq(p1, txs[1..][..k - 1])
      {
        assert txs[..k][0] == txs[0];
        assert txs[..k][1..] == txs[1..][..k - 1];
      }
      if forall k :: 0 <= k < |txs| ==> ValidTx(txs[k], ApplySeq(pool, txs[..k]), crypto) {
        forall k | 0 <= k < |txs[1..]|
          ensures ValidTx(txs[1..][k], ApplySeq(p1, txs[1..][..k]), crypto)
        {
          assert txs[1..][k] == txs[k + 1];
        }
      }
      if ValidSeq(pool, txs, crypto) {
        forall k | 0 <= k < |txs|
          ensures ValidTx(txs[k], ApplySeq(pool, txs[..k]), crypto)
        {
          if k > 0 {
            assert txs[1..][k - 1] == txs[k];
          }
        }
      }
    }
  }

  /** Conservation: each transaction of a valid sequence creates no negative
      output and no more value than it consumed at the moment it was applied. */
  lemma Conservation(pool: Pool, txs: seq<Transaction>, crypto: Crypto)
    requires ValidSeq(pool, txs, crypto)
    ensures forall k :: 0 <= k < |txs| ==>
              OutputsNonNegative(txs[k]) &&
              OutputSum(txs[k].outputs) <= InputSum(txs[k].inputs, ApplySeq(pool, txs[..k]))
  {
    ValidSeqAt(pool, txs, crypto);
  }

  predicate NonNegativePool(pool: Pool) {
    forall u :: u in pool ==> pool[u].value >= 0.0
  }

  /** A pool without negative values keeps none after a valid sequence. */
  lemma {:induction false} NonNegativePreserved(pool: Pool, txs: seq<Transaction>, crypto: Crypto)
    requires NonNegativePool(pool) && ValidSeq(pool, txs, crypto)
    ensures NonNegativePool(ApplySeq(pool, txs))
    decreases |txs|
  {
    if txs != [] {
      var p1 := ApplyTx(pool, txs[0]);
      forall u | u in p1 ensures p1[u].value >= 0.0 {
        if IsOutputOf(u, txs[0]) {
          assert p1[u] == txs[0].outputs[u.index];
        }
      }
      NonNegativePreserved(p1, txs[1..], crypto);
    }
  }

  /** The trust assumption behind "no double spend": transaction hashes are
      distinct, and none of them is the hash that produced a key of the pool. */
  predicate FreshHashes(pool: Pool, txs: seq<Transaction>) {
    && (forall i, j :: 0 <= i < j < |txs| ==> txs[i].hash != txs[j].hash)
    && (forall k, u :: 0 <= k < |txs| && u in pool ==> u.txHash != txs[k].hash)
  }

  /** A key that is absent and that no transaction of `txs` can create stays absent. */
  lemma {:induction false} StaysAbsent(pool: Pool, txs: seq<Transaction>, u: UTXO)
    requires u !in pool
    requires forall k :: 0 <= k < |txs| ==> txs[k].hash != u.txHash
    ensures u !in ApplySeq(pool, txs)
    decreases |txs|
  {
    if txs != [] {
      StaysAbsent(ApplyTx(pool, txs[0]), txs[1..], u);
    }
  }

  /** No double spend: under fresh hashes, no two transactions of a valid
      sequence consume the same key. */
  lemma {:induction false} NoDoubleSpend(pool: Pool, txs: seq<Transaction>, crypto: Crypto)
    requires ValidSeq(pool, txs, crypto) && FreshHashes(pool, txs)
    ensures forall i, j :: 0 <= i < j < |txs| ==> SpentUtxos(txs[i]) !! SpentUtxos(txs[j])
    decreases |txs|
  {
    if txs != [] {
      var t, rest := txs[0], txs[1..];
      var p1 := ApplyTx(pool, t);
      forall k, u | 0 <= k < |rest| && u in p1 ensures u.txHash != rest[k].hash {
        assert rest[k] == txs[k + 1];
      }
      NoDoubleSpend(p1, rest, crypto);
      ValidSeqAt(p1, rest, crypto);
      forall j, u | 0 < j < |txs| && u in SpentUtxos(t) ensures u !in SpentUtxos(txs[j]) {
        var i :| 0 <= i < |t.inputs| && u == InputUtxo(t.inputs[i]);
        assert u in pool;
        assert u !in p1;
        var before := rest[..j - 1];
        forall k | 0 <= k < |before| ensures before[k].hash != u.txHash {
          assert before[k] == txs[k + 1];
        }
        StaysAbsent(p1, before, u);
        assert rest[j - 1] == txs[j];
      }
      forall i, j | 0 <= i < j < |txs| ensures SpentUtxos(txs[i]) !! SpentUtxos(txs[j]) {
        if i > 0 {
          assert txs[i] == rest[i - 1] && txs[j] == rest[j - 1];
        }
      }
    }
  }

  /** The collaborator pool object: a mutable map from keys to outputs. */
  class UTXOPool {
    var utxos: Pool

    constructor Empty()
      ensures utxos == map[]
    {
      utxos := map[];
    }

    /** The copy constructor: a fresh pool with the same contents. */
    constructor Copy(other: UTXOPool)
      ensures utxos == other.utxos
    {
      utxos := other.utxos;
    }

    function Contains(u: UTXO): (b: bool)
      reads this
      ensures b <==> u in utxos
    {
      u in utxos
    }

    function GetTxOutput(u: UTXO): (o: Output)
      requires u in utxos
      reads this
      ensures o == utxos[u]
    {
      utxos[u]
    }

    method AddUTXO(u: UTXO, o: Output)
      modifies this
      ensures utxos == old(utxos)[u := o]
    {
      utxos := utxos[u := o];
    }

    method RemoveUTXO(u: UTXO)
      modifies this
      ensures utxos == old(utxos) - {u}
    {
      utxos := utxos - {u};
    }
  }
}
