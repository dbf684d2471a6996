/** The transaction validator and the fixed-point batch resolver shared by
    `TxHandler` (maximal-subset mode) and `BlockChain` (all-or-nothing mode):
    the specification as functions, and the loops that mutate a pool object,
    each proved equal to its specification. */
module Resolver {
  import opened Utxo

  /** The distinct elements of `s` in order of first occurrence: the
      unresolved set built from the candidates. */
  function Dedup(s: seq<Transaction>): (d: seq<Transaction>)
    ensures forall x :: x in d <==> x in s
    ensures NoDuplicates(d)
    ensures |d| <= |s|
  {
    if s == [] then []
    else
      var d := Dedup(s[..|s| - 1]);
      var x := s[|s| - 1];
      assert forall y :: y in s <==> y in s[..|s| - 1] || y == x by {
        assert s == s[..|s| - 1] + [x];
      }
      if x in d then d else d + [x]
  }

  /** What one full pass over the unresolved transactions leaves: those still
      unresolved, those admitted (in admission order), and the pool. */
  datatype PassResult = PassResult(rest: seq<Transaction>, admitted: seq<Transaction>, pool: Pool)

  /** One pass: each transaction valid against the current pool is admitted
      and applied at once, so later ones in the same pass see its outputs. */
  function Pass(pool: Pool, txs: seq<Transaction>, crypto: Crypto): PassResult
    decreases |txs|
  {
    if txs == [] then PassResult([], [], pool)
    else
      if ValidTx(txs[0], pool, crypto) then
        var r := Pass(ApplyTx(pool, txs[0]), txs[1..], crypto);
        PassResult(r.rest, [txs[0]] + r.admitted, r.pool)
      else
        var r := Pass(pool, txs[1..], crypto);
        PassResult([txs[0]] + r.rest, r.admitted, r.pool)
  }

  /** A pass splits the transactions it was given between those it admitted
      and those it left. */
  lemma {:induction false} PassPartition(pool: Pool, txs: seq<Transaction>, crypto: Crypto)
    ensures var r := Pass(pool, txs, crypto);
            |r.rest| + |r.admitted| == |txs| &&
            multiset(r.rest) + multiset(r.admitted) == multiset(txs)
    decreases |txs|
  {
    if txs != [] {
      assert txs == [txs[0]] + txs[1..];
      if ValidTx(txs[0], pool, crypto) {
        PassPartition(ApplyTx(pool, txs[0]), txs[1..], crypto);
      } else {
        PassPartition(pool, txs[1..], crypto);
      }
    }
  }

  /** A pass that admits nothing leaves everything as it was, and it
      admitted nothing because no transaction was valid against the pool. */
  lemma {:induction false} PassAdmitsNothing(pool: Pool, txs: seq<Transaction>, crypto: Crypto)
    ensures var r := Pass(pool, txs, crypto);
            r.admitted == [] ==>
              r.rest == txs && r.pool == pool &&
              forall k :: 0 <= k < |txs| ==> !ValidTx(txs[k], pool, crypto)
    decreases |txs|
  {
    if txs != [] && !ValidTx(txs[0], pool, crypto) {
      PassAdmitsNothing(pool, txs[1..], crypto);
      var r := Pass(pool, txs[1..], crypto);
      if r.admitted == [] {
        forall k | 0 <= k < |txs| ensures !ValidTx(txs[k], pool, crypto) {
          if k > 0 {
            assert txs[k] == txs[1..][k - 1];
          }
        }
      }
    }
  }

  /** The outcome of resolving a batch: the admitted transactions in admission
      order, those left unresolved, and the final pool. */
  datatype Resolution = Resolution(admitted: seq<Transaction>, unresolved: seq<Transaction>, pool: Pool)

  /** Repeated full passes until one leaves the unresolved set as large as it
      was. The result is maximal: nothing left unresolved is valid against the
      final pool. */
  function Resolve(pool: Pool, txs: seq<Transaction>, crypto: Crypto): (r: Resolution)
    ensures multiset(r.admitted) + multiset(r.unresolved) == multiset(txs)
    ensures forall t :: t in r.unresolved ==> !ValidTx(t, r.pool, crypto)
    decreases |txs|
  {
    var p := Pass(pool, txs, crypto);
    PassPartition(pool, txs, crypto);
    PassAdmitsNothing(pool, txs, crypto);
    if |p.rest| == |txs| then Resolution([], txs, pool)
    else
      var s := Resolve(p.pool, p.rest, crypto);
      Resolution(p.admitted + s.admitted, s.unresolved, s.pool)
  }

  /** The number of full passes `Resolve` makes, the last being the one that admits nothing. */
  function Passes(pool: Pool, txs: seq<Transaction>, crypto: Crypto): (n: nat)
    ensures 1 <= n <= |txs| + 1
    decreases |txs|
  {
    var p := Pass(pool, txs, crypto);
    PassPartition(pool, txs, crypto);
    if |p.rest| == |txs| then 1 else 1 + Passes(p.pool, p.rest, crypto)
  }

  /** How `Resolve` and `Passes` unfold over their first pass. */
  lemma ResolveStep(pool: Pool, txs: seq<Transaction>, crypto: Crypto)
    ensures var p := Pass(pool, txs, crypto);
            |p.rest| + |p.admitted| == |txs|
    ensures var p := Pass(pool, txs, crypto);
            if |p.rest| == |txs| then
              && p.admitted == [] && p.pool == pool
              && Resolve(pool, txs, crypto) == Resolution([], txs, pool)
              && Passes(pool, txs, crypto) == 1
            else
              && var s := Resolve(p.pool, p.rest, crypto);
              && Resolve(pool, txs, crypto) == Resolution(p.admitted + s.admitted, s.unresolved, s.pool)
              && Passes(pool, txs, crypto) == 1 + Passes(p.pool, p.rest, crypto)
  {
    PassPartition(pool, txs, crypto);
    PassAdmitsNothing(pool, txs, crypto);
  }

  /** A pass admits a valid sequence and leaves the pool it produces. */
  lemma {:induction false} PassSound(pool: Pool, txs: seq<Transaction>, crypto: Crypto)
    ensures var r := Pass(pool, txs, crypto);
            ValidSeq(pool, r.admitted, crypto) && r.pool == ApplySeq(pool, r.admitted)
    decreases |txs|
  {
    if txs != [] {
      if ValidTx(txs[0], pool, crypto) {
        PassSound(ApplyTx(pool, txs[0]), txs[1..], crypto);
        var r := Pass(ApplyTx(pool, txs[0]), txs[1..], crypto);
        assert ([txs[0]] + r.admitted)[0] == txs[0];
        assert ([txs[0]] + r.admitted)[1..] == r.admitted;
      } else {
        PassSound(pool, txs[1..], crypto);
      }
    }
  }

  /** Every admitted transaction was valid at the moment it was admitted, and
      the final pool is the initial one with the admitted transactions applied in order. */
  lemma {:induction false} ResolveSound(pool: Pool, txs: seq<Transaction>, crypto: Crypto)
    ensures var r := Resolve(pool, txs, crypto);
            ValidSeq(pool, r.admitted, crypto) && r.pool == ApplySeq(pool, r.admitted)
    decreases |txs|
  {
    var p := Pass(pool, txs, crypto);
    PassSound(pool, txs, crypto);
    PassPartition(pool, txs, crypto);
    if |p.rest| != |txs| {
      ResolveSound(p.pool, p.rest, crypto);
      var s := Resolve(p.pool, p.rest, crypto);
      assert Resolve(pool, txs, crypto).admitted == p.admitted + s.admitted;
      ApplySeqAppend(pool, p.admitted, s.admitted);
      ValidSeqAppend(pool, p.admitted, s.admitted, crypto);
    }
  }

  /** A sequence is free of duplicates exactly when deduplicating keeps its length. */
  lemma {:induction false} DedupKeepsLength(s: seq<Transaction>)
    ensures |Dedup(s)| == |s| <==> NoDuplicates(s)
    decreases |s|
  {
    if s != [] {
      var init, x := s[..|s| - 1], s[|s| - 1];
      assert s == init + [x];
      DedupKeepsLength(init);
      if x in init {
        assert multiset(s)[x] >= 2 by {
          assert multiset(s) == multiset(init) + multiset{x};
        }
      } else {
        assert multiset(s) == multiset(init) + multiset{x};
        assert NoDuplicates(s) <==> NoDuplicates(init) by {
          forall y | y in s ensures multiset(s)[y] == (if y == x then 1 else multiset(init)[y]) {
          }
        }
      }
    }
  }

  /** A sub-multiset of a duplicate-free sequence is duplicate-free. */
  lemma SubMultisetNoDuplicates<T>(a: seq<T>, b: seq<T>)
    requires multiset(a) <= multiset(b) && NoDuplicates(b)
    ensures NoDuplicates(a)
  {
    forall x | x in a ensures multiset(a)[x] <= 1 {
      assert x in multiset(b);
    }
  }

  /** The guarantees of handling a batch of candidates (duplicates collapse, as
      in a hash set): every returned transaction is a candidate and appears
      once; each was valid against the pool at the moment it was admitted; the
      final pool is the initial one with the returned transactions applied in
      order; every candidate not returned is invalid against the final pool;
      and there are at most as many passes as distinct candidates, plus one. */
  lemma HandleTxsCorrect(pool: Pool, possibleTxs: seq<Transaction>, crypto: Crypto)
    ensures var r := Resolve(pool, Dedup(possibleTxs), crypto);
            && (forall t :: t in r.admitted ==> t in possibleTxs)
            && NoDuplicates(r.admitted)
            && ValidSeq(pool, r.admitted, crypto)
            && r.pool == ApplySeq(pool, r.admitted)
            && (forall t :: t in possibleTxs && t !in r.admitted ==> !ValidTx(t, r.pool, crypto))
            && Passes(pool, Dedup(possibleTxs), crypto) <= |Dedup(possibleTxs)| + 1
  {
    var d := Dedup(possibleTxs);
    var r := Resolve(pool, d, crypto);
    ResolveSound(pool, d, crypto);
    SubMultisetNoDuplicates(r.admitted, d);
    forall t | t in r.admitted ensures t in possibleTxs {
      assert t in multiset(d);
    }
    forall t | t in possibleTxs && t !in r.admitted ensures t in r.unresolved {
      assert t in multiset(d);
      assert t !in multiset(r.admitted);
    }
  }

  // A batch in which a transaction already applied is offered again.

  /** The key created by the transaction with hash `[0]`, the only one in the pool. */
  const ReofferKey := UTXO([0], 0)
  const ReofferPool: Pool := map[ReofferKey := Output(0.0, [])]
  /** The transaction that created `ReofferKey`, offered again. */
  const Reoffered := Transaction([0], [], [Output(0.0, [])])
  const Spender1 := Transaction([1], [Input([0], 0, [])], [])
  const Spender2 := Transaction([2], [Input([0], 0, [])], [])
  /** Every signature verifies. */
  const AcceptAll := Crypto((k: PublicKey, m: Bytes, s: Bytes) => true, (t: Transaction, i: int) => [])

  /** A spender is valid against the pool holding the key, and spends it. */
  lemma SpenderStep(t: Transaction)
    requires t == Spender1 || t == Spender2
    ensures ValidTx(t, ReofferPool, AcceptAll) && ApplyTx(ReofferPool, t) == map[]
    ensures SpentUtxos(t) == {ReofferKey}
  {
    assert InputUtxo(t.inputs[0]) == ReofferKey;
    assert t.inputs[..0] == [];
    assert SpentUtxos(t) == {ReofferKey};
  }

  /** The re-offered transaction needs no input and credits the key again. */
  lemma ReofferedStep()
    ensures ValidTx(Reoffered, map[], AcceptAll) && ApplyTx(map[], Reoffered) == ReofferPool
  {
    assert Reoffered.outputs[..0] == [];
    assert OutputUtxos(Reoffered) == ReofferPool;
  }

  /** The batch's single pass admits all three, in order, and empties the pool. */
  lemma ReofferPass()
    ensures Pass(ReofferPool, [Spender1, Reoffered, Spender2], AcceptAll) ==
            PassResult([], [Spender1, Reoffered, Spender2], map[])
  {
    var empty: Pool := map[];
    SpenderStep(Spender2);
    assert [Spender2][1..] == [];
    assert Pass(ReofferPool, [Spender2], AcceptAll) == PassResult([], [Spender2], empty);
    ReofferedStep();
    assert [Reoffered, Spender2][1..] == [Spender2];
    assert Pass(empty, [Reoffered, Spender2], AcceptAll) == PassResult([], [Reoffered, Spender2], empty);
    SpenderStep(Spender1);
    assert [Spender1, Reoffered, Spender2][1..] == [Reoffered, Spender2];
  }

  /** The three transactions of the batch are distinct. */
  lemma ReofferDistinct()
    ensures Dedup([Spender1, Reoffered, Spender2]) == [Spender1, Reoffered, Spender2]
  {
    var txs := [Spender1, Reoffered, Spender2];
    assert txs[..2] == [Spender1, Reoffered] && [Spender1, Reoffered][..1] == [Spender1] && [Spender1][..0] == [];
    assert Dedup([Spender1]) == [Spender1];
    assert Dedup([Spender1, Reoffered]) == [Spender1, Reoffered];
  }

  /** Distinct hashes alone do not rule out a double spend: a transaction
      offered again after it was applied re-credits the key it created, so
      two other transactions of the same batch both spend that key. The
      three hashes are pairwise distinct; what fails is that the re-offered
      transaction's hash is the one behind the pool's key. */
  lemma ReofferedTxDoubleSpend()
    ensures Reoffered.hash != Spender1.hash && Reoffered.hash != Spender2.hash && Spender1.hash != Spender2.hash
    ensures Resolve(ReofferPool, Dedup([Spender1, Reoffered, Spender2]), AcceptAll).admitted == [Spender1, Reoffered, Spender2]
    ensures ReofferKey in SpentUtxos(Spender1) && ReofferKey in SpentUtxos(Spender2)
  {
    var txs := [Spender1, Reoffered, Spender2];
    ReofferDistinct();
    SpenderStep(Spender1);
    SpenderStep(Spender2);
    ReofferPass();
    var empty: Pool := map[];
    assert Resolve(empty, [], AcceptAll) == Resolution([], [], empty);
    assert Resolve(ReofferPool, txs, AcceptAll).admitted == txs + [];
  }

  /** All-or-nothing mode: the batch is fully admitted exactly when the list
      holds no transaction twice and nothing is left unresolved. */
  lemma AllAdmitted(pool: Pool, possibleTxs: seq<Transaction>, crypto: Crypto)
    ensures var r := Resolve(pool, Dedup(possibleTxs), crypto);
            |possibleTxs| == |r.admitted| <==> NoDuplicates(possibleTxs) && r.unresolved == []
  {
    var d := Dedup(possibleTxs);
    var r := Resolve(pool, d, crypto);
    DedupKeepsLength(possibleTxs);
    assert |r.admitted| + |r.unresolved| == |d| by {
      assert |multiset(r.admitted) + multiset(r.unresolved)| == |multiset(d)|;
    }
  }

  // The imperative side: the same operations as loops over a pool object.

  /** The validator's loop: inputs first (double claim, membership,
      signature, running input sum), then outputs (sign, running output sum). */
  method CheckTx(pool: UTXOPool, tx: Transaction, crypto: Crypto) returns (valid: bool)
    ensures valid == ValidTx(tx, pool.utxos, crypto)
  {
    var allUTXO: set<UTXO> := {};
    var inputSum := 0.0;
    var outputSum := 0.0;
    var i := 0;
    while i < |tx.inputs|
      invariant 0 <= i <= |tx.inputs|
      invariant allUTXO == set k | 0 <= k < i :: InputUtxo(tx.inputs[k])
      invariant forall j, k :: 0 <= j < k < i ==> InputUtxo(tx.inputs[j]) != InputUtxo(tx.inputs[k])
      invariant forall k :: 0 <= k < i ==> InputUtxo(tx.inputs[k]) in pool.utxos && SignatureOk(tx, pool.utxos, crypto, k)
      invariant inputSum == InputSum(tx.inputs[..i], pool.utxos)
    {
      var utxo := InputUtxo(tx.inputs[i]);
      if utxo in allUTXO {
        // claimed multiple times
        return false;
      }
      allUTXO := allUTXO + {utxo};
      if !pool.Contains(utxo) {
        return false;
      }
      var prevOutput := pool.GetTxOutput(utxo);
      if !crypto.verifySignature(prevOutput.address, crypto.rawDataToSign(tx, i), tx.inputs[i].signature) {
        assert !SignatureOk(tx, pool.utxos, crypto, i);
        return false;
      }
      assert tx.inputs[..i + 1][..i] == tx.inputs[..i];
      inputSum := inputSum + prevOutput.value;
      i := i + 1;
    }
    assert tx.inputs[..i] == tx.inputs;
    i := 0;
    while i < |tx.outputs|
      invariant 0 <= i <= |tx.outputs|
      invariant forall k :: 0 <= k < i ==> tx.outputs[k].value >= 0.0
      invariant outputSum == OutputSum(tx.outputs[..i])
    {
      var output := tx.outputs[i];
      if output.value < 0.0 {
        return false;
      }
      assert tx.outputs[..i + 1][..i] == tx.outputs[..i];
      outputSum := outputSum + output.value;
      i := i + 1;
    }
    assert tx.outputs[..i] == tx.outputs;
    if inputSum < outputSum {
      return false;
    }
    return true;
  }

  /** Removes every input's key, then credits each output at `(tx.hash, i)`. */
  method HandleValidTx(pool: UTXOPool, tx: Transaction)
    modifies pool
    ensures pool.utxos == ApplyTx(old(pool.utxos), tx)
  {
    for i := 0 to |tx.inputs|
      invariant pool.utxos == old(pool.utxos) - (set k | 0 <= k < i :: InputUtxo(tx.inputs[k]))
    {
      pool.RemoveUTXO(InputUtxo(tx.inputs[i]));
    }
    AddOutputs(pool, tx);
  }

  /** The outputs of `tx` below index `n`, keyed as in `OutputUtxos`. */
  function OutputsBelow(tx: Transaction, n: int): Pool {
    map k | 0 <= k < n && k < |tx.outputs| :: UTXO(tx.hash, k) := tx.outputs[k]
  }

  /** Crediting output `i` extends the outputs below `i` to those below `i + 1`. */
  lemma OutputsBelowStep(pool: Pool, tx: Transaction, i: int)
    requires 0 <= i < |tx.outputs|
    ensures (pool + OutputsBelow(tx, i))[UTXO(tx.hash, i) := tx.outputs[i]] == pool + OutputsBelow(tx, i + 1)
  {
    var a, b := (pool + OutputsBelow(tx, i))[UTXO(tx.hash, i) := tx.outputs[i]], pool + OutputsBelow(tx, i + 1);
    assert forall u :: u in a <==> u in b;
    forall u | u in a ensures a[u] == b[u] {
      if u != UTXO(tx.hash, i) && u in OutputsBelow(tx, i) {
        assert u in OutputsBelow(tx, i + 1);
      }
    }
  }

  /** Credits each output of `tx` at `(tx.hash, i)`. */
  method AddOutputs(pool: UTXOPool, tx: Transaction)
    modifies pool
    ensures pool.utxos == old(pool.utxos) + OutputUtxos(tx)
  {
    for i := 0 to |tx.outputs|
      invariant pool.utxos == old(pool.utxos) + OutputsBelow(tx, i)
    {
      OutputsBelowStep(old(pool.utxos), tx, i);
      pool.AddUTXO(UTXO(tx.hash, i), tx.outputs[i]);
    }
    assert OutputsBelow(tx, |tx.outputs|) == OutputUtxos(tx);
  }

  /** One step of a pass over the suffix starting at `k`. */
  lemma PassStep(pool: Pool, txs: seq<Transaction>, k: int, crypto: Crypto)
    requires 0 <= k < |txs|
    ensures Pass(pool, txs[k..], crypto) ==
            if ValidTx(txs[k], pool, crypto) then
              var r := Pass(ApplyTx(pool, txs[k]), txs[k + 1..], crypto);
              PassResult(r.rest, [txs[k]] + r.admitted, r.pool)
            else
              var r := Pass(pool, txs[k + 1..], crypto);
              PassResult([txs[k]] + r.rest, r.admitted, r.pool)
  {
    assert txs[k..][0] == txs[k] && txs[k..][1..] == txs[k + 1..];
  }

  /** One pass of the iterator loop: admit and apply each valid transaction,
      keep the others for the next pass. */
  method ResolvePass(pool: UTXOPool, txs: seq<Transaction>, crypto: Crypto)
    returns (rest: seq<Transaction>, admitted: seq<Transaction>)
    modifies pool
    ensures PassResult(rest, admitted, pool.utxos) == Pass(old(pool.utxos), txs, crypto)
  {
    rest, admitted := [], [];
    for k := 0 to |txs|
      invariant var r := Pass(pool.utxos, txs[k..], crypto);
                Pass(old(pool.utxos), txs, crypto) == PassResult(rest + r.rest, admitted + r.admitted, r.pool)
    {
      var tx := txs[k];
      PassStep(pool.utxos, txs, k, crypto);
      var valid := CheckTx(pool, tx, crypto);
      if valid {
        ghost var before := admitted;
        admitted := admitted + [tx];
        HandleValidTx(pool, tx);
        ghost var r := Pass(pool.utxos, txs[k + 1..], crypto);
        assert admitted + r.admitted == before + ([tx] + r.admitted);
      } else {
        ghost var before := rest;
        rest := rest + [tx];
        ghost var r := Pass(pool.utxos, txs[k + 1..], crypto);
        assert rest + r.rest == before + ([tx] + r.rest);
      }
    }
    assert txs[|txs|..] == [];
  }

  /** Builds the unresolved set: each candidate once, in order of first occurrence. */
  method CollectCandidates(possibleTxs: seq<Transaction>) returns (txs: seq<Transaction>)
    ensures txs == Dedup(possibleTxs)
  {
    txs := [];
    for i := 0 to |possibleTxs|
      invariant txs == Dedup(possibleTxs[..i])
    {
      assert possibleTxs[..i + 1][..i] == possibleTxs[..i];
      if possibleTxs[i] !in txs {
        txs := txs + [possibleTxs[i]];
      }
    }
    assert possibleTxs[..|possibleTxs|] == possibleTxs;
  }

  /** One round of the batch resolver's loop, on values: if the resolution of
      the whole batch extends `validTx` by the resolution of the unresolved
      `txs` against `pool`, then after one pass it extends `validTx` plus the
      pass's admissions by the resolution of what the pass left, or, when the
      pass admitted nothing, it is `validTx` itself. */
  lemma ResolveRound(pool0: Pool, all: seq<Transaction>, pool: Pool, txs: seq<Transaction>,
                     validTx: seq<Transaction>, passes: nat, crypto: Crypto)
    requires var r := Resolve(pool, txs, crypto);
             Resolve(pool0, all, crypto) == Resolution(validTx + r.admitted, r.unresolved, r.pool)
    requires Passes(pool0, all, crypto) == passes + Passes(pool, txs, crypto)
    ensures var p := Pass(pool, txs, crypto);
            |p.rest| + |p.admitted| == |txs|
    ensures var p := Pass(pool, txs, crypto);
            if |p.rest| == |txs| then
              && p.admitted == [] && p.rest == txs && p.pool == pool
              && Resolve(pool0, all, crypto) == Resolution(validTx, txs, pool)
            else
              && var s := Resolve(p.pool, p.rest, crypto);
              && Resolve(pool0, all, crypto) == Resolution((validTx + p.admitted) + s.admitted, s.unresolved, s.pool)
              && Passes(pool0, all, crypto) == (passes + 1) + Passes(p.pool, p.rest, crypto)
  {
    ResolveStep(pool, txs, crypto);
    PassAdmitsNothing(pool, txs, crypto);
    var p := Pass(pool, txs, crypto);
    if |p.rest| == |txs| {
      assert validTx + [] == validTx;
    } else {
      var s := Resolve(p.pool, p.rest, crypto);
      assert validTx + (p.admitted + s.admitted) == (validTx + p.admitted) + s.admitted;
    }
  }

  /** Repeats full passes over the unresolved `txs` until a pass leaves
      their number unchanged. */
  method ResolveLoop(pool: UTXOPool, txs: seq<Transaction>, crypto: Crypto)
    returns (validTx: seq<Transaction>, ghost passes: nat)
    modifies pool
    ensures var r := Resolve(old(pool.utxos), txs, crypto);
            validTx == r.admitted && pool.utxos == r.pool
    ensures passes == Passes(old(pool.utxos), txs, crypto)
  {
    ghost var pool0 := pool.utxos;
    var unresolved := txs;
    validTx, passes := [], 0;
    assert Resolve(pool0, txs, crypto) == Resolution([] + Resolve(pool0, txs, crypto).admitted,
                                                    Resolve(pool0, txs, crypto).unresolved, Resolve(pool0, txs, crypto).pool);
    var tmpSize := |unresolved|;
    var newSize := tmpSize;
    while true
      invariant newSize == |unresolved|
      invariant var r := Resolve(pool.utxos, unresolved, crypto);
                Resolve(pool0, txs, crypto) == Resolution(validTx + r.admitted, r.unresolved, r.pool)
      invariant Passes(pool0, txs, crypto) == passes + Passes(pool.utxos, unresolved, crypto)
      decreases |unresolved|
    {
      tmpSize := newSize;
      ghost var oldValid := validTx;
      ResolveRound(pool0, txs, pool.utxos, unresolved, validTx, passes, crypto);
      var rest, admitted := ResolvePass(pool, unresolved, crypto);
      validTx := validTx + admitted;
      unresolved := rest;
      newSize := |unresolved|;
      passes := passes + 1;
      if tmpSize == newSize {
        assert validTx == oldValid;
        break;
      }
    }
  }

  /** The batch resolver: collect the distinct candidates, then repeat full
      passes until a pass leaves the unresolved set as large as it was. */
  method ResolveTxs(pool: UTXOPool, possibleTxs: seq<Transaction>, crypto: Crypto)
    returns (validTx: seq<Transaction>, ghost passes: nat)
    modifies pool
    ensures var r := Resolve(old(pool.utxos), Dedup(possibleTxs), crypto);
            validTx == r.admitted && pool.utxos == r.pool
    ensures passes == Passes(old(pool.utxos), Dedup(possibleTxs), crypto)
  {
    var txs := CollectCandidates(possibleTxs);
    validTx, passes := ResolveLoop(pool, txs, crypto);
  }
}
