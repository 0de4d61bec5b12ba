/** The invariants of a chain built only by initialisation and appends, and
    what the audit reports on such a chain and on a tampered one. */
module ChainProofs {
  import opened Results
  import opened Blocks
  import opened LedgerStore
  import opened Chain

  /** Keys run from 0 to the record count minus one, without gaps. */
  ghost predicate Contiguous(s: Store) {
    && (forall k :: k in s ==> k < |s|)
    && (forall k: nat :: k < |s| ==> k in s)
  }

  /** Every block sits under its own height. */
  ghost predicate HeightsMatch(s: Store) {
    forall k :: k in s ==> s[k].height == k
  }

  /** Every stored hash is the digest of its block's hash-less content. */
  ghost predicate AllSealed(digest: Digest, s: Store) {
    forall k :: k in s ==> Sealed(digest, s[k])
  }

  /** Every block above the genesis names its predecessor's hash. */
  ghost predicate Linked(s: Store) {
    forall k: nat :: LinkedAt(s, k)
  }

  /** The block under k, if any and if above the genesis, names the hash of
      a stored predecessor. */
  ghost predicate LinkedAt(s: Store, k: nat) {
    k in s && k > 0 ==> k - 1 in s && s[k].previousBlockHash == s[k - 1].hash
  }

  ghost predicate ValidChain(digest: Digest, s: Store) {
    Contiguous(s) && HeightsMatch(s) && AllSealed(digest, s) && Linked(s)
  }

  /** A freshly appended block passes `validateBlockData` when its draft
      carried the empty hash. */
  lemma AppendedBlockValidates(digest: Digest, s: Store, draft: Block, nowMillis: nat, writeFails: bool)
    requires Unsealed(draft)
    requires AddBlock(digest, s, draft, nowMillis, writeFails).Ok?
    ensures ValidateBlockData(digest, AddBlock(digest, s, draft, nowMillis, writeFails).value.block).valid
    ensures
      var a := AddBlock(digest, s, draft, nowMillis, writeFails).value;
      ValidateBlock(digest, a.store, a.block.height) == Ok(true)
  {
    var b := AddBlock(digest, s, draft, nowMillis, writeFails).value.block;
    assert b.(hash := draft.hash) == Cleared(b);
  }

  /** Appending an unsealed draft to a valid chain succeeds unless the write
      fails, adds exactly one block, and keeps the chain valid. */
  lemma AddBlockPreservesValidChain(digest: Digest, s: Store, draft: Block, nowMillis: nat, writeFails: bool)
    requires ValidChain(digest, s)
    requires Unsealed(draft)
    ensures AddBlock(digest, s, draft, nowMillis, writeFails).Ok? <==> !writeFails
    ensures AddBlock(digest, s, draft, nowMillis, writeFails).Ok? ==>
      var s' := AddBlock(digest, s, draft, nowMillis, writeFails).value.store;
      ValidChain(digest, s') && |s'| == |s| + 1
  {
    var r := AddBlock(digest, s, draft, nowMillis, writeFails);
    var n := |s|;
    if n > 0 {
      assert n - 1 in s;
    }
    if r.Ok? {
      var b := r.value.block;
      var s' := r.value.store;
      assert n !in s;
      assert |s'.Keys| == |s.Keys| + 1;
      assert |s'| == n + 1;
      AppendedBlockValidates(digest, s, draft, nowMillis, writeFails);
      assert Contiguous(s') by {
        forall k | k in s'
          ensures k < |s'|
        {
          if k != n {
            assert k in s;
          }
        }
        forall k: nat | k < |s'|
          ensures k in s'
        {
          if k < n {
            assert k in s;
          } else {
            assert k == n;
          }
        }
      }
      assert HeightsMatch(s') && AllSealed(digest, s') by {
        forall k | k in s'
          ensures s'[k].height == k && Sealed(digest, s'[k])
        {
          if k != n {
            assert k in s;
          }
        }
      }
      assert Linked(s') by {
        forall k: nat
          ensures LinkedAt(s', k)
        {
          if k in s' && k > 0 {
            assert k - 1 in s;
            if k != n {
              assert k in s && LinkedAt(s, k);
            }
          }
        }
      }
    }
  }

  /** Initialisation keeps a valid chain valid, and leaves a chain that
      holds a block at height 0 whenever it succeeds. */
  lemma InitPreservesValidChain(digest: Digest, s: Store, nowMillis: nat, writeFails: bool)
    requires ValidChain(digest, s)
    ensures Init(digest, s, nowMillis, writeFails).Ok? ==>
      var s' := Init(digest, s, nowMillis, writeFails).value.store;
      ValidChain(digest, s') && 0 in s'
  {
    if |s| == 0 {
      AddBlockPreservesValidChain(digest, s, NewBlock(GenesisBody), nowMillis, writeFails);
    } else {
      assert 0 in s;
    }
  }

  /** Genesis idempotence: initialising an empty store writes one genesis
      block and reports 1; initialising again writes nothing and reports the
      same height. */
  lemma InitIsIdempotent(digest: Digest, t1: nat, t2: nat, writeFails: bool)
    requires Init(digest, map[], t1, false).Ok?
    ensures
      var first := Init(digest, map[], t1, false).value;
      && |first.store| == 1
      && first.reported == 1
      && Init(digest, first.store, t2, writeFails) == Ok(Booted(first.store, first.reported))
  {
    var first := Init(digest, map[], t1, false).value;
    assert first.store.Keys == {0};
  }

  /** `getBlockHeight` on a non-empty valid chain names its topmost block. */
  lemma BlockHeightIsLastKey(digest: Digest, s: Store)
    requires ValidChain(digest, s)
    requires |s| > 0
    ensures GetBlockHeight(s) in s
    ensures forall k :: k in s ==> k <= GetBlockHeight(s)
    ensures s[GetBlockHeight(s)].height == GetBlockHeight(s)
  {
  }

  /** After an append to a valid chain, `getBlockHeight` names the new block
      and `getBlock` returns it as written; every older block reads back
      unchanged. */
  lemma AppendThenRead(digest: Digest, s: Store, draft: Block, nowMillis: nat, k: nat)
    requires ValidChain(digest, s)
    requires AddBlock(digest, s, draft, nowMillis, false).Ok?
    ensures
      var a := AddBlock(digest, s, draft, nowMillis, false).value;
      && GetBlockHeight(a.store) == a.block.height
      && GetBlock(a.store, a.block.height) == Ok(a.block)
      && (k != a.block.height ==> GetBlock(a.store, k) == GetBlock(s, k))
  {
    var a := AddBlock(digest, s, draft, nowMillis, false).value;
    var n := |s|;
    assert n !in s;
    assert |a.store.Keys| == |s.Keys| + 1;
    if k != n && k in a.store {
      assert k in s;
    }
  }

  // ---------------------------------------------------------------------
  // The audit

  /** On a store whose keys are contiguous heights, the audit comes back
      empty exactly when the chain is valid. */
  lemma AuditCleanIffValid(digest: Digest, s: Store)
    requires Contiguous(s) && HeightsMatch(s)
    ensures ValidateChain(digest, s) == [] <==> ValidChain(digest, s)
  {
    if ValidateChain(digest, s) == [] {
      AuditCleanImpliesValid(digest, s);
    }
    if ValidChain(digest, s) {
      ValidChainAuditsClean(digest, s);
    }
  }

  lemma AuditCleanImpliesValid(digest: Digest, s: Store)
    requires Contiguous(s) && HeightsMatch(s)
    requires ValidateChain(digest, s) == []
    ensures ValidChain(digest, s)
  {
    AuditCleanImpliesSealed(digest, s);
    AuditCleanImpliesLinked(digest, s);
  }

  lemma AuditCleanImpliesSealed(digest: Digest, s: Store)
    requires HeightsMatch(s)
    requires ValidateChain(digest, s) == []
    ensures AllSealed(digest, s)
  {
    forall k | k in s
      ensures Sealed(digest, s[k])
    {
      UnreportedIsUnflagged(digest, s, k);
    }
  }

  lemma AuditCleanImpliesLinked(digest: Digest, s: Store)
    requires Contiguous(s) && HeightsMatch(s)
    requires ValidateChain(digest, s) == []
    ensures Linked(s)
  {
    forall k: nat
      ensures LinkedAt(s, k)
    {
      if k in s && k > 0 {
        UnreportedIsUnflagged(digest, s, k);
        assert s[k].height == k;
        assert k - 1 < |s|;
      }
    }
  }

  /** A block whose height the audit does not list passes both checks. */
  lemma UnreportedIsUnflagged(digest: Digest, s: Store, k: nat)
    requires HeightsMatch(s)
    requires k in s && k !in ValidateChain(digest, s)
    ensures !Flagged(digest, s, s[k])
  {
    assert s[k].height == k;
  }

  /** A valid chain audits clean, both as intended and as written. */
  lemma ValidChainAuditsClean(digest: Digest, s: Store)
    requires ValidChain(digest, s)
    ensures ValidateChain(digest, s) == []
    ensures ValidateChainAsWritten(digest, s) == Ok([])
  {
    var ks := OrderedKeys(s.Keys);
    forall i | 0 <= i < |ks|
      ensures !Flagged(digest, s, s[ks[i]])
    {
      ValidBlockIsUnflagged(digest, s, ks[i]);
    }
    AuditCleanKeys(digest, s, ks);
  }

  /** No block of a valid chain fails either check. */
  lemma ValidBlockIsUnflagged(digest: Digest, s: Store, k: nat)
    requires ValidChain(digest, s)
    requires k in s
    ensures !Flagged(digest, s, s[k])
  {
    assert LinkedAt(s, k);
  }

  /** The store with the block at height h replaced by t. */
  function Tamper(s: Store, h: nat, t: Block): (s': Store)
    requires h in s
    ensures s'.Keys == s.Keys && s'[h] == t
    ensures forall k :: k in s && k != h ==> s'[k] == s[k]
  {
    s[h := t]
  }

  /** The audit of a list of distinct keys in which only the block under k0
      is flagged, and only for its hash, is exactly that block's height. */
  lemma {:induction false} AuditSingleFinding(digest: Digest, s: Store, ks: seq<nat>, k0: nat)
    requires forall i :: 0 <= i < |ks| ==> ks[i] in s
    requires forall i, j :: 0 <= i < j < |ks| ==> ks[i] != ks[j]
    requires k0 in ks
    requires forall i :: 0 <= i < |ks| && ks[i] != k0 ==> !Flagged(digest, s, s[ks[i]])
    requires !Sealed(digest, s[k0]) && !LinkBroken(s, s[k0])
    ensures AuditKeys(digest, s, ks) == [s[k0].height]
    decreases |ks|
  {
    var rest := ks[1..];
    if ks[0] == k0 {
      assert k0 !in rest;
      AuditCleanKeys(digest, s, rest);
    } else {
      assert k0 in rest;
      assert BlockFindings(digest, s, s[ks[0]]) == [];
      AuditSingleFinding(digest, s, rest, k0);
    }
  }

  /** The audit of keys none of whose blocks is flagged is empty. */
  lemma AuditCleanKeys(digest: Digest, s: Store, ks: seq<nat>)
    requires forall i :: 0 <= i < |ks| ==> ks[i] in s
    requires forall i :: 0 <= i < |ks| ==> !Flagged(digest, s, s[ks[i]])
    ensures AuditKeys(digest, s, ks) == []
  {
  }

  /** Chain audit completeness: in a valid chain, replacing one block by a
      copy with other content but the same height, previous hash and stale
      hash makes the audit report exactly that height, provided the digest
      tells the two contents apart; the audit as written aborts instead. */
  lemma TamperedBlockIsReported(digest: Digest, s: Store, h: nat, t: Block)
    requires ValidChain(digest, s)
    requires h in s
    requires t.hash == s[h].hash && t.height == h && t.previousBlockHash == s[h].previousBlockHash
    requires digest(Cleared(t)) != digest(Cleared(s[h]))
    ensures ValidateChain(digest, Tamper(s, h, t)) == [h]
    ensures ValidateChainAsWritten(digest, Tamper(s, h, t)) == Err(ReferenceError)
  {
    TamperedAuditIsExact(digest, s, h, t);
    TamperedAuditAborts(digest, s, h, t);
  }

  lemma TamperedAuditIsExact(digest: Digest, s: Store, h: nat, t: Block)
    requires ValidChain(digest, s)
    requires h in s
    requires t.hash == s[h].hash && t.height == h && t.previousBlockHash == s[h].previousBlockHash
    requires digest(Cleared(t)) != digest(Cleared(s[h]))
    ensures ValidateChain(digest, Tamper(s, h, t)) == [h]
  {
    var s' := Tamper(s, h, t);
    var ks := OrderedKeys(s'.Keys);
    forall i | 0 <= i < |ks| && ks[i] != h
      ensures !Flagged(digest, s', s'[ks[i]])
    {
      UntamperedBlockIsUnflagged(digest, s, h, t, ks[i]);
    }
    TamperedBlockFailsOnlyHash(digest, s, h, t);
    AuditSingleFinding(digest, s', ks, h);
  }

  /** Tampering with one block of a valid chain leaves every other block
      passing both checks. */
  lemma UntamperedBlockIsUnflagged(digest: Digest, s: Store, h: nat, t: Block, k: nat)
    requires ValidChain(digest, s)
    requires h in s && t.hash == s[h].hash
    requires k in s && k != h
    ensures !Flagged(digest, Tamper(s, h, t), Tamper(s, h, t)[k])
  {
    ValidBlockIsUnflagged(digest, s, k);
  }

  /** The tampered block fails its hash check but keeps its link. */
  lemma TamperedBlockFailsOnlyHash(digest: Digest, s: Store, h: nat, t: Block)
    requires ValidChain(digest, s)
    requires h in s
    requires t.hash == s[h].hash && t.height == h && t.previousBlockHash == s[h].previousBlockHash
    requires digest(Cleared(t)) != digest(Cleared(s[h]))
    ensures !Sealed(digest, Tamper(s, h, t)[h]) && !LinkBroken(Tamper(s, h, t), Tamper(s, h, t)[h])
  {
    ValidBlockIsUnflagged(digest, s, h);
  }

  lemma TamperedAuditAborts(digest: Digest, s: Store, h: nat, t: Block)
    requires ValidChain(digest, s)
    requires h in s
    requires t.hash == s[h].hash
    requires digest(Cleared(t)) != digest(Cleared(s[h]))
    ensures ValidateChainAsWritten(digest, Tamper(s, h, t)) == Err(ReferenceError)
  {
    var s' := Tamper(s, h, t);
    assert h in s' && !Sealed(digest, s'[h]);
    var asWritten := ValidateChainAsWritten(digest, s');
    assert asWritten.Err? && asWritten.error.ReferenceError?;
  }

  // ---------------------------------------------------------------------
  // Sessions: any sequence of initialisations and appends

  datatype Op =
    | Boot(nowMillis: nat, writeFails: bool)
    | Append(body: string, nowMillis: nat, writeFails: bool)

  /** One operation; a failed one leaves the store as it was. */
  function Step(digest: Digest, s: Store, op: Op): Store {
    match op
    case Boot(t, f) =>
      (match Init(digest, s, t, f) case Ok(booted) => booted.store case Err(_) => s)
    case Append(body, t, f) =>
      (match AddBlock(digest, s, NewBlock(body), t, f) case Ok(a) => a.store case Err(_) => s)
  }

  function Run(digest: Digest, s: Store, ops: seq<Op>): Store
    decreases |ops|
  {
    if ops == [] then s else Run(digest, Step(digest, s, ops[0]), ops[1..])
  }

  /** The number of appends whose write succeeds. */
  function AppendsWritten(ops: seq<Op>): nat
    decreases |ops|
  {
    if ops == [] then 0
    else (if ops[0].Append? && !ops[0].writeFails then 1 else 0) + AppendsWritten(ops[1..])
  }

  /** Any run of operations keeps a valid chain valid and, once the chain
      is non-empty, grows it by one block per successful append. */
  lemma {:induction false} RunPreservesValidChain(digest: Digest, s: Store, ops: seq<Op>)
    requires ValidChain(digest, s)
    ensures ValidChain(digest, Run(digest, s, ops))
    ensures |s| > 0 ==> |Run(digest, s, ops)| == |s| + AppendsWritten(ops)
    decreases |ops|
  {
    if ops != [] {
      var s1 := Step(digest, s, ops[0]);
      StepPreservesValidChain(digest, s, ops[0]);
      RunPreservesValidChain(digest, s1, ops[1..]);
      assert Run(digest, s, ops) == Run(digest, s1, ops[1..]);
      assert AppendsWritten(ops) == AppendsWritten([ops[0]]) + AppendsWritten(ops[1..]);
    }
  }

  /** Append-only: no run of operations changes a block already stored in a
      valid chain. */
  lemma {:induction false} RunKeepsStoredBlock(digest: Digest, s: Store, ops: seq<Op>, k: nat)
    requires ValidChain(digest, s)
    requires k in s
    ensures k in Run(digest, s, ops) && Run(digest, s, ops)[k] == s[k]
    decreases |ops|
  {
    if ops != [] {
      var s1 := Step(digest, s, ops[0]);
      StepPreservesValidChain(digest, s, ops[0]);
      StepKeepsStoredBlock(digest, s, ops[0], k);
      RunKeepsStoredBlock(digest, s1, ops[1..], k);
      assert Run(digest, s, ops) == Run(digest, s1, ops[1..]);
    }
  }

  /** One operation keeps a valid chain valid and, on a non-empty chain,
      adds a block exactly when it is an append whose write succeeds. */
  lemma StepPreservesValidChain(digest: Digest, s: Store, op: Op)
    requires ValidChain(digest, s)
    ensures ValidChain(digest, Step(digest, s, op))
    ensures |Step(digest, s, op)| >= |s|
    ensures |s| > 0 ==> |Step(digest, s, op)| == |s| + AppendsWritten([op])
  {
    assert AppendsWritten([op]) == if op.Append? && !op.writeFails then 1 else 0;
    match op
    case Boot(t, f) =>
      InitPreservesValidChain(digest, s, t, f);
    case Append(body, t, f) =>
      AddBlockPreservesValidChain(digest, s, NewBlock(body), t, f);
  }

  /** One operation leaves every stored block of a valid chain in place. */
  lemma StepKeepsStoredBlock(digest: Digest, s: Store, op: Op, k: nat)
    requires ValidChain(digest, s)
    requires k in s
    ensures k in Step(digest, s, op) && Step(digest, s, op)[k] == s[k]
  {
    assert |s| !in s;
  }

  /** Height contiguity and a clean audit for a session that starts on an
      empty store with a successful initialisation: the genesis block stays
      at height 0, every successful append adds the next height, and the
      audit reports nothing. */
  lemma SessionBuildsValidChain(digest: Digest, t0: nat, ops: seq<Op>)
    ensures
      var s := Run(digest, map[], [Boot(t0, false)] + ops);
      && ValidChain(digest, s)
      && |s| == 1 + AppendsWritten(ops)
      && (forall k: nat :: k in s <==> k <= AppendsWritten(ops))
      && s[0].body == GenesisBody && s[0].previousBlockHash == ""
      && ValidateChain(digest, s) == []
  {
    var s0: Store := map[];
    var s1 := Step(digest, s0, Boot(t0, false));
    InitPreservesValidChain(digest, s0, t0, false);
    assert s1 == Init(digest, s0, t0, false).value.store;
    assert s1[0].body == GenesisBody && s1[0].previousBlockHash == "";
    var s := Run(digest, map[], [Boot(t0, false)] + ops);
    assert s == Run(digest, s1, ops) by {
      assert ([Boot(t0, false)] + ops)[1..] == ops;
    }
    RunPreservesValidChain(digest, s1, ops);
    RunKeepsStoredBlock(digest, s1, ops, 0);
    ValidChainAuditsClean(digest, s);
  }
}
