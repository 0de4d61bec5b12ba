/** The Blockchain class of simpleChain.js: initialisation, append, reads,
    single-block validation and the full-chain audit, each as a pure
    function from the store (and the clock reading, the write outcome and
    the digest) to its result. */
module Chain {
  import opened Results
  import opened Blocks
  import opened LedgerStore

  /** Blocks persisted under their height. */
  type Store = map<nat, Block>

  datatype AppendError =
    | PredecessorMissing(key: nat)   // the read of block h-1 failed
    | StoreFailure(cause: StoreError) // the write of the new block failed

  /** A successful append: the store after the write and the block written. */
  datatype Appended = Appended(store: Store, block: Block)

  /** Initialisation's outcome: the store and the height it reports. */
  datatype Booted = Booted(store: Store, reported: nat)

  /** The outcome of `validateBlockData`: the verdict and the block as it is
      left once the hash field has been put back. */
  datatype Checked = Checked(valid: bool, restored: Block)

  /** Fills in the hash of a block from its content as it stands. */
  function Seal(digest: Digest, b: Block): Block {
    b.(hash := digest(b))
  }

  function Commit(s: Store, b: Block, writeFails: bool): Result<Appended, AppendError> {
    match Put(s, b.height, b, writeFails)
    case Ok(s') => Ok(Appended(s', b))
    case Err(e) => Err(StoreFailure(e))
  }

  /** `addBlock`: the new block takes the record count as its height, the
      clock reading as its time and, past the genesis block, the hash of the
      block stored one below as its previous hash; its hash is the digest of
      the block in that state (its own hash field still as the draft had
      it), and it is written under its height. */
  function AddBlock(digest: Digest, s: Store, draft: Block, nowMillis: nat, writeFails: bool): (r: Result<Appended, AppendError>)
    ensures |s| > 0 && |s| - 1 !in s ==> r == Err(PredecessorMissing(|s| - 1))
    ensures (|s| == 0 || |s| - 1 in s) && writeFails ==> r == Err(StoreFailure(WriteFailed))
    ensures r.Ok? <==> !writeFails && (|s| == 0 || |s| - 1 in s)
    ensures r.Ok? ==>
      var b := r.value.block;
      && b.height == |s|
      && b.body == draft.body
      && b.time == Text(UnixSecondsText(nowMillis))
      && (|s| > 0 ==> b.previousBlockHash == s[|s| - 1].hash)
      && (|s| == 0 ==> b.previousBlockHash == draft.previousBlockHash)
      && b.hash == digest(b.(hash := draft.hash))
    ensures r.Ok? ==>
      var s' := r.value.store;
      && s'.Keys == s.Keys + {|s|}
      && s'[|s|] == r.value.block
      && forall k :: k in s && k != |s| ==> s'[k] == s[k]
  {
    var height := Count(s);
    var timed := draft.(height := height, time := Text(UnixSecondsText(nowMillis)));
    if height > 0 then
      match Get(s, height - 1)
      case Err(_) => Err(PredecessorMissing(height - 1))
      case Ok(predecessor) =>
        Commit(s, Seal(digest, timed.(previousBlockHash := predecessor.hash)), writeFails)
    else
      Commit(s, Seal(digest, timed), writeFails)
  }

  /** The `Blockchain` constructor: an empty store gets the genesis block and
      reports 1; any other store is left alone and its record count is
      reported. */
  function Init(digest: Digest, s: Store, nowMillis: nat, writeFails: bool): (r: Result<Booted, AppendError>)
    ensures |s| > 0 ==> r == Ok(Booted(s, |s|))
    ensures |s| == 0 ==> (r.Ok? <==> !writeFails)
    ensures |s| == 0 && r.Ok? ==>
      && r.value.reported == 1
      && r.value.store.Keys == {0}
      && r.value.store[0].height == 0
      && r.value.store[0].body == GenesisBody
      && r.value.store[0].previousBlockHash == ""
      && r.value.store[0].time == Text(UnixSecondsText(nowMillis))
      && Sealed(digest, r.value.store[0])
    ensures |s| == 0 && r.Err? ==> r.error == StoreFailure(WriteFailed)
  {
    var count := Count(s);
    if count == 0 then
      match AddBlock(digest, s, NewBlock(GenesisBody), nowMillis, writeFails)
      case Ok(a) => Ok(Booted(a.store, 1))
      case Err(e) => Err(e)
    else
      Ok(Booted(s, count))
  }

  /** `getBlockHeight`: one less than the record count. */
  function GetBlockHeight(s: Store): (h: int)
    ensures h + 1 == |s|
  {
    Count(s) - 1
  }

  /** `getBlock`: the block stored under a height, read back unchanged. */
  function GetBlock(s: Store, height: nat): (r: Result<Block, StoreError>)
    ensures r.Ok? <==> height in s
    ensures r.Ok? ==> r.value == s[height]
  {
    Get(s, height)
  }

  /** `validateBlockData`: clear the hash, recompute it, put it back and
      compare. */
  function ValidateBlockData(digest: Digest, b: Block): (r: Checked)
    ensures r.restored == b
    ensures r.valid <==> Sealed(digest, b)
  {
    var blockHash := b.hash;
    var cleared := b.(hash := "");
    var validBlockHash := digest(cleared);
    var restored := cleared.(hash := blockHash);
    Checked(blockHash == validBlockHash, restored)
  }

  /** `validateBlock`: validate the block stored under a height. */
  function ValidateBlock(digest: Digest, s: Store, height: nat): (r: Result<bool, StoreError>)
    ensures r.Ok? <==> height in s
    ensures r.Ok? ==> (r.value <==> Sealed(digest, s[height]))
  {
    match GetBlock(s, height)
    case Ok(b) => Ok(ValidateBlockData(digest, b).valid)
    case Err(e) => Err(e)
  }

  // ---------------------------------------------------------------------
  // `validateChain`

  /** The link check: a block above the genesis whose predecessor is stored
      but carries a different hash. A missing predecessor is not flagged,
      since the lookup's failure only reaches an absent error callback. */
  predicate LinkBroken(s: Store, b: Block) {
    b.height > 0 && b.height - 1 in s && s[b.height - 1].hash != b.previousBlockHash
  }

  /** A block the audit reports. */
  predicate Flagged(digest: Digest, s: Store, b: Block) {
    !Sealed(digest, b) || LinkBroken(s, b)
  }

  /** What the audit records for one scanned block: its height once for a
      failed hash check and once more for a broken link. */
  function BlockFindings(digest: Digest, s: Store, b: Block): (r: seq<nat>)
    ensures |r| == (if Sealed(digest, b) then 0 else 1) + (if LinkBroken(s, b) then 1 else 0)
    ensures forall h :: h in r ==> h == b.height
    ensures Flagged(digest, s, b) <==> |r| > 0
  {
    (if !ValidateBlockData(digest, b).valid then [b.height] else [])
    + (if LinkBroken(s, b) then [b.height] else [])
  }

  /** The audit over the records under the given keys, in that order. */
  function AuditKeys(digest: Digest, s: Store, ks: seq<nat>): (r: seq<nat>)
    requires forall i :: 0 <= i < |ks| ==> ks[i] in s
    ensures |r| <= 2 * |ks|
    ensures forall h :: h in r <==>
      exists i {:trigger Flagged(digest, s, s[ks[i]])} :: 0 <= i < |ks| && s[ks[i]].height == h && Flagged(digest, s, s[ks[i]])
    decreases |ks|
  {
    if ks == [] then []
    else
      var here := BlockFindings(digest, s, s[ks[0]]);
      var rest := AuditKeys(digest, s, ks[1..]);
      assert forall h :: h in here + rest <==>
        exists i {:trigger Flagged(digest, s, s[ks[i]])} :: 0 <= i < |ks| && s[ks[i]].height == h && Flagged(digest, s, s[ks[i]]) by {
        forall h
          ensures h in here + rest <==>
            exists i {:trigger Flagged(digest, s, s[ks[i]])} :: 0 <= i < |ks| && s[ks[i]].height == h && Flagged(digest, s, s[ks[i]])
        {
          if h in rest {
            var j :| 0 <= j < |ks| - 1 && s[ks[1..][j]].height == h && Flagged(digest, s, s[ks[1..][j]]);
            assert ks[1..][j] == ks[j + 1];
          }
          if exists i {:trigger Flagged(digest, s, s[ks[i]])} :: 0 <= i < |ks| && s[ks[i]].height == h && Flagged(digest, s, s[ks[i]]) {
            var i :| 0 <= i < |ks| && s[ks[i]].height == h && Flagged(digest, s, s[ks[i]]);
            if i > 0 {
              assert ks[1..][i - 1] == ks[i];
            }
          }
        }
      }
      here + rest
  }

  /** `validateChain`: scan every record in key order and list the height of
      each block that fails its hash check or its link check; an empty list
      means no block was flagged. */
  function ValidateChain(digest: Digest, s: Store): (errors: seq<nat>)
    ensures |errors| <= 2 * |s|
    ensures forall h :: h in errors <==>
      exists k {:trigger Flagged(digest, s, s[k])} :: k in s && s[k].height == h && Flagged(digest, s, s[k])
  {
    var ks := OrderedKeys(s.Keys);
    var errors := AuditKeys(digest, s, ks);
    assert forall h :: h in errors <==>
      exists k {:trigger Flagged(digest, s, s[k])} :: k in s && s[k].height == h && Flagged(digest, s, s[k]) by {
      forall h
        ensures h in errors <==> exists k {:trigger Flagged(digest, s, s[k])} :: k in s && s[k].height == h && Flagged(digest, s, s[k])
      {
        if exists k {:trigger Flagged(digest, s, s[k])} :: k in s && s[k].height == h && Flagged(digest, s, s[k]) {
          var k :| k in s && s[k].height == h && Flagged(digest, s, s[k]);
          var i :| 0 <= i < |ks| && ks[i] == k;
        }
      }
    }
    errors
  }

  // ---------------------------------------------------------------------
  // `validateChain` as written: line 195 pushes `i`, which is not declared
  // in that scope, so the first block that fails its hash check raises a
  // ReferenceError and the audit never completes.

  datatype AuditFault = ReferenceError

  function AuditKeysAsWritten(digest: Digest, s: Store, ks: seq<nat>): (r: Result<seq<nat>, AuditFault>)
    requires forall i :: 0 <= i < |ks| ==> ks[i] in s
    ensures r.Err? <==> exists i :: 0 <= i < |ks| && !Sealed(digest, s[ks[i]])
    ensures r.Ok? ==> r.value == AuditKeys(digest, s, ks)
    decreases |ks|
  {
    if ks == [] then Ok([])
    else
      var b := s[ks[0]];
      if !ValidateBlockData(digest, b).valid then Err(ReferenceError)
      else
        match AuditKeysAsWritten(digest, s, ks[1..])
        case Err(e) =>
          assert exists i :: 0 <= i < |ks| && !Sealed(digest, s[ks[i]]) by {
            var j :| 0 <= j < |ks| - 1 && !Sealed(digest, s[ks[1..][j]]);
            assert ks[1..][j] == ks[j + 1];
          }
          Err(e)
        case Ok(rest) =>
          assert forall i :: 0 <= i < |ks| ==> Sealed(digest, s[ks[i]]) by {
            forall i | 0 <= i < |ks|
              ensures Sealed(digest, s[ks[i]])
            {
              if i > 0 {
                assert ks[1..][i - 1] == ks[i];
              }
            }
          }
          Ok((if LinkBroken(s, b) then [b.height] else []) + rest)
  }

  /** `validateChain` exactly as written: it fails as soon as any stored block
      fails its hash check, and otherwise agrees with ValidateChain. */
  function ValidateChainAsWritten(digest: Digest, s: Store): (r: Result<seq<nat>, AuditFault>)
    ensures r.Err? <==> exists k :: k in s && !Sealed(digest, s[k])
    ensures r.Ok? ==> r.value == ValidateChain(digest, s)
  {
    var ks := OrderedKeys(s.Keys);
    var r := AuditKeysAsWritten(digest, s, ks);
    assert r.Err? <==> exists k :: k in s && !Sealed(digest, s[k]) by {
      if exists k :: k in s && !Sealed(digest, s[k]) {
        var k :| k in s && !Sealed(digest, s[k]);
        var i :| 0 <= i < |ks| && ks[i] == k;
      }
    }
    r
  }
}
