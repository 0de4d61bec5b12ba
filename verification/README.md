# A private blockchain over a key-value store, in Dafny

This project models the chain engine of `simpleChain.js`: a `Blockchain` that
keeps its blocks in a LevelDB store keyed by block height. The model covers:

- initialising the chain, which writes a genesis block into an empty store;
- appending a block, which takes the record count as its height, the clock
  reading in seconds as its time, and the stored predecessor's hash as its
  previous hash, and then hashes and writes it;
- reading the height and reading a block;
- validating one block by recomputing its hash with the hash field cleared;
- auditing the whole chain, which reports every height whose hash check or
  link check fails.

## How it is modelled

- The store (`BlockLevelDB`) is a `map<nat, Block>`. A write may fail, so
  `Put` takes that outcome as an input. A read of an absent key is an error
  value.
- The scan (`traversData`) visits the records in ascending key order and
  reports their count.
- SHA-256 over the JSON text of a block is a parameter, `digest: Block -> string`.
  No collision resistance is assumed. The tamper lemmas, which need two contents
  to hash differently, take that as a precondition.
- The clock is an input, `nowMillis`.
- The asynchronous callbacks become return values. A `Result` carries either
  the value the success callback would get or the error that ends the
  operation.

Modules:

- `Results` holds the `Result` type.
- `Blocks` holds the block record and the timestamp text.
- `LedgerStore` models `BlockLevelDB`.
- `Chain` models the `Blockchain` operations.
- `ChainProofs` holds the chain invariant and the session lemmas:
  - a valid chain has contiguous heights from 0;
  - every block sits under its own height;
  - every hash is self-consistent;
  - every block names its predecessor's hash.

The central results:

- `AddBlockPreservesValidChain`: appending a draft whose hash is still empty
  keeps the chain valid.
- `SessionBuildsValidChain`: any session that starts with a successful
  initialisation on an empty store builds a valid chain whose audit is empty.
- `AuditCleanIffValid`: on a store with contiguous heights, the audit is empty
  exactly when the chain is valid.
- `TamperedBlockIsReported`: if one block's content is altered while it keeps
  its height, its previous hash and its now stale hash, and the digest tells
  the old and new contents apart, the audit reports exactly that block's
  height.

## Model

| member | source | states |
|---|---|---|
| `Blocks.NewBlock` | simpleChain.js:72-80 | A new draft carries the given body, the empty hash and previous hash, height 0 and the number 0 as its time. |
| `Blocks.Decimal` | simpleChain.js:117 | The text of a non-negative number is a non-empty string of digits with no leading zero, and it is one character long exactly for numbers below 10. |
| `Blocks.ParseDecimalInvertsDecimal` | simpleChain.js:117 | Reading the decimal text of a number back yields the number, so the whole seconds can be read back from the timestamp text. |
| `Blocks.UnixSecondsTextReadsBack` | simpleChain.js:117 | Reading the stored time text back gives the whole seconds of the clock reading, and 0 below one second. The milliseconds are dropped, so readings within the same second store the same text. |
| `Blocks.DropLast` | simpleChain.js:117 | `slice(0, -k)` keeps a prefix, k characters shorter than the input, or nothing when the input is shorter than k. For k = 0 it keeps nothing, since the end index -0 counts as 0. |
| `Blocks.UnixSecondsTextIsFloor` | simpleChain.js:117 | The stored time is the decimal text of the whole seconds in the millisecond clock reading. For a reading below one second it is the empty string. It is always all digits. |
| `LedgerStore.Put` | simpleChain.js:18-30 | A write that succeeds adds exactly its key with its value and leaves every other key as it was. A write that fails reports the failure. |
| `LedgerStore.Get` | simpleChain.js:33-44 | A read succeeds exactly when the key is stored, and then it returns the stored record. Otherwise it reports that key as not found. |
| `LedgerStore.GetAfterPut` | simpleChain.js:18-44 | Read round-trip: a read returns what the write stored under that key, and a read of any other key is unaffected by the write. |
| `LedgerStore.OrderedKeys` | simpleChain.js:48-54 | A scan visits every stored key exactly once, in ascending order. |
| `LedgerStore.Traverse` | simpleChain.js:48-54 | The i-th record handed to the per-record callback is the one under the i-th visited key, and there are as many records as keys. |
| `LedgerStore.TraverseVisitsEveryRecord` | simpleChain.js:48-54 | Every stored record reaches the per-record callback. |
| `LedgerStore.Count` | simpleChain.js:48-65 | The count handed to the finishing callback is the number of stored records. |
| `LedgerStore.PutSignalsAsWritten` | simpleChain.js:18-30 | As written, the success callback receives `true` whatever the outcome of the write. |
| `LedgerStore.FailedPutReportsSuccess` | simpleChain.js:20-28 | A write that fails leaves the store unchanged, yet it is reported as a success. With an error callback present, the success callback runs twice, first with the error and then with `true`. |
| `LedgerStore.PutSignals` | simpleChain.js:18-30 | Corrected notifications. Success is reported exactly when the write succeeds. The error goes to the error callback exactly when one is given. The success callback never receives the error. At most one callback runs. |
| `LedgerStore.PutSignalsMatchPut` | simpleChain.js:18-30 | Under the corrected notifications, success is reported exactly when the store took the write. |
| `Chain.AddBlock` | simpleChain.js:110-135 | The new block takes the record count as its height, the clock's whole seconds as its time, and the hash of the block one below as its previous hash. Its hash is the digest of the block as it then stands. It is written under its height and nothing else changes. It fails when the predecessor is missing or the write fails. |
| `Chain.Init` | simpleChain.js:87-107 | On an empty store it writes one sealed genesis block at height 0, with the genesis body, an empty previous hash and the clock's whole seconds as its time, and reports 1; a failed genesis write is a write failure. Any other store is left untouched and its record count is reported. |
| `Chain.GetBlockHeight` | simpleChain.js:138-142 | The reported height is one less than the number of stored records, so it is -1 for an empty store. |
| `Chain.GetBlock` | simpleChain.js:145-150 | A block read succeeds exactly for a stored height and returns the stored block. |
| `Chain.ValidateBlockData` | simpleChain.js:162-178 | The verdict is true exactly when the stored hash equals the digest of the block with its hash cleared. Afterwards the block is exactly as it was. |
| `Chain.ValidateBlock` | simpleChain.js:153-159 | Validating a stored height gives the hash-check verdict of the block stored there. An absent height is an error. |
| `Chain.BlockFindings` | simpleChain.js:194-206 | For one scanned block, the audit records its height once for a failed hash check and once more for a broken link. It records nothing when both checks pass. |
| `Chain.AuditKeys` | simpleChain.js:187-207 | A height appears in the audit of a key list exactly when some block under a listed key has that height and fails a check. |
| `Chain.ValidateChain` | simpleChain.js:182-208 | Corrected audit: a height is reported exactly when some stored block with that height fails its hash check or its link check. The list holds at most twice as many entries as there are stored blocks. |
| `Chain.AuditKeysAsWritten` | simpleChain.js:194-196 | The audit as written aborts exactly when some listed block fails its hash check. Otherwise it agrees with the corrected audit. |
| `Chain.ValidateChainAsWritten` | simpleChain.js:182-208 | The audit as written aborts with a ReferenceError exactly when some stored block fails its hash check. Otherwise its error list is the corrected one. |
| `ChainProofs.AppendedBlockValidates` | simpleChain.js:110-135 | Hash self-consistency: a block appended from a draft with the empty hash passes `validateBlockData`, and `validateBlock` at its height in the new store returns true. |
| `ChainProofs.AddBlockPreservesValidChain` | simpleChain.js:110-135 | Appending a draft whose hash is still empty to a valid chain succeeds unless the write fails. When it succeeds it adds exactly one block and the chain stays valid, including its link to the predecessor. A draft that already carries a hash is not covered: its stored hash is computed over that stale hash and fails validation. |
| `ChainProofs.InitPreservesValidChain` | simpleChain.js:87-107 | Initialisation keeps a valid chain valid. When it succeeds, the chain holds a block at height 0. |
| `ChainProofs.InitIsIdempotent` | simpleChain.js:93-105 | Genesis idempotence: a second initialisation after a successful first one writes nothing and reports the same count. |
| `ChainProofs.BlockHeightIsLastKey` | simpleChain.js:138-142 | On a non-empty valid chain, the reported height is the topmost stored height. |
| `ChainProofs.AppendThenRead` | simpleChain.js:110-150 | After an append to a valid chain, the height query names the new block and reading it returns it. Every other height reads as before. |
| `ChainProofs.AuditCleanIffValid` | simpleChain.js:182-208 | On a store whose keys are contiguous heights, the audit is empty exactly when the chain is valid. |
| `ChainProofs.ValidChainAuditsClean` | simpleChain.js:182-208 | A valid chain audits clean, under both the corrected audit and the audit as written. |
| `ChainProofs.TamperedBlockIsReported` | simpleChain.js:194-205 | Changing one block's content in a valid chain, while the block keeps its height, its previous hash and its now stale hash, makes the corrected audit report exactly that height, provided the digest tells the old and new contents apart. The audit as written aborts instead. |
| `ChainProofs.RunPreservesValidChain` | simpleChain.js:110-135 | Any sequence of initialisations and appends keeps a valid chain valid, the empty store included. Once the chain is non-empty, each successful append adds one block. |
| `ChainProofs.RunKeepsStoredBlock` | simpleChain.js:110-135 | Append-only: no sequence of operations changes a block already stored in a valid chain. |
| `ChainProofs.SessionBuildsValidChain` | simpleChain.js:87-135 | Take a session that starts with a successful initialisation on an empty store. Its keys are exactly 0 to the number of successful appends, height 0 holds the genesis block, and the chain is valid. Its audit is empty. |

## Left out

- LevelDB itself is left out: its I/O, its string keys and its lexicographic
  scan order. In that order "10" comes before "2". The model scans in
  ascending numeric order. This changes only the order of the audit's list,
  not which heights it contains.
- JSON serialisation and parsing are treated as the identity on blocks.
- SHA-256 is not modelled; it is the `digest` parameter.
- The wall clock is an input. Negative clock readings are not modelled, and
  neither is the exponent notation that `toString` would use for huge
  numbers.
- Asynchrony is not modelled. The source prints its audit summary from the
  scan's finishing callback, before the link checks' reads have come back,
  so the printed summary can miss link findings. The model returns the
  complete list.
- Console output is left out.
- The web service file and the request bodies it passes in as drafts are
  not modelled. Drafts are `Block` records.
- The demo driver at the end of the file (lines 211-244) is left out.
- ChainProofs.AddBlockPreservesValidChain covers only drafts whose hash is
  empty, as `new Block` makes them. `Chain.AddBlock` itself accepts any draft,
  but a draft that already carries a hash gets a stored hash that fails
  validation, so no invariant holds for it.
- Chain.ValidateChain: a block whose predecessor is missing is not flagged.
  In the source the failed lookup goes to an absent error callback, and the
  model follows the code.
- Chain.AddBlock, Chain.Init, Chain.GetBlock, Chain.ValidateBlock: a failed read or
  a failed write returns an error value. In the source a failed read never
  calls back at all, because no error callback is passed. A failed write is
  reported as a success, so a failed genesis write still ends in
  `callback(1)`; see the findings below.
- Chain.AddBlock: on success the source hands the callback `true`. The
  model returns the written block and the new store.
- Chain.Init reports the record count, which is 1 after writing the
  genesis block. That count is one more than `getBlockHeight` reports, and
  the model follows the code rather than calling it the height.

## Findings

| source | as written | input that shows it | evidently intended | confidence | as-written member | corrected member |
|---|---|---|---|---|---|---|
| simpleChain.js:195 | A failed hash check pushes `i`. That variable is not in scope: it is local to `traversData`. The push throws a ReferenceError, which ends the audit. | A valid chain where one block's body has been altered but its hash has not. | Record the block's height, as the link check at line 203 does. | not executed | `Chain.ValidateChainAsWritten`, with `ChainProofs.TamperedBlockIsReported` exhibiting the abort | `Chain.ValidateChain`, proved by `ChainProofs.AuditCleanIffValid` and `ChainProofs.TamperedBlockIsReported` |
| simpleChain.js:22-27 | On a failed write the success callback is called with the error when an error callback exists, and then always with `true`. | A write that fails. `addBlock` passes no error callback, so it and initialisation go on as if the block had been stored. | Call the error callback with the error, and report success only when the write succeeded. | not executed | `LedgerStore.PutSignalsAsWritten`, with `LedgerStore.FailedPutReportsSuccess` | `LedgerStore.PutSignals`, proved by `LedgerStore.PutSignalsMatchPut`. `Chain.AddBlock` and `Chain.Init` report the failure. |
