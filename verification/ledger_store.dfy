/** BlockLevelDB: the key-value store under the chain, as an in-memory map
    from integer keys to records. Serialisation through JSON is the
    identity here; I/O failure of a write is an input. */
module LedgerStore {
  import opened Results

  datatype StoreError = WriteFailed | NotFound(key: nat)

  /** `addLevelDBData` as far as the store's contents go: the record lands
      under its key unless the write fails, in which case nothing changes. */
  function Put<V>(s: map<nat, V>, key: nat, value: V, fails: bool): (r: Result<map<nat, V>, StoreError>)
    ensures r.Ok? <==> !fails
    ensures r.Err? ==> r.error == WriteFailed
    ensures r.Ok? ==> r.value.Keys == s.Keys + {key} && r.value[key] == value
    ensures r.Ok? ==> forall k :: k in s && k != key ==> r.value[k] == s[k]
  {
    if fails then Err(WriteFailed) else Ok(s[key := value])
  }

  /** `getLevelDBData`: the record under a key, or not-found. */
  function Get<V>(s: map<nat, V>, key: nat): (r: Result<V, StoreError>)
    ensures r.Ok? <==> key in s
    ensures r.Ok? ==> r.value == s[key]
    ensures r.Err? ==> r.error == NotFound(key)
  {
    if key in s then Ok(s[key]) else Err(NotFound(key))
  }

  /** A read returns exactly what the last successful write put under that
      key, and a write leaves every other key's read unchanged. */
  lemma GetAfterPut<V>(s: map<nat, V>, key: nat, value: V, other: nat)
    requires Put(s, key, value, false).Ok?
    ensures Get(Put(s, key, value, false).value, key) == Ok(value)
    ensures other != key ==> Get(Put(s, key, value, false).value, other) == Get(s, other)
  {
  }

  // ---------------------------------------------------------------------
  // `traversData`: visit every record in key order, then report the count.

  /** m is the least element of keys. */
  predicate IsMinKey(m: nat, keys: set<nat>) {
    m in keys && forall k :: k in keys ==> m <= k
  }

  lemma {:induction false} MinKeyExists(keys: set<nat>)
    requires keys != {}
    ensures exists m :: IsMinKey(m, keys)
    decreases |keys|
  {
    var x :| x in keys;
    if keys == {x} {
      assert IsMinKey(x, keys);
    } else {
      var rest := keys - {x};
      MinKeyExists(rest);
      var m :| IsMinKey(m, rest);
      var least := if x < m then x else m;
      forall k | k in keys
        ensures least <= k
      {
        if k != x {
          assert k in rest;
        }
      }
      assert IsMinKey(least, keys);
    }
  }

  /** The least key of a non-empty key set. */
  function MinKey(keys: set<nat>): (m: nat)
    requires keys != {}
    ensures m in keys
    ensures forall k :: k in keys ==> m <= k
  {
    MinKeyExists(keys);
    var m :| IsMinKey(m, keys); m
  }

  /** ks lists every key of the set exactly once, in ascending order. */
  ghost predicate ListsAscending(ks: seq<nat>, keys: set<nat>) {
    && |ks| == |keys|
    && (forall i :: 0 <= i < |ks| ==> ks[i] in keys)
    && (forall k :: k in keys ==> k in ks)
    && (forall i, j :: 0 <= i < j < |ks| ==> ks[i] < ks[j])
  }

  /** Putting the least key in front of an ascending listing of the other
      keys lists the whole set in ascending order. */
  lemma PrependLeast(m: nat, rest: seq<nat>, keys: set<nat>)
    requires m in keys
    requires forall k :: k in keys ==> m <= k
    requires ListsAscending(rest, keys - {m})
    ensures ListsAscending([m] + rest, keys)
  {
    var ks := [m] + rest;
    assert |keys - {m}| == |keys| - 1;
    forall i, j | 0 <= i < j < |ks|
      ensures ks[i] < ks[j]
    {
      assert ks[j] == rest[j - 1];
      if i > 0 {
        assert ks[i] == rest[i - 1];
      }
    }
    forall k | k in keys
      ensures k in ks
    {
      if k != m {
        assert k in keys - {m};
        assert k in rest;
        var j :| 0 <= j < |rest| && rest[j] == k;
        assert ks[j + 1] == k;
      }
    }
    forall i | 0 <= i < |ks|
      ensures ks[i] in keys
    {
      if i > 0 {
        assert ks[i] == rest[i - 1];
      }
    }
  }

  /** The keys of a store in the order a scan visits them. */
  function OrderedKeys(keys: set<nat>): (ks: seq<nat>)
    ensures ListsAscending(ks, keys)
    decreases |keys|
  {
    if keys == {} then []
    else
      var m := MinKey(keys);
      var rest := OrderedKeys(keys - {m});
      PrependLeast(m, rest, keys);
      [m] + rest
  }

  /** The records a scan hands to its per-record callback, in visiting
      order: the i-th record visited is the one under the i-th smallest key,
      so every stored record is visited exactly once. */
  function Traverse<V>(s: map<nat, V>): (vs: seq<V>)
    ensures |vs| == |s|
    ensures forall i :: 0 <= i < |vs| ==> OrderedKeys(s.Keys)[i] in s && vs[i] == s[OrderedKeys(s.Keys)[i]]
  {
    var ks := OrderedKeys(s.Keys);
    seq(|ks|, i requires 0 <= i < |ks| => s[ks[i]])
  }

  /** Every stored record appears in the scan. */
  lemma TraverseVisitsEveryRecord<V>(s: map<nat, V>, k: nat)
    requires k in s
    ensures s[k] in Traverse(s)
  {
    var ks := OrderedKeys(s.Keys);
    var i :| 0 <= i < |ks| && ks[i] == k;
    assert Traverse(s)[i] == s[k];
  }

  /** The count a scan reports to its finishing callback. */
  function Count<V>(s: map<nat, V>): (n: nat)
    ensures n == |s.Keys|
  {
    |Traverse(s)|
  }

  // ---------------------------------------------------------------------
  // Callbacks fired by `addLevelDBData`, for a caller that always passes a
  // success callback and may pass an error callback.

  datatype Signal =
    | CallbackTrue    // callback(true)
    | CallbackError   // callback(err)
    | ErrCallback     // errCallback(err)

  /** The notifications as simpleChain.js fires them. */
  function PutSignalsAsWritten(fails: bool, hasErrCallback: bool): (r: seq<Signal>)
    ensures CallbackTrue in r
  {
    (if fails && hasErrCallback then [CallbackError] else []) + [CallbackTrue]
  }

  /** The notifications as intended: success only on a successful write,
      the error to the error callback, never more than one of them. */
  function PutSignals(fails: bool, hasErrCallback: bool): (r: seq<Signal>)
    ensures CallbackTrue in r <==> !fails
    ensures ErrCallback in r <==> fails && hasErrCallback
    ensures CallbackError !in r
    ensures |r| <= 1
  {
    if !fails then [CallbackTrue]
    else if hasErrCallback then [ErrCallback]
    else []
  }

  /** As written, a failed write is reported as a success, and when an error
      callback is present the success callback runs twice. */
  lemma FailedPutReportsSuccess<V>(s: map<nat, V>, key: nat, value: V, hasErrCallback: bool)
    ensures CallbackTrue in PutSignalsAsWritten(true, hasErrCallback)
    ensures Put(s, key, value, true) == Err(WriteFailed)
    ensures hasErrCallback ==> PutSignalsAsWritten(true, hasErrCallback) == [CallbackError, CallbackTrue]
  {
  }

  /** The intended notifications agree with the store: success is reported
      exactly when the write took effect. */
  lemma PutSignalsMatchPut<V>(s: map<nat, V>, key: nat, value: V, fails: bool, hasErrCallback: bool)
    ensures CallbackTrue in PutSignals(fails, hasErrCallback) <==> Put(s, key, value, fails).Ok?
  {
  }
}
