/**
 * Deleting and uploading under `execute_with_s3_retry`: a callback that talks
 * to S3 may be run twice, and any call in it may fail after taking effect.
 *
 * Whether an error means "expired credentials" is an oracle: any failure may.
 */
module RetriedOperations {
  import opened Bytes
  import opened Keys
  import opened ObjectStore
  import opened Wrappers

  datatype FailureKind = NotFound | S3Error

  datatype Failure = Failure(kind: FailureKind, expired: bool)

  /** How one run of a callback ends. */
  datatype Attempt = Succeeded(count: nat) | Failed(failure: Failure)

  /** How the caller sees the whole call end. */
  datatype Outcome =
    | Returned(count: nat)
    | Raised(kind: FailureKind)
    | CredentialsExpired
    | WithoutException

  datatype Operation = Delete(path: string) | Upload(key: Key, size: Option<nat>)

  /** The keys a delete of `path` is about: the subtree for a trailing slash, else the one key. */
  predicate IsTarget(path: string, k: Key) {
    if path != [] && path[|path| - 1] == SLASH then RStripSlash(path) + [SLASH] <= k else k == path
  }

  function Targets(keys: set<Key>, path: string): set<Key> {
    set k | k in keys && IsTarget(path, k)
  }

  /** The keys under a prefix, as a listing returns them. */
  function KeysUnder(keys: set<Key>, prefix: Key): seq<Key> {
    SortedSet(set k | k in keys && prefix <= k)
  }

  /** A key sorts first among the keys it is a prefix of. */
  lemma ExactKeyComesFirst(keys: set<Key>, k: Key)
    requires k in keys
    ensures KeysUnder(keys, k) != [] && KeysUnder(keys, k)[0] == k
  {
    var listing := KeysUnder(keys, k);
    assert k in listing;
    var i :| 0 <= i < |listing| && listing[i] == k;
    assert listing[0] in listing;
    PrefixSortsFirst(k, listing[0]);
    if i != 0 { LessAsymmetric(listing[0], listing[i]); }
  }

  /** `objects` is what is left of `before` after removing nothing but targets of `path`. */
  ghost predicate OnlyTargetsRemoved(before: map<Key, seq<Byte>>, objects: map<Key, seq<Byte>>, path: string) {
    && objects.Keys <= before.Keys
    && (forall k :: k in objects ==> objects[k] == before[k])
    && (forall k :: k in before && !IsTarget(path, k) ==> k in objects)
  }

  lemma FewerTargets(before: map<Key, seq<Byte>>, objects: map<Key, seq<Byte>>, path: string)
    requires OnlyTargetsRemoved(before, objects, path)
    ensures Targets(objects.Keys, path) <= Targets(before.Keys, path)
    ensures |Targets(objects.Keys, path)| <= |Targets(before.Keys, path)|
    ensures |before.Keys - objects.Keys| == |Targets(before.Keys, path)| - |Targets(objects.Keys, path)|
  {
    SubsetIsSmaller(Targets(objects.Keys, path), Targets(before.Keys, path));
    assert before.Keys - objects.Keys == Targets(before.Keys, path) - Targets(objects.Keys, path);
  }

  lemma {:induction false} SubsetIsSmaller<T>(a: set<T>, b: set<T>)
    requires a <= b
    ensures |a| <= |b| && |b - a| == |b| - |a|
  {
    assert b == a + (b - a);
  }

  class Session {
    /** The bucket. */
    var objects: map<Key, seq<Byte>>
    /** The spooled upload and how far it has been read. */
    const file: seq<Byte>
    var position: nat
    /** s3_bytes_total and s3_objects_total of the two operations. */
    var uploadedBytes: nat
    var uploadedObjects: nat
    var deletedObjects: nat
    /** s3_operations_total over all outcomes, and s3_retries_total. */
    var operations: nat
    var retries: nat
    /** How often a callback has been started, and how often a call to S3 has raised. */
    ghost var callbacks: nat
    ghost var raised: nat

    constructor (bucket: map<Key, seq<Byte>>, upload: seq<Byte>)
      ensures objects == bucket && file == upload && position == 0
      ensures uploadedBytes == uploadedObjects == deletedObjects == operations == retries == 0
      ensures callbacks == raised == 0
    {
      objects, file, position := bucket, upload, 0;
      uploadedBytes, uploadedObjects, deletedObjects, operations, retries := 0, 0, 0, 0, 0;
      callbacks, raised := 0, 0;
    }

    /** Any call to S3 may raise, with or without looking like expired credentials. */
    method MayFail() returns (failure: Option<Failure>)
      modifies this`raised
      ensures failure.Some? ==> failure.value.kind == S3Error
      ensures raised == old(raised) + if failure.Some? then 1 else 0
    {
      var fails: bool := *;
      var expired: bool := *;
      if fails { raised := raised + 1; }
      failure := if fails then Some(Failure(S3Error, expired)) else None;
    }

    /** The paginator over Prefix=`prefix`; each page fetch may raise. */
    method ListKeys(prefix: Key) returns (keys: seq<Key>, failure: Option<Failure>)
      modifies this`raised
      ensures raised == old(raised) + if failure.Some? then 1 else 0
      ensures failure.None? ==> keys == KeysUnder(objects.Keys, prefix)
      ensures failure.Some? ==> failure.value.kind == S3Error
    {
      var listing := KeysUnder(objects.Keys, prefix);
      keys, failure := [], None;
      var token, more := 0, true;
      while more
        modifies this`raised
        invariant 0 <= token <= |listing| && keys == listing[..token] && raised == old(raised)
        invariant failure.None? && (!more ==> token == |listing|)
        decreases more, |listing| - token
      {
        failure := MayFail();
        if failure.Some? { return; }
        var page, isTruncated, next := ListPage(listing, token, 1000, false);
        keys := keys + page;
        token, more := next, isTruncated;
      }
    }

    /**
     * DeleteObjects, quiet.  A raised error says nothing about what was removed;
     * an answer may name keys the service refused, which the caller never reads.
     */
    method DeleteObjects(batch: seq<Key>)
      returns (failure: Option<Failure>, ghost removed: set<Key>, ghost refused: set<Key>)
      requires 0 < |batch| <= 1000
      modifies this`objects, this`raised
      ensures objects == old(objects) - removed
      ensures forall k :: k in removed ==> k in batch
      ensures forall k :: k in refused ==> k in batch && k in old(objects) && k !in removed
      ensures failure.None? ==> forall k :: k in batch ==> k in removed || k in refused || k !in old(objects)
      ensures failure.Some? ==> failure.value.kind == S3Error
      ensures raised == old(raised) + if failure.Some? then 1 else 0
    {
      failure := MayFail();
      removed := {};
      var kept: set<Key> := {};
      var i := 0;
      while i < |batch|
        modifies this`objects
        invariant 0 <= i <= |batch|
        invariant objects == old(objects) - removed
        invariant forall k :: k in removed ==> k in batch
        invariant forall k :: k in kept ==> k in batch && k in old(objects) && k !in removed
        invariant forall j :: 0 <= j < i ==> batch[j] in removed || batch[j] in kept || batch[j] !in old(objects)
      {
        var refuse: bool := *;
        if batch[i] in objects {
          if refuse || batch[i] in kept {
            kept := kept + {batch[i]};
          } else {
            objects := objects - {batch[i]};
            removed := removed + {batch[i]};
          }
        }
        i := i + 1;
      }
      refused := kept;
    }

    /** DeleteObject of one key; it may have happened even when it raises. */
    method DeleteObject(key: Key) returns (failure: Option<Failure>)
      modifies this`objects, this`raised
      ensures objects == old(objects) || objects == old(objects) - {key}
      ensures failure.None? ==> objects == old(objects) - {key}
      ensures failure.Some? ==> failure.value.kind == S3Error
      ensures raised == old(raised) + if failure.Some? then 1 else 0
    {
      failure := MayFail();
      var done: bool := *;
      if done || failure.None? { objects := objects - {key}; }
    }

    /** The batch loop of a directory delete. */
    method DeleteInBatches(keys: seq<Key>) returns (count: nat, failure: Option<Failure>, ghost refused: set<Key>)
      requires StrictlySorted(keys) && forall k :: k in keys ==> k in objects
      modifies this`objects, this`raised
      ensures objects.Keys <= old(objects).Keys && forall k :: k in objects ==> objects[k] == old(objects)[k]
      ensures forall k :: k in old(objects) && k !in keys ==> k in objects
      ensures failure.None? ==> count == |keys| && refused == set k | k in keys && k in objects
      ensures failure.Some? ==> failure.value.kind == S3Error
      ensures raised == old(raised) + if failure.Some? then 1 else 0
    {
      hide StrictlySorted, Less;
      count, failure, refused := 0, None, {};
      var i := 0;
      while i < |keys|
        modifies this`objects, this`raised
        invariant 0 <= i <= |keys| && count == i && failure.None? && raised == old(raised)
        invariant objects.Keys <= old(objects).Keys && forall k :: k in objects ==> objects[k] == old(objects)[k]
        invariant forall k :: k in old(objects) && k !in keys[..i] ==> k in objects
        invariant refused == set k | k in keys[..i] && k in objects
      {
        var batch := keys[i..Min(i + 1000, |keys|)];
        ghost var before := objects;
        ghost var removed, kept;
        failure, removed, kept := DeleteObjects(batch);
        assert forall k :: k in keys[..i + |batch|] <==> k in keys[..i] || k in batch;
        if failure.Some? { return; }
        SortedPartsAreDisjoint(keys, i, i + |batch|);
        refused := refused + kept;
        i := i + |batch|;
        count := count + |batch|;
      }
      assert keys[..|keys|] == keys;
    }

    /** The directory branch of `do_delete`: list the subtree, then delete what was listed. */
    method DeleteDirectory(path: string) returns (attempt: Attempt, ghost refused: set<Key>)
      requires path != [] && path[|path| - 1] == SLASH
      modifies this`objects, this`raised
      ensures OnlyTargetsRemoved(old(objects), objects, path)
      ensures attempt.Succeeded? ==>
                && Targets(objects.Keys, path) == refused
                && attempt.count == |Targets(old(objects).Keys, path)| > 0
      ensures attempt.Failed? && attempt.failure.kind == NotFound ==> Targets(old(objects).Keys, path) == {}
      ensures raised == old(raised) + if attempt.Failed? && attempt.failure.kind == S3Error then 1 else 0
    {
      hide RStripSlash, SortedSet;
      refused := {};
      var prefix := RStripSlash(path);
      var keys, failure := ListKeys(prefix + [SLASH]);
      if failure.Some? { return Failed(failure.value), refused; }
      ghost var targets := Targets(objects.Keys, path);
      assert targets == set k | k in objects.Keys && prefix + [SLASH] <= k;
      assert forall k :: k in keys <==> k in targets;
      if keys == [] {
        var looksExpired: bool := *;
        return Failed(Failure(NotFound, looksExpired)), refused;
      }
      var count: nat;
      count, failure, refused := DeleteInBatches(keys);
      attempt := if failure.Some? then Failed(failure.value) else Succeeded(count);
      assert failure.None? ==> Targets(objects.Keys, path) == refused;
    }

    /** The single-key branch of `do_delete`: one listing of one key settles existence. */
    method DeleteKey(path: string) returns (attempt: Attempt)
      requires path == [] || path[|path| - 1] != SLASH
      modifies this`objects, this`raised
      ensures OnlyTargetsRemoved(old(objects), objects, path)
      ensures attempt.Succeeded? ==>
                && Targets(objects.Keys, path) == {}
                && attempt.count == |Targets(old(objects).Keys, path)| > 0
      ensures attempt.Failed? && attempt.failure.kind == NotFound ==> Targets(old(objects).Keys, path) == {}
      ensures raised == old(raised) + if attempt.Failed? && attempt.failure.kind == S3Error then 1 else 0
    {
      var prefix := RStripSlash(path);
      assert prefix == path;
      hide RStripSlash, SortedSet;
      var failure := MayFail();
      if failure.Some? { return Failed(failure.value); }
      var listing := KeysUnder(objects.Keys, prefix);
      var contents, isTruncated, next := ListPage(listing, 0, 1, false);
      if prefix in objects { ExactKeyComesFirst(objects.Keys, prefix); }
      if contents == [] || contents[0] != prefix {
        var looksExpired: bool := *;
        return Failed(Failure(NotFound, looksExpired));
      }
      assert contents[0] in listing;
      assert Targets(objects.Keys, path) == {path};
      failure := DeleteObject(prefix);
      attempt := if failure.Some? then Failed(failure.value) else Succeeded(1);
    }

    /** `do_delete`. */
    method RunDelete(path: string) returns (attempt: Attempt, ghost refused: set<Key>)
      modifies this`objects, this`raised, this`deletedObjects
      ensures OnlyTargetsRemoved(old(objects), objects, path)
      ensures attempt.Succeeded? ==>
                && Targets(objects.Keys, path) == refused
                && attempt.count == |Targets(old(objects).Keys, path)| > 0
      ensures deletedObjects == old(deletedObjects) + if attempt.Succeeded? then attempt.count else 0
      ensures attempt.Failed? && attempt.failure.kind == NotFound ==> Targets(old(objects).Keys, path) == {}
      ensures raised == old(raised) + if attempt.Failed? && attempt.failure.kind == S3Error then 1 else 0
    {
      if path != [] && path[|path| - 1] == SLASH {
        attempt, refused := DeleteDirectory(path);
      } else {
        refused := {};
        attempt := DeleteKey(path);
      }
      if attempt.Succeeded? { deletedObjects := deletedObjects + attempt.count; }
    }

    /**
     * The managed transfer: it reads the file from where it stands.  When it
     * raises, any amount may have been read and the object may or may not be
     * there; a finished transfer stores all it read.
     */
    method UploadFileobj(key: Key) returns (failure: Option<Failure>)
      requires position <= |file|
      modifies this`objects, this`raised, this`position
      ensures position <= |file|
      ensures objects == old(objects) || objects == old(objects)[key := file[old(position)..]]
      ensures failure.None? ==> objects == old(objects)[key := file[old(position)..]]
      ensures failure.Some? ==> failure.value.kind == S3Error
      ensures raised == old(raised) + if failure.Some? then 1 else 0
    {
      failure := MayFail();
      var stored: bool := *;
      if stored || failure.None? { objects := objects[key := file[position..]]; }
      var reached: nat :| position <= reached <= |file|;
      position := reached;
    }

    /** `do_put`: rewind, transfer, count. */
    method RunUpload(key: Key, size: Option<nat>) returns (attempt: Attempt)
      requires position <= |file|
      modifies this`objects, this`raised, this`position, this`uploadedBytes, this`uploadedObjects
      ensures position <= |file|
      ensures objects == old(objects) || objects == old(objects)[key := file]
      ensures if attempt.Succeeded?
              then && objects == old(objects)[key := file]
                   && uploadedObjects == old(uploadedObjects) + 1
                   && uploadedBytes == old(uploadedBytes) + (if size.Some? then size.value else 0)
              else && uploadedObjects == old(uploadedObjects) && uploadedBytes == old(uploadedBytes)
                   && attempt.failure.kind == S3Error
      ensures raised == old(raised) + if attempt.Failed? then 1 else 0
    {
      position := 0;
      var failure := UploadFileobj(key);
      assert file[0..] == file;
      if failure.Some? { return Failed(failure.value); }
      uploadedBytes := uploadedBytes + if size.Some? then size.value else 0;
      uploadedObjects := uploadedObjects + 1;
      attempt := Succeeded(1);
    }

    method RunCallback(op: Operation) returns (attempt: Attempt, ghost refused: set<Key>)
      requires position <= |file|
      modifies this`objects, this`raised, this`deletedObjects, this`position, this`uploadedBytes,
               this`uploadedObjects, this`callbacks
      ensures callbacks == old(callbacks) + 1 && position <= |file|
      ensures AttemptHolds(op, file, old(objects), objects, attempt, refused)
      ensures raised == old(raised) + if attempt.Failed? && attempt.failure.kind == S3Error then 1 else 0
      ensures Counted() == old(Counted()).After(op, attempt)
    {
      callbacks := callbacks + 1;
      refused := {};
      match op
      case Delete(path) => attempt, refused := RunDelete(path);
      case Upload(key, size) => attempt := RunUpload(key, size);
    }

    function Counted(): Counters
      reads this
    {
      Counters(deletedObjects, uploadedObjects, uploadedBytes)
    }

    /**
     * `_execute_with_retry_inner`.  Building the client may fail as well.  The
     * ghost results are how each try ended and which keys the service refused
     * in the run that succeeded.
     */
    method ExecuteWithRetryInner(op: Operation)
      returns (outcome: Outcome, ghost tries: seq<Try>, ghost refused: set<Key>)
      requires position <= |file|
      modifies this`objects, this`raised, this`deletedObjects, this`position, this`uploadedBytes,
               this`uploadedObjects, this`callbacks, this`retries
      ensures position <= |file|
      ensures TriesHold(tries, outcome)
      ensures callbacks == old(callbacks) + Runs(tries)
      ensures retries == old(retries) + |tries| - 1
      ensures raised == old(raised) + Raises(tries)
      ensures CallHolds(op, file, old(objects), objects, outcome, |tries| == 2, refused)
      ensures Counted()
           == if outcome.Returned? then old(Counted()).After(op, Succeeded(outcome.count)) else old(Counted())
    {
      hide AttemptHolds, Unfinished, CallHolds, Runs, Raises, TriesHold;
      assert Runs([]) == 0 && Raises([]) == 0 by { NoTries(); }
      var attempts: nat := 0;
      var lastError: Option<Failure> := None;
      tries, refused := [], {};
      NothingDoneYet(op, file, objects);
      while attempts < 2
        modifies this`objects, this`raised, this`deletedObjects, this`position, this`uploadedBytes,
                 this`uploadedObjects, this`callbacks, this`retries
        invariant position <= |file| && attempts < 2 && |tries| == attempts
        invariant attempts == 1 ==> FailureOf(tries[0]).Some? && FailureOf(tries[0]).value.expired
        invariant callbacks == old(callbacks) + Runs(tries)
        invariant retries == old(retries) + attempts
        invariant raised == old(raised) + Raises(tries)
        invariant attempts == 0 ==> objects == old(objects)
        invariant Unfinished(op, file, old(objects), objects)
        invariant Counted() == old(Counted())
        decreases 2 - attempts
      {
        var clientError := MayFail();
        if clientError.Some? {
          OneMoreTry(tries, NoClient(clientError.value));
          if clientError.value.expired && attempts == 0 {
            tries := tries + [NoClient(clientError.value)];
            retries := retries + 1;
            attempts := attempts + 1;
            continue;
          } else {
            StoppedBeforeRunning(op, file, old(objects), objects, attempts == 1);
            LastTry(tries, NoClient(clientError.value), Raised(clientError.value.kind));
            return Raised(clientError.value.kind), tries + [NoClient(clientError.value)], {};
          }
        }
        ghost var before := objects;
        var attempt;
        attempt, refused := RunCallback(op);
        OneMoreTry(tries, Ran(attempt));
        OneMoreAttempt(op, file, old(objects), before, objects, attempt, attempts == 1, refused);
        if attempt.Succeeded? {
          LastTry(tries, Ran(attempt), Returned(attempt.count));
          return Returned(attempt.count), tries + [Ran(attempt)], refused;
        }
        lastError := Some(attempt.failure);
        tries := tries + [Ran(attempt)];
        if attempts == 0 && attempt.failure.expired {
          retries := retries + 1;
          attempts := attempts + 1;
          continue;
        }
        LastTry(tries[..attempts], Ran(attempt),
                if attempt.failure.expired then CredentialsExpired else Raised(attempt.failure.kind));
        assert tries == tries[..attempts] + [Ran(attempt)];
        break;
      }
      if lastError.Some? {
        if lastError.value.expired { return CredentialsExpired, tries, {}; }
        return Raised(lastError.value.kind), tries, {};
      }
      return WithoutException, tries, {};
    }

    /** `execute_with_s3_retry`: one outcome is recorded, however often the callback ran. */
    method ExecuteWithRetry(op: Operation)
      returns (outcome: Outcome, ghost tries: seq<Try>, ghost refused: set<Key>)
      requires position <= |file|
      modifies this`objects, this`raised, this`deletedObjects, this`position, this`uploadedBytes,
               this`uploadedObjects, this`callbacks, this`retries, this`operations
      ensures position <= |file| && operations == old(operations) + 1
      ensures TriesHold(tries, outcome)
      ensures callbacks == old(callbacks) + Runs(tries)
      ensures retries == old(retries) + |tries| - 1
      ensures raised == old(raised) + Raises(tries)
      ensures CallHolds(op, file, old(objects), objects, outcome, |tries| == 2, refused)
      ensures Counted()
           == if outcome.Returned? then old(Counted()).After(op, Succeeded(outcome.count)) else old(Counted())
    {
      outcome, tries, refused := ExecuteWithRetryInner(op);
      operations := operations + 1;
    }
  }

  /** One turn of the retry loop: no client could be had, or the callback ran. */
  datatype Try = NoClient(failure: Failure) | Ran(attempt: Attempt)

  ghost function FailureOf(t: Try): Option<Failure> {
    match t
    case NoClient(failure) => Some(failure)
    case Ran(Failed(failure)) => Some(failure)
    case Ran(Succeeded(_)) => None
  }

  /** How many of the tries ran the callback, and how many calls to S3 have raised in them. */
  ghost function Runs(tries: seq<Try>): nat {
    if tries == [] then 0 else Runs(tries[..|tries| - 1]) + if tries[|tries| - 1].Ran? then 1 else 0
  }

  ghost function Raises(tries: seq<Try>): nat {
    if tries == [] then 0 else
      var failure := FailureOf(tries[|tries| - 1]);
      Raises(tries[..|tries| - 1]) + if failure.Some? && failure.value.kind == S3Error then 1 else 0
  }

  /**
   * There is a second try exactly when the first one failed with an expired
   * credential; the last try alone decides what the caller sees.
   */
  ghost predicate TriesHold(tries: seq<Try>, outcome: Outcome) {
    && 1 <= |tries| <= 2
    && (|tries| == 2 <==> FailureOf(tries[0]).Some? && FailureOf(tries[0]).value.expired)
    && outcome == match tries[|tries| - 1]
                  case Ran(Succeeded(count)) => Returned(count)
                  case Ran(Failed(failure)) => if failure.expired then CredentialsExpired else Raised(failure.kind)
                  case NoClient(failure) => Raised(failure.kind)
  }

  lemma NoTries()
    ensures Runs([]) == 0 && Raises([]) == 0
  {
  }

  lemma OneMoreTry(tries: seq<Try>, t: Try)
    ensures Runs(tries + [t]) == Runs(tries) + if t.Ran? then 1 else 0
    ensures Raises(tries + [t])
         == Raises(tries) + if FailureOf(t).Some? && FailureOf(t).value.kind == S3Error then 1 else 0
    ensures (tries + [t])[0] == if tries == [] then t else tries[0]
  {
    assert (tries + [t])[..|tries|] == tries;
  }

  /** A try that does not go into the retry ends the call as it ended itself. */
  lemma LastTry(tries: seq<Try>, t: Try, outcome: Outcome)
    requires |tries| <= 1 && (tries != [] ==> FailureOf(tries[0]).Some? && FailureOf(tries[0]).value.expired)
    requires tries == [] ==> FailureOf(t).None? || !FailureOf(t).value.expired
    requires outcome == match t
                        case Ran(Succeeded(count)) => Returned(count)
                        case Ran(Failed(f)) => if f.expired then CredentialsExpired else Raised(f.kind)
                        case NoClient(failure) => Raised(failure.kind)
    ensures TriesHold(tries + [t], outcome)
  {
  }

  /** The counters that move only when an operation succeeds. */
  datatype Counters = Counters(deletedObjects: nat, uploadedObjects: nat, uploadedBytes: nat) {
    function After(op: Operation, attempt: Attempt): Counters {
      if attempt.Failed? then this else
        match op
        case Delete(_) => this.(deletedObjects := deletedObjects + attempt.count)
        case Upload(_, size) => this.(uploadedObjects := uploadedObjects + 1,
                                      uploadedBytes := uploadedBytes + if size.Some? then size.value else 0)
    }
  }

  /** What one run of the callback promises. */
  ghost predicate AttemptHolds(op: Operation, file: seq<Byte>,
                               before: map<Key, seq<Byte>>, objects: map<Key, seq<Byte>>,
                               attempt: Attempt, refused: set<Key>) {
    match op
    case Delete(path) =>
      && OnlyTargetsRemoved(before, objects, path)
      && (attempt.Succeeded? ==>
            Targets(objects.Keys, path) == refused && attempt.count == |Targets(before.Keys, path)|)
      && (attempt.Failed? && attempt.failure.kind == NotFound ==> Targets(before.Keys, path) == {})
    case Upload(key, size) =>
      && (objects == before || objects == before[key := file])
      && (attempt.Succeeded? ==> objects == before[key := file])
      && (attempt.Failed? ==> attempt.failure.kind == S3Error)
  }

  /** What may have happened to the bucket before a call has succeeded. */
  ghost predicate Unfinished(op: Operation, file: seq<Byte>, first: map<Key, seq<Byte>>, objects: map<Key, seq<Byte>>) {
    match op
    case Delete(path) => OnlyTargetsRemoved(first, objects, path)
    case Upload(key, size) => objects == first || objects == first[key := file]
  }

  ghost predicate CallHolds(op: Operation, file: seq<Byte>, before: map<Key, seq<Byte>>, objects: map<Key, seq<Byte>>,
                            outcome: Outcome, retried: bool, refused: set<Key>) {
    match op
    case Delete(path) => DeleteHolds(path, before, objects, outcome, retried, refused)
    case Upload(key, size) => UploadHolds(key, file, before, objects, outcome)
  }

  lemma NothingDoneYet(op: Operation, file: seq<Byte>, objects: map<Key, seq<Byte>>)
    ensures Unfinished(op, file, objects, objects)
  {
  }

  lemma StoppedBeforeRunning(op: Operation, file: seq<Byte>, first: map<Key, seq<Byte>>, objects: map<Key, seq<Byte>>,
                             retried: bool)
    requires Unfinished(op, file, first, objects)
    ensures CallHolds(op, file, first, objects, Raised(S3Error), retried, {})
  {
  }

  /** A run on top of whatever an earlier, failed run left behind. */
  lemma OneMoreAttempt(op: Operation, file: seq<Byte>, first: map<Key, seq<Byte>>, before: map<Key, seq<Byte>>,
                       objects: map<Key, seq<Byte>>, attempt: Attempt, retried: bool, refused: set<Key>)
    requires Unfinished(op, file, first, before) && (!retried ==> first == before)
    requires AttemptHolds(op, file, before, objects, attempt, refused)
    ensures Unfinished(op, file, first, objects)
    ensures attempt.Succeeded? ==> CallHolds(op, file, first, objects, Returned(attempt.count), retried, refused)
    ensures attempt.Failed? ==>
              && CallHolds(op, file, first, objects, CredentialsExpired, retried, {})
              && CallHolds(op, file, first, objects, Raised(attempt.failure.kind), retried, {})
  {
    if op.Delete? { OnlyTargetsStill(first, before, objects, op.path); }
  }

  /**
   * What a delete call promises.  Nothing outside the target is ever removed.
   * On success, what is left of the target is what the service refused to
   * delete; the count covers the keys of the last run.  "Not found" means that
   * nothing of the target is left, which after a retry can be the first run's work.
   */
  ghost predicate DeleteHolds(path: string, before: map<Key, seq<Byte>>, objects: map<Key, seq<Byte>>,
                              outcome: Outcome, retried: bool, refused: set<Key>) {
    && OnlyTargetsRemoved(before, objects, path)
    && (outcome.Returned? ==>
          && Targets(objects.Keys, path) == refused
          && outcome.count <= |before.Keys - objects.Keys| + |refused|
          && (!retried ==> outcome.count == |before.Keys - objects.Keys| + |refused|))
    && (outcome == Raised(NotFound) ==>
          && Targets(objects.Keys, path) == {}
          && (!retried ==> before == objects))
  }

  /** What an upload call promises: the whole file or no change to any other key. */
  ghost predicate UploadHolds(key: Key, file: seq<Byte>, before: map<Key, seq<Byte>>, objects: map<Key, seq<Byte>>,
                              outcome: Outcome) {
    && (objects == before || objects == before[key := file])
    && (outcome.Returned? ==> objects == before[key := file])
    && outcome != Raised(NotFound)
  }

  lemma OnlyTargetsStill(first: map<Key, seq<Byte>>, before: map<Key, seq<Byte>>, objects: map<Key, seq<Byte>>,
                         path: string)
    requires OnlyTargetsRemoved(first, before, path) && OnlyTargetsRemoved(before, objects, path)
    ensures OnlyTargetsRemoved(first, objects, path)
    ensures |Targets(before.Keys, path)| <= |first.Keys - objects.Keys| + |Targets(objects.Keys, path)|
    ensures first == before ==>
              |Targets(before.Keys, path)| == |first.Keys - objects.Keys| + |Targets(objects.Keys, path)|
    ensures Targets(before.Keys, path) == {} ==> Targets(objects.Keys, path) == {} && objects == before
  {
    FewerTargets(first, before, path);
    FewerTargets(first, objects, path);
  }

  lemma SortedPartsAreDisjoint(keys: seq<Key>, i: nat, j: nat)
    requires StrictlySorted(keys) && i <= j <= |keys|
    ensures forall k :: !(k in keys[..i] && k in keys[i..j])
  {
    forall x, y | 0 <= x < i <= y < j ensures keys[x] != keys[y] {
      LessAsymmetric(keys[x], keys[y]);
    }
  }
}
