/**
 * The lock manager (class PessimisticLock): lookup, the read-and-reap of
 * existing locks, the transactional multi-target `acquire`, `release` and
 * the bounded `delete_expired!` sweep.
 *
 * Every operation takes the table and returns the table it commits. A call
 * that raises returns `Fail`, and then the table is the caller's table:
 * `ArgumentError` is raised before any write, and `RecordInvalid` rolls the
 * whole transaction back.
 */
module PessimisticLock {
  import opened Values
  import opened LockRecord

  /** The most rows one `delete_expired!` call removes. */
  const CleanupLimit: nat := 50

  /** An options hash; `None` is a key the caller left out. */
  datatype Options = Options(forceNew: Option<bool>, onlyOnce: Option<bool>, expiryHandler: Option<string>)

  /** The empty options hash `{}`. */
  const NoOptions: Options := Options(None, None, None)

  /** Ruby truthiness of an option value: a missing key reads as nil. */
  predicate Truthy(o: Option<bool>) {
    o == Some(true)
  }

  /** The exceptions the lock manager lets escape. */
  datatype Error = ArgumentError | RecordInvalid

  /** A returned value with the committed table, or an exception (table unchanged). */
  datatype Result<T> = Ok(value: T, store: Store) | Fail(error: Error)

  /** The table holds a lock on `k` that has not expired at `now`. */
  predicate Live(store: Store, k: Key, now: int) {
    k in store && !Expired(store[k], now)
  }

  predicate NoRepeats(ks: seq<Key>) {
    forall i, j :: 0 <= i < j < |ks| ==> ks[i] != ks[j]
  }

  // ---------------------------------------------------------------------
  // Lookup
  // ---------------------------------------------------------------------

  /** `find_for`: the lock on the target's key, live or expired. */
  function FindFor(store: Store, target: Key): (r: Option<Lock>)
    ensures r.Some? <==> target in store
    ensures r.Some? ==> r.value == store[target]
  {
    if target in store then Some(store[target]) else None
  }

  /**
   * The `:lock_holder` condition of `find_for_targets`: it is added only
   * when the holder is not blank, so a blank or missing holder selects
   * every lock.
   */
  predicate HolderSelects(holder: Option<string>, l: Lock) {
    IsBlankOrNil(holder) || l.lockHolder == holder.value
  }

  /**
   * `find_for_targets`: the locks whose (id, type) pair is exactly one of
   * the targets' pairs, narrowed by holder when one is given.
   */
  function FindForTargets(store: Store, targets: seq<Key>, holder: Option<string>): (found: map<Key, Lock>)
    ensures forall k :: k in found <==> k in store && k in targets && HolderSelects(holder, store[k])
    ensures forall k :: k in found ==> found[k] == store[k]
  {
    map k | k in store && k in targets && HolderSelects(holder, store[k]) :: store[k]
  }

  /** What the read-and-reap step returns: the live locks found, and the table after the reaping. */
  datatype Reaping = Reaping(existing: map<Key, Lock>, store: Store)

  /**
   * `determine_existing_locks`: looks up the locks on the targets, deletes
   * the expired ones from the table and returns the others.
   */
  function DetermineExistingLocks(store: Store, targets: seq<Key>, now: int): (r: Reaping)
    ensures forall k :: k in r.existing <==> k in targets && Live(store, k, now)
    ensures forall k :: k in r.existing ==> k in store && r.existing[k] == store[k]
    ensures forall k :: k in r.store <==> k in store && !(k in targets && Expired(store[k], now))
    ensures forall k :: k in r.store ==> r.store[k] == store[k]
  {
    var found := FindForTargets(store, targets, None);
    var expired := set k | k in found && Expired(found[k], now);
    Reaping(map k | k in found && !Expired(found[k], now) :: found[k], store - expired)
  }

  // ---------------------------------------------------------------------
  // Writes inside the acquire transaction
  // ---------------------------------------------------------------------

  /** `targets - targets_with_locks`: the targets without a live lock, in order, repeats kept. */
  function Unlocked(targets: seq<Key>, existing: map<Key, Lock>): (r: seq<Key>)
    ensures forall k :: k in r <==> k in targets && k !in existing
  {
    if |targets| == 0 then []
    else if targets[0] in existing then Unlocked(targets[1..], existing)
    else [targets[0]] + Unlocked(targets[1..], existing)
  }

  /** The outcome of a `create!`, tagged instead of raised. */
  datatype CreateOutcome = Created(store: Store) | DuplicateKey | Invalid

  /** `create!`: the record is validated first; the unique index then rejects a taken key. */
  function Create(store: Store, k: Key, l: Lock): CreateOutcome {
    if !Valid(AttributesOf(k, l)) then Invalid
    else if k in store then DuplicateKey
    else Created(store[k := l])
  }

  /**
   * The `create!` loop: inserts `l` under each key in turn and stops at the
   * first failure. It inserts everything exactly when every record is
   * valid, no key is taken and no key is listed twice.
   */
  function CreateAll(store: Store, ks: seq<Key>, l: Lock): (r: CreateOutcome)
    ensures r.Created? <==> (forall k :: k in ks ==> Valid(AttributesOf(k, l)) && k !in store) && NoRepeats(ks)
    ensures r.Invalid? ==> exists k :: k in ks && !Valid(AttributesOf(k, l))
    ensures r.DuplicateKey? ==> !((forall k :: k in ks ==> k !in store) && NoRepeats(ks))
    ensures r.Created? ==> forall k :: k in r.store <==> k in store || k in ks
    ensures r.Created? ==> forall k :: k in r.store ==> r.store[k] == if k in ks then l else store[k]
    decreases |ks|
  {
    if |ks| == 0 then Created(store)
    else
      NoRepeatsCons(ks);
      match Create(store, ks[0], l)
      case Created(next) => CreateAll(next, ks[1..], l)
      case failed => failed
  }

  /** A live lock after `save!`: reason and expiry handler overwritten, updated_at set to now. */
  function Refreshed(l: Lock, reason: Option<string>, handler: Option<string>, now: int): Lock {
    l.(reason := reason, expiryHandler := handler, updatedAt := now)
  }

  /**
   * The `save!` loop over the live locks: each is validated and rewritten in
   * place; an invalid one raises, and the table keeps its keys.
   */
  function SaveAll(store: Store, existing: map<Key, Lock>, reason: Option<string>, handler: Option<string>, now: int): (r: CreateOutcome)
    requires forall k :: k in existing ==> k in store
    ensures !r.DuplicateKey?
    ensures r.Created? <==> forall k :: k in existing ==> Valid(AttributesOf(k, Refreshed(existing[k], reason, handler, now)))
    ensures r.Created? ==> r.store.Keys == store.Keys
    ensures r.Created? ==> forall k :: k in r.store ==> r.store[k] == if k in existing then Refreshed(existing[k], reason, handler, now) else store[k]
  {
    if forall k :: k in existing ==> Valid(AttributesOf(k, Refreshed(existing[k], reason, handler, now))) then
      Created(store + map k | k in existing :: Refreshed(existing[k], reason, handler, now))
    else Invalid
  }

  // ---------------------------------------------------------------------
  // acquire
  // ---------------------------------------------------------------------

  /**
   * No live lock on a target stands in the way: each is held by `holder`,
   * and there is none at all when force_new or only_once is set.
   */
  predicate Admits(store: Store, targets: seq<Key>, holder: string, options: Options, now: int) {
    && (forall k :: k in targets && Live(store, k, now) ==> store[k].lockHolder == holder)
    && (Truthy(options.forceNew) || Truthy(options.onlyOnce) ==> forall k :: k in targets ==> !Live(store, k, now))
  }

  /** The attributes a lock on `k` gets from this acquire call. */
  function TargetAttributes(k: Key, holder: string, reason: Option<string>, handler: Option<string>): Attributes {
    Attributes(Some(k.lockObjectId), Some(k.objectType), Some(holder), reason, handler)
  }

  /** Every target, written with these attributes, passes validation. */
  predicate TargetsValid(targets: seq<Key>, holder: string, reason: Option<string>, handler: Option<string>) {
    forall k :: k in targets ==> Valid(TargetAttributes(k, holder, reason, handler))
  }

  /** Every repeated target is among `locked`, so the create loop never meets it twice. */
  predicate RepeatsWithin(targets: seq<Key>, locked: set<Key>) {
    forall i, j :: 0 <= i < j < |targets| && targets[i] == targets[j] ==> targets[i] in locked
  }

  /** A target listed twice already has a live lock, so it is not inserted twice. */
  predicate RepeatsAreLocked(store: Store, targets: seq<Key>, now: int) {
    forall i, j :: 0 <= i < j < |targets| && targets[i] == targets[j] ==> Live(store, targets[i], now)
  }

  /** The table with the expired locks on the targets deleted: what read-and-reap commits. */
  function WithoutExpiredTargets(store: Store, targets: seq<Key>, now: int): Store {
    map k | k in store && !(k in targets && Expired(store[k], now)) :: store[k]
  }

  /**
   * The write phase of `acquire`, reached once the rejections have passed:
   * `create!` for every target without a live lock, then `save!` for every
   * live one. It reports the first failure; creates come first, so a
   * duplicate key there wins over an invalid refresh.
   */
  function WriteLocks(reaped: Store, targets: seq<Key>, existing: map<Key, Lock>,
                      holder: string, reason: Option<string>, handler: Option<string>, now: int): (r: CreateOutcome)
    requires forall k :: k in existing ==> k in targets && k in reaped && reaped[k] == existing[k] && existing[k].lockHolder == holder
    requires forall k :: k in targets && k !in existing ==> k !in reaped
    ensures r.Created? <==> TargetsValid(targets, holder, reason, handler) && RepeatsWithin(targets, existing.Keys)
    ensures r.Invalid? ==> !TargetsValid(targets, holder, reason, handler)
    ensures r.DuplicateKey? ==> !RepeatsWithin(targets, existing.Keys)
    ensures r.Created? ==> forall k :: k in r.store <==> k in reaped || k in targets
    ensures r.Created? ==> forall k :: k in existing ==> r.store[k] == Lock(holder, reason, handler, existing[k].createdAt, now)
    ensures r.Created? ==> forall k :: k in targets && k !in existing ==> r.store[k] == Lock(holder, reason, handler, now, now)
    ensures r.Created? ==> forall k :: k in reaped && k !in targets ==> r.store[k] == reaped[k]
  {
    var newLock := Lock(holder, reason, handler, now, now);
    var missing := Unlocked(targets, existing);
    MissingTargets(reaped, targets, existing, holder, reason, handler);
    assert forall k :: k in missing ==> AttributesOf(k, newLock) == TargetAttributes(k, holder, reason, handler);
    var created := CreateAll(reaped, missing, newLock);
    if !created.Created? then created
    else
      assert forall k :: k in existing ==> AttributesOf(k, Refreshed(existing[k], reason, handler, now)) == TargetAttributes(k, holder, reason, handler);
      SaveAll(created.store, existing, reason, handler, now)
  }

  /**
   * The targets the create loop receives are not in the table, are listed
   * once each exactly when every repeated target is locked, and together
   * with the live locks they cover every target's validation.
   */
  lemma MissingTargets(reaped: Store, targets: seq<Key>, existing: map<Key, Lock>,
                       holder: string, reason: Option<string>, handler: Option<string>)
    requires forall k :: k in existing ==> k in targets
    requires forall k :: k in targets && k !in existing ==> k !in reaped
    ensures forall k :: k in Unlocked(targets, existing) ==> k !in reaped
    ensures NoRepeats(Unlocked(targets, existing)) <==> RepeatsWithin(targets, existing.Keys)
    ensures TargetsValid(targets, holder, reason, handler) <==>
      && (forall k :: k in Unlocked(targets, existing) ==> Valid(TargetAttributes(k, holder, reason, handler)))
      && (forall k :: k in existing ==> Valid(TargetAttributes(k, holder, reason, handler)))
  {
    UnlockedRepeats(targets, existing);
  }

  /**
   * When `acquire` returns true: there is a target, the live locks on the
   * targets are admitted, every record is valid, and a target listed twice
   * already has a live lock.
   */
  predicate Succeeds(store: Store, targets: seq<Key>, holder: string, reason: Option<string>, options: Options, now: int) {
    && |targets| > 0
    && Admits(store, targets, holder, options, now)
    && TargetsValid(targets, holder, reason, options.expiryHandler)
    && RepeatsAreLocked(store, targets, now)
  }

  /**
   * `acquire`, one transaction. It reads and reaps the targets' locks and
   * returns false when a live lock belongs to another holder or must not
   * exist (force_new, only_once); those early returns commit the reaping.
   * Otherwise it writes the locks. A duplicate key rolls everything back and
   * returns false; an invalid record rolls back and raises.
   */
  function Acquire(store: Store, targets: seq<Key>, holder: string, reason: Option<string>, options: Options, now: int): (r: Result<bool>)
    ensures r == Fail(ArgumentError) <==> |targets| == 0
    ensures r.Ok? && r.value <==> Succeeds(store, targets, holder, reason, options, now)
    ensures r == Fail(RecordInvalid) ==>
      Admits(store, targets, holder, options, now) && !TargetsValid(targets, holder, reason, options.expiryHandler)
    ensures |targets| > 0 && !Admits(store, targets, holder, options, now) ==>
      r == Ok(false, WithoutExpiredTargets(store, targets, now))
    ensures r.Ok? && !r.value ==> r.store == store || r.store == WithoutExpiredTargets(store, targets, now)
  {
    if |targets| == 0 then Fail(ArgumentError)
    else
      var reaping := DetermineExistingLocks(store, targets, now);
      var existing := reaping.existing;
      assert reaping.store == WithoutExpiredTargets(store, targets, now);
      RejectionsMatchAdmits(store, targets, holder, options, now);
      if existing != map[] && Truthy(options.forceNew) then Ok(false, reaping.store)
      else if exists k :: k in existing && existing[k].lockHolder != holder then Ok(false, reaping.store)
      else if Truthy(options.onlyOnce) && existing != map[] then Ok(false, reaping.store)
      else
        assert RepeatsWithin(targets, existing.Keys) <==> RepeatsAreLocked(store, targets, now);
        match WriteLocks(reaping.store, targets, existing, holder, reason, options.expiryHandler, now)
        case Invalid => Fail(RecordInvalid)
        case DuplicateKey => Ok(false, store)
        case Created(written) => Ok(true, written)
  }

  /** The three early returns of `acquire` fire exactly when the targets' live locks are not admitted. */
  lemma RejectionsMatchAdmits(store: Store, targets: seq<Key>, holder: string, options: Options, now: int)
    ensures var existing := DetermineExistingLocks(store, targets, now).existing;
      Admits(store, targets, holder, options, now) <==>
        !(|| (existing != map[] && Truthy(options.forceNew))
          || (exists k :: k in existing && existing[k].lockHolder != holder)
          || (Truthy(options.onlyOnce) && existing != map[]))
  {
    var existing := DetermineExistingLocks(store, targets, now).existing;
    if existing != map[] {
      var k :| k in existing;
      assert k in targets && Live(store, k, now);
    }
  }

  // ---------------------------------------------------------------------
  // release and delete_expired!
  // ---------------------------------------------------------------------

  /**
   * `release`: deletes the locks on the targets that `holder` selects (all
   * of them when the holder is blank, whatever their expiry handler) and
   * returns how many it deleted.
   */
  function Release(store: Store, targets: seq<Key>, holder: string): (r: Result<nat>)
    ensures r.Fail? <==> |targets| == 0
    ensures r.Fail? ==> r.error == ArgumentError
    ensures r.Ok? ==> forall k :: k in r.store <==> k in store && !(k in targets && (IsBlank(holder) || store[k].lockHolder == holder))
    ensures r.Ok? ==> forall k :: k in r.store ==> r.store[k] == store[k]
    ensures r.Ok? ==> r.value == |store.Keys - r.store.Keys|
    ensures r.Ok? ==> (r.value == 0 <==> forall k :: k in store && k in targets ==> !(IsBlank(holder) || store[k].lockHolder == holder))
  {
    if |targets| == 0 then Fail(ArgumentError)
    else
      var locks := FindForTargets(store, targets, Some(holder));
      var rest := store - locks.Keys;
      assert store.Keys - rest.Keys == locks.Keys;
      assert |locks| == 0 ==> locks == map[];
      Ok(|locks|, rest)
  }

  /** The rows `delete_expired!` selects from: no expiry handler, older than the lease. */
  function ExpiredKeys(store: Store, now: int): (ks: set<Key>)
    ensures forall k :: k in ks <==> k in store && Expired(store[k], now)
  {
    set k | k in store && Expired(store[k], now)
  }

  /**
   * `delete_expired!`: deletes up to 50 expired locks without expiry
   * handler (which 50 is the database's choice) and returns how many. A
   * count below 50 means no expired lock is left.
   */
  method DeleteExpired(store: Store, now: int) returns (swept: Store, count: nat)
    ensures count == if |ExpiredKeys(store, now)| < CleanupLimit then |ExpiredKeys(store, now)| else CleanupLimit
    ensures forall k :: k in swept ==> k in store && swept[k] == store[k]
    ensures forall k :: k in store && k !in swept ==> Expired(store[k], now)
    ensures count == |store.Keys - swept.Keys|
    ensures count < CleanupLimit ==> forall k :: k in swept ==> !Expired(swept[k], now)
  {
    var chosen := SelectLimited(ExpiredKeys(store, now), CleanupLimit);
    swept := store - chosen;
    assert store.Keys - swept.Keys == chosen;
    count := |chosen|;
  }

  /** `limit(n)` on a query: some `n` of the matching rows, or all of them when fewer match. */
  method SelectLimited(candidates: set<Key>, limit: nat) returns (chosen: set<Key>)
    ensures chosen <= candidates
    ensures |chosen| == if |candidates| < limit then |candidates| else limit
    ensures |chosen| < limit ==> chosen == candidates
  {
    chosen := {};
    while |chosen| < limit && chosen != candidates
      invariant chosen <= candidates
      invariant |chosen| <= limit
      decreases candidates - chosen
    {
      assert candidates - chosen != {};
      var k :| k in candidates - chosen;
      chosen := chosen + {k};
    }
    SubsetCardinality(chosen, candidates);
  }

  // ---------------------------------------------------------------------
  // Helper lemmas
  // ---------------------------------------------------------------------

  lemma NoRepeatsCons(ks: seq<Key>)
    requires |ks| > 0
    ensures NoRepeats(ks) <==> ks[0] !in ks[1..] && NoRepeats(ks[1..])
  {
    if ks[0] !in ks[1..] && NoRepeats(ks[1..]) {
      forall i, j | 0 <= i < j < |ks|
        ensures ks[i] != ks[j]
      {
        if i == 0 {
          assert ks[j] == ks[1..][j - 1];
        } else {
          assert ks[i] == ks[1..][i - 1] && ks[j] == ks[1..][j - 1];
        }
      }
    }
    if ks[0] in ks[1..] {
      var j :| 0 <= j < |ks[1..]| && ks[1..][j] == ks[0];
      assert ks[j + 1] == ks[0];
    }
  }

  /** The missing targets are listed once each exactly when every repeated target is already locked. */
  lemma {:induction false} UnlockedRepeats(targets: seq<Key>, existing: map<Key, Lock>)
    ensures NoRepeats(Unlocked(targets, existing)) <==> RepeatsWithin(targets, existing.Keys)
    decreases |targets|
  {
    if |targets| > 0 {
      var rest := targets[1..];
      UnlockedRepeats(rest, existing);
      var spec := RepeatsWithin(targets, existing.Keys);
      var restSpec := RepeatsWithin(rest, existing.Keys);
      assert spec <==> (targets[0] in existing || targets[0] !in rest) && restSpec by {
        if spec {
          forall i, j | 0 <= i < j < |rest| && rest[i] == rest[j]
            ensures rest[i] in existing
          {
            assert targets[i + 1] == rest[i] && targets[j + 1] == rest[j];
          }
          if targets[0] in rest {
            var j :| 0 <= j < |rest| && rest[j] == targets[0];
            assert targets[j + 1] == targets[0];
          }
        }
        if (targets[0] in existing || targets[0] !in rest) && restSpec {
          forall i, j | 0 <= i < j < |targets| && targets[i] == targets[j]
            ensures targets[i] in existing
          {
            if i == 0 {
              assert rest[j - 1] == targets[j];
            } else {
              assert rest[i - 1] == targets[i] && rest[j - 1] == targets[j];
            }
          }
        }
      }
      var u := Unlocked(targets, existing);
      if targets[0] !in existing {
        assert u == [targets[0]] + Unlocked(rest, existing);
        assert u[1..] == Unlocked(rest, existing);
        NoRepeatsCons(u);
      }
    }
  }

  lemma SubsetCardinality<T>(a: set<T>, b: set<T>)
    requires a <= b
    ensures |a| <= |b|
    ensures |a| == |b| ==> a == b
  {
    assert b == a + (b - a);
    assert |b| == |a| + |b - a|;
    if |a| == |b| {
      assert b - a == {};
    }
  }
}
