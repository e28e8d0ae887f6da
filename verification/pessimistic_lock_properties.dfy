/**
 * Properties of the lock manager that relate several calls, or one call to
 * an independent description of its effect: the table after a successful or
 * failed acquire, reentrancy, exclusion of other holders, the hand-over via
 * release, and why an expired lock never blocks.
 */
module PessimisticLockProperties {
  import opened Values
  import opened LockRecord
  import opened PessimisticLock

  /**
   * The batch lookup of `find_for_targets` agrees with `find_for` target by
   * target: without a holder it returns the lock `find_for` finds for each
   * target; with a holder that is not blank, only those held by it; a blank
   * holder selects like no holder.
   */
  lemma BatchLookupAgreesWithFindFor(store: Store, targets: seq<Key>, holder: string)
    ensures FindForTargets(store, targets, None)
      == map k | k in targets && FindFor(store, k).Some? :: FindFor(store, k).value
    ensures !IsBlank(holder) ==>
      FindForTargets(store, targets, Some(holder))
        == map k | k in targets && FindFor(store, k).Some? && FindFor(store, k).value.lockHolder == holder :: FindFor(store, k).value
    ensures IsBlank(holder) ==> FindForTargets(store, targets, Some(holder)) == FindForTargets(store, targets, None)
  {
  }

  /**
   * The sweep's selection and the read-and-reap's `expired?` agree: the
   * reaping deletes exactly the targets' rows among those `delete_expired!`
   * selects, and keeps the other rows the batch lookup finds.
   */
  lemma SweepMatchesReap(store: Store, targets: seq<Key>, now: int)
    ensures DetermineExistingLocks(store, targets, now).store
      == store - (ExpiredKeys(store, now) * set k | k in targets)
    ensures DetermineExistingLocks(store, targets, now).existing
      == map k | k in FindForTargets(store, targets, None) && k !in ExpiredKeys(store, now) :: store[k]
  {
  }

  /**
   * The table a successful acquire should leave, described lock by lock:
   * every target locked by `holder` with this reason and handler, touched
   * `now`, created `now` unless its lock was live; every other row as it was.
   */
  function AcquiredTable(store: Store, targets: seq<Key>, holder: string, reason: Option<string>,
                         handler: Option<string>, now: int): Store {
    map k | k in store.Keys + (set t | t in targets) ::
      if k in targets then Lock(holder, reason, handler, if Live(store, k, now) then store[k].createdAt else now, now)
      else store[k]
  }

  /**
   * A successful acquire commits exactly the table described above: a
   * handler the call does not pass is cleared, and a lock that was live
   * keeps its created_at.
   */
  lemma AcquireSuccessState(store: Store, targets: seq<Key>, holder: string, reason: Option<string>,
                            options: Options, now: int)
    requires Succeeds(store, targets, holder, reason, options, now)
    ensures Acquire(store, targets, holder, reason, options, now)
      == Ok(true, AcquiredTable(store, targets, holder, reason, options.expiryHandler, now))
  {
    var reaping := DetermineExistingLocks(store, targets, now);
    var existing := reaping.existing;
    RejectionsMatchAdmits(store, targets, holder, options, now);
    assert RepeatsWithin(targets, existing.Keys);
    var w := WriteLocks(reaping.store, targets, existing, holder, reason, options.expiryHandler, now);
    assert w.Created?;
    forall k | k in targets
      ensures w.store[k] == Lock(holder, reason, options.expiryHandler, if Live(store, k, now) then store[k].createdAt else now, now)
    {
      if k in existing {
        assert Live(store, k, now) && existing[k] == store[k];
      }
    }
    IsAcquiredTable(store, targets, holder, reason, options.expiryHandler, now, w.store);
  }

  /** A table that agrees with the description key by key is the described table. */
  lemma IsAcquiredTable(store: Store, targets: seq<Key>, holder: string, reason: Option<string>,
                        handler: Option<string>, now: int, after: Store)
    requires forall k :: k in after <==> k in store || k in targets
    requires forall k :: k in targets ==>
      after[k] == Lock(holder, reason, handler, if Live(store, k, now) then store[k].createdAt else now, now)
    requires forall k :: k in store && k !in targets ==> after[k] == store[k]
    ensures after == AcquiredTable(store, targets, holder, reason, handler, now)
  {
    var expected := AcquiredTable(store, targets, holder, reason, handler, now);
    assert forall k :: k in after <==> k in expected;
    assert forall k :: k in after ==> after[k] == expected[k];
  }

  /**
   * A false return writes nothing: no lock is created or modified and no
   * live lock is deleted. The only deletions are expired locks on the
   * targets that the read-and-reap removed.
   */
  lemma AcquireFailureWritesNothing(store: Store, targets: seq<Key>, holder: string, reason: Option<string>,
                                    options: Options, now: int)
    ensures var r := Acquire(store, targets, holder, reason, options, now);
      r.Ok? && !r.value ==> forall k :: k in r.store ==> k in store && r.store[k] == store[k]
    ensures var r := Acquire(store, targets, holder, reason, options, now);
      r.Ok? && !r.value ==> forall k :: Live(store, k, now) ==> k in r.store
    ensures var r := Acquire(store, targets, holder, reason, options, now);
      r.Ok? && !r.value ==> forall k :: k in store && k !in r.store ==> k in targets && Expired(store[k], now)
  {
  }

  /**
   * Which failure an admitted acquire meets: an invalid record raises
   * RecordInvalid, and a target listed twice without a live lock collides
   * with itself on the unique index, which rolls back to the original table,
   * reaped locks included, and returns false.
   */
  lemma AcquireWriteFailures(store: Store, targets: seq<Key>, holder: string, reason: Option<string>,
                             options: Options, now: int)
    requires |targets| > 0 && Admits(store, targets, holder, options, now)
    ensures RepeatsAreLocked(store, targets, now) && !TargetsValid(targets, holder, reason, options.expiryHandler) ==>
      Acquire(store, targets, holder, reason, options, now) == Fail(RecordInvalid)
    ensures !RepeatsAreLocked(store, targets, now) && TargetsValid(targets, holder, reason, options.expiryHandler) ==>
      Acquire(store, targets, holder, reason, options, now) == Ok(false, store)
  {
    var reaping := DetermineExistingLocks(store, targets, now);
    var existing := reaping.existing;
    RejectionsMatchAdmits(store, targets, holder, options, now);
    assert RepeatsWithin(targets, existing.Keys) <==> RepeatsAreLocked(store, targets, now);
  }

  /**
   * An expired lock never decides an acquire: with or without it the call
   * succeeds alike. On success, and on a rejection, an expired lock on a
   * target is gone, deleted or replaced by a lock created now.
   */
  lemma ExpiredLockNeverBlocks(store: Store, targets: seq<Key>, holder: string, reason: Option<string>,
                               options: Options, now: int, k: Key)
    requires k in store && Expired(store[k], now)
    ensures Succeeds(store, targets, holder, reason, options, now)
      <==> Succeeds(map x | x in store && x != k :: store[x], targets, holder, reason, options, now)
    ensures k in targets && Succeeds(store, targets, holder, reason, options, now) ==>
      var after := AcquiredTable(store, targets, holder, reason, options.expiryHandler, now);
      k in after && after[k].createdAt == now && after[k].updatedAt == now
    ensures k in targets && !Admits(store, targets, holder, options, now) ==>
      k !in Acquire(store, targets, holder, reason, options, now).store
  {
    var without := map x | x in store && x != k :: store[x];
    assert forall x :: Live(store, x, now) <==> Live(without, x, now);
    assert forall x :: Live(store, x, now) ==> store[x] == without[x];
  }

  /**
   * Reentrancy: the holder of a lock can acquire it again, with a reason
   * and handler that pass validation, as long as force_new and only_once
   * are off. A target listed twice needs its lock to be still live.
   */
  lemma ReacquireBySameHolder(store: Store, targets: seq<Key>, holder: string, reason: Option<string>,
                              options: Options, now: int,
                              reason': Option<string>, options': Options, later: int)
    requires Succeeds(store, targets, holder, reason, options, now)
    requires !Truthy(options'.forceNew) && !Truthy(options'.onlyOnce)
    requires TargetsValid(targets, holder, reason', options'.expiryHandler)
    requires NoRepeats(targets) || later <= now + LeaseSeconds
    ensures Succeeds(AcquiredTable(store, targets, holder, reason, options.expiryHandler, now),
                     targets, holder, reason', options', later)
  {
    var after := AcquiredTable(store, targets, holder, reason, options.expiryHandler, now);
    assert Admits(after, targets, holder, options', later) by {
      assert forall k :: k in targets ==> after[k].lockHolder == holder;
    }
    assert RepeatsAreLocked(after, targets, later) by {
      if !NoRepeats(targets) {
        assert forall k :: k in targets ==> after[k].updatedAt == now;
        assert forall k :: k in targets ==> Live(after, k, later);
      }
    }
  }

  /**
   * Mutual exclusion: while a lock taken by one holder is live (its lease has
   * not run out, or it has an expiry handler), any acquire by another holder
   * that names its target fails and leaves it in place.
   */
  lemma OtherHolderIsExcluded(store: Store, targets: seq<Key>, holder: string, reason: Option<string>,
                              options: Options, now: int,
                              targets': seq<Key>, holder': string, reason': Option<string>, options': Options,
                              later: int, k: Key)
    requires Succeeds(store, targets, holder, reason, options, now)
    requires k in targets && k in targets'
    requires holder' != holder
    requires later <= now + LeaseSeconds || options.expiryHandler.Some?
    ensures var after := AcquiredTable(store, targets, holder, reason, options.expiryHandler, now);
      Acquire(after, targets', holder', reason', options', later) == Ok(false, WithoutExpiredTargets(after, targets', later))
    ensures var after := AcquiredTable(store, targets, holder, reason, options.expiryHandler, now);
      k in WithoutExpiredTargets(after, targets', later)
  {
    var after := AcquiredTable(store, targets, holder, reason, options.expiryHandler, now);
    assert Live(after, k, later);
    assert !Admits(after, targets', holder', options', later);
  }

  /**
   * Targets without a live lock can be acquired by anyone, whatever the
   * options, provided the records are valid and no target is listed twice.
   */
  lemma AcquireFreeTargets(store: Store, targets: seq<Key>, holder: string, reason: Option<string>,
                           options: Options, now: int)
    requires |targets| > 0
    requires forall k :: k in targets ==> !Live(store, k, now)
    requires TargetsValid(targets, holder, reason, options.expiryHandler) && NoRepeats(targets)
    ensures Acquire(store, targets, holder, reason, options, now).Ok?
    ensures Acquire(store, targets, holder, reason, options, now).value
  {
  }

  /**
   * Release undoes a successful acquire: releasing the same targets by the
   * same holder deletes one lock per distinct target and leaves every other
   * lock as it was before the acquire.
   */
  lemma ReleaseUndoesAcquire(store: Store, targets: seq<Key>, holder: string, reason: Option<string>,
                             options: Options, now: int)
    requires Succeeds(store, targets, holder, reason, options, now)
    ensures var rel := Release(AcquiredTable(store, targets, holder, reason, options.expiryHandler, now), targets, holder);
      rel.Ok? && rel.value == |set k | k in targets|
    ensures var rel := Release(AcquiredTable(store, targets, holder, reason, options.expiryHandler, now), targets, holder);
      forall k :: k in rel.store <==> k in store && k !in targets
    ensures var rel := Release(AcquiredTable(store, targets, holder, reason, options.expiryHandler, now), targets, holder);
      forall k :: k in rel.store ==> rel.store[k] == store[k]
  {
    var after := AcquiredTable(store, targets, holder, reason, options.expiryHandler, now);
    assert forall k :: k in targets ==> k in after && after[k].lockHolder == holder;
    ReleaseHeldTargets(after, targets, holder);
  }

  /** Releasing targets that are all locked by the releasing holder deletes exactly their locks. */
  lemma ReleaseHeldTargets(store: Store, targets: seq<Key>, holder: string)
    requires |targets| > 0
    requires forall k :: k in targets ==> k in store && store[k].lockHolder == holder
    ensures Release(store, targets, holder).Ok?
    ensures Release(store, targets, holder).value == |set k | k in targets|
    ensures forall k :: k in Release(store, targets, holder).store <==> k in store && k !in targets
  {
    var rel := Release(store, targets, holder);
    assert store.Keys - rel.store.Keys == set k | k in targets;
  }

  /** The hand-over: acquire by one holder, release by it, and another holder's acquire succeeds. */
  lemma ReleaseHandsOver(store: Store, targets: seq<Key>, holder: string, reason: Option<string>,
                         options: Options, now: int,
                         holder': string, reason': Option<string>, options': Options, later: int)
    requires Succeeds(store, targets, holder, reason, options, now)
    requires TargetsValid(targets, holder', reason', options'.expiryHandler) && NoRepeats(targets)
    ensures var rel := Release(AcquiredTable(store, targets, holder, reason, options.expiryHandler, now), targets, holder);
      rel.Ok? && Succeeds(rel.store, targets, holder', reason', options', later)
  {
    ReleaseUndoesAcquire(store, targets, holder, reason, options, now);
  }

  /**
   * A blank holder drops the holder filter: releasing with it deletes the
   * targets' locks whoever holds them, which is what releasing a one-time
   * lock does.
   */
  lemma BlankHolderReleasesEveryHolder(store: Store, targets: seq<Key>, holder: string)
    requires |targets| > 0 && IsBlank(holder)
    ensures Release(store, targets, holder).Ok?
    ensures forall k :: k in targets ==> k !in Release(store, targets, holder).store
    ensures Release(store, targets, holder).value == |set k | k in store && k in targets|
  {
    var r := Release(store, targets, holder);
    assert store.Keys - r.store.Keys == set k | k in store && k in targets;
  }
}
