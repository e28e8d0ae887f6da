/**
 * The PessimisticLocking mixin: the per-object layer over the lock manager.
 * An object that includes it locks under its own (id, type) key, remembers
 * whether its last acquire succeeded and why the last one failed, and offers
 * a scoped acquire that always releases, plus one-time locks held by the
 * empty-string holder.
 */
module PessimisticLocking {
  import opened Values
  import opened LockRecord
  import opened PessimisticLock
  import PessimisticLockProperties

  /** ONE_TIME_LOCKING_LOCK_HOLDER: the holder of a one-time lock. */
  const OneTimeLockingLockHolder: string := ""

  /**
   * An object that includes the mixin: the key it locks under and its two
   * instance variables. `lockAcquired` is nil, read as false, until the first
   * acquire; `lockReason` is nil until an acquire fails.
   */
  datatype Instance = Instance(target: Key, lockAcquired: bool, lockReason: Option<string>)

  /** An ActiveRecord row: its class name and its primary key value as a string. */
  datatype Record = Record(className: string, primaryKey: string)

  /**
   * A row with the mixin's default identity: `pessimistic_lock_object_id`
   * is the primary key value and `object_type` the class name.
   */
  function ForRecord(r: Record): (i: Instance)
    ensures i.target.lockObjectId == r.primaryKey && i.target.objectType == r.className
    ensures !i.lockAcquired && i.lockReason.None?
  {
    Instance(Key(r.primaryKey, r.className), false, None)
  }

  /**
   * Lock identity: two rows lock under the same key exactly when they are
   * the same row, the same primary key in the same class.
   */
  lemma RecordsShareKeyIffSameRow(a: Record, b: Record)
    ensures ForRecord(a).target == ForRecord(b).target <==>
      a.className == b.className && a.primaryKey == b.primaryKey
  {
  }

  /** What a call on the mixin can raise. */
  datatype Exception =
    | LockManagerError(error: Error)   // ArgumentError or RecordInvalid from the lock manager
    | PessimisticLockingError          // raised by the scoped acquire when the lock is taken
    | BlockError(message: string)      // whatever the caller's block raised

  /** A call on an instance: its value or exception, with the instance and table afterwards. */
  datatype Call<+T> =
    | Returned(value: T, inst: Instance, store: Store)
    | Raised(exception: Exception, inst: Instance, store: Store)

  /** The holder the lock manager receives: `lock_holder || ''`. */
  function HolderString(holder: Option<string>): string {
    holder.GetOr("")
  }

  /**
   * The options of `acquire_pessimistic_lock`: for the one-time holder
   * `{ :only_once => true }.merge(options)`, so a key the caller gives wins;
   * other holders' options pass unchanged. The test is on the holder as
   * given, before nil becomes ''.
   */
  function LockOptions(holder: Option<string>, options: Options): Options {
    if holder == Some(OneTimeLockingLockHolder) then
      options.(onlyOnce := if options.onlyOnce.Some? then options.onlyOnce else Some(true))
    else options
  }

  /** The reason recorded after a failed acquire: the reason of the lock found, '' when none is found. */
  function BlockingReason(store: Store, target: Key): Option<string> {
    match FindFor(store, target)
    case Some(l) => l.reason
    case None => Some("")
  }

  /**
   * `acquire_pessimistic_lock`: acquires the object's own lock, records the
   * outcome in `lockAcquired` and, on failure, the blocking lock's reason.
   * A failure always comes from a live lock on the object, which the
   * failed call leaves in place. A raised RecordInvalid changes nothing.
   */
  function AcquireLock(inst: Instance, store: Store, holder: Option<string>, reason: Option<string>,
                       options: Options, now: int): (c: Call<bool>)
    ensures c.inst.target == inst.target
    ensures c.Returned? ==> c.inst.lockAcquired == c.value
    ensures c.Returned? && c.value ==> c.inst.lockReason == inst.lockReason
    ensures c.Returned? && c.value <==>
      && Admits(store, [inst.target], HolderString(holder), LockOptions(holder, options), now)
      && TargetsValid([inst.target], HolderString(holder), reason, options.expiryHandler)
    ensures c.Returned? && !c.value ==>
      && Live(store, inst.target, now)
      && inst.target in c.store && c.store[inst.target] == store[inst.target]
      && c.inst.lockReason == store[inst.target].reason
    ensures c.Returned? && !c.value ==> c.store == store
    ensures c.Raised? ==> c == Raised(LockManagerError(RecordInvalid), inst, store)
  {
    match Acquire(store, [inst.target], HolderString(holder), reason, LockOptions(holder, options), now)
    case Fail(e) => Raised(LockManagerError(e), inst, store)
    case Ok(acquired, after) =>
      assert !acquired ==> Live(store, inst.target, now) ==> WithoutExpiredTargets(store, [inst.target], now) == store;
      var lockReason := if acquired then inst.lockReason else BlockingReason(after, inst.target);
      Returned(acquired, inst.(lockAcquired := acquired, lockReason := lockReason), after)
  }

  /**
   * `release_pessimistic_lock`: releases the object's own lock held by
   * `holder || ''` (whoever holds it when that is blank) and returns the
   * count. The instance, its flag included, is untouched.
   */
  function ReleaseLock(inst: Instance, store: Store, holder: Option<string>): (c: Call<nat>)
    ensures c.Returned? && c.inst == inst
    ensures forall k :: k in c.store <==>
      k in store && !(k == inst.target && HolderSelects(Some(HolderString(holder)), store[k]))
    ensures forall k :: k in c.store ==> c.store[k] == store[k]
    ensures c.value == if inst.target in store && HolderSelects(Some(HolderString(holder)), store[inst.target]) then 1 else 0
  {
    var r := Release(store, [inst.target], HolderString(holder));
    assert store.Keys - r.store.Keys == if inst.target in store && HolderSelects(Some(HolderString(holder)), store[inst.target]) then {inst.target} else {};
    Returned(r.value, inst, r.store)
  }

  /**
   * `with_pessimistic_lock`: acquires with the default options and raises
   * PessimisticLockingError when that fails, without running the block.
   * Otherwise it runs the block on the instance and then, whether the block
   * returned or raised, releases the lock held by `holder`.
   */
  function WithLock<V>(inst: Instance, store: Store, holder: Option<string>, reason: Option<string>, now: int,
                       block: (Instance, Store) -> Call<V>): (c: Call<V>)
    ensures var a := AcquireLock(inst, store, holder, reason, NoOptions, now);
      a.Returned? && !a.value ==> c == Raised(PessimisticLockingError, a.inst, a.store)
    ensures var a := AcquireLock(inst, store, holder, reason, NoOptions, now);
      a.Raised? ==> c == Raised(a.exception, inst, store)
    ensures var a := AcquireLock(inst, store, holder, reason, NoOptions, now);
      a.Returned? && a.value ==>
        !(inst.target in c.store && HolderSelects(Some(HolderString(holder)), c.store[inst.target]))
    ensures var a := AcquireLock(inst, store, holder, reason, NoOptions, now);
      a.Returned? && a.value ==>
        var b := block(a.inst, a.store);
        && c.inst == b.inst
        && c.store == ReleaseLock(inst, b.store, holder).store
        && (c.Returned? <==> b.Returned?)
        && (b.Returned? ==> c.value == b.value)
        && (b.Raised? ==> c.exception == b.exception)
  {
    match AcquireLock(inst, store, holder, reason, NoOptions, now)
    case Raised(e, i, s) => Raised(e, i, s)
    case Returned(acquired, i, s) =>
      if !acquired then Raised(PessimisticLockingError, i, s)
      else
        match block(i, s)
        case Returned(v, i', s') => Returned(v, i', ReleaseLock(inst, s', holder).store)
        case Raised(e, i', s') => Raised(e, i', ReleaseLock(inst, s', holder).store)
  }

  /**
   * `acquire_one_time_pessimistic_lock`: acquire by the one-time holder. It
   * succeeds exactly when the object has no live lock at all, whoever holds
   * it, and the record is valid.
   */
  function AcquireOneTimeLock(inst: Instance, store: Store, reason: Option<string>, now: int): (c: Call<bool>)
    ensures c.Returned? && c.value <==>
      !Live(store, inst.target, now) && TargetsValid([inst.target], OneTimeLockingLockHolder, reason, None)
    ensures c.Returned? && c.value ==> inst.target in c.store && c.store[inst.target].lockHolder == OneTimeLockingLockHolder
  {
    var c := AcquireLock(inst, store, Some(OneTimeLockingLockHolder), reason, NoOptions, now);
    if c.Returned? && c.value then
      PessimisticLockProperties.AcquireSuccessState(store, [inst.target], OneTimeLockingLockHolder, reason,
                                                    LockOptions(Some(OneTimeLockingLockHolder), NoOptions), now);
      c
    else c
  }

  /**
   * `release_one_time_pessimistic_lock`: release by the one-time holder,
   * which deletes the object's lock whoever holds it.
   */
  function ReleaseOneTimeLock(inst: Instance, store: Store): (c: Call<nat>)
    ensures c.Returned? && c.inst == inst
    ensures inst.target !in c.store
    ensures forall k :: k in store && k != inst.target ==> k in c.store && c.store[k] == store[k]
    ensures c.value == if inst.target in store then 1 else 0
  {
    ReleaseLock(inst, store, Some(OneTimeLockingLockHolder))
  }

  /**
   * `with_one_time_pessimistic_lock`: the scoped acquire by the one-time
   * holder. It raises PessimisticLockingError exactly when the object has a
   * live lock. Otherwise an invalid record raises RecordInvalid, and after
   * an acquired run the object has no lock at all.
   */
  function WithOneTimeLock<V>(inst: Instance, store: Store, reason: Option<string>, now: int,
                              block: (Instance, Store) -> Call<V>): (c: Call<V>)
    ensures Live(store, inst.target, now) <==> c == Raised(PessimisticLockingError, AcquireOneTimeLock(inst, store, reason, now).inst, AcquireOneTimeLock(inst, store, reason, now).store)
    ensures !Live(store, inst.target, now) && TargetsValid([inst.target], OneTimeLockingLockHolder, reason, None) ==>
      inst.target !in c.store
    ensures !Live(store, inst.target, now) && !TargetsValid([inst.target], OneTimeLockingLockHolder, reason, None) ==>
      c == Raised(LockManagerError(RecordInvalid), inst, store)
  {
    WithLock(inst, store, Some(OneTimeLockingLockHolder), reason, now, block)
  }

  // ---------------------------------------------------------------------
  // Properties
  // ---------------------------------------------------------------------

  /**
   * only_once is in force exactly when the caller sets it, or the holder is
   * the one-time holder and the caller leaves the key out. An explicit
   * `only_once: false` (or nil) wins over the default, and a nil holder is
   * not the one-time holder.
   */
  lemma OnlyOnceDefault(holder: Option<string>, options: Options)
    ensures Truthy(LockOptions(holder, options).onlyOnce) <==>
      Truthy(options.onlyOnce) || (holder == Some("") && options.onlyOnce.None?)
    ensures LockOptions(holder, options).forceNew == options.forceNew
    ensures LockOptions(holder, options).expiryHandler == options.expiryHandler
  {
  }

  /**
   * Once a one-time lock is taken, no other holder gets the object's lock
   * while it lives (a one-time lock has no expiry handler, so it lives for
   * the lease), whichever instance of the object asks and whatever the
   * options.
   */
  lemma OneTimeLockExcludesOtherHolders(inst: Instance, store: Store, reason: Option<string>, now: int,
                                        taken: Call<bool>, other: Instance, holder: string,
                                        reason': Option<string>, options': Options, later: int)
    requires taken == AcquireOneTimeLock(inst, store, reason, now) && taken.Returned? && taken.value
    requires other.target == inst.target
    requires holder != OneTimeLockingLockHolder
    requires later <= now + LeaseSeconds
    ensures AcquireLock(other, taken.store, Some(holder), reason', options', later).Returned?
    ensures !AcquireLock(other, taken.store, Some(holder), reason', options', later).value
  {
    var a := Acquire(store, [inst.target], "", reason, LockOptions(Some(""), NoOptions), now);
    PessimisticLockProperties.AcquireSuccessState(store, [inst.target], "", reason, LockOptions(Some(""), NoOptions), now);
    assert Live(taken.store, inst.target, later);
    assert !Admits(taken.store, [other.target], holder, LockOptions(Some(holder), options'), later);
  }

  /**
   * The one-time holder cannot take a one-time lock twice: with the default
   * options a second acquire fails, on any instance of the object, until the
   * lock is released (or its lease runs out).
   */
  lemma OneTimeLockIsTakenOnce(inst: Instance, store: Store, reason: Option<string>, now: int,
                               taken: Call<bool>, other: Instance, reason': Option<string>, later: int)
    requires taken == AcquireOneTimeLock(inst, store, reason, now) && taken.Returned? && taken.value
    requires other.target == inst.target
    requires later <= now + LeaseSeconds
    ensures AcquireOneTimeLock(other, taken.store, reason', later).Returned?
    ensures !AcquireOneTimeLock(other, taken.store, reason', later).value
    ensures AcquireOneTimeLock(other, taken.store, reason', later).inst.lockReason == reason
  {
    PessimisticLockProperties.AcquireSuccessState(store, [inst.target], "", reason, LockOptions(Some(""), NoOptions), now);
    assert Live(taken.store, inst.target, later);
  }

  /**
   * An ordinary lock, taken by a holder other than the one-time holder,
   * makes every one-time acquire on the object fail while it lives.
   */
  lemma OrdinaryLockBlocksOneTimeLock(inst: Instance, store: Store, holder: string, reason: Option<string>,
                                      options: Options, now: int, taken: Call<bool>,
                                      other: Instance, reason': Option<string>, later: int)
    requires holder != OneTimeLockingLockHolder
    requires taken == AcquireLock(inst, store, Some(holder), reason, options, now) && taken.Returned? && taken.value
    requires other.target == inst.target
    requires later <= now + LeaseSeconds || options.expiryHandler.Some?
    ensures AcquireOneTimeLock(other, taken.store, reason', later).Returned?
    ensures !AcquireOneTimeLock(other, taken.store, reason', later).value
  {
    PessimisticLockProperties.AcquireSuccessState(store, [inst.target], holder, reason, LockOptions(Some(holder), options), now);
    assert Live(taken.store, inst.target, later);
  }

  /**
   * A nil holder gets back into a live one-time lock: it becomes '' only
   * after the one-time test, so the only_once default is not applied and it
   * re-acquires as the lock's holder.
   */
  lemma NilHolderReentersOneTimeLock(inst: Instance, store: Store, reason: Option<string>, now: int,
                                     taken: Call<bool>, reason': Option<string>, handler: Option<string>, later: int)
    requires taken == AcquireOneTimeLock(inst, store, reason, now) && taken.Returned? && taken.value
    requires TargetsValid([inst.target], "", reason', handler)
    ensures AcquireLock(taken.inst, taken.store, None, reason', Options(None, None, handler), later).Returned?
    ensures AcquireLock(taken.inst, taken.store, None, reason', Options(None, None, handler), later).value
  {
    PessimisticLockProperties.AcquireSuccessState(store, [inst.target], "", reason, LockOptions(Some(""), NoOptions), now);
    assert taken.store[inst.target].lockHolder == "";
    assert Succeeds(taken.store, [inst.target], "", reason', LockOptions(None, Options(None, None, handler)), later);
  }

  /**
   * The one-time holder gets back into a live one-time lock when it passes
   * `only_once: false`, which overrides the default.
   */
  lemma ExplicitOptionReentersOneTimeLock(inst: Instance, store: Store, reason: Option<string>, now: int,
                                          taken: Call<bool>, reason': Option<string>, handler: Option<string>, later: int)
    requires taken == AcquireOneTimeLock(inst, store, reason, now) && taken.Returned? && taken.value
    requires TargetsValid([inst.target], "", reason', handler)
    ensures AcquireLock(taken.inst, taken.store, Some(""), reason', Options(None, Some(false), handler), later).Returned?
    ensures AcquireLock(taken.inst, taken.store, Some(""), reason', Options(None, Some(false), handler), later).value
  {
    PessimisticLockProperties.AcquireSuccessState(store, [inst.target], "", reason, LockOptions(Some(""), NoOptions), now);
    assert taken.store[inst.target].lockHolder == "";
    assert Succeeds(taken.store, [inst.target], "", reason', LockOptions(Some(""), Options(None, Some(false), handler)), later);
  }

  /**
   * Releasing a one-time lock releases the object's lock whoever holds it,
   * because the one-time holder is blank and a blank holder is not used as a
   * filter.
   */
  lemma OneTimeReleaseIgnoresHolder(inst: Instance, store: Store)
    requires inst.target in store
    ensures inst.target !in ReleaseOneTimeLock(inst, store).store
    ensures ReleaseOneTimeLock(inst, store).value == 1
  {
  }

  /**
   * `pessimistic_lock_acquired?` reports the last acquire on this instance;
   * a release does not reset it.
   */
  lemma AcquiredFlagTracksLastAcquire(inst: Instance, store: Store, holder: Option<string>, reason: Option<string>,
                                      options: Options, now: int, releaseHolder: Option<string>)
    requires AcquireLock(inst, store, holder, reason, options, now).Returned?
    ensures var a := AcquireLock(inst, store, holder, reason, options, now);
      ReleaseLock(a.inst, a.store, releaseHolder).inst.lockAcquired == a.value
  {
  }

  /**
   * When the scoped acquire cannot get the lock, the block never runs: the
   * outcome is the same whatever the block, and nothing is released.
   */
  lemma ScopedFailureSkipsBlock<V>(inst: Instance, store: Store, holder: Option<string>, reason: Option<string>, now: int,
                                   block: (Instance, Store) -> Call<V>, block': (Instance, Store) -> Call<V>)
    requires AcquireLock(inst, store, holder, reason, NoOptions, now).Returned?
    requires !AcquireLock(inst, store, holder, reason, NoOptions, now).value
    ensures WithLock(inst, store, holder, reason, now, block) == WithLock(inst, store, holder, reason, now, block')
    ensures WithLock(inst, store, holder, reason, now, block).Raised?
    ensures WithLock(inst, store, holder, reason, now, block).exception == PessimisticLockingError
    ensures inst.target in WithLock(inst, store, holder, reason, now, block).store
  {
  }

  /**
   * After a scoped acquire whose block leaves the object's lock to its
   * holder (or deletes it), the object is free: another holder, on any
   * instance of the object, acquires it next.
   */
  lemma ScopedLockIsHandedOver<V>(inst: Instance, store: Store, holder: Option<string>, reason: Option<string>, now: int,
                                  block: (Instance, Store) -> Call<V>,
                                  other: Instance, holder': Option<string>, reason': Option<string>, later: int)
    requires var a := AcquireLock(inst, store, holder, reason, NoOptions, now);
      a.Returned? && a.value &&
      var s := block(a.inst, a.store).store;
      inst.target in s ==> s[inst.target].lockHolder == HolderString(holder)
    requires other.target == inst.target
    requires TargetsValid([inst.target], HolderString(holder'), reason', None)
    ensures inst.target !in WithLock(inst, store, holder, reason, now, block).store
    ensures AcquireLock(other, WithLock(inst, store, holder, reason, now, block).store, holder', reason', NoOptions, later).Returned?
    ensures AcquireLock(other, WithLock(inst, store, holder, reason, now, block).store, holder', reason', NoOptions, later).value
  {
  }

  /**
   * An unsaved row has a nil primary key, which becomes the blank id '':
   * acquiring its lock raises RecordInvalid and changes nothing, unless a
   * live lock already sits on that blank key.
   */
  lemma UnsavedRecordCannotBeLocked(className: string, store: Store, holder: Option<string>,
                                    reason: Option<string>, options: Options, now: int)
    requires !Live(store, Key("", className), now)
    ensures AcquireLock(ForRecord(Record(className, "")), store, holder, reason, options, now)
      == Raised(LockManagerError(RecordInvalid), ForRecord(Record(className, "")), store)
  {
    var k := Key("", className);
    assert !Valid(TargetAttributes(k, HolderString(holder), reason, options.expiryHandler));
    PessimisticLockProperties.AcquireWriteFailures(store, [k], HolderString(holder), reason, LockOptions(holder, options), now);
  }

  /**
   * The lock belongs to the row, not to the Ruby object: two instances of
   * the same row contend for one lock. While one holder has it another is
   * refused, the holder itself may re-acquire on the other instance, and the
   * other instance records the refusal in its own flag.
   */
  lemma SameRowSharesLock(r: Record, store: Store, holder: string, holder': string, reason: Option<string>, now: int)
    requires holder != holder' && holder != OneTimeLockingLockHolder && holder' != OneTimeLockingLockHolder
    requires forall k :: k in store ==> k != Key(r.primaryKey, r.className)
    requires TargetsValid([Key(r.primaryKey, r.className)], holder, reason, None)
    ensures var first := AcquireLock(ForRecord(r), store, Some(holder), reason, NoOptions, now);
      && first.Returned? && first.value
      && AcquireLock(ForRecord(r), first.store, Some(holder'), reason, NoOptions, now).Returned?
      && !AcquireLock(ForRecord(r), first.store, Some(holder'), reason, NoOptions, now).value
      && !AcquireLock(ForRecord(r), first.store, Some(holder'), reason, NoOptions, now).inst.lockAcquired
      && AcquireLock(ForRecord(r), first.store, Some(holder), reason, NoOptions, now).Returned?
      && AcquireLock(ForRecord(r), first.store, Some(holder), reason, NoOptions, now).value
  {
    var k := Key(r.primaryKey, r.className);
    var first := AcquireLock(ForRecord(r), store, Some(holder), reason, NoOptions, now);
    assert Admits(store, [k], holder, NoOptions, now);
    PessimisticLockProperties.AcquireSuccessState(store, [k], holder, reason, NoOptions, now);
    assert Live(first.store, k, now);
  }
}
