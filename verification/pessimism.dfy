/**
 * Pessimism: an object that holds nothing but a lock identity, for taking a
 * pessimistic lock on something that is not an ActiveRecord row. It carries
 * the PessimisticLocking behaviour unchanged.
 */
module Pessimism {
  import opened Values
  import opened LockRecord
  import opened PessimisticLock
  import opened PessimisticLocking
  import PessimisticLockProperties

  /** The object_type of a Pessimism created without one. */
  const DefaultObjectType: string := "Pessimism"

  /** `Pessimism.new(id, object_type = 'Pessimism')`: a fresh instance locking under (id, type). */
  function New(pessimisticLockObjectId: string, objectType: string := DefaultObjectType): Instance {
    Instance(Key(pessimisticLockObjectId, objectType), false, None)
  }

  /**
   * The readers return what the constructor was given, and the type
   * defaults to 'Pessimism'. A new instance has acquired nothing.
   */
  lemma NewKeepsIdentity(id: string, objectType: string)
    ensures New(id, objectType).target.lockObjectId == id
    ensures New(id, objectType).target.objectType == objectType
    ensures New(id).target.objectType == "Pessimism"
    ensures !New(id, objectType).lockAcquired && New(id, objectType).lockReason.None?
  {
  }

  /** A Pessimism id that the lock table accepts under the default type. */
  predicate LockableId(id: string) {
    !IsBlank(id) && |id| <= MaxLength
  }

  /** The default type is present and fits its column, so a lockable id is all a lock needs. */
  lemma LockableIdIsValid(id: string, holder: string, reason: Option<string>)
    requires LockableId(id) && |holder| <= MaxLength && !TooLong(reason)
    ensures TargetsValid([New(id).target], holder, reason, None)
  {
    assert !IsSpace(DefaultObjectType[0]);
    ValidIffRules(TargetAttributes(New(id).target, holder, reason, None));
  }

  /** The distinct targets of a one-element target list. */
  lemma SingleTarget(k: Key)
    ensures (set x | x in [k]) == {k}
  {
  }

  /**
   * Acquire through the lock manager on a free Pessimism id: the first
   * holder gets the lock and a second holder is then refused.
   */
  lemma SecondHolderIsRefused(id: string, store: Store, now: int)
    requires LockableId(id)
    requires !Live(store, New(id).target, now)
    ensures var first := Acquire(store, [New(id).target], "pessimist 1", None, NoOptions, now);
      first.Ok? && first.value
    ensures var first := Acquire(store, [New(id).target], "pessimist 1", None, NoOptions, now);
      Acquire(first.store, [New(id).target], "pessimist 2", None, NoOptions, now).Ok?
      && !Acquire(first.store, [New(id).target], "pessimist 2", None, NoOptions, now).value
  {
    var targets := [New(id).target];
    LockableIdIsValid(id, "pessimist 1", None);
    PessimisticLockProperties.AcquireSuccessState(store, targets, "pessimist 1", None, NoOptions, now);
    PessimisticLockProperties.OtherHolderIsExcluded(store, targets, "pessimist 1", None, NoOptions, now,
                                                   targets, "pessimist 2", None, NoOptions, now, New(id).target);
  }

  /**
   * Release hands the Pessimism over: after the first holder's acquire, its
   * release deletes its one lock, which leaves the id free for the second
   * holder (see `FreeIdIsAcquired`).
   */
  lemma ReleaseLetsSecondHolderIn(id: string, store: Store, now: int)
    requires LockableId(id)
    requires !Live(store, New(id).target, now)
    ensures var first := Acquire(store, [New(id).target], "pessimist 1", None, NoOptions, now);
      first.Ok? &&
      var released := Release(first.store, [New(id).target], "pessimist 1");
      released.Ok? && released.value == 1 && New(id).target !in released.store
  {
    var t := New(id).target;
    var targets := [t];
    LockableIdIsValid(id, "pessimist 1", None);
    PessimisticLockProperties.AcquireSuccessState(store, targets, "pessimist 1", None, NoOptions, now);
    PessimisticLockProperties.ReleaseUndoesAcquire(store, targets, "pessimist 1", None, NoOptions, now);
    SingleTarget(t);
  }

  /** An id without a lock is acquired by any holder that fits its column, under any options without handler. */
  lemma FreeIdIsAcquired(id: string, store: Store, holder: string, options: Options, later: int)
    requires LockableId(id) && |holder| <= MaxLength && options.expiryHandler.None?
    requires New(id).target !in store
    ensures Acquire(store, [New(id).target], holder, None, options, later).Ok?
    ensures Acquire(store, [New(id).target], holder, None, options, later).value
  {
    LockableIdIsValid(id, holder, None);
    PessimisticLockProperties.AcquireFreeTargets(store, [New(id).target], holder, None, options, later);
  }

  /**
   * A scoped lock on a Pessimism excludes a second instance of the same id:
   * inside the block, the second instance's own scoped acquire by another
   * holder raises PessimisticLockingError, which propagates, and the outer
   * lock is still released, so the id is free afterwards.
   */
  lemma NestedScopedLockIsRefused<V>(id: string, store: Store, reason: Option<string>, reason': Option<string>,
                                     now: int, block: (Instance, Store) -> Call<V>)
    requires LockableId(id) && !TooLong(reason)
    requires !Live(store, New(id).target, now)
    ensures var c := WithLock(New(id), store, Some("pessimist 1"), reason, now,
                              (i: Instance, s: Store) => WithLock(New(id), s, Some("pessimist 2"), reason', now, block));
      && c.Raised? && c.exception == PessimisticLockingError
      && New(id).target !in c.store
  {
    var p := New(id);
    LockableIdIsValid(id, "pessimist 1", reason);
    var a := AcquireLock(p, store, Some("pessimist 1"), reason, NoOptions, now);
    PessimisticLockProperties.AcquireSuccessState(store, [p.target], "pessimist 1", reason, NoOptions, now);
    assert Live(a.store, p.target, now);
    var inner := AcquireLock(New(id), a.store, Some("pessimist 2"), reason', NoOptions, now);
    assert inner.Returned? && !inner.value;
  }
}
