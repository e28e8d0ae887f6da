# Pessimistic offline locking: a Dafny model

This project models the lock manager of the `pessimism` gem: a table of
pessimistic locks, one row per locked object, that independent processes
consult to take exclusive, lease-based locks on named objects.

- `values.dfy` (`Values`): nil as `Option`, and ActiveSupport's `blank?` on
  strings (empty or Unicode white space only).
- `lock_record.dfy` (`LockRecord`): a row of `pessimistic_locks`, keyed by
  (lock_object_id, object_type), its validations and the 15-minute lease
  (`expired?`). The table is a `map` from key to lock, so the unique index
  on the key pair holds by construction; a second insert of a key is the
  duplicate-key error.
- `pessimistic_lock.dfy` (`PessimisticLock`): `find_for`,
  `find_for_targets`, the read-and-reap `determine_existing_locks`, the
  transactional multi-target `acquire` (rejections, `create!` loop,
  `save!` loop, rollback on a duplicate key, `RecordInvalid` raised),
  `release` and the bounded `delete_expired!`.
- `pessimistic_lock_properties.dfy` (`PessimisticLockProperties`): how
  calls relate: the table after success and failure, reentrancy, mutual
  exclusion, hand-over by release, expired locks never blocking.
- `pessimistic_locking.dfy` (`PessimisticLocking`): the mixin: the
  object's own lock, the acquired flag and blocking reason, the scoped
  `with_pessimistic_lock`, and one-time locks held by the empty holder.
- `pessimism.dfy` (`Pessimism`): the stand-alone lockable object.

Every operation takes the table and returns the table it commits. The
caller supplies the clock as a number of seconds. A lock-manager call
(`acquire`, `release`) that raises returns the caller's table unchanged:
`ArgumentError` is raised before any write, and `RecordInvalid` rolls the
transaction back. A scoped call whose block raises commits the block's
writes followed by the release of the holder's lock.

Where the code and its own comments disagree, the model follows the code.
The comment on one-time locks (`pessimistic_locking.rb`, lines 65-71)
says such a lock can be acquired only once, whatever the holder and
reason. The code behaves differently:

- The one-time holder does not force `only_once`. The mixin merges
  `{ :only_once => true }` under the caller's options, so an explicit
  `only_once: false` wins.
- A mixin call with a nil holder becomes `''` after the one-time test. It
  therefore acquires as the one-time holder without `only_once`.
- A one-time lock taken through the one-time wrappers has no expiry
  handler. It is exclusive until released or until its 15-minute lease
  runs out, not for ever. Only an acquire by the empty holder that passes
  an expiry handler takes a one-time lock that never expires.
- `release` with a blank holder drops the holder condition. Releasing a
  one-time lock therefore deletes the object's lock whoever holds it.

## Model

| member | source | states |
|---|---|---|
| LockRecord.ValidIffRules | gems/pessimism/lib/active_record/pessimistic_lock.rb:6-14 | a record is valid exactly when id and type are present (not blank), the holder is not nil (blank allowed), and every present string has at most 100 characters |
| LockRecord.ValidationExamples | gems/pessimism/test/unit/pessimistic_lock_test.rb:15-38 | the validation cases: a good record is valid; an empty record fails on id, type and holder; a nil, empty or blank id or type fails on that field alone; a nil holder fails, an empty or blank one does not; 101 characters in any field fails on that field alone |
| LockRecord.HandlerNeverExpires | gems/pessimism/lib/active_record/pessimistic_lock.rb:28-30 | a lock with an expiry handler is never expired, however old its updated_at |
| LockRecord.ExpiryIsPermanent | gems/pessimism/lib/active_record/pessimistic_lock.rb:28-30 | a lock expired at one time is expired at every later time |
| LockRecord.TouchedLockIsLive | gems/pessimism/lib/active_record/pessimistic_lock.rb:28-30 | a lock updated now is not expired for the 15 minutes of the lease |
| PessimisticLockProperties.BatchLookupAgreesWithFindFor | gems/pessimism/lib/active_record/pessimistic_lock.rb:107-119 | the batch lookup returns, for each target, the lock `find_for` (lines 32-34) finds on its key, live or expired; a holder that is not blank keeps only its own locks, and a blank holder selects like no holder |
| PessimisticLock.DetermineExistingLocks | gems/pessimism/lib/active_record/pessimistic_lock.rb:121-136 | returns exactly the live locks on the targets, and deletes exactly the expired locks on the targets from the table, leaving every other row as it was |
| PessimisticLock.Unlocked | gems/pessimism/lib/active_record/pessimistic_lock.rb:57-62 | the targets still to create are exactly those without a live lock |
| PessimisticLock.CreateAll | gems/pessimism/lib/active_record/pessimistic_lock.rb:62-69 | the `create!` loop inserts every key exactly when each record is valid, no key is taken and none repeats; otherwise it fails on an invalid record or a duplicate key; on success the table is the old one plus the new locks |
| PessimisticLock.SaveAll | gems/pessimism/lib/active_record/pessimistic_lock.rb:72-77 | the `save!` loop never hits the unique index; it succeeds exactly when every refreshed lock is valid, and then rewrites reason, handler and updated_at of the live locks in place, keeping the keys |
| PessimisticLock.WriteLocks | gems/pessimism/lib/active_record/pessimistic_lock.rb:57-77 | the write phase succeeds exactly when all target records are valid and each repeated target is already locked; new locks are stamped now, refreshed ones keep created_at, other rows are untouched |
| PessimisticLock.Acquire | gems/pessimism/lib/active_record/pessimistic_lock.rb:38-84 | raises ArgumentError exactly for no targets; returns true exactly when the live locks are admitted, the records are valid and repeated targets are locked; a rejection returns false and commits only the reaping; any false leaves the table or the reaped table; the duplicate key is the only statement error modelled |
| PessimisticLock.RejectionsMatchAdmits | gems/pessimism/lib/active_record/pessimistic_lock.rb:46-54 | the three early returns fire exactly when some live target lock belongs to another holder, or exists while force_new or only_once is set |
| PessimisticLock.Release | gems/pessimism/lib/active_record/pessimistic_lock.rb:89-94 | raises ArgumentError exactly for no targets; deletes exactly the targets' locks held by the holder (all of them for a blank holder), whatever their handler, and returns how many it deleted, 0 exactly when none matched |
| PessimisticLockProperties.SweepMatchesReap | gems/pessimism/lib/active_record/pessimistic_lock.rb:20-30 | the rows the sweep selects (no handler, older than the lease) are exactly the rows `expired?` reports: the read-and-reap deletes the targets' rows among them and returns the other rows the batch lookup finds |
| PessimisticLock.DeleteExpired | gems/pessimism/lib/active_record/pessimistic_lock.rb:17-26 | deletes min(50, number of expired) expired locks and nothing else, returns that count, and a count below 50 leaves no expired lock |
| PessimisticLock.SelectLimited | gems/pessimism/lib/active_record/pessimistic_lock.rb:20-22 | `limit(50)` returns a subset of the matching rows of size min(limit, matches), all of them when fewer match |
| PessimisticLock.MissingTargets | gems/pessimism/lib/active_record/pessimistic_lock.rb:57-69 | the targets handed to `create!` are not in the table, repeat only if a repeated target is unlocked, and with the live locks cover every target's validation |
| PessimisticLock.UnlockedRepeats | gems/pessimism/lib/active_record/pessimistic_lock.rb:57-69 | the create loop meets no key twice exactly when every repeated target already has a live lock |
| PessimisticLockProperties.AcquireSuccessState | gems/pessimism/lib/active_record/pessimistic_lock.rb:62-77 | whenever acquire's success condition holds it returns true with exactly the independently described table: every target locked for the holder with the given reason and handler, updated now, created now unless it was live before; other rows unchanged |
| PessimisticLockProperties.IsAcquiredTable | gems/pessimism/lib/active_record/pessimistic_lock.rb:62-77 | a table that agrees key by key with that description is that table |
| PessimisticLockProperties.ReleaseHeldTargets | gems/pessimism/lib/active_record/pessimistic_lock.rb:89-94 | releasing targets all held by the releasing holder deletes exactly their locks and counts one per distinct target |
| PessimisticLockProperties.AcquireFailureWritesNothing | gems/pessimism/lib/active_record/pessimistic_lock.rb:45-82 | a false return creates or modifies no lock and deletes no live one; only expired target locks may be gone |
| PessimisticLockProperties.AcquireWriteFailures | gems/pessimism/lib/active_record/pessimistic_lock.rb:62-82 | an admitted acquire in which every repeated target is locked, but some record is invalid, raises RecordInvalid; one in which every record is valid, but an unlocked target is listed twice, hits the unique index, rolls back to the original table and returns false |
| PessimisticLockProperties.ExpiredLockNeverBlocks | gems/pessimism/lib/active_record/pessimistic_lock.rb:28-30 | an expired lock does not change whether acquire succeeds; on success it is replaced by a lock created now, and on a rejection it is deleted |
| PessimisticLockProperties.ReacquireBySameHolder | gems/pessimism/lib/active_record/pessimistic_lock.rb:49-53 | the holder of a lock acquires it again, with a new reason and handler that pass validation, unless force_new or only_once is set; a target listed twice must be re-acquired within the lease |
| PessimisticLockProperties.OtherHolderIsExcluded | gems/pessimism/lib/active_record/pessimistic_lock.rb:49-53 | while a lock is live, another holder's acquire naming its target returns false and the lock stays |
| PessimisticLockProperties.AcquireFreeTargets | gems/pessimism/lib/active_record/pessimistic_lock.rb:38-84 | targets without a live lock, listed once, with valid records are acquired by anyone under any options |
| PessimisticLockProperties.ReleaseUndoesAcquire | gems/pessimism/lib/active_record/pessimistic_lock.rb:89-94 | releasing the acquired targets by the same holder deletes one lock per distinct target and restores every other row |
| PessimisticLockProperties.ReleaseHandsOver | gems/pessimism/test/unit/pessimism_test.rb:22-28 | after acquire and release by one holder, another holder acquires the same targets |
| PessimisticLockProperties.BlankHolderReleasesEveryHolder | gems/pessimism/lib/active_record/pessimistic_lock.rb:117 | releasing with a blank holder deletes every lock on the targets whoever holds it |
| PessimisticLocking.RecordsShareKeyIffSameRow | gems/pessimism/lib/active_record/pessimistic_locking.rb:20-28 | two rows lock under the same key exactly when they have the same class name and the same primary key |
| PessimisticLocking.AcquireLock | gems/pessimism/lib/active_record/pessimistic_locking.rb:41-50 | the flag records the result; a false return leaves the whole table as it was; true exactly when the lock manager admits the object's lock and the record is valid; on false a live lock stays on the object and its reason is recorded; a raise leaves instance and table alone |
| PessimisticLocking.ReleaseLock | gems/pessimism/lib/active_record/pessimistic_locking.rb:30-32 | deletes the object's lock exactly when it is held by `holder or ''` (any holder when blank), returns 1 or 0 accordingly, and leaves the instance, flag included, as it was |
| PessimisticLocking.WithLock | gems/pessimism/lib/active_record/pessimistic_locking.rb:52-63 | a refused acquire raises PessimisticLockingError without running the block; an acquire error propagates; after a successful acquire the block runs on the acquired instance and table, its value or exception is the result, and the only change after it is the release of the holder's lock |
| PessimisticLocking.AcquireOneTimeLock | gems/pessimism/lib/active_record/pessimistic_locking.rb:72-74 | a one-time acquire returns true exactly when the object has no live lock, whoever holds it, and the record is valid; it then leaves the object locked by the empty holder |
| PessimisticLocking.ReleaseOneTimeLock | gems/pessimism/lib/active_record/pessimistic_locking.rb:76-78 | a one-time release deletes the object's lock whoever holds it, returns 1 exactly when there was one, and keeps every other row and the instance |
| PessimisticLocking.WithOneTimeLock | gems/pessimism/lib/active_record/pessimistic_locking.rb:80-84 | the refusal (PessimisticLockingError with the acquire's instance and table) happens exactly when the object has a live lock; otherwise an invalid record raises RecordInvalid and changes nothing, and a valid one leaves the object without a lock afterwards |
| PessimisticLocking.OnlyOnceDefault | gems/pessimism/lib/active_record/pessimistic_locking.rb:42-45 | only_once is in force exactly when the caller sets it, or the holder is the one-time holder and the caller leaves it out; other options pass unchanged |
| PessimisticLocking.OneTimeLockExcludesOtherHolders | gems/pessimism/lib/active_record/pessimistic_locking.rb:65-74 | while a one-time lock lives, every other non-nil holder is refused on any instance of the object, whatever its options |
| PessimisticLocking.OneTimeLockIsTakenOnce | gems/pessimism/lib/active_record/pessimistic_locking.rb:72-74 | a second one-time acquire fails while the first lives, and records the first lock's reason |
| PessimisticLocking.OrdinaryLockBlocksOneTimeLock | gems/pessimism/lib/active_record/pessimistic_locking.rb:72-74 | a live lock of an ordinary holder makes a one-time acquire fail |
| PessimisticLocking.NilHolderReentersOneTimeLock | gems/pessimism/lib/active_record/pessimistic_locking.rb:43-46 | a nil holder is not the one-time holder when the default is applied but becomes '' for the lock manager, so it re-acquires a live one-time lock |
| PessimisticLocking.ExplicitOptionReentersOneTimeLock | gems/pessimism/lib/active_record/pessimistic_locking.rb:43-46 | the one-time holder passing `only_once: false` overrides the default and re-acquires a live one-time lock |
| PessimisticLocking.OneTimeReleaseIgnoresHolder | gems/pessimism/lib/active_record/pessimistic_locking.rb:76-78 | releasing a one-time lock deletes the object's lock whoever holds it and returns 1 |
| PessimisticLocking.AcquiredFlagTracksLastAcquire | gems/pessimism/lib/active_record/pessimistic_locking.rb:16-18 | `pessimistic_lock_acquired?` reports the last acquire and survives a release |
| PessimisticLocking.ScopedFailureSkipsBlock | gems/pessimism/lib/active_record/pessimistic_locking.rb:54-56 | when the scoped acquire is refused the block never runs: the outcome does not depend on it, it raises PessimisticLockingError and the blocking lock stays |
| PessimisticLocking.ScopedLockIsHandedOver | gems/pessimism/lib/active_record/pessimistic_locking.rb:58-62 | when the block leaves the lock to its holder, the object is free afterwards and any other holder acquires it |
| PessimisticLocking.SameRowSharesLock | gems/pessimism/lib/active_record/pessimistic_locking.rb:20-28 | two instances of one row contend for one lock: a second holder is refused, records it in its own flag, and the first holder re-enters |
| PessimisticLocking.UnsavedRecordCannotBeLocked | gems/pessimism/test/unit/pessimistic_lock_test.rb:40-44 | a row without a primary key value cannot be locked: the acquire raises RecordInvalid and changes neither the instance nor the table |
| Pessimism.NewKeepsIdentity | gems/pessimism/lib/active_record/pessimism.rb:7-11 | the readers return the constructor's id and type, the type defaults to 'Pessimism', and nothing is acquired yet |
| Pessimism.LockableIdIsValid | gems/pessimism/lib/active_record/pessimism.rb:8 | with the default type, a present id of at most 100 characters gives a valid lock record |
| Pessimism.SecondHolderIsRefused | gems/pessimism/test/unit/pessimism_test.rb:22-25 | on a free id the first holder acquires through the lock manager and a second holder is then refused |
| Pessimism.ReleaseLetsSecondHolderIn | gems/pessimism/test/unit/pessimism_test.rb:26 | after the first holder's acquire on a free id, its release deletes exactly one lock and leaves the id without a lock |
| Pessimism.FreeIdIsAcquired | gems/pessimism/test/unit/pessimism_test.rb:27 | an id without a lock is acquired by any holder of at most 100 characters, whatever options without handler |
| Pessimism.NestedScopedLockIsRefused | gems/pessimism/test/unit/pessimism_test.rb:49-57 | inside a scoped lock, a second instance's scoped acquire by another holder raises PessimisticLockingError, which propagates, and the id is free afterwards |

## Left out

- SQL text assembly, quoting (`quote_string`) and `pairs.uniq!` are left out. Keys are compared as exact string pairs.
- Database collation is left out. A case- or trailing-space-insensitive collation would make more keys collide; the model uses exact equality.
- Concurrency is left out. A race with another process shows only as the duplicate-key outcome. A row deleted under a `save!` by another agent is not modelled.
- PessimisticLock.Acquire: the duplicate key is the only statement error modelled. The code rescues every `ActiveRecord::StatementInvalid` and returns false. A database error that validation does not foresee also ends in false, and the model returns true there. One example is a four-byte character rejected by the table's three-byte `utf8` charset.
- Logging of rescued statement errors (`log_statement_invalid`) is left out; it has no effect on the table.
- Wall-clock time, timezones and sub-second resolution are left out. Time is an integer count of seconds supplied by the caller.
- The `options.is_a?(Hash)` check is left out, because options are typed.
- Ids and types that are not strings are left out; they are modelled after `to_s`.
- The translation call `_` on the blocking reason is taken as the identity. The `rescue ''` is modelled for a missing lock only.
- The `reason` argument of `release` is left out; it is ignored by the code.
- PessimisticLocking.WithLock: the block is a function of the instance and table that returns a value or raises an exception. Blocks that reach the lock table through other objects are not modelled.
- PessimisticLocking.ForRecord: ActiveRecord's `primary_key` lookup is reduced to a given primary-key string.
- Rails application code, controllers, migrations and views are not part of this model.
