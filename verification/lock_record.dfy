/**
 * One row of the `pessimistic_locks` table: its key, its attributes, the
 * validations ActiveRecord runs before writing it, and the lease rule that
 * decides when it has expired.
 *
 * The table is a finite map from key to lock, so the unique index on
 * (lock_object_id, object_type) holds by construction. Time is a count of
 * seconds supplied by the caller.
 */
module LockRecord {
  import opened Values

  /** MINUTES_TO_KEEP: how long a lock without expiry handler stays live. */
  const MinutesToKeep: int := 15

  /** The same lease in seconds, the unit of every timestamp here. */
  const LeaseSeconds: int := MinutesToKeep * 60

  /** The column limit (and validated maximum length) of every string attribute. */
  const MaxLength: int := 100

  /** The unique key of a lock: the locked object's id and type, as strings. */
  datatype Key = Key(lockObjectId: string, objectType: string)

  /** The rest of a row. `reason` and `expiryHandler` are nullable columns. */
  datatype Lock = Lock(
    lockHolder: string,
    reason: Option<string>,
    expiryHandler: Option<string>,
    createdAt: int,
    updatedAt: int)

  /** The lock table. */
  type Store = map<Key, Lock>

  /** The attributes of a record about to be validated; nil is `None`. */
  datatype Attributes = Attributes(
    lockObjectId: Option<string>,
    objectType: Option<string>,
    lockHolder: Option<string>,
    reason: Option<string>,
    expiryHandler: Option<string>)

  datatype Attribute = LockObjectId | ObjectType | LockHolder | Reason | ExpiryHandler

  /** `validates_length_of … :in => (0..100), :allow_nil => true`. */
  predicate TooLong(s: Option<string>) {
    s.Some? && |s.value| > MaxLength
  }

  /**
   * The attributes `valid?` reports errors on: the id and type must be
   * present (not blank), the holder must not be nil (but may be blank), and
   * no string may be longer than 100 characters.
   */
  function Errors(a: Attributes): set<Attribute> {
    (if IsBlankOrNil(a.lockObjectId) || TooLong(a.lockObjectId) then {LockObjectId} else {})
    + (if IsBlankOrNil(a.objectType) || TooLong(a.objectType) then {ObjectType} else {})
    + (if a.lockHolder.None? || TooLong(a.lockHolder) then {LockHolder} else {})
    + (if TooLong(a.reason) then {Reason} else {})
    + (if TooLong(a.expiryHandler) then {ExpiryHandler} else {})
  }

  predicate Valid(a: Attributes) {
    Errors(a) == {}
  }

  /** The attributes a stored row presents to `save!`. */
  function AttributesOf(k: Key, l: Lock): Attributes {
    Attributes(Some(k.lockObjectId), Some(k.objectType), Some(l.lockHolder), l.reason, l.expiryHandler)
  }

  /** `expired?`: no expiry handler, and last touched before the lease window. */
  predicate Expired(l: Lock, now: int) {
    l.expiryHandler.None? && l.updatedAt < now - LeaseSeconds
  }

  /**
   * A record is valid exactly when each attribute, taken on its own, meets
   * its rule: a non-blank id and type, a non-nil holder (blank allowed) and
   * at most 100 characters in every string that is present.
   */
  lemma ValidIffRules(a: Attributes)
    ensures Valid(a) <==>
      && a.lockObjectId.Some? && !IsBlank(a.lockObjectId.value) && |a.lockObjectId.value| <= MaxLength
      && a.objectType.Some? && !IsBlank(a.objectType.value) && |a.objectType.value| <= MaxLength
      && a.lockHolder.Some? && |a.lockHolder.value| <= MaxLength
      && (a.reason.None? || |a.reason.value| <= MaxLength)
      && (a.expiryHandler.None? || |a.expiryHandler.value| <= MaxLength)
  {
    var e := Errors(a);
    if Valid(a) {
      assert LockObjectId !in e && ObjectType !in e && LockHolder !in e;
      assert Reason !in e && ExpiryHandler !in e;
    }
  }

  /**
   * The validation cases of the gem's unit tests: from a good record, a
   * missing or blank id or type fails on that attribute alone, a nil holder
   * fails but a blank one passes, and 101 characters in any string fail.
   */
  lemma ValidationExamples()
    ensures var good := Attributes(Some("good"), Some("nice"), Some("entitiy"), None, None);
      && Valid(good)
      && Errors(Attributes(None, None, None, None, None)) == {LockObjectId, ObjectType, LockHolder}
      && Errors(good.(lockObjectId := None)) == {LockObjectId}
      && Errors(good.(lockObjectId := Some(""))) == {LockObjectId}
      && Errors(good.(lockObjectId := Some(" "))) == {LockObjectId}
      && Errors(good.(objectType := None)) == {ObjectType}
      && Errors(good.(objectType := Some(""))) == {ObjectType}
      && Errors(good.(objectType := Some(" "))) == {ObjectType}
      && Errors(good.(lockHolder := None)) == {LockHolder}
      && Valid(good.(lockHolder := Some("")))
      && Valid(good.(lockHolder := Some(" ")))
    ensures var good := Attributes(Some("good"), Some("nice"), Some("entitiy"), None, None);
      var tooLong := seq(MaxLength + 1, _ => 'x');
      && Errors(good.(lockObjectId := Some(tooLong))) == {LockObjectId}
      && Errors(good.(objectType := Some(tooLong))) == {ObjectType}
      && Errors(good.(lockHolder := Some(tooLong))) == {LockHolder}
      && Errors(good.(reason := Some(tooLong))) == {Reason}
      && Errors(good.(expiryHandler := Some(tooLong))) == {ExpiryHandler}
  {
    var good := Attributes(Some("good"), Some("nice"), Some("entitiy"), None, None);
    assert !IsSpace("good"[0]) && !IsSpace("nice"[0]);
    assert !IsBlank("good") && !IsBlank("nice");
  }

  /** A lock with an expiry handler never expires, however old it is. */
  lemma HandlerNeverExpires(l: Lock, now: int)
    requires l.expiryHandler.Some?
    ensures !Expired(l, now)
  {
  }

  /** Once expired, a lock stays expired as the clock advances. */
  lemma ExpiryIsPermanent(l: Lock, now: int, later: int)
    requires now <= later
    requires Expired(l, now)
    ensures Expired(l, later)
  {
  }

  /** A lock touched at `now` stays live for the whole lease. */
  lemma TouchedLockIsLive(l: Lock, now: int, later: int)
    requires l.updatedAt == now
    requires later <= now + LeaseSeconds
    ensures !Expired(l, later)
  {
  }
}
