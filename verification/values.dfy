/**
 * The Ruby values the lock manager sees: a value that may be nil, and
 * ActiveSupport's notion of a blank string, which decides both the
 * presence validations of a lock record and whether `release` filters
 * by holder.
 */
module Values {

  /** A Ruby value that may be nil. */
  datatype Option<+T> = None | Some(value: T) {

    /** `value || default`: the value, or `default` when nil. */
    function GetOr(default: T): T {
      match this
      case Some(v) => v
      case None => default
    }
  }

  /**
   * The characters of the `[[:space:]]` class that String#blank? uses:
   * the Unicode White_Space property.
   */
  predicate IsSpace(c: char) {
    || ('\t' <= c <= '\r')
    || c == ' '
    || c == '\U{85}'
    || c == '\U{A0}'
    || c == '\U{1680}'
    || ('\U{2000}' <= c <= '\U{200A}')
    || c == '\U{2028}'
    || c == '\U{2029}'
    || c == '\U{202F}'
    || c == '\U{205F}'
    || c == '\U{3000}'
  }

  /** String#blank?: the string is empty or holds only white space. */
  predicate IsBlank(s: string) {
    forall i :: 0 <= i < |s| ==> IsSpace(s[i])
  }

  /** Object#blank? on a string attribute that may be nil. */
  predicate IsBlankOrNil(s: Option<string>) {
    s.None? || IsBlank(s.value)
  }
}
