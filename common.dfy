/** Small vocabulary shared by every store: optional values, results, clock
    readings, identifiers and the ordinal case-insensitive comparison the
    services use for usernames and category ids. */
module Common {

  /** A C# nullable reference (`string?`, `DateTime?`, `User?`). */
  datatype Option<+T> = None | Some(value: T) {
    function GetOr(default: T): T {
      match this
      case Some(v) => v
      case None => default
    }
  }

  /** An operation that either yields a value or raises an exception. */
  datatype Result<+T> = Success(value: T) | Failure(error: string)

  /** A reading of `DateTime.Now` / `DateTime.UtcNow`, in ticks. */
  type Time = int

  /** A `Guid`; fresh ones are handed in by the caller. */
  type Guid = nat

  /** ASCII lower-casing of one character. */
  function LowerChar(c: char): char {
    if 'A' <= c <= 'Z' then (c as int + 32) as char else c
  }

  /** ASCII lower-casing of a string (`ToLower()`). */
  function Lower(s: string): (r: string)
    ensures |r| == |s|
    ensures forall i :: 0 <= i < |s| ==> r[i] == LowerChar(s[i])
  {
    seq(|s|, i requires 0 <= i < |s| => LowerChar(s[i]))
  }

  /** `a.Equals(b, StringComparison.OrdinalIgnoreCase)`, and equally
      `a.ToLower() == b.ToLower()`. */
  predicate EqualsIgnoreCase(a: string, b: string) {
    Lower(a) == Lower(b)
  }

  /** A string without upper-case ASCII letters is its own lower-case form. */
  lemma LowerOfLowerCase(s: string)
    requires forall i :: 0 <= i < |s| ==> !('A' <= s[i] <= 'Z')
    ensures Lower(s) == s
  {
  }
}
