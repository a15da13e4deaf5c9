/** Shared vocabulary: optional values, results, and the JavaScript notion of a
    "truthy" optional string that the chat code relies on in its guards. */
module Common {

  /** `T | null` */
  datatype Option<T> = None | Some(value: T) {

    /** `x ?? d` */
    function GetOr(default: T): T {
      if Some? then value else default
    }
  }

  /** A value or the error a call would have thrown. */
  datatype Result<T, E> = Success(value: T) | Failure(error: E)

  /** `if (s)` on a `string | null`: both `null` and the empty string are falsy. */
  predicate Truthy(s: Option<string>) {
    s.Some? && s.value != ""
  }

  /** Taking one more element of `s` appends it. */
  lemma TakeSnoc<T>(s: seq<T>, i: nat)
    requires i < |s|
    ensures s[..i + 1] == s[..i] + [s[i]]
  {
  }

  function Min(a: int, b: int): int {
    if a <= b then a else b
  }

  /** Concatenation regroups freely. */
  lemma SeqAssoc<T>(x: seq<T>, y: seq<T>, z: seq<T>)
    ensures x + (y + z) == (x + y) + z
  {
  }
}
