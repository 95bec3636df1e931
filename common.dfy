/** Small shared vocabulary: optional values, error outcomes and the string
    predicates the controllers use (PHP truthiness, blank strings, substring). */
module Common {

  datatype Option<+T> = None | Some(value: T)

  /** The error kinds a request handler can end in. */
  datatype Error =
    | NotFound      // findOrFail / firstOrFail / abort(404)
    | Forbidden     // abort(403)
    | Invalid       // a validation rule failed
    | SelfDelete    // "You cannot delete your own account."
    | NoneSelected  // "No valid users selected for deletion."

  datatype Outcome = Done | Failed(error: Error)

  datatype Result<+T> = Ok(value: T) | Err(error: Error)

  /** PHP's truthiness of a string request value: "" (also an absent value,
      read as "") and "0" are falsy, everything else is truthy. */
  predicate PhpTruthy(s: string) {
    s != "" && s != "0"
  }

  /** The characters PHP's trim() removes. */
  predicate IsTrimmed(c: char) {
    c == ' ' || c == '\t' || c == '\n' || c == '\r' || c == '\0' || c == '\U{0B}'
  }

  /** True when trim(s) is empty, that is, s is blank for Laravel's
      `required` and `filled`. */
  predicate IsBlank(s: string) {
    forall i | 0 <= i < |s| :: IsTrimmed(s[i])
  }

  predicate IsPrefix(p: string, s: string) {
    |p| <= |s| && s[..|p|] == p
  }

  /** `needle` occurs somewhere in `hay` as a contiguous piece. */
  predicate Contains(hay: string, needle: string)
    decreases |hay|
  {
    IsPrefix(needle, hay) || (|hay| > 0 && Contains(hay[1..], needle))
  }

  lemma {:induction false} ContainsAt(hay: string, needle: string, i: nat)
    requires i + |needle| <= |hay| && hay[i..i + |needle|] == needle
    ensures Contains(hay, needle)
    decreases i
  {
    if i > 0 {
      assert hay[1..][i - 1..i - 1 + |needle|] == hay[i..i + |needle|];
      ContainsAt(hay[1..], needle, i - 1);
    }
  }

  lemma {:induction false} ContainsWitness(hay: string, needle: string) returns (i: nat)
    requires Contains(hay, needle)
    ensures i + |needle| <= |hay| && hay[i..i + |needle|] == needle
    decreases |hay|
  {
    if IsPrefix(needle, hay) {
      i := 0;
    } else {
      var j := ContainsWitness(hay[1..], needle);
      assert hay[1..][j..j + |needle|] == hay[j + 1..j + 1 + |needle|];
      i := j + 1;
    }
  }

  /** No value occurs twice. */
  predicate Distinct<T(==)>(s: seq<T>) {
    forall i, j | 0 <= i < j < |s| :: s[i] != s[j]
  }

  function Min(a: int, b: int): int { if a <= b then a else b }
  function Max(a: int, b: int): int { if a >= b then a else b }
}
