/** Small shared vocabulary: optional values, results, and the Python
    exceptions that the note engine can raise. */
module Common {

  datatype Option<T> = None | Some(value: T)

  /** The exceptions the engine lets escape to its caller. */
  datatype PyError =
    | KeyError            // dict.pop of a missing key
    | ValueError          // list.remove of a missing element, malformed timestamp
    | IndexError          // list index out of range
    | TypeError           // None used as a string or as a list index
    | UnboundLocalError   // loop variable read after a loop that never ran
    | FileNotFoundError   // open() of a file that does not exist

  datatype Result<T> = Ok(value: T) | Err(error: PyError)

  /** No element occurs twice. */
  predicate Distinct<T(==)>(s: seq<T>) {
    forall i, j :: 0 <= i < j < |s| ==> s[i] != s[j]
  }

  /** The list with every occurrence of `x` left out, the rest in order. */
  function Without<T(==, !new)>(s: seq<T>, x: T): (r: seq<T>)
    ensures forall y :: y in r <==> y in s && y != x
    ensures Distinct(s) ==> Distinct(r)
    ensures |r| <= |s|
  {
    if |s| == 0 then []
    else
      var rest := Without(s[1..], x);
      assert Distinct(s) ==> Distinct(s[1..]) by {
        if Distinct(s) {
          forall i, j | 0 <= i < j < |s[1..]| ensures s[1..][i] != s[1..][j] {
            assert s[1..][i] == s[i + 1] && s[1..][j] == s[j + 1];
          }
        }
      }
      if s[0] == x then rest
      else
        assert Distinct(s) ==> s[0] !in s[1..];
        [s[0]] + rest
  }
}
