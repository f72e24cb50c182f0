/** Result of an operation that can throw, and the PHP string primitives the core leans on. */
module Wrappers {

  datatype Result<T> = Ok(value: T) | Err(error: string)

  datatype Option<T> = None | Some(value: T)

  /** PHP string truthiness: "" and "0" are falsy, every other string is truthy. */
  predicate Truthy(s: string) {
    s != "" && s != "0"
  }

  /** `substr($s, 0, $n)` for n >= 0: the first n characters, or all of a shorter string. */
  function Take(s: string, n: nat): (r: string)
    ensures |r| == if |s| < n then |s| else n
    ensures r == s[..|r|]
  {
    if |s| < n then s else s[..n]
  }

  /** `substr($s, $n)` for n >= 0: PHP 8 gives "" when the string is shorter. */
  function Drop(s: string, n: nat): (r: string)
    ensures |s| >= n ==> r == s[n..] && |r| == |s| - n
    ensures |s| < n ==> r == ""
  {
    if |s| < n then "" else s[n..]
  }

  /** `Take` and `Drop` split a string at the same place. */
  lemma TakeDrop(s: string, n: nat)
    ensures Take(s, n) + Drop(s, n) == s
  {
    if |s| >= n {
      assert s[..n] + s[n..] == s;
    }
  }
}
