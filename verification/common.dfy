/** Optional values and success-or-error outcomes shared by every module. */
module Common {

  datatype Option<+T> = None | Some(value: T)

  datatype Result<+T, +E> = Ok(value: T) | Err(error: E)

  /** Python's `min(a, b)`. */
  function Min(a: int, b: int): int {
    if a < b then a else b
  }

  /** No name occurs twice, as in a directory listing. */
  predicate NoDuplicates(s: seq<string>) {
    forall i, j :: 0 <= i < j < |s| ==> s[i] != s[j]
  }
}
