/** What several models share. */
module Common {

  datatype Option<T> = None | Some(value: T)

  /** No element twice. */
  ghost predicate Distinct<T>(s: seq<T>) {
    forall i, j | 0 <= i < j < |s| :: s[i] != s[j]
  }

  predicate IsDigit(c: char) { '0' <= c <= '9' }
}
