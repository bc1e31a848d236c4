/** Small helpers shared by the modules of the booking model. */
module Common {
  /** The result of a lookup that may find nothing. */
  datatype Option<+T> = None | Some(value: T)

  /** No value occurs twice in s. */
  predicate Distinct<T(==)>(s: seq<T>) {
    forall i, j :: 0 <= i < j < |s| ==> s[i] != s[j]
  }
}
