/** What every part uses: a value or nothing, for the source's NULL and for what may be missing, and lists without
    duplicates. */
module Wrappers {
  datatype Option<T> = None | Some(value: T)

  predicate NoDuplicates<T(==)>(s: seq<T>) {
    forall i, j | 0 <= i < j < |s| :: s[i] != s[j]
  }
}
