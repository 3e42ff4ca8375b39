/** Vocabulary shared by all components. */
module Basics {
  datatype Option<+T> = None | Some(value: T)

  ghost predicate Distinct<T>(s: seq<T>) { forall i, j :: 0 <= i < j < |s| ==> s[i] != s[j] }
}
