/** What several parts of the model share. */
module Common {
  datatype Option<T> = None | Some(value: T)

  ghost predicate NoRepeats<T>(s: seq<T>) {
    forall i, j :: 0 <= i < j < |s| ==> s[i] != s[j]
  }

  /** The sequence without its i-th element, if it has one. */
  function Without<T>(s: seq<T>, i: nat): seq<T>
    requires i <= |s|
  {
    if i < |s| then s[..i] + s[i + 1..] else s
  }
}
