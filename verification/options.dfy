/** Presence-tagged values: an intersection point that may be absent. */
module Options {

  datatype Option<+T> = None | Some(value: T)

  /** True when every element of `s` is present. */
  predicate AllSome<T>(s: seq<Option<T>>)
  {
    forall i :: 0 <= i < |s| ==> s[i].Some?
  }
}
