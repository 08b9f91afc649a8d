/** An optional value: Rust's `Option`, and C#'s nullable results. */
module Optional {
  datatype Option<T> = None | Some(value: T)

  /** The value as a list of at most one element. */
  function AsSeq<T>(o: Option<T>): (s: seq<T>)
    ensures |s| <= 1
    ensures o.Some? <==> |s| == 1
    ensures o.Some? ==> s[0] == o.value
  {
    if o.Some? then [o.value] else []
  }
}
