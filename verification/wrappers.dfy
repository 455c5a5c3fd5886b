/** The optional value used wherever a step may or may not produce something. */
module Wrappers {

  datatype Option<+T> = None | Some(value: T)

  /** The zero- or one-element sequence holding the value, if any. */
  function ToSeq<T>(o: Option<T>): (s: seq<T>)
    ensures |s| <= 1
    ensures o.Some? <==> |s| == 1
    ensures o.Some? ==> s[0] == o.value
  {
    if o.Some? then [o.value] else []
  }
}
