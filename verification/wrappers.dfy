/** The optional value used throughout the model: a JavaScript `null`,
    `undefined` or `NaN` where the source has one. */
module Wrappers {

  datatype Option<+T> = None | Some(value: T)

  /** The sequence holding the value of an Option: empty for None. */
  function ToSeq<T>(o: Option<T>): (s: seq<T>)
    ensures |s| <= 1
    ensures o.None? <==> |s| == 0
    ensures o.Some? ==> s == [o.value]
  {
    match o
    case None => []
    case Some(v) => [v]
  }
}
