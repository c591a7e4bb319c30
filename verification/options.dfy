/** The usual Some/None wrapper, standing in for JavaScript's `null` and for a
    regular-expression match that did not succeed. */
module Options {

  datatype Option<+T> = None | Some(value: T)

  /** The zero- or one-element sequence holding the value of `o`. */
  function ToSeq<T>(o: Option<T>): (r: seq<T>)
    ensures |r| <= 1
    ensures o.Some? <==> |r| == 1
    ensures o.Some? ==> r[0] == o.value
  {
    match o
    case Some(v) => [v]
    case None => []
  }
}
