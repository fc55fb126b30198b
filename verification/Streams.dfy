/**
 * What a reader still has to hand out: a finite list that ends normally or in an exception. The readers of the logs and
 * the join that draws on them are specified in these terms, item by item.
 */
module Streams {
  datatype Error = IndexError | ValueError | KeyError

  datatype Stream<T> = End | Fail(error: Error) | More(head: T, tail: Stream<T>)

  /** The outcome of one `get_next` call: an element, `None`, or an exception. */
  datatype Fetch<T> = Got(value: T) | Nothing | Raised(error: Error)

  /** The call that `s` describes next. */
  function First<T>(s: Stream<T>): Fetch<T> {
    match s
    case End => Nothing
    case Fail(e) => Raised(e)
    case More(x, _) => Got(x)
  }

  /** The elements of `s`, in order. */
  function Items<T>(s: Stream<T>): seq<T> {
    if s.More? then [s.head] + Items(s.tail) else []
  }

  /** `s` ends without an exception. */
  predicate EndsWell<T>(s: Stream<T>) {
    match s
    case End => true
    case Fail(_) => false
    case More(_, rest) => EndsWell(rest)
  }

  function FromSeq<T>(xs: seq<T>): Stream<T> {
    if xs == [] then End else More(xs[0], FromSeq(xs[1..]))
  }

  lemma {:induction false} ItemsOfSeq<T>(xs: seq<T>)
    ensures EndsWell(FromSeq(xs)) && Items(FromSeq(xs)) == xs
  {
    if xs != [] {
      ItemsOfSeq(xs[1..]);
    }
  }

  function Append<T>(a: Stream<T>, b: Stream<T>): Stream<T> {
    match a
    case End => b
    case Fail(e) => a
    case More(x, rest) => More(x, Append(rest, b))
  }
}
