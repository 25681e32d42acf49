/** The optional value used wherever the source returns null, skips an entry or catches an exception. */
module Wrappers {
  datatype Option<+T> = None | Some(value: T)

  /**
   * `p + x` when there is an `x`: what appending to a result still being
   * built gives once the rest of it has been produced, or failed.
   */
  function Prepend<T>(p: seq<T>, o: Option<seq<T>>): (r: Option<seq<T>>)
    ensures r.Some? <==> o.Some?
  {
    match o
    case None => None
    case Some(x) => Some(p + x)
  }

  lemma PrependTwice<T>(a: seq<T>, b: seq<T>, o: Option<seq<T>>)
    ensures Prepend(a, Prepend(b, o)) == Prepend(a + b, o)
  {
    if o.Some? {
      assert a + (b + o.value) == (a + b) + o.value;
    }
  }
}
