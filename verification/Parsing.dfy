/** Results of reading a list from a byte string: the items and the bytes left over. */
module Parsing {
  import opened Bytes

  type Parsed<+T> = Option<(seq<T>, seq<byte>)>

  function Prepend<T>(items: seq<T>, u: Parsed<T>): Parsed<T> {
    match u
    case None => None
    case Some((more, rest)) => Some((items + more, rest))
  }

  lemma PrependTwice<T>(a: seq<T>, b: seq<T>, u: Parsed<T>)
    ensures Prepend(a, Prepend(b, u)) == Prepend(a + b, u)
    ensures Prepend([], u) == u
  {
    if u.Some? {
      assert a + (b + u.value.0) == (a + b) + u.value.0;
      assert [] + u.value.0 == u.value.0;
    }
  }

  lemma PrependToNothing<T>(a: seq<T>, rest: seq<byte>)
    ensures Prepend(a, Some(([], rest))) == Some((a, rest))
  {
    assert a + [] == a;
  }
}
