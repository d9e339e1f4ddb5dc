/** The optional value used wherever the analyzers keep `None` or a missing value. */
module Wrappers {

  datatype Option<+T> = None | Some(value: T)

  /** A computation that either yields a value or raises the `KeyError` of a missing column. */
  datatype Outcome<+T> = Ok(value: T) | KeyError(column: string)

  /** The values of the present entries, in order: what a filter that drops missing values keeps. */
  function Present<T>(s: seq<Option<T>>): (r: seq<T>)
    ensures |r| <= |s|
  {
    if s == [] then []
    else match s[|s| - 1]
      case None => Present(s[..|s| - 1])
      case Some(v) => Present(s[..|s| - 1]) + [v]
  }

  /** Every present value is kept as often as it occurs, and nothing else is. */
  lemma {:induction false} PresentCounts<T>(s: seq<Option<T>>)
    ensures forall x :: multiset(Present(s))[x] == multiset(s)[Some(x)]
  {
    if s != [] {
      var p := s[..|s| - 1];
      PresentCounts(p);
      assert s == p + [s[|s| - 1]];
      assert multiset(s) == multiset(p) + multiset{s[|s| - 1]};
      match s[|s| - 1]
      case None =>
      case Some(v) =>
        assert multiset(Present(s)) == multiset(Present(p)) + multiset{v};
    }
  }

  /** Appending one entry appends its value when it is present. */
  lemma PresentAppend<T>(s: seq<Option<T>>, o: Option<T>)
    ensures Present(s + [o]) == if o.Some? then Present(s) + [o.value] else Present(s)
  {
    assert (s + [o])[..|s|] == s;
  }
}
