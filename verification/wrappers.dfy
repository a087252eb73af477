/** The null-or-value results of the parser: a node pointer that may be null,
    a freshly allocated string that may be null. */
module Wrappers {

  datatype Option<+T> = None | Some(value: T)

  /** Prefixes `prefix` to the payload of `rest`, keeping a failure a failure. */
  function Prepend<T>(prefix: seq<T>, rest: Option<seq<T>>): (r: Option<seq<T>>)
    ensures r.Some? <==> rest.Some?
    ensures r.Some? ==> |r.value| == |prefix| + |rest.value|
    ensures r.Some? ==> r.value[..|prefix|] == prefix && r.value[|prefix|..] == rest.value
  {
    match rest
    case None => None
    case Some(s) => Some(prefix + s)
  }

  /** Prefixing twice is prefixing once with both parts. */
  lemma PrependTwice<T>(first: seq<T>, second: seq<T>, rest: Option<seq<T>>)
    ensures Prepend(first, Prepend(second, rest)) == Prepend(first + second, rest)
  {
    if rest.Some? {
      assert first + (second + rest.value) == (first + second) + rest.value;
    }
  }
}
