/** Mapping each element of a sequence to a piece and concatenating the pieces. */
module Seqs {

  /** The pieces `f` gives for each element of `s`, concatenated in order. */
  function FlatMap<T, U>(f: T -> seq<U>, s: seq<T>): seq<U> {
    if s == [] then [] else f(s[0]) + FlatMap(f, s[1..])
  }

  /** Mapping distributes over concatenation. */
  lemma {:induction false} FlatMapAppend<T, U>(f: T -> seq<U>, s: seq<T>, t: seq<T>)
    ensures FlatMap(f, s + t) == FlatMap(f, s) + FlatMap(f, t)
  {
    if s == [] {
      assert s + t == t;
    } else {
      assert (s + t)[0] == s[0] && (s + t)[1..] == s[1..] + t;
      calc {
        FlatMap(f, s + t);
        f(s[0]) + FlatMap(f, s[1..] + t);
        { FlatMapAppend(f, s[1..], t); }
        f(s[0]) + (FlatMap(f, s[1..]) + FlatMap(f, t));
        (f(s[0]) + FlatMap(f, s[1..])) + FlatMap(f, t);
      }
    }
  }
}
