/** Reversing lists. */
module Sequences {

  function Reversed<T>(s: seq<T>): (r: seq<T>)
    ensures |r| == |s|
  {
    seq(|s|, i requires 0 <= i < |s| => s[|s| - 1 - i])
  }

  lemma ReversedCons<T>(first: T, rest: seq<T>)
    ensures Reversed([first] + rest) == Reversed(rest) + [first]
  {
  }

  lemma ReversedSnoc<T>(init: seq<T>, last: T)
    ensures Reversed(init + [last]) == [last] + Reversed(init)
  {
  }
}
