/** Sequences read backwards. */
module Sequences {

  /** The sequence backwards. */
  function Backwards<T>(s: seq<T>): (r: seq<T>)
    ensures |r| == |s| && forall i {:trigger r[i]} :: 0 <= i < |s| ==> r[i] == s[|s| - 1 - i]
  {
    if s == [] then [] else Backwards(s[1..]) + [s[0]]
  }

  lemma BackwardsAppend<T>(s: seq<T>, v: T)
    ensures Backwards(s + [v]) == [v] + Backwards(s)
  {
  }
}
