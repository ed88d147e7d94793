/** Generic operations on sequences. */
module Seqs {

  /** The elements back to front: a reverse iteration. */
  function Reverse<T>(s: seq<T>): (r: seq<T>)
    ensures |r| == |s| && forall k :: 0 <= k < |s| ==> r[k] == s[|s| - 1 - k]
  {
    seq(|s|, k requires 0 <= k < |s| => s[|s| - 1 - k])
  }

  /** Reversing a slice one element longer puts that element first. */
  lemma ReverseExtend<T>(s: seq<T>, i: nat, j: nat)
    requires i < j < |s|
    ensures Reverse(s[i..j + 1]) == [s[j]] + Reverse(s[i..j])
    ensures Reverse(s[i..j])[0] == s[j - 1]
  {
    var whole := Reverse(s[i..j + 1]);
    var back := Reverse(s[i..j]);
    assert forall k :: 1 <= k < |whole| ==> whole[k] == s[j - k] == back[k - 1];
  }

  /** The parts one after the other. */
  function Concat<T>(parts: seq<seq<T>>): seq<T> {
    if |parts| == 0 then [] else parts[0] + Concat(parts[1..])
  }
}
