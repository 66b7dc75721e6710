/** Facts about sequences that the proofs use on sequences of any element type. */
module Sequences {

  lemma Associative<T>(a: seq<T>, b: seq<T>, c: seq<T>)
    ensures a + b + c == a + (b + c)
  {
  }

  lemma SliceHead<T>(s: seq<T>, i: nat)
    requires i < |s|
    ensures s[i..] == [s[i]] + s[i + 1..]
  {
  }

  /** A sequence whose first element is `head` and whose later elements are those of `tail`. */
  lemma Cons<T>(s: seq<T>, head: T, tail: seq<T>)
    requires |s| == |tail| + 1 && s[0] == head
    requires forall k :: 0 <= k < |tail| ==> tail[k] == s[k + 1]
    ensures s == [head] + tail
  {
  }

  /** An element of a sequence without its first element is an element of the sequence. */
  lemma InTail<T>(s: seq<T>, x: T)
    requires s != [] && x in s[1..]
    ensures x in s
  {
    var i :| 0 <= i < |s[1..]| && s[1..][i] == x;
    assert s[i + 1] == x;
  }
}
