/** Small facts about sequences, stated once so that the larger proofs can
    cite them instead of redoing the element-wise reasoning in their own,
    heavier contexts. */
module Sequences {

  lemma HeadAndTail<U>(s: seq<U>)
    requires s != []
    ensures s == [s[0]] + s[1..]
  {
  }

  /** Appending to the empty sequence changes nothing. */
  lemma EmptyFirst<U>(s: seq<U>)
    ensures [] + s == s
  {
  }

  lemma AppendAssociative<U>(a: seq<U>, b: seq<U>, c: seq<U>)
    ensures a + (b + c) == (a + b) + c
  {
  }

  /** The front of a concatenation of three is its first part. */
  lemma TakeFirstOfThree<U>(a: seq<U>, b: seq<U>, c: seq<U>)
    ensures (a + b + c)[..|a|] == a
  {
  }

  /** Dropping the first of three parts leaves the other two. */
  lemma DropFirstOfThree<U>(a: seq<U>, b: seq<U>, c: seq<U>)
    ensures (a + b + c)[|a|..] == b + c
  {
  }

  /** The tail of a concatenation whose first part is not empty. */
  lemma ConcatTail<U>(a: seq<U>, b: seq<U>)
    requires a != []
    ensures (a + b)[1..] == a[1..] + b
  {
  }

  /** An element other than the head is in the tail. */
  lemma InTail<U>(x: U, s: seq<U>)
    requires x in s && x != s[0]
    ensures x in s[1..]
  {
    var i :| 0 <= i < |s| && s[i] == x;
    assert s[1..][i - 1] == x;
  }
}
