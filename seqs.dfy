/** Slices of a concatenation, used to locate one block inside a list built by appending. */
module Seqs {

  /** A slice that lies in the left part of `a + b`. */
  lemma SliceLeft<T>(a: seq<T>, b: seq<T>, lo: nat, hi: nat)
    requires lo <= hi <= |a|
    ensures (a + b)[lo..hi] == a[lo..hi]
  {
    assert forall k | 0 <= k < hi - lo :: (a + b)[lo..hi][k] == a[lo..hi][k];
  }

  /** A slice that lies in the right part of `a + b`. */
  lemma SliceRight<T>(a: seq<T>, b: seq<T>, lo: nat, hi: nat)
    requires lo <= hi <= |b|
    ensures (a + b)[|a| + lo..|a| + hi] == b[lo..hi]
  {
    assert forall k | 0 <= k < hi - lo :: (a + b)[|a| + lo..|a| + hi][k] == b[lo..hi][k];
  }

  /** A block found at `lo` in `rest` is found at `|head| + lo` in `head + rest`. */
  lemma BlockAfter<T>(whole: seq<T>, head: seq<T>, rest: seq<T>, lo: nat, block: seq<T>)
    requires whole == head + rest
    requires lo + |block| <= |rest| && rest[lo..lo + |block|] == block
    ensures |head| + lo + |block| <= |whole| && whole[|head| + lo..|head| + lo + |block|] == block
  {
    SliceRight(head, rest, lo, lo + |block|);
  }

  /** `head` is the first block of `head + rest`. */
  lemma BlockFirst<T>(whole: seq<T>, head: seq<T>, rest: seq<T>)
    requires whole == head + rest
    ensures |head| <= |whole| && whole[0..|head|] == head
  {
    SliceLeft(head, rest, 0, |head|);
    assert head[0..|head|] == head;
  }

  /** Appending one element and then a tail is appending the element prefixed to the tail. */
  lemma AppendOne<T>(a: seq<T>, x: T, b: seq<T>)
    ensures (a + [x]) + b == a + ([x] + b)
  {
  }

  /** Two sequences with the same first element and the same rest are equal. */
  lemma HeadTail<T>(a: seq<T>, b: seq<T>)
    requires a != [] && b != [] && a[0] == b[0] && a[1..] == b[1..]
    ensures a == b
  {
    assert a == [a[0]] + a[1..];
    assert b == [b[0]] + b[1..];
  }
}
