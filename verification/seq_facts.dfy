/**
 * Small facts about cutting and splicing sequences, stated once so that the
 * proofs about children lists can cite them instead of rediscovering them.
 */
module SeqFacts {

  /** Cutting at `i` and gluing back gives the sequence again. */
  lemma SplitAt<T>(s: seq<T>, i: int)
    requires 0 <= i <= |s|
    ensures s[..i] + s[i..] == s
  {
  }

  /** The first `b` elements are the first `a` followed by those from `a` to `b`. */
  lemma PrefixSplit<T>(s: seq<T>, a: int, b: int)
    requires 0 <= a <= b <= |s|
    ensures s[..b] == s[..a] + s[a..b]
  {
  }

  /** The first `i + 1` elements are the first `i` followed by element `i`. */
  lemma PrefixExtend<T>(s: seq<T>, i: int)
    requires 0 <= i < |s|
    ensures s[..i + 1] == s[..i] + [s[i]]
  {
  }

  /** A sequence is what comes before position `i`, the element there, and what comes after. */
  lemma SplitAround<T>(s: seq<T>, i: int)
    requires 0 <= i < |s|
    ensures s[..i] + [s[i]] + s[i + 1..] == s
  {
    assert s[i..] == [s[i]] + s[i + 1..];
  }

  /** Splicing `x` in at position `i` shifts the later elements up by one and keeps the earlier ones. */
  lemma Spliced<T>(s: seq<T>, i: int, x: T)
    requires 0 <= i <= |s|
    ensures |s[..i] + [x] + s[i..]| == |s| + 1
    ensures forall a :: 0 <= a < i ==> (s[..i] + [x] + s[i..])[a] == s[a]
    ensures (s[..i] + [x] + s[i..])[i] == x
    ensures forall a :: i < a <= |s| ==> (s[..i] + [x] + s[i..])[a] == s[a - 1]
  {
  }

  /** Replacing position `i` leaves everything before and after it alone. */
  lemma UpdatedParts<T>(s: seq<T>, i: int, x: T)
    requires 0 <= i < |s|
    ensures s[i := x][..i] == s[..i]
    ensures s[i := x][i + 1..] == s[i + 1..]
    ensures s[i := x][i] == x
  {
  }
}
