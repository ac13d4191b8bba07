/**
 * Insertion into the suffix trie: one suffix at a time, creating the
 * missing nodes along its path and passing the number of new nodes back up,
 * so that every node on the path grows its count by exactly that number.
 */
module Insertion {

  import opened TrieNode
  import SeqFacts

  /** What an insertion hands back: the updated node and how many nodes (substrings) were new. */
  datatype Inserted = Inserted(node: Node, added: nat)

  /** The characters `buf[idx]` to `buf[en]` (both inclusive) still to insert; empty once `idx > en`. */
  ghost function Span(buf: string, idx: int, en: int): string
    requires idx > en || (0 <= idx && en < |buf|)
  {
    if idx > en then [] else buf[idx..en + 1]
  }

  /** The non-empty prefixes of `w`: the strings a path spelling `w` passes through. */
  ghost function Prefixes(w: string): set<string>
  {
    set j | 1 <= j <= |w| :: w[..j]
  }

  /** The substrings `s[j..k]`, `i <= j < k <= |s|`: the non-empty prefixes of the suffixes from `i` on. */
  ghost function SubstringsFrom(s: string, i: nat): set<string>
  {
    set j, k | i <= j < k <= |s| :: s[j..k]
  }

  /** All distinct non-empty substrings of `s`. */
  ghost function Substrings(s: string): set<string>
  {
    SubstringsFrom(s, 0)
  }

  /**
   * The position of key `c` among the ascending siblings `cs`, or the
   * position where it would be put: the `containsKey`/`get`/`put` of the
   * Java `TreeMap`.
   */
  function Locate(cs: seq<Node>, c: char): (i: nat)
    ensures i <= |cs|
    ensures forall j :: 0 <= j < i ==> cs[j].ch < c
    ensures i < |cs| ==> c <= cs[i].ch
  {
    if |cs| == 0 || c <= cs[0].ch then 0 else 1 + Locate(cs[1..], c)
  }

  /**
   * `insertSuffixAt(n, buf, idx, en)`: inserts `buf[idx..en]` below `n`.
   * An exhausted remainder adds nothing. Otherwise the child for `buf[idx]`
   * is reused or created (count 1), the rest is inserted below it, one is
   * added to the result for a created child, and `n` accumulates the total
   * only when it is positive.
   */
  function InsertSuffixAt(n: Node, buf: string, idx: int, en: int): (r: Inserted)
    requires idx > en || (0 <= idx && en < |buf|)
    ensures idx > en ==> r == Inserted(n, 0)
    ensures r.node.ch == n.ch
    ensures r.node.count == n.count + r.added
    ensures r.added <= if idx > en then 0 else en - idx + 1
    ensures r.added == 0 ==> r.node == n
    decreases if idx > en then 0 else en - idx + 1
  {
    if idx > en then Inserted(n, 0)
    else
      var c := buf[idx];
      var i := Locate(n.children, c);
      var present := i < |n.children| && n.children[i].ch == c;
      var next := if present then n.children[i] else CreateFor(c);
      var sub := InsertSuffixAt(next, buf, idx + 1, en);
      var added := if present then sub.added else sub.added + 1;
      var children :=
        if present then n.children[i := sub.node]
        else n.children[..i] + [sub.node] + n.children[i..];
      var m := n.(children := children);
      Inserted(if added > 0 then AccumulateCountBy(m, added) else m, added)
  }

  /** `insertSuffix(String)`: inserts a whole string as one suffix below the root. */
  function InsertSuffix(root: Node, suffix: string): (r: Inserted)
    ensures Contents(r.node) == Contents(root) + Prefixes(suffix)
    ensures Sized(root, 0) ==> Sized(r.node, 0)
    ensures Sized(root, 0) ==> r.added == |Prefixes(suffix) - Contents(root)|
  {
    assert Span(suffix, 0, |suffix| - 1) == suffix;
    InsertSuffixAtContents(root, suffix, 0, |suffix| - 1);
    assert Sized(root, 0) ==>
      Sized(InsertSuffixAt(root, suffix, 0, |suffix| - 1).node, 0) &&
      InsertSuffixAt(root, suffix, 0, |suffix| - 1).added == |Prefixes(suffix) - Contents(root)|
    by {
      if Sized(root, 0) {
        InsertSuffixAtSized(root, 0, suffix, 0, |suffix| - 1);
        InsertSuffixAtCountsNew(root, 0, suffix, 0, |suffix| - 1);
      }
    }
    InsertSuffixAt(root, suffix, 0, |suffix| - 1)
  }

  /**
   * The loop of `insertSuffixesOf`, from start index `i` on: inserts the
   * suffixes `s[i..]`, `s[i+1..]`, ... in turn and sums what each added.
   */
  function InsertSuffixesFrom(n: Node, s: string, i: nat): (r: Inserted)
    requires i <= |s|
    ensures r.node.ch == n.ch
    ensures r.node.count == n.count + r.added
    ensures r.added == 0 ==> r.node == n
    decreases |s| - i
  {
    if i == |s| then Inserted(n, 0)
    else
      var first := InsertSuffixAt(n, s, i, |s| - 1);
      var rest := InsertSuffixesFrom(first.node, s, i + 1);
      Inserted(rest.node, first.added + rest.added)
  }

  /** `insertSuffixesOf(s)`: inserts every suffix of `s`, returning the number of new substrings. */
  function InsertSuffixesOf(root: Node, s: string): (r: Inserted)
    ensures |s| == 0 ==> r == Inserted(root, 0)
    ensures Contents(r.node) == Contents(root) + Substrings(s)
    ensures Sized(root, 0) ==> Sized(r.node, 0)
    ensures Sized(root, 0) ==> r.added == |Substrings(s) - Contents(root)|
    ensures r.node.count == root.count + r.added
    ensures r.added == 0 ==> r.node == root
  {
    InsertSuffixesFromContents(root, s, 0);
    assert Sized(root, 0) ==>
      Sized(InsertSuffixesFrom(root, s, 0).node, 0) &&
      InsertSuffixesFrom(root, s, 0).added == |Substrings(s) - Contents(root)|
    by {
      if Sized(root, 0) {
        InsertSuffixesFromSized(root, 0, s, 0);
        InsertSuffixesFromCountsNew(root, 0, s, 0);
      }
    }
    InsertSuffixesFrom(root, s, 0)
  }

  // ---------------------------------------------------------------------
  // Lemmas: the count invariant
  // ---------------------------------------------------------------------

  lemma SumCountsSplit(cs: seq<Node>, i: int)
    requires 0 <= i < |cs|
    ensures SumCounts(cs) == SumCounts(cs[..i]) + cs[i].count + SumCounts(cs[i + 1..])
  {
    SeqFacts.SplitAround(cs, i);
    SumCountsAppend(cs[..i] + [cs[i]], cs[i + 1..]);
    SumCountsAppend(cs[..i], [cs[i]]);
  }

  /** Replacing a child changes the sum of counts by the change in that child's count. */
  lemma SumCountsReplace(cs: seq<Node>, i: int, x: Node)
    requires 0 <= i < |cs|
    ensures SumCounts(cs[i := x]) + cs[i].count == SumCounts(cs) + x.count
  {
    SumCountsSplit(cs, i);
    SumCountsSplit(cs[i := x], i);
    SeqFacts.UpdatedParts(cs, i, x);
  }

  /** Putting in a new child adds that child's count. */
  lemma SumCountsInsert(cs: seq<Node>, i: int, x: Node)
    requires 0 <= i <= |cs|
    ensures SumCounts(cs[..i] + [x] + cs[i..]) == SumCounts(cs) + x.count
  {
    var a, b := cs[..i], cs[i..];
    SeqFacts.SplitAt(cs, i);
    SumCountsAppend(a, b);
    SumCountsAppend(a + [x], b);
    SumCountsAppend(a, [x]);
    assert SumCounts([x]) == x.count by {
      assert [x][1..] == [];
    }
  }

  lemma ReplaceChildSized(cs: seq<Node>, i: int, x: Node)
    requires SizedForest(cs) && 0 <= i < |cs|
    requires x.ch == cs[i].ch && Sized(x, 1)
    ensures SizedForest(cs[i := x])
  {
  }

  lemma InsertChildSized(cs: seq<Node>, i: int, x: Node)
    requires SizedForest(cs) && 0 <= i <= |cs|
    requires forall j :: 0 <= j < i ==> cs[j].ch < x.ch
    requires i < |cs| ==> x.ch < cs[i].ch
    requires Sized(x, 1)
    ensures SizedForest(cs[..i] + [x] + cs[i..])
  {
    var children := cs[..i] + [x] + cs[i..];
    SeqFacts.Spliced(cs, i, x);
    forall a, b | 0 <= a < b < |children|
      ensures children[a].ch < children[b].ch
    {
      if a != i && b != i && i < a {
        assert cs[a - 1].ch < cs[b - 1].ch;
      }
    }
  }

  /** Insertion keeps the count invariant, for the root (`own == 0`) and for every other node (`own == 1`). */
  lemma {:induction false} InsertSuffixAtSized(n: Node, own: nat, buf: string, idx: int, en: int)
    requires idx > en || (0 <= idx && en < |buf|)
    requires Sized(n, own)
    ensures Sized(InsertSuffixAt(n, buf, idx, en).node, own)
    decreases if idx > en then 0 else en - idx + 1
  {
    if idx <= en {
      var cs := n.children;
      var c := buf[idx];
      var i := Locate(cs, c);
      var present := i < |cs| && cs[i].ch == c;
      var next := if present then cs[i] else CreateFor(c);
      var sub := InsertSuffixAt(next, buf, idx + 1, en);
      InsertSuffixAtSized(next, 1, buf, idx + 1, en);
      var r := InsertSuffixAt(n, buf, idx, en);
      if present {
        ReplaceChildSized(cs, i, sub.node);
        SumCountsReplace(cs, i, sub.node);
        assert r.node.children == cs[i := sub.node];
      } else {
        assert i < |cs| ==> c < cs[i].ch;
        InsertChildSized(cs, i, sub.node);
        SumCountsInsert(cs, i, sub.node);
        assert r.node.children == cs[..i] + [sub.node] + cs[i..];
      }
    }
  }

  // ---------------------------------------------------------------------
  // Lemmas: what insertion adds
  // ---------------------------------------------------------------------

  lemma PrefixedUnion(c: char, a: set<string>, b: set<string>)
    ensures Prefixed(c, a + b) == Prefixed(c, a) + Prefixed(c, b)
  {
  }

  /** The prefixes of a non-empty `w`: its first character alone, and that character before each prefix of the rest. */
  lemma PrefixesCons(w: string)
    requires |w| > 0
    ensures Prefixes(w) == {[w[0]]} + Prefixed(w[0], Prefixes(w[1..]))
  {
    forall x | x in Prefixes(w)
      ensures x in {[w[0]]} + Prefixed(w[0], Prefixes(w[1..]))
    {
      var j :| 1 <= j <= |w| && x == w[..j];
      if j > 1 {
        assert w[1..][..j - 1] in Prefixes(w[1..]);
        assert x == [w[0]] + w[1..][..j - 1];
      } else {
        assert x == [w[0]];
      }
    }
    forall x | x in {[w[0]]} + Prefixed(w[0], Prefixes(w[1..]))
      ensures x in Prefixes(w)
    {
      if x == [w[0]] {
        assert x == w[..1];
      } else {
        var y :| y in Prefixes(w[1..]) && x == [w[0]] + y;
        var j :| 1 <= j <= |w[1..]| && y == w[1..][..j];
        assert x == w[..j + 1];
      }
    }
  }

  /** Growing a child's contents by `q` grows its paths by `q` behind its label. */
  lemma PathsOfGrown(x: Node, y: Node, q: set<string>)
    requires y.ch == x.ch && Contents(y) == Contents(x) + q
    ensures PathsOf(y) == PathsOf(x) + Prefixed(x.ch, q)
  {
    PrefixedUnion(x.ch, Contents(x), q);
  }

  lemma ReplaceChildPaths(cs: seq<Node>, i: int, x: Node, q: set<string>)
    requires 0 <= i < |cs|
    requires PathsOf(x) == PathsOf(cs[i]) + q
    ensures Paths(cs[i := x]) == Paths(cs) + q
  {
    PathsSplit(cs, i);
    PathsSplit(cs[i := x], i);
    SeqFacts.UpdatedParts(cs, i, x);
  }

  lemma InsertChildPaths(cs: seq<Node>, i: int, x: Node)
    requires 0 <= i <= |cs|
    ensures Paths(cs[..i] + [x] + cs[i..]) == Paths(cs) + PathsOf(x)
  {
    var a, b := cs[..i], cs[i..];
    SeqFacts.SplitAt(cs, i);
    PathsAppend(a, b);
    PathsAppend(a + [x], b);
    PathsAppend(a, [x]);
    PathsSingle(x);
  }

  /** Insertion adds exactly the non-empty prefixes of the inserted text, and removes nothing. */
  lemma {:induction false} InsertSuffixAtContents(n: Node, buf: string, idx: int, en: int)
    requires idx > en || (0 <= idx && en < |buf|)
    ensures Contents(InsertSuffixAt(n, buf, idx, en).node) == Contents(n) + Prefixes(Span(buf, idx, en))
    decreases if idx > en then 0 else en - idx + 1
  {
    if idx > en {
      assert Prefixes(Span(buf, idx, en)) == {};
    } else {
      var w := Span(buf, idx, en);
      var cs := n.children;
      var c := buf[idx];
      assert w[0] == c && w[1..] == Span(buf, idx + 1, en);
      var q := Prefixes(w[1..]);
      assert Prefixes(w) == {[c]} + Prefixed(c, q) by {
        PrefixesCons(w);
      }
      var i := Locate(cs, c);
      var present := i < |cs| && cs[i].ch == c;
      var next := if present then cs[i] else CreateFor(c);
      var sub := InsertSuffixAt(next, buf, idx + 1, en);
      assert PathsOf(sub.node) == PathsOf(next) + Prefixed(c, q) by {
        InsertSuffixAtContents(next, buf, idx + 1, en);
        PathsOfGrown(next, sub.node, q);
      }
      var r := InsertSuffixAt(n, buf, idx, en);
      if present {
        assert r.node.children == cs[i := sub.node];
        ReplaceChildPaths(cs, i, sub.node, Prefixed(c, q));
        assert [c] in Paths(cs) by {
          PathsSplit(cs, i);
        }
      } else {
        assert r.node.children == cs[..i] + [sub.node] + cs[i..];
        InsertChildPaths(cs, i, sub.node);
      }
    }
  }

  /** The number an insertion reports is the number of substrings that were not there before. */
  lemma InsertSuffixAtCountsNew(n: Node, own: nat, buf: string, idx: int, en: int)
    requires idx > en || (0 <= idx && en < |buf|)
    requires Sized(n, own)
    ensures InsertSuffixAt(n, buf, idx, en).added == |Prefixes(Span(buf, idx, en)) - Contents(n)|
  {
    var r := InsertSuffixAt(n, buf, idx, en);
    InsertSuffixAtSized(n, own, buf, idx, en);
    InsertSuffixAtContents(n, buf, idx, en);
    CountIsCardinality(n, own);
    CountIsCardinality(r.node, own);
    UnionCardinality(Contents(n), Prefixes(Span(buf, idx, en)));
  }

  lemma UnionCardinality(a: set<string>, b: set<string>)
    ensures |a + b| == |a| + |b - a|
  {
    assert a + b == a + (b - a);
    assert a * (b - a) == {};
  }

  // ---------------------------------------------------------------------
  // Lemmas: the loop over all suffixes
  // ---------------------------------------------------------------------

  lemma SubstringsFromStep(s: string, i: nat)
    requires i < |s|
    ensures SubstringsFrom(s, i) == Prefixes(s[i..]) + SubstringsFrom(s, i + 1)
  {
    forall x | x in SubstringsFrom(s, i)
      ensures x in Prefixes(s[i..]) + SubstringsFrom(s, i + 1)
    {
      var j, k :| i <= j < k <= |s| && x == s[j..k];
      if j == i {
        assert x == s[i..][..k - i];
      }
    }
    forall x | x in Prefixes(s[i..])
      ensures x in SubstringsFrom(s, i)
    {
      var m :| 1 <= m <= |s[i..]| && x == s[i..][..m];
      assert x == s[i..i + m];
    }
  }

  lemma {:induction false} InsertSuffixesFromContents(n: Node, s: string, i: nat)
    requires i <= |s|
    ensures Contents(InsertSuffixesFrom(n, s, i).node) == Contents(n) + SubstringsFrom(s, i)
    decreases |s| - i
  {
    if i == |s| {
      assert SubstringsFrom(s, i) == {};
    } else {
      var first := InsertSuffixAt(n, s, i, |s| - 1);
      InsertSuffixAtContents(n, s, i, |s| - 1);
      assert Span(s, i, |s| - 1) == s[i..];
      InsertSuffixesFromContents(first.node, s, i + 1);
      SubstringsFromStep(s, i);
    }
  }

  lemma InsertSuffixesFromUnfold(n: Node, s: string, i: nat)
    requires i < |s|
    ensures InsertSuffixesFrom(n, s, i).node == InsertSuffixesFrom(InsertSuffixAt(n, s, i, |s| - 1).node, s, i + 1).node
  {
  }

  lemma {:induction false} InsertSuffixesFromSized(n: Node, own: nat, s: string, i: nat)
    requires i <= |s|
    requires Sized(n, own)
    ensures Sized(InsertSuffixesFrom(n, s, i).node, own)
    decreases |s| - i
  {
    if i < |s| {
      var first := InsertSuffixAt(n, s, i, |s| - 1).node;
      assert Sized(first, own) by {
        InsertSuffixAtSized(n, own, s, i, |s| - 1);
      }
      InsertSuffixesFromSized(first, own, s, i + 1);
      InsertSuffixesFromUnfold(n, s, i);
    }
  }

  lemma InsertSuffixesFromCountsNew(n: Node, own: nat, s: string, i: nat)
    requires i <= |s|
    requires Sized(n, own)
    ensures InsertSuffixesFrom(n, s, i).added == |SubstringsFrom(s, i) - Contents(n)|
  {
    var r := InsertSuffixesFrom(n, s, i);
    InsertSuffixesFromSized(n, own, s, i);
    InsertSuffixesFromContents(n, s, i);
    CountIsCardinality(n, own);
    CountIsCardinality(r.node, own);
    UnionCardinality(Contents(n), SubstringsFrom(s, i));
  }
}
