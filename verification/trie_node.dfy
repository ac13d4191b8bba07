/**
 * The size-augmented suffix-trie node (`SuffixTrieNode`): a character, the
 * children in ascending character order, and the number of distinct
 * substrings that end at this node or below it.
 *
 * A node's contents are described twice, independently: `Paths` is the set of
 * strings spelled by walking down from a node, and `Enum` lists the same
 * strings in the order a depth-first walk over ascending children meets them.
 * The lemmas at the end tie both to `count`.
 */
module TrieNode {

  import opened StringOrder
  import SeqFacts

  /**
   * `children` models the Java `TreeMap<Character, SuffixTrieNode>`: a
   * sequence whose keys (`ch`) ascend, so iteration order is key order.
   */
  datatype Node = Node(ch: char, children: seq<Node>, count: nat)

  /** The label of the root; `find` starts below the root, so it never appears in a result. */
  const RootLabel: char := '.'

  /** The root of an empty set: it holds nothing and counts 0. */
  function NewRoot(): (n: Node)
    ensures n.count == 0 && Contents(n) == {}
  {
    Node(RootLabel, [], 0)
  }

  /** The empty root keeps the count invariant. */
  lemma NewRootSized()
    ensures Sized(NewRoot(), 0)
  {
  }

  /** A fresh node for character `c`: it stands for exactly one substring, itself. */
  function CreateFor(c: char): (n: Node)
    ensures n.ch == c && Sized(n, 1)
    ensures Contents(n) == {} && PathsOf(n) == {[c]}
  {
    Node(c, [], 1)
  }

  /** The only way a count changes: it grows by `k`, and nothing else about the node changes. */
  function AccumulateCountBy(n: Node, k: nat): (r: Node)
    ensures r.ch == n.ch && r.children == n.children
    ensures r.count == n.count + k
  {
    n.(count := n.count + k)
  }

  // ---------------------------------------------------------------------
  // The count invariant
  // ---------------------------------------------------------------------

  /** The sum of the counts of a run of siblings. */
  ghost function SumCounts(cs: seq<Node>): nat
  {
    if |cs| == 0 then 0 else cs[0].count + SumCounts(cs[1..])
  }

  /** Keys strictly ascend, as in a `TreeMap`; in particular no key repeats. */
  ghost predicate KeysAscending(cs: seq<Node>)
  {
    forall i, j :: 0 <= i < j < |cs| ==> cs[i].ch < cs[j].ch
  }

  /**
   * The count invariant of a node: its count is `own` (1 for a node that
   * itself ends a substring, 0 for the root) plus the counts of its
   * children, and every child, recursively, satisfies it with `own == 1`.
   */
  ghost predicate Sized(n: Node, own: nat)
    decreases n
  {
    n.count == own + SumCounts(n.children) && SizedForest(n.children)
  }

  /** Siblings in ascending key order, each a well-counted non-root node. */
  ghost predicate SizedForest(cs: seq<Node>)
    decreases cs
  {
    KeysAscending(cs) && forall i :: 0 <= i < |cs| ==> Sized(cs[i], 1)
  }

  // ---------------------------------------------------------------------
  // What a node holds: a set ...
  // ---------------------------------------------------------------------

  /** `c` put in front of every string of `ws`. */
  ghost function Prefixed(c: char, ws: set<string>): set<string>
  {
    set w | w in ws :: [c] + w
  }

  /** Every string spelled by a path that starts at one of the siblings `cs`. */
  ghost function Paths(cs: seq<Node>): set<string>
    decreases cs
  {
    if |cs| == 0 then {} else PathsOf(cs[0]) + Paths(cs[1..])
  }

  /** The strings spelled by paths starting at node `c`: its own label, and its label before each longer path. */
  ghost function PathsOf(c: Node): set<string>
    decreases c
  {
    {[c.ch]} + Prefixed(c.ch, Paths(c.children))
  }

  /** The substrings held below `n` (for the root: the whole set). */
  ghost function Contents(n: Node): set<string>
  {
    Paths(n.children)
  }

  // ---------------------------------------------------------------------
  // ... and an ordered list
  // ---------------------------------------------------------------------

  /** `c` put in front of every string of `ws`, keeping the order. */
  ghost function Prepend(c: char, ws: seq<string>): seq<string>
  {
    seq(|ws|, i requires 0 <= i < |ws| => [c] + ws[i])
  }

  /** Paths from the siblings `cs`, in depth-first order over ascending keys. */
  ghost function Enum(cs: seq<Node>): seq<string>
    decreases cs
  {
    if |cs| == 0 then [] else EnumOf(cs[0]) + Enum(cs[1..])
  }

  /** Paths from node `c`: its label first, then the paths through its children. */
  ghost function EnumOf(c: Node): seq<string>
    decreases c
  {
    [[c.ch]] + Prepend(c.ch, Enum(c.children))
  }

  /** The keys of a run of siblings. */
  ghost function Keys(cs: seq<Node>): set<char>
  {
    set i | 0 <= i < |cs| :: cs[i].ch
  }

  // ---------------------------------------------------------------------
  // Lemmas
  // ---------------------------------------------------------------------

  lemma {:induction false} SumCountsAppend(a: seq<Node>, b: seq<Node>)
    ensures SumCounts(a + b) == SumCounts(a) + SumCounts(b)
    decreases |a|
  {
    if |a| > 0 {
      assert (a + b)[1..] == a[1..] + b;
      SumCountsAppend(a[1..], b);
    } else {
      assert a + b == b;
    }
  }

  /** The running sum over one more sibling grows by that sibling's count. */
  lemma SumCountsStep(cs: seq<Node>, i: int)
    requires 0 <= i < |cs|
    ensures SumCounts(cs[..i + 1]) == SumCounts(cs[..i]) + cs[i].count
  {
    SeqFacts.PrefixExtend(cs, i);
    SumCountsAppend(cs[..i], [cs[i]]);
  }

  lemma {:induction false} PathsAppend(a: seq<Node>, b: seq<Node>)
    ensures Paths(a + b) == Paths(a) + Paths(b)
    decreases |a|
  {
    if |a| > 0 {
      assert (a + b)[1..] == a[1..] + b;
      PathsAppend(a[1..], b);
    } else {
      assert a + b == b;
    }
  }

  lemma {:induction false} EnumAppend(a: seq<Node>, b: seq<Node>)
    ensures Enum(a + b) == Enum(a) + Enum(b)
    decreases |a|
  {
    if |a| > 0 {
      assert (a + b)[1..] == a[1..] + b;
      EnumAppend(a[1..], b);
    } else {
      assert a + b == b;
    }
  }

  lemma SizedForestParts(cs: seq<Node>, i: int)
    requires SizedForest(cs) && 0 <= i <= |cs|
    ensures SizedForest(cs[..i]) && SizedForest(cs[i..])
  {
    assert forall j :: 0 <= j < |cs[i..]| ==> cs[i..][j] == cs[i + j];
  }

  /** A well-counted forest lists exactly as many strings as its counts add up to. */
  lemma {:induction false} EnumLength(cs: seq<Node>)
    requires SizedForest(cs)
    ensures |Enum(cs)| == SumCounts(cs)
    decreases cs
  {
    if |cs| > 0 {
      assert Sized(cs[0], 1);
      EnumLength(cs[0].children);
      SizedForestParts(cs, 1);
      EnumLength(cs[1..]);
    }
  }

  lemma PrependElems(c: char, ws: seq<string>)
    ensures Elems(Prepend(c, ws)) == Prefixed(c, Elems(ws))
  {
    forall x | x in Prefixed(c, Elems(ws))
      ensures x in Elems(Prepend(c, ws))
    {
      var w :| w in Elems(ws) && x == [c] + w;
      var i :| 0 <= i < |ws| && ws[i] == w;
      assert Prepend(c, ws)[i] == x;
    }
  }

  /** The list and the set describe the same strings. */
  lemma {:induction false} EnumMatchesPaths(cs: seq<Node>)
    ensures Elems(Enum(cs)) == Paths(cs)
    decreases cs
  {
    if |cs| > 0 {
      var c := cs[0];
      EnumMatchesPaths(c.children);
      PrependElems(c.ch, Enum(c.children));
      assert Elems(EnumOf(c)) == PathsOf(c) by {
        assert Elems(EnumOf(c)) == {[c.ch]} + Elems(Prepend(c.ch, Enum(c.children)));
      }
      EnumMatchesPaths(cs[1..]);
      assert Elems(Enum(cs)) == Elems(EnumOf(c)) + Elems(Enum(cs[1..]));
    }
  }

  /** Every listed string is non-empty and starts with one of the siblings' keys. */
  lemma {:induction false} EnumHeads(cs: seq<Node>)
    ensures forall i :: 0 <= i < |Enum(cs)| ==> |Enum(cs)[i]| > 0 && Enum(cs)[i][0] in Keys(cs)
    decreases |cs|
  {
    if |cs| > 0 {
      EnumHeads(cs[1..]);
      var e := Enum(cs);
      var first := EnumOf(cs[0]);
      forall i | 0 <= i < |e|
        ensures |e[i]| > 0 && e[i][0] in Keys(cs)
      {
        if i < |first| {
          assert e[i] == first[i];
          assert e[i][0] == cs[0].ch;
        } else {
          var rest := Enum(cs[1..]);
          assert e[i] == rest[i - |first|];
          var j :| 0 <= j < |cs[1..]| && cs[1..][j].ch == e[i][0];
          assert cs[j + 1].ch == e[i][0];
        }
      }
    }
  }

  lemma SortedConcat(a: seq<string>, b: seq<string>)
    requires StrictlySorted(a) && StrictlySorted(b)
    requires forall i, j :: 0 <= i < |a| && 0 <= j < |b| ==> Less(a[i], b[j])
    ensures StrictlySorted(a + b)
  {
  }

  lemma PrependSorted(c: char, ws: seq<string>)
    requires StrictlySorted(ws)
    ensures StrictlySorted(Prepend(c, ws))
  {
    forall i, j | 0 <= i < j < |ws|
      ensures Less(Prepend(c, ws)[i], Prepend(c, ws)[j])
    {
      LessCons(c, ws[i], ws[j]);
    }
  }

  /** Over ascending keys, the depth-first listing is in strictly ascending lexicographic order. */
  lemma {:induction false} EnumSorted(cs: seq<Node>)
    requires SizedForest(cs)
    ensures StrictlySorted(Enum(cs))
    decreases cs
  {
    if |cs| > 0 {
      var c := cs[0];
      assert Sized(c, 1);
      var sub := Enum(c.children);
      EnumSorted(c.children);
      EnumHeads(c.children);
      PrependSorted(c.ch, sub);
      var first := EnumOf(c);
      forall j | 0 <= j < |sub|
        ensures Less([c.ch], Prepend(c.ch, sub)[j])
      {
        assert Prepend(c.ch, sub)[j] == [c.ch] + sub[j];
        assert ([c.ch] + sub[j])[1..] == sub[j];
      }
      SortedConcat([[c.ch]], Prepend(c.ch, sub));
      SizedForestParts(cs, 1);
      EnumSorted(cs[1..]);
      EnumHeads(cs[1..]);
      var rest := Enum(cs[1..]);
      forall i, j | 0 <= i < |first| && 0 <= j < |rest|
        ensures Less(first[i], rest[j])
      {
        var k :| 0 <= k < |cs[1..]| && cs[1..][k].ch == rest[j][0];
        assert cs[0].ch < cs[k + 1].ch;
        if i > 0 {
          assert first[i] == [c.ch] + sub[i - 1];
        }
      }
      SortedConcat(first, rest);
    }
  }

  /** A well-counted forest holds exactly as many distinct strings as its counts add up to. */
  lemma ForestCardinality(cs: seq<Node>)
    requires SizedForest(cs)
    ensures |Paths(cs)| == SumCounts(cs)
  {
    EnumLength(cs);
    EnumSorted(cs);
    SortedIsDistinct(Enum(cs));
    DistinctCardinality(Enum(cs));
    EnumMatchesPaths(cs);
  }

  /**
   * The count invariant makes `count` the number of distinct substrings
   * below a node, plus `own` for the node itself.
   */
  lemma CountIsCardinality(n: Node, own: nat)
    requires Sized(n, own)
    ensures n.count == own + |Contents(n)|
  {
    ForestCardinality(n.children);
  }

  /** Every string held below a run of siblings is non-empty and starts with one of their keys. */
  lemma PathsHeads(cs: seq<Node>)
    ensures forall x :: x in Paths(cs) ==> |x| > 0 && x[0] in Keys(cs)
  {
    EnumHeads(cs);
    EnumMatchesPaths(cs);
    forall x | x in Paths(cs)
      ensures |x| > 0 && x[0] in Keys(cs)
    {
      var i :| 0 <= i < |Enum(cs)| && Enum(cs)[i] == x;
    }
  }

  lemma PathsSingle(x: Node)
    ensures Paths([x]) == PathsOf(x)
  {
    assert [x][1..] == [];
  }

  lemma PathsSplit(cs: seq<Node>, i: int)
    requires 0 <= i < |cs|
    ensures Paths(cs) == Paths(cs[..i]) + PathsOf(cs[i]) + Paths(cs[i + 1..])
  {
    var a, b, c := cs[..i], [cs[i]], cs[i + 1..];
    var ab := a + b;
    SeqFacts.SplitAround(cs, i);
    PathsAppend(ab, c);
    PathsAppend(a, b);
    PathsSingle(cs[i]);
    assert Paths(ab) == Paths(a) + PathsOf(cs[i]);
  }

}
