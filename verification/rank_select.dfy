/**
 * Rank-select over the size-augmented trie: `getPartition` picks the child
 * whose running count first reaches a rank, and `find` walks down from the
 * root choosing partitions until the local rank is 1.
 */
module RankSelect {

  import opened Wrappers
  import opened StringOrder
  import opened TrieNode
  import SeqFacts

  /**
   * `PartitionResult`: how many substrings the siblings before the chosen
   * child account for, and the chosen child (absent where Java has `null`).
   */
  datatype PartitionResult = PartitionResult(before: nat, partition: Option<Node>)

  /**
   * The loop of `getPartition` from child `i` on; `before` is the running
   * sum of the counts of the children already passed.
   */
  function Scan(cs: seq<Node>, i: nat, before: nat, k: int): (r: PartitionResult)
    requires i <= |cs|
    requires before == SumCounts(cs[..i])
    requires i == 0 || before < k
    ensures r.partition.None? <==> (|cs| == 0 || SumCounts(cs) < k)
    ensures r.partition.None? ==> r.before == SumCounts(cs)
    ensures forall j :: i <= j < |cs| && SumCounts(cs[..j]) < k <= SumCounts(cs[..j + 1]) ==>
      r == PartitionResult(SumCounts(cs[..j]), Some(cs[j]))
    ensures r.partition.Some? ==> r.partition.value in cs
    decreases |cs| - i
  {
    if i == |cs| then
      assert cs[..i] == cs;
      PartitionResult(before, None)
    else if before + cs[i].count < k then
      SumCountsStep(cs, i);
      PrefixMonotone(cs, i + 1);
      Scan(cs, i + 1, before + cs[i].count, k)
    else
      SumCountsStep(cs, i);
      PrefixBelowTotal(cs, i + 1);
      PrefixMonotone(cs, i + 1);
      PartitionResult(before, Some(cs[i]))
  }

  /**
   * `getPartition(n, k)`: the first child, in ascending key order, whose
   * count added to those of the earlier siblings reaches `k`, with the sum of
   * the earlier siblings' counts; no child if there is none.
   */
  function GetPartition(n: Node, k: int): (r: PartitionResult)
    ensures r.partition.None? <==> (|n.children| == 0 || SumCounts(n.children) < k)
    ensures r.partition.None? ==> r.before == SumCounts(n.children)
    ensures forall j :: 0 <= j < |n.children| && SumCounts(n.children[..j]) < k <= SumCounts(n.children[..j + 1]) ==>
      r == PartitionResult(SumCounts(n.children[..j]), Some(n.children[j]))
    ensures k <= 0 && |n.children| > 0 ==> r == PartitionResult(0, Some(n.children[0]))
    ensures r.partition.Some? ==> r.partition.value in n.children
  {
    assert n.children[..0] == [];
    Scan(n.children, 0, 0, k)
  }

  /**
   * The loop of `find` from node `n` with local rank `k`: append `n`'s
   * label; stop when `k == 1`; otherwise continue in the partition for rank
   * `k - 1` with `k` reduced by the earlier siblings' counts plus one. Where
   * Java would dereference a `null` partition the result is `None`.
   */
  function Descend(n: Node, k: int): (r: Option<string>)
    ensures k == 1 ==> r == Some([n.ch])
    ensures r.Some? ==> |r.value| > 0 && r.value[0] == n.ch
    ensures k < 1 ==> r == None
    decreases n
  {
    if k == 1 then Some([n.ch])
    else
      var p := GetPartition(n, k - 1);
      match p.partition
      case None => None
      case Some(m) =>
        match Descend(m, k - (p.before + 1))
        case None => None
        case Some(w) => Some([n.ch] + w)
  }

  /**
   * `find(order)`: not found outside `1..root.count`; otherwise the descent
   * from the root's partition for `order`.
   */
  function Find(root: Node, order: int): (r: Option<string>)
    ensures order < 1 || order > root.count ==> r == None
  {
    if order < 1 || order > root.count then None
    else
      var start := GetPartition(root, order);
      match start.partition
      case None => None
      case Some(n) => Descend(n, order - start.before)
  }

  // ---------------------------------------------------------------------
  // Running sums
  // ---------------------------------------------------------------------

  /** Running sums never decrease. */
  lemma PrefixMonotone(cs: seq<Node>, a: int)
    requires 0 <= a <= |cs|
    ensures forall b :: a <= b <= |cs| ==> SumCounts(cs[..a]) <= SumCounts(cs[..b])
  {
    forall b | a <= b <= |cs|
      ensures SumCounts(cs[..a]) <= SumCounts(cs[..b])
    {
      SeqFacts.PrefixSplit(cs, a, b);
      SumCountsAppend(cs[..a], cs[a..b]);
    }
  }

  lemma PrefixBelowTotal(cs: seq<Node>, a: int)
    requires 0 <= a <= |cs|
    ensures SumCounts(cs[..a]) <= SumCounts(cs)
  {
    PrefixMonotone(cs, a);
    assert cs[..|cs|] == cs;
  }

  /** The child whose range of ranks holds `k`, searching from child `i` on. */
  ghost function CoveringFrom(cs: seq<Node>, i: nat, k: int): (j: nat)
    requires i < |cs|
    requires SumCounts(cs[..i]) < k <= SumCounts(cs)
    ensures i <= j < |cs|
    ensures SumCounts(cs[..j]) < k <= SumCounts(cs[..j + 1])
    decreases |cs| - i
  {
    SumCountsStep(cs, i);
    if k <= SumCounts(cs[..i + 1]) then i
    else
      assert i + 1 < |cs| by {
        assert cs[..|cs|] == cs;
      }
      CoveringFrom(cs, i + 1, k)
  }

  /** For a rank within the children's total there is a child whose range holds it. */
  ghost function Covering(cs: seq<Node>, k: int): (j: nat)
    requires 1 <= k <= SumCounts(cs)
    ensures j < |cs|
    ensures SumCounts(cs[..j]) < k <= SumCounts(cs[..j + 1])
  {
    assert cs[..0] == [];
    CoveringFrom(cs, 0, k)
  }

  // ---------------------------------------------------------------------
  // What a partition stands for
  // ---------------------------------------------------------------------

  /** The members of `xs` that begin with `c`. */
  ghost function StartingWith(xs: set<string>, c: char): set<string>
  {
    set x | x in xs && |x| > 0 && x[0] == c
  }

  /** The members of `xs` that begin with a character below `c`. */
  ghost function StartingBelow(xs: set<string>, c: char): set<string>
  {
    set x | x in xs && |x| > 0 && x[0] < c
  }

  /**
   * Among ascending siblings, the strings through child `i` are exactly the
   * held strings beginning with its key, and the strings through the
   * children before it are exactly those beginning with a smaller character.
   */
  lemma ChildIsFirstCharClass(cs: seq<Node>, i: int)
    requires KeysAscending(cs) && 0 <= i < |cs|
    ensures StartingWith(Paths(cs), cs[i].ch) == PathsOf(cs[i])
    ensures StartingBelow(Paths(cs), cs[i].ch) == Paths(cs[..i])
  {
    PathsSplit(cs, i);
    SplitHeads(cs, i);
  }

  /** Around child `i`, the strings before begin below its key, its own begin with it, and those after begin above it. */
  lemma SplitHeads(cs: seq<Node>, i: int)
    requires KeysAscending(cs) && 0 <= i < |cs|
    ensures forall x :: x in Paths(cs[..i]) ==> |x| > 0 && x[0] < cs[i].ch
    ensures forall x :: x in PathsOf(cs[i]) ==> |x| > 0 && x[0] == cs[i].ch
    ensures forall x :: x in Paths(cs[i + 1..]) ==> |x| > 0 && x[0] > cs[i].ch
  {
    var c := cs[i].ch;
    PathsHeads(cs[..i]);
    PathsHeads(cs[i + 1..]);
    forall x | x in Paths(cs[..i])
      ensures |x| > 0 && x[0] < c
    {
      var j :| 0 <= j < |cs[..i]| && cs[..i][j].ch == x[0];
      assert cs[j].ch < c;
    }
    forall x | x in Paths(cs[i + 1..])
      ensures |x| > 0 && x[0] > c
    {
      var j :| 0 <= j < |cs[i + 1..]| && cs[i + 1..][j].ch == x[0];
      assert cs[i + 1 + j].ch > c;
    }
    forall x | x in PathsOf(cs[i])
      ensures |x| > 0 && x[0] == c
    {
      if x != [c] {
        var w :| w in Contents(cs[i]) && x == [c] + w;
      }
    }
  }

  /** The strings through one well-counted non-root node number its count. */
  lemma PathsOfCardinality(c: Node)
    requires Sized(c, 1)
    ensures |PathsOf(c)| == c.count
  {
    PathsSingle(c);
    assert SumCounts([c]) == c.count by {
      assert [c][1..] == [];
    }
    ForestCardinality([c]);
  }

  /**
   * `getPartition` read off a well-counted node's contents: for a rank `k`
   * within the children's total, it chooses the child whose key `c` is such
   * that fewer than `k` held strings begin below `c` and at least `k` begin
   * at or below it; it reports the number beginning below `c`, and the
   * child's count is the number beginning with `c`.
   */
  lemma PartitionByFirstChar(n: Node, own: nat, k: int)
    requires Sized(n, own) && 1 <= k <= SumCounts(n.children)
    ensures GetPartition(n, k).partition.Some?
    ensures var p := GetPartition(n, k); var c := p.partition.value.ch;
      [c] in Contents(n) &&
      p.before == |StartingBelow(Contents(n), c)| &&
      p.partition.value.count == |StartingWith(Contents(n), c)| &&
      p.before < k <= p.before + p.partition.value.count
  {
    var cs := n.children;
    var j := Covering(cs, k);
    assert GetPartition(n, k) == PartitionResult(SumCounts(cs[..j]), Some(cs[j]));
    SumCountsStep(cs, j);
    ChildIsFirstCharClass(cs, j);
    assert Sized(cs[j], 1);
    PathsOfCardinality(cs[j]);
    SizedForestParts(cs, j);
    ForestCardinality(cs[..j]);
    PathsSplit(cs, j);
  }

  // ---------------------------------------------------------------------
  // The descent selects by rank
  // ---------------------------------------------------------------------

  lemma EnumSingle(c: Node)
    ensures Enum([c]) == EnumOf(c)
  {
    assert [c][1..] == [];
  }

  lemma EnumOfLength(c: Node)
    requires Sized(c, 1)
    ensures |EnumOf(c)| == c.count
  {
    EnumLength(c.children);
  }

  /** Position `x` of the listing of a forest falls inside the block of the child whose range holds it. */
  lemma EnumAt(cs: seq<Node>, j: int, x: int)
    requires SizedForest(cs)
    requires 0 <= j < |cs|
    requires SumCounts(cs[..j]) <= x < SumCounts(cs[..j + 1])
    ensures x < |Enum(cs)| && x - SumCounts(cs[..j]) < |EnumOf(cs[j])|
    ensures Enum(cs)[x] == EnumOf(cs[j])[x - SumCounts(cs[..j])]
  {
    var a, b, c := cs[..j], [cs[j]], cs[j + 1..];
    SeqFacts.SplitAround(cs, j);
    EnumAppend(a + b, c);
    EnumAppend(a, b);
    EnumSingle(cs[j]);
    SizedForestParts(cs, j);
    EnumLength(a);
    EnumOfLength(cs[j]);
    SumCountsStep(cs, j);
  }

  /** One step of the descent: past rank 1, `Descend` continues in the child whose range holds `k - 1`. */
  lemma DescendThrough(c: Node, k: int, j: int, w: string)
    requires k != 1 && 0 <= j < |c.children|
    requires SumCounts(c.children[..j]) < k - 1 <= SumCounts(c.children[..j + 1])
    requires Descend(c.children[j], k - 1 - SumCounts(c.children[..j])) == Some(w)
    ensures Descend(c, k) == Some([c.ch] + w)
  {
    assert GetPartition(c, k - 1) == PartitionResult(SumCounts(c.children[..j]), Some(c.children[j]));
  }

  lemma EnumOfAt(c: Node, x: int)
    requires 1 <= x < |EnumOf(c)|
    ensures EnumOf(c)[x] == [c.ch] + Enum(c.children)[x - 1]
  {
  }

  /** Below a well-counted non-root node, rank `k` descends to the `k`-th string of the node's listing. */
  lemma {:induction false} DescendSelects(c: Node, k: int)
    requires Sized(c, 1)
    requires 1 <= k <= c.count
    ensures k - 1 < |EnumOf(c)|
    ensures Descend(c, k) == Some(EnumOf(c)[k - 1])
    decreases c
  {
    EnumOfLength(c);
    if k > 1 {
      var cs := c.children;
      var j := Covering(cs, k - 1);
      var r := k - 1 - SumCounts(cs[..j]);
      assert Sized(cs[j], 1) && 1 <= r <= cs[j].count by {
        SumCountsStep(cs, j);
      }
      DescendSelects(cs[j], r);
      DescendStep(c, k, j);
    } else {
      assert EnumOf(c)[0] == [c.ch];
    }
  }

  /**
   * The step of `DescendSelects`: if the child whose range holds `k - 1`
   * selects by rank, so does its parent.
   */
  lemma DescendStep(c: Node, k: int, j: int)
    requires Sized(c, 1) && 1 < k <= c.count
    requires 0 <= j < |c.children|
    requires SumCounts(c.children[..j]) < k - 1 <= SumCounts(c.children[..j + 1])
    requires k - 2 - SumCounts(c.children[..j]) < |EnumOf(c.children[j])|
    requires Descend(c.children[j], k - 1 - SumCounts(c.children[..j])) ==
      Some(EnumOf(c.children[j])[k - 2 - SumCounts(c.children[..j])])
    ensures k - 1 < |EnumOf(c)|
    ensures Descend(c, k) == Some(EnumOf(c)[k - 1])
  {
    var cs := c.children;
    var w := EnumOf(cs[j])[k - 2 - SumCounts(cs[..j])];
    EnumOfLength(c);
    DescendThrough(c, k, j, w);
    assert Enum(cs)[k - 2] == w by {
      EnumAt(cs, j, k - 2);
    }
    EnumOfAt(c, k - 1);
  }

  /** On a well-counted root, `find(order)` is the `order`-th string of the root's listing. */
  lemma FindSelects(root: Node, order: int)
    requires Sized(root, 0)
    requires 1 <= order <= root.count
    ensures order - 1 < |Enum(root.children)|
    ensures Find(root, order) == Some(Enum(root.children)[order - 1])
  {
    var j := Covering(root.children, order);
    FindThroughChild(root, order, j);
    SelectInChild(root.children, order, j);
  }

  /** Descending into the covering child with the rank left over picks the listing's entry at that rank. */
  lemma SelectInChild(cs: seq<Node>, order: int, j: int)
    requires SizedForest(cs)
    requires 0 <= j < |cs|
    requires SumCounts(cs[..j]) < order <= SumCounts(cs[..j + 1])
    ensures order - 1 < |Enum(cs)|
    ensures Descend(cs[j], order - SumCounts(cs[..j])) == Some(Enum(cs)[order - 1])
  {
    var before := SumCounts(cs[..j]);
    SumCountsStep(cs, j);
    assert Sized(cs[j], 1) && 1 <= order - before <= cs[j].count;
    DescendSelects(cs[j], order - before);
    EnumAt(cs, j, order - 1);
  }

  /** `find(order)` descends into the child whose running count first reaches `order`. */
  lemma FindThroughChild(root: Node, order: int, j: int)
    requires 1 <= order <= root.count
    requires 0 <= j < |root.children|
    requires SumCounts(root.children[..j]) < order <= SumCounts(root.children[..j + 1])
    ensures Find(root, order) == Descend(root.children[j], order - SumCounts(root.children[..j]))
  {
    assert GetPartition(root, order) == PartitionResult(SumCounts(root.children[..j]), Some(root.children[j]));
  }

  /**
   * On a well-counted root, `find(order)` is found exactly for
   * `1 <= order <= |Contents(root)|`, and then it is the member of the set
   * with exactly `order - 1` members below it in lexicographic order.
   */
  lemma FindIsKthSmallest(root: Node, order: int)
    requires Sized(root, 0)
    ensures Find(root, order).Some? <==> 1 <= order <= |Contents(root)|
    ensures Find(root, order).Some? ==>
      Find(root, order).value in Contents(root) &&
      |Below(Contents(root), Find(root, order).value)| == order - 1
  {
    CountIsCardinality(root, 0);
    if 1 <= order <= root.count {
      FindSelects(root, order);
      EnumRank(root.children, order - 1);
    }
  }

  /** The `i`-th string of a well-counted forest's listing is a member with exactly `i` members below it. */
  lemma EnumRank(cs: seq<Node>, i: int)
    requires SizedForest(cs)
    requires 0 <= i < |Enum(cs)|
    ensures Enum(cs)[i] in Paths(cs)
    ensures |Below(Paths(cs), Enum(cs)[i])| == i
  {
    EnumSorted(cs);
    EnumMatchesPaths(cs);
    RankInSorted(Enum(cs), i);
  }

  /**
   * Asking for ranks `1..count` in turn lists the whole set in strictly
   * ascending order: every rank is found, later ranks give larger strings,
   * and every member of the set is returned for some rank.
   */
  lemma FindEnumeratesInOrder(root: Node)
    requires Sized(root, 0)
    ensures forall k :: 1 <= k <= root.count ==> Find(root, k).Some?
    ensures forall a, b :: 1 <= a < b <= root.count ==> Less(Find(root, a).value, Find(root, b).value)
    ensures forall x :: x in Contents(root) ==> exists k :: 1 <= k <= root.count && Find(root, k) == Some(x)
  {
    var e := Enum(root.children);
    EnumLength(root.children);
    forall k | 1 <= k <= root.count
      ensures Find(root, k) == Some(e[k - 1])
    {
      FindSelects(root, k);
    }
    EnumSorted(root.children);
    EnumLength(root.children);
    EnumMatchesPaths(root.children);
    forall x | x in Contents(root)
      ensures exists k :: 1 <= k <= root.count && Find(root, k) == Some(x)
    {
      var i :| 0 <= i < |e| && e[i] == x;
      assert Find(root, i + 1) == Some(x);
    }
  }
}
