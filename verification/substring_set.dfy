/**
 * `SubstringSet`: the set of all distinct substrings of every string
 * inserted so far, with `insert`, `size` and `get` (rank-select).
 */
module SubstringSets {

  import opened Wrappers
  import opened StringOrder
  import opened TrieNode
  import opened Insertion
  import RankSelect

  /** The set is its trie's root. */
  datatype SubstringSet = SubstringSet(root: Node)

  /** The invariant every reachable set keeps: the root and all nodes below it are well counted. */
  ghost predicate Valid(s: SubstringSet)
  {
    Sized(s.root, 0)
  }

  /** The substrings the set holds. */
  ghost function Elements(s: SubstringSet): set<string>
  {
    Contents(s.root)
  }

  /** Every distinct non-empty substring of any of `strs`. */
  ghost function AllSubstrings(strs: seq<string>): set<string>
  {
    if |strs| == 0 then {} else AllSubstrings(strs[..|strs| - 1]) + Substrings(strs[|strs| - 1])
  }

  /** `new SubstringSet()`: an empty root with count 0. */
  function New(): (s: SubstringSet)
    ensures Elements(s) == {} && Size(s) == 0
  {
    SubstringSet(NewRoot())
  }

  /** A new set keeps the invariant. */
  lemma NewIsValid()
    ensures Valid(New())
  {
    NewRootSized();
  }

  /** `size()`: the root's count, which is the number of distinct substrings held. */
  function Size(s: SubstringSet): (r: nat)
    ensures Valid(s) ==> r == |Elements(s)|
  {
    assert Valid(s) ==> s.root.count == |Elements(s)| by {
      if Valid(s) {
        CountIsCardinality(s.root, 0);
      }
    }
    s.root.count
  }

  /**
   * `insert(str)`: adds every substring of `str`; returns how many of them
   * were not held before, and the size grows by exactly that number.
   */
  function Insert(s: SubstringSet, str: string): (r: (SubstringSet, nat))
    ensures Elements(r.0) == Elements(s) + Substrings(str)
    ensures Valid(s) ==> Valid(r.0)
    ensures Valid(s) ==> r.1 == |Substrings(str) - Elements(s)|
    ensures Valid(s) ==> Size(r.0) == Size(s) + r.1
    ensures r.1 == 0 ==> r.0 == s
  {
    var ins := InsertSuffixesOf(s.root, str);
    (SubstringSet(ins.node), ins.added)
  }

  /**
   * `get(k)` (and `find(k)`): nothing outside `1..size()`; inside, the
   * member with exactly `k - 1` members below it in lexicographic order.
   */
  function Get(s: SubstringSet, k: int): (r: Option<string>)
    ensures k < 1 || k > Size(s) ==> r == None
    ensures Valid(s) ==> (r.Some? <==> 1 <= k <= Size(s))
    ensures Valid(s) && r.Some? ==> r.value in Elements(s) && |Below(Elements(s), r.value)| == k - 1
  {
    assert Valid(s) ==>
      (RankSelect.Find(s.root, k).Some? <==> 1 <= k <= Size(s)) &&
      (RankSelect.Find(s.root, k).Some? ==>
        RankSelect.Find(s.root, k).value in Elements(s) &&
        |Below(Elements(s), RankSelect.Find(s.root, k).value)| == k - 1)
    by {
      if Valid(s) {
        RankSelect.FindIsKthSmallest(s.root, k);
      }
    }
    RankSelect.Find(s.root, k)
  }

  /**
   * `s` with `strs` inserted in order; from `New()` this is the set the
   * command-line driver builds from its input lines.
   */
  function InsertAll(s: SubstringSet, strs: seq<string>): (r: SubstringSet)
    ensures Elements(r) == Elements(s) + AllSubstrings(strs)
    ensures Valid(s) ==> Valid(r)
    ensures Valid(s) ==> Size(r) == |Elements(s) + AllSubstrings(strs)|
    decreases |strs|
  {
    if |strs| == 0 then s
    else Insert(InsertAll(s, strs[..|strs| - 1]), strs[|strs| - 1]).0
  }

  // ---------------------------------------------------------------------
  // Lemmas
  // ---------------------------------------------------------------------

  /** Inserting a string a second time adds nothing and leaves the set as it was. */
  lemma InsertTwiceAddsNothing(s: SubstringSet, str: string)
    requires Valid(s)
    ensures Insert(Insert(s, str).0, str) == (Insert(s, str).0, 0)
  {
    var once := Insert(s, str).0;
    assert Substrings(str) - Elements(once) == {};
  }

  /** An empty string adds nothing. */
  lemma InsertEmptyAddsNothing(s: SubstringSet)
    ensures Insert(s, "") == (s, 0)
  {
  }

  /**
   * Insertion order does not matter for what the set holds or its size:
   * inserting `a` then `b` gives the same elements as `b` then `a`.
   */
  lemma InsertOrderIrrelevant(s: SubstringSet, a: string, b: string)
    requires Valid(s)
    ensures Elements(Insert(Insert(s, a).0, b).0) == Elements(Insert(Insert(s, b).0, a).0)
    ensures Size(Insert(Insert(s, a).0, b).0) == Size(Insert(Insert(s, b).0, a).0)
  {
  }

  /** Rank picks out one member: two members with the same number of members below them are equal. */
  lemma RankDeterminesMember(xs: set<string>, x: string, y: string)
    requires x in xs && y in xs
    requires |Below(xs, x)| == |Below(xs, y)|
    ensures x == y
  {
    LessTotal(x, y);
    if Less(x, y) {
      BelowGrows(xs, x, y);
    } else if Less(y, x) {
      BelowGrows(xs, y, x);
    }
  }

  lemma BelowGrows(xs: set<string>, x: string, y: string)
    requires x in xs && Less(x, y)
    ensures |Below(xs, x)| < |Below(xs, y)|
  {
    forall z | z in Below(xs, x)
      ensures z in Below(xs, y)
    {
      LessTransitive(z, x, y);
    }
    LessIrreflexive(x);
    assert x in Below(xs, y) - Below(xs, x);
    StrictSubsetSmaller(Below(xs, x), Below(xs, y));
  }

  lemma StrictSubsetSmaller(a: set<string>, b: set<string>)
    requires a < b
    ensures |a| < |b|
  {
    assert b == a + (b - a);
    assert a * (b - a) == {};
    var x :| x in b - a;
  }

  /** So `get(k)` is the one member of rank `k`: any member with `k - 1` members below it is the answer. */
  lemma GetIsTheMemberOfRank(s: SubstringSet, k: int, x: string)
    requires Valid(s)
    requires x in Elements(s) && |Below(Elements(s), x)| == k - 1
    ensures Get(s, k) == Some(x)
  {
    var xs := Elements(s);
    assert Below(xs, x) <= xs;
    assert 1 <= k <= Size(s) by {
      LessIrreflexive(x);
      assert x !in Below(xs, x);
      StrictSubsetSmaller(Below(xs, x), xs);
    }
    RankDeterminesMember(xs, Get(s, k).value, x);
  }

  /**
   * A valid set whose elements are exactly those of a strictly ascending
   * list answers `get(k)` with the list's `k`-th string, and its size is the
   * list's length.
   */
  lemma GetFromSortedListing(s: SubstringSet, xs: seq<string>, k: int)
    requires Valid(s) && StrictlySorted(xs) && Elements(s) == Elems(xs)
    ensures Size(s) == |xs|
    ensures 1 <= k <= |xs| ==> Get(s, k) == Some(xs[k - 1])
    ensures k < 1 || k > |xs| ==> Get(s, k) == None
  {
    SortedIsDistinct(xs);
    DistinctCardinality(xs);
    if 1 <= k <= |xs| {
      RankInSorted(xs, k - 1);
      GetIsTheMemberOfRank(s, k, xs[k - 1]);
    }
  }
}
