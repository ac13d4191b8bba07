/**
 * The scenarios of the repository's unit tests, proved for every empty set
 * that keeps the invariant (such as `New()`): sizes after a few inserts,
 * partitions at the root, and ranks found.
 */
module SubstringSetExamples {

  import opened Wrappers
  import opened StringOrder
  import opened TrieNode
  import opened Insertion
  import opened RankSelect
  import opened SubstringSets

  /** An empty set that keeps the invariant, as `New()` gives. */
  ghost predicate Empty(s: SubstringSet)
  {
    Valid(s) && Elements(s) == {}
  }

  /** `New()` is such a set, so every scenario below applies to a freshly constructed one. */
  lemma NewIsEmpty()
    ensures Empty(New())
  {
    NewIsValid();
  }

  // ---------------------------------------------------------------------
  // The substrings of the strings the tests insert
  // ---------------------------------------------------------------------

  lemma SubstringsA()
    ensures Substrings("a") == {"a"}
  {
    var w := "a";
    assert w[0..1] == "a";
    forall x | x in Substrings(w)
      ensures x in {"a"}
    {
      var j, k :| 0 <= j < k <= 1 && x == w[j..k];
    }
  }

  lemma SubstringsAa()
    ensures Substrings("aa") == {"a", "aa"}
  {
    var w := "aa";
    assert w[0..1] == "a" && w[0..2] == "aa" && w[1..2] == "a";
    forall x | x in Substrings(w)
      ensures x in {"a", "aa"}
    {
      var j, k :| 0 <= j < k <= 2 && x == w[j..k];
    }
  }

  lemma SubstringsAb()
    ensures Substrings("ab") == {"a", "ab", "b"}
  {
    var w := "ab";
    assert w[0..1] == "a" && w[0..2] == "ab" && w[1..2] == "b";
    forall x | x in Substrings(w)
      ensures x in {"a", "ab", "b"}
    {
      var j, k :| 0 <= j < k <= 2 && x == w[j..k];
    }
  }

  lemma SubstringsBa()
    ensures Substrings("ba") == {"a", "b", "ba"}
  {
    var w := "ba";
    assert w[0..1] == "b" && w[0..2] == "ba" && w[1..2] == "a";
    forall x | x in Substrings(w)
      ensures x in {"a", "b", "ba"}
    {
      var j, k :| 0 <= j < k <= 2 && x == w[j..k];
    }
  }

  lemma SubstringsBad()
    ensures Substrings("bad") == {"a", "ad", "b", "ba", "bad", "d"}
  {
    var w := "bad";
    assert w[0..1] == "b" && w[0..2] == "ba" && w[0..3] == "bad" && w[1..2] == "a";
    assert w[1..3] == "ad" && w[2..3] == "d";
    forall x | x in Substrings(w)
      ensures x in {"a", "ad", "b", "ba", "bad", "d"}
    {
      var j, k :| 0 <= j < k <= 3 && x == w[j..k];
    }
  }

  lemma SubstringsAab()
    ensures Substrings("aab") == {"a", "aa", "aab", "ab", "b"}
  {
    var w := "aab";
    assert w[0..1] == "a" && w[0..2] == "aa" && w[0..3] == "aab" && w[1..2] == "a";
    assert w[1..3] == "ab" && w[2..3] == "b";
    forall x | x in Substrings(w)
      ensures x in {"a", "aa", "aab", "ab", "b"}
    {
      var j, k :| 0 <= j < k <= 3 && x == w[j..k];
    }
  }

  lemma SubstringsAac()
    ensures Substrings("aac") == {"a", "aa", "aac", "ac", "c"}
  {
    var w := "aac";
    assert w[0..1] == "a" && w[0..2] == "aa" && w[0..3] == "aac" && w[1..2] == "a";
    assert w[1..3] == "ac" && w[2..3] == "c";
    forall x | x in Substrings(w)
      ensures x in {"a", "aa", "aac", "ac", "c"}
    {
      var j, k :| 0 <= j < k <= 3 && x == w[j..k];
    }
  }

  lemma SubstringsAbc()
    ensures Substrings("abc") == {"a", "ab", "abc", "b", "bc", "c"}
  {
    var w := "abc";
    assert w[0..1] == "a" && w[0..2] == "ab" && w[0..3] == "abc" && w[1..2] == "b";
    assert w[1..3] == "bc" && w[2..3] == "c";
    forall x | x in Substrings(w)
      ensures x in {"a", "ab", "abc", "b", "bc", "c"}
    {
      var j, k :| 0 <= j < k <= 3 && x == w[j..k];
    }
  }

  lemma SubstringsBaba()
    ensures Substrings("baba") == {"a", "ab", "aba", "b", "ba", "bab", "baba"}
  {
    var w := "baba";
    assert w[0..1] == "b" && w[0..2] == "ba" && w[0..3] == "bab" && w[0..4] == "baba";
    assert w[1..2] == "a" && w[1..3] == "ab" && w[1..4] == "aba" && w[2..3] == "b";
    assert w[2..4] == "ba" && w[3..4] == "a";
    forall x | x in Substrings(w)
      ensures x in {"a", "ab", "aba", "b", "ba", "bab", "baba"}
    {
      var j, k :| 0 <= j < k <= 4 && x == w[j..k];
    }
  }

  // ---------------------------------------------------------------------
  // Sizes after inserting (the `insert_1` ... `insert_7` scenarios)
  // ---------------------------------------------------------------------

  /** The sets the insert scenarios go through ... */
  lemma InsertScenarioSets()
    ensures {"a"} + {"a", "ab", "b"} == {"a", "ab", "b"}
    ensures {"a", "ab", "b"} + {"a", "b", "ba"} == {"a", "ab", "b", "ba"}
    ensures {"a", "ab", "b", "ba"} + {"a", "ad", "b", "ba", "bad", "d"} == {"a", "ab", "ad", "b", "ba", "bad", "d"}
    ensures {"a"} + {"a"} == {"a"} && {"a", "aa"} + {"a", "aa"} == {"a", "aa"}
  {
  }

  /** ... and their sizes. */
  lemma InsertScenarioSizes()
    ensures |{"a"}| == 1 && |{"a", "aa"}| == 2
    ensures |{"a", "ab", "b"}| == 3 && |{"a", "ab", "b", "ba"}| == 4
    ensures |{"a", "aa", "aab", "ab", "b"}| == 5
    ensures |{"a", "ab", "ad", "b", "ba", "bad", "d"}| == 7
  {
  }

  /** One insert seen from the outside: a valid set holding `xs` then holds `xs` and the substrings of `w`. */
  lemma InsertStep(s: SubstringSet, w: string, xs: set<string>, ys: set<string>)
    requires Valid(s) && Elements(s) == xs
    requires ys == xs + Substrings(w)
    ensures Valid(Insert(s, w).0) && Elements(Insert(s, w).0) == ys
    ensures Size(Insert(s, w).0) == |ys|
  {
  }

  /** `insert_1`: "a" gives size 1. */
  lemma InsertA(s: SubstringSet)
    requires Empty(s)
    ensures Valid(Insert(s, "a").0) && Elements(Insert(s, "a").0) == {"a"}
    ensures Size(Insert(s, "a").0) == 1
  {
    SubstringsA();
    InsertStep(s, "a", {}, {"a"});
    InsertScenarioSets();
    InsertScenarioSizes();
  }

  /** `insert_2`: "a" then "ab" gives size 3. */
  lemma InsertAAb(s: SubstringSet)
    requires Empty(s)
    ensures Valid(Insert(Insert(s, "a").0, "ab").0)
    ensures Elements(Insert(Insert(s, "a").0, "ab").0) == {"a", "ab", "b"}
    ensures Size(Insert(Insert(s, "a").0, "ab").0) == 3
  {
    InsertA(s);
    SubstringsAb();
    InsertScenarioSets();
    InsertScenarioSizes();
    InsertStep(Insert(s, "a").0, "ab", {"a"}, {"a", "ab", "b"});
  }

  /** `insert_3`: "a", "ab", then "ba" gives size 4. */
  lemma InsertAAbBa(s: SubstringSet)
    requires Empty(s)
    ensures Valid(Insert(Insert(Insert(s, "a").0, "ab").0, "ba").0)
    ensures Elements(Insert(Insert(Insert(s, "a").0, "ab").0, "ba").0) == {"a", "ab", "b", "ba"}
    ensures Size(Insert(Insert(Insert(s, "a").0, "ab").0, "ba").0) == 4
  {
    InsertAAb(s);
    SubstringsBa();
    InsertScenarioSets();
    InsertScenarioSizes();
    InsertStep(Insert(Insert(s, "a").0, "ab").0, "ba", {"a", "ab", "b"}, {"a", "ab", "b", "ba"});
  }

  /** `insert_4`: "a", "ab", "ba", then "bad" gives size 7. */
  lemma InsertAAbBaBad(s: SubstringSet)
    requires Empty(s)
    ensures Size(Insert(Insert(Insert(Insert(s, "a").0, "ab").0, "ba").0, "bad").0) == 7
  {
    InsertAAbBa(s);
    SubstringsBad();
    InsertScenarioSets();
    InsertScenarioSizes();
    InsertStep(Insert(Insert(Insert(s, "a").0, "ab").0, "ba").0, "bad",
      {"a", "ab", "b", "ba"}, {"a", "ab", "ad", "b", "ba", "bad", "d"});
  }

  /** `insert_5`: "a" twice gives 1. */
  lemma InsertATwice(s: SubstringSet)
    requires Empty(s)
    ensures Size(Insert(Insert(s, "a").0, "a").0) == 1
  {
    InsertA(s);
    InsertTwiceAddsNothing(s, "a");
  }

  /** `insert_6`: "aa" twice gives 2. */
  lemma InsertAaTwice(s: SubstringSet)
    requires Empty(s)
    ensures Size(Insert(Insert(s, "aa").0, "aa").0) == 2
  {
    SubstringsAa();
    InsertScenarioSizes();
    InsertStep(s, "aa", {}, {"a", "aa"});
    InsertTwiceAddsNothing(s, "aa");
  }

  /** `insert_7`: "aab" gives 5; the repeated "a" counts once. */
  lemma InsertAab(s: SubstringSet)
    requires Empty(s)
    ensures Size(Insert(s, "aab").0) == 5
  {
    SubstringsAab();
    InsertScenarioSets();
    InsertScenarioSizes();
    InsertStep(s, "aab", {}, {"a", "aa", "aab", "ab", "b"});
  }

  // ---------------------------------------------------------------------
  // Ranks and partitions (the `find_kth` and `find_partition` scenarios)
  // ---------------------------------------------------------------------

  /** The distinct substrings of "aac", "abc", "aab", "baba", in ascending order. */
  const Listing1: seq<string> :=
    ["a", "aa", "aab", "aac", "ab", "aba", "abc", "ac", "b", "ba", "bab", "baba", "bc", "c"]

  /** The distinct substrings of "aac", "aab", in ascending order. */
  const Listing2: seq<string> := ["a", "aa", "aab", "aac", "ab", "ac", "b", "c"]

  /** Each string of `Listing1` sorts before the next. */
  lemma Listing1Chain()
    ensures forall i :: 0 <= i < |Listing1| - 1 ==> Less(Listing1[i], Listing1[i + 1])
  {
    LessByPrefix("a", "aa");
    LessByPrefix("aa", "aab");
    LessAt("aab", "aac", 2);
    LessAt("aac", "ab", 1);
    LessByPrefix("ab", "aba");
    LessAt("aba", "abc", 2);
    LessAt("abc", "ac", 1);
    LessAt("ac", "b", 0);
    LessByPrefix("b", "ba");
    LessByPrefix("ba", "bab");
    LessByPrefix("bab", "baba");
    LessAt("baba", "bc", 1);
    LessAt("bc", "c", 0);
  }

  lemma Listing1Sorted()
    ensures StrictlySorted(Listing1)
  {
    Listing1Chain();
    ChainSorted(Listing1);
  }

  /** Each string of `Listing2` sorts before the next. */
  lemma Listing2Chain()
    ensures forall i :: 0 <= i < |Listing2| - 1 ==> Less(Listing2[i], Listing2[i + 1])
  {
    LessByPrefix("a", "aa");
    LessByPrefix("aa", "aab");
    LessAt("aab", "aac", 2);
    LessAt("aac", "ab", 1);
    LessAt("ab", "ac", 1);
    LessAt("ac", "b", 0);
    LessAt("b", "c", 0);
  }

  lemma Listing2Sorted()
    ensures StrictlySorted(Listing2)
  {
    Listing2Chain();
    ChainSorted(Listing2);
  }

  /** The sets the inserts of the two test sets go through. */
  lemma TestSetUnions()
    ensures {"a", "aa", "aac", "ac", "c"} + {"a", "ab", "abc", "b", "bc", "c"} ==
      {"a", "aa", "aac", "ab", "abc", "ac", "b", "bc", "c"}
    ensures {"a", "aa", "aac", "ab", "abc", "ac", "b", "bc", "c"} + {"a", "aa", "aab", "ab", "b"} ==
      {"a", "aa", "aab", "aac", "ab", "abc", "ac", "b", "bc", "c"}
    ensures {"a", "aa", "aab", "aac", "ab", "abc", "ac", "b", "bc", "c"} + {"a", "ab", "aba", "b", "ba", "bab", "baba"} ==
      Elems(Listing1)
    ensures {"a", "aa", "aac", "ac", "c"} + {"a", "aa", "aab", "ab", "b"} == Elems(Listing2)
  {
  }

  /** After "aac". */
  lemma AfterAac(s: SubstringSet)
    requires Empty(s)
    ensures Valid(Insert(s, "aac").0)
    ensures Elements(Insert(s, "aac").0) == {"a", "aa", "aac", "ac", "c"}
  {
    SubstringsAac();
    InsertStep(s, "aac", {}, {"a", "aa", "aac", "ac", "c"});
  }

  /** After "aac", "abc". */
  lemma AfterAacAbc(s: SubstringSet)
    requires Empty(s)
    ensures Valid(Insert(Insert(s, "aac").0, "abc").0)
    ensures Elements(Insert(Insert(s, "aac").0, "abc").0) == {"a", "aa", "aac", "ab", "abc", "ac", "b", "bc", "c"}
  {
    AfterAac(s);
    SubstringsAbc();
    TestSetUnions();
    InsertStep(Insert(s, "aac").0, "abc", {"a", "aa", "aac", "ac", "c"},
      {"a", "aa", "aac", "ab", "abc", "ac", "b", "bc", "c"});
  }

  /** After "aac", "abc", "aab". */
  lemma AfterAacAbcAab(s: SubstringSet)
    requires Empty(s)
    ensures Valid(Insert(Insert(Insert(s, "aac").0, "abc").0, "aab").0)
    ensures Elements(Insert(Insert(Insert(s, "aac").0, "abc").0, "aab").0) ==
      {"a", "aa", "aab", "aac", "ab", "abc", "ac", "b", "bc", "c"}
  {
    AfterAacAbc(s);
    SubstringsAab();
    TestSetUnions();
    InsertStep(Insert(Insert(s, "aac").0, "abc").0, "aab", {"a", "aa", "aac", "ab", "abc", "ac", "b", "bc", "c"},
      {"a", "aa", "aab", "aac", "ab", "abc", "ac", "b", "bc", "c"});
  }

  /** Inserting TEST_SET_1 ("aac", "abc", "aab", "baba") into an empty set gives exactly `Listing1`. */
  lemma TestSet1Elements(s: SubstringSet)
    requires Empty(s)
    ensures Valid(Insert(Insert(Insert(Insert(s, "aac").0, "abc").0, "aab").0, "baba").0)
    ensures Elements(Insert(Insert(Insert(Insert(s, "aac").0, "abc").0, "aab").0, "baba").0) == Elems(Listing1)
  {
    AfterAacAbcAab(s);
    SubstringsBaba();
    TestSetUnions();
    InsertStep(Insert(Insert(Insert(s, "aac").0, "abc").0, "aab").0, "baba",
      {"a", "aa", "aab", "aac", "ab", "abc", "ac", "b", "bc", "c"}, Elems(Listing1));
  }

  /** Inserting TEST_SET_2 ("aac", "aab") into an empty set gives exactly `Listing2`. */
  lemma TestSet2Elements(s: SubstringSet)
    requires Empty(s)
    ensures Valid(Insert(Insert(s, "aac").0, "aab").0)
    ensures Elements(Insert(Insert(s, "aac").0, "aab").0) == Elems(Listing2)
  {
    AfterAac(s);
    SubstringsAab();
    TestSetUnions();
    InsertStep(Insert(s, "aac").0, "aab", {"a", "aa", "aac", "ac", "c"}, Elems(Listing2));
  }

  // ---------------------------------------------------------------------
  // find and getPartition on the test sets
  // ---------------------------------------------------------------------

  /** `find(k)` for the upper ranks the tests ask about, on a set holding exactly `Listing1`. */
  lemma Listing1FindHigh(t: SubstringSet)
    requires Valid(t) && Elements(t) == Elems(Listing1)
    ensures Size(t) == 14
    ensures Get(t, 13) == Some("bc") && Get(t, 11) == Some("bab") && Get(t, 14) == Some("c")
  {
    assert Listing1[12] == "bc" && Listing1[10] == "bab" && Listing1[13] == "c";
    Listing1Sorted();
    GetFromSortedListing(t, Listing1, 13);
    GetFromSortedListing(t, Listing1, 11);
    GetFromSortedListing(t, Listing1, 14);
  }

  /** `find(k)` for the lower ranks the tests ask about, on a set holding exactly `Listing1`. */
  lemma Listing1FindLow(t: SubstringSet)
    requires Valid(t) && Elements(t) == Elems(Listing1)
    ensures Get(t, 9) == Some("b") && Get(t, 1) == Some("a") && Get(t, 8) == Some("ac")
  {
    assert Listing1[8] == "b" && Listing1[0] == "a" && Listing1[7] == "ac";
    Listing1Sorted();
    GetFromSortedListing(t, Listing1, 9);
    GetFromSortedListing(t, Listing1, 1);
    GetFromSortedListing(t, Listing1, 8);
  }

  /** `find(k)` on a set holding exactly `Listing2`. */
  lemma Listing2Find(t: SubstringSet)
    requires Valid(t) && Elements(t) == Elems(Listing2)
    ensures Size(t) == 8
    ensures Get(t, 3) == Some("aab") && Get(t, 8) == Some("c") && Get(t, 23) == None
  {
    assert Listing2[2] == "aab" && Listing2[7] == "c";
    Listing2Sorted();
    GetFromSortedListing(t, Listing2, 3);
    GetFromSortedListing(t, Listing2, 8);
    GetFromSortedListing(t, Listing2, 23);
  }

  /** `find(k)` after TEST_SET_1: the 13th, 11th, 9th, 1st, 14th and 8th smallest substrings. */
  lemma FindKth1(s: SubstringSet)
    requires Empty(s)
    ensures var t := Insert(Insert(Insert(Insert(s, "aac").0, "abc").0, "aab").0, "baba").0;
      Size(t) == 14 &&
      Get(t, 13) == Some("bc") && Get(t, 11) == Some("bab") && Get(t, 9) == Some("b") &&
      Get(t, 1) == Some("a") && Get(t, 14) == Some("c") && Get(t, 8) == Some("ac")
  {
    TestSet1Elements(s);
    var t := Insert(Insert(Insert(Insert(s, "aac").0, "abc").0, "aab").0, "baba").0;
    Listing1FindHigh(t);
    Listing1FindLow(t);
  }

  /** `find(k)` after TEST_SET_2: the 3rd and 8th smallest, and nothing at 23. */
  lemma FindKth2(s: SubstringSet)
    requires Empty(s)
    ensures var t := Insert(Insert(s, "aac").0, "aab").0;
      Size(t) == 8 && Get(t, 3) == Some("aab") && Get(t, 8) == Some("c") && Get(t, 23) == None
  {
    TestSet2Elements(s);
    Listing2Find(Insert(Insert(s, "aac").0, "aab").0);
  }

  /** Each part of a strictly sorted concatenation is strictly sorted. */
  lemma SortedParts(lo: seq<string>, mid: seq<string>, hi: seq<string>)
    requires StrictlySorted(lo + mid + hi)
    ensures StrictlySorted(lo) && StrictlySorted(mid) && StrictlySorted(lo + mid)
  {
    var all := lo + mid + hi;
    forall i, j | 0 <= i < j < |mid|
      ensures Less(mid[i], mid[j])
    {
      assert mid[i] == all[|lo| + i] && mid[j] == all[|lo| + j];
    }
    forall i, j | 0 <= i < j < |lo + mid|
      ensures Less((lo + mid)[i], (lo + mid)[j])
    {
      assert (lo + mid)[i] == all[i] && (lo + mid)[j] == all[j];
    }
    forall i, j | 0 <= i < j < |lo|
      ensures Less(lo[i], lo[j])
    {
      assert lo[i] == all[i] && lo[j] == all[j];
    }
  }

  /**
   * A set made of the strings beginning below `c` (listed without
   * repetition in `lo`), those beginning with `c` (listed without repetition
   * in `mid`) and some beginning above `c`: the two lists' lengths count
   * its first-character classes.
   */
  lemma FirstCharBlocks(xs: set<string>, lo: seq<string>, mid: seq<string>, hi: set<string>, c: char)
    requires xs == Elems(lo) + Elems(mid) + hi
    requires Distinct(lo) && Distinct(mid)
    requires forall x | x in lo :: |x| > 0 && x[0] < c
    requires forall x | x in mid :: |x| > 0 && x[0] == c
    requires forall x | x in hi :: |x| > 0 && x[0] > c
    ensures |StartingBelow(xs, c)| == |lo|
    ensures |StartingWith(xs, c)| == |mid|
  {
    assert StartingBelow(xs, c) == Elems(lo);
    assert StartingWith(xs, c) == Elems(mid);
    DistinctCardinality(lo);
    DistinctCardinality(mid);
  }

  /** The strings of `Listing1` beginning with 'a', 'b' and 'c', in order. */
  const BlockA: seq<string> := ["a", "aa", "aab", "aac", "ab", "aba", "abc", "ac"]
  const BlockB: seq<string> := ["b", "ba", "bab", "baba", "bc"]
  const BlockC: seq<string> := ["c"]

  /** `Listing1` is the three blocks in turn, each and the first two together without repetition. */
  lemma Listing1IsBlocks()
    ensures Elems(Listing1) == Elems(BlockA) + Elems(BlockB) + Elems(BlockC)
    ensures Elems(BlockA + BlockB) == Elems(BlockA) + Elems(BlockB)
    ensures Distinct(BlockA) && Distinct(BlockB) && Distinct(BlockC) && Distinct(BlockA + BlockB)
  {
    assert Listing1 == BlockA + BlockB + BlockC;
    Listing1Sorted();
    SortedParts(BlockA, BlockB, BlockC);
    SortedIsDistinct(BlockA);
    SortedIsDistinct(BlockB);
    SortedIsDistinct(BlockA + BlockB);
  }

  /** Every string of a block begins with the block's character. */
  lemma BlockHeads()
    ensures forall x | x in BlockA :: |x| > 0 && x[0] == 'a'
    ensures forall x | x in BlockB :: |x| > 0 && x[0] == 'b'
    ensures forall x | x in BlockC :: |x| > 0 && x[0] == 'c'
  {
  }

  /** Eight strings of `Listing1` begin with 'a', none below it. */
  lemma Listing1ClassA()
    ensures |StartingBelow(Elems(Listing1), 'a')| == 0 && |StartingWith(Elems(Listing1), 'a')| == 8
  {
    Listing1IsBlocks();
    BlockHeads();
    FirstCharBlocks(Elems(Listing1), [], BlockA, Elems(BlockB) + Elems(BlockC), 'a');
  }

  /** Five strings of `Listing1` begin with 'b', eight below it. */
  lemma Listing1ClassB()
    ensures |StartingBelow(Elems(Listing1), 'b')| == 8 && |StartingWith(Elems(Listing1), 'b')| == 5
  {
    Listing1IsBlocks();
    BlockHeads();
    FirstCharBlocks(Elems(Listing1), BlockA, BlockB, Elems(BlockC), 'b');
  }

  /** One string of `Listing1` begins with 'c', thirteen below it. */
  lemma Listing1ClassC()
    ensures |StartingBelow(Elems(Listing1), 'c')| == 13 && |StartingWith(Elems(Listing1), 'c')| == 1
  {
    Listing1IsBlocks();
    BlockHeads();
    FirstCharBlocks(Elems(Listing1), BlockA + BlockB, BlockC, {}, 'c');
  }

  /** The one-character strings of `Listing1` are "a", "b" and "c". */
  lemma Listing1OneChar(c: char)
    requires [c] in Elems(Listing1)
    ensures c == 'a' || c == 'b' || c == 'c'
  {
    assert [c] in Listing1;
  }

  /**
   * `getPartition(root, k)` on a set holding exactly `Listing1`: rank `k`
   * falls in the 'a' block for `k` up to 8, the 'b' block for 9 to 13 and
   * the 'c' block for 14.
   */
  lemma Listing1Partition(t: SubstringSet, k: int)
    requires Valid(t) && Elements(t) == Elems(Listing1) && 1 <= k <= 14
    ensures var p := RankSelect.GetPartition(t.root, k);
      p.partition.Some? &&
      (k <= 8 ==> p.before == 0 && p.partition.value.ch == 'a' && p.partition.value.count == 8) &&
      (9 <= k <= 13 ==> p.before == 8 && p.partition.value.ch == 'b' && p.partition.value.count == 5) &&
      (k == 14 ==> p.before == 13 && p.partition.value.ch == 'c' && p.partition.value.count == 1)
  {
    Listing1Sorted();
    SortedIsDistinct(Listing1);
    DistinctCardinality(Listing1);
    CountIsCardinality(t.root, 0);
    assert SumCounts(t.root.children) == 14;
    RankSelect.PartitionByFirstChar(t.root, 0, k);
    Listing1ClassA();
    Listing1ClassB();
    Listing1ClassC();
    Listing1OneChar(RankSelect.GetPartition(t.root, k).partition.value.ch);
  }

  /** The five `getPartition` cases the tests check after TEST_SET_1, at ranks 12, 9, 13, 1 and 14. */
  lemma FindPartitions(s: SubstringSet)
    requires Empty(s)
    ensures var t := Insert(Insert(Insert(Insert(s, "aac").0, "abc").0, "aab").0, "baba").0;
      var p12 := RankSelect.GetPartition(t.root, 12);
      var p9 := RankSelect.GetPartition(t.root, 9);
      var p13 := RankSelect.GetPartition(t.root, 13);
      var p1 := RankSelect.GetPartition(t.root, 1);
      var p14 := RankSelect.GetPartition(t.root, 14);
      p12.partition.Some? && p12.before == 8 && p12.partition.value.ch == 'b' && p12.partition.value.count == 5 &&
      p9.partition.Some? && p9.before == 8 && p9.partition.value.ch == 'b' && p9.partition.value.count == 5 &&
      p13.partition.Some? && p13.before == 8 && p13.partition.value.ch == 'b' && p13.partition.value.count == 5 &&
      p1.partition.Some? && p1.before == 0 && p1.partition.value.ch == 'a' && p1.partition.value.count == 8 &&
      p14.partition.Some? && p14.before == 13 && p14.partition.value.ch == 'c' && p14.partition.value.count == 1
  {
    TestSet1Elements(s);
    var t := Insert(Insert(Insert(Insert(s, "aac").0, "abc").0, "aab").0, "baba").0;
    Listing1Partition(t, 12);
    Listing1Partition(t, 9);
    Listing1Partition(t, 13);
    Listing1Partition(t, 1);
    Listing1Partition(t, 14);
  }
}
