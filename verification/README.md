# Substring set: a size-augmented suffix trie

This project models `SubstringSet`, the core of the `findstrings` program, in
Dafny. The set holds every distinct non-empty substring of every string
inserted so far. It answers "the k-th smallest held substring in
lexicographic order" queries.

It is a trie of `SuffixTrieNode`s. Each node has a character label, children
kept in ascending label order (a `TreeMap`), and a `count` of the substrings
whose path ends at or below it. `insert(s)` inserts every suffix of `s`; the
prefixes of all suffixes are exactly the substrings of `s`. Each suffix goes
through the recursive `insertSuffixAt`, which creates missing children with
count 1 and passes the number of new nodes back up. `get(k)` / `find(k)` walks
down from the root. At each node, `getPartition` picks the child whose running
count first reaches the local rank.

The same class exists twice in the source: as `SubstringSet.java` and as the
nested class `Solution.SubstringSet` (`Solution.java` lines 60-253, with the
trie and its operations at 60-223), which the command-line driver runs. The two are the same algorithm, so the model is
written once. The table below cites both copies.

Modules, one per file:

- `Wrappers` (`wrappers.dfy`): `Option`, standing for Java's `null`.
- `SeqFacts` (`seq_facts.dfy`): small facts about slicing and splicing sequences.
- `StringOrder` (`string_order.dfy`): the order the trie enumerates in.
  - `Less` is defined by recursion on first characters, the way the trie
    branches; a prefix sorts before its extensions.
  - It is proved a strict total order.
  - It is proved equal to the textbook lexicographic order `LexBefore`.
  - Also: sorted listings, and rank (`Below`).
- `TrieNode` (`trie_node.dfy`): the node datatype and the two views of a node's contents.
  - `Paths` is the set of label strings below a node.
  - `Enum` is the same strings as a sequence, in the order the children are kept.
  - `Sized(n, own)` is the count invariant. A node's count is `own` plus the
    sum of its children's counts; `own` is 1 below the root and 0 at the root.
    Children's labels ascend.
- `Insertion` (`insertion.dfy`): `insertSuffixAt`, `insertSuffix` and
  `insertSuffixesOf`, as pure functions returning the new node and the number
  of substrings added.
- `RankSelect` (`rank_select.dfy`): `PartitionResult`, `getPartition` and `find`.
- `SubstringSets` (`substring_set.dfy`): the public `SubstringSet` API.
  - Operations: `new`, `insert`, `size`, `get`.
  - The set-level laws about them.
- `SubstringSetExamples` (`examples_of_use.dfy`): the scenarios of the unit
  tests in `src/test/java/SubstringSetTest.java`, stated for any valid empty
  set (`New()` is one, by `NewIsEmpty`).

## Model

| member | source | states |
|---|---|---|
| TrieNode.Node | src/main/java/SubstringSet.java:230-233 | `SuffixTrieNode`: a label, the children in ascending label order (the `TreeMap`), and the count |
| TrieNode.NewRoot | src/main/java/SubstringSet.java:101-103 | a fresh root has count 0 and holds no substring |
| TrieNode.NewRootSized | src/main/java/Solution.java:64-66 | a fresh root satisfies the count invariant (count equals the sum of its children's counts) |
| SubstringSets.SubstringSet | src/main/java/SubstringSet.java:97-99 | the set is its trie's root, the class's only field |
| SubstringSets.New | src/main/java/SubstringSet.java:101-103 | a new set holds nothing and its size is 0 |
| SubstringSets.NewIsValid | src/main/java/Solution.java:64-66 | a new set satisfies the count invariant, which every insertion then preserves |
| TrieNode.CreateFor | src/main/java/SubstringSet.java:239-241 | a created node has the given label and count 1, is well counted as a non-root node, and adds exactly the one-character path of its label |
| TrieNode.AccumulateCountBy | src/main/java/Solution.java:201-203 | only the count changes, by exactly `k`; label and children are untouched |
| TrieNode.CountIsCardinality | src/main/java/SubstringSet.java:230-237 | under the count invariant a node's count is `own` plus the number of distinct strings held below it; the root's count is the number of held substrings |
| TrieNode.ForestCardinality | src/main/java/Solution.java:196-203 | well-counted siblings' counts sum to the number of distinct paths below them |
| TrieNode.EnumMatchesPaths | src/main/java/Solution.java:196-199 | the in-order listing of a trie holds exactly the trie's path strings |
| TrieNode.EnumLength | src/main/java/SubstringSet.java:230-233 | for well-counted siblings, the in-order listing is as long as the sum of their counts |
| TrieNode.EnumSorted | src/main/java/SubstringSet.java:232 | because children are kept in ascending label order, the in-order listing is strictly ascending (so duplicate-free) |
| StringOrder.LessIsLexBefore | src/main/java/Solution.java:152-159 | the order of the descent (label first, a node's own string before its descendants) is exactly lexicographic order with a proper prefix first |
| StringOrder.LessTotal | src/main/java/SubstringSet.java:232 | any two distinct strings are ordered one way, as the `Character` keys of a `TreeMap` are |
| StringOrder.LessTransitive | src/main/java/SubstringSet.java:232 | the order is transitive |
| StringOrder.RankInSorted | src/main/java/SubstringSet.java:172-190 | in a strictly sorted listing exactly `i` elements lie below the `i`-th, so position is rank |
| Insertion.Locate | src/main/java/SubstringSet.java:151-156 | the `TreeMap` lookup and insertion point: all earlier keys are smaller and the key at the position, if any, is not smaller |
| Insertion.InsertSuffixAt | src/main/java/SubstringSet.java:143-167 | an exhausted remainder (`idx > en`) gives back the node unchanged and 0; otherwise the label is kept, the count grows by exactly the returned number, at most one node per remaining character is added, and a node is unchanged when nothing was added |
| Insertion.InsertSuffixAtContents | src/main/java/SubstringSet.java:143-167 | after the insertion the node holds what it held plus every prefix of `buf[idx..en]` |
| Insertion.InsertSuffixAtCountsNew | src/main/java/Solution.java:114-138 | on a well-counted node the returned number is exactly how many prefixes of the remainder were not held before, i.e. the number of nodes created |
| Insertion.InsertSuffixAtSized | src/main/java/Solution.java:114-138 | insertion preserves the count invariant: created nodes start at 1 and every node on the path accumulates what was added below it |
| Insertion.InsertSuffix | src/main/java/SubstringSet.java:133-135 | inserting a whole string as one suffix adds exactly its prefixes, keeps the root well counted and returns the number of prefixes that are new |
| Insertion.InsertSuffixesFrom | src/main/java/Solution.java:97-101 | the loop from start index `i`: the root's count grows by the summed results, and nothing changes when the sum is 0 |
| Insertion.InsertSuffixesFromContents | src/main/java/SubstringSet.java:126-129 | the loop adds exactly the prefixes of the suffixes starting at `i` or later |
| Insertion.InsertSuffixesFromSized | src/main/java/Solution.java:95-101 | the loop keeps the root well counted |
| Insertion.InsertSuffixesFromCountsNew | src/main/java/SubstringSet.java:123-131 | the summed result is the number of substrings from position `i` on that were not held before |
| Insertion.InsertSuffixesOf | src/main/java/Solution.java:86-102 | the empty string changes nothing and returns 0; otherwise the root afterwards holds its old contents plus every substring of `s`, stays well counted, and the result is the number of substrings of `s` not held before |
| SubstringSets.Insert | src/main/java/SubstringSet.java:108-110 | `insert(s)` adds exactly the substrings of `s`, keeps the invariant, returns how many were new, and `size()` grows by exactly that number |
| SubstringSets.Size | src/main/java/SubstringSet.java:112-114 | on a valid set `size()`, the root's count, is the number of distinct substrings held |
| SubstringSets.InsertAll | src/main/java/Solution.java:30-35 | inserting the driver's input lines in turn gives the union of their substrings, and the size is that union's cardinality |
| SubstringSets.InsertEmptyAddsNothing | src/main/java/SubstringSet.java:126 | the suffix loop does not run for the empty string: nothing is added and the set is unchanged |
| SubstringSets.InsertTwiceAddsNothing | src/main/java/Solution.java:71-73 | inserting the same string again returns 0 and leaves the set as it was |
| SubstringSets.InsertOrderIrrelevant | src/main/java/SubstringSet.java:108-110 | two insertions in either order give the same elements and the same size |
| RankSelect.PartitionResult | src/main/java/Solution.java:178-191 | `PartitionResult`: the number of substrings before the chosen child, and the child, absent where Java has `null` |
| RankSelect.Scan | src/main/java/SubstringSet.java:193-204 | the scan gives no partition exactly when there are no children or their counts sum below `k`, and then the full sum; otherwise it gives the first child whose running count reaches `k`, with the sum of the counts before it |
| RankSelect.GetPartition | src/main/java/Solution.java:163-176 | `getPartition(n, k)`: null exactly when `k` exceeds the children's total (or there are none), then with the full sum; otherwise the first child whose cumulative count reaches `k` with the strict prefix sum before it; `k <= 0` picks the first child with 0 before |
| RankSelect.PartitionByFirstChar | src/main/java/SubstringSet.java:192-205 | on a well-counted node and `1 <= k <=` the children's total, the partition is the child labelled `c`; `before` counts the held strings beginning below `c`, the child's count is the number beginning with `c`, and rank `k` lies in that block |
| RankSelect.ChildIsFirstCharClass | src/main/java/Solution.java:165-168 | among ascending siblings, a child holds exactly the strings beginning with its label, and the earlier siblings exactly those beginning with a smaller character |
| RankSelect.Find | src/main/java/SubstringSet.java:172-175 | `find(order)` is null when `order < 1` or `order > size()` |
| RankSelect.Descend | src/main/java/SubstringSet.java:181-189 | the loop of `find`: rank 1 gives the node's label alone; any answer begins with the node's label; a rank below 1 gives no answer (Java would run down to a leaf and dereference null). What the descent computes on a well-counted node is stated by `RankSelect.DescendSelects` |
| RankSelect.DescendSelects | src/main/java/Solution.java:152-160 | below a well-counted node, the descent with local rank `k` returns the `k`-th string of that node's in-order listing: its label alone at `k == 1`, else the partition for `k - 1` with `k` reduced by `before + 1` |
| RankSelect.FindSelects | src/main/java/Solution.java:147-160 | from the root partition with `k = order - before`, `find(order)` is the `order`-th string of the in-order listing of the root's children |
| RankSelect.FindIsKthSmallest | src/main/java/SubstringSet.java:172-190 | on a valid trie, `find(order)` answers exactly for `1 <= order <= size()`, with a held substring that has exactly `order - 1` held substrings below it |
| RankSelect.FindEnumeratesInOrder | src/main/java/Solution.java:143-161 | ranks `1..size()` all answer, larger ranks give strictly larger substrings, and every held substring is the answer for some rank |
| SubstringSets.Get | src/main/java/SubstringSet.java:116-118 | `get(k)` is null outside `1..size()`; on a valid set it answers exactly inside that range, with a member that has `k - 1` members below it |
| SubstringSets.GetIsTheMemberOfRank | src/main/java/Solution.java:79-81 | any member with exactly `k - 1` members below it is `get(k)` |
| SubstringSets.GetFromSortedListing | src/main/java/SubstringSet.java:116-118 | a valid set holding exactly the strings of a strictly ascending list has the list's length as size, answers `get(k)` with the list's `k`-th string, and answers null outside the list |
| SubstringSetExamples.NewIsEmpty | src/main/java/SubstringSet.java:101-103 | a new set is valid and empty, the starting point of every scenario |
| SubstringSetExamples.InsertA | src/test/java/SubstringSetTest.java:30-34 | inserting "a" gives size 1 |
| SubstringSetExamples.InsertAAb | src/test/java/SubstringSetTest.java:36-42 | "a", "ab" gives {a, ab, b}, size 3 |
| SubstringSetExamples.InsertAAbBa | src/test/java/SubstringSetTest.java:44-51 | "a", "ab", "ba" gives size 4 |
| SubstringSetExamples.InsertAAbBaBad | src/test/java/SubstringSetTest.java:53-61 | "a", "ab", "ba", "bad" gives size 7 |
| SubstringSetExamples.InsertATwice | src/test/java/SubstringSetTest.java:63-69 | "a" twice gives size 1 |
| SubstringSetExamples.InsertAaTwice | src/test/java/SubstringSetTest.java:71-77 | "aa" twice gives size 2 |
| SubstringSetExamples.InsertAab | src/test/java/SubstringSetTest.java:79-84 | "aab" gives size 5: the repeated "a" counts once |
| SubstringSetExamples.TestSet1Elements | src/test/java/SubstringSetTest.java:11-16 | inserting "aac", "abc", "aab", "baba" holds exactly the 14 strings of `Listing1` |
| SubstringSetExamples.TestSet2Elements | src/test/java/SubstringSetTest.java:18-21 | inserting "aac", "aab" holds exactly the 8 strings of `Listing2` |
| SubstringSetExamples.Listing1Sorted | src/test/java/SubstringSetTest.java:141-151 | `Listing1` is in strictly ascending order |
| SubstringSetExamples.FindKth1 | src/test/java/SubstringSetTest.java:141-151 | after the first test set, size 14 and `find` 13, 11, 9, 1, 14, 8 give "bc", "bab", "b", "a", "c", "ac" |
| SubstringSetExamples.FindKth2 | src/test/java/SubstringSetTest.java:153-160 | after the second test set, size 8, `find(3)` is "aab", `find(8)` is "c", `find(23)` is null |
| SubstringSetExamples.Listing1Partition | src/main/java/SubstringSet.java:192-205 | on a valid set holding exactly `Listing1`, the root partition for ranks 1-8 is 'a' (0 before, count 8), for 9-13 'b' (8 before, count 5), for 14 'c' (13 before, count 1) |
| SubstringSetExamples.FindPartitions | src/test/java/SubstringSetTest.java:86-139 | after the first test set, `getPartition(root, k)` for k = 12, 9, 13 gives 8 before and 'b' with count 5; k = 1 gives 0 and 'a' with 8; k = 14 gives 13 and 'c' with 1 |

## Left out

- `Solution.main` (`src/main/java/Solution.java:15-58`): reading standard input, printing "INVALID" for a null answer, timing, and printing exceptions. Only its loop of insertions is modelled, as `SubstringSets.InsertAll`.
- The debug printers `show`, `visitDfs` and `visitBfs` (`src/main/java/SubstringSet.java:264-288`, `src/main/java/Solution.java:228-252`): they only print and change no state.
- The commented-out first pass of `insertSuffixesOf` (`src/main/java/Solution.java:87-94`), and the Lombok annotations and commented-out accessors (`src/main/java/SubstringSet.java:207-259`). Fields are read directly.
- Java `int` overflow: counts, ranks and results are unbounded `nat`/`int`. The source's counts would wrap past 2^31 - 1 substrings.
- UTF-16 and `String`/`StringBuilder` internals: strings are `seq<char>` of Unicode scalar values, ordered by code point. This matches Java only for text without supplementary characters (above U+FFFF). Java stores such a character as two surrogate `char`s, so inserting one character builds two trie levels and returns 3, where the model returns 1. Java's code-unit order also puts surrogates before U+E000-U+FFFF, while code-point order puts them after.
- `TreeMap`: a node's children are a sequence kept strictly ascending by label. `Insertion.Locate` is a linear search standing in for the map's lookup and insertion point. Complexity is not modelled.
- The root's sentinel label '.': `NewRoot` uses it, but `find` never emits it, since the descent starts at a child of the root.
- `insertSuffix(char[], int, int)` (`src/main/java/SubstringSet.java:137-140`): a one-line delegation to `insertSuffixAt(root, ...)`. `InsertSuffixesFrom` calls `InsertSuffixAt` on the root directly. Its Java `assert(st <= en)` always holds in the loop and is not modelled.
- Mutation: the Java trie is updated in place. Here insertion returns a new trie, and `find`/`getPartition` are pure functions, so `find` cannot modify the trie.
- A null partition inside `find`'s loop would be dereferenced and throw. In the model `Descend` returns `None` there. `DescendSelects` proves this cannot happen on a well-counted trie.
- `insertSuffixAt` reading outside `buf`: the model requires `idx > en` or `0 <= idx && en < |buf|`, which every caller meets. Java would throw `ArrayIndexOutOfBoundsException` otherwise.
- TrieNode.NewRoot: the count invariant of the fresh root is stated by the separate lemma `TrieNode.NewRootSized`, not in `NewRoot`'s own contract.
- SubstringSets.New: validity of the new set is stated by the separate lemma `SubstringSets.NewIsValid`, not in `New`'s own contract.
- SubstringSetExamples: the unit-test scenarios are stated for every valid empty set (`Empty(s)`). `NewIsEmpty` shows `New()` is one, rather than each scenario starting from the literal `New()`.
- SubstringSetExamples.InsertAAbBaBad, InsertATwice, InsertAaTwice and InsertAab state only the final size the tests check, not the element sets.
