/**
 * The order in which the trie enumerates strings: lexicographic by `char`
 * value, a proper prefix sorting before its extensions. For text without
 * supplementary characters this is the order of Java's `String.compareTo`, and
 * of `TreeMap<Character, _>` one level at a time.
 */
module StringOrder {

  /** Strict lexicographic order on strings. */
  ghost predicate Less(a: string, b: string)
    decreases |a|
  {
    if |a| == 0 then |b| > 0
    else if |b| == 0 then false
    else a[0] < b[0] || (a[0] == b[0] && Less(a[1..], b[1..]))
  }

  lemma {:induction false} LessIrreflexive(a: string)
    ensures !Less(a, a)
    decreases |a|
  {
    if |a| > 0 {
      LessIrreflexive(a[1..]);
    }
  }

  lemma {:induction false} LessTransitive(a: string, b: string, c: string)
    requires Less(a, b) && Less(b, c)
    ensures Less(a, c)
    decreases |a|
  {
    if |a| > 0 && a[0] == b[0] && b[0] == c[0] {
      LessTransitive(a[1..], b[1..], c[1..]);
    }
  }

  lemma LessAsymmetric(a: string, b: string)
    requires Less(a, b)
    ensures !Less(b, a)
  {
    if Less(b, a) {
      LessTransitive(a, b, a);
      LessIrreflexive(a);
    }
  }

  lemma {:induction false} LessTotal(a: string, b: string)
    ensures a == b || Less(a, b) || Less(b, a)
    decreases |a|
  {
    if |a| > 0 && |b| > 0 && a[0] == b[0] {
      LessTotal(a[1..], b[1..]);
      if a[1..] == b[1..] {
        assert a == [a[0]] + a[1..] && b == [b[0]] + b[1..];
      }
    }
  }

  /** Putting the same character in front of two strings keeps their order. */
  lemma LessCons(c: char, a: string, b: string)
    ensures Less([c] + a, [c] + b) <==> Less(a, b)
  {
    assert ([c] + a)[1..] == a && ([c] + b)[1..] == b;
  }

  /**
   * The textbook description of the same order: `a` is a proper prefix of
   * `b`, or `a` has the smaller character at the first position where the
   * two differ.
   */
  ghost predicate LexBefore(a: string, b: string)
  {
    (|a| < |b| && a == b[..|a|]) ||
    exists i :: 0 <= i < |a| && i < |b| && a[..i] == b[..i] && a[i] < b[i]
  }

  /** `Less` is exactly the textbook lexicographic order. */
  lemma LessIsLexBefore(a: string, b: string)
    ensures Less(a, b) <==> LexBefore(a, b)
  {
    if Less(a, b) {
      LessLexBefore(a, b);
    }
    if LexBefore(a, b) {
      LexBeforeLess(a, b);
    }
  }

  lemma {:induction false} LessLexBefore(a: string, b: string)
    requires Less(a, b)
    ensures LexBefore(a, b)
    decreases |a|
  {
    if |a| == 0 {
      assert a == b[..0];
    } else if a[0] < b[0] {
      assert a[..0] == b[..0];
    } else {
      var a', b' := a[1..], b[1..];
      LessLexBefore(a', b');
      if |a'| < |b'| && a' == b'[..|a'|] {
        assert a == [a[0]] + a' && b[..|a|] == [b[0]] + b'[..|a'|];
      } else {
        var i :| 0 <= i < |a'| && i < |b'| && a'[..i] == b'[..i] && a'[i] < b'[i];
        assert a[..i + 1] == [a[0]] + a'[..i] && b[..i + 1] == [b[0]] + b'[..i];
        assert a[i + 1] < b[i + 1];
      }
    }
  }

  lemma {:induction false} LexBeforeLess(a: string, b: string)
    requires LexBefore(a, b)
    ensures Less(a, b)
    decreases |a|
  {
    if |a| < |b| && a == b[..|a|] {
      if |a| > 0 {
        assert a[0] == b[0];
        assert a[1..] == b[1..][..|a| - 1];
        LexBeforeLess(a[1..], b[1..]);
      }
    } else {
      var i :| 0 <= i < |a| && i < |b| && a[..i] == b[..i] && a[i] < b[i];
      if i > 0 {
        assert a[0] == b[0] by {
          assert a[..i][0] == a[0] && b[..i][0] == b[0];
        }
        assert a[1..][..i - 1] == b[1..][..i - 1];
        assert a[1..][i - 1] < b[1..][i - 1];
        LexBeforeLess(a[1..], b[1..]);
      }
    }
  }

  /** A proper prefix sorts first. */
  lemma LessByPrefix(a: string, b: string)
    requires |a| < |b| && a == b[..|a|]
    ensures Less(a, b)
  {
    LessIsLexBefore(a, b);
  }

  /** Equal up to position `i`, smaller at `i`: sorts first. */
  lemma LessAt(a: string, b: string, i: int)
    requires 0 <= i < |a| && i < |b| && a[..i] == b[..i] && a[i] < b[i]
    ensures Less(a, b)
  {
    LessIsLexBefore(a, b);
  }

  /** Each element strictly below every later one. */
  ghost predicate StrictlySorted(s: seq<string>)
  {
    forall i, j :: 0 <= i < j < |s| ==> Less(s[i], s[j])
  }

  /** Each string less than the next is enough for the whole list to be strictly sorted. */
  lemma {:induction false} ChainSorted(s: seq<string>)
    requires forall i :: 0 <= i < |s| - 1 ==> Less(s[i], s[i + 1])
    ensures StrictlySorted(s)
    decreases |s|
  {
    if |s| > 1 {
      var t := s[1..];
      assert forall i :: 0 <= i < |t| - 1 ==> Less(t[i], t[i + 1]) by {
        forall i | 0 <= i < |t| - 1
          ensures Less(t[i], t[i + 1])
        {
          assert t[i] == s[i + 1] && t[i + 1] == s[i + 2];
        }
      }
      ChainSorted(t);
      forall i, j | 0 <= i < j < |s|
        ensures Less(s[i], s[j])
      {
        if i == 0 && j > 1 {
          assert s[1] == t[0] && s[j] == t[j - 1];
          LessTransitive(s[0], s[1], s[j]);
        } else if i > 0 {
          assert s[i] == t[i - 1] && s[j] == t[j - 1];
        }
      }
    }
  }

  ghost predicate Distinct(s: seq<string>)
  {
    forall i, j :: 0 <= i < j < |s| ==> s[i] != s[j]
  }

  lemma SortedIsDistinct(s: seq<string>)
    requires StrictlySorted(s)
    ensures Distinct(s)
  {
    forall i, j | 0 <= i < j < |s|
      ensures s[i] != s[j]
    {
      LessIrreflexive(s[i]);
    }
  }

  /** A sequence without repetitions has as many elements as its set. */
  lemma {:induction false} DistinctCardinality(s: seq<string>)
    requires Distinct(s)
    ensures |Elems(s)| == |s|
  {
    if |s| > 0 {
      var init := s[..|s| - 1];
      assert Distinct(init);
      DistinctCardinality(init);
      assert Elems(s) == Elems(init) + {s[|s| - 1]};
      assert s[|s| - 1] !in init;
    }
  }

  /** The elements of a sequence, as a set. */
  ghost function Elems(s: seq<string>): set<string>
  {
    set x | x in s
  }

  /** The members of `xs` that sort strictly below `y`. */
  ghost function Below(xs: set<string>, y: string): set<string>
  {
    set x | x in xs && Less(x, y)
  }

  /**
   * In a strictly sorted sequence exactly `i` elements lie below `s[i]`:
   * the position of an element is its rank.
   */
  lemma RankInSorted(s: seq<string>, i: int)
    requires StrictlySorted(s)
    requires 0 <= i < |s|
    ensures |Below(Elems(s), s[i])| == i
  {
    forall x | x in Below(Elems(s), s[i])
      ensures x in Elems(s[..i])
    {
      var j :| 0 <= j < |s| && s[j] == x;
      if j == i {
        LessIrreflexive(x);
      } else if j > i {
        LessAsymmetric(s[i], s[j]);
      }
    }
    forall x | x in Elems(s[..i])
      ensures x in Below(Elems(s), s[i])
    {
      var j :| 0 <= j < i && s[j] == x;
    }
    assert Below(Elems(s), s[i]) == Elems(s[..i]);
    SortedIsDistinct(s);
    assert Distinct(s[..i]);
    DistinctCardinality(s[..i]);
  }
}
