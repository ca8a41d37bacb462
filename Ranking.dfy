/** The result ordering shared by both search workers: words are ranked by
    length, longest first, and words of equal length in ascending order.
    The comparator is `(a, b) => b.length - a.length || a.localeCompare(b)`;
    `localeCompare` is modelled as ordinal comparison of characters, which agrees
    with the locale order for the upper-case letters the games use. */
module Ranking {

  /** Ordinal three-way comparison of two strings: -1, 0 or 1. */
  function LexCompare(a: string, b: string): (r: int)
    ensures -1 <= r <= 1
  {
    if a == [] && b == [] then 0
    else if a == [] then -1
    else if b == [] then 1
    else if a[0] < b[0] then -1
    else if b[0] < a[0] then 1
    else LexCompare(a[1..], b[1..])
  }

  /** The sort comparator of both workers: negative when `a` ranks before `b`. */
  function Compare(a: string, b: string): int
  {
    if |b| != |a| then |b| - |a| else LexCompare(a, b)
  }

  /** `a` ranks strictly before `b`. */
  predicate Precedes(a: string, b: string)
  {
    Compare(a, b) < 0
  }

  lemma {:induction false} LexCompareZero(a: string, b: string)
    ensures LexCompare(a, b) == 0 <==> a == b
  {
    if a != [] && b != [] && a[0] == b[0] {
      LexCompareZero(a[1..], b[1..]);
      assert a == [a[0]] + a[1..] && b == [b[0]] + b[1..];
    }
  }

  lemma {:induction false} LexCompareAntisymmetric(a: string, b: string)
    ensures LexCompare(a, b) == -LexCompare(b, a)
  {
    if a != [] && b != [] && a[0] == b[0] {
      LexCompareAntisymmetric(a[1..], b[1..]);
    }
  }

  lemma {:induction false} LexCompareTransitive(a: string, b: string, c: string)
    requires LexCompare(a, b) <= 0 && LexCompare(b, c) <= 0
    ensures LexCompare(a, c) <= 0
  {
    if a != [] && b != [] && c != [] && a[0] == b[0] && b[0] == c[0] {
      LexCompareTransitive(a[1..], b[1..], c[1..]);
    }
  }

  /** The comparator is a total order: zero exactly on equal strings,
      antisymmetric, and transitive. */
  lemma CompareIsTotalOrder(a: string, b: string, c: string)
    ensures Compare(a, b) == 0 <==> a == b
    ensures Compare(a, b) < 0 <==> Compare(b, a) > 0
    ensures Compare(a, b) <= 0 && Compare(b, c) <= 0 ==> Compare(a, c) <= 0
  {
    LexCompareZero(a, b);
    LexCompareAntisymmetric(a, b);
    if Compare(a, b) <= 0 && Compare(b, c) <= 0 && |a| == |b| == |c| {
      LexCompareTransitive(a, b, c);
    }
  }

  /** Ranking before means longer, or of equal length and ordinally smaller. */
  lemma PrecedesMeaning(a: string, b: string)
    ensures Precedes(a, b) <==> |a| > |b| || (|a| == |b| && LexCompare(a, b) < 0)
  {
  }

  /** `s` is in ranking order by `key` (equal keys may sit side by side). */
  ghost predicate SortedByRank<T>(s: seq<T>, key: T -> string)
  {
    forall i, j :: 0 <= i < j < |s| ==> Compare(key(s[i]), key(s[j])) <= 0
  }

  /** Places `x` before the first element it ranks strictly before. */
  function InsertByRank<T>(x: T, s: seq<T>, key: T -> string): seq<T>
  {
    if s == [] then [x]
    else if Compare(key(x), key(s[0])) < 0 then [x] + s
    else [s[0]] + InsertByRank(x, s[1..], key)
  }

  /** A stable insertion sort: the model of `Array.prototype.sort` with the
      comparator above. */
  function SortByRank<T>(s: seq<T>, key: T -> string): seq<T>
  {
    if s == [] then [] else InsertByRank(s[|s| - 1], SortByRank(s[..|s| - 1], key), key)
  }

  lemma {:induction false} InsertByRankElements<T>(x: T, s: seq<T>, key: T -> string)
    ensures multiset(InsertByRank(x, s, key)) == multiset(s) + multiset{x}
    ensures forall y :: y in InsertByRank(x, s, key) ==> y == x || y in s
  {
    if s != [] && Compare(key(x), key(s[0])) >= 0 {
      InsertByRankElements(x, s[1..], key);
      assert s == [s[0]] + s[1..];
    }
  }

  /** Every element of `s` ranks no earlier than `y`. */
  ghost predicate RanksBeforeAll<T>(y: T, s: seq<T>, key: T -> string)
  {
    forall j :: 0 <= j < |s| ==> Compare(key(y), key(s[j])) <= 0
  }

  lemma SortedTail<T>(s: seq<T>, key: T -> string)
    requires s != [] && SortedByRank(s, key)
    ensures SortedByRank(s[1..], key) && RanksBeforeAll(s[0], s[1..], key)
  {
    forall i, j | 0 <= i < j < |s[1..]| ensures Compare(key(s[1..][i]), key(s[1..][j])) <= 0 {
      assert s[1..][i] == s[i + 1] && s[1..][j] == s[j + 1];
    }
  }

  lemma SortedCons<T>(y: T, s: seq<T>, key: T -> string)
    requires SortedByRank(s, key) && RanksBeforeAll(y, s, key)
    ensures SortedByRank([y] + s, key)
  {
    var r := [y] + s;
    forall i, j | 0 <= i < j < |r| ensures Compare(key(r[i]), key(r[j])) <= 0 {
      if i > 0 {
        assert r[i] == s[i - 1] && r[j] == s[j - 1];
      }
    }
  }

  lemma {:induction false} InsertByRankSorted<T>(x: T, s: seq<T>, key: T -> string)
    requires SortedByRank(s, key)
    ensures SortedByRank(InsertByRank(x, s, key), key)
  {
    if s == [] {
    } else if Compare(key(x), key(s[0])) < 0 {
      SortedTail(s, key);
      forall j | 0 <= j < |s| ensures Compare(key(x), key(s[j])) <= 0 {
        if j > 0 {
          assert s[j] == s[1..][j - 1];
          CompareIsTotalOrder(key(x), key(s[0]), key(s[j]));
        }
      }
      SortedCons(x, s, key);
    } else {
      SortedTail(s, key);
      var t := InsertByRank(x, s[1..], key);
      InsertByRankSorted(x, s[1..], key);
      InsertByRankElements(x, s[1..], key);
      forall j | 0 <= j < |t| ensures Compare(key(s[0]), key(t[j])) <= 0 {
        assert t[j] in t;
        if t[j] == x {
          CompareIsTotalOrder(key(x), key(s[0]), key(s[0]));
        } else {
          var k :| 0 <= k < |s[1..]| && s[1..][k] == t[j];
        }
      }
      SortedCons(s[0], t, key);
    }
  }

  /** Sorting yields a permutation of its input, in ranking order. */
  lemma {:induction false} SortByRankCorrect<T>(s: seq<T>, key: T -> string)
    ensures multiset(SortByRank(s, key)) == multiset(s)
    ensures SortedByRank(SortByRank(s, key), key)
  {
    if s != [] {
      var init := s[..|s| - 1];
      SortByRankCorrect(init, key);
      InsertByRankElements(s[|s| - 1], SortByRank(init, key), key);
      InsertByRankSorted(s[|s| - 1], SortByRank(init, key), key);
      assert s == init + [s[|s| - 1]];
    }
  }

  /** A ranking-ordered sequence whose keys are pairwise distinct is ordered
      strictly: every earlier key ranks before every later one. */
  lemma SortedDistinctIsStrict<T>(s: seq<T>, key: T -> string)
    requires SortedByRank(s, key)
    requires forall i, j :: 0 <= i < j < |s| ==> key(s[i]) != key(s[j])
    ensures forall i, j :: 0 <= i < j < |s| ==> Precedes(key(s[i]), key(s[j]))
  {
    forall i, j | 0 <= i < j < |s| ensures Precedes(key(s[i]), key(s[j])) {
      CompareIsTotalOrder(key(s[i]), key(s[j]), key(s[j]));
    }
  }
  /** No two elements of `s` share a key. */
  ghost predicate DistinctBy<T>(s: seq<T>, key: T -> string)
  {
    forall i, j :: 0 <= i < j < |s| ==> key(s[i]) != key(s[j])
  }

  lemma {:induction false} InsertByRankDistinct<T>(x: T, s: seq<T>, key: T -> string)
    requires DistinctBy(s, key) && forall y :: y in s ==> key(y) != key(x)
    ensures DistinctBy(InsertByRank(x, s, key), key)
  {
    if s != [] && Compare(key(x), key(s[0])) >= 0 {
      InsertByRankDistinct(x, s[1..], key);
      InsertByRankElements(x, s[1..], key);
      var t := InsertByRank(x, s[1..], key);
      var r := [s[0]] + t;
      forall i, j | 0 <= i < j < |r| ensures key(r[i]) != key(r[j]) {
        if i == 0 {
          assert r[j] in t;
          if r[j] != x {
            var k :| 0 <= k < |s[1..]| && s[1..][k] == r[j];
            assert s[k + 1] == r[j];
          }
        } else {
          assert r[i] == t[i - 1] && r[j] == t[j - 1];
        }
      }
    } else if s != [] {
      var r := [x] + s;
      forall i, j | 0 <= i < j < |r| ensures key(r[i]) != key(r[j]) {
        if i == 0 {
          assert r[j] in s;
        } else {
          assert r[i] == s[i - 1] && r[j] == s[j - 1];
        }
      }
    }
  }

  /** Sorting keeps exactly the elements of its input. */
  lemma SortByRankElements<T>(s: seq<T>, key: T -> string)
    ensures forall y :: y in SortByRank(s, key) <==> y in s
  {
    SortByRankCorrect(s, key);
    forall y ensures y in SortByRank(s, key) <==> y in s {
      assert y in SortByRank(s, key) <==> y in multiset(SortByRank(s, key));
      assert y in s <==> y in multiset(s);
    }
  }

  lemma {:induction false} SortByRankDistinct<T>(s: seq<T>, key: T -> string)
    requires DistinctBy(s, key)
    ensures DistinctBy(SortByRank(s, key), key)
  {
    if s != [] {
      var init := s[..|s| - 1];
      var x := s[|s| - 1];
      SortByRankDistinct(init, key);
      SortByRankCorrect(init, key);
      forall y | y in SortByRank(init, key) ensures key(y) != key(x) {
        assert y in multiset(SortByRank(init, key));
        assert y in init;
        var k :| 0 <= k < |init| && init[k] == y;
        assert s[k] == y;
      }
      InsertByRankDistinct(x, SortByRank(init, key), key);
    }
  }

  /** Sorting a sequence whose keys are pairwise distinct gives a permutation
      of it in which every earlier key ranks strictly before every later one. */
  lemma SortByRankStrict<T>(s: seq<T>, key: T -> string)
    requires DistinctBy(s, key)
    ensures multiset(SortByRank(s, key)) == multiset(s)
    ensures forall i, j :: 0 <= i < j < |SortByRank(s, key)| ==>
      Precedes(key(SortByRank(s, key)[i]), key(SortByRank(s, key)[j]))
  {
    SortByRankCorrect(s, key);
    SortByRankDistinct(s, key);
    SortedDistinctIsStrict(SortByRank(s, key), key);
  }
}
