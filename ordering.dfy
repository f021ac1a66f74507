/** Total orders, the lexicographic order they induce on sequences, and a
    sort whose result depends only on the multiset it is given. */
module Ordering {

  /** `le` is a total order: total (hence reflexive), antisymmetric and transitive. */
  ghost predicate TotalOrder<T(!new)>(le: (T, T) -> bool) {
    && (forall x, y :: le(x, y) || le(y, x))
    && (forall x, y :: le(x, y) && le(y, x) ==> x == y)
    && (forall x, y, z :: le(x, y) && le(y, z) ==> le(x, z))
  }

  predicate Sorted<T>(s: seq<T>, le: (T, T) -> bool) {
    forall i, j :: 0 <= i < j < |s| ==> le(s[i], s[j])
  }

  /** Lexicographic extension of `le`: a proper prefix comes first, otherwise
      the first position where the sequences differ decides. */
  predicate LexLe<T(==)>(le: (T, T) -> bool, a: seq<T>, b: seq<T>)
    decreases |a|
  {
    |a| == 0 || (|b| > 0 && if a[0] == b[0] then LexLe(le, a[1..], b[1..]) else le(a[0], b[0]))
  }

  lemma {:induction false} LexLeTotal<T(!new)>(le: (T, T) -> bool, a: seq<T>, b: seq<T>)
    requires TotalOrder(le)
    ensures LexLe(le, a, b) || LexLe(le, b, a)
    decreases |a|
  {
    if |a| > 0 && |b| > 0 && a[0] == b[0] {
      LexLeTotal(le, a[1..], b[1..]);
    }
  }

  lemma {:induction false} LexLeAntisymmetric<T(!new)>(le: (T, T) -> bool, a: seq<T>, b: seq<T>)
    requires TotalOrder(le)
    requires LexLe(le, a, b) && LexLe(le, b, a)
    ensures a == b
    decreases |a|
  {
    if |a| > 0 {
      assert a[0] == b[0];
      LexLeAntisymmetric(le, a[1..], b[1..]);
      assert a == [a[0]] + a[1..] && b == [b[0]] + b[1..];
    }
  }

  lemma {:induction false} LexLeTransitive<T(!new)>(le: (T, T) -> bool, a: seq<T>, b: seq<T>, c: seq<T>)
    requires TotalOrder(le)
    requires LexLe(le, a, b) && LexLe(le, b, c)
    ensures LexLe(le, a, c)
    decreases |a|
  {
    if |a| > 0 && a[0] == b[0] && b[0] == c[0] {
      LexLeTransitive(le, a[1..], b[1..], c[1..]);
    }
  }

  /** The lexicographic extension of a total order is a total order. */
  lemma LexLeTotalOrder<T(!new)>(le: (T, T) -> bool, lex: (seq<T>, seq<T>) -> bool)
    requires TotalOrder(le)
    requires forall a, b :: lex(a, b) == LexLe(le, a, b)
    ensures TotalOrder(lex)
  {
    forall a, b ensures lex(a, b) || lex(b, a) {
      LexLeTotal(le, a, b);
    }
    forall a, b | lex(a, b) && lex(b, a) ensures a == b {
      LexLeAntisymmetric(le, a, b);
    }
    forall a, b, c | lex(a, b) && lex(b, c) ensures lex(a, c) {
      LexLeTransitive(le, a, b, c);
    }
  }

  /** Inserts `x` into `s` before the first element it is ordered before. */
  function Insert<T>(x: T, s: seq<T>, le: (T, T) -> bool): (r: seq<T>)
    ensures multiset(r) == multiset(s) + multiset{x}
  {
    if s == [] then [x]
    else if le(x, s[0]) then [x] + s
    else
      assert s == [s[0]] + s[1..];
      [s[0]] + Insert(x, s[1..], le)
  }

  /** Insertion sort: the reference for every sort in the model. */
  function Sort<T>(s: seq<T>, le: (T, T) -> bool): (r: seq<T>)
    ensures multiset(r) == multiset(s)
  {
    if s == [] then []
    else
      assert s == [s[0]] + s[1..];
      Insert(s[0], Sort(s[1..], le), le)
  }

  /** An element at most every element of a sorted sequence can be put in front of it. */
  lemma SortedCons<T>(x: T, s: seq<T>, le: (T, T) -> bool)
    requires Sorted(s, le)
    requires forall i :: 0 <= i < |s| ==> le(x, s[i])
    ensures Sorted([x] + s, le)
  {
    var r := [x] + s;
    forall i, j | 0 <= i < j < |r| ensures le(r[i], r[j]) {
      assert r[j] == s[j - 1];
      if i > 0 {
        assert r[i] == s[i - 1];
      }
    }
  }

  lemma {:induction false} InsertSorted<T(!new)>(x: T, s: seq<T>, le: (T, T) -> bool)
    requires TotalOrder(le) && Sorted(s, le)
    ensures Sorted(Insert(x, s, le), le)
  {
    if s == [] {
    } else if le(x, s[0]) {
      forall i | 0 <= i < |s| ensures le(x, s[i]) {
        if i > 0 {
          assert le(s[0], s[i]);
        }
      }
      SortedCons(x, s, le);
    } else {
      var tail := Insert(x, s[1..], le);
      assert Sorted(s[1..], le) by {
        forall i, j | 0 <= i < j < |s| - 1 ensures le(s[1..][i], s[1..][j]) {
          assert s[1..][i] == s[i + 1] && s[1..][j] == s[j + 1];
        }
      }
      InsertSorted(x, s[1..], le);
      forall i | 0 <= i < |tail| ensures le(s[0], tail[i]) {
        assert tail[i] in multiset(tail);
        if tail[i] != x {
          assert tail[i] in multiset(s[1..]);
          var k :| 0 <= k < |s[1..]| && s[1..][k] == tail[i];
          assert s[1..][k] == s[k + 1];
        }
      }
      SortedCons(s[0], tail, le);
    }
  }

  lemma {:induction false} SortSorted<T(!new)>(s: seq<T>, le: (T, T) -> bool)
    requires TotalOrder(le)
    ensures Sorted(Sort(s, le), le)
  {
    if s != [] {
      SortSorted(s[1..], le);
      InsertSorted(s[0], Sort(s[1..], le), le);
    }
  }

  /** The first element of a sorted sequence is at most each of its elements. */
  lemma SortedFirstLeast<T(!new)>(s: seq<T>, le: (T, T) -> bool, x: T)
    requires TotalOrder(le) && Sorted(s, le)
    requires x in multiset(s)
    ensures le(s[0], x)
  {
    var i :| 0 <= i < |s| && s[i] == x;
    if i > 0 {
      assert le(s[0], s[i]);
    }
  }

  lemma MultisetTail<T>(s: seq<T>)
    requires s != []
    ensures multiset(s[1..]) == multiset(s) - multiset{s[0]}
  {
    assert s == [s[0]] + s[1..];
  }

  /** Under a total order there is only one sorted arrangement of a multiset. */
  lemma {:induction false} SortedUnique<T(!new)>(a: seq<T>, b: seq<T>, le: (T, T) -> bool)
    requires TotalOrder(le)
    requires Sorted(a, le) && Sorted(b, le)
    requires multiset(a) == multiset(b)
    ensures a == b
    decreases |a|
  {
    if a == [] {
      assert |multiset(b)| == 0;
    } else {
      assert b != [] by { assert a[0] in multiset(b); }
      SortedFirstLeast(b, le, a[0]);
      SortedFirstLeast(a, le, b[0]);
      assert a[0] == b[0];
      MultisetTail(a);
      MultisetTail(b);
      assert Sorted(a[1..], le) && Sorted(b[1..], le) by {
        forall i, j | 0 <= i < j < |a| - 1 ensures le(a[1..][i], a[1..][j]) {
          assert a[1..][i] == a[i + 1] && a[1..][j] == a[j + 1];
        }
        forall i, j | 0 <= i < j < |b| - 1 ensures le(b[1..][i], b[1..][j]) {
          assert b[1..][i] == b[i + 1] && b[1..][j] == b[j + 1];
        }
      }
      SortedUnique(a[1..], b[1..], le);
      assert a == [a[0]] + a[1..] && b == [b[0]] + b[1..];
    }
  }

  /** The sort of a sequence depends only on its multiset of elements. */
  lemma SortDeterminedByMultiset<T(!new)>(a: seq<T>, b: seq<T>, le: (T, T) -> bool)
    requires TotalOrder(le)
    requires multiset(a) == multiset(b)
    ensures Sort(a, le) == Sort(b, le)
  {
    SortSorted(a, le);
    SortSorted(b, le);
    SortedUnique(Sort(a, le), Sort(b, le), le);
  }
}
