/** The two sorts the core relies on: Array.prototype.sort with a comparator, which is stable,
    and Python's sorted() over a set of strings. */
module Sorting {
  import opened Seqs
  import opened Strings

  /** A comparison that orders every pair of strings consistently (what localeCompare provides). */
  ghost predicate TotalPreorder(leq: (string, string) -> bool) {
    && (forall a, b :: leq(a, b) || leq(b, a))
    && (forall a, b, c :: leq(a, b) && leq(b, c) ==> leq(a, c))
  }

  ghost predicate SortedBy<T>(s: seq<T>, key: T -> string, leq: (string, string) -> bool) {
    forall i, j :: 0 <= i < j < |s| ==> leq(key(s[i]), key(s[j]))
  }

  /** The elements whose key compares equal to `k`, in order. */
  function Tied<T(!new)>(s: seq<T>, key: T -> string, leq: (string, string) -> bool, k: string): seq<T> {
    Filter(s, TiesWith(key, leq, k))
  }

  function TiesWith<T>(key: T -> string, leq: (string, string) -> bool, k: string): T -> bool {
    x => leq(key(x), k) && leq(k, key(x))
  }

  /** Inserts `x` after every element of `s` whose key is not greater than its own. */
  function Insert<T>(x: T, s: seq<T>, key: T -> string, leq: (string, string) -> bool): (r: seq<T>)
    ensures multiset(r) == multiset(s) + multiset{x}
  {
    if s == [] then [x]
    else if leq(key(s[0]), key(x)) then
      assert s == [s[0]] + s[1..];
      [s[0]] + Insert(x, s[1..], key, leq)
    else [x] + s
  }

  /** A stable sort by `key` under the comparison `leq`: each element in turn is inserted into
      the sorted prefix after the elements it ties with. */
  function SortBy<T>(s: seq<T>, key: T -> string, leq: (string, string) -> bool): (r: seq<T>)
    ensures multiset(r) == multiset(s)
  {
    if s == [] then []
    else
      assert s == s[..|s| - 1] + [s[|s| - 1]];
      Insert(s[|s| - 1], SortBy(s[..|s| - 1], key, leq), key, leq)
  }

  lemma {:induction false} InsertSorted<T>(x: T, s: seq<T>, key: T -> string, leq: (string, string) -> bool)
    requires TotalPreorder(leq)
    requires SortedBy(s, key, leq)
    ensures SortedBy(Insert(x, s, key, leq), key, leq)
  {
    if s != [] && leq(key(s[0]), key(x)) {
      InsertSorted(x, s[1..], key, leq);
      var r := Insert(x, s, key, leq);
      var tail := Insert(x, s[1..], key, leq);
      assert r == [s[0]] + tail;
      forall j | 0 <= j < |tail| ensures leq(key(s[0]), key(tail[j])) {
        assert tail[j] in multiset(tail);
        if tail[j] != x {
          assert tail[j] in multiset(s[1..]);
          var m :| 0 <= m < |s[1..]| && s[1..][m] == tail[j];
          assert s[m + 1] == tail[j];
        }
      }
    }
  }

  /** The sort orders its result. */
  lemma {:induction false} SortBySorted<T>(s: seq<T>, key: T -> string, leq: (string, string) -> bool)
    requires TotalPreorder(leq)
    ensures SortedBy(SortBy(s, key, leq), key, leq)
  {
    if s != [] {
      SortBySorted(s[..|s| - 1], key, leq);
      InsertSorted(s[|s| - 1], SortBy(s[..|s| - 1], key, leq), key, leq);
    }
  }

  lemma {:induction false} InsertTied<T(!new)>(x: T, s: seq<T>, key: T -> string, leq: (string, string) -> bool, k: string)
    requires TotalPreorder(leq)
    requires SortedBy(s, key, leq)
    ensures Tied(Insert(x, s, key, leq), key, leq, k) == Tied(s + [x], key, leq, k)
  {
    if s == [] {
      assert [] + [x] == [x];
    } else if leq(key(s[0]), key(x)) {
      var tail := s[1..];
      SortedTail(s, key, leq);
      InsertTied(x, tail, key, leq, k);
      var tie := TiesWith(key, leq, k);
      assert Insert(x, s, key, leq) == [s[0]] + Insert(x, tail, key, leq);
      FilterAppend([s[0]], Insert(x, tail, key, leq), tie);
      FilterAppend([s[0]], tail + [x], tie);
      assert s + [x] == [s[0]] + (tail + [x]);
    } else {
      assert Insert(x, s, key, leq) == [x] + s;
      InsertFirstTied(x, s, key, leq, k);
    }
  }

  lemma SortedTail<T>(s: seq<T>, key: T -> string, leq: (string, string) -> bool)
    requires s != [] && SortedBy(s, key, leq)
    ensures SortedBy(s[1..], key, leq)
  {
    forall i, j | 0 <= i < j < |s| - 1 ensures leq(key(s[1..][i]), key(s[1..][j])) {
      assert s[1..][i] == s[i + 1] && s[1..][j] == s[j + 1];
    }
  }

  /** An element placed before all of `s` ties with `k` only when nothing in `s` does. */
  lemma InsertFirstTied<T(!new)>(x: T, s: seq<T>, key: T -> string, leq: (string, string) -> bool, k: string)
    requires TotalPreorder(leq)
    requires SortedBy(s, key, leq)
    requires s != [] && !leq(key(s[0]), key(x))
    ensures Tied([x] + s, key, leq, k) == Tied(s + [x], key, leq, k)
  {
    var tie := TiesWith(key, leq, k);
    FilterAppend(s, [x], tie);
    FilterAppend([x], s, tie);
    if tie(x) {
      forall y | y in s ensures !tie(y) {
        var m :| 0 <= m < |s| && s[m] == y;
        assert m == 0 || leq(key(s[0]), key(s[m]));
      }
      FilterNone(s, tie);
    }
  }

  /** Stability: elements with equal keys keep their relative order. */
  lemma {:induction false} SortByStable<T(!new)>(s: seq<T>, key: T -> string, leq: (string, string) -> bool, k: string)
    requires TotalPreorder(leq)
    ensures Tied(SortBy(s, key, leq), key, leq, k) == Tied(s, key, leq, k)
  {
    if s != [] {
      var init, last := s[..|s| - 1], s[|s| - 1];
      var sorted := SortBy(init, key, leq);
      assert SortBy(s, key, leq) == Insert(last, sorted, key, leq);
      SortByStable(init, key, leq, k);
      SortBySorted(init, key, leq);
      InsertTied(last, sorted, key, leq, k);
      FilterAppend(sorted, [last], TiesWith(key, leq, k));
      FilterAppend(init, [last], TiesWith(key, leq, k));
      assert s == init + [last];
    }
  }

  lemma {:induction false} InsertAtEnd<T>(x: T, s: seq<T>, key: T -> string, leq: (string, string) -> bool)
    requires forall i :: 0 <= i < |s| ==> leq(key(s[i]), key(x))
    ensures Insert(x, s, key, leq) == s + [x]
  {
    if s != [] {
      InsertAtEnd(x, s[1..], key, leq);
      assert s == [s[0]] + s[1..];
    }
  }

  /** Sorting what is already sorted changes nothing, so a sorted listing is sorted again unchanged. */
  lemma {:induction false} SortBySortedIsIdentity<T>(s: seq<T>, key: T -> string, leq: (string, string) -> bool)
    requires SortedBy(s, key, leq)
    ensures SortBy(s, key, leq) == s
  {
    if s != [] {
      var init := s[..|s| - 1];
      SortBySortedIsIdentity(init, key, leq);
      InsertAtEnd(s[|s| - 1], init, key, leq);
      assert s == init + [s[|s| - 1]];
    }
  }

  ghost predicate StrictlyIncreasing(s: seq<string>) {
    forall i, j :: 0 <= i < j < |s| ==> LexLess(s[i], s[j])
  }

  lemma {:induction false} LeastExists(s: set<string>)
    requires s != {}
    ensures exists m :: m in s && forall x :: x in s && x != m ==> LexLess(m, x)
  {
    var y :| y in s;
    if s == {y} {
      assert forall x :: x in s && x != y ==> LexLess(y, x);
    } else {
      LeastExists(s - {y});
      var m :| m in s - {y} && forall x :: x in s - {y} && x != m ==> LexLess(m, x);
      if LexLess(m, y) {
        assert forall x :: x in s && x != m ==> LexLess(m, x);
      } else {
        LexLessTotal(m, y);
        forall x | x in s && x != y ensures LexLess(y, x) {
          if x != m {
            LexLessTransitive(y, m, x);
          }
        }
      }
    }
  }

  /** Python's sorted() of a set of strings: its elements in increasing code-point order. */
  method SortedStrings(s: set<string>) returns (r: seq<string>)
    ensures StrictlyIncreasing(r)
    ensures forall x :: x in r <==> x in s
    ensures |r| == |s|
  {
    r := [];
    var rest := s;
    while rest != {}
      invariant StrictlyIncreasing(r)
      invariant forall x :: x in s <==> x in r || x in rest
      invariant forall x :: x in r ==> x !in rest
      invariant forall i, x :: 0 <= i < |r| && x in rest ==> LexLess(r[i], x)
      invariant |r| + |rest| == |s|
      decreases |rest|
    {
      LeastExists(rest);
      var m :| m in rest && forall x :: x in rest && x != m ==> LexLess(m, x);
      r := r + [m];
      rest := rest - {m};
    }
  }

  /** A strictly increasing listing of a set is unique, so the sorted order is fully determined. */
  lemma {:induction false} StrictlyIncreasingUnique(a: seq<string>, b: seq<string>)
    requires StrictlyIncreasing(a) && StrictlyIncreasing(b)
    requires forall x :: x in a <==> x in b
    ensures a == b
  {
    assert a != [] ==> a[0] in b;
    assert b != [] ==> b[0] in a;
    if a != [] && b != [] {
      if a[0] != b[0] {
        assert b[0] in a;
        assert a[0] in b;
        var i :| 0 <= i < |a| && a[i] == b[0];
        var j :| 0 <= j < |b| && b[j] == a[0];
        assert i > 0 && j > 0;
        assert LexLess(a[0], b[0]) && LexLess(b[0], a[0]);
        LexLessTransitive(a[0], b[0], a[0]);
        LexLessIrreflexive(a[0]);
      }
      forall x ensures x in a[1..] <==> x in b[1..] {
        if x in a[1..] {
          var i :| 1 <= i < |a| && a[i] == x;
          if x == b[0] {
            LexLessIrreflexive(a[0]);
          }
          assert x in b;
        }
        if x in b[1..] {
          var j :| 1 <= j < |b| && b[j] == x;
          if x == a[0] {
            LexLessIrreflexive(b[0]);
          }
          assert x in a;
        }
      }
      StrictlyIncreasingUnique(a[1..], b[1..]);
      assert a == [a[0]] + a[1..] && b == [b[0]] + b[1..];
    }
  }
}
