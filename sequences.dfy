/** Generic operations on sequences that the data-frame library performs on
    the loaded table: boolean-mask filtering, `unique()`, sorting by a key
    and `head(k)`. */
module Sequences {

  /** `r` is obtained from `s` by deleting some elements, keeping the order. */
  ghost predicate IsSubsequence<T>(r: seq<T>, s: seq<T>)
    decreases |s|
  {
    if r == [] then true
    else if s == [] then false
    else (r[0] == s[0] && IsSubsequence(r[1..], s[1..])) || IsSubsequence(r, s[1..])
  }

  /** Boolean-mask selection: the elements satisfying `p`, in their original order. */
  function Filter<T(!new)>(s: seq<T>, p: T -> bool): (r: seq<T>)
    ensures forall x :: x in r ==> p(x)
    ensures forall x :: p(x) ==> multiset(r)[x] == multiset(s)[x]
    ensures IsSubsequence(r, s)
  {
    if s == [] then []
    else
      assert s == [s[0]] + s[1..];
      if p(s[0]) then [s[0]] + Filter(s[1..], p) else Filter(s[1..], p)
  }

  ghost predicate NoDuplicates<T>(s: seq<T>) {
    forall i, j :: 0 <= i < j < |s| ==> s[i] != s[j]
  }

  /** Every element of `r` first occurs in `s` before each occurrence of every
      later element of `r`. */
  ghost predicate FirstOccurrenceOrder<T>(r: seq<T>, s: seq<T>) {
    forall i, j, k :: 0 <= i < j < |r| && 0 <= k < |s| && s[k] == r[j] ==> r[i] in s[..k]
  }

  /** `unique()`: each distinct element once, in order of first occurrence. */
  function Distinct<T(==,!new)>(s: seq<T>): (r: seq<T>)
    ensures NoDuplicates(r)
    ensures forall x :: x in r <==> x in s
    ensures FirstOccurrenceOrder(r, s)
  {
    if s == [] then []
    else
      var init, last := s[..|s| - 1], s[|s| - 1];
      assert s == init + [last];
      var d := Distinct(init);
      assert forall k :: 0 <= k < |init| ==> s[..k] == init[..k];
      if last in d then d else d + [last]
  }

  ghost predicate Total<T(!new)>(le: (T, T) -> bool) {
    forall a, b :: le(a, b) || le(b, a)
  }

  ghost predicate Transitive<T(!new)>(le: (T, T) -> bool) {
    forall a, b, c :: le(a, b) && le(b, c) ==> le(a, c)
  }

  /** Every element may stand before every later one. */
  ghost predicate SortedBy<T>(s: seq<T>, le: (T, T) -> bool) {
    forall i, j :: 0 <= i < j < |s| ==> le(s[i], s[j])
  }

  /** Places `x` in front of the first element it may precede. */
  function Insert<T>(x: T, s: seq<T>, le: (T, T) -> bool): (r: seq<T>)
    ensures multiset(r) == multiset(s) + multiset{x}
  {
    if s == [] then [x]
    else if le(x, s[0]) then [x] + s
    else
      assert s == [s[0]] + s[1..];
      [s[0]] + Insert(x, s[1..], le)
  }

  /** Insertion sort by `le`. An element is inserted in front of the elements
      equivalent to it that come later in the input, so the sort is stable. */
  function SortBy<T>(s: seq<T>, le: (T, T) -> bool): (r: seq<T>)
    ensures multiset(r) == multiset(s)
  {
    if s == [] then []
    else
      assert s == [s[0]] + s[1..];
      Insert(s[0], SortBy(s[1..], le), le)
  }

  lemma {:induction false} InsertSorted<T(!new)>(x: T, s: seq<T>, le: (T, T) -> bool)
    requires Total(le) && Transitive(le) && SortedBy(s, le)
    ensures SortedBy(Insert(x, s, le), le)
  {
    if s != [] && !le(x, s[0]) {
      var t := Insert(x, s[1..], le);
      InsertSorted(x, s[1..], le);
      assert le(s[0], x);
      forall y | y in t ensures le(s[0], y) {
        assert y in multiset(t);
        if y != x {
          assert y in multiset(s[1..]);
          var k :| 0 <= k < |s[1..]| && s[1..][k] == y;
          assert s[k + 1] == y;
        }
      }
      var r := [s[0]] + t;
      forall i, j | 0 <= i < j < |r| ensures le(r[i], r[j]) {
        if i == 0 {
          assert r[j] == t[j - 1];
        } else {
          assert r[i] == t[i - 1] && r[j] == t[j - 1];
        }
      }
    }
  }

  /** The sort orders its result (given a total preorder). */
  lemma {:induction false} SortBySorted<T(!new)>(s: seq<T>, le: (T, T) -> bool)
    requires Total(le) && Transitive(le)
    ensures SortedBy(SortBy(s, le), le)
  {
    if s != [] {
      SortBySorted(s[1..], le);
      InsertSorted(s[0], SortBy(s[1..], le), le);
    }
  }

  lemma {:induction false} InsertNoDuplicates<T>(x: T, s: seq<T>, le: (T, T) -> bool)
    requires NoDuplicates(s) && x !in s
    ensures NoDuplicates(Insert(x, s, le))
  {
    if s != [] && !le(x, s[0]) {
      var t := Insert(x, s[1..], le);
      assert s == [s[0]] + s[1..];
      assert s[0] !in s[1..];
      InsertNoDuplicates(x, s[1..], le);
      assert s[0] !in multiset(t);
      var r := [s[0]] + t;
      forall i, j | 0 <= i < j < |r| ensures r[i] != r[j] {
        if i == 0 {
          assert r[j] == t[j - 1] && t[j - 1] in t;
        } else {
          assert r[i] == t[i - 1] && r[j] == t[j - 1];
        }
      }
    }
  }

  /** Sorting a sequence without duplicates gives one without duplicates. */
  lemma {:induction false} SortByNoDuplicates<T>(s: seq<T>, le: (T, T) -> bool)
    requires NoDuplicates(s)
    ensures NoDuplicates(SortBy(s, le))
  {
    if s != [] {
      assert s == [s[0]] + s[1..];
      assert s[0] !in s[1..];
      SortByNoDuplicates(s[1..], le);
      assert s[0] !in multiset(SortBy(s[1..], le));
      InsertNoDuplicates(s[0], SortBy(s[1..], le), le);
    }
  }

  /** `a` occurs in `s` at some position before an occurrence of `b`. */
  ghost predicate OccursBefore<T>(s: seq<T>, a: T, b: T) {
    exists p, q :: 0 <= p < q < |s| && s[p] == a && s[q] == b
  }

  /** Elements that `le` cannot tell apart keep the order they have in `s`. */
  ghost predicate StableWrt<T>(r: seq<T>, s: seq<T>, le: (T, T) -> bool) {
    forall i, j :: 0 <= i < j < |r| && le(r[j], r[i]) ==> OccursBefore(s, r[i], r[j])
  }

  lemma {:induction false} InsertStable<T>(x: T, t: seq<T>, s: seq<T>, le: (T, T) -> bool)
    requires StableWrt(t, s, le)
    requires forall y :: y in t ==> OccursBefore(s, x, y)
    ensures StableWrt(Insert(x, t, le), s, le)
  {
    if t != [] && !le(x, t[0]) {
      var rest := Insert(x, t[1..], le);
      assert StableWrt(t[1..], s, le) by {
        forall i, j | 0 <= i < j < |t[1..]| && le(t[1..][j], t[1..][i])
          ensures OccursBefore(s, t[1..][i], t[1..][j])
        {
          assert t[1..][i] == t[i + 1] && t[1..][j] == t[j + 1];
        }
      }
      InsertStable(x, t[1..], s, le);
      var r := [t[0]] + rest;
      forall i, j | 0 <= i < j < |r| && le(r[j], r[i]) ensures OccursBefore(s, r[i], r[j]) {
        if i == 0 {
          var y := rest[j - 1];
          assert y in multiset(rest);
          if y != x {
            assert y in multiset(t[1..]);
            var k :| 0 <= k < |t[1..]| && t[1..][k] == y;
            assert t[k + 1] == y;
          }
        } else {
          assert r[i] == rest[i - 1] && r[j] == rest[j - 1];
        }
      }
    }
  }

  /** The sort is stable: elements it cannot tell apart keep their input order. */
  lemma {:induction false} SortByStable<T>(s: seq<T>, le: (T, T) -> bool)
    ensures StableWrt(SortBy(s, le), s, le)
  {
    if s != [] {
      var t := SortBy(s[1..], le);
      SortByStable(s[1..], le);
      forall i, j | 0 <= i < j < |t| && le(t[j], t[i]) ensures OccursBefore(s, t[i], t[j]) {
        var p, q :| 0 <= p < q < |s[1..]| && s[1..][p] == t[i] && s[1..][q] == t[j];
        assert s[p + 1] == t[i] && s[q + 1] == t[j];
      }
      forall y | y in t ensures OccursBefore(s, s[0], y) {
        assert y in multiset(s[1..]);
        var q :| 0 <= q < |s[1..]| && s[1..][q] == y;
        assert s[q + 1] == y;
      }
      InsertStable(s[0], t, s, le);
    }
  }

  /** `a` is seen in `s` before every occurrence of `b`. */
  ghost predicate FirstSeenBefore<T>(s: seq<T>, a: T, b: T) {
    forall k :: 0 <= k < |s| && s[k] == b ==> a in s[..k]
  }

  lemma FirstSeenDropHead<T>(x: T, u: seq<T>, a: T, b: T)
    requires x != a && FirstSeenBefore([x] + u, a, b)
    ensures FirstSeenBefore(u, a, b)
  {
    forall k | 0 <= k < |u| && u[k] == b ensures a in u[..k] {
      assert ([x] + u)[k + 1] == b;
      assert ([x] + u)[..k + 1] == [x] + u[..k];
    }
  }

  lemma FirstSeenAddHead<T>(x: T, u: seq<T>, a: T, b: T)
    requires x != b && (x == a || FirstSeenBefore(u, a, b))
    ensures FirstSeenBefore([x] + u, a, b)
  {
    forall k | 0 <= k < |[x] + u| && ([x] + u)[k] == b ensures a in ([x] + u)[..k] {
      assert ([x] + u)[..k] == [x] + u[..k - 1];
      if x != a {
        assert u[k - 1] == b;
      }
    }
  }

  /** Dropping elements that fail `p` does not change which of two elements
      satisfying `p` is seen first. */
  lemma {:induction false} FilterFirstSeen<T(!new)>(s: seq<T>, p: T -> bool, a: T, b: T)
    requires p(a) && p(b) && FirstSeenBefore(Filter(s, p), a, b)
    ensures FirstSeenBefore(s, a, b)
  {
    if s != [] {
      var f, f' := Filter(s, p), Filter(s[1..], p);
      assert f == if p(s[0]) then [s[0]] + f' else f';
      assert p(s[0]) ==> f[0] == s[0];
      if s[0] != a {
        if p(s[0]) {
          FirstSeenDropHead(s[0], f', a, b);
        }
        FilterFirstSeen(s[1..], p, a, b);
      }
      FirstSeenAddHead(s[0], s[1..], a, b);
      assert s == [s[0]] + s[1..];
    }
  }

  /** Sorting the distinct elements stably leaves elements that `le` cannot
      tell apart in order of their first occurrence. */
  lemma SortDistinctStable<T(!new)>(s: seq<T>, le: (T, T) -> bool)
    ensures var r := SortBy(Distinct(s), le);
      forall i, j :: 0 <= i < j < |r| && le(r[j], r[i]) ==> FirstSeenBefore(s, r[i], r[j])
  {
    var d := Distinct(s);
    var r := SortBy(d, le);
    SortByStable(d, le);
    forall i, j | 0 <= i < j < |r| && le(r[j], r[i]) ensures FirstSeenBefore(s, r[i], r[j]) {
      var p, q :| 0 <= p < q < |d| && d[p] == r[i] && d[q] == r[j];
    }
  }

  /** Sorting the distinct elements: each element once, in order. */
  lemma SortDistinct<T(!new)>(s: seq<T>, le: (T, T) -> bool)
    requires Total(le) && Transitive(le)
    ensures var r := SortBy(Distinct(s), le);
      NoDuplicates(r) && SortedBy(r, le) && forall x :: x in r <==> x in s
  {
    var d := Distinct(s);
    SortBySorted(d, le);
    SortByNoDuplicates(d, le);
    var r := SortBy(d, le);
    forall x ensures x in r <==> x in s {
      calc {
        x in r;
        x in multiset(r);
        x in multiset(d);
        x in d;
      }
    }
  }

  /** A prefix of a sorted sequence is sorted, and every element after the
      prefix may follow every element in it. */
  lemma SortedPrefix<T>(s: seq<T>, m: nat, le: (T, T) -> bool)
    requires SortedBy(s, le) && m <= |s|
    ensures SortedBy(s[..m], le)
    ensures multiset(s) == multiset(s[..m]) + multiset(s[m..])
    ensures forall x, y :: x in multiset(s[m..]) && y in s[..m] ==> le(y, x)
  {
    assert s == s[..m] + s[m..];
    forall x, y | x in multiset(s[m..]) && y in s[..m] ensures le(y, x) {
      var j :| 0 <= j < |s[m..]| && s[m..][j] == x;
      var i :| 0 <= i < m && s[..m][i] == y;
      assert s[i] == y && s[m + j] == x;
    }
  }

  function Min(a: int, b: int): int { if a <= b then a else b }

  function Max(a: int, b: int): int { if a <= b then b else a }

  /** `head(k)`: the first `k` elements; a negative `k` keeps all but the last `-k`. */
  function Head<T>(s: seq<T>, k: int): (r: seq<T>)
    ensures r <= s
    ensures 0 <= k ==> |r| == Min(k, |s|)
    ensures k < 0 ==> |r| == Max(0, |s| + k)
  {
    if 0 <= k then s[..Min(k, |s|)] else s[..Max(0, |s| + k)]
  }
}
