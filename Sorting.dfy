/** The two collection idioms the application uses everywhere:
    - `[...new Set(xs)]`: the distinct values in order of first occurrence (`Dedup`);
    - `Array.prototype.sort(cmp)`: a stable sort. For a comparator that is consistent (a total
      preorder, `le(a, b)` standing for `cmp(a, b) <= 0`) the stable sorted order is unique,
      so a stable insertion sort (`SortBy`) is an exact model of it. */
module Sorting {

  ghost predicate Total<T(!new)>(le: (T, T) -> bool) {
    forall a, b :: le(a, b) || le(b, a)
  }

  ghost predicate Transitive<T(!new)>(le: (T, T) -> bool) {
    forall a, b, c :: le(a, b) && le(b, c) ==> le(a, c)
  }

  /** A consistent comparator: the only kind for which `sort` has a defined result. */
  ghost predicate TotalPreorder<T(!new)>(le: (T, T) -> bool) {
    Total(le) && Transitive(le)
  }

  predicate SortedBy<T>(s: seq<T>, le: (T, T) -> bool) {
    forall i, j :: 0 <= i < j < |s| ==> le(s[i], s[j])
  }

  /** Inserts `x` in front of the first element it is not greater than. */
  function Insert<T>(x: T, ys: seq<T>, le: (T, T) -> bool): (r: seq<T>)
    ensures multiset(r) == multiset(ys) + multiset{x}
  {
    if |ys| == 0 then [x]
    else if le(x, ys[0]) then [x] + ys
    else
      assert ys == [ys[0]] + ys[1..];
      [ys[0]] + Insert(x, ys[1..], le)
  }

  /** Stable insertion sort: an element placed earlier in `s` stays before every element it
      ties with. */
  function SortBy<T>(s: seq<T>, le: (T, T) -> bool): (r: seq<T>)
    ensures multiset(r) == multiset(s)
  {
    if |s| == 0 then []
    else
      assert s == [s[0]] + s[1..];
      Insert(s[0], SortBy(s[1..], le), le)
  }

  lemma {:induction false} InsertSorted<T(!new)>(x: T, ys: seq<T>, le: (T, T) -> bool)
    requires TotalPreorder(le) && SortedBy(ys, le)
    ensures SortedBy(Insert(x, ys, le), le)
  {
    if |ys| > 0 && !le(x, ys[0]) {
      var tail := Insert(x, ys[1..], le);
      InsertSorted(x, ys[1..], le);
      forall z | z in tail ensures le(ys[0], z) {
        assert z in multiset(tail);
        if z != x {
          assert z in ys[1..];
        }
      }
    }
  }

  /** The result of a sort is sorted. */
  lemma {:induction false} SortBySorted<T(!new)>(s: seq<T>, le: (T, T) -> bool)
    requires TotalPreorder(le)
    ensures SortedBy(SortBy(s, le), le)
  {
    if |s| > 0 {
      SortBySorted(s[1..], le);
      InsertSorted(s[0], SortBy(s[1..], le), le);
    }
  }

  /** Sorting a sequence that is already in order leaves it as it is: in particular a
      comparator that ties every pair (always 0) leaves the input order unchanged. */
  lemma {:induction false} SortBySortedIdentity<T>(s: seq<T>, le: (T, T) -> bool)
    requires SortedBy(s, le)
    ensures SortBy(s, le) == s
  {
    if |s| > 0 {
      SortBySortedIdentity(s[1..], le);
      assert s == [s[0]] + s[1..];
    }
  }

  /** Position `k` holds a minimum of `s`, and every element before it is strictly greater:
      `k` is the first minimum. */
  ghost predicate IsFirstMinimum<T>(s: seq<T>, le: (T, T) -> bool, k: int) {
    && 0 <= k < |s|
    && (forall j :: 0 <= j < |s| ==> le(s[k], s[j]))
    && (forall j :: 0 <= j < k ==> !le(s[j], s[k]))
  }

  /** After a stable sort, the head is the first minimum of the input. */
  lemma {:induction false} SortByHead<T(!new)>(s: seq<T>, le: (T, T) -> bool)
    requires TotalPreorder(le) && |s| > 0
    ensures |SortBy(s, le)| == |s|
    ensures exists k :: IsFirstMinimum(s, le, k) && SortBy(s, le)[0] == s[k]
  {
    var r := SortBy(s, le);
    assert |r| == |multiset(r)| == |s|;
    if |s| == 1 {
      assert le(s[0], s[0]);
      assert IsFirstMinimum(s, le, 0);
    } else {
      var t := s[1..];
      SortByHead(t, le);
      var k' :| IsFirstMinimum(t, le, k') && SortBy(t, le)[0] == t[k'];
      if le(s[0], t[k']) {
        HeadStaysFirst(s, le, k');
      } else {
        TailMinimumFirst(s, le, k');
      }
    }
  }

  lemma HeadStaysFirst<T(!new)>(s: seq<T>, le: (T, T) -> bool, k': int)
    requires TotalPreorder(le) && |s| > 1
    requires IsFirstMinimum(s[1..], le, k') && SortBy(s[1..], le)[0] == s[1..][k']
    requires le(s[0], s[1..][k'])
    ensures SortBy(s, le)[0] == s[0] && IsFirstMinimum(s, le, 0)
  {
    var t := s[1..];
    forall j | 0 <= j < |s| ensures le(s[0], s[j]) {
      if j == 0 { assert le(s[0], s[0]); } else { assert le(t[k'], t[j - 1]); }
    }
  }

  lemma TailMinimumFirst<T(!new)>(s: seq<T>, le: (T, T) -> bool, k': int)
    requires TotalPreorder(le) && |s| > 1
    requires IsFirstMinimum(s[1..], le, k') && SortBy(s[1..], le)[0] == s[1..][k']
    requires !le(s[0], s[1..][k'])
    ensures SortBy(s, le)[0] == s[k' + 1] && IsFirstMinimum(s, le, k' + 1)
  {
    var t := s[1..];
    assert s == [s[0]] + t;
    var sorted := SortBy(t, le);
    assert |sorted| == |multiset(sorted)| == |t|;
    InsertBehindHead(s[0], sorted, le);
    FirstMinimumShifts(s, le, k');
  }

  /** An element greater than the head goes behind it. */
  lemma InsertBehindHead<T>(x: T, ys: seq<T>, le: (T, T) -> bool)
    requires |ys| > 0 && !le(x, ys[0])
    ensures Insert(x, ys, le)[0] == ys[0]
  {
  }

  /** The first minimum of the tail, strictly below the head, is the first minimum of all. */
  lemma FirstMinimumShifts<T(!new)>(s: seq<T>, le: (T, T) -> bool, k': int)
    requires TotalPreorder(le) && |s| > 1
    requires IsFirstMinimum(s[1..], le, k') && !le(s[0], s[1..][k'])
    ensures IsFirstMinimum(s, le, k' + 1)
  {
    var t := s[1..];
    assert le(t[k'], s[0]);
    forall j | 0 <= j < |s| ensures le(s[k' + 1], s[j]) {
      if j > 0 { assert s[j] == t[j - 1]; }
    }
    forall j | 0 <= j < k' + 1 ensures !le(s[j], s[k' + 1]) {
      if j > 0 { assert s[j] == t[j - 1]; }
    }
  }

  /** Two sorted arrangements of the same elements coincide when no two distinct elements
      tie: the sorted order is then unique. */
  lemma {:induction false} SortedUnique<T>(a: seq<T>, b: seq<T>, le: (T, T) -> bool)
    requires multiset(a) == multiset(b)
    requires SortedBy(a, le) && SortedBy(b, le)
    requires forall x, y :: x in a && y in a && le(x, y) && le(y, x) ==> x == y
    ensures a == b
  {
    assert |b| == |multiset(b)| == |multiset(a)| == |a|;
    if |a| > 0 {
      SortedHeadsEqual(a, b, le);
      TailMultiset(a);
      TailMultiset(b);
      assert forall x :: x in a[1..] ==> x in a;
      SortedUnique(a[1..], b[1..], le);
    }
  }

  lemma TailMultiset<T>(s: seq<T>)
    requires |s| > 0
    ensures multiset(s[1..]) == multiset(s) - multiset{s[0]}
  {
    assert s == [s[0]] + s[1..];
  }

  lemma SortedHeadsEqual<T>(a: seq<T>, b: seq<T>, le: (T, T) -> bool)
    requires |a| > 0 && multiset(a) == multiset(b)
    requires SortedBy(a, le) && SortedBy(b, le)
    requires forall x, y :: x in a && y in a && le(x, y) && le(y, x) ==> x == y
    ensures |b| > 0 && a[0] == b[0]
  {
    assert a[0] in multiset(b);
    assert b[0] in multiset(a);
    var i :| 0 <= i < |b| && b[i] == a[0];
    var j :| 0 <= j < |a| && a[j] == b[0];
    if i > 0 && j > 0 {
      assert le(b[0], b[i]) && le(a[0], a[j]);
    }
  }

  function Reverse<T>(s: seq<T>): (r: seq<T>)
    ensures |r| == |s|
    ensures forall i :: 0 <= i < |s| ==> r[i] == s[|s| - 1 - i]
  {
    if |s| == 0 then [] else Reverse(s[1..]) + [s[0]]
  }

  lemma {:induction false} ReverseMultiset<T>(s: seq<T>)
    ensures multiset(Reverse(s)) == multiset(s)
  {
    if |s| > 0 {
      ReverseMultiset(s[1..]);
      assert s == [s[0]] + s[1..];
    }
  }

  /** `[...new Set(s)]`: each distinct value once, in order of first occurrence. */
  function Dedup<T(==)>(s: seq<T>): (r: seq<T>)
    ensures forall i :: 0 <= i < |r| ==> r[i] in s
    ensures forall i :: 0 <= i < |s| ==> s[i] in r
    ensures Distinct(r)
  {
    if |s| == 0 then []
    else
      var r := Dedup(s[..|s| - 1]);
      assert s == s[..|s| - 1] + [s[|s| - 1]];
      if s[|s| - 1] in r then r else r + [s[|s| - 1]]
  }

  /** `xs.filter(Boolean)` on strings: drops the empty strings. */
  function NonEmpty(xs: seq<string>): (r: seq<string>)
    ensures forall x :: x in r <==> x in xs && x != ""
  {
    if |xs| == 0 then []
    else if xs[0] == "" then NonEmpty(xs[1..])
    else [xs[0]] + NonEmpty(xs[1..])
  }

  predicate Distinct<T(==)>(s: seq<T>) {
    forall i, j :: 0 <= i < j < |s| ==> s[i] != s[j]
  }

  lemma {:induction false} DistinctCountsAtMostOne<T>(s: seq<T>)
    requires Distinct(s)
    ensures forall x :: multiset(s)[x] <= 1
  {
    if |s| > 0 {
      var t := s[1..];
      assert s == [s[0]] + t;
      assert Distinct(t);
      DistinctCountsAtMostOne(t);
      assert s[0] !in t;
      assert multiset(s) == multiset{s[0]} + multiset(t);
    }
  }

  lemma {:induction false} CountsAtMostOneDistinct<T>(s: seq<T>)
    requires forall x :: multiset(s)[x] <= 1
    ensures Distinct(s)
  {
    if |s| > 0 {
      var t := s[1..];
      assert s == [s[0]] + t;
      assert multiset(s) == multiset{s[0]} + multiset(t);
      assert forall x :: multiset(t)[x] <= multiset(s)[x];
      CountsAtMostOneDistinct(t);
      assert multiset(t)[s[0]] == 0;
      forall i, j | 0 <= i < j < |s| ensures s[i] != s[j] {
        if i == 0 {
          assert s[j] in t;
        } else {
          assert s[i] == t[i - 1] && s[j] == t[j - 1];
        }
      }
    }
  }

  /** Rearranging a sequence without duplicates gives one without duplicates. */
  lemma DistinctPermutation<T>(a: seq<T>, b: seq<T>)
    requires Distinct(a) && multiset(a) == multiset(b)
    ensures Distinct(b)
  {
    DistinctCountsAtMostOne(a);
    CountsAtMostOneDistinct(b);
  }

  /** `a` is `b` with some elements left out: same order, nothing added or repeated. */
  predicate IsSubsequence<T(==)>(a: seq<T>, b: seq<T>)
    decreases |b|
  {
    if |a| == 0 then true
    else if |b| == 0 then false
    else if a[0] == b[0] then IsSubsequence(a[1..], b[1..])
    else IsSubsequence(a, b[1..])
  }

  /** A subsequence holds no element more often than the sequence it is taken from. */
  lemma {:induction false} SubsequenceMultiset<T>(a: seq<T>, b: seq<T>)
    requires IsSubsequence(a, b)
    ensures multiset(a) <= multiset(b)
    decreases |b|
  {
    if |a| > 0 {
      assert b == [b[0]] + b[1..];
      if a[0] == b[0] {
        SubsequenceMultiset(a[1..], b[1..]);
        assert a == [a[0]] + a[1..];
      } else {
        SubsequenceMultiset(a, b[1..]);
      }
    }
  }

  /** Putting one more element in front of `b` keeps `a` a subsequence of it. */
  lemma {:induction false} SubsequenceCons<T>(a: seq<T>, b: seq<T>, x: T)
    requires IsSubsequence(a, b)
    ensures IsSubsequence(a, [x] + b)
    decreases |b|, 1
  {
    assert ([x] + b)[1..] == b;
    if |a| > 0 && a[0] == x {
      SubsequenceTail(a, b);
    }
  }

  /** Dropping the first element of `a` keeps it a subsequence. */
  lemma {:induction false} SubsequenceTail<T>(a: seq<T>, b: seq<T>)
    requires |a| > 0 && IsSubsequence(a, b)
    ensures IsSubsequence(a[1..], b)
    decreases |b|, 0
  {
    assert [b[0]] + b[1..] == b;
    if a[0] == b[0] {
      SubsequenceCons(a[1..], b[1..], b[0]);
    } else {
      SubsequenceTail(a, b[1..]);
      SubsequenceCons(a[1..], b[1..], b[0]);
    }
  }

  /** `s.filter(keep)`: the elements that pass, in the order of `s`. */
  function Filter<T(==,!new)>(s: seq<T>, keep: T -> bool): (r: seq<T>)
    ensures forall x :: x in r <==> x in s && keep(x)
  {
    if |s| == 0 then []
    else
      var rest := Filter(s[1..], keep);
      assert forall x :: x in s <==> x == s[0] || x in s[1..];
      if keep(s[0]) then [s[0]] + rest else rest
  }

  /** Filtering a non-empty sequence: its first element if kept, then the filtered rest. */
  lemma FilterFirst<T(!new)>(s: seq<T>, keep: T -> bool)
    requires |s| > 0
    ensures Filter(s, keep) == (if keep(s[0]) then [s[0]] else []) + Filter(s[1..], keep)
  {
  }

  /** A filter that every element passes changes nothing. */
  lemma {:induction false} FilterKeepsAll<T(!new)>(s: seq<T>, keep: T -> bool)
    requires forall i :: 0 <= i < |s| ==> keep(s[i])
    ensures Filter(s, keep) == s
  {
    if |s| > 0 {
      FilterKeepsAll(s[1..], keep);
      FilterFirst(s, keep);
      assert [s[0]] + s[1..] == s;
    }
  }

  /** What a filter keeps is a subsequence: same order, nothing added or repeated. */
  lemma {:induction false} FilterSubsequence<T(!new)>(s: seq<T>, keep: T -> bool)
    ensures IsSubsequence(Filter(s, keep), s)
  {
    if |s| > 0 {
      var rest := Filter(s[1..], keep);
      FilterSubsequence(s[1..], keep);
      if keep(s[0]) {
        var r := [s[0]] + rest;
        assert r[0] == s[0] && r[1..] == rest;
      } else {
        SubsequenceCons(rest, s[1..], s[0]);
        assert [s[0]] + s[1..] == s;
      }
    }
  }

  /** Every kept element occurs in the result as often as in `s`. */
  lemma {:induction false} FilterMultiset<T(!new)>(s: seq<T>, keep: T -> bool)
    ensures forall x :: multiset(Filter(s, keep))[x] == if keep(x) then multiset(s)[x] else 0
  {
    if |s| > 0 {
      var head := if keep(s[0]) then [s[0]] else [];
      var rest := Filter(s[1..], keep);
      FilterMultiset(s[1..], keep);
      FilterFirst(s, keep);
      ConsMultiset(s, head, rest, Filter(s, keep));
    }
  }

  lemma ConsMultiset<T>(s: seq<T>, head: seq<T>, rest: seq<T>, r: seq<T>)
    requires |s| > 0 && r == head + rest
    ensures multiset(s) == multiset{s[0]} + multiset(s[1..])
    ensures multiset(r) == multiset(head) + multiset(rest)
  {
    assert s == [s[0]] + s[1..];
  }
}
