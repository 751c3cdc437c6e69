/** Sorting and the lexicographic order of names, as Python's `sorted` and `str` comparison provide them. */
module Ordering {

  /** Code-point lexicographic order. */
  predicate Less(a: string, b: string) {
    b != [] && (a == [] || a[0] < b[0] || (a[0] == b[0] && Less(a[1..], b[1..])))
  }

  lemma {:induction false} LessTransitive(a: string, b: string, c: string)
    requires Less(a, b) && Less(b, c)
    ensures Less(a, c)
  {
    if a != [] && a[0] == b[0] == c[0] { LessTransitive(a[1..], b[1..], c[1..]); }
  }

  lemma {:induction false} LessIrreflexive(a: string)
    ensures !Less(a, a)
  {
    if a == [] {
    } else {
      LessIrreflexive(a[1..]);
    }
  }

  lemma {:induction false} LessTotal(a: string, b: string)
    ensures Less(a, b) || a == b || Less(b, a)
  {
    if a != [] && b != [] && a[0] == b[0] {
      LessTotal(a[1..], b[1..]);
      assert a == [a[0]] + a[1..] && b == [b[0]] + b[1..];
    }
  }

  /** The order by the first place where the names differ: the smaller character, or the end, comes first. */
  lemma {:induction false} LessByFirstDifference(a: string, b: string)
    ensures Less(a, b)
            <==> exists k :: 0 <= k <= |a| && k < |b| && a[..k] == b[..k] && (k == |a| || a[k] < b[k])
  {
    if a == [] || b == [] || a[0] != b[0] {
      if b != [] { assert a[..0] == b[..0]; }
      forall k | 0 < k <= |a| && k < |b| ensures a[..k] != b[..k] {
        assert a[..k][0] == a[0] && b[..k][0] == b[0];
      }
    } else {
      var s, t := a[1..], b[1..];
      LessByFirstDifference(s, t);
      if Less(s, t) {
        var k :| 0 <= k <= |s| && k < |t| && s[..k] == t[..k] && (k == |s| || s[k] < t[k]);
        assert a[..k + 1] == [a[0]] + s[..k] && b[..k + 1] == [b[0]] + t[..k];
      }
      forall k | 0 <= k <= |a| && k < |b| && a[..k] == b[..k] && (k == |a| || a[k] < b[k]) ensures Less(s, t) {
        assert s[..k - 1] == a[..k][1..] && t[..k - 1] == b[..k][1..];
      }
    }
  }

  /** A comparison usable by a sort: `before(x, y)` says x may not come after y. */
  ghost predicate WeakOrder<T(!new)>(before: (T, T) -> bool) {
    (forall x, y :: before(x, y) || before(y, x))
    && (forall x, y, z :: before(x, y) && before(y, z) ==> before(x, z))
  }

  ghost predicate SortedBy<T>(before: (T, T) -> bool, s: seq<T>) {
    forall i, j | 0 <= i < j < |s| :: before(s[i], s[j])
  }

  function Insert<T>(before: (T, T) -> bool, x: T, s: seq<T>): (r: seq<T>)
    ensures |r| == |s| + 1
  {
    if s == [] || before(x, s[0]) then [x] + s else [s[0]] + Insert(before, x, s[1..])
  }

  /** A stable sort. */
  function Sort<T>(before: (T, T) -> bool, s: seq<T>): (r: seq<T>)
    ensures |r| == |s|
  {
    if s == [] then [] else Insert(before, s[0], Sort(before, s[1..]))
  }

  lemma {:induction false} InsertContents<T>(before: (T, T) -> bool, x: T, s: seq<T>)
    ensures multiset(Insert(before, x, s)) == multiset(s) + multiset{x}
  {
    if s != [] && !before(x, s[0]) {
      InsertContents(before, x, s[1..]);
      assert s == [s[0]] + s[1..];
    }
  }

  lemma {:induction false} SortContents<T>(before: (T, T) -> bool, s: seq<T>)
    ensures multiset(Sort(before, s)) == multiset(s)
  {
    if s == [] {
    } else {
      SortContents(before, s[1..]);
      InsertContents(before, s[0], Sort(before, s[1..]));
      assert s == [s[0]] + s[1..];
    }
  }

  /** Membership survives sorting, both ways. */
  lemma SortMembers<T>(before: (T, T) -> bool, s: seq<T>)
    ensures forall x :: x in s <==> x in Sort(before, s)
  {
    SortContents(before, s);
    forall x ensures x in s <==> x in Sort(before, s) {
      assert x in s <==> x in multiset(s);
      assert x in Sort(before, s) <==> x in multiset(Sort(before, s));
    }
  }

  lemma {:induction false} InsertSorted<T(!new)>(before: (T, T) -> bool, x: T, s: seq<T>)
    requires WeakOrder(before) && SortedBy(before, s)
    ensures SortedBy(before, Insert(before, x, s))
  {
    var r := Insert(before, x, s);
    if s == [] {
    } else if before(x, s[0]) {
      forall j | 1 <= j < |r| ensures before(r[0], r[j]) {
        assert j > 1 ==> before(s[0], s[j - 1]);
      }
      assert forall i, j | 1 <= i < j < |r| :: before(s[i - 1], s[j - 1]) && r[i] == s[i - 1] && r[j] == s[j - 1];
    } else {
      var t := Insert(before, x, s[1..]);
      InsertSorted(before, x, s[1..]);
      InsertContents(before, x, s[1..]);
      forall j | 1 <= j < |r| ensures before(r[0], r[j]) {
        assert r[j] == t[j - 1] && t[j - 1] in multiset(t);
        if r[j] != x {
          assert r[j] in s[1..];
          var k :| 0 <= k < |s| - 1 && s[1..][k] == r[j];
          assert before(s[0], s[k + 1]);
        }
      }
    }
  }

  lemma {:induction false} SortSorted<T(!new)>(before: (T, T) -> bool, s: seq<T>)
    requires WeakOrder(before)
    ensures SortedBy(before, Sort(before, s))
  {
    if s == [] {
    } else {
      SortSorted(before, s[1..]);
      InsertSorted(before, s[0], Sort(before, s[1..]));
    }
  }

  /** A strictly increasing arrangement of given elements is unique. */
  ghost predicate Increasing<T>(less: (T, T) -> bool, s: seq<T>) {
    forall i, j | 0 <= i < j < |s| :: less(s[i], s[j])
  }

  lemma IncreasingHeads<T(!new)>(less: (T, T) -> bool, a: seq<T>, b: seq<T>)
    requires forall x, y :: !(less(x, y) && less(y, x))
    requires Increasing(less, a) && Increasing(less, b)
    requires a != [] && b != [] && a[0] in b && b[0] in a
    ensures a[0] == b[0]
  {
    var j :| 0 <= j < |b| && b[j] == a[0];
    var i :| 0 <= i < |a| && a[i] == b[0];
    assert i > 0 ==> less(a[0], a[i]);
    assert j > 0 ==> less(b[0], b[j]);
  }

  lemma TailContents<T>(a: seq<T>, b: seq<T>)
    requires a != [] && b != [] && a[0] == b[0] && multiset(a) == multiset(b)
    ensures multiset(a[1..]) == multiset(b[1..])
  {
    assert a == [a[0]] + a[1..] && b == [b[0]] + b[1..];
    assert multiset(a[1..]) == multiset(a) - multiset{a[0]};
    assert multiset(b[1..]) == multiset(b) - multiset{b[0]};
  }

  lemma IncreasingTail<T(!new)>(less: (T, T) -> bool, a: seq<T>)
    requires a != [] && Increasing(less, a)
    ensures Increasing(less, a[1..])
  {
  }

  lemma {:induction false} IncreasingUnique<T(!new)>(less: (T, T) -> bool, a: seq<T>, b: seq<T>)
    requires forall x, y :: !(less(x, y) && less(y, x))
    requires Increasing(less, a) && Increasing(less, b)
    requires multiset(a) == multiset(b)
    ensures a == b
  {
    hide Increasing;
    assert |a| == |multiset(a)| == |b|;
    if a == [] {
    } else {
      assert a[0] in multiset(b) && b[0] in multiset(a);
      IncreasingHeads(less, a, b);
      TailContents(a, b);
      IncreasingTail(less, a);
      IncreasingTail(less, b);
      IncreasingUnique(less, a[1..], b[1..]);
      assert a == [a[0]] + a[1..] && b == [b[0]] + b[1..];
    }
  }

  /** Sequences with the same contents: the head of one can be taken out of the other. */
  lemma TakeOut<T>(a: seq<T>, b: seq<T>) returns (k: nat, rest: seq<T>)
    requires a != [] && multiset(a) == multiset(b)
    ensures k < |b| && b[k] == a[0] && rest == b[..k] + b[k + 1..]
    ensures multiset(a[1..]) == multiset(rest)
    ensures forall x :: x in rest <==> x in a[1..]
  {
    assert a[0] in multiset(b);
    k :| 0 <= k < |b| && b[k] == a[0];
    rest := b[..k] + b[k + 1..];
    assert a == [a[0]] + a[1..];
    assert b == b[..k] + ([b[k]] + b[k + 1..]);
    assert multiset(a[1..]) == multiset(a) - multiset{a[0]};
    assert multiset(rest) == multiset(b) - multiset{a[0]};
    forall x ensures x in rest <==> x in a[1..] {
      assert x in rest <==> x in multiset(rest);
      assert x in a[1..] <==> x in multiset(a[1..]);
    }
  }

  /** A relation that holds of every two elements at different places. */
  ghost predicate Pairwise<T>(rel: (T, T) -> bool, s: seq<T>) {
    forall i, j | 0 <= i < j < |s| :: rel(s[i], s[j])
  }

  /** A symmetric relation that holds pairwise does not mind the order of the elements. */
  lemma {:induction false} PairwiseOfContents<T(!new)>(rel: (T, T) -> bool, a: seq<T>, b: seq<T>)
    requires forall x, y :: rel(x, y) ==> rel(y, x)
    requires multiset(a) == multiset(b) && Pairwise(rel, a)
    ensures Pairwise(rel, b)
  {
    assert |a| == |multiset(a)| == |b|;
    if a == [] {
    } else {
      var k, rest := TakeOut(a, b);
      PairwiseOfContents(rel, a[1..], rest);
      assert forall m | 0 <= m < |b| && m != k :: b[m] == rest[if m < k then m else m - 1];
      forall m | 0 <= m < |b| && m != k ensures rel(b[k], b[m]) {
        assert b[m] in a[1..];
      }
    }
  }
}
