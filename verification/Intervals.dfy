/** Byte ranges, and the overlap test both Safetensors readers use: sort, then compare neighbours only. */
module Intervals {
  import opened Basics
  import opened Ordering

  /** A half-open range [begin, end); the second reader leaves the name empty. */
  datatype Interval = Interval(begin: int, end: int, name: string) {
    predicate Contains(x: int) { begin <= x < end }
  }

  ghost predicate Overlaps(a: Interval, b: Interval) {
    exists x: int :: a.Contains(x) && b.Contains(x)
  }

  ghost predicate Disjoint(ranges: seq<Interval>) {
    forall i, j | 0 <= i < j < |ranges| :: !Overlaps(ranges[i], ranges[j])
  }

  ghost predicate NonEmpty(ranges: seq<Interval>) {
    forall i | 0 <= i < |ranges| :: ranges[i].begin < ranges[i].end
  }

  /** Tuple order of (begin, end, name); with empty names it is the order of (begin, end). */
  function Before(): (Interval, Interval) -> bool {
    (a: Interval, b: Interval) =>
      a.begin < b.begin || (a.begin == b.begin && (a.end < b.end || (a.end == b.end && !Less(b.name, a.name))))
  }

  lemma NotLessTransitive(a: string, b: string, c: string)
    requires !Less(b, a) && !Less(c, b)
    ensures !Less(c, a)
  {
    LessTotal(a, b);
    LessTotal(b, c);
    if Less(a, b) && Less(b, c) { LessTransitive(a, b, c); }
    if Less(c, a) {
      if Less(a, b) { LessTransitive(c, a, b); }
    }
  }

  lemma BeforeIsOrder()
    ensures WeakOrder(Before())
  {
    forall a: Interval, b: Interval ensures Before()(a, b) || Before()(b, a) {
      if Less(a.name, b.name) && Less(b.name, a.name) {
        LessTransitive(a.name, b.name, a.name);
        LessIrreflexive(a.name);
      }
    }
    forall a: Interval, b: Interval, c: Interval | Before()(a, b) && Before()(b, c)
      ensures Before()(a, c)
    {
      if a.begin == b.begin == c.begin && a.end == b.end == c.end { NotLessTransitive(a.name, b.name, c.name); }
    }
  }

  /** In begin order, neighbours decide: if no neighbour starts inside its predecessor, no two ranges meet. */
  ghost predicate NeighboursClear(ranges: seq<Interval>) {
    forall i | 0 < i < |ranges| :: ranges[i].begin >= ranges[i - 1].end
  }

  lemma {:induction false} NeighboursReach(ranges: seq<Interval>, i: nat, j: nat)
    requires NonEmpty(ranges) && NeighboursClear(ranges) && i < j < |ranges|
    ensures ranges[j].begin >= ranges[i].end
  {
    if i + 1 >= j {
    } else {
      NeighboursReach(ranges, i, j - 1);
    }
  }

  lemma NeighboursExact(ranges: seq<Interval>)
    requires NonEmpty(ranges) && SortedBy(Before(), ranges)
    ensures NeighboursClear(ranges) <==> Disjoint(ranges)
  {
    if NeighboursClear(ranges) {
      forall i, j | 0 <= i < j < |ranges| ensures !Overlaps(ranges[i], ranges[j]) {
        NeighboursReach(ranges, i, j);
      }
    }
    if Disjoint(ranges) {
      forall i | 0 < i < |ranges| ensures ranges[i].begin >= ranges[i - 1].end {
        var left, right := ranges[i - 1], ranges[i];
        assert Before()(left, right) && !Overlaps(left, right);
        assert right.Contains(right.begin);
      }
    }
  }

  lemma DisjointOfContents(a: seq<Interval>, b: seq<Interval>)
    requires multiset(a) == multiset(b)
    ensures Disjoint(a) <==> Disjoint(b)
  {
    var apart := (x: Interval, y: Interval) => Apart(x, y);
    forall x: Interval, y: Interval ensures Apart(x, y) <==> !Overlaps(x, y) { ApartIsNoOverlap(x, y); }
    if Disjoint(a) { PairwiseOfContents(apart, a, b); }
    if Disjoint(b) { PairwiseOfContents(apart, b, a); }
  }

  /** `Overlaps` without its witness. */
  predicate Apart(a: Interval, b: Interval) {
    a.end <= a.begin || b.end <= b.begin || a.end <= b.begin || b.end <= a.begin
  }

  lemma ApartIsNoOverlap(a: Interval, b: Interval)
    ensures Apart(a, b) <==> !Overlaps(a, b)
  {
    if !Apart(a, b) {
      var x := Max(a.begin, b.begin);
      assert a.Contains(x) && b.Contains(x);
    }
  }

  /** The test of the readers: sort, then look at neighbours. It reports an overlap exactly when two of the
      given ranges share a byte. */
  method AnyOverlap(ranges: seq<Interval>) returns (found: bool)
    requires NonEmpty(ranges)
    ensures found <==> !Disjoint(ranges)
  {
    var sorted := Sort(Before(), ranges);
    BeforeIsOrder();
    SortSorted(Before(), ranges);
    SortContents(Before(), ranges);
    SortMembers(Before(), ranges);
    forall i | 0 <= i < |sorted| ensures sorted[i].begin < sorted[i].end {
      assert sorted[i] in ranges;
    }
    NeighboursExact(sorted);
    DisjointOfContents(ranges, sorted);
    var i := 1;
    while i < |sorted|
      invariant 1 <= i
      invariant forall j | 0 < j < i && j < |sorted| :: sorted[j].begin >= sorted[j - 1].end
    {
      if sorted[i].begin < sorted[i - 1].end { return true; }
      i := i + 1;
    }
    return false;
  }
}
