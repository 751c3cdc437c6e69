/** Safetensors files byte for byte: how a written file is laid out, and, for any file at all, when the reader accepts
    it and what its records then say. */
module SafetensorsFile {
  import opened Basics
  import opened Bytes
  import opened Arithmetic
  import opened Intervals
  import opened Safetensors
  import Ordering

  // ---------------------------------------------------------------- the written file

  lemma SortedIncreases<T(!new)>(before: (T, T) -> bool, name: T -> string, s: seq<T>)
    requires forall x, y :: before(x, y) <==> !Ordering.Less(name(y), name(x))
    requires forall i, j | 0 <= i < j < |s| :: name(s[i]) != name(s[j])
    ensures multiset(Ordering.Sort(before, s)) == multiset(s)
    ensures var r := Ordering.Sort(before, s); forall i, j | 0 <= i < j < |r| :: Ordering.Less(name(r[i]), name(r[j]))
  {
    hide Ordering.Less, Ordering.Sort;
    var r := Ordering.Sort(before, s);
    NameOrder(before, name);
    Ordering.SortSorted(before, s);
    Ordering.SortContents(before, s);
    var differ := (x: T, y: T) => name(x) != name(y);
    assert Ordering.Pairwise(differ, s);
    Ordering.PairwiseOfContents(differ, s, r);
    forall i, j | 0 <= i < j < |r| ensures Ordering.Less(name(r[i]), name(r[j])) {
      assert before(r[i], r[j]) && differ(r[i], r[j]);
      Ordering.LessTotal(name(r[i]), name(r[j]));
    }
  }

  lemma NameOrder<T(!new)>(before: (T, T) -> bool, name: T -> string)
    requires forall x, y :: before(x, y) <==> !Ordering.Less(name(y), name(x))
    ensures Ordering.WeakOrder(before)
  {
    hide Ordering.Less;
    forall x, y ensures before(x, y) || before(y, x) {
      if Ordering.Less(name(x), name(y)) && Ordering.Less(name(y), name(x)) {
        Ordering.LessTransitive(name(x), name(y), name(x));
        Ordering.LessIrreflexive(name(x));
      }
    }
    forall x, y, z | before(x, y) && before(y, z) ensures before(x, z) {
      NotLessTransitive(name(x), name(y), name(z));
    }
  }

  /** The header entry of a tensor whose data starts at `start` of the payload. */
  function EntryFor(t: Data, start: nat): Entry {
    Entry(t.name, Tensor(t.dtype, t.shape, start, start + |t.data|))
  }

  /** What the writer must put into the header: the tensors with the ranges given by `starts`, and the metadata unless
      a tensor takes its key. */
  ghost predicate HeaderLists(header: Header, sorted: seq<Data>, starts: seq<nat>)
    requires |starts| == |sorted|
  {
    forall e: Entry :: e in header
      <==> (exists i | 0 <= i < |sorted| :: e == EntryFor(sorted[i], starts[i]))
           || (e == Entry("__metadata__", Metadata) && forall i | 0 <= i < |sorted| :: sorted[i].name != "__metadata__")
  }

  ghost function StartOf(sorted: seq<Data>, starts: seq<nat>, i: nat): int
    requires i <= |sorted| == |starts|
  {
    if i == 0 then 0 else starts[i - 1] + |sorted[i - 1].data|
  }

  /** A written file, byte for byte: an eight-byte length that is a multiple of eight, the header in key order behind
      it with fewer than eight spaces of padding, and then the tensors' data in name order, without gaps. */
  lemma WrittenFile(json: Json, tensors: seq<Data>)
    returns (sorted: seq<Data>, starts: seq<nat>, header: Header, padding: nat)
    requires DistinctNames(tensors) && |EncodedHeader(json, tensors)| < U64
    ensures multiset(sorted) == multiset(tensors) && |starts| == |sorted|
    ensures forall i, j | 0 <= i < j < |sorted| :: Ordering.Less(sorted[i].name, sorted[j].name)
    ensures forall i | 0 <= i < |sorted| :: starts[i] == StartOf(sorted, starts, i)
    ensures HeaderLists(header, sorted, starts)
    ensures forall i, j | 0 <= i < j < |header| :: Ordering.Less(header[i].name, header[j].name)
    ensures var file, n := FileOf(json, tensors), |json.encode(header)| + padding;
            && padding < 8 && n % 8 == 0 && |file| == 8 + n + StartOf(sorted, starts, |sorted|)
            && Unpack(file[..8]) == n
            && file[8..8 + n] == json.encode(header) + seq(padding, _ => 32)
            && forall i | 0 <= i < |sorted| ::
                 8 + n + starts[i] + |sorted[i].data| <= |file|
                 && file[8 + n + starts[i]..8 + n + starts[i] + |sorted[i].data|] == sorted[i].data
  {
    hide Ordering.Sort, HeaderOf, Payload, FileOf, Unpack, EntriesOf, Ordering.Less, StartOf;
    sorted := Ordering.Sort(ByName(), tensors);
    SortedIncreases(ByName(), (t: Data) => t.name, tensors);
    SortedData(tensors);
    starts := seq(|sorted|, i requires 0 <= i < |sorted| => OffsetOf(sorted, i));
    header := Ordering.Sort(ByKey(), HeaderOf(sorted));
    PlainFacts(sorted);
    SortedIncreases(ByKey(), (e: Entry) => e.name, HeaderOf(sorted));
    padding := (8 - |json.encode(header)| % 8) % 8;
    StartsFollow(sorted, starts);
    ListsEntries(sorted, starts);
    Ordering.SortMembers(ByKey(), HeaderOf(sorted));
    FileHolds(json, tensors, sorted, starts, header, padding);
  }

  lemma StartsFollow(sorted: seq<Data>, starts: seq<nat>)
    requires |starts| == |sorted| && forall i | 0 <= i < |sorted| :: starts[i] == OffsetOf(sorted, i)
    ensures forall i | 0 <= i < |sorted| :: starts[i] == StartOf(sorted, starts, i)
    ensures StartOf(sorted, starts, |sorted|) == |Payload(sorted)|
  {
    forall i | 0 <= i <= |sorted| ensures OffsetOf(sorted, i) == StartOf(sorted, starts, i) {
      if i > 0 { EntryAt(sorted, i - 1); }
    }
    assert sorted[..|sorted|] == sorted;
  }

  lemma ListsEntries(sorted: seq<Data>, starts: seq<nat>)
    requires |starts| == |sorted| && forall i | 0 <= i < |sorted| :: starts[i] == OffsetOf(sorted, i)
    ensures HeaderLists(HeaderOf(sorted), sorted, starts)
  {
    hide Payload, EntriesOf;
    var entries := EntriesOf(sorted);
    forall i | 0 <= i < |sorted|
      ensures entries[i] == EntryFor(sorted[i], starts[i])
    {
      EntryAt(sorted, i);
    }
    forall e ensures e in HeaderOf(sorted) <==> e in entries || (e == Entry(METADATA_KEY, Metadata)
                                                && forall i | 0 <= i < |sorted| :: sorted[i].name != METADATA_KEY) {
    }
  }

  lemma FileHolds(json: Json, tensors: seq<Data>, sorted: seq<Data>, starts: seq<nat>, header: Header, padding: nat)
    requires |EncodedHeader(json, tensors)| < U64
    requires sorted == Ordering.Sort(ByName(), tensors) && header == Ordering.Sort(ByKey(), HeaderOf(sorted))
    requires padding == (8 - |json.encode(header)| % 8) % 8
    requires |starts| == |sorted| && forall i | 0 <= i < |sorted| :: starts[i] == OffsetOf(sorted, i)
    ensures var file, n := FileOf(json, tensors), |json.encode(header)| + padding;
            && padding < 8 && n % 8 == 0 && |file| == 8 + n + |Payload(sorted)|
            && Unpack(file[..8]) == n
            && file[8..8 + n] == json.encode(header) + seq(padding, _ => 32)
            && forall i | 0 <= i < |sorted| ::
                 8 + n + starts[i] + |sorted[i].data| <= |file|
                 && file[8 + n + starts[i]..8 + n + starts[i] + |sorted[i].data|] == sorted[i].data
  {
    hide Ordering.Sort, HeaderOf, Payload, FileOf, Unpack, EntriesOf;
    FileLayout(json, tensors);
    var file, n := FileOf(json, tensors), |json.encode(header)| + padding;
    assert EncodedHeader(json, tensors) == json.encode(header) + seq(padding, _ => 32);
    forall i | 0 <= i < |sorted|
      ensures 8 + n + starts[i] + |sorted[i].data| <= |file|
      ensures file[8 + n + starts[i]..8 + n + starts[i] + |sorted[i].data|] == sorted[i].data
    {
      EntryAt(sorted, i);
      assert file[8 + n..][starts[i]..starts[i] + |sorted[i].data|] == sorted[i].data;
    }
  }

  // ---------------------------------------------------------------- any file

  /** The bytes of `elements` elements of a known dtype. */
  ghost predicate Takes(dtype: string, elements: int, bytes: int) {
    || (dtype in ["BOOL", "I8", "U8", "F8_E4M3", "F8_E5M2"] && bytes == elements)
    || (dtype in ["I16", "U16", "F16", "BF16"] && bytes == 2 * elements)
    || (dtype in ["I32", "U32", "F32"] && bytes == 4 * elements)
    || (dtype in ["I64", "U64", "F64"] && bytes == 8 * elements)
  }

  /** A tensor entry that the reader takes: dimensions without a sign whose product never leaves 64 bits on the way, and
      a range inside the payload with the bytes they need. */
  ghost predicate GoodTensor(meta: Meta, payload: int) {
    meta.Tensor? && 0 <= meta.begin <= meta.end <= payload
    && (forall i | 0 <= i < |meta.shape| :: meta.shape[i] >= 0)
    && (forall k | 0 <= k <= |meta.shape| :: Product(meta.shape[..k]) < 0x1_0000_0000_0000_0000)
    && Takes(meta.dtype, Product(meta.shape), meta.end - meta.begin)
  }

  /** Two tensors of a header that share a byte of the payload. */
  ghost predicate Clash(h: Header, i: int, j: int, x: int) {
    0 <= i < j < |h| && h[i].name != "__metadata__" && h[j].name != "__metadata__"
    && h[i].meta.Tensor? && h[j].meta.Tensor?
    && h[i].meta.begin <= x < h[i].meta.end && h[j].meta.begin <= x < h[j].meta.end
  }

  ghost predicate GoodHeader(h: Header, payload: int) {
    (forall e | e in h && e.name != "__metadata__" :: GoodTensor(e.meta, payload))
    && forall i, j, x :: !Clash(h, i, j, x)
  }

  lemma DtypesExactly(dtype: string, elements: int, bytes: int)
    ensures Takes(dtype, elements, bytes) <==> DtypeBytes(dtype) > 0 && bytes == DtypeBytes(dtype) * elements
  {
  }

  lemma TensorExactly(e: Entry, payload: int)
    ensures EntryOk(e, payload) <==> e.name == "__metadata__" || GoodTensor(e.meta, payload)
  {
    hide Product, Takes, DtypeBytes;
    if e.meta.Tensor? { DtypesExactly(e.meta.dtype, Product(e.meta.shape), e.meta.end - e.meta.begin); }
  }

  predicate Listed(e: Entry) { e.name != "__metadata__" && e.meta.Tensor? && e.meta.end > e.meta.begin }

  function RangeOf(e: Entry): Interval
    requires e.meta.Tensor?
  {
    Interval(e.meta.begin, e.meta.end, e.name)
  }

  lemma RangesStep(h: Header)
    requires h != []
    ensures var n := |h| - 1;
            Ranges(h) == Ranges(h[..n]) + (if Listed(h[n]) then [RangeOf(h[n])] else [])
  {
  }

  lemma {:induction false} RangeMembers(h: Header, r: Interval)
    ensures r in Ranges(h) <==> exists i :: 0 <= i < |h| && Listed(h[i]) && r == RangeOf(h[i])
  {
    hide Ranges;
    if h == [] {
      NoRanges();
    } else {
      var n := |h| - 1;
      RangesStep(h);
      RangeMembers(h[..n], r);
      if r in Ranges(h[..n]) {
        var i :| 0 <= i < n && Listed(h[..n][i]) && r == RangeOf(h[..n][i]);
        assert Listed(h[i]) && r == RangeOf(h[i]);
      }
      forall i | 0 <= i < |h| && Listed(h[i]) && r == RangeOf(h[i]) ensures r in Ranges(h) {
        if i < n { assert h[..n][i] == h[i]; }
      }
    }
  }

  lemma NoRanges()
    ensures Ranges([]) == []
  {
  }

  /** The ranges are disjoint exactly when no two tensors share a byte. */
  lemma {:induction false} ClashExactly(h: Header)
    ensures Disjoint(Ranges(h)) <==> forall i, j, x :: !Clash(h, i, j, x)
  {
    hide Ranges, Disjoint;
    if h == [] {
      NoRanges();
      NothingClashes();
    } else {
      var n := |h| - 1;
      ClashExactly(h[..n]);
      LastRange(h);
      assert forall i, j, x | j < n :: Clash(h, i, j, x) <==> Clash(h[..n], i, j, x);
      assert forall i, j, x :: Clash(h, i, j, x) ==> j < n || j == n;
    }
  }

  lemma NothingClashes()
    ensures Disjoint([])
  {
  }

  lemma LastRange(h: Header)
    requires h != []
    ensures var n := |h| - 1;
            Disjoint(Ranges(h)) <==> Disjoint(Ranges(h[..n])) && forall i, x :: !Clash(h, i, n, x)
  {
    hide Ranges, Disjoint;
    var n := |h| - 1;
    var before, last := Ranges(h[..n]), h[n];
    RangesStep(h);
    if Listed(last) {
      DisjointStep(before, RangeOf(last));
      forall r ensures r in before <==> exists i :: 0 <= i < n && Listed(h[..n][i]) && r == RangeOf(h[..n][i]) {
        RangeMembers(h[..n], r);
      }
      forall i, x | Clash(h, i, n, x) ensures RangeOf(h[i]) in before && Overlaps(RangeOf(h[i]), RangeOf(last)) {
        assert h[..n][i] == h[i];
        assert RangeOf(h[i]).Contains(x) && RangeOf(last).Contains(x);
      }
      forall r | r in before && Overlaps(r, RangeOf(last)) ensures exists i, x :: Clash(h, i, n, x) {
        var i :| 0 <= i < n && Listed(h[..n][i]) && r == RangeOf(h[..n][i]);
        var x :| r.Contains(x) && RangeOf(last).Contains(x);
        assert Clash(h, i, n, x);
      }
    } else {
      assert before + [] == before;
    }
  }

  lemma DisjointStep(before: seq<Interval>, last: Interval)
    ensures Disjoint(before + [last]) <==> Disjoint(before) && forall r | r in before :: !Overlaps(r, last)
  {
    hide Overlaps;
    var all := before + [last];
    assert forall k | 0 <= k < |before| :: all[k] == before[k];
    if Disjoint(all) {
      forall r | r in before ensures !Overlaps(r, last) {
        var k :| 0 <= k < |before| && before[k] == r;
        assert !Overlaps(all[k], all[|before|]);
      }
      forall i, j | 0 <= i < j < |before| ensures !Overlaps(before[i], before[j]) {
        assert !Overlaps(all[i], all[j]);
      }
    }
  }

  /** Which files the reader accepts, whatever wrote them. */
  lemma AcceptedExactly(json: Json, shard: string, file: seq<byte>)
    ensures ReadOf(json, shard, file).Ok?
            <==> |file| >= 8
                 && var n := Unpack(file[..8]);
                    2 <= n <= 0x1000_0000 && 8 + n <= |file|
                    && json.decode(file[8..8 + n]).Some?
                    && GoodHeader(json.decode(file[8..8 + n]).value, |file| - 8 - n)
  {
    hide Unpack, EntryOk, GoodTensor, Clash, Ranges, Disjoint, RecordsOf;
    if |file| >= 8 {
      var n := Unpack(file[..8]);
      if 2 <= n <= MAX_HEADER && 8 + n <= |file| && json.decode(file[8..8 + n]).Some? {
        HeaderExactly(json.decode(file[8..8 + n]).value, |file| - 8 - n);
      }
    }
  }

  lemma HeaderExactly(h: Header, payload: int)
    ensures (forall i | 0 <= i < |h| :: EntryOk(h[i], payload)) && Disjoint(Ranges(h)) <==> GoodHeader(h, payload)
  {
    hide EntryOk, GoodTensor, Clash, Ranges, Disjoint;
    ClashExactly(h);
    forall e ensures EntryOk(e, payload) <==> e.name == "__metadata__" || GoodTensor(e.meta, payload) {
      TensorExactly(e, payload);
    }
    assert forall i | 0 <= i < |h| :: h[i] in h;
  }

  const POWERS: seq<nat> := [1, 2, 4, 8, 16, 32, 64, 128, 256, 512, 1024, 2048, 4096]

  /** The record of a tensor entry: its position in the file, and the largest power of two up to 4096 that divides
      that position. */
  ghost predicate Recorded(record: Record, meta: Meta, base: nat, shard: string) {
    && meta.Tensor? && record.dtype == meta.dtype && record.shape == meta.shape && record.shard == shard
    && record.offset == base + meta.begin && record.length == meta.end - meta.begin
    && record.alignment in POWERS && record.offset % record.alignment == 0
    && forall p | p in POWERS && record.offset % p == 0 :: p <= record.alignment
  }

  /** What the records of an accepted file say: one for every entry but the metadata, with its place in the file. */
  lemma RecordsExactly(json: Json, shard: string, file: seq<byte>)
    requires Faithful(json) && ReadOf(json, shard, file).Ok?
    ensures var n := Unpack(file[..8]);
            8 + n <= |file| && json.decode(file[8..8 + n]).Some?
            && RecordsList(json.decode(file[8..8 + n]).value, ReadOf(json, shard, file).value, 8 + n, shard)
  {
    hide Unpack, GoodTensor, Clash, Ranges, Disjoint, RecordsOf, RecordsList, EntryOk;
    AcceptedExactly(json, shard, file);
    var n := Unpack(file[..8]);
    var h := json.decode(file[8..8 + n]).value;
    RecordsAre(h, |file| - 8 - n, 8 + n, shard);
  }

  ghost predicate RecordsList(h: Header, records: map<string, Record>, base: nat, shard: string) {
    (forall name :: name in records <==> name != "__metadata__" && exists e :: e in h && e.name == name)
    && forall e | e in h && e.name != "__metadata__" ::
         e.name in records && Recorded(records[e.name], e.meta, base, shard)
  }

  lemma RecordsAre(h: Header, payload: int, base: nat, shard: string)
    requires DistinctKeys(h) && GoodHeader(h, payload)
    ensures RecordsList(h, RecordsOf(h, base, shard), base, shard)
  {
    hide Clash, RecordsOf, FirstDividing, Recorded, Takes, Product;
    RecordsLookup(h, base, shard);
    var records := RecordsOf(h, base, shard);
    forall e | e in h && e.name != "__metadata__"
      ensures e.name in records && Recorded(records[e.name], e.meta, base, shard)
    {
      var i :| 0 <= i < |h| && h[i] == e;
      RecordIs(e.meta, base, shard);
    }
    forall name | name in records ensures name != "__metadata__" && exists e :: e in h && e.name == name {
      var i :| 0 <= i < |h| && h[i].name == name != METADATA_KEY && h[i].meta.Tensor?;
      assert h[i] in h;
    }
  }

  lemma RecordIs(meta: Meta, base: nat, shard: string)
    requires meta.Tensor?
    ensures Recorded(RecordAt(meta, base, shard), meta, base, shard)
  {
    hide FirstDividing;
    AlignmentIsLargest(base + meta.begin);
    assert forall p :: p in POWERS <==> p == 1 || p in ALIGNMENTS;
  }
}
