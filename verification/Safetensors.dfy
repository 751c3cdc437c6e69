/** Safetensors files: the fixture writer, the manifest reader, and when the second undoes the first.
    JSON text is abstract: an encoder, and a decoder that undoes it under trailing spaces. */
module Safetensors {
  import opened Basics
  import opened Bytes
  import opened Intervals
  import opened Arithmetic
  import Ordering

  /** What a header object holds under one key. */
  datatype Meta = Metadata | Tensor(dtype: string, shape: seq<int>, begin: int, end: int)

  datatype Entry = Entry(name: string, meta: Meta)

  type Header = seq<Entry>

  const METADATA_KEY: string := "__metadata__"

  ghost predicate DistinctKeys(h: Header) {
    forall i, j | 0 <= i < j < |h| :: h[i].name != h[j].name
  }

  function Spaces(n: nat): (s: seq<byte>)
    ensures |s| == n
  {
    seq(n, _ => 32)
  }

  /** A JSON codec: `decode` refuses duplicate keys, undoes `encode`, and ignores trailing spaces. */
  datatype Json = Json(encode: Header -> seq<byte>, decode: seq<byte> -> Option<Header>)

  ghost predicate Faithful(json: Json) {
    && (forall h: Header :: |json.encode(h)| >= 2)
    && (forall h: Header, n: nat :: DistinctKeys(h) ==> json.decode(json.encode(h) + Spaces(n)) == Some(h))
    && (forall s: seq<byte> :: json.decode(s).Some? ==> DistinctKeys(json.decode(s).value))
  }

  function DtypeBytes(dtype: string): nat {
    if dtype in {"BOOL", "I8", "U8", "F8_E4M3", "F8_E5M2"} then 1
    else if dtype in {"I16", "U16", "F16", "BF16"} then 2
    else if dtype in {"I32", "U32", "F32"} then 4
    else if dtype in {"I64", "U64", "F64"} then 8
    else 0
  }

  // ---------------------------------------------------------------- the reader

  const MAX_HEADER: nat := 256 * 1024 * 1024

  /** Every dimension is non-negative and no prefix product leaves 64 bits. */
  ghost predicate ShapeOk(shape: seq<int>) {
    (forall i | 0 <= i < |shape| :: shape[i] >= 0)
    && (forall k | 0 <= k <= |shape| :: Product(shape[..k]) < U64)
  }

  /** The running product of the source. */
  method CheckedShape(shape: seq<int>) returns (ok: bool, elements: int)
    ensures ok <==> ShapeOk(shape)
    ensures ok ==> elements == Product(shape)
  {
    elements := 1;
    var i := 0;
    while i < |shape|
      invariant 0 <= i <= |shape|
      invariant elements == Product(shape[..i])
      invariant forall j | 0 <= j < i :: shape[j] >= 0
      invariant forall k | 0 <= k <= i :: Product(shape[..k]) < U64
    {
      if shape[i] < 0 { return false, 0; }
      ProductAppend(shape[..i], shape[i]);
      assert shape[..i] + [shape[i]] == shape[..i + 1];
      elements := elements * shape[i];
      if elements > U64 - 1 { return false, 0; }
      i := i + 1;
    }
    assert shape[..i] == shape;
    return true, elements;
  }

  /** A tensor entry whose range fits the payload and matches its dtype and shape. */
  ghost predicate TensorOk(meta: Meta, payloadSize: int) {
    && meta.Tensor? && DtypeBytes(meta.dtype) > 0 && ShapeOk(meta.shape)
    && 0 <= meta.begin <= meta.end <= payloadSize
    && meta.end - meta.begin == DtypeBytes(meta.dtype) * Product(meta.shape)
  }

  ghost predicate EntryOk(e: Entry, payloadSize: int) {
    e.name == METADATA_KEY || TensorOk(e.meta, payloadSize)
  }

  /** The non-empty ranges of the entries. */
  function Ranges(h: Header): seq<Interval> {
    if h == [] then [] else
      var e := h[|h| - 1];
      Ranges(h[..|h| - 1]) +
      (if e.name != METADATA_KEY && e.meta.Tensor? && e.meta.end > e.meta.begin
       then [Interval(e.meta.begin, e.meta.end, e.name)] else [])
  }

  /** A tensor as the manifest lists it, with its absolute position in the file. */
  datatype Record = Record(dtype: string, shape: seq<int>, offset: int, length: int, alignment: nat, shard: string)

  /** The alignments the manifest knows, largest first; one is the default. */
  const ALIGNMENTS: seq<nat> := [4096, 2048, 1024, 512, 256, 128, 64, 32, 16, 8, 4, 2]

  function FirstDividing(offset: int, candidates: seq<nat>): nat {
    if candidates == [] then 1
    else if candidates[0] > 0 && offset % candidates[0] == 0 then candidates[0]
    else FirstDividing(offset, candidates[1..])
  }

  /** `a` is the largest known alignment that divides the offset. */
  ghost predicate IsAlignment(a: nat, offset: int) {
    && (a == 1 || a in ALIGNMENTS) && a > 0 && offset % a == 0
    && forall c | c in ALIGNMENTS && c > 0 && offset % c == 0 :: c <= a
  }

  lemma {:induction false} FirstIsLargest(offset: int, candidates: seq<nat>)
    requires forall i, j | 0 <= i < j < |candidates| :: candidates[i] > candidates[j]
    ensures var a := FirstDividing(offset, candidates);
            (a == 1 || a in candidates) && a > 0 && offset % a == 0
            && forall c | c in candidates && c > 0 && offset % c == 0 :: c <= a
  {
    if candidates == [] {
    } else {
      FirstIsLargest(offset, candidates[1..]);
      assert forall c | c in candidates :: c == candidates[0] || c in candidates[1..];
    }
  }

  lemma AlignmentIsLargest(offset: int)
    ensures IsAlignment(FirstDividing(offset, ALIGNMENTS), offset)
  {
    FirstIsLargest(offset, ALIGNMENTS);
  }

  function RecordAt(meta: Meta, dataBase: nat, shard: string): Record
    requires meta.Tensor?
  {
    var offset := dataBase + meta.begin;
    Record(meta.dtype, meta.shape, offset, meta.end - meta.begin, FirstDividing(offset, ALIGNMENTS), shard)
  }

  function RecordsOf(h: Header, dataBase: nat, shard: string): map<string, Record> {
    if h == [] then map[] else
      var e := h[|h| - 1];
      var before := RecordsOf(h[..|h| - 1], dataBase, shard);
      if e.name != METADATA_KEY && e.meta.Tensor?
      then before[e.name := RecordAt(e.meta, dataBase, shard)]
      else before
  }

  /** The reader: header length in bounds, decodable header, every entry valid, and no two non-empty ranges
      sharing a byte. */
  ghost function ReadOf(json: Json, shard: string, file: seq<byte>): Result<map<string, Record>> {
    if |file| < 8 then Err else
      var n := Unpack(file[..8]);
      if n < 2 || n > MAX_HEADER || n > |file| - 8 then Err else
        match json.decode(file[8..8 + n])
        case None => Err
        case Some(h) =>
          if (forall i | 0 <= i < |h| :: EntryOk(h[i], |file| - 8 - n)) && Disjoint(Ranges(h))
          then Ok(RecordsOf(h, 8 + n, shard)) else Err
  }

  lemma {:induction false} RangesNonEmpty(h: Header)
    ensures NonEmpty(Ranges(h))
  {
    if h == [] {
    } else {
      RangesNonEmpty(h[..|h| - 1]);
    }
  }

  method ReadSafetensorsHeader(json: Json, shard: string, file: seq<byte>) returns (r: Result<map<string, Record>>)
    ensures r == ReadOf(json, shard, file)
  {
    hide Unpack, TensorOk, Ranges, RecordsOf, Disjoint;
    if |file| < 8 { return Err; }
    var headerLength := Unpack(file[..8]);
    if headerLength < 2 || headerLength > MAX_HEADER || headerLength > |file| - 8 { return Err; }
    var decoded := json.decode(file[8..8 + headerLength]);
    if decoded.None? { return Err; }
    var header := decoded.value;
    var dataBase := 8 + headerLength;
    var payloadSize := |file| - dataBase;
    var result: map<string, Record>, intervals: seq<Interval>, i := map[], [], 0;
    EmptyHeader(header, dataBase, shard);
    while i < |header|
      invariant 0 <= i <= |header|
      invariant forall j | 0 <= j < i :: EntryOk(header[j], payloadSize)
      invariant result == RecordsOf(header[..i], dataBase, shard)
      invariant intervals == Ranges(header[..i])
    {
      var entry := header[i];
      EntryStep(header, i, dataBase, shard);
      if entry.name != METADATA_KEY {
        var ok := CheckTensor(entry.meta, payloadSize);
        if !ok { return Err; }
        TensorIsTensor(entry.meta, payloadSize);
        result := result[entry.name := RecordAt(entry.meta, dataBase, shard)];
        if entry.meta.end > entry.meta.begin {
          intervals := intervals + [Interval(entry.meta.begin, entry.meta.end, entry.name)];
        }
      }
      i := i + 1;
    }
    assert header[..i] == header;
    RangesNonEmpty(header);
    var overlap := AnyOverlap(intervals);
    if overlap { return Err; }
    return Ok(result);
  }

  lemma EmptyHeader(h: Header, dataBase: nat, shard: string)
    ensures RecordsOf(h[..0], dataBase, shard) == map[] && Ranges(h[..0]) == []
  {
  }

  lemma TensorIsTensor(meta: Meta, payloadSize: int)
    requires TensorOk(meta, payloadSize)
    ensures meta.Tensor?
  {
  }

  lemma EntryStep(h: Header, i: nat, dataBase: nat, shard: string)
    requires i < |h|
    ensures var e := h[i];
            RecordsOf(h[..i + 1], dataBase, shard) ==
            if e.name != METADATA_KEY && e.meta.Tensor?
            then RecordsOf(h[..i], dataBase, shard)[e.name := RecordAt(e.meta, dataBase, shard)]
            else RecordsOf(h[..i], dataBase, shard)
    ensures var e := h[i];
            Ranges(h[..i + 1]) ==
            if e.name != METADATA_KEY && e.meta.Tensor? && e.meta.end > e.meta.begin
            then Ranges(h[..i]) + [Interval(e.meta.begin, e.meta.end, e.name)] else Ranges(h[..i])
  {
    var p := h[..i + 1];
    assert p[..|p| - 1] == h[..i];
    assert Ranges(h[..i]) + [] == Ranges(h[..i]);
  }

  method CheckTensor(meta: Meta, payloadSize: int) returns (ok: bool)
    ensures ok <==> TensorOk(meta, payloadSize)
  {
    if meta.Metadata? || DtypeBytes(meta.dtype) == 0 { return false; }
    var shapeOk, elements := CheckedShape(meta.shape);
    if !shapeOk { return false; }
    if meta.begin < 0 || meta.end < meta.begin || meta.end > payloadSize { return false; }
    return meta.end - meta.begin == DtypeBytes(meta.dtype) * elements;
  }

  // ---------------------------------------------------------------- the writer

  datatype Data = Data(name: string, dtype: string, shape: seq<int>, data: seq<byte>)

  function ByName(): (Data, Data) -> bool { (a: Data, b: Data) => !Ordering.Less(b.name, a.name) }

  function ByKey(): (Entry, Entry) -> bool { (a: Entry, b: Entry) => !Ordering.Less(b.name, a.name) }

  function Payload(tensors: seq<Data>): seq<byte> {
    if tensors == [] then [] else Payload(tensors[..|tensors| - 1]) + tensors[|tensors| - 1].data
  }

  /** One entry per tensor, each range right behind the one before. */
  function EntriesOf(tensors: seq<Data>): (h: Header)
    ensures |h| == |tensors|
  {
    if tensors == [] then [] else
      var t, before := tensors[|tensors| - 1], tensors[..|tensors| - 1];
      var begin := |Payload(before)|;
      EntriesOf(before) + [Entry(t.name, Tensor(t.dtype, t.shape, begin, begin + |t.data|))]
  }

  lemma NoEntries(tensors: seq<Data>)
    ensures Payload(tensors[..0]) == [] && EntriesOf(tensors[..0]) == []
  {
  }

  lemma EntriesStep(tensors: seq<Data>, i: nat)
    requires i < |tensors|
    ensures Payload(tensors[..i + 1]) == Payload(tensors[..i]) + tensors[i].data
    ensures var begin := |Payload(tensors[..i])|;
            EntriesOf(tensors[..i + 1])
            == EntriesOf(tensors[..i])
               + [Entry(tensors[i].name, Tensor(tensors[i].dtype, tensors[i].shape, begin, begin + |tensors[i].data|))]
  {
    assert tensors[..i + 1][..i] == tensors[..i];
  }

  /** The header dict: the fixture's metadata, unless a tensor takes its key. */
  function HeaderOf(sorted: seq<Data>): Header {
    if exists i | 0 <= i < |sorted| :: sorted[i].name == METADATA_KEY then EntriesOf(sorted)
    else [Entry(METADATA_KEY, Metadata)] + EntriesOf(sorted)
  }

  function EncodedHeader(json: Json, tensors: seq<Data>): seq<byte> {
    var encoded := json.encode(Ordering.Sort(ByKey(), HeaderOf(Ordering.Sort(ByName(), tensors))));
    encoded + Spaces((8 - |encoded| % 8) % 8)
  }

  function FileOf(json: Json, tensors: seq<Data>): seq<byte> {
    var header := EncodedHeader(json, tensors);
    Pack(8, |header|) + (header + Payload(Ordering.Sort(ByName(), tensors)))
  }

  /** The writer: `tensors` are the items of a dict, so their names are distinct. */
  method SafetensorsBytes(json: Json, tensors: seq<Data>) returns (file: Result<seq<byte>>)
    ensures file == if |EncodedHeader(json, tensors)| < U64 then Ok(FileOf(json, tensors)) else Err
  {
    hide Ordering.Sort, Spaces, Pack, HeaderOf, EntriesOf, Payload;
    var sorted := Ordering.Sort(ByName(), tensors);
    var header: Header, payload: seq<byte>, i := [], [], 0;
    var taken := false;
    NoEntries(sorted);
    while i < |sorted|
      invariant 0 <= i <= |sorted|
      invariant payload == Payload(sorted[..i]) && header == EntriesOf(sorted[..i])
      invariant taken <==> exists j | 0 <= j < i :: sorted[j].name == METADATA_KEY
    {
      var begin := |payload|;
      EntriesStep(sorted, i);
      payload := payload + sorted[i].data;
      header := header + [Entry(sorted[i].name, Tensor(sorted[i].dtype, sorted[i].shape, begin, |payload|))];
      taken := taken || sorted[i].name == METADATA_KEY;
      i := i + 1;
    }
    assert sorted[..i] == sorted;
    HeaderIs(sorted, header, taken);
    header := if taken then header else [Entry(METADATA_KEY, Metadata)] + header;
    var encoded := json.encode(Ordering.Sort(ByKey(), header));
    encoded := encoded + Spaces((8 - |encoded| % 8) % 8);
    if |encoded| >= U64 { return Err; }
    return Ok(Pack(8, |encoded|) + (encoded + payload));
  }

  lemma HeaderIs(sorted: seq<Data>, entries: Header, taken: bool)
    requires entries == EntriesOf(sorted)
    requires taken <==> exists j | 0 <= j < |sorted| :: sorted[j].name == METADATA_KEY
    ensures HeaderOf(sorted) == if taken then entries else [Entry(METADATA_KEY, Metadata)] + entries
  {
  }

  // ---------------------------------------------------------------- round trip

  ghost predicate DistinctNames(tensors: seq<Data>) {
    forall i, j | 0 <= i < j < |tensors| :: tensors[i].name != tensors[j].name
  }

  /** A known dtype, a shape without negative dimensions, and as many bytes as they imply. */
  ghost predicate DataFits(t: Data) {
    DtypeBytes(t.dtype) > 0 && (forall k | 0 <= k < |t.shape| :: t.shape[k] >= 0)
    && |t.data| == DtypeBytes(t.dtype) * Product(t.shape)
  }

  function OffsetOf(tensors: seq<Data>, i: nat): nat
    requires i <= |tensors|
  {
    |Payload(tensors[..i])|
  }

  /** Where the writer puts tensor `i`, in the header and in the payload. */
  lemma {:induction false} EntryAt(tensors: seq<Data>, i: nat)
    requires i < |tensors|
    ensures var t, begin := tensors[i], OffsetOf(tensors, i);
            EntriesOf(tensors)[i] == Entry(t.name, Tensor(t.dtype, t.shape, begin, begin + |t.data|))
            && begin + |t.data| == OffsetOf(tensors, i + 1) <= |Payload(tensors)|
            && Payload(tensors)[begin..begin + |t.data|] == t.data
  {
    var n := |tensors| - 1;
    var before := tensors[..n];
    if i < n {
      EntryAt(before, i);
      assert before[..i] == tensors[..i] && before[..i + 1] == tensors[..i + 1] && before[i] == tensors[i];
    } else {
      assert tensors[..n + 1] == tensors;
    }
  }

  lemma {:induction false} OffsetsGrow(tensors: seq<Data>, i: nat, j: nat)
    requires i <= j <= |tensors|
    ensures OffsetOf(tensors, i) <= OffsetOf(tensors, j)
  {
    if i >= j {
    } else {
      OffsetsGrow(tensors, i, j - 1);
      EntryAt(tensors, j - 1);
    }
  }

  /** Entries whose ranges do not meet. */
  predicate EntriesApart(a: Entry, b: Entry) {
    a.meta.Tensor? && b.meta.Tensor? ==>
      Apart(Interval(a.meta.begin, a.meta.end, ""), Interval(b.meta.begin, b.meta.end, ""))
  }

  function ApartRelation(): (Entry, Entry) -> bool { (a: Entry, b: Entry) => EntriesApart(a, b) }

  ghost predicate IsRangeOf(range: Interval, h: Header, i: int) {
    0 <= i < |h| && h[i].meta.Tensor? && range.begin == h[i].meta.begin && range.end == h[i].meta.end
  }

  /** Every listed range is that of some entry. */
  lemma {:induction false} RangeHasEntry(h: Header, k: nat) returns (i: nat)
    requires k < |Ranges(h)|
    ensures IsRangeOf(Ranges(h)[k], h, i)
    decreases |h|
  {
    var n := |h| - 1;
    if k < |Ranges(h[..n])| {
      i := RangeHasEntry(h[..n], k);
      assert h[..n][i] == h[i];
    } else {
      i := n;
    }
  }

  lemma {:induction false} RangesDisjoint(h: Header)
    requires Ordering.Pairwise(ApartRelation(), h)
    ensures Disjoint(Ranges(h))
  {
    if h == [] {
    } else {
      var n := |h| - 1;
      var before, all := Ranges(h[..n]), Ranges(h);
      RangesDisjoint(h[..n]);
      forall k | 0 <= k < |before| && |all| > |before|
        ensures !Overlaps(all[k], all[|before|])
      {
        var i := RangeHasEntry(h[..n], k);
        assert ApartRelation()(h[i], h[n]);
        ApartIsNoOverlap(all[k], all[|before|]);
      }
    }
  }

  lemma {:induction false} RecordsLookup(h: Header, dataBase: nat, shard: string)
    requires DistinctKeys(h)
    ensures forall i | 0 <= i < |h| && h[i].name != METADATA_KEY && h[i].meta.Tensor? ::
              h[i].name in RecordsOf(h, dataBase, shard)
              && RecordsOf(h, dataBase, shard)[h[i].name] == RecordAt(h[i].meta, dataBase, shard)
    ensures forall name | name in RecordsOf(h, dataBase, shard) ::
              exists i :: 0 <= i < |h| && h[i].name == name != METADATA_KEY && h[i].meta.Tensor?
  {
    if h == [] {
    } else {
      var n := |h| - 1;
      var before := h[..n];
      RecordsLookup(before, dataBase, shard);
      forall i | 0 <= i < |h| && h[i].name != METADATA_KEY && h[i].meta.Tensor?
        ensures h[i].name in RecordsOf(h, dataBase, shard)
        ensures RecordsOf(h, dataBase, shard)[h[i].name] == RecordAt(h[i].meta, dataBase, shard)
      {
        if i < n { assert before[i] == h[i] && h[i].name != h[n].name; }
      }
      forall name | name in RecordsOf(h, dataBase, shard)
        ensures exists i :: 0 <= i < |h| && h[i].name == name != METADATA_KEY && h[i].meta.Tensor?
      {
        if name in RecordsOf(before, dataBase, shard) {
          var i :| 0 <= i < |before| && before[i].name == name != METADATA_KEY && before[i].meta.Tensor?;
          assert h[i] == before[i];
        } else {
          assert h[n].name == name;
        }
      }
    }
  }

  lemma WrittenEntriesApart(sorted: seq<Data>, i: nat, j: nat)
    requires i < j < |sorted|
    ensures EntriesApart(EntriesOf(sorted)[i], EntriesOf(sorted)[j])
  {
    hide Payload;
    EntryAt(sorted, i);
    EntryAt(sorted, j);
    OffsetsGrow(sorted, i + 1, j);
  }

  lemma EntriesFacts(sorted: seq<Data>)
    requires DistinctNames(sorted)
    ensures DistinctKeys(EntriesOf(sorted)) && Ordering.Pairwise(ApartRelation(), EntriesOf(sorted))
    ensures forall i | 0 <= i < |sorted| :: EntriesOf(sorted)[i].name == sorted[i].name
  {
    hide Payload, EntriesOf, EntriesApart;
    var entries := EntriesOf(sorted);
    forall i | 0 <= i < |sorted| ensures entries[i].name == sorted[i].name {
      EntryAt(sorted, i);
    }
    forall i, j | 0 <= i < j < |entries| ensures ApartRelation()(entries[i], entries[j]) {
      WrittenEntriesApart(sorted, i, j);
    }
  }

  lemma PlainFacts(sorted: seq<Data>)
    requires DistinctNames(sorted)
    ensures DistinctKeys(HeaderOf(sorted)) && Ordering.Pairwise(ApartRelation(), HeaderOf(sorted))
    ensures forall e :: e in HeaderOf(sorted) ==> e in EntriesOf(sorted) || e == Entry(METADATA_KEY, Metadata)
    ensures forall e :: e in EntriesOf(sorted) ==> e in HeaderOf(sorted)
  {
    hide EntriesOf;
    EntriesFacts(sorted);
    var plain, entries := HeaderOf(sorted), EntriesOf(sorted);
    if |plain| > |entries| {
      assert plain == [Entry(METADATA_KEY, Metadata)] + entries;
      assert forall k | 0 <= k < |entries| :: plain[k + 1] == entries[k];
    }
  }

  /** The decoded header: the entries of the tensors, and perhaps the metadata, in key order. */
  lemma HeaderFacts(sorted: seq<Data>)
    requires DistinctNames(sorted)
    ensures var h := Ordering.Sort(ByKey(), HeaderOf(sorted));
            DistinctKeys(h) && Ordering.Pairwise(ApartRelation(), h)
            && (forall e :: e in h ==> e in EntriesOf(sorted) || e == Entry(METADATA_KEY, Metadata))
            && (forall e :: e in EntriesOf(sorted) ==> e in h)
  {
    hide HeaderOf, EntriesOf, EntriesApart, Ordering.Sort;
    var plain := HeaderOf(sorted);
    var h := Ordering.Sort(ByKey(), plain);
    PlainFacts(sorted);
    Ordering.SortContents(ByKey(), plain);
    Ordering.SortMembers(ByKey(), plain);
    ApartIsSymmetric();
    Ordering.PairwiseOfContents(ApartRelation(), plain, h);
    KeysOfContents(plain, h);
  }

  lemma ApartIsSymmetric()
    ensures forall a, b :: ApartRelation()(a, b) ==> ApartRelation()(b, a)
  {
  }

  lemma KeysOfContents(a: Header, b: Header)
    requires multiset(a) == multiset(b) && DistinctKeys(a)
    ensures DistinctKeys(b)
  {
    var differ := (x: Entry, y: Entry) => x.name != y.name;
    assert Ordering.Pairwise(differ, a);
    Ordering.PairwiseOfContents(differ, a, b);
    forall i, j | 0 <= i < j < |b| ensures b[i].name != b[j].name {
      assert differ(b[i], b[j]);
    }
  }

  lemma SortedData(tensors: seq<Data>)
    requires DistinctNames(tensors)
    ensures var sorted := Ordering.Sort(ByName(), tensors);
            DistinctNames(sorted) && (forall t :: t in tensors <==> t in sorted)
  {
    hide Ordering.Sort;
    var sorted := Ordering.Sort(ByName(), tensors);
    Ordering.SortContents(ByName(), tensors);
    Ordering.SortMembers(ByName(), tensors);
    var differ := (x: Data, y: Data) => x.name != y.name;
    assert Ordering.Pairwise(differ, tensors);
    Ordering.PairwiseOfContents(differ, tensors, sorted);
    forall i, j | 0 <= i < j < |sorted| ensures sorted[i].name != sorted[j].name {
      assert differ(sorted[i], sorted[j]);
    }
  }

  /** A written file is its header length, the header and the payload. */
  lemma FileLayout(json: Json, tensors: seq<Data>)
    requires |EncodedHeader(json, tensors)| < U64
    ensures var file, header := FileOf(json, tensors), EncodedHeader(json, tensors);
            var payload := Payload(Ordering.Sort(ByName(), tensors));
            && |file| == 8 + |header| + |payload|
            && Unpack(file[..8]) == |header| && file[8..8 + |header|] == header && file[8 + |header|..] == payload
  {
    hide EncodedHeader, Ordering.Sort, Payload, Pack, Unpack;
    var file, header := FileOf(json, tensors), EncodedHeader(json, tensors);
    RadixValues();
    UnpackPack(8, |header|);
    assert file[..8] == Pack(8, |header|);
    assert file[8..8 + |header|] == header;
    assert file[8 + |header|..] == Payload(Ordering.Sort(ByName(), tensors));
  }

  lemma FileParts(json: Json, tensors: seq<Data>)
    requires Faithful(json) && DistinctNames(tensors) && |EncodedHeader(json, tensors)| < U64
    ensures var file, header := FileOf(json, tensors), EncodedHeader(json, tensors);
            var sorted := Ordering.Sort(ByName(), tensors);
            && |file| == 8 + |header| + |Payload(sorted)| && |header| >= 2
            && Unpack(file[..8]) == |header| && file[8..8 + |header|] == header
            && file[8 + |header|..] == Payload(sorted)
            && json.decode(header) == Some(Ordering.Sort(ByKey(), HeaderOf(sorted)))
  {
    hide Ordering.Sort, HeaderOf, Payload, FileOf, Unpack;
    FileLayout(json, tensors);
    SortedData(tensors);
    HeaderFacts(Ordering.Sort(ByName(), tensors));
  }

  /** The written entries pass the reader's tests, except that a zero dimension may hide an overflowing one. */
  lemma WrittenEntryOk(sorted: seq<Data>, i: nat)
    requires i < |sorted| && DataFits(sorted[i])
    ensures EntryOk(EntriesOf(sorted)[i], |Payload(sorted)|)
            <==> sorted[i].name == METADATA_KEY || ShapeOk(sorted[i].shape)
  {
    hide Payload, EntriesOf, ShapeOk;
    EntryAt(sorted, i);
  }

  /** What the reader must accept of a file with these tensors, said of the tensors. */
  ghost predicate Readable(t: Data) { t.name == METADATA_KEY || ShapeOk(t.shape) }

  lemma AllEntriesOk(sorted: seq<Data>, h: Header)
    requires DistinctNames(sorted) && h == Ordering.Sort(ByKey(), HeaderOf(sorted))
    requires forall i | 0 <= i < |sorted| :: DataFits(sorted[i])
    ensures (forall k | 0 <= k < |h| :: EntryOk(h[k], |Payload(sorted)|))
            <==> (forall i | 0 <= i < |sorted| :: Readable(sorted[i]))
  {
    hide Payload, EntriesOf, ShapeOk, TensorOk, DataFits, Ordering.Sort, HeaderOf, Ordering.Pairwise;
    HeaderFacts(sorted);
    var entries, size := EntriesOf(sorted), |Payload(sorted)|;
    forall i | 0 <= i < |sorted| ensures EntryOk(entries[i], size) <==> Readable(sorted[i]) {
      WrittenEntryOk(sorted, i);
    }
    forall i | 0 <= i < |sorted| ensures entries[i] in h {
      assert entries[i] in entries;
    }
    forall k | 0 <= k < |h| ensures h[k] in entries || h[k] == Entry(METADATA_KEY, Metadata) {
      assert h[k] in h;
    }
  }

  /** Reading a written file. The reader accepts it exactly when the header fits its limit and no shape
      overflows 64 bits on the way to its product; then every tensor not named like the metadata key comes
      back with its dtype, shape and length, at a range of the file that holds its data, and nothing else does. */
  lemma RoundTrip(json: Json, shard: string, tensors: seq<Data>)
    requires Faithful(json) && DistinctNames(tensors) && |EncodedHeader(json, tensors)| < U64
    requires forall i | 0 <= i < |tensors| :: DataFits(tensors[i])
    ensures var r := ReadOf(json, shard, FileOf(json, tensors));
            r.Ok? <==> |EncodedHeader(json, tensors)| <= MAX_HEADER && forall t | t in tensors :: Readable(t)
    ensures var file := FileOf(json, tensors);
            var r := ReadOf(json, shard, file);
            r.Ok? ==>
              && (forall t | t in tensors && t.name != METADATA_KEY ::
                    t.name in r.value && Holds(file, shard, r.value[t.name], t))
              && (forall name | name in r.value :: exists t :: t in tensors && t.name == name != METADATA_KEY)
  {
    hide Payload, EntriesOf, Readable, TensorOk, DataFits, Ordering.Sort, HeaderOf, Ordering.Pairwise, Ranges,
         RecordsOf, EncodedHeader, FileOf, Unpack, Disjoint, DistinctNames, DistinctKeys, EntryOk;
    var sorted := Ordering.Sort(ByName(), tensors);
    var h := Ordering.Sort(ByKey(), HeaderOf(sorted));
    var file, header := FileOf(json, tensors), EncodedHeader(json, tensors);
    SortedData(tensors);
    FileParts(json, tensors);
    HeaderFacts(sorted);
    forall i | 0 <= i < |sorted| ensures DataFits(sorted[i]) {
      assert sorted[i] in tensors;
    }
    AllEntriesOk(sorted, h);
    RangesDisjoint(h);
    forall t | t in tensors && (forall i | 0 <= i < |sorted| :: Readable(sorted[i])) ensures Readable(t) {
      assert t in sorted;
    }
    forall i | 0 <= i < |sorted| && (forall t | t in tensors :: Readable(t)) ensures Readable(sorted[i]) {
      assert sorted[i] in tensors;
    }
    var r := ReadOf(json, shard, file);
    if r.Ok? {
      assert r.value == RecordsOf(h, 8 + |header|, shard);
      forall t | t in tensors && t.name != METADATA_KEY
        ensures t.name in r.value && Holds(file, shard, r.value[t.name], t)
      {
        assert t in sorted;
        RecordOfTensor(sorted, h, t, file, 8 + |header|, shard);
      }
      forall name | name in r.value ensures exists t :: t in tensors && t.name == name != METADATA_KEY {
        TensorOfRecord(sorted, h, name, 8 + |header|, shard);
      }
    }
  }

  /** The record describes the tensor, and the file holds the tensor's data at the record's range. */
  ghost predicate Holds(file: seq<byte>, shard: string, record: Record, t: Data) {
    && record.shard == shard && IsAlignment(record.alignment, record.offset)
    && record.dtype == t.dtype && record.shape == t.shape && record.length == |t.data|
    && 0 <= record.offset && record.offset + record.length <= |file|
    && file[record.offset..record.offset + record.length] == t.data
  }

  lemma RecordOfTensor(sorted: seq<Data>, h: Header, t: Data, file: seq<byte>, dataBase: nat, shard: string)
    requires DistinctNames(sorted) && h == Ordering.Sort(ByKey(), HeaderOf(sorted))
    requires t in sorted && t.name != METADATA_KEY
    requires dataBase <= |file| && file[dataBase..] == Payload(sorted)
    ensures t.name in RecordsOf(h, dataBase, shard) && Holds(file, shard, RecordsOf(h, dataBase, shard)[t.name], t)
  {
    hide Payload, EntriesOf, Ordering.Sort, HeaderOf, Ordering.Pairwise, RecordsOf;
    HeaderFacts(sorted);
    var i :| 0 <= i < |sorted| && sorted[i] == t;
    EntryAt(sorted, i);
    assert EntriesOf(sorted)[i] in h;
    RecordsLookup(h, dataBase, shard);
    AlignmentIsLargest(dataBase + EntriesOf(sorted)[i].meta.begin);
    var begin := OffsetOf(sorted, i);
    assert file[dataBase..][begin..begin + |t.data|] == file[dataBase + begin..dataBase + begin + |t.data|];
  }

  lemma TensorOfRecord(sorted: seq<Data>, h: Header, name: string, dataBase: nat, shard: string)
    requires DistinctNames(sorted) && h == Ordering.Sort(ByKey(), HeaderOf(sorted))
    requires name in RecordsOf(h, dataBase, shard)
    ensures exists t :: t in sorted && t.name == name != METADATA_KEY
  {
    hide Payload, EntriesOf, Ordering.Sort, HeaderOf, Ordering.Pairwise, RecordsOf;
    HeaderFacts(sorted);
    RecordsLookup(h, dataBase, shard);
    var k :| 0 <= k < |h| && h[k].name == name != METADATA_KEY && h[k].meta.Tensor?;
    assert h[k] in h;
    var i :| 0 <= i < |sorted| && EntriesOf(sorted)[i] == h[k];
    EntryAt(sorted, i);
    assert sorted[i].name == name;
  }

  /** A tensor under the metadata key is lost: the reader accepts the file and skips it. */
  lemma LosslessExactly(json: Json, shard: string, tensors: seq<Data>)
    requires Faithful(json) && DistinctNames(tensors) && |EncodedHeader(json, tensors)| < U64
    requires forall i | 0 <= i < |tensors| :: DataFits(tensors[i])
    requires ReadOf(json, shard, FileOf(json, tensors)).Ok?
    ensures (forall t | t in tensors :: t.name in ReadOf(json, shard, FileOf(json, tensors)).value)
            <==> (forall t | t in tensors :: t.name != METADATA_KEY)
  {
    hide EncodedHeader, FileOf, ReadOf, DataFits, DistinctNames, Faithful;
    RoundTrip(json, shard, tensors);
  }

  /** A file of one tensor under the metadata key is accepted, and the tensor is not among its records. */
  lemma MetadataNameIsLost(json: Json, shard: string)
    requires Faithful(json)
    ensures var t := Data(METADATA_KEY, "U8", [1], [7]);
            var r := ReadOf(json, shard, FileOf(json, [t]));
            DataFits(t) && (|EncodedHeader(json, [t])| <= MAX_HEADER ==> r.Ok? && METADATA_KEY !in r.value)
  {
    hide EncodedHeader, FileOf, ReadOf, Faithful;
    var t := Data(METADATA_KEY, "U8", [1], [7]);
    assert Product([1]) == 1 * Product([1][1..]);
    if |EncodedHeader(json, [t])| <= MAX_HEADER {
      RoundTrip(json, shard, [t]);
      LosslessExactly(json, shard, [t]);
      assert t in [t];
    }
  }

  /** The overflow refusal is real: whatever the codec, the reader refuses the written file of this tensor, which
      has no bytes and no negative dimension. */
  lemma ZeroHidesOverflow(json: Json, shard: string)
    requires Faithful(json)
    ensures var t := Data("empty", "U8", [0x1_0000_0000, 0x1_0000_0000, 0], []);
            DataFits(t)
            && (|EncodedHeader(json, [t])| < U64 ==> ReadOf(json, shard, FileOf(json, [t])).Err?)
  {
    hide EncodedHeader, FileOf, ReadOf, Faithful;
    var t := Data("empty", "U8", [0x1_0000_0000, 0x1_0000_0000, 0], []);
    OverflowingShape(t.shape);
    if |EncodedHeader(json, [t])| < U64 {
      RoundTrip(json, shard, [t]);
      assert t in [t] && !Readable(t);
    }
  }

  lemma OverflowingShape(shape: seq<int>)
    requires shape == [0x1_0000_0000, 0x1_0000_0000, 0]
    ensures Product(shape) == 0 && !ShapeOk(shape)
  {
    assert shape[1..] == [0x1_0000_0000, 0] && shape[1..][1..] == [0];
    assert Product([0]) == 0 * Product([]);
    assert Product(shape[1..]) == 0x1_0000_0000 * Product([0]) == 0;
    assert Product(shape) == 0x1_0000_0000 * Product(shape[1..]) == 0;
    var prefix := shape[..2];
    assert prefix[1..] == [0x1_0000_0000] && prefix[1..][1..] == [];
    assert Product(prefix[1..]) == 0x1_0000_0000 * Product([]);
    assert Product(prefix) == 0x1_0000_0000 * Product(prefix[1..]) == U64;
  }
}
