/** The device-image builder: validate and plan the tensors, then write them, tiled or verbatim, into
    one arena file. */
module DeviceImage {
  import opened Basics
  import opened Arena
  import Bytes
  import Ordering

  /** A tensor record of the compilation manifest. */
  datatype Record = Record(
    name: string, shard: string, begin: int, end: int, byteLength: int, layout: string,
    physicalShape: seq<int>, logicalShape: seq<int>, digest: string)

  /** A planned tensor; its arena slot is planned beside it. */
  datatype Tensor = Tensor(
    name: string, shard: string, sourceOffset: nat, byteLength: nat, layout: string,
    physicalShape: seq<int>, logicalShape: seq<int>, digest: string)

  type Files = map<string, seq<byte>>

  // ---------------------------------------------------------------- validation and planning

  const MAX_HEADER: nat := 256 * 1024 * 1024

  /** Where the tensor data of a shard begins: an eight-byte header length, then the header. */
  function DataBase(file: seq<byte>): Result<nat> {
    if |file| < 8 then Err else
      var headerBytes := Bytes.Unpack(file[..8]);
      if headerBytes < 2 || headerBytes > MAX_HEADER || 8 + headerBytes > |file| then Err
      else Ok(8 + headerBytes)
  }

  predicate ShapeOk(shape: seq<int>) {
    shape != [] && forall i | 0 <= i < |shape| :: shape[i] >= 0
  }

  predicate RecordOk(files: Files, r: Record) {
    && r.name != ""
    && r.begin >= 0 && r.end >= 0 && r.byteLength > 0
    && r.begin <= r.end && r.end - r.begin == r.byteLength
    && r.shard in files
    && DataBase(files[r.shard]).Ok?
    && DataBase(files[r.shard]).value + r.begin <= |files[r.shard]|
    && r.byteLength <= |files[r.shard]| - (DataBase(files[r.shard]).value + r.begin)
    && r.layout != "" && |r.digest| == 64
    && ShapeOk(r.physicalShape) && ShapeOk(r.logicalShape)
  }

  function Planned(files: Files, r: Record): Tensor
    requires RecordOk(files, r)
  {
    Tensor(r.name, r.shard, DataBase(files[r.shard]).value + r.begin, r.byteLength, r.layout,
           r.physicalShape, r.logicalShape, r.digest)
  }

  /** Records sort by name. */
  function NotAfter(): (Record, Record) -> bool {
    (a: Record, b: Record) => !Ordering.Less(b.name, a.name)
  }

  function ByName(records: seq<Record>): (sorted: seq<Record>)
    ensures |sorted| == |records|
  {
    Ordering.Sort(NotAfter(), records)
  }

  function TotalBytes(records: seq<Record>): int {
    if records == [] then 0 else records[0].byteLength + TotalBytes(records[1..])
  }

  ghost predicate DistinctNames(records: seq<Record>) {
    Ordering.Pairwise((x: Record, y: Record) => x.name != y.name, records)
  }

  /** What the manifest must satisfy, whatever the order of its records. */
  ghost predicate Acceptable(files: Files, records: seq<Record>, expectedTensors: nat, expectedBytes: nat) {
    && |records| == expectedTensors
    && (forall i | 0 <= i < |records| :: RecordOk(files, records[i]))
    && DistinctNames(records)
    && TotalBytes(records) == expectedBytes
  }

  datatype Plan = Plan(tensors: seq<Tensor>, slots: seq<Slot>, arena: nat)

  function ByteLengths(records: seq<Record>): (lengths: seq<nat>)
    ensures |lengths| == |records|
  {
    seq(|records|, i requires 0 <= i < |records| =>
      if records[i].byteLength >= 0 then records[i].byteLength else 0)
  }

  function PlannedAll(files: Files, records: seq<Record>): (tensors: seq<Tensor>)
    requires forall i | 0 <= i < |records| :: RecordOk(files, records[i])
    ensures |tensors| == |records|
  {
    seq(|records|, i requires 0 <= i < |records| => Planned(files, records[i]))
  }

  /** The plan: the records in name order, packed greedily. */
  ghost function PlanOf(files: Files, records: seq<Record>, expectedTensors: nat, expectedBytes: nat): Result<Plan> {
    if Acceptable(files, records, expectedTensors, expectedBytes) then
      SortKeepsRecords(files, records);
      var sorted := ByName(records);
      var lengths := ByteLengths(sorted);
      Ok(Plan(PlannedAll(files, sorted), Place(lengths, 0), AlignUp(EndOf(lengths, 0))))
    else Err
  }

  lemma SortKeepsRecords(files: Files, records: seq<Record>)
    requires forall i | 0 <= i < |records| :: RecordOk(files, records[i])
    ensures forall i | 0 <= i < |records| :: RecordOk(files, ByName(records)[i])
  {
    var sorted := ByName(records);
    Ordering.SortMembers(NotAfter(), records);
    forall i | 0 <= i < |sorted| ensures RecordOk(files, sorted[i]) {
      assert sorted[i] in records;
    }
  }

  lemma NotAfterIsOrder()
    ensures Ordering.WeakOrder(NotAfter())
  {
    forall a: Record, b: Record
      ensures NotAfter()(a, b) || NotAfter()(b, a)
    {
      if Ordering.Less(a.name, b.name) && Ordering.Less(b.name, a.name) {
        Ordering.LessTransitive(a.name, b.name, a.name);
        Ordering.LessIrreflexive(a.name);
      }
    }
    forall a: Record, b: Record, c: Record | NotAfter()(a, b) && NotAfter()(b, c)
      ensures NotAfter()(a, c)
    {
      if Ordering.Less(c.name, a.name) {
        Ordering.LessTotal(a.name, b.name);
        if Ordering.Less(a.name, b.name) { Ordering.LessTransitive(c.name, a.name, b.name); }
      }
    }
  }

  lemma {:induction false} TotalBytesSplit(a: seq<Record>, k: nat)
    requires k < |a|
    ensures TotalBytes(a) == a[k].byteLength + TotalBytes(a[..k] + a[k + 1..])
  {
    if k == 0 {
      assert a[..0] + a[1..] == a[1..];
    } else {
      TotalBytesSplit(a[1..], k - 1);
      assert (a[..k] + a[k + 1..])[1..] == a[1..][..k - 1] + a[1..][k..];
    }
  }

  lemma {:induction false} TotalBytesOfContents(a: seq<Record>, b: seq<Record>)
    requires multiset(a) == multiset(b)
    ensures TotalBytes(a) == TotalBytes(b)
  {
    assert |a| == |multiset(a)| == |b|;
    if a == [] {
    } else {
      var k, rest := Ordering.TakeOut(a, b);
      TotalBytesSplit(b, k);
      TotalBytesOfContents(a[1..], rest);
    }
  }

  lemma DistinctNamesOfContents(a: seq<Record>, b: seq<Record>)
    requires multiset(a) == multiset(b) && DistinctNames(a)
    ensures DistinctNames(b)
  {
    Ordering.PairwiseOfContents((x: Record, y: Record) => x.name != y.name, a, b);
  }

  lemma SortedByName(records: seq<Record>)
    requires DistinctNames(records)
    ensures Ordering.Increasing((a: Record, b: Record) => Ordering.Less(a.name, b.name),
                                ByName(records))
  {
    var sorted := ByName(records);
    NotAfterIsOrder();
    Ordering.SortSorted(NotAfter(), records);
    Ordering.SortContents(NotAfter(), records);
    DistinctNamesOfContents(records, sorted);
    forall i, j | 0 <= i < j < |sorted|
      ensures Ordering.Less(sorted[i].name, sorted[j].name)
    {
      Ordering.LessTotal(sorted[i].name, sorted[j].name);
      assert NotAfter()(sorted[i], sorted[j]);
    }
  }

  /** The plan, acceptance included, does not depend on the order of the manifest's records. */
  lemma PlanIgnoresRecordOrder(files: Files, a: seq<Record>, b: seq<Record>,
                               expectedTensors: nat, expectedBytes: nat)
    requires multiset(a) == multiset(b)
    ensures PlanOf(files, a, expectedTensors, expectedBytes) == PlanOf(files, b, expectedTensors, expectedBytes)
  {
    if Acceptable(files, a, expectedTensors, expectedBytes) {
      AcceptableOfContents(files, a, b, expectedTensors, expectedBytes);
    }
    if Acceptable(files, b, expectedTensors, expectedBytes) {
      AcceptableOfContents(files, b, a, expectedTensors, expectedBytes);
    }
    if DistinctNames(a) && DistinctNames(b) {
      SortedByName(a);
      SortedByName(b);
      Ordering.SortContents(NotAfter(), a);
      Ordering.SortContents(NotAfter(), b);
      var less := (x: Record, y: Record) => Ordering.Less(x.name, y.name);
      forall x: Record, y: Record ensures !(less(x, y) && less(y, x)) {
        if less(x, y) && less(y, x) {
          Ordering.LessTransitive(x.name, y.name, x.name);
          Ordering.LessIrreflexive(x.name);
        }
      }
      Ordering.IncreasingUnique(less, ByName(a), ByName(b));
    }
  }

  /** The planned tensors are the manifest's records, no more and no fewer. */
  lemma PlanCovers(files: Files, records: seq<Record>, expectedTensors: nat, expectedBytes: nat)
    requires PlanOf(files, records, expectedTensors, expectedBytes).Ok?
    ensures var tensors := PlanOf(files, records, expectedTensors, expectedBytes).value.tensors;
            (forall r | r in records :: RecordOk(files, r) && Planned(files, r) in tensors)
            && (forall t | t in tensors :: exists r :: r in records && RecordOk(files, r) && t == Planned(files, r))
  {
    hide RecordOk, Planned;
    var tensors := PlanOf(files, records, expectedTensors, expectedBytes).value.tensors;
    var sorted := ByName(records);
    SortKeepsRecords(files, records);
    Ordering.SortMembers(NotAfter(), records);
    forall r | r in records ensures RecordOk(files, r) && Planned(files, r) in tensors {
      assert r in sorted;
      var i :| 0 <= i < |sorted| && sorted[i] == r;
      assert tensors[i] == Planned(files, r);
    }
    forall t | t in tensors ensures exists r :: r in records && RecordOk(files, r) && t == Planned(files, r) {
      var i :| 0 <= i < |tensors| && tensors[i] == t;
      assert sorted[i] in records;
    }
  }

  lemma AcceptableOfContents(files: Files, a: seq<Record>, b: seq<Record>, expectedTensors: nat, expectedBytes: nat)
    requires multiset(a) == multiset(b)
    requires Acceptable(files, a, expectedTensors, expectedBytes)
    ensures Acceptable(files, b, expectedTensors, expectedBytes)
  {
    assert |a| == |multiset(a)| == |b|;
    forall i | 0 <= i < |b| ensures RecordOk(files, b[i]) {
      assert b[i] in multiset(a);
    }
    DistinctNamesOfContents(a, b);
    TotalBytesOfContents(a, b);
  }

  /** The first `i` sorted records passed every check of the scan. */
  ghost predicate Scanned(files: Files, sorted: seq<Record>, i: nat, names: set<string>, tensors: seq<Tensor>)
    requires i <= |sorted|
  {
    && names == (set j | 0 <= j < i :: sorted[j].name)
    && (forall j | 0 <= j < i :: RecordOk(files, sorted[j]))
    && DistinctNames(sorted[..i])
    && tensors == PlannedAll(files, sorted[..i])
  }

  lemma ScanStep(files: Files, sorted: seq<Record>, i: nat, names: set<string>, tensors: seq<Tensor>)
    requires i < |sorted| && Scanned(files, sorted, i, names, tensors)
    requires sorted[i].name !in names && RecordOk(files, sorted[i])
    ensures Scanned(files, sorted, i + 1, names + {sorted[i].name}, tensors + [Planned(files, sorted[i])])
  {
    hide RecordOk, Planned;
    assert sorted[..i + 1] == sorted[..i] + [sorted[i]];
  }

  lemma ScanClash(sorted: seq<Record>, files: Files, i: nat, names: set<string>, tensors: seq<Tensor>)
    requires i < |sorted| && Scanned(files, sorted, i, names, tensors)
    requires sorted[i].name in names
    ensures !DistinctNames(sorted)
  {
    var j :| 0 <= j < i && sorted[j].name == sorted[i].name;
  }

  /** The scan of the sorted records decides acceptance of the manifest. */
  lemma AcceptableSorted(files: Files, records: seq<Record>, expectedTensors: nat, expectedBytes: nat)
    ensures Acceptable(files, records, expectedTensors, expectedBytes)
            <==> Acceptable(files, ByName(records), expectedTensors, expectedBytes)
  {
    Ordering.SortContents(NotAfter(), records);
    if Acceptable(files, records, expectedTensors, expectedBytes) {
      AcceptableOfContents(files, records, ByName(records), expectedTensors, expectedBytes);
    }
    if Acceptable(files, ByName(records), expectedTensors, expectedBytes) {
      AcceptableOfContents(files, ByName(records), records, expectedTensors, expectedBytes);
    }
  }

  lemma PlanRefused(files: Files, records: seq<Record>, expectedTensors: nat, expectedBytes: nat)
    requires !Acceptable(files, ByName(records), expectedTensors, expectedBytes)
    ensures PlanOf(files, records, expectedTensors, expectedBytes).Err?
  {
    hide Acceptable;
    AcceptableSorted(files, records, expectedTensors, expectedBytes);
  }

  lemma PlanAccepted(files: Files, records: seq<Record>, expectedTensors: nat, expectedBytes: nat)
    requires Acceptable(files, ByName(records), expectedTensors, expectedBytes)
    ensures var sorted := ByName(records);
            PlanOf(files, records, expectedTensors, expectedBytes)
            == Ok(Plan(PlannedAll(files, sorted), Place(ByteLengths(sorted), 0),
                       AlignUp(EndOf(ByteLengths(sorted), 0))))
  {
    AcceptableSorted(files, records, expectedTensors, expectedBytes);
  }

  /** The planning scan: sort by name, check each record, and advance an aligned cursor. */
  method TensorPlan(files: Files, records: seq<Record>, expectedTensors: nat, expectedBytes: nat)
    returns (r: Result<Plan>)
    ensures r == PlanOf(files, records, expectedTensors, expectedBytes)
  {
    hide Place, EndOf, AlignUp, Planned, PlannedAll, PlanOf, RecordOk, ByName, ByteLengths;
    var sorted := ByName(records);
    ghost var lengths := ByteLengths(sorted);
    if !Acceptable(files, sorted, expectedTensors, expectedBytes) {
      PlanRefused(files, records, expectedTensors, expectedBytes);
    }
    if |records| != expectedTensors { return Err; }
    var names: set<string> := {};
    var tensors: seq<Tensor>, slots: seq<Slot>, cursor: nat, i := [], [], 0, 0;
    EmptyScan(files, sorted);
    while i < |sorted|
      invariant 0 <= i <= |sorted|
      invariant Scanned(files, sorted, i, names, tensors)
      invariant Place(lengths, 0) == slots + Place(lengths[i..], cursor)
      invariant EndOf(lengths, 0) == EndOf(lengths[i..], cursor)
    {
      hide Scanned;
      var record := sorted[i];
      NeedsName(files, record);
      if record.name == "" { return Err; }
      if record.name in names {
        ScanClash(sorted, files, i, names, tensors);
        return Err;
      }
      if !RecordOk(files, record) { return Err; }
      var destination := AlignUp(cursor);
      LengthAt(files, sorted, i);
      PlaceStep(lengths, i, cursor);
      ScanStep(files, sorted, i, names, tensors);
      names := names + {record.name};
      tensors := tensors + [Planned(files, record)];
      slots := slots + [Slot(destination, record.byteLength)];
      cursor := destination + record.byteLength;
      i := i + 1;
    }
    assert sorted[..i] == sorted;
    EmptyPlace(lengths, i, cursor);
    if TotalBytes(sorted) != expectedBytes { return Err; }
    PlanAccepted(files, records, expectedTensors, expectedBytes);
    assert slots == Place(lengths, 0) && tensors == PlannedAll(files, sorted);
    return Ok(Plan(tensors, slots, AlignUp(cursor)));
  }

  lemma NeedsName(files: Files, record: Record)
    ensures RecordOk(files, record) ==> record.name != ""
  {
  }

  lemma LengthAt(files: Files, records: seq<Record>, i: nat)
    requires i < |records| && RecordOk(files, records[i])
    ensures ByteLengths(records)[i] == records[i].byteLength >= 0
  {
  }

  lemma EmptyScan(files: Files, sorted: seq<Record>)
    ensures Scanned(files, sorted, 0, {}, [])
  {
  }

  lemma EmptyPlace(lengths: seq<nat>, i: nat, cursor: nat)
    requires i == |lengths|
    ensures Place(lengths[i..], cursor) == [] && EndOf(lengths[i..], cursor) == cursor
  {
  }
}
