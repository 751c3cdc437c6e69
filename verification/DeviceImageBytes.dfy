/** The device image byte for byte, said of the manifest's own fields: which manifests build, where each record goes,
    and which byte of its shard stands at each address. */
module DeviceImageBytes {
  import opened Basics
  import opened Arithmetic
  import opened Arena
  import opened DeviceImage
  import opened DeviceImageWriter
  import Tiling
  import Bytes
  import Ordering

  const WEIGHTS: string := "sm120_row8_k64"
  const SCALES: string := "sm120_row8_group16_e4m3"

  lemma EndsWithExactly(s: string, suffix: string)
    ensures EndsWith(s, suffix) <==> exists prefix :: s == prefix + suffix
  {
    if EndsWith(s, suffix) { assert s == s[..|s| - |suffix|] + suffix; }
  }

  lemma SuffixesDiffer(layout: string)
    ensures !(EndsWith(layout, WEIGHTS) && EndsWith(layout, SCALES))
  {
    if EndsWith(layout, WEIGHTS) { assert layout[|layout| - |WEIGHTS|..][|WEIGHTS| - 1] == layout[|layout| - 1]; }
    if EndsWith(layout, SCALES) { assert layout[|layout| - |SCALES|..][|SCALES| - 1] == layout[|layout| - 1]; }
  }

  /** Rows and blocks of a tiled shape whose blocks have `per` entries and `width` bytes: whole blocks, and as many
      bytes as the record says. */
  ghost predicate Tileable(shape: seq<int>, per: nat, width: nat, bytes: int)
    requires per > 0
  {
    |shape| >= 2
    && var rows, last := Product(shape[..|shape| - 1]), shape[|shape| - 1];
       rows > 0 && last > 0 && last % per == 0 && rows * (last / per * width) == bytes
  }

  /** A record the builder takes, with its shard: 64 values of 4 bits a weight block, 4 scales of 8 bits a scale
      block. */
  ghost predicate Passes(file: seq<byte>, hash: Hash, r: Record) {
    |file| >= 8
    && var header := Bytes.Unpack(file[..8]);
       var from, to := 8 + header + r.begin, 8 + header + r.end;
       r.name != "" && r.layout != "" && |r.digest| == 64
       && r.physicalShape != [] && (forall d | d in r.physicalShape :: d >= 0)
       && r.logicalShape != [] && (forall d | d in r.logicalShape :: d >= 0)
       && 2 <= header <= 0x1000_0000 && 0 <= r.begin < r.end && r.byteLength == r.end - r.begin && to <= |file|
       && hash(file[from..to]) == r.digest
       && (EndsWith(r.layout, WEIGHTS) ==> Tileable(r.logicalShape, 64, 32, r.byteLength))
       && (EndsWith(r.layout, SCALES) ==> Tileable(r.physicalShape, 4, 4, r.byteLength))
  }

  /** Byte (row, block, b) of a row-major source stands at its tile address. */
  ghost predicate TiledByteAt(file: seq<byte>, data: int, image: seq<byte>, offset: nat,
                              rows: nat, blocks: nat, width: nat, row: nat, block: nat, b: nat)
  {
    var t := row / 8;
    var g := Min(8, rows - 8 * t);
    var from := data + (row * blocks + block) * width + b;
    var to := offset + 8 * t * (blocks * width) + block * (g * width) + (row - 8 * t) * width + b;
    0 <= from < |file| && 0 <= to < |image| && image[to] == file[from]
  }

  ghost predicate TiledFrom(file: seq<byte>, data: int, image: seq<byte>, offset: nat,
                            rows: int, blocks: int, width: nat)
  {
    forall row: nat, block: nat, b: nat | row < rows && block < blocks && b < width ::
      TiledByteAt(file, data, image, offset, rows, blocks, width, row, block, b)
  }

  /** What the image holds of a record whose slot starts at `offset`. */
  ghost predicate HoldsRecord(file: seq<byte>, image: seq<byte>, r: Record, offset: nat) {
    |file| >= 8 && r.logicalShape != [] && r.physicalShape != [] &&
    var data := 8 + Bytes.Unpack(file[..8]);
    var logical, physical := |r.logicalShape| - 1, |r.physicalShape| - 1;
    if EndsWith(r.layout, WEIGHTS) then
      TiledFrom(file, data + r.begin, image, offset,
                Product(r.logicalShape[..logical]), r.logicalShape[logical] / 64, 32)
    else if EndsWith(r.layout, SCALES) then
      TiledFrom(file, data + r.begin, image, offset,
                Product(r.physicalShape[..physical]), r.physicalShape[physical] / 4, 4)
    else
      0 <= data + r.begin <= data + r.end <= |file| && 0 <= r.byteLength && offset + r.byteLength <= |image|
      && image[offset..offset + r.byteLength] == file[data + r.begin..data + r.end]
  }

  // ---------------------------------------------------------------- one record

  /** Bytes of a row: 64 four-bit values in 32 bytes. */
  lemma WeightStride(m: nat)
    ensures RowBytes(64 * m, false) == m * 32 && 64 * m / 64 == m
  {
  }

  /** Scales carry one byte for sixteen values, so 64 values are four of them. */
  lemma ScaleStride(k: nat, r: nat)
    requires r < 4
    ensures 16 * (4 * k + r) % 64 == 16 * r
    ensures RowBytes(16 * (4 * k), true) == k * 4 && 16 * (4 * k) / 64 == k
  {
    assert 16 * (4 * k + r) == 64 * k + 16 * r;
  }

  lemma WeightsExactly(t: Tensor)
    requires IsTiled(t.layout) && !IsScale(t.layout)
    ensures TiledGeometry(t).Ok? <==> Tileable(t.logicalShape, 64, 32, t.byteLength)
    ensures TiledGeometry(t).Ok? ==>
              var n := |t.logicalShape| - 1;
              TiledGeometry(t).value.rows == Product(t.logicalShape[..n])
              && TiledGeometry(t).value.contracting == t.logicalShape[n]
  {
    hide IsScale, IsTiled, Product, RowBytes;
    if |t.logicalShape| >= 2 {
      var last := t.logicalShape[|t.logicalShape| - 1];
      if last > 0 && last % 64 == 0 { WeightStride(last / 64); }
    }
  }

  lemma ScalesExactly(t: Tensor)
    requires IsScale(t.layout)
    ensures TiledGeometry(t).Ok? <==> Tileable(t.physicalShape, 4, 4, t.byteLength)
    ensures TiledGeometry(t).Ok? ==>
              var n := |t.physicalShape| - 1;
              TiledGeometry(t).value.rows == Product(t.physicalShape[..n])
              && TiledGeometry(t).value.contracting / 64 == t.physicalShape[n] / 4
  {
    hide IsScale, Product, RowBytes;
    if |t.physicalShape| >= 2 {
      var last := t.physicalShape[|t.physicalShape| - 1];
      if last > 0 { ScaleStride(last / 4, last % 4); }
    }
  }

  lemma GeometryExactly(t: Tensor)
    ensures IsTiled(t.layout) <==> EndsWith(t.layout, WEIGHTS) || EndsWith(t.layout, SCALES)
    ensures EndsWith(t.layout, WEIGHTS) ==>
              (TiledGeometry(t).Ok? <==> Tileable(t.logicalShape, 64, 32, t.byteLength))
    ensures EndsWith(t.layout, WEIGHTS) && TiledGeometry(t).Ok? ==>
              var n := |t.logicalShape| - 1;
              TiledGeometry(t).value.rows == Product(t.logicalShape[..n])
              && TiledGeometry(t).value.contracting / 64 == t.logicalShape[n] / 64
              && BlockBytes(IsScale(t.layout)) == 32
    ensures EndsWith(t.layout, SCALES) ==>
              (TiledGeometry(t).Ok? <==> Tileable(t.physicalShape, 4, 4, t.byteLength))
    ensures EndsWith(t.layout, SCALES) && TiledGeometry(t).Ok? ==>
              var n := |t.physicalShape| - 1;
              TiledGeometry(t).value.rows == Product(t.physicalShape[..n])
              && TiledGeometry(t).value.contracting / 64 == t.physicalShape[n] / 4
              && BlockBytes(IsScale(t.layout)) == 4
  {
    hide EndsWith, Product, TiledGeometry, Tileable;
    SuffixesDiffer(t.layout);
    if IsScale(t.layout) { ScalesExactly(t); } else if IsTiled(t.layout) { WeightsExactly(t); }
  }

  lemma ShapeExactly(shape: seq<int>)
    ensures ShapeOk(shape) <==> shape != [] && forall d | d in shape :: d >= 0
  {
    assert forall i | 0 <= i < |shape| :: shape[i] in shape;
  }

  /** The planner's checks and the writer's, together, are the ones listed. */
  lemma PassesExactly(files: Files, hash: Hash, r: Record)
    ensures RecordOk(files, r) ==> Readable(files, Planned(files, r))
    ensures r.shard in files && Passes(files[r.shard], hash, r)
            <==> RecordOk(files, r) && Payload(files, hash, Planned(files, r)).Ok?
  {
    hide EndsWith, Product, Bytes.Unpack, Tileable, TiledGeometry, ShapeOk;
    ShapeExactly(r.physicalShape);
    ShapeExactly(r.logicalShape);
    if RecordOk(files, r) {
      GeometryExactly(Planned(files, r));
    }
  }

  /** The tiled bytes of a source, at their addresses. */
  lemma TiledStands(file: seq<byte>, data: nat, image: seq<byte>, offset: nat, rows: nat, blocks: nat, width: nat)
    requires data + Tiling.Extent(rows, blocks, width) <= |file|
    requires offset + Tiling.Extent(rows, blocks, width) <= |image|
    requires var source := file[data..data + Tiling.Extent(rows, blocks, width)];
             image[offset..offset + |source|] == Tiling.Tiled(source, rows, blocks, width)
    ensures TiledFrom(file, data, image, offset, rows, blocks, width)
  {
    hide Tiling.Tiled, Tiling.Extent, Tiling.TileAddress, Tiling.SourceIndex;
    var source := file[data..data + Tiling.Extent(rows, blocks, width)];
    Tiling.TilingIsBijection(source, rows, blocks, width);
    forall row: nat, block: nat, b: nat | row < rows && block < blocks && b < width
      ensures TiledByteAt(file, data, image, offset, rows, blocks, width, row, block, b)
    {
      var c := Tiling.Coord(row, block, b);
      Tiling.TileAddressFormula(rows, blocks, width, c);
      assert Tiling.InShape(rows, blocks, width, c);
      var to, from := Tiling.TileAddress(rows, blocks, width, c), Tiling.SourceIndex(blocks, width, c);
      assert image[offset + to] == image[offset..offset + |source|][to] && file[data + from] == source[from];
    }
  }

  lemma RecordStands(files: Files, hash: Hash, r: Record, image: seq<byte>, offset: nat)
    requires RecordOk(files, r) && Readable(files, Planned(files, r)) && offset + r.byteLength <= |image|
    requires var payload := Payload(files, hash, Planned(files, r));
             payload.Ok? && image[offset..offset + r.byteLength] == payload.value
    ensures HoldsRecord(files[r.shard], image, r, offset)
  {
    hide EndsWith, Product, Bytes.Unpack, Tileable, TiledGeometry, Tiling.Extent, Tiling.Tiled, TiledFrom;
    var t := Planned(files, r);
    GeometryExactly(t);
    if IsTiled(t.layout) {
      var g := TiledGeometry(t).value;
      TiledStands(files[t.shard], t.sourceOffset, image, offset, g.rows, g.contracting / 64,
                  BlockBytes(IsScale(t.layout)));
    }
  }

  // ---------------------------------------------------------------- the whole image

  lemma AcceptedPlan(files: Files, records: seq<Record>, expectedTensors: nat, expectedBytes: nat)
    ensures PlanOf(files, records, expectedTensors, expectedBytes).Ok?
            <==> |records| == expectedTensors && TotalBytes(records) == expectedBytes
                 && (forall i, j | 0 <= i < j < |records| :: records[i].name != records[j].name)
                 && (forall r | r in records :: RecordOk(files, r))
  {
    hide RecordOk, Planned, Place, EndOf, ByName, TotalBytes;
    assert DistinctNames(records) <==> forall i, j | 0 <= i < j < |records| :: records[i].name != records[j].name;
  }

  lemma BuildsExactly(files: Files, hash: Hash, records: seq<Record>, expectedTensors: nat, expectedBytes: nat)
    requires PlanOf(files, records, expectedTensors, expectedBytes).Ok?
    ensures forall r | r in records :: RecordOk(files, r) && Readable(files, Planned(files, r))
    ensures BuildOf(files, hash, records, expectedTensors, expectedBytes).Ok?
            <==> forall r | r in records :: Payload(files, hash, Planned(files, r)).Ok?
  {
    hide PlanOf, Payload, RecordOk, Planned, Image;
    var plan := PlanOf(files, records, expectedTensors, expectedBytes).value;
    PlanIsWritable(files, records, expectedTensors, expectedBytes);
    PlanCovers(files, records, expectedTensors, expectedBytes);
    forall r | r in records ensures RecordOk(files, r) && Readable(files, Planned(files, r)) {
      PassesExactly(files, hash, r);
    }
    forall i | 0 <= i < |plan.tensors| ensures exists r :: r in records && plan.tensors[i] == Planned(files, r) {
      assert plan.tensors[i] in plan.tensors;
    }
  }

  /** Which builds succeed: the expected number of records and of bytes, no name twice, and every record passes. */
  lemma BuildSucceedsExactly(files: Files, hash: Hash, records: seq<Record>,
                             expectedTensors: nat, expectedBytes: nat)
    ensures BuildOf(files, hash, records, expectedTensors, expectedBytes).Ok?
            <==> |records| == expectedTensors && TotalBytes(records) == expectedBytes
                 && (forall i, j | 0 <= i < j < |records| :: records[i].name != records[j].name)
                 && (forall r | r in records :: r.shard in files && Passes(files[r.shard], hash, r))
  {
    hide PlanOf, Payload, Passes, RecordOk, Planned, ImageOf, Readable, TotalBytes;
    AcceptedPlan(files, records, expectedTensors, expectedBytes);
    forall r: Record | r in records
      ensures r.shard in files && Passes(files[r.shard], hash, r)
              <==> RecordOk(files, r) && (Readable(files, Planned(files, r))
                                          && Payload(files, hash, Planned(files, r)).Ok?)
    {
      PassesExactly(files, hash, r);
    }
    if PlanOf(files, records, expectedTensors, expectedBytes).Ok? {
      BuildsExactly(files, hash, records, expectedTensors, expectedBytes);
    }
  }

  /** The end of the tensor before tensor `i`. */
  ghost function EndBefore(sorted: seq<Record>, offsets: seq<nat>, i: nat): int
    requires i <= |sorted| == |offsets|
  {
    if i == 0 then 0 else offsets[i - 1] + sorted[i - 1].byteLength
  }

  /** A finished build, byte for byte: the records in name order, each at the first multiple of 256 from the end of
      the one before, its bytes there in the order its layout asks for, and zeros between them. */
  lemma BuiltBytes(files: Files, hash: Hash, records: seq<Record>, expectedTensors: nat, expectedBytes: nat)
    returns (sorted: seq<Record>, offsets: seq<nat>)
    requires BuildOf(files, hash, records, expectedTensors, expectedBytes).Ok?
    ensures multiset(sorted) == multiset(records) && |sorted| == |offsets|
    ensures forall i, j | 0 <= i < j < |sorted| :: Ordering.Less(sorted[i].name, sorted[j].name)
    ensures forall i | 0 <= i < |sorted| ::
              offsets[i] % 256 == 0 && EndBefore(sorted, offsets, i) <= offsets[i] < EndBefore(sorted, offsets, i) + 256
    ensures var image := BuildOf(files, hash, records, expectedTensors, expectedBytes).value;
            var end := EndBefore(sorted, offsets, |sorted|);
            && |image| % 256 == 0 && end <= |image| < end + 256
            && (forall i | 0 <= i < |sorted| ::
                  sorted[i].shard in files && Passes(files[sorted[i].shard], hash, sorted[i])
                  && HoldsRecord(files[sorted[i].shard], image, sorted[i], offsets[i]))
            && (forall a | 0 <= a < |image|
                  && (forall i | 0 <= i < |sorted| :: !(offsets[i] <= a < offsets[i] + sorted[i].byteLength)) ::
                  image[a] == 0)
  {
    hide Payload, Passes, RecordOk, HoldsRecord, Owner, BuildOf, PlanOf, Readable, Planned, AlignUp, Writable,
         Ordering.Less, EndBefore;
    BuiltImage(files, hash, records, expectedTensors, expectedBytes);
    var plan := PlanOf(files, records, expectedTensors, expectedBytes).value;
    var image := BuildOf(files, hash, records, expectedTensors, expectedBytes).value;
    sorted, offsets := PlanInOrder(files, records, expectedTensors, expectedBytes);
    forall i | 0 <= i < |sorted|
      ensures sorted[i].shard in files && Passes(files[sorted[i].shard], hash, sorted[i])
      ensures HoldsRecord(files[sorted[i].shard], image, sorted[i], offsets[i])
    {
      SlotFacts(files, plan, i);
      PassesExactly(files, hash, sorted[i]);
      RecordStands(files, hash, sorted[i], image, offsets[i]);
    }
  }

  lemma PlanInOrder(files: Files, records: seq<Record>, expectedTensors: nat, expectedBytes: nat)
    returns (sorted: seq<Record>, offsets: seq<nat>)
    requires PlanOf(files, records, expectedTensors, expectedBytes).Ok?
    ensures multiset(sorted) == multiset(records) && |sorted| == |offsets| == |records|
    ensures forall i, j | 0 <= i < j < |sorted| :: Ordering.Less(sorted[i].name, sorted[j].name)
    ensures var plan := PlanOf(files, records, expectedTensors, expectedBytes).value;
            && |plan.slots| == |plan.tensors| == |sorted|
            && (forall i | 0 <= i < |sorted| ::
                  RecordOk(files, sorted[i]) && plan.tensors[i] == Planned(files, sorted[i])
                  && plan.slots[i] == Slot(offsets[i], sorted[i].byteLength))
            && plan.arena == AlignUp(EndBefore(sorted, offsets, |sorted|))
    ensures forall i | 0 <= i < |sorted| :: offsets[i] == AlignUp(EndBefore(sorted, offsets, i))
  {
    hide PlanOf, RecordOk, Planned, AlignUp, ByName, ByteLengths, PlannedAll, Place, EndOf, Ordering.Less,
         CursorBefore, EndBefore;
    var plan := PlanOf(files, records, expectedTensors, expectedBytes).value;
    sorted := ByName(records);
    SortedRecords(files, records, expectedTensors, expectedBytes);
    offsets := seq(|sorted|, i requires 0 <= i < |sorted| => plan.slots[i].offset);
    GreedyInOrder(sorted, plan.slots);
    forall i | 0 <= i < |sorted|
      ensures plan.tensors[i] == Planned(files, sorted[i])
      ensures plan.slots[i] == Slot(offsets[i], sorted[i].byteLength)
      ensures CursorBefore(plan.slots, i, 0) == EndBefore(sorted, offsets, i)
    {
      PlannedAt(files, sorted, i);
      EndsAgree(sorted, offsets, plan.slots, i);
    }
    EndsAgree(sorted, offsets, plan.slots, |sorted|);
  }

  lemma EndsAgree(sorted: seq<Record>, offsets: seq<nat>, slots: seq<Slot>, i: nat)
    requires i <= |sorted| == |offsets| == |slots|
    requires i > 0 ==> slots[i - 1].length == sorted[i - 1].byteLength && offsets[i - 1] == slots[i - 1].offset
    ensures CursorBefore(slots, i, 0) == EndBefore(sorted, offsets, i)
  {
  }

  lemma PlannedAt(files: Files, sorted: seq<Record>, i: nat)
    requires i < |sorted| && forall k | 0 <= k < |sorted| :: RecordOk(files, sorted[k])
    ensures PlannedAll(files, sorted)[i] == Planned(files, sorted[i])
  {
    hide RecordOk, Planned;
  }

  lemma SortedRecords(files: Files, records: seq<Record>, expectedTensors: nat, expectedBytes: nat)
    requires PlanOf(files, records, expectedTensors, expectedBytes).Ok?
    ensures var sorted := ByName(records);
            multiset(sorted) == multiset(records)
            && (forall i, j | 0 <= i < j < |sorted| :: Ordering.Less(sorted[i].name, sorted[j].name))
            && (forall i | 0 <= i < |sorted| :: RecordOk(files, sorted[i]))
            && PlanOf(files, records, expectedTensors, expectedBytes).value
               == Plan(PlannedAll(files, sorted), Place(ByteLengths(sorted), 0), AlignUp(EndOf(ByteLengths(sorted), 0)))
            && forall i | 0 <= i < |sorted| :: ByteLengths(sorted)[i] == sorted[i].byteLength
  {
    hide Place, EndOf, AlignUp, Planned, TotalBytes;
    var sorted := ByName(records);
    SortedByName(records);
    SortKeepsRecords(files, records);
    Ordering.SortContents(NotAfter(), records);
    forall i | 0 <= i < |sorted| ensures ByteLengths(sorted)[i] == sorted[i].byteLength {
      LengthAt(files, sorted, i);
    }
  }

  lemma GreedyInOrder(sorted: seq<Record>, slots: seq<Slot>)
    requires slots == Place(ByteLengths(sorted), 0)
    ensures |slots| == |sorted| && forall i | 0 <= i < |slots| :: slots[i].length == ByteLengths(sorted)[i]
    ensures forall i | 0 <= i < |slots| :: slots[i].offset == AlignUp(CursorBefore(slots, i, 0))
    ensures EndOf(ByteLengths(sorted), 0) == CursorBefore(slots, |slots|, 0)
  {
    hide AlignUp, Place, EndOf, CursorBefore;
    PlaceOrdered(ByteLengths(sorted), 0);
    PlaceIsGreedy(ByteLengths(sorted), 0);
    PlaceUnique(slots, 0);
    assert Lengths(slots) == ByteLengths(sorted);
  }
}
