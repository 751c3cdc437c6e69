/** The Trellis35 image: the non-routed arena it accepts, the region table of a layer, the streaming
    concatenation, and the resulting address map. */
module TrellisImage {
  import opened Basics
  import opened Arithmetic
  import opened Arena
  import opened Ordering
  import Plans = DeviceImage
  import Writer = DeviceImageWriter

  const NON_ROUTED_BYTES: nat := 1_850_270_720
  const LAYER_BYTES: nat := 345_147_392
  const LAYERS: nat := 30
  const IMAGE_BYTES: nat := NON_ROUTED_BYTES + LAYERS * LAYER_BYTES

  // ---------------------------------------------------------------- the non-routed manifest

  datatype TensorRecord = TensorRecord(
    name: string, offset: int, bytes: int, dtype: string, layout: string,
    logicalShape: seq<int>, physicalShape: seq<int>)

  /** One or two positive dimensions whose product stays within the image. */
  ghost predicate ShapeOk(shape: seq<int>) {
    1 <= |shape| <= 2 && (forall i | 0 <= i < |shape| :: shape[i] > 0) && Product(shape) <= IMAGE_BYTES
  }

  lemma {:induction false} ProductGrows(shape: seq<int>, k: nat)
    requires k <= |shape| && forall i | 0 <= i < |shape| :: shape[i] > 0
    ensures 1 <= Product(shape[..k]) <= Product(shape)
    decreases |shape| - k, k
  {
    if k == |shape| {
      assert shape[..k] == shape;
      if k > 0 {
        ProductGrows(shape[..k - 1], k - 1);
        ProductAppend(shape[..k - 1], shape[k - 1]);
        assert shape[..k - 1] + [shape[k - 1]] == shape;
        assert shape[..k - 1][..k - 1] == shape[..k - 1];
        ProductAtLeast(Product(shape[..k - 1]), shape[k - 1]);
      }
    } else {
      ProductGrows(shape, k + 1);
      ProductGrows(shape[..k], k);
      ProductAppend(shape[..k], shape[k]);
      assert shape[..k][..k] == shape[..k];
      assert shape[..k] + [shape[k]] == shape[..k + 1];
      ProductAtLeast(Product(shape[..k]), shape[k]);
    }
  }

  lemma ProductAtLeast(p: int, d: int)
    requires p >= 1 && d >= 1
    ensures p * d >= p
  {
  }

  /** The overflow test of the source, without the multiplication it guards. */
  lemma QuotientTest(p: nat, limit: nat, d: nat)
    requires d > 0
    ensures p > limit / d <==> p * d > limit
  {
    var q := limit / d;
    assert limit == q * d + limit % d;
    if p > q {
      assert p * d >= (q + 1) * d == q * d + d;
    } else {
      assert p * d <= q * d;
    }
  }

  /** Accumulate the product one dimension at a time, never past the image size. */
  method CheckedShape(value: seq<int>) returns (ok: bool)
    ensures ok <==> ShapeOk(value)
  {
    if |value| != 1 && |value| != 2 { return false; }
    var product, i := 1, 0;
    while i < |value|
      invariant 0 <= i <= |value|
      invariant forall j | 0 <= j < i :: value[j] > 0
      invariant 1 <= product == Product(value[..i]) <= IMAGE_BYTES
    {
      if value[i] <= 0 { return false; }
      QuotientTest(product, IMAGE_BYTES, value[i]);
      ProductAppend(value[..i], value[i]);
      ProductAtLeast(product, value[i]);
      assert value[..i] + [value[i]] == value[..i + 1];
      if product > IMAGE_BYTES / value[i] {
        if forall j | 0 <= j < |value| :: value[j] > 0 { ProductGrows(value, i + 1); }
        return false;
      }
      product := product * value[i];
      i := i + 1;
    }
    assert value[..i] == value;
    return true;
  }

  function ElementBytes(dtype: string): nat {
    if dtype == "BF16" then 2 else if dtype == "F32" then 4
    else if dtype == "F8_E4M3" then 1 else if dtype == "U8" then 1 else 0
  }

  function LayoutDtype(layout: string): string {
    if layout in {"row_bf16", "scalar_bf16", "source_bf16"} then "BF16"
    else if layout == "scalar_f32" then "F32"
    else if layout in {"sm120_row8_group16_e4m3", "source_nk_fp8"} then "F8_E4M3"
    else if layout == "sm120_row8_k64" then "U8"
    else ""
  }

  predicate TensorLayoutOk(r: TensorRecord) {
    && LayoutDtype(r.layout) != "" && LayoutDtype(r.layout) == r.dtype
    && ElementBytes(r.dtype) * Product(r.physicalShape) == r.bytes
    && (if r.layout in {"source_bf16", "row_bf16", "source_nk_fp8"} then r.physicalShape == r.logicalShape
        else if r.layout in {"scalar_bf16", "scalar_f32"} then r.physicalShape == [1]
        else
          var divisor := if r.layout == "sm120_row8_group16_e4m3" then 16 else 2;
          |r.logicalShape| == 2 && r.logicalShape[1] % divisor == 0
          && r.physicalShape == [r.logicalShape[0], r.logicalShape[1] / divisor])
  }

  /** What one record must satisfy on its own. */
  ghost predicate RecordOk(r: TensorRecord) {
    && r.offset >= 0 && r.bytes > 0
    && ShapeOk(r.logicalShape) && ShapeOk(r.physicalShape) && TensorLayoutOk(r)
  }

  /** The slots a manifest claims. */
  function Slots(records: seq<TensorRecord>): (slots: seq<Slot>)
    ensures |slots| == |records|
  {
    seq(|records|, i requires 0 <= i < |records| => SlotOf(records[i]))
  }

  function SlotOf(r: TensorRecord): Slot {
    Slot(if r.offset >= 0 then r.offset else 0, if r.bytes >= 0 then r.bytes else 0)
  }

  lemma SlotOfRecord(r: TensorRecord)
    requires RecordOk(r)
    ensures SlotOf(r).offset == r.offset && SlotOf(r).End() == r.offset + r.bytes
  {
  }

  lemma SlotsAppend(records: seq<TensorRecord>, i: nat)
    requires i < |records|
    ensures Slots(records[..i + 1]) == Slots(records[..i]) + [SlotOf(records[i])]
  {
  }

  ghost predicate NamesIncrease(records: seq<TensorRecord>) {
    (forall i | 0 <= i < |records| :: records[i].name != "")
    && (forall i | 0 < i < |records| :: Less(records[i - 1].name, records[i].name))
  }

  /** The accepted manifests: well-formed records in name order whose slots are the greedy packing of their
      own lengths and fill the non-routed arena. */
  ghost predicate Accepted(records: seq<TensorRecord>, expectedCount: nat) {
    && |records| == expectedCount
    && (forall i | 0 <= i < |records| :: RecordOk(records[i]))
    && NamesIncrease(records)
    && Slots(records) == Place(Lengths(Slots(records)), 0)
    && AlignUp(EndOf(Lengths(Slots(records)), 0)) == NON_ROUTED_BYTES
  }

  /** Name order makes every name unique, so the duplicate test of the source never decides. */
  lemma {:induction false} NamesDistinct(records: seq<TensorRecord>, i: nat, j: nat)
    requires NamesIncrease(records) && i < j < |records|
    ensures Less(records[i].name, records[j].name) && records[i].name != records[j].name
  {
    if i + 1 >= j {
    } else {
      NamesDistinct(records, i, j - 1);
      LessTransitive(records[i].name, records[j - 1].name, records[j].name);
    }
    LessIrreflexive(records[i].name);
  }

  /** The first `i` records passed every check of the scan, which now stands at `cursor`. */
  ghost predicate Scanned(records: seq<TensorRecord>, i: nat, cursor: nat)
    requires i <= |records|
  {
    && (forall j | 0 <= j < i :: RecordOk(records[j]))
    && NamesIncrease(records[..i])
    && Greedy(Slots(records[..i]), 0)
    && cursor == CursorBefore(Slots(records[..i]), i, 0)
  }

  /** The scan over the records. */
  method CompactNonRouted(records: seq<TensorRecord>, expectedCount: nat) returns (ok: bool)
    ensures ok <==> Accepted(records, expectedCount)
  {
    hide Accepted, Scanned, ShapeOk, TensorLayoutOk, AlignUp, Less;
    if |records| != expectedCount {
      CountMatters(records, expectedCount);
      return false;
    }
    var names: set<string>, cursor: nat, previousName, i := {}, 0, "", 0;
    EmptyScan(records);
    while i < |records|
      invariant 0 <= i <= |records|
      invariant names == set j | 0 <= j < i :: records[j].name
      invariant previousName == PreviousName(records, i)
      invariant Scanned(records, i, cursor)
    {
      var record := records[i];
      var logicalOk := CheckedShape(record.logicalShape);
      var physicalOk := CheckedShape(record.physicalShape);
      Refusals(records, expectedCount, i, cursor);
      if record.offset < 0 || record.bytes <= 0 || !logicalOk || !physicalOk || !TensorLayoutOk(record) {
        return false;
      }
      if record.name == "" || record.name in names || !Less(previousName, record.name) {
        return false;
      }
      if record.offset != AlignUp(cursor) || record.offset > NON_ROUTED_BYTES
         || record.bytes > NON_ROUTED_BYTES - record.offset {
        return false;
      }
      ScanStep(records, i, cursor);
      names := names + {record.name};
      previousName := record.name;
      cursor := record.offset + record.bytes;
      i := i + 1;
    }
    ScanEnd(records, cursor);
    return AlignUp(cursor) == NON_ROUTED_BYTES;
  }

  function PreviousName(records: seq<TensorRecord>, i: nat): string
    requires i <= |records|
  {
    if i == 0 then "" else records[i - 1].name
  }

  lemma CountMatters(records: seq<TensorRecord>, expectedCount: nat)
    ensures Accepted(records, expectedCount) ==> |records| == expectedCount
  {
  }

  lemma EmptyScan(records: seq<TensorRecord>)
    ensures Scanned(records, 0, 0)
  {
  }

  /** The end of the scan: only the extent of the arena is left to decide. */
  lemma ScanEnd(records: seq<TensorRecord>, cursor: nat)
    requires Scanned(records, |records|, cursor)
    ensures Accepted(records, |records|) <==> AlignUp(cursor) == NON_ROUTED_BYTES
  {
    hide RecordOk, Place, EndOf, AlignUp, Less;
    assert records[..|records|] == records;
    PlaceUnique(Slots(records), 0);
  }

  lemma AcceptedSlots(records: seq<TensorRecord>, expectedCount: nat, i: nat)
    requires Accepted(records, expectedCount) && i < |records|
    ensures Slots(records)[i].offset == AlignUp(CursorBefore(Slots(records), i, 0))
    ensures Slots(records)[i].End() <= NON_ROUTED_BYTES
  {
    hide RecordOk, Place, EndOf, NamesIncrease;
    PlaceIsGreedy(Lengths(Slots(records)), 0);
    PlaceOrdered(Lengths(Slots(records)), 0);
  }

  lemma CursorOfPrefix(records: seq<TensorRecord>, i: nat)
    requires i <= |records| && forall j | 0 <= j < |records| :: RecordOk(records[j])
    ensures CursorBefore(Slots(records[..i]), i, 0) == CursorBefore(Slots(records), i, 0)
  {
    hide RecordOk;
    assert i > 0 ==> Slots(records[..i])[i - 1] == Slots(records)[i - 1];
  }

  /** What acceptance of the whole manifest says about record `i`: each early refusal is justified. */
  lemma Refusals(records: seq<TensorRecord>, expectedCount: nat, i: nat, cursor: nat)
    requires i < |records| && Scanned(records, i, cursor)
    ensures Accepted(records, expectedCount) ==>
              && RecordOk(records[i])
              && records[i].name != ""
              && (forall j | 0 <= j < i :: records[j].name != records[i].name)
              && Less(PreviousName(records, i), records[i].name)
              && records[i].offset == AlignUp(cursor)
              && records[i].offset + records[i].bytes <= NON_ROUTED_BYTES
  {
    hide RecordOk, Place, EndOf, Less, Greedy, AlignUp;
    if Accepted(records, expectedCount) {
      forall j | 0 <= j < i ensures records[j].name != records[i].name {
        NamesDistinct(records, j, i);
      }
      AcceptedSlots(records, expectedCount, i);
      CursorOfPrefix(records, i);
      EmptyIsLeast(records[i].name);
      assert Slots(records)[i] == SlotOf(records[i]);
      SlotOfRecord(records[i]);
      assert PreviousName(records, i) == (if i == 0 then "" else records[i - 1].name);
    }
  }

  lemma EmptyIsLeast(name: string)
    requires name != ""
    ensures Less("", name)
  {
  }

  lemma ScanStep(records: seq<TensorRecord>, i: nat, cursor: nat)
    requires i < |records| && Scanned(records, i, cursor) && RecordOk(records[i])
    requires records[i].name != "" && Less(PreviousName(records, i), records[i].name)
    requires records[i].offset == AlignUp(cursor)
    ensures Scanned(records, i + 1, records[i].offset + records[i].bytes)
  {
    hide RecordOk, Less, AlignUp, Greedy, NamesIncrease;
    hide Slots;
    SlotsAppend(records, i);
    SlotOfRecord(records[i]);
    assert CursorBefore(Slots(records[..i + 1]), i + 1, 0) == SlotOf(records[i]).End();
    GreedyExtend(Slots(records[..i]), SlotOf(records[i]), 0);
    NamesStep(records, i);
  }

  lemma NamesStep(records: seq<TensorRecord>, i: nat)
    requires i < |records| && NamesIncrease(records[..i])
    requires records[i].name != "" && Less(PreviousName(records, i), records[i].name)
    ensures NamesIncrease(records[..i + 1])
  {
    hide Less;
    var after := records[..i + 1];
    forall k | 0 <= k < |after| ensures after[k].name != "" {
      assert k < i ==> after[k] == records[..i][k];
    }
    forall k | 0 < k < |after| ensures Less(after[k - 1].name, after[k].name) {
      assert k < i ==> after[k] == records[..i][k] && after[k - 1] == records[..i][k - 1];
    }
  }

  /** Acceptance forces the packing: it is the only greedy one with these lengths, and a device-image plan
      for tensors of the same lengths uses the same slots and the same arena. */
  lemma AcceptedPackingIsForced(records: seq<TensorRecord>, expectedCount: nat, files: Plans.Files,
                                others: seq<Plans.Record>, expectedTensors: nat, expectedBytes: nat)
    requires Accepted(records, expectedCount)
    ensures Greedy(Slots(records), 0)
    ensures forall slots :: Greedy(slots, 0) && Lengths(slots) == Lengths(Slots(records)) ==> slots == Slots(records)
    ensures var plan := Plans.PlanOf(files, others, expectedTensors, expectedBytes);
            plan.Ok? && Plans.ByteLengths(Plans.ByName(others)) == Lengths(Slots(records)) ==>
              plan.value.slots == Slots(records) && plan.value.arena == NON_ROUTED_BYTES
  {
    hide RecordOk, Place, EndOf, Greedy, Slots, Lengths;
    PlaceIsGreedy(Lengths(Slots(records)), 0);
    forall slots | Greedy(slots, 0) && Lengths(slots) == Lengths(Slots(records))
      ensures slots == Slots(records)
    {
      PlaceUnique(slots, 0);
    }
  }

  // ---------------------------------------------------------------- the region table of a layer

  /** Offsets and lengths of the gate_up regions, then of the down regions. */
  function LayerRegions(): seq<Slot> {
    [ Slot(0, 95_158_272), Slot(95_158_272, 126_877_696), Slot(222_035_968, 1_024),
      Slot(222_036_992, 720_896), Slot(222_757_888, 360_448),
      Slot(223_118_336, 51_904_512), Slot(275_022_848, 69_206_016), Slot(344_228_864, 1_024),
      Slot(344_229_888, 196_608), Slot(344_426_496, 720_896) ]
  }

  /** The region that holds a layer offset. */
  function RegionOf(offset: nat): nat {
    if offset < 95_158_272 then 0 else if offset < 222_035_968 then 1
    else if offset < 222_036_992 then 2 else if offset < 222_757_888 then 3
    else if offset < 223_118_336 then 4 else if offset < 275_022_848 then 5
    else if offset < 344_228_864 then 6 else if offset < 344_229_888 then 7
    else if offset < 344_426_496 then 8 else 9
  }

  /** The regions tile a layer: they are aligned, and every offset is in exactly one. */
  lemma RegionsTileLayer(offset: nat)
    requires offset < LAYER_BYTES
    ensures RegionOf(offset) < |LayerRegions()| && LayerRegions()[RegionOf(offset)].Holds(offset)
    ensures forall r | 0 <= r < |LayerRegions()| && LayerRegions()[r].Holds(offset) :: r == RegionOf(offset)
    ensures forall r | 0 <= r < |LayerRegions()| ::
              LayerRegions()[r].offset % 256 == 0 && LayerRegions()[r].End() <= LAYER_BYTES
  {
  }

  // ---------------------------------------------------------------- streaming

  function Concat(payloads: seq<seq<byte>>): seq<byte> {
    if payloads == [] then [] else payloads[0] + Concat(payloads[1..])
  }

  lemma {:induction false} ConcatSplit(payloads: seq<seq<byte>>, k: nat)
    requires k <= |payloads|
    ensures Concat(payloads) == Concat(payloads[..k]) + Concat(payloads[k..])
  {
    if k == 0 {
      assert payloads[..0] == [] && payloads[0..] == payloads;
    } else {
      ConcatSplit(payloads[1..], k - 1);
      assert payloads[..k][1..] == payloads[1..][..k - 1] && payloads[k..] == payloads[1..][k - 1..];
    }
  }

  lemma ConcatNext(payloads: seq<seq<byte>>, i: nat)
    requires i < |payloads|
    ensures Concat(payloads[..i + 1]) == Concat(payloads[..i]) + payloads[i]
    ensures |Concat(payloads[..i + 1])| <= |Concat(payloads)|
  {
    ConcatSplit(payloads[..i + 1], i);
    assert payloads[..i + 1][..i] == payloads[..i] && payloads[..i + 1][i..] == [payloads[i]];
    assert Concat([payloads[i]]) == payloads[i] + Concat([]) == payloads[i];
    ConcatSplit(payloads, i + 1);
  }

  lemma ChunkAppended(before: seq<byte>, after: seq<byte>, written: nat,
                      source: seq<byte>, position: nat, chunk: seq<byte>, done: seq<byte>)
    requires |before| == |after| && written + |chunk| <= |after| && position + |chunk| <= |source|
    requires chunk == source[position..position + |chunk|]
    requires before[..written] == done + source[..position]
    requires forall i | 0 <= i < written :: after[i] == before[i]
    requires after[written..written + |chunk|] == chunk
    ensures after[..written + |chunk|] == done + source[..position + |chunk|]
  {
    assert after[..written] == before[..written];
    assert after[..written + |chunk|] == after[..written] + chunk;
    assert source[..position + |chunk|] == source[..position] + chunk;
  }

  /** Copy every payload, chunk by chunk, behind the bytes already written. */
  method StreamConcat(payloads: seq<seq<byte>>, totalBytes: nat, chunkBytes: int) returns (r: Result<seq<byte>>)
    ensures r == if chunkBytes > 0 && |Concat(payloads)| == totalBytes then Ok(Concat(payloads)) else Err
  {
    hide Concat;
    if chunkBytes <= 0 { return Err; }
    var target := new byte[totalBytes];
    var written, index := 0, 0;
    EmptyConcat(payloads);
    while index < |payloads|
      invariant 0 <= index <= |payloads|
      invariant written == |Concat(payloads[..index])| <= totalBytes
      invariant target[..written] == Concat(payloads[..index])
    {
      var source, position := payloads[index], 0;
      ConcatNext(payloads, index);
      while position < |source|
        invariant 0 <= position <= |source|
        invariant written == |Concat(payloads[..index])| + position <= totalBytes
        invariant target[..written] == Concat(payloads[..index]) + source[..position]
      {
        var chunk := source[position..Min(|source|, position + chunkBytes)];
        if |chunk| > totalBytes - written { return Err; }
        ghost var before := target[..];
        Writer.WriteSlice(target, written, chunk);
        ChunkAppended(before, target[..], written, source, position, chunk, Concat(payloads[..index]));
        written := written + |chunk|;
        position := position + |chunk|;
      }
      assert source[..position] == source;
      index := index + 1;
    }
    assert payloads[..index] == payloads;
    if written != totalBytes { return Err; }
    assert target[..written] == target[..];
    return Ok(target[..]);
  }

  lemma EmptyConcat(payloads: seq<seq<byte>>)
    ensures Concat(payloads[..0]) == []
  {
  }

  // ---------------------------------------------------------------- the address map

  /** What an image address is for. */
  datatype Location = InTensor(tensor: nat, offset: nat)
                 | InPadding(address: nat)
                 | InRegion(layer: nat, region: nat, offset: nat)

  /** `location` describes `address`. */
  ghost predicate Describes(slots: seq<Slot>, location: Location, address: nat) {
    match location
    case InTensor(i, o) => i < |slots| && o < slots[i].length && address == slots[i].offset + o
    case InPadding(a) => address == a < NON_ROUTED_BYTES && forall i | 0 <= i < |slots| :: !slots[i].Holds(a)
    case InRegion(l, r, o) =>
      l < LAYERS && r < |LayerRegions()| && o < LayerRegions()[r].length
      && address == NON_ROUTED_BYTES + l * LAYER_BYTES + LayerRegions()[r].offset + o
  }

  function Locate(slots: seq<Slot>, address: nat): Location {
    if address < NON_ROUTED_BYTES then
      match Owner(slots, address)
      case Some(i) => (if i < |slots| && slots[i].Holds(address) then InTensor(i, address - slots[i].offset)
                       else InPadding(address))
      case None => InPadding(address)
    else
      var layer := (address - NON_ROUTED_BYTES) / LAYER_BYTES;
      var offset := (address - NON_ROUTED_BYTES) % LAYER_BYTES;
      var region := RegionOf(offset);
      var start := LayerRegions()[region].offset;
      InRegion(layer, region, if start <= offset then offset - start else 0)
  }

  /** The payload byte of a location. */
  ghost function PayloadByte(slots: seq<Slot>, nonRouted: seq<byte>, layers: seq<seq<byte>>,
                             location: Location, address: nat): byte
    requires |nonRouted| == NON_ROUTED_BYTES && |layers| == LAYERS
    requires forall l | 0 <= l < LAYERS :: |layers[l]| == LAYER_BYTES
    requires Ordered(slots, 0, NON_ROUTED_BYTES)
    requires Describes(slots, location, address)
  {
    match location
    case InTensor(i, o) => nonRouted[slots[i].offset + o]
    case InPadding(a) => nonRouted[a]
    case InRegion(l, r, o) =>
      (assert LayerRegions()[r].End() <= LAYER_BYTES by { RegionsTileLayer(0); }
       layers[l][LayerRegions()[r].offset + o])
  }

  lemma LocateIsUnique(slots: seq<Slot>, address: nat)
    requires Ordered(slots, 0, NON_ROUTED_BYTES) && address < IMAGE_BYTES
    ensures forall location :: Describes(slots, location, address) <==> location == Locate(slots, address)
  {
    OwnerIsUnique(slots, 0, NON_ROUTED_BYTES, address);
    var there := Locate(slots, address);
    if address >= NON_ROUTED_BYTES {
      var offset := (address - NON_ROUTED_BYTES) % LAYER_BYTES;
      RegionsTileLayer(offset);
    }
    assert Describes(slots, there, address);
    forall location | Describes(slots, location, address)
      ensures location == there
    {
      match location
      case InTensor(i, o) => assert slots[i].Holds(address);
      case InPadding(a) =>
      case InRegion(l, r, o) =>
        var offset := LayerRegions()[r].offset + o;
        RegionsTileLayer(0);
        assert offset < LAYER_BYTES;
        assert (l * LAYER_BYTES + offset) / LAYER_BYTES == l && (l * LAYER_BYTES + offset) % LAYER_BYTES == offset;
        RegionsTileLayer(offset);
        assert LayerRegions()[r].Holds(offset);
    }
  }

  lemma {:induction false} LayerByte(layers: seq<seq<byte>>, l: nat, o: nat)
    requires forall k | 0 <= k < |layers| :: |layers[k]| == LAYER_BYTES
    requires l < |layers| && o < LAYER_BYTES
    ensures |Concat(layers)| == |layers| * LAYER_BYTES
    ensures Concat(layers)[l * LAYER_BYTES + o] == layers[l][o]
  {
    if l > 0 {
      LayerByte(layers[1..], l - 1, o);
    } else if |layers| > 1 {
      LayerByte(layers[1..], 0, 0);
    }
  }

  lemma AcceptedOrdered(records: seq<TensorRecord>, expectedCount: nat)
    requires Accepted(records, expectedCount)
    ensures Ordered(Slots(records), 0, NON_ROUTED_BYTES)
  {
    hide RecordOk, Place, EndOf, NamesIncrease;
    PlaceOrdered(Lengths(Slots(records)), 0);
  }

  /** The published image, address by address: for every accepted manifest, each address is in exactly one
      tensor, padding gap or layer region, and holds that payload's byte. */
  lemma AddressMap(records: seq<TensorRecord>, expectedCount: nat,
                   nonRouted: seq<byte>, layers: seq<seq<byte>>, address: nat)
    requires Accepted(records, expectedCount)
    requires |nonRouted| == NON_ROUTED_BYTES && |layers| == LAYERS
    requires forall l | 0 <= l < LAYERS :: |layers[l]| == LAYER_BYTES
    requires address < IMAGE_BYTES
    ensures Ordered(Slots(records), 0, NON_ROUTED_BYTES)
    ensures forall location ::
              Describes(Slots(records), location, address) <==> location == Locate(Slots(records), address)
    ensures var image := Concat([nonRouted] + layers);
            |image| == IMAGE_BYTES
            && image[address]
               == PayloadByte(Slots(records), nonRouted, layers, Locate(Slots(records), address), address)
  {
    hide Accepted, RegionOf, Owner, RecordOk;
    var slots := Slots(records);
    AcceptedOrdered(records, expectedCount);
    LocateIsUnique(slots, address);
    assert Describes(slots, Locate(slots, address), address);
    var image := Concat([nonRouted] + layers);
    assert ([nonRouted] + layers)[1..] == layers;
    assert image == nonRouted + Concat(layers);
    if address >= NON_ROUTED_BYTES {
      LayerByte(layers, (address - NON_ROUTED_BYTES) / LAYER_BYTES, (address - NON_ROUTED_BYTES) % LAYER_BYTES);
      RegionsTileLayer((address - NON_ROUTED_BYTES) % LAYER_BYTES);
    } else {
      LayerByte(layers, 0, 0);
    }
  }
}
