/** Writing the planned tensors into the mapped arena, and the whole build. */
module DeviceImageWriter {
  import opened Basics
  import opened Arithmetic
  import opened Arena
  import opened DeviceImage
  import opened Tiling

  predicate EndsWith(s: string, suffix: string) {
    |suffix| <= |s| && s[|s| - |suffix|..] == suffix
  }

  predicate IsScale(layout: string) { EndsWith(layout, "sm120_row8_group16_e4m3") }

  predicate IsTiled(layout: string) { EndsWith(layout, "sm120_row8_k64") || IsScale(layout) }

  datatype Geometry = Geometry(rows: nat, contracting: nat)

  /** Rows and contracting extent of a tiled tensor: scales carry one entry per sixteen values. */
  function FlattenedGeometry(t: Tensor, scale: bool): (g: Result<Geometry>)
    ensures g.Ok? ==> g.value.rows > 0 && g.value.contracting > 0 && g.value.contracting % 64 == 0
  {
    var shape := if scale then t.physicalShape else t.logicalShape;
    if |shape| < 2 then Err else
      var rows := Product(shape[..|shape| - 1]);
      var contracting := shape[|shape| - 1] * (if scale then 16 else 1);
      if rows <= 0 || contracting <= 0 || contracting % 64 != 0 then Err
      else Ok(Geometry(rows, contracting))
  }

  function BlockBytes(scale: bool): nat { if scale then 4 else 32 }

  function RowBytes(contracting: nat, scale: bool): nat { contracting / (if scale then 16 else 2) }

  /** The byte-count check of the source makes the tensor exactly rows x k-blocks x bytes. */
  lemma GeometryExtent(rows: nat, contracting: nat, scale: bool)
    requires contracting % 64 == 0
    ensures Extent(rows, contracting / 64, BlockBytes(scale)) == rows * RowBytes(contracting, scale)
  {
    MulIsTimes(contracting / 64, BlockBytes(scale));
    MulIsTimes(rows, Mul(contracting / 64, BlockBytes(scale)));
    assert RowBytes(contracting, scale) == contracting / 64 * BlockBytes(scale);
  }

  /** Shape of a tiled tensor that passes every check, or the error of the source. */
  function TiledGeometry(t: Tensor): (g: Result<Geometry>)
    ensures g.Ok? ==> Extent(g.value.rows, g.value.contracting / 64, BlockBytes(IsScale(t.layout))) == t.byteLength
  {
    var scale := IsScale(t.layout);
    match FlattenedGeometry(t, scale)
    case Err => Err
    case Ok(g) =>
      GeometryExtent(g.rows, g.contracting, scale);
      if g.rows * RowBytes(g.contracting, scale) != t.byteLength then Err else Ok(g)
  }

  ghost predicate Readable(files: Files, t: Tensor) {
    t.shard in files && t.sourceOffset + t.byteLength <= |files[t.shard]|
  }

  function SourceView(files: Files, t: Tensor): (source: seq<byte>)
    requires Readable(files, t)
    ensures |source| == t.byteLength
  {
    files[t.shard][t.sourceOffset..t.sourceOffset + t.byteLength]
  }

  type Hash = seq<byte> -> string

  /** The bytes a tensor contributes to the image: its source if the hash agrees, tiled if its layout says so. */
  function Payload(files: Files, hash: Hash, t: Tensor): (payload: Result<seq<byte>>)
    requires Readable(files, t)
    ensures payload.Ok? ==> |payload.value| == t.byteLength
  {
    var source := SourceView(files, t);
    if hash(source) != t.digest then Err
    else if !IsTiled(t.layout) then Ok(source)
    else match TiledGeometry(t)
      case Err => Err
      case Ok(g) => Ok(Tiled(source, g.rows, g.contracting / 64, BlockBytes(IsScale(t.layout))))
  }

  ghost predicate Writable(files: Files, plan: Plan) {
    && |plan.slots| == |plan.tensors|
    && Ordered(plan.slots, 0, plan.arena)
    && forall i | 0 <= i < |plan.tensors| ::
         Readable(files, plan.tensors[i]) && plan.slots[i].length == plan.tensors[i].byteLength
  }

  function Payloads(files: Files, hash: Hash, plan: Plan): (payloads: seq<seq<byte>>)
    requires Writable(files, plan)
    requires forall i | 0 <= i < |plan.tensors| :: Payload(files, hash, plan.tensors[i]).Ok?
    ensures Fits(plan.slots, payloads)
    ensures forall i | 0 <= i < |payloads| :: payloads[i] == Payload(files, hash, plan.tensors[i]).value
  {
    seq(|plan.tensors|, i requires 0 <= i < |plan.tensors| => Payload(files, hash, plan.tensors[i]).value)
  }

  /** The image of a plan: every payload in its slot, zeros between them. */
  ghost function ImageOf(files: Files, hash: Hash, plan: Plan): Result<seq<byte>>
    requires Writable(files, plan)
  {
    if forall i | 0 <= i < |plan.tensors| :: Payload(files, hash, plan.tensors[i]).Ok? then
      Ok(Image(plan.slots, Payloads(files, hash, plan), plan.arena))
    else Err
  }

  /** The planner only makes writable plans. */
  lemma PlanIsWritable(files: Files, records: seq<Record>, expectedTensors: nat, expectedBytes: nat)
    ensures var plan := PlanOf(files, records, expectedTensors, expectedBytes);
            plan.Ok? ==> Writable(files, plan.value)
  {
    var plan := PlanOf(files, records, expectedTensors, expectedBytes);
    if plan.Ok? {
      SortKeepsRecords(files, records);
      PlaceOrdered(ByteLengths(ByName(records)), 0);
    }
  }

  /** What a build produces, as a function of the manifest and the shards alone. */
  ghost function BuildOf(files: Files, hash: Hash, records: seq<Record>,
                         expectedTensors: nat, expectedBytes: nat): Result<seq<byte>>
  {
    PlanIsWritable(files, records, expectedTensors, expectedBytes);
    match PlanOf(files, records, expectedTensors, expectedBytes)
    case Err => Err
    case Ok(plan) => ImageOf(files, hash, plan)
  }

  /** Slice assignment into the mapped image. */
  method WriteSlice(target: array<byte>, at: nat, values: seq<byte>)
    requires at + |values| <= target.Length
    modifies target
    ensures target[at..at + |values|] == values
    ensures forall i | 0 <= i < target.Length && !(at <= i < at + |values|) :: target[i] == old(target[i])
  {
    var i := 0;
    while i < |values|
      invariant 0 <= i <= |values|
      invariant forall j | 0 <= j < i :: target[at + j] == values[j]
      invariant forall j | 0 <= j < target.Length && !(at <= j < at + i) :: target[j] == old(target[j])
    {
      target[at + i] := values[i];
      i := i + 1;
    }
  }

  lemma ChunkEnds(rows: nat, first: nat, tiles: nat, height: nat, blocks: nat, width: nat)
    requires first + tiles * height <= rows
    ensures first + Mul(tiles, height) <= rows
    ensures first * blocks * width == Mul(first, Mul(blocks, width))
    ensures Mul(first, Mul(blocks, width)) + Extent(Mul(tiles, height), blocks, width)
            == Mul(first + tiles * height, Mul(blocks, width)) <= Extent(rows, blocks, width)
  {
    MulIsTimes(tiles, height);
    MulAssociates(first, blocks, width);
    MulIsTimes(first, blocks);
    MulIsTimes(Mul(first, blocks), width);
    MulAddLeft(first, tiles * height, Mul(blocks, width));
    MulMonotone(first + tiles * height, rows, Mul(blocks, width));
  }

  /** Bytes appended behind a finished prefix extend it. */
  lemma PrefixGrows(before: seq<byte>, after: seq<byte>, tiled: seq<byte>, offset: nat, begin: nat, end: nat)
    requires begin <= end <= |tiled| && offset + end <= |before| == |after|
    requires before[offset..offset + begin] == tiled[..begin]
    requires forall i | offset <= i < offset + begin :: after[i] == before[i]
    requires after[offset + begin..offset + end] == tiled[begin..end]
    ensures after[offset..offset + end] == tiled[..end]
  {
    assert after[offset..offset + begin] == before[offset..offset + begin];
    assert after[offset..offset + end] == after[offset..offset + begin] + after[offset + begin..offset + end];
    assert tiled[..end] == tiled[..begin] + tiled[begin..end];
  }

  /** The first `count` rows are in place, tiled. */
  ghost predicate TiledRows(image: seq<byte>, offset: nat, source: seq<byte>,
                            rows: nat, blocks: nat, width: nat, count: nat)
    requires |source| == Extent(rows, blocks, width)
  {
    var end := Mul(count, Mul(blocks, width));
    end <= |source| && offset + |source| <= |image|
    && image[offset..offset + end] == Tiled(source, rows, blocks, width)[..end]
  }

  lemma TiledRowsEnds(image: seq<byte>, offset: nat, source: seq<byte>, rows: nat, blocks: nat, width: nat)
    requires |source| == Extent(rows, blocks, width) && offset + |source| <= |image|
    ensures TiledRows(image, offset, source, rows, blocks, width, 0)
    ensures TiledRows(image, offset, source, rows, blocks, width, rows)
            <==> image[offset..offset + |source|] == Tiled(source, rows, blocks, width)
  {
    hide Mul, Tiled;
    RowEnds(rows, blocks, width);
    var tiled := Tiled(source, rows, blocks, width);
    assert tiled[..|source|] == tiled;
  }

  /** Write one staged chunk behind the finished prefix of the tensor. */
  method WriteChunk(destination: array<byte>, offset: nat, source: seq<byte>,
                    rows: nat, blocks: nat, width: nat, first: nat, tiles: nat, height: nat)
    requires |source| == Extent(rows, blocks, width) && offset + |source| <= destination.Length
    requires first + tiles * height <= rows && Chunk(rows, first, tiles, height)
    requires TiledRows(destination[..], offset, source, rows, blocks, width, first)
    modifies destination
    ensures TiledRows(destination[..], offset, source, rows, blocks, width, first + tiles * height)
    ensures forall a | 0 <= a < destination.Length && !(offset <= a < offset + |source|) ::
              destination[a] == old(destination[a])
  {
    hide Mul, Tiled, Staged, Extent, Chunk;
    ChunkEnds(rows, first, tiles, height, blocks, width);
    StagedIsTiled(source, rows, blocks, width, first, tiles, height);
    var staged := Staged(source, rows, blocks, width, first, tiles, height);
    var begin := first * blocks * width;
    ghost var tiled := Tiled(source, rows, blocks, width);
    ghost var before := destination[..];
    WriteSlice(destination, offset + begin, staged);
    PrefixGrows(before, destination[..], tiled, offset, begin, begin + |staged|);
  }

  /** How many whole tiles fit the staging buffer; at least one. */
  function TilesPerChunk(blocks: nat, width: nat, stagingBytes: nat): (tiles: nat)
    ensures tiles >= 1
  {
    var fullTileBytes := 8 * blocks * width;
    Max(1, stagingBytes / Max(1, fullTileBytes))
  }

  /** The bounded-staging loop: any staging size moves the tensor into its tiled form. */
  method WriteTiled(destination: array<byte>, offset: nat, source: seq<byte>,
                    rows: nat, blocks: nat, width: nat, stagingBytes: nat)
    requires |source| == Extent(rows, blocks, width) && offset + |source| <= destination.Length
    modifies destination
    ensures destination[offset..offset + |source|] == Tiled(source, rows, blocks, width)
    ensures forall a | 0 <= a < destination.Length && !(offset <= a < offset + |source|) ::
              destination[a] == old(destination[a])
  {
    hide Mul, Tiled, Extent, TilesPerChunk, Chunk, TiledRows;
    var tilesPerChunk := TilesPerChunk(blocks, width, stagingBytes);
    var fullRows := rows - rows % 8;
    var first := 0;
    TiledRowsEnds(destination[..], offset, source, rows, blocks, width);
    while first < fullRows
      invariant 0 <= first <= fullRows && first % 8 == 0
      invariant TiledRows(destination[..], offset, source, rows, blocks, width, first)
      invariant forall a | 0 <= a < destination.Length && !(offset <= a < offset + |source|) ::
                  destination[a] == old(destination[a])
    {
      var endRow := Min(fullRows, first + tilesPerChunk * 8);
      var tiles := (endRow - first) / 8;
      WholeTiles(rows, first, endRow, tiles);
      WriteChunk(destination, offset, source, rows, blocks, width, first, tiles, 8);
      first := endRow;
    }
    if fullRows != rows {
      Tail(rows, fullRows);
      WriteChunk(destination, offset, source, rows, blocks, width, fullRows, 1, rows - fullRows);
    }
    TiledRowsEnds(destination[..], offset, source, rows, blocks, width);
  }

  lemma WholeTiles(rows: nat, first: nat, endRow: nat, tiles: nat)
    requires first % 8 == 0 && endRow % 8 == 0 && first <= endRow <= rows && tiles == (endRow - first) / 8
    ensures first + tiles * 8 == endRow && Chunk(rows, first, tiles, 8)
  {
    MulIsTimes(tiles, 8);
  }

  lemma Tail(rows: nat, fullRows: nat)
    requires fullRows == rows - rows % 8 && fullRows != rows
    ensures Chunk(rows, fullRows, 1, rows - fullRows)
  {
  }

  lemma RowEnds(rows: nat, blocks: nat, width: nat)
    ensures Mul(0, Mul(blocks, width)) == 0
    ensures Mul(rows, Mul(blocks, width)) == Extent(rows, blocks, width)
  {
  }

  /** The first `i` tensors and the gaps before them are final. */
  ghost predicate Done(files: Files, hash: Hash, plan: Plan, image: seq<byte>, i: nat)
    requires Writable(files, plan) && i <= |plan.slots|
  {
    && |image| == plan.arena
    && (forall j | 0 <= j < i :: Payload(files, hash, plan.tensors[j]).Ok?)
    && (forall j | 0 <= j < i ::
          image[plan.slots[j].offset..plan.slots[j].End()] == Payload(files, hash, plan.tensors[j]).value)
    && (forall a | 0 <= a < CursorBefore(plan.slots, i, 0) <= plan.arena && Owner(plan.slots, a).None? :: image[a] == 0)
  }

  lemma DoneStep(files: Files, hash: Hash, plan: Plan, before: seq<byte>, after: seq<byte>, i: nat)
    requires Writable(files, plan) && i < |plan.slots| && Done(files, hash, plan, before, i)
    requires |after| == |before| && Payload(files, hash, plan.tensors[i]).Ok?
    requires after[plan.slots[i].offset..plan.slots[i].End()] == Payload(files, hash, plan.tensors[i]).value
    requires forall a | 0 <= a < CursorBefore(plan.slots, i, 0) <= |after| :: after[a] == before[a]
    requires forall a | CursorBefore(plan.slots, i, 0) <= a < plan.slots[i].offset :: after[a] == 0
    ensures Done(files, hash, plan, after, i + 1)
  {
    hide Payload, Owner;
    var slots := plan.slots;
    assert CursorBefore(slots, i, 0) <= slots[i].offset;
    forall j | 0 <= j < i
      ensures after[slots[j].offset..slots[j].End()] == before[slots[j].offset..slots[j].End()]
    {
      assert slots[j].End() <= CursorBefore(slots, i, 0);
    }
    forall a | slots[i].offset <= a < slots[i].End() ensures Owner(slots, a).Some? {
      OwnerIsUnique(slots, 0, plan.arena, a);
      assert slots[i].Holds(a);
    }
  }

  lemma DoneEnd(files: Files, hash: Hash, plan: Plan, before: seq<byte>, after: seq<byte>)
    requires Writable(files, plan) && Done(files, hash, plan, before, |plan.slots|)
    requires |after| == |before|
    requires forall a | 0 <= a < CursorBefore(plan.slots, |plan.slots|, 0) <= |after| :: after[a] == before[a]
    requires forall a | CursorBefore(plan.slots, |plan.slots|, 0) <= a < plan.arena :: after[a] == 0
    ensures ImageOf(files, hash, plan) == Ok(after)
  {
    hide Payload, Owner, Image;
    var slots := plan.slots;
    forall j | 0 <= j < |slots|
      ensures after[slots[j].offset..slots[j].End()] == before[slots[j].offset..slots[j].End()]
    {
      assert slots[j].End() <= CursorBefore(slots, |slots|, 0);
    }
    ImageIsDetermined(slots, Payloads(files, hash, plan), plan.arena, after);
  }

  /** Zero [from, to); everything before `from` keeps its value. */
  method ZeroGap(destination: array<byte>, from: nat, to: nat)
    requires from <= to <= destination.Length
    modifies destination
    ensures forall a | from <= a < to :: destination[a] == 0
    ensures forall a | 0 <= a < destination.Length && !(from <= a < to) :: destination[a] == old(destination[a])
  {
    if to > from {
      WriteSlice(destination, from, seq(to - from, _ => 0));
      assert forall a | from <= a < to :: destination[a] == destination[from..to][a - from];
    }
  }

  /** Write every tensor, zero every gap. The arena may hold anything before. */
  method WriteImage(destination: array<byte>, files: Files, hash: Hash, plan: Plan, stagingBytes: nat)
    returns (ok: bool)
    requires Writable(files, plan) && destination.Length == plan.arena
    modifies destination
    ensures ok <==> ImageOf(files, hash, plan).Ok?
    ensures ok ==> destination[..] == ImageOf(files, hash, plan).value
  {
    hide Payload, Owner, Image, Tiled, Writable, CursorBefore, Done;
    var previousEnd, i := 0, 0;
    NothingDone(files, hash, plan, destination[..]);
    while i < |plan.tensors|
      invariant 0 <= i <= |plan.tensors| == |plan.slots|
      invariant previousEnd == CursorBefore(plan.slots, i, 0) <= destination.Length
      invariant Done(files, hash, plan, destination[..], i)
    {
      var tensor, slot := plan.tensors[i], plan.slots[i];
      SlotFacts(files, plan, i);
      ghost var before := destination[..];
      ZeroGap(destination, previousEnd, slot.offset);
      ghost var zeroed := destination[..];
      var written := WriteTensor(destination, slot.offset, files, hash, tensor, stagingBytes);
      if !written { return false; }
      assert forall a | previousEnd <= a < slot.offset :: destination[..][a] == zeroed[a];
      DoneStep(files, hash, plan, before, destination[..], i);
      previousEnd := slot.End();
      i := i + 1;
    }
    ghost var before := destination[..];
    EndFacts(files, plan);
    ZeroGap(destination, previousEnd, plan.arena);
    DoneEnd(files, hash, plan, before, destination[..]);
    return true;
  }

  lemma NothingDone(files: Files, hash: Hash, plan: Plan, image: seq<byte>)
    requires Writable(files, plan) && |image| == plan.arena
    ensures |plan.tensors| == |plan.slots| && CursorBefore(plan.slots, 0, 0) == 0
    ensures Done(files, hash, plan, image, 0)
  {
  }

  lemma SlotFacts(files: Files, plan: Plan, i: nat)
    requires Writable(files, plan) && i < |plan.slots|
    ensures Readable(files, plan.tensors[i]) && plan.slots[i].length == plan.tensors[i].byteLength
    ensures CursorBefore(plan.slots, i, 0) <= plan.slots[i].offset
    ensures CursorBefore(plan.slots, i + 1, 0) == plan.slots[i].End() <= plan.arena
  {
  }

  lemma EndFacts(files: Files, plan: Plan)
    requires Writable(files, plan)
    ensures CursorBefore(plan.slots, |plan.slots|, 0) <= plan.arena
  {
  }

  /** One tensor of the image: check its hash, then tile it or copy it. */
  method WriteTensor(destination: array<byte>, offset: nat, files: Files, hash: Hash, tensor: Tensor, stagingBytes: nat)
    returns (ok: bool)
    requires Readable(files, tensor) && offset + tensor.byteLength <= destination.Length
    modifies destination
    ensures ok <==> Payload(files, hash, tensor).Ok?
    ensures ok ==> destination[offset..offset + tensor.byteLength] == Payload(files, hash, tensor).value
    ensures forall a | 0 <= a < destination.Length && !(offset <= a < offset + tensor.byteLength) ::
              destination[a] == old(destination[a])
  {
    var source := SourceView(files, tensor);
    if hash(source) != tensor.digest { return false; }
    if IsTiled(tensor.layout) {
      var geometry := TiledGeometry(tensor);
      if geometry.Err? { return false; }
      WriteTiled(destination, offset, source, geometry.value.rows, geometry.value.contracting / 64,
                 BlockBytes(IsScale(tensor.layout)), stagingBytes);
    } else {
      WriteSlice(destination, offset, source);
    }
    return true;
  }

  /** The whole build. The result depends on the manifest and the shards, not on the staging size. */
  method BuildImage(files: Files, hash: Hash, records: seq<Record>,
                    expectedTensors: nat, expectedBytes: nat, stagingBytes: nat)
    returns (image: Result<seq<byte>>)
    ensures image == BuildOf(files, hash, records, expectedTensors, expectedBytes)
  {
    PlanIsWritable(files, records, expectedTensors, expectedBytes);
    var plan := TensorPlan(files, records, expectedTensors, expectedBytes);
    if plan.Err? { return Err; }
    var destination := new byte[plan.value.arena];
    var ok := WriteImage(destination, files, hash, plan.value, stagingBytes);
    if !ok { return Err; }
    return Ok(destination[..]);
  }

  /** The build does not depend on the order in which the manifest lists its records. */
  lemma BuildIgnoresRecordOrder(files: Files, hash: Hash, a: seq<Record>, b: seq<Record>,
                                expectedTensors: nat, expectedBytes: nat)
    requires multiset(a) == multiset(b)
    ensures BuildOf(files, hash, a, expectedTensors, expectedBytes)
            == BuildOf(files, hash, b, expectedTensors, expectedBytes)
  {
    PlanIgnoresRecordOrder(files, a, b, expectedTensors, expectedBytes);
  }

  /** What a finished build holds: every accepted record's payload in its own slot, each address in at most
      one slot, zero at every address outside all slots, and a whole number of 256-byte lines. */
  lemma BuiltImage(files: Files, hash: Hash, records: seq<Record>, expectedTensors: nat, expectedBytes: nat)
    requires BuildOf(files, hash, records, expectedTensors, expectedBytes).Ok?
    ensures var plan := PlanOf(files, records, expectedTensors, expectedBytes);
            var image := BuildOf(files, hash, records, expectedTensors, expectedBytes).value;
            && plan.Ok? && Writable(files, plan.value)
            && |image| == plan.value.arena && |image| % 256 == 0
            && |plan.value.tensors| == |records|
            && (forall r | r in records :: RecordOk(files, r) && Planned(files, r) in plan.value.tensors)
            && (forall t | t in plan.value.tensors ::
                  exists r :: r in records && RecordOk(files, r) && t == Planned(files, r))
            && (forall i | 0 <= i < |records| ::
                  Payload(files, hash, plan.value.tensors[i]).Ok?
                  && image[plan.value.slots[i].offset..plan.value.slots[i].End()]
                     == Payload(files, hash, plan.value.tensors[i]).value)
            && (forall a, i, j | 0 <= i < |records| && 0 <= j < |records|
                  && plan.value.slots[i].Holds(a) && plan.value.slots[j].Holds(a) :: i == j)
            && (forall a | 0 <= a < |image| && (forall i | 0 <= i < |records| :: !plan.value.slots[i].Holds(a)) ::
                  image[a] == 0)
  {
    hide Payload, Owner, Image, Place, EndOf, AlignUp;
    PlanIsWritable(files, records, expectedTensors, expectedBytes);
    var plan := PlanOf(files, records, expectedTensors, expectedBytes).value;
    var image := BuildOf(files, hash, records, expectedTensors, expectedBytes).value;
    ImageIsDetermined(plan.slots, Payloads(files, hash, plan), plan.arena, image);
    PlanCovers(files, records, expectedTensors, expectedBytes);
    forall a | 0 <= a < |image| && (forall i | 0 <= i < |records| :: !plan.slots[i].Holds(a))
      ensures image[a] == 0
    {
      OwnerIsUnique(plan.slots, 0, plan.arena, a);
    }
  }
}
