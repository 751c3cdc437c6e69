/** The loader and the writer of layer-state dumps, and what each says about the other. */
module StateDump {
  import opened Basics
  import opened Bytes
  import opened StateFormat

  datatype Header = Header(version: nat, layerCount: nat, position: nat, hidden: nat, total: nat,
                           pathId: nat, modeId: nat)

  ghost predicate HeaderInRange(h: Header) {
    h.version < U32 && h.layerCount < U32 && h.position < U64 && h.hidden < U64 && h.total < U64
    && h.pathId < U32 && h.modeId < U32
  }

  function HeaderBytes(h: Header): (s: seq<byte>)
    ensures |s| == 40
  {
    Pack(4, h.version) + Pack(4, h.layerCount) + Pack(8, h.position) + Pack(8, h.hidden) + Pack(8, h.total)
    + Pack(4, h.pathId) + Pack(4, h.modeId)
  }

  function ReadHeader(s: seq<byte>): Header
    requires |s| == 40
  {
    Header(Unpack(s[..4]), Unpack(s[4..8]), Unpack(s[8..16]), Unpack(s[16..24]), Unpack(s[24..32]),
           Unpack(s[32..36]), Unpack(s[36..40]))
  }

  lemma ReadHeaderBytes(h: Header)
    requires HeaderInRange(h)
    ensures ReadHeader(HeaderBytes(h)) == h
  {
    hide Pack, Unpack;
    RadixValues();
    UnpackPack(4, h.version);
    UnpackPack(4, h.layerCount);
    UnpackPack(8, h.position);
    UnpackPack(8, h.hidden);
    UnpackPack(8, h.total);
    UnpackPack(4, h.pathId);
    UnpackPack(4, h.modeId);
    var s := HeaderBytes(h);
    assert s[..4] == Pack(4, h.version) && s[4..8] == Pack(4, h.layerCount) && s[8..16] == Pack(8, h.position);
    assert s[16..24] == Pack(8, h.hidden) && s[24..32] == Pack(8, h.total);
    assert s[32..36] == Pack(4, h.pathId) && s[36..40] == Pack(4, h.modeId);
  }

  lemma HeaderBytesRead(s: seq<byte>)
    requires |s| == 40
    ensures HeaderBytes(ReadHeader(s)) == s && HeaderInRange(ReadHeader(s))
  {
    hide Pack, Unpack;
    RadixValues();
    var parts := [s[..4], s[4..8], s[8..16], s[16..24], s[24..32], s[32..36], s[36..40]];
    forall i | 0 <= i < 7
      ensures Pack(|parts[i]|, Unpack(parts[i])) == parts[i] && Unpack(parts[i]) < Radix(|parts[i]|)
    {
      PackUnpack(parts[i]);
      UnpackBound(parts[i]);
    }
    assert parts[0] == s[..4] && parts[1] == s[4..8] && parts[2] == s[8..16] && parts[3] == s[16..24]
        && parts[4] == s[24..32] && parts[5] == s[32..36] && parts[6] == s[36..40];
    assert s == s[..4] + s[4..8] + s[8..16] + s[16..24] + s[24..32] + s[32..36] + s[36..40];
  }

  // ---------------------------------------------------------------- the format

  function PathOf(id: nat): Projection
    requires id <= 2
  {
    if id == 0 then NativeSm120 else if id == 1 then CudaReference else Vllm
  }

  function PathId(path: Projection): nat {
    match path case NativeSm120 => 0 case CudaReference => 1 case Vllm => 2
  }

  function ModeOf(version: nat, id: nat): KvMode
    requires version >= 4 ==> id <= 2
  {
    if version < 4 then Unspecified
    else if id == 0 then CheckpointFp8 else if id == 1 then Bfloat16 else Unspecified
  }

  function ModeId(version: nat, mode: KvMode): nat {
    if version < 4 then 0 else match mode case CheckpointFp8 => 0 case Bfloat16 => 1 case Unspecified => 2
  }

  /** The hidden width every layer shares. */
  function HiddenOf(d: Dump): nat {
    if d.layers == [] || d.layers[0].stages == [] then 0
    else |d.layers[0].stages[|d.layers[0].stages| - 1]|
  }

  /** The dumps a file can stand for. */
  ghost predicate WellFormed(d: Dump) {
    && 1 <= d.version <= 5 && 0 < |d.layers| < U32 && d.position < U64
    && 0 < HiddenOf(d) < U64 && TotalElements(d.layers) < U64
    && (d.version < 4 ==> d.mode == Unspecified)
    && LayersFit(d.layers, 0, d.version, HiddenOf(d))
  }

  function HeaderOf(d: Dump): Header {
    Header(d.version, |d.layers|, d.position, HiddenOf(d), TotalElements(d.layers),
           PathId(d.projection), ModeId(d.version, d.mode))
  }

  /** The one file that stands for a dump. */
  function Encode(d: Dump): seq<byte> { MAGIC + (HeaderBytes(HeaderOf(d)) + LayersBytes(d.layers)) }

  predicate HeaderOk(h: Header) {
    && 1 <= h.version <= 5
    && (h.version < 4 ==> h.modeId == 0) && (h.version >= 4 ==> h.modeId <= 2)
    && h.hidden != 0 && h.layerCount != 0 && h.pathId <= 2
  }

  /** The loader as a function. */
  function Parse(data: seq<byte>): Result<Dump> {
    if |data| < 48 || data[..8] != MAGIC then Err else
      var h := ReadHeader(data[8..48]);
      if !HeaderOk(h) then Err else
        match TakeLayers(data[48..], 0, h.layerCount, h.version, h.hidden)
        case Err => Err
        case Ok(p) =>
          if p.rest != [] || TotalElements(p.value) != h.total then Err
          else Ok(Dump(h.version, h.position, PathOf(h.pathId), ModeOf(h.version, h.modeId), p.value))
  }

  lemma HiddenIsShared(d: Dump, version: nat, hidden: nat)
    requires d.layers != [] && LayersFit(d.layers, 0, version, hidden)
    ensures HiddenOf(d) == hidden
  {
    assert LayerFits(d.layers[0], 0 + 0, version, hidden);
    var names, stages := StageNames(version), d.layers[0].stages;
    assert |stages[|names| - 1]| == Width(names[|names| - 1], hidden);
  }

  lemma ParseSound(data: seq<byte>, d: Dump)
    requires Parse(data) == Ok(d)
    ensures WellFormed(d) && data == Encode(d)
  {
    hide TakeLayers, LayersBytes, LayersFit, TotalElements, HeaderBytes, ReadHeader, HiddenOf;
    var h := ReadHeader(data[8..48]);
    TakeLayersSound(data[48..], 0, h.layerCount, h.version, h.hidden, d.layers, []);
    HiddenIsShared(d, h.version, h.hidden);
    HeaderBytesRead(data[8..48]);
    assert HeaderOf(d) == h;
    assert data == data[..8] + (data[8..48] + data[48..]);
    assert LayersBytes(d.layers) + [] == LayersBytes(d.layers);
  }

  lemma ParseComplete(d: Dump)
    requires WellFormed(d)
    ensures Parse(Encode(d)) == Ok(d)
  {
    hide TakeLayers, LayersBytes, LayersFit, TotalElements, HeaderBytes, ReadHeader, HiddenOf;
    var data, h := Encode(d), HeaderOf(d);
    assert data[..8] == MAGIC && data[8..48] == HeaderBytes(h) && data[48..] == LayersBytes(d.layers);
    ReadHeaderBytes(h);
    assert LayersBytes(d.layers) + [] == LayersBytes(d.layers);
    TakeLayersComplete(data[48..], 0, d.version, HiddenOf(d), d.layers, []);
  }

  /** The loader accepts exactly the encodings of well-formed dumps, and returns the dump that was encoded. */
  lemma ParseExact(data: seq<byte>, d: Dump)
    ensures Parse(data) == Ok(d) <==> WellFormed(d) && data == Encode(d)
  {
    hide Parse, Encode, WellFormed;
    if Parse(data) == Ok(d) { ParseSound(data, d); }
    if WellFormed(d) && data == Encode(d) { ParseComplete(d); }
  }

  /** No two files load as the same dump, in any of the five versions. */
  lemma ParseInjective(a: seq<byte>, b: seq<byte>)
    requires Parse(a).Ok? && Parse(a) == Parse(b)
    ensures a == b
  {
    hide Parse, Encode, WellFormed;
    ParseExact(a, Parse(a).value);
    ParseExact(b, Parse(a).value);
  }

  /** Every accepted file has 8 + 40 + 16 bytes per layer + 4 bytes per element. */
  lemma AcceptedLength(data: seq<byte>)
    requires Parse(data).Ok?
    ensures var layers := Parse(data).value.layers;
            |data| == 8 + 40 + 16 * |layers| + 4 * TotalElements(layers)
  {
    hide Parse, WellFormed, LayersBytes, HeaderBytes, TotalElements;
    ParseSound(data, Parse(data).value);
    LayersBytesLength(Parse(data).value.layers);
  }

  /** A file that is shorter than its own header demands does not load: no proper prefix of a dump does. */
  lemma HeaderDemandsLength(data: seq<byte>, h: Header)
    requires |data| >= 48 && data[8..48] == HeaderBytes(h) && HeaderInRange(h)
    requires |data| != 48 + 16 * h.layerCount + 4 * h.total
    ensures Parse(data).Err?
  {
    hide TakeLayers, HeaderBytes, ReadHeader, LayersBytes;
    if Parse(data).Ok? {
      AcceptedLength(data);
      ReadHeaderBytes(h);
      TakeLayersSound(data[48..], 0, h.layerCount, h.version, h.hidden, Parse(data).value.layers, []);
    }
  }

  lemma TruncatedNeverLoads(d: Dump, n: nat)
    requires WellFormed(d) && n < |Encode(d)|
    ensures Parse(Encode(d)[..n]).Err?
  {
    hide HeaderBytes, LayersBytes, TotalElements, HiddenOf, LayersFit, Parse;
    var data := Encode(d)[..n];
    LayersBytesLength(d.layers);
    if n >= 48 {
      assert data[8..48] == HeaderBytes(HeaderOf(d));
      HeaderDemandsLength(data, HeaderOf(d));
    } else {
      TooShort(data);
    }
  }

  lemma TooShort(data: seq<byte>)
    requires |data| < 48
    ensures Parse(data).Err?
  {
  }

  // ---------------------------------------------------------------- the loader

  datatype Read<+T> = Read(value: T, offset: nat)

  /** `got` is what the parser takes from the data at `offset`. */
  ghost predicate Agrees<T>(data: seq<byte>, got: Result<Read<T>>, expected: Result<Parsed<T>>) {
    match got
    case Err => expected.Err?
    case Ok(r) => r.offset <= |data| && expected == Ok(Parsed(r.value, data[r.offset..]))
  }

  method ReadFloats(data: seq<byte>, offset: nat, elements: nat) returns (r: Result<Read<seq<Word>>>)
    requires offset <= |data|
    ensures Agrees(data, r, TakeFloats(data[offset..], elements))
  {
    var end := offset + elements * 4;
    if end > |data| { return Err; }
    assert data[offset..][..4 * elements] == data[offset..end];
    assert data[offset..][4 * elements..] == data[end..];
    return Ok(Read(Words(data[offset..end]), end));
  }

  function Prepend<T>(done: seq<T>, r: Result<Parsed<seq<T>>>): Result<Parsed<seq<T>>> {
    match r
    case Err => Err
    case Ok(p) => Ok(Parsed(done + p.value, p.rest))
  }

  lemma PrependNone<T>(r: Result<Parsed<seq<T>>>)
    ensures Prepend([], r) == r
  {
    if r.Ok? { assert [] + r.value.value == r.value.value; }
  }

  lemma PrependOne<T>(done: seq<T>, x: T, r: Result<Parsed<seq<T>>>)
    ensures Prepend(done, Prepend([x], r)) == Prepend(done + [x], r)
  {
    if r.Ok? { assert done + ([x] + r.value.value) == done + [x] + r.value.value; }
  }

  method ReadStages(data: seq<byte>, offset: nat, names: seq<string>, hidden: nat)
    returns (r: Result<Read<seq<seq<Word>>>>)
    requires offset <= |data|
    ensures Agrees(data, r, TakeStages(data[offset..], names, hidden))
    ensures r.Ok? ==> StageElements(r.value.value) == Widths(names, hidden)
  {
    hide TakeFloats, Width;
    var stages: seq<seq<Word>>, position: nat, i: nat := [], offset, 0;
    PrependNone(TakeStages(data[offset..], names, hidden));
    assert names[0..] == names;
    while i < |names|
      invariant 0 <= i <= |names| && position <= |data|
      invariant TakeStages(data[offset..], names, hidden)
                == Prepend(stages, TakeStages(data[position..], names[i..], hidden))
    {
      var stage := ReadFloats(data, position, Width(names[i], hidden));
      assert names[i..][1..] == names[i + 1..];
      if stage.Err? { return Err; }
      PrependOne(stages, stage.value.value, TakeStages(data[stage.value.offset..], names[i + 1..], hidden));
      stages := stages + [stage.value.value];
      position := stage.value.offset;
      i := i + 1;
    }
    assert names[i..] == [] && stages + [] == stages;
    StagesTaken(data[offset..], names, hidden);
    return Ok(Read(stages, position));
  }

  /** Elements the stages of one layer must have. */
  function Widths(names: seq<string>, hidden: nat): nat {
    if names == [] then 0 else Width(names[0], hidden) + Widths(names[1..], hidden)
  }

  lemma {:induction false} StagesTaken(s: seq<byte>, names: seq<string>, hidden: nat)
    ensures var r := TakeStages(s, names, hidden);
            r.Ok? ==> StageElements(r.value.value) == Widths(names, hidden)
    decreases |names|
  {
    hide Width;
    if names != [] && TakeStages(s, names, hidden).Ok? {
      var first := TakeFloats(s, Width(names[0], hidden)).value;
      StagesTaken(first.rest, names[1..], hidden);
      var r := TakeStages(s, names, hidden).value.value;
      assert r[1..] == TakeStages(first.rest, names[1..], hidden).value.value;
    }
  }

  /** One layer record at the cursor, with the number of elements it adds to the count. */
  method ReadLayer(data: seq<byte>, offset: nat, expectedIndex: nat, version: nat, hidden: nat)
    returns (r: Result<Read<Layer>>, counted: nat)
    requires offset <= |data|
    ensures Agrees(data, r, TakeLayer(data[offset..], expectedIndex, version, hidden))
    ensures r.Ok? ==> counted == Elements(r.value.value)
  {
    hide TakeFloats, TakeStages, Unpack, StageNames, Width, AttentionWidth;
    counted := 0;
    if offset + 16 > |data| { return Err, 0; }
    assert data[offset..][..4] == data[offset..offset + 4];
    assert data[offset..][4..8] == data[offset + 4..offset + 8];
    assert data[offset..][8..16] == data[offset + 8..offset + 16];
    assert data[offset..][16..] == data[offset + 16..];
    var index := Unpack(data[offset..offset + 4]);
    var flags := Unpack(data[offset + 4..offset + 8]);
    var kvElements := Unpack(data[offset + 8..offset + 16]);
    var position := offset + 16;
    if index != expectedIndex || flags > 1 { return Err, 0; }
    var attention: Option<seq<Word>> := None;
    if version >= 3 {
      var read := ReadFloats(data, position, AttentionWidth(flags == 1));
      if read.Err? { return Err, 0; }
      attention := Some(read.value.value);
      position := read.value.offset;
      TakenLength(data[offset + 16..], AttentionWidth(flags == 1));
      counted := counted + AttentionWidth(flags == 1);
    }
    var stages := ReadStages(data, position, StageNames(version), hidden);
    if stages.Err? { return Err, 0; }
    var key := ReadFloats(data, stages.value.offset, kvElements);
    if key.Err? { return Err, 0; }
    var value := ReadFloats(data, key.value.offset, kvElements);
    if value.Err? { return Err, 0; }
    TakenLength(data[stages.value.offset..], kvElements);
    TakenLength(data[key.value.offset..], kvElements);
    counted := counted + Widths(StageNames(version), hidden) + 2 * kvElements;
    r := Ok(Read(Layer(index, flags == 1, attention, stages.value.value, key.value.value, value.value.value),
                 value.value.offset));
  }

  lemma TakenLength(s: seq<byte>, n: nat)
    ensures TakeFloats(s, n).Ok? ==> |TakeFloats(s, n).value.value| == n
  {
  }

  /** The loader: check the header, then thread one cursor and one element count through the layers. */
  method LoadState(data: seq<byte>) returns (r: Result<Dump>)
    ensures r == Parse(data)
  {
    hide TakeLayer, ReadHeader, Elements;
    if |data| < 48 || data[..8] != MAGIC { return Err; }
    var h := ReadHeader(data[8..48]);
    if !HeaderOk(h) { return Err; }
    var layers: seq<Layer>, offset: nat, counted: nat, i: nat := [], 48, 0, 0;
    PrependNone(TakeLayers(data[48..], 0, h.layerCount, h.version, h.hidden));
    while i < h.layerCount
      invariant 0 <= i <= h.layerCount && offset <= |data|
      invariant TakeLayers(data[48..], 0, h.layerCount, h.version, h.hidden)
                == Prepend(layers, TakeLayers(data[offset..], i, h.layerCount - i, h.version, h.hidden))
      invariant counted == TotalElements(layers)
    {
      var layer, elements := ReadLayer(data, offset, i, h.version, h.hidden);
      if layer.Err? { return Err; }
      TotalElementsAppend(layers, layer.value.value);
      PrependOne(layers, layer.value.value,
                 TakeLayers(data[layer.value.offset..], i + 1, h.layerCount - i - 1, h.version, h.hidden));
      layers := layers + [layer.value.value];
      counted := counted + elements;
      offset := layer.value.offset;
      i := i + 1;
    }
    assert layers + [] == layers;
    if offset != |data| || counted != h.total { return Err; }
    return Ok(Dump(h.version, h.position, PathOf(h.pathId), ModeOf(h.version, h.modeId), layers));
  }

  lemma {:induction false} TotalElementsAppend(layers: seq<Layer>, l: Layer)
    ensures TotalElements(layers + [l]) == TotalElements(layers) + Elements(l)
  {
    if layers == [] {
      assert [] + [l] == [l];
    } else {
      TotalElementsAppend(layers[1..], l);
      assert (layers + [l])[1..] == layers[1..] + [l];
    }
  }
}
