/** The layer-state dump: its values, its byte layout, and a parser for it as a function. */
module StateFormat {
  import opened Basics
  import opened Bytes

  /** A float32 by its bit pattern. */
  type Word = w: nat | w < U32

  datatype KvMode = CheckpointFp8 | Bfloat16 | Unspecified

  datatype Projection = NativeSm120 | CudaReference | Vllm

  datatype Layer = Layer(index: nat, globalAttention: bool, attention: Option<seq<Word>>,
                         stages: seq<seq<Word>>, key: seq<Word>, value: seq<Word>)

  /** A loaded dump. The stages of a layer are listed in the order of `StageNames(version)`. */
  datatype Dump = Dump(version: nat, position: nat, projection: Projection, mode: KvMode, layers: seq<Layer>)

  const MAGIC: seq<byte> := [71, 49, 54, 83, 84, 48, 48, 49]  // "G16ST001"

  const INTERMEDIATE: nat := 15360

  const STAGE_NAMES: seq<string> :=
    ["attention_output", "post_attention_norm", "post_attention_residual", "pre_feedforward_norm",
     "gate", "up", "gelu_product", "mlp_output", "post_feedforward_norm", "hidden"]

  const LEGACY_STAGE_NAMES: seq<string> :=
    ["attention_output", "post_attention_norm", "post_attention_residual", "pre_feedforward_norm",
     "mlp_output", "post_feedforward_norm", "hidden"]

  function StageNames(version: nat): (names: seq<string>)
    ensures names != [] && names[|names| - 1] == "hidden"
  {
    if version >= 5 then STAGE_NAMES else if version >= 2 then LEGACY_STAGE_NAMES else ["hidden"]
  }

  function Width(name: string, hidden: nat): nat {
    if name in {"gate", "up", "gelu_product"} then INTERMEDIATE else hidden
  }

  function AttentionWidth(globalAttention: bool): nat { 16 * (if globalAttention then 512 else 256) }

  // ---------------------------------------------------------------- float runs

  function FloatBytes(xs: seq<Word>): (s: seq<byte>)
    ensures |s| == 4 * |xs|
  {
    if xs == [] then [] else Pack(4, xs[0]) + FloatBytes(xs[1..])
  }

  function Words(s: seq<byte>): (xs: seq<Word>)
    requires |s| % 4 == 0
    ensures |xs| == |s| / 4
  {
    if s == [] then [] else
      UnpackWord(s[..4]);
      [Unpack(s[..4])] + Words(s[4..])
  }

  lemma UnpackWord(s: seq<byte>)
    requires |s| == 4
    ensures Unpack(s) < U32
  {
    UnpackBound(s);
    RadixValues();
  }

  lemma {:induction false} WordsOfFloats(xs: seq<Word>)
    ensures Words(FloatBytes(xs)) == xs
  {
    if xs == [] {
    } else {
      var s := FloatBytes(xs);
      assert s[..4] == Pack(4, xs[0]) && s[4..] == FloatBytes(xs[1..]);
      RadixValues();
      UnpackPack(4, xs[0]);
      WordsOfFloats(xs[1..]);
    }
  }

  lemma {:induction false} FloatsOfWords(s: seq<byte>)
    requires |s| % 4 == 0
    ensures FloatBytes(Words(s)) == s
  {
    if s == [] {
    } else {
      PackUnpack(s[..4]);
      FloatsOfWords(s[4..]);
      assert s == s[..4] + s[4..];
    }
  }

  datatype Parsed<+T> = Parsed(value: T, rest: seq<byte>)

  /** A run of `n` floats at the front of the remaining bytes. */
  function TakeFloats(s: seq<byte>, n: nat): Result<Parsed<seq<Word>>> {
    if 4 * n > |s| then Err else Ok(Parsed(Words(s[..4 * n]), s[4 * n..]))
  }

  /** The run is read exactly when the bytes start with its encoding. */
  lemma TakeFloatsExact(s: seq<byte>, n: nat, xs: seq<Word>, rest: seq<byte>)
    ensures TakeFloats(s, n) == Ok(Parsed(xs, rest)) <==> |xs| == n && s == FloatBytes(xs) + rest
  {
    if 4 * n <= |s| {
      FloatsOfWords(s[..4 * n]);
      assert s == s[..4 * n] + s[4 * n..];
    }
    if |xs| == n && s == FloatBytes(xs) + rest {
      assert s[..4 * n] == FloatBytes(xs) && s[4 * n..] == rest;
      WordsOfFloats(xs);
    }
  }

  // ---------------------------------------------------------------- stages

  function StageBytes(stages: seq<seq<Word>>): seq<byte> {
    if stages == [] then [] else FloatBytes(stages[0]) + StageBytes(stages[1..])
  }

  ghost predicate StagesFit(stages: seq<seq<Word>>, names: seq<string>, hidden: nat) {
    |stages| == |names| && forall i | 0 <= i < |names| :: |stages[i]| == Width(names[i], hidden)
  }

  function TakeStages(s: seq<byte>, names: seq<string>, hidden: nat): Result<Parsed<seq<seq<Word>>>> {
    if names == [] then Ok(Parsed([], s)) else
      match TakeFloats(s, Width(names[0], hidden))
      case Err => Err
      case Ok(first) =>
        match TakeStages(first.rest, names[1..], hidden)
        case Err => Err
        case Ok(others) => Ok(Parsed([first.value] + others.value, others.rest))
  }

  lemma {:induction false} TakeStagesExact(s: seq<byte>, names: seq<string>, hidden: nat,
                                           stages: seq<seq<Word>>, rest: seq<byte>)
    ensures TakeStages(s, names, hidden) == Ok(Parsed(stages, rest))
            <==> StagesFit(stages, names, hidden) && s == StageBytes(stages) + rest
    decreases |names|
  {
    hide TakeFloats, Width, FloatBytes;
    if names == [] {
      if StagesFit(stages, names, hidden) { assert StageBytes(stages) + rest == rest; }
    } else {
      if TakeStages(s, names, hidden) == Ok(Parsed(stages, rest)) {
        var first := TakeFloats(s, Width(names[0], hidden)).value;
        TakeFloatsExact(s, Width(names[0], hidden), first.value, first.rest);
        assert stages[1..] == TakeStages(first.rest, names[1..], hidden).value.value;
        TakeStagesExact(first.rest, names[1..], hidden, stages[1..], rest);
        assert FloatBytes(stages[0]) + (StageBytes(stages[1..]) + rest) == StageBytes(stages) + rest;
        StagesFitCons(stages, names, hidden);
      }
      if StagesFit(stages, names, hidden) && s == StageBytes(stages) + rest {
        var after := StageBytes(stages[1..]) + rest;
        assert s == FloatBytes(stages[0]) + after;
        TakeFloatsExact(s, Width(names[0], hidden), stages[0], after);
        StagesFitCons(stages, names, hidden);
        TakeStagesExact(after, names[1..], hidden, stages[1..], rest);
        assert [stages[0]] + stages[1..] == stages;
      }
    }
  }

  lemma StagesFitCons(stages: seq<seq<Word>>, names: seq<string>, hidden: nat)
    requires stages != [] && names != []
    ensures StagesFit(stages, names, hidden)
            <==> |stages[0]| == Width(names[0], hidden) && StagesFit(stages[1..], names[1..], hidden)
  {
    hide Width;
    if |stages[0]| == Width(names[0], hidden) && StagesFit(stages[1..], names[1..], hidden) {
      forall i | 0 <= i < |names| ensures |stages[i]| == Width(names[i], hidden) {
        if i > 0 { assert stages[i] == stages[1..][i - 1] && names[i] == names[1..][i - 1]; }
      }
    }
  }

  // ---------------------------------------------------------------- layers

  function AttentionBytes(attention: Option<seq<Word>>): seq<byte> {
    match attention
    case None => []
    case Some(xs) => FloatBytes(xs)
  }

  function LayerHeader(index: nat, flags: nat, kvElements: nat): (s: seq<byte>)
    ensures |s| == 16
  {
    Pack(4, index) + Pack(4, flags) + Pack(8, kvElements)
  }

  function LayerBody(l: Layer): seq<byte> {
    AttentionBytes(l.attention) + (StageBytes(l.stages) + (FloatBytes(l.key) + FloatBytes(l.value)))
  }

  function LayerBytes(l: Layer): seq<byte> {
    LayerHeader(l.index, if l.globalAttention then 1 else 0, |l.key|) + LayerBody(l)
  }

  ghost predicate LayerFits(l: Layer, index: nat, version: nat, hidden: nat) {
    && l.index == index < U32
    && |l.key| == |l.value| < U64
    && (version >= 3 <==> l.attention.Some?)
    && (l.attention.Some? ==> |l.attention.value| == AttentionWidth(l.globalAttention))
    && StagesFit(l.stages, StageNames(version), hidden)
  }

  function TakeAttention(s: seq<byte>, version: nat, globalAttention: bool): Result<Parsed<Option<seq<Word>>>> {
    if version >= 3 then
      match TakeFloats(s, AttentionWidth(globalAttention))
      case Err => Err
      case Ok(p) => Ok(Parsed(Some(p.value), p.rest))
    else Ok(Parsed(None, s))
  }

  lemma TakeAttentionExact(s: seq<byte>, version: nat, globalAttention: bool, a: Option<seq<Word>>, rest: seq<byte>)
    ensures TakeAttention(s, version, globalAttention) == Ok(Parsed(a, rest))
            <==> (version >= 3 <==> a.Some?) && (a.Some? ==> |a.value| == AttentionWidth(globalAttention))
                 && s == AttentionBytes(a) + rest
  {
    hide TakeFloats, FloatBytes, AttentionWidth;
    if version >= 3 {
      if a.Some? { TakeFloatsExact(s, AttentionWidth(globalAttention), a.value, rest); }
    } else {
      assert [] + rest == rest;
    }
  }

  /** Everything of a layer after its sixteen-byte header. */
  function TakeBody(s: seq<byte>, index: nat, version: nat, hidden: nat, globalAttention: bool, kvElements: nat)
    : Result<Parsed<Layer>>
  {
    match TakeAttention(s, version, globalAttention)
    case Err => Err
    case Ok(attention) =>
      match TakeStages(attention.rest, StageNames(version), hidden)
      case Err => Err
      case Ok(stages) =>
        match TakeFloats(stages.rest, kvElements)
        case Err => Err
        case Ok(key) =>
          match TakeFloats(key.rest, kvElements)
          case Err => Err
          case Ok(value) =>
            Ok(Parsed(Layer(index, globalAttention, attention.value, stages.value, key.value, value.value), value.rest))
  }

  ghost predicate BodyFits(l: Layer, index: nat, version: nat, hidden: nat, globalAttention: bool, kvElements: nat) {
    && l.index == index && l.globalAttention == globalAttention
    && |l.key| == kvElements && |l.value| == kvElements
    && (version >= 3 <==> l.attention.Some?)
    && (l.attention.Some? ==> |l.attention.value| == AttentionWidth(l.globalAttention))
    && StagesFit(l.stages, StageNames(version), hidden)
  }

  lemma TakeBodySound(s: seq<byte>, index: nat, version: nat, hidden: nat, globalAttention: bool, kvElements: nat,
                      l: Layer, rest: seq<byte>)
    requires TakeBody(s, index, version, hidden, globalAttention, kvElements) == Ok(Parsed(l, rest))
    ensures BodyFits(l, index, version, hidden, globalAttention, kvElements) && s == LayerBody(l) + rest
  {
    hide TakeFloats, FloatBytes, AttentionWidth, TakeStages, TakeAttention, StageBytes, AttentionBytes, StagesFit,
         StageNames;
    var attention := TakeAttention(s, version, globalAttention).value;
    var stages := TakeStages(attention.rest, StageNames(version), hidden).value;
    var key := TakeFloats(stages.rest, kvElements).value;
    TakeAttentionExact(s, version, globalAttention, attention.value, attention.rest);
    TakeStagesExact(attention.rest, StageNames(version), hidden, stages.value, stages.rest);
    TakeFloatsExact(stages.rest, kvElements, key.value, key.rest);
    TakeFloatsExact(key.rest, kvElements, l.value, rest);
    BodySplit(AttentionBytes(l.attention), StageBytes(l.stages), FloatBytes(l.key), FloatBytes(l.value), rest);
  }

  lemma BodySplit(a: seq<byte>, b: seq<byte>, c: seq<byte>, d: seq<byte>, rest: seq<byte>)
    ensures (a + (b + (c + d))) + rest == a + (b + (c + (d + rest)))
  {
  }

  lemma TakeBodyComplete(s: seq<byte>, index: nat, version: nat, hidden: nat, globalAttention: bool, kvElements: nat,
                         l: Layer, rest: seq<byte>)
    requires BodyFits(l, index, version, hidden, globalAttention, kvElements) && s == LayerBody(l) + rest
    ensures TakeBody(s, index, version, hidden, globalAttention, kvElements) == Ok(Parsed(l, rest))
  {
    hide TakeFloats, FloatBytes, AttentionWidth, TakeStages, TakeAttention, StageBytes, AttentionBytes, StagesFit,
         StageNames;
    BodySplit(AttentionBytes(l.attention), StageBytes(l.stages), FloatBytes(l.key), FloatBytes(l.value), rest);
    var afterKey := FloatBytes(l.value) + rest;
    var afterStages := FloatBytes(l.key) + afterKey;
    var afterAttention := StageBytes(l.stages) + afterStages;
    TakeAttentionExact(s, version, globalAttention, l.attention, afterAttention);
    TakeStagesExact(afterAttention, StageNames(version), hidden, l.stages, afterStages);
    TakeFloatsExact(afterStages, kvElements, l.key, afterKey);
    TakeFloatsExact(afterKey, kvElements, l.value, rest);
  }

  /** One layer record: its header must carry the expected index and a known flag word. */
  function TakeLayer(s: seq<byte>, index: nat, version: nat, hidden: nat): Result<Parsed<Layer>> {
    if |s| < 16 then Err else
      var flags := Unpack(s[4..8]);
      if Unpack(s[..4]) != index || flags > 1 then Err
      else TakeBody(s[16..], index, version, hidden, flags == 1, Unpack(s[8..16]))
  }

  lemma HeaderFields(index: nat, flags: nat, kvElements: nat)
    requires index < U32 && flags < U32 && kvElements < U64
    ensures var h := LayerHeader(index, flags, kvElements);
            Unpack(h[..4]) == index && Unpack(h[4..8]) == flags && Unpack(h[8..16]) == kvElements
  {
    var h := LayerHeader(index, flags, kvElements);
    RadixValues();
    UnpackPack(4, index);
    UnpackPack(4, flags);
    UnpackPack(8, kvElements);
    hide Pack, Unpack;
    assert h == Pack(4, index) + Pack(4, flags) + Pack(8, kvElements);
    assert h[..4] == Pack(4, index);
    assert h[4..8] == Pack(4, flags);
    assert h[8..16] == Pack(8, kvElements);
  }

  lemma HeaderOfBytes(h: seq<byte>)
    requires |h| == 16
    ensures h == LayerHeader(Unpack(h[..4]), Unpack(h[4..8]), Unpack(h[8..16]))
    ensures Unpack(h[..4]) < U32 && Unpack(h[4..8]) < U32 && Unpack(h[8..16]) < U64
  {
    hide Pack, Unpack, Radix;
    RadixValues();
    UnpackBound(h[..4]);
    UnpackBound(h[4..8]);
    UnpackBound(h[8..16]);
    PackUnpack(h[..4]);
    PackUnpack(h[4..8]);
    PackUnpack(h[8..16]);
    assert h == h[..4] + h[4..8] + h[8..16];
  }

  lemma TakeLayerSound(s: seq<byte>, index: nat, version: nat, hidden: nat, l: Layer, rest: seq<byte>)
    requires TakeLayer(s, index, version, hidden) == Ok(Parsed(l, rest))
    ensures LayerFits(l, index, version, hidden) && s == LayerBytes(l) + rest
  {
    hide TakeBody, LayerBody, LayerHeader, StagesFit, StageNames, AttentionWidth, Unpack;
    var h := s[..16];
    assert h[..4] == s[..4] && h[4..8] == s[4..8] && h[8..16] == s[8..16];
    HeaderOfBytes(h);
    TakeBodySound(s[16..], index, version, hidden, Unpack(s[4..8]) == 1, Unpack(s[8..16]), l, rest);
    assert s == h + s[16..];
    assert h + (LayerBody(l) + rest) == LayerBytes(l) + rest;
  }

  lemma TakeLayerComplete(s: seq<byte>, index: nat, version: nat, hidden: nat, l: Layer, rest: seq<byte>)
    requires LayerFits(l, index, version, hidden) && s == LayerBytes(l) + rest
    ensures TakeLayer(s, index, version, hidden) == Ok(Parsed(l, rest))
  {
    hide TakeBody, LayerBody, LayerHeader, StagesFit, StageNames, AttentionWidth, Unpack;
    var flags := if l.globalAttention then 1 else 0;
    var h := LayerHeader(l.index, flags, |l.key|);
    HeaderFields(l.index, flags, |l.key|);
    assert s == h + (LayerBody(l) + rest);
    assert s[..4] == h[..4] && s[4..8] == h[4..8] && s[8..16] == h[8..16];
    assert s[16..] == LayerBody(l) + rest;
    TakeBodyComplete(s[16..], index, version, hidden, l.globalAttention, |l.key|, l, rest);
  }

  function LayersBytes(layers: seq<Layer>): seq<byte> {
    if layers == [] then [] else LayerBytes(layers[0]) + LayersBytes(layers[1..])
  }

  /** Layers numbered from `first` on. */
  ghost predicate LayersFit(layers: seq<Layer>, first: nat, version: nat, hidden: nat) {
    forall i | 0 <= i < |layers| :: LayerFits(layers[i], first + i, version, hidden)
  }

  function TakeLayers(s: seq<byte>, first: nat, count: nat, version: nat, hidden: nat): Result<Parsed<seq<Layer>>>
    decreases count
  {
    if count == 0 then Ok(Parsed([], s)) else
      match TakeLayer(s, first, version, hidden)
      case Err => Err
      case Ok(l) =>
        match TakeLayers(l.rest, first + 1, count - 1, version, hidden)
        case Err => Err
        case Ok(others) => Ok(Parsed([l.value] + others.value, others.rest))
  }

  lemma {:induction false} TakeLayersSound(s: seq<byte>, first: nat, count: nat, version: nat, hidden: nat,
                                           layers: seq<Layer>, rest: seq<byte>)
    requires TakeLayers(s, first, count, version, hidden) == Ok(Parsed(layers, rest))
    ensures |layers| == count && LayersFit(layers, first, version, hidden) && s == LayersBytes(layers) + rest
    decreases count
  {
    hide TakeLayer, LayerBytes, LayerFits;
    if count == 0 {
    } else {
      var l := TakeLayer(s, first, version, hidden).value;
      TakeLayerSound(s, first, version, hidden, l.value, l.rest);
      assert layers[1..] == TakeLayers(l.rest, first + 1, count - 1, version, hidden).value.value;
      TakeLayersSound(l.rest, first + 1, count - 1, version, hidden, layers[1..], rest);
      assert LayerBytes(layers[0]) + (LayersBytes(layers[1..]) + rest) == LayersBytes(layers) + rest;
      forall i | 0 <= i < |layers| ensures LayerFits(layers[i], first + i, version, hidden) {
        if i > 0 {
          assert layers[i] == layers[1..][i - 1];
          assert LayerFits(layers[1..][i - 1], first + 1 + (i - 1), version, hidden);
        }
      }
    }
  }

  lemma {:induction false} TakeLayersComplete(s: seq<byte>, first: nat, version: nat, hidden: nat,
                                              layers: seq<Layer>, rest: seq<byte>)
    requires LayersFit(layers, first, version, hidden) && s == LayersBytes(layers) + rest
    ensures TakeLayers(s, first, |layers|, version, hidden) == Ok(Parsed(layers, rest))
    decreases |layers|
  {
    hide TakeLayer, LayerBytes, LayerFits;
    if layers == [] {
      assert [] + rest == rest;
    } else {
      var after := LayersBytes(layers[1..]) + rest;
      assert s == LayerBytes(layers[0]) + after;
      assert LayerFits(layers[0], first + 0, version, hidden);
      TakeLayerComplete(s, first, version, hidden, layers[0], after);
      forall i | 0 <= i < |layers[1..]| ensures LayerFits(layers[1..][i], first + 1 + i, version, hidden) {
        assert layers[1..][i] == layers[i + 1] && LayerFits(layers[i + 1], first + (i + 1), version, hidden);
      }
      TakeLayersComplete(after, first + 1, version, hidden, layers[1..], rest);
      assert [layers[0]] + layers[1..] == layers;
    }
  }

  // ---------------------------------------------------------------- element counts

  function StageElements(stages: seq<seq<Word>>): nat {
    if stages == [] then 0 else |stages[0]| + StageElements(stages[1..])
  }

  function Elements(l: Layer): nat {
    (if l.attention.Some? then |l.attention.value| else 0) + StageElements(l.stages) + |l.key| + |l.value|
  }

  function TotalElements(layers: seq<Layer>): nat {
    if layers == [] then 0 else Elements(layers[0]) + TotalElements(layers[1..])
  }

  lemma {:induction false} StageBytesLength(stages: seq<seq<Word>>)
    ensures |StageBytes(stages)| == 4 * StageElements(stages)
  {
    if stages == [] {
    } else {
      StageBytesLength(stages[1..]);
    }
  }

  lemma {:induction false} LayersBytesLength(layers: seq<Layer>)
    ensures |LayersBytes(layers)| == 16 * |layers| + 4 * TotalElements(layers)
  {
    if layers == [] {
    } else {
      StageBytesLength(layers[0].stages);
      LayersBytesLength(layers[1..]);
    }
  }
}
