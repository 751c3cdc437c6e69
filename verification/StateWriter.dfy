/** The dump writer: it emits the header, then loops over the layers, and refuses captures that do not fit. */
module StateWriter {
  import opened Basics
  import opened Bytes
  import opened StateFormat
  import opened StateDump

  const LAYER_COUNT: nat := 48
  const HIDDEN_ELEMENTS: nat := 3840

  type Capture = map<nat, seq<Word>>

  /** Everything the hooks captured, by layer number. */
  datatype Captures = Captures(attention: Capture, stages: map<string, Capture>, keys: Capture, values: Capture)

  predicate EveryLayer(c: Capture) {
    (forall l: nat | l < LAYER_COUNT :: l in c) && (forall l | l in c.Keys :: l < LAYER_COUNT)
  }

  /** Each map covers exactly the decoder layers. */
  predicate Complete(c: Captures) {
    && (forall i | 0 <= i < |STAGE_NAMES| :: STAGE_NAMES[i] in c.stages && EveryLayer(c.stages[STAGE_NAMES[i]]))
    && EveryLayer(c.attention) && EveryLayer(c.keys) && EveryLayer(c.values)
  }

  predicate IsGlobal(layer: nat) { layer % 6 == 5 }

  function KvWidth(layer: nat): nat { if IsGlobal(layer) then 512 else 8 * 256 }

  /** Each capture has the width its layer kind demands. */
  predicate WidthsOk(c: Captures, layer: nat)
    requires Complete(c) && layer < LAYER_COUNT
  {
    && |c.attention[layer]| == AttentionWidth(IsGlobal(layer))
    && (forall i | 0 <= i < |STAGE_NAMES| ::
          |c.stages[STAGE_NAMES[i]][layer]| == Width(STAGE_NAMES[i], HIDDEN_ELEMENTS))
    && |c.keys[layer]| == KvWidth(layer) && |c.values[layer]| == KvWidth(layer)
  }

  function StagesOf(c: Captures, layer: nat): (stages: seq<seq<Word>>)
    requires Complete(c) && layer < LAYER_COUNT
    ensures |stages| == |STAGE_NAMES|
  {
    seq(|STAGE_NAMES|, i requires 0 <= i < |STAGE_NAMES| => c.stages[STAGE_NAMES[i]][layer])
  }

  function LayerOf(c: Captures, layer: nat): Layer
    requires Complete(c) && layer < LAYER_COUNT
  {
    Layer(layer, IsGlobal(layer), Some(c.attention[layer]), StagesOf(c, layer), c.keys[layer], c.values[layer])
  }

  function LayersOf(c: Captures, count: nat): (layers: seq<Layer>)
    requires Complete(c) && count <= LAYER_COUNT
    ensures |layers| == count
  {
    seq(count, l requires 0 <= l < count => LayerOf(c, l))
  }

  /** What a dump of these captures says. Every cache type but bfloat16 is recorded as the checkpoint's FP8. */
  function Captured(position: nat, kvCacheDtype: string, c: Captures): Dump
    requires Complete(c)
  {
    Dump(5, position, Vllm, if kvCacheDtype == "bfloat16" then Bfloat16 else CheckpointFp8, LayersOf(c, LAYER_COUNT))
  }

  predicate Writable(position: nat, c: Captures) {
    Complete(c) && position < U64 && forall l | 0 <= l < LAYER_COUNT :: WidthsOk(c, l)
  }

  lemma {:induction false} ElementsBound(layers: seq<Layer>, bound: nat)
    requires forall i | 0 <= i < |layers| :: Elements(layers[i]) <= bound
    ensures TotalElements(layers) <= |layers| * bound
  {
    if layers == [] {
    } else {
      ElementsBound(layers[1..], bound);
      assert |layers| * bound == bound + (|layers| - 1) * bound;
    }
  }

  lemma LayerIsSmall(c: Captures, l: nat)
    requires Complete(c) && l < LAYER_COUNT && WidthsOk(c, l)
    ensures Elements(LayerOf(c, l)) <= 200_000
    ensures LayerFits(LayerOf(c, l), l, 5, HIDDEN_ELEMENTS)
  {
    var layer := LayerOf(c, l);
    var names := STAGE_NAMES;
    assert StagesFit(layer.stages, names, HIDDEN_ELEMENTS);
    StageElementsBound(layer.stages, INTERMEDIATE);
  }

  lemma {:induction false} StageElementsBound(stages: seq<seq<Word>>, bound: nat)
    requires forall i | 0 <= i < |stages| :: |stages[i]| <= bound
    ensures StageElements(stages) <= |stages| * bound
  {
    if stages == [] {
    } else {
      StageElementsBound(stages[1..], bound);
      assert |stages| * bound == bound + (|stages| - 1) * bound;
    }
  }

  /** Captures that pass the writer's checks make a dump the loader accepts. */
  lemma CapturedIsWellFormed(position: nat, kvCacheDtype: string, c: Captures)
    requires Writable(position, c)
    ensures WellFormed(Captured(position, kvCacheDtype, c))
    ensures HiddenOf(Captured(position, kvCacheDtype, c)) == HIDDEN_ELEMENTS
  {
    hide WidthsOk, Elements, LayerOf, LayerFits, HiddenOf;
    var d := Captured(position, kvCacheDtype, c);
    forall l | 0 <= l < LAYER_COUNT
      ensures LayerFits(d.layers[l], 0 + l, 5, HIDDEN_ELEMENTS) && Elements(d.layers[l]) <= 200_000
    {
      LayerIsSmall(c, l);
    }
    ElementsBound(d.layers, 200_000);
    HiddenIsShared(d, 5, HIDDEN_ELEMENTS);
  }

  /** The header of the file, whatever the widths. */
  function Front(position: nat, kvCacheDtype: string, c: Captures): Header
    requires Complete(c)
  {
    Header(5, LAYER_COUNT, position, HIDDEN_ELEMENTS, TotalElements(LayersOf(c, LAYER_COUNT)), 2,
           if kvCacheDtype == "bfloat16" then 1 else 0)
  }

  lemma {:induction false} FewerElements(c: Captures, k: nat, count: nat)
    requires Complete(c) && k <= count <= LAYER_COUNT
    ensures TotalElements(LayersOf(c, k)) <= TotalElements(LayersOf(c, count))
    decreases count - k
  {
    hide Elements, LayerOf;
    if k == count {
    } else {
      assert LayersOf(c, k + 1) == LayersOf(c, k) + [LayerOf(c, k)];
      TotalElementsAppend(LayersOf(c, k), LayerOf(c, k));
      FewerElements(c, k + 1, count);
    }
  }

  /** A dump with fewer layers than its header announces does not load. */
  lemma PartialNeverLoads(position: nat, kvCacheDtype: string, c: Captures, k: nat)
    requires Complete(c) && k < LAYER_COUNT && HeaderInRange(Front(position, kvCacheDtype, c))
    ensures Parse(MAGIC + HeaderBytes(Front(position, kvCacheDtype, c)) + LayersBytes(LayersOf(c, k))).Err?
  {
    hide HeaderBytes, LayersBytes, TotalElements, Parse, LayerOf;
    var h := Front(position, kvCacheDtype, c);
    var data := MAGIC + HeaderBytes(h) + LayersBytes(LayersOf(c, k));
    assert data[8..48] == HeaderBytes(h);
    LayersBytesLength(LayersOf(c, k));
    FewerElements(c, k, LAYER_COUNT);
    HeaderDemandsLength(data, h);
  }

  /** The writer: check coverage, open the file, emit magic and header, then one checked record per layer. A bad
      width or number leaves the file as far as it was written, and what it leaves never loads. */
  method WriteDump(position: nat, kvCacheDtype: string, c: Captures) returns (ok: bool, file: Option<seq<byte>>)
    ensures ok <==> Writable(position, c)
    ensures ok ==> file == Some(Encode(Captured(position, kvCacheDtype, c)))
    ensures file.Some? <==> Complete(c)
    ensures !ok && file.Some? ==> Parse(file.value).Err?
  {
    hide LayerBytes, HeaderBytes, WidthsOk, TotalElements, HiddenOf, Parse;
    if !Complete(c) { return false, None; }
    var total := TotalElements(LayersOf(c, LAYER_COUNT));
    var output := MAGIC;
    if position >= U64 || total >= U64 {
      TooShort(MAGIC);
      if position < U64 && Writable(position, c) { CapturedIsWellFormed(position, kvCacheDtype, c); }
      return false, Some(output);
    }
    ghost var front := Front(position, kvCacheDtype, c);
    output := output + HeaderBytes(Header(5, LAYER_COUNT, position, HIDDEN_ELEMENTS, total, 2,
                                          if kvCacheDtype == "bfloat16" then 1 else 0));
    var layer := 0;
    while layer < LAYER_COUNT
      invariant 0 <= layer <= LAYER_COUNT
      invariant forall l | 0 <= l < layer :: WidthsOk(c, l)
      invariant output == MAGIC + HeaderBytes(front) + LayersBytes(LayersOf(c, layer))
    {
      if !WidthsOk(c, layer) {
        PartialNeverLoads(position, kvCacheDtype, c, layer);
        return false, Some(output);
      }
      var record := WriteLayer(c, layer);
      LayersBytesAppend(LayersOf(c, layer), LayerOf(c, layer));
      assert LayersOf(c, layer + 1) == LayersOf(c, layer) + [LayerOf(c, layer)];
      output := output + record;
      layer := layer + 1;
    }
    CapturedIsWellFormed(position, kvCacheDtype, c);
    ghost var header := HeaderBytes(HeaderOf(Captured(position, kvCacheDtype, c)));
    ghost var body := LayersBytes(LayersOf(c, layer));
    assert MAGIC + header + body == MAGIC + (header + body);
    return true, Some(output);
  }

  /** The bytes of one layer record, field by field. */
  method WriteLayer(c: Captures, layer: nat) returns (output: seq<byte>)
    requires Complete(c) && layer < LAYER_COUNT && WidthsOk(c, layer)
    ensures output == LayerBytes(LayerOf(c, layer))
  {
    hide LayerHeader, FloatBytes, AttentionWidth, Width, StageBytes, StageNames;
    NoStageBytes();
    ghost var l := LayerOf(c, layer);
    output := LayerHeader(layer, if IsGlobal(layer) then 1 else 0, KvWidth(layer));
    ghost var header := output;
    output := output + FloatBytes(c.attention[layer]);
    ghost var front := output;
    var i := 0;
    while i < |STAGE_NAMES|
      invariant 0 <= i <= |STAGE_NAMES|
      invariant output == front + StageBytes(l.stages[..i])
    {
      StageBytesAppend(l.stages[..i], l.stages[i]);
      assert l.stages[..i + 1] == l.stages[..i] + [l.stages[i]];
      output := output + FloatBytes(c.stages[STAGE_NAMES[i]][layer]);
      i := i + 1;
    }
    assert l.stages[..i] == l.stages;
    output := output + FloatBytes(c.keys[layer]);
    output := output + FloatBytes(c.values[layer]);
    Reassociate(header, FloatBytes(c.attention[layer]), StageBytes(l.stages),
                FloatBytes(c.keys[layer]), FloatBytes(c.values[layer]));
  }

  lemma NoStageBytes()
    ensures StageBytes([]) == []
  {
  }

  lemma Reassociate(a: seq<byte>, b: seq<byte>, c: seq<byte>, d: seq<byte>, e: seq<byte>)
    ensures a + b + c + d + e == a + (b + (c + (d + e)))
  {
  }

  lemma {:induction false} StageBytesAppend(stages: seq<seq<Word>>, stage: seq<Word>)
    ensures StageBytes(stages + [stage]) == StageBytes(stages) + FloatBytes(stage)
  {
    hide FloatBytes;
    if stages == [] {
      assert [] + [stage] == [stage];
    } else {
      StageBytesAppend(stages[1..], stage);
      assert (stages + [stage])[1..] == stages[1..] + [stage];
    }
  }

  lemma {:induction false} LayersBytesAppend(layers: seq<Layer>, l: Layer)
    ensures LayersBytes(layers + [l]) == LayersBytes(layers) + LayerBytes(l)
  {
    hide LayerBytes;
    if layers == [] {
      assert [] + [l] == [l];
    } else {
      LayersBytesAppend(layers[1..], l);
      assert (layers + [l])[1..] == layers[1..] + [l];
    }
  }

  /** What was captured of a layer under a stage's name. */
  function StageOf(c: Captures, name: string, layer: nat): Option<seq<Word>> {
    if name in c.stages && layer in c.stages[name] then Some(c.stages[name][layer]) else None
  }

  /** What a layer of a dump holds of the captures: the attention context, the ten stages in order, keys and values. */
  ghost predicate HoldsCaptures(l: Layer, c: Captures, layer: nat) {
    && l.index == layer && l.globalAttention == (layer % 6 == 5)
    && layer in c.attention && l.attention == Some(c.attention[layer])
    && layer in c.keys && l.key == c.keys[layer] && layer in c.values && l.value == c.values[layer]
    && |l.stages| == 10
    && var names := ["attention_output", "post_attention_norm", "post_attention_residual", "pre_feedforward_norm",
                     "gate", "up", "gelu_product", "mlp_output", "post_feedforward_norm", "hidden"];
       forall k | 0 <= k < 10 :: StageOf(c, names[k], layer) == Some(l.stages[k])
  }

  lemma LayerHolds(c: Captures, layer: nat)
    requires Complete(c) && layer < LAYER_COUNT
    ensures HoldsCaptures(LayerOf(c, layer), c, layer)
  {
    forall k | 0 <= k < |STAGE_NAMES|
      ensures StageOf(c, STAGE_NAMES[k], layer) == Some(c.stages[STAGE_NAMES[k]][layer])
    {
    }
  }

  /** Round trip: loading what the writer emits gives back every layer, stage, key and value, the position, and
      the recorded cache mode. */
  lemma DumpRoundTrip(position: nat, kvCacheDtype: string, c: Captures)
    requires Writable(position, c)
    ensures var r := Parse(Encode(Captured(position, kvCacheDtype, c)));
            && r.Ok? && r.value.version == 5 && r.value.position == position && r.value.projection == Vllm
            && r.value.mode == (if kvCacheDtype == "bfloat16" then Bfloat16 else CheckpointFp8)
            && |r.value.layers| == 48
            && forall layer: nat | layer < 48 :: HoldsCaptures(r.value.layers[layer], c, layer)
  {
    hide Parse, Encode, HoldsCaptures, WidthsOk;
    var d := Captured(position, kvCacheDtype, c);
    CapturedIsWellFormed(position, kvCacheDtype, c);
    ParseComplete(d);
    forall layer: nat | layer < 48 ensures HoldsCaptures(d.layers[layer], c, layer) {
      LayerHolds(c, layer);
    }
  }

  /** A capture map of exactly the layers, each with `local` words, or `global` words in every sixth one. */
  ghost predicate Covers(c: Capture, local: nat, global: nat) {
    && (forall l: nat :: l in c <==> l < 48)
    && forall l: nat | l in c :: |c[l]| == if l % 6 == 5 then global else local
  }

  /** Complete, and of the right widths, map by map. */
  lemma WritableByMap(position: nat, c: Captures)
    ensures Writable(position, c)
            <==> position < U64 && Covers(c.attention, 4096, 8192) && Covers(c.keys, 2048, 512)
                 && Covers(c.values, 2048, 512)
                 && forall i | 0 <= i < |STAGE_NAMES| ::
                      var name, width := STAGE_NAMES[i], Width(STAGE_NAMES[i], HIDDEN_ELEMENTS);
                      name in c.stages && Covers(c.stages[name], width, width)
  {
    hide Width;
    forall m: Capture ensures EveryLayer(m) <==> forall l: nat :: l in m <==> l < 48 {
      if EveryLayer(m) { assert forall l: nat | l in m :: l in m.Keys; }
    }
    if Writable(position, c) {
      forall l: nat | l < 48
        ensures |c.attention[l]| == AttentionWidth(IsGlobal(l)) && |c.keys[l]| == |c.values[l]| == KvWidth(l)
      {
        assert WidthsOk(c, l);
      }
      forall i | 0 <= i < |STAGE_NAMES|
        ensures var width := Width(STAGE_NAMES[i], HIDDEN_ELEMENTS); Covers(c.stages[STAGE_NAMES[i]], width, width)
      {
        forall l: nat | l < 48 ensures |c.stages[STAGE_NAMES[i]][l]| == Width(STAGE_NAMES[i], HIDDEN_ELEMENTS) {
          assert WidthsOk(c, l);
        }
      }
    } else if Complete(c) && position < U64 {
      var l :| 0 <= l < LAYER_COUNT && !WidthsOk(c, l);
      assert l in c.attention && l in c.keys && l in c.values;
      assert forall i | 0 <= i < |STAGE_NAMES| :: l in c.stages[STAGE_NAMES[i]];
    }
  }

  /** Which captures can be written, in numbers. */
  lemma WritableExactly(position: nat, c: Captures)
    ensures Writable(position, c)
            <==> position < 0x1_0000_0000_0000_0000
                 && Covers(c.attention, 4096, 8192) && Covers(c.keys, 2048, 512) && Covers(c.values, 2048, 512)
                 && (forall name | name in ["gate", "up", "gelu_product"] ::
                       name in c.stages && Covers(c.stages[name], 15360, 15360))
                 && (forall name | name in ["attention_output", "post_attention_norm", "post_attention_residual",
                                            "pre_feedforward_norm", "mlp_output", "post_feedforward_norm", "hidden"] ::
                       name in c.stages && Covers(c.stages[name], 3840, 3840))
  {
    hide Covers, Writable;
    WritableByMap(position, c);
    var wide, narrow := ["gate", "up", "gelu_product"],
                        ["attention_output", "post_attention_norm", "post_attention_residual",
                         "pre_feedforward_norm", "mlp_output", "post_feedforward_norm", "hidden"];
    forall i | 0 <= i < |STAGE_NAMES|
      ensures if 4 <= i <= 6 then STAGE_NAMES[i] in wide && Width(STAGE_NAMES[i], HIDDEN_ELEMENTS) == 15360
              else STAGE_NAMES[i] in narrow && Width(STAGE_NAMES[i], HIDDEN_ELEMENTS) == 3840
    {
    }
    assert wide == STAGE_NAMES[4..7] && narrow == STAGE_NAMES[..4] + STAGE_NAMES[7..];
  }
}
