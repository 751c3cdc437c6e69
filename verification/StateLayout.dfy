/** Layer-state dumps byte for byte: which files load, and as what, said of numbers at places in the file. */
module StateLayout {
  import opened Basics
  import opened Bytes
  import opened StateFormat
  import opened StateDump

  /** The little-endian number in `width` bytes from `p` on. */
  function At(data: seq<byte>, p: nat, width: nat): nat
    requires p + width <= |data|
  {
    Unpack(data[p..p + width])
  }

  /** Word `k` of a run stands in the four bytes from `p + 4 * k` on. */
  ghost predicate WordsAt(data: seq<byte>, p: nat, words: seq<Word>) {
    p + 4 * |words| <= |data| && forall k: nat | k < |words| :: At(data, p + 4 * k, 4) == words[k]
  }

  function Flat(runs: seq<seq<Word>>): seq<Word> {
    if runs == [] then [] else runs[0] + Flat(runs[1..])
  }

  /** The words of a layer: attention if it has one, the stages in order, the keys, the values. */
  function LayerWords(l: Layer): seq<Word> {
    (if l.attention.Some? then l.attention.value else []) + Flat(l.stages) + l.key + l.value
  }

  ghost predicate LayerAt(data: seq<byte>, p: nat, l: Layer) {
    && p + 16 <= |data|
    && At(data, p, 4) == l.index && At(data, p + 4, 4) == (if l.globalAttention then 1 else 0)
    && At(data, p + 8, 8) == |l.key| && WordsAt(data, p + 16, LayerWords(l))
  }

  /** How many words each run of a layer has. */
  ghost predicate RunLengths(l: Layer, version: nat, hidden: nat) {
    && (l.attention.Some? <==> version >= 3)
    && (l.attention.Some? ==> |l.attention.value| == if l.globalAttention then 8192 else 4096)
    && |l.stages| == (if version == 5 then 10 else if version >= 2 then 7 else 1)
    && (forall s | 0 <= s < |l.stages| :: |l.stages[s]| == if version == 5 && 4 <= s <= 6 then 15360 else hidden)
    && |l.value| == |l.key|
  }

  /** The forty-eight bytes in front of the layers. */
  ghost predicate FrontSays(data: seq<byte>, d: Dump) {
    && |data| >= 48 && data[..8] == [71, 49, 54, 83, 84, 48, 48, 49]
    && At(data, 8, 4) == d.version && 1 <= d.version <= 5
    && At(data, 12, 4) == |d.layers| > 0 && At(data, 16, 8) == d.position && At(data, 24, 8) > 0
    && 48 + 16 * |d.layers| + 4 * At(data, 32, 8) == |data|
    && At(data, 40, 4) == (match d.projection case NativeSm120 => 0 case CudaReference => 1 case Vllm => 2)
    && At(data, 44, 4) == (if d.version < 4 then 0 else match d.mode case CheckpointFp8 => 0 case Bfloat16 => 1
                                                                  case Unspecified => 2)
    && (d.version < 4 ==> d.mode == Unspecified)
  }

  /** Layer `i` starts at `starts[i]`, sixteen bytes of header before its words; the last one ends the file. */
  ghost predicate LayersSay(data: seq<byte>, layers: seq<Layer>, starts: seq<nat>) {
    && |starts| == |layers| + 1 && starts[|layers|] == |data|
    && forall i: nat | i < |layers| ::
         LayerAt(data, starts[i], layers[i]) && starts[i + 1] == starts[i] + 16 + 4 * |LayerWords(layers[i])|
  }

  // ---------------------------------------------------------------- words

  lemma {:induction false} FloatsAt(data: seq<byte>, p: nat, words: seq<Word>)
    ensures WordsAt(data, p, words)
            <==> p + 4 * |words| <= |data| && data[p..p + 4 * |words|] == FloatBytes(words)
    decreases |words|
  {
    hide Pack, Unpack;
    if words == [] {
    } else if p + 4 * |words| <= |data| {
      var rest := words[1..];
      FloatsAt(data, p + 4, rest);
      WordExactly(data[p..p + 4], words[0]);
      assert data[p..p + 4 * |words|] == data[p..p + 4] + data[p + 4..p + 4 + 4 * |rest|];
      assert data[p..p + 4] == data[p..p + 4 * |words|][..4];
      WordsSplit(data, p, words);
    }
  }

  lemma WordsSplit(data: seq<byte>, p: nat, words: seq<Word>)
    requires words != [] && p + 4 * |words| <= |data|
    ensures WordsAt(data, p, words) <==> At(data, p, 4) == words[0] && WordsAt(data, p + 4, words[1..])
  {
    hide At;
    if At(data, p, 4) == words[0] && WordsAt(data, p + 4, words[1..]) {
      forall k: nat | k < |words| ensures At(data, p + 4 * k, 4) == words[k] {
        if k > 0 { assert At(data, p + 4 + 4 * (k - 1), 4) == words[1..][k - 1]; }
      }
    }
    if WordsAt(data, p, words) {
      assert At(data, p + 4 * 0, 4) == words[0];
      forall k: nat | k < |words[1..]| ensures At(data, p + 4 + 4 * k, 4) == words[1..][k] {
        assert At(data, p + 4 * (k + 1), 4) == words[k + 1];
      }
    }
  }

  lemma WordExactly(s: seq<byte>, word: Word)
    requires |s| == 4
    ensures Unpack(s) == word <==> s == Pack(4, word)
  {
    RadixValues();
    PackUnpack(s);
    UnpackPack(4, word);
  }

  lemma {:induction false} FloatBytesAppend(a: seq<Word>, b: seq<Word>)
    ensures FloatBytes(a + b) == FloatBytes(a) + FloatBytes(b)
  {
    hide Pack;
    if a == [] {
      assert a + b == b;
    } else {
      FloatBytesAppend(a[1..], b);
      assert (a + b)[1..] == a[1..] + b;
    }
  }

  lemma {:induction false} FlatBytes(runs: seq<seq<Word>>)
    ensures FloatBytes(Flat(runs)) == StageBytes(runs)
  {
    if runs != [] {
      FlatBytes(runs[1..]);
      FloatBytesAppend(runs[0], Flat(runs[1..]));
    }
  }

  lemma BodyIsWords(l: Layer)
    ensures LayerBody(l) == FloatBytes(LayerWords(l))
    ensures |LayerBytes(l)| == 16 + 4 * |LayerWords(l)| && Elements(l) == |LayerWords(l)|
  {
    hide FloatBytes, StageBytes, Flat;
    var front := if l.attention.Some? then l.attention.value else [];
    FlatBytes(l.stages);
    StageBytesLength(l.stages);
    FloatBytesAppend(front + Flat(l.stages) + l.key, l.value);
    FloatBytesAppend(front + Flat(l.stages), l.key);
    FloatBytesAppend(front, Flat(l.stages));
    NoFloats();
  }

  lemma NoFloats()
    ensures FloatBytes([]) == []
  {
  }

  // ---------------------------------------------------------------- layers

  lemma LayerAtExactly(data: seq<byte>, p: nat, l: Layer)
    ensures LayerAt(data, p, l)
            <==> l.index < U32 && |l.key| < U64
                 && p + |LayerBytes(l)| <= |data| && data[p..p + |LayerBytes(l)|] == LayerBytes(l)
  {
    hide Pack, Unpack, FloatBytes, LayerWords, WordsAt, LayerBody, LayerHeader;
    var n := |LayerWords(l)|;
    BodyIsWords(l);
    FloatsAt(data, p + 16, LayerWords(l));
    if p + 16 + 4 * n <= |data| {
      HeaderAt(data, p, l);
      assert data[p..p + 16 + 4 * n] == data[p..p + 16] + data[p + 16..p + 16 + 4 * n];
      assert data[p..p + 16] == data[p..p + 16 + 4 * n][..16];
      assert data[p + 16..p + 16 + 4 * n] == data[p..p + 16 + 4 * n][16..];
    }
  }

  lemma Inner(s: seq<byte>, p: nat, n: nat, from: nat, to: nat)
    requires from <= to <= n && p + n <= |s|
    ensures s[p..p + n][from..to] == s[p + from..p + to]
  {
    var whole := s[p..p + n];
    assert forall k | 0 <= k < n :: whole[k] == s[p + k];
    assert forall k | 0 <= k < to - from :: whole[from..to][k] == whole[from + k] == s[p + from..p + to][k];
  }

  lemma HeaderAt(data: seq<byte>, p: nat, l: Layer)
    requires p + 16 <= |data|
    ensures At(data, p, 4) == l.index && At(data, p + 4, 4) == (if l.globalAttention then 1 else 0)
            && At(data, p + 8, 8) == |l.key|
            <==> l.index < U32 && |l.key| < U64
                 && data[p..p + 16] == LayerHeader(l.index, if l.globalAttention then 1 else 0, |l.key|)
  {
    hide Pack, Unpack, LayerHeader;
    var h, flags := data[p..p + 16], if l.globalAttention then 1 else 0;
    Inner(data, p, 16, 0, 4);
    Inner(data, p, 16, 4, 8);
    Inner(data, p, 16, 8, 16);
    HeaderOfBytes(h);
    if l.index < U32 && |l.key| < U64 { HeaderFields(l.index, flags, |l.key|); }
  }

  lemma {:induction false} LayersStand(data: seq<byte>, p: nat, layers: seq<Layer>) returns (starts: seq<nat>)
    requires p <= |data| && data[p..] == LayersBytes(layers)
    requires forall i | 0 <= i < |layers| :: layers[i].index < U32 && |layers[i].key| < U64
    ensures LayersSay(data, layers, starts) && starts[0] == p
    decreases |layers|
  {
    hide LayerBytes, LayerAt;
    if layers == [] {
      starts := [p];
    } else {
      var n := |LayerBytes(layers[0])|;
      var rest := LayersBytes(layers[1..]);
      BodyIsWords(layers[0]);
      assert data[p..] == LayerBytes(layers[0]) + rest;
      assert data[p..p + n] == data[p..][..n] && data[p + n..] == data[p..][n..];
      LayerAtExactly(data, p, layers[0]);
      var later := LayersStand(data, p + n, layers[1..]);
      starts := [p] + later;
      LaterSay(data, layers, starts);
    }
  }

  lemma LaterSay(data: seq<byte>, layers: seq<Layer>, starts: seq<nat>)
    requires layers != [] && |starts| == |layers| + 1
    ensures LayersSay(data, layers, starts)
            <==> LayersSay(data, layers[1..], starts[1..])
                 && LayerAt(data, starts[0], layers[0]) && starts[1] == starts[0] + 16 + 4 * |LayerWords(layers[0])|
  {
    hide LayerAt, LayerWords;
    var ls, ss := layers[1..], starts[1..];
    if LayersSay(data, ls, ss) && LayerAt(data, starts[0], layers[0])
       && starts[1] == starts[0] + 16 + 4 * |LayerWords(layers[0])| {
      forall i: nat | i < |layers|
        ensures LayerAt(data, starts[i], layers[i]) && starts[i + 1] == starts[i] + 16 + 4 * |LayerWords(layers[i])|
      {
        if i > 0 { assert LayerAt(data, ss[i - 1], ls[i - 1]); }
      }
    }
    if LayersSay(data, layers, starts) {
      forall i: nat | i < |ls|
        ensures LayerAt(data, ss[i], ls[i]) && ss[i + 1] == ss[i] + 16 + 4 * |LayerWords(ls[i])|
      {
        assert LayerAt(data, starts[i + 1], layers[i + 1]);
      }
    }
  }

  lemma {:induction false} LayersAreBytes(data: seq<byte>, layers: seq<Layer>, starts: seq<nat>)
    requires LayersSay(data, layers, starts)
    ensures starts[0] <= |data| && data[starts[0]..] == LayersBytes(layers)
    ensures forall i | 0 <= i < |layers| :: layers[i].index < U32 && |layers[i].key| < U64
    decreases |layers|
  {
    hide LayerBytes, LayerAt, LayerWords;
    if layers != [] {
      var n := |LayerBytes(layers[0])|;
      BodyIsWords(layers[0]);
      LaterSay(data, layers, starts);
      LayerAtExactly(data, starts[0], layers[0]);
      LayersAreBytes(data, layers[1..], starts[1..]);
      assert data[starts[0]..] == data[starts[0]..starts[0] + n] + data[starts[0] + n..];
    }
  }

  // ---------------------------------------------------------------- the whole file

  lemma LengthsExactly(l: Layer, index: nat, version: nat, hidden: nat)
    requires 1 <= version <= 5
    ensures LayerFits(l, index, version, hidden)
            <==> l.index == index < U32 && |l.key| < U64 && RunLengths(l, version, hidden)
  {
    StagesExactly(l.stages, version, hidden);
  }

  lemma StagesExactly(stages: seq<seq<Word>>, version: nat, hidden: nat)
    requires 1 <= version <= 5
    ensures StagesFit(stages, StageNames(version), hidden)
            <==> |stages| == (if version == 5 then 10 else if version >= 2 then 7 else 1)
                 && forall s | 0 <= s < |stages| ::
                      |stages[s]| == if version == 5 && 4 <= s <= 6 then 15360 else hidden
  {
    var names := StageNames(version);
    forall s | 0 <= s < |names|
      ensures Width(names[s], hidden) == if version == 5 && 4 <= s <= 6 then 15360 else hidden
    {
    }
  }

  /** The file says `d`: the numbers at their places, and for every layer its words, each run of them of the one
      length its kind has. */
  ghost predicate Says(data: seq<byte>, d: Dump, starts: seq<nat>) {
    && FrontSays(data, d) && LayersSay(data, d.layers, starts) && starts[0] == 48
    && forall i: nat | i < |d.layers| ::
         d.layers[i].index == i && RunLengths(d.layers[i], d.version, At(data, 24, 8))
  }

  /** Which files load, and as what. */
  lemma LoadsExactly(data: seq<byte>, d: Dump)
    ensures Parse(data) == Ok(d) <==> exists starts :: Says(data, d, starts)
  {
    hide Parse, Encode, WellFormed, At, RunLengths, LayerAt, LayerWords;
    ParseExact(data, d);
    if Parse(data) == Ok(d) {
      EncodingSays(data, d);
      var starts := LayersStand(data, 48, d.layers);
      assert Says(data, d, starts);
    }
    forall starts | Says(data, d, starts) ensures WellFormed(d) && data == Encode(d) {
      LayersAreBytes(data, d.layers, starts);
      SaysEncoding(data, d);
    }
  }

  lemma FrontFields(data: seq<byte>)
    requires |data| >= 48
    ensures ReadHeader(data[8..48])
            == Header(At(data, 8, 4), At(data, 12, 4), At(data, 16, 8), At(data, 24, 8), At(data, 32, 8),
                      At(data, 40, 4), At(data, 44, 4))
  {
    hide Unpack;
    Inner(data, 8, 40, 0, 4);
    Inner(data, 8, 40, 4, 8);
    Inner(data, 8, 40, 8, 16);
    Inner(data, 8, 40, 16, 24);
    Inner(data, 8, 40, 24, 32);
    Inner(data, 8, 40, 32, 36);
    Inner(data, 8, 40, 36, 40);
  }

  lemma EncodingSays(data: seq<byte>, d: Dump)
    requires WellFormed(d) && data == Encode(d)
    ensures FrontSays(data, d) && data[48..] == LayersBytes(d.layers)
    ensures forall i: nat | i < |d.layers| ::
              d.layers[i].index == i < U32 && |d.layers[i].key| < U64
              && RunLengths(d.layers[i], d.version, At(data, 24, 8))
  {
    hide HeaderBytes, LayersBytes, TotalElements, HiddenOf, At, RunLengths, LayerFits, ReadHeader;
    var h := HeaderOf(d);
    assert data[8..48] == HeaderBytes(h) && data[48..] == LayersBytes(d.layers) && data[..8] == MAGIC;
    ReadHeaderBytes(h);
    FrontFields(data);
    LayersBytesLength(d.layers);
    forall i: nat | i < |d.layers|
      ensures d.layers[i].index == i < U32 && |d.layers[i].key| < U64
              && RunLengths(d.layers[i], d.version, At(data, 24, 8))
    {
      assert LayerFits(d.layers[i], 0 + i, d.version, HiddenOf(d));
      LengthsExactly(d.layers[i], i, d.version, HiddenOf(d));
    }
  }

  lemma SaysEncoding(data: seq<byte>, d: Dump)
    requires FrontSays(data, d) && data[48..] == LayersBytes(d.layers)
    requires forall i: nat | i < |d.layers| ::
               d.layers[i].index == i < U32 && |d.layers[i].key| < U64
               && RunLengths(d.layers[i], d.version, At(data, 24, 8))
    ensures WellFormed(d) && data == Encode(d)
  {
    hide HeaderBytes, LayersBytes, TotalElements, HiddenOf, At, RunLengths, LayerFits, ReadHeader;
    var hidden := At(data, 24, 8);
    forall i: nat | i < |d.layers| ensures LayerFits(d.layers[i], 0 + i, d.version, hidden) {
      LengthsExactly(d.layers[i], i, d.version, hidden);
    }
    HiddenIsShared(d, d.version, hidden);
    FrontFields(data);
    HeaderBytesRead(data[8..48]);
    LayersBytesLength(d.layers);
    assert HeaderOf(d) == ReadHeader(data[8..48]);
    assert data == data[..8] + (data[8..48] + data[48..]);
  }
}
