/** The Trellis35 source check around the image: rate maps, region tables, layer order and payload sizes, and
    what every accepted source is then built into. */
module TrellisSource {
  import opened Basics
  import opened TrellisImage

  datatype Region = Region(offset: int, bytes: int)

  /** A layer manifest. `contract` says that its pinned fields (versions, profile, source lock, alignment,
      codebook, artifact size and digest) have the expected values. */
  datatype Manifest = Manifest(contract: bool, layer: int, rateMaps: map<string, seq<int>>,
                               regions: map<string, Region>)

  /** One entry of the checkpoint's layer index, with the files it names. */
  datatype LayerRecord = LayerRecord(layer: int, payload: seq<byte>, manifest: Manifest)

  /** A v1 source. `identity` says that the checkpoint's pinned fields have the expected values. */
  datatype Source = Source(identity: bool, nonRouted: seq<byte>, tensors: seq<TensorRecord>,
                           checkpointLayers: seq<LayerRecord>, expertLayers: seq<LayerRecord>)

  /** The names of the regions, in the order of `LayerRegions`. */
  function RegionNames(): (names: seq<string>)
    ensures |names| == |LayerRegions()|
  {
    [ "gate_up_k3_payload_pool", "gate_up_k4_payload_pool", "gate_up_descriptor", "gate_up_suh", "gate_up_svh",
      "down_k3_payload_pool", "down_k4_payload_pool", "down_descriptor", "down_suh", "down_svh" ]
  }

  datatype Family = GateUp | Down {
    function Name(): string { if GateUp? then "gate_up" else "down" }

    function First(): nat { if GateUp? then 0 else 5 }
  }

  /** Sixty-four experts at rate three, sixty-four at rate four, and nothing else. */
  ghost predicate RatesOk(rates: seq<int>) {
    multiset(rates) == multiset{}[3 := 64][4 := 64]
  }

  ghost predicate RegionListed(m: Manifest, k: nat)
    requires k < |LayerRegions()|
  {
    RegionNames()[k] in m.regions
    && m.regions[RegionNames()[k]] == Region(LayerRegions()[k].offset, LayerRegions()[k].length)
  }

  ghost predicate FamilyOk(m: Manifest, family: Family) {
    && family.Name() in m.rateMaps && RatesOk(m.rateMaps[family.Name()])
    && forall k | family.First() <= k < family.First() + 5 :: RegionListed(m, k)
  }

  /** The three tests of the source on a rate map say together that it is half threes and half fours. */
  method CheckRates(rates: seq<int>) returns (ok: bool)
    ensures ok <==> RatesOk(rates)
  {
    var threes, fours, others, i: nat := 0, 0, 0, 0;
    while i < |rates|
      invariant 0 <= i <= |rates|
      invariant threes == multiset(rates[..i])[3] && fours == multiset(rates[..i])[4]
      invariant threes + fours + others == i
    {
      assert rates[..i + 1] == rates[..i] + [rates[i]];
      if rates[i] == 3 { threes := threes + 1; }
      else if rates[i] == 4 { fours := fours + 1; }
      else { others := others + 1; }
      i := i + 1;
    }
    assert rates[..i] == rates;
    ok := |rates| == 128 && others == 0 && threes == 64 && fours == 64;
    RatesByCount(rates);
  }

  /** With 128 entries the two counts decide; the membership test of the source adds nothing. */
  lemma RatesByCount(rates: seq<int>)
    ensures RatesOk(rates) <==> |rates| == 128 && multiset(rates)[3] == 64 && multiset(rates)[4] == 64
  {
    var all, half: multiset<int> := multiset(rates), multiset{}[3 := 64][4 := 64];
    assert |half| == 128 && |all| == |rates|;
    if |rates| == 128 && all[3] == 64 && all[4] == 64 {
      var rest := all - half;
      assert all == half + rest;
      assert |rest| == 0;
    }
  }

  method CompactFamily(m: Manifest, family: Family) returns (ok: bool)
    ensures ok <==> FamilyOk(m, family)
  {
    hide RatesOk;
    if family.Name() !in m.rateMaps { return false; }
    var ratesOk := CheckRates(m.rateMaps[family.Name()]);
    if !ratesOk { return false; }
    var k := family.First();
    while k < family.First() + 5
      invariant family.First() <= k <= family.First() + 5
      invariant forall j | family.First() <= j < k :: RegionListed(m, j)
    {
      var name, expected := RegionNames()[k], LayerRegions()[k];
      if name !in m.regions || m.regions[name] != Region(expected.offset, expected.length) {
        assert !RegionListed(m, k);
        return false;
      }
      k := k + 1;
    }
    return true;
  }

  ghost predicate LayerOk(record: LayerRecord, layer: nat) {
    && record.layer == layer && |record.payload| == LAYER_BYTES
    && record.manifest.contract && record.manifest.layer == layer
    && FamilyOk(record.manifest, GateUp) && FamilyOk(record.manifest, Down)
  }

  ghost predicate SourceAccepted(source: Source, expectedTensors: nat) {
    && source.identity && |source.nonRouted| == NON_ROUTED_BYTES
    && Accepted(source.tensors, expectedTensors)
    && |source.checkpointLayers| == LAYERS && source.checkpointLayers == source.expertLayers
    && forall l | 0 <= l < LAYERS :: LayerOk(source.checkpointLayers[l], l)
  }

  function LayerPayloads(records: seq<LayerRecord>): (payloads: seq<seq<byte>>)
    ensures |payloads| == |records|
    ensures forall l | 0 <= l < |records| :: payloads[l] == records[l].payload
  {
    seq(|records|, l requires 0 <= l < |records| => records[l].payload)
  }

  method ValidateV1(source: Source, expectedTensors: nat) returns (payloads: Result<seq<seq<byte>>>)
    ensures payloads == if SourceAccepted(source, expectedTensors)
                        then Ok([source.nonRouted] + LayerPayloads(source.checkpointLayers)) else Err
  {
    hide Accepted, FamilyOk;
    if !source.identity || |source.nonRouted| != NON_ROUTED_BYTES { return Err; }
    var tensorsOk := CompactNonRouted(source.tensors, expectedTensors);
    if !tensorsOk { return Err; }
    if |source.checkpointLayers| != LAYERS || source.checkpointLayers != source.expertLayers { return Err; }
    var layers: seq<seq<byte>>, layer := [], 0;
    while layer < LAYERS
      invariant 0 <= layer <= LAYERS
      invariant layers == LayerPayloads(source.checkpointLayers)[..layer]
      invariant forall l | 0 <= l < layer :: LayerOk(source.checkpointLayers[l], l)
    {
      var record := source.checkpointLayers[layer];
      var gateUp := CompactFamily(record.manifest, GateUp);
      var down := CompactFamily(record.manifest, Down);
      if record.layer != layer || |record.payload| != LAYER_BYTES || !record.manifest.contract
         || record.manifest.layer != layer || !gateUp || !down
      {
        assert !LayerOk(source.checkpointLayers[layer], layer);
        return Err;
      }
      layers := layers + [record.payload];
      layer := layer + 1;
    }
    assert layers == LayerPayloads(source.checkpointLayers);
    return Ok([source.nonRouted] + layers);
  }

  /** The v2 build: validate, then concatenate with any positive chunk size. */
  method BuildV2(source: Source, expectedTensors: nat, chunkBytes: int) returns (image: Result<seq<byte>>)
    ensures image == if SourceAccepted(source, expectedTensors) && chunkBytes > 0
                     then Ok(Concat([source.nonRouted] + LayerPayloads(source.checkpointLayers))) else Err
  {
    hide SourceAccepted, Concat;
    var payloads := ValidateV1(source, expectedTensors);
    if payloads.Err? { return Err; }
    AcceptedExtent(source, expectedTensors);
    image := StreamConcat(payloads.value, IMAGE_BYTES, chunkBytes);
  }

  lemma AcceptedExtent(source: Source, expectedTensors: nat)
    requires SourceAccepted(source, expectedTensors)
    ensures |Concat([source.nonRouted] + LayerPayloads(source.checkpointLayers))| == IMAGE_BYTES
  {
    hide Accepted, FamilyOk;
    AddressMap(source.tensors, expectedTensors, source.nonRouted, LayerPayloads(source.checkpointLayers), 0);
  }

  /** The image of an accepted source: every address is in exactly one tensor, padding gap or layer region; a
      region is the one the manifest of its own layer lists under its name; and the byte there is the byte of
      the file that holds it. */
  lemma AcceptedSourceMap(source: Source, expectedTensors: nat, address: nat)
    requires SourceAccepted(source, expectedTensors) && address < IMAGE_BYTES
    ensures var slots, location := Slots(source.tensors), Locate(Slots(source.tensors), address);
            var image := Concat([source.nonRouted] + LayerPayloads(source.checkpointLayers));
            |image| == IMAGE_BYTES
            && (forall other :: Describes(slots, other, address) <==> other == location)
            && match location
               case InRegion(l, r, o) =>
                 l < LAYERS && r < |RegionNames()|
                 && RegionListed(source.checkpointLayers[l].manifest, r)
                 && LayerRegions()[r].offset + o < |source.checkpointLayers[l].payload|
                 && image[address] == source.checkpointLayers[l].payload[LayerRegions()[r].offset + o]
               case _ => address < |source.nonRouted| && image[address] == source.nonRouted[address]
  {
    hide Accepted, FamilyOk, RegionListed, Concat, Locate;
    var layers := LayerPayloads(source.checkpointLayers);
    AddressMap(source.tensors, expectedTensors, source.nonRouted, layers, address);
    var slots := Slots(source.tensors);
    var location := Locate(slots, address);
    assert Describes(slots, location, address);
    match location
    case InRegion(l, r, o) =>
      FamiliesListRegion(source.checkpointLayers[l].manifest, r);
      RegionsTileLayer(0);
      assert LayerRegions()[r].End() <= LAYER_BYTES;
      assert LayerOk(source.checkpointLayers[l], l);
      assert layers[l] == source.checkpointLayers[l].payload;
    case InTensor(i, o) =>
      assert slots[i].End() <= NON_ROUTED_BYTES by { AcceptedOrdered(source.tensors, expectedTensors); }
    case InPadding(a) =>
  }

  lemma FamiliesListRegion(m: Manifest, k: nat)
    requires k < |LayerRegions()|
    ensures FamilyOk(m, GateUp) && FamilyOk(m, Down) ==> RegionListed(m, k)
  {
    hide RatesOk, RegionListed;
    assert k < 10;
  }
}
