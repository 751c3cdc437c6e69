/** The manifests of a Trellis35 source in numbers: which tensor records, which non-routed manifests and which layer
    manifests are accepted. */
module TrellisManifest {
  import opened Basics
  import opened Arithmetic
  import opened Arena
  import opened TrellisImage
  import opened TrellisSource
  import Ordering

  // ---------------------------------------------------------------- tensor records

  /** A matrix whose rows are packed, `per` logical columns to one physical column. */
  ghost predicate PacksColumns(r: TensorRecord, per: nat)
    requires per > 0
  {
    && |r.logicalShape| == 2 && |r.physicalShape| == 2
    && r.physicalShape[0] == r.logicalShape[0] && per * r.physicalShape[1] == r.logicalShape[1]
  }

  /** Which layouts a record may have: the storage type of each, how its physical shape follows from the logical one,
      and how many bytes it takes. */
  lemma LayoutExactly(r: TensorRecord)
    ensures TensorLayoutOk(r)
            <==> (r.layout in ["source_bf16", "row_bf16"] && r.dtype == "BF16" && r.physicalShape == r.logicalShape
                  && r.bytes == 2 * Product(r.logicalShape))
                 || (r.layout == "source_nk_fp8" && r.dtype == "F8_E4M3" && r.physicalShape == r.logicalShape
                     && r.bytes == Product(r.logicalShape))
                 || (r.layout == "scalar_bf16" && r.dtype == "BF16" && r.physicalShape == [1] && r.bytes == 2)
                 || (r.layout == "scalar_f32" && r.dtype == "F32" && r.physicalShape == [1] && r.bytes == 4)
                 || (r.layout == "sm120_row8_k64" && r.dtype == "U8" && PacksColumns(r, 2)
                     && 2 * r.bytes == Product(r.logicalShape))
                 || (r.layout == "sm120_row8_group16_e4m3" && r.dtype == "F8_E4M3" && PacksColumns(r, 16)
                     && 16 * r.bytes == Product(r.logicalShape))
  {
    hide Product;
    OneProduct();
    PackedExactly(r, 2);
    PackedExactly(r, 16);
    TypesExactly(r.layout);
  }

  lemma OneProduct()
    ensures Product([1]) == 1
  {
  }

  /** Packed columns: the shape that the division gives, and one logical element in `per` a physical one. */
  lemma PackedExactly(r: TensorRecord, per: nat)
    requires per > 0
    ensures PacksColumns(r, per)
            <==> |r.logicalShape| == 2 && r.logicalShape[1] % per == 0
                 && r.physicalShape == [r.logicalShape[0], r.logicalShape[1] / per]
    ensures PacksColumns(r, per) ==> per * Product(r.physicalShape) == Product(r.logicalShape)
  {
    if PacksColumns(r, per) {
      var rows, columns := r.physicalShape[0], r.physicalShape[1];
      DivideBack(columns, per);
      PairProduct(r.physicalShape);
      PairProduct(r.logicalShape);
      assert per * (rows * columns) == rows * (per * columns);
    } else if |r.logicalShape| == 2 && r.logicalShape[1] % per == 0 {
      assert per * (r.logicalShape[1] / per) == r.logicalShape[1];
    }
  }

  lemma DivideBack(q: int, per: nat)
    requires per > 0
    ensures per * q % per == 0 && per * q / per == q
  {
    var p := per * q / per;
    assert per * q == per * p + per * q % per;
    assert p < q ==> per * (p + 1) <= per * q;
    assert p > q ==> per * (q + 1) <= per * p;
  }

  lemma PairProduct(shape: seq<int>)
    requires |shape| == 2
    ensures Product(shape) == shape[0] * shape[1]
  {
    assert Product(shape[1..]) == shape[1] * Product(shape[1..][1..]);
  }

  lemma TypesExactly(layout: string)
    ensures LayoutDtype(layout) == "BF16" <==> layout in ["row_bf16", "scalar_bf16", "source_bf16"]
    ensures LayoutDtype(layout) == "F32" <==> layout == "scalar_f32"
    ensures LayoutDtype(layout) == "F8_E4M3" <==> layout in ["sm120_row8_group16_e4m3", "source_nk_fp8"]
    ensures LayoutDtype(layout) == "U8" <==> layout == "sm120_row8_k64"
    ensures LayoutDtype(layout) in ["", "BF16", "F32", "F8_E4M3", "U8"]
  {
  }

  // ---------------------------------------------------------------- the non-routed manifest

  ghost function EndBefore(records: seq<TensorRecord>, i: nat): int
    requires i <= |records|
  {
    if i == 0 then 0 else records[i - 1].offset + records[i - 1].bytes
  }

  ghost predicate FitsImage(shape: seq<int>) {
    (|shape| == 1 || |shape| == 2) && (forall d | d in shape :: d > 0) && Product(shape) <= 12_204_692_480
  }

  ghost predicate GoodRecord(r: TensorRecord) {
    r.bytes > 0 && FitsImage(r.logicalShape) && FitsImage(r.physicalShape) && TensorLayoutOk(r)
  }

  /** Record `i` starts at the first multiple of 256 from the end of the one before. */
  ghost predicate Follows(records: seq<TensorRecord>, i: nat)
    requires i < |records|
  {
    records[i].offset % 256 == 0 && EndBefore(records, i) <= records[i].offset < EndBefore(records, i) + 256
  }

  lemma RecordExactly(r: TensorRecord)
    ensures RecordOk(r) <==> r.offset >= 0 && GoodRecord(r)
  {
    hide Product, TensorLayoutOk;
    ShapeExactly(r.logicalShape);
    ShapeExactly(r.physicalShape);
  }

  lemma ShapeExactly(shape: seq<int>)
    ensures ShapeOk(shape) <==> FitsImage(shape)
  {
    assert forall i | 0 <= i < |shape| :: shape[i] in shape;
  }

  lemma {:induction false} OffsetsNonNegative(records: seq<TensorRecord>, i: nat)
    requires i < |records| && forall k | 0 <= k < |records| :: GoodRecord(records[k]) && Follows(records, k)
    ensures records[i].offset >= 0
  {
    hide GoodRecord;
    GoodBytes(records[i]);
    assert Follows(records, i);
    if i > 0 {
      OffsetsNonNegative(records, i - 1);
      GoodBytes(records[i - 1]);
    }
  }

  lemma GoodBytes(r: TensorRecord)
    ensures GoodRecord(r) ==> r.bytes > 0
  {
  }

  lemma NamesExactly(records: seq<TensorRecord>)
    ensures NamesIncrease(records)
            <==> (forall i | 0 <= i < |records| :: records[i].name != "")
                 && forall i, j | 0 <= i < j < |records| :: Ordering.Less(records[i].name, records[j].name)
  {
    hide Ordering.Less;
    if NamesIncrease(records) {
      forall i, j | 0 <= i < j < |records| ensures Ordering.Less(records[i].name, records[j].name) {
        NamesDistinct(records, i, j);
      }
    }
  }

  lemma SlotEnds(records: seq<TensorRecord>, i: nat)
    requires i <= |records| && (i > 0 ==> records[i - 1].offset >= 0 && records[i - 1].bytes >= 0)
    ensures CursorBefore(Slots(records), i, 0) == EndBefore(records, i)
  {
  }

  lemma PackingExactly(records: seq<TensorRecord>)
    requires forall i | 0 <= i < |records| :: records[i].offset >= 0 && records[i].bytes > 0
    ensures Slots(records) == Place(Lengths(Slots(records)), 0)
            <==> forall i | 0 <= i < |records| :: Follows(records, i)
    ensures Slots(records) == Place(Lengths(Slots(records)), 0) ==>
              EndOf(Lengths(Slots(records)), 0) == EndBefore(records, |records|)
  {
    hide Place, EndOf, Lengths, CursorBefore, EndBefore, AlignUp;
    var slots := Slots(records);
    if slots == Place(Lengths(slots), 0) { PlaceIsGreedy(Lengths(slots), 0); }
    if Greedy(slots, 0) { PlaceUnique(slots, 0); }
    SlotEnds(records, |records|);
    forall i | 0 <= i < |records|
      ensures slots[i].offset == AlignUp(CursorBefore(slots, i, 0)) <==> Follows(records, i)
    {
      SlotEnds(records, i);
      AlignExactly(EndBefore(records, i), records[i].offset);
    }
  }

  lemma AlignExactly(end: nat, offset: nat)
    ensures offset == AlignUp(end) <==> offset % 256 == 0 && end <= offset < end + 256
  {
    if offset % 256 == 0 && end <= offset { AlignUpLeast(end, offset); }
  }

  /** Which non-routed manifests are accepted: the expected number of records, each of a known layout, in name order,
      each at the first multiple of 256 from the end of the one before, the last one ending in the last 256 bytes of
      the arena. */
  lemma AcceptedExactly(records: seq<TensorRecord>, expectedCount: nat)
    ensures Accepted(records, expectedCount)
            <==> |records| == expectedCount
                 && (forall i | 0 <= i < |records| ::
                       records[i].name != "" && GoodRecord(records[i]) && Follows(records, i))
                 && (forall i, j | 0 <= i < j < |records| :: Ordering.Less(records[i].name, records[j].name))
                 && 1_850_270_720 - 256 < EndBefore(records, |records|) <= 1_850_270_720
  {
    hide RecordOk, GoodRecord, Follows, Place, EndOf, EndBefore, Slots, Lengths, NamesIncrease, AlignUp, Ordering.Less;
    NamesExactly(records);
    forall i | 0 <= i < |records|
      ensures RecordOk(records[i]) <==> records[i].offset >= 0 && GoodRecord(records[i])
      ensures GoodRecord(records[i]) ==> records[i].bytes > 0
    {
      RecordExactly(records[i]);
      GoodBytes(records[i]);
    }
    if forall i | 0 <= i < |records| :: GoodRecord(records[i]) && Follows(records, i) {
      forall i | 0 <= i < |records| ensures records[i].offset >= 0 {
        OffsetsNonNegative(records, i);
      }
    }
    if forall i | 0 <= i < |records| :: RecordOk(records[i]) {
      PackingExactly(records);
      if Slots(records) == Place(Lengths(Slots(records)), 0) {
        AlignExactly(EndOf(Lengths(Slots(records)), 0), 1_850_270_720);
      }
    }
  }

  // ---------------------------------------------------------------- a layer manifest

  /** The rate map of a family: 128 experts, 64 at three bits and 64 at four. */
  ghost predicate RatesIn(m: Manifest, family: string) {
    family in m.rateMaps && |m.rateMaps[family]| == 128
    && multiset(m.rateMaps[family])[3] == 64 && multiset(m.rateMaps[family])[4] == 64
  }

  ghost predicate Lists(m: Manifest, name: string, offset: int, bytes: int) {
    name in m.regions && m.regions[name].offset == offset && m.regions[name].bytes == bytes
  }

  /** Which layer manifests are accepted: both rate maps, and the ten regions by name. */
  lemma LayerExactly(m: Manifest)
    ensures FamilyOk(m, GateUp) && FamilyOk(m, Down)
            <==> RatesIn(m, "gate_up") && RatesIn(m, "down")
                 && Lists(m, "gate_up_k3_payload_pool", 0, 95_158_272)
                 && Lists(m, "gate_up_k4_payload_pool", 95_158_272, 126_877_696)
                 && Lists(m, "gate_up_descriptor", 222_035_968, 1_024)
                 && Lists(m, "gate_up_suh", 222_036_992, 720_896)
                 && Lists(m, "gate_up_svh", 222_757_888, 360_448)
                 && Lists(m, "down_k3_payload_pool", 223_118_336, 51_904_512)
                 && Lists(m, "down_k4_payload_pool", 275_022_848, 69_206_016)
                 && Lists(m, "down_descriptor", 344_228_864, 1_024)
                 && Lists(m, "down_suh", 344_229_888, 196_608)
                 && Lists(m, "down_svh", 344_426_496, 720_896)
  {
    hide RatesOk;
    RatesExactly(m, GateUp);
    RatesExactly(m, Down);
    forall k | 0 <= k < 10
      ensures RegionListed(m, k)
              <==> Lists(m, RegionNames()[k], LayerRegions()[k].offset, LayerRegions()[k].length)
    {
    }
    assert FamilyOk(m, GateUp) ==> RegionListed(m, 0) && RegionListed(m, 1) && RegionListed(m, 2) && RegionListed(m, 3)
                                   && RegionListed(m, 4);
    assert FamilyOk(m, Down) ==> RegionListed(m, 5) && RegionListed(m, 6) && RegionListed(m, 7) && RegionListed(m, 8)
                                 && RegionListed(m, 9);
  }

  lemma RatesExactly(m: Manifest, family: Family)
    ensures family.Name() in m.rateMaps && RatesOk(m.rateMaps[family.Name()]) <==> RatesIn(m, family.Name())
  {
    hide RatesOk;
    if family.Name() in m.rateMaps { RatesByCount(m.rateMaps[family.Name()]); }
  }
}
