/** NVFP4 rows byte for byte: which bytes the quantizer stores for which values, and which values the reader returns for
    which bytes. */
module Nvfp4Bytes {
  import opened Basics
  import opened Nearest
  import opened MiniFloat
  import opened Nvfp4

  /** The nibble of column `i`: the low half of its byte for an even column, the high half for an odd one. */
  function NibbleAt(packed: seq<byte>, i: nat): (nibble: nat)
    requires i / 2 < |packed|
    ensures nibble < 16
  {
    if i % 2 == 0 then packed[i / 2] % 16 else packed[i / 2] / 16
  }

  /** The largest magnitude of block `b`. */
  ghost predicate IsLargest(values: seq<Number>, b: nat, m: real)
    requires 16 * b + 16 <= |values|
  {
    (exists i :: 16 * b <= i < 16 * b + 16 && values[i].magnitude == m)
    && forall i | 16 * b <= i < 16 * b + 16 :: values[i].magnitude <= m
  }

  /** The scale code of a block whose largest magnitude is `m`: that of one sixth of it, times the divisor. */
  ghost predicate FitsBlock(m: real, divisor: real, code: nat) {
    forall raw: real | 6.0 * raw == m * divisor :: IsScaleCode(raw, code)
  }

  /** The nibble of a value: its size in units of the stored scale over the divisor; zero behind a scale of zero. */
  ghost predicate FitsValue(x: Number, divisor: real, scale: real, code: nat) {
    if scale == 0.0 then code == 0 else IsNibble(x.negative, x.magnitude * divisor / scale, code)
  }

  ghost predicate StoresScale(values: seq<Number>, divisor: real, q: Quantized, b: nat)
    requires 16 * b + 16 <= |values| && b < |q.scales|
  {
    exists m :: IsLargest(values, b, m) && FitsBlock(m, divisor, q.scales[b])
  }

  ghost predicate StoresValue(values: seq<Number>, divisor: real, q: Quantized, i: nat)
    requires i < |values|
  {
    i / 2 < |q.packed| && i / 16 < |q.scales| && q.scales[i / 16] < 127
    && FitsValue(values[i], divisor, E4M3Levels()[q.scales[i / 16]], NibbleAt(q.packed, i))
  }

  ghost predicate Stores(values: seq<Number>, divisor: real, q: Quantized)
    requires |values| % 16 == 0
  {
    && |q.packed| == |values| / 2 && |q.scales| == |values| / 16
    && (forall b: nat | b < |q.scales| :: StoresScale(values, divisor, q, b))
    && forall i: nat | i < |values| :: StoresValue(values, divisor, q, i)
  }

  // ---------------------------------------------------------------- the quantizer

  lemma LargestIsAmax(values: seq<Number>, b: nat, m: real)
    requires 16 * b + 16 <= |values|
    ensures IsLargest(values, b, m) <==> m == Amax(Block(values, b))
  {
    hide Amax;
    var block := Block(values, b);
    forall i | 16 * b <= i < 16 * b + 16 ensures values[i] == block[i - 16 * b] {
    }
    var k :| 0 <= k < |block| && block[k].magnitude == Amax(block);
    assert values[16 * b + k] == block[k];
    forall k | 0 <= k < |block| ensures block[k] == values[16 * b + k] {
    }
  }

  lemma BlockExactly(block: seq<Number>, divisor: real, code: nat)
    requires divisor > 0.0
    ensures FitsBlock(Amax(block), divisor, code) <==> code == ScaleCode(block, divisor)
  {
    hide Amax, IsScaleCode, EncodeE4M3, EncodeE2M1, IsNibble, RawScale;
    var raw := RawScale(block, divisor);
    AmaxInScales(block, divisor, 0.0);
    EncodersExactly(Signed(false, 0.0), raw, code);
    assert IsScaleCode(raw, code) <==> code == ScaleCode(block, divisor);
    assert 6.0 * raw == Amax(block) * divisor;
  }

  lemma ScaleExactly(values: seq<Number>, divisor: real, q: Quantized, b: nat)
    requires 16 * b + 16 <= |values| && b < |q.scales| && divisor > 0.0
    ensures StoresScale(values, divisor, q, b) <==> q.scales[b] == ScaleCode(Block(values, b), divisor)
  {
    hide Amax, IsLargest, FitsBlock, ScaleCode, Block;
    var m := Amax(Block(values, b));
    BlockExactly(Block(values, b), divisor, q.scales[b]);
    forall other ensures IsLargest(values, b, other) <==> other == m {
      LargestIsAmax(values, b, other);
    }
    assert IsLargest(values, b, m);
  }

  /** The stored nibble is the quantizer's. */
  ghost predicate Keeps(values: seq<Number>, divisor: real, packed: seq<byte>, i: nat)
    requires |values| % 16 == 0 && i < |values|
  {
    i / 2 < |packed| && NibbleAt(packed, i) == Nibble(values, divisor, i)
  }

  lemma CodeExactly(x: Number, divisor: real, scale: real, code: nat)
    requires divisor > 0.0 && scale >= 0.0
    ensures FitsValue(x, divisor, scale, code) <==> code == EncodeE2M1(Normalized(x, divisor, scale))
  {
    hide EncodeE2M1, IsNibble, EncodeE4M3, IsScaleCode;
    if scale == 0.0 {
      EncodeOfZero();
    } else {
      NormalizedNonNegative(x, divisor, scale);
      var n := Normalized(x, divisor, scale);
      assert n.negative == x.negative && n.magnitude == x.magnitude * divisor / scale;
      EncodersExactly(n, 0.0, code);
    }
  }

  lemma ValueExactly(values: seq<Number>, divisor: real, q: Quantized, i: nat)
    requires |values| % 16 == 0 && divisor > 0.0
    requires i < |values| && i / 2 < |q.packed| && i / 16 < |q.scales|
    requires q.scales[i / 16] == ScaleCode(Block(values, i / 16), divisor)
    ensures StoresValue(values, divisor, q, i) <==> Keeps(values, divisor, q.packed, i)
  {
    hide ScaleCode, EncodeE2M1, FitsValue, NibbleAt, DecodeE4M3, Normalized, Block, E4M3Levels;
    LevelIs(q.scales[i / 16]);
    DecodeIsUnits(q.scales[i / 16]);
    CodeExactly(values[i], divisor, StoredScale(values, divisor, i), NibbleAt(q.packed, i));
  }

  lemma ScalesExactly(values: seq<Number>, divisor: real, q: Quantized)
    requires |values| % 16 == 0 && |q.scales| == |values| / 16 && divisor > 0.0
    ensures q.scales == ScalesOf(values, divisor)
            <==> forall b: nat | b < |q.scales| :: StoresScale(values, divisor, q, b)
  {
    hide ScaleCode, StoresScale, Block;
    forall b: nat | b < |q.scales|
      ensures StoresScale(values, divisor, q, b) <==> q.scales[b] == ScalesOf(values, divisor)[b]
    {
      ScaleExactly(values, divisor, q, b);
    }
  }

  lemma ValuesExactly(values: seq<Number>, divisor: real, q: Quantized)
    requires |values| % 16 == 0 && |q.packed| == |values| / 2 && divisor > 0.0
    requires q.scales == ScalesOf(values, divisor)
    ensures q.packed == PackedOf(values, divisor)
            <==> forall i: nat | i < |values| :: StoresValue(values, divisor, q, i)
  {
    hide ScaleCode, StoresValue, Keeps, PackedOf, Block;
    PackedExactly(values, divisor, q.packed);
    forall i: nat | i < |values|
      ensures StoresValue(values, divisor, q, i) <==> Keeps(values, divisor, q.packed, i)
    {
      PlacesOf(|values|, i);
      ValueExactly(values, divisor, q, i);
    }
  }

  lemma PlacesOf(n: nat, i: nat)
    requires n % 16 == 0 && i < n
    ensures i / 2 < n / 2 && i / 16 < n / 16
  {
  }

  /** The bytes the quantizer stores for a row: these and no others. */
  lemma QuantizeExactly(values: seq<Number>, divisor: real, q: Quantized)
    requires |values| % 16 == 0 && divisor > 0.0
    ensures q == Quantize(values, divisor) <==> Stores(values, divisor, q)
  {
    hide StoresScale, StoresValue, PackedOf, ScalesOf;
    if |q.packed| == |values| / 2 && |q.scales| == |values| / 16 {
      ScalesExactly(values, divisor, q);
      if q.scales == ScalesOf(values, divisor) { ValuesExactly(values, divisor, q); }
    }
  }

  lemma PackedExactly(values: seq<Number>, divisor: real, packed: seq<byte>)
    requires |values| % 16 == 0 && |packed| == |values| / 2
    ensures packed == PackedOf(values, divisor)
            <==> forall i: nat | i < |values| :: Keeps(values, divisor, packed, i)
  {
    hide Keeps, PackedByte, PackedOf;
    forall j: nat | j < |packed|
      ensures packed[j] == PackedOf(values, divisor)[j]
              <==> Keeps(values, divisor, packed, 2 * j)
                   && Keeps(values, divisor, packed, 2 * j + 1)
    {
      ByteExactly(values, divisor, packed, j);
    }
    if packed == PackedOf(values, divisor) {
      forall i: nat | i < |values| ensures Keeps(values, divisor, packed, i) {
        assert i == 2 * (i / 2) || i == 2 * (i / 2) + 1;
        assert packed[i / 2] == PackedOf(values, divisor)[i / 2];
      }
    }
  }

  lemma ByteExactly(values: seq<Number>, divisor: real, packed: seq<byte>, j: nat)
    requires |values| % 16 == 0 && |packed| == |values| / 2 && j < |packed|
    ensures packed[j] == PackedOf(values, divisor)[j]
            <==> Keeps(values, divisor, packed, 2 * j)
                 && Keeps(values, divisor, packed, 2 * j + 1)
  {
    hide Nibble;
  }

  // ---------------------------------------------------------------- the reader

  /** What a nibble behind a scale code stands for: the product of the two signs, and of the two levels, over the
      divisor. */
  ghost predicate StandsFor(v: Signed, nibble: nat, scale: nat, divisor: real)
    requires divisor > 0.0 && nibble < 16 && scale < 256 && scale % 128 < 127
  {
    v.negative == ((nibble >= 8) != (scale >= 128))
    && v.magnitude * divisor == E2M1[nibble % 8] * E4M3Levels()[scale % 128]
  }

  ghost predicate ReadsAs(q: Quantized, divisor: real, columns: int, row: seq<Signed>) {
    && columns > 0 && columns % 16 == 0 && 2 * |q.packed| == columns && 16 * |q.scales| == columns && divisor > 0.0
    && (forall b | 0 <= b < |q.scales| :: q.scales[b] != 0x7F && q.scales[b] != 0xFF)
    && |row| == columns
    && forall i: nat | i < |row| :: StandsFor(row[i], NibbleAt(q.packed, i), q.scales[i / 16], divisor)
  }

  /** Which rows the reader returns: it refuses wrong extents, a divisor that is not positive and the two invalid scale
      codes, and otherwise returns this one row. */
  lemma ReadExactly(q: Quantized, divisor: real, columns: int, row: seq<Signed>)
    ensures RowOf(q, divisor, columns) == Ok(row) <==> ReadsAs(q, divisor, columns, row)
  {
    hide DecodeE4M3Signed, DecodeE2M1, CodeAt, Times, StandsFor, NibbleAt;
    forall b | 0 <= b < |q.scales|
      ensures DecodeE4M3Signed(q.scales[b]).Err? <==> q.scales[b] == 0x7F || q.scales[b] == 0xFF
    {
      DecodersAgree(q.scales[b]);
    }
    if columns > 0 && columns % 16 == 0 && 2 * |q.packed| == columns && 16 * |q.scales| == columns && divisor > 0.0
       && forall b | 0 <= b < |q.scales| :: DecodeE4M3Signed(q.scales[b]).Ok? {
      RowIsRead(q, divisor, columns);
      var read := RowOf(q, divisor, columns).value;
      forall i: nat | i < columns
        ensures |row| == columns ==>
                  (StandsFor(row[i], NibbleAt(q.packed, i), q.scales[i / 16], divisor) <==> row[i] == read[i])
      {
        if |row| == columns { ValueStands(q, divisor, i, row[i]); }
      }
      assert RowOf(q, divisor, columns) == Ok(row) <==> row == read;
      if ReadsAs(q, divisor, columns, row) { assert forall i: nat | i < columns :: row[i] == read[i]; }
    }
  }

  lemma ValueStands(q: Quantized, divisor: real, i: nat, v: Signed)
    requires divisor > 0.0 && i / 2 < |q.packed| && i / 16 < |q.scales| && DecodeE4M3Signed(q.scales[i / 16]).Ok?
    ensures q.scales[i / 16] % 128 < 127 && DecodeE2M1(CodeAt(q.packed, i)).Ok?
    ensures StandsFor(v, NibbleAt(q.packed, i), q.scales[i / 16], divisor)
            <==> v == Times(DecodeE2M1(CodeAt(q.packed, i)).value, DecodeE4M3Signed(q.scales[i / 16]).value, divisor)
  {
    hide DecodeE4M3Signed, DecodeE4M3, Units;
    var scale := q.scales[i / 16];
    DecodersAgree(scale);
    LevelIs(scale % 128);
    assert NibbleAt(q.packed, i) == CodeAt(q.packed, i);
    var product := E2M1[NibbleAt(q.packed, i) % 8] * E4M3Levels()[scale % 128];
    QuotientExactly(v.magnitude, product, divisor);
  }

  lemma QuotientExactly(x: real, product: real, divisor: real)
    requires divisor > 0.0
    ensures x * divisor == product <==> x == product / divisor
  {
    var q := product / divisor;
    assert q * divisor == product;
    if x * divisor == product { assert (x - q) * divisor == 0.0; }
  }
}
