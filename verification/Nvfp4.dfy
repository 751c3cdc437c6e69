/** NVFP4: one E4M3 scale for each block of sixteen values, one E2M1 nibble for each value. The quantizer, the
    row reader, and what the pair preserves, in exact arithmetic. */
module Nvfp4 {
  import opened Basics
  import opened Nearest
  import opened MiniFloat

  function Larger(a: real, b: real): real { if a >= b then a else b }

  /** Largest magnitude of a block. */
  function Amax(block: seq<Number>): (m: real)
    ensures m >= 0.0
    ensures forall i | 0 <= i < |block| :: block[i].magnitude <= m
    ensures block != [] ==> exists i | 0 <= i < |block| :: block[i].magnitude == m
  {
    if block == [] then 0.0 else
      var rest := Amax(block[1..]);
      assert forall i | 1 <= i < |block| :: block[i] == block[1..][i - 1];
      assert rest != 0.0 ==> |block| > 1;
      var m := Larger(block[0].magnitude, rest);
      assert block[0].magnitude < rest ==>
          exists i | 0 <= i < |block| - 1 :: block[1..][i].magnitude == rest && block[i + 1].magnitude == rest;
      m
  }

  /** The scale before rounding. */
  function RawScale(block: seq<Number>, divisor: real): real { Amax(block) * (1.0 / 6.0) * divisor }

  function ScaleCode(block: seq<Number>, divisor: real): (code: nat)
    ensures code <= 0x7E
  {
    EncodeE4M3(RawScale(block, divisor))
  }

  function Normalized(x: Number, divisor: real, scale: real): Signed {
    if scale == 0.0 then Signed(false, 0.0) else Signed(x.negative, x.magnitude * divisor / scale)
  }

  function Block(values: seq<Number>, b: nat): seq<Number>
    requires 16 * b + 16 <= |values|
  {
    values[16 * b..16 * b + 16]
  }

  /** The scale a reader finds for value `i`. */
  function StoredScale(values: seq<Number>, divisor: real, i: nat): real
    requires |values| % 16 == 0 && i < |values|
  {
    DecodeE4M3(ScaleCode(Block(values, i / 16), divisor))
  }

  /** The nibble the quantizer stores for value `i`. */
  function Nibble(values: seq<Number>, divisor: real, i: nat): (code: nat)
    requires |values| % 16 == 0 && i < |values|
    ensures code < 16
  {
    EncodeE2M1(Normalized(values[i], divisor, StoredScale(values, divisor, i)))
  }

  function ScalesOf(values: seq<Number>, divisor: real): (scales: seq<byte>)
    requires |values| % 16 == 0
    ensures |scales| == |values| / 16
  {
    seq(|values| / 16, b requires 0 <= b < |values| / 16 => ScaleCode(Block(values, b), divisor))
  }

  /** Two nibbles a byte, the even value in the low half. */
  function PackedOf(values: seq<Number>, divisor: real): (packed: seq<byte>)
    requires |values| % 16 == 0
    ensures |packed| == |values| / 2
  {
    seq(|values| / 2, j requires 0 <= j < |values| / 2 => PackedByte(values, divisor, j))
  }

  function PackedByte(values: seq<Number>, divisor: real, j: nat): byte
    requires |values| % 16 == 0 && j < |values| / 2
  {
    Nibble(values, divisor, 2 * j) + 16 * Nibble(values, divisor, 2 * j + 1)
  }

  datatype Quantized = Quantized(packed: seq<byte>, scales: seq<byte>)

  function Quantize(values: seq<Number>, divisor: real): Quantized
    requires |values| % 16 == 0
  {
    Quantized(PackedOf(values, divisor), ScalesOf(values, divisor))
  }

  lemma PackedAt(values: seq<Number>, divisor: real, block: nat, local: nat, scale: real)
    requires |values| % 16 == 0 && 16 * block + 16 <= |values| && local % 2 == 0 && local < 16
    requires scale == DecodeE4M3(ScaleCode(Block(values, block), divisor))
    ensures (16 * block + local) / 2 == 8 * block + local / 2
    ensures PackedByte(values, divisor, 8 * block + local / 2)
            == EncodeE2M1(Normalized(values[16 * block + local], divisor, scale))
               + 16 * EncodeE2M1(Normalized(values[16 * block + local + 1], divisor, scale))
  {
    hide EncodeE2M1, Normalized, ScaleCode, DecodeE4M3, Block;
    var i := 16 * block + local;
    assert i / 16 == block && (i + 1) / 16 == block && 2 * (8 * block + local / 2) == i;
  }

  /** The inner loop of the quantizer: the eight packed bytes of one block. */
  method PackBlock(values: seq<Number>, divisor: real, block: nat, decodedScale: real, packed: array<byte>)
    requires |values| % 16 == 0 && packed.Length == |values| / 2 && 16 * block + 16 <= |values|
    requires decodedScale == DecodeE4M3(ScaleCode(Block(values, block), divisor))
    modifies packed
    ensures forall j | 8 * block <= j < 8 * block + 8 :: packed[j] == PackedByte(values, divisor, j)
    ensures forall j | 0 <= j < packed.Length && !(8 * block <= j < 8 * block + 8) :: packed[j] == old(packed[j])
  {
    hide EncodeE2M1, Normalized, ScaleCode, DecodeE4M3, Block, PackedByte;
    var begin := block * 16;
    var local := 0;
    while local < 16
      invariant 0 <= local <= 16 && local % 2 == 0
      invariant forall j | 8 * block <= j < 8 * block + local / 2 :: packed[j] == PackedByte(values, divisor, j)
      invariant forall j | 0 <= j < packed.Length && !(8 * block <= j < 8 * block + 8) :: packed[j] == old(packed[j])
    {
      var low := EncodeE2M1(Normalized(values[begin + local], divisor, decodedScale));
      var high := EncodeE2M1(Normalized(values[begin + local + 1], divisor, decodedScale));
      PackedAt(values, divisor, block, local, decodedScale);
      packed[(begin + local) / 2] := low + 16 * high;
      local := local + 2;
    }
  }

  lemma BlockAt(values: seq<Number>, block: nat, begin: nat)
    requires begin == 16 * block && begin + 16 <= |values|
    ensures values[begin..begin + 16] == Block(values, block)
  {
  }

  /** The quantizer, filling its two byte arrays block by block. */
  method Oracle(values: seq<Number>, divisor: real) returns (r: Result<Quantized>)
    requires divisor > 0.0
    ensures r == if |values| == 0 || |values| % 16 != 0 then Err else Ok(Quantize(values, divisor))
  {
    hide ScaleCode, DecodeE4M3, PackedByte, Block;
    if |values| == 0 || |values| % 16 != 0 { return Err; }
    var packed, scales := new byte[|values| / 2], new byte[|values| / 16];
    var block := 0;
    while block < scales.Length
      invariant 0 <= block <= scales.Length
      invariant forall b | 0 <= b < block :: scales[b] == ScaleCode(Block(values, b), divisor)
      invariant forall j | 0 <= j < 8 * block :: packed[j] == PackedByte(values, divisor, j)
    {
      var begin := block * 16;
      BlockAt(values, block, begin);
      var scaleBits := ScaleCode(values[begin..begin + 16], divisor);
      scales[block] := scaleBits;
      PackBlock(values, divisor, block, DecodeE4M3(scaleBits), packed);
      block := block + 1;
    }
    assert packed[..] == PackedOf(values, divisor);
    assert scales[..] == ScalesOf(values, divisor);
    return Ok(Quantized(packed[..], scales[..]));
  }

  /** The nibble a reader takes for a column. */
  function CodeAt(packed: seq<byte>, column: nat): (code: nat)
    requires column / 2 < |packed|
    ensures code < 16
  {
    if column % 2 == 1 then packed[column / 2] / 16 % 16 else packed[column / 2] % 16
  }

  function Times(a: Signed, b: Signed, divisor: real): Signed
    requires divisor > 0.0
  {
    Signed(a.negative != b.negative, a.magnitude * b.magnitude / divisor)
  }

  /** What the row reader returns: an error for bad geometry, a bad divisor or an invalid scale, else one
      signed value per column. */
  function RowOf(q: Quantized, divisor: real, columns: int): Result<seq<Signed>> {
    if columns <= 0 || columns % 16 != 0 || |q.packed| * 2 != columns || |q.scales| * 16 != columns then Err
    else if divisor <= 0.0 then Err
    else if exists b | 0 <= b < |q.scales| :: DecodeE4M3Signed(q.scales[b]).Err? then Err
    else Ok(seq(columns, c requires 0 <= c < columns =>
      assert DecodeE4M3Signed(q.scales[c / 16]).Ok?;
      Times(DecodeE2M1(CodeAt(q.packed, c)).value, DecodeE4M3Signed(q.scales[c / 16]).value, divisor)))
  }

  method DequantizeRow(q: Quantized, divisor: real, columns: int) returns (r: Result<seq<Signed>>)
    ensures r == RowOf(q, divisor, columns)
  {
    hide DecodeE4M3Signed;
    if columns <= 0 || columns % 16 != 0 || |q.packed| * 2 != columns || |q.scales| * 16 != columns { return Err; }
    if divisor <= 0.0 { return Err; }
    var result: seq<Signed>, column := [], 0;
    while column < columns
      invariant 0 <= column <= columns && |result| == column
      invariant forall b | 0 <= b < (column + 15) / 16 :: DecodeE4M3Signed(q.scales[b]).Ok?
      invariant forall c | 0 <= c < column ::
                  DecodeE4M3Signed(q.scales[c / 16]).Ok?
                  && result[c] == Times(DecodeE2M1(CodeAt(q.packed, c)).value,
                                        DecodeE4M3Signed(q.scales[c / 16]).value, divisor)
    {
      var scale := DecodeE4M3Signed(q.scales[column / 16]);
      if scale.Err? { return Err; }
      result := result + [Times(DecodeE2M1(CodeAt(q.packed, column)).value, scale.value, divisor)];
      column := column + 1;
    }
    assert result == RowOf(q, divisor, columns).value;
    return Ok(result);
  }

  // ---------------------------------------------------------------- what the pair preserves

  lemma StoredScales(values: seq<Number>, divisor: real)
    requires |values| % 16 == 0
    ensures var scales := ScalesOf(values, divisor);
            forall b | 0 <= b < |scales| ::
              DecodeE4M3Signed(scales[b]) == Ok(Signed(false, DecodeE4M3(ScaleCode(Block(values, b), divisor))))
  {
    hide DecodeE4M3Signed, EncodeE4M3, DecodeE4M3, Amax;
    var scales := ScalesOf(values, divisor);
    forall b | 0 <= b < |scales|
      ensures DecodeE4M3Signed(scales[b]) == Ok(Signed(false, DecodeE4M3(ScaleCode(Block(values, b), divisor))))
    {
      DecodersAgree(scales[b]);
    }
  }

  lemma StoredCode(values: seq<Number>, divisor: real, i: nat)
    requires |values| % 16 == 0 && i < |values|
    ensures CodeAt(PackedOf(values, divisor), i) == Nibble(values, divisor, i)
  {
    hide EncodeE2M1, ScaleCode, DecodeE4M3, Nibble;
    var j := i / 2;
    var low, high := Nibble(values, divisor, 2 * j), Nibble(values, divisor, 2 * j + 1);
    assert PackedOf(values, divisor)[j] == PackedByte(values, divisor, j) == low + 16 * high;
    assert (low + 16 * high) % 16 == low && (low + 16 * high) / 16 % 16 == high;
  }

  lemma RowIsRead(q: Quantized, divisor: real, columns: nat)
    requires columns > 0 && columns % 16 == 0 && |q.packed| * 2 == columns && |q.scales| * 16 == columns
    requires divisor > 0.0 && forall b | 0 <= b < |q.scales| :: DecodeE4M3Signed(q.scales[b]).Ok?
    ensures RowOf(q, divisor, columns).Ok? && |RowOf(q, divisor, columns).value| == columns
    ensures forall c | 0 <= c < columns ::
              RowOf(q, divisor, columns).value[c]
              == Times(DecodeE2M1(CodeAt(q.packed, c)).value, DecodeE4M3Signed(q.scales[c / 16]).value, divisor)
  {
    hide DecodeE4M3Signed, DecodeE2M1, CodeAt, Times;
  }

  /** The value a stored code stands for in its block. */
  function BackValue(values: seq<Number>, divisor: real, i: nat): Signed
    requires |values| % 16 == 0 && i < |values| && divisor > 0.0
  {
    Back(Nibble(values, divisor, i), StoredScale(values, divisor, i), divisor)
  }

  function Back(code: nat, scale: real, divisor: real): Signed
    requires divisor > 0.0
  {
    Signed(code >= 8, E2M1[code % 8] * scale / divisor)
  }

  /** Reading a quantized row under the same divisor: no error, every stored code comes back, and each value
      is its code's level times its block's scale over the divisor. */
  lemma ReadBack(values: seq<Number>, divisor: real)
    requires |values| > 0 && |values| % 16 == 0 && divisor > 0.0
    ensures var q := Quantize(values, divisor);
            var row := RowOf(q, divisor, |values|);
            row.Ok? && |row.value| == |values|
            && forall i | 0 <= i < |values| ::
                 CodeAt(q.packed, i) == Nibble(values, divisor, i) && row.value[i] == BackValue(values, divisor, i)
  {
    hide DecodeE4M3Signed, ScaleCode, DecodeE4M3, Nibble, PackedOf, CodeAt, RowOf, DecodeE2M1, Times, Back;
    var q := Quantize(values, divisor);
    StoredScales(values, divisor);
    RowIsRead(q, divisor, |values|);
    forall i | 0 <= i < |values|
      ensures CodeAt(q.packed, i) == Nibble(values, divisor, i)
      ensures RowOf(q, divisor, |values|).value[i] == BackValue(values, divisor, i)
    {
      StoredCode(values, divisor, i);
      TimesIsBack(Nibble(values, divisor, i), StoredScale(values, divisor, i), divisor);
    }
  }

  lemma TimesIsBack(code: nat, scale: real, divisor: real)
    requires code < 16 && divisor > 0.0
    ensures DecodeE2M1(code).Ok?
    ensures Times(DecodeE2M1(code).value, Signed(false, scale), divisor) == Back(code, scale, divisor)
  {
  }

  lemma ScaledError(x: real, back: real, n: real, divisor: real, scale: real, level: real)
    requires divisor > 0.0 && scale > 0.0
    requires back == level * scale / divisor && n == x * divisor / scale
    ensures Abs(x - back) * divisor == Abs(n - level) * scale
  {
    assert n * scale == x * divisor;
    assert back * divisor == level * scale;
    assert (x - back) * divisor == (n - level) * scale;
    AbsScales(x - back, divisor);
    AbsScales(n - level, scale);
  }

  lemma AbsScales(x: real, c: real)
    requires c > 0.0
    ensures Abs(x) * c == Abs(x * c)
  {
    if x < 0.0 { assert x * c < 0.0; } else { assert x * c >= 0.0; }
  }

  /** The error of one value, for every block and divisor: never more than the stored scale, except where the
      raw scale exceeds the stored one and the value overshoots the table. */
  lemma ErrorInScales(values: seq<Number>, divisor: real, i: nat)
    requires |values| % 16 == 0 && i < |values| && divisor > 0.0
    ensures var raw := RawScale(Block(values, i / 16), divisor);
            var scale := DecodeE4M3(ScaleCode(Block(values, i / 16), divisor));
            scale >= 0.0
            && Abs(values[i].Value() - BackValue(values, divisor, i).Value()) * divisor
               <= Larger(scale, 6.0 * (raw - scale))
  {
    hide EncodeE4M3, EncodeE2M1, DecodeE4M3, Amax, RawScale, ScaleCode, Normalized, Back, Larger, Abs, Block;
    ScaleNonNegative(Block(values, i / 16), divisor);
    ScaledMagnitude(values, divisor, i);
    ErrorOfValue(values[i], divisor, RawScale(Block(values, i / 16), divisor),
                 DecodeE4M3(ScaleCode(Block(values, i / 16), divisor)));
  }

  lemma ScaledMagnitude(values: seq<Number>, divisor: real, i: nat)
    requires |values| % 16 == 0 && i < |values| && divisor > 0.0
    ensures values[i].magnitude * divisor <= 6.0 * RawScale(Block(values, i / 16), divisor)
  {
    hide RawScale, Amax;
    var block := Block(values, i / 16);
    assert values[i] == block[i % 16];
    AmaxInScales(block, divisor, values[i].magnitude);
  }

  lemma ScaleNonNegative(block: seq<Number>, divisor: real)
    ensures DecodeE4M3(ScaleCode(block, divisor)) >= 0.0
  {
    hide EncodeE4M3, DecodeE4M3;
    DecodeIsUnits(ScaleCode(block, divisor));
  }

  /** One value against a stored scale. */
  lemma ErrorOfValue(x: Number, divisor: real, raw: real, scale: real)
    requires divisor > 0.0 && scale >= 0.0 && x.magnitude * divisor <= 6.0 * raw
    ensures var back := Back(EncodeE2M1(Normalized(x, divisor, scale)), scale, divisor);
            Abs(x.Value() - back.Value()) * divisor <= Larger(scale, 6.0 * (raw - scale))
  {
    hide EncodeE2M1, Abs, Larger;
    var code := EncodeE2M1(Normalized(x, divisor, scale));
    var level := E2M1[code % 8];
    var back := Back(code, scale, divisor);
    if scale == 0.0 {
      EncodeOfZero();
      ErrorOfZeroScale(x, divisor, raw, back);
    } else {
      var n := Normalized(x, divisor, scale);
      NormalizedNonNegative(x, divisor, scale);
      EncodeErrorE2M1(n);
      ScaledError(x.magnitude, back.magnitude, n.magnitude, divisor, scale, level);
      BoundByOvershoot(Abs(n.magnitude - level), n.magnitude, scale, x.magnitude * divisor, raw);
      SameSign(x, back);
    }
  }

  lemma SameSign(x: Signed, y: Signed)
    requires x.negative == y.negative
    ensures Abs(x.Value() - y.Value()) == Abs(x.magnitude - y.magnitude)
  {
  }

  lemma ErrorOfZeroScale(x: Number, divisor: real, raw: real, back: Signed)
    requires divisor > 0.0 && x.magnitude * divisor <= 6.0 * raw
    requires back.magnitude == 0.0
    ensures Abs(x.Value() - back.Value()) * divisor <= Larger(0.0, 6.0 * (raw - 0.0))
  {
    assert Abs(x.Value() - back.Value()) == x.magnitude;
  }

  lemma EncodeOfZero()
    ensures EncodeE2M1(Signed(false, 0.0)) == 0
  {
    EncodeDecodeE2M1(0);
  }

  lemma NormalizedNonNegative(x: Number, divisor: real, scale: real)
    requires divisor > 0.0 && scale > 0.0
    ensures x.magnitude * divisor / scale >= 0.0
    ensures x.magnitude * divisor / scale * scale == x.magnitude * divisor
  {
    assert x.magnitude * divisor >= 0.0;
  }

  lemma AmaxInScales(block: seq<Number>, divisor: real, magnitude: real)
    requires divisor > 0.0 && 0.0 <= magnitude <= Amax(block)
    ensures 0.0 <= magnitude * divisor <= 6.0 * RawScale(block, divisor) == Amax(block) * divisor
  {
    hide Amax;
    var a := Amax(block);
    var sixth := a * (1.0 / 6.0);
    assert 6.0 * (sixth * divisor) == (6.0 * sixth) * divisor == a * divisor;
    MulLessEqual(0.0, magnitude, divisor);
    MulLessEqual(magnitude, a, divisor);
  }

  lemma BoundByOvershoot(error: real, n: real, scale: real, scaled: real, raw: real)
    requires scale > 0.0 && n * scale == scaled <= 6.0 * raw && (error <= 1.0 || error <= n - 6.0)
    ensures error * scale <= Larger(scale, 6.0 * (raw - scale))
  {
    if error <= 1.0 {
      MulLessEqual(error, 1.0, scale);
    } else {
      MulLessEqual(error, n - 6.0, scale);
      assert (n - 6.0) * scale == scaled - 6.0 * scale;
    }
  }

  lemma MulLessEqual(a: real, b: real, c: real)
    requires a <= b && c >= 0.0
    ensures a * c <= b * c
  {
    assert (b - a) * c >= 0.0;
  }

  /** The error bound of the format: 17/96 of the block's largest magnitude while its raw scale is a normal
      E4M3 number; 2^-6 over the divisor below that; and above saturation nothing worse than the overshoot. */
  lemma ErrorBound(values: seq<Number>, divisor: real, i: nat)
    requires |values| % 16 == 0 && i < |values| && divisor > 0.0
    ensures var amax := Amax(Block(values, i / 16));
            var raw := RawScale(Block(values, i / 16), divisor);
            var row := RowOf(Quantize(values, divisor), divisor, |values|);
            row.Ok? && |row.value| == |values|
            && var error := Abs(values[i].Value() - row.value[i].Value());
               && (1.0 / 64.0 <= raw <= 448.0 ==> error <= 17.0 / 96.0 * amax)
               && (raw < 1.0 / 64.0 ==> error * divisor <= 1.0 / 64.0)
               && (raw > 448.0 ==> error * divisor <= Larger(448.0, 6.0 * (raw - 448.0)))
  {
    hide EncodeE2M1, EncodeE4M3, DecodeE4M3, Amax, RowOf, Quantize, BackValue, RawScale;
    ReadBack(values, divisor);
    ErrorInScales(values, divisor, i);
    var block := Block(values, i / 16);
    var raw := RawScale(block, divisor);
    var error := Abs(values[i].Value() - BackValue(values, divisor, i).Value());
    ScaledBound(error, divisor, block, raw, DecodeE4M3(EncodeE4M3(raw)));
  }

  lemma ScaledBound(error: real, divisor: real, block: seq<Number>, raw: real, scale: real)
    requires divisor > 0.0 && raw == RawScale(block, divisor) && scale == DecodeE4M3(EncodeE4M3(raw))
    requires scale >= 0.0 && error * divisor <= Larger(scale, 6.0 * (raw - scale))
    ensures 1.0 / 64.0 <= raw <= 448.0 ==> error <= 17.0 / 96.0 * Amax(block)
    ensures raw < 1.0 / 64.0 ==> error * divisor <= 1.0 / 64.0
    ensures raw > 448.0 ==> error * divisor <= Larger(448.0, 6.0 * (raw - 448.0))
  {
    hide EncodeE4M3, DecodeE4M3, Amax, RawScale;
    AmaxInScales(block, divisor, 0.0);
    if raw > 448.0 {
      Saturated(raw);
    } else {
      EncodeErrorE4M3(raw);
      if raw >= 1.0 / 64.0 {
        assert error * divisor <= 17.0 / 16.0 * raw;
        DivideBound(error, Amax(block), divisor);
      } else {
        BelowNormal(raw);
      }
    }
  }

  lemma Saturated(raw: real)
    requires raw >= 448.0
    ensures DecodeE4M3(EncodeE4M3(raw)) == 448.0
  {
    TopLevel();
  }

  lemma BelowNormal(raw: real)
    requires 0.0 <= raw < 1.0 / 64.0
    ensures DecodeE4M3(EncodeE4M3(raw)) <= 1.0 / 64.0
  {
    hide EncodeE4M3, DecodeE4M3;
    EncodeMonotoneE4M3(raw, 1.0 / 64.0);
    DecodeIsUnits(8);
    EncodeDecodeE4M3(8);
    DecodeIsUnits(EncodeE4M3(raw));
    UnitsBelowEight(7);
    if EncodeE4M3(raw) < 8 { UnitsIncrease(EncodeE4M3(raw), 8); }
  }

  lemma DivideBound(error: real, amax: real, divisor: real)
    requires divisor > 0.0 && error * divisor <= 17.0 / 16.0 * (amax * divisor / 6.0)
    ensures error <= 17.0 / 96.0 * amax
  {
    var bound := 17.0 / 96.0 * amax;
    assert bound * divisor == 17.0 / 16.0 * (amax * divisor / 6.0);
    assert (bound - error) * divisor >= 0.0;
    if bound < error { MulStrict(bound, error, divisor); }
  }

  lemma MulStrict(a: real, b: real, c: real)
    requires a < b && c > 0.0
    ensures a * c < b * c
  {
    assert (b - a) * c > 0.0;
  }
}
