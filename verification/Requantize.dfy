/** Quantizing a row, reading it back and quantizing it again: when the stored bytes stay the same. */
module Requantize {
  import opened Nearest
  import opened MiniFloat
  import opened Nvfp4

  /** The raw scales that move when a block is quantized again, in units of 2^-9 between 1/2 and 7/12, or from 3/2
      to 5/3: there the largest value gets level 3 or 4, and the scale of what is read back rounds down. */
  predicate Moves(raw: real) {
    var u := 512.0 * raw;
    0.5 < u < 7.0 / 12.0 || 1.5 <= u <= 5.0 / 3.0
  }

  // ---------------------------------------------------------------- one scale

  lemma UnitsOf(code: nat)
    requires code <= 0x7E
    ensures DecodeE4M3(code) == Units(code) as real / 512.0
    ensures code <= 8 ==> Units(code) == code
    ensures code > 8 ==> Units(code) > 8
  {
    hide DecodeE4M3, Units;
    DecodeIsUnits(code);
    if code < 8 { UnitsBelowEight(code); } else {
      UnitsBelowEight(7);
      if code > 8 { UnitsIncrease(8, code); }
    }
  }

  /** The codes of small scales; a tie goes to the even one. */
  lemma SmallCodes(raw: real)
    requires 0.0 <= raw <= 448.0
    ensures var u, code := 512.0 * raw, EncodeE4M3(raw);
            && (code == 0 <==> u <= 0.5)
            && (code == 1 <==> 0.5 < u < 1.5)
            && (code == 2 <==> 1.5 <= u <= 2.5)
  {
    hide EncodeE4M3, DecodeE4M3, Units;
    var code := EncodeE4M3(raw);
    UnitsOf(code);
    UnitsOf(0);
    UnitsOf(1);
    UnitsOf(2);
    UnitsOf(3);
    EncodeIsClosest(raw, 0);
    EncodeIsClosest(raw, 1);
    EncodeIsClosest(raw, 2);
    EncodeIsClosest(raw, 3);
  }

  /** The level of the largest value of a block with this raw scale. */
  function TopCode(raw: real): (code: nat)
    ensures code < 8
  {
    var scale := DecodeE4M3(EncodeE4M3(raw));
    if scale == 0.0 then 0 else NearestCode(E2M1, Abs(6.0 * raw / scale))
  }

  lemma LevelOf(n: real)
    ensures n > 5.0 ==> NearestCode(E2M1, n) == 7
    ensures 3.5 <= n <= 5.0 ==> NearestCode(E2M1, n) == 6
    ensures 3.0 < n < 3.5 ==> NearestCode(E2M1, n) == 5
  {
    hide NearestCode, StrictlyIncreasing;
    LevelsIncrease();
    NearestIsTheNearest(E2M1, n);
    if n > 5.0 {
      assert IsNearest(E2M1, n, 7);
    } else if 3.5 <= n {
      assert IsNearest(E2M1, n, 6);
    } else if 3.0 < n {
      assert IsNearest(E2M1, n, 5);
    }
  }

  /** From code 3 on the largest value is above 5 in scales. */
  lemma LargeScales(raw: real)
    requires 512.0 * raw > 2.5
    ensures EncodeE4M3(raw) >= 3 && DecodeE4M3(EncodeE4M3(raw)) > 0.0
    ensures 6.0 * raw > 5.0 * DecodeE4M3(EncodeE4M3(raw))
  {
    hide EncodeE4M3, DecodeE4M3, Units;
    UnitsOf(EncodeE4M3(raw));
    if raw > 448.0 {
      Saturated(raw);
      UnitsOf(EncodeE4M3(raw));
      assert EncodeE4M3(raw) >= 3;
    } else {
      SmallCodes(raw);
      EncodeErrorE4M3(raw);
    }
  }

  /** The raw scale of what is read back. */
  function AgainRaw(raw: real): real { E2M1[TopCode(raw)] * DecodeE4M3(EncodeE4M3(raw)) / 6.0 }

  /** A block's scale survives exactly outside the moving intervals. */
  lemma ScaleSurvives(raw: real)
    requires raw >= 0.0
    ensures EncodeE4M3(AgainRaw(raw)) == EncodeE4M3(raw) <==> !Moves(raw)
  {
    hide EncodeE4M3, DecodeE4M3, NearestCode, Units;
    var code := EncodeE4M3(raw);
    var scale, u := DecodeE4M3(code), 512.0 * raw;
    UnitsOf(code);
    if u > 2.5 {
      LargeScales(raw);
      QuotientAbove(6.0 * raw, scale, 5.0);
      LevelOf(6.0 * raw / scale);
      EncodeDecodeE4M3(code);
    } else {
      SmallCodes(raw);
      if code == 0 {
        EncodeDecodeE4M3(0);
      } else {
        var n := 6.0 * raw / scale;
        assert n == 6.0 * u / code as real by { RatioInUnits(raw, code as real, scale); }
        LevelOf(n);
        SmallCodes(AgainRaw(raw));
      }
    }
  }

  lemma RatioInUnits(raw: real, units: real, scale: real)
    requires units > 0.0 && scale == units / 512.0
    ensures 6.0 * raw / scale == 6.0 * (512.0 * raw) / units
  {
    var n := 6.0 * raw / scale;
    assert n * scale == 6.0 * raw;
    assert n * units == n * scale * 512.0;
  }

  lemma QuotientAbove(a: real, b: real, c: real)
    requires b > 0.0 && a > c * b
    ensures a / b > c
  {
    var q := a / b;
    assert q * b == a;
    if q <= c { MulLessEqual(q, c, b); }
  }

  // ---------------------------------------------------------------- one block

  /** The row a reader gets back, as a function of the quantizer's input. */
  function BackRow(values: seq<Number>, divisor: real): (row: seq<Number>)
    requires |values| % 16 == 0 && divisor > 0.0
    ensures |row| == |values|
  {
    seq(|values|, i requires 0 <= i < |values| => BackNumber(values, divisor, i))
  }

  function BackNumber(values: seq<Number>, divisor: real, i: nat): Number
    requires |values| % 16 == 0 && i < |values| && divisor > 0.0
  {
    ScaleNonNegative(Block(values, i / 16), divisor);
    LevelBelow(Nibble(values, divisor, i), 7, StoredScale(values, divisor, i), divisor);
    BackValue(values, divisor, i)
  }

  lemma LevelBelow(code: nat, top: nat, scale: real, divisor: real)
    requires divisor > 0.0 && scale >= 0.0 && code % 8 <= top < 8
    ensures 0.0 <= Back(code, scale, divisor).magnitude <= E2M1[top] * scale / divisor
    ensures code % 8 == top ==> Back(code, scale, divisor).magnitude == E2M1[top] * scale / divisor
  {
    var level := E2M1[code % 8];
    assert 0.0 <= level <= E2M1[top];
    MulLessEqual(level, E2M1[top], scale);
    assert 0.0 <= level * scale;
    DivLessEqual(level * scale, E2M1[top] * scale, divisor);
  }

  lemma DivLessEqual(a: real, b: real, c: real)
    requires 0.0 <= a <= b && c > 0.0
    ensures 0.0 <= a / c <= b / c
  {
    var p, q := a / c, b / c;
    assert p * c == a && q * c == b;
    if p > q { MulStrict(q, p, c); }
    if p < 0.0 { MulStrict(p, 0.0, c); }
  }

  lemma AmaxIs(block: seq<Number>, m: real, k: nat)
    requires k < |block| && block[k].magnitude == m
    requires forall i | 0 <= i < |block| :: block[i].magnitude <= m
    ensures Amax(block) == m
  {
  }

  /** No value of a block gets a higher level than its largest one, which gets the top code. */
  lemma TopOfBlock(values: seq<Number>, divisor: real, i: nat)
    requires |values| % 16 == 0 && i < |values| && divisor > 0.0
    ensures var block := Block(values, i / 16);
            Nibble(values, divisor, i) % 8 <= TopCode(RawScale(block, divisor))
            && (values[i].magnitude == Amax(block) ==>
                  Nibble(values, divisor, i) % 8 == TopCode(RawScale(block, divisor)))
  {
    hide EncodeE4M3, DecodeE4M3, Amax, RawScale, NearestCode, StrictlyIncreasing, Block;
    var block := Block(values, i / 16);
    var raw, scale := RawScale(block, divisor), StoredScale(values, divisor, i);
    NibbleOfZeroScale(values, divisor, i);
    ScaleNonNegative(block, divisor);
    if scale > 0.0 {
      InBlock(values, i);
      AmaxInScales(block, divisor, values[i].magnitude);
      var scaled := values[i].magnitude * divisor;
      RatioOrder(scaled, 6.0 * raw, scale);
      LevelsIncrease();
      NearestMonotone(E2M1, scaled / scale, 6.0 * raw / scale);
      assert Nibble(values, divisor, i) % 8 == NearestCode(E2M1, scaled / scale);
      assert TopCode(raw) == NearestCode(E2M1, 6.0 * raw / scale);
      assert values[i].magnitude == Amax(block) ==> scaled == 6.0 * raw;
    }
  }

  lemma RatioOrder(a: real, b: real, c: real)
    requires 0.0 <= a <= b && c > 0.0
    ensures 0.0 <= a / c <= b / c && Abs(a / c) == a / c && Abs(b / c) == b / c
  {
    DivLessEqual(a, b, c);
  }

  lemma InBlock(values: seq<Number>, i: nat)
    requires |values| % 16 == 0 && i < |values|
    ensures values[i] == Block(values, i / 16)[i % 16] && values[i].magnitude <= Amax(Block(values, i / 16))
  {
    hide Amax;
    assert values[i] == Block(values, i / 16)[i % 16];
  }

  lemma NibbleOfZeroScale(values: seq<Number>, divisor: real, i: nat)
    requires |values| % 16 == 0 && i < |values|
    ensures StoredScale(values, divisor, i) == 0.0 ==> Nibble(values, divisor, i) == 0
  {
    hide EncodeE2M1, StoredScale;
    EncodeOfZero();
  }

  lemma BackOfBlock(values: seq<Number>, divisor: real, b: nat, i: nat)
    requires |values| % 16 == 0 && 16 * b + 16 <= |values| && divisor > 0.0 && i < 16
    ensures var block, back := Block(values, b), Block(BackRow(values, divisor), b);
            var raw := RawScale(block, divisor);
            var m := E2M1[TopCode(raw)] * DecodeE4M3(EncodeE4M3(raw)) / divisor;
            back[i].magnitude <= m && (block[i].magnitude == Amax(block) ==> back[i].magnitude == m)
  {
    hide EncodeE4M3, DecodeE4M3, Amax, RawScale, Nibble, Back, TopCode;
    var j := 16 * b + i;
    assert j / 16 == b;
    assert Block(BackRow(values, divisor), b)[i] == BackNumber(values, divisor, j) && Block(values, b)[i] == values[j];
    ScaleNonNegative(Block(values, b), divisor);
    TopOfBlock(values, divisor, j);
    LevelBelow(Nibble(values, divisor, j), TopCode(RawScale(Block(values, b), divisor)),
               StoredScale(values, divisor, j), divisor);
  }

  /** What the second quantization sees: the raw scale of a block that was read back. */
  lemma BackRaw(values: seq<Number>, divisor: real, b: nat)
    requires |values| % 16 == 0 && 16 * b + 16 <= |values| && divisor > 0.0
    ensures RawScale(Block(BackRow(values, divisor), b), divisor) == AgainRaw(RawScale(Block(values, b), divisor))
  {
    hide EncodeE4M3, DecodeE4M3, Amax, RawScale, TopCode, BackRow;
    var block, back := Block(values, b), Block(BackRow(values, divisor), b);
    var raw := RawScale(block, divisor);
    var scaled := E2M1[TopCode(raw)] * DecodeE4M3(EncodeE4M3(raw));
    forall i | 0 <= i < 16
      ensures back[i].magnitude <= scaled / divisor
      ensures block[i].magnitude == Amax(block) ==> back[i].magnitude == scaled / divisor
    {
      BackOfBlock(values, divisor, b, i);
    }
    var k :| 0 <= k < 16 && block[k].magnitude == Amax(block);
    AmaxIs(back, scaled / divisor, k);
    RawOfTop(back, scaled, divisor);
  }

  lemma RawOfTop(back: seq<Number>, scaled: real, divisor: real)
    requires divisor > 0.0 && Amax(back) == scaled / divisor
    ensures RawScale(back, divisor) == scaled / 6.0
  {
    hide Amax;
    assert Amax(back) * divisor == scaled;
    assert Amax(back) * (1.0 / 6.0) * divisor == Amax(back) * divisor / 6.0;
  }

  lemma ScaleCodeSurvives(values: seq<Number>, divisor: real, b: nat)
    requires |values| % 16 == 0 && 16 * b + 16 <= |values| && divisor > 0.0
    ensures ScaleCode(Block(BackRow(values, divisor), b), divisor) == ScaleCode(Block(values, b), divisor)
            <==> !Moves(RawScale(Block(values, b), divisor))
  {
    hide EncodeE4M3, RawScale, AgainRaw, Block, BackRow;
    BackRaw(values, divisor, b);
    RawNonNegative(Block(values, b), divisor);
    ScaleSurvives(RawScale(Block(values, b), divisor));
  }

  lemma RawNonNegative(block: seq<Number>, divisor: real)
    requires divisor > 0.0
    ensures RawScale(block, divisor) >= 0.0
  {
    hide RawScale, Amax;
    AmaxInScales(block, divisor, 0.0);
  }

  // ---------------------------------------------------------------- a row

  lemma NormalizedBack(code: nat, scale: real, divisor: real)
    requires code < 16 && divisor > 0.0 && scale >= 0.0 && (scale == 0.0 ==> code == 0)
    ensures Back(code, scale, divisor).magnitude >= 0.0
    ensures EncodeE2M1(Normalized(Back(code, scale, divisor), divisor, scale)) == code
  {
    hide EncodeE2M1;
    LevelBelow(code, 7, scale, divisor);
    EncodeDecodeE2M1(code);
    if scale != 0.0 {
      var level := E2M1[code % 8];
      CancelScale(level, scale, divisor);
      assert Normalized(Back(code, scale, divisor), divisor, scale) == DecodeE2M1(code).value;
    } else {
      EncodeOfZero();
    }
  }

  lemma CancelScale(level: real, scale: real, divisor: real)
    requires scale > 0.0 && divisor > 0.0
    ensures level * scale / divisor * divisor / scale == level
  {
    assert level * scale / divisor * divisor == level * scale;
  }

  /** Under an unchanged scale every nibble comes back, sign included. */
  lemma NibbleSurvives(values: seq<Number>, divisor: real, i: nat)
    requires |values| % 16 == 0 && i < |values| && divisor > 0.0
    requires !Moves(RawScale(Block(values, i / 16), divisor))
    ensures Nibble(BackRow(values, divisor), divisor, i) == Nibble(values, divisor, i)
  {
    hide EncodeE2M1, EncodeE4M3, DecodeE4M3, ScaleCode, RawScale, Back, Normalized, Moves, Block;
    ScaleCodeSurvives(values, divisor, i / 16);
    var scale := StoredScale(values, divisor, i);
    ScaleNonNegative(Block(values, i / 16), divisor);
    NibbleOfZeroScale(values, divisor, i);
    NormalizedBack(Nibble(values, divisor, i), scale, divisor);
    assert BackRow(values, divisor)[i] == BackNumber(values, divisor, i);
  }

  /** Quantizing what the reader got back stores the same bytes again if and only if no block's raw scale is in a
      moving interval. */
  lemma RequantizeExactly(values: seq<Number>, divisor: real)
    requires |values| % 16 == 0 && divisor > 0.0
    ensures Quantize(BackRow(values, divisor), divisor) == Quantize(values, divisor)
            <==> forall b: nat | 16 * b + 16 <= |values| :: !Moves(RawScale(Block(values, b), divisor))
  {
    hide RawScale, Moves, ScaleCode, Nibble, Block, BackRow;
    var back := BackRow(values, divisor);
    if forall b: nat | 16 * b + 16 <= |values| :: !Moves(RawScale(Block(values, b), divisor)) {
      forall i | 0 <= i < |values| ensures Nibble(back, divisor, i) == Nibble(values, divisor, i) {
        assert 16 * (i / 16) + 16 <= |values|;
        NibbleSurvives(values, divisor, i);
      }
      forall b | 0 <= b < |values| / 16
        ensures ScaleCode(Block(back, b), divisor) == ScaleCode(Block(values, b), divisor)
      {
        assert 16 * b + 16 <= |values|;
        ScaleCodeSurvives(values, divisor, b);
      }
      assert PackedOf(back, divisor) == PackedOf(values, divisor);
      assert ScalesOf(back, divisor) == ScalesOf(values, divisor);
    } else {
      var b: nat :| 16 * b + 16 <= |values| && Moves(RawScale(Block(values, b), divisor));
      ScaleCodeSurvives(values, divisor, b);
      assert ScalesOf(back, divisor)[b] == ScaleCode(Block(back, b), divisor);
      assert ScalesOf(values, divisor)[b] == ScaleCode(Block(values, b), divisor);
    }
  }

  /** One value of 13/2048 among zeros has a raw scale of 13/24 units: its bytes move. */
  lemma SomeBlockMoves()
    ensures exists values: seq<Number> ::
              |values| == 16 && Quantize(BackRow(values, 1.0), 1.0) != Quantize(values, 1.0)
  {
    hide BackRow, Quantize, Amax;
    var x: Number, zero: Number := Signed(false, 13.0 / 2048.0), Signed(false, 0.0);
    var values: seq<Number> := seq(16, i requires 0 <= i < 16 => if i == 0 then x else zero);
    assert Block(values, 0) == values;
    AmaxIs(values, 13.0 / 2048.0, 0);
    assert Moves(RawScale(Block(values, 0), 1.0));
    RequantizeExactly(values, 1.0);
  }
}
