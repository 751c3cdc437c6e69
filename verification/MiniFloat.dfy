/** E4M3FN and E2M1, sections 5.3.1 and 5.3.3 of the OCP Microscaling Formats (MX) Specification v1.0:
    the two decoders of the tools, and the encoders. Values are exact reals. */
module MiniFloat {
  import opened Basics
  import opened Arithmetic
  import opened Nearest

  /** A float value with its sign bit, so that a negative zero keeps its sign. */
  datatype Signed = Signed(negative: bool, magnitude: real) {
    function Value(): real { if negative then -magnitude else magnitude }
  }

  type Number = s: Signed | s.magnitude >= 0.0 witness Signed(false, 0.0)

  function Ldexp(x: real, e: int): real
    decreases if e < 0 then -e else e
  {
    if e == 0 then x else if e > 0 then 2.0 * Ldexp(x, e - 1) else Ldexp(x, e + 1) / 2.0
  }

  function Exponent(bits: nat): nat { bits / 8 % 16 }

  function Mantissa(bits: nat): nat { bits % 8 }

  /** The decoder of the quantizer: magnitudes only. */
  function DecodeE4M3(bits: nat): real {
    if Exponent(bits) == 0 then Ldexp(Mantissa(bits) as real, -9)
    else Ldexp(1.0 + Mantissa(bits) as real / 8.0, Exponent(bits) - 7)
  }

  /** The decoder of the reader: all 256 codes, two of them invalid. */
  function DecodeE4M3Signed(code: nat): Result<Signed> {
    if code > 255 || code % 128 == 0x7F then Err else
      var magnitude := code % 128;
      Ok(Signed(code >= 128,
                if Exponent(magnitude) == 0 then Mantissa(magnitude) as real / 512.0
                else (1.0 + Mantissa(magnitude) as real / 8.0) * Ldexp(1.0, Exponent(magnitude) - 7)))
  }

  const E2M1: seq<real> := [0.0, 0.5, 1.0, 1.5, 2.0, 3.0, 4.0, 6.0]

  function DecodeE2M1(code: nat): Result<Signed> {
    if code > 15 then Err else Ok(Signed(code >= 8, E2M1[code % 8]))
  }

  /** The level of a code in units of 2^-9. */
  function Units(code: nat): nat {
    if code < 8 then code else (8 + code % 8) * Pow2(code / 8 - 1)
  }

  lemma {:induction false} LdexpScales(x: real, y: real, e: int)
    ensures Ldexp(x * y, e) == x * Ldexp(y, e)
    decreases if e < 0 then -e else e
  {
    if e > 0 { LdexpScales(x, y, e - 1); }
    else if e < 0 { LdexpScales(x, y, e + 1); }
  }

  lemma {:induction false} LdexpOne(k: nat)
    ensures Ldexp(1.0, k - 9) == Pow2(k) as real / 512.0
  {
    if k == 0 {
      assert Ldexp(1.0, -9) == 1.0 / 512.0 by {
        assert Ldexp(1.0, -3) == 1.0 / 8.0;
        assert Ldexp(1.0, -6) == 1.0 / 64.0;
      }
    } else {
      LdexpOne(k - 1);
      assert Ldexp(1.0, k - 9) == 2.0 * Ldexp(1.0, k - 10);
    }
  }

  /** Every code of the table decodes to its units. */
  lemma DecodeIsUnits(code: nat)
    requires code < 128
    ensures DecodeE4M3(code) == Units(code) as real / 512.0
  {
    hide Ldexp, Pow2;
    var m := Mantissa(code) as real;
    if code < 8 {
      LdexpScales(m, 1.0, -9);
      LdexpOne(0);
      Pow2Eight(0);
      assert m * 1.0 == m;
    } else {
      var k := code / 8 - 1;
      LdexpScales(1.0 + m / 8.0, 1.0, Exponent(code) - 7);
      LdexpOne(k + 3);
      assert Exponent(code) - 7 == (k + 3) - 9;
      Pow2Eight(k);
      ScaleEighths(m, Pow2(k) as real);
      assert Units(code) as real == (8.0 + m) * Pow2(k) as real;
    }
  }

  lemma Pow2Eight(k: nat)
    ensures Pow2(k + 3) == 8 * Pow2(k) && Pow2(0) == 1
  {
    assert Pow2(k + 3) == 2 * Pow2(k + 2) == 4 * Pow2(k + 1);
  }

  lemma ScaleEighths(m: real, p: real)
    ensures (1.0 + m / 8.0) * (8.0 * p / 512.0) == (8.0 + m) * p / 512.0
  {
    assert (1.0 + m / 8.0) * 8.0 == 8.0 + m;
  }

  /** The two decoders agree on every code the quantizer can store; the invalid codes are 0x7F and 0xFF. */
  lemma DecodersAgree(code: nat)
    requires code < 256
    ensures DecodeE4M3Signed(code).Err? <==> code == 0x7F || code == 0xFF
    ensures DecodeE4M3Signed(code).Ok? ==>
              DecodeE4M3Signed(code).value == Signed(code >= 128, DecodeE4M3(code % 128))
  {
    hide Ldexp;
    var bits := code % 128;
    if Exponent(bits) == 0 {
      LdexpScales(Mantissa(bits) as real, 1.0, -9);
      LdexpOne(0);
    } else {
      LdexpScales(1.0 + Mantissa(bits) as real / 8.0, 1.0, Exponent(bits) - 7);
    }
  }

  /** Outside a byte nothing decodes; a nibble is a sign and one of eight levels. */
  lemma DecodersExactly(code: nat)
    ensures code >= 256 ==> DecodeE4M3Signed(code).Err?
    ensures DecodeE2M1(code) == if code < 8 then Ok(Signed(false, E2M1[code]))
                                else if code < 16 then Ok(Signed(true, E2M1[code - 8])) else Err
  {
  }

  function E4M3Levels(): (levels: seq<real>)
    ensures |levels| == 127
  {
    seq(127, c requires 0 <= c < 127 => DecodeE4M3(c))
  }

  /** Neighbouring levels: one unit apart below 2^-6, an eighth of the lower level's binade above. */
  lemma UnitsStep(code: nat)
    ensures Units(code) < Units(code + 1)
    ensures code < 8 ==> Units(code + 1) == Units(code) + 1
    ensures code >= 8 ==> 8 * (Units(code + 1) - Units(code)) <= Units(code)
  {
    if code >= 8 {
      var k, m := code / 8 - 1, code % 8;
      if m == 7 {
        assert (code + 1) / 8 - 1 == k + 1 && (code + 1) % 8 == 0;
        assert Pow2(k + 1) == 2 * Pow2(k);
      } else {
        assert (code + 1) / 8 - 1 == k && (code + 1) % 8 == m + 1;
      }
      BinadeStep(m, Pow2(k));
    }
  }

  lemma BinadeStep(m: nat, p: nat)
    ensures (8 + m + 1) * p == (8 + m) * p + p && (8 + m) * p >= 8 * p && (8 + 7) * p + p == 8 * (2 * p)
  {
    assert (8 + m) * p == 8 * p + m * p;
  }

  lemma {:induction false} UnitsIncrease(a: nat, b: nat)
    requires a < b
    ensures Units(a) < Units(b)
  {
    UnitsStep(b - 1);
    if a + 1 >= b {
    } else {
      UnitsIncrease(a, b - 1);
    }
  }

  lemma LevelsIncrease()
    ensures StrictlyIncreasing(E4M3Levels())
    ensures StrictlyIncreasing(E2M1)
  {
    forall i, j | 0 <= i < j < 127 ensures E4M3Levels()[i] < E4M3Levels()[j] {
      DecodeIsUnits(i);
      DecodeIsUnits(j);
      UnitsIncrease(i, j);
    }
  }

  /** Encode a scale: saturate at 448, otherwise the nearest code. */
  function EncodeE4M3(value: real): (code: nat)
    ensures code <= 0x7E
  {
    if value >= 448.0 then 0x7E else NearestCode(E4M3Levels(), value)
  }

  function EncodeE2M1(value: Signed): (code: nat)
    ensures code < 16 && (code >= 8 <==> value.negative)
  {
    NearestCode(E2M1, Abs(value.magnitude)) + (if value.negative then 8 else 0)
  }

  lemma TopLevel()
    ensures DecodeE4M3(0x7E) == 448.0
  {
    hide Ldexp, Pow2;
    DecodeIsUnits(0x7E);
    Pow2Eight(0);
    Pow2Eight(3);
    Pow2Eight(6);
    Pow2Eight(9);
    Pow2Eight(11);
    assert Pow2(14) == 8 * Pow2(11) && 4 * Pow2(12) == Pow2(14) by { Pow2Two(11); Pow2Two(12); Pow2Two(13); }
    assert Pow2(12) == 4096;
  }

  lemma Pow2Two(k: nat)
    ensures Pow2(k + 1) == 2 * Pow2(k)
  {
  }

  lemma LevelIs(code: nat)
    requires code <= 0x7E
    ensures E4M3Levels()[code] == DecodeE4M3(code) == Units(code) as real / 512.0
  {
    hide Ldexp, Units;
    DecodeIsUnits(code);
  }

  /** Encoding inverts decoding on every storable code. */
  lemma EncodeDecodeE4M3(code: nat)
    requires code <= 0x7E
    ensures EncodeE4M3(DecodeE4M3(code)) == code
  {
    LevelsIncrease();
    TopLevel();
    if code < 0x7E {
      assert E4M3Levels()[code] < E4M3Levels()[0x7E];
    }
    NearestOfLevel(E4M3Levels(), code);
  }

  lemma EncodeDecodeE2M1(code: nat)
    requires code < 16
    ensures EncodeE2M1(DecodeE2M1(code).value) == code
  {
    hide NearestCode, StrictlyIncreasing;
    LevelsIncrease();
    NearestOfLevel(E2M1, code % 8);
  }

  /** The interval of neighbouring codes that contains a value. */
  lemma {:induction false} Bracket(value: real, top: nat) returns (code: nat)
    requires 0.0 <= value <= Units(top) as real / 512.0 && 0 < top
    ensures code < top && Units(code) as real / 512.0 <= value <= Units(code + 1) as real / 512.0
  {
    code := top - 1;
    if value >= Units(code) as real / 512.0 {
    } else {
      code := Bracket(value, top - 1);
    }
  }

  /** Rounding error of a stored scale: half a unit below 2^-6, one part in sixteen from there to 448. */
  lemma EncodeErrorE4M3(value: real)
    requires 0.0 <= value <= 448.0
    ensures value < 1.0 / 64.0 ==> Abs(DecodeE4M3(EncodeE4M3(value)) - value) <= 1.0 / 1024.0
    ensures value >= 1.0 / 64.0 ==> Abs(DecodeE4M3(EncodeE4M3(value)) - value) <= value / 16.0
  {
    hide NearestCode, StrictlyIncreasing, DecodeE4M3, Units, E4M3Levels, IsNearest;
    TopLevel();
    LevelIs(0x7E);
    var c := Bracket(value, 0x7E);
    LevelIs(c);
    LevelIs(c + 1);
    var code := EncodeE4M3(value);
    LevelIs(code);
    EncodeIsClosest(value, c);
    EncodeIsClosest(value, c + 1);
    var low, high := Units(c) as real / 512.0, Units(c + 1) as real / 512.0;
    assert 2.0 * Abs(value - DecodeE4M3(code)) <= high - low;
    UnitsStep(c);
    if c >= 8 {
      UnitsAtLeastEight(c);
      assert 8.0 * (high - low) <= low;
    } else {
      UnitsBelowEight(c);
      assert high - low == 1.0 / 512.0;
    }
  }

  lemma EncodeIsClosest(value: real, other: nat)
    requires 0.0 <= value <= 448.0 && other <= 0x7E
    ensures Abs(value - DecodeE4M3(EncodeE4M3(value))) <= Abs(value - DecodeE4M3(other))
    ensures other != EncodeE4M3(value)
            && Abs(value - DecodeE4M3(EncodeE4M3(value))) == Abs(value - DecodeE4M3(other)) ==>
              EncodeE4M3(value) % 2 == 0
  {
    hide NearestCode, StrictlyIncreasing, DecodeE4M3;
    TopLevel();
    LevelsIncrease();
    NearestIsTheNearest(E4M3Levels(), value);
    assert E4M3Levels()[0x7E] == 448.0;
    assert value < 448.0 ==> IsNearest(E4M3Levels(), value, EncodeE4M3(value));
    assert E4M3Levels()[other] == DecodeE4M3(other);
  }

  lemma UnitsBelowEight(code: nat)
    requires code < 8
    ensures Units(code) == code && Units(code + 1) == code + 1
  {
  }

  lemma UnitsAtLeastEight(code: nat)
    requires code >= 8
    ensures Units(code) >= 8
  {
    if code > 8 { UnitsIncrease(8, code); }
  }

  /** A larger scale never gets a smaller code, across the saturation too. */
  lemma EncodeMonotoneE4M3(x: real, y: real)
    requires x <= y
    ensures EncodeE4M3(x) <= EncodeE4M3(y)
  {
    LevelsIncrease();
    NearestMonotone(E4M3Levels(), x, y);
  }

  /** Rounding error of a stored value: at most one inside the table's range, the overshoot above it. */
  lemma EncodeErrorE2M1(value: Signed)
    requires value.magnitude >= 0.0
    ensures var back := E2M1[EncodeE2M1(value) % 8];
            Abs(value.magnitude - back) <= 1.0 || Abs(value.magnitude - back) <= value.magnitude - 6.0
    ensures value.magnitude > 5.0 ==> EncodeE2M1(value) % 8 == 7
  {
    hide NearestCode, StrictlyIncreasing;
    LevelsIncrease();
    var x := value.magnitude;
    var code := NearestCode(E2M1, x);
    NearestIsTheNearest(E2M1, x);
    assert IsNearest(E2M1, x, code);
    assert EncodeE2M1(value) % 8 == code;
    assert Abs(x - E2M1[code]) <= Abs(x - E2M1[0]);
    assert Abs(x - E2M1[code]) <= Abs(x - E2M1[2]);
    assert Abs(x - E2M1[code]) <= Abs(x - E2M1[4]);
    assert Abs(x - E2M1[code]) <= Abs(x - E2M1[6]);
    assert Abs(x - E2M1[code]) <= Abs(x - E2M1[7]);
  }

  /** The levels by exponent and mantissa: subnormals are multiples of 2^-9 and 2^-1, and the binades above start at
      2^-6 and 1. */
  lemma LevelsByFormula(code: nat)
    ensures code < 127 ==>
              E4M3Levels()[code] == (if code < 8 then code else (8 + code % 8) * Pow2(code / 8 - 1)) as real / 512.0
    ensures code < 8 ==>
              E2M1[code] == (if code < 2 then 2 * code else (2 + code % 2) * Pow2(code / 2)) as real / 4.0
  {
    hide DecodeE4M3;
    if code < 127 { DecodeIsUnits(code); }
    if code < 8 {
      assert Pow2(1) == 2 && Pow2(2) == 4 && Pow2(3) == 8;
    }
  }

  /** A stored scale: the closest level, the even code in a tie, and the top code from 448 on. */
  ghost predicate IsScaleCode(value: real, code: nat) {
    if value >= 448.0 then code == 0x7E else IsNearest(E4M3Levels(), value, code)
  }

  /** A stored nibble: the sign on top, and below it the closest level, the even code in a tie. */
  ghost predicate IsNibble(negative: bool, magnitude: real, code: nat) {
    code < 16 && (code >= 8 <==> negative) && IsNearest(E2M1, magnitude, code % 8)
  }

  /** The two encoders, exactly. */
  lemma EncodersExactly(value: Signed, scale: real, code: nat)
    ensures EncodeE4M3(scale) == code <==> IsScaleCode(scale, code)
    ensures value.magnitude >= 0.0 ==> (EncodeE2M1(value) == code <==> IsNibble(value.negative, value.magnitude, code))
  {
    hide NearestCode, StrictlyIncreasing, IsNearest;
    LevelsIncrease();
    NearestIsTheNearest(E4M3Levels(), scale);
    NearestIsTheNearest(E2M1, value.magnitude);
    if code < 16 {
      assert IsNearest(E2M1, value.magnitude, code % 8) <==> code % 8 == NearestCode(E2M1, value.magnitude);
    }
  }
}
