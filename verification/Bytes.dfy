/** Little-endian fields, as `struct.pack` / `struct.unpack` with `<` produce and read them. */
module Bytes {
  import opened Basics

  const U32: nat := 0x1_0000_0000
  const U64: nat := 0x1_0000_0000_0000_0000

  function Radix(width: nat): (r: nat)
    ensures r >= 1
  {
    if width == 0 then 1 else 256 * Radix(width - 1)
  }

  lemma RadixValues()
    ensures Radix(4) == U32 && Radix(8) == U64
  {
    assert Radix(4) == 256 * Radix(3);
    assert Radix(8) == U32 * Radix(4) by {
      assert Radix(8) == 256 * Radix(7) == 65536 * Radix(6) == 16777216 * Radix(5);
    }
  }

  function Pack(width: nat, value: nat): (s: seq<byte>)
    ensures |s| == width
  {
    if width == 0 then [] else [value % 256] + Pack(width - 1, value / 256)
  }

  function Unpack(s: seq<byte>): nat {
    if s == [] then 0 else s[0] + 256 * Unpack(s[1..])
  }

  lemma {:induction false} UnpackBound(s: seq<byte>)
    ensures Unpack(s) < Radix(|s|)
  {
    if s == [] {
    } else {
      UnpackBound(s[1..]);
    }
  }

  lemma {:induction false} UnpackPack(width: nat, value: nat)
    requires value < Radix(width)
    ensures Unpack(Pack(width, value)) == value
  {
    if width == 0 {
    } else {
      UnpackPack(width - 1, value / 256);
      assert Pack(width, value)[1..] == Pack(width - 1, value / 256);
    }
  }

  lemma {:induction false} PackUnpack(s: seq<byte>)
    ensures Pack(|s|, Unpack(s)) == s
  {
    if s == [] {
    } else {
      PackUnpack(s[1..]);
      assert Unpack(s) / 256 == Unpack(s[1..]) && Unpack(s) % 256 == s[0];
    }
  }

  /** Little-endian: byte `i` is digit `i` of the number in base 256, and there are no further digits. */
  lemma {:induction false} UnpackDigits(s: seq<byte>, i: nat)
    requires i < |s|
    ensures Unpack(s) / Radix(i) % 256 == s[i] && Unpack(s) < Radix(|s|)
  {
    UnpackBound(s);
    if i > 0 {
      var rest := Unpack(s[1..]);
      UnpackDigits(s[1..], i - 1);
      DivideTwice(s[0], rest, Radix(i - 1));
    }
  }

  lemma DivideTwice(low: byte, rest: nat, radix: nat)
    requires radix >= 1
    ensures (low + 256 * rest) / (256 * radix) == rest / radix
  {
    var q, r := rest / radix, rest % radix;
    assert low + 256 * rest == (256 * radix) * q + (low + 256 * r) && low + 256 * r < 256 * radix;
    QuotientIs(low + 256 * rest, 256 * radix, q, low + 256 * r);
  }

  lemma QuotientIs(n: nat, d: nat, q: nat, r: nat)
    requires n == d * q + r && r < d
    ensures n / d == q
  {
    var p := n / d;
    assert n == d * p + n % d;
    assert p < q ==> d * (p + 1) <= d * q;
    assert p > q ==> d * (q + 1) <= d * p;
  }
}
