/** The aligned arena both image builders use: greedy 256-byte packing, and what byte an address holds. */
module Arena {
  import opened Basics

  /** Round up to the 256-byte arena alignment. */
  function AlignUp(value: nat): (r: nat)
    ensures r % 256 == 0 && value <= r < value + 256
  {
    (value + 255) / 256 * 256
  }

  /** No smaller multiple of 256 is at or above the value. */
  lemma AlignUpLeast(value: nat, m: nat)
    requires m % 256 == 0 && value <= m
    ensures AlignUp(value) <= m
    ensures m < value + 256 ==> AlignUp(value) == m
  {
  }

  /** Binary digit `i` of an unbounded integer. */
  function Bit(n: nat, i: nat): nat { if i == 0 then n % 2 else Bit(n / 2, i - 1) }

  function Doubled(n: nat, k: nat): nat { if k == 0 then n else 2 * Doubled(n, k - 1) }

  function Halved(n: nat, k: nat): nat { if k == 0 then n else Halved(n, k - 1) / 2 }

  lemma {:induction false} BitsOfDoubled(n: nat, k: nat, i: nat)
    ensures Bit(Doubled(n, k), i) == if i < k then 0 else Bit(n, i - k)
  {
    if k == 0 {
    } else if i > 0 {
      BitsOfDoubled(n, k - 1, i - 1);
    }
  }

  lemma {:induction false} BitsOfHalved(n: nat, k: nat, i: nat)
    ensures Bit(Halved(n, k), i) == Bit(n, i + k)
  {
    if k == 0 {
    } else {
      BitsOfHalved(n, k - 1, i + 1);
    }
  }

  /** The digits determine the number. */
  lemma {:induction false} BitsDetermine(a: nat, b: nat)
    requires forall i: nat :: Bit(a, i) == Bit(b, i)
    ensures a == b
    decreases a + b
  {
    assert Bit(a, 0) == Bit(b, 0);
    if a == 0 && b == 0 {
    } else {
      forall i: nat ensures Bit(a / 2, i) == Bit(b / 2, i) {
        assert Bit(a, i + 1) == Bit(b, i + 1);
      }
      BitsDetermine(a / 2, b / 2);
    }
  }

  lemma TwoDigits(n: nat, k: nat)
    ensures Doubled(n, k + 2) == 4 * Doubled(n, k) && Halved(n, k + 2) == Halved(n, k) / 4
  {
    assert Doubled(n, k + 2) == 2 * Doubled(n, k + 1);
    assert Halved(n, k + 2) == Halved(n, k + 1) / 2;
  }

  lemma EightDigits(n: nat)
    ensures Doubled(n, 8) == 256 * n && Halved(n, 8) == n / 256
  {
    TwoDigits(n, 0);
    TwoDigits(n, 2);
    TwoDigits(n, 4);
    TwoDigits(n, 6);
  }

  /** `m` is `n & ~255`: the binary digits of `n`, the low eight cleared. */
  ghost predicate IsMasked(m: nat, n: nat) {
    forall i: nat :: Bit(m, i) == if i < 8 then 0 else Bit(n, i)
  }

  /** The mask of the source, `(v + 255) & ~255` on unbounded integers, is this rounding and nothing else. */
  lemma AlignUpMask(value: nat, m: nat)
    ensures IsMasked(m, value + 255) <==> m == AlignUp(value)
  {
    var aligned := AlignUp(value);
    MaskedIsMultiple(value + 255);
    if IsMasked(m, value + 255) {
      assert forall i: nat :: Bit(m, i) == Bit(aligned, i);
      BitsDetermine(m, aligned);
    }
  }

  lemma MaskedIsMultiple(n: nat)
    ensures IsMasked(n / 256 * 256, n)
  {
    var q := n / 256;
    EightDigits(q);
    EightDigits(n);
    forall i: nat ensures Bit(256 * q, i) == if i < 8 then 0 else Bit(n, i) {
      BitsOfDoubled(q, 8, i);
      if i >= 8 { BitsOfHalved(n, 8, i - 8); }
    }
  }

  datatype Slot = Slot(offset: nat, length: nat) {
    predicate Holds(address: nat) { offset <= address < offset + length }
    function End(): nat { offset + length }
  }

  /** Greedy packing: each tensor starts at the first aligned offset at or after the cursor. */
  function Place(lengths: seq<nat>, cursor: nat): (slots: seq<Slot>)
    ensures |slots| == |lengths|
  {
    if lengths == [] then [] else
      var slot := Slot(AlignUp(cursor), lengths[0]);
      [slot] + Place(lengths[1..], slot.End())
  }

  /** The cursor after the last tensor. */
  function EndOf(lengths: seq<nat>, cursor: nat): (end: nat)
    ensures end >= cursor
  {
    if lengths == [] then cursor else EndOf(lengths[1..], AlignUp(cursor) + lengths[0])
  }

  lemma PlaceStep(lengths: seq<nat>, i: nat, cursor: nat)
    requires i < |lengths|
    ensures var slot := Slot(AlignUp(cursor), lengths[i]);
            Place(lengths[i..], cursor) == [slot] + Place(lengths[i + 1..], slot.End())
            && EndOf(lengths[i..], cursor) == EndOf(lengths[i + 1..], slot.End())
  {
    hide AlignUp;
    var rest := lengths[i..];
    assert rest[0] == lengths[i] && rest[1..] == lengths[i + 1..];
  }

  /** Slots in address order inside [start, end). */
  ghost predicate Ordered(slots: seq<Slot>, start: nat, end: nat) {
    start <= end
    && (forall i | 0 <= i < |slots| :: start <= slots[i].offset && slots[i].End() <= end)
    && (forall i, j | 0 <= i < j < |slots| :: slots[i].End() <= slots[j].offset)
  }

  lemma OrderedCons(slot: Slot, rest: seq<Slot>, start: nat, end: nat)
    requires start <= slot.offset && Ordered(rest, slot.End(), end)
    ensures Ordered([slot] + rest, start, end)
  {
    var slots := [slot] + rest;
    assert forall i | 1 <= i < |slots| :: slots[i] == rest[i - 1];
  }

  lemma {:induction false} PlaceOrdered(lengths: seq<nat>, cursor: nat)
    ensures Ordered(Place(lengths, cursor), cursor, EndOf(lengths, cursor))
    ensures forall i | 0 <= i < |lengths| ::
              Place(lengths, cursor)[i].length == lengths[i] && Place(lengths, cursor)[i].offset % 256 == 0
  {
    hide AlignUp, Ordered;
    if lengths == [] {
      NothingOrdered(cursor);
    } else {
      var slot := Slot(AlignUp(cursor), lengths[0]);
      var rest := Place(lengths[1..], slot.End());
      PlaceOrdered(lengths[1..], slot.End());
      OrderedCons(slot, rest, cursor, EndOf(lengths, cursor));
      assert forall i | 1 <= i < |lengths| :: Place(lengths, cursor)[i] == rest[i - 1];
    }
  }

  lemma NothingOrdered(cursor: nat)
    ensures Ordered([], cursor, cursor)
  {
  }

  /** Where the scan stands before tensor `i`. */
  function CursorBefore(slots: seq<Slot>, i: nat, cursor: nat): nat
    requires i <= |slots|
  {
    if i == 0 then cursor else slots[i - 1].End()
  }

  /** Every tensor starts at the first aligned offset at or after the end of the one before it. */
  ghost predicate Greedy(slots: seq<Slot>, cursor: nat) {
    forall i | 0 <= i < |slots| :: slots[i].offset == AlignUp(CursorBefore(slots, i, cursor))
  }

  lemma GreedyTail(slots: seq<Slot>, cursor: nat)
    requires slots != [] && Greedy(slots, cursor)
    ensures slots[0].offset == AlignUp(cursor) && Greedy(slots[1..], slots[0].End())
  {
    assert CursorBefore(slots, 0, cursor) == cursor;
    var rest := slots[1..];
    forall i | 0 <= i < |rest|
      ensures rest[i].offset == AlignUp(CursorBefore(rest, i, slots[0].End()))
    {
      assert rest[i] == slots[i + 1];
      assert CursorBefore(rest, i, slots[0].End()) == CursorBefore(slots, i + 1, cursor);
    }
  }

  lemma GreedyExtend(slots: seq<Slot>, next: Slot, cursor: nat)
    requires Greedy(slots, cursor) && next.offset == AlignUp(CursorBefore(slots, |slots|, cursor))
    ensures Greedy(slots + [next], cursor)
  {
    hide AlignUp;
    var after := slots + [next];
    forall k | 0 <= k < |after|
      ensures after[k].offset == AlignUp(CursorBefore(after, k, cursor))
    {
      assert CursorBefore(after, k, cursor) == CursorBefore(slots, k, cursor);
    }
  }

  lemma {:induction false} PlaceIsGreedy(lengths: seq<nat>, cursor: nat)
    ensures Greedy(Place(lengths, cursor), cursor)
  {
    if lengths == [] {
    } else {
      var slots := Place(lengths, cursor);
      PlaceIsGreedy(lengths[1..], slots[0].End());
      forall i | 0 <= i < |slots|
        ensures slots[i].offset == AlignUp(CursorBefore(slots, i, cursor))
      {
        if i > 0 {
          assert slots[i] == slots[1..][i - 1];
          assert CursorBefore(slots, i, cursor) == CursorBefore(slots[1..], i - 1, slots[0].End());
        }
      }
    }
  }

  /** The greedy packing of given lengths is unique, and it is the one `Place` computes. */
  lemma {:induction false} PlaceUnique(slots: seq<Slot>, cursor: nat)
    requires Greedy(slots, cursor)
    ensures slots == Place(Lengths(slots), cursor)
    ensures EndOf(Lengths(slots), cursor) == CursorBefore(slots, |slots|, cursor)
  {
    hide AlignUp, Greedy;
    if slots == [] {
    } else {
      GreedyTail(slots, cursor);
      PlaceUnique(slots[1..], slots[0].End());
      assert Lengths(slots)[1..] == Lengths(slots[1..]);
      assert slots == [slots[0]] + slots[1..];
    }
  }

  function Lengths(slots: seq<Slot>): (lengths: seq<nat>)
    ensures |lengths| == |slots|
    ensures forall i | 0 <= i < |slots| :: lengths[i] == slots[i].length
  {
    seq(|slots|, i requires 0 <= i < |slots| => slots[i].length)
  }

  /** The slot that holds an address. */
  function Owner(slots: seq<Slot>, address: nat): Option<nat> {
    if slots == [] then None
    else if slots[|slots| - 1].Holds(address) then Some(|slots| - 1)
    else Owner(slots[..|slots| - 1], address)
  }

  /** Ordered slots: an address has at most one owner, and `Owner` finds it. */
  lemma {:induction false} OwnerIsUnique(slots: seq<Slot>, start: nat, end: nat, address: nat)
    requires Ordered(slots, start, end)
    ensures match Owner(slots, address)
            case Some(i) => i < |slots| && slots[i].Holds(address)
                            && forall j | 0 <= j < |slots| && slots[j].Holds(address) :: j == i
            case None => forall j | 0 <= j < |slots| :: !slots[j].Holds(address)
  {
    if slots == [] {
    } else {
      OwnerIsUnique(slots[..|slots| - 1], start, end, address);
    }
  }

  ghost predicate Fits(slots: seq<Slot>, payloads: seq<seq<byte>>) {
    |slots| == |payloads| && forall i | 0 <= i < |slots| :: |payloads[i]| == slots[i].length
  }

  /** What the layout says is at an address: a byte of the owning tensor, or a zero gap. */
  function ByteAt(slots: seq<Slot>, payloads: seq<seq<byte>>, start: nat, end: nat, address: nat): byte
    requires Fits(slots, payloads) && Ordered(slots, start, end)
  {
    OwnerIsUnique(slots, start, end, address);
    match Owner(slots, address)
    case Some(i) => payloads[i][address - slots[i].offset]
    case None => 0
  }

  function Image(slots: seq<Slot>, payloads: seq<seq<byte>>, arena: nat): (image: seq<byte>)
    requires Fits(slots, payloads) && Ordered(slots, 0, arena)
    ensures |image| == arena
  {
    seq(arena, a requires 0 <= a < arena => ByteAt(slots, payloads, 0, arena, a))
  }

  /** The image, read tensor by tensor: each payload is in its slot and every other address is zero. */
  ghost predicate IsImage(slots: seq<Slot>, payloads: seq<seq<byte>>, arena: nat, image: seq<byte>)
    requires Fits(slots, payloads) && Ordered(slots, 0, arena)
  {
    && |image| == arena
    && (forall i | 0 <= i < |slots| :: image[slots[i].offset..slots[i].End()] == payloads[i])
    && (forall a | 0 <= a < arena && Owner(slots, a).None? :: image[a] == 0)
  }

  lemma ImageIsImage(slots: seq<Slot>, payloads: seq<seq<byte>>, arena: nat)
    requires Fits(slots, payloads) && Ordered(slots, 0, arena)
    ensures IsImage(slots, payloads, arena, Image(slots, payloads, arena))
  {
    var image := Image(slots, payloads, arena);
    forall i | 0 <= i < |slots|
      ensures image[slots[i].offset..slots[i].End()] == payloads[i]
    {
      forall o | 0 <= o < slots[i].length
        ensures image[slots[i].offset..slots[i].End()][o] == payloads[i][o]
      {
        OwnerIsUnique(slots, 0, arena, slots[i].offset + o);
        assert slots[i].Holds(slots[i].offset + o);
      }
    }
  }

  /** Payloads in their slots and zeros elsewhere leave exactly one image. */
  lemma ImageIsDetermined(slots: seq<Slot>, payloads: seq<seq<byte>>, arena: nat, image: seq<byte>)
    requires Fits(slots, payloads) && Ordered(slots, 0, arena)
    ensures IsImage(slots, payloads, arena, image) <==> image == Image(slots, payloads, arena)
  {
    ImageIsImage(slots, payloads, arena);
    if IsImage(slots, payloads, arena, image) {
      forall a | 0 <= a < arena
        ensures image[a] == ByteAt(slots, payloads, 0, arena, a)
      {
        OwnerIsUnique(slots, 0, arena, a);
        if Owner(slots, a).Some? {
          var i := Owner(slots, a).value;
          assert image[slots[i].offset..slots[i].End()][a - slots[i].offset] == image[a];
        }
      }
    }
  }
}
