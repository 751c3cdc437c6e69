/** The SM120 Row-8/K-64 tiling: where each byte of a (rows, blocks, width) tensor lands, as a bijection. */
module Tiling {
  import opened Basics
  import opened Arithmetic

  datatype Coord = Coord(row: nat, block: nat, byteIndex: nat)

  ghost predicate InShape(rows: nat, blocks: nat, width: nat, c: Coord) {
    c.row < rows && c.block < blocks && c.byteIndex < width
  }

  /** Bytes of a whole (rows, blocks, width) tensor. */
  function Extent(rows: nat, blocks: nat, width: nat): nat {
    Mul(rows, Mul(blocks, width))
  }

  /** Rows in a tile: eight, or what is left in the ragged tail. */
  function TileHeight(rows: nat, tile: nat): nat {
    if 8 * tile + 8 <= rows then 8 else if 8 * tile <= rows then rows - 8 * tile else 0
  }

  /** Offset of a byte in the row-major source. */
  function SourceIndex(blocks: nat, width: nat, c: Coord): nat {
    Mul(Mul(c.row, blocks) + c.block, width) + c.byteIndex
  }

  /** Offset of a byte in the tiled target. */
  function TileAddress(rows: nat, blocks: nat, width: nat, c: Coord): nat {
    var tile := c.row / 8;
    Mul(8 * tile, Mul(blocks, width))
    + Mul(c.block, Mul(TileHeight(rows, tile), width))
    + Mul(c.row - 8 * tile, width) + c.byteIndex
  }

  /** The address as the layout documents it: with t = r / 8 and g rows in the tile,
      8*t*K*B + k*g*B + (r - 8*t)*B + b. */
  lemma TileAddressFormula(rows: nat, blocks: nat, width: nat, c: Coord)
    ensures var t := c.row / 8;
            var g := TileHeight(rows, t);
            TileAddress(rows, blocks, width, c)
            == 8 * t * (blocks * width) + c.block * (g * width) + (c.row - 8 * t) * width + c.byteIndex
    ensures Extent(rows, blocks, width) == rows * (blocks * width)
    ensures SourceIndex(blocks, width, c) == (c.row * blocks + c.block) * width + c.byteIndex
  {
    var t := c.row / 8;
    MulIsTimes(blocks, width);
    MulIsTimes(8 * t, Mul(blocks, width));
    MulIsTimes(TileHeight(rows, t), width);
    MulIsTimes(c.block, Mul(TileHeight(rows, t), width));
    MulIsTimes(c.row - 8 * t, width);
    MulIsTimes(rows, Mul(blocks, width));
    MulIsTimes(c.row, blocks);
    MulIsTimes(Mul(c.row, blocks) + c.block, width);
  }

  /** The coordinates of offset `i` in a (tiles, blocks, height, width) buffer whose first row is `first`. */
  function PanelCoord(first: nat, blocks: nat, height: nat, width: nat, i: nat): Coord
    requires height > 0 && blocks > 0 && width > 0
  {
    MulPositive(height, width);
    MulPositive(blocks, Mul(height, width));
    var tileBytes := Mul(blocks, Mul(height, width));
    var inTile := Rem(i, tileBytes);
    var inPanel := Rem(inTile, Mul(height, width));
    Coord(first + Mul(Quot(i, tileBytes), height) + Quot(inPanel, width),
          Quot(inTile, Mul(height, width)),
          Rem(inPanel, width))
  }

  lemma ExtentPositive(rows: nat, blocks: nat, width: nat)
    requires Extent(rows, blocks, width) > 0
    ensures rows > 0 && blocks > 0 && width > 0 && Mul(blocks, width) > 0
  {
    MulPositive(rows, Mul(blocks, width));
    MulPositive(blocks, width);
  }

  /** A panel of `height` rows over all blocks has the bytes of `height` rows. */
  lemma PanelBytes(blocks: nat, height: nat, width: nat)
    ensures Mul(blocks, Mul(height, width)) == Mul(height, Mul(blocks, width))
  {
    MulAssociates(blocks, height, width);
    MulAssociates(height, blocks, width);
    MulCommutes(blocks, height);
  }

  /** Reading the digits of an offset inside one tile, then writing them back. */
  lemma InTileRoundTrip(first: nat, blocks: nat, height: nat, width: nat, x: nat)
    requires x < Mul(blocks, Mul(height, width))
    ensures height > 0 && blocks > 0 && width > 0
    ensures var c := PanelCoord(first, blocks, height, width, x);
            first <= c.row < first + height && c.block < blocks && c.byteIndex < width
            && Mul(c.block, Mul(height, width)) + Mul(c.row - first, width) + c.byteIndex == x
  {
    MulPositive(blocks, Mul(height, width));
    MulPositive(height, width);
    var panel := Mul(height, width);
    QuotRemUnique(0, x, Mul(blocks, panel));
    QuotRem(x, panel);
    QuotBound(x, blocks, panel);
    QuotRem(Rem(x, panel), width);
    QuotBound(Rem(x, panel), height, width);
  }

  /** Writing the digits of a coordinate inside one tile, then reading them back. */
  lemma InTileDigits(first: nat, blocks: nat, height: nat, width: nat, c: Coord)
    requires first <= c.row < first + height && c.block < blocks && c.byteIndex < width
    ensures var x := Mul(c.block, Mul(height, width)) + Mul(c.row - first, width) + c.byteIndex;
            x < Mul(blocks, Mul(height, width)) && PanelCoord(first, blocks, height, width, x) == c
  {
    var panel := Mul(height, width);
    var y := Mul(c.row - first, width) + c.byteIndex;
    DigitBound(c.row - first, height, c.byteIndex, width);
    DigitBound(c.block, blocks, y, panel);
    QuotRemUnique(c.row - first, c.byteIndex, width);
    QuotRemUnique(c.block, y, panel);
    QuotRemUnique(0, Mul(c.block, panel) + y, Mul(blocks, panel));
  }

  /** The tile that holds an address, and the offset of the address inside that tile. */
  function TileOf(blocks: nat, width: nat, address: nat): nat
    requires Mul(blocks, width) > 0
  {
    Quot(address, Mul(8, Mul(blocks, width)))
  }

  function InTile(blocks: nat, width: nat, address: nat): nat
    requires Mul(blocks, width) > 0
  {
    Rem(address, Mul(8, Mul(blocks, width)))
  }

  lemma TileFacts(rows: nat, blocks: nat, width: nat, address: nat)
    requires address < Extent(rows, blocks, width)
    ensures Mul(blocks, width) > 0
    ensures var tile := TileOf(blocks, width, address);
            var height := TileHeight(rows, tile);
            address == Mul(8 * tile, Mul(blocks, width)) + InTile(blocks, width, address)
            && InTile(blocks, width, address) < Mul(blocks, Mul(height, width))
            && 8 * tile + height <= rows
  {
    ExtentPositive(rows, blocks, width);
    var rowBytes := Mul(blocks, width);
    var tile := TileOf(blocks, width, address);
    var height := TileHeight(rows, tile);
    QuotRem(address, Mul(8, rowBytes));
    MulAssociates(tile, 8, rowBytes);
    MulIsTimes(tile, 8);
    if 8 * tile >= rows { MulMonotone(rows, 8 * tile, rowBytes); }
    MulAddLeft(8 * tile, rows - 8 * tile, rowBytes);
    PanelBytes(blocks, height, width);
  }

  /** The source byte that belongs at a tiled address. */
  function TileCoord(rows: nat, blocks: nat, width: nat, address: nat): (c: Coord)
    requires address < Extent(rows, blocks, width)
  {
    TileFacts(rows, blocks, width, address);
    var tile := TileOf(blocks, width, address);
    var x := InTile(blocks, width, address);
    InTileRoundTrip(8 * tile, blocks, TileHeight(rows, tile), width, x);
    PanelCoord(8 * tile, blocks, TileHeight(rows, tile), width, x)
  }

  /** Every tiled address comes from a byte of the tensor, and that byte goes to that address. */
  lemma TileAddressOfCoord(rows: nat, blocks: nat, width: nat, address: nat)
    requires address < Extent(rows, blocks, width)
    ensures InShape(rows, blocks, width, TileCoord(rows, blocks, width, address))
    ensures TileAddress(rows, blocks, width, TileCoord(rows, blocks, width, address)) == address
  {
    hide Mul, Quot, Rem, TileOf, InTile, PanelCoord, Extent;
    TileFacts(rows, blocks, width, address);
    var tile := TileOf(blocks, width, address);
    InTileRoundTrip(8 * tile, blocks, TileHeight(rows, tile), width, InTile(blocks, width, address));
  }

  /** An address is its tile number and its offset in a tile of eight rows. */
  lemma TileDigits(tile: nat, x: nat, rowBytes: nat)
    requires x < Mul(8, rowBytes)
    ensures Quot(Mul(8 * tile, rowBytes) + x, Mul(8, rowBytes)) == tile
    ensures Rem(Mul(8 * tile, rowBytes) + x, Mul(8, rowBytes)) == x
  {
    MulAssociates(tile, 8, rowBytes);
    MulIsTimes(tile, 8);
    QuotRemUnique(tile, x, Mul(8, rowBytes));
  }

  lemma TileEnds(rows: nat, rowBytes: nat, tile: nat, height: nat, x: nat)
    requires 8 * tile + height <= rows && height <= 8 && x < Mul(height, rowBytes)
    ensures x < Mul(8, rowBytes) && Mul(8 * tile, rowBytes) + x < Mul(rows, rowBytes)
  {
    MulMonotone(height, 8, rowBytes);
    MulAddLeft(8 * tile, height, rowBytes);
    MulMonotone(8 * tile + height, rows, rowBytes);
  }

  /** Every byte of the tensor has a tiled address, and reading that address finds the byte again. */
  lemma TileCoordOfAddress(rows: nat, blocks: nat, width: nat, c: Coord)
    requires InShape(rows, blocks, width, c)
    ensures TileAddress(rows, blocks, width, c) < Extent(rows, blocks, width)
    ensures TileCoord(rows, blocks, width, TileAddress(rows, blocks, width, c)) == c
  {
    hide Mul, Quot, Rem, PanelCoord;
    var rowBytes := Mul(blocks, width);
    var tile := c.row / 8;
    var height := TileHeight(rows, tile);
    var x := Mul(c.block, Mul(height, width)) + Mul(c.row - 8 * tile, width) + c.byteIndex;
    InTileDigits(8 * tile, blocks, height, width, c);
    PanelBytes(blocks, height, width);
    TileEnds(rows, rowBytes, tile, height, x);
    TileDigits(tile, x, rowBytes);
  }

  lemma SourceIndexInRange(rows: nat, blocks: nat, width: nat, c: Coord)
    requires InShape(rows, blocks, width, c)
    ensures SourceIndex(blocks, width, c) < Extent(rows, blocks, width)
  {
    DigitBound(c.row, rows, c.block, blocks);
    DigitBound(Mul(c.row, blocks) + c.block, Mul(rows, blocks), c.byteIndex, width);
    MulAssociates(rows, blocks, width);
  }

  /** The source is row-major: a source offset determines its coordinates. */
  lemma SourceIndexInjective(rows: nat, blocks: nat, width: nat, c: Coord, d: Coord)
    requires InShape(rows, blocks, width, c) && InShape(rows, blocks, width, d)
    requires SourceIndex(blocks, width, c) == SourceIndex(blocks, width, d)
    ensures c == d
  {
    QuotRemUnique(Mul(c.row, blocks) + c.block, c.byteIndex, width);
    QuotRemUnique(Mul(d.row, blocks) + d.block, d.byteIndex, width);
    QuotRemUnique(c.row, c.block, blocks);
    QuotRemUnique(d.row, d.block, blocks);
  }

  /** The byte the layout assigns to a tiled address. */
  function TiledByte(source: seq<byte>, rows: nat, blocks: nat, width: nat, address: nat): byte
    requires |source| == Extent(rows, blocks, width)
    requires address < |source|
  {
    var c := TileCoord(rows, blocks, width, address);
    TileAddressOfCoord(rows, blocks, width, address);
    SourceIndexInRange(rows, blocks, width, c);
    source[SourceIndex(blocks, width, c)]
  }

  /** The whole tiled tensor. */
  function Tiled(source: seq<byte>, rows: nat, blocks: nat, width: nat): (tiled: seq<byte>)
    requires |source| == Extent(rows, blocks, width)
    ensures |tiled| == |source|
  {
    seq(|source|, a requires 0 <= a < |source| => TiledByte(source, rows, blocks, width, a))
  }

  /** The tiled tensor holds every source byte at its tile address; the addresses are exactly
      [0, rows * blocks * width), each used once. */
  lemma TilingIsBijection(source: seq<byte>, rows: nat, blocks: nat, width: nat)
    requires |source| == Extent(rows, blocks, width)
    ensures forall c | InShape(rows, blocks, width, c) ::
              SourceIndex(blocks, width, c) < |source|
              && TileAddress(rows, blocks, width, c) < |source|
              && Tiled(source, rows, blocks, width)[TileAddress(rows, blocks, width, c)]
                 == source[SourceIndex(blocks, width, c)]
    ensures forall c, d | InShape(rows, blocks, width, c) && InShape(rows, blocks, width, d)
              && TileAddress(rows, blocks, width, c) == TileAddress(rows, blocks, width, d) :: c == d
    ensures forall a | 0 <= a < |source| ::
              InShape(rows, blocks, width, TileCoord(rows, blocks, width, a))
              && TileAddress(rows, blocks, width, TileCoord(rows, blocks, width, a)) == a
  {
    forall c | InShape(rows, blocks, width, c)
      ensures SourceIndex(blocks, width, c) < |source|
      ensures TileAddress(rows, blocks, width, c) < |source|
      ensures TileCoord(rows, blocks, width, TileAddress(rows, blocks, width, c)) == c
    {
      SourceIndexInRange(rows, blocks, width, c);
      TileCoordOfAddress(rows, blocks, width, c);
    }
    forall a | 0 <= a < |source|
      ensures InShape(rows, blocks, width, TileCoord(rows, blocks, width, a))
      ensures TileAddress(rows, blocks, width, TileCoord(rows, blocks, width, a)) == a
    {
      TileAddressOfCoord(rows, blocks, width, a);
    }
  }

  /** One staging buffer: rows [first, first + tiles * height) viewed as (tiles, height, blocks, width)
      and transposed to (tiles, blocks, height, width). The ragged tail is the case of one tile. */
  function Staged(source: seq<byte>, rows: nat, blocks: nat, width: nat,
                  first: nat, tiles: nat, height: nat): (staged: seq<byte>)
    requires |source| == Extent(rows, blocks, width)
    requires first + Mul(tiles, height) <= rows
    ensures |staged| == Extent(Mul(tiles, height), blocks, width)
  {
    var n := Extent(Mul(tiles, height), blocks, width);
    seq(n, i requires 0 <= i < n =>
      PanelCoordInShape(rows, blocks, width, first, tiles, height, i);
      source[SourceIndex(blocks, width, PanelCoord(first, blocks, height, width, i))])
  }

  lemma PanelCoordInShape(rows: nat, blocks: nat, width: nat, first: nat, tiles: nat, height: nat, i: nat)
    requires first + Mul(tiles, height) <= rows
    requires i < Extent(Mul(tiles, height), blocks, width)
    ensures height > 0 && blocks > 0 && width > 0
    ensures InShape(rows, blocks, width, PanelCoord(first, blocks, height, width, i))
    ensures SourceIndex(blocks, width, PanelCoord(first, blocks, height, width, i)) < Extent(rows, blocks, width)
  {
    hide Quot, Rem, PanelCoord, Extent, SourceIndex;
    var t, x, start := StagedDigits(first, blocks, width, tiles, height, i);
    InTileRoundTrip(start, blocks, height, width, x);
    MulMonotone(t + 1, tiles, height);
    SourceIndexInRange(rows, blocks, width, PanelCoord(first, blocks, height, width, i));
  }

  /** Offset `i` of a staged buffer is offset `x` of its tile number `t`. */
  lemma StagedDigits(first: nat, blocks: nat, width: nat, tiles: nat, height: nat, i: nat)
    returns (t: nat, x: nat, start: nat)
    requires i < Extent(Mul(tiles, height), blocks, width)
    ensures height > 0 && blocks > 0 && width > 0 && t < tiles
    ensures x < Mul(blocks, Mul(height, width)) == Mul(height, Mul(blocks, width))
    ensures start == first + Mul(t, height)
    ensures Mul(first, Mul(blocks, width)) + i == Mul(start, Mul(blocks, width)) + x
    ensures PanelCoord(first, blocks, height, width, i)
            == PanelCoord(start, blocks, height, width, x)
  {
    ExtentPositive(Mul(tiles, height), blocks, width);
    MulPositive(tiles, height);
    MulPositive(height, width);
    var tileBytes := Mul(blocks, Mul(height, width));
    MulPositive(blocks, Mul(height, width));
    PanelBytes(blocks, height, width);
    MulAssociates(tiles, height, Mul(blocks, width));
    QuotRem(i, tileBytes);
    QuotBound(i, tiles, tileBytes);
    t, x := Quot(i, tileBytes), Rem(i, tileBytes);
    start := first + Mul(t, height);
    MulAssociates(t, height, Mul(blocks, width));
    MulAddLeft(first, Mul(t, height), Mul(blocks, width));
    QuotRemUnique(0, x, tileBytes);
  }

  /** Whole tiles start at a multiple of eight rows; the ragged tail is one short tile at the end. */
  ghost predicate Chunk(rows: nat, first: nat, tiles: nat, height: nat) {
    first % 8 == 0
    && ((height == 8 && first + Mul(tiles, 8) <= rows)
        || (tiles == 1 && 0 < height < 8 && first + height == rows))
  }

  lemma ChunkTile(rows: nat, first: nat, tiles: nat, height: nat, t: nat)
    requires Chunk(rows, first, tiles, height) && t < tiles
    ensures (first + Mul(t, height)) % 8 == 0
    ensures TileHeight(rows, (first + Mul(t, height)) / 8) == height
  {
    MulIsTimes(t, height);
    MulMonotone(t + 1, tiles, 8);
    MulIsTimes(t + 1, 8);
    assert height == 8 || t == 0;
  }

  /** The coordinates of an address given as the first row of its tile and the offset in the tile. */
  lemma TileCoordAt(rows: nat, blocks: nat, width: nat, start: nat, height: nat, x: nat, address: nat)
    requires start % 8 == 0 && height == TileHeight(rows, start / 8)
    requires x < Mul(height, Mul(blocks, width)) && address == Mul(start, Mul(blocks, width)) + x
    ensures height > 0 && blocks > 0 && width > 0 && address < Extent(rows, blocks, width)
    ensures TileCoord(rows, blocks, width, address) == PanelCoord(start, blocks, height, width, x)
  {
    assert start == 8 * (start / 8);
    TileEnds(rows, Mul(blocks, width), start / 8, height, x);
    TileDigits(start / 8, x, Mul(blocks, width));
    MulPositive(height, Mul(blocks, width));
    MulPositive(blocks, width);
  }

  /** A staged chunk of whole tiles, or the tail, is the matching stretch of the tiled tensor. */
  lemma StagedCoordIsTileCoord(rows: nat, blocks: nat, width: nat, first: nat, tiles: nat, height: nat, i: nat)
    requires Chunk(rows, first, tiles, height)
    requires i < Extent(Mul(tiles, height), blocks, width)
    ensures height > 0 && blocks > 0 && width > 0
    ensures Mul(first, Mul(blocks, width)) + i < Extent(rows, blocks, width)
    ensures TileCoord(rows, blocks, width, Mul(first, Mul(blocks, width)) + i)
            == PanelCoord(first, blocks, height, width, i)
  {
    hide Mul, Quot, Rem, PanelCoord, TileCoord;
    var t, x, start := StagedDigits(first, blocks, width, tiles, height, i);
    ChunkTile(rows, first, tiles, height, t);
    TileCoordAt(rows, blocks, width, start, height, x, Mul(first, Mul(blocks, width)) + i);
  }

  lemma StagedIsTiled(source: seq<byte>, rows: nat, blocks: nat, width: nat, first: nat, tiles: nat, height: nat)
    requires |source| == Extent(rows, blocks, width)
    requires first + Mul(tiles, height) <= rows
    requires Chunk(rows, first, tiles, height)
    ensures var at := Mul(first, Mul(blocks, width));
            var staged := Staged(source, rows, blocks, width, first, tiles, height);
            at + |staged| <= |source|
            && Tiled(source, rows, blocks, width)[at..at + |staged|] == staged
  {
    hide Mul, Quot, Rem, PanelCoord, TileCoord, SourceIndex;
    var rowBytes := Mul(blocks, width);
    var at := Mul(first, rowBytes);
    var staged := Staged(source, rows, blocks, width, first, tiles, height);
    var tiled := Tiled(source, rows, blocks, width);
    MulAddLeft(first, Mul(tiles, height), rowBytes);
    MulMonotone(first + Mul(tiles, height), rows, rowBytes);
    forall i | 0 <= i < |staged|
      ensures tiled[at..at + |staged|][i] == staged[i]
    {
      StagedCoordIsTileCoord(rows, blocks, width, first, tiles, height, i);
    }
  }
}
