/** What the dots of kernel/src/gameboy/gpu.rs look like: every tile row is the eight colour numbers that its two bytes
    spell in binary, and where it appears on the screen is told by the tile maps and by object memory. */
module Tiles {
  import opened Common
  import opened Digits
  import opened Video

  // ---- Tile rows ----

  /** Eight colour numbers, from left to right. */
  type TileRow = r: seq<nat> | |r| == 8 && forall k :: 0 <= k < 8 ==> r[k] < 4 witness [0, 0, 0, 0, 0, 0, 0, 0]

  function LowDigits(r: TileRow): (d: seq<nat>)
    ensures |d| == 8 && Binary(d)
  {
    seq(8, k requires 0 <= k < 8 => r[k] % 2)
  }

  function HighDigits(r: TileRow): (d: seq<nat>)
    ensures |d| == 8 && Binary(d)
  {
    seq(8, k requires 0 <= k < 8 => r[k] / 2)
  }

  /** The two bytes of a tile row: the low and the high bits of the colour numbers, read as binary digits. */
  predicate Spells(b1: byte, b2: byte, r: TileRow) {
    b1 == Value(LowDigits(r)) && b2 == Value(HighDigits(r))
  }

  /** The colour number at bit 7 - k is number k of the row. */
  lemma ColourAt(b1: byte, b2: byte, r: TileRow, k: nat)
    requires Spells(b1, b2, r) && k < 8
    ensures ColNr(b1, b2, 7 - k) == r[k]
  {
    BitIsDigit(b1, LowDigits(r), k);
    BitIsDigit(b2, HighDigits(r), k);
  }

  /** Any two bytes spell a row. */
  lemma RowExists(b1: byte, b2: byte) returns (r: TileRow)
    ensures Spells(b1, b2, r)
  {
    PowersOfTwo(7);
    var low := DigitsExist(b1, 8);
    var high := DigitsExist(b2, 8);
    r := seq(8, k requires 0 <= k < 8 => low[k] + 2 * high[k]);
    assert LowDigits(r) == low && HighDigits(r) == high;
  }

  // ---- Sprites ----

  /** Byte `k` of an OAM entry: y, x, tile number, flags. */
  function Oam(c: Config, i: nat, k: nat): byte
    requires i < 40 && k < 4
  {
    c.voam[4 * i + k]
  }

  /** Where row `y` of the sprite, counted from its upper edge, lies in its VRAM bank: with 16 lines, in two tiles one
      above the other, the even one first. A flip turns the rows over. */
  function SpriteRowAt(c: Config, i: nat, y: nat): (a: nat)
    requires i < 40 && y < c.spriteSize
    ensures a + 1 < 0x1000
  {
    var number: int := Oam(c, i, 2);
    var from := if Bit(Oam(c, i, 3), 6) then c.spriteSize - 1 - y else y;
    var tile := if c.spriteSize == 8 then number else if from < 8 then number - number % 2 else number - number % 2 + 1;
    16 * tile + 2 * (if from < 8 then from else from - 8)
  }

  predicate SpriteRowIs(c: Config, i: nat, y: nat, r: TileRow)
    requires i < 40 && y < c.spriteSize
  {
    var a := SpriteRowAt(c, i, y) + if c.gbmode == Color && Bit(Oam(c, i, 3), 3) then 0x2000 else 0;
    Spells(c.vram[a], c.vram[a + 1], r)
  }

  /** The background hides a sprite's dots, although they are not transparent: where it is not transparent itself, and
      the sprite (or on colour hardware either of the two) puts the background first. */
  predicate Hidden(c: Config, flags: byte, prio: PrioType) {
    && prio != Color0
    && if c.gbmode == Color then c.lcdc0 && (prio == PrioFlag || Bit(flags, 7)) else Bit(flags, 7)
  }

  /** Colour `col` of the sprite's palette. */
  function SpritePaint(c: Config, flags: byte, col: nat): Pixel
    requires col < 4
  {
    var n: int := flags % 8;
    if c.gbmode == Color then Rgb(c.csprit[n][col], 32 + 4 * n + col)
    else if Bit(flags, 4) then Grey(c.pal1[col], 72 + col)
    else Grey(c.pal0[col], 68 + col)
  }

  lemma SpriteRowAgrees(c: Config, line: nat, i: nat, y: nat)
    requires i < 40 && y < c.spriteSize && line + 16 == Oam(c, i, 0) + y
    ensures OnLine(c, line, SpriteAt(c, i))
    ensures var a := SpriteTileRow(c, line, SpriteAt(c, i));
            a % 0x2000 == SpriteRowAt(c, i, y) && (a + 1) % 0x2000 == SpriteRowAt(c, i, y) + 1
  {
    InBank(SpriteRowAt(c, i, y));
    InBank(SpriteRowAt(c, i, y) + 1);
    assert SpriteTileRow(c, line, SpriteAt(c, i)) == 0x8000 + SpriteRowAt(c, i, y);
  }

  lemma InBank(a: nat)
    requires a < 0x2000
    ensures (0x8000 + a) % 0x2000 == a
  {
  }

  /** Dot `j` from the left of sprite `i` on its row `y` has the colour number that the row spells there, from right to
      left when the sprite is flipped. */
  lemma SpriteColourIs(c: Config, line: nat, i: nat, j: nat, y: nat, p: nat, r: TileRow)
    requires i < 40 && j < 8 && y < c.spriteSize && SpriteRowIs(c, i, y, r)
    requires line + 16 == Oam(c, i, 0) + y && p + 8 == Oam(c, i, 1) + j
    requires OnLine(c, line, SpriteAt(c, i))
    ensures SpriteColour(c, line, SpriteAt(c, i), p) == r[if Bit(Oam(c, i, 3), 5) then 7 - j else j]
  {
    var a := SpriteTileRow(c, line, SpriteAt(c, i));
    SpriteRowAgrees(c, line, i, y);
    ColourAt(SpriteByte(c, Oam(c, i, 3), a), SpriteByte(c, Oam(c, i, 3), a + 1), r,
             if Bit(Oam(c, i, 3), 5) then 7 - j else j);
  }

  /** That colour number is what is seen, in the sprite's palette, unless it is 0 or hidden by the background. */
  lemma SpriteShows(c: Config, line: nat, i: nat, prio: PrioType, j: nat, y: nat, p: nat, r: TileRow)
    requires i < 40 && j < 8 && y < c.spriteSize && p < SCREEN_W && SpriteRowIs(c, i, y, r)
    requires line + 16 == Oam(c, i, 0) + y && p + 8 == Oam(c, i, 1) + j
    ensures OnLine(c, line, SpriteAt(c, i))
    ensures var flags := Oam(c, i, 3);
            var col := r[if Bit(flags, 5) then 7 - j else j];
            SpriteDot(c, line, SpriteAt(c, i), prio, p)
            == if col == 0 || Hidden(c, flags, prio) then None else Some(SpritePaint(c, flags, col))
  {
    SpriteRowAgrees(c, line, i, y);
    SpriteColourIs(c, line, i, j, y, p, r);
    PixelShows(c, Oam(c, i, 3), r[if Bit(Oam(c, i, 3), 5) then 7 - j else j], prio);
  }

  lemma PixelShows(c: Config, flags: byte, col: nat, prio: PrioType)
    requires col < 4
    ensures SpritePixel(c, flags, col, prio)
            == if col == 0 || Hidden(c, flags, prio) then None else Some(SpritePaint(c, flags, col))
  {
  }

  /** Beside its eight columns a sprite shows nothing. */
  lemma SpriteNarrow(c: Config, line: nat, i: nat, prio: PrioType, p: nat)
    requires i < 40 && p < SCREEN_W && OnLine(c, line, SpriteAt(c, i))
    requires p + 8 < Oam(c, i, 1) || p >= Oam(c, i, 1)
    ensures SpriteDot(c, line, SpriteAt(c, i), prio, p) == None
  {
  }

  // ---- Which sprite ----

  predicate Touches(c: Config, line: nat, i: nat)
    requires i < 40
  {
    Oam(c, i, 0) <= line + 16 < Oam(c, i, 0) + c.spriteSize
  }

  /** How many of the first `n` entries of object memory touch the line. */
  function Touching(c: Config, line: nat, n: nat): nat
    requires n <= 40
  {
    if n == 0 then 0 else Touching(c, line, n - 1) + if Touches(c, line, n - 1) then 1 else 0
  }

  /** Among the first ten on the line. */
  predicate Chosen(c: Config, line: nat, i: nat) {
    i < 40 && Touches(c, line, i) && Touching(c, line, i) < 10
  }

  lemma {:induction false} TouchingGrows(c: Config, line: nat, i: nat, e: nat)
    requires i <= e <= 40
    ensures Touching(c, line, i) <= Touching(c, line, e)
    decreases e
  {
    if i < e { TouchingGrows(c, line, i, e - 1); }
  }

  lemma {:induction false} SelectIs(c: Config, line: nat, i: nat, room: nat, e: nat)
    requires i <= e < 40
    ensures SpriteAt(c, e) in Select(c, line, i, room)
            <==> Touches(c, line, e) && Touching(c, line, e) < Touching(c, line, i) + room
    decreases 40 - i
  {
    TouchingGrows(c, line, i, e);
    if room > 0 && i < e { SelectIs(c, line, i + 1, if Touches(c, line, i) then room - 1 else room, e); }
  }

  lemma ChosenIs(c: Config, line: nat, e: nat)
    requires e < 40
    ensures SpriteAt(c, e) in Select(c, line, 0, 10) <==> Chosen(c, line, e)
  {
    SelectIs(c, line, 0, 10, e);
  }

  /** Entry `i` is drawn above entry `k`: on colour hardware the earlier one, else the one further left, or the earlier
      of two at the same place. */
  predicate Above(c: Config, i: nat, k: nat)
    requires i < 40 && k < 40
  {
    if c.gbmode == Color then i < k else Oam(c, i, 1) < Oam(c, k, 1) || (Oam(c, i, 1) == Oam(c, k, 1) && i < k)
  }

  /** The dot of entry `i` in column `p`, if it is among the first ten on the line and shows there. */
  function DotOf(c: Config, line: nat, prio: PrioType, p: nat, i: nat): Option<Pixel>
    requires p < SCREEN_W
  {
    if Chosen(c, line, i) then SpriteDot(c, line, SpriteAt(c, i), prio, p) else None
  }

  /** A winner of the priority rule is above every other sprite showing there. */
  lemma WinnerAbove(c: Config, line: nat, prio: PrioType, p: nat, k: nat, i: nat)
    requires p < SCREEN_W && i < 40 && Wins(c, line, Select(c, line, 0, 10), prio, p, k)
    requires DotOf(c, line, prio, p, i).Some? && i != Select(c, line, 0, 10)[k].index
    ensures Above(c, Select(c, line, 0, 10)[k].index, i)
  {
    ChosenIs(c, line, i);
    var sel := Select(c, line, 0, 10);
    var j :| 0 <= j < |sel| && sel[j] == SpriteAt(c, i);
    assert Covers(c.gbmode, sel[k], sel[j]);
  }

  /** The winner that the priority rule speaks of. */
  lemma WinnerOf(c: Config, line: nat, sel: seq<Sprite>, prio: PrioType, p: nat, bg: Pixel, px: Pixel, j: nat)
    returns (k: nat)
    requires p < SCREEN_W && Selection(c, line, sel) && ByPriority(c, line, sel, prio, p, bg, px)
    requires j < |sel| && SpriteDot(c, line, sel[j], prio, p).Some?
    ensures Wins(c, line, sel, prio, p, k) && SpriteDot(c, line, sel[k], prio, p) == Some(px)
  {
    k :| 0 <= k < |sel| && Wins(c, line, sel, prio, p, k) && Some(px) == SpriteDot(c, line, sel[k], prio, p);
  }

  /** It is one of the forty entries. */
  lemma TopOf(c: Config, line: nat, prio: PrioType, p: nat, bg: Pixel, px: Pixel, i: nat) returns (top: nat)
    requires p < SCREEN_W && i < 40 && DotOf(c, line, prio, p, i).Some?
    requires ByPriority(c, line, Select(c, line, 0, 10), prio, p, bg, px)
    ensures top < 40 && DotOf(c, line, prio, p, top) == Some(px)
    ensures top != i ==> Above(c, top, i)
  {
    var sel := Select(c, line, 0, 10);
    ChosenIs(c, line, i);
    var j :| 0 <= j < |sel| && sel[j] == SpriteAt(c, i);
    var k := WinnerOf(c, line, sel, prio, p, bg, px, j);
    top := sel[k].index;
    assert sel[k] == SpriteAt(c, top);
    ChosenIs(c, line, top);
    if top != i { WinnerAbove(c, line, prio, p, k, i); }
  }

  /** Every other sprite showing in the column is below entry `i`. */
  predicate Uppermost(c: Config, line: nat, prio: PrioType, p: nat, i: nat)
    requires p < SCREEN_W && i < 40
  {
    forall k :: 0 <= k < 40 && k != i && DotOf(c, line, prio, p, k).Some? ==> Above(c, i, k)
  }

  /** Of the first ten sprites on a line, the dot seen in a column is that of the uppermost showing there. */
  lemma TopSprite(c: Config, line: nat, winy: int, p: nat, i: nat)
    requires p < SCREEN_W && i < 40 && c.spriteOn
    requires DotOf(c, line, BgPixel(c, line, winy, p).1, p, i).Some?
    requires Uppermost(c, line, BgPixel(c, line, winy, p).1, p, i)
    ensures DotOf(c, line, BgPixel(c, line, winy, p).1, p, i) == Some(RowPixel(c, line, winy, p))
  {
    var (bg, prio) := BgPixel(c, line, winy, p);
    PriorityRule(c, line, winy, p);
    var top := TopOf(c, line, prio, p, bg, RowPixel(c, line, winy, p), i);
  }

  /** Where none shows, and everywhere with sprites switched off, the background is seen. */
  lemma NoSpriteShows(c: Config, line: nat, winy: int, p: nat)
    requires p < SCREEN_W
    requires c.spriteOn ==> forall k :: 0 <= k < 40 ==> DotOf(c, line, BgPixel(c, line, winy, p).1, p, k) == None
    ensures RowPixel(c, line, winy, p) == BgPixel(c, line, winy, p).0
  {
    if c.spriteOn {
      var sel, prio := Select(c, line, 0, 10), BgPixel(c, line, winy, p).1;
      PriorityRule(c, line, winy, p);
      forall j | 0 <= j < |sel|
        ensures SpriteDot(c, line, sel[j], prio, p) == None
      {
        ChosenIs(c, line, sel[j].index);
        assert DotOf(c, line, prio, p, sel[j].index) == None;
      }
    }
  }

  // ---- Background and window ----

  /** Cell `column`, `row` of a tile map, counted from the start of VRAM. */
  function CellAt(tilemap: Tilemap, row: nat, column: nat): (a: nat)
    requires row < 32 && column < 32
    ensures a < 0x2000
  {
    tilemap - 0x8000 + 32 * row + column
  }

  /** Its attributes. */
  function FlagsAt(c: Config, cell: nat): byte
    requires cell < 0x2000
  {
    if c.gbmode == Color then c.vram[0x2000 + cell] else 0
  }

  /** Where row `y` of its tile lies in its VRAM bank: tiles are numbered from 0x8000, or as signed bytes from 0x9000. A
      flip turns the rows over. */
  function TileRowAt(c: Config, cell: nat, y: nat): (a: nat)
    requires cell < 0x2000 && y < 8
    ensures a + 1 < 0x2000
  {
    var number: int := c.vram[cell];
    var tile := if c.tilebase == 0x8000 || number >= 128 then number else number + 256;
    16 * tile + 2 * (if Bit(FlagsAt(c, cell), 6) then 7 - y else y)
  }

  predicate MapRowIs(c: Config, cell: nat, y: nat, r: TileRow)
    requires cell < 0x2000 && y < 8
  {
    var a := TileRowAt(c, cell, y) + if Bit(FlagsAt(c, cell), 3) then 0x2000 else 0;
    Spells(c.vram[a], c.vram[a + 1], r)
  }

  lemma CellAgrees(c: Config, cell: nat, y: nat)
    requires cell < 0x2000 && y < 8
    ensures BgFlags(c, 0x8000 + cell) == FlagsAt(c, cell)
    ensures var a := BgTileRow(c, 0x8000 + cell, y);
            a % 0x2000 == TileRowAt(c, cell, y) && (a + 1) % 0x2000 == TileRowAt(c, cell, y) + 1
  {
    InBank(cell);
    InBank(TileRowAt(c, cell, y));
    InBank(TileRowAt(c, cell, y) + 1);
    assert BgTileRow(c, 0x8000 + cell, y) == 0x8000 + TileRowAt(c, cell, y);
  }

  /** Dot `x` from the left in row `y` of a map cell has the colour number that the row spells there, from right to
      left when the cell is flipped. */
  lemma MapColourIs(c: Config, cell: nat, y: nat, x: nat, r: TileRow)
    requires cell < 0x2000 && y < 8 && x < 8 && MapRowIs(c, cell, y, r)
    ensures BgColour(c, 0x8000 + cell, y, x) == r[if Bit(FlagsAt(c, cell), 5) then 7 - x else x]
  {
    var a := BgTileRow(c, 0x8000 + cell, y);
    CellAgrees(c, cell, y);
    ColourAt(BgByte(c, FlagsAt(c, cell), a), BgByte(c, FlagsAt(c, cell), a + 1), r,
             if Bit(FlagsAt(c, cell), 5) then 7 - x else x);
  }

  /** A colour number of the map, in its palette, and how it ranks against sprites. */
  function MapPaint(c: Config, flags: byte, col: nat): (Pixel, PrioType)
    requires col < 4
  {
    var n: int := flags % 8;
    (if c.gbmode == Color then Rgb(c.cbgpal[n][col], 4 * n + col) else Grey(c.palb[col], 64 + col),
     if col == 0 then Color0 else if flags >= 0x80 then PrioFlag else Normal)
  }

  /** Position `high`, `low` on a ring of 32 tiles of 8 dots. */
  lemma OnRing(v: nat, turns: nat, high: nat, low: nat)
    requires high < 32 && low < 8 && v == 256 * turns + 8 * high + low
    ensures v / 8 % 32 == high && v % 8 == low && v % 256 / 8 % 32 == high && v % 256 % 8 == low
  {
    assert v / 8 == 32 * turns + high;
    assert v % 256 == 8 * high + low;
  }

  /** A dot of a map cell. */
  lemma MapDotIs(c: Config, tilemap: Tilemap, row: nat, column: nat, y: nat, x: nat, r: TileRow)
    requires row < 32 && column < 32 && y < 8 && x < 8 && MapRowIs(c, CellAt(tilemap, row, column), y, r)
    ensures var flags := FlagsAt(c, CellAt(tilemap, row, column));
            BgDot(c, Spot(tilemap, row, column, y, x)) == MapPaint(c, flags, r[if Bit(flags, 5) then 7 - x else x])
  {
    var cell := CellAt(tilemap, row, column);
    CellAgrees(c, cell, y);
    MapColourIs(c, cell, y, x, r);
    PaintAgrees(c, FlagsAt(c, cell), r[if Bit(FlagsAt(c, cell), 5) then 7 - x else x]);
    assert tilemap + row * 32 + column == 0x8000 + cell;
  }

  lemma PaintAgrees(c: Config, flags: byte, col: nat)
    requires col < 4
    ensures BgPaint(c, flags, col) == MapPaint(c, flags, col)
  {
  }

  /** The window, where it shows, is its map from the top left corner on, from screen column WX - 7 on. */
  lemma WindowShows(c: Config, line: nat, winy: nat, p: nat, row: nat, column: nat, y: nat, x: nat, r: TileRow,
                    turns: nat)
    requires p < SCREEN_W && row < 32 && column < 32 && y < 8 && x < 8
    requires p + 7 == c.winx + 8 * column + x && winy == 256 * turns + 8 * row + y
    requires MapRowIs(c, CellAt(c.winTilemap, row, column), y, r)
    ensures var flags := FlagsAt(c, CellAt(c.winTilemap, row, column));
            BgPixel(c, line, winy, p) == MapPaint(c, flags, r[if Bit(flags, 5) then 7 - x else x])
  {
    OnRing(winy, turns, row, y);
    OnRing(p + 7 - c.winx, 0, column, x);
    assert SpotAt(c, line, winy, p) == Some(Spot(c.winTilemap, row, column, y, x));
    MapDotIs(c, c.winTilemap, row, column, y, x, r);
  }

  /** Elsewhere the background shows: its map, scrolled by SCX and SCY, round its 256 by 256 dots. */
  lemma BackgroundShows(c: Config, line: nat, winy: int, p: nat, row: nat, column: nat, y: nat, x: nat, r: TileRow,
                        across: nat, down: nat)
    requires p < SCREEN_W && row < 32 && column < 32 && y < 8 && x < 8
    requires winy < 0 || p + 7 < c.winx
    requires c.gbmode == Color || c.lcdc0
    requires c.scx + p == 256 * across + 8 * column + x && c.scy + line == 256 * down + 8 * row + y
    requires MapRowIs(c, CellAt(c.bgTilemap, row, column), y, r)
    ensures var flags := FlagsAt(c, CellAt(c.bgTilemap, row, column));
            BgPixel(c, line, winy, p) == MapPaint(c, flags, r[if Bit(flags, 5) then 7 - x else x])
  {
    OnRing(c.scx + p, across, column, x);
    OnRing(c.scy + line, down, row, y);
    assert SpotAt(c, line, winy, p) == Some(Spot(c.bgTilemap, row, column, y, x));
    MapDotIs(c, c.bgTilemap, row, column, y, x, r);
  }

  /** With neither, the line is white, and no sprite goes behind it. */
  lemma NothingShows(c: Config, line: nat, winy: int, p: nat)
    requires p < SCREEN_W && (winy < 0 || p + 7 < c.winx) && c.gbmode != Color && !c.lcdc0
    ensures BgPixel(c, line, winy, p) == (Pixel(255, 255, 255, 0), Normal)
  {
  }

  /** Every dot of the screen is some dot of the background. */
  lemma BackgroundCovers(c: Config, line: nat, p: nat)
    returns (row: nat, column: nat, y: nat, x: nat, across: nat, down: nat)
    ensures row < 32 && column < 32 && y < 8 && x < 8
    ensures c.scx + p == 256 * across + 8 * column + x && c.scy + line == 256 * down + 8 * row + y
  {
    var h, v: nat := c.scx + p, c.scy + line;
    row, column, y, x, across, down := v / 8 % 32, h / 8 % 32, v % 8, h % 8, h / 256, v / 256;
  }

  // ---- Colours ----

  /** Colour correction of five-bit shades never overflows a byte, and leaves grey grey. */
  lemma ColoursCorrected(s: Shade, pal: byte)
    requires s.r < 32 && s.g < 32 && s.b < 32
    ensures var px := Rgb(s, pal);
            && 0 <= 13 * s.r + 2 * s.g + s.b - 2 * px.r < 2 && px.g == 6 * s.g + 2 * s.b
            && 0 <= 3 * s.r + 2 * s.g + 11 * s.b - 2 * px.b < 2 && px.pal == pal
    ensures s.r == s.g == s.b ==> Rgb(s, pal) == Pixel(8 * s.r, 8 * s.r, 8 * s.r, pal)
  {
    var r: nat, g: nat, b: nat := s.r, s.g, s.b;
    HalvedByte(r * 13 + g * 2 + b, Rgb(s, pal).r);
    SmallByte((g * 3 + b) * 2, Rgb(s, pal).g);
    HalvedByte(r * 3 + g * 2 + b * 11, Rgb(s, pal).b);
  }

  lemma HalvedByte(x: nat, y: nat)
    requires x < 0x200 && y == x / 2 % 0x100
    ensures 0 <= x - 2 * y < 2
  {
  }

  lemma SmallByte(x: nat, y: nat)
    requires x < 0x100 && y == x % 0x100
    ensures y == x
  {
  }
}
