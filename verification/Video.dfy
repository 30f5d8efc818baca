/** The picture of kernel/src/gameboy/gpu.rs as values: what one scanline looks like, given the registers,
    video memory and object memory. */
module Video {
  import opened Common

  const SCREEN_W := 160
  const SCREEN_H := 144
  const VRAM_SIZE := 0x4000
  const VOAM_SIZE := 0xA0

  datatype GbMode = Classic | Color | ColorAsClassic

  datatype PrioType = Color0 | PrioFlag | Normal

  /** One pixel of the two frame buffers: its three RGB bytes and its palette index. */
  datatype Pixel = Pixel(r: byte, g: byte, b: byte, pal: byte)

  /** A colour of a colour palette, five bits a channel. */
  datatype Shade = Shade(r: byte, g: byte, b: byte)

  type Greys = p: seq<byte> | |p| == 4 witness [0, 0, 0, 0]
  type Shades = p: seq<Shade> | |p| == 4 witness seq(4, _ => Shade(0, 0, 0))
  type Palettes = p: seq<Shades> | |p| == 8 witness seq(8, _ => seq(4, _ => Shade(0, 0, 0)))
  type Vram = m: seq<byte> | |m| == VRAM_SIZE witness seq(VRAM_SIZE, _ => 0)
  type Voam = m: seq<byte> | |m| == VOAM_SIZE witness seq(VOAM_SIZE, _ => 0)
  type Row = r: seq<Pixel> | |r| == SCREEN_W witness seq(SCREEN_W, _ => Pixel(0, 0, 0, 0))
  type Frame = f: seq<Row> | |f| == SCREEN_H witness seq(SCREEN_H, _ => seq(SCREEN_W, _ => Pixel(0, 0, 0, 0)))
  type PrioRow = r: seq<PrioType> | |r| == SCREEN_W witness seq(SCREEN_W, _ => Normal)
  type Tilemap = a: nat | a == 0x9800 || a == 0x9C00 witness 0x9C00
  type Tilebase = a: nat | a == 0x8000 || a == 0x8800 witness 0x8000
  type SpriteSize = n: nat | n == 8 || n == 16 witness 8

  /** Everything `do_cycle` only reads. */
  datatype Config = Config(
    lyc: byte, winTilemap: Tilemap, winOn: bool, tilebase: Tilebase, bgTilemap: Tilemap, spriteSize: SpriteSize,
    spriteOn: bool, lcdc0: bool, lycInte: bool, m0Inte: bool, m1Inte: bool, m2Inte: bool,
    scy: byte, scx: byte, winy: byte, winx: byte,
    palb: Greys, pal0: Greys, pal1: Greys, cbgpal: Palettes, csprit: Palettes,
    gbmode: GbMode, vram: Vram, voam: Voam)

  function Vram0(c: Config, a: nat): byte {
    c.vram[a % 0x2000]
  }

  function Vram1(c: Config, a: nat): byte {
    c.vram[0x2000 + a % 0x2000]
  }

  function Grey(color: byte, pal: byte): Pixel {
    Pixel(color, color, color, pal)
  }

  /** `setrgb`: colour correction, truncated to bytes. */
  function Rgb(col: Shade, pal: byte): Pixel {
    var r: int, g: int, b: int := col.r, col.g, col.b;
    Pixel((r * 13 + g * 2 + b) / 2 % 0x100, (g * 3 + b) * 2 % 0x100, (r * 3 + g * 2 + b * 11) / 2 % 0x100, pal)
  }

  /** The two-bit colour number at bit `k` of a tile row. */
  function ColNr(b1: byte, b2: byte, k: nat): nat
    requires k < 8
    ensures ColNr(b1, b2, k) < 4
  {
    (if Bit(b1, k) then 1 else 0) + (if Bit(b2, k) then 2 else 0)
  }

  // ---- Background and window ----

  datatype Spot = Spot(tilemap: nat, tiley: nat, tilex: nat, pixely: nat, pixelx: nat)

  predicate DrawsBg(c: Config) {
    c.gbmode == Color || c.lcdc0
  }

  /** Where the background layer of column `x` comes from; `winy` is the window line, or -1. */
  function SpotAt(c: Config, line: nat, winy: int, x: nat): (r: Option<Spot>)
    requires x < SCREEN_W
    ensures r.Some? ==> r.value.pixely < 8 && r.value.pixelx < 8
  {
    var winx := 7 - c.winx + x;
    if winy >= 0 && winx >= 0 then
      Some(Spot(c.winTilemap, winy / 8 % 32, winx / 8, winy % 8, winx % 8))
    else if DrawsBg(c) then
      var bgx, bgy := c.scx + x, (c.scy + line) % 0x100;
      Some(Spot(c.bgTilemap, bgy / 8 % 32, bgx / 8 % 32, bgy % 8, bgx % 8))
    else None
  }

  /** The attributes of a map cell; without colour hardware there are none. */
  function BgFlags(c: Config, cell: nat): byte {
    if c.gbmode == Color then Vram1(c, cell) else 0
  }

  /** The address of row `pixely` of the tile in a map cell. */
  function BgTileRow(c: Config, cell: nat, pixely: nat): nat
    requires pixely < 8
  {
    var tilenr: int := Vram0(c, cell);
    var tile := c.tilebase
                + (if c.tilebase == 0x8000 then tilenr else if tilenr < 0x80 then tilenr + 128 else tilenr - 128) * 16;
    tile + (if Bit(BgFlags(c, cell), 6) then 14 - pixely * 2 else pixely * 2)
  }

  /** A byte of the bank that a cell with these attributes takes its tile from. */
  function BgByte(c: Config, flags: byte, a: nat): byte {
    if Bit(flags, 3) then Vram1(c, a) else Vram0(c, a)
  }

  function BgColour(c: Config, cell: nat, pixely: nat, pixelx: nat): (col: nat)
    requires pixely < 8 && pixelx < 8
    ensures col < 4
  {
    var flags, a0 := BgFlags(c, cell), BgTileRow(c, cell, pixely);
    ColNr(BgByte(c, flags, a0), BgByte(c, flags, a0 + 1), if Bit(flags, 5) then pixelx else 7 - pixelx)
  }

  /** What a colour number of a cell with these attributes looks like, and how it ranks against sprites. */
  function BgPaint(c: Config, flags: byte, colnr: nat): (Pixel, PrioType)
    requires colnr < 4
  {
    var palnr: int := flags % 8;
    (if c.gbmode == Color then Rgb(c.cbgpal[palnr][colnr], palnr * 4 + colnr) else Grey(c.palb[colnr], 64 + colnr),
     if colnr == 0 then Color0 else if Bit(flags, 7) then PrioFlag else Normal)
  }

  function BgDot(c: Config, s: Spot): (Pixel, PrioType)
    requires s.pixely < 8 && s.pixelx < 8
  {
    var cell := s.tilemap + s.tiley * 32 + s.tilex;
    BgPaint(c, BgFlags(c, cell), BgColour(c, cell, s.pixely, s.pixelx))
  }

  function BgPixel(c: Config, line: nat, winy: int, x: nat): (Pixel, PrioType)
    requires x < SCREEN_W
  {
    match SpotAt(c, line, winy, x)
    case None => (Grey(255, 0), Normal)
    case Some(s) => BgDot(c, s)
  }

  // ---- Sprites ----

  datatype Sprite = Sprite(x: int, y: int, index: nat)

  function SpriteAt(c: Config, i: nat): Sprite
    requires i < 40
  {
    var x: int, y: int := c.voam[4 * i + 1], c.voam[4 * i];
    Sprite(x - 8, y - 16, i)
  }

  predicate OnLine(c: Config, line: nat, s: Sprite) {
    s.y <= line < s.y + c.spriteSize
  }

  /** The first `room` sprites from entry `i` on that touch the line. */
  function Select(c: Config, line: nat, i: nat, room: nat): (r: seq<Sprite>)
    requires i <= 40
    ensures forall k :: 0 <= k < |r| ==> i <= r[k].index < 40 && r[k] == SpriteAt(c, r[k].index) && OnLine(c, line, r[k])
    ensures forall j, k :: 0 <= j < k < |r| ==> r[j].index < r[k].index
    decreases |c.voam| - 4 * i
  {
    if i == 40 || room == 0 then []
    else if OnLine(c, line, SpriteAt(c, i)) then [SpriteAt(c, i)] + Select(c, line, i + 1, room - 1)
    else Select(c, line, i + 1, room)
  }

  /** `Select` misses an entry on the line only when it is full of entries that come before it. */
  lemma {:induction false} SelectTakesFirst(c: Config, line: nat, i: nat, room: nat, e: nat)
    requires i <= e < 40 && OnLine(c, line, SpriteAt(c, e))
    ensures var r := Select(c, line, i, room);
            SpriteAt(c, e) in r || (|r| == room && forall k :: 0 <= k < |r| ==> r[k].index < e)
    decreases 40 - i
  {
    if room > 0 && i < e {
      SelectTakesFirst(c, line, i + 1, if OnLine(c, line, SpriteAt(c, i)) then room - 1 else room, e);
    }
  }

  /** The VRAM address of the tile row that a sprite shows on the line. */
  function SpriteTileRow(c: Config, line: nat, s: Sprite): nat
    requires s.index < 40 && OnLine(c, line, s)
  {
    var number: int := c.voam[4 * s.index + 2];
    var tilenum := if c.spriteSize == 16 then number - number % 2 else number;
    var tiley := if Bit(c.voam[4 * s.index + 3], 6) then c.spriteSize - 1 - (line - s.y) else line - s.y;
    0x8000 + tilenum * 16 + tiley * 2
  }

  /** A byte of the bank that sprites with these flags take their tiles from. */
  function SpriteByte(c: Config, flags: byte, a: nat): byte {
    if Bit(flags, 3) && c.gbmode == Color then Vram1(c, a) else Vram0(c, a)
  }

  /** The colour number in column `p`. */
  function SpriteColour(c: Config, line: nat, s: Sprite, p: nat): (col: nat)
    requires s.index < 40 && OnLine(c, line, s) && s.x <= p < s.x + 8
    ensures col < 4
  {
    var flags, tile := c.voam[4 * s.index + 3], SpriteTileRow(c, line, s);
    ColNr(SpriteByte(c, flags, tile), SpriteByte(c, flags, tile + 1), if Bit(flags, 5) then p - s.x else 7 - (p - s.x))
  }

  /** What a colour number of a sprite with these flags puts over a background of priority `prio`. */
  function SpritePixel(c: Config, flags: byte, colnr: nat, prio: PrioType): Option<Pixel>
    requires colnr < 4
  {
    if colnr == 0 then None
    else if c.gbmode == Color then
      if c.lcdc0 && (prio == PrioFlag || (Bit(flags, 7) && prio != Color0)) then None
      else Some(Rgb(c.csprit[flags % 8][colnr], 32 + flags % 8 * 4 + colnr))
    else if Bit(flags, 7) && prio != Color0 then None
    else if Bit(flags, 4) then Some(Grey(c.pal1[colnr], 72 + colnr))
    else Some(Grey(c.pal0[colnr], 68 + colnr))
  }

  /** The dot a sprite puts in column `p` over a background of priority `prio`, if any. */
  function SpriteDot(c: Config, line: nat, s: Sprite, prio: PrioType, p: nat): Option<Pixel>
    requires s.index < 40 && OnLine(c, line, s) && p < SCREEN_W
  {
    if !(s.x <= p < s.x + 8) then None
    else SpritePixel(c, c.voam[4 * s.index + 3], SpriteColour(c, line, s, p), prio)
  }

  /** Drawing priority: `a` covers `b`. By OAM index on colour hardware, else by x, then index. */
  predicate Covers(mode: GbMode, a: Sprite, b: Sprite) {
    if mode == Color then a.index < b.index
    else a.x < b.x || (a.x == b.x && a.index < b.index)
  }

  /** The comparison sort of the source: the covering sprite goes behind the covered one, so that it is
      painted later. */
  function Insert(mode: GbMode, s: seq<Sprite>, x: Sprite): (r: seq<Sprite>)
    ensures multiset(r) == multiset(s) + multiset{x}
  {
    if s == [] || Covers(mode, x, s[|s| - 1]) then s + [x]
    else
      assert s == s[..|s| - 1] + [s[|s| - 1]];
      Insert(mode, s[..|s| - 1], x) + [s[|s| - 1]]
  }

  function PaintOrder(mode: GbMode, s: seq<Sprite>): (r: seq<Sprite>)
    ensures multiset(r) == multiset(s)
  {
    if s == [] then []
    else
      assert s == s[..|s| - 1] + [s[|s| - 1]];
      Insert(mode, PaintOrder(mode, s[..|s| - 1]), s[|s| - 1])
  }

  /** What is left in column `p` after painting the sprites in order over `bg`. */
  function Painted(c: Config, line: nat, order: seq<Sprite>, prio: PrioType, p: nat, bg: Pixel): Pixel
    requires p < SCREEN_W
    requires forall k :: 0 <= k < |order| ==> order[k].index < 40 && OnLine(c, line, order[k])
  {
    if order == [] then bg
    else
      Over(SpriteDot(c, line, order[|order| - 1], prio, p), Painted(c, line, order[..|order| - 1], prio, p, bg))
  }

  function Over(dot: Option<Pixel>, below: Pixel): Pixel {
    if dot.Some? then dot.value else below
  }

  lemma SameSprites(s: seq<Sprite>, t: seq<Sprite>)
    requires multiset(s) == multiset(t)
    ensures forall k :: 0 <= k < |s| ==> s[k] in t
    ensures forall k :: 0 <= k < |t| ==> t[k] in s
  {
    forall k | 0 <= k < |s|
      ensures s[k] in t
    {
      assert s[k] in multiset(s);
    }
    forall k | 0 <= k < |t|
      ensures t[k] in s
    {
      assert t[k] in multiset(t);
    }
  }

  function Order(c: Config, line: nat): (r: seq<Sprite>)
    ensures forall k :: 0 <= k < |r| ==> r[k].index < 40 && OnLine(c, line, r[k])
  {
    var sel := Select(c, line, 0, 10);
    var r := PaintOrder(c.gbmode, sel);
    SameSprites(sel, r);
    r
  }

  /** The finished pixel of column `p`. */
  function RowPixel(c: Config, line: nat, winy: int, p: nat): Pixel
    requires p < SCREEN_W
  {
    var (bg, prio) := BgPixel(c, line, winy, p);
    if c.spriteOn then Painted(c, line, Order(c, line), prio, p, bg) else bg
  }

  // ---- The priority rule ----

  /** Sprite `k` of the selection shows a dot in column `p`, and covers every other one that does. */
  predicate Wins(c: Config, line: nat, sel: seq<Sprite>, prio: PrioType, p: nat, k: nat)
    requires p < SCREEN_W
    requires forall k :: 0 <= k < |sel| ==> sel[k].index < 40 && OnLine(c, line, sel[k])
  {
    && k < |sel|
    && SpriteDot(c, line, sel[k], prio, p).Some?
    && forall j :: 0 <= j < |sel| && j != k && SpriteDot(c, line, sel[j], prio, p).Some? ==>
         Covers(c.gbmode, sel[k], sel[j])
  }

  ghost predicate Sorted(mode: GbMode, s: seq<Sprite>) {
    forall i, j :: 0 <= i < j < |s| ==> Covers(mode, s[j], s[i])
  }

  ghost predicate DistinctIndices(s: seq<Sprite>) {
    forall i, j :: 0 <= i < j < |s| ==> s[i].index != s[j].index
  }

  lemma {:induction false} InsertSorted(mode: GbMode, s: seq<Sprite>, x: Sprite)
    requires Sorted(mode, s) && forall k :: 0 <= k < |s| ==> s[k].index != x.index
    ensures Sorted(mode, Insert(mode, s, x))
  {
    if s != [] && !Covers(mode, x, s[|s| - 1]) {
      var init, last := s[..|s| - 1], s[|s| - 1];
      InsertSorted(mode, init, x);
      var r := Insert(mode, init, x);
      forall k | 0 <= k < |r|
        ensures Covers(mode, last, r[k])
      {
        assert r[k] in multiset(r);
        assert r[k] == x || r[k] in init;
      }
    }
  }

  lemma {:induction false} PaintOrderSorted(mode: GbMode, s: seq<Sprite>)
    requires DistinctIndices(s)
    ensures Sorted(mode, PaintOrder(mode, s))
  {
    if s != [] {
      var init, last := s[..|s| - 1], s[|s| - 1];
      PaintOrderSorted(mode, init);
      var r := PaintOrder(mode, init);
      forall k | 0 <= k < |r|
        ensures r[k].index != last.index
      {
        assert r[k] in multiset(r) && r[k] in init;
      }
      InsertSorted(mode, r, last);
    }
  }

  predicate Selection(c: Config, line: nat, sel: seq<Sprite>) {
    forall k :: 0 <= k < |sel| ==> sel[k].index < 40 && OnLine(c, line, sel[k])
  }

  /** Painting in order leaves, in each column, the dot of the last sprite that has one there. */
  lemma {:induction false} PaintedIsLast(c: Config, line: nat, order: seq<Sprite>, prio: PrioType, p: nat, bg: Pixel,
                                         i: nat)
    requires p < SCREEN_W && Selection(c, line, order)
    requires i < |order| && SpriteDot(c, line, order[i], prio, p).Some?
    requires forall j :: i < j < |order| ==> SpriteDot(c, line, order[j], prio, p).None?
    ensures Some(Painted(c, line, order, prio, p, bg)) == SpriteDot(c, line, order[i], prio, p)
  {
    if i < |order| - 1 {
      PaintedIsLast(c, line, order[..|order| - 1], prio, p, bg, i);
    }
  }

  lemma {:induction false} NonePainted(c: Config, line: nat, order: seq<Sprite>, prio: PrioType, p: nat, bg: Pixel)
    requires p < SCREEN_W && Selection(c, line, order)
    requires forall j :: 0 <= j < |order| ==> SpriteDot(c, line, order[j], prio, p).None?
    ensures Painted(c, line, order, prio, p, bg) == bg
  {
    if order != [] {
      NonePainted(c, line, order[..|order| - 1], prio, p, bg);
    }
  }

  lemma {:induction false} LastShowing(c: Config, line: nat, order: seq<Sprite>, prio: PrioType, p: nat, n: nat)
    returns (i: nat)
    requires p < SCREEN_W && n <= |order|
    requires forall k :: 0 <= k < |order| ==> order[k].index < 40 && OnLine(c, line, order[k])
    requires exists i :: 0 <= i < n && SpriteDot(c, line, order[i], prio, p).Some?
    ensures i < n && SpriteDot(c, line, order[i], prio, p).Some?
    ensures forall j :: i < j < n ==> SpriteDot(c, line, order[j], prio, p).None?
  {
    if SpriteDot(c, line, order[n - 1], prio, p).Some? {
      i := n - 1;
    } else {
      i := LastShowing(c, line, order, prio, p, n - 1);
    }
  }

  /** In a paint order of the selection, the winning sprite is the last one showing. */
  lemma WinnerPainted(c: Config, line: nat, sel: seq<Sprite>, order: seq<Sprite>, prio: PrioType, p: nat, bg: Pixel,
                      k: nat)
    requires p < SCREEN_W && Selection(c, line, sel) && Selection(c, line, order)
    requires multiset(sel) == multiset(order) && Sorted(c.gbmode, order)
    requires k < |sel| && Wins(c, line, sel, prio, p, k)
    ensures Some(Painted(c, line, order, prio, p, bg)) == SpriteDot(c, line, sel[k], prio, p)
  {
    SameSprites(sel, order);
    var i :| 0 <= i < |order| && order[i] == sel[k];
    forall j | i < j < |order|
      ensures SpriteDot(c, line, order[j], prio, p).None?
    {
      assert Covers(c.gbmode, order[j], order[i]);
      var j0 :| 0 <= j0 < |sel| && sel[j0] == order[j];
    }
    PaintedIsLast(c, line, order, prio, p, bg, i);
  }

  lemma WinnerExists(c: Config, line: nat, sel: seq<Sprite>, order: seq<Sprite>, prio: PrioType, p: nat, j: nat)
    returns (k: nat)
    requires p < SCREEN_W && Selection(c, line, sel) && Selection(c, line, order)
    requires multiset(sel) == multiset(order) && Sorted(c.gbmode, order) && DistinctIndices(sel)
    requires j < |sel| && SpriteDot(c, line, sel[j], prio, p).Some?
    ensures k < |sel| && Wins(c, line, sel, prio, p, k)
  {
    SameSprites(sel, order);
    assert sel[j] in order;
    var i := LastShowing(c, line, order, prio, p, |order|);
    assert order[i] in sel;
    k :| 0 <= k < |sel| && sel[k] == order[i];
    forall h | 0 <= h < |sel| && h != k && SpriteDot(c, line, sel[h], prio, p).Some?
      ensures Covers(c.gbmode, sel[k], sel[h])
    {
      assert sel[h] in order && sel[h] != order[i];
      LastCovers(c, line, order, prio, p, i, sel[h]);
    }
  }

  /** The last sprite showing covers every other one that does. */
  lemma LastCovers(c: Config, line: nat, order: seq<Sprite>, prio: PrioType, p: nat, i: nat, s: Sprite)
    requires p < SCREEN_W && Selection(c, line, order) && Sorted(c.gbmode, order) && i < |order|
    requires forall j :: i < j < |order| ==> SpriteDot(c, line, order[j], prio, p).None?
    requires s in order && s != order[i] && SpriteDot(c, line, s, prio, p).Some?
    ensures Covers(c.gbmode, order[i], s)
  {
    var j :| 0 <= j < |order| && order[j] == s;
  }

  /** The priority rule for column `p`: some sprite of the selection that shows there covers all others
      showing there, it is unique, and its dot is the pixel; if none shows, the pixel is the background. */
  ghost predicate ByPriority(c: Config, line: nat, sel: seq<Sprite>, prio: PrioType, p: nat, bg: Pixel, px: Pixel)
    requires p < SCREEN_W && Selection(c, line, sel)
  {
    if exists j :: 0 <= j < |sel| && SpriteDot(c, line, sel[j], prio, p).Some? then
      exists k :: 0 <= k < |sel| && Wins(c, line, sel, prio, p, k)
        && Some(px) == SpriteDot(c, line, sel[k], prio, p)
        && forall h :: 0 <= h < |sel| && Wins(c, line, sel, prio, p, h) ==> h == k
    else px == bg
  }

  lemma WinnerUnique(c: Config, line: nat, sel: seq<Sprite>, prio: PrioType, p: nat, k: nat)
    requires p < SCREEN_W && Selection(c, line, sel) && DistinctIndices(sel) && Wins(c, line, sel, prio, p, k)
    ensures forall h :: 0 <= h < |sel| && Wins(c, line, sel, prio, p, h) ==> h == k
  {
  }

  lemma PaintedByPriority(c: Config, line: nat, sel: seq<Sprite>, order: seq<Sprite>, prio: PrioType, p: nat, bg: Pixel)
    requires p < SCREEN_W && Selection(c, line, sel) && Selection(c, line, order)
    requires multiset(sel) == multiset(order) && Sorted(c.gbmode, order) && DistinctIndices(sel)
    ensures ByPriority(c, line, sel, prio, p, bg, Painted(c, line, order, prio, p, bg))
  {
    if j: nat :| j < |sel| && SpriteDot(c, line, sel[j], prio, p).Some? {
      var k := WinnerExists(c, line, sel, order, prio, p, j);
      WinnerPainted(c, line, sel, order, prio, p, bg, k);
      WinnerUnique(c, line, sel, prio, p, k);
    } else {
      SameSprites(sel, order);
      NonePainted(c, line, order, prio, p, bg);
    }
  }

  /** Sort-then-paint is the priority rule over the first ten OAM entries on the line: least (x, OAM index)
      first, or least OAM index on colour hardware. */
  lemma PriorityRule(c: Config, line: nat, winy: int, p: nat)
    requires p < SCREEN_W && c.spriteOn
    ensures var (bg, prio) := BgPixel(c, line, winy, p);
            ByPriority(c, line, Select(c, line, 0, 10), prio, p, bg, RowPixel(c, line, winy, p))
  {
    var sel := Select(c, line, 0, 10);
    PaintOrderSorted(c.gbmode, sel);
    var (bg, prio) := BgPixel(c, line, winy, p);
    PaintedByPriority(c, line, sel, Order(c, line), prio, p, bg);
  }

  // ---- A whole scanline ----

  function RenderRow(c: Config, line: nat, winy: int): Row {
    seq(SCREEN_W, p requires 0 <= p < SCREEN_W => RowPixel(c, line, winy, p))
  }

  function BgPrioRow(c: Config, line: nat, winy: int): PrioRow {
    seq(SCREEN_W, p requires 0 <= p < SCREEN_W => BgPixel(c, line, winy, p).1)
  }

  /** The sprites painted over the background make the row. */
  lemma RowFinished(c: Config, line: nat, winy: int, bg: Row, prio: PrioRow, row: Row)
    requires forall p :: 0 <= p < SCREEN_W ==> (bg[p], prio[p]) == BgPixel(c, line, winy, p)
    requires if c.spriteOn then forall p :: 0 <= p < SCREEN_W ==> row[p] == Painted(c, line, Order(c, line), prio[p], p, bg[p])
             else row == bg
    ensures row == RenderRow(c, line, winy) && prio == BgPrioRow(c, line, winy)
  {
    forall p | 0 <= p < SCREEN_W
      ensures row[p] == RowPixel(c, line, winy, p) && prio[p] == BgPixel(c, line, winy, p).1
    {
      assert (bg[p], prio[p]) == BgPixel(c, line, winy, p);
    }
  }
}
