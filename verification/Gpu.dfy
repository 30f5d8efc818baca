/** The picture unit of kernel/src/gameboy/gpu.rs with its frame buffers in place, proved against `Ppu`. */
module Gpu {
  import opened Batch
  import opened Common
  import opened Video
  import opened Clock
  import opened Ppu
  import opened VramDma

  class Gpu {
    var regs: Config             // registers, VRAM and OAM: what do_cycle only reads
    var vramHigh: bool           // VRAM bank 1 is selected for the bus
    var lcdOn: bool
    var mode: nat
    var modeclock: nat
    var line: nat
    var hblanking: bool
    var wyTrigger: bool
    var wyPos: int
    var interrupt: Interrupts
    var updated: bool
    var firstFrame: bool
    const data: array<byte>      // three bytes a pixel
    const palData: array<byte>
    const bgprio: array<PrioType>
    ghost var frame: Frame       // the two frame buffers, pixel by pixel

    ghost predicate Shown(l: nat, x: nat)
      requires data.Length == 3 * SCREEN_W * SCREEN_H && palData.Length == SCREEN_W * SCREEN_H
      requires l < SCREEN_H && x < SCREEN_W
      reads `frame, data, palData
    {
      var base := l * SCREEN_W * 3 + x * 3;
      frame[l][x] == Pixel(data[base], data[base + 1], data[base + 2], palData[l * SCREEN_W + x])
    }

    ghost predicate Valid()
      reads `frame, data, palData
    {
      && data != palData && bgprio.Length == SCREEN_W
      && data.Length == 3 * SCREEN_W * SCREEN_H && palData.Length == SCREEN_W * SCREEN_H
      && forall l, x :: 0 <= l < SCREEN_H && 0 <= x < SCREEN_W ==> Shown(l, x)
    }

    /** The buffers hold the frame row by row: dot x of line l has its colour at 480 * l + 3 * x and its palette index
        at 160 * l + x. */
    lemma Layout(l: nat, x: nat)
      requires Valid() && l < 144 && x < 160
      ensures data.Length == 69120 && palData.Length == 23040
      ensures var px := frame[l][x];
              && data[480 * l + 3 * x..480 * l + 3 * x + 3] == [px.r, px.g, px.b] && palData[160 * l + x] == px.pal
    {
      assert Shown(l, x);
    }

    ghost function Image(): Picture
      requires bgprio.Length == SCREEN_W
      reads `wyTrigger, `wyPos, `interrupt, `updated, `firstFrame, `frame, bgprio
    {
      Picture(wyTrigger, wyPos, interrupt, updated, firstFrame, frame, bgprio[..])
    }

    ghost function State(): Scan<Picture>
      requires bgprio.Length == SCREEN_W
      reads this, bgprio
    {
      Scan(mode, modeclock, line, hblanking, Image())
    }

    constructor (regs: Config)
      ensures Valid() && !lcdOn && this.regs == regs && UnitInv(Unit(lcdOn, regs, State()))
      ensures fresh(data) && fresh(palData) && fresh(bgprio)
    {
      this.regs, vramHigh := regs, false;
      lcdOn, mode, modeclock, line, hblanking := false, 0, 0, 0, false;
      wyTrigger, wyPos, interrupt, updated, firstFrame := false, -1, NO_INTERRUPT, false, false;
      data := new byte[3 * SCREEN_W * SCREEN_H](_ => 0);
      palData := new byte[SCREEN_W * SCREEN_H](_ => 0);
      bgprio := new PrioType[SCREEN_W](_ => Normal);
      frame := seq(SCREEN_H, _ => seq(SCREEN_W, _ => Pixel(0, 0, 0, 0)));
    }

    // ---- Drawing one line ----

    /** `setcolor` or `setrgb`, then `setpal`. */
    method SetPixel(x: nat, px: Pixel)
      requires Valid() && line < SCREEN_H && x < SCREEN_W
      modifies `frame, data, palData
      ensures Valid() && frame == old(frame)[line := old(frame)[line][x := px]]
    {
      var base := line * SCREEN_W * 3 + x * 3;
      data[base] := px.r;
      data[base + 1] := px.g;
      data[base + 2] := px.b;
      palData[line * SCREEN_W + x] := px.pal;
      frame := frame[line := frame[line][x := px]];
      forall l, j | 0 <= l < SCREEN_H && 0 <= j < SCREEN_W
        ensures Shown(l, j)
      {
        assert old(Shown(l, j));
      }
    }

    method ClearRow()
      requires Valid() && line < SCREEN_H
      modifies `frame, data, palData, bgprio
      ensures Valid() && frame == old(frame)[line := seq(SCREEN_W, _ => Grey(255, 0))]
      ensures forall p :: 0 <= p < SCREEN_W ==> bgprio[p] == Normal
    {
      for x := 0 to SCREEN_W
        invariant Valid() && frame == old(frame)[line := frame[line]]
        invariant forall p :: 0 <= p < x ==> frame[line][p] == Grey(255, 0) && bgprio[p] == Normal
      {
        SetPixel(x, Grey(255, 0));
        bgprio[x] := Normal;
      }
      assert frame[line] == seq(SCREEN_W, _ => Grey(255, 0));
    }

    /** Columns `0..n` of the row hold the background; the rest is still clear. */
    ghost predicate BgDrawn(winy: int, n: nat)
      requires bgprio.Length == SCREEN_W && line < SCREEN_H && n <= SCREEN_W
      reads this, bgprio
    {
      forall p :: 0 <= p < SCREEN_W ==>
        (frame[line][p], bgprio[p]) == if p < n then BgPixel(regs, line, winy, p) else (Grey(255, 0), Normal)
    }

    /** The body of the background loop. */
    method DrawDot(winy: int, x: nat)
      requires Valid() && line < SCREEN_H && x < SCREEN_W
      requires frame[line][x] == Grey(255, 0) && bgprio[x] == Normal
      modifies `frame, data, palData, bgprio
      ensures Valid() && frame == old(frame)[line := old(frame)[line][x := BgPixel(regs, line, winy, x).0]]
      ensures bgprio[..] == old(bgprio[..])[x := BgPixel(regs, line, winy, x).1]
    {
      var winx := x - regs.winx + 7;
      if winy >= 0 && winx >= 0 {
        var spot := Spot(regs.winTilemap, winy / 8 % 32, winx / 8, winy % 8, winx % 8);
        assert SpotAt(regs, line, winy, x) == Some(spot);
        DrawTileDot(x, spot);
      } else if DrawsBg(regs) {
        var bgx, bgy := regs.scx + x, (regs.scy + line) % 0x100;
        var spot := Spot(regs.bgTilemap, bgy / 8 % 32, bgx / 8 % 32, bgy % 8, bgx % 8);
        assert SpotAt(regs, line, winy, x) == Some(spot);
        DrawTileDot(x, spot);
      } else {
        assert frame[line] == frame[line][x := Grey(255, 0)];
      }
    }

    /** The rest of it: a dot of the tile in a map cell. */
    method DrawTileDot(x: nat, spot: Spot)
      requires Valid() && line < SCREEN_H && x < SCREEN_W && spot.pixely < 8 && spot.pixelx < 8
      modifies `frame, data, palData, bgprio
      ensures Valid() && frame == old(frame)[line := old(frame)[line][x := BgDot(regs, spot).0]]
      ensures bgprio[..] == old(bgprio[..])[x := BgDot(regs, spot).1]
    {
      var flags, colnr := TileColour(spot.tilemap + spot.tiley * 32 + spot.tilex, spot.pixely, spot.pixelx);
      PaintTileDot(x, flags, colnr);
    }

    method PaintTileDot(x: nat, flags: byte, colnr: nat)
      requires Valid() && line < SCREEN_H && x < SCREEN_W && colnr < 4
      modifies `frame, data, palData, bgprio
      ensures Valid() && frame == old(frame)[line := old(frame)[line][x := BgPaint(regs, flags, colnr).0]]
      ensures bgprio[..] == old(bgprio[..])[x := BgPaint(regs, flags, colnr).1]
    {
      bgprio[x] := if colnr == 0 then Color0 else if Bit(flags, 7) then PrioFlag else Normal;
      if regs.gbmode == Color {
        var palnr := flags % 8;
        SetPixel(x, Rgb(regs.cbgpal[palnr][colnr], palnr * 4 + colnr));
      } else {
        SetPixel(x, Grey(regs.palb[colnr], 64 + colnr));
      }
    }

    /** The attributes of a map cell and the colour number of a dot of its tile. */
    method TileColour(cell: nat, pixely: nat, pixelx: nat) returns (flags: byte, colnr: nat)
      requires pixely < 8 && pixelx < 8
      ensures flags == BgFlags(regs, cell) && colnr == BgColour(regs, cell, pixely, pixelx)
    {
      var tilenr: int := regs.vram[cell % 0x2000];
      flags := 0;
      if regs.gbmode == Color {
        flags := regs.vram[0x2000 + cell % 0x2000];
      }
      var number := if regs.tilebase == 0x8000 then tilenr
                    else (if tilenr < 0x80 then tilenr else tilenr - 0x100) + 128;
      var tileaddress := regs.tilebase + number * 16;
      var a0 := if Bit(flags, 6) then tileaddress + (14 - pixely * 2) else tileaddress + pixely * 2;
      var bank := if Bit(flags, 3) then 0x2000 else 0;
      var xbit := if Bit(flags, 5) then pixelx else 7 - pixelx;
      colnr := ColNr(regs.vram[bank + a0 % 0x2000], regs.vram[bank + (a0 + 1) % 0x2000], xbit);
    }

    method DrawBg()
      requires Valid() && line < SCREEN_H && BgDrawn(-1, 0)
      modifies `frame, `wyPos, data, palData, bgprio
      ensures Valid() && frame == old(frame)[line := frame[line]]
      ensures wyPos == if WindowOn(regs, old(Image())) then old(wyPos) + 1 else old(wyPos)
      ensures BgDrawn(if WindowOn(regs, old(Image())) then wyPos else -1, SCREEN_W)
    {
      var winy := -1;
      if regs.winOn && wyTrigger && regs.winx <= 166 {
        wyPos := wyPos + 1;
        winy := wyPos;
      }
      if winy < 0 && !DrawsBg(regs) {
        assert frame[line := frame[line]] == frame;
        return;
      }
      for x := 0 to SCREEN_W
        invariant Valid() && frame == old(frame)[line := frame[line]]
        invariant wyPos == if WindowOn(regs, old(Image())) then old(wyPos) + 1 else old(wyPos)
        invariant BgDrawn(winy, x)
      {
        DrawDot(winy, x);
      }
    }

    /** The row shows the sprites of `order` painted over `was`. */
    ghost predicate PaintedRow(order: seq<Sprite>, was: Row)
      requires bgprio.Length == SCREEN_W && line < SCREEN_H && Selection(regs, line, order)
      reads this, bgprio
    {
      forall p :: 0 <= p < SCREEN_W ==> frame[line][p] == Painted(regs, line, order, bgprio[p], p, was[p])
    }

    /** The body of the paint loop: the dots of one sprite. */
    method PaintSprite(sprite: Sprite)
      requires Valid() && line < SCREEN_H && sprite.index < 40 && OnLine(regs, line, sprite)
      modifies `frame, data, palData
      ensures Valid() && frame == old(frame)[line := frame[line]]
      ensures forall p :: 0 <= p < SCREEN_W ==>
                frame[line][p] == Over(SpriteDot(regs, line, sprite, bgprio[p], p), old(frame)[line][p])
    {
      if sprite.x < -7 || sprite.x >= SCREEN_W {
        return;
      }
      var flags, b1, b2 := SpriteRow(sprite);
      for x := 0 to 8
        invariant Valid() && frame == old(frame)[line := frame[line]]
        invariant forall p :: 0 <= p < SCREEN_W ==>
                    frame[line][p]
                    == if p < sprite.x + x then Over(SpriteDot(regs, line, sprite, bgprio[p], p), old(frame)[line][p])
                       else old(frame)[line][p]
      {
        var p := sprite.x + x;
        if p < 0 || p >= SCREEN_W {
          continue;
        }
        var colnr := ColNr(b1, b2, if Bit(flags, 5) then x else 7 - x);
        assert colnr == SpriteColour(regs, line, sprite, p);
        PaintDot(p, flags, colnr);
      }
    }

    /** The flags of a sprite and the two bytes of its tile row. */
    method SpriteRow(sprite: Sprite) returns (flags: byte, b1: byte, b2: byte)
      requires sprite.index < 40 && OnLine(regs, line, sprite)
      ensures flags == regs.voam[4 * sprite.index + 3]
      ensures var a := SpriteTileRow(regs, line, sprite);
              b1 == SpriteByte(regs, flags, a) && b2 == SpriteByte(regs, flags, a + 1)
    {
      var base := 4 * sprite.index;
      var number: int := regs.voam[base + 2];
      flags := regs.voam[base + 3];
      var tilenum := if regs.spriteSize == 16 then number - number % 2 else number;
      var tiley := if Bit(flags, 6) then regs.spriteSize - 1 - (line - sprite.y) else line - sprite.y;
      var tileaddress := 0x8000 + tilenum * 16 + tiley * 2;
      var bank := if Bit(flags, 3) && regs.gbmode == Color then 0x2000 else 0;
      b1, b2 := regs.vram[bank + tileaddress % 0x2000], regs.vram[bank + (tileaddress + 1) % 0x2000];
    }

    /** One dot of a sprite, unless it is transparent or the background hides it. */
    method PaintDot(p: nat, flags: byte, colnr: nat)
      requires Valid() && line < SCREEN_H && p < SCREEN_W && colnr < 4
      modifies `frame, data, palData
      ensures Valid()
      ensures frame == old(frame)[line := old(frame)[line][p :=
                         Over(SpritePixel(regs, flags, colnr, bgprio[p]), old(frame)[line][p])]]
    {
      assert frame[line][p := frame[line][p]] == frame[line];
      if colnr == 0 {
        return;
      }
      if regs.gbmode == Color {
        if regs.lcdc0 && (bgprio[p] == PrioFlag || (Bit(flags, 7) && bgprio[p] != Color0)) {
          return;
        }
        SetPixel(p, Rgb(regs.csprit[flags % 8][colnr], 32 + flags % 8 * 4 + colnr));
      } else {
        if Bit(flags, 7) && bgprio[p] != Color0 {
          return;
        }
        var usepal1 := Bit(flags, 4);
        SetPixel(p, Grey(if usepal1 then regs.pal1[colnr] else regs.pal0[colnr],
                         68 + (if usepal1 then 4 else 0) + colnr));
      }
    }

    /** The first ten sprites on the line. */
    method SelectSprites() returns (sprites: seq<Sprite>)
      ensures sprites == Select(regs, line, 0, 10)
    {
      sprites := [];
      for i := 0 to 40
        invariant |sprites| < 10
        invariant Select(regs, line, 0, 10) == sprites + Select(regs, line, i, 10 - |sprites|)
      {
        var sprite := SpriteAt(regs, i);
        if !OnLine(regs, line, sprite) {
          continue;
        }
        sprites := sprites + [sprite];
        if |sprites| >= 10 {
          break;
        }
      }
    }

    method DrawSprites()
      requires Valid() && line < SCREEN_H
      modifies `frame, data, palData
      ensures Valid() && frame == old(frame)[line := frame[line]]
      ensures if regs.spriteOn then PaintedRow(Order(regs, line), old(frame)[line]) else frame == old(frame)
    {
      if !regs.spriteOn {
        return;
      }
      var sprites := SortedSprites();
      PaintAll(sprites);
    }

    /** The first ten sprites on the line in the order they are painted. */
    method SortedSprites() returns (sprites: seq<Sprite>)
      ensures sprites == Order(regs, line)
    {
      sprites := SelectSprites();
      sprites := PaintOrder(regs.gbmode, sprites);
    }

    /** The paint loop. */
    method PaintAll(sprites: seq<Sprite>)
      requires Valid() && line < SCREEN_H && Selection(regs, line, sprites)
      modifies `frame, data, palData
      ensures Valid() && frame == old(frame)[line := frame[line]]
      ensures PaintedRow(sprites, old(frame)[line])
    {
      for k := 0 to |sprites|
        invariant Valid() && frame == old(frame)[line := frame[line]]
        invariant PaintedRow(sprites[..k], old(frame)[line])
      {
        PaintNext(sprites, k, old(frame)[line]);
      }
      assert sprites[..|sprites|] == sprites;
    }

    method PaintNext(sprites: seq<Sprite>, k: nat, ghost was: Row)
      requires Valid() && line < SCREEN_H && k < |sprites| && Selection(regs, line, sprites)
      requires PaintedRow(sprites[..k], was)
      modifies `frame, data, palData
      ensures Valid() && frame == old(frame)[line := frame[line]]
      ensures PaintedRow(sprites[..k + 1], was)
    {
      PaintSprite(sprites[k]);
      PaintOneMore(sprites, k);
    }

    lemma PaintOneMore(order: seq<Sprite>, k: nat)
      requires k < |order| && Selection(regs, line, order)
      ensures forall prio, p, bg :: 0 <= p < SCREEN_W ==>
                Painted(regs, line, order[..k + 1], prio, p, bg)
                == Over(SpriteDot(regs, line, order[k], prio, p), Painted(regs, line, order[..k], prio, p, bg))
    {
      assert order[..k + 1][..k] == order[..k];
    }

    method RedrawRow()
      requires Valid() && line < SCREEN_H
      modifies `frame, `wyPos, data, palData, bgprio
      ensures wyPos == if WindowOn(regs, old(Image())) then old(wyPos) + 1 else old(wyPos)
      ensures var winy := if WindowOn(regs, old(Image())) then wyPos else -1;
              && Valid() && frame == old(frame)[line := RenderRow(regs, line, winy)]
              && bgprio[..] == BgPrioRow(regs, line, winy)
    {
      ClearRow();
      DrawBg();
      ghost var winy := if WindowOn(regs, old(Image())) then wyPos else -1;
      ghost var bg := frame[line];
      DrawSprites();
      RowFinished(regs, line, winy, bg, bgprio[..], frame[line]);
    }

    method RenderScan()
      requires Valid() && line < SCREEN_H
      modifies `frame, `wyPos, data, palData, bgprio
      ensures Valid() && Image() == Ppu.RenderScan(regs, old(Image()), line)
    {
      if firstFrame {
        return;
      }
      RedrawRow();
    }

    // ---- The clock ----

    method CheckInterruptLyc()
      requires Valid()
      modifies `interrupt
      ensures Valid() && Image() == CheckLyc(regs, old(Image()), line)
    {
      if regs.lycInte && line == regs.lyc {
        interrupt := interrupt.(stat := true);
      }
    }

    /** The arms of `change_mode`; says whether the STAT interrupt of the mode is enabled. */
    method ModeArm(m: nat) returns (stat: bool)
      requires Valid() && (m == 0 ==> line < SCREEN_H)
      modifies `frame, `wyPos, `wyTrigger, `interrupt, `updated, `firstFrame, `hblanking, data, palData, bgprio
      ensures Valid() && hblanking == (old(hblanking) || m == 0)
      ensures Image() == ModeEffect(regs, old(Image()), line, m)
      ensures stat == StatEnabled(regs, m)
    {
      stat := false;
      if m == 0 {
        RenderScan();
        hblanking := true;
        stat := regs.m0Inte;
      } else if m == 1 {
        wyTrigger := false;
        interrupt := interrupt.(vblank := true);
        updated := true;
        firstFrame := false;
        stat := regs.m1Inte;
      } else if m == 2 {
        stat := regs.m2Inte;
      } else if m == 3 {
        if regs.winOn && !wyTrigger && line == regs.winy {
          wyTrigger := true;
          wyPos := -1;
        }
      }
    }

    method ChangeMode(m: nat)
      requires Valid() && (m == 0 ==> line < SCREEN_H)
      modifies `mode, `frame, `wyPos, `wyTrigger, `interrupt, `updated, `firstFrame, `hblanking, data, palData, bgprio
      ensures Valid() && State() == EnterMode(Reaction(regs), old(State()), m)
    {
      mode := m;
      var stat := ModeArm(m);
      if stat {
        interrupt := interrupt.(stat := true);
      }
    }

    /** The next line begins. */
    method BeginLine()
      requires Valid() && modeclock >= LINE_TICKS
      modifies `modeclock, `line, `interrupt
      ensures Valid() && State() == Clock.BeginLine(Reaction(regs), old(State()))
    {
      modeclock := modeclock - LINE_TICKS;
      line := (line + 1) % LINES;
      CheckInterruptLyc();
    }

    /** The clock has run past the end of the line. */
    method NextLine()
      requires Valid() && modeclock >= LINE_TICKS
      modifies `mode, `modeclock, `line, `hblanking, `wyTrigger, `wyPos, `interrupt, `updated, `firstFrame, `frame
      modifies data, palData, bgprio
      ensures Valid()
      ensures State() == Clock.NextLine(Reaction(regs), old(State()))
    {
      BeginLine();
      if line >= VISIBLE && mode != 1 {
        ChangeMode(1);
      }
    }

    /** Line and mode catch up with the clock. */
    method Settle()
      requires Valid()
      modifies `mode, `modeclock, `line, `hblanking, `wyTrigger, `wyPos, `interrupt, `updated, `firstFrame, `frame
      modifies data, palData, bgprio
      ensures Valid()
      ensures State() == Clock.Settle(Reaction(regs), old(State()))
    {
      if modeclock >= LINE_TICKS {
        NextLine();
      }
      if line < VISIBLE {
        FollowClock();
      }
    }

    /** One turn of the loop of `do_cycle`. */
    method Turn(curticks: nat)
      requires Valid()
      modifies `mode, `modeclock, `line, `hblanking, `wyTrigger, `wyPos, `interrupt, `updated, `firstFrame, `frame
      modifies data, palData, bgprio
      ensures Valid()
      ensures State() == Stride(Reaction(regs), old(State()), curticks)
    {
      ghost var was, act := State(), Reaction(regs);
      modeclock := modeclock + curticks;
      ghost var mid := State();
      assert mid == was.(modeclock := was.modeclock + curticks);
      Settle();
      assert State() == Clock.Settle(act, mid) == Stride(act, was, curticks);
    }

    /** On a visible line the mode follows the clock. */
    method FollowClock()
      requires Valid() && line < VISIBLE
      modifies `mode, `modeclock, `line, `hblanking, `wyTrigger, `wyPos, `interrupt, `updated, `firstFrame, `frame
      modifies data, palData, bgprio
      ensures Valid()
      ensures State() == Clock.FollowClock(Reaction(regs), old(State()))
    {
      if modeclock <= 80 {
        if mode != 2 {
          ChangeMode(2);
        }
      } else if modeclock <= 252 {
        if mode != 3 {
          ChangeMode(3);
        }
      } else if mode != 0 {
        ChangeMode(0);
      }
    }

    /** The loop of `do_cycle`. */
    method RunStrides(ticks: nat)
      requires Valid()
      modifies `mode, `modeclock, `line, `hblanking, `wyTrigger, `wyPos, `interrupt, `updated, `firstFrame, `frame
      modifies data, palData, bgprio
      ensures Valid()
      ensures State() == Strides(Stepper(Reaction(regs)), old(State()), ticks)
    {
      ghost var result := Strides(Stepper(Reaction(regs)), State(), ticks);
      var ticksleft := ticks;
      while ticksleft > 0
        invariant Valid()
        invariant Strides(Stepper(Reaction(regs)), State(), ticksleft) == result
      {
        var curticks := if ticksleft >= 80 then 80 else ticksleft;
        ticksleft := ticksleft - curticks;
        Turn(curticks);
      }
    }

    method DoCycle(ticks: nat)
      requires Valid()
      modifies `mode, `modeclock, `line, `hblanking, `wyTrigger, `wyPos, `interrupt, `updated, `firstFrame, `frame
      modifies data, palData, bgprio
      ensures Valid()
      ensures State() == if lcdOn then Clock.DoCycle(Reaction(regs), old(State()), ticks) else old(State())
    {
      if !lcdOn {
        return;
      }
      hblanking := false;
      RunStrides(ticks);
    }

    // ---- VRAM on the bus ----

    /** `rb` in the VRAM range. */
    method ReadVram(a: Address) returns (v: byte)
      requires InVram(a)
      ensures v == regs.vram[Cell(vramHigh, a)]
    {
      v := regs.vram[Cell(vramHigh, a)];
    }

    /** `wb` in the VRAM range and the unmapped range behind it. */
    method WriteVram(a: Address, v: byte)
      requires Valid()
      modifies `regs
      ensures Valid() && regs == old(regs).(vram := WriteByte(vramHigh, old(regs).vram, a, v))
    {
      if InVram(a) {
        regs := regs.(vram := regs.vram[Cell(vramHigh, a) := v]);
      }
    }

    // ---- The control register ----

    method ClearScreen()
      requires Valid()
      modifies `frame, `updated, data, palData
      ensures Valid() && frame == Blank() && updated
    {
      for i := 0 to data.Length
        invariant forall j :: 0 <= j < i ==> data[j] == 255
      {
        data[i] := 255;
      }
      for i := 0 to palData.Length
        invariant forall j :: 0 <= j < i ==> palData[j] == 0
        invariant forall j :: 0 <= j < data.Length ==> data[j] == 255
      {
        palData[i] := 0;
      }
      updated := true;
      frame := Blank();
    }

    /** The display goes off: the clock is parked and the screen cleared. */
    method SwitchOff()
      requires Valid()
      modifies this, data, palData
      ensures Valid() && regs == old(regs) && lcdOn == old(lcdOn) && vramHigh == old(vramHigh)
      ensures State() == Ppu.SwitchOff(old(State()))
    {
      modeclock := 0;
      line := 0;
      mode := 0;
      wyTrigger := false;
      firstFrame := true;
      ClearScreen();
    }

    /** A write to 0xFF40. */
    method WriteControl(v: byte)
      requires Valid()
      modifies this, data, palData, bgprio
      ensures Valid() && Unit(lcdOn, regs, State()) == WriteLcdc(old(Unit(lcdOn, regs, State())), v)
    {
      var wasOn := lcdOn;
      lcdOn := Bit(v, 7);
      regs := LcdcConfig(regs, v);
      if wasOn && !lcdOn {
        SwitchOff();
      }
      if !wasOn && lcdOn {
        ChangeMode(2);
        modeclock := 4;
      }
    }

    /** A read of 0xFF40. */
    method ReadControl() returns (v: nat)
      requires Valid()
      ensures v == LcdcValue(Unit(lcdOn, regs, State()))
    {
      v := if lcdOn then 0x80 else 0;
      v := v + if regs.winTilemap == 0x9C00 then 0x40 else 0;
      v := v + if regs.winOn then 0x20 else 0;
      v := v + if regs.tilebase == 0x8000 then 0x10 else 0;
      v := v + if regs.bgTilemap == 0x9C00 then 0x08 else 0;
      v := v + if regs.spriteSize == 16 then 0x04 else 0;
      v := v + if regs.spriteOn then 0x02 else 0;
      v := v + if regs.lcdc0 then 0x01 else 0;
    }

    /** A read of 0xFF41. */
    method ReadStat() returns (v: nat)
      requires Valid()
      ensures v == StatValue(Unit(lcdOn, regs, State()))
    {
      v := 0x80 + if regs.lycInte then 0x40 else 0;
      v := v + if regs.m2Inte then 0x20 else 0;
      v := v + if regs.m1Inte then 0x10 else 0;
      v := v + if regs.m0Inte then 0x08 else 0;
      v := v + if line == regs.lyc then 0x04 else 0;
      v := v + mode;
    }

    /** A write to 0xFF41. */
    method WriteStat(v: byte)
      requires Valid()
      modifies `regs
      ensures Valid() && Unit(lcdOn, regs, State()) == Ppu.Step(old(Unit(lcdOn, regs, State())), Ppu.Stat(v))
    {
      regs := regs.(lycInte := Bit(v, 6), m2Inte := Bit(v, 5), m1Inte := Bit(v, 4), m0Inte := Bit(v, 3));
    }

    /** A write to 0xFF45, which compares at once. */
    method WriteLyc(v: byte)
      requires Valid()
      modifies `regs, `interrupt
      ensures Valid() && Unit(lcdOn, regs, State()) == Ppu.Step(old(Unit(lcdOn, regs, State())), Ppu.Lyc(v))
    {
      regs := regs.(lyc := v);
      CheckInterruptLyc();
    }
  }
}
