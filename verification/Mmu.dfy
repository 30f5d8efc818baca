/** The VRAM DMA engine and `do_cycle` of kernel/src/gameboy/mmu.rs in place, proved against `VramDma` and `Bus`. */
module Mmu {
  import opened Common
  import opened Video
  import opened Ppu
  import opened VramDma
  import opened Gpu
  import Timer
  import DmaPace
  import Bus
  import Serial

  class Mmu {
    const gpu: Gpu
    const timer: Timer.Timer
    const serial: Serial.Serial
    var keypad: Interrupts    // interrupts the keypad has pending
    var intf: Interrupts      // interrupts requested
    var mem: Mem              // what the bus reads outside VRAM
    var double: bool          // gbspeed
    var hdma: seq<byte>
    var hdmaSrc: Address
    var hdmaDst: Address
    var hdmaLen: byte
    var hdmaStatus: DmaType

    ghost predicate Valid()
      reads `hdma, gpu`frame, gpu.data, gpu.palData
    {
      |hdma| == 4 && hdma[2] < 0x20 && gpu.Valid()
    }

    ghost function State(): Dma
      requires |hdma| == 4 && hdma[2] < 0x20
      reads this
    {
      Dma(hdma[0], hdma[1], hdma[2], hdma[3], hdmaSrc, hdmaDst, hdmaLen, hdmaStatus)
    }

    constructor (gpu: Gpu, timer: Timer.Timer, serial: Serial.Serial, mem: Mem)
      requires gpu.Valid()
      ensures Valid() && this.gpu == gpu && this.timer == timer && this.serial == serial && this.mem == mem
      ensures intf == keypad == NO_INTERRUPT
      ensures State() == Dma(0, 0, 0, 0, 0, 0, 0xFF, NoDMA)
    {
      this.gpu, this.timer, this.serial, this.mem, double := gpu, timer, serial, mem, false;
      intf, keypad := NO_INTERRUPT, NO_INTERRUPT;
      hdma, hdmaSrc, hdmaDst, hdmaLen, hdmaStatus := [0, 0, 0, 0], 0, 0, 0xFF, NoDMA;
    }

    method ReadLength() returns (v: byte)
      requires Valid()
      ensures v == VramDma.ReadLength(State())
    {
      v := hdmaLen;
      if hdmaStatus == NoDMA && v < 0x80 {
        v := v + 0x80;
      }
    }

    /** `hdma_write` to register 0xFF51 + k. */
    method WriteReg(k: nat, v: byte)
      requires Valid()
      modifies `hdma, `hdmaSrc, `hdmaDst, `hdmaLen, `hdmaStatus
      ensures Valid() && State() == VramDma.WriteReg(old(State()), k, v)
    {
      if k == 0 {
        hdma := hdma[0 := v];
      } else if k == 1 {
        hdma := hdma[1 := v - v % 0x10];
      } else if k == 2 {
        hdma := hdma[2 := v % 0x20];
      } else if k == 3 {
        hdma := hdma[3 := v - v % 0x10];
      } else if k == 4 {
        if hdmaStatus == HDMA {
          if v < 0x80 {
            hdmaStatus := NoDMA;
          }
          return;
        }
        var srcHigh: int, dstHigh: int := hdma[0], hdma[2];
        hdmaSrc := srcHigh * 0x100 + hdma[1];
        hdmaDst := 0x8000 + dstHigh * 0x100 + hdma[3];
        hdmaLen := v % 0x80;
        hdmaStatus := if v >= 0x80 then HDMA else GDMA;
      }
    }

    /** The 16 byte moves of `perform_vramdma_row`. */
    method CopyRow()
      requires Valid()
      modifies gpu`regs
      ensures Valid()
      ensures gpu.regs == old(gpu.regs).(vram := Copier(mem, gpu.vramHigh)(old(gpu.regs).vram, hdmaSrc, hdmaDst))
    {
      for j := 0 to 0x10
        invariant Valid()
        invariant gpu.regs == old(gpu.regs).(vram := CopyBytes(mem, gpu.vramHigh, old(gpu.regs).vram, hdmaSrc, hdmaDst,
                                                               hdmaSrc + j))
      {
        CopyByte(j);
      }
    }

    method CopyByte(j: nat)
      requires Valid()
      modifies gpu`regs
      ensures Valid()
      ensures gpu.regs == old(gpu.regs).(vram :=
                WriteByte(gpu.vramHigh, old(gpu.regs).vram, (hdmaDst + j) % 0x1_0000,
                          ReadByte(mem, gpu.vramHigh, old(gpu.regs).vram, (hdmaSrc + j) % 0x1_0000)))
    {
      var a := (hdmaSrc + j) % 0x1_0000;
      var b: byte;
      if InVram(a) {
        b := gpu.ReadVram(a);
      } else {
        b := mem[a];
      }
      gpu.WriteVram((hdmaDst + j) % 0x1_0000, b);
    }

    method PerformRow()
      requires Valid()
      modifies `hdmaSrc, `hdmaDst, `hdmaLen, gpu`regs
      ensures Valid() && State() == NextRow(old(State()))
      ensures gpu.regs == old(gpu.regs).(vram := Copier(mem, gpu.vramHigh)(old(gpu.regs).vram, old(hdmaSrc), old(hdmaDst)))
    {
      CopyRow();
      hdmaSrc := (hdmaSrc + 0x10) % 0x1_0000;
      hdmaDst := (hdmaDst + 0x10) % 0x1_0000;
      hdmaLen := if hdmaLen == 0 then 0x7F else hdmaLen - 1;
    }

    method PerformGdma() returns (ticks: nat)
      requires Valid() && hdmaStatus == GDMA
      modifies `hdmaSrc, `hdmaDst, `hdmaLen, `hdmaStatus, gpu`regs
      ensures Valid()
      ensures (State(), gpu.regs.vram, ticks)
              == Perform(old(State()), Copier(mem, gpu.vramHigh), old(gpu.regs).vram, gpu.hblanking)
      ensures gpu.regs == old(gpu.regs).(vram := gpu.regs.vram)
    {
      var len := hdmaLen + 1;
      for i := 0 to len
        invariant Valid() && gpu.regs == old(gpu.regs).(vram := gpu.regs.vram)
        invariant (State(), gpu.regs.vram) == Rows(old(State()), Copier(mem, gpu.vramHigh), old(gpu.regs).vram, i)
      {
        PerformRow();
      }
      hdmaStatus := NoDMA;
      ticks := len * 8;
    }

    method PerformHdma() returns (ticks: nat)
      requires Valid() && hdmaStatus == HDMA
      modifies `hdmaSrc, `hdmaDst, `hdmaLen, `hdmaStatus, gpu`regs
      ensures Valid()
      ensures (State(), gpu.regs.vram, ticks)
              == Perform(old(State()), Copier(mem, gpu.vramHigh), old(gpu.regs).vram, gpu.hblanking)
      ensures gpu.regs == old(gpu.regs).(vram := gpu.regs.vram)
    {
      if !gpu.hblanking {
        return 0;
      }
      PerformRow();
      if hdmaLen == 0x7F {
        hdmaStatus := NoDMA;
      }
      ticks := 8;
    }

    method PerformVramDma() returns (ticks: nat)
      requires Valid()
      modifies `hdmaSrc, `hdmaDst, `hdmaLen, `hdmaStatus, gpu`regs
      ensures Valid()
      ensures (State(), gpu.regs.vram, ticks)
              == Perform(old(State()), Copier(mem, gpu.vramHigh), old(gpu.regs).vram, gpu.hblanking)
      ensures gpu.regs == old(gpu.regs).(vram := gpu.regs.vram)
    {
      match hdmaStatus {
        case NoDMA => ticks := 0;
        case GDMA => ticks := PerformGdma();
        case HDMA => ticks := PerformHdma();
      }
    }

    // ---- Everything the unit drives ----

    ghost function Whole(): Bus.State
      requires |hdma| == 4 && hdma[2] < 0x20 && gpu.bgprio.Length == SCREEN_W
      reads this, gpu, gpu.bgprio, timer, serial
    {
      Bus.State(DmaPace.Machine(State(), gpu.regs.vram, gpu.State()), timer.State(), keypad, serial.State(), intf)
    }

    ghost function Setup(): Bus.Setup
      reads this, gpu
    {
      Bus.Setup(gpu.lcdOn, gpu.regs, Copier(mem, gpu.vramHigh), double)
    }

    /** The timer's turn; its interrupts are handed over. */
    method RunTimer(cputicks: nat)
      requires Valid()
      modifies timer, `intf
      ensures Valid() && Whole() == Bus.TimerTurn(old(Whole()), cputicks)
    {
      timer.DoCycle(cputicks);
      ghost var t := timer.State();
      intf := Both(intf, timer.interrupt);
      timer.interrupt := NO_INTERRUPT;
      assert timer.State() == t.(interrupt := NO_INTERRUPT);
    }

    /** What the keypad has pending is handed over. */
    method RunKeypad()
      requires Valid()
      modifies `keypad, `intf
      ensures Valid() && Whole() == Bus.KeypadTurn(old(Whole()))
    {
      intf := Both(intf, keypad);
      keypad := NO_INTERRUPT;
    }

    /** The turns of the DMA, the timer and the keypad. */
    method RunDma(ticks: nat) returns (gputicks: nat)
      requires Valid()
      modifies `hdmaSrc, `hdmaDst, `hdmaLen, `hdmaStatus, `intf, `keypad, timer, gpu`regs
      ensures Valid() && gpu.regs == old(gpu.regs).(vram := gpu.regs.vram)
      ensures (Whole(), gputicks) == Bus.DmaTurn(old(Whole()), old(Setup()), ticks)
    {
      ghost var was := Whole();
      var cpudivider := DmaPace.Divider(double);
      var vramticks := PerformVramDma();
      assert Whole() == was.(m := was.m.(dma := State(), vram := gpu.regs.vram));
      RunTimer(ticks + vramticks * cpudivider);
      RunKeypad();
      gputicks := ticks / cpudivider + vramticks;
    }

    /** The picture unit's turn; its interrupts are handed over. */
    method RunGpu(gputicks: nat, ghost c: Bus.Setup)
      requires Valid() && c.on == gpu.lcdOn && c.regs.(vram := gpu.regs.vram) == gpu.regs
      modifies `intf, gpu, gpu.data, gpu.palData, gpu.bgprio
      ensures Valid() && gpu.regs == old(gpu.regs) && gpu.lcdOn == old(gpu.lcdOn) && gpu.vramHigh == old(gpu.vramHigh)
      ensures Whole() == Bus.GpuTurn(old(Whole()), c, gputicks)
    {
      assert ReactionWith(c.regs)(gpu.regs.vram) == Reaction(gpu.regs);
      gpu.DoCycle(gputicks);
      ghost var s := gpu.State();
      intf := Both(intf, gpu.interrupt);
      gpu.interrupt := NO_INTERRUPT;
      assert gpu.State() == Acked(s);
    }

    /** The serial port's turn; its interrupts are handed over. */
    method RunSerial(gputicks: nat)
      requires Valid()
      modifies serial, `intf
      ensures Valid() && Whole() == Bus.SerialTurn(old(Whole()), gputicks)
    {
      serial.DoCycle(gputicks);
      ghost var s := serial.State();
      intf := Both(intf, serial.interrupt);
      serial.interrupt := NO_INTERRUPT;
      assert serial.State() == s.(interrupt := NO_INTERRUPT);
    }

    /** `do_cycle`. With the display off the DMA still runs, by the HBlank flag
        as it was left. */
    method DoCycle(ticks: nat) returns (gputicks: nat)
      requires Valid()
      modifies `hdmaSrc, `hdmaDst, `hdmaLen, `hdmaStatus, `intf, `keypad
      modifies timer, serial, gpu, gpu.data, gpu.palData, gpu.bgprio
      ensures Valid() && gpu.regs == old(gpu.regs).(vram := gpu.regs.vram)
      ensures gpu.lcdOn == old(gpu.lcdOn) && gpu.vramHigh == old(gpu.vramHigh)
      ensures (Whole(), gputicks) == Bus.DoCycle(old(Whole()), old(Setup()), ticks)
    {
      gputicks := RunDma(ticks);
      RunGpu(gputicks, old(Setup()));
      RunSerial(gputicks);
    }
  }
}
