/** The MBC1 cartridge bank controller of kernel/src/gameboy/mbc/mbc1.rs. */
module Mbc1 {
  import opened Common

  const ROM_BANK := 0x4000
  const RAM_BANK := 0x2000

  /** The banking registers; `rombanks` and `rambanks` come from the cartridge header. */
  datatype Banks = Banks(ramOn: bool, mode: byte, rombank: nat, rambank: nat, rombanks: nat, rambanks: nat)

  function Max1(n: nat): nat {
    if n == 0 then 1 else n
  }

  /** `x & 0x60`, `x & 0x1F` and `x & 0xE0` of a bank number. */
  function High2(x: nat): nat {
    x / 0x20 % 4 * 0x20
  }

  function Low5(x: nat): nat {
    x % 0x20
  }

  function High3(x: nat): nat {
    x / 0x20 % 8 * 0x20
  }

  /** `writerom`. */
  function Write(b: Banks, addr: nat, value: byte): Banks {
    if addr < 0x2000 then b.(ramOn := value % 0x10 == 0xA)
    else if addr < 0x4000 then
      var lower := if Low5(value) == 0 then 1 else Low5(value);
      b.(rombank := (High2(b.rombank) + lower) % Max1(b.rombanks))
    else if addr < 0x6000 then
      b.(rombank := if b.rombanks > 0x20 then Low5(b.rombank) + value % 4 % Max1(b.rombanks / 0x20) * 0x20 else b.rombank,
         rambank := if b.rambanks > 1 then value % 4 else b.rambank)
    else if addr < 0x8000 then b.(mode := value % 2)
    else b
  }

  function Start(rombanks: nat, rambanks: nat): Banks {
    Banks(false, 0, 1, 0, rombanks, rambanks)
  }

  function Writes(b: Banks, ws: seq<(nat, byte)>): Banks {
    if ws == [] then b else Write(Writes(b, ws[..|ws| - 1]), ws[|ws| - 1].0, ws[|ws| - 1].1)
  }

  /** The ROM offset that `readrom` looks at. */
  function RomIndex(b: Banks, addr: nat): nat {
    (if addr >= 0x4000 then b.rombank else if b.mode == 0 then 0 else High3(b.rombank)) * ROM_BANK + addr % ROM_BANK
  }

  /** Where an external RAM address lands in a RAM of this size, when RAM is enabled and present. */
  function RamIndex(b: Banks, addr: nat, size: nat): Option<nat> {
    var idx := (if b.mode == 1 then b.rambank else 0) * RAM_BANK + addr % RAM_BANK;
    if b.ramOn && b.rambanks != 0 && idx < size then Some(idx) else None
  }

  /** The bank counts of `rom_banks`: 2 << v for header codes up to 8, and 0 for the others. */
  predicate RomBanks(n: nat) {
    n in [0, 2, 4, 8, 16, 32, 64, 128, 256, 512]
  }

  /** The banks that can be selected; an unknown header code leaves banks 0 and 1. */
  function Selectable(n: nat): nat {
    if n == 0 then 2 else n
  }

  /** The switchable bank exists, and with 32 banks or more it is never a multiple of 32. */
  predicate BankInv(b: Banks) {
    && b.rombank < Selectable(b.rombanks) && b.rombank < 0x80
    && (b.rombanks >= 0x20 ==> b.rombank % 0x20 != 0)
  }

  lemma WriteKeeps(b: Banks, addr: nat, value: byte)
    requires RomBanks(b.rombanks) && BankInv(b)
    ensures BankInv(Write(b, addr, value))
    ensures Write(b, addr, value).rombanks == b.rombanks && Write(b, addr, value).rambanks == b.rambanks
  {
    if 0x2000 <= addr < 0x4000 {
      LowerBits(b.rombank, if Low5(value) == 0 then 1 else Low5(value), b.rombanks);
    } else if 0x4000 <= addr < 0x6000 && b.rombanks > 0x20 {
      UpperBits(b.rombank, value % 4, b.rombanks);
    }
  }

  lemma LowerBits(bank: nat, lower: nat, n: nat)
    requires RomBanks(n) && 0 < lower < 0x20
    ensures var r := (High2(bank) + lower) % Max1(n);
            r < Selectable(n) && r < 0x80 && (n >= 0x20 ==> r % 0x20 != 0)
  {
  }

  lemma UpperBits(bank: nat, upper: nat, n: nat)
    requires RomBanks(n) && n > 0x20 && upper < 4 && bank % 0x20 != 0
    ensures var r := Low5(bank) + upper % Max1(n / 0x20) * 0x20;
            r < n && r < 0x80 && r % 0x20 != 0
  {
  }

  /** After any sequence of register writes the selected bank exists, every ROM read lies below
      the selectable banks * 16 KiB, and with 32 banks or more the switchable bank is never a multiple of 32. */
  lemma {:induction false} BanksInRange(rombanks: nat, rambanks: nat, ws: seq<(nat, byte)>, addr: nat)
    requires RomBanks(rombanks) && addr < 0x8000
    ensures var b := Writes(Start(rombanks, rambanks), ws);
            && BankInv(b) && b.rombanks == rombanks && b.rambanks == rambanks
            && RomIndex(b, addr) < Selectable(rombanks) * ROM_BANK
  {
    if ws != [] {
      var init := ws[..|ws| - 1];
      BanksInRange(rombanks, rambanks, init, addr);
      WriteKeeps(Writes(Start(rombanks, rambanks), init), ws[|ws| - 1].0, ws[|ws| - 1].1);
    }
    IndexInRange(Writes(Start(rombanks, rambanks), ws), addr);
  }

  lemma IndexInRange(b: Banks, addr: nat)
    requires BankInv(b) && addr < 0x8000
    ensures RomIndex(b, addr) < Selectable(b.rombanks) * ROM_BANK
  {
  }

  /** The multiple-of-32 rule needs the 32 banks: with fewer, selecting bank `rombanks` maps bank 0 into the
      switchable window. */
  lemma BankZeroReachableIff(rombanks: nat, rambanks: nat)
    requires RomBanks(rombanks)
    ensures (exists ws :: Writes(Start(rombanks, rambanks), ws).rombank == 0) <==> rombanks < 0x20
  {
    if rombanks < 0x20 {
      var ws: seq<(nat, byte)> := [(0x2000, rombanks)];
      assert Writes(Start(rombanks, rambanks), ws[..0]) == Start(rombanks, rambanks);
      assert Writes(Start(rombanks, rambanks), ws).rombank == 0;
    } else {
      forall ws
        ensures Writes(Start(rombanks, rambanks), ws).rombank != 0
      {
        BanksInRange(rombanks, rambanks, ws, 0);
      }
    }
  }

  // ---- Which bank is shown ----

  /** The last value written to an address from `low` to below `high`. */
  function Last(ws: seq<(nat, byte)>, low: nat, high: nat): Option<byte> {
    if ws == [] then None
    else if low <= ws[|ws| - 1].0 < high then Some(ws[|ws| - 1].1)
    else Last(ws[..|ws| - 1], low, high)
  }

  /** The five lower bits of the bank: never 0. */
  function LowChosen(ws: seq<(nat, byte)>): nat {
    match Last(ws, 0x2000, 0x4000)
    case None => 1
    case Some(v) => if v % 32 == 0 then 1 else v % 32
  }

  /** Its two upper bits. */
  function HighChosen(ws: seq<(nat, byte)>): nat {
    match Last(ws, 0x4000, 0x6000)
    case None => 0
    case Some(v) => v % 4
  }

  /** The switchable bank: what was chosen last, as far as there are banks. */
  function Chosen(rombanks: nat, ws: seq<(nat, byte)>): nat {
    if rombanks > 32 then 32 * (HighChosen(ws) % (rombanks / 32)) + LowChosen(ws)
    else if rombanks == 0 then (if Last(ws, 0x2000, 0x4000) == None then 1 else 0)
    else LowChosen(ws) % rombanks
  }

  /** The registers follow from the last write to each of the four address ranges, whatever else was written. */
  ghost predicate FollowsLast(b: Banks, ws: seq<(nat, byte)>) {
    && b.rombank == Chosen(b.rombanks, ws)
    && b.rambank == (if b.rambanks > 1 then HighChosen(ws) else 0)
    && (b.mode == 1 <==> Last(ws, 0x6000, 0x8000).Some? && Last(ws, 0x6000, 0x8000).value % 2 == 1)
    && (b.ramOn <==> Last(ws, 0, 0x2000).Some? && Last(ws, 0, 0x2000).value % 16 == 10)
  }

  lemma {:induction false} LastWritesSelect(rombanks: nat, rambanks: nat, ws: seq<(nat, byte)>)
    requires RomBanks(rombanks)
    ensures var b := Writes(Start(rombanks, rambanks), ws);
            FollowsLast(b, ws) && b.mode < 2 && b.rombanks == rombanks && b.rambanks == rambanks
  {
    if ws != [] {
      var init := ws[..|ws| - 1];
      LastWritesSelect(rombanks, rambanks, init);
      LastWriteSelects(Writes(Start(rombanks, rambanks), init), init, ws[|ws| - 1]);
      assert ws == init + [ws[|ws| - 1]];
    }
  }

  lemma LastOn(ws: seq<(nat, byte)>, w: (nat, byte), low: nat, high: nat)
    ensures Last(ws + [w], low, high) == if low <= w.0 < high then Some(w.1) else Last(ws, low, high)
  {
    assert (ws + [w])[..|ws|] == ws;
  }

  lemma LastWriteSelects(b: Banks, ws: seq<(nat, byte)>, w: (nat, byte))
    requires RomBanks(b.rombanks) && FollowsLast(b, ws) && b.mode < 2
    ensures FollowsLast(Write(b, w.0, w.1), ws + [w]) && Write(b, w.0, w.1).mode < 2
  {
    LastOn(ws, w, 0, 0x2000);
    LastOn(ws, w, 0x2000, 0x4000);
    LastOn(ws, w, 0x4000, 0x6000);
    LastOn(ws, w, 0x6000, 0x8000);
    BankSelects(b, ws, w);
  }

  lemma BankSelects(b: Banks, ws: seq<(nat, byte)>, w: (nat, byte))
    requires RomBanks(b.rombanks) && b.rombank == Chosen(b.rombanks, ws)
    ensures Write(b, w.0, w.1).rombank == Chosen(b.rombanks, ws + [w])
  {
    var all := ws + [w];
    LastOn(ws, w, 0x2000, 0x4000);
    LastOn(ws, w, 0x4000, 0x6000);
    if 0x2000 <= w.0 < 0x4000 {
      LowSelects(b.rombanks, HighChosen(ws), LowChosen(ws), LowChosen(all), b.rombank);
    } else if 0x4000 <= w.0 < 0x6000 {
      HighSelects(b.rombanks, HighChosen(ws), LowChosen(ws), HighChosen(all));
    }
  }

  lemma LowSelects(n: nat, high: nat, low: nat, low': nat, bank: nat)
    requires RomBanks(n) && high < 4 && 0 < low < 32 && 0 < low' < 32
    requires if n > 32 then bank == 32 * (high % (n / 32)) + low else bank < 32
    ensures (High2(bank) + low') % Max1(n)
            == if n > 32 then 32 * (high % (n / 32)) + low' else if n == 0 then 0 else low' % n
  {
  }

  lemma HighSelects(n: nat, high: nat, low: nat, high': nat)
    requires RomBanks(n) && high < 4 && 0 < low < 32 && high' < 4
    ensures n > 32 ==>
              Low5(32 * (high % (n / 32)) + low) + high' % Max1(n / 0x20) * 0x20 == 32 * (high' % (n / 32)) + low
  {
  }

  /** What the processor sees at an address: below 0x4000 the first bank of the 32 that the upper bits chose, in mode 0
      bank 0; from there on the switchable bank. */
  lemma RomShown(rombanks: nat, rambanks: nat, ws: seq<(nat, byte)>, addr: nat)
    requires RomBanks(rombanks) && addr < 0x8000
    ensures var b := Writes(Start(rombanks, rambanks), ws);
            RomIndex(b, addr) == if addr >= 0x4000 then Chosen(rombanks, ws) * 16384 + (addr - 0x4000)
                                 else if b.mode == 0 || rombanks <= 32 then addr
                                 else 32 * (HighChosen(ws) % (rombanks / 32)) * 16384 + addr
  {
    LastWritesSelect(rombanks, rambanks, ws);
    FirstBank(rombanks, HighChosen(ws), LowChosen(ws), Chosen(rombanks, ws));
    Offset(addr);
  }

  lemma FirstBank(n: nat, high: nat, low: nat, bank: nat)
    requires RomBanks(n) && high < 4 && 0 < low < 32
    requires if n > 32 then bank == 32 * (high % (n / 32)) + low else bank < 32
    ensures High3(bank) == if n > 32 then 32 * (high % (n / 32)) else 0
  {
  }

  lemma Offset(addr: nat)
    requires addr < 0x8000
    ensures addr % ROM_BANK == if addr < 0x4000 then addr else addr - 0x4000
  {
  }

  /** The cell of external RAM behind an address: in mode 1 in the bank chosen, else in bank 0; none while RAM is
      off. */
  lemma RamShown(rombanks: nat, rambanks: nat, ws: seq<(nat, byte)>, addr: nat, size: nat)
    requires RomBanks(rombanks) && 0xA000 <= addr < 0xC000
    ensures var b := Writes(Start(rombanks, rambanks), ws);
            var i := (if b.mode == 1 && rambanks > 1 then HighChosen(ws) else 0) * 8192 + (addr - 0xA000);
            RamIndex(b, addr, size)
            == if Last(ws, 0, 0x2000).Some? && Last(ws, 0, 0x2000).value % 16 == 10 && rambanks > 0 && i < size
               then Some(i) else None
  {
    LastWritesSelect(rombanks, rambanks, ws);
  }

  // ---- The controller itself ----

  class Mbc1 {
    const rom: seq<byte>
    var ram: seq<byte>
    var ramUpdated: bool
    var ramOn: bool
    var mode: byte
    var rombank: nat
    var rambank: nat
    const rombanks: nat
    const rambanks: nat

    ghost function State(): Banks
      reads this
    {
      Banks(ramOn, mode, rombank, rambank, rombanks, rambanks)
    }

    constructor (rom: seq<byte>, rombanks: nat, rambanks: nat)
      ensures State() == Start(rombanks, rambanks) && this.rom == rom
      ensures ram == seq(rambanks * RAM_BANK, _ => 0) && !ramUpdated
    {
      this.rom, this.rombanks, this.rambanks := rom, rombanks, rambanks;
      ram := seq(rambanks * RAM_BANK, _ => 0);
      ramUpdated, ramOn, mode, rombank, rambank := false, false, 0, 1, 0;
    }

    method WriteRom(addr: nat, value: byte)
      modifies this
      ensures State() == Write(old(State()), addr, value) && ram == old(ram) && ramUpdated == old(ramUpdated)
    {
      if addr < 0x2000 {
        ramOn := value % 0x10 == 0xA;
      } else if addr < 0x4000 {
        var lowerBits := value % 0x20;
        if lowerBits == 0 {
          lowerBits := 1;
        }
        rombank := (rombank / 0x20 % 4 * 0x20 + lowerBits) % (if rombanks == 0 then 1 else rombanks);
      } else if addr < 0x6000 {
        if rombanks > 0x20 {
          var upperBits := value % 4 % (rombanks / 0x20);
          rombank := rombank % 0x20 + upperBits * 0x20;
        }
        if rambanks > 1 {
          rambank := value % 4;
        }
      } else if addr < 0x8000 {
        mode := value % 2;
      }
    }

    method ReadRom(addr: nat) returns (v: byte)
      ensures v == if RomIndex(State(), addr) < |rom| then rom[RomIndex(State(), addr)] else 0xFF
    {
      var bank := rombank;
      if addr < 0x4000 {
        bank := if mode == 0 then 0 else rombank / 0x20 % 8 * 0x20;
      }
      var idx := bank * ROM_BANK + addr % ROM_BANK;
      v := if idx < |rom| then rom[idx] else 0xFF;
    }

    method ReadRam(addr: nat) returns (v: byte)
      ensures v == match RamIndex(State(), addr, |ram|) case Some(i) => ram[i] case None => 0xFF
    {
      if !ramOn || rambanks == 0 {
        return 0xFF;
      }
      var bank := if mode == 1 then rambank else 0;
      var idx := bank * RAM_BANK + addr % RAM_BANK;
      v := if idx < |ram| then ram[idx] else 0xFF;
    }

    /** Exactly the cell that a read of the same address sees is written, and the save is marked dirty
        exactly when there is one. */
    method WriteRam(addr: nat, value: byte)
      modifies this
      ensures State() == old(State()) && |ram| == old(|ram|)
      ensures ram == match old(RamIndex(State(), addr, |ram|)) case Some(i) => old(ram)[i := value] case None => old(ram)
      ensures ramUpdated == (old(ramUpdated) || old(RamIndex(State(), addr, |ram|)).Some?)
    {
      if !ramOn || rambanks == 0 {
        return;
      }
      var bank := if mode == 1 then rambank else 0;
      var idx := bank * RAM_BANK + addr % RAM_BANK;
      if idx < |ram| {
        ram := ram[idx := value];
        ramUpdated := true;
      }
    }
  }
}
