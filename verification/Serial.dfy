/** The serial port of kernel/src/gameboy/serial.rs. No cable is ever attached: a transfer takes its time and
    receives 0xFF. */
module Serial {
  import opened Common

  const TRANSFER_CYCLES := 4096

  datatype PortState = PortState(data: byte, control: byte, interrupt: Interrupts, transferring: bool, cycles: nat)

  /** `wb(0xFF02, v)`. */
  function WithControl(s: PortState, v: byte): PortState {
    var u := s.(control := v);
    if Bit(v, 7) && Bit(v, 0) then u.(transferring := true, cycles := TRANSFER_CYCLES) else u
  }

  /** `do_cycle`. */
  function Advance(s: PortState, n: nat): PortState {
    if !s.transferring then s
    else if n >= s.cycles then
      s.(data := 0xFF, control := s.control % 0x80, interrupt := s.interrupt.(serial := true), transferring := false)
    else s.(cycles := s.cycles - n)
  }

  function Batches(s: PortState, cs: seq<nat>): PortState {
    if cs == [] then s else Advance(Batches(s, cs[..|cs| - 1]), cs[|cs| - 1])
  }

  function Sum(cs: seq<nat>): nat {
    if cs == [] then 0 else Sum(cs[..|cs| - 1]) + cs[|cs| - 1]
  }

  /** The transfer that a control write starts ends, with its interrupt, once the cycles passed in batches of any
      size come to 4096, and not before. */
  lemma {:induction false} TransferTakes(s: PortState, v: byte, cs: seq<nat>)
    requires Bit(v, 7) && Bit(v, 0)
    ensures var u := Batches(WithControl(s, v), cs);
            if Sum(cs) < 4096 then
              u == s.(control := v, transferring := true, cycles := 4096 - Sum(cs))
            else
              u == s.(data := 0xFF, control := v % 0x80, interrupt := s.interrupt.(serial := true),
                      transferring := false, cycles := u.cycles)
  {
    if cs != [] { TransferTakes(s, v, cs[..|cs| - 1]); }
  }

  /** Any other control write starts nothing: a port at rest stays as it is, and a transfer under way goes on. */
  lemma {:induction false} NothingStarts(s: PortState, v: byte, cs: seq<nat>)
    requires !(Bit(v, 7) && Bit(v, 0))
    ensures !s.transferring ==> Batches(WithControl(s, v), cs) == s.(control := v)
    ensures s.transferring && Sum(cs) < s.cycles ==>
              Batches(WithControl(s, v), cs) == s.(control := v, cycles := s.cycles - Sum(cs))
  {
    if cs != [] { NothingStarts(s, v, cs[..|cs| - 1]); }
  }

  class Serial {
    var data: byte
    var control: byte
    var interrupt: Interrupts
    var transferring: bool
    var cycles: nat

    ghost function State(): PortState
      reads this
    {
      PortState(data, control, interrupt, transferring, cycles)
    }

    constructor ()
      ensures State() == PortState(0, 0, NO_INTERRUPT, false, 0)
    {
      data, control, interrupt, transferring, cycles := 0, 0, NO_INTERRUPT, false, 0;
    }

    method WriteControl(v: byte)
      modifies this
      ensures State() == WithControl(old(State()), v)
    {
      control := v;
      if Bit(v, 7) && Bit(v, 0) {
        transferring, cycles := true, TRANSFER_CYCLES;
      }
    }

    method DoCycle(n: nat)
      modifies this
      ensures State() == Advance(old(State()), n)
    {
      if !transferring {
        return;
      }
      if n >= cycles {
        data := 0xFF;
        control := control % 0x80;
        interrupt := interrupt.(serial := true);
        transferring := false;
      } else {
        cycles := cycles - n;
      }
    }
  }
}
