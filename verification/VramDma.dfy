/** The VRAM DMA engine of kernel/src/gameboy/mmu.rs as values. Module `Mmu` holds the engine itself.

    `mem` is what the bus reads outside VRAM (unmodified while a transfer runs); reads inside VRAM see the
    bytes the transfer itself has written. Addresses are 16-bit and wrap. */
module VramDma {
  import opened Common
  import opened Video

  type Mem = m: seq<byte> | |m| == 0x1_0000 witness seq(0x1_0000, _ => 0)
  type Address = a: nat | a < 0x1_0000

  datatype DmaType = NoDMA | GDMA | HDMA

  type FiveBits = b: byte | b < 0x20

  datatype Dma = Dma(r0: byte, r1: byte, r2: FiveBits, r3: byte, src: Address, dst: Address, len: byte, status: DmaType)

  predicate InVram(a: Address) {
    0x8000 <= a <= 0x9FFF
  }

  /** The VRAM cell behind an address, in the selected bank. */
  function Cell(high: bool, a: Address): nat {
    (if high then 0x2000 else 0) + a % 0x2000
  }

  function ReadByte(mem: Mem, high: bool, vram: Vram, a: Address): byte {
    if InVram(a) then vram[Cell(high, a)] else mem[a]
  }

  /** `gpu.wb` at a transfer's destination: past the end of VRAM the write is ignored. */
  function WriteByte(high: bool, vram: Vram, a: Address, v: byte): Vram {
    if InVram(a) then vram[Cell(high, a) := v] else vram
  }

  // ---- Rows ----

  /** VRAM once the bytes at source positions `src..stop` have been copied. */
  function CopyBytes(mem: Mem, high: bool, vram: Vram, src: Address, dst: Address, stop: nat): Vram
    decreases stop
  {
    if stop <= src then vram
    else
      var v := CopyBytes(mem, high, vram, src, dst, stop - 1);
      WriteByte(high, v, (dst + stop - 1 - src) % 0x1_0000, ReadByte(mem, high, v, (stop - 1) % 0x1_0000))
  }

  /** How VRAM `V` changes when one row goes from one address to another. */
  type Copy<!V> = (V, Address, Address) -> V

  function Copier(mem: Mem, high: bool): Copy<Vram> {
    (vram: Vram, src: Address, dst: Address) => CopyBytes(mem, high, vram, src, dst, src + 0x10)
  }

  /** The engine's side of `perform_vramdma_row`. */
  function NextRow(d: Dma): Dma {
    d.(src := (d.src + 0x10) % 0x1_0000, dst := (d.dst + 0x10) % 0x1_0000,
       len := if d.len == 0 then 0x7F else d.len - 1)
  }

  function Rows<V>(d: Dma, copy: Copy<V>, vram: V, n: nat): (Dma, V)
    decreases n
  {
    if n == 0 then (d, vram)
    else
      var (e, v) := Rows(d, copy, vram, n - 1);
      (NextRow(e), copy(v, e.src, e.dst))
  }

  /** `perform_vramdma`: the engine, VRAM, and the ticks spent. */
  function Perform<V>(d: Dma, copy: Copy<V>, vram: V, mayHdma: bool): (Dma, V, nat) {
    match d.status
    case NoDMA => (d, vram, 0)
    case GDMA =>
      var (e, v) := Rows(d, copy, vram, d.len + 1);
      (e.(status := NoDMA), v, (d.len + 1) * 8)
    case HDMA =>
      if !mayHdma then (d, vram, 0)
      else
        var e := NextRow(d);
        (if e.len == 0x7F then e.(status := NoDMA) else e, copy(vram, d.src, d.dst), 8)
  }

  /** A write to register 0xFF51 + k. */
  function WriteReg(d: Dma, k: nat, v: byte): Dma {
    if k == 0 then d.(r0 := v)
    else if k == 1 then d.(r1 := v - v % 0x10)
    else if k == 2 then d.(r2 := v % 0x20)
    else if k == 3 then d.(r3 := v - v % 0x10)
    else if k == 4 then
      if d.status == HDMA then (if v < 0x80 then d.(status := NoDMA) else d)
      else
        d.(src := d.r0 * 0x100 + d.r1, dst := 0x8000 + d.r2 * 0x100 + d.r3, len := v % 0x80,
           status := if v >= 0x80 then HDMA else GDMA)
    else d
  }

  /** A read of register 0xFF55. */
  function ReadLength(d: Dma): byte {
    if d.status == NoDMA && d.len < 0x80 then d.len + 0x80 else d.len
  }

  // ---- An HBlank transfer against a general one ----

  /** The engine after a sequence of `perform_vramdma` calls, each with the picture unit's HBlank flag. */
  function Calls<V>(d: Dma, copy: Copy<V>, vram: V, flags: seq<bool>): (Dma, V)
    decreases |flags|
  {
    if flags == [] then (d, vram)
    else
      var (e, v) := Calls(d, copy, vram, flags[..|flags| - 1]);
      var (f, w, _) := Perform(e, copy, v, flags[|flags| - 1]);
      (f, w)
  }

  function Count(flags: seq<bool>): nat {
    if flags == [] then 0 else Count(flags[..|flags| - 1]) + if flags[|flags| - 1] then 1 else 0
  }

  lemma {:induction false} RowsLength<V>(d: Dma, copy: Copy<V>, vram: V, k: nat)
    requires d.len < 0x80 && k <= d.len + 1
    ensures var e := Rows(d, copy, vram, k).0;
            e.len == (if k == d.len + 1 then 0x7F else d.len - k) && e.status == d.status
  {
    if k > 0 {
      RowsLength(d, copy, vram, k - 1);
    }
  }

  lemma {:induction false} RowsIgnoreStatus<V>(d: Dma, copy: Copy<V>, vram: V, k: nat, status: DmaType)
    ensures var (e, v) := Rows(d, copy, vram, k);
            Rows(d.(status := status), copy, vram, k) == (e.(status := status), v)
  {
    if k > 0 {
      RowsIgnoreStatus(d, copy, vram, k - 1, status);
    }
  }

  /** An HBlank transfer of n rows has moved exactly as many rows as flagged calls, up to n, and is over
      exactly when n calls were flagged. */
  lemma {:induction false} HdmaProgress<V>(d: Dma, copy: Copy<V>, vram: V, flags: seq<bool>)
    requires d.status == HDMA && d.len < 0x80
    ensures var n := d.len + 1;
            var k := Count(flags);
            var (e, v) := Rows(d, copy, vram, if k < n then k else n);
            Calls(d, copy, vram, flags) == (if k < n then e else e.(status := NoDMA), v)
    decreases |flags|
  {
    if flags != [] {
      var init := flags[..|flags| - 1];
      HdmaProgress(d, copy, vram, init);
      var k := Count(init);
      if k <= d.len {
        RowsLength(d, copy, vram, k);
        RowsLength(d, copy, vram, k + 1);
      }
    }
  }

  /** Started with the same registers and length field n-1 while no HBlank transfer runs, an HBlank transfer
      that is not cancelled leaves, as soon as n calls have been flagged and ever after, the same engine and
      the same VRAM as one general transfer, and 0xFF55 then reads 0xFF. This holds for every source whose bytes
      change only by the transfer itself, VRAM included. */
  lemma HdmaIsGdma<V>(d: Dma, copy: Copy<V>, vram: V, n: nat, flags: seq<bool>)
    requires d.status != HDMA && 1 <= n <= 0x80 && Count(flags) >= n
    ensures var hdma := Calls(WriteReg(d, 4, 0x80 + n - 1), copy, vram, flags);
            var gdma := Perform(WriteReg(d, 4, n - 1), copy, vram, false);
            hdma == (gdma.0, gdma.1) && gdma.2 == 8 * n && ReadLength(hdma.0) == 0xFF
  {
    var h := Started(d, n);
    HdmaProgress(h, copy, vram, flags);
    RowsIgnoreStatus(h, copy, vram, n, GDMA);
    RowsLength(h, copy, vram, n);
  }

  /** The engine just after the write that starts `n` rows of an HBlank transfer; a general one differs in the
      status only. */
  lemma Started(d: Dma, n: nat) returns (h: Dma)
    requires d.status != HDMA && 1 <= n <= 0x80
    ensures WriteReg(d, 4, 0x80 + n - 1) == h && WriteReg(d, 4, n - 1) == h.(status := GDMA)
    ensures h.status == HDMA && h.len == n - 1
  {
    h := WriteReg(d, 4, 0x80 + n - 1);
  }

  /** Until then it is still running, and 0xFF55 counts the rows left. */
  lemma HdmaRunning<V>(d: Dma, copy: Copy<V>, vram: V, n: nat, flags: seq<bool>)
    requires d.status != HDMA && 1 <= n <= 0x80 && Count(flags) < n
    ensures var hdma := Calls(WriteReg(d, 4, 0x80 + n - 1), copy, vram, flags).0;
            hdma.status == HDMA && ReadLength(hdma) == n - 1 - Count(flags)
  {
    var h := Started(d, n);
    HdmaProgress(h, copy, vram, flags);
    RowsLength(h, copy, vram, Count(flags));
  }

  lemma {:induction false} IdleStays<V>(d: Dma, copy: Copy<V>, vram: V, flags: seq<bool>)
    requires d.status == NoDMA
    ensures Calls(d, copy, vram, flags) == (d, vram)
    decreases |flags|
  {
    if flags != [] { IdleStays(d, copy, vram, flags[..|flags| - 1]); }
  }

  /** A write to 0xFF55 while an HBlank transfer runs: with bit 7 set it does nothing; with bit 7 clear the transfer is
      over, 0xFF55 reads the rows left, bit 7 set, and nothing is copied any more. */
  lemma CancelStops<V>(d: Dma, copy: Copy<V>, vram: V, n: nat, flags: seq<bool>, v: byte, later: seq<bool>)
    requires d.status != HDMA && 1 <= n <= 0x80 && Count(flags) < n
    ensures var (e, w) := Calls(WriteReg(d, 4, 0x80 + n - 1), copy, vram, flags);
            var f := WriteReg(e, 4, v);
            if v >= 0x80 then f == e
            else Calls(f, copy, w, later) == (f, w) && ReadLength(f) == 0x80 + n - 1 - Count(flags)
  {
    var (e, w) := Calls(WriteReg(d, 4, 0x80 + n - 1), copy, vram, flags);
    HdmaRunning(d, copy, vram, n, flags);
    if v < 0x80 { IdleStays(WriteReg(e, 4, v), copy, w, later); }
  }

  // ---- What the rows hold ----

  /** A range of `n` addresses from `a` on that stays inside VRAM, or outside it, without wrapping. */
  predicate Clear(a: Address, n: nat, vram: bool) {
    if vram then 0x8000 <= a && a + n <= 0xA000 else a + n <= 0x8000 || (0xA000 <= a && a + n <= 0x1_0000)
  }

  /** `after` is `before` with the `n` cells from `dst` on taken from `mem` at `src`. */
  ghost predicate Copied(mem: Mem, high: bool, before: Vram, after: Vram, src: Address, dst: Address, n: nat) {
    forall i :: 0 <= i < VRAM_SIZE ==>
      after[i] == (var k := i - Cell(high, dst);
                   if 0 <= k < n && src + k < 0x1_0000 then mem[src + k] else before[i])
  }

  lemma {:induction false} BytesCopied(mem: Mem, high: bool, vram: Vram, src: Address, dst: Address, j: nat)
    requires Clear(src, j, false) && Clear(dst, j, true)
    ensures Copied(mem, high, vram, CopyBytes(mem, high, vram, src, dst, src + j), src, dst, j)
  {
    if j > 0 {
      BytesCopied(mem, high, vram, src, dst, j - 1);
      ByteCopied(mem, high, CopyBytes(mem, high, vram, src, dst, src + j - 1), src, dst, j);
    }
  }

  /** Where one byte goes, and what it is. */
  lemma ByteCopied(mem: Mem, high: bool, v: Vram, src: Address, dst: Address, j: nat)
    requires j > 0 && Clear(src, j, false) && Clear(dst, j, true)
    ensures WriteByte(high, v, (dst + j - 1) % 0x1_0000, ReadByte(mem, high, v, (src + j - 1) % 0x1_0000))
            == v[Cell(high, dst) + j - 1 := mem[src + j - 1]]
  {
    DivModIs(src + j - 1, 0, src + j - 1, 0x1_0000);
    DivModIs(dst + j - 1, 0, dst + j - 1, 0x1_0000);
    DivModIs(dst, 4, dst - 0x8000, 0x2000);
    DivModIs(dst + j - 1, 4, dst + j - 1 - 0x8000, 0x2000);
  }

  /** `copy` moves one row of 16 bytes. */
  ghost predicate MovesRow(copy: Copy<Vram>, mem: Mem, high: bool) {
    forall v, src, dst :: Clear(src, 0x10, false) && Clear(dst, 0x10, true) ==>
      Copied(mem, high, v, copy(v, src, dst), src, dst, 0x10)
  }

  lemma CopierMovesRow(mem: Mem, high: bool)
    ensures MovesRow(Copier(mem, high), mem, high)
  {
    forall v, src, dst | Clear(src, 0x10, false) && Clear(dst, 0x10, true)
      ensures Copied(mem, high, v, Copier(mem, high)(v, src, dst), src, dst, 0x10)
    {
      BytesCopied(mem, high, v, src, dst, 0x10);
    }
  }

  /** From outside VRAM to inside it, n rows copy the 16n source bytes and touch nothing else. */
  lemma RowsCopied(d: Dma, mem: Mem, high: bool, vram: Vram, n: nat)
    requires Clear(d.src, 0x10 * n, false) && Clear(d.dst, 0x10 * n, true)
    ensures Copied(mem, high, vram, Rows(d, Copier(mem, high), vram, n).1, d.src, d.dst, 0x10 * n)
  {
    CopierMovesRow(mem, high);
    RowsMoved(d, Copier(mem, high), mem, high, vram, n);
  }

  lemma {:induction false} RowsMoved(d: Dma, copy: Copy<Vram>, mem: Mem, high: bool, vram: Vram, n: nat)
    requires MovesRow(copy, mem, high)
    requires Clear(d.src, 0x10 * n, false) && Clear(d.dst, 0x10 * n, true)
    ensures Copied(mem, high, vram, Rows(d, copy, vram, n).1, d.src, d.dst, 0x10 * n)
  {
    if n > 0 {
      RowsMoved(d, copy, mem, high, vram, n - 1);
      RowStart(d, copy, vram, n - 1);
      var (e, v) := Rows(d, copy, vram, n - 1);
      CopiedTwice(mem, high, vram, v, copy(v, e.src, e.dst), d.src, d.dst, 0x10 * (n - 1), 0x10);
    }
  }

  lemma CopiedTwice(mem: Mem, high: bool, a: Vram, b: Vram, c: Vram, src: Address, dst: Address, m: nat, n: nat)
    requires Clear(src, m + n, false) && Clear(dst, m + n, true) && n > 0
    requires Copied(mem, high, a, b, src, dst, m) && Copied(mem, high, b, c, src + m, dst + m, n)
    ensures Copied(mem, high, a, c, src, dst, m + n)
  {
  }

  lemma {:induction false} RowStart<V>(d: Dma, copy: Copy<V>, vram: V, n: nat)
    requires d.src + 0x10 * n < 0x1_0000 && d.dst + 0x10 * n < 0x1_0000
    ensures var e := Rows(d, copy, vram, n).0; e.src == d.src + 0x10 * n && e.dst == d.dst + 0x10 * n
  {
    if n > 0 {
      RowStart(d, copy, vram, n - 1);
    }
  }

  // ---- Programming a transfer ----

  /** The four address registers as they are written, high bytes first. */
  function Programmed(d: Dma, src: Address, dst: Address): Dma {
    WriteReg(WriteReg(WriteReg(WriteReg(d, 0, src / 0x100), 1, src % 0x100), 2, dst / 0x100), 3, dst % 0x100)
  }

  /** A transfer goes from the address programmed to the address programmed, both rounded down to a row of 16 and the
      second taken into VRAM; bit 7 of the last write chooses the kind, the others the rows, less one. */
  lemma TransferStarts(d: Dma, src: Address, dst: Address, v: byte)
    requires d.status != HDMA
    ensures var s := WriteReg(Programmed(d, src, dst), 4, v);
            && s.src == src - src % 16 && s.dst == 0x8000 + dst % 0x2000 - dst % 16
            && s.len == v % 0x80 && s.status == if v >= 0x80 then HDMA else GDMA
  {
    var p := Programmed(d, src, dst);
    assert p.status == d.status && p.r0 == src / 0x100 && p.r2 == dst / 0x100 % 0x20;
    assert p.r1 == src % 0x100 - src % 16 && p.r3 == dst % 0x100 - dst % 16;
    HighAndLow(src);
    IntoVram(dst);
  }

  lemma HighAndLow(a: nat)
    ensures a / 0x100 * 0x100 + a % 0x100 == a && a % 0x100 % 16 == a % 16
  {
  }

  lemma IntoVram(a: nat)
    ensures a / 0x100 % 0x20 * 0x100 + a % 0x100 == a % 0x2000
  {
    var h, l := a / 0x100, a % 0x100;
    var q, m := h / 0x20, h % 0x20;
    assert a == 0x100 * h + l && h == 0x20 * q + m;
    DivModIs(a, q, 0x100 * m + l, 0x2000);
  }

  /** VRAM lies behind 0x8000..0x9FFF, one of two banks of 0x2000 cells at a time. */
  lemma CellIs(high: bool, k: nat)
    requires k < 0x2000
    ensures Cell(high, 0x8000 + k) == if high then 0x2000 + k else k
    ensures forall c: Config ::
              c.vram[Cell(high, 0x8000 + k)] == if high then Vram1(c, 0x8000 + k) else Vram0(c, 0x8000 + k)
  {
  }

  /** `after` is `before` with `n` bytes from `src` on in the cells from `k` on of a bank. */
  ghost predicate Filled(mem: Mem, high: bool, before: Vram, after: Vram, src: Address, k: nat, n: nat)
    requires src + n <= 0x1_0000
  {
    var base := if high then 0x2000 + k else k;
    forall i :: 0 <= i < 0x4000 ==> after[i] == if base <= i < base + n then mem[src + i - base] else before[i]
  }

  /** A general transfer of n rows, programmed from an address outside VRAM to one inside: its 16n bytes are there
      afterwards, in the selected bank, and no other cell has changed. It takes 8 ticks a row. */
  lemma ProgrammedCopies(d: Dma, mem: Mem, high: bool, vram: Vram, src: Address, k: nat, n: nat)
    requires d.status != HDMA && 1 <= n <= 0x80 && src % 16 == 0 && k % 16 == 0 && k + 16 * n <= 0x2000
    requires src + 16 * n <= 0x8000 || (0xA000 <= src && src + 16 * n <= 0x1_0000)
    ensures var start := WriteReg(Programmed(d, src, 0x8000 + k), 4, n - 1);
            var (e, after, ticks) := Perform(start, Copier(mem, high), vram, false);
            e.status == NoDMA && ticks == 8 * n && Filled(mem, high, vram, after, src, k, 16 * n)
  {
    var s := WriteReg(Programmed(d, src, 0x8000 + k), 4, n - 1);
    TransferStarts(d, src, 0x8000 + k, n - 1);
    InsideVram(k);
    GdmaCopies(s, mem, high, vram, src, k, n);
  }

  lemma GdmaCopies(s: Dma, mem: Mem, high: bool, vram: Vram, src: Address, k: nat, n: nat)
    requires s.status == GDMA && s.len == n - 1 && s.src == src && s.dst == 0x8000 + k && k + 16 * n <= 0x2000
    requires src + 16 * n <= 0x8000 || (0xA000 <= src && src + 16 * n <= 0x1_0000)
    ensures var (e, after, ticks) := Perform(s, Copier(mem, high), vram, false);
            e.status == NoDMA && ticks == 8 * n && Filled(mem, high, vram, after, src, k, 16 * n)
  {
    RowsCopied(s, mem, high, vram, n);
    CopiedIs(mem, high, vram, Rows(s, Copier(mem, high), vram, n).1, src, k, 16 * n);
  }

  lemma InsideVram(k: nat)
    requires k < 0x2000 && k % 16 == 0
    ensures 0x8000 + (0x8000 + k) % 0x2000 - (0x8000 + k) % 16 == 0x8000 + k
  {
  }

  lemma CopiedIs(mem: Mem, high: bool, before: Vram, after: Vram, src: Address, k: nat, n: nat)
    requires k < 0x2000 && src + n <= 0x1_0000 && Copied(mem, high, before, after, src, 0x8000 + k, n)
    ensures Filled(mem, high, before, after, src, k, n)
  {
    CellIs(high, k);
  }
}
