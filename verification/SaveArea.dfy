/** What the save-file code of kernel/src/storage/savefile.rs does to the disk, as values, and the sixteen-slot
    table it implements. Module `Savefile` holds the code itself.

    A save is known by the hash of its ROM name; the name itself and the clock are inputs. */
module SaveArea {
  import opened Common

  const SAVE_AREA_START := 0x10000
  const SECTORS_PER_SLOT := 64
  const MAX_SAVE_SLOTS := 16
  const SECTOR_SIZE := 512
  const MAX_RAM := 0x8000

  type Sector = s: seq<byte> | |s| == SECTOR_SIZE witness seq(SECTOR_SIZE, _ => 0)
  type Name = s: seq<byte> | |s| == 16 witness seq(16, _ => 0)
  type Magic = s: seq<byte> | |s| == 4 witness [0, 0, 0, 0]

  /** The disk: whether a device was found, its sectors, and the sectors whose reads and writes fail. */
  datatype Disk = Disk(present: bool, sectors: seq<Sector>, faulty: set<nat>)

  predicate Works(d: Disk, lba: nat) {
    lba < |d.sectors| && lba !in d.faulty
  }

  function Read(d: Disk, lba: nat): Option<Sector> {
    if Works(d, lba) then Some(d.sectors[lba]) else None
  }

  function Write(d: Disk, lba: nat, s: Sector): Disk
    requires Works(d, lba)
  {
    d.(sectors := d.sectors[lba := s])
  }

  function SlotLba(slot: nat): nat {
    SAVE_AREA_START + slot * SECTORS_PER_SLOT
  }

  // ---- The header sector ----

  datatype SaveHeader = SaveHeader(magic: Magic, romHash: u32, ramSize: u32, timestamp: u32, romName: Name)

  const SAVE_MAGIC: Magic := [0x47, 0x42, 0x53, 0x56]  // "GBSV"

  function Le32(w: u32): (s: seq<byte>)
    ensures |s| == 4
  {
    [w % 0x100, w / 0x100 % 0x100, w / 0x1_0000 % 0x100, w / 0x100_0000]
  }

  function FromLe32(s: seq<byte>): u32
    requires |s| == 4
  {
    var b0: int, b1: int, b2: int, b3: int := s[0], s[1], s[2], s[3];
    b0 + b1 * 0x100 + b2 * 0x1_0000 + b3 * 0x100_0000
  }

  /** `to_bytes`. */
  function Encode(h: SaveHeader): Sector {
    h.magic + Le32(h.romHash) + Le32(h.ramSize) + Le32(h.timestamp) + h.romName + seq(480, _ => 0)
  }

  /** `from_bytes`. */
  function Decode(s: Sector): SaveHeader {
    SaveHeader(s[..4], FromLe32(s[4..8]), FromLe32(s[8..12]), FromLe32(s[12..16]), s[16..32])
  }

  lemma LeRoundTrip(w: u32)
    ensures FromLe32(Le32(w)) == w
  {
    var b: int := w / 0x100;
    var c: int := b / 0x100;
    assert w / 0x1_0000 == c && w / 0x100_0000 == c / 0x100;
  }

  /** A header read back from its sector is the header written. */
  lemma HeaderRoundTrip(h: SaveHeader)
    ensures Decode(Encode(h)) == h
  {
    LeRoundTrip(h.romHash);
    LeRoundTrip(h.ramSize);
    LeRoundTrip(h.timestamp);
    var s := Encode(h);
    assert s[..4] == h.magic;
    assert s[4..8] == Le32(h.romHash);
    assert s[8..12] == Le32(h.ramSize);
    assert s[12..16] == Le32(h.timestamp);
    assert s[16..32] == h.romName;
  }

  predicate IsValid(h: SaveHeader) {
    h.magic == SAVE_MAGIC && 0 < h.ramSize <= MAX_RAM
  }

  // ---- What the operations do ----

  datatype SaveResult = SaveSuccess | SaveNoDevice | WriteError | InvalidData
  datatype LoadResult = LoadSuccess | LoadNoDevice | NoSaveFound | ReadError | HashMismatch | SizeMismatch

  /** The readable, valid header of a slot, if there is one. */
  function Header(d: Disk, slot: nat): Option<SaveHeader> {
    match Read(d, SlotLba(slot))
    case None => None
    case Some(s) => if IsValid(Decode(s)) then Some(Decode(s)) else None
  }

  predicate Matches(d: Disk, slot: nat, hash: u32) {
    Header(d, slot).Some? && Header(d, slot).value.romHash == hash
  }

  /** The first slot from `slot` on that holds a save of the hash. */
  function FindFrom(d: Disk, hash: u32, slot: nat): (r: Option<nat>)
    requires slot <= MAX_SAVE_SLOTS
    ensures r.Some? ==> slot <= r.value < MAX_SAVE_SLOTS && Matches(d, r.value, hash)
    ensures forall j :: slot <= j < (if r.Some? then r.value else MAX_SAVE_SLOTS) ==> !Matches(d, j, hash)
    decreases MAX_SAVE_SLOTS - slot
  {
    if slot == MAX_SAVE_SLOTS then None
    else if Matches(d, slot, hash) then Some(slot)
    else FindFrom(d, hash, slot + 1)
  }

  /** The first slot from `slot` on without a valid header, and slot 0 when there is none. */
  function EmptyFrom(d: Disk, slot: nat): (r: nat)
    requires slot <= MAX_SAVE_SLOTS
    ensures r < MAX_SAVE_SLOTS
    ensures Header(d, r).Some? ==> r == 0 && forall j :: slot <= j < MAX_SAVE_SLOTS ==> Header(d, j).Some?
    ensures Header(d, r).None? && (exists j :: slot <= j < MAX_SAVE_SLOTS && Header(d, j).None?) ==>
              slot <= r && forall j :: slot <= j < r ==> Header(d, j).Some?
    decreases MAX_SAVE_SLOTS - slot
  {
    if slot == MAX_SAVE_SLOTS then 0
    else if Header(d, slot).None? then slot
    else EmptyFrom(d, slot + 1)
  }

  function SlotFor(d: Disk, hash: u32): nat {
    match FindFrom(d, hash, 0)
    case Some(i) => i
    case None => EmptyFrom(d, 0)
  }

  function SectorsNeeded(n: nat): nat {
    (n + SECTOR_SIZE - 1) / SECTOR_SIZE
  }

  /** The k-th sector of the zero-padded data. */
  function Chunk(data: seq<byte>, k: nat): Sector {
    seq(SECTOR_SIZE, o requires 0 <= o < SECTOR_SIZE =>
      if k * SECTOR_SIZE + o < |data| then data[k * SECTOR_SIZE + o] else 0)
  }

  /** Writing chunks `0..n` from `lba` on; stops at the first failure. */
  function WriteChunks(d: Disk, lba: nat, data: seq<byte>, n: nat): (Disk, bool)
    decreases n
  {
    if n == 0 then (d, true)
    else
      var (e, ok) := WriteChunks(d, lba, data, n - 1);
      if ok && Works(e, lba + n - 1) then (Write(e, lba + n - 1, Chunk(data, n - 1)), true) else (e, false)
  }

  /** Header, then data, into the slot starting at `base`. */
  function SaveAt(d: Disk, base: nat, header: Sector, data: seq<byte>): (Disk, SaveResult) {
    if !Works(d, base) then (d, WriteError)
    else
      var (e, ok) := WriteChunks(Write(d, base, header), base + 1, data, SectorsNeeded(|data|));
      (e, if ok then SaveSuccess else WriteError)
  }

  function SaveGame(d: Disk, hash: u32, name: Name, timestamp: u32, data: seq<byte>): (Disk, SaveResult)
    requires |data| < 0x1_0000_0000
  {
    if !d.present then (d, SaveNoDevice)
    else if data == [] then (d, InvalidData)
    else SaveAt(d, SlotLba(SlotFor(d, hash)), Encode(SaveHeader(SAVE_MAGIC, hash, |data|, timestamp, name)), data)
  }

  /** The buffer after reading `n` data sectors of a save of `size` bytes; stops at the first failure. */
  function ReadChunks(d: Disk, lba: nat, size: nat, buffer: seq<byte>, n: nat): (r: (seq<byte>, bool))
    requires size <= |buffer| && n <= SectorsNeeded(size)
    ensures |r.0| == |buffer|
    decreases n
  {
    if n == 0 then (buffer, true)
    else
      var (b, ok) := ReadChunks(d, lba, size, buffer, n - 1);
      if ok && Works(d, lba + n - 1) then
        var offset := (n - 1) * SECTOR_SIZE;
        var len := if size - offset < SECTOR_SIZE then size - offset else SECTOR_SIZE;
        (b[..offset] + d.sectors[lba + n - 1][..len] + b[offset + len..], true)
      else (b, false)
  }

  function LoadGame(d: Disk, hash: u32, buffer: seq<byte>): (seq<byte>, LoadResult) {
    if !d.present then (buffer, LoadNoDevice)
    else
      match FindFrom(d, hash, 0)
      case None => (buffer, NoSaveFound)
      case Some(slot) => LoadSlot(d, slot, Header(d, slot).value.ramSize, buffer)
  }

  function LoadSlot(d: Disk, slot: nat, size: nat, buffer: seq<byte>): (seq<byte>, LoadResult) {
    if size > |buffer| then (buffer, SizeMismatch)
    else
      var (b, ok) := ReadChunks(d, SlotLba(slot) + 1, size, buffer, SectorsNeeded(size));
      (b, if ok then LoadSuccess else ReadError)
  }

  function Zeros(): Sector {
    seq(SECTOR_SIZE, _ => 0)
  }

  lemma ZerosAreEmpty()
    ensures !IsValid(Decode(Zeros()))
  {
    assert Decode(Zeros()).magic[0] == 0;
  }

  function DeleteSave(d: Disk, hash: u32): (Disk, bool) {
    if !d.present then (d, false)
    else
      match FindFrom(d, hash, 0)
      case None => (d, false)
      case Some(slot) =>
        if Works(d, SlotLba(slot)) then (Write(d, SlotLba(slot), Zeros()), true) else (d, false)
  }
}
