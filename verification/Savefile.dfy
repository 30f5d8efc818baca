/** The save-file code of kernel/src/storage/savefile.rs, sector by sector, proved against `SaveArea`. */
module Savefile {
  import opened Common
  import opened SaveArea

  /** `SaveHeader::to_bytes`, filling a zeroed sector field by field. */
  method ToBytes(h: SaveHeader) returns (bytes: array<byte>)
    ensures fresh(bytes) && bytes[..] == Encode(h)
  {
    bytes := new byte[SECTOR_SIZE](_ => 0);
    var hash, size, time := Le32(h.romHash), Le32(h.ramSize), Le32(h.timestamp);
    forall k | 0 <= k < 4 { bytes[k] := h.magic[k]; }
    forall k | 0 <= k < 4 { bytes[4 + k] := hash[k]; }
    forall k | 0 <= k < 4 { bytes[8 + k] := size[k]; }
    forall k | 0 <= k < 4 { bytes[12 + k] := time[k]; }
    forall k | 0 <= k < 16 { bytes[16 + k] := h.romName[k]; }
    assert bytes[..] == Encode(h);
  }

  function Overlaid(b: seq<byte>, offset: nat, bytes: seq<byte>): seq<byte>
    requires offset + |bytes| <= |b|
  {
    b[..offset] + bytes + b[offset + |bytes|..]
  }

  /** `buffer[offset..offset + len].copy_from_slice(&sector[..len])`. */
  method CopyInto(buffer: array<byte>, offset: nat, sector: Sector, len: nat)
    requires offset + len <= buffer.Length && len <= SECTOR_SIZE
    modifies buffer
    ensures buffer[..] == Overlaid(old(buffer[..]), offset, sector[..len])
  {
    forall k | 0 <= k < len { buffer[offset + k] := sector[k]; }
  }

  /** The ATA disk found at boot. */
  class AtaDisk {
    const present: bool
    const faulty: set<nat>
    var sectors: seq<Sector>

    ghost function State(): Disk
      reads this
    {
      Disk(present, sectors, faulty)
    }

    constructor (present: bool, faulty: set<nat>, sectors: seq<Sector>)
      ensures State() == Disk(present, sectors, faulty)
    {
      this.present, this.faulty, this.sectors := present, faulty, sectors;
    }

    method ReadSector(lba: nat) returns (r: Option<Sector>)
      ensures r == Read(State(), lba)
    {
      r := if lba < |sectors| && lba !in faulty then Some(sectors[lba]) else None;
    }

    method WriteSector(lba: nat, s: Sector) returns (ok: bool)
      modifies this
      ensures ok == Works(old(State()), lba)
      ensures State() == if ok then Write(old(State()), lba, s) else old(State())
    {
      ok := lba < |sectors| && lba !in faulty;
      if ok {
        sectors := sectors[lba := s];
      }
    }

    method FindSaveSlot(hash: u32) returns (r: Option<nat>)
      ensures r == if present then FindFrom(State(), hash, 0) else None
    {
      if !present {
        return None;
      }
      for slot := 0 to MAX_SAVE_SLOTS
        invariant FindFrom(State(), hash, 0) == FindFrom(State(), hash, slot)
      {
        var sector := ReadSector(SlotLba(slot));
        if sector.Some? {
          var header := Decode(sector.value);
          if IsValid(header) && header.romHash == hash {
            return Some(slot);
          }
        }
      }
      r := None;
    }

    method FindEmptySlot() returns (r: Option<nat>)
      ensures r == if present then Some(EmptyFrom(State(), 0)) else None
    {
      if !present {
        return None;
      }
      for slot := 0 to MAX_SAVE_SLOTS
        invariant EmptyFrom(State(), 0) == EmptyFrom(State(), slot)
      {
        var sector := ReadSector(SlotLba(slot));
        if sector.Some? {
          var header := Decode(sector.value);
          if !IsValid(header) {
            return Some(slot);
          }
        } else {
          return Some(slot);
        }
      }
      r := Some(0);
    }

    method SaveGame(hash: u32, name: Name, timestamp: u32, data: seq<byte>) returns (r: SaveResult)
      requires |data| < 0x1_0000_0000
      modifies this
      ensures (State(), r) == SaveArea.SaveGame(old(State()), hash, name, timestamp, data)
    {
      if !present {
        return SaveNoDevice;
      }
      if |data| == 0 {
        return InvalidData;
      }
      var slot := FindSaveSlot(hash);
      if slot == None {
        slot := FindEmptySlot();
      }
      if slot == None {
        return WriteError;
      }
      r := SaveToSlot(SlotLba(slot.value), SaveHeader(SAVE_MAGIC, hash, |data|, timestamp, name), data);
    }

    /** The header sector, then the padded data sector by sector. */
    method SaveToSlot(base: nat, h: SaveHeader, data: seq<byte>) returns (r: SaveResult)
      modifies this
      ensures (State(), r) == SaveAt(old(State()), base, Encode(h), data)
    {
      var headerBytes := ToBytes(h);
      var ok := WriteSector(base, headerBytes[..]);
      if !ok {
        return WriteError;
      }
      ghost var d := State();
      var n := SectorsNeeded(|data|);
      for i := 0 to n
        invariant WriteChunks(d, base + 1, data, i) == (State(), true)
      {
        ok := WriteSector(base + 1 + i, Chunk(data, i));
        if !ok {
          FailureSticks(d, base + 1, data, i + 1, n);
          return WriteError;
        }
      }
      r := SaveSuccess;
    }

    method LoadGame(hash: u32, buffer: array<byte>) returns (r: LoadResult)
      modifies buffer
      ensures (buffer[..], r) == SaveArea.LoadGame(State(), hash, old(buffer[..]))
    {
      if !present {
        return LoadNoDevice;
      }
      var found := FindSaveSlot(hash);
      if found == None {
        return NoSaveFound;
      }
      var base := SlotLba(found.value);
      var sector := ReadSector(base);
      if sector == None {
        return ReadError;
      }
      var header := Decode(sector.value);
      if !(IsValid(header) && header.romHash == hash) {
        return HashMismatch;
      }
      r := LoadSlot(found.value, header.ramSize, buffer);
    }

    method LoadSlot(slot: nat, size: nat, buffer: array<byte>) returns (r: LoadResult)
      modifies buffer
      ensures (buffer[..], r) == SaveArea.LoadSlot(State(), slot, size, old(buffer[..]))
    {
      if size > buffer.Length {
        return SizeMismatch;
      }
      r := LoadData(SlotLba(slot) + 1, size, buffer);
    }

    method LoadData(lba: nat, size: nat, buffer: array<byte>) returns (r: LoadResult)
      requires size <= buffer.Length
      modifies buffer
      ensures var (b, ok) := ReadChunks(State(), lba, size, old(buffer[..]), SectorsNeeded(size));
              buffer[..] == b && r == if ok then LoadSuccess else ReadError
    {
      ghost var before := buffer[..];
      var n, offset := SectorsNeeded(size), 0;
      for i := 0 to n
        invariant offset == Reached(size, i)
        invariant ReadChunks(State(), lba, size, before, i) == (buffer[..], true)
      {
        var ok := false;
        ok, offset := LoadChunk(lba, size, buffer, i, offset, before);
        if !ok {
          ReadFailureSticks(State(), lba, size, before, i + 1, n);
          return ReadError;
        }
      }
      r := LoadSuccess;
    }

    /** One sector of the data. */
    method LoadChunk(lba: nat, size: nat, buffer: array<byte>, i: nat, offset: nat, ghost before: seq<byte>)
      returns (ok: bool, next: nat)
      requires size <= buffer.Length == |before| && i < SectorsNeeded(size) && offset == Reached(size, i)
      requires ReadChunks(State(), lba, size, before, i) == (buffer[..], true)
      modifies buffer
      ensures ReadChunks(State(), lba, size, before, i + 1) == (buffer[..], ok)
      ensures next == if ok then Reached(size, i + 1) else offset
    {
      var sector := ReadSector(lba + i);
      if sector == None {
        return false, offset;
      }
      var len := if size - offset < SECTOR_SIZE then size - offset else SECTOR_SIZE;
      NextChunk(State(), lba, size, before, i, buffer[..], sector.value);
      CopyInto(buffer, offset, sector.value, len);
      ok, next := true, offset + len;
    }

    method DeleteSave(hash: u32) returns (deleted: bool)
      modifies this
      ensures (State(), deleted) == SaveArea.DeleteSave(old(State()), hash)
    {
      if !present {
        return false;
      }
      var found := FindSaveSlot(hash);
      if found == None {
        return false;
      }
      deleted := WriteSector(SlotLba(found.value), Zeros());
    }
  }

  /** Once a sector has failed, nothing more is written. */
  lemma FailureSticks(d: Disk, lba: nat, data: seq<byte>, m: nat, n: nat)
    requires m <= n && !WriteChunks(d, lba, data, m).1
    ensures WriteChunks(d, lba, data, n) == WriteChunks(d, lba, data, m)
  {
  }

  /** How far the first `i` sectors of a save reach. */
  function Reached(size: nat, i: nat): nat {
    if i < SectorsNeeded(size) then i * SECTOR_SIZE else size
  }

  /** One more sector read. */
  lemma NextChunk(d: Disk, lba: nat, size: nat, buffer: seq<byte>, i: nat, b: seq<byte>, sector: Sector)
    requires size <= |buffer| && i < SectorsNeeded(size) && ReadChunks(d, lba, size, buffer, i) == (b, true)
    requires Read(d, lba + i) == Some(sector)
    ensures var offset := Reached(size, i);
            var len := if size - offset < SECTOR_SIZE then size - offset else SECTOR_SIZE;
            && offset + len == Reached(size, i + 1) <= size
            && ReadChunks(d, lba, size, buffer, i + 1) == (Overlaid(b, offset, sector[..len]), true)
  {
  }

  lemma ReadFailureSticks(d: Disk, lba: nat, size: nat, buffer: seq<byte>, m: nat, n: nat)
    requires size <= |buffer| && m <= n <= SectorsNeeded(size) && !ReadChunks(d, lba, size, buffer, m).1
    ensures ReadChunks(d, lba, size, buffer, n) == ReadChunks(d, lba, size, buffer, m)
  {
  }
}
