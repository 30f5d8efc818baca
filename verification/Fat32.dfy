/** The FAT32 driver of kernel/src/storage/fat32.rs: mounting, the three directory walks and the file reader,
    proved against `FatVolume`. */
module Fat32 {
  import opened Common
  import opened Chains
  import opened FatPanic
  import opened FatStored
  import opened FatVolume

  /** The boot sector that `mount` parses: sector 0, or the first sector of a FAT32 partition when sector 0 is a
      partition table. */
  function BootSector(disk: Disk): Option<(u32, Sector)> {
    if 0 !in disk || !Signed(disk[0]) then None
    else
      var s := disk[0];
      if (s[450] == 0x0B || s[450] == 0x0C) && Le16(s, 11) !in {512, 1024, 2048, 4096} then
        var start := Le32(s, 454);
        if start in disk && Signed(disk[start]) then Some((start, disk[start])) else None
      else Some((0, s))
  }

  predicate Signed(s: Sector) {
    s[510] == 0x55 && s[511] == 0xAA
  }

  /** The parameters `mount` insists on. */
  predicate Acceptable(s: Sector) {
    512 <= Le16(s, 11) <= 4096 && s[13] != 0 && s[16] != 0 && Le32(s, 44) >= 2
  }

  /** Two bytes spell the number, the lowest first. */
  predicate HalfIs(s: Sector, o: nat, n: nat)
    requires o + 2 <= 512
  {
    var b0: int, b1: int := s[o], s[o + 1];
    n == b0 + 0x100 * b1
  }

  /** A partition table whose first entry is of a FAT32 type, 0x0B or 0x0C, and no boot sector itself: it does not give
      one of the usual sector sizes. */
  predicate IsTable(s: Sector) {
    && s[450] in {0x0B, 0x0C}
    && !HalfIs(s, 11, 512) && !HalfIs(s, 11, 1024) && !HalfIs(s, 11, 2048) && !HalfIs(s, 11, 4096)
  }

  /** Which sector is taken for the boot sector: sector 0, or the one that a partition table there names; both need the
      signature 0x55 0xAA at their end. */
  lemma BootSectorIs(disk: Disk, start: u32, s: Sector)
    ensures BootSector(disk) == Some((start, s))
            <==> && 0 in disk && disk[0][510..] == [0x55, 0xAA]
                 && start in disk && disk[start] == s && s[510..] == [0x55, 0xAA]
                 && if IsTable(disk[0]) then WordIs(disk[0], 454, start) else start == 0
  {
    SignedIs(s);
    if 0 in disk {
      SignedIs(disk[0]);
      TableIs(disk[0]);
      WordIff(disk[0], 454, start);
    }
  }

  lemma SignedIs(s: Sector)
    ensures Signed(s) <==> s[510..] == [0x55, 0xAA]
  {
    assert s[510..] == [s[510], s[511]];
  }

  lemma TableIs(s: Sector)
    ensures IsTable(s) <==> (s[450] == 0x0B || s[450] == 0x0C) && Le16(s, 11) !in {512, 1024, 2048, 4096}
  {
  }

  lemma WordIff(s: Sector, o: nat, w: u32)
    requires o + 4 <= 512
    ensures WordIs(s, o, w) <==> Le32(s, o) == w
  {
  }

  /** What a boot sector says, and when it is accepted. */
  lemma BootFields(s: Sector, bytes: nat, reserved: nat, perFat: u32, root: u32)
    requires HalfIs(s, 11, bytes) && HalfIs(s, 14, reserved) && WordIs(s, 36, perFat) && WordIs(s, 44, root)
    ensures Acceptable(s) <==> 512 <= bytes <= 4096 && s[13] != 0 && s[16] != 0 && root >= 2
    ensures Le16(s, 11) == bytes && Le16(s, 14) == reserved && Le32(s, 36) == perFat && Le32(s, 44) == root
  {
    WordIff(s, 36, perFat);
    WordIff(s, 44, root);
  }

  /** A search of one sector or cluster for ROM `index`, `before` ROMs having been counted: it hits exactly when
      the ROM is there; otherwise it has counted all of them and tells whether the directory ends. */
  predicate Searched(scan: (seq<Rom>, bool), before: nat, index: nat, hit: bool, end: bool, after: nat) {
    && (hit <==> before <= index < before + |scan.0|)
    && (!hit ==> Counted(scan, before, end, after))
  }

  predicate Counted(scan: (seq<Rom>, bool), before: nat, end: bool, after: nat) {
    end == scan.1 && after == before + |scan.0|
  }

  /** What find_rom reports of a ROM. */
  function Place(rom: Rom): (u32, u32) {
    (rom.cluster, rom.size)
  }

  function PlaceOf(rom: Option<Rom>): Option<(u32, u32)> {
    match rom
    case None => None
    case Some(r) => Some(Place(r))
  }

  class Fat32 {
    const devices: map<nat, Disk>  // the disks found at boot
    var deviceIndex: nat
    var mounted: bool
    var partitionStart: u32
    var bytesPerSector: u32
    var sectorsPerCluster: u32
    var fatStartSector: u32
    var sectorsPerFat: u32
    var dataStartSector: u32
    var rootCluster: u32

    constructor (devices: map<nat, Disk>)
      ensures Valid() && !mounted && this.devices == devices
    {
      this.devices, deviceIndex, mounted, partitionStart := devices, 0, false, 0;
      bytesPerSector, sectorsPerCluster := 512, 1;
      fatStartSector, sectorsPerFat, dataStartSector, rootCluster := 0, 0, 0, 0;
    }

    predicate Valid()
      reads this
    {
      512 <= bytesPerSector <= 4096 && 1 <= sectorsPerCluster < 0x100
    }

    /** What `read_sector` can read: nothing when there is no such device. */
    function Disk(): Disk
      reads this
    {
      if deviceIndex in devices then devices[deviceIndex] else map[]
    }

    ghost function State(): Volume
      requires Valid()
      reads this
    {
      Volume(Disk(), bytesPerSector, sectorsPerCluster, fatStartSector, dataStartSector, rootCluster)
    }

    method ReadBootSector() returns (boot: Option<Sector>)
      modifies this`partitionStart
      ensures boot.Some? <==> BootSector(Disk()).Some?
      ensures boot.Some? ==> BootSector(Disk()) == Some((partitionStart, boot.value))
    {
      var disk := Disk();
      if 0 !in disk || !Signed(disk[0]) {
        return None;
      }
      var sector := disk[0];
      var bps := Le16(sector, 11);
      var validBps := bps == 512 || bps == 1024 || bps == 2048 || bps == 4096;
      var isFat32 := sector[450] == 0x0B || sector[450] == 0x0C;
      if isFat32 && !validBps {
        partitionStart := Le32(sector, 454);
        if partitionStart !in disk || !Signed(disk[partitionStart]) {
          return None;
        }
        sector := disk[partitionStart];
      } else {
        partitionStart := 0;
      }
      boot := Some(sector);
    }

    /** Mounts exactly the devices whose boot sector is readable, signed and acceptable; afterwards a cluster has
        between 1 and 255 sectors and the root is a real cluster. The device changes even on failure: a volume
        mounted before is then read from the new device with its old parameters. */
    method Mount(index: nat) returns (ok: bool)
      requires Valid()
      modifies this
      ensures Valid() && deviceIndex == index
      ensures ok <==> index in devices && BootSector(devices[index]).Some? && Acceptable(BootSector(devices[index]).value.1)
      ensures ok ==>
                var (start, s) := BootSector(Disk()).value;
                && mounted && rootCluster >= 2
                && partitionStart == start && bytesPerSector == Le16(s, 11) && sectorsPerCluster == s[13]
                && fatStartSector == (start + Le16(s, 14)) % 0x1_0000_0000
                && dataStartSector == (fatStartSector + s[16] * Le32(s, 36)) % 0x1_0000_0000
                && rootCluster == Le32(s, 44)
      ensures !ok ==> mounted == old(mounted) && State() == old(State()).(disk := Disk())
    {
      deviceIndex := index;
      if index !in devices {
        return false;
      }
      var boot := ReadBootSector();
      if boot == None {
        return false;
      }
      var sector := boot.value;
      var bytes, perFat, root := Le16(sector, 11), Le32(sector, 36), Le32(sector, 44);
      if bytes < 512 || bytes > 4096 || sector[13] == 0 || sector[16] == 0 || root < 2 {
        return false;
      }
      bytesPerSector, sectorsPerCluster := bytes, sector[13];
      fatStartSector := (partitionStart + Le16(sector, 14)) % 0x1_0000_0000;
      sectorsPerFat, rootCluster := perFat, root;
      dataStartSector := (fatStartSector + sector[16] * perFat) % 0x1_0000_0000;
      mounted := true;
      ok := true;
    }

    method ClusterToSector(c: u32) returns (lba: nat)
      requires Valid() && InChain(c)
      ensures lba == ClusterLba(State(), c)
    {
      lba := (dataStartSector + (c - 2) * sectorsPerCluster) % 0x1_0000_0000;
    }

    method GetNextCluster(c: u32) returns (r: Option<u32>)
      requires Valid() && InChain(c) && LinkFits(State(), c)
      ensures r == NextCluster(State(), c)
    {
      var fatOffset := c * 4;
      var fatSector := (fatStartSector + fatOffset / bytesPerSector) % 0x1_0000_0000;
      var entryOffset := fatOffset % bytesPerSector;
      if fatSector !in Disk() {
        return None;
      }
      r := Some(Le32(Disk()[fatSector], entryOffset) % 0x1000_0000);
    }

    // ---- find_rom ----

    method FindInSector(sector: Sector, index: nat, before: nat) returns (found: Option<(u32, u32)>, end: bool, after: nat)
      requires before <= index
      ensures Searched(ScanSector(sector, 0), before, index, found.Some?, end, after)
      ensures found.Some? ==> found.value == Place(ScanSector(sector, 0).0[index - before])
    {
      found, end, after := None, false, before;
      ghost var scan := ScanSector(sector, 0);
      for i := 0 to ENTRIES
        invariant before <= after <= index
        invariant AtEntry(sector, scan, after - before, i)
      {
        EntryOn(sector, scan, after - before, i);
        var offset := i * 32;
        var firstByte := sector[offset];
        if firstByte == 0x00 {
          end := true;
          return;
        }
        if firstByte == 0xE5 {
          continue;
        }
        var attr := sector[offset + 11];
        if attr == 0x0F || attr == 0x08 || Bit(attr, 4) {
          continue;
        }
        var ext0, ext1, ext2 := Upper(sector[offset + 8]), Upper(sector[offset + 9]), Upper(sector[offset + 10]);
        var isGb := ext0 == 0x47 && ext1 == 0x42 && (ext2 == 0x20 || ext2 == 0x43);
        if !isGb {
          continue;
        }
        if after == index {
          found := Some((Le16(sector, offset + 20) * 0x1_0000 + Le16(sector, offset + 26), Le32(sector, offset + 28)));
          return;
        }
        after := after + 1;
      }
    }

    method FindInCluster(lba: nat, index: nat, before: nat) returns (found: Option<(u32, u32)>, end: bool, after: nat)
      requires Valid() && before <= index
      ensures Searched(ScanCluster(State(), lba, 0), before, index, found.Some?, end, after)
      ensures found.Some? ==> found.value == Place(ScanCluster(State(), lba, 0).0[index - before])
    {
      found, end, after := None, false, before;
      ghost var scan := ScanCluster(State(), lba, 0);
      for k := 0 to sectorsPerCluster
        invariant !end && found == None && before <= after <= index
        invariant AtSector(State(), lba, scan, after - before, k)
      {
        SectorOn(State(), lba, scan, after - before, k);
        if lba + k !in Disk() {
          end := true;
          return;
        }
        found, end, after := FindInSector(Disk()[lba + k], index, after);
        if found.Some? || end {
          return;
        }
      }
    }

    /** One round of the walk: the cluster at hand, and the way to the next. */
    method FindOn(current: u32, index: nat, before: nat, ghost dir: seq<Rom>, ghost fin: bool, ghost left: nat)
      returns (found: Option<(u32, u32)>, stop: bool, next: u32, after: nat)
      requires Valid() && InChain(current) && AtCluster(State(), dir, fin, current, before, left)
      requires before <= index && (fin || index < |dir|)
      ensures left > 0
      ensures if stop then found == PlaceOf(Pick(dir, index))
              else found == None && after <= index && AtCluster(State(), dir, fin, next, after, left - 1)
    {
      WalkOn(State(), dir, fin, current, before, left, index);
      var lba := ClusterToSector(current);
      var end := false;
      found, end, after := FindInCluster(lba, index, before);
      if found.Some? || end {
        return found, true, current, after;
      }
      var link := GetNextCluster(current);
      stop, next := link == None, if link == None then current else link.value;
    }

    /** `find_rom`: the place of entry `index` of the directory, exactly when there is one. */
    method FindRom(index: nat) returns (found: Option<(u32, u32)>)
      requires Valid() && (mounted ==> Finds(State(), index))
      ensures found == if mounted then PlaceOf(RomEntry(State(), index)) else None
    {
      if !mounted {
        return None;
      }
      ghost var v := State();
      ghost var dir, fin, left := SearchStarts(v, index);
      var romIndex: nat, current := 0, rootCluster;
      while InChain(current)
        invariant AtCluster(v, dir, fin, current, romIndex, left) && romIndex <= index
        decreases left
      {
        var stop := false;
        found, stop, current, romIndex := FindOn(current, index, romIndex, dir, fin, left);
        if stop {
          return;
        }
        left := left - 1;
      }
      WalkOver(v, dir, fin, current, romIndex, left);
      found := None;
    }

    // ---- get_rom_name ----

    /** Copies the bytes of a name field that are not padding. */
    method CopyUnpadded(sector: Sector, from: nat, n: nat, name: array<byte>, at: nat) returns (pos: nat)
      requires from + n <= SECTOR_SIZE && at + n <= name.Length
      modifies name
      ensures at <= pos <= at + n
      ensures name[..pos] == old(name[..at]) + Unpadded(sector[from..from + n])
    {
      pos := at;
      for j := 0 to n
        invariant at <= pos <= at + j
        invariant name[..pos] == old(name[..at]) + Unpadded(sector[from..from + j])
      {
        ghost var before := name[..pos];
        UnpaddedOn(sector, from, from + j);
        if sector[from + j] != 0x20 {
          name[pos] := sector[from + j];
          assert name[..pos + 1] == before + [sector[from + j]];
          pos := pos + 1;
        }
      }
    }

    method ZeroFrom(name: array<byte>, from: nat)
      requires from <= name.Length
      modifies name
      ensures name[..] == old(name[..from]) + Zeros(name.Length - from)
    {
      var pos := from;
      while pos < name.Length
        invariant from <= pos <= name.Length
        invariant name[..pos] == old(name[..from]) + Zeros(pos - from)
      {
        ghost var before := name[..pos];
        name[pos] := 0;
        assert name[..pos + 1] == before + [0];
        pos := pos + 1;
      }
      assert name[..] == name[..pos];
    }

    method WriteName(sector: Sector, i: nat, name: array<byte>)
      requires i < ENTRIES && name.Length == 12
      modifies name
      ensures name[..] == RomName(sector, i)
    {
      var at := i * 32;
      ghost var stem, suffix := Unpadded(sector[at..at + 8]), Unpadded(sector[at + 8..at + 11]);
      var pos := CopyUnpadded(sector, at, 8, name, 0);
      assert name[..pos] == stem;
      name[pos] := 0x2E;
      assert name[..pos + 1] == stem + [0x2E];
      pos := CopyUnpadded(sector, at + 8, 3, name, pos + 1);
      assert name[..pos] == stem + [0x2E] + suffix;
      ZeroFrom(name, pos);
    }

    method NameInSector(sector: Sector, index: nat, before: nat, name: array<byte>) returns (found: bool, end: bool, after: nat)
      requires before <= index && name.Length == 12
      modifies name
      ensures Searched(ScanSector(sector, 0), before, index, found, end, after)
      ensures name[..] == if found then ScanSector(sector, 0).0[index - before].name else old(name[..])
    {
      found, end, after := false, false, before;
      ghost var scan := ScanSector(sector, 0);
      for i := 0 to ENTRIES
        invariant name[..] == old(name[..])
        invariant before <= after <= index
        invariant AtEntry(sector, scan, after - before, i)
      {
        EntryOn(sector, scan, after - before, i);
        var offset := i * 32;
        var firstByte := sector[offset];
        if firstByte == 0x00 {
          end := true;
          return;
        }
        if firstByte == 0xE5 {
          continue;
        }
        var attr := sector[offset + 11];
        if attr == 0x0F || attr == 0x08 || Bit(attr, 4) {
          continue;
        }
        var ext0, ext1, ext2 := Upper(sector[offset + 8]), Upper(sector[offset + 9]), Upper(sector[offset + 10]);
        var isGb := ext0 == 0x47 && ext1 == 0x42 && (ext2 == 0x20 || ext2 == 0x43);
        if !isGb {
          continue;
        }
        if after == index {
          WriteName(sector, i, name);
          found := true;
          return;
        }
        after := after + 1;
      }
    }

    method NameInCluster(lba: nat, index: nat, before: nat, name: array<byte>) returns (found: bool, end: bool, after: nat)
      requires Valid() && before <= index && name.Length == 12
      modifies name
      ensures Searched(ScanCluster(State(), lba, 0), before, index, found, end, after)
      ensures name[..] == if found then ScanCluster(State(), lba, 0).0[index - before].name else old(name[..])
    {
      found, end, after := false, false, before;
      ghost var scan := ScanCluster(State(), lba, 0);
      for k := 0 to sectorsPerCluster
        invariant name[..] == old(name[..])
        invariant !end && !found && before <= after <= index
        invariant AtSector(State(), lba, scan, after - before, k)
      {
        SectorOn(State(), lba, scan, after - before, k);
        if lba + k !in Disk() {
          end := true;
          return;
        }
        found, end, after := NameInSector(Disk()[lba + k], index, after, name);
        if found || end {
          return;
        }
      }
    }

    method NameOn(current: u32, index: nat, before: nat, name: array<byte>, ghost dir: seq<Rom>, ghost fin: bool, ghost left: nat)
      returns (found: bool, stop: bool, next: u32, after: nat)
      requires Valid() && InChain(current) && AtCluster(State(), dir, fin, current, before, left) && name.Length == 12
      requires before <= index && (fin || index < |dir|)
      modifies name
      ensures left > 0
      ensures found ==> Pick(dir, index).Some?
      ensures name[..] == if found then Pick(dir, index).value.name else old(name[..])
      ensures if stop then found == Pick(dir, index).Some?
              else !found && after <= index && AtCluster(State(), dir, fin, next, after, left - 1)
    {
      WalkOn(State(), dir, fin, current, before, left, index);
      var lba := ClusterToSector(current);
      var end := false;
      found, end, after := NameInCluster(lba, index, before, name);
      if found || end {
        return found, true, current, after;
      }
      var link := GetNextCluster(current);
      stop, next := link == None, if link == None then current else link.value;
    }

    /** The walk itself. */
    method SearchName(index: nat, name: array<byte>, ghost dir: seq<Rom>, ghost fin: bool, ghost clusters: nat)
      returns (found: bool)
      requires Valid() && AtCluster(State(), dir, fin, rootCluster, 0, clusters) && (fin || index < |dir|)
      requires name.Length == 12
      modifies name
      ensures found <==> Pick(dir, index).Some?
      ensures name[..] == if found then Pick(dir, index).value.name else old(name[..])
    {
      found := false;
      var romIndex: nat, current := 0, rootCluster;
      ghost var left := clusters;
      while InChain(current)
        invariant name[..] == old(name[..]) && !found
        invariant AtCluster(State(), dir, fin, current, romIndex, left) && romIndex <= index
        decreases left
      {
        var stop := false;
        found, stop, current, romIndex := NameOn(current, index, romIndex, name, dir, fin, left);
        if stop {
          return;
        }
        left := left - 1;
      }
      WalkOver(State(), dir, fin, current, romIndex, left);
    }

    /** `get_rom_name`: writes the name of entry `index` exactly when there is one, else leaves the buffer alone. */
    method GetRomName(index: nat, name: array<byte>) returns (found: bool)
      requires Valid() && (mounted ==> Finds(State(), index)) && name.Length == 12
      modifies name
      ensures found <==> mounted && RomEntry(State(), index).Some?
      ensures name[..] == if found then RomEntry(State(), index).value.name else old(name[..])
    {
      if !mounted {
        return false;
      }
      ghost var dir, fin, left := SearchStarts(State(), index);
      found := SearchName(index, name, dir, fin, left);
    }

    // ---- count_roms ----

    method CountInSector(sector: Sector, before: nat) returns (end: bool, count: nat)
      ensures Counted(ScanSector(sector, 0), before, end, count)
    {
      end, count := false, before;
      ghost var scan := ScanSector(sector, 0);
      for i := 0 to ENTRIES
        invariant before <= count
        invariant AtEntry(sector, scan, count - before, i)
      {
        EntryOn(sector, scan, count - before, i);
        var offset := i * 32;
        var firstByte := sector[offset];
        if firstByte == 0x00 {
          end := true;
          return;
        }
        if firstByte == 0xE5 {
          continue;
        }
        var attr := sector[offset + 11];
        if attr == 0x0F || attr == 0x08 || Bit(attr, 4) {
          continue;
        }
        var ext0, ext1, ext2 := Upper(sector[offset + 8]), Upper(sector[offset + 9]), Upper(sector[offset + 10]);
        var isGb := ext0 == 0x47 && ext1 == 0x42 && (ext2 == 0x20 || ext2 == 0x43);
        if !isGb {
          continue;
        }
        count := count + 1;
      }
    }

    method CountInCluster(lba: nat, before: nat) returns (end: bool, count: nat)
      requires Valid()
      ensures Counted(ScanCluster(State(), lba, 0), before, end, count)
    {
      end, count := false, before;
      ghost var scan := ScanCluster(State(), lba, 0);
      for k := 0 to sectorsPerCluster
        invariant !end && before <= count
        invariant AtSector(State(), lba, scan, count - before, k)
      {
        SectorOn(State(), lba, scan, count - before, k);
        if lba + k !in Disk() {
          end := true;
          return;
        }
        end, count := CountInSector(Disk()[lba + k], count);
        if end {
          return;
        }
      }
    }

    method CountOn(current: u32, before: nat, ghost dir: seq<Rom>, ghost left: nat)
      returns (stop: bool, next: u32, count: nat)
      requires Valid() && InChain(current) && AtCluster(State(), dir, true, current, before, left)
      ensures left > 0
      ensures if stop then count == |dir| else AtCluster(State(), dir, true, next, count, left - 1)
    {
      WalkOn(State(), dir, true, current, before, left, |dir|);
      var lba := ClusterToSector(current);
      stop, count := CountInCluster(lba, before);
      if stop {
        return true, current, count;
      }
      var link := GetNextCluster(current);
      stop, next := link == None, if link == None then current else link.value;
    }

    /** `count_roms`: the size of the directory. */
    method CountRoms() returns (count: nat)
      requires Valid() && (mounted ==> Finite(State()))
      ensures count == if mounted then |Directory(State())| else 0
    {
      if !mounted {
        return 0;
      }
      ghost var v, dir := State(), Directory(State());
      ghost var left := WalkStarts(v);
      var current := rootCluster;
      count := 0;
      while InChain(current)
        invariant AtCluster(v, dir, true, current, count, left)
        decreases left
      {
        var stop := false;
        stop, current, count := CountOn(current, count, dir, left);
        if stop {
          return;
        }
        left := left - 1;
      }
      WalkOver(v, dir, true, current, count, left);
    }

    /** The three walks agree: `find_rom` and `get_rom_name` succeed exactly below `count_roms`, and describe the
        same directory entry. */
    method WalksAgree(index: nat, name: array<byte>) returns (rom: Option<(u32, u32)>, named: bool, count: nat)
      requires Valid() && (mounted ==> Finite(State())) && name.Length == 12
      modifies name
      ensures rom.Some? <==> index < count
      ensures named <==> index < count
      ensures named ==>
                && mounted
                && index < |Directory(State())|
                && var entry := Directory(State())[index];
                rom == Some(Place(entry)) && name[..] == entry.name
      ensures !named ==> name[..] == old(name[..])
    {
      if mounted {
        FiniteFinds(State(), index);
      }
      rom := FindRom(index);
      named := GetRomName(index, name);
      count := CountRoms();
    }

    // ---- read_file ----

    /** Copies the sectors of a cluster to the buffer, until `want` bytes are there; `done` is what it copied. */
    method ReadCluster(lba: nat, buffer: array<byte>, start: nat, want: nat) returns (ok: bool, count: nat, ghost done: seq<byte>)
      requires Valid() && start <= want <= buffer.Length
      modifies buffer
      ensures Copied(buffer[..], old(buffer[..]), start, want, count, done)
      ensures ok <==> ClusterBytes(State(), lba, 0, want - start).Reads?
      ensures ok ==> ClusterBytes(State(), lba, 0, want - start) == Reads(done)
    {
      count, done := start, [];
      ghost var v, before := State(), buffer[..];
      ghost var all := ClusterBytes(v, lba, 0, want - start);
      assert before == before[..start] + done + before[start..];
      PrependNothing(all);
      for s := 0 to sectorsPerCluster
        invariant State() == v && Copied(buffer[..], before, start, want, count, done)
        invariant all == Prepended(done, ClusterBytes(v, lba, s, want - count))
      {
        if count >= want {
          break;
        }
        if lba + s !in Disk() {
          ok := false;
          return;
        }
        var n := if want - count < SECTOR_SIZE then want - count else SECTOR_SIZE;
        ghost var bytes := Disk()[lba + s][..n];
        ghost var mid := buffer[..];
        CopySector(Disk()[lba + s], n, buffer, count);
        CopyTwice(before, mid, buffer[..], start, want, count, done, count + n, bytes);
        PrependTwice(done, bytes, ClusterBytes(v, lba, s + 1, want - count - n));
        done, count := done + bytes, count + n;
      }
      assert done + [] == done;
      ok := true;
    }

    method CopySector(sector: Sector, n: nat, buffer: array<byte>, at: nat)
      requires n <= SECTOR_SIZE && at + n <= buffer.Length
      modifies buffer
      ensures buffer[..] == old(buffer[..at]) + sector[..n] + old(buffer[at + n..])
    {
      forall i | 0 <= i < n { buffer[at + i] := sector[i]; }
    }

    /** One cluster of the chain, and the way to the next. */
    method ReadOn(current: u32, buffer: array<byte>, start: nat, want: nat)
      returns (ok: bool, count: nat, next: u32, ghost first: seq<byte>)
      requires Valid() && InChain(current) && start < want <= buffer.Length
      requires FileBytes(State(), current, want - start) != Panics
      modifies buffer
      ensures Copied(buffer[..], old(buffer[..]), start, want, count, first)
      ensures !ok ==> FileBytes(State(), current, want - start) == Fails
      ensures ok ==>
                && count > start
                && FileBytes(State(), current, want - start) == Prepended(first, FileBytes(State(), next, want - count))
    {
      var lba := ClusterToSector(current);
      ok, count, first := ReadCluster(lba, buffer, start, want);
      next := current;
      if !ok {
        return;
      }
      var link := GetNextCluster(current);
      ok, next := link.Some?, if link == None then current else link.value;
    }

    /** Follows the chain from `cluster`, copying cluster after cluster. */
    method ReadChain(cluster: u32, buffer: array<byte>, want: nat) returns (ok: bool, count: nat, ghost done: seq<byte>)
      requires Valid() && want <= buffer.Length && !MeetsBadLink(State(), cluster, want)
      modifies buffer
      ensures Copied(buffer[..], old(buffer[..]), 0, want, count, done)
      ensures FileBytes(State(), cluster, want) == if ok then Reads(done) else Fails
    {
      ok, count, done := true, 0, [];
      var current := cluster;
      ghost var v, before := State(), buffer[..];
      PrependNothing(FileBytes(v, cluster, want));
      PanicsIffBadLink(v, cluster, want);
      while count < want && InChain(current)
        invariant State() == v && Copied(buffer[..], before, 0, want, count, done)
        invariant ok && FileBytes(v, cluster, want) == Prepended(done, FileBytes(v, current, want - count))
        decreases want - count
      {
        ghost var mid, at, prior, first := buffer[..], count, done, [];
        ok, count, current, first := ReadOn(current, buffer, count, want);
        CopyTwice(before, mid, buffer[..], 0, want, at, prior, count, first);
        done := prior + first;
        if !ok {
          return;
        }
        PrependTwice(prior, first, FileBytes(v, current, want - count));
      }
      assert done + [] == done;
    }

    /** `read_file`. It ends on every disk, cyclic FATs included, and it panics exactly when its chain meets a bad
        link while data is wanted. On success the buffer starts with the bytes delivered and is otherwise
        unchanged, and on failure nothing past the bytes asked for has changed. */
    method ReadFile(cluster: u32, size: u32, buffer: array<byte>) returns (r: Option<nat>)
      requires Valid()
      requires mounted && cluster >= 2 ==>
                 !MeetsBadLink(State(), cluster, if size < buffer.Length then size else buffer.Length)
      modifies buffer
      ensures !mounted || cluster < 2 ==> r == None && buffer[..] == old(buffer[..])
      ensures mounted && cluster >= 2 ==>
                var want := if size < buffer.Length then size else buffer.Length;
                && buffer[want..] == old(buffer[want..])
                && match FileBytes(State(), cluster, want)
                   case Panics => false
                   case Fails => r == None
                   case Reads(bytes) => r == Some(|bytes|) && buffer[..] == bytes + old(buffer[|bytes|..])
    {
      if !mounted || cluster < 2 {
        return None;
      }
      var want := if size < buffer.Length then size else buffer.Length;
      PanicsIffBadLink(State(), cluster, want);
      var ok, count, done := ReadChain(cluster, buffer, want);
      r := if ok then Some(count) else None;
    }
  }
}
