/** The save area of kernel/src/storage/savefile.rs as a table of sixteen saves, and as a bounded map from ROM
    hash to bytes. */
module SaveTable {
  import opened Common
  import opened SaveArea

  /** The largest save that stays inside its slot: 63 data sectors after the header. */
  const SAFE_SIZE := 32256

  datatype Entry = Entry(hash: u32, data: seq<byte>)

  type Table = t: seq<Option<Entry>> | |t| == MAX_SAVE_SLOTS witness seq(MAX_SAVE_SLOTS, _ => None)

  /** A device is present, never fails, and reaches past the last slot. */
  predicate Healthy(d: Disk) {
    d.present && d.faulty == {} && |d.sectors| > SAVE_AREA_START + MAX_SAVE_SLOTS * SECTORS_PER_SLOT
  }

  function SlotData(d: Disk, slot: nat, size: nat): seq<byte>
    requires Healthy(d) && slot < MAX_SAVE_SLOTS && size <= MAX_RAM
  {
    seq(size, b requires 0 <= b < size => d.sectors[SlotLba(slot) + 1 + b / SECTOR_SIZE][b % SECTOR_SIZE])
  }

  function SlotEntry(d: Disk, slot: nat): Option<Entry>
    requires Healthy(d) && slot < MAX_SAVE_SLOTS
  {
    match Header(d, slot)
    case None => None
    case Some(h) => Some(Entry(h.romHash, SlotData(d, slot, h.ramSize)))
  }

  /** What the disk stands for. */
  function Contents(d: Disk): Table
    requires Healthy(d)
  {
    seq(MAX_SAVE_SLOTS, i requires 0 <= i < MAX_SAVE_SLOTS => SlotEntry(d, i))
  }

  predicate Holds(e: Option<Entry>, hash: u32) {
    e.Some? && e.value.hash == hash
  }

  predicate Small(t: Table) {
    forall i :: 0 <= i < MAX_SAVE_SLOTS ==> t[i].Some? ==> |t[i].value.data| <= SAFE_SIZE
  }

  // ---- The table's own operations ----

  /** The slot holding the hash, if any. */
  function Find(t: Table, hash: u32, i: nat): (r: Option<nat>)
    requires i <= MAX_SAVE_SLOTS
    ensures r.Some? ==> i <= r.value < MAX_SAVE_SLOTS && Holds(t[r.value], hash)
    ensures forall j :: i <= j < (if r.Some? then r.value else MAX_SAVE_SLOTS) ==> !Holds(t[j], hash)
    decreases MAX_SAVE_SLOTS - i
  {
    if i == MAX_SAVE_SLOTS then None else if Holds(t[i], hash) then Some(i) else Find(t, hash, i + 1)
  }

  function FirstFree(t: Table, i: nat): (r: Option<nat>)
    requires i <= MAX_SAVE_SLOTS
    ensures r.Some? ==> r.value < MAX_SAVE_SLOTS && t[r.value].None?
    ensures r.None? ==> forall j :: i <= j < MAX_SAVE_SLOTS ==> t[j].Some?
    decreases MAX_SAVE_SLOTS - i
  {
    if i == MAX_SAVE_SLOTS then None else if t[i].None? then Some(i) else FirstFree(t, i + 1)
  }

  /** The slot of the hash, else the first free one, else slot 0. */
  function Place(t: Table, hash: u32): (i: nat)
    ensures i < MAX_SAVE_SLOTS
  {
    match Find(t, hash, 0)
    case Some(i) => i
    case None => (match FirstFree(t, 0) case Some(i) => i case None => 0)
  }

  function Save(t: Table, hash: u32, data: seq<byte>): Table {
    t[Place(t, hash) := Some(Entry(hash, data))]
  }

  function Delete(t: Table, hash: u32): Table {
    match Find(t, hash, 0)
    case Some(i) => t[i := None]
    case None => t
  }

  // ---- The last sector of a large save ----

  /** The 64th data sector of a save is the header sector of the next slot: what a save of more than 63 sectors
      becomes when that sector is `s`. */
  function WithTail(e: Option<Entry>, s: Sector): Option<Entry> {
    match e
    case None => None
    case Some(entry) =>
      Some(entry.(data := seq(|entry.data|, b requires 0 <= b < |entry.data| =>
        if SAFE_SIZE <= b < MAX_RAM then s[b - SAFE_SIZE] else entry.data[b])))
  }

  /** What the table becomes when `s` is written to the header sector of `slot`, besides that slot's own entry. */
  function Overlapped(t: Table, slot: nat, s: Sector): Table
    requires slot < MAX_SAVE_SLOTS
  {
    if slot == 0 then t else t[slot - 1 := WithTail(t[slot - 1], s)]
  }

  /** The entry ends in the bytes of `s`, as far as it reaches into that sector. */
  predicate EndsIn(e: Entry, s: Sector) {
    forall b :: SAFE_SIZE <= b < |e.data| && b < MAX_RAM ==> e.data[b] == s[b - SAFE_SIZE]
  }

  /** Writing `s` to the header sector of `slot` leaves the save in the slot before as it is. */
  predicate TailKept(t: Table, slot: nat, s: Sector)
    requires slot < MAX_SAVE_SLOTS
  {
    slot > 0 && t[slot - 1].Some? ==> EndsIn(t[slot - 1].value, s)
  }

  lemma TailSame(e: Entry, s: Sector)
    ensures WithTail(Some(e), s) == Some(e) <==> EndsIn(e, s)
  {
    var r := WithTail(Some(e), s).value;
    if EndsIn(e, s) {
      assert r.data == e.data;
    } else {
      var b :| SAFE_SIZE <= b < |e.data| && b < MAX_RAM && e.data[b] != s[b - SAFE_SIZE];
      assert r.data[b] != e.data[b];
    }
  }

  lemma OverlappedSame(t: Table, slot: nat, s: Sector)
    requires slot < MAX_SAVE_SLOTS
    ensures Overlapped(t, slot, s) == t <==> TailKept(t, slot, s)
  {
    if slot > 0 && t[slot - 1].Some? {
      TailSame(t[slot - 1].value, s);
      assert Overlapped(t, slot, s)[slot - 1] == WithTail(t[slot - 1], s);
    }
  }

  // ---- The disk does what the table does ----

  lemma {:induction false} FindAgrees(d: Disk, hash: u32, i: nat)
    requires Healthy(d) && i <= MAX_SAVE_SLOTS
    ensures FindFrom(d, hash, i) == Find(Contents(d), hash, i)
    decreases MAX_SAVE_SLOTS - i
  {
    if i < MAX_SAVE_SLOTS { FindAgrees(d, hash, i + 1); }
  }

  lemma {:induction false} EmptyAgrees(d: Disk, i: nat)
    requires Healthy(d) && i <= MAX_SAVE_SLOTS
    ensures EmptyFrom(d, i) == (match FirstFree(Contents(d), i) case Some(j) => j case None => 0)
    decreases MAX_SAVE_SLOTS - i
  {
    if i < MAX_SAVE_SLOTS { EmptyAgrees(d, i + 1); }
  }

  lemma PlaceAgrees(d: Disk, hash: u32)
    requires Healthy(d)
    ensures SlotFor(d, hash) == Place(Contents(d), hash)
  {
    FindAgrees(d, hash, 0);
    EmptyAgrees(d, 0);
  }

  lemma {:induction false} ChunksWritten(d: Disk, lba: nat, data: seq<byte>, n: nat)
    requires Healthy(d) && lba + n <= |d.sectors|
    ensures var (e, ok) := WriteChunks(d, lba, data, n);
            && ok && e.present && e.faulty == {} && |e.sectors| == |d.sectors|
            && (forall l :: 0 <= l < |d.sectors| && !(lba <= l < lba + n) ==> e.sectors[l] == d.sectors[l])
            && (forall k :: 0 <= k < n ==> e.sectors[lba + k] == Chunk(data, k))
  {
    if n > 0 { ChunksWritten(d, lba, data, n - 1); }
  }

  /** Slot `j` reads the same from two disks that agree on its header and its 63 data sectors, but for what
      reaches into the next slot. */
  lemma SlotDepends(d: Disk, e: Disk, j: nat)
    requires Healthy(d) && Healthy(e) && j < MAX_SAVE_SLOTS
    requires forall l :: SlotLba(j) <= l < SlotLba(j) + SECTORS_PER_SLOT ==> e.sectors[l] == d.sectors[l]
    ensures SlotEntry(e, j) == WithTail(SlotEntry(d, j), e.sectors[SlotLba(j + 1)])
  {
    assert Header(e, j) == Header(d, j);
    if Header(d, j).Some? {
      var size := Header(d, j).value.ramSize;
      assert SlotData(e, j, size) == WithTail(SlotEntry(d, j), e.sectors[SlotLba(j + 1)]).value.data;
    }
  }

  /** Slot `j` is the same on two disks that also agree on the header sector of the next slot. */
  lemma SlotSame(d: Disk, e: Disk, j: nat)
    requires Healthy(d) && Healthy(e) && j < MAX_SAVE_SLOTS
    requires forall l :: SlotLba(j) <= l <= SlotLba(j + 1) ==> e.sectors[l] == d.sectors[l]
    ensures SlotEntry(e, j) == SlotEntry(d, j)
  {
    assert Header(e, j) == Header(d, j);
    if Header(d, j).Some? {
      var size := Header(d, j).value.ramSize;
      assert SlotData(e, j, size) == SlotData(d, j, size);
    }
  }

  lemma SlotWritten(d: Disk, slot: nat, h: SaveHeader, hash: u32, data: seq<byte>)
    requires Healthy(d) && slot < MAX_SAVE_SLOTS && 0 < |data| <= MAX_RAM
    requires Decode(d.sectors[SlotLba(slot)]) == h && h.magic == SAVE_MAGIC && h.romHash == hash && h.ramSize == |data|
    requires forall k :: 0 <= k < SectorsNeeded(|data|) ==> d.sectors[SlotLba(slot) + 1 + k] == Chunk(data, k)
    ensures SlotEntry(d, slot) == Some(Entry(hash, data))
  {
    forall b | 0 <= b < |data|
      ensures SlotData(d, slot, |data|)[b] == data[b]
    {
      assert d.sectors[SlotLba(slot) + 1 + b / SECTOR_SIZE] == Chunk(data, b / SECTOR_SIZE);
    }
    assert SlotData(d, slot, |data|) == data;
  }

  /** Which sectors a save changes, and to what. */
  lemma SaveEffect(d: Disk, base: nat, header: Sector, data: seq<byte>)
    requires Healthy(d) && base + SectorsNeeded(|data|) < |d.sectors|
    ensures var (e, r) := SaveAt(d, base, header, data);
            var n := SectorsNeeded(|data|);
            && r == SaveSuccess && Healthy(e) && |e.sectors| == |d.sectors|
            && (forall l :: 0 <= l < |d.sectors| && !(base <= l <= base + n) ==> e.sectors[l] == d.sectors[l])
            && e.sectors[base] == header
            && (forall k :: 0 <= k < n ==> e.sectors[base + 1 + k] == Chunk(data, k))
  {
    ChunksWritten(Write(d, base, header), base + 1, data, SectorsNeeded(|data|));
  }

  /** The table after slot `slot` alone has been written, up to its 63rd data sector. */
  lemma OneSlotWritten(d: Disk, e: Disk, slot: nat)
    requires Healthy(d) && Healthy(e) && |e.sectors| == |d.sectors| && slot < MAX_SAVE_SLOTS
    requires forall l :: 0 <= l < |d.sectors| && !(SlotLba(slot) <= l < SlotLba(slot + 1)) ==> e.sectors[l] == d.sectors[l]
    ensures Contents(e) == Overlapped(Contents(d)[slot := SlotEntry(e, slot)], slot, e.sectors[SlotLba(slot)])
  {
    forall j | 0 <= j < MAX_SAVE_SLOTS && j != slot
      ensures SlotEntry(e, j)
              == if j + 1 == slot then WithTail(SlotEntry(d, j), e.sectors[SlotLba(slot)]) else SlotEntry(d, j)
    {
      if j + 1 == slot { SlotDepends(d, e, j); } else { SlotSame(d, e, j); }
    }
  }

  /** The header sector that a save writes. */
  function HeaderSector(hash: u32, name: Name, timestamp: u32, data: seq<byte>): Sector
    requires |data| < 0x1_0000_0000
  {
    Encode(SaveHeader(SAVE_MAGIC, hash, |data|, timestamp, name))
  }

  /** What a save of at most 63 sectors does to the slots, whatever its header. */
  lemma SlotSaved(d: Disk, slot: nat, header: Sector, data: seq<byte>)
    requires Healthy(d) && slot < MAX_SAVE_SLOTS && |data| <= SAFE_SIZE
    ensures var e := SaveAt(d, SlotLba(slot), header, data).0;
            Healthy(e) && Contents(e) == Overlapped(Contents(d)[slot := SlotEntry(e, slot)], slot, header)
  {
    SaveEffect(d, SlotLba(slot), header, data);
    OneSlotWritten(d, SaveAt(d, SlotLba(slot), header, data).0, slot);
  }

  lemma SlotHeld(d: Disk, slot: nat, header: Sector, h: SaveHeader, hash: u32, data: seq<byte>)
    requires Healthy(d) && slot < MAX_SAVE_SLOTS && 0 < |data| <= MAX_RAM
    requires Decode(header) == h && h.magic == SAVE_MAGIC && h.romHash == hash && h.ramSize == |data|
    ensures var (e, r) := SaveAt(d, SlotLba(slot), header, data);
            r == SaveSuccess && Healthy(e) && SlotEntry(e, slot) == Some(Entry(hash, data))
  {
    SaveEffect(d, SlotLba(slot), header, data);
    SlotWritten(SaveAt(d, SlotLba(slot), header, data).0, slot, h, hash, data);
  }

  /** A save of at most 64 sectors succeeds, and its slot holds it. */
  lemma SlotHolds(d: Disk, hash: u32, name: Name, timestamp: u32, data: seq<byte>)
    requires Healthy(d) && 0 < |data| <= MAX_RAM
    ensures SlotFor(d, hash) < MAX_SAVE_SLOTS
    ensures SaveGame(d, hash, name, timestamp, data)
            == SaveAt(d, SlotLba(SlotFor(d, hash)), HeaderSector(hash, name, timestamp, data), data)
    ensures var (e, r) := SaveGame(d, hash, name, timestamp, data);
            r == SaveSuccess && Healthy(e) && SlotEntry(e, SlotFor(d, hash)) == Some(Entry(hash, data))
  {
    var h := SaveHeader(SAVE_MAGIC, hash, |data|, timestamp, name);
    PlaceAgrees(d, hash);
    HeaderRoundTrip(h);
    SlotHeld(d, SlotFor(d, hash), HeaderSector(hash, name, timestamp, data), h, hash, data);
  }

  /** On every healthy disk, a save of at most 63 sectors succeeds and sets its own entry; the only other effect
      is on the last sector of a larger save in the slot before. */
  lemma SaveExact(d: Disk, hash: u32, name: Name, timestamp: u32, data: seq<byte>)
    requires Healthy(d) && 0 < |data| <= SAFE_SIZE
    ensures var (e, r) := SaveGame(d, hash, name, timestamp, data);
            && r == SaveSuccess && Healthy(e)
            && Contents(e)
               == Overlapped(Save(Contents(d), hash, data), SlotFor(d, hash), HeaderSector(hash, name, timestamp, data))
  {
    PlaceAgrees(d, hash);
    SlotHolds(d, hash, name, timestamp, data);
    SlotSaved(d, SlotFor(d, hash), HeaderSector(hash, name, timestamp, data), data);
  }

  /** So it is the table's save if and only if the slot before holds no save whose 64th sector differs from the
      header written; in particular on every disk of small saves. */
  lemma SaveRefines(d: Disk, hash: u32, name: Name, timestamp: u32, data: seq<byte>)
    requires Healthy(d) && 0 < |data| <= SAFE_SIZE
    ensures var (e, r) := SaveGame(d, hash, name, timestamp, data);
            && r == SaveSuccess && Healthy(e)
            && (Contents(e) == Save(Contents(d), hash, data)
                <==> TailKept(Contents(d), SlotFor(d, hash), HeaderSector(hash, name, timestamp, data)))
            && (Small(Contents(d)) ==> Contents(e) == Save(Contents(d), hash, data) && Small(Contents(e)))
  {
    SaveExact(d, hash, name, timestamp, data);
    PlaceAgrees(d, hash);
    OverlappedSame(Save(Contents(d), hash, data), SlotFor(d, hash), HeaderSector(hash, name, timestamp, data));
  }

  /** On every healthy disk, a delete clears its entry; the only other effect is as for a save. */
  lemma DeleteExact(d: Disk, hash: u32)
    requires Healthy(d)
    ensures var (e, r) := DeleteSave(d, hash);
            && Healthy(e) && r == Find(Contents(d), hash, 0).Some?
            && Contents(e)
               == if r then Overlapped(Delete(Contents(d), hash), Find(Contents(d), hash, 0).value, Zeros()) else Contents(d)
  {
    FindAgrees(d, hash, 0);
    var e := DeleteSave(d, hash).0;
    if FindFrom(d, hash, 0).Some? {
      var slot := FindFrom(d, hash, 0).value;
      ZerosAreEmpty();
      assert Header(e, slot) == None;
      OneSlotWritten(d, e, slot);
    }
  }

  lemma DeleteRefines(d: Disk, hash: u32)
    requires Healthy(d)
    ensures var (e, r) := DeleteSave(d, hash);
            && Healthy(e) && r == Find(Contents(d), hash, 0).Some?
            && (Contents(e) == Delete(Contents(d), hash)
                <==> (r ==> TailKept(Contents(d), Find(Contents(d), hash, 0).value, Zeros())))
            && (Small(Contents(d)) ==> Contents(e) == Delete(Contents(d), hash) && Small(Contents(e)))
  {
    DeleteExact(d, hash);
    if DeleteSave(d, hash).1 {
      OverlappedSame(Delete(Contents(d), hash), Find(Contents(d), hash, 0).value, Zeros());
    }
  }

  /** The bytes in the first `n` data sectors of a save of `size` bytes. */
  function UpTo(size: nat, n: nat): nat {
    if n * SECTOR_SIZE < size then n * SECTOR_SIZE else size
  }

  /** Data sector `n` of a save holds the n-th 512 bytes, or what is left. */
  lemma ChunkRead(d: Disk, slot: nat, size: nat, n: nat)
    requires Healthy(d) && slot < MAX_SAVE_SLOTS && size <= MAX_RAM && 0 < n <= SectorsNeeded(size)
    ensures var from, to := UpTo(size, n - 1), UpTo(size, n);
            from == (n - 1) * SECTOR_SIZE && from <= to <= from + SECTOR_SIZE
            && d.sectors[SlotLba(slot) + n][..to - from] == SlotData(d, slot, size)[from..to]
  {
  }

  lemma {:induction false} ChunksRead(d: Disk, slot: nat, size: nat, buffer: seq<byte>, n: nat)
    requires Healthy(d) && slot < MAX_SAVE_SLOTS && size <= MAX_RAM && size <= |buffer| && n <= SectorsNeeded(size)
    ensures ReadChunks(d, SlotLba(slot) + 1, size, buffer, n)
            == (SlotData(d, slot, size)[..UpTo(size, n)] + buffer[UpTo(size, n)..], true)
  {
    if n > 0 {
      ChunksRead(d, slot, size, buffer, n - 1);
      ChunkRead(d, slot, size, n);
      Spliced(SlotData(d, slot, size), buffer, UpTo(size, n - 1), UpTo(size, n));
      assert Works(d, SlotLba(slot) + 1 + n - 1);
    } else {
      assert SlotData(d, slot, size)[..0] + buffer[0..] == buffer;
    }
  }

  lemma Spliced(data: seq<byte>, buffer: seq<byte>, from: nat, to: nat)
    requires from <= to <= |data| <= |buffer|
    ensures var b := data[..from] + buffer[from..];
            b[..from] + data[from..to] + b[to..] == data[..to] + buffer[to..]
  {
  }

  /** Loading copies exactly the stored bytes to the front of the buffer, or says why not; the header check
      after the search can never fail. */
  lemma LoadRefines(d: Disk, hash: u32, buffer: seq<byte>)
    requires Healthy(d)
    ensures LoadGame(d, hash, buffer) ==
            match Find(Contents(d), hash, 0)
            case None => (buffer, NoSaveFound)
            case Some(i) =>
              var data := Contents(d)[i].value.data;
              if |data| > |buffer| then (buffer, SizeMismatch) else (data + buffer[|data|..], LoadSuccess)
  {
    FindAgrees(d, hash, 0);
    if FindFrom(d, hash, 0).Some? {
      var slot := FindFrom(d, hash, 0).value;
      var size := Header(d, slot).value.ramSize;
      assert Contents(d)[slot] == Some(Entry(hash, SlotData(d, slot, size)));
      if size <= |buffer| { AllRead(d, slot, size, buffer); }
    }
  }

  lemma AllRead(d: Disk, slot: nat, size: nat, buffer: seq<byte>)
    requires Healthy(d) && slot < MAX_SAVE_SLOTS && size <= MAX_RAM && size <= |buffer|
    ensures ReadChunks(d, SlotLba(slot) + 1, size, buffer, SectorsNeeded(size))
            == (SlotData(d, slot, size) + buffer[size..], true)
  {
    ChunksRead(d, slot, size, buffer, SectorsNeeded(size));
    assert UpTo(size, SectorsNeeded(size)) == size;
    assert SlotData(d, slot, size)[..size] == SlotData(d, slot, size);
  }

  // ---- Saves of 64 sectors ----

  lemma FoundFirst(d: Disk, hash: u32, slot: nat)
    requires slot < MAX_SAVE_SLOTS && Matches(d, slot, hash)
    requires forall j :: 0 <= j < slot ==> !Matches(d, j, hash)
    ensures FindFrom(d, hash, 0) == Some(slot)
  {
  }

  /** Nothing is found before the slot that a save of the hash goes to. */
  lemma NoneBefore(d: Disk, hash: u32, j: nat)
    requires j < SlotFor(d, hash)
    ensures !Matches(d, j, hash)
  {
  }

  /** A save changes no header before its slot. */
  lemma SameBefore(d: Disk, slot: nat, header: Sector, data: seq<byte>, hash: u32, j: nat)
    requires Healthy(d) && j < slot < MAX_SAVE_SLOTS && |data| <= MAX_RAM
    ensures Matches(SaveAt(d, SlotLba(slot), header, data).0, j, hash) == Matches(d, j, hash)
  {
    SaveEffect(d, SlotLba(slot), header, data);
    assert SaveAt(d, SlotLba(slot), header, data).0.sectors[SlotLba(j)] == d.sectors[SlotLba(j)];
  }

  /** A save is found afterwards in its own slot. */
  lemma SavedIsFound(d: Disk, hash: u32, name: Name, timestamp: u32, data: seq<byte>)
    requires Healthy(d) && 0 < |data| <= MAX_RAM
    ensures FindFrom(SaveGame(d, hash, name, timestamp, data).0, hash, 0) == Some(SlotFor(d, hash))
  {
    var slot, e := SlotFor(d, hash), SaveGame(d, hash, name, timestamp, data).0;
    SlotHolds(d, hash, name, timestamp, data);
    forall j | 0 <= j < slot
      ensures !Matches(e, j, hash)
    {
      NoneBefore(d, hash, j);
      SameBefore(d, slot, HeaderSector(hash, name, timestamp, data), data, hash, j);
    }
    FoundFirst(e, hash, slot);
  }

  /** On every healthy disk, a save of at most 64 sectors loads back right after it was made. */
  lemma SavedLoads(d: Disk, hash: u32, name: Name, timestamp: u32, data: seq<byte>, buffer: seq<byte>)
    requires Healthy(d) && 0 < |data| <= MAX_RAM && |data| <= |buffer|
    ensures LoadGame(SaveGame(d, hash, name, timestamp, data).0, hash, buffer) == (data + buffer[|data|..], LoadSuccess)
  {
    var e := SaveGame(d, hash, name, timestamp, data).0;
    SlotHolds(d, hash, name, timestamp, data);
    SavedIsFound(d, hash, name, timestamp, data);
    FindAgrees(e, hash, 0);
    LoadRefines(e, hash, buffer);
  }

  /** Later, as long as the save is found in its slot and that slot's 64 sectors are as they were, it loads back if
      and only if the header sector of the next slot still starts with the bytes of the save that lie there. */
  lemma LargeLoadsIff(d: Disk, e: Disk, hash: u32, slot: nat, buffer: seq<byte>)
    requires Healthy(d) && Healthy(e) && FindFrom(d, hash, 0) == Some(slot) && FindFrom(e, hash, 0) == Some(slot)
    requires forall l :: SlotLba(slot) <= l < SlotLba(slot) + SECTORS_PER_SLOT ==> e.sectors[l] == d.sectors[l]
    requires |Contents(d)[slot].value.data| <= |buffer|
    ensures LoadGame(e, hash, buffer) == LoadGame(d, hash, buffer)
            <==> EndsIn(Contents(d)[slot].value, e.sectors[SlotLba(slot + 1)])
  {
    var entry, next := Contents(d)[slot].value, e.sectors[SlotLba(slot + 1)];
    SlotDepends(d, e, slot);
    FindAgrees(d, hash, 0);
    FindAgrees(e, hash, 0);
    LoadRefines(d, hash, buffer);
    LoadRefines(e, hash, buffer);
    TailSame(entry, next);
    var late := Contents(e)[slot].value.data;
    assert |late| == |entry.data|;
    assert (late + buffer[|late|..])[..|late|] == late;
    assert (entry.data + buffer[|late|..])[..|late|] == entry.data;
  }

  // ---- A bounded map ----

  /** At most one valid slot per hash. */
  predicate Unique(t: Table) {
    forall i, j :: 0 <= i < j < MAX_SAVE_SLOTS && t[i].Some? && t[j].Some? ==> t[i].value.hash != t[j].value.hash
  }

  function Keys(t: Table): set<u32> {
    set i | 0 <= i < MAX_SAVE_SLOTS && t[i].Some? :: t[i].value.hash
  }

  predicate Full(t: Table) {
    forall i :: 0 <= i < MAX_SAVE_SLOTS ==> t[i].Some?
  }

  /** What a save of the hash displaces: only with all slots full, and then slot 0. */
  function Evicted(t: Table, hash: u32): set<u32> {
    if hash !in Keys(t) && Full(t) then {t[0].value.hash} else {}
  }

  function Lookup(t: Table, hash: u32): Option<seq<byte>> {
    match Find(t, hash, 0)
    case Some(i) => Some(t[i].value.data)
    case None => None
  }

  function ToMap(t: Table): map<u32, seq<byte>> {
    map h | h in Keys(t) && Lookup(t, h).Some? :: Lookup(t, h).value
  }

  lemma KeysAreFound(t: Table, hash: u32)
    ensures hash in Keys(t) <==> Find(t, hash, 0).Some?
    ensures hash in ToMap(t) <==> hash in Keys(t)
  {
  }

  lemma UniqueFind(t: Table, hash: u32, i: nat)
    requires Unique(t) && i < MAX_SAVE_SLOTS && Holds(t[i], hash)
    ensures Find(t, hash, 0) == Some(i)
  {
  }

  /** Hash by hash, a save sets its own entry, drops the evicted one, and leaves the rest. */
  lemma SaveLookup(t: Table, hash: u32, data: seq<byte>, h: u32)
    requires Unique(t)
    ensures Unique(Save(t, hash, data))
    ensures Lookup(Save(t, hash, data), h) ==
            if h == hash then Some(data) else if h in Evicted(t, hash) then None else Lookup(t, h)
  {
    var i, u := Place(t, hash), Save(t, hash, data);
    KeysAreFound(t, hash);
    assert Unique(u);
    UniqueFind(u, hash, i);
    if h != hash {
      KeptLookup(t, u, i, h);
      assert h in Evicted(t, hash) ==> Holds(t[i], h);
      assert Holds(t[i], h) ==> h in Evicted(t, hash);
    }
  }

  /** Changing entry `i` to another hash leaves the lookup of `h` alone, unless `h` was there. */
  lemma KeptLookup(t: Table, u: Table, i: nat, h: u32)
    requires Unique(t) && Unique(u) && i < MAX_SAVE_SLOTS && !Holds(u[i], h)
    requires forall j :: 0 <= j < MAX_SAVE_SLOTS && j != i ==> u[j] == t[j]
    ensures Lookup(u, h) == if Holds(t[i], h) then None else Lookup(t, h)
  {
  }

  lemma DeleteLookup(t: Table, hash: u32, h: u32)
    requires Unique(t)
    ensures Unique(Delete(t, hash))
    ensures Lookup(Delete(t, hash), h) == if h == hash then None else Lookup(t, h)
  {
  }

  predicate SameAt(m: map<u32, seq<byte>>, n: map<u32, seq<byte>>, h: u32) {
    if h in m then h in n && m[h] == n[h] else h !in n
  }

  lemma SameMap(m: map<u32, seq<byte>>, n: map<u32, seq<byte>>)
    requires forall h: u32 :: SameAt(m, n, h)
    ensures m == n
  {
    assert forall h: u32 :: h in m <==> h in n by {
      forall h: u32 ensures h in m <==> h in n { assert SameAt(m, n, h); }
    }
    assert forall h: u32 :: h in m ==> m[h] == n[h] by {
      forall h: u32 | h in m ensures m[h] == n[h] { assert SameAt(m, n, h); }
    }
  }

  /** The table is a map of at most sixteen entries: saving is map update after eviction. */
  lemma SaveIsMapUpdate(t: Table, hash: u32, data: seq<byte>)
    requires Unique(t)
    ensures ToMap(Save(t, hash, data)) == (ToMap(t) - Evicted(t, hash))[hash := data]
  {
    var m, n := ToMap(Save(t, hash, data)), (ToMap(t) - Evicted(t, hash))[hash := data];
    forall h: u32
      ensures SameAt(m, n, h)
    {
      SaveLookup(t, hash, data, h);
      KeysAreFound(t, h);
      KeysAreFound(Save(t, hash, data), h);
    }
    SameMap(m, n);
  }

  lemma DeleteAt(t: Table, hash: u32, h: u32)
    requires Unique(t)
    ensures h in ToMap(Delete(t, hash)) <==> h in ToMap(t) && h != hash
    ensures h in ToMap(Delete(t, hash)) ==> ToMap(Delete(t, hash))[h] == ToMap(t)[h]
  {
    DeleteLookup(t, hash, h);
    KeysAreFound(t, h);
    KeysAreFound(Delete(t, hash), h);
  }

  lemma DeleteIsMapRemoval(t: Table, hash: u32)
    requires Unique(t)
    ensures ToMap(Delete(t, hash)) == ToMap(t) - {hash}
  {
    forall h: u32
      ensures SameAt(ToMap(Delete(t, hash)), ToMap(t) - {hash}, h)
    {
      DeleteAt(t, hash, h);
    }
    SameMap(ToMap(Delete(t, hash)), ToMap(t) - {hash});
  }

  // ---- Sixteen saves ----

  function Used(t: Table, n: nat): nat
    requires n <= MAX_SAVE_SLOTS
  {
    if n == 0 then 0 else Used(t, n - 1) + if t[n - 1].Some? then 1 else 0
  }

  function KeysBelow(t: Table, n: nat): set<u32>
    requires n <= MAX_SAVE_SLOTS
  {
    set i | 0 <= i < n && t[i].Some? :: t[i].value.hash
  }

  lemma KeysOn(t: Table, n: nat)
    requires Unique(t) && 0 < n <= MAX_SAVE_SLOTS
    ensures t[n - 1].None? ==> KeysBelow(t, n) == KeysBelow(t, n - 1)
    ensures t[n - 1].Some? ==>
              KeysBelow(t, n) == KeysBelow(t, n - 1) + {t[n - 1].value.hash} && t[n - 1].value.hash !in KeysBelow(t, n - 1)
  {
  }

  lemma {:induction false} KeysCounted(t: Table, n: nat)
    requires Unique(t) && n <= MAX_SAVE_SLOTS
    ensures |KeysBelow(t, n)| == Used(t, n)
  {
    if n == 0 {
      assert KeysBelow(t, 0) == {};
    } else {
      KeysCounted(t, n - 1);
      KeysOn(t, n);
    }
  }

  lemma {:induction false} UsedIff(t: Table, n: nat)
    requires n <= MAX_SAVE_SLOTS
    ensures Used(t, n) <= n
    ensures Used(t, n) == n <==> forall i :: 0 <= i < n ==> t[i].Some?
  {
    if n > 0 { UsedIff(t, n - 1); }
  }

  /** There is room for sixteen saves, and one is lost exactly when a seventeenth is made. */
  lemma EvictsSeventeenth(t: Table, hash: u32)
    requires Unique(t)
    ensures |Keys(t)| <= 16
    ensures Evicted(t, hash) != {} <==> hash !in Keys(t) && |Keys(t)| == 16
  {
    KeysCounted(t, 16);
    UsedIff(t, 16);
    assert Keys(t) == KeysBelow(t, 16);
  }
}
