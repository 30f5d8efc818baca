/** The save area of kernel/src/storage/savefile.rs on any disk, one whose reads and writes fail included: which
    sectors it is made of, when an operation succeeds, and what a failure leaves. */
module SaveDisk {
  import opened Common
  import opened SaveArea
  import opened SaveTable

  // ---- Headers ----

  /** The four bytes at `o`, the lowest first. */
  function WordAt(s: Sector, o: nat): nat
    requires o + 4 <= 512
  {
    var b0: int, b1: int, b2: int, b3: int := s[o], s[o + 1], s[o + 2], s[o + 3];
    b0 + 0x100 * b1 + 0x1_0000 * b2 + 0x100_0000 * b3
  }

  /** A header sector: the magic, the hash, the size and the time in words, the name, and zeros. */
  lemma HeaderLayout(h: SaveHeader)
    ensures var s := Encode(h);
            && s[..4] == h.magic && WordAt(s, 4) == h.romHash && WordAt(s, 8) == h.ramSize
            && WordAt(s, 12) == h.timestamp && s[16..32] == h.romName && forall i :: 32 <= i < 512 ==> s[i] == 0
  {
    LeRoundTrip(h.romHash);
    LeRoundTrip(h.ramSize);
    LeRoundTrip(h.timestamp);
    var s := Encode(h);
    assert s[4..8] == Le32(h.romHash) && s[8..12] == Le32(h.ramSize) && s[12..16] == Le32(h.timestamp);
    WordIs(s, 4);
    WordIs(s, 8);
    WordIs(s, 12);
  }

  lemma WordIs(s: Sector, o: nat)
    requires o + 4 <= 512
    ensures WordAt(s, o) == FromLe32(s[o..o + 4])
  {
  }

  /** A slot holds a save if and only if its header sector, 64 sectors behind the one of the slot before, can be read,
      begins with the letters GBSV and gives a size of 1 to 32768 bytes. */
  lemma HeaderIff(d: Disk, slot: nat)
    ensures var lba := 65536 + 64 * slot;
            && (Header(d, slot).Some? <==>
                  && lba < |d.sectors| && lba !in d.faulty && d.sectors[lba][..4] == [0x47, 0x42, 0x53, 0x56]
                  && 1 <= WordAt(d.sectors[lba], 8) <= 32768)
            && (Header(d, slot).Some? ==>
                  && Header(d, slot).value.romHash == WordAt(d.sectors[lba], 4)
                  && Header(d, slot).value.ramSize == WordAt(d.sectors[lba], 8))
  {
    var lba := 65536 + 64 * slot;
    if lba < |d.sectors| {
      WordIs(d.sectors[lba], 4);
      WordIs(d.sectors[lba], 8);
    }
  }

  // ---- Writing ----

  /** How many of the `n` sectors from `lba` on work before the first that does not. */
  function Working(d: Disk, lba: nat, n: nat): (g: nat)
    ensures g <= n && (forall l :: lba <= l < lba + g ==> Works(d, l)) && (g < n ==> !Works(d, lba + g))
  {
    if n == 0 then 0
    else if Working(d, lba, n - 1) == n - 1 && Works(d, lba + n - 1) then n
    else Working(d, lba, n - 1)
  }

  /** The sector holds the data from byte 512 * k on, and zeros behind its end. */
  predicate IsChunk(s: Sector, data: seq<byte>, k: nat) {
    forall o :: 0 <= o < 512 ==> s[o] == if 512 * k + o < |data| then data[512 * k + o] else 0
  }

  lemma ChunkIs(data: seq<byte>, k: nat)
    ensures IsChunk(Chunk(data, k), data, k)
  {
  }

  /** Chunk `k` of the data stands where it belongs, `k` sectors behind `lba`. */
  predicate ChunkHeld(e: Disk, lba: nat, data: seq<byte>, k: nat) {
    lba + k < |e.sectors| && IsChunk(e.sectors[lba + k], data, k)
  }

  predicate ChunksHeld(e: Disk, lba: nat, data: seq<byte>, n: int) {
    forall k :: 0 <= k < n ==> ChunkHeld(e, lba, data, k)
  }

  /** `e` is `d` with the first `g` chunks of the data from `lba` on. */
  predicate Written(d: Disk, e: Disk, lba: nat, data: seq<byte>, g: nat) {
    && e.present == d.present && e.faulty == d.faulty && |e.sectors| == |d.sectors|
    && ChunksHeld(e, lba, data, g)
    && (forall l :: 0 <= l < |d.sectors| && !(lba <= l < lba + g) ==> e.sectors[l] == d.sectors[l])
  }

  lemma {:induction false} ChunksWrittenTo(d: Disk, lba: nat, data: seq<byte>, n: nat)
    ensures var (e, ok) := WriteChunks(d, lba, data, n);
            Written(d, e, lba, data, Working(d, lba, n)) && ok == (Working(d, lba, n) == n)
  {
    if n > 0 {
      ChunksWrittenTo(d, lba, data, n - 1);
      var u := WriteChunks(d, lba, data, n - 1).0;
      if Working(d, lba, n) == n { OneMoreWritten(d, u, lba, data, n - 1); }
    }
  }

  lemma OneMoreWritten(d: Disk, u: Disk, lba: nat, data: seq<byte>, n: nat)
    requires Written(d, u, lba, data, n) && Works(u, lba + n)
    ensures Written(d, Write(u, lba + n, Chunk(data, n)), lba, data, n + 1)
  {
    var e := Write(u, lba + n, Chunk(data, n));
    ChunkIs(data, n);
    forall k | 0 <= k < n + 1
      ensures ChunkHeld(e, lba, data, k)
    {
      if k < n { assert ChunkHeld(u, lba, data, k); }
    }
  }

  /** The header sector and the data sectors that a save of `n` bytes into the slot takes. */
  function SectorsOf(n: nat): nat {
    1 + (n + 511) / 512
  }

  function SlotStart(slot: nat): nat {
    65536 + 64 * slot
  }

  /** `e` is `d` with the first `g` sectors of a save: its header, then its data. */
  predicate SavedTo(d: Disk, e: Disk, base: nat, header: Sector, data: seq<byte>, g: nat) {
    && e.present == d.present && e.faulty == d.faulty && |e.sectors| == |d.sectors|
    && (g > 0 ==> base < |e.sectors| && e.sectors[base] == header)
    && ChunksHeld(e, base + 1, data, g - 1)
    && (forall l :: 0 <= l < |d.sectors| && !(base <= l < base + g) ==> e.sectors[l] == d.sectors[l])
  }

  /** On any disk: without a device or without data nothing happens. Else the save goes to its slot, sector by sector;
      it succeeds if and only if all of them work, and up to the first that does not they are written all the same.
      No other sector ever changes. */
  lemma SaveOutcome(d: Disk, hash: u32, name: Name, timestamp: u32, data: seq<byte>)
    requires |data| < 0x1_0000_0000
    ensures var (e, r) := SaveGame(d, hash, name, timestamp, data);
            var base, n := SlotStart(SlotFor(d, hash)), SectorsOf(|data|);
            if !d.present then (e, r) == (d, SaveNoDevice)
            else if data == [] then (e, r) == (d, InvalidData)
            else
              && r == (if Working(d, base, n) == n then SaveSuccess else WriteError)
              && SavedTo(d, e, base, Encode(SaveHeader(SAVE_MAGIC, hash, |data|, timestamp, name)), data,
                         Working(d, base, n))
  {
    if d.present && data != [] {
      SaveIs(d, hash, name, timestamp, data);
      SaveAtOutcome(d, SlotStart(SlotFor(d, hash)), Encode(SaveHeader(SAVE_MAGIC, hash, |data|, timestamp, name)),
                    data);
    }
  }

  lemma SaveIs(d: Disk, hash: u32, name: Name, timestamp: u32, data: seq<byte>)
    requires d.present && data != [] && |data| < 0x1_0000_0000
    ensures SaveGame(d, hash, name, timestamp, data)
            == SaveAt(d, SlotStart(SlotFor(d, hash)), Encode(SaveHeader(SAVE_MAGIC, hash, |data|, timestamp, name)),
                      data)
  {
  }

  lemma SaveAtOutcome(d: Disk, base: nat, header: Sector, data: seq<byte>)
    ensures var (e, r) := SaveAt(d, base, header, data);
            var g := Working(d, base, SectorsOf(|data|));
            SavedTo(d, e, base, header, data, g) && r == if g == SectorsOf(|data|) then SaveSuccess else WriteError
  {
    var n := SectorsNeeded(|data|);
    if Works(d, base) {
      var u := Write(d, base, header);
      var e := WriteChunks(u, base + 1, data, n).0;
      var w := Working(u, base + 1, n);
      ChunksWrittenTo(u, base + 1, data, n);
      assert forall l :: Works(u, l) <==> Works(d, l);
      WorkingIs(d, base, n + 1, w + 1);
      BothWritten(d, u, e, base, header, data, w);
    } else {
      WorkingIs(d, base, n + 1, 0);
    }
  }

  lemma BothWritten(d: Disk, u: Disk, e: Disk, base: nat, header: Sector, data: seq<byte>, w: nat)
    requires Works(d, base) && u == Write(d, base, header) && Written(u, e, base + 1, data, w)
    ensures SavedTo(d, e, base, header, data, w + 1)
  {
    assert e.sectors[base] == u.sectors[base] == header;
    forall l | 0 <= l < |d.sectors| && !(base <= l < base + w + 1)
      ensures e.sectors[l] == d.sectors[l]
    {
      assert e.sectors[l] == u.sectors[l];
    }
  }

  lemma WorkingIs(d: Disk, lba: nat, n: nat, g: nat)
    requires g <= n && (forall l :: lba <= l < lba + g ==> Works(d, l)) && (g < n ==> !Works(d, lba + g))
    ensures Working(d, lba, n) == g
  {
    var w := Working(d, lba, n);
    assert !(w < g) && !(g < w);
  }

  // ---- Loading ----

  /** What is in the buffer once the first `g` data sectors of a save of `size` bytes have been read. */
  predicate LoadedTo(d: Disk, lba: nat, size: nat, before: seq<byte>, after: seq<byte>, g: nat) {
    && |after| == |before|
    && forall i :: 0 <= i < |before| ==>
         if i < size && i < 512 * g then
           lba + i / 512 < |d.sectors| && after[i] == d.sectors[lba + i / 512][i % 512]
         else after[i] == before[i]
  }

  lemma {:induction false} ReadTo(d: Disk, lba: nat, size: nat, buffer: seq<byte>, n: nat)
    requires size <= |buffer| && n <= SectorsNeeded(size)
    ensures var (b, ok) := ReadChunks(d, lba, size, buffer, n);
            LoadedTo(d, lba, size, buffer, b, Working(d, lba, n)) && ok == (Working(d, lba, n) == n)
  {
    if n > 0 {
      ReadTo(d, lba, size, buffer, n - 1);
      if Working(d, lba, n) == n { OneMoreRead(d, lba, size, buffer, ReadChunks(d, lba, size, buffer, n - 1).0, n); }
    }
  }

  lemma OneMoreRead(d: Disk, lba: nat, size: nat, before: seq<byte>, b: seq<byte>, n: nat)
    requires size <= |before| && 0 < n <= SectorsNeeded(size) && LoadedTo(d, lba, size, before, b, n - 1)
    requires Works(d, lba + n - 1)
    ensures var offset := (n - 1) * 512;
            var len := if size - offset < 512 then size - offset else 512;
            && 0 <= len && offset + len <= |b|
            && LoadedTo(d, lba, size, before, b[..offset] + d.sectors[lba + n - 1][..len] + b[offset + len..], n)
  {
  }

  /** The load of a save of this size: too large for the buffer, or read up to the first sector that does not work. */
  predicate SlotLoaded(d: Disk, slot: nat, size: nat, buffer: seq<byte>, b: seq<byte>, r: LoadResult) {
    if size > |buffer| then (b, r) == (buffer, SizeMismatch)
    else
      var n := (size + 511) / 512;
      var g := Working(d, SlotStart(slot) + 1, n);
      r == (if g == n then LoadSuccess else ReadError) && LoadedTo(d, SlotStart(slot) + 1, size, buffer, b, g)
  }

  lemma LoadSlotOutcome(d: Disk, slot: nat, size: nat, buffer: seq<byte>)
    ensures var (b, r) := LoadSlot(d, slot, size, buffer); SlotLoaded(d, slot, size, buffer, b, r)
  {
    if size <= |buffer| { ReadTo(d, SlotStart(slot) + 1, size, buffer, SectorsNeeded(size)); }
  }

  /** On any disk: the header found decides. Where the save fits the buffer, its data sectors are read one by one up to
      the first that does not work, and the load succeeds if and only if all of them do. */
  lemma LoadOutcome(d: Disk, hash: u32, buffer: seq<byte>)
    ensures var (b, r) := LoadGame(d, hash, buffer);
            if !d.present then (b, r) == (buffer, LoadNoDevice)
            else if FindFrom(d, hash, 0) == None then (b, r) == (buffer, NoSaveFound)
            else
              var slot := FindFrom(d, hash, 0).value;
              SlotLoaded(d, slot, Header(d, slot).value.ramSize, buffer, b, r)
  {
    if d.present && FindFrom(d, hash, 0).Some? {
      var slot := FindFrom(d, hash, 0).value;
      LoadIs(d, hash, buffer, slot);
      LoadSlotOutcome(d, slot, Header(d, slot).value.ramSize, buffer);
    }
  }

  lemma LoadIs(d: Disk, hash: u32, buffer: seq<byte>, slot: nat)
    requires d.present && FindFrom(d, hash, 0) == Some(slot)
    ensures LoadGame(d, hash, buffer) == LoadSlot(d, slot, Header(d, slot).value.ramSize, buffer)
  {
  }

  lemma FoundAgain(d: Disk, e: Disk, slot: nat, header: Sector, h: SaveHeader, data: seq<byte>, g: nat)
    requires SavedTo(d, e, SlotStart(slot), header, data, g) && g > 0 && slot < MAX_SAVE_SLOTS
    requires Works(d, SlotStart(slot)) && Decode(header) == h && IsValid(h)
    requires forall j :: 0 <= j < slot ==> !Matches(d, j, h.romHash)
    ensures FindFrom(e, h.romHash, 0) == Some(slot) && Header(e, slot) == Some(h)
  {
    assert Matches(e, slot, h.romHash);
    forall j | 0 <= j < slot
      ensures !Matches(e, j, h.romHash)
    {
      assert !Matches(d, j, h.romHash);
      SameHeader(d, e, j, slot);
    }
    FoundFirst(e, h.romHash, slot);
  }

  lemma SameHeader(d: Disk, e: Disk, j: nat, slot: nat)
    requires j < slot && e.faulty == d.faulty && |e.sectors| == |d.sectors|
    requires forall l :: 0 <= l < |d.sectors| && l < SlotStart(slot) ==> e.sectors[l] == d.sectors[l]
    ensures Header(e, j) == Header(d, j)
  {
  }

  /** A save that reports success loads back right after, on any disk, if it has at most 64 data sectors. */
  lemma SuccessLoads(d: Disk, hash: u32, name: Name, timestamp: u32, data: seq<byte>, buffer: seq<byte>)
    requires 0 < |data| <= 32768 && |data| <= |buffer|
    requires SaveGame(d, hash, name, timestamp, data).1 == SaveSuccess
    ensures LoadGame(SaveGame(d, hash, name, timestamp, data).0, hash, buffer) == (data + buffer[|data|..], LoadSuccess)
  {
    var h, slot := SaveHeader(SAVE_MAGIC, hash, |data|, timestamp, name), SlotFor(d, hash);
    SaveOutcome(d, hash, name, timestamp, data);
    HeaderRoundTrip(h);
    forall j | 0 <= j < slot
      ensures !Matches(d, j, hash)
    {
      NoneBefore(d, hash, j);
    }
    LoadsBack(d, SaveGame(d, hash, name, timestamp, data).0, slot, Encode(h), h, data, buffer);
  }

  lemma LoadsBack(d: Disk, e: Disk, slot: nat, header: Sector, h: SaveHeader, data: seq<byte>, buffer: seq<byte>)
    requires d.present && Decode(header) == h && IsValid(h) && h.ramSize == |data| <= |buffer| && slot < MAX_SAVE_SLOTS
    requires forall j :: 0 <= j < slot ==> !Matches(d, j, h.romHash)
    requires var base, n := SlotStart(slot), SectorsOf(|data|);
             Working(d, base, n) == n && SavedTo(d, e, base, header, data, n)
    ensures LoadGame(e, h.romHash, buffer) == (data + buffer[|data|..], LoadSuccess)
  {
    var base, n := SlotStart(slot), SectorsOf(|data|);
    assert Works(d, base);
    FoundAgain(d, e, slot, header, h, data, n);
    LoadIs(e, h.romHash, buffer, slot);
    WorkingAfter(d, e, base, n);
    WholeLoaded(e, slot, data, buffer, n - 1);
  }

  lemma WholeLoaded(e: Disk, slot: nat, data: seq<byte>, buffer: seq<byte>, n: nat)
    requires n == SectorsNeeded(|data|) && |data| <= |buffer| && Working(e, SlotStart(slot) + 1, n) == n
    requires ChunksHeld(e, SlotStart(slot) + 1, data, n)
    ensures LoadSlot(e, slot, |data|, buffer) == (data + buffer[|data|..], LoadSuccess)
  {
    ReadTo(e, SlotStart(slot) + 1, |data|, buffer, n);
    AllLoaded(e, SlotStart(slot) + 1, data, buffer, LoadSlot(e, slot, |data|, buffer).0, n);
  }

  lemma WorkingAfter(d: Disk, e: Disk, base: nat, n: nat)
    requires n > 0 && Working(d, base, n) == n && e.faulty == d.faulty && |e.sectors| == |d.sectors|
    ensures Working(e, base + 1, n - 1) == n - 1
  {
    assert forall l :: Works(d, l) <==> Works(e, l);
    WorkingIs(e, base + 1, n - 1, n - 1);
  }

  lemma AllLoaded(e: Disk, lba: nat, data: seq<byte>, before: seq<byte>, after: seq<byte>, n: nat)
    requires LoadedTo(e, lba, |data|, before, after, n) && |data| <= |before| && |data| <= 512 * n
    requires ChunksHeld(e, lba, data, n)
    ensures after == data + before[|data|..]
  {
    forall i | 0 <= i < |data|
      ensures after[i] == data[i]
    {
      assert ChunkHeld(e, lba, data, i / 512);
    }
  }

  /** On any disk: a delete reports whether there is a save of the hash, and then zeroes its header sector and nothing
      else. */
  lemma DeleteOutcome(d: Disk, hash: u32)
    ensures var (e, r) := DeleteSave(d, hash);
            && (r <==> d.present && FindFrom(d, hash, 0).Some?)
            && if r then
                 var lba := SlotStart(FindFrom(d, hash, 0).value);
                 lba < |d.sectors| && e == d.(sectors := d.sectors[lba := Zeros()])
               else e == d
  {
  }
}
