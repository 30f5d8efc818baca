/** Whole runs of saves and deletes on the save area of kernel/src/storage/savefile.rs, and the exact size up
    to which a save keeps to its slot. */
module SaveRuns {
  import opened Common
  import opened SaveArea
  import opened SaveTable

  datatype Op = SaveOp(hash: u32, name: Name, timestamp: u32, data: seq<byte>) | DeleteOp(hash: u32)

  predicate Fits(op: Op) {
    op.SaveOp? ==> |op.data| <= SAFE_SIZE
  }

  function DiskStep(d: Disk, op: Op): Disk
    requires Fits(op)
  {
    match op
    case SaveOp(hash, name, timestamp, data) => SaveGame(d, hash, name, timestamp, data).0
    case DeleteOp(hash) => DeleteSave(d, hash).0
  }

  function TableStep(t: Table, op: Op): Table {
    match op
    case SaveOp(hash, _, _, data) => if data == [] then t else Save(t, hash, data)
    case DeleteOp(hash) => Delete(t, hash)
  }

  function DiskRun(d: Disk, ops: seq<Op>): Disk
    requires forall k :: 0 <= k < |ops| ==> Fits(ops[k])
    decreases |ops|
  {
    if ops == [] then d else DiskStep(DiskRun(d, ops[..|ops| - 1]), ops[|ops| - 1])
  }

  function TableRun(t: Table, ops: seq<Op>): Table
    decreases |ops|
  {
    if ops == [] then t else TableStep(TableRun(t, ops[..|ops| - 1]), ops[|ops| - 1])
  }

  predicate Sound(d: Disk) {
    Healthy(d) && Small(Contents(d)) && Unique(Contents(d))
  }

  lemma StepRefines(d: Disk, op: Op)
    requires Sound(d) && Fits(op)
    ensures Sound(DiskStep(d, op)) && Contents(DiskStep(d, op)) == TableStep(Contents(d), op)
  {
    match op
    case SaveOp(hash, name, timestamp, data) =>
      if data != [] {
        SaveRefines(d, hash, name, timestamp, data);
        SaveLookup(Contents(d), hash, data, hash);
      }
    case DeleteOp(hash) =>
      DeleteRefines(d, hash);
      DeleteLookup(Contents(d), hash, hash);
  }

  /** Every run of saves and deletes on the disk is the same run on the table, and at every point at most one
      valid slot exists per hash. */
  lemma {:induction false} RunRefines(d: Disk, ops: seq<Op>)
    requires Sound(d) && forall k :: 0 <= k < |ops| ==> Fits(ops[k])
    ensures Sound(DiskRun(d, ops)) && Contents(DiskRun(d, ops)) == TableRun(Contents(d), ops)
    decreases |ops|
  {
    if ops != [] {
      RunRefines(d, ops[..|ops| - 1]);
      StepRefines(DiskRun(d, ops[..|ops| - 1]), ops[|ops| - 1]);
    }
  }

  /** No operation of the run saves, deletes or evicts the hash. */
  predicate Spares(t: Table, ops: seq<Op>, h: u32)
    decreases |ops|
  {
    ops == []
    || (&& Spares(t, ops[..|ops| - 1], h)
        && ops[|ops| - 1].hash != h
        && (ops[|ops| - 1].SaveOp? ==> h !in Evicted(TableRun(t, ops[..|ops| - 1]), ops[|ops| - 1].hash)))
  }

  lemma {:induction false} SparedStays(t: Table, ops: seq<Op>, h: u32)
    requires Unique(t) && Spares(t, ops, h)
    ensures Unique(TableRun(t, ops)) && Lookup(TableRun(t, ops), h) == Lookup(t, h)
    decreases |ops|
  {
    if ops != [] {
      var u, op := TableRun(t, ops[..|ops| - 1]), ops[|ops| - 1];
      SparedStays(t, ops[..|ops| - 1], h);
      match op
      case SaveOp(hash, _, _, data) => SaveLookup(u, hash, data, h);
      case DeleteOp(hash) => DeleteLookup(u, hash, h);
    }
  }

  /** Loading returns exactly the bytes last saved under the hash, whatever other saves and deletes came in
      between, as long as none of them evicted it. */
  lemma LastSaveLoads(d: Disk, hash: u32, name: Name, timestamp: u32, data: seq<byte>, ops: seq<Op>, buffer: seq<byte>)
    requires Sound(d) && 0 < |data| <= SAFE_SIZE && |data| <= |buffer|
    requires forall k :: 0 <= k < |ops| ==> Fits(ops[k])
    requires Spares(Save(Contents(d), hash, data), ops, hash)
    ensures var saved := SaveGame(d, hash, name, timestamp, data).0;
            LoadGame(DiskRun(saved, ops), hash, buffer) == (data + buffer[|data|..], LoadSuccess)
  {
    var op := SaveOp(hash, name, timestamp, data);
    var t := Save(Contents(d), hash, data);
    StepRefines(d, op);
    RunRefines(DiskStep(d, op), ops);
    SaveLookup(Contents(d), hash, data, hash);
    SparedStays(t, ops, hash);
    LoadRefines(DiskRun(DiskStep(d, op), ops), hash, buffer);
  }

  // ---- The size bound ----

  /** One sector past the last slot. */
  const AREA_END := SAVE_AREA_START + MAX_SAVE_SLOTS * SECTORS_PER_SLOT + 1

  function Blank(n: nat): Disk {
    Disk(true, seq(n, _ => Zeros()), {})
  }

  /** Saves of this size are the table's save, on every healthy disk of small saves. */
  ghost predicate KeepsToSlot(n: nat)
    requires n < 0x1_0000_0000
  {
    forall d, hash, name, timestamp, data ::
      Healthy(d) && Small(Contents(d)) && |data| == n ==>
        SaveIsExact(d, hash, name, timestamp, data)
  }

  ghost predicate SaveIsExact(d: Disk, hash: u32, name: Name, timestamp: u32, data: seq<byte>)
    requires Healthy(d) && |data| < 0x1_0000_0000
  {
    var (e, r) := SaveGame(d, hash, name, timestamp, data);
    r == SaveSuccess && Healthy(e) && Contents(e) == Save(Contents(d), hash, data)
  }

  lemma BlankIsEmpty(n: nat)
    requires n > SAVE_AREA_START + MAX_SAVE_SLOTS * SECTORS_PER_SLOT
    ensures Healthy(Blank(n)) && forall i :: 0 <= i < MAX_SAVE_SLOTS ==> Header(Blank(n), i) == None
  {
  }

  lemma BlankSlot(n: nat, hash: u32)
    requires n > SAVE_AREA_START + MAX_SAVE_SLOTS * SECTORS_PER_SLOT
    ensures SlotFor(Blank(n), hash) == 0
  {
    BlankIsEmpty(n);
  }

  /** On every disk, a save of more than 63 sectors into any slot but the last succeeds and puts its 64th data
      sector where the header of the next slot was. */
  lemma OverrunHitsHeader(d: Disk, hash: u32, name: Name, timestamp: u32, data: seq<byte>)
    requires Healthy(d) && SAFE_SIZE < |data| <= MAX_RAM && SlotFor(d, hash) < MAX_SAVE_SLOTS - 1
    ensures var (e, r) := SaveGame(d, hash, name, timestamp, data);
            r == SaveSuccess && Healthy(e) && e.sectors[SlotLba(SlotFor(d, hash) + 1)] == Chunk(data, 63)
  {
    var slot := SlotFor(d, hash);
    assert SectorsNeeded(|data|) == 64;
    SaveEffect(d, SlotLba(slot), Encode(SaveHeader(SAVE_MAGIC, hash, |data|, timestamp, name)), data);
    assert SlotLba(slot + 1) == SlotLba(slot) + 1 + 63;
  }

  /** The disk whose only save is one byte of hash 1, in slot 1. */
  function OneSave(): Disk {
    Write(Blank(AREA_END), SlotLba(1), Encode(SaveHeader(SAVE_MAGIC, 1, 1, 0, seq(16, _ => 0))))
  }

  lemma OneSaveHolds()
    ensures var d := OneSave();
            && Healthy(d) && Small(Contents(d)) && Contents(d)[1] == Some(Entry(1, [0]))
            && (forall i :: 0 <= i < MAX_SAVE_SLOTS && i != 1 ==> Header(d, i) == None)
  {
    var d, h := OneSave(), SaveHeader(SAVE_MAGIC, 1, 1, 0, seq(16, _ => 0));
    BlankIsEmpty(AREA_END);
    HeaderRoundTrip(h);
    assert Header(d, 1) == Some(h);
    assert forall i :: 0 <= i < MAX_SAVE_SLOTS && i != 1 ==> Header(d, i) == None;
    assert SlotData(d, 1, 1) == [0];
  }

  lemma OneSaveSlot(hash: u32)
    requires hash != 1
    ensures SlotFor(OneSave(), hash) == 0
  {
    OneSaveHolds();
    assert Contents(OneSave())[1] == SlotEntry(OneSave(), 1);
  }

  /** On that disk, any save of zeros that needs 64 sectors goes to slot 0, succeeds, and loses the save in slot 1. */
  lemma OverrunLosesNeighbour(hash: u32, name: Name, timestamp: u32, data: seq<byte>)
    requires hash != 1 && SAFE_SIZE < |data| <= MAX_RAM && forall i :: 0 <= i < |data| ==> data[i] == 0
    ensures var d := OneSave();
            && Healthy(d) && Small(Contents(d)) && SlotFor(d, hash) == 0 && Contents(d)[1] == Some(Entry(1, [0]))
            && var (e, r) := SaveGame(d, hash, name, timestamp, data);
               && r == SaveSuccess && Healthy(e) && Contents(e)[1] == None
               && !SaveIsExact(d, hash, name, timestamp, data)
  {
    var d := OneSave();
    OneSaveHolds();
    OneSaveSlot(hash);
    OverrunHitsHeader(d, hash, name, timestamp, data);
    assert Chunk(data, 63) == Zeros();
    ZerosAreEmpty();
    HeaderAt(SaveGame(d, hash, name, timestamp, data).0, 1, Zeros());
    PlaceAgrees(d, hash);
  }

  lemma HeaderAt(d: Disk, j: nat, s: Sector)
    requires Healthy(d) && j < MAX_SAVE_SLOTS && d.sectors[SlotLba(j)] == s
    ensures Header(d, j) == if IsValid(Decode(s)) then Some(Decode(s)) else None
  {
  }

  /** Empty, and large enough for every save. */
  function LargeBlank(): Disk {
    Blank(0x90_0000)
  }

  /** On the blank disk, any save above 32 KiB goes to slot 0 and succeeds, but writes a header that is never valid:
      the slot holds no save, and when the data hide no header of their own, a later lookup finds nothing. */
  lemma OversizeIsLost(hash: u32, name: Name, timestamp: u32, data: seq<byte>)
    requires MAX_RAM < |data| < 0x1_0000_0000
    ensures var d := LargeBlank();
            && Healthy(d) && Small(Contents(d)) && SlotFor(d, hash) == 0
            && var (e, r) := SaveGame(d, hash, name, timestamp, data);
               && r == SaveSuccess && Healthy(e) && Contents(e)[0] == None
               && ((forall i :: 0 <= i < |data| ==> data[i] == 0) ==> Lookup(Contents(e), hash) == None)
               && !SaveIsExact(d, hash, name, timestamp, data)
  {
    var d, h := LargeBlank(), SaveHeader(SAVE_MAGIC, hash, |data|, timestamp, name);
    BlankIsEmpty(0x90_0000);
    BlankSlot(0x90_0000, hash);
    HeaderRoundTrip(h);
    SaveEffect(d, SlotLba(0), Encode(h), data);
    var e := SaveGame(d, hash, name, timestamp, data).0;
    HeaderAt(e, 0, Encode(h));
    if forall i :: 0 <= i < |data| ==> data[i] == 0 {
      forall j | 1 <= j < MAX_SAVE_SLOTS
        ensures !Matches(e, j, hash)
      {
        StaysZero(e, d, data, SlotLba(j));
        HeaderAt(e, j, Zeros());
      }
      FindAgrees(e, hash, 0);
    }
    PlaceAgrees(d, hash);
    assert Save(Contents(d), hash, data)[0].Some?;
  }

  /** A sector of zeros is still one after a save of zeros. */
  lemma StaysZero(e: Disk, d: Disk, data: seq<byte>, l: nat)
    requires SlotLba(0) < l < |d.sectors| == |e.sectors| && d.sectors[l] == Zeros()
    requires forall i :: 0 <= i < |data| ==> data[i] == 0
    requires var n := SectorsNeeded(|data|);
             && (forall l :: 0 <= l < |d.sectors| && !(SlotLba(0) <= l <= SlotLba(0) + n) ==> e.sectors[l] == d.sectors[l])
             && SlotLba(0) + n < |e.sectors|
             && (forall k :: 0 <= k < n ==> e.sectors[SlotLba(0) + 1 + k] == Chunk(data, k))
    ensures e.sectors[l] == Zeros() && !IsValid(Decode(e.sectors[l]))
  {
    var k := l - SlotLba(0) - 1;
    if k < SectorsNeeded(|data|) {
      assert e.sectors[SlotLba(0) + 1 + k] == Chunk(data, k) == Zeros();
    }
    ZerosAreEmpty();
  }

  /** A nonempty save keeps to its slot, on every healthy disk of small saves, if and only if it has at most 63 data
      sectors: one byte more and a neighbouring save can be lost, although sizes up to 32 KiB are accepted. */
  lemma SizeBoundExact(n: nat)
    requires 0 < n < 0x1_0000_0000
    ensures KeepsToSlot(n) <==> n <= SAFE_SIZE
  {
    if n <= SAFE_SIZE {
      forall d, hash, name, timestamp, data | Healthy(d) && Small(Contents(d)) && |data| == n
        ensures SaveIsExact(d, hash, name, timestamp, data)
      {
        SaveRefines(d, hash, name, timestamp, data);
      }
    } else {
      var data: seq<byte>, name: Name := seq(n, _ => 0), seq(16, _ => 0);
      if n <= MAX_RAM { OverrunLosesNeighbour(2, name, 0, data); } else { OversizeIsLost(2, name, 0, data); }
    }
  }
}
