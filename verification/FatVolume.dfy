/** A FAT32 volume as kernel/src/storage/fat32.rs sees it: clusters, FAT links and directory entries, and what
    a walk over them yields. Module `Fat32` holds the driver itself.

    The layout is that of the Microsoft FAT32 File System Specification v1.03, sections "FAT Data Structure"
    and "FAT Directory Structure". The driver reads 512 bytes of a sector, whatever the volume's sector size. */
module FatVolume {
  import opened Common
  import opened Chains

  const SECTOR_SIZE := 512
  const ENTRIES := 16
  const CHAIN_LIMIT := 0x0FFF_FFF8

  type Sector = s: seq<byte> | |s| == SECTOR_SIZE witness seq(SECTOR_SIZE, _ => 0)

  /** A disk that answers every read the same way: the sectors it can read. */
  type Disk = map<nat, Sector>

  type ClusterSize = n: nat | 1 <= n < 0x100 witness 1

  /** Sector sizes that `mount` lets through. */
  type BytesPerSector = n: nat | 512 <= n <= 4096 witness 512

  /** What mounting established. */
  datatype Volume =
    Volume(disk: Disk, bytesPerSector: BytesPerSector, perCluster: ClusterSize, fatStart: u32, dataStart: u32, root: u32)

  predicate InChain(c: u32) {
    2 <= c < CHAIN_LIMIT
  }

  function Le16(s: Sector, i: nat): u32
    requires i + 1 < SECTOR_SIZE
  {
    var lo: int, hi: int := s[i], s[i + 1];
    lo + hi * 0x100
  }

  function Le32(s: Sector, i: nat): u32
    requires i + 3 < SECTOR_SIZE
  {
    Le16(s, i) + Le16(s, i + 2) * 0x1_0000
  }

  /** `cluster_to_sector`, in 32-bit arithmetic. */
  function ClusterLba(v: Volume, c: u32): nat
    requires InChain(c)
  {
    (v.dataStart + (c - 2) * v.perCluster) % 0x1_0000_0000
  }

  /** Where `get_next_cluster` looks for the link of a cluster. */
  function LinkSector(v: Volume, c: u32): nat {
    (v.fatStart + c * 4 / v.bytesPerSector) % 0x1_0000_0000
  }

  function LinkOffset(v: Volume, c: u32): nat {
    c * 4 % v.bytesPerSector
  }

  /** The link lies inside the 512 bytes read; otherwise `get_next_cluster` panics, once the sector is read. */
  predicate LinkFits(v: Volume, c: u32) {
    LinkSector(v, c) in v.disk ==> LinkOffset(v, c) + 4 <= SECTOR_SIZE
  }

  /** `get_next_cluster`; None is a read error. */
  function NextCluster(v: Volume, c: u32): Option<u32>
    requires LinkFits(v, c)
  {
    var lba := LinkSector(v, c);
    if lba in v.disk then Some(Le32(v.disk[lba], LinkOffset(v, c)) % 0x1000_0000) else None
  }

  lemma LinkFitsAt512(v: Volume, c: u32)
    requires v.bytesPerSector == 512
    ensures LinkFits(v, c)
  {
    DivModIs(LinkOffset(v, c), c % 128, 0, 4);
  }

  // ---- Directory entries ----

  datatype Verdict = EndOfDirectory | NotRom | IsRom

  /** `to_ascii_uppercase`. */
  function Upper(b: byte): byte {
    if 0x61 <= b <= 0x7A then b - 0x20 else b
  }

  /** What a walk makes of entry `i` of a directory sector. */
  function Classify(s: Sector, i: nat): Verdict
    requires i < ENTRIES
  {
    var at := i * 32;
    var attr := s[at + 11];
    if s[at] == 0x00 then EndOfDirectory
    else if s[at] == 0xE5 || attr == 0x0F || attr == 0x08 || Bit(attr, 4) then NotRom
    else
      var e0, e1, e2 := Upper(s[at + 8]), Upper(s[at + 9]), Upper(s[at + 10]);
      if e0 == 0x47 && e1 == 0x42 && (e2 == 0x20 || e2 == 0x43) then IsRom else NotRom
  }

  /** A ROM file: first cluster, size, and its name as `NAME.EXT`, zero-padded to twelve bytes. */
  datatype Rom = Rom(cluster: u32, size: u32, name: seq<byte>)

  function Unpadded(s: seq<byte>): (r: seq<byte>)
    ensures |r| <= |s|
  {
    if s == [] then [] else Unpadded(s[..|s| - 1]) + if s[|s| - 1] == 0x20 then [] else [s[|s| - 1]]
  }

  lemma UnpaddedOn(s: seq<byte>, from: nat, to: nat)
    requires from <= to < |s|
    ensures Unpadded(s[from..to + 1]) == Unpadded(s[from..to]) + if s[to] == 0x20 then [] else [s[to]]
  {
    assert s[from..to + 1][..to - from] == s[from..to];
  }

  function Zeros(n: nat): (s: seq<byte>)
    ensures |s| == n && forall i :: 0 <= i < n ==> s[i] == 0
  {
    seq(n, _ => 0)
  }

  function RomName(s: Sector, i: nat): (r: seq<byte>)
    requires i < ENTRIES
    ensures |r| == 12
  {
    var name := Unpadded(s[i * 32..i * 32 + 8]) + [0x2E] + Unpadded(s[i * 32 + 8..i * 32 + 11]);
    name + Zeros(12 - |name|)
  }

  function RomAt(s: Sector, i: nat): Rom
    requires i < ENTRIES
  {
    var at := i * 32;
    Rom(Le16(s, at + 20) * 0x1_0000 + Le16(s, at + 26), Le32(s, at + 28), RomName(s, i))
  }

  // ---- Walking the root directory ----

  /** The ROMs in entries `i..16` of a sector, and whether the directory ends there. */
  function ScanSector(s: Sector, i: nat): (seq<Rom>, bool)
    requires i <= ENTRIES
    decreases |s| / 32 - i
  {
    if i == ENTRIES then ([], false)
    else
      match Classify(s, i)
      case EndOfDirectory => ([], true)
      case NotRom => ScanSector(s, i + 1)
      case IsRom =>
        var (rest, end) := ScanSector(s, i + 1);
        ([RomAt(s, i)] + rest, end)
  }

  /** The ROMs in sectors `k..` of a cluster, and whether the walk ends there; a read error ends it. */
  function ScanCluster(v: Volume, lba: nat, k: nat): (seq<Rom>, bool)
    requires k <= v.perCluster
    decreases v.perCluster - k
  {
    if k == v.perCluster then ([], false)
    else if lba + k !in v.disk then ([], true)
    else
      var (first, end) := ScanSector(v.disk[lba + k], 0);
      if end then (first, true)
      else
        var (rest, end) := ScanCluster(v, lba, k + 1);
        (first + rest, end)
  }

  /** A scan stands at entry `i` of a sector with `counted` of its ROMs behind it. */
  predicate AtEntry(s: Sector, scan: (seq<Rom>, bool), counted: nat, i: nat) {
    i <= ENTRIES && counted <= |scan.0| && (scan.0[counted..], scan.1) == ScanSector(s, i)
  }

  lemma EntryOn(s: Sector, scan: (seq<Rom>, bool), counted: nat, i: nat)
    requires AtEntry(s, scan, counted, i) && i < ENTRIES
    ensures match Classify(s, i)
            case EndOfDirectory => counted == |scan.0| && scan.1
            case NotRom => AtEntry(s, scan, counted, i + 1)
            case IsRom => counted < |scan.0| && scan.0[counted] == RomAt(s, i) && AtEntry(s, scan, counted + 1, i + 1)
  {
    if Classify(s, i) == IsRom {
      assert scan.0[counted..] == [RomAt(s, i)] + ScanSector(s, i + 1).0;
      assert scan.0[counted + 1..] == scan.0[counted..][1..];
    }
  }

  /** A scan stands at sector `k` of a cluster with `counted` of its ROMs behind it. */
  predicate AtSector(v: Volume, lba: nat, scan: (seq<Rom>, bool), counted: nat, k: nat) {
    k <= v.perCluster && counted <= |scan.0| && (scan.0[counted..], scan.1) == ScanCluster(v, lba, k)
  }

  lemma SectorOn(v: Volume, lba: nat, scan: (seq<Rom>, bool), counted: nat, k: nat)
    requires AtSector(v, lba, scan, counted, k) && k < v.perCluster
    ensures if lba + k !in v.disk then counted == |scan.0| && scan.1
            else
              var (first, end) := ScanSector(v.disk[lba + k], 0);
              && counted + |first| <= |scan.0|
              && (forall i :: 0 <= i < |first| ==> first[i] == scan.0[counted + i])
              && if end then counted + |first| == |scan.0| && scan.1
                 else AtSector(v, lba, scan, counted + |first|, k + 1)
  {
    if lba + k in v.disk {
      var (first, end) := ScanSector(v.disk[lba + k], 0);
      var rest := scan.0[counted..];
      assert first <= rest;
      assert rest[|first|..] == scan.0[counted + |first|..];
      assert forall i :: 0 <= i < |first| ==> rest[i] == first[i];
    }
  }

  /** A cluster number as the walk sees it: None outside the chain range. */
  function Link(c: u32): Option<nat> {
    if InChain(c) then Some(c) else None
  }

  /** A walk that panics never comes back, like one that goes round in circles: it stays in this cell. */
  const PANIC: nat := CHAIN_LIMIT

  /** What the walk finds in a cluster, and where it goes next: nowhere after an end marker, a read error or
      the end of the chain. */
  function VisitCluster(v: Volume, c: nat): Visit<Rom> {
    if c == PANIC then Visit([], Some(PANIC))
    else if c > PANIC || !InChain(c) then Visit([], None)
    else
      var (roms, end) := ScanCluster(v, ClusterLba(v, c), 0);
      Visit(roms, if end then None else AfterCluster(v, c))
  }

  function AfterCluster(v: Volume, c: u32): Option<nat> {
    if !LinkFits(v, c) then Some(PANIC)
    else
      match NextCluster(v, c)
      case None => None
      case Some(next) => Link(next)
  }

  function Clusters(v: Volume): Cells<Rom> {
    (c: nat) => VisitCluster(v, c)
  }

  /** The walk over the whole root directory comes back. */
  ghost predicate Finite(v: Volume) {
    Terminates(Clusters(v), Link(v.root))
  }

  /** The ROMs of the root directory, in the order every walk meets them. */
  ghost function Directory(v: Volume): seq<Rom>
    requires Finite(v)
  {
    Items(Clusters(v), Link(v.root))
  }

  /** The search for ROM `index` comes back. */
  ghost predicate Finds(v: Volume, index: nat) {
    Answers(Clusters(v), Link(v.root), index)
  }

  /** ROM `index` of the root directory, if there is one. */
  ghost function RomEntry(v: Volume, index: nat): Option<Rom>
    requires Finds(v, index)
  {
    Entry(Clusters(v), Link(v.root), index)
  }

  /** On a walk that comes back every search does, with the ROM of the directory. */
  lemma FiniteFinds(v: Volume, index: nat)
    requires Finite(v)
    ensures Finds(v, index) && RomEntry(v, index) == Pick(Directory(v), index)
  {
    EndedAnswers(Clusters(v), Link(v.root), index);
  }

  lemma {:induction false} StuckInPanic(v: Volume, cells: Cells<Rom>, n: nat)
    requires forall x: nat :: cells(x) == VisitCluster(v, x)
    ensures Walk(cells, Some(PANIC), n) == ([], false)
    decreases n
  {
    if n > 0 {
      StuckInPanic(v, cells, n - 1);
      assert cells(PANIC) == Visit([], Some(PANIC));
      assert cells(PANIC).items + Walk(cells, Some(PANIC), n - 1).0 == [];
    }
  }

  /** A walk stands at cluster `c` with `counted` of the ROMs `dir` behind it and `left` clusters to go. */
  ghost predicate AtCluster(v: Volume, dir: seq<Rom>, fin: bool, c: u32, counted: nat, left: nat) {
    counted <= |dir| && Walk(Clusters(v), Link(c), left) == (dir[counted..], fin)
  }

  /** The start of a search for ROM `index`, with enough clusters to go. */
  lemma SearchStarts(v: Volume, index: nat) returns (dir: seq<Rom>, fin: bool, left: nat)
    requires Finds(v, index)
    ensures AtCluster(v, dir, fin, v.root, 0, left) && (fin || index < |dir|)
    ensures RomEntry(v, index) == Pick(dir, index)
  {
    left :| Settles(Clusters(v), Link(v.root), index, left);
    dir, fin := Walk(Clusters(v), Link(v.root), left).0, Walk(Clusters(v), Link(v.root), left).1;
    EntryIs(Clusters(v), Link(v.root), index, left);
    assert dir[0..] == dir;
  }

  /** The start of a walk over the whole directory. */
  lemma WalkStarts(v: Volume) returns (left: nat)
    requires Finite(v)
    ensures AtCluster(v, Directory(v), true, v.root, 0, left)
  {
    left :| Walk(Clusters(v), Link(v.root), left).1;
    ItemsAre(Clusters(v), Link(v.root), left);
    assert Directory(v)[0..] == Directory(v);
  }

  /** What a walk for ROM `index` meets at a cluster: the next ROMs of `dir`; and unless the ROM is among them,
      the last ones if the walk stops here, and otherwise a link to go on by. */
  lemma WalkOn(v: Volume, dir: seq<Rom>, fin: bool, c: u32, counted: nat, left: nat, index: nat)
    requires InChain(c) && AtCluster(v, dir, fin, c, counted, left)
    requires counted <= index && (fin || index < |dir|)
    ensures left > 0
    ensures var (roms, end) := ScanCluster(v, ClusterLba(v, c), 0);
            && counted + |roms| <= |dir|
            && (forall i :: 0 <= i < |roms| ==> roms[i] == dir[counted + i])
            && (counted + |roms| <= index ==>
                  if end then counted + |roms| == |dir|
                  else
                    && LinkFits(v, c)
                    && if NextCluster(v, c).None? then counted + |roms| == |dir|
                       else AtCluster(v, dir, fin, NextCluster(v, c).value, counted + |roms|, left - 1))
  {
    var cells, rest := Clusters(v), dir[counted..];
    var visit := VisitCluster(v, c);
    if left > 0 {
      var tail := Walk(cells, visit.next, left - 1);
      assert Walk(cells, Link(c), left) == (visit.items + tail.0, tail.1);
      assert rest == visit.items + tail.0;
      assert dir[counted + |visit.items|..] == rest[|visit.items|..] == tail.0;
      assert forall i :: 0 <= i < |visit.items| ==> rest[i] == visit.items[i];
      if visit.next == Some(PANIC) { StuckInPanic(v, cells, left - 1); }
    }
  }

  /** The end of a search that has passed every cluster. */
  lemma WalkOver(v: Volume, dir: seq<Rom>, fin: bool, c: u32, counted: nat, left: nat)
    requires !InChain(c) && AtCluster(v, dir, fin, c, counted, left)
    ensures counted == |dir|
  {
  }

  /** The walk over the root directory comes back if and only if it never meets a cell it has visited; the cells
      are the clusters, and the one of a panic. */
  lemma FiniteIffAcyclic(v: Volume)
    ensures Finite(v) <==> !Cyclic(Clusters(v), Link(v.root))
  {
    EndsIffAcyclic(Clusters(v), Link(v.root), CHAIN_LIMIT + 1);
  }

  // ---- File contents ----

  /** What a read comes to: bytes, a read error, or a panic in `get_next_cluster`. */
  datatype Outcome = Reads(bytes: seq<byte>) | Fails | Panics

  /** What is read first, in front of what is read after it. */
  function Prepended(first: seq<byte>, rest: Outcome): Outcome {
    if rest.Reads? then Reads(first + rest.bytes) else rest
  }

  lemma PrependNothing(rest: Outcome)
    ensures Prepended([], rest) == rest
  {
    assert rest.Reads? ==> [] + rest.bytes == rest.bytes;
  }

  lemma PrependTwice(first: seq<byte>, next: seq<byte>, rest: Outcome)
    ensures Prepended(first, Prepended(next, rest)) == Prepended(first + next, rest)
  {
    assert rest.Reads? ==> first + (next + rest.bytes) == first + next + rest.bytes;
  }

  /** The buffer `now` is `before` with the bytes `done` written at `start..count`, within `want`. */
  predicate Copied(now: seq<byte>, before: seq<byte>, start: nat, want: nat, count: nat, done: seq<byte>) {
    && start <= count == start + |done| <= want <= |before|
    && now == before[..start] + done + before[count..]
  }

  lemma CopyTwice(before: seq<byte>, mid: seq<byte>, now: seq<byte>, start: nat, want: nat,
                  at: nat, done: seq<byte>, count: nat, more: seq<byte>)
    requires Copied(mid, before, start, want, at, done) && Copied(now, mid, at, want, count, more)
    ensures Copied(now, before, start, want, count, done + more)
  {
  }

  /** The bytes `read_file` takes from sectors `k..` of a cluster, at most `want`. */
  function ClusterBytes(v: Volume, lba: nat, k: nat, want: nat): (r: Outcome)
    requires k <= v.perCluster
    ensures r != Panics
    ensures r.Reads? ==> |r.bytes| == var room := (v.perCluster - k) * SECTOR_SIZE; if want < room then want else room
    decreases v.perCluster - k
  {
    if k == v.perCluster || want == 0 then Reads([])
    else if lba + k !in v.disk then Fails
    else
      var n := if want < SECTOR_SIZE then want else SECTOR_SIZE;
      Prepended(v.disk[lba + k][..n], ClusterBytes(v, lba, k + 1, want - n))
  }

  /** The bytes `read_file` delivers from cluster `c` on, at most `want`. It stops on any FAT, cyclic ones
      included, because every cluster delivers something. The link of the last cluster used is read too, and
      its read error fails the call. */
  function FileBytes(v: Volume, c: u32, want: nat): (r: Outcome)
    ensures r.Reads? ==> |r.bytes| <= want
    decreases want
  {
    if want == 0 || !InChain(c) then Reads([])
    else
      var first := ClusterBytes(v, ClusterLba(v, c), 0, want);
      if !first.Reads? then first
      else if !LinkFits(v, c) then Panics
      else
        match NextCluster(v, c)
        case None => Fails
        case Some(next) => Prepended(first.bytes, FileBytes(v, next, want - |first.bytes|))
  }

  /** At 512 bytes a sector no read panics, on any FAT, cyclic ones included. Module `FatPanic` has the others. */
  lemma {:induction false} NoPanicReadingAt512(v: Volume, c: u32, want: nat)
    requires v.bytesPerSector == 512
    ensures FileBytes(v, c, want) != Panics
    decreases want
  {
    if want > 0 && InChain(c) {
      LinkFitsAt512(v, c);
      var first := ClusterBytes(v, ClusterLba(v, c), 0, want);
      if first.Reads? && NextCluster(v, c).Some? {
        NoPanicReadingAt512(v, NextCluster(v, c).value, want - |first.bytes|);
      }
    }
  }

  /** `cs` are clusters linked in the FAT, starting with `c`. */
  ghost predicate Linked(v: Volume, c: u32, cs: seq<u32>) {
    && (cs != [] ==> cs[0] == c)
    && (forall k :: 0 <= k < |cs| ==> InChain(cs[k]))
    && (forall k :: 0 <= k < |cs| - 1 ==> LinkFits(v, cs[k]) && NextCluster(v, cs[k]) == Some(cs[k + 1]))
  }

  /** Byte `b` of the concatenated data of the clusters, each as many sectors as a cluster has behind the one before
      it in the data area. */
  ghost predicate ByteAt(v: Volume, cs: seq<u32>, b: nat, x: byte) {
    var t := b / SECTOR_SIZE;
    t / v.perCluster < |cs| && InChain(cs[t / v.perCluster])
    && var lba := (v.dataStart + (cs[t / v.perCluster] - 2) * v.perCluster) % 0x1_0000_0000 + t % v.perCluster;
       lba in v.disk && x == v.disk[lba][b % SECTOR_SIZE]
  }

  lemma {:induction false} ClusterBytesAt(v: Volume, lba: nat, k: nat, want: nat, b: nat)
    requires k <= v.perCluster && ClusterBytes(v, lba, k, want).Reads? && b < |ClusterBytes(v, lba, k, want).bytes|
    ensures lba + k + b / SECTOR_SIZE in v.disk
    ensures ClusterBytes(v, lba, k, want).bytes[b] == v.disk[lba + k + b / SECTOR_SIZE][b % SECTOR_SIZE]
    decreases v.perCluster - k
  {
    if b >= SECTOR_SIZE {
      ClusterBytesAt(v, lba, k + 1, want - SECTOR_SIZE, b - SECTOR_SIZE);
    }
  }

  /** The bytes in `n` clusters. */
  function Room(n: nat, per: nat): nat {
    n * per * SECTOR_SIZE
  }

  lemma RoomGrows(n: nat, per: nat)
    ensures Room(n + 1, per) == per * SECTOR_SIZE + Room(n, per)
  {
  }

  /** What a successful read delivers is a prefix of the concatenated data of the linked clusters; it falls
      short of `want` only when the chain has ended. */
  ghost predicate ChainPrefix(v: Volume, c: u32, want: nat, cs: seq<u32>, bytes: seq<byte>) {
    var room := Room(|cs|, v.perCluster);
    && Linked(v, c, cs)
    && |bytes| == (if want < room then want else room)
    && (forall b :: 0 <= b < |bytes| ==> ByteAt(v, cs, b, bytes[b]))
    && (|bytes| < want ==>
          if cs == [] then !InChain(c)
          else LinkFits(v, cs[|cs| - 1]) && NextCluster(v, cs[|cs| - 1]).Some? && !InChain(NextCluster(v, cs[|cs| - 1]).value))
  }

  lemma {:induction false} FileIsChainPrefix(v: Volume, c: u32, want: nat) returns (cs: seq<u32>)
    requires FileBytes(v, c, want).Reads?
    ensures ChainPrefix(v, c, want, cs, FileBytes(v, c, want).bytes)
    decreases want
  {
    if want == 0 || !InChain(c) {
      cs := [];
    } else {
      var first := ClusterBytes(v, ClusterLba(v, c), 0, want).bytes;
      var next := NextCluster(v, c).value;
      var tail := FileIsChainPrefix(v, next, want - |first|);
      cs := [c] + tail;
      PrefixGrows(v, c, next, want, first, tail, FileBytes(v, next, want - |first|).bytes);
    }
  }

  /** One more cluster in front. */
  lemma PrefixGrows(v: Volume, c: u32, next: u32, want: nat, first: seq<byte>, tail: seq<u32>, rest: seq<byte>)
    requires want > 0 && InChain(c) && LinkFits(v, c) && NextCluster(v, c) == Some(next)
    requires ClusterBytes(v, ClusterLba(v, c), 0, want) == Reads(first)
    requires |first| <= want && ChainPrefix(v, next, want - |first|, tail, rest)
    ensures ChainPrefix(v, c, want, [c] + tail, first + rest)
  {
    var cs := [c] + tail;
    RoomGrows(|tail|, v.perCluster);
    forall b | 0 <= b < |first + rest|
      ensures ByteAt(v, cs, b, (first + rest)[b])
    {
      if b < |first| { FirstByte(v, c, want, tail, b); } else { LaterByte(v, c, tail, b - |first|, rest[b - |first|], b); }
    }
    assert tail != [] ==> cs[|cs| - 1] == tail[|tail| - 1];
  }

  lemma FirstByte(v: Volume, c: u32, want: nat, tail: seq<u32>, b: nat)
    requires InChain(c) && ClusterBytes(v, ClusterLba(v, c), 0, want).Reads?
    requires b < |ClusterBytes(v, ClusterLba(v, c), 0, want).bytes|
    ensures ByteAt(v, [c] + tail, b, ClusterBytes(v, ClusterLba(v, c), 0, want).bytes[b])
  {
    ClusterBytesAt(v, ClusterLba(v, c), 0, want, b);
    DivModIs(b / SECTOR_SIZE, 0, b / SECTOR_SIZE, v.perCluster);
  }

  lemma LaterByte(v: Volume, c: u32, tail: seq<u32>, b': nat, x: byte, b: nat)
    requires InChain(c) && ByteAt(v, tail, b', x) && b == b' + v.perCluster * SECTOR_SIZE
    ensures ByteAt(v, [c] + tail, b, x)
  {
    ShiftCluster(b, b', v.perCluster);
    var t := b' / SECTOR_SIZE / v.perCluster;
    assert ([c] + tail)[t + 1] == tail[t];
  }

  lemma ShiftCluster(b: nat, b': nat, per: nat)
    requires per > 0 && b == b' + per * SECTOR_SIZE
    ensures b % SECTOR_SIZE == b' % SECTOR_SIZE && b / SECTOR_SIZE == b' / SECTOR_SIZE + per
    ensures b / SECTOR_SIZE / per == b' / SECTOR_SIZE / per + 1 && b / SECTOR_SIZE % per == b' / SECTOR_SIZE % per
  {
    var t' := b' / SECTOR_SIZE;
    var q, r := t' / per, t' % per;
    assert t' + per == (q + 1) * per + r;
    DivModIs(t' + per, q + 1, r, per);
  }
}
