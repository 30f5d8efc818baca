/** Reading back what is stored on a FAT32 volume in the layout of the Microsoft FAT32 File System Specification v1.03:
    the file allocation table and the data area as whole areas of the disk, directory entries as records of 32 bytes.
    Nothing here is told by the address computations of kernel/src/storage/fat32.rs. */
module FatStored {
  import opened Common
  import opened Chains
  import opened FatVolume

  // ---- Links ----

  /** The four bytes at `o` of a sector spell the number, the lowest first. */
  predicate WordIs(s: Sector, o: nat, w: u32)
    requires o + 4 <= 512
  {
    var b0: int, b1: int, b2: int, b3: int := s[o], s[o + 1], s[o + 2], s[o + 3];
    w == b0 + 0x100 * b1 + 0x1_0000 * b2 + 0x100_0000 * b3
  }

  /** The link of cluster `c` is word `c` of the table: its bytes begin 4 * c bytes after the table does, in sectors as
      large as the volume's. */
  ghost predicate LinkIs(v: Volume, c: u32, w: u32) {
    exists k: nat, o: nat :: LinkPlaced(v, c, w, k, o)
  }

  predicate LinkPlaced(v: Volume, c: u32, w: u32, k: nat, o: nat) {
    && 4 * c == k * v.bytesPerSector + o && o < v.bytesPerSector && o + 4 <= 512
    && v.fatStart + k < 0x1_0000_0000 && v.fatStart + k in v.disk && WordIs(v.disk[v.fatStart + k], o, w)
  }

  /** A link holds 28 bits; from 0x0FFFFFF8 on, and below 2, it ends the chain. */
  predicate EndMark(w: u32) {
    w % 0x1000_0000 < 2 || w % 0x1000_0000 >= 0x0FFF_FFF8
  }

  lemma LinkRead(v: Volume, c: u32, w: u32)
    requires LinkIs(v, c, w)
    ensures LinkFits(v, c) && NextCluster(v, c) == Some(w % 0x1000_0000)
  {
    var k: nat, o: nat :| LinkPlaced(v, c, w, k, o);
    DivModIs(4 * c, k, o, v.bytesPerSector);
    WordRead(v.disk[v.fatStart + k], o, w);
  }

  lemma WordRead(s: Sector, o: nat, w: u32)
    requires o + 4 <= 512 && WordIs(s, o, w)
    ensures Le32(s, o) == w
  {
  }

  // ---- The data area ----

  /** Sector `i` of cluster `c`, below the end of what 32 bits number: clusters follow one another from cluster 2 on. */
  function DataSector(v: Volume, c: nat, i: nat): nat
    requires c >= 2
  {
    v.dataStart + (c - 2) * v.perCluster + i
  }

  /** All sectors of the cluster are numbered in 32 bits. */
  predicate Numbered(v: Volume, c: nat)
    requires c >= 2
  {
    DataSector(v, c, 0) < 0x1_0000_0000
  }

  /** The driver computes the first sector of the area for cluster 2, and for each further cluster the one behind the
      last sector of the cluster before. */
  lemma ClustersFollow(v: Volume, c: u32)
    requires InChain(c) && Numbered(v, c)
    ensures ClusterLba(v, c) == DataSector(v, c, 0)
    ensures c == 2 ==> ClusterLba(v, c) == v.dataStart
    ensures InChain(c + 1) && Numbered(v, c + 1) ==> ClusterLba(v, c + 1) == ClusterLba(v, c) + v.perCluster
  {
    assert (c + 1 - 2) * v.perCluster == (c - 2) * v.perCluster + v.perCluster;
  }

  /** Distinct clusters share no sector. */
  lemma ClustersApart(v: Volume, c: u32, d: u32, i: nat, j: nat)
    requires InChain(c) && InChain(d) && c != d && Numbered(v, c) && Numbered(v, d)
    requires i < v.perCluster && j < v.perCluster
    ensures ClusterLba(v, c) + i != ClusterLba(v, d) + j
  {
    ClustersFollow(v, c);
    ClustersFollow(v, d);
    RowsApart(c - 2, d - 2, v.perCluster, i, j);
  }

  lemma RowsApart(x: int, y: int, per: nat, i: nat, j: nat)
    requires x != y && i < per && j < per
    ensures x * per + i != y * per + j
  {
    MultipleIsFar(x - y, per);
    assert (x - y) * per == x * per - y * per;
  }

  // ---- Chains ----

  /** The clusters are linked one to the next, and the last one's link is an end mark. */
  ghost predicate Linkage(v: Volume, cs: seq<u32>) {
    && cs != []
    && (forall k :: 0 <= k < |cs| ==> 2 <= cs[k] < 0x0FFF_FFF8)
    && (forall k :: 0 <= k < |cs| - 1 ==> Leads(v, cs[k], cs[k + 1]))
    && Ends(v, cs[|cs| - 1])
  }

  ghost predicate Leads(v: Volume, c: u32, next: u32) {
    exists w: u32 :: LinkIs(v, c, w) && w % 0x1000_0000 == next
  }

  ghost predicate Ends(v: Volume, c: u32) {
    exists w: u32 :: LinkIs(v, c, w) && EndMark(w)
  }

  /** Sector `i` of the cluster holds `s`. */
  predicate SectorHeld(v: Volume, c: nat, i: nat, s: Sector)
    requires c >= 2
  {
    DataSector(v, c, i) in v.disk && v.disk[DataSector(v, c, i)] == s
  }

  /** The cluster holds these sectors. */
  predicate Holds(v: Volume, c: nat, sectors: seq<Sector>)
    requires c >= 2
  {
    |sectors| == v.perCluster && Numbered(v, c) && forall i :: 0 <= i < v.perCluster ==> SectorHeld(v, c, i, sectors[i])
  }

  /** Each of the clusters holds its part. */
  predicate Held(v: Volume, cs: seq<u32>, parts: seq<seq<Sector>>) {
    |parts| == |cs| && forall k :: 0 <= k < |cs| ==> cs[k] >= 2 && Holds(v, cs[k], parts[k])
  }

  function Bytes(sectors: seq<Sector>): (b: seq<byte>)
    ensures |b| == 512 * |sectors|
  {
    if sectors == [] then [] else sectors[0] + Bytes(sectors[1..])
  }

  /** The contents of a chain: cluster after cluster, sector after sector. */
  function Contents(parts: seq<seq<Sector>>): seq<byte> {
    if parts == [] then [] else Bytes(parts[0]) + Contents(parts[1..])
  }

  // ---- Reading a file ----

  function Upto(s: seq<byte>, n: nat): seq<byte> {
    if n < |s| then s[..n] else s
  }

  lemma UptoJoins(a: seq<byte>, b: seq<byte>, n: nat)
    ensures Upto(a + b, n) == Upto(a, n) + if n <= |a| then [] else Upto(b, n - |a|)
  {
  }

  lemma {:induction false} ClusterRead(v: Volume, c: u32, sectors: seq<Sector>, k: nat, want: nat)
    requires InChain(c) && Holds(v, c, sectors) && k <= v.perCluster
    ensures ClusterBytes(v, ClusterLba(v, c), k, want) == Reads(Upto(Bytes(sectors[k..]), want))
    decreases v.perCluster - k
  {
    if k < v.perCluster {
      ClustersFollow(v, c);
      assert SectorHeld(v, c, k, sectors[k]);
      var rest := if want < 512 then 0 else want - 512;
      ClusterRead(v, c, sectors, k + 1, rest);
      assert sectors[k..][1..] == sectors[k + 1..] && sectors[k..][0] == sectors[k];
      UptoJoins(sectors[k], Bytes(sectors[k + 1..]), want);
    }
  }

  lemma LinkageTail(v: Volume, cs: seq<u32>, parts: seq<seq<Sector>>)
    requires Linkage(v, cs) && Held(v, cs, parts) && |cs| > 1
    ensures Linkage(v, cs[1..]) && Held(v, cs[1..], parts[1..]) && Leads(v, cs[0], cs[1])
  {
  }

  lemma LeadsTo(v: Volume, c: u32, next: u32)
    requires Leads(v, c, next)
    ensures LinkFits(v, c) && NextCluster(v, c) == Some(next)
  {
    var w: u32 :| LinkIs(v, c, w) && w % 0x1000_0000 == next;
    LinkRead(v, c, w);
  }

  lemma EndsThere(v: Volume, c: u32)
    requires Ends(v, c)
    ensures LinkFits(v, c) && NextCluster(v, c).Some? && !InChain(NextCluster(v, c).value)
  {
    var w: u32 :| LinkIs(v, c, w) && EndMark(w);
    LinkRead(v, c, w);
  }

  lemma FileOn(v: Volume, c: u32, want: nat, first: seq<byte>, next: u32)
    requires want > 0 && InChain(c) && ClusterBytes(v, ClusterLba(v, c), 0, want) == Reads(first)
    requires LinkFits(v, c) && NextCluster(v, c) == Some(next)
    ensures |first| <= want && FileBytes(v, c, want) == Prepended(first, FileBytes(v, next, want - |first|))
  {
  }

  /** A read of any length delivers exactly the first bytes of what the chain holds, all of them when it is asked for
      more. */
  lemma {:induction false} StoredReads(v: Volume, cs: seq<u32>, parts: seq<seq<Sector>>, want: nat)
    requires Linkage(v, cs) && Held(v, cs, parts)
    ensures FileBytes(v, cs[0], want) == Reads(Upto(Contents(parts), want))
    decreases |cs|
  {
    var c, all, part := cs[0], Contents(parts), Bytes(parts[0]);
    if want > 0 {
      assert parts[0][0..] == parts[0];
      ClusterRead(v, c, parts[0], 0, want);
      UptoJoins(part, Contents(parts[1..]), want);
      var left: nat := if want < |part| then 0 else want - |part|;
      if |cs| == 1 {
        EndsThere(v, c);
        FileOn(v, c, want, Upto(part, want), NextCluster(v, c).value);
      } else {
        LinkageTail(v, cs, parts);
        LeadsTo(v, c, cs[1]);
        FileOn(v, c, want, Upto(part, want), cs[1]);
        StoredReads(v, cs[1..], parts[1..], left);
      }
    }
  }

  // ---- Directory records ----

  type Record = r: seq<byte> | |r| == 32 witness seq(32, _ => 0)

  /** The sixteen records of a sector. */
  function Records(s: Sector): (r: seq<Record>)
    ensures |r| == 16
  {
    seq(16, i requires 0 <= i < 16 => s[32 * i..32 * i + 32])
  }

  /** A file name ending in GB or GBC, in letters of either case. */
  predicate GameExtension(e: seq<byte>)
    requires |e| == 3
  {
    e[0] in {0x47, 0x67} && e[1] in {0x42, 0x62} && e[2] in {0x20, 0x43, 0x63}
  }

  /** A record in use that is a file, no part of a long name and no volume label. */
  predicate FileRecord(r: Record) {
    r[0] != 0xE5 && r[11] != 0x0F && r[11] != 0x08 && r[11] / 0x10 % 2 == 0
  }

  /** What a record of a ROM says: the two halves of the first cluster, the size, and the name without padding. */
  function RecordRom(r: Record): Rom {
    var c0: int, c1: int, c2: int, c3: int := r[26], r[27], r[20], r[21];
    var s0: int, s1: int, s2: int, s3: int := r[28], r[29], r[30], r[31];
    Rom(c0 + 0x100 * c1 + 0x1_0000 * c2 + 0x100_0000 * c3, s0 + 0x100 * s1 + 0x1_0000 * s2 + 0x100_0000 * s3,
        ShownName(r[..8], r[8..11]))
  }

  function ShownName(name: seq<byte>, ext: seq<byte>): seq<byte>
    requires |name| == 8 && |ext| == 3
  {
    var shown := Unpadded(name) + [0x2E] + Unpadded(ext);
    shown + Zeros(12 - |shown|)
  }

  predicate EndRecord(r: Record) {
    r[0] == 0
  }

  /** The ROM of a record, if it is one. */
  function RomOf(r: Record): seq<Rom> {
    if FileRecord(r) && GameExtension(r[8..11]) then [RecordRom(r)] else []
  }

  /** What a list yields up to the first element that stops it. */
  function Taken<T, R>(xs: seq<T>, stop: T -> bool, of: T -> seq<R>): seq<R> {
    if xs == [] || stop(xs[0]) then [] else of(xs[0]) + Taken(xs[1..], stop, of)
  }

  predicate Stopped<T>(xs: seq<T>, stop: T -> bool) {
    xs != [] && (stop(xs[0]) || Stopped(xs[1..], stop))
  }

  lemma TakenOne<T, R>(x: T, xs: seq<T>, stop: T -> bool, of: T -> seq<R>)
    ensures Taken([x] + xs, stop, of) == if stop(x) then [] else of(x) + Taken(xs, stop, of)
    ensures Stopped([x] + xs, stop) <==> stop(x) || Stopped(xs, stop)
  {
    assert ([x] + xs)[1..] == xs;
  }

  lemma {:induction false} TakenJoins<T, R>(a: seq<T>, b: seq<T>, stop: T -> bool, of: T -> seq<R>)
    ensures Taken(a + b, stop, of) == Taken(a, stop, of) + if Stopped(a, stop) then [] else Taken(b, stop, of)
    ensures Stopped(a + b, stop) <==> Stopped(a, stop) || Stopped(b, stop)
  {
    if a == [] {
      assert a + b == b;
    } else {
      var x, rest := a[0], a[1..];
      assert a == [x] + rest && a + b == [x] + (rest + b);
      TakenJoins(rest, b, stop, of);
      TakenOne(x, rest, stop, of);
      TakenOne(x, rest + b, stop, of);
    }
  }

  /** The ROMs of a list of records, up to the first that begins with a zero byte. */
  function Roms(records: seq<Record>): seq<Rom> {
    Taken(records, EndRecord, RomOf)
  }

  predicate Ended(records: seq<Record>) {
    Stopped(records, EndRecord)
  }

  lemma ByteOf(s: Sector, i: nat, k: nat)
    requires i < 16 && k < 32
    ensures Records(s)[i][k] == s[32 * i + k]
  {
  }

  /** The verdict on a record, from its bytes. */
  lemma RecordVerdict(s: Sector, i: nat)
    requires i < 16
    ensures var r := Records(s)[i];
            Classify(s, i) == if EndRecord(r) then EndOfDirectory
                              else if FileRecord(r) && GameExtension(r[8..11]) then IsRom else NotRom
  {
    var r := Records(s)[i];
    assert r == s[32 * i..32 * i + 32];
    ByteOf(s, i, 0);
    ByteOf(s, i, 8);
    ByteOf(s, i, 9);
    ByteOf(s, i, 10);
    ByteOf(s, i, 11);
    assert r[8..11][0] == r[8] && r[8..11][1] == r[9] && r[8..11][2] == r[10];
  }

  lemma RecordPlace(s: Sector, i: nat)
    requires i < 16
    ensures RomAt(s, i) == RecordRom(Records(s)[i])
  {
    ClusterPlace(s, i);
    SizePlace(s, i);
    FieldOf(s, i, 0, 8);
    FieldOf(s, i, 8, 11);
  }

  lemma ClusterPlace(s: Sector, i: nat)
    requires i < 16
    ensures RomAt(s, i).cluster == RecordRom(Records(s)[i]).cluster
  {
    ByteOf(s, i, 20);
    ByteOf(s, i, 21);
    ByteOf(s, i, 26);
    ByteOf(s, i, 27);
  }

  lemma SizePlace(s: Sector, i: nat)
    requires i < 16
    ensures RomAt(s, i).size == RecordRom(Records(s)[i]).size
  {
    ByteOf(s, i, 28);
    ByteOf(s, i, 29);
    ByteOf(s, i, 30);
    ByteOf(s, i, 31);
  }

  lemma FieldOf(s: Sector, i: nat, from: nat, to: nat)
    requires i < 16 && from <= to <= 32
    ensures Records(s)[i][from..to] == s[i * 32 + from..i * 32 + to]
  {
    assert Records(s)[i] == s[32 * i..32 * i + 32];
    assert s[32 * i..32 * i + 32][from..to] == s[32 * i + from..32 * i + to];
  }

  lemma ScanOn(s: Sector, i: nat)
    requires i < 16
    ensures var r, (roms, end) := Records(s)[i], ScanSector(s, i + 1);
            ScanSector(s, i) == if EndRecord(r) then ([], true) else (RomOf(r) + roms, end)
  {
    RecordVerdict(s, i);
    RecordPlace(s, i);
    assert [] + ScanSector(s, i + 1).0 == ScanSector(s, i + 1).0;
  }

  /** The scan of a sector finds the ROMs of its records. */
  lemma {:induction false} SectorScanned(s: Sector, i: nat)
    requires i <= 16
    ensures ScanSector(s, i) == (Roms(Records(s)[i..]), Ended(Records(s)[i..]))
    decreases 16 - i
  {
    if i < 16 {
      SectorScanned(s, i + 1);
      ScanOn(s, i);
      TakenOne(Records(s)[i], Records(s)[i + 1..], EndRecord, RomOf);
      assert Records(s)[i..] == [Records(s)[i]] + Records(s)[i + 1..];
    } else {
      assert Records(s)[16..] == [];
    }
  }

  function AllRecords(sectors: seq<Sector>): seq<Record> {
    if sectors == [] then [] else Records(sectors[0]) + AllRecords(sectors[1..])
  }

  lemma RecordsOn(sectors: seq<Sector>, k: nat)
    requires k < |sectors|
    ensures AllRecords(sectors[k..]) == Records(sectors[k]) + AllRecords(sectors[k + 1..])
  {
    assert sectors[k..][1..] == sectors[k + 1..] && sectors[k..][0] == sectors[k];
  }

  /** The first sectors of the cluster hold these. */
  predicate Begins(v: Volume, c: nat, sectors: seq<Sector>)
    requires c >= 2
  {
    |sectors| <= v.perCluster && Numbered(v, c) && forall i :: 0 <= i < |sectors| ==> SectorHeld(v, c, i, sectors[i])
  }

  /** A scan of the cluster goes no further than these sectors: a record among those from `k` on ends the directory,
      the cluster has no more, or the next one cannot be read. */
  predicate NoFurther(v: Volume, c: nat, sectors: seq<Sector>, k: nat)
    requires c >= 2 && k <= |sectors|
  {
    Ended(AllRecords(sectors[k..])) || |sectors| == v.perCluster || DataSector(v, c, |sectors|) !in v.disk
  }

  /** One sector more in front. */
  lemma ScanClusterOn(v: Volume, lba: nat, k: nat, s: Sector, rest: seq<Record>, ended: bool)
    requires k < v.perCluster && lba + k in v.disk && v.disk[lba + k] == s
    requires Ended(Records(s)) || ScanCluster(v, lba, k + 1) == (Roms(rest), ended)
    ensures ScanCluster(v, lba, k) == (Roms(Records(s) + rest), Ended(Records(s)) || ended)
  {
    SectorScanned(s, 0);
    assert Records(s)[0..] == Records(s);
    TakenJoins(Records(s), rest, EndRecord, RomOf);
    assert Roms(Records(s)) + [] == Roms(Records(s));
  }

  lemma {:induction false} ClusterScanned(v: Volume, c: u32, sectors: seq<Sector>, k: nat)
    requires InChain(c) && Begins(v, c, sectors) && k <= |sectors| && NoFurther(v, c, sectors, k)
    ensures ScanCluster(v, ClusterLba(v, c), k)
            == (Roms(AllRecords(sectors[k..])), Ended(AllRecords(sectors[k..])) || |sectors| < v.perCluster)
    decreases |sectors| - k
  {
    ClustersFollow(v, c);
    if k < |sectors| {
      var rest := AllRecords(sectors[k + 1..]);
      assert SectorHeld(v, c, k, sectors[k]);
      RecordsOn(sectors, k);
      TakenJoins(Records(sectors[k]), rest, EndRecord, RomOf);
      if !Ended(Records(sectors[k])) { ClusterScanned(v, c, sectors, k + 1); }
      ScanClusterOn(v, ClusterLba(v, c), k, sectors[k], rest, Ended(rest) || |sectors| < v.perCluster);
    } else {
      assert sectors[k..] == [];
    }
  }

  /** All records of a chain of clusters. */
  function Listing(parts: seq<seq<Sector>>): seq<Record> {
    if parts == [] then [] else AllRecords(parts[0]) + Listing(parts[1..])
  }

  /** A directory stored in a chain of clusters, to where a walk over it ends: within the last cluster, or with it. */
  ghost predicate Shelved(v: Volume, cs: seq<u32>, parts: seq<seq<Sector>>) {
    && cs != [] && |parts| == |cs|
    && (forall k :: 0 <= k < |cs| ==> 2 <= cs[k] < 0x0FFF_FFF8 && Begins(v, cs[k], parts[k]))
    && (forall k :: 0 <= k < |cs| - 1 ==> |parts[k]| == v.perCluster && Leads(v, cs[k], cs[k + 1]))
    && Finishes(v, cs[|cs| - 1], parts[|cs| - 1])
  }

  /** Where a walk ends: at a record that ends the directory, at a sector that cannot be read, or, the whole cluster
      read, at its link, which is an end mark or cannot be read. */
  ghost predicate Finishes(v: Volume, c: u32, sectors: seq<Sector>)
    requires c >= 2
  {
    || Ended(AllRecords(sectors))
    || (|sectors| < v.perCluster && DataSector(v, c, |sectors|) !in v.disk)
    || (|sectors| == v.perCluster && (Ends(v, c) || LinkLost(v, c)))
  }

  /** The sector that holds the link cannot be read. */
  ghost predicate LinkLost(v: Volume, c: u32) {
    exists k: nat, o: nat :: LinkLostAt(v, c, k, o)
  }

  predicate LinkLostAt(v: Volume, c: u32, k: nat, o: nat) {
    && 4 * c == k * v.bytesPerSector + o && o < v.bytesPerSector
    && v.fatStart + k < 0x1_0000_0000 && v.fatStart + k !in v.disk
  }

  lemma LostThere(v: Volume, c: u32)
    requires LinkLost(v, c)
    ensures LinkFits(v, c) && NextCluster(v, c) == None
  {
    var k: nat, o: nat :| LinkLostAt(v, c, k, o);
    DivModIs(4 * c, k, o, v.bytesPerSector);
  }

  /** The last cluster of the walk. */
  lemma LastVisited(v: Volume, c: u32, sectors: seq<Sector>)
    requires InChain(c) && Begins(v, c, sectors) && Finishes(v, c, sectors)
    ensures VisitCluster(v, c) == Visit(Roms(AllRecords(sectors)), None)
  {
    assert sectors[0..] == sectors;
    ClusterScanned(v, c, sectors, 0);
    if |sectors| == v.perCluster && !Ended(AllRecords(sectors)) {
      if Ends(v, c) { EndsThere(v, c); } else { LostThere(v, c); }
    }
  }

  /** One before it. */
  lemma NextVisited(v: Volume, c: u32, sectors: seq<Sector>, next: u32)
    requires InChain(c) && Begins(v, c, sectors) && |sectors| == v.perCluster && Leads(v, c, next) && InChain(next)
    ensures VisitCluster(v, c)
            == Visit(Roms(AllRecords(sectors)), if Ended(AllRecords(sectors)) then None else Some(next))
  {
    assert sectors[0..] == sectors;
    ClusterScanned(v, c, sectors, 0);
    LeadsTo(v, c, next);
  }

  lemma ShelvedTail(v: Volume, cs: seq<u32>, parts: seq<seq<Sector>>)
    requires Shelved(v, cs, parts) && |cs| > 1
    ensures Shelved(v, cs[1..], parts[1..]) && Leads(v, cs[0], cs[1]) && InChain(cs[1])
  {
  }

  lemma WalkStep(cells: Cells<Rom>, c: nat, n: nat)
    ensures Walk(cells, Some(c), n + 1)
            == (cells(c).items + Walk(cells, cells(c).next, n).0, Walk(cells, cells(c).next, n).1)
  {
  }

  lemma {:induction false} ChainWalked(v: Volume, cs: seq<u32>, parts: seq<seq<Sector>>)
    requires Shelved(v, cs, parts)
    ensures Walk(Clusters(v), Some(cs[0]), |cs|) == (Roms(Listing(parts)), true)
    decreases |cs|
  {
    var here, rest := AllRecords(parts[0]), Listing(parts[1..]);
    assert Listing(parts) == here + rest;
    TakenJoins(here, rest, EndRecord, RomOf);
    WalkStep(Clusters(v), cs[0], |cs| - 1);
    if |cs| == 1 {
      LastVisited(v, cs[0], parts[0]);
      assert rest == [] && here + [] == here;
    } else {
      ShelvedTail(v, cs, parts);
      NextVisited(v, cs[0], parts[0], cs[1]);
      ChainWalked(v, cs[1..], parts[1..]);
    }
  }

  /** A root directory stored in a chain of clusters is walked to where it ends, and what is found is the ROMs of its
      records up to there, in order. */
  lemma StoredListed(v: Volume, cs: seq<u32>, parts: seq<seq<Sector>>)
    requires Shelved(v, cs, parts) && cs[0] == v.root
    ensures Finite(v) && Directory(v) == Roms(Listing(parts))
  {
    ChainWalked(v, cs, parts);
    ItemsAre(Clusters(v), Link(v.root), |cs|);
  }

  // ---- Names ----

  function Spaces(n: nat): (s: seq<byte>)
    ensures |s| == n
  {
    if n == 0 then [] else Spaces(n - 1) + [0x20]
  }

  lemma {:induction false} NoSpaces(base: seq<byte>)
    requires forall i :: 0 <= i < |base| ==> base[i] != 0x20
    ensures Unpadded(base) == base
  {
    if base != [] {
      NoSpaces(base[..|base| - 1]);
      assert base == base[..|base| - 1] + [base[|base| - 1]];
    }
  }

  /** A space vanishes wherever it stands. */
  lemma {:induction false} SpaceVanishes(a: seq<byte>, b: seq<byte>)
    ensures Unpadded(a + [0x20] + b) == Unpadded(a + b)
  {
    var s := a + [0x20] + b;
    if b == [] {
      assert s[..|s| - 1] == a && a + b == a;
    } else {
      SpaceVanishes(a, b[..|b| - 1]);
      assert s[..|s| - 1] == a + [0x20] + b[..|b| - 1] && (a + b)[..|a + b| - 1] == a + b[..|b| - 1];
    }
  }

  lemma {:induction false} SpacesDropped(base: seq<byte>, n: nat)
    requires forall i :: 0 <= i < |base| ==> base[i] != 0x20
    ensures Unpadded(base + Spaces(n)) == base
  {
    if n == 0 {
      NoSpaces(base);
      assert base + Spaces(0) == base;
    } else {
      SpacesDropped(base, n - 1);
      SpaceVanishes(base + Spaces(n - 1), []);
      assert base + Spaces(n) == base + Spaces(n - 1) + [0x20] + [];
      assert base + Spaces(n - 1) + [] == base + Spaces(n - 1);
    }
  }

  /** A name and an extension padded with spaces are shown as NAME.EXT, padded with zeros. */
  lemma NameShown(name: seq<byte>, ext: seq<byte>)
    requires |name| <= 8 && |ext| <= 3
    requires (forall i :: 0 <= i < |name| ==> name[i] != 0x20) && forall i :: 0 <= i < |ext| ==> ext[i] != 0x20
    ensures ShownName(name + Spaces(8 - |name|), ext + Spaces(3 - |ext|))
            == name + [0x2E] + ext + Zeros(11 - |name| - |ext|)
  {
    SpacesDropped(name, 8 - |name|);
    SpacesDropped(ext, 3 - |ext|);
    ShownIs(name + Spaces(8 - |name|), ext + Spaces(3 - |ext|), name, ext);
  }

  lemma ShownIs(field: seq<byte>, suffix: seq<byte>, name: seq<byte>, ext: seq<byte>)
    requires |field| == 8 && |suffix| == 3 && Unpadded(field) == name && Unpadded(suffix) == ext
    ensures ShownName(field, suffix) == name + [0x2E] + ext + Zeros(11 - |name| - |ext|)
  {
  }
}
