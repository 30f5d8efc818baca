/** When reads of kernel/src/storage/fat32.rs panic and when they fail. `get_next_cluster` reads 512 bytes of the sector
    that holds a cluster's link, and on a volume with larger sectors the link may lie behind them. */
module FatPanic {
  import opened Common
  import opened Chains
  import opened FatVolume

  // ---- Reading a file ----

  predicate CanRead(v: Volume, lba: nat, s: nat) {
    lba + s in v.disk
  }

  /** The sectors from `k` on that `want` bytes of a cluster lie in can be read. */
  predicate SectorsRead(v: Volume, lba: nat, k: nat, want: int) {
    forall s :: k <= s < v.perCluster && (s - k) * SECTOR_SIZE < want ==> CanRead(v, lba, s)
  }

  /** Every sector that the first `want` bytes of the clusters `cs` lie in can be read. */
  predicate Readable(v: Volume, cs: seq<u32>, want: int) {
    forall k :: 0 <= k < |cs| && InChain(cs[k]) ==> SectorsRead(v, ClusterLba(v, cs[k]), 0, want - Room(k, v.perCluster))
  }

  /** The clusters `cs`, linked from `c` on, lead a read of `want` bytes to a link it cannot fetch: all their data is
      read, some of it is still wanted at the last of them, and the link of that one lies behind the bytes read. */
  ghost predicate BadLinkAfter(v: Volume, c: u32, want: nat, cs: seq<u32>) {
    && cs != [] && Linked(v, c, cs) && Readable(v, cs, want)
    && Room(|cs| - 1, v.perCluster) < want
    && !LinkFits(v, cs[|cs| - 1])
  }

  ghost predicate MeetsBadLink(v: Volume, c: u32, want: nat) {
    exists cs: seq<u32> :: BadLinkAfter(v, c, want, cs)
  }

  lemma {:induction false} ClusterReadsIff(v: Volume, lba: nat, k: nat, want: nat)
    requires k <= v.perCluster
    ensures ClusterBytes(v, lba, k, want).Reads? <==> SectorsRead(v, lba, k, want)
    decreases v.perCluster - k
  {
    if k < v.perCluster && want > 0 {
      var rest := if want < SECTOR_SIZE then 0 else want - SECTOR_SIZE;
      ClusterReadsIff(v, lba, k + 1, rest);
      assert SectorsRead(v, lba, k, want) ==> CanRead(v, lba, k) && SectorsRead(v, lba, k + 1, rest);
    }
  }

  lemma RoomShift(k: nat, per: nat)
    ensures Room(k + 1, per) == Room(1, per) + Room(k, per)
  {
    RoomGrows(k, per);
    RoomGrows(0, per);
  }

  /** One cluster more in front. */
  lemma ReadableGrows(v: Volume, c: u32, want: nat, tail: seq<u32>)
    requires InChain(c)
    ensures Readable(v, [c] + tail, want)
            <==> ClusterBytes(v, ClusterLba(v, c), 0, want).Reads? && Readable(v, tail, want - Room(1, v.perCluster))
  {
    var one := Room(1, v.perCluster);
    ClusterReadsIff(v, ClusterLba(v, c), 0, want);
    if Readable(v, [c] + tail, want) { ReadableParts(v, c, want, tail); }
    if SectorsRead(v, ClusterLba(v, c), 0, want) && Readable(v, tail, want - one) {
      forall k | 0 <= k < |[c] + tail| && InChain(([c] + tail)[k])
        ensures SectorsRead(v, ClusterLba(v, ([c] + tail)[k]), 0, want - Room(k, v.perCluster))
      {
        if k > 0 { RoomShift(k - 1, v.perCluster); }
      }
    }
  }

  lemma ReadableParts(v: Volume, c: u32, want: nat, tail: seq<u32>)
    requires InChain(c) && Readable(v, [c] + tail, want)
    ensures SectorsRead(v, ClusterLba(v, c), 0, want) && Readable(v, tail, want - Room(1, v.perCluster))
  {
    var cs, one := [c] + tail, Room(1, v.perCluster);
    assert cs[0] == c;
    forall k | 0 <= k < |tail| && InChain(tail[k])
      ensures SectorsRead(v, ClusterLba(v, tail[k]), 0, want - one - Room(k, v.perCluster))
    {
      RoomShift(k, v.perCluster);
      assert cs[k + 1] == tail[k];
    }
  }

  lemma LinkedGrows(v: Volume, c: u32, tail: seq<u32>)
    ensures Linked(v, c, [c] + tail)
            <==> InChain(c)
                 && (tail != [] ==> LinkFits(v, c) && NextCluster(v, c) == Some(tail[0]) && Linked(v, tail[0], tail))
  {
    var cs := [c] + tail;
    assert forall k :: 0 <= k < |tail| ==> cs[k + 1] == tail[k];
  }

  lemma RoomIsOne(v: Volume, c: u32, want: nat)
    requires InChain(c) && ClusterBytes(v, ClusterLba(v, c), 0, want).Reads?
    ensures var taken, one := |ClusterBytes(v, ClusterLba(v, c), 0, want).bytes|, Room(1, v.perCluster);
            taken == if want < one then want else one
  {
    RoomGrows(0, v.perCluster);
  }

  /** The chain to a bad link, one cluster longer. */
  lemma BadLinkGrows(v: Volume, c: u32, want: nat, tail: seq<u32>)
    requires InChain(c) && ClusterBytes(v, ClusterLba(v, c), 0, want).Reads? && LinkFits(v, c)
    requires tail != [] && NextCluster(v, c) == Some(tail[0])
    ensures var left: nat := want - |ClusterBytes(v, ClusterLba(v, c), 0, want).bytes|;
            BadLinkAfter(v, c, want, [c] + tail) <==> BadLinkAfter(v, tail[0], left, tail)
  {
    var cs := [c] + tail;
    assert cs[|cs| - 1] == tail[|tail| - 1];
    LinkedGrows(v, c, tail);
    ReadableGrows(v, c, want, tail);
    RoomIsOne(v, c, want);
    RoomShift(|tail| - 1, v.perCluster);
  }

  /** The chain to a bad link, of one cluster. */
  lemma BadLinkHere(v: Volume, c: u32, want: nat)
    requires InChain(c)
    ensures BadLinkAfter(v, c, want, [c])
            <==> want > 0 && ClusterBytes(v, ClusterLba(v, c), 0, want).Reads? && !LinkFits(v, c)
  {
    LinkedGrows(v, c, []);
    ReadableGrows(v, c, want, []);
    assert [c] + [] == [c];
  }

  /** A read panics if and only if its chain meets a bad link while data is still wanted. */
  lemma {:induction false} PanicsIffBadLink(v: Volume, c: u32, want: nat)
    ensures FileBytes(v, c, want) == Panics <==> MeetsBadLink(v, c, want)
  {
    if FileBytes(v, c, want) == Panics { PanicHasChain(v, c, want); }
    if cs: seq<u32> :| BadLinkAfter(v, c, want, cs) {
      assert [c] + cs[1..] == cs;
      ChainPanics(v, c, want, cs[1..]);
    }
  }

  lemma {:induction false} PanicHasChain(v: Volume, c: u32, want: nat)
    requires FileBytes(v, c, want) == Panics
    ensures MeetsBadLink(v, c, want)
    decreases want
  {
    if !LinkFits(v, c) {
      BadLinkHere(v, c, want);
    } else {
      var next, left := NextCluster(v, c).value, want - |ClusterBytes(v, ClusterLba(v, c), 0, want).bytes|;
      PanicHasChain(v, next, left);
      var tail: seq<u32> :| BadLinkAfter(v, next, left, tail);
      assert tail[0] == next;
      BadLinkGrows(v, c, want, tail);
      assert BadLinkAfter(v, c, want, [c] + tail);
    }
  }

  /** What comes before the bad link. */
  lemma BadLinkSplit(v: Volume, c: u32, want: nat, tail: seq<u32>)
    requires BadLinkAfter(v, c, want, [c] + tail) && tail != []
    ensures InChain(c) && want > 0 && ClusterBytes(v, ClusterLba(v, c), 0, want).Reads?
    ensures LinkFits(v, c) && NextCluster(v, c) == Some(tail[0])
  {
    LinkedGrows(v, c, tail);
    ReadableGrows(v, c, want, tail);
  }

  /** Past the first cluster. */
  lemma BadLinkTail(v: Volume, c: u32, want: nat, tail: seq<u32>) returns (left: nat)
    requires BadLinkAfter(v, c, want, [c] + tail) && tail != []
    ensures BadLinkAfter(v, tail[0], left, tail)
    ensures FileBytes(v, tail[0], left) == Panics ==> FileBytes(v, c, want) == Panics
  {
    BadLinkSplit(v, c, want, tail);
    BadLinkGrows(v, c, want, tail);
    left := want - |ClusterBytes(v, ClusterLba(v, c), 0, want).bytes|;
  }

  lemma {:induction false} ChainPanics(v: Volume, c: u32, want: nat, tail: seq<u32>)
    requires BadLinkAfter(v, c, want, [c] + tail)
    ensures FileBytes(v, c, want) == Panics
    decreases |tail|
  {
    if tail == [] {
      assert [c] + tail == [c];
      BadLinkHere(v, c, want);
    } else {
      var left := BadLinkTail(v, c, want, tail);
      assert [tail[0]] + tail[1..] == tail;
      ChainPanics(v, tail[0], left, tail[1..]);
    }
  }

  // ---- Read errors ----

  /** The clusters `cs`, linked from `c` on, lead a read of `want` bytes to a read error: the data of those before the
      last is read, some is still wanted at the last, and a sector that it lies in, or the one with the last's link,
      cannot be read. */
  ghost predicate FaultAfter(v: Volume, c: u32, want: nat, cs: seq<u32>) {
    && cs != [] && Linked(v, c, cs)
    && var n := |cs| - 1;
       && Room(n, v.perCluster) < want && Readable(v, cs[..n], want)
       && FaultIn(v, cs[n], want - Room(n, v.perCluster))
  }

  /** Reading `want` bytes of the cluster, or its link, meets a sector that cannot be read. */
  predicate FaultIn(v: Volume, c: u32, want: int)
    requires InChain(c)
  {
    !SectorsRead(v, ClusterLba(v, c), 0, want) || LinkSector(v, c) !in v.disk
  }

  ghost predicate MeetsFault(v: Volume, c: u32, want: nat) {
    exists cs: seq<u32> :: FaultAfter(v, c, want, cs)
  }

  /** The chain to a fault, one cluster longer. */
  lemma FaultGrows(v: Volume, c: u32, want: nat, tail: seq<u32>)
    requires InChain(c) && ClusterBytes(v, ClusterLba(v, c), 0, want).Reads? && LinkFits(v, c)
    requires tail != [] && NextCluster(v, c) == Some(tail[0])
    ensures var left: nat := want - |ClusterBytes(v, ClusterLba(v, c), 0, want).bytes|;
            FaultAfter(v, c, want, [c] + tail) <==> FaultAfter(v, tail[0], left, tail)
  {
    FaultParts(v, c, want, tail);
    RoomIsOne(v, c, want);
  }

  /** What the two chains have in common. */
  lemma FaultParts(v: Volume, c: u32, want: nat, tail: seq<u32>)
    requires InChain(c) && ClusterBytes(v, ClusterLba(v, c), 0, want).Reads? && LinkFits(v, c)
    requires tail != [] && NextCluster(v, c) == Some(tail[0])
    ensures var cs, n, one := [c] + tail, |tail| - 1, Room(1, v.perCluster);
            && cs[n + 1] == tail[n] && Room(n + 1, v.perCluster) == one + Room(n, v.perCluster)
            && (Linked(v, c, cs) <==> Linked(v, tail[0], tail))
            && (Readable(v, cs[..n + 1], want) <==> Readable(v, tail[..n], want - one))
  {
    var n := |tail| - 1;
    assert ([c] + tail)[..n + 1] == [c] + tail[..n];
    LinkedGrows(v, c, tail);
    ReadableGrows(v, c, want, tail[..n]);
    RoomShift(n, v.perCluster);
  }

  /** The chain to a fault, of one cluster. */
  lemma FaultHere(v: Volume, c: u32, want: nat)
    requires InChain(c)
    ensures FaultAfter(v, c, want, [c])
            <==> want > 0
                 && (!ClusterBytes(v, ClusterLba(v, c), 0, want).Reads? || LinkSector(v, c) !in v.disk)
  {
    LinkedGrows(v, c, []);
    ClusterReadsIff(v, ClusterLba(v, c), 0, want);
    assert [c] + [] == [c] && [c][..0] == [];
  }

  /** A read fails if and only if its chain meets a fault while data is still wanted. */
  lemma {:induction false} FailsIffFault(v: Volume, c: u32, want: nat)
    ensures FileBytes(v, c, want) == Fails <==> MeetsFault(v, c, want)
  {
    if FileBytes(v, c, want) == Fails { FailHasChain(v, c, want); }
    if cs: seq<u32> :| FaultAfter(v, c, want, cs) {
      assert [c] + cs[1..] == cs;
      ChainFails(v, c, want, cs[1..]);
    }
  }

  lemma {:induction false} FailHasChain(v: Volume, c: u32, want: nat)
    requires FileBytes(v, c, want) == Fails
    ensures MeetsFault(v, c, want)
    decreases want
  {
    var first := ClusterBytes(v, ClusterLba(v, c), 0, want);
    if !first.Reads? || NextCluster(v, c) == None {
      FaultHere(v, c, want);
    } else {
      var next, left := NextCluster(v, c).value, want - |first.bytes|;
      FailHasChain(v, next, left);
      var tail: seq<u32> :| FaultAfter(v, next, left, tail);
      assert tail[0] == next;
      FaultGrows(v, c, want, tail);
      assert FaultAfter(v, c, want, [c] + tail);
    }
  }

  /** What comes before the fault. */
  lemma FaultSplit(v: Volume, c: u32, want: nat, tail: seq<u32>)
    requires FaultAfter(v, c, want, [c] + tail) && tail != []
    ensures InChain(c) && want > 0 && ClusterBytes(v, ClusterLba(v, c), 0, want).Reads?
    ensures LinkFits(v, c) && NextCluster(v, c) == Some(tail[0])
  {
    var n := |tail| - 1;
    assert ([c] + tail)[..n + 1] == [c] + tail[..n];
    LinkedGrows(v, c, tail);
    ReadableGrows(v, c, want, tail[..n]);
  }

  lemma {:induction false} ChainFails(v: Volume, c: u32, want: nat, tail: seq<u32>)
    requires FaultAfter(v, c, want, [c] + tail)
    ensures FileBytes(v, c, want) == Fails
    decreases |tail|
  {
    if tail == [] {
      assert [c] + tail == [c];
      FaultHere(v, c, want);
    } else {
      FaultSplit(v, c, want, tail);
      FaultGrows(v, c, want, tail);
      assert [tail[0]] + tail[1..] == tail;
      ChainFails(v, tail[0], want - |ClusterBytes(v, ClusterLba(v, c), 0, want).bytes|, tail[1..]);
    }
  }

  // ---- Walking the directory ----

  /** The directory goes on after the cluster: no end marker and no read error in it. */
  predicate GoesOn(v: Volume, c: u32) {
    InChain(c) && !ScanCluster(v, ClusterLba(v, c), 0).1
  }

  /** The clusters `cs` are linked from the root on, and the directory goes on after each of them. */
  ghost predicate Passes(v: Volume, cs: seq<u32>) {
    cs != [] && Linked(v, v.root, cs) && forall k :: 0 <= k < |cs| ==> GoesOn(v, cs[k])
  }

  /** The link of the last of the clusters cannot be fetched. */
  ghost predicate Strands(v: Volume, cs: seq<u32>) {
    Passes(v, cs) && !LinkFits(v, cs[|cs| - 1])
  }

  /** The link of the last of the clusters leads back to one of them. */
  ghost predicate Circles(v: Volume, cs: seq<u32>) {
    Passes(v, cs) && LinkFits(v, cs[|cs| - 1])
    && NextCluster(v, cs[|cs| - 1]).Some? && NextCluster(v, cs[|cs| - 1]).value in cs
  }

  /** The n-th cell of the walk. */
  function At(v: Volume, n: nat): Option<nat> {
    Visited(Clusters(v), Link(v.root), n)
  }

  lemma AtNext(v: Volume, n: nat)
    ensures At(v, 0) == Link(v.root)
    ensures At(v, n + 1) == (match At(v, n) case None => None case Some(x) => VisitCluster(v, x).next)
  {
    VisitedNext(Clusters(v), Link(v.root), n);
  }

  /** Where the walk goes from a cluster it passes. */
  lemma NextCell(v: Volume, c: nat)
    requires c != PANIC
    ensures VisitCluster(v, c).next == Some(PANIC) <==> c < PANIC && GoesOn(v, c) && !LinkFits(v, c)
    ensures VisitCluster(v, c).next.Some? && VisitCluster(v, c).next != Some(PANIC) ==>
              && c < PANIC && GoesOn(v, c) && LinkFits(v, c) && InChain(VisitCluster(v, c).next.value)
              && NextCluster(v, c) == Some(VisitCluster(v, c).next.value)
  {
  }

  lemma LinkedSnoc(v: Volume, c: u32, cs: seq<u32>, next: u32)
    requires cs != [] && Linked(v, c, cs) && InChain(next)
    requires LinkFits(v, cs[|cs| - 1]) && NextCluster(v, cs[|cs| - 1]) == Some(next)
    ensures Linked(v, c, cs + [next])
  {
  }

  /** The clusters on the way to the n-th. */
  lemma {:induction false} PassedTo(v: Volume, n: nat) returns (cs: seq<u32>)
    requires At(v, n).Some? && At(v, n) != Some(PANIC)
    ensures |cs| == n + 1 && Linked(v, v.root, cs)
    ensures forall k :: 0 <= k < n ==> GoesOn(v, cs[k])
    ensures forall k :: 0 <= k <= n ==> At(v, k) == Some(cs[k])
    decreases n
  {
    if n == 0 {
      cs := [v.root];
    } else {
      AtNext(v, n - 1);
      var c := At(v, n - 1).value;
      if c != PANIC {
        cs := PassedTo(v, n - 1);
        NextCell(v, c);
        LinkedSnoc(v, v.root, cs, At(v, n).value);
        cs := cs + [At(v, n).value];
      }
    }
  }

  lemma {:induction false} PassesVisits(v: Volume, cs: seq<u32>, k: nat)
    requires Passes(v, cs) && k < |cs|
    ensures At(v, k) == Some(cs[k])
    decreases k
  {
    if k == 0 {
      AtNext(v, 0);
    } else {
      PassesVisits(v, cs, k - 1);
      AtNext(v, k - 1);
      assert GoesOn(v, cs[k - 1]);
    }
  }

  /** The walk meets the panic cell. */
  ghost predicate WalkPanics(v: Volume) {
    exists n: nat :: At(v, n) == Some(PANIC)
  }

  lemma {:induction false} PanicIsReached(v: Volume, n: nat) returns (cs: seq<u32>)
    requires At(v, n) == Some(PANIC)
    ensures Strands(v, cs)
    decreases n
  {
    AtNext(v, if n == 0 then 0 else n - 1);
    if At(v, n - 1) == Some(PANIC) {
      cs := PanicIsReached(v, n - 1);
    } else {
      cs := PassedTo(v, n - 1);
      NextCell(v, At(v, n - 1).value);
    }
  }

  lemma StrandedAt(v: Volume, cs: seq<u32>)
    requires Strands(v, cs)
    ensures At(v, |cs|) == Some(PANIC) && At(v, |cs| + 1) == Some(PANIC)
  {
    PassesVisits(v, cs, |cs| - 1);
    AtNext(v, |cs| - 1);
    AtNext(v, |cs|);
    assert GoesOn(v, cs[|cs| - 1]);
  }

  lemma CircledAt(v: Volume, cs: seq<u32>) returns (i: nat)
    requires Circles(v, cs)
    ensures i < |cs| && At(v, i).Some? && At(v, i) == At(v, |cs|)
  {
    i :| i < |cs| && cs[i] == NextCluster(v, cs[|cs| - 1]).value;
    PassesVisits(v, cs, i);
    PassesVisits(v, cs, |cs| - 1);
    AtNext(v, |cs| - 1);
    assert GoesOn(v, cs[|cs| - 1]) && InChain(cs[i]);
  }

  /** A walk over the directory panics if and only if it passes a cluster whose link it cannot fetch. */
  lemma WalkPanicsIff(v: Volume)
    ensures WalkPanics(v) <==> exists cs: seq<u32> :: Strands(v, cs)
  {
    if n: nat :| At(v, n) == Some(PANIC) { var cs := PanicIsReached(v, n); }
    if cs: seq<u32> :| Strands(v, cs) { StrandedAt(v, cs); }
  }

  /** It comes back if and only if it neither panics nor is led back to a cluster it has passed. */
  lemma FiniteIff(v: Volume)
    ensures Finite(v) <==> !exists cs: seq<u32> :: Strands(v, cs) || Circles(v, cs)
  {
    FiniteIffAcyclic(v);
    if Cyclic(Clusters(v), Link(v.root)) {
      var i: nat, j: nat :|
        i < j && Visited(Clusters(v), Link(v.root), i).Some?
        && Visited(Clusters(v), Link(v.root), i) == Visited(Clusters(v), Link(v.root), j);
      if At(v, i) == Some(PANIC) {
        var cs := PanicIsReached(v, i);
      } else {
        var cs := CircleIsReached(v, i, j);
      }
    }
    if cs: seq<u32> :| Strands(v, cs) || Circles(v, cs) {
      if Strands(v, cs) {
        StrandedAt(v, cs);
      } else {
        var i := CircledAt(v, cs);
      }
    }
  }

  lemma CircleIsReached(v: Volume, i: nat, j: nat) returns (cs: seq<u32>)
    requires i < j && At(v, i).Some? && At(v, i) != Some(PANIC) && At(v, i) == At(v, j)
    ensures Circles(v, cs)
  {
    AtNext(v, j - 1);
    var c := At(v, j - 1).value;
    if c != PANIC {
      cs := PassedTo(v, j - 1);
      NextCell(v, c);
      assert cs[i] == At(v, i).value;
    }
  }

  // ---- Sector sizes ----

  /** A sector of deleted directory entries. */
  function Deleted(): (s: Sector)
    ensures forall k :: 0 <= k < SECTOR_SIZE ==> s[k] == 0xE5
  {
    seq(SECTOR_SIZE, _ => 0xE5)
  }

  /** A volume of larger sectors whose root, cluster 128, has its link right behind the 512 bytes read. */
  function LargeSectors(bps: BytesPerSector): Volume {
    Volume(map[0 := Deleted(), 126 := Deleted()], bps, 1, 0, 0, 128)
  }

  lemma LargeLink(bps: BytesPerSector)
    requires bps > 512
    ensures !LinkFits(LargeSectors(bps), 128) && ClusterLba(LargeSectors(bps), 128) == 126
  {
    DivModIs(512, 0, 512, bps);
  }

  /** A root of one readable sector without an end marker, and with a link that cannot be fetched. */
  lemma StrandedRoot(v: Volume, want: nat)
    requires InChain(v.root) && v.perCluster == 1 && !LinkFits(v, v.root) && want > 0
    requires ClusterLba(v, v.root) in v.disk && ScanSector(v.disk[ClusterLba(v, v.root)], 0) == ([], false)
    ensures FileBytes(v, v.root, want) == Panics
    ensures WalkPanics(v)
  {
    var lba := ClusterLba(v, v.root);
    ClusterReadsIff(v, lba, 0, want);
    assert CanRead(v, lba, 0);
    assert ScanCluster(v, lba, 1) == ([], false);
    assert Linked(v, v.root, [v.root]) && Strands(v, [v.root]);
    WalkPanicsIff(v);
  }

  /** On it every read from that cluster panics, and so does every walk. */
  lemma LargeSectorsPanic(bps: BytesPerSector, want: nat)
    requires bps > 512 && want > 0
    ensures FileBytes(LargeSectors(bps), 128, want) == Panics
    ensures WalkPanics(LargeSectors(bps))
  {
    LargeLink(bps);
    AllDeleted(Deleted(), 0);
    StrandedRoot(LargeSectors(bps), want);
  }

  lemma {:induction false} AllDeleted(s: Sector, i: nat)
    requires i <= ENTRIES && forall k :: 0 <= k < SECTOR_SIZE ==> s[k] == 0xE5
    ensures ScanSector(s, i) == ([], false)
    decreases ENTRIES - i
  {
    if i < ENTRIES {
      AllDeleted(s, i + 1);
      assert s[i * 32] == 0xE5;
    }
  }

  /** Reads and walks never panic, whatever the disk, if and only if sectors have 512 bytes. */
  lemma NoPanicIff512(bps: BytesPerSector)
    ensures (forall v: Volume, c: u32, want: nat :: v.bytesPerSector == bps ==> FileBytes(v, c, want) != Panics)
            <==> bps == 512
    ensures (forall v: Volume :: v.bytesPerSector == bps ==> !WalkPanics(v)) <==> bps == 512
  {
    if bps == 512 {
      forall v: Volume, c: u32, want: nat | v.bytesPerSector == bps
        ensures FileBytes(v, c, want) != Panics
      {
        NoPanicReadingAt512(v, c, want);
      }
      forall v: Volume | v.bytesPerSector == bps
        ensures !WalkPanics(v)
      {
        WalkPanicsIff(v);
        if cs: seq<u32> :| Strands(v, cs) { LinkFitsAt512(v, cs[|cs| - 1]); }
      }
    } else {
      LargeSectorsPanic(bps, 1);
    }
  }
}
