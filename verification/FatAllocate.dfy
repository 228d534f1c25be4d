/** Allocating clusters (filesystem/fat/fatapi/firstfreeandallocate.c and getnewcluster.c) on FAT16 and FAT32. */
module FatAllocate {
  import opened FatBytes
  import opened FatMedia
  import opened FreeClusters
  import opened Chains
  import FatSeek

  /** Stands for ERROR_OS_FILESYSTEM_NO_FREE_CLUSTER. */
  const NO_FREE_CLUSTER: int := -1

  const SUCCESS: int := 0

  /** The value of FAT32EOF that is stored: 16-bit entries keep its low half. */
  function StoredEof(t: FatType): nat
    requires !t.FAT12?
  {
    EndMark(t.FAT32?)
  }

  /** The counter of free clusters is accurate, and entry 1 is not zero. */
  ghost predicate Countable(media: Media)
    requires media.Valid()
    reads media
  {
    && !media.fatType.FAT12? && media.nextFreeCluster <= media.totalClusters
    && media.totalFreeClusters == FreeCount(media.Fat()) && media.Fat()[1] != 0
  }

  /** The steps from `c` to `z`, where the first cluster follows the last. */
  ghost function Steps(total: nat, c: nat, z: nat): nat
    requires c <= total
  {
    if c < z then z - c else total - c + z
  }

  /** The place is one entry before that of cluster `c + 1`; it may be just before a sector. */
  ghost predicate Before(media: Media, c: nat, sectorNo: nat, off: int)
    requires media.bytesPerSector > 0
  {
    var p, next := media.FatSectorNo(c + 1), off + EntrySize(media.fatType);
    if next == media.bytesPerSector then p.0 == sectorNo + 1 && p.1 == 0 else p.0 == sectorNo && p.1 == next
  }

  /** No cluster from `n + 1` on in cyclic order up to `c` is free; `wrapped` says whether the last cluster has
      been passed. */
  ghost predicate NoneFree(fat: seq<nat>, n: nat, c: nat, wrapped: bool) {
    forall d: nat :: IsFree(fat, d) ==> if wrapped then c < d <= n else d <= n || c < d
  }

  /** The sectors of all places that the search looks at exist. */
  lemma SectorExists(media: Media, c: nat)
    requires media.Valid() && !media.fatType.FAT12? && c <= media.totalClusters + 1
    ensures media.FatSectorNo(c).0 < |media.sectors|
  {
    if c > 0 {
      media.EntryRead(c - 1);
      media.NextEntry(c - 1);
    } else {
      media.EntryRead(c);
    }
  }

  function Following(total: nat, c: nat): nat {
    if c + 1 > total then 2 else c + 1
  }

  /** One step of the search, from cluster `c` to the next one in cyclic order. */
  method Advance(media: Media, c: nat, sector: nat, offset: int, buffer: Sector) returns (c': nat, sectorNo: nat,
      off: nat, buf: Sector)
    requires media.Valid() && !media.fatType.FAT12? && c <= media.totalClusters
    requires Before(media, c, sector, offset) && sector < |media.sectors| && buffer == media.sectors[sector]
    ensures c' == Following(media.totalClusters, c) && (sectorNo, off) == media.FatSectorNo(c')
    ensures sectorNo < |media.sectors| && buf == media.sectors[sectorNo] && Before(media, c', sectorNo, off)
    ensures c' <= media.totalClusters && off + EntrySize(media.fatType) <= |buf|
    ensures ReadEntry(media.fatType, buf, off) == media.Fat()[c']
  {
    hide Media.FatSectorNo, Media.Fat, ReadEntry, Uniform;
    media.FirstEntry();
    var size := EntrySize(media.fatType);
    var o := offset;
    c', sectorNo, buf := c + 1, sector, buffer;
    if c' > media.totalClusters {
      c', o, sectorNo := 2, 2 * size, media.rsvdSectors;
      buf := media.sectors[sectorNo];
    } else {
      o := o + size;
    }
    SectorExists(media, c');
    if o == media.bytesPerSector {
      o, sectorNo := 0, sectorNo + 1;
      buf := media.sectors[sectorNo];
    }
    off := o;
    media.NextEntry(c');
    media.EntryRead(c');
  }

  /** A step past a cluster that is not free. */
  lemma NoneFreeNext(fat: seq<nat>, n: nat, c: nat, wrapped: bool)
    requires c < |fat| && n < |fat| && NoneFree(fat, n, c, wrapped) && (!wrapped ==> n <= c)
    ensures var c', w' := Following(|fat| - 1, c), wrapped || c + 1 >= |fat|;
            if IsFree(fat, c') then IsNextFree(fat, n, c') else NoneFree(fat, n, c', w')
  {
  }

  /** The search loops of FirstfreeAndallocate and FirstfreeAndallocateFAT32, which differ in the width of an entry
      only: the place of the next cluster's entry is found by stepping on from the place before. */
  method Search(media: Media, sector: nat, offset: nat, buffer: Sector) returns (c: nat, sectorNo: nat, off: nat)
    requires media.Valid() && Countable(media) && media.totalFreeClusters > 0
    requires (sector, offset) == media.FatSectorNo(media.nextFreeCluster + 1) && sector < |media.sectors|
    requires buffer == media.sectors[sector]
    ensures IsNextFree(media.Fat(), media.nextFreeCluster, c) && 2 <= c <= media.totalClusters
    ensures (sectorNo, off) == media.FatSectorNo(c)
  {
    ghost var fat, n := media.Fat(), media.nextFreeCluster;
    SomeFree(fat, |fat|);
    ghost var z: nat :| IsFree(fat, z);
    var buf, o := buffer, offset - EntrySize(media.fatType);
    c, sectorNo := media.nextFreeCluster, sector;
    ghost var wrapped := false;
    assert NoneFree(fat, n, n, false) && fat[1] != 0;
    assert !media.fatType.FAT12? && c <= media.totalClusters;
    assert Before(media, c, sectorNo, o) && |fat| >= 3;
    hide *;
    while true
      invariant c <= media.totalClusters && Before(media, c, sectorNo, o) && sectorNo < |media.sectors|
      invariant buf == media.sectors[sectorNo]
      invariant NoneFree(fat, n, c, wrapped) && (!wrapped ==> n <= c)
      decreases Steps(media.totalClusters, c, z)
    {
      NoneFreeNext(fat, n, c, wrapped);
      StepsLess(fat, c, z);
      wrapped := wrapped || c + 1 > media.totalClusters;
      c, sectorNo, o, buf := Advance(media, c, sectorNo, o, buf);
      var entry := ReadEntry(media.fatType, buf, o);
      off := o;
      if entry == 0 {
        break;
      }
    }
  }

  /** The search comes closer to a free cluster unless it has found one. */
  lemma StepsLess(fat: seq<nat>, c: nat, z: nat)
    requires c < |fat| && |fat| >= 3 && IsFree(fat, z) && fat[1] != 0
    ensures var c' := Following(|fat| - 1, c);
            1 <= c' < |fat| && (c + 1 < |fat| ==> c' == c + 1) &&
              (if fat[c'] == 0 then IsFree(fat, c')
                else !IsFree(fat, c') && Steps(|fat| - 1, c', z) < Steps(|fat| - 1, c, z))
  {
  }

  /** FirstfreeAndallocate: the first free cluster after the last one allocated becomes the end of a chain. */
  method FirstFreeAndAllocate(media: Media) returns (cluster: int)
    requires media.Valid() && Countable(media)
    modifies media`sectors, media`nextFreeCluster, media`totalFreeClusters
    ensures media.Valid() && media.OnlyFat(old(media.sectors))
    ensures Allocates(old(media.State()), media.State(), StoredEof(media.fatType))
    ensures if old(media.totalFreeClusters) == 0 then cluster == NO_FREE_CLUSTER && unchanged(media)
            else cluster == media.nextFreeCluster && 2 <= cluster <= media.totalClusters
  {
    hide Media.Fat, FreeCount, IsNextFree, Media.FatSectorNo, Uniform;
    var (sectorNo, off) := media.FatSectorNo(media.nextFreeCluster + 1);
    if media.totalFreeClusters == 0 {
      cluster := NO_FREE_CLUSTER;
    } else {
      SectorExists(media, media.nextFreeCluster + 1);
      var c, s, o := Search(media, sectorNo, off, media.sectors[sectorNo]);
      media.WriteFatEntry(s, o, c, FAT32EOF);
      media.nextFreeCluster := c;
      media.totalFreeClusters := media.totalFreeClusters - 1;
      cluster := c;
    }
  }

  /** GetNewcluster: allocates a cluster and links the handle's current cluster to it. */
  method GetNewCluster(handle: FatSeek.Handle) returns (status: int)
    requires handle.media.Valid() && Countable(handle.media)
    requires handle.currentCluster <= handle.media.totalClusters < EntryLimit(handle.media.fatType)
    modifies handle.media`sectors, handle.media`nextFreeCluster, handle.media`totalFreeClusters
    modifies handle`currentCluster, handle`currentSector, handle`sectorPosInCluster, handle`bytePosInSector
    ensures handle.media.Valid() && handle.media.OnlyFat(old(handle.media.sectors))
    ensures status == if old(handle.media.totalFreeClusters) == 0 then NO_FREE_CLUSTER else SUCCESS
    ensures Appends(old(handle.media.State()), handle.media.State(), old(handle.currentCluster),
            StoredEof(handle.media.fatType))
    ensures status == NO_FREE_CLUSTER ==> unchanged(handle.media) && unchanged(handle)
    ensures status == SUCCESS ==>
            handle.currentCluster == handle.media.nextFreeCluster && handle.sectorPosInCluster == 0 &&
              handle.bytePosInSector == 0
    ensures status == SUCCESS ==> handle.currentSector == handle.media.FirstSectorOfCluster(handle.currentCluster)
  {
    var media := handle.media;
    ghost var a := media.State();
    assert a.free == media.totalFreeClusters && |a.fat| == media.totalClusters + 1;
    hide *;
    var currentCluster := FirstFreeAndAllocate(media);
    if currentCluster < 0 {
      status := NO_FREE_CLUSTER;
      NothingAppended(a, media.State(), handle.currentCluster, StoredEof(media.fatType));
    } else {
      ghost var m := media.State();
      Link(handle, currentCluster);
      AppendsLinked(a, m, media.State(), old(handle.currentCluster), StoredEof(media.fatType));
      status := SUCCESS;
    }
  }

  lemma NothingAppended(a: Table, b: Table, tail: nat, eof: nat)
    requires a.free == 0 && Allocates(a, b, eof)
    ensures Appends(a, b, tail, eof)
  {
  }

  lemma AppendsLinked(a: Table, m: Table, b: Table, tail: nat, eof: nat)
    requires a.free != 0 && Allocates(a, m, eof) && tail < |a.fat| == |m.fat| && b == m.(fat := m.fat[tail := m.next])
    ensures Appends(a, b, tail, eof)
  {
  }

  /** Links the handle's current cluster to a new one, which becomes the current cluster. */
  method Link(handle: FatSeek.Handle, cluster: nat)
    requires handle.media.Valid() && handle.currentCluster <= handle.media.totalClusters
    requires cluster <= handle.media.totalClusters < EntryLimit(handle.media.fatType)
    modifies handle.media`sectors, handle`currentCluster, handle`currentSector, handle`sectorPosInCluster
    modifies handle`bytePosInSector
    ensures handle.media.Valid() && handle.media.OnlyFat(old(handle.media.sectors))
    ensures handle.media.State() ==
            old(handle.media.State()).(fat := old(handle.media.Fat())[old(handle.currentCluster) := cluster])
    ensures handle.currentCluster == cluster && handle.sectorPosInCluster == 0 && handle.bytePosInSector == 0
    ensures handle.currentSector == handle.media.FirstSectorOfCluster(cluster)
  {
    var media := handle.media;
    hide *;
    handle.currentSector := media.FirstSectorOfCluster(cluster);
    SetLink(media, handle.currentCluster, cluster);
    handle.currentCluster := cluster;
    handle.bytePosInSector := 0;
    handle.sectorPosInCluster := 0;
  }

  method SetLink(media: Media, c: nat, next: nat)
    requires media.Valid() && c <= media.totalClusters && next < EntryLimit(media.fatType)
    modifies media`sectors
    ensures media.Valid() && media.OnlyFat(old(media.sectors))
    ensures media.State() == old(media.State()).(fat := old(media.Fat())[c := next])
  {
    hide Media.Fat, Media.FatSectorNo, Uniform, Media.OnlyFat;
    var (sector, off) := media.FatSectorNo(c);
    media.WriteFatEntry(sector, off, c, next);
  }
}
