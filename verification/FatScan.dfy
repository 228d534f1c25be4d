/** Counting free clusters (filesystem/fat/fatapi/totalfreecluster.c): scans that follow the sectors of the FAT
    step by step agree with looking up cluster by cluster. */
module FatScan {
  import opened FatBytes
  import opened FatMedia
  import opened FreeClusters

  /** The scan has come to cluster `c`: it has counted the free clusters below, and remembers the least. */
  ghost predicate Counted(fat: seq<nat>, c: nat, count: nat, next: nat, initial: nat) {
    && c <= |fat| && count == FreeBelow(fat, c)
    && (if count == 0 then next == initial else IsFree(fat, next) && next < c)
    && (forall d: nat :: IsFree(fat, d) && d < c ==> count > 0 && next <= d)
  }

  /** One step of a scan. */
  method Count(media: Media, c: nat, entry: nat, count: nat, ghost fat: seq<nat>, ghost initial: nat)
      returns (count': nat)
    requires 2 <= c < |fat| && entry == fat[c] && Counted(fat, c, count, media.nextFreeCluster, initial)
    modifies media`nextFreeCluster
    ensures Counted(fat, c + 1, count', media.nextFreeCluster, initial)
  {
    count' := count;
    if entry == 0 {
      count' := count' + 1;
      if count' == 1 {
        media.nextFreeCluster := c;
      }
    }
  }

  /** Totalfreecluster: the number of free clusters; the least one becomes the next to be tried. */
  method TotalFreeCluster(media: Media) returns (total: nat)
    requires media.Valid()
    modifies media`nextFreeCluster
    ensures total == FreeCount(media.Fat())
    ensures if total > 0 then IsLeastFree(media.Fat(), media.nextFreeCluster)
            else media.nextFreeCluster == old(media.nextFreeCluster)
  {
    if media.fatType.FAT32? {
      total := CountWide(media);
    } else {
      total := TotalFreeClusterFat16(media);
    }
  }

  /** TotalfreeclusterFAT16. */
  method TotalFreeClusterFat16(media: Media) returns (total: nat)
    requires media.Valid() && !media.fatType.FAT32?
    modifies media`nextFreeCluster
    ensures Counted(media.Fat(), |media.Fat()|, total, media.nextFreeCluster, old(media.nextFreeCluster))
  {
    if media.fatType.FAT12? {
      total := Count12(media);
    } else {
      total := CountWide(media);
    }
  }

  /** A scan for 16-bit or 32-bit entries has come to cluster `c`, whose entry is at `off` in the sector that has
      been read. */
  ghost predicate Scanning(media: Media, fat: seq<nat>, c: nat, total: nat, sectorNo: nat, off: nat, buf: Sector,
      initial: nat)
    reads media`sectors, media`nextFreeCluster
  {
    && media.Valid() && !media.fatType.FAT12? && media.Fat() == fat
    && 2 <= c <= media.totalClusters + 1 && (sectorNo, off) == media.FatSectorNo(c)
    && sectorNo < |media.sectors| && buf == media.sectors[sectorNo]
    && Counted(fat, c, total, media.nextFreeCluster, initial)
  }

  /** Counts an entry and goes on to the place of the next one; the next sector is read when this one ends. */
  method ScanEntry(media: Media, c: nat, total: nat, sector: nat, offset: nat, buffer: Sector, ghost fat: seq<nat>,
      ghost initial: nat)
    returns (total': nat, sectorNo: nat, off: nat, buf: Sector)
    requires Scanning(media, fat, c, total, sector, offset, buffer, initial) && c <= media.totalClusters
    modifies media`nextFreeCluster
    ensures Scanning(media, fat, c + 1, total', sectorNo, off, buf, initial)
  {
    media.EntryRead(c);
    media.NextEntry(c);
    hide Counted, ReadEntry, Media.FatSectorNo, Media.Fat, Uniform;
    total' := Count(media, c, ReadEntry(media.fatType, buffer, offset), total, fat, initial);
    sectorNo, off, buf := sector, offset + EntrySize(media.fatType), buffer;
    if off == media.bytesPerSector {
      off := 0;
      sectorNo := sectorNo + 1;
      buf := media.sectors[sectorNo];
    }
  }

  /** The loops for 16-bit and 32-bit entries, which differ in the width of an entry only. */
  method CountWide(media: Media) returns (total: nat)
    requires media.Valid() && !media.fatType.FAT12?
    modifies media`nextFreeCluster
    ensures Counted(media.Fat(), |media.Fat()|, total, media.nextFreeCluster, old(media.nextFreeCluster))
  {
    hide Scanning, Counted, Media.FatSectorNo, Media.Valid, Media.Fat;
    ScanStarts(media);
    ghost var fat, initial := media.Fat(), media.nextFreeCluster;
    var sectorNo := media.rsvdSectors;
    var buf := media.sectors[sectorNo];
    var off: nat := 2 * EntrySize(media.fatType);
    total := 0;
    var c := 2;
    while c <= media.totalClusters
      invariant 2 <= c <= media.totalClusters + 1 && Scanning(media, fat, c, total, sectorNo, off, buf, initial)
    {
      total, sectorNo, off, buf := ScanEntry(media, c, total, sectorNo, off, buf, fat, initial);
      c := c + 1;
    }
    AllScanned(media, fat, c, total, sectorNo, off, buf, initial);
  }

  lemma AllScanned(media: Media, fat: seq<nat>, c: nat, total: nat, sectorNo: nat, off: nat, buf: Sector, initial: nat)
    requires Scanning(media, fat, c, total, sectorNo, off, buf, initial) && c > media.totalClusters
    ensures media.Valid() && c == |media.Fat()| && Counted(media.Fat(), c, total, media.nextFreeCluster, initial)
  {
  }

  lemma ScanStarts(media: Media)
    requires media.Valid() && !media.fatType.FAT12?
    ensures media.totalClusters >= 2 && media.rsvdSectors < |media.sectors|
    ensures Scanning(media, media.Fat(), 2, 0, media.rsvdSectors, 2 * EntrySize(media.fatType),
            media.sectors[media.rsvdSectors], media.nextFreeCluster)
  {
    CountNone(media);
    media.FirstEntry();
    hide Media.FatSectorNo, Media.Fat, Counted, Uniform;
  }

  lemma CountNone(media: Media)
    requires media.Valid()
    ensures |media.Fat()| == media.totalClusters + 1 >= 3
    ensures Counted(media.Fat(), 2, 0, media.nextFreeCluster, media.nextFreeCluster)
    ensures media.FatSectorNo(2).0 == media.rsvdSectors < |media.sectors|
  {
    media.FirstEntry();
  }

  /** The loop for 12-bit entries: reading an entry moves on to the sector of the next one. */
  method Count12(media: Media) returns (total: nat)
    requires media.Valid() && media.fatType.FAT12?
    modifies media`nextFreeCluster
    ensures Counted(media.Fat(), |media.Fat()|, total, media.nextFreeCluster, old(media.nextFreeCluster))
  {
    hide *;
    CountNone(media);
    var sectorNo := media.rsvdSectors;
    var buf := media.sectors[sectorNo];
    total := 0;
    var c := 2;
    ghost var fat := media.Fat();
    while c <= media.totalClusters
      invariant 2 <= c <= media.totalClusters + 1 == |fat| && media.Valid() && media.Fat() == fat
      invariant sectorNo == media.FatSectorNo(c).0 < |media.sectors| && buf == media.sectors[sectorNo]
      invariant Counted(fat, c, total, media.nextFreeCluster, old(media.nextFreeCluster))
    {
      var (_, off) := media.FatSectorNo(c);
      var entry;
      entry, sectorNo, buf := media.ReadFat12Entry(sectorNo, off, c, buf);
      total := Count(media, c, entry, total, fat, old(media.nextFreeCluster));
      c := c + 1;
    }
  }
}
