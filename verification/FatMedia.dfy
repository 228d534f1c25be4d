/** A FAT volume as the file system sees it: sectors of bytes and the fields of the media table that concern
    the FAT (filesystem/fat/fatapi). Reading and writing sectors does not fail here. */
module FatMedia {
  import opened Division
  import opened FatBytes
  import opened FreeClusters

  /** Stands for ERROR_OS_FILESYSTEM_EOF, an error code that is taken to differ from every 32-bit entry. */
  const END_OF_FILE: int := -0x8000_0001

  class Media {
    const fatType: FatType
    const bytesPerSector: nat
    const rsvdSectors: nat        // first sector of the FAT
    const fatSectors: nat
    const totalClusters: nat      // TotalNoofclusters, the largest cluster number
    const sectorsPerCluster: nat
    const clusterBytes: nat
    const firstDataSector: nat
    const firstRootDirSector: nat

    var sectors: seq<Sector>
    var nextFreeCluster: nat
    var totalFreeClusters: int

    /** The sectors of the first FAT. */
    ghost function Image(): seq<Sector>
      reads this`sectors
    {
      if |sectors| > rsvdSectors + fatSectors then sectors[rsvdSectors..rsvdSectors + fatSectors] else []
    }

    /** All sectors have the same size, the FAT has room for all entries, and another sector follows it. */
    ghost predicate Valid()
      reads this`sectors
    {
      && bytesPerSector >= 16 && bytesPerSector % 4 == 0 && rsvdSectors > 0 && totalClusters >= 2
      && |sectors| > rsvdSectors + fatSectors && Uniform(sectors, bytesPerSector)
      && Quotient(EntryOffset(fatType, totalClusters) + EntrySize(fatType) - 1, bytesPerSector) < fatSectors
    }

    /** The entries, from that of cluster 0 to that of the last cluster. */
    ghost function Fat(): (f: seq<nat>)
      requires Valid()
      reads this`sectors
      ensures |f| == totalClusters + 1 && forall c :: 0 <= c < |f| ==> f[c] < EntryLimit(fatType)
    {
      var image := Image();
      seq(totalClusters + 1, c requires 0 <= c => Entry(fatType, image, bytesPerSector, c))
    }

    ghost function State(): Table
      requires Valid()
      reads this
    {
      Table(Fat(), nextFreeCluster, totalFreeClusters)
    }

    /** Firstsectorofcluster: cluster 0 stands for the root directory, and data begins at cluster 2. */
    function FirstSectorOfCluster(c: nat): int {
      if c == 0 then firstRootDirSector else (c - 2) * sectorsPerCluster + firstDataSector
    }

    /** Clusters follow one another from cluster 2 on, as many sectors apart as each has, so that no sector belongs to
        two of them. */
    lemma ClustersApart(c: nat, d: nat, i: nat, j: nat)
      requires c >= 2 && d >= 2 && i < sectorsPerCluster && j < sectorsPerCluster
      ensures FirstSectorOfCluster(2) == firstDataSector
      ensures FirstSectorOfCluster(c + 1) == FirstSectorOfCluster(c) + sectorsPerCluster
      ensures FirstSectorOfCluster(c) + i == FirstSectorOfCluster(d) + j <==> c == d && i == j
      ensures FirstSectorOfCluster(c) >= firstDataSector
    {
      OneMore(c - 2, sectorsPerCluster);
      KeepOrder(0, c - 2, sectorsPerCluster);
      if FirstSectorOfCluster(c) + i == FirstSectorOfCluster(d) + j {
        QuotientOrder(c - 2, i, d - 2, j, sectorsPerCluster);
        QuotientOrder(d - 2, j, c - 2, i, sectorsPerCluster);
      }
    }

    /** FATsectorno: the sector of an entry's first byte, and the byte's offset in that sector. */
    function FatSectorNo(c: nat): (p: (nat, nat))
      requires bytesPerSector > 0
      ensures p.1 < bytesPerSector
    {
      (rsvdSectors + Quotient(EntryOffset(fatType, c), bytesPerSector),
        Remainder(EntryOffset(fatType, c), bytesPerSector))
    }

    /** All bytes of a cluster's entry are in the FAT. */
    lemma EntryInside(c: nat, d: nat)
      requires Valid() && c <= totalClusters && d < EntrySize(fatType)
      ensures Quotient(EntryOffset(fatType, c) + d, bytesPerSector) < fatSectors
    {
      DivMonotone(EntryOffset(fatType, c) + d, EntryOffset(fatType, totalClusters) + EntrySize(fatType) - 1,
        bytesPerSector);
    }

    /** 16-bit and 32-bit entries do not cross sectors. */
    lemma EntryInSector(c: nat)
      requires bytesPerSector >= 16 && bytesPerSector % 4 == 0 && !fatType.FAT12?
      ensures FatSectorNo(c).1 % EntrySize(fatType) == 0 && FatSectorNo(c).1 + EntrySize(fatType) <= bytesPerSector
    {
      var e := bytesPerSector / 4;
      assert bytesPerSector == 4 * e;
      if fatType.FAT16? { EntryPlace(c, 2 * e, 2); } else { EntryPlace(c, e, 4); }
    }

    lemma EntryPlace(c: nat, perSector: nat, size: nat)
      requires perSector > 0 && (size == 2 || size == 4)
      ensures size * perSector > 0
      ensures var off := Remainder(size * c, size * perSector); off % size == 0 && off + size <= size * perSector
    {
      var q, r := c / perSector, c % perSector;
      assert c == q * perSector + r;
      Distribute(q, perSector, r, size);
      LessProduct(r, perSector, 0, size);
      DivModUnique(size * c, size * perSector, q, r * size);
      DivModUnique(r * size, size, r, 0);
      LessProduct(r, perSector, size - 1, size);
    }

    ghost predicate OnlyFat(before: seq<Sector>)
      reads this`sectors
    {
      |sectors| == |before| &&
      forall i :: 0 <= i < |sectors| && !(rsvdSectors <= i < rsvdSectors + fatSectors) ==> sectors[i] == before[i]
    }

    /** FSWriteSector for part of a sector of the FAT. */
    method WriteSector(sector: nat, off: nat, b: seq<byte>)
      requires Valid() && rsvdSectors <= sector < rsvdSectors + fatSectors && off + |b| <= bytesPerSector
      modifies this`sectors
      ensures Valid() && OnlyFat(old(sectors))
      ensures forall p: nat ::
              Quotient(p, bytesPerSector) == sector - rsvdSectors && Remainder(p, bytesPerSector) == off ==>
                Wrote(old(Image()), Image(), bytesPerSector, p, b)
    {
      ghost var image := Image();
      sectors := sectors[sector := Overwrite(sectors[sector], off, b)];
      assert Image() == image[sector - rsvdSectors := Overwrite(image[sector - rsvdSectors], off, b)];
      forall p: nat | Quotient(p, bytesPerSector) == sector - rsvdSectors && Remainder(p, bytesPerSector) == off
        ensures Wrote(image, Image(), bytesPerSector, p, b)
      {
        OverwriteWrote(image, bytesPerSector, p, b);
      }
    }

    /** WriteFATentry. */
    method WriteFatEntry(sector: nat, off: nat, c: nat, v: nat)
      requires Valid() && c <= totalClusters && (sector, off) == FatSectorNo(c)
      modifies this`sectors
      ensures Valid() && OnlyFat(old(sectors)) && Fat() == old(Fat())[c := v % EntryLimit(fatType)]
    {
      ghost var image, p := Image(), EntryOffset(fatType, c);
      EntryInside(c, 0);
      if fatType.FAT12? {
        WriteFat12Entry(sector, off, c, v);
      } else {
        EntryInSector(c);
        WriteSector(sector, off, Bytes(v, EntrySize(fatType)));
        forall d | 0 <= d <= totalClusters ensures Fat()[d] == old(Fat())[c := v % EntryLimit(fatType)][d] {
          EntryWrote(fatType, image, Image(), bytesPerSector, c, v, d);
        }
      }
    }

    /** The 12-bit branch: a word that is split between two sectors is read, merged and written in two parts. */
    method WriteFat12Entry(sector: nat, off: nat, c: nat, v: nat)
      requires Valid() && fatType.FAT12? && c <= totalClusters && (sector, off) == FatSectorNo(c)
      modifies this`sectors
      ensures Valid() && OnlyFat(old(sectors)) && Fat() == old(Fat())[c := v % EntryLimit(fatType)]
    {
      hide Quotient;
      ghost var image, p := Image(), EntryOffset(fatType, c);
      EntryInside(c, 0);
      EntryInside(c, 1);
      var fat12word;
      if off == bytesPerSector - 1 {
        NextSector(p, 1, bytesPerSector);
        fat12word := sectors[sector][off] as nat + 0x100 * (sectors[sector + 1][0] as nat);
      } else {
        SameSector(p, 1, bytesPerSector);
        fat12word := GetWord(sectors[sector], off);
      }
      assert fat12word == WordAt(image, bytesPerSector, p);
      var merged := Merged12(fat12word, c, v);
      WriteWord12(sector, off, merged, p);
      forall d | 0 <= d <= totalClusters ensures Fat()[d] == old(Fat())[c := v % EntryLimit(fatType)][d] {
        Entry12Wrote(image, Image(), bytesPerSector, c, v, d);
      }
    }

    method WriteWord12(sector: nat, off: nat, w: nat, ghost p: nat)
      requires Valid() && sector == rsvdSectors + Quotient(p, bytesPerSector) && off == Remainder(p, bytesPerSector)
      requires Quotient(p + 1, bytesPerSector) < fatSectors && Quotient(p, bytesPerSector) < fatSectors
      modifies this`sectors
      ensures Valid() && OnlyFat(old(sectors)) && Wrote(old(Image()), Image(), bytesPerSector, p, Bytes(w, 2))
    {
      ghost var image := Image();
      if off == bytesPerSector - 1 {
        BytesTwo(w);
        BytesTwo(w / 0x100);
        NextSector(p, 1, bytesPerSector);
        WriteSector(sector, off, Bytes(w, 1));
        ghost var half := Image();
        WriteSector(sector + 1, 0, Bytes(w / 0x100, 1));
        WroteTwice(image, half, Image(), bytesPerSector, p, Bytes(w, 1), Bytes(w / 0x100, 1));
      } else {
        WriteSector(sector, off, Bytes(w, 2));
      }
    }

    /** Where the entry after that of cluster `c` begins. */
    lemma NextEntry(c: nat)
      requires Valid() && !fatType.FAT12?
      ensures var p, p', size := FatSectorNo(c), FatSectorNo(c + 1), EntrySize(fatType);
              && p' == (if p.1 + size == bytesPerSector then (p.0 + 1, 0) else (p.0, p.1 + size))
              && (c <= totalClusters ==> p'.0 < |sectors|)
    {
      var o, size := EntryOffset(fatType, c), EntrySize(fatType);
      EntryInSector(c);
      if c <= totalClusters { EntryInside(c, 0); }
      if Remainder(o, bytesPerSector) + size == bytesPerSector {
        NextSector(o, size, bytesPerSector);
      } else {
        SameSector(o, size, bytesPerSector);
      }
    }

    /** Cluster 2 has its entry in the first sector. */
    lemma FirstEntry()
      requires Valid()
      ensures FatSectorNo(2) == (rsvdSectors, EntryOffset(fatType, 2))
    {
    }

    lemma EntryRead(c: nat)
      requires Valid() && !fatType.FAT12? && c <= totalClusters
      ensures var p := FatSectorNo(c);
              p.0 < rsvdSectors + fatSectors && p.1 + EntrySize(fatType) <= bytesPerSector == |sectors[p.0]| &&
                ReadEntry(fatType, sectors[p.0], p.1) == Fat()[c]
    {
      EntryInSector(c);
      EntryInside(c, 0);
      hide Entry, ReadEntry;
      EntryInSectorRead(fatType, Image(), bytesPerSector, c);
    }

    /** ReadFAT12Entry: the entry of cluster `c`, and the sector in which a scan has to go on with `c + 1`. */
    method ReadFat12Entry(sectorNo: nat, off: nat, c: nat, buffer: Sector) returns (entry: nat, sector: nat,
        buf: Sector)
      requires Valid() && fatType.FAT12? && c <= totalClusters && (sectorNo, off) == FatSectorNo(c)
      requires sectorNo < |sectors| && buffer == sectors[sectorNo]
      ensures entry == Fat()[c] && sector == FatSectorNo(c + 1).0 < |sectors| && buf == sectors[sector]
    {
      hide *;
      Packed12(c);
      Next12(c);
      sector, buf := sectorNo, buffer;
      if off == bytesPerSector - 1 {
        var low := buf[off];
        sector := sector + 1;
        buf := sectors[sector];
        entry := low as nat + 0x100 * (buf[0] as nat);
      } else {
        entry := GetWord(buf, off);
      }
      entry := if c % 2 == 1 then entry / 16 else entry % 0x1000;
      if off == bytesPerSector - 2 && c % 2 == 1 {
        sector := sector + 1;
        buf := sectors[sector];
      }
    }

    /** The two bytes that hold a 12-bit entry; the second one may be in the next sector. */
    lemma Packed12(c: nat)
      requires Valid() && fatType.FAT12? && c <= totalClusters
      ensures var s, off := FatSectorNo(c).0, FatSectorNo(c).1;
              && bytesPerSector >= 16 && s + 1 < |sectors| && |sectors[s]| == |sectors[s + 1]| == bytesPerSector > off
              && Fat()[c] ==
                 var word :=
                   if off == bytesPerSector - 1 then sectors[s][off] as nat + 0x100 * (sectors[s + 1][0] as nat)
                   else GetWord(sectors[s], off);
                 if c % 2 == 1 then word / 16 else word % 0x1000
    {
      hide Quotient, EntryOffset, Remainder;
      EntryInside(c, 0);
      EntryInside(c, 1);
      FatUniform();
      WordInSectors(EntryOffset(fatType, c));
      assert Fat()[c] == Entry(fatType, Image(), bytesPerSector, c);
    }

    lemma FatUniform()
      requires Valid()
      ensures Uniform(Image(), bytesPerSector)
    {
    }

    lemma WordInSectors(p: nat)
      requires Valid() && Quotient(p, bytesPerSector) < fatSectors && Quotient(p + 1, bytesPerSector) < fatSectors
      ensures var s, off := rsvdSectors + Quotient(p, bytesPerSector), Remainder(p, bytesPerSector);
              && s + 1 < |sectors| && |sectors[s]| == |sectors[s + 1]| == bytesPerSector
              && Uniform(Image(), bytesPerSector)
              && WordAt(Image(), bytesPerSector, p) ==
                 if off == bytesPerSector - 1 then sectors[s][off] as nat + 0x100 * (sectors[s + 1][0] as nat)
                 else GetWord(sectors[s], off)
    {
      hide Quotient, EntryOffset, Remainder;
      FatUniform();
      if Remainder(p, bytesPerSector) == bytesPerSector - 1 {
        NextSector(p, 1, bytesPerSector);
      } else {
        SameSector(p, 1, bytesPerSector);
      }
    }

    /** The sector of the next 12-bit entry: the next one if this entry takes the sector's last byte or the one
        after it. */
    lemma Next12(c: nat)
      requires Valid() && fatType.FAT12?
      ensures var p := FatSectorNo(c);
              FatSectorNo(c + 1).0 == if p.1 == bytesPerSector - 1 || (p.1 == bytesPerSector - 2 && c % 2 == 1)
                then p.0 + 1 else p.0
    {
      var o := EntryOffset(fatType, c);
      var d := if c % 2 == 1 then 2 else 1;
      assert EntryOffset(fatType, c + 1) == o + d;
      if Remainder(o, bytesPerSector) + d < bytesPerSector {
        SameSector(o, d, bytesPerSector);
      } else {
        NextSector(o, d, bytesPerSector);
      }
    }

    /** FAT32 entries are signed numbers in the source. */
    function Signed(v: nat): int {
      if v < 0x8000_0000 then v else v - 0x1_0000_0000
    }

    /** Where the chain goes on after a cluster: END_OF_FILE for the exact end mark. */
    ghost function Link(c: nat): int
      requires Valid() && c <= totalClusters
      reads this`sectors
    {
      var e := Fat()[c];
      match fatType
      case FAT12 => if e == FAT12EOF then END_OF_FILE else e
      case FAT16 => if e == FAT16EOF then END_OF_FILE else e
      case FAT32 => if e == FAT32EOF then END_OF_FILE else Signed(e)
    }

    /** Findnextcluster with ReadFATentry. */
    method FindNextCluster(c: nat) returns (next: int)
      requires Valid() && c <= totalClusters
      ensures next == Link(c)
    {
      var (sector, off) := FatSectorNo(c);
      EntryInside(c, 0);
      var buf := sectors[sector];
      if fatType.FAT12? {
        var entry, _, _ := ReadFat12Entry(sector, off, c, buf);
        next := if entry == FAT12EOF then END_OF_FILE else entry;
      } else {
        EntryRead(c);
        var entry := ReadEntry(fatType, buf, off);
        if fatType.FAT16? {
          next := if entry == FAT16EOF then END_OF_FILE else entry;
        } else {
          next := if entry == FAT32EOF then END_OF_FILE else Signed(entry);
        }
      }
    }

    // ---------------------------------------------------------------- one pinned sector

    /** The entries if sector `s` of the FAT had the content `buf`. */
    ghost function FatWith(s: nat, buf: Sector): (f: seq<nat>)
      requires Valid() && s < fatSectors && |buf| == bytesPerSector
      reads this`sectors
      ensures |f| == totalClusters + 1
    {
      var image := Image()[s := buf];
      seq(totalClusters + 1, c requires 0 <= c => Entry(fatType, image, bytesPerSector, c))
    }

    /** DeleteContent finds the sector of an entry by shifting the cluster number. */
    lemma SectorOfEntry(c: nat)
      requires Valid() && !fatType.FAT12?
      ensures bytesPerSector / EntrySize(fatType) > 0
      ensures c / (bytesPerSector / EntrySize(fatType)) == Quotient(EntryOffset(fatType, c), bytesPerSector)
    {
      var e := bytesPerSector / 4;
      assert bytesPerSector == 4 * e;
      if fatType.FAT16? {
        EntryQuotient(c, 2 * e, 2);
      } else {
        EntryQuotient(c, e, 4);
      }
    }

    lemma EntryQuotient(c: nat, perSector: nat, size: nat)
      requires perSector > 0 && size > 0
      ensures size * perSector > 0 && size * c / (size * perSector) == c / perSector
    {
      var q, r := c / perSector, c % perSector;
      assert c == q * perSector + r;
      Distribute(q, perSector, r, size);
      LessProduct(r, perSector, 0, size);
      DivModUnique(size * c, size * perSector, q, r * size);
    }

    lemma PinnedRead(c: nat, s: nat, buf: Sector)
      requires Valid() && !fatType.FAT12? && c <= totalClusters && |buf| == bytesPerSector
      requires s == FatSectorNo(c).0 - rsvdSectors
      ensures s < fatSectors && FatSectorNo(c).1 + EntrySize(fatType) <= bytesPerSector
      ensures ReadEntry(fatType, buf, FatSectorNo(c).1) == FatWith(s, buf)[c]
    {
      EntryInSector(c);
      EntryInside(c, 0);
      hide Entry, ReadEntry;
      EntryInSectorRead(fatType, Image()[s := buf], bytesPerSector, c);
    }

    lemma PinnedZero(c: nat, s: nat, buf: Sector)
      requires Valid() && !fatType.FAT12? && c <= totalClusters && |buf| == bytesPerSector
      requires s == FatSectorNo(c).0 - rsvdSectors
      ensures s < fatSectors && FatSectorNo(c).1 + EntrySize(fatType) <= bytesPerSector
      ensures FatWith(s, Overwrite(buf, FatSectorNo(c).1, Bytes(0, EntrySize(fatType)))) == FatWith(s, buf)[c := 0]
    {
      var o, zero := EntryOffset(fatType, c), Bytes(0, EntrySize(fatType));
      EntryInSector(c);
      EntryInside(c, 0);
      var image := Image()[s := buf];
      var image' := Image()[s := Overwrite(buf, FatSectorNo(c).1, zero)];
      OverwriteWrote(image, bytesPerSector, o, zero);
      assert image' == image[s := Overwrite(image[s], Remainder(o, bytesPerSector), zero)];
      forall d | 0 <= d <= totalClusters
        ensures FatWith(s, Overwrite(buf, FatSectorNo(c).1, zero))[d] == FatWith(s, buf)[c := 0][d]
      {
        EntryWrote(fatType, image, image', bytesPerSector, c, 0, d);
      }
    }

    /** media_cache_pinned_write: the content of a sector of the FAT. */
    method Pin(s: nat) returns (buf: Sector)
      requires Valid() && s < fatSectors
      ensures |buf| == bytesPerSector && FatWith(s, buf) == Fat()
    {
      buf := sectors[rsvdSectors + s];
      assert Image()[s := buf] == Image();
    }

    /** media_cache_release: the pinned content becomes that of the sector. */
    method Release(s: nat, buf: Sector)
      requires Valid() && s < fatSectors && |buf| == bytesPerSector
      modifies this`sectors
      ensures Valid() && OnlyFat(old(sectors)) && Fat() == old(FatWith(s, buf))
    {
      ghost var image := Image();
      sectors := sectors[rsvdSectors + s := buf];
      assert Image() == image[s := buf];
    }
  }
}
