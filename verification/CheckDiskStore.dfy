/** The storage layer of the check-disk utility (filesystem/chkdsk/src/FatUtils.c and BitIo.c): FAT
    entries read and freed through one cached group of three sectors, and one bit per cluster, kept in
    RAM on FAT16 and in the sectors of the second FAT, behind five cached sectors, on FAT32. */
module CheckDiskStore {
  import opened Division
  import opened CheckDiskWords
  import opened CheckDiskBitCache
  import CheckDiskTable
  import FatBytes

  const NUM_CACHED_SECTORS: nat := 3
  const BAD_CLUSTER: nat := 0xffff_ffff
  const MAX_FAT_ENTRY_WORDS: nat := 2048
  const MINIMUM_WORDS: nat := 528

  /** The part of checkdisk_context_t that concerns storage, with the device's sectors. */
  class Store {
    const fat32: bool
    const sectorWords: nat
    const primary: nat      // wStartSectPrimaryFat
    const fatSectors: nat   // wNumberFatSectors
    const total: nat        // dwTotalclusters, the largest cluster number

    var sectors: seq<Sector>
    var fatSectorCached: nat
    var fatDirty: bool
    const fatBuffer: array<word>

    const descriptors: array<CacheDescriptor>   // CacheDesc_chkdsk
    const cacheMem: array<Sector>               // CacheMem_chkdsk
    const entryStatus: array<word>              // FATEntryStatus

    /** The logical content of the first FAT. */
    ghost var fatImage: seq<Sector>

    /** The logical content of the sectors of the second FAT that hold the bits (FAT32). */
    ghost var bitImage: seq<Sector>

    ghost predicate Geometry()
      reads this`sectors
    {
      && sectorWords > 0 && primary >= 1 && fatSectors >= 2 && fatBuffer.Length == 3 * sectorWords
      && |sectors| >= primary + 2 * fatSectors
      && (forall i :: 0 <= i < |sectors| ==> |sectors[i]| == sectorWords)
      && total / EntriesPerSector(fat32, sectorWords) < fatSectors
    }

    /** First sector of the second FAT. */
    function Secondary(): nat {
      primary + fatSectors
    }

    function RowStart(r: nat): nat
      requires r <= 3
    {
      if r == 0 then 0 else if r == 1 then sectorWords else if r == 2 then sectorWords + sectorWords
        else 3 * sectorWords
    }

    /** The `r`th sector of the cached group. */
    ghost function Row(r: nat): Sector
      requires r < 3 && fatBuffer.Length == 3 * sectorWords
      reads fatBuffer
    {
      fatBuffer[RowStart(r)..RowStart(r + 1)]
    }

    ghost predicate InGroup(j: nat)
      reads this`fatSectorCached
    {
      fatSectorCached != 0 && fatSectorCached <= primary + j < fatSectorCached + 3
    }

    ghost predicate SectorAgrees(j: nat)
      requires Geometry() && j < fatSectors && |fatImage| == fatSectors
      reads this`sectors, this`fatSectorCached, this`fatDirty, this`fatImage, fatBuffer
    {
      if InGroup(j)
      then Row(primary + j - fatSectorCached) == fatImage[j] && (fatDirty || sectors[primary + j] == fatImage[j])
      else sectors[primary + j] == fatImage[j]
    }

    /** The group buffer and the sectors together hold `fatImage`. */
    ghost predicate FatValid()
      reads this`sectors, this`fatSectorCached, this`fatDirty, this`fatImage, fatBuffer
    {
      && Geometry() && |fatImage| == fatSectors
      && (fatSectorCached == 0 ==> !fatDirty)
      && (fatSectorCached != 0 ==> primary <= fatSectorCached < Secondary())
      && (forall j :: 0 <= j < fatSectors ==> |fatImage[j]| == sectorWords)
      && (forall j :: 0 <= j < fatSectors ==> SectorAgrees(j))
    }

    /** The first FAT on the device is up to date. */
    ghost predicate Clean()
      reads this`sectors, this`fatDirty, this`fatImage
    {
      && Geometry() && |fatImage| == fatSectors && !fatDirty
      && (forall j :: 0 <= j < fatSectors ==> |fatImage[j]| == sectorWords && sectors[primary + j] == fatImage[j])
    }

    lemma FatClean()
      requires FatValid() && !fatDirty
      ensures Clean()
    {
      forall j | 0 <= j < fatSectors ensures sectors[primary + j] == fatImage[j] {
        assert SectorAgrees(j);
      }
    }

    /** A dirty group that reaches into the second FAT: writing it back reports failure. */
    ghost predicate Crossing()
      reads this`fatSectorCached, this`fatDirty
    {
      fatDirty && fatSectorCached + 3 > Secondary()
    }

    constructor (fat32: bool, sectorWords: nat, primary: nat, fatSectors: nat, total: nat, sectors: seq<Sector>)
      requires sectorWords > 0 && primary >= 1 && fatSectors >= 2 && |sectors| >= primary + 2 * fatSectors
      requires forall i :: 0 <= i < |sectors| ==> |sectors[i]| == sectorWords
      requires total / EntriesPerSector(fat32, sectorWords) < fatSectors
      ensures this.fat32 == fat32 && this.sectorWords == sectorWords && this.primary == primary
      ensures this.fatSectors == fatSectors && this.total == total && this.sectors == sectors
      ensures FatValid() && !fatDirty && Buffers() && fresh(Arrays())
    {
      this.fat32, this.sectorWords, this.primary, this.fatSectors, this.total :=
        fat32, sectorWords, primary, fatSectors, total;
      this.sectors := sectors;
      fatSectorCached, fatDirty := 0, false;
      fatBuffer := new word[3 * sectorWords];
      descriptors := new CacheDescriptor[MAX_CACHES](_ => CacheDescriptor(false, 0, false, 0));
      cacheMem := new Sector[MAX_CACHES](_ => []);
      entryStatus := new word[MAX_CACHES * if sectorWords < MINIMUM_WORDS then MINIMUM_WORDS else sectorWords];
      fatImage := sectors[primary..primary + fatSectors];
      new;
      hide FatValid, SectorAgrees;
      InitiallyValid();
    }

    lemma InitiallyValid()
      requires Geometry() && fatSectorCached == 0 && !fatDirty && fatImage == sectors[primary..primary + fatSectors]
      ensures FatValid()
    {
    }

    /** The arrays of the context. */
    ghost function Arrays(): set<object> {
      {fatBuffer, descriptors, cacheMem, entryStatus}
    }

    ghost predicate Buffers() {
      && fatBuffer != entryStatus && descriptors.Length == cacheMem.Length == MAX_CACHES
      && entryStatus.Length >= MAX_FAT_ENTRY_WORDS
    }

    /** Writes the cached group to the first FAT. It returns false when the group crosses into the
        second FAT, although everything that belongs to the first FAT has been written. */
    method WriteFatSector(sect: nat) returns (ok: bool)
      requires FatValid() && fatSectorCached != 0 && sect == fatSectorCached
      modifies this`sectors, this`fatDirty, this`fatSectorCached
      ensures FatValid() && !fatDirty && fatSectorCached == old(fatSectorCached)
      ensures ok <==> sect + 3 <= Secondary()
      ensures SameOutside(sectors, old(sectors), primary, Secondary())
    {
      hide EntriesPerSector;
      var i := 0;
      ok := true;
      while i < NUM_CACHED_SECTORS
        invariant 0 <= i <= 3 && Geometry() && sect + i <= Secondary() && ok
        invariant fatSectorCached == sect && fatDirty == old(fatDirty)
        invariant SameOutside(sectors, old(sectors), sect, sect + i)
        invariant forall r :: 0 <= r < i ==> sectors[sect + r] == Row(r)
      {
        if sect + i < Secondary() {
          sectors := sectors[sect + i := fatBuffer[RowStart(i)..RowStart(i + 1)]];
        } else {
          ok := false;
          break;
        }
        i := i + 1;
      }
      fatDirty := false;
      fatSectorCached := sect;
      WrittenBack(i);
    }

    /** After the rows inside the first FAT are written, sectors and image agree everywhere. */
    twostate lemma WrittenBack(n: nat)
      requires old(FatValid()) && fatSectorCached == old(fatSectorCached) != 0 && !fatDirty && Geometry()
      requires n <= 3 && fatSectorCached + n <= Secondary() && (n == 3 || fatSectorCached + n == Secondary())
      requires fatImage == old(fatImage) && fatBuffer[..] == old(fatBuffer[..])
      requires SameOutside(sectors, old(sectors), fatSectorCached, fatSectorCached + n)
      requires forall r :: 0 <= r < n ==> sectors[fatSectorCached + r] == Row(r)
      ensures FatValid()
    {
      forall j | 0 <= j < fatSectors ensures SectorAgrees(j) {
        assert old(SectorAgrees(j));
        if InGroup(j) {
          var r := primary + j - fatSectorCached;
          assert Row(r) == old(Row(r));
          assert sectors[fatSectorCached + r] == Row(r);
        }
      }
    }
  
    lemma RowBounds(r: nat)
      requires r < 3
      ensures RowStart(r + 1) == RowStart(r) + sectorWords <= 3 * sectorWords
    {
    }

    lemma RowsApart(q: nat, r: nat)
      requires q < 3 && r < 3 && q != r
      ensures RowStart(q + 1) <= RowStart(r) || RowStart(r + 1) <= RowStart(q)
    {
    }

    /** Copies a sector that was read into the `r`th row of the group buffer. */
    method ReadRow(r: nat, readBuffer: Sector)
      requires r < 3 && fatBuffer.Length == 3 * sectorWords && |readBuffer| == sectorWords
      modifies fatBuffer
      ensures Row(r) == readBuffer
      ensures forall q :: 0 <= q < 3 && q != r ==> Row(q) == old(Row(q))
    {
      hide RowStart;
      RowBounds(r);
      forall k | 0 <= k < sectorWords {
        fatBuffer[RowStart(r) + k] := readBuffer[k];
      }
      assert forall k :: 0 <= k < sectorWords ==> fatBuffer[RowStart(r) + k] == readBuffer[k];
      forall q | 0 <= q < 3 && q != r ensures Row(q) == old(Row(q)) {
        RowBounds(q);
        RowsApart(q, r);
      }
    }

    /** Makes the three sectors from `sect` on the cached group. */
    method LoadFatSector(sect: nat) returns (ok: bool)
      requires FatValid()
      modifies this`sectors, this`fatDirty, this`fatSectorCached, fatBuffer
      ensures FatValid()
      ensures ok <==> primary <= sect < Secondary() && (sect == old(fatSectorCached) || !old(Crossing()))
      ensures ok ==> fatSectorCached == sect
      ensures ok && sect != old(fatSectorCached) ==> !fatDirty
      ensures sect == old(fatSectorCached) ==> fatDirty == old(fatDirty)
      ensures SameOutside(sectors, old(sectors), primary, Secondary())
    {
      hide Row;
      if sect < primary || sect > Secondary() - 1 {
        return false;
      }
      if sect == fatSectorCached {
        return true;
      }
      if fatDirty {
        ok := WriteFatSector(fatSectorCached);
        if !ok {
          return false;
        }
      }
      FatClean();
      ghost var clean := sectors;
      var i := 0;
      while i < NUM_CACHED_SECTORS
        invariant 0 <= i <= 3 && Clean() && sectors == clean
        invariant forall r :: 0 <= r < i ==> Row(r) == sectors[sect + r]
      {
        ReadRow(i, sectors[sect + i]);
        i := i + 1;
      }
      fatSectorCached := sect;
      return true;
    }

    // ---------------------------------------------------------------- entries

    /** Sector and place in the sector of the entry of cluster `c`. */
    function FatIndex(c: nat): nat
      requires sectorWords > 0
    {
      Quotient(c, EntriesPerSector(fat32, sectorWords))
    }

    function FatOffset(c: nat): (k: nat)
      requires sectorWords > 0
      ensures k < EntriesPerSector(fat32, sectorWords)
    {
      Remainder(c, EntriesPerSector(fat32, sectorWords))
    }

    ghost function EntryIn(words: seq<word>, k: nat): nat {
      if WordOf(fat32, k) < |words| then Value(EntryBits(fat32, words[WordOf(fat32, k)], k % 2 == 1)) else 0
    }

    /** The entry of cluster `c` in a FAT with the given content. */
    ghost function EntryOf(image: seq<Sector>, c: nat): nat {
      if sectorWords > 0 && FatIndex(c) < |image| then EntryIn(image[FatIndex(c)], FatOffset(c)) else 0
    }

    /** All entries of the first FAT, from that of cluster 0 to that of the last cluster. */
    ghost function Fat(): (f: seq<nat>)
      reads this`fatImage
      ensures |f| == total + 1
    {
      var image := fatImage;
      seq(total + 1, c requires 0 <= c => EntryOf(image, c))
    }

    /** The bytes of the first FAT. */
    ghost function Table(): (b: seq<FatBytes.Sector>)
      requires FatValid()
      reads this, fatBuffer
      ensures FatBytes.Uniform(b, 4 * sectorWords)
    {
      CheckDiskTable.Uniformly(fatImage, sectorWords);
      CheckDiskTable.ImageBytes(fatImage)
    }

    /** Check-disk sees the table that the file system reads from these bytes. */
    lemma SameTable()
      requires FatValid()
      ensures forall d :: 0 <= d <= total ==>
                Fat()[d] == FatBytes.Entry(CheckDiskTable.TypeOf(fat32), Table(), 4 * sectorWords, d)
    {
      hide FatBytes.Entry, CheckDiskTable.ImageBytes, Value, EntryBits, WordOf, EntriesPerSector;
      forall d: nat | d <= total
        ensures Fat()[d] == FatBytes.Entry(CheckDiskTable.TypeOf(fat32), Table(), 4 * sectorWords, d)
      {
        IndexInside(d);
        CheckDiskTable.SameEntry(fat32, fatImage, sectorWords, d);
      }
    }

    /** With no write-back due, these are the bytes of the device's sectors. */
    lemma TableOnDevice()
      requires FatValid() && !fatDirty
      ensures Table() == CheckDiskTable.ImageBytes(sectors[primary..Secondary()])
    {
      FatClean();
      assert sectors[primary..Secondary()] == fatImage;
    }

    lemma IndexInside(c: nat)
      requires Geometry() && c <= total
      ensures FatIndex(c) < fatSectors
    {
      DivMonotone(c, total, EntriesPerSector(fat32, sectorWords));
    }

    /** First sector of the group of three that holds the entry of cluster `c`, and the entry's place in
        that group. */
    function Group(c: nat): nat
      requires sectorWords > 0
    {
      Quotient(c, 3 * EntriesPerSector(fat32, sectorWords)) * 3 + primary
    }

    function GroupOffset(c: nat): int
      requires sectorWords > 0
    {
      c - Quotient(c, 3 * EntriesPerSector(fat32, sectorWords)) * (3 * EntriesPerSector(fat32, sectorWords))
    }

    /** Another group has to be loaded to reach `c`, and the present one cannot be written back. */
    ghost predicate Stuck(c: nat)
      requires sectorWords > 0
      reads this`fatSectorCached, this`fatDirty
    {
      Crossing() && fatSectorCached != Group(c)
    }

    lemma GroupSplit(c: nat) returns (r: nat)
      requires sectorWords > 0
      ensures r < 3 && FatIndex(c) + primary == Group(c) + r
      ensures 0 <= GroupOffset(c) == r * EntriesPerSector(fat32, sectorWords) + FatOffset(c)
    {
      r := GroupPlace(c, EntriesPerSector(fat32, sectorWords));
    }

    lemma WordInRow(r: nat, k: nat)
      requires sectorWords > 0 && r < 3 && k < EntriesPerSector(fat32, sectorWords)
      requires fatBuffer.Length == 3 * sectorWords
      ensures var off := r * EntriesPerSector(fat32, sectorWords) + k;
              && WordOf(fat32, off) == RowStart(r) + WordOf(fat32, k) < RowStart(r + 1) <= fatBuffer.Length
              && (fat32 || off % 2 == k % 2) && WordOf(fat32, k) < sectorWords &&
                 RowStart(r + 1) == RowStart(r) + sectorWords
    {
      assert r == 0 || r == 1 || r == 2;
    }

    /** Place `off` of the group buffer is place `k` of its `r`th row. */
    lemma RowPlace(r: nat, k: nat)
      requires sectorWords > 0 && r < 3 && k < EntriesPerSector(fat32, sectorWords)
      requires fatBuffer.Length == 3 * sectorWords
      ensures var off := r * EntriesPerSector(fat32, sectorWords) + k;
              && WordOf(fat32, off) == RowStart(r) + WordOf(fat32, k) < fatBuffer.Length
              && (fat32 || off % 2 == k % 2) && WordOf(fat32, k) < sectorWords
              && EntryIn(fatBuffer[..], off) == EntryIn(Row(r), k)
    {
      hide EntriesPerSector, WordOf, EntryBits, RowStart;
      WordInRow(r, k);
      var off := r * EntriesPerSector(fat32, sectorWords) + k;
      assert |fatBuffer[..]| == fatBuffer.Length && fatBuffer[..][WordOf(fat32, off)] == Row(r)[WordOf(fat32, k)];
      EntryBitsWhole(fat32, Row(r)[WordOf(fat32, k)], off % 2 == 1, k % 2 == 1);
    }

    /** Where the entry of `c` lies in the loaded group. */
    lemma EntryLoaded(c: nat)
      requires FatValid() && c <= total && fatSectorCached == Group(c)
      ensures 0 <= GroupOffset(c) && WordOf(fat32, GroupOffset(c)) < fatBuffer.Length
      ensures EntryIn(fatBuffer[..], GroupOffset(c)) == Fat()[c]
    {
      hide FatIndex, FatOffset, Group, GroupOffset, EntryIn;
      var r := GroupSplit(c);
      IndexInside(c);
      RowPlace(r, FatOffset(c));
      assert SectorAgrees(FatIndex(c));
      assert InGroup(FatIndex(c)) by { assert primary <= Group(c) by { GroupInside(c); } }
      assert fatImage[FatIndex(c)] == Row(r);
      assert Fat()[c] == EntryOf(fatImage, c);
    }

    /** GetNextCxFat16 and GetNextCxFat32. */
    method GetNextCxFromFat(c: nat) returns (value: nat)
      requires FatValid() && c <= total
      modifies this`sectors, this`fatDirty, this`fatSectorCached, fatBuffer
      ensures FatValid() && SameOutside(sectors, old(sectors), primary, Secondary())
      ensures value == if old(Stuck(c)) then BAD_CLUSTER else Fat()[c]
      ensures value == if old(Stuck(c)) then BAD_CLUSTER
                       else FatBytes.Entry(CheckDiskTable.TypeOf(fat32), Table(), 4 * sectorWords, c)
      ensures !old(Stuck(c)) ==> fatSectorCached == Group(c)
      ensures !old(Stuck(c)) && fatSectorCached != old(fatSectorCached) ==> !fatDirty
      ensures fatSectorCached == old(fatSectorCached) && !old(Stuck(c)) ==> fatDirty == old(fatDirty)
    {
      hide EntryIn, EntryOf, FatBytes.Entry;
      SameTable();
      var entriesPerSectorGroup := 3 * EntriesPerSector(fat32, sectorWords);
      var startSect := Quotient(c, entriesPerSectorGroup);
      var offCx := c - startSect * entriesPerSectorGroup;
      assert startSect * NUM_CACHED_SECTORS + primary == Group(c) && offCx == GroupOffset(c);
      GroupInside(c);
      if startSect * NUM_CACHED_SECTORS + primary != fatSectorCached {
        var ok := LoadFatSector(startSect * NUM_CACHED_SECTORS + primary);
        if !ok {
          return BAD_CLUSTER;
        }
      }
      EntryLoaded(c);
      return ReadEntry(offCx);
    }

    lemma GroupInside(c: nat)
      requires Geometry() && c <= total
      ensures primary <= Group(c) < Secondary()
    {
      var r := GroupSplit(c);
      IndexInside(c);
    }

    /** Groups follow one another in steps of three sectors, so a group that reaches into the second FAT is
        the last one. */
    lemma GroupOrder(c: nat, d: nat)
      requires Geometry() && c <= d <= total
      ensures Group(c) <= Group(d) && (Group(c) + 3 > Secondary() ==> Group(d) == Group(c))
    {
      DivMonotone(c, d, 3 * EntriesPerSector(fat32, sectorWords));
      GroupInside(d);
    }

    /** FSGetWord or FSGetDWord at an entry's place in the group buffer. */
    function ReadEntry(off: nat): (v: nat)
      requires WordOf(fat32, off) < fatBuffer.Length
      reads fatBuffer
      ensures v == EntryIn(fatBuffer[..], off)
    {
      Value(EntryBits(fat32, fatBuffer[WordOf(fat32, off)], off % 2 == 1))
    }
  
    /** A sector with the entry at place `k` zeroed. */
    ghost function FreedIn(words: seq<word>, k: nat): seq<word>
      requires WordOf(fat32, k) < |words|
      ensures |FreedIn(words, k)| == |words|
    {
      words[WordOf(fat32, k) := FreedBits(fat32, words[WordOf(fat32, k)], k % 2 == 1)]
    }

    lemma FreedInAt(words: seq<word>, k: nat, j: nat)
      requires WordOf(fat32, k) < |words| && WordOf(fat32, j) < |words|
      ensures EntryIn(FreedIn(words, k), j) == if j == k then 0 else EntryIn(words, j)
    {
      if WordOf(fat32, j) == WordOf(fat32, k) {
        var w := words[WordOf(fat32, k)];
        FreedBitsAt(fat32, w, k % 2 == 1);
        ValueZero(EntryBits(fat32, FreedBits(fat32, w, k % 2 == 1), j % 2 == 1));
      }
    }

    /** Zeroing one entry in its sector zeroes that entry of the FAT and no other. */
    lemma FreedFat(image: seq<Sector>, c: nat, d: nat)
      requires sectorWords > 0 && FatIndex(c) < |image| && forall j :: 0 <= j < |image| ==> |image[j]| == sectorWords
      requires FatIndex(d) < |image|
      ensures WordOf(fat32, FatOffset(c)) < sectorWords
      ensures EntryOf(image[FatIndex(c) := FreedIn(image[FatIndex(c)], FatOffset(c))], d) ==
              if d == c then 0 else EntryOf(image, d)
    {
      var eps := EntriesPerSector(fat32, sectorWords);
      assert WordOf(fat32, FatOffset(c)) < sectorWords && WordOf(fat32, FatOffset(d)) < sectorWords;
      FreedInAt(image[FatIndex(c)], FatOffset(c), FatOffset(d));
      if FatIndex(c) == FatIndex(d) && FatOffset(c) == FatOffset(d) { QuotientInjective(c, d, eps); }
    }

    /** PutWord or PutDword of a zero at place `off` of the group buffer, place `k` of row `r`. */
    method StoreZero(off: nat, ghost r: nat, ghost k: nat)
      requires sectorWords > 0 && r < 3 && k < EntriesPerSector(fat32, sectorWords)
      requires fatBuffer.Length == 3 * sectorWords
      requires WordOf(fat32, off) == RowStart(r) + WordOf(fat32, k) < fatBuffer.Length && WordOf(fat32, k) < sectorWords
      requires fat32 || off % 2 == k % 2
      modifies fatBuffer
      ensures Row(r) == FreedIn(old(Row(r)), k)
      ensures forall q :: 0 <= q < 3 && q != r ==> Row(q) == old(Row(q))
    {
      hide FreedBits, WordOf, EntriesPerSector;
      var i := WordOf(fat32, off);
      FreedBitsWhole(fat32, fatBuffer[i], off % 2 == 1, k % 2 == 1);
      assert fatBuffer[i] == Row(r)[WordOf(fat32, k)];
      fatBuffer[i] := FreedBits(fat32, fatBuffer[i], off % 2 == 1);
    }

    /** Stores a zero at the entry of `c` in the loaded group. */
    method ZeroEntry(c: nat, offCx: nat)
      requires FatValid() && c <= total && fatSectorCached == Group(c) && offCx == GroupOffset(c)
      requires WordOf(fat32, offCx) < fatBuffer.Length
      modifies this`fatDirty, this`fatImage, fatBuffer
      ensures FatValid() && fatDirty && Fat() == old(Fat())[c := 0]
    {
      hide FreedIn, EntryOf, EntryIn, WordOf, Group, GroupOffset, FatIndex, FatOffset;
      ghost var r := GroupSplit(c);
      ghost var j, k := FatIndex(c), FatOffset(c);
      IndexInside(c);
      RowPlace(r, k);
      GroupInside(c);
      assert SectorAgrees(j) && InGroup(j);
      StoreZero(offCx, r, k);
      fatDirty := true;
      fatImage := fatImage[j := FreedIn(fatImage[j], k)];
      forall q | 0 <= q < fatSectors ensures SectorAgrees(q) {
        assert old(SectorAgrees(q));
      }
      forall d | 0 <= d <= total ensures Fat()[d] == old(Fat())[c := 0][d] {
        IndexInside(d);
        FreedFat(old(fatImage), c, d);
      }
    }

    /** FreeCxFat16 and FreeCxFat32. */
    method FreeCx(c: nat) returns (ok: bool)
      requires FatValid() && c <= total
      modifies this`sectors, this`fatDirty, this`fatSectorCached, this`fatImage, fatBuffer
      ensures FatValid() && SameOutside(sectors, old(sectors), primary, Secondary())
      ensures ok <==> !old(Stuck(c))
      ensures ok ==> Fat() == old(Fat())[c := 0] && fatDirty && fatSectorCached == Group(c)
      ensures !ok ==> Fat() == old(Fat())
    {
      var entriesPerSectorGroup := 3 * EntriesPerSector(fat32, sectorWords);
      var startSect := Quotient(c, entriesPerSectorGroup);
      var offCx := c - startSect * entriesPerSectorGroup;
      assert startSect * NUM_CACHED_SECTORS + primary == Group(c) && offCx == GroupOffset(c);
      GroupInside(c);
      if startSect * NUM_CACHED_SECTORS + primary != fatSectorCached {
        ok := LoadFatSector(startSect * NUM_CACHED_SECTORS + primary);
        if !ok {
          return false;
        }
      }
      EntryLoaded(c);
      ZeroEntry(c, offCx);
      return true;
    }

    /** Frees a FAT entry unless it is free already. */
    method FreeCxFat(c: nat) returns (ok: bool)
      requires FatValid() && c <= total
      modifies this`sectors, this`fatDirty, this`fatSectorCached, this`fatImage, fatBuffer
      ensures FatValid() && SameOutside(sectors, old(sectors), primary, Secondary())
      ensures ok <==> !old(Stuck(c)) && old(Fat())[c] != BAD_CLUSTER
      ensures Fat() == if ok then old(Fat())[c := 0] else old(Fat())
      ensures !old(Stuck(c)) ==> fatSectorCached == Group(c)
      ensures !old(Stuck(c)) ==>
              (fatDirty <==> (old(fatDirty) && old(fatSectorCached) == Group(c)) || (ok && old(Fat())[c] != 0))
      ensures forall d :: 0 <= d <= total ==>
                FatBytes.Entry(CheckDiskTable.TypeOf(fat32), Table(), 4 * sectorWords, d) ==
                if ok && d == c then 0
                else old(FatBytes.Entry(CheckDiskTable.TypeOf(fat32), Table(), 4 * sectorWords, d))
    {
      hide FatBytes.Entry, Fat;
      SameTable();
      var value := GetNextCxFromFat(c);
      if value == BAD_CLUSTER {
        ok := false;
      } else if value == 0 {
        ok := true;
      } else {
        ok := FreeCx(c);
      }
      SameTable();
    }
  
    // ---------------------------------------------------------------- bits in the second FAT

    /** Number of sectors of the second FAT that hold bits. */
    function BitSectors(): nat
      requires sectorWords > 0
    {
      Quotient(total, sectorWords * 32) + 1
    }

    /** Sector, word and bit that belong to cluster `c`. */
    function BitSector(c: nat): nat
      requires sectorWords > 0
    {
      Quotient(c, sectorWords * 32)
    }

    function BitWord(c: nat): (w: nat)
      requires sectorWords > 0
      ensures w < sectorWords
    {
      Remainder(c, sectorWords * 32) / 32
    }

    function BitOffset(c: nat): (b: nat)
      requires sectorWords > 0
      ensures b < 32
    {
      Remainder(c, sectorWords * 32) % 32
    }

    ghost predicate BitValid()
      reads this`sectors, this`bitImage, descriptors, cacheMem
    {
      && Geometry() && BitSectors() <= fatSectors && |bitImage| == BitSectors()
      && (forall j :: 0 <= j < |bitImage| ==> |bitImage[j]| == sectorWords)
      && descriptors.Length == cacheMem.Length == MAX_CACHES
      && Agrees(descriptors[..], cacheMem[..], sectors, Secondary(), bitImage, -1)
    }

    /** Finds the valid slot that holds a sector; -1 if there is none. */
    method SearchMatchingSector(sectorNumber: nat) returns (index: int)
      requires descriptors.Length == MAX_CACHES
      ensures -1 <= index < MAX_CACHES
      ensures index >= 0 ==> Holds(descriptors[index], sectorNumber)
      ensures index == -1 ==> !Cached(descriptors[..], sectorNumber, -1)
    {
      var count := 0;
      index := -1;
      var i := 0;
      while i < MAX_CACHES
        invariant 0 <= i == count <= MAX_CACHES && index == -1
        invariant forall j :: 0 <= j < i ==> !Holds(descriptors[j], sectorNumber)
      {
        if sectorNumber == descriptors[i].sector {
          if !descriptors[i].valid {
            count := count + 1;
          } else {
            index := count;
            return;
          }
        } else {
          count := count + 1;
        }
        i := i + 1;
      }
    }

    /** The replacement loop: an unused slot, which is marked used, or the one with the largest counter. */
    method SelectSlot() returns (selection: nat)
      requires descriptors.Length == MAX_CACHES
      modifies descriptors
      ensures Chosen(old(descriptors[..]), selection)
      ensures descriptors[..] == old(descriptors[..])[selection := old(descriptors[selection]).(valid := true)]
    {
      selection := 0;
      var counter := 0;
      var i := 0;
      while i < MAX_CACHES
        invariant 0 <= i <= MAX_CACHES && selection < MAX_CACHES && counter >= 0
        invariant descriptors[..] == old(descriptors[..])
        invariant forall j :: 0 <= j < i ==> descriptors[j].valid && descriptors[j].counter <= counter
        invariant if counter == 0 then selection == 0 else descriptors[selection].counter == counter
      {
        if descriptors[i].valid {
          if descriptors[i].counter > counter {
            selection := i;
            counter := descriptors[i].counter;
          }
        } else {
          selection := i;
          descriptors[selection] := descriptors[selection].(valid := true);
          return;
        }
        i := i + 1;
      }
      assert descriptors[selection] == old(descriptors[selection]).(valid := true);
    }

    method IncrementCacheCounters()
      requires descriptors.Length == MAX_CACHES
      modifies descriptors
      ensures forall i :: 0 <= i < MAX_CACHES ==>
                descriptors[i] == old(descriptors[i]).(counter := old(descriptors[i]).counter + 1)
    {
      var i := 0;
      while i < MAX_CACHES
        invariant 0 <= i <= MAX_CACHES
        invariant forall j ::
                  0 <= j < i ==> descriptors[j] == old(descriptors[j]).(counter := old(descriptors[j]).counter + 1)
        invariant forall j :: i <= j < MAX_CACHES ==> descriptors[j] == old(descriptors[j])
      {
        descriptors[i] := descriptors[i].(counter := descriptors[i].counter + 1);
        i := i + 1;
      }
    }

    /** The miss path up to the second switch: brings a sector that is not cached into a slot. */
    method Replace(sectorNumber: nat) returns (selection: nat)
      requires BitValid() && Secondary() <= sectorNumber < Secondary() + BitSectors()
      requires !Cached(descriptors[..], sectorNumber, -1)
      modifies this`sectors, descriptors, cacheMem
      ensures BitValid() && selection < MAX_CACHES && Holds(descriptors[selection], sectorNumber)
      ensures SameOutside(sectors, old(sectors), Secondary(), Secondary() + BitSectors())
    {
      hide Agrees, Cached;
      ghost var ds, mem := descriptors[..], cacheMem[..];
      selection := SelectSlot();
      AgreesEvict(ds, mem, sectors, Secondary(), bitImage, selection);
      if descriptors[selection].write {
        sectors := sectors[descriptors[selection].sector := cacheMem[selection]];
        SlotLength(ds, mem, old(sectors), selection);
      }
      CachedLess(ds, sectorNumber, selection);
      var readBuffer := sectors[sectorNumber];
      cacheMem[selection] := readBuffer;
      descriptors[selection] := descriptors[selection].(sector := sectorNumber);
      ghost var ds' := descriptors[..];
      assert ds' == ds[selection := ds'[selection]];
      AgreesIgnore(ds, mem, sectors, Secondary(), bitImage, selection, ds'[selection]);
      CachedIgnore(ds, selection, ds'[selection]);
      AgreesFill(ds', mem, sectors, Secondary(), bitImage, selection, sectorNumber);
      IncrementCacheCounters();
      assert cacheMem[..] == mem[selection := readBuffer];
      AgreesCounters(ds', descriptors[..], cacheMem[..], sectors, Secondary(), bitImage);
    }

    lemma CachedLess(ds: seq<CacheDescriptor>, sector: nat, x: int)
      requires !Cached(ds, sector, -1)
      ensures !Cached(ds, sector, x)
    {
    }

    lemma SlotLength(ds: seq<CacheDescriptor>, mem: seq<Sector>, disk: seq<Sector>, x: nat)
      requires Agrees(ds, mem, disk, Secondary(), bitImage, -1) && x < MAX_CACHES && ds[x].valid
      requires forall j :: 0 <= j < |bitImage| ==> |bitImage[j]| == sectorWords
      ensures |mem[x]| == sectorWords
    {
      assert SlotAgrees(ds[x], mem[x], disk, Secondary(), bitImage);
    }
  
    // ---------------------------------------------------------------- the bit array

    ghost predicate BitIn(image: seq<Sector>, c: nat) {
      sectorWords > 0 && BitSector(c) < |image| && BitWord(c) < |image[BitSector(c)]| &&
      HasBit(image[BitSector(c)][BitWord(c)], BitOffset(c))
    }

    /** The bits for all clusters are stored where they should be. */
    ghost predicate BitsValid()
      reads this`sectors, this`bitImage, descriptors, cacheMem
    {
      if fat32 then BitValid() else entryStatus.Length * 32 > total
    }

    /** The clusters whose bit is set. */
    ghost function Marks(): set<nat>
      reads this`bitImage, entryStatus
    {
      set c: nat | 0 <= c <= total && InUse(c)
    }

    ghost predicate InUse(c: nat)
      reads this`bitImage, entryStatus
    {
      if fat32 then BitIn(bitImage, c) else c / 32 < entryStatus.Length && HasBit(entryStatus[c / 32], c % 32)
    }

    /** Changing one word of the image changes one bit of it. */
    lemma BitInChanged(image: seq<Sector>, c: nat, value: bool, d: nat)
      requires sectorWords > 0 && BitSector(c) < |image| && |image[BitSector(c)]| == sectorWords
      ensures var s := image[BitSector(c)];
              BitIn(image[BitSector(c) := s[BitWord(c) := Marked(s[BitWord(c)], BitOffset(c), value)]], d) ==
              if d == c then value else BitIn(image, d)
    {
      hide HasBit, Marked;
      var w := image[BitSector(c)][BitWord(c)];
      MarkedBit(w, BitOffset(c), value, BitOffset(d));
      if BitSector(c) == BitSector(d) && BitWord(c) == BitWord(d) && BitOffset(c) == BitOffset(d) {
        PlaceInjective(c, d, sectorWords * 32);
      }
    }

    /** The switch of FAT32_UpdateBit on a cached sector. */
    method UpdateCached(index: nat, offsetToWord: nat, offsetBit: nat, op: BitOperation) returns (value: word)
      requires BitValid() && index < MAX_CACHES && descriptors[index].valid && offsetToWord < sectorWords
      requires offsetBit < 32
      modifies this`bitImage, descriptors, cacheMem
      ensures BitValid()
      ensures var j := old(descriptors[index].sector) - Secondary();
              && 0 <= j < |bitImage|
              && value == (if op.FreeBit? then 0 else Masked(old(bitImage)[j][offsetToWord], offsetBit))
              && bitImage == (if op.GetBit? then old(bitImage) else
                   old(bitImage)[j :=
                     old(bitImage)[j][offsetToWord := Marked(old(bitImage)[j][offsetToWord], offsetBit, op.SetBit?)]])
    {
      hide Agrees, Marked, Masked;
      ghost var ds, mem := descriptors[..], cacheMem[..];
      ghost var j := descriptors[index].sector - Secondary();
      AgreesChange(ds, mem, sectors, Secondary(), bitImage, index, cacheMem[index], WRITECOUNTER);
      if op.GetBit? {
        descriptors[index] := descriptors[index].(counter := READCOUNTER);
        value := Masked(cacheMem[index][offsetToWord], offsetBit);
        AgreesCounters(ds, descriptors[..], mem, sectors, Secondary(), bitImage);
      } else {
        descriptors[index] := descriptors[index].(write := true, counter := WRITECOUNTER);
        value := if op.SetBit? then Masked(cacheMem[index][offsetToWord], offsetBit) else 0;
        var changed := cacheMem[index][offsetToWord := Marked(cacheMem[index][offsetToWord], offsetBit, op.SetBit?)];
        cacheMem[index] := changed;
        AgreesChange(ds, mem, sectors, Secondary(), bitImage, index, changed, WRITECOUNTER);
        bitImage := bitImage[j := changed];
        assert descriptors[..] == ds[index := ds[index].(write := true, counter := WRITECOUNTER)];
        assert cacheMem[..] == mem[index := changed];
      }
    }

    /** FAT32_UpdateBit: five cached sectors in front of the second FAT behave like the sectors alone. */
    method Fat32UpdateBit(sectorNumber: nat, offsetToWord: nat, offsetBit: nat, op: BitOperation) returns (value: word)
      requires BitValid() && Secondary() <= sectorNumber < Secondary() + BitSectors()
      requires offsetToWord < sectorWords && offsetBit < 32
      modifies this`sectors, this`bitImage, descriptors, cacheMem
      ensures BitValid() && SameOutside(sectors, old(sectors), Secondary(), Secondary() + BitSectors())
      ensures var j := sectorNumber - Secondary();
              && value == (if op.FreeBit? then 0 else Masked(old(bitImage)[j][offsetToWord], offsetBit))
              && bitImage == (if op.GetBit? then old(bitImage) else
                   old(bitImage)[j :=
                     old(bitImage)[j][offsetToWord := Marked(old(bitImage)[j][offsetToWord], offsetBit, op.SetBit?)]])
    {
      hide Agrees, Cached, Marked, Masked;
      var index := SearchMatchingSector(sectorNumber);
      if index < 0 {
        index := Replace(sectorNumber);
      }
      value := UpdateCached(index, offsetToWord, offsetBit, op);
    }

    /** UpdateBit for both storage forms: the bit array with its returned old value. */
    method UpdateBit(c: nat, op: BitOperation) returns (value: word)
      requires BitsValid() && c <= total
      modifies this`sectors, this`bitImage, descriptors, cacheMem, entryStatus
      ensures BitsValid()
      ensures value != 0 <==> !op.FreeBit? && c in old(Marks())
      ensures Marks() ==
              match op case GetBit => old(Marks()) case SetBit => old(Marks()) + {c} case FreeBit => old(Marks()) - {c}
      ensures if fat32 then SameOutside(sectors, old(sectors), Secondary(), Secondary() + BitSectors())
              else sectors == old(sectors)
    {
      if fat32 {
        value := Fat32Bit(c, op);
      } else {
        value := RamBit(c, op);
      }
    }

    method Fat32Bit(c: nat, op: BitOperation) returns (value: word)
      requires fat32 && BitValid() && c <= total
      modifies this`sectors, this`bitImage, descriptors, cacheMem
      ensures BitValid() && SameOutside(sectors, old(sectors), Secondary(), Secondary() + BitSectors())
      ensures value != 0 <==> !op.FreeBit? && old(InUse(c))
      ensures forall d: nat ::
              d <= total ==> (InUse(d) <==> if d == c && !op.GetBit? then op.SetBit? else old(InUse(d)))
    {
      hide Agrees, Marked, Masked, HasBit;
      var sector := Quotient(c, sectorWords * 32);
      var offset := Remainder(c, sectorWords * 32);
      DivMonotone(c, total, sectorWords * 32);
      MaskedBit(bitImage[BitSector(c)][BitWord(c)], BitOffset(c));
      value := Fat32UpdateBit(sector + Secondary(), offset / 32, offset % 32, op);
      forall d: nat | d <= total ensures InUse(d) <==> if d == c && !op.GetBit? then op.SetBit? else old(InUse(d)) {
        BitInChanged(old(bitImage), c, op.SetBit?, d);
      }
    }

    method RamBit(c: nat, op: BitOperation) returns (value: word)
      requires !fat32 && entryStatus.Length * 32 > total && c <= total
      modifies entryStatus
      ensures value != 0 <==> !op.FreeBit? && old(InUse(c))
      ensures forall d: nat ::
              d <= total ==> (InUse(d) <==> if d == c && !op.GetBit? then op.SetBit? else old(InUse(d)))
    {
      hide Marked, Masked, HasBit;
      var offsetToWord, offsetBit := c / 32, c % 32;
      ghost var before := entryStatus[offsetToWord];
      MaskedBit(before, offsetBit);
      value := if op.FreeBit? then 0 else Masked(entryStatus[offsetToWord], offsetBit);
      if !op.GetBit? {
        entryStatus[offsetToWord] := Marked(entryStatus[offsetToWord], offsetBit, op.SetBit?);
      }
      forall d: nat | d <= total ensures InUse(d) <==> if d == c && !op.GetBit? then op.SetBit? else old(InUse(d)) {
        MarkedBit(before, offsetBit, op.SetBit?, d % 32);
      }
    }

    // ---------------------------------------------------------------- entries and bits together

    ghost predicate Valid()
      reads this`sectors, this`fatSectorCached, this`fatDirty, this`fatImage, this`bitImage
      reads fatBuffer, descriptors, cacheMem, entryStatus
    {
      FatValid() && BitsValid() && Buffers()
    }

    /** Clears all bits but those of clusters 0 and 1: the beginning of CheckDisk. */
    method ClearBits()
      requires FatValid() && !fatDirty && Buffers() && total >= 1
      requires if fat32 then BitSectors() <= fatSectors else total < MAX_FAT_ENTRY_WORDS * 32
      modifies this`sectors, this`bitImage, descriptors, cacheMem, entryStatus
      ensures Valid() && Marks() == {0, 1}
      ensures OnlyFats(old(sectors))
    {
      assert Geometry();
      hide FatValid, BitsValid, Marks, SectorAgrees, Geometry;
      DropCaches();
      if fat32 {
        ClearBitSectors();
      } else {
        ClearEntryStatus();
      }
      FatKept();
    }

    method DropCaches()
      requires Buffers()
      modifies descriptors
      ensures forall j :: 0 <= j < MAX_CACHES ==> !descriptors[j].valid && !descriptors[j].write
    {
      var i := 0;
      while i < MAX_CACHES
        invariant 0 <= i <= MAX_CACHES
        invariant forall j :: 0 <= j < i ==> !descriptors[j].valid && !descriptors[j].write
      {
        descriptors[i] := descriptors[i].(valid := false, write := false);
        i := i + 1;
      }
    }

    method ClearEntryStatus()
      requires !fat32 && Buffers() && 1 <= total < MAX_FAT_ENTRY_WORDS * 32
      modifies entryStatus
      ensures BitsValid() && Marks() == {0, 1}
    {
      hide HasBit;
      var j := 0;
      while j < MAX_FAT_ENTRY_WORDS
        invariant 0 <= j <= MAX_FAT_ENTRY_WORDS
        invariant forall k :: 0 <= k < j ==> entryStatus[k] == 0
      {
        entryStatus[j] := 0;
        j := j + 1;
      }
      entryStatus[0] := 0x03;
      forall c: nat | c <= total ensures InUse(c) <==> c < 2 {
        FirstBits(c % 32);
      }
      MarksOf();
    }

    /** Only the bits of clusters 0 and 1 are set. */
    ghost predicate Blank(image: seq<Sector>) {
      && (forall j :: 0 <= j < |image| ==> |image[j]| == sectorWords)
      && (forall j, k :: 0 <= j < |image| && 0 <= k < sectorWords ==> image[j][k] == if j == 0 && k == 0 then 0x03
         else 0)
    }

    lemma BlankBits(image: seq<Sector>, c: nat)
      requires sectorWords > 0 && |image| == BitSectors() && Blank(image) && c <= total
      ensures BitIn(image, c) <==> c < 2
    {
      hide HasBit;
      DivMonotone(c, total, sectorWords * 32);
      FirstBits(BitOffset(c));
      if c < 32 { DivModUnique(c, sectorWords * 32, 0, c); }
      if BitSector(c) == 0 && BitWord(c) == 0 { FirstWord(c, sectorWords * 32); }
    }

    lemma FirstWord(c: nat, d: nat)
      requires d > 0 && Quotient(c, d) == 0 && Remainder(c, d) / 32 == 0
      ensures Remainder(c, d) % 32 == c
    {
      assert c == c / d * d + c % d;
    }

    method ClearBitSectors()
      requires fat32 && Geometry() && Buffers() && BitSectors() <= fatSectors && total >= 1
      requires forall j :: 0 <= j < MAX_CACHES ==> !descriptors[j].valid && !descriptors[j].write
      modifies this`sectors, this`bitImage, cacheMem
      ensures Geometry() && BitsValid() && Marks() == {0, 1}
      ensures SameOutside(sectors, old(sectors), Secondary(), Secondary() + BitSectors())
    {
      hide Marks;
      var totalFatSectors := Quotient(total, sectorWords * 32) + 1;
      cacheMem[0] := seq(sectorWords, i => if i == 0 then 0x03 else 0);
      ghost var first := cacheMem[0];
      sectors := sectors[Secondary() := cacheMem[0]];
      cacheMem[0] := seq(sectorWords, _ => 0);
      ZeroSectors(Secondary() + 1, totalFatSectors - 1);
      bitImage := sectors[Secondary()..Secondary() + BitSectors()];
      forall j, k | 0 <= j < |bitImage| && 0 <= k < sectorWords
        ensures bitImage[j][k] == if j == 0 && k == 0 then 0x03 else 0
      {
        assert bitImage[j] == sectors[Secondary() + j];
      }
      assert |bitImage| == BitSectors();
      forall c: nat | c <= total ensures InUse(c) <==> c < 2 { BlankBits(bitImage, c); }
      assert Marks() == {0, 1} by { hide InUse; MarksOf(); }
    }

    lemma MarksOf()
      requires total >= 1 && forall c: nat :: c <= total ==> (InUse(c) <==> c < 2)
      ensures Marks() == {0, 1}
    {
    }

    /** Writes `count` zero sectors from `sectorNo` on; the first cache buffer is the zero sector. */
    method ZeroSectors(sectorNo: nat, count: nat)
      requires Geometry() && Secondary() < sectorNo && sectorNo + count <= Secondary() + fatSectors
      requires cacheMem.Length == MAX_CACHES && |cacheMem[0]| == sectorWords
      requires forall k :: 0 <= k < sectorWords ==> cacheMem[0][k] == 0
      modifies this`sectors
      ensures Geometry() && SameOutside(sectors, old(sectors), sectorNo, sectorNo + count)
      ensures forall j :: sectorNo <= j < sectorNo + count ==> sectors[j] == cacheMem[0]
    {
      var i := 0;
      while i < count
        invariant 0 <= i <= count && Geometry()
        invariant SameOutside(sectors, old(sectors), sectorNo, sectorNo + i)
        invariant forall j :: sectorNo <= j < sectorNo + i ==> sectors[j] == cacheMem[0]
      {
        sectors := sectors[sectorNo + i := cacheMem[0]];
        i := i + 1;
      }
    }

    /** Steps on the bit sectors leave the first FAT alone. */
    twostate lemma FatKept()
      requires old(FatValid()) && Geometry() && fatImage == old(fatImage) && fatBuffer[..] == old(fatBuffer[..])
      requires fatSectorCached == old(fatSectorCached) && fatDirty == old(fatDirty)
      requires SameOutside(sectors, old(sectors), Secondary(), Secondary() + fatSectors)
      ensures FatValid()
    {
      forall j | 0 <= j < fatSectors ensures SectorAgrees(j) {
        assert old(SectorAgrees(j));
        forall r: nat | r < 3 ensures Row(r) == old(Row(r)) {
          assert Row(r) == fatBuffer[..][RowStart(r)..RowStart(r + 1)];
        }
      }
    }

    /** Steps on the first FAT leave the bits alone. */
    twostate lemma BitsKept()
      requires old(BitsValid()) && Geometry() && bitImage == old(bitImage) && entryStatus[..] == old(entryStatus[..])
      requires descriptors[..] == old(descriptors[..]) && cacheMem[..] == old(cacheMem[..])
      requires SameOutside(sectors, old(sectors), primary, Secondary())
      ensures BitsValid() && Marks() == old(Marks())
    {
      if fat32 {
        AgreesElsewhere(descriptors[..], cacheMem[..], old(sectors), sectors, Secondary(), bitImage);
      }
      forall c: nat | c <= total ensures InUse(c) == old(InUse(c)) {
        if !fat32 && c / 32 < entryStatus.Length { assert entryStatus[c / 32] == entryStatus[..][c / 32]; }
      }
    }

    /** The number of sectors that CheckDisk uses for buffering bits. */
    function TotalFatSectors(): nat {
      if fat32 && sectorWords > 0 then BitSectors() else 0
    }

    /** Only sectors of the first FAT and sectors for bits differ. */
    ghost predicate OnlyFats(before: seq<Sector>)
      reads this`sectors
    {
      SameOutside(sectors, before, primary, Secondary() + TotalFatSectors())
    }

    /** GetNextCxFromFat as long as nothing has been freed. */
    method NextCluster(c: nat) returns (value: nat)
      requires Valid() && !fatDirty && c <= total
      modifies this`sectors, this`fatDirty, this`fatSectorCached, fatBuffer
      ensures Valid() && !fatDirty && value == Fat()[c] && OnlyFats(old(sectors))
      ensures Fat() == old(Fat()) && Marks() == old(Marks())
    {
      NotStuck(c);
      hide *;
      value := GetNextCxFromFat(c);
      FatGeometry();
      BitsKept();
      EntryAfter(c);
    }

    lemma NotStuck(c: nat)
      requires Valid() && !fatDirty && c <= total
      ensures FatValid() && BitsValid() && Geometry() && !Stuck(c) && fatBuffer != entryStatus
      ensures (fatBuffer as object) != descriptors && (fatBuffer as object) != cacheMem
    {
    }

    twostate lemma EntryAfter(c: nat)
      requires old(Valid()) && FatValid() && BitsValid() && Geometry() && c <= total && fatImage == old(fatImage)
      requires descriptors[..] == old(descriptors[..]) && cacheMem[..] == old(cacheMem[..])
      requires SameOutside(sectors, old(sectors), primary, Secondary())
      ensures Valid() && Fat() == old(Fat()) && OnlyFats(old(sectors))
    {
      hide FatValid, BitsValid;
    }

    lemma FatGeometry()
      requires FatValid()
      ensures Geometry()
    {
    }

    /** UpdateBit next to the cached group of the first FAT. */
    method Bit(c: nat, op: BitOperation) returns (value: word)
      requires Valid() && c <= total
      modifies this`sectors, this`bitImage, descriptors, cacheMem, entryStatus
      ensures Valid() && OnlyFats(old(sectors))
      ensures value != 0 <==> !op.FreeBit? && c in old(Marks())
      ensures Marks() ==
              match op case GetBit => old(Marks()) case SetBit => old(Marks()) + {c} case FreeBit => old(Marks()) - {c}
    {
      assert Geometry() && (fat32 ==> BitSectors() <= fatSectors);
      hide FatValid, BitsValid, Marks;
      value := UpdateBit(c, op);
      assert Geometry() by { BitsGeometry(); }
      FatKept();
    }

    twostate lemma BitsGeometry()
      requires old(Geometry()) && BitsValid()
      requires if fat32 then SameOutside(sectors, old(sectors), Secondary(), Secondary() + BitSectors())
               else sectors == old(sectors)
      ensures Geometry()
    {
    }

    /** FreeCxFat next to the bits. */
    method Free(c: nat) returns (ok: bool)
      requires Valid() && c <= total
      modifies this`sectors, this`fatDirty, this`fatSectorCached, this`fatImage, fatBuffer
      ensures Valid() && Marks() == old(Marks()) && OnlyFats(old(sectors))
      ensures ok <==> !old(Stuck(c)) && old(Fat())[c] != BAD_CLUSTER
      ensures Fat() == if ok then old(Fat())[c := 0] else old(Fat())
      ensures !old(Stuck(c)) ==> fatSectorCached == Group(c)
      ensures !old(Stuck(c)) ==>
              (fatDirty <==> (old(fatDirty) && old(fatSectorCached) == Group(c)) || (ok && old(Fat())[c] != 0))
    {
      assert Geometry();
      hide FatValid, BitsValid, Marks, Fat, Stuck, Table, FatBytes.Entry, FatBytes.Uniform, SameOutside;
      ok := FreeCxFat(c);
      assert Geometry() by { FatGeometry(); }
      BitsKept();
    }

    /** Loads the first group of the first FAT. */
    method LoadFirstGroup()
      requires Valid() && !fatDirty
      modifies this`sectors, this`fatDirty, this`fatSectorCached, fatBuffer
      ensures Valid() && !fatDirty && Fat() == old(Fat()) && Marks() == old(Marks()) && OnlyFats(old(sectors))
    {
      assert Geometry();
      hide FatValid, BitsValid, Marks, Fat;
      var ok := LoadFatSector(primary);
      assert Geometry() by { FatGeometry(); }
      BitsKept();
    }

    // ---------------------------------------------------------------- the second FAT

    /** The copy loop of CopyPrimaryFatToSecondary. */
    method CopyToSecondary(sectorCount: nat)
      requires Clean() && Buffers() && sectorCount <= fatSectors
      modifies this`sectors, cacheMem
      ensures Clean() && SameOutside(sectors, old(sectors), Secondary(), Secondary() + sectorCount)
      ensures forall j :: 0 <= j < sectorCount ==> sectors[Secondary() + j] == fatImage[j]
    {
      var count := sectorCount;
      var firstFat, sectorNo := primary, Secondary();
      while count > 0
        invariant 0 <= count <= sectorCount && firstFat == primary + (sectorCount - count)
        invariant sectorNo == firstFat + fatSectors
        invariant Clean() && SameOutside(sectors, old(sectors), Secondary(), sectorNo)
        invariant forall j :: 0 <= j < sectorCount - count ==> sectors[Secondary() + j] == fatImage[j]
      {
        var sectorsToWrite := if count > MAX_CACHES then MAX_CACHES else count;
        count := count - sectorsToWrite;
        CopyGroup(firstFat, sectorNo, sectorsToWrite);
        firstFat, sectorNo := firstFat + sectorsToWrite, sectorNo + sectorsToWrite;
      }
    }

    /** Reads a group of sectors of the first FAT, then writes it to the second. */
    method CopyGroup(firstFat: nat, sectorNo: nat, n: nat)
      requires Clean() && Buffers() && n <= MAX_CACHES
      requires primary <= firstFat && sectorNo == firstFat + fatSectors && firstFat + n <= Secondary()
      modifies this`sectors, cacheMem
      ensures Clean() && SameOutside(sectors, old(sectors), sectorNo, sectorNo + n)
      ensures forall j :: sectorNo <= j < sectorNo + n ==> sectors[j] == fatImage[j - Secondary()]
    {
      ReadGroup(firstFat, n);
      hide Clean;
      WriteGroup(sectorNo, n);
    }

    method ReadGroup(firstFat: nat, n: nat)
      requires Clean() && cacheMem.Length == MAX_CACHES && n <= MAX_CACHES && primary <= firstFat
      requires firstFat + n <= Secondary()
      modifies cacheMem
      ensures forall k :: 0 <= k < n ==> cacheMem[k] == fatImage[firstFat + k - primary] && |cacheMem[k]| == sectorWords
    {
      var j := 0;
      while j < n
        invariant 0 <= j <= n
        invariant forall k :: 0 <= k < j ==> cacheMem[k] == fatImage[firstFat + k - primary]
      {
        assert sectors[primary + (firstFat + j - primary)] == fatImage[firstFat + j - primary];
        cacheMem[j] := sectors[firstFat + j];
        j := j + 1;
      }
    }

    method WriteGroup(sectorNo: nat, n: nat)
      requires Clean() && cacheMem.Length == MAX_CACHES && n <= MAX_CACHES && Secondary() <= sectorNo
      requires sectorNo + n <= Secondary() + fatSectors
      requires forall k :: 0 <= k < n ==> |cacheMem[k]| == sectorWords
      modifies this`sectors
      ensures Clean() && SameOutside(sectors, old(sectors), sectorNo, sectorNo + n)
      ensures forall k :: sectorNo <= k < sectorNo + n ==> sectors[k] == cacheMem[k - sectorNo]
    {
      var j := 0;
      while j < n
        invariant 0 <= j <= n && Geometry()
        invariant SameOutside(sectors, old(sectors), sectorNo, sectorNo + j)
        invariant forall k :: sectorNo <= k < sectorNo + j ==> sectors[k] == cacheMem[k - sectorNo]
      {
        sectors := sectors[sectorNo + j := cacheMem[j]];
        j := j + 1;
      }
    }
  }
}
