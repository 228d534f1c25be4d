/** Deleting the content of a file (filesystem/fat/base/deletecontent.c) on FAT16 and FAT32. */
module FatDelete {
  import opened Division
  import opened FatBytes
  import opened FatMedia
  import opened FreeClusters
  import opened Chains
  import opened ChainDeletion

  const SUCCESS: int := 0

  /** Stands for ERROR_OS_FILESYSTEM_INVALID_CLUSTER_NO. */
  const INVALID_CLUSTER_NO: int := -2

  /** The sector of the FAT, counted from its first, that holds a cluster's entry. */
  function FatSectorOf(media: Media, c: nat): nat
    requires media.bytesPerSector >= 4
  {
    c / (media.bytesPerSector / EntrySize(media.fatType))
  }

  /** The loop of DeleteContent has come to cluster `c` with `n` steps left, and `s` is pinned with content `buf`;
      `goal` is what has to come out. */
  ghost predicate Freeing(media: Media, s: nat, buf: Sector, c: nat, n: nat, goal: (seq<nat>, nat), freed: nat)
    reads media`sectors
  {
    && media.Valid() && !media.fatType.FAT12? && s < media.fatSectors && |buf| == media.bytesPerSector
    && StaysInside(media.fatType, media.FatWith(s, buf), c, n)
    && FreedFrom(media.fatType, media.FatWith(s, buf), c, n) == (goal.0, goal.1 - freed)
    && freed <= goal.1
  }

  /** Pins the sector that holds the entry of `c`. */
  method PinFor(media: Media, c: nat) returns (s: nat, buf: Sector)
    requires media.Valid() && !media.fatType.FAT12? && c <= media.totalClusters
    ensures s == media.FatSectorNo(c).0 - media.rsvdSectors && s < media.fatSectors
    ensures |buf| == media.bytesPerSector && media.FatWith(s, buf) == media.Fat()
  {
    media.SectorOfEntry(c);
    media.EntryInside(c, 0);
    s := FatSectorOf(media, c);
    buf := media.Pin(s);
  }

  /** Pins the sector that holds the entry of `c`, after releasing the one that was pinned. */
  method Repin(media: Media, s: nat, buffer: Sector, c: nat, ghost n: nat, ghost goal: (seq<nat>, nat),
      ghost freed: nat, ghost before: seq<Sector>)
    returns (s': nat, buf: Sector)
    requires Freeing(media, s, buffer, c, n, goal, freed) && c <= media.totalClusters && media.OnlyFat(before)
    modifies media`sectors
    ensures Freeing(media, s', buf, c, n, goal, freed) && media.OnlyFat(before)
    ensures s' == media.FatSectorNo(c).0 - media.rsvdSectors && media.Valid()
  {
    hide FreedFrom, StaysInside, Media.FatWith, Media.Fat, Stops, Uniform, Media.OnlyFat;
    media.SectorOfEntry(c);
    media.EntryInside(c, 0);
    s', buf := FatSectorOf(media, c), buffer;
    if s' != s {
      FinalRelease(media, s, buf, before);
      buf := media.Pin(s');
    }
  }

  /** Frees the entry of `c` in the pinned sector that holds it. */
  method FreeEntry(media: Media, s: nat, buffer: Sector, c: nat, ghost n: nat, ghost goal: (seq<nat>, nat),
      ghost freed: nat)
    returns (buf: Sector, entry: nat, stop: bool)
    requires Freeing(media, s, buffer, c, n, goal, freed) && n > 0 && c <= media.totalClusters
    requires s == media.FatSectorNo(c).0 - media.rsvdSectors
    ensures stop == Stops(media.fatType, entry) && |buf| == media.bytesPerSector && s < media.fatSectors
    ensures if stop then media.FatWith(s, buf) == goal.0 && freed + 1 == goal.1
            else Freeing(media, s, buf, entry, n - 1, goal, freed + 1)
  {
    media.PinnedRead(c, s, buffer);
    media.PinnedZero(c, s, buffer);
    hide Media.FatWith, ReadEntry, Media.FatSectorNo;
    var off := media.FatSectorNo(c).1;
    entry := ReadEntry(media.fatType, buffer, off);
    buf := Overwrite(buffer, off, Bytes(0, EntrySize(media.fatType)));
    stop := Stops(media.fatType, entry);
  }

  /** The part of DeleteContent that works on one pinned sector of the FAT at a time. */
  method FreeChain(media: Media, start: nat, bound: nat)
    requires media.Valid() && !media.fatType.FAT12? && start <= media.totalClusters
    requires StaysInside(media.fatType, media.Fat(), start, bound)
    modifies media`sectors, media`totalFreeClusters
    ensures media.Valid() && media.OnlyFat(old(media.sectors))
    ensures var r := FreedFrom(media.fatType, old(media.Fat()), start, bound);
            media.Fat() == r.0 && media.totalFreeClusters == old(media.totalFreeClusters) + r.1
  {
    ghost var goal := FreedFrom(media.fatType, media.Fat(), start, bound);
    var s, buf := PinFor(media, start);
    assert Freeing(media, s, buf, start, bound, goal, 0);
    hide *;
    s, buf := FreeEntries(media, s, buf, start, bound, goal, old(media.sectors)) by { SameDevice(media); }
    FinalRelease(media, s, buf, old(media.sectors));
  }

  lemma SameDevice(media: Media)
    ensures media.OnlyFat(media.sectors)
  {
  }

  method FinalRelease(media: Media, s: nat, buf: Sector, ghost before: seq<Sector>)
    requires media.Valid() && s < media.fatSectors && |buf| == media.bytesPerSector && media.OnlyFat(before)
    modifies media`sectors
    ensures media.Valid() && media.OnlyFat(before) && media.Fat() == old(media.FatWith(s, buf))
  {
    media.Release(s, buf);
  }

  /** The loop of DeleteContent. */
  method FreeEntries(media: Media, pinned: nat, buffer: Sector, start: nat, bound: nat, ghost goal: (seq<nat>, nat),
      ghost before: seq<Sector>)
    returns (s: nat, buf: Sector)
    requires Freeing(media, pinned, buffer, start, bound, goal, 0) && media.OnlyFat(before)
    modifies media`sectors, media`totalFreeClusters
    ensures media.Valid() && s < media.fatSectors && |buf| == media.bytesPerSector && media.FatWith(s, buf) == goal.0
    ensures media.totalFreeClusters == old(media.totalFreeClusters) + goal.1 && media.OnlyFat(before)
  {
    hide *;
    s, buf := pinned, buffer;
    var c := start;
    var i := 1;
    ghost var freed := 0;
    var stop := false;
    while i <= bound && !stop
      invariant 1 <= i <= bound + 1 && media.OnlyFat(before)
      invariant if stop then media.Valid() && s < media.fatSectors && |buf| == media.bytesPerSector && media.FatWith(s,
                buf) == goal.0 && freed == goal.1
                else Freeing(media, s, buf, c, bound + 1 - i, goal, freed)
      invariant media.totalFreeClusters == old(media.totalFreeClusters) + freed
      decreases bound - i, !stop
    {
      InsideNow(media, s, buf, c, bound + 1 - i, goal, freed);
      s, buf := Repin(media, s, buf, c, bound + 1 - i, goal, freed, before);
      var entry;
      buf, entry, stop := FreeEntry(media, s, buf, c, bound + 1 - i, goal, freed);
      media.totalFreeClusters := media.totalFreeClusters + 1;
      freed := freed + 1;
      if !stop {
        c := entry;
        i := i + 1;
      }
    }
    if !stop { NothingLeft(media, s, buf, c, goal, freed); }
  }

  lemma InsideNow(media: Media, s: nat, buf: Sector, c: nat, n: nat, goal: (seq<nat>, nat), freed: nat)
    requires Freeing(media, s, buf, c, n, goal, freed) && n > 0
    ensures c <= media.totalClusters
  {
  }

  lemma NothingLeft(media: Media, s: nat, buf: Sector, c: nat, goal: (seq<nat>, nat), freed: nat)
    requires Freeing(media, s, buf, c, 0, goal, freed)
    ensures media.Valid() && s < media.fatSectors && |buf| == media.bytesPerSector
    ensures media.FatWith(s, buf) == goal.0 && freed == goal.1
  {
  }

  /** The entries and the number of entries freed, when DeleteContent frees up to `n` clusters from `c` on. */
  ghost function Deleted(t: FatType, fat: seq<nat>, c: nat, n: nat): (seq<nat>, nat) {
    if Stops(t, c) then (fat, 0) else FreedFrom(t, fat, c, n)
  }

  /** Up to `n` clusters from `c` on are freed and counted. */
  ghost predicate Deletes(t: FatType, a: Table, b: Table, c: nat, n: nat) {
    var r := Deleted(t, a.fat, c, n);
    b == Table(r.0, a.next, a.free + r.1)
  }

  /** The mode that keeps the file's first cluster: that cluster gets the end mark, unless nothing follows it or its
      entry is not a link. */
  ghost predicate DeletesRest(t: FatType, a: Table, b: Table, start: nat, n: nat, status: int) {
    start < |a.fat| && n > 0 &&
    var link := a.fat[start];
    if link == EndMark(t.FAT32?) then status == SUCCESS && b == a
    else if link == 0 || (t.FAT32? && link >= 0x8000_0000) then status == INVALID_CLUSTER_NO && b == a
    else status == SUCCESS && Deletes(t, a.(fat := a.fat[start := EndMark(t.FAT32?)]), b, link, n - 1)
  }

  /** The clusters that DeleteContent expects to lie on the volume. */
  ghost predicate Deletable(t: FatType, fat: seq<nat>, c: nat, n: nat) {
    Stops(t, c) || (c < |fat| && StaysInside(t, fat, c, n))
  }

  /** The size by which DeleteContent bounds the clusters; that of a directory is 0. */
  function BoundingSize(fileSize: nat): nat {
    if fileSize == 0 then 0x7fff_ffff else fileSize
  }

  /** How many clusters are freed from the beginning of a path that ends with the end mark. */
  lemma PathDeleted(t: FatType, fat: seq<nat>, p: seq<nat>, n: nat)
    requires !t.FAT12? && |fat| <= EndMark(t.FAT32?) && |p| > 0 && IsPath(fat, p) && NoRepeat(p)
    requires fat[p[|p| - 1]] == EndMark(t.FAT32?)
    ensures var r := Deleted(t, fat, p[0], n);
            && r.1 <= |p| && r.1 <= n && ZeroedOnly(fat, r.0, Elements(p[..r.1]))
            && (forall i :: 0 <= i < r.1 ==> !t.FAT32? ==> p[i] <= 0xfff0)
            && (r.1 == |p| || r.1 == n || (!t.FAT32? && p[r.1] > 0xfff0))
  {
    hide FreedFrom, StaysInside, NoRepeat;
    forall i | 0 <= i < |p| ensures Stops(t, p[i]) <==> !t.FAT32? && p[i] > 0xfff0 {
      assert 2 <= p[i] < |fat|;
    }
    if Stops(t, p[0]) { assert p[..0] == []; } else { ChainFreed(t, fat, p, n); }
  }

  /** The bound in bytes. */
  lemma BoundInBytes(clusterBytes: nat, size: nat, k: nat, skip: nat)
    requires clusterBytes > 0 && 0x8000_0000 % clusterBytes == 0 && size <= 0x7fff_ffff
    ensures var n, bytes :=
            SizeInClusters(clusterBytes, BoundingSize(size)), if size == 0 then 0x7fff_ffff else size;
            && n > 0 && (0 < k + skip <= n ==> (k - 1 + skip) * clusterBytes < bytes)
            && (k + skip == n ==> (k + skip) * clusterBytes >= bytes)
  {
    var n := SizeInClusters(clusterBytes, BoundingSize(size));
    if k + skip <= n { KeepOrder(k - 1 + skip, n - 1, clusterBytes); }
  }

  /** Deleting the content of a file whose chain ends. */
  lemma ContentDeleted(t: FatType, a: Table, b: Table, start: nat, clusterBytes: nat, size: nat)
    requires !t.FAT12? && |a.fat| <= EndMark(t.FAT32?) && Ends(a.fat, EndMark(t.FAT32?), start)
    requires clusterBytes > 0 && 0x8000_0000 % clusterBytes == 0 && size <= 0x7fff_ffff
    requires Deletes(t, a, b, start, SizeInClusters(clusterBytes, BoundingSize(size)))
    ensures FreesPrefix(t, a.fat, b.fat, Chain(a.fat, EndMark(t.FAT32?), start), b.free - a.free, 0, size,
            clusterBytes)
  {
    hide Deleted, NoRepeat, SizeInClusters;
    var p, k := Chain(a.fat, EndMark(t.FAT32?), start), b.free - a.free;
    ChainNoRepeat(a.fat, EndMark(t.FAT32?), start, p);
    PathDeleted(t, a.fat, p, SizeInClusters(clusterBytes, BoundingSize(size)));
    BoundInBytes(clusterBytes, size, k, 0);
  }

  /** The part of a chain behind its first cluster, once that has the end mark. */
  lemma RestIsPath(fat: seq<nat>, end: nat, start: nat)
    requires |fat| <= end && Ends(fat, end, start)
    ensures var p, fat' := Chain(fat, end, start), fat[start := end];
            && |p| > 0 && p[0] == start < |fat| && IsPath(fat', p[1..]) && NoRepeat(p[1..])
            && (|p| == 1 <==> fat[start] == end)
            && (|p| > 1 ==> p[1] == fat[start] && fat'[p[|p| - 1]] == end)
  {
    var p, fat' := Chain(fat, end, start), fat[start := end];
    ChainNoRepeat(fat, end, start, p);
    var q := p[1..];
    if |p| > 1 { assert fat[p[0]] == p[1]; }
    forall i | 0 <= i < |q| - 1 ensures fat'[q[i]] == q[i + 1] { assert fat[p[i + 1]] == p[i + 2]; }
  }

  /** Deleting all but a file's first cluster. */
  lemma RestDeleted(t: FatType, a: Table, b: Table, start: nat, clusterBytes: nat, size: nat, status: int)
    requires !t.FAT12? && |a.fat| <= EndMark(t.FAT32?) && Ends(a.fat, EndMark(t.FAT32?), start)
    requires clusterBytes > 0 && 0x8000_0000 % clusterBytes == 0 && size <= 0x7fff_ffff
    requires DeletesRest(t, a, b, start, SizeInClusters(clusterBytes, BoundingSize(size)), status)
    ensures status == SUCCESS && start < |a.fat|
    ensures FreesPrefix(t, a.fat[start := EndMark(t.FAT32?)], b.fat, Chain(a.fat, EndMark(t.FAT32?), start)[1..],
            b.free - a.free, 1, size, clusterBytes)
  {
    hide Deleted, NoRepeat, SizeInClusters, Ends, Chain;
    var end := EndMark(t.FAT32?);
    var p, k, n := Chain(a.fat, end, start), b.free - a.free, SizeInClusters(clusterBytes, BoundingSize(size));
    RestIsPath(a.fat, end, start);
    var q, fat' := p[1..], a.fat[start := end];
    if |p| == 1 {
      assert q[..0] == [] && fat' == a.fat;
    } else {
      assert q[0] == p[1] && q[|q| - 1] == p[|p| - 1];
      PathDeleted(t, fat', q, n - 1);
      BoundInBytes(clusterBytes, size, k, 1);
    }
  }

  /** What DeleteContent does to the FAT `a` on either way. */
  ghost predicate DeletesContent(t: FatType, a: Table, b: Table, start: nat, n: nat, vestigial: bool, status: int) {
    if start == 0 then status == SUCCESS && b == a
    else if vestigial then DeletesRest(t, a, b, start, n, status)
    else status == SUCCESS && Deletes(t, a, b, start, n)
  }

  /** If the file's chain ends, as many of its clusters are freed as the file's size in bytes asks for, and counted; the
      mode that keeps the first cluster gives that one the end mark. */
  ghost predicate FreesContent(t: FatType, a: Table, b: Table, start: nat, vestigial: bool, size: nat,
      clusterBytes: nat)
  {
    var end := EndMark(t.FAT32?);
    start != 0 && |a.fat| <= end && Ends(a.fat, end, start) ==>
      && start < |a.fat| && b.next == a.next
      && var p := Chain(a.fat, end, start);
      if vestigial
      then FreesPrefix(t, a.fat[start := end], b.fat, p[1..], b.free - a.free, 1, size, clusterBytes)
      else FreesPrefix(t, a.fat, b.fat, p, b.free - a.free, 0, size, clusterBytes)
  }

  lemma ContentFreed(t: FatType, a: Table, b: Table, start: nat, vestigial: bool, size: nat, clusterBytes: nat,
      status: int)
    requires !t.FAT12? && clusterBytes > 0 && 0x8000_0000 % clusterBytes == 0 && size <= 0x7fff_ffff
    requires DeletesContent(t, a, b, start, SizeInClusters(clusterBytes, BoundingSize(size)), vestigial, status)
    ensures FreesContent(t, a, b, start, vestigial, size, clusterBytes)
  {
    hide FreesPrefix, SizeInClusters, Ends, Chain, Deleted;
    if start != 0 && |a.fat| <= EndMark(t.FAT32?) && Ends(a.fat, EndMark(t.FAT32?), start) {
      RestIsPath(a.fat, EndMark(t.FAT32?), start);
      if vestigial {
        RestDeleted(t, a, b, start, clusterBytes, size, status);
      } else {
        ContentDeleted(t, a, b, start, clusterBytes, size);
      }
    }
  }

  /** The mode that keeps the file's first cluster. */
  method DeleteRest(media: Media, start: nat, bound: nat) returns (status: int)
    requires media.Valid() && !media.fatType.FAT12? && start <= media.totalClusters && bound > 0
    requires Deletable(media.fatType, media.Fat()[start := EndMark(media.fatType.FAT32?)], media.Fat()[start],
             bound - 1)
    modifies media`sectors, media`totalFreeClusters
    ensures media.Valid() && media.OnlyFat(old(media.sectors))
    ensures DeletesRest(media.fatType, old(media.State()), media.State(), start, bound, status)
  {
    hide FreedFrom, StaysInside, Media.Fat, Media.FatSectorNo;
    ghost var before := media.sectors;
    var link := media.FindNextCluster(start);
    if link == END_OF_FILE {
      status := SUCCESS;
    } else if link <= 0 {
      status := INVALID_CLUSTER_NO;
    } else {
      var (sector, off) := media.FatSectorNo(start);
      media.WriteFatEntry(sector, off, start, FAT32EOF);
      if !Stops(media.fatType, link) {
        FreeChain(media, link, bound - 1);
      }
      status := SUCCESS;
    }
  }

  /** DeleteContent. */
  method DeleteContent(media: Media, start: nat, fileSize: nat, vestigial: bool) returns (status: int)
    requires media.Valid() && !media.fatType.FAT12? && media.clusterBytes > 0 && 0x8000_0000 % media.clusterBytes == 0
    requires fileSize <= 0x7fff_ffff && start <= media.totalClusters
    requires var t, fat, bound :=
             media.fatType, media.Fat(), SizeInClusters(media.clusterBytes, BoundingSize(fileSize));
             if vestigial then bound > 0 && Deletable(t, fat[start := EndMark(t.FAT32?)], fat[start], bound - 1)
               else Deletable(t, fat, start, bound)
    modifies media`sectors, media`totalFreeClusters
    ensures media.Valid() && media.OnlyFat(old(media.sectors))
    ensures DeletesContent(media.fatType, old(media.State()), media.State(), start,
              SizeInClusters(media.clusterBytes, BoundingSize(fileSize)), vestigial, status)
    ensures FreesContent(media.fatType, old(media.State()), media.State(), start, vestigial, fileSize,
              media.clusterBytes)
  {
    hide FreedFrom, StaysInside, Media.Fat, FreesContent, SizeInClusters;
    ghost var a := media.State();
    var bound := SizeInClusters(media.clusterBytes, BoundingSize(fileSize));
    if start == 0 {
      status := SUCCESS;
    } else if vestigial {
      status := DeleteRest(media, start, bound);
    } else {
      if !Stops(media.fatType, start) {
        FreeChain(media, start, bound);
      }
      status := SUCCESS;
    }
    ContentFreed(media.fatType, a, media.State(), start, vestigial, fileSize, media.clusterBytes, status);
  }
}
