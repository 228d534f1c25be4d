/** Runs on one open file: seeking, allocating clusters at the end of its chain, and growing its size
    (filesystem/fat/base/fseek.c and fwrite.c, filesystem/fat/fatapi/getnewcluster.c). */
module FileRuns {
  import opened Division
  import opened FatBytes
  import opened FatMedia
  import opened FreeClusters
  import opened Chains
  import FatSeek
  import FatAllocate
  import FatRuns
  import FatDelete
  import ChainDeletion

  /** The volume is sound, with the file among its files if it has clusters; `p` is the file's chain; the handle's
      fields denote an offset in the file, and every seek point is on the chain at the position of its slot. */
  ghost predicate Coherent(h: FatSeek.Handle, heads: set<nat>, p: seq<nat>)
    reads h, h.media, h.seekPointsClusters
  {
    && FatSeek.Geometry(h.media) && HasChain(h.media, heads, h.startingCluster, p) && !h.directoryMode
    && h.Positioned(p) && h.SeekPointsValid(p) && h.seekPointsBaseFileSize <= h.fileSize <= 0x7fff_ffff
    && h.fileSize <= |p| * h.media.clusterBytes
  }

  ghost predicate HasChain(media: Media, heads: set<nat>, start: nat, p: seq<nat>)
    requires media.Valid()
    reads media
  {
    && FatRuns.Sound(media.fatType, FatRuns.Volume(media.State(), heads))
    && (if start == 0 then p == [] else start in heads && ChainIs(media, start, p))
  }

  ghost predicate ChainIs(media: Media, start: nat, p: seq<nat>)
    requires media.Valid()
    reads media
  {
    var end := FatRuns.Eof(media.fatType);
    Ends(media.Fat(), end, start) && p == Chain(media.Fat(), end, start)
  }

  /** Every other file has the chain that it had. */
  ghost predicate OthersKept(t: FatType, before: seq<nat>, fat: seq<nat>, heads: set<nat>, start: nat) {
    forall g :: g in heads && g != start ==>
      Ends(before, FatRuns.Eof(t), g) && Ends(fat, FatRuns.Eof(t), g) &&
        Chain(fat, FatRuns.Eof(t), g) == Chain(before, FatRuns.Eof(t), g)
  }

  /** A chain is what seeking follows. */
  lemma ChainIsFile(media: Media, start: nat, p: seq<nat>)
    requires FatSeek.Geometry(media) && !media.fatType.FAT12? && media.totalClusters < FatRuns.Eof(media.fatType)
    requires ChainIs(media, start, p)
    ensures FatSeek.IsFile(media, start, p)
  {
    forall i | 0 <= i < |p|
      ensures 0 < p[i] <= media.totalClusters && media.Link(p[i]) == if i + 1 < |p| then p[i + 1] else END_OF_FILE
    {
      LastOfChain(media.Fat(), FatRuns.Eof(media.fatType), start, p, i);
    }
  }

  lemma Seekable(h: FatSeek.Handle, heads: set<nat>, p: seq<nat>)
    requires Coherent(h, heads, p)
    ensures FatSeek.Geometry(h.media) && h.Seekable(p)
  {
    hide Chain, Ends, FatSeek.Handle.Positioned, FatSeek.Handle.SeekPointsValid, Media.Fat;
    if h.startingCluster != 0 { ChainIsFile(h.media, h.startingCluster, p); }
  }

  /** A handle that has just been opened is coherent. */
  lemma Opened(h: FatSeek.Handle, heads: set<nat>, p: seq<nat>)
    requires FatSeek.Geometry(h.media) && HasChain(h.media, heads, h.startingCluster, p) && !h.directoryMode
    requires h.currentOffset == h.sectorPosInCluster == h.bytePosInSector == 0 && h.currentCluster == h.startingCluster
    requires h.seekPointsClusterStep == FatSeek.INVALID_CLUSTER && h.SeekPointsValid(p) && h.fileSize <= 0x7fff_ffff
    requires h.fileSize <= |p| * h.media.clusterBytes
    ensures Coherent(h, heads, p)
  {
    h.ClusterBytesPositive(h.media.sectorsPerCluster, h.media.bytesPerSector);
    h.ZeroPosition(h.media.clusterBytes);
    h.ZeroPosition(h.media.bytesPerSector);
    hide Chain, Ends, FatRuns.Sound;
    if p != [] {
      assert IsChain(h.media.Fat(), FatRuns.Eof(h.media.fatType), h.startingCluster, p);
      assert h.Inside(p);
    }
  }

  // ------------------------------------------------------------------ a longer chain

  /** Seek points stay valid when the chain gets longer. */
  lemma PointsKept(h: FatSeek.Handle, p: seq<nat>, c: nat)
    requires h.SeekPointsValid(p)
    ensures h.SeekPointsValid(p + [c])
  {
    hide FatSeek.StepFor;
    if h.seekPointsClusterStep != FatSeek.INVALID_CLUSTER {
      var points, step := h.seekPointsClusters[..], h.seekPointsClusterStep;
      forall i | 0 <= i < |points| && points[i] != FatSeek.INVALID_CLUSTER
        ensures FatSeek.IsPoint(points[i], (i + 1) * step, p + [c])
      {
        assert FatSeek.IsPoint(points[i], (i + 1) * step, p);
      }
    }
  }

  /** The handle stands at the end of the file's last cluster: only then does writing ask for another one. */
  ghost predicate AtLastEnd(h: FatSeek.Handle, p: seq<nat>)
    requires FatSeek.Measures(h.media)
    reads h
  {
    h.Parked(p) && h.currentOffset == |p| * h.media.clusterBytes
  }

  /** There the new cluster begins. */
  lemma PositionedBehind(h: FatSeek.Handle, p: seq<nat>, c: nat)
    requires FatSeek.Geometry(h.media) && h.media.clusterBytes > 0 && h.currentOffset == |p| * h.media.clusterBytes
    requires h.currentCluster == c && h.sectorPosInCluster == 0 && h.bytePosInSector == 0
    ensures h.Positioned(p + [c])
  {
    DivModUnique(h.currentOffset, h.media.clusterBytes, |p|, 0);
    h.ZeroPosition(h.media.bytesPerSector);
  }

  lemma LongerFits(n: nat, size: nat, clusterBytes: nat)
    requires size <= n * clusterBytes
    ensures size <= (n + 1) * clusterBytes
  {
    OneMore(n, clusterBytes);
  }

  // ------------------------------------------------------------------ the operations

  /** Seeking on a coherent file never fails, except for an unknown origin. */
  method Seek(h: FatSeek.Handle, numBytes: int, whence: FatSeek.Whence, ghost heads: set<nat>,
      ghost p: seq<nat>) returns (status: int)
    requires Coherent(h, heads, p)
    modifies h, h.seekPointsClusters
    ensures Coherent(h, heads, p) && h.startingCluster == old(h.startingCluster)
    ensures if whence.Other? then status == FatSeek.FSEEK_FAILED && h.currentOffset == old(h.currentOffset)
            else status == FatSeek.SUCCESS && (p != [] ==> h.Denotes(p))
    ensures h.fileSize == old(h.fileSize)
    ensures var n := match whence
              case SeekSet => numBytes
              case SeekCur => old(h.currentOffset) + numBytes
              case _ => h.fileSize + numBytes;
            !whence.Other? ==> h.currentOffset == if n < 0 then 0 else if n > h.fileSize then h.fileSize else n
  {
    hide Chain, Ends, FatSeek.IsFile, FatSeek.Handle.SeekPointsValid, FatRuns.Sound, Media.Fat, FatSeek.Handle.Parked;
    hide FatSeek.Handle.Inside, ChainIs;
    hide FatSeek.Handle.Sought, FatSeek.Measures, Media.Valid;
    Seekable(h, heads, p);
    ghost var inRange;
    status, inRange := h.Fseek(numBytes, whence, p);
    if !whence.Other? {
      h.SoughtInChain(p, h.Clamped(old(h.TargetOf(numBytes, whence)), old(h.fileSize)), status);
    }
  }

  /** Seeking to an offset of the file and then by a distance from there ends where seeking to the sum does. */
  method SeekTwice(h: FatSeek.Handle, a: int, b: int, ghost heads: set<nat>, ghost p: seq<nat>)
    requires Coherent(h, heads, p) && 0 <= a <= h.fileSize
    modifies h, h.seekPointsClusters
    ensures Coherent(h, heads, p) && h.fileSize == old(h.fileSize)
    ensures h.currentOffset == if a + b < 0 then 0 else if a + b > h.fileSize then h.fileSize else a + b
  {
    hide Coherent;
    var first := Seek(h, a, FatSeek.SeekSet, heads, p);
    var second := Seek(h, b, FatSeek.SeekCur, heads, p);
  }

  lemma AllocatedFirst(t: FatType, a: Table, b: Table, heads: set<nat>)
    requires FatRuns.Sound(t, FatRuns.Volume(a, heads)) && Allocates(a, b, FatRuns.Eof(t)) && a.free != 0
    ensures FatRuns.Sound(t, FatRuns.Volume(b, heads + {b.next})) && b.next != 0
    ensures OthersKept(t, a.fat, b.fat, heads, b.next)
    ensures Ends(b.fat, FatRuns.Eof(t), b.next) && Chain(b.fat, FatRuns.Eof(t), b.next) == [b.next]
  {
    hide Chain;
    FatRuns.AllocateSound(t, FatRuns.Volume(a, heads), b);
    forall g | g in heads ensures Ends(a.fat, FatRuns.Eof(t), g) && Ends(b.fat, FatRuns.Eof(t), g) {
      assert g in heads + {b.next};
    }
  }

  /** The part of writing that gives an empty file its first cluster. */
  method FirstCluster(h: FatSeek.Handle, ghost heads: set<nat>) returns (ghost heads': set<nat>, ghost p: seq<nat>)
    requires Coherent(h, heads, []) && h.startingCluster == 0
    modifies h, h.media
    ensures Coherent(h, heads', p) && h.currentOffset == old(h.currentOffset) && h.fileSize == old(h.fileSize)
    ensures if old(h.media.totalFreeClusters) == 0 then heads' == heads && p == []
            else p == [h.media.nextFreeCluster] && heads' == heads + {h.startingCluster}
    ensures OthersKept(h.media.fatType, old(h.media.Fat()), h.media.Fat(), heads, h.startingCluster)
  {
    hide Media.Fat, Media.Valid, FatRuns.Sound, Chain, Ends, Coherent, HasChain, FatAllocate.Countable, Allocates;
    hide Appends, OthersKept, AtLastEnd;
    hide FatSeek.Geometry, FatSeek.Handle.Positioned, FatSeek.Handle.SeekPointsValid, FatSeek.Measures;
    hide FatMedia.Media.OnlyFat;
    var media := h.media;
    Parts(h, heads, []);
    ghost var a := media.State();
    SameOthers(media.fatType, a, heads, 0);
    heads', p := heads, [];
    var cluster := FatAllocate.FirstFreeAndAllocate(media);
    if cluster >= 0 {
      AllocatedFirst(media.fatType, a, media.State(), heads);
      h.startingCluster := cluster;
      h.currentCluster := cluster;
      h.currentSector := media.FirstSectorOfCluster(cluster);
      heads', p := heads + {cluster}, [cluster];
      Lengthened(h, heads', [], cluster);
    }
  }

  /** GetNewcluster at the end of the file's last cluster. */
  method AnotherCluster(h: FatSeek.Handle, ghost heads: set<nat>, ghost p: seq<nat>) returns (ghost p': seq<nat>)
    requires Coherent(h, heads, p) && h.startingCluster != 0 && AtLastEnd(h, p)
    modifies h, h.media
    ensures Coherent(h, heads, p') && h.currentOffset == old(h.currentOffset) && h.fileSize == old(h.fileSize)
    ensures h.startingCluster == old(h.startingCluster)
    ensures p' == if old(h.media.totalFreeClusters) == 0 then p else p + [h.media.nextFreeCluster]
    ensures OthersKept(h.media.fatType, old(h.media.Fat()), h.media.Fat(), heads, h.startingCluster)
  {
    hide Media.Fat, Media.Valid, FatRuns.Sound, Chain, Ends, Coherent, HasChain, FatAllocate.Countable, Allocates;
    hide Appends, OthersKept, AtLastEnd;
    hide FatSeek.Geometry, FatSeek.Handle.Positioned, FatSeek.Handle.SeekPointsValid, FatSeek.Measures;
    hide FatMedia.Media.OnlyFat;
    var media := h.media;
    Parts(h, heads, p);
    ghost var a := media.State();
    LastCluster(h, p);
    SameOthers(media.fatType, a, heads, h.startingCluster);
    p' := p;
    var status := FatAllocate.GetNewCluster(h);
    if status == FatAllocate.SUCCESS {
      Appended(media.fatType, a, media.State(), heads, h.startingCluster, p);
      p' := p + [h.currentCluster];
      Lengthened(h, heads, p, h.currentCluster);
    }
  }

  lemma Parts(h: FatSeek.Handle, heads: set<nat>, p: seq<nat>)
    requires Coherent(h, heads, p)
    ensures h.media.Valid() && FatSeek.Measures(h.media) && FatAllocate.Countable(h.media)
    ensures h.media.totalClusters < EntryLimit(h.media.fatType)
    ensures FatRuns.Sound(h.media.fatType, FatRuns.Volume(h.media.State(), heads))
    ensures 3 <= |h.media.Fat()| <= FatRuns.Eof(h.media.fatType)
    ensures h.startingCluster != 0 ==>
            h.startingCluster in heads && p == Chain(h.media.Fat(), FatRuns.Eof(h.media.fatType), h.startingCluster)
    ensures p != [] ==> |p| > 0 && p[|p| - 1] <= h.media.totalClusters
    ensures p == [] ==> h.currentOffset == 0 && h.sectorPosInCluster == 0 && h.bytePosInSector == 0
    ensures h.media.clusterBytes > 0 && FatSeek.Geometry(h.media) && !h.directoryMode && h.SeekPointsValid(p)
    ensures h.seekPointsBaseFileSize <= h.fileSize <= 0x7fff_ffff && h.fileSize <= |p| * h.media.clusterBytes
    ensures if h.startingCluster == 0 then p == [] else ChainIs(h.media, h.startingCluster, p)
    ensures h.Positioned(p)
  {
    hide Chain, Ends;
    FatRuns.SoundReady(h.media, heads, h.startingCluster, 0);
    h.OffsetInCluster(p);
  }

  lemma SameOthers(t: FatType, a: Table, heads: set<nat>, start: nat)
    requires FatRuns.Sound(t, FatRuns.Volume(a, heads))
    ensures OthersKept(t, a.fat, a.fat, heads, start)
  {
  }

  lemma LastCluster(h: FatSeek.Handle, p: seq<nat>)
    requires FatSeek.Geometry(h.media) && h.media.clusterBytes > 0 && AtLastEnd(h, p)
    ensures p != [] && h.currentCluster == p[|p| - 1] && h.currentOffset == |p| * h.media.clusterBytes
  {
    DivModUnique(h.currentOffset, h.media.clusterBytes, |p|, 0);
  }

  /** The handle at the beginning of a cluster that has just been added to the chain. */
  lemma Lengthened(h: FatSeek.Handle, heads: set<nat>, p: seq<nat>, c: nat)
    requires h.media.Valid() && FatSeek.Measures(h.media) && h.media.clusterBytes > 0 && !h.directoryMode
    requires FatRuns.Sound(h.media.fatType, FatRuns.Volume(h.media.State(), heads)) && h.startingCluster in heads
    requires ChainIs(h.media, h.startingCluster, p + [c])
    requires h.SeekPointsValid(p) && h.seekPointsBaseFileSize <= h.fileSize <= 0x7fff_ffff
    requires h.fileSize <= |p| * h.media.clusterBytes
    requires h.currentOffset == |p| * h.media.clusterBytes && h.currentCluster == c && h.sectorPosInCluster == 0
    requires h.bytePosInSector == 0
    ensures Coherent(h, heads, p + [c])
  {
    PointsKept(h, p, c);
    PositionedBehind(h, p, c);
    LongerFits(|p|, h.fileSize, h.media.clusterBytes);
    hide FatSeek.Handle.Positioned, FatSeek.Handle.SeekPointsValid, Chain, FatRuns.Sound;
  }

  /** The handle after a change to the chains of other files. */
  lemma StillCoherent(h: FatSeek.Handle, heads: set<nat>, p: seq<nat>)
    requires h.media.Valid() && FatSeek.Measures(h.media) && h.Positioned(p) && !h.directoryMode
    requires FatRuns.Sound(h.media.fatType, FatRuns.Volume(h.media.State(), heads))
    requires if h.startingCluster == 0 then p == []
             else h.startingCluster in heads && ChainIs(h.media, h.startingCluster, p)
    requires h.SeekPointsValid(p) && h.seekPointsBaseFileSize <= h.fileSize <= 0x7fff_ffff
    requires h.fileSize <= |p| * h.media.clusterBytes
    ensures Coherent(h, heads, p)
  {
    hide FatSeek.Handle.Positioned, FatSeek.Handle.SeekPointsValid, Chain, FatRuns.Sound;
  }

  lemma Appended(t: FatType, a: Table, b: Table, heads: set<nat>, start: nat, p: seq<nat>)
    requires FatRuns.Sound(t, FatRuns.Volume(a, heads)) && start in heads && a.free != 0
    requires Ends(a.fat, FatRuns.Eof(t), start) && p == Chain(a.fat, FatRuns.Eof(t), start)
    requires Appends(a, b, p[|p| - 1], FatRuns.Eof(t))
    ensures FatRuns.Sound(t, FatRuns.Volume(b, heads)) && OthersKept(t, a.fat, b.fat, heads, start)
    ensures Ends(b.fat, FatRuns.Eof(t), start) && Chain(b.fat, FatRuns.Eof(t), start) == p + [b.next]
  {
    FatRuns.AppendSound(t, FatRuns.Volume(a, heads), b, start);
  }

  lemma EmptyChain(h: FatSeek.Handle, heads: set<nat>, p: seq<nat>)
    requires Coherent(h, heads, p)
    ensures h.media.Valid() && FatSeek.Measures(h.media)
    ensures if h.startingCluster == 0 then p == [] else p != [] && h.startingCluster in heads
  {
    hide FatRuns.Sound, FatSeek.Handle.Positioned, FatSeek.Handle.SeekPointsValid;
  }

  /** Writing's demand for a cluster: an empty file gets its first one; otherwise the chain grows if the handle
      stands at its end. */
  method Extend(h: FatSeek.Handle, ghost heads: set<nat>, ghost p: seq<nat>) returns (ghost heads': set<nat>,
      ghost p': seq<nat>)
    requires Coherent(h, heads, p) && (p == [] || AtLastEnd(h, p))
    modifies h, h.media
    ensures Coherent(h, heads', p') && h.currentOffset == old(h.currentOffset) && h.fileSize == old(h.fileSize)
    ensures if old(h.media.totalFreeClusters) == 0 then heads' == heads && p' == p
            else p' == p + [h.media.nextFreeCluster] && heads' == heads + {h.startingCluster}
    ensures OthersKept(h.media.fatType, old(h.media.Fat()), h.media.Fat(), heads, h.startingCluster)
  {
    hide Coherent, OthersKept, FatSeek.Measures, Media.Fat, Media.Valid;
    EmptyChain(h, heads, p);
    if h.startingCluster == 0 {
      heads', p' := FirstCluster(h, heads);
    } else {
      heads' := heads;
      p' := AnotherCluster(h, heads, p);
    }
  }

  /** Writing updates the size in the directory record; it never exceeds what the clusters hold. */
  method Grow(h: FatSeek.Handle, size: nat, ghost heads: set<nat>, ghost p: seq<nat>)
    requires Coherent(h, heads, p) && h.fileSize <= size <= 0x7fff_ffff && size <= |p| * h.media.clusterBytes
    modifies h`fileSize
    ensures Coherent(h, heads, p) && h.fileSize == size
  {
    hide FatSeek.Handle.Inside, FatSeek.Handle.Parked, FatRuns.Sound, ChainIs, FatSeek.Handle.SeekPointsValid;
    assert p == [] ==> |p| * h.media.clusterBytes == 0;
    h.fileSize := size;
  }

  /** Another file is deleted. */
  method DeleteOther(h: FatSeek.Handle, head: nat, size: nat, ghost heads: set<nat>, ghost p: seq<nat>)
      returns (ghost heads': set<nat>)
    requires Coherent(h, heads, p) && head in heads && head != h.startingCluster
    requires size <= 0x7fff_ffff && h.media.clusterBytes > 0 && 0x8000_0000 % h.media.clusterBytes == 0
    modifies h.media
    ensures heads' == heads - {head} && Coherent(h, heads', p)
    ensures OthersKept(h.media.fatType, old(h.media.Fat()), h.media.Fat(), heads', h.startingCluster)
    ensures var t, a, b := h.media.fatType, old(h.media.State()), h.media.State();
            && Ends(a.fat, FatRuns.Eof(t), head)
            && var p, bytes := Chain(a.fat, FatRuns.Eof(t), head), if size == 0 then 0x7fff_ffff else size;
               FatRuns.Tight(t, FatRuns.Volume(a, heads)) ==>
                 (FatRuns.Tight(t, FatRuns.Volume(b, heads')) <==>
                  (|p| - 1) * h.media.clusterBytes < bytes &&
                  (t.FAT32? || forall i :: 0 <= i < |p| ==> p[i] <= 0xfff0))
  {
    hide Media.Fat, Media.Valid, FatRuns.Sound, Chain, Ends, Coherent, HasChain, FatAllocate.Countable, OthersKept;
    hide FatDelete.Deletable, FatDelete.FreesContent, FatRuns.Tight, ChainDeletion.SizeInClusters;
    hide FatSeek.Geometry, FatSeek.Handle.Positioned, FatSeek.Handle.SeekPointsValid, FatSeek.Measures;
    hide FatMedia.Media.OnlyFat, FatDelete.Deletes;
    var media := h.media;
    Parts(h, heads, p);
    ghost var a := media.State();
    ghost var bound := ChainDeletion.SizeInClusters(media.clusterBytes, FatDelete.BoundingSize(size));
    FatRuns.SoundReady(media, heads, head, bound);
    var _ := FatDelete.DeleteContent(media, head, size, false);
    heads' := heads - {head};
    OtherDeleted(media.fatType, a, media.State(), heads, head, bound, h.startingCluster);
    FatRuns.DeletionTight(media.fatType, FatRuns.Volume(a, heads), media.State(), head, size, media.clusterBytes);
    StillCoherent(h, heads', p);
  }

  lemma OtherDeleted(t: FatType, a: Table, b: Table, heads: set<nat>, head: nat, bound: nat, start: nat)
    requires FatRuns.Sound(t, FatRuns.Volume(a, heads)) && head in heads && head != start
    requires FatDelete.Deletes(t, a, b, head, bound)
    ensures FatRuns.Sound(t, FatRuns.Volume(b, heads - {head})) && OthersKept(t, a.fat, b.fat, heads - {head}, start)
    ensures start in heads ==> Ends(a.fat, FatRuns.Eof(t), start) && Ends(b.fat, FatRuns.Eof(t), start) &&
                               Chain(b.fat, FatRuns.Eof(t), start) == Chain(a.fat, FatRuns.Eof(t), start)
  {
    FatRuns.DeleteSound(t, FatRuns.Volume(a, heads), head, bound);
  }

  // ------------------------------------------------------------------ runs

  datatype Operation = Seek(numBytes: int, whence: FatSeek.Whence) | Extend | Grow(size: nat) | Delete(head: nat,
    size: nat)

  /** The file's clusters so far stay the first ones of its chain. */
  ghost predicate Extends(p: seq<nat>, p': seq<nat>) {
    |p| <= |p'| && p'[..|p|] == p
  }

  lemma ExtendsMore(p: seq<nat>, q: seq<nat>, r: seq<nat>)
    requires Extends(p, q) && Extends(q, r)
    ensures Extends(p, r)
  {
    assert r[..|p|] == r[..|q|][..|p|];
  }

  lemma EndOfLast(h: FatSeek.Handle, heads: set<nat>, p: seq<nat>)
    requires Coherent(h, heads, p) && h.currentOffset == |p| * h.media.clusterBytes
    ensures p == [] || AtLastEnd(h, p)
  {
    h.OffsetInCluster(p);
    DivModUnique(h.currentOffset, h.media.clusterBytes, |p|, 0);
  }

  /** One operation, if its conditions hold; `heads` are the first clusters of all files, `clusters` the length of
      the chain. */
  method Perform(h: FatSeek.Handle, op: Operation, heads: set<nat>, clusters: nat, ghost p: seq<nat>)
    returns (heads': set<nat>, clusters': nat, ghost p': seq<nat>)
    requires Coherent(h, heads, p) && clusters == |p| && h.media.clusterBytes > 0
    requires 0x8000_0000 % h.media.clusterBytes == 0
    modifies h, h.seekPointsClusters, h.media
    ensures Coherent(h, heads', p') && clusters' == |p'| && Extends(p, p')
  {
    hide *;
    heads', clusters', p' := heads, clusters, p;
    SelfExtends(p, 0);
    match op {
      case Seek(numBytes, whence) =>
        var _ := Seek(h, numBytes, whence, heads, p);
      case Extend =>
        if h.currentOffset == clusters * h.media.clusterBytes {
          EndOfLast(h, heads, p);
          ghost var hs;
          var room := h.media.totalFreeClusters != 0;
          SelfExtends(p, 0);
          hs, p' := Extend(h, heads, p);
          if room {
            SelfExtends(p, h.media.nextFreeCluster);
            heads', clusters' := heads + {h.startingCluster}, clusters + 1;
          }
        }
      case Grow(size) =>
        if h.fileSize <= size <= 0x7fff_ffff && size <= clusters * h.media.clusterBytes {
          Grow(h, size, heads, p);
        }
      case Delete(head, size) =>
        if head in heads && head != h.startingCluster && size <= 0x7fff_ffff {
          ghost var hs := DeleteOther(h, head, size, heads, p);
          heads' := heads - {head};
        }
    }
  }

  lemma SelfExtends(p: seq<nat>, c: nat)
    ensures Extends(p, p) && Extends(p, p + [c])
  {
  }

  /** Over every run on an open file, with the file's size and chain growing in between and other files being
      deleted, the seek points stay on the chain, the handle's fields denote an offset in the file, and the volume
      stays sound. */
  method PerformAll(h: FatSeek.Handle, ops: seq<Operation>, heads: set<nat>, clusters: nat, ghost p: seq<nat>)
    returns (heads': set<nat>, clusters': nat, ghost p': seq<nat>)
    requires Coherent(h, heads, p) && clusters == |p| && h.media.clusterBytes > 0
    requires 0x8000_0000 % h.media.clusterBytes == 0
    modifies h, h.seekPointsClusters, h.media
    ensures Coherent(h, heads', p') && clusters' == |p'| && Extends(p, p')
  {
    SelfExtends(p, 0);
    hide *;
    heads', clusters', p' := heads, clusters, p;
    for i := 0 to |ops|
      invariant Coherent(h, heads', p') && clusters' == |p'| && Extends(p, p')
    {
      ghost var q := p';
      heads', clusters', p' := Perform(h, ops[i], heads', clusters', p');
      ExtendsMore(p, q, p');
    }
  }
}
