/** Seeking in a file with cached seek points (filesystem/fat/base/fseek.c). */
module FatSeek {
  import opened Division
  import opened FatMedia

  const NUM_SEEKPOINTS_CACHED: nat := 10
  const INVALID_CLUSTER: nat := 0x7fff_ffff
  const SUCCESS: int := 0

  /** Stands for ERROR_OS_FILESYSTEM_FSEEK_FAILED. */
  const FSEEK_FAILED: int := -0x8000_0002

  datatype Whence = SeekSet | SeekCur | SeekEnd | Other

  /** The seek points as values: slot `i` is empty or holds the cluster at position (i + 1) * step of the chain. */
  ghost predicate PointsAt(points: seq<nat>, step: nat, p: seq<nat>) {
    && |points| == NUM_SEEKPOINTS_CACHED && step > 0
    && (forall i :: 0 <= i < |points| && points[i] != INVALID_CLUSTER ==> IsPoint(points[i], (i + 1) * step, p))
  }

  ghost predicate IsPoint(c: nat, k: int, p: seq<nat>) {
    0 <= k < |p| && p[k] == c
  }

  /** The step for a file of `size` bytes: a tenth of its whole clusters, but at least 1. */
  function StepFor(size: nat, clusterBytes: nat): (s: nat)
    requires clusterBytes > 0
    ensures s >= 1
  {
    var s := Quotient(size, clusterBytes) / NUM_SEEKPOINTS_CACHED;
    if s == 0 then 1 else s
  }

  /** Ten steps are inside the file and leave less than ten clusters, unless the file has less than ten clusters. */
  lemma StepTenth(size: nat, clusterBytes: nat)
    requires clusterBytes > 0
    ensures var s := StepFor(size, clusterBytes);
            if size < 10 * clusterBytes then s == 1
            else 10 * s * clusterBytes <= size < (10 * s + 10) * clusterBytes
  {
    hide Quotient, Remainder;
    var whole, s := Quotient(size, clusterBytes), StepFor(size, clusterBytes);
    DivMod(size, clusterBytes);
    if size < 10 * clusterBytes {
      QuotientOrder(whole, Remainder(size, clusterBytes), 9, clusterBytes - 1, clusterBytes);
    } else {
      QuotientOrder(10, 0, whole, Remainder(size, clusterBytes), clusterBytes);
      OneMore(whole, clusterBytes);
      KeepOrder(10 * s, whole, clusterBytes);
      KeepOrder(whole + 1, 10 * s + 10, clusterBytes);
    }
  }

  lemma StepGrows(a: nat, b: nat, clusterBytes: nat)
    requires clusterBytes > 0 && a <= b
    ensures StepFor(a, clusterBytes) <= StepFor(b, clusterBytes)
  {
    DivMonotone(a, b, clusterBytes);
  }

  /** The source fills slot k / step - 1 when it comes to a position k that is a multiple of the step, without a test
      against the number of slots. */
  predicate SlotInRange(step: nat, k: nat)
    requires step > 0
  {
    k >= step && Remainder(k, step) == 0 ==> Quotient(k, step) - 1 < NUM_SEEKPOINTS_CACHED
  }

  /** All slots that a walk from position `from` to position `to` fills are in range. */
  ghost predicate SlotsInRange(step: nat, from: nat, to: int)
    requires step > 0
  {
    forall k: nat :: from < k <= to ==> SlotInRange(step, k)
  }

  /** The last position that a walk to the end of a file of `size` bytes comes to, in a chain of `clusters`. */
  function Reach(size: nat, clusterBytes: nat, clusters: nat): int
    requires clusterBytes > 0
  {
    if Quotient(size, clusterBytes) < clusters then Quotient(size, clusterBytes) else clusters - 1
  }

  /** For which files the slots that the source fills are in range. */
  predicate SlotsSuffice(size: nat, clusterBytes: nat, clusters: nat)
    requires clusterBytes > 0
  {
    Reach(size, clusterBytes, clusters) < 11 * StepFor(size, clusterBytes)
  }

  /** That is so exactly if the file is shorter than eleven steps or its chain has no more clusters than that. */
  lemma SlotsInBytes(size: nat, clusterBytes: nat, clusters: nat)
    requires clusterBytes > 0
    ensures var s := StepFor(size, clusterBytes);
            SlotsSuffice(size, clusterBytes, clusters) <==> size < 11 * s * clusterBytes || clusters <= 11 * s
  {
    hide Quotient, Remainder, StepFor;
    var q, s := Quotient(size, clusterBytes), StepFor(size, clusterBytes);
    DivMod(size, clusterBytes);
    if q < 11 * s {
      OneMore(q, clusterBytes);
      KeepOrder(q + 1, 11 * s, clusterBytes);
    } else {
      KeepOrder(11 * s, q, clusterBytes);
    }
  }

  /** They are in range for all positions of the file exactly then; and if so, they are on every part of the way. */
  lemma SlotRange(size: nat, clusterBytes: nat, clusters: nat)
    requires clusterBytes > 0
    ensures SlotsSuffice(size, clusterBytes, clusters) <==>
            SlotsInRange(StepFor(size, clusterBytes), 0, Reach(size, clusterBytes, clusters))
    ensures SlotsSuffice(size, clusterBytes, clusters) ==>
              forall from: nat, to ::
                to <= Reach(size, clusterBytes, clusters) ==> SlotsInRange(StepFor(size, clusterBytes), from, to)
  {
    var step, last := StepFor(size, clusterBytes), Reach(size, clusterBytes, clusters);
    DivModUnique(11 * step, step, 11, 0);
    if last >= 11 * step {
      assert !SlotInRange(step, 11 * step);
    } else {
      forall k: nat | k <= last ensures SlotInRange(step, k) { InRangeBelow(step, k); }
    }
  }

  /** On the way to an offset in the file the slots are in range if they suffice, and on all the way from the first
      cluster to the end of the file only if they suffice. */
  lemma InRangeOnTheWay(target: nat, size: nat, clusterBytes: nat, clusters: nat, from: nat)
    requires clusterBytes > 0 && target <= size
    ensures SlotsSuffice(size, clusterBytes, clusters) ==>
            SlotsInRange(StepFor(size, clusterBytes), from, Reach(target, clusterBytes, clusters))
    ensures target == size && from == 0 ==>
              (SlotsInRange(StepFor(size, clusterBytes), from, Reach(target, clusterBytes, clusters)) <==>
                SlotsSuffice(size, clusterBytes, clusters))
  {
    DivMonotone(target, size, clusterBytes);
    SlotRange(size, clusterBytes, clusters);
  }

  /** Directories have no seek points: no position comes up to the step that stands for this. */
  lemma DirectoryInRange(target: nat, clusterBytes: nat, clusters: nat, from: nat)
    requires clusterBytes > 1 && target <= 0x7fff_ffff
    ensures SlotsInRange(INVALID_CLUSTER, from, Reach(target, clusterBytes, clusters))
  {
    ClusterLimit(clusterBytes);
  }

  lemma InRangeBelow(step: nat, k: nat)
    requires step > 0 && k < 11 * step
    ensures SlotInRange(step, k)
  {
    if k >= step && Remainder(k, step) == 0 {
      assert k == Quotient(k, step) * step;
      CancelOrder(Quotient(k, step), 11, step);
      assert Quotient(k, step) != 11;
    }
  }

  /** A file of eleven whole clusters is the smallest for which one more cluster in its chain matters; with 19 whole
      clusters and a part of another one the clusters that the size needs are already too many. */
  lemma SlotsExceeded(clusterBytes: nat)
    requires clusterBytes > 1
    ensures SlotsSuffice(11 * clusterBytes, clusterBytes, 11) && !SlotsSuffice(11 * clusterBytes, clusterBytes, 12)
    ensures !SlotsSuffice(19 * clusterBytes + 1, clusterBytes, 20)
  {
    DivModUnique(11 * clusterBytes, clusterBytes, 11, 0);
    DivModUnique(19 * clusterBytes + 1, clusterBytes, 19, 1);
  }

  // ------------------------------------------------------------------ moving seek points to a larger step

  /** The slot under a new step of the point that was in slot `i`, if the point fits that step. */
  function NewSlot(i: nat, step: nat, newStep: nat): (j: int)
    requires newStep > 0
  {
    var k := (i + 1) * step;
    if k >= newStep && Remainder(k, newStep) == 0 then Quotient(k, newStep) - 1 else -1
  }

  lemma NewSlotInRange(i: nat, step: nat, newStep: nat)
    requires 0 < step <= newStep
    ensures var j := NewSlot(i, step, newStep); -1 <= j <= i && (j >= 0 ==> (j + 1) * newStep == (i + 1) * step)
  {
    var k := (i + 1) * step;
    if NewSlot(i, step, newStep) >= 0 {
      var q := Quotient(k, newStep);
      assert k == q * newStep;
      KeepOrder(step, newStep, i + 1);
      CancelOrder(q, i + 1, newStep);
    }
  }

  /** Two points do not move to the same slot. */
  lemma NewSlotInjective(i: nat, i': nat, step: nat, newStep: nat)
    requires 0 < step <= newStep && NewSlot(i, step, newStep) == NewSlot(i', step, newStep) >= 0
    ensures i == i'
  {
    NewSlotInRange(i, step, newStep);
    NewSlotInRange(i', step, newStep);
    CancelOrder(i + 1, i' + 1, step);
    CancelOrder(i' + 1, i + 1, step);
  }

  /** After slots below `n` have been dealt with: every point that fits has moved to its new slot, later slots are as
      before, and the rest is empty. */
  ghost predicate Moved(before: seq<nat>, points: seq<nat>, step: nat, newStep: nat, n: nat)
    requires newStep > 0
  {
    && |points| == |before| == NUM_SEEKPOINTS_CACHED && n <= NUM_SEEKPOINTS_CACHED
    && (forall j :: n <= j < NUM_SEEKPOINTS_CACHED ==> points[j] == before[j])
    && (forall i: nat :: i < n && before[i] != INVALID_CLUSTER && NewSlot(i, step, newStep) >= 0 ==>
         NewSlot(i, step, newStep) < n && points[NewSlot(i, step, newStep)] == before[i])
    && (forall j :: 0 <= j < n && points[j] != INVALID_CLUSTER ==> exists i: nat ::
       Source(before, i, step, newStep, n, j) && points[j] == before[i])
  }

  ghost predicate Source(before: seq<nat>, i: nat, step: nat, newStep: nat, n: nat, j: int)
    requires newStep > 0
  {
    i < n && i < |before| && before[i] != INVALID_CLUSTER && NewSlot(i, step, newStep) == j
  }

  /** The step of the loop for slot `n`. */
  ghost function MoveOne(before: seq<nat>, points: seq<nat>, step: nat, newStep: nat, n: nat): (r: seq<nat>)
    requires 0 < step <= newStep && n < |before| == |points|
    ensures |r| == |points|
  {
    NewSlotInRange(n, step, newStep);
    var cleared := points[n := INVALID_CLUSTER];
    if before[n] != INVALID_CLUSTER && NewSlot(n, step, newStep) >= 0
      then cleared[NewSlot(n, step, newStep) := before[n]] else cleared
  }

  lemma MovedStart(points: seq<nat>, step: nat, newStep: nat)
    requires newStep > 0 && |points| == NUM_SEEKPOINTS_CACHED
    ensures Moved(points, points, step, newStep, 0)
  {
  }

  lemma NextOffset(i: nat, step: nat)
    ensures (i + 1) * step + step == (i + 1 + 1) * step
  {
  }

  lemma MovedNext(before: seq<nat>, points: seq<nat>, step: nat, newStep: nat, n: nat)
    requires 0 < step <= newStep && n < NUM_SEEKPOINTS_CACHED && Moved(before, points, step, newStep, n)
    ensures Moved(before, MoveOne(before, points, step, newStep, n), step, newStep, n + 1)
  {
    var r := MoveOne(before, points, step, newStep, n);
    NewSlotInRange(n, step, newStep);
    forall i: nat | i < n + 1 && before[i] != INVALID_CLUSTER && NewSlot(i, step, newStep) >= 0
      ensures NewSlot(i, step, newStep) < n + 1 && r[NewSlot(i, step, newStep)] == before[i]
    {
      NewSlotInRange(i, step, newStep);
      if i < n && NewSlot(i, step, newStep) == NewSlot(n, step, newStep) { NewSlotInjective(i, n, step, newStep); }
    }
    forall j | 0 <= j < n + 1 && r[j] != INVALID_CLUSTER
      ensures exists i: nat :: Source(before, i, step, newStep, n + 1, j) && r[j] == before[i]
    {
      if before[n] != INVALID_CLUSTER && NewSlot(n, step, newStep) == j {
        assert Source(before, n, step, newStep, n + 1, j);
      } else {
        assert j < n && r[j] == points[j];
        var i: nat :| Source(before, i, step, newStep, n, j) && points[j] == before[i];
        assert Source(before, i, step, newStep, n + 1, j);
      }
    }
  }

  /** Moved points are still points of the chain. */
  lemma MovedPoints(before: seq<nat>, points: seq<nat>, step: nat, newStep: nat, p: seq<nat>)
    requires 0 < step <= newStep && Moved(before, points, step, newStep, NUM_SEEKPOINTS_CACHED)
    requires PointsAt(before, step, p)
    ensures PointsAt(points, newStep, p)
  {
    forall j | 0 <= j < |points| && points[j] != INVALID_CLUSTER ensures IsPoint(points[j], (j + 1) * newStep, p) {
      var i: nat :| Source(before, i, step, newStep, NUM_SEEKPOINTS_CACHED, j) && points[j] == before[i];
      NewSlotInRange(i, step, newStep);
      assert IsPoint(before[i], (i + 1) * step, p);
    }
  }

  /** The seek points after the cluster at position `k` has been offered: it goes into its slot if that is empty. */
  function Filled(points: seq<nat>, step: nat, k: nat, cluster: nat): (r: seq<nat>)
    requires step > 0 && |points| == NUM_SEEKPOINTS_CACHED
    ensures |r| == |points|
  {
    var cnt := Quotient(k, step) - 1;
    if k >= step && Remainder(k, step) == 0 && 0 <= cnt < |points| && points[cnt] == INVALID_CLUSTER
      then points[cnt := cluster] else points
  }

  /** Every position after `from` and up to `to` that has a slot is in it. */
  ghost predicate FilledBetween(points: seq<nat>, step: nat, from: nat, to: int) {
    forall i :: 0 <= i < |points| && from < (i + 1) * step <= to ==> points[i] != INVALID_CLUSTER
  }

  /** No filled slot has changed. */
  ghost predicate KeepsPoints(before: seq<nat>, points: seq<nat>) {
    |points| == |before| && forall i :: 0 <= i < |points| && before[i] != INVALID_CLUSTER ==> points[i] == before[i]
  }

  lemma FilledNext(before: seq<nat>, points: seq<nat>, step: nat, from: nat, k: nat, cluster: nat)
    requires step > 0 && |points| == NUM_SEEKPOINTS_CACHED && KeepsPoints(before, points)
    requires FilledBetween(points, step, from, k)
    requires cluster != INVALID_CLUSTER
    ensures var r := Filled(points, step, k + 1, cluster); KeepsPoints(before, r) && FilledBetween(r, step, from, k + 1)
  {
    var r := Filled(points, step, k + 1, cluster);
    forall i | 0 <= i < |r| && from < (i + 1) * step <= k + 1 ensures r[i] != INVALID_CLUSTER {
      if (i + 1) * step == k + 1 {
        DivModUnique(k + 1, step, i + 1, 0);
        KeepOrder(1, i + 1, step);
      }
    }
  }

  // ------------------------------------------------------------------ the chain of a file

  /** `p` is the chain that begins at `start`, up to the cluster that has the end mark. */
  ghost predicate IsFile(media: Media, start: nat, p: seq<nat>)
    requires media.Valid()
    reads media
  {
    && (|p| > 0 ==> p[0] == start)
    && (forall i :: 0 <= i < |p| ==> 0 < p[i] <= media.totalClusters)
    && (forall i :: 0 <= i < |p| ==> media.Link(p[i]) == if i + 1 < |p| then p[i + 1] else END_OF_FILE)
  }

  /** What seeking needs of a volume's measures. */
  predicate Measures(media: Media) {
    && media.clusterBytes == media.sectorsPerCluster * media.bytesPerSector && media.sectorsPerCluster > 0 &&
       media.bytesPerSector > 0
    && media.totalClusters < INVALID_CLUSTER
  }

  ghost predicate Geometry(media: Media)
    reads media
  {
    media.Valid() && Measures(media)
  }

  lemma LinkOnChain(media: Media, start: nat, p: seq<nat>, k: nat)
    requires media.Valid() && IsFile(media, start, p) && k < |p|
    ensures p[k] <= media.totalClusters && (k + 1 < |p| ==> p[k + 1] <= media.totalClusters)
    ensures media.Link(p[k]) == (if k + 1 < |p| then p[k + 1] else END_OF_FILE)
  {
    hide Media.Link, Media.Fat;
    assert p[k] <= media.totalClusters;
    if k + 1 < |p| { assert p[k + 1] <= media.totalClusters; }
  }

  /** A part of the handle table entry, with the file's size from its directory record. */
  class Handle {
    const media: Media
    const directoryMode: bool
    var fileSize: nat
    var startingCluster: nat
    var currentOffset: nat
    var currentCluster: nat
    var currentSector: int
    var sectorPosInCluster: nat
    var bytePosInSector: nat
    var seekPointsClusterStep: nat
    var seekPointsBaseFileSize: nat
    const seekPointsClusters: array<nat>
    var errorCode: int

    /** A handle for a file that has just been opened. */
    constructor (media: Media, directoryMode: bool, fileSize: nat, startingCluster: nat)
      ensures this.media == media && this.directoryMode == directoryMode && this.fileSize == fileSize
      ensures this.startingCluster == startingCluster && currentCluster == startingCluster
      ensures currentOffset == sectorPosInCluster == bytePosInSector == 0 && fresh(seekPointsClusters)
      ensures seekPointsClusterStep == INVALID_CLUSTER && forall p :: SeekPointsValid(p)
    {
      this.media, this.directoryMode, this.fileSize, this.startingCluster :=
        media, directoryMode, fileSize, startingCluster;
      currentOffset, currentCluster, sectorPosInCluster, bytePosInSector := 0, startingCluster, 0, 0;
      currentSector := media.FirstSectorOfCluster(startingCluster);
      errorCode := SUCCESS;
      seekPointsClusters := new nat[NUM_SEEKPOINTS_CACHED];
      new;
      InitializeBuffer();
    }

    /** The fields denote the current offset inside a cluster of the chain. */
    ghost predicate Inside(p: seq<nat>)
      requires Measures(media)
      reads this`currentOffset, this`currentCluster, this`sectorPosInCluster, this`bytePosInSector
    {
      var k, r := Quotient(currentOffset, media.clusterBytes), Remainder(currentOffset, media.clusterBytes);
      && k < |p| && currentCluster == p[k] && sectorPosInCluster == Quotient(r, media.bytesPerSector) &&
         bytePosInSector == Remainder(r, media.bytesPerSector)
    }

    /** The fields denote the end of the cluster before the current offset. */
    ghost predicate Parked(p: seq<nat>)
      requires Measures(media)
      reads this`currentOffset, this`currentCluster, this`sectorPosInCluster, this`bytePosInSector
    {
      var k := Quotient(currentOffset, media.clusterBytes);
      && 0 < k <= |p| && currentOffset == k * media.clusterBytes && currentCluster == p[k - 1]
      && sectorPosInCluster == media.sectorsPerCluster - 1 && bytePosInSector == media.bytesPerSector
    }

    /** A file without clusters. */
    ghost predicate Empty(p: seq<nat>)
      reads this`fileSize, this`currentOffset, this`sectorPosInCluster, this`bytePosInSector
    {
      p == [] && fileSize == 0 && currentOffset == 0 && sectorPosInCluster == 0 && bytePosInSector == 0 &&
        !directoryMode
    }

    ghost predicate SeekPointsValid(p: seq<nat>)
      reads this`seekPointsClusterStep, this`seekPointsBaseFileSize, seekPointsClusters
    {
      && seekPointsClusters.Length == NUM_SEEKPOINTS_CACHED
      && (if seekPointsClusterStep == INVALID_CLUSTER
          then seekPointsBaseFileSize == 0 && forall i ::
            0 <= i < NUM_SEEKPOINTS_CACHED ==> seekPointsClusters[i] == INVALID_CLUSTER
          else PointsAt(seekPointsClusters[..], seekPointsClusterStep, p) && !directoryMode &&
               media.clusterBytes > 0 && seekPointsClusterStep == StepFor(seekPointsBaseFileSize, media.clusterBytes))
    }

    ghost predicate NoPoints()
      reads seekPointsClusters
    {
      forall i :: 0 <= i < seekPointsClusters.Length ==> seekPointsClusters[i] == INVALID_CLUSTER
    }

    /** SeekPoint_InitializeBuffer. */
    method InitializeBuffer()
      requires seekPointsClusters.Length == NUM_SEEKPOINTS_CACHED
      modifies this`seekPointsClusterStep, this`seekPointsBaseFileSize, seekPointsClusters
      ensures forall p :: SeekPointsValid(p)
      ensures seekPointsClusterStep == INVALID_CLUSTER
    {
      seekPointsClusterStep := INVALID_CLUSTER;
      seekPointsBaseFileSize := 0;
      var i := 0;
      while i < NUM_SEEKPOINTS_CACHED
        invariant 0 <= i <= NUM_SEEKPOINTS_CACHED && seekPointsClusterStep == INVALID_CLUSTER
        invariant seekPointsBaseFileSize == 0
        invariant forall j :: 0 <= j < i ==> seekPointsClusters[j] == INVALID_CLUSTER
      {
        seekPointsClusters[i] := INVALID_CLUSTER;
        i := i + 1;
      }
    }

    /** The loop that moves the seek points to a larger step, in place. */
    method MovePoints(step: nat, newStep: nat)
      requires seekPointsClusters.Length == NUM_SEEKPOINTS_CACHED && 0 < step <= newStep
      modifies seekPointsClusters
      ensures Moved(old(seekPointsClusters[..]), seekPointsClusters[..], step, newStep, NUM_SEEKPOINTS_CACHED)
    {
      hide *;
      var backup := seekPointsClusters[..];
      MovedStart(backup, step, newStep);
      var clusterOffsetInFile := step;
      var i := 0;
      while i < NUM_SEEKPOINTS_CACHED
        invariant 0 <= i <= NUM_SEEKPOINTS_CACHED && clusterOffsetInFile == (i + 1) * step
        invariant Moved(backup, seekPointsClusters[..], step, newStep, i)
      {
        MovedNext(backup, seekPointsClusters[..], step, newStep, i);
        MovePoint(backup, i, clusterOffsetInFile, step, newStep);
        NextOffset(i, step);
        clusterOffsetInFile := clusterOffsetInFile + step;
        i := i + 1;
      }
    }

    /** The body of that loop. */
    method MovePoint(backup: seq<nat>, i: nat, clusterOffsetInFile: nat, ghost step: nat, newStep: nat)
      requires i < NUM_SEEKPOINTS_CACHED == seekPointsClusters.Length == |backup|
      requires 0 < step <= newStep && clusterOffsetInFile == (i + 1) * step
      modifies seekPointsClusters
      ensures seekPointsClusters[..] == MoveOne(backup, old(seekPointsClusters[..]), step, newStep, i)
    {
      hide Quotient, Remainder;
      ghost var points := seekPointsClusters[..];
      NewSlotInRange(i, step, newStep);
      seekPointsClusters[i] := INVALID_CLUSTER;
      if backup[i] != INVALID_CLUSTER {
        if clusterOffsetInFile >= newStep && Remainder(clusterOffsetInFile, newStep) == 0 {
          var cnt := Quotient(clusterOffsetInFile, newStep) - 1;
          seekPointsClusters[cnt] := backup[i];
        }
      }
    }

    /** SeekPoint_CalculateSeekPointStep. Files only grow. */
    method CalculateSeekPointStep(oldFileSize: nat, newFileSize: nat, ghost p: seq<nat>)
      requires Geometry(media) && SeekPointsValid(p) && !directoryMode
      requires oldFileSize == seekPointsBaseFileSize <= newFileSize
      requires StepFor(newFileSize, media.clusterBytes) < INVALID_CLUSTER
      modifies this`seekPointsClusterStep, this`seekPointsBaseFileSize, seekPointsClusters
      ensures SeekPointsValid(p) && seekPointsClusterStep == StepFor(newFileSize, media.clusterBytes)
      ensures seekPointsBaseFileSize == newFileSize
      ensures old(seekPointsClusterStep) == INVALID_CLUSTER || old(seekPointsClusterStep) <= seekPointsClusterStep
      ensures if old(seekPointsClusterStep) == INVALID_CLUSTER || old(seekPointsClusterStep) == seekPointsClusterStep
              then seekPointsClusters[..] == old(seekPointsClusters[..])
              else Moved(old(seekPointsClusters[..]), seekPointsClusters[..], old(seekPointsClusterStep),
                seekPointsClusterStep, NUM_SEEKPOINTS_CACHED)
    {
      if seekPointsClusterStep == INVALID_CLUSTER || oldFileSize != newFileSize {
        StepGrows(oldFileSize, newFileSize, media.clusterBytes);
        var step := Quotient(newFileSize, media.clusterBytes) / NUM_SEEKPOINTS_CACHED;
        if step == 0 {
          step := 1;
        }
        var oldStep := seekPointsClusterStep;
        seekPointsClusterStep := step;
        seekPointsBaseFileSize := newFileSize;
        if oldStep != INVALID_CLUSTER && oldStep != step {
          ghost var points := seekPointsClusters[..];
          MovePoints(oldStep, step);
          MovedPoints(points, seekPointsClusters[..], oldStep, step, p);
        }
      }
    }

    /** SeekPoint_FillSeekPoint, with a test of the slot against the array's length that the source does not have;
        the result says whether the source would have kept to the array without it. */
    method FillSeekPoint(clusterOffsetInFile: nat, cluster: nat, ghost p: seq<nat>) returns (ghost inRange: bool)
      requires Geometry(media) && SeekPointsValid(p)
      requires clusterOffsetInFile < |p| && cluster == p[clusterOffsetInFile] && clusterOffsetInFile < INVALID_CLUSTER
      modifies seekPointsClusters
      ensures SeekPointsValid(p) && inRange == SlotInRange(seekPointsClusterStep, clusterOffsetInFile)
      ensures seekPointsClusters[..] ==
              Filled(old(seekPointsClusters[..]), seekPointsClusterStep, clusterOffsetInFile, cluster)
    {
      hide Media.Valid, StepFor;
      inRange := true;
      if clusterOffsetInFile >= seekPointsClusterStep && Remainder(clusterOffsetInFile, seekPointsClusterStep) == 0 {
        var cnt := Quotient(clusterOffsetInFile, seekPointsClusterStep) - 1;
        inRange := cnt < NUM_SEEKPOINTS_CACHED;
        if cnt < NUM_SEEKPOINTS_CACHED && seekPointsClusters[cnt] == INVALID_CLUSTER {
          ghost var points := seekPointsClusters[..];
          seekPointsClusters[cnt] := cluster;
          assert (cnt + 1) * seekPointsClusterStep == clusterOffsetInFile;
          assert seekPointsClusters[..] == points[cnt := cluster];
          assert IsPoint(cluster, (cnt + 1) * seekPointsClusterStep, p);
        }
      }
    }

    // ---------------------------------------------------------------- seeking

    /** Index in the chain of the handle's current cluster. */
    ghost function CurrentIndex(p: seq<nat>): nat
      requires Measures(media)
      reads this`currentOffset, this`currentCluster, this`sectorPosInCluster, this`bytePosInSector
    {
      var k := Quotient(currentOffset, media.clusterBytes);
      if Parked(p) && k > 0 then k - 1 else k
    }

    ghost predicate Positioned(p: seq<nat>)
      requires Measures(media)
      reads this`fileSize, this`currentOffset, this`currentCluster, this`sectorPosInCluster, this`bytePosInSector
    {
      Inside(p) || Parked(p) || Empty(p)
    }

    /** The byte offset inside the current cluster: when the offset is a multiple of the cluster size, only the position
        fields tell whether the handle is parked at the end of a cluster. */
    lemma OffsetInCluster(p: seq<nat>)
      requires Geometry(media) && Positioned(p)
      ensures media.clusterBytes > 0
      ensures var r := Remainder(currentOffset, media.clusterBytes);
              currentOffset - CurrentIndex(p) * media.clusterBytes ==
              if r == 0 && currentOffset != 0 then bytePosInSector + sectorPosInCluster * media.bytesPerSector else r
      ensures p != [] ==> CurrentIndex(p) < |p| && currentCluster == p[CurrentIndex(p)]
    {
      hide Quotient, Remainder, Media.Valid;
      ClusterBytesPositive(media.sectorsPerCluster, media.bytesPerSector);
      var cb, k, r := media.clusterBytes, Quotient(currentOffset, media.clusterBytes), Remainder(currentOffset,
        media.clusterBytes);
      WholeAndRest(currentOffset, cb);
      if Parked(p) {
        OneMore(k - 1, cb);
        WholeRest(k, cb);
        LastSectorEnd(media.sectorsPerCluster, media.bytesPerSector);
      } else if r == 0 {
        ZeroPosition(media.bytesPerSector);
      }
    }

    lemma WholeAndRest(n: nat, d: nat)
      requires d > 0
      ensures n == Quotient(n, d) * d + Remainder(n, d)
    {
      DivMod(n, d);
    }

    lemma WholeRest(k: nat, d: nat)
      requires d > 0
      ensures k * d >= 0 && Quotient(k * d, d) == k && Remainder(k * d, d) == 0
    {
      DivModUnique(k * d, d, k, 0);
    }

    lemma ClusterBytesPositive(sectors: nat, bytes: nat)
      requires sectors > 0 && bytes > 0
      ensures sectors * bytes > 0
    {
    }

    lemma LastSectorEnd(sectors: nat, bytes: nat)
      requires sectors > 0
      ensures bytes + (sectors - 1) * bytes == sectors * bytes
    {
    }

    lemma ZeroPosition(bytes: nat)
      requires bytes > 0
      ensures Quotient(0, bytes) == 0 && Remainder(0, bytes) == 0 && 0 * bytes == 0
    {
    }

    /** The byte offset in the file where the handle's current cluster begins. */
    method CurrentClusterStart(ghost p: seq<nat>) returns (start: nat)
      requires Geometry(media) && Positioned(p)
      ensures start == CurrentIndex(p) * media.clusterBytes
      ensures p != [] ==> CurrentIndex(p) < |p| && currentCluster == p[CurrentIndex(p)]
    {
      OffsetInCluster(p);
      hide Positioned, Inside, Parked, Empty, Geometry, CurrentIndex, Quotient, Remainder;
      var inCluster: int := Remainder(currentOffset, media.clusterBytes);
      if inCluster == 0 {
        if currentOffset != 0 {
          inCluster := bytePosInSector + sectorPosInCluster * media.bytesPerSector;
        }
      }
      start := currentOffset - inCluster;
    }

    lemma LessWhole(n: nat, q: nat, r: nat, k: nat, d: nat)
      requires d > 0 && r < d && n == q * d + r && k * d <= n
      ensures Quotient(n - k * d, d) == q - k && Remainder(n - k * d, d) == r
    {
      QuotientOrder(k, 0, q, r, d);
      assert (q - k) * d == q * d - k * d;
      DivModUnique(n - k * d, d, q - k, r);
    }

    /** A number of whole clusters less is that many less in the quotient. */
    lemma LessClusters(target: nat, k: nat, cb: nat)
      requires cb > 0 && k * cb <= target
      ensures Quotient(target - k * cb, cb) == Quotient(target, cb) - k
      ensures Remainder(target - k * cb, cb) == Remainder(target, cb)
      ensures Quotient(k * cb, cb) == k
    {
      hide Quotient, Remainder;
      WholeRest(k, cb);
      WholeAndRest(target, cb);
      LessWhole(target, Quotient(target, cb), Remainder(target, cb), k, cb);
    }

    /** A seek point up to the slot that the search begins with is not beyond the target. */
    lemma PointNotBeyond(k: nat, step: nat, i: nat)
      requires step > 0 && i + 1 <= Quotient(k, step)
      ensures (i + 1) * step <= k
    {
      KeepOrder(i + 1, Quotient(k, step), step);
      assert k == Quotient(k, step) * step + Remainder(k, step);
    }

    /** The search for the closest seek point that is closer to the target than the place found so far. */
    method FindSeekPoint(target: nat, current: nat, forward: bool, ghost p: seq<nat>) returns (found: bool,
        cluster: nat, index: nat)
      requires Geometry(media) && SeekPointsValid(p) && seekPointsClusterStep != INVALID_CLUSTER
      requires media.clusterBytes > 0
      ensures found ==> index < |p| && cluster == p[index] && index <= Quotient(target, media.clusterBytes)
      ensures found && forward ==> current < index * media.clusterBytes
      ensures found ==> exists i :: 0 <= i < seekPointsClusters.Length && seekPointsClusters[i] != INVALID_CLUSTER
    {
      var step := seekPointsClusterStep;
      var i := Quotient(Quotient(target, media.clusterBytes), step) - 1;
      if i >= NUM_SEEKPOINTS_CACHED {
        i := NUM_SEEKPOINTS_CACHED - 1;
      }
      found, cluster, index := false, 0, 0;
      while i >= 0
        invariant -1 <= i < NUM_SEEKPOINTS_CACHED && i < Quotient(Quotient(target, media.clusterBytes), step) && !found
      {
        if seekPointsClusters[i] != INVALID_CLUSTER {
          assert IsPoint(seekPointsClusters[..][i], (i + 1) * step, p);
          PointNotBeyond(Quotient(target, media.clusterBytes), step, i);
          var offset := (i + 1) * step * media.clusterBytes;
          if !(forward && current >= offset) {
            found, cluster, index := true, seekPointsClusters[i], (i + 1) * step;
          }
          break;
        }
        i := i - 1;
      }
    }

    /** Where the walk begins, and how many clusters it takes: the handle's cluster or the file's first one, or a seek
        point that is closer. */
    method ChooseStart(target: nat, ghost p: seq<nat>) returns (clusters: nat, rest: nat, cluster: nat, index: nat)
      requires Geometry(media) && Positioned(p) && SeekPointsValid(p) && (p != [] ==> p[0] == startingCluster)
      requires (p == [] ==> target == 0)
      ensures media.clusterBytes > 0 && index + clusters == Quotient(target, media.clusterBytes)
      ensures rest == Remainder(target, media.clusterBytes)
      ensures if p == [] then clusters == 0 && cluster == currentCluster else index < |p| && cluster == p[index]
      ensures currentOffset == 0 && NoPoints() ==> index == 0
    {
      var cb := media.clusterBytes;
      var start := CurrentClusterStart(p);
      ghost var current := CurrentIndex(p);
      OffsetInCluster(p);
      AtStart(p);
      hide Positioned, SeekPointsValid, Geometry, CurrentIndex;
      var relative := target - start;
      if relative >= 0 {
        LessClusters(target, current, cb);
        clusters, rest, cluster, index :=
          Quotient(relative, cb), Remainder(relative, cb), currentCluster, Quotient(start, cb);
      } else {
        clusters, rest, cluster, index := Quotient(target, cb), Remainder(target, cb), startingCluster, 0;
      }
      if clusters > 0 && seekPointsClusterStep != INVALID_CLUSTER {
        var found, point, at := FindSeekPoint(target, start, relative >= 0, p);
        if found {
          PointBefore(target, at, cb);
          LessClusters(target, at, cb);
          clusters, cluster, index := Quotient(target - at * cb, cb), point, Quotient(at * cb, cb);
        }
      }
    }

    lemma AtStart(p: seq<nat>)
      requires Geometry(media) && Positioned(p)
      ensures p == [] || currentOffset == 0 ==> CurrentIndex(p) == 0
    {
      ClusterBytesPositive(media.sectorsPerCluster, media.bytesPerSector);
      ZeroPosition(media.clusterBytes);
    }

    lemma PointBefore(target: nat, k: nat, cb: nat)
      requires cb > 0 && k <= Quotient(target, cb)
      ensures k * cb <= target
    {
      KeepOrder(k, Quotient(target, cb), cb);
      assert target == Quotient(target, cb) * cb + Remainder(target, cb);
    }

    lemma StepPositive(p: seq<nat>)
      requires SeekPointsValid(p)
      ensures seekPointsClusterStep > 0 && seekPointsClusters.Length == NUM_SEEKPOINTS_CACHED
    {
    }

    /** Follows the chain over `clusters` links and fills seek points on the way. Following the last cluster's end mark
        with the last step leaves the walk at the end of that cluster. */
    method Walk(from: nat, fromIndex: nat, clusters: nat, ghost p: seq<nat>)
      returns (status: int, cluster: nat, parked: bool, ghost inRange: bool)
      requires Geometry(media) && IsFile(media, startingCluster, p) && SeekPointsValid(p)
      requires fromIndex + clusters < INVALID_CLUSTER
      requires clusters > 0 ==> fromIndex < |p| && from == p[fromIndex]
      modifies seekPointsClusters
      ensures SeekPointsValid(p) && KeepsPoints(old(seekPointsClusters[..]), seekPointsClusters[..])
      ensures FilledBetween(seekPointsClusters[..], seekPointsClusterStep, fromIndex, if fromIndex + clusters < |p|
              then fromIndex + clusters else |p| - 1)
      ensures seekPointsClusterStep > 0
      ensures inRange <==>
              SlotsInRange(seekPointsClusterStep, fromIndex, if fromIndex + clusters < |p| then fromIndex + clusters
                else |p| - 1)
      ensures clusters == 0 ==> status == SUCCESS && cluster == from && !parked
      ensures var k := fromIndex + clusters;
              clusters > 0 ==> (if k < |p| then status == SUCCESS && cluster == p[k] && !parked
                                else if k == |p| then status == SUCCESS && cluster == p[k - 1] && parked
                                else status == END_OF_FILE)
    {
      hide SeekPointsValid, IsFile, Media.Link, Media.Fat, Media.Valid;
      status, cluster, parked, inRange := SUCCESS, from, false, true;
      StepPositive(p);
      var index := fromIndex;
      var i := 0;
      while i < clusters
        invariant 0 <= i <= clusters && index == fromIndex + i && SeekPointsValid(p) && status == SUCCESS && !parked
        invariant KeepsPoints(old(seekPointsClusters[..]), seekPointsClusters[..])
        invariant FilledBetween(seekPointsClusters[..], seekPointsClusterStep, fromIndex, index)
        invariant seekPointsClusterStep > 0 && (inRange <==> SlotsInRange(seekPointsClusterStep, fromIndex, index))
        invariant Geometry(media) && IsFile(media, startingCluster, p)
        invariant if clusters > 0 then index < |p| && cluster == p[index] else cluster == from
      {
        LinkOnChain(media, startingCluster, p, index);
        var next := media.FindNextCluster(cluster);
        if next == END_OF_FILE && i == clusters - 1 {
          parked := true;
          break;
        }
        if next < 0 {
          status := next;
          break;
        }
        StepPositive(p);
        FilledNext(old(seekPointsClusters[..]), seekPointsClusters[..], seekPointsClusterStep, fromIndex, index, next);
        cluster := next;
        index := index + 1;
        ghost var ok := FillSeekPoint(index, cluster, p);
        inRange := inRange && ok;
        i := i + 1;
      }
    }

    function TargetOf(numBytes: int, whence: Whence): int
      reads this`currentOffset, this`fileSize
    {
      match whence
      case SeekSet => numBytes
      case SeekCur => numBytes + currentOffset
      case _ => SizeForSeek() + numBytes
    }

    /** The size of the file; that of a directory is the largest number. */
    function SizeForSeek(): nat
      reads this`fileSize
    {
      if directoryMode then 0x7fff_ffff else fileSize
    }

    function Clamped(target: int, size: nat): (t: nat)
      ensures t <= size && (0 <= target <= size ==> t == target)
    {
      if target < 0 then 0 else if target >= size then size else target
    }

    /** The handle after a successful walk. */
    method Arrive(target: nat, rest: nat, cluster: nat, parked: bool)
      requires Geometry(media) && media.clusterBytes > 0 && rest == Remainder(target, media.clusterBytes)
      modifies this`currentOffset, this`bytePosInSector, this`sectorPosInCluster, this`currentCluster
      modifies this`currentSector
      ensures currentOffset == target && currentCluster == cluster
      ensures currentSector == sectorPosInCluster + media.FirstSectorOfCluster(cluster)
      ensures var bps := media.bytesPerSector;
              if parked then sectorPosInCluster == media.sectorsPerCluster - 1 && bytePosInSector == bps
              else sectorPosInCluster == Quotient(rest, bps) && bytePosInSector == Remainder(rest, bps)
    {
      var bps := media.bytesPerSector;
      var sectors, remaining := Quotient(rest, bps), rest;
      if parked {
        sectors := media.sectorsPerCluster - 1;
        remaining := (sectors + 1) * bps;
        LastSectorEnd(media.sectorsPerCluster, bps);
      }
      RestInSector(rest, bps);
      currentOffset := target;
      bytePosInSector := remaining - sectors * bps;
      sectorPosInCluster := sectors;
      currentCluster := cluster;
      currentSector := sectorPosInCluster + media.FirstSectorOfCluster(currentCluster);
    }

    lemma RestInSector(rest: nat, bps: nat)
      requires bps > 0
      ensures rest - Quotient(rest, bps) * bps == Remainder(rest, bps)
    {
    }

    /** The outcome of seeking to `target`: the cluster, sector and byte that denote it; the end of the last cluster if
        only the clusters before that offset exist; an error if not even these do. */
    ghost predicate Sought(p: seq<nat>, target: nat, status: int)
      requires Geometry(media) && media.clusterBytes > 0
      reads this, media
    {
      var k := Quotient(target, media.clusterBytes);
      if p == [] || k <= |p|
      then && status == SUCCESS && currentOffset == target &&
        currentSector == sectorPosInCluster + media.FirstSectorOfCluster(currentCluster)
           && (if p == [] then Empty(p) else if k < |p| then Inside(p) else AtEnd(p))
      else status == END_OF_FILE
    }

    ghost predicate AtEnd(p: seq<nat>)
      reads this
    {
      |p| > 0 && currentCluster == p[|p| - 1] && sectorPosInCluster == media.sectorsPerCluster - 1 &&
        bytePosInSector == media.bytesPerSector
    }

    /** If the chain has a cluster for every byte up to the target, seeking succeeds, and the fields denote the
        target. */
    lemma SoughtInChain(p: seq<nat>, target: nat, status: int)
      requires Geometry(media) && media.clusterBytes > 0 && Sought(p, target, status)
      requires target <= |p| * media.clusterBytes
      ensures status == SUCCESS && currentOffset == target && Positioned(p)
    {
      var cb, k := media.clusterBytes, Quotient(target, media.clusterBytes);
      assert target == k * cb + Remainder(target, cb);
      CancelOrder(k, |p|, cb);
    }

    /** The fields give the current offset as whole clusters, whole sectors and bytes; the end of the chain is that of
        its last sector. */
    ghost predicate Denotes(p: seq<nat>)
      reads this
    {
      exists i: nat :: i < |p| && DenotesIn(p, i)
    }

    ghost predicate DenotesIn(p: seq<nat>, i: nat)
      requires i < |p|
      reads this
    {
      && currentCluster == p[i]
      && currentOffset == i * media.clusterBytes + sectorPosInCluster * media.bytesPerSector + bytePosInSector
      && sectorPosInCluster < media.sectorsPerCluster
      && (bytePosInSector < media.bytesPerSector ||
          (bytePosInSector == media.bytesPerSector && sectorPosInCluster == media.sectorsPerCluster - 1 &&
           i == |p| - 1))
    }

    lemma SoughtDenotes(p: seq<nat>, target: nat, status: int)
      requires Geometry(media) && media.clusterBytes > 0 && Sought(p, target, status)
      ensures status == SUCCESS <==> p == [] || target < |p| * media.clusterBytes + media.clusterBytes
      ensures status == SUCCESS ==> currentOffset == target
      ensures status == SUCCESS && p != [] && target <= |p| * media.clusterBytes ==> Denotes(p)
    {
      hide Quotient, Remainder, Media.Valid;
      var cb, bps, k, r := media.clusterBytes, media.bytesPerSector, Quotient(target, media.clusterBytes), Remainder(
        target, media.clusterBytes);
      DivMod(target, cb);
      OneMore(|p|, cb);
      if k <= |p| { KeepOrder(k, |p|, cb); } else { KeepOrder(|p| + 1, k, cb); }
      if p != [] && target <= |p| * cb {
        if k < |p| {
          DivMod(r, bps);
          OneMore(media.sectorsPerCluster - 1, bps);
          QuotientOrder(Quotient(r, bps), Remainder(r, bps), media.sectorsPerCluster - 1, bps - 1, bps);
          assert DenotesIn(p, k);
        } else {
          CancelOrder(k, |p|, cb);
          OneMore(k - 1, cb);
          LastSectorEnd(media.sectorsPerCluster, bps);
          assert DenotesIn(p, k - 1);
        }
      }
    }

    /** A seek has a place to go to for every offset up to the file's size. */
    ghost predicate Seekable(p: seq<nat>)
      requires Geometry(media)
      reads this, media, seekPointsClusters
    {
      IsFile(media, startingCluster, p) && Positioned(p) && SeekPointsValid(p) &&
        seekPointsBaseFileSize <= fileSize <= 0x7fff_ffff
    }

    /** Fseek_FAT: whatever the seek points hold, the handle comes to the clamped target exactly as a walk from the
        file's first cluster would. A walk beyond the end of the chain is reported and leaves the position as it was.
        The last result says whether the source would have filled only slots that exist: on a file's first seek, to
        its end, exactly if the slots suffice. */
    method Fseek(numBytes: int, whence: Whence, ghost p: seq<nat>) returns (status: int, ghost inRange: bool)
      requires Geometry(media) && Seekable(p)
      modifies this, seekPointsClusters
      ensures Geometry(media) && media.clusterBytes > 0
      ensures SeekPointsValid(p) && fileSize == old(fileSize) && startingCluster == old(startingCluster)
      ensures seekPointsBaseFileSize <= fileSize
      ensures if whence == Other then status == FSEEK_FAILED
              else Sought(p, Clamped(old(TargetOf(numBytes, whence)), old(SizeForSeek())), status)
      ensures status != SUCCESS ==>
              errorCode == status &&
                unchanged(`currentOffset, `currentCluster, `currentSector, `sectorPosInCluster, `bytePosInSector)
      ensures var size := if directoryMode then 0x7fff_ffff else fileSize;
              var n := match whence
                case SeekSet => numBytes
                case SeekCur => old(currentOffset) + numBytes
                case _ => size + numBytes;
              var target := if n < 0 then 0 else if n > size then size else n;
              && (status == SUCCESS <==>
                  whence != Other && (p == [] || target < |p| * media.clusterBytes + media.clusterBytes))
              && (status == SUCCESS ==>
                  currentOffset == target && (p != [] && target <= |p| * media.clusterBytes ==> Denotes(p)))
      ensures directoryMode || SlotsSuffice(fileSize, media.clusterBytes, |p|) ==> inRange
      ensures whence == SeekEnd && numBytes == 0 && !directoryMode &&
              old(currentOffset == 0 && seekPointsClusterStep == INVALID_CLUSTER) ==>
                (inRange <==> SlotsSuffice(fileSize, media.clusterBytes, |p|))
    {
      hide *;
      ReadyToSeek(p);
      ghost var empty := seekPointsClusterStep == INVALID_CLUSTER;
      Rescale(p);
      ReadyToSeek(p);
      TargetWritten(numBytes, whence);
      if whence == Other {
        errorCode := FSEEK_FAILED;
        status, inRange := FSEEK_FAILED, true;
      } else {
        var target := Clamped(TargetOf(numBytes, whence), SizeForSeek());
        TargetLimit(target, p);
        ghost var from;
        status, from, inRange := SeekTo(target, p);
        SoughtDenotes(p, target, status);
        if directoryMode {
          DirectoryInRange(target, media.clusterBytes, |p|, from);
        } else {
          InRangeOnTheWay(target, fileSize, media.clusterBytes, |p|, from);
        }
      }
    }

    lemma ReadyToSeek(p: seq<nat>)
      requires Geometry(media) && Seekable(p)
      ensures IsFile(media, startingCluster, p) && Positioned(p) && SeekPointsValid(p)
      ensures seekPointsBaseFileSize <= fileSize
      ensures media.clusterBytes > 1
    {
      OffsetInCluster(p);
      AtLeast(media.sectorsPerCluster, media.bytesPerSector);
    }

    lemma AtLeast(sectors: nat, bytes: nat)
      requires sectors > 0 && bytes > 1
      ensures sectors * bytes > 1
    {
    }

    lemma TargetLimit(target: nat, p: seq<nat>)
      requires Geometry(media) && Seekable(p) && media.clusterBytes > 1 && target <= SizeForSeek()
      ensures target <= 0x7fff_ffff && Quotient(target, media.clusterBytes) < INVALID_CLUSTER
      ensures (p == [] ==> target == 0)
      ensures !directoryMode ==> target <= fileSize
    {
    }

    /** The number to which the origin and the distance lead, limited to the file. */
    lemma TargetWritten(numBytes: int, whence: Whence)
      ensures SUCCESS != FSEEK_FAILED
      ensures var size := if directoryMode then 0x7fff_ffff else fileSize;
              var n := match whence
                case SeekSet => numBytes
                case SeekCur => currentOffset + numBytes
                case _ => size + numBytes;
              Clamped(TargetOf(numBytes, whence), SizeForSeek()) ==
              (if n < 0 then 0 else if n > size then size else n)
      ensures !directoryMode ==> SizeForSeek() == fileSize
    {
    }

    /** The part of Fseek_FAT that adapts the seek points to the file's size. */
    method Rescale(ghost p: seq<nat>)
      requires Geometry(media) && Seekable(p)
      modifies this`seekPointsClusterStep, this`seekPointsBaseFileSize, seekPointsClusters
      ensures Seekable(p) && media.clusterBytes > 0
      ensures seekPointsClusterStep == if directoryMode then INVALID_CLUSTER else StepFor(fileSize, media.clusterBytes)
      ensures old(seekPointsClusterStep) == INVALID_CLUSTER ==> NoPoints()
    {
      ReadyToSeek(p);
      hide IsFile, Positioned, PointsAt, StepFor;
      if !directoryMode {
        StepLimit(fileSize, media.clusterBytes);
        CalculateSeekPointStep(seekPointsBaseFileSize, fileSize, p);
        assert old(seekPointsClusterStep) == INVALID_CLUSTER ==> forall i ::
               0 <= i < seekPointsClusters.Length ==> seekPointsClusters[..][i] == INVALID_CLUSTER;
      }
    }

    /** The part of Fseek_FAT after the target has been computed. */
    method SeekTo(target: nat, ghost p: seq<nat>) returns (status: int, ghost from: nat, ghost inRange: bool)
      requires Geometry(media) && IsFile(media, startingCluster, p) && Positioned(p) && SeekPointsValid(p)
      requires media.clusterBytes > 0
      requires Quotient(target, media.clusterBytes) < INVALID_CLUSTER && (p == [] ==> target == 0)
      modifies this`currentOffset, this`bytePosInSector, this`sectorPosInCluster, this`currentCluster
      modifies this`currentSector, this`errorCode, seekPointsClusters
      ensures SeekPointsValid(p) && Sought(p, target, status)
      ensures seekPointsClusterStep > 0
      ensures (inRange <==> SlotsInRange(seekPointsClusterStep, from, Reach(target, media.clusterBytes, |p|)))
      ensures old(currentOffset == 0 && NoPoints()) ==> from == 0
      ensures status != SUCCESS ==>
              errorCode == status &&
                unchanged(`currentOffset, `currentCluster, `currentSector, `sectorPosInCluster, `bytePosInSector)
    {
      hide IsFile, Media.Valid, Media.Fat, Media.Link, PointsAt, SeekPointsValid, NoPoints, SlotsInRange;
      StartOfChain(media, startingCluster, p);
      var clusters, rest, cluster, index := ChooseStart(target, p);
      var parked;
      from := index;
      status, cluster, parked, inRange := Walk(cluster, index, clusters, p);
      if status < 0 {
        errorCode := status;
      } else {
        Arrive(target, rest, cluster, parked);
      }
    }
  }

  lemma StartOfChain(media: Media, start: nat, p: seq<nat>)
    requires media.Valid() && IsFile(media, start, p)
    ensures p != [] ==> p[0] == start
  {
  }

  lemma ClusterLimit(cb: nat)
    ensures cb > 0 ==> forall t: nat :: t <= 0x7fff_ffff && cb >= 2 ==> Quotient(t, cb) < INVALID_CLUSTER
  {
  }

  lemma StepLimit(size: nat, cb: nat)
    requires cb > 0 && size <= 0x7fff_ffff
    ensures StepFor(size, cb) < INVALID_CLUSTER
  {
  }
}
