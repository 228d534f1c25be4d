/** What happens behind a volume label that check-disk deletes at the beginning of a sector
    (filesystem/chkdsk/src/chkdsk.c): the records behind it in its sector are not looked at. */
module CheckDiskLabels {
  import opened Division
  import opened Chains
  import opened CheckDiskScan
  import opened CheckDiskWalk
  import opened CheckDiskRepair
  import opened CheckDiskStable
  import opened CheckDiskRoot

  /** A record that check-disk passes over. */
  predicate Quiet(r: Record) {
    r.Deleted? || r.Skipped?
  }

  ghost predicate QuietFrom(r: seq<Record>, i: nat, n: nat) {
    forall j :: i <= j < n && j < |r| ==> Quiet(r[j])
  }

  /** Passing over one record changes nothing but the buffer. */
  lemma QuietNext(v: Volume, w: Cursor, k: nat)
    requires Fits(v, w.s) && IsPlace(w.s.dirs, 0, k) && !w.last
    requires var l := Loading(v, w, 0, k); Quiet(Seen(v.perSector, v.front, l.dirs, l.buffer.held, k))
    ensures WalkNext(v, w, 0, k, 1) == Cursor(Loading(v, w, 0, k), false, w.stale && Remainder(k, v.perSector) != 0)
  {
    hide WalkDirectory, WalkFile, Drop, Seen;
  }

  /** Records that are looked at in their own sectors. */
  lemma {:induction false} OwnPassed(v: Volume, w: Cursor, i: nat, n: nat) returns (s: State)
    requires Fits(v, w.s) && |w.s.dirs| > 0 && i <= n <= |w.s.dirs[0]| && !w.last && QuietFrom(w.s.dirs[0], i, n)
    requires w.stale ==> Remainder(i, v.perSector) == 0 && i < n
    ensures s == w.s.(buffer := s.buffer)
    ensures WalkCluster(v, w, 0, i, 1) == WalkCluster(v, Cursor(s, false, false), 0, n, 1)
    decreases n - i
  {
    hide Seen, WalkNext, WellFormed, HasStop;
    if i == n {
      s := w.s;
    } else {
      var l := Loading(v, w, 0, i);
      OwnSeen(v, l, 0, i);
      QuietNext(v, w, i);
      s := OwnPassed(v, Cursor(l, false, false), i + 1, n);
    }
  }

  /** Records in front of which the buffer holds another sector: what is looked at is there. */
  lemma {:induction false} OtherPassed(v: Volume, s: State, m: nat, i: nat, n: nat)
    requires Fits(v, s) && |s.dirs| > 0 && i <= n <= |s.dirs[0]| && s.buffer.held == Sector(0, m)
    requires QuietFrom(s.dirs[0], m * v.perSector, m * v.perSector + v.perSector)
    requires forall j :: i <= j < n ==> Remainder(j, v.perSector) != 0
    ensures WalkCluster(v, Cursor(s, false, true), 0, i, 1) == WalkCluster(v, Cursor(s, false, true), 0, n, 1)
    decreases n - i
  {
    hide WalkNext, Usable;
    if i < n {
      QuietNext(v, Cursor(s, false, true), i);
      OtherPassed(v, s, m, i + 1, n);
    }
  }

  /** Long-name parts back to the beginning `b` of the sector, and another record in front of them. */
  lemma {:induction false} FoundBefore(v: Volume, dirs: Directories, b: nat, k: nat, n: nat)
    requires v.perSector > 0 && 0 < b <= k <= b + n && |dirs| > 0 && k <= |dirs[0]|
    requires (forall j :: b <= j < k ==> IsLong(dirs[0][j])) && !IsLong(dirs[0][b - 1])
    ensures NameSector(v, dirs, 0, k, n) == Sector(0, (b - 1) / v.perSector)
    decreases k
  {
    if k > b { FoundBefore(v, dirs, b, k - 1, n - 1); }
  }

  /** In the fixed root directory, index `k`, which is in sector `m + 1`, has a label with a start cluster; the next
      record in that sector is that of a file; and all others are deleted ones or skipped. */
  ghost predicate LabelAmong(v: Volume, dirs: Directories, m: nat, k: nat)
    requires v.perSector > 0
  {
    var b := (m + 1) * v.perSector;
    && |dirs| > 0 && b <= k <= b + MAX_ENTRIES_LONG_FILE_NAME && k + 1 < b + v.perSector && k + 1 < |dirs[0]|
    && dirs[0][k].VolumeLabel? && dirs[0][k].start != 0 && dirs[0][k + 1].File? && !IsLong(dirs[0][b - 1])
    && QuietFrom(dirs[0], 0, k) && QuietFrom(dirs[0], k + 2, |dirs[0]|)
  }

  /** There are only parts of long names in front of the label in its sector. */
  ghost predicate LabelInFront(v: Volume, dirs: Directories, m: nat, k: nat)
    requires v.perSector > 0
  {
    LabelAmong(v, dirs, m, k) && forall j :: (m + 1) * v.perSector <= j < k ==> IsLong(dirs[0][j])
  }

  /** Numbers of sectors and records. */
  lemma SectorBounds(m: nat, perSector: nat)
    requires perSector > 0
    ensures var b := (m + 1) * perSector;
            && b == m * perSector + perSector && b > 0 && (b - 1) / perSector == m && (b + perSector) % perSector == 0
            && forall j: nat :: b < j < b + perSector ==> Remainder(j, perSector) != 0
  {
    var b := (m + 1) * perSector;
    OneMore(m, perSector);
    OneMore(m + 1, perSector);
    DivModUnique(b - 1, perSector, m, perSector - 1);
    DivModUnique(b + perSector, perSector, m + 2, 0);
    forall j: nat | b < j < b + perSector ensures Remainder(j, perSector) != 0 {
      DivModUnique(j, perSector, m + 1, j - b);
    }
  }

  /** The label is deleted, and the sector in front of it is in the buffer then. */
  lemma LabelDropped(v: Volume, s: State, m: nat, k: nat)
    requires Fits(v, s) && LabelInFront(v, s.dirs, m, k)
    ensures var u := WalkNext(v, Cursor(s, false, false), 0, k, 1);
            && u == Cursor(u.s, false, true) && u.s.buffer.held == Sector(0, m) && u.s.marks == s.marks
            && u.s.corrupted == s.corrupted + 1 && u.s.dirs == s.dirs[0 := s.dirs[0][k := Erased(s.dirs[0][k])]]
  {
    hide WalkDirectory, WalkFile, LookBack, Usable, Loaded, Seen, NameSector;
    var l := LoadedFor(v, s, 0, k);
    OwnSeen(v, l, 0, k);
    SectorBounds(m, v.perSector);
    var b := (m + 1) * v.perSector;
    FoundBefore(v, s.dirs[0 := s.dirs[0][k := Erased(s.dirs[0][k])]], b, k, MAX_ENTRIES_LONG_FILE_NAME);
  }

  /** The file is not looked at. */
  lemma FilePassed(v: Volume, dirs: Directories, m: nat, k: nat)
    requires Usable(v) && |dirs| == |v.fat| && LabelInFront(v, dirs, m, k)
    ensures var t := WalkRoot(v, dirs, 0);
            t.marks == {0, 1} && t.corrupted == 1 && t.dirs == dirs[0 := dirs[0][k := Erased(dirs[0][k])]]
  {
    hide WalkRoot, WalkCluster, WalkNext, Usable, Erased;
    var ps, b := v.perSector, (m + 1) * v.perSector;
    FixedRoot(v, dirs);
    NoClusters(v.fat, v.end);
    SectorBounds(m, ps);
    var s := OwnPassed(v, Cursor(Reserved(v, dirs, 0), false, false), 0, k);
    LabelDropped(v, s, m, k);
    var d := WalkNext(v, Cursor(s, false, false), 0, k, 1).s;
    ClusterNext(v, Cursor(s, false, false), k);
    var e := if b + ps < |dirs[0]| then b + ps else |dirs[0]|;
    OtherPassed(v, d, m, k + 1, e);
    if e < |dirs[0]| {
      var t := OwnPassed(v, Cursor(d, false, true), e, |dirs[0]|);
      ClusterDone(v, Cursor(t, false, false));
    } else {
      ClusterDone(v, Cursor(d, false, true));
    }
  }

  lemma ClusterNext(v: Volume, w: Cursor, k: nat)
    requires Fits(v, w.s) && IsPlace(w.s.dirs, 0, k)
    ensures WalkCluster(v, w, 0, k, 1) == WalkCluster(v, WalkNext(v, w, 0, k, 1), 0, k + 1, 1)
  {
    hide WalkNext;
  }

  lemma ClusterDone(v: Volume, w: Cursor)
    requires Fits(v, w.s) && |w.s.dirs| > 0
    ensures WalkCluster(v, w, 0, |w.s.dirs[0]|, 1) == w
  {
  }

  /** A fixed root directory with such a label loses the cluster of the file behind it, whose record stays in place. */
  lemma LabelLoses(v: Volume, dirs: Directories, m: nat, k: nat)
    requires Usable(v) && |dirs| == |v.fat| && LabelInFront(v, dirs, m, k)
    requires var f := dirs[0][k + 1].start; Ends(v.fat, v.end, f) && f < |v.fat| - 1
    ensures InFront(v, dirs, 0) && !StaysInSector(v, dirs, 0, k, true) && !Keeps(v, dirs, 0)
    ensures var t, f := WalkRoot(v, dirs, 0), dirs[0][k + 1].start;
            t.dirs[0][k + 1] == dirs[0][k + 1] && Survives(v, t.dirs, 0, 1, At(0, k + 1)) && RepairedFat(v, t)[f] == 0
  {
    hide WalkRoot, NameSector, Keeps, HasStop, Survives;
    FilePassed(v, dirs, m, k);
    var t, f := WalkRoot(v, dirs, 0), dirs[0][k + 1].start;
    LastOfChain(v.fat, v.end, f, Chain(v.fat, v.end, f), 0);
    SectorBounds(m, v.perSector);
    FoundBefore(v, dirs, (m + 1) * v.perSector, k, MAX_ENTRIES_LONG_FILE_NAME);
    OwnSector(m, v.perSector, k);
    FileSurvives(v, t.dirs, k + 1);
    ZeroEndsNothing(v, RepairedFat(v, t), f);
    RecordNotKept(v, dirs, k + 1);
  }

  lemma OwnSector(m: nat, perSector: nat, k: nat)
    requires perSector > 0 && (m + 1) * perSector <= k < (m + 1) * perSector + perSector
    ensures k / perSector == m + 1
  {
    DivModUnique(k, perSector, m + 1, k - (m + 1) * perSector);
  }

  lemma FileSurvives(v: Volume, dirs: Directories, k: nat)
    requires IsRecord(dirs, 0, k)
    ensures Survives(v, dirs, 0, 1, At(0, k))
  {
    assert DirClusters(v, 0)[0] == 0;
    assert Under(v, dirs, 0, k, 1, At(0, k));
  }

  lemma RecordNotKept(v: Volume, dirs: Directories, k: nat)
    requires Usable(v) && |dirs| == |v.fat|
    requires var t := WalkRoot(v, dirs, 0);
             && IsRecord(t.dirs, 0, k) && Survives(v, t.dirs, 0, 1, At(0, k)) &&
                !ChainStays(v, RepairedFat(v, t), t.dirs[0][k].start)
    ensures !Keeps(v, dirs, 0)
  {
    hide WalkRoot, Survives, ChainStays;
  }

  /** Any other record there is enough to keep it. */
  lemma LabelKept(v: Volume, dirs: Directories, m: nat, k: nat, j: nat)
    requires Usable(v) && |dirs| == |v.fat| && LabelAmong(v, dirs, m, k)
    requires (m + 1) * v.perSector <= j < k && !IsLong(dirs[0][j])
    ensures Rooted(v, dirs, 0)
  {
    hide Calm, NameSector, HasStop, DirClusters, LabelAmong;
    LabelBounds(v, dirs, m, k);
    OwnSector(m, v.perSector, j);
    OwnSector(m, v.perSector, k);
    NameInSector(v, dirs, 0, k, MAX_ENTRIES_LONG_FILE_NAME, j);
    OneLabelCalm(v, dirs, m, k);
    FixedPath(v);
  }

  lemma LabelBounds(v: Volume, dirs: Directories, m: nat, k: nat)
    requires v.perSector > 0 && LabelAmong(v, dirs, m, k)
    ensures IsPlace(dirs, 0, k) && (m + 1) * v.perSector <= k < (m + 1) * v.perSector + v.perSector
  {
  }

  lemma FixedPath(v: Volume)
    requires |v.fat| > 0
    ensures ReadClusters(v, 0, 0) == [0]
  {
  }

  lemma OneLabelCalm(v: Volume, dirs: Directories, m: nat, k: nat)
    requires v.perSector > 0 && LabelAmong(v, dirs, m, k) && StaysInSector(v, dirs, 0, k, true)
    ensures Calm(v, dirs, [0], 1)
  {
    hide StaysInSector;
    forall n: nat | IsPlace(dirs, 0, n) ensures CalmRecord(v, dirs, 0, n, true, 1) {
      assert n < k || n == k || n == k + 1 || n >= k + 2;
    }
  }

  /** So on such directories the condition that misplaced labels stay in their sectors is exact. */
  lemma KeptExactlyCalm(v: Volume, dirs: Directories, m: nat, k: nat)
    requires Usable(v) && |dirs| == |v.fat| && LabelAmong(v, dirs, m, k)
    requires var f := dirs[0][k + 1].start; Ends(v.fat, v.end, f) && f < |v.fat| - 1
    ensures Keeps(v, dirs, 0) <==> LabelsCalm(v, dirs, 0)
    ensures LabelsCalm(v, dirs, 0) <==> exists j: nat :: (m + 1) * v.perSector <= j < k && !IsLong(dirs[0][j])
  {
    hide Keeps, HasStop, StaysInSector;
    if j: nat :| (m + 1) * v.perSector <= j < k && !IsLong(dirs[0][j]) {
      LabelKept(v, dirs, m, k, j);
      RootKept(v, dirs, 0);
    } else {
      LabelLoses(v, dirs, m, k);
      assert ReadClusters(v, 0, 0)[0] == 0;
      assert IsPlace(dirs, ReadClusters(v, 0, 0)[0], k) && Misplaced(dirs[0][k], 1);
    }
  }
}
