/** What check-disk's scan leaves alone (filesystem/chkdsk/src/chkdsk.c): records that are in order are not changed,
    and after a repair they are in order, so that a second scan changes nothing. All this is about the records as
    they are seen through the directory buffer; `CheckDiskDevice` says when the device has them. */
module CheckDiskStable {
  import opened Chains
  import opened CheckDiskScan
  import opened CheckDiskWalk
  import opened CheckDiskRepair

  // ------------------------------------------------------------------ volumes in order

  /** A record that check-disk has no reason to delete, as far as it does not collide with others. */
  ghost predicate Good(v: Volume, r: Record, level: nat) {
    match r
    case Directory(start, _) => start in v.signed && Ends(v.fat, v.end, start)
    case File(start, size) =>
      (start == 0 && size == 0) ||
      (start != 0 && size != 0 && Ends(v.fat, v.end, start) &&
        var n := |Chain(v.fat, v.end, start)|;
        size == n || (n - 1) * v.clusterBytes <= size < (n + 1) * v.clusterBytes)
    case VolumeLabel(start, _) => level == 1 && start == 0
    case _ => true
  }

  /** The end of the directory has been seen before index `k` or is in the records from `k` on. */
  ghost predicate SeesEnd(r: seq<Record>, k: nat, last: bool) {
    last || exists j :: k <= j < |r| && r[j].End?
  }

  /** From index `k` on nothing but ends follow an end. */
  ghost predicate TidyCluster(r: seq<Record>, k: nat, last: bool) {
    forall j :: k <= j < |r| && (last || exists i :: k <= i < j && r[i].End?) ==> r[j].End?
  }

  ghost predicate TidyPath(dirs: Directories, path: seq<nat>, i: nat, last: bool)
    requires i <= |path| && forall j :: 0 <= j < |path| ==> path[j] < |dirs|
    decreases |path| - i
  {
    i == |path| || (TidyCluster(dirs[path[i]], 0, last) && TidyPath(dirs, path, i + 1, SeesEnd(dirs[path[i]], 0, last)))
  }

  /** The record at (c, k) is good, and so is everything below it. */
  ghost predicate RecordGood(v: Volume, dirs: Directories, c: nat, k: nat, level: nat)
    requires level <= MAX_NESTING_LEVEL && |dirs| == |v.fat| > 0
    decreases MAX_NESTING_LEVEL + 1 - level, 0
  {
    IsPlace(dirs, c, k) && Good(v, dirs[c][k], level) &&
    (dirs[c][k].Directory? ==> GoodTree(v, dirs, dirs[c][k].start, level + 1))
  }

  /** All records of a directory are good, nothing but ends follow its end, and so on below it. */
  ghost predicate GoodTree(v: Volume, dirs: Directories, start: nat, level: nat)
    requires level <= MAX_NESTING_LEVEL + 1 && |dirs| == |v.fat| > 0
    decreases MAX_NESTING_LEVEL + 1 - level, 1
  {
    level <= MAX_NESTING_LEVEL ==>
      && TidyPath(dirs, DirClusters(v, start), 0, false)
      && (forall c: nat, k: nat ::
         c in DirClusters(v, start) && IsPlace(dirs, c, k) ==> RecordGood(v, dirs, c, k, level))
  }

  ghost predicate GoodFrom(v: Volume, dirs: Directories, c: nat, k: nat, level: nat)
    requires level <= MAX_NESTING_LEVEL && |dirs| == |v.fat| > 0
  {
    forall j: nat :: j >= k && IsPlace(dirs, c, j) ==> RecordGood(v, dirs, c, j, level)
  }

  ghost predicate GoodRest(v: Volume, dirs: Directories, path: seq<nat>, i: nat, level: nat)
    requires level <= MAX_NESTING_LEVEL && |dirs| == |v.fat| > 0
  {
    forall j :: i <= j < |path| ==> GoodFrom(v, dirs, path[j], 0, level)
  }

  // ------------------------------------------------------------------ nothing changes

  /** The owners found so far are among `all`, whose chains share no cluster. */
  ghost predicate Among(v: Volume, owners: Owners, all: Owners) {
    Disjoint(v, all) && forall p :: p in owners ==> p in all && all[p] == owners[p]
  }

  ghost predicate Listed(dirs: Directories, all: Owners, p: Place) {
    p in all && Placed(dirs, p, all[p])
  }

  lemma StillAmong(v: Volume, s: State, t: State, owners: Owners, owners': Owners, region: set<nat>, all: Owners)
    requires Step(v, s, t, owners, owners', region) && Among(v, owners, all)
    requires forall p :: Added(owners, owners', p) ==> Listed(t.dirs, all, p)
    ensures Among(v, owners', all)
  {
    forall p | p in owners' ensures p in all && all[p] == owners'[p] {
      if p !in owners { assert Added(owners, owners', p); }
    }
  }

  /** A chain of its own can be marked. */
  lemma OwnChain(v: Volume, owners: Owners, all: Owners, marks: set<nat>, p: Place)
    requires Owned(v, owners, marks) && Among(v, owners, all) && p in all && p !in owners && Ends(v.fat, v.end, all[p])
    ensures Acceptable(v, marks, all[p])
  {
    forall x | x in Clusters(v.fat, v.end, all[p]) ensures x !in marks {
      ClustersInside(v, all[p]);
      forall q | q in owners ensures x !in Clusters(v.fat, v.end, owners[q]) { assert q in all && q != p; }
      assert !OwnedBy(v, owners, x);
    }
  }

  /** Which records are good, and when a good file can stay. */
  lemma GoodMeans(v: Volume, r: Record, level: nat, marks: set<nat>)
    requires v.clusterBytes > 0
    ensures match r
            case Directory(start, _) => Good(v, r, level) <==> start in v.signed && Ends(v.fat, v.end, start)
            case File(start, size) =>
              (FileFits(v, marks, start, size) <==> Good(v, r, level) && (start != 0 ==> Acceptable(v, marks, start)))
              && (Good(v, r, level) && start != 0 ==> Ends(v.fat, v.end, start))
            case VolumeLabel(start, _) => Good(v, r, level) <==> level == 1 && start == 0
            case _ => Good(v, r, level)
  {
    hide Ends, Chain, SizeFits;
    if r.File? && Ends(v.fat, v.end, r.start) { SizeInBytes(v, r.size, |Chain(v.fat, v.end, r.start)|); }
  }

  lemma {:induction false} RecordKept(v: Volume, s: State, c: nat, k: nat, level: nat, me: Place, owners: Owners,
      all: Owners)
    requires Scanning(v, s, owners, me, c) && k < |s.dirs[c]| && level <= MAX_NESTING_LEVEL && At(c, k) !in owners
    requires RecordGood(v, s.dirs, c, k, level) && Among(v, owners, all)
    requires forall p :: Under(v, s.dirs, c, k, level, p) ==> Listed(s.dirs, all, p)
    ensures var t := ScanRecord(v, s, c, k, level); t.dirs == s.dirs && t.corrupted == s.corrupted
    decreases MAX_NESTING_LEVEL + 1 - level, 1
  {
    hide Good, FileFits;
    var r := s.dirs[c][k];
    GoodMeans(v, r, level, s.marks);
    if HasChain(r) {
      assert Under(v, s.dirs, c, k, level, At(c, k));
      assert all[At(c, k)] == r.start;
      OwnChain(v, owners, all, s.marks, At(c, k));
      if r.Directory? {
        DirectoryKept(v, s, c, k, level, me, owners, all);
      }
    }
  }

  lemma {:induction false} DirectoryKept(v: Volume, s: State, c: nat, k: nat, level: nat, me: Place, owners: Owners,
      all: Owners)
    requires Scanning(v, s, owners, me, c) && k < |s.dirs[c]| && level <= MAX_NESTING_LEVEL && At(c, k) !in owners
    requires RecordGood(v, s.dirs, c, k, level) && Among(v, owners, all)
    requires forall p :: Under(v, s.dirs, c, k, level, p) ==> Listed(s.dirs, all, p)
    requires s.dirs[c][k].Directory? && s.dirs[c][k].start in v.signed && Acceptable(v, s.marks, s.dirs[c][k].start)
    ensures var t := ScanRecord(v, s, c, k, level); t.dirs == s.dirs && t.corrupted == s.corrupted
    decreases MAX_NESTING_LEVEL + 1 - level, 0
  {
    hide *;
    Descend(v, s, c, k, me, owners);
    DirectoryScanned(v, s, c, k, level);
    SizesAgree(v, s);
    BelowListed(v, s, c, k, level, owners, all);
    var start := s.dirs[c][k].start;
    TreeKept(v, Descended(v, s, start), level + 1, At(c, k), owners[At(c, k) := start], all);
  }

  lemma SizesAgree(v: Volume, s: State)
    requires Fits(v, s)
    ensures |s.dirs| == |v.fat| > 0
  {
    hide HasStop;
  }

  lemma BelowListed(v: Volume, s: State, c: nat, k: nat, level: nat, owners: Owners, all: Owners)
    requires level <= MAX_NESTING_LEVEL && |s.dirs| == |v.fat| > 0 && Among(v, owners, all)
    requires RecordGood(v, s.dirs, c, k, level)
    requires c < |s.dirs| && k < |s.dirs[c]| && s.dirs[c][k].Directory? && v.perSector > 0
    requires forall p :: Under(v, s.dirs, c, k, level, p) ==> Listed(s.dirs, all, p)
    ensures var start := s.dirs[c][k].start;
            var m := Descended(v, s, start);
            && Among(v, owners[At(c, k) := start], all) && m.dirs == s.dirs && m.corrupted == s.corrupted
            && GoodTree(v, m.dirs, start, level + 1)
            && (forall q :: Survives(v, m.dirs, start, level + 1, q) ==> Listed(m.dirs, all, q))
  {
    var start := s.dirs[c][k].start;
    assert Under(v, s.dirs, c, k, level, At(c, k));
    forall q | Survives(v, s.dirs, start, level + 1, q) ensures Listed(s.dirs, all, q) {
      assert Under(v, s.dirs, c, k, level, q);
    }
  }

  lemma {:induction false} ClusterKeptWhole(v: Volume, s: State, c: nat, k: nat, last: bool, level: nat, me: Place,
      owners: Owners, all: Owners)
    requires Scanning(v, s, owners, me, c) && k <= |s.dirs[c]| && level <= MAX_NESTING_LEVEL && VacantFrom(owners, c, k)
    requires GoodFrom(v, s.dirs, c, k, level) && TidyCluster(s.dirs[c], k, last) && Among(v, owners, all)
    requires forall p :: UnderFrom(v, s.dirs, c, k, level, p) ==> Listed(s.dirs, all, p)
    ensures var t := ScanCluster(v, s, c, k, last, level);
            t.0.dirs == s.dirs && t.0.corrupted == s.corrupted && t.1 == SeesEnd(s.dirs[c], k, last)
    decreases MAX_NESTING_LEVEL + 1 - level, 3, |s.dirs[c]| - k
  {
    hide *;
    ScanClusterStep(v, s, c, k, last, level, me, owners);
    if k == |s.dirs[c]| {
      NothingLeft(v, s, c, last, level);
    } else {
      NextRecord(v, s, c, k, last, level, all);
      var m := ScanNext(v, s, c, k, last, level);
      NextKept(v, s, c, k, last, level, me, owners, all);
      var o := NextOwned(v, s, c, k, last, level, me, owners);
      ReadyForNext(v, s, m, owners, o, c, k, level, me);
      RecordAmong(v, s, m, owners, o, c, k, level, all);
      ClusterKeptWhole(v, m, c, k + 1, last || s.dirs[c][k].End?, level, me, o, all);
    }
  }

  lemma {:induction false} NextKept(v: Volume, s: State, c: nat, k: nat, last: bool, level: nat, me: Place,
      owners: Owners, all: Owners)
    requires Scanning(v, s, owners, me, c) && k < |s.dirs[c]| && level <= MAX_NESTING_LEVEL && VacantFrom(owners, c, k)
    requires RecordGood(v, s.dirs, c, k, level) && Among(v, owners, all) && (last ==> s.dirs[c][k].End?)
    requires forall p :: Under(v, s.dirs, c, k, level, p) ==> Listed(s.dirs, all, p)
    ensures var t := ScanNext(v, s, c, k, last, level); t.dirs == s.dirs && t.corrupted == s.corrupted
    decreases MAX_NESTING_LEVEL + 1 - level, 2
  {
    hide *;
    NextLoaded(v, s, c, k, last, level, me, owners);
    if s.dirs[c][k].End? {
      EndStays(s.dirs, c, k);
    } else {
      VacantAt(owners, c, k);
      RecordKept(v, LoadedFor(v, s, c, k), c, k, level, me, owners, all);
    }
  }

  lemma EndStays(dirs: Directories, c: nat, k: nat)
    requires IsPlace(dirs, c, k) && dirs[c][k].End?
    ensures dirs[c := dirs[c][k := Ended(dirs[c][k])]] == dirs
  {
    assert dirs[c][k := Ended(dirs[c][k])] == dirs[c];
  }

  lemma RecordAmong(v: Volume, s: State, m: State, owners: Owners, o: Owners, c: nat, k: nat, level: nat, all: Owners)
    requires level <= MAX_NESTING_LEVEL && RecordStep(v, s, m, owners, o, c, k, level) && Among(v, owners, all)
    requires forall p :: Under(v, m.dirs, c, k, level, p) ==> Listed(m.dirs, all, p)
    ensures Among(v, o, all)
  {
    StillAmong(v, s, m, owners, o, {c}, all);
  }

  /** What is known about the records of a cluster is known about the first of them and the rest. */
  lemma NextRecord(v: Volume, s: State, c: nat, k: nat, last: bool, level: nat, all: Owners)
    requires Fits(v, s) && c < |s.dirs| && k < |s.dirs[c]| && level <= MAX_NESTING_LEVEL
    requires GoodFrom(v, s.dirs, c, k, level) && TidyCluster(s.dirs[c], k, last)
    requires forall p :: UnderFrom(v, s.dirs, c, k, level, p) ==> Listed(s.dirs, all, p)
    ensures RecordGood(v, s.dirs, c, k, level) && GoodFrom(v, s.dirs, c, k + 1, level)
    ensures forall p :: Under(v, s.dirs, c, k, level, p) ==> Listed(s.dirs, all, p)
    ensures forall p :: UnderFrom(v, s.dirs, c, k + 1, level, p) ==> Listed(s.dirs, all, p)
    ensures var end := s.dirs[c][k].End?;
            && (last ==> end) && TidyCluster(s.dirs[c], k + 1, end)
            && (SeesEnd(s.dirs[c], k, last) <==> SeesEnd(s.dirs[c], k + 1, end))
  {
    assert IsPlace(s.dirs, c, k);
    hide Under, RecordGood;
    forall p
      ensures UnderFrom(v, s.dirs, c, k, level, p) <==>
              Under(v, s.dirs, c, k, level, p) || UnderFrom(v, s.dirs, c, k + 1, level, p)
    {
      FromNext(v, s.dirs, c, k, level, p);
    }
  }

  lemma {:induction false} ClustersKept(v: Volume, s: State, path: seq<nat>, i: nat, last: bool, level: nat, me: Place,
      owners: Owners, all: Owners)
    requires Fits(v, s) && Owned(v, owners, s.marks) && me in owners && path == DirClusters(v, owners[me])
    requires NoRepeat(path)
    requires i <= |path| && level <= MAX_NESTING_LEVEL && VacantRest(owners, path, i) && Inside(v, path)
    requires GoodRest(v, s.dirs, path, i, level) && TidyPath(s.dirs, path, i, last) && Among(v, owners, all)
    requires forall p :: UnderRest(v, s.dirs, path, i, level, p) ==> Listed(s.dirs, all, p)
    ensures var t := ScanClusters(v, s, path, i, last, level); t.dirs == s.dirs && t.corrupted == s.corrupted
    decreases MAX_NESTING_LEVEL + 1 - level, 4, |path| - i
  {
    hide *;
    ScanClustersStep(v, s, path, i, last, level, me, owners);
    if i < |path| {
      var c, m := path[i], ScanCluster(v, s, path[i], 0, last, level);
      NextCluster(v, s, path, i, last, level, all);
      ClusterKeptWhole(v, s, c, 0, last, level, me, owners, all);
      var o := ClusterOwned(v, s, c, 0, last, level, me, owners);
      ReadyForRest(v, s, m.0, owners, o, path, i, level, me);
      ClusterAmong(v, s, m.0, owners, o, c, level, all);
      ClustersKept(v, m.0, path, i + 1, m.1, level, me, o, all);
    }
  }

  lemma ClusterAmong(v: Volume, s: State, m: State, owners: Owners, o: Owners, c: nat, level: nat, all: Owners)
    requires level <= MAX_NESTING_LEVEL && ClusterStepped(v, s, m, owners, o, c, 0, level) && Among(v, owners, all)
    requires forall p :: UnderFrom(v, m.dirs, c, 0, level, p) ==> Listed(m.dirs, all, p)
    ensures Among(v, o, all)
  {
    StillAmong(v, s, m, owners, o, {c}, all);
  }

  /** What is known about the clusters of a directory is known about the first of them and the rest. */
  lemma NextCluster(v: Volume, s: State, path: seq<nat>, i: nat, last: bool, level: nat, all: Owners)
    requires Fits(v, s) && i < |path| && level <= MAX_NESTING_LEVEL && Inside(v, path)
    requires GoodRest(v, s.dirs, path, i, level) && TidyPath(s.dirs, path, i, last)
    requires forall p :: UnderRest(v, s.dirs, path, i, level, p) ==> Listed(s.dirs, all, p)
    ensures GoodFrom(v, s.dirs, path[i], 0, level) && GoodRest(v, s.dirs, path, i + 1, level)
    ensures TidyCluster(s.dirs[path[i]], 0, last) && TidyPath(s.dirs, path, i + 1, SeesEnd(s.dirs[path[i]], 0, last))
    ensures forall p :: UnderFrom(v, s.dirs, path[i], 0, level, p) ==> Listed(s.dirs, all, p)
    ensures forall p :: UnderRest(v, s.dirs, path, i + 1, level, p) ==> Listed(s.dirs, all, p)
  {
    hide UnderFrom, GoodFrom;
    forall p
      ensures UnderRest(v, s.dirs, path, i, level, p) <==>
              UnderFrom(v, s.dirs, path[i], 0, level, p) || UnderRest(v, s.dirs, path, i + 1, level, p)
    {
      RestNext(v, s.dirs, path, i, level, p);
    }
  }

  /** Scanning a directory in order whose records, with all below, have chains that share no cluster changes no
      record. */
  lemma {:induction false} TreeKept(v: Volume, s: State, level: nat, me: Place, owners: Owners, all: Owners)
    requires Fits(v, s) && Owned(v, owners, s.marks) && me in owners && level <= MAX_NESTING_LEVEL + 1
    requires forall q :: q in owners && q.At? ==> q.cluster !in DirClusters(v, owners[me])
    requires GoodTree(v, s.dirs, owners[me], level) && Among(v, owners, all)
    requires forall p :: Survives(v, s.dirs, owners[me], level, p) ==> Listed(s.dirs, all, p)
    ensures var t := ScanTree(v, s, owners[me], level); t.dirs == s.dirs && t.corrupted == s.corrupted
    decreases MAX_NESTING_LEVEL + 1 - level, 5
  {
    if level <= MAX_NESTING_LEVEL {
      var path := DirClusters(v, owners[me]);
      if owners[me] != 0 { ChainNoRepeat(v.fat, v.end, owners[me], path); }
      forall p | UnderRest(v, s.dirs, path, 0, level, p)
        ensures Listed(s.dirs, all, p)
      {
        AllUnder(v, s.dirs, owners[me], level, p);
      }
      ClustersKept(v, s, path, 0, false, level, me, owners, all);
    }
  }

  /** Every record is good, and the chains of the root and of all records share no cluster. */
  ghost predicate InOrder(v: Volume, dirs: Directories, root: nat, all: Owners)
    requires |dirs| == |v.fat| > 0
  {
    && GoodTree(v, dirs, root, 1) && Root in all && all[Root] == root && Disjoint(v, all)
    && (forall p :: Survives(v, dirs, root, 1, p) ==> Listed(dirs, all, p))
  }

  /** Among good records there is no label that check-disk deletes. */
  lemma {:induction false} GoodIsCalm(v: Volume, dirs: Directories, start: nat, level: nat)
    requires level <= MAX_NESTING_LEVEL + 1 && |dirs| == |v.fat| > 0 && v.perSector > 0
    requires GoodTree(v, dirs, start, level)
    ensures Calm(v, dirs, DirClusters(v, start), level)
    decreases MAX_NESTING_LEVEL + 1 - level
  {
    hide StaysInSector, TidyPath;
    if level <= MAX_NESTING_LEVEL {
      var path := DirClusters(v, start);
      forall i, k: nat | 0 <= i < |path| && IsPlace(dirs, path[i], k)
        ensures CalmRecord(v, dirs, path[i], k, i == 0, level)
      {
        assert RecordGood(v, dirs, path[i], k, level);
        if dirs[path[i]][k].Directory? { GoodIsCalm(v, dirs, dirs[path[i]][k].start, level + 1); }
      }
    }
  }

  lemma OrderIsRooted(v: Volume, dirs: Directories, root: nat, all: Owners)
    requires InFront(v, dirs, root) && InOrder(v, dirs, root, all)
    ensures Rooted(v, dirs, root)
  {
    hide Calm, GoodTree;
    GoodIsCalm(v, dirs, root, 1);
    var p := DirClusters(v, root);
    assert p[0 := root] == p;
  }

  /** On a volume in order check-disk deletes no record. */
  lemma InOrderKept(v: Volume, dirs: Directories, root: nat, all: Owners)
    requires InFront(v, dirs, root) && InOrder(v, dirs, root, all)
    ensures var t := WalkRoot(v, dirs, root); t.dirs == dirs && t.corrupted == 0
  {
    hide WalkRoot, ScanTree, Calm, GoodTree;
    OrderIsRooted(v, dirs, root, all);
    RootedRead(v, dirs, root);
    RootOwned(v, root);
    RootWalked(v, dirs, root);
    TreeKept(v, Reserved(v, dirs, root), 1, Root, map[Root := root], all);
  }

  // ------------------------------------------------------------------ the scan puts records in order

  /** Whether a directory is good depends only on the clusters of the directories involved. */
  lemma {:induction false} GoodFrame(v: Volume, dirs: Directories, dirs': Directories, start: nat, level: nat,
      changed: set<nat>)
    requires level <= MAX_NESTING_LEVEL + 1 && |dirs| == |v.fat| > 0 && Apart(v, dirs, start, level, changed)
    requires SameExcept(dirs, dirs', changed)
    requires GoodTree(v, dirs, start, level)
    ensures GoodTree(v, dirs', start, level)
    decreases MAX_NESTING_LEVEL + 1 - level
  {
    if level <= MAX_NESTING_LEVEL {
      TidyFrame(dirs, dirs', DirClusters(v, start), 0, false, changed);
      forall c: nat, k: nat | c in DirClusters(v, start) && IsPlace(dirs', c, k)
        ensures RecordGood(v, dirs', c, k, level)
      {
        assert IsPlace(dirs, c, k) && dirs'[c] == dirs[c];
        if dirs[c][k].Directory? {
          ApartBelow(v, dirs, start, level, changed, c, k);
          GoodFrame(v, dirs, dirs', dirs[c][k].start, level + 1, changed);
        }
      }
    }
  }

  lemma {:induction false} TidyFrame(dirs: Directories, dirs': Directories, path: seq<nat>, i: nat, last: bool,
      changed: set<nat>)
    requires i <= |path| && (forall j :: 0 <= j < |path| ==> path[j] < |dirs|) && SameExcept(dirs, dirs', changed)
    requires (forall j :: i <= j < |path| ==> path[j] !in changed) && TidyPath(dirs, path, i, last)
    ensures TidyPath(dirs', path, i, last)
    decreases |path| - i
  {
    if i < |path| {
      TidyFrame(dirs, dirs', path, i + 1, SeesEnd(dirs[path[i]], 0, last), changed);
    }
  }

  /** A record that has been dealt with stays good whatever comes later. */
  lemma StaysGood(v: Volume, s: State, m: State, t: State, owners: Owners, o: Owners, region: set<nat>, me: Place,
      c: nat, k: nat, level: nat, changed: set<nat>)
    requires Step(v, s, m, owners, o, region) && me in owners && level <= MAX_NESTING_LEVEL && |m.dirs| == |v.fat| > 0
    requires forall p :: Under(v, m.dirs, c, k, level, p) ==> Added(owners, o, p)
    requires forall x :: x in changed && x in m.marks ==> x in DirClusters(v, owners[me])
    requires SameExcept(m.dirs, t.dirs, changed) && c < |m.dirs| && k < |m.dirs[c]| && t.dirs[c][k] == m.dirs[c][k]
    requires RecordGood(v, m.dirs, c, k, level)
    ensures RecordGood(v, t.dirs, c, k, level)
  {
    hide Step, Under, Added, GoodTree, Apart;
    if m.dirs[c][k].Directory? {
      BelowApart(v, s, m, owners, o, region, me, c, k, level, changed);
      GoodFrame(v, m.dirs, t.dirs, m.dirs[c][k].start, level + 1, changed);
    }
  }

  lemma {:induction false} RecordPutRight(v: Volume, s: State, c: nat, k: nat, level: nat, me: Place, owners: Owners)
    requires Scanning(v, s, owners, me, c) && k < |s.dirs[c]| && level <= MAX_NESTING_LEVEL && At(c, k) !in owners
    ensures var t := ScanRecord(v, s, c, k, level);
            |t.dirs| == |v.fat| > 0 && RecordGood(v, t.dirs, c, k, level) && (t.dirs[c][k].End? ==> s.dirs[c][k].End?)
    decreases MAX_NESTING_LEVEL + 1 - level, 1
  {
    hide ScanTree, GoodTree, Owned, Clusters, DirClusters, HasStop, WellFormed, Good, FileFits;
    ScanningMarked(v, s, owners, me, c);
    var r := s.dirs[c][k];
    GoodMeans(v, r, level, s.marks);
    GoodMeans(v, ScanRecord(v, s, c, k, level).dirs[c][k], level, s.marks);
    if r.Directory? && r.start in v.signed && Acceptable(v, s.marks, r.start) {
      DirectoryPutRight(v, s, c, k, level, me, owners);
    }
  }

  lemma {:induction false} DirectoryPutRight(v: Volume, s: State, c: nat, k: nat, level: nat, me: Place, owners: Owners)
    requires Scanning(v, s, owners, me, c) && k < |s.dirs[c]| && level <= MAX_NESTING_LEVEL && At(c, k) !in owners
    requires s.dirs[c][k].Directory? && s.dirs[c][k].start in v.signed && Acceptable(v, s.marks, s.dirs[c][k].start)
    ensures var t := ScanRecord(v, s, c, k, level);
            RecordGood(v, t.dirs, c, k, level) && (t.dirs[c][k].End? ==> s.dirs[c][k].End?)
    decreases MAX_NESTING_LEVEL + 1 - level, 0
  {
    hide ScanTree, ScanRecord, GoodTree, Step, Added, Survives, Under, DirClusters, Clusters, Owned, Descended;
    var start := s.dirs[c][k].start;
    Descend(v, s, c, k, me, owners);
    var m, o := Descended(v, s, start), owners[At(c, k) := start];
    DirectoryScanned(v, s, c, k, level);
    TreePutRight(v, m, level + 1, At(c, k), o);
    var o' := TreeOwned(v, m, level + 1, At(c, k), o);
    var t := ScanTree(v, m, start, level + 1);
    DirectoryStep(v, s, m, t, owners, o, o', c, k, level, Elements(DirClusters(v, start)));
    RecordUnchanged(v, m, t, o, o', c, start);
  }

  lemma RecordUnchanged(v: Volume, m: State, t: State, o: Owners, o': Owners, c: nat, start: nat)
    requires Step(v, m, t, o, o', Elements(DirClusters(v, start))) && c in m.marks && c < |m.dirs|
    requires c !in Elements(DirClusters(v, start))
    ensures c < |t.dirs| && t.dirs[c] == m.dirs[c]
  {
  }

  lemma {:induction false} ClusterPutRight(v: Volume, s: State, c: nat, k: nat, last: bool, level: nat, me: Place,
      owners: Owners)
    requires Scanning(v, s, owners, me, c) && k <= |s.dirs[c]| && level <= MAX_NESTING_LEVEL && VacantFrom(owners, c, k)
    ensures var t := ScanCluster(v, s, c, k, last, level);
            GoodFrom(v, t.0.dirs, c, k, level) && TidyCluster(t.0.dirs[c], k, last) &&
              t.1 == SeesEnd(t.0.dirs[c], k, last)
    decreases MAX_NESTING_LEVEL + 1 - level, 3, |s.dirs[c]| - k
  {
    hide *;
    ScanClusterStep(v, s, c, k, last, level, me, owners);
    if k == |s.dirs[c]| {
      NothingLeft(v, s, c, last, level);
    } else {
      var m, last' := ScanNext(v, s, c, k, last, level), last || s.dirs[c][k].End?;
      NextPutRight(v, s, c, k, last, level, me, owners);
      var o := NextOwned(v, s, c, k, last, level, me, owners);
      ReadyForNext(v, s, m, owners, o, c, k, level, me);
      ClusterPutRight(v, m, c, k + 1, last', level, me, o);
      var t := ScanCluster(v, m, c, k + 1, last', level);
      var o' := ClusterOwned(v, m, c, k + 1, last', level, me, o);
      NextSize(v, m, c, k + 1, last', level, me, o);
      RecordRight(v, s, m, t.0, owners, o, o', c, k, last, level, me);
    }
  }

  lemma NextSize(v: Volume, s: State, c: nat, k: nat, last: bool, level: nat, me: Place, owners: Owners)
    requires Scanning(v, s, owners, me, c) && c < |s.dirs| && k <= |s.dirs[c]| && level <= MAX_NESTING_LEVEL
    ensures Fits(v, s) && |ScanCluster(v, s, c, k, last, level).0.dirs| == |s.dirs| == |v.fat| > 0
  {
    hide ScanCluster, HasStop;
  }

  lemma {:induction false} NextPutRight(v: Volume, s: State, c: nat, k: nat, last: bool, level: nat, me: Place,
      owners: Owners)
    requires Scanning(v, s, owners, me, c) && k < |s.dirs[c]| && level <= MAX_NESTING_LEVEL && VacantFrom(owners, c, k)
    ensures var t := ScanNext(v, s, c, k, last, level);
            |t.dirs| == |v.fat| > 0 && RecordGood(v, t.dirs, c, k, level) &&
              (t.dirs[c][k].End? <==> last || s.dirs[c][k].End?)
    decreases MAX_NESTING_LEVEL + 1 - level, 2
  {
    hide *;
    NextLoaded(v, s, c, k, last, level, me, owners);
    if s.dirs[c][k].End? || last {
      EndGood(v, s, c, k, level, me, owners, ScanNext(v, s, c, k, last, level));
    } else {
      VacantAt(owners, c, k);
      RecordPutRight(v, LoadedFor(v, s, c, k), c, k, level, me, owners);
    }
  }

  lemma EndGood(v: Volume, s: State, c: nat, k: nat, level: nat, me: Place, owners: Owners, t: State)
    requires Scanning(v, s, owners, me, c) && k < |s.dirs[c]| && level <= MAX_NESTING_LEVEL
    requires t.dirs == s.dirs[c := s.dirs[c][k := Ended(s.dirs[c][k])]]
    ensures |t.dirs| == |v.fat| > 0 && RecordGood(v, t.dirs, c, k, level) && t.dirs[c][k].End?
  {
  }

  lemma NothingLeft(v: Volume, s: State, c: nat, last: bool, level: nat)
    requires level <= MAX_NESTING_LEVEL && |s.dirs| == |v.fat| > 0 && c < |s.dirs|
    ensures GoodFrom(v, s.dirs, c, |s.dirs[c]|, level) && TidyCluster(s.dirs[c], |s.dirs[c]|, last)
    ensures last == SeesEnd(s.dirs[c], |s.dirs[c]|, last)
  {
  }

  /** A record in front of what has been put right. */
  lemma RecordRight(v: Volume, s: State, m: State, t: State, owners: Owners, o: Owners, o': Owners, c: nat, k: nat,
      last: bool, level: nat, me: Place)
    requires level <= MAX_NESTING_LEVEL && Scanning(v, s, owners, me, c) && |m.dirs| == |t.dirs| == |v.fat| > 0
    requires c < |t.dirs|
    requires RecordStep(v, s, m, owners, o, c, k, level) && ClusterStepped(v, m, t, o, o', c, k + 1, level)
    requires RecordGood(v, m.dirs, c, k, level) && GoodFrom(v, t.dirs, c, k + 1, level) && k < |m.dirs[c]|
    requires k < |s.dirs[c]| && (m.dirs[c][k].End? <==> last || s.dirs[c][k].End?)
    requires TidyCluster(t.dirs[c], k + 1, last || s.dirs[c][k].End?)
    ensures GoodFrom(v, t.dirs, c, k, level) && TidyCluster(t.dirs[c], k, last)
    ensures SeesEnd(t.dirs[c], k, last) <==> SeesEnd(t.dirs[c], k + 1, last || s.dirs[c][k].End?)
  {
    hide Owned, Survives, Under, UnderFrom, Usable, Ends, Clusters, Good, GoodTree;
    ScanningMarked(v, s, owners, me, c);
    StaysGood(v, s, m, t, owners, o, {c}, me, c, k, level, {c} + (t.marks - m.marks));
  }

  lemma {:induction false} ClustersPutRight(v: Volume, s: State, path: seq<nat>, i: nat, last: bool, level: nat,
      me: Place, owners: Owners)
    requires Fits(v, s) && Owned(v, owners, s.marks) && me in owners && path == DirClusters(v, owners[me])
    requires NoRepeat(path)
    requires i <= |path| && level <= MAX_NESTING_LEVEL && VacantRest(owners, path, i) && Inside(v, path)
    ensures var t := ScanClusters(v, s, path, i, last, level);
            GoodRest(v, t.dirs, path, i, level) && TidyPath(t.dirs, path, i, last)
    decreases MAX_NESTING_LEVEL + 1 - level, 4, |path| - i
  {
    hide *;
    ScanClustersStep(v, s, path, i, last, level, me, owners);
    if i == |path| {
      NoneToPutRight(v, s, path, last, level);
    } else {
      var c, m := path[i], ScanCluster(v, s, path[i], 0, last, level);
      var t := ScanClusters(v, s, path, i, last, level);
      ClusterPutRight(v, s, c, 0, last, level, me, owners);
      var o := ClusterOwned(v, s, c, 0, last, level, me, owners);
      ReadyForRest(v, s, m.0, owners, o, path, i, level, me);
      ClustersPutRight(v, m.0, path, i + 1, m.1, level, me, o);
      var o' := ClustersOwned(v, m.0, path, i + 1, m.1, level, me, o);
      RestSize(v, m.0, path, i + 1, m.1, level);
      ClusterRight(v, s, m.0, t, owners, o, o', path, i, last, m.1, level, me);
    }
  }

  lemma RestSize(v: Volume, s: State, path: seq<nat>, i: nat, last: bool, level: nat)
    requires Fits(v, s) && i <= |path| && Inside(v, path) && level <= MAX_NESTING_LEVEL
    ensures |s.dirs| == |ScanClusters(v, s, path, i, last, level).dirs| == |v.fat| > 0
  {
    hide ScanClusters, HasStop;
  }

  lemma NoneToPutRight(v: Volume, s: State, path: seq<nat>, last: bool, level: nat)
    requires Fits(v, s) && Inside(v, path) && level <= MAX_NESTING_LEVEL
    ensures |s.dirs| == |v.fat| > 0 && GoodRest(v, s.dirs, path, |path|, level) && TidyPath(s.dirs, path, |path|, last)
  {
  }

  /** A cluster in front of what has been put right. */
  lemma ClusterRight(v: Volume, s: State, m: State, t: State, owners: Owners, o: Owners, o': Owners, path: seq<nat>,
      i: nat, last: bool, last': bool, level: nat, me: Place)
    requires level <= MAX_NESTING_LEVEL && i < |path| && Scanning(v, s, owners, me, path[i]) && NoRepeat(path)
    requires Inside(v, path)
    requires path == DirClusters(v, owners[me]) && ClusterStepped(v, s, m, owners, o, path[i], 0, level)
    requires Step(v, m, t, o, o', Rest(path, i + 1)) && |m.dirs| == |t.dirs| == |v.fat|
    requires GoodFrom(v, m.dirs, path[i], 0, level) && TidyCluster(m.dirs[path[i]], 0, last)
    requires last' == SeesEnd(m.dirs[path[i]], 0, last)
    requires GoodRest(v, t.dirs, path, i + 1, level) && TidyPath(t.dirs, path, i + 1, last')
    ensures GoodRest(v, t.dirs, path, i, level) && TidyPath(t.dirs, path, i, last)
  {
    hide Owned, Survives, Under, Usable, Ends, Clusters, Good, GoodTree, RecordGood, DirClusters, SeesEnd, TidyCluster;
    var c := path[i];
    var changed := Rest(path, i + 1) + (t.marks - m.marks);
    ScanningMarked(v, s, owners, me, c);
    assert t.dirs[c] == m.dirs[c];
    forall k: nat | IsPlace(t.dirs, c, k) ensures RecordGood(v, t.dirs, c, k, level) {
      assert IsPlace(m.dirs, c, k);
      forall q | Under(v, m.dirs, c, k, level, q)
        ensures Added(owners, o, q)
      {
        assert UnderFrom(v, m.dirs, c, 0, level, q);
      }
      StaysGood(v, s, m, t, owners, o, {c}, me, c, k, level, changed);
    }
  }

  /** After the scan of a directory it and everything below it is good. */
  lemma {:induction false} TreePutRight(v: Volume, s: State, level: nat, me: Place, owners: Owners)
    requires Fits(v, s) && Owned(v, owners, s.marks) && me in owners && level <= MAX_NESTING_LEVEL + 1
    requires forall q :: q in owners && q.At? ==> q.cluster !in DirClusters(v, owners[me])
    ensures GoodTree(v, ScanTree(v, s, owners[me], level).dirs, owners[me], level)
    decreases MAX_NESTING_LEVEL + 1 - level, 5
  {
    if level <= MAX_NESTING_LEVEL {
      var path := DirClusters(v, owners[me]);
      if owners[me] != 0 { ChainNoRepeat(v.fat, v.end, owners[me], path); }
      ClustersPutRight(v, s, path, 0, false, level, me, owners);
      var t := ScanTree(v, s, owners[me], level);
      forall c: nat, k: nat | c in path && IsPlace(t.dirs, c, k) ensures RecordGood(v, t.dirs, c, k, level) {
        var i :| 0 <= i < |path| && path[i] == c;
        assert GoodFrom(v, t.dirs, path[i], 0, level);
      }
    }
  }

  /** The scan leaves a volume in order. */
  lemma ScanPutsInOrder(v: Volume, dirs: Directories, root: nat) returns (owners: Owners)
    requires Rooted(v, dirs, root)
    ensures var t := WalkRoot(v, dirs, root);
            Surviving(v, t, root, owners) && Owned(v, owners, t.marks) && InOrder(v, t.dirs, root, owners)
  {
    hide *;
    RootedRead(v, dirs, root);
    owners := OrderAfter(v, dirs, root);
  }

  lemma OrderAfter(v: Volume, dirs: Directories, root: nat) returns (owners: Owners)
    requires OwnRead(v, dirs, root)
    ensures var t := WalkRoot(v, dirs, root);
            Surviving(v, t, root, owners) && Owned(v, owners, t.marks) && InOrder(v, t.dirs, root, owners)
  {
    hide *;
    RootReady(v, dirs, root);
    owners := OwnersAfter(v, dirs, root);
    TreePutRight(v, Reserved(v, dirs, root), 1, Root, map[Root := root]);
    OrderFromParts(v, WalkRoot(v, dirs, root), root, owners);
  }

  lemma RootReady(v: Volume, dirs: Directories, root: nat)
    requires OwnRead(v, dirs, root)
    ensures Usable(v) && |dirs| == |v.fat| && Fits(v, Reserved(v, dirs, root)) && Reserved(v, dirs, root).dirs == dirs
    ensures Owned(v, map[Root := root], Reserved(v, dirs, root).marks)
    ensures WalkRoot(v, dirs, root) == ScanTree(v, Reserved(v, dirs, root), root, 1)
    ensures |WalkRoot(v, dirs, root).dirs| == |v.fat| > 0
  {
    RootOwned(v, root);
    RootWalked(v, dirs, root);
  }

  lemma OrderFromParts(v: Volume, t: State, root: nat, owners: Owners)
    requires |t.dirs| == |v.fat| > 0 && Surviving(v, t, root, owners) && Owned(v, owners, t.marks)
    requires GoodTree(v, t.dirs, root, 1)
    ensures InOrder(v, t.dirs, root, owners)
  {
    hide GoodTree;
    forall p | Survives(v, t.dirs, root, 1, p) ensures Listed(t.dirs, owners, p) { SurvivorAt(v, t.dirs, root, 1, p); }
  }

  /** What survives is a record at a place. */
  lemma {:induction false} SurvivorAt(v: Volume, dirs: Directories, start: nat, level: nat, p: Place)
    requires level <= MAX_NESTING_LEVEL + 1 && Survives(v, dirs, start, level, p)
    ensures p.At? && IsRecord(dirs, p.cluster, p.index)
    decreases MAX_NESTING_LEVEL + 1 - level
  {
    var c: nat, k: nat :| c in DirClusters(v, start) && IsRecord(dirs, c, k) && Under(v, dirs, c, k, level, p);
    if p != At(c, k) { SurvivorAt(v, dirs, dirs[c][k].start, level + 1, p); }
  }

  /** The scan changes records exactly if the volume is not in order. */
  lemma ChangesExactlyDisorder(v: Volume, dirs: Directories, root: nat)
    requires InFront(v, dirs, root)
    ensures WalkRoot(v, dirs, root).dirs == dirs <==> exists all :: InOrder(v, dirs, root, all)
  {
    hide WalkRoot, InOrder, OwnRead, Surviving, Owned;
    if all :| InOrder(v, dirs, root, all) {
      InOrderKept(v, dirs, root, all);
    }
    if WalkRoot(v, dirs, root).dirs == dirs {
      UnchangedRead(v, dirs, root);
      var owners := OrderAfter(v, dirs, root);
    }
  }

  // ------------------------------------------------------------------ repairing twice

  /** Both volumes agree on everything but entries of the FAT. */
  ghost predicate SameButFat(v: Volume, v': Volume) {
    |v'.fat| == |v.fat| && v'.end == v.end && v'.clusterBytes == v.clusterBytes && v'.signed == v.signed
  }

  ghost predicate SameChain(v: Volume, v': Volume, start: nat) {
    start != 0 ==>
      && Ends(v.fat, v.end, start) && Ends(v'.fat, v'.end, start)
      && Chain(v'.fat, v'.end, start) == Chain(v.fat, v.end, start)
  }

  /** All chains in or below a directory are the same on both volumes. */
  ghost predicate SameChains(v: Volume, v': Volume, dirs: Directories, start: nat, level: nat)
    requires level <= MAX_NESTING_LEVEL + 1
  {
    SameChain(v, v', start) &&
    forall p :: Survives(v, dirs, start, level, p) ==>
      p.At? && IsRecord(dirs, p.cluster, p.index) && SameChain(v, v', dirs[p.cluster][p.index].start)
  }

  lemma SameChainsBelow(v: Volume, v': Volume, dirs: Directories, start: nat, level: nat, c: nat, k: nat)
    requires level <= MAX_NESTING_LEVEL && SameChains(v, v', dirs, start, level)
    requires c in DirClusters(v, start) && IsRecord(dirs, c, k)
    ensures SameChain(v, v', dirs[c][k].start)
    ensures dirs[c][k].Directory? ==> SameChains(v, v', dirs, dirs[c][k].start, level + 1)
  {
    assert Under(v, dirs, c, k, level, At(c, k));
    assert Survives(v, dirs, start, level, At(c, k));
    if dirs[c][k].Directory? {
      forall p | Survives(v, dirs, dirs[c][k].start, level + 1, p)
        ensures p.At? && IsRecord(dirs, p.cluster, p.index) && SameChain(v, v', dirs[p.cluster][p.index].start)
      {
        assert Under(v, dirs, c, k, level, p);
      }
    }
  }

  lemma {:induction false} SurvivesTransfer(v: Volume, v': Volume, dirs: Directories, start: nat, level: nat, p: Place)
    requires level <= MAX_NESTING_LEVEL + 1 && SameButFat(v, v') && SameChains(v, v', dirs, start, level)
    ensures Survives(v', dirs, start, level, p) <==> Survives(v, dirs, start, level, p)
    decreases MAX_NESTING_LEVEL + 1 - level
  {
    if level <= MAX_NESTING_LEVEL {
      assert DirClusters(v', start) == DirClusters(v, start);
      forall c: nat, k: nat | c in DirClusters(v, start)
        ensures Under(v', dirs, c, k, level, p) <==> Under(v, dirs, c, k, level, p)
      {
        if IsRecord(dirs, c, k) && dirs[c][k].Directory? {
          SameChainsBelow(v, v', dirs, start, level, c, k);
          SurvivesTransfer(v, v', dirs, dirs[c][k].start, level + 1, p);
        }
      }
    }
  }

  lemma {:induction false} GoodTransfer(v: Volume, v': Volume, dirs: Directories, start: nat, level: nat)
    requires level <= MAX_NESTING_LEVEL + 1 && SameButFat(v, v') && SameChains(v, v', dirs, start, level)
    requires |dirs| == |v.fat| > 0 && GoodTree(v, dirs, start, level)
    ensures GoodTree(v', dirs, start, level)
    decreases MAX_NESTING_LEVEL + 1 - level
  {
    if level <= MAX_NESTING_LEVEL {
      assert DirClusters(v', start) == DirClusters(v, start);
      forall c: nat, k: nat | c in DirClusters(v', start) && IsPlace(dirs, c, k)
        ensures RecordGood(v', dirs, c, k, level)
      {
        assert RecordGood(v, dirs, c, k, level);
        if IsRecord(dirs, c, k) {
          SameChainsBelow(v, v', dirs, start, level, c, k);
          if dirs[c][k].Directory? { GoodTransfer(v, v', dirs, dirs[c][k].start, level + 1); }
        }
      }
    }
  }

  /** The FAT after a repair: it is swept if a record has been deleted. */
  ghost function RepairedFat(v: Volume, t: State): (fat: seq<nat>)
    ensures |fat| == |v.fat|
  {
    if t.corrupted == 0 then v.fat else Swept(v.fat, t.marks)
  }

  ghost predicate ChainStays(v: Volume, fat: seq<nat>, start: nat) {
    Ends(v.fat, v.end, start) ==> Ends(fat, v.end, start) && Chain(fat, v.end, start) == Chain(v.fat, v.end, start)
  }

  /** It still has what check-disk requires. */
  lemma RepairedUsable(v: Volume, t: State)
    requires Usable(v)
    ensures Usable(v.(fat := RepairedFat(v, t)))
  {
    var fat := RepairedFat(v, t);
    var c: nat :| IsCluster(v.fat, c) && !IsCluster(v.fat, v.fat[c]);
    assert IsCluster(fat, c) && !IsCluster(fat, fat[c]);
  }

  /** Repairing is idempotent: checking the repaired volume again deletes nothing, changes no record, and marks the same
      clusters. */
  lemma RepairIdempotent(v: Volume, dirs: Directories, root: nat)
    requires Rooted(v, dirs, root)
    ensures var t := WalkRoot(v, dirs, root);
            var v' := v.(fat := RepairedFat(v, t));
            && Rooted(v', t.dirs, root)
            && (var t' := WalkRoot(v', t.dirs, root); t'.dirs == t.dirs && t'.corrupted == 0 && t'.marks == t.marks)
  {
    hide *;
    RootedRead(v, dirs, root);
    RootReady(v, dirs, root);
    var t := WalkRoot(v, dirs, root);
    var v' := v.(fat := RepairedFat(v, t));
    RepairedUsable(v, t);
    var owners := ScanPutsInOrder(v, dirs, root);
    RootWalked(v, dirs, root);
    StillInOrder(v, dirs, t, root, owners);
    InOrderKept(v', t.dirs, root, owners);
    OrderIsRooted(v', t.dirs, root, owners);
    RootedRead(v', t.dirs, root);
    RootReady(v', t.dirs, root);
    var owners' := ScanResult(v', t.dirs, root);
    SameMarks(v, v', t, WalkRoot(v', t.dirs, root), root, owners, owners');
  }

  /** The marks are determined by what survives. */
  lemma SameMarks(v: Volume, v': Volume, t: State, t': State, root: nat, owners: Owners, owners': Owners)
    requires Surviving(v, t, root, owners) && Owned(v, owners, t.marks) && Surviving(v', t', root, owners')
    requires Owned(v', owners', t'.marks)
    requires t'.dirs == t.dirs && SameSurvivors(v, v', t.dirs, root, owners)
    ensures t'.marks == t.marks
  {
    forall p ensures p in owners' <==> p in owners {}
    assert owners' == owners;
    forall c ensures c in t'.marks <==> c in t.marks {
      if c in t.marks && c >= 2 {
        var p :| p in owners && c in Clusters(v.fat, v.end, owners[p]);
        assert OwnerValid(v', p, owners'[p], t'.marks);
      }
      if c in t'.marks && c >= 2 {
        var p :| p in owners && c in Clusters(v'.fat, v'.end, owners[p]);
        assert OwnerValid(v, p, owners[p], t.marks);
      }
    }
  }

  ghost predicate SameSurvivors(v: Volume, v': Volume, dirs: Directories, root: nat, owners: Owners) {
    && (forall p :: Survives(v', dirs, root, 1, p) <==> Survives(v, dirs, root, 1, p))
    && (forall p :: p in owners ==> Clusters(v'.fat, v'.end, owners[p]) == Clusters(v.fat, v.end, owners[p]))
  }

  lemma StillInOrder(v: Volume, dirs: Directories, t: State, root: nat, owners: Owners)
    requires InFront(v, dirs, root) && Usable(v.(fat := RepairedFat(v, t)))
    requires |t.dirs| == |v.fat| > 0 && Surviving(v, t, root, owners) && Owned(v, owners, t.marks)
    requires InOrder(v, t.dirs, root, owners)
    ensures var v' := v.(fat := RepairedFat(v, t));
            |v'.fat| == |v.fat| && InOrder(v', t.dirs, root, owners) && InFront(v', t.dirs, root) &&
              SameSurvivors(v, v', t.dirs, root, owners)
  {
    hide *;
    var v' := v.(fat := RepairedFat(v, t));
    OwnersSame(v, dirs, t, root, owners);
    SameFromOwners(v, v', dirs, t, root, owners);
    GoodTransfer(v, v', t.dirs, root, 1);
    forall p ensures Survives(v', t.dirs, root, 1, p) <==> Survives(v, t.dirs, root, 1, p) {
      SurvivesTransfer(v, v', t.dirs, root, 1, p);
    }
    StillOrdered(v, v', dirs, t, root, owners);
  }

  /** A repair keeps the chains of the owners. */
  lemma OwnersSame(v: Volume, dirs: Directories, t: State, root: nat, owners: Owners)
    requires InFront(v, dirs, root) && Owned(v, owners, t.marks)
    ensures var v' := v.(fat := RepairedFat(v, t));
            forall p :: p in owners ==>
              SameChain(v, v', owners[p]) && Clusters(v'.fat, v'.end, owners[p]) == Clusters(v.fat, v.end, owners[p])
  {
    hide HasStop, Disjoint, OwnedBy;
    var v' := v.(fat := RepairedFat(v, t));
    forall p | p in owners
      ensures SameChain(v, v', owners[p]) && Clusters(v'.fat, v'.end, owners[p]) == Clusters(v.fat, v.end, owners[p])
    {
      OwnerSame(v, v', p, owners[p], t);
    }
  }

  lemma OwnerSame(v: Volume, v': Volume, p: Place, start: nat, t: State)
    requires WellFormed(v.fat, v.end) && OwnerValid(v, p, start, t.marks) && v' == v.(fat := RepairedFat(v, t))
    ensures SameChain(v, v', start) && Clusters(v'.fat, v'.end, start) == Clusters(v.fat, v.end, start)
  {
    hide Chain;
    NoClusters(v.fat, v.end);
    NoClusters(v'.fat, v'.end);
    if start != 0 {
      ClustersInside(v, start);
      ChainKept(v.fat, v'.fat, v.end, start);
    }
  }

  lemma SameFromOwners(v: Volume, v': Volume, dirs: Directories, t: State, root: nat, owners: Owners)
    requires InFront(v, dirs, root) && v' == v.(fat := RepairedFat(v, t)) && |t.dirs| == |v.fat| > 0
    requires Surviving(v, t, root, owners) && InOrder(v, t.dirs, root, owners)
    requires forall p :: p in owners ==> SameChain(v, v', owners[p])
    ensures SameButFat(v, v') && SameChains(v, v', t.dirs, root, 1) && |t.dirs| == |v.fat| > 0
    ensures GoodTree(v, t.dirs, root, 1)
  {
    hide Survives, GoodTree, SameChain, Usable;
  }

  lemma StillOrdered(v: Volume, v': Volume, dirs: Directories, t: State, root: nat, owners: Owners)
    requires InFront(v, dirs, root) && v' == v.(fat := RepairedFat(v, t)) && Usable(v')
    requires |t.dirs| == |v.fat| > 0 && Surviving(v, t, root, owners) && InOrder(v, t.dirs, root, owners)
    requires GoodTree(v', t.dirs, root, 1)
    requires forall p ::
             p in owners ==>
               SameChain(v, v', owners[p]) && Clusters(v'.fat, v'.end, owners[p]) == Clusters(v.fat, v.end, owners[p])
    requires forall p :: Survives(v', t.dirs, root, 1, p) <==> Survives(v, t.dirs, root, 1, p)
    ensures |v'.fat| == |v.fat| && InOrder(v', t.dirs, root, owners) && InFront(v', t.dirs, root)
    ensures SameSurvivors(v, v', t.dirs, root, owners)
  {
    hide Survives, GoodTree, Usable, Clusters, Chain, Ends;
  }
}
