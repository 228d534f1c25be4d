/** What check-disk's limit on the nesting of directories means (filesystem/chkdsk/src/chkdsk.c): a directory whose
    record stands at level 16 stays and keeps its own clusters, but its records are not scanned. */
module CheckDiskDepth {
  import opened Chains
  import opened CheckDiskScan
  import opened CheckDiskWalk
  import opened CheckDiskRepair
  import opened CheckDiskStable
  import opened CheckDiskDevice

  // ------------------------------------------------------------------ records at any depth

  /** The place belongs to the record at (c, k), or lies up to `n` levels below it. */
  ghost predicate ReachedFrom(v: Volume, dirs: Directories, c: nat, k: nat, n: nat, p: Place)
    decreases n, 1
  {
    IsRecord(dirs, c, k) && (p == At(c, k) || (dirs[c][k].Directory? && Reached(v, dirs, dirs[c][k].start, n, p)))
  }

  /** The place belongs to a record with a chain in the directory that starts at `start`, or up to `n - 1` levels
      below. */
  ghost predicate Reached(v: Volume, dirs: Directories, start: nat, n: nat, p: Place)
    decreases n, 0
  {
    n > 0 && exists c: nat, k: nat ::
      c in DirClusters(v, start) && IsRecord(dirs, c, k) && ReachedFrom(v, dirs, c, k, n - 1, p)
  }

  /** The place belongs to a record with a chain in the directory that starts at `start`, or anywhere below it. */
  ghost predicate InTree(v: Volume, dirs: Directories, start: nat, p: Place) {
    exists n: nat :: Reached(v, dirs, start, n, p)
  }

  /** Survival is being reached within the limit. */
  lemma {:induction false} SurvivesReached(v: Volume, dirs: Directories, start: nat, level: nat, p: Place)
    requires level <= MAX_NESTING_LEVEL + 1
    ensures Survives(v, dirs, start, level, p) <==> Reached(v, dirs, start, MAX_NESTING_LEVEL + 1 - level, p)
    decreases MAX_NESTING_LEVEL + 1 - level, 1
  {
    hide Under, ReachedFrom, DirClusters;
    if level <= MAX_NESTING_LEVEL {
      forall c: nat, k: nat | IsRecord(dirs, c, k)
        ensures Under(v, dirs, c, k, level, p) <==> ReachedFrom(v, dirs, c, k, MAX_NESTING_LEVEL - level, p)
      {
        UnderReached(v, dirs, c, k, level, p);
      }
    }
  }

  lemma {:induction false} UnderReached(v: Volume, dirs: Directories, c: nat, k: nat, level: nat, p: Place)
    requires level <= MAX_NESTING_LEVEL && IsRecord(dirs, c, k)
    ensures Under(v, dirs, c, k, level, p) <==> ReachedFrom(v, dirs, c, k, MAX_NESTING_LEVEL - level, p)
    decreases MAX_NESTING_LEVEL + 1 - level, 0
  {
    hide Survives, Reached;
    if dirs[c][k].Directory? { SurvivesReached(v, dirs, dirs[c][k].start, level + 1, p); }
  }

  lemma {:induction false} ReachedMore(v: Volume, dirs: Directories, start: nat, n: nat, m: nat, p: Place)
    requires n <= m && Reached(v, dirs, start, n, p)
    ensures Reached(v, dirs, start, m, p)
    decreases n
  {
    var c: nat, k: nat :| c in DirClusters(v, start) && IsRecord(dirs, c, k) && ReachedFrom(v, dirs, c, k, n - 1, p);
    if p != At(c, k) { ReachedMore(v, dirs, dirs[c][k].start, n - 1, m - 1, p); }
    assert ReachedFrom(v, dirs, c, k, m - 1, p);
  }

  /** Directories are nested at most `n` deep below the one that starts at `start`. */
  ghost predicate Shallow(v: Volume, dirs: Directories, start: nat, n: nat)
    decreases n
  {
    forall c: nat, k: nat :: c in DirClusters(v, start) && IsRecord(dirs, c, k) && dirs[c][k].Directory? ==>
      n > 0 && Shallow(v, dirs, dirs[c][k].start, n - 1)
  }

  lemma {:induction false} ShallowReached(v: Volume, dirs: Directories, start: nat, n: nat, m: nat, p: Place)
    requires Shallow(v, dirs, start, n) && Reached(v, dirs, start, m, p)
    ensures Reached(v, dirs, start, n + 1, p)
    decreases m
  {
    var c: nat, k: nat :| c in DirClusters(v, start) && IsRecord(dirs, c, k) && ReachedFrom(v, dirs, c, k, m - 1, p);
    if p != At(c, k) { ShallowReached(v, dirs, dirs[c][k].start, n - 1, m - 1, p); }
    assert ReachedFrom(v, dirs, c, k, n, p);
  }

  /** Deleting records does not make the nesting deeper. */
  lemma {:induction false} ShallowStays(v: Volume, dirs: Directories, dirs': Directories, start: nat, n: nat)
    requires SameShape(dirs', dirs)
    requires forall c: nat, k: nat :: IsPlace(dirs, c, k) ==> MayBecome(dirs[c][k], dirs'[c][k])
    requires Shallow(v, dirs, start, n)
    ensures Shallow(v, dirs', start, n)
    decreases n
  {
    forall c: nat, k: nat | c in DirClusters(v, start) && IsRecord(dirs', c, k) && dirs'[c][k].Directory?
      ensures n > 0 && Shallow(v, dirs', dirs'[c][k].start, n - 1)
    {
      assert IsPlace(dirs, c, k) && dirs'[c][k] == dirs[c][k] && IsRecord(dirs, c, k);
      ShallowStays(v, dirs, dirs', dirs[c][k].start, n - 1);
    }
  }

  // ------------------------------------------------------------------ what a repair keeps

  /** The chains of the root directory and of all records in place below it, at any depth. */
  ghost predicate AllOwned(v: Volume, t: State, root: nat, owners: Owners) {
    && (forall p :: p in owners <==> p.Root? || InTree(v, t.dirs, root, p))
    && Root in owners && owners[Root] == root
    && (forall p :: p in owners && p.At? ==> Placed(t.dirs, p, owners[p]))
  }

  /** Chains as they were, without a cluster in common, and no other entry in use among those that are swept. */
  ghost predicate RepairedFor(v: Volume, fat: seq<nat>, owners: Owners) {
    && Disjoint(v, owners) && |fat| == |v.fat|
    && (forall p :: p in owners && owners[p] != 0 ==>
         Ends(fat, v.end, owners[p]) && Ends(v.fat, v.end, owners[p]) &&
           Chain(fat, v.end, owners[p]) == Chain(v.fat, v.end, owners[p]))
    && (forall c: nat :: 2 <= c < |fat| - 1 ==> fat[c] == if OwnedBy(v, owners, c) then v.fat[c] else 0)
  }

  /** If the directories that are left are nested at most 15 deep below the root directory, a repair keeps the chain of
      every record that it leaves in place, however deep. */
  lemma RepairKeepsAll(v: Volume, dirs: Directories, root: nat) returns (owners: Owners)
    requires Rooted(v, dirs, root) && Shallow(v, WalkRoot(v, dirs, root).dirs, root, MAX_NESTING_LEVEL - 1)
    ensures var t := WalkRoot(v, dirs, root);
            AllOwned(v, t, root, owners) && RepairedFor(v, Swept(v.fat, t.marks), owners)
  {
    hide Shallow, WalkRoot, Chain, Ends, Swept, OwnedBy, Disjoint, Surviving, AllOwned, RepairedFor, Calm;
    owners := RepairKeepsSurvivors(v, dirs, root);
    AllReachedShallow(v, WalkRoot(v, dirs, root), root, owners);
  }

  /** So it does if they are not nested deeper before. */
  lemma ShallowBefore(v: Volume, dirs: Directories, root: nat)
    requires Usable(v) && |dirs| == |v.fat| && Shallow(v, dirs, root, MAX_NESTING_LEVEL - 1)
    ensures Shallow(v, WalkRoot(v, dirs, root).dirs, root, MAX_NESTING_LEVEL - 1)
  {
    hide Shallow, WalkRoot, DeviceAfter;
    DeviceUpToDate(v, dirs, root);
    ShallowStays(v, dirs, WalkRoot(v, dirs, root).dirs, root, MAX_NESTING_LEVEL - 1);
  }

  lemma AllReachedShallow(v: Volume, t: State, root: nat, owners: Owners)
    requires Shallow(v, t.dirs, root, MAX_NESTING_LEVEL - 1) && Surviving(v, t, root, owners) && Disjoint(v, owners)
    requires var fat := Swept(v.fat, t.marks);
             && (forall p :: p in owners && owners[p] != 0 ==>
                  Ends(fat, v.end, owners[p]) && Ends(v.fat, v.end, owners[p]) &&
                    Chain(fat, v.end, owners[p]) == Chain(v.fat, v.end, owners[p]))
             && (forall c: nat :: 2 <= c < |fat| - 1 ==> fat[c] == if OwnedBy(v, owners, c) then v.fat[c] else 0)
    ensures AllOwned(v, t, root, owners) && RepairedFor(v, Swept(v.fat, t.marks), owners)
  {
    hide Survives, Reached, Shallow, Chain, Ends, Swept, OwnedBy, Disjoint;
    forall p ensures InTree(v, t.dirs, root, p) <==> Survives(v, t.dirs, root, 1, p) {
      SurvivesReached(v, t.dirs, root, 1, p);
      if n: nat :| Reached(v, t.dirs, root, n, p) { ShallowReached(v, t.dirs, root, MAX_NESTING_LEVEL - 1, n, p); }
    }
  }

  /** One step at the far end: records of a directory that is reached. */
  ghost predicate ReachedStep(v: Volume, dirs: Directories, start: nat, n: nat, p: Place) {
    Reached(v, dirs, start, n, p) || exists q :: Reached(v, dirs, start, n, q) && InDirectory(v, dirs, q, p)
  }

  ghost predicate InDirectory(v: Volume, dirs: Directories, q: Place, p: Place) {
    q.At? && IsRecord(dirs, q.cluster, q.index) && p.At? && p.cluster in ClustersAt(v, dirs, q) &&
      IsRecord(dirs, p.cluster, p.index)
  }

  lemma {:induction false} ReachedByStep(v: Volume, dirs: Directories, start: nat, n: nat, p: Place)
    requires n > 0
    ensures Reached(v, dirs, start, n + 1, p) <==> ReachedStep(v, dirs, start, n, p)
    decreases n, 1
  {
    if Reached(v, dirs, start, n + 1, p) {
      var c: nat, k: nat :| c in DirClusters(v, start) && IsRecord(dirs, c, k) && ReachedFrom(v, dirs, c, k, n, p);
      if p == At(c, k) {
        assert ReachedFrom(v, dirs, c, k, n - 1, p);
      } else {
        LastStep(v, dirs, start, c, k, n, p);
      }
    }
    if q :| Reached(v, dirs, start, n, q) && InDirectory(v, dirs, q, p) {
      FartherOn(v, dirs, start, n, q, p);
    }
    if Reached(v, dirs, start, n, p) { ReachedMore(v, dirs, start, n, n + 1, p); }
  }

  lemma {:induction false} LastStep(v: Volume, dirs: Directories, start: nat, c: nat, k: nat, n: nat, p: Place)
    requires n > 0 && c in DirClusters(v, start) && IsRecord(dirs, c, k) && dirs[c][k].Directory?
    requires Reached(v, dirs, dirs[c][k].start, n, p)
    ensures ReachedStep(v, dirs, start, n, p)
    decreases n, 0
  {
    var below := dirs[c][k].start;
    if n == 1 {
      var c': nat, k': nat :| c' in DirClusters(v, below) && IsRecord(dirs, c', k') &&
        ReachedFrom(v, dirs, c', k', 0, p);
      assert ReachedFrom(v, dirs, c, k, 0, At(c, k)) && Reached(v, dirs, start, 1, At(c, k));
      assert InDirectory(v, dirs, At(c, k), p);
    } else {
      ReachedByStep(v, dirs, below, n - 1, p);
      if Reached(v, dirs, below, n - 1, p) {
        assert ReachedFrom(v, dirs, c, k, n - 1, p);
      } else {
        var q :| Reached(v, dirs, below, n - 1, q) && InDirectory(v, dirs, q, p);
        assert ReachedFrom(v, dirs, c, k, n - 1, q) && Reached(v, dirs, start, n, q);
      }
    }
  }

  lemma {:induction false} FartherOn(v: Volume, dirs: Directories, start: nat, n: nat, q: Place, p: Place)
    requires Reached(v, dirs, start, n, q) && InDirectory(v, dirs, q, p)
    ensures Reached(v, dirs, start, n + 1, p)
    decreases n
  {
    var c: nat, k: nat :| c in DirClusters(v, start) && IsRecord(dirs, c, k) && ReachedFrom(v, dirs, c, k, n - 1, q);
    if q == At(c, k) {
      assert ReachedFrom(v, dirs, p.cluster, p.index, 0, p);
      assert Reached(v, dirs, dirs[c][k].start, 1, p);
      ReachedMore(v, dirs, dirs[c][k].start, 1, n, p);
    } else {
      FartherOn(v, dirs, dirs[c][k].start, n - 1, q, p);
    }
    assert ReachedFrom(v, dirs, c, k, n, p);
  }

  /** If one more level adds nothing, no further one does. */
  lemma {:induction false} NoMoreLevels(v: Volume, dirs: Directories, start: nat, n: nat, m: nat, p: Place)
    requires n > 0 && forall q :: Reached(v, dirs, start, n + 1, q) ==> Reached(v, dirs, start, n, q)
    requires Reached(v, dirs, start, m, p)
    ensures Reached(v, dirs, start, n, p)
    decreases m
  {
    hide Reached, ReachedFrom, InDirectory;
    if m <= n {
      ReachedMore(v, dirs, start, m, n, p);
    } else {
      ReachedByStep(v, dirs, start, m - 1, p);
      if Reached(v, dirs, start, m - 1, p) {
        NoMoreLevels(v, dirs, start, n, m - 1, p);
      } else {
        var q :| Reached(v, dirs, start, m - 1, q) && InDirectory(v, dirs, q, p);
        NoMoreLevels(v, dirs, start, n, m - 1, q);
        FartherOn(v, dirs, start, n, q, p);
      }
    }
  }

  /** No record is left in place below the limit: every directory that is reached has only records that are reached. */
  ghost predicate NothingBelowLimit(v: Volume, dirs: Directories, root: nat) {
    forall q, p :: Reached(v, dirs, root, MAX_NESTING_LEVEL, q) && InDirectory(v, dirs, q, p) ==>
      Reached(v, dirs, root, MAX_NESTING_LEVEL, p)
  }

  lemma AllReached(v: Volume, dirs: Directories, root: nat, p: Place)
    requires NothingBelowLimit(v, dirs, root) && InTree(v, dirs, root, p)
    ensures Reached(v, dirs, root, MAX_NESTING_LEVEL, p)
  {
    forall q | Reached(v, dirs, root, MAX_NESTING_LEVEL + 1, q) ensures Reached(v, dirs, root, MAX_NESTING_LEVEL, q) {
      ReachedByStep(v, dirs, root, MAX_NESTING_LEVEL, q);
    }
    hide Reached, InDirectory;
    var n: nat :| Reached(v, dirs, root, n, p);
    NoMoreLevels(v, dirs, root, MAX_NESTING_LEVEL, n, p);
  }

  /** The records that the scan has seen are all that are left in place exactly if nothing is left below the limit. */
  lemma AllSeenExactly(v: Volume, dirs: Directories, root: nat)
    ensures (forall p :: InTree(v, dirs, root, p) ==> Survives(v, dirs, root, 1, p)) <==>
            NothingBelowLimit(v, dirs, root)
  {
    hide Reached, Survives, InDirectory;
    forall p
      ensures Survives(v, dirs, root, 1, p) <==> Reached(v, dirs, root, MAX_NESTING_LEVEL, p)
    {
      SurvivesReached(v, dirs, root, 1, p);
    }
    if NothingBelowLimit(v, dirs, root) {
      forall p | InTree(v, dirs, root, p) ensures Survives(v, dirs, root, 1, p) { AllReached(v, dirs, root, p); }
    } else {
      var q, p :| Reached(v, dirs, root, MAX_NESTING_LEVEL, q) && InDirectory(v, dirs, q, p) &&
        !Reached(v, dirs, root, MAX_NESTING_LEVEL, p);
      FartherOn(v, dirs, root, MAX_NESTING_LEVEL, q, p);
      assert InTree(v, dirs, root, p) && !Survives(v, dirs, root, 1, p);
    }
  }

  // ------------------------------------------------------------------ what a repair loses

  /** A chain is as before exactly if each of its clusters belongs to a record that the scan has seen, or is the last
      cluster, where the sweep does not come. */
  lemma ChainStaysExactly(v: Volume, dirs: Directories, root: nat, start: nat) returns (owners: Owners)
    requires Rooted(v, dirs, root) && Ends(v.fat, v.end, start)
    ensures Surviving(v, WalkRoot(v, dirs, root), root, owners)
    ensures ChainStays(v, Swept(v.fat, WalkRoot(v, dirs, root).marks), start) <==>
            forall c :: c in Clusters(v.fat, v.end, start) ==> OwnedBy(v, owners, c) || c == |v.fat| - 1
  {
    hide *;
    owners := RepairKeepsSurvivors(v, dirs, root);
    RootedRead(v, dirs, root);
    RootReady(v, dirs, root);
    var t := WalkRoot(v, dirs, root);
    SweptLast(v.fat, t.marks);
    StaysIfOwned(v, Swept(v.fat, t.marks), owners, start);
  }

  lemma StaysIfOwned(v: Volume, fat: seq<nat>, owners: Owners, start: nat)
    requires Usable(v) && Ends(v.fat, v.end, start) && |fat| == |v.fat| > 0 && fat[|fat| - 1] == v.fat[|fat| - 1]
    requires forall c: nat :: 2 <= c < |fat| - 1 ==> fat[c] == if OwnedBy(v, owners, c) then v.fat[c] else 0
    ensures ChainStays(v, fat, start) <==> forall c ::
            c in Clusters(v.fat, v.end, start) ==> OwnedBy(v, owners, c) || c == |v.fat| - 1
  {
    hide OwnedBy, HasStop;
    var p := Chain(v.fat, v.end, start);
    if ChainStays(v, fat, start) {
      forall c | c in Clusters(v.fat, v.end, start) ensures OwnedBy(v, owners, c) || c == |v.fat| - 1 {
        var i :| 0 <= i < |p| && p[i] == c;
        LastOfChain(fat, v.end, start, p, i);
        if i < |p| - 1 { LastOfChain(fat, v.end, start, p, i + 1); }
      }
    }
    if forall c :: c in Clusters(v.fat, v.end, start) ==> OwnedBy(v, owners, c) || c == |v.fat| - 1 {
      ClustersInside(v, start);
      ChainKept(v.fat, fat, v.end, start);
    }
  }

  lemma SweptLast(fat: seq<nat>, marks: set<nat>)
    requires |fat| > 0
    ensures Swept(fat, marks)[|fat| - 1] == fat[|fat| - 1]
  {
  }

  /** Directories that are nested, with that in cluster c at level c, and a file in the deepest one; a bad record in
      the root directory makes check-disk repair. */
  function NestedDirectories(n: nat): (dirs: Directories)
    ensures |dirs| == n
  {
    seq(n, c => if c == 0 then [File(0, 1), Directory(2, 0)] else if 2 <= c <= 16 then [Directory(c + 1, 0)]
      else if c == 17 then [File(18, 1)] else [])
  }

  /** A volume whose clusters are chains of their own. */
  ghost predicate AllSingle(v: Volume) {
    20 <= |v.fat| <= v.end && (forall c: nat :: IsCluster(v.fat, c) ==> v.fat[c] == v.end) && forall c: nat ::
      2 <= c <= 17 ==> c in v.signed
  }

  ghost predicate Nested(v: Volume, dirs: Directories) {
    |dirs| == |v.fat| && AllSingle(v) && (forall c: nat :: 2 <= c <= 16 ==> dirs[c] == [Directory(c + 1, 0)]) &&
      dirs[17] == [File(18, 1)]
  }

  /** Scanning the directory in cluster `k` marks the directories below it and nothing else. */
  lemma {:induction false} NestScanned(v: Volume, s: State, k: nat)
    requires 2 <= k <= 17 && Fits(v, s) && Nested(v, s.dirs) && forall c: nat :: k < c <= 17 ==> c !in s.marks
    ensures var t := ScanTree(v, s, k, k);
            t.dirs == s.dirs && t.corrupted == s.corrupted && forall c: nat ::
              c in t.marks <==> c in s.marks || k < c <= 17
    decreases 17 - k
  {
    if k < 17 {
      SingleChain(v.fat, v.end, k);
      SingleChain(v.fat, v.end, k + 1);
      var l := LoadedFor(v, s, k, 0);
      assert l.dirs[k] == [Directory(k + 1, 0)];
      DirectoryScanned(v, l, k, 0, k);
      var m := Descended(v, l, k + 1);
      NestScanned(v, m, k + 1);
      OneRecord(v, s, k, k);
    }
  }

  /** A directory of one cluster with one record. */
  lemma OneRecord(v: Volume, s: State, c: nat, level: nat)
    requires Fits(v, s) && c < |s.dirs| && |s.dirs[c]| == 1 && !s.dirs[c][0].End? && level <= MAX_NESTING_LEVEL
    requires DirClusters(v, c) == [c]
    ensures ScanTree(v, s, c, level) == ScanRecord(v, LoadedFor(v, s, c, 0), c, 0, level)
  {
    hide ScanRecord;
    var m := ScanNext(v, s, c, 0, false, level);
    assert ScanCluster(v, m, c, 1, false, level) == (m, false);
    assert ScanCluster(v, s, c, 0, false, level) == (m, false);
    assert ScanClusters(v, m, [c], 1, false, level) == m;
  }

  lemma {:induction false} NestReached(v: Volume, dirs: Directories, k: nat)
    requires 2 <= k <= 17 && Nested(v, dirs)
    ensures Reached(v, dirs, k, 18 - k, At(17, 0))
    decreases 17 - k
  {
    SingleChain(v.fat, v.end, k);
    assert k in DirClusters(v, k) by { assert DirClusters(v, k)[0] == k; }
    if k < 17 { NestReached(v, dirs, k + 1); }
    assert ReachedFrom(v, dirs, k, 0, 17 - k, At(17, 0));
  }

  /** The file's record stays in place, in a directory that is left in place, but its cluster is freed. */
  lemma DeepFileLost(v: Volume)
    requires Usable(v) && AllSingle(v)
    ensures var dirs := NestedDirectories(|v.fat|);
            var t := WalkRoot(v, dirs, 0);
            && Rooted(v, dirs, 0) && t.corrupted == 1 && t.dirs[17] == [File(18, 1)] && InTree(v, t.dirs, 0, At(17, 0))
            && Ends(v.fat, v.end, 18) && RepairedFat(v, t)[18] == 0
  {
    hide *;
    var dirs := NestedDirectories(|v.fat|);
    Arranged(v);
    NestedRead(v);
    var t := WalkRoot(v, dirs, 0);
    NestReached(v, t.dirs, 2);
    RootReached(v, t.dirs);
    FreedAt18(v, t);
  }

  lemma NestedRead(v: Volume)
    requires Usable(v) && AllSingle(v)
    ensures var dirs := NestedDirectories(|v.fat|); Rooted(v, dirs, 0) && WalkRoot(v, dirs, 0) == ScanRoot(v, dirs, 0)
  {
    hide WalkRoot, ScanRoot, Calm;
    var dirs := NestedDirectories(|v.fat|);
    NoLabelsCalm(v, dirs, ReadClusters(v, 0, 0), 1);
    RootAgrees(v, dirs, 0);
  }

  lemma RootReached(v: Volume, dirs: Directories)
    requires IsRecord(dirs, 0, 1) && dirs[0][1] == Directory(2, 0) && Reached(v, dirs, 2, 16, At(17, 0))
    ensures InTree(v, dirs, 0, At(17, 0))
  {
    hide Reached;
    assert ReachedFrom(v, dirs, 0, 1, 16, At(17, 0));
    assert 0 in DirClusters(v, 0) by { assert DirClusters(v, 0)[0] == 0; }
    assert Reached(v, dirs, 0, 17, At(17, 0)) by { DirectlyReached(v, dirs, 0, 0, 1, 17, At(17, 0)); }
  }

  lemma DirectlyReached(v: Volume, dirs: Directories, start: nat, c: nat, k: nat, n: nat, p: Place)
    requires n > 0 && c in DirClusters(v, start) && IsRecord(dirs, c, k) && ReachedFrom(v, dirs, c, k, n - 1, p)
    ensures Reached(v, dirs, start, n, p)
  {
  }

  lemma FreedAt18(v: Volume, t: State)
    requires AllSingle(v) && t.corrupted == 1 && 18 !in t.marks
    ensures Ends(v.fat, v.end, 18) && RepairedFat(v, t)[18] == 0
  {
    SingleChain(v.fat, v.end, 18);
  }

  /** The scan deletes the bad record and marks the nested directories. */
  lemma Arranged(v: Volume)
    requires Usable(v) && AllSingle(v)
    ensures var dirs := NestedDirectories(|v.fat|);
            var t := ScanRoot(v, dirs, 0);
            && InFront(v, dirs, 0) && |v.fat| > 17 && |t.dirs| == |v.fat| && Nested(v, t.dirs)
            && IsRecord(t.dirs, 0, 1) && t.dirs[0][1] == Directory(2, 0) && t.dirs[17] == [File(18, 1)]
            && t.corrupted == 1 && 18 !in t.marks
  {
    hide ScanNext, ScanRecord, ScanTree, ScanCluster, ScanClusters, ScanRoot, Nested, AllSingle, Usable, Fits, Loaded;
    hide LoadedFor, Descended, Acceptable;
    hide NestedDirectories, InFront, Reserved, ReadClusters;
    var dirs := NestedDirectories(|v.fat|);
    NestedReady(v);
    var s := Reserved(v, dirs, 0);
    var a := ScanNext(v, s, 0, 0, false, 1);
    BadRecordDropped(v, s, a);
    var l := LoadedFor(v, a, 0, 1);
    DirectoryScanned(v, l, 0, 1, 1);
    var m := Descended(v, l, 2);
    NestScanned(v, m, 2);
    TwoRecords(v, s, a, ScanTree(v, m, 2, 2));
    NestDone(v, dirs, a, m, ScanTree(v, m, 2, 2));
  }

  lemma NestedReady(v: Volume)
    requires Usable(v) && AllSingle(v)
    ensures var dirs := NestedDirectories(|v.fat|);
            && Fits(v, Reserved(v, dirs, 0)) && Nested(v, dirs) && InFront(v, dirs, 0) && |dirs| > 17 &&
               dirs[0] == [File(0, 1), Directory(2, 0)]
            && Reserved(v, dirs, 0).dirs == dirs && Reserved(v, dirs, 0).marks == {0, 1} &&
               Reserved(v, dirs, 0).corrupted == 0 && v.perSector > 0
            && RootFirst(0) == 0 && ReadClusters(v, 0, 0) == [0]
  {
    NoClusters(v.fat, v.end);
  }

  /** The bad record is deleted; then the first directory can be entered. */
  lemma BadRecordDropped(v: Volume, s: State, a: State)
    requires Fits(v, s) && Nested(v, s.dirs) && s.dirs[0] == [File(0, 1), Directory(2, 0)] && s.marks == {0, 1}
    requires s.corrupted == 0
    requires a == ScanNext(v, s, 0, 0, false, 1)
    ensures v.perSector > 0 && Fits(v, a) && |a.dirs| == |v.fat| > 17
    ensures a.dirs == s.dirs[0 := [Deleted(false, 0, 1), Directory(2, 0)]] && a.corrupted == 1 && a.marks == {0, 1}
    ensures var l := LoadedFor(v, a, 0, 1);
            && l == a.(buffer := l.buffer) && Fits(v, l) && 2 in v.signed && Acceptable(v, l.marks, 2)
            && (var m := Descended(v, l, 2);
                && m.dirs == a.dirs && Fits(v, m) && Nested(v, m.dirs) && m.corrupted == 1 && m.marks == {0, 1, 2}
                && forall c: nat :: 2 < c <= 17 ==> c !in m.marks)
  {
    hide *;
    FirstDeleted(v, s, a);
    FirstEntered(v, s, a);
  }

  lemma FirstDeleted(v: Volume, s: State, a: State)
    requires Fits(v, s) && Nested(v, s.dirs) && s.dirs[0] == [File(0, 1), Directory(2, 0)] && s.corrupted == 0
    requires a == ScanNext(v, s, 0, 0, false, 1)
    ensures v.perSector > 0 && Fits(v, a) && a.dirs == s.dirs[0 := [Deleted(false, 0, 1), Directory(2, 0)]]
    ensures a.corrupted == 1 && a.marks == s.marks
  {
    hide Loaded, ScanTree;
    assert s.dirs[0][0 := Erased(File(0, 1))] == [Deleted(false, 0, 1), Directory(2, 0)];
    assert ScanRecord(v, LoadedFor(v, s, 0, 0), 0, 0, 1) == Drop(v, LoadedFor(v, s, 0, 0), 0, 0);
  }

  lemma FirstEntered(v: Volume, s: State, a: State)
    requires Fits(v, a) && Nested(v, s.dirs) && a.dirs == s.dirs[0 := [Deleted(false, 0, 1), Directory(2, 0)]]
    requires a.corrupted == 1 && a.marks == {0, 1}
    ensures v.perSector > 0 && |a.dirs| == |v.fat| > 17
    ensures var l := LoadedFor(v, a, 0, 1);
            && l == a.(buffer := l.buffer) && Fits(v, l) && 2 in v.signed && Acceptable(v, l.marks, 2)
            && (var m := Descended(v, l, 2);
                && m.dirs == a.dirs && Fits(v, m) && Nested(v, m.dirs) && m.corrupted == 1 && m.marks == {0, 1, 2}
                && forall c: nat :: 2 < c <= 17 ==> c !in m.marks)
  {
    hide Loaded, Entered;
    SingleChain(v.fat, v.end, 2);
  }

  /** A root directory of two records, of which the second is that of a directory. */
  lemma TwoRecords(v: Volume, s: State, a: State, t: State)
    requires Fits(v, s) && |s.dirs| > 0 && |s.dirs[0]| == 2 && !s.dirs[0][0].End? && a == ScanNext(v, s, 0, 0, false, 1)
    requires Fits(v, a) && |a.dirs[0]| == 2 && !a.dirs[0][1].End? && t == ScanRecord(v, LoadedFor(v, a, 0, 1), 0, 1, 1)
    requires |t.dirs| == |v.fat| && |t.dirs[0]| == 2
    ensures ScanClusters(v, s, [0], 0, false, 1) == t
  {
    hide ScanRecord, ScanNext;
    assert ScanNext(v, a, 0, 1, false, 1) == t by { NextIsRecord(v, a); }
    assert ScanCluster(v, t, 0, 2, false, 1) == (t, false);
    assert ScanCluster(v, a, 0, 1, false, 1) == (t, false);
    assert ScanCluster(v, s, 0, 0, false, 1) == (t, false);
    assert ScanClusters(v, t, [0], 1, false, 1) == t;
  }

  lemma NextIsRecord(v: Volume, a: State)
    requires Fits(v, a) && |a.dirs| > 0 && |a.dirs[0]| == 2 && !a.dirs[0][1].End?
    ensures ScanNext(v, a, 0, 1, false, 1) == ScanRecord(v, LoadedFor(v, a, 0, 1), 0, 1, 1)
  {
    hide ScanRecord;
  }

  lemma NestDone(v: Volume, dirs: Directories, a: State, m: State, t: State)
    requires Usable(v) && AllSingle(v) && dirs == NestedDirectories(|v.fat|) && InFront(v, dirs, 0)
    requires ScanClusters(v, Reserved(v, dirs, 0), [0], 0, false, 1) == t && ReadClusters(v, 0, 0) == [0]
    requires a.dirs == dirs[0 := [Deleted(false, 0, 1), Directory(2, 0)]] && m.dirs == a.dirs && Nested(v, m.dirs)
    requires m.corrupted == 1 && m.marks == {0, 1, 2}
    requires t.dirs == m.dirs && t.corrupted == m.corrupted
    requires forall c: nat :: c in t.marks <==> c in m.marks || 2 < c <= 17
    ensures ScanRoot(v, dirs, 0) == t && |v.fat| > 17 && |t.dirs| == |v.fat| && IsRecord(t.dirs, 0, 1)
    ensures t.dirs[0][1] == Directory(2, 0) && Nested(v, t.dirs)
    ensures t.corrupted == 1 && 18 !in t.marks && t.dirs[17] == [File(18, 1)]
  {
    hide ScanClusters;
  }
}
