/** Where check-disk begins to read the root directory (filesystem/chkdsk/src/chkdsk.c): behind the FATs, which on
    FAT32 is cluster 2, whatever cluster the boot sector names as the first of the root directory. */
module CheckDiskRoot {
  import opened Chains
  import opened CheckDiskScan
  import opened CheckDiskWalk
  import opened CheckDiskRepair
  import opened CheckDiskStable

  // ------------------------------------------------------------------ scanning records without chains

  ghost predicate Chainless(r: seq<Record>) {
    forall k :: 0 <= k < |r| ==> !HasChain(r[k])
  }

  /** A record without a chain adds no mark, and only that record may change. */
  lemma NextChainless(v: Volume, s: State, c: nat, k: nat, last: bool, level: nat)
    requires Fits(v, s) && IsPlace(s.dirs, c, k) && level <= MAX_NESTING_LEVEL && !HasChain(s.dirs[c][k])
    ensures var t := ScanNext(v, s, c, k, last, level);
            && t.marks == s.marks && t.corrupted >= s.corrupted && |t.dirs[c]| == |s.dirs[c]| && !HasChain(t.dirs[c][k])
            && (forall k' :: 0 <= k' < |s.dirs[c]| && k' != k ==> t.dirs[c][k'] == s.dirs[c][k'])
            && (forall c' :: 0 <= c' < |s.dirs| && c' != c ==> t.dirs[c'] == s.dirs[c'])
            && (!last && s.dirs[c][k].File? && s.dirs[c][k].size > 0 ==> t.corrupted > s.corrupted)
  {
    NoClusters(v.fat, v.end);
    hide Acceptable, Usable, Clusters, Loaded, Entered;
  }

  lemma {:induction false} ClusterChainless(v: Volume, s: State, c: nat, k: nat, last: bool, level: nat)
    requires Fits(v, s) && c < |s.dirs| && k <= |s.dirs[c]| && level <= MAX_NESTING_LEVEL && Chainless(s.dirs[c])
    ensures var t := ScanCluster(v, s, c, k, last, level).0;
            && t.marks == s.marks && t.corrupted >= s.corrupted && Chainless(t.dirs[c])
            && (forall c' :: 0 <= c' < |s.dirs| && c' != c ==> t.dirs[c'] == s.dirs[c'])
            && (k < |s.dirs[c]| && !last && s.dirs[c][k].File? && s.dirs[c][k].size > 0 ==> t.corrupted > s.corrupted)
    decreases |s.dirs[c]| - k
  {
    if k < |s.dirs[c]| {
      NextChainless(v, s, c, k, last, level);
      hide ScanNext;
      var t := ScanNext(v, s, c, k, last, level);
      ClusterChainless(v, t, c, k + 1, last || s.dirs[c][k].End?, level);
    }
  }

  lemma {:induction false} ClustersChainless(v: Volume, s: State, p: seq<nat>, i: nat, last: bool, level: nat)
    requires Fits(v, s) && i <= |p| && Inside(v, p) && level <= MAX_NESTING_LEVEL
    requires forall j :: 0 <= j < |p| ==> Chainless(s.dirs[p[j]])
    ensures var t := ScanClusters(v, s, p, i, last, level);
            && t.marks == s.marks && t.corrupted >= s.corrupted
            && (forall c :: 0 <= c < |s.dirs| && c !in p ==> t.dirs[c] == s.dirs[c])
    decreases |p| - i
  {
    hide ScanCluster;
    if i < |p| {
      var t := ScanCluster(v, s, p[i], 0, last, level);
      ClusterChainless(v, s, p[i], 0, last, level);
      ClustersChainless(v, t.0, p, i + 1, t.1, level);
    }
  }

  // ------------------------------------------------------------------ which root directories are kept

  /** After a repair the chains of the root directory and of everything below it, as far as the scan goes, are as
      before. */
  ghost predicate Keeps(v: Volume, dirs: Directories, root: nat)
    requires Usable(v) && |dirs| == |v.fat|
  {
    var t := WalkRoot(v, dirs, root);
    forall p :: Survives(v, t.dirs, root, 1, p) && p.At? && IsRecord(t.dirs, p.cluster, p.index) ==>
      ChainStays(v, RepairedFat(v, t), t.dirs[p.cluster][p.index].start)
  }

  /** The root directory is read where it is. */
  lemma RootKept(v: Volume, dirs: Directories, root: nat)
    requires Rooted(v, dirs, root)
    ensures Usable(v) && |dirs| == |v.fat| && Keeps(v, dirs, root)
  {
    var t := WalkRoot(v, dirs, root);
    if t.corrupted != 0 {
      var owners := RepairKeepsSurvivors(v, dirs, root);
      hide WalkRoot, Survives, Chain, Swept;
      forall p | Survives(v, t.dirs, root, 1, p) && p.At? && IsRecord(t.dirs, p.cluster, p.index)
        ensures ChainStays(v, RepairedFat(v, t), t.dirs[p.cluster][p.index].start)
      {
        assert p in owners && Placed(t.dirs, p, owners[p]);
      }
    }
  }

  /** A volume whose only file stands in the first cluster of a root directory that starts elsewhere; cluster 2 has a
      record that is deleted. */
  function Elsewhere(n: nat, root: nat, f: nat): (dirs: Directories)
    ensures |dirs| == n
  {
    seq(n, c => if c == root then [File(f, 1)] else if c == 2 then [File(0, 1)] else [])
  }

  /** Its file stays in place but loses its clusters. */
  lemma ElsewhereLost(v: Volume, root: nat, f: nat)
    requires Usable(v) && Ends(v.fat, v.end, root) && root != 2 && Ends(v.fat, v.end, f)
    requires f !in Clusters(v.fat, v.end, root) && f < |v.fat| - 1
    ensures var dirs := Elsewhere(|v.fat|, root, f);
            var t := WalkRoot(v, dirs, root);
            t.dirs[root] == [File(f, 1)] && Survives(v, t.dirs, root, 1, At(root, 0)) && RepairedFat(v, t)[f] == 0 &&
              !Keeps(v, dirs, root) && LabelsCalm(v, dirs, root)
  {
    hide *;
    var dirs := Elsewhere(|v.fat|, root, f);
    ElsewhereScanned(v, root, f);
    var t := WalkRoot(v, dirs, root);
    SurvivesInRoot(v, t.dirs, root, f);
    SweptAway(v, t, root, f);
    ZeroEndsNothing(v, RepairedFat(v, t), f);
    NotKept(v, dirs, root, f);
  }

  lemma ElsewhereScanned(v: Volume, root: nat, f: nat)
    requires Usable(v) && Ends(v.fat, v.end, root) && root != 2 && Ends(v.fat, v.end, f)
    ensures var t := WalkRoot(v, Elsewhere(|v.fat|, root, f), root);
            && 3 <= |v.fat| <= v.end && root < |t.dirs| == |v.fat| && IsCluster(v.fat, f) && f >= 2
            && t.marks == {0, 1} + Clusters(v.fat, v.end, root) && t.corrupted > 0 && t.dirs[root] == [File(f, 1)]
            && LabelsCalm(v, Elsewhere(|v.fat|, root, f), root)
  {
    hide ScanClusters, Usable, Clusters, WalkRoot, LabelsCalm;
    var dirs := Elsewhere(|v.fat|, root, f);
    var read := ReadClusters(v, 2, root);
    ElsewherePath(v, root, f);
    FirstDropped(v, Reserved(v, dirs, root), read);
    ElsewhereRead(v, root, f);
  }

  lemma ElsewherePath(v: Volume, root: nat, f: nat)
    requires Usable(v) && Ends(v.fat, v.end, root) && root != 2 && Ends(v.fat, v.end, f)
    ensures var dirs, read := Elsewhere(|v.fat|, root, f), ReadClusters(v, 2, root);
            && 3 <= |v.fat| <= v.end && root < |v.fat| && IsCluster(v.fat, f) && Inside(v, read) && |read| > 0 &&
               read[0] == 2
            && root !in read && Fits(v, Reserved(v, dirs, root)) && forall j ::
               0 <= j < |read| ==> Chainless(dirs[read[j]])
  {
    hide Chain, Ends, HasStop;
    var p := Chain(v.fat, v.end, root);
    ChainNoRepeat(v.fat, v.end, root, p);
    LastOfChain(v.fat, v.end, root, p, 0);
    LastOfChain(v.fat, v.end, f, Chain(v.fat, v.end, f), 0);
    assert ReadClusters(v, 2, root) == p[0 := 2];
  }

  /** There are no labels. */
  lemma ElsewhereRead(v: Volume, root: nat, f: nat)
    requires Usable(v) && Ends(v.fat, v.end, root)
    ensures var dirs := Elsewhere(|v.fat|, root, f);
            LabelsCalm(v, dirs, root) && WalkRoot(v, dirs, root) == ScanRoot(v, dirs, root)
  {
    hide WalkRoot, ScanRoot, Calm, Ends, HasStop;
    var dirs := Elsewhere(|v.fat|, root, f);
    NoLabelsCalm(v, dirs, ReadClusters(v, RootFirst(root), root), 1);
    RootAgrees(v, dirs, root);
  }

  lemma SweptAway(v: Volume, t: State, root: nat, f: nat)
    requires IsCluster(v.fat, f) && f < |v.fat| - 1 && f !in Clusters(v.fat, v.end, root)
    requires t.marks == {0, 1} + Clusters(v.fat, v.end, root) && t.corrupted > 0
    ensures RepairedFat(v, t)[f] == 0
  {
  }

  lemma NotKept(v: Volume, dirs: Directories, root: nat, f: nat)
    requires Usable(v) && |dirs| == |v.fat|
    requires var t := WalkRoot(v, dirs, root);
             && root < |t.dirs| && t.dirs[root] == [File(f, 1)] && f != 0
             && Survives(v, t.dirs, root, 1, At(root, 0)) && !ChainStays(v, RepairedFat(v, t), f)
    ensures !Keeps(v, dirs, root)
  {
    var t := WalkRoot(v, dirs, root);
    assert IsRecord(t.dirs, root, 0);
    hide WalkRoot, Survives, ChainStays;
  }

  lemma FirstDropped(v: Volume, s: State, read: seq<nat>)
    requires Fits(v, s) && Inside(v, read) && |read| > 0 && read[0] == 2 && 2 < |s.dirs| && s.dirs[2] == [File(0, 1)]
    requires forall j :: 0 <= j < |read| ==> Chainless(s.dirs[read[j]])
    ensures var t := ScanClusters(v, s, read, 0, false, 1);
            t.marks == s.marks && t.corrupted > s.corrupted && forall c ::
              0 <= c < |s.dirs| && c !in read ==> t.dirs[c] == s.dirs[c]
  {
    hide ScanCluster;
    ClusterChainless(v, s, 2, 0, false, 1);
    var m := ScanCluster(v, s, 2, 0, false, 1);
    ClustersChainless(v, m.0, read, 1, m.1, 1);
  }

  lemma SurvivesInRoot(v: Volume, dirs: Directories, root: nat, f: nat)
    requires Ends(v.fat, v.end, root) && root < |dirs| && dirs[root] == [File(f, 1)] && f != 0
    ensures Survives(v, dirs, root, 1, At(root, 0))
  {
    assert DirClusters(v, root)[0] == root;
    assert IsRecord(dirs, root, 0) && Under(v, dirs, root, 0, 1, At(root, 0));
  }

  lemma ZeroEndsNothing(v: Volume, fat: seq<nat>, f: nat)
    requires Ends(v.fat, v.end, f) && |fat| == |v.fat| && f < |fat| && fat[f] == 0 && 3 <= |fat| <= v.end
    ensures !ChainStays(v, fat, f)
  {
    if Ends(fat, v.end, f) {
      var p := Chain(fat, v.end, f);
      LastOfChain(fat, v.end, f, p, 0);
    }
  }

  /** Whatever the directories hold, as long as misplaced labels stay in their sectors, check-disk keeps the chains
      of what it leaves in the root directory and below it exactly if the root directory is the fixed one or starts
      at cluster 2, provided that there is a chain outside the root directory. */
  lemma KeptExactlyAtFront(v: Volume, root: nat, f: nat)
    requires Usable(v) && (root == 0 || Ends(v.fat, v.end, root))
    requires Ends(v.fat, v.end, f) && f !in Clusters(v.fat, v.end, root) && f < |v.fat| - 1
    ensures (forall dirs :: |dirs| == |v.fat| && LabelsCalm(v, dirs, root) ==> Keeps(v, dirs, root)) <==>
            root == 0 || root == 2
  {
    hide Keeps, LabelsCalm, WalkRoot;
    if root == 0 || root == 2 {
      forall dirs: Directories | |dirs| == |v.fat| && LabelsCalm(v, dirs, root)
        ensures Keeps(v, dirs, root)
      {
        RootKept(v, dirs, root);
      }
    } else {
      ElsewhereLost(v, root, f);
      assert !Keeps(v, Elsewhere(|v.fat|, root, f), root);
    }
  }
}
