/** The check-disk utility (filesystem/chkdsk/src/chkdsk.c): it marks the clusters of all files and
    directories that are in order, deletes the records of the others, and then frees the entries of the
    clusters that nobody uses. */
module CheckDisk {
  import opened Division
  import opened CheckDiskWords
  import opened CheckDiskBitCache
  import opened CheckDiskStore
  import opened Chains
  import opened CheckDiskScan
  import opened CheckDiskWalk
  import opened CheckDiskRepair

  class Checker {
    const store: Store
    const root: nat           // Rootdirstartcx: 0 stands for the fixed root directory of FAT16
    const clusterBytes: nat
    const perSector: nat      // cachedDirRecordsPerSector
    const signed: set<nat>
    const front: seq<Record>

    /** The directory records on the device, and as they are seen through the directory buffer. */
    var device: Directories
    var dirs: Directories

    /** CurSect, Control and StartSectCurDir of the directory buffer. */
    var held: Held
    var dirty: bool
    var current: nat

    /** glb_wFileCorrupted. */
    var corrupted: nat

    constructor (store: Store, root: nat, clusterBytes: nat, perSector: nat, signed: set<nat>, front: seq<Record>,
        dirs: Directories)
      ensures this.store == store && this.root == root && this.clusterBytes == clusterBytes
      ensures this.perSector == perSector
      ensures this.signed == signed && this.front == front && this.dirs == device == dirs
      ensures held == Nothing && !dirty && corrupted == 0 && current == RootFirst(root)
    {
      this.store, this.root, this.clusterBytes, this.perSector, this.signed :=
        store, root, clusterBytes, perSector, signed;
      this.front, this.dirs, device, held, dirty, corrupted := front, dirs, dirs, Nothing, false, 0;
      current := if root == 0 then 0 else 2;
    }

    function End(): (e: nat)
      ensures e < BAD_CLUSTER
    {
      EndMark(store.fat32)
    }

    ghost function Fat(): (f: seq<nat>)
      reads store
      ensures |f| == store.total + 1
    {
      store.Fat()
    }

    ghost function Marks(): set<nat>
      reads store, store.entryStatus
    {
      store.Marks()
    }

    ghost function Vol(): Volume
      reads store
    {
      Volume(Fat(), End(), clusterBytes, perSector, signed, front)
    }

    ghost function Now(): State
      reads this, store, store.entryStatus
    {
      State(dirs, Marks(), corrupted, DirBuffer(device, held, dirty, current))
    }

    /** The storage layer is in order and no entry has been freed yet. */
    ghost predicate Checking()
      reads store, store.fatBuffer, store.descriptors, store.cacheMem, store.entryStatus
    {
      store.Valid() && !store.fatDirty && WellFormed(Fat(), End()) && {0, 1} <= Marks()
    }

    /** The first FAT has its content, and only sectors of the first FAT and sectors for bits differ. */
    ghost predicate Steady(sectors: seq<Sector>, image: seq<Sector>)
      reads store
    {
      store.OnlyFats(sectors) && store.fatImage == image
    }

    // ---------------------------------------------------------------- marking one chain

    /** Changes the mark of a cluster and steps on to the next one. */
    method MarkAndStep(cluster: nat, op: BitOperation) returns (next: nat)
      requires Checking() && 2 <= cluster <= store.total && !op.GetBit?
      modifies store, store.Arrays()
      ensures Checking() && Fat() == old(Fat()) && Steady(old(store.sectors), old(store.fatImage))
      ensures next == Fat()[cluster] && Marks() == if op.SetBit? then old(Marks()) + {cluster}
              else old(Marks()) - {cluster}
    {
      hide Store.Valid, Store.Fat, Store.Marks, WellFormed;
      var _ := store.Bit(cluster, op);
      next := store.NextCluster(cluster);
    }

    /** The loop that takes back the marks of the first `n` clusters of a chain. */
    method Unmark(start: nat, n: nat, ghost p: seq<nat>) returns (ok: bool)
      requires Checking() && IsPath(Fat(), p) && n <= |p| && (n > 0 ==> p[0] == start)
      modifies store, store.Arrays()
      ensures Checking() && Fat() == old(Fat()) && Steady(old(store.sectors), old(store.fatImage))
      ensures ok && Marks() == old(Marks()) - Elements(p[..n])
    {
      hide Checking, Store.Valid, Store.Fat, Store.Marks, Elements, WellFormed;
      NoBadEntries();
      assert Elements(p[..0]) == {} by { NoElements(p[..0]); }
      var cluster := start;
      var i := 0;
      ok := true;
      while i < n
        invariant 0 <= i <= n && ok && (i < n ==> cluster == p[i])
        invariant Checking() && Fat() == old(Fat()) && Steady(old(store.sectors), old(store.fatImage))
        invariant Marks() == old(Marks()) - Elements(p[..i])
      {
        ElementsNext(p, i);
        cluster := MarkAndStep(cluster, FreeBit);
        if cluster == BAD_CLUSTER {
          ok := false;
          break;
        }
        i := i + 1;
      }
    }

    lemma NoBadEntries()
      requires Checking()
      ensures forall c :: 2 <= c < |Fat()| ==> Fat()[c] != BAD_CLUSTER
    {
      EntriesNotBad(Fat());
    }

    lemma ElementsNext(p: seq<nat>, i: nat)
      requires i < |p|
      ensures Elements(p[..i + 1]) == Elements(p[..i]) + {p[i]}
    {
      forall x | x in Elements(p[..i]) + {p[i]} ensures x in Elements(p[..i + 1]) {
        if x != p[i] {
          var j :| 0 <= j < i && p[..i][j] == x;
          assert p[..i + 1][j] == x;
        } else {
          assert p[..i + 1][i] == x;
        }
      }
    }

    lemma NoElements(p: seq<nat>)
      requires p == []
      ensures Elements(p) == {}
    {
    }

    /** Marks the chain from `start`, or leaves the marks as they were and returns -1. */
    method CheckCrossLinkFile(start: nat) returns (count: int)
      requires Checking()
      modifies store, store.Arrays()
      ensures Checking() && Fat() == old(Fat()) && Steady(old(store.sectors), old(store.fatImage))
      ensures Checked(Fat(), End(), start, old(Marks()), count, Marks())
    {
      ghost var fat, marks := Fat(), Marks();
      if start == 0 {
        return 0;
      }
      if start > store.total {
        CheckedOutside(fat, End(), start, marks);
        return -1;
      }
      count := MarkChain(start);
    }

    /** The loop of CheckCrossLinkFile. */
    method MarkChain(start: nat) returns (count: int)
      requires Checking() && 1 <= start <= store.total
      modifies store, store.Arrays()
      ensures Checking() && Fat() == old(Fat()) && Steady(old(store.sectors), old(store.fatImage))
      ensures Checked(Fat(), End(), start, old(Marks()), count, Marks())
    {
      hide Store.Valid, Store.Fat, Store.Marks, Checked, Followed, IsPath, Elements, EndMark;
      ghost var fat, marks := Fat(), Marks();
      var cluster := start;
      count := 1;
      ghost var p: seq<nat> := [];
      FollowNone(fat, start, p);
      while true
        invariant Checking() && Fat() == fat && Steady(old(store.sectors), old(store.fatImage))
        invariant 1 <= count == |p| + 1 && (p == [] || count < store.total) && 1 <= cluster <= store.total
        invariant Followed(fat, start, p, cluster) && Elements(p) !! marks && Marks() == marks + Elements(p)
        decreases store.total - count
      {
        var bit := store.Bit(cluster, SetBit);
        if bit != 0 {
          CheckedConflict(fat, End(), start, p, cluster, marks);
          TakeBack(start, count - 1, p, cluster, marks);
          count := -1;
          break;
        }
        FollowNext(fat, start, p, cluster);
        p := p + [cluster];
        assert Marks() == marks + Elements(p);
        cluster := store.NextCluster(cluster);
        if cluster == BAD_CLUSTER {
          break;
        }
        if cluster <= 1 {
          CheckedDeadEnd(fat, End(), start, p, cluster, marks);
          TakeBack(start, count, p, cluster, marks);
          count := -1;
          break;
        }
        if cluster == End() {
          CheckedEnd(fat, End(), start, p, marks);
          break;
        }
        count := count + 1;
        if count >= store.total {
          CheckedAll(fat, End(), start, p, cluster, marks);
          break;
        }
      }
    }

    /** Cleaning up a chain that has been marked only in part. */
    method TakeBack(start: nat, n: nat, ghost p: seq<nat>, ghost w: nat, ghost marks: set<nat>)
      requires Checking() && Followed(Fat(), start, p, w) && n == |p|
      requires Elements(p) !! marks && Marks() == marks + Elements(p)
      modifies store, store.Arrays()
      ensures Checking() && Fat() == old(Fat()) && Marks() == marks && Steady(old(store.sectors), old(store.fatImage))
    {
      TakenBack(marks, p);
      hide Elements, Checking, IsPath;
      var _ := Unmark(start, n, p);
    }

    lemma FollowNone(fat: seq<nat>, s: nat, p: seq<nat>)
      requires p == []
      ensures Followed(fat, s, p, s) && Elements(p) == {}
    {
    }

    /** Marks the clusters of the root directory. Its chain has to end: nothing bounds the loop. */
    method ReserveCluster(start: nat)
      requires Checking() && (start == 0 || Ends(Fat(), End(), start))
      modifies store, store.Arrays()
      ensures Checking() && Fat() == old(Fat()) && Steady(old(store.sectors), old(store.fatImage))
      ensures Marks() == old(Marks()) + Clusters(Fat(), End(), start)
    {
      if start != 0 {
        ghost var p := Chain(Fat(), End(), start);
        assert Clusters(Fat(), End(), start) == Elements(p);
        ReserveChain(start, p);
      } else {
        NoClusters(Fat(), End());
      }
    }

    method ReserveChain(start: nat, ghost p: seq<nat>)
      requires Checking() && IsChain(Fat(), End(), start, p)
      modifies store, store.Arrays()
      ensures Checking() && Fat() == old(Fat()) && Steady(old(store.sectors), old(store.fatImage))
      ensures Marks() == old(Marks()) + Elements(p)
    {
      hide Checking, Store.Valid, Store.Fat, Store.Marks, Elements, EndMark, WellFormed, IsPath;
      ghost var marks := Marks();
      assert Elements(p[..0]) == {} by { NoElements(p[..0]); }
      assert |Fat()| <= End() by { FatSize(); }
      var cluster := start;
      ghost var i := 0;
      while true
        invariant Checking() && Fat() == old(Fat()) && Steady(old(store.sectors), old(store.fatImage))
        invariant i < |p| && cluster == p[i] && Marks() == marks + Elements(p[..i])
        decreases |p| - i
      {
        ElementsNext(p, i);
        LastOfChain(Fat(), End(), start, p, i);
        cluster := MarkAndStep(cluster, SetBit);
        assert Marks() == marks + Elements(p[..i + 1]);
        if cluster == BAD_CLUSTER || cluster == End() {
          break;
        }
        i := i + 1;
      }
    }

    // ---------------------------------------------------------------- scanning directories

    ghost predicate Ready()
      reads this, store, store.fatBuffer, store.descriptors, store.cacheMem, store.entryStatus
    {
      Checking() && Fits(Vol(), Now())
    }

    /** Marks a chain if it ends and is unmarked. */
    method CheckChain(start: nat) returns (count: int)
      requires Ready() && start != 0
      modifies store, store.Arrays()
      ensures Ready() && Vol() == old(Vol()) && dirs == old(dirs) && corrupted == old(corrupted)
      ensures Steady(old(store.sectors), old(store.fatImage))
      ensures if Acceptable(Vol(), old(Marks()), start)
              then count == |Chain(Fat(), End(), start)| > 0 && Now() == Mark(Vol(), old(Now()), start)
              else count == -1 && Now() == old(Now())
    {
      hide Checking, Checked, EndsUnmarked, HasStop, Ends, Chain, Clusters, WellFormed;
      ghost var marks := Marks();
      assert |Fat()| >= 3 by { FatSize(); }
      count := CheckCrossLinkFile(start);
      CheckedWithStop(Fat(), End(), start, marks, count, Marks());
    }

    lemma FatSize()
      requires Checking()
      ensures 3 <= |Fat()| <= End()
    {
    }

    /** Does the directory begin as it should, and can its chain be marked? Cluster 0 never passes. */
    method ScanDirectory(start: nat) returns (ok: bool)
      requires Ready() && perSector > 0
      modifies this`device, this`held, this`dirty, store, store.Arrays()
      ensures Ready() && Vol() == old(Vol()) && Steady(old(store.sectors), old(store.fatImage))
      ensures ok <==> start in signed && Acceptable(Vol(), old(Marks()), start)
      ensures var e := Loaded(Vol(), old(Now()), Sector(start, 0)); Now() == if ok then Mark(Vol(), e, start) else e
    {
      hide Checking, Acceptable, Mark, HasStop, Usable, Loaded;
      ReadDirSector(Sector(start, 0));
      ok := false;
      if start in signed {
        SignedNotZero(start);
        var count := CheckChain(start);
        ok := count >= 0;
      }
    }

    lemma SignedNotZero(start: nat)
      requires Ready() && start in signed
      ensures start != 0
    {
    }

    /** The buffer is written to the device if it is dirty. */
    method Flush()
      requires Ready() && perSector > 0
      modifies this`device, this`dirty
      ensures Ready() && Now() == Written(Vol(), old(Now()))
    {
      if dirty {
        device := WriteBack(perSector, dirs, DirBuffer(device, held, dirty, current));
        dirty := false;
      }
    }

    /** Another sector is loaded after a due write-back. */
    method ReadDirSector(sector: Held)
      requires Ready() && perSector > 0
      modifies this`device, this`held, this`dirty
      ensures Ready() && Now() == Loaded(Vol(), old(Now()), sector)
    {
      if held != sector {
        Flush();
        held := sector;
      }
    }

    /** The loop that looks for the parts of a long name in front of a record. What it does to them is left out. */
    method LookForName(c: nat, k: nat)
      requires Ready() && perSector > 0
      modifies this`device, this`held, this`dirty
      ensures Ready() && Now() == LookBack(Vol(), old(Now()), c, k, MAX_ENTRIES_LONG_FILE_NAME)
    {
      hide Ready, LookBack;
      ghost var v, s := Vol(), Now();
      var d: nat, j: nat, n: nat := c, k, MAX_ENTRIES_LONG_FILE_NAME;
      var more := true;
      while more
        invariant Ready() && Vol() == v
        invariant (if more then LookBack(v, Now(), d, j, n) else Now()) ==
                  LookBack(v, s, c, k, MAX_ENTRIES_LONG_FILE_NAME)
        decreases n, more
      {
        more, d, j := LookOnce(d, j, n);
        if more {
          n := n - 1;
        }
      }
    }

    /** Looks at the record in front of one; `more` says that it is part of a long name. */
    method LookOnce(c: nat, k: nat, n: nat) returns (more: bool, d: nat, j: nat)
      requires Ready() && perSector > 0
      modifies this`device, this`held, this`dirty
      ensures Ready() && Vol() == old(Vol()) && (more ==> n > 0)
      ensures (if more then LookBack(Vol(), Now(), d, j, n - 1) else Now()) == LookBack(Vol(), old(Now()), c, k, n)
    {
      hide Ready, Loaded;
      if k == 0 {
        var sector := SectorInFront(c);
        ReadDirSector(sector);
        more, d, j := false, 0, 0;
        if sector.Sector? && |dirs[sector.cluster]| > 0 {
          d, j := sector.cluster, |dirs[sector.cluster]| - 1;
          more := n > 0 && IsLong(dirs[d][j]);
        }
      } else {
        d, j := c, k - 1;
        ReadDirSector(Sector(c, (k - 1) / perSector));
        more := n > 0 && IsPlace(dirs, c, k - 1) && IsLong(dirs[c][k - 1]);
      }
    }

    /** The number of the sector in front of a cluster's first one. */
    method SectorInFront(c: nat) returns (sector: Held)
      requires perSector > 0
      ensures sector == SectorBefore(Vol(), dirs, c) && (sector.Sector? ==> sector.cluster < |dirs|)
    {
      var b := if c > 2 then c - 1 else 0;
      sector := if 0 < c && b < |dirs| && |dirs[b]| > 0 then Sector(b, (|dirs[b]| - 1) / perSector) else Front;
    }

    /** Marks a record deleted. */
    method DeleteFileRecord(c: nat, k: nat)
      requires Ready() && IsPlace(dirs, c, k) && perSector > 0
      modifies this`dirs, this`corrupted, this`device, this`held, this`dirty
      ensures Ready() && Now() == Drop(Vol(), old(Now()), c, k)
    {
      hide Ready, LookBack, Loaded, Store.Fat, Store.Marks, Store.Valid, Put;
      EraseRecord(c, k);
      if !(k == 0 && current == c) {
        LookForName(c, k);
      }
    }

    /** Counts a deletion and marks the record. */
    method EraseRecord(c: nat, k: nat)
      requires Ready() && IsPlace(dirs, c, k) && perSector > 0
      modifies this`dirs, this`corrupted, this`device, this`held, this`dirty
      ensures Ready()
      ensures Now() == Changed(LoadedFor(Vol(), old(Now()), c, k), c, k, Erased(old(dirs)[c][k])).(corrupted :=
              old(corrupted) + 1)
    {
      hide Checking, Usable, WriteBack;
      corrupted := corrupted + 1;
      ReadDirSector(Sector(c, k / perSector));
      dirs := Put(dirs, c, k, Erased(dirs[c][k]));
      dirty := true;
    }

    /** Gives up the marks of a file whose size does not fit its chain. */
    method UnmarkFile(start: nat, count: nat, ghost before: State) returns (ok: bool)
      requires Ready() && Ends(Fat(), End(), start) && count == |Chain(Fat(), End(), start)|
      requires before.marks !! Clusters(Fat(), End(), start) && Now() == Mark(Vol(), before, start)
      modifies store, store.Arrays()
      ensures Ready() && Vol() == old(Vol()) && dirs == old(dirs) && corrupted == old(corrupted)
      ensures Steady(old(store.sectors), old(store.fatImage))
      ensures ok && Now() == before
    {
      ghost var p := Chain(Fat(), End(), start);
      MarkedChain(Vol(), before, start);
      hide Checking, HasStop, IsPath, Elements, Ends, Chain, WellFormed, Clusters, Mark, Store.Valid, Store.Fat;
      hide Store.Marks, EndMark, Steady, NoRepeat;
      ok := Unmark(start, count, p);
    }

    lemma MarkedChain(v: Volume, s: State, start: nat)
      requires Ends(v.fat, v.end, start) && s.marks !! Clusters(v.fat, v.end, start)
      ensures var p := Chain(v.fat, v.end, start);
              p[..|p|] == p && IsPath(v.fat, p) && p[0] == start &&
                Mark(v, s, start).(marks := Mark(v, s, start).marks - Elements(p)) == s
    {
    }

    /** The chain of a file: it is marked if it can be and its length fits the size. */
    method CheckFile(start: nat, size: nat) returns (ok: bool, keep: bool)
      requires Ready() && start != 0 && size != 0
      modifies store, store.Arrays()
      ensures Ready() && Vol() == old(Vol()) && dirs == old(dirs) && corrupted == old(corrupted)
      ensures Steady(old(store.sectors), old(store.fatImage))
      ensures ok && keep == FileFits(Vol(), old(Marks()), start, size)
      ensures Now() == if keep then Mark(Vol(), old(Now()), start) else old(Now())
    {
      ghost var v, before := Vol(), Now();
      hide Checking, HasStop, WellFormed, Acceptable, Mark, Ends, Clusters, Chain, Store.Valid;
      var count := CheckChain(start);
      ok, keep := true, count >= 0;
      if keep && count != size {
        var sizeInClusters := size / clusterBytes;
        if sizeInClusters > count || sizeInClusters < count - 1 {
          AcceptableEnds(v, before.marks, start);
          ok := UnmarkFile(start, count, before);
          keep := false;
        }
      }
    }

    /** A file record. */
    method ScanFile(c: nat, k: nat) returns (ok: bool)
      requires Ready() && IsPlace(dirs, c, k)
      modifies this`dirs, this`corrupted, this`device, this`held, this`dirty, this`current, store, store.Arrays()
      ensures Ready() && Vol() == old(Vol()) && Steady(old(store.sectors), old(store.fatImage))
      ensures ok && Now() == WalkFile(old(Vol()), old(Now()), c, k)
      ensures var start, size, fat, cb := old(dirs)[c][k].start, old(dirs)[c][k].size, old(Fat()), clusterBytes;
              old(dirs)[c][k].File? ==>
                if start == 0 && size == 0 then dirs == old(dirs) && Marks() == old(Marks())
                else if start != 0 && size != 0 && EndsUnmarked(fat, End(), start, old(Marks())) &&
                   var p := Chain(fat, End(), start);
                   size == |p| || (|p| - 1) * cb <= size < (|p| + 1) * cb
                then dirs == old(dirs) && Marks() == old(Marks()) + Elements(Chain(fat, End(), start))
                else dirs == Put(old(dirs), c, k, Erased(old(dirs)[c][k])) && Marks() == old(Marks())
    {
      hide Checking, HasStop, WellFormed, Acceptable, Ends, Clusters, Chain, SizeFits, Store.Valid, Drop;
      ghost var v, s := Vol(), Now();
      var start, size := dirs[c][k].start, dirs[c][k].size;
      ok := true;
      if start == 0 && size == 0 {
        NoClusters(Fat(), End());
      } else if start == 0 || size == 0 {
        DeleteFileRecord(c, k);
      } else {
        var keep;
        ok, keep := CheckFile(start, size);
        if !keep {
          DeleteFileRecord(c, k);
        }
      }
      if s.dirs[c][k].File? {
        FileStaysExactly(v, s, c, k);
      }
    }

    lemma AcceptableEnds(v: Volume, marks: set<nat>, start: nat)
      requires Acceptable(v, marks, start)
      ensures Ends(v.fat, v.end, start) && marks !! Clusters(v.fat, v.end, start)
    {
    }

    /** A record of a subdirectory: it stays if the directory is in order, and then that is scanned. */
    method ScanSubDirectory(c: nat, k: nat, level: nat) returns (ok: bool)
      requires Ready() && IsPlace(dirs, c, k) && level <= MAX_NESTING_LEVEL
      modifies this`dirs, this`corrupted, this`device, this`held, this`dirty, this`current, store, store.Arrays()
      ensures Ready() && Vol() == old(Vol()) && Steady(old(store.sectors), old(store.fatImage))
      ensures ok && Now() == WalkDirectory(old(Vol()), old(Now()), c, k, level)
      decreases MAX_NESTING_LEVEL + 1 - level, 0, 0
    {
      hide Ready, HasStop, WellFormed, Acceptable, Store.Valid, Store.Fat, Store.Marks, WalkTree, WalkFrom, Ends;
      hide Clusters;
      hide Loaded, Written, Drop, Fits, Usable;
      ghost var v, s := Vol(), Now();
      SectorSize();
      var start := dirs[c][k].start;
      Flush();
      SetCurrent(start);
      var legitimate := ScanDirectory(start);
      if legitimate {
        AcceptableEnds(v, s.marks, start);
        EndsInside(v, start);
        SectorSize();
        WalkFromStart(v, Now(), start, level + 1);
        ok := ScanFilesAndSubDirs(start, start, level + 1);
      } else {
        DeleteFileRecord(c, k);
        ok := true;
      }
    }

    /** The directory control block is set up for a subdirectory. */
    method SetCurrent(start: nat)
      requires Ready()
      modifies this`current
      ensures Ready() && Now() == old(Now()).(buffer := old(Now()).buffer.(current := start))
    {
      current := start;
    }

    lemma SectorSize()
      requires Ready()
      ensures perSector > 0 && Fits(Vol(), Now())
    {
    }

    lemma EndsInside(v: Volume, start: nat)
      requires Ends(v.fat, v.end, start)
      ensures start < |v.fat|
    {
    }

    /** A record that is in use, as it is seen in the buffer, at nesting level `level`. A file or a directory is read
        from its own sector; after a label has been deleted the buffer is used as it is. */
    method ScanDirRecord(seen: Record, c: nat, k: nat, stale: bool, level: nat) returns (ok: bool, stale': bool)
      requires Ready() && IsPlace(dirs, c, k) && level <= MAX_NESTING_LEVEL
      requires seen == Seen(perSector, front, dirs, held, k)
      modifies this`dirs, this`corrupted, this`device, this`held, this`dirty, this`current, store, store.Arrays()
      ensures Ready() && Vol() == old(Vol()) && Steady(old(store.sectors), old(store.fatImage))
      ensures ok && Cursor(Now(), false, stale') == WalkSeen(old(Vol()), old(Now()), seen, c, k, stale, level)
      decreases MAX_NESTING_LEVEL + 1 - level, 1, 0
    {
      hide Ready, HasStop, WellFormed, Store.Valid, Store.Fat, Store.Marks, WalkDirectory, WalkFile, Drop, Loaded;
      hide Written, Usable;
      SectorSize();
      ok, stale' := true, stale;
      match seen
      case Directory(_, _) =>
        ReadDirSector(Sector(c, k / perSector));
        ok := ScanSubDirectory(c, k, level);
        stale' := false;
      case File(_, _) =>
        ReadDirSector(Sector(c, k / perSector));
        ok := ScanFile(c, k);
        stale' := false;
      case VolumeLabel(start, _) =>
        if level != 1 || start != 0 {
          DeleteFileRecord(c, k);
          stale' := true;
        }
      case _ =>
    }

    /** A record behind the end of the directory gets a zero first byte in the buffer. */
    method EndRecord(k: nat)
      requires Ready() && perSector > 0
      modifies this`dirs, this`dirty
      ensures Ready() && Now() == SeenEnded(Vol(), old(Now()), k)
    {
      hide Checking, Usable;
      match held
      case Sector(c, n) =>
        var j := PlaceSeen(perSector, n, k);
        if IsPlace(dirs, c, j) {
          dirs := Put(dirs, c, j, Ended(dirs[c][j]));
          dirty := true;
        }
      case _ =>
    }

    /** One record, with the sector that it is in if that has to be loaded. */
    method ScanNextRecord(c: nat, k: nat, last: bool, stale: bool, level: nat) returns (ok: bool, last': bool,
        stale': bool)
      requires Ready() && IsPlace(dirs, c, k) && level <= MAX_NESTING_LEVEL
      modifies this`dirs, this`corrupted, this`device, this`held, this`dirty, this`current, store, store.Arrays()
      ensures Ready() && Vol() == old(Vol()) && Steady(old(store.sectors), old(store.fatImage))
      ensures ok && Cursor(Now(), last', stale') == WalkNext(old(Vol()), Cursor(old(Now()), last, stale), c, k, level)
      decreases MAX_NESTING_LEVEL + 1 - level, 2, 0
    {
      hide Ready, HasStop, WellFormed, Store.Valid, Store.Fat, Store.Marks, WalkSeen, Seen, SeenEnded, Loaded, Written;
      hide Usable;
      SectorSize();
      ok, last', stale' := true, last, stale && Remainder(k, perSector) != 0;
      if !stale' {
        ReadDirSector(Sector(c, k / perSector));
      }
      var seen := Seen(perSector, front, dirs, held, k);
      if seen.End? {
        last' := true;
      } else if last {
        EndRecord(k);
      } else {
        ok, stale' := ScanDirRecord(seen, c, k, stale', level);
      }
    }

    /** The records of one cluster; `last` says that the end of the directory has been seen. */
    method ScanClusterRecords(c: nat, lastEntry: bool, level: nat) returns (ok: bool, last: bool)
      requires Ready() && c < |dirs| && level <= MAX_NESTING_LEVEL
      modifies this`dirs, this`corrupted, this`device, this`held, this`dirty, this`current, store, store.Arrays()
      ensures Ready() && Vol() == old(Vol()) && Steady(old(store.sectors), old(store.fatImage))
      ensures ok
      ensures var u := WalkCluster(old(Vol()), Cursor(old(Now()), lastEntry, false), c, 0, level);
              Now() == u.s && last == u.last
      decreases MAX_NESTING_LEVEL + 1 - level, 3, 0
    {
      hide Checking, HasStop, WellFormed, WalkNext, Store.Valid, Usable;
      ghost var v, w := Vol(), Cursor(Now(), lastEntry, false);
      ok, last := true, lastEntry;
      var stale := false;
      var k := 0;
      while ok && k < |dirs[c]|
        invariant Ready() && Vol() == v && Steady(old(store.sectors), old(store.fatImage)) && ok && k <= |dirs[c]|
        invariant |dirs| == |w.s.dirs| && |dirs[c]| == |w.s.dirs[c]|
        invariant WalkCluster(v, Cursor(Now(), last, stale), c, k, level) == WalkCluster(v, w, c, 0, level)
        decreases |w.s.dirs[c]| - k, ok
      {
        ok, last, stale := ScanNextRecord(c, k, last, stale, level);
        k := k + 1;
      }
    }

    /** The directory that starts at `start`, and everything below it down to the nesting limit; its records are read
        from `first` on. */
    method ScanFilesAndSubDirs(first: nat, start: nat, level: nat) returns (ok: bool)
      requires Ready() && level <= MAX_NESTING_LEVEL + 1 && (start == 0 || Ends(Fat(), End(), start)) && first < |Fat()|
      modifies this`dirs, this`corrupted, this`device, this`held, this`dirty, this`current, store, store.Arrays()
      ensures Ready() && Vol() == old(Vol()) && Steady(old(store.sectors), old(store.fatImage))
      ensures ok && Now() == WalkFrom(old(Vol()), old(Now()), first, start, level)
      decreases MAX_NESTING_LEVEL + 1 - level, 5, 0
    {
      ok := true;
      if level <= MAX_NESTING_LEVEL {
        ok := ScanDirClusters(first, start, level);
      }
    }

    /** The loop over the clusters of a directory. */
    method ScanDirClusters(first: nat, start: nat, level: nat) returns (ok: bool)
      requires Ready() && level <= MAX_NESTING_LEVEL && (start == 0 || Ends(Fat(), End(), start)) && first < |Fat()|
      modifies this`dirs, this`corrupted, this`device, this`held, this`dirty, this`current, store, store.Arrays()
      ensures Ready() && Vol() == old(Vol()) && Steady(old(store.sectors), old(store.fatImage))
      ensures ok && Now() == WalkFrom(old(Vol()), old(Now()), first, start, level)
      decreases MAX_NESTING_LEVEL + 1 - level, 4, 0
    {
      hide Checking, HasStop, WellFormed, Store.Valid, WalkCluster, Usable, Ends;
      ok := true;
      ghost var v, s := Vol(), Now();
      ghost var path, read := DirClusters(v, start), ReadClusters(v, first, start);
      ghost var i := 0;
      var last := false;
      var sect, cluster := first, start;
      while true
        invariant Ready() && Vol() == v && Steady(old(store.sectors), old(store.fatImage)) && ok
        invariant i < |path| == |read| && cluster == path[i] && sect == read[i]
        invariant WalkClusters(v, Now(), read, i, last, level) == WalkClusters(v, s, read, 0, false, level)
        decreases |path| - i
      {
        ok, last := ScanClusterRecords(sect, last, level);
        if cluster == 0 {
          break;
        }
        var done;
        ok, done, cluster := NextDirCluster(cluster, start, path, i);
        if !ok || done {
          break;
        }
        sect := cluster;
        i := i + 1;
      }
    }

    /** The step to a directory's next cluster. */
    method NextDirCluster(cluster: nat, ghost start: nat, ghost path: seq<nat>, ghost i: nat) returns (ok: bool,
        done: bool, next: nat)
      requires Ready() && IsChain(Fat(), End(), start, path) && i < |path| && cluster == path[i]
      modifies store, store.Arrays()
      ensures Ready() && Vol() == old(Vol()) && Now() == old(Now()) && dirs == old(dirs) && corrupted == old(corrupted)
      ensures Steady(old(store.sectors), old(store.fatImage))
      ensures ok && (done <==> i == |path| - 1) && (!done ==> next == path[i + 1])
    {
      LastOfChain(Fat(), End(), start, path, i);
      assert |Fat()| <= End() by { FatSize(); }
      hide HasStop, WellFormed, Store.Valid, Store.Marks, Store.Fat;
      next := store.NextCluster(cluster);
      ok := next != BAD_CLUSTER && next > 1;
      done := next == End();
    }

    // ---------------------------------------------------------------- the sweep

    /** Freeing the entry of `d` leaves a group dirty that reaches into the second FAT. */
    ghost predicate FreesCrossing(fat: seq<nat>, marks: set<nat>, d: nat) {
      store.sectorWords > 0 && d < |fat| && d !in marks && fat[d] != 0 && store.Group(d) + 3 > store.Secondary()
    }

    ghost predicate FreedCrossing(fat: seq<nat>, marks: set<nat>, n: nat) {
      exists d: nat :: 2 <= d < n && FreesCrossing(fat, marks, d)
    }

    /** The sweep has come to cluster `c`; `d` is the last cluster whose entry it has read. */
    ghost predicate Sweeping(fat: seq<nat>, marks: set<nat>, c: nat, d: nat)
      reads store, store.fatBuffer, store.descriptors, store.cacheMem, store.entryStatus
    {
      && store.Valid() && Marks() == marks && 2 <= c <= |fat| && Fat() == SweptTo(fat, marks, c)
      && (store.fatDirty ==> d < c && store.sectorWords > 0 && store.fatSectorCached == store.Group(d))
      && (store.Crossing() <==> FreedCrossing(fat, marks, c))
    }

    /** The first group that is freed from is never in the way of a later one. */
    lemma NeverStuck(fat: seq<nat>, marks: set<nat>, c: nat, d: nat)
      requires Sweeping(fat, marks, c, d) && c <= store.total
      ensures store.sectorWords > 0 && !store.Stuck(c)
    {
      SweepGeometry();
      if store.fatDirty { store.GroupOrder(d, c); }
    }

    lemma SweepGeometry()
      requires store.Valid()
      ensures store.Geometry()
    {
    }

    /** Looks at one cluster in the sweep. */
    method SweepCluster(c: nat, ghost fat: seq<nat>, ghost marks: set<nat>, ghost d: nat) returns (ok: bool,
        ghost d': nat)
      requires Sweeping(fat, marks, c, d) && c < store.total && fat[c] != BAD_CLUSTER
      modifies store, store.Arrays()
      ensures ok && Sweeping(fat, marks, c + 1, d') && store.OnlyFats(old(store.sectors))
    {
      NeverStuck(fat, marks, c, d);
      SweptNext(fat, marks, c);
      hide Store.Valid, Store.Fat, Store.Marks, SweptTo;
      ok, d' := true, d;
      var bit := store.Bit(c, GetBit);
      if bit == 0 {
        ok := store.Free(c);
        d' := c;
      }
      SweptStep(fat, marks, c);
    }

    lemma SweptStep(fat: seq<nat>, marks: set<nat>, c: nat)
      requires c >= 2
      ensures FreedCrossing(fat, marks, c + 1) <==> FreedCrossing(fat, marks, c) || FreesCrossing(fat, marks, c)
    {
    }

    /** Frees the entries of all unmarked clusters but the last one. */
    method ScanAndUpdateFat() returns (ok: bool)
      requires Checking()
      modifies store, store.Arrays()
      ensures store.Valid() && Marks() == old(Marks()) && store.OnlyFats(old(store.sectors))
      ensures ok && Fat() == Swept(old(Fat()), Marks())
      ensures store.Crossing() <==> FreedCrossing(old(Fat()), old(Marks()), store.total)
    {
      ghost var fat, marks, d := Fat(), Marks(), 0;
      SweptNone(fat, marks);
      EntriesNotBad(fat);
      assert Sweeping(fat, marks, 2, d);
      var c := 2;
      ok := true;
      while ok && c < store.total
        invariant ok && 2 <= c <= store.total && store.OnlyFats(old(store.sectors)) && Sweeping(fat, marks, c, d)
        decreases store.total - c
      {
        hide Sweeping, WellFormed;
        ok, d := SweepCluster(c, fat, marks, d);
        c := c + 1;
      }
    }

    /** The group of the last cluster that is swept lies in the first FAT, as it does if the FAT has a multiple of
        three sectors. */
    predicate GroupsFit()
      requires store.sectorWords > 0 && store.total > 0
    {
      store.Group(store.total - 1) + 3 <= store.Secondary()
    }

    /** Exactly then no sweep, whatever entries and marks there are, leaves a group that cannot be written back
        whole. */
    lemma FitMeansNoCrossing()
      requires store.Geometry() && store.total >= 3
      ensures store.fatSectors % 3 == 0 ==> GroupsFit()
      ensures GroupsFit() <==> forall fat, marks :: |fat| == store.total + 1 ==> !FreedCrossing(fat, marks, store.total)
    {
      var last := store.total - 1;
      store.GroupInside(last);
      hide Store.Group;
      if GroupsFit() {
        forall fat: seq<nat>, marks | |fat| == store.total + 1 ensures !FreedCrossing(fat, marks, store.total) {
          forall d: nat | 2 <= d < store.total ensures !FreesCrossing(fat, marks, d) { store.GroupOrder(d, last); }
        }
      } else {
        var fat: seq<nat> := seq(store.total + 1, c => 1);
        assert FreesCrossing(fat, {}, last) && FreedCrossing(fat, {}, store.total);
      }
      if store.fatSectors % 3 == 0 { GroupsMultiple(last); }
    }

    lemma GroupsMultiple(c: nat)
      requires store.sectorWords > 0 && store.fatSectors % 3 == 0 && store.Group(c) < store.Secondary()
      ensures store.Group(c) + 3 <= store.Secondary()
    {
    }

    lemma EntriesNotBad(fat: seq<nat>)
      requires WellFormed(fat, End())
      ensures forall c :: 2 <= c < |fat| ==> fat[c] != BAD_CLUSTER
    {
      forall c: nat | 2 <= c < |fat| ensures fat[c] != BAD_CLUSTER {
        assert IsCluster(fat, c);
      }
    }

    // ---------------------------------------------------------------- the whole utility

    /** What the source demands of a volume: the bits fit where they are stored, each entry is a cluster or the
        end mark, some entry is not a link, and the root directory's chain ends. */
    ghost predicate Checkable()
      reads this, store, store.fatBuffer
    {
      && store.FatValid() && !store.fatDirty && store.Buffers() && store.sectorWords > 0
      && (if store.fat32 then store.BitSectors() <= store.fatSectors else store.total < MAX_FAT_ENTRY_WORDS * 32)
      && Usable(Vol()) && |dirs| == store.total + 1 && corrupted == 0 && device == dirs && held == Nothing && !dirty &&
         current == RootFirst(root)
      && (root == 0 || Ends(Fat(), End(), root))
    }

    /** The state after the scan of the root directory. */
    ghost function Scanned(): State
      requires Usable(Vol()) && |dirs| == |Fat()|
      reads this, store
    {
      WalkRoot(Vol(), dirs, root)
    }

    /** Marks everything that is in order and deletes the other records. */
    method ScanAll() returns (ok: bool)
      requires Checkable()
      modifies this`dirs, this`corrupted, this`device, this`held, this`dirty, this`current, store, store.Arrays()
      ensures ok && Ready() && Vol() == old(Vol()) && Now() == old(Scanned())
      ensures Steady(old(store.sectors), old(store.fatImage))
    {
      hide Store.Valid, Store.FatValid, Store.Fat, Store.Marks, HasStop, Ends, WalkFrom, Store.Geometry;
      store.ClearBits();
      store.LoadFirstGroup();
      ReserveCluster(root);
      var first := if root == 0 then 0 else 2;
      ok := ScanFilesAndSubDirs(first, root, 1);
    }

    /** The repair: the sweep, and writing back what it leaves in the buffer. */
    method FreeUnused() returns (ok: bool)
      requires Checking()
      modifies store, store.Arrays()
      ensures store.FatValid() && !store.fatDirty && store.Buffers() && Fat() == Swept(old(Fat()), old(Marks()))
      ensures ok <==> !FreedCrossing(old(Fat()), old(Marks()), store.total)
      ensures store.OnlyFats(old(store.sectors))
    {
      hide FreedCrossing, Swept, WellFormed;
      ok := ScanAndUpdateFat();
      if store.fatDirty {
        hide Store.Marks, Store.BitsValid;
        ok := store.WriteFatSector(store.fatSectorCached);
      }
    }

    /** The sectors of the first FAT. */
    ghost function FirstFat(sectors: seq<Sector>): seq<Sector> {
      if |sectors| >= store.primary + 2 * store.fatSectors then sectors[store.primary..store.Secondary()] else []
    }

    /** The sectors of the second FAT. */
    ghost function SecondFat(sectors: seq<Sector>): seq<Sector> {
      if |sectors| >= store.primary + 2 * store.fatSectors
      then sectors[store.Secondary()..store.Secondary() + store.fatSectors] else []
    }

    /** The second FAT equals the first in `n` sectors and is as before in the others. */
    ghost predicate Copied(sectors: seq<Sector>, before: seq<Sector>, n: nat) {
      && n <= store.fatSectors && |sectors| == |before| >= store.primary + 2 * store.fatSectors
      && SecondFat(sectors) == FirstFat(sectors)[..n] + SecondFat(before)[n..]
      && SameOutside(sectors, before, store.primary, store.Secondary() + store.fatSectors)
    }

    /** The first FAT on the device has the logical content, and the second is up to date in all sectors, or,
        if no record has been deleted, in those that held bits. */
    ghost predicate Finished(before: seq<Sector>)
      reads this, store
    {
      && FirstFat(store.sectors) == store.fatImage
      && Copied(store.sectors, before, if corrupted != 0 then store.fatSectors else store.TotalFatSectors())
    }

    /** CopyPrimaryFatToSecondary. */
    method CopyPrimaryFatToSecondary(totalFatSectors: nat, ghost before: seq<Sector>)
      requires store.FatValid() && !store.fatDirty && store.Buffers()
      requires store.OnlyFats(before) && totalFatSectors == store.TotalFatSectors() <= store.fatSectors
      modifies store, store.Arrays()
      ensures store.Clean() && store.fatImage == old(store.fatImage) && Fat() == old(Fat()) && Finished(before)
    {
      store.FatClean();
      ghost var m := store.sectors;
      var count := if corrupted != 0 then store.fatSectors else totalFatSectors;
      assert |m| >= store.primary + 2 * store.fatSectors;
      hide Store.FatValid, FirstFat, SecondFat, Copied;
      store.CopyToSecondary(count);
      CopyDone(store.sectors, m, before, store.fatImage, count, totalFatSectors);
    }

    lemma CopyDone(sectors: seq<Sector>, m: seq<Sector>, before: seq<Sector>, image: seq<Sector>, n: nat, k: nat)
      requires k <= n <= store.fatSectors == |image| && |before| >= store.primary + 2 * store.fatSectors
      requires SameOutside(m, before, store.primary, store.Secondary() + k)
      requires SameOutside(sectors, m, store.Secondary(), store.Secondary() + n)
      requires forall j :: 0 <= j < store.fatSectors ==> sectors[store.primary + j] == image[j]
      requires forall j :: 0 <= j < n ==> sectors[store.Secondary() + j] == image[j]
      ensures FirstFat(sectors) == image && Copied(sectors, before, n)
    {
      assert FirstFat(sectors) == image;
      var second, other := SecondFat(sectors), SecondFat(before);
      assert second[..n] == image[..n];
      forall j | n <= j < store.fatSectors ensures second[j] == other[j] {
        assert sectors[store.Secondary() + j] == m[store.Secondary() + j] == before[store.Secondary() + j];
      }
      assert second[n..] == other[n..];
      assert second == second[..n] + second[n..];
    }

    /** The scan has ended in `t`; if a record has been deleted, unused entries have been freed. The result is
        false exactly if the last group that the sweep frees from reaches into the second FAT. */
    ghost predicate Repaired(t: State, fat: seq<nat>, fat': seq<nat>, success: bool) {
      if t.corrupted == 0 then success && fat' == fat
      else fat' == Swept(fat, t.marks) && (success <==> !FreedCrossing(fat, t.marks, store.total))
    }

    /** The scan, and the repair if a record has been deleted. */
    method Repair() returns (success: bool)
      requires Checkable()
      modifies this`dirs, this`corrupted, this`device, this`held, this`dirty, this`current, store, store.Arrays()
      ensures dirs == old(Scanned()).dirs && corrupted == old(Scanned()).corrupted
      ensures device == old(DeviceAfter(Vol(), Scanned()))
      ensures Repaired(old(Scanned()), old(Fat()), Fat(), success)
      ensures (corrupted == 0 ==> store.fatImage == old(store.fatImage))
      ensures store.FatValid() && !store.fatDirty && store.Buffers() && store.OnlyFats(old(store.sectors))
    {
      hide Checkable, Scanned, FreedCrossing, Swept, Store.FatValid, Store.Valid, Store.Fat, Store.BitsValid;
      success := ScanAll();
      if success && corrupted != 0 {
        Flush();
        success := FreeUnused();
      } else {
        ReadyParts();
      }
    }

    /** CheckDisk. */
    method Run() returns (success: bool)
      requires Checkable()
      modifies this`dirs, this`corrupted, this`device, this`held, this`dirty, this`current, store, store.Arrays()
      ensures dirs == old(Scanned()).dirs && corrupted == old(Scanned()).corrupted
      ensures device == old(DeviceAfter(Vol(), Scanned()))
      ensures Repaired(old(Scanned()), old(Fat()), Fat(), success) && store.Clean()
      ensures success ==> Finished(old(store.sectors))
      ensures success && old(FirstFat(store.sectors) == SecondFat(store.sectors)) ==>
              FirstFat(store.sectors) == SecondFat(store.sectors)
    {
      BitsFit();
      FirstFatImage();
      assert this !in store.Arrays() && store !in store.Arrays();
      hide *;
      success := Repair();
      store.FatClean();
      if success {
        CopyPrimaryFatToSecondary(store.TotalFatSectors(), old(store.sectors));
        MirroredAfter(old(store.sectors), old(store.fatImage));
      }
    }

    lemma MirroredAfter(before: seq<Sector>, image: seq<Sector>)
      requires Finished(before) && FirstFat(before) == image && (corrupted == 0 ==> store.fatImage == image)
      ensures FirstFat(before) == SecondFat(before) ==> FirstFat(store.sectors) == SecondFat(store.sectors)
    {
      if FirstFat(before) == SecondFat(before) {
        StayMirrored(store.sectors, before, if corrupted != 0 then store.fatSectors else store.TotalFatSectors());
      }
    }

    lemma BitsFit()
      requires Checkable()
      ensures store.TotalFatSectors() <= store.fatSectors
    {
    }

    lemma ReadyParts()
      requires Ready()
      ensures store.FatValid() && !store.fatDirty && store.Buffers()
    {
    }

    lemma FirstFatImage()
      requires Checkable()
      ensures FirstFat(store.sectors) == store.fatImage
    {
      store.FatClean();
      assert |FirstFat(store.sectors)| == |store.fatImage|;
      forall j | 0 <= j < store.fatSectors ensures FirstFat(store.sectors)[j] == store.fatImage[j] {
        assert store.sectors[store.primary + j] == store.fatImage[j];
      }
    }

    /** Equal FATs stay equal: either all of the first FAT is copied, or it is as it was before. */
    lemma StayMirrored(sectors: seq<Sector>, before: seq<Sector>, n: nat)
      requires Copied(sectors, before, n) && FirstFat(before) == SecondFat(before)
      requires n == store.fatSectors || FirstFat(sectors) == FirstFat(before)
      ensures FirstFat(sectors) == SecondFat(sectors)
    {
    }
  }
}
