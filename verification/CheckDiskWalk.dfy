/** How check-disk goes through the records of a directory (filesystem/chkdsk/src/chkdsk.c): it looks at the record
    in its one-sector buffer, and loads the record's own sector at the beginning of a sector and when it has been
    told to. After it has deleted a volume label it has not: then the buffer may still hold an earlier sector, where
    it has looked for the parts of a long name. */
module CheckDiskWalk {
  import opened Division
  import opened Chains
  import opened CheckDiskScan

  /** What is carried from one record to the next: the state, whether the end of the directory has been seen, and
      whether the buffer is used as it is. */
  datatype Cursor = Cursor(s: State, last: bool, stale: bool)

  /** The place in the buffer's sector that corresponds to index `k`. */
  function PlaceSeen(perSector: nat, sector: nat, k: nat): nat
    requires perSector > 0
  {
    sector * perSector + Remainder(k, perSector)
  }

  /** The record that is looked at for index `k` of a directory's cluster. */
  function Seen(perSector: nat, front: seq<Record>, dirs: Directories, held: Held, k: nat): Record
    requires perSector > 0
  {
    match held
    case Sector(c, n) =>
      var j := PlaceSeen(perSector, n, k);
      if IsPlace(dirs, c, j) then dirs[c][j] else Deleted(false, 0, 0)
    case Front => if Remainder(k, perSector) < |front| then front[Remainder(k, perSector)] else Deleted(false, 0, 0)
    case Nothing => Deleted(false, 0, 0)
  }

  /** The record that is looked at becomes an end. */
  function SeenEnded(v: Volume, s: State, k: nat): (t: State)
    requires v.perSector > 0
    ensures SameShape(t.dirs, s.dirs) && t.marks == s.marks && t.corrupted == s.corrupted
    ensures t.buffer.held == s.buffer.held && t.buffer.current == s.buffer.current
  {
    match s.buffer.held
    case Sector(c, n) =>
      var j := PlaceSeen(v.perSector, n, k);
      if IsPlace(s.dirs, c, j) then Changed(s, c, j, Ended(s.dirs[c][j])) else s
    case _ => s
  }

  /** The place's own sector is loaded unless the buffer is used as it is. */
  function Loading(v: Volume, w: Cursor, c: nat, k: nat): (t: State)
    requires v.perSector > 0
    ensures t == w.s.(buffer := t.buffer) && t.buffer.current == w.s.buffer.current
  {
    if w.stale && Remainder(k, v.perSector) != 0 then w.s else LoadedFor(v, w.s, c, k)
  }

  ghost function WalkFile(v: Volume, s: State, c: nat, k: nat): (t: State)
    requires Fits(v, s) && IsPlace(s.dirs, c, k)
    ensures SameShape(t.dirs, s.dirs) && t.corrupted >= s.corrupted
  {
    var r := s.dirs[c][k];
    if FileFits(v, s.marks, r.start, r.size) then Mark(v, s, r.start) else Drop(v, s, c, k)
  }

  /** A file's record stays exactly if it has neither a cluster nor a size, or a chain that ends with no cluster in use,
      and a size in bytes of about as many clusters: in particular if the last byte is in the last cluster. */
  lemma FileStaysExactly(v: Volume, s: State, c: nat, k: nat)
    requires Fits(v, s) && IsPlace(s.dirs, c, k) && s.dirs[c][k].File?
    ensures var start, size, t := s.dirs[c][k].start, s.dirs[c][k].size, WalkFile(v, s, c, k);
            if start == 0 && size == 0 then t == s
            else if start != 0 && size != 0 && EndsUnmarked(v.fat, v.end, start, s.marks) &&
               var n := |Chain(v.fat, v.end, start)|;
               size == n || (n - 1) * v.clusterBytes <= size < (n + 1) * v.clusterBytes
            then t == s.(marks := s.marks + Elements(Chain(v.fat, v.end, start)))
            else && t.corrupted == s.corrupted + 1 && t.marks == s.marks
                 && t.dirs == Put(s.dirs, c, k, Erased(s.dirs[c][k]))
  {
    hide Ends, Chain;
    NoClusters(v.fat, v.end);
    if Ends(v.fat, v.end, s.dirs[c][k].start) {
      SizeInBytes(v, s.dirs[c][k].size, |Chain(v.fat, v.end, s.dirs[c][k].start)|);
    }
  }

  ghost function WalkDirectory(v: Volume, s: State, c: nat, k: nat, level: nat): (t: State)
    requires Fits(v, s) && IsPlace(s.dirs, c, k) && level <= MAX_NESTING_LEVEL
    ensures SameShape(t.dirs, s.dirs) && t.corrupted >= s.corrupted
    decreases MAX_NESTING_LEVEL + 1 - level, 0, 0
  {
    var start := s.dirs[c][k].start;
    var e := Entered(v, s, start);
    if start in v.signed && Acceptable(v, s.marks, start) then WalkTree(v, Mark(v, e, start), start, level + 1)
    else Drop(v, e, c, k)
  }

  /** One record, seen as `r`. What it is is told by the buffer, but a file or a directory is then read from its own
      sector; after a label has been deleted the buffer is used as it is. */
  ghost function WalkSeen(v: Volume, s: State, r: Record, c: nat, k: nat, stale: bool, level: nat): (u: Cursor)
    requires Fits(v, s) && IsPlace(s.dirs, c, k) && level <= MAX_NESTING_LEVEL
    ensures SameShape(u.s.dirs, s.dirs) && u.s.corrupted >= s.corrupted
    decreases MAX_NESTING_LEVEL + 1 - level, 0, 1
  {
    match r
    case Directory(_, _) => Cursor(WalkDirectory(v, LoadedFor(v, s, c, k), c, k, level), false, false)
    case File(_, _) => Cursor(WalkFile(v, LoadedFor(v, s, c, k), c, k), false, false)
    case VolumeLabel(start, _) =>
      if level != 1 || start != 0 then Cursor(Drop(v, s, c, k), false, true) else Cursor(s, false, stale)
    case _ => Cursor(s, false, stale)
  }

  ghost function WalkNext(v: Volume, w: Cursor, c: nat, k: nat, level: nat): (u: Cursor)
    requires Fits(v, w.s) && IsPlace(w.s.dirs, c, k) && level <= MAX_NESTING_LEVEL
    ensures SameShape(u.s.dirs, w.s.dirs) && u.s.corrupted >= w.s.corrupted
    decreases MAX_NESTING_LEVEL + 1 - level, 1, 0
  {
    var l := Loading(v, w, c, k);
    var stale := w.stale && Remainder(k, v.perSector) != 0;
    var r := Seen(v.perSector, v.front, l.dirs, l.buffer.held, k);
    if r.End? then Cursor(l, true, stale)
    else if w.last then Cursor(SeenEnded(v, l, k), true, stale)
    else WalkSeen(v, l, r, c, k, stale, level)
  }

  /** The records from `k` on of cluster `c`. */
  ghost function WalkCluster(v: Volume, w: Cursor, c: nat, k: nat, level: nat): (u: Cursor)
    requires Fits(v, w.s) && c < |w.s.dirs| && k <= |w.s.dirs[c]| && level <= MAX_NESTING_LEVEL
    ensures SameShape(u.s.dirs, w.s.dirs) && u.s.corrupted >= w.s.corrupted
    decreases MAX_NESTING_LEVEL + 1 - level, 2, |w.s.dirs[c]| - k
  {
    if k == |w.s.dirs[c]| then w else WalkCluster(v, WalkNext(v, w, c, k, level), c, k + 1, level)
  }

  ghost function WalkClusters(v: Volume, s: State, p: seq<nat>, i: nat, last: bool, level: nat): (t: State)
    requires Fits(v, s) && i <= |p| && Inside(v, p) && level <= MAX_NESTING_LEVEL
    ensures SameShape(t.dirs, s.dirs) && t.corrupted >= s.corrupted
    decreases MAX_NESTING_LEVEL + 1 - level, 3, |p| - i
  {
    if i == |p| then s
    else
      var u := WalkCluster(v, Cursor(s, last, false), p[i], 0, level);
      WalkClusters(v, u.s, p, i + 1, u.last, level)
  }

  ghost function WalkTree(v: Volume, s: State, start: nat, level: nat): (t: State)
    requires Fits(v, s) && level <= MAX_NESTING_LEVEL + 1
    ensures SameShape(t.dirs, s.dirs) && t.corrupted >= s.corrupted
    decreases MAX_NESTING_LEVEL + 1 - level, 4, 0
  {
    if level > MAX_NESTING_LEVEL then s else WalkClusters(v, s, DirClusters(v, start), 0, false, level)
  }

  ghost function WalkFrom(v: Volume, s: State, first: nat, start: nat, level: nat): (t: State)
    requires Fits(v, s) && first < |v.fat| && level <= MAX_NESTING_LEVEL + 1
    ensures SameShape(t.dirs, s.dirs) && t.corrupted >= s.corrupted
  {
    if level > MAX_NESTING_LEVEL then s else WalkClusters(v, s, ReadClusters(v, first, start), 0, false, level)
  }

  lemma WalkFromStart(v: Volume, s: State, start: nat, level: nat)
    requires Fits(v, s) && start < |v.fat| && level <= MAX_NESTING_LEVEL + 1
    ensures WalkFrom(v, s, start, start, level) == WalkTree(v, s, start, level)
  {
    hide WalkClusters;
    var p := DirClusters(v, start);
    if p != [] { assert p[0 := start] == p; }
  }

  /** The state after check-disk has gone through the root directory and everything below it. */
  ghost function WalkRoot(v: Volume, dirs: Directories, root: nat): (t: State)
    requires Usable(v) && |dirs| == |v.fat|
    ensures SameShape(t.dirs, dirs)
  {
    WalkFrom(v, Reserved(v, dirs, root), RootFirst(root), root, 1)
  }

  /** A directory of one cluster. */
  lemma OneCluster(v: Volume, s: State, c: nat, level: nat)
    requires Fits(v, s) && c < |s.dirs| && level <= MAX_NESTING_LEVEL
    ensures WalkClusters(v, s, [c], 0, false, level) == WalkCluster(v, Cursor(s, false, false), c, 0, level).s
  {
    hide WalkCluster;
    var u := WalkCluster(v, Cursor(s, false, false), c, 0, level);
    assert WalkClusters(v, u.s, [c], 1, u.last, level) == u.s;
  }

  /** The fixed root directory is read like one cluster. */
  lemma FixedRoot(v: Volume, dirs: Directories)
    requires Usable(v) && |dirs| == |v.fat|
    ensures Fits(v, Reserved(v, dirs, 0)) && Reserved(v, dirs, 0).dirs == dirs
    ensures WalkRoot(v, dirs, 0) == WalkCluster(v, Cursor(Reserved(v, dirs, 0), false, false), 0, 0, 1).s
  {
    hide WalkClusters, WalkCluster;
    OneCluster(v, Reserved(v, dirs, 0), 0, 1);
    assert ReadClusters(v, 0, 0) == [0];
  }

  // ------------------------------------------------------------------ what is true at any moment

  /** Records are deleted or turned into ends, which leaves their other bytes. */
  predicate MayBecome(r: Record, r': Record) {
    r' == r || r' == Erased(r) || r' == Ended(r)
  }

  /** What is true of one record at any moment. As long as none has been deleted, all that changes is that records
      become ends, and the device has the record from before or the present one. */
  ghost predicate PlaceTracked(v: Volume, dirs: Directories, s: State, c: nat, k: nat)
    requires v.perSector > 0 && SameShape(s.dirs, dirs) && SameShape(s.buffer.device, dirs) && IsPlace(dirs, c, k)
  {
    var before, now, stored := dirs[c][k], s.dirs[c][k], s.buffer.device[c][k];
    && MayBecome(before, now)
    && (stored == now || (s.buffer.dirty && Holds(v.perSector, s.buffer.held, c, k)))
    && (s.corrupted == 0 ==> (now == before || now.End?) && (stored == before || stored == now))
  }

  ghost predicate Differs(s: State, c: nat, k: nat) {
    IsPlace(s.dirs, c, k) && IsPlace(s.buffer.device, c, k) && s.buffer.device[c][k] != s.dirs[c][k]
  }

  predicate InUse(r: Record) {
    r.Directory? || r.File? || r.VolumeLabel?
  }

  ghost predicate Lost(dirs: Directories, s: State, c: nat, k: nat) {
    IsPlace(s.dirs, c, k) && IsPlace(dirs, c, k) && InUse(dirs[c][k]) && !InUse(s.dirs[c][k])
  }

  /** What is true at any moment of going through `dirs`. */
  ghost predicate Tracked(v: Volume, dirs: Directories, s: State)
    requires v.perSector > 0
  {
    && SameShape(s.dirs, dirs) && SameShape(s.buffer.device, dirs)
    && (forall c: nat, k: nat :: IsPlace(dirs, c, k) ==> PlaceTracked(v, dirs, s, c, k))
    && (s.corrupted == 0 && s.buffer.dirty ==> exists c: nat, k: nat :: Differs(s, c, k))
    && (s.corrupted > 0 ==> exists c: nat, k: nat :: Lost(dirs, s, c, k))
  }

  lemma TrackedWritten(v: Volume, dirs: Directories, s: State)
    requires v.perSector > 0 && Tracked(v, dirs, s)
    ensures Tracked(v, dirs, Written(v, s))
  {
    var t := Written(v, s);
    forall c: nat, k: nat | IsPlace(dirs, c, k) ensures PlaceTracked(v, dirs, t, c, k) {
      assert PlaceTracked(v, dirs, s, c, k);
    }
    LostStays(dirs, s, t);
  }

  lemma LostStays(dirs: Directories, s: State, t: State)
    requires t.dirs == s.dirs && t.corrupted == s.corrupted
    requires s.corrupted > 0 ==> exists c: nat, k: nat :: Lost(dirs, s, c, k)
    ensures t.corrupted > 0 ==> exists c: nat, k: nat :: Lost(dirs, t, c, k)
  {
    if s.corrupted > 0 {
      var c: nat, k: nat :| Lost(dirs, s, c, k);
      assert Lost(dirs, t, c, k);
    }
  }

  lemma TrackedLoaded(v: Volume, dirs: Directories, s: State, sector: Held)
    requires v.perSector > 0 && Tracked(v, dirs, s)
    ensures Tracked(v, dirs, Loaded(v, s, sector))
  {
    TrackedWritten(v, dirs, s);
    var w, t := Written(v, s), Loaded(v, s, sector);
    if s.buffer.held != sector {
      forall c: nat, k: nat | IsPlace(dirs, c, k) ensures PlaceTracked(v, dirs, t, c, k) {
        assert PlaceTracked(v, dirs, w, c, k);
      }
      LostStays(dirs, s, t);
    }
  }

  /** A record in the sector that is loaded becomes an end. */
  lemma TrackedEnd(v: Volume, dirs: Directories, s: State, c: nat, k: nat)
    requires v.perSector > 0 && Tracked(v, dirs, s) && IsPlace(s.dirs, c, k) && !s.dirs[c][k].End?
    requires Holds(v.perSector, s.buffer.held, c, k)
    ensures Tracked(v, dirs, Changed(s, c, k, Ended(s.dirs[c][k])))
  {
    var t := Changed(s, c, k, Ended(s.dirs[c][k]));
    forall c': nat, k': nat | IsPlace(dirs, c', k') ensures PlaceTracked(v, dirs, t, c', k') {
      assert PlaceTracked(v, dirs, s, c', k');
    }
    if s.corrupted == 0 {
      assert PlaceTracked(v, dirs, s, c, k);
      assert Differs(t, c, k);
    } else {
      var c': nat, k': nat :| Lost(dirs, s, c', k');
      assert Lost(dirs, t, c', k');
    }
  }

  /** A record is deleted; the first one to be deleted was in use. */
  lemma TrackedDrop(v: Volume, dirs: Directories, s: State, c: nat, k: nat)
    requires v.perSector > 0 && Tracked(v, dirs, s) && IsPlace(s.dirs, c, k) && (s.corrupted > 0 || InUse(s.dirs[c][k]))
    ensures Tracked(v, dirs, Drop(v, s, c, k))
  {
    var l := LoadedFor(v, s, c, k);
    var d := Changed(l, c, k, Erased(s.dirs[c][k])).(corrupted := s.corrupted + 1);
    TrackedLoaded(v, dirs, s, Sector(c, k / v.perSector));
    TrackedErased(v, dirs, l, c, k);
    TrackedBack(v, dirs, d, c, k, MAX_ENTRIES_LONG_FILE_NAME);
    hide LookBack, Tracked;
  }

  lemma {:induction false} TrackedBack(v: Volume, dirs: Directories, s: State, c: nat, k: nat, n: nat)
    requires v.perSector > 0 && Tracked(v, dirs, s)
    ensures Tracked(v, dirs, LookBack(v, s, c, k, n))
    decreases n
  {
    hide Tracked, Loaded;
    if k > 0 {
      var h := Sector(c, (k - 1) / v.perSector);
      TrackedLoaded(v, dirs, s, h);
      if n > 0 { TrackedBack(v, dirs, Loaded(v, s, h), c, k - 1, n - 1); }
    } else {
      var h := SectorBefore(v, s.dirs, c);
      TrackedLoaded(v, dirs, s, h);
      if n > 0 && h.Sector? { TrackedBack(v, dirs, Loaded(v, s, h), h.cluster, |s.dirs[h.cluster]| - 1, n - 1); }
    }
  }

  lemma TrackedErased(v: Volume, dirs: Directories, s: State, c: nat, k: nat)
    requires v.perSector > 0 && Tracked(v, dirs, s) && IsPlace(s.dirs, c, k) && (s.corrupted > 0 || InUse(s.dirs[c][k]))
    requires Holds(v.perSector, s.buffer.held, c, k)
    ensures Tracked(v, dirs, Changed(s, c, k, Erased(s.dirs[c][k])).(corrupted := s.corrupted + 1))
  {
    var t := Changed(s, c, k, Erased(s.dirs[c][k])).(corrupted := s.corrupted + 1);
    forall c': nat, k': nat | IsPlace(dirs, c', k') ensures PlaceTracked(v, dirs, t, c', k') {
      assert PlaceTracked(v, dirs, s, c', k');
    }
    if s.corrupted == 0 {
      assert PlaceTracked(v, dirs, s, c, k);
      assert Lost(dirs, t, c, k);
    } else {
      var c': nat, k': nat :| Lost(dirs, s, c', k');
      assert Lost(dirs, t, c', k');
    }
  }

  lemma TrackedMark(v: Volume, dirs: Directories, s: State, start: nat)
    requires v.perSector > 0 && Tracked(v, dirs, s)
    ensures Tracked(v, dirs, Mark(v, s, start))
  {
    var t := Mark(v, s, start);
    forall c: nat, k: nat | IsPlace(dirs, c, k) ensures PlaceTracked(v, dirs, t, c, k) {
      assert PlaceTracked(v, dirs, s, c, k);
    }
    LostStays(dirs, s, t);
    if s.corrupted == 0 && s.buffer.dirty {
      var c: nat, k: nat :| Differs(s, c, k);
      assert Differs(t, c, k);
    }
  }

  lemma TrackedEntered(v: Volume, dirs: Directories, s: State, start: nat)
    requires v.perSector > 0 && Tracked(v, dirs, s)
    ensures Tracked(v, dirs, Entered(v, s, start))
  {
    TrackedWritten(v, dirs, s);
    var w := Written(v, s);
    TrackedCurrent(v, dirs, w, start);
    TrackedLoaded(v, dirs, w.(buffer := w.buffer.(current := start)), Sector(start, 0));
  }

  lemma TrackedCurrent(v: Volume, dirs: Directories, s: State, start: nat)
    requires v.perSector > 0 && Tracked(v, dirs, s)
    ensures Tracked(v, dirs, s.(buffer := s.buffer.(current := start)))
  {
    var t := s.(buffer := s.buffer.(current := start));
    forall c: nat, k: nat | IsPlace(dirs, c, k) ensures PlaceTracked(v, dirs, t, c, k) {
      assert PlaceTracked(v, dirs, s, c, k);
    }
    LostStays(dirs, s, t);
    if s.corrupted == 0 && s.buffer.dirty {
      var c: nat, k: nat :| Differs(s, c, k);
      assert Differs(t, c, k);
    }
  }

  /** Where the record's own sector is in the buffer, its own record is looked at. */
  lemma OwnSeen(v: Volume, s: State, c: nat, k: nat)
    requires v.perSector > 0 && IsPlace(s.dirs, c, k) && Holds(v.perSector, s.buffer.held, c, k)
    ensures PlaceSeen(v.perSector, k / v.perSector, k) == k
    ensures Seen(v.perSector, v.front, s.dirs, s.buffer.held, k) == s.dirs[c][k]
  {
    DivMod(k, v.perSector);
  }

  /** The place that is looked at is in the buffer's sector. */
  lemma SeenHeld(perSector: nat, c: nat, n: nat, k: nat)
    requires perSector > 0
    ensures Holds(perSector, Sector(c, n), c, PlaceSeen(perSector, n, k))
  {
    DivModUnique(PlaceSeen(perSector, n, k), perSector, n, Remainder(k, perSector));
  }

  lemma TrackedSeenEnded(v: Volume, dirs: Directories, s: State, k: nat)
    requires v.perSector > 0 && Tracked(v, dirs, s) && !Seen(v.perSector, v.front, s.dirs, s.buffer.held, k).End?
    ensures Tracked(v, dirs, SeenEnded(v, s, k))
  {
    hide Tracked, PlaceSeen;
    if s.buffer.held.Sector? {
      var c, n := s.buffer.held.cluster, s.buffer.held.index;
      SeenHeld(v.perSector, c, n, k);
      var j := PlaceSeen(v.perSector, n, k);
      if IsPlace(s.dirs, c, j) { TrackedEnd(v, dirs, s, c, j); }
    }
  }

  lemma TrackedFile(v: Volume, dirs: Directories, s: State, c: nat, k: nat)
    requires Fits(v, s) && IsPlace(s.dirs, c, k) && Tracked(v, dirs, s) && (s.corrupted > 0 || InUse(s.dirs[c][k]))
    ensures Tracked(v, dirs, WalkFile(v, s, c, k))
  {
    hide Tracked, Drop, Mark, FileFits;
    TrackedMark(v, dirs, s, s.dirs[c][k].start);
    TrackedDrop(v, dirs, s, c, k);
  }

  lemma {:induction false} TrackedDirectory(v: Volume, dirs: Directories, s: State, c: nat, k: nat, level: nat)
    requires Fits(v, s) && IsPlace(s.dirs, c, k) && level <= MAX_NESTING_LEVEL && Tracked(v, dirs, s)
    requires s.corrupted > 0 || InUse(s.dirs[c][k])
    ensures Tracked(v, dirs, WalkDirectory(v, s, c, k, level))
    decreases MAX_NESTING_LEVEL + 1 - level, 0, 0
  {
    hide Tracked, Acceptable, Entered, Drop;
    var start := s.dirs[c][k].start;
    var e := Entered(v, s, start);
    TrackedEntered(v, dirs, s, start);
    if start in v.signed && Acceptable(v, s.marks, start) {
      TrackedMark(v, dirs, e, start);
      TrackedTree(v, dirs, Mark(v, e, start), start, level + 1);
    } else {
      TrackedDrop(v, dirs, e, c, k);
    }
  }

  /** The buffer is used as it is only after a record has been deleted. */
  ghost predicate CursorTracked(v: Volume, dirs: Directories, w: Cursor)
    requires v.perSector > 0
  {
    Tracked(v, dirs, w.s) && (w.stale ==> w.s.corrupted > 0)
  }

  lemma {:induction false} TrackedNext(v: Volume, dirs: Directories, w: Cursor, c: nat, k: nat, level: nat)
    requires Fits(v, w.s) && IsPlace(w.s.dirs, c, k) && level <= MAX_NESTING_LEVEL && CursorTracked(v, dirs, w)
    ensures CursorTracked(v, dirs, WalkNext(v, w, c, k, level))
    decreases MAX_NESTING_LEVEL + 1 - level, 1, 0
  {
    hide Tracked, Loaded, Seen, SeenEnded, WalkDirectory, WalkFile, Drop, WellFormed, HasStop;
    TrackedLoaded(v, dirs, w.s, Sector(c, k / v.perSector));
    var l := Loading(v, w, c, k);
    var r := Seen(v.perSector, v.front, l.dirs, l.buffer.held, k);
    if !(w.stale && Remainder(k, v.perSector) != 0) { OwnSeen(v, l, c, k); }
    if r.End? {
    } else if w.last {
      TrackedSeenEnded(v, dirs, l, k);
    } else if InUse(r) {
      TrackedLoaded(v, dirs, l, Sector(c, k / v.perSector));
      var o := LoadedFor(v, l, c, k);
      if r.Directory? { TrackedDirectory(v, dirs, o, c, k, level); }
      if r.File? { TrackedFile(v, dirs, o, c, k); }
      if r.VolumeLabel? { TrackedDrop(v, dirs, l, c, k); }
    }
  }

  lemma {:induction false} TrackedCluster(v: Volume, dirs: Directories, w: Cursor, c: nat, k: nat, level: nat)
    requires Fits(v, w.s) && c < |w.s.dirs| && k <= |w.s.dirs[c]| && level <= MAX_NESTING_LEVEL
    requires CursorTracked(v, dirs, w)
    ensures CursorTracked(v, dirs, WalkCluster(v, w, c, k, level))
    decreases MAX_NESTING_LEVEL + 1 - level, 2, |w.s.dirs[c]| - k
  {
    hide CursorTracked, WalkNext;
    if k < |w.s.dirs[c]| {
      TrackedNext(v, dirs, w, c, k, level);
      TrackedCluster(v, dirs, WalkNext(v, w, c, k, level), c, k + 1, level);
    }
  }

  lemma {:induction false} TrackedClusters(v: Volume, dirs: Directories, s: State, p: seq<nat>, i: nat, last: bool,
      level: nat)
    requires Fits(v, s) && i <= |p| && Inside(v, p) && level <= MAX_NESTING_LEVEL && Tracked(v, dirs, s)
    ensures Tracked(v, dirs, WalkClusters(v, s, p, i, last, level))
    decreases MAX_NESTING_LEVEL + 1 - level, 3, |p| - i
  {
    hide Tracked, WalkCluster;
    if i < |p| {
      var u := WalkCluster(v, Cursor(s, last, false), p[i], 0, level);
      TrackedCluster(v, dirs, Cursor(s, last, false), p[i], 0, level);
      TrackedClusters(v, dirs, u.s, p, i + 1, u.last, level);
    }
  }

  lemma {:induction false} TrackedTree(v: Volume, dirs: Directories, s: State, start: nat, level: nat)
    requires Fits(v, s) && level <= MAX_NESTING_LEVEL + 1 && Tracked(v, dirs, s)
    ensures Tracked(v, dirs, WalkTree(v, s, start, level))
    decreases MAX_NESTING_LEVEL + 1 - level, 4, 0
  {
    hide Tracked, WalkClusters;
    if level <= MAX_NESTING_LEVEL { TrackedClusters(v, dirs, s, DirClusters(v, start), 0, false, level); }
  }

  lemma TrackedRoot(v: Volume, dirs: Directories, root: nat)
    requires Usable(v) && |dirs| == |v.fat|
    ensures Tracked(v, dirs, WalkRoot(v, dirs, root))
  {
    hide WalkClusters;
    var s := Reserved(v, dirs, root);
    assert Tracked(v, dirs, s);
    TrackedClusters(v, dirs, s, ReadClusters(v, RootFirst(root), root), 0, false, 1);
  }

  // ------------------------------------------------------------------ when every record is read from its own sector

  /** A label that is deleted: one with a start cluster, or any in a subdirectory. */
  predicate Misplaced(r: Record, level: nat) {
    r.VolumeLabel? && (level != 1 || r.start != 0)
  }

  /** Deleting the record leaves its own sector in the buffer: it is the directory's first one, or it has a record in
      front of it in its sector that is not part of a long name. */
  predicate StaysInSector(v: Volume, dirs: Directories, c: nat, k: nat, front: bool)
    requires v.perSector > 0
  {
    (front && k == 0) || NameSector(v, dirs, c, k, MAX_ENTRIES_LONG_FILE_NAME) == Sector(c, k / v.perSector)
  }

  /** Misplaced labels in the directory whose records are read from the clusters of `path`, and below it, do not take
      the scan away from their sector. */
  ghost predicate Calm(v: Volume, dirs: Directories, path: seq<nat>, level: nat)
    requires level <= MAX_NESTING_LEVEL + 1 && v.perSector > 0
    decreases MAX_NESTING_LEVEL + 1 - level, 1
  {
    level <= MAX_NESTING_LEVEL ==>
      forall i, k: nat ::
        0 <= i < |path| && IsPlace(dirs, path[i], k) ==> CalmRecord(v, dirs, path[i], k, i == 0, level)
  }

  ghost predicate CalmRecord(v: Volume, dirs: Directories, c: nat, k: nat, front: bool, level: nat)
    requires level <= MAX_NESTING_LEVEL && v.perSector > 0
    decreases MAX_NESTING_LEVEL + 1 - level, 0
  {
    && IsPlace(dirs, c, k)
    && (Misplaced(dirs[c][k], level) ==> StaysInSector(v, dirs, c, k, front))
    && (dirs[c][k].Directory? ==> Calm(v, dirs, DirClusters(v, dirs[c][k].start), level + 1))
  }

  /** Which records are parts of long names does not change, so that the look in front of a record ends in the same
      place. */
  lemma {:induction false} NameSectorSame(v: Volume, dirs: Directories, dirs': Directories, c: nat, k: nat, n: nat)
    requires v.perSector > 0 && SameShape(dirs', dirs)
    requires forall d: nat, j: nat :: IsPlace(dirs, d, j) ==> MayBecome(dirs[d][j], dirs'[d][j])
    ensures NameSector(v, dirs', c, k, n) == NameSector(v, dirs, c, k, n)
    decreases n
  {
    if n > 0 {
      if k > 0 {
        NameSectorSame(v, dirs, dirs', c, k - 1, n - 1);
      } else {
        var h := SectorBefore(v, dirs, c);
        if h.Sector? { NameSectorSame(v, dirs, dirs', h.cluster, |dirs[h.cluster]| - 1, n - 1); }
      }
    }
  }

  /** A record that is not part of a long name, in front of the record in its sector, is enough. */
  lemma {:induction false} NameInSector(v: Volume, dirs: Directories, c: nat, k: nat, n: nat, j: nat)
    requires v.perSector > 0 && IsPlace(dirs, c, k) && j < k && j / v.perSector == k / v.perSector
    requires !IsLong(dirs[c][j])
    ensures NameSector(v, dirs, c, k, n) == Sector(c, k / v.perSector)
    decreases n
  {
    DivMonotone(j, k - 1, v.perSector);
    DivMonotone(k - 1, k, v.perSector);
    if n > 0 && j < k - 1 { NameInSector(v, dirs, c, k - 1, n - 1, j); }
  }

  /** Where nothing is deleted or misplaced labels stay in their sectors, each record is read from its own sector. */
  lemma {:induction false} DirectoryAgrees(v: Volume, dirs: Directories, s: State, c: nat, k: nat, level: nat)
    requires Fits(v, s) && IsPlace(s.dirs, c, k) && level <= MAX_NESTING_LEVEL && Tracked(v, dirs, s)
    requires s.dirs[c][k].Directory?
    requires Calm(v, dirs, DirClusters(v, s.dirs[c][k].start), level + 1) ||
             WalkDirectory(v, s, c, k, level).corrupted == s.corrupted
    ensures WalkDirectory(v, s, c, k, level) == ScanRecord(v, s, c, k, level)
    decreases MAX_NESTING_LEVEL + 1 - level, 0, 0
  {
    hide Tracked, Acceptable, Drop, WalkTree, ScanTree, Calm, Loaded, Written;
    var start := s.dirs[c][k].start;
    var e := Entered(v, s, start);
    TrackedEntered(v, dirs, s, start);
    if start in v.signed && Acceptable(v, s.marks, start) {
      TrackedMark(v, dirs, e, start);
      TreeAgrees(v, dirs, Mark(v, e, start), start, level + 1);
    }
  }

  lemma {:induction false} NextAgrees(v: Volume, dirs: Directories, w: Cursor, c: nat, k: nat, front: bool, level: nat)
    requires Fits(v, w.s) && IsPlace(w.s.dirs, c, k) && level <= MAX_NESTING_LEVEL && Tracked(v, dirs, w.s)
    requires CalmRecord(v, dirs, c, k, front, level) || WalkNext(v, w, c, k, level).s.corrupted == w.s.corrupted
    requires w.stale && Remainder(k, v.perSector) != 0 ==> Holds(v.perSector, w.s.buffer.held, c, k)
    requires front && k == 0 ==> w.s.buffer.current == c
    ensures var u := WalkNext(v, w, c, k, level);
            && u.s == ScanNext(v, w.s, c, k, w.last, level) && u.last == (w.last || w.s.dirs[c][k].End?)
            && (u.stale ==> Holds(v.perSector, u.s.buffer.held, c, k))
    decreases MAX_NESTING_LEVEL + 1 - level, 1, 0
  {
    hide Tracked, Acceptable, Drop, WalkTree, ScanTree, Calm, Seen, WalkDirectory, NameSector;
    var l := Loading(v, w, c, k);
    assert l == LoadedFor(v, w.s, c, k) && LoadedFor(v, l, c, k) == l;
    OwnSeen(v, l, c, k);
    TrackedLoaded(v, dirs, w.s, Sector(c, k / v.perSector));
    var r := l.dirs[c][k];
    if !r.End? && !w.last {
      if r.Directory? {
        DirectoryCalm(v, dirs, w.s, c, k, front, level);
        DirectoryAgrees(v, dirs, l, c, k, level);
      }
      if Misplaced(r, level) { LabelStays(v, dirs, l, c, k, front, level); }
    }
  }

  lemma DirectoryCalm(v: Volume, dirs: Directories, s: State, c: nat, k: nat, front: bool, level: nat)
    requires v.perSector > 0 && Tracked(v, dirs, s) && IsPlace(s.dirs, c, k) && s.dirs[c][k].Directory?
    requires level <= MAX_NESTING_LEVEL
    ensures CalmRecord(v, dirs, c, k, front, level) ==> Calm(v, dirs, DirClusters(v, s.dirs[c][k].start), level + 1)
  {
    assert IsPlace(dirs, c, k) && PlaceTracked(v, dirs, s, c, k);
    hide Calm;
  }

  lemma LabelStays(v: Volume, dirs: Directories, s: State, c: nat, k: nat, front: bool, level: nat)
    requires v.perSector > 0 && Tracked(v, dirs, s) && IsPlace(s.dirs, c, k) && level <= MAX_NESTING_LEVEL
    requires CalmRecord(v, dirs, c, k, front, level) && Misplaced(s.dirs[c][k], level)
    requires front && k == 0 ==> s.buffer.current == c
    ensures Holds(v.perSector, Drop(v, s, c, k).buffer.held, c, k)
  {
    hide Calm;
    assert PlaceTracked(v, dirs, s, c, k);
    var d := Put(s.dirs, c, k, Erased(s.dirs[c][k]));
    forall a: nat, b: nat | IsPlace(dirs, a, b) ensures MayBecome(dirs[a][b], d[a][b]) {
      assert PlaceTracked(v, dirs, s, a, b);
    }
    NameSectorSame(v, dirs, d, c, k, MAX_ENTRIES_LONG_FILE_NAME);
  }

  lemma SameSector(k: nat, perSector: nat)
    requires perSector > 0 && Remainder(k + 1, perSector) != 0
    ensures (k + 1) / perSector == k / perSector
  {
    DivMod(k + 1, perSector);
    DivModUnique(k, perSector, (k + 1) / perSector, (k + 1) % perSector - 1);
  }

  lemma {:induction false} ClusterAgrees(v: Volume, dirs: Directories, w: Cursor, c: nat, k: nat, front: bool,
      level: nat)
    requires Fits(v, w.s) && c < |w.s.dirs| && k <= |w.s.dirs[c]| && level <= MAX_NESTING_LEVEL
    requires CursorTracked(v, dirs, w)
    requires (forall j: nat :: j >= k && IsPlace(dirs, c, j) ==> CalmRecord(v, dirs, c, j, front, level))
             || WalkCluster(v, w, c, k, level).s.corrupted == w.s.corrupted
    requires w.stale && k > 0 && Remainder(k, v.perSector) != 0 ==> Holds(v.perSector, w.s.buffer.held, c, k)
    requires k == 0 ==> !w.stale && (front ==> w.s.buffer.current == c)
    ensures var u := WalkCluster(v, w, c, k, level); (u.s, u.last) == ScanCluster(v, w.s, c, k, w.last, level)
    decreases MAX_NESTING_LEVEL + 1 - level, 2, |w.s.dirs[c]| - k
  {
    hide Tracked, CalmRecord, WalkNext, ScanNext;
    if k < |w.s.dirs[c]| {
      assert IsPlace(dirs, c, k) by { ShapeTracked(v, dirs, w.s, c, k); }
      NextAgrees(v, dirs, w, c, k, front, level);
      TrackedNext(v, dirs, w, c, k, level);
      var u := WalkNext(v, w, c, k, level);
      if Remainder(k + 1, v.perSector) != 0 { SameSector(k, v.perSector); }
      ClusterAgrees(v, dirs, u, c, k + 1, front, level);
    }
  }

  lemma ShapeTracked(v: Volume, dirs: Directories, s: State, c: nat, k: nat)
    requires v.perSector > 0 && Tracked(v, dirs, s)
    ensures IsPlace(dirs, c, k) <==> IsPlace(s.dirs, c, k)
  {
  }

  lemma {:induction false} ClustersAgree(v: Volume, dirs: Directories, s: State, p: seq<nat>, i: nat, last: bool,
      level: nat)
    requires Fits(v, s) && i <= |p| && Inside(v, p) && level <= MAX_NESTING_LEVEL && Tracked(v, dirs, s)
    requires Calm(v, dirs, p, level) || WalkClusters(v, s, p, i, last, level).corrupted == s.corrupted
    requires i == 0 && |p| > 0 ==> s.buffer.current == p[0]
    ensures WalkClusters(v, s, p, i, last, level) == ScanClusters(v, s, p, i, last, level)
    decreases MAX_NESTING_LEVEL + 1 - level, 3, |p| - i
  {
    hide Tracked, CalmRecord, WalkCluster, ScanCluster;
    if i < |p| {
      var w := Cursor(s, last, false);
      ClusterAgrees(v, dirs, w, p[i], 0, i == 0, level);
      TrackedCluster(v, dirs, w, p[i], 0, level);
      var u := WalkCluster(v, w, p[i], 0, level);
      ClustersAgree(v, dirs, u.s, p, i + 1, u.last, level);
    }
  }

  lemma {:induction false} TreeAgrees(v: Volume, dirs: Directories, s: State, start: nat, level: nat)
    requires Fits(v, s) && level <= MAX_NESTING_LEVEL + 1 && Tracked(v, dirs, s) && s.buffer.current == start
    requires Calm(v, dirs, DirClusters(v, start), level) || WalkTree(v, s, start, level).corrupted == s.corrupted
    ensures WalkTree(v, s, start, level) == ScanTree(v, s, start, level)
    decreases MAX_NESTING_LEVEL + 1 - level, 4, 0
  {
    hide Tracked, Calm, WalkClusters, ScanClusters;
    if level <= MAX_NESTING_LEVEL { ClustersAgree(v, dirs, s, DirClusters(v, start), 0, false, level); }
  }

  /** If misplaced labels stay in their sectors, or if nothing is deleted, check-disk reads every record from its own
      sector. */
  lemma RootAgrees(v: Volume, dirs: Directories, root: nat)
    requires Usable(v) && |dirs| == |v.fat|
    requires LabelsCalm(v, dirs, root) || WalkRoot(v, dirs, root).corrupted == 0
    ensures WalkRoot(v, dirs, root) == ScanRoot(v, dirs, root)
  {
    hide WalkClusters, ScanClusters, Calm;
    var s := Reserved(v, dirs, root);
    assert Tracked(v, dirs, s);
    ClustersAgree(v, dirs, s, ReadClusters(v, RootFirst(root), root), 0, false, 1);
  }

  /** Misplaced labels in the root directory and below it stay in their sectors. */
  ghost predicate LabelsCalm(v: Volume, dirs: Directories, root: nat)
    requires Usable(v)
  {
    Calm(v, dirs, ReadClusters(v, RootFirst(root), root), 1)
  }

  /** The root directory is where check-disk begins to read, its chain ends, and misplaced labels stay in their
      sectors. */
  ghost predicate Rooted(v: Volume, dirs: Directories, root: nat) {
    InFront(v, dirs, root) && LabelsCalm(v, dirs, root)
  }

  /** Without labels there is nothing to demand. */
  lemma {:induction false} NoLabelsCalm(v: Volume, dirs: Directories, path: seq<nat>, level: nat)
    requires level <= MAX_NESTING_LEVEL + 1 && v.perSector > 0
    requires forall c: nat, k: nat :: IsPlace(dirs, c, k) ==> !dirs[c][k].VolumeLabel?
    ensures Calm(v, dirs, path, level)
    decreases MAX_NESTING_LEVEL + 1 - level
  {
    hide StaysInSector;
    if level <= MAX_NESTING_LEVEL {
      forall i, k: nat | 0 <= i < |path| && IsPlace(dirs, path[i], k)
        ensures CalmRecord(v, dirs, path[i], k, i == 0, level)
      {
        NoLabelsCalm(v, dirs, DirClusters(v, dirs[path[i]][k].start), level + 1);
      }
    }
  }

  /** Check-disk reads every record from its own sector. */
  ghost predicate OwnRead(v: Volume, dirs: Directories, root: nat) {
    InFront(v, dirs, root) && WalkRoot(v, dirs, root) == ScanRoot(v, dirs, root)
  }

  lemma RootedRead(v: Volume, dirs: Directories, root: nat)
    requires Rooted(v, dirs, root)
    ensures OwnRead(v, dirs, root)
  {
    hide WalkRoot, ScanRoot, Calm;
    RootAgrees(v, dirs, root);
  }

  lemma RootWalked(v: Volume, dirs: Directories, root: nat)
    requires OwnRead(v, dirs, root)
    ensures InFront(v, dirs, root) && WalkRoot(v, dirs, root) == ScanTree(v, Reserved(v, dirs, root), root, 1)
  {
    hide WalkRoot, ScanRoot, ScanTree;
    RootScanned(v, dirs, root);
  }

  /** Deleting a record changes it for good, so that records are unchanged only if none is deleted. */
  lemma UnchangedRead(v: Volume, dirs: Directories, root: nat)
    requires InFront(v, dirs, root) && WalkRoot(v, dirs, root).dirs == dirs
    ensures OwnRead(v, dirs, root)
  {
    hide WalkRoot, ScanRoot, Calm;
    TrackedRoot(v, dirs, root);
    assert WalkRoot(v, dirs, root).corrupted == 0;
    RootAgrees(v, dirs, root);
  }
}
