/** What check-disk's scan of files and directories does, on values (filesystem/chkdsk/src/chkdsk.c): which
    records it deletes, which clusters it marks, and why the chains of the records it leaves are whole and
    share no cluster. */
module CheckDiskScan {
  import opened Division
  import opened Chains

  const MAX_NESTING_LEVEL: nat := 16

  /** A directory record as the scan sees it. `End` has a zero first byte; `Skipped` is a dot entry or part of a long
      name. Records that have ended or been deleted keep their other bytes: whether they are part of a long name, the
      start cluster and the size. */
  datatype Record =
    | End(long: bool, start: nat, size: nat)
    | Deleted(long: bool, start: nat, size: nat)
    | Skipped(long: bool, start: nat, size: nat)
    | Directory(start: nat, size: nat)
    | File(start: nat, size: nat)
    | VolumeLabel(start: nat, size: nat)

  predicate IsLong(r: Record) {
    (r.End? || r.Deleted? || r.Skipped?) && r.long
  }

  /** The record with a zero first byte. */
  function Ended(r: Record): Record {
    End(IsLong(r), r.start, r.size)
  }

  /** The record with the first byte of a deleted one. */
  function Erased(r: Record): Record {
    Deleted(IsLong(r), r.start, r.size)
  }

  /** The records of each cluster; index 0 stands for the fixed root directory region of FAT16. */
  type Directories = seq<seq<Record>>

  /** What the scan only reads: the entries of the FAT, its end mark, the bytes in a cluster, the records in a
      sector, the clusters whose first sector begins like a subdirectory should, and what the sector in front of all
      directories and data looks like if it is read as records. */
  datatype Volume =
    Volume(fat: seq<nat>, end: nat, clusterBytes: nat, perSector: nat, signed: set<nat>, front: seq<Record>)

  ghost predicate Usable(v: Volume) {
    WellFormed(v.fat, v.end) && HasStop(v.fat) && v.clusterBytes > 0 && v.perSector > 0 && 0 !in v.signed
  }

  /** The sector that the directory buffer holds: one of a cluster, or the one in front of all of them. */
  datatype Held = Nothing | Front | Sector(cluster: nat, index: nat)

  /** The records on the device, what the directory buffer holds, and where the directory begins that has been entered
      last (StartSectCurDir); a dirty buffer differs from the device. */
  datatype DirBuffer = DirBuffer(device: Directories, held: Held, dirty: bool, current: nat)

  /** What the scan changes: the records as they are seen through the buffer, the bits, glb_wFileCorrupted, and the
      buffer. */
  datatype State = State(dirs: Directories, marks: set<nat>, corrupted: nat, buffer: DirBuffer)

  predicate IsPlace(dirs: Directories, c: nat, k: nat) {
    c < |dirs| && k < |dirs[c]|
  }

  predicate SameShape(a: Directories, b: Directories) {
    |a| == |b| && forall c :: 0 <= c < |a| ==> |a[c]| == |b[c]|
  }

  function Put(dirs: Directories, c: nat, k: nat, r: Record): (d: Directories)
    requires c < |dirs| && k < |dirs[c]|
    ensures SameShape(d, dirs)
  {
    dirs[c := dirs[c][k := r]]
  }

  // ------------------------------------------------------------------ the directory buffer

  predicate Holds(perSector: nat, held: Held, c: nat, k: nat)
    requires perSector > 0
  {
    held == Sector(c, k / perSector)
  }

  /** The device after the buffer has been written to it. */
  function WriteBack(perSector: nat, dirs: Directories, b: DirBuffer): (device: Directories)
    requires perSector > 0
    ensures SameShape(device, dirs)
  {
    seq(|dirs|, c requires 0 <= c < |dirs| =>
      seq(|dirs[c]|, k requires 0 <= k < |dirs[c]| =>
        if Holds(perSector, b.held, c, k) || c >= |b.device| || k >= |b.device[c]| then dirs[c][k] else b.device[c][k]))
  }

  /** Writing the buffer back if it is dirty. */
  function Written(v: Volume, s: State): (t: State)
    requires v.perSector > 0
    ensures t == s.(buffer := t.buffer)
  {
    if s.buffer.dirty
    then s.(buffer := s.buffer.(device := WriteBack(v.perSector, s.dirs, s.buffer), dirty := false))
    else s
  }

  /** ReadDirSector: another sector is loaded after a due write-back. */
  function Loaded(v: Volume, s: State, sector: Held): (t: State)
    requires v.perSector > 0
    ensures t == s.(buffer := t.buffer) && t.buffer.held == sector && t.buffer.current == s.buffer.current
  {
    if s.buffer.held == sector then s
    else s.(buffer := s.buffer.(device := Written(v, s).buffer.device, held := sector, dirty := false))
  }

  /** The sector of a record is loaded. */
  function LoadedFor(v: Volume, s: State, c: nat, k: nat): (t: State)
    requires v.perSector > 0
    ensures t == s.(buffer := t.buffer) && Holds(v.perSector, t.buffer.held, c, k)
    ensures t.buffer.current == s.buffer.current
  {
    Loaded(v, s, Sector(c, k / v.perSector))
  }

  /** The first sector of a subdirectory is loaded. */
  function Entered(v: Volume, s: State, start: nat): (t: State)
    requires v.perSector > 0
    ensures t == s.(buffer := t.buffer) && t.buffer.current == start
  {
    var w := Written(v, s);
    Loaded(v, w.(buffer := w.buffer.(current := start)), Sector(start, 0))
  }

  /** A record is changed in the buffer. */
  function Changed(s: State, c: nat, k: nat, r: Record): (t: State)
    requires c < |s.dirs| && k < |s.dirs[c]|
    ensures SameShape(t.dirs, s.dirs)
  {
    s.(dirs := Put(s.dirs, c, k, r), buffer := s.buffer.(dirty := true))
  }

  // ------------------------------------------------------------------ looking for the parts of a long name

  const MAX_ENTRIES_LONG_FILE_NAME: nat := 20

  /** The sector in front of the first one of cluster `c`. */
  function SectorBefore(v: Volume, dirs: Directories, c: nat): Held
    requires v.perSector > 0
  {
    var b := if c > 2 then c - 1 else 0;
    if 0 < c && b < |dirs| && |dirs[b]| > 0 then Sector(b, (|dirs[b]| - 1) / v.perSector) else Front
  }

  /** The sector of the first record in front of (c, k) that is not part of a long name, as far as `n` steps go. */
  function NameSector(v: Volume, dirs: Directories, c: nat, k: nat, n: nat): Held
    requires v.perSector > 0
    decreases n
  {
    if k > 0 then
      if n > 0 && IsPlace(dirs, c, k - 1) && IsLong(dirs[c][k - 1]) then NameSector(v, dirs, c, k - 1, n - 1)
      else Sector(c, (k - 1) / v.perSector)
    else
      var h := SectorBefore(v, dirs, c);
      if n > 0 && h.Sector? && IsPlace(dirs, h.cluster, |dirs[h.cluster]| - 1) &&
        IsLong(dirs[h.cluster][|dirs[h.cluster]| - 1])
      then NameSector(v, dirs, h.cluster, |dirs[h.cluster]| - 1, n - 1)
      else h
  }

  /** With `m` parts of a long name in front of (c, k) in the same cluster, it is the sector of the record in front of
      these. */
  lemma {:induction false} NameInCluster(v: Volume, dirs: Directories, c: nat, k: nat, n: nat, m: nat)
    requires v.perSector > 0 && m <= n && m < k && IsPlace(dirs, c, k)
    requires (forall i :: k - m <= i < k ==> IsLong(dirs[c][i])) && (m == n || !IsLong(dirs[c][k - 1 - m]))
    ensures NameSector(v, dirs, c, k, n) == Sector(c, (k - 1 - m) / v.perSector)
    decreases m
  {
    if m > 0 { NameInCluster(v, dirs, c, k - 1, n - 1, m - 1); }
  }

  /** Looking for the parts of a long name in front of (c, k), record by record. */
  function LookBack(v: Volume, s: State, c: nat, k: nat, n: nat): (t: State)
    requires v.perSector > 0
    ensures t == s.(buffer := t.buffer) && t.buffer.held == NameSector(v, s.dirs, c, k, n)
    ensures t.buffer.current == s.buffer.current
    decreases n
  {
    if k > 0 then
      var l := Loaded(v, s, Sector(c, (k - 1) / v.perSector));
      if n > 0 && IsPlace(s.dirs, c, k - 1) && IsLong(s.dirs[c][k - 1]) then LookBack(v, l, c, k - 1, n - 1) else l
    else
      var h := SectorBefore(v, s.dirs, c);
      var l := Loaded(v, s, h);
      if n > 0 && h.Sector? && IsPlace(s.dirs, h.cluster, |s.dirs[h.cluster]| - 1) &&
        IsLong(s.dirs[h.cluster][|s.dirs[h.cluster]| - 1])
      then LookBack(v, l, h.cluster, |s.dirs[h.cluster]| - 1, n - 1)
      else l
  }

  /** The sector that DeleteFileRecord leaves in the buffer: it looks for the parts of a long name in front of the
      record unless that is the first one of the directory that has been entered last. */
  function LookedAt(v: Volume, s: State, c: nat, k: nat): Held
    requires v.perSector > 0
  {
    if k == 0 && s.buffer.current == c then Sector(c, 0) else NameSector(v, s.dirs, c, k, MAX_ENTRIES_LONG_FILE_NAME)
  }

  // ------------------------------------------------------------------ the scan

  /** A chain that can be marked: it ends, and none of its clusters is in use. */
  ghost predicate Acceptable(v: Volume, marks: set<nat>, start: nat) {
    EndsUnmarked(v.fat, v.end, start, marks)
  }

  /** The test of a file's size in bytes against its number of clusters. */
  predicate SizeFits(v: Volume, size: nat, clusters: nat)
    requires v.clusterBytes > 0
  {
    size == clusters || clusters - 1 <= size / v.clusterBytes <= clusters
  }

  /** A chain of as many clusters as the size needs fits, and so does one with a cluster more or less that the
      rounding allows; a size that equals the number of clusters fits as well. */
  lemma SizeInBytes(v: Volume, size: nat, clusters: nat)
    requires v.clusterBytes > 0
    ensures SizeFits(v, size, clusters) <==>
            size == clusters || (clusters - 1) * v.clusterBytes <= size < (clusters + 1) * v.clusterBytes
  {
    var cb, q, r := v.clusterBytes, size / v.clusterBytes, size % v.clusterBytes;
    DivMod(size, cb);
    if clusters - 1 <= q { KeepOrder(clusters - 1, q, cb); }
    if q <= clusters { KeepOrder(q, clusters, cb); }
    OneMore(clusters, cb);
    if (clusters - 1) * cb <= size { QuotientOrder(clusters - 1, 0, q, r, cb); }
    if size < (clusters + 1) * cb { QuotientOrder(q, r, clusters, cb - 1, cb); }
  }

  /** The clusters that hold the records of the directory that starts at `start`. */
  ghost function DirClusters(v: Volume, start: nat): (p: seq<nat>)
    ensures |v.fat| > 0 ==> forall i :: 0 <= i < |p| ==> p[i] < |v.fat|
  {
    if start == 0 then [0] else if Ends(v.fat, v.end, start) then Chain(v.fat, v.end, start) else []
  }

  ghost predicate Fits(v: Volume, s: State) {
    Usable(v) && |s.dirs| == |v.fat|
  }

  /** DeleteFileRecord. */
  ghost function Drop(v: Volume, s: State, c: nat, k: nat): (t: State)
    requires IsPlace(s.dirs, c, k) && v.perSector > 0
    ensures t.dirs == Put(s.dirs, c, k, Erased(s.dirs[c][k])) && t.marks == s.marks && t.corrupted == s.corrupted + 1
    ensures t.buffer.held == LookedAt(v, s.(dirs := t.dirs), c, k) && t.buffer.current == s.buffer.current
  {
    var d := Changed(LoadedFor(v, s, c, k), c, k, Erased(s.dirs[c][k])).(corrupted := s.corrupted + 1);
    if k == 0 && d.buffer.current == c then d else LookBack(v, d, c, k, MAX_ENTRIES_LONG_FILE_NAME)
  }

  ghost function Mark(v: Volume, s: State, start: nat): State {
    s.(marks := s.marks + Clusters(v.fat, v.end, start))
  }

  /** A file without a start cluster and without size stays; otherwise it has to have a chain that fits. */
  ghost predicate FileFits(v: Volume, marks: set<nat>, start: nat, size: nat)
    requires v.clusterBytes > 0
  {
    (start == 0 && size == 0) ||
    (start != 0 && size != 0 && Acceptable(v, marks, start) && SizeFits(v, size, |Chain(v.fat, v.end, start)|))
  }

  ghost function ScanRecord(v: Volume, s: State, c: nat, k: nat, level: nat): (t: State)
    requires Fits(v, s) && c < |s.dirs| && k < |s.dirs[c]| && level <= MAX_NESTING_LEVEL
    ensures SameShape(t.dirs, s.dirs)
    decreases MAX_NESTING_LEVEL + 1 - level, 0, 0
  {
    match s.dirs[c][k]
    case Directory(start, _) =>
      var e := Entered(v, s, start);
      if start in v.signed && Acceptable(v, s.marks, start)
      then ScanTree(v, Mark(v, e, start), start, level + 1)
      else Drop(v, e, c, k)
    case File(start, size) => if FileFits(v, s.marks, start, size) then Mark(v, s, start) else Drop(v, s, c, k)
    case VolumeLabel(start, _) => if level != 1 || start != 0 then Drop(v, s, c, k) else s
    case _ => s
  }

  /** One record of a cluster; nothing but ends may follow an end. */
  ghost function ScanNext(v: Volume, s: State, c: nat, k: nat, last: bool, level: nat): (t: State)
    requires Fits(v, s) && c < |s.dirs| && k < |s.dirs[c]| && level <= MAX_NESTING_LEVEL
    ensures SameShape(t.dirs, s.dirs)
    decreases MAX_NESTING_LEVEL + 1 - level, 1, 0
  {
    var l := LoadedFor(v, s, c, k);
    if s.dirs[c][k].End? then l else if last then Changed(l, c, k, Ended(s.dirs[c][k]))
      else ScanRecord(v, l, c, k, level)
  }

  /** The records from `k` on of cluster `c`; `last` says that the end of the directory has been seen. */
  ghost function ScanCluster(v: Volume, s: State, c: nat, k: nat, last: bool, level: nat): (t: (State, bool))
    requires Fits(v, s) && c < |s.dirs| && k <= |s.dirs[c]| && level <= MAX_NESTING_LEVEL
    ensures SameShape(t.0.dirs, s.dirs)
    decreases MAX_NESTING_LEVEL + 1 - level, 2, |s.dirs[c]| - k
  {
    if k == |s.dirs[c]| then (s, last)
    else
      var t := ScanNext(v, s, c, k, last, level);
      ScanCluster(v, t, c, k + 1, last || s.dirs[c][k].End?, level)
  }

  ghost predicate Inside(v: Volume, p: seq<nat>) {
    forall i :: 0 <= i < |p| ==> p[i] < |v.fat|
  }

  ghost function ScanClusters(v: Volume, s: State, p: seq<nat>, i: nat, last: bool, level: nat): (t: State)
    requires Fits(v, s) && i <= |p| && Inside(v, p) && level <= MAX_NESTING_LEVEL
    ensures SameShape(t.dirs, s.dirs)
    decreases MAX_NESTING_LEVEL + 1 - level, 3, |p| - i
  {
    if i == |p| then s
    else
      var t := ScanCluster(v, s, p[i], 0, last, level);
      ScanClusters(v, t.0, p, i + 1, t.1, level)
  }

  ghost function ScanTree(v: Volume, s: State, start: nat, level: nat): (t: State)
    requires Fits(v, s) && level <= MAX_NESTING_LEVEL + 1
    ensures SameShape(t.dirs, s.dirs)
    decreases MAX_NESTING_LEVEL + 1 - level, 4, 0
  {
    if level > MAX_NESTING_LEVEL then s else ScanClusters(v, s, DirClusters(v, start), 0, false, level)
  }

  // ------------------------------------------------------------------ the root directory

  /** The clusters whose records are read for the directory that starts at `start`: links are followed from `start`, but
      reading begins in `first`. */
  ghost function ReadClusters(v: Volume, first: nat, start: nat): (p: seq<nat>)
    requires |v.fat| > 0 && first < |v.fat|
    ensures Inside(v, p)
  {
    var p := DirClusters(v, start);
    if p == [] then p else p[0 := first]
  }

  ghost function ScanFrom(v: Volume, s: State, first: nat, start: nat, level: nat): (t: State)
    requires Fits(v, s) && first < |v.fat| && level <= MAX_NESTING_LEVEL + 1
    ensures SameShape(t.dirs, s.dirs)
  {
    if level > MAX_NESTING_LEVEL then s else ScanClusters(v, s, ReadClusters(v, first, start), 0, false, level)
  }

  lemma ScanFromStart(v: Volume, s: State, start: nat, level: nat)
    requires Fits(v, s) && start < |v.fat| && level <= MAX_NESTING_LEVEL + 1
    ensures ScanFrom(v, s, start, start, level) == ScanTree(v, s, start, level)
  {
    var p := DirClusters(v, start);
    if p != [] { assert p[0 := start] == p; }
  }

  /** The state in which the scan of the root directory begins. */
  ghost function Reserved(v: Volume, dirs: Directories, root: nat): State {
    State(dirs, {0, 1} + Clusters(v.fat, v.end, root), 0, DirBuffer(dirs, Nothing, false, RootFirst(root)))
  }

  /** wStartSectRootDir lies behind the FATs: there is the fixed root directory of FAT16, or the first sector of
      cluster 2, wherever the root directory starts. */
  function RootFirst(root: nat): nat {
    if root == 0 then 0 else 2
  }

  /** The state after the scan of the root directory and everything below it. */
  ghost function ScanRoot(v: Volume, dirs: Directories, root: nat): (t: State)
    requires Usable(v) && |dirs| == |v.fat|
    ensures SameShape(t.dirs, dirs)
  {
    ScanFrom(v, Reserved(v, dirs, root), RootFirst(root), root, 1)
  }

  /** The records on the device in the end: the buffer is written back only if a record has been deleted. */
  function DeviceAfter(v: Volume, t: State): Directories
    requires v.perSector > 0
  {
    if t.corrupted != 0 then Written(v, t).buffer.device else t.buffer.device
  }

  /** The root directory is where the scan begins to read, and its chain ends. */
  ghost predicate InFront(v: Volume, dirs: Directories, root: nat) {
    Usable(v) && |dirs| == |v.fat| && (root == 0 || root == 2) && (root == 0 || Ends(v.fat, v.end, root))
  }

  lemma RootScanned(v: Volume, dirs: Directories, root: nat)
    requires InFront(v, dirs, root)
    ensures ScanRoot(v, dirs, root) == ScanTree(v, Reserved(v, dirs, root), root, 1)
  {
    hide ScanTree;
    ScanFromStart(v, Reserved(v, dirs, root), root, 1);
  }

  // ------------------------------------------------------------------ surviving records

  /** Where a chain begins: the root directory, or the record at a place. */
  datatype Place = Root | At(cluster: nat, index: nat)

  predicate HasChain(r: Record) {
    r.Directory? || (r.File? && r.start != 0)
  }

  ghost predicate IsRecord(dirs: Directories, c: nat, k: nat) {
    c < |dirs| && k < |dirs[c]| && HasChain(dirs[c][k])
  }

  /** The place belongs to the record at (c, k) or lies below it. */
  ghost predicate Under(v: Volume, dirs: Directories, c: nat, k: nat, level: nat, p: Place)
    requires level <= MAX_NESTING_LEVEL
    decreases MAX_NESTING_LEVEL + 1 - level, 0
  {
    IsRecord(dirs, c, k) &&
    (p == At(c, k) || (dirs[c][k].Directory? && Survives(v, dirs, dirs[c][k].start, level + 1, p)))
  }

  /** The place belongs to a record with a chain in the directory that starts at `start` or below it. */
  ghost predicate Survives(v: Volume, dirs: Directories, start: nat, level: nat, p: Place)
    requires level <= MAX_NESTING_LEVEL + 1
    decreases MAX_NESTING_LEVEL + 1 - level, 1
  {
    level <= MAX_NESTING_LEVEL && exists c: nat, k: nat ::
      c in DirClusters(v, start) && IsRecord(dirs, c, k) && Under(v, dirs, c, k, level, p)
  }

  /** The clusters of the directory whose record is at `p`. */
  ghost function ClustersAt(v: Volume, dirs: Directories, p: Place): seq<nat> {
    if p.At? && IsRecord(dirs, p.cluster, p.index) && dirs[p.cluster][p.index].Directory?
    then DirClusters(v, dirs[p.cluster][p.index].start)
    else []
  }

  ghost predicate Avoids(s: seq<nat>, changed: set<nat>) {
    forall c :: c in s ==> c !in changed
  }

  /** None of the clusters that hold the directory or a directory below it is in `changed`. */
  ghost predicate Apart(v: Volume, dirs: Directories, start: nat, level: nat, changed: set<nat>)
    requires level <= MAX_NESTING_LEVEL + 1
  {
    Avoids(DirClusters(v, start), changed) &&
    forall p :: Survives(v, dirs, start, level, p) ==> Avoids(ClustersAt(v, dirs, p), changed)
  }

  ghost predicate SameExcept(a: Directories, b: Directories, changed: set<nat>) {
    SameShape(a, b) && forall c :: 0 <= c < |a| && c !in changed ==> a[c] == b[c]
  }

  lemma ApartBelow(v: Volume, dirs: Directories, start: nat, level: nat, changed: set<nat>, c: nat, k: nat)
    requires level <= MAX_NESTING_LEVEL && Apart(v, dirs, start, level, changed)
    requires c in DirClusters(v, start) && IsRecord(dirs, c, k) && dirs[c][k].Directory?
    ensures Apart(v, dirs, dirs[c][k].start, level + 1, changed)
  {
    assert Under(v, dirs, c, k, level, At(c, k));
    assert Survives(v, dirs, start, level, At(c, k));
    assert ClustersAt(v, dirs, At(c, k)) == DirClusters(v, dirs[c][k].start);
    forall p | Survives(v, dirs, dirs[c][k].start, level + 1, p) ensures Avoids(ClustersAt(v, dirs, p), changed) {
      assert Under(v, dirs, c, k, level, p);
    }
  }

  /** Which places survive depends only on the clusters of the directories involved. */
  lemma {:induction false} SurvivesFrame(v: Volume, dirs: Directories, dirs': Directories, start: nat, level: nat,
      changed: set<nat>, p: Place)
    requires level <= MAX_NESTING_LEVEL + 1 && Apart(v, dirs, start, level, changed) && SameExcept(dirs, dirs', changed)
    ensures Survives(v, dirs', start, level, p) <==> Survives(v, dirs, start, level, p)
    decreases MAX_NESTING_LEVEL + 1 - level, 1
  {
    hide Under, DirClusters;
    if level <= MAX_NESTING_LEVEL {
      forall c: nat, k: nat | c in DirClusters(v, start) && (IsRecord(dirs, c, k) || IsRecord(dirs', c, k))
        ensures IsRecord(dirs, c, k) && IsRecord(dirs', c, k)
        ensures (Under(v, dirs', c, k, level, p) <==> Under(v, dirs, c, k, level, p))
      {
        RecordFrame(v, dirs, dirs', start, level, changed, c, k, p);
      }
    }
  }

  lemma {:induction false} RecordFrame(v: Volume, dirs: Directories, dirs': Directories, start: nat, level: nat,
      changed: set<nat>, c: nat, k: nat, p: Place)
    requires level <= MAX_NESTING_LEVEL && Apart(v, dirs, start, level, changed) && SameExcept(dirs, dirs', changed)
    requires c in DirClusters(v, start) && (IsRecord(dirs, c, k) || IsRecord(dirs', c, k))
    ensures IsRecord(dirs, c, k) && IsRecord(dirs', c, k)
    ensures (Under(v, dirs', c, k, level, p) <==> Under(v, dirs, c, k, level, p))
    decreases MAX_NESTING_LEVEL + 1 - level, 0
  {
    hide Survives, DirClusters;
    assert c !in changed;
    if dirs[c][k].Directory? {
      ApartBelow(v, dirs, start, level, changed, c, k);
      SurvivesFrame(v, dirs, dirs', dirs[c][k].start, level + 1, changed, p);
    }
  }

  // ------------------------------------------------------------------ owners of clusters

  type Owners = map<Place, nat>

  ghost predicate OwnerValid(v: Volume, p: Place, start: nat, marks: set<nat>) {
    && ((p.Root? && start == 0) || Ends(v.fat, v.end, start))
    && Clusters(v.fat, v.end, start) <= marks
    && (p.At? ==> p.cluster in marks)
  }

  ghost predicate Disjoint(v: Volume, owners: Owners) {
    forall p, q :: p in owners && q in owners && p != q ==>
      Clusters(v.fat, v.end, owners[p]) !! Clusters(v.fat, v.end, owners[q])
  }

  ghost predicate OwnedBy(v: Volume, owners: Owners, c: nat) {
    exists p :: p in owners && c in Clusters(v.fat, v.end, owners[p])
  }

  /** The marked clusters are 0, 1 and those of the owners' chains, which end and share no cluster. */
  ghost predicate Owned(v: Volume, owners: Owners, marks: set<nat>) {
    && 0 in marks && 1 in marks
    && (forall p :: p in owners ==> OwnerValid(v, p, owners[p], marks))
    && Disjoint(v, owners)
    && (forall c :: c in marks ==> c < 2 || OwnedBy(v, owners, c))
  }

  /** Chains have no cluster 0 or 1. */
  lemma ClustersInside(v: Volume, start: nat)
    ensures forall c :: c in Clusters(v.fat, v.end, start) ==> IsCluster(v.fat, c)
  {
  }

  lemma ClustersOfDirectory(v: Volume, start: nat, c: nat)
    ensures start != 0 ==> (c in DirClusters(v, start) <==> c in Clusters(v.fat, v.end, start))
    ensures start == 0 ==> (c in DirClusters(v, start) <==> c == 0)
    ensures Ends(v.fat, v.end, start) ==> start != 0
  {
  }

  /** A chain with no marked cluster gets an owner. */
  lemma AddOwner(v: Volume, owners: Owners, marks: set<nat>, p: Place, start: nat)
    requires Owned(v, owners, marks) && p !in owners && p.At? && p.cluster in marks && Acceptable(v, marks, start)
    ensures Owned(v, owners[p := start], marks + Clusters(v.fat, v.end, start))
  {
    var owners', marks' := owners[p := start], marks + Clusters(v.fat, v.end, start);
    forall q | q in owners' ensures OwnerValid(v, q, owners'[q], marks') {
      if q != p { assert OwnerValid(v, q, owners[q], marks); }
    }
    forall q, r | q in owners' && r in owners' && q != r
      ensures Clusters(v.fat, v.end, owners'[q]) !! Clusters(v.fat, v.end, owners'[r])
    {
      if q != p { assert OwnerValid(v, q, owners[q], marks); }
      if r != p { assert OwnerValid(v, r, owners[r], marks); }
    }
    forall c | c in marks' ensures c < 2 || OwnedBy(v, owners', c) {
      if c in marks {
        if c >= 2 {
          var q :| q in owners && c in Clusters(v.fat, v.end, owners[q]);
          assert q in owners' && owners'[q] == owners[q];
        }
      } else {
        assert p in owners';
      }
    }
  }

  // ------------------------------------------------------------------ a step of the scan

  ghost predicate Added(owners: Owners, owners': Owners, p: Place) {
    p in owners' && p !in owners
  }

  ghost predicate Placed(dirs: Directories, p: Place, start: nat) {
    p.At? && IsRecord(dirs, p.cluster, p.index) && dirs[p.cluster][p.index].start == start
  }

  /** From `s` to `t` owners are only added; they are records of `t` that lie in `region` or in clusters that
      have been marked meanwhile, and other clusters keep their records. */
  ghost predicate Step(v: Volume, s: State, t: State, owners: Owners, owners': Owners, region: set<nat>) {
    && Owned(v, owners', t.marks) && s.marks <= t.marks
    && SameExcept(s.dirs, t.dirs, region + (t.marks - s.marks))
    && (forall p :: p in owners ==> p in owners' && owners'[p] == owners[p])
    && (forall p :: Added(owners, owners', p) ==>
         Placed(t.dirs, p, owners'[p]) && (p.cluster in region || p.cluster in t.marks - s.marks))
  }

  lemma StepRefl(v: Volume, s: State, t: State, owners: Owners, region: set<nat>)
    requires Owned(v, owners, s.marks) && t.marks == s.marks && SameExcept(s.dirs, t.dirs, region)
    ensures Step(v, s, t, owners, owners, region)
  {
  }

  lemma StepTrans(v: Volume, s: State, m: State, t: State, o: Owners, o': Owners, o'': Owners, r: set<nat>,
      r': set<nat>)
    requires Step(v, s, m, o, o', r) && Step(v, m, t, o', o'', r')
    requires forall p :: Added(o, o', p) && Placed(m.dirs, p, o'[p]) ==> Placed(t.dirs, p, o'[p])
    ensures Step(v, s, t, o, o'', r + r')
  {
    forall p | Added(o, o'', p)
      ensures Placed(t.dirs, p, o''[p]) && (p.cluster in r + r' || p.cluster in t.marks - s.marks)
    {
      assert Added(o, o', p) || Added(o', o'', p);
    }
  }

  /** The directories below a new owner lie apart from the directory being scanned and from what will be marked. */
  lemma BelowApart(v: Volume, s: State, t: State, o: Owners, o': Owners, region: set<nat>, me: Place, c: nat, k: nat,
      level: nat, changed: set<nat>)
    requires Step(v, s, t, o, o', region) && me in o && level <= MAX_NESTING_LEVEL
    requires IsRecord(t.dirs, c, k) && t.dirs[c][k].Directory?
    requires forall p :: Under(v, t.dirs, c, k, level, p) ==> Added(o, o', p)
    requires forall x :: x in changed && x in t.marks ==> x in DirClusters(v, o[me])
    ensures Apart(v, t.dirs, t.dirs[c][k].start, level + 1, changed)
  {
    forall p | Under(v, t.dirs, c, k, level, p) ensures Avoids(ClustersAt(v, t.dirs, p), changed) {
      assert Added(o, o', p) && OwnerValid(v, p, o'[p], t.marks);
      forall x | x in ClustersAt(v, t.dirs, p) ensures x !in changed {
        ClustersOfDirectory(v, o'[p], x);
        ClustersOfDirectory(v, o[me], x);
        ClustersInside(v, o'[p]);
        assert o'[me] == o[me];
      }
    }
    assert Under(v, t.dirs, c, k, level, At(c, k));
    assert Avoids(ClustersAt(v, t.dirs, At(c, k)), changed);
    forall p | Survives(v, t.dirs, t.dirs[c][k].start, level + 1, p) ensures Avoids(ClustersAt(v, t.dirs, p), changed) {
      assert Under(v, t.dirs, c, k, level, p);
    }
  }

  lemma UnderFrame(v: Volume, dirs: Directories, dirs': Directories, c: nat, k: nat, level: nat, changed: set<nat>,
      p: Place)
    requires level <= MAX_NESTING_LEVEL && SameExcept(dirs, dirs', changed) && c < |dirs| && k < |dirs[c]|
    requires dirs'[c][k] == dirs[c][k]
    requires dirs[c][k].Directory? ==> Apart(v, dirs, dirs[c][k].start, level + 1, changed)
    ensures Under(v, dirs', c, k, level, p) <==> Under(v, dirs, c, k, level, p)
  {
    hide Survives, Apart;
    if dirs[c][k].Directory? { SurvivesFrame(v, dirs, dirs', dirs[c][k].start, level + 1, changed, p); }
  }

  /** What survives below a record that has been dealt with is not affected by what comes later. */
  lemma EarlierKept(v: Volume, s: State, m: State, t: State, owners: Owners, o: Owners, region: set<nat>, me: Place,
      c: nat, k: nat, level: nat, changed: set<nat>)
    requires Step(v, s, m, owners, o, region) && me in owners && level <= MAX_NESTING_LEVEL
    requires forall p :: Under(v, m.dirs, c, k, level, p) ==> Added(owners, o, p)
    requires forall x :: x in changed && x in m.marks ==> x in DirClusters(v, owners[me])
    requires SameExcept(m.dirs, t.dirs, changed) && c < |m.dirs| && k < |m.dirs[c]| && t.dirs[c][k] == m.dirs[c][k]
    ensures forall p :: Under(v, t.dirs, c, k, level, p) <==> Under(v, m.dirs, c, k, level, p)
  {
    hide Step, Under, Added;
    if IsRecord(m.dirs, c, k) && m.dirs[c][k].Directory? {
      BelowApart(v, s, m, owners, o, region, me, c, k, level, changed);
      forall p ensures Under(v, t.dirs, c, k, level, p) <==> Under(v, m.dirs, c, k, level, p) {
        UnderFrame(v, m.dirs, t.dirs, c, k, level, changed, p);
      }
    } else {
      NotDirectory(v, m.dirs, t.dirs, c, k, level);
    }
  }

  lemma NotDirectory(v: Volume, dirs: Directories, dirs': Directories, c: nat, k: nat, level: nat)
    requires level <= MAX_NESTING_LEVEL && SameShape(dirs, dirs') && c < |dirs| && k < |dirs[c]|
    requires dirs'[c][k] == dirs[c][k]
    requires !(IsRecord(dirs, c, k) && dirs[c][k].Directory?)
    ensures forall p :: Under(v, dirs', c, k, level, p) <==> Under(v, dirs, c, k, level, p)
  {
  }

  // ------------------------------------------------------------------ every step of the scan

  /** The scan of the directory of owner `me` has come to cluster `c`. */
  ghost predicate Scanning(v: Volume, s: State, owners: Owners, me: Place, c: nat) {
    Fits(v, s) && Owned(v, owners, s.marks) && me in owners && c in DirClusters(v, owners[me])
  }

  lemma ScanningMarked(v: Volume, s: State, owners: Owners, me: Place, c: nat)
    requires Scanning(v, s, owners, me, c)
    ensures c in s.marks && c < |s.dirs|
  {
    assert OwnerValid(v, me, owners[me], s.marks);
    ClustersOfDirectory(v, owners[me], c);
  }

  /** What one record adds to the owners: itself if it is left in place with a chain, and what survives below. */
  ghost predicate RecordStep(v: Volume, s: State, t: State, owners: Owners, owners': Owners, c: nat, k: nat, level: nat)
    requires level <= MAX_NESTING_LEVEL
  {
    && Step(v, s, t, owners, owners', {c}) && c < |s.dirs|
    && (forall j :: 0 <= j < |s.dirs[c]| && j != k ==> t.dirs[c][j] == s.dirs[c][j])
    && (forall p :: Added(owners, owners', p) ==> p.At? && (p.cluster == c ==> p.index == k))
    && (forall p :: Added(owners, owners', p) <==> Under(v, t.dirs, c, k, level, p))
  }

  /** A record that is left in place with a chain of its own is added to the owners, and so is everything that
      survives below it; nothing else is. */
  lemma {:induction false} RecordOwned(v: Volume, s: State, c: nat, k: nat, level: nat, me: Place,
      owners: Owners) returns (owners': Owners)
    requires Scanning(v, s, owners, me, c) && k < |s.dirs[c]| && level <= MAX_NESTING_LEVEL && At(c, k) !in owners
    ensures RecordStep(v, s, ScanRecord(v, s, c, k, level), owners, owners', c, k, level)
    decreases MAX_NESTING_LEVEL + 1 - level, 1
  {
    hide ScanTree, Owned, Survives, Ends, Clusters, DirClusters, Drop, Loaded, Written;
    var t := ScanRecord(v, s, c, k, level);
    ScanningMarked(v, s, owners, me, c);
    var r := s.dirs[c][k];
    if r.Directory? && r.start in v.signed && Acceptable(v, s.marks, r.start) {
      owners' := DirectoryOwned(v, s, c, k, level, me, owners);
    } else if r.File? && r.start != 0 && FileFits(v, s.marks, r.start, r.size) {
      ClustersOfDirectory(v, r.start, 0);
      owners' := owners[At(c, k) := r.start];
      AddOwner(v, owners, s.marks, At(c, k), r.start);
    } else {
      owners' := owners;
      NoClusters(v.fat, v.end);
      StepRefl(v, s, t, owners, {c});
    }
  }

  /** A directory whose chain has just been marked is ready to be scanned. */
  lemma Descend(v: Volume, s: State, c: nat, k: nat, me: Place, owners: Owners)
    requires Scanning(v, s, owners, me, c) && k < |s.dirs[c]| && At(c, k) !in owners
    requires s.dirs[c][k].Directory? && Acceptable(v, s.marks, s.dirs[c][k].start)
    ensures v.perSector > 0
    ensures var start := s.dirs[c][k].start;
            var m, o := Descended(v, s, start), owners[At(c, k) := start];
            && Step(v, s, m, owners, o, {c})
            && At(c, k) in o && Owned(v, o, m.marks) && Fits(v, s) && Fits(v, m) && m.dirs == s.dirs && c < |s.dirs| &&
               c in s.marks && c !in Elements(DirClusters(v, start))
            && Elements(DirClusters(v, start)) <= m.marks - s.marks
            && (forall q :: q in o && q.At? ==> q.cluster !in DirClusters(v, start))
  {
    hide Entered, DirClusters, Clusters, HasStop, WellFormed, Disjoint, OwnedBy;
    var start := s.dirs[c][k].start;
    var o := owners[At(c, k) := start];
    ScanningMarked(v, s, owners, me, c);
    AddOwner(v, owners, s.marks, At(c, k), start);
    forall x ensures x in DirClusters(v, start) <==> x in Clusters(v.fat, v.end, start) {
      if x >= 0 { ClustersOfDirectory(v, start, x); }
    }
    forall q | q in o && q.At? ensures q.cluster !in DirClusters(v, start) {
      ClustersOfDirectory(v, start, q.cluster);
      if q in owners { assert OwnerValid(v, q, owners[q], s.marks); }
    }
  }

  lemma {:induction false} DirectoryOwned(v: Volume, s: State, c: nat, k: nat, level: nat, me: Place,
      owners: Owners) returns (owners': Owners)
    requires Scanning(v, s, owners, me, c) && k < |s.dirs[c]| && level <= MAX_NESTING_LEVEL && At(c, k) !in owners
    requires s.dirs[c][k].Directory? && s.dirs[c][k].start in v.signed && Acceptable(v, s.marks, s.dirs[c][k].start)
    ensures RecordStep(v, s, ScanRecord(v, s, c, k, level), owners, owners', c, k, level)
    decreases MAX_NESTING_LEVEL + 1 - level, 0
  {
    hide *;
    Descend(v, s, c, k, me, owners);
    DirectoryScanned(v, s, c, k, level);
    var start := s.dirs[c][k].start;
    var m, o := Descended(v, s, start), owners[At(c, k) := start];
    owners' := TreeOwned(v, m, level + 1, At(c, k), o);
    var t := ScanTree(v, m, start, level + 1);
    DirectoryStep(v, s, m, t, owners, o, owners', c, k, level, Elements(DirClusters(v, start)));
  }

  /** The state in which the scan of a subdirectory begins. */
  ghost function Descended(v: Volume, s: State, start: nat): (m: State)
    requires v.perSector > 0
    ensures m.dirs == s.dirs && m.corrupted == s.corrupted && m.marks == s.marks + Clusters(v.fat, v.end, start)
  {
    Mark(v, Entered(v, s, start), start)
  }

  lemma DirectoryScanned(v: Volume, s: State, c: nat, k: nat, level: nat)
    requires Fits(v, s) && c < |s.dirs| && k < |s.dirs[c]| && level <= MAX_NESTING_LEVEL
    requires s.dirs[c][k].Directory? && s.dirs[c][k].start in v.signed && Acceptable(v, s.marks, s.dirs[c][k].start)
    ensures v.perSector > 0
    ensures ScanRecord(v, s, c, k, level) ==
            ScanTree(v, Descended(v, s, s.dirs[c][k].start), s.dirs[c][k].start, level + 1)
  {
  }

  lemma DirectoryStep(v: Volume, s: State, m: State, t: State, owners: Owners, o: Owners, owners': Owners, c: nat,
      k: nat, level: nat, region: set<nat>)
    requires level <= MAX_NESTING_LEVEL && c < |s.dirs| && k < |s.dirs[c]| && s.dirs[c][k].Directory?
    requires m.dirs == s.dirs
    requires At(c, k) !in owners && o == owners[At(c, k) := s.dirs[c][k].start]
    requires Step(v, s, m, owners, o, {c}) && Step(v, m, t, o, owners', region)
    requires c in s.marks && c !in region && region <= m.marks - s.marks
    requires forall p :: Added(o, owners', p) <==> Survives(v, t.dirs, s.dirs[c][k].start, level + 1, p)
    ensures RecordStep(v, s, t, owners, owners', c, k, level)
  {
    hide Owned, Survives;
    assert t.dirs[c] == s.dirs[c];
    forall q ensures Added(owners, owners', q) <==> Under(v, t.dirs, c, k, level, q) {
      AddedTrans(v, s, m, t, owners, o, owners', {c}, region, q);
      assert Added(owners, o, q) <==> q == At(c, k);
    }
    StepTrans(v, s, m, t, owners, o, owners', {c}, region);
  }

  /** A record from index `k` on of cluster `c`, or a place below it. */
  ghost predicate UnderFrom(v: Volume, dirs: Directories, c: nat, k: nat, level: nat, p: Place)
    requires level <= MAX_NESTING_LEVEL
  {
    exists j: nat :: j >= k && Under(v, dirs, c, j, level, p)
  }

  /** What the records from `k` on of a cluster add to the owners. */
  ghost predicate ClusterStepped(v: Volume, s: State, t: State, owners: Owners, owners': Owners, c: nat, k: nat,
      level: nat)
    requires level <= MAX_NESTING_LEVEL
  {
    && Step(v, s, t, owners, owners', {c}) && c < |s.dirs| && k <= |s.dirs[c]|
    && (forall j :: 0 <= j < k ==> t.dirs[c][j] == s.dirs[c][j])
    && (forall p :: Added(owners, owners', p) <==> UnderFrom(v, t.dirs, c, k, level, p))
  }

  ghost predicate VacantFrom(owners: Owners, c: nat, k: nat) {
    forall q :: q in owners && q.At? && q.cluster == c ==> q.index < k
  }

  lemma {:induction false} ClusterOwned(v: Volume, s: State, c: nat, k: nat, last: bool, level: nat, me: Place,
      owners: Owners) returns (owners': Owners)
    requires Scanning(v, s, owners, me, c) && k <= |s.dirs[c]| && level <= MAX_NESTING_LEVEL && VacantFrom(owners, c, k)
    ensures ClusterStepped(v, s, ScanCluster(v, s, c, k, last, level).0, owners, owners', c, k, level)
    decreases MAX_NESTING_LEVEL + 1 - level, 3, |s.dirs[c]| - k
  {
    hide *;
    ScanClusterStep(v, s, c, k, last, level, me, owners);
    if k == |s.dirs[c]| {
      owners' := owners;
      ClusterEnd(v, s, owners, c, level);
    } else {
      var m := ScanNext(v, s, c, k, last, level);
      var t := ScanCluster(v, s, c, k, last, level).0;
      var o := NextOwned(v, s, c, k, last, level, me, owners);
      ReadyForNext(v, s, m, owners, o, c, k, level, me);
      owners' := ClusterOwned(v, m, c, k + 1, last || s.dirs[c][k].End?, level, me, o);
      ClusterStep(v, s, m, t, owners, o, owners', c, k, level, me);
    }
  }

  lemma {:induction false} NextOwned(v: Volume, s: State, c: nat, k: nat, last: bool, level: nat, me: Place,
      owners: Owners) returns (owners': Owners)
    requires Scanning(v, s, owners, me, c) && k < |s.dirs[c]| && level <= MAX_NESTING_LEVEL && VacantFrom(owners, c, k)
    ensures RecordStep(v, s, ScanNext(v, s, c, k, last, level), owners, owners', c, k, level)
    decreases MAX_NESTING_LEVEL + 1 - level, 2
  {
    hide *;
    NextLoaded(v, s, c, k, last, level, me, owners);
    if s.dirs[c][k].End? || last {
      owners' := owners;
      EndStep(v, s, ScanNext(v, s, c, k, last, level), owners, c, k, level, me);
    } else {
      VacantAt(owners, c, k);
      owners' := RecordOwned(v, LoadedFor(v, s, c, k), c, k, level, me, owners);
      StepFromLoaded(v, s, LoadedFor(v, s, c, k), ScanNext(v, s, c, k, last, level), owners, owners', c, k, level);
    }
  }

  lemma StepFromLoaded(v: Volume, s: State, l: State, t: State, owners: Owners, owners': Owners, c: nat, k: nat,
      level: nat)
    requires level <= MAX_NESTING_LEVEL && l == s.(buffer := l.buffer)
    requires RecordStep(v, l, t, owners, owners', c, k, level)
    ensures RecordStep(v, s, t, owners, owners', c, k, level)
  {
    hide Under;
  }

  /** Loading a sector changes nothing but the buffer. */
  lemma NextLoaded(v: Volume, s: State, c: nat, k: nat, last: bool, level: nat, me: Place, owners: Owners)
    requires Scanning(v, s, owners, me, c) && k < |s.dirs[c]| && level <= MAX_NESTING_LEVEL
    ensures v.perSector > 0 && Fits(v, s) && c < |s.dirs|
    ensures var l := LoadedFor(v, s, c, k); l == s.(buffer := l.buffer) && Fits(v, l) && Scanning(v, l, owners, me, c)
    ensures var t := ScanNext(v, s, c, k, last, level);
            if s.dirs[c][k].End? || last
              then t.marks == s.marks && t.dirs == s.dirs[c := s.dirs[c][k := Ended(s.dirs[c][k])]] &&
                t.corrupted == s.corrupted
            else t == ScanRecord(v, LoadedFor(v, s, c, k), c, k, level)
  {
    hide ScanRecord;
    if s.dirs[c][k].End? {
      assert s.dirs[c][k := Ended(s.dirs[c][k])] == s.dirs[c] && s.dirs[c := s.dirs[c]] == s.dirs;
    }
  }

  /** A record at or behind the end of the directory. */
  lemma EndStep(v: Volume, s: State, t: State, owners: Owners, c: nat, k: nat, level: nat, me: Place)
    requires level <= MAX_NESTING_LEVEL && Scanning(v, s, owners, me, c) && c < |s.dirs| && k < |s.dirs[c]|
    requires t.marks == s.marks && t.dirs == s.dirs[c := s.dirs[c][k := Ended(s.dirs[c][k])]]
    ensures RecordStep(v, s, t, owners, owners, c, k, level)
  {
    hide Owned, Survives;
    assert !IsRecord(t.dirs, c, k);
    StepRefl(v, s, t, owners, {c});
  }

  /** One step of the scan of a cluster. */
  lemma ScanClusterStep(v: Volume, s: State, c: nat, k: nat, last: bool, level: nat, me: Place, owners: Owners)
    requires Scanning(v, s, owners, me, c) && k <= |s.dirs[c]| && level <= MAX_NESTING_LEVEL
    ensures Fits(v, s) && c < |s.dirs| && c in s.marks && Owned(v, owners, s.marks)
    ensures var t := ScanCluster(v, s, c, k, last, level);
            && |t.0.dirs| == |s.dirs| == |v.fat|
            && if k == |s.dirs[c]| then t == (s, last)
               else t == ScanCluster(v, ScanNext(v, s, c, k, last, level), c, k + 1, last || s.dirs[c][k].End?, level)
  {
    hide ScanNext;
    ScanningMarked(v, s, owners, me, c);
  }

  lemma VacantAt(owners: Owners, c: nat, k: nat)
    requires VacantFrom(owners, c, k)
    ensures At(c, k) !in owners
  {
  }

  lemma ClusterEnd(v: Volume, s: State, owners: Owners, c: nat, level: nat)
    requires level <= MAX_NESTING_LEVEL && c < |s.dirs| && Owned(v, owners, s.marks)
    ensures ClusterStepped(v, s, s, owners, owners, c, |s.dirs[c]|, level)
  {
    StepRefl(v, s, s, owners, {c});
  }

  lemma FromNext(v: Volume, dirs: Directories, c: nat, k: nat, level: nat, p: Place)
    requires level <= MAX_NESTING_LEVEL
    ensures UnderFrom(v, dirs, c, k, level, p) <==>
            Under(v, dirs, c, k, level, p) || UnderFrom(v, dirs, c, k + 1, level, p)
  {
  }

  lemma ReadyForNext(v: Volume, s: State, m: State, owners: Owners, o: Owners, c: nat, k: nat, level: nat, me: Place)
    requires level <= MAX_NESTING_LEVEL && Scanning(v, s, owners, me, c) && RecordStep(v, s, m, owners, o, c, k, level)
    requires VacantFrom(owners, c, k)
    ensures Scanning(v, m, o, me, c) && c < |m.dirs| && |m.dirs[c]| == |s.dirs[c]| && VacantFrom(o, c, k + 1)
  {
    forall q | q in o && q.At? && q.cluster == c ensures q.index < k + 1 {
      if q !in owners { assert Added(owners, o, q); }
    }
  }

  /** One record and then the rest of the cluster. */
  lemma ClusterStep(v: Volume, s: State, m: State, t: State, owners: Owners, o: Owners, owners': Owners, c: nat,
      k: nat, level: nat, me: Place)
    requires level <= MAX_NESTING_LEVEL && Scanning(v, s, owners, me, c)
    requires RecordStep(v, s, m, owners, o, c, k, level) && ClusterStepped(v, m, t, o, owners', c, k + 1, level)
    ensures ClusterStepped(v, s, t, owners, owners', c, k, level)
  {
    hide Owned, Survives, Under, UnderFrom, Usable, Ends, Clusters;
    ScanningMarked(v, s, owners, me, c);
    EarlierKept(v, s, m, t, owners, o, {c}, me, c, k, level, {c} + (t.marks - m.marks));
    assert {c} + {c} == {c};
    StepTrans(v, s, m, t, owners, o, owners', {c}, {c});
    hide Step, Added;
    forall p ensures Added(owners, owners', p) <==> UnderFrom(v, t.dirs, c, k, level, p) {
      FromNext(v, t.dirs, c, k, level, p);
      AddedTrans(v, s, m, t, owners, o, owners', {c}, {c}, p);
    }
  }

  lemma AddedTrans(v: Volume, s: State, m: State, t: State, owners: Owners, o: Owners, owners': Owners, r: set<nat>,
      r': set<nat>, p: Place)
    requires Step(v, s, m, owners, o, r) && Step(v, m, t, o, owners', r')
    ensures Added(owners, owners', p) <==> Added(owners, o, p) || Added(o, owners', p)
  {
  }

  // ------------------------------------------------------------------ the clusters of a directory

  ghost function Rest(path: seq<nat>, i: nat): set<nat> {
    set j | i <= j < |path| :: path[j]
  }

  ghost predicate UnderRest(v: Volume, dirs: Directories, path: seq<nat>, i: nat, level: nat, p: Place)
    requires level <= MAX_NESTING_LEVEL
  {
    exists j :: i <= j < |path| && UnderFrom(v, dirs, path[j], 0, level, p)
  }

  lemma RestNext(v: Volume, dirs: Directories, path: seq<nat>, i: nat, level: nat, p: Place)
    requires level <= MAX_NESTING_LEVEL && i < |path|
    ensures UnderRest(v, dirs, path, i, level, p) <==>
            UnderFrom(v, dirs, path[i], 0, level, p) || UnderRest(v, dirs, path, i + 1, level, p)
  {
  }

  ghost predicate VacantRest(owners: Owners, path: seq<nat>, i: nat) {
    forall q, j :: q in owners && q.At? && i <= j < |path| ==> q.cluster != path[j]
  }

  lemma {:induction false} ClustersOwned(v: Volume, s: State, path: seq<nat>, i: nat, last: bool, level: nat,
      me: Place, owners: Owners) returns (owners': Owners)
    requires Fits(v, s) && Owned(v, owners, s.marks) && me in owners && path == DirClusters(v, owners[me])
    requires NoRepeat(path)
    requires i <= |path| && level <= MAX_NESTING_LEVEL
    requires VacantRest(owners, path, i)
    ensures var t := ScanClusters(v, s, path, i, last, level);
            && Step(v, s, t, owners, owners', Rest(path, i))
            && (forall p :: Added(owners, owners', p) <==> UnderRest(v, t.dirs, path, i, level, p))
    decreases MAX_NESTING_LEVEL + 1 - level, 4, |path| - i
  {
    hide *;
    ScanClustersStep(v, s, path, i, last, level, me, owners);
    if i == |path| {
      owners' := owners;
      NoneLeft(v, s, owners, path, level);
    } else {
      var c, m := path[i], ScanCluster(v, s, path[i], 0, last, level);
      var o := ClusterOwned(v, s, c, 0, last, level, me, owners);
      ReadyForRest(v, s, m.0, owners, o, path, i, level, me);
      owners' := ClustersOwned(v, m.0, path, i + 1, m.1, level, me, o);
      ClustersStep(v, s, m.0, ScanClusters(v, s, path, i, last, level), owners, o, owners', path, i, level, me);
    }
  }

  /** One step of the scan of a directory. */
  lemma ScanClustersStep(v: Volume, s: State, path: seq<nat>, i: nat, last: bool, level: nat, me: Place, owners: Owners)
    requires Fits(v, s) && Owned(v, owners, s.marks) && me in owners && path == DirClusters(v, owners[me])
    requires i <= |path| && level <= MAX_NESTING_LEVEL && VacantRest(owners, path, i)
    ensures Inside(v, path)
    ensures i < |path| ==> path[i] < |s.dirs| && Scanning(v, s, owners, me, path[i]) && VacantFrom(owners, path[i], 0)
    ensures ScanClusters(v, s, path, i, last, level) ==
            if i == |path| then s
            else var m := ScanCluster(v, s, path[i], 0, last, level); ScanClusters(v, m.0, path, i + 1, m.1, level)
  {
    hide ScanCluster, Owned;
  }

  lemma NoneLeft(v: Volume, s: State, owners: Owners, path: seq<nat>, level: nat)
    requires level <= MAX_NESTING_LEVEL && Owned(v, owners, s.marks)
    ensures Step(v, s, s, owners, owners, Rest(path, |path|))
    ensures forall p :: Added(owners, owners, p) <==> UnderRest(v, s.dirs, path, |path|, level, p)
  {
    StepRefl(v, s, s, owners, Rest(path, |path|));
  }

  lemma ReadyForRest(v: Volume, s: State, m: State, owners: Owners, o: Owners, path: seq<nat>, i: nat, level: nat,
      me: Place)
    requires level <= MAX_NESTING_LEVEL && i < |path| && me in owners && path == DirClusters(v, owners[me])
    requires NoRepeat(path)
    requires Scanning(v, s, owners, me, path[i]) && ClusterStepped(v, s, m, owners, o, path[i], 0, level)
    requires VacantRest(owners, path, i)
    ensures Fits(v, m) && Owned(v, o, m.marks) && me in o && o[me] == owners[me] && VacantRest(o, path, i + 1)
  {
    hide Usable, DirClusters, UnderFrom, Disjoint;
    forall q, j | q in o && q.At? && i + 1 <= j < |path| ensures q.cluster != path[j] {
      assert q in owners || Added(owners, o, q);
      ScanningMarked(v, s, owners, me, path[j]);
    }
  }

  /** One cluster and then the rest of the directory. */
  lemma ClustersStep(v: Volume, s: State, m: State, t: State, owners: Owners, o: Owners, owners': Owners,
      path: seq<nat>, i: nat, level: nat, me: Place)
    requires level <= MAX_NESTING_LEVEL && i < |path| && Scanning(v, s, owners, me, path[i]) && NoRepeat(path)
    requires path == DirClusters(v, owners[me]) && ClusterStepped(v, s, m, owners, o, path[i], 0, level)
    requires Step(v, m, t, o, owners', Rest(path, i + 1))
    requires forall p :: Added(o, owners', p) <==> UnderRest(v, t.dirs, path, i + 1, level, p)
    ensures Step(v, s, t, owners, owners', Rest(path, i))
    ensures forall p :: Added(owners, owners', p) <==> UnderRest(v, t.dirs, path, i, level, p)
  {
    hide *;
    var c := path[i];
    FirstClusterKept(v, s, m, t, owners, o, owners', path, i, level, me);
    StepTrans(v, s, m, t, owners, o, owners', {c}, Rest(path, i + 1));
    forall p ensures Added(owners, owners', p) <==> UnderRest(v, t.dirs, path, i, level, p) {
      RestNext(v, t.dirs, path, i, level, p);
      AddedTrans(v, s, m, t, owners, o, owners', {c}, Rest(path, i + 1), p);
    }
  }

  lemma FirstClusterKept(v: Volume, s: State, m: State, t: State, owners: Owners, o: Owners, owners': Owners,
      path: seq<nat>, i: nat, level: nat, me: Place)
    requires level <= MAX_NESTING_LEVEL && i < |path| && Scanning(v, s, owners, me, path[i]) && NoRepeat(path)
    requires path == DirClusters(v, owners[me]) && ClusterStepped(v, s, m, owners, o, path[i], 0, level)
    requires Step(v, m, t, o, owners', Rest(path, i + 1))
    ensures Step(v, s, m, owners, o, {path[i]}) && {path[i]} + Rest(path, i + 1) == Rest(path, i)
    ensures forall p :: Added(owners, o, p) <==> UnderFrom(v, t.dirs, path[i], 0, level, p)
    ensures forall p :: Added(owners, o, p) && Placed(m.dirs, p, o[p]) ==> Placed(t.dirs, p, o[p])
  {
    hide Owned, Survives, Usable, Ends, Clusters, DirClusters, UnderFrom, Rest, Fits;
    RestSplit(path, i);
    StepsApart(v, s, m, t, owners, o, owners', path, i, me);
    ClusterKept(v, s, m, t, owners, o, me, path[i], level, Rest(path, i + 1) + (t.marks - m.marks));
  }

  lemma RestSplit(path: seq<nat>, i: nat)
    requires i < |path| && NoRepeat(path)
    ensures {path[i]} + Rest(path, i + 1) == Rest(path, i) && path[i] !in Rest(path, i + 1)
    ensures forall x :: x in Rest(path, i) ==> x in path
  {
  }

  /** What comes later does not touch the clusters that have been dealt with, nor records in clusters marked
      meanwhile. */
  lemma StepsApart(v: Volume, s: State, m: State, t: State, owners: Owners, o: Owners, owners': Owners, path: seq<nat>,
      i: nat, me: Place)
    requires i < |path| && Scanning(v, s, owners, me, path[i]) && path == DirClusters(v, owners[me])
    requires Step(v, s, m, owners, o, {path[i]}) && Step(v, m, t, o, owners', Rest(path, i + 1))
    requires path[i] !in Rest(path, i + 1) && forall x :: x in Rest(path, i + 1) ==> x in path
    ensures path[i] < |m.dirs| && path[i] !in t.marks - m.marks
    ensures SameExcept(m.dirs, t.dirs, Rest(path, i + 1) + (t.marks - m.marks))
    ensures forall p :: Added(owners, o, p) && Placed(m.dirs, p, o[p]) ==> Placed(t.dirs, p, o[p])
  {
    hide Owned, Usable, DirClusters, Rest, Fits;
    forall x | x in path ensures x in s.marks { ScanningOther(v, s, owners, me, path[i], x); }
    ScanningMarked(v, s, owners, me, path[i]);
  }

  lemma ScanningOther(v: Volume, s: State, owners: Owners, me: Place, c: nat, x: nat)
    requires Scanning(v, s, owners, me, c) && x in DirClusters(v, owners[me])
    ensures x in s.marks
  {
    hide DirClusters, Owned, Fits;
    ScanningMarked(v, s, owners, me, x);
  }

  /** What survives in a cluster that has been dealt with is not affected by what comes later. */
  lemma ClusterKept(v: Volume, s: State, m: State, t: State, owners: Owners, o: Owners, me: Place, c: nat, level: nat,
      changed: set<nat>)
    requires Step(v, s, m, owners, o, {c}) && me in owners && level <= MAX_NESTING_LEVEL
    requires forall p :: UnderFrom(v, m.dirs, c, 0, level, p) ==> Added(owners, o, p)
    requires forall x :: x in changed && x in m.marks ==> x in DirClusters(v, owners[me])
    requires SameExcept(m.dirs, t.dirs, changed) && c < |m.dirs| && c !in changed
    ensures forall p :: UnderFrom(v, t.dirs, c, 0, level, p) <==> UnderFrom(v, m.dirs, c, 0, level, p)
  {
    hide Step, Added, Survives;
    forall k: nat, p ensures Under(v, t.dirs, c, k, level, p) <==> Under(v, m.dirs, c, k, level, p) {
      if k < |m.dirs[c]| {
        forall q | Under(v, m.dirs, c, k, level, q) ensures Added(owners, o, q) {
          assert UnderFrom(v, m.dirs, c, 0, level, q);
        }
        EarlierKept(v, s, m, t, owners, o, {c}, me, c, k, level, changed);
      }
    }
  }

  /** Scanning a directory and everything below it. */
  lemma {:induction false} TreeOwned(v: Volume, s: State, level: nat, me: Place, owners: Owners)
      returns (owners': Owners)
    requires Fits(v, s) && Owned(v, owners, s.marks) && me in owners && level <= MAX_NESTING_LEVEL + 1
    requires forall q :: q in owners && q.At? ==> q.cluster !in DirClusters(v, owners[me])
    ensures var t := ScanTree(v, s, owners[me], level);
            && Step(v, s, t, owners, owners', Elements(DirClusters(v, owners[me])))
            && (forall p :: Added(owners, owners', p) <==> Survives(v, t.dirs, owners[me], level, p))
    decreases MAX_NESTING_LEVEL + 1 - level, 5
  {
    var path := DirClusters(v, owners[me]);
    var t := ScanTree(v, s, owners[me], level);
    if level > MAX_NESTING_LEVEL {
      owners' := owners;
      StepRefl(v, s, t, owners, Elements(path));
    } else {
      if owners[me] != 0 { ChainNoRepeat(v.fat, v.end, owners[me], path); }
      owners' := ClustersOwned(v, s, path, 0, false, level, me, owners);
      assert Rest(path, 0) == Elements(path);
      forall p ensures UnderRest(v, t.dirs, path, 0, level, p) <==> Survives(v, t.dirs, owners[me], level, p) {
        AllUnder(v, t.dirs, owners[me], level, p);
      }
    }
  }

  lemma AllUnder(v: Volume, dirs: Directories, start: nat, level: nat, p: Place)
    requires level <= MAX_NESTING_LEVEL
    ensures UnderRest(v, dirs, DirClusters(v, start), 0, level, p) <==> Survives(v, dirs, start, level, p)
  {
    hide DirClusters;
    if Survives(v, dirs, start, level, p) {
      var c: nat, k: nat :| c in DirClusters(v, start) && IsRecord(dirs, c, k) && Under(v, dirs, c, k, level, p);
      var i :| 0 <= i < |DirClusters(v, start)| && DirClusters(v, start)[i] == c;
      assert UnderFrom(v, dirs, DirClusters(v, start)[i], 0, level, p);
    }
  }
}
