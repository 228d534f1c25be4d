/** What check-disk leaves on the device (filesystem/chkdsk/src/chkdsk.c): records are changed in a buffer for one
    sector, which is written back when another sector is loaded, and in the end only if a record has been deleted. */
module CheckDiskDevice {
  import opened Division
  import opened Chains
  import opened CheckDiskScan
  import opened CheckDiskWalk
  import opened CheckDiskRepair
  import opened CheckDiskStable

  /** After check-disk the device has the records as the scan has left them, except that a buffer that is dirty in
      the end is lost unless a record has been deleted. Then all other sectors are up to date, no record has been
      deleted, and each record of this sector is as it was before or as the scan has left it. */
  lemma DeviceUpToDate(v: Volume, dirs: Directories, root: nat)
    requires Usable(v) && |dirs| == |v.fat|
    ensures var t := WalkRoot(v, dirs, root);
            var device := DeviceAfter(v, t);
            && SameShape(device, dirs) && SameShape(t.dirs, dirs)
            && (device == t.dirs <==> t.corrupted != 0 || !t.buffer.dirty)
            && (forall c: nat, k: nat :: IsPlace(dirs, c, k) ==>
                 && MayBecome(dirs[c][k], t.dirs[c][k])
                 && (device[c][k] == t.dirs[c][k] ||
                    (device[c][k] == dirs[c][k] && t.dirs[c][k].End? && Holds(v.perSector, t.buffer.held, c, k))))
  {
    TrackedRoot(v, dirs, root);
    var t := WalkRoot(v, dirs, root);
    hide WalkRoot;
    TrackedWritten(v, dirs, t);
    var w := Written(v, t);
    forall c: nat, k: nat | IsPlace(dirs, c, k)
      ensures PlaceTracked(v, dirs, t, c, k) && PlaceTracked(v, dirs, w, c, k)
    {}
    if t.corrupted != 0 || !t.buffer.dirty {
      var device := DeviceAfter(v, t);
      assert device == w.buffer.device && !w.buffer.dirty;
      forall c: nat, k: nat | IsPlace(device, c, k) ensures device[c][k] == t.dirs[c][k] {
        assert IsPlace(dirs, c, k) && PlaceTracked(v, dirs, w, c, k);
      }
      SamePlaces(device, t.dirs);
    } else {
      var c: nat, k: nat :| Differs(t, c, k);
    }
  }

  lemma SamePlaces(a: Directories, b: Directories)
    requires SameShape(a, b) && forall c: nat, k: nat :: IsPlace(a, c, k) ==> a[c][k] == b[c][k]
    ensures a == b
  {
    forall c | 0 <= c < |a| ensures a[c] == b[c] {
      forall k | 0 <= k < |a[c]| ensures a[c][k] == b[c][k] { assert IsPlace(a, c, k); }
    }
  }

  /** Unless such a buffer has been lost, a second run leaves the device as the first one has. */
  lemma SecondRunKeepsDevice(v: Volume, dirs: Directories, root: nat)
    requires Rooted(v, dirs, root)
    ensures var t := WalkRoot(v, dirs, root);
            var v', device := v.(fat := RepairedFat(v, t)), DeviceAfter(v, t);
            t.corrupted != 0 || !t.buffer.dirty ==>
              Rooted(v', device, root) && WalkRoot(v', device, root).corrupted == 0 &&
                DeviceAfter(v', WalkRoot(v', device, root)) == device
  {
    hide WalkRoot, Rooted, RepairedFat, Usable, OwnRead;
    RootedRead(v, dirs, root);
    RootReady(v, dirs, root);
    DeviceUpToDate(v, dirs, root);
    RepairIdempotent(v, dirs, root);
    var t := WalkRoot(v, dirs, root);
    if t.corrupted != 0 || !t.buffer.dirty {
      var v', device := v.(fat := RepairedFat(v, t)), t.dirs;
      RootedRead(v', device, root);
      RootReady(v', device, root);
      DeviceUpToDate(v', device, root);
      hide DeviceAfter;
      SamePlaces(DeviceAfter(v', WalkRoot(v', device, root)), device);
    }
  }

  /** Behind an end every record becomes an end, in the buffer only as long as its sector stays loaded. */
  lemma {:induction false} EndsInBuffer(v: Volume, s: State, k: nat)
    requires Fits(v, s) && s.buffer.held == Sector(0, 0) && k <= |s.dirs[0]| <= v.perSector
    ensures var t := WalkCluster(v, Cursor(s, true, false), 0, k, 1).s;
            && t.buffer.device == s.buffer.device && t.corrupted == s.corrupted && |t.dirs[0]| == |s.dirs[0]|
            && (forall j :: 0 <= j < |s.dirs[0]| ==> t.dirs[0][j] == if j < k then s.dirs[0][j]
               else Ended(s.dirs[0][j]))
    decreases |s.dirs[0]| - k
  {
    if k < |s.dirs[0]| {
      DivModUnique(k, v.perSector, 0, k);
      var w := Cursor(s, true, false);
      EndInBuffer(v, s, k);
      hide WalkNext;
      EndsInBuffer(v, WalkNext(v, w, 0, k, 1).s, k + 1);
    }
  }

  lemma EndInBuffer(v: Volume, s: State, k: nat)
    requires Fits(v, s) && s.buffer.held == Sector(0, 0) && k < |s.dirs[0]| <= v.perSector && k / v.perSector == 0
    ensures var u := WalkNext(v, Cursor(s, true, false), 0, k, 1);
            && u == Cursor(u.s, true, false) && u.s.buffer.held == Sector(0, 0) && u.s.buffer.device == s.buffer.device
            && u.s.corrupted == s.corrupted && u.s.dirs == s.dirs[0 := s.dirs[0][k := Ended(s.dirs[0][k])]]
  {
    hide WalkDirectory, WalkFile, Drop;
    OwnSeen(v, s, 0, k);
    if s.dirs[0][k].End? { assert s.dirs[0][k := Ended(s.dirs[0][k])] == s.dirs[0]; }
  }

  /** A root directory of one sector that begins with an end: the scan sees ends only, but the device is not changed, so
      that other records behind the end stay there. */
  lemma PendingLost(v: Volume, q: seq<Record>)
    requires Usable(v) && |q| == v.perSector && q[0].End?
    ensures var dirs := seq(|v.fat|, c => if c == 0 then q else []);
            var t := WalkRoot(v, dirs, 0);
            t.corrupted == 0 && DeviceAfter(v, t) == dirs &&
              t.dirs[0] == seq(|q|, j requires 0 <= j < |q| => Ended(q[j]))
  {
    hide WalkRoot, WalkCluster, WalkNext;
    var dirs: Directories := seq(|v.fat|, c => if c == 0 then q else []);
    var s := Reserved(v, dirs, 0);
    FixedRoot(v, dirs);
    FirstIsEnd(v, s);
    EndsInBuffer(v, LoadedFor(v, s, 0, 0), 1);
  }

  lemma FirstIsEnd(v: Volume, s: State)
    requires Fits(v, s) && |s.dirs| > 0 && |s.dirs[0]| == v.perSector && s.dirs[0][0].End? && s.buffer.held.Nothing?
    requires !s.buffer.dirty
    ensures var l := LoadedFor(v, s, 0, 0);
            && WalkCluster(v, Cursor(s, false, false), 0, 0, 1) == WalkCluster(v, Cursor(l, true, false), 0, 1, 1)
            && l.buffer.held == Sector(0, 0) && l.buffer.device == s.buffer.device
  {
    hide WalkDirectory, WalkFile, Drop;
    DivModUnique(0, v.perSector, 0, 0);
    OwnSeen(v, LoadedFor(v, s, 0, 0), 0, 0);
    assert WalkNext(v, Cursor(s, false, false), 0, 0, 1) == Cursor(LoadedFor(v, s, 0, 0), true, false);
  }
}
