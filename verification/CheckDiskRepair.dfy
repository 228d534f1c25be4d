/** What check-disk's repair amounts to (filesystem/chkdsk/src/chkdsk.c): the records that are left in place keep their
    chains, and the entries of all other clusters are freed. */
module CheckDiskRepair {
  import opened Chains
  import opened CheckDiskScan
  import opened CheckDiskWalk

  // ------------------------------------------------------------------ the sweep and the whole repair

  /** The FAT after the sweep has come to cluster `n`: unmarked clusters before it are free. */
  ghost function SweptTo(fat: seq<nat>, marks: set<nat>, n: nat): (f: seq<nat>)
    ensures |f| == |fat|
  {
    seq(|fat|, c requires 0 <= c < |fat| => if 2 <= c < n && c !in marks then 0 else fat[c])
  }

  lemma SweptNext(fat: seq<nat>, marks: set<nat>, n: nat)
    requires 2 <= n < |fat|
    ensures SweptTo(fat, marks, n + 1) == if n in marks then SweptTo(fat, marks, n) else SweptTo(fat, marks, n)[n := 0]
    ensures SweptTo(fat, marks, n)[n] == fat[n]
  {
  }

  lemma SweptNone(fat: seq<nat>, marks: set<nat>)
    ensures SweptTo(fat, marks, 2) == fat
  {
  }

  /** The sweep stops before the last cluster. */
  ghost function Swept(fat: seq<nat>, marks: set<nat>): (f: seq<nat>)
    ensures |f| == |fat|
  {
    SweptTo(fat, marks, if |fat| > 0 then |fat| - 1 else 0)
  }

  /** The root directory and every record that the scan leaves in place, with the chains they begin. */
  ghost predicate Surviving(v: Volume, t: State, root: nat, owners: Owners) {
    && (forall p :: p in owners <==> p.Root? || Survives(v, t.dirs, root, 1, p))
    && Root in owners && owners[Root] == root
    && (forall p :: p in owners && p.At? ==> Placed(t.dirs, p, owners[p]))
  }

  /** After the scan the chains of all that survives end, share no cluster, and make up the marked clusters. */
  lemma ScanResult(v: Volume, dirs: Directories, root: nat) returns (owners: Owners)
    requires Rooted(v, dirs, root)
    ensures var t := WalkRoot(v, dirs, root);
            Surviving(v, t, root, owners) && Owned(v, owners, t.marks)
  {
    hide *;
    RootedRead(v, dirs, root);
    owners := OwnersAfter(v, dirs, root);
  }

  lemma OwnersAfter(v: Volume, dirs: Directories, root: nat) returns (owners: Owners)
    requires OwnRead(v, dirs, root)
    ensures var t := WalkRoot(v, dirs, root);
            Surviving(v, t, root, owners) && Owned(v, owners, t.marks)
  {
    hide WalkRoot, ScanTree, Survives, Usable, Owned;
    RootWalked(v, dirs, root);
    var s, o: Owners := Reserved(v, dirs, root), map[Root := root];
    var t := ScanTree(v, s, root, 1);
    RootOwned(v, root);
    owners := TreeOwned(v, s, 1, Root, o);
    forall p ensures p in owners <==> p.Root? || Survives(v, t.dirs, root, 1, p) {
      assert p in owners <==> p in o || Added(o, owners, p);
    }
    forall p | p in owners && p.At? ensures Placed(t.dirs, p, owners[p]) {
      assert Added(o, owners, p);
    }
  }

  lemma RootOwned(v: Volume, root: nat)
    requires root == 0 || Ends(v.fat, v.end, root)
    ensures Owned(v, map[Root := root], {0, 1} + Clusters(v.fat, v.end, root))
  {
    var o: Owners := map[Root := root];
    forall c | c in {0, 1} + Clusters(v.fat, v.end, root) ensures c < 2 || OwnedBy(v, o, c) {
      assert Root in o;
    }
  }

  /** After a repair, every surviving file and directory, and the root, has the chain it had before; these
      chains share no cluster; and every entry that is swept belongs to one of them or is zero. */
  lemma RepairKeepsSurvivors(v: Volume, dirs: Directories, root: nat) returns (owners: Owners)
    requires Rooted(v, dirs, root)
    ensures var t := WalkRoot(v, dirs, root);
            var fat := Swept(v.fat, t.marks);
            && Surviving(v, t, root, owners) && Disjoint(v, owners)
            && (forall p :: p in owners && owners[p] != 0 ==>
                 Ends(fat, v.end, owners[p]) && Ends(v.fat, v.end, owners[p]) &&
                   Chain(fat, v.end, owners[p]) == Chain(v.fat, v.end, owners[p]))
            && (forall c: nat :: 2 <= c < |fat| - 1 ==> fat[c] == if OwnedBy(v, owners, c) then v.fat[c] else 0)
  {
    hide WalkRoot, Calm, Survives;
    owners := ScanResult(v, dirs, root);
    var t := WalkRoot(v, dirs, root);
    var fat := Swept(v.fat, t.marks);
    forall p | p in owners && owners[p] != 0
      ensures Ends(fat, v.end, owners[p]) && Ends(v.fat, v.end, owners[p])
      ensures Chain(fat, v.end, owners[p]) == Chain(v.fat, v.end, owners[p])
    {
      assert OwnerValid(v, p, owners[p], t.marks);
      ClustersInside(v, owners[p]);
      ChainKept(v.fat, fat, v.end, owners[p]);
    }
    forall c: nat | 2 <= c < |fat| - 1 ensures fat[c] == if OwnedBy(v, owners, c) then v.fat[c] else 0 {
      if OwnedBy(v, owners, c) {
        var p :| p in owners && c in Clusters(v.fat, v.end, owners[p]);
        assert OwnerValid(v, p, owners[p], t.marks);
      }
    }
  }
}
