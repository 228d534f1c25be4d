/** Runs of allocating, appending, deleting and truncating on FAT16 and FAT32: the counter stays exact, and chains stay
    acyclic and share no cluster (filesystem/fat/fatapi/firstfreeandallocate.c, getnewcluster.c and
    filesystem/fat/base/deletecontent.c). */
module FatRuns {
  import opened FatBytes
  import opened FreeClusters
  import opened Chains
  import opened ChainDeletion
  import opened FatDelete
  import opened FatMedia
  import FatAllocate

  /** A volume together with the first clusters of its files. */
  datatype Volume = Volume(table: Table, heads: set<nat>)

  function Eof(t: FatType): nat {
    EndMark(t.FAT32?)
  }

  ghost predicate ChainsApart(t: FatType, fat: seq<nat>, heads: set<nat>) {
    && (forall h :: h in heads ==> Ends(fat, Eof(t), h))
    && (forall g, h :: g in heads && h in heads && g != h ==> Clusters(fat, Eof(t), g) !! Clusters(fat, Eof(t), h))
  }

  /** Entry 1 is not zero, the counter is the number of free clusters, and every file has a chain that ends and
      shares no cluster with another. */
  ghost predicate Sound(t: FatType, v: Volume) {
    && !t.FAT12? && 3 <= |v.table.fat| <= Eof(t) && v.table.fat[1] != 0 && v.table.next < |v.table.fat|
    && v.table.free == FreeCount(v.table.fat) && ChainsApart(t, v.table.fat, v.heads)
  }

  /** Every cluster in use belongs to a file. */
  ghost predicate Tight(t: FatType, v: Volume) {
    forall c: nat :: IsCluster(v.table.fat, c) && v.table.fat[c] != 0 ==> InUse(t, v.table.fat, v.heads, c)
  }

  // ------------------------------------------------------------------ chains and free clusters

  lemma ChainNotFree(t: FatType, fat: seq<nat>, h: nat, c: nat)
    requires |fat| <= Eof(t) && Ends(fat, Eof(t), h) && c in Clusters(fat, Eof(t), h)
    ensures IsCluster(fat, c) && fat[c] != 0
  {
    var p := Chain(fat, Eof(t), h);
    var i :| 0 <= i < |p| && p[i] == c;
    if i < |p| - 1 { assert fat[p[i]] == p[i + 1]; }
  }

  /** Changing entries that are not on a chain. */
  lemma ChainUntouched(t: FatType, fat: seq<nat>, fat': seq<nat>, h: nat)
    requires |fat'| == |fat| <= Eof(t) && Ends(fat, Eof(t), h)
    requires forall c :: c in Clusters(fat, Eof(t), h) ==> c < |fat| && fat'[c] == fat[c]
    ensures Ends(fat', Eof(t), h) && Chain(fat', Eof(t), h) == Chain(fat, Eof(t), h)
    ensures Clusters(fat', Eof(t), h) == Clusters(fat, Eof(t), h)
  {
    ChainKept(fat, fat', Eof(t), h);
  }

  /** A free cluster at the end of a chain. */
  lemma LongerChain(fat: seq<nat>, end: nat, h: nat, c: nat)
    requires |fat| <= end && Ends(fat, end, h) && IsFree(fat, c) && c !in Clusters(fat, end, h)
    ensures var p := Chain(fat, end, h);
            var fat' := fat[c := end][p[|p| - 1] := c];
            && Ends(fat', end, h) && Chain(fat', end, h) == p + [c] &&
               Clusters(fat', end, h) == Clusters(fat, end, h) + {c}
  {
    var p := Chain(fat, end, h);
    var q, tail := p + [c], p[|p| - 1];
    var fat' := fat[c := end][tail := c];
    ChainNoRepeat(fat, end, h, p);
    assert forall i :: 0 <= i < |p| ==> p[i] in Clusters(fat, end, h);
    assert IsPath(fat', q) by {
      forall i | 0 <= i < |q| - 1 ensures fat'[q[i]] == q[i + 1] {
        if i < |p| - 1 { assert fat[p[i]] == p[i + 1]; }
      }
    }
    assert IsChain(fat', end, h, q);
    ChainUnique(fat', end, h, q, Chain(fat', end, h));
    assert Elements(q) == Elements(p) + {c} by { ElementsMore(p, c); }
  }

  lemma ElementsMore(p: seq<nat>, c: nat)
    ensures Elements(p + [c]) == Elements(p) + {c}
  {
    forall x | x in Elements(p) + {c} ensures x in Elements(p + [c]) {
      if x == c {
        assert (p + [c])[|p|] == x;
      } else {
        var i :| 0 <= i < |p| && p[i] == x;
        assert (p + [c])[i] == x;
      }
    }
  }

  // ------------------------------------------------------------------ the steps

  ghost predicate InUse(t: FatType, fat: seq<nat>, heads: set<nat>, c: nat) {
    exists h :: h in heads && c in Clusters(fat, Eof(t), h)
  }

  lemma FreeNotInChains(t: FatType, fat: seq<nat>, heads: set<nat>, c: nat)
    requires |fat| <= Eof(t) && ChainsApart(t, fat, heads) && IsFree(fat, c)
    ensures forall h :: h in heads ==> c !in Clusters(fat, Eof(t), h) && h != c
  {
    forall h | h in heads ensures c !in Clusters(fat, Eof(t), h) && h != c {
      assert Chain(fat, Eof(t), h)[0] == h;
      if c in Clusters(fat, Eof(t), h) { ChainNotFree(t, fat, h, c); }
    }
  }

  /** The chains after a new one has begun. */
  lemma AllocateChains(t: FatType, fat: seq<nat>, heads: set<nat>, c: nat)
    requires |fat| <= Eof(t) && ChainsApart(t, fat, heads) && IsFree(fat, c)
    ensures var fat' := fat[c := Eof(t)];
            && c !in heads && ChainsApart(t, fat', heads + {c}) && Ends(fat', Eof(t), c) &&
               Chain(fat', Eof(t), c) == [c]
            && (forall g :: g in heads ==> Chain(fat', Eof(t), g) == Chain(fat, Eof(t), g))
            && (forall d: nat :: InUse(t, fat', heads + {c}, d) <==> d == c || InUse(t, fat, heads, d))
  {
    var fat' := fat[c := Eof(t)];
    SingleChain(fat', Eof(t), c);
    FreeNotInChains(t, fat, heads, c);
    forall h | h in heads
      ensures Ends(fat', Eof(t), h) && Clusters(fat', Eof(t), h) == Clusters(fat, Eof(t), h)
      ensures Chain(fat', Eof(t), h) == Chain(fat, Eof(t), h)
    {
      assert forall x :: x in Clusters(fat, Eof(t), h) ==> x < |fat|;
      ChainUntouched(t, fat, fat', h);
    }
    hide Ends, Clusters, Chain, IsFree;
    forall d: nat ensures InUse(t, fat', heads + {c}, d) <==> d == c || InUse(t, fat, heads, d) {
      if d == c { assert c in heads + {c}; }
      if InUse(t, fat, heads, d) {
        var h :| h in heads && d in Clusters(fat, Eof(t), h);
        assert h in heads + {c};
      }
    }
  }

  /** The chains after one of them has grown. */
  lemma AppendChains(t: FatType, fat: seq<nat>, heads: set<nat>, h: nat, c: nat)
    requires |fat| <= Eof(t) && ChainsApart(t, fat, heads) && IsFree(fat, c) && h in heads
    ensures var p := Chain(fat, Eof(t), h);
            var fat' := fat[c := Eof(t)][p[|p| - 1] := c];
            && ChainsApart(t, fat', heads) && Chain(fat', Eof(t), h) == p + [c]
            && (forall g :: g in heads && g != h ==> Chain(fat', Eof(t), g) == Chain(fat, Eof(t), g))
            && (forall d: nat :: InUse(t, fat', heads, d) <==> d == c || InUse(t, fat, heads, d))
  {
    var p := Chain(fat, Eof(t), h);
    var tail := p[|p| - 1];
    var fat' := fat[c := Eof(t)][tail := c];
    assert tail in Clusters(fat, Eof(t), h);
    FreeNotInChains(t, fat, heads, c);
    LongerChain(fat, Eof(t), h, c);
    forall g | g in heads && g != h
      ensures Ends(fat', Eof(t), g) && Chain(fat', Eof(t), g) == Chain(fat, Eof(t), g)
      ensures Clusters(fat', Eof(t), g) == Clusters(fat, Eof(t), g)
    {
      assert forall x :: x in Clusters(fat, Eof(t), g) ==> x < |fat|;
      ChainUntouched(t, fat, fat', g);
    }
    hide Ends, Clusters, Chain, IsFree;
    forall d: nat ensures InUse(t, fat', heads, d) <==> d == c || InUse(t, fat, heads, d) {
      if d == c { assert d in Clusters(fat', Eof(t), h); }
      if InUse(t, fat, heads, d) {
        var g :| g in heads && d in Clusters(fat, Eof(t), g);
        assert d in Clusters(fat', Eof(t), g);
      }
    }
  }

  /** A new file gets its first cluster, and no other chain changes. */
  lemma AllocateSound(t: FatType, v: Volume, b: Table)
    requires Sound(t, v) && Allocates(v.table, b, Eof(t)) && v.table.free > 0
    ensures b.next !in v.heads && Sound(t, Volume(b, v.heads + {b.next}))
    ensures Ends(b.fat, Eof(t), b.next) && Chain(b.fat, Eof(t), b.next) == [b.next]
    ensures forall g :: g in v.heads ==> Chain(b.fat, Eof(t), g) == Chain(v.table.fat, Eof(t), g)
    ensures Tight(t, v) ==> Tight(t, Volume(b, v.heads + {b.next}))
  {
    FreeUpdated(v.table.fat, |v.table.fat|, b.next, Eof(t));
    hide Ends, Clusters, Chain, FreeBelow, ChainsApart;
    AllocateChains(t, v.table.fat, v.heads, b.next);
  }

  /** A file's chain grows by one cluster at its end, and no other chain changes. */
  lemma AppendSound(t: FatType, v: Volume, b: Table, h: nat)
    requires Sound(t, v) && h in v.heads && v.table.free > 0
    requires var p := Chain(v.table.fat, Eof(t), h); Appends(v.table, b, p[|p| - 1], Eof(t))
    ensures Sound(t, Volume(b, v.heads)) && (Tight(t, v) ==> Tight(t, Volume(b, v.heads)))
    ensures Chain(b.fat, Eof(t), h) == Chain(v.table.fat, Eof(t), h) + [b.next]
    ensures forall g :: g in v.heads && g != h ==> Chain(b.fat, Eof(t), g) == Chain(v.table.fat, Eof(t), g)
  {
    hide Ends, Clusters, Chain, FreeBelow, ChainsApart, IsPath;
    HeadEnds(t, v.table.fat, v.heads, h);
    AppendCount(t, v.table.fat, h, b.next);
    AppendChains(t, v.table.fat, v.heads, h, b.next);
  }

  lemma HeadEnds(t: FatType, fat: seq<nat>, heads: set<nat>, h: nat)
    requires ChainsApart(t, fat, heads) && h in heads
    ensures Ends(fat, Eof(t), h)
  {
  }

  lemma AppendCount(t: FatType, fat: seq<nat>, h: nat, c: nat)
    requires |fat| <= Eof(t) && Ends(fat, Eof(t), h) && IsFree(fat, c)
    ensures var p := Chain(fat, Eof(t), h);
            2 <= p[|p| - 1] < |fat| && FreeCount(fat[c := Eof(t)][p[|p| - 1] := c]) == FreeCount(fat) - 1
  {
    var p := Chain(fat, Eof(t), h);
    var tail := p[|p| - 1];
    assert tail in Clusters(fat, Eof(t), h);
    ChainNotFree(t, fat, h, tail);
    FreeUpdated(fat, |fat|, c, Eof(t));
    FreeUpdated(fat[c := Eof(t)], |fat|, tail, c);
  }

  /** Every entry that is freed was not zero. */
  lemma {:induction false} FreedCount(t: FatType, fat: seq<nat>, p: seq<nat>, n: nat)
    requires !t.FAT12? && |p| > 0 && IsPath(fat, p) && NoRepeat(p) && fat[p[|p| - 1]] == Eof(t)
    ensures var r := FreedFrom(t, fat, p[0], n); FreeCount(r.0) == FreeCount(fat) + r.1
    decreases n
  {
    if n > 0 {
      var q, fat1 := p[1..], fat[p[0] := 0];
      assert |p| > 1 ==> fat[p[0]] == p[1];
      FreeUpdated(fat, |fat|, p[0], 0);
      if |p| > 1 && !Stops(t, p[1]) {
        RestOfPath(fat, p);
        FreedCount(t, fat1, q, n - 1);
      }
    }
  }

  /** How much of a chain is freed, and when that is all of it. */
  lemma DeletedChain(t: FatType, fat: seq<nat>, h: nat, n: nat)
    requires !t.FAT12? && |fat| <= Eof(t) && Ends(fat, Eof(t), h)
    ensures var p, r := Chain(fat, Eof(t), h), Deleted(t, fat, h, n);
            && r.1 <= |p| && ZeroedOnly(fat, r.0, Elements(p[..r.1])) && FreeCount(r.0) == FreeCount(fat) + r.1
            && (r.1 == |p| <==> n >= |p| && forall i :: 0 <= i < |p| ==> !Stops(t, p[i]))
  {
    var p := Chain(fat, Eof(t), h);
    ChainNoRepeat(fat, Eof(t), h, p);
    if Stops(t, h) {
      assert p[..0] == [] && Stops(t, p[0]);
    } else {
      ChainFreed(t, fat, p, n);
      FreedCount(t, fat, p, n);
    }
  }

  /** A file is deleted, and no other chain changes. Clusters remain in use without a file exactly if not all of the
      chain has been freed. */
  lemma DeleteSound(t: FatType, v: Volume, h: nat, n: nat)
    requires Sound(t, v) && h in v.heads
    ensures var r := Deleted(t, v.table.fat, h, n);
            var v' := Volume(Table(r.0, v.table.next, v.table.free + r.1), v.heads - {h});
            && Sound(t, v')
            && (forall g :: g in v.heads - {h} ==> Chain(r.0, Eof(t), g) == Chain(v.table.fat, Eof(t), g))
            && (Tight(t, v) ==> (Tight(t, v') <==> r.1 == |Chain(v.table.fat, Eof(t), h)|))
  {
    hide Deleted, Ends, Clusters, Chain, FreeBelow, ZeroedOnly, ChainsApart, InUse, IsChain;
    var fat := v.table.fat;
    var r := Deleted(t, fat, h, n);
    HeadEnds(t, fat, v.heads, h);
    DeletedChain(t, fat, h, n);
    DeleteChains(t, fat, v.heads, h, r.0, r.1);
    if Tight(t, v) {
      if r.1 == |Chain(fat, Eof(t), h)| {
        DeletedAll(t, fat, v.heads, h, r.0);
      } else {
        DeletedPart(t, fat, v.heads, h, r.0, r.1);
      }
    }
  }

  /** The chains after the first `k` clusters of one have been freed. */
  lemma DeleteChains(t: FatType, fat: seq<nat>, heads: set<nat>, h: nat, fat': seq<nat>, k: nat)
    requires 3 <= |fat| <= Eof(t) && ChainsApart(t, fat, heads) && h in heads && k <= |Chain(fat, Eof(t), h)|
    requires ZeroedOnly(fat, fat', Elements(Chain(fat, Eof(t), h)[..k]))
    ensures ChainsApart(t, fat', heads - {h}) && fat'[1] == fat[1]
    ensures forall g :: g in heads - {h} ==> Chain(fat', Eof(t), g) == Chain(fat, Eof(t), g)
    ensures forall d: nat :: InUse(t, fat', heads - {h}, d) <==> InUse(t, fat, heads - {h}, d)
  {
    var p := Chain(fat, Eof(t), h);
    assert forall x :: x in Elements(p[..k]) ==> x in Clusters(fat, Eof(t), h) && IsCluster(fat, x);
    forall g | g in heads - {h}
      ensures Ends(fat', Eof(t), g) && Chain(fat', Eof(t), g) == Chain(fat, Eof(t), g)
      ensures Clusters(fat', Eof(t), g) == Clusters(fat, Eof(t), g)
    {
      assert forall x :: x in Clusters(fat, Eof(t), g) ==> x < |fat|;
      ChainUntouched(t, fat, fat', g);
    }
  }

  lemma DeletedAll(t: FatType, fat: seq<nat>, heads: set<nat>, h: nat, fat': seq<nat>)
    requires 3 <= |fat| <= Eof(t) && ChainsApart(t, fat, heads) && h in heads
    requires var p := Chain(fat, Eof(t), h); ZeroedOnly(fat, fat', Elements(p[..|p|]))
    requires forall d: nat :: InUse(t, fat', heads - {h}, d) <==> InUse(t, fat, heads - {h}, d)
    requires forall c: nat :: IsCluster(fat, c) && fat[c] != 0 ==> InUse(t, fat, heads, c)
    ensures forall c: nat :: IsCluster(fat', c) && fat'[c] != 0 ==> InUse(t, fat', heads - {h}, c)
  {
    hide Ends, Chain, IsChain, Elements, ChainsApart;
    HeadEnds(t, fat, heads, h);
    var p := Chain(fat, Eof(t), h);
    assert p[..|p|] == p;
    forall c: nat | IsCluster(fat', c) && fat'[c] != 0 ensures InUse(t, fat', heads - {h}, c) {
      var g :| g in heads && c in Clusters(fat, Eof(t), g);
      assert g in heads - {h};
    }
  }

  lemma DeletedPart(t: FatType, fat: seq<nat>, heads: set<nat>, h: nat, fat': seq<nat>, k: nat)
    requires 3 <= |fat| <= Eof(t) && ChainsApart(t, fat, heads) && h in heads && k < |Chain(fat, Eof(t), h)|
    requires ZeroedOnly(fat, fat', Elements(Chain(fat, Eof(t), h)[..k]))
    requires forall d: nat :: InUse(t, fat', heads - {h}, d) <==> InUse(t, fat, heads - {h}, d)
    ensures exists c: nat :: IsCluster(fat', c) && fat'[c] != 0 && !InUse(t, fat', heads - {h}, c)
  {
    var p := Chain(fat, Eof(t), h);
    var c := p[k];
    ChainNoRepeat(fat, Eof(t), h, p);
    assert c in Clusters(fat, Eof(t), h);
    ChainNotFree(t, fat, h, c);
    assert c !in Elements(p[..k]);
    assert fat'[c] != 0;
    assert !InUse(t, fat, heads - {h}, c);
  }

  /** The clusters of a deleted file are free exactly if the file's size needs the whole chain, and no 16-bit cluster is
      above 0xfff0; otherwise clusters stay in use for ever. */
  lemma DeletionTight(t: FatType, v: Volume, b: Table, h: nat, size: nat, clusterBytes: nat)
    requires Sound(t, v) && h in v.heads && clusterBytes > 0 && 0x8000_0000 % clusterBytes == 0 && size <= 0x7fff_ffff
    requires Deletes(t, v.table, b, h, SizeInClusters(clusterBytes, BoundingSize(size)))
    ensures Sound(t, Volume(b, v.heads - {h})) && Ends(v.table.fat, Eof(t), h)
    ensures forall g :: g in v.heads - {h} ==> Chain(b.fat, Eof(t), g) == Chain(v.table.fat, Eof(t), g)
    ensures var p, bytes := Chain(v.table.fat, Eof(t), h), if size == 0 then 0x7fff_ffff else size;
            Tight(t, v) ==>
              (Tight(t, Volume(b, v.heads - {h})) <==>
               (|p| - 1) * clusterBytes < bytes && (t.FAT32? || forall i :: 0 <= i < |p| ==> p[i] <= 0xfff0))
  {
    hide ChainsApart, FreeBelow, Ends, Chain, Clusters, FreesPrefix, Deleted, SizeInClusters, Tight;
    HeadEnds(t, v.table.fat, v.heads, h);
    DeleteSound(t, v, h, SizeInClusters(clusterBytes, BoundingSize(size)));
    ContentDeleted(t, v.table, b, h, clusterBytes, size);
    FreesAll(t, v.table.fat, b.fat, Chain(v.table.fat, Eof(t), h), b.free - v.table.free, 0, size, clusterBytes);
  }

  // ------------------------------------------------------------------ keeping the first cluster

  /** The chains after `k` clusters behind the first one of a chain have been freed. */
  lemma RestChains(t: FatType, fat: seq<nat>, heads: set<nat>, h: nat, fat': seq<nat>, k: nat)
    requires 3 <= |fat| <= Eof(t) && ChainsApart(t, fat, heads) && h in heads && k < |Chain(fat, Eof(t), h)|
    requires h < |fat| && ZeroedOnly(fat[h := Eof(t)], fat', Elements(Chain(fat, Eof(t), h)[1..][..k]))
    ensures ChainsApart(t, fat', heads) && fat'[1] == fat[1] && Chain(fat', Eof(t), h) == [h]
    ensures forall g :: g in heads - {h} ==> Chain(fat', Eof(t), g) == Chain(fat, Eof(t), g)
    ensures forall d: nat :: InUse(t, fat', heads, d) <==> d == h || InUse(t, fat, heads - {h}, d)
  {
    var p := Chain(fat, Eof(t), h);
    ChainNoRepeat(fat, Eof(t), h, p);
    var q := p[1..];
    assert forall i :: 0 <= i < |q| ==> q[i] == p[i + 1] && q[i] != h;
    assert forall x :: x in Elements(q[..k]) ==> x in Clusters(fat, Eof(t), h) && IsCluster(fat, x) && x != h;
    SingleChain(fat', Eof(t), h);
    assert h in Clusters(fat, Eof(t), h);
    forall g | g in heads - {h}
      ensures Ends(fat', Eof(t), g) && Chain(fat', Eof(t), g) == Chain(fat, Eof(t), g)
      ensures Clusters(fat', Eof(t), g) == Clusters(fat, Eof(t), g) && h !in Clusters(fat', Eof(t), g)
    {
      assert forall x :: x in Clusters(fat, Eof(t), g) ==> x < |fat|;
      ChainUntouched(t, fat, fat', g);
    }
    hide Ends, Clusters, Chain;
    forall d: nat ensures InUse(t, fat', heads, d) <==> d == h || InUse(t, fat, heads - {h}, d) {
      if InUse(t, fat, heads - {h}, d) {
        var g :| g in heads - {h} && d in Clusters(fat, Eof(t), g);
        assert d in Clusters(fat', Eof(t), g);
      }
    }
  }

  lemma RestAll(t: FatType, fat: seq<nat>, heads: set<nat>, h: nat, fat': seq<nat>)
    requires 3 <= |fat| <= Eof(t) && Ends(fat, Eof(t), h) && h in heads && h < |fat|
    requires var p := Chain(fat, Eof(t), h); ZeroedOnly(fat[h := Eof(t)], fat', Elements(p[1..]))
    requires forall d: nat :: InUse(t, fat', heads, d) <==> d == h || InUse(t, fat, heads - {h}, d)
    requires forall c: nat :: IsCluster(fat, c) && fat[c] != 0 ==> InUse(t, fat, heads, c)
    ensures forall c: nat :: IsCluster(fat', c) && fat'[c] != 0 ==> InUse(t, fat', heads, c)
  {
    var p := Chain(fat, Eof(t), h);
    ElementsSplit(p);
    hide Ends, Chain, IsChain, Elements, InUse, Clusters;
    forall c: nat | IsCluster(fat', c) && fat'[c] != 0 && c != h ensures InUse(t, fat', heads, c) {
      ChainElements(t, fat, h);
      UsedByOther(t, fat, heads, h, c);
    }
  }

  lemma ChainElements(t: FatType, fat: seq<nat>, h: nat)
    requires Ends(fat, Eof(t), h)
    ensures Clusters(fat, Eof(t), h) == Elements(Chain(fat, Eof(t), h)) && Chain(fat, Eof(t), h)[0] == h
  {
  }

  lemma UsedByOther(t: FatType, fat: seq<nat>, heads: set<nat>, h: nat, c: nat)
    requires InUse(t, fat, heads, c) && c !in Clusters(fat, Eof(t), h)
    ensures InUse(t, fat, heads - {h}, c)
  {
    hide Clusters;
    var g :| g in heads && c in Clusters(fat, Eof(t), g);
    assert g in heads - {h};
  }

  lemma SmallBehind(p: seq<nat>)
    requires |p| > 0
    ensures (forall i :: 1 <= i < |p| ==> p[i] <= 0xfff0) <==> (forall i :: 0 <= i < |p| - 1 ==> p[1..][i] <= 0xfff0)
  {
    forall i | 1 <= i < |p| ensures p[i] == p[1..][i - 1] {}
  }

  lemma RestPart(t: FatType, fat: seq<nat>, heads: set<nat>, h: nat, fat': seq<nat>, k: nat)
    requires 3 <= |fat| <= Eof(t) && ChainsApart(t, fat, heads) && h in heads && h < |fat|
    requires k < |Chain(fat, Eof(t), h)| - 1
    requires ZeroedOnly(fat[h := Eof(t)], fat', Elements(Chain(fat, Eof(t), h)[1..][..k]))
    requires forall d: nat :: InUse(t, fat', heads, d) <==> d == h || InUse(t, fat, heads - {h}, d)
    ensures exists c: nat :: IsCluster(fat', c) && fat'[c] != 0 && !InUse(t, fat', heads, c)
  {
    var p := Chain(fat, Eof(t), h);
    var c := p[k + 1];
    ChainNoRepeat(fat, Eof(t), h, p);
    assert c in Clusters(fat, Eof(t), h);
    ChainNotFree(t, fat, h, c);
    assert c !in Elements(p[1..][..k]);
    assert p[0] == h != c;
    assert fat'[c] != 0;
    assert !InUse(t, fat, heads - {h}, c);
  }

  /** Freeing the clusters behind the first one, and counting them. */
  lemma RestCount(t: FatType, a: Table, b: Table, h: nat, n: nat, status: int)
    requires !t.FAT12? && |a.fat| <= Eof(t) && Ends(a.fat, Eof(t), h) && DeletesRest(t, a, b, h, n, status)
    ensures var p, k := Chain(a.fat, Eof(t), h), b.free - a.free;
            && 0 <= k < |p| && h < |a.fat| && ZeroedOnly(a.fat[h := Eof(t)], b.fat, Elements(p[1..][..k]))
            && FreeCount(b.fat) == FreeCount(a.fat) + k && b.next == a.next && |b.fat| == |a.fat|
  {
    hide FreeBelow, Ends, Chain, FreedFrom, NoRepeat, Elements;
    var p, fat' := Chain(a.fat, Eof(t), h), a.fat[h := Eof(t)];
    RestIsPath(a.fat, Eof(t), h);
    var q := p[1..];
    if |p| == 1 {
      assert q[..0] == [] && fat' == a.fat && Elements([]) == {} by { NoElements(); }
    } else {
      assert q[0] == p[1] && q[|q| - 1] == p[|p| - 1] && IsCluster(a.fat, h) by { FirstCluster(a.fat, Eof(t), h); }
      FreeUpdated(a.fat, |a.fat|, h, Eof(t));
      PathDeleted(t, fat', q, n - 1);
      FreedCount(t, fat', q, n - 1);
    }
  }

  lemma NoElements()
    ensures Elements([]) == {}
  {
  }

  lemma FirstCluster(fat: seq<nat>, end: nat, h: nat)
    requires Ends(fat, end, h)
    ensures IsCluster(fat, h) && (|Chain(fat, end, h)| > 1 ==> IsCluster(fat, fat[h]))
  {
    var p := Chain(fat, end, h);
    assert p[0] == h;
    if |p| > 1 { assert fat[p[0]] == p[1]; }
  }

  /** All but the first cluster of a file are freed: its chain is that cluster, and no other chain changes. Clusters
      remain in use without a file exactly if not all of the rest has been freed. */
  lemma TruncateSound(t: FatType, v: Volume, b: Table, h: nat, n: nat, status: int)
    requires Sound(t, v) && h in v.heads && DeletesRest(t, v.table, b, h, n, status)
    ensures Sound(t, Volume(b, v.heads)) && Chain(b.fat, Eof(t), h) == [h] && Ends(v.table.fat, Eof(t), h)
    ensures forall g :: g in v.heads - {h} ==> Chain(b.fat, Eof(t), g) == Chain(v.table.fat, Eof(t), g)
    ensures var k := b.free - v.table.free;
            Tight(t, v) ==> (Tight(t, Volume(b, v.heads)) <==> k == |Chain(v.table.fat, Eof(t), h)| - 1)
  {
    hide ChainsApart, FreeBelow, Ends, Chain, Clusters, DeletesRest, ZeroedOnly, InUse, Elements, IsChain;
    var fat, k := v.table.fat, b.free - v.table.free;
    HeadEnds(t, fat, v.heads, h);
    RestCount(t, v.table, b, h, n, status);
    RestChains(t, fat, v.heads, h, b.fat, k);
    if Tight(t, v) {
      var q := Chain(fat, Eof(t), h)[1..];
      if k == |q| {
        assert q[..k] == q;
        RestAll(t, fat, v.heads, h, b.fat);
      } else {
        RestPart(t, fat, v.heads, h, b.fat, k);
      }
    }
  }

  /** That is so exactly if the file's size does not need the whole chain, or a 16-bit cluster behind the first one is
      above 0xfff0. */
  lemma TruncationTight(t: FatType, v: Volume, b: Table, h: nat, size: nat, clusterBytes: nat, status: int)
    requires Sound(t, v) && h in v.heads && clusterBytes > 0 && 0x8000_0000 % clusterBytes == 0 && size <= 0x7fff_ffff
    requires DeletesRest(t, v.table, b, h, SizeInClusters(clusterBytes, BoundingSize(size)), status)
    ensures Ends(v.table.fat, Eof(t), h)
    ensures var p, bytes := Chain(v.table.fat, Eof(t), h), if size == 0 then 0x7fff_ffff else size;
            Tight(t, v) ==>
              (Tight(t, Volume(b, v.heads)) <==>
               |p| == 1 || ((|p| - 1) * clusterBytes < bytes &&
                            (t.FAT32? || forall i :: 1 <= i < |p| ==> p[i] <= 0xfff0)))
  {
    hide ChainsApart, FreeBelow, Ends, Chain, Clusters, FreesPrefix, SizeInClusters, DeletesRest, Tight, IsChain;
    var fat, k := v.table.fat, b.free - v.table.free;
    TruncateSound(t, v, b, h, SizeInClusters(clusterBytes, BoundingSize(size)), status);
    RestCount(t, v.table, b, h, SizeInClusters(clusterBytes, BoundingSize(size)), status);
    RestDeleted(t, v.table, b, h, clusterBytes, size, status);
    var p := Chain(fat, Eof(t), h);
    if |p| > 1 {
      FreesAll(t, fat[h := Eof(t)], b.fat, p[1..], k, 1, size, clusterBytes);
      SmallBehind(p);
    }
  }

  // ------------------------------------------------------------------ runs

  datatype Operation = Allocate | Append(head: nat) | Delete(head: nat, bound: nat) | Truncate(head: nat, bound: nat)

  /** One operation of the file system on a volume; allocating from a full volume changes nothing. */
  ghost predicate Performs(t: FatType, op: Operation, v: Volume, v': Volume) {
    match op
    case Allocate =>
      Allocates(v.table, v'.table, Eof(t)) && v'.heads == if v.table.free == 0 then v.heads
        else v.heads + {v'.table.next}
    case Append(h) =>
      h in v.heads && Ends(v.table.fat, Eof(t), h) && v'.heads == v.heads &&
      var p := Chain(v.table.fat, Eof(t), h);
      Appends(v.table, v'.table, p[|p| - 1], Eof(t))
    case Delete(h, n) =>
      h in v.heads && v'.heads == v.heads - {h} && Deletes(t, v.table, v'.table, h, n)
    case Truncate(h, n) =>
      h in v.heads && v'.heads == v.heads && DeletesRest(t, v.table, v'.table, h, n, SUCCESS)
  }

  ghost predicate IsRun(t: FatType, ops: seq<Operation>, vs: seq<Volume>) {
    |vs| == |ops| + 1 && forall i :: 0 <= i < |ops| ==> Performs(t, ops[i], vs[i], vs[i + 1])
  }

  lemma StepSound(t: FatType, op: Operation, v: Volume, v': Volume)
    requires Sound(t, v) && Performs(t, op, v, v')
    ensures Sound(t, v')
  {
    hide ChainsApart, FreeBelow, Ends, Chain, Clusters, DeletesRest, Tight;
    match op
    case Allocate => if v.table.free > 0 { AllocateSound(t, v, v'.table); }
    case Append(h) => if v.table.free > 0 { AppendSound(t, v, v'.table, h); }
    case Delete(h, n) => DeleteSound(t, v, h, n);
    case Truncate(h, n) => TruncateSound(t, v, v'.table, h, n, SUCCESS);
  }

  /** Over every run the counter is the number of free clusters, and all chains end and share no cluster. */
  lemma {:induction false} RunSound(t: FatType, ops: seq<Operation>, vs: seq<Volume>, i: nat)
    requires IsRun(t, ops, vs) && Sound(t, vs[0]) && i < |vs|
    ensures Sound(t, vs[i])
  {
    hide Sound, Performs;
    if i > 0 {
      RunSound(t, ops, vs, i - 1);
      StepSound(t, ops[i - 1], vs[i - 1], vs[i]);
    }
  }

  // ------------------------------------------------------------------ the methods that perform the operations

  /** A chain that ends stays inside the volume while it is freed. */
  lemma HeadDeletable(t: FatType, fat: seq<nat>, h: nat, n: nat)
    requires !t.FAT12? && 3 <= |fat| <= Eof(t) && Ends(fat, Eof(t), h)
    ensures Deletable(t, fat, h, n) && h < |fat|
  {
    var p := Chain(fat, Eof(t), h);
    ChainNoRepeat(fat, Eof(t), h, p);
    ChainFreed(t, fat, p, n);
  }

  /** What follows a chain's first cluster stays inside too, once that cluster has the end mark. */
  lemma RestDeletable(t: FatType, fat: seq<nat>, h: nat, n: nat)
    requires !t.FAT12? && 3 <= |fat| <= Eof(t) && Ends(fat, Eof(t), h)
    ensures h < |fat| && Deletable(t, fat[h := Eof(t)], fat[h], n)
  {
    var p := Chain(fat, Eof(t), h);
    ChainNoRepeat(fat, Eof(t), h, p);
    if |p| > 1 {
      var q, fat' := p[1..], fat[h := Eof(t)];
      assert fat[p[0]] == p[1] && q[|q| - 1] == p[|p| - 1];
      assert IsPath(fat', q) by {
        forall i | 0 <= i < |q| - 1 ensures fat'[q[i]] == q[i + 1] { assert fat[p[i + 1]] == p[i + 2]; }
      }
      ChainFreed(t, fat', q, n);
    }
  }

  /** On a sound volume the methods that allocate, append and delete can be called: for every file, at the end of its
      chain, and with any bound. */
  lemma SoundReady(media: Media, heads: set<nat>, h: nat, n: nat)
    requires media.Valid() && Sound(media.fatType, Volume(media.State(), heads))
    ensures FatAllocate.Countable(media)
    ensures var t, fat := media.fatType, media.Fat();
            h in heads ==>
              && Ends(fat, Eof(t), h) && Chain(fat, Eof(t), h)[|Chain(fat, Eof(t), h)| - 1] <= media.totalClusters
                           && h < |fat| && Deletable(t, fat, h, n) && Deletable(t, fat[h := Eof(t)], fat[h], n)
  {
    hide Ends, Chain, FreeBelow, Deletable;
    var t, fat := media.fatType, media.Fat();
    assert |fat| == media.totalClusters + 1;
    if h in heads {
      HeadEnds(t, fat, heads, h);
      HeadDeletable(t, fat, h, n);
      RestDeletable(t, fat, h, n);
      var p := Chain(fat, Eof(t), h);
      assert IsCluster(fat, p[|p| - 1]);
    }
  }
}
