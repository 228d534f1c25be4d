/** Freeing a chain entry by entry, as values: what filesystem/fat/base/deletecontent.c should amount to. */
module ChainDeletion {
  import opened Division
  import opened FatBytes
  import opened Chains

  /** After an entry with this value nothing more is freed. */
  predicate Stops(t: FatType, e: nat) {
    e == 0 || if t.FAT32? then e == FAT32EOF else e > 0xfff0
  }

  /** Zeroes the entry of `c` and then those that the chain leads to, `n` at most. The second result is the number
      of entries. */
  ghost function FreedFrom(t: FatType, fat: seq<nat>, c: nat, n: nat): (r: (seq<nat>, nat))
    ensures |r.0| == |fat|
    decreases n
  {
    if n == 0 || c >= |fat| then (fat, 0)
    else if Stops(t, fat[c]) then (fat[c := 0], 1)
    else
      var r := FreedFrom(t, fat[c := 0], fat[c], n - 1);
      (r.0, r.1 + 1)
  }

  /** Every entry that is reached belongs to a cluster of the volume. */
  ghost predicate StaysInside(t: FatType, fat: seq<nat>, c: nat, n: nat)
    decreases n
  {
    n == 0 || (c < |fat| && (Stops(t, fat[c]) || StaysInside(t, fat[c := 0], fat[c], n - 1)))
  }

  /** Exactly the entries of `cs` are zeroed. */
  ghost predicate ZeroedOnly(fat: seq<nat>, fat': seq<nat>, cs: set<nat>) {
    |fat'| == |fat| && forall c: nat :: c < |fat| ==> fat'[c] == if c in cs then 0 else fat[c]
  }

  lemma ElementsSplit(p: seq<nat>)
    requires |p| > 0
    ensures Elements(p) == {p[0]} + Elements(p[1..])
  {
    forall x | x in Elements(p) ensures x in {p[0]} + Elements(p[1..]) {
      var i :| 0 <= i < |p| && p[i] == x;
      if i > 0 { assert p[1..][i - 1] == x; }
    }
    forall x | x in Elements(p[1..]) ensures x in Elements(p) {
      var i :| 0 <= i < |p[1..]| && p[1..][i] == x;
      assert p[i + 1] == x;
    }
  }

  /** What is freed of a chain: its first clusters, as many as the bound allows; and all of them unless a link looks
      like an end mark, as 16-bit links above 0xfff0 do. */
  lemma {:induction false} ChainFreed(t: FatType, fat: seq<nat>, p: seq<nat>, n: nat)
    requires !t.FAT12? && |p| > 0 && IsPath(fat, p) && NoRepeat(p) && fat[p[|p| - 1]] == EndMark(t.FAT32?)
    ensures StaysInside(t, fat, p[0], n)
    ensures var r := FreedFrom(t, fat, p[0], n);
            && r.1 <= |p| && r.1 <= n && ZeroedOnly(fat, r.0, Elements(p[..r.1]))
            && (r.1 == |p| <==> n >= |p| && forall i :: 1 <= i < |p| ==> !Stops(t, p[i]))
            && (forall i :: 1 <= i < r.1 ==> !Stops(t, p[i]))
            && (r.1 == |p| || r.1 == n || (r.1 > 0 && Stops(t, p[r.1])))
    decreases n
  {
    if n == 0 {
      assert p[..0] == [];
    } else if |p| > 1 && !Stops(t, p[1]) {
      var q, fat1 := p[1..], fat[p[0] := 0];
      RestOfPath(fat, p);
      ChainFreed(t, fat1, q, n - 1);
      assert fat[p[0]] == p[1];
      FreedBefore(t, fat, p, n, FreedFrom(t, fat, p[0], n), FreedFrom(t, fat1, q[0], n - 1));
    } else {
      assert |p| > 1 ==> fat[p[0]] == p[1];
      assert p[..1] == [p[0]] && Elements(p[..1]) == {p[0]};
    }
  }

  /** Freeing the first cluster leaves the rest of the path as it is. */
  lemma RestOfPath(fat: seq<nat>, p: seq<nat>)
    requires |p| > 1 && IsPath(fat, p) && NoRepeat(p)
    ensures var q, fat1 := p[1..], fat[p[0] := 0];
            && |q| > 0 && q[0] == p[1] && IsPath(fat1, q) && NoRepeat(q) && fat1[q[|q| - 1]] == fat[p[|p| - 1]]
  {
    var q, fat1 := p[1..], fat[p[0] := 0];
    forall i | 0 <= i < |q| ensures q[i] == p[i + 1] && q[i] != p[0] {}
    forall i | 0 <= i < |q| - 1 ensures fat1[q[i]] == q[i + 1] { assert fat[p[i + 1]] == p[i + 2]; }
  }

  /** What is freed of the rest of a chain, with the cluster in front of it. */
  lemma FreedBefore(t: FatType, fat: seq<nat>, p: seq<nat>, n: nat, r: (seq<nat>, nat), r1: (seq<nat>, nat))
    requires n > 0 && |p| > 1 && IsPath(fat, p) && NoRepeat(p) && !Stops(t, p[1]) && r == (r1.0, r1.1 + 1)
    requires var q := p[1..];
             && r1.1 <= |q| && r1.1 <= n - 1 && ZeroedOnly(fat[p[0] := 0], r1.0, Elements(q[..r1.1]))
             && (r1.1 == |q| <==> n - 1 >= |q| && forall i :: 1 <= i < |q| ==> !Stops(t, q[i]))
             && (forall i :: 1 <= i < r1.1 ==> !Stops(t, q[i]))
             && (r1.1 == |q| || r1.1 == n - 1 || (r1.1 > 0 && Stops(t, q[r1.1])))
    ensures r.1 <= |p| && r.1 <= n && ZeroedOnly(fat, r.0, Elements(p[..r.1]))
    ensures r.1 == |p| <==> n >= |p| && forall i :: 1 <= i < |p| ==> !Stops(t, p[i])
    ensures forall i :: 1 <= i < r.1 ==> !Stops(t, p[i])
    ensures r.1 == |p| || r.1 == n || (r.1 > 0 && Stops(t, p[r.1]))
  {
    hide Stops;
    var q := p[1..];
    assert p[..r.1][1..] == q[..r1.1];
    ElementsSplit(p[..r.1]);
    forall i | 1 <= i < |p| ensures p[i] == q[i - 1] {}
    forall i | 1 <= i < |q| ensures q[i] == p[i + 1] {}
  }

  /** The first `k` clusters of a chain `p` have been freed: as many as a file of `size` bytes has, of which `skip` in
      front are kept, unless the chain ends before or a 16-bit cluster is above 0xfff0. A directory has size 0 and
      counts as the largest file. */
  ghost predicate FreesPrefix(t: FatType, fat: seq<nat>, fat': seq<nat>, p: seq<nat>, k: int, skip: nat, size: nat,
      clusterBytes: nat) {
    var bytes := if size == 0 then 0x7fff_ffff else size;
    && 0 <= k <= |p| && |fat'| == |fat|
    && (forall c: nat :: c < |fat| ==> fat'[c] == if c in Elements(p[..k]) then 0 else fat[c])
    && (k > 0 ==> (k - 1 + skip) * clusterBytes < bytes)
    && (!t.FAT32? ==> forall i :: 0 <= i < k ==> p[i] <= 0xfff0)
    && (k == |p| || (k + skip) * clusterBytes >= bytes || (!t.FAT32? && p[k] > 0xfff0))
  }

  /** All of it is freed exactly if the size needs all of it, and no 16-bit cluster is above 0xfff0. */
  lemma FreesAll(t: FatType, fat: seq<nat>, fat': seq<nat>, p: seq<nat>, k: int, skip: nat, size: nat,
      clusterBytes: nat)
    requires FreesPrefix(t, fat, fat', p, k, skip, size, clusterBytes) && |p| > 0
    ensures var bytes := if size == 0 then 0x7fff_ffff else size;
            k == |p| <==>
              (|p| - 1 + skip) * clusterBytes < bytes && (!t.FAT32? ==> forall i :: 0 <= i < |p| ==> p[i] <= 0xfff0)
  {
    if k < |p| { KeepOrder(k + skip, |p| - 1 + skip, clusterBytes); }
  }

  /** The cluster count of DeleteContent is the size divided by the cluster size, rounded up; neither branch exceeds
      the range of 32-bit numbers. */
  function SizeInClusters(clusterBytes: nat, size: nat): (n: nat)
    requires clusterBytes > 0 && 0x8000_0000 % clusterBytes == 0 && 1 <= size <= 0x7fff_ffff
    ensures (n - 1) * clusterBytes < size <= n * clusterBytes
  {
    var mask := clusterBytes - 1;
    if 0x7fff_ffff - size >= mask then
      DivCeiling(size, clusterBytes);
      (mask + size) / clusterBytes
    else
      DivTop(size, clusterBytes);
      0x7fff_ffff / clusterBytes + 1
  }

  lemma DivCeiling(size: nat, d: nat)
    requires d > 0
    ensures var n := (d - 1 + size) / d; (n - 1) * d < size <= n * d
  {
    var m := d - 1 + size;
    assert m == m / d * d + m % d;
    assert (m / d - 1) * d == m / d * d - d;
  }

  lemma DivTop(size: nat, d: nat)
    requires d > 0 && 0x8000_0000 % d == 0 && 0x7fff_ffff - size < d - 1 && size <= 0x7fff_ffff
    ensures var n := 0x7fff_ffff / d + 1; (n - 1) * d < size <= n * d
  {
    var q := 0x8000_0000 / d;
    assert 0x8000_0000 == q * d;
    assert q >= 1;
    assert (q - 1) * d == q * d - d;
    DivModUnique(0x7fff_ffff, d, q - 1, d - 1);
  }
}
