/** Free entries of a FAT as values: how many there are, which is the least, and which comes next in the
    cyclic order of the allocator. */
module FreeClusters {

  /** The number of free clusters below `n`. */
  ghost function FreeBelow(fat: seq<nat>, n: nat): (k: nat)
    requires n <= |fat|
  {
    if n <= 2 then 0 else FreeBelow(fat, n - 1) + if fat[n - 1] == 0 then 1 else 0
  }

  ghost function FreeCount(fat: seq<nat>): nat {
    FreeBelow(fat, |fat|)
  }

  predicate IsFree(fat: seq<nat>, c: nat) {
    2 <= c < |fat| && fat[c] == 0
  }

  ghost predicate IsLeastFree(fat: seq<nat>, c: nat) {
    IsFree(fat, c) && forall d: nat :: IsFree(fat, d) ==> c <= d
  }

  /** Of the free clusters `c` comes first after `n`, where the first cluster follows the last. */
  ghost predicate IsNextFree(fat: seq<nat>, n: nat, c: nat) {
    IsFree(fat, c) &&
    forall d: nat :: IsFree(fat, d) ==> if c > n then d <= n || c <= d else c <= d <= n
  }

  lemma {:induction false} FreeUpdated(fat: seq<nat>, n: nat, c: nat, v: nat)
    requires n <= |fat| && c < |fat|
    ensures FreeBelow(fat[c := v], n) ==
            FreeBelow(fat, n) + if 2 <= c < n then (if v == 0 then 1 else 0) - (if fat[c] == 0 then 1 else 0) else 0
  {
    if n > 2 { FreeUpdated(fat, n - 1, c, v); }
  }

  /** A positive count means that there is a free cluster, and conversely. */
  lemma {:induction false} SomeFree(fat: seq<nat>, n: nat)
    requires n <= |fat|
    ensures FreeBelow(fat, n) > 0 <==> exists c: nat :: IsFree(fat, c) && c < n
  {
    if n > 2 {
      SomeFree(fat, n - 1);
      if FreeBelow(fat, n - 1) > 0 {
        var c: nat :| IsFree(fat, c) && c < n - 1;
        assert c < n;
      } else if fat[n - 1] == 0 {
        assert IsFree(fat, n - 1);
      }
    }
  }

  ghost function FreeSet(fat: seq<nat>, n: nat): set<nat> {
    set c: nat | c < n && IsFree(fat, c)
  }

  /** It is the number of free clusters. */
  lemma {:induction false} FreeCounted(fat: seq<nat>, n: nat)
    requires n <= |fat|
    ensures FreeBelow(fat, n) == |FreeSet(fat, n)|
  {
    if n <= 2 {
      assert FreeSet(fat, n) == {};
    } else {
      FreeCounted(fat, n - 1);
      assert FreeSet(fat, n) == FreeSet(fat, n - 1) + if fat[n - 1] == 0 then {n - 1} else {};
    }
  }

  // ------------------------------------------------------------------ what the allocator changes

  /** The entries, NextFreeCluster and TotalFreeClusters. */
  datatype Table = Table(fat: seq<nat>, next: nat, free: int)

  /** The next free cluster becomes the end of a chain; without a free cluster nothing changes. */
  ghost predicate Allocates(a: Table, b: Table, eof: nat) {
    if a.free == 0 then b == a
    else IsNextFree(a.fat, a.next, b.next) && b == Table(a.fat[b.next := eof], b.next, a.free - 1)
  }

  /** The next free cluster becomes the end of the chain whose last cluster was `tail`. */
  ghost predicate Appends(a: Table, b: Table, tail: nat, eof: nat) {
    if a.free == 0 then b == a
    else && tail < |a.fat| && IsNextFree(a.fat, a.next, b.next)
         && b == Table(a.fat[b.next := eof][tail := b.next], b.next, a.free - 1)
  }
}
