/** Cluster chains of a FAT as values: what a chain is, that it is unique and free of repetition, and when
    following links fails to end (filesystem/chkdsk/src/chkdsk.c). */
module Chains {

  /** The exact end mark that IsLastCx tests for. */
  function EndMark(fat32: bool): nat {
    if fat32 then 0x0fff_ffff else 0xffff
  }

  /** The last index of the FAT is the largest cluster number. */
  predicate IsCluster(fat: seq<nat>, c: nat) {
    2 <= c < |fat|
  }

  /** Each cluster's entry is a number up to the largest cluster number, or the end mark. */
  ghost predicate WellFormed(fat: seq<nat>, end: nat) {
    3 <= |fat| <= end && forall c: nat :: IsCluster(fat, c) ==> fat[c] < |fat| || fat[c] == end
  }

  /** `p` follows the links of the FAT from cluster to cluster. */
  ghost predicate IsPath(fat: seq<nat>, p: seq<nat>) {
    (forall i :: 0 <= i < |p| ==> IsCluster(fat, p[i])) &&
    (forall i :: 0 <= i < |p| - 1 ==> fat[p[i]] == p[i + 1])
  }

  /** A path that begins at `s` and ends with the end mark. */
  ghost predicate IsChain(fat: seq<nat>, end: nat, s: nat, p: seq<nat>) {
    |p| > 0 && p[0] == s && IsPath(fat, p) && fat[p[|p| - 1]] == end
  }

  ghost predicate Ends(fat: seq<nat>, end: nat, s: nat) {
    exists p :: IsChain(fat, end, s, p)
  }

  ghost function Chain(fat: seq<nat>, end: nat, s: nat): (p: seq<nat>)
    requires Ends(fat, end, s)
    ensures IsChain(fat, end, s, p)
  {
    var p :| IsChain(fat, end, s, p);
    p
  }

  ghost function Elements(p: seq<nat>): set<nat> {
    set i | 0 <= i < |p| :: p[i]
  }

  /** The clusters of the chain from `s`, if it ends. */
  ghost function Clusters(fat: seq<nat>, end: nat, s: nat): set<nat> {
    if Ends(fat, end, s) then Elements(Chain(fat, end, s)) else {}
  }

  lemma NoClusters(fat: seq<nat>, end: nat)
    ensures Clusters(fat, end, 0) == {}
  {
  }

  ghost predicate NoRepeat(p: seq<nat>) {
    forall i, j :: 0 <= i < j < |p| ==> p[i] != p[j]
  }

  /** A path is a prefix of every chain that begins at the same cluster. */
  lemma {:induction false} PathPrefix(fat: seq<nat>, end: nat, s: nat, p: seq<nat>, q: seq<nat>, i: nat)
    requires IsChain(fat, end, s, q) && end >= |fat| && IsPath(fat, p) && i < |p| && p[0] == s
    ensures i < |q| && p[i] == q[i]
  {
    if i > 0 {
      PathPrefix(fat, end, s, p, q, i - 1);
      assert fat[p[i - 1]] == p[i];
    }
  }

  lemma ChainUnique(fat: seq<nat>, end: nat, s: nat, p: seq<nat>, q: seq<nat>)
    requires end >= |fat| && IsChain(fat, end, s, p) && IsChain(fat, end, s, q)
    ensures p == q
  {
    forall i | 0 <= i < |p| ensures i < |q| && p[i] == q[i] { PathPrefix(fat, end, s, p, q, i); }
    forall i | 0 <= i < |q| ensures i < |p| && p[i] == q[i] { PathPrefix(fat, end, s, q, p, i); }
    PathPrefix(fat, end, s, p, q, |p| - 1);
    PathPrefix(fat, end, s, q, p, |q| - 1);
  }

  /** From equal clusters on, a chain continues in the same way: `d` steps further on in both places. */
  lemma {:induction false} SameSteps(fat: seq<nat>, p: seq<nat>, i: nat, q: seq<nat>, j: nat, d: nat)
    requires IsPath(fat, p) && IsPath(fat, q) && i + d < |p| && j + d < |q| && p[i] == q[j]
    ensures p[i + d] == q[j + d]
  {
    if d > 0 {
      SameSteps(fat, p, i, q, j, d - 1);
      assert fat[p[i + d - 1]] == p[i + d] && fat[q[j + d - 1]] == q[j + d];
    }
  }

  lemma ChainNoRepeat(fat: seq<nat>, end: nat, s: nat, p: seq<nat>)
    requires end >= |fat| && IsChain(fat, end, s, p)
    ensures NoRepeat(p)
  {
    forall i, j | 0 <= i < j < |p| ensures p[i] != p[j] {
      if p[i] == p[j] {
        var d := |p| - 1 - j;
        assert fat[p[i + d]] == p[i + d + 1] && IsCluster(fat, p[i + d + 1]);
        SameSteps(fat, p, i, p, j, d);
      }
    }
  }

  /** A cluster with the end mark is a chain of its own. */
  lemma SingleChain(fat: seq<nat>, end: nat, c: nat)
    requires |fat| <= end && IsCluster(fat, c) && fat[c] == end
    ensures Ends(fat, end, c) && Chain(fat, end, c) == [c] && Clusters(fat, end, c) == {c}
  {
    assert IsChain(fat, end, c, [c]);
    ChainUnique(fat, end, c, [c], Chain(fat, end, c));
    assert Elements([c]) == {c} by { assert [c][0] == c; }
  }

  /** The clusters of a chain depend only on the entries of these clusters. */
  lemma ChainKept(fat: seq<nat>, fat': seq<nat>, end: nat, s: nat)
    requires end >= |fat| == |fat'| && Ends(fat, end, s)
    requires forall c :: c in Clusters(fat, end, s) ==> c < |fat| && fat'[c] == fat[c]
    ensures Ends(fat', end, s) && Chain(fat', end, s) == Chain(fat, end, s)
  {
    var p := Chain(fat, end, s);
    assert forall i :: 0 <= i < |p| ==> p[i] in Clusters(fat, end, s);
    assert IsChain(fat', end, s, p);
    ChainUnique(fat', end, s, p, Chain(fat', end, s));
  }

  /** An entry of a chain that is not a link is that of its last cluster. */
  lemma LastOfChain(fat: seq<nat>, end: nat, s: nat, p: seq<nat>, i: nat)
    requires IsChain(fat, end, s, p) && i < |p|
    ensures 2 <= p[i] < |fat|
    ensures if i == |p| - 1 then p[..i + 1] == p && fat[p[i]] == end else fat[p[i]] == p[i + 1] < |fat|
  {
    if i < |p| - 1 { assert fat[p[i]] == p[i + 1]; }
  }

  // ------------------------------------------------------------------ chains without an end

  /** Following links from `s` visits every cluster and then goes on to one of them again. */
  ghost predicate VisitsAll(fat: seq<nat>, s: nat, p: seq<nat>) {
    |p| == |fat| - 2 && |p| > 0 && IsPath(fat, p) && NoRepeat(p) && p[0] == s && IsCluster(fat, fat[p[|p| - 1]])
  }

  /** Some cluster's entry is not a link to a cluster: the condition that rules out the case above. */
  ghost predicate HasStop(fat: seq<nat>) {
    exists c: nat :: IsCluster(fat, c) && !IsCluster(fat, fat[c])
  }

  /** A chain that ends provides such an entry. */
  lemma EndIsStop(fat: seq<nat>, end: nat, s: nat)
    requires end >= |fat| && Ends(fat, end, s)
    ensures HasStop(fat)
  {
    var p := Chain(fat, end, s);
    assert IsCluster(fat, p[|p| - 1]) && !IsCluster(fat, fat[p[|p| - 1]]);
  }

  lemma Range(n: nat) returns (r: set<nat>)
    ensures |r| == n && forall c: nat :: c in r <==> c < n
  {
    if n == 0 {
      r := {};
    } else {
      r := Range(n - 1);
      r := r + {n - 1};
    }
  }

  lemma {:induction false} NoRepeatSize(p: seq<nat>)
    requires NoRepeat(p)
    ensures |Elements(p)| == |p|
  {
    if |p| > 0 {
      var q := p[..|p| - 1];
      NoRepeatSize(q);
      assert Elements(p) == Elements(q) + {p[|p| - 1]} by {
        forall x | x in Elements(p) ensures x in Elements(q) + {p[|p| - 1]} {
          var i :| 0 <= i < |p| && p[i] == x;
          if i < |q| { assert q[i] == x; }
        }
        forall x | x in Elements(q) ensures x in Elements(p) {
          var i :| 0 <= i < |q| && q[i] == x;
          assert p[i] == x;
        }
        assert p[|p| - 1] in Elements(p);
      }
      assert p[|p| - 1] !in Elements(q);
    } else {
      assert Elements(p) == {};
    }
  }

  lemma SubsetSize(a: set<nat>, b: set<nat>)
    requires a <= b
    ensures |a| <= |b| && (|a| == |b| ==> a == b)
  {
    assert b == a + (b - a);
    if |a| == |b| { assert |b - a| == 0; }
  }

  /** A path without repetition has at most as many clusters as there are. */
  lemma PathLength(fat: seq<nat>, p: seq<nat>)
    requires |fat| >= 2 && IsPath(fat, p) && NoRepeat(p)
    ensures |p| <= |fat| - 2
    ensures |p| == |fat| - 2 ==> forall c: nat :: IsCluster(fat, c) ==> c in Elements(p)
  {
    NoRepeatSize(p);
    var all := Range(|fat|);
    assert |all - {0, 1}| == |fat| - 2;
    SubsetSize(Elements(p), all - {0, 1});
  }

  /** Visiting all clusters is impossible as soon as one entry is not a link. */
  lemma StopPreventsLoop(fat: seq<nat>, s: nat, p: seq<nat>)
    requires |fat| >= 3 && HasStop(fat)
    ensures !VisitsAll(fat, s, p)
  {
    var c: nat :| IsCluster(fat, c) && !IsCluster(fat, fat[c]);
    if VisitsAll(fat, s, p) {
      PathLength(fat, p);
      assert c in Elements(p);
      forall i | 0 <= i < |p| ensures IsCluster(fat, fat[p[i]]) {
        if i < |p| - 1 { assert fat[p[i]] == p[i + 1]; }
      }
    }
  }

  // ------------------------------------------------------------------ following links from a start cluster

  /** Links are followed from `s` to the clusters of `p`, and the next step leads to `w`. */
  ghost predicate Followed(fat: seq<nat>, s: nat, p: seq<nat>, w: nat) {
    IsPath(fat, p) && NoRepeat(p) && if p == [] then w == s else p[0] == s && fat[p[|p| - 1]] == w
  }

  /** All clusters are unmarked and lie on a path that never ends. */
  ghost predicate Loops(fat: seq<nat>, s: nat, marks: set<nat>) {
    exists p :: VisitsAll(fat, s, p) && Elements(p) !! marks
  }

  /** The chain from `s` ends and none of its clusters is marked. */
  ghost predicate EndsUnmarked(fat: seq<nat>, end: nat, s: nat, marks: set<nat>) {
    Ends(fat, end, s) && Clusters(fat, end, s) !! marks
  }

  lemma FollowNext(fat: seq<nat>, s: nat, p: seq<nat>, w: nat)
    requires Followed(fat, s, p, w) && IsCluster(fat, w) && w !in Elements(p)
    ensures Followed(fat, s, p + [w], fat[w])
    ensures Elements(p + [w]) == Elements(p) + {w}
  {
    var q := p + [w];
    forall x | x in Elements(p) + {w} ensures x in Elements(q) {
      if x == w {
        assert q[|p|] == x;
      } else {
        var i :| 0 <= i < |p| && p[i] == x;
        assert q[i] == x;
      }
    }
  }

  /** Two paths from the same cluster agree as far as both go. */
  lemma {:induction false} PathsAgree(fat: seq<nat>, p: seq<nat>, q: seq<nat>, i: nat)
    requires IsPath(fat, p) && IsPath(fat, q) && i < |p| && i < |q| && p[0] == q[0]
    ensures p[i] == q[i]
  {
    if i > 0 {
      PathsAgree(fat, p, q, i - 1);
      assert fat[p[i - 1]] == p[i] && fat[q[i - 1]] == q[i];
    }
  }

  /** Any longer path from `s` goes on with `w`. */
  lemma FollowedAlong(fat: seq<nat>, s: nat, p: seq<nat>, w: nat, q: seq<nat>)
    requires Followed(fat, s, p, w) && IsPath(fat, q) && |q| > |p| && q[0] == s
    ensures q[|p|] == w && forall x :: x in Elements(p) ==> x in Elements(q[..|p|])
  {
    forall i | 0 <= i < |p| ensures p[i] == q[i] { PathsAgree(fat, p, q, i); }
    forall x | x in Elements(p) ensures x in Elements(q[..|p|]) {
      var i :| 0 <= i < |p| && p[i] == x;
      assert q[..|p|][i] == x;
    }
    if |p| > 0 { assert fat[q[|p| - 1]] == q[|p|]; }
  }

  /** A link to a marked cluster, or to one that has been visited, rules out both kinds of success. */
  lemma ConflictRejects(fat: seq<nat>, end: nat, s: nat, p: seq<nat>, w: nat, marks: set<nat>)
    requires |fat| >= 2 && end >= |fat| && Followed(fat, s, p, w) && w < |fat| && |p| < |fat| - 2
    requires w in marks || w in Elements(p)
    ensures !EndsUnmarked(fat, end, s, marks) && !Loops(fat, s, marks)
  {
    if Ends(fat, end, s) {
      var q := Chain(fat, end, s);
      ChainNoRepeat(fat, end, s, q);
      LongEnough(fat, end, s, p, w);
      FollowedAlong(fat, s, p, w, q);
      assert w in Elements(q);
    }
    forall q | VisitsAll(fat, s, q) ensures !(Elements(q) !! marks) {
      FollowedAlong(fat, s, p, w, q);
      assert w in Elements(q);
    }
  }

  /** A chain goes on as long as there is no end mark. */
  lemma LongEnough(fat: seq<nat>, end: nat, s: nat, p: seq<nat>, w: nat)
    requires end >= |fat| && Followed(fat, s, p, w) && w != end && Ends(fat, end, s)
    ensures |Chain(fat, end, s)| > |p|
  {
    var q := Chain(fat, end, s);
    if |p| > 0 {
      PathPrefix(fat, end, s, p, q, |p| - 1);
    }
  }

  /** A link to cluster 0 or 1 rules out both kinds of success. */
  lemma DeadEndRejects(fat: seq<nat>, end: nat, s: nat, p: seq<nat>, w: nat, marks: set<nat>)
    requires |fat| >= 2 && end >= |fat| && Followed(fat, s, p, w) && p != [] && w < 2
    ensures !EndsUnmarked(fat, end, s, marks) && !Loops(fat, s, marks)
  {
    if Ends(fat, end, s) {
      LongEnough(fat, end, s, p, w);
      FollowedAlong(fat, s, p, w, Chain(fat, end, s));
    }
    forall q | VisitsAll(fat, s, q) ensures false {
      PathLength(fat, p);
      if |q| > |p| {
        FollowedAlong(fat, s, p, w, q);
      } else {
        PathsAgree(fat, p, q, |q| - 1);
      }
    }
  }

  /** Reaching the end mark. */
  lemma EndReached(fat: seq<nat>, end: nat, s: nat, p: seq<nat>)
    requires end >= |fat| && Followed(fat, s, p, end) && p != []
    ensures Ends(fat, end, s) && Chain(fat, end, s) == p && Clusters(fat, end, s) == Elements(p)
  {
    assert IsChain(fat, end, s, p);
    ChainUnique(fat, end, s, p, Chain(fat, end, s));
  }

  /** Running out of clusters without an end. */
  lemma AllVisited(fat: seq<nat>, end: nat, s: nat, p: seq<nat>, w: nat, marks: set<nat>)
    requires |fat| >= 3 && end >= |fat| && Followed(fat, s, p, w) && |p| == |fat| - 2 && IsCluster(fat, w)
    requires Elements(p) !! marks
    ensures Loops(fat, s, marks) && !Ends(fat, end, s)
    ensures forall c: nat :: c in Elements(p) <==> IsCluster(fat, c)
  {
    assert VisitsAll(fat, s, p);
    PathLength(fat, p);
    if Ends(fat, end, s) {
      var q := Chain(fat, end, s);
      LongEnough(fat, end, s, p, w);
      ChainNoRepeat(fat, end, s, q);
      PathLength(fat, q);
    }
  }

  // ------------------------------------------------------------------ what checking one chain may result in

  /** Result of checking the chain from `s`: the number of clusters that have been marked, or -1 and no
      change. A path through all clusters that never ends passes as well. */
  ghost predicate Checked(fat: seq<nat>, end: nat, s: nat, marks: set<nat>, count: int, marks': set<nat>) {
    if s == 0 then count == 0 && marks' == marks
    else if EndsUnmarked(fat, end, s, marks)
      then count == |Chain(fat, end, s)| && marks' == marks + Clusters(fat, end, s)
    else if Loops(fat, s, marks)
      then count == |fat| - 1 && forall c: nat :: c in marks' <==> c in marks || IsCluster(fat, c)
    else count == -1 && marks' == marks
  }

  /** A FAT for the clusters 2..n on one ring: each links to the next one, and the last to the first. */
  function RingFat(n: nat): (fat: seq<nat>)
    ensures |fat| == n + 1
  {
    seq(n + 1, c => if c < 2 then 0xfff8 else if c < n then c + 1 else 2)
  }

  /** The exception occurs on volumes of every size: a ring of all clusters passes as a file of `n` clusters. */
  lemma LoopPasses(n: nat, fat32: bool)
    requires 2 <= n < EndMark(fat32)
    ensures var fat := RingFat(n);
            && WellFormed(fat, EndMark(fat32)) && !Ends(fat, EndMark(fat32), 2)
            && Checked(fat, EndMark(fat32), 2, {0, 1}, n, Elements(seq(n + 1, c => c)))
  {
    hide *;
    RingFollowed(n, fat32);
    AllVisited(RingFat(n), EndMark(fat32), 2, RingPath(n), 2, {0, 1});
    RingChecked(n, fat32);
  }

  function RingPath(n: nat): seq<nat>
    requires n >= 2
  {
    seq(n - 1, i => i + 2)
  }

  lemma RingFollowed(n: nat, fat32: bool)
    requires 2 <= n < EndMark(fat32)
    ensures var fat, p := RingFat(n), RingPath(n);
            && WellFormed(fat, EndMark(fat32)) && 3 <= |fat| <= EndMark(fat32) && IsCluster(fat, 2)
            && Followed(fat, 2, p, 2) && |p| == |fat| - 2 && Elements(p) !! {0, 1}
  {
    hide EndMark;
  }

  lemma RingChecked(n: nat, fat32: bool)
    requires 2 <= n < EndMark(fat32) && Loops(RingFat(n), 2, {0, 1}) && !Ends(RingFat(n), EndMark(fat32), 2)
    ensures Checked(RingFat(n), EndMark(fat32), 2, {0, 1}, n, Elements(seq(n + 1, c => c)))
  {
    hide EndMark, Loops, Ends, Clusters;
    var all := seq(n + 1, c => c);
    forall c: nat ensures c in Elements(all) <==> c <= n {
      if c <= n { assert all[c] == c; }
    }
  }

  lemma CheckedOutside(fat: seq<nat>, end: nat, s: nat, marks: set<nat>)
    requires |fat| > 0 && s >= |fat|
    ensures Checked(fat, end, s, marks, -1, marks)
  {
  }

  lemma CheckedConflict(fat: seq<nat>, end: nat, s: nat, p: seq<nat>, w: nat, marks: set<nat>)
    requires |fat| >= 2 && end >= |fat| && Followed(fat, s, p, w) && w < |fat| && |p| < |fat| - 2 && s != 0
    requires w in marks || w in Elements(p)
    ensures Checked(fat, end, s, marks, -1, marks)
  {
    ConflictRejects(fat, end, s, p, w, marks);
  }

  lemma CheckedDeadEnd(fat: seq<nat>, end: nat, s: nat, p: seq<nat>, w: nat, marks: set<nat>)
    requires |fat| >= 2 && end >= |fat| && Followed(fat, s, p, w) && p != [] && w < 2 && s != 0
    ensures Checked(fat, end, s, marks, -1, marks)
  {
    DeadEndRejects(fat, end, s, p, w, marks);
  }

  lemma CheckedEnd(fat: seq<nat>, end: nat, s: nat, p: seq<nat>, marks: set<nat>)
    requires end >= |fat| && Followed(fat, s, p, end) && p != [] && Elements(p) !! marks && s != 0
    ensures Checked(fat, end, s, marks, |p|, marks + Elements(p))
  {
    EndReached(fat, end, s, p);
  }

  lemma CheckedAll(fat: seq<nat>, end: nat, s: nat, p: seq<nat>, w: nat, marks: set<nat>)
    requires |fat| >= 3 && end >= |fat| && Followed(fat, s, p, w) && |p| >= |fat| - 2 && IsCluster(fat, w)
    requires Elements(p) !! marks && s != 0
    ensures Checked(fat, end, s, marks, |fat| - 1, marks + Elements(p)) && |p| == |fat| - 2
  {
    PathLength(fat, p);
    AllVisited(fat, end, s, p, w, marks);
  }

  /** Taking marks back. */
  lemma TakenBack(marks: set<nat>, p: seq<nat>)
    requires Elements(p) !! marks
    ensures marks + Elements(p) - Elements(p[..|p|]) == marks
  {
    assert p[..|p|] == p;
  }

  /** If some entry is not a link, checking a chain succeeds exactly if it ends and is unmarked. */
  lemma CheckedWithStop(fat: seq<nat>, end: nat, s: nat, marks: set<nat>, count: int, marks': set<nat>)
    requires |fat| >= 3 && HasStop(fat) && Checked(fat, end, s, marks, count, marks') && s != 0
    ensures if EndsUnmarked(fat, end, s, marks)
            then count == |Chain(fat, end, s)| > 0 && marks' == marks + Clusters(fat, end, s)
            else count == -1 && marks' == marks
  {
    forall p ensures !VisitsAll(fat, s, p) { StopPreventsLoop(fat, s, p); }
  }
}
