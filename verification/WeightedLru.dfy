/** The weighted list of least recently used entries (media/common/wlru.cpp and wlru.h): where an entry is inserted, and
    why the window keeps every entry from being passed over for ever. */
module WeightedLru {
  import opened Division
  import opened DoubleLists

  // ------------------------------------------------------------------ the scaled weight

  /** Division as in C: towards zero. */
  function Truncated(a: int, d: nat): int
    requires d > 0
  {
    if a >= 0 then Quotient(a, d) else 0 - (Quotient(-a, d) as int)
  }

  /** The divisor that makes a range of `k` weights fit a window. */
  function Divisor(k: int, windowSize: nat): nat {
    if windowSize == 0 then 0 else if k > windowSize then Quotient(k + windowSize - 1, windowSize) else 1
  }

  /** The number of places that an entry is moved from the tail towards the head. */
  function Places(maxWeight: int, divisor: nat, weight: int): int {
    if divisor == 0 then 0 else Truncated(maxWeight - weight, divisor)
  }

  /** All weights in range are moved by at most the window's size; the largest weight is not moved, and a weight
      above it not towards the head either. */
  lemma PlacesInWindow(minWeight: int, maxWeight: int, windowSize: nat, weight: int)
    requires minWeight <= weight && minWeight <= maxWeight
    ensures var p := Places(maxWeight, Divisor(maxWeight - minWeight, windowSize), weight);
            p <= windowSize && (weight <= maxWeight ==> p >= 0) && (weight >= maxWeight ==> p <= 0)
  {
    var k, d := maxWeight - minWeight, Divisor(maxWeight - minWeight, windowSize);
    if windowSize > 0 {
      EnoughPlaces(k, windowSize);
      if weight <= maxWeight { QuotientAtMost(maxWeight - weight, d, windowSize); }
      if weight == maxWeight { DivModUnique(0, d, 0, 0); }
    }
  }

  /** A larger weight never brings an entry closer to the head. */
  lemma HeavierNotFurther(minWeight: int, maxWeight: int, windowSize: nat, light: int, heavy: int)
    requires minWeight <= maxWeight && light <= heavy
    ensures var d := Divisor(maxWeight - minWeight, windowSize);
            Places(maxWeight, d, heavy) <= Places(maxWeight, d, light)
  {
    var d := Divisor(maxWeight - minWeight, windowSize);
    if d > 0 { TruncatedMonotone(maxWeight - heavy, maxWeight - light, d); }
  }

  /** The divided range fits the window. */
  lemma EnoughPlaces(k: nat, m: nat)
    requires m > 0
    ensures Divisor(k, m) > 0 && k <= Divisor(k, m) * m
  {
    if k > m {
      var d := Quotient(k + m - 1, m);
      assert k + m - 1 == d * m + Remainder(k + m - 1, m);
      CancelOrder(1, d, m);
    }
  }

  /** A range of `k` weights, divided by `d`, fits the window. */
  predicate FitsWindow(d: nat, k: int, windowSize: nat) {
    d > 0 && k <= d * windowSize
  }

  /** `d` is the least number that divides the range of `k` weights far enough for the window. */
  ghost predicate IsLeastDivisor(d: nat, k: int, windowSize: nat) {
    FitsWindow(d, k, windowSize) && forall e: nat :: FitsWindow(e, k, windowSize) ==> d <= e
  }

  /** The divisor is rounded up no further than needed. */
  lemma DivisorLeast(k: nat, windowSize: nat)
    requires windowSize > 0
    ensures IsLeastDivisor(Divisor(k, windowSize), k, windowSize)
  {
    var d := Divisor(k, windowSize);
    EnoughPlaces(k, windowSize);
    forall e: nat | FitsWindow(e, k, windowSize) ensures d <= e {
      if e < d && k > windowSize {
        DivMod(k + windowSize - 1, windowSize);
        OneMore(e, windowSize);
        KeepOrder(e + 1, d, windowSize);
      }
    }
  }

  /** `p` is the weight's distance `a` from the largest one, divided by `d` and rounded down. */
  predicate IsPlaces(p: nat, d: nat, a: int) {
    p * d <= a < (p + 1) * d
  }

  lemma PlacesExact(maxWeight: int, d: nat, weight: int)
    requires d > 0 && weight <= maxWeight
    ensures var p := Places(maxWeight, d, weight); p >= 0 && IsPlaces(p, d, maxWeight - weight)
  {
    DivMod(maxWeight - weight, d);
    OneMore(Places(maxWeight, d, weight), d);
  }

  lemma QuotientAtMost(a: nat, d: nat, m: nat)
    requires d > 0 && a <= d * m
    ensures Quotient(a, d) <= m
  {
    assert a == Quotient(a, d) * d + Remainder(a, d);
    CancelOrder(Quotient(a, d), m, d);
  }

  lemma TruncatedMonotone(a: int, b: int, d: nat)
    requires d > 0 && a <= b
    ensures Truncated(a, d) <= Truncated(b, d)
  {
    if a >= 0 {
      DivMonotone(a, b, d);
    } else if b < 0 {
      DivMonotone(-b, -a, d);
    }
  }

  // ------------------------------------------------------------------ the list

  /** The index at which an entry is inserted into a list of `n`: invalid entries at the head, others up to `places`
      before the tail. */
  function InsertIndex(n: nat, valid: bool, places: int): (i: nat)
    ensures i <= n
  {
    if !valid || places >= n then 0 else if places <= 0 then n else n - places
  }

  /** An entry is inserted, invalid or up to some places before the tail; the entry at an index is taken out; or an
      entry is put back as the oldest. */
  datatype Event<T> = Insertion(entry: T, valid: bool, places: int) | Removal(index: nat) | PutBack(entry: T)

  ghost function After<T>(s: seq<T>, e: Event<T>): (r: seq<T>)
  {
    match e
    case Insertion(x, valid, places) =>
      var k := InsertIndex(|s|, valid, places);
      s[..k] + [x] + s[k..]
    case Removal(k) => if k < |s| then s[..k] + s[k + 1..] else s
    case PutBack(x) => [x] + s
  }

  /** `x` has been inserted at index `k`. */
  ghost predicate InsertedInto<T>(before: seq<T>, after: seq<T>, x: T, k: int) {
    0 <= k <= |before| && after == before[..k] + [x] + before[k..]
  }

  /** Where a node lands: an invalid one at the head; one with the largest weight or above, or without a window, at the
      tail; any other as many places before the tail as its distance from the largest weight divided by the least
      number that makes the weights fit the window, or at the head if the list is shorter. */
  ghost predicate Lands(before: seq<Node>, after: seq<Node>, node: Node, minWeight: int, maxWeight: int,
      windowSize: nat)
  {
    && (!node.valid ==> InsertedInto(before, after, node, 0))
    && (node.valid && (windowSize == 0 || node.weight >= maxWeight) ==> InsertedInto(before, after, node, |before|))
    && (node.valid && windowSize > 0 && node.weight <= maxWeight ==>
         exists d: nat, p: nat :: LandsBefore(before, after, node, minWeight, maxWeight, windowSize, d, p))
  }

  ghost predicate LandsBefore(before: seq<Node>, after: seq<Node>, node: Node, minWeight: int, maxWeight: int,
      windowSize: nat, d: nat, p: nat)
  {
    && IsLeastDivisor(d, maxWeight - minWeight, windowSize) && IsPlaces(p, d, maxWeight - node.weight)
    && InsertedInto(before, after, node, if p < |before| then |before| - p else 0)
  }

  lemma InsertionLands(before: seq<Node>, node: Node, minWeight: int, maxWeight: int, windowSize: nat)
    requires minWeight <= maxWeight
    ensures var d := Divisor(maxWeight - minWeight, windowSize);
            Lands(before, After(before, InsertionOf(maxWeight, d, node)), node, minWeight, maxWeight, windowSize)
  {
    hide IsLeastDivisor, IsPlaces, Truncated;
    var k, d := maxWeight - minWeight, Divisor(maxWeight - minWeight, windowSize);
    var p := Places(maxWeight, d, node.weight);
    assert before[..|before|] == before && before[|before|..] == [];
    if windowSize > 0 {
      EnoughPlaces(k, windowSize);
      DivisorLeast(k, windowSize);
      NotTowardsHead(maxWeight, d, node.weight);
      if node.valid && node.weight <= maxWeight {
        PlacesExact(maxWeight, d, node.weight);
        var after := After(before, InsertionOf(maxWeight, d, node));
        assert LandsBefore(before, after, node, minWeight, maxWeight, windowSize, d, p);
      }
    }
  }

  lemma NotTowardsHead(maxWeight: int, d: nat, weight: int)
    requires d > 0
    ensures weight >= maxWeight ==> Places(maxWeight, d, weight) <= 0
  {
    if weight == maxWeight { DivModUnique(0, d, 0, 0); }
  }

  /** Inserting a node. */
  function InsertionOf(maxWeight: int, divisor: nat, node: Node): Event<Node> {
    Insertion(node, node.valid, Places(maxWeight, divisor, node.weight))
  }

  /** WeightedLRUList; the list that it extends is a part of it here. */
  class WeightedLruList {
    const list: DoubleList
    const maxWeight: int
    const scaleNumerator: nat
    const scaleDenominator: nat

    ghost predicate Valid(minWeight: int, windowSize: nat)
      reads list, list.Members()
    {
      && list.Valid() && minWeight <= maxWeight
      && scaleDenominator == Divisor(maxWeight - minWeight, windowSize) &&
         (scaleDenominator > 0 ==> scaleNumerator == 1)
    }

    constructor (minWeight: int, maxWeight: int, windowSize: nat)
      requires minWeight <= maxWeight
      ensures Valid(minWeight, windowSize) && this.maxWeight == maxWeight && list.nodes == [] && fresh(list)
      ensures if windowSize == 0 then scaleDenominator == 0
              else IsLeastDivisor(scaleDenominator, maxWeight - minWeight, windowSize)
    {
      if windowSize > 0 { DivisorLeast(maxWeight - minWeight, windowSize); }
      list := new DoubleList();
      this.maxWeight := maxWeight;
      var numerator, denominator := 1, 1;
      if windowSize == 0 {
        numerator := 0;
        denominator := 0;
      } else {
        var k := maxWeight - minWeight;
        if k > windowSize {
          denominator := Quotient(k + windowSize - 1, windowSize);
        }
      }
      scaleNumerator, scaleDenominator := numerator, denominator;
    }

    /** insert: the entry lands at the index that its weight gives it, and all others keep their order. */
    method Insert(node: Node, ghost minWeight: int, ghost windowSize: nat)
      requires Valid(minWeight, windowSize) && node !in list.nodes
      modifies list, list.Members(), node
      ensures Valid(minWeight, windowSize)
      ensures list.nodes == After(old(list.nodes), InsertionOf(maxWeight, scaleDenominator, node))
      ensures Lands(old(list.nodes), list.nodes, node, minWeight, maxWeight, windowSize)
    {
      hide Lands, Places, Divisor;
      ghost var before := list.nodes;
      InsertionLands(before, node, minWeight, maxWeight, windowSize);
      var insertPos;
      ghost var k;
      insertPos, k := InsertPosition(node, minWeight, windowSize);
      list.InsertAfter(node, insertPos);
    }

    /** The node behind which an entry is inserted, or none if that is at the head. */
    method InsertPosition(node: Node, ghost minWeight: int, ghost windowSize: nat) returns (pos: Node?, ghost k: nat)
      requires Valid(minWeight, windowSize)
      ensures k == InsertIndex(|list.nodes|, node.valid, Places(maxWeight, scaleDenominator, node.weight))
      ensures (pos == null || pos in list.nodes) && k == list.After(pos)
    {
      ghost var n := |list.nodes|;
      k := 0;
      if !node.valid {
        pos := null;
      } else {
        pos := list.tail;
        k := n;
        if scaleDenominator > 0 {
          var ki := Truncated((maxWeight - node.weight) * scaleNumerator, scaleDenominator);
          var i := 0;
          while pos != null && i < ki
            invariant 0 <= i <= n && k == n - i && (i <= ki || i == 0)
            invariant pos == (if k > 0 then list.nodes[k - 1] else null)
            decreases n - i
          {
            assert list.Linked(k - 1);
            pos := pos.prev;
            i := i + 1;
            k := k - 1;
          }
        }
      }
    }

    /** select: the oldest entry is taken from the list. */
    method Select(ghost minWeight: int, ghost windowSize: nat) returns (node: Node?)
      requires Valid(minWeight, windowSize)
      modifies list, list.Members()
      ensures Valid(minWeight, windowSize)
      ensures node == (if old(list.nodes) == [] then null else old(list.nodes)[0])
      ensures list.nodes == After(old(list.nodes), Removal(0))
    {
      node := list.head;
      if node != null {
        list.Remove(node);
      }
    }

    /** select with a matcher: the oldest entry that matches is taken from the list. */
    method SelectMatch(matches: Node -> bool, ghost minWeight: int, ghost windowSize: nat) returns (node: Node?)
      requires Valid(minWeight, windowSize)
      modifies list, list.Members()
      ensures Valid(minWeight, windowSize)
      ensures node == null ==> list.nodes == old(list.nodes) && forall x :: x in list.nodes ==> !matches(x)
      ensures node != null ==> exists k ::
              0 <= k < |old(list.nodes)| && IsFirstMatch(matches, old(list.nodes), k) && node == old(list.nodes)[k] &&
                list.nodes == After(old(list.nodes), Removal(k))
    {
      hide Divisor;
      var it := list.head;
      ghost var i := 0;
      ghost var nodes := list.nodes;
      while it != null
        invariant 0 <= i <= |nodes| && list.nodes == nodes && it == (if i < |nodes| then nodes[i] else null)
        invariant Valid(minWeight, windowSize) && forall j :: 0 <= j < i ==> !matches(nodes[j])
        decreases |nodes| - i
      {
        if matches(it) {
          assert i == list.After(it) - 1 && IsFirstMatch(matches, nodes, i);
          list.Remove(it);
          return it;
        }
        assert list.Linked(i);
        it := it.next;
        i := i + 1;
      }
      return null;
    }

    /** deselect: an entry is put back as the oldest one. */
    method Deselect(node: Node, ghost minWeight: int, ghost windowSize: nat)
      requires Valid(minWeight, windowSize) && node !in list.nodes
      modifies list, list.Members(), node
      ensures Valid(minWeight, windowSize) && list.nodes == After(old(list.nodes), PutBack(node))
    {
      list.InsertFront(node);
    }
  }

  ghost predicate IsFirstMatch(matches: Node -> bool, s: seq<Node>, k: nat) {
    k < |s| && matches(s[k]) && forall j :: 0 <= j < k ==> !matches(s[j])
  }

  // ------------------------------------------------------------------ runs

  ghost function Run<T>(s: seq<T>, events: seq<Event<T>>): seq<T>
    decreases |events|
  {
    if events == [] then s else Run(After(s, events[0]), events[1..])
  }

  /** No event inserts a valid entry more than `windowSize` places before the tail. */
  ghost predicate InWindow<T>(events: seq<Event<T>>, windowSize: nat) {
    forall i :: 0 <= i < |events| && events[i].Insertion? ==> events[i].places <= windowSize
  }

  /** Insertions of nodes with weights in range are such events. */
  lemma NodesInWindow(minWeight: int, maxWeight: int, windowSize: nat, events: seq<Event<Node>>)
    requires minWeight <= maxWeight
    requires forall i :: 0 <= i < |events| && events[i].Insertion? ==>
               events[i].entry.weight >= minWeight &&
                 events[i] == InsertionOf(maxWeight, Divisor(maxWeight - minWeight, windowSize), events[i].entry)
    ensures InWindow(events, windowSize)
  {
    forall i | 0 <= i < |events| && events[i].Insertion? ensures events[i].places <= windowSize {
      PlacesInWindow(minWeight, maxWeight, windowSize, events[i].entry.weight);
    }
  }

  /** Where the entry at index `j` is after one event, or -1 if it has been taken out: valid insertions do not move
      it, entries that enter at the head and entries taken out before it do. */
  function Moved<T>(j: nat, e: Event<T>): (k: int)
    ensures k >= -1
  {
    match e
    case Insertion(_, valid, _) => if valid then j else j + 1
    case PutBack(_) => j + 1
    case Removal(k) => if k == j then -1 else if k < j then j - 1 else j
  }

  /** Where it is after all events, computed without the list. */
  function Track<T>(j: int, events: seq<Event<T>>): int
    decreases |events|
  {
    if j < 0 || events == [] then j else Track(Moved(j, events[0]), events[1..])
  }

  /** The removals that may take an entry from behind it. */
  function RemovedBehind<T>(j: int, events: seq<Event<T>>): (n: nat)
    decreases |events|
  {
    if j < 0 || events == [] then 0
    else RemovedBehind(Moved(j, events[0]), events[1..]) + if events[0].Removal? && events[0].index > j then 1 else 0
  }

  /** One event does not bring an entry out of its order, provided that there are enough entries behind it. */
  lemma NotOvertaken<T>(s: seq<T>, j: nat, windowSize: nat, e: Event<T>)
    requires j + windowSize < |s| && (e.Insertion? ==> e.places <= windowSize) && Moved(j, e) >= 0
    ensures var r, k := After(s, e), Moved(j, e);
            k < |r| && r[k] == s[j] && |r| - k >= |s| - j - if e.Removal? && e.index > j then 1 else 0
  {
    match e
    case Insertion(x, valid, places) =>
    case PutBack(x) =>
    case Removal(k) =>
  }

  /** An entry that keeps at least `windowSize` entries behind it is never overtaken by a valid insertion: until it
      is taken out, it is where the removals before it and the entries put in at the head have moved it. */
  lemma {:induction false} NeverOvertaken<T>(s: seq<T>, j: nat, windowSize: nat, events: seq<Event<T>>)
    requires j + windowSize + RemovedBehind(j, events) < |s| && InWindow(events, windowSize) && Track(j, events) >= 0
    ensures var r, k := Run(s, events), Track(j, events); k + windowSize < |r| && r[k] == s[j]
    decreases |events|
  {
    hide After;
    if events != [] {
      var e, rest := events[0], events[1..];
      assert forall i :: 0 <= i < |rest| ==> rest[i] == events[i + 1];
      NotOvertaken(s, j, windowSize, e);
      NeverOvertaken(After(s, e), Moved(j, e), windowSize, rest);
    }
  }

  /** Runs that only insert valid entries and select the oldest. */
  ghost predicate Ordinary<T>(events: seq<Event<T>>) {
    forall i :: 0 <= i < |events| ==> if events[i].Insertion? then events[i].valid else events[i] == Removal(0)
  }

  function Selections<T>(events: seq<Event<T>>): nat {
    if events == [] then 0 else Selections(events[1..]) + if events[0].Removal? then 1 else 0
  }

  lemma {:induction false} OrdinaryTrack<T>(j: nat, events: seq<Event<T>>)
    requires Ordinary(events) && Selections(events) <= j
    ensures Track(j, events) == j - Selections(events) && RemovedBehind(j, events) == 0
    decreases |events|
  {
    if events != [] {
      var rest := events[1..];
      assert forall i :: 0 <= i < |rest| ==> rest[i] == events[i + 1];
      assert Ordinary(rest);
      OrdinaryTrack(if events[0].Removal? then j - 1 else j, rest);
    }
  }

  /** In such a run an entry with a full window behind it is selected by the selection after those of the entries
      before it, whatever is inserted meanwhile. With a window of 0 this holds for every entry: the list is a queue. */
  lemma SelectedInTurn<T>(s: seq<T>, j: nat, windowSize: nat, events: seq<Event<T>>)
    requires j + windowSize < |s| && InWindow(events, windowSize) && Ordinary(events) && Selections(events) == j
    ensures Run(s, events) != [] && Run(s, events)[0] == s[j]
  {
    OrdinaryTrack(j, events);
    NeverOvertaken(s, j, windowSize, events);
  }

  /** The window is needed: with one entry fewer behind it, an entry can be overtaken without end. */
  lemma {:induction false} OvertakenForEver<T>(s: seq<T>, j: nat, windowSize: nat, x: T, n: nat)
    requires windowSize > 0 && j + windowSize == |s|
    ensures var r := Run(s, Repeated(x, windowSize, n)); |r| == |s| + n && r[j + n] == s[j]
    decreases n
  {
    if n > 0 {
      var e := Insertion(x, true, windowSize);
      assert Repeated(x, windowSize, n) == [e] + Repeated(x, windowSize, n - 1);
      assert After(s, e)[j + 1] == s[j];
      OvertakenForEver(After(s, e), j + 1, windowSize, x, n - 1);
    }
  }

  function Repeated<T>(x: T, places: int, n: nat): (e: seq<Event<T>>)
    ensures |e| == n
  {
    if n == 0 then [] else [Insertion(x, true, places)] + Repeated(x, places, n - 1)
  }
}
