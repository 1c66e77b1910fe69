/**
 How far the limit on the search reaches over one level of leaves with keys of
 their own: nothing is missed exactly as long as the subsets with the first
 leaf in them are within the limit.
 */
module SearchLimit {
  import FiniteSets
  import opened Results
  import opened Combination
  import opened Custody
  import opened Selection
  import opened Recovery
  import opened Completeness
  import opened PolicyMisses

  // ---- the subsets with the first element -------------------------------------------------

  function Lift(e: seq<nat>): (d: seq<nat>)
    ensures |d| == |e| + 1 && d[0] == 0 && forall i :: 0 <= i < |e| ==> d[i + 1] == e[i] + 1
  {
    [0] + seq(|e|, i requires 0 <= i < |e| => e[i] + 1)
  }

  function LiftAll(s: set<seq<nat>>): set<seq<nat>> {
    set e | e in s :: Lift(e)
  }

  lemma LiftOnce(e: seq<nat>, e': seq<nat>)
    requires Lift(e) == Lift(e')
    ensures e == e'
  {
    assert |e| == |e'|;
    forall i | 0 <= i < |e|
      ensures e[i] == e'[i]
    {
      assert Lift(e)[i + 1] == Lift(e')[i + 1];
    }
  }

  lemma {:induction false} LiftAllSize(s: set<seq<nat>>)
    ensures |LiftAll(s)| == |s|
  {
    if s == {} {
      assert LiftAll(s) == {};
    } else {
      var e :| e in s;
      LiftAllSize(s - {e});
      assert LiftAll(s) == LiftAll(s - {e}) + {Lift(e)};
      forall e' | e' in s - {e}
        ensures Lift(e') != Lift(e)
      {
        if Lift(e') == Lift(e) { LiftOnce(e', e); }
      }
    }
  }

  /** The combinations that begin with the first element. */
  function WithFirst(n: nat, t: nat): set<seq<nat>>
    requires n >= 1 && t >= 1
  {
    LiftAll(Combinations(n - 1, t - 1))
  }

  lemma LiftedIsCandidate(e: seq<nat>, n: nat)
    requires n >= 1 && IsCombination(e, n - 1)
    ensures IsCombination(Lift(e), n)
  {
    var c := Lift(e);
    forall i, j | 0 <= i < j < |c|
      ensures c[i] < c[j]
    {
      assert c[j] == e[j - 1] + 1;
      if i > 0 {
        assert c[i] == e[i - 1] + 1;
      }
    }
    forall i | 0 <= i < |c|
      ensures c[i] < n
    {
      if i > 0 {
        assert c[i] == e[i - 1] + 1;
      }
    }
  }

  lemma Lowered(c: seq<nat>, n: nat) returns (e: seq<nat>)
    requires c != [] && IsCombination(c, n) && c[0] == 0
    ensures |e| == |c| - 1 && IsCombination(e, n - 1) && Lift(e) == c
  {
    e := seq(|c| - 1, i requires 0 <= i < |c| - 1 => (assert c[0] < c[i + 1]; c[i + 1] - 1));
  }

  lemma InWithFirst(n: nat, t: nat, c: seq<nat>)
    requires n >= 1 && t >= 1
    ensures c in WithFirst(n, t) <==> Candidate(c, n, t) && c[0] == 0
  {
    hide Combinations, IsCombination;
    if c in WithFirst(n, t) {
      var e :| e in Combinations(n - 1, t - 1) && c == Lift(e);
      CombinationsAreAll(n - 1, t - 1, e);
      LiftedIsCandidate(e, n);
    }
    if Candidate(c, n, t) && c[0] == 0 {
      var e := Lowered(c, n);
      CombinationsAreAll(n - 1, t - 1, e);
    }
  }

  lemma WithFirstSize(n: nat, t: nat)
    requires n >= 1 && t >= 1
    ensures |WithFirst(n, t)| == Binomial(n - 1, t - 1)
  {
    hide Combinations, LiftAll, Binomial;
    LiftAllSize(Combinations(n - 1, t - 1));
    CombinationCount(n - 1, t - 1);
  }

  /** Only combinations with the first element come before one that has it. */
  lemma FirstIsReached(n: nat, t: nat, c: seq<nat>)
    requires t >= 1 && Candidate(c, n, t) && c[0] == 0 && Binomial(n - 1, t - 1) <= SEARCH_LIMIT
    ensures Reached(c, n, t)
  {
    assert forall d :: d in Before(n, t, c) ==> d in Combinations(n, t) && LexLess(d, c);
    if LexLess(c, c) {
      LexAsymmetric(c, c);
    }
    hide Combinations, WithFirst, IsCombination, Binomial;
    forall d | d in Before(n, t, c)
      ensures d in WithFirst(n, t)
    {
      CombinationsAreAll(n, t, d);
      var i: nat :| DiffersAt(d, c, i);
      assert d[0] <= c[0];
      InWithFirst(n, t, d);
    }
    InWithFirst(n, t, c);
    WithFirstSize(n, t);
    FiniteSets.ProperSubsetSize(Before(n, t, c), WithFirst(n, t), c);
  }

  // ---- single leaves -----------------------------------------------------------------------

  /** One leaf each, every one with a key of its own. */
  ghost predicate OwnKeys(parts: seq<seq<UsedLeaf>>) {
    && (forall i :: 0 <= i < |parts| ==> |parts[i]| == 1)
    && forall i, j :: 0 <= i < j < |parts| ==> parts[i][0].hardware != parts[j][0].hardware
  }

  /** And none a ghost. */
  ghost predicate Singles(p: Policy, parts: seq<seq<UsedLeaf>>) {
    OwnKeys(parts) && forall i :: 0 <= i < |parts| ==> parts[i][0].hardware !in p.ghosts
  }

  function Device(p: Policy, parts: seq<seq<UsedLeaf>>, i: nat): int
    requires i < |parts| && |parts[i]| == 1
  {
    p.device(parts[i][0].hardware)
  }

  lemma {:induction false} SingleLeaves(p: Policy, parts: seq<seq<UsedLeaf>>, c: seq<nat>)
    requires Singles(p, parts) && IsCombination(c, |parts|)
    ensures |LeavesOf(parts, c)| == |c|
    ensures forall k :: 0 <= k < |c| ==> LeavesOf(parts, c)[k] == parts[c[k]][0]
    decreases |c|
  {
    if c != [] {
      SingleLeaves(p, parts, c[..|c| - 1]);
    }
  }

  /** Each device once. */
  ghost predicate Spread(p: Policy, parts: seq<seq<UsedLeaf>>, c: seq<nat>)
    requires Singles(p, parts) && IsCombination(c, |parts|)
  {
    forall k, l :: 0 <= k < l < |c| ==> Device(p, parts, c[k]) != Device(p, parts, c[l])
  }

  lemma AcceptableSingles(p: Policy, parts: seq<seq<UsedLeaf>>, c: seq<nat>)
    requires Singles(p, parts) && IsCombination(c, |parts|) && c != []
    ensures Acceptable(p, LeavesOf(parts, c)) <==> (p.hardwareMode ==> Spread(p, parts, c))
    ensures forall d :: d in Devices(p, LeavesOf(parts, c)) <==> exists k :: 0 <= k < |c| && Device(p, parts, c[k]) == d
  {
    var leaves := LeavesOf(parts, c);
    SingleLeaves(p, parts, c);
    CrowdedSingles(p, parts, c, leaves);
    DevicesOfSingles(p, parts, c, leaves);
    assert !AnyGhost(p, leaves);
    hide LeavesOf, Crowded, Spread, Devices;
  }

  lemma CrowdedSingles(p: Policy, parts: seq<seq<UsedLeaf>>, c: seq<nat>, leaves: seq<UsedLeaf>)
    requires Singles(p, parts) && IsCombination(c, |parts|)
    requires |leaves| == |c| && forall k :: 0 <= k < |c| ==> leaves[k] == parts[c[k]][0]
    ensures Crowded(p, leaves) <==> !Spread(p, parts, c)
  {
    if Crowded(p, leaves) {
      var i, j :| 0 <= i < |leaves| && 0 <= j < |leaves|
        && p.device(leaves[i].hardware) == p.device(leaves[j].hardware) && leaves[i].hardware != leaves[j].hardware;
      var (k, l) := if i < j then (i, j) else (j, i);
      assert Device(p, parts, c[k]) == Device(p, parts, c[l]);
    }
    if !Spread(p, parts, c) {
      var k, l :| 0 <= k < l < |c| && Device(p, parts, c[k]) == Device(p, parts, c[l]);
      assert leaves[k].hardware != leaves[l].hardware;
    }
  }

  lemma DevicesOfSingles(p: Policy, parts: seq<seq<UsedLeaf>>, c: seq<nat>, leaves: seq<UsedLeaf>)
    requires Singles(p, parts) && IsCombination(c, |parts|)
    requires |leaves| == |c| && forall k :: 0 <= k < |c| ==> leaves[k] == parts[c[k]][0]
    ensures forall d :: d in Devices(p, leaves) <==> exists k :: 0 <= k < |c| && Device(p, parts, c[k]) == d
  {
    forall d | exists k :: 0 <= k < |c| && Device(p, parts, c[k]) == d
      ensures d in Devices(p, leaves)
    {
      var k :| 0 <= k < |c| && Device(p, parts, c[k]) == d;
      assert leaves[k] in leaves;
    }
    forall d | d in Devices(p, leaves)
      ensures exists k :: 0 <= k < |c| && Device(p, parts, c[k]) == d
    {
      var l :| l in leaves && p.device(l.hardware) == d;
      var k :| 0 <= k < |leaves| && leaves[k] == l;
      assert Device(p, parts, c[k]) == d;
    }
  }

  /** The first part put in place of part `k`. */
  function Swapped(c: seq<nat>, k: nat): seq<nat>
    requires k < |c|
  {
    [0] + c[..k] + c[k + 1..]
  }

  lemma SwappedIsCandidate(c: seq<nat>, n: nat, k: nat)
    requires IsCombination(c, n) && k < |c| && c[0] > 0
    ensures IsCombination(Swapped(c, k), n) && |Swapped(c, k)| == |c| && Swapped(c, k)[0] == 0
    ensures forall i :: 0 < i < |c| ==> Swapped(c, k)[i] == if i <= k then c[i - 1] else c[i]
  {
  }

  /** An acceptable choice without the first leaf can be turned into one with it that has no fewer devices. */
  lemma TakeFirstIn(p: Policy, parts: seq<seq<UsedLeaf>>, c: seq<nat>) returns (c': seq<nat>)
    requires Singles(p, parts) && IsCombination(c, |parts|) && c != [] && Acceptable(p, LeavesOf(parts, c))
    ensures IsCombination(c', |parts|) && |c'| == |c| && c'[0] == 0
    ensures Acceptable(p, LeavesOf(parts, c')) && DeviceCount(p, LeavesOf(parts, c)) <= DeviceCount(p, LeavesOf(parts, c'))
  {
    if c[0] == 0 {
      return c;
    }
    var d0 := Device(p, parts, 0);
    var k: nat := 0;
    if l: nat :| l < |c| && Device(p, parts, c[l]) == d0 {
      k := l;
    }
    c' := Swapped(c, k);
    SwappedIsCandidate(c, |parts|, k);
    AcceptableSingles(p, parts, c);
    AcceptableSingles(p, parts, c');
    if p.hardwareMode {
      SwappedSpread(p, parts, c, k, c');
    }
    SwappedCount(p, parts, c, k, c');
  }

  /** The swap is done where the first leaf's device is, if it is there at all. */
  ghost predicate SwapsDevice(p: Policy, parts: seq<seq<UsedLeaf>>, c: seq<nat>, k: nat)
    requires Singles(p, parts) && IsCombination(c, |parts|) && c != []
  {
    k < |c| && c[0] > 0 &&
    (Device(p, parts, c[k]) == Device(p, parts, 0) || forall l :: 0 <= l < |c| ==> Device(p, parts, c[l]) != Device(p, parts, 0))
  }

  lemma SwappedSpread(p: Policy, parts: seq<seq<UsedLeaf>>, c: seq<nat>, k: nat, c': seq<nat>)
    requires Singles(p, parts) && IsCombination(c, |parts|) && c != [] && SwapsDevice(p, parts, c, k) && c' == Swapped(c, k)
    requires Spread(p, parts, c)
    ensures IsCombination(c', |parts|) && Spread(p, parts, c')
  {
    SwappedIsCandidate(c, |parts|, k);
    hide IsCombination, Singles, OwnKeys, Swapped, Device;
    forall i | 0 < i < |c|
      ensures Device(p, parts, c'[i]) != Device(p, parts, 0)
    {
      var j := if i <= k then i - 1 else i;
      assert c'[i] == c[j] && j != k;
      assert Device(p, parts, c[j]) != Device(p, parts, c[k]);
    }
    forall i, j | 0 <= i < j < |c'|
      ensures Device(p, parts, c'[i]) != Device(p, parts, c'[j])
    {
      if i > 0 {
        var (a, b) := (if i <= k then i - 1 else i, if j <= k then j - 1 else j);
        assert c'[i] == c[a] && c'[j] == c[b] && a < b;
      }
    }
  }

  lemma SwappedCount(p: Policy, parts: seq<seq<UsedLeaf>>, c: seq<nat>, k: nat, c': seq<nat>)
    requires Singles(p, parts) && IsCombination(c, |parts|) && c != [] && SwapsDevice(p, parts, c, k) && c' == Swapped(c, k)
    ensures IsCombination(c', |parts|) && DeviceCount(p, LeavesOf(parts, c)) <= DeviceCount(p, LeavesOf(parts, c'))
  {
    SwappedIsCandidate(c, |parts|, k);
    AcceptableSingles(p, parts, c);
    AcceptableSingles(p, parts, c');
    var (a, b) := (Devices(p, LeavesOf(parts, c)), Devices(p, LeavesOf(parts, c')));
    var (d0, dk) := (Device(p, parts, 0), Device(p, parts, c[k]));
    assert Device(p, parts, c'[0]) == d0;
    assert d0 == dk || forall l :: 0 <= l < |c| ==> Device(p, parts, c[l]) != d0;
    hide Devices, LeavesOf, Singles, IsCombination, SwapsDevice;
    forall d | d in a && d != dk
      ensures d in b
    {
      var l :| 0 <= l < |c| && Device(p, parts, c[l]) == d;
      var i := if l < k then l + 1 else l;
      assert c'[i] == c[l];
    }
    FiniteSets.ExchangeSize(a, b, dk, d0);
  }

  // ---- the first leaf of one device with the others -------------------------------------------

  /** The hardware keys of the first `m` parts. */
  ghost function FirstKeys(parts: seq<seq<UsedLeaf>>, m: nat): set<int>
    requires m <= |parts| && OwnKeys(parts)
  {
    set i | 0 <= i < m :: parts[i][0].hardware
  }

  /** No two keys on one device; the first `m` keys all sit on the first one's. */
  ghost function Stacked(parts: seq<seq<UsedLeaf>>, m: nat): Policy
    requires 1 <= m <= |parts| && OwnKeys(parts)
  {
    var (keys, first) := (FirstKeys(parts, m), parts[0][0].hardware);
    Policy(0, true, {}, h => if h in keys then first else h)
  }

  lemma StackedDevices(parts: seq<seq<UsedLeaf>>, m: nat)
    requires 1 <= m <= |parts| && OwnKeys(parts)
    ensures forall i, j :: 0 <= i < j < |parts| ==>
      (Device(Stacked(parts, m), parts, i) == Device(Stacked(parts, m), parts, j) <==> j < m)
  {
    var p := Stacked(parts, m);
    forall i | 0 <= i < |parts|
      ensures Device(p, parts, i) == if i < m then parts[0][0].hardware else parts[i][0].hardware
    {
      assert i < m ==> parts[i][0].hardware in FirstKeys(parts, m);
    }
  }

  /** A spread choice takes one of the stacked leaves and all the others. */
  lemma SpreadOverStack(parts: seq<seq<UsedLeaf>>, t: nat, c: seq<nat>)
    requires 2 <= t <= |parts| && OwnKeys(parts) && Candidate(c, |parts|, t)
    requires Spread(Stacked(parts, |parts| - t + 1), parts, c)
    ensures forall k :: 1 <= k < t ==> c[k] == |parts| - t + k
  {
    var n := |parts|;
    StackedDevices(parts, n - t + 1);
    assert Device(Stacked(parts, n - t + 1), parts, c[0]) != Device(Stacked(parts, n - t + 1), parts, c[1]);
    forall k | 1 <= k < t
      ensures c[k] == n - t + k
    {
      GrowsFrom(c, 1, k);
      AtMost(c, n, k);
    }
  }

  /** Every choice with the first leaf comes before it, or is it. */
  lemma AllWithFirstBefore(n: nat, t: nat, c: seq<nat>, d: seq<nat>)
    requires 2 <= t <= n && Candidate(c, n, t) && forall k :: 1 <= k < t ==> c[k] == n - t + k
    requires Candidate(d, n, t) && d[0] == 0
    ensures d == c || LexLess(d, c)
  {
    forall k | 0 <= k < t
      ensures d[k] <= c[k]
    {
      AtMost(d, n, k);
    }
    PointwiseAtLeast(d, c);
  }

  lemma StackIsNotReached(n: nat, t: nat, c: seq<nat>)
    requires 2 <= t <= n && Candidate(c, n, t) && forall k :: 1 <= k < t ==> c[k] == n - t + k
    requires Binomial(n - 1, t - 1) > SEARCH_LIMIT
    ensures !Reached(c, n, t)
  {
    forall d | d in WithFirst(n, t) && d != c
      ensures d in Before(n, t, c)
    {
      InWithFirst(n, t, d);
      CombinationsAreAll(n, t, d);
      AllWithFirstBefore(n, t, c, d);
    }
    WithFirstSize(n, t);
    FiniteSets.SubsetSize(WithFirst(n, t) - {c}, Before(n, t, c));
  }

  /** One stacked leaf and all the others: a choice that would do. */
  function LastOnes(n: nat, t: nat): (c: seq<nat>)
    requires 2 <= t <= n
    ensures |c| == t && c[0] == 0 && forall k :: 1 <= k < t ==> c[k] == n - t + k
  {
    [0] + seq(t - 1, k requires 0 <= k < t - 1 => n - t + 1 + k)
  }

  /** Past the limit nothing is found. */
  lemma LimitMisses(parts: seq<seq<UsedLeaf>>, t: nat)
    requires 2 <= t <= |parts| && Binomial(|parts| - 1, t - 1) > SEARCH_LIMIT
    requires OwnKeys(parts)
    ensures Choose(Stacked(parts, |parts| - t + 1), t, parts).None?
  {
    var (n, p) := (|parts|, Stacked(parts, |parts| - t + 1));
    assert Singles(p, parts) && p.hardwareMode;
    hide Stacked, Acceptable, Binomial;
    forall c | Reached(c, n, t)
      ensures !Acceptable(p, LeavesOf(parts, c))
    {
      AcceptableSingles(p, parts, c);
      if Spread(p, parts, c) {
        SpreadOverStack(parts, t, c);
        StackIsNotReached(n, t, c);
      }
    }
    NobodyWins(p, t, parts);
  }

  lemma LastWouldDo(parts: seq<seq<UsedLeaf>>, t: nat)
    requires 2 <= t <= |parts| && OwnKeys(parts)
    ensures Candidate(LastOnes(|parts|, t), |parts|, t)
    ensures Meets(Stacked(parts, |parts| - t + 1), LeavesOf(parts, LastOnes(|parts|, t)))
  {
    var (n, p, last) := (|parts|, Stacked(parts, |parts| - t + 1), LastOnes(|parts|, t));
    assert Singles(p, parts) && p.minimum == 0;
    LastOnesCandidate(n, t);
    StackedDevices(parts, n - t + 1);
    hide Stacked, Acceptable, LastOnes, IsCombination, OwnKeys, Device;
    forall k, l | 0 <= k < l < t
      ensures Device(p, parts, last[k]) != Device(p, parts, last[l])
    {
      assert last[k] < last[l] && last[l] >= n - t + 1;
    }
    AcceptableSingles(p, parts, last);
  }

  lemma LastOnesCandidate(n: nat, t: nat)
    requires 2 <= t <= n
    ensures IsCombination(LastOnes(n, t), n)
    ensures forall k, l :: 0 <= k < l < t ==> LastOnes(n, t)[k] < LastOnes(n, t)[l]
  {
  }

  // ---- one level ---------------------------------------------------------------------------------

  ghost predicate OneLevel<F>(n: Node<F>) {
    n.Split? && n.active && forall i :: 0 <= i < |n.children| && n.children[i].active ==> n.children[i].Leaf?
  }

  /** What leaves are heard is single leaves. */
  lemma HeardSingles<F>(n: Node<F>, ids: set<int>, p: Policy)
    requires OneLevel(n) && Apart(n)
    ensures Singles(p, Heard(n, |n.children|, ids, p))
  {
    var heard: seq<seq<UsedLeaf>> := Heard(n, |n.children|, ids, p);
    var origin := HeardFrom(n, |n.children|, ids, p);
    forall j | 0 <= j < |heard|
      ensures |heard[j]| == 1 && heard[j][0].hardware !in p.ghosts && heard[j][0].hardware in Keys(n.children[origin[j]])
    {
    }
    hide Pick, Heard;
    forall i, j | 0 <= i < j < |heard|
      ensures heard[i][0].hardware != heard[j][0].hardware
    {
      assert Keys(n.children[origin[i]]) !! Keys(n.children[origin[j]]);
    }
  }

  lemma WithinLimitGood<F>(n: Node<F>, ids: set<int>, p: Policy, leaves: seq<UsedLeaf>)
    requires OneLevel(n) && Proper(n) && Apart(n) && Binomial(|Live(n)| - 1, n.threshold - 1) <= SEARCH_LIMIT
    requires Uses(n, ids, Some(p), leaves) && Acceptable(p, leaves)
    ensures Pick(n, ids, p).Some? && NoWorse(p, leaves, Pick(n, ids, p).value)
  {
    var heard := Heard(n, |n.children|, ids, p);
    var at := UseIsHeard(n, ids, p, leaves);
    HeardSingles(n, ids, p);
    FewerHeard(n, ids, p);
    assert Pick(n, ids, p) == Choose(p, n.threshold, heard);
    hide Pick, Heard, Uses, Acceptable, Singles, Choose;
    SinglesNoWorse(p, n.threshold, heard, |Live(n)|, at);
  }

  lemma FewerHeard<F>(n: Node<F>, ids: set<int>, p: Policy)
    requires n.Split?
    ensures |Heard(n, |n.children|, ids, p)| <= |Live(n)|
  {
    var origin := HeardFrom(n, |n.children|, ids, p);
    var live := Positions(Live(n), |n.children|, origin);
  }

  lemma SinglesNoWorse(p: Policy, t: nat, parts: seq<seq<UsedLeaf>>, m: nat, at: seq<nat>)
    requires Singles(p, parts) && 1 <= t && Candidate(at, |parts|, t) && Acceptable(p, LeavesOf(parts, at))
    requires |parts| <= m && Binomial(m - 1, t - 1) <= SEARCH_LIMIT
    ensures Choose(p, t, parts).Some? && NoWorse(p, LeavesOf(parts, at), Choose(p, t, parts).value)
  {
    hide Acceptable, Choose, Singles;
    SizeBound(at, |parts|);
    var c := TakeFirstIn(p, parts, at);
    BinomialGrows(|parts| - 1, m - 1, t - 1);
    FirstIsReached(|parts|, t, c);
    ChosenNoWorse(p, t, parts, c);
  }

  /** At a node over leaves every use is a choice among what is heard. */
  lemma UseIsHeard<F>(n: Node<F>, ids: set<int>, p: Policy, leaves: seq<UsedLeaf>) returns (at: seq<nat>)
    requires OneLevel(n) && Uses(n, ids, Some(p), leaves)
    ensures
      var heard := Heard(n, |n.children|, ids, p);
      Candidate(at, |heard|, n.threshold) && LeavesOf(heard, at) == leaves
  {
    var heard := Heard(n, |n.children|, ids, p);
    var from, parts := UseTaken(n, ids, Some(p), leaves);
    var origin := HeardFrom(n, |n.children|, ids, p);
    forall k | 0 <= k < |from|
      ensures Pick(n.children[from[k]], ids, p) == Some(parts[k]) && from[k] in origin
    {
      assert Uses(n.children[from[k]], ids, Some(p), parts[k]);
    }
    at := Positions(origin, |n.children|, from);
    ConcatOfChosen(heard, at, parts);
  }

  /** With every leaf presented and no ghosts, every leaf is heard. */
  lemma {:induction false} EveryoneHeard<F>(n: Node<F>, ids: set<int>, p: Policy)
    requires OneLevel(n) && LeafIds(n) <= ids && p.ghosts == {}
    ensures |Heard(n, |n.children|, ids, p)| == |Live(n)|
  {
    var origin := HeardFrom(n, |n.children|, ids, p);
    forall i | i in Live(n)
      ensures i in origin
    {
      ChildIds(n, i);
      assert n.children[i].id in LeafIds(n.children[i]);
    }
    forall j | 0 <= j < |origin|
      ensures origin[j] in Live(n)
    {
      assert Pick(n.children[origin[j]], ids, p).Some?;
    }
    var a := Positions(origin, |n.children|, Live(n));
    var b := Positions(Live(n), |n.children|, origin);
  }

  /** What is heard depends on the policy's ghosts only, over leaves. */
  lemma {:induction false} SameHeard<F>(n: Node<F>, k: nat, ids: set<int>, p: Policy, q: Policy)
    requires OneLevel(n) && k <= |n.children| && p.ghosts == q.ghosts
    ensures Heard(n, k, ids, p) == Heard(n, k, ids, q)
    decreases k
  {
    if k > 0 {
      SameHeard(n, k - 1, ids, p, q);
    }
  }

  lemma PastLimitMisses<F>(n: Node<F>) returns (p: Policy)
    requires OneLevel(n) && Proper(n) && Apart(n) && Binomial(|Live(n)| - 1, n.threshold - 1) > SEARCH_LIMIT
    ensures !Complete(n, LeafIds(n), p)
  {
    var (ids, t) := (LeafIds(n), n.threshold);
    var parts := Heard(n, |n.children|, ids, Clash(0, 0));
    EveryoneHeard(n, ids, Clash(0, 0));
    HeardSingles(n, ids, Clash(0, 0));
    assert t >= 2;
    p := Stacked(parts, |parts| - t + 1);
    SameHeard(n, |n.children|, ids, Clash(0, 0), p);
    LimitMisses(parts, t);
    LastWouldDo(parts, t);
    LastIsUsed(n, ids, p, LastOnes(|parts|, t));
  }

  lemma LastIsUsed<F>(n: Node<F>, ids: set<int>, p: Policy, c: seq<nat>)
    requires OneLevel(n) && Candidate(c, |Heard(n, |n.children|, ids, p)|, n.threshold)
    ensures Uses(n, ids, Some(p), LeavesOf(Heard(n, |n.children|, ids, p), c))
  {
    var heard := Heard(n, |n.children|, ids, p);
    var origin := HeardFrom(n, |n.children|, ids, p);
    forall j | 0 <= j < |heard|
      ensures Uses(n.children[origin[j]], ids, Some(p), heard[j])
    {
      PickIsUsed(n.children[origin[j]], ids, p);
    }
    ChoiceIsUsed(n, ids, Some(p), heard, origin, c);
  }

  /**
   Over one level of leaves with keys of their own, recovery is complete for all
   presented leaves and all policies if and only if the choices with the first
   leaf are within the limit.
   */
  lemma LimitExactly<F>(n: Node<F>)
    requires OneLevel(n) && Proper(n) && Apart(n)
    ensures (forall ids, p :: Complete(n, ids, p)) <==> Binomial(|Live(n)| - 1, n.threshold - 1) <= SEARCH_LIMIT
  {
    if Binomial(|Live(n)| - 1, n.threshold - 1) <= SEARCH_LIMIT {
      forall ids, p
        ensures Complete(n, ids, p)
      {
        forall leaves | Uses(n, ids, Some(p), leaves) && Acceptable(p, leaves)
          ensures Pick(n, ids, p).Some? && NoWorse(p, leaves, Pick(n, ids, p).value)
        {
          WithinLimitGood(n, ids, p, leaves);
        }
        GoodIsComplete(n, ids, p);
      }
    } else {
      var p := PastLimitMisses(n);
    }
  }
}
