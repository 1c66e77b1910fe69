/**
 When recovery under a custody policy finds a way if there is one. Each node
 settles on its own best choice before its parent looks at the others, so this
 depends on where in the tree there is anything to choose.
 */
module Completeness {
  import FiniteSets
  import opened Field
  import opened Results
  import opened Sharing
  import opened Combination
  import opened Custody
  import opened Selection
  import opened Recovery
  import KT = KeyTree

  // ---- the shape of a tree -----------------------------------------------------------

  ghost function Live<F>(n: Node<F>): (idx: seq<nat>)
    requires n.Split?
    ensures IsCombination(idx, |n.children|)
    ensures forall i :: 0 <= i < |n.children| ==> (i in idx <==> n.children[i].active)
  {
    KT.ActiveIndexes(n.children)
  }

  /** Every threshold can be met and asks for something. */
  ghost predicate Proper<F>(n: Node<F>) {
    n.Split? ==>
      && 1 <= n.threshold <= |Live(n)|
      && forall i :: 0 <= i < |n.children| && n.children[i].active ==> Proper(n.children[i])
  }

  /** Nothing to choose: all active leaves are needed. */
  ghost predicate Fixed<F>(n: Node<F>) {
    n.Split? ==>
      && n.threshold == |Live(n)|
      && forall i :: 0 <= i < |n.children| && n.children[i].active ==> Fixed(n.children[i])
  }

  /** On every way down at most one node with a choice has to combine its children. */
  ghost predicate Simple<F>(n: Node<F>) {
    n.Split? ==>
      || (forall i :: 0 <= i < |n.children| && n.children[i].active ==> Fixed(n.children[i]))
      || (n.threshold == 1 && forall i :: 0 <= i < |n.children| && n.children[i].active ==> Simple(n.children[i]))
  }

  /** Every node has few enough choices to try them all. */
  ghost predicate InLimit<F>(n: Node<F>) {
    n.Split? ==>
      && Binomial(|Live(n)|, n.threshold) <= SEARCH_LIMIT
      && forall i :: 0 <= i < |n.children| && n.children[i].active ==> InLimit(n.children[i])
  }

  /** If some leaves meet the policy, the ones the search settles on do. */
  ghost predicate Complete<F>(n: Node<F>, ids: set<int>, p: Policy) {
    (exists leaves :: Uses(n, ids, Some(p), leaves) && Meets(p, leaves)) ==>
      Pick(n, ids, p).Some? && Meets(p, Pick(n, ids, p).value)
  }

  // ---- what is used and what is picked --------------------------------------------------

  lemma {:induction false} InParts<T>(parts: seq<seq<T>>, k: nat, x: T)
    requires k < |parts| && x in parts[k]
    ensures x in Concat(parts)
  {
    var n := |parts| - 1;
    if k < n {
      InParts(parts[..n], k, x);
    }
  }

  lemma ConcatOne<T>(parts: seq<seq<T>>)
    requires |parts| == 1
    ensures Concat(parts) == parts[0]
  {
    assert parts[..0] == [];
    assert Concat(parts) == Concat(parts[..0]) + parts[0];
  }

  lemma {:induction false} UsesNonEmpty<F>(n: Node<F>, ids: set<int>, policy: Option<Policy>, leaves: seq<UsedLeaf>)
    requires Proper(n) && Uses(n, ids, policy, leaves)
    ensures leaves != []
    decreases n
  {
    if n.Split? {
      var from, parts :| UsesChildren(n, ids, policy, leaves, from, parts);
      assert Uses(n.children[from[0]], ids, policy, parts[0]);
      assert n.children[from[0]].active;
      UsesNonEmpty(n.children[from[0]], ids, policy, parts[0]);
      InParts(parts, 0, parts[0][0]);
    }
  }

  lemma StillCrowded(p: Policy, whole: seq<UsedLeaf>, part: seq<UsedLeaf>)
    requires Crowded(p, part) && forall l :: l in part ==> l in whole
    ensures Crowded(p, whole)
  {
    var i, j :| 0 <= i < |part| && 0 <= j < |part|
      && p.device(part[i].hardware) == p.device(part[j].hardware) && part[i].hardware != part[j].hardware;
    assert part[i] in whole && part[j] in whole;
    var k :| 0 <= k < |whole| && whole[k] == part[i];
    var l :| 0 <= l < |whole| && whole[l] == part[j];
  }

  /** A part of what is acceptable is acceptable, unless it is empty. */
  lemma PartAcceptable(p: Policy, whole: seq<UsedLeaf>, part: seq<UsedLeaf>)
    requires Acceptable(p, whole) && part != [] && forall l :: l in part ==> l in whole
    ensures Acceptable(p, part)
  {
    if Crowded(p, part) {
      StillCrowded(p, whole, part);
    }
  }

  /** Where the picks of the children came from. */
  lemma {:induction false} HeardFrom<F>(n: Node<F>, k: nat, ids: set<int>, p: Policy) returns (origin: seq<nat>)
    requires n.Split? && k <= |n.children|
    ensures IsCombination(origin, k) && |origin| == |Heard(n, k, ids, p)|
    ensures forall j :: 0 <= j < |origin| ==> Pick(n.children[origin[j]], ids, p) == Some(Heard(n, k, ids, p)[j])
    ensures forall i :: 0 <= i < k && Pick(n.children[i], ids, p).Some? ==> i in origin
    decreases k
  {
    hide Pick;
    if k == 0 {
      return [];
    }
    origin := HeardFrom(n, k - 1, ids, p);
    if Pick(n.children[k - 1], ids, p).Some? {
      ghost var was := origin;
      origin := origin + [k - 1];
      assert forall i :: i in was ==> i in origin;
      assert origin[|was|] == k - 1;
    }
  }

  lemma LoneLeafAcceptable(p: Policy, l: UsedLeaf)
    requires l.hardware !in p.ghosts
    ensures Acceptable(p, [l])
  {
  }

  /** A pick is a use that breaks no rule. */
  lemma {:induction false} PickIsUsed<F>(n: Node<F>, ids: set<int>, p: Policy)
    requires Pick(n, ids, p).Some?
    ensures Uses(n, ids, Some(p), Pick(n, ids, p).value) && Acceptable(p, Pick(n, ids, p).value)
    decreases n
  {
    if n.Leaf? {
      LoneLeafAcceptable(p, UsedLeaf(n.hardware, n.name));
    } else {
      var heard := Heard(n, |n.children|, ids, p);
      var origin := HeardFrom(n, |n.children|, ids, p);
      var c :| Wins(p, n.threshold, heard, c);
      ChooseIs(p, n.threshold, heard, c);
      hide Pick, Heard, Uses;
      forall j | 0 <= j < |heard|
        ensures Uses(n.children[origin[j]], ids, Some(p), heard[j])
      {
        PickIsUsed(n.children[origin[j]], ids, p);
      }
      ChoiceIsUsed(n, ids, Some(p), heard, origin, c);
    }
  }

  // ---- the winner ------------------------------------------------------------------------

  /** `b` is acceptable, and has enough devices or no fewer than `a`. */
  predicate NoWorse(p: Policy, a: seq<UsedLeaf>, b: seq<UsedLeaf>) {
    Acceptable(p, b) && (DeviceCount(p, b) >= p.minimum || DeviceCount(p, a) <= DeviceCount(p, b))
  }

  lemma BeforeShrinks(n: nat, t: nat, c: seq<nat>, d: seq<nat>)
    requires Candidate(c, n, t) && Candidate(d, n, t) && LexLess(d, c)
    ensures |Before(n, t, d)| < |Before(n, t, c)|
  {
    forall e | e in Before(n, t, d)
      ensures e in Before(n, t, c)
    {
      LexTransitive(e, d, c);
    }
    CombinationsAreAll(n, t, d);
    assert d in Before(n, t, c);
    assert d !in Before(n, t, d) by {
      if LexLess(d, d) { LexAsymmetric(d, d); }
    }
    FiniteSets.SubsetSize(Before(n, t, d) + {d}, Before(n, t, c));
  }

  /** Devices, counted no further than the minimum. */
  function Capped(p: Policy, leaves: seq<UsedLeaf>): nat {
    if DeviceCount(p, leaves) < p.minimum then DeviceCount(p, leaves) else p.minimum
  }

  /** Where one choice is acceptable, one wins. */
  lemma {:induction false} SomebodyWins(p: Policy, t: nat, parts: seq<seq<UsedLeaf>>, c: seq<nat>) returns (w: seq<nat>)
    requires Reached(c, |parts|, t) && Acceptable(p, LeavesOf(parts, c))
    ensures Wins(p, t, parts, w)
    decreases p.minimum - Capped(p, LeavesOf(parts, c)), |Before(|parts|, t, c)|
  {
    if Wins(p, t, parts, c) {
      return c;
    }
    var d :| Reached(d, |parts|, t) && Acceptable(p, LeavesOf(parts, d)) && !Preferred(p, parts, c, d);
    LexTotal(c, d);
    if LexLess(d, c) {
      BeforeShrinks(|parts|, t, c, d);
    }
    w := SomebodyWins(p, t, parts, d);
  }

  /** The chosen leaves are no worse than any acceptable choice the walk comes to. */
  lemma ChosenNoWorse(p: Policy, t: nat, parts: seq<seq<UsedLeaf>>, c: seq<nat>)
    requires Reached(c, |parts|, t) && Acceptable(p, LeavesOf(parts, c))
    ensures Choose(p, t, parts).Some? && NoWorse(p, LeavesOf(parts, c), Choose(p, t, parts).value)
  {
    var w := SomebodyWins(p, t, parts, c);
    ChooseIs(p, t, parts, w);
    assert Preferred(p, parts, w, c);
  }

  // ---- simple trees ----------------------------------------------------------------------

  lemma {:induction false} FixedIsSimple<F>(n: Node<F>)
    requires Fixed(n)
    ensures Simple(n)
  {
  }

  /** The children a use takes, with what they contribute. */
  lemma UseTaken<F>(n: Node<F>, ids: set<int>, policy: Option<Policy>, leaves: seq<UsedLeaf>)
    returns (from: seq<nat>, parts: seq<seq<UsedLeaf>>)
    requires n.Split? && Uses(n, ids, policy, leaves)
    ensures UsesChildren(n, ids, policy, leaves, from, parts)
    ensures forall k :: 0 <= k < |from| ==> n.children[from[k]].active && from[k] in Live(n)
  {
    from, parts :| UsesChildren(n, ids, policy, leaves, from, parts);
    forall k | 0 <= k < |from|
      ensures n.children[from[k]].active
    {
      assert Uses(n.children[from[k]], ids, policy, parts[k]);
    }
  }

  /** A fixed node can be used in one way at most. */
  lemma {:induction false} FixedOneUse<F>(n: Node<F>, ids: set<int>, policy: Option<Policy>, a: seq<UsedLeaf>, b: seq<UsedLeaf>)
    requires Fixed(n) && Uses(n, ids, policy, a) && Uses(n, ids, policy, b)
    ensures a == b
    decreases n
  {
    if n.Split? {
      var from, parts := UseTaken(n, ids, policy, a);
      var from', parts' := UseTaken(n, ids, policy, b);
      SameWhenAllTaken(Live(n), |n.children|, from);
      SameWhenAllTaken(Live(n), |n.children|, from');
      forall k | 0 <= k < |parts|
        ensures parts[k] == parts'[k]
      {
        FixedOneUse(n.children[from[k]], ids, policy, parts[k], parts'[k]);
      }
      assert parts == parts';
    }
  }

  /** Whatever acceptable leaves there are, the pick is no worse. */
  ghost predicate Good<F>(n: Node<F>, ids: set<int>, p: Policy) {
    forall leaves :: Uses(n, ids, Some(p), leaves) && Acceptable(p, leaves) ==>
      Pick(n, ids, p).Some? && NoWorse(p, leaves, Pick(n, ids, p).value)
  }

  lemma GoodIsComplete<F>(n: Node<F>, ids: set<int>, p: Policy)
    requires Good(n, ids, p)
    ensures Complete(n, ids, p)
  {
    hide Uses, Pick, Acceptable;
  }

  /** What the children settled on is within the limit of the search. */
  lemma HeardReached<F>(n: Node<F>, ids: set<int>, p: Policy, c: seq<nat>)
    requires n.Split? && InLimit(n) && Candidate(c, |Heard(n, |n.children|, ids, p)|, n.threshold)
    ensures Reached(c, |Heard(n, |n.children|, ids, p)|, n.threshold)
  {
    var origin := HeardFrom(n, |n.children|, ids, p);
    var at := Positions(Live(n), |n.children|, origin);
    BinomialGrows(|origin|, |Live(n)|, n.threshold);
    AllReached(|origin|, n.threshold, c);
  }

  /** Acceptable leaves of children with nothing to choose are exactly what these settle on. */
  lemma PartIsPicked<F>(n: Node<F>, ids: set<int>, p: Policy, whole: seq<UsedLeaf>, part: seq<UsedLeaf>)
    requires n.active && Fixed(n) && Proper(n) && Good(n, ids, p) && Uses(n, ids, Some(p), part)
    requires Acceptable(p, whole) && forall l :: l in part ==> l in whole
    ensures Pick(n, ids, p) == Some(part)
  {
    UsesNonEmpty(n, ids, Some(p), part);
    PartAcceptable(p, whole, part);
    PickIsUsed(n, ids, p);
    FixedOneUse(n, ids, Some(p), part, Pick(n, ids, p).value);
  }

  lemma FixedChildrenGood<F>(n: Node<F>, ids: set<int>, p: Policy, leaves: seq<UsedLeaf>)
    requires n.Split? && n.active && Proper(n) && InLimit(n)
    requires forall i :: 0 <= i < |n.children| && n.children[i].active ==> Fixed(n.children[i]) && Good(n.children[i], ids, p)
    requires Uses(n, ids, Some(p), leaves) && Acceptable(p, leaves)
    ensures Pick(n, ids, p).Some? && NoWorse(p, leaves, Pick(n, ids, p).value)
  {
    var heard := Heard(n, |n.children|, ids, p);
    var from, parts := UseTaken(n, ids, Some(p), leaves);
    var origin := HeardFrom(n, |n.children|, ids, p);
    forall k | 0 <= k < |from|
      ensures Pick(n.children[from[k]], ids, p) == Some(parts[k]) && from[k] in origin
    {
      forall l | l in parts[k] ensures l in leaves { InParts(parts, k, l); }
      PartIsPicked(n.children[from[k]], ids, p, leaves, parts[k]);
    }
    var at := Positions(origin, |n.children|, from);
    ConcatOfChosen(heard, at, parts);
    HeardReached(n, ids, p, at);
    ChosenNoWorse(p, n.threshold, heard, at);
  }

  lemma OneChildGood<F>(n: Node<F>, ids: set<int>, p: Policy, leaves: seq<UsedLeaf>)
    requires n.Split? && n.active && n.threshold == 1 && InLimit(n)
    requires forall i :: 0 <= i < |n.children| && n.children[i].active ==> Good(n.children[i], ids, p)
    requires Uses(n, ids, Some(p), leaves) && Acceptable(p, leaves)
    ensures Pick(n, ids, p).Some? && NoWorse(p, leaves, Pick(n, ids, p).value)
  {
    var heard := Heard(n, |n.children|, ids, p);
    var from, parts := UseTaken(n, ids, Some(p), leaves);
    var origin := HeardFrom(n, |n.children|, ids, p);
    ConcatOne(parts);
    assert Uses(n.children[from[0]], ids, Some(p), leaves);
    var j := Position(origin, from[0]);
    ConcatOfChosen(heard, [j], [heard[j]]);
    ConcatOne([heard[j]]);
    HeardReached(n, ids, p, [j]);
    ChosenNoWorse(p, 1, heard, [j]);
  }

  /** Under a simple node the pick is no worse than any acceptable choice of leaves. */
  lemma {:induction false} SimpleIsGood<F>(n: Node<F>, ids: set<int>, p: Policy)
    requires Simple(n) && Proper(n) && InLimit(n)
    ensures Good(n, ids, p)
    decreases n
  {
    if n.Split? && n.active {
      forall i | 0 <= i < |n.children| && n.children[i].active
        ensures Good(n.children[i], ids, p)
      {
        if Fixed(n.children[i]) {
          FixedIsSimple(n.children[i]);
        }
        SimpleIsGood(n.children[i], ids, p);
      }
      forall leaves | Uses(n, ids, Some(p), leaves) && Acceptable(p, leaves)
        ensures Pick(n, ids, p).Some? && NoWorse(p, leaves, Pick(n, ids, p).value)
      {
        if n.threshold == 1 {
          OneChildGood(n, ids, p, leaves);
        } else {
          FixedChildrenGood(n, ids, p, leaves);
        }
      }
    }
  }

  // ---- policies that ask for little --------------------------------------------------------

  lemma FirstReached(n: nat, t: nat)
    requires t <= n
    ensures Reached(Range(t), n, t)
  {
    FirstIsLeast(n, t);
  }

  lemma {:induction false} ChoiceHasNoGhost(p: Policy, parts: seq<seq<UsedLeaf>>, c: seq<nat>)
    requires IsCombination(c, |parts|) && c != []
    requires forall i :: 0 <= i < |parts| ==> parts[i] != [] && !AnyGhost(p, parts[i])
    ensures LeavesOf(parts, c) != [] && !AnyGhost(p, LeavesOf(parts, c))
  {
    var n := |c| - 1;
    if n > 0 {
      assert IsCombination(c[..n], |parts|);
      ChoiceHasNoGhost(p, parts, c[..n]);
    }
  }

  /** Where keys may share a device, whatever can be used is picked. */
  lemma {:induction false} UsableIsPicked<F>(n: Node<F>, ids: set<int>, p: Policy, leaves: seq<UsedLeaf>)
    requires Proper(n) && !p.hardwareMode && Uses(n, ids, Some(p), leaves)
    ensures Pick(n, ids, p).Some?
    decreases n
  {
    if n.Split? {
      var heard := Heard(n, |n.children|, ids, p);
      var from, parts := UseTaken(n, ids, Some(p), leaves);
      var origin := HeardFrom(n, |n.children|, ids, p);
      forall k | 0 <= k < |from|
        ensures from[k] in origin
      {
        UsableIsPicked(n.children[from[k]], ids, p, parts[k]);
      }
      var at := Positions(origin, |n.children|, from);
      forall j | 0 <= j < |heard|
        ensures heard[j] != [] && !AnyGhost(p, heard[j])
      {
        PickIsUsed(n.children[origin[j]], ids, p);
      }
      FirstReached(|heard|, n.threshold);
      ChoiceHasNoGhost(p, heard, Range(n.threshold));
      ChosenNoWorse(p, n.threshold, heard, Range(n.threshold));
    }
  }

  lemma SomeDevice(p: Policy, leaves: seq<UsedLeaf>)
    requires leaves != []
    ensures DeviceCount(p, leaves) >= 1
  {
    assert leaves[0] in leaves;
    assert p.device(leaves[0].hardware) in Devices(p, leaves);
  }

  /** A policy that lets keys share a device and asks for one device at most is served on every tree. */
  lemma LenientIsComplete<F>(n: Node<F>, ids: set<int>, p: Policy)
    requires Proper(n) && !p.hardwareMode && p.minimum <= 1
    ensures Complete(n, ids, p)
  {
    if leaves :| Uses(n, ids, Some(p), leaves) && Meets(p, leaves) {
      UsableIsPicked(n, ids, p, leaves);
      PickIsUsed(n, ids, p);
      SomeDevice(p, Pick(n, ids, p).value);
    }
  }

  // ---- what that means for a recovery ----------------------------------------------------------

  /** Trees that share a secret have thresholds that can be met. */
  lemma {:induction false} SharedIsProper<F(!new)>(f: Ops<F>, n: Node<F>, v: seq<F>)
    requires KT.WellShared(f, n, v)
    ensures Proper(n)
    decreases n
  {
    if n.Split? {
      var polys, xs :| KT.DealtBy(f, n, v, polys, xs);
      forall i | 0 <= i < |n.children| && n.children[i].active
        ensures Proper(n.children[i])
      {
        SharedIsProper(f, n.children[i], ShareAt(f, polys, xs[i]));
      }
    }
  }

  /**
   On a simple tree, and on every tree under a lenient policy, the pick decides
   whether the policy can be met at all.
   */
  lemma PickDecides<F>(n: Node<F>, ids: set<int>, p: Policy)
    requires Proper(n) && ((Simple(n) && InLimit(n)) || (!p.hardwareMode && p.minimum <= 1))
    ensures Pick(n, ids, p).Some? && Meets(p, Pick(n, ids, p).value) <==>
      exists leaves :: Uses(n, ids, Some(p), leaves) && Meets(p, leaves)
  {
    if Simple(n) && InLimit(n) {
      SimpleIsGood(n, ids, p);
      GoodIsComplete(n, ids, p);
    } else {
      LenientIsComplete(n, ids, p);
    }
    if Pick(n, ids, p).Some? {
      PickIsUsed(n, ids, p);
    }
  }
}
