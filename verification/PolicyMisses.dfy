/**
 Where recovery under a custody policy misses: as soon as a node that must
 combine several children has one with something to choose, some presented
 leaves and some policy are refused although other leaves would do.
 */
module PolicyMisses {
  import opened Field
  import opened Results
  import opened Combination
  import opened Custody
  import opened Selection
  import opened Recovery
  import opened Completeness
  import KT = KeyTree
  import TC = TreeChanges

  // ---- leaves kept apart -----------------------------------------------------------------

  /** The ids of the active leaves. */
  ghost function LeafIds<F>(n: Node<F>): set<int> {
    if !n.active then {}
    else match n
      case Leaf(id, _, _, _, _) => {id}
      case Split(_, _, _, _, children) => set i, x | 0 <= i < |children| && x in LeafIds(children[i]) :: x
  }

  /** The hardware keys of the active leaves. */
  ghost function Keys<F>(n: Node<F>): set<int> {
    if !n.active then {}
    else match n
      case Leaf(_, _, hardware, _, _) => {hardware}
      case Split(_, _, _, _, children) => set i, x | 0 <= i < |children| && x in Keys(children[i]) :: x
  }

  /** No two active leaves have an id or a hardware key in common. */
  ghost predicate Apart<F>(n: Node<F>) {
    n.Split? ==>
      && (forall i, j :: 0 <= i < j < |n.children| ==>
            LeafIds(n.children[i]) !! LeafIds(n.children[j]) && Keys(n.children[i]) !! Keys(n.children[j]))
      && forall i :: 0 <= i < |n.children| && n.children[i].active ==> Apart(n.children[i])
  }

  lemma ChildIds<F>(n: Node<F>, i: nat)
    requires n.Split? && n.active && i < |n.children|
    ensures LeafIds(n.children[i]) <= LeafIds(n) && Keys(n.children[i]) <= Keys(n)
  {
  }

  lemma {:induction false} UsesKeys<F>(n: Node<F>, ids: set<int>, policy: Option<Policy>, leaves: seq<UsedLeaf>, l: UsedLeaf)
    requires Uses(n, ids, policy, leaves) && l in leaves
    ensures l.hardware in Keys(n)
    decreases n
  {
    if n.Split? {
      var from, parts := UseTaken(n, ids, policy, leaves);
      var k := InConcat(parts, l);
      UsesKeys(n.children[from[k]], ids, policy, parts[k], l);
      ChildIds(n, from[k]);
    }
  }

  /** More presented leaves leave a use a use; only the ghosts of a policy matter for it. */
  lemma {:induction false} UsesMore<F>(n: Node<F>, ids: set<int>, more: set<int>, p: Policy, q: Policy, leaves: seq<UsedLeaf>)
    requires Uses(n, ids, Some(p), leaves) && ids <= more && p.ghosts == q.ghosts
    ensures Uses(n, more, Some(q), leaves)
    decreases n
  {
    if n.Split? {
      var from, parts := UseTaken(n, ids, Some(p), leaves);
      forall k | 0 <= k < |from|
        ensures Uses(n.children[from[k]], more, Some(q), parts[k])
      {
        UsesMore(n.children[from[k]], ids, more, p, q, parts[k]);
      }
      assert UsesChildren(n, more, Some(q), leaves, from, parts);
    }
  }

  // ---- only the own leaves count ---------------------------------------------------------------

  ghost predicate SameFor<F>(n: Node<F>, a: set<int>, b: set<int>) {
    forall x :: x in LeafIds(n) ==> (x in a <==> x in b)
  }

  lemma {:induction false} PickLocal<F>(n: Node<F>, a: set<int>, b: set<int>, p: Policy)
    requires SameFor(n, a, b)
    ensures Pick(n, a, p) == Pick(n, b, p)
    decreases n, 1, 0
  {
    if n.Split? && n.active {
      HeardLocal(n, |n.children|, a, b, p);
    }
  }

  lemma {:induction false} HeardLocal<F>(n: Node<F>, k: nat, a: set<int>, b: set<int>, p: Policy)
    requires n.Split? && n.active && k <= |n.children| && SameFor(n, a, b)
    ensures Heard(n, k, a, p) == Heard(n, k, b, p)
    decreases n, 0, k
  {
    if k > 0 {
      HeardLocal(n, k - 1, a, b, p);
      ChildIds(n, k - 1);
      PickLocal(n.children[k - 1], a, b, p);
    }
  }

  /** Where nothing is presented nothing is picked. */
  lemma {:induction false} NothingPicked<F>(n: Node<F>, ids: set<int>, p: Policy)
    requires Proper(n) && LeafIds(n) !! ids
    ensures Pick(n, ids, p).None?
    decreases n
  {
    if n.Split? && n.active {
      if Pick(n, ids, p).Some? {
        PickIsUsed(n, ids, p);
        var from, parts := UseTaken(n, ids, Some(p), Pick(n, ids, p).value);
        ChildIds(n, from[0]);
        UsesIsPresented(n, ids, Some(p), Pick(n, ids, p).value);
      }
    }
  }

  lemma {:induction false} UsesIsPresented<F>(n: Node<F>, ids: set<int>, policy: Option<Policy>, leaves: seq<UsedLeaf>)
    requires Proper(n) && Uses(n, ids, policy, leaves)
    ensures LeafIds(n) * ids != {}
    decreases n
  {
    if n.Leaf? {
      assert n.id in LeafIds(n) * ids;
    } else {
      var from, parts := UseTaken(n, ids, policy, leaves);
      assert Uses(n.children[from[0]], ids, policy, parts[0]);
      UsesIsPresented(n.children[from[0]], ids, policy, parts[0]);
      ChildIds(n, from[0]);
      var x :| x in LeafIds(n.children[from[0]]) * ids;
      assert x in LeafIds(n) * ids;
    }
  }

  // ---- presenting some children only -------------------------------------------------------------

  ghost function Together(sets: seq<set<int>>): set<int> {
    set k, x | 0 <= k < |sets| && x in sets[k] :: x
  }

  /** Active children, and ids of leaves under each of them. */
  ghost predicate Selected<F>(n: Node<F>, sel: seq<nat>, sets: seq<set<int>>) {
    && n.Split? && |sel| == |sets| && IsCombination(sel, |n.children|)
    && forall k :: 0 <= k < |sel| ==> n.children[sel[k]].active && sets[k] <= LeafIds(n.children[sel[k]])
  }

  /** What the selected children settle on. */
  ghost function HeardAt<F>(n: Node<F>, sel: seq<nat>, sets: seq<set<int>>, p: Policy): seq<seq<UsedLeaf>>
    requires Selected(n, sel, sets)
    decreases |sel|
  {
    if sel == [] then []
    else
      var k := |sel| - 1;
      var pick := Pick(n.children[sel[k]], sets[k], p);
      HeardAt(n, sel[..k], sets[..k], p) + if pick.Some? then [pick.value] else []
  }

  lemma SelectedApart<F>(n: Node<F>, sel: seq<nat>, k: nat, l: nat)
    requires n.Split? && Apart(n) && IsCombination(sel, |n.children|) && k < |sel| && l < |sel| && k != l
    ensures LeafIds(n.children[sel[k]]) !! LeafIds(n.children[sel[l]]) && Keys(n.children[sel[k]]) !! Keys(n.children[sel[l]])
  {
    var (a, b) := if k < l then (sel[k], sel[l]) else (sel[l], sel[k]);
    assert a < b;
  }

  /** Of all that is presented a selected child sees its own. */
  lemma SeesItsOwn<F>(n: Node<F>, sel: seq<nat>, sets: seq<set<int>>, k: nat)
    requires Apart(n) && Selected(n, sel, sets) && k < |sel|
    ensures SameFor(n.children[sel[k]], Together(sets), sets[k])
  {
    forall x | x in LeafIds(n.children[sel[k]])
      ensures x in Together(sets) <==> x in sets[k]
    {
      if x in Together(sets) {
        var l: nat :| l < |sets| && x in sets[l];
        if l != k {
          SelectedApart(n, sel, k, l);
        }
      }
    }
  }

  lemma OthersSeeNothing<F>(n: Node<F>, sel: seq<nat>, sets: seq<set<int>>, i: nat)
    requires Apart(n) && Selected(n, sel, sets) && i < |n.children| && i !in sel
    ensures LeafIds(n.children[i]) !! Together(sets)
  {
    forall x | x in Together(sets)
      ensures x !in LeafIds(n.children[i])
    {
      var l :| 0 <= l < |sets| && x in sets[l];
      assert x in LeafIds(n.children[sel[l]]) && sel[l] != i;
    }
  }

  lemma {:induction false} HeardFromSelected<F>(
    n: Node<F>, sel: seq<nat>, sets: seq<set<int>>, p: Policy, k: nat, m: nat)
    requires n.active && Proper(n) && Apart(n) && Selected(n, sel, sets) && k <= |n.children| && m <= |sel|
    requires forall j :: 0 <= j < m ==> sel[j] < k
    requires forall j :: m <= j < |sel| ==> k <= sel[j]
    ensures Heard(n, k, Together(sets), p) == HeardAt(n, sel[..m], sets[..m], p)
    decreases k
  {
    hide Pick, Proper, Apart, LeafIds, Together;
    if k > 0 {
      if m > 0 && sel[m - 1] == k - 1 {
        HeardFromSelected(n, sel, sets, p, k - 1, m - 1);
        SelectedPick(n, sel, sets, p, m - 1);
        assert sel[..m][..m - 1] == sel[..m - 1] && sets[..m][..m - 1] == sets[..m - 1];
      } else {
        assert m > 0 ==> sel[m - 1] < k - 1;
        HeardFromSelected(n, sel, sets, p, k - 1, m);
        UnselectedPick(n, sel, sets, p, k - 1);
      }
    }
  }

  lemma SelectedPick<F>(n: Node<F>, sel: seq<nat>, sets: seq<set<int>>, p: Policy, k: nat)
    requires Apart(n) && Selected(n, sel, sets) && k < |sel|
    ensures Pick(n.children[sel[k]], Together(sets), p) == Pick(n.children[sel[k]], sets[k], p)
  {
    SeesItsOwn(n, sel, sets, k);
    PickLocal(n.children[sel[k]], Together(sets), sets[k], p);
  }

  lemma UnselectedPick<F>(n: Node<F>, sel: seq<nat>, sets: seq<set<int>>, p: Policy, i: nat)
    requires Proper(n) && Apart(n) && Selected(n, sel, sets) && i < |n.children| && i !in sel
    ensures Pick(n.children[i], Together(sets), p).None?
  {
    if n.children[i].active {
      OthersSeeNothing(n, sel, sets, i);
      NothingPicked(n.children[i], Together(sets), p);
    }
  }

  /** Presenting leaves under selected children only, a node hears from these. */
  lemma HearsSelected<F>(n: Node<F>, sel: seq<nat>, sets: seq<set<int>>, p: Policy)
    requires n.active && Proper(n) && Apart(n) && Selected(n, sel, sets)
    ensures Heard(n, |n.children|, Together(sets), p) == HeardAt(n, sel, sets, p)
    ensures Together(sets) <= LeafIds(n)
  {
    HeardFromSelected(n, sel, sets, p, |n.children|, |sel|);
    assert sel[..|sel|] == sel && sets[..|sets|] == sets;
    forall x | x in Together(sets)
      ensures x in LeafIds(n)
    {
      var k :| 0 <= k < |sets| && x in sets[k];
      ChildIds(n, sel[k]);
    }
  }

  lemma {:induction false} AllHeard<F>(n: Node<F>, sel: seq<nat>, sets: seq<set<int>>, p: Policy, parts: seq<seq<UsedLeaf>>)
    requires Selected(n, sel, sets) && |parts| == |sel|
    requires forall k :: 0 <= k < |sel| ==> Pick(n.children[sel[k]], sets[k], p) == Some(parts[k])
    ensures HeardAt(n, sel, sets, p) == parts
    decreases |sel|
  {
    if sel != [] {
      var k := |sel| - 1;
      AllHeard(n, sel[..k], sets[..k], p, parts[..k]);
      assert parts == parts[..k] + [parts[k]];
    }
  }

  lemma {:induction false} OneMissing<F>(n: Node<F>, sel: seq<nat>, sets: seq<set<int>>, p: Policy, a: nat)
    requires Selected(n, sel, sets) && a <= |sel|
    requires a < |sel| ==> Pick(n.children[sel[a]], sets[a], p).None?
    ensures |HeardAt(n, sel, sets, p)| <= |sel| - if a < |sel| then 1 else 0
    decreases |sel|
  {
    if sel != [] {
      var k := |sel| - 1;
      OneMissing(n, sel[..k], sets[..k], p, if a < k then a else k);
    }
  }

  /** Uses of exactly threshold selected children make a use of the node. */
  lemma UsesSelected<F>(n: Node<F>, sel: seq<nat>, sets: seq<set<int>>, ids: set<int>, p: Policy, parts: seq<seq<UsedLeaf>>)
    requires n.active && Selected(n, sel, sets) && |parts| == |sel| == n.threshold && Together(sets) <= ids
    requires forall k :: 0 <= k < |sel| ==> Uses(n.children[sel[k]], sets[k], Some(p), parts[k])
    ensures Uses(n, ids, Some(p), Concat(parts))
  {
    forall k | 0 <= k < |sel|
      ensures Uses(n.children[sel[k]], ids, Some(p), parts[k])
    {
      assert sets[k] <= Together(sets);
      UsesMore(n.children[sel[k]], sets[k], ids, p, p, parts[k]);
    }
    assert UsesChildren(n, ids, Some(p), Concat(parts), sel, parts);
  }

  // ---- two keys on one device -----------------------------------------------------------------------

  /** No two keys on one device; key `y` sits on the device of key `x`, every other key on its own. */
  function Clash(x: int, y: int): Policy {
    Policy(0, true, {}, h => if h == y then x else h)
  }

  predicate Holds(leaves: seq<UsedLeaf>, key: int) {
    exists l :: l in leaves && l.hardware == key
  }

  lemma CrowdedMeans(x: int, y: int, leaves: seq<UsedLeaf>)
    ensures Crowded(Clash(x, y), leaves) <==> x != y && Holds(leaves, x) && Holds(leaves, y)
  {
    var p := Clash(x, y);
    if Crowded(p, leaves) {
      var i, j :| 0 <= i < |leaves| && 0 <= j < |leaves|
        && p.device(leaves[i].hardware) == p.device(leaves[j].hardware) && leaves[i].hardware != leaves[j].hardware;
      assert leaves[i] in leaves && leaves[j] in leaves;
    }
    if x != y && Holds(leaves, x) && Holds(leaves, y) {
      var a :| a in leaves && a.hardware == x;
      var b :| b in leaves && b.hardware == y;
      var i :| 0 <= i < |leaves| && leaves[i] == a;
      var j :| 0 <= j < |leaves| && leaves[j] == b;
      assert p.device(leaves[i].hardware) == p.device(leaves[j].hardware);
    }
  }

  lemma ClashAcceptable(x: int, y: int, leaves: seq<UsedLeaf>)
    requires leaves != []
    ensures Acceptable(Clash(x, y), leaves) <==> x == y || !Holds(leaves, x) || !Holds(leaves, y)
    ensures Acceptable(Clash(x, y), leaves) ==> Meets(Clash(x, y), leaves)
  {
    CrowdedMeans(x, y, leaves);
  }

  /** With no more children than the threshold there is one choice. */
  lemma OnlyChoice(p: Policy, parts: seq<seq<UsedLeaf>>)
    ensures Acceptable(p, Concat(parts)) ==> Choose(p, |parts|, parts) == Some(Concat(parts))
    ensures !Acceptable(p, Concat(parts)) ==> Choose(p, |parts|, parts).None?
  {
    var t := |parts|;
    ConcatOfChosen(parts, Range(t), parts);
    FirstReached(t, t);
    forall c | Candidate(c, t, t)
      ensures c == Range(t)
    {
      OnlyAll(c, t);
    }
    if Acceptable(p, Concat(parts)) {
      var w := SomebodyWins(p, t, parts, Range(t));
      ChooseIs(p, t, parts, w);
    } else {
      NobodyWins(p, t, parts);
    }
  }

  /** With no minimum to reach, the first children are taken if they may be. */
  lemma FirstChoice(p: Policy, t: nat, parts: seq<seq<UsedLeaf>>)
    requires p.minimum == 0 && t <= |parts| && Acceptable(p, Concat(parts[..t]))
    ensures Choose(p, t, parts) == Some(Concat(parts[..t]))
  {
    var first := Range(t);
    ConcatOfChosen(parts, first, parts[..t]);
    FirstReached(|parts|, t);
    FirstIsLeast(|parts|, t);
    forall d | Reached(d, |parts|, t) && Acceptable(p, LeavesOf(parts, d))
      ensures Preferred(p, parts, first, d)
    {
      LexTotal(first, d);
    }
    assert Wins(p, t, parts, first);
    ChooseIs(p, t, parts, first);
  }

  // ---- one way only ----------------------------------------------------------------------------------

  /** Presented with `ids` the node settles on `leaves`, as long as the policy does not clash within it. */
  ghost predicate Solo<F>(n: Node<F>, ids: set<int>, leaves: seq<UsedLeaf>) {
    && ids <= LeafIds(n) && leaves != [] && (forall l :: l in leaves ==> l.hardware in Keys(n))
    && Uses(n, ids, Some(Clash(0, 0)), leaves)
    && forall x, y :: !(x in Keys(n) && y in Keys(n)) ==> Pick(n, ids, Clash(x, y)) == Some(leaves)
  }

  lemma SoloWithin<F>(n: Node<F>, ids: set<int>, leaves: seq<UsedLeaf>)
    requires Solo(n, ids, leaves)
    ensures ids <= LeafIds(n)
  {
  }

  /** All selected children but the one at `a` are presented with one way each. */
  ghost predicate SoloExcept<F>(n: Node<F>, sel: seq<nat>, a: nat, sets: seq<set<int>>, parts: seq<seq<UsedLeaf>>) {
    && Selected(n, sel, sets) && |parts| == |sel|
    && forall k :: 0 <= k < |sel| && k != a ==> Solo(n.children[sel[k]], sets[k], parts[k])
  }

  lemma OneMorePresented<F>(
    n: Node<F>, sel: seq<nat>, a: nat, sets: seq<set<int>>, parts: seq<seq<UsedLeaf>>, ids: set<int>, leaves: seq<UsedLeaf>)
    requires sel != [] && SoloExcept(n, sel[..|sel| - 1], a, sets, parts) && IsCombination(sel, |n.children|)
    requires
      var c := n.children[sel[|sel| - 1]];
      c.active && ids <= LeafIds(c) && (a != |sel| - 1 ==> Solo(c, ids, leaves))
    ensures |sets| == |sel| - 1 && SoloExcept(n, sel, a, sets + [ids], parts + [leaves])
  {
    hide Solo, LeafIds;
  }

  lemma {:induction false} Presenting<F>(n: Node<F>, sel: seq<nat>, a: nat, special: set<int>)
    returns (sets: seq<set<int>>, parts: seq<seq<UsedLeaf>>)
    requires n.Split? && n.active && Proper(n) && Apart(n) && IsCombination(sel, |n.children|)
    requires forall k :: 0 <= k < |sel| ==> n.children[sel[k]].active
    requires a < |sel| ==> special <= LeafIds(n.children[sel[a]])
    ensures SoloExcept(n, sel, a, sets, parts) && (a < |sel| ==> sets[a] == special)
    decreases n, 0, |sel|
  {
    sets, parts := [], [];
    if sel != [] {
      var k := |sel| - 1;
      assert Proper(n.children[sel[k]]) && Apart(n.children[sel[k]]) && IsCombination(sel[..k], |n.children|);
      hide Proper, Apart, LeafIds, Solo, SoloExcept, IsCombination;
      var sets', parts' := Presenting(n, sel[..k], a, special);
      var ids, leaves := special, [];
      if a != k {
        ids, leaves := OneWay(n.children[sel[k]]);
        SoloWithin(n.children[sel[k]], ids, leaves);
      }
      OneMorePresented(n, sel, a, sets', parts', ids, leaves);
      sets, parts := sets' + [ids], parts' + [leaves];
    }
  }

  /** Every node can be presented with one way only. */
  lemma {:induction false} OneWay<F>(n: Node<F>) returns (ids: set<int>, leaves: seq<UsedLeaf>)
    requires n.active && Proper(n) && Apart(n)
    ensures Solo(n, ids, leaves)
    decreases n, 1, 0
  {
    if n.Leaf? {
      ids, leaves := {n.id}, [UsedLeaf(n.hardware, n.name)];
    } else {
      var sel := Live(n)[..n.threshold];
      var sets, parts := Presenting(n, sel, n.threshold, {});
      ids, leaves := Together(sets), Concat(parts);
      SolosAreSolo(n, sel, sets, parts);
    }
  }

  lemma SoloKeys<F>(n: Node<F>, sel: seq<nat>, a: nat, sets: seq<set<int>>, parts: seq<seq<UsedLeaf>>, l: UsedLeaf)
    returns (k: nat)
    requires n.active && SoloExcept(n, sel, a, sets, parts) && l in Concat(parts)
    requires a < |parts| ==> forall m :: m in parts[a] ==> m.hardware in Keys(n.children[sel[a]])
    ensures k < |parts| && l in parts[k] && l.hardware in Keys(n.children[sel[k]]) && l.hardware in Keys(n)
  {
    k := InConcat(parts, l);
    ChildIds(n, sel[k]);
  }

  lemma SolosAreSolo<F>(n: Node<F>, sel: seq<nat>, sets: seq<set<int>>, parts: seq<seq<UsedLeaf>>)
    requires n.active && Proper(n) && Apart(n) && SoloExcept(n, sel, |sel|, sets, parts) && |sel| == n.threshold
    ensures Solo(n, Together(sets), Concat(parts))
  {
    var leaves := Concat(parts);
    InParts(parts, 0, parts[0][0]);
    forall l | l in leaves
      ensures l.hardware in Keys(n)
    {
      var k := SoloKeys(n, sel, |sel|, sets, parts, l);
    }
    HearsSelected(n, sel, sets, Clash(0, 0));
    UsesSelected(n, sel, sets, Together(sets), Clash(0, 0), parts);
    forall x, y | !(x in Keys(n) && y in Keys(n))
      ensures Pick(n, Together(sets), Clash(x, y)) == Some(leaves)
    {
      var p := Clash(x, y);
      HearsSelected(n, sel, sets, p);
      forall k | 0 <= k < |sel|
        ensures Pick(n.children[sel[k]], sets[k], p) == Some(parts[k])
      {
        ChildIds(n, sel[k]);
      }
      AllHeard(n, sel, sets, p, parts);
      ClashAcceptable(x, y, leaves);
      OnlyChoice(p, parts);
    }
  }

  // ---- a child with a choice -----------------------------------------------------------------------------

  /** Presented with `ids` the node settles on leaves with key `x` in them, although `other` would do without. */
  ghost predicate Torn<F>(n: Node<F>, ids: set<int>, x: int, other: seq<UsedLeaf>) {
    && ids <= LeafIds(n) && x in Keys(n) && Uses(n, ids, Some(Clash(0, 0)), other) && !Holds(other, x)
    && forall y :: y !in Keys(n) ==> Pick(n, ids, Clash(x, y)).Some? && Holds(Pick(n, ids, Clash(x, y)).value, x)
  }

  lemma LastAreUsed<F>(n: Node<F>, sel: seq<nat>, sets: seq<set<int>>, parts: seq<seq<UsedLeaf>>)
    requires n.active && SoloExcept(n, sel, |sel|, sets, parts) && |sel| == n.threshold + 1
    ensures Uses(n, Together(sets), Some(Clash(0, 0)), Concat(parts[1..]))
  {
    var (sel', sets', parts') := (sel[1..], sets[1..], parts[1..]);
    forall x | x in Together(sets')
      ensures x in Together(sets)
    {
      var k: nat :| k < |sets'| && x in sets'[k];
      assert x in sets[k + 1];
    }
    forall k | 0 <= k < |sel'|
      ensures Uses(n.children[sel'[k]], sets'[k], Some(Clash(0, 0)), parts'[k])
    {
      assert Solo(n.children[sel[k + 1]], sets[k + 1], parts[k + 1]);
    }
    assert Selected(n, sel', sets');
    hide Uses, LeafIds, Solo;
    UsesSelected(n, sel', sets', Together(sets), Clash(0, 0), parts');
  }

  lemma LastHoldNot<F>(n: Node<F>, sel: seq<nat>, sets: seq<set<int>>, parts: seq<seq<UsedLeaf>>)
    requires n.Split? && Apart(n) && SoloExcept(n, sel, |sel|, sets, parts) && |sel| >= 1
    ensures !Holds(Concat(parts[1..]), parts[0][0].hardware)
  {
    var x := parts[0][0].hardware;
    assert parts[0][0] in parts[0] && Solo(n.children[sel[0]], sets[0], parts[0]);
    forall l | l in Concat(parts[1..])
      ensures l.hardware != x
    {
      var k := InConcat(parts[1..], l);
      assert Solo(n.children[sel[k + 1]], sets[k + 1], parts[k + 1]);
      SelectedApart(n, sel, 0, k + 1);
    }
  }

  /** One more child than needed: the first ones are taken, the last ones would do. */
  lemma SpareChild<F>(n: Node<F>, sel: seq<nat>, sets: seq<set<int>>, parts: seq<seq<UsedLeaf>>)
    requires n.active && Proper(n) && Apart(n) && SoloExcept(n, sel, |sel|, sets, parts) && |sel| == n.threshold + 1
    ensures Torn(n, Together(sets), parts[0][0].hardware, Concat(parts[1..]))
  {
    var x := parts[0][0].hardware;
    assert parts[0][0] in parts[0];
    ChildIds(n, sel[0]);
    HearsSelected(n, sel, sets, Clash(0, 0));
    LastAreUsed(n, sel, sets, parts);
    LastHoldNot(n, sel, sets, parts);
    hide Uses, Pick, LeafIds, Keys, Proper, Apart, Together, SoloExcept;
    forall y | y !in Keys(n)
      ensures Pick(n, Together(sets), Clash(x, y)).Some? && Holds(Pick(n, Together(sets), Clash(x, y)).value, x)
    {
      FirstAreTaken(n, sel, sets, parts, x, y);
    }
  }

  lemma SolosPicked<F>(n: Node<F>, sel: seq<nat>, a: nat, sets: seq<set<int>>, parts: seq<seq<UsedLeaf>>, x: int, y: int)
    requires n.active && SoloExcept(n, sel, a, sets, parts)
    requires forall k :: 0 <= k < |sel| && k != a ==> !(x in Keys(n.children[sel[k]]) && y in Keys(n.children[sel[k]]))
    ensures forall k :: 0 <= k < |sel| && k != a ==> Pick(n.children[sel[k]], sets[k], Clash(x, y)) == Some(parts[k])
  {
    hide Pick, Keys, LeafIds;
  }

  lemma FirstAreTaken<F>(n: Node<F>, sel: seq<nat>, sets: seq<set<int>>, parts: seq<seq<UsedLeaf>>, x: int, y: int)
    requires n.active && Proper(n) && Apart(n) && SoloExcept(n, sel, |sel|, sets, parts) && |sel| == n.threshold + 1
    requires x == parts[0][0].hardware && y !in Keys(n)
    ensures Pick(n, Together(sets), Clash(x, y)).Some? && Holds(Pick(n, Together(sets), Clash(x, y)).value, x)
  {
    var t, p := n.threshold, Clash(x, y);
    HearsSelected(n, sel, sets, p);
    forall k | 0 <= k < |sel|
      ensures y !in Keys(n.children[sel[k]])
    {
      ChildIds(n, sel[k]);
    }
    SolosPicked(n, sel, |sel|, sets, parts, x, y);
    AllHeard(n, sel, sets, p, parts);
    FirstAcceptable(n, sel, sets, parts, x, y);
    assert Pick(n, Together(sets), p) == Choose(p, t, parts);
    hide Pick, Keys, LeafIds, Proper, Apart, SoloExcept, Together, Acceptable, Choose;
    FirstChoice(p, t, parts);
  }

  lemma FirstAcceptable<F>(n: Node<F>, sel: seq<nat>, sets: seq<set<int>>, parts: seq<seq<UsedLeaf>>, x: int, y: int)
    requires SoloExcept(n, sel, |sel|, sets, parts) && |sel| == n.threshold + 1 >= 2 && x == parts[0][0].hardware
    requires forall k :: 0 <= k < |sel| ==> y !in Keys(n.children[sel[k]])
    ensures
      var first := Concat(parts[..n.threshold]);
      Acceptable(Clash(x, y), first) && Holds(first, x)
  {
    var some := parts[..n.threshold];
    var first := Concat(some);
    assert some[0] == parts[0] && parts[0][0] in some[0];
    InParts(some, 0, parts[0][0]);
    forall l | l in first
      ensures l.hardware != y
    {
      var k := InConcat(some, l);
      assert Solo(n.children[sel[k]], sets[k], parts[k]);
    }
    ClashAcceptable(x, y, first);
  }

  /** Leaves that hold a key only where its own child is. */
  lemma HeldByOne<F>(n: Node<F>, sel: seq<nat>, a: nat, sets: seq<set<int>>, parts: seq<seq<UsedLeaf>>, own: seq<UsedLeaf>, x: int)
    requires n.Split? && Apart(n) && SoloExcept(n, sel, a, sets, parts) && a < |sel| && x in Keys(n.children[sel[a]])
    ensures Holds(Concat(parts[a := own]), x) <==> Holds(own, x)
  {
    var all := parts[a := own];
    if Holds(Concat(all), x) {
      var l: UsedLeaf :| l in Concat(all) && l.hardware == x;
      var k := InConcat(all, l);
      if k != a {
        SelectedApart(n, sel, a, k);
      }
    }
    if Holds(own, x) {
      var l :| l in own && l.hardware == x;
      InParts(all, a, l);
    }
  }

  /** Ways of the selected children, the one at `a` used as `own`, make a use. */
  lemma UsesWith<F>(n: Node<F>, sel: seq<nat>, a: nat, sets: seq<set<int>>, parts: seq<seq<UsedLeaf>>, own: seq<UsedLeaf>)
    requires n.active && SoloExcept(n, sel, a, sets, parts) && a < |sel| == n.threshold
    requires Uses(n.children[sel[a]], sets[a], Some(Clash(0, 0)), own)
    ensures Uses(n, Together(sets), Some(Clash(0, 0)), Concat(parts[a := own]))
  {
    UsesSelected(n, sel, sets, Together(sets), Clash(0, 0), parts[a := own]);
  }

  /** The node settles on what its selected children settle on, if it may. */
  lemma PicksWith<F>(n: Node<F>, sel: seq<nat>, a: nat, sets: seq<set<int>>, parts: seq<seq<UsedLeaf>>, x: int, y: int, own: seq<UsedLeaf>)
    requires n.active && Proper(n) && Apart(n) && SoloExcept(n, sel, a, sets, parts) && a < |sel| == n.threshold
    requires x in Keys(n.children[sel[a]]) && y !in Keys(n.children[sel[a]])
    requires Pick(n.children[sel[a]], sets[a], Clash(x, y)) == Some(own)
    ensures
      var all := Concat(parts[a := own]);
      Pick(n, Together(sets), Clash(x, y)) == if Acceptable(Clash(x, y), all) then Some(all) else None
  {
    var p, all := Clash(x, y), parts[a := own];
    HearsSelected(n, sel, sets, p);
    forall k | 0 <= k < |sel| && k != a
      ensures x !in Keys(n.children[sel[k]])
    {
      SelectedApart(n, sel, a, k);
    }
    SolosPicked(n, sel, a, sets, parts, x, y);
    AllHeard(n, sel, sets, p, all);
    OnlyChoice(p, all);
  }

  /** A child torn between two ways tears its parent, if the parent needs it. */
  lemma TornParent<F>(
    n: Node<F>, sel: seq<nat>, a: nat, sets: seq<set<int>>, parts: seq<seq<UsedLeaf>>, x: int, other: seq<UsedLeaf>)
    requires n.active && Proper(n) && Apart(n) && SoloExcept(n, sel, a, sets, parts) && a < |sel| == n.threshold
    requires Torn(n.children[sel[a]], sets[a], x, other)
    ensures Torn(n, Together(sets), x, Concat(parts[a := other]))
  {
    var c := n.children[sel[a]];
    ChildIds(n, sel[a]);
    HearsSelected(n, sel, sets, Clash(0, 0));
    UsesWith(n, sel, a, sets, parts, other);
    HeldByOne(n, sel, a, sets, parts, other, x);
    forall y | y !in Keys(n)
      ensures Pick(n, Together(sets), Clash(x, y)).Some? && Holds(Pick(n, Together(sets), Clash(x, y)).value, x)
    {
      var own := Pick(c, sets[a], Clash(x, y)).value;
      PicksWith(n, sel, a, sets, parts, x, y, own);
      HeldByOne(n, sel, a, sets, parts, own, x);
      NobodyHolds(n, sel, a, sets, parts, x, y, own);
      ClashAcceptable(x, y, Concat(parts[a := own]));
    }
  }

  lemma NobodyHolds<F>(
    n: Node<F>, sel: seq<nat>, a: nat, sets: seq<set<int>>, parts: seq<seq<UsedLeaf>>, x: int, y: int, own: seq<UsedLeaf>)
    requires n.active && SoloExcept(n, sel, a, sets, parts) && a < |sel| && y !in Keys(n)
    requires Pick(n.children[sel[a]], sets[a], Clash(x, y)) == Some(own)
    ensures !Holds(Concat(parts[a := own]), y)
  {
    var all := parts[a := own];
    PickIsUsed(n.children[sel[a]], sets[a], Clash(x, y));
    forall l: UsedLeaf | l in Concat(all)
      ensures l.hardware != y
    {
      var k := InConcat(all, l);
      ChildIds(n, sel[k]);
      if k == a {
        UsesKeys(n.children[sel[a]], sets[a], Some(Clash(x, y)), own, l);
      }
    }
  }

  /** Every node with something to choose can be torn. */
  lemma {:induction false} HasChoice<F>(n: Node<F>) returns (ids: set<int>, x: int, other: seq<UsedLeaf>)
    requires n.active && Proper(n) && Apart(n) && !Fixed(n)
    ensures Torn(n, ids, x, other)
    decreases n
  {
    var live := Live(n);
    if n.threshold < |live| {
      var sel := live[..n.threshold + 1];
      var sets, parts := Presenting(n, sel, |sel|, {});
      SpareChild(n, sel, sets, parts);
      return Together(sets), parts[0][0].hardware, Concat(parts[1..]);
    }
    var i :| 0 <= i < |n.children| && n.children[i].active && !Fixed(n.children[i]);
    ids, x, other := HasChoice(n.children[i]);
    var a := Position(live, i);
    var sets, parts := Presenting(n, live, a, ids);
    TornParent(n, live, a, sets, parts, x, other);
    return Together(sets), x, Concat(parts[a := other]);
  }

  // ---- the miss ---------------------------------------------------------------------------------------------

  /** Presented with `ids`, under the policy that clashes `x` with `y`, nothing is picked, although `leaves` would do. */
  ghost predicate Missed<F>(n: Node<F>, ids: set<int>, x: int, y: int, leaves: seq<UsedLeaf>) {
    && ids <= LeafIds(n) && x != y && x in Keys(n) && y in Keys(n)
    && Uses(n, ids, Some(Clash(0, 0)), leaves) && !(Holds(leaves, x) && Holds(leaves, y))
    && Pick(n, ids, Clash(x, y)).None?
  }

  /** As many active children as needed, with a given one among them. */
  lemma Including<F>(n: Node<F>, i: nat) returns (sel: seq<nat>, a: nat)
    requires n.Split? && Proper(n) && i < |n.children| && n.children[i].active
    ensures IsCombination(sel, |n.children|) && |sel| == n.threshold && a < |sel| && sel[a] == i
    ensures forall k :: 0 <= k < |sel| ==> n.children[sel[k]].active
  {
    var live := Live(n);
    assert n.threshold <= |live|;
    hide Proper, Live;
    sel, a := Containing(live, |n.children|, n.threshold, Position(live, i));
  }

  /** A torn child clashes with a sibling that is needed as well. */
  lemma TornMisses<F>(
    n: Node<F>, sel: seq<nat>, a: nat, b: nat, sets: seq<set<int>>, parts: seq<seq<UsedLeaf>>, x: int, other: seq<UsedLeaf>)
    requires n.active && Proper(n) && Apart(n) && SoloExcept(n, sel, a, sets, parts) && a < |sel| == n.threshold
    requires b < |sel| && b != a && Torn(n.children[sel[a]], sets[a], x, other)
    ensures Missed(n, Together(sets), x, parts[b][0].hardware, Concat(parts[a := other]))
  {
    var y := parts[b][0].hardware;
    assert parts[b][0] in parts[b];
    SelectedApart(n, sel, a, b);
    ChildIds(n, sel[a]);
    ChildIds(n, sel[b]);
    HearsSelected(n, sel, sets, Clash(0, 0));
    UsesWith(n, sel, a, sets, parts, other);
    HeldByOne(n, sel, a, sets, parts, other, x);
    var own := Pick(n.children[sel[a]], sets[a], Clash(x, y)).value;
    PicksWith(n, sel, a, sets, parts, x, y, own);
    HeldByOne(n, sel, a, sets, parts, own, x);
    InParts(parts[a := own], b, parts[b][0]);
    ClashAcceptable(x, y, Concat(parts[a := own]));
  }

  /** A child that misses makes its parent miss, if the parent needs it. */
  lemma MissGoesUp<F>(
    n: Node<F>, sel: seq<nat>, a: nat, sets: seq<set<int>>, parts: seq<seq<UsedLeaf>>, x: int, y: int, leaves: seq<UsedLeaf>)
    requires n.active && Proper(n) && Apart(n) && SoloExcept(n, sel, a, sets, parts) && a < |sel| == n.threshold
    requires Missed(n.children[sel[a]], sets[a], x, y, leaves)
    ensures Missed(n, Together(sets), x, y, Concat(parts[a := leaves]))
  {
    ChildIds(n, sel[a]);
    HearsSelected(n, sel, sets, Clash(x, y));
    OneMissing(n, sel, sets, Clash(x, y), a);
    TooFewToChoose(Clash(x, y), n.threshold, Heard(n, |n.children|, Together(sets), Clash(x, y)));
    UsesWith(n, sel, a, sets, parts, leaves);
    HeldByOne(n, sel, a, sets, parts, leaves, x);
    HeldByOne(n, sel, a, sets, parts, leaves, y);
  }

  /** Every tree that is not simple misses something. */
  lemma {:induction false} NotSimpleMisses<F>(n: Node<F>) returns (ids: set<int>, x: int, y: int, leaves: seq<UsedLeaf>)
    requires n.active && Proper(n) && Apart(n) && !Simple(n)
    ensures Missed(n, ids, x, y, leaves)
    decreases n
  {
    if i :| 0 <= i < |n.children| && n.children[i].active && !Simple(n.children[i]) {
      ids, x, y, leaves := NotSimpleMisses(n.children[i]);
      var sel, a := Including(n, i);
      var sets, parts := Presenting(n, sel, a, ids);
      MissGoesUp(n, sel, a, sets, parts, x, y, leaves);
      return Together(sets), x, y, Concat(parts[a := leaves]);
    }
    var i :| 0 <= i < |n.children| && n.children[i].active && !Fixed(n.children[i]);
    var other;
    ids, x, other := HasChoice(n.children[i]);
    var sel, a := Including(n, i);
    var sets, parts := Presenting(n, sel, a, ids);
    var b := if a == 0 then 1 else 0;
    TornMisses(n, sel, a, b, sets, parts, x, other);
    return Together(sets), x, parts[b][0].hardware, Concat(parts[a := other]);
  }

  lemma MissIsIncomplete<F>(n: Node<F>, ids: set<int>, x: int, y: int, leaves: seq<UsedLeaf>)
    requires Proper(n) && Missed(n, ids, x, y, leaves)
    ensures !Complete(n, ids, Clash(x, y))
  {
    UsesMore(n, ids, ids, Clash(0, 0), Clash(x, y), leaves);
    UsesNonEmpty(n, ids, Some(Clash(0, 0)), leaves);
    ClashAcceptable(x, y, leaves);
  }

  /**
   With few enough choices at each node, recovery is complete for all presented
   leaves and all policies if and only if the tree is simple.
   */
  lemma CompleteExactly<F>(n: Node<F>)
    requires n.active && Proper(n) && Apart(n) && InLimit(n)
    ensures (forall ids, p :: Complete(n, ids, p)) <==> Simple(n)
  {
    if Simple(n) {
      forall ids, p
        ensures Complete(n, ids, p)
      {
        SimpleIsGood(n, ids, p);
        GoodIsComplete(n, ids, p);
      }
    } else {
      var ids, x, y, leaves := NotSimpleMisses(n);
      MissIsIncomplete(n, ids, x, y, leaves);
    }
  }

  // ---- built trees --------------------------------------------------------------------------------------------

  ghost function SpecKeys(spec: TC.Spec): set<int> {
    match spec
    case LeafSpec(_, hardware) => {hardware}
    case SplitSpec(_, _, children) => set i, x | 0 <= i < |children| && x in SpecKeys(children[i]) :: x
  }

  /** No hardware key is named for two leaves. */
  ghost predicate KeysApart(spec: TC.Spec) {
    spec.SplitSpec? ==>
      && (forall i :: 0 <= i < |spec.children| ==> KeysApart(spec.children[i]))
      && forall i, j :: 0 <= i < j < |spec.children| ==> SpecKeys(spec.children[i]) !! SpecKeys(spec.children[j])
  }

  lemma {:induction false} BuiltKeys<F>(n: Node<F>, spec: TC.Spec)
    requires TC.Matches(n, spec)
    ensures Keys(n) == SpecKeys(spec)
    decreases spec
  {
    if spec.SplitSpec? {
      forall i | 0 <= i < |n.children|
        ensures Keys(n.children[i]) == SpecKeys(spec.children[i])
      {
        BuiltKeys(n.children[i], spec.children[i]);
      }
    }
  }

  lemma {:induction false} LeavesAmongAll<F>(n: Node<F>)
    ensures LeafIds(n) <= TC.AllIds(n)
    decreases n
  {
    if n.Split? && n.active {
      forall i | 0 <= i < |n.children|
        ensures LeafIds(n.children[i]) <= TC.AllIds(n.children[i])
      {
        LeavesAmongAll(n.children[i]);
      }
    }
  }

  /** A tree built from distinct keys has its leaves apart. */
  lemma {:induction false} BuiltApart<F>(n: Node<F>, spec: TC.Spec)
    requires TC.Matches(n, spec) && TC.DistinctIds(n) && KeysApart(spec)
    ensures Apart(n)
    decreases spec
  {
    if spec.SplitSpec? {
      forall i | 0 <= i < |n.children|
        ensures Apart(n.children[i]) && Keys(n.children[i]) == SpecKeys(spec.children[i])
        ensures LeafIds(n.children[i]) <= TC.AllIds(n.children[i])
      {
        BuiltApart(n.children[i], spec.children[i]);
        BuiltKeys(n.children[i], spec.children[i]);
        LeavesAmongAll(n.children[i]);
      }
    }
  }

  // ---- an example ---------------------------------------------------------------------------------------------

  const A1 := UsedLeaf(1, "a1")
  const A2 := UsedLeaf(2, "a2")
  const A3 := UsedLeaf(3, "a3")
  const B := UsedLeaf(9, "b")

  /** Both of a node that needs two of three leaves, and of a single leaf. */
  function TwoLevels(): TC.Spec {
    TC.SplitSpec("root", 2, [
      TC.SplitSpec("a", 2, [TC.LeafSpec("a1", 1), TC.LeafSpec("a2", 2), TC.LeafSpec("a3", 3)]),
      TC.LeafSpec("b", 9)])
  }

  predicate IsLeaf<F>(n: Node<F>, l: UsedLeaf, ids: set<int>) {
    n.Leaf? && n.active && n.id in ids && l == UsedLeaf(n.hardware, n.name)
  }

  /** The tree of that spec, with every leaf presented. */
  predicate AllPresented<F>(root: Node<F>, ids: set<int>) {
    && root.Split? && root.active && root.threshold == 2 && |root.children| == 2
    && (var a := root.children[0];
        && a.Split? && a.active && a.threshold == 2 && |a.children| == 3
        && IsLeaf(a.children[0], A1, ids) && IsLeaf(a.children[1], A2, ids) && IsLeaf(a.children[2], A3, ids))
    && IsLeaf(root.children[1], B, ids)
  }

  lemma ConcatTwo<T>(parts: seq<seq<T>>)
    requires |parts| == 2
    ensures Concat(parts) == parts[0] + parts[1]
  {
    ConcatOne(parts[..1]);
  }

  lemma LeafPicked<F>(n: Node<F>, l: UsedLeaf, ids: set<int>, x: int, y: int)
    requires IsLeaf(n, l, ids)
    ensures Pick(n, ids, Clash(x, y)) == Some([l])
  {
  }

  /** The inner node takes its first two leaves, whatever shares a device with the first. */
  lemma InnerTakesFirst<F>(a: Node<F>, ids: set<int>)
    requires a.Split? && a.active && a.threshold == 2 && |a.children| == 3
    requires IsLeaf(a.children[0], A1, ids) && IsLeaf(a.children[1], A2, ids) && IsLeaf(a.children[2], A3, ids)
    ensures Pick(a, ids, Clash(1, 9)) == Some([A1, A2])
  {
    var heard := [[A1], [A2], [A3]];
    InnerHears(a, ids);
    assert Pick(a, ids, Clash(1, 9)) == Choose(Clash(1, 9), 2, heard);
    hide Pick, Choose;
    ConcatTwo(heard[..2]);
    assert Concat(heard[..2]) == [A1, A2];
    ClashAcceptable(1, 9, [A1, A2]);
    FirstChoice(Clash(1, 9), 2, heard);
  }

  lemma InnerHears<F>(a: Node<F>, ids: set<int>)
    requires a.Split? && |a.children| == 3
    requires IsLeaf(a.children[0], A1, ids) && IsLeaf(a.children[1], A2, ids) && IsLeaf(a.children[2], A3, ids)
    ensures Heard(a, 3, ids, Clash(1, 9)) == [[A1], [A2], [A3]]
  {
    var p := Clash(1, 9);
    LeafPicked(a.children[0], A1, ids, 1, 9);
    LeafPicked(a.children[1], A2, ids, 1, 9);
    LeafPicked(a.children[2], A3, ids, 1, 9);
    hide Pick;
    assert Heard(a, 0, ids, p) == [];
    assert Heard(a, 1, ids, p) == [[A1]];
    assert Heard(a, 2, ids, p) == [[A1], [A2]];
  }

  /** Its last two leaves would do. */
  lemma OthersWouldDo<F>(root: Node<F>, ids: set<int>)
    requires AllPresented(root, ids)
    ensures Uses(root, ids, Some(Clash(1, 9)), [A2, A3, B]) && Meets(Clash(1, 9), [A2, A3, B])
  {
    var p, a := Some(Clash(1, 9)), root.children[0];
    var inner, outer: seq<nat> := [1, 2], [0, 1];
    ConcatTwo([[A2], [A3]]);
    assert UsesChildren(a, ids, p, [A2, A3], inner, [[A2], [A3]]);
    ConcatTwo([[A2, A3], [B]]);
    assert Uses(root.children[1], ids, p, [B]);
    assert UsesChildren(root, ids, p, [A2, A3, B], outer, [[A2, A3], [B]]);
    ClashAcceptable(1, 9, [A2, A3, B]);
  }

  lemma NothingPickedAtRoot<F>(root: Node<F>, ids: set<int>)
    requires AllPresented(root, ids)
    ensures Pick(root, ids, Clash(1, 9)).None?
  {
    var p, heard := Clash(1, 9), [[A1, A2], [B]];
    InnerTakesFirst(root.children[0], ids);
    LeafPicked(root.children[1], B, ids, 1, 9);
    assert Heard(root, 0, ids, p) == [];
    assert Heard(root, 1, ids, p) == [[A1, A2]];
    assert Heard(root, 2, ids, p) == heard;
    ConcatTwo(heard);
    var all := Concat(heard);
    assert A1 in all && B in all;
    ClashAcceptable(1, 9, all);
    OnlyChoice(p, heard);
  }

  lemma NamesDiffer()
    ensures TC.UniqueNames(TC.Names(TwoLevels()))
  {
    var inner := [TC.LeafSpec("a1", 1), TC.LeafSpec("a2", 2), TC.LeafSpec("a3", 3)];
    assert inner[1..] == [TC.LeafSpec("a2", 2), TC.LeafSpec("a3", 3)] && inner[1..][1..] == [TC.LeafSpec("a3", 3)];
    assert inner[1..][1..][1..] == [];
    assert TC.NamesOfAll(inner[1..][1..]) == ["a3"];
    assert TC.NamesOfAll(inner[1..]) == ["a2", "a3"];
    assert TC.NamesOfAll(inner) == ["a1", "a2", "a3"];
    var outer := [TC.SplitSpec("a", 2, inner), TC.LeafSpec("b", 9)];
    assert outer[1..] == [TC.LeafSpec("b", 9)] && outer[1..][1..] == [];
    assert TC.NamesOfAll(outer[1..]) == ["b"];
    assert TC.NamesOfAll(outer) == ["a", "a1", "a2", "a3", "b"];
    assert TC.Names(TwoLevels()) == ["root", "a", "a1", "a2", "a3", "b"];
  }

  /** The four leaves have ids of their own. */
  lemma FourIds<F>(root: Node<F>)
    requires AllPresented(root, LeafIds(root)) && TC.DistinctIds(root)
    ensures
      var a := root.children[0];
      var (i, j, k, l) := (a.children[0].id, a.children[1].id, a.children[2].id, root.children[1].id);
      i != j && i != k && j != k && i != l && j != l && k != l
  {
    var a := root.children[0];
    assert forall i :: 0 <= i < 3 ==> a.children[i].id in TC.AllIds(a.children[i]) && a.children[i].id in TC.AllIds(a);
    assert root.children[1].id in TC.AllIds(root.children[1]);
  }

  lemma BuiltShape<F>(root: Node<F>)
    requires TC.Matches(root, TwoLevels())
    ensures AllPresented(root, LeafIds(root))
  {
    var spec := TwoLevels();
    var a, b := root.children[0], root.children[1];
    assert TC.Matches(a, spec.children[0]) && TC.Matches(b, spec.children[1]);
    forall i | 0 <= i < 3
      ensures TC.Matches(a.children[i], spec.children[0].children[i]) && a.children[i].id in LeafIds(a.children[i])
      ensures LeafIds(a.children[i]) <= LeafIds(a) <= LeafIds(root)
    {
      ChildIds(a, i);
      ChildIds(root, 0);
    }
    ChildIds(root, 1);
  }

  lemma SpecIsValid()
    ensures TC.ValidSpec(QuarterField(), {1, 2, 3, 9}, TwoLevels())
  {
  }

  lemma SharedAndGenuine<F(!new)>(f: Ops<F>, root: Node<F>, v: seq<F>, presented: map<int, seq<F>>)
    requires IsField(f) && KT.WellShared(f, root, v) && |v| >= 1 && TC.Genuine(root, presented)
    ensures GenuinelyShared(f, root, v, presented)
  {
  }

  /** Every leaf presents its share. */
  method PresentAll<F(==, !new)>(root: Node<F>) returns (presented: map<int, seq<F>>)
    requires TC.Matches(root, TwoLevels()) && TC.DistinctIds(root)
    ensures TC.Genuine(root, presented) && AllPresented(root, presented.Keys)
  {
    BuiltShape(root);
    FourIds(root);
    hide TC.Matches, TC.DistinctIds, LeafIds;
    var a, b := root.children[0], root.children[1];
    presented := map[a.children[0].id := a.children[0].share, a.children[1].id := a.children[1].share,
                     a.children[2].id := a.children[2].share, b.id := b.share];
    assert presented[a.children[0].id] == a.children[0].share;
    assert presented[a.children[1].id] == a.children[1].share;
    assert presented[a.children[2].id] == a.children[2].share;
    assert forall i :: 0 <= i < 3 ==> TC.Genuine(a.children[i], presented);
    assert presented[b.id] == b.share;
    assert TC.Genuine(a, presented) && TC.Genuine(b, presented);
    assert forall i :: 0 <= i < 2 ==> TC.Genuine(root.children[i], presented);
  }

  /**
   A two-level tree over the field of four elements, built as the code builds it:
   with all its shares presented it is refused, although some of them would do.
   */
  method BuiltMiss() returns (
      root: Node<Quarter>, presented: map<int, seq<Quarter>>, r: Result<(seq<Quarter>, seq<Group>, seq<UsedLeaf>)>)
    ensures GenuinelyShared(QuarterField(), root, [Quarter(true, false)], presented) && TC.Matches(root, TwoLevels())
    ensures r.Err?
    ensures exists leaves :: Uses(root, presented.Keys, Some(Clash(1, 9)), leaves) && Meets(Clash(1, 9), leaves)
  {
    QuarterIsField();
    NamesDiffer();
    SpecIsValid();
    hide *;
    var secret := [Quarter(true, false)];
    var built := TC.BuildTree(QuarterField(), {1, 2, 3, 9}, (i: int, k: nat, j: nat) => Quarter(true, true), secret, TwoLevels());
    root := built.value;
    presented := PresentAll(root);
    SharedAndGenuine(QuarterField(), root, secret, presented);
    r := ReconstructPresented(QuarterField(), root, presented, Clash(1, 9), secret);
    NothingPickedAtRoot(root, presented.Keys);
    OthersWouldDo(root, presented.Keys);
  }
}
