/** Recovering the secret of a key tree from presented shares. */
module Recovery {
  import opened Field
  import opened Results
  import opened Sharing
  import opened Combination
  import opened Custody
  import opened Selection
  import KT = KeyTree
  import TC = TreeChanges
  import TR = TreeRuns
  import TreeKeys

  type Node<F> = KT.Node<F>

  // ---- when the thresholds are met, and by whom --------------------------------

  /** The presented active leaves meet the nested thresholds under this node. */
  predicate Satisfied<F>(n: Node<F>, ids: set<int>)
    decreases n, 1, 0
  {
    n.active &&
    match n
    case Leaf(id, _, _, _, _) => id in ids
    case Split(_, _, _, threshold, children) => threshold <= SatisfiedCount(n, |children|, ids)
  }

  /** How many of the first `k` children are satisfied. */
  function SatisfiedCount<F>(n: Node<F>, k: nat, ids: set<int>): nat
    requires n.Split? && k <= |n.children|
    decreases n, 0, k
  {
    if k == 0 then 0
    else SatisfiedCount(n, k - 1, ids) + if Satisfied(n.children[k - 1], ids) then 1 else 0
  }

  function Concat<T>(parts: seq<seq<T>>): seq<T> {
    if parts == [] then [] else Concat(parts[..|parts| - 1]) + parts[|parts| - 1]
  }

  predicate Allowed(policy: Option<Policy>, hardware: int) {
    policy.Some? ==> hardware !in policy.value.ghosts
  }

  /**
   `leaves` is what a recovery of this node uses: at a leaf, that leaf, active,
   presented and no ghost; at a split node, exactly threshold children, in
   order, each used in turn.
   */
  ghost predicate Uses<F>(n: Node<F>, ids: set<int>, policy: Option<Policy>, leaves: seq<UsedLeaf>)
    decreases n, 1
  {
    n.active &&
    match n
    case Leaf(id, name, hardware, _, _) =>
      id in ids && Allowed(policy, hardware) && leaves == [UsedLeaf(hardware, name)]
    case Split(_, _, _, _, _) => exists from, parts :: UsesChildren(n, ids, policy, leaves, from, parts)
  }

  ghost predicate UsesChildren<F>(
    n: Node<F>, ids: set<int>, policy: Option<Policy>, leaves: seq<UsedLeaf>, from: seq<nat>, parts: seq<seq<UsedLeaf>>)
    requires n.Split?
    decreases n, 0
  {
    && |from| == |parts| == n.threshold && IsCombination(from, |n.children|)
    && leaves == Concat(parts)
    && forall k :: 0 <= k < |from| ==> Uses(n.children[from[k]], ids, policy, parts[k])
  }

  // ---- the choice under a policy ---------------------------------------------------

  /** The used leaves satisfy the whole policy. */
  predicate Meets(p: Policy, leaves: seq<UsedLeaf>) {
    Acceptable(p, leaves) && DeviceCount(p, leaves) >= p.minimum
  }

  /** The leaves of the winning choice. */
  ghost function Choose(p: Policy, t: nat, parts: seq<seq<UsedLeaf>>): Option<seq<UsedLeaf>> {
    if exists c :: Wins(p, t, parts, c) then
      var c :| Wins(p, t, parts, c);
      Some(LeavesOf(parts, c))
    else None
  }

  /** The leaves a node settles on, from those its children settled on. */
  ghost function Pick<F>(n: Node<F>, ids: set<int>, p: Policy): Option<seq<UsedLeaf>>
    decreases n, 1, 0
  {
    if !n.active then None
    else match n
      case Leaf(id, name, hardware, _, _) =>
        if id in ids && Allowed(Some(p), hardware) then Some([UsedLeaf(hardware, name)]) else None
      case Split(_, _, _, threshold, children) => Choose(p, threshold, Heard(n, |children|, ids, p))
  }

  /** What the first `k` children settled on, those that settled at all. */
  ghost function Heard<F>(n: Node<F>, k: nat, ids: set<int>, p: Policy): seq<seq<UsedLeaf>>
    requires n.Split? && k <= |n.children|
    decreases n, 0, k
  {
    if k == 0 then []
    else
      var pick := Pick(n.children[k - 1], ids, p);
      Heard(n, k - 1, ids, p) + if pick.Some? then [pick.value] else []
  }

  lemma ChooseIs(p: Policy, t: nat, parts: seq<seq<UsedLeaf>>, c: seq<nat>)
    requires Wins(p, t, parts, c)
    ensures Choose(p, t, parts) == Some(LeavesOf(parts, c))
  {
    var d :| Wins(p, t, parts, d) && Choose(p, t, parts) == Some(LeavesOf(parts, d));
    WinsOnce(p, t, parts, c, d);
  }

  lemma NobodyWins(p: Policy, t: nat, parts: seq<seq<UsedLeaf>>)
    requires forall c :: Reached(c, |parts|, t) ==> !Acceptable(p, LeavesOf(parts, c))
    ensures Choose(p, t, parts).None?
  {
  }

  /** With no child to choose, or too few, nobody wins. */
  lemma TooFewToChoose(p: Policy, t: nat, parts: seq<seq<UsedLeaf>>)
    requires t == 0 || |parts| < t
    ensures Choose(p, t, parts).None?
  {
    if c :| Wins(p, t, parts, c) {
      SizeBound(c, |parts|);
      assert false;
    }
  }

  // ---- recovery -----------------------------------------------------------------

  /** The tree is well shared and the presented shares are genuine. */
  ghost predicate GenuinelyShared<F(!new)>(f: Ops<F>, n: Node<F>, v: seq<F>, presented: map<int, seq<F>>) {
    IsField(f) && KT.WellShared(f, n, v) && |v| >= 1 && TC.Genuine(n, presented)
  }

  /** The children that resolved, each with the position it came from. */
  ghost predicate ResolvedFrom<F>(
    n: Node<F>, ids: set<int>, policy: Option<Policy>, k: nat, resolved: seq<Child<F>>, origin: seq<nat>)
    requires n.Split? && k <= |n.children|
  {
    && |resolved| == |origin| && IsCombination(origin, k)
    && forall j :: 0 <= j < |resolved| ==>
      |resolved[j].share| >= 2 && Uses(n.children[origin[j]], ids, policy, resolved[j].leaves)
  }

  /** The resolved children hold their shares of the dealing. */
  ghost predicate OnDealing<F>(f: Ops<F>, polys: seq<seq<F>>, xs: seq<F>, resolved: seq<Child<F>>, origin: seq<nat>) {
    && |resolved| == |origin|
    && forall j :: 0 <= j < |resolved| ==> origin[j] < |xs| && resolved[j].share == ShareAt(f, polys, xs[origin[j]])
  }

  lemma {:induction false} ConcatOfChosen(all: seq<seq<UsedLeaf>>, chosen: seq<nat>, parts: seq<seq<UsedLeaf>>)
    requires |parts| == |chosen|
    requires forall k :: 0 <= k < |chosen| ==> chosen[k] < |all| && parts[k] == all[chosen[k]]
    ensures LeavesOf(all, chosen) == Concat(parts)
  {
    if chosen != [] {
      ConcatOfChosen(all, chosen[..|chosen| - 1], parts[..|chosen| - 1]);
    }
  }

  lemma ChoiceIsUsed<F>(
    n: Node<F>, ids: set<int>, policy: Option<Policy>, all: seq<seq<UsedLeaf>>, origin: seq<nat>, chosen: seq<nat>)
    requires n.Split? && n.active && |all| == |origin| && IsCombination(origin, |n.children|)
    requires forall j :: 0 <= j < |all| ==> Uses(n.children[origin[j]], ids, policy, all[j])
    requires Candidate(chosen, |all|, n.threshold)
    ensures Uses(n, ids, policy, LeavesOf(all, chosen))
  {
    var from := seq(|chosen|, k requires 0 <= k < |chosen| => origin[chosen[k]]);
    var parts := seq(|chosen|, k requires 0 <= k < |chosen| => all[chosen[k]]);
    ConcatOfChosen(all, chosen, parts);
    assert UsesChildren(n, ids, policy, LeavesOf(all, chosen), from, parts);
  }

  lemma ChosenRecover<F(!new)>(
    f: Ops<F>, n: Node<F>, v: seq<F>, polys: seq<seq<F>>, xs: seq<F>,
    resolved: seq<Child<F>>, origin: seq<nat>, chosen: seq<nat>)
    requires IsField(f) && |v| >= 1 && n.Split? && KT.DealtBy(f, n, v, polys, xs)
    requires OnDealing(f, polys, xs, resolved, origin) && IsCombination(origin, |n.children|)
    requires forall j :: 0 <= j < |origin| ==> n.children[origin[j]].active
    requires Candidate(chosen, |resolved|, n.threshold)
    ensures forall k :: 0 <= k < |chosen| ==> |SharesAt(resolved, chosen)[k]| >= 2
    ensures Recover(f, n.threshold, SharesAt(resolved, chosen)) == Ok(v)
  {
    var shares := SharesAt(resolved, chosen);
    forall k | 0 <= k < |shares|
      ensures shares[k] == ShareAt(f, polys, xs[origin[chosen[k]]]) && xs[origin[chosen[k]]] in f.xs
    {
    }
    forall k, l | 0 <= k < l < |shares|
      ensures xs[origin[chosen[k]]] != xs[origin[chosen[l]]]
    {
      assert chosen[k] < chosen[l] && origin[chosen[k]] < origin[chosen[l]];
    }
    assert OnPolys(f, polys, shares);
    RecoverDealing(f, n.threshold, v, polys, shares);
  }

  method ReconstructNode<F(==, !new)>(
    f: Ops<F>, n: Node<F>, presented: map<int, seq<F>>, policy: Option<Policy>, ghost v: seq<F>)
    returns (r: Result<(seq<F>, seq<UsedLeaf>)>)
    ensures r.Ok? ==> Uses(n, presented.Keys, policy, r.value.1)
    ensures GenuinelyShared(f, n, v, presented) && r.Ok? ==> r.value.0 == v
    ensures GenuinelyShared(f, n, v, presented) && policy.None? ==> (r.Ok? <==> Satisfied(n, presented.Keys))
    ensures GenuinelyShared(f, n, v, presented) && policy.Some? ==>
      Pick(n, presented.Keys, policy.value) == if r.Ok? then Some(r.value.1) else None
    decreases n, 1
  {
    if !n.active {
      return Err(QuorumNotMet);
    }
    if n.Leaf? {
      if !Allowed(policy, n.hardware) {
        return Err(GhostDenied);
      }
      if n.id !in presented {
        return Err(QuorumNotMet);
      }
      return Ok((presented[n.id], [UsedLeaf(n.hardware, n.name)]));
    }
    ghost var polys: seq<seq<F>>, xs: seq<F> := [], [];
    ghost var shared := GenuinelyShared(f, n, v, presented);
    if shared {
      polys, xs := KT.Dealing(f, n, v);
    }
    var resolved, origin := ResolveChildren(f, n, presented, policy, shared, v, polys, xs);
    var selected, chosen := SelectChildSubset(policy, n.threshold, resolved);
    if shared && policy.Some? {
      Decided(n, presented.Keys, policy.value, resolved, if selected.Ok? then Ok(chosen) else Err(selected.error));
    }
    if selected.Err? {
      return Err(selected.error);
    }
    ChoiceIsUsed(n, presented.Keys, policy, Parts(resolved), origin, chosen);
    if shared {
      ChosenRecover(f, n, v, polys, xs, resolved, origin, chosen);
    }
    var value := Recover(f, n.threshold, selected.value.0);
    if value.Err? {
      return Err(QuorumNotMet);
    }
    return Ok((value.value, selected.value.1));
  }

  /** The search comes to the node's pick. */
  lemma Decided<F>(n: Node<F>, ids: set<int>, p: Policy, resolved: seq<Child<F>>, r: Result<seq<nat>>)
    requires n.Split? && n.active && Parts(resolved) == Heard(n, |n.children|, ids, p)
    requires r.Ok? ==> 1 <= n.threshold && Candidate(r.value, |resolved|, n.threshold)
    requires 1 <= n.threshold <= |resolved| ==> Settled(p, n.threshold, resolved, r)
    ensures Pick(n, ids, p) == if r.Ok? then Some(LeavesAt(resolved, r.value)) else None
  {
    var parts := Parts(resolved);
    if r.Ok? {
      SizeBound(r.value, |resolved|);
      ChooseIs(p, n.threshold, parts, r.value);
    } else if 1 <= n.threshold <= |resolved| {
      NobodyWins(p, n.threshold, parts);
    } else {
      TooFewToChoose(p, n.threshold, parts);
    }
  }

  /** One child: nothing unless it is active, resolves, and its value parses as a share. */
  method ResolveChild<F(==, !new)>(
    f: Ops<F>, n: Node<F>, i: nat, presented: map<int, seq<F>>, policy: Option<Policy>,
    ghost shared: bool, ghost v: seq<F>, ghost polys: seq<seq<F>>, ghost xs: seq<F>)
    returns (c: Option<Child<F>>)
    requires n.Split? && i < |n.children|
    requires shared ==> GenuinelyShared(f, n, v, presented) && KT.DealtBy(f, n, v, polys, xs)
    ensures c.Some? ==>
      n.children[i].active && |c.value.share| >= 2 && Uses(n.children[i], presented.Keys, policy, c.value.leaves)
    ensures shared ==> |xs| == |n.children|
    ensures shared && c.Some? ==> c.value.share == ShareAt(f, polys, xs[i])
    ensures shared && policy.None? ==> (c.Some? <==> Satisfied(n.children[i], presented.Keys))
    ensures shared && policy.Some? ==>
      Pick(n.children[i], presented.Keys, policy.value) == if c.Some? then Some(c.value.leaves) else None
    decreases n, 0, 0
  {
    if !n.children[i].active {
      return None;
    }
    ghost var w := if shared then ShareAt(f, polys, xs[i]) else [];
    if shared {
      ChildShared(f, n, v, presented, polys, xs, i);
    }
    var value := ReconstructNode(f, n.children[i], presented, policy, w);
    if value.Ok? && |value.value.0| >= 2 {
      return Some(Child(value.value.0, value.value.1));
    }
    return None;
  }

  method ResolveChildren<F(==, !new)>(
    f: Ops<F>, n: Node<F>, presented: map<int, seq<F>>, policy: Option<Policy>,
    ghost shared: bool, ghost v: seq<F>, ghost polys: seq<seq<F>>, ghost xs: seq<F>)
    returns (resolved: seq<Child<F>>, ghost origin: seq<nat>)
    requires n.Split?
    requires shared ==> GenuinelyShared(f, n, v, presented) && KT.DealtBy(f, n, v, polys, xs)
    ensures ResolvedFrom(n, presented.Keys, policy, |n.children|, resolved, origin)
    ensures shared ==> OnDealing(f, polys, xs, resolved, origin)
    ensures forall j :: 0 <= j < |origin| ==> n.children[origin[j]].active
    ensures shared && policy.None? ==> |resolved| == SatisfiedCount(n, |n.children|, presented.Keys)
    ensures shared && policy.Some? ==> Parts(resolved) == Heard(n, |n.children|, presented.Keys, policy.value)
    decreases n, 0, 1
  {
    resolved, origin := [], [];
    hide Pick, Uses, Satisfied, GenuinelyShared, KT.DealtBy, Parts;
    for i := 0 to |n.children|
      invariant ResolvedFrom(n, presented.Keys, policy, i, resolved, origin)
      invariant shared ==> OnDealing(f, polys, xs, resolved, origin)
      invariant forall j :: 0 <= j < |origin| ==> n.children[origin[j]].active
      invariant shared && policy.None? ==> |resolved| == SatisfiedCount(n, i, presented.Keys)
      invariant shared && policy.Some? ==> Parts(resolved) == Heard(n, i, presented.Keys, policy.value)
    {
      var c := ResolveChild(f, n, i, presented, policy, shared, v, polys, xs);
      ResolvedStep(f, n, presented.Keys, policy, i, resolved, origin, c, polys, xs, shared);
      if c.Some? {
        PartsAppend(resolved, c.value);
        resolved, origin := resolved + [c.value], origin + [i];
      }
    }
  }

  lemma PartsAppend<F>(children: seq<Child<F>>, c: Child<F>)
    ensures Parts(children + [c]) == Parts(children) + [c.leaves]
  {
  }

  lemma ResolvedStep<F>(
    f: Ops<F>, n: Node<F>, ids: set<int>, policy: Option<Policy>, i: nat, resolved: seq<Child<F>>, origin: seq<nat>,
    c: Option<Child<F>>, polys: seq<seq<F>>, xs: seq<F>, shared: bool)
    requires n.Split? && i < |n.children| && ResolvedFrom(n, ids, policy, i, resolved, origin)
    requires c.Some? ==> |c.value.share| >= 2 && Uses(n.children[i], ids, policy, c.value.leaves)
    requires shared ==> OnDealing(f, polys, xs, resolved, origin) && |xs| == |n.children|
    requires shared && c.Some? ==> c.value.share == ShareAt(f, polys, xs[i])
    ensures c.None? ==> ResolvedFrom(n, ids, policy, i + 1, resolved, origin)
    ensures c.Some? ==> ResolvedFrom(n, ids, policy, i + 1, resolved + [c.value], origin + [i])
    ensures shared && c.Some? ==> OnDealing(f, polys, xs, resolved + [c.value], origin + [i])
  {
  }

  lemma ChildShared<F(!new)>(
    f: Ops<F>, n: Node<F>, v: seq<F>, presented: map<int, seq<F>>, polys: seq<seq<F>>, xs: seq<F>, i: nat)
    requires n.Split? && GenuinelyShared(f, n, v, presented) && KT.DealtBy(f, n, v, polys, xs)
    requires i < |n.children| && n.children[i].active
    ensures GenuinelyShared(f, n.children[i], ShareAt(f, polys, xs[i]), presented)
  {
  }

  // ---- recovery under a custody policy -------------------------------------------

  lemma {:induction false} InConcat<T>(parts: seq<seq<T>>, x: T) returns (k: nat)
    requires x in Concat(parts)
    ensures k < |parts| && x in parts[k]
  {
    var n := |parts| - 1;
    if x in parts[n] {
      k := n;
    } else {
      k := InConcat(parts[..n], x);
    }
  }

  /** Every reported leaf is a leaf of the tree that is active, presented and no ghost. */
  lemma {:induction false} UsedLeavesArePresented<F>(
    n: Node<F>, ids: set<int>, policy: Option<Policy>, leaves: seq<UsedLeaf>, l: UsedLeaf) returns (path: seq<nat>)
    requires Uses(n, ids, policy, leaves) && l in leaves
    ensures KT.IsPath(n, path)
    ensures
      var leaf := KT.NodeAt(n, path);
      && leaf.Leaf? && leaf.active && leaf.id in ids && (policy.Some? ==> leaf.hardware !in policy.value.ghosts)
      && l == UsedLeaf(leaf.hardware, leaf.name)
    decreases n
  {
    if n.Leaf? {
      return [];
    }
    var from, parts :| UsesChildren(n, ids, policy, leaves, from, parts);
    var k := InConcat(parts, l);
    var rest := UsedLeavesArePresented(n.children[from[k]], ids, policy, parts[k], l);
    path := [from[k]] + rest;
    assert path[1..] == rest;
  }

  /**
   The secret, with the devices and leaves behind it. From genuine shares it is
   returned exactly when the root's pick satisfies the policy.
   */
  method ReconstructPresented<F(==, !new)>(
    f: Ops<F>, root: Node<F>, presented: map<int, seq<F>>, policy: Policy, ghost secret: seq<F>)
    returns (r: Result<(seq<F>, seq<Group>, seq<UsedLeaf>)>)
    ensures r.Ok? ==> Uses(root, presented.Keys, Some(policy), r.value.2)
    ensures r.Ok? ==> DeviceCount(policy, r.value.2) >= policy.minimum && Grouped(policy, r.value.2, r.value.1)
    ensures r.Ok? ==> |r.value.1| == DeviceCount(policy, r.value.2)
    ensures r.Ok? && policy.hardwareMode ==> !Crowded(policy, r.value.2)
    ensures GenuinelyShared(f, root, secret, presented) ==>
      var pick := Pick(root, presented.Keys, policy);
      && (r.Ok? <==> pick.Some? && Meets(policy, pick.value))
      && (r.Ok? ==> r.value.0 == secret && r.value.2 == pick.value)
  {
    var found := ReconstructNode(f, root, presented, Some(policy), secret);
    if found.Err? {
      return Err(found.error);
    }
    var devices := EnforceDevices(policy, found.value.1);
    if devices.Err? {
      return Err(devices.error);
    }
    return Ok((found.value.0, devices.value, found.value.1));
  }

  // ---- the whole life of a tree ----------------------------------------------------

  /**
   Split a secret, apply any changes, recover: from genuine current shares the
   recovery succeeds exactly when the presented active leaves meet the nested
   thresholds of the changed tree, and then returns the original secret.
   */
  method SplitChangeRecover<F(==, !new)>(
    f: Ops<F>, usable: set<int>, coins: (int, nat, nat) -> F, secret: seq<F>, spec: TC.Spec,
    changes: seq<TR.Change<F>>, presented: map<int, seq<F>>)
    returns (r: Result<(Node<F>, Result<(seq<F>, seq<UsedLeaf>)>)>, ghost trace: seq<Node<F>>)
    requires IsField(f) && |secret| >= 1
    ensures r.Ok? <==> TC.ValidSpec(f, usable, spec) && TC.UniqueNames(TC.Names(spec))
    ensures r.Ok? ==> TR.Shares(f, r.value.0, secret)
    ensures r.Ok? ==>
      && |trace| == |changes| + 1 && TC.Matches(trace[0], spec) && KT.WellShared(f, trace[0], secret)
      && TR.Traced(f, trace[0], changes, usable, trace) && trace[|changes|] == r.value.0
      && KT.Keeps(f, trace[0], r.value.0)
    ensures r.Ok? && TC.Genuine(r.value.0, presented) ==>
      && (r.value.1.Ok? <==> Satisfied(r.value.0, presented.Keys))
      && (r.value.1.Ok? ==> r.value.1.value.0 == secret)
  {
    trace := [];
    var built := TC.BuildTree(f, usable, coins, secret, spec);
    if built.Err? {
      return Err(built.error), trace;
    }
    var last;
    TreeKeys.BuiltIsUnique(built.value, spec);
    last, trace := TR.Run(f, built.value, changes, usable, secret);
    var recovered := ReconstructNode(f, last, presented, None, secret);
    return Ok((last, recovered)), trace;
  }
}
