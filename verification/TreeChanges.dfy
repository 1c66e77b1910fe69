/**
 Building a key tree and changing it afterwards: adding a leaf with a fresh
 dealing, evicting one with a proactive refresh, and moving one to another
 hardware key.
 */
module TreeChanges {
  import opened Field
  import opened Results
  import opened Sharing
  import opened ProactiveRefresh
  import opened KeyTree

  // ---- splitting ------------------------------------------------------------

  datatype Spec =
    | LeafSpec(name: string, hardware: int)
    | SplitSpec(name: string, threshold: nat, children: seq<Spec>)

  predicate ValidSpec<F>(f: Ops<F>, usable: set<int>, spec: Spec) {
    match spec
    case LeafSpec(_, hardware) => hardware in usable
    case SplitSpec(_, threshold, children) =>
      && 1 <= threshold <= |children| <= |f.xs|
      && forall i :: 0 <= i < |children| ==> ValidSpec(f, usable, children[i])
  }

  function Names(spec: Spec): seq<string> {
    match spec
    case LeafSpec(name, _) => [name]
    case SplitSpec(name, _, children) => [name] + NamesOfAll(children)
  }

  function NamesOfAll(specs: seq<Spec>): seq<string> {
    if specs == [] then [] else Names(specs[0]) + NamesOfAll(specs[1..])
  }

  predicate UniqueNames(names: seq<string>) {
    "" !in names && forall i, j :: 0 <= i < j < |names| ==> names[i] != names[j]
  }

  /** The tree has the shape, names, thresholds and hardware keys of the spec, all active. */
  predicate Matches<F>(n: Node<F>, spec: Spec)
    decreases spec
  {
    n.active && n.name == spec.name &&
    match spec
    case LeafSpec(_, hardware) => n.Leaf? && n.hardware == hardware
    case SplitSpec(_, threshold, children) =>
      && n.Split? && n.threshold == threshold && |n.children| == |children|
      && forall i :: 0 <= i < |children| ==> Matches(n.children[i], children[i])
  }

  lemma LeafBuilt<F(!new)>(f: Ops<F>, n: Node<F>, secret: seq<F>, spec: Spec)
    requires spec.LeafSpec? && n == Leaf(n.id, spec.name, spec.hardware, true, secret)
    ensures WellShared(f, n, secret) && Matches(n, spec) && DistinctIds(n) && AllIds(n) == {n.id}
  {
  }

  lemma SpecParts<F>(f: Ops<F>, usable: set<int>, spec: Spec, low: int)
    requires ValidSpec(f, usable, spec) && spec.SplitSpec?
    ensures 1 <= spec.threshold <= |spec.children| <= |f.xs|
    ensures forall i :: 0 <= i < |spec.children| ==> ValidSpec(f, usable, spec.children[i])
    ensures ChildIdsApart<F>([], low, low)
  {
  }

  lemma MatchesSplit<F>(n: Node<F>, spec: Spec)
    requires n.Split? && spec.SplitSpec? && n.active && n.name == spec.name && n.threshold == spec.threshold
    requires |n.children| == |spec.children| && forall i :: 0 <= i < |n.children| ==> Matches(n.children[i], spec.children[i])
    ensures Matches(n, spec)
  {
  }

  /** The ids of a node and of everything below it. */
  ghost function AllIds<F>(n: Node<F>): set<int> {
    match n
    case Leaf(id, _, _, _, _) => {id}
    case Split(id, _, _, _, children) => {id} + set i, x | 0 <= i < |children| && x in AllIds(children[i]) :: x
  }

  /** No id is given twice. */
  ghost predicate DistinctIds<F>(n: Node<F>) {
    n.Split? ==>
      && (forall i :: 0 <= i < |n.children| ==> DistinctIds(n.children[i]) && n.id !in AllIds(n.children[i]))
      && forall i, j :: 0 <= i < j < |n.children| ==> AllIds(n.children[i]) !! AllIds(n.children[j])
  }

  /** Children whose ids lie in a range and are all different. */
  ghost predicate ChildIdsApart<F>(children: seq<Node<F>>, low: int, high: int) {
    && (forall i, x :: 0 <= i < |children| && x in AllIds(children[i]) ==> low <= x < high)
    && (forall i :: 0 <= i < |children| ==> DistinctIds(children[i]))
    && forall i, j :: 0 <= i < j < |children| ==> AllIds(children[i]) !! AllIds(children[j])
  }

  lemma IdsOfSplit<F>(n: Node<F>, low: int, high: int)
    requires n.Split? && n.id < low && ChildIdsApart(n.children, low, high)
    ensures DistinctIds(n) && forall x :: x in AllIds(n) ==> x == n.id || low <= x < high
  {
  }

  lemma OneMoreChild<F>(children: seq<Node<F>>, low: int, high: int, child: Node<F>, high': int)
    requires ChildIdsApart(children, low, high) && low <= high <= high' && DistinctIds(child)
    requires forall x :: x in AllIds(child) ==> high <= x < high'
    ensures ChildIdsApart(children + [child], low, high')
  {
    hide AllIds, DistinctIds;
    var all := children + [child];
    forall i, x | 0 <= i < |all| && x in AllIds(all[i])
      ensures low <= x < high' && (i < |children| ==> x < high)
    {
    }
    forall i, j | 0 <= i < j < |all|
      ensures AllIds(all[i]) !! AllIds(all[j])
    {
      if j == |children| {
        assert forall x :: x in AllIds(all[i]) ==> x < high;
      }
    }
  }

  lemma {:induction false} AllActive<F>(children: seq<Node<F>>)
    requires forall i :: 0 <= i < |children| ==> children[i].active
    ensures |ActiveIndexes(children)| == |children|
    ensures forall i :: 0 <= i < |children| ==> ActiveIndexes(children)[i] == i
  {
    if children != [] {
      AllActive(children[..|children| - 1]);
    }
  }

  /** `coins(id, k, j)`: the dealer's randomness for the split node `id`. */
  method SplitNode<F(==, !new)>(
    f: Ops<F>, usable: set<int>, coins: (int, nat, nat) -> F, next: int, secret: seq<F>, spec: Spec)
    returns (node: Node<F>, next': int)
    requires IsField(f) && ValidSpec(f, usable, spec)
    ensures WellShared(f, node, secret) && Matches(node, spec)
    ensures node.id == next < next' && node.active
    ensures DistinctIds(node) && forall x :: x in AllIds(node) ==> next <= x < next'
    decreases spec
  {
    hide Deal, AllIds, DistinctIds, ChildIdsApart, WellShared, IsField, Matches, ValidSpec;
    if spec.LeafSpec? {
      node, next' := Leaf(next, spec.name, spec.hardware, true, secret), next + 1;
      LeafBuilt(f, node, secret, spec);
      return;
    }
    var SplitSpec(name, threshold, specs) := spec;
    SpecParts<F>(f, usable, spec, next + 1);
    var coinsHere := (k: nat, j: nat) => coins(next, k, j);
    var shares := Deal(f, threshold, secret, coinsHere, |specs|);
    var children: seq<Node<F>> := [];
    next' := next + 1;
    for i := 0 to |specs|
      invariant |children| == i && next' > next
      invariant forall j :: 0 <= j < i ==>
        children[j].active && WellShared(f, children[j], shares[j]) && Matches(children[j], specs[j])
      invariant ChildIdsApart(children, next + 1, next')
    {
      var child, n := SplitNode(f, usable, coins, next', shares[i], specs[i]);
      OneMoreChild(children, next + 1, next', child, n);
      children, next' := children + [child], n;
    }
    node := Split(next, name, true, threshold, children);
    IdsOfSplit(node, next + 1, next');
    MatchesSplit(node, spec);
    DealtChildren(f, node, secret, coinsHere);
  }

  /** Active children holding a dealing's shares in order make a well-shared parent. */
  lemma {:induction false} DealtChildren<F(!new)>(f: Ops<F>, n: Node<F>, v: seq<F>, coins: (nat, nat) -> F)
    requires IsField(f) && n.Split? && 1 <= n.threshold <= |n.children| <= |f.xs|
    requires forall j :: 0 <= j < |n.children| ==>
      n.children[j].active && WellShared(f, n.children[j], Deal(f, n.threshold, v, coins, |n.children|)[j])
    ensures WellShared(f, n, v)
  {
    AllActive(n.children);
    assert DealtBy(f, n, v, DealtPolys(n.threshold, v, coins), f.xs[..|n.children|]);
  }

  /** A key tree for `secret`, or a refusal when the spec is not valid. */
  method BuildTree<F(==, !new)>(
    f: Ops<F>, usable: set<int>, coins: (int, nat, nat) -> F, secret: seq<F>, spec: Spec)
    returns (r: Result<Node<F>>)
    requires IsField(f)
    ensures r.Ok? <==> ValidSpec(f, usable, spec) && UniqueNames(Names(spec))
    ensures r.Ok? ==> WellShared(f, r.value, secret) && Matches(r.value, spec) && DistinctIds(r.value)
  {
    if !ValidSpec(f, usable, spec) {
      return Err(InvalidQuorumThreshold);
    }
    if !UniqueNames(Names(spec)) {
      return Err(DuplicateNodeLabel);
    }
    var root, _ := SplitNode(f, usable, coins, 1, secret, spec);
    return Ok(root);
  }

  // ---- looking nodes up -----------------------------------------------------

  datatype Key = ByName(name: string) | ById(id: int)

  predicate HasKey<F>(n: Node<F>, key: Key) {
    match key
    case ByName(name) => n.name == name
    case ById(id) => n.id == id
  }

  /** The node carrying `key`, as the child indexes leading to it. */
  function Find<F>(n: Node<F>, key: Key): (r: Option<seq<nat>>)
    ensures r.Some? ==> IsPath(n, r.value) && HasKey(NodeAt(n, r.value), key)
    decreases n, 1, 0
  {
    if HasKey(n, key) then Some([])
    else if n.Split? then FindAmong(n, 0, key)
    else None
  }

  function FindAmong<F>(n: Node<F>, i: nat, key: Key): (r: Option<seq<nat>>)
    requires n.Split? && i <= |n.children|
    ensures r.Some? ==> r.value != [] && IsPath(n, r.value) && HasKey(NodeAt(n, r.value), key)
    decreases n, 0, |n.children| - i
  {
    if i == |n.children| then None
    else
      var here := Find(n.children[i], key);
      if here.Some? then
        assert ([i] + here.value)[1..] == here.value;
        Some([i] + here.value)
      else FindAmong(n, i + 1, key)
  }

  // ---- presented shares -----------------------------------------------------

  /** Every presented raw share of a leaf of this tree is that leaf's current share. */
  predicate Genuine<F(==)>(n: Node<F>, presented: map<int, seq<F>>)
    decreases n
  {
    match n
    case Leaf(id, _, _, _, share) => id in presented ==> presented[id] == share
    case Split(_, _, _, _, children) => forall i :: 0 <= i < |children| ==> Genuine(children[i], presented)
  }

  lemma {:induction false} SplitsAreActive<F(!new)>(f: Ops<F>, n: Node<F>, v: seq<F>, path: seq<nat>)
    requires WellShared(f, n, v) && n.active && IsPath(n, path) && NodeAt(n, path).Split?
    ensures NodeAt(n, path).active
    decreases |path|
  {
    if path != [] {
      var c := n.children[path[0]];
      assert c.active || c.Leaf?;
      if c.active {
        var polys, xs :| DealtBy(f, n, v, polys, xs);
        SplitsAreActive(f, c, ShareAt(f, polys, xs[path[0]]), path[1..]);
      }
    }
  }

  // ---- the children of one split node ---------------------------------------

  predicate Increasing(idx: seq<nat>) {
    forall k, l :: 0 <= k < l < |idx| ==> idx[k] < idx[l]
  }

  predicate LeavesAt<F>(children: seq<Node<F>>, idx: seq<nat>) {
    forall k :: 0 <= k < |idx| ==> idx[k] < |children| && children[idx[k]].Leaf?
  }

  lemma ActiveStep<F>(children: seq<Node<F>>, i: nat)
    requires i < |children|
    ensures ActiveIndexes(children[..i + 1])
            == ActiveIndexes(children[..i]) + if children[i].active then [i] else []
  {
    assert children[..i + 1][..i] == children[..i];
  }

  /** The active children, provided they are all leaves. */
  method ActiveLeaves<F>(children: seq<Node<F>>) returns (r: Option<seq<nat>>)
    ensures r.Some? <==> LeavesAt(children, ActiveIndexes(children))
    ensures r.Some? ==> r.value == ActiveIndexes(children)
  {
    var idx: seq<nat> := [];
    for i := 0 to |children|
      invariant idx == ActiveIndexes(children[..i])
      invariant LeavesAt(children, idx)
    {
      hide ActiveIndexes;
      ActiveStep(children, i);
      if children[i].active {
        if children[i].Split? {
          assert i in ActiveIndexes(children);
          return None;
        }
        idx := idx + [i];
      }
    }
    assert children[..|children|] == children;
    return Some(idx);
  }

  /** The given leaves' shares replaced, in order; nothing else about any child changed. */
  ghost predicate Resealed<F>(before: seq<Node<F>>, after: seq<Node<F>>, idx: seq<nat>, shares: seq<seq<F>>) {
    && |after| == |before| && |shares| == |idx| && LeavesAt(before, idx)
    && (forall k :: 0 <= k < |idx| ==> after[idx[k]] == before[idx[k]].(share := shares[k]))
    && (forall i :: 0 <= i < |before| && i !in idx ==> after[i] == before[i])
  }

  method Reseal<F>(before: seq<Node<F>>, idx: seq<nat>, shares: seq<seq<F>>) returns (after: seq<Node<F>>)
    requires |shares| == |idx| && Increasing(idx) && LeavesAt(before, idx)
    ensures Resealed(before, after, idx, shares)
  {
    after := before;
    for k := 0 to |idx|
      invariant |after| == |before|
      invariant forall l :: 0 <= l < k ==> after[idx[l]] == before[idx[l]].(share := shares[l])
      invariant forall l :: k <= l < |idx| ==> after[idx[l]] == before[idx[l]]
      invariant forall i :: 0 <= i < |before| && i !in idx ==> after[i] == before[i]
    {
      after := after[idx[k] := after[idx[k]].(share := shares[k])];
    }
  }

  /** Leaves on one dealing, at distinct dealer coordinates, make a well-shared parent. */
  lemma LeavesWellShared<F(!new)>(f: Ops<F>, n: Node<F>, v: seq<F>, polys: seq<seq<F>>)
    requires n.Split? && IsDealing(polys, n.threshold, v)
    requires n.threshold <= |ActiveIndexes(n.children)|
    requires forall i :: 0 <= i < |n.children| ==> n.children[i].Leaf?  || !n.children[i].active
    requires forall i :: 0 <= i < |n.children| ==> n.children[i].active || n.children[i].Leaf?
    requires forall i :: 0 <= i < |n.children| && n.children[i].active ==>
      |n.children[i].share| >= 1 && n.children[i].share[0] in f.xs
      && n.children[i].share == ShareAt(f, polys, n.children[i].share[0])
    requires forall i, j :: 0 <= i < j < |n.children| && n.children[i].active && n.children[j].active ==>
      n.children[i].share[0] != n.children[j].share[0]
    ensures WellShared(f, n, v)
  {
    var xs := seq(|n.children|, i requires 0 <= i < |n.children| =>
      if n.children[i].Leaf? && |n.children[i].share| >= 1 then n.children[i].share[0] else f.zero);
    assert DealtBy(f, n, v, polys, xs);
  }

  /** Shares of distinct active leaves lie on the node's polynomials. */
  lemma SharesOnPolys<F(!new)>(
    f: Ops<F>, n: Node<F>, v: seq<F>, polys: seq<seq<F>>, xs: seq<F>, idx: seq<nat>, raw: seq<seq<F>>)
    requires IsField(f) && n.Split? && DealtBy(f, n, v, polys, xs)
    requires Increasing(idx) && LeavesAt(n.children, idx) && |raw| == |idx|
    requires forall k :: 0 <= k < |idx| ==> n.children[idx[k]].active && raw[k] == n.children[idx[k]].share
    ensures OnPolys(f, polys, raw)
    ensures forall k :: 0 <= k < |raw| ==> raw[k][0] in f.xs
  {
    forall k | 0 <= k < |idx|
      ensures raw[k] == ShareAt(f, polys, xs[idx[k]]) && xs[idx[k]] in f.xs
    {
      assert WellShared(f, n.children[idx[k]], ShareAt(f, polys, xs[idx[k]]));
    }
  }

  // ---- adding a leaf ----------------------------------------------------------

  /** The active leaves whose raw share was presented, and those raw shares. */
  method PresentedLeaves<F>(children: seq<Node<F>>, idx: seq<nat>, presented: map<int, seq<F>>)
    returns (which: seq<nat>, raw: seq<seq<F>>)
    requires Increasing(idx) && LeavesAt(children, idx)
    ensures |which| == |raw| && Increasing(which) && LeavesAt(children, which)
    ensures forall k :: 0 <= k < |which| ==>
      which[k] in idx && children[which[k]].id in presented && raw[k] == presented[children[which[k]].id]
    ensures |which| == |PresentedAmong(children, idx, presented.Keys)|
  {
    which, raw := [], [];
    for k := 0 to |idx|
      invariant |which| == |raw|
      invariant forall l :: 0 <= l < |which| ==>
        which[l] < |children| && children[which[l]].id in presented && raw[l] == presented[children[which[l]].id]
      invariant which == PresentedAmong(children, idx[..k], presented.Keys)
    {
      assert idx[..k + 1][..k] == idx[..k];
      var id := children[idx[k]].id;
      if id in presented {
        which, raw := which + [idx[k]], raw + [presented[id]];
      }
    }
    assert idx[..|idx|] == idx;
    AmongTheActive(children, idx, presented.Keys);
  }

  lemma {:induction false} AmongTheActive<F>(children: seq<Node<F>>, idx: seq<nat>, ids: set<int>)
    requires Increasing(idx) && LeavesAt(children, idx)
    ensures
      var which := PresentedAmong(children, idx, ids);
      Increasing(which) && LeavesAt(children, which) && forall l :: 0 <= l < |which| ==> which[l] in idx
  {
    if idx != [] {
      var front, last := idx[..|idx| - 1], idx[|idx| - 1];
      var which := PresentedAmong(children, front, ids);
      assert PresentedAmong(children, idx, ids) == which + if children[last].id in ids then [last] else [];
      hide PresentedAmong;
      AmongTheActive(children, front, ids);
      forall l | 0 <= l < |which|
        ensures which[l] in idx && which[l] < last
      {
        var m :| 0 <= m < |front| && front[m] == which[l];
        assert idx[m] == which[l];
      }
    }
  }

  function PresentedAmong<F>(children: seq<Node<F>>, idx: seq<nat>, ids: set<int>): seq<nat>
    requires forall k :: 0 <= k < |idx| ==> idx[k] < |children|
  {
    if idx == [] then [] else
      var k := |idx| - 1;
      PresentedAmong(children, idx[..k], ids) + if children[idx[k]].id in ids then [idx[k]] else []
  }

  /** Genuine shares of at least threshold active leaves recover the parent's value. */
  lemma ParentRecovers<F(!new)>(
    f: Ops<F>, p: Node<F>, v: seq<F>, presented: map<int, seq<F>>, which: seq<nat>, raw: seq<seq<F>>)
    requires IsField(f) && p.Split? && WellShared(f, p, v) && |v| >= 1 && Genuine(p, presented)
    requires Increasing(which) && LeavesAt(p.children, which) && |raw| == |which|
    requires forall k :: 0 <= k < |which| ==>
      var c := p.children[which[k]];
      c.active && c.id in presented && raw[k] == presented[c.id]
    ensures forall k :: 0 <= k < |raw| ==> |raw[k]| >= 2
    ensures DistinctNonzero(f, Xs(raw))
    ensures |raw| >= p.threshold ==> Recover(f, p.threshold, raw) == Ok(v)
  {
    var polys, xs :| DealtBy(f, p, v, polys, xs);
    forall k | 0 <= k < |which|
      ensures raw[k] == p.children[which[k]].share
    {
      assert Genuine(p.children[which[k]], presented);
    }
    SharesOnPolys(f, p, v, polys, xs, which, raw);
    if |raw| >= p.threshold {
      RecoverDealing(f, p.threshold, v, polys, raw);
    }
  }

  /** The coordinate check a recovery makes before it interpolates. */
  method RecoverSecret<F(==)>(f: Ops<F>, t: nat, raw: seq<seq<F>>) returns (r: Result<seq<F>>)
    ensures r.Ok? ==> (forall k :: 0 <= k < |raw| ==> |raw[k]| >= 2) && r == Recover(f, t, raw)
    ensures (forall k :: 0 <= k < |raw| ==> |raw[k]| >= 2) && DistinctNonzero(f, Xs(raw)) ==> r == Recover(f, t, raw)
  {
    if exists k :: 0 <= k < |raw| && |raw[k]| == 0 {
      return Err(ShareShapeMismatch);
    }
    var distinct := RequireDistinctNonzeroXs(f, Xs(raw));
    if !distinct {
      return Err(ShareShapeMismatch);
    }
    if exists k :: 0 <= k < |raw| && |raw[k]| < 2 {
      return Err(QuorumNotMet);
    }
    return Recover(f, t, raw);
  }

  predicate CanAddHere<F>(f: Ops<F>, p: Node<F>, hardware: int, usable: set<int>, ids: set<int>)
    requires p.Split?
  {
    var idx := ActiveIndexes(p.children);
    && LeavesAt(p.children, idx)
    && |idx| + 1 <= |f.xs|
    && |PresentedAmong(p.children, idx, ids)| >= p.threshold
    && hardware in usable
    && forall k :: 0 <= k < |idx| ==> p.children[idx[k]].hardware in usable
  }

  /** The leaf at `i` holds the share at one of the dealer's coordinates. */
  lemma FreshLeaf<F>(f: Ops<F>, children: seq<Node<F>>, idx: seq<nat>, polys: seq<seq<F>>, i: nat) returns (k: nat)
    requires i < |children| && i in idx && |idx| <= |f.xs|
    requires forall k :: 0 <= k < |idx| ==>
      idx[k] < |children| && children[idx[k]].Leaf? && children[idx[k]].share == ShareAt(f, polys, f.xs[k])
    ensures k < |idx| && idx[k] == i && children[i].Leaf?
    ensures |children[i].share| >= 1 && children[i].share[0] == f.xs[k] && children[i].share == ShareAt(f, polys, f.xs[k])
  {
    k :| 0 <= k < |idx| && idx[k] == i;
  }

  lemma FreshLeaves<F>(f: Ops<F>, children: seq<Node<F>>, idx: seq<nat>, polys: seq<seq<F>>)
    requires |idx| <= |f.xs| && forall k, l :: 0 <= k < l < |f.xs| ==> f.xs[k] != f.xs[l]
    requires forall i :: 0 <= i < |children| && children[i].active ==> i in idx
    requires forall k :: 0 <= k < |idx| ==>
      idx[k] < |children| && children[idx[k]].Leaf? && children[idx[k]].share == ShareAt(f, polys, f.xs[k])
    ensures forall i :: 0 <= i < |children| && children[i].active ==>
      children[i].Leaf? && |children[i].share| >= 1 && children[i].share[0] in f.xs
      && children[i].share == ShareAt(f, polys, children[i].share[0])
    ensures forall i, j :: 0 <= i < j < |children| && children[i].active && children[j].active ==>
      children[i].share[0] != children[j].share[0]
  {
    hide ShareAt;
    forall i | 0 <= i < |children| && children[i].active
      ensures children[i].Leaf? && |children[i].share| >= 1 && children[i].share[0] in f.xs
      ensures children[i].share == ShareAt(f, polys, children[i].share[0])
    {
      var k := FreshLeaf(f, children, idx, polys, i);
    }
    forall i, j | 0 <= i < j < |children| && children[i].active && children[j].active
      ensures children[i].share[0] != children[j].share[0]
    {
      var k := FreshLeaf(f, children, idx, polys, i);
      var l := FreshLeaf(f, children, idx, polys, j);
    }
  }

  /** A fresh dealing to the active leaves, in order, gives a well-shared parent. */
  lemma {:induction false} FreshDealing<F(!new)>(f: Ops<F>, n: Node<F>, v: seq<F>, polys: seq<seq<F>>)
    requires IsField(f) && n.Split? && IsDealing(polys, n.threshold, v)
    requires forall i :: 0 <= i < |n.children| ==> n.children[i].active || n.children[i].Leaf?
    requires
      var idx := ActiveIndexes(n.children);
      && n.threshold <= |idx| <= |f.xs|
      && forall k :: 0 <= k < |idx| ==> n.children[idx[k]].Leaf? && n.children[idx[k]].share == ShareAt(f, polys, f.xs[k])
    ensures WellShared(f, n, v)
  {
    FreshLeaves(f, n.children, ActiveIndexes(n.children), polys);
    hide IsField, WellShared, IsDealing, ActiveIndexes, ShareAt;
    LeavesWellShared(f, n, v, polys);
  }

  lemma {:induction false} ActiveAfterAdd<F>(children: seq<Node<F>>, added: Node<F>)
    requires added.active
    ensures ActiveIndexes(children + [added]) == ActiveIndexes(children) + [|children|]
  {
    assert (children + [added])[..|children|] == children;
  }

  lemma ResealedLeaves<F>(before: seq<Node<F>>, after: seq<Node<F>>, idx: seq<nat>, shares: seq<seq<F>>, added: Node<F>)
    requires |shares| == |idx| + 1 && Resealed(before, after, idx, shares[..|idx|])
    requires added.Leaf? && added.active && added.share == shares[|idx|]
    requires forall i :: 0 <= i < |before| ==> before[i].active || before[i].Leaf?
    requires forall k :: 0 <= k < |idx| ==> idx[k] < |before|
    ensures
      var all, which := after + [added], idx + [|after|];
      && (forall i :: 0 <= i < |all| ==> all[i].active || all[i].Leaf?)
      && (forall k :: 0 <= k < |which| ==> which[k] < |all| && all[which[k]].Leaf? && all[which[k]].share == shares[k])
  {
    forall i | 0 <= i < |after|
      ensures after[i].active || after[i].Leaf?
    {
      if i in idx {
        var k :| 0 <= k < |idx| && idx[k] == i;
      }
    }
  }

  lemma {:induction false} RedealtWellShared<F(!new)>(
    f: Ops<F>, p: Node<F>, v: seq<F>, polys: seq<seq<F>>, after: seq<Node<F>>, shares: seq<seq<F>>, added: Node<F>)
    requires IsField(f) && p.Split? && WellShared(f, p, v) && IsDealing(polys, p.threshold, v)
    requires |shares| == |ActiveIndexes(p.children)| + 1 <= |f.xs|
    requires forall k :: 0 <= k < |shares| ==> shares[k] == ShareAt(f, polys, f.xs[k])
    requires Resealed(p.children, after, ActiveIndexes(p.children), shares[..|shares| - 1])
    requires added.Leaf? && added.active && added.share == shares[|shares| - 1]
    ensures WellShared(f, p.(children := after + [added]), v)
  {
    var n, idx := p.(children := after + [added]), ActiveIndexes(p.children);
    assert p.threshold <= |idx| && forall i :: 0 <= i < |p.children| ==> p.children[i].active || p.children[i].Leaf?;
    hide WellShared, IsField, IsDealing, ActiveIndexes;
    SameActivity(p.children, after);
    ActiveAfterAdd(after, added);
    ResealedLeaves(p.children, after, idx, shares, added);
    hide Resealed, ShareAt;
    FreshDealing(f, n, v, polys);
  }

  /** What survives a change untouched: identity, name, hardware key and activity. */
  ghost predicate SameIdentity<F>(a: Node<F>, b: Node<F>) {
    a == b || (a.Leaf? && b.Leaf? && a == b.(share := a.share))
  }

  /** The parent's value, recovered from the presented shares of its active leaves. */
  method RecoverParent<F(==, !new)>(f: Ops<F>, p: Node<F>, presented: map<int, seq<F>>, ghost v: seq<F>)
    returns (r: Result<seq<F>>)
    requires IsField(f) && p.Split? && WellShared(f, p, v) && |v| >= 1
    ensures r.Ok? ==> LeavesAt(p.children, ActiveIndexes(p.children)) && |ActiveIndexes(p.children)| + 1 <= |f.xs|
    ensures Genuine(p, presented) ==>
      (r.Ok? <==>
        && LeavesAt(p.children, ActiveIndexes(p.children))
        && |ActiveIndexes(p.children)| + 1 <= |f.xs|
        && |PresentedAmong(p.children, ActiveIndexes(p.children), presented.Keys)| >= p.threshold)
    ensures Genuine(p, presented) && r.Ok? ==> r.value == v
  {
    var found := ActiveLeaves(p.children);
    if found.None? {
      return Err(CannotAddLeaf);
    }
    var n := |found.value| + 1;
    if n > |f.xs| || p.threshold > n {
      return Err(CannotAddLeaf);
    }
    var which, raw := PresentedLeaves(p.children, found.value, presented);
    if |raw| < p.threshold {
      return Err(QuorumNotMet);
    }
    if Genuine(p, presented) {
      ParentRecovers(f, p, v, presented, which, raw);
    }
    r := RecoverSecret(f, p.threshold, raw);
  }

  /** `after` is `before` with new shares and one more leaf; no node of `before` changed otherwise. */
  ghost predicate OneMore<F>(before: Node<F>, after: Node<F>, id: int, name: string, hardware: int)
    requires before.Split?
  {
    && after.Split? && after == before.(children := after.children)
    && |after.children| == |before.children| + 1
    && (forall i :: 0 <= i < |before.children| ==> SameIdentity(after.children[i], before.children[i]))
    && var added := after.children[|before.children|];
       added.Leaf? && added.id == id && added.name == name && added.hardware == hardware && added.active
  }

  /** Deal `secret` afresh to the active leaves of `p` and to one more leaf. */
  method Redeal<F(==, !new)>(
    f: Ops<F>, p: Node<F>, id: int, name: string, hardware: int, secret: seq<F>, coins: (nat, nat) -> F)
    returns (n: Node<F>)
    requires IsField(f) && p.Split? && p.threshold >= 1
    requires LeavesAt(p.children, ActiveIndexes(p.children)) && |ActiveIndexes(p.children)| + 1 <= |f.xs|
    ensures OneMore(p, n, id, name, hardware)
    ensures WellShared(f, p, secret) ==> WellShared(f, n, secret)
  {
    var idx := ActiveIndexes(p.children);
    var shares := Deal(f, p.threshold, secret, coins, |idx| + 1);
    var after := Reseal(p.children, idx, shares[..|idx|]);
    var added := Leaf(id, name, hardware, true, shares[|idx|]);
    n := p.(children := after + [added]);
    forall i | 0 <= i < |p.children|
      ensures SameIdentity(after[i], p.children[i])
    {
      if i in idx {
        var k :| 0 <= k < |idx| && idx[k] == i;
      }
    }
    if WellShared(f, p, secret) {
      RedealtWellShared(f, p, secret, DealtPolys(p.threshold, secret, coins), after, shares, added);
    }
  }

  method AddHere<F(==, !new)>(
    f: Ops<F>, p: Node<F>, id: int, name: string, hardware: int, usable: set<int>,
    presented: map<int, seq<F>>, coins: (nat, nat) -> F, ghost v: seq<F>)
    returns (r: Result<Node<F>>)
    requires IsField(f) && p.Split? && WellShared(f, p, v) && |v| >= 1
    ensures Genuine(p, presented) ==> (r.Ok? <==> CanAddHere(f, p, hardware, usable, presented.Keys))
    ensures Genuine(p, presented) && r.Ok? ==> WellShared(f, r.value, v)
    ensures r.Ok? ==> OneMore(p, r.value, id, name, hardware)
  {
    var recovered := RecoverParent(f, p, presented, v);
    if recovered.Err? {
      return Err(recovered.error);
    }
    if hardware !in usable {
      return Err(KeyNotUsable);
    }
    var idx := ActiveIndexes(p.children);
    if exists k :: 0 <= k < |idx| && p.children[idx[k]].hardware !in usable {
      return Err(KeyNotUsable);
    }
    var n := Redeal(f, p, id, name, hardware, recovered.value, coins);
    return Ok(n);
  }

  // ---- evicting a leaf --------------------------------------------------------

  function Without<F>(p: Node<F>, e: nat): seq<Node<F>>
    requires p.Split? && e < |p.children|
  {
    p.children[e := p.children[e].(active := false)]
  }

  predicate CanEvictHere<F>(p: Node<F>, e: nat, usable: set<int>, ids: set<int>)
    requires p.Split? && e < |p.children|
  {
    var kids := Without(p, e);
    var idx := ActiveIndexes(kids);
    && 2 <= p.threshold <= |idx|
    && LeavesAt(kids, idx)
    && forall k :: 0 <= k < |idx| ==> kids[idx[k]].id in ids && kids[idx[k]].hardware in usable
  }

  /** Raw shares of every survivor, in order. */
  method SurvivorShares<F>(kids: seq<Node<F>>, idx: seq<nat>, usable: set<int>, presented: map<int, seq<F>>)
    returns (r: Result<seq<seq<F>>>)
    requires LeavesAt(kids, idx)
    ensures r.Ok? <==> forall k :: 0 <= k < |idx| ==> kids[idx[k]].id in presented && kids[idx[k]].hardware in usable
    ensures r.Ok? ==> |r.value| == |idx| && forall k :: 0 <= k < |idx| ==> r.value[k] == presented[kids[idx[k]].id]
  {
    var raw: seq<seq<F>> := [];
    for k := 0 to |idx|
      invariant |raw| == k
      invariant forall l :: 0 <= l < k ==>
        kids[idx[l]].id in presented && kids[idx[l]].hardware in usable && raw[l] == presented[kids[idx[l]].id]
    {
      var leaf := kids[idx[k]];
      if leaf.id !in presented {
        return Err(QuorumNotMet);
      }
      if leaf.hardware !in usable {
        return Err(KeyNotUsable);
      }
      raw := raw + [presented[leaf.id]];
    }
    return Ok(raw);
  }

  /** Genuine survivor shares lie on the parent's polynomials and pass the refresh's checks. */
  lemma SurvivorsRefresh<F(!new)>(
    f: Ops<F>, p: Node<F>, v: seq<F>, polys: seq<seq<F>>, xs: seq<F>, e: nat, presented: map<int, seq<F>>, raw: seq<seq<F>>)
    requires IsField(f) && p.Split? && WellShared(f, p, v) && |v| >= 1 && DealtBy(f, p, v, polys, xs)
    requires Genuine(p, presented) && e < |p.children|
    requires LeavesAt(Without(p, e), ActiveIndexes(Without(p, e))) && |raw| == |ActiveIndexes(Without(p, e))|
    requires forall k :: 0 <= k < |raw| ==>
      var c := Without(p, e)[ActiveIndexes(Without(p, e))[k]]; c.id in presented && raw[k] == presented[c.id]
    ensures forall k :: 0 <= k < |raw| ==> raw[k] == ShareAt(f, polys, xs[ActiveIndexes(Without(p, e))[k]])
    ensures 2 <= p.threshold <= |raw| ==> RefreshAccepts(f, raw, p.threshold)
  {
    var kids := Without(p, e);
    var idx := ActiveIndexes(kids);
    forall k | 0 <= k < |idx|
      ensures p.children[idx[k]] == kids[idx[k]] && raw[k] == p.children[idx[k]].share
      ensures raw[k] == ShareAt(f, polys, xs[idx[k]])
    {
      assert idx[k] != e;
      assert Genuine(p.children[idx[k]], presented);
      assert WellShared(f, p.children[idx[k]], ShareAt(f, polys, xs[idx[k]]));
    }
    SharesOnPolys(f, p, v, polys, xs, idx, raw);
  }

  /** Survivors on a refreshed set of polynomials are well shared, with the same value. */
  lemma RefreshedWellShared<F(!new)>(
    f: Ops<F>, p: Node<F>, v: seq<F>, polys: seq<seq<F>>, xs: seq<F>, e: nat,
    renewed: seq<seq<F>>, after: seq<Node<F>>, shares: seq<seq<F>>)
    requires p.Split? && WellShared(f, p, v) && DealtBy(f, p, v, polys, xs)
    requires e < |p.children| && p.children[e].Leaf? && IsDealing(renewed, p.threshold, v)
    requires p.threshold <= |ActiveIndexes(Without(p, e))| == |shares|
    requires Resealed(Without(p, e), after, ActiveIndexes(Without(p, e)), shares)
    requires forall k :: 0 <= k < |shares| ==> shares[k] == ShareAt(f, renewed, xs[ActiveIndexes(Without(p, e))[k]])
    ensures WellShared(f, p.(children := after), v)
  {
    var n := p.(children := after);
    var kids := Without(p, e);
    var idx := ActiveIndexes(kids);
    SameActivity(kids, after);
    forall i | 0 <= i < |after| && after[i].active
      ensures p.children[i].active && xs[i] in f.xs && WellShared(f, after[i], ShareAt(f, renewed, xs[i]))
    {
      assert i in idx;
      var k :| 0 <= k < |idx| && idx[k] == i;
      assert after[idx[k]] == kids[idx[k]].(share := shares[k]);
    }
    forall i | 0 <= i < |after|
      ensures after[i].active || after[i].Leaf?
    {
      assert kids[i].active || kids[i].Leaf?;
    }
    assert DealtBy(f, n, v, renewed, xs);
  }

  /** One leaf inactive, the other children's shares possibly new, nothing else changed. */
  ghost predicate OneLess<F>(before: Node<F>, after: Node<F>, e: nat)
    requires before.Split? && e < |before.children|
  {
    && after.Split? && after == before.(children := after.children)
    && |after.children| == |before.children|
    && (forall i :: 0 <= i < |before.children| && i != e ==> SameIdentity(after.children[i], before.children[i]))
    && SameIdentity(after.children[e], before.children[e].(active := false))
  }

  method EvictHere<F(==, !new)>(
    f: Ops<F>, p: Node<F>, e: nat, usable: set<int>,
    presented: map<int, seq<F>>, coins: (nat, nat, nat) -> F, ghost v: seq<F>)
    returns (r: Result<Node<F>>)
    requires IsField(f) && p.Split? && WellShared(f, p, v) && |v| >= 1
    requires e < |p.children| && p.children[e].Leaf?
    ensures Genuine(p, presented) ==> (r.Ok? <==> CanEvictHere(p, e, usable, presented.Keys))
    ensures Genuine(p, presented) && r.Ok? ==> WellShared(f, r.value, v)
    ensures r.Ok? ==> OneLess(p, r.value, e)
  {
    if p.threshold < 2 {
      return Err(CannotEvict);
    }
    var kids := Without(p, e);
    var found := ActiveLeaves(kids);
    if found.None? {
      return Err(CannotEvict);
    }
    var idx := found.value;
    if |idx| < p.threshold {
      return Err(CannotEvict);
    }
    var raw := SurvivorShares(kids, idx, usable, presented);
    if raw.Err? {
      return Err(raw.error);
    }
    var refreshed := RefreshSurvivors(f, p, e, raw.value, presented, coins, v);
    if refreshed.Err? {
      return Err(refreshed.error);
    }
    var after := Reseal(kids, idx, refreshed.value);
    forall i | 0 <= i < |kids|
      ensures SameIdentity(after[i], kids[i])
    {
      if i in idx {
        var k :| 0 <= k < |idx| && idx[k] == i;
      }
    }
    if Genuine(p, presented) {
      ghost var polys, xs, renewed :| Refreshed(f, p, v, polys, xs, renewed, idx, refreshed.value);
      RefreshedWellShared(f, p, v, polys, xs, e, renewed, after, refreshed.value);
    }
    return Ok(p.(children := after));
  }

  /** The new shares lie, at the old coordinates, on a fresh dealing of the same value. */
  ghost predicate Refreshed<F(!new)>(
    f: Ops<F>, p: Node<F>, v: seq<F>, polys: seq<seq<F>>, xs: seq<F>, renewed: seq<seq<F>>, idx: seq<nat>, shares: seq<seq<F>>)
    requires p.Split?
  {
    && DealtBy(f, p, v, polys, xs) && IsDealing(renewed, p.threshold, v)
    && |shares| == |idx|
    && forall k :: 0 <= k < |idx| ==> idx[k] < |xs| && shares[k] == ShareAt(f, renewed, xs[idx[k]])
  }

  /** What the refresh did to genuine survivor shares, in terms of the polynomials. */
  lemma RenewedShares<F(!new)>(
    f: Ops<F>, p: Node<F>, v: seq<F>, polys: seq<seq<F>>, xs: seq<F>, idx: seq<nat>,
    raw: seq<seq<F>>, zs: seq<seq<F>>, news: seq<seq<F>>)
    requires IsField(f) && p.Split? && |v| >= 1 && DealtBy(f, p, v, polys, xs)
    requires IsDealing(zs, p.threshold, Zeros(f, |v|))
    requires |raw| == |idx| && Renews(f, raw, zs, news)
    requires forall k :: 0 <= k < |idx| ==> idx[k] < |xs| && raw[k] == ShareAt(f, polys, xs[idx[k]])
    ensures Refreshed(f, p, v, polys, xs, PolysAdd(f, polys, zs), idx, news)
  {
    RefreshKeepsSecret(f, p.threshold, v, polys, zs);
    forall k | 0 <= k < |idx|
      ensures news[k] == ShareAt(f, PolysAdd(f, polys, zs), xs[idx[k]])
    {
      AddSharesAddsPolys(f, polys, zs, xs[idx[k]]);
    }
  }

  lemma {:induction false} SurvivorsRenewed<F(!new)>(
    f: Ops<F>, p: Node<F>, v: seq<F>, e: nat, presented: map<int, seq<F>>, raw: seq<seq<F>>,
    coins: (nat, nat, nat) -> F, news: seq<seq<F>>)
    requires IsField(f) && p.Split? && WellShared(f, p, v) && |v| >= 1
    requires Genuine(p, presented) && e < |p.children|
    requires LeavesAt(Without(p, e), ActiveIndexes(Without(p, e))) && |raw| == |ActiveIndexes(Without(p, e))|
    requires 2 <= p.threshold <= |raw|
    requires forall k :: 0 <= k < |raw| ==>
      var c := Without(p, e)[ActiveIndexes(Without(p, e))[k]]; c.id in presented && raw[k] == presented[c.id]
    ensures RefreshAccepts(f, raw, p.threshold)
    ensures Renews(f, raw, RefreshPolys(f, p.threshold, |raw[0]| - 1, coins, |raw|), news) ==>
      exists polys, xs, renewed :: Refreshed(f, p, v, polys, xs, renewed, ActiveIndexes(Without(p, e)), news)
  {
    var polys, xs :| DealtBy(f, p, v, polys, xs);
    SurvivorsRefresh(f, p, v, polys, xs, e, presented, raw);
    var zs := RefreshPolys(f, p.threshold, |v|, coins, |raw|);
    RefreshPolysShareZero(f, p.threshold, |v|, coins, |raw|);
    var idx := ActiveIndexes(Without(p, e));
    assert |polys| == |v| && |xs| == |p.children| == |Without(p, e)|;
    assert raw[0] == ShareAt(f, polys, xs[idx[0]]) && |raw[0]| == |v| + 1;
    hide *;
    if Renews(f, raw, zs, news) {
      RenewedShares(f, p, v, polys, xs, idx, raw, zs, news);
    }
  }

  method RefreshSurvivors<F(==, !new)>(
    f: Ops<F>, p: Node<F>, e: nat, raw: seq<seq<F>>,
    ghost presented: map<int, seq<F>>, coins: (nat, nat, nat) -> F, ghost v: seq<F>)
    returns (r: Result<seq<seq<F>>>)
    requires IsField(f) && p.Split? && WellShared(f, p, v) && |v| >= 1
    requires e < |p.children|
    requires LeavesAt(Without(p, e), ActiveIndexes(Without(p, e))) && |raw| == |ActiveIndexes(Without(p, e))|
    requires 2 <= p.threshold <= |raw|
    requires forall k :: 0 <= k < |raw| ==>
      var c := Without(p, e)[ActiveIndexes(Without(p, e))[k]]; c.id in presented && raw[k] == presented[c.id]
    ensures r.Ok? ==> |r.value| == |raw|
    ensures Genuine(p, presented) ==> r.Ok? && exists polys, xs, renewed ::
      Refreshed(f, p, v, polys, xs, renewed, ActiveIndexes(Without(p, e)), r.value)
  {
    hide *;
    var shares := new seq<F>[|raw|](i requires 0 <= i < |raw| => raw[i]);
    assert shares[..] == raw;
    var done := RefreshAmong(f, shares, p.threshold, coins);
    if Genuine(p, presented) {
      SurvivorsRenewed(f, p, v, e, presented, raw, coins, shares[..]);
    }
    if done.Err? {
      return Err(done.error);
    }
    return Ok(shares[..]);
  }
}
