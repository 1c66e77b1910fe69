/** Changes to a whole key tree, and runs of them. */
module TreeRuns {
  import opened Field
  import opened Results
  import opened KeyTree
  import opened TreeChanges
  import opened TreeKeys

  /** The tree a store holds: active at the root, sharing a non-empty secret, no id or name given twice. */
  ghost predicate Shares<F(!new)>(f: Ops<F>, root: Node<F>, secret: seq<F>) {
    IsField(f) && root.active && |secret| >= 1 && WellShared(f, root, secret) && Unique(root)
  }

  lemma {:induction false} ParentAndChild<F>(n: Node<F>, path: seq<nat>)
    requires IsPath(n, path) && path != []
    ensures IsPath(n, path[..|path| - 1])
    ensures
      var p := NodeAt(n, path[..|path| - 1]);
      p.Split? && path[|path| - 1] < |p.children| && p.children[path[|path| - 1]] == NodeAt(n, path)
    decreases |path|
  {
    if |path| > 1 {
      ParentAndChild(n.children[path[0]], path[1..]);
      assert path[1..][..|path| - 2] == path[..|path| - 1][1..];
    }
  }

  /** A parent of that name may take one more leaf, whose name is nobody's yet. */
  ghost predicate CanAdd<F>(
    f: Ops<F>, root: Node<F>, parent: string, name: string, hardware: int, usable: set<int>, ids: set<int>)
  {
    && name != "" && Absent(root, ByName(name))
    && exists path :: LeadsTo(root, path, ByName(parent)) && NodeAt(root, path).Split?
         && CanAddHere(f, NodeAt(root, path), hardware, usable, ids)
  }

  /** The new leaf stands under the named parent; besides its siblings' shares nothing else changed. */
  ghost predicate Added<F(!new)>(root: Node<F>, parent: string, id: int, name: string, hardware: int, after: Node<F>) {
    exists path, n :: LeadsTo(root, path, ByName(parent)) && NodeAt(root, path).Split?
      && OneMore(NodeAt(root, path), n, id, name, hardware) && after == ReplaceAt(root, path, n)
  }

  /** What is presented for leaves under the named parent are their current shares. */
  ghost predicate GenuineUnder<F>(root: Node<F>, parent: string, presented: map<int, seq<F>>) {
    forall path :: LeadsTo(root, path, ByName(parent)) ==> Genuine(NodeAt(root, path), presented)
  }

  /** The leaf `id` is child `e` of the split node at `q`. */
  ghost predicate ChildAt<F>(root: Node<F>, q: seq<nat>, e: nat, id: int) {
    IsPath(root, q) && NodeAt(root, q).Split? && e < |NodeAt(root, q).children| && NodeAt(root, q).children[e].id == id
  }

  /** The same for the siblings of the leaf `id`. */
  ghost predicate GenuineBeside<F>(root: Node<F>, id: int, presented: map<int, seq<F>>) {
    forall q, e :: ChildAt(root, q, e, id) ==> Genuine(NodeAt(root, q), presented)
  }

  method AddLeafAndReshare<F(==, !new)>(
    f: Ops<F>, root: Node<F>, parent: string, id: int, name: string, hardware: int, usable: set<int>,
    presented: map<int, seq<F>>, coins: (nat, nat) -> F, ghost secret: seq<F>)
    returns (r: Result<Node<F>>)
    requires Shares(f, root, secret) && Absent(root, ById(id))
    ensures GenuineUnder(root, parent, presented) ==>
      (r.Ok? <==> CanAdd(f, root, parent, name, hardware, usable, presented.Keys))
    ensures GenuineUnder(root, parent, presented) && r.Ok? ==> Shares(f, r.value, secret) && Keeps(f, root, r.value)
    ensures r.Ok? ==> Added(root, parent, id, name, hardware, r.value)
  {
    FindExact(root, ByName(name));
    FindExact(root, ByName(parent));
    if name == "" || Find(root, ByName(name)).Some? {
      return Err(DuplicateNodeLabel);
    }
    var found := Find(root, ByName(parent));
    if found.None? {
      return Err(NodeNotFound);
    }
    var path := found.value;
    var p := NodeAt(root, path);
    if p.Leaf? {
      return Err(CannotAddLeaf);
    }
    SplitsAreActive(f, root, secret, path);
    ghost var w := Locate(f, root, secret, path);
    var added := AddHere(f, p, id, name, hardware, usable, presented, coins, w);
    if added.Err? {
      return Err(added.error);
    }
    r := Ok(ReplaceAt(root, path, added.value));
    AddedUnique(root, path, added.value, id, name, hardware);
    if Genuine(p, presented) {
      ChangedParentKeeps(f, root, secret, path, w, added.value);
    }
  }

  lemma AddedUnique<F>(root: Node<F>, path: seq<nat>, n: Node<F>, id: int, name: string, hardware: int)
    requires Unique(root) && IsPath(root, path) && NodeAt(root, path).Split?
    requires OneMore(NodeAt(root, path), n, id, name, hardware)
    requires Absent(root, ById(id)) && Absent(root, ByName(name))
    ensures Unique(ReplaceAt(root, path, n))
  {
    var p := NodeAt(root, path);
    var added := Some(path + [|p.children|]);
    SameChildrenSameKeys(p, n);
    ExchangedSameKeys(root, path, n, Some([|p.children|]));
    Exchanged(root, path, n, added.value);
    assert added.value[|path|..] == [|p.children|];
    StaysUnique(root, ReplaceAt(root, path, n), added);
  }

  lemma ChangedUnique<F>(root: Node<F>, path: seq<nat>, n: Node<F>)
    requires Unique(root) && IsPath(root, path)
    requires var p := NodeAt(root, path);
      (SameChildren(p, n) && |n.children| == |p.children|) || (p.Leaf? && n.Leaf? && p.id == n.id && p.name == n.name)
    ensures Unique(ReplaceAt(root, path, n))
  {
    var p := NodeAt(root, path);
    if p.Split? {
      SameChildrenSameKeys(p, n);
    } else {
      forall q | IsPath(p, q) || IsPath(n, q) ensures q == [] {
        if IsPath(p, q) { LeafPath(p, q); } else { LeafPath(n, q); }
      }
    }
    ExchangedSameKeys(root, path, n, None);
    StaysUnique(root, ReplaceAt(root, path, n), None);
  }

  /** A changed parent that shares its old value, its split children as they were, changes no other node's value. */
  lemma ChangedParentKeeps<F(!new)>(f: Ops<F>, root: Node<F>, secret: seq<F>, path: seq<nat>, w: seq<F>, n: Node<F>)
    requires Shares(f, root, secret) && IsPath(root, path)
    requires
      var p := NodeAt(root, path);
      && p.Split? && p.active && WellShared(f, p, w) && WellShared(f, n, w)
      && n.Split? && n.active && |p.children| <= |n.children|
      && forall i :: 0 <= i < |p.children| && p.children[i].Split? ==> n.children[i] == p.children[i]
    requires Unique(ReplaceAt(root, path, n))
    ensures Shares(f, ReplaceAt(root, path, n), secret) && Keeps(f, root, ReplaceAt(root, path, n))
  {
    RedealtKeeps(f, NodeAt(root, path), n, w);
    ReplaceKeeps(f, root, secret, path, n);
    hide WellShared, Keeps;
  }

  /** The leaf `id` is active, and its parent can do without it. */
  ghost predicate CanEvict<F>(root: Node<F>, id: int, usable: set<int>, ids: set<int>) {
    exists q, e :: ChildAt(root, q, e, id) && CanEvictChild(NodeAt(root, q), e, usable, ids)
  }

  predicate CanEvictChild<F>(p: Node<F>, e: nat, usable: set<int>, ids: set<int>)
    requires p.Split? && e < |p.children|
  {
    p.children[e].Leaf? && p.children[e].active && CanEvictHere(p, e, usable, ids)
  }

  /** Evict child `e` of the split node at `q`. */
  method EvictAt<F(==, !new)>(
    f: Ops<F>, root: Node<F>, q: seq<nat>, e: nat, usable: set<int>,
    presented: map<int, seq<F>>, coins: (nat, nat, nat) -> F, ghost secret: seq<F>)
    returns (r: Result<Node<F>>)
    requires Shares(f, root, secret) && IsPath(root, q) && NodeAt(root, q).Split?
    requires e < |NodeAt(root, q).children| && NodeAt(root, q).children[e].Leaf?
    ensures Genuine(NodeAt(root, q), presented) ==> (r.Ok? <==> CanEvictHere(NodeAt(root, q), e, usable, presented.Keys))
    ensures Genuine(NodeAt(root, q), presented) && r.Ok? ==> Shares(f, r.value, secret) && Keeps(f, root, r.value)
    ensures r.Ok? ==> exists n :: OneLess(NodeAt(root, q), n, e) && r.value == ReplaceAt(root, q, n)
  {
    SplitsAreActive(f, root, secret, q);
    ghost var w := Locate(f, root, secret, q);
    var evicted := EvictHere(f, NodeAt(root, q), e, usable, presented, coins, w);
    if evicted.Err? {
      return Err(evicted.error);
    }
    r := Ok(ReplaceAt(root, q, evicted.value));
    ChangedUnique(root, q, evicted.value);
    if Genuine(NodeAt(root, q), presented) {
      ChangedParentKeeps(f, root, secret, q, w, evicted.value);
    }
  }

  method EvictAndRefresh<F(==, !new)>(
    f: Ops<F>, root: Node<F>, id: int, usable: set<int>,
    presented: map<int, seq<F>>, coins: (nat, nat, nat) -> F, ghost secret: seq<F>)
    returns (r: Result<Node<F>>)
    requires Shares(f, root, secret)
    ensures GenuineBeside(root, id, presented) ==> (r.Ok? <==> CanEvict(root, id, usable, presented.Keys))
    ensures GenuineBeside(root, id, presented) && r.Ok? ==> Shares(f, r.value, secret) && Keeps(f, root, r.value)
    ensures r.Ok? ==> Evicted(root, id, r.value)
  {
    var found := Find(root, ById(id));
    ChildIsFound(root, id);
    if found.None? {
      return Err(NodeNotFound);
    }
    var path := found.value;
    if !NodeAt(root, path).active || NodeAt(root, path).Split? || path == [] {
      return Err(CannotEvict);
    }
    ParentAndChild(root, path);
    OnlyParent(root, id, path[..|path| - 1], path[|path| - 1], usable, presented);
    hide CanEvict, GenuineBeside, WellShared, CanEvictHere;
    r := EvictAt(f, root, path[..|path| - 1], path[|path| - 1], usable, presented, coins, secret);
  }

  /** Somebody's child is found where it is, under its parent. */
  lemma ChildIsFound<F>(root: Node<F>, id: int)
    requires Unique(root)
    ensures forall q, e: nat :: ChildAt(root, q, e, id) ==>
      Find(root, ById(id)) == Some(q + [e]) && NodeAt(root, q + [e]) == NodeAt(root, q).children[e]
  {
    FindExact(root, ById(id));
    forall q, e: nat | ChildAt(root, q, e, id)
      ensures Find(root, ById(id)) == Some(q + [e]) && NodeAt(root, q + [e]) == NodeAt(root, q).children[e]
    {
      Below(root, q, [e]);
      assert [e][1..] == [];
      assert LeadsTo(root, q + [e], ById(id));
    }
  }

  /** A child has one parent, so what is said of some parent is said of it. */
  lemma OnlyParent<F>(root: Node<F>, id: int, q: seq<nat>, e: nat, usable: set<int>, presented: map<int, seq<F>>)
    requires Unique(root) && ChildAt(root, q, e, id)
    ensures CanEvict(root, id, usable, presented.Keys) <==> CanEvictChild(NodeAt(root, q), e, usable, presented.Keys)
    ensures GenuineBeside(root, id, presented) <==> Genuine(NodeAt(root, q), presented)
  {
    ChildIsFound(root, id);
    forall q', e': nat | ChildAt(root, q', e', id)
      ensures q' == q && e' == e
    {
      assert q' + [e'] == q + [e];
      assert (q' + [e'])[..|q'|] == q' && (q + [e])[..|q|] == q;
    }
    hide CanEvictChild, Genuine;
  }

  /** The leaf `id` is inactive under its parent; besides shares nothing else changed. */
  ghost predicate Evicted<F(!new)>(root: Node<F>, id: int, after: Node<F>) {
    exists q, e, n :: ChildAt(root, q, e, id) && OneLess(NodeAt(root, q), n, e) && after == ReplaceAt(root, q, n)
  }

  ghost predicate CanRebind<F>(root: Node<F>, name: string, hardware: int, opens: bool, usable: set<int>) {
    && opens && hardware in usable
    && exists path :: LeadsTo(root, path, ByName(name)) && NodeAt(root, path).Leaf? && NodeAt(root, path).active
  }

  /** The named leaf has another hardware key; nothing else changed, its share neither. */
  ghost predicate Rebound<F>(root: Node<F>, name: string, hardware: int, after: Node<F>) {
    exists path :: LeadsTo(root, path, ByName(name)) && NodeAt(root, path).Leaf?
      && after == ReplaceAt(root, path, NodeAt(root, path).(hardware := hardware))
  }

  /** Reseal one leaf's share to another hardware key; `opens` says the old key opened it. */
  method RebindLeaf<F(==, !new)>(
    f: Ops<F>, root: Node<F>, name: string, hardware: int, opens: bool, usable: set<int>, ghost secret: seq<F>)
    returns (r: Result<Node<F>>)
    requires Shares(f, root, secret)
    ensures r.Ok? ==> Shares(f, r.value, secret) && Keeps(f, root, r.value)
    ensures r.Ok? <==> CanRebind(root, name, hardware, opens, usable)
    ensures r.Ok? ==> Rebound(root, name, hardware, r.value)
  {
    var found := Find(root, ByName(name));
    FindExact(root, ByName(name));
    if found.None? || !NodeAt(root, found.value).active || NodeAt(root, found.value).Split? {
      return Err(NodeNotFound);
    }
    if !opens || hardware !in usable {
      return Err(KeyNotUsable);
    }
    var leaf := NodeAt(root, found.value);
    ChangedUnique(root, found.value, leaf.(hardware := hardware));
    ReplaceKeeps(f, root, secret, found.value, leaf.(hardware := hardware));
    return Ok(ReplaceAt(root, found.value, leaf.(hardware := hardware)));
  }

  // ---- runs -------------------------------------------------------------------

  datatype Change<!F> =
    | Add(parent: string, id: int, name: string, hardware: int, presented: map<int, seq<F>>, coins: (nat, nat) -> F)
    | Evict(id: int, presented: map<int, seq<F>>, deltas: (nat, nat, nat) -> F)
    | Rebind(name: string, hardware: int, opens: bool)

  /** The id of a new leaf is new, and what is presented under the parent that changes are its leaves' current shares. */
  ghost predicate PresentsGenuine<F>(root: Node<F>, c: Change<F>) {
    match c
    case Add(parent, id, _, _, presented, _) => Absent(root, ById(id)) && GenuineUnder(root, parent, presented)
    case Evict(id, presented, _) => GenuineBeside(root, id, presented)
    case Rebind(_, _, _) => true
  }

  /** The same, looked up. */
  predicate ChecksOut<F(==)>(root: Node<F>, c: Change<F>) {
    match c
    case Add(parent, id, _, _, presented, _) =>
      && Find(root, ById(id)).None?
      && var path := Find(root, ByName(parent)); path.Some? ==> Genuine(NodeAt(root, path.value), presented)
    case Evict(id, presented, _) =>
      var path := Find(root, ById(id));
      path.Some? && path.value != [] ==>
        IsPath(root, path.value[..|path.value| - 1]) && Genuine(NodeAt(root, path.value[..|path.value| - 1]), presented)
    case Rebind(_, _, _) => true
  }

  /** The leaf `id` is somebody's child exactly when it is found below the root, and then the path ends in its place. */
  lemma ParentIsFound<F>(root: Node<F>, id: int)
    requires Unique(root)
    ensures forall q, e: nat :: ChildAt(root, q, e, id) <==> Find(root, ById(id)) == Some(q + [e])
  {
    ChildIsFound(root, id);
    forall q, e: nat | Find(root, ById(id)) == Some(q + [e])
      ensures ChildAt(root, q, e, id)
    {
      ParentAndChild(root, q + [e]);
      assert (q + [e])[..|q|] == q;
    }
  }

  lemma ChecksOutExactly<F>(root: Node<F>, c: Change<F>)
    requires Unique(root)
    ensures ChecksOut(root, c) <==> PresentsGenuine(root, c)
  {
    hide Find, Unique, Genuine, NodeAt, IsPath;
    match c
    case Add(parent, id, _, _, presented, _) =>
      FindExact(root, ById(id));
      FindExact(root, ByName(parent));
    case Evict(id, presented, _) =>
      ParentIsFound(root, id);
      var path := Find(root, ById(id));
      if path.Some? && path.value != [] {
        var q, e := path.value[..|path.value| - 1], path.value[|path.value| - 1];
        assert path.value == q + [e] && ChildAt(root, q, e, id);
      }
      forall q, e: nat | ChildAt(root, q, e, id)
        ensures path.Some? && path.value != [] && path.value[..|path.value| - 1] == q
      {
        assert (q + [e])[..|q|] == q;
      }
    case Rebind(_, _, _) =>
  }

  /** The guard of a change. */
  ghost predicate Can<F>(f: Ops<F>, root: Node<F>, c: Change<F>, usable: set<int>) {
    match c
    case Add(parent, _, name, hardware, presented, _) => CanAdd(f, root, parent, name, hardware, usable, presented.Keys)
    case Evict(id, presented, _) => CanEvict(root, id, usable, presented.Keys)
    case Rebind(name, hardware, opens) => CanRebind(root, name, hardware, opens, usable)
  }

  /** What a change that goes through does to the tree's shape. */
  ghost predicate Changed<F(!new)>(root: Node<F>, c: Change<F>, after: Node<F>) {
    match c
    case Add(parent, id, name, hardware, _, _) => Added(root, parent, id, name, hardware, after)
    case Evict(id, _, _) => Evicted(root, id, after)
    case Rebind(name, hardware, _) => Rebound(root, name, hardware, after)
  }

  /**
   One step of a run: with genuine shares the change is carried out exactly
   when its guard holds, and every split node keeps its value; otherwise the
   tree is as it was.
   */
  ghost predicate Stepped<F(!new)>(f: Ops<F>, root: Node<F>, c: Change<F>, usable: set<int>, after: Node<F>) {
    && Keeps(f, root, after)
    && (if PresentsGenuine(root, c) && Can(f, root, c, usable) then Changed(root, c, after) else after == root)
  }

  /** One change; a refused one leaves the tree as it was. */
  method Apply<F(==, !new)>(f: Ops<F>, root: Node<F>, c: Change<F>, usable: set<int>, ghost secret: seq<F>)
    returns (next: Node<F>)
    requires Shares(f, root, secret) && PresentsGenuine(root, c)
    ensures Shares(f, next, secret) && Stepped(f, root, c, usable, next)
  {
    hide Shares, Keeps, CanAdd, CanEvict, CanRebind, Added, Evicted, Rebound, GenuineUnder, GenuineBeside;
    var r: Result<Node<F>>;
    match c {
      case Add(parent, id, name, hardware, presented, coins) =>
        r := AddLeafAndReshare(f, root, parent, id, name, hardware, usable, presented, coins, secret);
      case Evict(id, presented, deltas) =>
        r := EvictAndRefresh(f, root, id, usable, presented, deltas, secret);
      case Rebind(name, hardware, opens) =>
        r := RebindLeaf(f, root, name, hardware, opens, usable, secret);
    }
    KeepsSame(f, root);
    next := if r.Ok? then r.value else root;
  }

  /** `trace` is what the tree went through: each entry is the one before, changed or refused. */
  ghost predicate Traced<F(!new)>(f: Ops<F>, root: Node<F>, changes: seq<Change<F>>, usable: set<int>, trace: seq<Node<F>>) {
    && |trace| == |changes| + 1 && trace[0] == root
    && forall i :: 0 <= i < |changes| ==> Stepped(f, trace[i], changes[i], usable, trace[i + 1])
  }

  /**
   Any sequence of changes. A change presenting, for leaves under the parent it
   is about, bytes that are not their current shares is outside the claim and is
   passed over, and so is a new leaf with an id in use.
   */
  method Run<F(==, !new)>(f: Ops<F>, root: Node<F>, changes: seq<Change<F>>, usable: set<int>, ghost secret: seq<F>)
    returns (last: Node<F>, ghost trace: seq<Node<F>>)
    requires Shares(f, root, secret)
    ensures Shares(f, last, secret) && Keeps(f, root, last)
    ensures Traced(f, root, changes, usable, trace) && trace[|changes|] == last
  {
    last, trace := root, [root];
    KeepsSame(f, root);
    hide Shares, Keeps, Stepped, PresentsGenuine, ChecksOut;
    for i := 0 to |changes|
      invariant Shares(f, last, secret) && Keeps(f, root, last)
      invariant |trace| == i + 1 && trace[0] == root && trace[i] == last
      invariant forall k :: 0 <= k < i ==> Stepped(f, trace[k], changes[k], usable, trace[k + 1])
    {
      ghost var was := last;
      StillUnique(f, last, secret);
      ChecksOutExactly(last, changes[i]);
      if ChecksOut(last, changes[i]) {
        last := Apply(f, last, changes[i], usable, secret);
      } else {
        NotStepped(f, last, changes[i], usable);
      }
      SteppedKeeps(f, root, was, changes[i], usable, last);
      trace := trace + [last];
    }
  }

  lemma StillUnique<F(!new)>(f: Ops<F>, root: Node<F>, secret: seq<F>)
    requires Shares(f, root, secret)
    ensures Unique(root)
  {
  }

  lemma NotStepped<F(!new)>(f: Ops<F>, root: Node<F>, c: Change<F>, usable: set<int>)
    requires !PresentsGenuine(root, c)
    ensures Stepped(f, root, c, usable, root)
  {
    KeepsSame(f, root);
  }

  lemma SteppedKeeps<F(!new)>(f: Ops<F>, root: Node<F>, was: Node<F>, c: Change<F>, usable: set<int>, next: Node<F>)
    requires Keeps(f, root, was) && Stepped(f, was, c, usable, next)
    ensures Keeps(f, root, next)
  {
    KeepsOn(f, root, was, next);
  }
}
