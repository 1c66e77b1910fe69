/**
 Public trees: what is published about a key tree, the visibility rule over
 it, and the slice one person is given.
 */
module PublicTrees {
  import opened Results
  import opened Visibility

  /** What a tree publishes about one node; a hardware key is known by its row id. */
  datatype PublicNode<L> =
    PublicNode(name: L, parent: Option<L>, threshold: Option<nat>, key: Option<nat>, active: bool)

  datatype PublicTree<L> = PublicTree(
    name: L, generation: nat, nodes: seq<PublicNode<L>>, whitelist: seq<(L, L)>, links: seq<(L, L)>)

  predicate Distinct<L(==)>(nodes: seq<PublicNode<L>>) {
    forall i, j :: 0 <= i < j < |nodes| ==> nodes[i].name != nodes[j].name
  }

  function ParentOf<L(==)>(nodes: seq<PublicNode<L>>): map<L, Option<L>> {
    if nodes == [] then map[]
    else
      var last := nodes[|nodes| - 1];
      ParentOf(nodes[..|nodes| - 1])[last.name := last.parent]
  }

  /** No label twice, and nobody their own ancestor. */
  ghost predicate WellFormed<L(!new)>(nodes: seq<PublicNode<L>>) {
    Distinct(nodes) && forall x, n: nat :: n > 0 ==> Up(ParentOf(nodes), x, n) != Some(x)
  }

  /** Some node among the first `n` has this label and this parent. */
  ghost predicate Listed<L>(nodes: seq<PublicNode<L>>, n: nat, c: L, p: Option<L>)
    requires n <= |nodes|
  {
    exists j :: 0 <= j < n && nodes[j].name == c && nodes[j].parent == p
  }

  lemma {:induction false} ParentOfDomain<L>(nodes: seq<PublicNode<L>>, c: L)
    ensures c in ParentOf(nodes) <==> exists j :: 0 <= j < |nodes| && nodes[j].name == c
  {
    if nodes != [] {
      var front := nodes[..|nodes| - 1];
      ParentOfDomain(front, c);
      if c in ParentOf(front) {
        var j :| 0 <= j < |front| && front[j].name == c;
        assert nodes[j].name == c;
      }
    }
  }

  lemma {:induction false} ParentOfIsListed<L>(nodes: seq<PublicNode<L>>, c: L, p: Option<L>)
    requires Distinct(nodes)
    ensures Listed(nodes, |nodes|, c, p) <==> c in ParentOf(nodes) && ParentOf(nodes)[c] == p
  {
    if nodes != [] {
      var front := nodes[..|nodes| - 1];
      ParentOfIsListed(front, c, p);
      if Listed(front, |front|, c, p) {
        var j :| 0 <= j < |front| && front[j].name == c && front[j].parent == p;
        assert nodes[j].name == c && nodes[j].parent == p;
      }
    }
  }

  /** Walk the nodes once, filling both maps. */
  method BuildMaps<L(==, !new)>(nodes: seq<PublicNode<L>>)
    returns (parentOf: map<L, Option<L>>, childrenOf: map<L, seq<L>>)
    ensures parentOf == ParentOf(nodes)
    ensures WellFormed(nodes) ==> Forest(parentOf, childrenOf)
  {
    parentOf, childrenOf := map[], map[];
    assert nodes[..0] == [];
    for i := 0 to |nodes|
      invariant parentOf == ParentOf(nodes[..i])
      invariant forall p, c :: c in Kids(childrenOf, p) <==> Listed(nodes, i, c, Some(p))
    {
      var node := nodes[i];
      assert nodes[..i + 1][..i] == nodes[..i];
      parentOf := parentOf[node.name := node.parent];
      ghost var was := childrenOf;
      if node.parent.Some? {
        var p := node.parent.value;
        childrenOf := childrenOf[p := Kids(childrenOf, p) + [node.name]];
      }
      forall p, c
        ensures c in Kids(childrenOf, p) <==> Listed(nodes, i + 1, c, Some(p))
      {
        KidListed(nodes, was, childrenOf, i, p, c);
      }
    }
    assert nodes[..|nodes|] == nodes;
    if WellFormed(nodes) {
      MapsAreForest(nodes, childrenOf);
    }
  }

  lemma KidListed<L(!new)>(
    nodes: seq<PublicNode<L>>, was: map<L, seq<L>>, now: map<L, seq<L>>, i: nat, p: L, c: L)
    requires i < |nodes|
    requires c in Kids(was, p) <==> Listed(nodes, i, c, Some(p))
    requires Kids(now, p) == if nodes[i].parent == Some(p) then Kids(was, p) + [nodes[i].name] else Kids(was, p)
    ensures c in Kids(now, p) <==> Listed(nodes, i + 1, c, Some(p))
  {
    hide Kids;
    if Listed(nodes, i, c, Some(p)) {
      var j :| 0 <= j < i && nodes[j].name == c && nodes[j].parent == Some(p);
      assert Listed(nodes, i + 1, c, Some(p));
    }
  }

  lemma MapsAreForest<L(!new)>(nodes: seq<PublicNode<L>>, childrenOf: map<L, seq<L>>)
    requires WellFormed(nodes)
    requires forall p, c :: c in Kids(childrenOf, p) <==> Listed(nodes, |nodes|, c, Some(p))
    ensures Forest(ParentOf(nodes), childrenOf)
  {
    forall p, c
      ensures c in Kids(childrenOf, p) <==> c in ParentOf(nodes) && ParentOf(nodes)[c] == Some(p)
    {
      ParentOfIsListed(nodes, c, Some(p));
    }
  }

  /** Nothing lies below a label that nobody names as their parent, as with leaves. */
  lemma ChildlessUpperFirst<L(!new)>(parentOf: map<L, Option<L>>, seeds: seq<L>)
    requires forall i, c :: 0 <= i < |seeds| && c in parentOf ==> parentOf[c] != Some(seeds[i])
    ensures UpperFirst(parentOf, seeds)
  {
    forall i, y | 0 <= i < |seeds|
      ensures !Below(parentOf, seeds[i], y)
    {
      forall n: nat | n > 0 ensures Up(parentOf, y, n) != Some(seeds[i]) {}
    }
  }

  /** What the seeds see of a published tree. */
  method VisibleInPublicTree<L(==, !new)>(full: PublicTree<L>, seeds: seq<L>) returns (v: set<L>)
    ensures (forall i :: 0 <= i < |seeds| ==> seeds[i] !in ParentOf(full.nodes)) ==> v == {}
    ensures WellFormed(full.nodes) ==> IsSeenSet(ParentOf(full.nodes), full.links, seeds, v)
    ensures WellFormed(full.nodes) && NothingHidden(ParentOf(full.nodes), seeds) ==>
      IsVisibleSet(ParentOf(full.nodes), full.links, seeds, v)
    ensures WellFormed(full.nodes) && full.links == [] ==>
      (IsVisibleSet(ParentOf(full.nodes), full.links, seeds, v) <==> NothingHidden(ParentOf(full.nodes), seeds))
  {
    hide WellFormed, Forest, ParentOf, IsVisibleSet, IsSeenSet, NothingHidden, InLineage, NothingExtra;
    var parentOf, childrenOf := BuildMaps(full.nodes);
    v := VisibleFromMaps(parentOf, childrenOf, full.links, seeds);
  }

  /** What one label sees. */
  method VisibleToOne<L(==, !new)>(full: PublicTree<L>, seed: L) returns (v: set<L>)
    ensures seed !in ParentOf(full.nodes) ==> v == {}
    ensures WellFormed(full.nodes) ==> IsVisibleSet(ParentOf(full.nodes), full.links, [seed], v)
  {
    UpperFirstHidesNothing(ParentOf(full.nodes), [seed]);
    v := VisibleInPublicTree(full, [seed]);
  }

  // ---- the slice ------------------------------------------------------------------------------

  function Keep<L(==)>(nodes: seq<PublicNode<L>>, v: set<L>): seq<PublicNode<L>> {
    if nodes == [] then []
    else
      var last := nodes[|nodes| - 1];
      Keep(nodes[..|nodes| - 1], v) + (if last.name in v then [last] else [])
  }

  function Inner<L(==)>(edges: seq<(L, L)>, v: set<L>): seq<(L, L)> {
    if edges == [] then []
    else
      var last := edges[|edges| - 1];
      Inner(edges[..|edges| - 1], v) + (if last.0 in v && last.1 in v then [last] else [])
  }

  function FilterPublicTree<L(==)>(full: PublicTree<L>, v: set<L>): PublicTree<L> {
    PublicTree(full.name, full.generation, Keep(full.nodes, v), Inner(full.whitelist, v), Inner(full.links, v))
  }

  lemma {:induction false} KeepIsRestricted<L>(nodes: seq<PublicNode<L>>, v: set<L>)
    ensures ParentOf(Keep(nodes, v)) == Restricted(ParentOf(nodes), v)
  {
    if nodes != [] {
      var last := nodes[|nodes| - 1];
      var front := nodes[..|nodes| - 1];
      KeepIsRestricted(front, v);
      if last.name in v {
        assert Keep(nodes, v)[..|Keep(nodes, v)| - 1] == Keep(front, v);
      } else {
        assert Keep(nodes, v) == Keep(front, v);
      }
    }
  }

  lemma {:induction false} KeepMembers<L>(nodes: seq<PublicNode<L>>, v: set<L>, x: PublicNode<L>)
    ensures x in Keep(nodes, v) <==> x in nodes && x.name in v
  {
    if nodes != [] {
      var front := nodes[..|nodes| - 1];
      KeepMembers(front, v, x);
      assert nodes == front + [nodes[|nodes| - 1]];
    }
  }

  lemma {:induction false} KeepDistinct<L(!new)>(nodes: seq<PublicNode<L>>, v: set<L>)
    requires Distinct(nodes)
    ensures Distinct(Keep(nodes, v))
  {
    if nodes != [] {
      var last := nodes[|nodes| - 1];
      var front := nodes[..|nodes| - 1];
      KeepDistinct(front, v);
      forall x | x in Keep(front, v)
        ensures x.name != last.name
      {
        KeepMembers(front, v, x);
        var j :| 0 <= j < |front| && front[j] == x;
        assert nodes[j] == x;
      }
      assert forall i :: 0 <= i < |Keep(front, v)| ==> Keep(front, v)[i] in Keep(front, v);
    }
  }

  lemma {:induction false} InnerMembers<L>(edges: seq<(L, L)>, v: set<L>, e: (L, L))
    ensures e in Inner(edges, v) <==> e in edges && e.0 in v && e.1 in v
  {
    if edges != [] {
      var front := edges[..|edges| - 1];
      InnerMembers(front, v, e);
      assert edges == front + [edges[|edges| - 1]];
    }
  }

  lemma {:induction false} FewerSteps<L>(parentOf: map<L, Option<L>>, v: set<L>, x: L, n: nat)
    ensures Up(Restricted(parentOf, v), x, n).Some? ==> Up(Restricted(parentOf, v), x, n) == Up(parentOf, x, n)
  {
    if n > 0 {
      FewerSteps(parentOf, v, x, n - 1);
    }
  }

  /** Cutting a well-formed tree leaves a well-formed tree. */
  lemma SliceWellFormed<L(!new)>(nodes: seq<PublicNode<L>>, v: set<L>)
    requires WellFormed(nodes)
    ensures WellFormed(Keep(nodes, v))
  {
    KeepDistinct(nodes, v);
    KeepIsRestricted(nodes, v);
    forall x, n: nat | n > 0
      ensures Up(ParentOf(Keep(nodes, v)), x, n) != Some(x)
    {
      FewerSteps(ParentOf(nodes), v, x, n);
    }
  }

  /**
   The slice made for what seeds see is well formed, keeps the seeds and the
   parent of every node that has one, and shows the same labels again.
   */
  lemma SliceShowsTheSame<L(!new)>(full: PublicTree<L>, seeds: seq<L>, v: set<L>, again: set<L>)
    requires WellFormed(full.nodes) && IsVisibleSet(ParentOf(full.nodes), full.links, seeds, v)
    requires var slice := FilterPublicTree(full, v); IsVisibleSet(ParentOf(slice.nodes), slice.links, seeds, again)
    ensures WellFormed(FilterPublicTree(full, v).nodes)
    ensures AncestorClosed(ParentOf(FilterPublicTree(full, v).nodes), v)
    ensures forall i :: 0 <= i < |seeds| && seeds[i] in ParentOf(full.nodes) ==>
      seeds[i] in ParentOf(FilterPublicTree(full, v).nodes)
    ensures again == v
  {
    var slice := FilterPublicTree(full, v);
    SliceWellFormed(full.nodes, v);
    KeepIsRestricted(full.nodes, v);
    assert InnerLinks(full.links, v, slice.links) by {
      forall e
        ensures e in slice.links <==> e in full.links && e.0 in v && e.1 in v
      {
        InnerMembers(full.links, v, e);
      }
    }
    SeedsVisible(ParentOf(full.nodes), seeds, v);
    SliceSeesItself(ParentOf(full.nodes), full.links, seeds, v, slice.links);
    LinkOrderIsIrrelevant(ParentOf(slice.nodes), slice.links, slice.links, seeds, v, again);
  }

  // ---- the slice for a key ---------------------------------------------------------------------

  /** The labels that carry a key, in the order of the nodes. */
  function Carriers<L(!new)>(nodes: seq<PublicNode<L>>, key: nat): (seeds: seq<L>)
    ensures seeds == [] <==> forall x :: x in nodes ==> x.key != Some(key)
  {
    if nodes == [] then []
    else
      var last := nodes[|nodes| - 1];
      assert forall x :: x in nodes <==> x in nodes[..|nodes| - 1] || x == last;
      Carriers(nodes[..|nodes| - 1], key) + (if last.key == Some(key) then [last.name] else [])
  }

  /** Every parent is listed before its children. */
  ghost predicate ParentsFirst<L(!new)>(nodes: seq<PublicNode<L>>) {
    forall i :: 0 <= i < |nodes| && nodes[i].parent.Some? ==> exists j :: 0 <= j < i && nodes[j].name == nodes[i].parent.value
  }

  lemma {:induction false} CarrierPositions<L(!new)>(nodes: seq<PublicNode<L>>, key: nat) returns (pos: seq<nat>)
    ensures |pos| == |Carriers(nodes, key)|
    ensures forall k :: 0 <= k < |pos| ==> pos[k] < |nodes| && nodes[pos[k]].name == Carriers(nodes, key)[k]
    ensures forall k, l :: 0 <= k < l < |pos| ==> pos[k] < pos[l]
  {
    if nodes == [] {
      return [];
    }
    var n := |nodes| - 1;
    var front := nodes[..n];
    assert Carriers(nodes, key) == Carriers(front, key) + (if nodes[n].key == Some(key) then [nodes[n].name] else []);
    pos := CarrierPositions(front, key);
    hide Carriers;
    assert forall k :: 0 <= k < |pos| ==> nodes[pos[k]] == front[pos[k]];
    if nodes[n].key == Some(key) {
      pos := pos + [n];
    }
  }

  /** What lies below a label is listed after it. */
  lemma {:induction false} BelowIsLater<L(!new)>(nodes: seq<PublicNode<L>>, a: nat, b: nat, n: nat)
    requires Distinct(nodes) && ParentsFirst(nodes) && a < |nodes| && b < |nodes|
    requires n > 0 && Up(ParentOf(nodes), nodes[b].name, n) == Some(nodes[a].name)
    ensures a < b
    decreases n
  {
    var up, y := ParentOf(nodes), nodes[b].name;
    assert Listed(nodes, |nodes|, y, nodes[b].parent);
    ParentOfIsListed(nodes, y, nodes[b].parent);
    assert Up(up, y, 0) == Some(y) && Up(up, y, 1) == nodes[b].parent;
    if nodes[b].parent.None? {
      EndsAt(up, y, 1, n);
    }
    UpAdds(up, y, 1, n - 1);
    var c :| 0 <= c < b && nodes[c].name == nodes[b].parent.value;
    if n > 1 {
      BelowIsLater(nodes, a, c, n - 1);
    } else {
      assert nodes[a].name == nodes[c].name;
    }
  }

  lemma CarriersUpperFirst<L(!new)>(nodes: seq<PublicNode<L>>, key: nat)
    requires Distinct(nodes) && ParentsFirst(nodes)
    ensures UpperFirst(ParentOf(nodes), Carriers(nodes, key))
  {
    var pos := CarrierPositions(nodes, key);
    var seeds := Carriers(nodes, key);
    forall k, i | 0 <= k < i < |seeds|
      ensures !Below(ParentOf(nodes), seeds[i], seeds[k])
    {
      forall n: nat | n > 0
        ensures Up(ParentOf(nodes), seeds[k], n) != Some(seeds[i])
      {
        if Up(ParentOf(nodes), seeds[k], n) == Some(seeds[i]) {
          BelowIsLater(nodes, pos[i], pos[k], n);
        }
      }
    }
  }

  /**
   One tree cut down to what the carriers of a key see, or nothing when nobody
   carries it. A tree that lists parents first shows them all they should see.
   */
  method SliceForKey<L(==, !new)>(full: PublicTree<L>, key: nat) returns (r: Option<PublicTree<L>>, ghost v: set<L>)
    ensures r.None? <==> forall x :: x in full.nodes ==> x.key != Some(key)
    ensures r.Some? ==> r.value == FilterPublicTree(full, v)
    ensures r.Some? && WellFormed(full.nodes) ==> IsSeenSet(ParentOf(full.nodes), full.links, Carriers(full.nodes, key), v)
    ensures r.Some? && WellFormed(full.nodes) && (ParentsFirst(full.nodes) || NothingHidden(ParentOf(full.nodes), Carriers(full.nodes, key))) ==>
      IsVisibleSet(ParentOf(full.nodes), full.links, Carriers(full.nodes, key), v)
  {
    var seeds := Carriers(full.nodes, key);
    v := {};
    if seeds == [] {
      return None, v;
    }
    var seen := VisibleInPublicTree(full, seeds);
    if WellFormed(full.nodes) && ParentsFirst(full.nodes) {
      CarriersUpperFirst(full.nodes, key);
      UpperFirstHidesNothing(ParentOf(full.nodes), seeds);
    }
    return Some(FilterPublicTree(full, seen)), seen;
  }
}
