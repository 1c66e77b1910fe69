/**
 Cutting a store down to what one person may see: export, slice, and merge
 the slice back over the same rows.
 */
module Projection {
  import opened Results
  import opened Visibility
  import opened PublicTrees
  import opened Merge

  /** What every stored tree satisfies. */
  ghost predicate Sound<L(!new), S>(tree: Tree<L, S>) {
    && Grounded(tree.rows)
    && (forall k :: k in tree.rows ==> Fits(tree.rows[k]))
    && (forall x, n: nat :: n > 0 ==> Up(Parents(tree.rows), x, n) != Some(x))
    && (forall e :: e in tree.whitelist ==> e.0 != e.1)
    && (forall a, b :: {a, b} in tree.links ==>
          a != b && a in tree.rows && b in tree.rows && ((a, b) in tree.whitelist || (b, a) in tree.whitelist))
  }

  function Published<L, S>(name: L, row: Row<L, S>): PublicNode<L> {
    PublicNode(name, row.parent, row.threshold, row.key, row.active)
  }

  /** `full` is an export of the tree, in whatever order the rows come. */
  ghost predicate Exported<L(!new), S>(tree: Tree<L, S>, full: PublicTree<L>) {
    && full.name == tree.name && full.generation == tree.generation && Distinct(full.nodes)
    && (forall x :: x in full.nodes <==> x.name in tree.rows && x == Published(x.name, tree.rows[x.name]))
    && (forall e :: e in full.whitelist <==> e in tree.whitelist && e.0 in tree.rows)
    && (forall e :: e in full.links ==> {e.0, e.1} in tree.links)
    && (forall a, b :: {a, b} in tree.links ==> (a, b) in full.links || (b, a) in full.links)
  }

  lemma ExportParents<L(!new), S>(tree: Tree<L, S>, full: PublicTree<L>)
    requires Exported(tree, full)
    ensures ParentOf(full.nodes) == Parents(tree.rows)
  {
    forall k
      ensures k in ParentOf(full.nodes) <==> k in tree.rows
      ensures k in tree.rows ==> ParentOf(full.nodes)[k] == tree.rows[k].parent
    {
      ParentOfDomain(full.nodes, k);
      if k in tree.rows {
        var x := Published(k, tree.rows[k]);
        assert x in full.nodes;
        var j :| 0 <= j < |full.nodes| && full.nodes[j] == x;
        assert Listed(full.nodes, |full.nodes|, k, x.parent);
        ParentOfIsListed(full.nodes, k, x.parent);
      }
    }
  }

  lemma ExportWellFormed<L(!new), S>(tree: Tree<L, S>, full: PublicTree<L>)
    requires Sound(tree) && Exported(tree, full)
    ensures WellFormed(full.nodes)
  {
    ExportParents(tree, full);
  }

  /** Merging back what a row published leaves the row as it was, sealed share included. */
  lemma PlacedBack<L(!new), S>(rows: map<L, Row<L, S>>, k: L)
    requires k in rows && Fits(rows[k])
    ensures Placed(rows, Published(k, rows[k])) == rows[k]
    ensures Storable(rows, Published(k, rows[k]))
  {
  }

  lemma SliceNodes<L(!new), S>(tree: Tree<L, S>, full: PublicTree<L>, v: set<L>)
    requires Sound(tree) && Exported(tree, full) && AncestorClosed(Parents(tree.rows), v)
    ensures Distinct(Keep(full.nodes, v)) && Acyclic(Keep(full.nodes, v))
    ensures forall x :: x in Keep(full.nodes, v) <==> x.name in tree.rows && x.name in v && x == Published(x.name, tree.rows[x.name])
    ensures Names(Keep(full.nodes, v)) == tree.rows.Keys * v
    ensures ParentOf(Keep(full.nodes, v)) == Restricted(Parents(tree.rows), v)
  {
    var kept := Keep(full.nodes, v);
    ExportParents(tree, full);
    ExportWellFormed(tree, full);
    SliceWellFormed(full.nodes, v);
    KeepIsRestricted(full.nodes, v);
    forall x
      ensures x in kept <==> x.name in tree.rows && x.name in v && x == Published(x.name, tree.rows[x.name])
    {
      KeepMembers(full.nodes, v, x);
    }
    forall k
      ensures k in Names(kept) <==> k in tree.rows && k in v
    {
      ParentOfDomain(kept, k);
      if k in ParentOf(kept) {
        var j :| 0 <= j < |kept| && kept[j].name == k;
      }
    }
    assert Acyclic(kept) by {
      forall x
        ensures NoCycleAt(kept, x)
      {
      }
    }
  }

  lemma SliceClosed<L(!new), S>(tree: Tree<L, S>, full: PublicTree<L>, v: set<L>)
    requires Sound(tree) && Exported(tree, full) && AncestorClosed(Parents(tree.rows), v)
    ensures AncestorClosed(ParentOf(Keep(full.nodes, v)), tree.rows.Keys * v)
    ensures forall y :: Inside(Keep(full.nodes, v), y) <==> y in tree.rows && y in v
  {
    SliceNodes(tree, full, v);
    var kept := Keep(full.nodes, v);
    var inside := tree.rows.Keys * v;
    forall y | y in inside && tree.rows[y].parent.Some?
      ensures tree.rows[y].parent.value in inside
    {
      assert y in Parents(tree.rows);
    }
    assert AncestorClosed(ParentOf(kept), inside);
    forall y
      ensures Inside(kept, y) <==> y in inside
    {
      if y in inside {
        forall z | InLineage(ParentOf(kept), y, z)
          ensures z in inside
        {
          LineageInside(ParentOf(kept), inside, y, z);
        }
      } else {
        assert Up(ParentOf(kept), y, 0) == Some(y);
        assert InLineage(ParentOf(kept), y, y);
      }
    }
  }

  /** The store always takes a slice of its own export. */
  lemma OwnSliceAcceptable<L(!new), S>(tree: Tree<L, S>, full: PublicTree<L>, v: set<L>)
    requires Sound(tree) && Exported(tree, full) && AncestorClosed(Parents(tree.rows), v) && v <= tree.rows.Keys && v != {}
    ensures Acceptable(tree, FilterPublicTree(full, v))
  {
    var slice := FilterPublicTree(full, v);
    SliceNodes(tree, full, v);
    SliceClosed(tree, full, v);
    OwnSliceAccepted(tree, full, v);
    OwnEdgesFit(tree, full, v);
    var k :| k in v;
    assert Published(k, tree.rows[k]) in slice.nodes;
  }

  lemma OwnSliceAccepted<L(!new), S>(tree: Tree<L, S>, full: PublicTree<L>, v: set<L>)
    requires Sound(tree) && Exported(tree, full) && AncestorClosed(Parents(tree.rows), v)
    ensures AllAccepted(tree.rows, Keep(full.nodes, v))
  {
    SliceNodes(tree, full, v);
    forall x | x in Keep(full.nodes, v)
      ensures Accepts(tree.rows, Names(Keep(full.nodes, v)), x)
    {
      PlacedBack(tree.rows, x.name);
      assert x.name in Parents(tree.rows);
    }
  }

  lemma SliceEdges<L(!new)>(full: PublicTree<L>, v: set<L>)
    ensures forall e :: e in FilterPublicTree(full, v).whitelist <==> e in full.whitelist && e.0 in v && e.1 in v
    ensures forall e :: e in FilterPublicTree(full, v).links <==> e in full.links && e.0 in v && e.1 in v
  {
    forall e
      ensures e in Inner(full.whitelist, v) <==> e in full.whitelist && e.0 in v && e.1 in v
      ensures e in Inner(full.links, v) <==> e in full.links && e.0 in v && e.1 in v
    {
      InnerMembers(full.whitelist, v, e);
      InnerMembers(full.links, v, e);
    }
  }

  lemma OwnEdgesFit<L(!new), S>(tree: Tree<L, S>, full: PublicTree<L>, v: set<L>)
    requires Sound(tree) && Exported(tree, full) && AncestorClosed(Parents(tree.rows), v) && v <= tree.rows.Keys
    ensures EdgesFit(FilterPublicTree(full, v))
  {
    var slice := FilterPublicTree(full, v);
    SliceClosed(tree, full, v);
    SliceEdges(full, v);
    hide Inside, Inner, Keep, Up, Fits, Grounded, Parents, AncestorClosed;
    forall e | e in slice.links
      ensures e.0 != e.1 && (e in slice.whitelist || (e.1, e.0) in slice.whitelist)
    {
      assert {e.0, e.1} in tree.links;
      assert (e.0, e.1) == e;
    }
  }

  lemma OwnLinks<L(!new), S>(tree: Tree<L, S>, full: PublicTree<L>, v: set<L>, after: Tree<L, S>)
    requires Exported(tree, full) && Took(tree, FilterPublicTree(full, v), after)
    ensures forall a, b :: {a, b} in after.links <==> {a, b} in tree.links && a in v && b in v
  {
    SliceEdges(full, v);
    hide Inside, Inner, Keep, Placed;
    forall a, b
      ensures {a, b} in after.links <==> {a, b} in tree.links && a in v && b in v
    {
      if {a, b} in after.links {
        var l :| l in FilterPublicTree(full, v).links && {a, b} == {l.0, l.1};
        assert a in {l.0, l.1} && b in {l.0, l.1} && l.0 in {a, b} && l.1 in {a, b};
        assert {l.0, l.1} in tree.links;
      }
      if {a, b} in tree.links && a in v && b in v {
        var l := if (a, b) in full.links then (a, b) else (b, a);
        assert {a, b} == {l.0, l.1};
        assert l in FilterPublicTree(full, v).links;
      }
    }
  }

  /** Taking a slice of its own export restricts the rows and changes none of them. */
  lemma OwnSliceRestricts<L(!new), S>(tree: Tree<L, S>, full: PublicTree<L>, v: set<L>, after: Tree<L, S>)
    requires Sound(tree) && Exported(tree, full) && AncestorClosed(Parents(tree.rows), v)
    requires Took(tree, FilterPublicTree(full, v), after)
    ensures after.rows == map k | k in tree.rows && k in v :: tree.rows[k]
    ensures forall a, b :: {a, b} in after.links <==> {a, b} in tree.links && a in v && b in v
  {
    OwnLinks(tree, full, v, after);
    SliceClosed(tree, full, v);
    SliceNodes(tree, full, v);
    forall k | k in tree.rows && k in v
      ensures k in after.rows && after.rows[k] == tree.rows[k]
    {
      assert Published(k, tree.rows[k]) in Keep(full.nodes, v);
      PlacedBack(tree.rows, k);
    }
  }

  // ---- the projection -----------------------------------------------------------------------------

  lemma LineageInRows<L(!new), S>(tree: Tree<L, S>, x: L, y: L)
    requires Grounded(tree.rows) && InLineage(Parents(tree.rows), x, y)
    ensures x in tree.rows ==> y in tree.rows
    ensures y in tree.rows ==> x in tree.rows
  {
    var parentOf := Parents(tree.rows);
    if x in tree.rows {
      LineageInside(parentOf, tree.rows.Keys, x, y);
    } else {
      var n: nat :| Up(parentOf, x, n) == Some(y);
      if n > 0 {
        assert Up(parentOf, x, 0) == Some(x) && Up(parentOf, x, 1).None?;
        EndsAt(parentOf, x, 1, n);
      }
    }
  }

  /** Nobody sees a label that is not in the tree. */
  lemma SeesOnlyRows<L(!new), S>(tree: Tree<L, S>, full: PublicTree<L>, seed: L, v: set<L>)
    requires Sound(tree) && Exported(tree, full) && seed in tree.rows
    requires IsVisibleSet(Parents(tree.rows), full.links, [seed], v)
    ensures v <= tree.rows.Keys
  {
    var parentOf := Parents(tree.rows);
    var w := tree.rows.Keys;
    forall y | InBase(parentOf, seed, y)
      ensures y in w
    {
      if InLineage(parentOf, seed, y) {
        LineageInRows(tree, seed, y);
      } else if InLineage(parentOf, y, seed) {
        LineageInRows(tree, y, seed);
      }
    }
    forall i, y | 0 <= i < |full.links|
      ensures InLineage(parentOf, full.links[i].1, y) ==> y in w
      ensures InLineage(parentOf, full.links[i].0, y) ==> y in w
    {
      var e := full.links[i];
      assert e in full.links && {e.0, e.1} in tree.links;
      if InLineage(parentOf, e.1, y) {
        LineageInRows(tree, e.1, y);
      }
      if InLineage(parentOf, e.0, y) {
        LineageInRows(tree, e.0, y);
      }
    }
    assert Contains(parentOf, [seed], w) && LinkClosed(parentOf, full.links, w);
  }

  /**
   Keep only what one label may see. It always succeeds for a label of the
   tree; what is left are the visible rows, each exactly as it was.
   */
  method ProjectLocal<L(==, !new), S>(tree: Tree<L, S>, full: PublicTree<L>, seed: L)
    returns (r: Result<Tree<L, S>>, v: set<L>)
    requires Sound(tree) && Exported(tree, full)
    ensures r.Ok? <==> seed in tree.rows
    ensures r.Ok? ==> IsVisibleSet(Parents(tree.rows), full.links, [seed], v) && v <= tree.rows.Keys
    ensures r.Ok? ==> r.value.rows == map k | k in tree.rows && k in v :: tree.rows[k]
    ensures r.Ok? ==> r.value.generation == tree.generation
    ensures r.Ok? ==> forall a, b :: {a, b} in r.value.links <==> {a, b} in tree.links && a in v && b in v
  {
    ExportParents(tree, full);
    ExportWellFormed(tree, full);
    hide WellFormed, Exported, ParentOf, Acceptable, Keep;
    if seed !in tree.rows {
      return Err(NodeNotFound), {};
    }
    v := VisibleToOne(full, seed);
    SeesOnlyRows(tree, full, seed, v);
    SeesItself(Parents(tree.rows), full.links, seed, v);
    OwnSliceAcceptable(tree, full, v);
    r := ApplyPublicTree(tree, FilterPublicTree(full, v));
    OwnSliceRestricts(tree, full, v, r.value);
  }

  lemma SeesItself<L(!new)>(parentOf: map<L, Option<L>>, links: seq<(L, L)>, seed: L, v: set<L>)
    requires IsVisibleSet(parentOf, links, [seed], v) && seed in parentOf
    ensures seed in v && AncestorClosed(parentOf, v)
  {
    SeedsVisible(parentOf, [seed], v);
    assert [seed][0] == seed;
  }
}
