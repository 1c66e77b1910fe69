/**
 Which labels of a tree one person is allowed to see: their own lineage,
 descendants and siblings, and whatever established links bring in.
 */
module Visibility {
  import opened FiniteSets
  import opened Results

  /** `n` parent steps up from `x`. */
  function Up<L(==)>(parentOf: map<L, Option<L>>, x: L, n: nat): Option<L> {
    if n == 0 then Some(x)
    else
      var y := Up(parentOf, x, n - 1);
      if y.None? || y.value !in parentOf then None else parentOf[y.value]
  }

  /** `y` is `x` or an ancestor of it. */
  ghost predicate InLineage<L(!new)>(parentOf: map<L, Option<L>>, x: L, y: L) {
    exists n: nat :: Up(parentOf, x, n) == Some(y)
  }

  lemma {:induction false} UpAdds<L>(parentOf: map<L, Option<L>>, x: L, m: nat, n: nat)
    requires Up(parentOf, x, m).Some?
    ensures Up(parentOf, x, m + n) == Up(parentOf, Up(parentOf, x, m).value, n)
  {
    if n > 0 {
      UpAdds(parentOf, x, m, n - 1);
    }
  }

  lemma LineageTransitive<L(!new)>(parentOf: map<L, Option<L>>, x: L, y: L, z: L)
    requires InLineage(parentOf, x, y) && InLineage(parentOf, y, z)
    ensures InLineage(parentOf, x, z)
  {
    var m: nat :| Up(parentOf, x, m) == Some(y);
    var n: nat :| Up(parentOf, y, n) == Some(z);
    UpAdds(parentOf, x, m, n);
  }

  // ---- walking up ---------------------------------------------------------------------

  /** Once the walk comes back to a label it has seen, it only repeats. */
  lemma {:induction false} Repeats<L>(parentOf: map<L, Option<L>>, x: L, i: nat, n: nat, m: nat)
    requires i < n && Up(parentOf, x, i) == Up(parentOf, x, n)
    ensures exists j: nat :: j < n && Up(parentOf, x, j) == Up(parentOf, x, m)
    decreases m
  {
    if m < n {
    } else if m == n {
      assert Up(parentOf, x, i) == Up(parentOf, x, m);
    } else {
      Repeats(parentOf, x, i, n, m - 1);
      var j: nat :| j < n && Up(parentOf, x, j) == Up(parentOf, x, m - 1);
      assert Up(parentOf, x, j + 1) == Up(parentOf, x, m);
      if j + 1 == n {
        assert Up(parentOf, x, i) == Up(parentOf, x, m);
      }
    }
  }

  /** Nothing lies above a label without a parent. */
  lemma {:induction false} EndsAt<L>(parentOf: map<L, Option<L>>, x: L, n: nat, m: nat)
    requires Up(parentOf, x, n).None? && n <= m
    ensures Up(parentOf, x, m).None?
    decreases m
  {
    if n < m {
      EndsAt(parentOf, x, n, m - 1);
    }
  }

  /** Everything the walk can meet. */
  function Above<L(==)>(parentOf: map<L, Option<L>>, start: L): set<L> {
    {start} + set k | k in parentOf && parentOf[k].Some? :: parentOf[k].value
  }

  lemma UpStaysAbove<L>(parentOf: map<L, Option<L>>, start: L, n: nat)
    requires Up(parentOf, start, n).Some?
    ensures Up(parentOf, start, n).value in Above(parentOf, start)
  {
  }

  /** The labels met in the first `n` steps. */
  ghost predicate Met<L(!new)>(parentOf: map<L, Option<L>>, start: L, n: nat, seen: set<L>) {
    forall y :: y in seen <==> exists i: nat :: i < n && Up(parentOf, start, i) == Some(y)
  }

  lemma MetNext<L(!new)>(parentOf: map<L, Option<L>>, start: L, n: nat, seen: set<L>, x: L)
    requires Met(parentOf, start, n, seen) && Up(parentOf, start, n) == Some(x)
    ensures Met(parentOf, start, n + 1, seen + {x})
    ensures Up(parentOf, start, n + 1) == if x in parentOf then parentOf[x] else None
  {
  }

  lemma MetAgain<L(!new)>(parentOf: map<L, Option<L>>, start: L, n: nat, seen: set<L>, x: L)
    requires Met(parentOf, start, n, seen) && Up(parentOf, start, n) == Some(x) && x in seen
    ensures forall y :: y in seen <==> InLineage(parentOf, start, y)
  {
    var i: nat :| i < n && Up(parentOf, start, i) == Some(x);
    forall y | InLineage(parentOf, start, y)
      ensures y in seen
    {
      var m: nat :| Up(parentOf, start, m) == Some(y);
      Repeats(parentOf, start, i, n, m);
    }
  }

  lemma MetAll<L(!new)>(parentOf: map<L, Option<L>>, start: L, n: nat, seen: set<L>)
    requires Met(parentOf, start, n, seen) && Up(parentOf, start, n).None?
    ensures forall y :: y in seen <==> InLineage(parentOf, start, y)
  {
    forall y | InLineage(parentOf, start, y)
      ensures y in seen
    {
      var m: nat :| Up(parentOf, start, m) == Some(y);
      if n <= m {
        EndsAt(parentOf, start, n, m);
      }
    }
  }

  lemma MetNone<L(!new)>(parentOf: map<L, Option<L>>, start: L)
    ensures Met(parentOf, start, 0, {}) && Up(parentOf, start, 0) == Some(start)
  {
  }

  /** Add a label and everything above it; ends even when the parents form a loop. */
  method WalkAncestors<L(==, !new)>(parentOf: map<L, Option<L>>, start: L, visible: set<L>)
    returns (v: set<L>, grew: bool)
    ensures forall y :: y in v <==> y in visible || InLineage(parentOf, start, y)
    ensures grew <==> v != visible
    ensures v <= visible + Above(parentOf, start)
  {
    hide Up, Met, InLineage, Above;
    v, grew := visible, false;
    var cur: Option<L> := Some(start);
    var seen: set<L> := {};
    ghost var n: nat := 0;
    MetNone(parentOf, start);
    while cur.Some?
      invariant cur == Up(parentOf, start, n) && Met(parentOf, start, n, seen)
      invariant v == visible + seen
      invariant grew <==> v != visible
      invariant seen <= Above(parentOf, start)
      decreases Above(parentOf, start) - seen, cur.Some?
    {
      var x := cur.value;
      UpStaysAbove(parentOf, start, n);
      if x in seen {
        MetAgain(parentOf, start, n, seen, x);
        return;
      }
      MetNext(parentOf, start, n, seen, x);
      seen := seen + {x};
      if x !in v {
        v, grew := v + {x}, true;
      }
      cur := if x in parentOf then parentOf[x] else None;
      n := n + 1;
    }
    MetAll(parentOf, start, n, seen);
  }

  // ---- walking down ---------------------------------------------------------------------

  function Kids<L(==)>(childrenOf: map<L, seq<L>>, x: L): seq<L> {
    if x in childrenOf then childrenOf[x] else []
  }

  ghost predicate Linked<L>(childrenOf: map<L, seq<L>>, path: seq<L>) {
    forall i :: 0 <= i < |path| - 1 ==> path[i + 1] in Kids(childrenOf, path[i])
  }

  ghost predicate FreshPath<L(!new)>(childrenOf: map<L, seq<L>>, x: L, visible: set<L>, y: L, path: seq<L>) {
    && |path| >= 2 && path[0] == x && path[|path| - 1] == y && Linked(childrenOf, path)
    && forall j :: 1 <= j < |path| ==> path[j] !in visible
  }

  /** A path of at least one step down leads from `x` to `y`, and nothing on it after `x` was visible. */
  ghost predicate Fresh<L(!new)>(childrenOf: map<L, seq<L>>, x: L, visible: set<L>, y: L) {
    exists path: seq<L> :: FreshPath(childrenOf, x, visible, y, path)
  }

  lemma FreshFurther<L(!new)>(childrenOf: map<L, seq<L>>, x: L, visible: set<L>, y: L, z: L)
    requires y == x || Fresh(childrenOf, x, visible, y)
    requires z in Kids(childrenOf, y) && z !in visible
    ensures Fresh(childrenOf, x, visible, z)
  {
    if y == x {
      assert FreshPath(childrenOf, x, visible, z, [x, z]);
    } else {
      var path: seq<L> :| FreshPath(childrenOf, x, visible, y, path);
      assert FreshPath(childrenOf, x, visible, z, path + [z]);
    }
  }

  /** What is closed under children from the start on holds all that a fresh path leads to. */
  lemma {:induction false} FreshFound<L(!new)>(
    childrenOf: map<L, seq<L>>, start: L, visible: set<L>, v: set<L>, y: L, path: seq<L>)
    requires FreshPath(childrenOf, start, visible, y, path)
    requires forall x, c :: (x == start || (x in v && x !in visible)) && c in Kids(childrenOf, x) ==> c in v
    ensures y in v
    decreases |path|
  {
    var n := |path| - 1;
    if n > 1 {
      var front := path[..n];
      assert FreshPath(childrenOf, start, visible, path[n - 1], front);
      FreshFound(childrenOf, start, visible, v, path[n - 1], front);
    }
    assert path[n] in Kids(childrenOf, path[n - 1]);
  }

  function AllKids<L(==)>(childrenOf: map<L, seq<L>>): set<L> {
    set k, i | k in childrenOf && 0 <= i < |childrenOf[k]| :: childrenOf[k][i]
  }

  /** Insert the children that are new; they go on the stack. */
  method InsertChildren<L(==)>(children: seq<L>, visible: set<L>) returns (v: set<L>, more: seq<L>)
    ensures forall y :: y in v <==> y in visible || y in children
    ensures forall y :: y in more <==> y in children && y !in visible
    ensures |more| == |v| - |visible|
  {
    v, more := visible, [];
    for i := 0 to |children|
      invariant forall y :: y in v <==> y in visible || y in children[..i]
      invariant forall y :: y in more <==> y in children[..i] && y !in visible
      invariant |more| == |v| - |visible|
    {
      if children[i] !in v {
        v, more := v + {children[i]}, more + [children[i]];
      }
    }
  }

  /**
   Explore downwards. A child that is already visible is not explored again, so
   a label is added exactly when a path leads there past nothing visible.
   */
  method AddDescendants<L(==, !new)>(childrenOf: map<L, seq<L>>, start: L, visible: set<L>) returns (v: set<L>)
    ensures forall y :: y in v <==> y in visible || Fresh(childrenOf, start, visible, y)
    ensures v <= visible + AllKids(childrenOf)
  {
    v := visible;
    var stack := [start];
    while stack != []
      invariant visible <= v <= visible + AllKids(childrenOf)
      invariant forall y :: y in v && y !in visible ==> Fresh(childrenOf, start, visible, y)
      invariant forall y :: y in stack ==> y == start || (y in v && y !in visible)
      invariant forall x, c :: (x == start || (x in v && x !in visible)) && c in Kids(childrenOf, x) ==> c in v || x in stack
      decreases |visible + AllKids(childrenOf)| - |v|, |stack|
    {
      var x := stack[|stack| - 1];
      var below := stack[..|stack| - 1];
      assert forall y :: y in stack <==> y in below || y == x;
      forall c | c in Kids(childrenOf, x)
        ensures c in AllKids(childrenOf) && (c !in visible ==> Fresh(childrenOf, start, visible, c))
      {
        if c !in visible {
          FreshFurther(childrenOf, start, visible, x, c);
        }
      }
      var more;
      v, more := InsertChildren(Kids(childrenOf, x), v);
      stack := below + more;
      SubsetSize(v, visible + AllKids(childrenOf));
    }
    forall y | Fresh(childrenOf, start, visible, y)
      ensures y in v
    {
      var path: seq<L> :| FreshPath(childrenOf, start, visible, y, path);
      FreshFound(childrenOf, start, visible, v, y, path);
    }
  }

  // ---- the tree and what is visible in it ---------------------------------------------------

  /** The two maps describe one forest: children are those who name the parent, and nobody is their own ancestor. */
  ghost predicate Forest<L(!new)>(parentOf: map<L, Option<L>>, childrenOf: map<L, seq<L>>) {
    && (forall p, c :: c in Kids(childrenOf, p) <==> c in parentOf && parentOf[c] == Some(p))
    && (forall x, n: nat :: n > 0 ==> Up(parentOf, x, n) != Some(x))
  }

  /** `y` lies strictly below `x`. */
  ghost predicate Below<L(!new)>(parentOf: map<L, Option<L>>, x: L, y: L) {
    exists n: nat :: n > 0 && Up(parentOf, y, n) == Some(x)
  }

  ghost predicate Sibling<L(!new)>(parentOf: map<L, Option<L>>, seed: L, y: L) {
    seed in parentOf && parentOf[seed].Some? && y in parentOf && parentOf[y] == parentOf[seed]
  }

  /** Lineage, descendants and siblings of the seed. */
  ghost predicate InBase<L(!new)>(parentOf: map<L, Option<L>>, seed: L, y: L) {
    InLineage(parentOf, seed, y) || InLineage(parentOf, y, seed) || Sibling(parentOf, seed, y)
  }

  ghost predicate AncestorClosed<L(!new)>(parentOf: map<L, Option<L>>, v: set<L>) {
    forall y :: y in v && y in parentOf && parentOf[y].Some? ==> parentOf[y].value in v
  }

  /** One end of a link visible makes the other end and everything above it visible. */
  ghost predicate LinkClosed<L(!new)>(parentOf: map<L, Option<L>>, links: seq<(L, L)>, v: set<L>) {
    forall i, y :: 0 <= i < |links| ==>
      && (links[i].0 in v && InLineage(parentOf, links[i].1, y) ==> y in v)
      && (links[i].1 in v && InLineage(parentOf, links[i].0, y) ==> y in v)
  }

  /** Holds what every seed of the tree brings in. */
  ghost predicate Contains<L(!new)>(parentOf: map<L, Option<L>>, seeds: seq<L>, v: set<L>) {
    forall i, y :: 0 <= i < |seeds| && seeds[i] in parentOf && InBase(parentOf, seeds[i], y) ==> y in v
  }

  /** The least link-closed set that contains the seeds' lineages, descendants and siblings. */
  ghost predicate IsVisibleSet<L(!new)>(parentOf: map<L, Option<L>>, links: seq<(L, L)>, seeds: seq<L>, v: set<L>) {
    && Contains(parentOf, seeds, v) && LinkClosed(parentOf, links, v) && AncestorClosed(parentOf, v)
    && forall w: set<L> :: Contains(parentOf, seeds, w) && LinkClosed(parentOf, links, w) ==> v <= w
  }

  // ---- what several seeds see --------------------------------------------------------------

  /** Some of the first `n` seeds has `z` in its lineage or among its siblings. */
  ghost predicate Touched<L(!new)>(parentOf: map<L, Option<L>>, seeds: seq<L>, n: nat, z: L)
    requires n <= |seeds|
  {
    exists k :: 0 <= k < n && seeds[k] in parentOf && (InLineage(parentOf, seeds[k], z) || Sibling(parentOf, seeds[k], z))
  }

  /** Between seed `i` and `y` there is a label that an earlier seed touched. */
  ghost predicate Screened<L(!new)>(parentOf: map<L, Option<L>>, seeds: seq<L>, i: nat, y: L)
    requires i < |seeds|
  {
    exists z :: Below(parentOf, seeds[i], z) && Below(parentOf, z, y) && Touched(parentOf, seeds, i, z)
  }

  /** `y` lies below seed `i` and nothing an earlier seed touched is in between. */
  ghost predicate Exposed<L(!new)>(parentOf: map<L, Option<L>>, seeds: seq<L>, i: nat, y: L)
    requires i < |seeds|
  {
    seeds[i] in parentOf && Below(parentOf, seeds[i], y) && !Screened(parentOf, seeds, i, y)
  }

  /** What the first `n` seeds bring in: touched, or exposed below one of them. */
  ghost predicate Seen<L(!new)>(parentOf: map<L, Option<L>>, seeds: seq<L>, n: nat, y: L)
    requires n <= |seeds|
  {
    Touched(parentOf, seeds, n, y) || exists i :: 0 <= i < n && Exposed(parentOf, seeds, i, y)
  }

  /** Nothing below a seed stays hidden: it is touched, or exposed below some seed. */
  ghost predicate NothingHidden<L(!new)>(parentOf: map<L, Option<L>>, seeds: seq<L>) {
    forall i, y :: 0 <= i < |seeds| && seeds[i] in parentOf && Below(parentOf, seeds[i], y) ==> Seen(parentOf, seeds, |seeds|, y)
  }

  /** The least link-closed set with all that the seeds bring in. */
  ghost predicate IsSeenSet<L(!new)>(parentOf: map<L, Option<L>>, links: seq<(L, L)>, seeds: seq<L>, v: set<L>) {
    && (forall y :: Seen(parentOf, seeds, |seeds|, y) ==> y in v)
    && LinkClosed(parentOf, links, v) && AncestorClosed(parentOf, v)
    && forall w: set<L> :: (forall y :: Seen(parentOf, seeds, |seeds|, y) ==> y in w) && LinkClosed(parentOf, links, w) ==> v <= w
  }

  lemma {:induction false} ClosedUpwards<L(!new)>(parentOf: map<L, Option<L>>, v: set<L>, x: L, n: nat)
    requires AncestorClosed(parentOf, v) && x in v && Up(parentOf, x, n).Some?
    ensures Up(parentOf, x, n).value in v
  {
    if n > 0 {
      ClosedUpwards(parentOf, v, x, n - 1);
    }
  }

  lemma LineageInside<L(!new)>(parentOf: map<L, Option<L>>, v: set<L>, x: L, y: L)
    requires AncestorClosed(parentOf, v) && x in v && InLineage(parentOf, x, y)
    ensures y in v
  {
    var n: nat :| Up(parentOf, x, n) == Some(y);
    ClosedUpwards(parentOf, v, x, n);
  }

  lemma UnionClosed<L(!new)>(parentOf: map<L, Option<L>>, v: set<L>, x: L, w: set<L>)
    requires AncestorClosed(parentOf, v)
    requires forall y :: y in w <==> y in v || InLineage(parentOf, x, y)
    ensures AncestorClosed(parentOf, w)
  {
    forall y | y in w && y in parentOf && parentOf[y].Some?
      ensures parentOf[y].value in w
    {
      if y !in v {
        var n: nat :| Up(parentOf, x, n) == Some(y);
        assert Up(parentOf, x, n + 1) == parentOf[y];
      }
    }
  }

  // ---- the base: lineage, descendants, siblings -----------------------------------------------

  lemma {:induction false} PathIsLineage<L(!new)>(
    parentOf: map<L, Option<L>>, childrenOf: map<L, seq<L>>, path: seq<L>, m: nat)
    requires Forest(parentOf, childrenOf) && m < |path| && Linked(childrenOf, path)
    ensures Up(parentOf, path[|path| - 1], m) == Some(path[|path| - 1 - m])
  {
    if m > 0 {
      PathIsLineage(parentOf, childrenOf, path, m - 1);
      var i := |path| - 1 - m;
      assert path[i + 1] in Kids(childrenOf, path[i]);
    }
  }

  /** Nothing lies below itself, and below is transitive. */
  lemma NotBelowItself<L(!new)>(parentOf: map<L, Option<L>>, childrenOf: map<L, seq<L>>, x: L, y: L)
    requires Forest(parentOf, childrenOf) && Below(parentOf, x, y)
    ensures !InLineage(parentOf, x, y)
  {
    var n: nat :| n > 0 && Up(parentOf, y, n) == Some(x);
    forall m: nat | Up(parentOf, x, m) == Some(y)
      ensures false
    {
      UpAdds(parentOf, y, n, m);
    }
  }

  lemma BelowFurther<L(!new)>(parentOf: map<L, Option<L>>, x: L, y: L, z: L)
    requires Below(parentOf, x, y) && InLineage(parentOf, z, y)
    ensures Below(parentOf, x, z)
  {
    var n: nat :| n > 0 && Up(parentOf, y, n) == Some(x);
    var m: nat :| Up(parentOf, z, m) == Some(y);
    UpAdds(parentOf, z, m, n);
  }

  lemma LineageIsBelowOrSame<L(!new)>(parentOf: map<L, Option<L>>, x: L, y: L)
    ensures InLineage(parentOf, y, x) <==> x == y || Below(parentOf, x, y)
  {
    assert Up(parentOf, y, 0) == Some(y);
  }

  /** The parent of a label below `x` is `x` or below `x`. */
  lemma ParentOfBelow<L(!new)>(parentOf: map<L, Option<L>>, x: L, y: L) returns (p: L)
    requires Below(parentOf, x, y)
    ensures y in parentOf && parentOf[y] == Some(p) && Below(parentOf, p, y)
    ensures p == x || Below(parentOf, x, p)
  {
    var n: nat :| n > 0 && Up(parentOf, y, n) == Some(x);
    assert Up(parentOf, y, 0) == Some(y);
    if Up(parentOf, y, 1).None? {
      EndsAt(parentOf, y, 1, n);
    }
    p := Up(parentOf, y, 1).value;
    UpAdds(parentOf, y, 1, n - 1);
    if n > 1 {
      assert Up(parentOf, p, n - 1) == Some(x);
    }
  }

  lemma ChildIsBelow<L(!new)>(parentOf: map<L, Option<L>>, p: L, c: L)
    requires c in parentOf && parentOf[c] == Some(p)
    ensures Below(parentOf, p, c)
  {
    assert Up(parentOf, c, 0) == Some(c) && Up(parentOf, c, 1) == Some(p);
  }

  /** `y` lies below the seed with nothing visible in between. */
  ghost predicate OpenBelow<L(!new)>(parentOf: map<L, Option<L>>, seed: L, visible: set<L>, y: L) {
    && Below(parentOf, seed, y)
    && forall z :: Below(parentOf, seed, z) && Below(parentOf, z, y) ==> z !in visible
  }

  /** What one seed brings in beside what is visible already. */
  ghost predicate Brings<L(!new)>(parentOf: map<L, Option<L>>, seed: L, visible: set<L>, y: L) {
    InLineage(parentOf, seed, y) || Sibling(parentOf, seed, y) || OpenBelow(parentOf, seed, visible, y)
  }

  lemma FreshIsOpen<L(!new)>(
    parentOf: map<L, Option<L>>, childrenOf: map<L, seq<L>>, seed: L, before: set<L>, y: L)
    requires Forest(parentOf, childrenOf) && Fresh(childrenOf, seed, before, y)
    ensures y !in before && OpenBelow(parentOf, seed, before, y)
  {
    var path: seq<L> :| FreshPath(childrenOf, seed, before, y, path);
    var n := |path| - 1;
    PathIsLineage(parentOf, childrenOf, path, n);
    forall z | Below(parentOf, seed, z) && Below(parentOf, z, y)
      ensures z !in before
    {
      var m: nat :| m > 0 && Up(parentOf, y, m) == Some(z);
      if m >= n {
        UpAdds(parentOf, y, n, m - n);
        NotBelowItself(parentOf, childrenOf, seed, z);
        assert false;
      }
      PathIsLineage(parentOf, childrenOf, path, m);
    }
  }

  lemma {:induction false} OpenIsFresh<L(!new)>(
    parentOf: map<L, Option<L>>, childrenOf: map<L, seq<L>>, seed: L, before: set<L>, y: L, n: nat)
    requires Forest(parentOf, childrenOf) && y !in before && n > 0 && Up(parentOf, y, n) == Some(seed)
    requires forall z :: Below(parentOf, seed, z) && Below(parentOf, z, y) ==> z !in before
    ensures Fresh(childrenOf, seed, before, y)
    decreases n
  {
    assert Up(parentOf, y, 0) == Some(y);
    if Up(parentOf, y, 1).None? {
      EndsAt(parentOf, y, 1, n);
    }
    var p := Up(parentOf, y, 1).value;
    UpAdds(parentOf, y, 1, n - 1);
    assert y in Kids(childrenOf, p);
    ChildIsBelow(parentOf, p, y);
    if n > 1 {
      assert Below(parentOf, seed, p);
      forall z | Below(parentOf, seed, z) && Below(parentOf, z, p)
        ensures z !in before
      {
        LineageIsBelowOrSame(parentOf, p, y);
        BelowFurther(parentOf, z, p, y);
      }
      OpenIsFresh(parentOf, childrenOf, seed, before, p, n - 1);
    }
    FreshFurther(childrenOf, seed, before, p, y);
  }

  /** The seed's own lineage never stands in the way. */
  lemma LineageDoesNotScreen<L(!new)>(
    parentOf: map<L, Option<L>>, childrenOf: map<L, seq<L>>, seed: L, visible: set<L>, before: set<L>, y: L)
    requires Forest(parentOf, childrenOf)
    requires forall z :: z in before <==> z in visible || InLineage(parentOf, seed, z)
    ensures OpenBelow(parentOf, seed, before, y) <==> OpenBelow(parentOf, seed, visible, y)
  {
    forall z | Below(parentOf, seed, z)
      ensures z in before <==> z in visible
    {
      NotBelowItself(parentOf, childrenOf, seed, z);
    }
    hide InLineage, Forest;
  }

  /** What one seed brings in, exactly; from nothing it is the seed's lineage, descendants and siblings. */
  method VisitSeed<L(==, !new)>(parentOf: map<L, Option<L>>, childrenOf: map<L, seq<L>>, seed: L, visible: set<L>)
    returns (v: set<L>)
    requires seed in parentOf
    ensures visible <= v && forall y :: InLineage(parentOf, seed, y) ==> y in v
    ensures Forest(parentOf, childrenOf) ==> forall y :: y in v <==> y in visible || Brings(parentOf, seed, visible, y)
  {
    hide Up, InLineage, Forest, Fresh, AllKids, Above, Brings;
    var before, _ := WalkAncestors(parentOf, seed, visible);
    v := AddDescendants(childrenOf, seed, before);
    ghost var line := v;
    if parentOf[seed].Some? {
      var siblings := Kids(childrenOf, parentOf[seed].value);
      var added;
      v, added := InsertChildren(siblings, v);
    }
    if Forest(parentOf, childrenOf) {
      forall y
        ensures y in v <==> y in visible || Brings(parentOf, seed, visible, y)
      {
        SeedVisited(parentOf, childrenOf, seed, visible, before, line, y);
      }
    }
  }

  lemma SeedVisited<L(!new)>(
    parentOf: map<L, Option<L>>, childrenOf: map<L, seq<L>>, seed: L, visible: set<L>, before: set<L>, line: set<L>, y: L)
    requires seed in parentOf && Forest(parentOf, childrenOf)
    requires forall z :: z in before <==> z in visible || InLineage(parentOf, seed, z)
    requires forall z :: z in line <==> z in before || Fresh(childrenOf, seed, before, z)
    ensures y in line || (parentOf[seed].Some? && y in Kids(childrenOf, parentOf[seed].value)) <==>
      y in visible || Brings(parentOf, seed, visible, y)
  {
    LineageDoesNotScreen(parentOf, childrenOf, seed, visible, before, y);
    if Fresh(childrenOf, seed, before, y) {
      FreshIsOpen(parentOf, childrenOf, seed, before, y);
    }
    if OpenBelow(parentOf, seed, before, y) && y !in before {
      var n: nat :| n > 0 && Up(parentOf, y, n) == Some(seed);
      OpenIsFresh(parentOf, childrenOf, seed, before, y, n);
    }
    hide InLineage, Fresh, OpenBelow;
  }

  // ---- one seed after another --------------------------------------------------------------------

  /** A label that was explored and not only touched has all its children visible. */
  ghost predicate KidsFollow<L(!new)>(parentOf: map<L, Option<L>>, seeds: seq<L>, n: nat, v: set<L>)
    requires n <= |seeds|
  {
    forall z, c :: z in v && c in parentOf && parentOf[c] == Some(z) && !Touched(parentOf, seeds, n, z) ==> c in v
  }

  /** Exactly what the first `n` seeds bring in. */
  ghost predicate SeenSoFar<L(!new)>(parentOf: map<L, Option<L>>, seeds: seq<L>, n: nat, v: set<L>)
    requires n <= |seeds|
  {
    (forall y :: y in v <==> Seen(parentOf, seeds, n, y)) && KidsFollow(parentOf, seeds, n, v)
  }

  lemma TouchedNext<L(!new)>(parentOf: map<L, Option<L>>, seeds: seq<L>, i: nat, z: L)
    requires i < |seeds|
    ensures Touched(parentOf, seeds, i + 1, z) <==>
      || Touched(parentOf, seeds, i, z)
      || (seeds[i] in parentOf && (InLineage(parentOf, seeds[i], z) || Sibling(parentOf, seeds[i], z)))
  {
    hide InLineage, Sibling;
    if Touched(parentOf, seeds, i, z) {
      var k :| 0 <= k < i && seeds[k] in parentOf && (InLineage(parentOf, seeds[k], z) || Sibling(parentOf, seeds[k], z));
      assert 0 <= k < i + 1;
    }
  }

  lemma SeenNext<L(!new)>(parentOf: map<L, Option<L>>, seeds: seq<L>, i: nat, y: L)
    requires i < |seeds|
    ensures Seen(parentOf, seeds, i + 1, y) <==>
      || Seen(parentOf, seeds, i, y) || Exposed(parentOf, seeds, i, y)
      || (seeds[i] in parentOf && (InLineage(parentOf, seeds[i], y) || Sibling(parentOf, seeds[i], y)))
  {
    TouchedNext(parentOf, seeds, i, y);
    hide InLineage, Sibling, Touched, Exposed;
  }

  /** From an explored label on, everything is visible down to the next touched one. */
  lemma {:induction false} DownFrom<L(!new)>(parentOf: map<L, Option<L>>, seeds: seq<L>, n: nat, v: set<L>, z: L, y: L, m: nat)
    requires n <= |seeds| && KidsFollow(parentOf, seeds, n, v) && z in v && m > 0 && Up(parentOf, y, m) == Some(z)
    requires !Touched(parentOf, seeds, n, z)
    requires forall x :: Below(parentOf, z, x) && Below(parentOf, x, y) ==> !Touched(parentOf, seeds, n, x)
    ensures y in v
    decreases m
  {
    assert Below(parentOf, z, y);
    assert Up(parentOf, y, 0) == Some(y);
    if Up(parentOf, y, 1).None? {
      EndsAt(parentOf, y, 1, m);
    }
    var p := Up(parentOf, y, 1).value;
    UpAdds(parentOf, y, 1, m - 1);
    ChildIsBelow(parentOf, p, y);
    if m > 1 {
      assert Below(parentOf, z, p);
      forall x | Below(parentOf, z, x) && Below(parentOf, x, p)
        ensures !Touched(parentOf, seeds, n, x)
      {
        LineageIsBelowOrSame(parentOf, p, y);
        BelowFurther(parentOf, x, p, y);
      }
      DownFrom(parentOf, seeds, n, v, z, p, m - 1);
    }
  }

  lemma ExploredReaches<L(!new)>(parentOf: map<L, Option<L>>, seeds: seq<L>, i: nat, v: set<L>, z: L, y: L)
    requires i < |seeds| && SeenSoFar(parentOf, seeds, i, v) && Exposed(parentOf, seeds, i, y)
    requires Below(parentOf, seeds[i], z) && Below(parentOf, z, y) && z in v
    ensures y in v
  {
    forall x | Below(parentOf, z, x) && Below(parentOf, x, y)
      ensures !Touched(parentOf, seeds, i, x)
    {
      LineageIsBelowOrSame(parentOf, z, x);
      BelowFurther(parentOf, seeds[i], z, x);
    }
    var m: nat :| m > 0 && Up(parentOf, y, m) == Some(z);
    DownFrom(parentOf, seeds, i, v, z, y, m);
  }

  /** Whether an earlier seed touched it or explored it: what is exposed below the next seed is found. */
  lemma ExposedIsBrought<L(!new)>(parentOf: map<L, Option<L>>, seeds: seq<L>, i: nat, v: set<L>, y: L)
    requires i < |seeds| && SeenSoFar(parentOf, seeds, i, v) && seeds[i] in parentOf
    ensures y in v || OpenBelow(parentOf, seeds[i], v, y) <==> y in v || Exposed(parentOf, seeds, i, y)
  {
    var seed := seeds[i];
    if OpenBelow(parentOf, seed, v, y) {
      forall z | Below(parentOf, seed, z) && Below(parentOf, z, y)
        ensures !Touched(parentOf, seeds, i, z)
      {
        assert z !in v && !Seen(parentOf, seeds, i, z);
      }
    }
    if Exposed(parentOf, seeds, i, y) && y !in v {
      forall z | Below(parentOf, seed, z) && Below(parentOf, z, y)
        ensures z !in v
      {
        if z in v {
          ExploredReaches(parentOf, seeds, i, v, z, y);
        }
      }
    }
    hide InLineage, Touched, Below, KidsFollow;
  }

  /** A child of a label that is open below the seed is open below the seed, or was visible. */
  lemma OpenChild<L(!new)>(
    parentOf: map<L, Option<L>>, childrenOf: map<L, seq<L>>, seed: L, visible: set<L>, z: L, c: L)
    requires Forest(parentOf, childrenOf) && c in parentOf && parentOf[c] == Some(z)
    requires OpenBelow(parentOf, seed, visible, z) && z !in visible
    ensures OpenBelow(parentOf, seed, visible, c)
  {
    ChildIsBelow(parentOf, z, c);
    LineageIsBelowOrSame(parentOf, z, c);
    BelowFurther(parentOf, seed, z, c);
    forall x | Below(parentOf, seed, x) && Below(parentOf, x, c)
      ensures x !in visible
    {
      var p := ParentOfBelow(parentOf, x, c);
    }
  }

  lemma KidsStillFollow<L(!new)>(
    parentOf: map<L, Option<L>>, childrenOf: map<L, seq<L>>, seeds: seq<L>, i: nat, was: set<L>, v: set<L>)
    requires Forest(parentOf, childrenOf) && i < |seeds| && KidsFollow(parentOf, seeds, i, was)
    requires seeds[i] in parentOf
    requires forall y :: y in v <==> y in was || Brings(parentOf, seeds[i], was, y)
    ensures KidsFollow(parentOf, seeds, i + 1, v)
  {
    forall z, c | z in v && c in parentOf && parentOf[c] == Some(z) && !Touched(parentOf, seeds, i + 1, z)
      ensures c in v
    {
      TouchedNext(parentOf, seeds, i, z);
      if z !in was {
        OpenChild(parentOf, childrenOf, seeds[i], was, z, c);
      }
    }
  }

  lemma SeedSeen<L(!new)>(
    parentOf: map<L, Option<L>>, childrenOf: map<L, seq<L>>, seeds: seq<L>, i: nat, was: set<L>, v: set<L>)
    requires Forest(parentOf, childrenOf) && i < |seeds| && SeenSoFar(parentOf, seeds, i, was)
    requires if seeds[i] in parentOf then forall y :: y in v <==> y in was || Brings(parentOf, seeds[i], was, y) else v == was
    ensures SeenSoFar(parentOf, seeds, i + 1, v)
  {
    forall y
      ensures y in v <==> Seen(parentOf, seeds, i + 1, y)
    {
      SeenNext(parentOf, seeds, i, y);
      if seeds[i] in parentOf {
        ExposedIsBrought(parentOf, seeds, i, was, y);
      }
    }
    if seeds[i] in parentOf {
      KidsStillFollow(parentOf, childrenOf, seeds, i, was, v);
    } else {
      forall z ensures Touched(parentOf, seeds, i + 1, z) <==> Touched(parentOf, seeds, i, z) {
        TouchedNext(parentOf, seeds, i, z);
      }
    }
  }

  /** A label comes with its parent. */
  lemma SeenParent<L(!new)>(parentOf: map<L, Option<L>>, seeds: seq<L>, n: nat, y: L)
    requires n <= |seeds| && Seen(parentOf, seeds, n, y) && y in parentOf && parentOf[y].Some?
    ensures Seen(parentOf, seeds, n, parentOf[y].value)
  {
    var p := parentOf[y].value;
    if Touched(parentOf, seeds, n, y) {
      var k :| 0 <= k < n && seeds[k] in parentOf && (InLineage(parentOf, seeds[k], y) || Sibling(parentOf, seeds[k], y));
      TouchedParent(parentOf, seeds[k], y);
      assert Touched(parentOf, seeds, n, p);
    } else {
      var i :| 0 <= i < n && Exposed(parentOf, seeds, i, y);
      var q := ParentOfBelow(parentOf, seeds[i], y);
      LineageIsBelowOrSame(parentOf, seeds[i], seeds[i]);
      if p == seeds[i] {
        assert Touched(parentOf, seeds, n, p);
      } else {
        forall z | Below(parentOf, seeds[i], z) && Below(parentOf, z, p)
          ensures !Touched(parentOf, seeds, i, z)
        {
          LineageIsBelowOrSame(parentOf, p, y);
          BelowFurther(parentOf, z, p, y);
        }
        assert Exposed(parentOf, seeds, i, p);
      }
    }
  }

  lemma TouchedParent<L(!new)>(parentOf: map<L, Option<L>>, seed: L, y: L)
    requires seed in parentOf && (InLineage(parentOf, seed, y) || Sibling(parentOf, seed, y))
    requires y in parentOf && parentOf[y].Some?
    ensures InLineage(parentOf, seed, parentOf[y].value)
  {
    assert Up(parentOf, seed, 0) == Some(seed);
    if InLineage(parentOf, seed, y) {
      var n: nat :| Up(parentOf, seed, n) == Some(y);
      assert Up(parentOf, seed, n + 1) == parentOf[y];
    } else {
      assert Up(parentOf, seed, 1) == parentOf[y];
    }
  }

  // ---- when nothing is hidden -------------------------------------------------------------------

  /** No seed lies below a later one. */
  ghost predicate UpperFirst<L(!new)>(parentOf: map<L, Option<L>>, seeds: seq<L>) {
    forall k, i :: 0 <= k < i < |seeds| ==> !Below(parentOf, seeds[i], seeds[k])
  }

  /** What an earlier seed touches below a later one means that it lies there itself. */
  lemma TouchedBelow<L(!new)>(parentOf: map<L, Option<L>>, seed: L, x: L, z: L)
    requires x in parentOf && Below(parentOf, seed, z) && (InLineage(parentOf, x, z) || Sibling(parentOf, x, z))
    ensures Below(parentOf, seed, x)
  {
    if InLineage(parentOf, x, z) {
      BelowFurther(parentOf, seed, z, x);
    } else {
      var p := ParentOfBelow(parentOf, seed, z);
      ChildIsBelow(parentOf, p, x);
      if p != seed {
        LineageIsBelowOrSame(parentOf, p, x);
        BelowFurther(parentOf, seed, p, x);
      }
    }
  }

  /** One seed, seeds without children and seeds in any order from the top down see all they should. */
  lemma UpperFirstHidesNothing<L(!new)>(parentOf: map<L, Option<L>>, seeds: seq<L>)
    requires UpperFirst(parentOf, seeds)
    ensures NothingHidden(parentOf, seeds)
  {
    forall i, y | 0 <= i < |seeds| && seeds[i] in parentOf && Below(parentOf, seeds[i], y)
      ensures Seen(parentOf, seeds, |seeds|, y)
    {
      forall z | Below(parentOf, seeds[i], z)
        ensures !Touched(parentOf, seeds, i, z)
      {
        forall k | 0 <= k < i && seeds[k] in parentOf && (InLineage(parentOf, seeds[k], z) || Sibling(parentOf, seeds[k], z))
          ensures false
        {
          TouchedBelow(parentOf, seeds[i], seeds[k], z);
        }
      }
      assert Exposed(parentOf, seeds, i, y);
    }
  }

  /** In that case, and only then, the seeds bring in the whole of their bases. */
  lemma SeenIsBase<L(!new)>(parentOf: map<L, Option<L>>, seeds: seq<L>)
    ensures NothingHidden(parentOf, seeds) <==>
      forall i, y :: 0 <= i < |seeds| && seeds[i] in parentOf && InBase(parentOf, seeds[i], y) ==> Seen(parentOf, seeds, |seeds|, y)
  {
    forall i, y | 0 <= i < |seeds| && seeds[i] in parentOf
      ensures InBase(parentOf, seeds[i], y) <==>
        InLineage(parentOf, seeds[i], y) || Sibling(parentOf, seeds[i], y) || Below(parentOf, seeds[i], y)
      ensures InLineage(parentOf, seeds[i], y) || Sibling(parentOf, seeds[i], y) ==> Touched(parentOf, seeds, |seeds|, y)
    {
      LineageIsBelowOrSame(parentOf, seeds[i], y);
      LineageIsBelowOrSame(parentOf, y, seeds[i]);
    }
    hide InLineage, Sibling, InBase, Below, Touched, Exposed;
  }

  // ---- links ---------------------------------------------------------------------------------

  /** `v` adds to `visible` nothing that a link-closed set around `visible` could do without. */
  ghost predicate Forced<L(!new)>(parentOf: map<L, Option<L>>, links: seq<(L, L)>, visible: set<L>, v: set<L>) {
    forall w: set<L> :: visible <= w && LinkClosed(parentOf, links, w) ==> v <= w
  }

  lemma ForcedByLink<L(!new)>(
    parentOf: map<L, Option<L>>, links: seq<(L, L)>, visible: set<L>, v: set<L>, i: nat, x: L, v': set<L>)
    requires i < |links| && Forced(parentOf, links, visible, v)
    requires (links[i].0 in v && x == links[i].1) || (links[i].1 in v && x == links[i].0)
    requires forall y :: y in v' <==> y in v || InLineage(parentOf, x, y)
    ensures Forced(parentOf, links, visible, v')
  {
    hide InLineage;
  }

  /** Everything the links can bring in. */
  ghost function Universe<L>(parentOf: map<L, Option<L>>, links: seq<(L, L)>, visible: set<L>): set<L> {
    visible
    + (set k | k in parentOf && parentOf[k].Some? :: parentOf[k].value)
    + (set i | 0 <= i < |links| :: links[i].0) + (set i | 0 <= i < |links| :: links[i].1)
  }

  lemma AboveInUniverse<L>(parentOf: map<L, Option<L>>, links: seq<(L, L)>, visible: set<L>, i: nat, x: L)
    requires i < |links| && (x == links[i].0 || x == links[i].1)
    ensures Above(parentOf, x) <= Universe(parentOf, links, visible)
  {
  }

  /** Both ends of every link are visible, or neither is. */
  ghost predicate Even<L>(links: seq<(L, L)>, v: set<L>) {
    forall i :: 0 <= i < |links| ==> (links[i].0 in v <==> links[i].1 in v)
  }

  /** One pass over the links. */
  method LinkPass<L(==, !new)>(parentOf: map<L, Option<L>>, links: seq<(L, L)>, ghost start: set<L>, visible: set<L>)
    returns (v: set<L>, grew: bool)
    requires Forced(parentOf, links, start, visible) && visible <= Universe(parentOf, links, start)
    ensures visible <= v <= Universe(parentOf, links, start)
    ensures Forced(parentOf, links, start, v)
    ensures AncestorClosed(parentOf, visible) ==> AncestorClosed(parentOf, v)
    ensures grew <==> v != visible
    ensures !grew ==> Even(links, v)
  {
    hide Forced, AncestorClosed, Universe, Above, InLineage;
    v, grew := visible, false;
    for i := 0 to |links|
      invariant visible <= v <= Universe(parentOf, links, start)
      invariant Forced(parentOf, links, start, v)
      invariant AncestorClosed(parentOf, visible) ==> AncestorClosed(parentOf, v)
      invariant grew <==> v != visible
      invariant !grew ==> Even(links[..i], v)
    {
      var (a, b) := links[i];
      if (a in v) != (b in v) {
        var incoming := if a in v then b else a;
        var was := v;
        var more;
        v, more := WalkAncestors(parentOf, incoming, v);
        Incoming(parentOf, links, start, was, i, incoming, v);
        grew := grew || more;
        assert incoming in v;
      }
    }
    assert links[..|links|] == links;
  }

  lemma Incoming<L(!new)>(
    parentOf: map<L, Option<L>>, links: seq<(L, L)>, start: set<L>, was: set<L>, i: nat, x: L, v: set<L>)
    requires i < |links| && Forced(parentOf, links, start, was) && was <= Universe(parentOf, links, start)
    requires (links[i].0 in was && x == links[i].1) || (links[i].1 in was && x == links[i].0)
    requires forall y :: y in v <==> y in was || InLineage(parentOf, x, y)
    requires v <= was + Above(parentOf, x)
    ensures Forced(parentOf, links, start, v) && v <= Universe(parentOf, links, start) && x in v
    ensures AncestorClosed(parentOf, was) ==> AncestorClosed(parentOf, v)
  {
    ForcedByLink(parentOf, links, start, was, i, x, v);
    AboveInUniverse(parentOf, links, start, i, x);
    assert Up(parentOf, x, 0) == Some(x);
    if AncestorClosed(parentOf, was) {
      UnionClosed(parentOf, was, x, v);
    }
  }

  lemma EvenIsClosed<L(!new)>(parentOf: map<L, Option<L>>, links: seq<(L, L)>, v: set<L>)
    requires Even(links, v) && AncestorClosed(parentOf, v)
    ensures LinkClosed(parentOf, links, v)
  {
    forall i, y | 0 <= i < |links| && links[i].0 in v && InLineage(parentOf, links[i].1, y)
      ensures y in v
    {
      LineageInside(parentOf, v, links[i].1, y);
    }
    forall i, y | 0 <= i < |links| && links[i].1 in v && InLineage(parentOf, links[i].0, y)
      ensures y in v
    {
      LineageInside(parentOf, v, links[i].0, y);
    }
  }

  /** Repeat the passes until one brings nothing in. */
  method FollowLinks<L(==, !new)>(parentOf: map<L, Option<L>>, links: seq<(L, L)>, visible: set<L>) returns (v: set<L>)
    ensures visible <= v && Even(links, v) && Forced(parentOf, links, visible, v)
    ensures AncestorClosed(parentOf, visible) ==> AncestorClosed(parentOf, v)
  {
    assert Forced(parentOf, links, visible, visible);
    ghost var all := Universe(parentOf, links, visible);
    hide Forced, AncestorClosed, Universe, Even;
    v := visible;
    var grew := true;
    while grew
      invariant visible <= v <= all && Forced(parentOf, links, visible, v)
      invariant AncestorClosed(parentOf, visible) ==> AncestorClosed(parentOf, v)
      invariant !grew ==> Even(links, v)
      decreases all - v, grew
    {
      v, grew := LinkPass(parentOf, links, visible, v);
    }
  }

  /** No label that some seed or link does not call for: every link-closed set with the seeds' bases holds `v`. */
  ghost predicate NothingExtra<L(!new)>(parentOf: map<L, Option<L>>, links: seq<(L, L)>, seeds: seq<L>, v: set<L>) {
    forall w: set<L> :: Contains(parentOf, seeds, w) && LinkClosed(parentOf, links, w) ==> v <= w
  }

  /** Visit the seeds one after another. */
  method VisitSeeds<L(==, !new)>(parentOf: map<L, Option<L>>, childrenOf: map<L, seq<L>>, seeds: seq<L>) returns (v: set<L>)
    ensures (forall i :: 0 <= i < |seeds| ==> seeds[i] !in parentOf) ==> v == {}
    ensures forall i, y :: 0 <= i < |seeds| && seeds[i] in parentOf && InLineage(parentOf, seeds[i], y) ==> y in v
    ensures Forest(parentOf, childrenOf) ==> SeenSoFar(parentOf, seeds, |seeds|, v)
  {
    v := {};
    assert SeenSoFar(parentOf, seeds, 0, v);
    hide Forest, InLineage, SeenSoFar, Brings;
    for i := 0 to |seeds|
      invariant (forall k :: 0 <= k < i ==> seeds[k] !in parentOf) ==> v == {}
      invariant forall k, y :: 0 <= k < i && seeds[k] in parentOf && InLineage(parentOf, seeds[k], y) ==> y in v
      invariant Forest(parentOf, childrenOf) ==> SeenSoFar(parentOf, seeds, i, v)
    {
      ghost var was := v;
      if seeds[i] in parentOf {
        v := VisitSeed(parentOf, childrenOf, seeds[i], v);
      }
      if Forest(parentOf, childrenOf) {
        SeedSeen(parentOf, childrenOf, seeds, i, was, v);
      }
    }
  }

  lemma SeenIsClosed<L(!new)>(parentOf: map<L, Option<L>>, seeds: seq<L>, v: set<L>)
    requires SeenSoFar(parentOf, seeds, |seeds|, v)
    ensures AncestorClosed(parentOf, v)
  {
    hide Seen;
    forall y | y in v && y in parentOf && parentOf[y].Some?
      ensures parentOf[y].value in v
    {
      SeenParent(parentOf, seeds, |seeds|, y);
    }
  }

  lemma FollowedIsSeenSet<L(!new)>(parentOf: map<L, Option<L>>, links: seq<(L, L)>, seeds: seq<L>, base: set<L>, v: set<L>)
    requires SeenSoFar(parentOf, seeds, |seeds|, base) && base <= v && Forced(parentOf, links, base, v)
    requires AncestorClosed(parentOf, v) && Even(links, v)
    ensures IsSeenSet(parentOf, links, seeds, v)
  {
    EvenIsClosed(parentOf, links, v);
    hide Seen, LinkClosed, AncestorClosed, KidsFollow;
  }

  /** Seen is at most the base, whatever the seeds. */
  lemma SeenIsInBase<L(!new)>(parentOf: map<L, Option<L>>, seeds: seq<L>, w: set<L>, y: L)
    requires Contains(parentOf, seeds, w) && Seen(parentOf, seeds, |seeds|, y)
    ensures y in w
  {
    if Touched(parentOf, seeds, |seeds|, y) {
      var k :| 0 <= k < |seeds| && seeds[k] in parentOf && (InLineage(parentOf, seeds[k], y) || Sibling(parentOf, seeds[k], y));
      assert InBase(parentOf, seeds[k], y);
    } else {
      var i :| 0 <= i < |seeds| && Exposed(parentOf, seeds, i, y);
      LineageIsBelowOrSame(parentOf, seeds[i], y);
      assert InBase(parentOf, seeds[i], y);
    }
  }

  lemma SeenSetHasNothingExtra<L(!new)>(parentOf: map<L, Option<L>>, links: seq<(L, L)>, seeds: seq<L>, v: set<L>)
    requires IsSeenSet(parentOf, links, seeds, v)
    ensures NothingExtra(parentOf, links, seeds, v)
  {
    hide Seen, LinkClosed, AncestorClosed;
    forall w: set<L> | Contains(parentOf, seeds, w) && LinkClosed(parentOf, links, w)
      ensures v <= w
    {
      forall y | Seen(parentOf, seeds, |seeds|, y)
        ensures y in w
      {
        SeenIsInBase(parentOf, seeds, w, y);
      }
    }
  }

  lemma SeenSetIsVisibleSet<L(!new)>(parentOf: map<L, Option<L>>, links: seq<(L, L)>, seeds: seq<L>, v: set<L>)
    requires IsSeenSet(parentOf, links, seeds, v) && NothingHidden(parentOf, seeds)
    ensures IsVisibleSet(parentOf, links, seeds, v)
  {
    SeenIsBase(parentOf, seeds);
    SeenSetHasNothingExtra(parentOf, links, seeds, v);
    hide Seen, LinkClosed, AncestorClosed, InBase, NothingHidden;
  }

  /** Without links what is visible is exactly what is seen, so a hidden label is missing. */
  lemma WithoutLinks<L(!new)>(parentOf: map<L, Option<L>>, seeds: seq<L>, v: set<L>)
    requires IsSeenSet(parentOf, [], seeds, v)
    ensures forall y :: y in v <==> Seen(parentOf, seeds, |seeds|, y)
    ensures IsVisibleSet(parentOf, [], seeds, v) <==> NothingHidden(parentOf, seeds)
  {
    var seen := set y | y in v && Seen(parentOf, seeds, |seeds|, y);
    assert LinkClosed(parentOf, [], seen);
    assert v <= seen;
    SeenIsBase(parentOf, seeds);
    if NothingHidden(parentOf, seeds) {
      SeenSetIsVisibleSet(parentOf, [], seeds, v);
    }
    hide Seen, InBase, NothingHidden, LinkClosed, AncestorClosed;
  }

  /**
   What the seeds see. It ends for all maps. In a forest the result is the least
   link-closed set with everything that is touched by a seed or exposed below
   one; that is all of the seeds' lineages, descendants and siblings exactly
   when nothing below a seed is hidden by an earlier one.
   */
  method VisibleFromMaps<L(==, !new)>(
    parentOf: map<L, Option<L>>, childrenOf: map<L, seq<L>>, links: seq<(L, L)>, seeds: seq<L>) returns (v: set<L>)
    ensures (forall i :: 0 <= i < |seeds| ==> seeds[i] !in parentOf) ==> v == {}
    ensures forall i, y :: 0 <= i < |seeds| && seeds[i] in parentOf && InLineage(parentOf, seeds[i], y) ==> y in v
    ensures Forest(parentOf, childrenOf) ==> IsSeenSet(parentOf, links, seeds, v) && NothingExtra(parentOf, links, seeds, v)
    ensures Forest(parentOf, childrenOf) && NothingHidden(parentOf, seeds) ==> IsVisibleSet(parentOf, links, seeds, v)
    ensures Forest(parentOf, childrenOf) && links == [] ==>
      (IsVisibleSet(parentOf, links, seeds, v) <==> NothingHidden(parentOf, seeds))
  {
    hide Forest, AncestorClosed, InLineage, Forced, Even, LinkClosed, SeenSoFar, IsSeenSet, IsVisibleSet, NothingHidden, NothingExtra;
    var base := VisitSeeds(parentOf, childrenOf, seeds);
    v := FollowLinks(parentOf, links, base);
    if forall i :: 0 <= i < |seeds| ==> seeds[i] !in parentOf {
      NothingFromNothing(parentOf, links, v);
    }
    if Forest(parentOf, childrenOf) {
      SeenIsClosed(parentOf, seeds, base);
      FollowedIsSeenSet(parentOf, links, seeds, base, v);
      SeenSetHasNothingExtra(parentOf, links, seeds, v);
      if NothingHidden(parentOf, seeds) {
        SeenSetIsVisibleSet(parentOf, links, seeds, v);
      }
      if links == [] {
        WithoutLinks(parentOf, seeds, v);
      }
    }
  }

  // ---- where a label is hidden ---------------------------------------------------------------------

  /** A root, one below it, two siblings below that, and one below the second sibling. */
  function FiveLabels(): map<int, Option<int>> {
    map[0 := None, 1 := Some(0), 2 := Some(1), 3 := Some(1), 4 := Some(3)]
  }

  function FiveLabelsDown(): map<int, seq<int>> {
    map[0 := [1], 1 := [2, 3], 3 := [4]]
  }

  lemma {:induction false} UpIsSmaller(x: int, n: nat)
    ensures n > 0 && Up(FiveLabels(), x, n).Some? ==> Up(FiveLabels(), x, n).value < x
    ensures Up(FiveLabels(), x, n).Some? ==> Up(FiveLabels(), x, n).value <= x
  {
    if n > 0 {
      UpIsSmaller(x, n - 1);
    }
  }

  lemma FiveLabelsForest()
    ensures Forest(FiveLabels(), FiveLabelsDown())
  {
    forall x, n: nat | n > 0
      ensures Up(FiveLabels(), x, n) != Some(x)
    {
      UpIsSmaller(x, n);
    }
  }

  /** The lower seed comes first: its sibling is touched and hides what lies below it from the upper seed. */
  lemma LowerFirstHides()
    ensures !Seen(FiveLabels(), [2, 1], 2, 4) && Below(FiveLabels(), 1, 4) && !NothingHidden(FiveLabels(), [2, 1])
  {
    var up, seeds := FiveLabels(), [2, 1];
    ChildIsBelow(up, 3, 4);
    ChildIsBelow(up, 1, 3);
    LineageIsBelowOrSame(up, 3, 4);
    BelowFurther(up, 1, 3, 4);
    forall k | 0 <= k < 2
      ensures !InLineage(up, seeds[k], 4) && !Sibling(up, seeds[k], 4)
    {
      forall n: nat ensures Up(up, seeds[k], n) != Some(4) { UpIsSmaller(seeds[k], n); }
    }
    assert Sibling(up, seeds[0], 3);
    assert Touched(up, seeds, 1, 3);
    assert Screened(up, seeds, 1, 4);
    assert !Below(up, 2, 4) by {
      assert Up(up, 4, 0) == Some(4) && Up(up, 4, 1) == Some(3);
      forall n: nat | n > 0 ensures Up(up, 4, n) != Some(2) {
        UpAdds(up, 4, 1, n - 1);
        NotUnderTwo(n - 1);
      }
    }
  }

  lemma {:induction false} NotUnderTwo(n: nat)
    ensures Up(FiveLabels(), 3, n) != Some(2)
  {
    assert Up(FiveLabels(), 3, 0) == Some(3) && Up(FiveLabels(), 3, 1) == Some(1);
    if n > 0 {
      UpAdds(FiveLabels(), 3, 1, n - 1);
      UpIsSmaller(1, n - 1);
    }
  }

  /** The same two seeds see the label from the top down, and miss it from below. */
  method OrderMatters() returns (down: set<int>, up: set<int>)
    ensures 4 in down && IsVisibleSet(FiveLabels(), [], [1, 2], down)
    ensures 4 !in up && InBase(FiveLabels(), 1, 4) && !IsVisibleSet(FiveLabels(), [], [2, 1], up)
  {
    FiveLabelsForest();
    LowerFirstHides();
    UpperFirstSees();
    LineageIsBelowOrSame(FiveLabels(), 1, 4);
    hide FiveLabels, FiveLabelsDown, Forest, Seen, IsVisibleSet, IsSeenSet, NothingHidden, NothingExtra, InLineage, Below;
    down := VisibleFromMaps(FiveLabels(), FiveLabelsDown(), [], [1, 2]);
    up := VisibleFromMaps(FiveLabels(), FiveLabelsDown(), [], [2, 1]);
    WithoutLinks(FiveLabels(), [1, 2], down);
    WithoutLinks(FiveLabels(), [2, 1], up);
  }

  lemma UpperFirstSees()
    ensures NothingHidden(FiveLabels(), [1, 2]) && Seen(FiveLabels(), [1, 2], 2, 4)
  {
    var up, seeds := FiveLabels(), [1, 2];
    assert !Below(up, 2, 1) by {
      forall n: nat | n > 0 ensures Up(up, 1, n) != Some(2) { UpIsSmaller(1, n); }
    }
    assert UpperFirst(up, seeds);
    UpperFirstHidesNothing(up, seeds);
    LowerFirstHides();
    assert seeds[0] == 1 && seeds[0] in up;
  }

  lemma NothingFromNothing<L(!new)>(parentOf: map<L, Option<L>>, links: seq<(L, L)>, v: set<L>)
    requires Forced(parentOf, links, {}, v)
    ensures v == {}
  {
    var none: set<L> := {};
    assert LinkClosed(parentOf, links, none);
  }

  // ---- one answer ------------------------------------------------------------------------------

  /** The order and repetition of links make no difference. */
  lemma LinkOrderIsIrrelevant<L(!new)>(
    parentOf: map<L, Option<L>>, links: seq<(L, L)>, links': seq<(L, L)>, seeds: seq<L>, v: set<L>, v': set<L>)
    requires forall e :: e in links <==> e in links'
    requires IsVisibleSet(parentOf, links, seeds, v) && IsVisibleSet(parentOf, links', seeds, v')
    ensures v == v'
  {
    SameLinksClosed(parentOf, links, links', v);
    SameLinksClosed(parentOf, links', links, v');
  }

  lemma SameLinksClosed<L(!new)>(parentOf: map<L, Option<L>>, links: seq<(L, L)>, links': seq<(L, L)>, v: set<L>)
    requires forall e :: e in links' ==> e in links
    requires LinkClosed(parentOf, links, v)
    ensures LinkClosed(parentOf, links', v)
  {
    hide InLineage;
    forall i | 0 <= i < |links'|
      ensures exists j :: 0 <= j < |links| && links[j] == links'[i]
    {
      assert links'[i] in links;
    }
  }

  // ---- the slice ---------------------------------------------------------------------------------

  function Restricted<L>(parentOf: map<L, Option<L>>, v: set<L>): map<L, Option<L>> {
    map k | k in parentOf && k in v :: parentOf[k]
  }

  lemma {:induction false} SameUp<L(!new)>(parentOf: map<L, Option<L>>, v: set<L>, x: L, n: nat)
    requires AncestorClosed(parentOf, v) && x in v
    ensures Up(Restricted(parentOf, v), x, n) == Up(parentOf, x, n)
  {
    if n > 0 {
      SameUp(parentOf, v, x, n - 1);
      if Up(parentOf, x, n - 1).Some? {
        ClosedUpwards(parentOf, v, x, n - 1);
      }
    }
  }

  lemma SameLineage<L(!new)>(parentOf: map<L, Option<L>>, v: set<L>, x: L, y: L)
    requires AncestorClosed(parentOf, v) && x in v
    ensures InLineage(Restricted(parentOf, v), x, y) <==> InLineage(parentOf, x, y)
  {
    if InLineage(Restricted(parentOf, v), x, y) {
      var n: nat :| Up(Restricted(parentOf, v), x, n) == Some(y);
      SameUp(parentOf, v, x, n);
    }
    if InLineage(parentOf, x, y) {
      var n: nat :| Up(parentOf, x, n) == Some(y);
      SameUp(parentOf, v, x, n);
    }
  }

  /** A label outside the slice has no lineage there but itself. */
  lemma OutsideIsAlone<L(!new)>(parentOf: map<L, Option<L>>, v: set<L>, x: L, y: L)
    requires x !in v && InLineage(Restricted(parentOf, v), x, y)
    ensures x == y
  {
    var r := Restricted(parentOf, v);
    var n: nat :| Up(r, x, n) == Some(y);
    if n > 0 {
      assert Up(r, x, 0) == Some(x) && Up(r, x, 1).None?;
      EndsAt(r, x, 1, n);
    }
  }

  lemma SameBase<L(!new)>(parentOf: map<L, Option<L>>, v: set<L>, seed: L, y: L)
    requires AncestorClosed(parentOf, v) && seed in v && forall z :: InBase(parentOf, seed, z) ==> z in v
    ensures InBase(Restricted(parentOf, v), seed, y) <==> InBase(parentOf, seed, y)
  {
    SameLineage(parentOf, v, seed, y);
    if y in v {
      SameLineage(parentOf, v, y, seed);
    } else if InLineage(Restricted(parentOf, v), y, seed) {
      OutsideIsAlone(parentOf, v, y, seed);
    }
  }

  /** The links with both ends visible, in any arrangement. */
  ghost predicate InnerLinks<L(!new)>(links: seq<(L, L)>, v: set<L>, inner: seq<(L, L)>) {
    forall e :: e in inner <==> e in links && e.0 in v && e.1 in v
  }

  lemma InnerClosed<L(!new)>(parentOf: map<L, Option<L>>, links: seq<(L, L)>, v: set<L>, inner: seq<(L, L)>)
    requires AncestorClosed(parentOf, v) && InnerLinks(links, v, inner)
    ensures LinkClosed(Restricted(parentOf, v), inner, v)
  {
    forall i, y | 0 <= i < |inner|
      ensures InLineage(Restricted(parentOf, v), inner[i].1, y) ==> y in v
      ensures InLineage(Restricted(parentOf, v), inner[i].0, y) ==> y in v
    {
      assert inner[i] in inner;
      InsideTheSlice(parentOf, v, inner[i].0, y);
      InsideTheSlice(parentOf, v, inner[i].1, y);
    }
  }

  lemma InsideTheSlice<L(!new)>(parentOf: map<L, Option<L>>, v: set<L>, x: L, y: L)
    requires AncestorClosed(parentOf, v) && x in v
    ensures InLineage(Restricted(parentOf, v), x, y) ==> y in v
  {
    SameLineage(parentOf, v, x, y);
    if InLineage(parentOf, x, y) {
      LineageInside(parentOf, v, x, y);
    }
  }

  /** A set closed within the slice is closed in the whole tree once cut to the slice. */
  lemma CutIsClosed<L(!new)>(parentOf: map<L, Option<L>>, links: seq<(L, L)>, v: set<L>, inner: seq<(L, L)>, w: set<L>)
    requires AncestorClosed(parentOf, v) && LinkClosed(parentOf, links, v) && InnerLinks(links, v, inner)
    requires LinkClosed(Restricted(parentOf, v), inner, w)
    ensures LinkClosed(parentOf, links, w * v)
  {
    forall i, y | 0 <= i < |links|
      ensures links[i].0 in w * v && InLineage(parentOf, links[i].1, y) ==> y in w * v
      ensures links[i].1 in w * v && InLineage(parentOf, links[i].0, y) ==> y in w * v
    {
      var e := links[i];
      assert e in links;
      assert Up(parentOf, e.0, 0) == Some(e.0) && Up(parentOf, e.1, 0) == Some(e.1);
      assert InLineage(parentOf, e.0, e.0) && InLineage(parentOf, e.1, e.1);
      if e.0 in v || e.1 in v {
        assert e in inner;
        var j :| 0 <= j < |inner| && inner[j] == e;
        SameLineage(parentOf, v, e.0, y);
        SameLineage(parentOf, v, e.1, y);
      }
    }
  }

  /** Every seed of the tree is visible. */
  lemma SeedsVisible<L(!new)>(parentOf: map<L, Option<L>>, seeds: seq<L>, v: set<L>)
    requires Contains(parentOf, seeds, v)
    ensures forall i :: 0 <= i < |seeds| && seeds[i] in parentOf ==> seeds[i] in v
  {
    forall i | 0 <= i < |seeds| && seeds[i] in parentOf
      ensures seeds[i] in v
    {
      assert Up(parentOf, seeds[i], 0) == Some(seeds[i]);
      assert InLineage(parentOf, seeds[i], seeds[i]);
      assert InBase(parentOf, seeds[i], seeds[i]);
    }
  }

  lemma BaseOfSlice<L(!new)>(parentOf: map<L, Option<L>>, v: set<L>, seeds: seq<L>, w: set<L>)
    requires AncestorClosed(parentOf, v) && Contains(parentOf, seeds, v)
    ensures Contains(Restricted(parentOf, v), seeds, w) ==> Contains(parentOf, seeds, w * v)
    ensures Contains(Restricted(parentOf, v), seeds, v)
  {
    SeedsVisible(parentOf, seeds, v);
    forall i, y | 0 <= i < |seeds| && seeds[i] in parentOf
      ensures InBase(Restricted(parentOf, v), seeds[i], y) <==> InBase(parentOf, seeds[i], y)
    {
      SameBase(parentOf, v, seeds[i], y);
    }
    hide InBase;
  }

  /** Recomputing what the seeds see on the slice gives the slice. */
  lemma SliceSeesItself<L(!new)>(parentOf: map<L, Option<L>>, links: seq<(L, L)>, seeds: seq<L>, v: set<L>, inner: seq<(L, L)>)
    requires IsVisibleSet(parentOf, links, seeds, v) && InnerLinks(links, v, inner)
    ensures IsVisibleSet(Restricted(parentOf, v), inner, seeds, v)
  {
    var r := Restricted(parentOf, v);
    BaseOfSlice(parentOf, v, seeds, v);
    InnerClosed(parentOf, links, v, inner);
    assert AncestorClosed(r, v);
    hide LinkClosed, AncestorClosed, Contains, Restricted, InnerLinks;
    forall w: set<L> | Contains(r, seeds, w) && LinkClosed(r, inner, w)
      ensures v <= w
    {
      BaseOfSlice(parentOf, v, seeds, w);
      CutIsClosed(parentOf, links, v, inner, w);
      assert v <= w * v;
    }
  }
}
