/**
 Merging a published tree, or a slice of one, into the stored rows: parents
 go in before their children, rows outside the snapshot are dropped, and a
 sealed share is kept unless its hardware key is replaced.
 */
module Merge {
  import opened FiniteSets
  import opened Results
  import opened Visibility
  import opened PublicTrees

  /** A stored node; `sealed` is the share wrapped to `key`. */
  datatype Row<L, S> = Row(parent: Option<L>, threshold: Option<nat>, key: Option<nat>, sealed: Option<S>, active: bool)

  /** The table's own check: a split node has neither key nor share, a leaf has a key. */
  predicate Fits<L, S>(row: Row<L, S>) {
    || (row.threshold.Some? && row.threshold.value > 0 && row.key.None? && row.sealed.None?)
    || (row.threshold.None? && row.key.Some?)
  }

  function Names<L(==)>(nodes: seq<PublicNode<L>>): set<L> {
    set i | 0 <= i < |nodes| :: nodes[i].name
  }

  function Parents<L, S>(rows: map<L, Row<L, S>>): map<L, Option<L>> {
    map k | k in rows :: rows[k].parent
  }

  // ---- one node -----------------------------------------------------------------------------

  /** The row a snapshot node becomes, given what is stored under its label. */
  function Placed<L(==), S>(rows: map<L, Row<L, S>>, node: PublicNode<L>): Row<L, S> {
    if node.name in rows then
      var row := rows[node.name];
      Row(node.parent, node.threshold,
          if row.sealed.Some? && node.key.None? then row.key else node.key,
          if node.key.Some? && node.key != row.key then None else row.sealed,
          node.active)
    else
      Row(node.parent, node.threshold, node.key, None, node.active)
  }

  predicate Storable<L(==), S>(rows: map<L, Row<L, S>>, node: PublicNode<L>) {
    (node.threshold.Some? || node.key.Some?) && Fits(Placed(rows, node))
  }

  /** Storable are a leaf with a key, and a split node without one over a label that has no share. */
  lemma StorableMeans<L, S>(rows: map<L, Row<L, S>>, node: PublicNode<L>)
    ensures Storable(rows, node) <==>
      if node.threshold.Some? then
        node.threshold.value > 0 && node.key.None? && (node.name in rows ==> rows[node.name].sealed.None?)
      else node.key.Some?
  {
  }

  method ApplyNode<L(==), S>(rows: map<L, Row<L, S>>, node: PublicNode<L>) returns (r: Result<map<L, Row<L, S>>>)
    ensures r.Ok? <==> (node.parent.Some? ==> node.parent.value in rows) && Storable(rows, node)
    ensures r.Ok? ==> r.value == rows[node.name := Placed(rows, node)]
    ensures r.Ok? ==>
      var row := r.value[node.name];
      row.parent == node.parent && row.threshold == node.threshold && row.active == node.active && row.key == node.key
  {
    if node.parent.Some? && node.parent.value !in rows {
      return Err(NodeNotFound);
    }
    if node.threshold.None? && node.key.None? {
      return Err(InvalidTreeSpec);
    }
    var row := Placed(rows, node);
    if !Fits(row) {
      return Err(ConstraintFailed);
    }
    r := Ok(rows[node.name := row]);
  }

  /** What the stored rows must offer one snapshot node. */
  predicate Accepts<L(==), S>(rows: map<L, Row<L, S>>, names: set<L>, node: PublicNode<L>) {
    && (node.parent.Some? ==> node.parent.value in names || node.parent.value in rows)
    && Storable(rows, node)
  }

  // ---- the loop -------------------------------------------------------------------------------

  ghost predicate NoCycleAt<L(!new)>(nodes: seq<PublicNode<L>>, x: L) {
    forall n: nat :: n > 0 ==> Up(ParentOf(nodes), x, n) != Some(x)
  }

  ghost predicate Acyclic<L(!new)>(nodes: seq<PublicNode<L>>) {
    forall x :: NoCycleAt(nodes, x)
  }

  /** `ready` labels are in place, the others untouched. */
  ghost predicate Partly<L(!new), S>(
    rows0: map<L, Row<L, S>>, nodes: seq<PublicNode<L>>, rows: map<L, Row<L, S>>, ready: set<L>) {
    && ready <= Names(nodes)
    && (forall k :: k in rows <==> k in rows0 || k in ready)
    && (forall k :: k in rows0 && k !in ready ==> rows[k] == rows0[k])
    && (forall x :: x in nodes && x.name in ready ==> rows[x.name] == Placed(rows0, x) && Accepts(rows0, Names(nodes), x))
    && (forall k :: k in ready ==> NoCycleAt(nodes, k))
  }

  /** Every node of the snapshot is in place and no other row changed. */
  ghost predicate Merged<L(!new), S>(rows0: map<L, Row<L, S>>, nodes: seq<PublicNode<L>>, rows: map<L, Row<L, S>>) {
    && rows.Keys == rows0.Keys + Names(nodes)
    && (forall k :: k in rows0 && k !in Names(nodes) ==> rows[k] == rows0[k])
    && (forall x :: x in nodes ==> x.name in rows && rows[x.name] == Placed(rows0, x))
  }

  /** A node whose parent is on no cycle, or is outside, is on no cycle. */
  lemma ParentReady<L(!new)>(nodes: seq<PublicNode<L>>, node: PublicNode<L>)
    requires Distinct(nodes) && node in nodes
    requires node.parent.Some? ==> node.parent.value !in Names(nodes) || NoCycleAt(nodes, node.parent.value)
    ensures NoCycleAt(nodes, node.name)
  {
    var parentOf := ParentOf(nodes);
    var j :| 0 <= j < |nodes| && nodes[j] == node;
    assert Listed(nodes, |nodes|, node.name, node.parent);
    ParentOfIsListed(nodes, node.name, node.parent);
    forall n: nat | n > 0 && Up(parentOf, node.name, n) == Some(node.name)
      ensures false
    {
      StepsBack(nodes, node, n);
    }
  }

  lemma StepsBack<L(!new)>(nodes: seq<PublicNode<L>>, node: PublicNode<L>, n: nat)
    requires node.name in ParentOf(nodes) && ParentOf(nodes)[node.name] == node.parent
    requires n > 0 && Up(ParentOf(nodes), node.name, n) == Some(node.name)
    ensures node.parent.Some? && node.parent.value in Names(nodes) && !NoCycleAt(nodes, node.parent.value)
  {
    var parentOf := ParentOf(nodes);
    var x := node.name;
    assert Up(parentOf, x, 0) == Some(x) && Up(parentOf, x, 1) == node.parent;
    if node.parent.None? {
      EndsAt(parentOf, x, 1, n);
    }
    var p := node.parent.value;
    UpAdds(parentOf, x, 1, n - 1);
    assert Up(parentOf, p, n) == Some(p);
    ParentOfDomain(nodes, p);
    if p !in parentOf {
      assert Up(parentOf, p, 0) == Some(p) && Up(parentOf, p, 1).None?;
      EndsAt(parentOf, p, 1, n);
    }
  }

  // ---- no progress means a cycle -----------------------------------------------------------------

  /** Every label has its parent among these. */
  ghost predicate Closed<L(!new)>(parentOf: map<L, Option<L>>, s: set<L>) {
    forall y :: y in s ==> y in parentOf && parentOf[y].Some? && parentOf[y].value in s
  }

  lemma {:induction false} StaysInside<L(!new)>(parentOf: map<L, Option<L>>, s: set<L>, x: L, n: nat)
    requires x in s && Closed(parentOf, s)
    ensures Up(parentOf, x, n).Some? && Up(parentOf, x, n).value in s
  {
    if n > 0 {
      StaysInside(parentOf, s, x, n - 1);
    }
  }

  /** Steps that never repeat meet one more label each. */
  lemma {:induction false} StepsCount<L(!new)>(parentOf: map<L, Option<L>>, s: set<L>, x: L, n: nat) returns (met: set<L>)
    requires x in s && Closed(parentOf, s)
    requires forall i: nat, j: nat :: i < j < n ==> Up(parentOf, x, i) != Up(parentOf, x, j)
    ensures met <= s && |met| == n && Met(parentOf, x, n, met)
  {
    hide Closed, Up;
    if n == 0 {
      met := {};
    } else {
      var before := StepsCount(parentOf, s, x, n - 1);
      StaysInside(parentOf, s, x, n - 1);
      var y := Up(parentOf, x, n - 1).value;
      assert y !in before;
      MetNext(parentOf, x, n - 1, before, y);
      met := before + {y};
    }
  }

  /** Labels that all have their parent among themselves hold a cycle. */
  lemma ClosedHoldsCycle<L(!new)>(parentOf: map<L, Option<L>>, s: set<L>, x: L) returns (y: L, n: nat)
    requires x in s && Closed(parentOf, s)
    ensures n > 0 && Up(parentOf, y, n) == Some(y)
  {
    hide Closed, Up;
    var m := |s| + 1;
    if forall i: nat, j: nat :: i < j < m ==> Up(parentOf, x, i) != Up(parentOf, x, j) {
      var met := StepsCount(parentOf, s, x, m);
      SubsetSize(met, s);
      assert false;
    }
    var i: nat, j: nat :| i < j < m && Up(parentOf, x, i) == Up(parentOf, x, j);
    StaysInside(parentOf, s, x, i);
    UpAdds(parentOf, x, i, j - i);
    y, n := Up(parentOf, x, i).value, j - i;
  }

  // ---- the passes ---------------------------------------------------------------------------

  lemma SameNode<L(!new)>(nodes: seq<PublicNode<L>>, x: PublicNode<L>, y: PublicNode<L>)
    requires Distinct(nodes) && x in nodes && y in nodes && x.name == y.name
    ensures x == y
  {
    var i :| 0 <= i < |nodes| && nodes[i] == x;
    var j :| 0 <= j < |nodes| && nodes[j] == y;
    assert i == j;
  }

  lemma NamedIn<L>(nodes: seq<PublicNode<L>>, x: PublicNode<L>)
    requires x in nodes
    ensures x.name in Names(nodes)
  {
    var i :| 0 <= i < |nodes| && nodes[i] == x;
  }

  /** Storing a node whose parent is settled. */
  lemma ApplyStep<L(!new), S>(
    rows0: map<L, Row<L, S>>, nodes: seq<PublicNode<L>>, rows: map<L, Row<L, S>>, ready: set<L>, node: PublicNode<L>)
    requires Distinct(nodes) && Partly(rows0, nodes, rows, ready) && node in nodes && node.name !in ready
    requires node.parent.Some? ==> node.parent.value !in Names(nodes) || node.parent.value in ready
    ensures Placed(rows, node) == Placed(rows0, node)
    ensures (node.parent.Some? ==> node.parent.value in rows) && Storable(rows, node) <==>
            Accepts(rows0, Names(nodes), node)
    ensures Accepts(rows0, Names(nodes), node) ==>
      Partly(rows0, nodes, rows[node.name := Placed(rows, node)], ready + {node.name})
  {
    ParentReady(nodes, node);
    NamedIn(nodes, node);
    forall x | x in nodes && x.name == node.name
      ensures x == node
    {
      SameNode(nodes, x, node);
    }
    hide NoCycleAt, Fits, Names;
  }

  /** `pending` lists the nodes that are not ready, each once. */
  ghost predicate Rest<L(!new)>(nodes: seq<PublicNode<L>>, pending: seq<PublicNode<L>>, ready: set<L>) {
    Distinct(pending) && forall x :: x in pending <==> x in nodes && x.name !in ready
  }

  ghost predicate Waits<L>(nodes: seq<PublicNode<L>>, ready: set<L>, x: PublicNode<L>) {
    x.parent.Some? && x.parent.value in Names(nodes) && x.parent.value !in ready
  }

  lemma RestWithout<L(!new)>(nodes: seq<PublicNode<L>>, front: seq<PublicNode<L>>, node: PublicNode<L>,
                             back: seq<PublicNode<L>>, ready: set<L>)
    requires Distinct(nodes) && Rest(nodes, front + [node] + back, ready)
    ensures Rest(nodes, front + back, ready + {node.name})
  {
    var all := front + [node] + back;
    assert all[|front|] == node;
    assert forall i :: 0 <= i < |front| ==> all[i] == front[i];
    assert forall i :: 0 <= i < |back| ==> all[|front| + 1 + i] == back[i];
    assert node in all;
    forall x
      ensures x in front + back <==> x in nodes && x.name !in ready + {node.name}
    {
      assert x in all <==> x in front || x == node || x in back;
      if x in nodes && x.name == node.name {
        SameNode(nodes, x, node);
      }
    }
  }

  /** One pass: nodes whose parent is still to come wait for the next one. */
  method MergePass<L(==, !new), S>(
    ghost rows0: map<L, Row<L, S>>, ghost nodes: seq<PublicNode<L>>,
    rows: map<L, Row<L, S>>, pending: seq<PublicNode<L>>, ready: set<L>, remaining: set<L>)
    returns (r: Result<map<L, Row<L, S>>>, done: set<L>, next: seq<PublicNode<L>>)
    requires Distinct(nodes) && remaining == Names(nodes)
    requires Partly(rows0, nodes, rows, ready) && Rest(nodes, pending, ready)
    ensures r.Err? ==> exists x :: x in nodes && !Accepts(rows0, Names(nodes), x)
    ensures r.Ok? ==> Partly(rows0, nodes, r.value, done) && Rest(nodes, next, done) && |next| <= |pending|
    ensures r.Ok? && |next| == |pending| ==> forall x :: x in next ==> Waits(nodes, done, x)
  {
    hide Partly, Rest, Accepts, Placed, Storable, Names, Waits;
    assert forall x :: Waits(nodes, ready, x) <==>
      x.parent.Some? && x.parent.value in Names(nodes) && x.parent.value !in ready by { WaitsMeans(nodes, ready); }
    var cur := rows;
    done, next := ready, [];
    assert next + pending[0..] == pending;
    for i := 0 to |pending|
      invariant Partly(rows0, nodes, cur, done) && Rest(nodes, next + pending[i..], done) && |next| <= i
      invariant |next| == i ==> done == ready && forall x :: x in next ==> Waits(nodes, ready, x)
    {
      var node := pending[i];
      assert pending[i..] == [node] + pending[i + 1..];
      if node.parent.Some? && node.parent.value in remaining && node.parent.value !in done {
        assert (next + [node]) + pending[i + 1..] == next + pending[i..];
        next := next + [node];
      } else {
        assert next + [node] + pending[i + 1..] == next + pending[i..];
        InRest(nodes, next, node, pending[i + 1..], done);
        ApplyStep(rows0, nodes, cur, done, node);
        var out := ApplyNode(cur, node);
        if out.Err? {
          return Err(out.error), done, next;
        }
        RestWithout(nodes, next, node, pending[i + 1..], done);
        cur := out.value;
        done := done + {node.name};
      }
    }
    assert next + pending[|pending|..] == next;
    r := Ok(cur);
  }

  lemma WaitsMeans<L(!new)>(nodes: seq<PublicNode<L>>, ready: set<L>)
    ensures forall x :: Waits(nodes, ready, x) <==>
      x.parent.Some? && x.parent.value in Names(nodes) && x.parent.value !in ready
  {
  }

  lemma InRest<L(!new)>(nodes: seq<PublicNode<L>>, front: seq<PublicNode<L>>, node: PublicNode<L>,
                        back: seq<PublicNode<L>>, ready: set<L>)
    requires Rest(nodes, front + [node] + back, ready)
    ensures node in nodes && node.name !in ready
  {
    assert (front + [node] + back)[|front|] == node;
  }

  // ---- the whole loop -------------------------------------------------------------------------

  ghost predicate AllAccepted<L(!new), S>(rows0: map<L, Row<L, S>>, nodes: seq<PublicNode<L>>) {
    forall x :: x in nodes ==> Accepts(rows0, Names(nodes), x)
  }

  /** Nothing moved and something is left: the snapshot has a cycle. */
  lemma StuckIsCyclic<L(!new)>(nodes: seq<PublicNode<L>>, pending: seq<PublicNode<L>>, ready: set<L>)
    requires Distinct(nodes) && Rest(nodes, pending, ready) && pending != []
    requires forall x :: x in pending ==> Waits(nodes, ready, x)
    ensures !Acyclic(nodes)
  {
    hide Rest, Waits, Up, ParentOf, Distinct;
    var s := Names(pending);
    var parentOf := ParentOf(nodes);
    assert pending[0].name in s;
    forall y | y in s
      ensures y in parentOf && parentOf[y].Some? && parentOf[y].value in s
    {
      var i :| 0 <= i < |pending| && pending[i].name == y;
      WaitingParent(nodes, pending, ready, pending[i]);
    }
    var y, n := ClosedHoldsCycle(parentOf, s, pending[0].name);
    assert !NoCycleAt(nodes, y);
  }

  lemma WaitingParent<L(!new)>(nodes: seq<PublicNode<L>>, pending: seq<PublicNode<L>>, ready: set<L>, x: PublicNode<L>)
    requires Distinct(nodes) && Rest(nodes, pending, ready) && x in pending && Waits(nodes, ready, x)
    ensures x.name in ParentOf(nodes) && ParentOf(nodes)[x.name] == x.parent
    ensures x.parent.Some? && x.parent.value in Names(pending)
  {
    var j :| 0 <= j < |nodes| && nodes[j] == x;
    assert Listed(nodes, |nodes|, x.name, x.parent);
    ParentOfIsListed(nodes, x.name, x.parent);
    var k :| 0 <= k < |nodes| && nodes[k].name == x.parent.value;
    assert nodes[k] in pending;
    NamedIn(pending, nodes[k]);
  }

  lemma AllReady<L(!new), S>(rows0: map<L, Row<L, S>>, nodes: seq<PublicNode<L>>, rows: map<L, Row<L, S>>, ready: set<L>)
    requires Partly(rows0, nodes, rows, ready) && Rest(nodes, [], ready)
    ensures Merged(rows0, nodes, rows) && AllAccepted(rows0, nodes) && Acyclic(nodes)
  {
    var none: seq<PublicNode<L>> := [];
    assert forall x :: x in nodes ==> x in none || x.name in ready;
    assert ready == Names(nodes);
    forall x
      ensures NoCycleAt(nodes, x)
    {
      if x !in Names(nodes) {
        NoCycleOutside(nodes, x);
      }
    }
    forall x | x in nodes
      ensures x.name in ready
    {
    }
    hide Accepts, Placed, NoCycleAt;
  }

  lemma NoCycleOutside<L(!new)>(nodes: seq<PublicNode<L>>, x: L)
    requires x !in Names(nodes)
    ensures NoCycleAt(nodes, x)
  {
    var parentOf := ParentOf(nodes);
    ParentOfDomain(nodes, x);
    assert Up(parentOf, x, 0) == Some(x) && Up(parentOf, x, 1).None?;
    forall n: nat | n > 0
      ensures Up(parentOf, x, n) != Some(x)
    {
      EndsAt(parentOf, x, 1, n);
    }
  }

  /**
   Store every node of a snapshot, parents first. It comes to an end on every
   snapshot, and it succeeds exactly when the parents form no cycle and every
   node is storable with its outside parent, if any, already stored.
   */
  method MergeNodes<L(==, !new), S>(rows0: map<L, Row<L, S>>, nodes: seq<PublicNode<L>>) returns (r: Result<map<L, Row<L, S>>>)
    requires Distinct(nodes)
    ensures r.Ok? <==> AllAccepted(rows0, nodes) && Acyclic(nodes)
    ensures r.Ok? ==> Merged(rows0, nodes, r.value)
  {
    var remaining := Names(nodes);
    var rows := rows0;
    var pending := nodes;
    var ready: set<L> := {};
    assert Partly(rows0, nodes, rows, ready) && Rest(nodes, pending, ready);
    hide Partly, Rest, Merged, Acyclic, Accepts, Names, Waits;
    while pending != []
      invariant Partly(rows0, nodes, rows, ready) && Rest(nodes, pending, ready)
      decreases |pending|
    {
      var out, done, next := MergePass(rows0, nodes, rows, pending, ready, remaining);
      if out.Err? {
        return out;
      }
      if |next| == |pending| {
        StuckIsCyclic(nodes, next, done);
        return Err(InvalidTreeSpec);
      }
      rows, pending, ready := out.value, next, done;
    }
    AllReady(rows0, nodes, rows, ready);
    r := Ok(rows);
  }

  // ---- rows outside the snapshot --------------------------------------------------------------

  /** Every parent named by a row is itself a row. */
  ghost predicate Grounded<L(!new), S>(rows: map<L, Row<L, S>>) {
    AncestorClosed(Parents(rows), rows.Keys)
  }

  /** Delete a row and, by the table's cascade, everything below it. */
  method DeleteRow<L(==, !new), S>(rows: map<L, Row<L, S>>, l: L) returns (out: map<L, Row<L, S>>)
    requires Grounded(rows)
    ensures forall y :: y in out <==> y in rows && !InLineage(Parents(rows), y, l)
    ensures forall y :: y in out ==> out[y] == rows[y]
  {
    hide InLineage, Up, Grounded;
    if l !in rows {
      NothingBelow(rows, l);
      return rows;
    }
    var dead := {l};
    ReachesItself(rows, l);
    while true
      invariant l in dead && dead <= rows.Keys
      invariant forall y :: y in dead ==> InLineage(Parents(rows), y, l)
      decreases rows.Keys - dead
    {
      var batch := set k | k in rows && k !in dead && rows[k].parent.Some? && rows[k].parent.value in dead;
      if batch == {} {
        forall k | k in rows && rows[k].parent.Some? && rows[k].parent.value in dead
          ensures k in dead
        {
          assert k !in batch;
        }
        break;
      }
      forall y | y in batch
        ensures InLineage(Parents(rows), y, l)
      {
        OneBelow(rows, y, rows[y].parent.value, l);
      }
      var some :| some in batch;
      assert some in rows.Keys - dead;
      dead := dead + batch;
    }
    AllBelow(rows, l, dead);
    out := map k | k in rows && k !in dead :: rows[k];
  }

  lemma ReachesItself<L(!new), S>(rows: map<L, Row<L, S>>, l: L)
    ensures InLineage(Parents(rows), l, l)
  {
    assert Up(Parents(rows), l, 0) == Some(l);
  }

  lemma NothingBelow<L(!new), S>(rows: map<L, Row<L, S>>, l: L)
    requires Grounded(rows) && l !in rows
    ensures forall y :: y in rows ==> !InLineage(Parents(rows), y, l)
  {
    forall y | y in rows && InLineage(Parents(rows), y, l)
      ensures false
    {
      LineageInside(Parents(rows), rows.Keys, y, l);
    }
  }

  lemma OneBelow<L(!new), S>(rows: map<L, Row<L, S>>, y: L, p: L, l: L)
    requires y in rows && rows[y].parent == Some(p) && InLineage(Parents(rows), p, l)
    ensures InLineage(Parents(rows), y, l)
  {
    var parentOf := Parents(rows);
    assert Up(parentOf, y, 0) == Some(y) && Up(parentOf, y, 1) == Some(p);
    LineageTransitive(parentOf, y, p, l);
  }

  lemma AllBelow<L(!new), S>(rows: map<L, Row<L, S>>, l: L, dead: set<L>)
    requires l in dead
    requires forall k :: k in rows && rows[k].parent.Some? && rows[k].parent.value in dead ==> k in dead
    ensures forall y :: y in rows && InLineage(Parents(rows), y, l) ==> y in dead
  {
    forall y | y in rows && InLineage(Parents(rows), y, l)
      ensures y in dead
    {
      var n: nat :| Up(Parents(rows), y, n) == Some(l);
      BelowIsDead(rows, l, dead, y, n);
    }
  }

  lemma {:induction false} BelowIsDead<L(!new), S>(rows: map<L, Row<L, S>>, l: L, dead: set<L>, y: L, n: nat)
    requires l in dead && Up(Parents(rows), y, n) == Some(l)
    requires forall k :: k in rows && rows[k].parent.Some? && rows[k].parent.value in dead ==> k in dead
    ensures y in dead
    decreases n
  {
    var parentOf := Parents(rows);
    if n > 0 {
      assert Up(parentOf, y, 0) == Some(y);
      if Up(parentOf, y, 1).None? {
        EndsAt(parentOf, y, 1, n);
      } else {
        var p := Up(parentOf, y, 1).value;
        UpAdds(parentOf, y, 1, n - 1);
        BelowIsDead(rows, l, dead, p, n - 1);
      }
    }
  }

  /** A row stays when its whole lineage is wanted. */
  ghost predicate Stays<L(!new), S>(rows: map<L, Row<L, S>>, names: set<L>, y: L) {
    y in rows && forall z :: InLineage(Parents(rows), y, z) ==> z in names
  }

  /** What is left once the labels `gone` and everything below them are deleted. */
  ghost predicate Without<L(!new), S>(rows: map<L, Row<L, S>>, gone: set<L>, cur: map<L, Row<L, S>>) {
    && (forall y :: y in cur <==> y in rows && forall z :: z in gone ==> !InLineage(Parents(rows), y, z))
    && (forall y :: y in cur ==> cur[y] == rows[y])
  }

  lemma WithoutGrounded<L(!new), S>(rows: map<L, Row<L, S>>, gone: set<L>, cur: map<L, Row<L, S>>)
    requires Grounded(rows) && Without(rows, gone, cur)
    ensures Grounded(cur) && AncestorClosed(Parents(rows), cur.Keys)
    ensures Parents(cur) == Restricted(Parents(rows), cur.Keys)
  {
    hide InLineage, Up;
    forall y | y in cur && rows[y].parent.Some?
      ensures rows[y].parent.value in cur
    {
      var p := rows[y].parent.value;
      assert p in rows by { assert y in Parents(rows); }
      forall z | z in gone
        ensures !InLineage(Parents(rows), p, z)
      {
        if InLineage(Parents(rows), p, z) {
          OneBelow(rows, y, p, z);
        }
      }
    }
  }

  lemma WithoutOneMore<L(!new), S>(
    rows: map<L, Row<L, S>>, gone: set<L>, cur: map<L, Row<L, S>>, l: L, out: map<L, Row<L, S>>)
    requires Grounded(rows) && Without(rows, gone, cur)
    requires forall y :: y in out <==> y in cur && !InLineage(Parents(cur), y, l)
    requires forall y :: y in out ==> out[y] == cur[y]
    ensures Without(rows, gone + {l}, out)
  {
    WithoutGrounded(rows, gone, cur);
    forall y | y in cur
      ensures InLineage(Parents(cur), y, l) <==> InLineage(Parents(rows), y, l)
    {
      SameLineage(Parents(rows), cur.Keys, y, l);
    }
    hide InLineage, Parents;
  }

  method DropOthers<L(==, !new), S>(rows: map<L, Row<L, S>>, remaining: set<L>) returns (out: map<L, Row<L, S>>)
    requires Grounded(rows)
    ensures forall y :: y in out <==> Stays(rows, remaining, y)
    ensures forall y :: y in out ==> y in rows && out[y] == rows[y]
    ensures Grounded(out)
  {
    hide Grounded, InLineage, Parents;
    out := rows;
    var todo := rows.Keys;
    ghost var gone: set<L> := {};
    while todo != {}
      invariant todo <= rows.Keys
      invariant forall l :: l in gone <==> l in rows.Keys - todo && l !in remaining
      invariant Without(rows, gone, out)
      decreases todo
    {
      var l :| l in todo;
      todo := todo - {l};
      if l !in remaining {
        WithoutGrounded(rows, gone, out);
        var next := DeleteRow(out, l);
        WithoutOneMore(rows, gone, out, l, next);
        out := next;
        gone := gone + {l};
      }
    }
    WithoutGrounded(rows, gone, out);
    GoneIsRest(rows, remaining, gone, out);
  }

  lemma GoneIsRest<L(!new), S>(rows: map<L, Row<L, S>>, remaining: set<L>, gone: set<L>, out: map<L, Row<L, S>>)
    requires Grounded(rows) && Without(rows, gone, out)
    requires forall l :: l in gone <==> l in rows && l !in remaining
    ensures forall y :: y in out <==> Stays(rows, remaining, y)
  {
    forall y, z | y in rows && InLineage(Parents(rows), y, z)
      ensures z in rows
    {
      LineageInside(Parents(rows), rows.Keys, y, z);
    }
    hide InLineage, Up, Parents;
  }

  // ---- the merge as a whole -------------------------------------------------------------------

  /** The label and everything the snapshot puts above it are in the snapshot. */
  ghost predicate Inside<L(!new)>(nodes: seq<PublicNode<L>>, y: L) {
    forall z :: InLineage(ParentOf(nodes), y, z) ==> z in Names(nodes)
  }

  lemma {:induction false} AgreeInside<L(!new)>(p: map<L, Option<L>>, q: map<L, Option<L>>, s: set<L>, y: L, n: nat)
    requires forall k :: k in s ==> k in p && k in q && p[k] == q[k]
    requires forall z :: InLineage(p, y, z) ==> z in s
    ensures Up(p, y, n) == Up(q, y, n)
  {
    if n > 0 {
      AgreeInside(p, q, s, y, n - 1);
      if Up(p, y, n - 1).Some? {
        assert InLineage(p, y, Up(p, y, n - 1).value);
      }
    }
  }

  lemma InsideEitherWay<L(!new)>(p: map<L, Option<L>>, q: map<L, Option<L>>, s: set<L>, y: L)
    requires forall k :: k in s ==> k in p && k in q && p[k] == q[k]
    requires forall z :: InLineage(p, y, z) ==> z in s
    ensures forall z :: InLineage(q, y, z) ==> z in s
  {
    forall z | InLineage(q, y, z)
      ensures z in s
    {
      var n: nat :| Up(q, y, n) == Some(z);
      AgreeInside(p, q, s, y, n);
      assert InLineage(p, y, z);
    }
  }

  lemma MergedParents<L(!new), S>(rows0: map<L, Row<L, S>>, nodes: seq<PublicNode<L>>, rows: map<L, Row<L, S>>)
    requires Distinct(nodes) && Merged(rows0, nodes, rows)
    ensures forall k :: k in Names(nodes) ==>
      k in ParentOf(nodes) && k in Parents(rows) && ParentOf(nodes)[k] == Parents(rows)[k]
  {
    forall k | k in Names(nodes)
      ensures k in ParentOf(nodes) && k in Parents(rows) && ParentOf(nodes)[k] == Parents(rows)[k]
    {
      var j :| 0 <= j < |nodes| && nodes[j].name == k;
      assert nodes[j] in nodes;
      assert Listed(nodes, |nodes|, k, nodes[j].parent);
      ParentOfIsListed(nodes, k, nodes[j].parent);
    }
  }

  /** Of the merged rows, those stay that have their whole lineage inside the snapshot. */
  lemma StaysIsInside<L(!new), S>(rows0: map<L, Row<L, S>>, nodes: seq<PublicNode<L>>, rows: map<L, Row<L, S>>, y: L)
    requires Distinct(nodes) && Merged(rows0, nodes, rows)
    ensures Stays(rows, Names(nodes), y) <==> Inside(nodes, y)
  {
    MergedParents(rows0, nodes, rows);
    if Stays(rows, Names(nodes), y) {
      InsideEitherWay(Parents(rows), ParentOf(nodes), Names(nodes), y);
    }
    if Inside(nodes, y) {
      InsideEitherWay(ParentOf(nodes), Parents(rows), Names(nodes), y);
      assert Up(ParentOf(nodes), y, 0) == Some(y);
      assert InLineage(ParentOf(nodes), y, y);
    }
  }

  lemma MergedGrounded<L(!new), S>(rows0: map<L, Row<L, S>>, nodes: seq<PublicNode<L>>, rows: map<L, Row<L, S>>)
    requires Grounded(rows0) && AllAccepted(rows0, nodes) && Merged(rows0, nodes, rows)
    ensures Grounded(rows)
  {
    forall y | y in rows && rows[y].parent.Some?
      ensures rows[y].parent.value in rows
    {
      if y in Names(nodes) {
        var j :| 0 <= j < |nodes| && nodes[j].name == y;
        assert nodes[j] in nodes;
        assert Accepts(rows0, Names(nodes), nodes[j]);
      } else {
        assert y in Parents(rows0);
      }
    }
  }

  /** A key tree as one store holds it. */
  datatype Tree<L, S> = Tree(
    name: L, generation: nat, rows: map<L, Row<L, S>>, whitelist: set<(L, L)>, links: set<set<L>>)

  ghost predicate EdgesFit<L(!new)>(snapshot: PublicTree<L>) {
    && (forall e :: e in snapshot.whitelist ==>
          e.0 != e.1 && Inside(snapshot.nodes, e.0) && Inside(snapshot.nodes, e.1))
    && (forall e :: e in snapshot.links ==>
          && e.0 != e.1 && Inside(snapshot.nodes, e.0) && Inside(snapshot.nodes, e.1)
          && (e in snapshot.whitelist || (e.1, e.0) in snapshot.whitelist))
  }

  /** What a snapshot must be for the store to take it. */
  ghost predicate Acceptable<L(!new), S>(tree: Tree<L, S>, snapshot: PublicTree<L>) {
    && snapshot.nodes != [] && snapshot.name == tree.name && tree.generation <= snapshot.generation
    && Distinct(snapshot.nodes) && AllAccepted(tree.rows, snapshot.nodes) && Acyclic(snapshot.nodes)
    && EdgesFit(snapshot)
  }

  /** The store after the snapshot: its labels, parents and edges are the snapshot's. */
  ghost predicate Took<L(!new), S>(tree: Tree<L, S>, snapshot: PublicTree<L>, after: Tree<L, S>) {
    && after.name == tree.name && after.generation == snapshot.generation
    && (forall y :: y in after.rows <==> Inside(snapshot.nodes, y))
    && (forall x :: x in snapshot.nodes && x.name in after.rows ==> after.rows[x.name] == Placed(tree.rows, x))
    && (forall e :: e in after.whitelist <==>
          e in snapshot.whitelist || (e in tree.whitelist && e.0 in after.rows && e.1 !in after.rows))
    && (forall e :: e in after.links <==> exists l :: l in snapshot.links && e == {l.0, l.1})
  }

  lemma LastName<L>(nodes: seq<PublicNode<L>>)
    requires nodes != []
    ensures Names(nodes) == Names(nodes[..|nodes| - 1]) + {nodes[|nodes| - 1].name}
  {
    var front := nodes[..|nodes| - 1];
    assert forall i :: 0 <= i < |front| ==> nodes[i] == front[i];
  }

  lemma LastDistinct<L>(nodes: seq<PublicNode<L>>)
    requires nodes != []
    ensures Distinct(nodes) <==> Distinct(nodes[..|nodes| - 1]) && nodes[|nodes| - 1].name !in Names(nodes[..|nodes| - 1])
  {
    var front := nodes[..|nodes| - 1];
    var last := nodes[|nodes| - 1];
    if last.name in Names(front) {
      var j :| 0 <= j < |front| && front[j].name == last.name;
      assert nodes[j].name == last.name;
    } else if Distinct(front) {
      forall i, j | 0 <= i < j < |nodes|
        ensures nodes[i].name != nodes[j].name
      {
        assert nodes[i] == front[i] && front[i].name in Names(front);
      }
    }
  }

  lemma {:induction false} NamesCount<L>(nodes: seq<PublicNode<L>>)
    ensures |Names(nodes)| <= |nodes|
    ensures |Names(nodes)| == |nodes| <==> Distinct(nodes)
  {
    if nodes == [] {
      assert Names(nodes) == {};
    } else {
      LastName(nodes);
      LastDistinct(nodes);
      NamesCount(nodes[..|nodes| - 1]);
    }
    hide Names, Distinct;
  }

  method AllowBridges<L(==)>(labels: set<L>, edges: seq<(L, L)>, whitelist: set<(L, L)>) returns (r: Result<set<(L, L)>>)
    ensures r.Ok? <==> forall e :: e in edges ==> e.0 != e.1 && e.0 in labels && e.1 in labels
    ensures r.Ok? ==> forall e :: e in r.value <==> e in whitelist || e in edges
  {
    var out := whitelist;
    for i := 0 to |edges|
      invariant forall e :: e in edges[..i] ==> e.0 != e.1 && e.0 in labels && e.1 in labels
      invariant forall e :: e in out <==> e in whitelist || e in edges[..i]
    {
      var e := edges[i];
      assert e in edges;
      if e.0 == e.1 {
        return Err(InvalidBridge);
      }
      if e.0 !in labels || e.1 !in labels {
        return Err(NodeNotFound);
      }
      out := out + {e};
    }
    r := Ok(out);
  }

  method AddBridges<L(==)>(labels: set<L>, edges: seq<(L, L)>, whitelist: set<(L, L)>) returns (r: Result<set<set<L>>>)
    ensures r.Ok? <==> forall e :: e in edges ==>
      e.0 != e.1 && e.0 in labels && e.1 in labels && (e in whitelist || (e.1, e.0) in whitelist)
    ensures r.Ok? ==> forall s :: s in r.value <==> exists e :: e in edges && s == {e.0, e.1}
  {
    var out: set<set<L>> := {};
    for i := 0 to |edges|
      invariant forall e :: e in edges[..i] ==>
        e.0 != e.1 && e.0 in labels && e.1 in labels && (e in whitelist || (e.1, e.0) in whitelist)
      invariant forall s :: s in out <==> exists e :: e in edges[..i] && s == {e.0, e.1}
    {
      var e := edges[i];
      assert e in edges;
      if e.0 !in labels || e.1 !in labels {
        return Err(NodeNotFound);
      }
      if e.0 == e.1 {
        return Err(InvalidBridge);
      }
      if e !in whitelist && (e.1, e.0) !in whitelist {
        return Err(BridgeNotWhitelisted);
      }
      assert edges[..i + 1] == edges[..i] + [e];
      out := out + {{e.0, e.1}};
    }
    assert edges[..|edges|] == edges;
    r := Ok(out);
  }

  /**
   Take a snapshot into the store, all of it or none. The store takes it
   exactly when it is acceptable.
   */
  method ApplyPublicTree<L(==, !new), S>(tree: Tree<L, S>, snapshot: PublicTree<L>) returns (r: Result<Tree<L, S>>)
    requires Grounded(tree.rows)
    ensures r.Ok? <==> Acceptable(tree, snapshot)
    ensures r.Ok? ==> Took(tree, snapshot, r.value) && Grounded(r.value.rows)
    ensures snapshot.nodes != [] && snapshot.name == tree.name && snapshot.generation < tree.generation ==>
      r == Err(StalePublicTree)
  {
    hide Grounded, AllAccepted, Acyclic, Distinct, Names, Merged, Inside, Stays, Placed;
    if snapshot.nodes == [] || snapshot.name != tree.name {
      return Err(InvalidTreeSpec);
    }
    if snapshot.generation < tree.generation {
      return Err(StalePublicTree);
    }
    var nodes := snapshot.nodes;
    var remaining := Names(nodes);
    NamesCount(nodes);
    if |remaining| != |nodes| {
      return Err(DuplicateNodeLabel);
    }
    var merged := MergeNodes(tree.rows, nodes);
    if merged.Err? {
      return Err(merged.error);
    }
    MergedGrounded(tree.rows, nodes, merged.value);
    var rows := DropOthers(merged.value, remaining);
    TakenRows(tree.rows, nodes, merged.value, rows);
    var kept := set e | e in tree.whitelist && e.0 in rows && e.1 !in rows;
    var whitelist := AllowBridges(rows.Keys, snapshot.whitelist, kept);
    if whitelist.Err? {
      return Err(whitelist.error);
    }
    var links := AddBridges(rows.Keys, snapshot.links, whitelist.value);
    if links.Err? {
      return Err(links.error);
    }
    r := Ok(Tree(tree.name, snapshot.generation, rows, whitelist.value, links.value));
  }

  lemma TakenRows<L(!new), S>(
    rows0: map<L, Row<L, S>>, nodes: seq<PublicNode<L>>, merged: map<L, Row<L, S>>, rows: map<L, Row<L, S>>)
    requires Distinct(nodes) && Merged(rows0, nodes, merged)
    requires forall y :: y in rows <==> Stays(merged, Names(nodes), y)
    requires forall y :: y in rows ==> y in merged && rows[y] == merged[y]
    ensures forall y :: y in rows <==> Inside(nodes, y)
    ensures forall x :: x in nodes && x.name in rows ==> rows[x.name] == Placed(rows0, x)
  {
    forall y
      ensures y in rows <==> Inside(nodes, y)
    {
      StaysIsInside(rows0, nodes, merged, y);
    }
    hide Inside, Stays, Placed;
  }

  // ---- what that means ------------------------------------------------------------------------

  /**
   What is stored for a snapshot node is what the node says, whether its label
   was there before or not; only the share comes from what was stored, and only
   under the same key.
   */
  lemma StoredAsListed<L(!new), S>(tree: Tree<L, S>, snapshot: PublicTree<L>, after: Tree<L, S>, x: PublicNode<L>)
    requires Acceptable(tree, snapshot) && Took(tree, snapshot, after)
    requires x in snapshot.nodes && Inside(snapshot.nodes, x.name)
    ensures x.name in after.rows
    ensures
      var row := after.rows[x.name];
      && row.parent == x.parent && row.threshold == x.threshold && row.active == x.active && row.key == x.key
      && row.sealed == if x.name in tree.rows && tree.rows[x.name].key == x.key then tree.rows[x.name].sealed else None
  {
    assert Storable(tree.rows, x);
  }

  /** With every parent in the snapshot, the stored labels and parents are exactly the snapshot's. */
  lemma ClosedSnapshotIsStored<L(!new), S>(tree: Tree<L, S>, snapshot: PublicTree<L>, after: Tree<L, S>)
    requires Acceptable(tree, snapshot) && Took(tree, snapshot, after)
    requires AncestorClosed(ParentOf(snapshot.nodes), Names(snapshot.nodes))
    ensures Parents(after.rows) == ParentOf(snapshot.nodes)
  {
    var nodes := snapshot.nodes;
    forall y
      ensures y in after.rows <==> y in ParentOf(nodes)
    {
      ParentOfDomain(nodes, y);
      if y in Names(nodes) {
        forall z | InLineage(ParentOf(nodes), y, z)
          ensures z in Names(nodes)
        {
          LineageInside(ParentOf(nodes), Names(nodes), y, z);
        }
      } else {
        assert Up(ParentOf(nodes), y, 0) == Some(y);
        assert InLineage(ParentOf(nodes), y, y);
      }
    }
    forall y | y in after.rows
      ensures after.rows[y].parent == ParentOf(nodes)[y]
    {
      ParentOfDomain(nodes, y);
      var j :| 0 <= j < |nodes| && nodes[j].name == y;
      assert nodes[j] in nodes;
      assert Listed(nodes, |nodes|, y, nodes[j].parent);
      ParentOfIsListed(nodes, y, nodes[j].parent);
    }
  }

  /** A sealed share survives exactly when its node stays and its key is not replaced; then it keeps that key. */
  lemma ShareSurvives<L(!new), S>(tree: Tree<L, S>, snapshot: PublicTree<L>, after: Tree<L, S>, x: PublicNode<L>)
    requires Acceptable(tree, snapshot) && Took(tree, snapshot, after)
    requires x in snapshot.nodes && x.name in tree.rows && tree.rows[x.name].sealed.Some?
    ensures x.name in after.rows && after.rows[x.name].sealed == tree.rows[x.name].sealed <==>
            Inside(snapshot.nodes, x.name) && (x.key.None? || x.key == tree.rows[x.name].key)
    ensures x.name in after.rows && after.rows[x.name].sealed.Some? ==> after.rows[x.name].key == tree.rows[x.name].key
  {
  }

  /** No share appears from nowhere. */
  lemma NoNewShare<L(!new), S>(tree: Tree<L, S>, snapshot: PublicTree<L>, after: Tree<L, S>, y: L)
    requires Acceptable(tree, snapshot) && Took(tree, snapshot, after)
    requires y in after.rows && after.rows[y].sealed.Some?
    ensures y in tree.rows && tree.rows[y].sealed == after.rows[y].sealed
  {
    assert Up(ParentOf(snapshot.nodes), y, 0) == Some(y);
    assert InLineage(ParentOf(snapshot.nodes), y, y);
    var j :| 0 <= j < |snapshot.nodes| && snapshot.nodes[j].name == y;
    assert snapshot.nodes[j] in snapshot.nodes;
  }
}
