/** Ids and names over a whole key tree: every node is found by them, and they stay unique. */
module TreeKeys {
  import opened KeyTree
  import opened Results
  import opened TreeChanges

  /** The path leads to a node with this key. */
  ghost predicate LeadsTo<F>(root: Node<F>, path: seq<nat>, key: Key) {
    IsPath(root, path) && HasKey(NodeAt(root, path), key)
  }

  /** No id and no name is given to two nodes. */
  ghost predicate Unique<F>(root: Node<F>) {
    forall key, p, q :: LeadsTo(root, p, key) && LeadsTo(root, q, key) ==> p == q
  }

  ghost predicate Absent<F>(root: Node<F>, key: Key) {
    forall path :: !LeadsTo(root, path, key)
  }

  // ---- looking nodes up -------------------------------------------------------------

  /** Whatever is in the tree is found. */
  lemma {:induction false} FindFinds<F>(n: Node<F>, path: seq<nat>, key: Key)
    requires LeadsTo(n, path, key)
    ensures Find(n, key).Some?
    decreases |path|
  {
    if path != [] && !HasKey(n, key) {
      FindFinds(n.children[path[0]], path[1..], key);
      FindAmongFinds(n, 0, path[0], key);
    }
  }

  lemma {:induction false} FindAmongFinds<F>(n: Node<F>, i: nat, j: nat, key: Key)
    requires n.Split? && i <= j < |n.children| && Find(n.children[j], key).Some?
    ensures FindAmong(n, i, key).Some?
    decreases j - i
  {
    if i < j && Find(n.children[i], key).None? {
      FindAmongFinds(n, i + 1, j, key);
    }
  }

  /** Looking up answers with the one node that has the key, or says that nobody does. */
  lemma FindExact<F>(root: Node<F>, key: Key)
    requires Unique(root)
    ensures Find(root, key).None? <==> Absent(root, key)
    ensures forall path :: LeadsTo(root, path, key) <==> Find(root, key) == Some(path)
  {
    forall path | LeadsTo(root, path, key)
      ensures Find(root, key) == Some(path)
    {
      FindFinds(root, path, key);
      assert LeadsTo(root, Find(root, key).value, key);
    }
    if Find(root, key).Some? {
      assert LeadsTo(root, Find(root, key).value, key);
    }
  }

  // ---- trees with all their keys different ---------------------------------------------

  ghost function AllNames<F>(n: Node<F>): set<string> {
    match n
    case Leaf(_, name, _, _, _) => {name}
    case Split(_, name, _, _, children) => {name} + set i, x | 0 <= i < |children| && x in AllNames(children[i]) :: x
  }

  ghost predicate DistinctNames<F>(n: Node<F>) {
    n.Split? ==>
      && (forall i :: 0 <= i < |n.children| ==> DistinctNames(n.children[i]) && n.name !in AllNames(n.children[i]))
      && forall i, j :: 0 <= i < j < |n.children| ==> AllNames(n.children[i]) !! AllNames(n.children[j])
  }

  lemma {:induction false} KeyOfNode<F>(n: Node<F>, path: seq<nat>)
    requires IsPath(n, path)
    ensures NodeAt(n, path).id in AllIds(n) && NodeAt(n, path).name in AllNames(n)
    decreases |path|
  {
    if path != [] {
      KeyOfNode(n.children[path[0]], path[1..]);
    }
  }

  lemma ChildrenApart<F>(n: Node<F>, i: nat, j: nat)
    requires n.Split? && DistinctIds(n) && DistinctNames(n) && i < |n.children| && j < |n.children| && i != j
    ensures AllIds(n.children[i]) !! AllIds(n.children[j]) && AllNames(n.children[i]) !! AllNames(n.children[j])
  {
    var (a, b) := if i < j then (i, j) else (j, i);
    assert AllIds(n.children[a]) !! AllIds(n.children[b]) && AllNames(n.children[a]) !! AllNames(n.children[b]);
  }

  lemma {:induction false} OnePath<F>(n: Node<F>, p: seq<nat>, q: seq<nat>)
    requires DistinctIds(n) && DistinctNames(n) && IsPath(n, p) && IsPath(n, q)
    requires NodeAt(n, p).id == NodeAt(n, q).id || NodeAt(n, p).name == NodeAt(n, q).name
    ensures p == q
    decreases |p|
  {
    if p == [] && q != [] {
      KeyOfNode(n.children[q[0]], q[1..]);
    } else if p != [] && q == [] {
      KeyOfNode(n.children[p[0]], p[1..]);
    } else if p != [] && p[0] != q[0] {
      ChildrenApart(n, p[0], q[0]);
      KeyOfNode(n.children[p[0]], p[1..]);
      KeyOfNode(n.children[q[0]], q[1..]);
    } else if p != [] {
      OnePath(n.children[p[0]], p[1..], q[1..]);
      assert p == [p[0]] + p[1..] && q == [q[0]] + q[1..];
    }
  }

  lemma DistinctIsUnique<F>(n: Node<F>)
    requires DistinctIds(n) && DistinctNames(n)
    ensures Unique(n)
  {
    forall key, p, q | LeadsTo(n, p, key) && LeadsTo(n, q, key)
      ensures p == q
    {
      OnePath(n, p, q);
    }
  }

  // ---- trees as they are built -----------------------------------------------------------

  /** No two entries are the same. */
  predicate NoRepeats(names: seq<string>) {
    forall i, j :: 0 <= i < j < |names| ==> names[i] != names[j]
  }

  lemma Halves(a: seq<string>, b: seq<string>)
    requires NoRepeats(a + b)
    ensures NoRepeats(a) && NoRepeats(b) && forall x :: x in a ==> x !in b
  {
    var c := a + b;
    forall i, j | 0 <= i < j < |a| ensures a[i] != a[j] { assert c[i] == a[i] && c[j] == a[j]; }
    forall i, j | 0 <= i < j < |b| ensures b[i] != b[j] { assert c[|a| + i] == b[i] && c[|a| + j] == b[j]; }
    forall x | x in a
      ensures x !in b
    {
      var i :| 0 <= i < |a| && a[i] == x;
      forall j | 0 <= j < |b| ensures b[j] != x { assert c[i] != c[|a| + j]; }
    }
  }

  /** Each spec's names are among all the names, once. */
  lemma {:induction false} NamesApart(specs: seq<Spec>, i: nat)
    requires NoRepeats(NamesOfAll(specs)) && i < |specs|
    ensures NoRepeats(Names(specs[i])) && forall x :: x in Names(specs[i]) ==> x in NamesOfAll(specs)
    ensures forall j, x :: i < j < |specs| && x in Names(specs[i]) ==> x !in Names(specs[j])
    decreases |specs|
  {
    Halves(Names(specs[0]), NamesOfAll(specs[1..]));
    if i > 0 {
      NamesApart(specs[1..], i - 1);
      forall j, x | i < j < |specs| && x in Names(specs[i])
        ensures x !in Names(specs[j])
      {
        assert specs[1..][j - 1] == specs[j];
      }
    } else {
      forall j, x | 0 < j < |specs| && x in Names(specs[j])
        ensures x in NamesOfAll(specs[1..])
      {
        NamesApart(specs[1..], j - 1);
      }
    }
  }

  /** A tree built from a spec has the spec's names, all different. */
  lemma {:induction false} BuiltNames<F>(n: Node<F>, spec: Spec)
    requires Matches(n, spec) && NoRepeats(Names(spec))
    ensures DistinctNames(n) && forall x :: x in AllNames(n) ==> x in Names(spec)
    decreases spec
  {
    if spec.SplitSpec? {
      var specs := spec.children;
      Halves([spec.name], NamesOfAll(specs));
      forall i | 0 <= i < |specs|
        ensures DistinctNames(n.children[i]) && forall x :: x in AllNames(n.children[i]) ==> x in Names(specs[i])
        ensures forall x :: x in Names(specs[i]) ==> x in NamesOfAll(specs)
        ensures forall j, x :: i < j < |specs| && x in Names(specs[i]) ==> x !in Names(specs[j])
      {
        NamesApart(specs, i);
        BuiltNames(n.children[i], specs[i]);
      }
      assert spec.name in [spec.name];
    }
  }

  lemma BuiltIsUnique<F>(n: Node<F>, spec: Spec)
    requires Matches(n, spec) && DistinctIds(n) && UniqueNames(Names(spec))
    ensures Unique(n)
  {
    BuiltNames(n, spec);
    DistinctIsUnique(n);
  }

  // ---- one node exchanged -----------------------------------------------------------------

  /** `m` has at each path the keys `n` has there, except that the node at `added` is not in `n`. */
  ghost predicate SameKeys<F>(n: Node<F>, m: Node<F>, added: Option<seq<nat>>) {
    && (forall q :: IsPath(m, q) && added != Some(q) ==>
          IsPath(n, q) && NodeAt(n, q).id == NodeAt(m, q).id && NodeAt(n, q).name == NodeAt(m, q).name)
    && forall q :: IsPath(n, q) ==> IsPath(m, q) && added != Some(q)
  }

  /** Exchanging a node changes the tree at that place and below it, and nowhere else. */
  lemma {:induction false} Exchanged<F>(n: Node<F>, path: seq<nat>, m: Node<F>, q: seq<nat>)
    requires IsPath(n, path)
    ensures q <= path ==> IsPath(n, q)
    ensures path <= q ==> (IsPath(ReplaceAt(n, path, m), q) <==> IsPath(m, q[|path|..]))
    ensures path <= q && IsPath(m, q[|path|..]) ==> NodeAt(ReplaceAt(n, path, m), q) == NodeAt(m, q[|path|..])
    ensures !(path <= q) ==> (IsPath(ReplaceAt(n, path, m), q) <==> IsPath(n, q))
    ensures !(path <= q) && !(q <= path) && IsPath(n, q) ==> NodeAt(ReplaceAt(n, path, m), q) == NodeAt(n, q)
    ensures !(path <= q) && q <= path ==>
      var (a, b) := (NodeAt(ReplaceAt(n, path, m), q), NodeAt(n, q));
      a.Split? && b.Split? && |a.children| == |b.children| && a == b.(children := a.children)
    decreases |path|
  {
    if path != [] && q != [] {
      var (i, j) := (path[0], q[0]);
      if i == j {
        Exchanged(n.children[i], path[1..], m, q[1..]);
        assert path <= q <==> path[1..] <= q[1..];
        assert q <= path <==> q[1..] <= path[1..];
        if path <= q {
          assert q[1..][|path[1..]|..] == q[|path|..];
        }
      }
    } else if path == [] {
      assert q[0..] == q;
    }
  }

  /** A parent with the same children as far as they go, and perhaps one leaf more. */
  ghost predicate SameChildren<F>(p: Node<F>, m: Node<F>) {
    && p.Split? && m.Split? && p.id == m.id && p.name == m.name
    && |p.children| <= |m.children| <= |p.children| + 1
    && (forall i :: 0 <= i < |p.children| ==>
          p.children[i] == m.children[i] ||
          (p.children[i].Leaf? && m.children[i].Leaf? && p.children[i].id == m.children[i].id && p.children[i].name == m.children[i].name))
    && (|m.children| > |p.children| ==> m.children[|p.children|].Leaf?)
  }

  /** Where the additional leaf is. */
  function Extra<F>(p: Node<F>, m: Node<F>): Option<seq<nat>>
    requires p.Split? && m.Split?
  {
    if |m.children| > |p.children| then Some([|p.children|]) else None
  }

  lemma LeafPath<F>(n: Node<F>, q: seq<nat>)
    requires n.Leaf? && IsPath(n, q)
    ensures q == []
  {
  }

  lemma SameChildrenSameKeys<F>(p: Node<F>, m: Node<F>)
    requires SameChildren(p, m)
    ensures SameKeys(p, m, Extra(p, m))
  {
    forall q | IsPath(m, q) && Extra(p, m) != Some(q)
      ensures IsPath(p, q) && NodeAt(p, q).id == NodeAt(m, q).id && NodeAt(p, q).name == NodeAt(m, q).name
    {
      if q != [] {
        assert q == [q[0]] + q[1..];
        if m.children[q[0]].Leaf? {
          LeafPath(m.children[q[0]], q[1..]);
          assert q == [q[0]];
        }
      }
    }
    forall q | IsPath(p, q)
      ensures IsPath(m, q) && Extra(p, m) != Some(q)
    {
      if q != [] && p.children[q[0]].Leaf? {
        LeafPath(p.children[q[0]], q[1..]);
      }
    }
  }

  /** The same, seen from the root. */
  lemma ExchangedSameKeys<F>(root: Node<F>, path: seq<nat>, m: Node<F>, added: Option<seq<nat>>)
    requires IsPath(root, path) && SameKeys(NodeAt(root, path), m, added)
    ensures SameKeys(root, ReplaceAt(root, path, m), if added.Some? then Some(path + added.value) else None)
  {
    var after := ReplaceAt(root, path, m);
    var there := if added.Some? then Some(path + added.value) else None;
    if added.Some? {
      assert (path + added.value)[|path|..] == added.value;
    }
    forall q | IsPath(after, q) && there != Some(q)
      ensures IsPath(root, q) && NodeAt(root, q).id == NodeAt(after, q).id && NodeAt(root, q).name == NodeAt(after, q).name
    {
      Exchanged(root, path, m, q);
      if path <= q {
        var r := q[|path|..];
        assert q == path + r;
        Below(root, path, r);
      }
    }
    forall q | IsPath(root, q)
      ensures IsPath(after, q) && there != Some(q)
    {
      Exchanged(root, path, m, q);
      if path <= q {
        var r := q[|path|..];
        assert q == path + r;
        Below(root, path, r);
      }
    }
  }

  lemma {:induction false} Below<F>(n: Node<F>, path: seq<nat>, r: seq<nat>)
    requires IsPath(n, path)
    ensures IsPath(n, path + r) <==> IsPath(NodeAt(n, path), r)
    ensures IsPath(n, path + r) ==> NodeAt(n, path + r) == NodeAt(NodeAt(n, path), r)
    decreases |path|
  {
    if path == [] {
      assert path + r == r;
    } else {
      Below(n.children[path[0]], path[1..], r);
      assert (path + r)[1..] == path[1..] + r;
    }
  }

  /** A tree stays unique when the node added to it, if any, has keys of its own. */
  lemma StaysUnique<F>(n: Node<F>, m: Node<F>, added: Option<seq<nat>>)
    requires Unique(n) && SameKeys(n, m, added)
    requires added.Some? && IsPath(m, added.value) ==>
      Absent(n, ById(NodeAt(m, added.value).id)) && Absent(n, ByName(NodeAt(m, added.value).name))
    ensures Unique(m)
  {
    hide IsPath, NodeAt;
    forall key, p, q | LeadsTo(m, p, key) && LeadsTo(m, q, key)
      ensures p == q
    {
      assert added != Some(p) ==> LeadsTo(n, p, key);
      assert added != Some(q) ==> LeadsTo(n, q, key);
    }
  }
}
