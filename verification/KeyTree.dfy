/**
 The recursive key tree: leaves hold raw shares, split nodes divide their value
 among their children. `WellShared` is what splitting establishes and every
 later change keeps.
 */
module KeyTree {
  import opened Field
  import opened Sharing

  datatype Node<F> =
    | Leaf(id: int, name: string, hardware: int, active: bool, share: seq<F>)
    | Split(id: int, name: string, active: bool, threshold: nat, children: seq<Node<F>>)

  /** Indexes of the active children, in order. */
  function ActiveIndexes<F>(children: seq<Node<F>>): (idx: seq<nat>)
    ensures forall k :: 0 <= k < |idx| ==> idx[k] < |children| && children[idx[k]].active
    ensures forall k, l :: 0 <= k < l < |idx| ==> idx[k] < idx[l]
    ensures forall i :: 0 <= i < |children| && children[i].active ==> i in idx
  {
    if children == [] then [] else
      var n := |children| - 1;
      var front := ActiveIndexes(children[..n]);
      assert forall i :: 0 <= i < n ==> children[..n][i] == children[i];
      if children[n].active then front + [n] else front
  }

  /** `polys` deal the split node's value, child `i` holding the share at `xs[i]`. */
  ghost predicate DealtBy<F(!new)>(f: Ops<F>, n: Node<F>, v: seq<F>, polys: seq<seq<F>>, xs: seq<F>)
    requires n.Split?
    decreases n, 0
  {
    && IsDealing(polys, n.threshold, v)
    && |xs| == |n.children|
    && (forall i :: 0 <= i < |n.children| && n.children[i].active ==>
          xs[i] in f.xs && WellShared(f, n.children[i], ShareAt(f, polys, xs[i])))
    && (forall i, j :: 0 <= i < j < |n.children| && n.children[i].active && n.children[j].active ==> xs[i] != xs[j])
  }

  /**
   Every active child of every split node holds its share of one set of
   polynomials of degree below the threshold, at distinct dealer coordinates,
   whose constant terms are the node's value; at least threshold children are
   active; only leaves are ever inactive.
   */
  ghost predicate WellShared<F(!new)>(f: Ops<F>, n: Node<F>, v: seq<F>)
    decreases n, 1
  {
    match n
    case Leaf(_, _, _, _, share) => share == v
    case Split(_, _, _, threshold, children) =>
      && threshold <= |ActiveIndexes(children)|
      && (forall i :: 0 <= i < |children| ==> children[i].active || children[i].Leaf?)
      && exists polys, xs :: DealtBy(f, n, v, polys, xs)
  }

  lemma Dealing<F(!new)>(f: Ops<F>, n: Node<F>, v: seq<F>) returns (polys: seq<seq<F>>, xs: seq<F>)
    requires n.Split? && WellShared(f, n, v)
    ensures DealtBy(f, n, v, polys, xs)
  {
    polys, xs :| DealtBy(f, n, v, polys, xs);
  }

  // ---- finding and replacing a node -----------------------------------------

  predicate IsPath<F>(n: Node<F>, path: seq<nat>)
    decreases |path|
  {
    path == [] || (n.Split? && path[0] < |n.children| && IsPath(n.children[path[0]], path[1..]))
  }

  function NodeAt<F>(n: Node<F>, path: seq<nat>): Node<F>
    requires IsPath(n, path)
    decreases |path|
  {
    if path == [] then n else NodeAt(n.children[path[0]], path[1..])
  }

  function ReplaceAt<F>(n: Node<F>, path: seq<nat>, m: Node<F>): Node<F>
    requires IsPath(n, path)
    decreases |path|
  {
    if path == [] then m
    else n.(children := n.children[path[0] := ReplaceAt(n.children[path[0]], path[1..], m)])
  }

  /**
   In a well-shared tree a node on an active path has a value of its own, and
   any node sharing that same value may take its place.
   */
  lemma {:induction false} Locate<F(!new)>(f: Ops<F>, n: Node<F>, v: seq<F>, path: seq<nat>)
    returns (w: seq<F>)
    requires WellShared(f, n, v) && IsPath(n, path) && NodeAt(n, path).active && n.active && |v| >= 1
    ensures WellShared(f, NodeAt(n, path), w) && |w| >= 1
    ensures forall m: Node<F> {:trigger ReplaceAt(n, path, m)} :: m.active && WellShared(f, m, w) ==>
      ReplaceAt(n, path, m).active && WellShared(f, ReplaceAt(n, path, m), v)
    decreases |path|
  {
    if path == [] {
      return v;
    }
    var i := path[0];
    var c := n.children[i];
    var polys, xs :| DealtBy(f, n, v, polys, xs);
    assert c.active;
    w := Locate(f, c, ShareAt(f, polys, xs[i]), path[1..]);
    forall m: Node<F> | m.active && WellShared(f, m, w)
      ensures ReplaceAt(n, path, m).active && WellShared(f, ReplaceAt(n, path, m), v)
    {
      ReplaceChild(f, n, v, polys, xs, i, ReplaceAt(c, path[1..], m));
    }
  }

  // ---- every node's own value ------------------------------------------------

  /** What a dealing gives some of the active children lies on its polynomials. */
  lemma DealtOnPolys<F(!new)>(f: Ops<F>, n: Node<F>, v: seq<F>, ps: seq<seq<F>>, xs: seq<F>, idx: seq<nat>, shares: seq<seq<F>>)
    requires IsField(f) && n.Split? && DealtBy(f, n, v, ps, xs) && |shares| == |idx|
    requires forall k :: 0 <= k < |idx| ==> idx[k] < |n.children| && n.children[idx[k]].active
    requires forall k, l :: 0 <= k < l < |idx| ==> idx[k] < idx[l]
    requires forall k :: 0 <= k < |idx| ==> shares[k] == ShareAt(f, ps, xs[idx[k]])
    ensures OnPolys(f, ps, shares)
  {
    hide WellShared, IsDealing;
    assert forall k :: 0 <= k < |idx| ==> shares[k][0] == xs[idx[k]] && xs[idx[k]] in f.xs;
  }

  /** The shares two dealings give one node's active children pin down the dealt value. */
  lemma SameShares<F(!new)>(f: Ops<F>, n: Node<F>, v: seq<F>, w: seq<F>,
                            ps: seq<seq<F>>, xs: seq<F>, qs: seq<seq<F>>, ys: seq<F>)
    requires IsField(f) && n.Split? && n.threshold <= |ActiveIndexes(n.children)|
    requires DealtBy(f, n, v, ps, xs) && DealtBy(f, n, w, qs, ys)
    requires forall i :: 0 <= i < |n.children| && n.children[i].active ==> ShareAt(f, ps, xs[i]) == ShareAt(f, qs, ys[i])
    ensures v == w
  {
    var idx := ActiveIndexes(n.children);
    var shares := seq(|idx|, k requires 0 <= k < |idx| => ShareAt(f, ps, xs[idx[k]]));
    DealtOnPolys(f, n, v, ps, xs, idx, shares);
    DealtOnPolys(f, n, w, qs, ys, idx, shares);
    assert |shares[0]| == |v| + 1 == |w| + 1;
    if |v| >= 1 {
      RecoverDealing(f, n.threshold, v, ps, shares);
      RecoverDealing(f, n.threshold, w, qs, shares);
    }
    hide *;
  }

  /** A well-shared node has one value. */
  lemma {:induction false} OneValue<F(!new)>(f: Ops<F>, n: Node<F>, v: seq<F>, w: seq<F>)
    requires IsField(f) && WellShared(f, n, v) && WellShared(f, n, w)
    ensures v == w
    decreases n
  {
    if n.Split? {
      var ps, xs := Dealing(f, n, v);
      var qs, ys := Dealing(f, n, w);
      forall i | 0 <= i < |n.children| && n.children[i].active
        ensures ShareAt(f, ps, xs[i]) == ShareAt(f, qs, ys[i])
      {
        OneValue(f, n.children[i], ShareAt(f, ps, xs[i]), ShareAt(f, qs, ys[i]));
      }
      SameShares(f, n, v, w, ps, xs, qs, ys);
    }
  }

  /** Whatever value the one node shares, the other shares. */
  ghost predicate StandsFor<F(!new)>(f: Ops<F>, before: Node<F>, after: Node<F>) {
    forall v :: WellShared(f, before, v) ==> WellShared(f, after, v)
  }

  /** Every split node is still there, at its place, and still shares the value it shared. */
  ghost predicate Keeps<F(!new)>(f: Ops<F>, before: Node<F>, after: Node<F>) {
    forall path :: IsPath(before, path) && NodeAt(before, path).Split? ==>
      IsPath(after, path) && NodeAt(after, path).Split? && StandsFor(f, NodeAt(before, path), NodeAt(after, path))
  }

  lemma KeepsOn<F(!new)>(f: Ops<F>, a: Node<F>, b: Node<F>, c: Node<F>)
    requires Keeps(f, a, b) && Keeps(f, b, c)
    ensures Keeps(f, a, c)
  {
    hide IsPath, NodeAt;
    forall path | IsPath(a, path) && NodeAt(a, path).Split?
      ensures IsPath(c, path) && NodeAt(c, path).Split? && StandsFor(f, NodeAt(a, path), NodeAt(c, path))
    {
      assert IsPath(b, path) && NodeAt(b, path).Split?;
    }
  }

  lemma KeepsSame<F(!new)>(f: Ops<F>, n: Node<F>)
    ensures Keeps(f, n, n)
  {
  }

  lemma ChildStandsFor<F(!new)>(f: Ops<F>, n: Node<F>, i: nat, c: Node<F>)
    requires n.Split? && i < |n.children| && n.children[i].active && c.active && StandsFor(f, n.children[i], c)
    ensures StandsFor(f, n, n.(children := n.children[i := c]))
  {
    forall v | WellShared(f, n, v)
      ensures WellShared(f, n.(children := n.children[i := c]), v)
    {
      var polys, xs := Dealing(f, n, v);
      ReplaceChild(f, n, v, polys, xs, i, c);
    }
  }

  lemma ChildKeeps<F(!new)>(f: Ops<F>, n: Node<F>, i: nat, c: Node<F>)
    requires n.Split? && i < |n.children| && n.children[i].active && c.active
    requires StandsFor(f, n.children[i], c) && Keeps(f, n.children[i], c)
    ensures Keeps(f, n, n.(children := n.children[i := c]))
  {
    ChildStandsFor(f, n, i, c);
    hide StandsFor;
    var m := n.(children := n.children[i := c]);
    forall path | IsPath(n, path) && NodeAt(n, path).Split?
      ensures IsPath(m, path) && NodeAt(m, path).Split? && StandsFor(f, NodeAt(n, path), NodeAt(m, path))
    {
      if path != [] && path[0] != i {
        assert m.children[path[0]] == n.children[path[0]];
        StandsForSame(f, NodeAt(n, path));
      }
    }
  }

  lemma StandsForSame<F(!new)>(f: Ops<F>, n: Node<F>)
    ensures StandsFor(f, n, n)
  {
  }

  /** A split node dealt afresh for the same value, its split children as they were. */
  lemma RedealtKeeps<F(!new)>(f: Ops<F>, p: Node<F>, n: Node<F>, v: seq<F>)
    requires IsField(f) && p.Split? && n.Split? && WellShared(f, p, v) && WellShared(f, n, v)
    requires |p.children| <= |n.children|
    requires forall i :: 0 <= i < |p.children| && p.children[i].Split? ==> n.children[i] == p.children[i]
    ensures StandsFor(f, p, n) && Keeps(f, p, n)
  {
    forall w | WellShared(f, p, w)
      ensures WellShared(f, n, w)
    {
      OneValue(f, p, v, w);
    }
    hide StandsFor, WellShared;
    forall path | IsPath(p, path) && NodeAt(p, path).Split?
      ensures IsPath(n, path) && NodeAt(n, path).Split? && StandsFor(f, NodeAt(p, path), NodeAt(n, path))
    {
      if path != [] {
        FirstStepSplit(p, path);
        assert n.children[path[0]] == p.children[path[0]];
        StandsForSame(f, NodeAt(p, path));
      }
    }
  }

  lemma FirstStepSplit<F>(n: Node<F>, path: seq<nat>)
    requires IsPath(n, path) && path != [] && NodeAt(n, path).Split?
    ensures n.children[path[0]].Split?
  {
    assert path[1..] == [] || n.children[path[0]].Split?;
  }

  /** A node exchanged for one that stands for it leaves every split node's own value as it was. */
  lemma {:induction false} ReplaceKeeps<F(!new)>(f: Ops<F>, n: Node<F>, v: seq<F>, path: seq<nat>, m: Node<F>)
    requires WellShared(f, n, v) && n.active && IsPath(n, path) && NodeAt(n, path).active && m.active
    requires StandsFor(f, NodeAt(n, path), m) && Keeps(f, NodeAt(n, path), m)
    ensures ReplaceAt(n, path, m).active
    ensures StandsFor(f, n, ReplaceAt(n, path, m)) && Keeps(f, n, ReplaceAt(n, path, m))
    decreases |path|
  {
    if path != [] {
      var i := path[0];
      var c := n.children[i];
      assert c.active;
      var polys, xs := Dealing(f, n, v);
      hide StandsFor, Keeps;
      ReplaceKeeps(f, c, ShareAt(f, polys, xs[i]), path[1..], m);
      ChildStandsFor(f, n, i, ReplaceAt(c, path[1..], m));
      ChildKeeps(f, n, i, ReplaceAt(c, path[1..], m));
    }
  }

  /** One active child exchanged for another with the same share. */
  lemma ReplaceChild<F(!new)>(
    f: Ops<F>, n: Node<F>, v: seq<F>, polys: seq<seq<F>>, xs: seq<F>, i: nat, c: Node<F>)
    requires n.Split? && WellShared(f, n, v) && DealtBy(f, n, v, polys, xs)
    requires i < |n.children| && n.children[i].active && c.active
    requires WellShared(f, c, ShareAt(f, polys, xs[i]))
    ensures WellShared(f, n.(children := n.children[i := c]), v)
  {
    hide ActiveIndexes, ShareAt, IsDealing;
    var m := n.(children := n.children[i := c]);
    SameActivity(n.children, m.children);
    assert forall j :: 0 <= j < |m.children| ==> m.children[j] == if j == i then c else n.children[j];
    assert DealtBy(f, m, v, polys, xs);
  }

  lemma {:induction false} SameActivity<F>(a: seq<Node<F>>, b: seq<Node<F>>)
    requires |a| == |b| && forall i :: 0 <= i < |a| ==> a[i].active == b[i].active
    ensures ActiveIndexes(a) == ActiveIndexes(b)
  {
    if a != [] {
      SameActivity(a[..|a| - 1], b[..|a| - 1]);
    }
  }
}
