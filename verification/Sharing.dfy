/**
 Threshold sharing of a byte string: one polynomial per byte, a share being an
 x-coordinate followed by every polynomial's value there.
 */
module Sharing {
  import opened Field
  import opened Interpolation
  import opened Results

  /** `polys` share `secret` at threshold `t`: degree below `t`, secret bytes as constant terms. */
  predicate IsDealing<F(==)>(polys: seq<seq<F>>, t: nat, secret: seq<F>) {
    && t >= 1
    && |polys| == |secret|
    && forall k :: 0 <= k < |polys| ==> |polys[k]| == t && polys[k][0] == secret[k]
  }

  /** The raw share at `x`. */
  function ShareAt<F>(f: Ops<F>, polys: seq<seq<F>>, x: F): (s: seq<F>)
    ensures |s| == |polys| + 1
  {
    [x] + seq(|polys|, k requires 0 <= k < |polys| => Eval(f, polys[k], x))
  }

  function DealtPolys<F>(t: nat, secret: seq<F>, coins: (nat, nat) -> F): (polys: seq<seq<F>>)
    requires t >= 1
    ensures |polys| == |secret|
    ensures forall k :: 0 <= k < |polys| ==> |polys[k]| == t && polys[k][0] == secret[k]
  {
    seq(|secret|, k requires 0 <= k < |secret| => [secret[k]] + seq(t - 1, j requires 0 <= j => coins(k, j)))
  }

  /** The library's dealer: at most one share per available coordinate, in order. */
  function Deal<F>(f: Ops<F>, t: nat, secret: seq<F>, coins: (nat, nat) -> F, n: nat): (shares: seq<seq<F>>)
    requires t >= 1
    ensures |shares| == if n <= |f.xs| then n else |f.xs|
    ensures forall i :: 0 <= i < |shares| ==> shares[i] == ShareAt(f, DealtPolys(t, secret, coins), f.xs[i])
  {
    var m := if n <= |f.xs| then n else |f.xs|;
    seq(m, i requires 0 <= i < m => ShareAt(f, DealtPolys(t, secret, coins), f.xs[i]))
  }

  // ---- recovery -----------------------------------------------------------

  function Xs<F>(shares: seq<seq<F>>): (xs: seq<F>)
    requires forall i :: 0 <= i < |shares| ==> |shares[i]| >= 1
    ensures |xs| == |shares| && forall i :: 0 <= i < |shares| ==> xs[i] == shares[i][0]
  {
    seq(|shares|, i requires 0 <= i < |shares| => shares[i][0])
  }

  function Column<F>(shares: seq<seq<F>>, k: nat): (ys: seq<F>)
    requires forall i :: 0 <= i < |shares| ==> |shares[i]| > k + 1
    ensures |ys| == |shares| && forall i :: 0 <= i < |shares| ==> ys[i] == shares[i][k + 1]
  {
    seq(|shares|, i requires 0 <= i < |shares| => shares[i][k + 1])
  }

  function DistinctCount<F(==)>(xs: seq<F>): nat {
    if xs == [] then 0 else (if xs[0] in xs[1..] then 0 else 1) + DistinctCount(xs[1..])
  }

  predicate SameLength<F>(shares: seq<seq<F>>) {
    forall i :: 0 <= i < |shares| ==> |shares[i]| == |shares[0]|
  }

  /** The library's recovery, from raw bytes that parsed as shares. */
  function Recover<F(==)>(f: Ops<F>, t: nat, shares: seq<seq<F>>): Result<seq<F>>
    requires forall i :: 0 <= i < |shares| ==> |shares[i]| >= 2
  {
    if !SameLength(shares) || shares == [] || DistinctCount(Xs(shares)) < t then Err(QuorumNotMet)
    else Ok(seq(|shares[0]| - 1, k requires 0 <= k < |shares[0]| - 1 =>
        InterpolateAtZero(f, Xs(shares), Column(shares, k))))
  }

  /** The shares lie on `polys`, at distinct non-zero coordinates. */
  ghost predicate OnPolys<F>(f: Ops<F>, polys: seq<seq<F>>, shares: seq<seq<F>>) {
    && (forall i :: 0 <= i < |shares| ==> |shares[i]| >= 1 && shares[i] == ShareAt(f, polys, shares[i][0]))
    && (forall i :: 0 <= i < |shares| ==> shares[i][0] != f.zero)
    && (forall i, j :: 0 <= i < j < |shares| ==> shares[i][0] != shares[j][0])
  }

  lemma {:induction false} DistinctCountFull<F>(xs: seq<F>)
    requires Distinct(xs)
    ensures DistinctCount(xs) == |xs|
  {
    if xs != [] {
      assert Distinct(xs[1..]);
      DistinctCountFull(xs[1..]);
      assert xs[0] !in xs[1..];
    }
  }

  /** Any threshold-many genuine shares give back exactly the secret. */
  lemma RecoverDealing<F(!new)>(f: Ops<F>, t: nat, secret: seq<F>, polys: seq<seq<F>>, shares: seq<seq<F>>)
    requires IsField(f) && IsDealing(polys, t, secret) && OnPolys(f, polys, shares)
    requires |secret| >= 1 && |shares| >= t
    ensures forall i :: 0 <= i < |shares| ==> |shares[i]| >= 2
    ensures Recover(f, t, shares) == Ok(secret)
  {
    var xs := Xs(shares);
    assert Distinct(xs);
    DistinctCountFull(xs);
    assert SameLength(shares);
    forall k | 0 <= k < |secret|
      ensures InterpolateAtZero(f, xs, Column(shares, k)) == secret[k]
    {
      assert Column(shares, k) == Evals(f, polys[k], xs);
      InterpolationRecovers(f, xs, polys[k]);
    }
    assert Recover(f, t, shares).value == secret;
  }

  // ---- adding polynomials ---------------------------------------------------

  function PolyAdd<F>(f: Ops<F>, p: seq<F>, q: seq<F>): (r: seq<F>)
    requires |p| == |q|
    ensures |r| == |p| && forall i :: 0 <= i < |p| ==> r[i] == f.add(p[i], q[i])
  {
    seq(|p|, i requires 0 <= i < |p| => f.add(p[i], q[i]))
  }

  lemma {:induction false} EvalAdd<F(!new)>(f: Ops<F>, p: seq<F>, q: seq<F>, x: F)
    requires IsField(f) && |p| == |q|
    ensures Eval(f, PolyAdd(f, p, q), x) == f.add(Eval(f, p, x), Eval(f, q, x))
  {
    if p == [] {
      Additive(f, f.zero, f.zero, f.zero);
    } else {
      EvalAdd(f, p[1..], q[1..], x);
      assert PolyAdd(f, p, q)[1..] == PolyAdd(f, p[1..], q[1..]);
      Distributive(f, x, Eval(f, p[1..], x), Eval(f, q[1..], x));
      Regroup(f, p[0], f.mul(x, Eval(f, p[1..], x)), q[0], f.mul(x, Eval(f, q[1..], x)));
    }
  }

  function PolysAdd<F>(f: Ops<F>, ps: seq<seq<F>>, qs: seq<seq<F>>): (rs: seq<seq<F>>)
    requires |ps| == |qs| && forall k :: 0 <= k < |ps| ==> |ps[k]| == |qs[k]|
    ensures |rs| == |ps| && forall k :: 0 <= k < |ps| ==> rs[k] == PolyAdd(f, ps[k], qs[k])
  {
    seq(|ps|, k requires 0 <= k < |ps| => PolyAdd(f, ps[k], qs[k]))
  }
}
