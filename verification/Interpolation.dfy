/**
 Polynomials over the share field and Lagrange interpolation at zero: the
 arithmetic behind a threshold split and its recovery.
 */
module Interpolation {
  import opened Field

  /** A polynomial is its coefficients, constant term first. */
  function Eval<F>(f: Ops<F>, p: seq<F>, x: F): F {
    if p == [] then f.zero else f.add(p[0], f.mul(x, Eval(f, p[1..], x)))
  }

  predicate Distinct<F(==)>(xs: seq<F>) {
    forall i, j :: 0 <= i < j < |xs| ==> xs[i] != xs[j]
  }

  /** The factor a point `r` contributes to the basis value of `x` at zero. */
  function Factor<F>(f: Ops<F>, r: F, x: F): F {
    f.mul(r, f.inv(f.add(r, x)))
  }

  /** The Lagrange basis value of `x` at zero, over the points other than `x`. */
  function Weight<F(==)>(f: Ops<F>, all: seq<F>, x: F): F {
    if all == [] then f.one
    else if all[0] == x then Weight(f, all[1..], x)
    else f.mul(Factor(f, all[0], x), Weight(f, all[1..], x))
  }

  /** Weighted sum of `ys`, the value at `xs[i]` being `ys[i]`. */
  function WeightedSum<F(==)>(f: Ops<F>, all: seq<F>, xs: seq<F>, ys: seq<F>): F
    requires |xs| == |ys|
  {
    if xs == [] then f.zero
    else f.add(f.mul(Weight(f, all, xs[0]), ys[0]), WeightedSum(f, all, xs[1..], ys[1..]))
  }

  /** The value at zero of the polynomial through the points `(xs[i], ys[i])`. */
  function InterpolateAtZero<F(==)>(f: Ops<F>, xs: seq<F>, ys: seq<F>): F
    requires |xs| == |ys|
  {
    WeightedSum(f, xs, xs, ys)
  }

  function Evals<F>(f: Ops<F>, p: seq<F>, xs: seq<F>): (ys: seq<F>)
    ensures |ys| == |xs|
    ensures forall i :: 0 <= i < |xs| ==> ys[i] == Eval(f, p, xs[i])
  {
    if xs == [] then [] else [Eval(f, p, xs[0])] + Evals(f, p, xs[1..])
  }

  lemma EvalConstant<F(!new)>(f: Ops<F>, c: F, x: F)
    requires IsField(f)
    ensures Eval(f, [c], x) == c
  {
    Zero(f, x);
    Additive(f, c, f.zero, c);
    assert [c][1..] == [];
    assert Eval(f, [], x) == f.zero;
  }

  lemma EvalIdentity<F(!new)>(f: Ops<F>, x: F)
    requires IsField(f)
    ensures Eval(f, [f.zero, f.one], x) == x
  {
    EvalConstant(f, f.one, x);
    Multiplicative(f, x, f.one, x);
    Additive(f, x, f.zero, x);
    assert [f.zero, f.one][1..] == [f.one];
  }

  lemma EvalAtZero<F(!new)>(f: Ops<F>, p: seq<F>)
    requires IsField(f)
    ensures Eval(f, p, f.zero) == if p == [] then f.zero else p[0]
  {
    if p != [] {
      Zero(f, Eval(f, p[1..], f.zero));
      Additive(f, p[0], f.zero, f.zero);
    }
  }

  // ---- synthetic division ------------------------------------------------

  function Quotient<F>(f: Ops<F>, p: seq<F>, r: F): (q: seq<F>)
    ensures |q| == if |p| <= 1 then 0 else |p| - 1
  {
    if |p| <= 1 then [] else [Eval(f, p[1..], r)] + Quotient(f, p[1..], r)
  }

  /** x (t + (x - r) e) = (x - r) (t + x e) + r t. */
  lemma DivisionStep<F(!new)>(f: Ops<F>, x: F, r: F, t: F, e: F)
    requires IsField(f)
    ensures f.mul(x, f.add(t, f.mul(f.add(x, r), e)))
            == f.add(f.mul(r, t), f.mul(f.add(x, r), f.add(t, f.mul(x, e))))
  {
    var d := f.add(x, r);
    var xt, rt, de := f.mul(x, t), f.mul(r, t), f.mul(d, f.mul(x, e));
    Distributive(f, x, t, f.mul(d, e));
    assert f.mul(x, f.mul(d, e)) == de by {
      Multiplicative(f, x, d, e);
      Multiplicative(f, d, x, e);
    }
    Distributive(f, d, t, f.mul(x, e));
    Distributive(f, t, x, r);
    // r t + ((x t + r t) + de) = x t + de
    Additive(f, rt, f.add(xt, rt), de);
    Cancel(f, rt, xt);
    Additive(f, xt, rt, de);
    Additive(f, rt, xt, de);
  }

  /** p(x) = p(r) + (x - r) q(x). */
  lemma {:induction false} Division<F(!new)>(f: Ops<F>, p: seq<F>, r: F, x: F)
    requires IsField(f)
    ensures Eval(f, p, x)
            == f.add(Eval(f, p, r), f.mul(f.add(x, r), Eval(f, Quotient(f, p, r), x)))
  {
    if |p| <= 1 {
      Zero(f, f.add(x, r));
      Additive(f, Eval(f, p, r), f.zero, r);
      if |p| == 1 {
        EvalConstant(f, p[0], x);
        EvalConstant(f, p[0], r);
        assert p == [p[0]];
      }
    } else {
      var t := p[1..];
      var q := Quotient(f, t, r);
      Division(f, t, r, x);
      assert Quotient(f, p, r)[0] == Eval(f, t, r) && Quotient(f, p, r)[1..] == q;
      var tr := Eval(f, t, r);
      DivisionStep(f, x, r, tr, Eval(f, q, x));
      Additive(f, p[0], f.mul(r, tr), f.mul(f.add(x, r), f.add(tr, f.mul(x, Eval(f, q, x)))));
    }
  }

  // ---- how the basis changes when a point is taken away -------------------

  lemma {:induction false} WeightAppend<F(!new)>(f: Ops<F>, a: seq<F>, s: F, x: F)
    requires IsField(f) && s != x
    ensures Weight(f, a + [s], x) == f.mul(Factor(f, s, x), Weight(f, a, x))
  {
    if a == [] {
      assert a + [s] == [s] && [s][1..] == [];
      assert Weight(f, [s], x) == f.mul(Factor(f, s, x), Weight(f, [], x));
    } else {
      WeightAppend(f, a[1..], s, x);
      assert (a + [s])[1..] == a[1..] + [s];
      var g, h, w := Factor(f, a[0], x), Factor(f, s, x), Weight(f, a[1..], x);
      Multiplicative(f, g, h, w);
      Multiplicative(f, h, g, w);
    }
  }

  /** `all` is `rest` with the point `r` added: its basis picks up `r`'s factor. */
  ghost predicate Extends<F(!new)>(f: Ops<F>, all: seq<F>, rest: seq<F>, r: F) {
    forall x {:trigger Weight(f, all, x)} :: x != r ==>
      Weight(f, all, x) == f.mul(Factor(f, r, x), Weight(f, rest, x))
  }

  lemma ExtendsFirst<F(!new)>(f: Ops<F>, all: seq<F>)
    requires all != []
    ensures Extends(f, all, all[1..], all[0])
  {
  }

  lemma ExtendsLast<F(!new)>(f: Ops<F>, all: seq<F>)
    requires IsField(f) && all != []
    ensures Extends(f, all, all[..|all| - 1], all[|all| - 1])
  {
    var s, rest := all[|all| - 1], all[..|all| - 1];
    assert all == rest + [s];
    forall x | x != s
      ensures Weight(f, all, x) == f.mul(Factor(f, s, x), Weight(f, rest, x))
    {
      WeightAppend(f, rest, s, x);
    }
  }

  /** ((r / (r - x)) v) (x - r) = r v. */
  lemma FactorCancels<F(!new)>(f: Ops<F>, r: F, x: F, v: F)
    requires IsField(f) && x != r
    ensures f.mul(f.mul(Factor(f, r, x), v), f.add(x, r)) == f.mul(r, v)
  {
    var d := f.add(r, x);
    var i := f.inv(d);
    SumIsZero(f, r, x);
    Additive(f, r, x, x);
    Multiplicative(f, d, v, i);
    Multiplicative(f, r, i, v);
    Multiplicative(f, r, f.mul(i, v), d);
    Multiplicative(f, i, v, d);
    Multiplicative(f, v, d, i);
    Multiplicative(f, d, i, v);
    Multiplicative(f, v, f.one, v);
    Multiplicative(f, i, f.mul(d, v), v);
    Multiplicative(f, i, d, v);
  }

  /** One summand: w p(x) = p(r) w + r (v q(x)), where w is v with r's factor. */
  lemma OneTerm<F(!new)>(f: Ops<F>, w: F, v: F, r: F, x: F, p: seq<F>)
    requires IsField(f) && x != r && w == f.mul(Factor(f, r, x), v)
    ensures f.mul(w, Eval(f, p, x))
            == f.add(f.mul(Eval(f, p, r), f.mul(w, f.one)),
                     f.mul(r, f.mul(v, Eval(f, Quotient(f, p, r), x))))
  {
    var q, pr, d := Eval(f, Quotient(f, p, r), x), Eval(f, p, r), f.add(x, r);
    Division(f, p, r, x);
    Distributive(f, w, pr, f.mul(d, q));
    Multiplicative(f, w, pr, pr);
    Multiplicative(f, w, d, q);
    FactorCancels(f, r, x, v);
    Multiplicative(f, r, v, q);
  }

  /**
   The sum of p over points other than `r` splits into p(r) times the sum of
   the weights and r times the smaller sum of the quotient.
   */
  lemma {:induction false} SumOverOthers<F(!new)>(
    f: Ops<F>, all: seq<F>, rest: seq<F>, r: F, xs: seq<F>, p: seq<F>)
    requires IsField(f) && Extends(f, all, rest, r) && r !in xs
    ensures WeightedSum(f, all, xs, Evals(f, p, xs))
            == f.add(f.mul(Eval(f, p, r), WeightedSum(f, all, xs, Evals(f, [f.one], xs))),
                     f.mul(r, WeightedSum(f, rest, xs, Evals(f, Quotient(f, p, r), xs))))
  {
    var pr, q := Eval(f, p, r), Quotient(f, p, r);
    if xs == [] {
      Zero(f, pr); Zero(f, r);
      Additive(f, f.zero, f.zero, f.zero);
    } else {
      var x, tail := xs[0], xs[1..];
      SumOverOthers(f, all, rest, r, tail, p);
      OneTerm(f, Weight(f, all, x), Weight(f, rest, x), r, x, p);
      EvalConstant(f, f.one, x);
      SumHead(f, all, x, tail, p);
      SumHead(f, all, x, tail, [f.one]);
      SumHead(f, rest, x, tail, q);
      assert xs == [x] + tail;
      var a1 := f.mul(Weight(f, all, x), f.one);
      var a2 := WeightedSum(f, all, tail, Evals(f, [f.one], tail));
      var b1 := f.mul(Weight(f, rest, x), Eval(f, q, x));
      var b2 := WeightedSum(f, rest, tail, Evals(f, q, tail));
      Distributive(f, pr, a1, a2);
      Distributive(f, r, b1, b2);
      Regroup(f, f.mul(pr, a1), f.mul(r, b1), f.mul(pr, a2), f.mul(r, b2));
    }
  }

  lemma SumHead<F(!new)>(f: Ops<F>, all: seq<F>, r: F, rest: seq<F>, p: seq<F>)
    ensures WeightedSum(f, all, [r] + rest, Evals(f, p, [r] + rest))
            == f.add(f.mul(Weight(f, all, r), Eval(f, p, r)),
                     WeightedSum(f, all, rest, Evals(f, p, rest)))
  {
    assert ([r] + rest)[1..] == rest;
    assert Evals(f, p, [r] + rest)[1..] == Evals(f, p, rest);
  }

  lemma {:induction false} SumLast<F(!new)>(f: Ops<F>, all: seq<F>, s: F, rest: seq<F>, p: seq<F>)
    requires IsField(f)
    ensures WeightedSum(f, all, rest + [s], Evals(f, p, rest + [s]))
            == f.add(f.mul(Weight(f, all, s), Eval(f, p, s)),
                     WeightedSum(f, all, rest, Evals(f, p, rest)))
  {
    if rest == [] {
      assert rest + [s] == [s] + rest;
      SumHead(f, all, s, rest, p);
    } else {
      var h, tail := rest[0], rest[1..];
      SumLast(f, all, s, tail, p);
      assert rest + [s] == [h] + (tail + [s]) && rest == [h] + tail;
      SumHead(f, all, h, tail + [s], p);
      SumHead(f, all, h, tail, p);
      var a := f.mul(Weight(f, all, h), Eval(f, p, h));
      var b := f.mul(Weight(f, all, s), Eval(f, p, s));
      var c := WeightedSum(f, all, tail, Evals(f, p, tail));
      Additive(f, a, b, c);
      Additive(f, b, a, c);
    }
  }

  /** The interpolation of p over `all` with the point `r` singled out. */
  lemma Splitting<F(!new)>(f: Ops<F>, all: seq<F>, rest: seq<F>, r: F, p: seq<F>)
    requires IsField(f) && Extends(f, all, rest, r) && r !in rest
    requires all == [r] + rest || all == rest + [r]
    ensures InterpolateAtZero(f, all, Evals(f, p, all))
            == f.add(f.mul(Eval(f, p, r), InterpolateAtZero(f, all, Evals(f, [f.one], all))),
                     f.mul(r, InterpolateAtZero(f, rest, Evals(f, Quotient(f, p, r), rest))))
  {
    if all == [r] + rest {
      SumHead(f, all, r, rest, p);
      SumHead(f, all, r, rest, [f.one]);
    } else {
      SumLast(f, all, r, rest, p);
      SumLast(f, all, r, rest, [f.one]);
    }
    SumOverOthers(f, all, rest, r, rest, p);
    EvalConstant(f, f.one, r);
    var w, pr := Weight(f, all, r), Eval(f, p, r);
    var s := WeightedSum(f, all, rest, Evals(f, [f.one], rest));
    var u := f.mul(r, InterpolateAtZero(f, rest, Evals(f, Quotient(f, p, r), rest)));
    Multiplicative(f, w, pr, pr);
    Distributive(f, pr, w, s);
    Additive(f, f.mul(pr, w), f.mul(pr, s), u);
  }

  // ---- the basis sums to one ----------------------------------------------

  /** r (b + 1) = s (b + 1) forces b = 1 when r and s differ. */
  lemma OneFromTwoPoints<F(!new)>(f: Ops<F>, r: F, s: F, b: F)
    requires IsField(f) && r != s
    requires f.add(f.mul(r, b), f.mul(r, f.one)) == f.add(f.mul(s, b), f.mul(s, f.one))
    ensures b == f.one
  {
    var e := f.add(b, f.one);
    Distributive(f, r, b, f.one);
    Distributive(f, s, b, f.one);
    Distributive(f, e, r, s);
    SumIsZero(f, f.mul(r, e), f.mul(s, e));
    SumIsZero(f, r, s);
    NoZeroDivisors(f, f.add(r, s), e);
    SumIsZero(f, b, f.one);
  }

  lemma {:induction false} BasisSumsToOne<F(!new)>(f: Ops<F>, xs: seq<F>)
    requires IsField(f) && Distinct(xs) && xs != []
    ensures InterpolateAtZero(f, xs, Evals(f, [f.one], xs)) == f.one
    decreases |xs|
  {
    var r, tail := xs[0], xs[1..];
    assert xs == [r] + tail;
    if |xs| == 1 {
      SumHead(f, xs, r, tail, [f.one]);
      EvalConstant(f, f.one, r);
      assert Weight(f, xs, r) == Weight(f, tail, r) == f.one;
      Multiplicative(f, f.one, f.one, f.one);
      Additive(f, f.one, f.zero, f.zero);
    } else {
      var s, front := xs[|xs| - 1], xs[..|xs| - 1];
      assert xs == front + [s];
      BasisSumsToOne(f, tail);
      BasisSumsToOne(f, front);
      // The identity polynomial, written about r and about s.
      AboutPoint(f, xs, tail, r);
      AboutPoint(f, xs, front, s);
      OneFromTwoPoints(f, r, s, InterpolateAtZero(f, xs, Evals(f, [f.one], xs)));
    }
  }

  lemma AboutPoint<F(!new)>(f: Ops<F>, all: seq<F>, rest: seq<F>, r: F)
    requires IsField(f) && Distinct(all)
    requires all == [r] + rest || all == rest + [r]
    requires InterpolateAtZero(f, rest, Evals(f, [f.one], rest)) == f.one
    ensures InterpolateAtZero(f, all, Evals(f, [f.zero, f.one], all))
            == f.add(f.mul(r, InterpolateAtZero(f, all, Evals(f, [f.one], all))), f.mul(r, f.one))
  {
    var id := [f.zero, f.one];
    assert id[1..] == [f.one];
    assert Quotient(f, id, r) == [f.one] by { EvalConstant(f, f.one, r); }
    EvalIdentity(f, r);
    if all == [r] + rest {
      ExtendsFirst(f, all);
      assert all[1..] == rest;
      assert forall i :: 0 <= i < |rest| ==> rest[i] == all[i + 1];
    } else {
      ExtendsLast(f, all);
      assert all[..|all| - 1] == rest;
      assert forall i :: 0 <= i < |rest| ==> rest[i] == all[i];
    }
    Splitting(f, all, rest, r, id);
  }

  // ---- interpolation ------------------------------------------------------

  /**
   Interpolating a polynomial at more points than its degree, all distinct,
   gives back its constant term.
   */
  lemma {:induction false} InterpolationRecovers<F(!new)>(f: Ops<F>, xs: seq<F>, p: seq<F>)
    requires IsField(f) && Distinct(xs) && xs != [] && |p| <= |xs|
    ensures InterpolateAtZero(f, xs, Evals(f, p, xs)) == if p == [] then f.zero else p[0]
    decreases |xs|
  {
    var rest, q := xs[1..], Quotient(f, p, xs[0]);
    if rest != [] {
      assert Distinct(rest);
      InterpolationRecovers(f, rest, q);
    }
    EvalAtZero(f, q);
    var v := InterpolateAtZero(f, rest, Evals(f, q, rest));
    assert v == Eval(f, q, f.zero);
    SplitFirst(f, xs, p);
    BasisSumsToOne(f, xs);
    ValueAtZero(f, p, xs[0]);
  }

  lemma SplitFirst<F(!new)>(f: Ops<F>, xs: seq<F>, p: seq<F>)
    requires IsField(f) && Distinct(xs) && xs != []
    ensures InterpolateAtZero(f, xs, Evals(f, p, xs))
            == f.add(f.mul(Eval(f, p, xs[0]), InterpolateAtZero(f, xs, Evals(f, [f.one], xs))),
                     f.mul(xs[0], InterpolateAtZero(f, xs[1..], Evals(f, Quotient(f, p, xs[0]), xs[1..]))))
  {
    assert xs == [xs[0]] + xs[1..];
    ExtendsFirst(f, xs);
    Splitting(f, xs, xs[1..], xs[0], p);
  }

  lemma ValueAtZero<F(!new)>(f: Ops<F>, p: seq<F>, r: F)
    requires IsField(f)
    ensures f.add(f.mul(Eval(f, p, r), f.one), f.mul(r, Eval(f, Quotient(f, p, r), f.zero)))
            == if p == [] then f.zero else p[0]
  {
    Multiplicative(f, Eval(f, p, r), f.one, r);
    Division(f, p, r, f.zero);
    Additive(f, r, f.zero, r);
    EvalAtZero(f, p);
  }
}
