/**
 The field the share arithmetic works in. The byte field of the sharing
 library is one of these, with XOR as `add`; nothing below depends on which
 field of characteristic two it is.
 */
module Field {

  /** `xs` are the x-coordinates a dealer hands out, in order. */
  datatype Ops<!F> = Ops(zero: F, one: F, add: (F, F) -> F, mul: (F, F) -> F, inv: F -> F, xs: seq<F>)

  /** Names the point at which the field laws are wanted; see `IsField`. */
  predicate At<F>(a: F, b: F, c: F) { true }

  /** The laws of a field of characteristic two, instantiated only where a proof mentions `At`. */
  ghost predicate IsField<F(!new)>(f: Ops<F>) {
    && f.zero != f.one
    && (forall i :: 0 <= i < |f.xs| ==> f.xs[i] != f.zero)
    && (forall i, j :: 0 <= i < j < |f.xs| ==> f.xs[i] != f.xs[j])
    && (forall a, b, c {:trigger At(a, b, c)} :: At(a, b, c) ==>
      && f.add(a, b) == f.add(b, a)
      && f.add(f.add(a, b), c) == f.add(a, f.add(b, c))
      && f.add(a, f.zero) == a
      && f.add(a, a) == f.zero
      && f.mul(a, b) == f.mul(b, a)
      && f.mul(f.mul(a, b), c) == f.mul(a, f.mul(b, c))
      && f.mul(a, f.add(b, c)) == f.add(f.mul(a, b), f.mul(a, c))
      && f.mul(a, f.one) == a
      && (a != f.zero ==> f.mul(a, f.inv(a)) == f.one))
  }

  lemma Additive<F(!new)>(f: Ops<F>, a: F, b: F, c: F)
    requires IsField(f)
    ensures f.add(a, b) == f.add(b, a)
    ensures f.add(f.add(a, b), c) == f.add(a, f.add(b, c))
    ensures f.add(a, f.zero) == a && f.add(f.zero, a) == a
    ensures f.add(a, a) == f.zero
  {
    assert At(a, b, c) && At(a, f.zero, c);
  }

  lemma Multiplicative<F(!new)>(f: Ops<F>, a: F, b: F, c: F)
    requires IsField(f)
    ensures f.mul(a, b) == f.mul(b, a)
    ensures f.mul(f.mul(a, b), c) == f.mul(a, f.mul(b, c))
    ensures f.mul(a, f.one) == a && f.mul(f.one, a) == a
    ensures a != f.zero ==> f.mul(a, f.inv(a)) == f.one
  {
    assert At(a, b, c) && At(a, f.one, c);
  }

  lemma Distributive<F(!new)>(f: Ops<F>, a: F, b: F, c: F)
    requires IsField(f)
    ensures f.mul(a, f.add(b, c)) == f.add(f.mul(a, b), f.mul(a, c))
    ensures f.mul(f.add(b, c), a) == f.add(f.mul(b, a), f.mul(c, a))
  {
    assert At(a, b, c) && At(f.add(b, c), a, a) && At(b, a, a) && At(c, a, a);
  }

  /** Equal sums have equal summands: a + b = 0 exactly when a = b. */
  lemma SumIsZero<F(!new)>(f: Ops<F>, a: F, b: F)
    requires IsField(f)
    ensures f.add(a, b) == f.zero <==> a == b
  {
    Additive(f, a, b, b);
    Additive(f, b, b, b);
    Additive(f, b, a, a);
  }

  lemma Cancel<F(!new)>(f: Ops<F>, a: F, b: F)
    requires IsField(f)
    ensures f.add(a, f.add(a, b)) == b && f.add(f.add(b, a), a) == b
  {
    Additive(f, a, a, b);
    Additive(f, b, a, a);
    Additive(f, b, f.zero, a);
  }

  /** (a + b) + (c + d) = (a + c) + (b + d). */
  lemma Regroup<F(!new)>(f: Ops<F>, a: F, b: F, c: F, d: F)
    requires IsField(f)
    ensures f.add(f.add(a, b), f.add(c, d)) == f.add(f.add(a, c), f.add(b, d))
  {
    Additive(f, a, b, f.add(c, d));
    Additive(f, b, c, d);
    Additive(f, c, b, d);
    Additive(f, a, c, f.add(b, d));
  }

  lemma Zero<F(!new)>(f: Ops<F>, a: F)
    requires IsField(f)
    ensures f.mul(a, f.zero) == f.zero && f.mul(f.zero, a) == f.zero
  {
    Additive(f, f.zero, f.zero, f.zero);
    Distributive(f, a, f.zero, f.zero);
    Additive(f, f.mul(a, f.zero), f.zero, f.zero);
    Multiplicative(f, a, f.zero, a);
  }

  lemma NoZeroDivisors<F(!new)>(f: Ops<F>, a: F, b: F)
    requires IsField(f) && f.mul(a, b) == f.zero && a != f.zero
    ensures b == f.zero
  {
    Multiplicative(f, f.inv(a), a, b);
    Multiplicative(f, a, f.inv(a), b);
    Multiplicative(f, b, f.one, b);
    Zero(f, f.inv(a));
  }

  // ---- such fields exist --------------------------------------------------------------------

  /** hi * w + lo, where w * w = w + 1. */
  datatype Quarter = Quarter(hi: bool, lo: bool)

  function QuarterField(): Ops<Quarter> {
    Ops(Quarter(false, false), Quarter(false, true),
        (a: Quarter, b: Quarter) => Quarter(a.hi != b.hi, a.lo != b.lo),
        (a: Quarter, b: Quarter) =>
          Quarter(((a.hi && b.lo) != (a.lo && b.hi)) != (a.hi && b.hi), (a.lo && b.lo) != (a.hi && b.hi)),
        (a: Quarter) => Quarter(a.hi, a.hi != a.lo),
        [Quarter(false, true), Quarter(true, false), Quarter(true, true)])
  }

  lemma QuarterIsField()
    ensures IsField(QuarterField())
  {
  }
}
