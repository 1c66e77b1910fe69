/**
 Proactive refresh of a set of shares: every holder contributes a random
 polynomial with constant term zero and every share absorbs all of them.
 */
module ProactiveRefresh {
  import opened Field
  import opened Interpolation
  import opened FiniteSets
  import opened Results
  import opened Sharing

  predicate DistinctNonzero<F(==)>(f: Ops<F>, xs: seq<F>) {
    (forall i :: 0 <= i < |xs| ==> xs[i] != f.zero) && Distinct(xs)
  }

  method RequireDistinctNonzeroXs<F(==)>(f: Ops<F>, xs: seq<F>) returns (ok: bool)
    ensures ok <==> DistinctNonzero(f, xs)
  {
    var seen: set<F> := {};
    for i := 0 to |xs|
      invariant DistinctNonzero(f, xs[..i])
      invariant forall x :: x in seen <==> x in xs[..i]
    {
      if xs[i] == f.zero || xs[i] in seen {
        if xs[i] in seen {
          var j :| 0 <= j < i && xs[..i][j] == xs[i];
          assert xs[j] == xs[i];
        }
        return false;
      }
      assert xs[i] !in xs[..i];
      assert forall j :: 0 <= j < i ==> xs[j] in xs[..i];
      seen := seen + {xs[i]};
      assert xs[..i + 1] == xs[..i] + [xs[i]];
    }
    assert xs[..|xs|] == xs;
    return true;
  }

  // ---- deltas ---------------------------------------------------------------

  function Zeros<F>(f: Ops<F>, n: nat): (zs: seq<F>)
    ensures |zs| == n && forall k :: 0 <= k < n ==> zs[k] == f.zero
  {
    seq(n, _ => f.zero)
  }

  /** One holder's blinding polynomials: degree below `t`, constant terms zero. */
  function BlindingPolys<F>(f: Ops<F>, t: nat, len: nat, coins: (nat, nat) -> F): (polys: seq<seq<F>>)
    requires t >= 1
    ensures IsDealing(polys, t, Zeros(f, len))
  {
    DealtPolys(t, Zeros(f, len), coins)
  }

  /** The blinding values at the wanted coordinates, by coordinate. */
  method GenerateZeroDeltas<F(==)>(f: Ops<F>, t: nat, len: nat, xs: seq<F>, coins: (nat, nat) -> F)
    returns (r: Result<map<F, seq<F>>>)
    ensures r.Ok? <==>
      t >= 2 && len >= 1 && xs != [] && DistinctNonzero(f, xs) && forall x :: x in xs ==> x in f.xs
    ensures r.Ok? ==> forall x :: x in r.value <==> x in xs
    ensures r.Ok? ==> forall x :: x in r.value ==> r.value[x] == ShareAt(f, BlindingPolys(f, t, len, coins), x)
    ensures r.Err? ==> r.error == ShareShapeMismatch
  {
    if t < 2 || len == 0 || xs == [] {
      return Err(ShareShapeMismatch);
    }
    var distinct := RequireDistinctNonzeroXs(f, xs);
    if !distinct {
      return Err(ShareShapeMismatch);
    }
    var all := Deal(f, t, Zeros(f, len), coins, |f.xs|);
    var wanted := set x | x in xs;
    var byX: map<F, seq<F>> := map[];
    for i := 0 to |all|
      invariant forall x :: x in byX <==> x in wanted && x in f.xs[..i]
      invariant forall x :: x in byX ==> byX[x] == ShareAt(f, BlindingPolys(f, t, len, coins), x)
    {
      var x := all[i][0];
      assert x == f.xs[i] && f.xs[..i + 1] == f.xs[..i] + [x];
      if x in wanted {
        byX := byX[x := all[i]];
      }
    }
    assert f.xs[..|all|] == f.xs;
    if |byX| != |wanted| {
      assert byX.Keys != wanted;
      return Err(ShareShapeMismatch);
    }
    SubsetOfSameSize(byX.Keys, wanted);
    return Ok(byX);
  }

  function AddShares<F(==)>(f: Ops<F>, a: seq<F>, b: seq<F>): (r: Result<seq<F>>)
    ensures r.Ok? <==> |a| >= 2 && |a| == |b| && a[0] == b[0]
    ensures r.Ok? ==> |r.value| == |a| && r.value[0] == a[0]
  {
    if |a| < 2 || |a| != |b| || a[0] != b[0] then Err(ShareShapeMismatch)
    else Ok([a[0]] + seq(|a| - 1, k requires 0 <= k < |a| - 1 => f.add(a[k + 1], b[k + 1])))
  }

  lemma AddsPointwise<F>(f: Ops<F>, a: seq<F>, b: seq<F>, sum: seq<F>)
    requires |a| == |b| == |sum| >= 2 && a[0] == b[0] == sum[0]
    requires forall k :: 1 <= k < |a| ==> sum[k] == f.add(a[k], b[k])
    ensures AddShares(f, a, b) == Ok(sum)
  {
    assert AddShares(f, a, b).value == sum;
  }

  /** Adding shares adds the polynomials they lie on. */
  lemma {:induction false} AddSharesAddsPolys<F(!new)>(f: Ops<F>, ps: seq<seq<F>>, qs: seq<seq<F>>, x: F)
    requires IsField(f) && |ps| >= 1
    requires |ps| == |qs| && forall k :: 0 <= k < |ps| ==> |ps[k]| == |qs[k]|
    ensures AddShares(f, ShareAt(f, ps, x), ShareAt(f, qs, x)) == Ok(ShareAt(f, PolysAdd(f, ps, qs), x))
  {
    var s, t, u := ShareAt(f, ps, x), ShareAt(f, qs, x), ShareAt(f, PolysAdd(f, ps, qs), x);
    forall k | 1 <= k < |s|
      ensures u[k] == f.add(s[k], t[k])
    {
      EvalAdd(f, ps[k - 1], qs[k - 1], x);
    }
    AddsPointwise(f, s, t, u);
  }

  // ---- the combined refresh -------------------------------------------------

  function Round<F>(coins: (nat, nat, nat) -> F, i: nat): (nat, nat) -> F {
    (k: nat, j: nat) => coins(i, k, j)
  }

  /** The sum of the first `n` holders' blinding polynomials. */
  function RefreshPolys<F>(f: Ops<F>, t: nat, len: nat, coins: (nat, nat, nat) -> F, n: nat): (polys: seq<seq<F>>)
    requires t >= 1
    ensures |polys| == len && forall k :: 0 <= k < len ==> |polys[k]| == t
  {
    if n == 0 then seq(len, _ => Zeros(f, t))
    else PolysAdd(f, RefreshPolys(f, t, len, coins, n - 1), BlindingPolys(f, t, len, Round(coins, n - 1)))
  }

  lemma {:induction false} RefreshPolysShareZero<F(!new)>(
    f: Ops<F>, t: nat, len: nat, coins: (nat, nat, nat) -> F, n: nat)
    requires IsField(f) && t >= 1
    ensures IsDealing(RefreshPolys(f, t, len, coins, n), t, Zeros(f, len))
  {
    if n > 0 {
      RefreshPolysShareZero(f, t, len, coins, n - 1);
      Additive(f, f.zero, f.zero, f.zero);
    }
  }

  lemma {:induction false} EvalZeros<F(!new)>(f: Ops<F>, t: nat, x: F)
    requires IsField(f)
    ensures Eval(f, Zeros(f, t), x) == f.zero
  {
    if t > 0 {
      EvalZeros(f, t - 1, x);
      assert Zeros(f, t)[1..] == Zeros(f, t - 1);
      Zero(f, x);
      Additive(f, f.zero, f.zero, f.zero);
    }
  }

  /** Refreshed shares still share the same secret. */
  lemma RefreshKeepsSecret<F(!new)>(f: Ops<F>, t: nat, secret: seq<F>, ps: seq<seq<F>>, zs: seq<seq<F>>)
    requires IsField(f) && IsDealing(ps, t, secret) && IsDealing(zs, t, Zeros(f, |secret|))
    ensures IsDealing(PolysAdd(f, ps, zs), t, secret)
  {
    forall k | 0 <= k < |secret|
      ensures f.add(ps[k][0], zs[k][0]) == secret[k]
    {
      Additive(f, secret[k], f.zero, f.zero);
    }
  }

  predicate RefreshAccepts<F(==)>(f: Ops<F>, shares: seq<seq<F>>, t: nat) {
    && t >= 2 && |shares| >= t
    && |shares[0]| >= 2 && (forall i :: 0 <= i < |shares| ==> |shares[i]| == |shares[0]|)
    && DistinctNonzero(f, Xs(shares))
    && forall x :: x in Xs(shares) ==> x in f.xs
  }

  method CollectXs<F>(shares: array<seq<F>>, len: nat) returns (r: Result<seq<F>>)
    requires shares.Length >= 1
    ensures r.Ok? <==> forall i :: 0 <= i < shares.Length ==> |shares[i]| == len + 1
    ensures r.Ok? ==> r.value == Xs(shares[..])
    ensures r.Err? ==> r.error == ShareShapeMismatch
  {
    var xs := [];
    for i := 0 to shares.Length
      invariant |xs| == i
      invariant forall j :: 0 <= j < i ==> |shares[j]| == len + 1 && xs[j] == shares[j][0]
    {
      if |shares[i]| != len + 1 {
        return Err(ShareShapeMismatch);
      }
      xs := xs + [shares[i][0]];
    }
    return Ok(xs);
  }

  /** Absorb one holder's deltas into the running total at every coordinate. */
  method Absorb<F(==)>(f: Ops<F>, combined: map<F, seq<F>>, deltas: map<F, seq<F>>)
    returns (next: map<F, seq<F>>)
    requires combined.Keys == deltas.Keys
    requires forall x :: x in combined ==> AddShares(f, combined[x], deltas[x]).Ok?
    ensures next.Keys == combined.Keys
    ensures forall x :: x in next ==> Ok(next[x]) == AddShares(f, combined[x], deltas[x])
  {
    next := combined;
    var todo := deltas.Keys;
    while todo != {}
      invariant todo <= deltas.Keys && next.Keys == combined.Keys
      invariant forall x :: x in todo ==> next[x] == combined[x]
      invariant forall x :: x in next && x !in todo ==> Ok(next[x]) == AddShares(f, combined[x], deltas[x])
      decreases |todo|
    {
      var x :| x in todo;
      next := next[x := AddShares(f, next[x], deltas[x]).value];
      todo := todo - {x};
    }
  }

  /** The combined deltas of `n` holders at the given coordinates. */
  method CombinedDeltas<F(==, !new)>(
    f: Ops<F>, t: nat, len: nat, xs: seq<F>, coins: (nat, nat, nat) -> F, n: nat)
    returns (r: Result<map<F, seq<F>>>)
    requires IsField(f) && t >= 2 && len >= 1 && n >= 1 && xs != [] && DistinctNonzero(f, xs)
    ensures r.Ok? <==> forall x :: x in xs ==> x in f.xs
    ensures r.Ok? ==> forall x :: x in r.value <==> x in xs
    ensures r.Ok? ==> forall x :: x in r.value ==> r.value[x] == ShareAt(f, RefreshPolys(f, t, len, coins, n), x)
  {
    var combined := map x | x in xs :: [x] + Zeros(f, len);
    forall x | x in combined
      ensures combined[x] == ShareAt(f, RefreshPolys(f, t, len, coins, 0), x)
    {
      EvalZeros(f, t, x);
    }
    for i := 0 to n
      invariant forall x :: x in combined <==> x in xs
      invariant forall x :: x in combined ==> combined[x] == ShareAt(f, RefreshPolys(f, t, len, coins, i), x)
      invariant i > 0 ==> forall x :: x in xs ==> x in f.xs
    {
      var deltas := GenerateZeroDeltas(f, t, len, xs, Round(coins, i));
      if deltas.Err? {
        return Err(ShareShapeMismatch);
      }
      assert combined.Keys == deltas.value.Keys;
      forall x | x in combined
        ensures AddShares(f, combined[x], deltas.value[x]) == Ok(ShareAt(f, RefreshPolys(f, t, len, coins, i + 1), x))
      {
        AddSharesAddsPolys(f, RefreshPolys(f, t, len, coins, i), BlindingPolys(f, t, len, Round(coins, i)), x);
      }
      combined := Absorb(f, combined, deltas.value);
    }
    return Ok(combined);
  }

  /** Each new share is the old one plus the value of `zs` at its coordinate. */
  ghost predicate Renews<F>(f: Ops<F>, before: seq<seq<F>>, zs: seq<seq<F>>, after: seq<seq<F>>) {
    && |after| == |before|
    && forall i :: 0 <= i < |before| ==> |before[i]| >= 1 && Ok(after[i]) == AddShares(f, before[i], ShareAt(f, zs, before[i][0]))
  }

  /**
   Refresh in place. A refused refresh changes nothing; an accepted one adds
   to every share the value at its coordinate of one polynomial set that
   shares the zero secret.
   */
  method RefreshAmong<F(==, !new)>(f: Ops<F>, shares: array<seq<F>>, t: nat, coins: (nat, nat, nat) -> F)
    returns (r: Result<()>)
    requires IsField(f)
    modifies shares
    ensures r.Ok? <==> old(RefreshAccepts(f, shares[..], t))
    ensures r.Err? ==> r.error == ShareShapeMismatch && shares[..] == old(shares[..])
    ensures r.Ok? ==> Renews(f, old(shares[..]),
      RefreshPolys(f, t, |old(shares[0])| - 1, coins, shares.Length), shares[..])
  {
    if shares.Length == 0 || shares.Length < t {
      return Err(ShareShapeMismatch);
    }
    if |shares[0]| <= 1 {
      return Err(ShareShapeMismatch);
    }
    var len := |shares[0]| - 1;
    var collected := CollectXs(shares, len);
    if collected.Err? {
      return Err(ShareShapeMismatch);
    }
    var xs := collected.value;
    var distinct := RequireDistinctNonzeroXs(f, xs);
    if !distinct || t < 2 {
      return Err(ShareShapeMismatch);
    }
    var deltas := CombinedDeltas(f, t, len, xs, coins, shares.Length);
    if deltas.Err? {
      return Err(ShareShapeMismatch);
    }
    AbsorbAll(f, shares, deltas.value, RefreshPolys(f, t, len, coins, shares.Length));
    return Ok(());
  }

  method AbsorbAll<F(==)>(f: Ops<F>, shares: array<seq<F>>, deltas: map<F, seq<F>>, ghost zs: seq<seq<F>>)
    requires forall i :: 0 <= i < shares.Length ==>
      |shares[i]| == |zs| + 1 >= 2 && shares[i][0] in deltas && deltas[shares[i][0]] == ShareAt(f, zs, shares[i][0])
    modifies shares
    ensures Renews(f, old(shares[..]), zs, shares[..])
  {
    ghost var before := shares[..];
    for i := 0 to shares.Length
      invariant forall j :: i <= j < shares.Length ==> shares[j] == before[j]
      invariant forall j :: 0 <= j < i ==> Ok(shares[j]) == AddShares(f, before[j], ShareAt(f, zs, before[j][0]))
    {
      var x := shares[i][0];
      shares[i] := AddShares(f, shares[i], deltas[x]).value;
    }
  }
}
