/** The lexicographic walk over the k-element subsets of `0..n`. */
module Combination {
  import FiniteSets

  /** A subset of `0..n`, as its elements in increasing order. */
  predicate IsCombination(c: seq<nat>, n: nat) {
    && (forall i, j :: 0 <= i < j < |c| ==> c[i] < c[j])
    && forall i :: 0 <= i < |c| ==> c[i] < n
  }

  ghost predicate DiffersAt(a: seq<nat>, b: seq<nat>, i: nat) {
    |a| == |b| && i < |a| && a[i] < b[i] && forall j :: 0 <= j < i ==> a[j] == b[j]
  }

  ghost predicate LexLess(a: seq<nat>, b: seq<nat>) {
    exists i :: DiffersAt(a, b, i)
  }

  lemma LexAsymmetric(a: seq<nat>, b: seq<nat>)
    requires LexLess(a, b)
    ensures a != b && !LexLess(b, a)
  {
    var i: nat :| DiffersAt(a, b, i);
    assert !LexLess(b, a);
  }

  lemma LexTransitive(a: seq<nat>, b: seq<nat>, c: seq<nat>)
    requires LexLess(a, b) && LexLess(b, c)
    ensures LexLess(a, c)
  {
    var i: nat :| DiffersAt(a, b, i);
    var j: nat :| DiffersAt(b, c, j);
    assert DiffersAt(a, c, if i < j then i else j);
  }

  lemma {:induction false} FirstDifference(a: seq<nat>, b: seq<nat>, from: nat)
    requires |a| == |b| && from <= |a| && forall j :: 0 <= j < from ==> a[j] == b[j]
    ensures a == b || LexLess(a, b) || LexLess(b, a)
    decreases |a| - from
  {
    if from < |a| {
      if a[from] < b[from] {
        assert DiffersAt(a, b, from);
      } else if b[from] < a[from] {
        assert DiffersAt(b, a, from);
      } else {
        FirstDifference(a, b, from + 1);
      }
    }
  }

  lemma LexTotal(a: seq<nat>, b: seq<nat>)
    requires |a| == |b|
    ensures a == b || LexLess(a, b) || LexLess(b, a)
  {
    FirstDifference(a, b, 0);
  }

  lemma {:induction false} PointwiseAtLeast(a: seq<nat>, b: seq<nat>)
    requires |a| == |b| && forall j :: 0 <= j < |a| ==> a[j] <= b[j]
    ensures a == b || LexLess(a, b)
  {
    LexTotal(a, b);
    assert !LexLess(b, a);
  }

  // ---- bounds on the entries --------------------------------------------------

  lemma {:induction false} GrowsFrom(c: seq<nat>, i: nat, j: nat)
    requires (forall a, b :: 0 <= a < b < |c| ==> c[a] < c[b]) && i <= j < |c|
    ensures c[j] >= c[i] + (j - i)
    decreases j
  {
    if i < j {
      GrowsFrom(c, i, j - 1);
    }
  }

  /** The largest value entry `i` can take. */
  lemma AtMost(c: seq<nat>, n: nat, i: nat)
    requires IsCombination(c, n) && i < |c|
    ensures c[i] + |c| <= n + i
  {
    GrowsFrom(c, i, |c| - 1);
  }

  lemma SizeBound(c: seq<nat>, n: nat)
    requires IsCombination(c, n)
    ensures |c| <= n
  {
    if c != [] {
      AtMost(c, n, 0);
    }
  }

  /** Entry `i` is at least `i`. */
  lemma AtLeast(c: seq<nat>, i: nat)
    requires (forall a, b :: 0 <= a < b < |c| ==> c[a] < c[b]) && i < |c|
    ensures c[i] >= i
  {
    GrowsFrom(c, 0, i);
  }

  /** All of them can be taken in one way only. */
  lemma OnlyAll(c: seq<nat>, n: nat)
    requires IsCombination(c, n) && |c| == n
    ensures forall i :: 0 <= i < n ==> c[i] == i
  {
    forall i | 0 <= i < n
      ensures c[i] == i
    {
      AtMost(c, n, i);
      AtLeast(c, i);
    }
  }

  function Position(s: seq<nat>, x: nat): (i: nat)
    requires x in s
    ensures i < |s| && s[i] == x
  {
    if s[0] == x then 0 else 1 + Position(s[1..], x)
  }

  /** A combination made of entries of another one is a combination of its positions. */
  lemma Positions(all: seq<nat>, n: nat, c: seq<nat>) returns (at: seq<nat>)
    requires IsCombination(all, n) && IsCombination(c, n) && forall k :: 0 <= k < |c| ==> c[k] in all
    ensures |at| == |c| <= |all| && IsCombination(at, |all|)
    ensures forall k :: 0 <= k < |c| ==> all[at[k]] == c[k]
  {
    at := seq(|c|, k requires 0 <= k < |c| => Position(all, c[k]));
    forall k, l | 0 <= k < l < |at|
      ensures at[k] < at[l]
    {
      assert all[at[k]] == c[k] < c[l] == all[at[l]];
    }
    SizeBound(at, |all|);
  }

  lemma SameWhenAllTaken(all: seq<nat>, n: nat, c: seq<nat>)
    requires IsCombination(all, n) && IsCombination(c, n) && |c| == |all| && forall k :: 0 <= k < |c| ==> c[k] in all
    ensures c == all
  {
    var at := Positions(all, n, c);
    OnlyAll(at, |all|);
  }

  /** As many entries as asked for, with the one at `a` among them. */
  lemma Containing(all: seq<nat>, n: nat, t: nat, a: nat) returns (sel: seq<nat>, at: nat)
    requires IsCombination(all, n) && 1 <= t <= |all| && a < |all|
    ensures IsCombination(sel, n) && |sel| == t && at < t && sel[at] == all[a]
    ensures forall k :: 0 <= k < t ==> sel[k] in all
  {
    if a < t {
      return all[..t], a;
    }
    sel, at := all[..t - 1] + [all[a]], t - 1;
  }

  // ---- the next combination ---------------------------------------------------

  /** `d` is `c` with entry `i` raised by one and everything after it packed behind it. */
  ghost predicate BumpedAt(c: seq<nat>, d: seq<nat>, i: nat) {
    && |c| == |d| && i < |c|
    && (forall j :: 0 <= j < i ==> d[j] == c[j])
    && (forall j :: i <= j < |c| ==> d[j] == c[i] + 1 + (j - i))
  }

  /** Entries after `i` cannot grow any more. */
  ghost predicate FullAfter(c: seq<nat>, n: nat, i: int) {
    forall j :: i < j < |c| && 0 <= j ==> c[j] + |c| == n + j
  }

  lemma BumpedIsNext(c: seq<nat>, n: nat, i: nat, d: seq<nat>)
    requires IsCombination(c, n) && BumpedAt(c, d, i) && FullAfter(c, n, i)
    requires c[i] + |c| < n + i
    ensures IsCombination(d, n) && LexLess(c, d)
    ensures forall e :: |e| == |c| && IsCombination(e, n) && LexLess(c, e) ==> e == d || LexLess(d, e)
  {
    assert DiffersAt(c, d, i);
    forall e | |e| == |c| && IsCombination(e, n) && LexLess(c, e)
      ensures e == d || LexLess(d, e)
    {
      var m: nat :| DiffersAt(c, e, m);
      AtMost(e, n, m);
      if m < i {
        assert DiffersAt(d, e, m);
      } else {
        assert m == i;
        forall j | 0 <= j < |c|
          ensures d[j] <= e[j]
        {
          if j >= i {
            GrowsFrom(e, i, j);
          }
        }
        PointwiseAtLeast(d, e);
      }
    }
  }

  lemma FullIsLast(c: seq<nat>, n: nat)
    requires IsCombination(c, n) && FullAfter(c, n, -1)
    ensures forall e :: |e| == |c| && IsCombination(e, n) ==> e == c || LexLess(e, c)
  {
    forall e | |e| == |c| && IsCombination(e, n)
      ensures e == c || LexLess(e, c)
    {
      forall j | 0 <= j < |c|
        ensures e[j] <= c[j]
      {
        AtMost(e, n, j);
      }
      PointwiseAtLeast(e, c);
    }
  }

  /** `d` follows `c` directly in lexicographic order among the combinations of `n`. */
  ghost predicate Successor(c: seq<nat>, d: seq<nat>, n: nat) {
    && |d| == |c| && IsCombination(d, n) && LexLess(c, d)
    && forall e :: |e| == |c| && IsCombination(e, n) && LexLess(c, e) ==> e == d || LexLess(d, e)
  }

  ghost predicate Last(c: seq<nat>, n: nat) {
    forall e :: |e| == |c| && IsCombination(e, n) ==> e == c || LexLess(e, c)
  }

  /** Step to the next combination in place; false, and no change, at the last one. */
  method NextCombination(indexes: array<nat>, n: nat) returns (more: bool)
    requires IsCombination(indexes[..], n)
    modifies indexes
    ensures more ==> Successor(old(indexes[..]), indexes[..], n)
    ensures !more ==> indexes[..] == old(indexes[..]) && Last(indexes[..], n)
  {
    var k := indexes.Length;
    ghost var c := indexes[..];
    SizeBound(c, n);
    if k == 0 || k > n {
      assert Last(c, n);
      return false;
    }
    var i := k;
    while i > 0
      invariant 0 <= i <= k && indexes[..] == c
      invariant FullAfter(c, n, i - 1)
    {
      i := i - 1;
      var limit := n - (k - 1 - i);
      if indexes[i] + 1 < limit {
        indexes[i] := indexes[i] + 1;
        var next := indexes[i];
        for j := i + 1 to k
          invariant next == c[i] + 1 + (j - 1 - i)
          invariant forall l :: 0 <= l < i ==> indexes[l] == c[l]
          invariant forall l :: i <= l < j ==> indexes[l] == c[i] + 1 + (l - i)
        {
          next := next + 1;
          indexes[j] := next;
        }
        BumpedIsNext(c, n, i, indexes[..]);
        return true;
      }
      AtMost(c, n, i);
    }
    FullIsLast(c, n);
    return false;
  }

  // ---- how many there are -----------------------------------------------------

  function Append(c: seq<nat>, x: nat): (d: seq<nat>)
    ensures |d| == |c| + 1 && d[..|c|] == c && d[|c|] == x
  {
    c + [x]
  }

  function AppendAll(s: set<seq<nat>>, x: nat): set<seq<nat>> {
    set c | c in s :: Append(c, x)
  }

  /** All k-element subsets of `0..n`; see `CombinationsAreAll`. */
  function Combinations(n: nat, k: nat): set<seq<nat>> {
    if k == 0 then {[]}
    else if n == 0 then {}
    else Combinations(n - 1, k) + AppendAll(Combinations(n - 1, k - 1), n - 1)
  }

  lemma InAppendAll(s: set<seq<nat>>, x: nat, c: seq<nat>)
    ensures c in AppendAll(s, x) <==> |c| >= 1 && c[|c| - 1] == x && c[..|c| - 1] in s
  {
    if |c| >= 1 && c[|c| - 1] == x && c[..|c| - 1] in s {
      assert c == Append(c[..|c| - 1], x);
    }
  }

  /** A combination of `n` either avoids `n - 1` or ends in it. */
  lemma LastEntry(c: seq<nat>, n: nat)
    requires n >= 1 && c != []
    ensures IsCombination(c, n) <==>
      IsCombination(c, n - 1) || (c[|c| - 1] == n - 1 && IsCombination(c[..|c| - 1], n - 1))
  {
    var k := |c| - 1;
    if IsCombination(c, n) && c[k] != n - 1 {
      assert forall i :: 0 <= i < k ==> c[i] < c[k];
    }
    if c[k] == n - 1 && IsCombination(c[..k], n - 1) {
      assert forall i :: 0 <= i < k ==> c[i] == c[..k][i] < n - 1;
      forall a, b | 0 <= a < b < |c|
        ensures c[a] < c[b]
      {
        if b < k { assert c[..k][a] < c[..k][b]; }
      }
    }
  }

  lemma {:induction false} CombinationsAreAll(n: nat, k: nat, c: seq<nat>)
    ensures c in Combinations(n, k) <==> |c| == k && IsCombination(c, n)
  {
    if k > 0 && n == 0 {
      assert |c| == k ==> c[0] >= 0;
    } else if k > 0 {
      InAppendAll(Combinations(n - 1, k - 1), n - 1, c);
      CombinationsAreAll(n - 1, k, c);
      if c != [] {
        CombinationsAreAll(n - 1, k - 1, c[..|c| - 1]);
        LastEntry(c, n);
      }
    }
  }

  function Binomial(n: nat, k: nat): nat {
    if k == 0 then 1 else if n == 0 then 0 else Binomial(n - 1, k) + Binomial(n - 1, k - 1)
  }

  lemma {:induction false} BinomialGrows(m: nat, n: nat, k: nat)
    requires m <= n
    ensures Binomial(m, k) <= Binomial(n, k)
  {
    if m < n && k > 0 {
      BinomialGrows(m, n - 1, k);
    }
  }

  lemma {:induction false} AppendAllSize(s: set<seq<nat>>, x: nat)
    ensures |AppendAll(s, x)| == |s|
  {
    if s == {} {
      assert AppendAll(s, x) == {};
    } else {
      var c :| c in s;
      AppendAllSize(s - {c}, x);
      assert AppendAll(s, x) == AppendAll(s - {c}, x) + {Append(c, x)};
      assert forall d :: Append(d, x) == Append(c, x) ==> d == Append(d, x)[..|d|] == c;
      assert Append(c, x) !in AppendAll(s - {c}, x);
    }
  }

  lemma WithAndWithoutDisjoint(n: nat, k: nat)
    requires n >= 1 && k >= 1
    ensures Combinations(n - 1, k) !! AppendAll(Combinations(n - 1, k - 1), n - 1)
  {
    var without, with := Combinations(n - 1, k), AppendAll(Combinations(n - 1, k - 1), n - 1);
    if c :| c in without && c in with {
      CombinationsAreAll(n - 1, k, c);
      InAppendAll(Combinations(n - 1, k - 1), n - 1, c);
      assert false;
    }
  }

  lemma WithAndWithout(n: nat, k: nat)
    requires n >= 1 && k >= 1
    ensures Combinations(n, k) == Combinations(n - 1, k) + AppendAll(Combinations(n - 1, k - 1), n - 1)
  {
  }

  lemma {:induction false} Pascal(n: nat, k: nat)
    requires n >= 1 && k >= 1
    ensures |Combinations(n, k)| == |Combinations(n - 1, k)| + |Combinations(n - 1, k - 1)|
  {
    hide *;
    var without, with := Combinations(n - 1, k), AppendAll(Combinations(n - 1, k - 1), n - 1);
    WithAndWithout(n, k);
    WithAndWithoutDisjoint(n, k);
    AppendAllSize(Combinations(n - 1, k - 1), n - 1);
    FiniteSets.DisjointUnionSize(without, with);
  }

  lemma NothingToChoose(n: nat, k: nat)
    requires k == 0 || n == 0
    ensures |Combinations(n, k)| == Binomial(n, k)
  {
    assert k == 0 ==> Combinations(n, k) == {[]};
  }

  lemma {:induction false} CombinationCount(n: nat, k: nat)
    ensures |Combinations(n, k)| == Binomial(n, k)
  {
    hide Combinations;
    if k == 0 || n == 0 {
      NothingToChoose(n, k);
    } else {
      Pascal(n, k);
      CombinationCount(n - 1, k);
      CombinationCount(n - 1, k - 1);
    }
  }

  // ---- the whole walk -----------------------------------------------------------

  ghost predicate Ascending(all: seq<seq<nat>>) {
    forall i, j :: 0 <= i < j < |all| ==> LexLess(all[i], all[j])
  }

  lemma AscendingSize(all: seq<seq<nat>>, n: nat, k: nat)
    requires Ascending(all) && forall i :: 0 <= i < |all| ==> |all[i]| == k && IsCombination(all[i], n)
    ensures |(set c | c in all)| == |all|
    ensures |all| <= Binomial(n, k)
  {
    SizeOfAscending(all);
    forall c | c in all
      ensures c in Combinations(n, k)
    {
      CombinationsAreAll(n, k, c);
    }
    FiniteSets.SubsetSize((set c | c in all), Combinations(n, k));
    CombinationCount(n, k);
  }

  lemma SizeOfAscending(all: seq<seq<nat>>)
    requires Ascending(all)
    ensures |(set c | c in all)| == |all|
  {
    forall i, j | 0 <= i < j < |all|
      ensures all[i] != all[j]
    {
      LexAsymmetric(all[i], all[j]);
    }
    FiniteSets.DistinctSize(all);
  }

  /** Nothing comes before the first indexes. */
  lemma FirstComesFirst(first: seq<nat>, c: seq<nat>, n: nat)
    requires |c| == |first| && IsCombination(c, n) && forall i :: 0 <= i < |first| ==> first[i] == i
    ensures c == first || LexLess(first, c)
  {
    forall i | 0 <= i < |c| ensures first[i] <= c[i] { AtLeast(c, i); }
    PointwiseAtLeast(first, c);
  }

  /** Everything up to `now` is listed. */
  ghost predicate ListedUpTo(all: seq<seq<nat>>, n: nat, now: seq<nat>) {
    && all != [] && all[|all| - 1] == now && Ascending(all)
    && forall c :: c in all <==> |c| == |now| && IsCombination(c, n) && (c == now || LexLess(c, now))
  }

  lemma ListedNext(all: seq<seq<nat>>, n: nat, now: seq<nat>, next: seq<nat>)
    requires ListedUpTo(all, n, now) && Successor(now, next, n)
    ensures ListedUpTo(all + [next], n, next)
  {
    forall c
      ensures c in all + [next] <==> |c| == |next| && IsCombination(c, n) && (c == next || LexLess(c, next))
    {
      if c in all && LexLess(c, now) {
        LexTransitive(c, now, next);
      }
      if |c| == |next| && IsCombination(c, n) && LexLess(c, next) {
        LexTotal(c, now);
        LexAsymmetric(c, next);
      }
    }
    forall i | 0 <= i < |all|
      ensures LexLess(all[i], next)
    {
      assert all[i] in all;
      if all[i] != now {
        LexTransitive(all[i], now, next);
      }
    }
  }

  /** From the first indexes on, the steps list every k-element subset once, in order. */
  method ListCombinations(n: nat, k: nat) returns (all: seq<seq<nat>>)
    requires k <= n
    ensures Ascending(all) && |all| == Binomial(n, k)
    ensures forall c :: c in all <==> |c| == k && IsCombination(c, n)
  {
    var indexes := new nat[k](i => i);
    all := [indexes[..]];
    forall c | |c| == k && IsCombination(c, n)
      ensures c == indexes[..] || !LexLess(c, indexes[..])
    {
      FirstComesFirst(indexes[..], c, n);
      if c != indexes[..] { LexAsymmetric(indexes[..], c); }
    }
    var more := true;
    while more
      invariant indexes.Length == k && IsCombination(indexes[..], n) && ListedUpTo(all, n, indexes[..])
      invariant !more ==> Last(indexes[..], n)
      decreases Binomial(n, k) - |all|, more
    {
      ghost var now := indexes[..];
      more := NextCombination(indexes, n);
      if more {
        ListedNext(all, n, now, indexes[..]);
        all := all + [indexes[..]];
        ListedBound(all, n, indexes[..]);
      }
    }
    ListedAll(all, n, indexes[..]);
  }

  lemma ListedBound(all: seq<seq<nat>>, n: nat, now: seq<nat>)
    requires ListedUpTo(all, n, now)
    ensures |all| <= Binomial(n, |now|)
  {
    forall i | 0 <= i < |all| ensures |all[i]| == |now| && IsCombination(all[i], n) { assert all[i] in all; }
    AscendingSize(all, n, |now|);
  }

  lemma ListedAll(all: seq<seq<nat>>, n: nat, now: seq<nat>)
    requires ListedUpTo(all, n, now) && Last(now, n)
    ensures |all| == Binomial(n, |now|)
    ensures forall c :: c in all <==> |c| == |now| && IsCombination(c, n)
  {
    SizeOfAscending(all);
    forall c
      ensures c in all <==> c in Combinations(n, |now|)
    {
      CombinationsAreAll(n, |now|, c);
    }
    assert (set c | c in all) == Combinations(n, |now|);
    CombinationCount(n, |now|);
  }
}
