/** Picking which resolved children of a split node contribute to a recovery. */
module Selection {
  import opened FiniteSets
  import opened Results
  import opened Combination
  import opened Custody

  /** A child that resolved: its raw share and the leaves that produced it. */
  datatype Child<F> = Child(share: seq<F>, leaves: seq<UsedLeaf>)

  const SEARCH_LIMIT := 100_000

  function SharesAt<F>(children: seq<Child<F>>, idx: seq<nat>): (shares: seq<seq<F>>)
    requires forall k :: 0 <= k < |idx| ==> idx[k] < |children|
    ensures |shares| == |idx| && forall k :: 0 <= k < |idx| ==> shares[k] == children[idx[k]].share
  {
    seq(|idx|, k requires 0 <= k < |idx| => children[idx[k]].share)
  }

  /** The chosen parts, one after another. */
  function LeavesOf(parts: seq<seq<UsedLeaf>>, idx: seq<nat>): seq<UsedLeaf>
    requires forall k :: 0 <= k < |idx| ==> idx[k] < |parts|
  {
    if idx == [] then [] else LeavesOf(parts, idx[..|idx| - 1]) + parts[idx[|idx| - 1]]
  }

  function Parts<F>(children: seq<Child<F>>): (parts: seq<seq<UsedLeaf>>)
    ensures |parts| == |children| && forall i :: 0 <= i < |children| ==> parts[i] == children[i].leaves
  {
    seq(|children|, i requires 0 <= i < |children| => children[i].leaves)
  }

  function LeavesAt<F>(children: seq<Child<F>>, idx: seq<nat>): seq<UsedLeaf>
    requires forall k :: 0 <= k < |idx| ==> idx[k] < |children|
  {
    LeavesOf(Parts(children), idx)
  }

  // ---- taking the chosen children out -------------------------------------------

  /** Shares and leaves of the given children, in order. */
  method FlattenChildren<F>(children: seq<Child<F>>) returns (shares: seq<seq<F>>, leaves: seq<UsedLeaf>)
    ensures shares == SharesAt(children, Range(|children|)) && leaves == LeavesAt(children, Range(|children|))
  {
    shares, leaves := [], [];
    for i := 0 to |children|
      invariant |shares| == i && forall k :: 0 <= k < i ==> shares[k] == children[k].share
      invariant leaves == LeavesAt(children, Range(i))
    {
      shares, leaves := shares + [children[i].share], leaves + children[i].leaves;
      assert Range(i + 1)[..i] == Range(i);
    }
  }

  function Range(n: nat): (r: seq<nat>)
    ensures |r| == n && forall i :: 0 <= i < n ==> r[i] == i
  {
    seq(n, i requires 0 <= i => i)
  }

  lemma {:induction false} LeavesOfPicked<F>(all: seq<Child<F>>, idx: seq<nat>, picked: seq<Child<F>>, n: nat)
    requires n <= |idx| == |picked|
    requires forall k :: 0 <= k < |idx| ==> idx[k] < |all| && picked[k] == all[idx[k]]
    ensures LeavesAt(picked, Range(n)) == LeavesAt(all, idx[..n])
  {
    if n > 0 {
      LeavesOfPicked(all, idx, picked, n - 1);
      assert Range(n)[..n - 1] == Range(n - 1) && idx[..n][..n - 1] == idx[..n - 1];
    }
  }

  /** Take the element at `i` out, moving the last one into its place. */
  function SwapRemove<T>(s: seq<T>, i: nat): (r: seq<T>)
    requires i < |s|
    ensures |r| == |s| - 1 && r[..i] == s[..i]
  {
    s[i := s[|s| - 1]][..|s| - 1]
  }

  /**
   Remove the chosen children one by one, from the highest index down, moving
   the last child into each hole; what comes out is nevertheless exactly the
   children that stood at the chosen indexes, in order.
   */
  method PickIndexed<T>(children: seq<T>, idx: seq<nat>) returns (picked: seq<T>)
    requires IsCombination(idx, |children|)
    ensures |picked| == |idx| && forall k :: 0 <= k < |idx| ==> picked[k] == children[idx[k]]
  {
    var rest := children;
    ghost var bound: nat := |children|;
    picked := [];
    var k := |idx|;
    while k > 0
      invariant 0 <= k <= |idx| && |picked| == |idx| - k
      invariant forall l :: 0 <= l < |picked| ==> picked[l] == children[idx[k + l]]
      invariant bound <= |children| && bound <= |rest| && rest[..bound] == children[..bound]
      invariant forall l :: 0 <= l < k ==> idx[l] < bound
    {
      k := k - 1;
      var i := idx[k];
      assert rest[i] == rest[..bound][i] == children[i];
      picked := [rest[i]] + picked;
      assert rest[..i] == rest[..bound][..i] == children[..i];
      rest := SwapRemove(rest, i);
      bound := i;
    }
  }

  method TakeIndexed<F>(children: seq<Child<F>>, idx: seq<nat>) returns (shares: seq<seq<F>>, leaves: seq<UsedLeaf>)
    requires IsCombination(idx, |children|)
    ensures shares == SharesAt(children, idx) && leaves == LeavesAt(children, idx)
  {
    var picked := PickIndexed(children, idx);
    LeavesOfPicked(children, idx, picked, |idx|);
    assert idx[..|idx|] == idx;
    shares, leaves := FlattenChildren(picked);
  }

  // ---- the search ---------------------------------------------------------------

  ghost predicate Candidate(c: seq<nat>, n: nat, t: nat) {
    |c| == t && IsCombination(c, n)
  }

  /** The combinations that come before `now`. */
  ghost function Before(n: nat, t: nat, now: seq<nat>): set<seq<nat>> {
    set c | c in Combinations(n, t) && LexLess(c, now)
  }

  /** The walk comes to this combination before it gives up. */
  ghost predicate Reached(c: seq<nat>, n: nat, t: nat) {
    Candidate(c, n, t) && |Before(n, t, c)| < SEARCH_LIMIT
  }

  method GatherLeaves<F>(children: seq<Child<F>>, indexes: array<nat>) returns (leaves: seq<UsedLeaf>)
    requires IsCombination(indexes[..], |children|)
    ensures leaves == LeavesAt(children, indexes[..])
  {
    leaves := [];
    for k := 0 to indexes.Length
      invariant leaves == LeavesAt(children, indexes[..k])
    {
      leaves := leaves + children[indexes[k]].leaves;
      assert indexes[..k + 1][..k] == indexes[..k];
    }
    assert indexes[..indexes.Length] == indexes[..];
  }

  /** The best acceptable combination so far, its device count, and whether custody refused one. */
  datatype Progress = Progress(best: Option<seq<nat>>, devices: nat, sawCustody: bool)

  /** Refused by the hardware-mode rule alone. */
  predicate CustodyRefuses(p: Policy, leaves: seq<UsedLeaf>) {
    leaves != [] && !AnyGhost(p, leaves) && !Acceptable(p, leaves)
  }

  /** A combination short of the minimum was unacceptable or is no better than the best one. */
  ghost predicate Judged(p: Policy, leaves: seq<UsedLeaf>, g: Progress) {
    && (Acceptable(p, leaves) ==> g.best.Some? && DeviceCount(p, leaves) <= g.devices && DeviceCount(p, leaves) < p.minimum)
    && (CustodyRefuses(p, leaves) ==> g.sawCustody)
  }

  ghost predicate Sound<F>(p: Policy, children: seq<Child<F>>, t: nat, g: Progress) {
    && (g.best.Some? ==>
         && Reached(g.best.value, |children|, t) && Acceptable(p, LeavesAt(children, g.best.value))
         && g.devices == DeviceCount(p, LeavesAt(children, g.best.value)) < p.minimum
         && forall c :: Candidate(c, |children|, t) && LexLess(c, g.best.value) && Acceptable(p, LeavesAt(children, c)) ==>
              DeviceCount(p, LeavesAt(children, c)) < g.devices)
    && (g.sawCustody ==> exists c :: Reached(c, |children|, t) && CustodyRefuses(p, LeavesAt(children, c)))
  }

  /** Every combination before `now` has been judged. */
  ghost predicate JudgedBefore<F>(p: Policy, children: seq<Child<F>>, t: nat, now: seq<nat>, g: Progress) {
    forall c :: Candidate(c, |children|, t) && LexLess(c, now) ==> Judged(p, LeavesAt(children, c), g)
  }

  ghost predicate AllJudged<F>(p: Policy, children: seq<Child<F>>, t: nat, g: Progress) {
    forall c :: Reached(c, |children|, t) ==> Judged(p, LeavesAt(children, c), g)
  }

  function Note(p: Policy, g: Progress, idx: seq<nat>, leaves: seq<UsedLeaf>): Progress {
    if Acceptable(p, leaves) then
      if g.best.None? || DeviceCount(p, leaves) > g.devices
      then g.(best := Some(idx), devices := DeviceCount(p, leaves)) else g
    else if CustodyRefuses(p, leaves) then g.(sawCustody := true)
    else g
  }

  lemma NoteJudges<F>(p: Policy, children: seq<Child<F>>, t: nat, now: seq<nat>, g: Progress)
    requires Reached(now, |children|, t) && Sound(p, children, t, g) && JudgedBefore(p, children, t, now, g)
    requires Acceptable(p, LeavesAt(children, now)) ==> DeviceCount(p, LeavesAt(children, now)) < p.minimum
    ensures
      var h := Note(p, g, now, LeavesAt(children, now));
      Sound(p, children, t, h) && JudgedBefore(p, children, t, now, h) && Judged(p, LeavesAt(children, now), h)
  {
  }

  lemma JudgedNext<F>(p: Policy, children: seq<Child<F>>, t: nat, now: seq<nat>, next: seq<nat>, g: Progress)
    requires Candidate(now, |children|, t) && Successor(now, next, |children|)
    requires JudgedBefore(p, children, t, now, g) && Judged(p, LeavesAt(children, now), g)
    ensures JudgedBefore(p, children, t, next, g)
  {
    forall c | Candidate(c, |children|, t) && LexLess(c, next)
      ensures Judged(p, LeavesAt(children, c), g)
    {
      LexTotal(c, now);
      if LexLess(now, c) {
        LexAsymmetric(c, next);
        assert false;
      }
    }
  }

  lemma BeforeNext(n: nat, t: nat, now: seq<nat>, next: seq<nat>)
    requires Candidate(now, n, t) && Successor(now, next, n)
    ensures |Before(n, t, next)| == |Before(n, t, now)| + 1
  {
    CombinationsAreAll(n, t, now);
    forall c
      ensures c in Before(n, t, next) <==> c in Before(n, t, now) || c == now
    {
      CombinationsAreAll(n, t, c);
      if c in Before(n, t, next) {
        LexTotal(c, now);
        LexAsymmetric(c, next);
      } else if c in Before(n, t, now) {
        LexTransitive(c, now, next);
      }
    }
    assert now !in Before(n, t, now) by {
      if LexLess(now, now) { LexAsymmetric(now, now); }
    }
    assert Before(n, t, next) == Before(n, t, now) + {now};
  }

  lemma BeforeBound(n: nat, t: nat, now: seq<nat>)
    requires Candidate(now, n, t)
    ensures |Before(n, t, now)| + 1 <= Binomial(n, t)
  {
    CombinationsAreAll(n, t, now);
    CombinationCount(n, t);
    assert now !in Before(n, t, now) by {
      if LexLess(now, now) { LexAsymmetric(now, now); }
    }
    SubsetSize(Before(n, t, now) + {now}, Combinations(n, t));
  }

  /** With no more combinations than the limit the walk comes to all of them. */
  lemma AllReached(n: nat, t: nat, c: seq<nat>)
    requires Binomial(n, t) <= SEARCH_LIMIT
    ensures Reached(c, n, t) <==> Candidate(c, n, t)
  {
    if Candidate(c, n, t) {
      BeforeBound(n, t, c);
    }
  }

  /** Where the walk gives up, everything it was to come to lies behind it. */
  lemma ReachedIsBehind(n: nat, t: nat, now: seq<nat>, c: seq<nat>)
    requires Candidate(now, n, t) && |Before(n, t, now)| >= SEARCH_LIMIT && Reached(c, n, t)
    ensures LexLess(c, now)
  {
    LexTotal(c, now);
    if LexLess(now, c) {
      forall e | e in Before(n, t, now)
        ensures e in Before(n, t, c)
      {
        LexTransitive(e, now, c);
      }
      SubsetSize(Before(n, t, now), Before(n, t, c));
    }
  }

  lemma FirstIsLeast(n: nat, t: nat)
    requires t <= n
    ensures Candidate(Range(t), n, t)
    ensures forall c :: Candidate(c, n, t) ==> !LexLess(c, Range(t))
    ensures Before(n, t, Range(t)) == {}
  {
    forall c | Candidate(c, n, t)
      ensures !LexLess(c, Range(t))
    {
      forall j | 0 <= j < t ensures Range(t)[j] <= c[j] { GrowsFrom(c, 0, j); }
      PointwiseAtLeast(Range(t), c);
      if c != Range(t) { LexAsymmetric(Range(t), c); }
    }
    forall c ensures c !in Before(n, t, Range(t)) { CombinationsAreAll(n, t, c); }
  }

  /** The first `threshold` children, with no policy to satisfy. */
  method TakeFirst<F>(threshold: nat, children: seq<Child<F>>) returns (shares: seq<seq<F>>, leaves: seq<UsedLeaf>)
    requires threshold <= |children|
    ensures shares == SharesAt(children, Range(threshold)) && leaves == LeavesAt(children, Range(threshold))
  {
    LeavesOfPicked(children, Range(threshold), children[..threshold], threshold);
    assert Range(threshold)[..threshold] == Range(threshold);
    shares, leaves := FlattenChildren(children[..threshold]);
  }

  /** One acceptable choice is preferred: the first with enough devices, or else the first with the most. */
  ghost predicate Preferred(p: Policy, parts: seq<seq<UsedLeaf>>, c: seq<nat>, d: seq<nat>)
    requires IsCombination(c, |parts|) && IsCombination(d, |parts|)
  {
    var (m, n) := (DeviceCount(p, LeavesOf(parts, c)), DeviceCount(p, LeavesOf(parts, d)));
    if m >= p.minimum then n >= p.minimum ==> c == d || LexLess(c, d)
    else n < m || (n == m && (c == d || LexLess(c, d)))
  }

  /** The choice to make: preferred to every other acceptable one that the walk comes to. */
  ghost predicate Wins(p: Policy, t: nat, parts: seq<seq<UsedLeaf>>, c: seq<nat>) {
    && Reached(c, |parts|, t) && Acceptable(p, LeavesOf(parts, c))
    && forall d :: Reached(d, |parts|, t) && Acceptable(p, LeavesOf(parts, d)) ==> Preferred(p, parts, c, d)
  }

  lemma WinsOnce(p: Policy, t: nat, parts: seq<seq<UsedLeaf>>, c: seq<nat>, d: seq<nat>)
    requires Wins(p, t, parts, c) && Wins(p, t, parts, d)
    ensures c == d
  {
    assert Preferred(p, parts, c, d) && Preferred(p, parts, d, c);
    if c != d {
      if LexLess(c, d) { LexAsymmetric(c, d); }
      if LexLess(d, c) { LexAsymmetric(d, c); }
    }
  }

  /**
   What the search guarantees, of the combinations it comes to: the winner comes
   out, exactly when some combination is acceptable; a refusal names custody
   exactly when custody refused one.
   */
  ghost predicate Settled<F>(p: Policy, t: nat, children: seq<Child<F>>, r: Result<seq<nat>>)
    requires r.Ok? ==> Candidate(r.value, |children|, t)
  {
    && (r.Ok? ==> Wins(p, t, Parts(children), r.value))
    && (r.Ok? <==> exists c :: Reached(c, |children|, t) && Acceptable(p, LeavesAt(children, c)))
    && (r.Err? ==>
         (r.error == CustodyViolation <==> exists c :: Reached(c, |children|, t) && CustodyRefuses(p, LeavesAt(children, c))))
  }

  lemma Settles<F>(p: Policy, children: seq<Child<F>>, t: nat, g: Progress)
    requires Sound(p, children, t, g) && AllJudged(p, children, t, g)
    ensures Settled(p, t, children, Outcome(g))
  {
    if g.best.Some? {
      var c := g.best.value;
      forall d | Reached(d, |children|, t) && Acceptable(p, LeavesAt(children, d))
        ensures Preferred(p, Parts(children), c, d)
      {
        assert Judged(p, LeavesAt(children, d), g);
        LexTotal(c, d);
      }
    }
  }

  /** The first acceptable combination with enough devices wins. */
  lemma EnoughWins<F>(p: Policy, children: seq<Child<F>>, t: nat, now: seq<nat>, g: Progress)
    requires Reached(now, |children|, t) && JudgedBefore(p, children, t, now, g)
    requires Acceptable(p, LeavesAt(children, now)) && DeviceCount(p, LeavesAt(children, now)) >= p.minimum
    ensures Settled(p, t, children, Ok(now))
  {
    forall d | Reached(d, |children|, t) && Acceptable(p, LeavesAt(children, d))
      ensures Preferred(p, Parts(children), now, d)
    {
      LexTotal(now, d);
      if LexLess(d, now) {
        assert Judged(p, LeavesAt(children, d), g);
      }
    }
  }

  function Outcome(g: Progress): Result<seq<nat>> {
    if g.best.Some? then Ok(g.best.value)
    else Err(if g.sawCustody then CustodyViolation else QuorumNotMet)
  }

  /** One combination: either it meets the minimum, or it is noted. */
  method Examine<F>(p: Policy, children: seq<Child<F>>, indexes: array<nat>, g: Progress)
    returns (enough: bool, h: Progress)
    requires IsCombination(indexes[..], |children|)
    ensures enough <==>
      Acceptable(p, LeavesAt(children, indexes[..])) && DeviceCount(p, LeavesAt(children, indexes[..])) >= p.minimum
    ensures !enough ==> h == Note(p, g, indexes[..], LeavesAt(children, indexes[..]))
  {
    h := g;
    var leaves := GatherLeaves(children, indexes);
    var groups := ClassifyDevices(p, leaves);
    enough := groups.Ok? && |groups.value| >= p.minimum;
    if groups.Ok? {
      if g.best.None? || |groups.value| > g.devices {
        h := h.(best := Some(indexes[..]), devices := |groups.value|);
      }
    } else if groups.error == CustodyViolation {
      h := h.(sawCustody := true);
    }
  }

  method Search<F>(p: Policy, threshold: nat, children: seq<Child<F>>) returns (r: Result<seq<nat>>)
    requires 1 <= threshold <= |children|
    ensures r.Ok? ==> Candidate(r.value, |children|, threshold) && Acceptable(p, LeavesAt(children, r.value))
    ensures r.Err? ==> r.error == CustodyViolation || r.error == QuorumNotMet
    ensures Settled(p, threshold, children, r)
  {
    var n := |children|;
    var indexes := new nat[threshold](i => i);
    assert indexes[..] == Range(threshold);
    FirstIsLeast(n, threshold);
    var examined := 0;
    var g := Progress(None, 0, false);
    while true
      invariant Candidate(indexes[..], n, threshold)
      invariant Sound(p, children, threshold, g) && JudgedBefore(p, children, threshold, indexes[..], g)
      invariant examined == |Before(n, threshold, indexes[..])|
      decreases Binomial(n, threshold) - examined
    {
      ghost var now := indexes[..];
      BeforeBound(n, threshold, now);
      examined := examined + 1;
      if examined > SEARCH_LIMIT {
        forall c | Reached(c, n, threshold) ensures LexLess(c, now) { ReachedIsBehind(n, threshold, now, c); }
        Settles(p, children, threshold, g);
        return Outcome(g);
      }
      var enough, h := Examine(p, children, indexes, g);
      if enough {
        EnoughWins(p, children, threshold, now, g);
        return Ok(indexes[..]);
      }
      NoteJudges(p, children, threshold, now, g);
      g := h;
      var more := NextCombination(indexes, n);
      if !more {
        assert AllJudged(p, children, threshold, g);
        Settles(p, children, threshold, g);
        return Outcome(g);
      }
      JudgedNext(p, children, threshold, now, indexes[..], g);
      BeforeNext(n, threshold, now, indexes[..]);
    }
  }

  /**
   Pick `threshold` of the resolved children. `chosen` are their positions; the
   result is the chosen children's shares and leaves, in order.
   */
  method SelectChildSubset<F>(policy: Option<Policy>, threshold: nat, children: seq<Child<F>>)
    returns (r: Result<(seq<seq<F>>, seq<UsedLeaf>)>, ghost chosen: seq<nat>)
    ensures r.Ok? ==>
      && threshold >= 1 && Candidate(chosen, |children|, threshold)
      && r.value == (SharesAt(children, chosen), LeavesAt(children, chosen))
    ensures policy.None? ==> (r.Ok? <==> 1 <= threshold <= |children|)
    ensures policy.None? && r.Ok? ==> chosen == Range(threshold)
    ensures policy.Some? && r.Ok? ==> Acceptable(policy.value, LeavesAt(children, chosen))
    ensures policy.Some? && 1 <= threshold <= |children| ==>
      Settled(policy.value, threshold, children, if r.Ok? then Ok(chosen) else Err(r.error))
  {
    chosen := [];
    if threshold == 0 || |children| < threshold {
      return Err(QuorumNotMet), chosen;
    }
    if policy.None? {
      var shares, leaves := TakeFirst(threshold, children);
      return Ok((shares, leaves)), Range(threshold);
    }
    var found := Search(policy.value, threshold, children);
    if found.Err? {
      return Err(found.error), chosen;
    }
    var shares, leaves := TakeIndexed(children, found.value);
    return Ok((shares, leaves)), found.value;
  }
}
