/** Runs of restructuring: what every sequence of deliveries and commits keeps in one store. */
module OrgRuns {
  import opened Results
  import opened Labels
  import opened PublicTrees
  import opened Merge
  import opened OrgUpdate

  // ---- one store over time -----------------------------------------------------------------------------

  /** What can happen to a store: deliveries, commits of its own plans, pulls, and changes of known keys. */
  datatype Event =
    | Deliver(envelope: Envelope, key: nat)
    | Commit(directory: map<string, seq<nat>>, plan: Plan)
    | CommitCountersigned(directory: map<string, seq<nat>>, countersigning: Countersigning)
    | Pull(snapshot: PublicTree<string>)
    | Rekey(signing: map<string, seq<nat>>, encryption: map<string, seq<nat>>)

  /** Plans are committed as they were made. */
  ghost predicate AsPlanned(e: Event) {
    && (e.Commit? ==> Signed(e.directory, e.plan))
    && (e.CommitCountersigned? ==> Backed(e.directory, e.countersigning))
  }

  /** The event only asks for a countersignature. */
  ghost predicate OnlyProposes(e: Event) {
    (e.Deliver? && e.envelope.Proposal?) || (e.Commit? && e.plan.parent.Some?)
  }

  /** What one event may do to the trees, and on whose authority. */
  ghost predicate Proper<S(!new)>(s: State<S>, e: Event, after: State<S>, why: Option<Applied>) {
    && Valid(after)
    && (forall t :: Generation(s, t) <= Generation(after, t))
    && (OnlyProposes(e) ==> why.None?)
    && (why.None? && !e.Pull? ==> after.trees == s.trees)
    && (why.None? ==> after.log == s.log)
    && (why.Some? ==>
          var a := why.value;
          && Lawful(a)
          && Generation(s, TreeOf(a)) < GenerationOf(a) == Generation(after, TreeOf(a))
          && (forall t :: t != TreeOf(a) ==> (t in after.trees <==> t in s.trees))
          && (forall t :: t != TreeOf(a) && t in s.trees ==> after.trees[t] == s.trees[t])
          && after.log == s.log + {(TreeOf(a), GenerationOf(a))})
  }

  /** What one event does: it takes effect exactly under its conditions, and otherwise nothing changes. */
  ghost predicate Happened<S(!new)>(s: State<S>, e: Event, after: State<S>) {
    match e
    case Deliver(envelope, key) => Delivered(s, envelope, key, after)
    case Commit(_, p) => Committed(s, p, after)
    case CommitCountersigned(_, c) =>
      if c.matter.tree in s.trees && s.trees[c.matter.tree].generation == c.previous
      then Advanced(s, c.matter.tree, c.matter.generation, after) && after.pending == NotWaiting(s.pending, c.matter.tree)
      else after == s
    case Pull(snapshot) =>
      if Acceptable(TreeFor(s, snapshot.name), snapshot)
      then
        && snapshot.name in after.trees && after == s.(trees := s.trees[snapshot.name := after.trees[snapshot.name]])
        && Took(TreeFor(s, snapshot.name), snapshot, after.trees[snapshot.name])
      else after == s
    case Rekey(signing, encryption) => after == s.(signing := signing, encryption := encryption)
  }

  ghost predicate Delivered<S(!new)>(s: State<S>, envelope: Envelope, key: nat, after: State<S>) {
    match envelope
    case Update(letter, sig) =>
      if Verified(s, letter, sig, key) && ParentNodeLabel(letter.authorizer).None? && Takeable(s, letter, key)
      then TookLetter(s, letter, after) && after.pending == s.pending
      else after == s
    case Proposal(letter, sig) =>
      if Verified(s, letter, sig, key) && ParentNodeLabel(letter.authorizer).Some?
         && Generation(s, letter.tree) < letter.generation && !Filed(s.pending, letter, sig)
      then after == s.(pending := s.pending + [FiledAs(letter.tree in s.trees, letter, sig)])
      else after == s
    case Countersigned(countersigner, countersig, letter, sig) =>
      if SignedBy(s.signing, countersigner, countersig, ProposalSeen(letter, sig, countersigner, key))
         && ParentNodeLabel(letter.authorizer) == Some(countersigner)
         && Verified(s, letter, sig, key) && Takeable(s, letter, key)
      then TookLetter(s, letter, after) && after.pending == Unfiled(s.pending, letter, sig)
      else after == s
  }

  ghost predicate Committed<S(!new)>(s: State<S>, p: Plan, after: State<S>) {
    if p.parent.None? then
      if p.tree in s.trees && s.trees[p.tree].generation == p.previous
      then Advanced(s, p.tree, p.generation, after) && after.pending == s.pending
      else after == s
    else if Unheard(s.pending, p.letters) then
      && after == s.(pending := after.pending)
      && s.pending <= after.pending && |after.pending| == |s.pending| + |p.letters|
      && forall i :: 0 <= i < |p.letters| ==> WaitsFor(p.tree in s.trees, p.letters[i], after.pending[|s.pending| + i])
    else after == s
  }

  lemma TookIsProper<S(!new)>(s: State<S>, e: Event, letter: Letter, after: State<S>, a: Applied)
    requires Valid(after) && TookLetter(s, letter, after) && Generation(s, letter.tree) < letter.generation
    requires Lawful(a) && TreeOf(a) == letter.tree && GenerationOf(a) == letter.generation && !OnlyProposes(e)
    ensures Proper(s, e, after, Some(a))
  {
    hide Valid, Lawful, Took, Grounded;
  }

  lemma AdvancedIsProper<S(!new)>(s: State<S>, e: Event, tree: string, generation: nat, after: State<S>, a: Applied)
    requires Valid(after) && Advanced(s, tree, generation, after)
    requires Lawful(a) && TreeOf(a) == tree && GenerationOf(a) == generation && !OnlyProposes(e)
    ensures Proper(s, e, after, Some(a))
  {
    hide Valid, Lawful;
  }

  method DeliverEnvelope<S(==, !new)>(s: State<S>, envelope: Envelope, key: nat) returns (after: State<S>, ghost why: Option<Applied>)
    requires Valid(s)
    ensures Valid(after) && forall t :: Generation(s, t) <= Generation(after, t)
    ensures Proper(s, Deliver(envelope, key), after, why) && Delivered(s, envelope, key, after)
  {
    hide Valid, Lawful, TookLetter, Verified;
    ghost var e := Deliver(envelope, key);
    after, why := s, None;
    match envelope {
      case Update(letter, sig) =>
        var r, a := ImportTreeUpdate(s, letter, sig, key);
        if r.Ok? {
          TookIsProper(s, e, letter, r.value, a);
          after, why := r.value, Some(a);
        }
      case Proposal(letter, sig) =>
        var r := ImportTreeProposal(s, letter, sig, key);
        if r.Ok? {
          after := r.value;
        }
      case Countersigned(countersigner, countersig, letter, sig) =>
        var r, a := ImportCountersigned(s, countersigner, countersig, letter, sig, key);
        if r.Ok? {
          TookIsProper(s, e, letter, r.value, a);
          after, why := r.value, Some(a);
        }
    }
  }

  /** Take a published tree as it is; the generation may stay but not go back. */
  method PullTree<S(==, !new)>(s: State<S>, snapshot: PublicTree<string>) returns (after: State<S>)
    requires Valid(s)
    ensures Proper(s, Pull(snapshot), after, None) && Happened(s, Pull(snapshot), after)
  {
    hide Grounded, Acceptable, Took, Lawful, Consistent;
    EmptyGrounded<S>();
    var r := ApplyPublicTree(TreeFor(s, snapshot.name), snapshot);
    if r.Err? {
      return s;
    }
    TookBasics(TreeFor(s, snapshot.name), snapshot, r.value);
    after := s.(trees := s.trees[snapshot.name := r.value]);
  }

  /** One event, whatever it is. */
  method Step<S(==, !new)>(s: State<S>, e: Event) returns (after: State<S>, ghost why: Option<Applied>)
    requires Valid(s) && AsPlanned(e)
    ensures Valid(after) && forall t :: Generation(s, t) <= Generation(after, t)
    ensures Proper(s, e, after, why) && Happened(s, e, after)
  {
    after, why := s, None;
    match e {
      case Deliver(envelope, key) =>
        after, why := DeliverEnvelope(s, envelope, key);
      case Commit(directory, p) =>
        after, why := CommitPlan(s, directory, p);
      case CommitCountersigned(directory, c) =>
        after, why := CommitBoth(s, directory, c);
      case Pull(snapshot) =>
        after := PullTree(s, snapshot);
      case Rekey(signing, encryption) =>
        after := s.(signing := signing, encryption := encryption);
    }
  }

  method CommitPlan<S(==, !new)>(s: State<S>, directory: map<string, seq<nat>>, p: Plan) returns (after: State<S>, ghost why: Option<Applied>)
    requires Valid(s) && Signed(directory, p)
    ensures Valid(after) && forall t :: Generation(s, t) <= Generation(after, t)
    ensures Proper(s, Commit(directory, p), after, why) && Committed(s, p, after)
  {
    ghost var a := OwnPlan(directory, p);
    if p.parent.None? {
      SignedIsLawful(directory, p);
    }
    hide Valid, Lawful, Advanced, Signed;
    after, why := s, None;
    var r := CommitRestructure(s, directory, p);
    if r.Ok? {
      after := r.value;
      if p.parent.None? {
        AdvancedIsProper(s, Commit(directory, p), p.tree, p.generation, after, a);
        why := Some(a);
      }
    }
  }

  method CommitBoth<S(==, !new)>(s: State<S>, directory: map<string, seq<nat>>, c: Countersigning)
    returns (after: State<S>, ghost why: Option<Applied>)
    requires Valid(s) && Backed(directory, c)
    ensures Valid(after) && forall t :: Generation(s, t) <= Generation(after, t)
    ensures Proper(s, CommitCountersigned(directory, c), after, why) && Happened(s, CommitCountersigned(directory, c), after)
  {
    ghost var a := OwnCountersigning(directory, c);
    BackedIsLawful(directory, c);
    hide Valid, Lawful, Advanced, Backed;
    after, why := s, None;
    var r := CommitCountersign(s, directory, c);
    if r.Ok? {
      after := r.value;
      AdvancedIsProper(s, CommitCountersigned(directory, c), c.matter.tree, c.matter.generation, after, a);
      why := Some(a);
    }
  }

  // ---- whole runs ------------------------------------------------------------------------------------------

  /** Everything applied was lawful, is in the log, and rose strictly tree by tree. */
  ghost predicate Told<S(!new)>(s: State<S>, history: seq<Applied>) {
    && (forall i :: 0 <= i < |history| ==>
          && Lawful(history[i])
          && GenerationOf(history[i]) <= Generation(s, TreeOf(history[i]))
          && (TreeOf(history[i]), GenerationOf(history[i])) in s.log)
    && (forall i, j :: 0 <= i < j < |history| && TreeOf(history[i]) == TreeOf(history[j]) ==>
          GenerationOf(history[i]) < GenerationOf(history[j]))
  }

  function Recorded(history: seq<Applied>, why: Option<Applied>): seq<Applied> {
    if why.Some? then history + [why.value] else history
  }

  lemma ToldFurther<S(!new)>(s: State<S>, e: Event, after: State<S>, why: Option<Applied>, history: seq<Applied>)
    requires Told(s, history) && Proper(s, e, after, why)
    ensures Told(after, Recorded(history, why))
  {
    hide Lawful, Valid;
  }

  /** A store that keeps, for the record, everything that took effect in it. */
  class Store<S(==, !new)> {
    var s: State<S>
    ghost var history: seq<Applied>

    ghost predicate Sane()
      reads this
    {
      Valid(s) && Told(s, history)
    }

    constructor (start: State<S>)
      requires Valid(start)
      ensures Sane() && s == start && history == []
    {
      s, history := start, [];
    }

    method Execute(e: Event)
      requires Sane() && AsPlanned(e)
      modifies this
      ensures Sane() && old(history) <= history && Happened(old(s), e, s)
      ensures forall t :: Generation(old(s), t) <= Generation(s, t)
      ensures OnlyProposes(e) ==> s.trees == old(s.trees) && s.log == old(s.log) && history == old(history)
      ensures history == old(history) && !e.Pull? ==> s.trees == old(s.trees)
      ensures history != old(history) ==>
        var a := history[|history| - 1];
        Generation(old(s), TreeOf(a)) < GenerationOf(a) == Generation(s, TreeOf(a))
    {
      var after, why := Step(s, e);
      ToldFurther(s, e, after, why, history);
      hide Told, Lawful, Valid, Happened;
      s := after;
      history := Recorded(history, why);
    }

    /** Any run: generations never go back, and every restructure that took effect was lawful and newer. */
    method Run(events: seq<Event>) returns (ghost trace: seq<State<S>>)
      requires Sane() && forall i :: 0 <= i < |events| ==> AsPlanned(events[i])
      modifies this
      ensures Sane() && old(history) <= history
      ensures forall t :: Generation(old(s), t) <= Generation(s, t)
      ensures (forall i :: 0 <= i < |events| ==> OnlyProposes(events[i])) ==> s.trees == old(s.trees) && s.log == old(s.log)
      ensures |trace| == |events| + 1 && trace[0] == old(s) && trace[|events|] == s
      ensures forall i :: 0 <= i < |events| ==> Happened(trace[i], events[i], trace[i + 1])
    {
      hide Happened;
      trace := [s];
      for i := 0 to |events|
        invariant Sane() && old(history) <= history
        invariant forall t :: Generation(old(s), t) <= Generation(s, t)
        invariant (forall k :: 0 <= k < i ==> OnlyProposes(events[k])) ==> s.trees == old(s.trees) && s.log == old(s.log)
        invariant |trace| == i + 1 && trace[0] == old(s) && trace[i] == s
        invariant forall k :: 0 <= k < i ==> Happened(trace[k], events[k], trace[k + 1])
      {
        Execute(events[i]);
        trace := trace + [s];
      }
    }
  }
}
