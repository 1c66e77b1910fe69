/**
 Restructuring letters: signed by a root, or proposed by somebody below it
 and countersigned by that person's direct parent. Signatures are symbolic:
 a signature is the key that made it together with what was signed.
 */
module OrgUpdate {
  import opened Results
  import opened Labels
  import opened PublicTrees
  import opened Merge

  /** What one recipient is told: their slice of the tree at a generation. */
  datatype Letter = Letter(tree: string, generation: nat, recipient: string, authorizer: string, slice: PublicTree<string>)

  datatype Statement =
    | LetterFor(letter: Letter, key: nat)
    | ProposalSeen(letter: Letter, sig: Signature, seenBy: string, key: nat)

  datatype Signature = Signature(signer: nat, over: Statement)

  datatype Envelope =
    | Update(letter: Letter, sig: Signature)
    | Proposal(letter: Letter, sig: Signature)
    | Countersigned(countersigner: string, countersig: Signature, letter: Letter, sig: Signature)

  /** A proposal waiting for its countersignature; `keyed` when the tree was known on arrival. */
  datatype Pending = Pending(
    keyed: bool, tree: string, authorizer: string, countersigner: string, generation: nat, letter: Letter, sig: Signature)

  /** One store: its trees, the active keys it knows, waiting proposals and the update log. */
  datatype State<S> = State(
    trees: map<string, Tree<string, S>>, signing: map<string, seq<nat>>, encryption: map<string, seq<nat>>,
    pending: seq<Pending>, log: set<(string, nat)>)

  const FIRST_GENERATION: nat := 1

  ghost predicate Valid<S(!new)>(s: State<S>) {
    && (forall t :: t in s.trees ==> s.trees[t].name == t && Grounded(s.trees[t].rows) && s.trees[t].generation >= FIRST_GENERATION)
    && (forall e :: e in s.log ==> e.0 in s.trees && e.1 <= s.trees[e.0].generation)
    && (forall p :: p in s.pending ==> Consistent(p))
  }

  /** A waiting proposal is filed as its letter says, under its signer's direct parent. */
  predicate Consistent(p: Pending) {
    && p.tree == p.letter.tree && p.authorizer == p.letter.authorizer && p.generation == p.letter.generation
    && ParentNodeLabel(p.authorizer) == Some(p.countersigner)
  }

  function SoleKey(keys: map<string, seq<nat>>, name: string): Option<nat> {
    if name in keys && |keys[name]| == 1 then Some(keys[name][0]) else None
  }

  function Generation<S>(s: State<S>, tree: string): nat {
    if tree in s.trees then s.trees[tree].generation else 0
  }

  // ---- authority --------------------------------------------------------------------------------

  /** The checks on a letter: addressed to a key held here, from above, and signed. */
  predicate Verified<S>(s: State<S>, letter: Letter, sig: Signature, key: nat) {
    && letter.recipient in s.encryption && key in s.encryption[letter.recipient]
    && IsAncestorOrSelf(letter.authorizer, letter.recipient)
    && SoleKey(s.signing, letter.authorizer).Some?
    && sig == Signature(SoleKey(s.signing, letter.authorizer).value, LetterFor(letter, key))
  }

  lemma SoleKeyExactly(keys: map<string, seq<nat>>, name: string, key: nat)
    ensures SoleKey(keys, name) == Some(key) <==> name in keys && keys[name] == [key]
  {
  }

  /**
   Who stood behind a restructure that took effect: a letter that came in, or
   a plan or countersigning made here. `directory` holds the active signing
   keys the store knew when the signatures were checked or made.
   */
  datatype Applied =
    | ByRoot(directory: map<string, seq<nat>>, letter: Letter, key: nat, sig: Signature)
    | ByParent(directory: map<string, seq<nat>>, letter: Letter, key: nat, sig: Signature,
               countersigner: string, countersig: Signature)
    | OwnPlan(directory: map<string, seq<nat>>, plan: Plan)
    | OwnCountersigning(directory: map<string, seq<nat>>, countersigning: Countersigning)

  function TreeOf(a: Applied): string {
    match a
    case ByRoot(_, letter, _, _) => letter.tree
    case ByParent(_, letter, _, _, _, _) => letter.tree
    case OwnPlan(_, p) => p.tree
    case OwnCountersigning(_, c) => c.matter.tree
  }

  function GenerationOf(a: Applied): nat {
    match a
    case ByRoot(_, letter, _, _) => letter.generation
    case ByParent(_, letter, _, _, _, _) => letter.generation
    case OwnPlan(_, p) => p.generation
    case OwnCountersigning(_, c) => c.matter.generation
  }

  /** The signature was made with the one active key of this label. */
  predicate SignedBy(directory: map<string, seq<nat>>, name: string, sig: Signature, over: Statement) {
    SoleKey(directory, name) == Some(sig.signer) && sig.over == over
  }

  /** The signer is reached by going up from the recipient, and signed this letter for this recipient key. */
  ghost predicate FromAbove(directory: map<string, seq<nat>>, letter: Letter, key: nat, sig: Signature) {
    && (exists n: nat :: ParentAfter(letter.recipient, n) == Some(letter.authorizer))
    && SignedBy(directory, letter.authorizer, sig, LetterFor(letter, key))
  }

  /** A signer with nothing above. */
  ghost predicate RootAuthority(directory: map<string, seq<nat>>, letter: Letter, key: nat, sig: Signature) {
    FromAbove(directory, letter, key, sig) && ParentNodeLabel(letter.authorizer).None?
  }

  /** A signer and the label one step further up, over the same letter, signature and recipient key. */
  ghost predicate ParentAuthority(
    directory: map<string, seq<nat>>, letter: Letter, key: nat, sig: Signature, countersigner: string, countersig: Signature) {
    && FromAbove(directory, letter, key, sig)
    && ParentNodeLabel(letter.authorizer) == Some(countersigner)
    && SignedBy(directory, countersigner, countersig, ProposalSeen(letter, sig, countersigner, key))
  }

  /**
   Authority by parent steps, for what came in and for what was sent out from
   here alike: every letter concerned has a root's signature, or its signer's
   and that of the signer's direct parent.
   */
  ghost predicate Lawful(a: Applied) {
    match a
    case ByRoot(directory, letter, key, sig) =>
      RootAuthority(directory, letter, key, sig)
    case ByParent(directory, letter, key, sig, countersigner, countersig) =>
      ParentAuthority(directory, letter, key, sig, countersigner, countersig)
    case OwnPlan(directory, p) =>
      && ParentNodeLabel(p.authorizer).None? && SoleKey(directory, p.authorizer) == Some(p.signer)
      && forall i :: 0 <= i < |p.letters| ==>
           var (letter, key, sig) := p.letters[i];
           letter.tree == p.tree && letter.generation == p.generation && letter.authorizer == p.authorizer
           && RootAuthority(directory, letter, key, sig)
    case OwnCountersigning(directory, c) =>
      && c.packages != []
      && forall i :: 0 <= i < |c.packages| ==>
           var (envelope, key) := c.packages[i];
           && envelope.Countersigned?
           && envelope.letter.tree == c.matter.tree && envelope.letter.generation == c.matter.generation
           && ParentAuthority(directory, envelope.letter, key, envelope.sig, envelope.countersigner, envelope.countersig)
  }

  lemma VerifiedIsAbove<S>(s: State<S>, letter: Letter, sig: Signature, key: nat)
    requires Verified(s, letter, sig, key)
    ensures exists n: nat :: ParentAfter(letter.recipient, n) == Some(letter.authorizer)
  {
    AncestryIsReachability(letter.authorizer, letter.recipient);
  }

  /** The check passes exactly for a letter to a key held here, from somebody above with one known key, who signed it. */
  lemma VerifiedExactly<S>(s: State<S>, letter: Letter, sig: Signature, key: nat)
    requires IsWellFormed(letter.authorizer) && IsWellFormed(letter.recipient)
    ensures Verified(s, letter, sig, key) <==>
      && letter.recipient in s.encryption && key in s.encryption[letter.recipient]
      && FromAbove(s.signing, letter, key, sig)
  {
    AncestryIsReachability(letter.authorizer, letter.recipient);
    if FromAbove(s.signing, letter, key, sig) {
      var n: nat :| ParentAfter(letter.recipient, n) == Some(letter.authorizer);
      assert exists n: nat :: ParentAfter(letter.recipient, n) == Some(letter.authorizer);
    }
  }

  // ---- taking a letter into the store ---------------------------------------------------------------

  predicate Has(nodes: seq<PublicNode<string>>, name: string, key: nat) {
    exists i :: 0 <= i < |nodes| && nodes[i].name == name && nodes[i].key == Some(key)
      && forall j :: 0 <= j < i ==> nodes[j].name != name
  }

  method FindRecipient(nodes: seq<PublicNode<string>>, name: string, key: nat) returns (found: bool)
    ensures found <==> Has(nodes, name, key)
  {
    for i := 0 to |nodes|
      invariant forall j :: 0 <= j < i ==> nodes[j].name != name
    {
      if nodes[i].name == name {
        return nodes[i].key == Some(key);
      }
    }
    found := false;
  }

  /** What a letter must say to be taken, given the store's generation. */
  ghost predicate Takeable<S(!new)>(s: State<S>, letter: Letter, key: nat) {
    && letter.slice.name == letter.tree && letter.slice.generation == letter.generation
    && Has(letter.slice.nodes, letter.recipient, key)
    && Generation(s, letter.tree) < letter.generation
    && Acceptable(TreeFor(s, letter.tree), letter.slice)
  }

  /** The stored tree, or the empty one a new label starts from. */
  function TreeFor<S>(s: State<S>, tree: string): Tree<string, S> {
    if tree in s.trees then s.trees[tree] else Tree(tree, FIRST_GENERATION, map[], {}, {})
  }

  /** The letter took effect: one tree replaced by its slice, one line in the log. */
  ghost predicate TookLetter<S(!new)>(s: State<S>, letter: Letter, after: State<S>) {
    && letter.tree in after.trees
    && after.trees == s.trees[letter.tree := after.trees[letter.tree]]
    && Took(TreeFor(s, letter.tree), letter.slice, after.trees[letter.tree])
    && after.trees[letter.tree].generation == letter.generation
    && Grounded(after.trees[letter.tree].rows)
    && after.log == s.log + {(letter.tree, letter.generation)}
    && after.signing == s.signing && after.encryption == s.encryption
  }

  lemma EmptyGrounded<S(!new)>()
    ensures var none: map<string, Row<string, S>> := map[]; Grounded(none)
  {
  }

  /** The log can never hold a generation the tree has not reached. */
  lemma NeverLogged<S(!new)>(s: State<S>, tree: string, generation: nat)
    requires Valid(s) && Generation(s, tree) < generation
    ensures (tree, generation) !in s.log
  {
    assert forall e :: e in s.log && e.0 == tree ==> e.1 <= Generation(s, tree);
  }

  /** Merge a verified letter's slice and log it, or change nothing. */
  method TakeLetter<S(==, !new)>(s: State<S>, letter: Letter, key: nat) returns (r: Result<State<S>>)
    requires Valid(s)
    ensures r.Ok? <==> Takeable(s, letter, key)
    ensures r.Ok? ==> TookLetter(s, letter, r.value) && r.value.pending == s.pending && Valid(r.value)
  {
    hide Grounded, Acceptable, Took, Has;
    if letter.slice.name != letter.tree || letter.slice.generation != letter.generation {
      return Err(InvalidUpdatePackage);
    }
    var found := FindRecipient(letter.slice.nodes, letter.recipient, key);
    if !found {
      return Err(UpdateRecipientMismatch);
    }
    if letter.tree in s.trees && letter.generation <= s.trees[letter.tree].generation {
      return Err(StaleUpdate);
    }
    EmptyGrounded<S>();
    var out := ApplyPublicTree(TreeFor(s, letter.tree), letter.slice);
    if out.Err? {
      return Err(out.error);
    }
    TookBasics(TreeFor(s, letter.tree), letter.slice, out.value);
    NeverLogged(s, letter.tree, letter.generation);
    if letter.generation == 0 || (letter.tree, letter.generation) in s.log {
      return Err(StaleUpdate);
    }
    r := Ok(s.(trees := s.trees[letter.tree := out.value], log := s.log + {(letter.tree, letter.generation)}));
  }

  lemma TookBasics<S(!new)>(tree: Tree<string, S>, slice: PublicTree<string>, after: Tree<string, S>)
    requires Took(tree, slice, after) && Acceptable(tree, slice)
    ensures after.name == tree.name && after.generation == slice.generation >= tree.generation
  {
  }

  // ---- the three imports ---------------------------------------------------------------------------

  method ImportTreeUpdate<S(==, !new)>(s: State<S>, letter: Letter, sig: Signature, key: nat)
    returns (r: Result<State<S>>, ghost why: Applied)
    requires Valid(s)
    ensures r.Ok? <==> Verified(s, letter, sig, key) && ParentNodeLabel(letter.authorizer).None? && Takeable(s, letter, key)
    ensures r.Ok? ==> TookLetter(s, letter, r.value) && Valid(r.value) && r.value.pending == s.pending
    ensures r.Ok? ==> why == ByRoot(s.signing, letter, key, sig) && Lawful(why)
  {
    why := ByRoot(s.signing, letter, key, sig);
    if !Verified(s, letter, sig, key) || ParentNodeLabel(letter.authorizer).Some? {
      return Err(UpdateNotAuthorized), why;
    }
    VerifiedIsAbove(s, letter, sig, key);
    hide Takeable, TookLetter, Valid, ParentAfter, IsAncestorOrSelf;
    r := TakeLetter(s, letter, key);
  }

  /** How a letter waits for its countersignature. */
  function FiledAs(keyed: bool, letter: Letter, sig: Signature): Pending
    requires ParentNodeLabel(letter.authorizer).Some?
  {
    Pending(keyed, letter.tree, letter.authorizer, ParentNodeLabel(letter.authorizer).value, letter.generation, letter, sig)
  }

  /** File a proposal. Neither tree nor generation nor log changes. */
  method ImportTreeProposal<S(==, !new)>(s: State<S>, letter: Letter, sig: Signature, key: nat) returns (r: Result<State<S>>)
    requires Valid(s)
    ensures r.Ok? <==>
      && Verified(s, letter, sig, key) && ParentNodeLabel(letter.authorizer).Some?
      && Generation(s, letter.tree) < letter.generation && !Filed(s.pending, letter, sig)
    ensures r.Ok? ==> r.value == s.(pending := s.pending + [FiledAs(letter.tree in s.trees, letter, sig)]) && Valid(r.value)
  {
    if !Verified(s, letter, sig, key) {
      return Err(UpdateNotAuthorized);
    }
    var parent := ParentNodeLabel(letter.authorizer);
    if parent.None? {
      return Err(UpdateNotAuthorized);
    }
    if letter.tree in s.trees && letter.generation <= s.trees[letter.tree].generation {
      return Err(StaleUpdate);
    }
    var row := Pending(letter.tree in s.trees, letter.tree, letter.authorizer, parent.value, letter.generation, letter, sig);
    assert row == FiledAs(letter.tree in s.trees, letter, sig);
    if letter.generation == 0 || Filed(s.pending, letter, sig) {
      return Err(StaleUpdate);
    }
    r := Ok(s.(pending := s.pending + [row]));
  }

  /** The same bytes are already waiting. */
  predicate Filed(pending: seq<Pending>, letter: Letter, sig: Signature) {
    exists i :: 0 <= i < |pending| && pending[i].letter == letter && pending[i].sig == sig
  }

  function Unfiled(pending: seq<Pending>, letter: Letter, sig: Signature): (rest: seq<Pending>)
    ensures forall p :: p in rest <==> p in pending && !(p.letter == letter && p.sig == sig)
  {
    if pending == [] then []
    else
      var rest := Unfiled(pending[1..], letter, sig);
      if pending[0].letter == letter && pending[0].sig == sig then rest else [pending[0]] + rest
  }

  lemma FewerPending<S(!new)>(s: State<S>, rest: seq<Pending>)
    requires Valid(s) && forall p :: p in rest ==> p in s.pending
    ensures Valid(s.(pending := rest))
  {
    hide Grounded, Consistent;
  }

  method ImportCountersigned<S(==, !new)>(
    s: State<S>, countersigner: string, countersig: Signature, letter: Letter, sig: Signature, key: nat)
    returns (r: Result<State<S>>, ghost why: Applied)
    requires Valid(s)
    ensures r.Ok? <==>
      && SignedBy(s.signing, countersigner, countersig, ProposalSeen(letter, sig, countersigner, key))
      && ParentNodeLabel(letter.authorizer) == Some(countersigner)
      && Verified(s, letter, sig, key) && Takeable(s, letter, key)
    ensures r.Ok? ==> TookLetter(s, letter, r.value) && Valid(r.value) && r.value.pending == Unfiled(s.pending, letter, sig)
    ensures r.Ok? ==> why == ByParent(s.signing, letter, key, sig, countersigner, countersig) && Lawful(why)
  {
    why := ByParent(s.signing, letter, key, sig, countersigner, countersig);
    if SoleKey(s.signing, countersigner).None? {
      return Err(UpdateNotAuthorized), why;
    }
    if countersig != Signature(SoleKey(s.signing, countersigner).value, ProposalSeen(letter, sig, countersigner, key)) {
      return Err(UpdateNotAuthorized), why;
    }
    if ParentNodeLabel(letter.authorizer) != Some(countersigner) || !Verified(s, letter, sig, key) {
      return Err(UpdateNotAuthorized), why;
    }
    VerifiedIsAbove(s, letter, sig, key);
    hide Takeable, ParentAfter, IsAncestorOrSelf, Took, Valid;
    r := TakeLetter(s, letter, key);
    if r.Ok? {
      FewerPending(r.value, Unfiled(r.value.pending, letter, sig));
      r := Ok(r.value.(pending := Unfiled(r.value.pending, letter, sig)));
    }
  }

  // ---- announcing from the signer's own store -----------------------------------------------------------

  const LAST_GENERATION: nat := 0xFFFF_FFFF

  /** Letters signed and ready to send; nothing is stored yet. */
  datatype Plan = Plan(
    tree: string, generation: nat, previous: nat, authorizer: string, parent: Option<string>, signer: nat,
    letters: seq<(Letter, nat, Signature)>, skipped: seq<string>)

  /** Every letter of the plan is signed by the plan's signer, whose key is known, to somebody below, for the next generation. */
  ghost predicate Signed(directory: map<string, seq<nat>>, p: Plan) {
    && p.generation == p.previous + 1 && p.parent == ParentNodeLabel(p.authorizer)
    && SoleKey(directory, p.authorizer) == Some(p.signer)
    && forall i :: 0 <= i < |p.letters| ==>
         var (letter, key, sig) := p.letters[i];
         && letter.tree == p.tree && letter.generation == p.generation && letter.authorizer == p.authorizer
         && IsAncestorOrSelf(p.authorizer, letter.recipient)
         && sig == Signature(p.signer, LetterFor(letter, key))
  }

  /** A root's plan is lawful. */
  lemma SignedIsLawful(directory: map<string, seq<nat>>, p: Plan)
    requires Signed(directory, p) && p.parent.None?
    ensures Lawful(OwnPlan(directory, p))
  {
    hide ParentAfter, IsAncestorOrSelf;
    forall i | 0 <= i < |p.letters|
      ensures RootAuthority(directory, p.letters[i].0, p.letters[i].1, p.letters[i].2)
    {
      ReachedAbove(p.authorizer, p.letters[i].0.recipient);
    }
  }

  lemma ReachedAbove(above: string, below: string)
    requires IsAncestorOrSelf(above, below)
    ensures exists n: nat :: ParentAfter(below, n) == Some(above)
  {
    AncestryIsReachability(above, below);
  }

  predicate WaitsFor(keyed: bool, x: (Letter, nat, Signature), row: Pending) {
    row.keyed == keyed && row.letter == x.0 && row.sig == x.2
  }

  /** None of these letters waits already, and none comes twice. */
  ghost predicate Unheard(pending: seq<Pending>, letters: seq<(Letter, nat, Signature)>) {
    && (forall i :: 0 <= i < |letters| ==> !Filed(pending, letters[i].0, letters[i].2))
    && (forall i, j :: 0 <= i < j < |letters| ==> letters[i].0 != letters[j].0 || letters[i].2 != letters[j].2)
  }

  /** File the letters of a plan that needs a countersignature. */
  method FileProposals(pending: seq<Pending>, keyed: bool, p: Plan) returns (r: Result<seq<Pending>>)
    requires p.parent == ParentNodeLabel(p.authorizer) && p.parent.Some? && forall q :: q in pending ==> Consistent(q)
    requires forall i :: 0 <= i < |p.letters| ==>
      p.letters[i].0.tree == p.tree && p.letters[i].0.generation == p.generation && p.letters[i].0.authorizer == p.authorizer
    ensures r.Ok? <==> Unheard(pending, p.letters)
    ensures r.Ok? ==> pending <= r.value && |r.value| == |pending| + |p.letters| && forall q :: q in r.value ==> Consistent(q)
    ensures r.Ok? ==> forall i :: 0 <= i < |p.letters| ==> WaitsFor(keyed, p.letters[i], r.value[|pending| + i])
  {
    var out := pending;
    for i := 0 to |p.letters|
      invariant pending <= out && |out| == |pending| + i && forall q :: q in out ==> Consistent(q)
      invariant forall j :: 0 <= j < i ==> WaitsFor(keyed, p.letters[j], out[|pending| + j])
      invariant Unheard(pending, p.letters[..i])
    {
      var (letter, _, sig) := p.letters[i];
      OneMoreUnheard(pending, p.letters, keyed, i, out);
      if Filed(out, letter, sig) {
        return Err(StaleUpdate);
      }
      out := out + [Pending(keyed, p.tree, p.authorizer, p.parent.value, p.generation, letter, sig)];
    }
    assert p.letters[..|p.letters|] == p.letters;
    r := Ok(out);
  }

  lemma OneMoreUnheard(pending: seq<Pending>, letters: seq<(Letter, nat, Signature)>, keyed: bool, i: nat, out: seq<Pending>)
    requires i < |letters| && pending <= out && |out| == |pending| + i && Unheard(pending, letters[..i])
    requires forall j :: 0 <= j < i ==> WaitsFor(keyed, letters[j], out[|pending| + j])
    ensures Filed(out, letters[i].0, letters[i].2) ==> !Unheard(pending, letters)
    ensures !Filed(out, letters[i].0, letters[i].2) ==> Unheard(pending, letters[..i + 1])
  {
    var (letter, _, sig) := letters[i];
    if Filed(out, letter, sig) {
      var k :| 0 <= k < |out| && out[k].letter == letter && out[k].sig == sig;
      if k < |pending| {
        assert Filed(pending, letter, sig);
      } else {
        assert WaitsFor(keyed, letters[k - |pending|], out[|pending| + (k - |pending|)]);
      }
    } else {
      assert forall k :: 0 <= k < |pending| ==> out[k] == pending[k];
      forall j | 0 <= j < i
        ensures letters[j].0 != letter || letters[j].2 != sig
      {
        assert WaitsFor(keyed, letters[j], out[|pending| + j]);
      }
    }
  }

  /** The tree moved one generation on, and only if it was still where the plan found it. */
  ghost predicate Advanced<S(!new)>(s: State<S>, tree: string, generation: nat, after: State<S>) {
    && tree in s.trees && s.trees[tree].generation + 1 == generation
    && after.trees == s.trees[tree := s.trees[tree].(generation := generation)]
    && after.log == s.log + {(tree, generation)}
    && after.signing == s.signing && after.encryption == s.encryption
  }

  /** Move the generation on if nobody else did since. */
  method Advance<S(==, !new)>(s: State<S>, tree: string, generation: nat, previous: nat) returns (r: Result<State<S>>)
    requires Valid(s) && generation == previous + 1
    ensures r.Ok? <==> tree in s.trees && s.trees[tree].generation == previous
    ensures r.Ok? ==> Advanced(s, tree, generation, r.value) && Valid(r.value) && r.value.pending == s.pending
  {
    hide Grounded, Consistent;
    if tree !in s.trees || s.trees[tree].generation != previous {
      return Err(StalePublicTree);
    }
    NeverLogged(s, tree, generation);
    if (tree, generation) in s.log {
      return Err(StaleUpdate);
    }
    r := Ok(s.(trees := s.trees[tree := s.trees[tree].(generation := generation)], log := s.log + {(tree, generation)}));
  }

  /** Commit a plan: a root's takes effect here, anybody else's is only filed. */
  method CommitRestructure<S(==, !new)>(s: State<S>, ghost directory: map<string, seq<nat>>, p: Plan) returns (r: Result<State<S>>)
    requires Valid(s) && Signed(directory, p)
    ensures r.Ok? && p.parent.Some? ==>
      && r.value == s.(pending := r.value.pending)
      && s.pending <= r.value.pending && |r.value.pending| == |s.pending| + |p.letters|
      && forall i :: 0 <= i < |p.letters| ==> WaitsFor(p.tree in s.trees, p.letters[i], r.value.pending[|s.pending| + i])
    ensures r.Ok? && p.parent.None? ==> Advanced(s, p.tree, p.generation, r.value) && r.value.pending == s.pending
    ensures r.Ok? ==> Valid(r.value)
    ensures p.parent.Some? ==> (r.Ok? <==> Unheard(s.pending, p.letters))
    ensures p.parent.None? ==> (r.Ok? <==> p.tree in s.trees && s.trees[p.tree].generation == p.previous)
  {
    hide Grounded, Advanced;
    if p.parent.Some? {
      var filed := FileProposals(s.pending, p.tree in s.trees, p);
      if filed.Err? {
        return Err(filed.error);
      }
      return Ok(s.(pending := filed.value));
    }
    r := Advance(s, p.tree, p.generation, p.previous);
  }

  // ---- countersigning ------------------------------------------------------------------------------------

  /** Whose proposal is countersigned, for which generation of which tree. */
  datatype Matter = Matter(tree: string, generation: nat, authorizer: string, countersigner: string)

  /** The envelopes a countersigner sends, each to the key it is made for. */
  datatype Countersigning = Countersigning(matter: Matter, previous: nat, packages: seq<(Envelope, nat)>)

  /** The package passes the checks of a store that knows the same signing keys. */
  ghost predicate Convincing(directory: map<string, seq<nat>>, m: Matter, package: (Envelope, nat)) {
    && package.0.Countersigned? && package.0.countersigner == m.countersigner
    && package.0.letter.tree == m.tree && package.0.letter.generation == m.generation
    && package.0.letter.authorizer == m.authorizer
    && IsAncestorOrSelf(m.authorizer, package.0.letter.recipient)
    && SignedBy(directory, m.authorizer, package.0.sig, LetterFor(package.0.letter, package.1))
    && SignedBy(directory, m.countersigner, package.0.countersig,
                ProposalSeen(package.0.letter, package.0.sig, m.countersigner, package.1))
  }

  ghost predicate Backed(directory: map<string, seq<nat>>, c: Countersigning) {
    && c.packages != []
    && c.matter.generation == c.previous + 1 && ParentNodeLabel(c.matter.authorizer) == Some(c.matter.countersigner)
    && forall i :: 0 <= i < |c.packages| ==> Convincing(directory, c.matter, c.packages[i])
  }

  /** A countersigning is lawful. */
  lemma BackedIsLawful(directory: map<string, seq<nat>>, c: Countersigning)
    requires Backed(directory, c)
    ensures Lawful(OwnCountersigning(directory, c))
  {
    hide ParentAfter, IsAncestorOrSelf;
    forall i | 0 <= i < |c.packages|
      ensures
        var (envelope, key) := c.packages[i];
        && envelope.Countersigned?
        && ParentAuthority(directory, envelope.letter, key, envelope.sig, envelope.countersigner, envelope.countersig)
    {
      assert Convincing(directory, c.matter, c.packages[i]);
      ReachedAbove(c.matter.authorizer, c.packages[i].0.letter.recipient);
    }
  }

  /** The key a letter's recipient is reached by: an active leaf's, or the one active key of the label. */
  function RecipientKey<S>(s: State<S>, tree: string, recipient: string): Option<nat> {
    if tree in s.trees && recipient in s.trees[tree].rows
       && s.trees[tree].rows[recipient].active && s.trees[tree].rows[recipient].key.Some?
    then s.trees[tree].rows[recipient].key
    else SoleKey(s.encryption, recipient)
  }

  function Waiting(pending: seq<Pending>, tree: string): (rows: seq<Pending>)
    ensures forall p :: p in rows <==> p in pending && p.keyed && p.tree == tree
  {
    if pending == [] then []
    else
      var rest := Waiting(pending[1..], tree);
      if pending[0].keyed && pending[0].tree == tree then [pending[0]] + rest else rest
  }

  /** The key is the one of the recipient's active leaf, or without such a leaf the only one the label has. */
  ghost predicate ReachedBy<S>(s: State<S>, tree: string, recipient: string, key: nat) {
    if tree in s.trees && recipient in s.trees[tree].rows
       && s.trees[tree].rows[recipient].active && s.trees[tree].rows[recipient].key.Some?
    then s.trees[tree].rows[recipient].key.value == key
    else recipient in s.encryption && s.encryption[recipient] == [key]
  }

  lemma RecipientKeyExactly<S>(s: State<S>, tree: string, recipient: string, key: nat)
    ensures RecipientKey(s, tree, recipient) == Some(key) <==> ReachedBy(s, tree, recipient, key)
  {
    SoleKeyExactly(s.encryption, recipient, key);
  }

  /** The package carries this proposal, to the key its recipient is reached by. */
  ghost predicate Answers<S>(s: State<S>, tree: string, row: Pending, package: (Envelope, nat)) {
    && package.0.Countersigned? && package.0.letter == row.letter && package.0.sig == row.sig
    && ReachedBy(s, tree, row.letter.recipient, package.1)
  }

  /** The proposal is about this matter, its recipient can be reached, and it checks. */
  predicate Countersignable<S>(s: State<S>, m: Matter, row: Pending) {
    && row.countersigner == m.countersigner && row.generation == m.generation && row.tree == m.tree && row.authorizer == m.authorizer
    && var key := RecipientKey(s, m.tree, row.letter.recipient);
       key.Some? && Verified(s, row.letter, row.sig, key.value)
  }

  /** Something waits, all of it about one matter that this label may countersign with this key. */
  ghost predicate MayCountersign<S>(s: State<S>, tree: string, countersigner: string, secret: nat) {
    var rows := Waiting(s.pending, tree);
    && SoleKey(s.signing, countersigner) == Some(secret)
    && rows != [] && rows[0].generation > 0 && ParentNodeLabel(rows[0].authorizer) == Some(countersigner)
    && var m := Matter(tree, rows[0].generation, rows[0].authorizer, countersigner);
       forall i :: 0 <= i < |rows| ==> Countersignable(s, m, rows[i])
  }

  /** Sign every waiting proposal of a tree. Changes nothing in the store. */
  method PlanCountersign<S(==, !new)>(s: State<S>, tree: string, countersigner: string, secret: nat) returns (r: Result<Countersigning>)
    requires Valid(s)
    ensures r.Ok? <==> MayCountersign(s, tree, countersigner, secret)
    ensures r.Ok? ==> Backed(s.signing, r.value) && r.value.matter.tree == tree && r.value.matter.countersigner == countersigner
    ensures r.Ok? ==> |r.value.packages| == |Waiting(s.pending, tree)| > 0
    ensures r.Ok? ==> forall i :: 0 <= i < |r.value.packages| ==> Answers(s, tree, Waiting(s.pending, tree)[i], r.value.packages[i])
  {
    if SoleKey(s.signing, countersigner) != Some(secret) {
      return Err(UpdateNotAuthorized);
    }
    var rows := Waiting(s.pending, tree);
    if rows == [] {
      return Err(ProposalNotFound);
    }
    var first := rows[0];
    if ParentNodeLabel(first.authorizer) != Some(countersigner) {
      return Err(UpdateNotAuthorized);
    }
    if first.generation == 0 {
      return Err(StalePublicTree);
    }
    assert forall i :: 0 <= i < |rows| ==> rows[i] in s.pending && Consistent(rows[i]);
    hide Valid, Convincing, Answers, Consistent, SoleKey, Waiting, Countersignable;
    var m := Matter(tree, first.generation, first.authorizer, countersigner);
    var packages := CountersignAll(s, m, rows, secret);
    if packages.Err? {
      return Err(packages.error);
    }
    r := Ok(Countersigning(m, first.generation - 1, packages.value));
  }

  method CountersignAll<S(==)>(s: State<S>, m: Matter, rows: seq<Pending>, secret: nat) returns (r: Result<seq<(Envelope, nat)>>)
    requires SoleKey(s.signing, m.countersigner) == Some(secret)
    requires forall i :: 0 <= i < |rows| ==> Consistent(rows[i])
    ensures r.Ok? <==> forall i :: 0 <= i < |rows| ==> Countersignable(s, m, rows[i])
    ensures r.Ok? ==> |r.value| == |rows|
    ensures r.Ok? ==> forall i :: 0 <= i < |rows| ==> Convincing(s.signing, m, r.value[i]) && Answers(s, m.tree, rows[i], r.value[i])
  {
    hide Convincing, Answers, Consistent, SoleKey, Countersignable;
    var out: seq<(Envelope, nat)> := [];
    for i := 0 to |rows|
      invariant |out| == i
      invariant forall j :: 0 <= j < i ==> Countersignable(s, m, rows[j])
      invariant forall j :: 0 <= j < i ==> Convincing(s.signing, m, out[j]) && Answers(s, m.tree, rows[j], out[j])
    {
      var package := CountersignOne(s, m, rows[i], secret);
      if package.Err? {
        return Err(package.error);
      }
      out := out + [package.value];
    }
    r := Ok(out);
  }

  method CountersignOne<S(==)>(s: State<S>, m: Matter, row: Pending, secret: nat) returns (r: Result<(Envelope, nat)>)
    requires SoleKey(s.signing, m.countersigner) == Some(secret) && Consistent(row)
    ensures r.Ok? <==> Countersignable(s, m, row)
    ensures r.Ok? ==> Convincing(s.signing, m, r.value) && Answers(s, m.tree, row, r.value)
  {
    if row.countersigner != m.countersigner || row.generation != m.generation || row.tree != m.tree || row.authorizer != m.authorizer {
      return Err(UpdateNotAuthorized);
    }
    var key := RecipientKey(s, m.tree, row.letter.recipient);
    if key.None? {
      return Err(NodeNotFound);
    }
    if !Verified(s, row.letter, row.sig, key.value) {
      return Err(UpdateNotAuthorized);
    }
    var countersig := Signature(secret, ProposalSeen(row.letter, row.sig, m.countersigner, key.value));
    r := Ok((Countersigned(m.countersigner, countersig, row.letter, row.sig), key.value));
  }

  /** Move the tree on and drop the proposals that were waiting for it. */
  method CommitCountersign<S(==, !new)>(s: State<S>, ghost directory: map<string, seq<nat>>, c: Countersigning) returns (r: Result<State<S>>)
    requires Valid(s) && Backed(directory, c)
    ensures r.Ok? <==> c.matter.tree in s.trees && s.trees[c.matter.tree].generation == c.previous
    ensures r.Ok? ==> Advanced(s, c.matter.tree, c.matter.generation, r.value) && Valid(r.value)
    ensures r.Ok? ==> r.value.pending == NotWaiting(s.pending, c.matter.tree)
  {
    hide Valid, Convincing;
    r := Advance(s, c.matter.tree, c.matter.generation, c.previous);
    if r.Ok? {
      var rest := NotWaiting(r.value.pending, c.matter.tree);
      FewerPending(r.value, rest);
      r := Ok(r.value.(pending := rest));
    }
  }

  function NotWaiting(pending: seq<Pending>, tree: string): (rows: seq<Pending>)
    ensures forall p :: p in rows <==> p in pending && !(p.keyed && p.tree == tree)
  {
    if pending == [] then []
    else
      var rest := NotWaiting(pending[1..], tree);
      if pending[0].keyed && pending[0].tree == tree then rest else [pending[0]] + rest
  }
}
