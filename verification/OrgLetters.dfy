/**
 Letters from the signer to the recipient: what is written into each, and
 what becomes of it in the recipient's store.
 */
module OrgLetters {
  import opened Results
  import opened Labels
  import opened Visibility
  import opened PublicTrees
  import opened Merge
  import opened Projection
  import opened OrgUpdate

  // ---- writing the letters ----------------------------------------------------------------------------

  /** The active leaves of a tree with their keys, each label once. */
  ghost predicate ActiveLeaves<S(!new)>(tree: Tree<string, S>, recipients: seq<(string, nat)>) {
    && (forall i :: 0 <= i < |recipients| ==>
          && recipients[i].0 in tree.rows && tree.rows[recipients[i].0].active
          && tree.rows[recipients[i].0].key == Some(recipients[i].1))
    && (forall i, j :: 0 <= i < j < |recipients| ==> recipients[i].0 != recipients[j].0)
  }

  /** The letter shows its recipient exactly what they may see, with themselves and their key in it. */
  ghost predicate Tells<S(!new)>(tree: Tree<string, S>, full: PublicTree<string>, letter: Letter, key: nat) {
    && (exists v: set<string> ::
          IsVisibleSet(Parents(tree.rows), full.links, [letter.recipient], v)
          && letter.slice == FilterPublicTree(full.(generation := letter.generation), v))
    && letter.slice.name == letter.tree == tree.name && letter.slice.generation == letter.generation
    && Has(letter.slice.nodes, letter.recipient, key)
  }

  lemma FoundByName(nodes: seq<PublicNode<string>>, x: PublicNode<string>, key: nat)
    requires Distinct(nodes) && x in nodes && x.key == Some(key)
    ensures Has(nodes, x.name, key)
  {
    var i :| 0 <= i < |nodes| && nodes[i] == x;
    assert nodes[i].name == x.name && nodes[i].key == Some(key);
  }

  lemma RecipientInSlice<S(!new)>(
    tree: Tree<string, S>, full: PublicTree<string>, recipient: string, key: nat, v: set<string>)
    requires Sound(tree) && Exported(tree, full) && recipient in tree.rows && tree.rows[recipient].key == Some(key)
    requires IsVisibleSet(Parents(tree.rows), full.links, [recipient], v)
    ensures Has(Keep(full.nodes, v), recipient, key)
  {
    SeesItself(Parents(tree.rows), full.links, recipient, v);
    SliceNodes(tree, full, v);
    var x := Published(recipient, tree.rows[recipient]);
    FoundByName(Keep(full.nodes, v), x, key);
  }

  /** The slice one leaf is sent. */
  method WriteLetter<S(==, !new)>(
    tree: Tree<string, S>, full: PublicTree<string>, recipient: string, key: nat, authorizer: string, generation: nat)
    returns (letter: Letter)
    requires Sound(tree) && Exported(tree, full) && recipient in tree.rows && tree.rows[recipient].key == Some(key)
    ensures letter.tree == tree.name && letter.generation == generation
    ensures letter.recipient == recipient && letter.authorizer == authorizer
    ensures Tells(tree, full, letter, key)
  {
    ExportParents(tree, full);
    ExportWellFormed(tree, full);
    hide WellFormed, Exported, ParentOf, IsVisibleSet, Has, Sound;
    var next := full.(generation := generation);
    var v := VisibleToOne(full, recipient);
    RecipientInSlice(tree, full, recipient, key, v);
    ExportNamed(tree, full);
    letter := Letter(tree.name, generation, recipient, authorizer, FilterPublicTree(next, v));
  }

  lemma ExportNamed<S(!new)>(tree: Tree<string, S>, full: PublicTree<string>)
    requires Exported(tree, full)
    ensures full.name == tree.name
  {
  }

  /** What a plan says to the leaves up to `n`: one letter to each the signer stands over, the rest skipped. */
  ghost predicate Covers<S(!new)>(
    tree: Tree<string, S>, full: PublicTree<string>, recipients: seq<(string, nat)>, n: nat, p: Plan)
    requires n <= |recipients|
  {
    && |p.letters| + |p.skipped| == n
    && (forall x :: x in p.letters ==> Tells(tree, full, x.0, x.1) && (x.0.recipient, x.1) in recipients[..n])
    && (forall i, j :: 0 <= i < j < |p.letters| ==> p.letters[i].0.recipient != p.letters[j].0.recipient)
    && (forall i :: 0 <= i < n ==>
          if IsAncestorOrSelf(p.authorizer, recipients[i].0)
          then exists x :: x in p.letters && x.0.recipient == recipients[i].0 && x.1 == recipients[i].1
          else recipients[i].0 in p.skipped)
  }

  lemma CoversSkip<S(!new)>(
    tree: Tree<string, S>, full: PublicTree<string>, recipients: seq<(string, nat)>, n: nat, p: Plan)
    requires n < |recipients| && Covers(tree, full, recipients, n, p)
    requires !IsAncestorOrSelf(p.authorizer, recipients[n].0)
    ensures Covers(tree, full, recipients, n + 1, p.(skipped := p.skipped + [recipients[n].0]))
  {
    hide Tells, IsAncestorOrSelf;
    assert recipients[..n + 1] == recipients[..n] + [recipients[n]];
  }

  lemma CoversLetter<S(!new)>(
    tree: Tree<string, S>, full: PublicTree<string>, recipients: seq<(string, nat)>, n: nat, p: Plan, x: (Letter, nat, Signature))
    requires n < |recipients| && Covers(tree, full, recipients, n, p)
    requires IsAncestorOrSelf(p.authorizer, recipients[n].0)
    requires forall i, j :: 0 <= i < j < |recipients| ==> recipients[i].0 != recipients[j].0
    requires Tells(tree, full, x.0, x.1) && x.0.recipient == recipients[n].0 && x.1 == recipients[n].1
    ensures Covers(tree, full, recipients, n + 1, p.(letters := p.letters + [x]))
  {
    hide Tells, IsAncestorOrSelf;
    var p' := p.(letters := p.letters + [x]);
    assert recipients[..n + 1] == recipients[..n] + [recipients[n]];
    assert x in p'.letters;
    forall y | y in p.letters
      ensures y.0.recipient != x.0.recipient
    {
      var i :| 0 <= i < n && recipients[i] == (y.0.recipient, y.1);
    }
    assert forall i :: 0 <= i < |p.letters| ==> p.letters[i] in p.letters && p'.letters[i] == p.letters[i];
    forall i | 0 <= i < n && IsAncestorOrSelf(p.authorizer, recipients[i].0)
      ensures exists y :: y in p'.letters && y.0.recipient == recipients[i].0 && y.1 == recipients[i].1
    {
      var y :| y in p.letters && y.0.recipient == recipients[i].0 && y.1 == recipients[i].1;
      assert y in p'.letters;
    }
  }

  /**
   Sign one letter for every active leaf the signer stands over, at the next
   generation. The store is not changed.
   */
  method PlanRestructure<S(==, !new)>(
    s: State<S>, tree: string, full: PublicTree<string>, recipients: seq<(string, nat)>, authorizer: string, secret: nat)
    returns (r: Result<Plan>)
    requires tree in s.trees && s.trees[tree].name == tree && Sound(s.trees[tree])
    requires Exported(s.trees[tree], full) && ActiveLeaves(s.trees[tree], recipients)
    ensures r.Ok? <==> SoleKey(s.signing, authorizer) == Some(secret) && s.trees[tree].generation < LAST_GENERATION
    ensures r.Ok? ==> Signed(s.signing, r.value) && r.value.previous == s.trees[tree].generation
    ensures r.Ok? ==> r.value.authorizer == authorizer && r.value.tree == tree && r.value.signer == secret
    ensures r.Ok? ==> Covers(s.trees[tree], full, recipients, |recipients|, r.value)
  {
    hide Sound, Exported, Tells, IsAncestorOrSelf;
    if SoleKey(s.signing, authorizer) != Some(secret) {
      return Err(UpdateNotAuthorized);
    }
    var stored := s.trees[tree];
    if stored.generation >= LAST_GENERATION {
      return Err(StalePublicTree);
    }
    var generation := stored.generation + 1;
    var p := Plan(tree, generation, stored.generation, authorizer, ParentNodeLabel(authorizer), secret, [], []);
    hide ParentNodeLabel;
    for i := 0 to |recipients|
      invariant p == Plan(tree, generation, stored.generation, authorizer, ParentNodeLabel(authorizer), secret, p.letters, p.skipped)
      invariant Signed(s.signing, p)
      invariant Covers(stored, full, recipients, i, p)
    {
      var (name, key) := recipients[i];
      if !IsAncestorOrSelf(authorizer, name) {
        CoversSkip(stored, full, recipients, i, p);
        p := p.(skipped := p.skipped + [name]);
      } else {
        var letter := WriteLetter(stored, full, name, key, authorizer, generation);
        var x := (letter, key, Signature(secret, LetterFor(letter, key)));
        CoversLetter(stored, full, recipients, i, p, x);
        p := p.(letters := p.letters + [x]);
      }
    }
    r := Ok(p);
  }

  // ---- the letter in a store that has never seen the tree ------------------------------------------------

  /** The store holds exactly what the slice says: its rows without shares, its edges, its generation. */
  ghost predicate StoredExactly<S(!new)>(slice: PublicTree<string>, t: Tree<string, S>) {
    && t.name == slice.name && t.generation == slice.generation
    && (forall y :: y in t.rows <==> y in Names(slice.nodes))
    && (forall x :: x in slice.nodes ==>
          x.name in t.rows && t.rows[x.name] == Row(x.parent, x.threshold, x.key, None, x.active))
    && (forall e :: e in t.whitelist <==> e in slice.whitelist)
    && (forall e :: e in t.links <==> exists l :: l in slice.links && e == {l.0, l.1})
  }

  function NewTree<S>(name: string): Tree<string, S> {
    Tree(name, FIRST_GENERATION, map[], {}, {})
  }

  lemma SliceAcceptedByNew<S(!new), R(!new)>(tree: Tree<string, S>, full: PublicTree<string>, v: set<string>, none: map<string, Row<string, R>>)
    requires Sound(tree) && Exported(tree, full) && AncestorClosed(Parents(tree.rows), v) && none == map[]
    ensures AllAccepted(none, Keep(full.nodes, v))
  {
    SliceNodes(tree, full, v);
    forall x | x in Keep(full.nodes, v)
      ensures Accepts(none, Names(Keep(full.nodes, v)), x)
    {
      assert x.name in Parents(tree.rows) && Fits(tree.rows[x.name]);
    }
  }

  /** A store without the tree accepts every slice of a sound tree. */
  lemma NewAccepts<S(!new), R(!new)>(
    tree: Tree<string, S>, full: PublicTree<string>, v: set<string>, generation: nat, blank: Tree<string, R>)
    requires Sound(tree) && Exported(tree, full) && AncestorClosed(Parents(tree.rows), v) && v <= tree.rows.Keys && v != {}
    requires blank == NewTree(tree.name) && generation >= FIRST_GENERATION
    ensures Acceptable(blank, FilterPublicTree(full.(generation := generation), v))
  {
    hide AllAccepted, Acyclic, EdgesFit, Keep, Inner, Sound, AncestorClosed, Distinct, Names;
    var sent := FilterPublicTree(full.(generation := generation), v);
    SliceNodes(tree, full, v);
    SliceAcceptedByNew(tree, full, v, blank.rows);
    OwnEdgesFit(tree, full, v);
    SameEdgesFit(FilterPublicTree(full, v), sent);
    var k :| k in v;
    assert Published(k, tree.rows[k]) in sent.nodes;
  }

  lemma SameEdgesFit(a: PublicTree<string>, b: PublicTree<string>)
    requires EdgesFit(a) && a.nodes == b.nodes && a.whitelist == b.whitelist && a.links == b.links
    ensures EdgesFit(b)
  {
    hide Inside;
  }

  lemma NewStores<S(!new), R(!new)>(
    tree: Tree<string, S>, full: PublicTree<string>, v: set<string>, generation: nat, blank: Tree<string, R>, after: Tree<string, R>)
    requires Sound(tree) && Exported(tree, full) && AncestorClosed(Parents(tree.rows), v) && v <= tree.rows.Keys
    requires blank == NewTree(full.name)
    requires Took(blank, FilterPublicTree(full.(generation := generation), v), after)
    ensures StoredExactly(FilterPublicTree(full.(generation := generation), v), after)
  {
    SliceClosed(tree, full, v);
    SliceNodes(tree, full, v);
    var sent := FilterPublicTree(full.(generation := generation), v);
    assert sent.nodes == Keep(full.nodes, v);
    hide Inside, Keep, Inner, Sound, Exported, Names;
    forall x | x in sent.nodes
      ensures x.name in after.rows && after.rows[x.name] == Row(x.parent, x.threshold, x.key, None, x.active)
    {
    }
  }

  /** The letter's view, named. */
  lemma ToldView<S(!new)>(tree: Tree<string, S>, full: PublicTree<string>, letter: Letter, key: nat) returns (v: set<string>)
    requires Sound(tree) && Exported(tree, full) && Tells(tree, full, letter, key) && letter.recipient in tree.rows
    ensures letter.slice == FilterPublicTree(full.(generation := letter.generation), v)
    ensures AncestorClosed(Parents(tree.rows), v) && v <= tree.rows.Keys && letter.recipient in v
    ensures full.name == tree.name == letter.tree == letter.slice.name && letter.slice.generation == letter.generation
    ensures Has(letter.slice.nodes, letter.recipient, key)
  {
    v :| IsVisibleSet(Parents(tree.rows), full.links, [letter.recipient], v)
         && letter.slice == FilterPublicTree(full.(generation := letter.generation), v);
    SeesOnlyRows(tree, full, letter.recipient, v);
    SeesItself(Parents(tree.rows), full.links, letter.recipient, v);
    hide IsVisibleSet, Has, Sound, FilterPublicTree;
  }

  /** Such a letter is taken by every store that does not know the tree. */
  lemma LetterTaken<S(!new), R(!new)>(tree: Tree<string, S>, full: PublicTree<string>, letter: Letter, key: nat, s: State<R>)
    requires Sound(tree) && Exported(tree, full) && Tells(tree, full, letter, key) && letter.recipient in tree.rows
    requires letter.tree !in s.trees && letter.generation >= FIRST_GENERATION
    ensures Takeable(s, letter, key)
  {
    hide Sound, Exported, Has, Acceptable, FilterPublicTree, AncestorClosed, Tells;
    var v := ToldView(tree, full, letter, key);
    NewAccepts(tree, full, v, letter.generation, NewTree<R>(letter.tree));
  }

  /** And what is stored then is exactly the letter's slice. */
  lemma LetterStored<S(!new), R(!new)>(tree: Tree<string, S>, full: PublicTree<string>, letter: Letter, key: nat, s: State<R>, after: State<R>)
    requires Sound(tree) && Exported(tree, full) && Tells(tree, full, letter, key) && letter.recipient in tree.rows
    requires letter.tree !in s.trees && TookLetter(s, letter, after)
    ensures StoredExactly(letter.slice, after.trees[letter.tree])
  {
    hide Sound, Exported, Has, Took, FilterPublicTree, AncestorClosed, Tells, StoredExactly, Grounded;
    var v := ToldView(tree, full, letter, key);
    NewStores(tree, full, v, letter.generation, NewTree<R>(letter.tree), after.trees[letter.tree]);
  }

  // ---- a root's letter, end to end -----------------------------------------------------------------------

  /** The receiving store does not know the tree, knows the signer's key and holds the recipient's. */
  predicate Awaits<R>(s: State<R>, p: Plan, i: nat)
    requires i < |p.letters|
  {
    && p.tree !in s.trees && SoleKey(s.signing, p.authorizer) == Some(p.signer)
    && p.letters[i].0.recipient in s.encryption && p.letters[i].1 in s.encryption[p.letters[i].0.recipient]
  }

  /** The checks of a letter and its content, for each letter of a plan. */
  lemma PlannedIsTaken<S(!new), R(!new)>(
    s: State<S>, tree: string, full: PublicTree<string>, recipients: seq<(string, nat)>, p: Plan, i: nat, receiver: State<R>)
    requires tree in s.trees && s.trees[tree].name == tree && Sound(s.trees[tree]) && Exported(s.trees[tree], full)
    requires ActiveLeaves(s.trees[tree], recipients) && Signed(s.signing, p) && p.tree == tree
    requires Covers(s.trees[tree], full, recipients, |recipients|, p) && i < |p.letters| && Awaits(receiver, p, i)
    ensures Verified(receiver, p.letters[i].0, p.letters[i].2, p.letters[i].1)
    ensures Takeable(receiver, p.letters[i].0, p.letters[i].1)
  {
    var letter := p.letters[i].0;
    assert p.letters[i] in p.letters;
    assert (letter.recipient, p.letters[i].1) in recipients;
    var k :| 0 <= k < |recipients| && recipients[k] == (letter.recipient, p.letters[i].1);
    LetterTaken(s.trees[tree], full, letter, p.letters[i].1, receiver);
    hide Takeable, Sound, Exported, Tells, IsAncestorOrSelf, ParentNodeLabel;
  }

  lemma PlannedIsStored<S(!new), R(!new)>(
    s: State<S>, tree: string, full: PublicTree<string>, recipients: seq<(string, nat)>, p: Plan, i: nat, receiver: State<R>, after: State<R>)
    requires tree in s.trees && s.trees[tree].name == tree && Sound(s.trees[tree]) && Exported(s.trees[tree], full)
    requires ActiveLeaves(s.trees[tree], recipients) && Signed(s.signing, p) && p.tree == tree
    requires Covers(s.trees[tree], full, recipients, |recipients|, p) && i < |p.letters| && Awaits(receiver, p, i)
    requires TookLetter(receiver, p.letters[i].0, after)
    ensures tree in after.trees && StoredExactly(p.letters[i].0.slice, after.trees[tree])
  {
    var letter := p.letters[i].0;
    assert p.letters[i] in p.letters;
    assert (letter.recipient, p.letters[i].1) in recipients;
    var k :| 0 <= k < |recipients| && recipients[k] == (letter.recipient, p.letters[i].1);
    LetterStored(s.trees[tree], full, letter, p.letters[i].1, receiver, after);
    hide StoredExactly, Sound, Exported, Tells, IsAncestorOrSelf, ParentNodeLabel, Took;
  }

  /**
   A root plans a restructure and one of the letters is delivered: it is taken,
   and the receiving store then holds exactly what that leaf may see.
   */
  method AnnounceAndDeliver<S(==, !new), R(==, !new)>(
    s: State<S>, tree: string, full: PublicTree<string>, recipients: seq<(string, nat)>, authorizer: string, secret: nat,
    receiver: State<R>, i: nat)
    returns (p: Result<Plan>, r: Result<State<R>>)
    requires tree in s.trees && s.trees[tree].name == tree && Sound(s.trees[tree])
    requires Exported(s.trees[tree], full) && ActiveLeaves(s.trees[tree], recipients) && Valid(receiver)
    ensures p.Ok? <==> SoleKey(s.signing, authorizer) == Some(secret) && s.trees[tree].generation < LAST_GENERATION
    ensures p.Ok? && ParentNodeLabel(authorizer).None? && i < |p.value.letters| && Awaits(receiver, p.value, i) ==>
      && r.Ok? && Valid(r.value) && tree in r.value.trees && r.value.trees == receiver.trees[tree := r.value.trees[tree]]
      && StoredExactly(p.value.letters[i].0.slice, r.value.trees[tree])
  {
    hide Sound, Exported, Valid, Covers, StoredExactly, Takeable, Verified, Took, Lawful, Grounded;
    r := Err(UpdateNotAuthorized);
    p := PlanRestructure(s, tree, full, recipients, authorizer, secret);
    if p.Err? || i >= |p.value.letters| {
      return;
    }
    var (letter, key, sig) := p.value.letters[i];
    var out, _ := ImportTreeUpdate(receiver, letter, sig, key);
    r := out;
    if ParentNodeLabel(authorizer).None? && Awaits(receiver, p.value, i) {
      PlannedIsTaken(s, tree, full, recipients, p.value, i, receiver);
      PlannedIsStored(s, tree, full, recipients, p.value, i, receiver, out.value);
    }
  }

  // ---- a countersigned letter, end to end ----------------------------------------------------------------

  /** Nothing waits for the tree; the recipients' keys are registered; signer and parent have these keys. */
  ghost predicate ReadyToPropose<S(!new)>(
    s: State<S>, tree: string, recipients: seq<(string, nat)>, authorizer: string, secret: nat, parent: string, parentSecret: nat) {
    && (forall q :: q in s.pending ==> q.tree != tree)
    && (forall i :: 0 <= i < |recipients| ==>
          recipients[i].0 in s.encryption && recipients[i].1 in s.encryption[recipients[i].0])
    && ParentNodeLabel(authorizer) == Some(parent)
    && SoleKey(s.signing, authorizer) == Some(secret) && SoleKey(s.signing, parent) == Some(parentSecret)
  }

  lemma {:induction false} NoneWaits(pending: seq<Pending>, tree: string)
    requires forall q :: q in pending ==> q.tree != tree
    ensures Waiting(pending, tree) == []
  {
    if pending != [] {
      assert pending[0] in pending;
      NoneWaits(pending[1..], tree);
    }
  }

  lemma {:induction false} AllWait(pending: seq<Pending>, tree: string)
    requires forall q :: q in pending ==> q.keyed && q.tree == tree
    ensures Waiting(pending, tree) == pending
  {
    if pending != [] {
      assert pending[0] in pending;
      AllWait(pending[1..], tree);
    }
  }

  lemma {:induction false} WaitingConcat(a: seq<Pending>, b: seq<Pending>, tree: string)
    ensures Waiting(a + b, tree) == Waiting(a, tree) + Waiting(b, tree)
  {
    if a == [] {
      assert a + b == b;
    } else {
      assert (a + b)[1..] == a[1..] + b;
      WaitingConcat(a[1..], b, tree);
    }
  }

  /** What was filed is what waits. */
  lemma FiledWaits(before: seq<Pending>, after: seq<Pending>, tree: string)
    requires before <= after && forall q :: q in before ==> q.tree != tree
    requires forall i :: |before| <= i < |after| ==> after[i].keyed && after[i].tree == tree
    ensures Waiting(after, tree) == after[|before|..]
  {
    var filed := after[|before|..];
    assert after == before + filed;
    NoneWaits(before, tree);
    AllWait(filed, tree);
    WaitingConcat(before, filed, tree);
  }

  /** Letters to different people are different letters, and none of them waits already. */
  lemma PlanUnheard<S(!new)>(s: State<S>, tree: string, p: Plan)
    requires Valid(s) && (forall q :: q in s.pending ==> q.tree != tree) && Signed(s.signing, p) && p.tree == tree
    requires forall i, j :: 0 <= i < j < |p.letters| ==> p.letters[i].0.recipient != p.letters[j].0.recipient
    ensures Unheard(s.pending, p.letters)
  {
    hide IsAncestorOrSelf, ParentNodeLabel, Grounded, SoleKey;
    forall i, k | 0 <= i < |p.letters| && 0 <= k < |s.pending|
      ensures s.pending[k].letter != p.letters[i].0
    {
      assert s.pending[k] in s.pending && Consistent(s.pending[k]);
    }
  }

  /** Each filed letter can be countersigned. */
  lemma FiledIsCountersignable<S(!new)>(
    s: State<S>, s1: State<S>, tree: string, full: PublicTree<string>, recipients: seq<(string, nat)>,
    p: Plan, parent: string, i: nat, row: Pending)
    requires tree in s.trees && ActiveLeaves(s.trees[tree], recipients) && p.tree == tree
    requires Signed(s.signing, p) && Covers(s.trees[tree], full, recipients, |recipients|, p) && p.parent == Some(parent)
    requires forall k :: 0 <= k < |recipients| ==>
      recipients[k].0 in s.encryption && recipients[k].1 in s.encryption[recipients[k].0]
    requires s1 == s.(pending := s1.pending) && i < |p.letters| && WaitsFor(true, p.letters[i], row) && Consistent(row)
    ensures row.tree == tree
    ensures Countersignable(s1, Matter(tree, p.generation, p.authorizer, parent), row)
    ensures RecipientKey(s1, tree, row.letter.recipient) == Some(p.letters[i].1)
  {
    hide Tells, IsAncestorOrSelf, ParentNodeLabel, SoleKey;
    var letter := p.letters[i].0;
    assert p.letters[i] in p.letters;
    assert (letter.recipient, p.letters[i].1) in recipients;
    var k :| 0 <= k < |recipients| && recipients[k] == (letter.recipient, p.letters[i].1);
  }

  /** The plan's letters, filed one behind the other, are what the parent finds and may countersign. */
  lemma ProposalIsCountersignable<S(!new)>(
    s: State<S>, s1: State<S>, tree: string, full: PublicTree<string>, recipients: seq<(string, nat)>,
    p: Plan, parent: string, parentSecret: nat)
    requires Valid(s1) && tree in s.trees && ActiveLeaves(s.trees[tree], recipients) && p.tree == tree && p.letters != []
    requires Signed(s.signing, p) && Covers(s.trees[tree], full, recipients, |recipients|, p)
    requires ReadyToPropose(s, tree, recipients, p.authorizer, p.signer, parent, parentSecret)
    requires s1 == s.(pending := s1.pending) && s.pending <= s1.pending && |s1.pending| == |s.pending| + |p.letters|
    requires forall i :: 0 <= i < |p.letters| ==> WaitsFor(true, p.letters[i], s1.pending[|s.pending| + i])
    ensures MayCountersign(s1, tree, parent, parentSecret)
    ensures Waiting(s1.pending, tree) == s1.pending[|s.pending|..]
    ensures forall i :: 0 <= i < |p.letters| ==> RecipientKey(s1, tree, p.letters[i].0.recipient) == Some(p.letters[i].1)
  {
    var rows := s1.pending[|s.pending|..];
    var m := Matter(tree, p.generation, p.authorizer, parent);
    forall i | 0 <= i < |p.letters|
      ensures rows[i].tree == tree && rows[i].keyed && rows[i].letter == p.letters[i].0
      ensures Countersignable(s1, m, rows[i])
      ensures RecipientKey(s1, tree, p.letters[i].0.recipient) == Some(p.letters[i].1)
    {
      assert rows[i] == s1.pending[|s.pending| + i];
      assert s1.pending[|s.pending| + i] in s1.pending;
      FiledIsCountersignable(s, s1, tree, full, recipients, p, parent, i, rows[i]);
    }
    assert forall i :: |s.pending| <= i < |s1.pending| ==> s1.pending[i] == rows[i - |s.pending|];
    FiledWaits(s.pending, s1.pending, tree);
    hide Covers, Valid, Waiting, RecipientKey, ActiveLeaves, IsAncestorOrSelf;
    assert rows[0].generation == p.generation && rows[0].authorizer == p.authorizer;
  }

  /** What the package of a filed letter says. */
  lemma PackageOf<S(!new)>(s1: State<S>, tree: string, p: Plan, parent: string, parentSecret: nat, i: nat, row: Pending, c: Countersigning)
    requires Backed(s1.signing, c) && i < |c.packages| && i < |p.letters| && c.matter.countersigner == parent
    requires WaitsFor(true, p.letters[i], row) && Answers(s1, tree, row, c.packages[i])
    requires RecipientKey(s1, tree, p.letters[i].0.recipient) == Some(p.letters[i].1)
    requires SoleKey(s1.signing, parent) == Some(parentSecret)
    ensures
      var (envelope, key) := c.packages[i];
      && envelope.Countersigned? && envelope.letter == p.letters[i].0 && envelope.sig == p.letters[i].2 && key == p.letters[i].1
      && envelope.countersigner == parent
      && envelope.countersig == Signature(parentSecret, ProposalSeen(envelope.letter, envelope.sig, parent, key))
  {
    assert Convincing(s1.signing, c.matter, c.packages[i]);
    hide RecipientKey, IsAncestorOrSelf, ParentNodeLabel;
  }

  /**
   Somebody below the root plans, the letters are filed, the direct parent
   countersigns, and one of the packages is delivered: every step succeeds, and
   the receiving store then holds exactly what that leaf may see.
   */
  method ProposeCountersignDeliver<S(==, !new), R(==, !new)>(
    s: State<S>, tree: string, full: PublicTree<string>, recipients: seq<(string, nat)>, authorizer: string, secret: nat,
    parent: string, parentSecret: nat, receiver: State<R>, i: nat)
    returns (p: Result<Plan>, c: Result<Countersigning>, r: Result<State<R>>)
    requires Valid(s) && tree in s.trees && Sound(s.trees[tree]) && s.trees[tree].generation < LAST_GENERATION
    requires Exported(s.trees[tree], full) && ActiveLeaves(s.trees[tree], recipients) && Valid(receiver)
    requires ReadyToPropose(s, tree, recipients, authorizer, secret, parent, parentSecret)
    ensures p.Ok?
    ensures p.value.letters != [] ==> c.Ok? && |c.value.packages| == |p.value.letters|
    ensures i < |p.value.letters| && Awaits(receiver, p.value, i) && SoleKey(receiver.signing, parent) == Some(parentSecret) ==>
      && r.Ok? && Valid(r.value) && tree in r.value.trees && r.value.trees == receiver.trees[tree := r.value.trees[tree]]
      && StoredExactly(p.value.letters[i].0.slice, r.value.trees[tree])
  {
    c, r := Err(ProposalNotFound), Err(UpdateNotAuthorized);
    assert s.trees[tree].name == tree;
    hide Sound, Exported, Valid, StoredExactly, Takeable, Verified, Took, Lawful, Grounded, ActiveLeaves,
         Waiting, MayCountersign, RecipientKey, Backed, Answers, Unheard, ParentNodeLabel, SoleKey;
    p := PlanRestructure(s, tree, full, recipients, authorizer, secret);
    var plan := p.value;
    PlanUnheard(s, tree, plan);
    hide Covers;
    var filed := CommitRestructure(s, s.signing, plan);
    if plan.letters == [] {
      return;
    }
    ProposalIsCountersignable(s, filed.value, tree, full, recipients, plan, parent, parentSecret);
    c := PlanCountersign(filed.value, tree, parent, parentSecret);
    hide Signed;
    if i < |plan.letters| {
      var (envelope, key) := c.value.packages[i];
      ghost var rows := Waiting(filed.value.pending, tree);
      assert rows[i] == filed.value.pending[|s.pending| + i];
      SameParent(s.signing, plan, parent, i);
      PackageOf(filed.value, tree, plan, parent, parentSecret, i, rows[i], c.value);
      var out, _ := ImportCountersigned(receiver, envelope.countersigner, envelope.countersig, envelope.letter, envelope.sig, key);
      r := out;
      if Awaits(receiver, plan, i) && SoleKey(receiver.signing, parent) == Some(parentSecret) {
        PlannedIsTaken(s, tree, full, recipients, plan, i, receiver);
        PlannedIsStored(s, tree, full, recipients, plan, i, receiver, out.value);
      }
    }
  }

  lemma SameParent(directory: map<string, seq<nat>>, p: Plan, parent: string, i: nat)
    requires Signed(directory, p) && p.parent == Some(parent) && i < |p.letters|
    ensures ParentNodeLabel(p.letters[i].0.authorizer) == Some(parent)
  {
  }
}
