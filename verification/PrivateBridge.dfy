/**
 Private bridges: a shared signing secret held by a roster of members and
 watched by their supervisors. A removal rotates the secret, or destroys the
 bridge when fewer than two members would remain.
 */
module PrivateBridge {
  import opened Results
  import opened Labels

  datatype MemberKeys = MemberKeys(encryption: nat, signing: nat)

  datatype Roster<L> = Roster(members: map<L, MemberKeys>, supervisors: map<L, nat>)

  function Parties<L>(r: Roster<L>): set<L> {
    r.members.Keys + r.supervisors.Keys
  }

  function KeyOf<L(==)>(r: Roster<L>, l: L): nat
    requires l in Parties(r)
  {
    if l in r.members then r.members[l].encryption else r.supervisors[l]
  }

  /** Every member's direct parent is on the roster. */
  ghost predicate Covered(members: set<string>, supervisors: set<string>) {
    forall m :: m in members && ParentNodeLabel(m).Some? ==>
      ParentNodeLabel(m).value in members || ParentNodeLabel(m).value in supervisors
  }

  /** At least two members, nobody in two roles, every member's direct parent on the roster. */
  ghost predicate Proper(r: Roster<string>) {
    && |r.members| >= 2
    && r.members.Keys !! r.supervisors.Keys
    && Covered(r.members.Keys, r.supervisors.Keys)
  }

  datatype Kind = Invite | Rotate | Supervise | Destroy

  /** An envelope to one party; only invitations and rotations carry the secret. */
  datatype Package<L> = Package(recipient: L, key: nat, kind: Kind, generation: nat, secret: Option<nat>)

  /** One envelope to each of these labels and no other. */
  ghost predicate OneEach<L>(packages: seq<Package<L>>, labels: set<L>) {
    && (forall i, j :: 0 <= i < j < |packages| ==> packages[i].recipient != packages[j].recipient)
    && (forall i :: 0 <= i < |packages| ==> packages[i].recipient in labels)
    && |packages| == |labels|
  }

  /** With one envelope each, every label has its envelope. */
  lemma {:induction false} EachIsAddressed<L>(packages: seq<Package<L>>, labels: set<L>, l: L)
    requires OneEach(packages, labels) && l in labels
    ensures exists i :: 0 <= i < |packages| && packages[i].recipient == l
  {
    var last := packages[|packages| - 1];
    if last.recipient != l {
      var front := packages[..|packages| - 1];
      assert OneEach(front, labels - {last.recipient});
      EachIsAddressed(front, labels - {last.recipient}, l);
      var i :| 0 <= i < |front| && front[i].recipient == l;
      assert packages[i].recipient == l;
    }
  }

  // ---- reading the invitation list ----------------------------------------------------------------------

  datatype PartyInput = PartyInput(name: string, encryption: nat, signing: Option<nat>)

  /** The first `n` are named, and no name comes twice. */
  ghost predicate NamedOnce(parties: seq<PartyInput>, n: nat)
    requires n <= |parties|
  {
    && (forall i :: 0 <= i < n ==> parties[i].name != [])
    && (forall i, j :: 0 <= i < j < n ==> parties[i].name != parties[j].name)
  }

  /** These are the labels of the first `n`. */
  ghost predicate LabelsOf(parties: seq<PartyInput>, n: nat, labels: set<string>)
    requires n <= |parties|
  {
    && (forall i :: 0 <= i < n ==> parties[i].name in labels)
    && (forall l :: l in labels ==> exists i :: 0 <= i < n && parties[i].name == l)
  }

  lemma OneMoreParty(parties: seq<PartyInput>, n: nat, labels: set<string>)
    requires n < |parties| && LabelsOf(parties, n, labels)
    ensures LabelsOf(parties, n + 1, labels + {parties[n].name})
    ensures NamedOnce(parties, n) && parties[n].name != [] && parties[n].name !in labels ==> NamedOnce(parties, n + 1)
    ensures parties[n].name in labels ==> !NamedOnce(parties, |parties|)
  {
  }

  method UniqueMembers(parties: seq<PartyInput>) returns (r: Result<map<string, MemberKeys>>)
    ensures r.Ok? <==> NamedOnce(parties, |parties|) && forall i :: 0 <= i < |parties| ==> parties[i].signing.Some?
    ensures r.Ok? ==> LabelsOf(parties, |parties|, r.value.Keys)
    ensures r.Ok? ==> forall i :: 0 <= i < |parties| ==>
      parties[i].name in r.value && r.value[parties[i].name] == MemberKeys(parties[i].encryption, parties[i].signing.value)
  {
    hide LabelsOf;
    var out: map<string, MemberKeys> := map[];
    assert out.Keys == {};
    NoParties(parties);
    for i := 0 to |parties|
      invariant NamedOnce(parties, i) && LabelsOf(parties, i, out.Keys)
      invariant forall j :: 0 <= j < i ==> parties[j].signing.Some? && parties[j].name in out
      invariant forall j :: 0 <= j < i ==> out[parties[j].name] == MemberKeys(parties[j].encryption, parties[j].signing.value)
    {
      var p := parties[i];
      if p.name == [] {
        return Err(InvalidBridge);
      }
      if p.signing.None? {
        return Err(InvalidPublicKey);
      }
      OneMoreParty(parties, i, out.Keys);
      if p.name in out {
        return Err(DuplicateNodeLabel);
      }
      ghost var was := out.Keys;
      out := out[p.name := MemberKeys(p.encryption, p.signing.value)];
      assert out.Keys == was + {p.name};
    }
    r := Ok(out);
  }

  lemma NoParties(parties: seq<PartyInput>)
    ensures LabelsOf(parties, 0, {})
  {
  }

  method UniqueSupervisors(parties: seq<PartyInput>) returns (r: Result<map<string, nat>>)
    ensures r.Ok? <==> NamedOnce(parties, |parties|)
    ensures r.Ok? ==> LabelsOf(parties, |parties|, r.value.Keys)
    ensures r.Ok? ==> forall i :: 0 <= i < |parties| ==> parties[i].name in r.value && r.value[parties[i].name] == parties[i].encryption
  {
    hide LabelsOf;
    var out: map<string, nat> := map[];
    assert out.Keys == {};
    NoParties(parties);
    for i := 0 to |parties|
      invariant NamedOnce(parties, i) && LabelsOf(parties, i, out.Keys)
      invariant forall j :: 0 <= j < i ==> parties[j].name in out && out[parties[j].name] == parties[j].encryption
    {
      var p := parties[i];
      if p.name == [] {
        return Err(InvalidBridge);
      }
      OneMoreParty(parties, i, out.Keys);
      if p.name in out {
        return Err(DuplicateNodeLabel);
      }
      ghost var was := out.Keys;
      out := out[p.name := p.encryption];
      assert out.Keys == was + {p.name};
    }
    r := Ok(out);
  }

  /** Every member's parent must be named; supervisors who are members are members only. */
  method FillImpliedSupervisors(members: map<string, MemberKeys>, supervisors: map<string, nat>) returns (r: Result<map<string, nat>>)
    ensures r.Ok? <==> Covered(members.Keys, supervisors.Keys)
    ensures r.Ok? ==> r.value == map l | l in supervisors && l !in members :: supervisors[l]
  {
    var todo := members.Keys;
    while todo != {}
      invariant todo <= members.Keys
      invariant Covered(members.Keys - todo, supervisors.Keys + members.Keys)
      decreases todo
    {
      var m :| m in todo;
      var parent := ParentNodeLabel(m);
      if parent.Some? && parent.value !in members && parent.value !in supervisors {
        return Err(NodeNotFound);
      }
      todo := todo - {m};
    }
    r := Ok(map l | l in supervisors && l !in members :: supervisors[l]);
  }

  /** Exactly the parents these members lack among themselves, as far as they were on the old roster, with their old keys. */
  ghost predicate Needed(members: map<string, MemberKeys>, previous: Roster<string>, supervisors: map<string, nat>) {
    && (forall l :: l in supervisors <==>
          l in Parties(previous) && l !in members && exists m :: m in members && ParentNodeLabel(m) == Some(l))
    && (forall l :: l in supervisors ==> supervisors[l] == KeyOf(previous, l))
  }

  /** The parents a set of members needs watching, as far as they were on the old roster. */
  method SupervisorsFor(members: map<string, MemberKeys>, previous: Roster<string>) returns (out: map<string, nat>)
    ensures Needed(members, previous, out)
  {
    var needed: set<string> := {};
    var todo := members.Keys;
    while todo != {}
      invariant todo <= members.Keys
      invariant forall l :: l in needed <==> l !in members && exists m :: m in members && m !in todo && ParentNodeLabel(m) == Some(l)
      decreases todo
    {
      var m :| m in todo;
      var parent := ParentNodeLabel(m);
      todo := todo - {m};
      if parent.Some? && parent.value !in members {
        needed := needed + {parent.value};
      }
    }
    out := map l | l in Parties(previous) && l in needed :: KeyOf(previous, l);
  }

  // ---- envelopes -------------------------------------------------------------------------------------------

  lemma OneMore<L>(packages: seq<Package<L>>, labels: set<L>, p: Package<L>)
    requires OneEach(packages, labels) && p.recipient !in labels
    ensures OneEach(packages + [p], labels + {p.recipient})
  {
  }

  /** Envelopes of one kind, all to parties among these. */
  ghost predicate Sent<L>(r: Roster<L>, labels: set<L>, kind: Kind, generation: nat, secret: Option<nat>, packages: seq<Package<L>>)
    requires labels <= Parties(r)
  {
    forall i :: 0 <= i < |packages| ==>
      packages[i].recipient in labels
      && packages[i] == Package(packages[i].recipient, KeyOf(r, packages[i].recipient), kind, generation, secret)
  }

  lemma SentOneMore<L>(
    r: Roster<L>, labels: set<L>, kind: Kind, generation: nat, secret: Option<nat>, more: seq<Package<L>>, l: L)
    requires labels <= Parties(r) && l in labels && Sent(r, labels, kind, generation, secret, more)
    ensures Sent(r, labels, kind, generation, secret, more + [Package(l, KeyOf(r, l), kind, generation, secret)])
  {
    hide KeyOf;
  }

  /** Everybody but `todo` has been written to, each once, by envelopes of one kind. */
  ghost predicate Sending<L>(
    r: Roster<L>, labels: set<L>, kind: Kind, generation: nat, secret: Option<nat>, already: seq<Package<L>>, kept: set<L>,
    todo: set<L>, more: seq<Package<L>>) {
    && todo <= labels <= Parties(r) && labels !! kept
    && OneEach(already + more, kept + (labels - todo))
    && Sent(r, labels, kind, generation, secret, more)
  }

  lemma StartSending<L>(
    r: Roster<L>, labels: set<L>, kind: Kind, generation: nat, secret: Option<nat>, already: seq<Package<L>>, kept: set<L>)
    requires labels <= Parties(r) && labels !! kept && OneEach(already, kept)
    ensures Sending(r, labels, kind, generation, secret, already, kept, labels, [])
  {
    assert already + [] == already && kept + (labels - labels) == kept;
    hide OneEach;
  }

  lemma SendOne<L>(
    r: Roster<L>, labels: set<L>, kind: Kind, generation: nat, secret: Option<nat>, already: seq<Package<L>>, kept: set<L>,
    todo: set<L>, more: seq<Package<L>>, l: L)
    requires Sending(r, labels, kind, generation, secret, already, kept, todo, more) && l in todo
    ensures l in Parties(r)
    ensures Sending(r, labels, kind, generation, secret, already, kept, todo - {l},
                    more + [Package(l, KeyOf(r, l), kind, generation, secret)])
  {
    var p := Package(l, KeyOf(r, l), kind, generation, secret);
    OneMore(already + more, kept + (labels - todo), p);
    SentOneMore(r, labels, kind, generation, secret, more, l);
    assert (already + more) + [p] == already + (more + [p]);
    assert kept + (labels - todo) + {l} == kept + (labels - (todo - {l}));
    hide OneEach, Sent, KeyOf;
  }

  lemma SendingDone<L>(
    r: Roster<L>, labels: set<L>, kind: Kind, generation: nat, secret: Option<nat>, already: seq<Package<L>>, kept: set<L>,
    more: seq<Package<L>>)
    requires Sending(r, labels, kind, generation, secret, already, kept, {}, more)
    ensures OneEach(already + more, kept + labels)
    ensures Sent(r, labels, kind, generation, secret, more)
  {
    assert labels - {} == labels;
    hide OneEach;
  }

  /** One envelope of this kind to each label, after the ones already addressed to `kept`. */
  method SendAll<L(==)>(
    r: Roster<L>, labels: set<L>, kind: Kind, generation: nat, secret: Option<nat>, already: seq<Package<L>>, ghost kept: set<L>)
    returns (more: seq<Package<L>>)
    requires labels <= Parties(r) && labels !! kept && OneEach(already, kept)
    ensures OneEach(already + more, kept + labels)
    ensures Sent(r, labels, kind, generation, secret, more)
  {
    hide *;
    more := [];
    var todo := labels;
    StartSending(r, labels, kind, generation, secret, already, kept);
    while todo != {}
      invariant Sending(r, labels, kind, generation, secret, already, kept, todo, more)
      decreases todo
    {
      var l :| l in todo;
      SendOne(r, labels, kind, generation, secret, already, kept, todo, more, l);
      more := more + [Package(l, KeyOf(r, l), kind, generation, secret)];
      todo := todo - {l};
    }
    SendingDone(r, labels, kind, generation, secret, already, kept, more);
  }

  /** Members get the secret, supervisors do not; one envelope each. */
  ghost predicate ForRoster<L>(r: Roster<L>, memberKind: Kind, generation: nat, secret: nat, packages: seq<Package<L>>) {
    && OneEach(packages, Parties(r))
    && (forall i :: 0 <= i < |packages| ==> Serves(r, memberKind, generation, secret, packages[i]))
  }

  ghost predicate Serves<L>(r: Roster<L>, memberKind: Kind, generation: nat, secret: nat, p: Package<L>) {
    && p.recipient in Parties(r) && p.key == KeyOf(r, p.recipient) && p.generation == generation
    && (if p.recipient in r.members then p.kind == memberKind && p.secret == Some(secret)
        else p.kind == Supervise && p.secret.None?)
  }

  method PackagesForRoster<L(==)>(r: Roster<L>, memberKind: Kind, generation: nat, secret: nat) returns (packages: seq<Package<L>>)
    requires r.members.Keys !! r.supervisors.Keys
    ensures ForRoster(r, memberKind, generation, secret, packages)
  {
    var none: seq<Package<L>> := [];
    assert OneEach(none, {});
    hide OneEach;
    var first := SendAll(r, r.members.Keys, memberKind, generation, Some(secret), none, {});
    assert none + first == first && {} + r.members.Keys == r.members.Keys;
    var second := SendAll(r, r.supervisors.Keys, Supervise, generation, None, first, r.members.Keys);
    packages := first + second;
    AllServed(r, memberKind, generation, secret, first, second);
    hide *;
  }

  lemma AllServed<L>(r: Roster<L>, memberKind: Kind, generation: nat, secret: nat, first: seq<Package<L>>, second: seq<Package<L>>)
    requires r.members.Keys !! r.supervisors.Keys && OneEach(first + second, r.members.Keys + r.supervisors.Keys)
    requires Sent(r, r.members.Keys, memberKind, generation, Some(secret), first)
    requires Sent(r, r.supervisors.Keys, Supervise, generation, None, second)
    ensures ForRoster(r, memberKind, generation, secret, first + second)
  {
    hide OneEach;
  }

  // ---- creating --------------------------------------------------------------------------------------------

  /** A bridge as one store holds it. `sealed` is the secret wrapped to a local member. */
  datatype Bridge = Bridge(roster: Roster<string>, generation: nat, public: nat, sealed: map<string, nat>, destroyed: bool)

  /** A live bridge is proper; sealed secrets are the current one, held for members; a destroyed bridge has none. */
  ghost predicate Sound(b: Bridge) {
    && b.generation >= 1
    && (!b.destroyed ==> Proper(b.roster))
    && (forall l :: l in b.sealed ==> l in b.roster.members && b.sealed[l] == b.public)
    && (b.destroyed ==> b.sealed == map[])
  }

  datatype Creation = Creation(roster: Roster<string>, local: Option<string>, secret: nat, packages: seq<Package<string>>)

  ghost predicate PlannedCreation(c: Creation) {
    Proper(c.roster) && ForRoster(c.roster, Invite, 1, c.secret, c.packages)
  }

  ghost function LabelSet(parties: seq<PartyInput>): set<string> {
    set i | 0 <= i < |parties| :: parties[i].name
  }

  lemma LabelSetIs(parties: seq<PartyInput>)
    ensures LabelsOf(parties, |parties|, LabelSet(parties))
  {
  }

  /** What an invitation list must be. */
  ghost predicate Invitable(members: seq<PartyInput>, supervisors: seq<PartyInput>, local: Option<string>) {
    var ms, ss := LabelSet(members), LabelSet(supervisors);
    && NamedOnce(members, |members|) && NamedOnce(supervisors, |supervisors|)
    && (forall i :: 0 <= i < |members| ==> members[i].signing.Some?)
    && |ms| >= 2 && Covered(ms, ss) && (local.Some? ==> local.value in ms + ss)
  }

  lemma SameLabels(parties: seq<PartyInput>, a: set<string>, b: set<string>)
    requires LabelsOf(parties, |parties|, a) && LabelsOf(parties, |parties|, b)
    ensures a == b
  {
    forall l
      ensures l in a <==> l in b
    {
    }
  }

  method PlanCreate(members: seq<PartyInput>, supervisors: seq<PartyInput>, local: Option<string>, secret: nat)
    returns (r: Result<Creation>)
    ensures r.Ok? <==> Invitable(members, supervisors, local)
    ensures r.Ok? ==> PlannedCreation(r.value) && r.value.secret == secret && r.value.local == local
    ensures r.Ok? ==> r.value.roster.members.Keys == LabelSet(members)
    ensures r.Ok? ==> r.value.roster.supervisors.Keys == LabelSet(supervisors) - LabelSet(members)
    ensures r.Ok? ==> forall i :: 0 <= i < |members| ==>
      && members[i].name in r.value.roster.members && members[i].signing.Some?
      && r.value.roster.members[members[i].name] == MemberKeys(members[i].encryption, members[i].signing.value)
    ensures r.Ok? ==> forall i :: 0 <= i < |supervisors| && supervisors[i].name in r.value.roster.supervisors ==>
      r.value.roster.supervisors[supervisors[i].name] == supervisors[i].encryption
  {
    hide LabelsOf, NamedOnce, Covered, ForRoster, LabelSet;
    ghost var ms, ss := LabelSet(members), LabelSet(supervisors);
    LabelSetIs(members);
    LabelSetIs(supervisors);
    var m := UniqueMembers(members);
    if m.Err? {
      return Err(m.error);
    }
    SameLabels(members, ms, m.value.Keys);
    if |m.value| < 2 {
      return Err(TooFewBridgeMembers);
    }
    var s := UniqueSupervisors(supervisors);
    if s.Err? {
      return Err(s.error);
    }
    SameLabels(supervisors, ss, s.value.Keys);
    var filled := FillImpliedSupervisors(m.value, s.value);
    if filled.Err? {
      return Err(filled.error);
    }
    if local.Some? && local.value !in m.value && local.value !in filled.value {
      return Err(NotBridgeMember);
    }
    var roster := Roster(m.value, filled.value);
    CoveredWithout(ms, ss);
    assert filled.value.Keys == ss - ms;
    var packages := PackagesForRoster(roster, Invite, 1, secret);
    r := Ok(Creation(roster, local, secret, packages));
  }

  lemma CoveredWithout(ms: set<string>, ss: set<string>)
    requires Covered(ms, ss)
    ensures Covered(ms, ss - ms)
  {
  }

  // ---- removing --------------------------------------------------------------------------------------------

  datatype Outcome = Ends | Rotates(roster: Roster<string>, secret: nat)

  /** A removal worked out against `old` at generation `expected`; `local` is who carries it out. */
  datatype Removal = Removal(
    before: Roster<string>, expected: nat, removed: string, local: string, outcome: Outcome, packages: seq<Package<string>>)

  /** Who is still a member, and whom they need above them. */
  ghost predicate Reduced(before: Roster<string>, removed: string, r: Roster<string>) {
    r.members == before.members - {removed} && Needed(r.members, before, r.supervisors)
  }

  /** What each party of the old roster is sent. The removed member is never sent the secret. */
  ghost predicate Told(before: Roster<string>, expected: nat, outcome: Outcome, package: Package<string>) {
    && package.recipient in Parties(before) && package.key == KeyOf(before, package.recipient)
    && (outcome.Rotates? && package.recipient in Parties(outcome.roster) ==>
          Serves(outcome.roster, Rotate, expected + 1, outcome.secret, package))
    && (outcome.Ends? || package.recipient !in Parties(outcome.roster) ==>
          package.kind == Destroy && package.generation == expected && package.secret.None?)
  }

  ghost predicate AllTold(before: Roster<string>, expected: nat, outcome: Outcome, packages: seq<Package<string>>) {
    && OneEach(packages, Parties(before))
    && (forall i :: 0 <= i < |packages| ==> Told(before, expected, outcome, packages[i]))
  }

  ghost predicate PlannedRemoval(p: Removal) {
    && Proper(p.before) && p.removed in p.before.members && p.local in p.before.members && p.local != p.removed
    && AllTold(p.before, p.expected, p.outcome, p.packages)
    && match p.outcome
       case Ends => |p.before.members| == 2
       case Rotates(roster, _) => Reduced(p.before, p.removed, roster) && Proper(roster)
  }

  lemma ReducedParts(before: Roster<string>, removed: string, r: Roster<string>)
    requires Reduced(before, removed, r)
    ensures r.members.Keys !! r.supervisors.Keys
    ensures Parties(r) <= Parties(before)
  {
    hide ParentNodeLabel, KeyOf;
    forall l | l in r.supervisors
      ensures l !in r.members && l in Parties(before)
    {
    }
    forall l | l in r.members
      ensures l in before.members
    {
    }
  }

  lemma StillCovered(before: Roster<string>, removed: string, r: Roster<string>)
    requires Proper(before) && Reduced(before, removed, r)
    ensures Covered(r.members.Keys, r.supervisors.Keys)
  {
    hide ParentNodeLabel, KeyOf;
    forall m | m in r.members && ParentNodeLabel(m).Some?
      ensures ParentNodeLabel(m).value in r.members || ParentNodeLabel(m).value in r.supervisors
    {
      var p := ParentNodeLabel(m).value;
      assert m in before.members;
      assert p in Parties(before);
      assert ParentNodeLabel(m) == Some(p);
    }
  }

  lemma SameKey(before: Roster<string>, removed: string, r: Roster<string>, l: string)
    requires Reduced(before, removed, r) && l in Parties(r) && l in Parties(before)
    ensures KeyOf(r, l) == KeyOf(before, l)
  {
    hide ParentNodeLabel;
  }

  lemma OneFewer(members: map<string, MemberKeys>, removed: string)
    requires removed in members
    ensures |members - {removed}| == |members| - 1
  {
    assert (members - {removed}).Keys == members.Keys - {removed};
  }

  lemma EndingIsTold(before: Roster<string>, expected: nat, packages: seq<Package<string>>)
    requires Sent(before, Parties(before), Destroy, expected, None, packages)
    ensures forall i :: 0 <= i < |packages| ==> Told(before, expected, Ends, packages[i])
  {
    hide KeyOf, Serves;
  }

  lemma KeptIsTold(before: Roster<string>, expected: nat, removed: string, roster: Roster<string>, secret: nat, p: Package<string>)
    requires Reduced(before, removed, roster) && Serves(roster, Rotate, expected + 1, secret, p)
    ensures Told(before, expected, Rotates(roster, secret), p)
  {
    ReducedParts(before, removed, roster);
    SameKey(before, removed, roster, p.recipient);
    hide Reduced, KeyOf;
  }

  lemma RotationIsTold(before: Roster<string>, expected: nat, removed: string, roster: Roster<string>, secret: nat,
                       kept: seq<Package<string>>, dropped: seq<Package<string>>)
    requires Reduced(before, removed, roster)
    requires ForRoster(roster, Rotate, expected + 1, secret, kept)
    requires Sent(before, Parties(before) - Parties(roster), Destroy, expected, None, dropped)
    ensures forall i :: 0 <= i < |kept + dropped| ==> Told(before, expected, Rotates(roster, secret), (kept + dropped)[i])
  {
    hide Reduced, KeyOf, OneEach;
    forall i | 0 <= i < |kept|
      ensures Told(before, expected, Rotates(roster, secret), kept[i])
    {
      KeptIsTold(before, expected, removed, roster, secret, kept[i]);
    }
    forall i | 0 <= i < |dropped|
      ensures Told(before, expected, Rotates(roster, secret), dropped[i])
    {
    }
    hide Told, Serves, Parties, Sent;
  }

  /** Work out a removal. Nothing is stored yet. */
  /** A live bridge, and a member who holds its secret, presents the right key and names another member. */
  ghost predicate MayRemove(b: Bridge, removed: string, local: string, key: nat) {
    && !b.destroyed && local != removed && local in b.roster.members && local in b.sealed
    && key == b.roster.members[local].encryption && removed in b.roster.members
  }

  method PlanRemoveMember(b: Bridge, removed: string, local: string, key: nat, newSecret: nat) returns (r: Result<Removal>)
    requires Sound(b)
    ensures r.Ok? <==> MayRemove(b, removed, local, key)
    ensures r.Ok? ==> PlannedRemoval(r.value) && r.value.before == b.roster && r.value.expected == b.generation
    ensures r.Ok? ==> r.value.removed == removed && r.value.local == local
    ensures r.Ok? && r.value.outcome.Rotates? ==> r.value.outcome.secret == newSecret
  {
    hide ParentNodeLabel, PlannedRemoval, Covered;
    if b.destroyed {
      return Err(BridgeDestroyed);
    }
    if local == removed {
      return Err(InvalidBridge);
    }
    if local !in b.roster.members || local !in b.sealed {
      return Err(SealedKeyNotHeld);
    }
    if key != b.roster.members[local].encryption {
      return Err(IntegrityCheckFailed);
    }
    if removed !in b.roster.members {
      return Err(NotBridgeMember);
    }
    var members := b.roster.members - {removed};
    OneFewer(b.roster.members, removed);
    var p;
    if |members| < 2 {
      p := PlanEnding(b, removed, local);
    } else {
      p := PlanRotation(b, removed, local, newSecret);
    }
    r := Ok(p);
  }

  method PlanEnding(b: Bridge, removed: string, local: string) returns (p: Removal)
    requires Proper(b.roster) && removed in b.roster.members && local in b.roster.members && local != removed
    requires |b.roster.members| == 2
    ensures p == Removal(b.roster, b.generation, removed, local, Ends, p.packages)
    ensures PlannedRemoval(p)
  {
    var none: seq<Package<string>> := [];
    assert OneEach(none, {});
    hide OneEach, Covered, KeyOf;
    var packages := SendAll(b.roster, Parties(b.roster), Destroy, b.generation, None, none, {});
    assert none + packages == packages && {} + Parties(b.roster) == Parties(b.roster);
    p := Removal(b.roster, b.generation, removed, local, Ends, packages);
    EndingIsTold(b.roster, b.generation, packages);
  }

  method ReduceRoster(before: Roster<string>, removed: string) returns (r: Roster<string>)
    requires Proper(before) && |before.members - {removed}| >= 2
    ensures Reduced(before, removed, r)
    ensures Proper(r) && Parties(r) <= Parties(before)
  {
    hide Needed, Covered, Parties;
    var members := before.members - {removed};
    var supervisors := SupervisorsFor(members, before);
    r := Roster(members, supervisors);
    ReducedParts(before, removed, r);
    StillCovered(before, removed, r);
  }

  method PlanRotation(b: Bridge, removed: string, local: string, newSecret: nat) returns (p: Removal)
    requires Proper(b.roster) && removed in b.roster.members && local in b.roster.members && local != removed
    requires |b.roster.members - {removed}| >= 2
    ensures p.outcome.Rotates? && p.outcome.secret == newSecret
    ensures p.before == b.roster && p.expected == b.generation && p.removed == removed && p.local == local
    ensures PlannedRemoval(p)
  {
    hide AllTold, Reduced, Proper;
    var roster := ReduceRoster(b.roster, removed);
    var packages := RotationPackages(b.roster, b.generation, removed, roster, newSecret);
    p := Removal(b.roster, b.generation, removed, local, Rotates(roster, newSecret), packages);
  }

  /** The new roster's envelopes, then a notice to everybody it drops. */
  method RotationPackages(before: Roster<string>, expected: nat, removed: string, roster: Roster<string>, newSecret: nat)
    returns (packages: seq<Package<string>>)
    requires Reduced(before, removed, roster) && Proper(roster) && Parties(roster) <= Parties(before)
    ensures AllTold(before, expected, Rotates(roster, newSecret), packages)
  {
    hide OneEach, KeyOf, Covered, Told, Sent, ForRoster, Reduced, Parties;
    var kept := PackagesForRoster(roster, Rotate, expected + 1, newSecret);
    ServedOnce(roster, expected + 1, newSecret, kept);
    var dropped := SendAll(before, Parties(before) - Parties(roster), Destroy, expected, None, kept, Parties(roster));
    assert Parties(roster) + (Parties(before) - Parties(roster)) == Parties(before);
    packages := kept + dropped;
    RotationIsTold(before, expected, removed, roster, newSecret, kept, dropped);
  }

  lemma ServedOnce<L>(r: Roster<L>, generation: nat, secret: nat, packages: seq<Package<L>>)
    requires ForRoster(r, Rotate, generation, secret, packages)
    ensures OneEach(packages, Parties(r))
  {
  }

  /** The removed member gets exactly one envelope, and it does not carry the new secret. */
  lemma RemovedLearnsNothing(p: Removal) returns (i: nat)
    requires PlannedRemoval(p)
    ensures i < |p.packages| && p.packages[i].recipient == p.removed && p.packages[i].secret.None?
    ensures forall j :: 0 <= j < |p.packages| && p.packages[j].recipient == p.removed ==> j == i
    ensures p.packages[i].kind == if p.outcome.Rotates? && p.removed in p.outcome.roster.supervisors then Supervise else Destroy
  {
    EachIsAddressed(p.packages, Parties(p.before), p.removed);
    i :| 0 <= i < |p.packages| && p.packages[i].recipient == p.removed;
    assert Told(p.before, p.expected, p.outcome, p.packages[i]);
    if p.outcome.Rotates? {
      assert p.removed !in p.outcome.roster.members;
    }
  }

  // ---- committing ------------------------------------------------------------------------------------------

  /** The local member's copy of the secret. */
  function Sealed(roster: Roster<string>, local: Option<string>, secret: nat): map<string, nat> {
    if local.Some? && local.value in roster.members then map[local.value := secret] else map[]
  }

  /** Generation one with the planned roster; the secret is sealed for a member who founds it, and for nobody else. */
  ghost predicate Founded(c: Creation, b: Bridge) {
    && b.roster == c.roster && b.generation == 1 && b.public == c.secret && !b.destroyed
    && (forall l :: l in b.sealed <==> c.local == Some(l) && l in c.roster.members)
    && forall l :: l in b.sealed ==> b.sealed[l] == c.secret
  }

  method CommitCreation(bridges: map<nat, Bridge>, uid: nat, c: Creation) returns (r: Result<map<nat, Bridge>>)
    requires PlannedCreation(c)
    ensures r.Ok? <==> uid !in bridges
    ensures r.Ok? ==> OnlyChanged(bridges, uid, r.value) && Sound(r.value[uid]) && Founded(c, r.value[uid])
  {
    hide Proper, ForRoster;
    if uid in bridges {
      return Err(BridgeExists);
    }
    var b := Bridge(c.roster, 1, c.secret, Sealed(c.roster, c.local, c.secret), false);
    r := Ok(bridges[uid := b]);
  }

  /** Apply a removal, unless the bridge has moved on since it was worked out. */
  method CommitRemoval(bridges: map<nat, Bridge>, uid: nat, p: Removal) returns (r: Result<map<nat, Bridge>>)
    requires PlannedRemoval(p)
    requires uid in bridges ==> Sound(bridges[uid])
    ensures r.Ok? <==> uid in bridges && !bridges[uid].destroyed && bridges[uid].generation == p.expected
    ensures r.Ok? ==> OnlyChanged(bridges, uid, r.value) && Sound(r.value[uid]) && CarriedOut(bridges[uid], p, r.value[uid])
  {
    hide Proper, AllTold, Reduced;
    if uid !in bridges || bridges[uid].destroyed || bridges[uid].generation != p.expected {
      return Err(BridgeGenerationMismatch);
    }
    ReducedKeeps(p);
    RemovedIsCarriedOut(bridges[uid], p);
    hide CarriedOut;
    r := Ok(bridges[uid := Removed(bridges[uid], p)]);
  }

  lemma RemovedIsCarriedOut(b: Bridge, p: Removal)
    requires PlannedRemoval(p)
    ensures CarriedOut(b, p, Removed(b, p))
  {
    hide Proper, AllTold, Needed;
    ReducedKeeps(p);
  }

  /** The other bridges are as they were. */
  ghost predicate OnlyChanged(bridges: map<nat, Bridge>, uid: nat, after: map<nat, Bridge>) {
    after.Keys == bridges.Keys + {uid} && forall u :: u in bridges && u != uid ==> after[u] == bridges[u]
  }

  /**
   A rotation leaves exactly the other members and the supervisors these need,
   one generation on, the new secret sealed for whoever carried it out and for
   nobody else. An ending leaves roster and generation and no sealed secret.
   */
  ghost predicate CarriedOut(b: Bridge, p: Removal, after: Bridge) {
    match p.outcome
    case Ends => after.destroyed && after.roster == b.roster && after.generation == b.generation && after.sealed == map[]
    case Rotates(_, secret) =>
      && !after.destroyed && after.generation == p.expected + 1 && after.public == secret
      && after.roster.members == p.before.members - {p.removed} && p.removed !in after.roster.members
      && Needed(after.roster.members, p.before, after.roster.supervisors)
      && after.sealed == map[p.local := secret]
  }

  function Removed(b: Bridge, p: Removal): Bridge {
    match p.outcome
    case Ends => b.(destroyed := true, sealed := map[])
    case Rotates(roster, secret) => Bridge(roster, p.expected + 1, secret, Sealed(roster, Some(p.local), secret), false)
  }

  /** Whoever carries the removal out stays a member and holds the new secret. */
  lemma ReducedKeeps(p: Removal)
    requires PlannedRemoval(p)
    ensures p.outcome.Rotates? ==> p.local in p.outcome.roster.members && p.removed !in p.outcome.roster.members
  {
    hide Proper, AllTold, Needed;
  }

  // ---- whole runs ------------------------------------------------------------------------------------------

  datatype Event = Create(uid: nat, creation: Creation) | Remove(uid: nat, removal: Removal)

  /** Which roster each bridge had at each generation. */
  type Past = map<(nat, nat), Roster<string>>

  /** Plans were worked out from rosters this store once had. */
  ghost predicate FromThisStore(past: Past, e: Event) {
    match e
    case Create(_, c) => PlannedCreation(c)
    case Remove(uid, p) => PlannedRemoval(p) && (uid, p.expected) in past && past[(uid, p.expected)] == p.before
  }

  ghost predicate Valid(bridges: map<nat, Bridge>, past: Past) {
    && (forall u :: u in bridges ==>
          && Sound(bridges[u]) && (u, bridges[u].generation) in past
          && past[(u, bridges[u].generation)] == bridges[u].roster)
    && (forall k :: k in past ==> k.0 in bridges && k.1 <= bridges[k.0].generation)
  }

  function Noted(past: Past, uid: nat, b: Bridge): Past {
    past[(uid, b.generation) := b.roster]
  }

  /** A bridge replaced by one that is not behind it, with the roster noted. */
  lemma StillValid(bridges: map<nat, Bridge>, past: Past, uid: nat, b: Bridge)
    requires Valid(bridges, past) && Sound(b)
    requires uid in bridges ==> bridges[uid].generation <= b.generation
    ensures Valid(bridges[uid := b], Noted(past, uid, b))
  {
    hide Sound;
  }

  /** Members stay as they were or go; nobody joins. */
  ghost predicate OnlyFewer(before: Roster<string>, after: Roster<string>) {
    && (forall l :: l in after.members ==> l in before.members && after.members[l] == before.members[l])
    && Parties(after) <= Parties(before)
  }

  /** Nothing destroyed comes back, no generation falls, nobody joins a bridge, no past roster changes. */
  ghost predicate Later(b: map<nat, Bridge>, past: Past, b': map<nat, Bridge>, past': Past) {
    && (forall u :: u in b ==> u in b' && MovedOn(b[u], b'[u]))
    && (forall k :: k in past ==> k in past' && past'[k] == past[k])
  }

  ghost predicate MovedOn(b: Bridge, b': Bridge) {
    b.generation <= b'.generation && (b.destroyed ==> b' == b) && OnlyFewer(b.roster, b'.roster)
  }

  lemma MovedOnFurther(a: Bridge, b: Bridge, c: Bridge)
    requires MovedOn(a, b) && MovedOn(b, c)
    ensures MovedOn(a, c)
  {
    hide Parties;
  }

  /** A creation fits where there is no such bridge, a removal where the bridge lives and is as old as when it was planned. */
  ghost predicate StillFits(b: map<nat, Bridge>, e: Event) {
    match e
    case Create(uid, _) => uid !in b
    case Remove(uid, p) => uid in b && !b[uid].destroyed && b[uid].generation == p.expected
  }

  /** What one event does. A removal that goes through was worked out from the roster the bridge still has. */
  ghost predicate Followed(b: map<nat, Bridge>, past: Past, e: Event, ok: bool, b': map<nat, Bridge>, past': Past) {
    && Later(b, past, b', past') && ok == StillFits(b, e)
    && (!ok ==> b' == b && past' == past)
    && (ok ==> OnlyChanged(b, e.uid, b'))
    && (ok && e.Create? ==> e.uid !in b && Founded(e.creation, b'[e.uid]))
    && (ok && e.Remove? ==>
          && e.uid in b && !b[e.uid].destroyed && b[e.uid].roster == e.removal.before
          && CarriedOut(b[e.uid], e.removal, b'[e.uid]))
  }

  method Step(b: map<nat, Bridge>, ghost past: Past, e: Event) returns (ok: bool, after: map<nat, Bridge>, ghost next: Past)
    requires Valid(b, past) && FromThisStore(past, e)
    ensures !ok ==> after == b
    ensures Valid(after, next) && Followed(b, past, e, ok, after, next)
  {
    match e {
      case Create(uid, c) =>
        ok, after, next := StepCreate(b, past, uid, c);
      case Remove(uid, p) =>
        ok, after, next := StepRemove(b, past, uid, p);
    }
  }

  method StepCreate(b: map<nat, Bridge>, ghost past: Past, uid: nat, c: Creation)
    returns (ok: bool, after: map<nat, Bridge>, ghost next: Past)
    requires Valid(b, past) && PlannedCreation(c)
    ensures !ok ==> after == b
    ensures Valid(after, next) && Followed(b, past, Create(uid, c), ok, after, next)
  {
    hide Sound, PlannedCreation, Proper, Founded;
    LaterSame(b, past);
    ok, after, next := false, b, past;
    var r := CommitCreation(b, uid, c);
    if r.Ok? {
      StepIsLater(b, past, uid, r.value);
      FollowedByCreation(b, past, uid, c, r.value, Noted(past, uid, r.value[uid]));
      assert r.value == b[uid := r.value[uid]];
      hide Noted, Followed, Later, Valid, OnlyChanged;
      StillValid(b, past, uid, r.value[uid]);
      ok, after, next := true, r.value, Noted(past, uid, r.value[uid]);
    }
  }

  /** A removal leaves fewer members, and of the parties none that was not there. */
  lemma CarriedOutFewer(b: Bridge, p: Removal, after: Bridge)
    requires CarriedOut(b, p, after) && b.roster == p.before && p.expected == b.generation
    ensures OnlyFewer(b.roster, after.roster) && b.generation <= after.generation
  {
    if p.outcome.Rotates? {
      forall l | l in Parties(after.roster)
        ensures l in Parties(b.roster)
      {
        assert l in after.roster.supervisors ==> l in Parties(p.before);
      }
    }
  }

  lemma RemovalFollows(b: map<nat, Bridge>, past: Past, uid: nat, p: Removal, after: map<nat, Bridge>)
    requires Valid(b, past) && uid in b && !b[uid].destroyed && b[uid].generation == p.expected && b[uid].roster == p.before
    requires OnlyChanged(b, uid, after) && CarriedOut(b[uid], p, after[uid])
    ensures b[uid].generation <= after[uid].generation
    ensures Followed(b, past, Remove(uid, p), true, after, Noted(past, uid, after[uid]))
  {
    CarriedOutFewer(b[uid], p, after[uid]);
    assert after[uid].generation == b[uid].generation ==> after[uid].roster == b[uid].roster;
    hide *;
    StepIsLater(b, past, uid, after);
    FollowedByRemoval(b, past, uid, p, after, Noted(past, uid, after[uid]));
  }

  lemma FollowedByRemoval(b: map<nat, Bridge>, past: Past, uid: nat, p: Removal, after: map<nat, Bridge>, past': Past)
    requires Later(b, past, after, past') && uid in b && !b[uid].destroyed && b[uid].roster == p.before
    requires b[uid].generation == p.expected
    requires OnlyChanged(b, uid, after) && CarriedOut(b[uid], p, after[uid])
    ensures Followed(b, past, Remove(uid, p), true, after, past')
  {
    hide Later, CarriedOut;
  }

  lemma FollowedByCreation(b: map<nat, Bridge>, past: Past, uid: nat, c: Creation, after: map<nat, Bridge>, past': Past)
    requires Later(b, past, after, past') && uid !in b && OnlyChanged(b, uid, after) && Founded(c, after[uid])
    ensures Followed(b, past, Create(uid, c), true, after, past')
  {
    hide Later, Founded;
  }

  /** One bridge added, or moved on with nobody joining: a later state. */
  lemma StepIsLater(b: map<nat, Bridge>, past: Past, uid: nat, after: map<nat, Bridge>)
    requires Valid(b, past) && OnlyChanged(b, uid, after)
    requires uid in b ==>
      && !b[uid].destroyed && b[uid].generation <= after[uid].generation && OnlyFewer(b[uid].roster, after[uid].roster)
      && (b[uid].generation == after[uid].generation ==> b[uid].roster == after[uid].roster)
    ensures Later(b, past, after, Noted(past, uid, after[uid]))
  {
    PastStays(b, past, uid, after[uid]);
    forall u | u in b
      ensures MovedOn(b[u], after[u])
    {
    }
    hide MovedOn, Noted, Valid;
  }

  lemma PastStays(b: map<nat, Bridge>, past: Past, uid: nat, after: Bridge)
    requires Valid(b, past)
    requires uid in b && b[uid].generation == after.generation ==> b[uid].roster == after.roster
    requires uid in b ==> b[uid].generation <= after.generation
    ensures forall k :: k in past ==> k in Noted(past, uid, after) && Noted(past, uid, after)[k] == past[k]
  {
    hide Sound;
  }

  method StepRemove(b: map<nat, Bridge>, ghost past: Past, uid: nat, p: Removal)
    returns (ok: bool, after: map<nat, Bridge>, ghost next: Past)
    requires Valid(b, past) && PlannedRemoval(p) && (uid, p.expected) in past && past[(uid, p.expected)] == p.before
    ensures !ok ==> after == b
    ensures Valid(after, next) && Followed(b, past, Remove(uid, p), ok, after, next)
  {
    hide Sound, PlannedRemoval;
    LaterSame(b, past);
    ok, after, next := false, b, past;
    var r := CommitRemoval(b, uid, p);
    if r.Ok? {
      RemovalFollows(b, past, uid, p, r.value);
      hide Noted, Followed, CarriedOut;
      assert r.value == b[uid := r.value[uid]];
      StillValid(b, past, uid, r.value[uid]);
      ok, after, next := true, r.value, Noted(past, uid, r.value[uid]);
    }
  }

  lemma LaterSame(b: map<nat, Bridge>, past: Past)
    ensures Later(b, past, b, past)
  {
  }

  lemma LaterOn(b0: map<nat, Bridge>, past0: Past, b: map<nat, Bridge>, past: Past, e: Event, ok: bool,
                b': map<nat, Bridge>, past': Past)
    requires Later(b0, past0, b, past) && Followed(b, past, e, ok, b', past')
    ensures Later(b0, past0, b', past')
  {
    assert Later(b, past, b', past');
    forall u | u in b0
      ensures u in b' && MovedOn(b0[u], b'[u])
    {
      MovedOnFurther(b0[u], b[u], b'[u]);
    }
    hide MovedOn, CarriedOut, Founded, OnlyChanged;
  }

  lemma StillFromHere(past: Past, past': Past, e: Event)
    requires FromThisStore(past, e)
    requires forall k :: k in past ==> k in past' && past'[k] == past[k]
    ensures FromThisStore(past', e)
  {
    hide PlannedRemoval, PlannedCreation;
  }

  /** What the user of a store does: work out plans, and carry any of them out at any later time. */
  datatype Action =
    | PlanNew(uid: nat, members: seq<PartyInput>, supervisors: seq<PartyInput>, local: Option<string>, secret: nat)
    | PlanRemoval(uid: nat, removed: string, remover: string, key: nat, secret: nat)
    | CarryOut(plan: nat)

  ghost predicate CanPlan(b: map<nat, Bridge>, a: Action) {
    match a
    case PlanNew(_, members, supervisors, local, _) => Invitable(members, supervisors, local)
    case PlanRemoval(uid, removed, remover, key, _) => uid in b && MayRemove(b[uid], removed, remover, key)
    case CarryOut(_) => false
  }

  /** The plan is what was asked for, worked out from the bridge as it is. */
  ghost predicate AskedFor(b: map<nat, Bridge>, a: Action, e: Event) {
    match a
    case PlanNew(uid, members, _, local, secret) =>
      && e.Create? && e.uid == uid && e.creation.local == local && e.creation.secret == secret
      && e.creation.roster.members.Keys == LabelSet(members)
    case PlanRemoval(uid, removed, remover, _, secret) =>
      && e.Remove? && e.uid == uid && e.removal.removed == removed && e.removal.local == remover
      && uid in b && e.removal.before == b[uid].roster && e.removal.expected == b[uid].generation
      && (e.removal.outcome.Rotates? ==> e.removal.outcome.secret == secret)
    case CarryOut(_) => false
  }

  datatype Moment = Moment(bridges: map<nat, Bridge>, plans: seq<Event>, past: Past)

  /** What one action does: a plan more, or one carried out if it still fits. */
  ghost predicate Acted(m: Moment, a: Action, m': Moment) {
    if a.CarryOut? then
      m'.plans == m.plans
      && if a.plan < |m.plans|
         then Followed(m.bridges, m.past, m.plans[a.plan], StillFits(m.bridges, m.plans[a.plan]), m'.bridges, m'.past)
         else m' == m
    else
      m'.bridges == m.bridges && m'.past == m.past
      && if CanPlan(m.bridges, a)
         then |m'.plans| == |m.plans| + 1 && m.plans <= m'.plans && AskedFor(m.bridges, a, m'.plans[|m.plans|])
         else m'.plans == m.plans
  }

  lemma CarriedOn(m: Moment, a: Action, m': Moment, ok: bool)
    requires a.CarryOut? && a.plan < |m.plans| && m'.plans == m.plans
    requires Followed(m.bridges, m.past, m.plans[a.plan], ok, m'.bridges, m'.past)
    ensures Acted(m, a, m')
  {
    hide Later, OnlyChanged, Founded, CarriedOut;
  }

  lemma NothingToCarryOut(m: Moment, a: Action)
    requires a.CarryOut? && a.plan >= |m.plans|
    ensures Acted(m, a, m)
  {
  }

  /** The private bridges of one store, and the plans made in it. */
  class Bridges {
    var bridges: map<nat, Bridge>
    var plans: seq<Event>
    ghost var past: Past

    ghost predicate Sane()
      reads this
    {
      Valid(bridges, past) && forall i :: 0 <= i < |plans| ==> FromThisStore(past, plans[i])
    }

    ghost function Now(): Moment
      reads this
    {
      Moment(bridges, plans, past)
    }

    constructor ()
      ensures Sane() && bridges == map[] && plans == []
    {
      bridges, plans, past := map[], [], map[];
    }

    method Plan(a: Action)
      requires Sane() && !a.CarryOut?
      modifies this`plans
      ensures Sane() && Acted(old(Now()), a, Now())
    {
      hide PlannedCreation, Invitable, MayRemove, LabelSet, PlannedRemoval, Sound;
      match a {
        case PlanNew(uid, members, supervisors, local, secret) =>
          var c := PlanCreate(members, supervisors, local, secret);
          if c.Ok? {
            plans := plans + [Create(uid, c.value)];
          }
        case PlanRemoval(uid, removed, local, key, secret) =>
          if uid in bridges {
            var p := PlanRemoveMember(bridges[uid], removed, local, key, secret);
            if p.Ok? {
              plans := plans + [Remove(uid, p.value)];
            }
          }
      }
    }

    /** Carry out one plan, if it still fits. */
    method Execute(e: Event) returns (ok: bool)
      requires Sane() && FromThisStore(past, e)
      modifies this
      ensures Sane() && plans == old(plans) && Followed(old(bridges), old(past), e, ok, bridges, past)
    {
      hide Valid, FromThisStore;
      ghost var next;
      ghost var before := past;
      ok, bridges, next := Step(bridges, past, e);
      past := next;
      forall k | 0 <= k < |plans|
        ensures FromThisStore(past, plans[k])
      {
        StillFromHere(before, past, plans[k]);
      }
    }

    /** Any run: destruction is final, generations only rise, and old rosters stay as they were. */
    method Run(actions: seq<Action>) returns (ghost trace: seq<Moment>)
      requires Sane()
      modifies this
      ensures Sane() && Later(old(bridges), old(past), bridges, past)
      ensures |trace| == |actions| + 1 && trace[0] == old(Now()) && trace[|actions|] == Now()
      ensures forall i :: 0 <= i < |actions| ==> Acted(trace[i], actions[i], trace[i + 1])
    {
      hide Valid, Later, Followed, FromThisStore, Acted;
      LaterSame(bridges, past);
      trace := [Now()];
      for i := 0 to |actions|
        invariant Sane() && Later(old(bridges), old(past), bridges, past)
        invariant |trace| == i + 1 && trace[0] == old(Now()) && trace[i] == Now()
        invariant forall k :: 0 <= k < i ==> Acted(trace[k], actions[k], trace[k + 1])
      {
        ghost var b, p := bridges, past;
        if !actions[i].CarryOut? {
          Plan(actions[i]);
        } else if actions[i].plan < |plans| {
          var e := plans[actions[i].plan];
          var ok := Execute(e);
          LaterOn(old(bridges), old(past), b, p, e, ok, bridges, past);
          CarriedOn(trace[i], actions[i], Now(), ok);
        } else {
          NothingToCarryOut(trace[i], actions[i]);
        }
        trace := trace + [Now()];
      }
    }
  }
}
