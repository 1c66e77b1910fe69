/**
 Any number of senders, droppers and take-overs at work on one outbox, their
 transactions interleaved in any order. The history fields record what was
 pushed, what left and by whose hand; they change nothing.
 */
module OutboxRuns {
  import opened Results
  import opened Ring
  import opened Outbox

  /** A letter taken from the head: sent by the sender holding `sender`, or dropped. */
  datatype Exit<L> = Exit(letter: L, sender: Option<int>)

  /**
   `place[t]` is how many letters had left when token `t` claimed the head, and
   `handed[t]` the letter it was given; `delivered` are the tokens whose
   delivery succeeded.
   */
  datatype World<L> = World(
    store: Store<L>, pushed: seq<L>, exits: seq<Exit<L>>,
    place: map<int, nat>, handed: map<int, L>, delivered: set<int>)

  datatype Event<L> =
    | Queue(letter: L)
    | ClaimHead(token: int, takeOver: bool, now: int, passes: bool)
    | Deliver(token: int)
    | Free(token: int)
    | Unclaim(token: int)
    | Drop(takeOver: bool, now: int)
    | SetCapacity(capacity: nat)

  /**
   Tokens are drawn fresh; a sender delivers what it claimed, and frees only
   after its delivery succeeded. A crash is a sender with no further event.
   */
  predicate Enabled<L>(w: World<L>, e: Event<L>) {
    match e
    case ClaimHead(token, _, _, _) => token !in w.place
    case Deliver(token) => token in w.place
    case Free(token) => token in w.delivered
    case Unclaim(token) => token in w.place
    case _ => true
  }

  ghost predicate WellFormed<L>(w: World<L>) {
    Full(w.store.ring)
  }

  ghost function Next<L>(w: World<L>, e: Event<L>): World<L>
    requires WellFormed(w)
  {
    match e
    case Queue(letter) =>
      if w.store.ring.size >= w.store.ring.capacity then w
      else w.(store := QueueTx(w.store, letter), pushed := w.pushed + [letter])
    case ClaimHead(token, takeOver, now, passes) =>
      if !HeadFree(w.store, takeOver, now) || !passes then w
      else w.(store := ClaimTx(w.store, token, now),
              place := w.place[token := |w.exits|],
              handed := w.handed[token := Slots(w.store.ring)[0].letter])
    case Deliver(token) => w.(delivered := w.delivered + {token})
    case Free(token) =>
      if !StillOurs(w.store, token) then w
      else w.(store := ReleaseHead(w.store, true), exits := w.exits + [Exit(Slots(w.store.ring)[0].letter, Some(token))])
    case Unclaim(token) => w.(store := UnclaimTx(w.store, token))
    case Drop(takeOver, now) =>
      if !HeadFree(w.store, takeOver, now) then w
      else w.(store := ReleaseHead(w.store, false), exits := w.exits + [Exit(Slots(w.store.ring)[0].letter, None)])
    case SetCapacity(c) =>
      if w.store.ring.size != 0 || c == 0 || c > MAX_CAPACITY then w
      else w.(store := w.store.(ring := Step(w.store.ring, Resize(c))))
  }

  // ---- the invariant ------------------------------------------------------------------

  function Gone<L>(exits: seq<Exit<L>>): (q: seq<L>)
    ensures |q| == |exits| && forall j :: 0 <= j < |exits| ==> q[j] == exits[j].letter
  {
    seq(|exits|, j requires 0 <= j < |exits| => exits[j].letter)
  }

  function CountSent<L>(exits: seq<Exit<L>>): nat {
    if exits == [] then 0
    else CountSent(exits[..|exits| - 1]) + if exits[|exits| - 1].sender.Some? then 1 else 0
  }

  /** First in, first out: what left and what is held, in order, are what was pushed. */
  ghost predicate InOrder<L>(w: World<L>)
    requires WellFormed(w)
  {
    Gone(w.exits) + Letters(Slots(w.store.ring)) == w.pushed
  }

  /** A claim on a slot belongs to the sender that was handed that very letter. */
  ghost predicate ClaimsMatch<L>(w: World<L>)
    requires WellFormed(w)
  {
    forall k :: 0 <= k < w.store.ring.size && Slots(w.store.ring)[k].claim.Some? ==>
      var t := Slots(w.store.ring)[k].claim.value.token; t in w.place && w.place[t] == |w.exits| + k
  }

  ghost predicate HandedMatch<L>(w: World<L>) {
    && w.delivered <= w.place.Keys
    && forall t :: t in w.place ==> t in w.handed && w.place[t] < |w.pushed| && w.handed[t] == w.pushed[w.place[t]]
  }

  /** A letter counted as sent was delivered, in full, by the sender that freed it. */
  ghost predicate SentWereDelivered<L>(w: World<L>) {
    forall j :: 0 <= j < |w.exits| && w.exits[j].sender.Some? ==>
      var t := w.exits[j].sender.value; t in w.delivered && t in w.place && w.place[t] == j
  }

  ghost predicate Inv<L>(w: World<L>) {
    && WellFormed(w) && InOrder(w) && ClaimsMatch(w) && HandedMatch(w) && SentWereDelivered(w)
    && w.store.sentTotal == CountSent(w.exits)
  }

  lemma LettersAppend<L>(slots: seq<Slot<L>>, s: Slot<L>)
    ensures Letters(slots + [s]) == Letters(slots) + [s.letter]
  {
  }

  lemma Queued<L>(w: World<L>, letter: L)
    requires WellFormed(w) && w.store.ring.size < w.store.ring.capacity
    ensures
      var n := Next(w, Queue(letter));
      && WellFormed(n) && n.store.ring.size == w.store.ring.size + 1 && n.store.sentTotal == w.store.sentTotal
      && Slots(n.store.ring) == Slots(w.store.ring) + [Slot(letter, None)]
      && n == w.(store := n.store, pushed := w.pushed + [letter])
  {
    PushAppends(w.store.ring, Slot(letter, None));
  }

  lemma AppendedInOrder<L>(w: World<L>, n: World<L>, letter: L)
    requires WellFormed(w) && WellFormed(n) && InOrder(w) && n.exits == w.exits && n.pushed == w.pushed + [letter]
    requires Slots(n.store.ring) == Slots(w.store.ring) + [Slot(letter, None)]
    ensures InOrder(n)
  {
    hide Full, Slots, Letters, Gone;
    LettersAppend(Slots(w.store.ring), Slot(letter, None));
    var gone, held := Gone(w.exits), Letters(Slots(w.store.ring));
    assert gone + (held + [letter]) == (gone + held) + [letter];
  }

  lemma AppendedClaims<L>(w: World<L>, n: World<L>, letter: L)
    requires WellFormed(w) && WellFormed(n) && ClaimsMatch(w) && n.exits == w.exits && n.place == w.place
    requires Slots(n.store.ring) == Slots(w.store.ring) + [Slot(letter, None)]
    requires n.store.ring.size == w.store.ring.size + 1
    ensures ClaimsMatch(n)
  {
    hide Full, Slots;
    assert |Slots(w.store.ring)| == w.store.ring.size;
  }

  lemma QueueKeeps<L>(w: World<L>, letter: L)
    requires Inv(w)
    ensures Inv(Next(w, Queue(letter)))
  {
    if w.store.ring.size < w.store.ring.capacity {
      var n := Next(w, Queue(letter));
      Queued(w, letter);
      AppendedInOrder(w, n, letter);
      AppendedClaims(w, n, letter);
      hide Next, Full, InOrder, ClaimsMatch, CountSent;
      assert HandedMatch(n);
    }
  }

  /** The head's letter is the next one due in push order. */
  lemma HeadIsNextDue<L>(w: World<L>)
    requires WellFormed(w) && InOrder(w) && w.store.ring.size > 0
    ensures |w.exits| < |w.pushed| && w.pushed[|w.exits|] == Slots(w.store.ring)[0].letter
  {
    assert w.pushed[|w.exits|] == (Gone(w.exits) + Letters(Slots(w.store.ring)))[|w.exits|];
  }

  ghost function Claimed<L>(w: World<L>, token: int, now: int): World<L>
    requires WellFormed(w) && w.store.ring.size > 0 && w.store.ring.read in w.store.ring.held
  {
    w.(store := ClaimTx(w.store, token, now),
       place := w.place[token := |w.exits|],
       handed := w.handed[token := Slots(w.store.ring)[0].letter])
  }

  lemma ClaimKeepsStore<L>(w: World<L>, token: int, now: int)
    requires Inv(w) && w.store.ring.size > 0 && token !in w.place
    ensures w.store.ring.read in w.store.ring.held
    ensures
      var n := Claimed(w, token, now);
      WellFormed(n) && InOrder(n) && ClaimsMatch(n)
  {
    HeadSlot(w.store.ring);
    ClaimChangesHeadOnly(w.store, token, now);
    assert Letters(Slots(Claimed(w, token, now).store.ring)) == Letters(Slots(w.store.ring));
  }

  lemma ClaimKeepsHanded<L>(w: World<L>, token: int, now: int)
    requires Inv(w) && w.store.ring.size > 0 && w.store.ring.read in w.store.ring.held && token !in w.place
    ensures HandedMatch(Claimed(w, token, now)) && SentWereDelivered(Claimed(w, token, now))
  {
    HeadIsNextDue(w);
  }

  lemma ClaimKeeps<L>(w: World<L>, e: Event<L>)
    requires Inv(w) && e.ClaimHead? && Enabled(w, e)
    ensures Inv(Next(w, e))
  {
    if HeadFree(w.store, e.takeOver, e.now) && e.passes {
      ClaimKeepsStore(w, e.token, e.now);
      ClaimKeepsHanded(w, e.token, e.now);
      assert Next(w, e) == Claimed(w, e.token, e.now);
    }
  }

  ghost function Exited<L>(w: World<L>, sender: Option<int>): World<L>
    requires WellFormed(w) && w.store.ring.size > 0
  {
    w.(store := ReleaseHead(w.store, sender.Some?), exits := w.exits + [Exit(Slots(w.store.ring)[0].letter, sender)])
  }

  lemma ExitInOrder<L>(gone: seq<L>, slots: seq<Slot<L>>)
    requires slots != []
    ensures (gone + [slots[0].letter]) + Letters(slots[1..]) == gone + Letters(slots)
  {
    assert Letters(slots) == [slots[0].letter] + Letters(slots[1..]);
  }

  lemma ExitClaims<L>(w: World<L>, sender: Option<int>)
    requires Inv(w) && w.store.ring.size > 0 && WellFormed(Exited(w, sender))
    requires Slots(Exited(w, sender).store.ring) == Slots(w.store.ring)[1..]
    ensures ClaimsMatch(Exited(w, sender))
  {
    var n, before := Exited(w, sender), Slots(w.store.ring);
    forall k | 0 <= k < n.store.ring.size && Slots(n.store.ring)[k].claim.Some?
      ensures var t := Slots(n.store.ring)[k].claim.value.token; t in n.place && n.place[t] == |n.exits| + k
    {
      assert Slots(n.store.ring)[k] == before[k + 1];
    }
  }

  lemma ExitKeeps<L>(w: World<L>, sender: Option<int>)
    requires Inv(w) && w.store.ring.size > 0
    requires sender.Some? ==> sender.value in w.delivered && CarriesToken(Slots(w.store.ring)[0], sender.value)
    ensures Inv(Exited(w, sender))
  {
    ReleaseTakesHead(w.store.ring);
    var n := Exited(w, sender);
    ExitClaims(w, sender);
    assert n.exits[..|n.exits| - 1] == w.exits;
    assert Gone(n.exits) == Gone(w.exits) + [Slots(w.store.ring)[0].letter];
    ExitInOrder(Gone(w.exits), Slots(w.store.ring));
  }

  lemma UnclaimKeeps<L>(w: World<L>, token: int)
    requires Inv(w)
    ensures Inv(Next(w, Unclaim(token)))
  {
    UnclaimKeepsLetters(w.store, token);
    var n := Next(w, Unclaim(token));
    assert Letters(Slots(n.store.ring)) == Letters(Slots(w.store.ring));
  }

  lemma CapacityKeeps<L>(w: World<L>, c: nat)
    requires Inv(w)
    ensures Inv(Next(w, SetCapacity(c)))
  {
    if w.store.ring.size == 0 && 1 <= c <= MAX_CAPACITY {
      StepOk(w.store.ring, Resize(c));
      var n := Next(w, SetCapacity(c));
      assert Slots(n.store.ring) == [] == Slots(w.store.ring);
    }
  }

  lemma StepKeeps<L>(w: World<L>, e: Event<L>)
    requires Inv(w) && Enabled(w, e)
    ensures Inv(Next(w, e))
  {
    match e
    case Queue(letter) => QueueKeeps(w, letter);
    case ClaimHead(_, _, _, _) => ClaimKeeps(w, e);
    case Deliver(_) =>
    case Free(token) =>
      if StillOurs(w.store, token) {
        HeadSlot(w.store.ring);
        ExitKeeps(w, Some(token));
      }
    case Unclaim(token) => UnclaimKeeps(w, token);
    case Drop(takeOver, now) =>
      if HeadFree(w.store, takeOver, now) {
        ExitKeeps(w, None);
      }
    case SetCapacity(c) => CapacityKeeps(w, c);
  }

  // ---- whole runs -----------------------------------------------------------------------

  ghost function After<L>(w: World<L>, events: seq<Event<L>>): (r: Option<World<L>>)
    requires Inv(w)
    ensures r.Some? ==> Inv(r.value)
    decreases |events|
  {
    if events == [] then Some(w)
    else
      var before := After(w, events[..|events| - 1]);
      var e := events[|events| - 1];
      if before.Some? && Enabled(before.value, e) then
        StepKeeps(before.value, e);
        Some(Next(before.value, e))
      else None
  }

  ghost function Start<L>(capacity: nat): (w: World<L>)
    requires capacity >= 1
    ensures Inv(w)
  {
    var w: World<L> := World(Store(Empty(capacity), 0), [], [], map[], map[], {});
    WrapOnce(capacity, 0);
    assert Letters(Slots(w.store.ring)) == [];
    w
  }

  function CountDropped<L>(exits: seq<Exit<L>>): nat {
    if exits == [] then 0
    else CountDropped(exits[..|exits| - 1]) + if exits[|exits| - 1].sender.None? then 1 else 0
  }

  lemma {:induction false} SentOrDropped<L>(exits: seq<Exit<L>>)
    ensures CountSent(exits) + CountDropped(exits) == |exits|
  {
    if exits != [] {
      SentOrDropped(exits[..|exits| - 1]);
    }
  }

  /**
   Every interleaving, from an empty outbox: the letters gone and the letters
   held make up the pushed ones in push order, the counts add up, and each
   letter counted as sent was handed to, and delivered by, one sender, which
   frees nothing else.
   */
  lemma EveryInterleaving<L>(capacity: nat, events: seq<Event<L>>)
    requires capacity >= 1 && After(Start<L>(capacity), events).Some?
    ensures
      var w := After(Start<L>(capacity), events).value;
      && Gone(w.exits) + Letters(Slots(w.store.ring)) == w.pushed
      && |w.pushed| == w.store.sentTotal + CountDropped(w.exits) + w.store.ring.size
      && (forall j :: 0 <= j < |w.exits| && w.exits[j].sender.Some? ==>
            var t := w.exits[j].sender.value;
            t in w.delivered && t in w.handed && w.handed[t] == w.exits[j].letter == w.pushed[j])
      && (forall i, j :: 0 <= i < j < |w.exits| && w.exits[i].sender.Some? ==> w.exits[i].sender != w.exits[j].sender)
  {
    var w := After(Start<L>(capacity), events).value;
    SentOrDropped(w.exits);
    forall j | 0 <= j < |w.exits|
      ensures w.pushed[j] == w.exits[j].letter
    {
      assert w.pushed[j] == (Gone(w.exits) + Letters(Slots(w.store.ring)))[j];
    }
  }

  /** A sender whose claim was taken over, or whose letter has gone, frees nothing. */
  lemma OnlyTheCurrentClaimFrees<L>(w: World<L>, token: int)
    requires Inv(w)
    ensures |Next(w, Free(token)).exits| > |w.exits| <==> StillOurs(w.store, token)
    ensures StillOurs(w.store, token) ==> token in w.place && w.place[token] == |w.exits| && w.handed[token] == Slots(w.store.ring)[0].letter
  {
    if StillOurs(w.store, token) {
      HeadSlot(w.store.ring);
      assert Slots(w.store.ring)[0].claim.value.token == token;
      HeadIsNextDue(w);
    }
  }
}
