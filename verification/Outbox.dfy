/**
 One person's outbox: a ring of sealed letters, sent from the head by senders
 that claim, deliver with no lock held, and then free the slot.
 */
module Outbox {
  import opened Results
  import opened Ring

  /** Seconds a claim reserves the head. */
  const CLAIM_LEASE_SECS := 120
  const MAX_CAPACITY := 1024

  datatype Claim = Claim(token: int, at: int)
  datatype Slot<L> = Slot(letter: L, claim: Option<Claim>)
  datatype Store<L> = Store(ring: Ring<Slot<L>>, sentTotal: nat)

  predicate FreshlyClaimed<L>(slot: Slot<L>, now: int) {
    slot.claim.Some? && slot.claim.value.at > now - CLAIM_LEASE_SECS
  }

  predicate CarriesToken<L>(slot: Slot<L>, token: int) {
    slot.claim.Some? && slot.claim.value.token == token
  }

  // ---- the transactions, as functions of the store -----------------------------------

  function QueueTx<L>(s: Store<L>, letter: L): Store<L>
    requires s.ring.capacity >= 1
  {
    s.(ring := Step(s.ring, Push(Slot(letter, None))))
  }

  /** The head may be taken: there is one, and no fresh claim stands in the way. */
  predicate HeadFree<L>(s: Store<L>, takeOver: bool, now: int) {
    s.ring.size > 0 && s.ring.read in s.ring.held
    && (takeOver || !FreshlyClaimed(s.ring.held[s.ring.read], now))
  }

  function SetHead<L>(r: Ring<Slot<L>>, slot: Slot<L>): Ring<Slot<L>> {
    r.(held := r.held[r.read := slot])
  }

  function ClaimTx<L>(s: Store<L>, token: int, now: int): Store<L>
    requires s.ring.read in s.ring.held
  {
    s.(ring := SetHead(s.ring, s.ring.held[s.ring.read].(claim := Some(Claim(token, now)))))
  }

  function ReleaseHead<L>(s: Store<L>, sent: bool): Store<L>
    requires s.ring.capacity >= 1
  {
    Store(Released(s.ring, s.ring.read), if sent then s.sentTotal + 1 else s.sentTotal)
  }

  predicate StillOurs<L>(s: Store<L>, token: int) {
    s.ring.size > 0 && s.ring.read in s.ring.held && CarriesToken(s.ring.held[s.ring.read], token)
  }

  function UnclaimTx<L>(s: Store<L>, token: int): Store<L> {
    s.(ring := s.ring.(held := map i | i in s.ring.held ::
      if CarriesToken(s.ring.held[i], token) then s.ring.held[i].(claim := None) else s.ring.held[i]))
  }

  // ---- the queue a store stands for ----------------------------------------------------

  /** The outbox frees only its head, so every slot of the span is held. */
  ghost predicate Full<L>(r: Ring<Slot<L>>) {
    Consistent(r) && forall k :: 0 <= k < r.size ==> SlotAt(r.capacity, r.read, k) in r.held
  }

  /** The slots from the head on. */
  ghost function Slots<L>(r: Ring<Slot<L>>): (s: seq<Slot<L>>)
    requires Full(r)
    ensures |s| == r.size
    ensures forall k :: 0 <= k < r.size ==> s[k] == r.held[SlotAt(r.capacity, r.read, k)]
  {
    seq(r.size, k requires 0 <= k < r.size => r.held[SlotAt(r.capacity, r.read, k)])
  }

  ghost function Letters<L>(s: seq<Slot<L>>): (q: seq<L>)
    ensures |q| == |s| && forall k :: 0 <= k < |s| ==> q[k] == s[k].letter
  {
    seq(|s|, k requires 0 <= k < |s| => s[k].letter)
  }

  lemma SpanOfFull<L>(r: Ring<Slot<L>>)
    requires Full(r)
    ensures forall k :: 0 <= k < r.size ==> Span(r)[k] == Some(Slots(r)[k])
  {
  }

  lemma FullFromSpan<L>(r: Ring<Slot<L>>, slots: seq<Slot<L>>)
    requires Consistent(r) && |slots| == r.size && forall k :: 0 <= k < r.size ==> Span(r)[k] == Some(slots[k])
    ensures Full(r) && Slots(r) == slots
  {
    forall k | 0 <= k < r.size
      ensures SlotAt(r.capacity, r.read, k) in r.held && r.held[SlotAt(r.capacity, r.read, k)] == slots[k]
    {
      assert Span(r)[k] == Held(r, SlotAt(r.capacity, r.read, k));
    }
  }

  lemma PushAppends<L>(r: Ring<Slot<L>>, x: Slot<L>)
    requires Full(r) && r.size < r.capacity
    ensures Full(Pushed(r, x)) && Slots(Pushed(r, x)) == Slots(r) + [x]
  {
    PushedOk(r, x);
    SpanOfFull(r);
    FullFromSpan(Pushed(r, x), Slots(r) + [x]);
  }

  lemma StripOfFree<T>(s: seq<Option<T>>)
    requires s != [] && s[0].None? && forall k :: 1 <= k < |s| ==> s[k].Some?
    ensures Strip(s) == s[1..]
  {
    assert Strip(s[1..]) == s[1..];
  }

  lemma TailOfSpan<T>(span: seq<Option<T>>, slots: seq<T>)
    requires |span| == |slots| > 0 && forall k :: 0 <= k < |span| ==> span[k] == Some(slots[k])
    ensures
      var tail := Strip(span[0 := None]);
      |tail| == |slots| - 1 && forall k :: 0 <= k < |tail| ==> tail[k] == Some(slots[1..][k])
  {
    StripOfFree(span[0 := None]);
  }

  lemma FullIsConsistent<L>(r: Ring<Slot<L>>)
    requires Full(r)
    ensures Consistent(r) && r.read < r.capacity
  {
  }

  lemma ReleaseTakesHead<L>(r: Ring<Slot<L>>)
    requires Full(r) && r.size > 0
    ensures Full(Released(r, r.read)) && Slots(Released(r, r.read)) == Slots(r)[1..]
    ensures Released(r, r.read).capacity == r.capacity
  {
    FullIsConsistent(r);
    hide *;
    HeadSlot(r);
    ReleasedOk(r, 0);
    SpanOfFull(r);
    TailOfSpan(Span(r), Slots(r));
    FullFromSpan(Released(r, r.read), Slots(r)[1..]);
  }

  /** Changing claims changes no letter and no order. */
  lemma SameShape<L>(r: Ring<Slot<L>>, p: Ring<Slot<L>>)
    requires Full(r) && p == r.(held := p.held) && p.held.Keys == r.held.Keys
    ensures Full(p)
  {
    forall i | i in p.held
      ensures InSpan(p, i)
    {
      var k :| 0 <= k < r.size && SlotAt(r.capacity, r.read, k) == i;
      assert SlotAt(p.capacity, p.read, k) == i;
    }
  }

  lemma ClaimChangesHeadOnly<L>(s: Store<L>, token: int, now: int)
    requires Full(s.ring) && s.ring.size > 0
    ensures Full(ClaimTx(s, token, now).ring)
    ensures Slots(ClaimTx(s, token, now).ring) == Slots(s.ring)[0 := Slots(s.ring)[0].(claim := Some(Claim(token, now)))]
  {
    HeadSlot(s.ring);
    var p := ClaimTx(s, token, now).ring;
    SameShape(s.ring, p);
    forall k | 1 <= k < s.ring.size
      ensures SlotAt(p.capacity, p.read, k) != p.read
    {
      SlotsDiffer(p.capacity, p.read, 0, k);
    }
  }

  lemma UnclaimKeepsLetters<L>(s: Store<L>, token: int)
    requires Full(s.ring)
    ensures Full(UnclaimTx(s, token).ring)
    ensures forall k :: 0 <= k < s.ring.size ==>
      Slots(UnclaimTx(s, token).ring)[k] ==
      if CarriesToken(Slots(s.ring)[k], token) then Slots(s.ring)[k].(claim := None) else Slots(s.ring)[k]
    ensures Letters(Slots(UnclaimTx(s, token).ring)) == Letters(Slots(s.ring))
  {
    SameShape(s.ring, UnclaimTx(s, token).ring);
  }

  /** A claim made at `at` keeps others from the head for two minutes, and no longer. */
  lemma LeaseLasts<L>(s: Store<L>, token: int, at: int, now: int)
    requires s.ring.size > 0 && s.ring.read in s.ring.held
    ensures HeadFree(ClaimTx(s, token, at), false, now) <==> now >= at + 120
    ensures HeadFree(ClaimTx(s, token, at), true, now)
  {
  }

  // ---- the store, changed in place -------------------------------------------------------

  class Box<L> {
    const ring: Table<Slot<L>>
    var sentTotal: nat

    function View(): Store<L>
      reads this, ring
    {
      Store(ring.View(), sentTotal)
    }

    ghost predicate Valid()
      reads this, ring
    {
      Full(ring.View())
    }

    constructor (capacity: nat)
      requires capacity >= 1
      ensures Valid() && fresh(ring) && View() == Store(Empty(capacity), 0)
    {
      ring := new Table(capacity);
      sentTotal := 0;
    }

    /** Write a checked letter at the write pointer; refused when the ring is full. */
    method Queue(letter: L) returns (taken: bool)
      requires Valid()
      modifies ring
      ensures Valid() && View() == QueueTx(old(View()), letter)
      ensures taken ==> Slots(View().ring) == old(Slots(View().ring)) + [Slot(letter, None)]
      ensures !taken ==> View() == old(View()) && old(View().ring.size) >= old(View().ring.capacity)
    {
      if ring.size < ring.capacity {
        PushAppends(ring.View(), Slot(letter, None));
      }
      taken := ring.Push(Slot(letter, None));
    }

    /** Claim the head and hand out its letter. `passes`: hash, framing and recipient key were checked again. */
    method ClaimHead(token: int, takeOver: bool, now: int, passes: bool) returns (item: Option<L>)
      requires Valid()
      modifies ring
      ensures Valid()
      ensures item.Some? <==> old(HeadFree(View(), takeOver, now)) && passes
      ensures item.Some? ==> View() == ClaimTx(old(View()), token, now) && item.value == old(Slots(View().ring)[0].letter)
      ensures item.None? ==> View() == old(View())
    {
      if ring.size == 0 {
        return None;
      }
      HeadSlot(ring.View());
      var head := ring.slots[ring.read];
      if (!takeOver && FreshlyClaimed(head, now)) || !passes {
        return None;
      }
      ClaimChangesHeadOnly(View(), token, now);
      ring.slots := ring.slots[ring.read := head.(claim := Some(Claim(token, now)))];
      return Some(head.letter);
    }

    /** Free the head as sent, only if it still carries this sender's claim. */
    method FreeIfOurs(token: int) returns (freed: bool)
      requires Valid()
      modifies this, ring
      ensures Valid() && freed == old(StillOurs(View(), token))
      ensures View() == if freed then ReleaseHead(old(View()), true) else old(View())
      ensures freed ==> Slots(View().ring) == old(Slots(View().ring))[1..]
    {
      if ring.size == 0 {
        return false;
      }
      HeadSlot(ring.View());
      if !CarriesToken(ring.slots[ring.read], token) {
        return false;
      }
      ReleaseTakesHead(ring.View());
      ring.Release(ring.read);
      sentTotal := sentTotal + 1;
      return true;
    }

    /** Give up a claim, whichever slot carries it. */
    method Unclaim(token: int)
      requires Valid()
      modifies ring
      ensures Valid() && View() == UnclaimTx(old(View()), token)
      ensures Letters(Slots(View().ring)) == old(Letters(Slots(View().ring)))
      ensures forall k :: 0 <= k < View().ring.size ==> !CarriesToken(Slots(View().ring)[k], token)
      ensures forall k :: 0 <= k < View().ring.size && !CarriesToken(old(Slots(View().ring))[k], token) ==>
        Slots(View().ring)[k] == old(Slots(View().ring))[k]
    {
      ghost var was := View();
      UnclaimKeepsLetters(was, token);
      ring.slots := map i | i in ring.slots ::
        if CarriesToken(ring.slots[i], token) then ring.slots[i].(claim := None) else ring.slots[i];
      assert View() == UnclaimTx(was, token);
      hide Slots, Letters, UnclaimTx, Full;
    }

    /** Discard the head without counting it as sent. */
    method DropHead(takeOver: bool, now: int) returns (dropped: bool)
      requires Valid()
      modifies this, ring
      ensures Valid() && dropped == old(HeadFree(View(), takeOver, now))
      ensures View() == if dropped then ReleaseHead(old(View()), false) else old(View())
      ensures dropped ==> Slots(View().ring) == old(Slots(View().ring))[1..]
    {
      if ring.size == 0 {
        return false;
      }
      HeadSlot(ring.View());
      if !takeOver && FreshlyClaimed(ring.slots[ring.read], now) {
        return false;
      }
      ReleaseTakesHead(ring.View());
      ring.Release(ring.read);
      return true;
    }

    /** Every held letter, oldest first, moving no pointer. */
    method List() returns (items: seq<L>)
      requires Valid()
      ensures items == Letters(Slots(View().ring))
    {
      items := [];
      for offset := 0 to ring.size
        invariant |items| == offset
        invariant forall k :: 0 <= k < offset ==> items[k] == Slots(View().ring)[k].letter
      {
        var index := (ring.read + offset) % ring.capacity;
        assert index == SlotAt(ring.capacity, ring.read, offset);
        items := items + [ring.slots[index].letter];
      }
    }
  }
}
