/**
 The transfer commands. Every command takes the number of durable steps it may
 make before the power goes out; what holds when it returns therefore holds
 after any crash.
 */
module TransferCommands {
  import opened FiniteSets
  import opened Holdings
  import opened Results
  import opened Transfer

  datatype Refusal = Replay | Incomplete | IdentityConflict | InvalidPassword | Denied

  /** `Crashed`: the steps ran out before the command was through. */
  datatype Outcome = Done | Refused(why: Refusal) | Crashed

  datatype Recovered = Finalized | Aborted | AlreadyComplete | NeedsAdmin

  // ---- one device's slot loops --------------------------------------------------------
  // Each works on one device's record and returns the record as it is at the end, or
  // at the crash.

  /** Open every included slot and note its generation for the package. */
  method ReadEntries(b: Bundle, src: Source, unlocks: set<string>) returns (r: Outcome, entries: map<string, int>)
    requires forall l :: l in b.included ==> l in b.key && l in src.gen
    ensures r.Done? <==> forall l :: l in b.included ==> l in unlocks && l in src.slots && src.slots[l] == b.key[l]
    ensures !r.Crashed? && (r.Done? ==> entries.Keys == b.included && forall l :: l in b.included ==> entries[l] == src.gen[l])
  {
    entries := map[];
    var todo := b.included;
    while todo != {}
      invariant todo <= b.included && entries.Keys == b.included - todo
      invariant forall l :: l in b.included && l !in todo ==>
        l in entries && entries[l] == src.gen[l] && l in unlocks && l in src.slots && src.slots[l] == b.key[l]
      decreases |todo|
    {
      var l :| l in todo;
      if l !in unlocks || l !in src.slots {
        return Refused(InvalidPassword), entries;
      }
      if src.slots[l] != b.key[l] {
        return Refused(Refusal.IdentityConflict), entries;
      }
      entries := entries[l := src.gen[l]];
      todo := todo - {l};
    }
    return Done, entries;
  }

  /** Install one slot, logged before it is written. */
  /** What a write has changed: labels logged and slots installed, each of them one durable step. */
  function Written(dst: Dest, next: Dest): int {
    (|next.installed| - |dst.installed|) + (|next.slots.Keys| - |dst.slots.Keys|)
  }

  lemma WrittenOn(dst: Dest, mid: Dest, next: Dest)
    ensures Written(dst, next) == Written(dst, mid) + Written(mid, next)
    ensures Written(dst, dst) == 0 && Written(dst.(row := Some(Writing)), next) == Written(dst, next)
  {
  }

  method InstallOne(b: Bundle, dst: Dest, l: string, steps: nat) returns (next: Dest, ok: bool, left: nat)
    requires DestOk(b, dst) && dst.row == Some(Writing) && l in b.included && l in b.key && l !in dst.slots
    ensures DestOk(b, next) && next.row == Some(Writing) && next.gen == dst.gen
    ensures next.slots == if ok then dst.slots[l := b.key[l]] else dst.slots
    ensures left <= steps <= left + 2 && (!ok ==> left == 0)
    ensures steps == left + Written(dst, next)
  {
    hide RowsAre, SentIs, GensAre;
    next, left := dst, steps;
    if l !in next.installed {
      if left == 0 {
        return next, false, left;
      }
      left := left - 1;
      LogKeeps(b, next, l);
      next := next.(installed := next.installed + {l});
    }
    if left == 0 {
      return next, false, left;
    }
    left := left - 1;
    InstallKeeps(b, next, l);
    return InstallSlot(b, next, l), true, left;
  }

  /** One label: refuse it, find it there under its own key, or install it. */
  method InstallNext(b: Bundle, dst: Dest, l: string, unlocks: set<string>, steps: nat)
    returns (r: Outcome, next: Dest, left: nat)
    requires DestOk(b, dst) && dst.row == Some(Writing) && l in b.included && l in b.key
    ensures DestOk(b, next) && next.row == Some(Writing) && next.gen == dst.gen
    ensures next.slots == if r.Done? && l !in dst.slots then dst.slots[l := b.key[l]] else dst.slots
    ensures r.Done? ==> l in next.slots && next.slots[l] == b.key[l]
    ensures |next.slots.Keys| == |dst.slots.Keys| + if r.Done? && l !in dst.slots then 1 else 0
    ensures left <= steps <= left + 2 && (r.Crashed? ==> left == 0) && steps == left + Written(dst, next)
    ensures r == Refused(Refusal.IdentityConflict) ==> !NoConflict(b, next)
    ensures NoConflict(b, dst) ==> NoConflict(b, next) && (l in unlocks ==> !r.Refused?)
  {
    hide RowsAre, SentIs, GensAre, DestOk;
    if l !in unlocks {
      return Refused(InvalidPassword), dst, steps;
    }
    if l in dst.slots {
      return if dst.slots[l] == b.key[l] then Done else Refused(Refusal.IdentityConflict), dst, steps;
    }
    var ok;
    next, ok, left := InstallOne(b, dst, l, steps);
    assert ok ==> next.slots.Keys == dst.slots.Keys + {l};
    r := if ok then Done else Crashed;
  }

  method InstallAll(b: Bundle, dst: Dest, unlocks: set<string>, limit: Option<nat>, steps: nat)
    returns (r: Outcome, next: Dest, left: nat)
    requires DestOk(b, dst) && dst.row == Some(Writing) && forall l :: l in b.included ==> l in b.key
    ensures DestOk(b, next) && next.row == Some(Writing) && next.gen == dst.gen && left <= steps
    ensures r.Done? ==> HoldsAll(b, next) || (limit.Some? && |next.slots.Keys| == |dst.slots.Keys| + limit.value)
    ensures limit.Some? ==> |next.slots.Keys| <= |dst.slots.Keys| + limit.value
    ensures steps <= left + 2 * |b.included| && (r.Crashed? ==> left == 0)
    ensures steps == left + Written(dst, next)
    ensures r == Refused(Refusal.IdentityConflict) ==> !NoConflict(b, next)
    ensures b.included <= unlocks && NoConflict(b, dst) ==> !r.Refused?
  {
    hide RowsAre, SentIs, GensAre, DestOk, NoConflict, Written, HoldsAll;
    next, left := dst, steps;
    WrittenOn(dst, dst, dst);
    var written := 0;
    var todo := b.included;
    while todo != {}
      invariant DestOk(b, next) && next.row == Some(Writing) && next.gen == dst.gen && todo <= b.included
      invariant steps - 2 * (|b.included| - |todo|) <= left <= steps && steps == left + Written(dst, next)
      invariant forall l :: l in b.included && l !in todo ==> l in next.slots && next.slots[l] == b.key[l]
      invariant written == |next.slots.Keys| - |dst.slots.Keys| && (limit.Some? ==> written <= limit.value)
      invariant NoConflict(b, dst) ==> NoConflict(b, next)
      decreases |todo|
    {
      var l :| l in todo;
      if limit.Some? && written >= limit.value {
        return Done, next, left;
      }
      if l !in next.slots {
        written := written + 1;
      }
      ghost var was := next;
      r, next, left := InstallNext(b, next, l, unlocks, left);
      WrittenOn(dst, was, next);
      if !r.Done? {
        return;
      }
      todo := todo - {l};
    }
    HoldsAllOf(b, next);
    return Done, next, left;
  }

  lemma HoldsAllOf(b: Bundle, dst: Dest)
    requires forall l :: l in b.included ==> l in b.key && l in dst.slots && dst.slots[l] == b.key[l]
    ensures HoldsAll(b, dst)
  {
  }

  /** Take logged installs away again. */
  method Uninstall(b: Bundle, dst: Dest, steps: nat) returns (ok: bool, next: Dest, left: nat)
    requires DestOk(b, dst) && dst.row.Some? && !Ready(dst)
    ensures DestOk(b, next) && next == dst.(slots := next.slots) && left <= steps
    ensures ok ==> next.slots == b.dest0
    ensures dst.slots == b.dest0 ==> next == dst
    ensures steps <= left + |dst.installed| && (!ok ==> left == 0)
    ensures steps == left + |dst.slots.Keys| - |next.slots.Keys|
  {
    hide RowsAre, SentIs, GensAre, DestOk, RemoveDestSlot;
    next, left := dst, steps;
    var todo := dst.installed;
    while todo != {}
      invariant DestOk(b, next) && next == dst.(slots := next.slots) && todo <= dst.installed
      invariant forall l :: l in dst.installed && l !in todo ==> l !in next.slots
      invariant dst.slots == b.dest0 ==> next == dst
      invariant steps - (|dst.installed| - |todo|) <= left <= steps
      invariant steps == left + |dst.slots.Keys| - |next.slots.Keys|
      decreases |todo|
    {
      var l :| l in todo;
      if l in next.slots {
        if left == 0 {
          return false, next, left;
        }
        left := left - 1;
        RemoveDestKeeps(b, next, l);
        OneSlotLess(b, next, l);
        next := RemoveDestSlot(next, l);
      }
      todo := todo - {l};
    }
    Uninstalled(b, next);
    return true, next, left;
  }

  lemma OneSlotLess(b: Bundle, dst: Dest, l: string)
    requires DestOk(b, dst) && l in dst.installed && l in dst.slots
    ensures RemoveDestSlot(dst, l) == dst.(slots := dst.slots - {l}) && dst.slots != b.dest0
    ensures |(dst.slots - {l}).Keys| == |dst.slots.Keys| - 1
  {
    assert (dst.slots - {l}).Keys == dst.slots.Keys - {l};
  }

  lemma Uninstalled(b: Bundle, dst: Dest)
    requires DestOk(b, dst) && forall l :: l in dst.installed ==> l !in dst.slots
    ensures dst.slots == b.dest0
  {
    hide RowsAre, SentIs, GensAre;
  }

  /** Delete moved slot tokens while the source rows are still active. */
  method ScrubMovedSlots(b: Bundle, src: Source, steps: nat) returns (ok: bool, next: Source, left: nat)
    requires SourceOk(b, src, true)
    ensures SourceOk(b, next, true) && next == src.(slots := next.slots) && left <= steps
    ensures b.operation == Copy ==> ok && next == src
    ensures ok && b.operation == Move ==> Scrubbed(b, next)
    ensures steps <= left + |b.included| && (!ok ==> left == 0)
    ensures steps == left + |src.slots.Keys| - |next.slots.Keys|
  {
    hide RowsAre, SentIs, GensAre;
    next, left := src, steps;
    if b.operation == Copy {
      return true, next, left;
    }
    var todo := b.included;
    while todo != {}
      invariant SourceOk(b, next, true) && next == src.(slots := next.slots) && todo <= b.included
      invariant forall l :: l in b.included && l !in todo ==> l !in next.slots
      invariant steps - (|b.included| - |todo|) <= left <= steps
      invariant steps == left + |src.slots.Keys| - |next.slots.Keys|
      decreases |todo|
    {
      var l :| l in todo;
      if l in next.slots {
        if left == 0 {
          return false, next, left;
        }
        left := left - 1;
        RemoveSourceKeeps(b, next, l);
        assert RemoveSourceSlot(next, l).slots.Keys == next.slots.Keys - {l};
        next := RemoveSourceSlot(next, l);
      }
      todo := todo - {l};
    }
    return true, next, left;
  }

  /** A generation is as it was, or it was lower than what the source records and is now that. */
  predicate RaisedAtMost(b: Bundle, src: Source, dst: Dest, next: Dest)
    requires forall l :: l in b.included ==> l in src.gen
  {
    && next.gen.Keys == dst.gen.Keys
    && forall l :: l in dst.gen ==>
      next.gen[l] == dst.gen[l] || (l in b.included && dst.gen[l] < Target(b, src, l) && next.gen[l] == Target(b, src, l))
  }

  /** Raise the destination's generations to what the source is about to record. */
  method RaiseGenerations(b: Bundle, src: Source, dst: Dest, steps: nat) returns (ok: bool, next: Dest, left: nat)
    requires DestOk(b, dst) && Ready(dst) && forall l :: l in b.included ==> l in src.gen
    ensures DestOk(b, next) && next == dst.(gen := next.gen) && left <= steps
    ensures ok ==> forall l :: l in b.included ==> l in next.gen && Target(b, src, l) <= next.gen[l]
    ensures forall l :: l in dst.gen ==> l in next.gen && dst.gen[l] <= next.gen[l]
    ensures RaisedAtMost(b, src, dst, next)
    ensures steps <= left + |b.included| && (if ok then steps == left + |b.included| else left == 0)
  {
    hide DestOk, Target, RaiseDestGen;
    ReadyHasRows(b, dst);
    next, left := dst, steps;
    var todo := b.included;
    while todo != {}
      invariant DestOk(b, next) && next == dst.(gen := next.gen) && todo <= b.included
      invariant forall l :: l in b.included && l !in todo ==> l in next.gen && Target(b, src, l) <= next.gen[l]
      invariant forall l :: l in dst.gen ==> l in next.gen && dst.gen[l] <= next.gen[l]
      invariant RaisedAtMost(b, src, dst, next) && forall l :: l in todo && l in dst.gen ==> next.gen[l] == dst.gen[l]
      invariant steps - (|b.included| - |todo|) == left
      decreases |todo|
    {
      var l :| l in todo;
      if left == 0 {
        return false, next, left;
      }
      left := left - 1;
      RaiseKeeps(b, next, l, Target(b, src, l));
      RaiseMeans(next, l, Target(b, src, l));
      next := RaiseDestGen(next, l, Target(b, src, l));
      todo := todo - {l};
    }
    return true, next, left;
  }

  // ---- the commands -------------------------------------------------------------------

  /** Open every included slot, then insert the source row and sign the package. */
  method Prepare(b: Bundle, s: State, unlocks: set<string>, steps: nat) returns (r: Outcome, t: State, left: nat)
    requires Valid(b, s) && s.src.row.None?
    ensures Valid(b, t) && left <= steps
    ensures r.Done? ==> t == s.(src := s.src.(row := Some(Prepared), sent := t.src.sent))
    ensures r.Done? ==> forall l :: l in b.included ==> l in t.src.sent && t.src.sent[l] == s.src.gen[l]
    ensures !r.Done? ==> t == s
    ensures (r.Done? || r.Crashed?) <==>
      forall l :: l in b.included ==> l in unlocks && l in s.src.slots && s.src.slots[l] == b.key[l]
    ensures (r.Crashed? ==> steps == 0) && steps == left + if r.Done? then 1 else 0
  {
    t, left := s, steps;
    var entries;
    r, entries := ReadEntries(b, s.src, unlocks);
    if !r.Done? {
      return;
    }
    if left == 0 {
      return Crashed, t, left;
    }
    left := left - 1;
    PrepareKeeps(b, s, entries);
    hide SourceOk, DestOk;
    t := s.(src := s.src.(row := Some(Prepared), sent := entries));
  }

  /** Every included slot opened: the row may be inserted. */
  lemma PrepareKeeps(b: Bundle, s: State, entries: map<string, int>)
    requires Valid(b, s) && s.src.row.None? && entries.Keys == b.included
    requires forall l :: l in b.included ==> l in s.src.gen && entries[l] == s.src.gen[l]
    requires forall l :: l in b.included ==> l in b.key && l in s.src.slots && s.src.slots[l] == b.key[l]
    ensures Valid(b, s.(src := s.src.(row := Some(Prepared), sent := entries)))
  {
    assert SentIs(b, true, entries);
    hide RowsAre, SentIs, GensAre;
  }

  /** `accepts`: the receiver's identity and ancestry rules admit the bundle. */
  method StageDestination(b: Bundle, s: State, accepts: bool, steps: nat) returns (r: Outcome, t: State, left: nat)
    requires Valid(b, s) && s.src.row.Some?
    ensures Valid(b, t) && left <= steps
    ensures r.Refused? <==> !(s.dst.row.None? && accepts && !Stale(b, s))
    ensures r.Crashed? <==> !r.Refused? && steps == 0
    ensures t == if r.Done? then s.(dst := s.dst.(row := Some(Transferred))) else s
    ensures steps <= left + 1 && (r.Crashed? ==> left == 0)
  {
    hide RowsAre, SentIs, GensAre;
    t, left := s, steps;
    if s.dst.row.Some? {
      return Refused(Replay), t, left;
    }
    if !accepts {
      return Refused(Denied), t, left;
    }
    if Stale(b, s) {
      return Refused(Replay), t, left;
    }
    if left == 0 {
      return Crashed, t, left;
    }
    return Done, s.(dst := s.dst.(row := Some(Transferred))), left - 1;
  }

  method WriteDestinationSlots(b: Bundle, s: State, unlocks: set<string>, limit: Option<nat>, steps: nat)
    returns (r: Outcome, t: State, left: nat)
    requires Valid(b, s) && s.src.row.Some?
    ensures Valid(b, t) && left <= steps && t == s.(dst := t.dst)
    ensures s.dst.row != Some(Transferred) && s.dst.row != Some(Writing) ==> r.Refused? && t == s
    ensures t.dst.row == s.dst.row || t.dst.row == Some(Writing)
    ensures r.Done? ==> t.dst.row == Some(Writing)
    ensures r.Done? ==> HoldsAll(b, t.dst) || (limit.Some? && |t.dst.slots.Keys| == |s.dst.slots.Keys| + limit.value)
    ensures limit.Some? ==> |t.dst.slots.Keys| <= |s.dst.slots.Keys| + limit.value
    ensures t.dst.gen == s.dst.gen
    ensures (s.dst.row == Some(Transferred) || s.dst.row == Some(Writing)) && b.included <= unlocks && NoConflict(b, s.dst) ==>
      !r.Refused?
    ensures steps <= left + 2 * |b.included| + 1 && (r.Crashed? ==> left == 0)
    ensures steps == left + (if t.dst.row == Some(Writing) && steps > 0 then 1 + Written(s.dst, t.dst) else 0)
  {
    hide RowsAre, SentIs, GensAre, SourceOk, DestOk, HoldsAll, Written, CanMoveBack;
    t, left := s, steps;
    if s.dst.row.None? {
      return Refused(Incomplete), t, left;
    }
    if s.dst.row != Some(Transferred) && s.dst.row != Some(Writing) {
      return Refused(Replay), t, left;
    }
    if left == 0 {
      return Crashed, t, left;
    }
    left := left - 1;
    Known(b, s.src, Ready(s.dst));
    WritingKeeps(b, s.dst);
    var dst;
    r, dst, left := InstallAll(b, s.dst.(row := Some(Writing)), unlocks, limit, left);
    WrittenOn(s.dst, s.dst, dst);
    DestChangeKeeps(b, s, dst);
    t := s.(dst := dst);
  }

  /**
   Commit the identity rows. The check is for the labels only, so the bundle's
   keys are really there exactly when no included label was already taken by
   another key, which a successful write rules out.
   */
  method CommitDestinationRows(b: Bundle, s: State, accepts: bool, steps: nat)
    returns (r: Outcome, t: State, left: nat)
    requires Valid(b, s) && s.src.row.Some?
    ensures left <= steps && (!r.Done? ==> t == s)
    ensures r.Done? ==> t == s.(dst := s.dst.(row := Some(Committed), gen := t.dst.gen))
    ensures s.dst.row == Some(Committed) ==> t == s
    ensures r.Done? && s.dst.row == Some(Writing) ==> t.dst.gen == s.dst.gen + s.src.sent
    ensures r.Done? ==> (Valid(b, t) <==> NoConflict(b, s.dst))
    ensures !r.Refused? <==>
      || s.dst.row == Some(Committed)
      || (s.dst.row == Some(Writing) && (forall l :: l in b.included ==> l in s.dst.slots) && accepts && !Stale(b, s))
    ensures r.Crashed? <==> !r.Refused? && s.dst.row == Some(Writing) && steps == 0
    ensures steps <= left + 1 && (r.Crashed? ==> left == 0)
  {
    hide RowsAre, SentIs, GensAre;
    t, left := s, steps;
    if s.dst.row == Some(Committed) {
      return Done, t, left;
    }
    if s.dst.row != Some(Writing) || exists l :: l in b.included && l !in s.dst.slots {
      return Refused(Incomplete), t, left;
    }
    if !accepts {
      return Refused(Denied), t, left;
    }
    if Stale(b, s) {
      return Refused(Replay), t, left;
    }
    if left == 0 {
      return Crashed, t, left;
    }
    CommitKeeps(b, s.src, s.dst);
    return Done, s.(dst := s.dst.(row := Some(Committed), gen := s.dst.gen + s.src.sent)), left - 1;
  }

  method Acknowledge(b: Bundle, s: State, steps: nat) returns (r: Outcome, t: State, left: nat)
    requires Valid(b, s)
    ensures Valid(b, t) && left <= steps
    ensures !r.Done? ==> t == s
    ensures r.Done? ==> Acked(t.dst) && t == s.(dst := s.dst.(row := if Acked(s.dst) then s.dst.row else Some(Acknowledged)))
    ensures r.Refused? <==> !Ready(s.dst)
    ensures (r.Crashed? ==> steps == 0) && steps == left + if r.Done? && !Acked(s.dst) then 1 else 0
  {
    hide RowsAre, SentIs, GensAre;
    t, left := s, steps;
    if s.dst.row == Some(Acknowledged) || s.dst.row == Some(DestCompleted) {
      return Done, t, left;
    }
    if s.dst.row != Some(Committed) {
      return Refused(Incomplete), t, left;
    }
    if left == 0 {
      return Crashed, t, left;
    }
    return Done, s.(dst := s.dst.(row := Some(Acknowledged))), left - 1;
  }

  /** The destination has acknowledged. */
  predicate Acked(dst: Dest) {
    dst.row == Some(Acknowledged) || dst.row == Some(DestCompleted)
  }

  /** Nothing on the destination stands against the package: passphrases, slots and generations. */
  predicate Welcome(b: Bundle, s: State, unlocks: set<string>) {
    b.included <= unlocks && NoConflict(b, s.dst) && !Stale(b, s)
  }

  /** Write, commit and acknowledge a staged package; stops at the first refusal or crash. */
  method Install(b: Bundle, s: State, unlocks: set<string>, accepts: bool, steps: nat)
    returns (r: Outcome, t: State, left: nat)
    requires Valid(b, s) && s.src.row.Some?
    ensures Valid(b, t) && left <= steps && t == s.(dst := t.dst)
    ensures r.Done? ==> Acked(t.dst)
    ensures Ready(s.dst) ==> t == s
    ensures r.Refused? ==> !Ready(t.dst) || t == s
    ensures r.Done? && !Ready(s.dst) ==> t.dst.gen == s.dst.gen + s.src.sent
    ensures s.dst.row == Some(Transferred) && Welcome(b, s, unlocks) && accepts ==> !r.Refused?
    ensures steps <= left + 2 * |b.included| + 3 && (r.Crashed? ==> left == 0)
  {
    hide RowsAre, SentIs, GensAre;
    r, t, left := WriteDestinationSlots(b, s, unlocks, None, steps);
    if r.Done? {
      r, t, left := CommitDestinationRows(b, t, accepts, left);
      if r.Done? {
        r, t, left := Acknowledge(b, t, left);
      }
    }
  }

  /**
   Accept a package without the source's store: install it, or pick up where an
   earlier attempt stopped. Only a success issues an acknowledgement.
   */
  method AcceptPackage(b: Bundle, s: State, unlocks: set<string>, accepts: bool, steps: nat)
    returns (r: Outcome, t: State, left: nat)
    requires Valid(b, s) && s.src.row.Some?
    ensures Valid(b, t) && t.src == s.src
    ensures r.Done? ==> Acked(t.dst) && t.ackIssued
    ensures !r.Done? ==> t.ackIssued == s.ackIssued
    ensures Ready(s.dst) ==> Ready(t.dst) && t.dst == s.dst.(row := t.dst.row) && !r.Refused?
    ensures s.dst.row == Some(DestAborted) ==> r == Refused(Replay) && t == s
    ensures r.Done? && !Ready(s.dst) ==> t.dst.gen == s.dst.gen + s.src.sent
    ensures s.dst.row.None? && Welcome(b, s, unlocks) && accepts ==> !r.Refused?
    ensures left <= steps <= left + 2 * |b.included| + 4 && (r.Crashed? ==> left == 0)
  {
    hide RowsAre, SentIs, GensAre;
    hide SourceOk, DestOk;
    t, left := s, steps;
    if Ready(s.dst) {
      r, t, left := Acknowledge(b, s, left);
    } else if s.dst.row == Some(DestAborted) {
      return Refused(Replay), t, left;
    } else {
      if s.dst.row.None? {
        r, t, left := StageDestination(b, s, accepts, left);
        if !r.Done? {
          return;
        }
      }
      r, t, left := Install(b, t, unlocks, accepts, left);
    }
    if r.Done? {
      t := t.(ackIssued := true);
    }
  }

  /** With the slots gone and the destination raised, the ghost rows may be committed. */
  lemma FinalizeKeeps(b: Bundle, s: State)
    requires Valid(b, s) && s.src.row.Some? && !Finished(s.src) && Ready(s.dst) && (b.operation == Move ==> Scrubbed(b, s.src))
    requires forall l :: l in b.included ==> l in s.src.gen && l in s.dst.gen && Target(b, s.src, l) <= s.dst.gen[l]
    ensures Valid(b, s.(src := Retire(b, s.src, SourceFinalized)))
  {
    hide RowsAre, SentIs, GensAre;
    hide SourceOk, DestOk, Scrubbed;
    RetireKeeps(b, s.src, SourceFinalized);
    SourceChangeKeeps(b, s, Retire(b, s.src, SourceFinalized));
  }

  /** Delete the moved slots, raise the destination's generations, then commit the ghost rows. */
  method RetireSourceMaterial(b: Bundle, s: State, steps: nat) returns (r: Outcome, t: State, left: nat)
    requires Valid(b, s) && s.src.row.Some? && !Finished(s.src)
    ensures Valid(b, t)
    ensures r.Refused? <==> !Ready(s.dst)
    ensures r.Refused? ==> t == s
    ensures t.dst == s.dst.(gen := t.dst.gen) && t.ackIssued == s.ackIssued
    ensures r.Done? ==> t.src.row == Some(SourceFinalized)
    ensures r.Crashed? ==> t.src == s.src.(slots := t.src.slots)
    ensures left <= steps <= left + 2 * |b.included| + 1 && (r.Crashed? ==> left == 0)
  {
    hide RowsAre, SentIs, GensAre;
    t, left := s, steps;
    if !Ready(s.dst) {
      return Refused(Incomplete), t, left;
    }
    hide SourceOk, DestOk;
    var ok, src, dst;
    ok, src, left := ScrubMovedSlots(b, s.src, left);
    Known(b, src, true);
    SourceChangeKeeps(b, s, src);
    t := s.(src := src);
    if !ok {
      return Crashed, t, left;
    }
    ok, dst, left := RaiseGenerations(b, src, t.dst, left);
    DestChangeKeeps(b, t, dst);
    t := t.(dst := dst);
    if !ok || left == 0 {
      return Crashed, t, left;
    }
    FinalizeKeeps(b, t);
    return Done, t.(src := Retire(b, src, SourceFinalized)), left - 1;
  }

  /** The direct path's end: both stores at hand. */
  method FinalizeSource(b: Bundle, s: State, steps: nat) returns (r: Outcome, t: State, left: nat)
    requires Valid(b, s)
    ensures Valid(b, t) && t.ackIssued == s.ackIssued
    ensures r.Refused? ==> t == s
    ensures r.Refused? <==> s.src.row.None? || !Ready(s.dst)
    ensures r.Done? ==> t.src.row == Some(SourceCompleted)
    ensures r.Done? && s.src.row != Some(SourceCompleted) ==> t.dst.row == Some(DestCompleted)
    ensures r.Done? && s.src.row != Some(SourceCompleted) && b.operation == Move ==> CanMoveBack(b, t)
    ensures s.src.row == Some(SourceCompleted) ==> t == s
    ensures t.dst.slots == s.dst.slots && (Ready(s.dst) ==> Ready(t.dst))
    ensures left <= steps <= left + 2 * |b.included| + 3 && (r.Crashed? ==> left == 0)
  {
    hide RowsAre, SentIs, GensAre;
    t, left := s, steps;
    if s.src.row.None? {
      return Refused(Incomplete), t, left;
    }
    if s.src.row == Some(SourceCompleted) {
      return Done, t, left;
    }
    hide Valid, CanMoveBack;
    if s.src.row != Some(SourceFinalized) {
      r, t, left := RetireSourceMaterial(b, s, left);
    } else {
      FinishedMeans(b, s);
      r, t, left := ScrubLeftovers(b, s, left);
    }
    if r.Done? {
      FinishedMeans(b, t);
      r, t, left := CompleteBoth(b, t, left);
    }
  }

  /** A row already finalized: delete whatever slot is still there. */
  method ScrubLeftovers(b: Bundle, s: State, steps: nat) returns (r: Outcome, t: State, left: nat)
    requires Valid(b, s) && s.src.row == Some(SourceFinalized)
    ensures Valid(b, t) && t == s.(src := s.src.(slots := t.src.slots)) && !r.Refused?
    ensures left <= steps <= left + |b.included| && (r.Crashed? ==> left == 0)
  {
    hide RowsAre, SentIs, GensAre;
    FinishedMeans(b, s);
    hide SourceOk, DestOk;
    var ok, src;
    ok, src, left := ScrubMovedSlots(b, s.src, steps);
    SourceChangeKeeps(b, s, src);
    return if ok then Done else Crashed, s.(src := src), left;
  }

  /** Mark the destination's row, then the source's. */
  method CompleteBoth(b: Bundle, s: State, steps: nat) returns (r: Outcome, t: State, left: nat)
    requires Valid(b, s) && s.src.row == Some(SourceFinalized)
    ensures Valid(b, t)
    ensures !r.Refused? && (r.Done? ==> t == s.(src := s.src.(row := Some(SourceCompleted)), dst := s.dst.(row := Some(DestCompleted))))
    ensures r.Crashed? ==> t == s || t == s.(dst := s.dst.(row := Some(DestCompleted)))
    ensures b.operation == Move ==> CanMoveBack(b, t)
    ensures (r.Crashed? <==> steps < 2) && left == if steps < 2 then 0 else steps - 2
    ensures steps == 1 ==> t == s.(dst := s.dst.(row := Some(DestCompleted)))
    ensures steps == 0 ==> t == s
  {
    hide RowsAre, SentIs, GensAre;
    t, left := s, steps;
    if left == 0 {
      return Crashed, t, left;
    }
    left := left - 1;
    CompleteDestKeeps(b, t);
    t := t.(dst := t.dst.(row := Some(DestCompleted)));
    if left == 0 {
      return Crashed, t, left;
    }
    CompleteSourceKeeps(b, t);
    return Done, t.(src := t.src.(row := Some(SourceCompleted))), left - 1;
  }

  /**
   The acknowledged path's end, on the source alone. `matches`: the hash in the
   acknowledgement is the one stored at prepare, so the destination issued it.
   */
  method FinalizeAfterAck(b: Bundle, s: State, matches: bool, steps: nat) returns (r: Outcome, t: State, left: nat)
    requires Valid(b, s) && (matches ==> s.ackIssued)
    ensures Valid(b, t) && t == s.(src := t.src)
    ensures r.Done? ==> t.src.row == Some(SourceCompleted)
    ensures !matches && !Finished(s.src) ==> !r.Done? && t.src.slots == s.src.slots
    ensures r.Refused? ==> t == s || (s.src.row == Some(Prepared) && !matches && t == s.(src := s.src.(row := Some(SourceNeedsAdmin))))
    ensures matches && s.src.row == Some(Prepared) ==> !r.Refused?
    ensures r.Done? && s.src.row == Some(Prepared) ==>
      forall l :: l in b.included ==> l in t.src.gen && t.src.gen[l] == Target(b, s.src, l)
    ensures r.Done? && s.src.row == Some(Prepared) && b.operation == Move ==>
      (CanMoveBack(b, t) <==>
        forall l :: l in b.included ==> l in s.src.gen && l in s.dst.gen && Bumped(s.src.gen[l]) <= s.dst.gen[l])
    ensures left <= steps <= left + |b.included| + 1 && (r.Crashed? ==> left == 0)
  {
    hide RowsAre, SentIs, GensAre;
    t, left := s, steps;
    if s.src.row == Some(SourceCompleted) {
      return Done, t, left;
    }
    if s.src.row != Some(SourceFinalized) && s.src.row != Some(Prepared) {
      return Refused(Incomplete), t, left;
    }
    if s.src.row == Some(Prepared) && !matches {
      if left == 0 {
        return Crashed, t, left;
      }
      NeedsAdminKeeps(b, s);
      return Refused(Incomplete), s.(src := s.src.(row := Some(SourceNeedsAdmin))), left - 1;
    }
    r, t, left := RetireAlone(b, s, left);
  }

  /** Delete the moved slots, then one source transaction to the end. */
  method RetireAlone(b: Bundle, s: State, steps: nat) returns (r: Outcome, t: State, left: nat)
    requires Valid(b, s) && Ready(s.dst) && (s.src.row == Some(Prepared) || s.src.row == Some(SourceFinalized))
    ensures Valid(b, t) && t == s.(src := t.src) && !r.Refused?
    ensures r.Done? ==> t.src.row == Some(SourceCompleted)
    ensures r.Done? && s.src.row == Some(Prepared) ==>
      forall l :: l in b.included ==> l in t.src.gen && t.src.gen[l] == Target(b, s.src, l)
    ensures left <= steps <= left + |b.included| + 1 && (r.Crashed? ==> left == 0)
    ensures steps == left + (|s.src.slots.Keys| - |t.src.slots.Keys|) + if r.Done? then 1 else 0
  {
    hide RowsAre, SentIs, GensAre;
    var ok, src;
    ok, src, left := ScrubMovedSlots(b, s.src, steps);
    SourceChangeKeeps(b, s, src);
    t := s.(src := src);
    if !ok || left == 0 {
      return Crashed, t, left;
    }
    left := left - 1;
    if s.src.row == Some(SourceFinalized) {
      CompleteSourceKeeps(b, t);
      return Done, t.(src := src.(row := Some(SourceCompleted))), left;
    }
    RetireKeeps(b, src, SourceCompleted);
    SourceChangeKeeps(b, t, Retire(b, src, SourceCompleted));
    return Done, t.(src := Retire(b, src, SourceCompleted)), left;
  }

  // ---- abort and recovery ----------------------------------------------------------------

  /** Undo an uncommitted transfer: afterwards the destination has exactly its original slots. */
  method AbortTransfer(b: Bundle, s: State, steps: nat) returns (r: Outcome, t: State, left: nat)
    requires Valid(b, s)
    ensures Valid(b, t) && t.src == s.src.(row := t.src.row) && t.ackIssued == s.ackIssued
    ensures r.Refused? <==> Ready(s.dst)
    ensures r.Refused? ==> t == s
    ensures r.Done? ==> t.dst.slots == b.dest0 && (t.dst.row == if s.dst.row.Some? then Some(DestAborted) else None)
    ensures r.Done? ==> t.src.row == if s.src.row == Some(Prepared) then Some(SourceAborted) else s.src.row
    ensures t.dst == s.dst.(slots := t.dst.slots, row := t.dst.row) && (Ready(t.dst) ==> t == s)
    ensures s.src.row == Some(SourceAborted) && Settled(b, s) ==> t == s
    ensures left <= steps <= left + |s.dst.installed| + 2 && (r.Crashed? ==> left == 0)
  {
    hide RowsAre, SentIs, GensAre;
    t, left := s, steps;
    if Ready(s.dst) {
      return Refused(Incomplete), t, left;
    }
    if s.dst.row.Some? {
      var ok, dst;
      ok, dst, left := Uninstall(b, s.dst, left);
      DestChangeKeeps(b, s, dst);
      t := t.(dst := dst);
      if !ok || left == 0 {
        return Crashed, t, left;
      }
      left := left - 1;
      AbortDestKeeps(b, t);
      t := t.(dst := t.dst.(row := Some(DestAborted)));
    }
    if s.src.row == Some(Prepared) || s.src.row == Some(SourceAborted) {
      if left == 0 {
        return Crashed, t, left;
      }
      left := left - 1;
      AbortSourceKeeps(b, t);
      t := t.(src := t.src.(row := Some(SourceAborted)));
    }
    return Done, t, left;
  }

  /** Nothing is left to recover. */
  predicate Settled(b: Bundle, s: State) {
    || s.src.row == Some(SourceNeedsAdmin)
    || (s.src.row == Some(SourceCompleted) && s.dst.row == Some(DestCompleted))
    || (s.src.row == Some(SourceAborted) && (s.dst.row == Some(DestAborted) || s.dst.row.None?))
  }

  function RecoveryKind(s: State): Recovered {
    if s.src.row == Some(SourceNeedsAdmin) then NeedsAdmin
    else if Finished(s.src) then AlreadyComplete
    else if Ready(s.dst) then Finalized
    else Aborted
  }

  /**
   Bring a crashed transfer to an end. A recovery that is not itself cut short
   ends completed, aborted or with the administrator, and a further one then
   changes nothing.
   */
  method RecoverPair(b: Bundle, s: State, steps: nat) returns (r: Outcome, kind: Recovered, t: State, left: nat)
    requires Valid(b, s)
    ensures Valid(b, t) && t.ackIssued == s.ackIssued
    ensures r.Refused? <==> s.src.row.None?
    ensures r.Refused? ==> t == s
    ensures r.Done? ==> Settled(b, t)
    ensures r.Done? ==> kind == RecoveryKind(s)
    ensures r.Done? ==> (kind.Aborted? <==> t.src.row == Some(SourceAborted))
    ensures Settled(b, s) ==> t == s
    ensures Ready(s.dst) ==> Ready(t.dst) && t.dst.slots == s.dst.slots
    ensures left <= steps <= left + 2 * |b.included| + |s.dst.installed| + 3 && (r.Crashed? ==> left == 0)
  {
    hide RowsAre, SentIs, GensAre;
    t, left, kind := s, steps, NeedsAdmin;
    if s.src.row.None? {
      return Refused(Incomplete), kind, t, left;
    }
    if s.src.row == Some(SourceNeedsAdmin) {
      return Done, NeedsAdmin, t, left;
    }
    if s.src.row == Some(SourceCompleted) {
      if left == 0 {
        return Crashed, kind, t, left;
      }
      CompleteDestKeeps(b, s);
      return Done, AlreadyComplete, s.(dst := s.dst.(row := Some(DestCompleted))), left - 1;
    }
    if s.src.row == Some(SourceFinalized) {
      r, t, left := FinalizeSource(b, s, left);
      return r, AlreadyComplete, t, left;
    }
    if Ready(s.dst) {
      r, t, left := FinalizeSource(b, s, left);
      return r, Finalized, t, left;
    }
    assert s.src.row.value.Prepared? || s.src.row.value.SourceAborted?;
    r, t, left := AbortTransfer(b, s, left);
    return r, Aborted, t, left;
  }

  // ---- the direct path ---------------------------------------------------------------------

  method Proceed(b: Bundle, s: State, unlocks: set<string>, accepts: bool, steps: nat)
    returns (r: Outcome, t: State, left: nat)
    requires Valid(b, s) && s.src.row == Some(Prepared) && s.dst.row.None?
    ensures Valid(b, t) && left <= steps <= left + 4 * |b.included| + 7 && (r.Crashed? ==> left == 0)
    ensures r.Done? ==> t.src.row == Some(SourceCompleted) && t.dst.row == Some(DestCompleted)
    ensures r.Done? && b.operation == Move ==> CanMoveBack(b, t)
    ensures r.Refused? ==> t.src == s.src && !Ready(t.dst)
    ensures Welcome(b, s, unlocks) && accepts ==> !r.Refused?
  {
    hide RowsAre, SentIs, GensAre;
    r, t, left := StageDestination(b, s, accepts, steps);
    if r.Done? {
      r, t, left := Install(b, t, unlocks, accepts, left);
      if r.Done? {
        r, t, left := FinalizeSource(b, t, left);
      }
    }
  }

  lemma FewInstalled(b: Bundle, s: State)
    requires Valid(b, s)
    ensures |s.dst.installed| <= |b.included|
  {
    SubsetSize(s.dst.installed, b.included);
  }

  lemma NothingStaged(b: Bundle, s: State)
    requires Valid(b, s) && s.src.row.None?
    ensures s.dst.row.None? && s.dst.slots == b.dest0
  {
    hide RowsAre, SentIs, GensAre;
  }

  /** Every slot opens, no label is taken by another key, and the destination has no newer generation. */
  predicate Unhindered(b: Bundle, s: State, unlocks: set<string>) {
    && (forall l :: l in b.included ==> l in unlocks && l in b.key && l in s.src.slots && s.src.slots[l] == b.key[l])
    && NoConflict(b, s.dst)
    && forall l :: l in b.included ==> l in s.src.gen && (l in s.dst.gen ==> s.dst.gen[l] <= s.src.gen[l])
  }

  /** Both devices at once; a refusal before the commit is followed by an abort, which may itself be cut short. */
  method DirectTransfer(b: Bundle, s: State, unlocks: set<string>, accepts: bool, steps: nat)
    returns (r: Outcome, t: State, left: nat)
    requires Valid(b, s) && s.src.row.None?
    ensures Valid(b, t)
    ensures r.Done? ==> t.src.row == Some(SourceCompleted) && t.dst.row == Some(DestCompleted) && HoldsAll(b, t.dst)
    ensures r.Done? && b.operation == Move ==> Scrubbed(b, t.src) && CanMoveBack(b, t)
    ensures r.Refused? ==> t.src.slots == b.source0 && t.dst.slots == b.dest0
    ensures Unhindered(b, s, unlocks) && accepts && steps > 4 * |b.included| + 8 ==> r.Done?
    ensures steps > 5 * |b.included| + 10 ==> !r.Crashed?
  {
    hide RowsAre, SentIs, GensAre;
    NothingStaged(b, s);
    hide Valid, HoldsAll, Scrubbed, CanMoveBack;
    r, t, left := Prepare(b, s, unlocks, steps);
    if !r.Done? {
      NothingLostYet(b, t);
      return;
    }
    r, t, left := Proceed(b, t, unlocks, accepts, left);
    if r.Refused? {
      NothingLostYet(b, t);
      FewInstalled(b, t);
      var aborted;
      aborted, t, left := AbortTransfer(b, t, left);
      if aborted.Crashed? {
        r := Crashed;
      }
    } else if r.Done? {
      CompletedMeans(b, t);
    }
  }

  // ---- a move by acknowledgement -------------------------------------------------------------

  /**
   Prepare, accept, finalize on the acknowledgement, nothing in the way and
   enough steps for each: the move completes. It can be undone by a move back
   only if every generation had already reached the largest one, because the
   destination keeps the generation that was sent while the source goes on by
   one.
   */
  method AcknowledgedMove(b: Bundle, s: State, unlocks: set<string>, steps: nat) returns (t: State)
    requires Valid(b, s) && s.src.row.None? && b.operation == Move && steps > 2 * |b.included| + 4
    requires Unhindered(b, s, unlocks)
    ensures Valid(b, t) && t.src.row == Some(SourceCompleted) && HoldsAll(b, t.dst) && Scrubbed(b, t.src)
    ensures CanMoveBack(b, t) <==> forall l :: l in b.included ==> s.src.gen[l] >= MAX_GENERATION
  {
    hide RowsAre, SentIs, GensAre;
    var r, left;
    r, t, left := Prepare(b, s, unlocks, steps);
    NothingStaged(b, s);
    hide Valid, HoldsAll, Scrubbed;
    r, t, left := AcceptPackage(b, t, unlocks, true, steps);
    r, t, left := FinalizeAfterAck(b, t, true, steps);
    CompletedMeans(b, t);
  }

  /** An ordinary identity of generation one, moved by acknowledgement, cannot move back. */
  method AcknowledgedMoveStays() returns (b: Bundle, t: State)
    ensures Valid(b, t) && b.operation == Move && t.src.row == Some(SourceCompleted) && !CanMoveBack(b, t)
  {
    b := Bundle(Move, {"M"}, map["M" := 1], map["M" := 1], map["M" := Active], map["M" := 1], map[], map[]);
    var s := Initial(b);
    InitialValid(b);
    assert "M" in b.included && s.src.gen["M"] == 1;
    t := AcknowledgedMove(b, s, {"M"}, 7);
  }

  // ---- where the code's own check is too weak -------------------------------------------------

  /** A destination slot under the same label but another key passes the commit's label check. */
  lemma ConflictPassesLabelCheck() returns (b: Bundle, s: State)
    ensures Valid(b, s) && s.src.row == Some(Prepared) && s.dst.row == Some(Writing)
    ensures (forall l :: l in b.included ==> l in s.dst.slots) && !Stale(b, s)
    ensures !NoConflict(b, s.dst)
  {
    b := Bundle(Move, {"M"}, map["M" := 1], map["M" := 1], map["M" := Active], map["M" := 1], map["M" := 2], map[]);
    s := State(Source(map["M" := 1], Some(Prepared), map["M" := Active], map["M" := 1], map["M" := 1]),
               Dest(map["M" := 2], Some(Writing), {}, map[]), false);
  }

  // ---- runs ----------------------------------------------------------------------------------

  datatype Command =
    | RunPrepare(unlocks: set<string>)
    | RunTransfer(unlocks: set<string>, accepts: bool)
    | RunAccept(unlocks: set<string>, accepts: bool)
    | RunStage(accepts: bool)
    | RunWrite(unlocks: set<string>, limit: Option<nat>)
    | RunCommit(accepts: bool)
    | RunAcknowledge
    | RunFinalizeSource
    | RunFinalizeAfterAck(matches: bool)
    | RunAbort
    | RunRecover

  /** The command makes sense: a package exists, no label of it is taken by another key, an acknowledgement that matches was issued. */
  predicate Applicable(b: Bundle, s: State, c: Command) {
    match c
    case RunPrepare(_) => s.src.row.None?
    case RunTransfer(_, _) => s.src.row.None?
    case RunAccept(_, _) => s.src.row.Some?
    case RunStage(_) => s.src.row.Some?
    case RunWrite(_, _) => s.src.row.Some?
    case RunCommit(_) => s.src.row.Some? && NoConflict(b, s.dst)
    case RunFinalizeAfterAck(matches) => matches ==> s.ackIssued
    case _ => true
  }

  /** Every included slot opens under its own key. */
  predicate AllOpen(b: Bundle, s: State, unlocks: set<string>) {
    forall l :: l in b.included ==> l in unlocks && l in b.key && l in s.src.slots && s.src.slots[l] == b.key[l]
  }

  /** What a command comes to: when it is refused, and where it leads when it is carried through. */
  ghost predicate Does(b: Bundle, s: State, c: Command, r: Outcome, t: State) {
    match c
    case RunPrepare(unlocks) =>
      && (r.Refused? <==> !AllOpen(b, s, unlocks))
      && t == if r.Done? then s.(src := s.src.(row := Some(Prepared), sent := t.src.sent)) else s
    case RunTransfer(unlocks, accepts) =>
      && (r.Done? ==> t.src.row == Some(SourceCompleted) && t.dst.row == Some(DestCompleted) && HoldsAll(b, t.dst))
      && (r.Refused? ==> t.src.slots == b.source0 && t.dst.slots == b.dest0)
    case RunAccept(_, _) =>
      && t.src == s.src && (r.Done? ==> Acked(t.dst) && t.ackIssued) && (!r.Done? ==> t.ackIssued == s.ackIssued)
      && (s.dst.row == Some(DestAborted) ==> r.Refused? && t == s)
    case RunStage(accepts) =>
      && (r.Refused? <==> !(s.dst.row.None? && accepts && !Stale(b, s)))
      && t == if r.Done? then s.(dst := s.dst.(row := Some(Transferred))) else s
    case RunWrite(_, limit) =>
      && t == s.(dst := t.dst) && t.dst.gen == s.dst.gen
      && (r.Done? ==> t.dst.row == Some(Writing))
      && (r.Done? ==> HoldsAll(b, t.dst) || (limit.Some? && |t.dst.slots.Keys| == |s.dst.slots.Keys| + limit.value))
      && (s.dst.row != Some(Transferred) && s.dst.row != Some(Writing) ==> r.Refused? && t == s)
    case RunCommit(accepts) =>
      && (!r.Refused? <==>
            || s.dst.row == Some(Committed)
            || (s.dst.row == Some(Writing) && (forall l :: l in b.included ==> l in s.dst.slots) && accepts && !Stale(b, s)))
      && t == if r.Done? && s.dst.row == Some(Writing)
              then s.(dst := s.dst.(row := Some(Committed), gen := s.dst.gen + s.src.sent)) else s
    case RunAcknowledge =>
      && (r.Refused? <==> !Ready(s.dst))
      && t == if r.Done? && !Acked(s.dst) then s.(dst := s.dst.(row := Some(Acknowledged))) else s
    case RunFinalizeSource =>
      && (r.Refused? <==> s.src.row.None? || !Ready(s.dst)) && (r.Refused? ==> t == s)
      && (r.Done? ==> t.src.row == Some(SourceCompleted) && (t == s || t.dst.row == Some(DestCompleted)))
    case RunFinalizeAfterAck(matches) =>
      && t == s.(src := t.src) && (r.Done? ==> t.src.row == Some(SourceCompleted))
      && (matches && s.src.row == Some(Prepared) ==> !r.Refused?)
      && (!matches && !Finished(s.src) ==> !r.Done? && t.src.slots == s.src.slots)
    case RunAbort =>
      && (r.Refused? <==> Ready(s.dst)) && (r.Refused? ==> t == s)
      && (r.Done? ==> t.dst.slots == b.dest0 && t.dst.row == if s.dst.row.Some? then Some(DestAborted) else None)
    case RunRecover =>
      && (r.Refused? <==> s.src.row.None?) && (r.Refused? ==> t == s) && (r.Done? ==> Settled(b, t))
  }

  /** One command of a run, cut off after its steps; one that makes no sense is passed over. */
  ghost predicate Followed(b: Bundle, s: State, c: (Command, nat), r: Outcome, t: State) {
    if Applicable(b, s, c.0) then Does(b, s, c.0, r, t) && (c.1 > Longest(b, s) ==> !r.Crashed?) else t == s
  }

  /** How many steps any command can take from here. */
  function Longest(b: Bundle, s: State): nat {
    5 * |b.included| + |s.dst.installed| + 10
  }

  lemma KeysKnown(b: Bundle, s: State)
    requires Valid(b, s)
    ensures forall l :: l in b.included ==> l in b.key
  {
    hide RowsAre, SentIs, GensAre;
  }

  /** A source slot goes only in a move, once the destination holds everything. */
  lemma SlotsGone(b: Bundle, s: State, t: State)
    requires Valid(b, s) && Valid(b, t)
    ensures forall l :: l in s.src.slots && l !in t.src.slots ==>
      l in b.included && b.operation == Move && Ready(t.dst) && HoldsAll(b, t.dst)
  {
    hide RowsAre, SentIs, GensAre, CanMoveBack, Scrubbed, HoldsAll;
  }

  lemma AllUsable(b: Bundle, s: State)
    requires Valid(b, s)
    ensures s.src.row.Some? ==> forall l :: l in b.included ==>
      l in b.key && ((l in s.src.slots && s.src.slots[l] == b.key[l]) || (l in s.dst.slots && s.dst.slots[l] == b.key[l]))
  {
    if s.src.row.Some? {
      forall l | l in b.included
        ensures l in b.key && ((l in s.src.slots && s.src.slots[l] == b.key[l]) || (l in s.dst.slots && s.dst.slots[l] == b.key[l]))
      {
        AlwaysUsable(b, s, l);
      }
    }
  }

  /** The commands that begin or end a transfer, and those that carry it out on the destination. */
  predicate OnSource(c: Command) {
    c.RunPrepare? || c.RunTransfer? || c.RunFinalizeSource? || c.RunFinalizeAfterAck? || c.RunAbort? || c.RunRecover?
  }

  /** A command did what it does, within its steps, and a committed destination stays committed. */
  ghost predicate Performed(b: Bundle, s: State, c: Command, steps: nat, r: Outcome, t: State) {
    && Valid(b, t) && Does(b, s, c, r, t) && (steps > Longest(b, s) ==> !r.Crashed?)
    && (Ready(s.dst) ==> Ready(t.dst))
  }

  method ExecuteOnSource(b: Bundle, s: State, c: Command, steps: nat) returns (r: Outcome, t: State)
    requires Valid(b, s) && Applicable(b, s, c) && OnSource(c)
    ensures Performed(b, s, c, steps, r, t)
  {
    hide Valid, Stale, NoConflict, Settled, Unhindered, CanMoveBack, Scrubbed, HoldsAll, Target, Bumped;
    if s.src.row.None? {
      NothingStaged(b, s);
    }
    KeysKnown(b, s);
    var left;
    match c {
      case RunPrepare(unlocks) => r, t, left := Prepare(b, s, unlocks, steps);
      case RunTransfer(unlocks, accepts) => r, t, left := DirectTransfer(b, s, unlocks, accepts, steps);
      case RunFinalizeSource => r, t, left := FinalizeSource(b, s, steps);
      case RunFinalizeAfterAck(matches) => r, t, left := FinalizeAfterAck(b, s, matches, steps);
      case RunAbort => r, t, left := AbortTransfer(b, s, steps);
      case RunRecover =>
        var kind;
        r, kind, t, left := RecoverPair(b, s, steps);
    }
  }

  method ExecuteOnDestination(b: Bundle, s: State, c: Command, steps: nat) returns (r: Outcome, t: State)
    requires Valid(b, s) && Applicable(b, s, c) && !OnSource(c)
    ensures Performed(b, s, c, steps, r, t)
  {
    hide Valid, Stale, NoConflict, Welcome, CanMoveBack, Scrubbed, HoldsAll;
    var left;
    match c {
      case RunAccept(unlocks, accepts) => r, t, left := AcceptPackage(b, s, unlocks, accepts, steps);
      case RunStage(accepts) => r, t, left := StageDestination(b, s, accepts, steps);
      case RunWrite(unlocks, limit) => r, t, left := WriteDestinationSlots(b, s, unlocks, limit, steps);
      case RunCommit(accepts) => r, t, left := CommitDestinationRows(b, s, accepts, steps);
      case RunAcknowledge => r, t, left := Acknowledge(b, s, steps);
    }
  }

  /** The two devices, changed in place by one command after another. */
  class Devices {
    const b: Bundle
    var s: State

    constructor (b: Bundle)
      requires Exportable(b)
      ensures this.b == b && s == Initial(b) && Valid(b, s)
    {
      InitialValid(b);
      this.b, this.s := b, Initial(b);
    }

    method Execute(c: Command, steps: nat) returns (r: Outcome)
      requires Valid(b, s) && Applicable(b, s, c)
      modifies this`s
      ensures Valid(b, s) && Does(b, old(s), c, r, s)
      ensures steps > Longest(b, old(s)) ==> !r.Crashed?
      ensures old(Ready(s.dst)) ==> Ready(s.dst)
      ensures forall l :: l in old(s.src.slots) && l !in s.src.slots ==>
        l in b.included && b.operation == Move && Ready(s.dst) && HoldsAll(b, s.dst)
    {
      hide Valid, Does, HoldsAll;
      var t;
      if OnSource(c) {
        r, t := ExecuteOnSource(b, s, c, steps);
      } else {
        r, t := ExecuteOnDestination(b, s, c, steps);
      }
      SlotsGone(b, s, t);
      s := t;
    }

    /**
     Any run of commands, each cut off after any number of steps: in the end, as
     at every point on the way, each included identity can be opened somewhere.
     */
    method Run(commands: seq<(Command, nat)>) returns (ghost trace: seq<State>, ghost outcomes: seq<Outcome>)
      requires Valid(b, s)
      modifies this`s
      ensures Valid(b, s)
      ensures |trace| == |commands| + 1 && trace[0] == old(s) && trace[|commands|] == s && |outcomes| == |commands|
      ensures forall i :: 0 <= i < |commands| ==> Followed(b, trace[i], commands[i], outcomes[i], trace[i + 1])
      ensures s.src.row.Some? ==> forall l :: l in b.included ==>
        (l in s.src.slots && s.src.slots[l] == b.key[l]) || (l in s.dst.slots && s.dst.slots[l] == b.key[l])
    {
      hide Valid, Does;
      trace, outcomes := [s], [];
      for i := 0 to |commands|
        invariant Valid(b, s)
        invariant |trace| == i + 1 && trace[0] == old(s) && trace[i] == s && |outcomes| == i
        invariant forall k :: 0 <= k < i ==> Followed(b, trace[k], commands[k], outcomes[k], trace[k + 1])
      {
        var r := Done;
        if Applicable(b, s, commands[i].0) {
          r := Execute(commands[i].0, commands[i].1);
        }
        trace, outcomes := trace + [s], outcomes + [r];
      }
      AllUsable(b, s);
    }
  }
}
