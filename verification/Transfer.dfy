/**
 One COPY or MOVE transaction between two devices with separate stores.

 A device changes durably one step at a time: a database transaction, a slot
 written, a slot deleted. This module gives the two devices' state, the steps
 that change it and the invariant every step keeps; `TransferCommands` gives
 the commands made of them.
 */
module Transfer {
  import opened Holdings
  import opened Results

  datatype Operation = Copy | Move

  datatype SourceState = Prepared | SourceFinalized | SourceCompleted | SourceAborted | SourceNeedsAdmin
  datatype DestState = Transferred | Writing | Committed | Acknowledged | DestCompleted | DestAborted

  /** What is moved: the labels whose secrets travel, their keys, and the slots and identity rows both devices started with. */
  datatype Bundle = Bundle(
    operation: Operation, included: set<string>, key: map<string, int>,
    source0: map<string, int>, possession0: map<string, Possession>, gen0: map<string, int>,
    dest0: map<string, int>, destGen0: map<string, int>)

  /** Only identities the source possesses travel. */
  predicate Exportable(b: Bundle) {
    forall l :: l in b.included ==> l in b.key && l in b.possession0 && b.possession0[l] == Active && l in b.gen0
  }

  /** Slots by label, the transaction row, the identity rows, and the generations put into the package. */
  datatype Source = Source(
    slots: map<string, int>, row: Option<SourceState>,
    possession: map<string, Possession>, gen: map<string, int>, sent: map<string, int>)

  /** Slots by label, the transaction row with its write-ahead install log, and the identity rows. */
  datatype Dest = Dest(slots: map<string, int>, row: Option<DestState>, installed: set<string>, gen: map<string, int>)

  datatype State = State(src: Source, dst: Dest, ackIssued: bool)

  // ---- the invariant ---------------------------------------------------------------

  predicate Ready(dst: Dest) {
    dst.row == Some(Committed) || dst.row == Some(Acknowledged) || dst.row == Some(DestCompleted)
  }

  predicate Finished(src: Source) {
    src.row == Some(SourceFinalized) || src.row == Some(SourceCompleted)
  }

  /** The destination can open every included identity. */
  predicate HoldsAll(b: Bundle, dst: Dest) {
    forall l :: l in b.included ==> l in b.key && l in dst.slots && dst.slots[l] == b.key[l]
  }

  predicate Scrubbed(b: Bundle, src: Source) {
    forall l :: l in b.included ==> l !in src.slots
  }

  /**
   The source's identity rows are the original ones, except that a finished MOVE
   has made every included one a ghost, one generation on.
   */
  predicate RowsAre(b: Bundle, finished: bool, possession: map<string, Possession>, gen: map<string, int>) {
    && possession.Keys == b.possession0.Keys && gen.Keys == b.gen0.Keys
    && (forall l :: l in b.possession0 ==>
          possession[l] == if b.operation == Move && finished && l in b.included then Ghost else b.possession0[l])
    && (forall l :: l in b.gen0 ==>
          gen[l] == if b.operation == Move && finished && l in b.included then Bumped(b.gen0[l]) else b.gen0[l])
  }

  /** A package says the generations the included identities had. */
  predicate SentIs(b: Bundle, prepared: bool, sent: map<string, int>) {
    prepared ==> sent.Keys == b.included && forall l :: l in b.included ==> l in b.gen0 && sent[l] == b.gen0[l]
  }

  /** The destination's generations are the original ones until it commits, and for labels not included always; none falls. */
  predicate GensAre(b: Bundle, ready: bool, gen: map<string, int>) {
    && (!ready ==> gen == b.destGen0)
    && gen.Keys <= b.destGen0.Keys + b.included
    && (forall l :: l in b.destGen0 ==> l in gen && b.destGen0[l] <= gen[l] && (l !in b.included ==> gen[l] == b.destGen0[l]))
  }

  /**
   Source slots are only ever taken away, only by a MOVE and only once the
   destination has committed; a ghost row means a finished MOVE whose slots
   are all gone.
   */
  predicate SourceOk(b: Bundle, src: Source, ready: bool) {
    && RowsAre(b, Finished(src), src.possession, src.gen) && SentIs(b, src.row.Some?, src.sent)
    && (forall l :: l in src.slots ==> l in b.source0 && src.slots[l] == b.source0[l])
    && (forall l :: l in b.source0 && l !in src.slots ==> l in b.included && b.operation == Move && ready)
    && (forall l :: l in b.included ==> l in b.key && l in src.possession && l in src.gen)
    && (src.row.Some? ==> forall l :: l in b.included ==> l in b.source0 && b.source0[l] == b.key[l] && l in src.sent)
    && (forall l :: l in b.included && src.possession[l] == Ghost ==> b.operation == Move && Finished(src))
    && (Finished(src) ==> ready && (b.operation == Move ==> Scrubbed(b, src)))
  }

  /**
   Destination slots are the original ones and logged installs; an aborted
   transaction leaves exactly the original ones; a committed one holds all.
   */
  predicate DestOk(b: Bundle, dst: Dest) {
    && GensAre(b, Ready(dst), dst.gen)
    && (forall l :: l in b.dest0 ==> l in dst.slots && dst.slots[l] == b.dest0[l])
    && (forall l :: l in dst.slots && l !in b.dest0 ==> l in dst.installed && l in b.key && dst.slots[l] == b.key[l])
    && (forall l :: l in dst.installed ==> l in b.included && l !in b.dest0)
    && (dst.row == Some(DestAborted) || dst.row.None? ==> dst.slots == b.dest0)
    && (dst.row.None? ==> dst.installed == {})
    && (Ready(dst) ==> HoldsAll(b, dst) && forall l :: l in b.included ==> l in dst.gen)
  }

  /** The source would not refuse a package from the destination as a replay. */
  predicate CanMoveBack(b: Bundle, s: State) {
    forall l :: l in b.included ==> l in s.dst.gen && l in s.src.gen && s.src.gen[l] <= s.dst.gen[l]
  }

  predicate Valid(b: Bundle, s: State) {
    && SourceOk(b, s.src, Ready(s.dst))
    && DestOk(b, s.dst)
    && (s.ackIssued ==> Ready(s.dst))
    && (s.src.row.None? ==> s.dst.row.None?)
    && (s.src.row == Some(SourceFinalized) && b.operation == Move ==> CanMoveBack(b, s))
  }

  /** No included label sits on the destination under another key. */
  predicate NoConflict(b: Bundle, dst: Dest) {
    forall l :: l in b.included && l in dst.slots ==> l in b.key && dst.slots[l] == b.key[l]
  }

  /** A generation in the package older than the one the destination already has. */
  predicate Stale(b: Bundle, s: State) {
    Stands(b, s.src, s.dst)
  }

  function Initial(b: Bundle): State {
    State(Source(b.source0, None, b.possession0, b.gen0, map[]), Dest(b.dest0, None, {}, b.destGen0), false)
  }

  lemma InitialValid(b: Bundle)
    requires Exportable(b)
    ensures Valid(b, Initial(b))
  {
  }

  /** Whatever happened, every included identity can still be opened somewhere. */
  lemma AlwaysUsable(b: Bundle, s: State, l: string)
    requires Valid(b, s) && s.src.row.Some? && l in b.included
    ensures (l in s.src.slots && s.src.slots[l] == b.key[l]) || (l in s.dst.slots && s.dst.slots[l] == b.key[l])
  {
    hide RowsAre, SentIs, GensAre;
  }

  // ---- the durable steps ----------------------------------------------------------------

  function InstallSlot(b: Bundle, dst: Dest, l: string): Dest
    requires l in b.key
  {
    dst.(slots := dst.slots[l := b.key[l]])
  }

  function RemoveDestSlot(dst: Dest, l: string): Dest {
    dst.(slots := dst.slots - {l})
  }

  function RemoveSourceSlot(src: Source, l: string): Source {
    src.(slots := src.slots - {l})
  }

  /** What the source records as the generation of `l` when it retires. */
  function Target(b: Bundle, src: Source, l: string): int
    requires l in src.gen
  {
    if b.operation == Move then Bumped(src.gen[l]) else src.gen[l]
  }

  function RaiseDestGen(dst: Dest, l: string, target: int): Dest {
    if l in dst.gen && dst.gen[l] < target then dst.(gen := dst.gen[l := target]) else dst
  }

  /** The one source transaction that retires moved identities. */
  function Retire(b: Bundle, src: Source, row: SourceState): Source {
    if b.operation == Copy then src.(row := Some(row))
    else src.(
      row := Some(row),
      possession := map l | l in src.possession :: if l in b.included then Ghost else src.possession[l],
      gen := map l | l in src.gen :: if l in b.included then Bumped(src.gen[l]) else src.gen[l])
  }

  lemma RaiseKeeps(b: Bundle, dst: Dest, l: string, target: int)
    requires DestOk(b, dst) && Ready(dst) && l in b.included
    ensures DestOk(b, RaiseDestGen(dst, l, target))
  {
    RaiseGens(b, dst, l, target);
    hide GensAre;
  }

  lemma RaiseMeans(dst: Dest, l: string, target: int)
    requires l in dst.gen
    ensures
      var next := RaiseDestGen(dst, l, target);
      && next == dst.(gen := next.gen) && next.gen.Keys == dst.gen.Keys
      && next.gen[l] == (if dst.gen[l] < target then target else dst.gen[l])
      && forall k :: k in dst.gen && k != l ==> next.gen[k] == dst.gen[k]
  {
  }

  lemma ReadyHasRows(b: Bundle, dst: Dest)
    requires DestOk(b, dst) && Ready(dst)
    ensures forall l :: l in b.included ==> l in dst.gen
  {
    hide GensAre;
  }

  lemma RaiseGens(b: Bundle, dst: Dest, l: string, target: int)
    requires GensAre(b, true, dst.gen) && l in b.included
    ensures GensAre(b, true, RaiseDestGen(dst, l, target).gen)
  {
  }

  lemma InstallKeeps(b: Bundle, dst: Dest, l: string)
    requires DestOk(b, dst) && dst.row == Some(Writing) && l in b.included && l in dst.installed && l !in dst.slots && l in b.key
    ensures DestOk(b, InstallSlot(b, dst, l))
  {
    hide RowsAre, SentIs, GensAre;
  }

  lemma LogKeeps(b: Bundle, dst: Dest, l: string)
    requires DestOk(b, dst) && dst.row == Some(Writing) && l in b.included && l !in dst.slots
    ensures DestOk(b, dst.(installed := dst.installed + {l}))
  {
    hide RowsAre, SentIs, GensAre;
  }

  lemma RemoveDestKeeps(b: Bundle, dst: Dest, l: string)
    requires DestOk(b, dst) && dst.row.Some? && !Ready(dst) && l in dst.installed
    ensures DestOk(b, RemoveDestSlot(dst, l))
  {
    hide RowsAre, SentIs, GensAre;
  }

  lemma RemoveSourceKeeps(b: Bundle, src: Source, l: string)
    requires SourceOk(b, src, true) && b.operation == Move && l in b.included
    ensures SourceOk(b, RemoveSourceSlot(src, l), true)
  {
    hide RowsAre, SentIs, GensAre;
  }

  /** Deletion comes first: the ghost rows are written when every slot is already gone. */
  lemma RetireKeeps(b: Bundle, src: Source, row: SourceState)
    requires SourceOk(b, src, true) && src.row.Some? && (b.operation == Move ==> Scrubbed(b, src))
    requires !Finished(src) && (row == SourceCompleted || row == SourceFinalized)
    ensures SourceOk(b, Retire(b, src, row), true)
  {
    RetireRows(b, src, row);
    hide RowsAre, SentIs, GensAre;
  }

  lemma RetireRows(b: Bundle, src: Source, row: SourceState)
    requires RowsAre(b, false, src.possession, src.gen)
    ensures RowsAre(b, true, Retire(b, src, row).possession, Retire(b, src, row).gen)
  {
  }

  lemma CommitKeeps(b: Bundle, src: Source, dst: Dest)
    requires SourceOk(b, src, false) && src.row.Some? && DestOk(b, dst) && dst.row == Some(Writing)
    requires forall l :: l in b.included ==> l in dst.slots
    requires !Stands(b, src, dst)
    ensures DestOk(b, dst.(row := Some(Committed), gen := dst.gen + src.sent)) <==> NoConflict(b, dst)
  {
    CommitGens(b, src, dst);
    hide RowsAre, SentIs, GensAre, Stands;
  }

  /** Some generation the destination has is newer than the one in the package. */
  predicate Stands(b: Bundle, src: Source, dst: Dest) {
    exists l :: l in b.included && l in dst.gen && l in src.sent && src.sent[l] < dst.gen[l]
  }

  lemma CommitGens(b: Bundle, src: Source, dst: Dest)
    requires SentIs(b, true, src.sent) && GensAre(b, false, dst.gen) && !Stands(b, src, dst)
    ensures GensAre(b, true, dst.gen + src.sent)
  {
  }

  /** A destination-only change that neither undoes a commit nor lowers a generation. */
  lemma DestChangeKeeps(b: Bundle, s: State, dst: Dest)
    requires Valid(b, s) && s.src.row.Some? && DestOk(b, dst)
    requires Ready(dst) == Ready(s.dst)
    requires forall l :: l in s.dst.gen ==> l in dst.gen && s.dst.gen[l] <= dst.gen[l]
    ensures Valid(b, s.(dst := dst))
  {
    hide RowsAre, SentIs, GensAre;
  }

  /** A source-only change once the destination is ready. */
  lemma SourceChangeKeeps(b: Bundle, s: State, src: Source)
    requires Valid(b, s) && s.src.row.Some? && src.row.Some? && SourceOk(b, src, Ready(s.dst))
    requires src.row == Some(SourceFinalized) && b.operation == Move ==> CanMoveBack(b, s.(src := src))
    ensures Valid(b, s.(src := src))
  {
    hide RowsAre, SentIs, GensAre;
  }

  lemma CompleteDestKeeps(b: Bundle, s: State)
    requires Valid(b, s) && s.src.row.Some? && Ready(s.dst)
    ensures Valid(b, s.(dst := s.dst.(row := Some(DestCompleted))))
  {
    hide RowsAre, SentIs, GensAre;
    var dst := s.dst.(row := Some(DestCompleted));
    assert DestOk(b, dst);
    DestChangeKeeps(b, s, dst);
  }

  lemma CompleteSourceKeeps(b: Bundle, s: State)
    requires Valid(b, s) && Finished(s.src)
    ensures Valid(b, s.(src := s.src.(row := Some(SourceCompleted))))
  {
    hide RowsAre, SentIs, GensAre;
    var src := s.src.(row := Some(SourceCompleted));
    assert SourceOk(b, src, Ready(s.dst));
    SourceChangeKeeps(b, s, src);
  }

  lemma NeedsAdminKeeps(b: Bundle, s: State)
    requires Valid(b, s) && s.src.row == Some(Prepared)
    ensures Valid(b, s.(src := s.src.(row := Some(SourceNeedsAdmin))))
  {
    hide RowsAre, SentIs, GensAre;
    var src := s.src.(row := Some(SourceNeedsAdmin));
    assert SourceOk(b, src, Ready(s.dst));
    SourceChangeKeeps(b, s, src);
  }

  lemma AbortSourceKeeps(b: Bundle, s: State)
    requires Valid(b, s) && s.src.row.Some? && !Finished(s.src)
    ensures Valid(b, s.(src := s.src.(row := Some(SourceAborted))))
  {
    hide RowsAre, SentIs, GensAre;
    var src := s.src.(row := Some(SourceAborted));
    assert SourceOk(b, src, Ready(s.dst));
    SourceChangeKeeps(b, s, src);
  }

  lemma AbortDestKeeps(b: Bundle, s: State)
    requires Valid(b, s) && s.src.row.Some? && !Ready(s.dst) && s.dst.slots == b.dest0
    ensures Valid(b, s.(dst := s.dst.(row := Some(DestAborted))))
  {
    hide RowsAre, SentIs, GensAre;
    var dst := s.dst.(row := Some(DestAborted));
    assert DestOk(b, dst);
    DestChangeKeeps(b, s, dst);
  }

  lemma Known(b: Bundle, src: Source, ready: bool)
    requires SourceOk(b, src, ready)
    ensures forall l :: l in b.included ==> l in b.key && l in src.gen
  {
    hide RowsAre, SentIs, GensAre;
  }

  lemma WritingKeeps(b: Bundle, dst: Dest)
    requires DestOk(b, dst) && (dst.row == Some(Transferred) || dst.row == Some(Writing))
    ensures DestOk(b, dst.(row := Some(Writing)))
  {
    hide RowsAre, SentIs, GensAre;
  }

  /** A completed transfer is on the destination, and a completed MOVE is nowhere else. */
  lemma CompletedMeans(b: Bundle, s: State)
    requires Valid(b, s) && s.src.row == Some(SourceCompleted)
    ensures HoldsAll(b, s.dst) && (b.operation == Move ==> Scrubbed(b, s.src))
  {
    hide RowsAre, SentIs, GensAre;
  }

  /** Before the destination commits the source has lost nothing. */
  lemma NothingLostYet(b: Bundle, s: State)
    requires Valid(b, s) && !Ready(s.dst)
    ensures s.src.slots == b.source0
  {
    hide RowsAre, SentIs, GensAre;
  }

  /** A row becomes a ghost only in a finished move whose slots are all gone from here and all there. */
  lemma GhostMeansScrubbed(b: Bundle, s: State, l: string)
    requires Valid(b, s) && l in b.included && s.src.possession[l] == Ghost
    ensures b.operation == Move && Finished(s.src) && Scrubbed(b, s.src) && HoldsAll(b, s.dst)
  {
    hide RowsAre, SentIs, GensAre;
  }

  /** The identity rows in every valid state: ghosts are exactly the included ones of a finished move, and nothing else changes. */
  lemma RowsMean(b: Bundle, s: State, l: string)
    requires Valid(b, s) && Exportable(b) && l in s.src.possession && l in s.src.gen
    ensures l in b.included ==> (s.src.possession[l] == Ghost <==> b.operation == Move && Finished(s.src))
    ensures l !in b.included || b.operation == Copy || !Finished(s.src) ==>
      s.src.possession[l] == b.possession0[l] && s.src.gen[l] == b.gen0[l]
    ensures l in b.included && b.operation == Move && Finished(s.src) ==> s.src.gen[l] == Bumped(b.gen0[l])
    ensures l !in b.included && l in s.dst.gen ==> l in b.destGen0 && s.dst.gen[l] == b.destGen0[l]
    ensures !Ready(s.dst) ==> s.dst.gen == b.destGen0
  {
  }

  lemma FinishedMeans(b: Bundle, s: State)
    requires Valid(b, s) && Finished(s.src)
    ensures Ready(s.dst)
  {
    hide RowsAre, SentIs, GensAre;
  }
}
