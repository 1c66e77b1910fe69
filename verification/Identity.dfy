/**
 Identities across stores: enrolment draws an id that nobody has, and
 transfers carry rows from one store to another. An id stands for one label
 and one key pair everywhere, for good.
 */
module Identity {
  import opened Holdings
  import opened Results

  /** What an id stands for. */
  datatype Person<L> = Person(name: L, encryption: nat, signing: nat)

  datatype Row<L> = Row(person: Person<L>, possession: Possession, generation: nat)

  /** One store's identities, by id. */
  type Rows<L> = map<nat, Row<L>>

  /** What a package says about one identity; a hint has no secret. */
  datatype Entry<L> = Entry(id: nat, person: Person<L>, generation: nat, secret: bool)

  /** No label is under two ids. */
  ghost predicate LabelsUnique<L>(rows: Rows<L>) {
    forall a, b :: a in rows && b in rows && rows[a].person.name == rows[b].person.name ==> a == b
  }

  /** Rows are only added, keep who they stand for, and never go back a generation. */
  ghost predicate Rises<L>(rows: Rows<L>, after: Rows<L>) {
    forall id :: id in rows ==>
      id in after && after[id].person == rows[id].person && rows[id].generation <= after[id].generation
  }

  lemma RisesOn<L>(a: Rows<L>, b: Rows<L>, c: Rows<L>)
    requires Rises(a, b) && Rises(b, c)
    ensures Rises(a, c)
  {
  }

  // ---- taking a package ------------------------------------------------------------------------------------

  datatype Incoming = NewSecret | Hint | Reconcile | Conflict | Replay

  method ClassifyIncoming<L(==)>(rows: Rows<L>, e: Entry<L>) returns (c: Incoming)
    ensures c.Conflict? <==>
      || (exists id :: id in rows && rows[id].person.name == e.person.name && (id != e.id || rows[id].person != e.person))
      || (e.id in rows && rows[e.id].person != e.person)
    ensures c.Replay? ==> e.id in rows && e.generation < rows[e.id].generation
    ensures c.Reconcile? ==> e.id in rows && rows[e.id].person == e.person && rows[e.id].generation <= e.generation
    ensures c.NewSecret? || c.Hint? ==> e.id !in rows && (c.NewSecret? <==> e.secret)
  {
    if id :| id in rows && rows[id].person.name == e.person.name && (id != e.id || rows[id].person != e.person) {
      return Conflict;
    }
    if e.id in rows {
      if rows[e.id].person != e.person {
        return Conflict;
      }
      return if e.generation < rows[e.id].generation then Replay else Reconcile;
    }
    c := if e.secret then NewSecret else Hint;
  }

  /** The entry fits the store: its label and id mean here what they mean there, and it is not older. */
  ghost predicate Fits<L>(rows: Rows<L>, e: Entry<L>) {
    && (forall id :: id in rows && (id == e.id || rows[id].person.name == e.person.name) ==> id == e.id && rows[id].person == e.person)
    && (e.id in rows ==> rows[e.id].generation <= e.generation)
  }

  /** A secret makes its row active here; a hint leaves a known row alone and makes an unknown one a ghost. */
  function TakenRow<L(==)>(rows: Rows<L>, e: Entry<L>): Row<L> {
    if e.secret then Row(e.person, Active, e.generation)
    else if e.id in rows then rows[e.id]
    else Row(e.person, Ghost, e.generation)
  }

  method ApplyEntry<L(==)>(rows: Rows<L>, e: Entry<L>) returns (r: Result<Rows<L>>)
    requires LabelsUnique(rows)
    ensures r.Ok? <==> Fits(rows, e)
    ensures r.Ok? ==> LabelsUnique(r.value) && Rises(rows, r.value)
    ensures r.Ok? ==> r.value.Keys == rows.Keys + {e.id} && r.value[e.id].person == e.person
    ensures r.Ok? ==> r.value[e.id].generation <= e.generation
    ensures r.Ok? ==> forall id :: id in rows && id != e.id ==> r.value[id] == rows[id]
    ensures r.Ok? ==> r.value[e.id] == TakenRow(rows, e)
  {
    var c := ClassifyIncoming(rows, e);
    match c {
      case Conflict =>
        r := Err(IdentityConflict);
      case Replay =>
        r := Err(TransferReplay);
      case Reconcile =>
        r := Ok(if e.secret then rows[e.id := Row(e.person, Active, e.generation)] else rows);
      case Hint =>
        r := Ok(rows[e.id := Row(e.person, Ghost, e.generation)]);
      case NewSecret =>
        r := Ok(rows[e.id := Row(e.person, Active, e.generation)]);
    }
  }

  /** Who each id stands for, whichever store or package it is met in. */
  type Registry<L> = map<nat, Person<L>>

  ghost predicate RowsAgree<L>(registry: Registry<L>, rows: Rows<L>) {
    forall id :: id in rows ==> id in registry && registry[id] == rows[id].person
  }

  ghost predicate EntriesAgree<L>(registry: Registry<L>, entries: seq<Entry<L>>) {
    forall i :: 0 <= i < |entries| ==>
      entries[i].id in registry && registry[entries[i].id] == entries[i].person && entries[i].generation <= MAX_GENERATION
  }

  /** A store whose labels are unique and whose rows mean what the registry says. */
  ghost predicate Good<L>(registry: Registry<L>, rows: Rows<L>) {
    LabelsUnique(rows) && Bounded(rows) && RowsAgree(registry, rows)
  }

  /** No two entries are about one id or one label. */
  ghost predicate Separate<L>(entries: seq<Entry<L>>) {
    forall i, j :: 0 <= i < j < |entries| ==> entries[i].id != entries[j].id && entries[i].person.name != entries[j].person.name
  }

  /** The first `n` entries have their rows, and every other row is as it was. */
  ghost predicate TakenUpTo<L>(rows: Rows<L>, entries: seq<Entry<L>>, n: nat, out: Rows<L>)
    requires n <= |entries|
  {
    && (forall i :: 0 <= i < n ==> entries[i].id in out && out[entries[i].id] == TakenRow(rows, entries[i]))
    && (forall id :: id in rows ==> id in out)
    && (forall id :: id in out && (forall i :: 0 <= i < n ==> entries[i].id != id) ==> id in rows && out[id] == rows[id])
  }

  /** What is still to be taken fits the rows so far exactly when it fitted the rows at first. */
  lemma StillFits<L>(rows: Rows<L>, entries: seq<Entry<L>>, n: nat, out: Rows<L>)
    requires n < |entries| && Separate(entries) && TakenUpTo(rows, entries, n, out) && Rises(rows, out)
    requires forall i :: 0 <= i < n ==> Fits(rows, entries[i])
    ensures Fits(out, entries[n]) <==> Fits(rows, entries[n])
    ensures TakenRow(out, entries[n]) == TakenRow(rows, entries[n])
  {
    var e := entries[n];
    forall id | id in out && (id == e.id || out[id].person.name == e.person.name)
      ensures id in rows && out[id].person == rows[id].person && (id == e.id ==> out[id] == rows[id])
    {
      if i :| 0 <= i < n && entries[i].id == id {
        TakenPerson(rows, entries, n, out, i);
        assert false;
      }
    }
  }

  lemma TakenPerson<L>(rows: Rows<L>, entries: seq<Entry<L>>, n: nat, out: Rows<L>, i: nat)
    requires i < n < |entries| && Separate(entries) && TakenUpTo(rows, entries, n, out) && Rises(rows, out)
    requires entries[i].id in rows ==> rows[entries[i].id].person == entries[i].person
    ensures out[entries[i].id].person.name != entries[n].person.name && entries[i].id != entries[n].id
  {
  }

  lemma OneMoreTaken<L>(rows: Rows<L>, entries: seq<Entry<L>>, n: nat, out: Rows<L>, next: Rows<L>)
    requires n < |entries| && Separate(entries) && TakenUpTo(rows, entries, n, out)
    requires next.Keys == out.Keys + {entries[n].id} && next[entries[n].id] == TakenRow(rows, entries[n])
    requires forall id :: id in out && id != entries[n].id ==> next[id] == out[id]
    ensures TakenUpTo(rows, entries, n + 1, next)
  {
    hide TakenRow;
    forall id | id in next && (forall i :: 0 <= i < n + 1 ==> entries[i].id != id)
      ensures id in rows && next[id] == rows[id]
    {
      assert entries[n].id != id;
    }
  }

  /** Take every entry of a package, or none. */
  method ApplyEntries<L(==)>(rows: Rows<L>, entries: seq<Entry<L>>, ghost registry: Registry<L>) returns (r: Result<Rows<L>>)
    requires Good(registry, rows) && EntriesAgree(registry, entries)
    ensures r.Ok? ==> Good(registry, r.value) && Rises(rows, r.value)
    ensures Separate(entries) ==> (r.Ok? <==> forall i :: 0 <= i < |entries| ==> Fits(rows, entries[i]))
    ensures Separate(entries) && r.Ok? ==> TakenUpTo(rows, entries, |entries|, r.value)
    ensures r.Ok? ==> forall i :: 0 <= i < |entries| ==> entries[i].id in r.value
  {
    var out := rows;
    hide Good, Rises, TakenUpTo, Fits, TakenRow, Separate, EntriesAgree;
    NothingTaken(rows, entries);
    for i := 0 to |entries|
      invariant Good(registry, out) && Rises(rows, out)
      invariant forall j :: 0 <= j < i ==> entries[j].id in out
      invariant Separate(entries) ==> TakenUpTo(rows, entries, i, out) && forall j :: 0 <= j < i ==> Fits(rows, entries[j])
    {
      ghost var was := out;
      GoodMeans(registry, out);
      var next := ApplyEntry(out, entries[i]);
      if Separate(entries) {
        StillFits(rows, entries, i, was);
      }
      if next.Err? {
        return next;
      }
      out := next.value;
      if Separate(entries) {
        OneMoreTaken(rows, entries, i, was, out);
      }
      GoodNext(registry, was, entries, i, out);
      RisesOn(rows, was, out);
    }
    r := Ok(out);
  }

  lemma NothingTaken<L>(rows: Rows<L>, entries: seq<Entry<L>>)
    ensures TakenUpTo(rows, entries, 0, rows) && Rises(rows, rows)
  {
  }

  lemma GoodMeans<L>(registry: Registry<L>, rows: Rows<L>)
    requires Good(registry, rows)
    ensures LabelsUnique(rows) && Bounded(rows)
  {
  }

  /** One row more that agrees with everybody: the store still does. */
  lemma GoodNext<L>(registry: Registry<L>, rows: Rows<L>, entries: seq<Entry<L>>, i: nat, next: Rows<L>)
    requires Good(registry, rows) && EntriesAgree(registry, entries) && i < |entries| && LabelsUnique(next)
    requires next.Keys == rows.Keys + {entries[i].id} && next[entries[i].id].person == entries[i].person
    requires next[entries[i].id].generation <= entries[i].generation
    requires forall id :: id in rows && id != entries[i].id ==> next[id] == rows[id]
    ensures Good(registry, next)
  {
    hide LabelsUnique;
  }

  // ---- enrolling ---------------------------------------------------------------------------------------------

  method Enroll<L(==)>(rows: Rows<L>, person: Person<L>, id: nat) returns (r: Result<nat>, after: Rows<L>)
    requires LabelsUnique(rows) && id !in rows
    ensures LabelsUnique(after) && Rises(rows, after)
    ensures r.Ok? ==> r.value in after && after[r.value].person == person
    ensures r.Ok? && r.value == id ==> after == rows[id := Row(person, Active, 1)]
    ensures r.Err? || r.value != id ==> after == rows
    ensures r.Err? <==> exists k :: k in rows && rows[k].person.name == person.name && rows[k].person != person
  {
    after := rows;
    if k :| k in rows && rows[k].person.name == person.name {
      if rows[k].person != person {
        return Err(IdentityConflict), rows;
      }
      return Ok(k), rows;
    }
    r, after := Ok(id), rows[id := Row(person, Active, 1)];
  }

  // ---- finishing a transfer ----------------------------------------------------------------------------------

  ghost predicate Bounded<L>(rows: Rows<L>) {
    forall id :: id in rows ==> rows[id].generation <= MAX_GENERATION
  }

  /** Some row has this label. */
  ghost predicate Known<L>(rows: Rows<L>, name: L) {
    exists id :: id in rows && rows[id].person.name == name
  }

  /** A row retired so many times: after a move a ghost, each time one generation on as far as generations go. */
  function RetiredRow<L>(row: Row<L>, times: nat, move: bool): Row<L> {
    if move && times > 0
    then Row(row.person, Ghost, if row.generation + times <= MAX_GENERATION then row.generation + times else MAX_GENERATION)
    else row
  }

  /** A row brought up to another one's generation, if it is behind. */
  function CaughtUp<L>(row: Row<L>, generation: nat): Row<L> {
    if row.generation < generation then row.(generation := generation) else row
  }

  /** The labels in `done` are retired, each as often as it is listed, and the other side has caught up with them. */
  ghost predicate PartlyRetired<L>(source: Rows<L>, dest: Rows<L>, done: seq<L>, move: bool, source': Rows<L>, dest': Rows<L>) {
    && source'.Keys == source.Keys && dest'.Keys == dest.Keys
    && (forall id :: id in source ==> source'[id] == RetiredRow(source[id], multiset(done)[source[id].person.name], move))
    && (forall id :: id in dest ==>
          if id in source && source[id].person.name in done
          then dest'[id] == CaughtUp(dest[id], source'[id].generation)
          else dest'[id] == dest[id])
  }

  /** Retire one row at `target`, and raise the other side to at least that. */
  method RetireOne<L(==)>(source: Rows<L>, dest: Rows<L>, id: nat, target: nat, move: bool)
    returns (source': Rows<L>, dest': Rows<L>)
    requires id in source && source[id].generation <= target <= MAX_GENERATION
    ensures source' == if move then source[id := Row(source[id].person, Ghost, target)] else source
    ensures dest'.Keys == dest.Keys && forall k :: k in dest && k != id ==> dest'[k] == dest[k]
    ensures id in dest ==> dest'[id] == CaughtUp(dest[id], target)
  {
    source' := if move then source[id := Row(source[id].person, Ghost, target)] else source;
    dest' := if id in dest && dest[id].generation < target then dest[id := dest[id].(generation := target)] else dest;
  }

  /** Retiring a row once more. */
  lemma RetiredAgain<L>(row: Row<L>, times: nat, move: bool)
    requires row.generation <= MAX_GENERATION
    ensures
      var (was, now) := (RetiredRow(row, times, move), RetiredRow(row, times + 1, move));
      was.person == row.person && now == if move then Row(was.person, Ghost, Bumped(was.generation)) else was
  {
  }

  /** One row after retiring row `id` once more, and the same id on the other side. */
  lemma OneMoreRow<L>(source: Rows<L>, dest: Rows<L>, done: seq<L>, move: bool, s: Rows<L>, d: Rows<L>,
                      id: nat, target: nat, s': Rows<L>, d': Rows<L>, k: nat)
    requires LabelsUnique(source) && Bounded(source) && PartlyRetired(source, dest, done, move, s, d) && id in s
    requires target == (if move then Bumped(s[id].generation) else s[id].generation)
    requires s' == if move then s[id := Row(s[id].person, Ghost, target)] else s
    requires d'.Keys == d.Keys && forall k :: k in d && k != id ==> d'[k] == d[k]
    requires id in d ==> d'[id] == CaughtUp(d[id], target)
    ensures k in source ==> s'[k] == RetiredRow(source[k], multiset(done + [s[id].person.name])[source[k].person.name], move)
    ensures k in dest ==>
      if k in source && source[k].person.name in done + [s[id].person.name]
      then d'[k] == CaughtUp(dest[k], s'[k].generation)
      else d'[k] == dest[k]
  {
    var n := multiset(done)[source[id].person.name];
    RetiredAgain(source[id], n, move);
    if k in source {
      OnlyItsOwn(source, id, k);
    }
    hide LabelsUnique, RetiredRow, Bumped, Bounded;
  }

  lemma OneMoreRetired<L>(source: Rows<L>, dest: Rows<L>, done: seq<L>, move: bool, s: Rows<L>, d: Rows<L>,
                          id: nat, target: nat, s': Rows<L>, d': Rows<L>)
    requires LabelsUnique(source) && Bounded(source) && PartlyRetired(source, dest, done, move, s, d) && id in s
    requires target == (if move then Bumped(s[id].generation) else s[id].generation)
    requires s' == if move then s[id := Row(s[id].person, Ghost, target)] else s
    requires d'.Keys == d.Keys && forall k :: k in d && k != id ==> d'[k] == d[k]
    requires id in d ==> d'[id] == CaughtUp(d[id], target)
    ensures PartlyRetired(source, dest, done + [s[id].person.name], move, s', d')
  {
    hide LabelsUnique, Bounded, RetiredRow, CaughtUp, Bumped;
    forall k | k in source || k in dest
      ensures k in source ==> s'[k] == RetiredRow(source[k], multiset(done + [s[id].person.name])[source[k].person.name], move)
      ensures k in dest ==>
        if k in source && source[k].person.name in done + [s[id].person.name]
        then d'[k] == CaughtUp(dest[k], s'[k].generation)
        else d'[k] == dest[k]
    {
      OneMoreRow(source, dest, done, move, s, d, id, target, s', d', k);
    }
  }

  lemma OnlyItsOwn<L>(source: Rows<L>, id: nat, k: nat)
    requires LabelsUnique(source) && id in source && k in source
    ensures source[k].person.name == source[id].person.name <==> k == id
  {
  }

  /** After a move each row becomes a ghost one generation on for each time it is named; the other side catches up. */
  method Retire<L(==)>(source: Rows<L>, dest: Rows<L>, labels: seq<L>, move: bool)
    returns (ok: bool, source': Rows<L>, dest': Rows<L>)
    requires LabelsUnique(source) && Bounded(source) && Bounded(dest)
    ensures ok <==> forall i :: 0 <= i < |labels| ==> Known(source, labels[i])
    ensures ok ==> PartlyRetired(source, dest, labels, move, source', dest')
    ensures !ok ==> source' == source && dest'.Keys == dest.Keys && Rises(dest, dest') && Bounded(dest')
  {
    hide PartlyRetired, Known, Bounded, Rises, LabelsUnique;
    source', dest' := source, dest;
    NothingRetired(source, dest, move);
    assert labels[..0] == [];
    for i := 0 to |labels|
      invariant PartlyRetired(source, dest, labels[..i], move, source', dest')
      invariant forall j :: 0 <= j < i ==> Known(source, labels[j])
    {
      assert labels[..i + 1] == labels[..i] + [labels[i]];
      var found;
      found, source', dest' := RetireLabel(source, dest, labels[..i], move, source', dest', labels[i]);
      if !found {
        PartlyMeans(source, dest, labels[..i], move, source', dest');
        return false, source, dest';
      }
    }
    assert labels[..|labels|] == labels;
    ok := true;
  }

  lemma NothingRetired<L>(source: Rows<L>, dest: Rows<L>, move: bool)
    ensures PartlyRetired(source, dest, [], move, source, dest)
  {
  }

  lemma PartlyMeans<L>(source: Rows<L>, dest: Rows<L>, done: seq<L>, move: bool, s: Rows<L>, d: Rows<L>)
    requires PartlyRetired(source, dest, done, move, s, d) && Bounded(source) && Bounded(dest)
    ensures s.Keys == source.Keys && Rises(source, s) && Bounded(s)
    ensures d.Keys == dest.Keys && Rises(dest, d) && Bounded(d)
  {
  }

  /** Look one label up and retire its row. */
  method RetireLabel<L(==)>(
    ghost source: Rows<L>, ghost dest: Rows<L>, ghost done: seq<L>, move: bool, s: Rows<L>, d: Rows<L>, name: L)
    returns (found: bool, s': Rows<L>, d': Rows<L>)
    requires LabelsUnique(source) && Bounded(source) && PartlyRetired(source, dest, done, move, s, d)
    ensures found <==> Known(source, name)
    ensures found ==> PartlyRetired(source, dest, done + [name], move, s', d')
    ensures !found ==> s' == s && d' == d
  {
    hide PartlyRetired, Known, LabelsUnique, Bumped, Bounded, CaughtUp;
    if id :| id in s && s[id].person.name == name {
      StillKnown(source, dest, done, move, s, d, id);
      var target := if move then Bumped(s[id].generation) else s[id].generation;
      s', d' := RetireOne(s, d, id, target, move);
      OneMoreRetired(source, dest, done, move, s, d, id, target, s', d');
      found := true;
    } else {
      StillUnknown(source, dest, done, move, s, d, name);
      found, s', d' := false, s, d;
    }
  }

  lemma StillKnown<L>(source: Rows<L>, dest: Rows<L>, done: seq<L>, move: bool, s: Rows<L>, d: Rows<L>, id: nat)
    requires Bounded(source) && PartlyRetired(source, dest, done, move, s, d) && id in s
    ensures Known(source, s[id].person.name)
    ensures s[id].generation <= Bumped(s[id].generation) <= MAX_GENERATION
  {
    assert id in source && s[id].person == source[id].person;
  }

  lemma StillUnknown<L>(source: Rows<L>, dest: Rows<L>, done: seq<L>, move: bool, s: Rows<L>, d: Rows<L>, name: L)
    requires PartlyRetired(source, dest, done, move, s, d)
    requires forall id :: id in s ==> s[id].person.name != name
    ensures !Known(source, name)
  {
    assert forall id :: id in source ==> id in s && s[id].person == source[id].person;
  }

  // ---- all stores, all packages --------------------------------------------------------------------------------

  /** Every store, every package ever made, and the ids not drawn yet. */
  datatype Everywhere<L> = Everywhere(stores: map<nat, Rows<L>>, packages: seq<seq<Entry<L>>>, unused: nat)

  ghost predicate Valid<L>(w: Everywhere<L>, registry: Registry<L>) {
    && (forall d :: d in w.stores ==> Good(registry, w.stores[d]))
    && (forall i :: 0 <= i < |w.packages| ==> EntriesAgree(registry, w.packages[i]))
    && (forall id :: id in registry ==> id < w.unused)
  }

  ghost predicate Extends<L>(registry: Registry<L>, more: Registry<L>) {
    forall id :: id in registry ==> id in more && more[id] == registry[id]
  }

  /** Every store only rises, and every id goes on standing for the same person. */
  ghost predicate Later<L>(w: Everywhere<L>, registry: Registry<L>, w': Everywhere<L>, registry': Registry<L>) {
    && (forall d :: d in w.stores ==> d in w'.stores && Rises(w.stores[d], w'.stores[d]))
    && Extends(registry, registry')
  }

  lemma StillAgree<L>(registry: Registry<L>, more: Registry<L>, rows: Rows<L>)
    requires Good(registry, rows) && Extends(registry, more)
    ensures Good(more, rows)
  {
  }

  lemma StoreReplaced<L>(w: Everywhere<L>, registry: Registry<L>, d: nat, rows: Rows<L>)
    requires Valid(w, registry) && Good(registry, rows) && d in w.stores && Rises(w.stores[d], rows)
    ensures Valid(w.(stores := w.stores[d := rows]), registry)
    ensures Later(w, registry, w.(stores := w.stores[d := rows]), registry)
  {
    hide Good, EntriesAgree;
    forall k | k in w.stores
      ensures Rises(w.stores[k], w.stores[k])
    {
    }
  }

  lemma LaterOn<L>(a: Everywhere<L>, ra: Registry<L>, b: Everywhere<L>, rb: Registry<L>, c: Everywhere<L>, rc: Registry<L>)
    requires Later(a, ra, b, rb) && Later(b, rb, c, rc)
    ensures Later(a, ra, c, rc)
  {
    forall d | d in a.stores
      ensures Rises(a.stores[d], c.stores[d])
    {
      RisesOn(a.stores[d], b.stores[d], c.stores[d]);
    }
  }

  lemma LaterSame<L>(w: Everywhere<L>, registry: Registry<L>)
    ensures Later(w, registry, w, registry)
  {
  }

  // ---- the five things that happen --------------------------------------------------------------------------------

  datatype Action<L> =
    | EnrollAt(device: nat, person: Person<L>)
    | PackAt(device: nat, labels: seq<L>, hints: seq<L>)
    | TakeAt(device: nat, package: nat)
    | FinishAt(source: nat, dest: nat, labels: seq<L>, move: bool)
    | FinishAloneAt(source: nat, labels: seq<L>, move: bool)

  /** Packages and the other stores are as they were. */
  ghost predicate OnlyStore<L>(w: Everywhere<L>, d: nat, w': Everywhere<L>) {
    && w'.packages == w.packages && w'.stores.Keys == w.stores.Keys
    && forall k :: k in w.stores && k != d ==> w'.stores[k] == w.stores[k]
  }

  /** A label that is new to the store gets an id nobody has, at generation one; a known one changes nothing. */
  ghost predicate Enrolled<L>(w: Everywhere<L>, d: nat, person: Person<L>, w': Everywhere<L>) {
    if d in w.stores && !Known(w.stores[d], person.name)
    then OnlyStore(w, d, w') && w'.unused == w.unused + 1 && w'.stores[d] == w.stores[d][w.unused := Row(person, Active, 1)]
    else w' == w
  }

  method DoEnroll<L(==)>(w: Everywhere<L>, ghost registry: Registry<L>, d: nat, person: Person<L>)
    returns (w': Everywhere<L>, ghost registry': Registry<L>)
    requires Valid(w, registry)
    ensures Valid(w', registry') && Later(w, registry, w', registry') && Enrolled(w, d, person, w')
    ensures w' != w ==> w.unused !in registry
  {
    w', registry' := w, registry;
    LaterSame(w, registry);
    if d in w.stores {
      var r, rows := Enroll(w.stores[d], person, w.unused);
      if r.Ok? && r.value == w.unused {
        registry' := registry[w.unused := person];
        Drawn(w, registry, person);
        StoreReplaced(w.(unused := w.unused + 1), registry', d, rows);
        w' := w.(unused := w.unused + 1, stores := w.stores[d := rows]);
      }
    }
  }

  /** An id nobody has can be given to anybody. */
  lemma Drawn<L>(w: Everywhere<L>, registry: Registry<L>, person: Person<L>)
    requires Valid(w, registry)
    ensures Valid(w.(unused := w.unused + 1), registry[w.unused := person])
    ensures Extends(registry, registry[w.unused := person])
  {
    var more := registry[w.unused := person];
    forall d | d in w.stores
      ensures Good(more, w.stores[d])
    {
      StillAgree(registry, more, w.stores[d]);
    }
    hide Good;
  }

  /** The entry says what the row of that label says. */
  ghost predicate Describes<L>(rows: Rows<L>, name: L, secret: bool, e: Entry<L>) {
    && e.id in rows && e.person == rows[e.id].person && e.person.name == name
    && e.generation == rows[e.id].generation && e.secret == secret
  }

  /** The package is about these labels, secrets first. */
  ghost predicate Packed<L>(rows: Rows<L>, labels: seq<L>, hints: seq<L>, entries: seq<Entry<L>>) {
    && |entries| == |labels| + |hints|
    && (forall i :: 0 <= i < |labels| ==> Describes(rows, labels[i], true, entries[i]))
    && (forall i :: 0 <= i < |hints| ==> Describes(rows, hints[i], false, entries[|labels| + i]))
  }

  /** Write down the rows of these labels. */
  method MakeEntries<L(==)>(rows: Rows<L>, labels: seq<L>, secret: bool, ghost registry: Registry<L>) returns (r: Result<seq<Entry<L>>>)
    requires Good(registry, rows)
    ensures r.Ok? ==> EntriesAgree(registry, r.value) && |r.value| == |labels|
    ensures r.Ok? <==> forall i :: 0 <= i < |labels| ==> Known(rows, labels[i])
    ensures r.Ok? ==> forall i :: 0 <= i < |labels| ==> Describes(rows, labels[i], secret, r.value[i])
  {
    var out: seq<Entry<L>> := [];
    for i := 0 to |labels|
      invariant EntriesAgree(registry, out) && |out| == i
      invariant forall j :: 0 <= j < i ==> Known(rows, labels[j]) && Describes(rows, labels[j], secret, out[j])
    {
      if id :| id in rows && rows[id].person.name == labels[i] {
        out := out + [Entry(id, rows[id].person, rows[id].generation, secret)];
      } else {
        assert !Known(rows, labels[i]);
        return Err(TransferDenied);
      }
    }
    r := Ok(out);
  }

  lemma PackageAdded<L>(w: Everywhere<L>, registry: Registry<L>, secrets: seq<Entry<L>>, others: seq<Entry<L>>)
    requires Valid(w, registry) && EntriesAgree(registry, secrets) && EntriesAgree(registry, others)
    ensures
      var w' := w.(packages := w.packages + [secrets + others]);
      Valid(w', registry) && Later(w, registry, w', registry)
  {
    assert EntriesAgree(registry, secrets + others);
    LaterSame(w, registry);
    hide Good, EntriesAgree, Rises;
  }

  /** One package more if every label is known, and nothing otherwise. */
  ghost predicate PackedAt<L>(w: Everywhere<L>, d: nat, labels: seq<L>, hints: seq<L>, w': Everywhere<L>) {
    if d in w.stores && forall l :: l in labels + hints ==> Known(w.stores[d], l)
    then
      && w'.stores == w.stores && w'.unused == w.unused
      && |w'.packages| == |w.packages| + 1 && w'.packages[..|w.packages|] == w.packages
      && Packed(w.stores[d], labels, hints, w'.packages[|w.packages|])
    else w' == w
  }

  method DoPack<L(==)>(w: Everywhere<L>, ghost registry: Registry<L>, d: nat, labels: seq<L>, hints: seq<L>) returns (w': Everywhere<L>)
    requires Valid(w, registry)
    ensures Valid(w', registry) && Later(w, registry, w', registry) && PackedAt(w, d, labels, hints, w')
  {
    hide Valid, Later, Good, Rises, Known, Describes, EntriesAgree;
    w' := w;
    LaterSame(w, registry);
    if d in w.stores {
      StoreIsGood(w, registry, d);
      var secrets := MakeEntries(w.stores[d], labels, true, registry);
      if secrets.Ok? {
        var others := MakeEntries(w.stores[d], hints, false, registry);
        if others.Ok? {
          PackageAdded(w, registry, secrets.value, others.value);
          w' := w.(packages := w.packages + [secrets.value + others.value]);
        }
      }
    }
  }

  lemma StoreIsGood<L>(w: Everywhere<L>, registry: Registry<L>, d: nat)
    requires Valid(w, registry) && d in w.stores
    ensures Good(registry, w.stores[d])
  {
  }

  lemma PackageAgrees<L>(w: Everywhere<L>, registry: Registry<L>, package: nat)
    requires Valid(w, registry) && package < |w.packages|
    ensures EntriesAgree(registry, w.packages[package])
  {
  }

  /** The entries are taken into one store, all or none. */
  ghost predicate TakenAt<L>(w: Everywhere<L>, d: nat, package: nat, w': Everywhere<L>) {
    && OnlyStore(w, d, w') && w'.unused == w.unused && (d !in w.stores || package >= |w.packages| ==> w' == w)
    && (d in w.stores && package < |w.packages| && Separate(w.packages[package]) ==>
          if forall i :: 0 <= i < |w.packages[package]| ==> Fits(w.stores[d], w.packages[package][i])
          then TakenUpTo(w.stores[d], w.packages[package], |w.packages[package]|, w'.stores[d])
          else w' == w)
  }

  method DoTake<L(==)>(w: Everywhere<L>, ghost registry: Registry<L>, d: nat, package: nat) returns (w': Everywhere<L>)
    requires Valid(w, registry)
    ensures Valid(w', registry) && Later(w, registry, w', registry) && TakenAt(w, d, package, w')
  {
    hide Valid, Later, Good, EntriesAgree, Rises, TakenUpTo, Fits, Separate;
    w' := w;
    LaterSame(w, registry);
    if d in w.stores && package < |w.packages| {
      StoreIsGood(w, registry, d);
      PackageAgrees(w, registry, package);
      var r := ApplyEntries(w.stores[d], w.packages[package], registry);
      if r.Ok? {
        StoreReplaced(w, registry, d, r.value);
        w' := w.(stores := w.stores[d := r.value]);
      }
    }
  }

  lemma RisenIsGood<L>(registry: Registry<L>, rows: Rows<L>, after: Rows<L>)
    requires Good(registry, rows) && Rises(rows, after) && after.Keys == rows.Keys && Bounded(after)
    ensures Good(registry, after)
  {
    assert forall id :: id in after ==> id in rows && after[id].person == rows[id].person;
  }

  lemma RisesToItself<L>(rows: Rows<L>)
    ensures Rises(rows, rows)
  {
  }

  /** Retire the rows of two stores that agree with everybody: both still do. */
  method RetirePair<L(==)>(ghost registry: Registry<L>, source: Rows<L>, dest: Rows<L>, labels: seq<L>, move: bool)
    returns (source': Rows<L>, dest': Rows<L>)
    requires Good(registry, source) && Good(registry, dest)
    ensures Good(registry, source') && Good(registry, dest') && Rises(source, source') && Rises(dest, dest')
    ensures dest'.Keys == dest.Keys
    ensures
      if forall i :: 0 <= i < |labels| ==> Known(source, labels[i])
      then PartlyRetired(source, dest, labels, move, source', dest')
      else source' == source
  {
    hide *;
    GoodMeans(registry, source);
    GoodMeans(registry, dest);
    var ok;
    ok, source', dest' := Retire(source, dest, labels, move);
    if ok {
      PartlyMeans(source, dest, labels, move, source', dest');
    } else {
      RisesToItself(source);
    }
    RisenIsGood(registry, source, source');
    RisenIsGood(registry, dest, dest');
  }

  lemma EmptyIsGood<L>(registry: Registry<L>)
    ensures Good(registry, map[])
  {
  }

  lemma BothReplaced<L>(w: Everywhere<L>, registry: Registry<L>, s: nat, d: nat, source: Rows<L>, dest: Rows<L>)
    requires Valid(w, registry) && s in w.stores && d in w.stores && s != d
    requires Good(registry, source) && Good(registry, dest) && Rises(w.stores[s], source) && Rises(w.stores[d], dest)
    ensures
      var w' := w.(stores := w.stores[s := source][d := dest]);
      Valid(w', registry) && Later(w, registry, w', registry)
  {
    var mid := w.(stores := w.stores[s := source]);
    StoreReplaced(w, registry, s, source);
    StoreReplaced(mid, registry, d, dest);
    LaterOn(w, registry, mid, registry, w.(stores := w.stores[s := source][d := dest]), registry);
    hide *;
  }

  /** The rows of the one store are retired and the other has caught up; with an unknown label the source keeps its rows. */
  ghost predicate FinishedAt<L>(w: Everywhere<L>, s: nat, d: nat, labels: seq<L>, move: bool, w': Everywhere<L>) {
    && w'.packages == w.packages && w'.unused == w.unused && w'.stores.Keys == w.stores.Keys
    && (forall k :: k in w.stores && k != s && k != d ==> w'.stores[k] == w.stores[k])
    && (s !in w.stores || d !in w.stores || s == d ==> w' == w)
    && (s in w.stores && d in w.stores && s != d ==>
          if forall i :: 0 <= i < |labels| ==> Known(w.stores[s], labels[i])
          then PartlyRetired(w.stores[s], w.stores[d], labels, move, w'.stores[s], w'.stores[d])
          else w'.stores[s] == w.stores[s])
  }

  method DoFinish<L(==)>(w: Everywhere<L>, ghost registry: Registry<L>, s: nat, d: nat, labels: seq<L>, move: bool) returns (w': Everywhere<L>)
    requires Valid(w, registry)
    ensures Valid(w', registry) && Later(w, registry, w', registry) && FinishedAt(w, s, d, labels, move, w')
  {
    hide Valid, Later, Good, Rises, Known, PartlyRetired;
    w' := w;
    LaterSame(w, registry);
    if s in w.stores && d in w.stores && s != d {
      StoreIsGood(w, registry, s);
      StoreIsGood(w, registry, d);
      var source, dest := RetirePair(registry, w.stores[s], w.stores[d], labels, move);
      BothReplaced(w, registry, s, d, source, dest);
      w' := w.(stores := w.stores[s := source][d := dest]);
    }
  }

  ghost predicate FinishedAlone<L>(w: Everywhere<L>, s: nat, labels: seq<L>, move: bool, w': Everywhere<L>) {
    if s in w.stores && forall i :: 0 <= i < |labels| ==> Known(w.stores[s], labels[i])
    then OnlyStore(w, s, w') && w'.unused == w.unused && PartlyRetired(w.stores[s], map[], labels, move, w'.stores[s], map[])
    else w' == w
  }

  /**
   Finish on the source alone, with the destination out of reach: its rows are
   retired as they are with both at hand, in one transaction, and nobody raises
   the other side.
   */
  method DoFinishAlone<L(==)>(w: Everywhere<L>, ghost registry: Registry<L>, s: nat, labels: seq<L>, move: bool) returns (w': Everywhere<L>)
    requires Valid(w, registry)
    ensures Valid(w', registry) && Later(w, registry, w', registry) && FinishedAlone(w, s, labels, move, w')
  {
    hide Valid, Later, Good, Rises, Known, PartlyRetired;
    w' := w;
    LaterSame(w, registry);
    if s in w.stores {
      StoreIsGood(w, registry, s);
      EmptyIsGood(registry);
      var source, rest := RetirePair(registry, w.stores[s], map[], labels, move);
      assert rest == map[];
      StoreReplaced(w, registry, s, source);
      assert source == w.stores[s] ==> w.stores[s := source] == w.stores;
      w' := w.(stores := w.stores[s := source]);
    }
  }

  /** An id means one label and one key pair in every store and every package. */
  lemma OneMeaning<L>(w: Everywhere<L>, registry: Registry<L>, d: nat, e: nat, id: nat, i: nat, j: nat)
    requires Valid(w, registry)
    ensures d in w.stores && e in w.stores && id in w.stores[d] && id in w.stores[e] ==>
      w.stores[d][id].person == w.stores[e][id].person
    ensures d in w.stores && id in w.stores[d] && i < |w.packages| && j < |w.packages[i]| && w.packages[i][j].id == id ==>
      w.packages[i][j].person == w.stores[d][id].person
    ensures d in w.stores ==> LabelsUnique(w.stores[d])
  {
  }

  /** What one action does. */
  ghost predicate Acted<L>(w: Everywhere<L>, a: Action<L>, w': Everywhere<L>) {
    match a
    case EnrollAt(d, person) => Enrolled(w, d, person, w')
    case PackAt(d, labels, hints) => PackedAt(w, d, labels, hints, w')
    case TakeAt(d, package) => TakenAt(w, d, package, w')
    case FinishAt(s, d, labels, move) => FinishedAt(w, s, d, labels, move, w')
    case FinishAloneAt(s, labels, move) => FinishedAlone(w, s, labels, move, w')
  }

  /** All stores together, as they are used. */
  class Fleet<L(==)> {
    var w: Everywhere<L>
    ghost var registry: Registry<L>

    ghost predicate Sane()
      reads this
    {
      Valid(w, registry)
    }

    constructor (devices: set<nat>)
      ensures Sane() && w.stores.Keys == devices && w.packages == []
    {
      w := Everywhere(map d | d in devices :: map[], [], 0);
      registry := map[];
    }

    /** Any run of enrolments, packages, takings and finishings, in any order. */
    method Run(actions: seq<Action<L>>) returns (ghost trace: seq<Everywhere<L>>)
      requires Sane()
      modifies this
      ensures Sane() && Later(old(w), old(registry), w, registry)
      ensures |trace| == |actions| + 1 && trace[0] == old(w) && trace[|actions|] == w
      ensures forall i :: 0 <= i < |actions| ==> Acted(trace[i], actions[i], trace[i + 1])
    {
      hide Valid, Later, Enrolled, PackedAt, TakenAt, FinishedAt, FinishedAlone;
      LaterSame(w, registry);
      trace := [w];
      for i := 0 to |actions|
        invariant Sane() && Later(old(w), old(registry), w, registry)
        invariant |trace| == i + 1 && trace[0] == old(w) && trace[i] == w
        invariant forall k :: 0 <= k < i ==> Acted(trace[k], actions[k], trace[k + 1])
      {
        ghost var w0, r0 := w, registry;
        match actions[i] {
          case EnrollAt(d, person) =>
            ghost var more;
            w, more := DoEnroll(w, registry, d, person);
            registry := more;
          case PackAt(d, labels, hints) =>
            w := DoPack(w, registry, d, labels, hints);
          case TakeAt(d, package) =>
            w := DoTake(w, registry, d, package);
          case FinishAt(s, d, labels, move) =>
            w := DoFinish(w, registry, s, d, labels, move);
          case FinishAloneAt(s, labels, move) =>
            w := DoFinishAlone(w, registry, s, labels, move);
        }
        LaterOn(old(w), old(registry), w0, r0, w, registry);
        trace := trace + [w];
      }
    }
  }
}
