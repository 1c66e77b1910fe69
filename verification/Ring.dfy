/** A bounded ring of slots: the pointer arithmetic shared by every outbox and inbox. */
module Ring {
  import opened Results

  /** `size` slots from `read` up to `write`; `held` has the ones not yet released. */
  datatype Ring<T> = Ring(capacity: nat, read: nat, write: nat, size: nat, held: map<nat, T>)

  /** The slot `k` places after the head. */
  function SlotAt(capacity: nat, read: nat, k: nat): (i: nat)
    requires capacity >= 1
    ensures i < capacity
  {
    (read + k) % capacity
  }

  lemma WrapOnce(capacity: nat, x: nat)
    requires 1 <= capacity && x < 2 * capacity
    ensures x % capacity == if x < capacity then x else x - capacity
  {
    if x >= capacity {
      assert x == (x - capacity) + capacity * 1;
    }
  }

  lemma SlotValue(capacity: nat, read: nat, k: nat)
    requires read < capacity && k <= capacity
    ensures SlotAt(capacity, read, k) == if read + k < capacity then read + k else read + k - capacity
  {
    WrapOnce(capacity, read + k);
  }

  lemma SlotsDiffer(capacity: nat, read: nat, j: nat, k: nat)
    requires read < capacity && j < k < capacity
    ensures SlotAt(capacity, read, j) != SlotAt(capacity, read, k)
  {
    SlotValue(capacity, read, j);
    SlotValue(capacity, read, k);
  }

  /** Moving the head on by one renumbers the places behind it. */
  lemma SlotAfterHead(capacity: nat, read: nat, k: nat)
    requires read < capacity && k < capacity
    ensures SlotAt(capacity, SlotAt(capacity, read, 1), k) == SlotAt(capacity, read, k + 1)
  {
    SlotValue(capacity, read, 1);
    SlotValue(capacity, read, k + 1);
    SlotValue(capacity, SlotAt(capacity, read, 1), k);
  }

  predicate InSpan<T>(r: Ring<T>, i: nat)
    requires r.capacity >= 1
  {
    exists k :: 0 <= k < r.size && SlotAt(r.capacity, r.read, k) == i
  }

  /** Pointers consistent, every held slot inside the span. */
  ghost predicate Loose<T>(r: Ring<T>) {
    && r.capacity >= 1 && r.read < r.capacity && r.size <= r.capacity
    && r.write == SlotAt(r.capacity, r.read, r.size)
    && forall i :: i in r.held ==> InSpan(r, i)
  }

  /** The invariant: moreover a non-empty span starts with a held slot. */
  ghost predicate Consistent<T>(r: Ring<T>) {
    Loose(r) && (r.size > 0 ==> r.read in r.held)
  }

  /** The span's contents from the head, released slots as `None`. */
  ghost function Span<T>(r: Ring<T>): (s: seq<Option<T>>)
    requires r.capacity >= 1
    ensures |s| == r.size
    ensures forall k :: 0 <= k < r.size ==> s[k] == Held(r, SlotAt(r.capacity, r.read, k))
  {
    seq(r.size, k requires 0 <= k => Held(r, SlotAt(r.capacity, r.read, k)))
  }

  function Held<T>(r: Ring<T>, i: nat): Option<T> {
    if i in r.held then Some(r.held[i]) else None
  }

  function Empty<T>(capacity: nat): Ring<T> {
    Ring(capacity, 0, 0, 0, map[])
  }

  // ---- taking a slot --------------------------------------------------------------

  /** Write at the write pointer and count the slot as taken. */
  function Pushed<T>(r: Ring<T>, x: T): Ring<T>
    requires r.capacity >= 1
  {
    r.(held := r.held[r.write := x], write := (r.write + 1) % r.capacity, size := r.size + 1)
  }

  lemma PushedOk<T>(r: Ring<T>, x: T)
    requires Consistent(r) && r.size < r.capacity
    ensures Consistent(Pushed(r, x)) && Span(Pushed(r, x)) == Span(r) + [Some(x)]
    ensures r.write !in r.held && !InSpan(r, r.write)
  {
    var p := Pushed(r, x);
    forall k | 0 <= k < r.size
      ensures SlotAt(r.capacity, r.read, k) != r.write
    {
      SlotsDiffer(r.capacity, r.read, k, r.size);
    }
    SlotValue(r.capacity, r.read, r.size);
    SlotValue(r.capacity, r.read, r.size + 1);
    WrapOnce(r.capacity, r.write + 1);
    forall i | i in p.held
      ensures InSpan(p, i)
    {
      if i == r.write {
        assert SlotAt(p.capacity, p.read, r.size) == i;
      } else {
        var k :| 0 <= k < r.size && SlotAt(r.capacity, r.read, k) == i;
        assert SlotAt(p.capacity, p.read, k) == i;
      }
    }
    if r.size == 0 {
      SlotValue(r.capacity, r.read, 0);
    }
  }

  // ---- releasing a slot -----------------------------------------------------------

  function HeadMoved<T>(r: Ring<T>): Ring<T>
    requires r.capacity >= 1 && r.size > 0
  {
    r.(read := (r.read + 1) % r.capacity, size := r.size - 1)
  }

  /** Move the head past released slots. */
  function SkipFree<T>(r: Ring<T>): (s: Ring<T>)
    requires r.capacity >= 1
    ensures s.held == r.held && s.capacity == r.capacity && s.write == r.write
    decreases r.size
  {
    if r.size > 0 && r.read !in r.held
    then SkipFree(HeadMoved(r))
    else r
  }

  function Released<T>(r: Ring<T>, i: nat): (s: Ring<T>)
    requires r.capacity >= 1
    ensures s.capacity == r.capacity && s.write == r.write && s.held == r.held - {i}
  {
    SkipFree(r.(held := r.held - {i}))
  }

  /** Drop leading released slots. */
  function Strip<T>(s: seq<Option<T>>): seq<Option<T>> {
    if s != [] && s[0].None? then Strip(s[1..]) else s
  }

  /** One step of the skip keeps everything but the released head. */
  lemma SkipOne<T>(r: Ring<T>)
    requires Loose(r) && r.size > 0 && r.read !in r.held
    ensures Loose(HeadMoved(r)) && Span(HeadMoved(r)) == Span(r)[1..] && Span(r)[0].None?
  {
    var s := HeadMoved(r);
    SlotValue(r.capacity, r.read, 0);
    assert s.read == SlotAt(r.capacity, r.read, 1);
    forall k | 0 <= k < s.size
      ensures SlotAt(s.capacity, s.read, k) == SlotAt(r.capacity, r.read, k + 1)
    {
      SlotAfterHead(r.capacity, r.read, k);
    }
    SlotAfterHead(r.capacity, r.read, r.size - 1);
    forall i | i in s.held
      ensures InSpan(s, i)
    {
      var k :| 0 <= k < r.size && SlotAt(r.capacity, r.read, k) == i;
      assert k > 0;
      assert SlotAt(s.capacity, s.read, k - 1) == i;
    }
    assert Span(s) == Span(r)[1..];
  }

  lemma {:induction false} SkipFreeOk<T>(r: Ring<T>)
    requires Loose(r)
    ensures Consistent(SkipFree(r)) && Span(SkipFree(r)) == Strip(Span(r))
    decreases r.size
  {
    if r.size > 0 && r.read !in r.held {
      SkipOne(r);
      SkipFreeOk(HeadMoved(r));
    } else if r.size > 0 {
      HeadHeld(r);
    }
  }

  lemma HeadHeld<T>(r: Ring<T>)
    requires Loose(r) && r.size > 0
    ensures Span(r)[0] == Held(r, r.read)
  {
    SlotValue(r.capacity, r.read, 0);
  }

  /**
   Releasing any slot keeps the ring consistent, loses no other held slot, and
   moves the head past exactly the leading released slots.
   */
  lemma ReleasedOk<T>(r: Ring<T>, k: nat)
    requires Consistent(r) && k < r.size
    ensures Consistent(Released(r, SlotAt(r.capacity, r.read, k)))
    ensures Released(r, SlotAt(r.capacity, r.read, k)).held == r.held - {SlotAt(r.capacity, r.read, k)}
    ensures Span(Released(r, SlotAt(r.capacity, r.read, k))) == Strip(Span(r)[k := None])
  {
    var i := SlotAt(r.capacity, r.read, k);
    var freed := r.(held := r.held - {i});
    forall j | j in freed.held
      ensures InSpan(freed, j)
    {
      var m :| 0 <= m < r.size && SlotAt(r.capacity, r.read, m) == j;
      assert SlotAt(freed.capacity, freed.read, m) == j;
    }
    assert Span(freed) == Span(r)[k := None] by {
      forall m | 0 <= m < r.size && m != k
        ensures SlotAt(r.capacity, r.read, m) != i
      {
        if m < k { SlotsDiffer(r.capacity, r.read, m, k); } else { SlotsDiffer(r.capacity, r.read, k, m); }
      }
    }
    SkipFreeOk(freed);
  }

  lemma ReleaseOfFreeSlot<T>(r: Ring<T>, i: nat)
    requires Consistent(r) && i !in r.held
    ensures Released(r, i) == r
  {
    assert r.held - {i} == r.held;
  }

  lemma HeadSlot<T>(r: Ring<T>)
    requires r.read < r.capacity
    ensures SlotAt(r.capacity, r.read, 0) == r.read
  {
    SlotValue(r.capacity, r.read, 0);
  }

  lemma SlotInMoved<T>(r: Ring<T>, k: nat)
    requires r.read < r.capacity && 1 <= k < r.size <= r.capacity
    ensures SlotAt(r.capacity, HeadMoved(r).read, k - 1) == SlotAt(r.capacity, r.read, k)
  {
    SlotAfterHead(r.capacity, r.read, k - 1);
  }

  /** The head stops before a held place, so places from there on move up together. */
  lemma {:induction false} SkipStops<T>(r: Ring<T>, j: nat, k: nat) returns (d: nat)
    requires Loose(r) && j <= k < r.size && SlotAt(r.capacity, r.read, j) in r.held
    ensures d <= j && k - d < SkipFree(r).size
    ensures SlotAt(r.capacity, SkipFree(r).read, j - d) == SlotAt(r.capacity, r.read, j)
    ensures SlotAt(r.capacity, SkipFree(r).read, k - d) == SlotAt(r.capacity, r.read, k)
    decreases r.size
  {
    hide SlotAt, InSpan;
    HeadSlot(r);
    if r.read in r.held {
      d := 0;
    } else {
      SkipOne(r);
      SlotInMoved(r, j);
      SlotInMoved(r, k);
      var e := SkipStops(HeadMoved(r), j - 1, k - 1);
      d := e + 1;
    }
  }

  // ---- any order of pushes and releases ----------------------------------------------

  datatype Op<T> = Push(x: T) | Release(i: nat) | Resize(capacity: nat)

  /** A full ring takes nothing, and only an empty one is resized. */
  function Step<T>(r: Ring<T>, op: Op<T>): Ring<T>
    requires r.capacity >= 1
  {
    match op
    case Push(x) => if r.size >= r.capacity then r else Pushed(r, x)
    case Release(i) => Released(r, i)
    case Resize(c) => if r.size == 0 && c >= 1 then Ring(c, 0, 0, 0, r.held) else r
  }

  lemma StepOk<T>(r: Ring<T>, op: Op<T>)
    requires Consistent(r)
    ensures Consistent(Step(r, op))
  {
    match op
    case Push(x) => if r.size < r.capacity { PushedOk(r, x); }
    case Release(i) =>
      if i in r.held {
        var k :| 0 <= k < r.size && SlotAt(r.capacity, r.read, k) == i;
        ReleasedOk(r, k);
      } else {
        ReleaseOfFreeSlot(r, i);
      }
    case Resize(c) =>
      if r.size == 0 && c >= 1 {
        assert forall i :: i !in r.held;
        WrapOnce(c, 0);
      }
  }

  function After<T>(r: Ring<T>, ops: seq<Op<T>>): (s: Ring<T>)
    requires r.capacity >= 1
    ensures s.capacity >= 1
  {
    if ops == [] then r else Step(After(r, ops[..|ops| - 1]), ops[|ops| - 1])
  }

  // ---- no slot is used again before the earlier ones are free ---------------------------

  /** Slot `a` is held, and slot `b` lies behind it in the span. */
  ghost predicate Guards<T>(r: Ring<T>, a: nat, b: nat)
    requires r.capacity >= 1
  {
    a in r.held && exists j, k :: 0 <= j < k < r.size && SlotAt(r.capacity, r.read, j) == a && SlotAt(r.capacity, r.read, k) == b
  }

  lemma PushGuards<T>(r: Ring<T>, x: T, a: nat, b: nat)
    requires Consistent(r) && Guards(r, a, b) && r.size < r.capacity
    ensures Guards(Pushed(r, x), a, b) && r.write != b
  {
    PushedOk(r, x);
    hide SlotAt;
    var j, k :| 0 <= j < k < r.size && SlotAt(r.capacity, r.read, j) == a && SlotAt(r.capacity, r.read, k) == b;
    assert InSpan(r, b);
    var p := Pushed(r, x);
    assert SlotAt(p.capacity, p.read, j) == a && SlotAt(p.capacity, p.read, k) == b;
  }

  lemma ReleaseGuards<T>(r: Ring<T>, i: nat, a: nat, b: nat)
    requires Consistent(r) && Guards(r, a, b) && i != a
    ensures Guards(Released(r, i), a, b)
  {
    hide SlotAt;
    var freed := r.(held := r.held - {i});
    assert Loose(freed) by {
      forall h | h in freed.held
        ensures InSpan(freed, h)
      {
        assert InSpan(r, h);
      }
    }
    var j, k :| 0 <= j < k < r.size && SlotAt(r.capacity, r.read, j) == a && SlotAt(r.capacity, r.read, k) == b;
    var d := SkipStops(freed, j, k);
    var s := Released(r, i);
    assert SlotAt(s.capacity, s.read, j - d) == a && SlotAt(s.capacity, s.read, k - d) == b;
  }

  /** Every operation but the release of the earlier slot itself leaves the later one guarded. */
  lemma StepGuards<T>(r: Ring<T>, op: Op<T>, a: nat, b: nat)
    requires Consistent(r) && Guards(r, a, b) && op != Release(a)
    ensures Guards(Step(r, op), a, b)
    ensures op.Push? && r.size < r.capacity ==> r.write != b
  {
    match op
    case Push(x) => if r.size < r.capacity { PushGuards(r, x, a, b); }
    case Release(i) => ReleaseGuards(r, i, a, b);
    case Resize(_) =>
  }

  /**
   Over every run in which an earlier slot is not released, that slot stays
   held and ahead, a later slot stays in the span, released or not, and no push
   of the run writes it.
   */
  lemma {:induction false} NoReuseBeforeEarlier<T>(r: Ring<T>, ops: seq<Op<T>>, a: nat, b: nat)
    requires Consistent(r) && Guards(r, a, b) && Release(a) !in ops
    ensures Consistent(After(r, ops)) && Guards(After(r, ops), a, b)
    ensures forall i :: 0 <= i < |ops| && ops[i].Push? && After(r, ops[..i]).size < After(r, ops[..i]).capacity ==>
      After(r, ops[..i]).write != b
    decreases |ops|
  {
    if ops != [] {
      var n := |ops| - 1;
      var before := ops[..n];
      NoReuseBeforeEarlier(r, before, a, b);
      assert After(r, ops) == Step(After(r, before), ops[n]);
      hide Guards, Consistent, Step, After;
      StepOk(After(r, before), ops[n]);
      StepGuards(After(r, before), ops[n], a, b);
      forall i | 0 <= i < |ops| && ops[i].Push? && After(r, ops[..i]).size < After(r, ops[..i]).capacity
        ensures After(r, ops[..i]).write != b
      {
        if i < n {
          assert before[..i] == ops[..i] && before[i] == ops[i];
        } else {
          assert ops[..i] == before;
        }
      }
    }
  }

  /** Whatever happens to an empty ring, it stays consistent, with its head held whenever it is not empty. */
  lemma {:induction false} ReachableOk<T>(capacity: nat, ops: seq<Op<T>>)
    requires capacity >= 1
    ensures Consistent(After(Empty(capacity), ops))
    decreases |ops|
  {
    if ops == [] {
      WrapOnce(capacity, 0);
    } else {
      ReachableOk(capacity, ops[..|ops| - 1]);
      StepOk(After(Empty(capacity), ops[..|ops| - 1]), ops[|ops| - 1]);
    }
  }

  // ---- the stored ring -----------------------------------------------------------------

  /** A ring kept in a store: one pointer row and one row per held slot. */
  class Table<T> {
    var capacity: nat
    var read: nat
    var write: nat
    var size: nat
    var slots: map<nat, T>

    function View(): Ring<T>
      reads this
    {
      Ring(capacity, read, write, size, slots)
    }

    constructor (capacity: nat)
      requires capacity >= 1
      ensures View() == Empty(capacity) && Consistent(View())
    {
      WrapOnce(capacity, 0);
      this.capacity, read, write, size, slots := capacity, 0, 0, 0, map[];
    }

    /** Take the slot at the write pointer; refused when every slot is taken. */
    method Push(x: T) returns (taken: bool)
      requires Consistent(View())
      modifies this
      ensures Consistent(View()) && taken == (old(size) < old(capacity))
      ensures View() == Step(old(View()), Op.Push(x))
      ensures taken ==> Span(View()) == old(Span(View())) + [Some(x)]
    {
      if size >= capacity {
        return false;
      }
      PushedOk(View(), x);
      slots := slots[write := x];
      write, size := (write + 1) % capacity, size + 1;
      return true;
    }

    /** Delete the slot's row, then move the read pointer past every released slot at the head. */
    method Release(i: nat)
      requires Consistent(View())
      modifies this
      ensures Consistent(View()) && View() == Released(old(View()), i)
    {
      StepOk(View(), Op.Release(i));
      slots := slots - {i};
      ghost var goal := SkipFree(View());
      while size > 0 && read !in slots
        invariant capacity >= 1 && SkipFree(View()) == goal
        decreases size
      {
        read := (read + 1) % capacity;
        size := size - 1;
      }
    }

    /** Only an empty ring changes its number of slots. */
    method Resize(c: nat) returns (done: bool)
      requires Consistent(View()) && c >= 1
      modifies this
      ensures Consistent(View()) && done == (old(size) == 0)
      ensures View() == Step(old(View()), Op.Resize(c))
    {
      StepOk(View(), Op.Resize(c));
      if size != 0 {
        return false;
      }
      capacity, read, write := c, 0, 0;
      return true;
    }
  }
}
