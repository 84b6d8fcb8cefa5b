/** Waiting for an event under a recycled slot number. */
module Notifications {

  const MAX_SERIAL_NUM: nat := 1024

  datatype Slot = Slot(used: bool, notified: bool, freezed: bool)

  const INIT_VAL_NTF := Slot(false, false, false)

  datatype Table = Table(slots: seq<Slot>, num: int, size: int)

  const EMPTY_TABLE := Table(seq(MAX_SERIAL_NUM, i => INIT_VAL_NTF), 0, 0)

  ghost predicate WellFormed(t: Table) {
    0 <= t.num < |t.slots| && t.size <= |t.slots|
  }

  // ----- what each critical section does to the table -----

  /**
   * Doubled when as many slots are given out as there are. The comparison is one of unsigned numbers, in which a
   * negative count would be a huge one and double the slots in every round; the count is never negative, whoever
   * calls (`StrayNotifiers.CountNeverNegative`).
   */
  function Room(t: Table): seq<Slot> {
    if t.size >= |t.slots| then t.slots + seq(|t.slots|, i => INIT_VAL_NTF) else t.slots
  }

  function Next(num: int, n: nat): int {
    if num + 1 == n then 0 else num + 1
  }

  /** The first unused slot after `num`, going round; minus one when `tries` slots were all used. */
  function Search(slots: seq<Slot>, num: int, tries: nat): (id: int)
    requires 0 <= num < |slots|
    ensures id != -1 ==> 0 <= id < |slots| && !slots[id].used
    decreases tries
  {
    if tries == 0 then -1
    else
      var next := Next(num, |slots|);
      if slots[next].used then Search(slots, next, tries - 1) else next
  }

  function Allocated(t: Table): int
    requires WellFormed(t)
  {
    Search(Room(t), t.num, |Room(t)|)
  }

  function AllocateSlot(t: Table): Table
    requires WellFormed(t) && Allocated(t) != -1
  {
    Table(Room(t)[Allocated(t) := Slot(true, false, false)], Allocated(t), t.size + 1)
  }

  function FreezeSlot(t: Table, id: int): Table
    requires 0 <= id < |t.slots|
  {
    t.(slots := t.slots[id := t.slots[id].(notified := false, freezed := true)])
  }

  /** What the waiter does once it sees the notification. */
  function LeaveSlot(t: Table, id: int): Table
    requires 0 <= id < |t.slots|
  {
    t.(slots := t.slots[id := t.slots[id].(used := false, freezed := false)], size := t.size - 1)
  }

  /** The assertion in `test` assigns instead of comparing. */
  function MarkSlot(t: Table, id: int): Table
    requires 0 <= id < |t.slots|
  {
    t.(slots := t.slots[id := t.slots[id].(used := true)])
  }

  function NotifySlot(t: Table, id: int): Table
    requires 0 <= id < |t.slots|
  {
    t.(slots := t.slots[id := t.slots[id].(used := false, notified := true)])
  }

  function UsedSlots(slots: seq<Slot>): set<int> {
    set i | 0 <= i < |slots| && slots[i].used
  }

  /** Steps on from `num` to `j`, going round at least once. */
  function Distance(num: int, j: int, n: nat): int {
    if j > num then j - num else j - num + n
  }

  lemma {:induction false} SearchFinds(slots: seq<Slot>, num: int, tries: nat, j: int)
    requires 0 <= num < |slots| && 0 <= j < |slots| && !slots[j].used
    requires Distance(num, j, |slots|) <= tries
    ensures Search(slots, num, tries) != -1
    decreases tries
  {
    var next := Next(num, |slots|);
    if slots[next].used {
      SearchFinds(slots, next, tries - 1, j);
    }
  }

  /** The slot found is the first unused one: every slot on the way to it is in use. */
  lemma {:induction false} SearchFirst(slots: seq<Slot>, num: int, tries: nat, j: int)
    requires 0 <= num < |slots| && Search(slots, num, tries) != -1 && 0 <= j < |slots|
    requires Distance(num, j, |slots|) < Distance(num, Search(slots, num, tries), |slots|)
    ensures slots[j].used
    decreases tries
  {
    var next := Next(num, |slots|);
    if slots[next].used && j != next { SearchFirst(slots, next, tries - 1, j); }
  }

  /** Twice the slots if all were counted out. The first unused one after the last is taken, and no other changes. */
  ghost predicate AllocateEffect(t: Table, t': Table, id: int) {
    && |t'.slots| == (if t.size >= |t.slots| then 2 * |t.slots| else |t.slots|)
    && 0 <= id < |t'.slots| && t'.num == id && t'.size == t.size + 1
    && t'.slots[id] == Slot(true, false, false) && (id < |t.slots| ==> !t.slots[id].used)
    && (forall i :: 0 <= i < |t.slots| && i != id ==> t'.slots[i] == t.slots[i])
    && (forall i :: |t.slots| <= i < |t'.slots| && i != id ==> t'.slots[i] == Slot(false, false, false))
    && (forall i :: 0 <= i < |t'.slots| && Distance(t.num, i, |t'.slots|) < Distance(t.num, id, |t'.slots|) ==>
          t'.slots[i].used)
  }

  lemma AllocateDoes(t: Table)
    requires WellFormed(t) && Allocated(t) != -1
    ensures AllocateEffect(t, AllocateSlot(t), Allocated(t))
  {
    hide Search, Distance;
    var slots, id := Room(t), Allocated(t);
    forall i | 0 <= i < |slots| && Distance(t.num, i, |slots|) < Distance(t.num, id, |slots|)
      ensures slots[i].used
    {
      SearchFirst(slots, t.num, |slots|, i);
    }
  }

  lemma {:induction false} AllUsed(slots: seq<Slot>)
    requires forall i :: 0 <= i < |slots| ==> slots[i].used
    ensures |UsedSlots(slots)| == |slots|
  {
    if slots != [] {
      var last := |slots| - 1;
      AllUsed(slots[..last]);
      assert UsedSlots(slots) == UsedSlots(slots[..last]) + {last};
    }
  }

  /** Fewer used slots than slots: one is free. */
  lemma SomeUnused(slots: seq<Slot>) returns (j: int)
    requires |UsedSlots(slots)| < |slots|
    ensures 0 <= j < |slots| && !slots[j].used
  {
    if forall i :: 0 <= i < |slots| ==> slots[i].used {
      AllUsed(slots);
      assert false;
    }
    j :| 0 <= j < |slots| && !slots[j].used;
  }

  /** The cyclic search ends with an unused slot whenever no more slots are in use than were counted out. */
  lemma AllocateSucceeds(t: Table)
    requires WellFormed(t) && |UsedSlots(t.slots)| <= t.size
    ensures Allocated(t) != -1
  {
    hide Search;
    var slots := Room(t);
    RoomUsed(t);
    var j := SomeUnused(slots);
    SearchFinds(slots, t.num, |slots|, j);
  }

  // ----- the class -----

  class EventNotify {
    var serialTest: seq<Slot>
    var serialNum: int
    var serialSize: int

    function State(): Table
      reads this
    {
      Table(serialTest, serialNum, serialSize)
    }

    constructor ()
      ensures State() == EMPTY_TABLE
    {
      serialTest, serialNum, serialSize := seq(MAX_SERIAL_NUM, i => INIT_VAL_NTF), 0, 0;
    }

    method Allocate() returns (num: int)
      requires WellFormed(State()) && |UsedSlots(serialTest)| <= serialSize
      modifies this
      ensures old(Allocated(State())) != -1
      ensures num == old(Allocated(State())) && State() == old(AllocateSlot(State()))
      ensures AllocateEffect(old(State()), State(), num)
    {
      hide UsedSlots, Search, AllocateEffect;
      AllocateSucceeds(State());
      AllocateDoes(State());
      ghost var id, tries := Allocated(State()), |Room(State())|;
      if serialSize >= |serialTest| {
        serialTest := serialTest + seq(|serialTest|, i => INIT_VAL_NTF);
      }
      NextIs(serialNum, |serialTest|);
      SearchStep(serialTest, serialNum, tries);
      serialNum := (serialNum + 1) % |serialTest|;
      tries := tries - 1;
      while serialTest[serialNum].used
        invariant serialTest == old(Room(State())) && serialSize == old(serialSize) < |serialTest|
        invariant 0 <= serialNum < |serialTest| && tries >= 0
        invariant id == if serialTest[serialNum].used then Search(serialTest, serialNum, tries) else serialNum
        decreases tries
      {
        NextIs(serialNum, |serialTest|);
        SearchStep(serialTest, serialNum, tries);
        serialNum := (serialNum + 1) % |serialTest|;
        tries := tries - 1;
      }
      num := serialNum;
      serialTest := serialTest[serialNum := Slot(true, false, false)];
      serialSize := serialSize + 1;
    }

    /** The first critical section of `freeze`, up to the wait. */
    method BeginFreeze(id: int)
      requires 0 <= id < |serialTest|
      modifies this
      ensures |serialTest| == old(|serialTest|)
      ensures serialTest[id].freezed && !serialTest[id].notified && serialTest[id].used == old(serialTest[id].used)
      ensures serialNum == old(serialNum)
      ensures forall i :: 0 <= i < |serialTest| && i != id ==> serialTest[i] == old(serialTest[i])
      ensures serialSize == old(serialSize)
      ensures State() == old(FreezeSlot(State(), id))
    {
      serialTest := serialTest[id := serialTest[id].(notified := false)];
      serialTest := serialTest[id := serialTest[id].(freezed := true)];
    }

    /** What `freeze` does after the wait. */
    method EndFreeze(id: int)
      requires 0 <= id < |serialTest| && serialTest[id].notified
      modifies this
      ensures |serialTest| == old(|serialTest|)
      ensures !serialTest[id].used && !serialTest[id].freezed && serialTest[id].notified
      ensures serialNum == old(serialNum)
      ensures forall i :: 0 <= i < |serialTest| && i != id ==> serialTest[i] == old(serialTest[i])
      ensures serialSize == old(serialSize) - 1
      ensures State() == old(LeaveSlot(State(), id))
    {
      serialTest := serialTest[id := serialTest[id].(freezed := false)];
      serialTest := serialTest[id := serialTest[id].(used := false)];
      serialSize := serialSize - 1;
    }

    /** What `test` does after its loop saw the slot frozen. */
    method EndTest(id: int)
      requires 0 <= id < |serialTest|
      modifies this
      ensures |serialTest| == old(|serialTest|)
      ensures serialTest[id] == old(serialTest[id]).(used := true)
      ensures serialNum == old(serialNum)
      ensures forall i :: 0 <= i < |serialTest| && i != id ==> serialTest[i] == old(serialTest[i])
      ensures serialSize == old(serialSize)
      ensures State() == old(MarkSlot(State(), id))
    {
      serialTest := serialTest[id := serialTest[id].(used := true)];
    }

    /** The critical section of `notify`. */
    method Notify(id: int)
      requires 0 <= id < |serialTest|
      modifies this
      ensures |serialTest| == old(|serialTest|)
      ensures serialTest[id].notified && !serialTest[id].used && serialTest[id].freezed == old(serialTest[id].freezed)
      ensures serialNum == old(serialNum)
      ensures forall i :: 0 <= i < |serialTest| && i != id ==> serialTest[i] == old(serialTest[i])
      ensures serialSize == old(serialSize)
      ensures State() == old(NotifySlot(State(), id))
    {
      serialTest := serialTest[id := serialTest[id].(used := false)];
      serialTest := serialTest[id := serialTest[id].(notified := true)];
    }
  }

  /** One more slot looked at. */
  lemma SearchStep(slots: seq<Slot>, num: int, tries: nat)
    requires 0 <= num < |slots|
    ensures 0 <= Next(num, |slots|) < |slots|
    ensures tries == 0 ==> Search(slots, num, tries) == -1
    ensures var next := Next(num, |slots|);
            tries > 0 ==> Search(slots, num, tries) == if slots[next].used then Search(slots, next, tries - 1) else next
  {
  }

  lemma NextIs(num: int, n: nat)
    requires 0 <= num < n
    ensures (num + 1) % n == Next(num, n)
  {
  }

  // ----- any sequence of critical sections, with no assumption on the callers -----

  datatype Section = Allocating | Freezing(id: int) | Leaving(id: int) | Marking(id: int) | Notifying(id: int)

  ghost predicate Enabled(t: Table, s: Section) {
    && WellFormed(t)
    && match s
       case Allocating => Allocated(t) != -1
       case Leaving(id) => 0 <= id < |t.slots| && t.slots[id].notified
       case Freezing(id) => 0 <= id < |t.slots|
       case Marking(id) => 0 <= id < |t.slots|
       case Notifying(id) => 0 <= id < |t.slots|
  }

  function Perform(t: Table, s: Section): Table
    requires Enabled(t, s)
  {
    match s
    case Allocating => AllocateSlot(t)
    case Freezing(id) => FreezeSlot(t, id)
    case Leaving(id) => LeaveSlot(t, id)
    case Marking(id) => MarkSlot(t, id)
    case Notifying(id) => NotifySlot(t, id)
  }

  ghost predicate Possible(t: Table, q: seq<Section>)
    decreases |q|
  {
    q == [] || (Enabled(t, q[0]) && Possible(Perform(t, q[0]), q[1..]))
  }

  function PerformAll(t: Table, q: seq<Section>): Table
    requires Possible(t, q)
    decreases |q|
  {
    if q == [] then t else PerformAll(Perform(t, q[0]), q[1..])
  }

  ghost predicate Taken(t: Table, id: int) {
    0 <= id < |t.slots| && t.slots[id].used && !t.slots[id].notified
  }

  ghost predicate Pending(t: Table, id: int) {
    0 <= id < |t.slots| && !t.slots[id].notified
  }

  lemma OnlyNotifyFrees(t: Table, s: Section, id: int)
    requires Enabled(t, s) && s != Notifying(id)
    ensures Pending(t, id) ==> Pending(Perform(t, s), id)
    ensures Taken(t, id) ==> Taken(Perform(t, s), id)
  {
  }

  lemma {:induction false} NothingFreedWithoutNotify(t: Table, q: seq<Section>, id: int)
    requires Possible(t, q) && Notifying(id) !in q
    ensures Pending(t, id) ==> Pending(PerformAll(t, q), id)
    ensures Taken(t, id) ==> Taken(PerformAll(t, q), id)
    decreases |q|
  {
    hide Perform, Pending, Taken, Enabled;
    if q != [] {
      OnlyNotifyFrees(t, q[0], id);
      NothingFreedWithoutNotify(Perform(t, q[0]), q[1..], id);
    }
  }

  /** From the moment an id is handed out until the next notification on it, it is not handed out again. */
  lemma IdIsExclusive(t: Table, q: seq<Section>)
    requires WellFormed(t) && Allocated(t) != -1
    requires Possible(AllocateSlot(t), q) && Enabled(PerformAll(AllocateSlot(t), q), Allocating)
    ensures Allocated(PerformAll(AllocateSlot(t), q)) == Allocated(t) ==> Notifying(Allocated(t)) in q
  {
    if Notifying(Allocated(t)) !in q {
      NothingFreedWithoutNotify(AllocateSlot(t), q, Allocated(t));
      StaysUsed(PerformAll(AllocateSlot(t), q), Allocated(t));
    }
  }

  /** A used slot is not handed out. */
  lemma StaysUsed(t: Table, id: int)
    requires WellFormed(t) && Taken(t, id)
    ensures Allocated(t) != id
  {
    assert Room(t)[id] == t.slots[id];
  }

  /** A freeze returns only after a notification on its id that came after the freeze began. */
  lemma FreezeNeedsNotify(t: Table, q: seq<Section>, id: int)
    requires Enabled(t, Freezing(id)) && Possible(FreezeSlot(t, id), q)
    requires Enabled(PerformAll(FreezeSlot(t, id), q), Leaving(id))
    ensures Notifying(id) in q
  {
    if Notifying(id) !in q {
      NothingFreedWithoutNotify(FreezeSlot(t, id), q, id);
    }
  }

  // ----- used slots and the count -----

  ghost predicate Bounded(t: Table) {
    |UsedSlots(t.slots)| <= t.size
  }

  /**
   * What keeps the used slots within the count: a slot is marked, or left, while it is in use or while there are
   * fewer used slots than counted.
   */
  ghost predicate Careful(t: Table, s: Section)
    requires Enabled(t, s)
  {
    s.Marking? || s.Leaving? ==> t.slots[s.id].used || |UsedSlots(t.slots)| < t.size
  }

  lemma UsedUpdate(slots: seq<Slot>, id: int, s: Slot)
    requires 0 <= id < |slots|
    ensures UsedSlots(slots[id := s]) == if s.used then UsedSlots(slots) + {id} else UsedSlots(slots) - {id}
    ensures |UsedSlots(slots[id := s])|
            == |UsedSlots(slots)| - (if slots[id].used then 1 else 0) + (if s.used then 1 else 0)
  {
    var u, u' := UsedSlots(slots), UsedSlots(slots[id := s]);
    assert u' == if s.used then u + {id} else u - {id};
    assert id in u <==> slots[id].used;
  }

  /** Every critical section keeps the used slots within the count exactly when it is a careful one. */
  lemma BoundStepIff(t: Table, s: Section)
    requires Enabled(t, s) && Bounded(t)
    ensures Bounded(Perform(t, s)) <==> Careful(t, s)
  {
    hide Search, UsedSlots;
    match s
    case Allocating =>
      RoomUsed(t);
      UsedUpdate(Room(t), Allocated(t), Slot(true, false, false));
    case Freezing(id) => UsedUpdate(t.slots, id, FreezeSlot(t, id).slots[id]);
    case Leaving(id) => UsedUpdate(t.slots, id, LeaveSlot(t, id).slots[id]);
    case Marking(id) => UsedUpdate(t.slots, id, MarkSlot(t, id).slots[id]);
    case Notifying(id) => UsedUpdate(t.slots, id, NotifySlot(t, id).slots[id]);
  }

  lemma RoomUsed(t: Table)
    ensures UsedSlots(Room(t)) == UsedSlots(t.slots)
  {
  }
}
