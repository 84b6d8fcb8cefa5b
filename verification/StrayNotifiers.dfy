/**
 * Any number of callers on the same id: beside the one notification of every allocation, others may test the slot
 * and notify it at any time.
 */
module StrayNotifiers {
  import opened Notifications
  import opened NotifyProtocol

  /** A caller beyond the first, on the id it was given. */
  datatype Extra = Extra(id: int, call: Call)

  datatype Crowd = Crowd(world: World, extras: seq<Extra>)

  const ALONE := Crowd(START, [])

  datatype Act = Own(step: Step) | Join(t: nat) | See(e: nat) | MarkToo(e: nat) | NotifyToo(e: nat)

  ghost predicate Can(c: Crowd, a: Act) {
    match a
    case Own(s) => Ready(c.world, s)
    case Join(t) => t < |c.world.tokens|
    case See(e) =>
      && e < |c.extras| && (c.extras[e].call == Idle || c.extras[e].call == Marked)
      && Reaches(c, e) && c.world.table.slots[c.extras[e].id].freezed
    case MarkToo(e) => e < |c.extras| && c.extras[e].call == Passed && Reaches(c, e)
    case NotifyToo(e) => e < |c.extras| && c.extras[e].call == Marked && Reaches(c, e)
  }

  ghost predicate Reaches(c: Crowd, e: nat)
    requires e < |c.extras|
  {
    0 <= c.extras[e].id < |c.world.table.slots|
  }

  function Do(c: Crowd, a: Act): Crowd
    requires Can(c, a)
  {
    match a
    case Own(s) => c.(world := Move(c.world, s))
    case Join(t) => c.(extras := c.extras + [Extra(c.world.tokens[t].id, Idle)])
    case See(e) => c.(extras := c.extras[e := c.extras[e].(call := Passed)])
    case MarkToo(e) =>
      Crowd(c.world.(table := MarkSlot(c.world.table, c.extras[e].id)), c.extras[e := c.extras[e].(call := Marked)])
    case NotifyToo(e) =>
      Crowd(c.world.(table := NotifySlot(c.world.table, c.extras[e].id)), c.extras[e := c.extras[e].(call := Done)])
  }

  // ----- every act is one critical section, or none -----

  datatype Effect = Nothing | One(section: Section)

  function EffectOf(c: Crowd, a: Act): Effect
    requires Can(c, a)
  {
    match a
    case Own(Allocate) => One(Allocating)
    case Own(Freeze(t)) => One(Freezing(c.world.tokens[t].id))
    case Own(Leave(t)) => One(Leaving(c.world.tokens[t].id))
    case Own(SeeFrozen(_)) => Nothing
    case Own(Mark(t)) => One(Marking(c.world.tokens[t].id))
    case Own(Notify(t)) => One(Notifying(c.world.tokens[t].id))
    case Join(_) => Nothing
    case See(_) => Nothing
    case MarkToo(e) => One(Marking(c.extras[e].id))
    case NotifyToo(e) => One(Notifying(c.extras[e].id))
  }

  lemma ActIsSection(c: Crowd, a: Act)
    requires WellFormed(c.world.table) && Can(c, a)
    ensures var f := EffectOf(c, a);
            && (f.Nothing? ==> Do(c, a).world.table == c.world.table)
            && (f.One? ==> Enabled(c.world.table, f.section))
            && (f.One? ==> Do(c, a).world.table == Perform(c.world.table, f.section))
    ensures WellFormed(Do(c, a).world.table)
  {
  }

  ghost predicate CarefulAct(c: Crowd, a: Act)
    requires WellFormed(c.world.table) && Can(c, a)
  {
    ActIsSection(c, a);
    EffectOf(c, a).One? ==> Careful(c.world.table, EffectOf(c, a).section)
  }

  // ----- runs -----

  ghost predicate Happens(c: Crowd, q: seq<Act>)
    decreases |q|
  {
    q == [] || (Can(c, q[0]) && Happens(Do(c, q[0]), q[1..]))
  }

  function Outcome(c: Crowd, q: seq<Act>): Crowd
    requires Happens(c, q)
    decreases |q|
  {
    if q == [] then c else Outcome(Do(c, q[0]), q[1..])
  }

  /** The used slots are within the count in every state on the way. */
  ghost predicate BoundedThroughout(c: Crowd, q: seq<Act>)
    requires Happens(c, q)
    decreases |q|
  {
    Bounded(c.world.table) && (q != [] ==> BoundedThroughout(Do(c, q[0]), q[1..]))
  }

  /** Every marking and every leaving on the way is a careful one. */
  ghost predicate CarefulThroughout(c: Crowd, q: seq<Act>)
    requires Happens(c, q) && WellFormed(c.world.table)
    decreases |q|
  {
    q != [] ==>
      && CarefulAct(c, q[0])
      && (ActIsSection(c, q[0]); CarefulThroughout(Do(c, q[0]), q[1..]))
  }

  lemma BoundActIff(c: Crowd, a: Act)
    requires WellFormed(c.world.table) && Can(c, a) && Bounded(c.world.table)
    ensures Bounded(Do(c, a).world.table) <==> CarefulAct(c, a)
  {
    hide Bounded, Careful, Do, EffectOf, Can, Perform;
    ActIsSection(c, a);
    if EffectOf(c, a).One? { BoundStepIff(c.world.table, EffectOf(c, a).section); }
  }

  /** With any number of callers: the used slots stay within the count exactly as long as everyone is careful. */
  lemma {:induction false} BoundedIffCareful(c: Crowd, q: seq<Act>)
    requires Happens(c, q) && WellFormed(c.world.table) && Bounded(c.world.table)
    ensures BoundedThroughout(c, q) <==> CarefulThroughout(c, q)
    decreases |q|
  {
    hide Bounded, CarefulAct, Do, Can, WellFormed;
    if q != [] {
      var c' := Do(c, q[0]);
      ActIsSection(c, q[0]);
      BoundActIff(c, q[0]);
      if Bounded(c'.world.table) {
        BoundedIffCareful(c', q[1..]);
      } else if q[1..] == [] {
        assert !BoundedThroughout(c', q[1..]);
      }
    }
  }

  lemma AloneFine()
    ensures WellFormed(ALONE.world.table) && Bounded(ALONE.world.table)
  {
    assert UsedSlots(EMPTY_TABLE.slots) == {};
  }

  /** So from the start, and then an allocation finds a slot at the end of the run too. */
  lemma CrowdAllocates(q: seq<Act>)
    requires Happens(ALONE, q)
    ensures WellFormed(ALONE.world.table)
    ensures BoundedThroughout(ALONE, q) <==> CarefulThroughout(ALONE, q)
    ensures CarefulThroughout(ALONE, q) ==> Can(Outcome(ALONE, q), Own(Allocate))
  {
    AloneFine();
    BoundedIffCareful(ALONE, q);
    if BoundedThroughout(ALONE, q) {
      EndsBounded(ALONE, q);
      AllocateSucceeds(Outcome(ALONE, q).world.table);
    }
  }

  lemma {:induction false} EndsBounded(c: Crowd, q: seq<Act>)
    requires Happens(c, q) && WellFormed(c.world.table) && BoundedThroughout(c, q)
    ensures WellFormed(Outcome(c, q).world.table) && Bounded(Outcome(c, q).world.table)
    decreases |q|
  {
    hide Bounded, Do, Can, WellFormed;
    if q != [] {
      ActIsSection(c, q[0]);
      EndsBounded(Do(c, q[0]), q[1..]);
    }
  }

  // ----- in terms of waiters -----

  ghost predicate OutstandingOn(tokens: seq<Token>, id: int) {
    exists t :: 0 <= t < |tokens| && tokens[t].id == id && tokens[t].phase != Gone
  }

  /** Every used slot belongs to an allocation whose waiter has not left. */
  ghost predicate Attended(c: Crowd) {
    forall i :: 0 <= i < |c.world.table.slots| && c.world.table.slots[i].used ==> OutstandingOn(c.world.tokens, i)
  }

  /** A marking comes while some waiter of the id has not left. */
  ghost predicate Timely(c: Crowd, a: Act)
    requires Can(c, a)
  {
    EffectOf(c, a).One? && EffectOf(c, a).section.Marking? ==> OutstandingOn(c.world.tokens, EffectOf(c, a).section.id)
  }

  /** Every act keeps the slots attended exactly when it is a timely one. */
  lemma AttendedActIff(c: Crowd, a: Act)
    requires WellFormed(c.world.table) && Can(c, a) && Attended(c)
    ensures Attended(Do(c, a)) <==> Timely(c, a)
  {
    hide Search;
    var c' := Do(c, a);
    var slots, slots' := c.world.table.slots, c'.world.table.slots;
    ActIsSection(c, a);
    WaitersAfter(c, a);
    if a == Own(Allocate) {
      var id := Allocated(c.world.table);
      assert c'.world.tokens[|c.world.tokens|].id == id;
    } else if EffectOf(c, a).One? && EffectOf(c, a).section.Marking? {
      var id := EffectOf(c, a).section.id;
      assert slots'[id].used;
    }
  }

  /** Waiters stay until they leave, and nobody else's leaving touches them. */
  lemma WaitersAfter(c: Crowd, a: Act)
    requires Can(c, a)
    ensures forall i :: OutstandingOn(c.world.tokens, i) && EffectOf(c, a) != One(Leaving(i))
                        ==> OutstandingOn(Do(c, a).world.tokens, i)
    ensures !(a.Own? && a.step.Allocate?) ==>
              forall i :: OutstandingOn(Do(c, a).world.tokens, i) ==> OutstandingOn(c.world.tokens, i)
  {
    hide Search;
    var before, after := c.world.tokens, Do(c, a).world.tokens;
    assert |before| <= |after|;
    forall i | OutstandingOn(before, i) && EffectOf(c, a) != One(Leaving(i))
      ensures OutstandingOn(after, i)
    {
      var t :| 0 <= t < |before| && before[t].id == i && before[t].phase != Gone;
      assert after[t].id == i && after[t].phase != Gone;
    }
    if !(a.Own? && a.step.Allocate?) {
      assert |before| == |after|;
      forall i | OutstandingOn(after, i)
        ensures OutstandingOn(before, i)
      {
        var t :| 0 <= t < |after| && after[t].id == i && after[t].phase != Gone;
        assert before[t].id == i && before[t].phase != Gone;
      }
    }
  }

  ghost predicate AttendedThroughout(c: Crowd, q: seq<Act>)
    requires Happens(c, q)
    decreases |q|
  {
    Attended(c) && (q != [] ==> AttendedThroughout(Do(c, q[0]), q[1..]))
  }

  ghost predicate TimelyThroughout(c: Crowd, q: seq<Act>)
    requires Happens(c, q)
    decreases |q|
  {
    q != [] ==> Timely(c, q[0]) && TimelyThroughout(Do(c, q[0]), q[1..])
  }

  /** No used slot is ever without a waiter exactly when nobody marks a slot after its waiters have left. */
  lemma {:induction false} AttendedIffTimely(c: Crowd, q: seq<Act>)
    requires Happens(c, q) && WellFormed(c.world.table) && Attended(c)
    ensures AttendedThroughout(c, q) <==> TimelyThroughout(c, q)
    decreases |q|
  {
    hide Attended, Timely, Do, Can, WellFormed;
    if q != [] {
      var c' := Do(c, q[0]);
      ActIsSection(c, q[0]);
      AttendedActIff(c, q[0]);
      if Attended(c') { AttendedIffTimely(c', q[1..]); }
    }
  }

  /** The count is the number of waiters that have not left, whoever calls. */
  lemma CountedAct(c: Crowd, a: Act)
    requires Counted(c.world) && Can(c, a)
    ensures Counted(Do(c, a).world)
  {
    hide Outstanding, Search;
    ActIsSection(c, a);
    if a.Own? {
      match a.step
      case Allocate => OutstandingSnoc(c.world.tokens, Token(Allocated(c.world.table), Held, Idle));
      case Freeze(t) => OutstandingUpdate(c.world.tokens, t, c.world.tokens[t].(phase := Waiting));
      case Leave(t) => OutstandingUpdate(c.world.tokens, t, c.world.tokens[t].(phase := Gone));
      case SeeFrozen(t) => OutstandingUpdate(c.world.tokens, t, c.world.tokens[t].(call := Passed));
      case Mark(t) => OutstandingUpdate(c.world.tokens, t, c.world.tokens[t].(call := Marked));
      case Notify(t) => OutstandingUpdate(c.world.tokens, t, c.world.tokens[t].(call := Done));
    }
  }

  lemma {:induction false} CountedThroughout(c: Crowd, q: seq<Act>)
    requires Counted(c.world) && Happens(c, q)
    ensures Counted(Outcome(c, q).world)
    decreases |q|
  {
    hide Counted, Do, Can;
    if q != [] {
      CountedAct(c, q[0]);
      CountedThroughout(Do(c, q[0]), q[1..]);
    }
  }

  /** So over every run it is never negative, and never more than there are slots. */
  lemma CountNeverNegative(q: seq<Act>)
    requires Happens(ALONE, q)
    ensures var w := Outcome(ALONE, q).world; 0 <= w.table.size == Outstanding(w.tokens) <= |w.table.slots|
  {
    CountedThroughout(ALONE, q);
  }

  lemma AttendedBounded(c: Crowd)
    requires Counted(c.world) && Attended(c)
    ensures Bounded(c.world.table)
  {
    var used, ids := UsedSlots(c.world.table.slots), OutstandingIds(c.world.tokens);
    forall i | i in used
      ensures i in ids
    {
      assert OutstandingOn(c.world.tokens, i);
    }
    SubsetCard(used, ids);
    IdsAtMostOutstanding(c.world.tokens);
  }

  /** When nobody marks a slot after its waiters have left, the used slots stay within the count. */
  lemma {:induction false} TimelyIsBounded(c: Crowd, q: seq<Act>)
    requires Happens(c, q) && Counted(c.world) && Attended(c) && TimelyThroughout(c, q)
    ensures BoundedThroughout(c, q)
    decreases |q|
  {
    hide Attended, Timely, Do, Can, Bounded, Outstanding;
    AttendedBounded(c);
    if q != [] {
      AttendedActIff(c, q[0]);
      CountedAct(c, q[0]);
      TimelyIsBounded(Do(c, q[0]), q[1..]);
    }
  }

  // ----- a stray marking -----

  lemma {:induction false} HappensSnoc(c: Crowd, q: seq<Act>, a: Act)
    requires Happens(c, q) && Can(Outcome(c, q), a)
    ensures Happens(c, q + [a]) && Outcome(c, q + [a]) == Do(Outcome(c, q), a)
    decreases |q|
  {
    hide Can, Do;
    if q == [] {
      assert q + [a] == [a] && [a][1..] == [];
    } else {
      HappensSnoc(Do(c, q[0]), q[1..], a);
      assert (q + [a])[1..] == q[1..] + [a];
    }
  }

  lemma AtFirst(c: Crowd)
    ensures Happens(c, []) && Outcome(c, []) == c
  {
  }

  /**
   * Two callers see the slot frozen; one notifies, the waiter leaves, and only then does the other mark the slot:
   * a slot is in use and none is counted.
   */
  lemma StrayMark() returns (q: seq<Act>)
    ensures Happens(ALONE, q) && !Bounded(Outcome(ALONE, q).world.table)
    ensures Outcome(ALONE, q).world.table.size == 0
  {
    hide Happens, Outcome;
    FirstId();
    AtFirst(ALONE);
    q := [];
    HappensSnoc(ALONE, q, Own(Allocate));
    q := q + [Own(Allocate)];
    HappensSnoc(ALONE, q, Own(Freeze(0)));
    q := q + [Own(Freeze(0))];
    HappensSnoc(ALONE, q, Join(0));
    q := q + [Join(0)];
    HappensSnoc(ALONE, q, Own(SeeFrozen(0)));
    q := q + [Own(SeeFrozen(0))];
    HappensSnoc(ALONE, q, See(0));
    q := q + [See(0)];
    q := StrayEnd(q);
  }

  lemma FirstId()
    ensures Allocated(EMPTY_TABLE) == 1 && Room(EMPTY_TABLE) == EMPTY_TABLE.slots && WellFormed(EMPTY_TABLE)
  {
  }

  lemma StrayEnd(start: seq<Act>) returns (q: seq<Act>)
    requires Happens(ALONE, start)
    requires var c := Outcome(ALONE, start);
             && |c.world.table.slots| == MAX_SERIAL_NUM && c.world.table.size == 1
             && c.world.tokens == [Token(1, Waiting, Passed)] && c.extras == [Extra(1, Passed)]
    ensures Happens(ALONE, q) && !Bounded(Outcome(ALONE, q).world.table)
    ensures Outcome(ALONE, q).world.table.size == 0
  {
    hide Happens, Outcome;
    q := start;
    HappensSnoc(ALONE, q, Own(Mark(0)));
    q := q + [Own(Mark(0))];
    HappensSnoc(ALONE, q, Own(Notify(0)));
    q := q + [Own(Notify(0))];
    HappensSnoc(ALONE, q, Own(Leave(0)));
    q := q + [Own(Leave(0))];
    HappensSnoc(ALONE, q, MarkToo(0));
    q := q + [MarkToo(0)];
    var table := Outcome(ALONE, q).world.table;
    assert table.slots[1].used;
    assert 1 in UsedSlots(table.slots);
  }
}
