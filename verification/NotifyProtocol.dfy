/**
 * Every interleaving of waiters and notifiers, when each allocated id is notified at most once: allocate, freeze
 * and wait on one side; see the slot frozen and mark it, as often as the caller tests it, then notify it on the other.
 */
module NotifyProtocol {
  import opened Notifications

  datatype Phase = Held | Waiting | Gone

  datatype Call = Idle | Passed | Marked | Done

  /** One allocation: its id, how far its waiter has come and how far its notifier has come. */
  datatype Token = Token(id: int, phase: Phase, call: Call)

  datatype World = World(table: Table, tokens: seq<Token>)

  const START := World(EMPTY_TABLE, [])

  datatype Step = Allocate | Freeze(t: nat) | Leave(t: nat) | SeeFrozen(t: nat) | Mark(t: nat) | Notify(t: nat)

  ghost predicate Ready(w: World, s: Step) {
    match s
    case Allocate => WellFormed(w.table) && Allocated(w.table) != -1
    case Freeze(t) => t < |w.tokens| && w.tokens[t].phase == Held && InTable(w, t)
    case Leave(t) => t < |w.tokens| && w.tokens[t].phase == Waiting && InTable(w, t) && SlotOf(w, t).notified
    case SeeFrozen(t) =>
      t < |w.tokens| && (w.tokens[t].call == Idle || w.tokens[t].call == Marked) && InTable(w, t)
        && SlotOf(w, t).freezed
    case Mark(t) => t < |w.tokens| && w.tokens[t].call == Passed && InTable(w, t)
    case Notify(t) => t < |w.tokens| && w.tokens[t].call == Marked && InTable(w, t)
  }

  ghost predicate InTable(w: World, t: nat)
    requires t < |w.tokens|
  {
    0 <= w.tokens[t].id < |w.table.slots|
  }

  function SlotOf(w: World, t: nat): Slot
    requires t < |w.tokens| && InTable(w, t)
  {
    w.table.slots[w.tokens[t].id]
  }

  function Move(w: World, s: Step): World
    requires Ready(w, s)
  {
    match s
    case Allocate => World(AllocateSlot(w.table), w.tokens + [Token(Allocated(w.table), Held, Idle)])
    case Freeze(t) => World(FreezeSlot(w.table, w.tokens[t].id), w.tokens[t := w.tokens[t].(phase := Waiting)])
    case Leave(t) => World(LeaveSlot(w.table, w.tokens[t].id), w.tokens[t := w.tokens[t].(phase := Gone)])
    case SeeFrozen(t) => w.(tokens := w.tokens[t := w.tokens[t].(call := Passed)])
    case Mark(t) => World(MarkSlot(w.table, w.tokens[t].id), w.tokens[t := w.tokens[t].(call := Marked)])
    case Notify(t) => World(NotifySlot(w.table, w.tokens[t].id), w.tokens[t := w.tokens[t].(call := Done)])
  }

  // ----- invariant -----

  /** Handed out and not yet notified. */
  predicate Live(k: Token) {
    k.phase != Gone && k.call != Done
  }

  function Outstanding(tokens: seq<Token>): nat {
    if tokens == [] then 0
    else Outstanding(tokens[..|tokens| - 1]) + if tokens[|tokens| - 1].phase != Gone then 1 else 0
  }

  ghost predicate Counted(w: World) {
    WellFormed(w.table) && w.table.size == Outstanding(w.tokens)
  }

  /** A waiter that has not frozen was not notified; one that has left was. */
  predicate InOrder(k: Token) {
    && (k.phase == Held ==> k.call == Idle)
    && (k.phase == Gone ==> k.call == Done)
  }

  /** The slot of a live token is used, not notified, and not frozen before its waiter freezes it. */
  predicate Guarded(slots: seq<Slot>, k: Token) {
    && 0 <= k.id < |slots|
    && InOrder(k)
    && (Live(k) ==> slots[k.id].used && !slots[k.id].notified)
    && (k.phase == Held ==> !slots[k.id].freezed)
  }

  ghost predicate AllGuarded(w: World) {
    forall t :: 0 <= t < |w.tokens| ==> Guarded(w.table.slots, w.tokens[t])
  }

  /** No two live tokens share a slot. */
  ghost predicate Exclusive(w: World) {
    forall t, u :: 0 <= t < u < |w.tokens| && Live(w.tokens[t]) && Live(w.tokens[u])
      ==> w.tokens[t].id != w.tokens[u].id
  }

  ghost predicate LiveOn(tokens: seq<Token>, id: int) {
    exists t :: 0 <= t < |tokens| && tokens[t].id == id && Live(tokens[t])
  }

  ghost predicate UsedHasLive(w: World) {
    forall i :: 0 <= i < |w.table.slots| && w.table.slots[i].used ==> LiveOn(w.tokens, i)
  }

  /** A notified waiter that cannot leave has lost its slot to a later allocation. */
  ghost predicate OvertakenHasLive(w: World) {
    forall t :: 0 <= t < |w.tokens| && InTable(w, t) && w.tokens[t].call == Done && !SlotOf(w, t).notified
                ==> LiveOn(w.tokens, w.tokens[t].id)
  }

  ghost predicate WaitingOn(tokens: seq<Token>, id: int) {
    exists t :: 0 <= t < |tokens| && tokens[t].id == id && tokens[t].phase == Waiting
  }

  /** A frozen slot has a waiter. */
  ghost predicate FrozenHasWaiter(w: World) {
    forall i :: 0 <= i < |w.table.slots| && w.table.slots[i].freezed ==> WaitingOn(w.tokens, i)
  }

  ghost predicate Invariant(w: World) {
    Counted(w) && AllGuarded(w) && Exclusive(w) && UsedHasLive(w) && OvertakenHasLive(w) && FrozenHasWaiter(w)
  }

  // ----- counting -----

  lemma {:induction false} OutstandingUpdate(tokens: seq<Token>, t: nat, k: Token)
    requires t < |tokens|
    ensures Outstanding(tokens[t := k]) == Outstanding(tokens)
              - (if tokens[t].phase != Gone then 1 else 0) + (if k.phase != Gone then 1 else 0)
  {
    var last := |tokens| - 1;
    if t < last {
      OutstandingUpdate(tokens[..last], t, k);
      assert tokens[t := k][..last] == tokens[..last][t := k];
    } else {
      assert tokens[t := k][..last] == tokens[..last];
    }
  }

  lemma OutstandingSnoc(tokens: seq<Token>, k: Token)
    ensures Outstanding(tokens + [k]) == Outstanding(tokens) + if k.phase != Gone then 1 else 0
  {
    assert (tokens + [k])[..|tokens|] == tokens;
  }

  function OutstandingIds(tokens: seq<Token>): set<int> {
    set t | 0 <= t < |tokens| && tokens[t].phase != Gone :: tokens[t].id
  }

  lemma {:induction false} IdsAtMostOutstanding(tokens: seq<Token>)
    ensures |OutstandingIds(tokens)| <= Outstanding(tokens)
  {
    if tokens != [] {
      var last := |tokens| - 1;
      IdsAtMostOutstanding(tokens[..last]);
      var before := OutstandingIds(tokens[..last]);
      if tokens[last].phase != Gone {
        assert OutstandingIds(tokens) <= before + {tokens[last].id};
        SubsetCard(OutstandingIds(tokens), before + {tokens[last].id});
      } else {
        assert OutstandingIds(tokens) <= before;
        SubsetCard(OutstandingIds(tokens), before);
      }
    }
  }

  lemma {:induction false} SubsetCard(a: set<int>, b: set<int>)
    requires a <= b
    ensures |a| <= |b|
  {
    assert b == a + (b - a);
  }

  /** Never more slots in use than were counted out. */
  lemma UsedAtMostSize(w: World)
    requires Counted(w) && UsedHasLive(w)
    ensures |UsedSlots(w.table.slots)| <= w.table.size <= |w.table.slots|
  {
    forall i | i in UsedSlots(w.table.slots)
      ensures i in OutstandingIds(w.tokens)
    {
      assert LiveOn(w.tokens, i);
    }
    SubsetCard(UsedSlots(w.table.slots), OutstandingIds(w.tokens));
    IdsAtMostOutstanding(w.tokens);
  }

  // ----- every step keeps the invariant -----

  lemma AllocateKeeps(w: World)
    requires Invariant(w) && Ready(w, Allocate)
    ensures Invariant(Move(w, Allocate))
  {
    hide Counted, AllGuarded, Exclusive, UsedHasLive, OvertakenHasLive, FrozenHasWaiter, Move, Ready;
    AllocateCounted(w);
    AllocateGuarded(w);
    AllocateExclusive(w);
    AllocateUsed(w);
    AllocateOvertaken(w);
    AllocateFrozen(w);
  }

  lemma AllocateCounted(w: World)
    requires Counted(w) && Ready(w, Allocate)
    ensures Counted(Move(w, Allocate))
  {
    hide Search, Outstanding;
    OutstandingSnoc(w.tokens, Token(Allocated(w.table), Held, Idle));
  }

  /** The id handed out is not one of a live token. */
  lemma AllocateNew(w: World, t: nat)
    requires AllGuarded(w) && Ready(w, Allocate) && t < |w.tokens| && Live(w.tokens[t])
    ensures w.tokens[t].id != Allocated(w.table)
  {
    hide Search;
    assert Guarded(w.table.slots, w.tokens[t]);
  }

  lemma AllocateExclusive(w: World)
    requires AllGuarded(w) && Exclusive(w) && Ready(w, Allocate)
    ensures Exclusive(Move(w, Allocate))
  {
    hide Search, AllGuarded;
    var w' := Move(w, Allocate);
    forall t, u | 0 <= t < u < |w'.tokens| && Live(w'.tokens[t]) && Live(w'.tokens[u])
      ensures w'.tokens[t].id != w'.tokens[u].id
    {
      if u == |w.tokens| { AllocateNew(w, t); }
    }
  }

  /** Live tokens stay live, and the new one is live. */
  lemma AllocateLive(w: World, i: int)
    requires Ready(w, Allocate)
    ensures LiveOn(w.tokens, i) || i == Allocated(w.table) ==> LiveOn(Move(w, Allocate).tokens, i)
  {
    hide Search;
    var after := Move(w, Allocate).tokens;
    if LiveOn(w.tokens, i) {
      var t :| 0 <= t < |w.tokens| && w.tokens[t].id == i && Live(w.tokens[t]);
      assert after[t] == w.tokens[t];
    }
    assert after[|w.tokens|].id == Allocated(w.table);
  }

  lemma AllocateUsed(w: World)
    requires UsedHasLive(w) && Ready(w, Allocate)
    ensures UsedHasLive(Move(w, Allocate))
  {
    hide Search, LiveOn;
    var w' := Move(w, Allocate);
    forall i | 0 <= i < |w'.table.slots| && w'.table.slots[i].used
      ensures LiveOn(w'.tokens, i)
    {
      AllocateLive(w, i);
    }
  }

  lemma AllocateOvertaken(w: World)
    requires AllGuarded(w) && OvertakenHasLive(w) && Ready(w, Allocate)
    ensures OvertakenHasLive(Move(w, Allocate))
  {
    hide Search, LiveOn;
    var w' := Move(w, Allocate);
    forall t | 0 <= t < |w'.tokens| && InTable(w', t) && w'.tokens[t].call == Done && !SlotOf(w', t).notified
      ensures LiveOn(w'.tokens, w'.tokens[t].id)
    {
      AllocateLive(w, w'.tokens[t].id);
      if t < |w.tokens| {
        assert Guarded(w.table.slots, w.tokens[t]);
        assert InTable(w, t);
      }
    }
  }

  lemma AllocateFrozen(w: World)
    requires Invariant(w) && Ready(w, Allocate)
    ensures FrozenHasWaiter(Move(w, Allocate))
  {
    hide Search, Outstanding, Exclusive, UsedHasLive, OvertakenHasLive, AllGuarded;
    var w' := Move(w, Allocate);
    forall i | 0 <= i < |w'.table.slots| && w'.table.slots[i].freezed
      ensures WaitingOn(w'.tokens, i)
    {
      var t :| 0 <= t < |w.tokens| && w.tokens[t].id == i && w.tokens[t].phase == Waiting;
      assert w'.tokens[t] == w.tokens[t];
    }
  }

  lemma AllocateGuarded(w: World)
    requires Invariant(w) && Ready(w, Allocate)
    ensures AllGuarded(Move(w, Allocate))
  {
    hide Search, Outstanding, Exclusive, UsedHasLive, OvertakenHasLive, FrozenHasWaiter;
    var w' := Move(w, Allocate);
    forall t | 0 <= t < |w'.tokens|
      ensures Guarded(w'.table.slots, w'.tokens[t])
    {
      if t < |w.tokens| {
        assert Guarded(w.table.slots, w.tokens[t]);
      }
    }
  }

  /** A step that only changes one token's slot and that token. */
  lemma OthersLive(w: World, t: nat, k: Token)
    requires t < |w.tokens| && w.tokens[t].id == k.id
    ensures forall i :: LiveOn(w.tokens, i) && (Live(k) || i != k.id) ==> LiveOn(w.tokens[t := k], i)
  {
    var after := w.tokens[t := k];
    forall i | LiveOn(w.tokens, i) && (Live(k) || i != k.id)
      ensures LiveOn(after, i)
    {
      var u :| 0 <= u < |w.tokens| && w.tokens[u].id == i && Live(w.tokens[u]);
      if u == t {
        assert after[t].id == i;
      } else {
        assert after[u] == w.tokens[u];
      }
    }
  }

  /** A step on one token, after which its slot is not frozen or it is waiting. */
  lemma FrozenElsewhere(w: World, w': World, t: nat)
    requires FrozenHasWaiter(w) && t < |w.tokens| && |w'.table.slots| == |w.table.slots|
    requires |w'.tokens| == |w.tokens| && w'.tokens[t].id == w.tokens[t].id
    requires forall u :: 0 <= u < |w.tokens| && u != t ==> w'.tokens[u] == w.tokens[u]
    requires forall i :: 0 <= i < |w.table.slots| && i != w.tokens[t].id ==> w'.table.slots[i] == w.table.slots[i]
    requires var id := w.tokens[t].id; 0 <= id < |w'.table.slots| && w'.table.slots[id].freezed ==>
               w'.tokens[t].phase == Waiting || (w.table.slots[id].freezed && w.tokens[t].phase != Waiting)
    ensures FrozenHasWaiter(w')
  {
    forall i | 0 <= i < |w'.table.slots| && w'.table.slots[i].freezed
      ensures WaitingOn(w'.tokens, i)
    {
      if i == w.tokens[t].id && w'.tokens[t].phase == Waiting {
        assert w'.tokens[t].id == i;
      } else {
        assert WaitingOn(w.tokens, i);
        var u :| 0 <= u < |w.tokens| && w.tokens[u].id == i && w.tokens[u].phase == Waiting;
        assert u != t;
        assert w'.tokens[u] == w.tokens[u];
      }
    }
  }

  /** The token of a step that is about to be taken by its waiter or notifier before the notification. */
  lemma OnlyLiveOn(w: World, t: nat)
    requires Invariant(w) && t < |w.tokens| && Live(w.tokens[t])
    ensures forall u :: 0 <= u < |w.tokens| && u != t && Live(w.tokens[u]) ==> w.tokens[u].id != w.tokens[t].id
  {
  }

  lemma FreezeKeeps(w: World, t: nat)
    requires Invariant(w) && Ready(w, Freeze(t))
    ensures Invariant(Move(w, Freeze(t)))
  {
    hide Outstanding;
    var k := w.tokens[t].(phase := Waiting);
    var w' := Move(w, Freeze(t));
    assert Guarded(w.table.slots, w.tokens[t]);
    OutstandingUpdate(w.tokens, t, k);
    OnlyLiveOn(w, t);
    assert AllGuarded(w') by {
      forall u | 0 <= u < |w'.tokens|
        ensures Guarded(w'.table.slots, w'.tokens[u])
      {
        assert Guarded(w.table.slots, w.tokens[u]);
      }
    }
    OthersLive(w, t, k);
    assert w'.tokens[t] == k && LiveOn(w'.tokens, k.id);
    assert OvertakenHasLive(w') by { OvertakenElsewhere(w, w', k.id); }
    assert FrozenHasWaiter(w') by { FrozenElsewhere(w, w', t); }
  }

  /** Waiters on slots the step did not touch are as they were. */
  lemma OvertakenElsewhere(w: World, w': World, id: int)
    requires OvertakenHasLive(w) && |w'.tokens| == |w.tokens| && |w'.table.slots| == |w.table.slots|
    requires forall u :: 0 <= u < |w.tokens| && w.tokens[u].id != id ==> w'.tokens[u] == w.tokens[u]
    requires forall u :: 0 <= u < |w.tokens| ==> w'.tokens[u].id == w.tokens[u].id
    requires forall i :: 0 <= i < |w.table.slots| && i != id ==> w'.table.slots[i] == w.table.slots[i]
    requires forall i :: i != id && LiveOn(w.tokens, i) ==> LiveOn(w'.tokens, i)
    requires 0 <= id < |w'.table.slots| && !w'.table.slots[id].notified ==> LiveOn(w'.tokens, id)
    ensures OvertakenHasLive(w')
  {
    forall u | 0 <= u < |w'.tokens| && InTable(w', u) && w'.tokens[u].call == Done && !SlotOf(w', u).notified
      ensures LiveOn(w'.tokens, w'.tokens[u].id)
    {
      if w.tokens[u].id != id {
        assert InTable(w, u) && !SlotOf(w, u).notified;
      }
    }
  }

  lemma LeaveKeeps(w: World, t: nat)
    requires Invariant(w) && Ready(w, Leave(t))
    ensures Invariant(Move(w, Leave(t)))
  {
    hide Outstanding;
    var k := w.tokens[t].(phase := Gone);
    var w' := Move(w, Leave(t));
    forall u | 0 <= u < |w.tokens| && w.tokens[u].id == k.id
      ensures !Live(w.tokens[u])
    {
      assert Guarded(w.table.slots, w.tokens[u]);
    }
    OutstandingUpdate(w.tokens, t, k);
    assert AllGuarded(w') by {
      forall u | 0 <= u < |w'.tokens|
        ensures Guarded(w'.table.slots, w'.tokens[u])
      {
        assert Guarded(w.table.slots, w.tokens[u]);
      }
    }
    OthersLive(w, t, k);
    assert OvertakenHasLive(w') by { OvertakenElsewhere(w, w', k.id); }
    assert FrozenHasWaiter(w') by { FrozenElsewhere(w, w', t); }
  }

  /** Seeing the slot frozen, the notifier knows that its own waiter froze it. */
  lemma SeeFrozenKeeps(w: World, t: nat)
    requires Invariant(w) && Ready(w, SeeFrozen(t))
    ensures w.tokens[t].phase == Waiting
    ensures Invariant(Move(w, SeeFrozen(t)))
  {
    hide Outstanding;
    var k := w.tokens[t].(call := Passed);
    var w' := Move(w, SeeFrozen(t));
    assert Guarded(w.table.slots, w.tokens[t]);
    OutstandingUpdate(w.tokens, t, k);
    OthersLive(w, t, k);
    assert AllGuarded(w') by {
      forall u | 0 <= u < |w'.tokens|
        ensures Guarded(w'.table.slots, w'.tokens[u])
      {
        assert Guarded(w.table.slots, w.tokens[u]);
      }
    }
    assert OvertakenHasLive(w') by {
      assert w'.tokens[t] == k && LiveOn(w'.tokens, k.id);
      OvertakenElsewhere(w, w', k.id);
    }
    assert FrozenHasWaiter(w') by { FrozenElsewhere(w, w', t); }
  }

  /** The assignment inside the assertion changes nothing here. */
  lemma MarkIsNoChange(w: World, t: nat)
    requires Invariant(w) && Ready(w, Mark(t))
    ensures MarkSlot(w.table, w.tokens[t].id) == w.table
  {
    assert Guarded(w.table.slots, w.tokens[t]);
    var id := w.tokens[t].id;
    assert w.table.slots[id := w.table.slots[id].(used := true)] == w.table.slots;
  }

  lemma MarkKeeps(w: World, t: nat)
    requires Invariant(w) && Ready(w, Mark(t))
    ensures Invariant(Move(w, Mark(t)))
  {
    hide Outstanding;
    MarkIsNoChange(w, t);
    var k := w.tokens[t].(call := Marked);
    var w' := Move(w, Mark(t));
    assert Guarded(w.table.slots, w.tokens[t]);
    OutstandingUpdate(w.tokens, t, k);
    OthersLive(w, t, k);
    assert AllGuarded(w') by {
      forall u | 0 <= u < |w'.tokens|
        ensures Guarded(w'.table.slots, w'.tokens[u])
      {
        assert Guarded(w.table.slots, w.tokens[u]);
      }
    }
    assert OvertakenHasLive(w') by {
      assert w'.tokens[t] == k && LiveOn(w'.tokens, k.id);
      OvertakenElsewhere(w, w', k.id);
    }
    assert FrozenHasWaiter(w') by { FrozenElsewhere(w, w', t); }
  }

  lemma NotifyKeeps(w: World, t: nat)
    requires Invariant(w) && Ready(w, Notify(t))
    ensures Invariant(Move(w, Notify(t)))
  {
    hide Outstanding;
    var k := w.tokens[t].(call := Done);
    var w' := Move(w, Notify(t));
    assert Guarded(w.table.slots, w.tokens[t]);
    OnlyLiveOn(w, t);
    OutstandingUpdate(w.tokens, t, k);
    OthersLive(w, t, k);
    assert AllGuarded(w') by {
      forall u | 0 <= u < |w'.tokens|
        ensures Guarded(w'.table.slots, w'.tokens[u])
      {
        assert Guarded(w.table.slots, w.tokens[u]);
      }
    }
    assert OvertakenHasLive(w') by { OvertakenElsewhere(w, w', k.id); }
    assert FrozenHasWaiter(w') by { FrozenElsewhere(w, w', t); }
  }

  lemma StepKeeps(w: World, s: Step)
    requires Invariant(w) && Ready(w, s)
    ensures Invariant(Move(w, s))
  {
    hide Invariant, Move;
    match s
    case Allocate => AllocateKeeps(w);
    case Freeze(t) => FreezeKeeps(w, t);
    case Leave(t) => LeaveKeeps(w, t);
    case SeeFrozen(t) => SeeFrozenKeeps(w, t);
    case Mark(t) => MarkKeeps(w, t);
    case Notify(t) => NotifyKeeps(w, t);
  }

  // ----- runs -----

  ghost predicate IsRun(w: World, q: seq<Step>)
    decreases |q|
  {
    q == [] || (Ready(w, q[0]) && IsRun(Move(w, q[0]), q[1..]))
  }

  function After(w: World, q: seq<Step>): World
    requires IsRun(w, q)
    decreases |q|
  {
    if q == [] then w else After(Move(w, q[0]), q[1..])
  }

  lemma {:induction false} RunKeeps(w: World, q: seq<Step>)
    requires Invariant(w) && IsRun(w, q)
    ensures Invariant(After(w, q))
    decreases |q|
  {
    hide Invariant, Move, Ready;
    if q != [] {
      StepKeeps(w, q[0]);
      RunKeeps(Move(w, q[0]), q[1..]);
    }
  }

  lemma StartHolds()
    ensures Invariant(START)
  {
  }

  /** In every reachable state the used slots are at most the count, so allocation finds a slot. */
  lemma ReachableAllocates(q: seq<Step>)
    requires IsRun(START, q)
    ensures var t := After(START, q).table;
            && |UsedSlots(t.slots)| <= t.size <= |t.slots|
            && Ready(After(START, q), Allocate)
  {
    StartHolds();
    RunKeeps(START, q);
    UsedAtMostSize(After(START, q));
    AllocateSucceeds(After(START, q).table);
  }

  /** In every reachable state no id is out twice before it is notified. */
  lemma ReachableExclusive(q: seq<Step>, t: nat, u: nat)
    requires IsRun(START, q) && t < u < |After(START, q).tokens|
    requires Live(After(START, q).tokens[t]) && Live(After(START, q).tokens[u])
    ensures After(START, q).tokens[t].id != After(START, q).tokens[u].id
  {
    StartHolds();
    RunKeeps(START, q);
  }

  /** A notified waiter can leave exactly when its slot has not been handed out again and left unnotified. */
  lemma NotifiedWaiterLeavesIff(q: seq<Step>, t: nat)
    requires IsRun(START, q) && t < |After(START, q).tokens|
    requires After(START, q).tokens[t].phase == Waiting && After(START, q).tokens[t].call == Done
    ensures Ready(After(START, q), Leave(t))
            <==> !LiveOn(After(START, q).tokens, After(START, q).tokens[t].id)
  {
    hide After, IsRun;
    StartHolds();
    RunKeeps(START, q);
    var w := After(START, q);
    var id := w.tokens[t].id;
    assert Guarded(w.table.slots, w.tokens[t]);
    if LiveOn(w.tokens, id) {
      var u :| 0 <= u < |w.tokens| && w.tokens[u].id == id && Live(w.tokens[u]);
      assert Guarded(w.table.slots, w.tokens[u]);
    }
  }

  // ----- a notification that is lost -----

  /** One waiter was notified and has not left; every other request has been served; the search stands at `n`. */
  ghost predicate Quiet(w: World, n: int) {
    && |w.table.slots| == MAX_SERIAL_NUM && w.table.num == n && 0 <= n < MAX_SERIAL_NUM && w.table.size == 1
    && (forall i :: 0 <= i < MAX_SERIAL_NUM ==> !w.table.slots[i].used)
    && |w.tokens| > 0 && w.tokens[0] == Token(1, Waiting, Done)
  }

  lemma RunStep(w: World, s: Step, q: seq<Step>)
    requires Ready(w, s) && IsRun(Move(w, s), q)
    ensures IsRun(w, [s] + q) && After(w, [s] + q) == After(Move(w, s), q)
  {
    assert ([s] + q)[1..] == q;
  }

  lemma NextAllocated(w: World, n: int)
    requires Quiet(w, n)
    ensures Ready(w, Allocate) && Allocated(w.table) == Next(n, MAX_SERIAL_NUM)
  {
    assert Room(w.table) == w.table.slots;
  }

  /** One more request, from allocation to leaving. */
  function Service(t: nat, q: seq<Step>): seq<Step> {
    [Allocate] + ([Freeze(t)] + ([SeeFrozen(t)] + ([Mark(t)] + ([Notify(t)] + ([Leave(t)] + q)))))
  }

  lemma ServiceRun(w: World, n: int) returns (w': World)
    requires Quiet(w, n)
    ensures Quiet(w', Next(n, MAX_SERIAL_NUM))
    ensures forall q {:trigger IsRun(w', q)} :: IsRun(w', q) ==>
              IsRun(w, Service(|w.tokens|, q)) && After(w, Service(|w.tokens|, q)) == After(w', q)
  {
    hide Search;
    NextAllocated(w, n);
    var t := |w.tokens|;
    var w1 := Move(w, Allocate);
    var w2 := Move(w1, Freeze(t));
    var w3 := Move(w2, SeeFrozen(t));
    var w4 := Move(w3, Mark(t));
    var w5 := Move(w4, Notify(t));
    w' := Move(w5, Leave(t));
    forall q | IsRun(w', q)
      ensures IsRun(w, Service(t, q)) && After(w, Service(t, q)) == After(w', q)
    {
      hide Move, Ready;
      RunStep(w5, Leave(t), q);
      RunStep(w4, Notify(t), [Leave(t)] + q);
      RunStep(w3, Mark(t), [Notify(t)] + ([Leave(t)] + q));
      RunStep(w2, SeeFrozen(t), [Mark(t)] + ([Notify(t)] + ([Leave(t)] + q)));
      RunStep(w1, Freeze(t), [SeeFrozen(t)] + ([Mark(t)] + ([Notify(t)] + ([Leave(t)] + q))));
      RunStep(w, Allocate, [Freeze(t)] + ([SeeFrozen(t)] + ([Mark(t)] + ([Notify(t)] + ([Leave(t)] + q)))));
    }
  }

  ghost predicate Lost(w: World) {
    |w.tokens| > 0 && w.tokens[0].phase == Waiting && w.tokens[0].call == Done && !Ready(w, Leave(0))
  }

  /** Serving other requests until the search comes round hands the notified waiter's slot out again. */
  lemma {:induction false} RoundTheTable(w: World, n: int) returns (q: seq<Step>)
    requires Quiet(w, n)
    ensures IsRun(w, q) && Lost(After(w, q))
    decreases if n == 0 then 0 else MAX_SERIAL_NUM - n
  {
    if n == 0 {
      NextAllocated(w, n);
      var w' := Move(w, Allocate);
      assert IsRun(w', []);
      RunStep(w, Allocate, []);
      q := [Allocate] + [];
    } else {
      hide Move, Ready, Lost;
      var w' := ServiceRun(w, n);
      var rest := RoundTheTable(w', Next(n, MAX_SERIAL_NUM));
      q := Service(|w.tokens|, rest);
    }
  }

  /** There is a run in which a waiter was notified and still cannot leave. */
  lemma NotificationCanBeLost() returns (q: seq<Step>)
    ensures IsRun(START, q) && Lost(After(START, q))
  {
    var w0 := START;
    assert Room(w0.table) == w0.table.slots;
    assert Allocated(w0.table) == 1;
    var w1 := Move(w0, Allocate);
    var w2 := Move(w1, Freeze(0));
    var w3 := Move(w2, SeeFrozen(0));
    var w4 := Move(w3, Mark(0));
    var w5 := Move(w4, Notify(0));
    hide Move, Ready, Lost;
    var rest := RoundTheTable(w5, 1);
    RunStep(w4, Notify(0), rest);
    RunStep(w3, Mark(0), [Notify(0)] + rest);
    RunStep(w2, SeeFrozen(0), [Mark(0)] + ([Notify(0)] + rest));
    RunStep(w1, Freeze(0), [SeeFrozen(0)] + ([Mark(0)] + ([Notify(0)] + rest)));
    RunStep(w0, Allocate, [Freeze(0)] + ([SeeFrozen(0)] + ([Mark(0)] + ([Notify(0)] + rest))));
    q := [Allocate] + ([Freeze(0)] + ([SeeFrozen(0)] + ([Mark(0)] + ([Notify(0)] + rest))));
  }
}
