/** The thread pool as a step system: worker threads, callers of `AddJob`, and one caller of `JoinAll`. */
module ThreadPools {

  /** A job is named by the order in which it was added; bailing out injects an empty one. */
  datatype Job = Real(n: nat) | Injected

  /** `Chosen`: inside `next_job` with the queue lock, having read the bailout flag. `Ran`: before `--jobs_left`. */
  datatype Worker = Top | Wanting | Chosen(popping: bool) | Busy(job: Job) | Ran | Exited

  datatype Lock = Free | Adder | Taker(w: nat)

  datatype Joiner = Away | Checking | Passed | Joining | Joined

  /** `started` lists the jobs in the order they were popped; `runs` counts the completed calls of each job. */
  datatype Pool = Pool(
    queue: seq<nat>, left: int, bailout: bool, lock: Lock, workers: seq<Worker>, joiner: Joiner,
    started: seq<nat>, runs: seq<nat>)

  function Fresh(threads: nat): Pool {
    Pool([], 0, false, Free, seq(threads, i => Top), Away, [], [])
  }

  datatype Step =
    | Enqueue | CountJob
    | Look(w: nat) | Choose(w: nat) | Take(w: nat) | RunJob(w: nat) | CountDone(w: nat)
    | CallJoin(wait: bool) | SeeZero | SetBailout | JoinThreads

  predicate Ready(p: Pool, s: Step) {
    match s
    case Enqueue => p.lock == Free
    case CountJob => p.lock == Adder
    case Look(w) => w < |p.workers| && p.workers[w] == Top
    case Choose(w) => w < |p.workers| && p.workers[w] == Wanting && p.lock == Free && (p.queue != [] || p.bailout)
    case Take(w) => w < |p.workers| && p.workers[w].Chosen? && (p.workers[w].popping ==> p.queue != [])
    case RunJob(w) => w < |p.workers| && p.workers[w].Busy?
      && (p.workers[w].job.Real? ==> p.workers[w].job.n < |p.runs|)
    case CountDone(w) => w < |p.workers| && p.workers[w] == Ran
    case CallJoin(wait) => p.joiner == Away
    case SeeZero => p.joiner == Checking && p.left <= 0
    case SetBailout => p.joiner == Passed
    case JoinThreads => p.joiner == Joining && forall w :: 0 <= w < |p.workers| ==> p.workers[w] == Exited
  }

  function Move(p: Pool, s: Step): Pool
    requires Ready(p, s)
  {
    match s
    case Enqueue => p.(queue := p.queue + [|p.runs|], runs := p.runs + [0], lock := Adder)
    case CountJob => p.(left := p.left + 1, lock := Free)
    case Look(w) => p.(workers := p.workers[w := if p.bailout then Exited else Wanting])
    case Choose(w) => p.(workers := p.workers[w := Chosen(!p.bailout)], lock := Taker(w))
    case Take(w) =>
      if p.workers[w].popping then
        p.(queue := p.queue[1..], started := p.started + [p.queue[0]], lock := Free,
           workers := p.workers[w := Busy(Real(p.queue[0]))])
      else
        p.(left := p.left + 1, lock := Free, workers := p.workers[w := Busy(Injected)])
    case RunJob(w) =>
      var p' := p.(workers := p.workers[w := Ran]);
      if p.workers[w].job.Real? then p'.(runs := p.runs[p.workers[w].job.n := p.runs[p.workers[w].job.n] + 1]) else p'
    case CountDone(w) => p.(left := p.left - 1, workers := p.workers[w := Top])
    case CallJoin(wait) => p.(joiner := if wait then Checking else Passed)
    case SeeZero => p.(joiner := Passed)
    case SetBailout => p.(bailout := true, joiner := Joining)
    case JoinThreads => p.(joiner := Joined)
  }

  // ----- counting workers -----

  function Count(ws: seq<Worker>, f: Worker -> bool): nat {
    if ws == [] then 0 else Count(ws[..|ws| - 1], f) + if f(ws[|ws| - 1]) then 1 else 0
  }

  lemma {:induction false} CountUpdate(ws: seq<Worker>, f: Worker -> bool, w: nat, x: Worker)
    requires w < |ws|
    ensures Count(ws[w := x], f) == Count(ws, f) - (if f(ws[w]) then 1 else 0) + (if f(x) then 1 else 0)
  {
    var last := |ws| - 1;
    if w < last {
      CountUpdate(ws[..last], f, w, x);
      assert ws[w := x][..last] == ws[..last][w := x];
    } else {
      assert ws[w := x][..last] == ws[..last];
    }
  }

  lemma {:induction false} CountNone(ws: seq<Worker>, f: Worker -> bool)
    requires forall w :: 0 <= w < |ws| ==> !f(ws[w])
    ensures Count(ws, f) == 0
  {
    if ws != [] { CountNone(ws[..|ws| - 1], f); }
  }

  predicate InFlight(w: Worker) {
    w.Busy? || w == Ran
  }

  function Holds(n: nat): Worker -> bool {
    w => w == Busy(Real(n))
  }

  /** No more workers hold job `n` than are in flight. */
  lemma {:induction false} HoldersInFlight(ws: seq<Worker>, n: nat)
    ensures Count(ws, Holds(n)) <= Count(ws, InFlight)
  {
    if ws != [] { HoldersInFlight(ws[..|ws| - 1], n); }
  }

  // ----- invariant -----

  function Upto(n: nat): seq<nat> {
    seq(n, i => i)
  }

  /** Jobs counted plus the one being added are the jobs queued plus the ones in flight. */
  predicate Accounted(p: Pool) {
    p.left + (if p.lock == Adder then 1 else 0) == |p.queue| + Count(p.workers, InFlight)
  }

  /** The queue lock is held by the one worker that is choosing; whoever means to pop finds a job. */
  ghost predicate Locked(p: Pool) {
    && (p.lock == Adder ==> p.queue != [])
    && (forall w :: 0 <= w < |p.workers| ==> (p.workers[w].Chosen? <==> p.lock == Taker(w)))
    && (forall w :: 0 <= w < |p.workers| && p.workers[w] == Chosen(true) ==> p.queue != [])
    && (p.lock.Taker? ==> p.lock.w < |p.workers|)
  }

  /** Jobs leave the queue in the order they were added. */
  predicate InOrder(p: Pool) {
    p.started + p.queue == Upto(|p.runs|)
  }

  /** A job that was popped is in the hands of one worker or has run once; one still queued has not run. */
  ghost predicate Tracked(p: Pool) {
    forall n :: 0 <= n < |p.runs| ==>
      p.runs[n] + Count(p.workers, Holds(n)) == if n < |p.started| then 1 else 0
  }

  ghost predicate HeldKnown(p: Pool) {
    forall w :: 0 <= w < |p.workers| && p.workers[w].Busy? && p.workers[w].job.Real? ==> p.workers[w].job.n < |p.runs|
  }

  ghost predicate Invariant(p: Pool) {
    Accounted(p) && Locked(p) && InOrder(p) && Tracked(p) && HeldKnown(p)
  }

  // ----- every step keeps it -----

  lemma QueueAt(p: Pool, i: nat)
    requires InOrder(p) && i < |p.queue|
    ensures |p.started| + |p.queue| == |p.runs| && p.queue[i] == |p.started| + i
  {
    assert (p.started + p.queue)[|p.started| + i] == p.queue[i];
    assert Upto(|p.runs|)[|p.started| + i] == |p.started| + i;
  }

  /** A worker moves between states that hold no job. */
  lemma HoldsNothing(p: Pool, w: nat, x: Worker)
    requires w < |p.workers| && !(p.workers[w].Busy? && p.workers[w].job.Real?) && !(x.Busy? && x.job.Real?)
    ensures forall n :: Count(p.workers[w := x], Holds(n)) == Count(p.workers, Holds(n))
  {
    forall n
      ensures Count(p.workers[w := x], Holds(n)) == Count(p.workers, Holds(n))
    {
      CountUpdate(p.workers, Holds(n), w, x);
    }
  }

  lemma EnqueueKeeps(p: Pool)
    requires Invariant(p) && Ready(p, Enqueue)
    ensures Invariant(Move(p, Enqueue))
  {
    hide Count;
    var p' := Move(p, Enqueue);
    var n := |p.runs|;
    assert Upto(n + 1) == Upto(n) + [n];
    assert p'.started + p'.queue == (p.started + p.queue) + [n];
    assert |p.started| <= n by { assert |p.started + p.queue| == |Upto(n)|; }
    assert Count(p.workers, Holds(n)) == 0 by { CountNone(p.workers, Holds(n)); }
  }

  lemma LookKeeps(p: Pool, w: nat)
    requires Invariant(p) && Ready(p, Look(w))
    ensures Invariant(Move(p, Look(w)))
  {
    hide Count;
    var x := if p.bailout then Exited else Wanting;
    CountUpdate(p.workers, InFlight, w, x);
    HoldsNothing(p, w, x);
  }

  lemma ChooseKeeps(p: Pool, w: nat)
    requires Invariant(p) && Ready(p, Choose(w))
    ensures Invariant(Move(p, Choose(w)))
  {
    hide Count;
    CountUpdate(p.workers, InFlight, w, Chosen(!p.bailout));
    HoldsNothing(p, w, Chosen(!p.bailout));
  }

  lemma InjectKeeps(p: Pool, w: nat)
    requires Invariant(p) && Ready(p, Take(w)) && !p.workers[w].popping
    ensures Invariant(Move(p, Take(w)))
  {
    hide Count;
    CountUpdate(p.workers, InFlight, w, Busy(Injected));
    HoldsNothing(p, w, Busy(Injected));
  }

  lemma PopKeeps(p: Pool, w: nat)
    requires Invariant(p) && Ready(p, Take(w)) && p.workers[w].popping
    ensures Invariant(Move(p, Take(w)))
    ensures Move(p, Take(w)).started == p.started + [|p.started|]
  {
    hide Count;
    var p' := Move(p, Take(w));
    var job := p.queue[0];
    QueueAt(p, 0);
    CountUpdate(p.workers, InFlight, w, Busy(Real(job)));
    assert p'.started + p'.queue == p.started + p.queue;
    assert Tracked(p') by {
      forall n | 0 <= n < |p'.runs|
        ensures p'.runs[n] + Count(p'.workers, Holds(n)) == if n < |p'.started| then 1 else 0
      {
        CountUpdate(p.workers, Holds(n), w, Busy(Real(job)));
      }
    }
    assert Locked(p');
  }

  lemma RunKeeps(p: Pool, w: nat)
    requires Invariant(p) && Ready(p, RunJob(w))
    ensures Invariant(Move(p, RunJob(w)))
  {
    hide Count;
    var p' := Move(p, RunJob(w));
    CountUpdate(p.workers, InFlight, w, Ran);
    assert Tracked(p') by {
      forall n | 0 <= n < |p'.runs|
        ensures p'.runs[n] + Count(p'.workers, Holds(n)) == if n < |p'.started| then 1 else 0
      {
        CountUpdate(p.workers, Holds(n), w, Ran);
      }
    }
  }

  lemma CountDoneKeeps(p: Pool, w: nat)
    requires Invariant(p) && Ready(p, CountDone(w))
    ensures Invariant(Move(p, CountDone(w)))
  {
    hide Count;
    CountUpdate(p.workers, InFlight, w, Top);
    HoldsNothing(p, w, Top);
  }

  lemma StepKeeps(p: Pool, s: Step)
    requires Invariant(p) && Ready(p, s)
    ensures Invariant(Move(p, s))
  {
    hide Count;
    match s
    case Enqueue => EnqueueKeeps(p);
    case Look(w) => LookKeeps(p, w);
    case Choose(w) => ChooseKeeps(p, w);
    case Take(w) => if p.workers[w].popping { PopKeeps(p, w); } else { InjectKeeps(p, w); }
    case RunJob(w) => RunKeeps(p, w);
    case CountDone(w) => CountDoneKeeps(p, w);
    case CountJob =>
    case CallJoin(wait) =>
    case SeeZero =>
    case SetBailout =>
    case JoinThreads =>
  }

  // ----- runs -----

  predicate IsRun(p: Pool, q: seq<Step>)
    decreases |q|
  {
    q == [] || (Ready(p, q[0]) && IsRun(Move(p, q[0]), q[1..]))
  }

  function After(p: Pool, q: seq<Step>): Pool
    requires IsRun(p, q)
    decreases |q|
  {
    if q == [] then p else After(Move(p, q[0]), q[1..])
  }

  lemma {:induction false} RunKeepsInvariant(p: Pool, q: seq<Step>)
    requires Invariant(p) && IsRun(p, q)
    ensures Invariant(After(p, q))
    decreases |q|
  {
    hide Invariant, Move, Ready;
    if q != [] {
      StepKeeps(p, q[0]);
      RunKeepsInvariant(Move(p, q[0]), q[1..]);
    }
  }

  lemma FreshHolds(threads: nat)
    ensures Invariant(Fresh(threads))
  {
    CountNone(Fresh(threads).workers, InFlight);
  }

  /** Over every interleaving: the count is exact, jobs start in the order added, and none runs twice. */
  lemma ReachablePool(threads: nat, q: seq<Step>)
    requires IsRun(Fresh(threads), q)
    ensures var p := After(Fresh(threads), q);
            && p.left + (if p.lock == Adder then 1 else 0) == |p.queue| + Count(p.workers, InFlight)
            && p.left >= 0
            && p.started == Upto(|p.started|) && |p.started| + |p.queue| == |p.runs|
            && forall n :: 0 <= n < |p.runs| ==> p.runs[n] <= if n < |p.started| then 1 else 0
  {
    hide Count;
    FreshHolds(threads);
    RunKeepsInvariant(Fresh(threads), q);
    var p := After(Fresh(threads), q);
    assert |p.started + p.queue| == |Upto(|p.runs|)|;
    forall i | 0 <= i < |p.started|
      ensures p.started[i] == i
    {
      assert (p.started + p.queue)[i] == Upto(|p.runs|)[i];
    }
  }

  // ----- joining -----

  /** `JoinAll` was asked to wait, and nothing was added since it was called. */
  ghost predicate Waited(p: Pool) {
    && (p.joiner != Away ==> p.lock != Adder)
    && (p.joiner == Passed || p.joiner == Joining || p.joiner == Joined ==> Settled(p))
    && (p.bailout ==> p.joiner == Joining || p.joiner == Joined)
  }

  /** Every job added has run exactly once. */
  ghost predicate AllRan(p: Pool) {
    forall n :: 0 <= n < |p.runs| ==> p.runs[n] == 1
  }

  ghost predicate Settled(p: Pool) {
    p.queue == [] && AllRan(p)
  }

  /** No `AddJob` overlaps the waiting `JoinAll`. */
  predicate Undisturbed(p: Pool, s: Step) {
    && (s == Enqueue ==> p.joiner == Away)
    && (s.CallJoin? ==> s.wait && p.lock != Adder)
  }

  lemma ZeroMeansSettled(p: Pool)
    requires Invariant(p) && p.left <= 0 && p.lock != Adder
    ensures Settled(p)
  {
    hide Count;
    assert |p.started + p.queue| == |Upto(|p.runs|)|;
    forall n | 0 <= n < |p.runs|
      ensures p.runs[n] == 1
    {
      HoldersInFlight(p.workers, n);
    }
  }

  lemma WaitedStep(p: Pool, s: Step)
    requires Invariant(p) && Waited(p) && Ready(p, s) && Undisturbed(p, s)
    ensures Waited(Move(p, s))
  {
    hide Count;
    match s
    case SeeZero => ZeroMeansSettled(p);
    case RunJob(w) =>
      if p.workers[w].job.Real? && p.joiner != Away && p.joiner != Checking {
        var n := p.workers[w].job.n;
        HolderCounts(p.workers, w, n);
        assert false;
      }
    case Take(w) =>
    case Enqueue =>
    case CountJob =>
    case Look(w) =>
    case Choose(w) =>
    case CountDone(w) =>
    case CallJoin(wait) =>
    case SetBailout =>
    case JoinThreads =>
  }

  lemma {:induction false} HolderCounts(ws: seq<Worker>, w: nat, n: nat)
    requires w < |ws| && ws[w] == Busy(Real(n))
    ensures Count(ws, Holds(n)) >= 1
  {
    if w < |ws| - 1 { HolderCounts(ws[..|ws| - 1], w, n); }
  }

  predicate UndisturbedRun(p: Pool, q: seq<Step>)
    requires IsRun(p, q)
    decreases |q|
  {
    q == [] || (Undisturbed(p, q[0]) && UndisturbedRun(Move(p, q[0]), q[1..]))
  }

  lemma {:induction false} WaitedRun(p: Pool, q: seq<Step>)
    requires Invariant(p) && Waited(p) && IsRun(p, q) && UndisturbedRun(p, q)
    ensures Waited(After(p, q))
    decreases |q|
  {
    hide Invariant, Waited, Undisturbed, Move, Ready;
    if q != [] {
      StepKeeps(p, q[0]);
      WaitedStep(p, q[0]);
      WaitedRun(Move(p, q[0]), q[1..]);
    }
  }

  /** A waiting `JoinAll` that no `AddJob` overlaps bails out only after every job has run exactly once. */
  lemma JoinAllWaits(threads: nat, q: seq<Step>)
    requires IsRun(Fresh(threads), q) && UndisturbedRun(Fresh(threads), q)
    ensures var p := After(Fresh(threads), q);
            p.bailout ==> p.queue == [] && AllRan(p)
  {
    FreshHolds(threads);
    WaitedRun(Fresh(threads), q);
  }

  /** Pops that were decided before the flag was set and not made yet. */
  function PendingPops(p: Pool): nat {
    if p.lock.Taker? && p.lock.w < |p.workers| && p.workers[p.lock.w] == Chosen(true) then 1 else 0
  }

  lemma BailoutStep(p: Pool, s: Step)
    requires Invariant(p) && p.bailout && Ready(p, s)
    ensures Move(p, s).bailout
    ensures |Move(p, s).queue| - PendingPops(Move(p, s)) == |p.queue| - PendingPops(p) + if s == Enqueue then 1 else 0
  {
    hide Count;
  }

  /** How many jobs a run adds. */
  function Adds(q: seq<Step>): nat {
    if q == [] then 0 else (if q[0] == Enqueue then 1 else 0) + Adds(q[1..])
  }

  lemma {:induction false} AddsNone(q: seq<Step>)
    ensures Adds(q) == 0 <==> Enqueue !in q
  {
    if q != [] { AddsNone(q[1..]); }
  }

  lemma {:induction false} BailoutRun(p: Pool, q: seq<Step>)
    requires Invariant(p) && p.bailout && IsRun(p, q)
    ensures |After(p, q).queue| - PendingPops(After(p, q)) == |p.queue| - PendingPops(p) + Adds(q)
    decreases |q|
  {
    hide Invariant, PendingPops, Move, Ready;
    if q != [] {
      StepKeeps(p, q[0]);
      BailoutStep(p, q[0]);
      BailoutRun(Move(p, q[0]), q[1..]);
    }
  }

  lemma PendingHasJob(p: Pool)
    requires Invariant(p)
    ensures PendingPops(p) <= |p.queue|
  {
  }

  /** Once no worker is left every job has run exactly when none is queued. */
  lemma ExitedSettledIff(p: Pool)
    requires Invariant(p) && forall w :: 0 <= w < |p.workers| ==> p.workers[w] == Exited
    ensures AllRan(p) <==> p.queue == []
  {
    hide Count;
    assert |p.started + p.queue| == |Upto(|p.runs|)|;
    forall n | 0 <= n < |p.runs|
      ensures p.runs[n] == if n < |p.started| then 1 else 0
    {
      CountNone(p.workers, Holds(n));
    }
    if p.queue != [] { assert p.runs[|p.started|] == 0; }
  }

  /**
   * However `JoinAll` was called and whatever is added meanwhile: after joining, every job ever added has run once
   * exactly when, at the moment the flag was set, the queue held no more than the job a worker was already about to
   * pop, and no job was added from then on.
   */
  lemma JoinedAllRanIff(threads: nat, before: seq<Step>, q: seq<Step>)
    requires IsRun(Fresh(threads), before) && Ready(After(Fresh(threads), before), SetBailout)
    requires IsRun(Move(After(Fresh(threads), before), SetBailout), q)
    ensures var p := After(Fresh(threads), before);
            var end := After(Move(p, SetBailout), q);
            end.joiner == Joined ==>
              (AllRan(end) <==> |p.queue| == PendingPops(p) && Enqueue !in q)
  {
    hide Invariant, IsRun, After, Move, Ready, AllRan;
    JoinedQueueEmptyIff(threads, before, q);
    var p := After(Fresh(threads), before);
    var end := After(Move(p, SetBailout), q);
    if end.joiner == Joined {
      FreshHolds(threads);
      RunKeepsInvariant(Fresh(threads), before);
      StepKeeps(p, SetBailout);
      RunKeepsInvariant(Move(p, SetBailout), q);
      FlaggedNotJoined(p);
      JoinedMeansExited(Move(p, SetBailout), q);
      ExitedSettledIff(end);
    }
  }

  lemma FlaggedNotJoined(p: Pool)
    requires Ready(p, SetBailout)
    ensures JoinedAllExited(Move(p, SetBailout)) && Move(p, SetBailout).bailout
    ensures Move(p, SetBailout).queue == p.queue && PendingPops(Move(p, SetBailout)) == PendingPops(p)
  {
  }

  /** The same for the queue: it is empty after joining exactly then. */
  lemma JoinedQueueEmptyIff(threads: nat, before: seq<Step>, q: seq<Step>)
    requires IsRun(Fresh(threads), before) && Ready(After(Fresh(threads), before), SetBailout)
    requires IsRun(Move(After(Fresh(threads), before), SetBailout), q)
    ensures var p := After(Fresh(threads), before);
            var end := After(Move(p, SetBailout), q);
            end.joiner == Joined ==> (end.queue == [] <==> |p.queue| == PendingPops(p) && Enqueue !in q)
  {
    hide Invariant, IsRun, After, Move, Ready;
    var p := After(Fresh(threads), before);
    FreshHolds(threads);
    RunKeepsInvariant(Fresh(threads), before);
    StepKeeps(p, SetBailout);
    PendingHasJob(p);
    FlaggedNotJoined(p);
    BailoutRun(Move(p, SetBailout), q);
    AddsNone(q);
    JoinedMeansExited(Move(p, SetBailout), q);
  }

  ghost predicate JoinedAllExited(p: Pool) {
    p.joiner == Joined ==> forall w :: 0 <= w < |p.workers| ==> p.workers[w] == Exited
  }

  lemma {:induction false} JoinedMeansExited(p: Pool, q: seq<Step>)
    requires JoinedAllExited(p) && IsRun(p, q)
    ensures JoinedAllExited(After(p, q))
    decreases |q|
  {
    if q != [] { JoinedMeansExited(Move(p, q[0]), q[1..]); }
  }

  /** Extending a run by one more step at its end. */
  lemma {:induction false} RunSnoc(p: Pool, q: seq<Step>, s: Step)
    requires IsRun(p, q) && Ready(After(p, q), s)
    ensures IsRun(p, q + [s]) && After(p, q + [s]) == Move(After(p, q), s)
    decreases |q|
  {
    hide Ready, Move;
    if q == [] {
      assert q + [s] == [s] && [s][1..] == [];
    } else {
      RunSnoc(Move(p, q[0]), q[1..], s);
      assert (q + [s])[1..] == q[1..] + [s];
    }
  }

  /** A pool of one worker that has not started, holding one job, when the flag is set. */
  lemma NothingMoreRuns(p: Pool, q: seq<Step>) returns (all: seq<Step>)
    requires IsRun(p, q) && After(p, q).workers == [Top] && After(p, q).joiner == Passed
    ensures IsRun(p, all) && all == q + [SetBailout] + [Look(0)] + [JoinThreads]
    ensures After(p, all).joiner == Joined && After(p, all).queue == After(p, q).queue
    ensures After(p, all).runs == After(p, q).runs
  {
    RunSnoc(p, q, SetBailout);
    RunSnoc(p, q + [SetBailout], Look(0));
    RunSnoc(p, q + [SetBailout] + [Look(0)], JoinThreads);
    all := q + [SetBailout] + [Look(0)] + [JoinThreads];
  }

  lemma EmptyRun(p: Pool)
    ensures IsRun(p, []) && After(p, []) == p
  {
  }

  /** The documentation says the queue is empty after `JoinAll`; without waiting it need not be. */
  lemma JoinedQueueCanHoldJobs() returns (q: seq<Step>)
    ensures IsRun(Fresh(1), q) && After(Fresh(1), q).joiner == Joined && After(Fresh(1), q).queue != []
  {
    hide IsRun, After;
    var p := Fresh(1);
    EmptyRun(p);
    q := [];
    RunSnoc(p, q, Enqueue);
    q := q + [Enqueue];
    RunSnoc(p, q, CountJob);
    q := q + [CountJob];
    RunSnoc(p, q, CallJoin(false));
    q := q + [CallJoin(false)];
    q := NothingMoreRuns(p, q);
  }

  /** A job added while a waiting `JoinAll` is past its wait may never run. */
  lemma OverlappingAddCanBeLost() returns (q: seq<Step>)
    ensures IsRun(Fresh(1), q) && CallJoin(false) !in q
    ensures After(Fresh(1), q).joiner == Joined && After(Fresh(1), q).runs == [0]
  {
    hide IsRun, After;
    var p := Fresh(1);
    EmptyRun(p);
    q := [];
    RunSnoc(p, q, CallJoin(true));
    q := q + [CallJoin(true)];
    RunSnoc(p, q, SeeZero);
    q := q + [SeeZero];
    RunSnoc(p, q, Enqueue);
    q := q + [Enqueue];
    RunSnoc(p, q, CountJob);
    q := q + [CountJob];
    q := NothingMoreRuns(p, q);
  }
}
