/** The tree with as few agents as possible: `launch_tree1`. */
module LaunchVariants {
  import opened SortedSets
  import opened Ranges
  import opened Groups
  import opened Arithmetic
  import opened Launch
  import opened AgentNumbers
  import opened LaunchTrees
  import opened Tables
  import opened Runs
  import opened Delivery
  import opened Sessions
  import opened Deployments
  import opened DistributedGroups
  import opened Launcher

  /** Ceiling division by case distinction on the remainder. */
  function RoundedDiv(n: nat, m: nat): nat
    requires m > 0
  {
    if n % m == 0 then n / m else (n - n % m) / m + 1
  }

  lemma RoundedIsCeil(n: nat, m: nat)
    requires m > 0
    ensures RoundedDiv(n, m) == CeilDiv(n, m) && CeilDiv(n, m) * m >= n
  {
    hide CeilDiv;
    CeilDivIs(n, m);
    var q, r := n / m, n % m;
    CeilCovers(n, m, q, r);
  }

  lemma CeilCovers(n: nat, m: nat, q: nat, r: nat)
    requires m > 0 && q == n / m && r == n % m
    ensures (n - r) / m == q && (q + if r > 0 then 1 else 0) * m >= n
  {
    assert n == q * m + r;
    DivModUnique(n - r, m, q, 0);
    assert (q + 1) * m == q * m + m;
  }

  /** Equal chunks, the last one possibly smaller. */
  function Chunks(n: nat, step: nat): seq<nat>
    requires step > 0
  {
    if n == 0 then [] else
      var s := if n < step then n else step;
      [s] + Chunks(n - s, step)
  }

  lemma CeilStep(n: nat, step: nat)
    requires step > 0
    ensures 0 < n < step ==> CeilDiv(n, step) == 1
    ensures step <= n ==> CeilDiv(n, step) == 1 + CeilDiv(n - step, step)
    ensures CeilDiv(0, step) == 0
  {
    DivModUnique(step - 1, step, 0, step - 1);
    if n >= step {
      DivShift(n - 1, step);
    } else if n > 0 {
      DivModUnique(n + step - 1, step, 1, n - 1);
    }
  }

  lemma {:induction false} ChunksExact(n: nat, step: nat)
    requires step > 0
    ensures Sum(Chunks(n, step)) == n && |Chunks(n, step)| == CeilDiv(n, step)
    ensures forall i :: 0 <= i < |Chunks(n, step)| ==> 0 < Chunks(n, step)[i] <= step
    ensures forall i :: 0 <= i < |Chunks(n, step)| - 1 ==> Chunks(n, step)[i] == step
    decreases n
  {
    hide CeilDiv;
    CeilStep(n, step);
    if n > 0 {
      var s := if n < step then n else step;
      ChunksExact(n - s, step);
      CeilStep(0, step);
      assert Chunks(n, step)[1..] == Chunks(n - s, step);
    }
  }

  /** The width of the subtrees one level down; `ceil(pow(..))` of a negative exponent is one. */
  function Stride(fanOut: nat, levels: int): nat {
    if levels <= 0 then 1 else Pow(fanOut, levels - 1)
  }

  function Step1(n: nat, fanOut: nat, levels: int): nat
    requires n > 0 && fanOut > 0
    ensures Step1(n, fanOut, levels) > 0
  {
    PowPositive(fanOut, if levels <= 0 then 0 else levels - 1);
    var stride := Stride(fanOut, levels);
    RoundedIsCeil(n, stride);
    CeilDivIs(n, stride);
    var divf := RoundedDiv(n, stride);
    RoundedIsCeil(n, divf);
    CeilDivIs(n, divf);
    RoundedDiv(n, divf)
  }

  /**
   * The chunks are the smallest with which the fewest agents suffice: `d` agents could take them all with subtrees of
   * the width for their level, fewer could not, and with a smaller step it would take more agents.
   */
  lemma Step1Least(n: nat, fanOut: nat, levels: int)
    requires n > 0 && fanOut > 0
    ensures var stride, step := Stride(fanOut, levels), Step1(n, fanOut, levels);
            && (if levels <= 0 then stride == 1 else stride > 0 && fanOut * stride == Pow(fanOut, levels))
            && (var d := CeilDiv(n, stride);
                && d * stride >= n && (d - 1) * stride < n
                && step * d >= n && (step - 1) * d < n)
  {
    PowPositive(fanOut, if levels <= 0 then 0 else levels - 1);
    var stride := Stride(fanOut, levels);
    var d := CeilDiv(n, stride);
    RoundedIsCeil(n, stride);
    CeilDivIs(n, stride);
    CeilTight(n, stride);
    RoundedIsCeil(n, d);
    CeilTight(n, d);
  }

  lemma CeilTight(n: nat, m: nat)
    requires n > 0 && m > 0
    ensures (CeilDiv(n, m) - 1) * m < n
  {
    CeilDivIs(n, m);
    var q, r := n / m, n % m;
    assert n == q * m + r;
    assert r == 0 ==> (q - 1) * m == q * m - m;
  }

  /**
   * If a node with `levels` levels below it has at most fanOut^levels back ends, it makes at most fanOut agents and
   * each of them again has at most fanOut^(levels - 1): the number of levels is a termination measure.
   */
  lemma Tree1Split(n: nat, fanOut: nat, levels: nat)
    requires fanOut > 0 && fanOut < n <= Pow(fanOut, levels)
    ensures levels >= 2
    ensures var step := Step1(n, fanOut, levels);
            && step <= Pow(fanOut, levels - 1)
            && |Chunks(n, step)| <= fanOut
            && (forall i :: 0 <= i < |Chunks(n, step)| ==> 0 < Chunks(n, step)[i] <= Pow(fanOut, levels - 1))
  {
    assert Pow(fanOut, 0) == 1;
    assert Pow(fanOut, 1) == fanOut * Pow(fanOut, 0) == fanOut;
    var stride := Stride(fanOut, levels);
    PowPositive(fanOut, levels - 1);
    assert stride == Pow(fanOut, levels - 1) && n <= fanOut * stride == stride * fanOut;
    var divf := CeilDiv(n, stride);
    RoundedIsCeil(n, stride);
    CeilDivIs(n, stride);
    ShareBound(n, stride, fanOut);
    var step := CeilDiv(n, divf);
    RoundedIsCeil(n, divf);
    CeilDivIs(n, divf);
    assert n <= divf * stride;
    ShareBound(n, divf, stride);
    ChunksExact(n, step);
    CeilDivIs(n, step);
    assert n <= step * divf;
    ShareBound(n, step, divf);
  }

  /** The tree of `launch_tree1`: back ends only once they fit, otherwise agents with equal chunks. */
  function Tree1(a: int, lo: int, n: nat, fanOut: nat, levels: nat): Node
    requires fanOut > 0 && n <= Pow(fanOut, levels)
    decreases levels, 1, 0
  {
    if n <= fanOut then Agent(a, Attached(lo, n))
    else
      Tree1Split(n, fanOut, levels);
      Agent(a, Children1(FirstAgent(a, fanOut), lo, Chunks(n, Step1(n, fanOut, levels)), fanOut, levels))
  }

  function Attached(lo: int, n: nat): seq<Node>
    decreases n
  {
    if n == 0 then [] else [BackEnd(lo)] + Attached(lo + 1, n - 1)
  }

  function Children1(next: int, lo: int, chunks: seq<nat>, fanOut: nat, levels: nat): seq<Node>
    requires fanOut > 0 && levels > 0
    requires forall i :: 0 <= i < |chunks| ==> chunks[i] <= Pow(fanOut, levels - 1)
    decreases levels, 0, |chunks|
  {
    if chunks == [] then []
    else [Tree1(next, lo, chunks[0], fanOut, levels - 1)]
         + Children1(next - 1, lo + chunks[0], chunks[1..], fanOut, levels)
  }

  lemma {:induction false} AttachedExact(lo: int, n: nat)
    ensures LeavesOf(Attached(lo, n)) == Span(lo, lo + n) && DepthOf(Attached(lo, n)) == 0
    decreases n
  {
    if n > 0 {
      AttachedExact(lo + 1, n - 1);
      ConsLeaves(BackEnd(lo), Attached(lo + 1, n - 1));
      ConsDepth(BackEnd(lo), Attached(lo + 1, n - 1));
      SpanStep(lo, lo + n);
    }
  }

  /** This tree too has every back end as a leaf exactly once, and no more levels than allowed for. */
  lemma {:induction false} Tree1Leaves(a: int, lo: int, n: nat, fanOut: nat, levels: nat)
    requires fanOut > 0 && n <= Pow(fanOut, levels)
    ensures Leaves(Tree1(a, lo, n, fanOut, levels)) == Span(lo, lo + n)
    ensures Depth(Tree1(a, lo, n, fanOut, levels)) <= if levels == 0 then 1 else levels
    decreases levels, 1, 0
  {
    if n <= fanOut {
      AttachedExact(lo, n);
    } else {
      Tree1Split(n, fanOut, levels);
      var step := Step1(n, fanOut, levels);
      ChunksExact(n, step);
      Children1Leaves(FirstAgent(a, fanOut), lo, Chunks(n, step), fanOut, levels);
    }
  }

  lemma {:induction false} Children1Leaves(next: int, lo: int, chunks: seq<nat>, fanOut: nat, levels: nat)
    requires fanOut > 0 && levels >= 2
    requires forall i :: 0 <= i < |chunks| ==> chunks[i] <= Pow(fanOut, levels - 1)
    ensures LeavesOf(Children1(next, lo, chunks, fanOut, levels)) == Span(lo, lo + Sum(chunks))
    ensures DepthOf(Children1(next, lo, chunks, fanOut, levels)) <= levels - 1
    decreases levels, 0, |chunks|
  {
    hide Tree1, Span, Pow, Leaves, LeavesOf, Depth, DepthOf;
    if chunks == [] {
      EmptySpan(lo);
      NoDepth();
      NoLeaves();
    } else {
      var s, rest := chunks[0], chunks[1..];
      Tree1Leaves(next, lo, s, fanOut, levels - 1);
      Children1Leaves(next - 1, lo + s, rest, fanOut, levels);
      var t, ts := Tree1(next, lo, s, fanOut, levels - 1), Children1(next - 1, lo + s, rest, fanOut, levels);
      ConsLeaves(t, ts);
      ConsDepth(t, ts);
      SpanJoin(lo, lo + s, lo + Sum(chunks));
    }
  }

  /** The agents of this tree are numbered like those of the others. */
  lemma {:induction false} Tree1Numbered(a: int, lo: int, n: nat, fanOut: nat, levels: nat)
    requires fanOut > 0 && n <= Pow(fanOut, levels)
    ensures Numbered(Tree1(a, lo, n, fanOut, levels), fanOut)
    decreases levels, 1, 0
  {
    if n <= fanOut {
      AttachedNumbered(lo, n, FirstAgent(a, fanOut), fanOut);
    } else {
      Tree1Split(n, fanOut, levels);
      Children1Numbered(FirstAgent(a, fanOut), lo, Chunks(n, Step1(n, fanOut, levels)), fanOut, levels);
    }
  }

  lemma {:induction false} AttachedNumbered(lo: int, n: nat, next: int, fanOut: nat)
    ensures AgentCount(Attached(lo, n)) == 0 && NumberedFrom(Attached(lo, n), next, fanOut)
    decreases n
  {
    if n > 0 {
      AttachedNumbered(lo + 1, n - 1, next, fanOut);
      assert Attached(lo, n)[1..] == Attached(lo + 1, n - 1);
    }
  }

  lemma {:induction false} Children1Numbered(next: int, lo: int, chunks: seq<nat>, fanOut: nat, levels: nat)
    requires fanOut > 0 && levels >= 2
    requires forall i :: 0 <= i < |chunks| ==> chunks[i] <= Pow(fanOut, levels - 1)
    ensures AgentCount(Children1(next, lo, chunks, fanOut, levels)) == |chunks|
    ensures NumberedFrom(Children1(next, lo, chunks, fanOut, levels), next, fanOut)
    decreases levels, 0, |chunks|
  {
    hide Pow, Tree1, Numbered, Leaves, NumberedFrom, AgentCount;
    if chunks == [] {
      NoneNumbered(next, fanOut);
    } else {
      var s, rest := chunks[0], chunks[1..];
      Tree1Numbered(next, lo, s, fanOut, levels - 1);
      Tree1IsAgent(next, lo, s, fanOut, levels - 1);
      Children1Numbered(next - 1, lo + s, rest, fanOut, levels);
      ConsNumbered(Tree1(next, lo, s, fanOut, levels - 1), Children1(next - 1, lo + s, rest, fanOut, levels), fanOut);
    }
  }

  lemma Tree1IsAgent(a: int, lo: int, n: nat, fanOut: nat, levels: nat)
    requires fanOut > 0 && n <= Pow(fanOut, levels)
    ensures Tree1(a, lo, n, fanOut, levels).Agent? && Tree1(a, lo, n, fanOut, levels).id == a
    ensures Leaves(Tree1(a, lo, n, fanOut, levels)) == Span(lo, lo + n)
  {
    Tree1Leaves(a, lo, n, fanOut, levels);
  }

  // ----- the loop of launch_tree1 -----

  function AgentSteps(next: int, lo: int, chunks: seq<nat>): seq<Step>
    decreases |chunks|
  {
    if chunks == [] then []
    else [InitSubGroupStep(next, lo, lo + chunks[0] - 1)] + AgentSteps(next - 1, lo + chunks[0], chunks[1..])
  }

  function AgentPlan(next: int, lo: int, chunks: seq<nat>, m: map<int, string>): seq<Launched>
    decreases |chunks|
  {
    if chunks == [] then []
    else [LaunchAgent(next, Share(m, lo, chunks[0]))] + AgentPlan(next - 1, lo + chunks[0], chunks[1..], m)
  }

  lemma {:induction false} AgentPlanLength(next: int, lo: int, chunks: seq<nat>, m: map<int, string>)
    ensures |AgentPlan(next, lo, chunks, m)| == |chunks|
    decreases |chunks|
  {
    if chunks != [] { AgentPlanLength(next - 1, lo + chunks[0], chunks[1..], m); }
  }

  /**
   * Giving every agent a chunk is an allowed run of the routing table, unless an agent gets the reserved id where that
   * is already in use. In any case every agent is filed with its chunk.
   */
  lemma {:induction false} AgentStepsAreRun(t: Table, next: int, lo: int, chunks: seq<nat>, fanOut: nat, levels: nat)
    requires fanOut > 0 && levels >= 2 && Unassigned(t.groups, next, lo)
    requires forall i :: 0 <= i < |chunks| ==> 0 < chunks[i] <= Pow(fanOut, levels - 1)
    ensures IsRun(t, AgentSteps(next, lo, chunks))
            <==> Fits(VALIDBACKENDIDS in SlicesOf(t.groups, SCI_GROUP_ALL), Children1(next, lo, chunks, fanOut, levels))
    ensures SlicesOf(Run(t, AgentSteps(next, lo, chunks)).groups, SCI_GROUP_ALL)
            == FileAll(SlicesOf(t.groups, SCI_GROUP_ALL), Children1(next, lo, chunks, fanOut, levels))
    decreases |chunks|
  {
    hide Apply, Allowed, Unassigned, SlicesOf, FileChild, Tree1, Pow, Fits;
    var inUse := VALIDBACKENDIDS in SlicesOf(t.groups, SCI_GROUP_ALL);
    if chunks == [] {
      NoneFit(inUse);
    } else {
      var s, rest := chunks[0], chunks[1..];
      var steps := AgentSteps(next, lo, chunks);
      var ts := Children1(next - 1, lo + s, rest, fanOut, levels);
      var first := Tree1(next, lo, s, fanOut, levels - 1);
      Tree1IsAgent(next, lo, s, fanOut, levels - 1);
      FitsFirst(inUse, first, ts);
      AgentStep(t, next, lo, s);
      assert steps[1..] == AgentSteps(next - 1, lo + s, rest);
      AgentStepsAreRun(Apply(t, steps[0]), next - 1, lo + s, rest, fanOut, levels);
      AgentFiled(SlicesOf(t.groups, SCI_GROUP_ALL), first, lo, s);
      FileFirst(SlicesOf(t.groups, SCI_GROUP_ALL), first, ts);
      HandleFiled(SlicesOf(t.groups, SCI_GROUP_ALL), first);
    }
  }

  lemma {:induction false} AgentStepsModest(t: Table, next: int, lo: int, chunks: seq<nat>)
    requires Modest(t) && lo >= 0
    ensures Modest(Run(t, AgentSteps(next, lo, chunks)))
    decreases |chunks|
  {
    hide Apply, Modest;
    if chunks != [] {
      var steps := AgentSteps(next, lo, chunks);
      assert steps[1..] == AgentSteps(next - 1, lo + chunks[0], chunks[1..]);
      AgentModest(t, next, lo, lo + chunks[0] - 1);
      AgentStepsModest(Apply(t, steps[0]), next - 1, lo + chunks[0], chunks[1..]);
    }
  }

  /**
   * `launch_tree1` at one node. The reference count kept on the filter list is one more than the number of children,
   * and the children take consecutive chunks (or are the back ends themselves once they fit).
   */
  method LaunchTree1(d: DistributedGroup, agentID: int, m: map<int, string>, fanOut: nat, levels: int, ghost lo: int)
    returns (launched: seq<Launched>, ref: nat)
    requires d.Valid() && Contiguous(m, lo) && |m| > 0 && fanOut >= 1
    modifies d
    ensures d.Valid() && d.parentId == old(d.parentId)
    ensures |m| <= fanOut ==>
              && d.View() == Tables.InitSubGroup(old(d.View()), VALIDBACKENDIDS, lo, lo + |m| - 1)
              && launched == seq(|m|, i => LaunchBE(lo + i, HostOf(m, lo + i)))
    ensures |m| > fanOut ==>
              var chunks := Chunks(|m|, Step1(|m|, fanOut, levels));
              && d.View() == Run(old(d.View()), AgentSteps(FirstAgent(agentID, fanOut), lo, chunks))
              && launched == AgentPlan(FirstAgent(agentID, fanOut), lo, chunks, m)
    ensures ref == |launched| + 1
    ensures AllHanded(launched, m)
  {
    hide AllHanded, HandsOut, Contiguous, Run, Apply, Tables.InitSubGroup, AgentPlan, AgentSteps, Chunks, Step1,
         CeilDiv;
    KeysSpan(m, lo);
    var totalSize := |m|;
    var initID := Enumerate(m.Keys)[0];
    launched := [];
    if totalSize <= fanOut {
      d.InitSubGroup(VALIDBACKENDIDS, initID, initID + totalSize - 1);
      ref := totalSize + 1;
      launched := LaunchBackEnds(m, initID);
      BackEndsHanded(launched, m, lo, 0);
      assert launched[0..] == launched;
      HandsEverything(launched, m, lo);
      return;
    }
    var step := Step1(totalSize, fanOut, levels);
    ref := CeilDiv(totalSize, step) + 1;
    ghost var view0 := d.View();
    launched := LaunchChunks(d, FirstAgent(agentID, fanOut), m, initID, step);
    ChunksExact(totalSize, step);
    AgentPlanLength(FirstAgent(agentID, fanOut), lo, Chunks(|m|, step), m);
    AgentPlanHanded(FirstAgent(agentID, fanOut), lo, Chunks(|m|, step), m, lo);
    HandsEverything(launched, m, lo);
  }

  lemma HandsEverything(launched: seq<Launched>, m: map<int, string>, lo: int)
    requires Contiguous(m, lo) && HandsOut(launched, m, lo, |m|)
    ensures AllHanded(launched, m)
  {
    hide Contiguous, HandsOut, Handed, HandedCount;
    HandsAll(launched, m, lo, |m|);
  }

  lemma {:induction false} AgentPlanHanded(next: int, at: int, chunks: seq<nat>, m: map<int, string>, lo: int)
    requires Contiguous(m, lo) && lo <= at && at + Sum(chunks) == lo + |m|
    ensures HandsOut(AgentPlan(next, at, chunks, m), m, at, Sum(chunks))
    decreases |chunks|
  {
    hide Contiguous, Share, HandsOut;
    if chunks == [] {
      HandsNothing(m, lo);
    } else {
      var s, rest := chunks[0], chunks[1..];
      AgentPlanHanded(next - 1, at + s, rest, m, lo);
      HandsAgent(next, AgentPlan(next - 1, at + s, rest, m), m, lo, at, s, Sum(rest));
    }
  }

  lemma {:induction false} BackEndsHanded(launched: seq<Launched>, m: map<int, string>, lo: int, i: nat)
    requires Contiguous(m, lo) && |launched| == |m| && i <= |m|
    requires forall k :: 0 <= k < |m| ==> launched[k] == LaunchBE(lo + k, HostOf(m, lo + k))
    ensures HandsOut(launched[i..], m, lo + i, |m| - i)
    decreases |m| - i
  {
    hide Contiguous, HostOf, HandsOut;
    if i == |m| {
      HandsNothing(m, lo);
      assert launched[i..] == [];
    } else {
      BackEndsHanded(launched, m, lo, i + 1);
      HandsBackEnd(launched[i + 1..], m, lo, lo + i, |m| - i - 1);
      assert launched[i..] == [launched[i]] + launched[i + 1..];
    }
  }

  /** Every back end of the map, in key order. */
  method LaunchBackEnds(m: map<int, string>, lo: int) returns (launched: seq<Launched>)
    requires Contiguous(m, lo)
    ensures launched == seq(|m|, i => LaunchBE(lo + i, HostOf(m, lo + i)))
  {
    launched := [];
    for i := 0 to |m|
      invariant |launched| == i
      invariant forall k :: 0 <= k < i ==> launched[k] == LaunchBE(lo + k, HostOf(m, lo + k))
    {
      assert Range(lo, lo + |m|).Has(lo + i);
      launched := launched + [LaunchBE(lo + i, m[lo + i])];
    }
  }

  method LaunchChunks(d: DistributedGroup, first: int, m: map<int, string>, lo: int, step: nat)
    returns (launched: seq<Launched>)
    requires d.Valid() && Contiguous(m, lo) && step > 0
    modifies d
    ensures d.Valid() && d.parentId == old(d.parentId)
    ensures d.View() == Run(old(d.View()), AgentSteps(first, lo, Chunks(|m|, step)))
    ensures launched == AgentPlan(first, lo, Chunks(|m|, step), m)
  {
    hide Tables.InitSubGroup, Contiguous, RestOf, Chunks;
    ghost var view0 := d.View();
    var next, i := first, 0;
    launched := [];
    RestStarts(view0, first, lo, |m|, step, m);
    while i < |m|
      invariant 0 <= i <= |m| && d.Valid() && d.parentId == old(d.parentId)
      invariant RestOf(d.View(), launched, next, lo + i, |m| - i, step, m, view0, first, lo)
    {
      var min := if |m| - i < step then |m| - i else step;
      RestRound(d.View(), launched, next, lo + i, |m| - i, step, m, view0, first, lo);
      d.InitSubGroup(next, lo + i, lo + i + min - 1);
      var hosts := TakeShare(m, lo, lo + i, min);
      launched := launched + [LaunchAgent(next, hosts)];
      next, i := next - 1, i + min;
    }
    RestDone(d.View(), launched, next, lo + i, step, m, view0, first, lo);
  }

  lemma ChunkRound(view: Table, next: int, at: int, n: nat, step: nat, m: map<int, string>)
    requires step > 0 && n > 0
    ensures var min := if n < step then n else step;
            var chunks, rest := Chunks(n, step), Chunks(n - min, step);
            && Run(view, AgentSteps(next, at, chunks))
               == Run(Tables.InitSubGroup(view, next, at, at + min - 1), AgentSteps(next - 1, at + min, rest))
            && AgentPlan(next, at, chunks, m)
               == [LaunchAgent(next, Share(m, at, min))] + AgentPlan(next - 1, at + min, rest, m)
  {
    hide Tables.InitSubGroup;
    var min := if n < step then n else step;
    var rest := Chunks(n - min, step);
    assert Chunks(n, step) == [min] + rest && ([min] + rest)[1..] == rest;
    assert AgentSteps(next, at, Chunks(n, step))[1..] == AgentSteps(next - 1, at + min, rest);
  }

  /**
   * The state of the chunk loop: the chunks still to be given away lead to the same end as all of them from the
   * start.
   */
  ghost predicate RestOf(view: Table, launched: seq<Launched>, next: int, at: int, n: nat, step: nat,
                         m: map<int, string>,
                         view0: Table, first: int, lo: int) {
    && step > 0
    && Run(view, AgentSteps(next, at, Chunks(n, step))) == Run(view0, AgentSteps(first, lo, Chunks(|m|, step)))
    && launched + AgentPlan(next, at, Chunks(n, step), m) == AgentPlan(first, lo, Chunks(|m|, step), m)
  }

  lemma RestStarts(view: Table, first: int, lo: int, n: nat, step: nat, m: map<int, string>)
    requires step > 0 && n == |m|
    ensures RestOf(view, [], first, lo, n, step, m, view, first, lo)
  {
    hide Run, AgentSteps, AgentPlan, Chunks;
    assert [] + AgentPlan(first, lo, Chunks(n, step), m) == AgentPlan(first, lo, Chunks(n, step), m);
  }

  lemma RestRound(view: Table, launched: seq<Launched>, next: int, at: int, n: nat, step: nat, m: map<int, string>,
                  view0: Table, first: int, lo: int)
    requires RestOf(view, launched, next, at, n, step, m, view0, first, lo) && n > 0
    ensures var min := if n < step then n else step;
            RestOf(Tables.InitSubGroup(view, next, at, at + min - 1), launched + [LaunchAgent(next, Share(m, at, min))],
                   next - 1, at + min, n - min, step, m, view0, first, lo)
  {
    hide Run, AgentSteps, AgentPlan, Chunks, Tables.InitSubGroup;
    var min := if n < step then n else step;
    ChunkRound(view, next, at, n, step, m);
    PlanStep(launched, LaunchAgent(next, Share(m, at, min)), AgentPlan(next - 1, at + min, Chunks(n - min, step), m));
  }

  lemma RestDone(view: Table, launched: seq<Launched>, next: int, at: int, step: nat, m: map<int, string>,
                 view0: Table, first: int, lo: int)
    requires RestOf(view, launched, next, at, 0, step, m, view0, first, lo)
    ensures view == Run(view0, AgentSteps(first, lo, Chunks(|m|, step)))
    ensures launched == AgentPlan(first, lo, Chunks(|m|, step), m)
  {
    assert launched + [] == launched;
  }

  // ----- the whole tree -----

  /** Back ends attached in one call are filed like back ends attached one by one. */
  lemma {:induction false} AttachedFiled(sl: Slices, lo: int, n: nat)
    ensures FileAll(sl, Attached(lo, n))
            == if n == 0 then sl else sl[VALIDBACKENDIDS := Get(sl, VALIDBACKENDIDS) + Range(lo, lo + n).Ids()]
    decreases n
  {
    if n > 0 {
      var sl' := FileChild(sl, BackEnd(lo));
      var own := Get(sl, VALIDBACKENDIDS);
      assert sl' == sl[VALIDBACKENDIDS := own + {lo}] && Get(sl', VALIDBACKENDIDS) == own + {lo};
      FileFirst(sl, BackEnd(lo), Attached(lo + 1, n - 1));
      AttachedFiled(sl', lo + 1, n - 1);
      assert {lo} + Range(lo + 1, lo + n).Ids() == Range(lo, lo + n).Ids();
      assert own + {lo} + Range(lo + 1, lo + n).Ids() == own + Range(lo, lo + n).Ids();
      if n == 1 {
        assert own + {lo} == own + Range(lo, lo + n).Ids() by { assert Range(lo + 1, lo + n).Ids() == {}; }
      } else {
        assert sl'[VALIDBACKENDIDS := own + Range(lo, lo + n).Ids()]
               == sl[VALIDBACKENDIDS := own + Range(lo, lo + n).Ids()];
      }
    }
  }

  /** The table of a node that only attaches back ends. */
  lemma AttachedTable(lo: int, n: nat)
    requires n > 0 && lo >= 0
    ensures var t := Tables.InitSubGroup(Empty, VALIDBACKENDIDS, lo, lo + n - 1);
            && Invariant(t) && Modest(t)
            && SlicesOf(t.groups, SCI_GROUP_ALL) == TableOf(Attached(lo, n))
  {
    hide Invariant, TableOf, FileAll;
    var step := InitSubGroupStep(VALIDBACKENDIDS, lo, lo + n - 1);
    FirstAttachAllowed(lo, n);
    assert Invariant(Apply(Empty, step)) by { StepInvariant(step); }
    FirstAttachSlices(lo, n);
    EmptyModest();
    AgentModest(Empty, VALIDBACKENDIDS, lo, lo + n - 1);
  }

  lemma FirstAttachAllowed(lo: int, n: nat)
    requires n > 0
    ensures Allowed(Empty, InitSubGroupStep(VALIDBACKENDIDS, lo, lo + n - 1))
  {
  }

  lemma StepInvariant(s: Step)
    requires Allowed(Empty, s)
    ensures Invariant(Apply(Empty, s))
  {
    hide Apply, Allowed, Invariant;
    EmptyInvariant();
    assert Run(Empty, [s]) == Apply(Empty, s) && IsRun(Empty, [s]) by { OneStep(Empty, s); }
    RunKeepsInvariant(Empty, [s]);
  }

  lemma OneStep(t: Table, s: Step)
    requires Allowed(t, s)
    ensures IsRun(t, [s]) && Run(t, [s]) == Apply(t, s)
  {
    assert [s][1..] == [];
  }

  lemma FirstAttachSlices(lo: int, n: nat)
    requires n > 0
    ensures SlicesOf(Tables.InitSubGroup(Empty, VALIDBACKENDIDS, lo, lo + n - 1).groups, SCI_GROUP_ALL)
            == TableOf(Attached(lo, n))
  {
    AttachedFiled(map[], lo, n);
    assert {} + Range(lo, lo + n).Ids() == Range(lo, lo + n).Ids();
  }

  lemma NoLeaves()
    ensures LeavesOf([]) == []
  {
  }

  /** The nodes that a loop over launched back ends makes. */
  method LeavesFor(launched: seq<Launched>, ghost lo: int, m: map<int, string>)
    returns (children: seq<Net>, placed: map<int, string>)
    requires launched == seq(|launched|, i => LaunchBE(lo + i, HostOf(m, lo + i)))
    ensures Shapes(children) == Attached(lo, |launched|) && FiledAll(children) && RaisedAll(children)
    ensures placed == Handed(launched)
  {
    children, placed := [], map[];
    var i := |launched|;
    while i > 0
      invariant 0 <= i <= |launched|
      invariant placed == Handed(launched[i..])
      invariant Shapes(children) == Attached(lo + i, |launched| - i) && FiledAll(children) && RaisedAll(children)
    {
      i := i - 1;
      assert launched[i..][0] == launched[i] && launched[i..][1..] == launched[i + 1..];
      placed := map[launched[i].id := launched[i].host] + placed;
      children := [Leaf(launched[i].id)] + children;
    }
    assert launched[0..] == launched;
  }

  /** The whole tree of `launch_tree1`, with the table of every node, and where the back ends were launched. */
  method Deploy1(agentID: int, m: map<int, string>, fanOut: nat, levels: nat, lo: int)
    returns (net: Net, placed: map<int, string>)
    requires Contiguous(m, lo) && fanOut >= 1 && 0 < |m| <= Pow(fanOut, levels) && lo >= 0
    ensures Shape(net) == Tree1(agentID, lo, |m|, fanOut, levels)
    ensures VALIDBACKENDIDS !in Agents(Shape(net)) ==> Filed(net)
    ensures Raised(net)
    ensures placed == m
    decreases levels
  {
    hide Placing, Handed, HandedCount, AgentPlan, Chunks, Step1, Share, Contiguous, Run, AgentSteps, Filed, Agents,
         Shape, Raised, Pow, Children1, Tree1, Tables.InitSubGroup, Attached;
    var d := new DistributedGroup(0);
    var launched, _ := LaunchTree1(d, agentID, m, fanOut, levels, lo);
    var table := d.View();
    if |m| <= fanOut {
      var children;
      children, placed := LeavesFor(launched, lo, m);
      net := Site(agentID, table, children);
      AttachedNode(agentID, table, children, lo, |m|, fanOut, levels);
      return;
    }
    Tree1Split(|m|, fanOut, levels);
    ChunksExact(|m|, Step1(|m|, fanOut, levels));
    ghost var next, rest := FirstAgent(agentID, fanOut), Chunks(|m|, Step1(|m|, fanOut, levels));
    ghost var all := Children1(next, lo, rest, fanOut, levels);
    var children: seq<Net>, at := [], lo;
    assert launched[0..] == launched && [] + all == all;
    PlacingStarts(m, lo);
    placed := map[];
    for i := 0 to |launched|
      invariant launched[i..] == AgentPlan(next, at, rest, m)
      invariant Placing(placed, m, lo, at)
      invariant FitsBelow(rest, fanOut, levels) && lo <= at && at + Sum(rest) == lo + |m|
      invariant Shapes(children) + Children1(next, at, rest, fanOut, levels) == all
      invariant VALIDBACKENDIDS !in AgentsOf(Shapes(children)) ==> FiledAll(children)
      invariant RaisedAll(children)
    {
      AgentPlanHead(launched, i, next, at, rest, m);
      Children1Head(Shapes(children), next, at, rest, fanOut, levels);
      ShareContiguous(m, lo, at, rest[0]);
      PlacingShare(placed, m, lo, at, rest[0]);
      var child, below := Deploy1(launched[i].agentId, launched[i].hosts, fanOut, levels - 1, at);
      AddChild(children, child);
      placed := placed + below;
      at := at + |launched[i].hosts|;
      children, next, rest := children + [child], next - 1, rest[1..];
    }
    AgentPlanDone(next, at, rest, m);
    PlacingDone(placed, m, lo);
    NoChildren1(next, at, fanOut, levels);
    assert Shapes(children) + [] == Shapes(children);
    net := Site(agentID, table, children);
    AgentsNode(agentID, table, children, lo, |m|, fanOut, levels);
  }

  ghost predicate FitsBelow(chunks: seq<nat>, fanOut: nat, levels: nat)
  {
    levels >= 2 && forall i :: 0 <= i < |chunks| ==> 0 < chunks[i] <= Pow(fanOut, levels - 1)
  }

  lemma AgentPlanHead(launched: seq<Launched>, i: nat, next: int, at: int, chunks: seq<nat>, m: map<int, string>)
    requires i < |launched| && launched[i..] == AgentPlan(next, at, chunks, m)
    ensures chunks != [] && launched[i] == LaunchAgent(next, Share(m, at, chunks[0]))
    ensures launched[i + 1..] == AgentPlan(next - 1, at + chunks[0], chunks[1..], m)
  {
    assert launched[i] == launched[i..][0] && launched[i + 1..] == launched[i..][1..];
    assert AgentPlan(next, at, chunks, m)[1..] == AgentPlan(next - 1, at + chunks[0], chunks[1..], m);
  }

  lemma AgentPlanDone(next: int, at: int, chunks: seq<nat>, m: map<int, string>)
    ensures AgentPlan(next, at, chunks, m) == [] ==> chunks == []
  {
  }

  lemma NoChildren1(next: int, at: int, fanOut: nat, levels: nat)
    requires fanOut > 0 && levels > 0
    ensures Children1(next, at, [], fanOut, levels) == []
  {
  }

  lemma Children1Head(done: seq<Node>, next: int, at: int, chunks: seq<nat>, fanOut: nat, levels: nat)
    requires fanOut > 0 && chunks != [] && FitsBelow(chunks, fanOut, levels)
    ensures FitsBelow(chunks[1..], fanOut, levels) && Sum(chunks) == chunks[0] + Sum(chunks[1..])
    ensures done + Children1(next, at, chunks, fanOut, levels)
            == done + [Tree1(next, at, chunks[0], fanOut, levels - 1)]
               + Children1(next - 1, at + chunks[0], chunks[1..], fanOut, levels)
  {
    hide Tree1, Pow;
    AppendNode(done, Tree1(next, at, chunks[0], fanOut, levels - 1),
               Children1(next - 1, at + chunks[0], chunks[1..], fanOut, levels));
  }

  lemma AttachedNode(a: int, table: Table, ns: seq<Net>, lo: int, n: nat, fanOut: nat, levels: nat)
    requires fanOut > 0 && 0 < n <= fanOut && n <= Pow(fanOut, levels) && lo >= 0
    requires table == Tables.InitSubGroup(Empty, VALIDBACKENDIDS, lo, lo + n - 1)
    requires Shapes(ns) == Attached(lo, n) && FiledAll(ns) && RaisedAll(ns)
    ensures Shape(Site(a, table, ns)) == Tree1(a, lo, n, fanOut, levels)
    ensures Filed(Site(a, table, ns)) && Raised(Site(a, table, ns))
  {
    hide Invariant, TableOf, Tables.InitSubGroup, Attached;
    AttachedTable(lo, n);
  }

  lemma AgentsNode(a: int, table: Table, ns: seq<Net>, lo: int, n: nat, fanOut: nat, levels: nat)
    requires fanOut > 0 && fanOut < n <= Pow(fanOut, levels) && lo >= 0
    requires FitsBelow(Chunks(n, Step1(n, fanOut, levels)), fanOut, levels)
    requires Shapes(ns) == Children1(FirstAgent(a, fanOut), lo, Chunks(n, Step1(n, fanOut, levels)), fanOut, levels)
    requires table == Run(Empty, AgentSteps(FirstAgent(a, fanOut), lo, Chunks(n, Step1(n, fanOut, levels))))
    requires VALIDBACKENDIDS !in AgentsOf(Shapes(ns)) ==> FiledAll(ns)
    requires RaisedAll(ns)
    ensures Shape(Site(a, table, ns)) == Tree1(a, lo, n, fanOut, levels)
    ensures VALIDBACKENDIDS !in Agents(Shape(Site(a, table, ns))) ==> Filed(Site(a, table, ns))
    ensures Raised(Site(a, table, ns))
  {
    hide Invariant, Unassigned, Children1, AgentSteps, Run, Chunks, Step1, Pow;
    var next, chunks := FirstAgent(a, fanOut), Chunks(n, Step1(n, fanOut, levels));
    EmptyModest();
    AgentStepsModest(Empty, next, lo, chunks);
    NothingAssigned(next, lo);
    AgentStepsAreRun(Empty, next, lo, chunks, fanOut, levels);
    if VALIDBACKENDIDS !in AgentsOf(Shapes(ns)) {
      UnusedFits(false, Shapes(ns));
      EmptyInvariant();
      RunKeepsInvariant(Empty, AgentSteps(next, lo, chunks));
    }
  }

  lemma {:induction false} Tree1Populated(a: int, lo: int, n: nat, fanOut: nat, levels: nat)
    requires fanOut > 0 && 0 < n <= Pow(fanOut, levels)
    ensures Populated(Tree1(a, lo, n, fanOut, levels))
    decreases levels, 1, 0
  {
    hide Pow, Step1, Chunks, Leaves, Attached, Children1;
    Tree1IsAgent(a, lo, n, fanOut, levels);
    assert Span(lo, lo + n)[0] == lo;
    if n <= fanOut {
      AttachedPopulated(lo, n);
    } else {
      Tree1Split(n, fanOut, levels);
      ChunksExact(n, Step1(n, fanOut, levels));
      Children1Populated(FirstAgent(a, fanOut), lo, Chunks(n, Step1(n, fanOut, levels)), fanOut, levels);
    }
  }

  lemma {:induction false} AttachedPopulated(lo: int, n: nat)
    ensures PopulatedAll(Attached(lo, n))
    decreases n
  {
    if n > 0 {
      AttachedPopulated(lo + 1, n - 1);
      PopulatedCons(BackEnd(lo), Attached(lo + 1, n - 1));
    }
  }

  lemma {:induction false} Children1Populated(next: int, lo: int, chunks: seq<nat>, fanOut: nat, levels: nat)
    requires fanOut > 0 && FitsBelow(chunks, fanOut, levels)
    ensures PopulatedAll(Children1(next, lo, chunks, fanOut, levels))
    decreases levels, 0, |chunks|
  {
    hide Tree1, Populated, Pow;
    if chunks != [] {
      var s, rest := chunks[0], chunks[1..];
      Tree1Populated(next, lo, s, fanOut, levels - 1);
      Children1Populated(next - 1, lo + s, rest, fanOut, levels);
      PopulatedCons(Tree1(next, lo, s, fanOut, levels - 1), Children1(next - 1, lo + s, rest, fanOut, levels));
    }
  }

  /** The tree as `Deploy1` returns it for the front end delivers like the others. */
  lemma DeployedTree1Delivers(net: Net, lo: int, n: nat, fanOut: nat, levels: nat)
    requires fanOut > 0 && lo >= 0 && levels >= 1 && 0 < n <= Pow(fanOut, levels)
    requires Shape(net) == Tree1(-1, lo, n, fanOut, levels) && Raised(net)
    requires VALIDBACKENDIDS !in Agents(Shape(net)) ==> Filed(net)
    ensures NoDups(Agents(Shape(net))) && Leaves(Shape(net)) == Span(lo, lo + n) && Depth(Shape(net)) <= levels
    ensures Delivers(net, levels) <==> VALIDBACKENDIDS !in Agents(Shape(net))
  {
    hide Tree1, Delivers, Depth, Filed, Pow, Numbered, Raised, Populated;
    Tree1IsAgent(-1, lo, n, fanOut, levels);
    Tree1Leaves(-1, lo, n, fanOut, levels);
    Tree1Numbered(-1, lo, n, fanOut, levels);
    Tree1Populated(-1, lo, n, fanOut, levels);
    DeployedDeliversIff(net, fanOut, lo, n, levels);
  }
}
