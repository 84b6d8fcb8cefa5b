/** The launch loops of one node, driving its routing table, and the tree that grows from them. */
module Launcher {
  import opened SortedSets
  import opened Ranges
  import opened Groups
  import opened Arithmetic
  import opened Launch
  import opened AgentNumbers
  import opened LaunchTrees
  import opened AgentThresholds
  import opened Tables
  import opened TableAlgebra
  import opened Runs
  import opened Delivery
  import opened Sessions
  import opened Deployments
  import opened DistributedGroups

  // ----- what one node does, as steps on its routing table -----

  /** Shares of one are attached as back ends, larger shares are given to new agents. */
  function LaunchSteps(next: int, lo: int, steps: seq<nat>): seq<Step>
    decreases |steps|
  {
    if steps == [] then []
    else if steps[0] == 1 then
      [AddBEStep(SCI_GROUP_ALL, VALIDBACKENDIDS, lo)] + LaunchSteps(next, lo + 1, steps[1..])
    else
      [InitSubGroupStep(next, lo, lo + steps[0] - 1)] + LaunchSteps(next - 1, lo + steps[0], steps[1..])
  }

  /** Nothing at or above `lo` has an owner yet, and no agent id at or below `next` is in use. */
  ghost predicate Unassigned(groups: GroupMap, next: int, lo: int) {
    && (forall c :: c in SlicesOf(groups, SCI_GROUP_ALL) ==> c == VALIDBACKENDIDS || next < c)
    && (forall x :: x in GroupSet(groups, SCI_GROUP_ALL) ==> x < lo)
  }

  lemma SliceBelow(groups: GroupMap, next: int, lo: int, c: int, x: int)
    requires Unassigned(groups, next, lo) && x in Slice(groups, SCI_GROUP_ALL, c)
    ensures x < lo
  {
    UnionIff(SlicesOf(groups, SCI_GROUP_ALL), x);
    assert x in Get(SlicesOf(groups, SCI_GROUP_ALL), c);
    assert x in GroupSet(groups, SCI_GROUP_ALL);
  }

  lemma UnassignedAfterPut(groups: GroupMap, next: int, lo: int, c: int, s: set<int>, next': int, lo': int)
    requires Unassigned(groups, next, lo) && next' <= next && lo <= lo'
    requires c == VALIDBACKENDIDS || next' < c
    requires forall x :: x in s ==> x < lo'
    ensures Unassigned(PutSlice(groups, SCI_GROUP_ALL, c, s), next', lo')
  {
    var groups' := PutSlice(groups, SCI_GROUP_ALL, c, s);
    forall x | x in GroupSet(groups', SCI_GROUP_ALL)
      ensures x < lo'
    {
      UnionIff(SlicesOf(groups', SCI_GROUP_ALL), x);
      var d :| x in Get(SlicesOf(groups', SCI_GROUP_ALL), d);
      if d != c {
        SliceBelow(groups, next, lo, d, x);
      }
    }
  }

  /**
   * An agent with the id that stands for the attached back ends can only be initialised while there are none:
   * `attached` says whether the handle is already in use.
   */
  predicate Fits(attached: bool, ts: seq<Node>)
    decreases ts
  {
    ts != [] ==>
      && !(attached && ts[0].Agent? && ts[0].id == VALIDBACKENDIDS)
      && Fits(attached || ts[0].BackEnd? || ts[0].id == VALIDBACKENDIDS, ts[1..])
  }

  /**
   * Launching is an allowed run of the routing table, because the contiguous shares never overlap and agent ids are
   * new, unless an agent gets the reserved id where that is already in use. In any case ALL afterwards files every
   * child under its handle with exactly the back ends below it.
   */
  lemma {:induction false} LaunchIsRun(sch: Scheme, t: Table, next: int, lo: int, steps: seq<nat>, fanOut: nat, n: nat)
    requires Works(sch, fanOut) && Proper(steps, n) && Unassigned(t.groups, next, lo)
    ensures IsRun(t, LaunchSteps(next, lo, steps))
            <==> Fits(VALIDBACKENDIDS in SlicesOf(t.groups, SCI_GROUP_ALL), Children(sch, next, lo, steps, fanOut, n))
    ensures SlicesOf(Run(t, LaunchSteps(next, lo, steps)).groups, SCI_GROUP_ALL)
            == FileAll(SlicesOf(t.groups, SCI_GROUP_ALL), Children(sch, next, lo, steps, fanOut, n))
    decreases |steps|
  {
    hide Apply, Allowed, Unassigned, SlicesOf, FileChild, Tree, Fits;
    var inUse := VALIDBACKENDIDS in SlicesOf(t.groups, SCI_GROUP_ALL);
    if steps == [] {
      NoneFit(inUse);
    } else {
      var s, rest := steps[0], steps[1..];
      var all := LaunchSteps(next, lo, steps);
      var t' := Apply(t, all[0]);
      if s == 1 {
        var ts := Children(sch, next, lo + 1, rest, fanOut, n);
        FitsFirst(inUse, BackEnd(lo), ts);
        AttachStep(t, next, lo);
        assert all[1..] == LaunchSteps(next, lo + 1, rest);
        LaunchIsRun(sch, t', next, lo + 1, rest, fanOut, n);
        FileFirst(SlicesOf(t.groups, SCI_GROUP_ALL), BackEnd(lo), ts);
        HandleFiled(SlicesOf(t.groups, SCI_GROUP_ALL), BackEnd(lo));
      } else {
        var ts, first := Children(sch, next - 1, lo + s, rest, fanOut, n), Tree(sch, next, lo, s, fanOut);
        TreeIsAgent(sch, next, lo, s, fanOut);
        FitsFirst(inUse, first, ts);
        AgentStep(t, next, lo, s);
        assert all[1..] == LaunchSteps(next - 1, lo + s, rest);
        LaunchIsRun(sch, t', next - 1, lo + s, rest, fanOut, n);
        AgentFiled(SlicesOf(t.groups, SCI_GROUP_ALL), first, lo, s);
        FileFirst(SlicesOf(t.groups, SCI_GROUP_ALL), first, ts);
        HandleFiled(SlicesOf(t.groups, SCI_GROUP_ALL), first);
      }
    }
  }

  lemma NoneFit(attached: bool)
    ensures Fits(attached, [])
  {
  }

  lemma FitsFirst(attached: bool, t: Node, ts: seq<Node>)
    ensures Fits(attached, [t] + ts) <==>
              && !(attached && t.Agent? && t.id == VALIDBACKENDIDS)
              && Fits(attached || t.BackEnd? || t.id == VALIDBACKENDIDS, ts)
  {
    assert ([t] + ts)[1..] == ts;
  }

  lemma HandleFiled(sl: Slices, t: Node)
    ensures VALIDBACKENDIDS in FileChild(sl, t) <==> VALIDBACKENDIDS in sl || t.BackEnd? || t.id == VALIDBACKENDIDS
  {
  }

  lemma TreeIsAgent(sch: Scheme, a: int, lo: int, n: nat, fanOut: nat)
    requires Works(sch, fanOut)
    ensures Tree(sch, a, lo, n, fanOut).Agent? && Tree(sch, a, lo, n, fanOut).id == a
    ensures Leaves(Tree(sch, a, lo, n, fanOut)) == Span(lo, lo + n)
  {
    TreeLeaves(sch, a, lo, n, fanOut);
  }

  lemma FileFirst(sl: Slices, t: Node, ts: seq<Node>)
    ensures FileAll(sl, [t] + ts) == FileAll(FileChild(sl, t), ts)
  {
    assert ([t] + ts)[1..] == ts;
  }

  lemma AgentFiled(sl: Slices, t: Node, lo: int, s: nat)
    requires t.Agent? && Leaves(t) == Span(lo, lo + s)
    ensures FileChild(sl, t) == sl[t.id := Range(lo, lo + s).Ids()]
  {
    SpanEnumerates(lo, lo + s);
  }

  lemma AttachStep(t: Table, next: int, lo: int)
    requires Unassigned(t.groups, next, lo)
    ensures var step := AddBEStep(SCI_GROUP_ALL, VALIDBACKENDIDS, lo);
            && Allowed(t, step)
            && Unassigned(Apply(t, step).groups, next, lo + 1)
            && SlicesOf(Apply(t, step).groups, SCI_GROUP_ALL)
               == FileChild(SlicesOf(t.groups, SCI_GROUP_ALL), BackEnd(lo))
  {
    hide ResetMany;
    var s := Slice(t.groups, SCI_GROUP_ALL, VALIDBACKENDIDS) + {lo};
    forall x | x in Slice(t.groups, SCI_GROUP_ALL, VALIDBACKENDIDS)
      ensures x < lo
    {
      SliceBelow(t.groups, next, lo, VALIDBACKENDIDS, x);
    }
    forall d | d != VALIDBACKENDIDS
      ensures lo !in Slice(t.groups, SCI_GROUP_ALL, d)
    {
      if lo in Slice(t.groups, SCI_GROUP_ALL, d) {
        SliceBelow(t.groups, next, lo, d, lo);
        assert false;
      }
    }
    UnassignedAfterPut(t.groups, next, lo, VALIDBACKENDIDS, s, next, lo + 1);
    ResetGroups(t.(groups := PutSlice(t.groups, SCI_GROUP_ALL, VALIDBACKENDIDS, s)), {SCI_GROUP_ALL});
  }

  lemma AgentStep(t: Table, next: int, lo: int, s: nat)
    requires Unassigned(t.groups, next, lo) && s > 0
    ensures var step := InitSubGroupStep(next, lo, lo + s - 1);
            && (Allowed(t, step) <==> !(VALIDBACKENDIDS in SlicesOf(t.groups, SCI_GROUP_ALL)
                                        && next == VALIDBACKENDIDS))
            && Unassigned(Apply(t, step).groups, next - 1, lo + s)
            && SlicesOf(Apply(t, step).groups, SCI_GROUP_ALL)
               == SlicesOf(t.groups, SCI_GROUP_ALL)[next := Range(lo, lo + s).Ids()]
  {
    UnassignedAfterPut(t.groups, next, lo, next, Range(lo, lo + s).Ids(), next - 1, lo + s);
  }

  // ----- the launch loops -----

  /** What a node hands out: single back ends, and agents with their share of the host map. */
  datatype Launched = LaunchBE(id: int, host: string) | LaunchAgent(agentId: int, hosts: map<int, string>)

  /** A host map over the consecutive ids `lo .. lo + |m| - 1`. */
  ghost predicate Contiguous(m: map<int, string>, lo: int) {
    m.Keys == Range(lo, lo + |m|).Ids()
  }

  function Share(m: map<int, string>, lo: int, n: nat): map<int, string> {
    map x | x in m && lo <= x < lo + n :: m[x]
  }

  function HostOf(m: map<int, string>, x: int): string {
    if x in m then m[x] else ""
  }

  function Plan(next: int, lo: int, steps: seq<nat>, m: map<int, string>): seq<Launched>
    decreases |steps|
  {
    if steps == [] then []
    else if steps[0] == 1 then [LaunchBE(lo, HostOf(m, lo))] + Plan(next, lo + 1, steps[1..], m)
    else [LaunchAgent(next, Share(m, lo, steps[0]))] + Plan(next - 1, lo + steps[0], steps[1..], m)
  }

  lemma {:induction false} PlanLength(next: int, lo: int, steps: seq<nat>, m: map<int, string>)
    ensures |Plan(next, lo, steps, m)| == |steps|
    decreases |steps|
  {
    if steps != [] {
      if steps[0] == 1 {
        PlanLength(next, lo + 1, steps[1..], m);
      } else {
        PlanLength(next - 1, lo + steps[0], steps[1..], m);
      }
    }
  }

  /** The entries that one child gets. */
  function EntriesOf(x: Launched): map<int, string> {
    match x
    case LaunchBE(id, host) => map[id := host]
    case LaunchAgent(_, hosts) => hosts
  }

  /** All the entries that were handed out. */
  function Handed(launched: seq<Launched>): map<int, string> {
    if launched == [] then map[] else EntriesOf(launched[0]) + Handed(launched[1..])
  }

  /** How many entries were handed out, counting repetitions. */
  function HandedCount(launched: seq<Launched>): nat {
    if launched == [] then 0 else |EntriesOf(launched[0])| + HandedCount(launched[1..])
  }

  lemma HandedCons(x: Launched, rest: seq<Launched>)
    ensures Handed([x] + rest) == EntriesOf(x) + Handed(rest)
    ensures HandedCount([x] + rest) == |EntriesOf(x)| + HandedCount(rest)
  {
    hide EntriesOf;
    assert ([x] + rest)[1..] == rest;
  }

  /** The entries of a host map below an id, and those from it on. */
  ghost function Until(m: map<int, string>, at: int): map<int, string> {
    map x | x in m && x < at :: m[x]
  }

  ghost function From(m: map<int, string>, at: int): map<int, string> {
    map x | x in m && at <= x :: m[x]
  }

  lemma KeysBetween(m: map<int, string>, lo: int, x: int)
    requires Contiguous(m, lo)
    ensures x in m <==> lo <= x < lo + |m|
  {
    assert x in m.Keys <==> x in Range(lo, lo + |m|).Ids();
    assert Range(lo, lo + |m|).Has(x) <==> lo <= x < lo + |m|;
  }

  lemma UntilEnds(m: map<int, string>, lo: int)
    requires Contiguous(m, lo)
    ensures Until(m, lo) == map[] && Until(m, lo + |m|) == m
  {
    hide Contiguous;
    forall x | x in m
      ensures lo <= x < lo + |m|
    {
      KeysBetween(m, lo, x);
    }
  }

  lemma FromEnds(m: map<int, string>, lo: int)
    requires Contiguous(m, lo)
    ensures From(m, lo) == m && From(m, lo + |m|) == map[]
  {
    hide Contiguous;
    forall x | x in m
      ensures lo <= x < lo + |m|
    {
      KeysBetween(m, lo, x);
    }
  }

  lemma UntilShare(m: map<int, string>, at: int, n: nat)
    ensures Until(m, at) + Share(m, at, n) == Until(m, at + n)
  {
  }

  lemma FromShare(m: map<int, string>, at: int, n: nat)
    ensures Share(m, at, n) + From(m, at + n) == From(m, at)
  {
  }

  lemma ShareOne(m: map<int, string>, lo: int, at: int)
    requires Contiguous(m, lo) && lo <= at < lo + |m|
    ensures Share(m, at, 1) == map[at := HostOf(m, at)]
  {
    hide Contiguous;
    KeysBetween(m, lo, at);
  }

  /** What has been placed so far: the hosts of all ids below `at`. */
  ghost predicate Placing(placed: map<int, string>, m: map<int, string>, lo: int, at: int) {
    Contiguous(m, lo) && placed == Until(m, at)
  }

  lemma PlacingStarts(m: map<int, string>, lo: int)
    requires Contiguous(m, lo)
    ensures Placing(map[], m, lo, lo)
  {
    hide Contiguous, Until;
    UntilEnds(m, lo);
  }

  lemma PlacingShare(placed: map<int, string>, m: map<int, string>, lo: int, at: int, n: nat)
    requires Placing(placed, m, lo, at)
    ensures Placing(placed + Share(m, at, n), m, lo, at + n)
  {
    hide Contiguous, Until, Share;
    UntilShare(m, at, n);
  }

  lemma PlacingOne(placed: map<int, string>, m: map<int, string>, lo: int, at: int)
    requires Placing(placed, m, lo, at) && lo <= at < lo + |m|
    ensures Placing(placed[at := HostOf(m, at)], m, lo, at + 1)
  {
    hide Contiguous, Until, Share, HostOf;
    UntilShare(m, at, 1);
    ShareOne(m, lo, at);
    assert placed + map[at := HostOf(m, at)] == placed[at := HostOf(m, at)];
  }

  lemma PlacingDone(placed: map<int, string>, m: map<int, string>, lo: int)
    requires Placing(placed, m, lo, lo + |m|)
    ensures placed == m
  {
    hide Contiguous, Until;
    UntilEnds(m, lo);
  }

  /** These children get exactly the entries from `at` on, `n` of them. */
  ghost predicate HandsOut(launched: seq<Launched>, m: map<int, string>, at: int, n: nat) {
    Handed(launched) == From(m, at) && HandedCount(launched) == n
  }

  lemma HandsNothing(m: map<int, string>, lo: int)
    requires Contiguous(m, lo)
    ensures HandsOut([], m, lo + |m|, 0)
  {
    hide Contiguous, From;
    FromEnds(m, lo);
  }

  lemma HandsAgent(a: int, rest: seq<Launched>, m: map<int, string>, lo: int, at: int, s: nat, n: nat)
    requires Contiguous(m, lo) && lo <= at && at + s <= lo + |m| && HandsOut(rest, m, at + s, n)
    ensures HandsOut([LaunchAgent(a, Share(m, at, s))] + rest, m, at, s + n)
  {
    hide Contiguous, From, Share, Handed, HandedCount;
    HandedCons(LaunchAgent(a, Share(m, at, s)), rest);
    ShareContiguous(m, lo, at, s);
    FromShare(m, at, s);
  }

  lemma HandsBackEnd(rest: seq<Launched>, m: map<int, string>, lo: int, at: int, n: nat)
    requires Contiguous(m, lo) && lo <= at < lo + |m| && HandsOut(rest, m, at + 1, n)
    ensures HandsOut([LaunchBE(at, HostOf(m, at))] + rest, m, at, 1 + n)
  {
    hide Contiguous, From, Share, Handed, HandedCount, HostOf;
    HandedCons(LaunchBE(at, HostOf(m, at)), rest);
    ShareOne(m, lo, at);
    FromShare(m, at, 1);
  }

  lemma HandsAll(launched: seq<Launched>, m: map<int, string>, lo: int, n: nat)
    requires Contiguous(m, lo) && HandsOut(launched, m, lo, n)
    ensures Handed(launched) == m && HandedCount(launched) == n
  {
    hide Contiguous, From;
    FromEnds(m, lo);
  }

  /** A plan hands out exactly the entries of its share of the map, each once. */
  lemma {:induction false} PlanHanded(next: int, at: int, steps: seq<nat>, m: map<int, string>, lo: int)
    requires Contiguous(m, lo) && lo <= at && at + Sum(steps) == lo + |m|
    ensures HandsOut(Plan(next, at, steps, m), m, at, Sum(steps))
    decreases |steps|
  {
    hide Contiguous, Share, HostOf, HandsOut;
    if steps == [] {
      HandsNothing(m, lo);
    } else {
      var s, rest := steps[0], steps[1..];
      if s == 1 {
        PlanHanded(next, at + 1, rest, m, lo);
        HandsBackEnd(Plan(next, at + 1, rest, m), m, lo, at, Sum(rest));
      } else {
        PlanHanded(next - 1, at + s, rest, m, lo);
        HandsAgent(next, Plan(next - 1, at + s, rest, m), m, lo, at, s, Sum(rest));
      }
    }
  }

  /** A contiguous share of a contiguous map is contiguous. */
  lemma ShareContiguous(m: map<int, string>, lo: int, a: int, n: nat)
    requires Contiguous(m, lo) && lo <= a && a + n <= lo + |m|
    ensures |Share(m, a, n)| == n && Contiguous(Share(m, a, n), a)
  {
    var s := Share(m, a, n);
    assert s.Keys == Range(a, a + n).Ids();
    RangeSize(a, a + n);
    assert |s| == |s.Keys|;
  }

  lemma RangeSize(lo: int, hi: int)
    requires lo <= hi
    ensures |Range(lo, hi).Ids()| == hi - lo
  {
    SpanEnumerates(lo, hi);
    AscendingLength(Span(lo, hi));
  }

  /** Copying `step` map entries one after the other, in key order. */
  method TakeShare(m: map<int, string>, lo: int, a: int, step: nat) returns (hosts: map<int, string>)
    requires Contiguous(m, lo) && lo <= a && a + step <= lo + |m|
    ensures hosts == Share(m, a, step)
  {
    hosts := map[];
    for i := 0 to step
      invariant hosts == Share(m, a, i)
    {
      assert Range(lo, lo + |m|).Has(a + i);
      hosts := hosts[a + i := m[a + i]];
    }
  }

  /** The state of a launch loop: what is still to be done leads to the same end as doing everything from the start. */
  ghost predicate Remaining(view: Table, launched: seq<Launched>, next: int, lo: int, steps: seq<nat>,
                            m: map<int, string>,
                            view0: Table, next0: int, lo0: int, steps0: seq<nat>) {
    && Run(view, LaunchSteps(next, lo, steps)) == Run(view0, LaunchSteps(next0, lo0, steps0))
    && launched + Plan(next, lo, steps, m) == Plan(next0, lo0, steps0, m)
  }

  /** One round of a launch loop: attach a back end, or create an agent for a larger share. */
  method LaunchOne(d: DistributedGroup, next: int, at: int, step: nat, m: map<int, string>, lo: int,
                   launched: seq<Launched>,
                   ghost rest: seq<nat>, ghost view0: Table, ghost next0: int, ghost lo0: int, ghost steps0: seq<nat>)
    returns (launched': seq<Launched>, next': int)
    requires d.Valid() && Contiguous(m, lo) && lo <= at && at + step <= lo + |m| && step > 0
    requires Remaining(d.View(), launched, next, at, [step] + rest, m, view0, next0, lo0, steps0)
    modifies d
    ensures d.Valid() && d.parentId == old(d.parentId)
    ensures Remaining(d.View(), launched', next', at + step, rest, m, view0, next0, lo0, steps0)
    ensures |launched'| == |launched| + 1
  {
    hide Tables.AddBE, Tables.InitSubGroup;
    assert ([step] + rest)[1..] == rest;
    ghost var steps := LaunchSteps(next, at, [step] + rest);
    if step == 1 {
      assert steps[1..] == LaunchSteps(next, at + 1, rest);
      d.AddBE(SCI_GROUP_ALL, VALIDBACKENDIDS, at);
      assert Range(lo, lo + |m|).Has(at);
      launched', next' := launched + [LaunchBE(at, m[at])], next;
      PlanStep(launched, LaunchBE(at, m[at]), Plan(next, at + 1, rest, m));
    } else {
      assert steps[1..] == LaunchSteps(next - 1, at + step, rest);
      d.InitSubGroup(next, at, at + step - 1);
      var hosts := TakeShare(m, lo, at, step);
      launched', next' := launched + [LaunchAgent(next, hosts)], next - 1;
      PlanStep(launched, LaunchAgent(next, hosts), Plan(next - 1, at + step, rest, m));
    }
  }

  lemma PlanStep(a: seq<Launched>, x: Launched, b: seq<Launched>)
    ensures a + [x] + b == a + ([x] + b)
  {
  }

  /** Together the children get exactly the host map, every entry once. */
  ghost predicate AllHanded(launched: seq<Launched>, m: map<int, string>) {
    Handed(launched) == m && HandedCount(launched) == |m|
  }

  lemma HandsWhole(next: int, lo: int, sch: Scheme, fanOut: nat, m: map<int, string>)
    requires Contiguous(m, lo) && fanOut >= 1
    ensures AllHanded(Plan(next, lo, Shares(sch, |m|, fanOut), m), m)
  {
    hide Contiguous, Plan, Handed, HandedCount, Steps, HandsOut;
    StepsCover(|m|, fanOut);
    Steps4Exact(|m|, fanOut);
    PlanHanded(next, lo, Shares(sch, |m|, fanOut), m, lo);
    HandsAll(Plan(next, lo, Shares(sch, |m|, fanOut), m), m, lo, |m|);
  }

  /**
   * `launch_tree2` at one node: the shares are those of `Steps`, exactly min(n, fanOut) children are launched
   * (the reference count kept on the filter list), the routing table takes the corresponding run, and together the
   * children get exactly the host map, every entry once.
   */
  method LaunchTree2(d: DistributedGroup, agentID: int, m: map<int, string>, fanOut: nat, ghost lo: int)
    returns (launched: seq<Launched>, ref: nat)
    requires d.Valid() && Contiguous(m, lo) && fanOut >= 1
    modifies d
    ensures d.Valid() && d.parentId == old(d.parentId)
    ensures d.View() == Run(old(d.View()), LaunchSteps(FirstAgent(agentID, fanOut), lo, Steps(|m|, fanOut)))
    ensures launched == Plan(FirstAgent(agentID, fanOut), lo, Steps(|m|, fanOut), m)
    ensures |launched| == ref == if |m| > fanOut then fanOut else |m|
    ensures AllHanded(launched, m)
  {
    hide Run, LaunchSteps, Plan, Steps, Apply, AllHanded;
    HandsWhole(FirstAgent(agentID, fanOut), lo, Even, fanOut, m);
    var totalSize := |m|;
    ref := if totalSize > fanOut then fanOut else totalSize;
    launched := [];
    ghost var next0, steps0, view0 := FirstAgent(agentID, fanOut), Steps(|m|, fanOut), d.View();
    NoSteps(totalSize, fanOut);
    if totalSize == 0 {
      NothingLeft(view0, next0, lo, m);
      return;
    }
    KeysSpan(m, lo);
    var initID := Enumerate(m.Keys)[0];
    var next := FirstAgent(agentID, fanOut);
    var size, out := 0, fanOut;
    assert [] + Plan(next0, lo, steps0, m) == Plan(next0, lo, steps0, m);
    while size < totalSize
      invariant 0 <= size <= totalSize && initID == lo && 0 <= out
      invariant size < totalSize ==> out > 0
      invariant d.Valid() && d.parentId == old(d.parentId)
      invariant Remaining(d.View(), launched, next, lo + size, Steps(totalSize - size, out), m,
                          view0, next0, lo, steps0)
    {
      var left := totalSize - size;
      StepsHead(left, out);
      var step := CeilDiv(left, out);
      launched, next := LaunchOne(d, next, initID + size, step, m, initID, launched,
                                  Steps(left - step, out - 1), view0, next0, lo, steps0);
      out := out - 1;
      size := size + step;
    }
    NoSteps(0, out);
    NothingLeft(d.View(), next, lo + size, m);
    PlanLength(next0, lo, steps0, m);
    StepsExact(|m|, fanOut, 0);
    assert launched + [] == launched;
  }

  lemma NoSteps(n: nat, out: nat)
    requires n > 0 ==> out > 0
    ensures n == 0 ==> Steps(n, out) == []
  {
  }

  lemma NothingLeft(view: Table, next: int, lo: int, m: map<int, string>)
    ensures Run(view, LaunchSteps(next, lo, [])) == view && Plan(next, lo, [], m) == []
  {
  }

  lemma StepsHead(n: nat, out: nat)
    requires n > 0 && out > 0
    ensures 0 < CeilDiv(n, out) <= n && (n > CeilDiv(n, out) ==> out > 1)
    ensures Steps(n, out) == [CeilDiv(n, out)] + Steps(n - CeilDiv(n, out), out - 1)
  {
    CeilDivIs(n, out);
    LastTakesAll(n, out);
  }

  /** The keys of a contiguous map, in order. */
  lemma KeysSpan(m: map<int, string>, lo: int)
    requires Contiguous(m, lo)
    ensures Enumerate(m.Keys) == Span(lo, lo + |m|)
  {
    hide Ascending, Elements, Enumerate, Span;
    SpanEnumerates(lo, lo + |m|);
    EnumerateAscends(m.Keys);
    AscendingUnique(Enumerate(m.Keys), Span(lo, lo + |m|));
  }

  method LaunchTree4(d: DistributedGroup, agentID: int, m: map<int, string>, fanOut: nat, ghost lo: int)
    returns (launched: seq<Launched>, ref: nat)
    requires d.Valid() && Contiguous(m, lo) && fanOut >= 1
    modifies d
    ensures d.Valid() && d.parentId == old(d.parentId)
    ensures d.View() == Run(old(d.View()), LaunchSteps(FirstAgent(agentID, fanOut), lo, Steps4(|m|, fanOut)))
    ensures launched == Plan(FirstAgent(agentID, fanOut), lo, Steps4(|m|, fanOut), m)
    ensures |launched| == ref <==> |m| <= fanOut
    ensures |launched| <= fanOut + 1
    ensures AllHanded(launched, m)
  {
    hide Run, LaunchSteps, Plan, Steps, Apply, AllHanded;
    HandsWhole(FirstAgent(agentID, fanOut), lo, BackEndFirst, fanOut, m);
    var totalSize := |m|;
    ref := if totalSize > fanOut then fanOut else totalSize;
    launched := [];
    ghost var next0, steps0, view0 := FirstAgent(agentID, fanOut), Steps4(|m|, fanOut), d.View();
    PlanLength(next0, lo, steps0, m);
    Steps4Exact(|m|, fanOut);
    if totalSize == 0 {
      NothingLeft(view0, next0, lo, m);
      return;
    }
    KeysSpan(m, lo);
    var initID := Enumerate(m.Keys)[0];
    var next := FirstAgent(agentID, fanOut);
    var size, out, step := 0, fanOut, 1;
    assert [] + Plan(next0, lo, steps0, m) == Plan(next0, lo, steps0, m);
    while true
      invariant 0 <= size < size + step <= totalSize && initID == lo && 0 <= out
      invariant size + step < totalSize ==> out > 0
      invariant d.Valid() && d.parentId == old(d.parentId)
      invariant Remaining(d.View(), launched, next, lo + size, [step] + Steps(totalSize - size - step, out), m,
                          view0, next0, lo, steps0)
      decreases totalSize - size
    {
      launched, next := LaunchOne(d, next, initID + size, step, m, initID, launched,
                                  Steps(totalSize - size - step, out), view0, next0, lo, steps0);
      size := size + step;
      if size >= totalSize {
        break;
      }
      var left := totalSize - size;
      StepsHead(left, out);
      step := CeilDiv(left, out);
      out := out - 1;
    }
    NoSteps(0, out);
    NothingLeft(d.View(), next, lo + size, m);
    assert launched + [] == launched;
  }

  // ----- the whole tree -----

  /** The first item of a plan, and the rest of it. */
  lemma PlanHead(launched: seq<Launched>, i: nat, next: int, at: int, steps: seq<nat>, m: map<int, string>)
    requires i < |launched| && launched[i..] == Plan(next, at, steps, m)
    ensures steps != []
    ensures steps[0] == 1 ==>
              && launched[i] == LaunchBE(at, HostOf(m, at))
              && launched[i + 1..] == Plan(next, at + 1, steps[1..], m)
    ensures steps[0] != 1 ==>
              && launched[i] == LaunchAgent(next, Share(m, at, steps[0]))
              && launched[i + 1..] == Plan(next - 1, at + steps[0], steps[1..], m)
  {
    var plan := Plan(next, at, steps, m);
    assert launched[i] == launched[i..][0] && launched[i + 1..] == launched[i..][1..];
    if steps[0] == 1 {
      assert plan[1..] == Plan(next, at + 1, steps[1..], m);
    } else {
      assert plan[1..] == Plan(next - 1, at + steps[0], steps[1..], m);
    }
  }

  lemma ChildrenHead(sch: Scheme, done: seq<Node>, next: int, at: int, steps: seq<nat>, fanOut: nat, n: nat)
    requires Works(sch, fanOut) && Proper(steps, n) && steps != []
    ensures Proper(steps[1..], n) && Sum(steps) == steps[0] + Sum(steps[1..])
    ensures done + Children(sch, next, at, steps, fanOut, n) ==
            if steps[0] == 1 then done + [BackEnd(at)] + Children(sch, next, at + 1, steps[1..], fanOut, n)
            else done + [Tree(sch, next, at, steps[0], fanOut)]
                 + Children(sch, next - 1, at + steps[0], steps[1..], fanOut, n)
  {
    hide Tree;
    if steps[0] == 1 {
      AppendNode(done, BackEnd(at), Children(sch, next, at + 1, steps[1..], fanOut, n));
    } else {
      AppendNode(done, Tree(sch, next, at, steps[0], fanOut),
                 Children(sch, next - 1, at + steps[0], steps[1..], fanOut, n));
    }
  }

  lemma AppendNode(a: seq<Node>, x: Node, b: seq<Node>)
    ensures a + ([x] + b) == a + [x] + b
  {
  }

  /** One node launches its children by either scheme. */
  method LaunchNode(sch: Scheme, d: DistributedGroup, agentID: int, m: map<int, string>, fanOut: nat, ghost lo: int)
    returns (launched: seq<Launched>)
    requires d.Valid() && Contiguous(m, lo) && fanOut >= 1
    modifies d
    ensures d.Valid()
    ensures d.View() == Run(old(d.View()), LaunchSteps(FirstAgent(agentID, fanOut), lo, Shares(sch, |m|, fanOut)))
    ensures launched == Plan(FirstAgent(agentID, fanOut), lo, Shares(sch, |m|, fanOut), m)
  {
    hide Run, LaunchSteps, Plan, Steps, Steps4, Contiguous;
    var ref;
    if sch.Even? {
      launched, ref := LaunchTree2(d, agentID, m, fanOut, lo);
    } else {
      launched, ref := LaunchTree4(d, agentID, m, fanOut, lo);
    }
  }

  /**
   * Every agent launches its share, which makes its child agents launch theirs: the result is the whole tree, and
   * every table in it files exactly the node's children. As long as no agent gets the reserved id they are sound.
   * `placed` says where the back ends were launched: each on the host that the map gives it.
   */
  method Deploy(sch: Scheme, agentID: int, m: map<int, string>, fanOut: nat, lo: int)
    returns (net: Net, placed: map<int, string>)
    requires Contiguous(m, lo) && Works(sch, fanOut) && lo >= 0
    ensures Shape(net) == Tree(sch, agentID, lo, |m|, fanOut)
    ensures VALIDBACKENDIDS !in Agents(Shape(net)) ==> Filed(net)
    ensures Raised(net)
    ensures placed == m
    decreases |m|
  {
    hide Placing, HostOf, Plan, Shares, Children, Share, Contiguous, Run, LaunchSteps, Filed, Agents, Shape, Raised,
         Building;
    var d := new DistributedGroup(0);
    var launched := LaunchNode(sch, d, agentID, m, fanOut, lo);
    var table := d.View();
    ghost var next, rest := FirstAgent(agentID, fanOut), Shares(sch, |m|, fanOut);
    SplitProper(sch, |m|, fanOut);
    var children: seq<Net>, at := [], lo;
    ghost var all := Children(sch, next, lo, rest, fanOut, |m|);
    BuildingStarts(sch, next, lo, rest, fanOut, |m|);
    PlacingStarts(m, lo);
    placed := map[];
    assert launched[0..] == launched;
    for i := 0 to |launched|
      invariant launched[i..] == Plan(next, at, rest, m)
      invariant Building(sch, children, next, at, rest, fanOut, lo, |m|, all)
      invariant Placing(placed, m, lo, at)
    {
      PlanHead(launched, i, next, at, rest, m);
      BuildingBounds(sch, children, next, at, rest, fanOut, lo, |m|, all);
      match launched[i] {
        case LaunchBE(id, host) =>
          PlacingOne(placed, m, lo, at);
          placed := placed[id := host];
          BuildLeaf(sch, children, next, at, rest, fanOut, lo, |m|, all);
          children, at, rest := children + [Leaf(id)], at + 1, rest[1..];
        case LaunchAgent(a, hosts) =>
          ShareContiguous(m, lo, at, rest[0]);
          PlacingShare(placed, m, lo, at, rest[0]);
          var child, below := Deploy(sch, a, hosts, fanOut, at);
          placed := placed + below;
          BuildAgent(sch, children, child, next, at, rest, fanOut, lo, |m|, all);
          children, at, next, rest := children + [child], at + |hosts|, next - 1, rest[1..];
      }
    }
    PlanDone(next, at, rest, m);
    BuildingDone(sch, children, next, at, rest, fanOut, lo, |m|, all);
    PlacingDone(placed, m, lo);
    net := Site(agentID, table, children);
    NodeFiled(sch, agentID, table, children, lo, |m|, fanOut);
  }

  /** The children deployed so far, and those the remaining shares will bring, are all of them. */
  ghost predicate Building(sch: Scheme, ns: seq<Net>, next: int, at: int, rest: seq<nat>, fanOut: nat, lo: int, n: nat,
                           all: seq<Node>) {
    && Works(sch, fanOut) && Proper(rest, n) && 0 <= lo <= at && at + Sum(rest) == lo + n
    && Shapes(ns) + Children(sch, next, at, rest, fanOut, n) == all
    && (VALIDBACKENDIDS !in AgentsOf(Shapes(ns)) ==> FiledAll(ns))
    && RaisedAll(ns)
  }

  lemma BuildingStarts(sch: Scheme, next: int, lo: int, rest: seq<nat>, fanOut: nat, n: nat)
    requires Works(sch, fanOut) && Proper(rest, n) && lo >= 0 && Sum(rest) == n
    ensures Building(sch, [], next, lo, rest, fanOut, lo, n, Children(sch, next, lo, rest, fanOut, n))
  {
    hide Children;
    assert [] + Children(sch, next, lo, rest, fanOut, n) == Children(sch, next, lo, rest, fanOut, n);
  }

  lemma BuildingBounds(sch: Scheme, ns: seq<Net>, next: int, at: int, rest: seq<nat>, fanOut: nat, lo: int, n: nat,
                       all: seq<Node>)
    requires Building(sch, ns, next, at, rest, fanOut, lo, n, all) && rest != []
    ensures 0 <= lo <= at && at + rest[0] <= lo + n && 0 < rest[0] && (rest[0] == 1 || rest[0] < n)
  {
    hide Children, FiledAll, RaisedAll, AgentsOf;
  }

  lemma BuildLeaf(sch: Scheme, ns: seq<Net>, next: int, at: int, rest: seq<nat>, fanOut: nat, lo: int, n: nat,
                  all: seq<Node>)
    requires Building(sch, ns, next, at, rest, fanOut, lo, n, all) && rest != [] && rest[0] == 1
    ensures Building(sch, ns + [Leaf(at)], next, at + 1, rest[1..], fanOut, lo, n, all)
  {
    hide Children, FiledAll, RaisedAll, AgentsOf, Shape, Filed, Raised, Agents;
    ChildrenHead(sch, Shapes(ns), next, at, rest, fanOut, n);
    AddChild(ns, Leaf(at));
    LeafShape(at);
  }

  lemma BuildAgent(sch: Scheme, ns: seq<Net>, child: Net, next: int, at: int, rest: seq<nat>, fanOut: nat, lo: int,
                   n: nat,
                   all: seq<Node>)
    requires Building(sch, ns, next, at, rest, fanOut, lo, n, all) && rest != [] && rest[0] != 1
    requires Shape(child) == Tree(sch, next, at, rest[0], fanOut) && Raised(child)
    requires VALIDBACKENDIDS !in Agents(Shape(child)) ==> Filed(child)
    ensures Building(sch, ns + [child], next - 1, at + rest[0], rest[1..], fanOut, lo, n, all)
  {
    hide Children, FiledAll, RaisedAll, AgentsOf, Shape, Filed, Raised, Agents, Tree;
    ChildrenHead(sch, Shapes(ns), next, at, rest, fanOut, n);
    AddChild(ns, child);
  }

  lemma BuildingDone(sch: Scheme, ns: seq<Net>, next: int, at: int, rest: seq<nat>, fanOut: nat, lo: int, n: nat,
                     all: seq<Node>)
    requires Building(sch, ns, next, at, rest, fanOut, lo, n, all) && rest == []
    ensures Shapes(ns) == all && (VALIDBACKENDIDS !in AgentsOf(Shapes(ns)) ==> FiledAll(ns)) && RaisedAll(ns)
    ensures at == lo + n
  {
    hide FiledAll, RaisedAll, AgentsOf;
    assert Shapes(ns) + [] == Shapes(ns);
  }

  /** Appending a child: shape, tables and ids. */
  lemma {:induction false} AddChild(ns: seq<Net>, net: Net)
    ensures Shapes(ns + [net]) == Shapes(ns) + [Shape(net)]
    ensures FiledAll(ns + [net]) <==> FiledAll(ns) && Filed(net)
    ensures RaisedAll(ns + [net]) <==> RaisedAll(ns) && Raised(net)
    ensures AgentsOf(Shapes(ns + [net])) == AgentsOf(Shapes(ns)) + Agents(Shape(net))
    decreases ns
  {
    hide Filed, Raised, Shape, Agents;
    if ns == [] {
      assert ns + [net] == [net] && [net][1..] == [];
      assert Shapes([net]) == [Shape(net)] + Shapes([net][1..]);
    } else {
      AddChild(ns[1..], net);
      var all := ns + [net];
      assert all[1..] == ns[1..] + [net];
      assert Shapes(ns)[1..] == Shapes(ns[1..]) && Shapes(all)[1..] == Shapes(all[1..]);
      assert Shapes(all) == [Shape(ns[0])] + Shapes(all[1..]);
    }
  }

  lemma LeafShape(id: int)
    ensures Shape(Leaf(id)) == BackEnd(id) && Filed(Leaf(id)) && Raised(Leaf(id)) && Agents(BackEnd(id)) == []
  {
  }

  /** The table a node ends up with files its children. */
  lemma NodeFiled(sch: Scheme, a: int, table: Table, ns: seq<Net>, lo: int, n: nat, fanOut: nat)
    requires Works(sch, fanOut) && Proper(Shares(sch, n, fanOut), n) && lo >= 0
    requires Shapes(ns) == Children(sch, FirstAgent(a, fanOut), lo, Shares(sch, n, fanOut), fanOut, n)
    requires table == Run(Empty, LaunchSteps(FirstAgent(a, fanOut), lo, Shares(sch, n, fanOut)))
    requires VALIDBACKENDIDS !in AgentsOf(Shapes(ns)) ==> FiledAll(ns)
    requires RaisedAll(ns)
    ensures Shape(Site(a, table, ns)) == Tree(sch, a, lo, n, fanOut)
    ensures VALIDBACKENDIDS !in Agents(Shape(Site(a, table, ns))) ==> Filed(Site(a, table, ns))
    ensures Raised(Site(a, table, ns))
  {
    hide Invariant, Shares, Unassigned, Children, LaunchSteps, Run;
    var next, steps := FirstAgent(a, fanOut), Shares(sch, n, fanOut);
    EmptyModest();
    LaunchModest(Empty, next, lo, steps);
    NothingAssigned(next, lo);
    LaunchIsRun(sch, Empty, next, lo, steps, fanOut, n);
    if VALIDBACKENDIDS !in AgentsOf(Shapes(ns)) {
      UnusedFits(false, Shapes(ns));
      EmptyInvariant();
      RunKeepsInvariant(Empty, LaunchSteps(next, lo, steps));
    }
  }

  lemma NothingAssigned(next: int, lo: int)
    ensures Unassigned(Empty.groups, next, lo) && SlicesOf(Empty.groups, SCI_GROUP_ALL) == map[]
  {
  }

  lemma {:induction false} UnusedFits(attached: bool, ts: seq<Node>)
    requires VALIDBACKENDIDS !in AgentsOf(ts)
    ensures Fits(attached, ts)
    decreases ts
  {
    if ts != [] {
      AgentsHead(ts);
      UnusedFits(attached || ts[0].BackEnd? || ts[0].id == VALIDBACKENDIDS, ts[1..]);
    }
  }

  // ----- tables during the launch -----

  /** ALL at most, with proper back end ids, and no successor that is the handle of the attached back ends. */
  ghost predicate Modest(t: Table) {
    && t.groups.Keys <= {SCI_GROUP_ALL}
    && (forall x :: x in Slice(t.groups, SCI_GROUP_ALL, VALIDBACKENDIDS) ==> x >= 0)
    && VALIDBACKENDIDS !in SuccListAt(t, SCI_GROUP_ALL)
  }

  lemma EmptyModest()
    ensures Modest(Empty)
  {
  }

  lemma {:induction false} LaunchModest(t: Table, next: int, lo: int, steps: seq<nat>)
    requires Modest(t) && lo >= 0
    ensures Modest(Run(t, LaunchSteps(next, lo, steps)))
    decreases |steps|
  {
    hide Apply, Modest;
    if steps != [] {
      var all := LaunchSteps(next, lo, steps);
      if steps[0] == 1 {
        assert all[1..] == LaunchSteps(next, lo + 1, steps[1..]);
        AttachModest(t, lo);
        LaunchModest(Apply(t, all[0]), next, lo + 1, steps[1..]);
      } else {
        assert all[1..] == LaunchSteps(next - 1, lo + steps[0], steps[1..]);
        AgentModest(t, next, lo, lo + steps[0] - 1);
        LaunchModest(Apply(t, all[0]), next - 1, lo + steps[0], steps[1..]);
      }
    }
  }

  lemma AttachModest(t: Table, lo: int)
    requires Modest(t) && lo >= 0
    ensures Modest(Apply(t, AddBEStep(SCI_GROUP_ALL, VALIDBACKENDIDS, lo)))
  {
    hide SuccListOf, ResetMany;
    var s := Slice(t.groups, SCI_GROUP_ALL, VALIDBACKENDIDS) + {lo};
    var t1 := t.(groups := PutSlice(t.groups, SCI_GROUP_ALL, VALIDBACKENDIDS, s));
    ResetGroups(t1, {SCI_GROUP_ALL});
    ResetSuccList(t1, SCI_GROUP_ALL);
    CopiesOf(SlicesOf(t1.groups, SCI_GROUP_ALL), VALIDBACKENDIDS);
    assert VALIDBACKENDIDS !in multiset(SuccListOf(SlicesOf(t1.groups, SCI_GROUP_ALL)));
  }

  lemma ResetSuccList(t: Table, g: int)
    ensures SuccListAt(ResetMany(t, {g}), g) == SuccListOf(SlicesOf(t.groups, g))
  {
    hide SuccListOf, BeListOf, SlicesOf;
  }

  lemma AgentModest(t: Table, a: int, lo: int, hi: int)
    requires Modest(t) && lo >= 0
    ensures Modest(Apply(t, InitSubGroupStep(a, lo, hi)))
  {
    hide Span;
    var s := Range(lo, hi + 1).Ids();
    SlicePut(t.groups, a, s);
    forall x | x in s
      ensures x >= 0
    {
      assert Range(lo, hi + 1).Has(x);
    }
    SpanAbove(lo, hi + 1);
  }

  lemma SlicePut(groups: GroupMap, a: int, s: set<int>)
    ensures Slice(PutSlice(groups, SCI_GROUP_ALL, a, s), SCI_GROUP_ALL, VALIDBACKENDIDS)
            == if a == VALIDBACKENDIDS then s else Slice(groups, SCI_GROUP_ALL, VALIDBACKENDIDS)
  {
  }

  lemma SpanAbove(lo: int, hi: int)
    requires lo >= 0
    ensures VALIDBACKENDIDS !in Span(lo, hi)
  {
  }

  lemma PlanDone(next: int, at: int, steps: seq<nat>, m: map<int, string>)
    ensures Plan(next, at, steps, m) == [] ==> steps == []
  {
  }

  // ----- what the deployed tree does -----

  lemma {:induction false} TreePopulated(sch: Scheme, a: int, lo: int, n: nat, fanOut: nat)
    requires Works(sch, fanOut) && n > 0
    ensures Populated(Tree(sch, a, lo, n, fanOut))
    decreases n, 1, 0
  {
    hide Shares;
    SplitProper(sch, n, fanOut);
    TreeIsAgent(sch, a, lo, n, fanOut);
    assert Span(lo, lo + n)[0] == lo;
    ChildrenPopulated(sch, FirstAgent(a, fanOut), lo, Shares(sch, n, fanOut), fanOut, n);
  }

  lemma {:induction false} ChildrenPopulated(sch: Scheme, next: int, lo: int, steps: seq<nat>, fanOut: nat, n: nat)
    requires Works(sch, fanOut) && Proper(steps, n)
    ensures PopulatedAll(Children(sch, next, lo, steps, fanOut, n))
    decreases n, 0, |steps|
  {
    hide Tree, Populated;
    if steps != [] {
      var s, rest := steps[0], steps[1..];
      if s == 1 {
        ChildrenPopulated(sch, next, lo + 1, rest, fanOut, n);
        BackEndPopulated(lo);
        PopulatedCons(BackEnd(lo), Children(sch, next, lo + 1, rest, fanOut, n));
      } else {
        TreePopulated(sch, next, lo, s, fanOut);
        ChildrenPopulated(sch, next - 1, lo + s, rest, fanOut, n);
        PopulatedCons(Tree(sch, next, lo, s, fanOut), Children(sch, next - 1, lo + s, rest, fanOut, n));
      }
    }
  }

  lemma BackEndPopulated(id: int)
    ensures Populated(BackEnd(id))
  {
  }

  lemma PopulatedCons(t: Node, ts: seq<Node>)
    requires Populated(t) && PopulatedAll(ts)
    ensures PopulatedAll([t] + ts)
  {
    assert ([t] + ts)[1..] == ts;
  }

  /**
   * The tree of either scheme, as `Deploy` returns it for the front end, when its back ends fit in `d` levels: all
   * agent ids differ, every back end is a leaf once, and it delivers if and only if no agent got the reserved id,
   * that is, if and only if there are too few back ends for that.
   */
  lemma DeployedTreeDelivers(sch: Scheme, net: Net, lo: int, n: nat, fanOut: nat, d: nat)
    requires Works(sch, fanOut) && lo >= 0 && d >= 1 && 0 < n <= Capacity(sch, fanOut, d)
    requires Shape(net) == Tree(sch, -1, lo, n, fanOut) && Raised(net)
    requires VALIDBACKENDIDS !in Agents(Shape(net)) ==> Filed(net)
    ensures NoDups(Agents(Shape(net))) && Leaves(Shape(net)) == Span(lo, lo + n) && Depth(Shape(net)) <= d
    ensures Delivers(net, d) <==> VALIDBACKENDIDS !in Agents(Shape(net))
    ensures Delivers(net, d) <==> n < Threshold(sch, fanOut, VALIDBACKENDIDS)
  {
    hide Tree, Delivers, Depth, Filed, Capacity, Numbered, Raised, Populated, Enough;
    ThresholdExact(sch, lo, n, fanOut, VALIDBACKENDIDS);
    TreeIsAgent(sch, -1, lo, n, fanOut);
    TreeDepthIff(sch, -1, lo, n, fanOut, d);
    TreeNumbered(sch, -1, lo, n, fanOut);
    TreePopulated(sch, -1, lo, n, fanOut);
    DeployedDeliversIff(net, fanOut, lo, n, d);
  }

  /** With even halves an agent gets the reserved id from 2^30 + 1 back ends on. */
  lemma HalvesThreshold()
    ensures Threshold(Even, 2, VALIDBACKENDIDS) == 0x4000_0001
  {
    hide Enough;
    PowTen();
    LeftmostEnough(30, 2);
  }

  /** So a tree of that size, as it is deployed, does not deliver. */
  lemma HalvesLose(net: Net, lo: int, d: nat)
    requires lo >= 0 && d >= 1 && 0x4000_0001 <= Capacity(Even, 2, d)
    requires Shape(net) == Tree(Even, -1, lo, 0x4000_0001, 2) && Raised(net)
    ensures VALIDBACKENDIDS in Agents(Shape(net)) && !Delivers(net, d)
  {
    hide Tree, Delivers, Filed, Capacity, Raised, Enough;
    HalvesThreshold();
    ThresholdExact(Even, lo, 0x4000_0001, 2, VALIDBACKENDIDS);
    DeployedTreeDelivers(Even, net, lo, 0x4000_0001, 2, d);
  }

  /** Every way is clear of the id that means "not found" exactly while there are too few back ends for it. */
  lemma AllClearIff(sch: Scheme, lo: int, n: nat, fanOut: nat)
    requires Works(sch, fanOut) && n > 0
    ensures (forall x :: x in Leaves(Tree(sch, -1, lo, n, fanOut)) ==> Clear(Tree(sch, -1, lo, n, fanOut), x))
            <==> n < Threshold(sch, fanOut, INVLIDSUCCESSORID)
  {
    hide Tree, Enough, Populated, Agents, Leaves, Avoids;
    var t := Tree(sch, -1, lo, n, fanOut);
    ThresholdExact(sch, lo, n, fanOut, INVLIDSUCCESSORID);
    RootOf(sch, -1, lo, n, fanOut);
    if INVLIDSUCCESSORID in Agents(t) {
      TreeIsAgent(sch, -1, lo, n, fanOut);
      TreePopulated(sch, -1, lo, n, fanOut);
      SpanNoDups(lo, lo + n);
      var x := LeafBelow(t, INVLIDSUCCESSORID);
    } else {
      forall x
        ensures Clear(t, x)
      {
        UnusedAvoided(t, x, INVLIDSUCCESSORID);
      }
    }
  }
}
