/** Whole runs of the routing table: any sequence of operations whose callers play by the rules. */
module Runs {
  import opened Ranges
  import opened Tables
  import opened TableAlgebra
  import opened Routing
  import opened CacheCoherence

  datatype Step =
    | InitSubGroupStep(succ: int, lo: int, hi: int)
    | AddBEStep(g: int, succ: int, be: int)
    | CreateStep(list: set<int>, g: int)
    | OperateStep(g1: int, g2: int, op: SetOp, newgroup: int)
    | OperateExtStep(g: int, list: set<int>, op: SetOp, newgroup: int)
    | RemoveStep(g: int)
    | RemoveBEStep(be: int)
    | DropSuccessorStep(succ: int)
    | MergeStep(succ: int, incoming: GroupMap, overwrite: bool)

  /** A group id that the allocator has not handed out before, and that is not ALL. */
  ghost predicate Fresh(groups: GroupMap, g: int) {
    g !in groups && g != SCI_GROUP_ALL
  }

  /**
   * What callers guarantee: group ids are fresh, newly added back ends have no other owner, a successor is
   * initialised once, the predefined group is never freed, and a merged table agrees with the local groups.
   */
  ghost predicate Allowed(t: Table, s: Step) {
    var gs := t.groups;
    match s
    case InitSubGroupStep(succ, lo, hi) =>
      lo <= hi && succ !in SlicesOf(gs, SCI_GROUP_ALL) && GroupSet(gs, SCI_GROUP_ALL) !! Range(lo, hi + 1).Ids()
    case AddBEStep(g, succ, be) =>
      if g == SCI_GROUP_ALL then forall d :: d != succ ==> be !in Slice(gs, SCI_GROUP_ALL, d)
      else be in Slice(gs, SCI_GROUP_ALL, succ)
    case CreateStep(list, g) => Fresh(gs, g) && SCI_GROUP_ALL in gs
    case OperateStep(g1, g2, op, h) => Fresh(gs, h) && h != g1 && h != g2 && (op != SCI_UNION ==> g1 in gs)
    case OperateExtStep(g, list, op, h) =>
      Fresh(gs, h) && h != g && (if op == SCI_UNION then SCI_GROUP_ALL in gs else g in gs)
    case RemoveStep(g) => g in gs && g != SCI_GROUP_ALL
    case RemoveBEStep(be) => true
    case DropSuccessorStep(succ) => true
    case MergeStep(succ, incoming, overwrite) =>
      SCI_GROUP_ALL in gs && Reported(succ, incoming) && Agreed(gs, succ, incoming)
  }

  function Apply(t: Table, s: Step): Table {
    match s
    case InitSubGroupStep(succ, lo, hi) => InitSubGroup(t, succ, lo, hi)
    case AddBEStep(g, succ, be) => AddBE(t, g, succ, be)
    case CreateStep(list, g) => Create(t, list, g)
    case OperateStep(g1, g2, op, h) => Operate(t, g1, g2, op, h)
    case OperateExtStep(g, list, op, h) => OperateExt(t, g, list, op, h)
    case RemoveStep(g) => Remove(t, g)
    case RemoveBEStep(be) => RemoveBE(t, be)
    case DropSuccessorStep(succ) => DropSuccessor(t, succ)
    case MergeStep(succ, incoming, overwrite) => Merge(t, succ, incoming, overwrite)
  }

  ghost predicate IsRun(t: Table, steps: seq<Step>)
    decreases |steps|
  {
    steps != [] ==> Allowed(t, steps[0]) && IsRun(Apply(t, steps[0]), steps[1..])
  }

  function Run(t: Table, steps: seq<Step>): Table
    decreases |steps|
  {
    if steps == [] then t else Run(Apply(t, steps[0]), steps[1..])
  }

  lemma StepKeepsOwned(t: Table, s: Step)
    requires Owned(t.groups) && Allowed(t, s)
    ensures Owned(Apply(t, s).groups)
  {
    var gs := t.groups;
    match s {
      case InitSubGroupStep(succ, lo, hi) => NewSuccessorOwned(gs, succ, lo, hi);
      case AddBEStep(g, succ, be) =>
        if g == SCI_GROUP_ALL {
          AttachOwned(gs, succ, be);
        } else {
          GrowGroupOwned(gs, g, succ, be);
        }
      case CreateStep(list, g) => CreateOwned(gs, list, g);
      case OperateStep(g1, g2, op, h) => OperateOwned(gs, g1, g2, op, h);
      case OperateExtStep(g, list, op, h) => OperateExtOwned(gs, g, list, op, h);
      case RemoveStep(g) => RemoveOwned(gs, g);
      case RemoveBEStep(be) => RemoveBEOwned(gs, be);
      case DropSuccessorStep(succ) => DropOwned(gs, succ);
      case MergeStep(succ, incoming, overwrite) => MergeOwnedIff(gs, succ, incoming, overwrite);
    }
  }

  lemma NewSuccessorOwned(gs: GroupMap, succ: int, lo: int, hi: int)
    requires Owned(gs) && succ !in SlicesOf(gs, SCI_GROUP_ALL)
    requires GroupSet(gs, SCI_GROUP_ALL) !! Range(lo, hi + 1).Ids()
    ensures Owned(PutSlice(gs, SCI_GROUP_ALL, succ, Range(lo, hi + 1).Ids()))
  {
    var ids := Range(lo, hi + 1).Ids();
    forall d
      ensures Slice(gs, SCI_GROUP_ALL, d) !! ids
    {
      forall x | x in Slice(gs, SCI_GROUP_ALL, d)
        ensures x in GroupSet(gs, SCI_GROUP_ALL)
      {
        UnionIff(SlicesOf(gs, SCI_GROUP_ALL), x);
      }
    }
    GrowAllOwned(gs, succ, ids);
  }

  lemma AttachOwned(gs: GroupMap, succ: int, be: int)
    requires Owned(gs) && forall d :: d != succ ==> be !in Slice(gs, SCI_GROUP_ALL, d)
    ensures Owned(PutSlice(gs, SCI_GROUP_ALL, succ, Slice(gs, SCI_GROUP_ALL, succ) + {be}))
  {
    var s := Slice(gs, SCI_GROUP_ALL, succ) + {be};
    forall d | d != succ
      ensures Slice(gs, SCI_GROUP_ALL, d) !! s
    {
      var all := SlicesOf(gs, SCI_GROUP_ALL);
      assert d in all && succ in all ==> all[d] !! all[succ];
    }
    GrowAllOwned(gs, succ, s);
  }

  lemma StepKeepsCoherent(t: Table, s: Step)
    requires Coherent(t) && Allowed(t, s)
    ensures Coherent(Apply(t, s))
  {
    match s {
      case InitSubGroupStep(succ, lo, hi) => InitSubGroupCoherentIff(t, succ, lo, hi);
      case AddBEStep(g, succ, be) => AddBECoherent(t, g, succ, be);
      case CreateStep(list, g) => CreateCoherent(t, list, g);
      case OperateStep(g1, g2, op, h) => OperateCoherent(t, g1, g2, op, h);
      case OperateExtStep(g, list, op, h) => OperateExtCoherent(t, g, list, op, h);
      case RemoveStep(g) => RemoveCoherent(t, g);
      case RemoveBEStep(be) => RemoveBECoherent(t, be);
      case DropSuccessorStep(succ) => DropCoherent(t, succ);
      case MergeStep(succ, incoming, overwrite) => MergeCoherent(t, succ, incoming, overwrite);
    }
  }

  lemma {:induction false} RunKeepsInvariant(t: Table, steps: seq<Step>)
    requires Invariant(t) && IsRun(t, steps)
    ensures Invariant(Run(t, steps))
    decreases |steps|
  {
    if steps != [] {
      StepKeepsOwned(t, steps[0]);
      StepKeepsCoherent(t, steps[0]);
      RunKeepsInvariant(Apply(t, steps[0]), steps[1..]);
    }
  }

  lemma EmptyInvariant()
    ensures Invariant(Empty)
  {
    forall g
      ensures CoherentAt(Empty, g)
    {
      NoSlices(Empty, g);
    }
  }

  /**
   * Every reachable table: each back end of each group has one owner, the same for all groups; the cached
   * back-end list names every member of the group exactly once and its count is the size of the group; the
   * cached successor list names every agent in use once and every directly attached member once.
   */
  lemma ReachableTables(steps: seq<Step>, g: int)
    requires IsRun(Empty, steps)
    ensures var t := Run(Empty, steps);
            && Owned(t.groups)
            && multiset(BeListAt(t, g)) == multiset(GroupSet(t.groups, g))
            && BeNumAt(t, g) == |GroupSet(t.groups, g)|
            && multiset(SuccListAt(t, g))
               == multiset(SlicesOf(t.groups, g).Keys - {VALIDBACKENDIDS})
                 + multiset(Slice(t.groups, g, VALIDBACKENDIDS))
            && SuccNumAt(t, g) == |SuccListAt(t, g)|
  {
    EmptyInvariant();
    RunKeepsInvariant(Empty, steps);
    CachesExact(Run(Empty, steps), g);
  }

  lemma CachesExact(t: Table, g: int)
    requires Invariant(t)
    ensures multiset(BeListAt(t, g)) == multiset(GroupSet(t.groups, g))
    ensures BeNumAt(t, g) == |GroupSet(t.groups, g)|
    ensures multiset(SuccListAt(t, g))
            == multiset(SlicesOf(t.groups, g).Keys - {VALIDBACKENDIDS}) + multiset(Slice(t.groups, g, VALIDBACKENDIDS))
    ensures SuccNumAt(t, g) == |SuccListAt(t, g)|
  {
    var sl := SlicesOf(t.groups, g);
    GroupsDisjoint(t.groups, g);
    assert CoherentAt(t, g);
    BeListExact(sl);
    SuccListMultiset(sl);
    assert |multiset(BeListAt(t, g))| == |BeListAt(t, g)|;
    assert |multiset(BeListOf(sl))| == |BeListOf(sl)|;
  }
}
