/** Freeing a group: the message goes to the successors of the group, then the node forgets it. */
module GroupFrees {
  import opened SortedSets
  import opened AgentNumbers
  import opened Tables
  import opened Runs
  import opened Delivery
  import opened GroupCommands

  /** `GROUP_FREE`: a node hands the message on to the successors of the group and then removes it. */
  function Freed(net: Net, g: int): Net
    decreases net, 1
  {
    match net
    case Leaf(_) => net
    case Site(id, table, ns) =>
      Site(id, Remove(table, g), if g in table.groups then FreedAll(ns, SuccListAt(table, g), g) else ns)
  }

  function FreedAll(ns: seq<Net>, succ: seq<int>, g: int): (ns': seq<Net>)
    ensures |ns'| == |ns|
    decreases ns, 0
  {
    if ns == [] then [] else [if ns[0].id in succ then Freed(ns[0], g) else ns[0]] + FreedAll(ns[1..], succ, g)
  }

  /** Every node that gets the message knows the group it removes. */
  ghost predicate Freeable(net: Net, g: int)
    decreases net, 1
  {
    net.Site? ==> g in net.table.groups && FreeableAll(net.children, SuccListAt(net.table, g), g)
  }

  ghost predicate FreeableAll(ns: seq<Net>, succ: seq<int>, g: int)
    decreases ns, 0
  {
    ns != [] ==> (ns[0].id in succ ==> Freeable(ns[0], g)) && FreeableAll(ns[1..], succ, g)
  }

  lemma {:induction false} FreedShape(net: Net, g: int)
    ensures Shape(Freed(net, g)) == Shape(net)
    decreases net, 1
  {
    if net.Site? && g in net.table.groups { FreedShapes(net.children, SuccListAt(net.table, g), g); }
  }

  lemma {:induction false} FreedShapes(ns: seq<Net>, succ: seq<int>, g: int)
    ensures Shapes(FreedAll(ns, succ, g)) == Shapes(ns)
    decreases ns, 0
  {
    if ns != [] {
      FreedShape(ns[0], g);
      FreedShapes(ns[1..], succ, g);
      assert FreedAll(ns, succ, g)[1..] == FreedAll(ns[1..], succ, g);
    }
  }

  lemma FreeTable(t: Table, g: int)
    requires Invariant(t) && g in t.groups && g != SCI_GROUP_ALL
    ensures Invariant(Remove(t, g)) && g !in Remove(t, g).groups
    ensures forall h :: h != g ==> (h in Remove(t, g).groups <==> h in t.groups)
    ensures forall h :: SlicesOf(Remove(t, g).groups, h) == if h == g then map[] else SlicesOf(t.groups, h)
  {
    CommandInvariant(t, RemoveStep(g));
  }

  /** Freeing a group that is conveyed reaches only nodes that know it, and leaves every table sound. */
  lemma {:induction false} FreeConveyed(net: Net, g: int, members: set<int>)
    requires net.Site? && Filed(net) && Conveys(net, g, members) && g in net.table.groups && g != SCI_GROUP_ALL
    ensures Freeable(net, g) && Filed(Freed(net, g))
    decreases net, 1
  {
    hide Invariant, TableOf, ServesAll, Remove;
    FreeTable(net.table, g);
    FreedShapes(net.children, SuccListAt(net.table, g), g);
    FreeConveyedAll(net.children, SuccListAt(net.table, g), g, members);
  }

  lemma {:induction false} FreeConveyedAll(ns: seq<Net>, succ: seq<int>, g: int, members: set<int>)
    requires FiledAll(ns) && ConveysAll(ns, g, members) && g != SCI_GROUP_ALL && ServesAll(succ, Shapes(ns), members)
    ensures FreeableAll(ns, succ, g) && FiledAll(FreedAll(ns, succ, g))
    decreases ns, 0
  {
    hide Filed, Conveys, Serves, Freed, Freeable;
    if ns != [] {
      var ts := Shapes(ns);
      assert ts[1..] == Shapes(ns[1..]);
      ServesTail(succ, ts, members);
      FreeConveyedAll(ns[1..], succ, g, members);
      FreeConveyedFirst(ns[0], succ, g, members);
      assert FreedAll(ns, succ, g)[1..] == FreedAll(ns[1..], succ, g);
    }
  }

  lemma {:induction false} FreeConveyedFirst(net: Net, succ: seq<int>, g: int, members: set<int>)
    requires Filed(net) && Conveys(net, g, members) && g != SCI_GROUP_ALL && Serves(succ, Shape(net), members)
    ensures net.id in succ ==> Freeable(net, g) && Filed(Freed(net, g))
    decreases net, 2
  {
    hide Filed, Conveys, Leaves, Elements, Freeable;
    if net.Leaf? {
      LeafFreed(net, g);
    } else if net.id in succ {
      assert multiset(succ)[net.id] > 0;
      ConveyedKnown(net, g, members);
      FreeConveyed(net, g, members);
    }
  }

  /** Freeing a group undoes it everywhere: afterwards no node has a slice of it. */
  lemma {:induction false} FreeClears(net: Net, g: int, members: set<int>)
    requires net.Site? && Filed(net) && Sound(Shapes(net.children)) && Carries(net, g, members) && g in net.table.groups
    ensures Carries(Freed(net, g), g, {})
    decreases net, 1
  {
    hide Invariant, TableOf, Within, Sound, SuccListOf, ServesAll;
    var ts, succ := Shapes(net.children), SuccListAt(net.table, g);
    SuccCoherent(net.table, g);
    WithinServes(ts, succ, members);
    FreedShapes(net.children, succ, g);
    FreeClearsAll(net.children, succ, g, members);
    WithinNothing(TableOf(ts));
  }

  lemma WithinNothing(all: Slices)
    ensures Within(all, {}) == map[]
  {
  }

  lemma {:induction false} FreeClearsAll(ns: seq<Net>, succ: seq<int>, g: int, members: set<int>)
    requires FiledAll(ns) && Sound(Shapes(ns)) && CarriesAll(ns, g, members) && ServesAll(succ, Shapes(ns), members)
    ensures CarriesAll(FreedAll(ns, succ, g), g, {})
    decreases ns, 0
  {
    hide Filed, Carries, Sound, Serves, Freed;
    if ns != [] {
      var ts := Shapes(ns);
      assert ts[1..] == Shapes(ns[1..]);
      SoundParts(ts);
      ServesTail(succ, ts, members);
      FreeClearsAll(ns[1..], succ, g, members);
      FreeClearsFirst(ns[0], succ, g, members);
      assert FreedAll(ns, succ, g)[1..] == FreedAll(ns[1..], succ, g);
    }
  }

  lemma {:induction false} FreeClearsFirst(net: Net, succ: seq<int>, g: int, members: set<int>)
    requires Filed(net) && AgentsSound(Agents(Shape(net))) && LeavesSound(Leaves(Shape(net)))
    requires Carries(net, g, members) && Serves(succ, Shape(net), members)
    ensures Carries(if net.id in succ then Freed(net, g) else net, g, {})
    decreases net, 2
  {
    hide Sound, Filed, Carries, Leaves, Elements;
    SoundBelow(Shape(net));
    if net.Leaf? {
      LeafFreed(net, g);
    } else if net.id in succ {
      assert multiset(succ)[net.id] > 0;
      BroadcastExact(net, g, members);
      FreeClears(net, g, members);
    } else {
      assert multiset(succ)[net.id] == 0;
      FewerCarried(net, g, members);
    }
  }

  lemma LeafFreed(net: Net, g: int)
    requires net.Leaf?
    ensures Freed(net, g) == net && Filed(net) && Carries(net, g, {}) && Freeable(net, g)
  {
  }

  /** A group without members below a node is carried there as the empty group. */
  lemma {:induction false} FewerCarried(net: Net, g: int, members: set<int>)
    requires Carries(net, g, members) && Elements(Leaves(Shape(net))) * members == {}
    requires net.Site? ==> Sound(Shapes(net.children))
    ensures Carries(net, g, {})
    decreases net, 1
  {
    if net.Site? {
      hide Sound, TableOf, Within, Leaves, Elements;
      LeavesBelow(net);
      WithinEmptyIff(Shapes(net.children), members);
      WithinNothing(TableOf(Shapes(net.children)));
      FewerCarriedAll(net.children, g, members);
    }
  }

  lemma {:induction false} FewerCarriedAll(ns: seq<Net>, g: int, members: set<int>)
    requires CarriesAll(ns, g, members) && Sound(Shapes(ns)) && Elements(LeavesOf(Shapes(ns))) * members == {}
    ensures CarriesAll(ns, g, {})
    decreases ns, 0
  {
    hide Sound, Carries;
    if ns != [] {
      var ts := Shapes(ns);
      assert ts[1..] == Shapes(ns[1..]);
      SoundParts(ts);
      SoundBelow(ts[0]);
      assert Elements(LeavesOf(ts)) == Elements(Leaves(ts[0])) + Elements(LeavesOf(ts[1..]));
      FewerCarried(ns[0], g, members);
      FewerCarriedAll(ns[1..], g, members);
    }
  }

  lemma {:induction false} FreeOthers(net: Net, g: int, h: int, members: set<int>)
    requires Carries(net, h, members) && h != g
    ensures Carries(Freed(net, g), h, members)
    decreases net, 1
  {
    if net.Site? {
      hide TableOf, Within;
      RemoveOther(net.table, g, h);
      if g in net.table.groups {
        FreedShapes(net.children, SuccListAt(net.table, g), g);
        FreeOthersAll(net.children, SuccListAt(net.table, g), g, h, members);
      }
    }
  }

  lemma RemoveOther(t: Table, g: int, h: int)
    requires h != g
    ensures SlicesOf(Remove(t, g).groups, h) == SlicesOf(t.groups, h) && (h in Remove(t, g).groups <==> h in t.groups)
    ensures SuccListAt(Remove(t, g), h) == SuccListAt(t, h)
  {
  }

  lemma {:induction false} FreeOthersAll(ns: seq<Net>, succ: seq<int>, g: int, h: int, members: set<int>)
    requires CarriesAll(ns, h, members) && h != g
    ensures CarriesAll(FreedAll(ns, succ, g), h, members)
    decreases ns, 0
  {
    hide Carries, Freed;
    if ns != [] {
      if ns[0].id in succ { FreeOthers(ns[0], g, h, members); }
      FreeOthersAll(ns[1..], succ, g, h, members);
      assert FreedAll(ns, succ, g)[1..] == FreedAll(ns[1..], succ, g);
    }
  }

  lemma {:induction false} FreeUnknown(net: Net, g: int, h: int)
    requires Unknown(net, h) && h != g
    ensures Unknown(Freed(net, g), h)
    decreases net, 1
  {
    if net.Site? {
      RemoveOther(net.table, g, h);
      if g in net.table.groups { FreeUnknownAll(net.children, SuccListAt(net.table, g), g, h); }
    }
  }

  lemma {:induction false} FreeUnknownAll(ns: seq<Net>, succ: seq<int>, g: int, h: int)
    requires UnknownAll(ns, h) && h != g
    ensures UnknownAll(FreedAll(ns, succ, g), h)
    decreases ns, 0
  {
    hide Unknown, Freed;
    if ns != [] {
      if ns[0].id in succ { FreeUnknown(ns[0], g, h); }
      FreeUnknownAll(ns[1..], succ, g, h);
      assert FreedAll(ns, succ, g)[1..] == FreedAll(ns[1..], succ, g);
    }
  }

  lemma {:induction false} FreeOthersConveyed(net: Net, g: int, h: int, members: set<int>)
    requires Conveys(net, h, members) && h != g
    ensures Conveys(Freed(net, g), h, members)
    decreases net, 1
  {
    if net.Site? {
      hide ServesAll, Elements;
      RemoveOther(net.table, g, h);
      if g in net.table.groups {
        FreedShapes(net.children, SuccListAt(net.table, g), g);
        FreeOthersConveyedAll(net.children, SuccListAt(net.table, g), g, h, members);
      }
    }
  }

  lemma {:induction false} FreeOthersConveyedAll(ns: seq<Net>, succ: seq<int>, g: int, h: int, members: set<int>)
    requires ConveysAll(ns, h, members) && h != g
    ensures ConveysAll(FreedAll(ns, succ, g), h, members)
    decreases ns, 0
  {
    hide Conveys, Freed;
    if ns != [] {
      if ns[0].id in succ { FreeOthersConveyed(ns[0], g, h, members); }
      FreeOthersConveyedAll(ns[1..], succ, g, h, members);
      assert FreedAll(ns, succ, g)[1..] == FreedAll(ns[1..], succ, g);
    }
  }
}
