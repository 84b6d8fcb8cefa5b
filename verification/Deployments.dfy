/** What a tree does once it has been deployed, and what one agent with the reserved id does to it. */
module Deployments {
  import opened SortedSets
  import opened Groups
  import opened AgentNumbers
  import opened Tables
  import opened Delivery
  import opened Sights
  import opened Refinement
  import opened Sessions

  /**
   * How launching leaves a tree, whatever the ids: every table has ALL at most, files exactly the node's children, and
   * never counts the handle of the attached back ends among the successors.
   */
  ghost predicate Raised(net: Net)
    decreases net, 1
  {
    net.Site? ==>
      && net.table.groups.Keys <= {SCI_GROUP_ALL}
      && SlicesOf(net.table.groups, SCI_GROUP_ALL) == TableOf(Shapes(net.children))
      && VALIDBACKENDIDS !in SuccListAt(net.table, SCI_GROUP_ALL)
      && RaisedAll(net.children)
  }

  ghost predicate RaisedAll(ns: seq<Net>)
    decreases ns, 0
  {
    ns != [] ==> Raised(ns[0]) && RaisedAll(ns[1..])
  }

  /** Before the first request a sound tree is seen as it was launched. */
  lemma {:induction false} RaisedSight(net: Net)
    requires Raised(net) && Filed(net) && Populated(Shape(net)) && (net.Site? ==> Sound(Shapes(net.children)))
    ensures Tidy(net) && SightOf(net) == Sighted(Shape(net))
    decreases net, 1
  {
    if net.Site? {
      hide Invariant, TableOf, Sound, BookOf, TidyTable;
      RaisedSights(net.children);
      AllIsBelow(net.children);
      RaisedTable(net.table.groups, Shapes(net.children));
    }
  }

  lemma RaisedTable(groups: GroupMap, ts: seq<Node>)
    requires groups.Keys <= {SCI_GROUP_ALL} && SlicesOf(groups, SCI_GROUP_ALL) == TableOf(ts)
    requires Sound(ts) && PopulatedAll(ts) && LeavesOf(ts) != []
    ensures TidyTable(groups, TableOf(ts)) && BookOf(groups) == map[SCI_GROUP_ALL := Union(TableOf(ts))]
  {
    hide TableOf, Sound, Within, Union, LeavesOf;
    var all := TableOf(ts);
    forall x
      ensures x in Union(all) <==> x in LeavesOf(ts)
    {
      SlicesAreLeaves(ts, x);
    }
    assert Elements(LeavesOf(ts)) <= Union(all);
    WithinAll(ts, Union(all));
    SomeTable(ts);
    forall g
      ensures SlicesOf(groups, g) == Within(all, GroupSet(groups, g))
    {
      if g != SCI_GROUP_ALL { NothingWithin(groups, all, g); }
    }
  }

  lemma SomeTable(ts: seq<Node>)
    requires Sound(ts) && LeavesOf(ts) != []
    ensures TableOf(ts) != map[]
  {
    TableNotEmpty(ts);
  }

  lemma NothingWithin(groups: GroupMap, all: Slices, g: int)
    requires g !in groups
    ensures SlicesOf(groups, g) == Within(all, GroupSet(groups, g))
  {
    assert GroupSet(groups, g) == {};
  }

  lemma {:induction false} RaisedSights(ns: seq<Net>)
    requires RaisedAll(ns) && FiledAll(ns) && PopulatedAll(Shapes(ns)) && Sound(Shapes(ns))
    ensures TidyAll(ns) && SightsOf(ns) == SightedAll(Shapes(ns))
    decreases ns, 0
  {
    hide Raised, Filed, Populated, Sound, Tidy, SightOf, Sighted, Shape;
    if ns != [] {
      var ts := Shapes(ns);
      assert ts[1..] == Shapes(ns[1..]);
      SoundParts(ts);
      SoundBelow(ts[0]);
      ShapeParts(ns[0]);
      RaisedSight(ns[0]);
      RaisedSights(ns[1..]);
    }
  }

  lemma ShapeParts(net: Net)
    ensures net.Site? <==> Shape(net).Agent?
    ensures net.Site? ==> Shape(net).children == Shapes(net.children)
  {
  }

  // ----- only leaves receive anything -----

  lemma {:induction false} OnlyLeavesReceive(net: Net, x: int)
    requires x > SCI_GROUP_ALL && x !in Leaves(Shape(net))
    ensures Received(net, SCI_GROUP_ALL)[x] == 0 && Deliver(net, x) == NotFound
    decreases net, 1
  {
    if net.Site? {
      hide Query;
      var h := Query(SlicesOf(net.table.groups, SCI_GROUP_ALL), x);
      OnlyLeavesReceiveFrom(net.children, SuccListAt(net.table, SCI_GROUP_ALL), h, x);
    }
  }

  lemma {:induction false} OnlyLeavesReceiveFrom(ns: seq<Net>, succ: seq<int>, h: int, x: int)
    requires x > SCI_GROUP_ALL && x !in LeavesOf(Shapes(ns))
    ensures ReceivedFrom(ns, succ, SCI_GROUP_ALL)[x] == 0 && HandOn(ns, h, x) == NotFound && Leaf(x) !in ns
    decreases ns, 0
  {
    hide Received, Deliver, Leaves, Times, Shape;
    if ns != [] {
      var ts := Shapes(ns);
      assert ts[1..] == Shapes(ns[1..]) && ns == [ns[0]] + ns[1..];
      LeafIsLeaf(ns[0]);
      OnlyLeavesReceive(ns[0], x);
      OnlyLeavesReceiveFrom(ns[1..], succ, h, x);
      TimesNone(multiset(succ)[ns[0].id], Received(ns[0], SCI_GROUP_ALL), x);
    }
  }

  lemma LeafIsLeaf(net: Net)
    ensures net.Leaf? ==> net.id in Leaves(Shape(net))
  {
  }

  lemma {:induction false} TimesNone(k: nat, m: multiset<int>, x: int)
    requires k == 0 || m[x] == 0
    ensures Times(k, m)[x] == 0
    decreases k
  {
    if k > 0 { TimesNone(k - 1, m, x); }
  }

  // ----- below an agent with the reserved id -----

  /** A back end below an agent with the reserved id gets no message, neither its own nor one to ALL. */
  lemma {:induction false} LostBelow(net: Net, x: int)
    requires net.Site? && Raised(net) && NoDups(Leaves(Shape(net))) && x > SCI_GROUP_ALL
    requires x in Leaves(Shape(net)) && !Avoids(Shape(net), x, VALIDBACKENDIDS)
    ensures Received(net, SCI_GROUP_ALL)[x] == 0 && Deliver(net, x) == NotFound
    decreases net, 1
  {
    hide Query, TableOf, NoDups;
    var h := Query(SlicesOf(net.table.groups, SCI_GROUP_ALL), x);
    LeavesBelow(net);
    LostAmong(net.children, SuccListAt(net.table, SCI_GROUP_ALL), h, x);
  }

  lemma {:induction false} LostAmong(ns: seq<Net>, succ: seq<int>, h: int, x: int)
    requires RaisedAll(ns) && NoDups(LeavesOf(Shapes(ns))) && x > SCI_GROUP_ALL && VALIDBACKENDIDS !in succ
    requires x in LeavesOf(Shapes(ns)) && !AvoidsBelow(Shapes(ns), x, VALIDBACKENDIDS)
    ensures ReceivedFrom(ns, succ, SCI_GROUP_ALL)[x] == 0
    ensures Leaf(x) !in ns && (h != VALIDBACKENDIDS ==> HandOn(ns, h, x) == NotFound)
    decreases ns, 0
  {
    hide Received, Deliver, Leaves, NoDups, Raised, Avoids;
    var ts, first, rest := Shapes(ns), ns[0], ns[1..];
    assert ts[1..] == Shapes(rest) && ns == [first] + rest;
    SplitNoDups(Leaves(ts[0]), LeavesOf(ts[1..]));
    LeafIsLeaf(first);
    if x in Leaves(ts[0]) {
      OnlyLeavesReceiveFrom(rest, succ, h, x);
      LostFirst(first, x);
      if first.id == VALIDBACKENDIDS { assert multiset(succ)[first.id] == 0; }
    } else {
      OnlyLeavesReceive(first, x);
      LostAmong(rest, succ, h, x);
    }
    TimesNone(multiset(succ)[first.id], Received(first, SCI_GROUP_ALL), x);
  }

  lemma {:induction false} LostFirst(net: Net, x: int)
    requires Raised(net) && NoDups(Leaves(Shape(net))) && x > SCI_GROUP_ALL && x in Leaves(Shape(net))
    requires (net.Site? && net.id == VALIDBACKENDIDS) || !Avoids(Shape(net), x, VALIDBACKENDIDS)
    ensures net.Site?
    ensures net.id != VALIDBACKENDIDS ==> Received(net, SCI_GROUP_ALL)[x] == 0 && Deliver(net, x) == NotFound
    decreases net, 2
  {
    hide Received, Deliver, NoDups, Raised;
    if net.Site? && net.id != VALIDBACKENDIDS { LostBelow(net, x); }
  }

  /** Below an agent there is a back end. */
  lemma {:induction false} LeafBelowAgent(ts: seq<Node>, id: int) returns (x: int)
    requires id in AgentsOf(ts) && PopulatedAll(ts) && NoDups(LeavesOf(ts))
    ensures x in LeavesOf(ts) && !AvoidsBelow(ts, x, id)
    decreases ts, 0
  {
    hide NoDups, Agents, Populated;
    AgentsHead(ts);
    SplitNoDups(Leaves(ts[0]), LeavesOf(ts[1..]));
    if id in Agents(ts[0]) {
      x := LeafBelow(ts[0], id);
    } else {
      x := LeafBelowAgent(ts[1..], id);
    }
  }

  lemma {:induction false} LeafBelow(t: Node, id: int) returns (x: int)
    requires id in Agents(t) && Populated(t) && NoDups(Leaves(t))
    ensures x in Leaves(t) && t.Agent? && (t.id == id || !Avoids(t, x, id))
    decreases t, 1
  {
    hide NoDups;
    if t.id == id {
      x := Leaves(t)[0];
    } else {
      assert id in AgentsOf(t.children);
      x := LeafBelowAgent(t.children, id);
    }
  }

  // ----- numbered trees -----

  lemma SpanNoDups(lo: int, hi: int)
    ensures NoDups(Span(lo, hi)) && forall x :: x in Span(lo, hi) <==> lo <= x < hi
  {
    forall x | lo <= x < hi
      ensures x in Span(lo, hi)
    {
      assert Span(lo, hi)[x - lo] == x;
    }
  }

  /** As long as the levels of the tree keep the indices small enough, no agent has a reserved id. */
  lemma ShallowNoneReserved(t: Node, fanOut: nat, d: nat)
    requires fanOut > 0 && t.Agent? && t.id == -1 && Numbered(t, fanOut) && Depth(t) <= d
    requires MaxIndex(0, fanOut, d) < Index(INVLIDSUCCESSORID)
    ensures VALIDBACKENDIDS !in Agents(t) && forall x :: Clear(t, x)
  {
    MaxIndexGrows(0, 0, fanOut, Depth(t), d);
    forall a | a in Agents(t)
      ensures INVLIDSUCCESSORID < a
    {
      AgentIdBound(t, fanOut, a);
    }
    assert Agents(t) == [t.id] + AgentsOf(t.children);
    assert INVLIDSUCCESSORID !in Agents(t);
    forall x
      ensures Clear(t, x)
    {
      UnusedAvoided(t, x, INVLIDSUCCESSORID);
    }
  }

  lemma NumberedSound(t: Node, fanOut: nat, lo: int, n: nat)
    requires fanOut > 0 && t.Agent? && t.id == -1 && Numbered(t, fanOut) && Leaves(t) == Span(lo, lo + n) && lo >= 0
    requires VALIDBACKENDIDS !in Agents(t)
    ensures Sound(t.children)
  {
    AgentIdsUnique(t, fanOut);
    forall a | a in Agents(t)
      ensures AgentId(a)
    {
      TreeUnder(t, fanOut, a);
    }
    SplitAgentsSound([-1], AgentsOf(t.children));
    SpanNoDups(lo, lo + n);
  }

  /** A tree as it is deployed for the front end over the back ends `lo .. lo + n - 1`. */
  ghost predicate Deployed(net: Net, fanOut: nat, lo: int, n: nat) {
    var t := Shape(net);
    && t.Agent? && t.id == -1 && Numbered(t, fanOut) && Leaves(t) == Span(lo, lo + n) && Populated(t)
    && Raised(net) && (VALIDBACKENDIDS !in Agents(t) ==> Filed(net))
  }

  /**
   * A deployed tree delivers if and only if no agent got the reserved id. An agent with that id gets no messages at
   * all, and so none of the back ends below it does.
   */
  lemma DeployedDeliversIff(net: Net, fanOut: nat, lo: int, n: nat, d: nat)
    requires fanOut > 0 && lo >= 0 && n > 0 && Deployed(net, fanOut, lo, n) && Depth(Shape(net)) <= d
    ensures NoDups(Agents(Shape(net)))
    ensures Delivers(net, d) <==> VALIDBACKENDIDS !in Agents(Shape(net))
  {
    hide Filed, Raised, Numbered, Sound, Populated, Served, IsSession, Agents, Depth, Delivers;
    AgentIdsUnique(Shape(net), fanOut);
    if VALIDBACKENDIDS in Agents(Shape(net)) {
      ReservedLoses(net, fanOut, lo, n, d);
    } else {
      DeployedUnused(net, fanOut, lo, n);
      UnusedDelivers(net, d);
    }
  }

  lemma DeployedUnused(net: Net, fanOut: nat, lo: int, n: nat)
    requires fanOut > 0 && lo >= 0 && Deployed(net, fanOut, lo, n) && VALIDBACKENDIDS !in Agents(Shape(net))
    ensures Unused(net)
  {
    hide Filed, Raised, Numbered, Sound, Populated, Agents, Tidy, Sighted;
    NumberedSound(Shape(net), fanOut, lo, n);
    ShapeParts(net);
    RaisedSight(net);
  }

  lemma UnusedDelivers(net: Net, d: nat)
    requires Unused(net) && Depth(Shape(net)) <= d
    ensures Delivers(net, d)
  {
    hide Unused, Served, IsSession, Depth;
    forall q, g | IsSession(Sighted(Shape(net)), {SCI_GROUP_ALL}, q)
      ensures Served(net, d, q, g)
    {
      SessionServed(net, d, q, g);
    }
  }

  lemma ReservedLoses(net: Net, fanOut: nat, lo: int, n: nat, d: nat)
    requires Deployed(net, fanOut, lo, n) && lo >= 0 && VALIDBACKENDIDS in Agents(Shape(net))
    ensures !Delivers(net, d)
  {
    hide Filed, Raised, Numbered, Populated, Agents, Received, Deliver, Delivers, NoDups, Avoids, IsSession;
    SpanNoDups(lo, lo + n);
    var x := LeafBelow(Shape(net), VALIDBACKENDIDS);
    LostBelow(net, x);
    NotServed(net, d, x);
    NoRequests(Sighted(Shape(net)));
    NotDelivering(net, d, []);
  }

  lemma NoRequests(s: Sight)
    ensures IsSession(s, {SCI_GROUP_ALL}, [])
  {
  }

  /** Someone who gets no message to ALL is not served by the session without requests. */
  lemma NotServed(net: Net, d: nat, x: int)
    requires net.Site? && x in Leaves(Shape(net)) && Received(net, SCI_GROUP_ALL)[x] == 0
    ensures !Served(net, d, [], SCI_GROUP_ALL)
  {
    hide Received, Leaves, Complete, Sights.Below, Audience;
    var s := Sighted(Shape(net));
    SightedFacts(Shape(net), SCI_GROUP_ALL);
    AllHeard(s);
    assert multiset(Sights.Below(s))[x] == 1;
  }

  lemma NotDelivering(net: Net, d: nat, q: seq<Request>)
    requires IsSession(Sighted(Shape(net)), {SCI_GROUP_ALL}, q) && !Served(net, d, q, SCI_GROUP_ALL)
    ensures !Delivers(net, d)
  {
    hide Served, IsSession;
  }
}
