/** Messages on their way down the tree: one back end, or all members of a group. */
module Delivery {
  import opened SortedSets
  import opened AgentNumbers
  import opened Tables
  import opened TableAlgebra

  // ----- the table of a node -----

  /** File a child: a back end under VALIDBACKENDIDS, an agent under its id with all its leaves. */
  function FileChild(sl: Slices, t: Node): Slices {
    match t
    case BackEnd(id) => sl[VALIDBACKENDIDS := Get(sl, VALIDBACKENDIDS) + {id}]
    case Agent(id, _) => sl[id := Elements(Leaves(t))]
  }

  function FileAll(sl: Slices, ts: seq<Node>): Slices
    decreases ts
  {
    if ts == [] then sl else FileAll(FileChild(sl, ts[0]), ts[1..])
  }

  /** ALL, as the node with these children has it. */
  function TableOf(ts: seq<Node>): Slices {
    FileAll(map[], ts)
  }

  /** Ids that tell an agent from a back end and from the handle of the attached back ends. */
  predicate AgentId(a: int) {
    a < 0 && a != VALIDBACKENDIDS
  }

  ghost predicate AgentsSound(q: seq<int>) {
    NoDups(q) && forall a :: a in q ==> AgentId(a)
  }

  ghost predicate LeavesSound(q: seq<int>) {
    NoDups(q) && forall x :: x in q ==> x >= 0
  }

  /** Children whose agents and back ends all have different ids, of the right sign. */
  ghost predicate Sound(ts: seq<Node>) {
    AgentsSound(AgentsOf(ts)) && LeavesSound(LeavesOf(ts))
  }

  lemma SplitNoDups(p: seq<int>, q: seq<int>)
    requires NoDups(p + q)
    ensures NoDups(p) && NoDups(q) && forall x :: x in p ==> x !in q
  {
    var u := p + q;
    assert forall i :: 0 <= i < |p| ==> u[i] == p[i];
    assert forall i :: 0 <= i < |q| ==> u[|p| + i] == q[i];
  }

  lemma SplitAgentsSound(p: seq<int>, q: seq<int>)
    requires AgentsSound(p + q)
    ensures AgentsSound(p) && AgentsSound(q) && forall x :: x in p ==> x !in q
  {
    SplitNoDups(p, q);
    assert forall x :: x in p || x in q ==> x in p + q;
  }

  lemma SplitLeavesSound(p: seq<int>, q: seq<int>)
    requires LeavesSound(p + q)
    ensures LeavesSound(p) && LeavesSound(q) && forall x :: x in p ==> x !in q
  {
    SplitNoDups(p, q);
    assert forall x :: x in p || x in q ==> x in p + q;
  }

  /** The first child, and the others. */
  lemma SoundParts(ts: seq<Node>)
    requires Sound(ts) && ts != []
    ensures Sound(ts[1..]) && LeavesSound(Leaves(ts[0])) && AgentsSound(Agents(ts[0]))
    ensures forall x :: x in Leaves(ts[0]) ==> x !in LeavesOf(ts[1..])
    ensures forall x :: x in Agents(ts[0]) ==> x !in AgentsOf(ts[1..])
  {
    SplitAgentsSound(Agents(ts[0]), AgentsOf(ts[1..]));
    SplitLeavesSound(Leaves(ts[0]), LeavesOf(ts[1..]));
  }

  lemma SoundBelow(t: Node)
    requires AgentsSound(Agents(t)) && LeavesSound(Leaves(t))
    ensures t.Agent? ==> Sound(t.children) && AgentId(t.id)
    ensures t.BackEnd? ==> t.id >= 0
  {
    if t.Agent? {
      SplitAgentsSound([t.id], AgentsOf(t.children));
      assert t.id in [t.id];
    } else {
      assert t.id in Leaves(t);
    }
  }

  // ----- what the table of a node says -----

  /** The directly attached slice holds the attached back ends. */
  lemma {:induction false} DirectSlice(sl: Slices, ts: seq<Node>, x: int)
    requires Sound(ts)
    ensures x in Get(FileAll(sl, ts), VALIDBACKENDIDS) <==> x in Get(sl, VALIDBACKENDIDS) || BackEnd(x) in ts
    decreases ts
  {
    if ts != [] {
      SoundParts(ts);
      SoundBelow(ts[0]);
      DirectSlice(FileChild(sl, ts[0]), ts[1..], x);
      assert ts == [ts[0]] + ts[1..];
    }
  }

  /** A successor that is none of the children keeps what it had. */
  lemma {:induction false} OtherSlice(sl: Slices, ts: seq<Node>, c: int)
    requires Sound(ts) && c != VALIDBACKENDIDS && c !in AgentsOf(ts)
    ensures Get(FileAll(sl, ts), c) == Get(sl, c) && (c in FileAll(sl, ts) <==> c in sl)
    decreases ts
  {
    if ts != [] {
      SoundParts(ts);
      AgentsHead(ts);
      OtherSlice(FileChild(sl, ts[0]), ts[1..], c);
    }
  }

  lemma AgentsHead(ts: seq<Node>)
    requires ts != []
    ensures forall a :: a in AgentsOf(ts) <==> a in Agents(ts[0]) || a in AgentsOf(ts[1..])
    ensures ts[0].Agent? ==> ts[0].id in Agents(ts[0])
  {
  }

  lemma {:induction false} ChildAgentListed(ts: seq<Node>, i: nat)
    requires i < |ts| && ts[i].Agent?
    ensures ts[i].id in AgentsOf(ts)
  {
    AgentsHead(ts);
    if i > 0 { ChildAgentListed(ts[1..], i - 1); }
  }

  /** The slice of a child agent holds exactly the back ends below it. */
  lemma {:induction false} AgentSlice(sl: Slices, ts: seq<Node>, i: nat)
    requires Sound(ts) && i < |ts| && ts[i].Agent?
    ensures ts[i].id in FileAll(sl, ts) && Get(FileAll(sl, ts), ts[i].id) == Elements(Leaves(ts[i]))
    decreases ts
  {
    SoundParts(ts);
    AgentsHead(ts);
    if i == 0 {
      SoundBelow(ts[0]);
      OtherSlice(FileChild(sl, ts[0]), ts[1..], ts[0].id);
    } else {
      AgentSlice(FileChild(sl, ts[0]), ts[1..], i - 1);
    }
  }

  /** Every successor in the table is a child. */
  lemma {:induction false} KeysAreChildren(sl: Slices, ts: seq<Node>, c: int)
    requires Sound(ts) && c in FileAll(sl, ts) && c !in sl && c != VALIDBACKENDIDS
    ensures exists i :: 0 <= i < |ts| && ts[i].Agent? && ts[i].id == c
    decreases ts
  {
    if ts != [] {
      SoundParts(ts);
      if ts[0].Agent? && ts[0].id == c {
        assert ts[0].id == c;
      } else {
        KeysAreChildren(FileChild(sl, ts[0]), ts[1..], c);
        var i :| 0 <= i < |ts[1..]| && ts[1..][i].Agent? && ts[1..][i].id == c;
        assert ts[i + 1].id == c;
      }
    }
  }

  // ----- one back end -----

  lemma {:induction false} LeafOfChild(ts: seq<Node>, i: nat, x: int)
    requires i < |ts| && x in Leaves(ts[i])
    ensures x in LeavesOf(ts)
  {
    if i > 0 { LeafOfChild(ts[1..], i - 1, x); }
  }

  lemma {:induction false} ChildOfLeaf(ts: seq<Node>, x: int) returns (i: nat)
    requires x in LeavesOf(ts)
    ensures i < |ts| && x in Leaves(ts[i])
  {
    if x in Leaves(ts[0]) {
      i := 0;
    } else {
      i := ChildOfLeaf(ts[1..], x);
      i := i + 1;
    }
  }

  lemma {:induction false} LeafChildUnique(ts: seq<Node>, i: nat, j: nat, x: int)
    requires Sound(ts) && i < |ts| && j < |ts| && x in Leaves(ts[i]) && x in Leaves(ts[j])
    ensures i == j
  {
    SoundParts(ts);
    if i == 0 && j > 0 {
      LeafOfChild(ts[1..], j - 1, x);
    } else if j == 0 && i > 0 {
      LeafOfChild(ts[1..], i - 1, x);
    } else if i > 0 && j > 0 {
      LeafChildUnique(ts[1..], i - 1, j - 1, x);
    }
  }

  lemma {:induction false} ChildSound(ts: seq<Node>, i: nat)
    requires Sound(ts) && i < |ts|
    ensures LeavesSound(Leaves(ts[i])) && AgentsSound(Agents(ts[i]))
  {
    SoundParts(ts);
    if i > 0 { ChildSound(ts[1..], i - 1); }
  }

  lemma {:induction false} ChildDepth(ts: seq<Node>, i: nat)
    requires i < |ts|
    ensures Depth(ts[i]) <= DepthOf(ts)
  {
    if i > 0 { ChildDepth(ts[1..], i - 1); }
  }

  /** The handle under which a child is filed. */
  function Handle(t: Node): int {
    if t.BackEnd? then VALIDBACKENDIDS else t.id
  }

  /** The table holds a back end under the child it hangs below, and nowhere else. */
  lemma TableOwner(ts: seq<Node>, i: nat, x: int, c: int)
    requires Sound(ts) && i < |ts| && x in Leaves(ts[i])
    ensures x in Get(TableOf(ts), c) <==> c == Handle(ts[i])
  {
    ChildSound(ts, i);
    SoundBelow(ts[i]);
    if c == VALIDBACKENDIDS {
      DirectSlice(map[], ts, x);
      if BackEnd(x) in ts {
        var j :| 0 <= j < |ts| && ts[j] == BackEnd(x);
        LeafChildUnique(ts, i, j, x);
      }
    } else if c in TableOf(ts) {
      KeysAreChildren(map[], ts, c);
      var j :| 0 <= j < |ts| && ts[j].Agent? && ts[j].id == c;
      AgentSlice(map[], ts, j);
      if x in Leaves(ts[j]) { LeafChildUnique(ts, i, j, x); }
      if ts[i].Agent? && ts[i].id == c { AgentSlice(map[], ts, i); }
    } else if ts[i].Agent? {
      AgentSlice(map[], ts, i);
    }
  }

  lemma TableMisses(ts: seq<Node>, x: int, c: int)
    requires Sound(ts) && x !in LeavesOf(ts)
    ensures x !in Get(TableOf(ts), c)
  {
    if c == VALIDBACKENDIDS {
      DirectSlice(map[], ts, x);
      if BackEnd(x) in ts {
        var j :| 0 <= j < |ts| && ts[j] == BackEnd(x);
        LeafOfChild(ts, j, x);
      }
    } else if c in TableOf(ts) {
      KeysAreChildren(map[], ts, c);
      var j :| 0 <= j < |ts| && ts[j].Agent? && ts[j].id == c;
      AgentSlice(map[], ts, j);
      if x in Leaves(ts[j]) { LeafOfChild(ts, j, x); }
    }
  }

  lemma QueryUnique(sl: Slices, x: int, h: int)
    requires forall c :: x in Get(sl, c) <==> c == h
    ensures Query(sl, x) == h
  {
    assert x in Get(sl, h);
    assert (set c | c in sl && x in sl[c]) == {h} by {
      forall c | c in sl && x in sl[c]
        ensures c == h
      {
        assert x in Get(sl, c);
      }
    }
  }

  lemma QueryMissing(sl: Slices, x: int)
    requires forall c :: x !in Get(sl, c)
    ensures Query(sl, x) == INVLIDSUCCESSORID
  {
    assert forall c :: c in sl ==> sl[c] == Get(sl, c);
    var holders := set c | c in sl && x in sl[c];
    if holders != {} {
      NonEmptyHasMember(holders);
      assert false;
    }
  }

  // ----- the tree with its tables -----

  /** A running tree: every agent with its own routing table. */
  datatype Net = Leaf(id: int) | Site(id: int, table: Table, children: seq<Net>)

  function Shape(net: Net): Node
    decreases net, 1
  {
    match net
    case Leaf(id) => BackEnd(id)
    case Site(id, _, children) => Agent(id, Shapes(children))
  }

  function Shapes(ns: seq<Net>): (ts: seq<Node>)
    ensures |ts| == |ns|
    decreases ns, 0
  {
    if ns == [] then [] else [Shape(ns[0])] + Shapes(ns[1..])
  }

  lemma {:induction false} ShapeAt(ns: seq<Net>, i: nat)
    requires i < |ns|
    ensures Shapes(ns)[i] == Shape(ns[i])
  {
    if i > 0 { ShapeAt(ns[1..], i - 1); }
  }

  /** Every table is a sound one, and its ALL files the node's children with exactly the back ends below them. */
  ghost predicate Filed(net: Net)
    decreases net, 1
  {
    net.Site? ==>
      && Invariant(net.table)
      && SlicesOf(net.table.groups, SCI_GROUP_ALL) == TableOf(Shapes(net.children))
      && FiledAll(net.children)
  }

  ghost predicate FiledAll(ns: seq<Net>)
    decreases ns, 0
  {
    ns != [] ==> Filed(ns[0]) && FiledAll(ns[1..])
  }

  lemma {:induction false} FiledAt(ns: seq<Net>, i: nat)
    requires FiledAll(ns) && i < |ns|
    ensures Filed(ns[i])
  {
    if i > 0 { FiledAt(ns[1..], i - 1); }
  }

  // ----- one back end -----

  datatype Outcome = Arrived(hops: nat) | NotFound

  /** A message for back end `x` at this node: look up the owner in the node's table, hand the message on. */
  function Deliver(net: Net, x: int): Outcome
    requires x > SCI_GROUP_ALL
    decreases net, 1
  {
    match net
    case Leaf(id) => if id == x then Arrived(0) else NotFound
    case Site(_, table, ns) =>
      var h := Query(SlicesOf(table.groups, SCI_GROUP_ALL), x);
      if h == INVLIDSUCCESSORID then NotFound
      else if h == VALIDBACKENDIDS then (if Leaf(x) in ns then Arrived(1) else NotFound)
      else HandOn(ns, h, x)
  }

  function HandOn(ns: seq<Net>, h: int, x: int): Outcome
    requires x > SCI_GROUP_ALL
    decreases ns, 0
  {
    if ns == [] then NotFound
    else if ns[0].Site? && ns[0].id == h then
      match Deliver(ns[0], x)
      case Arrived(n) => Arrived(n + 1)
      case NotFound => NotFound
    else HandOn(ns[1..], h, x)
  }

  lemma {:induction false} HandOnAt(ns: seq<Net>, i: nat, x: int)
    requires Sound(Shapes(ns)) && i < |ns| && ns[i].Site? && x > SCI_GROUP_ALL
    ensures HandOn(ns, ns[i].id, x)
            == match Deliver(ns[i], x) { case Arrived(n) => Arrived(n + 1) case NotFound => NotFound }
  {
    hide Deliver, Sound, AgentsOf, Agents, Leaves;
    var ts := Shapes(ns);
    SoundParts(ts);
    AgentsHead(ts);
    assert ts[1..] == Shapes(ns[1..]);
    ShapeAt(ns, 0);
    if i > 0 {
      ShapeAt(ns[1..], i - 1);
      assert ns[1..][i - 1] == ns[i];
      ChildAgentListed(ts[1..], i - 1);
      HandOnAt(ns[1..], i - 1, x);
    }
  }

  /** No agent on the way down to `x`, the root apart, has this id. */
  predicate Avoids(t: Node, x: int, id: int)
    decreases t, 1
  {
    t.Agent? ==> AvoidsBelow(t.children, x, id)
  }

  predicate AvoidsBelow(ts: seq<Node>, x: int, id: int)
    decreases ts, 0
  {
    if ts == [] then true
    else if x in Leaves(ts[0]) then (ts[0].Agent? ==> ts[0].id != id) && Avoids(ts[0], x, id)
    else AvoidsBelow(ts[1..], x, id)
  }

  /** The way to `x` is clear of the id that the look-up reports for "not found". */
  predicate Clear(t: Node, x: int) {
    Avoids(t, x, INVLIDSUCCESSORID)
  }

  lemma {:induction false} AvoidsAt(ts: seq<Node>, i: nat, x: int, id: int)
    requires Sound(ts) && i < |ts| && x in Leaves(ts[i])
    ensures AvoidsBelow(ts, x, id) <==> (ts[i].Agent? ==> ts[i].id != id) && Avoids(ts[i], x, id)
  {
    SoundParts(ts);
    if i > 0 {
      LeafOfChild(ts[1..], i - 1, x);
      AvoidsAt(ts[1..], i - 1, x, id);
    }
  }

  /** If no agent below the root has the id, every way avoids it. */
  lemma {:induction false} UnusedAvoided(t: Node, x: int, id: int)
    requires t.Agent? ==> id !in AgentsOf(t.children)
    ensures Avoids(t, x, id)
    decreases t, 1
  {
    if t.Agent? { UnusedAvoidedBelow(t.children, x, id); }
  }

  lemma {:induction false} UnusedAvoidedBelow(ts: seq<Node>, x: int, id: int)
    requires id !in AgentsOf(ts)
    ensures AvoidsBelow(ts, x, id)
    decreases ts, 0
  {
    if ts != [] {
      AgentsHead(ts);
      UnusedAvoided(ts[0], x, id);
      UnusedAvoidedBelow(ts[1..], x, id);
    }
  }

  /** How many agents there are on the way down to `x`, the root included. */
  function Level(t: Node, x: int): nat
    decreases t, 1
  {
    if t.BackEnd? then 0 else 1 + LevelOf(t.children, x)
  }

  function LevelOf(ts: seq<Node>, x: int): nat
    decreases ts, 0
  {
    if ts == [] then 0 else if x in Leaves(ts[0]) then Level(ts[0], x) else LevelOf(ts[1..], x)
  }

  lemma {:induction false} LevelAt(ts: seq<Node>, i: nat, x: int)
    requires Sound(ts) && i < |ts| && x in Leaves(ts[i])
    ensures LevelOf(ts, x) == Level(ts[i], x)
  {
    SoundParts(ts);
    if i > 0 {
      LeafOfChild(ts[1..], i - 1, x);
      LevelAt(ts[1..], i - 1, x);
    }
  }

  /**
   * A message reaches exactly the back ends in the tree with a clear way to them, in one hop for every agent on the
   * way, and so within the depth of the tree.
   */
  lemma {:induction false} DeliverExact(net: Net, x: int)
    requires net.Site? && Filed(net) && Sound(Shapes(net.children)) && x > SCI_GROUP_ALL
    ensures x in Leaves(Shape(net)) && Clear(Shape(net), x) ==>
              Deliver(net, x).Arrived? && Deliver(net, x).hops == Level(Shape(net), x) <= Depth(Shape(net))
    ensures !(x in Leaves(Shape(net)) && Clear(Shape(net), x)) ==> Deliver(net, x) == NotFound
    decreases net
  {
    hide TableOf, Query, Sound, Invariant;
    var ns := net.children;
    var ts := Shapes(ns);
    if x in LeavesOf(ts) {
      var i := ChildOfLeaf(ts, x);
      ShapeAt(ns, i);
      FiledAt(ns, i);
      ChildSound(ts, i);
      SoundBelow(ts[i]);
      ChildDepth(ts, i);
      LevelAt(ts, i, x);
      AvoidsAt(ts, i, x, INVLIDSUCCESSORID);
      forall c
        ensures x in Get(TableOf(ts), c) <==> c == Handle(ts[i])
      {
        TableOwner(ts, i, x, c);
      }
      QueryUnique(TableOf(ts), x, Handle(ts[i]));
      if ns[i].Site? {
        HandOnAt(ns, i, x);
        DeliverExact(ns[i], x);
      } else {
        assert ns[i] == Leaf(x);
      }
    } else {
      forall c
        ensures x !in Get(TableOf(ts), c)
      {
        TableMisses(ts, x, c);
      }
      QueryMissing(TableOf(ts), x);
    }
  }

  // ----- all members of a group -----

  ghost function Times(k: nat, m: multiset<int>): multiset<int> {
    if k == 0 then multiset{} else m + Times(k - 1, m)
  }

  /**
   * The back ends that receive a message sent to a group at this node, with repetitions: every node sends one copy
   * for every entry of the successor list it has cached for the group, and nothing if it does not know the group.
   */
  ghost function Received(net: Net, g: int): multiset<int>
    decreases net, 1
  {
    match net
    case Leaf(id) => multiset{id}
    case Site(_, table, ns) => if g in table.groups then ReceivedFrom(ns, SuccListAt(table, g), g) else multiset{}
  }

  ghost function ReceivedFrom(ns: seq<Net>, succ: seq<int>, g: int): multiset<int>
    decreases ns, 0
  {
    if ns == [] then multiset{}
    else Times(multiset(succ)[ns[0].id], Received(ns[0], g)) + ReceivedFrom(ns[1..], succ, g)
  }

  /** The successor list has one entry for a child with members below it, and none for any other child. */
  ghost predicate Serves(succ: seq<int>, t: Node, members: set<int>) {
    multiset(succ)[t.id] == if Elements(Leaves(t)) * members != {} then 1 else 0
  }

  ghost predicate ServesAll(succ: seq<int>, ts: seq<Node>, members: set<int>) {
    forall i :: 0 <= i < |ts| ==> Serves(succ, ts[i], members)
  }

  /** At every node the slices of the group are those of ALL restricted to its members. */
  ghost predicate Carries(net: Net, g: int, members: set<int>)
    decreases net, 1
  {
    net.Site? ==>
      && SlicesOf(net.table.groups, g) == Within(TableOf(Shapes(net.children)), members)
      && CarriesAll(net.children, g, members)
  }

  ghost predicate CarriesAll(ns: seq<Net>, g: int, members: set<int>)
    decreases ns, 0
  {
    ns != [] ==> Carries(ns[0], g, members) && CarriesAll(ns[1..], g, members)
  }

  /** At every node the successor list of the group serves its members; only without members may it be unknown. */
  ghost predicate Conveys(net: Net, g: int, members: set<int>)
    decreases net, 1
  {
    net.Site? ==>
      && (if g in net.table.groups then ServesAll(SuccListAt(net.table, g), Shapes(net.children), members)
          else Elements(LeavesOf(Shapes(net.children))) * members == {})
      && ConveysAll(net.children, g, members)
  }

  ghost predicate ConveysAll(ns: seq<Net>, g: int, members: set<int>)
    decreases ns, 0
  {
    ns != [] ==> Conveys(ns[0], g, members) && ConveysAll(ns[1..], g, members)
  }

  /**
   * A message to a group reaches every member exactly once and nobody else, whatever the tree: agents without
   * members below them are skipped. Only a group without members in the tree may be unknown.
   */
  lemma BroadcastExact(net: Net, g: int, members: set<int>)
    requires net.Site? && Filed(net) && Carries(net, g, members) && Sound(Shapes(net.children))
    ensures Received(net, g) == multiset(Elements(Leaves(Shape(net))) * members)
    ensures Elements(Leaves(Shape(net))) * members != {} ==> g in net.table.groups
  {
    hide Filed, Carries, Received;
    CarriesConveys(net, g, members);
    LeavesBelow(net);
    ConveyedExact(net, g, members);
    ConveyedKnown(net, g, members);
  }

  lemma ConveyedKnown(net: Net, g: int, members: set<int>)
    requires net.Site? && Conveys(net, g, members)
    ensures Elements(Leaves(Shape(net))) * members != {} ==> g in net.table.groups
  {
  }

  lemma {:induction false} CarriesConveys(net: Net, g: int, members: set<int>)
    requires Filed(net) && Carries(net, g, members) && (net.Site? ==> Sound(Shapes(net.children)))
    ensures Conveys(net, g, members)
    decreases net, 1
  {
    if net.Site? {
      hide Sound, TableOf, SuccListOf, ServesAll, Invariant, Within, Elements, Carries;
      var ts, succ := Shapes(net.children), SuccListAt(net.table, g);
      CarriedHere(net, g, members);
      SuccCoherent(net.table, g);
      WithinServes(ts, succ, members);
      WithinEmptyIff(ts, members);
      CarriesConveysAll(net.children, g, members);
    }
  }

  lemma {:induction false} CarriesConveysAll(ns: seq<Net>, g: int, members: set<int>)
    requires FiledAll(ns) && CarriesAll(ns, g, members) && Sound(Shapes(ns))
    ensures ConveysAll(ns, g, members)
    decreases ns, 0
  {
    hide Sound, Carries, Filed, Conveys;
    if ns != [] {
      var ts := Shapes(ns);
      assert ts[1..] == Shapes(ns[1..]);
      SoundParts(ts);
      SoundBelow(ts[0]);
      CarriesConveys(ns[0], g, members);
      CarriesConveysAll(ns[1..], g, members);
    }
  }

  lemma {:induction false} ConveyedExact(net: Net, g: int, members: set<int>)
    requires net.Site? && Conveys(net, g, members) && LeavesSound(LeavesOf(Shapes(net.children)))
    ensures Received(net, g) == multiset(Elements(Leaves(Shape(net))) * members)
    decreases net, 1
  {
    hide LeavesSound, ServesAll, Elements;
    if g in net.table.groups { ConveyedFrom(net.children, SuccListAt(net.table, g), g, members); }
  }

  lemma {:induction false} ConveyedFrom(ns: seq<Net>, succ: seq<int>, g: int, members: set<int>)
    requires ServesAll(succ, Shapes(ns), members) && ConveysAll(ns, g, members) && LeavesSound(LeavesOf(Shapes(ns)))
    ensures ReceivedFrom(ns, succ, g) == multiset(Elements(LeavesOf(Shapes(ns))) * members)
    decreases ns, 0
  {
    hide LeavesSound, Conveys, Serves, Received, Leaves, Elements;
    var ts := Shapes(ns);
    if ns == [] {
      NoMembers(members);
    } else {
      var t, rest := ts[0], Shapes(ns[1..]);
      assert ts[1..] == rest;
      SplitLeavesSound(Leaves(t), LeavesOf(rest));
      ServesTail(succ, ts, members);
      ConveyedFrom(ns[1..], succ, g, members);
      FirstServed(ns[0], succ, g, members);
      SplitMembers(Leaves(t), LeavesOf(rest), members);
    }
  }

  lemma {:induction false} FirstServed(net: Net, succ: seq<int>, g: int, members: set<int>)
    requires Conveys(net, g, members) && LeavesSound(Leaves(Shape(net))) && Serves(succ, Shape(net), members)
    ensures Times(multiset(succ)[net.id], Received(net, g)) == multiset(Elements(Leaves(Shape(net))) * members)
    decreases net, 2
  {
    hide Conveys;
    var t := Shape(net);
    var here := Elements(Leaves(t)) * members;
    if net.Site? {
      LeavesBelow(net);
      ConveyedExact(net, g, members);
    } else {
      OneLeaf(t);
      assert here == if t.id in members then {t.id} else {};
    }
    TimesOne(Received(net, g));
  }

  lemma CarriedHere(net: Net, g: int, members: set<int>)
    requires net.Site? && Carries(net, g, members)
    ensures SlicesOf(net.table.groups, g) == Within(TableOf(Shapes(net.children)), members)
    ensures CarriesAll(net.children, g, members)
  {
  }

  lemma ServesTail(succ: seq<int>, ts: seq<Node>, members: set<int>)
    requires ServesAll(succ, ts, members) && ts != []
    ensures Serves(succ, ts[0], members) && ServesAll(succ, ts[1..], members)
  {
    assert forall i :: 0 <= i < |ts[1..]| ==> ts[1..][i] == ts[i + 1];
  }

  lemma NoMembers(members: set<int>)
    ensures Elements([]) * members == {}
  {
  }

  lemma SplitMembers(p: seq<int>, q: seq<int>, members: set<int>)
    requires forall x :: x in p ==> x !in q
    ensures multiset(Elements(p + q) * members) == multiset(Elements(p) * members) + multiset(Elements(q) * members)
  {
    var here, there := Elements(p) * members, Elements(q) * members;
    assert Elements(p + q) == Elements(p) + Elements(q);
    assert Elements(p + q) * members == here + there;
    forall x | x in Elements(p)
      ensures x !in Elements(q)
    {
      assert x in p;
    }
  }

  lemma TimesOne(m: multiset<int>)
    ensures Times(1, m) == m && Times(0, m) == multiset{}
  {
  }

  // ----- the successor lists of a filed tree -----

  /** How often a successor occurs in the list made from these slices. */
  lemma CopiesOf(sl: Slices, id: int)
    ensures multiset(SuccListOf(sl))[id]
            == (if id in sl && id != VALIDBACKENDIDS then 1 else 0) + if id in Get(sl, VALIDBACKENDIDS) then 1 else 0
  {
    SuccListMultiset(sl);
  }

  lemma WithinAt(sl: Slices, s: set<int>, c: int)
    ensures Get(Within(sl, s), c) == Get(sl, c) * s
    ensures c in Within(sl, s) <==> Get(sl, c) * s != {}
  {
  }

  /** No agent has the id of a back end, and the other way round. */
  lemma BackEndIsNoKey(ts: seq<Node>, i: nat)
    requires Sound(ts) && i < |ts| && ts[i].BackEnd?
    ensures ts[i].id !in TableOf(ts) && ts[i].id >= 0 && ts[i].id in Get(TableOf(ts), VALIDBACKENDIDS)
  {
    var b := ts[i].id;
    ChildSound(ts, i);
    SoundBelow(ts[i]);
    DirectSlice(map[], ts, b);
    assert ts[i] == BackEnd(b);
    if b in TableOf(ts) {
      KeysAreChildren(map[], ts, b);
      var j :| 0 <= j < |ts| && ts[j].Agent? && ts[j].id == b;
      ChildSound(ts, j);
      SoundBelow(ts[j]);
      assert false;
    }
  }

  lemma AgentIsKey(ts: seq<Node>, i: nat)
    requires Sound(ts) && i < |ts| && ts[i].Agent?
    ensures var c := ts[i].id;
            && c in TableOf(ts) && c != VALIDBACKENDIDS && c !in Get(TableOf(ts), VALIDBACKENDIDS)
            && Get(TableOf(ts), c) == Elements(Leaves(ts[i]))
  {
    var c := ts[i].id;
    ChildSound(ts, i);
    SoundBelow(ts[i]);
    AgentSlice(map[], ts, i);
    DirectSlice(map[], ts, c);
    if BackEnd(c) in ts {
      var j :| 0 <= j < |ts| && ts[j] == BackEnd(c);
      ChildSound(ts, j);
      SoundBelow(ts[j]);
      assert false;
    }
  }

  /** A list made from ALL restricted to the members serves exactly the children with members below them. */
  lemma WithinServes(ts: seq<Node>, succ: seq<int>, members: set<int>)
    requires Sound(ts) && multiset(succ) == multiset(SuccListOf(Within(TableOf(ts), members)))
    ensures ServesAll(succ, ts, members)
  {
    hide Sound, TableOf, SuccListOf, Within, Leaves;
    var sl := Within(TableOf(ts), members);
    forall i | 0 <= i < |ts|
      ensures Serves(succ, ts[i], members)
    {
      var c := ts[i].id;
      CopiesOf(sl, c);
      WithinAt(TableOf(ts), members, VALIDBACKENDIDS);
      WithinAt(TableOf(ts), members, c);
      if ts[i].Agent? {
        AgentIsKey(ts, i);
      } else {
        BackEndIsNoKey(ts, i);
        OneLeaf(ts[i]);
        assert c in members ==> c in {c} * members;
        assert Get(TableOf(ts), c) == {};
      }
    }
  }

  lemma OneLeaf(t: Node)
    requires t.BackEnd?
    ensures Elements(Leaves(t)) == {t.id}
  {
    assert Leaves(t) == [t.id];
  }

  lemma SuccCoherent(t: Table, g: int)
    requires Invariant(t)
    ensures multiset(SuccListAt(t, g)) == multiset(SuccListOf(SlicesOf(t.groups, g)))
  {
    assert CoherentAt(t, g);
  }

  lemma TableNotEmpty(ts: seq<Node>)
    requires Sound(ts) && ts != []
    ensures TableOf(ts) != map[]
  {
    if ts[0].Agent? { AgentIsKey(ts, 0); } else { BackEndIsNoKey(ts, 0); }
  }

  /** The slices of ALL hold exactly the back ends below the node. */
  lemma SlicesAreLeaves(ts: seq<Node>, x: int)
    requires Sound(ts)
    ensures x in Union(TableOf(ts)) <==> x in LeavesOf(ts)
  {
    hide Sound, TableOf, Leaves, LeavesOf, Union;
    UnionIff(TableOf(ts), x);
    if x in LeavesOf(ts) {
      var i := ChildOfLeaf(ts, x);
      TableOwner(ts, i, x, Handle(ts[i]));
    } else {
      forall c
        ensures x !in Get(TableOf(ts), c)
      {
        TableMisses(ts, x, c);
      }
    }
  }

  /** A node has a slice of a group exactly when it has a member below it. */
  lemma WithinEmptyIff(ts: seq<Node>, members: set<int>)
    requires Sound(ts)
    ensures Within(TableOf(ts), members) == map[] <==> Elements(LeavesOf(ts)) * members == {}
  {
    hide Sound, TableOf, Leaves, LeavesOf, Union, Within;
    WithinUnion(TableOf(ts), members);
    assert Union(TableOf(ts)) == Elements(LeavesOf(ts)) by {
      forall x
        ensures x in Union(TableOf(ts)) <==> x in Elements(LeavesOf(ts))
      {
        SlicesAreLeaves(ts, x);
      }
    }
  }

  // ----- ALL -----

  /** Every agent has a back end below it. */
  predicate Populated(t: Node)
    decreases t, 1
  {
    t.Agent? ==> Leaves(t) != [] && PopulatedAll(t.children)
  }

  predicate PopulatedAll(ts: seq<Node>)
    decreases ts, 0
  {
    ts != [] ==> Populated(ts[0]) && PopulatedAll(ts[1..])
  }

  lemma {:induction false} PopulatedAt(ts: seq<Node>, i: nat)
    requires PopulatedAll(ts) && i < |ts|
    ensures Populated(ts[i])
  {
    if i > 0 { PopulatedAt(ts[1..], i - 1); }
  }

  /** ALL is the group of all back ends: restricting it to them changes nothing. */
  lemma WithinAll(ts: seq<Node>, members: set<int>)
    requires Sound(ts) && PopulatedAll(ts) && Elements(LeavesOf(ts)) <= members
    ensures Within(TableOf(ts), members) == TableOf(ts)
  {
    hide Sound, TableOf, Leaves, LeavesOf, PopulatedAll;
    var all := TableOf(ts);
    forall c | c in all
      ensures all[c] * members == all[c] && all[c] != {}
    {
      SliceInLeaves(ts, c, members);
      SliceNotEmpty(ts, c);
    }
  }

  lemma SliceInLeaves(ts: seq<Node>, c: int, members: set<int>)
    requires Sound(ts) && Elements(LeavesOf(ts)) <= members
    ensures Get(TableOf(ts), c) <= members
  {
    hide Sound, TableOf, Leaves, LeavesOf;
    forall x | x in Get(TableOf(ts), c)
      ensures x in members
    {
      if x !in LeavesOf(ts) {
        TableMisses(ts, x, c);
        assert false;
      }
      assert x in Elements(LeavesOf(ts));
    }
  }

  lemma SliceNotEmpty(ts: seq<Node>, c: int)
    requires Sound(ts) && PopulatedAll(ts) && c in TableOf(ts)
    ensures TableOf(ts)[c] != {}
  {
    hide Sound, Leaves;
    if c == VALIDBACKENDIDS {
      DirectKey(map[], ts);
      var i :| 0 <= i < |ts| && ts[i].BackEnd?;
      BackEndIsNoKey(ts, i);
    } else {
      KeysAreChildren(map[], ts, c);
      var i :| 0 <= i < |ts| && ts[i].Agent? && ts[i].id == c;
      AgentIsKey(ts, i);
      PopulatedAt(ts, i);
      assert Leaves(ts[i])[0] in Elements(Leaves(ts[i]));
    }
  }

  /** The attached back ends have a slice only if there is one. */
  lemma {:induction false} DirectKey(sl: Slices, ts: seq<Node>)
    requires Sound(ts) && VALIDBACKENDIDS in FileAll(sl, ts) && VALIDBACKENDIDS !in sl
    ensures exists i :: 0 <= i < |ts| && ts[i].BackEnd?
    decreases ts
  {
    if ts != [] {
      SoundParts(ts);
      SoundBelow(ts[0]);
      if ts[0].BackEnd? {
        assert ts[0].BackEnd?;
      } else {
        DirectKey(FileChild(sl, ts[0]), ts[1..]);
        var i :| 0 <= i < |ts[1..]| && ts[1..][i].BackEnd?;
        assert ts[i + 1].BackEnd?;
      }
    }
  }

  lemma {:induction false} AllCarried(net: Net, members: set<int>)
    requires Filed(net) && Populated(Shape(net)) && Elements(Leaves(Shape(net))) <= members
    requires net.Site? ==> Sound(Shapes(net.children))
    ensures Carries(net, SCI_GROUP_ALL, members)
    decreases net, 1
  {
    if net.Site? {
      hide Sound, TableOf, Within, Invariant, Leaves, Elements;
      var ts := Shapes(net.children);
      LeavesBelow(net);
      WithinAll(ts, members);
      AllCarriedFrom(net.children, members);
    }
  }

  lemma LeavesBelow(net: Net)
    requires net.Site?
    ensures Leaves(Shape(net)) == LeavesOf(Shapes(net.children))
  {
  }

  lemma {:induction false} AllCarriedFrom(ns: seq<Net>, members: set<int>)
    requires FiledAll(ns) && PopulatedAll(Shapes(ns)) && Elements(LeavesOf(Shapes(ns))) <= members && Sound(Shapes(ns))
    ensures CarriesAll(ns, SCI_GROUP_ALL, members)
    decreases ns, 0
  {
    hide Sound, Carries, Filed;
    if ns != [] {
      var ts := Shapes(ns);
      assert ts[1..] == Shapes(ns[1..]);
      SoundParts(ts);
      SoundBelow(ts[0]);
      assert Elements(LeavesOf(ts)) == Elements(Leaves(ts[0])) + Elements(LeavesOf(ts[1..]));
      AllCarried(ns[0], members);
      AllCarriedFrom(ns[1..], members);
    }
  }

  // ----- `bcast` -----

  /** Refused at once, or taken: then it reaches somebody, or an agent on the way drops it. */
  datatype Sending = GroupNotFound | Reached(who: multiset<int>) | Lost

  /** A message sent at the front end: ids above the predefined group are back ends, the others are groups. */
  ghost function Bcast(net: Net, group: int): Sending
    requires net.Site?
  {
    if group > SCI_GROUP_ALL then
      if group !in Leaves(Shape(net)) then GroupNotFound
      else if Deliver(net, group).Arrived? then Reached(multiset{group})
      else Lost
    else if group in net.table.groups then Reached(Received(net, group))
    else GroupNotFound
  }

  /**
   * In a filed tree a back end with a clear way gets its message within the depth, the message to a back end without
   * is lost, any other id is refused, a message to ALL reaches everyone once, and one to a group that the tree carries
   * reaches each member once.
   */
  lemma NetDelivers(net: Net, x: int, g: int, members: set<int>)
    requires net.Site? && Filed(net) && Sound(Shapes(net.children)) && Populated(Shape(net))
    requires Carries(net, g, members) && g in net.table.groups && g <= SCI_GROUP_ALL
    ensures var leaves := Leaves(Shape(net));
            && (x > SCI_GROUP_ALL ==>
                  Bcast(net, x) == if x !in leaves then GroupNotFound
                                   else if Clear(Shape(net), x) then Reached(multiset{x}) else Lost)
            && (x > SCI_GROUP_ALL && x in leaves && Clear(Shape(net), x) ==> Deliver(net, x).hops <= Depth(Shape(net)))
            && Bcast(net, SCI_GROUP_ALL) == Reached(multiset(Elements(leaves)))
            && Bcast(net, g) == Reached(multiset(Elements(leaves) * members))
  {
    hide Filed, Sound, Deliver, Received, Carries, TableOf, Clear;
    var leaves := Leaves(Shape(net));
    if x > SCI_GROUP_ALL { DeliverExact(net, x); }
    AllCarried(net, Elements(leaves));
    BroadcastExact(net, SCI_GROUP_ALL, Elements(leaves));
    BroadcastExact(net, g, members);
    assert leaves[0] in Elements(leaves);
    assert Elements(leaves) * Elements(leaves) == Elements(leaves);
  }
}
