/**
 * A union of a group with a list: a node takes the whole slice of every successor the group already uses, so the back
 * ends attached beside a member join the group although nobody named them.
 */
module ListUnions {
  import opened SortedSets
  import opened AgentNumbers
  import opened Tables
  import opened Runs
  import opened Delivery
  import opened GroupCommands

  /** The back ends attached to a node that also has a member of `a` attached. */
  function Spread(t: Node, a: set<int>): set<int>
    decreases t, 1
  {
    match t
    case BackEnd(_) => {}
    case Agent(_, ts) => (if DirectLeaves(ts) * a != {} then DirectLeaves(ts) else {}) + SpreadOf(ts, a)
  }

  function SpreadOf(ts: seq<Node>, a: set<int>): set<int>
    decreases ts, 0
  {
    if ts == [] then {} else Spread(ts[0], a) + SpreadOf(ts[1..], a)
  }

  /** Who belongs to the union of `a` with a list, in the tree `t`. */
  function Joined(t: Node, a: set<int>, list: set<int>): set<int> {
    a + list + Spread(t, a)
  }

  // ----- the spread -----

  /** The spread stays in the tree, and there is none without a member. */
  lemma {:induction false} SpreadInLeaves(t: Node, a: set<int>)
    ensures Spread(t, a) <= Elements(Leaves(t))
    ensures Elements(Leaves(t)) * a == {} ==> Spread(t, a) == {}
    decreases t, 1
  {
    if t.Agent? {
      hide DirectLeaves, SpreadOf;
      SpreadOfInLeaves(t.children, a);
      forall x | x in DirectLeaves(t.children)
        ensures x in Elements(Leaves(t))
      {
        DirectLeavesIff(t.children, x);
      }
      if DirectLeaves(t.children) * a != {} {
        NonEmptyHasMember(DirectLeaves(t.children) * a);
        var x :| x in DirectLeaves(t.children) * a;
        assert x in Elements(Leaves(t)) * a;
      }
    }
  }

  lemma {:induction false} SpreadOfInLeaves(ts: seq<Node>, a: set<int>)
    ensures SpreadOf(ts, a) <= Elements(LeavesOf(ts))
    ensures Elements(LeavesOf(ts)) * a == {} ==> SpreadOf(ts, a) == {}
    decreases ts, 0
  {
    hide Spread, Leaves;
    if ts != [] {
      assert Elements(LeavesOf(ts)) == Elements(Leaves(ts[0])) + Elements(LeavesOf(ts[1..]));
      SpreadInLeaves(ts[0], a);
      SpreadOfInLeaves(ts[1..], a);
    }
  }

  /** Below one child only that child's own spread matters. */
  lemma {:induction false} SpreadOfAt(ts: seq<Node>, i: nat, a: set<int>, x: int)
    requires Sound(ts) && i < |ts| && x in Leaves(ts[i])
    ensures x in SpreadOf(ts, a) <==> x in Spread(ts[i], a)
    decreases ts
  {
    hide Spread, Leaves;
    SoundParts(ts);
    if i == 0 {
      SpreadOfInLeaves(ts[1..], a);
      assert x in SpreadOf(ts[1..], a) ==> x in Elements(LeavesOf(ts[1..]));
    } else {
      LeafOfChild(ts[1..], i - 1, x);
      SpreadInLeaves(ts[0], a);
      assert x in Spread(ts[0], a) ==> x in Elements(Leaves(ts[0]));
      SpreadOfAt(ts[1..], i - 1, a, x);
    }
  }

  lemma SpreadAt(id: int, ts: seq<Node>, i: nat, a: set<int>, x: int)
    requires Sound(ts) && i < |ts| && x in Leaves(ts[i])
    ensures ts[i].Agent? ==> (x in Spread(Agent(id, ts), a) <==> x in Spread(ts[i], a))
    ensures ts[i].BackEnd? ==> (x in Spread(Agent(id, ts), a) <==> DirectLeaves(ts) * a != {})
  {
    hide DirectLeaves, SpreadOf, Leaves;
    SpreadOfAt(ts, i, a, x);
    DirectLeavesIff(ts, x);
    if ts[i].Agent? && BackEnd(x) in ts {
      var j :| 0 <= j < |ts| && ts[j] == BackEnd(x);
      OneLeaf(ts[j]);
      LeafChildUnique(ts, i, j, x);
      assert false;
    }
    if ts[i].BackEnd? {
      OneLeaf(ts[i]);
      assert x in Elements(Leaves(ts[i]));
      assert ts[i] == BackEnd(x);
    }
  }

  // ----- one node -----

  /** Among the back ends below `t`, the members are those that join there. */
  ghost predicate Matching(t: Node, a: set<int>, list: set<int>, members: set<int>) {
    forall x :: x in Leaves(t) ==> (x in members <==> x in Joined(t, a, list))
  }

  lemma MatchingBelow(id: int, ts: seq<Node>, i: nat, a: set<int>, list: set<int>, members: set<int>)
    requires Sound(ts) && i < |ts| && Matching(Agent(id, ts), a, list, members)
    ensures ts[i].Agent? ==> Matching(ts[i], a, list, members)
    ensures ts[i].BackEnd? ==> (ts[i].id in members <==> ts[i].id in a + list || DirectLeaves(ts) * a != {})
  {
    hide Spread, DirectLeaves, Leaves;
    forall x | x in Leaves(ts[i])
      ensures ts[i].Agent? ==> (x in members <==> x in Joined(ts[i], a, list))
      ensures ts[i].BackEnd? ==> (x in members <==> x in a + list || DirectLeaves(ts) * a != {})
    {
      SpreadAt(id, ts, i, a, x);
      LeafOfChild(ts, i, x);
      AgentLeaves(id, ts);
    }
    if ts[i].BackEnd? {
      OneLeaf(ts[i]);
      assert ts[i].id in Elements(Leaves(ts[i]));
    }
  }

  lemma AgentLeaves(id: int, ts: seq<Node>)
    ensures Leaves(Agent(id, ts)) == LeavesOf(ts)
  {
  }

  lemma Meeting(s: set<int>, a: set<int>, list: set<int>, members: set<int>)
    requires forall x :: x in s && (x in a || x in list) ==> x in members
    requires s * members != {} ==> s * a != {} || s * list != {}
    ensures s * members != {} <==> s * a != {} || s * list != {}
  {
    if s * a != {} {
      NonEmptyHasMember(s * a);
      var x :| x in s * a;
      assert x in s * members;
    } else if s * list != {} {
      NonEmptyHasMember(s * list);
      var x :| x in s * list;
      assert x in s * members;
    }
  }

  lemma MatchingMeets(t: Node, a: set<int>, list: set<int>, members: set<int>)
    requires Matching(t, a, list, members)
    ensures var s := Elements(Leaves(t)); s * members != {} <==> s * a != {} || s * list != {}
  {
    hide Spread, Leaves;
    var s := Elements(Leaves(t));
    SpreadInLeaves(t, a);
    if s * members != {} && s * a == {} {
      NonEmptyHasMember(s * members);
      var x :| x in s * members;
      assert x in s * a || x in s * list;
    }
    Meeting(s, a, list, members);
  }

  /** The successor list of the union serves exactly the children that are, or have below them, someone who joins. */
  lemma UnionServes(id: int, ts: seq<Node>, succ: seq<int>, a: set<int>, list: set<int>, members: set<int>)
    requires Sound(ts) && Matching(Agent(id, ts), a, list, members)
    requires multiset(succ) == multiset(SuccListOf(ExtUnion(TableOf(ts), Within(TableOf(ts), a), list)))
    ensures ServesAll(succ, ts, members)
  {
    hide Sound, TableOf, SuccListOf, ExtUnion, Within, Matching, Leaves, Elements, DirectLeaves;
    var all := TableOf(ts);
    DirectIsSlice(ts);
    forall i | 0 <= i < |ts|
      ensures Serves(succ, ts[i], members)
    {
      var c := ts[i].id;
      CopiesOf(ExtUnion(all, Within(all, a), list), c);
      ExtUnionAt(all, a, list, c);
      ExtUnionAt(all, a, list, VALIDBACKENDIDS);
      MatchingBelow(id, ts, i, a, list, members);
      if ts[i].Agent? {
        AgentIsKey(ts, i);
        MatchingMeets(ts[i], a, list, members);
      } else {
        BackEndIsNoKey(ts, i);
        OneLeaf(ts[i]);
        DirectMember(DirectLeaves(ts), a, c, members);
      }
    }
  }

  lemma DirectMember(s: set<int>, a: set<int>, c: int, members: set<int>)
    requires c in s
    ensures c in a ==> s * a != {}
    ensures {c} * members != {} <==> c in members
  {
    if c in a { assert c in s * a; }
    if c in members { assert c in {c} * members; }
  }

  // ----- the whole tree -----

  lemma {:induction false} UnknownConveys(net: Net, g: int, members: set<int>)
    requires Unknown(net, g) && Elements(Leaves(Shape(net))) * members == {}
    ensures Conveys(net, g, members)
    decreases net, 1
  {
    if net.Site? {
      hide Elements, Leaves;
      LeavesBelow(net);
      UnknownConveysAll(net.children, g, members);
    }
  }

  lemma {:induction false} UnknownConveysAll(ns: seq<Net>, g: int, members: set<int>)
    requires UnknownAll(ns, g) && Elements(LeavesOf(Shapes(ns))) * members == {}
    ensures ConveysAll(ns, g, members)
    decreases ns, 0
  {
    hide Conveys, Unknown;
    if ns != [] {
      var ts := Shapes(ns);
      assert ts[1..] == Shapes(ns[1..]);
      assert Elements(LeavesOf(ts)) == Elements(Leaves(ts[0])) + Elements(LeavesOf(ts[1..]));
      UnknownConveys(ns[0], g, members);
      UnknownConveysAll(ns[1..], g, members);
    }
  }

  /** A filed node with a back end below it has ALL. */
  lemma HasAll(net: Net)
    requires net.Site? && Filed(net) && Sound(Shapes(net.children)) && Leaves(Shape(net)) != []
    ensures SCI_GROUP_ALL in net.table.groups
  {
    hide Invariant, TableOf, Sound;
    TableNotEmpty(Shapes(net.children));
  }

  /**
   * A union with a list reaches every node below which someone joins, each of them can carry it out, and afterwards
   * a message to the new group goes to the members, to the listed back ends, and to the back ends attached beside a
   * member.
   */
  lemma {:induction false} UnionExact(net: Net, c: Command, g: int, a: set<int>, members: set<int>)
    requires c.FromGroupAndList? && c.op == SCI_UNION && net.Site? && Filed(net) && Sound(Shapes(net.children))
    requires Carries(net, c.g1, a) && Matching(Shape(net), a, c.list, members)
    requires Unknown(net, g) && NewId(c, g) && SCI_GROUP_ALL in net.table.groups
    ensures Handled(net, c, g)
    ensures Filed(Commanded(net, c, g)) && Conveys(Commanded(net, c, g), g, members)
    decreases net, 1
  {
    hide Invariant, TableOf, Within, Sound, NewSlices, SuccListOf, Apply, ServesAll, Matching, ExtUnion;
    var ts, t' := Shapes(net.children), Apply(net.table, StepOf(c, g));
    var succ := SuccListAt(t', g);
    CommandAllowed(net.table, c, g);
    CommandTable(net.table, c, g);
    UnionSlices(net, c, a);
    UnionServes(net.id, ts, succ, a, c.list, members);
    CommandedShape(net, c, g);
    PassedShapes(net.children, succ, c, g);
    forall i | 0 <= i < |ts|
      ensures ts[i].Agent? ==> Matching(ts[i], a, c.list, members)
    {
      MatchingBelow(net.id, ts, i, a, c.list, members);
    }
    UnionPassed(net.children, succ, c, g, a, members);
  }

  lemma UnionSlices(net: Net, c: Command, a: set<int>)
    requires net.Site? && c.FromGroupAndList? && c.op == SCI_UNION && Filed(net) && Carries(net, c.g1, a)
    ensures NewSlices(net.table.groups, c)
            == ExtUnion(TableOf(Shapes(net.children)), Within(TableOf(Shapes(net.children)), a), c.list)
    ensures Succeeds(net.table.groups, c)
  {
    hide Invariant, TableOf, Within, ExtUnion;
  }

  ghost predicate AgentsMatch(ts: seq<Node>, a: set<int>, list: set<int>, members: set<int>) {
    forall i :: 0 <= i < |ts| ==> (ts[i].Agent? ==> Matching(ts[i], a, list, members))
  }

  lemma AgentsMatchTail(ts: seq<Node>, a: set<int>, list: set<int>, members: set<int>)
    requires AgentsMatch(ts, a, list, members) && ts != []
    ensures AgentsMatch(ts[1..], a, list, members) && (ts[0].Agent? ==> Matching(ts[0], a, list, members))
  {
    hide Matching;
    assert forall i :: 0 <= i < |ts[1..]| ==> ts[1..][i] == ts[i + 1];
  }

  lemma {:induction false} UnionPassed(ns: seq<Net>, succ: seq<int>, c: Command, g: int, a: set<int>, members: set<int>)
    requires c.FromGroupAndList? && c.op == SCI_UNION && FiledAll(ns) && Sound(Shapes(ns)) && CarriesAll(ns, c.g1, a)
    requires UnknownAll(ns, g) && NewId(c, g) && ServesAll(succ, Shapes(ns), members)
    requires AgentsMatch(Shapes(ns), a, c.list, members)
    ensures HandledAll(ns, succ, c, g)
    ensures FiledAll(Passed(ns, succ, c, g)) && ConveysAll(Passed(ns, succ, c, g), g, members)
    decreases ns, 0
  {
    hide Filed, Carries, Sound, Handled, Serves, Commanded, Unknown, Conveys, AgentsMatch;
    if ns != [] {
      var ts := Shapes(ns);
      assert ts[1..] == Shapes(ns[1..]);
      SoundParts(ts);
      ServesTail(succ, ts, members);
      AgentsMatchTail(ts, a, c.list, members);
      UnionPassed(ns[1..], succ, c, g, a, members);
      UnionFirst(ns[0], succ, c, g, a, members);
      assert Passed(ns, succ, c, g)[1..] == Passed(ns[1..], succ, c, g);
    }
  }

  lemma {:induction false} UnionFirst(net: Net, succ: seq<int>, c: Command, g: int, a: set<int>, members: set<int>)
    requires c.FromGroupAndList? && c.op == SCI_UNION && Filed(net) && Carries(net, c.g1, a)
    requires Unknown(net, g) && NewId(c, g)
    requires AgentsSound(Agents(Shape(net))) && LeavesSound(Leaves(Shape(net))) && Serves(succ, Shape(net), members)
    requires Shape(net).Agent? ==> Matching(Shape(net), a, c.list, members)
    ensures net.id in succ ==> Handled(net, c, g)
    ensures var net' := if net.id in succ then Commanded(net, c, g) else net;
            Filed(net') && Conveys(net', g, members)
    decreases net, 2
  {
    hide Sound, Filed, Carries, Leaves, Elements, Handled, Matching;
    SoundBelow(Shape(net));
    if net.Leaf? {
      LeafCommanded(net, c, g, members);
    } else if net.id in succ {
      assert multiset(succ)[net.id] > 0;
      SomeLeaf(Leaves(Shape(net)), members);
      HasAll(net);
      UnionExact(net, c, g, a, members);
    } else {
      assert multiset(succ)[net.id] == 0;
      UnknownConveys(net, g, members);
    }
  }

  lemma SomeLeaf(q: seq<int>, members: set<int>)
    requires Elements(q) * members != {}
    ensures q != []
  {
  }

  /** The tree takes the union for what it says exactly when nobody beside a member is left out of it. */
  lemma UnionExactIff(t: Node, a: set<int>, list: set<int>)
    ensures Elements(Leaves(t)) * Joined(t, a, list) == Elements(Leaves(t)) * (a + list) <==> Spread(t, a) <= a + list
  {
    hide Spread, Leaves;
    SpreadInLeaves(t, a);
    var leaves := Elements(Leaves(t));
    if leaves * Joined(t, a, list) == leaves * (a + list) {
      forall x | x in Spread(t, a)
        ensures x in a + list
      {
        assert x in leaves * Joined(t, a, list);
      }
    }
  }

  /**
   * The new group has exactly the members of `a` and the list at every node, so that it may be an operand like any
   * other, if and only if every child of the front end with a member below it lies inside the union.
   */
  lemma UnionCarriedIff(net: Net, c: Command, g: int, a: set<int>)
    requires c.FromGroupAndList? && c.op == SCI_UNION && net.Site? && Filed(net) && Sound(Shapes(net.children))
    requires Carries(net, c.g1, a) && Unknown(net, g) && NewId(c, g) && SCI_GROUP_ALL in net.table.groups
    ensures Carries(Commanded(net, c, g), g, a + c.list) <==> WholeBelow(Shapes(net.children), a, c.list)
  {
    hide Filed, Sound, Carries, Unknown, WholeBelow, Commanded;
    if WholeBelow(Shapes(net.children), a, c.list) { CommandExact(net, c, g, a, {}); }
    if Carries(Commanded(net, c, g), g, a + c.list) { CarriedIsWhole(net, c, g, a); }
  }

  lemma CarriedIsWhole(net: Net, c: Command, g: int, a: set<int>)
    requires c.FromGroupAndList? && c.op == SCI_UNION && net.Site? && Filed(net) && Sound(Shapes(net.children))
    requires Carries(net, c.g1, a) && Unknown(net, g) && NewId(c, g) && SCI_GROUP_ALL in net.table.groups
    requires Carries(Commanded(net, c, g), g, a + c.list)
    ensures WholeBelow(Shapes(net.children), a, c.list)
  {
    hide Invariant, TableOf, Within, Sound, NewSlices, SuccListOf, Apply, ExtUnion, WholeBelow;
    CommandAllowed(net.table, c, g);
    CommandTable(net.table, c, g);
    UnionSlices(net, c, a);
    CommandedShape(net, c, g);
    ExtUnionExactIff(Shapes(net.children), a, c.list);
  }
}
