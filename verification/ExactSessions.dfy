/**
 * Sessions whose operands have the same members at every node: no node fails, and the tree of routing tables behaves
 * like one map from group ids to their members.
 */
module ExactSessions {
  import opened SortedSets
  import opened AgentNumbers
  import opened Tables
  import opened Delivery
  import opened GroupCommands
  import opened GroupFrees
  import opened ListUnions
  import opened Sessions

  /**
   * A group as its user sees it. `Exact` groups have the same members at every node; `Loose` ones, made by a union
   * with a list, are wider in the tables of the upper nodes than in those of the lower ones.
   */
  datatype Group = Exact(members: set<int>) | Loose(members: set<int>)

  type Groups = map<int, Group>

  /** The operands exist, as the interface checks, and are exact; new ids come from an allocator that repeats none. */
  predicate OnExact(known: Groups, used: set<int>, r: Request) {
    match r
    case Make(c, g) =>
      && g < SCI_GROUP_ALL && g !in used
      && (!c.FromList? ==> c.g1 in known && known[c.g1].Exact?)
      && (c.FromGroups? ==> c.g2 in known && known[c.g2].Exact?)
    case Free(g) => g in known && g != SCI_GROUP_ALL
  }

  /** The members of an operand. */
  function Operand(known: Groups, g: int): set<int> {
    if g in known then known[g].members else {}
  }

  function First(known: Groups, c: Command): set<int> {
    if c.FromList? then {} else Operand(known, c.g1)
  }

  function Second(known: Groups, c: Command): set<int> {
    if c.FromGroups? then Operand(known, c.g2) else {}
  }

  ghost function NewGroup(known: Groups, t: Node, c: Command): Group
    requires t.Agent?
  {
    if Fair(c, t.children, First(known, c)) then Exact(Result(c, First(known, c), Second(known, c)))
    else Loose(Joined(t, First(known, c), c.list))
  }

  /** Whether a group is made: an intersection or difference without members in the tree makes none. */
  ghost predicate MakesIn(known: Groups, t: Node, c: Command)
    requires t.Agent?
  {
    c.FromList? || c.op == SCI_UNION || Elements(Leaves(t)) * NewGroup(known, t, c).members != {}
  }

  ghost function NextGroups(known: Groups, t: Node, r: Request): Groups
    requires t.Agent?
  {
    match r
    case Make(c, g) => if MakesIn(known, t, c) then known[g := NewGroup(known, t, c)] else known
    case Free(g) => known - {g}
  }

  // ----- the relation between the tree and the map -----

  ghost predicate Holds(net: Net, g: int, group: Group) {
    if group.Exact? then Carries(net, g, group.members) else Conveys(net, g, group.members)
  }

  /** The tree holds every group there is, the front end knows exactly these, and unused ids are unknown. */
  ghost predicate Matches(net: Net, known: Groups, used: set<int>) {
    && Sane(net)
    && (forall g :: g in known ==> Holds(net, g, known[g]) && g in net.table.groups && g in used)
    && (forall g :: g in used && g !in known ==> g !in net.table.groups)
    && (forall g :: g !in used ==> Unknown(net, g))
    && SCI_GROUP_ALL in known && known[SCI_GROUP_ALL].Exact?
  }

  lemma HeldIsConveyed(net: Net, g: int, group: Group)
    requires Sane(net) && Holds(net, g, group)
    ensures Conveys(net, g, group.members)
  {
    hide Filed, Populated, Sound, Carries, Conveys;
    if group.Exact? { CarriesConveys(net, g, group.members); }
  }

  /** A request is carried out without failing anywhere, and the tree follows the map. */
  lemma ServeMatches(net: Net, known: Groups, used: set<int>, r: Request)
    requires Matches(net, known, used) && OnExact(known, used, r)
    ensures Matches(Serve(net, r), NextGroups(known, Shape(net), r), Ids(used, r))
    ensures Shape(Serve(net, r)) == Shape(net)
    ensures r.Make? ==> Handled(net, r.c, r.g)
    ensures r.Free? ==> Freeable(net, r.g)
  {
    hide Matches;
    if r.Make? { MakeMatches(net, known, used, r.c, r.g); } else { FreeMatches(net, known, used, r.g); }
  }

  /** What the operands of an accepted command are in the tree. */
  lemma OperandsThere(net: Net, known: Groups, used: set<int>, c: Command, g: int)
    requires Matches(net, known, used) && OnExact(known, used, Make(c, g))
    ensures NewId(c, g) && Unknown(net, g) && Knows(net.table.groups, c)
    ensures Operands(net, c, First(known, c), Second(known, c))
  {
    hide Filed, Populated, Sound, Carries, Unknown, Conveys;
    assert SCI_GROUP_ALL in net.table.groups;
  }

  /** What a command makes of the tree, as far as the new group is concerned. */
  lemma NewGroupHeld(net: Net, known: Groups, used: set<int>, c: Command, g: int)
    requires Matches(net, known, used) && OnExact(known, used, Make(c, g))
    ensures Handled(net, c, g) && Filed(Commanded(net, c, g))
    ensures Holds(Commanded(net, c, g), g, NewGroup(known, Shape(net), c))
  {
    hide Carries, Conveys, Unknown, Filed, Handled, Commanded, Result, Populated, Sound, Leaves, Elements, Joined;
    var a, b := First(known, c), Second(known, c);
    OperandsThere(net, known, used, c, g);
    if Fair(c, Shapes(net.children), a) {
      CommandExact(net, c, g, a, b);
    } else {
      UnionExact(net, c, g, a, Joined(Shape(net), a, c.list));
    }
  }

  lemma MakeMatches(net: Net, known: Groups, used: set<int>, c: Command, g: int)
    requires Matches(net, known, used) && OnExact(known, used, Make(c, g))
    ensures Matches(Commanded(net, c, g), NextGroups(known, Shape(net), Make(c, g)), used + {g})
    ensures Shape(Commanded(net, c, g)) == Shape(net) && Handled(net, c, g)
  {
    hide Holds, Unknown, Filed, Handled, Commanded, Populated, Sound, Knows, MakesIn, NewGroup, Operands;
    var net', known' := Commanded(net, c, g), NextGroups(known, Shape(net), Make(c, g));
    OperandsThere(net, known, used, c, g);
    NewGroupHeld(net, known, used, c, g);
    CommandedShape(net, c, g);
    SaneAfter(net, net');
    RootAfter(net, known, used, c, g);
    forall h | h in known
      ensures Holds(net', h, known[h]) && h in net'.table.groups
    {
      OthersHeld(net, known, used, c, g, h);
      RootKeys(net, c, g, h);
    }
    forall h | h !in used + {g}
      ensures Unknown(net', h)
    {
      OthersUnknown(net, c, g, h);
    }
    forall h | h in used && h !in known
      ensures h !in net'.table.groups
    {
      RootKeys(net, c, g, h);
    }
  }

  lemma OthersHeld(net: Net, known: Groups, used: set<int>, c: Command, g: int, h: int)
    requires Matches(net, known, used) && OnExact(known, used, Make(c, g)) && h in known && Handled(net, c, g)
    ensures Holds(Commanded(net, c, g), h, known[h])
  {
    hide Carries, Conveys, Unknown, Filed, Handled, Commanded, Populated, Sound, Operands;
    OperandsThere(net, known, used, c, g);
    if known[h].Exact? {
      OthersCarried(net, c, g, h, known[h].members);
    } else {
      OthersConveyed(net, c, g, h, known[h].members);
    }
  }

  /** The front end knows the new group exactly when it was made. */
  lemma RootAfter(net: Net, known: Groups, used: set<int>, c: Command, g: int)
    requires Matches(net, known, used) && OnExact(known, used, Make(c, g))
    ensures Commanded(net, c, g).Site?
    ensures g in Commanded(net, c, g).table.groups <==> MakesIn(known, Shape(net), c)
  {
    hide TableOf, Within, Sound, NewSlices, NewGroups, Result, Elements, Leaves, Filed, CarriesAll, Invariant,
      Populated, Conveys, Joined;
    var a, b := First(known, c), Second(known, c);
    OperandsThere(net, known, used, c, g);
    LeavesBelow(net);
    CommandGroups(net.table, c, g);
    CommandKeys(net.table.groups, c, g, g);
    if Fair(c, Shapes(net.children), a) {
      NewSlicesExact(net, c, a, b);
      WithinEmptyIff(Shapes(net.children), Result(c, a, b));
    }
  }

  lemma RootKeys(net: Net, c: Command, g: int, h: int)
    requires net.Site? && Unknown(net, g) && NewId(c, g) && h != g
    ensures Commanded(net, c, g).Site?
    ensures h in net.table.groups ==> h in Commanded(net, c, g).table.groups
    ensures h !in net.table.groups && NewId(c, h) ==> h !in Commanded(net, c, g).table.groups
  {
    hide NewGroups;
    CommandGroups(net.table, c, g);
    CommandKeys(net.table.groups, c, g, h);
  }

  lemma FreeMatches(net: Net, known: Groups, used: set<int>, g: int)
    requires Matches(net, known, used) && g in known && g != SCI_GROUP_ALL
    ensures Matches(Freed(net, g), known - {g}, used)
    ensures Shape(Freed(net, g)) == Shape(net) && Freeable(net, g)
  {
    hide Holds, Unknown, Filed, Freeable, Populated, Sound, FreedAll;
    var net' := Freed(net, g);
    HeldIsConveyed(net, g, known[g]);
    FreeConveyed(net, g, known[g].members);
    FreedShape(net, g);
    SaneAfter(net, net');
    forall h | h != g
      ensures h in net'.table.groups <==> h in net.table.groups
    {
      RemoveOther(net.table, g, h);
    }
    forall h | h in known && h != g
      ensures Holds(net', h, known[h])
    {
      FreeHeld(net, g, h, known[h]);
    }
    forall h | h !in used
      ensures Unknown(net', h)
    {
      FreeUnknown(net, g, h);
    }
    assert g !in net'.table.groups;
  }

  lemma FreeHeld(net: Net, g: int, h: int, group: Group)
    requires Holds(net, h, group) && h != g
    ensures Holds(Freed(net, g), h, group)
  {
    hide Carries, Conveys, Freed;
    if group.Exact? { FreeOthers(net, g, h, group.members); } else { FreeOthersConveyed(net, g, h, group.members); }
  }

  // ----- sessions -----

  ghost predicate IsExactSession(known: Groups, used: set<int>, t: Node, q: seq<Request>)
    requires t.Agent?
    decreases |q|
  {
    q != [] ==> OnExact(known, used, q[0]) && IsExactSession(NextGroups(known, t, q[0]), Ids(used, q[0]), t, q[1..])
  }

  ghost function KnownAfter(known: Groups, t: Node, q: seq<Request>): Groups
    requires t.Agent?
    decreases |q|
  {
    if q == [] then known else KnownAfter(NextGroups(known, t, q[0]), t, q[1..])
  }

  lemma {:induction false} SessionMatches(net: Net, known: Groups, used: set<int>, q: seq<Request>)
    requires net.Site? && Matches(net, known, used) && IsExactSession(known, used, Shape(net), q)
    ensures exists used' :: Matches(NetAfter(net, q), KnownAfter(known, Shape(net), q), used')
    ensures Shape(NetAfter(net, q)) == Shape(net) && NeverFails(net, q)
    decreases |q|
  {
    hide Matches, OnExact, NextGroups, Serve, Ids, Handled, Freeable;
    var t := Shape(net);
    if q == [] {
      assert Matches(NetAfter(net, q), KnownAfter(known, t, q), used);
    } else {
      ServeMatches(net, known, used, q[0]);
      SessionMatches(Serve(net, q[0]), NextGroups(known, t, q[0]), Ids(used, q[0]), q[1..]);
      var used' :| Matches(NetAfter(Serve(net, q[0]), q[1..]), KnownAfter(NextGroups(known, t, q[0]), t, q[1..]),
                           used');
      assert Matches(NetAfter(net, q), KnownAfter(known, t, q), used');
    }
  }

  /** In the beginning there is only ALL. */
  ghost function Initial(t: Node): Groups {
    map[SCI_GROUP_ALL := Exact(Elements(Leaves(t)))]
  }

  lemma FreshMatches(net: Net)
    requires Sane(net) && forall g :: g != SCI_GROUP_ALL ==> Unknown(net, g)
    ensures Matches(net, Initial(Shape(net)), {SCI_GROUP_ALL})
  {
    hide Filed, Carries, Sound, Unknown, Received, Elements;
    var leaves := Leaves(Shape(net));
    AllCarried(net, Elements(leaves));
    BroadcastExact(net, SCI_GROUP_ALL, Elements(leaves));
    OneMember(leaves);
  }

  lemma OneMember(q: seq<int>)
    requires q != []
    ensures Elements(q) * Elements(q) != {}
  {
    assert q[0] in Elements(q) * Elements(q);
  }

  /**
   * After any session on exact operands no node has failed, and a message to a group that exists reaches each of its
   * members in the tree exactly once and nobody else.
   */
  lemma ExactServed(net: Net, q: seq<Request>, g: int)
    requires Sane(net) && (forall h :: h != SCI_GROUP_ALL ==> Unknown(net, h)) && g <= SCI_GROUP_ALL
    requires IsExactSession(Initial(Shape(net)), {SCI_GROUP_ALL}, Shape(net), q)
    ensures NeverFails(net, q) && NetAfter(net, q).Site?
    ensures var t := Shape(net);
            var known := KnownAfter(Initial(t), t, q);
            Bcast(NetAfter(net, q), g)
            == if g in known then Reached(multiset(Elements(Leaves(t)) * known[g].members)) else GroupNotFound
  {
    hide IsExactSession, KnownAfter, NetAfter, NeverFails, Holds, Conveys, Filed, Received, Unknown, Populated, Sound,
      Leaves, Elements;
    var t := Shape(net);
    FreshMatches(net);
    SessionMatches(net, Initial(t), {SCI_GROUP_ALL}, q);
    var net', known := NetAfter(net, q), KnownAfter(Initial(t), t, q);
    var used' :| Matches(net', known, used');
    LeavesBelow(net');
    if g in known {
      HeldIsConveyed(net', g, known[g]);
      SoundLeaves(Shapes(net'.children));
      ConveyedExact(net', g, known[g].members);
    } else if g !in used' {
      UnknownHere(net', g);
    }
  }

  lemma SoundLeaves(ts: seq<Node>)
    requires Sound(ts)
    ensures LeavesSound(LeavesOf(ts))
  {
  }

  lemma UnknownHere(net: Net, g: int)
    requires net.Site? && Unknown(net, g)
    ensures g !in net.table.groups
  {
  }
}
