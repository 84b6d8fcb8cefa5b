/**
 * The tree of routing tables refines its sight: commands, frees and messages do with the tables what they do with
 * sets.
 */
module Refinement {
  import opened SortedSets
  import opened AgentNumbers
  import opened Tables
  import opened TableAlgebra
  import opened Runs
  import opened Delivery
  import opened GroupCommands
  import opened GroupFrees
  import opened Sights

  function BookOf(groups: GroupMap): Book {
    map g | g in groups :: GroupSet(groups, g)
  }

  function SightOf(net: Net): Sight
    decreases net, 1
  {
    match net
    case Leaf(id) => Tip(id)
    case Site(id, table, ns) => Post(id, BookOf(table.groups), SightsOf(ns))
  }

  function SightsOf(ns: seq<Net>): (ss: seq<Sight>)
    ensures |ss| == |ns|
    decreases ns, 0
  {
    if ns == [] then [] else [SightOf(ns[0])] + SightsOf(ns[1..])
  }

  /** Every group at every node is ALL restricted to some set, so no slice is empty. */
  ghost predicate Tidy(net: Net)
    decreases net, 1
  {
    net.Site? ==> TidyTable(net.table.groups, TableOf(Shapes(net.children))) && TidyAll(net.children)
  }

  ghost predicate TidyAll(ns: seq<Net>)
    decreases ns, 0
  {
    ns != [] ==> Tidy(ns[0]) && TidyAll(ns[1..])
  }

  ghost predicate TidyTable(groups: GroupMap, all: Slices) {
    forall g :: SlicesOf(groups, g) == Within(all, GroupSet(groups, g))
  }

  // ----- the back ends below -----

  lemma {:induction false} BelowIsLeaves(net: Net)
    ensures Below(SightOf(net)) == Elements(Leaves(Shape(net)))
    decreases net, 1
  {
    if net.Site? { BelowAllIsLeaves(net.children); } else { OneLeaf(Shape(net)); }
  }

  lemma {:induction false} BelowAllIsLeaves(ns: seq<Net>)
    ensures BelowAll(SightsOf(ns)) == Elements(LeavesOf(Shapes(ns)))
    decreases ns, 0
  {
    hide Below, SightOf, Shape, Leaves;
    if ns != [] {
      BelowIsLeaves(ns[0]);
      BelowAllIsLeaves(ns[1..]);
      assert SightsOf(ns)[1..] == SightsOf(ns[1..]) && Shapes(ns)[1..] == Shapes(ns[1..]);
      assert LeavesOf(Shapes(ns)) == Leaves(Shape(ns[0])) + LeavesOf(Shapes(ns[1..]));
    }
  }

  lemma {:induction false} TipsAreDirect(ns: seq<Net>)
    ensures Tips(SightsOf(ns)) == DirectLeaves(Shapes(ns))
    decreases ns
  {
    if ns != [] {
      TipsAreDirect(ns[1..]);
      assert SightsOf(ns)[1..] == SightsOf(ns[1..]) && Shapes(ns)[1..] == Shapes(ns[1..]);
    }
  }

  /** The slices of ALL hold exactly what is below. */
  lemma AllIsBelow(ns: seq<Net>)
    requires Sound(Shapes(ns))
    ensures Union(TableOf(Shapes(ns))) == BelowAll(SightsOf(ns))
  {
    hide TableOf, Sound, Union, BelowAll, LeavesOf;
    BelowAllIsLeaves(ns);
    forall x
      ensures x in Union(TableOf(Shapes(ns))) <==> x in BelowAll(SightsOf(ns))
    {
      SlicesAreLeaves(Shapes(ns), x);
    }
  }

  // ----- the union with a list -----

  lemma {:induction false} CrowdedInLeaves(ns: seq<Net>, a: set<int>)
    ensures Crowded(SightsOf(ns), a) <= Elements(LeavesOf(Shapes(ns)))
    decreases ns
  {
    hide Below, SightOf, Shape, Leaves;
    if ns != [] {
      CrowdedInLeaves(ns[1..], a);
      BelowIsLeaves(ns[0]);
      assert SightsOf(ns)[1..] == SightsOf(ns[1..]) && Shapes(ns)[1..] == Shapes(ns[1..]);
      assert LeavesOf(Shapes(ns)) == Leaves(Shape(ns[0])) + LeavesOf(Shapes(ns[1..]));
    }
  }

  /** Below one child only that child's own members matter. */
  lemma {:induction false} CrowdedAt(ns: seq<Net>, i: nat, a: set<int>, x: int)
    requires Sound(Shapes(ns)) && i < |ns| && x in Leaves(Shapes(ns)[i])
    ensures x in Crowded(SightsOf(ns), a) <==> ns[i].Site? && Elements(Leaves(Shapes(ns)[i])) * a != {}
    decreases ns
  {
    hide Below, Leaves, Sound;
    var ts, ss := Shapes(ns), SightsOf(ns);
    assert ss[1..] == SightsOf(ns[1..]) && ts[1..] == Shapes(ns[1..]);
    SoundParts(ts);
    BelowIsLeaves(ns[0]);
    var first, others := Leaves(ts[0]), LeavesOf(ts[1..]);
    if i == 0 {
      CrowdedInLeaves(ns[1..], a);
      assert x !in Elements(others);
    } else {
      LeafOfChild(ts[1..], i - 1, x);
      CrowdedAt(ns[1..], i - 1, a, x);
      assert x !in Elements(first);
    }
  }

  /** A slice of ALL is widened exactly when it has a member. */
  lemma WidenedSlice(ns: seq<Net>, a: set<int>, c: int, x: int)
    requires Sound(Shapes(ns)) && x in Get(TableOf(Shapes(ns)), c)
    ensures x in Widened(SightsOf(ns), a) <==> Get(TableOf(Shapes(ns)), c) * a != {}
  {
    hide Sound, TableOf, Leaves, LeavesOf, Crowded, Tips, DirectLeaves, Union;
    var ts := Shapes(ns);
    UnionIff(TableOf(ts), x);
    SlicesAreLeaves(ts, x);
    var i := ChildOfLeaf(ts, x);
    TableOwner(ts, i, x, c);
    CrowdedAt(ns, i, a, x);
    TipsAreDirect(ns);
    DirectIsSlice(ts);
    ShapeAt(ns, i);
    if ts[i].Agent? {
      AgentIsKey(ts, i);
      TableOwner(ts, i, x, VALIDBACKENDIDS);
    }
  }

  lemma UnionTidy(ns: seq<Net>, a: set<int>, list: set<int>)
    requires Sound(Shapes(ns))
    ensures var all := TableOf(Shapes(ns));
            ExtUnion(all, Within(all, a), list) == Within(all, Widened(SightsOf(ns), a) + BelowAll(SightsOf(ns)) * list)
  {
    hide Sound, TableOf, Widened, BelowAll, Within, ExtUnion;
    var all, w := TableOf(Shapes(ns)), Widened(SightsOf(ns), a) + BelowAll(SightsOf(ns)) * list;
    var left, right := ExtUnion(all, Within(all, a), list), Within(all, w);
    forall c
      ensures c in left <==> c in right
      ensures Get(left, c) == Get(right, c)
    {
      ExtUnionAt(all, a, list, c);
      WithinAt(all, w, c);
      UnionTidyAt(ns, a, list, c);
    }
    SameSlices(left, right);
  }

  lemma UnionTidyAt(ns: seq<Net>, a: set<int>, list: set<int>, c: int)
    requires Sound(Shapes(ns))
    ensures var s := Get(TableOf(Shapes(ns)), c);
            && s * (Widened(SightsOf(ns), a) + BelowAll(SightsOf(ns)) * list) == (if s * a != {} then s else s * list)
            && (s * (Widened(SightsOf(ns), a) + BelowAll(SightsOf(ns)) * list) != {} <==> s * a != {} || s * list != {})
  {
    hide Sound, TableOf, Widened, BelowAll, Union;
    var all := TableOf(Shapes(ns));
    var s := Get(all, c);
    AllIsBelow(ns);
    forall x | x in s
      ensures x in BelowAll(SightsOf(ns)) && (x in Widened(SightsOf(ns), a) <==> s * a != {})
    {
      UnionIff(all, x);
      WidenedSlice(ns, a, c, x);
    }
    if s * a != {} {
      NonEmptyHasMember(s * a);
      var x :| x in s * a;
      assert x in s;
    }
  }

  lemma {:induction false} CrowdedBelow(ss: seq<Sight>, a: set<int>)
    ensures Crowded(ss, a) <= BelowAll(ss) && Tips(ss) <= BelowAll(ss)
    decreases ss
  {
    hide Below;
    if ss != [] {
      CrowdedBelow(ss[1..], a);
      TipBelow(ss[0]);
    }
  }

  lemma TipBelow(s: Sight)
    ensures s.Tip? ==> s.id in Below(s)
  {
  }

  // ----- one node -----

  lemma BookSlices(groups: GroupMap, all: Slices, g: int)
    requires TidyTable(groups, all)
    ensures SlicesOf(groups, g) == Within(all, Get(BookOf(groups), g)) && Get(BookOf(groups), g) <= Union(all)
  {
    WithinUnion(all, GroupSet(groups, g));
  }

  /** The slices a command makes are those of ALL restricted to what the sight says. */
  lemma NewSlicesTidy(groups: GroupMap, ns: seq<Net>, c: Command)
    requires Sound(Shapes(ns)) && TidyTable(groups, TableOf(Shapes(ns)))
    requires SlicesOf(groups, SCI_GROUP_ALL) == TableOf(Shapes(ns))
    ensures var m := Gained(BookOf(groups), SightsOf(ns), c);
            && NewSlices(groups, c) == Within(TableOf(Shapes(ns)), m)
            && m <= BelowAll(SightsOf(ns)) && Union(NewSlices(groups, c)) == m
            && (Succeeds(groups, c) <==> Makes(BookOf(groups), SightsOf(ns), c))
  {
    hide Sound, TableOf, Within, Combine, ExtUnion, BelowAll, TidyTable, BookOf, Union, Crowded, Tips;
    var all, ss, book := TableOf(Shapes(ns)), SightsOf(ns), BookOf(groups);
    AllIsBelow(ns);
    match c {
      case FromList(list) =>
        WithinOnly(all, list);
      case FromGroups(g1, g2, op) =>
        BookSlices(groups, all, g1);
        BookSlices(groups, all, g2);
        CombineWithin(all, Get(book, g1), Get(book, g2), op);
      case FromGroupAndList(g1, list, op) =>
        BookSlices(groups, all, g1);
        WithinWithin(all, Get(book, g1), list);
        UnionTidy(ns, Get(book, g1), list);
        CrowdedBelow(ss, Get(book, g1));
    }
    WithinUnion(all, Gained(book, ss, c));
  }

  lemma WithinOnly(all: Slices, s: set<int>)
    ensures Within(all, s) == Within(all, Union(all) * s)
  {
    forall c | c in all
      ensures all[c] * s == all[c] * (Union(all) * s)
    {
      assert forall x :: x in all[c] ==> x in Union(all);
    }
  }

  lemma BookAt(groups: GroupMap, g: int)
    ensures g in BookOf(groups) <==> g in groups
    ensures Get(BookOf(groups), g) == Union(SlicesOf(groups, g))
  {
  }

  /** A tidy group has a slice exactly when it has a member. */
  lemma TidyEmptyIff(groups: GroupMap, all: Slices, g: int)
    requires TidyTable(groups, all)
    ensures SlicesOf(groups, g) == map[] <==> Get(BookOf(groups), g) == {}
  {
    hide TidyTable, BookOf, Within, Union;
    BookSlices(groups, all, g);
    WithinUnion(all, Get(BookOf(groups), g));
  }

  /** Other groups come into being where the sight says so. */
  lemma NewKeys(groups: GroupMap, ns: seq<Net>, c: Command, g: int, h: int)
    requires Sound(Shapes(ns)) && TidyTable(groups, TableOf(Shapes(ns))) && NewId(c, g) && g !in groups && h != g
    requires SlicesOf(groups, SCI_GROUP_ALL) == TableOf(Shapes(ns))
    ensures h in NewGroups(groups, c, g) <==> h in NewBook(BookOf(groups), SightsOf(ns), c, g)
  {
    hide Sound, TableOf, BookOf, Union, BelowAll, TidyTable, SlicesOf, NewGroups, Consulted;
    var all, ss := TableOf(Shapes(ns)), SightsOf(ns);
    BookAt(groups, h);
    BookAt(groups, SCI_GROUP_ALL);
    AllIsBelow(ns);
    TidyEmptyIff(groups, all, SCI_GROUP_ALL);
    if !c.FromList? { TidyEmptyIff(groups, all, c.g1); }
    match c
    case FromList(list) => FromListKeys(groups, ss, list, g, h);
    case FromGroups(g1, g2, op) => FromGroupsKeys(groups, ss, g1, g2, op, g, h);
    case FromGroupAndList(g1, list, op) => FromGroupAndListKeys(groups, ss, g1, list, op, g, h);
  }

  lemma FromListKeys(groups: GroupMap, ss: seq<Sight>, list: set<int>, g: int, h: int)
    requires h != g
    ensures h in NewGroups(groups, FromList(list), g) <==> h in Consulted(BookOf(groups), ss, FromList(list))
  {
    hide Within, SlicesOf;
  }

  lemma FromGroupsKeys(groups: GroupMap, ss: seq<Sight>, g1: int, g2: int, op: SetOp, g: int, h: int)
    requires h != g && (SlicesOf(groups, g1) == map[] <==> Get(BookOf(groups), g1) == {})
    ensures h in NewGroups(groups, FromGroups(g1, g2, op), g)
            <==> h in Consulted(BookOf(groups), ss, FromGroups(g1, g2, op))
  {
    hide Combine, SlicesOf, Get;
    assert forall k :: k in BookOf(groups) <==> k in groups;
  }

  lemma FromGroupAndListKeys(groups: GroupMap, ss: seq<Sight>, g1: int, list: set<int>, op: SetOp, g: int, h: int)
    requires h != g && (SlicesOf(groups, SCI_GROUP_ALL) == map[] <==> BelowAll(ss) == {})
    ensures h in NewGroups(groups, FromGroupAndList(g1, list, op), g)
            <==> h in Consulted(BookOf(groups), ss, FromGroupAndList(g1, list, op))
  {
    hide CombineExt, SlicesOf, BelowAll;
    assert forall k :: k in BookOf(groups) <==> k in groups;
  }

  lemma NewGroupAt(groups: GroupMap, ns: seq<Net>, c: Command, g: int, h: int)
    requires Sound(Shapes(ns)) && TidyTable(groups, TableOf(Shapes(ns))) && NewId(c, g) && g !in groups
    requires SlicesOf(groups, SCI_GROUP_ALL) == TableOf(Shapes(ns))
    ensures var groups', book' := NewGroups(groups, c, g), NewBook(BookOf(groups), SightsOf(ns), c, g);
            && (h in BookOf(groups') <==> h in book') && Get(BookOf(groups'), h) == Get(book', h)
            && SlicesOf(groups', h) == Within(TableOf(Shapes(ns)), GroupSet(groups', h))
  {
    hide Sound, TableOf, Within, NewSlices, BookOf, NewBook, NewGroups, SlicesOf, Gained, BelowAll, Union, Makes,
      Succeeds;
    var groups', book, ss := NewGroups(groups, c, g), BookOf(groups), SightsOf(ns);
    BookAt(groups', h);
    BookAt(groups, h);
    BookAt(groups, g);
    NewGroupsSlices(groups, c, g);
    NewSlicesTidy(groups, ns, c);
    NewBookAt(book, ss, c, g, h);
    if h == g {
      CommandKeys(groups, c, g, g);
      if !Makes(book, ss, c) { NotMade(book, ss, c); }
    } else {
      NewKeys(groups, ns, c, g, h);
      NewBookOther(book, ss, c, g, h);
    }
  }

  lemma NotMade(book: Book, ss: seq<Sight>, c: Command)
    requires !Makes(book, ss, c)
    ensures Gained(book, ss, c) == {}
  {
  }

  lemma NewBookOther(book: Book, ss: seq<Sight>, c: Command, g: int, h: int)
    requires h != g
    ensures Get(NewBook(book, ss, c, g), h) == Get(book, h)
  {
  }

  lemma NewGroupsTidy(groups: GroupMap, ns: seq<Net>, c: Command, g: int)
    requires Sound(Shapes(ns)) && TidyTable(groups, TableOf(Shapes(ns))) && NewId(c, g) && g !in groups
    requires SlicesOf(groups, SCI_GROUP_ALL) == TableOf(Shapes(ns))
    ensures BookOf(NewGroups(groups, c, g)) == NewBook(BookOf(groups), SightsOf(ns), c, g)
    ensures TidyTable(NewGroups(groups, c, g), TableOf(Shapes(ns)))
  {
    hide Sound, TableOf, Within, NewSlices, BookOf, NewBook, NewGroups, GroupSet, SlicesOf, Gained, BelowAll;
    var all, groups' := TableOf(Shapes(ns)), NewGroups(groups, c, g);
    var left, right := BookOf(groups'), NewBook(BookOf(groups), SightsOf(ns), c, g);
    forall h
      ensures h in left <==> h in right
      ensures Get(left, h) == Get(right, h)
    {
      NewGroupAt(groups, ns, c, g, h);
    }
    SameSlices(left, right);
    forall h
      ensures SlicesOf(groups', h) == Within(all, GroupSet(groups', h))
    {
      NewGroupAt(groups, ns, c, g, h);
    }
  }

  // ----- commands -----

  /** What one node does with a command, seen both ways. */
  lemma NodeRefines(net: Net, c: Command, g: int)
    requires net.Site? && Filed(net) && Tidy(net) && Sound(Shapes(net.children)) && Unknown(net, g) && NewId(c, g)
    ensures Allowed(net.table, StepOf(c, g)) <==> Finds(BookOf(net.table.groups), c)
    ensures Allowed(net.table, StepOf(c, g)) ==>
              var t' := Apply(net.table, StepOf(c, g));
              var book, ss, all := BookOf(net.table.groups), SightsOf(net.children), TableOf(Shapes(net.children));
              && Invariant(t') && SlicesOf(t'.groups, SCI_GROUP_ALL) == all && TidyTable(t'.groups, all)
              && BookOf(t'.groups) == NewBook(book, ss, c, g)
              && (Succeeds(net.table.groups, c) <==> Makes(book, ss, c))
              && ServesAll(SuccListAt(t', g), Shapes(net.children), Gained(book, ss, c))
  {
    hide Invariant, Sound, TableOf, Within, NewSlices, NewBook, NewGroups, Gained, BelowAll, Union, Makes, Succeeds,
      ServesAll, TidyTable, Apply, SuccListOf;
    var t, ns := net.table, net.children;
    CommandAllowed(t, c, g);
    FindsIff(t.groups, c);
    if Allowed(t, StepOf(c, g)) {
      CommandTable(t, c, g);
      CommandGroups(t, c, g);
      NewSlicesTidy(t.groups, ns, c);
      NewGroupsTidy(t.groups, ns, c, g);
      WithinServes(Shapes(ns), SuccListAt(Apply(t, StepOf(c, g)), g), Gained(BookOf(t.groups), SightsOf(ns), c));
    }
  }

  lemma FindsIff(groups: GroupMap, c: Command)
    ensures Knows(groups, c) <==> Finds(BookOf(groups), c)
  {
  }

  /**
   * For any operands: the nodes that get a command can all carry it out exactly when the sight says so, and then the
   * tables afterwards are those that the sight says.
   */
  lemma {:induction false} CommandRefines(net: Net, c: Command, g: int)
    requires net.Site? && Filed(net) && Tidy(net) && Sound(Shapes(net.children)) && Unknown(net, g) && NewId(c, g)
    ensures Handled(net, c, g) <==> Heard(SightOf(net), c)
    ensures Handled(net, c, g) ==> Filed(Commanded(net, c, g)) && Tidy(Commanded(net, c, g))
    ensures Handled(net, c, g) ==> SightOf(Commanded(net, c, g)) == Ordered(SightOf(net), c, g)
    decreases net, 1
  {
    hide Invariant, Sound, TableOf, NewBook, Gained, Makes, Finds, Succeeds, Allowed, Apply, ServesAll, TidyTable,
      BookOf;
    NodeRefines(net, c, g);
    if Allowed(net.table, StepOf(c, g)) && Succeeds(net.table.groups, c) {
      var succ := SuccListAt(Apply(net.table, StepOf(c, g)), g);
      var m := Gained(BookOf(net.table.groups), SightsOf(net.children), c);
      PassedRefines(net.children, succ, c, g, m);
      PassedShapes(net.children, succ, c, g);
    }
  }

  lemma {:induction false} PassedRefines(ns: seq<Net>, succ: seq<int>, c: Command, g: int, m: set<int>)
    requires FiledAll(ns) && TidyAll(ns) && Sound(Shapes(ns)) && UnknownAll(ns, g) && NewId(c, g)
    requires ServesAll(succ, Shapes(ns), m)
    ensures HandledAll(ns, succ, c, g) <==> HeardAll(SightsOf(ns), m, c)
    ensures HandledAll(ns, succ, c, g) ==> FiledAll(Passed(ns, succ, c, g)) && TidyAll(Passed(ns, succ, c, g))
    ensures HandledAll(ns, succ, c, g) ==> SightsOf(Passed(ns, succ, c, g)) == OrderedAll(SightsOf(ns), m, c, g)
    decreases ns, 0
  {
    hide Filed, Tidy, Sound, Unknown, Handled, Heard, Commanded, Ordered, Below, Serves;
    if ns != [] {
      var ts, ss := Shapes(ns), SightsOf(ns);
      assert ts[1..] == Shapes(ns[1..]) && ss[1..] == SightsOf(ns[1..]);
      SoundParts(ts);
      ServesTail(succ, ts, m);
      PassedRefines(ns[1..], succ, c, g, m);
      FirstRefines(ns[0], succ, c, g, m);
      assert Passed(ns, succ, c, g)[1..] == Passed(ns[1..], succ, c, g);
    }
  }

  lemma ServedIff(net: Net, succ: seq<int>, m: set<int>)
    requires Serves(succ, Shape(net), m)
    ensures net.id in succ <==> Below(SightOf(net)) * m != {}
  {
    hide Leaves, Below;
    BelowIsLeaves(net);
    assert net.id in succ <==> multiset(succ)[net.id] > 0;
  }

  lemma {:induction false} FirstRefines(net: Net, succ: seq<int>, c: Command, g: int, m: set<int>)
    requires Filed(net) && Tidy(net) && Unknown(net, g) && NewId(c, g) && Serves(succ, Shape(net), m)
    requires AgentsSound(Agents(Shape(net))) && LeavesSound(Leaves(Shape(net)))
    ensures net.id in succ <==> Below(SightOf(net)) * m != {}
    ensures Handled(net, c, g) <==> Heard(SightOf(net), c)
    ensures Handled(net, c, g) ==> Filed(Commanded(net, c, g)) && Tidy(Commanded(net, c, g))
    ensures Handled(net, c, g) ==> SightOf(Commanded(net, c, g)) == Ordered(SightOf(net), c, g)
    decreases net, 2
  {
    hide Sound, Filed, Tidy, Leaves, Below, Handled, Heard, Serves;
    ServedIff(net, succ, m);
    SoundBelow(Shape(net));
    if net.Site? { CommandRefines(net, c, g); } else { LeafRefines(net, c, g); }
  }

  lemma LeafRefines(net: Net, c: Command, g: int)
    requires net.Leaf?
    ensures Handled(net, c, g) && Heard(SightOf(net), c) && Filed(net) && Tidy(net) && Freeable(net, g)
    ensures Linked(SightOf(net), g)
  {
  }

  lemma {:induction false} UnknownIff(net: Net, g: int)
    ensures Unknown(net, g) <==> Ignorant(SightOf(net), g)
    decreases net, 1
  {
    if net.Site? { UnknownAllIff(net.children, g); }
  }

  lemma {:induction false} UnknownAllIff(ns: seq<Net>, g: int)
    ensures UnknownAll(ns, g) <==> IgnorantAll(SightsOf(ns), g)
    decreases ns, 0
  {
    hide Unknown, Ignorant, SightOf;
    if ns != [] {
      UnknownIff(ns[0], g);
      UnknownAllIff(ns[1..], g);
      assert SightsOf(ns)[1..] == SightsOf(ns[1..]);
    }
  }

  // ----- freeing -----

  lemma TidyServes(net: Net, g: int)
    requires net.Site? && Filed(net) && Tidy(net) && Sound(Shapes(net.children))
    ensures ServesAll(SuccListAt(net.table, g), Shapes(net.children), Get(BookOf(net.table.groups), g))
  {
    hide Invariant, Sound, TableOf, Within, ServesAll, Union, SuccListOf, BookOf;
    SuccCoherent(net.table, g);
    BookSlices(net.table.groups, TableOf(Shapes(net.children)), g);
    WithinServes(Shapes(net.children), SuccListAt(net.table, g), Get(BookOf(net.table.groups), g));
  }

  lemma RemoveTidy(groups: GroupMap, all: Slices, g: int)
    requires TidyTable(groups, all)
    ensures TidyTable(groups - {g}, all) && BookOf(groups - {g}) == BookOf(groups) - {g}
  {
    hide Within;
    var groups' := groups - {g};
    forall h
      ensures SlicesOf(groups', h) == Within(all, GroupSet(groups', h))
    {
      if h == g {
        assert GroupSet(groups', h) == {};
        WithinNothing(all);
      } else {
        assert SlicesOf(groups', h) == SlicesOf(groups, h);
      }
    }
  }

  /** Freeing any group: every node that gets the message knows the group exactly when the group is linked. */
  lemma {:induction false} FreeRefines(net: Net, g: int)
    requires net.Site? && Filed(net) && Tidy(net) && Sound(Shapes(net.children)) && g != SCI_GROUP_ALL
    ensures Freeable(net, g) <==> Linked(SightOf(net), g)
    ensures Freeable(net, g) ==> Filed(Freed(net, g)) && Tidy(Freed(net, g))
    ensures Freeable(net, g) ==> SightOf(Freed(net, g)) == Released(SightOf(net), g)
    decreases net, 1
  {
    hide Invariant, Sound, TableOf, ServesAll, TidyTable, BookOf;
    var t, book := net.table, BookOf(net.table.groups);
    BookAt(t.groups, g);
    if g in t.groups {
      var succ := SuccListAt(t, g);
      TidyServes(net, g);
      FreeTable(t, g);
      RemoveTidy(t.groups, TableOf(Shapes(net.children)), g);
      FreedShapes(net.children, succ, g);
      FreedRefines(net.children, succ, g, Get(book, g));
    }
  }

  lemma {:induction false} FreedRefines(ns: seq<Net>, succ: seq<int>, g: int, m: set<int>)
    requires FiledAll(ns) && TidyAll(ns) && Sound(Shapes(ns)) && g != SCI_GROUP_ALL && ServesAll(succ, Shapes(ns), m)
    ensures FreeableAll(ns, succ, g) <==> LinkedAll(SightsOf(ns), m, g)
    ensures FreeableAll(ns, succ, g) ==> FiledAll(FreedAll(ns, succ, g)) && TidyAll(FreedAll(ns, succ, g))
    ensures FreeableAll(ns, succ, g) ==> SightsOf(FreedAll(ns, succ, g)) == ReleasedAll(SightsOf(ns), m, g)
    decreases ns, 0
  {
    hide Filed, Tidy, Sound, Freeable, Linked, Freed, Released, Below, Serves;
    if ns != [] {
      var ts, ss := Shapes(ns), SightsOf(ns);
      assert ts[1..] == Shapes(ns[1..]) && ss[1..] == SightsOf(ns[1..]);
      SoundParts(ts);
      ServesTail(succ, ts, m);
      FreedRefines(ns[1..], succ, g, m);
      FreedFirstRefines(ns[0], succ, g, m);
      assert FreedAll(ns, succ, g)[1..] == FreedAll(ns[1..], succ, g);
    }
  }

  lemma {:induction false} FreedFirstRefines(net: Net, succ: seq<int>, g: int, m: set<int>)
    requires Filed(net) && Tidy(net) && g != SCI_GROUP_ALL && Serves(succ, Shape(net), m)
    requires AgentsSound(Agents(Shape(net))) && LeavesSound(Leaves(Shape(net)))
    ensures net.id in succ <==> Below(SightOf(net)) * m != {}
    ensures Freeable(net, g) <==> Linked(SightOf(net), g)
    ensures Freeable(net, g) ==> Filed(Freed(net, g)) && Tidy(Freed(net, g))
    ensures Freeable(net, g) ==> SightOf(Freed(net, g)) == Released(SightOf(net), g)
    decreases net, 2
  {
    hide Sound, Filed, Tidy, Leaves, Below, Freeable, Linked, Serves;
    ServedIff(net, succ, m);
    SoundBelow(Shape(net));
    if net.Site? { FreeRefines(net, g); } else { LeafRefines(net, FromList({}), g); }
  }

  // ----- messages -----

  /** A message to any group is received once by everyone in its audience and by nobody else. */
  lemma {:induction false} ReceivedExact(net: Net, g: int)
    requires Filed(net) && Tidy(net) && AgentsSound(Agents(Shape(net))) && LeavesSound(Leaves(Shape(net)))
    ensures Received(net, g) == multiset(Audience(SightOf(net), g))
    decreases net, 1
  {
    if net.Site? {
      SoundBelow(Shape(net));
      ReceivedHere(net, g);
    }
  }

  lemma {:induction false} ReceivedHere(net: Net, g: int)
    requires net.Site? && Filed(net) && Tidy(net) && Sound(Shapes(net.children))
    ensures Received(net, g) == multiset(Audience(SightOf(net), g))
    decreases net, 0
  {
    hide Invariant, Sound, TableOf, ServesAll, BookOf, TidyTable;
    BookAt(net.table.groups, g);
    if g in net.table.groups {
      TidyServes(net, g);
      ReceivedFromExact(net.children, SuccListAt(net.table, g), g, Get(BookOf(net.table.groups), g));
    }
  }

  lemma {:induction false} ReceivedFromExact(ns: seq<Net>, succ: seq<int>, g: int, m: set<int>)
    requires FiledAll(ns) && TidyAll(ns) && Sound(Shapes(ns)) && ServesAll(succ, Shapes(ns), m)
    ensures ReceivedFrom(ns, succ, g) == multiset(AudienceAll(SightsOf(ns), m, g))
    decreases ns, 0
  {
    hide Filed, Tidy, Sound, Audience, Received, Below, Serves, Leaves, Agents;
    if ns != [] {
      var ts, ss := Shapes(ns), SightsOf(ns);
      assert ts[1..] == Shapes(ns[1..]) && ss[1..] == SightsOf(ns[1..]);
      SoundParts(ts);
      ServesTail(succ, ts, m);
      ReceivedFromExact(ns[1..], succ, g, m);
      ReceivedExact(ns[0], g);
      CopiesIff(ns[0], succ, m);
      TimesOne(Received(ns[0], g));
      AudiencesApart(ns, m, g);
    }
  }

  lemma CopiesIff(net: Net, succ: seq<int>, m: set<int>)
    requires Serves(succ, Shape(net), m)
    ensures multiset(succ)[net.id] == if Below(SightOf(net)) * m != {} then 1 else 0
  {
    hide Leaves, Below;
    BelowIsLeaves(net);
  }

  /** Nobody is in the audience of two children. */
  lemma AudiencesApart(ns: seq<Net>, m: set<int>, g: int)
    requires ns != [] && Sound(Shapes(ns))
    ensures multiset(AudienceAll(SightsOf(ns), m, g))
            == (if Below(SightOf(ns[0])) * m != {} then multiset(Audience(SightOf(ns[0]), g)) else multiset{})
               + multiset(AudienceAll(SightsOf(ns[1..]), m, g))
  {
    hide Sound, Audience, Below, Leaves, BelowAll;
    var ts, ss := Shapes(ns), SightsOf(ns);
    assert ts[1..] == Shapes(ns[1..]) && ss[1..] == SightsOf(ns[1..]);
    SoundParts(ts);
    BelowIsLeaves(ns[0]);
    BelowAllIsLeaves(ns[1..]);
    AudienceBelow(ss[0], g);
    AudienceAllBelow(ss[1..], m, g);
    var here := if Below(ss[0]) * m != {} then Audience(ss[0], g) else {};
    var there := AudienceAll(ss[1..], m, g);
    forall x | x in here
      ensures x !in there
    {
      assert x in Leaves(ts[0]);
      assert x !in Elements(LeavesOf(ts[1..]));
    }
    assert AudienceAll(ss, m, g) == here + there;
  }
}
