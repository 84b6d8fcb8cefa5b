/**
 * Group commands on their way down the tree: a node carries a command out on its own table and, if that made the
 * group, hands it on to the successors of the new group.
 */
module GroupCommands {
  import opened SortedSets
  import opened AgentNumbers
  import opened Tables
  import opened TableAlgebra
  import opened Runs
  import opened Delivery

  /** `GROUP_CREATE`, `GROUP_OPERATE` and `GROUP_OPERATE_EXT`. */
  datatype Command =
    | FromList(list: set<int>)
    | FromGroups(g1: int, g2: int, op: SetOp)
    | FromGroupAndList(g1: int, list: set<int>, op: SetOp)

  function StepOf(c: Command, g: int): Step {
    match c
    case FromList(list) => CreateStep(list, g)
    case FromGroups(g1, g2, op) => OperateStep(g1, g2, op, g)
    case FromGroupAndList(g1, list, op) => OperateExtStep(g1, list, op, g)
  }

  /** The slices the new group gets at a node. */
  function NewSlices(groups: GroupMap, c: Command): Slices {
    match c
    case FromList(list) => Within(SlicesOf(groups, SCI_GROUP_ALL), list)
    case FromGroups(g1, g2, op) => Operated(groups, g1, g2, op)
    case FromGroupAndList(g1, list, op) => OperatedExt(groups, g1, list, op)
  }

  /** Whether the node reports success: always for a list and a union, else when a member is left. */
  predicate Succeeds(groups: GroupMap, c: Command) {
    c.FromList? || Made(c.op, NewSlices(groups, c))
  }

  function Commanded(net: Net, c: Command, g: int): Net
    decreases net, 1
  {
    match net
    case Leaf(_) => net
    case Site(id, table, ns) =>
      var table' := Apply(table, StepOf(c, g));
      Site(id, table', if Succeeds(table.groups, c) then Passed(ns, SuccListAt(table', g), c, g) else ns)
  }

  function Passed(ns: seq<Net>, succ: seq<int>, c: Command, g: int): (ns': seq<Net>)
    ensures |ns'| == |ns|
    decreases ns, 0
  {
    if ns == [] then []
    else [if ns[0].id in succ then Commanded(ns[0], c, g) else ns[0]] + Passed(ns[1..], succ, c, g)
  }

  /** Every node that gets the command can carry it out: the groups it looks up without checking are there. */
  ghost predicate Handled(net: Net, c: Command, g: int)
    decreases net, 1
  {
    net.Site? ==>
      && Allowed(net.table, StepOf(c, g))
      && (Succeeds(net.table.groups, c) ==>
            HandledAll(net.children, SuccListAt(Apply(net.table, StepOf(c, g)), g), c, g))
  }

  ghost predicate HandledAll(ns: seq<Net>, succ: seq<int>, c: Command, g: int)
    decreases ns, 0
  {
    ns != [] ==> (ns[0].id in succ ==> Handled(ns[0], c, g)) && HandledAll(ns[1..], succ, c, g)
  }

  // ----- shape -----

  lemma {:induction false} CommandedShape(net: Net, c: Command, g: int)
    ensures Shape(Commanded(net, c, g)) == Shape(net)
    decreases net, 1
  {
    if net.Site? && Succeeds(net.table.groups, c) {
      PassedShapes(net.children, SuccListAt(Apply(net.table, StepOf(c, g)), g), c, g);
    }
  }

  lemma {:induction false} PassedShapes(ns: seq<Net>, succ: seq<int>, c: Command, g: int)
    ensures Shapes(Passed(ns, succ, c, g)) == Shapes(ns)
    decreases ns, 0
  {
    if ns != [] {
      CommandedShape(ns[0], c, g);
      PassedShapes(ns[1..], succ, c, g);
      assert Passed(ns, succ, c, g)[1..] == Passed(ns[1..], succ, c, g);
    }
  }

  // ----- one node -----

  /** What carrying out a command does to a table. */
  lemma CommandTable(t: Table, c: Command, g: int)
    requires Invariant(t) && Allowed(t, StepOf(c, g))
    ensures var t' := Apply(t, StepOf(c, g));
            && Invariant(t')
            && SlicesOf(t'.groups, g) == NewSlices(t.groups, c)
            && (forall h :: h != g ==> SlicesOf(t'.groups, h) == SlicesOf(t.groups, h))
            && (Succeeds(t.groups, c) <==> g in t'.groups)
            && (forall h :: h in t.groups ==> h in t'.groups)
            && multiset(SuccListAt(t', g)) == multiset(SuccListOf(NewSlices(t.groups, c)))
  {
    hide Invariant, SuccListOf;
    CommandInvariant(t, StepOf(c, g));
    CommandSlices(t, c, g);
    SuccCoherent(Apply(t, StepOf(c, g)), g);
  }

  lemma CommandInvariant(t: Table, s: Step)
    requires Invariant(t) && Allowed(t, s)
    ensures Invariant(Apply(t, s))
  {
    hide Apply, Allowed;
    StepKeepsOwned(t, s);
    StepKeepsCoherent(t, s);
  }

  /** The groups after a command, whatever becomes of the caches. */
  function NewGroups(groups: GroupMap, c: Command, g: int): GroupMap {
    match c
    case FromList(list) => CreateGroups(groups, list, g)
    case FromGroups(g1, g2, op) => Tables.OperateGroups(groups, g1, g2, op, g)
    case FromGroupAndList(g1, list, op) => OperateExtGroups(groups, g1, list, op, g)
  }

  lemma CommandGroups(t: Table, c: Command, g: int)
    ensures Apply(t, StepOf(c, g)).groups == NewGroups(t.groups, c, g)
  {
    hide ResetMany, CreateGroups, Tables.OperateGroups, OperateExtGroups, Made, Operated, OperatedExt;
    var after := t.(groups := NewGroups(t.groups, c, g));
    ResetGroups(after, {g});
    ResetGroups(after, {});
  }

  lemma CommandSlices(t: Table, c: Command, g: int)
    requires Allowed(t, StepOf(c, g))
    ensures var t' := Apply(t, StepOf(c, g));
            && SlicesOf(t'.groups, g) == NewSlices(t.groups, c)
            && (forall h :: h != g ==> SlicesOf(t'.groups, h) == SlicesOf(t.groups, h))
            && (Succeeds(t.groups, c) <==> g in t'.groups)
            && (forall h :: h in t.groups ==> h in t'.groups)
  {
    hide Apply, SlicesOf, NewGroups, NewSlices, Succeeds;
    CommandGroups(t, c, g);
    CommandNew(t, c, g);
    NewGroupsSlices(t.groups, c, g);
    forall h
      ensures h in t.groups ==> h in NewGroups(t.groups, c, g)
    {
      CommandKeys(t.groups, c, g, h);
    }
    CommandKeys(t.groups, c, g, g);
  }

  lemma CommandNew(t: Table, c: Command, g: int)
    requires Allowed(t, StepOf(c, g))
    ensures NewId(c, g) && g !in t.groups
  {
  }

  lemma NewGroupsSlices(groups: GroupMap, c: Command, g: int)
    requires NewId(c, g) && g !in groups
    ensures SlicesOf(NewGroups(groups, c, g), g) == NewSlices(groups, c)
    ensures forall h :: h != g ==> SlicesOf(NewGroups(groups, c, g), h) == SlicesOf(groups, h)
  {
    hide SlicesOf, CreateGroups, Tables.OperateGroups, OperateExtGroups, Combine, CombineExt, Within;
    match c
    case FromList(list) => CreateSlices(groups, list, g);
    case FromGroups(g1, g2, op) => OperateSlices(groups, g1, g2, op, g);
    case FromGroupAndList(g1, list, op) => OperateExtSlices(groups, g1, list, op, g);
  }

  /** Which groups there are afterwards: none is lost, and besides the new one only operands may come into being. */
  lemma CommandKeys(groups: GroupMap, c: Command, g: int, h: int)
    requires NewId(c, g) && g !in groups
    ensures h in groups ==> h in NewGroups(groups, c, g)
    ensures h == g ==> (h in NewGroups(groups, c, g) <==> Succeeds(groups, c))
    ensures h !in groups && h != g && NewId(c, h) ==> h !in NewGroups(groups, c, g)
  {
    hide Combine, CombineExt, Within, SlicesOf;
  }

  // ----- restricted slices -----

  lemma CombineWithin(all: Slices, a: set<int>, b: set<int>, op: SetOp)
    ensures Combine(Within(all, a), Within(all, b), op) == Within(all, Meaning(a, b, op))
  {
    var left, right := Combine(Within(all, a), Within(all, b), op), Within(all, Meaning(a, b, op));
    forall c
      ensures (c in left <==> c in right) && (c in left ==> left[c] == right[c])
    {
      WithinAt(all, a, c);
      WithinAt(all, b, c);
      WithinAt(all, Meaning(a, b, op), c);
      CombineAt(Within(all, a), Within(all, b), op, c);
      SetAlgebra(Get(all, c), a, b, op);
    }
  }

  lemma CombineAt(x: Slices, y: Slices, op: SetOp, c: int)
    ensures Get(Combine(x, y, op), c) == Meaning(Get(x, c), Get(y, c), op)
    ensures c in Combine(x, y, op)
            <==> if op == SCI_UNION then c in x || c in y else Meaning(Get(x, c), Get(y, c), op) != {}
  {
  }

  lemma SetAlgebra(s: set<int>, a: set<int>, b: set<int>, op: SetOp)
    ensures Meaning(s * a, s * b, op) == s * Meaning(a, b, op)
    ensures op == SCI_UNION ==> (s * a != {} || s * b != {} <==> s * Meaning(a, b, op) != {})
  {
  }

  lemma WithinWithin(all: Slices, a: set<int>, list: set<int>)
    ensures Within(Within(all, a), list) == Within(all, a * list)
    ensures Outside(Within(all, a), list) == Within(all, a - list)
  {
    forall c | c in all
      ensures all[c] * a * list == all[c] * (a * list) && all[c] * a - list == all[c] * (a - list)
    {
    }
  }

  // ----- the union with a list at one node -----

  /** The attached back ends. */
  function DirectLeaves(ts: seq<Node>): set<int> {
    if ts == [] then {} else (if ts[0].BackEnd? then {ts[0].id} else {}) + DirectLeaves(ts[1..])
  }

  lemma {:induction false} DirectLeavesIff(ts: seq<Node>, x: int)
    ensures x in DirectLeaves(ts) <==> BackEnd(x) in ts
    ensures x in DirectLeaves(ts) ==> x in LeavesOf(ts)
    decreases ts
  {
    if ts != [] {
      DirectLeavesIff(ts[1..], x);
      assert ts == [ts[0]] + ts[1..];
    }
  }

  lemma DirectIsSlice(ts: seq<Node>)
    requires Sound(ts)
    ensures Get(TableOf(ts), VALIDBACKENDIDS) == DirectLeaves(ts)
  {
    hide DirectLeaves, TableOf, Sound;
    forall x
      ensures x in Get(TableOf(ts), VALIDBACKENDIDS) <==> x in DirectLeaves(ts)
    {
      DirectIsSliceAt(ts, x);
    }
  }

  lemma DirectIsSliceAt(ts: seq<Node>, x: int)
    requires Sound(ts)
    ensures x in Get(TableOf(ts), VALIDBACKENDIDS) <==> x in DirectLeaves(ts)
  {
    hide DirectLeaves, FileAll, Sound;
    DirectSlice(map[], ts, x);
    DirectLeavesIff(ts, x);
  }

  lemma ExtUnionAt(all: Slices, a: set<int>, list: set<int>, c: int)
    ensures var sl := ExtUnion(all, Within(all, a), list);
            && (c in sl <==> Get(all, c) * a != {} || Get(all, c) * list != {})
            && Get(sl, c) == if Get(all, c) * a != {} then Get(all, c) else Get(all, c) * list
  {
  }

  /** Every child with a member of `a` below it lies inside `a` and the list; the attached back ends count as one. */
  ghost predicate WholeBelow(ts: seq<Node>, a: set<int>, list: set<int>) {
    && (DirectLeaves(ts) * a != {} ==> DirectLeaves(ts) <= a + list)
    && forall i :: 0 <= i < |ts| && ts[i].Agent? ==> WholeChild(ts[i], a, list)
  }

  ghost predicate WholeChild(t: Node, a: set<int>, list: set<int>) {
    Elements(Leaves(t)) * a != {} ==> Elements(Leaves(t)) <= a + list
  }

  /** The union with a list takes no more than it should exactly when every child it widens lies inside the union. */
  lemma ExtUnionExactIff(ts: seq<Node>, a: set<int>, list: set<int>)
    requires Sound(ts)
    ensures ExtUnion(TableOf(ts), Within(TableOf(ts), a), list) == Within(TableOf(ts), a + list)
            <==> WholeBelow(ts, a, list)
  {
    hide Sound, TableOf, Within, ExtUnion, DirectLeaves, WholeChild;
    var all := TableOf(ts);
    var left, right := ExtUnion(all, Within(all, a), list), Within(all, a + list);
    DirectIsSlice(ts);
    if left == right {
      SliceWhole(all, a, list, VALIDBACKENDIDS);
      forall i | 0 <= i < |ts| && ts[i].Agent?
        ensures WholeChild(ts[i], a, list)
      {
        AgentIsKey(ts, i);
        SliceWhole(all, a, list, ts[i].id);
        WholeSlice(ts[i], Get(all, ts[i].id), a, list);
      }
    }
    if WholeBelow(ts, a, list) {
      forall c
        ensures c in left <==> c in right
        ensures Get(left, c) == Get(right, c)
      {
        SliceInside(ts, a, list, c);
        WholeSliceAt(all, a, list, c);
      }
      SameSlices(left, right);
    }
  }

  lemma WholeSlice(t: Node, s: set<int>, a: set<int>, list: set<int>)
    requires s == Elements(Leaves(t))
    ensures WholeChild(t, a, list) <==> (s * a != {} ==> s <= a + list)
  {
  }

  lemma SliceWhole(all: Slices, a: set<int>, list: set<int>, c: int)
    requires Get(ExtUnion(all, Within(all, a), list), c) == Get(Within(all, a + list), c)
    ensures Get(all, c) * a != {} ==> Get(all, c) <= a + list
  {
    hide ExtUnion, Within;
    ExtUnionAt(all, a, list, c);
    WithinAt(all, a + list, c);
  }

  lemma WholeSliceAt(all: Slices, a: set<int>, list: set<int>, c: int)
    requires Get(all, c) * a != {} ==> Get(all, c) <= a + list
    ensures var left, right := ExtUnion(all, Within(all, a), list), Within(all, a + list);
            (c in left <==> c in right) && Get(left, c) == Get(right, c)
  {
    hide ExtUnion, Within, Get;
    var s := Get(all, c);
    ExtUnionAt(all, a, list, c);
    WithinAt(all, a + list, c);
    forall x | x in s
      ensures s * a == {} ==> (x in a + list <==> x in list)
    {
      assert s * a == {} ==> x !in s * a;
    }
    assert s * a != {} ==> s * (a + list) == s;
  }

  lemma SliceInside(ts: seq<Node>, a: set<int>, list: set<int>, c: int)
    requires Sound(ts) && WholeBelow(ts, a, list)
    ensures Get(TableOf(ts), c) * a != {} ==> Get(TableOf(ts), c) <= a + list
  {
    hide Sound, FileAll, DirectLeaves, WholeChild;
    DirectIsSlice(ts);
    if c in TableOf(ts) && c != VALIDBACKENDIDS {
      KeysAreChildren(map[], ts, c);
      var i :| 0 <= i < |ts| && ts[i].Agent? && ts[i].id == c;
      AgentIsKey(ts, i);
      WholeSlice(ts[i], Get(TableOf(ts), c), a, list);
    }
  }

  /** What holds at a node then holds at every agent below it. */
  lemma WholeFurther(ts: seq<Node>, i: nat, a: set<int>, list: set<int>)
    requires WholeBelow(ts, a, list) && i < |ts| && ts[i].Agent?
    ensures WholeBelow(ts[i].children, a, list)
  {
    hide DirectLeaves;
    var us, s := ts[i].children, Elements(Leaves(ts[i]));
    assert WholeChild(ts[i], a, list);
    assert Leaves(ts[i]) == LeavesOf(us);
    forall x | x in DirectLeaves(us)
      ensures x in s
    {
      DirectLeavesIff(us, x);
    }
    Inside(DirectLeaves(us), s, a, list);
    forall j | 0 <= j < |us| && us[j].Agent?
      ensures WholeChild(us[j], a, list)
    {
      forall x | x in Elements(Leaves(us[j]))
        ensures x in s
      {
        LeafOfChild(us, j, x);
      }
      Inside(Elements(Leaves(us[j])), s, a, list);
    }
  }

  lemma Inside(p: set<int>, s: set<int>, a: set<int>, list: set<int>)
    requires p <= s && (s * a != {} ==> s <= a + list)
    ensures p * a != {} ==> p <= a + list
  {
    if p * a != {} { Narrower(a, s, p); }
  }

  // ----- the whole tree -----

  /** Any command but a union with a list, which may take more than it should. */
  predicate Plain(c: Command) {
    c.FromGroupAndList? ==> c.op != SCI_UNION
  }

  /** Any such command, and a union with a list that takes no more than it should at a node with these children. */
  ghost predicate Fair(c: Command, ts: seq<Node>, a: set<int>) {
    Plain(c) || WholeBelow(ts, a, c.list)
  }

  /** The groups a command starts from have the members `a` and `b`. */
  ghost predicate Operands(net: Net, c: Command, a: set<int>, b: set<int>) {
    && (c.FromGroups? ==> Carries(net, c.g1, a) && Carries(net, c.g2, b))
    && (c.FromGroupAndList? ==> Carries(net, c.g1, a))
  }

  ghost predicate OperandsAll(ns: seq<Net>, c: Command, a: set<int>, b: set<int>) {
    && (c.FromGroups? ==> CarriesAll(ns, c.g1, a) && CarriesAll(ns, c.g2, b))
    && (c.FromGroupAndList? ==> CarriesAll(ns, c.g1, a))
  }

  /** The set a command stands for. */
  ghost function Result(c: Command, a: set<int>, b: set<int>): set<int> {
    match c
    case FromList(list) => list
    case FromGroups(_, _, op) => Meaning(a, b, op)
    case FromGroupAndList(_, list, op) => Meaning(a, list, op)
  }

  /** The node has the groups that the command looks up without checking. */
  predicate Knows(groups: GroupMap, c: Command) {
    match c
    case FromList(_) => SCI_GROUP_ALL in groups
    case FromGroups(g1, _, op) => op != SCI_UNION ==> g1 in groups
    case FromGroupAndList(g1, _, op) => if op == SCI_UNION then SCI_GROUP_ALL in groups else g1 in groups
  }

  /** The new id is none of the operands, and not the predefined group. */
  predicate NewId(c: Command, g: int) {
    g != SCI_GROUP_ALL && (!c.FromList? ==> g != c.g1) && (c.FromGroups? ==> g != c.g2)
  }

  /** No node knows the group. */
  predicate Unknown(net: Net, g: int)
    decreases net, 1
  {
    net.Site? ==> g !in net.table.groups && UnknownAll(net.children, g)
  }

  predicate UnknownAll(ns: seq<Net>, g: int)
    decreases ns, 0
  {
    ns != [] ==> Unknown(ns[0], g) && UnknownAll(ns[1..], g)
  }

  /** At a node the new slices are those of ALL restricted to the result. */
  lemma NewSlicesExact(net: Net, c: Command, a: set<int>, b: set<int>)
    requires net.Site? && Filed(net) && Sound(Shapes(net.children)) && Operands(net, c, a, b)
    requires Fair(c, Shapes(net.children), a)
    ensures NewSlices(net.table.groups, c) == Within(TableOf(Shapes(net.children)), Result(c, a, b))
  {
    hide Invariant, TableOf, Within, Combine, FiledAll, CarriesAll, ExtUnion, WholeBelow, Sound;
    var all := TableOf(Shapes(net.children));
    match c
    case FromList(list) =>
    case FromGroups(g1, g2, op) => CombineWithin(all, a, b, op);
    case FromGroupAndList(g1, list, op) =>
      WithinWithin(all, a, list);
      if op == SCI_UNION { ExtUnionExactIff(Shapes(net.children), a, list); }
  }

  /** A node with a member of the result below it has what the command looks up. */
  lemma MembersKnown(net: Net, c: Command, a: set<int>, b: set<int>)
    requires net.Site? && Filed(net) && Sound(Shapes(net.children)) && Operands(net, c, a, b)
    requires Elements(Leaves(Shape(net))) * Result(c, a, b) != {}
    ensures Knows(net.table.groups, c)
  {
    hide Invariant, TableOf, Within, Sound, FiledAll, CarriesAll, Leaves, Elements;
    var ts := Shapes(net.children);
    LeavesBelow(net);
    WithinEmptyIff(ts, Result(c, a, b));
    WithinEmptyIff(ts, a);
    NoSlicesWithin(Result(c, a, b));
    if !c.FromList? && c.op != SCI_UNION {
      Narrower(Elements(LeavesOf(ts)), a, Result(c, a, b));
    }
  }

  lemma NoSlicesWithin(s: set<int>)
    ensures Within(map[], s) == map[]
  {
  }

  lemma Narrower(s: set<int>, a: set<int>, r: set<int>)
    requires s * r != {} && r <= a
    ensures s * a != {}
  {
    NonEmptyHasMember(s * r);
    var x :| x in s * r;
    assert x in s * a;
  }

  /** Where no member is, an unknown group is carried as it should be. */
  lemma {:induction false} UnknownCarries(net: Net, g: int, members: set<int>)
    requires Unknown(net, g) && (net.Site? ==> Sound(Shapes(net.children)))
    requires Elements(Leaves(Shape(net))) * members == {}
    ensures Carries(net, g, members)
    decreases net, 1
  {
    if net.Site? {
      hide TableOf, Within, Sound, Elements, Leaves;
      LeavesBelow(net);
      WithinEmptyIff(Shapes(net.children), members);
      UnknownCarriesAll(net.children, g, members);
    }
  }

  lemma {:induction false} UnknownCarriesAll(ns: seq<Net>, g: int, members: set<int>)
    requires UnknownAll(ns, g) && Sound(Shapes(ns)) && Elements(LeavesOf(Shapes(ns))) * members == {}
    ensures CarriesAll(ns, g, members)
    decreases ns, 0
  {
    hide Sound, Carries;
    if ns != [] {
      var ts := Shapes(ns);
      assert ts[1..] == Shapes(ns[1..]);
      SoundParts(ts);
      SoundBelow(ts[0]);
      assert Elements(LeavesOf(ts)) == Elements(Leaves(ts[0])) + Elements(LeavesOf(ts[1..]));
      UnknownCarries(ns[0], g, members);
      UnknownCarriesAll(ns[1..], g, members);
    }
  }

  /**
   * A command reaches exactly the nodes with members of the result below them, each of which can carry it out, and
   * afterwards the whole tree carries the new group with exactly the result as its members.
   */
  lemma {:induction false} CommandExact(net: Net, c: Command, g: int, a: set<int>, b: set<int>)
    requires net.Site? && Filed(net) && Sound(Shapes(net.children)) && Operands(net, c, a, b)
    requires Unknown(net, g) && NewId(c, g) && Knows(net.table.groups, c) && Fair(c, Shapes(net.children), a)
    ensures Handled(net, c, g)
    ensures Filed(Commanded(net, c, g)) && Carries(Commanded(net, c, g), g, Result(c, a, b))
    decreases net, 1
  {
    hide Invariant, TableOf, Within, Sound, NewSlices, SuccListOf, Apply, ServesAll, Succeeds;
    var ts, r := Shapes(net.children), Result(c, a, b);
    var t' := Apply(net.table, StepOf(c, g));
    CommandAllowed(net.table, c, g);
    CommandTable(net.table, c, g);
    NewSlicesExact(net, c, a, b);
    CommandedShape(net, c, g);
    if Succeeds(net.table.groups, c) {
      var succ := SuccListAt(t', g);
      WithinServes(ts, succ, r);
      PassedShapes(net.children, succ, c, g);
      FairFurther(c, ts, a);
      PassedExact(net.children, succ, c, g, a, b);
    } else {
      NothingMade(net.table.groups, c);
      WithinEmptyIff(ts, r);
      UnknownCarriesAll(net.children, g, r);
    }
  }

  lemma CommandAllowed(t: Table, c: Command, g: int)
    requires NewId(c, g) && g !in t.groups
    ensures Allowed(t, StepOf(c, g)) <==> Knows(t.groups, c)
  {
  }

  lemma NothingMade(groups: GroupMap, c: Command)
    requires !Succeeds(groups, c)
    ensures NewSlices(groups, c) == map[]
  {
  }

  ghost predicate FairChild(c: Command, t: Node, a: set<int>) {
    t.Agent? ==> Fair(c, t.children, a)
  }

  ghost predicate FairAll(c: Command, ts: seq<Node>, a: set<int>) {
    forall i :: 0 <= i < |ts| ==> FairChild(c, ts[i], a)
  }

  lemma FairFurther(c: Command, ts: seq<Node>, a: set<int>)
    requires Fair(c, ts, a)
    ensures FairAll(c, ts, a)
  {
    hide WholeBelow;
    forall i | 0 <= i < |ts|
      ensures FairChild(c, ts[i], a)
    {
      if ts[i].Agent? && !Plain(c) { WholeFurther(ts, i, a, c.list); }
    }
  }

  lemma FairTail(c: Command, ts: seq<Node>, a: set<int>)
    requires FairAll(c, ts, a) && ts != []
    ensures FairChild(c, ts[0], a) && FairAll(c, ts[1..], a)
  {
    hide FairChild;
    assert forall i :: 0 <= i < |ts[1..]| ==> ts[1..][i] == ts[i + 1];
  }

  lemma {:induction false} PassedExact(ns: seq<Net>, succ: seq<int>, c: Command, g: int, a: set<int>, b: set<int>)
    requires FiledAll(ns) && Sound(Shapes(ns)) && OperandsAll(ns, c, a, b) && FairAll(c, Shapes(ns), a)
    requires UnknownAll(ns, g) && NewId(c, g) && ServesAll(succ, Shapes(ns), Result(c, a, b))
    ensures HandledAll(ns, succ, c, g)
    ensures FiledAll(Passed(ns, succ, c, g)) && CarriesAll(Passed(ns, succ, c, g), g, Result(c, a, b))
    decreases ns, 0
  {
    hide Filed, Carries, Sound, Handled, Serves, Commanded, Unknown;
    if ns != [] {
      var ts := Shapes(ns);
      assert ts[1..] == Shapes(ns[1..]);
      SoundParts(ts);
      ServesTail(succ, ts, Result(c, a, b));
      FairTail(c, ts, a);
      PassedExact(ns[1..], succ, c, g, a, b);
      PassedFirst(ns[0], succ, c, g, a, b);
      assert Passed(ns, succ, c, g)[1..] == Passed(ns[1..], succ, c, g);
    }
  }

  lemma {:induction false} PassedFirst(net: Net, succ: seq<int>, c: Command, g: int, a: set<int>, b: set<int>)
    requires Filed(net) && AgentsSound(Agents(Shape(net))) && LeavesSound(Leaves(Shape(net)))
    requires Operands(net, c, a, b) && Unknown(net, g) && NewId(c, g) && FairChild(c, Shape(net), a)
    requires Serves(succ, Shape(net), Result(c, a, b))
    ensures net.id in succ ==> Handled(net, c, g)
    ensures var net' := if net.id in succ then Commanded(net, c, g) else net;
            Filed(net') && Carries(net', g, Result(c, a, b))
    decreases net, 2
  {
    hide Sound, Filed, Carries, Leaves, Elements, Result, Handled;
    SoundBelow(Shape(net));
    if net.Leaf? {
      LeafCommanded(net, c, g, Result(c, a, b));
    } else if net.id in succ {
      assert multiset(succ)[net.id] > 0;
      MembersKnown(net, c, a, b);
      CommandExact(net, c, g, a, b);
    } else {
      assert multiset(succ)[net.id] == 0;
      UnknownCarries(net, g, Result(c, a, b));
    }
  }

  lemma LeafCommanded(net: Net, c: Command, g: int, members: set<int>)
    requires net.Leaf?
    ensures Commanded(net, c, g) == net && Filed(net) && Carries(net, g, members) && Handled(net, c, g)
  {
  }

  /** Other groups are carried as before. */
  lemma {:induction false} OthersCarried(net: Net, c: Command, g: int, h: int, members: set<int>)
    requires Handled(net, c, g) && Carries(net, h, members) && h != g
    ensures Carries(Commanded(net, c, g), h, members)
    decreases net, 1
  {
    if net.Site? {
      hide TableOf, Within, Apply, Succeeds, NewSlices, Allowed;
      CommandSlices(net.table, c, g);
      if Succeeds(net.table.groups, c) {
        var succ := SuccListAt(Apply(net.table, StepOf(c, g)), g);
        PassedShapes(net.children, succ, c, g);
        OthersCarriedAll(net.children, succ, c, g, h, members);
      }
    }
  }

  lemma {:induction false} OthersCarriedAll(ns: seq<Net>, succ: seq<int>, c: Command, g: int, h: int, members: set<int>)
    requires HandledAll(ns, succ, c, g) && CarriesAll(ns, h, members) && h != g
    ensures CarriesAll(Passed(ns, succ, c, g), h, members)
    decreases ns, 0
  {
    hide Carries, Handled, Commanded;
    if ns != [] {
      if ns[0].id in succ { OthersCarried(ns[0], c, g, h, members); }
      OthersCarriedAll(ns[1..], succ, c, g, h, members);
      assert Passed(ns, succ, c, g)[1..] == Passed(ns[1..], succ, c, g);
    }
  }

  /** Other ids stay unknown, except that looking an operand up may bring it into being. */
  lemma {:induction false} OthersUnknown(net: Net, c: Command, g: int, h: int)
    requires Unknown(net, h) && h != g && NewId(c, h) && NewId(c, g) && Unknown(net, g)
    ensures Unknown(Commanded(net, c, g), h)
    decreases net, 1
  {
    if net.Site? {
      hide Apply, Succeeds, NewGroups;
      CommandGroups(net.table, c, g);
      CommandKeys(net.table.groups, c, g, h);
      if Succeeds(net.table.groups, c) {
        OthersUnknownAll(net.children, SuccListAt(Apply(net.table, StepOf(c, g)), g), c, g, h);
      }
    }
  }

  lemma {:induction false} OthersUnknownAll(ns: seq<Net>, succ: seq<int>, c: Command, g: int, h: int)
    requires UnknownAll(ns, h) && h != g && NewId(c, h) && NewId(c, g) && UnknownAll(ns, g)
    ensures UnknownAll(Passed(ns, succ, c, g), h)
    decreases ns, 0
  {
    hide Unknown, Commanded;
    if ns != [] {
      if ns[0].id in succ { OthersUnknown(ns[0], c, g, h); }
      OthersUnknownAll(ns[1..], succ, c, g, h);
      assert Passed(ns, succ, c, g)[1..] == Passed(ns[1..], succ, c, g);
    }
  }

  /** So are groups that are conveyed but not carried, unless they are operands. */
  lemma {:induction false} OthersConveyed(net: Net, c: Command, g: int, h: int, members: set<int>)
    requires Filed(net) && Handled(net, c, g) && Conveys(net, h, members)
    requires NewId(c, h) && NewId(c, g) && h != g && Unknown(net, g)
    ensures Conveys(Commanded(net, c, g), h, members)
    decreases net, 1
  {
    if net.Site? {
      hide Invariant, TableOf, Apply, Succeeds, NewSlices, Allowed, ServesAll, NewGroups, Elements, SuccListOf;
      var t, t' := net.table, Apply(net.table, StepOf(c, g));
      CommandTable(t, c, g);
      CommandGroups(t, c, g);
      CommandKeys(t.groups, c, g, h);
      SuccCoherent(t, h);
      SuccCoherent(t', h);
      SameServes(SuccListAt(t, h), SuccListAt(t', h), Shapes(net.children), members);
      if Succeeds(t.groups, c) {
        PassedShapes(net.children, SuccListAt(t', g), c, g);
        OthersConveyedAll(net.children, SuccListAt(t', g), c, g, h, members);
      }
    }
  }

  lemma SameServes(p: seq<int>, q: seq<int>, ts: seq<Node>, members: set<int>)
    requires multiset(p) == multiset(q)
    ensures ServesAll(p, ts, members) <==> ServesAll(q, ts, members)
  {
  }

  lemma {:induction false} OthersConveyedAll(ns: seq<Net>, succ: seq<int>, c: Command, g: int, h: int,
                                             members: set<int>)
    requires FiledAll(ns) && HandledAll(ns, succ, c, g) && ConveysAll(ns, h, members)
    requires NewId(c, h) && NewId(c, g) && h != g && UnknownAll(ns, g)
    ensures ConveysAll(Passed(ns, succ, c, g), h, members)
    decreases ns, 0
  {
    hide Conveys, Handled, Commanded, Filed, Unknown;
    if ns != [] {
      if ns[0].id in succ { OthersConveyed(ns[0], c, g, h, members); }
      OthersConveyedAll(ns[1..], succ, c, g, h, members);
      assert Passed(ns, succ, c, g)[1..] == Passed(ns[1..], succ, c, g);
    }
  }
}
