/** A session of accepted requests that fails on the tree over five back ends with fan-out two. */
module StuckSessions {
  import opened Launch
  import opened AgentNumbers
  import opened LaunchTrees
  import opened Tables
  import opened Delivery
  import opened GroupCommands
  import opened Sights
  import opened Sessions
  import opened Deployments
  import opened Launcher

  // ----- the tree -----

  const FIVE: Node :=
    Agent(-1, [Agent(-2, [Agent(-4, [BackEnd(0), BackEnd(1)]), BackEnd(2)]), Agent(-3, [BackEnd(3), BackEnd(4)])])

  lemma PairTree(a: int, lo: int)
    ensures Tree(Even, a, lo, 2, 2) == Agent(a, [BackEnd(lo), BackEnd(lo + 1)])
  {
    assert Steps(1, 1) == [1];
    assert Steps(2, 2) == [1, 1] && [1, 1][1..] == [1] && [1][1..] == [];
    var next := FirstAgent(a, 2);
    assert Children(Even, next, lo + 1, [1], 2, 2) == [BackEnd(lo + 1)];
  }

  lemma TripleTree(a: int, lo: int)
    ensures Tree(Even, a, lo, 3, 2)
            == Agent(a, [Agent(FirstAgent(a, 2), [BackEnd(lo), BackEnd(lo + 1)]), BackEnd(lo + 2)])
  {
    assert Steps(1, 1) == [1];
    assert Steps(3, 2) == [2, 1] && [2, 1][1..] == [1] && [1][1..] == [];
    var next := FirstAgent(a, 2);
    PairTree(next, lo);
    assert Children(Even, next - 1, lo + 2, [1], 2, 3) == [BackEnd(lo + 2)];
  }

  lemma FiveTree()
    ensures Tree(Even, -1, 0, 5, 2) == FIVE
  {
    assert Steps(2, 1) == [2];
    assert Steps(5, 2) == [3, 2] && [3, 2][1..] == [2] && [2][1..] == [];
    TripleTree(-2, 0);
    PairTree(-3, 3);
    assert Children(Even, -3, 3, [2], 2, 5) == [Agent(-3, [BackEnd(3), BackEnd(4)])];
  }

  // ----- its sight -----

  function Four(book: Book): Sight {
    Post(-4, book, [Tip(0), Tip(1)])
  }

  function Two(book: Book, four: Book): Sight {
    Post(-2, book, [Four(four), Tip(2)])
  }

  const THREE: Sight := Post(-3, map[-1 := {3, 4}], [Tip(3), Tip(4)])

  function Front(book: Book, two: Book, four: Book): (s: Sight)
    ensures s.Post? && s.book == book
  {
    Post(-1, book, [Two(two, four), THREE])
  }

  lemma Pair(x: Sight, y: Sight)
    ensures BelowAll([x, y]) == Below(x) + Below(y)
    ensures Tips([x, y]) == (if x.Tip? then {x.id} else {}) + if y.Tip? then {y.id} else {}
  {
    hide Below;
    assert [x, y][1..] == [y] && [y][1..] == [];
    assert BelowAll([y]) == Below(y) + BelowAll([]);
    assert Tips([y]) == (if y.Tip? then {y.id} else {}) + Tips([]);
  }

  lemma PairCrowded(x: Sight, y: Sight, a: set<int>)
    ensures Crowded([x, y], a) == (if x.Post? && Below(x) * a != {} then Below(x) else {})
                                  + if y.Post? && Below(y) * a != {} then Below(y) else {}
  {
    hide Below;
    assert [x, y][1..] == [y] && [y][1..] == [];
    assert Crowded([y], a) == (if y.Post? && Below(y) * a != {} then Below(y) else {}) + Crowded([], a);
  }

  lemma PairOrdered(x: Sight, y: Sight, m: set<int>, c: Command, g: int)
    ensures OrderedAll([x, y], m, c, g) == [if Below(x) * m != {} then Ordered(x, c, g) else x,
                                            if Below(y) * m != {} then Ordered(y, c, g) else y]
    ensures HeardAll([x, y], m, c) <==> (Below(x) * m != {} ==> Heard(x, c)) && (Below(y) * m != {} ==> Heard(y, c))
  {
    hide Below, Ordered, Heard;
    assert [x, y][1..] == [y] && [y][1..] == [];
    assert HeardAll([y], m, c) <==> (Below(y) * m != {} ==> Heard(y, c)) && HeardAll([], m, c);
  }

  lemma PairListening(x: Sight, y: Sight, m: set<int>, g: int)
    ensures LinkedAll([x, y], m, g) ==> (Below(x) * m != {} ==> Linked(x, g))
    ensures AudienceAll([x, y], m, g) == (if Below(x) * m != {} then Audience(x, g) else {})
                                         + if Below(y) * m != {} then Audience(y, g) else {}
  {
    hide Below, Linked, Audience;
    assert [x, y][1..] == [y] && [y][1..] == [];
    assert AudienceAll([y], m, g) == (if Below(y) * m != {} then Audience(y, g) else {}) + AudienceAll([], m, g);
  }

  lemma BelowFive(b1: Book, b2: Book, b4: Book)
    ensures Below(Four(b4)) == {0, 1} && Below(Two(b2, b4)) == {0, 1, 2} && Below(THREE) == {3, 4}
    ensures Below(Front(b1, b2, b4)) == {0, 1, 2, 3, 4}
  {
    Pair(Tip(0), Tip(1));
    Pair(Tip(3), Tip(4));
    Pair(Four(b4), Tip(2));
    Pair(Two(b2, b4), THREE);
  }

  lemma FiveSighted()
    ensures Sighted(FIVE) == Front(FRONT_0, TWO_0, FOUR_0)
  {
    SightedPair(BackEnd(0), BackEnd(1));
    SightedPair(BackEnd(3), BackEnd(4));
    SightedPair(Agent(-4, [BackEnd(0), BackEnd(1)]), BackEnd(2));
    SightedPair(FIVE.children[0], FIVE.children[1]);
    BelowFive(map[], map[-1 := {0, 1, 2}], map[-1 := {0, 1}]);
    Pair(Tip(0), Tip(1));
    Pair(Tip(3), Tip(4));
    Pair(Four(map[-1 := {0, 1}]), Tip(2));
    Pair(Two(map[-1 := {0, 1, 2}], map[-1 := {0, 1}]), THREE);
  }

  lemma SightedPair(x: Node, y: Node)
    ensures SightedAll([x, y]) == [Sighted(x), Sighted(y)]
  {
    hide Sighted;
    assert [x, y][1..] == [y] && [y][1..] == [];
  }

  // ----- the session -----

  const A := -2
  const L := -3
  const B := -4
  const I := -5

  /** A list, its union with nothing, another list, and what the last two have in common. */
  const LOOSE: seq<Request> :=
    [Make(FromList({0}), A), Make(FromGroupAndList(A, {}, SCI_UNION), L), Make(FromList({2}), B),
     Make(FromGroups(L, B, SCI_INTERSECTION), I)]

  /** What a command does to the tree when nobody below agent -3 is concerned. */
  lemma Order(b1: Book, b2: Book, b4: Book, c: Command, g: int, m1: set<int>, m2: set<int>, m4: set<int>)
    requires Gained(b1, Front(b1, b2, b4).children, c) == m1 && m1 <= {0, 1, 2} && m1 != {}
    requires Gained(b2, Two(b2, b4).children, c) == m2 && Gained(b4, Four(b4).children, c) == m4
    requires Finds(b1, c) && Finds(b2, c) && Finds(b4, c)
    ensures Heard(Front(b1, b2, b4), c)
    ensures var four := if {0, 1} * m2 != {} then NewBook(b4, Four(b4).children, c, g) else b4;
            Ordered(Front(b1, b2, b4), c, g)
            == Front(NewBook(b1, Front(b1, b2, b4).children, c, g), NewBook(b2, Two(b2, b4).children, c, g), four)
  {
    hide NewBook, Gained, Finds;
    BelowFive(b1, b2, b4);
    TipsOrdered(b4, m4, c, g);
    PairOrdered(Four(b4), Tip(2), m2, c, g);
    PairOrdered(Two(b2, b4), THREE, m1, c, g);
    assert {0, 1, 2} * m1 == m1 && {3, 4} * m1 == {};
  }

  lemma TipsOrdered(b4: Book, m: set<int>, c: Command, g: int)
    ensures OrderedAll([Tip(0), Tip(1)], m, c, g) == [Tip(0), Tip(1)] && HeardAll([Tip(0), Tip(1)], m, c)
  {
    PairOrdered(Tip(0), Tip(1), m, c, g);
  }

  lemma ListGains(b1: Book, b2: Book, b4: Book, list: set<int>)
    requires list <= {0, 1, 2}
    ensures Gained(b1, Front(b1, b2, b4).children, FromList(list)) == list
    ensures Gained(b2, Two(b2, b4).children, FromList(list)) == list
    ensures Gained(b4, Four(b4).children, FromList(list)) == list * {0, 1}
  {
    hide Below;
    BelowFive(b1, b2, b4);
    Pair(Tip(0), Tip(1));
    Pair(Four(b4), Tip(2));
    Pair(Two(b2, b4), THREE);
    BelowTips();
  }

  lemma BelowTips()
    ensures Below(Tip(0)) == {0} && Below(Tip(1)) == {1} && Below(Tip(2)) == {2}
  {
  }

  /** The union of the group {0} with nothing, agent by agent. */
  lemma UnionGains(b1: Book, b2: Book, b4: Book)
    requires Get(b1, A) == Get(b2, A) == Get(b4, A) == {0}
    ensures var c := FromGroupAndList(A, {}, SCI_UNION);
            && Gained(b1, Front(b1, b2, b4).children, c) == {0, 1, 2}
            && Gained(b2, Two(b2, b4).children, c) == {0, 1}
            && Gained(b4, Four(b4).children, c) == {0, 1}
  {
    hide Below, BelowAll, Tips, Crowded;
    BelowFive(b1, b2, b4);
    Pair(Tip(0), Tip(1));
    Pair(Four(b4), Tip(2));
    Pair(Two(b2, b4), THREE);
    PairCrowded(Tip(0), Tip(1), {0});
    PairCrowded(Four(b4), Tip(2), {0});
    PairCrowded(Two(b2, b4), THREE, {0});
    assert {0, 1, 2} * {0} == {0} && {0, 1} * {0} == {0} && {3, 4} * {0} == {} && {2} * {0} == {};
  }

  const FRONT_A: Book := map[-1 := {0, 1, 2, 3, 4}, A := {0}]
  const TWO_A: Book := map[-1 := {0, 1, 2}, A := {0}]
  const FOUR_A: Book := map[-1 := {0, 1}, A := {0}]

  const FRONT_0: Book := map[-1 := {0, 1, 2, 3, 4}]
  const TWO_0: Book := map[-1 := {0, 1, 2}]
  const FOUR_0: Book := map[-1 := {0, 1}]

  lemma FirstRequest()
    ensures Accepted(FRONT_0, {-1}, LOOSE[0]) && Possible(Front(FRONT_0, TWO_0, FOUR_0), LOOSE[0])
    ensures Next(Front(FRONT_0, TWO_0, FOUR_0), LOOSE[0]) == Front(FRONT_A, TWO_A, FOUR_A)
  {
    hide Gained;
    ListGains(FRONT_0, TWO_0, FOUR_0, {0});
    assert {0} * {0, 1} == {0};
    Order(FRONT_0, TWO_0, FOUR_0, FromList({0}), A, {0}, {0}, {0});
    assert 0 in {0, 1} * {0};
  }

  lemma SecondRequest()
    ensures Accepted(FRONT_A, {-1, A}, LOOSE[1]) && Possible(Front(FRONT_A, TWO_A, FOUR_A), LOOSE[1])
    ensures Next(Front(FRONT_A, TWO_A, FOUR_A), LOOSE[1])
            == Front(FRONT_A[L := {0, 1, 2}], TWO_A[L := {0, 1}], FOUR_A[L := {0, 1}])
  {
    hide Gained;
    UnionGains(FRONT_A, TWO_A, FOUR_A);
    Order(FRONT_A, TWO_A, FOUR_A, FromGroupAndList(A, {}, SCI_UNION), L, {0, 1, 2}, {0, 1}, {0, 1});
    assert 0 in {0, 1} * {0, 1};
  }

  lemma ThirdRequest()
    ensures var b1, b2, b4 := FRONT_A[L := {0, 1, 2}], TWO_A[L := {0, 1}], FOUR_A[L := {0, 1}];
            && Accepted(b1, {-1, A, L}, LOOSE[2]) && Possible(Front(b1, b2, b4), LOOSE[2])
            && Next(Front(b1, b2, b4), LOOSE[2]) == Front(b1[B := {2}], b2[B := {2}], b4)
  {
    hide Gained;
    var b1, b2, b4 := FRONT_A[L := {0, 1, 2}], TWO_A[L := {0, 1}], FOUR_A[L := {0, 1}];
    ListGains(b1, b2, b4, {2});
    Order(b1, b2, b4, FromList({2}), B, {2}, {2}, {2} * {0, 1});
    assert {0, 1} * {2} == {};
  }

  /** Agent -2 has nothing in common to both operands and makes no group, but the front end does and sends it there. */
  lemma FourthRequest()
    ensures var b1, b2, b4 := FRONT_A[L := {0, 1, 2}][B := {2}], TWO_A[L := {0, 1}][B := {2}], FOUR_A[L := {0, 1}];
            && Accepted(b1, {-1, A, L, B}, LOOSE[3]) && Possible(Front(b1, b2, b4), LOOSE[3])
            && Next(Front(b1, b2, b4), LOOSE[3]) == Front(b1[I := {2}], b2, b4)
  {
    var b1, b2, b4 := FRONT_A[L := {0, 1, 2}][B := {2}], TWO_A[L := {0, 1}][B := {2}], FOUR_A[L := {0, 1}];
    var c := FromGroups(L, B, SCI_INTERSECTION);
    assert {0, 1, 2} * {2} == {2} && {0, 1} * {2} == {};
    Order(b1, b2, b4, c, I, {2}, {}, {});
  }

  /** The last group: nobody gets its messages, and it cannot be freed. */
  lemma LastGroup(b1: Book, b2: Book, b4: Book)
    requires I in b1 && b1[I] == {2} && I !in b2
    ensures Audience(Front(b1, b2, b4), I) == {} && !Linked(Front(b1, b2, b4), I)
  {
    BelowFive(b1, b2, b4);
    PairListening(Two(b2, b4), THREE, {2}, I);
    assert 2 in {0, 1, 2} * {2} && {3, 4} * {2} == {};
  }

  /** One more request at the beginning. */
  lemma Chain(s: Sight, s': Sight, used: set<int>, used': set<int>, r: Request, q: seq<Request>)
    requires s.Post? && Accepted(s.book, used, r) && Possible(s, r) && Next(s, r) == s' && Ids(used, r) == used'
    ensures IsSession(s, used, [r] + q) <==> IsSession(s', used', q)
    ensures NeverStuck(s, [r] + q) <==> NeverStuck(s', q)
    ensures SightAfter(s, [r] + q) == SightAfter(s', q)
  {
    hide Possible, Next, Accepted, Ids;
    assert ([r] + q)[1..] == q;
  }

  lemma FourRequests(q: seq<Request>)
    ensures var last := Front(FRONT_A[L := {0, 1, 2}][B := {2}][I := {2}], TWO_A[L := {0, 1}][B := {2}],
                              FOUR_A[L := {0, 1}]);
            && (IsSession(Sighted(FIVE), {-1}, LOOSE + q) <==> IsSession(last, {-1, A, L, B, I}, q))
            && (NeverStuck(Sighted(FIVE), LOOSE + q) <==> NeverStuck(last, q))
            && SightAfter(Sighted(FIVE), LOOSE + q) == SightAfter(last, q)
  {
    hide Possible, Next, IsSession, NeverStuck, SightAfter, Accepted, Front, Sighted;
    FiveSighted();
    var s0 := Front(FRONT_0, TWO_0, FOUR_0);
    var s1, s2 := Front(FRONT_A, TWO_A, FOUR_A),
      Front(FRONT_A[L := {0, 1, 2}], TWO_A[L := {0, 1}], FOUR_A[L := {0, 1}]);
    var s3 := Front(FRONT_A[L := {0, 1, 2}][B := {2}], TWO_A[L := {0, 1}][B := {2}], FOUR_A[L := {0, 1}]);
    var s4 := Front(FRONT_A[L := {0, 1, 2}][B := {2}][I := {2}], TWO_A[L := {0, 1}][B := {2}], FOUR_A[L := {0, 1}]);
    FirstRequest();
    SecondRequest();
    ThirdRequest();
    FourthRequest();
    var q4 := [LOOSE[3]] + q;
    var q3 := [LOOSE[2]] + q4;
    var q2 := [LOOSE[1]] + q3;
    Chain(s0, s1, {-1}, {-1, A}, LOOSE[0], q2);
    Chain(s1, s2, {-1, A}, {-1, A, L}, LOOSE[1], q3);
    Chain(s2, s3, {-1, A, L}, {-1, A, L, B}, LOOSE[2], q4);
    Chain(s3, s4, {-1, A, L, B}, {-1, A, L, B, I}, LOOSE[3], q);
    assert LOOSE + q == [LOOSE[0]] + q2;
  }

  /** The session on the sight: it is accepted and goes well, but the front end's group {2} reaches nobody. */
  lemma LooseSession()
    ensures var s := Sighted(FIVE);
            && IsSession(s, {-1}, LOOSE) && NeverStuck(s, LOOSE) && SightAfter(s, LOOSE).Post?
            && I in SightAfter(s, LOOSE).book && SightAfter(s, LOOSE).book[I] == {2}
            && Audience(SightAfter(s, LOOSE), I) == {}
            && IsSession(s, {-1}, LOOSE + [Free(I)]) && !NeverStuck(s, LOOSE + [Free(I)])
  {
    hide Audience, Linked, Sighted;
    var b1, b2, b4 := FRONT_A[L := {0, 1, 2}][B := {2}][I := {2}], TWO_A[L := {0, 1}][B := {2}], FOUR_A[L := {0, 1}];
    LastGroup(b1, b2, b4);
    FourRequests([]);
    FourRequests([Free(I)]);
    assert LOOSE + [] == LOOSE;
    assert [Free(I)][1..] == [];
  }

  /**
   * On the tree that the even scheme deploys over five back ends with fan-out two, the tables do just that: a message
   * to the last group is taken and reaches nobody, and freeing it fails at an agent that does not know it.
   */
  lemma LooseOperandFails(net: Net)
    requires Shape(net) == Tree(Even, -1, 0, 5, 2) && Raised(net)
    requires VALIDBACKENDIDS !in Agents(Shape(net)) ==> Filed(net)
    ensures IsSession(Sighted(Shape(net)), {SCI_GROUP_ALL}, LOOSE + [Free(I)])
    ensures NeverFails(net, LOOSE) && NetAfter(net, LOOSE).Site?
    ensures Bcast(NetAfter(net, LOOSE), I) == Reached(multiset{})
    ensures !NeverFails(net, LOOSE + [Free(I)])
  {
    hide Tree, Raised, Filed, Bcast, NetAfter, NeverFails, NeverStuck, IsSession, SightAfter, Audience, Populated,
      Numbered, Unused, Sighted;
    FiveTree();
    TreeIsAgent(Even, -1, 0, 5, 2);
    TreeNumbered(Even, -1, 0, 5, 2);
    TreePopulated(Even, -1, 0, 5, 2);
    FiveAgents();
    DeployedUnused(net, 2, 0, 5);
    LooseSession();
    SessionServed(net, Depth(Shape(net)), LOOSE, I);
    SessionServed(net, Depth(Shape(net)), LOOSE + [Free(I)], I);
  }

  lemma FiveAgents()
    ensures VALIDBACKENDIDS !in Agents(FIVE)
  {
    AgentsPair(BackEnd(0), BackEnd(1));
    AgentsPair(BackEnd(3), BackEnd(4));
    AgentsPair(Agent(-4, [BackEnd(0), BackEnd(1)]), BackEnd(2));
    AgentsPair(FIVE.children[0], FIVE.children[1]);
  }

  lemma AgentsPair(x: Node, y: Node)
    ensures AgentsOf([x, y]) == Agents(x) + Agents(y)
  {
    hide Agents;
    assert [x, y][1..] == [y] && [y][1..] == [];
    assert AgentsOf([y]) == Agents(y) + AgentsOf([]);
  }
}
