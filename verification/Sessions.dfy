/**
 * Any session of group requests at the front end: what the tables do, and where they fail, follows from the sight of
 * the tree alone.
 */
module Sessions {
  import opened SortedSets
  import opened AgentNumbers
  import opened Tables
  import opened Delivery
  import opened GroupCommands
  import opened GroupFrees
  import opened ListUnions
  import opened Sights
  import opened Refinement

  datatype Request = Make(c: Command, g: int) | Free(g: int)

  /** The interface checks that the groups exist at the front end; new ids come from an allocator that repeats none. */
  predicate Accepted(book: Book, used: set<int>, r: Request) {
    match r
    case Make(c, g) =>
      && g < SCI_GROUP_ALL && g !in used
      && (!c.FromList? ==> c.g1 in book)
      && (c.FromGroups? ==> c.g2 in book)
    case Free(g) => g in book && g < SCI_GROUP_ALL
  }

  function Ids(used: set<int>, r: Request): set<int> {
    if r.Make? then used + {r.g} else used
  }

  // ----- with the tables -----

  function Serve(net: Net, r: Request): Net {
    match r
    case Make(c, g) => Commanded(net, c, g)
    case Free(g) => Freed(net, g)
  }

  /** No node looks up a group it does not have. */
  ghost predicate Manages(net: Net, r: Request) {
    match r
    case Make(c, g) => Handled(net, c, g)
    case Free(g) => Freeable(net, g)
  }

  function NetAfter(net: Net, q: seq<Request>): Net
    decreases |q|
  {
    if q == [] then net else NetAfter(Serve(net, q[0]), q[1..])
  }

  ghost predicate NeverFails(net: Net, q: seq<Request>)
    decreases |q|
  {
    q != [] ==> Manages(net, q[0]) && NeverFails(Serve(net, q[0]), q[1..])
  }

  // ----- with sets -----

  ghost function Next(s: Sight, r: Request): Sight {
    match r
    case Make(c, g) => Ordered(s, c, g)
    case Free(g) => Released(s, g)
  }

  ghost predicate Possible(s: Sight, r: Request) {
    match r
    case Make(c, _) => Heard(s, c)
    case Free(g) => Linked(s, g)
  }

  ghost function SightAfter(s: Sight, q: seq<Request>): Sight
    decreases |q|
  {
    if q == [] then s else SightAfter(Next(s, q[0]), q[1..])
  }

  ghost predicate NeverStuck(s: Sight, q: seq<Request>)
    decreases |q|
  {
    q != [] ==> Possible(s, q[0]) && NeverStuck(Next(s, q[0]), q[1..])
  }

  ghost predicate IsSession(s: Sight, used: set<int>, q: seq<Request>)
    decreases |q|
  {
    q != [] ==> s.Post? && Accepted(s.book, used, q[0]) && IsSession(Next(s, q[0]), Ids(used, q[0]), q[1..])
  }

  // ----- refinement -----

  ghost predicate Sane(net: Net) {
    net.Site? && Filed(net) && Sound(Shapes(net.children)) && Populated(Shape(net))
  }

  ghost predicate Kept(net: Net, used: set<int>) {
    Sane(net) && Tidy(net) && SCI_GROUP_ALL in used && forall g :: g !in used ==> Unknown(net, g)
  }

  lemma SaneAfter(net: Net, net': Net)
    requires Sane(net) && Shape(net') == Shape(net) && Filed(net')
    ensures Sane(net')
  {
  }

  lemma AcceptedNew(net: Net, used: set<int>, c: Command, g: int)
    requires Kept(net, used) && Accepted(BookOf(net.table.groups), used, Make(c, g))
    ensures Unknown(net, g) && NewId(c, g)
    ensures forall h :: h !in used ==> NewId(c, h)
  {
    hide Filed, Sound, Populated, Tidy, BookOf;
    forall h | h !in used
      ensures h !in BookOf(net.table.groups)
    {
      assert Unknown(net, h);
      BookAt(net.table.groups, h);
    }
  }

  /** A request fails at some node exactly when the sight says so; if not, the tables follow the sight. */
  lemma ServeRefines(net: Net, used: set<int>, r: Request)
    requires Kept(net, used) && Accepted(BookOf(net.table.groups), used, r)
    ensures Manages(net, r) <==> Possible(SightOf(net), r)
    ensures Manages(net, r) ==> Kept(Serve(net, r), Ids(used, r)) && Shape(Serve(net, r)) == Shape(net)
    ensures Manages(net, r) ==> SightOf(Serve(net, r)) == Next(SightOf(net), r)
  {
    hide Filed, Sound, Populated, Tidy, Handled, Heard, Freeable, Linked, Unknown, BookOf;
    match r
    case Make(c, g) =>
      AcceptedNew(net, used, c, g);
      CommandRefines(net, c, g);
      CommandedShape(net, c, g);
      if Handled(net, c, g) { SaneAfter(net, Commanded(net, c, g)); }
      forall h | h !in used + {g}
        ensures Unknown(Commanded(net, c, g), h)
      {
        OthersUnknown(net, c, g, h);
      }
    case Free(g) =>
      FreeRefines(net, g);
      FreedShape(net, g);
      if Freeable(net, g) { SaneAfter(net, Freed(net, g)); }
      forall h | h !in used
        ensures Unknown(Freed(net, g), h)
      {
        FreeStillUnknown(net, g, h);
      }
  }

  lemma FreeStillUnknown(net: Net, g: int, h: int)
    requires Unknown(net, h)
    ensures Unknown(Freed(net, g), h)
  {
    if h == g { UnknownFreed(net, g); } else { FreeUnknown(net, g, h); }
  }

  lemma UnknownFreed(net: Net, g: int)
    requires Unknown(net, g)
    ensures Unknown(Freed(net, g), g)
  {
  }

  lemma {:induction false} SessionRefines(net: Net, used: set<int>, q: seq<Request>)
    requires Kept(net, used) && IsSession(SightOf(net), used, q)
    ensures NeverFails(net, q) <==> NeverStuck(SightOf(net), q)
    ensures NeverFails(net, q) ==> SightOf(NetAfter(net, q)) == SightAfter(SightOf(net), q)
    ensures NeverFails(net, q) ==> Shape(NetAfter(net, q)) == Shape(net)
    ensures NeverFails(net, q) ==> exists used' :: Kept(NetAfter(net, q), used')
    decreases |q|
  {
    hide Kept, Accepted, Serve, Manages, Next, Possible, Ids, SightOf, Shape;
    if q == [] {
      assert Kept(NetAfter(net, q), used);
    } else {
      PostOf(net);
      ServeRefines(net, used, q[0]);
      if Manages(net, q[0]) { SessionRefines(Serve(net, q[0]), Ids(used, q[0]), q[1..]); }
    }
  }

  lemma PostOf(net: Net)
    ensures SightOf(net).Post? ==> net.Site? && SightOf(net).book == BookOf(net.table.groups)
  {
  }

  // ----- when nothing can fail -----

  ghost predicate Fine(s: Sight, used: set<int>) {
    && s.Post? && Complete(s) && SCI_GROUP_ALL in used
    && (forall g :: g in used ==> g <= SCI_GROUP_ALL)
    && (forall g :: g !in used ==> Ignorant(s, g))
  }

  ghost predicate AllLinked(s: Sight)
    requires s.Post?
  {
    forall g :: g in s.book ==> Linked(s, g)
  }

  ghost predicate AllPossible(s: Sight, used: set<int>)
    requires s.Post?
  {
    forall r :: Accepted(s.book, used, r) ==> Possible(s, r)
  }

  lemma KnownUsed(s: Sight, used: set<int>, g: int)
    requires Fine(s, used) && g in s.book
    ensures g in used && g <= SCI_GROUP_ALL
  {
    hide Complete;
    assert !Ignorant(s, g);
  }

  lemma FineNew(s: Sight, used: set<int>, c: Command, g: int)
    requires Fine(s, used) && Accepted(s.book, used, Make(c, g))
    ensures Ignorant(s, g) && NewId(c, g)
    ensures forall h :: h !in used ==> NewId(c, h)
  {
    hide Complete, Ignorant;
    if !c.FromList? { KnownUsed(s, used, c.g1); }
    if c.FromGroups? { KnownUsed(s, used, c.g2); }
  }

  lemma LinkedPossible(s: Sight, used: set<int>, r: Request)
    requires Fine(s, used) && AllLinked(s) && Accepted(s.book, used, r)
    ensures Possible(s, r)
  {
    hide Complete, Ignorant, Linked, Heard;
    if r.Make? { LinkedHeard(s, r.c); }
  }

  /** No request can fail next if and only if every group is linked. */
  lemma AllPossibleIff(s: Sight, used: set<int>)
    requires Fine(s, used)
    ensures AllPossible(s, used) <==> AllLinked(s)
  {
    hide Possible, Linked, Complete, Ignorant;
    if AllLinked(s) {
      forall r | Accepted(s.book, used, r)
        ensures Possible(s, r)
      {
        LinkedPossible(s, used, r);
      }
    }
    if AllPossible(s, used) {
      forall g | g in s.book
        ensures Linked(s, g)
      {
        KnownUsed(s, used, g);
        if g == SCI_GROUP_ALL { CompleteLinked(s); } else { FreeLinked(s, used, g); }
      }
    }
  }

  lemma FreeLinked(s: Sight, used: set<int>, g: int)
    requires s.Post? && AllPossible(s, used) && g in s.book && g < SCI_GROUP_ALL
    ensures Linked(s, g)
  {
    hide Linked, Heard;
    assert Possible(s, Free(g));
  }

  /** A request that makes a group makes it at every agent that the request is handed to. */
  ghost predicate Thorough(s: Sight, r: Request) {
    r.Make? && s.Post? && Makes(s.book, s.children, r.c) ==> Throughout(s, r.c)
  }

  lemma NextFine(s: Sight, used: set<int>, r: Request)
    requires Fine(s, used) && Accepted(s.book, used, r)
    ensures Fine(Next(s, r), Ids(used, r))
  {
    hide Complete, Ignorant;
    match r
    case Make(c, g) =>
      FineNew(s, used, c, g);
      OrderedComplete(s, c, g);
      forall h | h !in used + {g}
        ensures Ignorant(Ordered(s, c, g), h)
      {
        OthersIgnorant(s, c, g, h);
      }
    case Free(g) =>
      ReleasedComplete(s, g);
      forall h | h !in used
        ensures Ignorant(Released(s, g), h)
      {
        ReleasedIgnorant(s, g, h);
      }
  }

  /** The groups the front end knows after a request. */
  lemma FrontBook(s: Sight, used: set<int>, c: Command, g: int, h: int)
    requires Fine(s, used) && Accepted(s.book, used, Make(c, g))
    ensures Ordered(s, c, g).Post?
    ensures h in Ordered(s, c, g).book <==> h in s.book || (h == g && Makes(s.book, s.children, c))
  {
    hide Complete, Makes, Gained, Ignorant;
    FineNew(s, used, c, g);
    IgnorantHere(s, g);
    NewBookAt(s.book, s.children, c, g, h);
    ConsultedKnown(s.book, s.children, c, h);
  }

  lemma IgnorantHere(s: Sight, g: int)
    requires s.Post? && Ignorant(s, g)
    ensures g !in s.book
  {
  }

  lemma ConsultedKnown(book: Book, ss: seq<Sight>, c: Command, h: int)
    requires (!c.FromList? ==> c.g1 in book) && (c.FromGroups? ==> c.g2 in book)
    ensures h in Consulted(book, ss, c) <==> h in book
  {
  }

  /** All groups stay linked exactly when the request is a thorough one. */
  lemma NextLinkedIff(s: Sight, used: set<int>, r: Request)
    requires Fine(s, used) && AllLinked(s) && Accepted(s.book, used, r)
    ensures Next(s, r).Post? && (AllLinked(Next(s, r)) <==> Thorough(s, r))
  {
    hide Linked, Complete, Ignorant, Throughout, Makes, Accepted, Ordered;
    match r
    case Make(c, g) =>
      FineNew(s, used, c, g);
      FrontBook(s, used, c, g, g);
      IgnorantHere(s, g);
      NewLinkedIff(s, c, g);
      forall h | h in s.book
        ensures Linked(Ordered(s, c, g), h)
      {
        OthersLinked(s, c, g, h);
      }
      forall h | h in Ordered(s, c, g).book && h != g
        ensures h in s.book
      {
        FrontBook(s, used, c, g, h);
      }
    case Free(g) =>
      forall h | h in Released(s, g).book
        ensures Linked(Released(s, g), h)
      {
        ReleasedLinked(s, g, h);
      }
  }

  ghost predicate LinkedAlways(s: Sight, q: seq<Request>)
    decreases |q|
  {
    s.Post? && AllLinked(s) && (q != [] ==> LinkedAlways(Next(s, q[0]), q[1..]))
  }

  ghost predicate ThoroughAlways(s: Sight, q: seq<Request>)
    decreases |q|
  {
    q != [] ==> Thorough(s, q[0]) && ThoroughAlways(Next(s, q[0]), q[1..])
  }

  /**
   * In a session from a tree whose groups are linked, all groups are linked at all times exactly when every group that
   * is made is made at every agent the command is handed to; and then the session never gets stuck.
   */
  lemma {:induction false} LinkedIffThorough(s: Sight, used: set<int>, q: seq<Request>)
    requires Fine(s, used) && AllLinked(s) && IsSession(s, used, q)
    ensures LinkedAlways(s, q) <==> ThoroughAlways(s, q)
    ensures ThoroughAlways(s, q) ==> NeverStuck(s, q)
    decreases |q|
  {
    hide Fine, AllLinked, Accepted, Next, Thorough, Ids, Possible;
    FineIsPost(s, used);
    if q != [] {
      var s' := Next(s, q[0]);
      LinkedPossible(s, used, q[0]);
      NextFine(s, used, q[0]);
      NextLinkedIff(s, used, q[0]);
      if AllLinked(s') { LinkedIffThorough(s', Ids(used, q[0]), q[1..]); }
    }
  }

  lemma FineIsPost(s: Sight, used: set<int>)
    requires Fine(s, used)
    ensures s.Post?
  {
  }

  lemma {:induction false} SightComplete(net: Net)
    requires Filed(net) && Populated(Shape(net)) && (net.Site? ==> Sound(Shapes(net.children)))
    ensures Complete(SightOf(net))
    decreases net, 1
  {
    if net.Site? {
      hide Invariant, TableOf, Sound, BookOf;
      SightsComplete(net.children);
      AllIsBelow(net.children);
      BookAt(net.table.groups, SCI_GROUP_ALL);
      HasAll(net);
    }
  }

  lemma {:induction false} SightsComplete(ns: seq<Net>)
    requires FiledAll(ns) && PopulatedAll(Shapes(ns)) && Sound(Shapes(ns))
    ensures CompleteAll(SightsOf(ns))
    decreases ns, 0
  {
    hide Filed, Populated, Sound, Complete;
    if ns != [] {
      var ts := Shapes(ns);
      assert ts[1..] == Shapes(ns[1..]) && SightsOf(ns)[1..] == SightsOf(ns[1..]);
      SoundParts(ts);
      SoundBelow(ts[0]);
      SightComplete(ns[0]);
      SightsComplete(ns[1..]);
    }
  }

  /** No request that the interface accepts can fail next if and only if every group of the front end can be freed. */
  lemma NoRequestFailsIff(net: Net, used: set<int>)
    requires Kept(net, used) && forall g :: g in used ==> g <= SCI_GROUP_ALL
    ensures (forall r :: Accepted(BookOf(net.table.groups), used, r) ==> Manages(net, r))
            <==> (forall g :: g in net.table.groups ==> Linked(SightOf(net), g))
  {
    hide Filed, Sound, Populated, Tidy, Unknown, BookOf, Linked, Possible, Manages, Accepted, Complete, Ignorant;
    var s := SightOf(net);
    SightComplete(net);
    forall g | g !in used
      ensures Ignorant(s, g)
    {
      UnknownIff(net, g);
    }
    AllPossibleIff(s, used);
    forall r | Accepted(BookOf(net.table.groups), used, r)
      ensures Manages(net, r) <==> Possible(s, r)
    {
      ServeRefines(net, used, r);
    }
    forall g
      ensures g in net.table.groups <==> g in s.book
    {
      BookAt(net.table.groups, g);
    }
  }

  // ----- from the start -----

  /** In the beginning every agent knows ALL, and nothing else. */
  function Sighted(t: Node): Sight
    decreases t, 1
  {
    match t
    case BackEnd(id) => Tip(id)
    case Agent(id, ts) => Post(id, map[SCI_GROUP_ALL := BelowAll(SightedAll(ts))], SightedAll(ts))
  }

  function SightedAll(ts: seq<Node>): (ss: seq<Sight>)
    ensures |ss| == |ts|
    decreases ts, 0
  {
    if ts == [] then [] else [Sighted(ts[0])] + SightedAll(ts[1..])
  }

  lemma {:induction false} SightedFacts(t: Node, g: int)
    ensures Complete(Sighted(t)) && (g != SCI_GROUP_ALL ==> Ignorant(Sighted(t), g))
    ensures Below(Sighted(t)) == Elements(Leaves(t))
    decreases t, 1
  {
    if t.Agent? { SightedAllFacts(t.children, g); } else { OneLeaf(t); }
  }

  lemma {:induction false} SightedAllFacts(ts: seq<Node>, g: int)
    ensures CompleteAll(SightedAll(ts)) && (g != SCI_GROUP_ALL ==> IgnorantAll(SightedAll(ts), g))
    ensures BelowAll(SightedAll(ts)) == Elements(LeavesOf(ts))
    decreases ts, 0
  {
    hide Complete, Ignorant, Below, Sighted, Leaves;
    if ts != [] {
      SightedFacts(ts[0], g);
      SightedAllFacts(ts[1..], g);
      assert SightedAll(ts)[1..] == SightedAll(ts[1..]);
      assert LeavesOf(ts) == Leaves(ts[0]) + LeavesOf(ts[1..]);
    }
  }

  lemma SightedFine(t: Node)
    requires t.Agent?
    ensures Fine(Sighted(t), {SCI_GROUP_ALL}) && AllLinked(Sighted(t))
  {
    hide Complete, Ignorant, Linked;
    forall g | g !in {SCI_GROUP_ALL}
      ensures Ignorant(Sighted(t), g)
    {
      SightedFacts(t, g);
    }
    SightedFacts(t, SCI_GROUP_ALL);
    CompleteLinked(Sighted(t));
  }

  lemma {:induction false} AllHeard(s: Sight)
    requires Complete(s)
    ensures Audience(s, SCI_GROUP_ALL) == Below(s)
    decreases s, 1
  {
    if s.Post? { AllHeardFrom(s.children, s.book[SCI_GROUP_ALL]); }
  }

  lemma {:induction false} AllHeardFrom(ss: seq<Sight>, m: set<int>)
    requires CompleteAll(ss) && BelowAll(ss) <= m
    ensures AudienceAll(ss, m, SCI_GROUP_ALL) == BelowAll(ss)
    decreases ss, 0
  {
    hide Complete, Audience, Below;
    if ss != [] {
      AllHeard(ss[0]);
      AllHeardFrom(ss[1..], m);
      assert Below(ss[0]) * m == Below(ss[0]);
    }
  }

  // ----- messages after a session -----

  /** What sending to `g` should do in the tree `t` at the sight `s`. */
  ghost function Expected(t: Node, s: Sight, g: int): Sending {
    if g > SCI_GROUP_ALL then
      if g !in Leaves(t) then GroupNotFound else if Clear(t, g) then Reached(multiset{g}) else Lost
    else if s.Post? && g in s.book then Reached(multiset(Audience(s, g)))
    else GroupNotFound
  }

  ghost predicate Served(net: Net, d: nat, q: seq<Request>, g: int) {
    var t, net' := Shape(net), NetAfter(net, q);
    && (NeverFails(net, q) <==> NeverStuck(Sighted(t), q))
    && (NeverFails(net, q) ==>
          && net'.Site?
          && Bcast(net', g) == Expected(t, SightAfter(Sighted(t), q), g)
          && (g > SCI_GROUP_ALL && Deliver(net', g).Arrived? ==> Deliver(net', g).hops <= d))
  }

  /**
   * A tree delivers if any session of group requests fails at some node exactly when its sight gets stuck, and
   * otherwise a message to a group that exists reaches its audience exactly once and nobody else, one to a back end
   * with a clear way arrives within `d` hops, one to a back end without is lost, and one to any other id is refused.
   */
  ghost predicate Delivers(net: Net, d: nat) {
    forall q, g :: IsSession(Sighted(Shape(net)), {SCI_GROUP_ALL}, q) ==> Served(net, d, q, g)
  }

  /** A tree as it is before the first request. */
  ghost predicate Unused(net: Net) {
    Sane(net) && Tidy(net) && SightOf(net) == Sighted(Shape(net))
  }

  lemma UnusedKept(net: Net)
    requires Unused(net)
    ensures Kept(net, {SCI_GROUP_ALL})
  {
    hide Sane, Tidy, Unknown, Ignorant, Complete;
    forall g | g !in {SCI_GROUP_ALL}
      ensures Unknown(net, g)
    {
      SightedFacts(Shape(net), g);
      UnknownIff(net, g);
    }
  }

  /** From a deployed tree: a session never fails if every group it makes is made wherever the command is handed to. */
  lemma ThoroughNeverFails(net: Net, q: seq<Request>)
    requires Unused(net) && IsSession(Sighted(Shape(net)), {SCI_GROUP_ALL}, q)
    ensures ThoroughAlways(Sighted(Shape(net)), q) <==> LinkedAlways(Sighted(Shape(net)), q)
    ensures ThoroughAlways(Sighted(Shape(net)), q) ==> NeverFails(net, q)
  {
    hide Sane, Tidy, Sighted, IsSession, NeverFails, NeverStuck, ThoroughAlways, LinkedAlways, Fine, AllLinked, Kept;
    UnusedKept(net);
    UnusedAgent(net);
    SightedFine(Shape(net));
    LinkedIffThorough(Sighted(Shape(net)), {SCI_GROUP_ALL}, q);
    SessionRefines(net, {SCI_GROUP_ALL}, q);
  }

  lemma UnusedAgent(net: Net)
    requires Unused(net)
    ensures Shape(net).Agent?
  {
  }

  lemma SessionServed(net: Net, d: nat, q: seq<Request>, g: int)
    requires Unused(net) && Depth(Shape(net)) <= d && IsSession(Sighted(Shape(net)), {SCI_GROUP_ALL}, q)
    ensures Served(net, d, q, g)
  {
    hide IsSession, NetAfter, NeverFails, NeverStuck, SightAfter, Filed, Sound, Populated, Tidy, Unknown, Depth, Clear,
      Deliver, Received, Audience, SightOf, Leaves, Sighted;
    UnusedKept(net);
    SessionRefines(net, {SCI_GROUP_ALL}, q);
    if NeverFails(net, q) {
      var net' := NetAfter(net, q);
      var used' :| Kept(net', used');
      PostOf(net');
      SiteOf(net');
      BookAt(net'.table.groups, g);
      if g > SCI_GROUP_ALL { DeliverExact(net', g); } else { ReceivedHere(net', g); }
    }
  }

  lemma SiteOf(net: Net)
    requires net.Site?
    ensures SightOf(net).Post?
  {
  }
}
