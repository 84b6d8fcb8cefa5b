/**
 * The tree with every routing table reduced to sets: which back ends each agent takes a group to have. Group commands
 * on such a sight need no slices, no caches and no successor lists.
 */
module Sights {
  import opened Tables
  import opened TableAlgebra
  import opened GroupCommands

  /** The groups one agent knows, with the back ends it takes them to have. */
  type Book = map<int, set<int>>

  datatype Sight = Tip(id: int) | Post(id: int, book: Book, children: seq<Sight>)

  /** The back ends below. */
  function Below(s: Sight): set<int>
    decreases s, 1
  {
    match s
    case Tip(id) => {id}
    case Post(_, _, ss) => BelowAll(ss)
  }

  function BelowAll(ss: seq<Sight>): set<int>
    decreases ss, 0
  {
    if ss == [] then {} else Below(ss[0]) + BelowAll(ss[1..])
  }

  // ----- one agent -----

  /** The attached back ends. */
  function Tips(ss: seq<Sight>): set<int> {
    if ss == [] then {} else (if ss[0].Tip? then {ss[0].id} else {}) + Tips(ss[1..])
  }

  /** Everything below the child agents with a member of `a` below them. */
  function Crowded(ss: seq<Sight>, a: set<int>): set<int> {
    if ss == [] then {}
    else (if ss[0].Post? && Below(ss[0]) * a != {} then Below(ss[0]) else {}) + Crowded(ss[1..], a)
  }

  /** Every successor with a member of `a`, the attached back ends counting as one, with all it leads to. */
  function Widened(ss: seq<Sight>, a: set<int>): set<int> {
    (if Tips(ss) * a != {} then Tips(ss) else {}) + Crowded(ss, a)
  }

  /** The members a command gives the new group at an agent. */
  ghost function Gained(book: Book, ss: seq<Sight>, c: Command): set<int> {
    match c
    case FromList(list) => BelowAll(ss) * list
    case FromGroups(g1, g2, op) => Meaning(Get(book, g1), Get(book, g2), op)
    case FromGroupAndList(g1, list, op) =>
      if op == SCI_UNION then Widened(ss, Get(book, g1)) + BelowAll(ss) * list
      else Meaning(Get(book, g1), list, op)
  }

  /** Whether the agent makes the group: always from a list and by a union, else when a member is left. */
  ghost predicate Makes(book: Book, ss: seq<Sight>, c: Command) {
    c.FromList? || c.op == SCI_UNION || Gained(book, ss, c) != {}
  }

  /** Whether the agent has the group that it looks up without checking. */
  predicate Finds(book: Book, c: Command) {
    match c
    case FromList(_) => SCI_GROUP_ALL in book
    case FromGroups(g1, _, op) => op != SCI_UNION ==> g1 in book
    case FromGroupAndList(g1, _, op) => if op == SCI_UNION then SCI_GROUP_ALL in book else g1 in book
  }

  function Noted(book: Book, g: int): Book {
    if g in book then book else book[g := {}]
  }

  /** Merely looking an operand up makes an entry for it. */
  function Consulted(book: Book, ss: seq<Sight>, c: Command): Book {
    match c
    case FromList(_) => book
    case FromGroups(g1, g2, op) =>
      if op == SCI_UNION then Noted(Noted(book, g1), g2)
      else if Get(book, g1) == {} then book
      else Noted(book, g2)
    case FromGroupAndList(g1, _, op) => if op == SCI_UNION && BelowAll(ss) != {} then Noted(book, g1) else book
  }

  ghost function NewBook(book: Book, ss: seq<Sight>, c: Command, g: int): Book {
    if Makes(book, ss, c) then Consulted(book, ss, c)[g := Gained(book, ss, c)] else Consulted(book, ss, c)
  }

  lemma NewBookAt(book: Book, ss: seq<Sight>, c: Command, g: int, h: int)
    requires NewId(c, g) && g !in book
    ensures h != g && h in book ==> h in NewBook(book, ss, c, g) && NewBook(book, ss, c, g)[h] == book[h]
    ensures h != g && h !in book && NewId(c, h) ==> h !in NewBook(book, ss, c, g)
    ensures g in NewBook(book, ss, c, g) <==> Makes(book, ss, c)
    ensures Makes(book, ss, c) ==> NewBook(book, ss, c, g)[g] == Gained(book, ss, c)
  {
    hide Gained;
  }

  // ----- the whole tree -----

  /** An agent that makes the group hands the command on to the children below which it has members. */
  ghost function Ordered(s: Sight, c: Command, g: int): Sight
    decreases s, 1
  {
    match s
    case Tip(_) => s
    case Post(id, book, ss) =>
      Post(id, NewBook(book, ss, c, g), if Makes(book, ss, c) then OrderedAll(ss, Gained(book, ss, c), c, g) else ss)
  }

  ghost function OrderedAll(ss: seq<Sight>, m: set<int>, c: Command, g: int): (ss': seq<Sight>)
    ensures |ss'| == |ss|
    decreases ss, 0
  {
    if ss == [] then []
    else [if Below(ss[0]) * m != {} then Ordered(ss[0], c, g) else ss[0]] + OrderedAll(ss[1..], m, c, g)
  }

  /** Every agent that gets the command has the group it looks up. */
  ghost predicate Heard(s: Sight, c: Command)
    decreases s, 1
  {
    s.Post? ==>
      && Finds(s.book, c)
      && (Makes(s.book, s.children, c) ==> HeardAll(s.children, Gained(s.book, s.children, c), c))
  }

  ghost predicate HeardAll(ss: seq<Sight>, m: set<int>, c: Command)
    decreases ss, 0
  {
    ss != [] ==> (Below(ss[0]) * m != {} ==> Heard(ss[0], c)) && HeardAll(ss[1..], m, c)
  }

  /** Every agent that gets the command makes the group. */
  ghost predicate Throughout(s: Sight, c: Command)
    decreases s, 1
  {
    s.Post? ==> Makes(s.book, s.children, c) && ThroughoutAll(s.children, Gained(s.book, s.children, c), c)
  }

  ghost predicate ThroughoutAll(ss: seq<Sight>, m: set<int>, c: Command)
    decreases ss, 0
  {
    ss != [] ==> (Below(ss[0]) * m != {} ==> Throughout(ss[0], c)) && ThroughoutAll(ss[1..], m, c)
  }

  /** Every agent that a message to the group gets to knows the group. */
  predicate Linked(s: Sight, g: int)
    decreases s, 1
  {
    s.Post? ==> g in s.book && LinkedAll(s.children, s.book[g], g)
  }

  predicate LinkedAll(ss: seq<Sight>, m: set<int>, g: int)
    decreases ss, 0
  {
    ss != [] ==> (Below(ss[0]) * m != {} ==> Linked(ss[0], g)) && LinkedAll(ss[1..], m, g)
  }

  /** Freeing: hand the message on, then forget the group. */
  function Released(s: Sight, g: int): Sight
    decreases s, 1
  {
    match s
    case Tip(_) => s
    case Post(id, book, ss) => Post(id, book - {g}, if g in book then ReleasedAll(ss, book[g], g) else ss)
  }

  function ReleasedAll(ss: seq<Sight>, m: set<int>, g: int): (ss': seq<Sight>)
    ensures |ss'| == |ss|
    decreases ss, 0
  {
    if ss == [] then []
    else [if Below(ss[0]) * m != {} then Released(ss[0], g) else ss[0]] + ReleasedAll(ss[1..], m, g)
  }

  /** Who gets a message to the group: an agent that does not know it drops the message. */
  function Audience(s: Sight, g: int): set<int>
    decreases s, 1
  {
    match s
    case Tip(id) => {id}
    case Post(_, book, ss) => if g in book then AudienceAll(ss, book[g], g) else {}
  }

  function AudienceAll(ss: seq<Sight>, m: set<int>, g: int): set<int>
    decreases ss, 0
  {
    if ss == [] then {} else (if Below(ss[0]) * m != {} then Audience(ss[0], g) else {}) + AudienceAll(ss[1..], m, g)
  }

  lemma {:induction false} AudienceBelow(s: Sight, g: int)
    ensures Audience(s, g) <= Below(s)
    decreases s, 1
  {
    if s.Post? && g in s.book { AudienceAllBelow(s.children, s.book[g], g); }
  }

  lemma {:induction false} AudienceAllBelow(ss: seq<Sight>, m: set<int>, g: int)
    ensures AudienceAll(ss, m, g) <= BelowAll(ss)
    decreases ss, 0
  {
    hide Below, Audience;
    if ss != [] {
      AudienceBelow(ss[0], g);
      AudienceAllBelow(ss[1..], m, g);
    }
  }

  /** No agent knows the group. */
  predicate Ignorant(s: Sight, g: int)
    decreases s, 1
  {
    s.Post? ==> g !in s.book && IgnorantAll(s.children, g)
  }

  predicate IgnorantAll(ss: seq<Sight>, g: int)
    decreases ss, 0
  {
    ss != [] ==> Ignorant(ss[0], g) && IgnorantAll(ss[1..], g)
  }

  /** Every agent takes ALL to be everything below it. */
  predicate Complete(s: Sight)
    decreases s, 1
  {
    s.Post? ==> Get(s.book, SCI_GROUP_ALL) == BelowAll(s.children) && SCI_GROUP_ALL in s.book && CompleteAll(s.children)
  }

  predicate CompleteAll(ss: seq<Sight>)
    decreases ss, 0
  {
    ss != [] ==> Complete(ss[0]) && CompleteAll(ss[1..])
  }

  // ----- what commands keep -----

  lemma {:induction false} OrderedBelow(s: Sight, c: Command, g: int)
    ensures Below(Ordered(s, c, g)) == Below(s)
    decreases s, 1
  {
    if s.Post? && Makes(s.book, s.children, c) {
      OrderedAllBelow(s.children, Gained(s.book, s.children, c), c, g);
    }
  }

  lemma {:induction false} OrderedAllBelow(ss: seq<Sight>, m: set<int>, c: Command, g: int)
    ensures BelowAll(OrderedAll(ss, m, c, g)) == BelowAll(ss)
    decreases ss, 0
  {
    hide Below, Ordered;
    if ss != [] {
      OrderedBelow(ss[0], c, g);
      OrderedAllBelow(ss[1..], m, c, g);
      assert OrderedAll(ss, m, c, g)[1..] == OrderedAll(ss[1..], m, c, g);
    }
  }

  /** A new group is linked exactly when every agent the command was handed to made it. */
  lemma {:induction false} NewLinkedIff(s: Sight, c: Command, g: int)
    requires Ignorant(s, g) && NewId(c, g)
    ensures Linked(Ordered(s, c, g), g) <==> Throughout(s, c)
    decreases s, 1
  {
    if s.Post? {
      hide NewBook, Makes, Gained;
      NewBookAt(s.book, s.children, c, g, g);
      NewLinkedAllIff(s.children, Gained(s.book, s.children, c), c, g);
    }
  }

  lemma {:induction false} NewLinkedAllIff(ss: seq<Sight>, m: set<int>, c: Command, g: int)
    requires IgnorantAll(ss, g) && NewId(c, g)
    ensures LinkedAll(OrderedAll(ss, m, c, g), m, g) <==> ThroughoutAll(ss, m, c)
    decreases ss, 0
  {
    hide Below, Ordered, Linked, Throughout, Ignorant;
    if ss != [] {
      OrderedBelow(ss[0], c, g);
      NewLinkedIff(ss[0], c, g);
      NewLinkedAllIff(ss[1..], m, c, g);
      assert OrderedAll(ss, m, c, g)[1..] == OrderedAll(ss[1..], m, c, g);
    }
  }

  /** Groups that are linked stay linked. */
  lemma {:induction false} OthersLinked(s: Sight, c: Command, g: int, h: int)
    requires Linked(s, h) && h != g && Ignorant(s, g) && NewId(c, g)
    ensures Linked(Ordered(s, c, g), h)
    decreases s, 1
  {
    if s.Post? {
      hide NewBook, Makes, Gained;
      NewBookAt(s.book, s.children, c, g, h);
      OthersLinkedAll(s.children, Gained(s.book, s.children, c), c, g, h, s.book[h]);
    }
  }

  lemma {:induction false} OthersLinkedAll(ss: seq<Sight>, m: set<int>, c: Command, g: int, h: int, k: set<int>)
    requires LinkedAll(ss, k, h) && h != g && IgnorantAll(ss, g) && NewId(c, g)
    ensures LinkedAll(OrderedAll(ss, m, c, g), k, h)
    decreases ss, 0
  {
    hide Below, Ordered, Linked, Ignorant;
    if ss != [] {
      OrderedBelow(ss[0], c, g);
      if Below(ss[0]) * k != {} { OthersLinked(ss[0], c, g, h); }
      OthersLinkedAll(ss[1..], m, c, g, h, k);
      assert OrderedAll(ss, m, c, g)[1..] == OrderedAll(ss[1..], m, c, g);
    }
  }

  /** Unused ids stay unknown. */
  lemma {:induction false} OthersIgnorant(s: Sight, c: Command, g: int, h: int)
    requires Ignorant(s, h) && h != g && NewId(c, h) && Ignorant(s, g) && NewId(c, g)
    ensures Ignorant(Ordered(s, c, g), h)
    decreases s, 1
  {
    if s.Post? {
      hide NewBook, Makes, Gained;
      NewBookAt(s.book, s.children, c, g, h);
      OthersIgnorantAll(s.children, Gained(s.book, s.children, c), c, g, h);
    }
  }

  lemma {:induction false} OthersIgnorantAll(ss: seq<Sight>, m: set<int>, c: Command, g: int, h: int)
    requires IgnorantAll(ss, h) && h != g && NewId(c, h) && IgnorantAll(ss, g) && NewId(c, g)
    ensures IgnorantAll(OrderedAll(ss, m, c, g), h)
    decreases ss, 0
  {
    hide Below, Ordered, Ignorant;
    if ss != [] {
      OthersIgnorant(ss[0], c, g, h);
      OthersIgnorantAll(ss[1..], m, c, g, h);
      assert OrderedAll(ss, m, c, g)[1..] == OrderedAll(ss[1..], m, c, g);
    }
  }

  lemma {:induction false} OrderedComplete(s: Sight, c: Command, g: int)
    requires Complete(s) && Ignorant(s, g) && NewId(c, g)
    ensures Complete(Ordered(s, c, g))
    decreases s, 1
  {
    if s.Post? {
      hide NewBook, Makes, Gained;
      var m := Gained(s.book, s.children, c);
      NewBookAt(s.book, s.children, c, g, SCI_GROUP_ALL);
      OrderedAllBelow(s.children, m, c, g);
      OrderedAllComplete(s.children, m, c, g);
    }
  }

  lemma {:induction false} OrderedAllComplete(ss: seq<Sight>, m: set<int>, c: Command, g: int)
    requires CompleteAll(ss) && IgnorantAll(ss, g) && NewId(c, g)
    ensures CompleteAll(OrderedAll(ss, m, c, g))
    decreases ss, 0
  {
    hide Below, Ordered, Ignorant, Complete;
    if ss != [] {
      OrderedComplete(ss[0], c, g);
      OrderedAllComplete(ss[1..], m, c, g);
      assert OrderedAll(ss, m, c, g)[1..] == OrderedAll(ss[1..], m, c, g);
    }
  }

  // ----- what makes a command heard -----

  /** ALL is linked wherever every agent has it. */
  lemma {:induction false} CompleteLinked(s: Sight)
    requires Complete(s)
    ensures Linked(s, SCI_GROUP_ALL)
    decreases s, 1
  {
    if s.Post? { CompleteAllLinked(s.children, s.book[SCI_GROUP_ALL]); }
  }

  lemma {:induction false} CompleteAllLinked(ss: seq<Sight>, m: set<int>)
    requires CompleteAll(ss)
    ensures LinkedAll(ss, m, SCI_GROUP_ALL)
    decreases ss, 0
  {
    hide Below, Linked, Complete;
    if ss != [] {
      CompleteLinked(ss[0]);
      CompleteAllLinked(ss[1..], m);
    }
  }

  /** With a linked first operand every agent that gets the command has what it looks up. */
  lemma {:induction false} LinkedHeard(s: Sight, c: Command)
    requires Complete(s) && (!c.FromList? && c.op != SCI_UNION ==> Linked(s, c.g1))
    ensures Heard(s, c)
    decreases s, 1
  {
    if s.Post? {
      hide Makes;
      var m := Gained(s.book, s.children, c);
      LinkedHeardAll(s.children, m, if c.FromList? || c.op == SCI_UNION then m else s.book[c.g1], c);
    }
  }

  lemma {:induction false} LinkedHeardAll(ss: seq<Sight>, m: set<int>, k: set<int>, c: Command)
    requires CompleteAll(ss) && m <= k && (!c.FromList? && c.op != SCI_UNION ==> LinkedAll(ss, k, c.g1))
    ensures HeardAll(ss, m, c)
    decreases ss, 0
  {
    hide Below, Linked, Complete, Heard;
    if ss != [] {
      if Below(ss[0]) * m != {} {
        Narrower(Below(ss[0]), k, m);
        LinkedHeard(ss[0], c);
      }
      LinkedHeardAll(ss[1..], m, k, c);
    }
  }

  // ----- freeing -----

  lemma {:induction false} ReleasedBelow(s: Sight, g: int)
    ensures Below(Released(s, g)) == Below(s)
    decreases s, 1
  {
    if s.Post? && g in s.book { ReleasedAllBelow(s.children, s.book[g], g); }
  }

  lemma {:induction false} ReleasedAllBelow(ss: seq<Sight>, m: set<int>, g: int)
    ensures BelowAll(ReleasedAll(ss, m, g)) == BelowAll(ss)
    decreases ss, 0
  {
    hide Below, Released;
    if ss != [] {
      ReleasedBelow(ss[0], g);
      ReleasedAllBelow(ss[1..], m, g);
      assert ReleasedAll(ss, m, g)[1..] == ReleasedAll(ss[1..], m, g);
    }
  }

  lemma {:induction false} ReleasedLinked(s: Sight, g: int, h: int)
    requires Linked(s, h) && h != g
    ensures Linked(Released(s, g), h)
    decreases s, 1
  {
    if s.Post? && g in s.book { ReleasedAllLinked(s.children, s.book[g], g, h, s.book[h]); }
  }

  lemma {:induction false} ReleasedAllLinked(ss: seq<Sight>, m: set<int>, g: int, h: int, k: set<int>)
    requires LinkedAll(ss, k, h) && h != g
    ensures LinkedAll(ReleasedAll(ss, m, g), k, h)
    decreases ss, 0
  {
    hide Below, Released, Linked;
    if ss != [] {
      ReleasedBelow(ss[0], g);
      if Below(ss[0]) * k != {} { ReleasedLinked(ss[0], g, h); }
      ReleasedAllLinked(ss[1..], m, g, h, k);
      assert ReleasedAll(ss, m, g)[1..] == ReleasedAll(ss[1..], m, g);
    }
  }

  lemma {:induction false} ReleasedIgnorant(s: Sight, g: int, h: int)
    requires Ignorant(s, h)
    ensures Ignorant(Released(s, g), h)
    decreases s, 1
  {
    if s.Post? && g in s.book { ReleasedAllIgnorant(s.children, s.book[g], g, h); }
  }

  lemma {:induction false} ReleasedAllIgnorant(ss: seq<Sight>, m: set<int>, g: int, h: int)
    requires IgnorantAll(ss, h)
    ensures IgnorantAll(ReleasedAll(ss, m, g), h)
    decreases ss, 0
  {
    hide Below, Released, Ignorant;
    if ss != [] {
      ReleasedIgnorant(ss[0], g, h);
      ReleasedAllIgnorant(ss[1..], m, g, h);
      assert ReleasedAll(ss, m, g)[1..] == ReleasedAll(ss[1..], m, g);
    }
  }

  lemma {:induction false} ReleasedComplete(s: Sight, g: int)
    requires Complete(s) && g != SCI_GROUP_ALL
    ensures Complete(Released(s, g))
    decreases s, 1
  {
    if s.Post? && g in s.book {
      ReleasedAllBelow(s.children, s.book[g], g);
      ReleasedAllComplete(s.children, s.book[g], g);
    }
  }

  lemma {:induction false} ReleasedAllComplete(ss: seq<Sight>, m: set<int>, g: int)
    requires CompleteAll(ss) && g != SCI_GROUP_ALL
    ensures CompleteAll(ReleasedAll(ss, m, g))
    decreases ss, 0
  {
    hide Below, Released, Complete;
    if ss != [] {
      ReleasedComplete(ss[0], g);
      ReleasedAllComplete(ss[1..], m, g);
      assert ReleasedAll(ss, m, g)[1..] == ReleasedAll(ss[1..], m, g);
    }
  }
}
