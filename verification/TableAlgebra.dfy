/** What the table operations mean: group algebra as set algebra, and lists that hold every id once. */
module TableAlgebra {
  import opened SortedSets
  import opened Tables

  // ----- the enumerated lists, independent of their order -----

  lemma {:induction false} AscendingMultiset(q: seq<int>)
    requires Ascending(q)
    ensures multiset(q) == multiset(Elements(q))
  {
    if q != [] {
      AscendingMultiset(q[1..]);
      assert q == [q[0]] + q[1..];
      assert Elements(q) == {q[0]} + Elements(q[1..]);
      assert q[0] !in Elements(q[1..]);
    }
  }

  lemma EnumerateMultiset(s: set<int>)
    ensures multiset(Enumerate(s)) == multiset(s)
  {
    EnumerateAscends(s);
    AscendingMultiset(Enumerate(s));
  }

  /** The successors whose slice holds `x`. */
  ghost function Holders(sl: Slices, keys: set<int>, x: int): set<int> {
    set c | c in keys && x in Get(sl, c)
  }

  lemma HoldersStep(sl: Slices, keys: set<int>, k: int, x: int)
    requires k !in keys
    ensures |Holders(sl, {k} + keys, x)| == |Holders(sl, keys, x)| + if x in Get(sl, k) then 1 else 0
  {
    if x in Get(sl, k) {
      assert Holders(sl, {k} + keys, x) == {k} + Holders(sl, keys, x);
    } else {
      assert Holders(sl, {k} + keys, x) == Holders(sl, keys, x);
    }
  }

  lemma AscendingTail(keys: seq<int>)
    requires Ascending(keys) && keys != []
    ensures Elements(keys) == {keys[0]} + Elements(keys[1..]) && keys[0] !in Elements(keys[1..])
  {
  }

  lemma {:induction false} BeListFromCount(keys: seq<int>, sl: Slices, x: int)
    requires Ascending(keys)
    ensures multiset(BeListFrom(keys, sl))[x] == |Holders(sl, Elements(keys), x)|
  {
    if keys == [] {
      assert Holders(sl, Elements(keys), x) == {};
    } else {
      var k, rest := keys[0], keys[1..];
      BeListFromCount(rest, sl, x);
      EnumerateMultiset(Get(sl, k));
      AscendingTail(keys);
      HoldersStep(sl, Elements(rest), k, x);
      var a, b := Enumerate(Get(sl, k)), BeListFrom(rest, sl);
      assert multiset(a + b)[x] == multiset(a)[x] + multiset(b)[x];
    }
  }

  /** A back end is listed once for every slice that holds it. */
  lemma BeListCount(sl: Slices, x: int)
    ensures multiset(BeListOf(sl))[x] == |Holders(sl, sl.Keys, x)|
  {
    EnumerateAscends(sl.Keys);
    BeListFromCount(Enumerate(sl.Keys), sl, x);
  }

  /** The successors named by `keys`, as a multiset. */
  ghost function SuccMultiset(keys: set<int>, sl: Slices): multiset<int> {
    multiset(keys - {VALIDBACKENDIDS})
    + (if VALIDBACKENDIDS in keys then multiset(Get(sl, VALIDBACKENDIDS)) else multiset{})
  }

  lemma SuccMultisetStep(keys: set<int>, k: int, sl: Slices)
    requires k !in keys
    ensures SuccMultiset({k} + keys, sl)
            == (if k == VALIDBACKENDIDS then multiset(Get(sl, k)) else multiset{k}) + SuccMultiset(keys, sl)
  {
    if k == VALIDBACKENDIDS {
      assert {k} + keys - {VALIDBACKENDIDS} == keys == keys - {VALIDBACKENDIDS};
    } else {
      assert {k} + keys - {VALIDBACKENDIDS} == {k} + (keys - {VALIDBACKENDIDS});
      assert multiset({k} + (keys - {VALIDBACKENDIDS})) == multiset{k} + multiset(keys - {VALIDBACKENDIDS});
    }
  }

  lemma {:induction false} SuccListFromMultiset(keys: seq<int>, sl: Slices)
    requires Ascending(keys)
    ensures multiset(SuccListFrom(keys, sl)) == SuccMultiset(Elements(keys), sl)
  {
    if keys != [] {
      var k, rest := keys[0], keys[1..];
      SuccListFromMultiset(rest, sl);
      AscendingTail(keys);
      SuccMultisetStep(Elements(rest), k, sl);
      EnumerateMultiset(Get(sl, k));
      var a, b := if k == VALIDBACKENDIDS then Enumerate(Get(sl, k)) else [k], SuccListFrom(rest, sl);
      assert multiset(a + b) == multiset(a) + multiset(b);
    }
  }

  /** The successor list: every agent once, and in place of VALIDBACKENDIDS every directly attached back end once. */
  lemma SuccListMultiset(sl: Slices)
    ensures multiset(SuccListOf(sl)) == multiset(sl.Keys - {VALIDBACKENDIDS}) + multiset(Get(sl, VALIDBACKENDIDS))
  {
    EnumerateAscends(sl.Keys);
    SuccListFromMultiset(Enumerate(sl.Keys), sl);
  }

  lemma UnionIff(sl: Slices, x: int)
    ensures x in Union(sl) <==> exists c :: x in Get(sl, c)
    ensures x in Union(sl) <==> Holders(sl, sl.Keys, x) != {}
  {
    if x in Union(sl) {
      var c :| c in sl && x in sl[c];
      assert x in Get(sl, c) && c in Holders(sl, sl.Keys, x);
    }
    if c :| x in Get(sl, c) {
      assert c in sl && x in sl[c];
    }
    if Holders(sl, sl.Keys, x) != {} {
      NonEmptyHasMember(Holders(sl, sl.Keys, x));
      var c :| c in Holders(sl, sl.Keys, x);
      assert c in sl && x in sl[c];
    }
  }

  lemma SameSlices(p: Slices, q: Slices)
    requires forall c :: c in p <==> c in q
    requires forall c :: Get(p, c) == Get(q, c)
    ensures p == q
  {
    forall c
      ensures c in p.Keys <==> c in q.Keys
    {
    }
    forall c | c in p
      ensures p[c] == q[c]
    {
      assert Get(p, c) == Get(q, c);
    }
  }

  /** With disjoint slices the back-end list names every member of the group exactly once. */
  lemma BeListExact(sl: Slices)
    requires DisjointSlices(sl)
    ensures multiset(BeListOf(sl)) == multiset(Union(sl))
    ensures |BeListOf(sl)| == |Union(sl)|
  {
    var q, u := BeListOf(sl), Union(sl);
    forall x
      ensures multiset(q)[x] == multiset(u)[x]
    {
      BeListCount(sl, x);
      UnionIff(sl, x);
      OneHolder(sl, x);
    }
    assert multiset(q) == multiset(u);
    assert |multiset(q)| == |q|;
  }

  lemma OneHolder(sl: Slices, x: int)
    requires DisjointSlices(sl)
    ensures |Holders(sl, sl.Keys, x)| == if Holders(sl, sl.Keys, x) == {} then 0 else 1
  {
    var h := Holders(sl, sl.Keys, x);
    if h != {} {
      NonEmptyHasMember(h);
      var c :| c in h;
      assert h == {c};
    }
  }

  // ----- group algebra -----

  lemma WithinUnion(sl: Slices, s: set<int>)
    ensures Union(Within(sl, s)) == Union(sl) * s
    ensures Within(sl, s) == map[] <==> Union(sl) * s == {}
  {
    var w := Within(sl, s);
    forall x
      ensures x in Union(w) <==> x in Union(sl) && x in s
    {
      if x in Union(sl) && x in s {
        var c :| c in sl && x in sl[c];
        assert x in sl[c] * s;
        assert c in w && x in w[c];
      }
      if x in Union(w) {
        var c :| c in w && x in w[c];
        assert c in sl && x in sl[c];
      }
    }
    EmptyIff(w);
  }

  lemma OutsideUnion(sl: Slices, s: set<int>)
    ensures Union(Outside(sl, s)) == Union(sl) - s
    ensures Outside(sl, s) == map[] <==> Union(sl) - s == {}
  {
    var w := Outside(sl, s);
    forall x
      ensures x in Union(w) <==> x in Union(sl) && x !in s
    {
      if x in Union(sl) && x !in s {
        var c :| c in sl && x in sl[c];
        assert x in sl[c] - s;
        assert c in w && x in w[c];
      }
      if x in Union(w) {
        var c :| c in w && x in w[c];
        assert c in sl && x in sl[c];
      }
    }
    EmptyIff(w);
  }

  /** A group without empty slices is empty exactly when it has no slices. */
  lemma EmptyIff(sl: Slices)
    requires forall c :: c in sl ==> sl[c] != {}
    ensures sl == map[] <==> Union(sl) == {}
  {
    if sl != map[] {
      assert sl.Keys != {};
      NonEmptyHasMember(sl.Keys);
      var c :| c in sl.Keys;
      NonEmptyHasMember(sl[c]);
      var x :| x in sl[c];
      assert x in Union(sl);
    }
  }

  /** Both groups are routed the way `all` is, and `all` gives each back end one owner. */
  ghost predicate RoutedBy(all: Slices, a: Slices) {
    DisjointSlices(all) && forall c :: Get(a, c) <= Get(all, c)
  }

  lemma SameOwner(all: Slices, a: Slices, b: Slices, c: int, d: int, x: int)
    requires RoutedBy(all, a) && RoutedBy(all, b)
    requires x in Get(a, c) && x in Get(b, d)
    ensures c == d
  {
    assert x in Get(all, c) && x in Get(all, d);
  }

  ghost function Meaning(a: set<int>, b: set<int>, op: SetOp): set<int> {
    match op
    case SCI_UNION => a + b
    case SCI_INTERSECTION => a * b
    case SCI_DIFFERENCE => a - b
  }

  lemma CombineUnion(a: Slices, b: Slices)
    ensures Union(Combine(a, b, SCI_UNION)) == Union(a) + Union(b)
  {
    var m := Combine(a, b, SCI_UNION);
    forall x
      ensures x in Union(m) <==> x in Union(a) || x in Union(b)
    {
      UnionIff(a, x);
      UnionIff(b, x);
      UnionIff(m, x);
      assert forall c :: Get(m, c) == Get(a, c) + Get(b, c);
    }
  }

  lemma CombineIntersection(all: Slices, a: Slices, b: Slices)
    requires RoutedBy(all, a) && RoutedBy(all, b)
    ensures Union(Combine(a, b, SCI_INTERSECTION)) == Union(a) * Union(b)
  {
    var m := Combine(a, b, SCI_INTERSECTION);
    assert forall c :: Get(m, c) == Get(a, c) * Get(b, c);
    forall x
      ensures x in Union(m) <==> x in Union(a) && x in Union(b)
    {
      UnionIff(a, x);
      UnionIff(b, x);
      UnionIff(m, x);
      if x in Union(a) && x in Union(b) {
        var c :| x in Get(a, c);
        var d :| x in Get(b, d);
        SameOwner(all, a, b, c, d, x);
        assert x in Get(m, c);
      }
    }
  }

  lemma CombineDifference(all: Slices, a: Slices, b: Slices)
    requires RoutedBy(all, a) && RoutedBy(all, b)
    ensures Union(Combine(a, b, SCI_DIFFERENCE)) == Union(a) - Union(b)
  {
    var m := Combine(a, b, SCI_DIFFERENCE);
    assert forall c :: Get(m, c) == Get(a, c) - Get(b, c);
    forall x
      ensures x in Union(m) <==> x in Union(a) && x !in Union(b)
    {
      UnionIff(a, x);
      UnionIff(b, x);
      UnionIff(m, x);
      if c :| x in Get(m, c) {
        if d :| x in Get(b, d) {
          SameOwner(all, a, b, c, d, x);
          assert false;
        }
      }
    }
  }

  /**
   * Slice by slice is as good as whole sets: for groups routed by a common partition, `operate` computes the
   * exact union, intersection or difference, and reports an empty group exactly when that set is empty.
   */
  lemma OperateExact(groups: GroupMap, g1: int, g2: int, op: SetOp, newgroup: int)
    requires Partitioned(groups) && Contained(groups)
    requires newgroup !in groups && newgroup != g1 && newgroup != g2
    ensures var result := GroupSet(OperateGroups(groups, g1, g2, op, newgroup), newgroup);
            && result == Meaning(GroupSet(groups, g1), GroupSet(groups, g2), op)
            && (op != SCI_UNION ==> (Made(op, Operated(groups, g1, g2, op)) <==> result != {}))
  {
    var all, a, b := SlicesOf(groups, SCI_GROUP_ALL), SlicesOf(groups, g1), SlicesOf(groups, g2);
    RoutedGroup(groups, g1);
    RoutedGroup(groups, g2);
    match op {
      case SCI_UNION => CombineUnion(a, b);
      case SCI_INTERSECTION => CombineIntersection(all, a, b);
      case SCI_DIFFERENCE => CombineDifference(all, a, b);
    }
    OperateSlices(groups, g1, g2, op, newgroup);
    if op != SCI_UNION {
      EmptyIff(Combine(a, b, op));
    }
  }

  lemma RoutedGroup(groups: GroupMap, g: int)
    requires Partitioned(groups) && Contained(groups)
    ensures RoutedBy(SlicesOf(groups, SCI_GROUP_ALL), SlicesOf(groups, g))
  {
    forall c
      ensures Get(SlicesOf(groups, g), c) <= Get(SlicesOf(groups, SCI_GROUP_ALL), c)
    {
      assert Slice(groups, g, c) <= Slice(groups, SCI_GROUP_ALL, c);
    }
  }

  lemma OperateSlices(groups: GroupMap, g1: int, g2: int, op: SetOp, newgroup: int)
    requires newgroup !in groups && newgroup != g1 && newgroup != g2
    ensures var groups' := OperateGroups(groups, g1, g2, op, newgroup);
            && SlicesOf(groups', newgroup) == Combine(SlicesOf(groups, g1), SlicesOf(groups, g2), op)
            && forall g :: g != newgroup ==> SlicesOf(groups', g) == SlicesOf(groups, g)
  {
    var made := Combine(SlicesOf(groups, g1), SlicesOf(groups, g2), op);
    assert map[] + made == made;
  }

  lemma CreateSlices(groups: GroupMap, list: set<int>, g: int)
    requires g !in groups
    ensures var groups' := CreateGroups(groups, list, g);
            && SlicesOf(groups', g) == Within(SlicesOf(groups, SCI_GROUP_ALL), list)
            && forall h :: h != g ==> SlicesOf(groups', h) == SlicesOf(groups, h)
  {
    var made := Within(SlicesOf(groups, SCI_GROUP_ALL), list);
    assert map[] + made == made;
  }

  /** A created group holds exactly the listed back ends that the tree has. */
  lemma CreateExact(groups: GroupMap, list: set<int>, g: int)
    requires g !in groups
    ensures GroupSet(CreateGroups(groups, list, g), g) == GroupSet(groups, SCI_GROUP_ALL) * list
  {
    CreateSlices(groups, list, g);
    WithinUnion(SlicesOf(groups, SCI_GROUP_ALL), list);
  }

  lemma OperateExtSlices(groups: GroupMap, g: int, list: set<int>, op: SetOp, newgroup: int)
    requires newgroup !in groups && newgroup != g
    ensures var groups' := OperateExtGroups(groups, g, list, op, newgroup);
            && SlicesOf(groups', newgroup)
               == CombineExt(SlicesOf(groups, SCI_GROUP_ALL), SlicesOf(groups, g), list, op)
            && forall h :: h != newgroup ==> SlicesOf(groups', h) == SlicesOf(groups, h)
  {
    var made := CombineExt(SlicesOf(groups, SCI_GROUP_ALL), SlicesOf(groups, g), list, op);
    assert map[] + made == made;
  }

  /** Intersection and difference with a list of back ends are exact. */
  lemma OperateExtExact(groups: GroupMap, g: int, list: set<int>, op: SetOp, newgroup: int)
    requires newgroup !in groups && newgroup != g && op != SCI_UNION
    ensures var result := GroupSet(OperateExtGroups(groups, g, list, op, newgroup), newgroup);
            && result == Meaning(GroupSet(groups, g), list, op)
            && (Made(op, OperatedExt(groups, g, list, op)) <==> result != {})
  {
    OperateExtSlices(groups, g, list, op, newgroup);
    WithinUnion(SlicesOf(groups, g), list);
    OutsideUnion(SlicesOf(groups, g), list);
  }

  /** Everything the tree reaches through the successors a group uses. */
  ghost function Reach(all: Slices, own: Slices): set<int> {
    set c, x | c in own && c in all && x in all[c] :: x
  }

  lemma ExtUnionMember(all: Slices, own: Slices, list: set<int>, x: int)
    ensures x in Union(ExtUnion(all, own, list)) <==> x in Reach(all, own) || x in Union(all) * list
  {
    var u := ExtUnion(all, own, list);
    if x in Reach(all, own) {
      var c :| c in own && c in all && x in all[c];
      assert c in u && x in u[c];
    }
    if x in Union(all) && x in list {
      var c :| c in all && x in all[c];
      assert x in all[c] * list;
      assert c in u && x in u[c];
    }
    if x in Union(u) {
      var c :| c in u && x in u[c];
      assert c in all && x in all[c];
    }
  }

  /**
   * The union of `operateExt` is not the union of the group and the list: through every successor the group
   * already uses it takes in all back ends of the tree. It contains the true union, and equals it exactly when
   * each such successor has no back end outside the group and the list.
   */
  lemma OperateExtUnion(groups: GroupMap, g: int, list: set<int>, newgroup: int)
    requires Partitioned(groups) && Contained(groups)
    requires newgroup !in groups && newgroup != g
    ensures var groups' := OperateExtGroups(groups, g, list, SCI_UNION, newgroup);
            var all, own := SlicesOf(groups, SCI_GROUP_ALL), SlicesOf(groups, g);
            var wanted := GroupSet(groups, g) + GroupSet(groups, SCI_GROUP_ALL) * list;
            && GroupSet(groups', newgroup) == Reach(all, own) + GroupSet(groups, SCI_GROUP_ALL) * list
            && wanted <= GroupSet(groups', newgroup)
            && (GroupSet(groups', newgroup) == wanted
                <==> forall c :: c in own && c in all ==> all[c] <= own[c] + list)
  {
    var all, own := SlicesOf(groups, SCI_GROUP_ALL), SlicesOf(groups, g);
    OperateExtSlices(groups, g, list, SCI_UNION, newgroup);
    forall x
      ensures x in Union(ExtUnion(all, own, list)) <==> x in Reach(all, own) || x in Union(all) * list
    {
      ExtUnionMember(all, own, list, x);
    }
    assert Union(ExtUnion(all, own, list)) == Reach(all, own) + Union(all) * list;
    RoutedGroup(groups, g);
    GroupInReach(all, own);
    ReachExact(all, own, list);
  }

  lemma GroupInReach(all: Slices, own: Slices)
    requires RoutedBy(all, own)
    ensures Union(own) <= Reach(all, own)
  {
    forall x | x in Union(own)
      ensures x in Reach(all, own)
    {
      var c :| c in own && x in own[c];
      assert x in Get(all, c);
    }
  }

  lemma ReachExact(all: Slices, own: Slices, list: set<int>)
    requires RoutedBy(all, own)
    ensures Reach(all, own) + Union(all) * list == Union(own) + Union(all) * list
            <==> forall c :: c in own && c in all ==> all[c] <= own[c] + list
  {
    GroupInReach(all, own);
    if forall c :: c in own && c in all ==> all[c] <= own[c] + list {
      forall x | x in Reach(all, own)
        ensures x in Union(own) + Union(all) * list
      {
        var c :| c in own && c in all && x in all[c];
        assert x in own[c] + list;
      }
    }
    if Reach(all, own) + Union(all) * list == Union(own) + Union(all) * list {
      forall c, x | c in own && c in all && x in all[c]
        ensures x in own[c] + list
      {
        assert x in Reach(all, own);
        if x in Union(own) {
          var d :| d in own && x in own[d];
          assert x in Get(all, d) && x in Get(all, c);
          assert d == c;
        }
      }
    }
  }

  /** A table on which the union of a group with an empty list is not the group. */
  lemma OperateExtUnionTooLarge()
    ensures exists groups: GroupMap, g: int, h: int ::
              && Partitioned(groups) && Contained(groups) && h !in groups && h != g
              && GroupSet(OperateExtGroups(groups, g, {}, SCI_UNION, h), h) != GroupSet(groups, g)
  {
    var groups: GroupMap := map[SCI_GROUP_ALL := map[-2 := {0, 1}], -5 := map[-2 := {0}]];
    OperateExtUnion(groups, -5, {}, -6);
    assert SlicesOf(groups, -5)[-2] == {0} && 1 in SlicesOf(groups, SCI_GROUP_ALL)[-2];
    assert GroupSet(groups, SCI_GROUP_ALL) * {} == {};
    assert GroupSet(OperateExtGroups(groups, -5, {}, SCI_UNION, -6), -6) != GroupSet(groups, -5);
  }
}
