/**
 * What each operation of the routing table does, said of groups, successors and members one by one: which there are
 * afterwards, and which back ends each successor then leads to.
 */
module TableEffects {
  import opened Ranges
  import opened Tables
  import opened TableAlgebra
  import opened Routing
  import opened CacheCoherence

  /** A group that is left alone. */
  ghost predicate Same(groups: GroupMap, groups': GroupMap, g: int) {
    (g in groups' <==> g in groups) && SlicesOf(groups', g) == SlicesOf(groups, g)
  }

  // ----- new groups -----

  /** The group exists and has, successor by successor, the listed part of ALL. */
  ghost predicate CreateEffect(groups: GroupMap, list: set<int>, g: int, groups': GroupMap) {
    && g in groups'
    && (forall c :: Slice(groups', g, c) == Slice(groups, SCI_GROUP_ALL, c) * list)
    && (forall c :: c in SlicesOf(groups', g) <==> Slice(groups, SCI_GROUP_ALL, c) * list != {})
    && (forall h :: h != g ==> Same(groups, groups', h))
  }

  lemma CreateDoes(groups: GroupMap, list: set<int>, g: int)
    requires g !in groups
    ensures CreateEffect(groups, list, g, CreateGroups(groups, list, g))
  {
    CreateSlices(groups, list, g);
    var all, groups' := SlicesOf(groups, SCI_GROUP_ALL), CreateGroups(groups, list, g);
    forall c
      ensures Slice(groups', g, c) == Slice(groups, SCI_GROUP_ALL, c) * list
      ensures c in SlicesOf(groups', g) <==> Slice(groups, SCI_GROUP_ALL, c) * list != {}
    {
      assert SlicesOf(groups', g) == Within(all, list);
    }
  }

  /**
   * The new group has, successor by successor, the union, intersection or difference of the two. Except for a union
   * there must be a member for it to exist. Looking an operand up makes an empty entry for it where there was none.
   */
  ghost predicate OperateEffect(groups: GroupMap, g1: int, g2: int, op: SetOp, g: int, groups': GroupMap) {
    && (forall c :: Slice(groups', g, c) ==
                    match op
                    case SCI_UNION => Slice(groups, g1, c) + Slice(groups, g2, c)
                    case SCI_INTERSECTION => Slice(groups, g1, c) * Slice(groups, g2, c)
                    case SCI_DIFFERENCE => Slice(groups, g1, c) - Slice(groups, g2, c))
    && (forall c :: c in SlicesOf(groups', g)
                    <==> if op == SCI_UNION then c in SlicesOf(groups, g1) || c in SlicesOf(groups, g2)
                         else Slice(groups', g, c) != {})
    && (g in groups' <==> op == SCI_UNION || GroupSet(groups', g) != {})
    && (forall h :: h != g ==> SlicesOf(groups', h) == SlicesOf(groups, h))
    && (forall h :: h != g ==>
          (h in groups'
           <==> || h in groups
                || (op == SCI_UNION && (h == g1 || h == g2))
                || (op != SCI_UNION && h == g2 && SlicesOf(groups, g1) != map[])))
  }

  lemma OperateDoes(groups: GroupMap, g1: int, g2: int, op: SetOp, g: int)
    requires g !in groups && g != g1 && g != g2
    ensures OperateEffect(groups, g1, g2, op, g, OperateGroups(groups, g1, g2, op, g))
  {
    var groups' := OperateGroups(groups, g1, g2, op, g);
    OperateSlices(groups, g1, g2, op, g);
    forall c
      ensures Slice(groups', g, c) ==
              match op
              case SCI_UNION => Slice(groups, g1, c) + Slice(groups, g2, c)
              case SCI_INTERSECTION => Slice(groups, g1, c) * Slice(groups, g2, c)
              case SCI_DIFFERENCE => Slice(groups, g1, c) - Slice(groups, g2, c)
      ensures c in SlicesOf(groups', g)
              <==> if op == SCI_UNION then c in SlicesOf(groups, g1) || c in SlicesOf(groups, g2)
                   else Slice(groups', g, c) != {}
    {
      CombinedAt(SlicesOf(groups, g1), SlicesOf(groups, g2), op, c);
    }
    OperateKeys(groups, g1, g2, op, g);
  }

  lemma CombinedAt(a: Slices, b: Slices, op: SetOp, c: int)
    ensures Get(Combine(a, b, op), c) ==
            match op
            case SCI_UNION => Get(a, c) + Get(b, c)
            case SCI_INTERSECTION => Get(a, c) * Get(b, c)
            case SCI_DIFFERENCE => Get(a, c) - Get(b, c)
    ensures c in Combine(a, b, op)
            <==> if op == SCI_UNION then c in a || c in b else Get(Combine(a, b, op), c) != {}
  {
  }

  lemma OperateKeys(groups: GroupMap, g1: int, g2: int, op: SetOp, g: int)
    requires g !in groups && g != g1 && g != g2
    ensures var groups' := OperateGroups(groups, g1, g2, op, g);
            && (g in groups' <==> op == SCI_UNION || GroupSet(groups', g) != {})
            && (forall h :: h != g ==>
                  (h in groups'
                   <==> || h in groups
                        || (op == SCI_UNION && (h == g1 || h == g2))
                        || (op != SCI_UNION && h == g2 && SlicesOf(groups, g1) != map[])))
  {
    hide Combine, Union;
    OperateSlices(groups, g1, g2, op, g);
    if op != SCI_UNION { MadeIff(SlicesOf(groups, g1), SlicesOf(groups, g2), op); }
  }

  lemma MadeIff(a: Slices, b: Slices, op: SetOp)
    requires op != SCI_UNION
    ensures Combine(a, b, op) == map[] <==> Union(Combine(a, b, op)) == {}
  {
    EmptyIff(Combine(a, b, op));
  }

  /**
   * The same with a list in place of the second group; but a union takes the whole ALL slice of every successor that
   * the group uses, and the listed part of the others.
   */
  ghost predicate OperateExtEffect(groups: GroupMap, g1: int, list: set<int>, op: SetOp, g: int, groups': GroupMap) {
    && (forall c :: Slice(groups', g, c) ==
                    match op
                    case SCI_UNION =>
                      if c in SlicesOf(groups, g1) then Slice(groups, SCI_GROUP_ALL, c)
                      else Slice(groups, SCI_GROUP_ALL, c) * list
                    case SCI_INTERSECTION => Slice(groups, g1, c) * list
                    case SCI_DIFFERENCE => Slice(groups, g1, c) - list)
    && (forall c :: c in SlicesOf(groups', g)
                    <==> if op == SCI_UNION && c in SlicesOf(groups, g1) then c in SlicesOf(groups, SCI_GROUP_ALL)
                         else Slice(groups', g, c) != {})
    && (g in groups' <==> op == SCI_UNION || GroupSet(groups', g) != {})
    && (forall h :: h != g ==> SlicesOf(groups', h) == SlicesOf(groups, h))
    && (forall h :: h != g ==>
          (h in groups' <==> h in groups || (op == SCI_UNION && h == g1 && SlicesOf(groups, SCI_GROUP_ALL) != map[])))
  }

  lemma OperateExtDoes(groups: GroupMap, g1: int, list: set<int>, op: SetOp, g: int)
    requires g !in groups && g != g1
    ensures OperateExtEffect(groups, g1, list, op, g, OperateExtGroups(groups, g1, list, op, g))
  {
    var groups' := OperateExtGroups(groups, g1, list, op, g);
    var all, own := SlicesOf(groups, SCI_GROUP_ALL), SlicesOf(groups, g1);
    OperateExtSlices(groups, g1, list, op, g);
    forall c
      ensures Slice(groups', g, c) ==
              match op
              case SCI_UNION =>
                if c in SlicesOf(groups, g1) then Slice(groups, SCI_GROUP_ALL, c)
                else Slice(groups, SCI_GROUP_ALL, c) * list
              case SCI_INTERSECTION => Slice(groups, g1, c) * list
              case SCI_DIFFERENCE => Slice(groups, g1, c) - list
      ensures c in SlicesOf(groups', g)
              <==> if op == SCI_UNION && c in SlicesOf(groups, g1) then c in SlicesOf(groups, SCI_GROUP_ALL)
                   else Slice(groups', g, c) != {}
    {
      CombinedExtAt(all, own, list, op, c);
    }
    OperateExtKeys(groups, g1, list, op, g);
  }

  lemma CombinedExtAt(all: Slices, own: Slices, list: set<int>, op: SetOp, c: int)
    ensures Get(CombineExt(all, own, list, op), c) ==
            match op
            case SCI_UNION => if c in own then Get(all, c) else Get(all, c) * list
            case SCI_INTERSECTION => Get(own, c) * list
            case SCI_DIFFERENCE => Get(own, c) - list
    ensures c in CombineExt(all, own, list, op)
            <==> if op == SCI_UNION && c in own then c in all else Get(CombineExt(all, own, list, op), c) != {}
  {
  }

  lemma OperateExtKeys(groups: GroupMap, g1: int, list: set<int>, op: SetOp, g: int)
    requires g !in groups && g != g1
    ensures var groups' := OperateExtGroups(groups, g1, list, op, g);
            && (g in groups' <==> op == SCI_UNION || GroupSet(groups', g) != {})
            && (forall h :: h != g ==>
                  (h in groups'
                   <==> h in groups || (op == SCI_UNION && h == g1 && SlicesOf(groups, SCI_GROUP_ALL) != map[])))
  {
    hide CombineExt, Union;
    OperateExtSlices(groups, g1, list, op, g);
    if op != SCI_UNION { MadeExtIff(SlicesOf(groups, SCI_GROUP_ALL), SlicesOf(groups, g1), list, op); }
  }

  lemma MadeExtIff(all: Slices, own: Slices, list: set<int>, op: SetOp)
    requires op != SCI_UNION
    ensures CombineExt(all, own, list, op) == map[] <==> Union(CombineExt(all, own, list, op)) == {}
  {
    EmptyIff(CombineExt(all, own, list, op));
  }

  /** Only the group is gone. */
  ghost predicate RemoveEffect(groups: GroupMap, g: int, groups': GroupMap) {
    g !in groups' && forall h :: h != g ==> Same(groups, groups', h)
  }

  // ----- back ends and successors that come -----

  /** One slice of one group has new members; all other slices are left alone. */
  ghost predicate FileEffect(groups: GroupMap, g: int, succ: int, s: set<int>, groups': GroupMap) {
    && g in groups' && succ in SlicesOf(groups', g) && Slice(groups', g, succ) == s
    && (forall c :: c != succ ==>
          && Slice(groups', g, c) == Slice(groups, g, c)
          && (c in SlicesOf(groups', g) <==> c in SlicesOf(groups, g)))
    && (forall h :: h != g ==> Same(groups, groups', h))
  }

  /** `initSubGroup`: exactly the ids from `lo` to `hi`, both included, lead to the successor. */
  ghost predicate InitSubGroupEffect(groups: GroupMap, succ: int, lo: int, hi: int, groups': GroupMap) {
    exists s: set<int> :: FileEffect(groups, SCI_GROUP_ALL, succ, s, groups') && forall x :: x in s <==> lo <= x <= hi
  }

  lemma InitSubGroupDoes(t: Table, succ: int, lo: int, hi: int)
    ensures InitSubGroupEffect(t.groups, succ, lo, hi, InitSubGroup(t, succ, lo, hi).groups)
  {
    var s := Range(lo, hi + 1).Ids();
    assert FileEffect(t.groups, SCI_GROUP_ALL, succ, s, InitSubGroup(t, succ, lo, hi).groups);
    forall x
      ensures x in s <==> lo <= x <= hi
    {
      assert Range(lo, hi + 1).Has(x) <==> lo <= x <= hi;
    }
  }

  lemma AddBEDoes(t: Table, g: int, succ: int, be: int)
    ensures FileEffect(t.groups, g, succ, Slice(t.groups, g, succ) + {be}, AddBE(t, g, succ, be).groups)
  {
    hide ResetMany;
    var s := Slice(t.groups, g, succ) + {be};
    ResetGroups(t.(groups := PutSlice(t.groups, g, succ, s)), {g});
  }

  // ----- back ends and successors that go -----

  /**
   * The back end is in no slice any more. Slices it leaves empty are gone, except those of agents and of the attached
   * back ends in ALL, and so are groups without slices.
   */
  ghost predicate RemoveBEEffect(groups: GroupMap, be: int, groups': GroupMap) {
    && (forall g, c :: Slice(groups', g, c) == Slice(groups, g, c) - {be})
    && (forall g, c :: c in SlicesOf(groups', g)
                       <==> && c in SlicesOf(groups, g)
                            && (Slice(groups, g, c) - {be} != {} || (g == SCI_GROUP_ALL && c < 0)))
    && (forall g :: g in groups' <==> SlicesOf(groups', g) != map[])
  }

  lemma RemoveBEDoes(groups: GroupMap, be: int)
    ensures RemoveBEEffect(groups, be, RemoveBEGroups(groups, be))
  {
    var groups' := RemoveBEGroups(groups, be);
    forall g, c
      ensures Slice(groups', g, c) == Slice(groups, g, c) - {be}
      ensures c in SlicesOf(groups', g)
              <==> && c in SlicesOf(groups, g)
                   && (Slice(groups, g, c) - {be} != {} || (g == SCI_GROUP_ALL && c < 0))
    {
      RemoveBEPointwise(groups, be, g, c);
      StrippedKeys(groups, be, g, c);
    }
  }

  lemma StrippedKeys(groups: GroupMap, be: int, g: int, c: int)
    ensures c in SlicesOf(RemoveBEGroups(groups, be), g)
            <==> && c in SlicesOf(groups, g)
                 && (Slice(groups, g, c) - {be} != {} || (g == SCI_GROUP_ALL && c < 0))
  {
    if g in groups {
      var s := Stripped(g, groups[g], be);
      assert SlicesOf(RemoveBEGroups(groups, be), g) == s;
    }
  }

  /**
   * A dropped back end is in no attached slice any more; a dropped agent is no successor of any group any more. No
   * other slice and no group comes or goes.
   */
  ghost predicate DropEffect(groups: GroupMap, succ: int, groups': GroupMap) {
    && (forall g :: g in groups' <==> g in groups)
    && (succ >= 0 ==>
          && (forall g :: Slice(groups', g, VALIDBACKENDIDS) == Slice(groups, g, VALIDBACKENDIDS) - {succ})
          && (forall g, c :: c != VALIDBACKENDIDS ==> Slice(groups', g, c) == Slice(groups, g, c))
          && (forall g, c :: c in SlicesOf(groups', g) <==> c in SlicesOf(groups, g)))
    && (succ < 0 ==>
          && (forall g :: succ !in SlicesOf(groups', g))
          && (forall g, c :: c != succ ==> Slice(groups', g, c) == Slice(groups, g, c))
          && (forall g, c :: c != succ ==> (c in SlicesOf(groups', g) <==> c in SlicesOf(groups, g))))
  }

  lemma DropDoes(groups: GroupMap, succ: int)
    ensures DropEffect(groups, succ, DropGroups(groups, succ))
  {
  }

  /** With right caches a successor list names the agents with a slice, and the attached members, and nobody else. */
  lemma ListedIff(t: Table, g: int, c: int)
    requires Coherent(t)
    ensures c in SuccListAt(t, g)
            <==> (c != VALIDBACKENDIDS && c in SlicesOf(t.groups, g)) || c in Slice(t.groups, g, VALIDBACKENDIDS)
  {
    hide SuccListOf;
    var sl := SlicesOf(t.groups, g);
    assert SuccCoherentAt(t, g) by { assert CoherentAt(t, g); }
    SuccListMultiset(sl);
    assert c in SuccListAt(t, g) <==> c in multiset(SuccListAt(t, g));
  }

  /** After it was dropped, no message to any group is sent to an agent, nor to a back end as an attached one. */
  lemma DropUnlists(t: Table, succ: int, g: int)
    requires Coherent(t) && succ != VALIDBACKENDIDS
    requires succ < 0 ==> succ !in Slice(t.groups, g, VALIDBACKENDIDS)
    requires succ >= 0 ==> succ !in SlicesOf(t.groups, g)
    ensures succ !in SuccListAt(DropSuccessor(t, succ), g)
    ensures forall c :: c != succ && c != VALIDBACKENDIDS ==>
                          (c in SuccListAt(DropSuccessor(t, succ), g) <==> c in SuccListAt(t, g))
  {
    hide Coherent, ResetMany;
    var t' := DropSuccessor(t, succ);
    DropCoherent(t, succ);
    DropDoes(t.groups, succ);
    ResetGroups(t.(groups := DropGroups(t.groups, succ)), UsersOf(t.groups, KeyOf(succ)));
    ListedIff(t', g, succ);
    forall c | c != succ && c != VALIDBACKENDIDS
      ensures c in SuccListAt(t', g) <==> c in SuccListAt(t, g)
    {
      ListedIff(t', g, c);
      ListedIff(t, g, c);
    }
  }

  // ----- merging -----

  /** What the incoming table says about one group, filed under an agent: everything, taken from all other slices. */
  ghost predicate MergedAgent(groups: GroupMap, succ: int, incoming: GroupMap, g: int, groups': GroupMap) {
    && GroupSet(groups', g) == GroupSet(groups, g) + GroupSet(incoming, g)
    && succ in SlicesOf(groups', g)
    && Slice(groups', g, succ) == Slice(groups, g, succ) + GroupSet(incoming, g)
    && (forall c :: c != succ ==>
          && Slice(groups', g, c) == Slice(groups, g, c) - Slice(groups, g, succ) - GroupSet(incoming, g)
          && (c in SlicesOf(groups', g) <==> c in SlicesOf(groups, g)))
  }

  /** A back end that joins a group: it is attached, and in no other slice. */
  ghost predicate MergedBackEnd(groups: GroupMap, be: int, g: int, groups': GroupMap) {
    && GroupSet(groups', g) == GroupSet(groups, g) + {be}
    && VALIDBACKENDIDS in SlicesOf(groups', g)
    && Slice(groups', g, VALIDBACKENDIDS) == Slice(groups, g, VALIDBACKENDIDS) + {be}
    && (forall c :: c != VALIDBACKENDIDS ==>
          && Slice(groups', g, c) == Slice(groups, g, c) - {be}
          && (c in SlicesOf(groups', g) <==> c in SlicesOf(groups, g)))
  }

  /** Groups the incoming table does not have are left alone; of those only it has, `overwrite` decides. */
  ghost predicate MergeEffect(groups: GroupMap, succ: int, incoming: GroupMap, overwrite: bool, groups': GroupMap) {
    && (forall g :: g in groups' <==> g in groups || (overwrite && g in incoming))
    && (forall g :: g !in incoming ==> SlicesOf(groups', g) == SlicesOf(groups, g))
    && (forall g :: g in incoming && (g in groups || overwrite) ==>
          if succ < 0 then MergedAgent(groups, succ, incoming, g, groups') else MergedBackEnd(groups, succ, g, groups'))
  }

  lemma MergeDoes(groups: GroupMap, succ: int, incoming: GroupMap, overwrite: bool)
    ensures MergeEffect(groups, succ, incoming, overwrite, MergeGroups(groups, succ, incoming, overwrite))
  {
    hide MergedAgent, MergedBackEnd, MergeInto, Gain;
    var groups' := MergeGroups(groups, succ, incoming, overwrite);
    forall g | g in incoming && (g in groups || overwrite)
      ensures if succ < 0 then MergedAgent(groups, succ, incoming, g, groups')
              else MergedBackEnd(groups, succ, g, groups')
    {
      if succ < 0 {
        AgentMerged(groups, succ, incoming, overwrite, g);
      } else {
        BackEndMerged(groups, succ, incoming, overwrite, g);
      }
    }
  }

  lemma AgentMerged(groups: GroupMap, succ: int, incoming: GroupMap, overwrite: bool, g: int)
    requires g in incoming && (g in groups || overwrite) && succ < 0
    ensures MergedAgent(groups, succ, incoming, g, MergeGroups(groups, succ, incoming, overwrite))
  {
    var groups' := MergeGroups(groups, succ, incoming, overwrite);
    var sl, sl', own := SlicesOf(groups, g), SlicesOf(groups', g), Slice(groups, g, succ) + GroupSet(incoming, g);
    forall c
      ensures Get(sl', c) == if c == succ then own else Get(sl, c) - own
      ensures c in sl' <==> c in sl || c == succ
    {
      MergedAt(groups, succ, incoming, overwrite, g, c);
    }
    MovedUnion(sl, sl', succ, own, GroupSet(incoming, g));
  }

  lemma MergedAt(groups: GroupMap, succ: int, incoming: GroupMap, overwrite: bool, g: int, c: int)
    requires g in incoming && (g in groups || overwrite) && succ < 0
    ensures var sl' := SlicesOf(MergeGroups(groups, succ, incoming, overwrite), g);
            var own := Slice(groups, g, succ) + GroupSet(incoming, g);
            && Get(sl', c) == (if c == succ then own else Slice(groups, g, c) - own)
            && (c in sl' <==> c in SlicesOf(groups, g) || c == succ)
  {
    hide Union;
  }

  /** Moving what a slice owns out of all other slices loses nobody. */
  lemma MovedUnion(sl: Slices, sl': Slices, key: int, own: set<int>, gain: set<int>)
    requires own == Get(sl, key) + gain
    requires forall c :: Get(sl', c) == if c == key then own else Get(sl, c) - own
    ensures Union(sl') == Union(sl) + gain
  {
    hide Union;
    forall x
      ensures x in Union(sl') <==> x in Union(sl) || x in gain
    {
      UnionIff(sl, x);
      UnionIff(sl', x);
      if x in Union(sl') {
        var c :| x in Get(sl', c);
        assert c != key ==> x in Get(sl, c);
      }
      if x in own {
        assert x in Get(sl', key);
      } else if x in Union(sl) {
        var c :| x in Get(sl, c);
        assert x in Get(sl', c);
      }
    }
  }

  lemma BackEndMerged(groups: GroupMap, be: int, incoming: GroupMap, overwrite: bool, g: int)
    requires g in incoming && (g in groups || overwrite) && be >= 0
    ensures MergedBackEnd(groups, be, g, MergeGroups(groups, be, incoming, overwrite))
  {
    var groups' := MergeGroups(groups, be, incoming, overwrite);
    var sl, sl' := SlicesOf(groups, g), SlicesOf(groups', g);
    forall c
      ensures Get(sl', c) == if c == VALIDBACKENDIDS then Get(sl, c) + {be} else Get(sl, c) - {be}
      ensures c in sl' <==> c in sl || c == VALIDBACKENDIDS
    {
    }
    AttachedUnion(sl, sl', be);
  }

  lemma AttachedUnion(sl: Slices, sl': Slices, be: int)
    requires forall c :: Get(sl', c) == if c == VALIDBACKENDIDS then Get(sl, c) + {be} else Get(sl, c) - {be}
    ensures Union(sl') == Union(sl) + {be}
  {
    hide Union;
    forall x
      ensures x in Union(sl') <==> x in Union(sl) || x == be
    {
      UnionIff(sl, x);
      UnionIff(sl', x);
      if x in Union(sl') {
        var c :| x in Get(sl', c);
        assert x != be ==> x in Get(sl, c);
      }
      if x == be {
        assert x in Get(sl', VALIDBACKENDIDS);
      } else if x in Union(sl) {
        var c :| x in Get(sl, c);
        assert x in Get(sl', c);
      }
    }
  }

  // ----- the same of whole tables -----

  lemma CreateTable(t: Table, list: set<int>, g: int)
    requires g !in t.groups
    ensures CreateEffect(t.groups, list, g, Create(t, list, g).groups)
  {
    hide ResetMany, CreateEffect, CreateGroups;
    CreateDoes(t.groups, list, g);
    ResetGroups(t.(groups := CreateGroups(t.groups, list, g)), {g});
  }

  lemma OperateTable(t: Table, g1: int, g2: int, op: SetOp, g: int)
    requires g !in t.groups && g != g1 && g != g2
    ensures OperateEffect(t.groups, g1, g2, op, g, Operate(t, g1, g2, op, g).groups)
    ensures Made(op, Operated(t.groups, g1, g2, op)) <==> g in Operate(t, g1, g2, op, g).groups
  {
    hide ResetMany, OperateEffect, Combine;
    OperateDoes(t.groups, g1, g2, op, g);
    var after := t.(groups := OperateGroups(t.groups, g1, g2, op, g));
    ResetGroups(after, {g});
    ResetGroups(after, {});
  }

  lemma OperateExtTable(t: Table, g1: int, list: set<int>, op: SetOp, g: int)
    requires g !in t.groups && g != g1
    ensures OperateExtEffect(t.groups, g1, list, op, g, OperateExt(t, g1, list, op, g).groups)
    ensures Made(op, OperatedExt(t.groups, g1, list, op)) <==> g in OperateExt(t, g1, list, op, g).groups
  {
    hide ResetMany, OperateExtEffect, CombineExt;
    OperateExtDoes(t.groups, g1, list, op, g);
    var after := t.(groups := OperateExtGroups(t.groups, g1, list, op, g));
    ResetGroups(after, {g});
    ResetGroups(after, {});
  }

  lemma RemoveTable(t: Table, g: int)
    ensures RemoveEffect(t.groups, g, Remove(t, g).groups)
  {
  }

  lemma RemoveBETable(t: Table, be: int)
    ensures RemoveBEEffect(t.groups, be, RemoveBE(t, be).groups)
  {
    hide ResetMany, RemoveBEEffect, RemoveBEGroups, Vanishing;
    var gs := RemoveBEGroups(t.groups, be);
    RemoveBEDoes(t.groups, be);
    ResetGroups(EraseCaches(t.(groups := gs), Vanishing(t.groups, be)), gs.Keys);
  }

  lemma DropTable(t: Table, succ: int)
    ensures DropEffect(t.groups, succ, DropSuccessor(t, succ).groups)
  {
    hide ResetMany, DropEffect, DropGroups;
    DropDoes(t.groups, succ);
    ResetGroups(t.(groups := DropGroups(t.groups, succ)), UsersOf(t.groups, KeyOf(succ)));
  }

  lemma MergeTable(t: Table, succ: int, incoming: GroupMap, overwrite: bool)
    ensures MergeEffect(t.groups, succ, incoming, overwrite, Merge(t, succ, incoming, overwrite).groups)
  {
    hide ResetMany, MergeEffect, MergeGroups;
    var gs := MergeGroups(t.groups, succ, incoming, overwrite);
    MergeDoes(t.groups, succ, incoming, overwrite);
    ResetGroups(t.(groups := gs), gs.Keys * incoming.Keys);
  }
}
