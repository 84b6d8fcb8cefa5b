/** The cached counts and lists agree with the slices after every operation. */
module CacheCoherence {
  import opened SortedSets
  import opened Ranges
  import opened Groups
  import opened Tables
  import opened TableAlgebra

  lemma ResetAt(t: Table, gs: set<int>, g: int)
    ensures g in gs ==>
              && BeListAt(ResetMany(t, gs), g) == BeListOf(SlicesOf(t.groups, g))
              && BeNumAt(ResetMany(t, gs), g) == |BeListOf(SlicesOf(t.groups, g))|
              && SuccListAt(ResetMany(t, gs), g) == SuccListOf(SlicesOf(t.groups, g))
              && SuccNumAt(ResetMany(t, gs), g) == |SuccListOf(SlicesOf(t.groups, g))|
    ensures g !in gs ==>
              && BeListAt(ResetMany(t, gs), g) == BeListAt(t, g)
              && BeNumAt(ResetMany(t, gs), g) == BeNumAt(t, g)
              && SuccListAt(ResetMany(t, gs), g) == SuccListAt(t, g)
              && SuccNumAt(ResetMany(t, gs), g) == SuccNumAt(t, g)
  {
    var bes, succs := BeLists(t.groups, gs), SuccLists(t.groups, gs);
    RecachedAt(t.beNum, t.beList, bes, g);
    RecachedAt(t.succNum, t.succList, succs, g);
    assert g in gs ==> bes[g] == BeListOf(SlicesOf(t.groups, g)) && succs[g] == SuccListOf(SlicesOf(t.groups, g));
    hide Renum, Relist, ListAt, NumAt;
  }

  lemma RecachedAt(nums: map<int, int>, was: map<int, seq<int>>, lists: map<int, seq<int>>, g: int)
    ensures ListAt(Relist(was, lists), g) == if g in lists then lists[g] else ListAt(was, g)
    ensures NumAt(Renum(nums, lists), g) == if g in lists then |lists[g]| else NumAt(nums, g)
  {
  }

  /** Rebuilding the caches of every group whose slices changed leaves all caches right. */
  lemma RecacheCoherent(t: Table, groups': GroupMap, gs: set<int>)
    requires forall g :: g !in gs ==> CoherentAt(t, g) && SlicesOf(groups', g) == SlicesOf(t.groups, g)
    ensures Coherent(ResetMany(t.(groups := groups'), gs))
  {
    var t' := t.(groups := groups');
    forall g
      ensures CoherentAt(ResetMany(t', gs), g)
    {
      ResetAt(t', gs, g);
      if g !in gs {
        assert CoherentAt(t, g);
      }
    }
  }

  lemma CreateCoherent(t: Table, list: set<int>, g: int)
    requires Coherent(t) && g !in t.groups
    ensures Coherent(Create(t, list, g))
  {
    CreateSlices(t.groups, list, g);
    RecacheCoherent(t, CreateGroups(t.groups, list, g), {g});
  }

  lemma OperateCoherent(t: Table, g1: int, g2: int, op: SetOp, newgroup: int)
    requires Coherent(t) && newgroup !in t.groups && newgroup != g1 && newgroup != g2
    ensures Coherent(Operate(t, g1, g2, op, newgroup))
  {
    OperateSlices(t.groups, g1, g2, op, newgroup);
    RecacheCoherent(t, OperateGroups(t.groups, g1, g2, op, newgroup),
                    if Made(op, Operated(t.groups, g1, g2, op)) then {newgroup} else {});
  }

  lemma OperateExtCoherent(t: Table, g: int, list: set<int>, op: SetOp, newgroup: int)
    requires Coherent(t) && newgroup !in t.groups && newgroup != g
    ensures Coherent(OperateExt(t, g, list, op, newgroup))
  {
    OperateExtSlices(t.groups, g, list, op, newgroup);
    RecacheCoherent(t, OperateExtGroups(t.groups, g, list, op, newgroup),
                    if Made(op, OperatedExt(t.groups, g, list, op)) then {newgroup} else {});
  }

  lemma AddBECoherent(t: Table, g: int, succ: int, be: int)
    requires Coherent(t)
    ensures Coherent(AddBE(t, g, succ, be))
  {
    hide CoherentAt, ResetMany, Slice;
    RecacheCoherent(t, PutSlice(t.groups, g, succ, Slice(t.groups, g, succ) + {be}), {g});
  }

  lemma DropCoherent(t: Table, succ: int)
    requires Coherent(t)
    ensures Coherent(DropSuccessor(t, succ))
  {
    var hit := UsersOf(t.groups, KeyOf(succ));
    forall g | g !in hit
      ensures SlicesOf(DropGroups(t.groups, succ), g) == SlicesOf(t.groups, g)
    {
      if g in t.groups { assert Dropped(t.groups[g], succ) == t.groups[g]; }
    }
    RecacheCoherent(t, DropGroups(t.groups, succ), hit);
  }

  lemma MergeCoherent(t: Table, succ: int, incoming: GroupMap, overwrite: bool)
    requires Coherent(t)
    ensures Coherent(Merge(t, succ, incoming, overwrite))
  {
    var gs := MergeGroups(t.groups, succ, incoming, overwrite);
    forall g | g !in gs.Keys * incoming.Keys
      ensures CoherentAt(t, g) && SlicesOf(gs, g) == SlicesOf(t.groups, g)
    {
    }
    RecacheCoherent(t, gs, gs.Keys * incoming.Keys);
  }

  lemma NoSlices(t: Table, g: int)
    requires SlicesOf(t.groups, g) == map[]
    ensures BeListOf(SlicesOf(t.groups, g)) == [] && SuccListOf(SlicesOf(t.groups, g)) == []
  {
    var none: Slices := map[];
    assert none.Keys == {};
  }

  lemma ErasedAt(t: Table, gs: set<int>, g: int)
    requires if g in gs then SlicesOf(t.groups, g) == map[] else CoherentAt(t, g)
    ensures CoherentAt(EraseCaches(t, gs), g)
  {
    if g in gs { NoSlices(t, g); }
  }

  /** The caches of a freed group go with it. */
  lemma RemoveCoherent(t: Table, g: int)
    requires Coherent(t)
    ensures Coherent(Remove(t, g))
  {
    var t' := t.(groups := t.groups - {g});
    forall h
      ensures CoherentAt(EraseCaches(t', {g}), h)
    {
      assert CoherentAt(t, h);
      assert h != g ==> SlicesOf(t'.groups, h) == SlicesOf(t.groups, h) && CoherentAt(t', h);
      ErasedAt(t', {g}, h);
    }
  }

  /** Removing a back end also clears the caches of the groups that vanish with it. */
  lemma RemoveBECoherent(t: Table, be: int)
    requires Coherent(t)
    ensures Coherent(RemoveBE(t, be))
  {
    var gs, gone := RemoveBEGroups(t.groups, be), Vanishing(t.groups, be);
    var t' := t.(groups := gs);
    var erased := EraseCaches(t', gone);
    forall g | g !in gs.Keys
      ensures CoherentAt(erased, g)
    {
      assert CoherentAt(t, g);
      assert g !in gone ==> g !in t.groups && CoherentAt(t', g);
      ErasedAt(t', gone, g);
    }
    RecacheCoherent(erased, gs, gs.Keys);
    assert erased.(groups := gs) == erased;
  }

  // ----- initSubGroup extends the caches by hand -----

  /** The back-end list of a group whose slice for `c` is replaced. */
  lemma BeListAfterPut(sl: Slices, c: int, s: set<int>)
    ensures multiset(BeListOf(sl[c := s])) + multiset(Get(sl, c)) == multiset(BeListOf(sl)) + multiset(s)
  {
    var a, b := multiset(BeListOf(sl[c := s])), multiset(BeListOf(sl));
    forall x
      ensures (a + multiset(Get(sl, c)))[x] == (b + multiset(s))[x]
    {
      PutCount(sl, c, s, x);
    }
  }

  /** The successor list of a group whose directly attached slice is replaced. */
  lemma SuccListAfterAttach(sl: Slices, s: set<int>)
    ensures multiset(SuccListOf(sl[VALIDBACKENDIDS := s])) + multiset(Get(sl, VALIDBACKENDIDS))
            == multiset(SuccListOf(sl)) + multiset(s)
  {
    var sl' := sl[VALIDBACKENDIDS := s];
    SuccListMultiset(sl);
    SuccListMultiset(sl');
    assert sl'.Keys - {VALIDBACKENDIDS} == sl.Keys - {VALIDBACKENDIDS};
  }

  /** The successor list of a group whose slice for an agent is replaced, or for a new agent added. */
  lemma SuccListAfterAgent(sl: Slices, c: int, s: set<int>)
    requires c != VALIDBACKENDIDS
    ensures multiset(SuccListOf(sl[c := s])) == multiset(SuccListOf(sl)) + if c in sl then multiset{} else multiset{c}
  {
    var sl' := sl[c := s];
    SuccListMultiset(sl);
    SuccListMultiset(sl');
    assert sl'.Keys == sl.Keys + {c};
    NewKey(sl.Keys, sl'.Keys, c, multiset(Get(sl, VALIDBACKENDIDS)));
  }

  lemma NewKey(keys: set<int>, keys': set<int>, c: int, b: multiset<int>)
    requires c != VALIDBACKENDIDS && keys' == keys + {c}
    ensures multiset(keys' - {VALIDBACKENDIDS}) + b
            == multiset(keys - {VALIDBACKENDIDS}) + b + if c in keys then multiset{} else multiset{c}
  {
    if c in keys {
      assert keys' == keys;
    } else {
      assert keys' - {VALIDBACKENDIDS} == (keys - {VALIDBACKENDIDS}) + {c};
      assert multiset((keys - {VALIDBACKENDIDS}) + {c}) == multiset(keys - {VALIDBACKENDIDS}) + multiset{c};
    }
  }

  lemma PutCount(sl: Slices, c: int, s: set<int>, x: int)
    ensures multiset(BeListOf(sl[c := s]))[x] + (if x in Get(sl, c) then 1 else 0)
            == multiset(BeListOf(sl))[x] + if x in s then 1 else 0
  {
    BeListCount(sl, x);
    BeListCount(sl[c := s], x);
    HoldersAfterPut(sl, c, s, x);
  }

  lemma HoldersAfterPut(sl: Slices, c: int, s: set<int>, x: int)
    ensures |Holders(sl[c := s], sl[c := s].Keys, x)| + (if x in Get(sl, c) then 1 else 0)
            == |Holders(sl, sl.Keys, x)| + if x in s then 1 else 0
  {
    var sl', keys := sl[c := s], sl.Keys - {c};
    assert sl'.Keys == {c} + keys;
    HoldersStep(sl', keys, c, x);
    assert Holders(sl', keys, x) == Holders(sl, keys, x);
    HoldersStep(sl, keys, c, x);
    assert Holders(sl, sl.Keys, x) == Holders(sl, {c} + keys, x);
  }

  lemma SpanMultiset(lo: int, hi: int)
    ensures multiset(Span(lo, hi)) == multiset(Range(lo, hi).Ids())
  {
    SpanEnumerates(lo, hi);
    AscendingMultiset(Span(lo, hi));
  }

  /**
   * `initSubGroup` overwrites the slice but only appends to the caches, so they stay right exactly when nothing
   * was overwritten: the successor is new, or it is the directly attached slice and that slice is empty.
   */
  lemma InitSubGroupCoherentIff(t: Table, succ: int, lo: int, hi: int)
    requires Coherent(t) && lo <= hi
    ensures Coherent(InitSubGroup(t, succ, lo, hi)) <==>
              (succ !in SlicesOf(t.groups, SCI_GROUP_ALL)
               || (succ == VALIDBACKENDIDS && Slice(t.groups, SCI_GROUP_ALL, succ) == {}))
  {
    var t', g := InitSubGroup(t, succ, lo, hi), SCI_GROUP_ALL;
    assert CoherentAt(t, g);
    InitSubGroupBe(t, succ, lo, hi);
    InitSubGroupSucc(t, succ, lo, hi);
    forall h | h != g
      ensures CoherentAt(t', h)
    {
      assert CoherentAt(t, h);
      OtherGroup(t, succ, lo, hi, h);
    }
    if CoherentAt(t', g) {
      assert forall h :: CoherentAt(t', h);
    } else {
      assert !Coherent(t');
    }
  }

  lemma OtherGroup(t: Table, succ: int, lo: int, hi: int, h: int)
    requires CoherentAt(t, h) && h != SCI_GROUP_ALL
    ensures CoherentAt(InitSubGroup(t, succ, lo, hi), h)
  {
    hide BeListOf, SuccListOf, Span;
  }

  lemma MultisetCancel(a: multiset<int>, b: multiset<int>, s: set<int>)
    requires a + multiset(s) == b
    ensures a == b <==> s == {}
  {
    if s != {} {
      NonEmptyHasMember(s);
      var x :| x in s;
      assert b[x] == a[x] + 1;
    }
  }

  lemma InitSubGroupBe(t: Table, succ: int, lo: int, hi: int)
    requires BeCoherentAt(t, SCI_GROUP_ALL) && lo <= hi
    ensures BeCoherentAt(InitSubGroup(t, succ, lo, hi), SCI_GROUP_ALL)
            <==> Slice(t.groups, SCI_GROUP_ALL, succ) == {}
  {
    var t', g := InitSubGroup(t, succ, lo, hi), SCI_GROUP_ALL;
    var sl, s := SlicesOf(t.groups, g), Range(lo, hi + 1).Ids();
    assert SlicesOf(t'.groups, g) == sl[succ := s];
    SpanMultiset(lo, hi + 1);
    BeListAfterPut(sl, succ, s);
    var a, b := multiset(BeListOf(sl[succ := s])), multiset(BeListAt(t', g));
    assert b == multiset(BeListAt(t, g)) + multiset(Span(lo, hi + 1)) by {
      assert BeListAt(t', g) == BeListAt(t, g) + Span(lo, hi + 1);
    }
    MultisetCancel(a, b, Get(sl, succ));
  }

  lemma InitSubGroupSucc(t: Table, succ: int, lo: int, hi: int)
    requires SuccCoherentAt(t, SCI_GROUP_ALL) && lo <= hi
    ensures SuccCoherentAt(InitSubGroup(t, succ, lo, hi), SCI_GROUP_ALL)
            <==> if succ == VALIDBACKENDIDS then Slice(t.groups, SCI_GROUP_ALL, succ) == {}
                 else succ !in SlicesOf(t.groups, SCI_GROUP_ALL)
  {
    var t', g := InitSubGroup(t, succ, lo, hi), SCI_GROUP_ALL;
    var sl, s := SlicesOf(t.groups, g), Range(lo, hi + 1).Ids();
    assert SlicesOf(t'.groups, g) == sl[succ := s];
    var a, b := multiset(SuccListOf(sl[succ := s])), multiset(SuccListAt(t', g));
    if succ == VALIDBACKENDIDS {
      SpanMultiset(lo, hi + 1);
      SuccListAfterAttach(sl, s);
      assert SuccListAt(t', g) == SuccListAt(t, g) + Span(lo, hi + 1);
      MultisetCancel(a, b, Get(sl, succ));
    } else {
      SuccListAfterAgent(sl, succ, s);
      assert SuccListAt(t', g) == SuccListAt(t, g) + [succ];
      assert b == multiset(SuccListOf(sl)) + multiset{succ};
      assert succ in sl ==> b[succ] == a[succ] + 1;
    }
  }
}
