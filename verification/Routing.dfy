/** What every operation on the routing table keeps, and therefore what holds after every run of them. */
module Routing {
  import opened Tables
  import opened TableAlgebra

  /** Ownership: one owner for each back end, and no group that disagrees about the owner. */
  ghost predicate Owned(groups: GroupMap) {
    Partitioned(groups) && Contained(groups)
  }

  /** Under the invariant a back end is found under one successor only, in ALL and in every group. */
  lemma OwnerUnique(groups: GroupMap, g: int, c: int, d: int, x: int)
    requires Owned(groups)
    requires x in Slice(groups, g, c) && x in Slice(groups, SCI_GROUP_ALL, d)
    ensures c == d
  {
    assert Slice(groups, g, c) <= Slice(groups, SCI_GROUP_ALL, c);
  }

  lemma GroupsDisjoint(groups: GroupMap, g: int)
    requires Owned(groups)
    ensures DisjointSlices(SlicesOf(groups, g))
  {
    RoutedGroup(groups, g);
    var all, a := SlicesOf(groups, SCI_GROUP_ALL), SlicesOf(groups, g);
    forall c, d | c in a && d in a && c != d
      ensures a[c] !! a[d]
    {
      assert Get(a, c) <= Get(all, c) && Get(a, d) <= Get(all, d);
    }
  }

  // ----- ownership, operation by operation -----

  /** A new group whose slices come out of ALL's. */
  lemma NewGroupOwned(groups: GroupMap, groups': GroupMap, g: int)
    requires Owned(groups) && g != SCI_GROUP_ALL
    requires forall h :: h != g ==> SlicesOf(groups', h) == SlicesOf(groups, h)
    requires forall c :: Slice(groups', g, c) <= Slice(groups, SCI_GROUP_ALL, c)
    ensures Owned(groups')
  {
    forall h, c
      ensures Slice(groups', h, c) <= Slice(groups', SCI_GROUP_ALL, c)
    {
      if h != g { assert Slice(groups, h, c) <= Slice(groups, SCI_GROUP_ALL, c); }
    }
  }

  lemma CreateOwned(groups: GroupMap, list: set<int>, g: int)
    requires Owned(groups) && g !in groups && g != SCI_GROUP_ALL
    ensures Owned(CreateGroups(groups, list, g))
  {
    CreateSlices(groups, list, g);
    NewGroupOwned(groups, CreateGroups(groups, list, g), g);
  }

  lemma OperateOwned(groups: GroupMap, g1: int, g2: int, op: SetOp, newgroup: int)
    requires Owned(groups)
    requires newgroup !in groups && newgroup != g1 && newgroup != g2 && newgroup != SCI_GROUP_ALL
    ensures Owned(OperateGroups(groups, g1, g2, op, newgroup))
  {
    OperateSlices(groups, g1, g2, op, newgroup);
    var groups' := OperateGroups(groups, g1, g2, op, newgroup);
    forall c
      ensures Slice(groups', newgroup, c) <= Slice(groups, SCI_GROUP_ALL, c)
    {
      assert Slice(groups, g1, c) <= Slice(groups, SCI_GROUP_ALL, c);
      assert Slice(groups, g2, c) <= Slice(groups, SCI_GROUP_ALL, c);
      assert Slice(groups', newgroup, c) <= Slice(groups, g1, c) + Slice(groups, g2, c);
    }
    NewGroupOwned(groups, groups', newgroup);
  }

  lemma OperateExtOwned(groups: GroupMap, g: int, list: set<int>, op: SetOp, newgroup: int)
    requires Owned(groups)
    requires newgroup !in groups && newgroup != g && newgroup != SCI_GROUP_ALL
    ensures Owned(OperateExtGroups(groups, g, list, op, newgroup))
  {
    OperateExtSlices(groups, g, list, op, newgroup);
    var groups' := OperateExtGroups(groups, g, list, op, newgroup);
    forall c
      ensures Slice(groups', newgroup, c) <= Slice(groups, SCI_GROUP_ALL, c)
    {
      assert Slice(groups, g, c) <= Slice(groups, SCI_GROUP_ALL, c);
    }
    NewGroupOwned(groups, groups', newgroup);
  }

  lemma PutSlicePointwise(groups: GroupMap, g: int, c: int, s: set<int>)
    ensures forall h, d :: Slice(PutSlice(groups, g, c, s), h, d) == if h == g && d == c then s else Slice(groups, h, d)
  {
  }

  /** `initSubGroup` and `addBE` on ALL: the slice of one successor grows by back ends nobody else owns. */
  lemma GrowAllOwned(groups: GroupMap, succ: int, s: set<int>)
    requires Owned(groups)
    requires Slice(groups, SCI_GROUP_ALL, succ) <= s
    requires forall d :: d != succ ==> Slice(groups, SCI_GROUP_ALL, d) !! s
    ensures Owned(PutSlice(groups, SCI_GROUP_ALL, succ, s))
  {
    var groups' := PutSlice(groups, SCI_GROUP_ALL, succ, s);
    PutSlicePointwise(groups, SCI_GROUP_ALL, succ, s);
    forall h, d
      ensures Slice(groups', h, d) <= Slice(groups', SCI_GROUP_ALL, d)
    {
      assert Slice(groups, h, d) <= Slice(groups, SCI_GROUP_ALL, d);
    }
    var all, all' := SlicesOf(groups, SCI_GROUP_ALL), SlicesOf(groups', SCI_GROUP_ALL);
    forall c, d | c in all' && d in all' && c != d
      ensures all'[c] !! all'[d]
    {
      assert c != succ ==> all'[c] == Slice(groups, SCI_GROUP_ALL, c);
      assert d != succ ==> all'[d] == Slice(groups, SCI_GROUP_ALL, d);
    }
  }

  /** `addBE` on another group: only back ends that ALL files under the same successor. */
  lemma GrowGroupOwned(groups: GroupMap, g: int, succ: int, be: int)
    requires Owned(groups) && g != SCI_GROUP_ALL && be in Slice(groups, SCI_GROUP_ALL, succ)
    ensures Owned(PutSlice(groups, g, succ, Slice(groups, g, succ) + {be}))
  {
    var s := Slice(groups, g, succ) + {be};
    PutSlicePointwise(groups, g, succ, s);
    forall c
      ensures Slice(PutSlice(groups, g, succ, s), g, c) <= Slice(groups, SCI_GROUP_ALL, c)
    {
      assert Slice(groups, g, c) <= Slice(groups, SCI_GROUP_ALL, c);
    }
    NewGroupOwned(groups, PutSlice(groups, g, succ, s), g);
  }

  /** Taking the same back ends out of a successor's slice in every group keeps ownership. */
  lemma ShrinkOwned(groups: GroupMap, groups': GroupMap, gone: map<int, set<int>>, rest: set<int>)
    requires Owned(groups)
    requires forall g, c :: Slice(groups', g, c) == Slice(groups, g, c) - (if c in gone then gone[c] else rest)
    ensures Owned(groups')
  {
    forall g, c
      ensures Slice(groups', g, c) <= Slice(groups', SCI_GROUP_ALL, c)
    {
      assert Slice(groups, g, c) <= Slice(groups, SCI_GROUP_ALL, c);
    }
    var all, all' := SlicesOf(groups, SCI_GROUP_ALL), SlicesOf(groups', SCI_GROUP_ALL);
    forall c, d | c in all' && d in all' && c != d
      ensures all'[c] !! all'[d]
    {
      assert all'[c] == Slice(groups', SCI_GROUP_ALL, c) <= Slice(groups, SCI_GROUP_ALL, c);
      assert all'[d] == Slice(groups', SCI_GROUP_ALL, d) <= Slice(groups, SCI_GROUP_ALL, d);
    }
  }

  lemma RemoveOwned(groups: GroupMap, g: int)
    requires Owned(groups) && g != SCI_GROUP_ALL
    ensures Owned(groups - {g})
  {
    NewGroupOwned(groups, groups - {g}, g);
  }

  lemma RemoveBEPointwise(groups: GroupMap, be: int, g: int, c: int)
    ensures Slice(RemoveBEGroups(groups, be), g, c) == Slice(groups, g, c) - {be}
  {
    if g in groups {
      var s := Stripped(g, groups[g], be);
      assert Get(s, c) == Get(groups[g], c) - {be};
      if s == map[] { assert Get(s, c) == {}; }
    }
  }

  lemma RemoveBEOwned(groups: GroupMap, be: int)
    requires Owned(groups)
    ensures Owned(RemoveBEGroups(groups, be))
  {
    forall g, c
      ensures Slice(RemoveBEGroups(groups, be), g, c) == Slice(groups, g, c) - {be}
    {
      RemoveBEPointwise(groups, be, g, c);
    }
    ShrinkOwned(groups, RemoveBEGroups(groups, be), map[], {be});
  }

  lemma DropPointwise(groups: GroupMap, succ: int, g: int, c: int)
    ensures Slice(DropGroups(groups, succ), g, c) ==
            if c != KeyOf(succ) then Slice(groups, g, c)
            else if succ >= 0 then Slice(groups, g, c) - {succ}
            else {}
  {
  }

  lemma DropOwned(groups: GroupMap, succ: int)
    requires Owned(groups)
    ensures Owned(DropGroups(groups, succ))
  {
    var gone := if succ >= 0 then {succ} else Slice(groups, SCI_GROUP_ALL, succ);
    forall g, c
      ensures Slice(DropGroups(groups, succ), g, c)
              == Slice(groups, g, c) - (if c in map[KeyOf(succ) := gone] then gone else {})
    {
      DropPointwise(groups, succ, g, c);
      assert Slice(groups, g, c) <= Slice(groups, SCI_GROUP_ALL, c);
    }
    ShrinkOwned(groups, DropGroups(groups, succ), map[KeyOf(succ) := gone], {});
  }

  // ----- merging a child's table -----

  /** What a merge files under the merged successor for group `g`: a back end itself, or all an agent reports. */
  ghost function Gains(succ: int, incoming: GroupMap, g: int): set<int> {
    if g !in incoming then {} else if succ >= 0 then {succ} else GroupSet(incoming, g)
  }

  /** The groups a merge writes to. */
  ghost predicate Merged(groups: GroupMap, incoming: GroupMap, overwrite: bool, g: int) {
    g in incoming && (g in groups || overwrite)
  }

  /** A merge moves ownership: the successor gains the incoming back ends, and every other slice loses them. */
  lemma MergePointwise(groups: GroupMap, succ: int, incoming: GroupMap, overwrite: bool, g: int, c: int)
    requires DisjointSlices(SlicesOf(groups, g))
    ensures Slice(MergeGroups(groups, succ, incoming, overwrite), g, c) ==
            if !Merged(groups, incoming, overwrite, g) then Slice(groups, g, c)
            else if c == KeyOf(succ) then Slice(groups, g, c) + Gains(succ, incoming, g)
            else Slice(groups, g, c) - Gains(succ, incoming, g)
  {
    if g in groups && g in incoming {
      var sl := groups[g];
      assert c in sl && c != KeyOf(succ) ==> sl[c] !! Get(sl, KeyOf(succ));
    }
  }

  /** Membership after a merge, and who owns what was merged. */
  lemma MergeMembership(groups: GroupMap, succ: int, incoming: GroupMap, overwrite: bool, g: int)
    requires DisjointSlices(SlicesOf(groups, g))
    ensures var groups' := MergeGroups(groups, succ, incoming, overwrite);
            && DisjointSlices(SlicesOf(groups', g))
            && (Merged(groups, incoming, overwrite, g) ==>
                  && GroupSet(groups', g) == GroupSet(groups, g) + Gains(succ, incoming, g)
                  && Gains(succ, incoming, g) <= Slice(groups', g, KeyOf(succ)))
            && (!Merged(groups, incoming, overwrite, g) ==> SlicesOf(groups', g) == SlicesOf(groups, g))
  {
    var groups' := MergeGroups(groups, succ, incoming, overwrite);
    var a, a', gain := SlicesOf(groups, g), SlicesOf(groups', g), Gains(succ, incoming, g);
    forall c
      ensures Merged(groups, incoming, overwrite, g) ==>
                Get(a', c) == if c == KeyOf(succ) then Get(a, c) + gain else Get(a, c) - gain
    {
      MergePointwise(groups, succ, incoming, overwrite, g, c);
    }
    if Merged(groups, incoming, overwrite, g) {
      forall c, d | c in a' && d in a' && c != d
        ensures a'[c] !! a'[d]
      {
        assert a'[c] == Get(a', c) && a'[d] == Get(a', d) && Get(a, c) !! Get(a, d);
      }
      forall x
        ensures x in Union(a') <==> x in Union(a) || x in gain
      {
        UnionIff(a, x);
        UnionIff(a', x);
        assert x in gain ==> x in Get(a', KeyOf(succ));
        if c :| x in Get(a, c) {
          assert x in Get(a', c) || x in gain;
        }
      }
    }
  }

  /** Incoming tables are tables: each group they report lies inside their ALL. */
  ghost predicate Reported(succ: int, incoming: GroupMap) {
    && SCI_GROUP_ALL in incoming
    && forall g :: Gains(succ, incoming, g) <= Gains(succ, incoming, SCI_GROUP_ALL)
  }

  /** Local members among the incoming back ends, filed elsewhere so far, are also in the incoming group. */
  ghost predicate Agreed(groups: GroupMap, succ: int, incoming: GroupMap) {
    forall g, c :: c != KeyOf(succ) ==>
      Slice(groups, g, c) * Gains(succ, incoming, SCI_GROUP_ALL) <= Gains(succ, incoming, g)
  }

  /** A merge always keeps one owner per back end; it keeps the groups in step exactly when they agree beforehand. */
  lemma MergeOwnedIff(groups: GroupMap, succ: int, incoming: GroupMap, overwrite: bool)
    requires Owned(groups) && SCI_GROUP_ALL in groups && Reported(succ, incoming)
    ensures Partitioned(MergeGroups(groups, succ, incoming, overwrite))
    ensures Contained(MergeGroups(groups, succ, incoming, overwrite)) <==> Agreed(groups, succ, incoming)
  {
    MergeMembership(groups, succ, incoming, overwrite, SCI_GROUP_ALL);
    var groups' := MergeGroups(groups, succ, incoming, overwrite);
    forall g, c
      ensures Slice(groups', g, c) <= Slice(groups', SCI_GROUP_ALL, c)
              <==> (c != KeyOf(succ) ==>
                      Slice(groups, g, c) * Gains(succ, incoming, SCI_GROUP_ALL) <= Gains(succ, incoming, g))
    {
      MergeContainedAt(groups, succ, incoming, overwrite, g, c);
    }
    ForallIff(groups, groups', succ, incoming);
  }

  lemma ForallIff(groups: GroupMap, groups': GroupMap, succ: int, incoming: GroupMap)
    requires forall g, c ::
               Slice(groups', g, c) <= Slice(groups', SCI_GROUP_ALL, c)
               <==> (c != KeyOf(succ) ==>
                       Slice(groups, g, c) * Gains(succ, incoming, SCI_GROUP_ALL) <= Gains(succ, incoming, g))
    ensures Contained(groups') <==> Agreed(groups, succ, incoming)
  {
    if Contained(groups') {
      forall g, c | c != KeyOf(succ)
        ensures Slice(groups, g, c) * Gains(succ, incoming, SCI_GROUP_ALL) <= Gains(succ, incoming, g)
      {
        assert Slice(groups', g, c) <= Slice(groups', SCI_GROUP_ALL, c);
      }
    }
  }

  lemma MergeContainedAt(groups: GroupMap, succ: int, incoming: GroupMap, overwrite: bool, g: int, c: int)
    requires Owned(groups) && SCI_GROUP_ALL in groups && Reported(succ, incoming)
    ensures var groups' := MergeGroups(groups, succ, incoming, overwrite);
            Slice(groups', g, c) <= Slice(groups', SCI_GROUP_ALL, c)
            <==> (c != KeyOf(succ) ==>
                    Slice(groups, g, c) * Gains(succ, incoming, SCI_GROUP_ALL) <= Gains(succ, incoming, g))
  {
    GroupsDisjoint(groups, g);
    MergePointwise(groups, succ, incoming, overwrite, g, c);
    MergePointwise(groups, succ, incoming, overwrite, SCI_GROUP_ALL, c);
    assert Slice(groups, g, c) <= Slice(groups, SCI_GROUP_ALL, c);
    assert Gains(succ, incoming, g) <= Gains(succ, incoming, SCI_GROUP_ALL);
    var sl, sa := Slice(groups, g, c), Slice(groups, SCI_GROUP_ALL, c);
    var gain, gall := Gains(succ, incoming, g), Gains(succ, incoming, SCI_GROUP_ALL);
    if c != KeyOf(succ) {
      if Merged(groups, incoming, overwrite, g) {
        SplitOff(sl, sa, gall, gain);
      } else {
        SplitOff(sl, sa, gall, {});
        if g in incoming { assert sl == {}; } else { assert gain == {}; }
      }
    }
  }

  /** Taking more from the whole than from a part keeps the part inside exactly when the part lost all of it too. */
  lemma SplitOff(part: set<int>, whole: set<int>, lost: set<int>, gain: set<int>)
    requires part <= whole && gain <= lost
    ensures part - gain <= whole - lost <==> part * lost <= gain
    ensures part - {} == part
  {
    if part - gain <= whole - lost {
      forall x | x in part * lost
        ensures x in gain
      {
        assert x !in whole - lost;
      }
    }
  }
}
